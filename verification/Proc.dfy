/** kernel/proc.c: allocproc, fork, exit, wait, sleep, wakeup and kill. Each method is one
    section under ptable.lock, or one unlocked write of fork; any process may run any of them
    next, so the invariant holds in every interleaving. */
module Proc {
  import opened ProcTable

  // How a look through the table in wait ends.
  datatype Waited = Child(pid: nat) | NoChild | Sleeps

  class Ptable {
    const proc: array<Slot>
    const init: nat  // the slot of initproc
    var nextpid: nat
    ghost var phase: seq<Phase>
    ghost var reaped: set<nat>  // process numbers wait has returned

    ghost predicate Good()
      reads this, proc
    {
      TableOk(proc[..], phase, init, nextpid, reaped)
    }

    // Process i runs, at the given place.
    ghost predicate At(i: nat, ph: Phase)
      reads this, proc
    {
      i < proc.Length == |phase| && proc[i].state.Running? && phase[i] == ph
    }

    // After userinit: process 1 alone.
    constructor (n: nat)
      requires n > 0
      ensures Good() && fresh(proc) && proc.Length == n && init == 0 && Clean(proc[..])
      ensures proc[0] == Slot(Runnable, 1, -1, NoChan, false) && nextpid == 2 && reaped == {}
    {
      proc := new Slot[n](_ => Slot(Unused, 0, -1, NoChan, false));
      init, nextpid := 0, 2;
      phase, reaped := seq(n, _ => Elsewhere), {};
      new;
      proc[0] := Slot(Runnable, 1, -1, NoChan, false);
    }

    // One live process takes on state x.
    method SetLive(i: nat, x: Slot, ghost ph: Phase)
      requires Good() && i < proc.Length && i < |phase| && Live(proc[i]) && Live(x)
      requires x.pid == proc[i].pid && x.parent == proc[i].parent
      requires x.state.Sleeping? && x.chan.OfProc? ==> x.chan.p == i && ph == InWait && !ZombieChild(proc[..], i)
      requires phase[i].InFork? || ph.InFork? ==> ph == phase[i] && !x.state.Sleeping?
      modifies `phase, proc
      ensures Good() && proc[..] == old(proc[..])[i := x] && phase == old(phase)[i := ph]
    {
      hide TableOk, ZombieChild;
      LiveKeeps(proc[..], phase, init, nextpid, reaped, i, x, ph);
      proc[i] := x;
      phase := phase[i := ph];
    }

    // The scheduler picks i.
    method Schedule(i: nat)
      requires Good() && i < proc.Length == |phase| && proc[i].state.Runnable?
      modifies `phase, proc
      ensures Good() && proc[..] == old(proc[..])[i := old(proc[i]).(state := Running)] && phase == old(phase)
    {
      hide TableOk;
      SetLive(i, proc[i].(state := Running), phase[i]);
    }

    method Yield(i: nat)
      requires Good() && i < proc.Length == |phase| && proc[i].state.Running?
      modifies `phase, proc
      ensures Good() && proc[..] == old(proc[..])[i := old(proc[i]).(state := Runnable)] && phase == old(phase)
    {
      hide TableOk;
      SetLive(i, proc[i].(state := Runnable), phase[i]);
    }

    // ----- fork, run by process i -----

    // allocproc under the lock. The killed flag of the slot is left as it is.
    method Allocproc(i: nat) returns (j: int)
      requires Good() && At(i, Elsewhere)
      modifies this, proc
      ensures Good() && reaped == old(reaped)
      ensures j == -1 <==> forall k | 0 <= k < proc.Length :: !old(proc[..])[k].state.Unused?
      ensures j == -1 ==> proc[..] == old(proc[..]) && phase == old(phase) && nextpid == old(nextpid)
      ensures j != -1 ==> 0 <= j < proc.Length && At(i, InFork(j)) && old(proc[..])[j].state.Unused?
      ensures j != -1 ==> nextpid == old(nextpid) + 1
      ensures j != -1 ==> forall k | 0 <= k < j :: !old(proc[..])[k].state.Unused?
      ensures j != -1 ==>
                proc[..] == old(proc[..])[j := Slot(Embryo, old(nextpid), -1, old(proc[..])[j].chan, old(proc[..])[j].killed)]
    {
      hide TableOk;
      ghost var s := proc[..];
      var p := 0;
      while p < proc.Length && !proc[p].state.Unused?
        invariant 0 <= p <= proc.Length
        invariant forall k | 0 <= k < p :: !s[k].state.Unused?
        modifies {}
      {
        p := p + 1;
      }
      if p == proc.Length {
        return -1;
      }
      AllocKeeps(s, phase, init, nextpid, reaped, i, p);
      proc[p] := proc[p].(state := Embryo);
      proc[p] := proc[p].(pid := nextpid);
      nextpid := nextpid + 1;
      phase := phase[i := InFork(p)];
      assert proc[..] == s[p := s[p].(state := Embryo, pid := old(nextpid))];
      j := p;
    }

    // No kernel stack, or copyuvm failed: the slot is given up, process number and all.
    method ForkFail(i: nat, j: nat)
      requires Good() && At(i, InFork(j)) && j < proc.Length && proc[j].parent == -1
      modifies `phase, proc
      ensures Good() && At(i, Elsewhere)
      ensures proc[..] == old(proc[..])[j := old(proc[j]).(state := Unused)]
      ensures old(Clean(proc[..])) ==> (Clean(proc[..]) <==> !old(proc[j]).killed)
    {
      hide TableOk, Clean;
      EmbryoKeeps(proc[..], phase, init, nextpid, reaped, i, proc[j].(state := Unused), true);
      UnusedClean(proc[..], j);
      proc[j] := proc[j].(state := Unused);
      phase := phase[i := Elsewhere];
    }

    method ForkParent(i: nat, j: nat)
      requires Good() && At(i, InFork(j)) && j < proc.Length
      modifies proc
      ensures Good() && At(i, InFork(j))
      ensures proc[..] == old(proc[..])[j := old(proc[j]).(parent := i)]
    {
      hide TableOk;
      TheEmbryo(proc[..], phase, init, nextpid, reaped, i);
      EmbryoKeeps(proc[..], phase, init, nextpid, reaped, i, proc[j].(parent := i), false);
      assert phase[i := phase[i]] == phase;
      proc[j] := proc[j].(parent := i);
    }

    // The child becomes runnable, killed if its slot was marked.
    method ForkCommit(i: nat, j: nat) returns (pid: nat)
      requires Good() && At(i, InFork(j)) && j < proc.Length && proc[j].parent == i
      modifies `phase, proc
      ensures Good() && At(i, Elsewhere) && pid == old(proc[j]).pid
      ensures proc[..] == old(proc[..])[j := old(proc[j]).(state := Runnable)]
      ensures proc[j].killed == old(proc[j]).killed
    {
      hide TableOk;
      EmbryoKeeps(proc[..], phase, init, nextpid, reaped, i, proc[j].(state := Runnable), true);
      pid := proc[j].pid;
      proc[j] := proc[j].(state := Runnable);
      phase := phase[i := Elsewhere];
    }

    // ----- wakeup and sleep -----

    method Wakeup1(chan: Chan)
      modifies proc
      ensures proc[..] == Woken(old(proc[..]), chan)
      ensures forall k | 0 <= k < proc.Length ::
                proc[k] == if old(proc[k]).state == Sleeping && old(proc[k]).chan == chan
                           then old(proc[k]).(state := Runnable) else old(proc[k])
    {
      var p := 0;
      while p < proc.Length
        invariant 0 <= p <= proc.Length
        invariant forall k | 0 <= k < p :: proc[k] == WakeOne(old(proc[..])[k], chan)
        invariant forall k | p <= k < proc.Length :: proc[k] == old(proc[..])[k]
      {
        if proc[p].state.Sleeping? && proc[p].chan == chan {
          proc[p] := proc[p].(state := Runnable);
        }
        p := p + 1;
      }
    }

    method Wakeup(chan: Chan)
      requires Good()
      modifies proc
      ensures Good()
      ensures forall k | 0 <= k < proc.Length ::
                proc[k] == if old(proc[k]).state == Sleeping && old(proc[k]).chan == chan
                           then old(proc[k]).(state := Runnable) else old(proc[k])
    {
      hide TableOk;
      Wakeup1(chan);
      WakingKeeps(old(proc[..]), phase, init, nextpid, reaped, proc[..]);
    }

    // sleep on an event, from taking ptable.lock to sched.
    method Sleep(i: nat, e: nat)
      requires Good() && At(i, Elsewhere)
      modifies `phase, proc
      ensures Good() && proc[..] == old(proc[..])[i := old(proc[i]).(state := Sleeping, chan := Event(e))]
      ensures phase == old(phase)
    {
      hide TableOk;
      SetLive(i, proc[i].(chan := Event(e), state := Sleeping), Elsewhere);
    }

    // The return from sleep.
    method Tidy(i: nat)
      requires Good() && i < proc.Length == |phase| && proc[i].state.Running?
      modifies `phase, proc
      ensures Good() && phase == old(phase)
      ensures proc[..] == old(proc[..])[i := old(proc[i]).(chan := NoChan)]
    {
      hide TableOk;
      SetLive(i, proc[i].(chan := NoChan), phase[i]);
    }

    // ----- exit and wait -----

    method Exit(i: nat)
      requires Good() && At(i, Elsewhere) && i != init
      modifies proc
      ensures Good() && proc[i] == old(proc[i]).(state := Zombie)
      ensures var z := exists j :: 0 <= j < proc.Length && old(proc[..])[j].parent == i && old(proc[..])[j].state == Zombie;
        forall k | 0 <= k < proc.Length && k != i ::
          var x, y := old(proc[k]), proc[k];
          && y.pid == x.pid && y.chan == x.chan && y.killed == x.killed
          && y.parent == (if x.parent == i then init else x.parent)
          && y.state == (if x.state == Sleeping && (x.chan == OfProc(old(proc[i]).parent) || (z && x.chan == OfProc(init)))
                         then Runnable else x.state)
    {
      hide TableOk, Exited, ZombieChild;
      ghost var s := proc[..];
      NotOwnParent(s, init, i);
      ExitKeeps(s, phase, init, nextpid, reaped, i);
      Wakeup1(OfProc(proc[i].parent));
      Abandon(i);
      ExitedParts(s, i, init, proc[..]);
      proc[i] := proc[i].(state := Zombie);
      ExitedIs(s, i, init, exists j :: 0 <= j < |s| && s[j].parent == i && s[j].state == Zombie);
    }

    // The loop of exit: children go to init, which is woken for each zombie.
    method Abandon(i: nat)
      requires i < proc.Length
      modifies proc
      ensures proc[..] == HandedOver(old(proc[..]), i, init)
      ensures var z := exists j :: 0 <= j < proc.Length && old(proc[..])[j].parent == i && old(proc[..])[j].state == Zombie;
        forall k | 0 <= k < proc.Length ::
          var x, y := old(proc[k]), proc[k];
          && y.pid == x.pid && y.chan == x.chan && y.killed == x.killed
          && y.parent == (if x.parent == i then init else x.parent)
          && y.state == (if z && x.state == Sleeping && x.chan == OfProc(init) then Runnable else x.state)
    {
      hide ZombieChild;
      ghost var s := proc[..];
      ghost var z := false;
      var p := 0;
      while p < proc.Length
        invariant 0 <= p <= proc.Length
        invariant z <==> exists k :: 0 <= k < p && s[k].parent == i && s[k].state.Zombie?
        invariant forall k | 0 <= k < proc.Length ::
                    proc[k] == MaybeWoken(if k < p then Adopt(s[k], i, init) else s[k], z, init)
      {
        if proc[p].parent == i {
          proc[p] := proc[p].(parent := init);
          if proc[p].state.Zombie? {
            Wakeup1(OfProc(init));
            z := true;
          }
        }
        p := p + 1;
      }
      HandedOverIs(s, i, init, z, proc[..]);
    }

    // One look through the table in wait; on a return from sleep the channel is cleared first.
    method Wait(i: nat, resumed: bool) returns (r: Waited)
      requires Good() && At(i, if resumed then InWait else Elsewhere)
      modifies `phase, `reaped, proc
      ensures Good()
      ensures r.Child? ==>
                && r.pid !in old(reaped) && reaped == old(reaped) + {r.pid} && At(i, Elsewhere)
                && exists j :: 0 <= j < proc.Length && j != i && old(proc[..])[j].state == Zombie
                     && old(proc[..])[j].parent == i && old(proc[..])[j].pid == r.pid
                     && (forall k | 0 <= k < j && old(proc[..])[k].parent == i :: old(proc[..])[k].state != Zombie)
                     && proc[j] == Slot(Unused, 0, -1, old(proc[..])[j].chan, false)
                     && proc[i] == (if resumed then old(proc[..])[i].(chan := NoChan) else old(proc[..])[i])
                     && forall k | 0 <= k < proc.Length && k != i && k != j :: proc[k] == old(proc[..])[k]
      ensures !r.Child? ==>
                reaped == old(reaped) && forall j | 0 <= j < proc.Length && old(proc[j]).parent == i :: old(proc[j]).state != Zombie
      ensures r.NoChild? ==> At(i, Elsewhere)
      ensures r.NoChild? ==>
                proc[..] == if resumed then old(proc[..])[i := old(proc[..])[i].(chan := NoChan)] else old(proc[..])
      ensures r.NoChild? ==> proc[i].killed || forall j | 0 <= j < proc.Length :: proc[j].parent != i
      ensures r.Sleeps? ==> !proc[i].killed && phase == old(phase)[i := InWait]
      ensures r.Sleeps? ==> proc[..] == old(proc[..])[i := old(proc[..])[i].(state := Sleeping, chan := OfProc(i))]
      ensures r.Sleeps? ==> exists j :: 0 <= j < proc.Length && proc[j].parent == i
    {
      hide TableOk;
      if resumed {
        Tidy(i);
      }
      ghost var s := proc[..];
      NotOwnParent(s, init, i);
      var havekids, p := false, 0;
      while p < proc.Length
        invariant 0 <= p <= proc.Length
        invariant forall k | 0 <= k < p && s[k].parent == i :: !s[k].state.Zombie?
        invariant havekids <==> exists k :: 0 <= k < p && s[k].parent == i
        invariant Good() && proc[..] == s && phase == old(phase) && reaped == old(reaped)
      {
        if proc[p].parent == i {
          havekids := true;
          if proc[p].state.Zombie? {
            r := Child(proc[p].pid);
            assert s == Tidied(old(proc[..]), i, resumed);
            FirstBefore(old(proc[..]), i, resumed, p);
            Reap(i, p);
            return;
          }
        }
        p := p + 1;
      }
      SameZombies(s, i, old(proc[..]));
      if !havekids || proc[i].killed {
        SetLive(i, proc[i], Elsewhere);
        return NoChild;
      }
      SetLive(i, proc[i].(chan := OfProc(i), state := Sleeping), InWait);
      SameZombies(s, i, proc[..]);
      r := Sleeps;
    }

    method Reap(i: nat, j: nat)
      requires Good() && (At(i, Elsewhere) || At(i, InWait)) && j < proc.Length && i != j
      requires proc[j].state.Zombie? && proc[j].parent == i
      modifies `phase, `reaped, proc
      ensures Good() && At(i, Elsewhere) && old(proc[j]).pid !in old(reaped)
      ensures proc[..] == old(proc[..])[j := Slot(Unused, 0, -1, old(proc[j]).chan, false)]
      ensures reaped == old(reaped) + {old(proc[j]).pid}
    {
      hide TableOk;
      ReapKeeps(proc[..], phase, init, nextpid, reaped, i, j);
      reaped := reaped + {proc[j].pid};
      proc[j] := proc[j].(state := Unused);
      proc[j] := proc[j].(pid := 0);
      proc[j] := proc[j].(parent := -1);
      proc[j] := proc[j].(killed := false);
      phase := phase[i := Elsewhere];
      assert proc[..] == old(proc[..])[j := Reaped(old(proc[j]))];
    }

    // kill marks the first slot with that number, in use or not; unused slots stay unmarked
    // exactly when it is one in use.
    method Kill(pid: nat) returns (r: int, ghost j: nat)
      requires Good()
      modifies proc
      ensures Good() && (r == 0 || r == -1)
      ensures r == 0 <==> exists k: nat :: k < proc.Length && old(proc[..])[k].pid == pid
      ensures r == 0 ==> j < proc.Length && old(proc[..])[j].pid == pid && forall k | 0 <= k < j :: old(proc[..])[k].pid != pid
      ensures r == 0 ==> proc[j].killed && proc[j] == old(proc[..])[j].(killed := true, state := proc[j].state)
      ensures r == 0 ==>
                proc[j].state == if old(proc[..])[j].state == Sleeping then Runnable else old(proc[..])[j].state
      ensures forall k | 0 <= k < proc.Length && (r == -1 || k != j) :: proc[k] == old(proc[k])
      ensures old(Clean(proc[..])) ==>
                (Clean(proc[..]) <==> r == -1 || !old(proc[..])[j].state.Unused?)
    {
      hide TableOk, Clean;
      ghost var s := proc[..];
      var p := 0;
      while p < proc.Length
        invariant 0 <= p <= proc.Length && proc[..] == s
        invariant forall k | 0 <= k < p :: s[k].pid != pid
      {
        if proc[p].pid == pid {
          if old(Clean(proc[..])) { KillClean(s, p); }
          proc[p] := proc[p].(killed := true);
          if proc[p].state.Sleeping? {
            proc[p] := proc[p].(state := Runnable);
          }
          assert proc[..] == s[p := Killed(s[p])];
          WakingKeeps(s, phase, init, nextpid, reaped, proc[..]);
          return 0, p;
        }
        p := p + 1;
      }
      return -1, 0;
    }
  }

  lemma TheEmbryo(s: seq<Slot>, phase: seq<Phase>, init: nat, nextpid: nat, reaped: set<nat>, i: nat)
    requires TableOk(s, phase, init, nextpid, reaped) && i < |s| && i < |phase| && phase[i].InFork?
    ensures phase[i].child < |s| && s[phase[i].child].state.Embryo?
  {
    TheFork(s, phase, i);
  }

  lemma UnusedClean(s: seq<Slot>, j: nat)
    requires j < |s| && s[j].state.Embryo?
    ensures Clean(s) ==> (Clean(s[j := s[j].(state := Unused)]) <==> !s[j].killed)
  {
    var r := s[j := s[j].(state := Unused)];
    assert r[j].state.Unused?;
  }

  // ----- the loop of exit -----

  function Adopt(x: Slot, i: nat, init: nat): Slot { if x.parent == i then x.(parent := init) else x }

  function MaybeWoken(x: Slot, z: bool, init: nat): Slot { if z then WakeOne(x, OfProc(init)) else x }

  ghost function HandedOver(s: seq<Slot>, i: nat, init: nat): seq<Slot> {
    var s2 := Adopted(s, i, init);
    if ZombieChild(s, i) then Woken(s2, OfProc(init)) else s2
  }

  lemma HandedOverIs(s: seq<Slot>, i: nat, init: nat, z: bool, r: seq<Slot>)
    requires z <==> exists k :: 0 <= k < |s| && s[k].parent == i && s[k].state.Zombie?
    requires |r| == |s| && forall k | 0 <= k < |r| :: r[k] == MaybeWoken(Adopt(s[k], i, init), z, init)
    ensures r == HandedOver(s, i, init)
  {
  }

  lemma ExitedParts(s: seq<Slot>, i: nat, init: nat, r: seq<Slot>)
    requires i < |s| && s[i].parent >= 0 && r == HandedOver(Woken(s, OfProc(s[i].parent)), i, init)
    ensures |r| == |s| && Exited(s, i, init) == r[i := r[i].(state := Zombie)]
  {
    var s1 := Woken(s, OfProc(s[i].parent));
    if j :| 0 <= j < |s| && s[j].parent == i && s[j].state.Zombie? { assert s1[j].parent == i && s1[j].state.Zombie?; }
    if j :| 0 <= j < |s1| && s1[j].parent == i && s1[j].state.Zombie? { assert s[j].parent == i && s[j].state.Zombie?; }
  }

  // ----- wait -----

  // The first zombie child in table order.
  ghost predicate FirstZombie(s: seq<Slot>, i: nat, j: nat, pid: nat) {
    && j < |s| && j != i && s[j].state.Zombie? && s[j].parent == i && s[j].pid == pid
    && forall k | 0 <= k < j && s[k].parent == i :: !s[k].state.Zombie?
  }

  // The table once a process that returned from sleep has cleared its channel.
  ghost function Tidied(s: seq<Slot>, i: nat, resumed: bool): seq<Slot>
    requires i < |s|
  {
    if resumed then s[i := s[i].(chan := NoChan)] else s
  }

  lemma FirstBefore(s: seq<Slot>, i: nat, resumed: bool, j: nat)
    requires i < |s| && j < |s| && i != j
    requires FirstZombie(Tidied(s, i, resumed), i, j, s[j].pid)
    ensures FirstZombie(s, i, j, s[j].pid)
  {
    var t := Tidied(s, i, resumed);
    assert forall k | 0 <= k < |s| :: t[k].parent == s[k].parent && t[k].state == s[k].state && t[k].pid == s[k].pid;
  }

  lemma NotOwnParent(s: seq<Slot>, init: nat, i: nat)
    requires i < |s| && exists ph, np, rs :: TableOk(s, ph, init, np, rs)
    ensures s[i].parent != i
  {
  }

  lemma SameZombies(s: seq<Slot>, i: nat, r: seq<Slot>)
    requires i < |s| == |r| && s[i].parent != i && forall k | 0 <= k < |s| && k != i :: r[k] == s[k]
    requires r[i].parent == s[i].parent && forall k | 0 <= k < |s| && s[k].parent == i :: !s[k].state.Zombie?
    ensures !ZombieChild(r, i)
  {
  }

  // ----- readings of the invariant -----

  // A parent asleep in wait has no child left to collect, and every forked process's parent is live.
  lemma WaitersMissNothing(s: seq<Slot>, phase: seq<Phase>, init: nat, nextpid: nat, reaped: set<nat>, i: nat)
    requires TableOk(s, phase, init, nextpid, reaped) && i < |s|
    ensures InWaitSleep(s[i], i) ==> !ZombieChild(s, i)
    ensures s[i].state.Zombie? || s[i].state.Unused? ==> forall j | 0 <= j < |s| :: s[j].parent != i
    ensures Forked(s[i]) && i != init ==> 0 <= s[i].parent < |s| && Live(s[s[i].parent])
  {
    forall j | 0 <= j < |s| && InWaitSleep(s[i], i) && s[j].parent == i
      ensures !s[j].state.Zombie?
    {
    }
  }

  // kill(0) succeeds on an unused slot; the next process made there is born killed.
  lemma KillZeroMarksUnused(n: nat)
    requires n >= 2
    ensures var s := [Slot(Runnable, 1, -1, NoChan, false)] + seq(n - 1, _ => Slot(Unused, 0, -1, NoChan, false));
      Clean(s) && Target(s, 0, 1) && !Clean(s[1 := Killed(s[1])])
  {
    var s := [Slot(Runnable, 1, -1, NoChan, false)] + seq(n - 1, _ => Slot(Unused, 0, -1, NoChan, false));
    KillClean(s, 1);
  }
}
