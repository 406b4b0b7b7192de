/** The process table of kernel/proc.c and what every section under ptable.lock keeps. */
module ProcTable {
  datatype State = Unused | Embryo | Sleeping | Runnable | Running | Zombie

  // A sleep channel: none, a process slot's address (used by wait), or any other address.
  datatype Chan = NoChan | OfProc(p: nat) | Event(e: nat)

  // parent is a slot, or -1 for NULL.
  datatype Slot = Slot(state: State, pid: nat, parent: int, chan: Chan, killed: bool)

  // Where the code of a live process stands: in fork after allocproc gave it a slot, in wait,
  // or elsewhere.
  datatype Phase = Elsewhere | InFork(child: nat) | InWait

  predicate Live(x: Slot) { x.state.Sleeping? || x.state.Runnable? || x.state.Running? }

  predicate Forked(x: Slot) { Live(x) || x.state.Zombie? }

  // ----- the invariant -----

  // Every parent is live, so zombies and unused slots have no children; every forked process
  // but init has a parent.
  ghost predicate ParentsOk(s: seq<Slot>, init: nat) {
    && init < |s| && Live(s[init]) && s[init].parent == -1
    && (forall j | 0 <= j < |s| && s[j].parent != -1 :: 0 <= s[j].parent < |s| && s[j].parent != j && Live(s[s[j].parent]))
    && (forall j | 0 <= j < |s| && Forked(s[j]) && j != init :: s[j].parent != -1)
    && (forall j | 0 <= j < |s| && s[j].state.Unused? :: s[j].parent == -1)
  }

  predicate InWaitSleep(x: Slot, i: nat) { x.state.Sleeping? && x.chan == OfProc(i) }

  // Nobody sleeps in wait with a zombie child, and only wait sleeps on a process.
  ghost predicate WaitersOk(s: seq<Slot>, phase: seq<Phase>) {
    && |phase| == |s|
    && (forall i, j | 0 <= i < |s| && 0 <= j < |s| && InWaitSleep(s[i], i) && s[j].parent == i :: !s[j].state.Zombie?)
    && (forall i | 0 <= i < |s| && s[i].state.Sleeping? && s[i].chan.OfProc? :: s[i].chan.p == i && phase[i] == InWait)
  }

  // An embryo is being made by one process in fork, which is the only one to use it.
  ghost predicate ForksOk(s: seq<Slot>, phase: seq<Phase>) {
    && |phase| == |s|
    && (forall i | 0 <= i < |s| && phase[i].InFork? :: ForkOk(s, i, phase[i].child))
    && (forall i, j | 0 <= i < |s| && 0 <= j < |s| && i != j && phase[i].InFork? && phase[j].InFork? ::
          phase[i].child != phase[j].child)
    && (forall i | 0 <= i < |s| && !Live(s[i]) :: phase[i] == Elsewhere)
  }

  ghost predicate ForkOk(s: seq<Slot>, i: nat, child: nat)
    requires i < |s|
  {
    && child < |s| && s[child].state.Embryo? && (s[child].parent == -1 || s[child].parent == i)
    && (s[i].state.Running? || s[i].state.Runnable?)
  }

  // Process numbers are never reused: those in the table differ from each other and from
  // those wait has returned.
  ghost predicate PidsOk(s: seq<Slot>, nextpid: nat, reaped: set<nat>) {
    && nextpid >= 1
    && (forall j | 0 <= j < |s| :: s[j].pid < nextpid && s[j].pid !in reaped && (!s[j].state.Unused? ==> s[j].pid != 0))
    && (forall i, j | 0 <= i < j < |s| && s[i].pid != 0 :: s[i].pid != s[j].pid)
    && (forall p | p in reaped :: 0 < p < nextpid)
  }

  ghost predicate TableOk(s: seq<Slot>, phase: seq<Phase>, init: nat, nextpid: nat, reaped: set<nat>) {
    ParentsOk(s, init) && WaitersOk(s, phase) && ForksOk(s, phase) && PidsOk(s, nextpid, reaped)
  }

  // ----- wakeup -----

  function WakeOne(x: Slot, chan: Chan): Slot {
    if x.state.Sleeping? && x.chan == chan then x.(state := Runnable) else x
  }

  function Woken(s: seq<Slot>, chan: Chan): (r: seq<Slot>)
    ensures |r| == |s| && forall j | 0 <= j < |s| :: r[j] == WakeOne(s[j], chan)
  {
    seq(|s|, j requires 0 <= j < |s| => WakeOne(s[j], chan))
  }

  // Some sleepers made runnable; killed flags apart, nothing else.
  ghost predicate SomeWoken(s: seq<Slot>, r: seq<Slot>) {
    && |r| == |s|
    && (forall j | 0 <= j < |s| :: r[j].pid == s[j].pid && r[j].parent == s[j].parent && r[j].chan == s[j].chan)
    && (forall j | 0 <= j < |s| :: r[j].state == s[j].state || (s[j].state.Sleeping? && r[j].state.Runnable?))
  }

  lemma WakingKeeps(s: seq<Slot>, phase: seq<Phase>, init: nat, nextpid: nat, reaped: set<nat>, r: seq<Slot>)
    requires TableOk(s, phase, init, nextpid, reaped) && SomeWoken(s, r)
    ensures TableOk(r, phase, init, nextpid, reaped)
  {
    WakingParents(s, init, r);
    WakingWaiters(s, phase, r);
    WakingForks(s, phase, r);
  }

  lemma WakingParents(s: seq<Slot>, init: nat, r: seq<Slot>)
    requires ParentsOk(s, init) && SomeWoken(s, r)
    ensures ParentsOk(r, init)
  {
  }

  lemma WakingWaiters(s: seq<Slot>, phase: seq<Phase>, r: seq<Slot>)
    requires WaitersOk(s, phase) && SomeWoken(s, r)
    ensures WaitersOk(r, phase)
  {
    forall i, j | 0 <= i < |r| && 0 <= j < |r| && InWaitSleep(r[i], i) && r[j].parent == i
      ensures !r[j].state.Zombie?
    {
      assert InWaitSleep(s[i], i) && s[j].parent == i;
    }
  }

  lemma WakingForks(s: seq<Slot>, phase: seq<Phase>, r: seq<Slot>)
    requires ForksOk(s, phase) && SomeWoken(s, r)
    ensures ForksOk(r, phase)
  {
    forall i | 0 <= i < |r| && phase[i].InFork?
      ensures ForkOk(r, i, phase[i].child)
    {
      assert ForkOk(s, i, phase[i].child);
    }
  }

  // ----- exit -----

  function Adopted(s: seq<Slot>, i: nat, init: nat): (r: seq<Slot>)
    ensures |r| == |s|
    ensures forall j | 0 <= j < |s| :: r[j] == if s[j].parent == i then s[j].(parent := init) else s[j]
  {
    seq(|s|, j requires 0 <= j < |s| => if s[j].parent == i then s[j].(parent := init) else s[j])
  }

  ghost predicate ZombieChild(s: seq<Slot>,
                              i: nat) { exists j :: 0 <= j < |s| && s[j].parent == i && s[j].state.Zombie? }

  // The whole of exit's locked section.
  ghost function Exited(s: seq<Slot>, i: nat, init: nat): seq<Slot>
    requires i < |s| && s[i].parent >= 0
  {
    var s1 := Woken(s, OfProc(s[i].parent));
    var s2 := Adopted(s1, i, init);
    var s3 := if ZombieChild(s, i) then Woken(s2, OfProc(init)) else s2;
    s3[i := s3[i].(state := Zombie)]
  }

  lemma ExitedSlot(s: seq<Slot>, i: nat, init: nat, j: nat)
    requires i < |s| && s[i].parent >= 0 && j < |s|
    ensures |Exited(s, i, init)| == |s|
    ensures var x := Exited(s, i, init)[j];
      && x.pid == s[j].pid && x.chan == s[j].chan && x.killed == s[j].killed
      && x.parent == (if s[j].parent == i then init else s[j].parent)
      && (j == i ==> x.state == Zombie)
      && (j != i ==> x.state == s[j].state || (s[j].state == Sleeping && x.state == Runnable && s[j].chan.OfProc?))
      && (j != i && x.state == Sleeping ==> s[j].chan != OfProc(s[i].parent))
      && (j != i && x.state == Sleeping && ZombieChild(s, i) ==> s[j].chan != OfProc(init))
  {
  }

  // Slot by slot: who else changes state is asleep in wait, the parent or, for a zombie, init.
  lemma ExitedIs(s: seq<Slot>, i: nat, init: nat, z: bool)
    requires i < |s| && s[i].parent >= 0 && s[i].parent != i
    requires z <==> exists j :: 0 <= j < |s| && s[j].parent == i && s[j].state == Zombie
    ensures |Exited(s, i, init)| == |s| && Exited(s, i, init)[i] == s[i].(state := Zombie)
    ensures forall k: nat | k < |s| && k != i ::
              var x, y := s[k], Exited(s, i, init)[k];
              && y.pid == x.pid && y.chan == x.chan && y.killed == x.killed
              && y.parent == (if x.parent == i then init else x.parent)
              && y.state == (if x.state == Sleeping && (x.chan == OfProc(s[i].parent) || (z && x.chan == OfProc(init)))
                             then Runnable else x.state)
  {
  }

  lemma ExitKeeps(s: seq<Slot>, phase: seq<Phase>, init: nat, nextpid: nat, reaped: set<nat>, i: nat)
    requires TableOk(s, phase, init, nextpid, reaped) && i < |s| && s[i].state.Running? && i != init
    requires phase[i] == Elsewhere
    ensures s[i].parent >= 0 && TableOk(Exited(s, i, init), phase, init, nextpid, reaped)
    ensures !ZombieChild(Exited(s, i, init), i)
  {
    hide Exited, Exit, ParentsOk, WaitersOk, ForksOk, PidsOk, ZombieChild;
    HasParent(s, init, i);
    var r := Exited(s, i, init);
    ExitedIsExit(s, i, init);
    ExitParents(s, init, i, r);
    ExitWaiters(s, phase, init, i, r);
    ExitForks(s, phase, init, i, r);
    ExitPids(s, nextpid, reaped, init, i, r);
  }

  lemma HasParent(s: seq<Slot>, init: nat, i: nat)
    requires ParentsOk(s, init) && i < |s| && Forked(s[i]) && i != init
    ensures s[i].parent >= 0
  {
  }

  lemma ExitedIsExit(s: seq<Slot>, i: nat, init: nat)
    requires i < |s| && s[i].parent >= 0
    ensures Exit(s, i, init, Exited(s, i, init))
  {
    hide Exited;
    var r := Exited(s, i, init);
    ExitedSlot(s, i, init, i);
    forall j: nat | j < |s|
      ensures r[j].parent == (if s[j].parent == i then init else s[j].parent)
      ensures r[j].pid == s[j].pid && r[j].chan == s[j].chan
      ensures j != i ==> r[j].state == s[j].state || (s[j].state == Sleeping && r[j].state == Runnable)
      ensures j != i && r[j].state == Sleeping ==> s[j].chan != OfProc(s[i].parent)
      ensures j != i && r[j].state == Sleeping && ZombieChild(s, i) ==> s[j].chan != OfProc(init)
    {
      ExitedSlot(s, i, init, j);
    }
  }

  lemma ExitPids(s: seq<Slot>, nextpid: nat, reaped: set<nat>, init: nat, i: nat, r: seq<Slot>)
    requires PidsOk(s, nextpid, reaped) && Exit(s, i, init, r) && !s[i].state.Unused?
    ensures PidsOk(r, nextpid, reaped)
  {
  }

  // What ExitedSlot says of every slot.
  ghost predicate Exit(s: seq<Slot>, i: nat, init: nat, r: seq<Slot>) {
    && i < |s| == |r| && r[i].state == Zombie && s[i].parent >= 0
    && (forall j: nat | j < |s| :: r[j].parent == (if s[j].parent == i then init else s[j].parent))
    && (forall j: nat | j < |s| :: r[j].pid == s[j].pid && r[j].chan == s[j].chan)
    && (forall j: nat | j < |s| && j != i ::
          r[j].state == s[j].state || (s[j].state == Sleeping && r[j].state == Runnable))
    && (forall j: nat | j < |s| && j != i && r[j].state == Sleeping :: s[j].chan != OfProc(s[i].parent))
    && (forall j: nat | j < |s| && j != i && r[j].state == Sleeping && ZombieChild(s, i) :: s[j].chan != OfProc(init))
  }

  lemma ExitParents(s: seq<Slot>, init: nat, i: nat, r: seq<Slot>)
    requires ParentsOk(s, init) && i < |s| && i != init && s[i].parent >= 0 && Exit(s, i, init, r) && Live(s[i])
    ensures ParentsOk(r, init) && !ZombieChild(r, i)
  {
  }

  lemma ExitWaiters(s: seq<Slot>, phase: seq<Phase>, init: nat, i: nat, r: seq<Slot>)
    requires ParentsOk(s, init) && WaitersOk(s, phase) && i < |s| && i != init && s[i].parent >= 0
    requires Exit(s, i, init, r)
    requires s[i].state.Running?
    ensures WaitersOk(r, phase)
  {
    forall k: nat, j: nat | k < |r| && j < |r| && InWaitSleep(r[k], k) && r[j].parent == k
      ensures !r[j].state.Zombie?
    {
      NoZombieBehind(s, phase, init, i, r, k, j);
    }
  }

  lemma NoZombieBehind(s: seq<Slot>, phase: seq<Phase>, init: nat, i: nat, r: seq<Slot>, k: nat, j: nat)
    requires ParentsOk(s, init) && WaitersOk(s, phase) && i < |s| && i != init && s[i].parent >= 0
    requires Exit(s, i, init, r)
    requires s[i].state.Running? && k < |r| && j < |r| && InWaitSleep(r[k], k) && r[j].parent == k
    ensures !r[j].state.Zombie?
  {
    var x, y, z := r[j].state, s[j], s[k];
    assert InWaitSleep(z, k) && z.chan == OfProc(k);
    assert y.parent == i && y.state.Zombie? ==> ZombieChild(s, i);
  }

  lemma ExitForks(s: seq<Slot>, phase: seq<Phase>, init: nat, i: nat, r: seq<Slot>)
    requires ForksOk(s, phase) && i < |s| && i != init && Exit(s, i, init, r) && s[i].state.Running?
    requires phase[i] == Elsewhere
    ensures ForksOk(r, phase)
  {
    forall k | 0 <= k < |r| && phase[k].InFork?
      ensures ForkOk(r, k, phase[k].child)
    {
      assert ForkOk(s, k, phase[k].child);
    }
  }

  // ----- fork -----

  lemma AllocKeeps(s: seq<Slot>, phase: seq<Phase>, init: nat, nextpid: nat, reaped: set<nat>, i: nat, j: nat)
    requires TableOk(s, phase, init, nextpid, reaped) && i < |s| && j < |s| && s[i].state.Running?
    requires phase[i] == Elsewhere && s[j].state.Unused?
    ensures s[j].parent == -1
    ensures TableOk(s[j := s[j].(state := Embryo, pid := nextpid)], phase[i := InFork(j)], init, nextpid + 1, reaped)
  {
    hide ParentsOk, WaitersOk, ForksOk, PidsOk, ForkOk;
    Sizes(s, phase);
    var r, ph := s[j := s[j].(state := Embryo, pid := nextpid)], phase[i := InFork(j)];
    UnusedParent(s, init, j);
    OtherParents(s, init, r, j);
    NewPid(s, nextpid, reaped, r, j);
    NewFork(r, i, j);
    OtherForks(s, phase, r, ph, i, j);
    OtherWaiters(s, phase, r, ph, i, j);
  }

  lemma Sizes(s: seq<Slot>, phase: seq<Phase>)
    requires ForksOk(s, phase)
    ensures |phase| == |s|
  {
  }

  lemma UnusedParent(s: seq<Slot>, init: nat, j: nat)
    requires ParentsOk(s, init) && j < |s| && s[j].state.Unused?
    ensures s[j].parent == -1
  {
  }

  lemma NewFork(s: seq<Slot>, i: nat, j: nat)
    requires i < |s| && j < |s| && s[i].state.Running? && s[j].state.Embryo? && s[j].parent == -1
    ensures ForkOk(s, i, j)
  {
  }

  // A slot that was not live, hence nobody's parent, gets a new content.
  lemma OtherParents(s: seq<Slot>, init: nat, r: seq<Slot>, j: nat)
    requires ParentsOk(s, init) && j < |s| && !Live(s[j]) && |r| == |s| && forall k | 0 <= k < |s| && k != j :: r[k] == s[k]
    requires r[j].parent == -1 || (0 <= r[j].parent < |s| && r[j].parent != j && Live(s[r[j].parent]))
    requires (Forked(r[j]) ==> r[j].parent != -1) && (r[j].state.Unused? ==> r[j].parent == -1)
    ensures ParentsOk(r, init) && j != init
  {
  }

  lemma NewPid(s: seq<Slot>, nextpid: nat, reaped: set<nat>, r: seq<Slot>, j: nat)
    requires PidsOk(s, nextpid, reaped) && j < |s| == |r| && forall k | 0 <= k < |s| && k != j :: r[k] == s[k]
    requires r[j].pid == nextpid
    ensures PidsOk(r, nextpid + 1, reaped)
  {
  }

  lemma SamePid(s: seq<Slot>, nextpid: nat, reaped: set<nat>, r: seq<Slot>, j: nat)
    requires PidsOk(s, nextpid, reaped) && j < |s| == |r| && forall k | 0 <= k < |s| && k != j :: r[k] == s[k]
    requires r[j].pid == s[j].pid && !s[j].state.Unused?
    ensures PidsOk(r, nextpid, reaped)
  {
  }

  // Slot j, no sleeper and no zombie afterwards, changes under the hands of process i.
  lemma OtherWaiters(s: seq<Slot>, phase: seq<Phase>, r: seq<Slot>, ph: seq<Phase>, i: nat, j: nat)
    requires WaitersOk(s, phase) && |r| == |s| && |ph| == |s| && i < |s| && j < |s|
    requires forall k | 0 <= k < |s| && k != j :: r[k] == s[k]
    requires forall k | 0 <= k < |s| && k != i :: ph[k] == phase[k]
    requires !r[j].state.Sleeping? && !r[j].state.Zombie? && !r[i].state.Sleeping?
    ensures WaitersOk(r, ph)
  {
    forall k, m | 0 <= k < |r| && 0 <= m < |r| && InWaitSleep(r[k], k) && r[m].parent == k
      ensures !r[m].state.Zombie?
    {
      assert InWaitSleep(s[k], k);
    }
  }

  lemma OtherForks(s: seq<Slot>, phase: seq<Phase>, r: seq<Slot>, ph: seq<Phase>, i: nat, j: nat)
    requires ForksOk(s, phase) && |r| == |s| && |ph| == |s| && i < |s| && j < |s| && i != j
    requires forall k | 0 <= k < |s| && k != j :: r[k] == s[k]
    requires forall k | 0 <= k < |s| && k != i :: ph[k] == phase[k]
    requires ph[i] == Elsewhere || (ph[i] == InFork(j) && ForkOk(r, i, j))
    requires s[j].state.Unused? || phase[i] == InFork(j)
    requires s[i].state.Running? && !Live(s[j])
    ensures ForksOk(r, ph)
  {
    forall k | 0 <= k < |r| && ph[k].InFork?
      ensures ForkOk(r, k, ph[k].child)
      ensures k != i ==> ph[k].child != j && k != j
    {
      if k != i { assert ForkOk(s, k, phase[k].child); }
    }
  }

  // The process being forked, before, while and after its fields are filled in.
  lemma EmbryoKeeps(s: seq<Slot>, phase: seq<Phase>, init: nat, nextpid: nat, reaped: set<nat>, i: nat, x: Slot,
                    done: bool)
    requires TableOk(s, phase, init, nextpid, reaped) && i < |s| && s[i].state.Running? && phase[i].InFork?
    requires phase[i].child < |s|
    requires var e := s[phase[i].child];
      && x.pid == e.pid
      && (x.state.Unused? ==> done && x.parent == -1)
      && (x.state.Embryo? ==> !done && (x.parent == -1 || x.parent == i))
      && (x.state.Runnable? ==> done && x.parent == i)
      && (x.state.Unused? || x.state.Embryo? || x.state.Runnable?)
    ensures s[phase[i].child].state.Embryo? && (s[phase[i].child].parent == -1 || s[phase[i].child].parent == i)
    ensures phase[i].child != i
    ensures TableOk(s[phase[i].child := x], phase[i := if done then Elsewhere else phase[i]], init, nextpid, reaped)
  {
    hide ParentsOk, WaitersOk, ForksOk, PidsOk;
    TheFork(s, phase, i);
    var j := phase[i].child;
    var r, ph := s[j := x], phase[i := if done then Elsewhere else phase[i]];
    OtherParents(s, init, r, j);
    SamePid(s, nextpid, reaped, r, j);
    OtherForks(s, phase, r, ph, i, j);
    OtherWaiters(s, phase, r, ph, i, j);
  }

  lemma TheFork(s: seq<Slot>, phase: seq<Phase>, i: nat)
    requires ForksOk(s, phase) && i < |s| && phase[i].InFork?
    ensures |phase| == |s| && ForkOk(s, i, phase[i].child)
  {
  }

  // ----- wait -----

  function Reaped(x: Slot): Slot { Slot(Unused, 0, -1, x.chan, false) }

  lemma ReapKeeps(s: seq<Slot>, phase: seq<Phase>, init: nat, nextpid: nat, reaped: set<nat>, i: nat, j: nat)
    requires TableOk(s, phase, init, nextpid, reaped) && i < |s| && j < |s| && s[i].state.Running? && i != j
    requires s[j].state.Zombie? && s[j].parent == i && !phase[i].InFork?
    ensures s[j].pid !in reaped && s[j].pid > 0 && j != init
    ensures TableOk(s[j := Reaped(s[j])], phase[i := Elsewhere], init, nextpid, reaped + {s[j].pid})
  {
    hide ParentsOk, WaitersOk, ForksOk, PidsOk;
    Sizes(s, phase);
    var r, ph := s[j := Reaped(s[j])], phase[i := Elsewhere];
    OtherParents(s, init, r, j);
    ReapPids(s, nextpid, reaped, j);
    ReapForks(s, phase, r, ph, i, j);
    OtherWaiters(s, phase, r, ph, i, j);
  }

  lemma ReapPids(s: seq<Slot>, nextpid: nat, reaped: set<nat>, j: nat)
    requires PidsOk(s, nextpid, reaped) && j < |s| && s[j].state.Zombie?
    ensures s[j].pid !in reaped && s[j].pid > 0 && PidsOk(s[j := Reaped(s[j])], nextpid, reaped + {s[j].pid})
  {
  }

  lemma ReapForks(s: seq<Slot>, phase: seq<Phase>, r: seq<Slot>, ph: seq<Phase>, i: nat, j: nat)
    requires ForksOk(s, phase) && i < |s| && j < |s| && s[j].state.Zombie? && r == s[j := Reaped(s[j])]
    requires !phase[i].InFork? && ph == phase[i := Elsewhere]
    ensures ForksOk(r, ph)
  {
    forall k | 0 <= k < |r| && ph[k].InFork?
      ensures ForkOk(r, k, ph[k].child)
    {
      assert ForkOk(s, k, phase[k].child);
    }
  }

  // ----- one live process changes state -----

  lemma LiveKeeps(s: seq<Slot>, phase: seq<Phase>, init: nat, nextpid: nat, reaped: set<nat>, i: nat, x: Slot,
                  ph: Phase)
    requires TableOk(s, phase, init, nextpid, reaped) && i < |s| && Live(s[i]) && Live(x)
    requires x.pid == s[i].pid && x.parent == s[i].parent
    requires x.state.Sleeping? && x.chan.OfProc? ==> x.chan.p == i && ph == InWait && !ZombieChild(s, i)
    requires phase[i].InFork? || ph.InFork? ==> ph == phase[i] && !x.state.Sleeping?
    ensures TableOk(s[i := x], phase[i := ph], init, nextpid, reaped)
  {
    hide ParentsOk, WaitersOk, ForksOk, PidsOk;
    Sizes(s, phase);
    LiveParents(s, init, i, x);
    LiveWaiters(s, phase, i, x, ph);
    LiveForks(s, phase, i, x, ph);
    SamePid(s, nextpid, reaped, s[i := x], i);
  }

  lemma LiveParents(s: seq<Slot>, init: nat, i: nat, x: Slot)
    requires ParentsOk(s, init) && i < |s| && Live(s[i]) && Live(x) && x.parent == s[i].parent
    ensures ParentsOk(s[i := x], init)
  {
  }

  lemma LiveForks(s: seq<Slot>, phase: seq<Phase>, i: nat, x: Slot, ph: Phase)
    requires ForksOk(s, phase) && i < |s| && Live(s[i]) && Live(x) && x.parent == s[i].parent
    requires phase[i].InFork? || ph.InFork? ==> ph == phase[i] && !x.state.Sleeping?
    ensures ForksOk(s[i := x], phase[i := ph])
  {
    var r, p := s[i := x], phase[i := ph];
    forall k | 0 <= k < |r| && p[k].InFork?
      ensures ForkOk(r, k, p[k].child)
    {
      assert ForkOk(s, k, phase[k].child);
    }
  }

  lemma LiveWaiters(s: seq<Slot>, phase: seq<Phase>, i: nat, x: Slot, ph: Phase)
    requires WaitersOk(s, phase) && i < |s| && Live(s[i]) && Live(x) && x.parent == s[i].parent
    requires x.state.Sleeping? && x.chan.OfProc? ==> x.chan.p == i && ph == InWait && !ZombieChild(s, i)
    ensures WaitersOk(s[i := x], phase[i := ph])
  {
    var r := s[i := x];
    forall k, m | 0 <= k < |r| && 0 <= m < |r| && InWaitSleep(r[k], k) && r[m].parent == k
      ensures !r[m].state.Zombie?
    {
      if k == i { assert !ZombieChild(s, i) && s[m].parent == i; } else { assert InWaitSleep(s[k], k); }
    }
  }

  // ----- killed flags -----

  // A slot that is given out is not marked killed.
  ghost predicate Clean(s: seq<Slot>) { forall j | 0 <= j < |s| && s[j].state.Unused? :: !s[j].killed }

  // The slot kill acts on: the first with that process number.
  ghost predicate Target(s: seq<Slot>, pid: nat, j: nat) {
    j < |s| && s[j].pid == pid && forall k | 0 <= k < j :: s[k].pid != pid
  }

  function Killed(x: Slot): Slot { x.(killed := true, state := if x.state.Sleeping? then Runnable else x.state) }

  // The number of a process in the table finds that process; 0 finds an unused slot.
  lemma TargetIs(s: seq<Slot>, nextpid: nat, reaped: set<nat>, pid: nat, j: nat)
    requires PidsOk(s, nextpid, reaped) && j < |s| && s[j].pid == pid != 0
    ensures Target(s, pid, j) && forall k: nat :: Target(s, pid, k) ==> k == j
  {
  }

  lemma KillClean(s: seq<Slot>, j: nat)
    requires j < |s| && Clean(s)
    ensures Clean(s[j := Killed(s[j])]) <==> !s[j].state.Unused?
  {
    var r := s[j := Killed(s[j])];
    if Clean(r) { assert !r[j].state.Unused?; }
  }
}
