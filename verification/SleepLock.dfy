/** sleep and wakeup of kernel/proc.c, lock acquisition by lock acquisition, for any number of
    processes that share a condition guarded by a lock lk other than ptable.lock. */
module SleepLock {
  // A sleeper: about to take lk; holding lk having seen the condition false (in sleep, wanting
  // ptable.lock); holding both locks; holding ptable.lock alone; SLEEPING; made runnable again.
  // A waker: about to take lk; holding lk; the condition made true with lk still held or
  // already released, wanting ptable.lock; in wakeup1; done with wakeup1.
  datatype Pc =
    | Idle
    | Checked | BothLocks | TableOnly | Asleep | Roused
    | LkHeld | MustWake(lkHeld: bool) | InWakeup(lkHeld: bool) | Woke(lkHeld: bool)

  datatype St = St(pc: map<nat, Pc>, cond: bool)

  predicate HasLk(p: Pc) {
    p.Checked? || p.BothLocks? || p.LkHeld? || ((p.MustWake? || p.InWakeup? || p.Woke?) && p.lkHeld)
  }

  predicate HasTable(p: Pc) { p.BothLocks? || p.TableOnly? || p.InWakeup? }

  ghost predicate LkFree(s: St) { forall p | p in s.pc :: !HasLk(s.pc[p]) }

  ghost predicate TableFree(s: St) { forall p | p in s.pc :: !HasTable(s.pc[p]) }

  // A wakeup is still to come from someone who made the condition true.
  ghost predicate Pending(s: St) { exists q :: q in s.pc && (s.pc[q].MustWake? || s.pc[q].InWakeup?) }

  function Set(s: St, p: nat, c: Pc): St { s.(pc := s.pc[p := c]) }

  // wakeup1: every sleeper is made runnable.
  function Rouse(s: St): St { s.(pc := map q | q in s.pc :: if s.pc[q].Asleep? then Roused else s.pc[q]) }

  // One step of process p.
  ghost predicate Next(s: St, t: St, p: nat) {
    && p in s.pc
    && match s.pc[p]
       case Idle => LkFree(s) && (t == Set(s, p, LkHeld) || (!s.cond && t == Set(s, p, Checked)))
       case Checked => TableFree(s) && t == Set(s, p, BothLocks)
       case BothLocks => t == Set(s, p, TableOnly)
       case TableOnly => t == Set(s, p, Asleep)
       case Asleep => t == Set(s, p, Roused)
       case Roused => LkFree(s) && (t == Set(s, p, LkHeld) || (!s.cond && t == Set(s, p, Checked)))
       case LkHeld => t == Set(s, p, MustWake(true)).(cond := true) || t == Set(s, p, Idle)
                      || t == Set(s, p, Idle).(cond := false)
       case MustWake(h) => (h && t == Set(s, p, MustWake(false))) || (TableFree(s) && t == Set(s, p, InWakeup(h)))
       case InWakeup(h) => t == Set(Rouse(s), p, Woke(h))
       case Woke(h) => t == Set(s, p, Idle)
  }

  ghost predicate Exclusive(s: St) {
    && (forall p, q | p in s.pc && q in s.pc && p != q && HasLk(s.pc[p]) :: !HasLk(s.pc[q]))
    && (forall p, q | p in s.pc && q in s.pc && p != q && HasTable(s.pc[p]) :: !HasTable(s.pc[q]))
  }

  ghost predicate Inv(s: St) {
    && Exclusive(s)
    && (forall p | p in s.pc && (s.pc[p].Checked? || s.pc[p].BothLocks?) :: !s.cond)
    && (forall p | p in s.pc && (s.pc[p].TableOnly? || s.pc[p].Asleep?) :: s.cond ==> Pending(s))
  }

  predicate Initial(s: St) { (forall p | p in s.pc :: s.pc[p] == Idle) && !s.cond }

  lemma InitialInv(s: St)
    requires Initial(s)
    ensures Inv(s)
  {
  }

  lemma NextExclusive(s: St, t: St, p: nat)
    requires Exclusive(s) && Next(s, t, p)
    ensures Exclusive(t)
  {
    hide Next, HasLk, HasTable;
    OnlyOwnLocks(s, t, p);
  }

  // A step changes only what its own process holds, and takes a lock only when it is free.
  lemma OnlyOwnLocks(s: St, t: St, p: nat)
    requires Next(s, t, p)
    ensures t.pc.Keys == s.pc.Keys && p in s.pc
    ensures forall q | q in s.pc && q != p :: HasLk(t.pc[q]) == HasLk(s.pc[q]) && HasTable(t.pc[q]) == HasTable(s.pc[q])
    ensures HasLk(t.pc[p]) ==> HasLk(s.pc[p]) || LkFree(s)
    ensures HasTable(t.pc[p]) ==> HasTable(s.pc[p]) || TableFree(s)
  {
  }

  lemma NextInv(s: St, t: St, p: nat)
    requires Inv(s) && Next(s, t, p)
    ensures Inv(t)
  {
    NextExclusive(s, t, p);
    if Pending(s) && t.cond {
      var q :| q in s.pc && (s.pc[q].MustWake? || s.pc[q].InWakeup?);
      if q != p || !s.pc[p].InWakeup? {
        assert q in t.pc && (t.pc[q].MustWake? || t.pc[q].InWakeup?);
      } else {
        NobodyAsleep(s, t, p);
      }
    }
    if s.pc[p].LkHeld? && t.cond && !s.cond { assert t.pc[p].MustWake?; }
  }

  // After wakeup1 nobody is asleep, and nobody can have been about to fall asleep.
  lemma NobodyAsleep(s: St, t: St, p: nat)
    requires Inv(s) && Next(s, t, p) && s.pc[p].InWakeup?
    ensures forall q | q in t.pc :: !t.pc[q].Asleep? && !t.pc[q].TableOnly?
  {
  }

  // r is a run in which step i is taken by process who[i].
  ghost predicate Run(r: seq<St>, who: seq<nat>) {
    && |r| == |who| + 1 && Initial(r[0])
    && forall i | 0 <= i < |who| :: Next(r[i], r[i + 1], who[i])
  }

  // In every reachable state: a process asleep while the condition holds is about to be woken.
  lemma {:induction false} NoLostWakeup(r: seq<St>, who: seq<nat>, i: nat)
    requires Run(r, who) && i < |r|
    ensures Inv(r[i])
    ensures forall p | p in r[i].pc && r[i].pc[p].Asleep? && r[i].cond :: Pending(r[i])
  {
    if i == 0 {
      InitialInv(r[0]);
    } else {
      NoLostWakeup(r, who, i - 1);
      NextInv(r[i - 1], r[i], who[i - 1]);
    }
  }

  // A wakeup that runs after the sleeper gave up lk finds it asleep or already roused.
  lemma WakeupFindsSleeper(s: St, t: St, p: nat, q: nat)
    requires Inv(s) && Next(s, t, p) && s.pc[p].InWakeup? && q in s.pc
    ensures !s.pc[q].TableOnly? && (s.pc[q].Asleep? ==> t.pc[q] == Roused)
  {
  }
}
