/** kernel/pipe.c: a ring of PIPESIZE bytes with 32-bit counters, and the processes that read,
    write and sleep on it. Each method is one section under the pipe's lock, so any order of
    calls is an interleaving. */
module Pipe {
  const U32: nat := 0x1_0000_0000

  // What a process is doing: between a section that wakes it and its next one it is Writing or
  // Reading; asleep it is on the channel &nwrite or &nread.
  datatype Job =
    | Idle
    | Writing(buf: seq<nat>, i: nat) | WriteSleep(buf: seq<nat>, i: nat)
    | Reading(n: int) | ReadSleep(n: int)

  datatype Outcome = Returned(v: int) | Slept

  // What a process called write or read with.
  datatype Call = WriteCall(buf: seq<nat>) | ReadCall(n: int)

  // ----- the ring -----

  // nread and nwrite count the bytes modulo 2^32, and the ring holds those not yet read.
  ghost predicate RingOk(data: seq<nat>, nread: nat, nwrite: nat, written: seq<nat>, done: nat) {
    && |data| == 512 && done <= |written| <= done + 512
    && nread == done % U32 && nwrite == |written| % U32
    && forall k | done <= k < |written| :: data[k % 512] == written[k]
  }

  lemma RingEmpty()
    ensures forall data: seq<nat> | |data| == 512 :: RingOk(data, 0, 0, [], 0)
  {
  }

  // The tests of the code on wrapping counters.
  lemma CounterTests(data: seq<nat>, nread: nat, nwrite: nat, written: seq<nat>, done: nat)
    requires RingOk(data, nread, nwrite, written, done)
    ensures nread == nwrite <==> |written| == done
    ensures nwrite == (nread + 512) % U32 <==> |written| == done + 512
    ensures nread % 512 == done % 512 && nwrite % 512 == |written| % 512
  {
    WrapTests(done, |written|);
    RingIndex(done);
    RingIndex(|written|);
  }

  lemma WrapTests(a: nat, b: nat)
    requires a <= b <= a + 512
    ensures a % U32 == b % U32 <==> a == b
    ensures b % U32 == (a % U32 + 512) % U32 <==> b == a + 512
  {
    var q, r := a / U32, a % U32;
    assert a == U32 * q + r;
    if r + (b - a) < U32 { Quotient(b, q, r + (b - a)); } else { Quotient(b, q + 1, r + (b - a) - U32); }
    if r + 512 < U32 { Quotient(r + 512, 0, r + 512); } else { Quotient(r + 512, 1, r + 512 - U32); }
  }

  lemma Quotient(x: nat, q: nat, r: nat)
    requires x == U32 * q + r && r < U32
    ensures x % U32 == r
  {
  }

  lemma RingIndex(k: nat)
    ensures k % U32 % 512 == k % 512
  {
    var q, r := k / U32, k % U32;
    assert k == 512 * (8388608 * q) + r;
    Index512(8388608 * q, r);
  }

  lemma Index512(a: nat, r: nat)
    ensures (512 * a + r) % 512 == r % 512
  {
  }

  lemma PutKeeps(data: seq<nat>, nread: nat, nwrite: nat, written: seq<nat>, done: nat, x: nat)
    requires RingOk(data, nread, nwrite, written, done) && |written| < done + 512
    ensures RingOk(data[nwrite % 512 := x], nread, (nwrite + 1) % U32, written + [x], done)
  {
    CounterTests(data, nread, nwrite, written, done);
    Increment(|written|, nwrite);
    var w := written + [x];
    forall k | done <= k < |w|
      ensures data[nwrite % 512 := x][k % 512] == w[k]
    {
      Apart512(done, k, |written|);
    }
  }

  lemma Increment(k: nat, c: nat)
    requires c == k % U32
    ensures (c + 1) % U32 == (k + 1) % U32
  {
  }

  lemma Apart512(done: nat, k: nat, m: nat)
    requires done <= k <= m < done + 512
    ensures k % 512 == m % 512 <==> k == m
  {
  }

  lemma TakeKeeps(data: seq<nat>, nread: nat, nwrite: nat, written: seq<nat>, done: nat)
    requires RingOk(data, nread, nwrite, written, done) && done < |written|
    ensures RingOk(data, (nread + 1) % U32, nwrite, written, done + 1) && data[nread % 512] == written[done]
  {
    CounterTests(data, nread, nwrite, written, done);
    Increment(done, nread);
  }

  // ----- sleepers -----

  function Wake(j: Job, writers: bool): Job {
    match j
    case WriteSleep(buf, i) => if writers then Writing(buf, i) else j
    case ReadSleep(n) => if writers then j else Reading(n)
    case _ => j
  }

  function Woken(jobs: map<nat, Job>, writers: bool): map<nat, Job> { map p | p in jobs :: Wake(jobs[p], writers) }

  // A file that is in use is open.
  ghost predicate RefsOk(jobs: map<nat, Job>, readopen: bool, writeopen: bool) {
    && (forall p | p in jobs && (jobs[p].Reading? || jobs[p].ReadSleep?) :: readopen)
    && (forall p | p in jobs && (jobs[p].Writing? || jobs[p].WriteSleep?) :: writeopen)
    && (forall p | p in jobs && (jobs[p].Writing? || jobs[p].WriteSleep?) :: jobs[p].i <= |jobs[p].buf|)
  }

  // A call goes on with what it was made with, asleep or not; a writer has sent just the bytes
  // before its i.
  ghost predicate CallsOk(jobs: map<nat, Job>, calls: map<nat, Call>, sent: map<nat, seq<nat>>) {
    forall p | p in jobs && jobs[p] != Idle :: p in calls && p in sent && CallOk(jobs[p], calls[p], sent[p])
  }

  predicate CallOk(j: Job, call: Call, sent: seq<nat>) {
    match j
    case Idle => true
    case Writing(buf, i) => call == WriteCall(buf) && i <= |buf| && sent == buf[..i]
    case WriteSleep(buf, i) => call == WriteCall(buf) && i <= |buf| && sent == buf[..i]
    case Reading(n) => call == ReadCall(n)
    case ReadSleep(n) => call == ReadCall(n)
  }

  lemma CallsGoOn(jobs: map<nat, Job>, calls: map<nat, Call>, sent: map<nat, seq<nat>>, p: nat, j: Job,
                  bytes: seq<nat>, writers: bool)
    requires CallsOk(jobs, calls, sent) && p in jobs && p in calls && CallOk(j, calls[p], bytes)
    ensures CallsOk(jobs[p := j], calls, sent[p := bytes])
    ensures CallsOk(Woken(jobs, writers), calls, sent)
    ensures CallsOk(Woken(jobs, writers)[p := j], calls, sent[p := bytes])
    ensures p in sent && bytes == sent[p] ==> sent[p := bytes] == sent
  {
  }

  ghost predicate SomeReaderAsleep(jobs: map<nat, Job>) { exists p :: p in jobs && jobs[p].ReadSleep? }

  ghost predicate SomeWriterAsleep(jobs: map<nat, Job>) { exists p :: p in jobs && jobs[p].WriteSleep? }

  // A sleeping reader waits at an empty pipe that may still be written, a sleeping writer at a
  // full one that may still be read.
  ghost predicate SleepersOk(jobs: map<nat, Job>, held: int, readopen: bool, writeopen: bool) {
    && (SomeReaderAsleep(jobs) ==> held == 0 && writeopen)
    && (SomeWriterAsleep(jobs) ==> held == 512 && readopen)
  }

  lemma NeverBothAsleep(jobs: map<nat, Job>, held: int, readopen: bool, writeopen: bool)
    requires SleepersOk(jobs, held, readopen, writeopen)
    ensures !(SomeReaderAsleep(jobs) && SomeWriterAsleep(jobs))
  {
  }

  lemma WokenNobody(jobs: map<nat, Job>, p: nat, j: Job, writers: bool)
    requires p in jobs
    ensures writers ==> !SomeWriterAsleep(Woken(jobs, true)[p := Idle])
    ensures writers ==> (SomeReaderAsleep(Woken(jobs, true)[p := Idle]) ==> SomeReaderAsleep(jobs))
    ensures !writers && !j.ReadSleep? ==> !SomeReaderAsleep(Woken(jobs, false)[p := j])
    ensures !writers && SomeWriterAsleep(Woken(jobs, false)[p := j]) ==> SomeWriterAsleep(jobs) || j.WriteSleep?
  {
  }

  lemma OneSleeper(jobs: map<nat, Job>, p: nat, j: Job)
    requires p in jobs && !jobs[p].WriteSleep? && !jobs[p].ReadSleep?
    ensures SomeReaderAsleep(jobs[p := j]) <==> SomeReaderAsleep(jobs) || j.ReadSleep?
    ensures SomeWriterAsleep(jobs[p := j]) <==> SomeWriterAsleep(jobs) || j.WriteSleep?
  {
    if q :| q in jobs && jobs[q].ReadSleep? { assert q in jobs[p := j] && jobs[p := j][q].ReadSleep?; }
    if q :| q in jobs && jobs[q].WriteSleep? { assert q in jobs[p := j] && jobs[p := j][q].WriteSleep?; }
    assert p in jobs[p := j];
  }

  class PipeBuffer {
    const data: array<nat>
    var nread: nat
    var nwrite: nat
    var readopen: bool
    var writeopen: bool
    var jobs: map<nat, Job>
    var killed: set<nat>         // processes marked by kill
    ghost var written: seq<nat>  // every byte ever written
    ghost var done: nat          // how many of them have been read
    ghost var calls: map<nat, Call>       // each process's latest call
    ghost var sent: map<nat, seq<nat>>    // the bytes it has put into the pipe

    ghost predicate Sound()
      reads this, data
    {
      && RingOk(data[..], nread, nwrite, written, done) && RefsOk(jobs, readopen, writeopen)
      && CallsOk(jobs, calls, sent)
    }

    ghost predicate Good()
      reads this, data
    {
      Sound() && SleepersOk(jobs, |written| - done, readopen, writeopen)
    }

    // pipealloc.
    constructor ()
      ensures Good() && fresh(data) && written == [] && done == 0 && readopen && writeopen && jobs == map[] && killed == {}
    {
      data := new nat[512](_ => 0);
      nread, nwrite, readopen, writeopen := 0, 0, true, true;
      jobs, killed, written, done, calls, sent := map[], {}, [], 0, map[], map[];
      new;
      RingEmpty();
    }

    // A process with the file open calls write or read.
    method Start(p: nat, j: Job)
      requires Good() && (p !in jobs || jobs[p].Idle?)
      requires (j.Writing? && j.i == 0 && writeopen) || (j.Reading? && readopen)
      modifies `jobs, `calls, `sent
      ensures Good() && jobs == old(jobs)[p := j] && sent == old(sent)[p := []]
      ensures calls == old(calls)[p := if j.Writing? then WriteCall(j.buf) else ReadCall(j.n)]
    {
      Started(jobs, p, j);
      jobs := jobs[p := j];
      calls := calls[p := if j.Writing? then WriteCall(j.buf) else ReadCall(j.n)];
      sent := sent[p := []];
    }

    // pipewrite from acquire, or from its wakeup, to release or sleep. Sleepers stay right except
    // when the writer has been killed, has more bytes left than the pipe can hold, and a reader
    // sleeps: it then fills the pipe and leaves without waking the reader.
    method Write(p: nat) returns (r: Outcome)
      requires Good() && p in jobs && jobs[p].Writing?
      modifies `nwrite, `jobs, `written, `sent, data
      ensures Sound() && old(jobs)[p].i <= |old(jobs)[p].buf|
      ensures p in old(sent) && |written| >= |old(written)| && sent == old(sent)[p := old(sent)[p] + written[|old(written)|..]]
      ensures r.Returned? && r.v >= 0 ==> p in calls && calls[p] == WriteCall(sent[p]) && r.v == |sent[p]|
      ensures r.Slept? ==> p in calls && calls[p].WriteCall? && sent[p] <= calls[p].buf && sent[p] != calls[p].buf
      ensures Good() <==>
                !(p in killed && |old(jobs)[p].buf| - old(jobs)[p].i > 512 && SomeReaderAsleep(old(jobs)))
      ensures var buf, i, room := old(jobs)[p].buf, old(jobs)[p].i, 512 - (|old(written)| - done);
        && 0 <= room
        && (|buf| - i <= room ==>
              && r == Returned(|buf|) && written == old(written) + buf[i..]
              && jobs == Woken(old(jobs), false)[p := Idle])
        && (|buf| - i > room ==>
              && written == old(written) + buf[i..i + room]
              && r == (if !readopen || p in killed then Returned(-1) else Slept)
              && jobs == if !readopen || p in killed then old(jobs)[p := Idle]
                         else Woken(old(jobs), false)[p := WriteSleep(buf, i + room)])
    {
      hide RingOk, SleepersOk, RefsOk, SomeReaderAsleep, SomeWriterAsleep, Woken, Wake, CallsOk;
      ghost var n, sent0 := |written| - done, sent;
      var buf := jobs[p].buf;
      WriterRefs(jobs, readopen, writeopen, p);
      WriterCall(jobs, calls, sent, p);
      HasRoom(data[..], nread, nwrite, written, done);
      var i := CopyIn(buf, jobs[p].i);
      HasRoom(data[..], nread, nwrite, written, done);
      SentNow(old(written), written, buf, jobs[p].i, i);
      sent := sent[p := buf[..i]];
      if i < |buf| {
        if !readopen || p in killed {
          CallsGoOn(jobs, calls, sent0, p, Idle, buf[..i], false);
          WriterLeaves(jobs, n, |written| - done, readopen, writeopen, p);
          jobs := jobs[p := Idle];
          return Returned(-1);
        }
        CallsGoOn(jobs, calls, sent0, p, WriteSleep(buf, i), buf[..i], false);
        WriterSleeps(jobs, n, |written| - done, readopen, writeopen, p, i);
        jobs := Woken(jobs, false);
        jobs := jobs[p := WriteSleep(buf, i)];
        return Slept;
      }
      CallsGoOn(jobs, calls, sent0, p, Idle, buf[..i], false);
      WriterEnds(jobs, n, |written| - done, readopen, writeopen, p);
      jobs := Woken(jobs, false);
      jobs := jobs[p := Idle];
      return Returned(|buf|);
    }

    // The loop of pipewrite up to its end or to a full pipe.
    method CopyIn(buf: seq<nat>, i0: nat) returns (i: nat)
      requires RingOk(data[..], nread, nwrite, written, done) && i0 <= |buf|
      modifies `nwrite, `written, data
      ensures RingOk(data[..], nread, nwrite, written, done)
      ensures i0 <= i <= |buf| && written == old(written) + buf[i0..i] && |written| <= done + 512
      ensures i < |buf| ==> |written| == done + 512
    {
      hide RingOk;
      i := i0;
      HasRoom(data[..], nread, nwrite, written, done);
      while i < |buf|
        invariant i0 <= i <= |buf| && written == old(written) + buf[i0..i]
        invariant RingOk(data[..], nread, nwrite, written, done) && |written| <= done + 512
      {
        CounterTests(data[..], nread, nwrite, written, done);
        HasRoom(data[..], nread, nwrite, written, done);
        if nwrite == (nread + 512) % U32 {
          return;
        }
        PutKeeps(data[..], nread, nwrite, written, done, buf[i]);
        data[nwrite % 512] := buf[i];
        nwrite := (nwrite + 1) % U32;
        written := written + [buf[i]];
        i := i + 1;
      }
      HasRoom(data[..], nread, nwrite, written, done);
    }

    // piperead from acquire, or from its wakeup, to release or sleep: the oldest unread bytes,
    // as many as asked for and there.
    method Read(p: nat) returns (r: Outcome, out: seq<nat>)
      requires Good() && p in jobs && jobs[p].Reading?
      modifies `nread, `jobs, `done
      ensures Good() && done == old(done) + |out| <= |written| && out == written[old(done)..done]
      ensures p in calls && calls[p] == ReadCall(old(jobs)[p].n)
      ensures var n, held := old(jobs)[p].n, |written| - old(done);
        if held == 0 && writeopen then
          && out == [] && r == (if p in killed then Returned(-1) else Slept)
          && jobs == old(jobs)[p := if p in killed then Idle else ReadSleep(n)]
        else
          && |out| == (if n < 0 then 0 else if n < held then n else held) && r == Returned(|out|)
          && jobs == Woken(old(jobs), true)[p := Idle]
    {
      hide RingOk, SleepersOk, RefsOk, SomeReaderAsleep, SomeWriterAsleep, Woken, Wake, CallsOk;
      ghost var held := |written| - done;
      ReaderCall(jobs, calls, sent, p);
      var n := jobs[p].n;
      out := [];
      CounterTests(data[..], nread, nwrite, written, done);
      if nread == nwrite && writeopen {
        CallsGoOn(jobs, calls, sent, p, Idle, sent[p], true);
        CallsGoOn(jobs, calls, sent, p, ReadSleep(n), sent[p], true);
        ReaderStops(jobs, readopen, writeopen, p);
        if p in killed {
          jobs := jobs[p := Idle];
          return Returned(-1), [];
        }
        jobs := jobs[p := ReadSleep(n)];
        return Slept, [];
      }
      out := CopyOut(n);
      HasRoom(data[..], nread, nwrite, written, done);
      CallsGoOn(jobs, calls, sent, p, Idle, sent[p], true);
      ReaderEnds(jobs, held, |written| - done, readopen, writeopen, p);
      jobs := Woken(jobs, true);
      jobs := jobs[p := Idle];
      r := Returned(|out|);
    }

    // The copy loop of piperead.
    method CopyOut(n: int) returns (out: seq<nat>)
      requires RingOk(data[..], nread, nwrite, written, done)
      modifies `nread, `done
      ensures RingOk(data[..], nread, nwrite, written, done)
      ensures done == old(done) + |out| <= |written| && out == written[old(done)..done]
      ensures |out| >= n || done == |written|
      ensures |out| <= n || out == []
    {
      hide RingOk;
      out := [];
      var i := 0;
      HasRoom(data[..], nread, nwrite, written, done);
      while i < n
        invariant 0 <= i == |out| && (i <= n || i == 0) && RingOk(data[..], nread, nwrite, written, done)
        invariant done == old(done) + i <= |written| && out == written[old(done)..done]
      {
        CounterTests(data[..], nread, nwrite, written, done);
        if nread == nwrite {
          break;
        }
        HasRoom(data[..], nread, nwrite, written, done);
        TakeKeeps(data[..], nread, nwrite, written, done);
        out := out + [data[nread % 512]];
        nread := (nread + 1) % U32;
        done := done + 1;
        i := i + 1;
      }
    }

    // The last reference to one end is dropped, so nobody uses that end.
    method Close(writable: bool) returns (freed: bool)
      requires Good() && if writable then NoWriter(jobs) else NoReader(jobs)
      modifies `readopen, `writeopen, `jobs
      ensures Good() && jobs == Woken(old(jobs), !writable) && freed == (!readopen && !writeopen)
      ensures readopen == (old(readopen) && writable) && writeopen == (old(writeopen) && !writable)
    {
      Closed(jobs, |written| - done, readopen, writeopen, writable);
      if writable {
        writeopen := false;
        jobs := Woken(jobs, false);
      } else {
        readopen := false;
        jobs := Woken(jobs, true);
      }
      freed := !readopen && !writeopen;
    }

    // A kill between the test of killed and the sleep: kill takes the lock of the process table
    // alone, finds the process running, and the process then sleeps with the mark set.
    method KillMissed(p: nat)
      requires Good() && p in jobs && (jobs[p].WriteSleep? || jobs[p].ReadSleep?)
      modifies `killed
      ensures Good() && killed == old(killed) + {p}
    {
      killed := killed + {p};
    }

    // kill: the mark is set and the process leaves its sleep.
    method Kill(p: nat)
      requires Good() && p in jobs
      modifies `jobs, `killed
      ensures Good() && killed == old(killed) + {p}
      ensures jobs == old(jobs)[p := Wake(Wake(old(jobs)[p], true), false)]
    {
      KilledJob(jobs, |written| - done, readopen, writeopen, p);
      killed := killed + {p};
      jobs := jobs[p := Wake(Wake(jobs[p], true), false)];
    }
  }

  // A killed writer with 513 bytes and a sleeping reader: the pipe ends full, the reader asleep.
  method KilledWriter() returns (b: PipeBuffer, r: Outcome)
    ensures b.Sound() && !b.Good() && r == Returned(-1)
    ensures |b.written| == b.done + 512 && SomeReaderAsleep(b.jobs)
  {
    hide CallsOk, RingOk, RefsOk, SleepersOk;
    b := new PipeBuffer();
    b.Start(1, Reading(1));
    var asleep, out := b.Read(1);
    assert b.jobs[1] == ReadSleep(1);
    b.Start(2, Writing(seq(513, _ => 0), 0));
    b.Kill(2);
    assert 1 in b.jobs && b.jobs[1].ReadSleep?;
    r := b.Write(2);
    assert b.jobs[1] == ReadSleep(1);
  }

  ghost predicate NoWriter(jobs: map<nat, Job>) { forall p | p in jobs :: !jobs[p].Writing? && !jobs[p].WriteSleep? }

  ghost predicate NoReader(jobs: map<nat, Job>) { forall p | p in jobs :: !jobs[p].Reading? && !jobs[p].ReadSleep? }

  lemma HasRoom(data: seq<nat>, nread: nat, nwrite: nat, written: seq<nat>, done: nat)
    requires RingOk(data, nread, nwrite, written, done)
    ensures |data| == 512 && done <= |written| <= done + 512
  {
  }

  lemma Started(jobs: map<nat, Job>, p: nat, j: Job)
    requires p !in jobs || jobs[p].Idle?
    requires (j.Writing? && j.i == 0) || j.Reading?
    ensures SomeReaderAsleep(jobs[p := j]) ==> SomeReaderAsleep(jobs)
    ensures SomeWriterAsleep(jobs[p := j]) ==> SomeWriterAsleep(jobs)
  {
  }

  lemma SentNow(written0: seq<nat>, written: seq<nat>, buf: seq<nat>, i0: nat, i: nat)
    requires i0 <= i <= |buf| && written == written0 + buf[i0..i]
    ensures written[|written0|..] == buf[i0..i] && buf[..i0] + buf[i0..i] == buf[..i]
    ensures buf[..|buf|] == buf && (i < |buf| ==> buf[..i] != buf)
  {
  }

  lemma WriterCall(jobs: map<nat, Job>, calls: map<nat, Call>, sent: map<nat, seq<nat>>, p: nat)
    requires CallsOk(jobs, calls, sent) && p in jobs && jobs[p].Writing?
    ensures p in calls && p in sent && calls[p] == WriteCall(jobs[p].buf) && jobs[p].i <= |jobs[p].buf|
    ensures sent[p] == jobs[p].buf[..jobs[p].i] && sent == sent[p := sent[p]]
  {
  }

  lemma ReaderCall(jobs: map<nat, Job>, calls: map<nat, Call>, sent: map<nat, seq<nat>>, p: nat)
    requires CallsOk(jobs, calls, sent) && p in jobs && jobs[p].Reading?
    ensures p in calls && p in sent && calls[p] == ReadCall(jobs[p].n)
  {
  }

  // Who is woken, and that nothing else about a call changes.
  lemma WokenSide(jobs: map<nat, Job>, writers: bool, p: nat)
    requires p in jobs
    ensures p in Woken(jobs, writers)
    ensures var j, j' := jobs[p], Woken(jobs, writers)[p];
      && (j.WriteSleep? && writers ==> j' == Writing(j.buf, j.i)) && (j.ReadSleep? && !writers ==> j' == Reading(j.n))
      && (!(j.WriteSleep? && writers) && !(j.ReadSleep? && !writers) ==> j' == j)
  {
  }

  lemma WriterRefs(jobs: map<nat, Job>, readopen: bool, writeopen: bool, p: nat)
    requires RefsOk(jobs, readopen, writeopen) && p in jobs && jobs[p].Writing?
    ensures writeopen && jobs[p].i <= |jobs[p].buf|
  {
  }

  // The three ways out of a section of pipewrite.
  lemma WriterLeaves(jobs: map<nat, Job>, held: int, held': int, readopen: bool, writeopen: bool, p: nat)
    requires RefsOk(jobs, readopen, writeopen) && SleepersOk(jobs, held, readopen, writeopen)
    requires p in jobs && jobs[p].Writing? && 0 <= held <= held' == 512
    ensures RefsOk(jobs[p := Idle], readopen, writeopen)
    ensures SleepersOk(jobs[p := Idle], held', readopen, writeopen) <==> !(held' > held && SomeReaderAsleep(jobs))
    ensures SomeReaderAsleep(jobs) ==> held == 0 && readopen
  {
    OneSleeper(jobs, p, Idle);
  }

  lemma WriterSleeps(jobs: map<nat, Job>, held: int, held': int, readopen: bool, writeopen: bool, p: nat, i: nat)
    requires RefsOk(jobs, readopen, writeopen) && SleepersOk(jobs, held, readopen, writeopen)
    requires p in jobs && jobs[p].Writing? && i <= |jobs[p].buf| && held <= held' == 512 && readopen
    ensures RefsOk(Woken(jobs, false)[p := WriteSleep(jobs[p].buf, i)], readopen, writeopen)
    ensures SleepersOk(Woken(jobs, false)[p := WriteSleep(jobs[p].buf, i)], held', readopen, writeopen)
  {
    WokenNobody(jobs, p, WriteSleep(jobs[p].buf, i), false);
  }

  lemma WriterEnds(jobs: map<nat, Job>, held: int, held': int, readopen: bool, writeopen: bool, p: nat)
    requires RefsOk(jobs, readopen, writeopen) && SleepersOk(jobs, held, readopen, writeopen)
    requires p in jobs && jobs[p].Writing? && held <= held' <= 512
    ensures RefsOk(Woken(jobs, false)[p := Idle], readopen, writeopen)
    ensures SleepersOk(Woken(jobs, false)[p := Idle], held', readopen, writeopen)
  {
    WokenNobody(jobs, p, Idle, false);
  }

  lemma ReaderStops(jobs: map<nat, Job>, readopen: bool, writeopen: bool, p: nat)
    requires RefsOk(jobs, readopen, writeopen) && SleepersOk(jobs, 0, readopen, writeopen)
    requires p in jobs && jobs[p].Reading? && writeopen
    ensures RefsOk(jobs[p := Idle], readopen, writeopen) && SleepersOk(jobs[p := Idle], 0, readopen, writeopen)
    ensures var a := jobs[p := ReadSleep(jobs[p].n)]; RefsOk(a, readopen, writeopen) && SleepersOk(a, 0, readopen, writeopen)
  {
    OneSleeper(jobs, p, Idle);
    OneSleeper(jobs, p, ReadSleep(jobs[p].n));
  }

  lemma ReaderEnds(jobs: map<nat, Job>, held: int, held': int, readopen: bool, writeopen: bool, p: nat)
    requires RefsOk(jobs, readopen, writeopen) && SleepersOk(jobs, held, readopen, writeopen)
    requires p in jobs && jobs[p].Reading? && 0 <= held' <= held
    ensures RefsOk(Woken(jobs, true)[p := Idle], readopen, writeopen)
    ensures SleepersOk(Woken(jobs, true)[p := Idle], held', readopen, writeopen)
  {
    WokenNobody(jobs, p, Idle, true);
  }

  lemma Closed(jobs: map<nat, Job>, held: int, readopen: bool, writeopen: bool, writable: bool)
    requires RefsOk(jobs, readopen, writeopen) && SleepersOk(jobs, held, readopen, writeopen)
    requires if writable then NoWriter(jobs) else NoReader(jobs)
    ensures var j := Woken(jobs, !writable);
      && RefsOk(j, readopen && writable, writeopen && !writable)
      && SleepersOk(j, held, readopen && writable, writeopen && !writable)
  {
  }

  lemma KilledJob(jobs: map<nat, Job>, held: int, readopen: bool, writeopen: bool, p: nat)
    requires RefsOk(jobs, readopen, writeopen) && SleepersOk(jobs, held, readopen, writeopen) && p in jobs
    ensures var j := jobs[p := Wake(Wake(jobs[p], true), false)];
      RefsOk(j, readopen, writeopen) && SleepersOk(j, held, readopen, writeopen)
  {
  }
}
