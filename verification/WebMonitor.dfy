/** The producer and consumer threads of p4a/server.c around the request queue. Each method is
    one stretch of a thread under the mutex, ending when it waits or unlocks. */
module WebMonitor {
  import opened RequestQueue

  // Threads of ws that are not waiting.
  function Awake(ws: seq<bool>): nat { if ws == [] then 0 else (if ws[0] then 0 else 1) + Awake(ws[1..]) }

  lemma {:induction false} AwakeUpdate(ws: seq<bool>, c: nat, w: bool)
    requires c < |ws|
    ensures Awake(ws[c := w]) == Awake(ws) + (if ws[c] then 1 else 0) - (if w then 1 else 0)
  {
    if c > 0 {
      AwakeUpdate(ws[1..], c - 1, w);
      assert ws[c := w][1..] == ws[1..][c - 1 := w];
    } else {
      assert ws[0 := w][1..] == ws[1..];
    }
  }

  lemma {:induction false} AwakeBound(ws: seq<bool>)
    ensures Awake(ws) <= |ws|
    ensures (forall c | 0 <= c < |ws| :: !ws[c]) ==> Awake(ws) == |ws|
    ensures (forall c | 0 <= c < |ws| :: ws[c]) ==> Awake(ws) == 0
  {
    if ws != [] { AwakeBound(ws[1..]); }
  }

  function Min(a: nat, b: nat): nat { if a < b then a else b }

  class Server {
    const queue: Queue
    var producerWaits: bool       // in pthread_cond_wait(&empty)
    var consumerWaits: seq<bool>  // in pthread_cond_wait(&fill)

    ghost predicate Good()
      reads this, queue, queue.buffer
    {
      && queue.Valid()
      && Awake(consumerWaits) >= Min(queue.count, |consumerWaits|)
      && (producerWaits ==> queue.count == queue.realSize)
    }

    constructor (max: nat, size: nat, threads: nat)
      requires 1 <= size <= max && threads >= 1
      ensures Good() && fresh(queue) && fresh(queue.buffer) && queue.count == 0
      ensures |consumerWaits| == threads && !producerWaits
    {
      queue := new Queue(max, size);
      producerWaits, consumerWaits := false, seq(threads, _ => false);
      new;
      AwakeBound(consumerWaits);
    }

    // The producer with a request in hand, from lock, or from its wakeup, to unlock or wait.
    // woken is the consumer that the signal picks, if any waits.
    method Produce(r: Request, woken: nat) returns (waits: bool)
      requires Good() && !producerWaits
      requires (exists c: nat :: c < |consumerWaits| && consumerWaits[c]) ==> woken < |consumerWaits| && consumerWaits[woken]
      modifies this, queue, queue.buffer
      ensures Good() && waits == producerWaits == (old(queue.count) == queue.realSize)
      ensures waits ==> queue.Requests() == old(queue.Requests()) && consumerWaits == old(consumerWaits)
      ensures !waits ==> queue.Requests() == Inserted(old(queue.Requests()), r)
      ensures !waits ==> consumerWaits == if woken < |old(consumerWaits)| then old(consumerWaits)[woken := false] else old(consumerWaits)
    {
      if queue.count == queue.realSize {
        producerWaits := true;
        return true;
      }
      queue.Put(r);
      AwakeBound(consumerWaits);
      if woken < |consumerWaits| {
        AwakeUpdate(consumerWaits, woken, false);
        consumerWaits := consumerWaits[woken := false];
      }
      waits := false;
    }

    // A consumer, likewise; the signal wakes the producer if it waits.
    method Consume(c: nat) returns (waits: bool, r: Request)
      requires Good() && c < |consumerWaits| && !consumerWaits[c]
      modifies this, queue
      ensures Good() && waits == (old(queue.count) == 0) && |consumerWaits| == |old(consumerWaits)|
      ensures consumerWaits == old(consumerWaits)[c := waits]
      ensures waits ==> queue.Requests() == old(queue.Requests()) && producerWaits == old(producerWaits)
      ensures !waits ==> r == old(queue.Requests())[0] && queue.Requests() == old(queue.Requests())[1..] && !producerWaits
    {
      r := Request(0, 0, 0, "", "");
      AwakeUpdate(consumerWaits, c, true);
      if queue.count == 0 {
        consumerWaits := consumerWaits[c := true];
        return true, r;
      }
      r := queue.Get();
      producerWaits := false;
      assert consumerWaits == consumerWaits[c := false];
      waits := false;
    }

    // pthread_cond_wait may return without a signal.
    method SpuriousConsumer(c: nat)
      requires Good() && c < |consumerWaits|
      modifies `consumerWaits
      ensures Good() && consumerWaits == old(consumerWaits)[c := false]
    {
      AwakeUpdate(consumerWaits, c, false);
      consumerWaits := consumerWaits[c := false];
    }

    method SpuriousProducer()
      requires Good()
      modifies `producerWaits
      ensures Good() && !producerWaits
    {
      producerWaits := false;
    }
  }

  // In a state that satisfies the invariant not all threads wait: the server cannot lock up.
  lemma NeverAllWaiting(count: nat, realSize: nat, producerWaits: bool, ws: seq<bool>)
    requires realSize >= 1 && |ws| >= 1 && Awake(ws) >= Min(count, |ws|) && (producerWaits ==> count == realSize)
    ensures !(producerWaits && forall c | 0 <= c < |ws| :: ws[c])
  {
    AwakeBound(ws);
  }
}
