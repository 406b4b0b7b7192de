/** The operations of kernel/bio.c on the list and the buffers, with the disk interrupt. */
module Bio {
  import opened LruRing
  import opened BufferCache

  class Bcache {
    const n: nat  // NBUF; node n is bcache.head
    var next: seq<nat>
    var prev: seq<nat>
    var bufs: seq<Buf>
    var users: map<nat, User>
    var disk: Disk
    ghost var order: seq<nat>     // the list from head.next on
    ghost var released: seq<nat>  // time of each buffer's last release
    ghost var clock: nat
    ghost var modified: set<nat>  // buffers their holders have changed and not yet written
    ghost var wanted: map<nat, (nat, nat)>  // the block that each user called bread with

    ghost predicate ListOk()
      reads this
    {
      Ring(order, next, prev, n) && |bufs| == |released| == |order| == n && ByRelease(order, released, clock)
    }

    // Everything but the agreement with the disk.
    ghost predicate Sound()
      reads this
    {
      ListOk() && NoDuplicates(bufs) && FlagsOk(bufs) && HoldersOk(users, bufs) && WantsOk(users, wanted, bufs)
    }

    ghost predicate Good()
      reads this
    {
      Sound() && Coherent(bufs, disk, modified)
    }

    // binit.
    constructor (n_: nat, disk_: Disk)
      ensures Good() && n == n_ && disk == disk_ && users == map[] && modified == {}
      ensures forall i | 0 <= i < n :: bufs[i].dev == NODEV
    {
      n, users, disk := n_, map[], disk_;
      next, prev := seq(n_ + 1, _ => n_), seq(n_ + 1, _ => n_);
      bufs := seq(n_, _ => Buf(false, false, false, 0, 0, []));
      order, released, clock, modified, wanted := [], seq(n_, i => i), n_, {}, map[];
      new;
      hide Ring, ByRelease, Blank, Descending, NoDuplicates, FlagsOk, HoldersOk, Coherent;
      EmptyRing(n, next, prev, order, bufs);
      var b := 0;
      while b < n
        invariant 0 <= b <= n && Ring(order, next, prev, n) && Blank(bufs, n, b) && Descending(order, b)
        modifies `next, `prev, `bufs, `order
      {
        BlankNext(bufs, n, b, order, next, prev);
        Push(order, next, prev, n, b);
        next := next[b := next[n]];
        prev := prev[b := n];
        bufs := bufs[b := bufs[b].(dev := NODEV)];
        prev := prev[next[n] := b];
        next := next[n := b];
        order := [b] + order;
        b := b + 1;
      }
      BlankIsGood(bufs, n, order, released, disk);
    }

    // One look through the list in bget: for the block,
    method Look(dev: nat, sector: nat) returns (r: Got)
      requires ListOk()
      ensures GetOk(bufs, released, dev, sector, r)
    {
      hide Ring, ByRelease, Cached, IsVictim;
      RingSizes(order, next, prev, n);
      var b := next[n];
      ghost var i := 1;
      Step(order, next, prev, n, 0);
      while b != n
        invariant 1 <= i <= n + 1 && b == At(order, n, i)
        invariant forall j | 0 <= j < i - 1 :: !Has(bufs[order[j]], dev, sector)
        decreases n + 1 - i
      {
        Step(order, next, prev, n, i);
        if Has(bufs[b], dev, sector) {
          return if !bufs[b].busy then Buffer(b) else Wait(b);
        }
        b, i := next[b], i + 1;
      }
      NotCached(order, bufs, released, clock, dev, sector);
      r := LookFree();
    }

    // and from the other end for a buffer that is free.
    method LookFree() returns (r: Got)
      requires ListOk()
      ensures r.Buffer? ==> r.b < n && IsVictim(bufs, released, r.b) && !bufs[r.b].busy
      ensures r.NoBuffers? ==> forall c | 0 <= c < n :: bufs[c].busy
      ensures !r.Wait?
    {
      hide Ring, ByRelease, IsVictim;
      RingSizes(order, next, prev, n);
      var b := prev[n];
      ghost var i := n;
      Step(order, next, prev, n, n);
      while b != n
        invariant 0 <= i <= n && b == At(order, n, i)
        invariant forall j | i <= j < n :: bufs[order[j]].busy
        decreases i
      {
        Step(order, next, prev, n, i - 1);
        if !bufs[b].busy {
          LastFree(order, bufs, released, clock, i - 1);
          return Buffer(b);
        }
        b, i := prev[b], i - 1;
      }
      AllBusy(order, bufs, released, clock);
      r := NoBuffers;
    }

    // A user calls bread.
    method Start(p: nat, dev: nat, sector: nat)
      requires Good() && dev != NODEV && (p !in users || users[p] == Idle)
      modifies `users, `wanted
      ensures Good() && users == old(users)[p := Scan(dev, sector)] && wanted == old(wanted)[p := (dev, sector)]
    {
      users, wanted := users[p := Scan(dev, sector)], wanted[p := (dev, sector)];
      HoldersStill(old(users), bufs, users, p);
    }

    // bget from `loop:` to its return or sleep, and bread's test of B_VALID.
    method Bget(p: nat) returns (r: Got)
      requires Good() && p in users && users[p].Scan?
      modifies `bufs, `users
      ensures Good() && SameContent(old(bufs), disk, bufs, disk) && |old(bufs)| == |bufs| == |released| == n
      ensures r != NoBuffers ==> r.b < n
      ensures var u := old(users)[p];
        match r
        case Wait(b) => old(bufs)[b].busy && old(bufs)[b].dev == u.dev && old(bufs)[b].sector == u.sector
        case Buffer(b) =>
          && !old(bufs)[b].busy
          && (old(bufs)[b].dev == u.dev && old(bufs)[b].sector == u.sector ==> bufs[b] == old(bufs)[b].(busy := true))
          && (old(bufs)[b].dev != u.dev || old(bufs)[b].sector != u.sector ==>
                && !bufs[b].valid && !bufs[b].dirty && !Cached(old(bufs), u.dev, u.sector)
                && forall c | 0 <= c < n && !old(bufs)[c].busy :: released[b] <= released[c])
        case NoBuffers => !Cached(old(bufs), u.dev, u.sector) && forall c | 0 <= c < n :: old(bufs)[c].busy
      ensures r.Buffer? ==>
                users == old(users)[p := if bufs[r.b].valid then Holds(r.b) else Io(r.b)]
                && bufs == old(bufs)[r.b := bufs[r.b]]
                && bufs[r.b].busy && Has(bufs[r.b], old(users)[p].dev, old(users)[p].sector)
      ensures r.Wait? ==> bufs == old(bufs) && users == old(users)[p := Asleep(r.b, old(users)[p].dev, old(users)[p].sector)]
      ensures r.NoBuffers? ==> bufs == old(bufs) && users == old(users)
    {
      hide Ring, ByRelease, SameContent, NoDuplicates, FlagsOk, HoldersOk, Coherent, WantsOk;
      var u := users[p];
      WantAt(users, wanted, bufs, p);
      RealDevice(users, bufs, p);
      r := Look(u.dev, u.sector);
      SameAsItself(bufs, disk);
      match r {
        case Wait(b) =>
          users := users[p := Asleep(b, u.dev, u.sector)];
          HoldersStill(old(users), bufs, users, p);
          WantsKept(old(users), wanted, bufs, users, bufs, p, b);
        case Buffer(b) =>
          Claim(p, b);
        case NoBuffers =>
      }
    }

    // Buffer b becomes user p's: the one with its block, or a recycled one.
    method Claim(p: nat, b: nat)
      requires Good() && p in users && users[p].Scan?
      requires GetOk(bufs, released, users[p].dev, users[p].sector, Buffer(b))
      modifies `bufs, `users
      ensures Good() && SameContent(old(bufs), disk, bufs, disk)
      ensures b < n && users == old(users)[p := if bufs[b].valid then Holds(b) else Io(b)]
      ensures bufs == old(bufs)[b := bufs[b]] && bufs[b].busy && Has(bufs[b], old(users)[p].dev, old(users)[p].sector)
      ensures if Has(old(bufs)[b], old(users)[p].dev, old(users)[p].sector) then bufs[b] == old(bufs)[b].(busy := true)
              else !bufs[b].valid && !bufs[b].dirty
    {
      hide Ring, ByRelease, SameContent, NoDuplicates, FlagsOk, HoldersOk, Coherent, WantsOk;
      var u := users[p];
      WantAt(users, wanted, bufs, p);
      RealDevice(users, bufs, p);
      ClaimKeeps(bufs, users, disk, modified, released, p, u.dev, u.sector, b);
      ClaimSeen(bufs, disk, modified, released, u.dev, u.sector, b);
      if Has(bufs[b], u.dev, u.sector) {
        bufs := bufs[b := bufs[b].(busy := true)];
      } else {
        bufs := bufs[b := bufs[b].(dev := u.dev, sector := u.sector)];
        bufs := bufs[b := bufs[b].(busy := true, valid := false, dirty := false)];
      }
      assert bufs == old(bufs)[b := Claimed(old(bufs)[b], u.dev, u.sector)];
      users := users[p := if bufs[b].valid then Holds(b) else Io(b)];
      WantsKept(old(users), wanted, old(bufs), users, bufs, p, b);
    }

    // ideintr: the disk finishes the request of user p.
    method Complete(p: nat)
      requires Good() && p in users && users[p].Io?
      modifies `bufs, `users, `disk, `modified
      ensures Good() && users == old(users)[p := Holds(old(users)[p].b)]
      ensures SameContent(old(bufs), old(disk), bufs, disk)
      ensures var b := old(users)[p].b;
        && b < n && bufs == old(bufs)[b := bufs[b]] && b !in modified && modified == old(modified) - {b}
        && Has(bufs[b], old(bufs)[b].dev, old(bufs)[b].sector)
        && bufs[b].data == DiskAt(disk, bufs[b].dev, bufs[b].sector)
        && (old(bufs)[b].dirty ==> bufs[b].data == old(bufs)[b].data)
    {
      hide Ring, ByRelease, SameContent, NoDuplicates, FlagsOk, HoldersOk, Coherent, WantsOk;
      var b := users[p].b;
      WantAt(users, wanted, bufs, p);
      InIo(users, bufs, p);
      DiskWritten(bufs, disk, modified, b);
      if !bufs[b].dirty { DiskRead(bufs, disk, modified, b); }
      var x := bufs[b];
      OwnBufferKeeps(bufs, users, p, b, x.(valid := true, dirty := false), Holds(b));
      OwnBufferKeeps(bufs, users, p, b, x.(valid := true, dirty := false, data := DiskAt(disk, x.dev, x.sector)), Holds(b));
      if bufs[b].dirty {
        disk := disk[(bufs[b].dev, bufs[b].sector) := bufs[b].data];
        modified := modified - {b};
      } else {
        bufs := bufs[b := bufs[b].(data := DiskAt(disk, bufs[b].dev, bufs[b].sector))];
      }
      bufs := bufs[b := bufs[b].(valid := true, dirty := false)];
      assert bufs == old(bufs)[b := bufs[b]];
      assert bufs[b] == x.(valid := true, dirty := false, data := if x.dirty then x.data else DiskAt(old(disk), x.dev, x.sector));
      users := users[p := Holds(b)];
      WantsKept(old(users), wanted, old(bufs), users, bufs, p, b);
      IoSeen(old(bufs), old(disk), disk, b, bufs[b]);
    }

    // The holder writes to b->data.
    method Modify(p: nat, x: seq<nat>)
      requires Good() && p in users && users[p].Holds?
      modifies `bufs, `modified
      ensures Good() && users == old(users) && modified == old(modified) + {users[p].b}
      ensures var b := users[p].b; b < n && bufs == old(bufs)[b := old(bufs)[b].(data := x)]
      ensures forall d, s :: d != NODEV && !Has(bufs[users[p].b], d, s) ==> Seen(bufs, disk, d, s) == Seen(old(bufs), disk, d, s)
      ensures Seen(bufs, disk, bufs[users[p].b].dev, bufs[users[p].b].sector) == x
    {
      hide Ring, ByRelease, Seen, WantsOk;
      var b := users[p].b;
      InHold(users, bufs, p);
      WantAt(users, wanted, bufs, p);
      OwnBufferKeeps(bufs, users, p, b, bufs[b].(data := x), users[p]);
      bufs := bufs[b := bufs[b].(data := x)];
      WantsKept(old(users), wanted, old(bufs), users, bufs, p, b);
      modified := modified + {b};
      SameUsers(users, p);
      SameElsewhere(old(bufs), disk, bufs, disk, b);
      SeenAt(bufs, disk, b);
    }

    // bwrite, up to the disk's interrupt.
    method Bwrite(p: nat)
      requires Good() && p in users && users[p].Holds?
      modifies `bufs, `users
      ensures Good() && users == old(users)[p := Io(old(users)[p].b)]
      ensures var b := old(users)[p].b; b < n && bufs == old(bufs)[b := old(bufs)[b].(dirty := true)]
      ensures SameContent(old(bufs), disk, bufs, disk)
    {
      hide Ring, ByRelease, Seen, WantsOk;
      var b := users[p].b;
      InHold(users, bufs, p);
      WantAt(users, wanted, bufs, p);
      OwnBufferKeeps(bufs, users, p, b, bufs[b].(dirty := true), Io(b));
      FlagsSeen(bufs, disk, b, bufs[b].(dirty := true));
      bufs := bufs[b := bufs[b].(dirty := true)];
      users := users[p := Io(b)];
      WantsKept(old(users), wanted, old(bufs), users, bufs, p, b);
    }

    // brelse. The cache still agrees with the disk exactly when the holder left nothing
    // unwritten behind.
    method Brelse(p: nat)
      requires Good() && p in users && users[p].Holds?
      modifies `next, `prev, `bufs, `users, `order, `released, `clock, `modified
      ensures Sound() && users == Woken(old(users), old(users)[p].b)[p := Idle]
      ensures forall q | q in old(users) && q != p ::
                users[q] == var u := old(users)[q];
                            if u.Asleep? && u.b == old(users)[p].b then Scan(u.dev, u.sector) else u
      ensures modified == old(modified) - {old(users)[p].b}
      ensures var b := old(users)[p].b;
        && b < n && bufs == old(bufs)[b := old(bufs)[b].(busy := false)]
        && (Good() <==> bufs[b].data == DiskAt(disk, bufs[b].dev, bufs[b].sector))
      ensures released == old(released)[old(users)[p].b := old(clock)] && clock == old(clock) + 1
      ensures order == [old(users)[p].b] + Others(old(order), old(users)[p].b)
      ensures old(users)[p].b !in old(modified) ==> Good()
      ensures SameContent(old(bufs), disk, bufs, disk)
    {
      hide Ring, ByRelease, SameContent, NoDuplicates, FlagsOk, HoldersOk, Coherent, Woken, UserOk, Others, WantsOk;
      var b := users[p].b;
      InHold(users, bufs, p);
      WokenWants(users, wanted, bufs, p, b);
      RingSizes(order, next, prev, n);
      ghost var k := OnList(order, released, clock, b);
      StampKeeps(order, released, clock, k);
      ReleaseKeeps(bufs, users, p, b);
      FlagsSeen(bufs, disk, b, bufs[b].(busy := false));
      LetGo(bufs, disk, modified, b);
      ToFront(b, k);
      released, clock := released[b := clock], clock + 1;
      bufs := bufs[b := bufs[b].(busy := false)];
      users := Woken(users, b);
      users := users[p := Idle];
      modified := modified - {b};
    }

    // b, at position k of the list, goes to the front.
    method ToFront(b: nat, ghost k: nat)
      requires Ring(order, next, prev, n) && k < |order| && order[k] == b
      modifies `next, `prev, `order
      ensures order == [b] + Without(old(order), k) == [b] + Others(old(order), b) && Ring(order, next, prev, n)
    {
      hide Ring, Others;
      RingSizes(order, next, prev, n);
      Unlink(order, next, prev, n, k);
      Push(Without(order, k), next[prev[b] := next[b]], prev[next[b] := prev[b]], n, b);
      prev := prev[next[b] := prev[b]];
      next := next[prev[b] := next[b]];
      next := next[b := next[n]];
      prev := prev[b := n];
      prev := prev[next[n] := b];
      next := next[n := b];
      OthersAre(order, next, prev, n, old(order), old(next), old(prev), k);
      order := [b] + Without(order, k);
    }

    // A sleeper is made runnable without brelse, as kill does.
    method Rouse(p: nat)
      requires Good() && p in users && users[p].Asleep?
      modifies `users
      ensures Good() && users == old(users)[p := Scan(old(users)[p].dev, old(users)[p].sector)]
    {
      RealSleeper(users, bufs, p);
      WantAt(users, wanted, bufs, p);
      users := users[p := Scan(users[p].dev, users[p].sector)];
      HoldersStill(old(users), bufs, users, p);
    }
  }

  lemma WantAt(users: map<nat, User>, wanted: map<nat, (nat, nat)>, bufs: seq<Buf>, p: nat)
    requires WantsOk(users, wanted, bufs) && p in users && users[p] != Idle
    ensures p in wanted && WantOk(users[p], wanted[p], bufs)
  {
  }

  // After brelse the sleepers still look for what they called bread with.
  lemma WokenWants(users: map<nat, User>, wanted: map<nat, (nat, nat)>, bufs: seq<Buf>, p: nat, b: nat)
    requires WantsOk(users, wanted, bufs) && p in users && b < |bufs|
    ensures WantsOk(Woken(users, b)[p := Idle], wanted, bufs[b := bufs[b].(busy := false)])
    ensures Woken(users, b).Keys == users.Keys
    ensures forall q | q in users ::
              Woken(users, b)[q] == var u := users[q]; if u.Asleep? && u.b == b then Scan(u.dev, u.sector) else u
  {
  }

  // ----- binit -----

  // The first b buffers have their device number; all are free and hold nothing.
  ghost predicate Blank(bufs: seq<Buf>, n: nat, b: nat) {
    && |bufs| == n
    && forall i | 0 <= i < n :: !bufs[i].busy && !bufs[i].valid && !bufs[i].dirty && (i < b ==> bufs[i].dev == NODEV)
  }

  ghost predicate Descending(order: seq<nat>, b: nat) { |order| == b && forall i | 0 <= i < b :: order[i] == b - 1 - i }

  lemma EmptyRing(n: nat, next: seq<nat>, prev: seq<nat>, order: seq<nat>, bufs: seq<Buf>)
    requires |next| == |prev| == n + 1 && next[n] == prev[n] == n && order == []
    requires |bufs| == n && forall i | 0 <= i < n :: !bufs[i].busy && !bufs[i].valid && !bufs[i].dirty
    ensures Ring(order, next, prev, n) && Blank(bufs, n, 0) && Descending(order, 0)
  {
  }

  lemma BlankNext(bufs: seq<Buf>, n: nat, b: nat, order: seq<nat>, next: seq<nat>, prev: seq<nat>)
    requires Blank(bufs, n, b) && b < n && Descending(order, b) && Ring(order, next, prev, n)
    ensures |bufs| == n && Blank(bufs[b := bufs[b].(dev := NODEV)], n, b + 1)
    ensures Descending([b] + order, b + 1) && b !in order && |next| == |prev| == n + 1
  {
  }

  lemma BlankIsGood(bufs: seq<Buf>, n: nat, order: seq<nat>, released: seq<nat>, disk: Disk)
    requires Blank(bufs, n, n) && Descending(order, n) && |released| == n && forall i | 0 <= i < n :: released[i] == i
    ensures |bufs| == |order| == n && ByRelease(order, released, n)
    ensures NoDuplicates(bufs) && FlagsOk(bufs) && HoldersOk(map[], bufs) && Coherent(bufs, disk, {})
    ensures forall i | 0 <= i < n :: bufs[i].dev == NODEV
  {
    forall i | 0 <= i < n
      ensures i in order
    {
      var j := n - 1 - i;
      assert order[j] == i;
    }
  }

  // ----- the list -----

  // The list without b.
  ghost function Others(order: seq<nat>, b: nat): seq<nat> {
    if order == [] then [] else (if order[0] == b then [] else [order[0]]) + Others(order[1..], b)
  }

  lemma {:induction false} OthersWithout(order: seq<nat>, k: nat)
    requires k < |order| && forall i, j | 0 <= i < j < |order| :: order[i] != order[j]
    ensures Others(order, order[k]) == Without(order, k)
  {
    if k == 0 {
      NotOn(order[1..], order[0]);
      assert Without(order, 0) == order[1..];
    } else {
      OthersWithout(order[1..], k - 1);
      assert Without(order, k) == [order[0]] + Without(order[1..], k - 1);
    }
  }

  lemma {:induction false} NotOn(order: seq<nat>, b: nat)
    requires b !in order
    ensures Others(order, b) == order
  {
    if order != [] { NotOn(order[1..], b); }
  }

  lemma OthersAre(order: seq<nat>, next: seq<nat>, prev: seq<nat>, h: nat, order0: seq<nat>, next0: seq<nat>,
                  prev0: seq<nat>, k: nat)
    requires order == order0 && Ring(order0, next0, prev0, h) && k < |order|
    ensures Others(order, order[k]) == Without(order, k)
  {
    OthersWithout(order, k);
  }

  lemma RingSizes(order: seq<nat>, next: seq<nat>, prev: seq<nat>, h: nat)
    requires Ring(order, next, prev, h)
    ensures |next| == |prev| == h + 1
    ensures forall i | 0 <= i < |order| :: order[i] < h
    ensures forall i, j | 0 <= i < j < |order| :: order[i] != order[j]
  {
  }

  lemma OnList(order: seq<nat>, released: seq<nat>, clock: nat, b: nat) returns (k: nat)
    requires ByRelease(order, released, clock) && b < |released|
    ensures k < |order| && order[k] == b
  {
    assert b in order;
    k :| 0 <= k < |order| && order[k] == b;
  }

  lemma NotCached(order: seq<nat>, bufs: seq<Buf>, released: seq<nat>, clock: nat, dev: nat, sector: nat)
    requires ByRelease(order, released, clock) && |released| == |bufs| == |order|
    requires forall j | 0 <= j < |order| :: !Has(bufs[order[j]], dev, sector)
    ensures !Cached(bufs, dev, sector)
  {
    forall i | 0 <= i < |bufs|
      ensures !Has(bufs[i], dev, sector)
    {
      assert i in order;
      var k :| 0 <= k < |order| && order[k] == i;
    }
  }

  lemma LastFree(order: seq<nat>, bufs: seq<Buf>, released: seq<nat>, clock: nat, k: nat)
    requires ByRelease(order, released, clock) && |released| == |bufs| == |order| && k < |order| && !bufs[order[k]].busy
    requires forall j | k < j < |order| :: bufs[order[j]].busy
    ensures IsVictim(bufs, released, order[k])
  {
    forall c | 0 <= c < |bufs| && !bufs[c].busy
      ensures released[order[k]] <= released[c]
    {
      assert c in order;
      var j :| 0 <= j < |order| && order[j] == c;
      assert j <= k;
    }
  }

  lemma AllBusy(order: seq<nat>, bufs: seq<Buf>, released: seq<nat>, clock: nat)
    requires ByRelease(order, released, clock) && |released| == |bufs| == |order|
    requires forall j | 0 <= j < |order| :: bufs[order[j]].busy
    ensures forall c | 0 <= c < |bufs| :: bufs[c].busy
  {
    forall c | 0 <= c < |bufs|
      ensures bufs[c].busy
    {
      assert c in order;
      var j :| 0 <= j < |order| && order[j] == c;
    }
  }

  // A user that holds nothing before or after.
  lemma HoldersStill(users: map<nat, User>, bufs: seq<Buf>, users': map<nat, User>, p: nat)
    requires HoldersOk(users, bufs) && p in users' && users' == users[p := users'[p]] && UserOk(users'[p], bufs)
    requires !users'[p].Holds? && !users'[p].Io? && (p in users ==> !users[p].Holds? && !users[p].Io?)
    ensures HoldersOk(users', bufs)
  {
    forall i | 0 <= i < |bufs| && bufs[i].busy
      ensures exists q :: q in users' && Holding(users'[q], i)
    {
      var q :| q in users && Holding(users[q], i);
      assert q in users' && Holding(users'[q], i);
    }
  }

  lemma RealDevice(users: map<nat, User>, bufs: seq<Buf>, p: nat)
    requires HoldersOk(users, bufs) && p in users && users[p].Scan?
    ensures users[p].dev != NODEV
  {
    assert UserOk(users[p], bufs);
  }

  lemma RealSleeper(users: map<nat, User>, bufs: seq<Buf>, p: nat)
    requires HoldersOk(users, bufs) && p in users && users[p].Asleep?
    ensures users[p].dev != NODEV && users[p].b < |bufs| && bufs[users[p].b].busy
    ensures Has(bufs[users[p].b], users[p].dev, users[p].sector)
  {
    assert UserOk(users[p], bufs);
  }

  lemma InIo(users: map<nat, User>, bufs: seq<Buf>, p: nat)
    requires HoldersOk(users, bufs) && FlagsOk(bufs) && p in users && users[p].Io?
    ensures users[p].b < |bufs| && Holding(users[p], users[p].b)
    ensures var x := bufs[users[p].b]; x.busy && x.dev != NODEV && (x.valid <==> x.dirty)
  {
    assert UserOk(users[p], bufs);
  }

  lemma InHold(users: map<nat, User>, bufs: seq<Buf>, p: nat)
    requires HoldersOk(users, bufs) && FlagsOk(bufs) && p in users && users[p].Holds?
    ensures users[p].b < |bufs| && Holding(users[p], users[p].b)
    ensures var x := bufs[users[p].b]; x.busy && x.dev != NODEV && x.valid && !x.dirty
  {
    assert UserOk(users[p], bufs);
  }

  // What bread returned: the block it was called with, as everyone sees it, and as it is on disk
  // if unmodified.
  lemma HeldIsSeen(users: map<nat, User>, wanted: map<nat, (nat, nat)>, bufs: seq<Buf>, disk: Disk,
                   modified: set<nat>, p: nat)
    requires WantsOk(users, wanted, bufs)
    requires HoldersOk(users, bufs) && FlagsOk(bufs) && NoDuplicates(bufs) && Coherent(bufs, disk, modified)
    requires p in users && users[p].Holds?
    ensures users[p].b < |bufs| && p in wanted
    ensures var x := bufs[users[p].b];
      && (x.dev, x.sector) == wanted[p]
      && x.data == Seen(bufs, disk, wanted[p].0, wanted[p].1)
      && x.data == Seen(bufs, disk, x.dev, x.sector)
      && (users[p].b !in modified ==> x.data == DiskAt(disk, x.dev, x.sector))
  {
    InHold(users, bufs, p);
    WantAt(users, wanted, bufs, p);
    SeenAt(bufs, disk, users[p].b);
  }

  // No wakeup is lost: someone holds the buffer a sleeper waits for and will release it.
  lemma SleeperIsAwaited(users: map<nat, User>, bufs: seq<Buf>, p: nat) returns (q: nat)
    requires HoldersOk(users, bufs) && p in users && users[p].Asleep?
    ensures q in users && q != p && Holding(users[q], users[p].b)
  {
    RealSleeper(users, bufs, p);
    q :| q in users && Holding(users[q], users[p].b);
  }

  lemma SameUsers(users: map<nat, User>, p: nat)
    requires p in users
    ensures users[p := users[p]] == users
  {
  }

  lemma SameAsItself(bufs: seq<Buf>, disk: Disk)
    ensures SameContent(bufs, disk, bufs, disk)
  {
  }

  lemma DiskRead(bufs: seq<Buf>, disk: Disk, modified: set<nat>, b: nat)
    requires Coherent(bufs, disk, modified) && b < |bufs| && !bufs[b].dirty && !bufs[b].valid
    ensures b !in modified
    ensures var x := bufs[b];
      Coherent(bufs[b := x.(valid := true, dirty := false, data := DiskAt(disk, x.dev, x.sector))], disk, modified)
  {
  }

  // Releasing b: a valid free buffer must equal its block.
  lemma LetGo(bufs: seq<Buf>, disk: Disk, modified: set<nat>, b: nat)
    requires Coherent(bufs, disk, modified) && b < |bufs| && bufs[b].valid
    ensures var x := bufs[b];
      && (Coherent(bufs[b := x.(busy := false)], disk, modified - {b}) <==> x.data == DiskAt(disk, x.dev, x.sector))
      && (b !in modified ==> x.data == DiskAt(disk, x.dev, x.sector))
  {
    var bufs' := bufs[b := bufs[b].(busy := false)];
    if Coherent(bufs', disk, modified - {b}) {
      assert bufs'[b].valid && b !in modified - {b};
    }
  }
}
