/** kernel/bio.c: the block cache under any interleaving of its users. A user is one
    bread ... brelse episode; each method below is one stretch of code that runs without
    another one in between (a section under bcache.lock, or work on a buffer held alone). */
module BufferCache {
  import opened LruRing

  const NODEV: nat := 0xFFFF_FFFF  // dev = -1

  datatype Buf = Buf(busy: bool, valid: bool, dirty: bool, dev: nat, sector: nat, data: seq<nat>)

  // Scan: in bget, about to look through the list. Asleep: in bget, waiting for buffer b.
  // Io: in iderw. Holds: between bread and brelse.
  datatype User = Idle | Scan(dev: nat, sector: nat) | Asleep(b: nat, dev: nat, sector: nat) | Io(b: nat) | Holds(b: nat)

  datatype Got = Buffer(b: nat) | Wait(b: nat) | NoBuffers

  type Disk = map<(nat, nat), seq<nat>>

  function DiskAt(disk: Disk, dev: nat, sector: nat): seq<nat> {
    if (dev, sector) in disk then disk[(dev, sector)] else []
  }

  predicate Has(x: Buf, dev: nat, sector: nat) { x.dev == dev && x.sector == sector }

  // ----- the invariant -----

  // No block of a real device is in two buffers.
  ghost predicate NoDuplicates(bufs: seq<Buf>) {
    forall i, j | 0 <= i < j < |bufs| && bufs[i].dev != NODEV :: !Has(bufs[j], bufs[i].dev, bufs[i].sector)
  }

  ghost predicate FlagsOk(bufs: seq<Buf>) {
    && (forall i | 0 <= i < |bufs| :: bufs[i].dev == NODEV ==> !bufs[i].busy && !bufs[i].valid)
    && (forall i | 0 <= i < |bufs| :: bufs[i].dirty ==> bufs[i].busy && bufs[i].valid)
  }

  predicate Holding(u: User, b: nat) { (u.Holds? || u.Io?) && u.b == b }

  // A buffer is busy exactly when a user holds it, and then one user only.
  ghost predicate HoldersOk(users: map<nat, User>, bufs: seq<Buf>) {
    && (forall p | p in users :: UserOk(users[p], bufs))
    && (forall p, q | p in users && q in users && p != q :: (users[p].Holds? || users[p].Io?) ==> !Holding(users[q], users[p].b))
    && AllHeld(users, bufs)
  }

  ghost predicate AllHeld(users: map<nat, User>, bufs: seq<Buf>) {
    forall i | 0 <= i < |bufs| && bufs[i].busy :: exists p :: p in users && Holding(users[p], i)
  }

  // A sleeper's buffer is busy and still holds the block it waits for; who is in iderw has
  // something to do there.
  predicate UserOk(u: User, bufs: seq<Buf>) {
    match u
    case Idle => true
    case Scan(dev, sector) => dev != NODEV
    case Asleep(b, dev, sector) => dev != NODEV && b < |bufs| && bufs[b].busy && Has(bufs[b], dev, sector)
    case Io(b) => b < |bufs| && bufs[b].busy && (!bufs[b].valid || bufs[b].dirty)
    case Holds(b) => b < |bufs| && bufs[b].busy && bufs[b].valid && !bufs[b].dirty
  }

  // Every user looks for, waits for or has the block that its bread was called with.
  ghost predicate WantsOk(users: map<nat, User>, wanted: map<nat, (nat, nat)>, bufs: seq<Buf>) {
    forall p | p in users && users[p] != Idle :: p in wanted && WantOk(users[p], wanted[p], bufs)
  }

  predicate WantOk(u: User, block: (nat, nat), bufs: seq<Buf>) {
    match u
    case Idle => true
    case Scan(dev, sector) => (dev, sector) == block
    case Asleep(b, dev, sector) => (dev, sector) == block
    case Io(b) => b < |bufs| && (bufs[b].dev, bufs[b].sector) == block
    case Holds(b) => b < |bufs| && (bufs[b].dev, bufs[b].sector) == block
  }

  // A step on buffer b, which keeps its block if it is busy.
  lemma WantsKept(users: map<nat, User>, wanted: map<nat, (nat, nat)>, bufs: seq<Buf>, users': map<nat, User>,
                  bufs': seq<Buf>, p: nat, b: nat)
    requires HoldersOk(users, bufs) && WantsOk(users, wanted, bufs) && p in users'
    requires |bufs'| == |bufs| && forall i | 0 <= i < |bufs| && i != b :: bufs'[i] == bufs[i]
    requires b < |bufs| && bufs[b].busy ==> Has(bufs'[b], bufs[b].dev, bufs[b].sector)
    requires forall q | q in users' && q != p :: q in users && users'[q] == users[q]
    requires users'[p] != Idle ==> p in wanted && WantOk(users'[p], wanted[p], bufs')
    ensures WantsOk(users', wanted, bufs')
  {
    forall q | q in users' && users'[q] != Idle
      ensures q in wanted && WantOk(users'[q], wanted[q], bufs')
    {
      if q != p { assert UserOk(users[q], bufs) && WantOk(users[q], wanted[q], bufs); }
    }
  }

  // A valid buffer agrees with the disk unless its holder has modified it since.
  ghost predicate Coherent(bufs: seq<Buf>, disk: Disk, modified: set<nat>) {
    && (forall i | i in modified :: i < |bufs| && bufs[i].busy && bufs[i].valid)
    && forall i | 0 <= i < |bufs| && bufs[i].valid && i !in modified ::
         bufs[i].data == DiskAt(disk, bufs[i].dev, bufs[i].sector)
  }

  // Buffers stand in the list by the time of their last release, the latest first.
  ghost predicate ByRelease(order: seq<nat>, released: seq<nat>, clock: nat) {
    && (forall i | 0 <= i < |order| :: order[i] < |released|)
    && (forall i | 0 <= i < |released| :: i in order && released[i] < clock)
    && (forall i, j | 0 <= i < j < |order| :: released[order[i]] > released[order[j]])
  }

  // The least recently released of the buffers nobody holds.
  ghost predicate IsVictim(bufs: seq<Buf>, released: seq<nat>, b: nat)
    requires |released| == |bufs|
  {
    && b < |bufs| && !bufs[b].busy
    && forall c | 0 <= c < |bufs| && !bufs[c].busy :: released[b] <= released[c]
  }

  ghost predicate Cached(bufs: seq<Buf>, dev: nat, sector: nat) {
    exists i :: 0 <= i < |bufs| && Has(bufs[i], dev, sector)
  }

  // Where bget leaves off after looking through the list once.
  ghost predicate GetOk(bufs: seq<Buf>, released: seq<nat>, dev: nat, sector: nat, r: Got)
    requires |released| == |bufs|
  {
    match r
    case Wait(b) => b < |bufs| && Has(bufs[b], dev, sector) && bufs[b].busy
    case Buffer(b) => b < |bufs| && !bufs[b].busy &&
      (Has(bufs[b], dev, sector) || (!Cached(bufs, dev, sector) && IsVictim(bufs, released, b)))
    case NoBuffers => !Cached(bufs, dev, sector) && forall c | 0 <= c < |bufs| :: bufs[c].busy
  }

  // What bget does to the buffer it returns.
  function Claimed(x: Buf, dev: nat, sector: nat): Buf {
    if Has(x, dev, sector) then x.(busy := true) else Buf(true, false, false, dev, sector, x.data)
  }

  // ----- steps of the invariant -----

  lemma ClaimKeeps(bufs: seq<Buf>, users: map<nat, User>, disk: Disk, modified: set<nat>, released: seq<nat>,
                   p: nat, dev: nat, sector: nat, b: nat)
    requires NoDuplicates(bufs) && FlagsOk(bufs) && HoldersOk(users, bufs) && Coherent(bufs, disk, modified)
    requires |released| == |bufs| && GetOk(bufs, released, dev, sector, Buffer(b)) && dev != NODEV
    requires p in users && users[p] == Scan(dev, sector)
    ensures var x := Claimed(bufs[b], dev, sector);
      var bufs', users' := bufs[b := x], users[p := if x.valid then Holds(b) else Io(b)];
      && NoDuplicates(bufs') && FlagsOk(bufs') && HoldersOk(users', bufs') && Coherent(bufs', disk, modified)
      && b !in modified && x.busy && Has(x, dev, sector)
  {
    var x := Claimed(bufs[b], dev, sector);
    var bufs' := bufs[b := x];
    var users' := users[p := if x.valid then Holds(b) else Io(b)];
    forall q | q in users && q != p
      ensures UserOk(users'[q], bufs') && !Holding(users'[q], b)
    {
      assert UserOk(users[q], bufs);
    }
    ClaimedIsHeld(bufs, users, p, b, x, users'[p]);
  }

  lemma ClaimedIsHeld(bufs: seq<Buf>, users: map<nat, User>, p: nat, b: nat, x: Buf, u: User)
    requires HoldersOk(users, bufs) && b < |bufs| && Holding(u, b) && p in users && users[p].Scan?
    ensures AllHeld(users[p := u], bufs[b := x])
  {
    var users', bufs' := users[p := u], bufs[b := x];
    forall i | 0 <= i < |bufs| && bufs'[i].busy
      ensures exists q :: q in users' && Holding(users'[q], i)
    {
      if i == b {
        assert p in users' && Holding(users'[p], i);
      } else {
        var q :| q in users && Holding(users[q], i);
        assert q in users' && Holding(users'[q], i);
      }
    }
  }

  // A user's own buffer changes while it stays busy with the same block.
  lemma OwnBufferKeeps(bufs: seq<Buf>, users: map<nat, User>, p: nat, b: nat, x: Buf, u: User)
    requires NoDuplicates(bufs) && FlagsOk(bufs) && HoldersOk(users, bufs)
    requires p in users && Holding(users[p], b) && b < |bufs| && Holding(u, b)
    requires x.busy && (x.dirty ==> x.valid) && Has(x, bufs[b].dev, bufs[b].sector) && UserOk(u, bufs[b := x])
    ensures NoDuplicates(bufs[b := x]) && FlagsOk(bufs[b := x]) && HoldersOk(users[p := u], bufs[b := x])
  {
    var bufs', users' := bufs[b := x], users[p := u];
    forall q | q in users && q != p
      ensures UserOk(users'[q], bufs')
      ensures !Holding(users'[q], b)
    {
      assert UserOk(users[q], bufs);
    }
    forall i | 0 <= i < |bufs| && bufs'[i].busy
      ensures exists q :: q in users' && Holding(users'[q], i)
    {
      var q :| q in users && Holding(users[q], i);
      assert q in users' && Holding(users'[q], i);
    }
  }

  // brelse: every sleeper on b goes back to scan.
  function Woken(users: map<nat, User>, b: nat): map<nat, User> {
    map p | p in users :: if users[p].Asleep? && users[p].b == b then Scan(users[p].dev, users[p].sector) else users[p]
  }

  lemma ReleaseKeeps(bufs: seq<Buf>, users: map<nat, User>, p: nat, b: nat)
    requires NoDuplicates(bufs) && FlagsOk(bufs) && HoldersOk(users, bufs)
    requires p in users && users[p] == Holds(b)
    ensures b < |bufs|
    ensures var bufs', users' := bufs[b := bufs[b].(busy := false)], Woken(users, b)[p := Idle];
      NoDuplicates(bufs') && FlagsOk(bufs') && HoldersOk(users', bufs')
  {
    assert UserOk(users[p], bufs);
    var bufs', users' := bufs[b := bufs[b].(busy := false)], Woken(users, b)[p := Idle];
    forall q | q in users'
      ensures UserOk(users'[q], bufs')
    {
      assert UserOk(users[q], bufs);
    }
    forall i | 0 <= i < |bufs| && bufs'[i].busy
      ensures exists q :: q in users' && Holding(users'[q], i)
    {
      var q :| q in users && Holding(users[q], i);
      assert q in users' && Holding(users'[q], i);
    }
  }

  // Writing b's block on disk touches no other buffer's block.
  lemma DiskWritten(bufs: seq<Buf>, disk: Disk, modified: set<nat>, b: nat)
    requires NoDuplicates(bufs) && FlagsOk(bufs) && Coherent(bufs, disk, modified) && b < |bufs| && bufs[b].busy
    ensures var x := bufs[b];
      Coherent(bufs[b := x.(valid := true, dirty := false)], disk[(x.dev, x.sector) := x.data], modified - {b})
  {
    var x := bufs[b];
    assert x.dev != NODEV;
    forall i | 0 <= i < |bufs| && i != b
      ensures (bufs[i].dev, bufs[i].sector) != (x.dev, x.sector)
    {
      assert i < b && bufs[i].dev != NODEV ==> !Has(bufs[b], bufs[i].dev, bufs[i].sector);
    }
  }

  // ----- what the users of the cache see -----

  // The content of a block: its valid buffer's, or else the disk's.
  ghost function Seen(bufs: seq<Buf>, disk: Disk, dev: nat, sector: nat): seq<nat> {
    if i :| 0 <= i < |bufs| && bufs[i].valid && Has(bufs[i], dev, sector) then bufs[i].data else DiskAt(disk, dev, sector)
  }

  // Two states of cache and disk in which every block reads the same.
  ghost predicate SameContent(bufs: seq<Buf>, disk: Disk, bufs': seq<Buf>, disk': Disk) {
    forall d, s | d != NODEV :: Seen(bufs', disk', d, s) == Seen(bufs, disk, d, s)
  }

  lemma SeenAt(bufs: seq<Buf>, disk: Disk, i: nat)
    requires NoDuplicates(bufs) && i < |bufs| && bufs[i].valid && bufs[i].dev != NODEV
    ensures Seen(bufs, disk, bufs[i].dev, bufs[i].sector) == bufs[i].data
  {
    var d, s := bufs[i].dev, bufs[i].sector;
    forall j | 0 <= j < |bufs| && Has(bufs[j], d, s)
      ensures j == i
    {
    }
  }

  lemma SeenOnDisk(bufs: seq<Buf>, disk: Disk, d: nat, s: nat)
    requires forall i | 0 <= i < |bufs| && bufs[i].valid :: !Has(bufs[i], d, s)
    ensures Seen(bufs, disk, d, s) == DiskAt(disk, d, s)
  {
  }

  // With nothing modified and not yet written back, the cache shows the disk.
  lemma SeenIsDisk(bufs: seq<Buf>, disk: Disk, modified: set<nat>, d: nat, s: nat)
    requires NoDuplicates(bufs) && Coherent(bufs, disk, modified) && d != NODEV
    ensures (forall i | i in modified && i < |bufs| :: !Has(bufs[i], d, s)) ==> Seen(bufs, disk, d, s) == DiskAt(disk, d, s)
  {
    if i :| 0 <= i < |bufs| && bufs[i].valid && Has(bufs[i], d, s) {
      SeenAt(bufs, disk, i);
    }
  }

  // Changing buffer b so that its old and new blocks read as before changes no block.
  lemma SameElsewhere(bufs: seq<Buf>, disk: Disk, bufs': seq<Buf>, disk': Disk, b: nat)
    requires NoDuplicates(bufs) && NoDuplicates(bufs') && b < |bufs| == |bufs'| && bufs' == bufs[b := bufs'[b]]
    requires forall d, s :: d != NODEV && !Has(bufs[b], d, s) && !Has(bufs'[b], d, s) ==>
               DiskAt(disk', d, s) == DiskAt(disk, d, s)
    ensures forall d, s :: d != NODEV && !Has(bufs[b], d, s) && !Has(bufs'[b], d, s) ==>
              Seen(bufs', disk', d, s) == Seen(bufs, disk, d, s)
  {
    forall d, s | d != NODEV && !Has(bufs[b], d, s) && !Has(bufs'[b], d, s)
      ensures Seen(bufs', disk', d, s) == Seen(bufs, disk, d, s)
    {
      if i :| 0 <= i < |bufs| && bufs[i].valid && Has(bufs[i], d, s) {
        SeenAt(bufs, disk, i);
        SeenAt(bufs', disk', i);
      } else {
        SeenOnDisk(bufs, disk, d, s);
        SeenOnDisk(bufs', disk', d, s);
      }
    }
  }

  // Recycling a buffer loses nothing, for its block is on disk.
  lemma ClaimSeen(bufs: seq<Buf>, disk: Disk, modified: set<nat>, released: seq<nat>, dev: nat, sector: nat, b: nat)
    requires NoDuplicates(bufs) && FlagsOk(bufs) && Coherent(bufs, disk, modified) && dev != NODEV
    requires |released| == |bufs| && GetOk(bufs, released, dev, sector, Buffer(b))
    requires NoDuplicates(bufs[b := Claimed(bufs[b], dev, sector)])
    ensures SameContent(bufs, disk, bufs[b := Claimed(bufs[b], dev, sector)], disk)
  {
    var bufs' := bufs[b := Claimed(bufs[b], dev, sector)];
    SameElsewhere(bufs, disk, bufs', disk, b);
    forall d, s | d != NODEV && (Has(bufs[b], d, s) || Has(bufs'[b], d, s))
      ensures Seen(bufs', disk, d, s) == Seen(bufs, disk, d, s)
    {
      if Has(bufs[b], dev, sector) {
        if bufs[b].valid {
          SeenAt(bufs, disk, b);
          SeenAt(bufs', disk, b);
        } else {
          AbsentSeen(bufs, disk, b);
          AbsentSeen(bufs', disk, b);
        }
      } else {
        if bufs[b].valid && Has(bufs[b], d, s) { SeenAt(bufs, disk, b); }
        if !bufs[b].valid && Has(bufs[b], d, s) { AbsentSeen(bufs, disk, b); }
        if Has(bufs'[b], d, s) { AbsentSeen(bufs', disk, b); }
        GoneSeen(bufs, disk, bufs', b, d, s);
      }
    }
  }

  // The block of an invalid buffer is read from disk.
  lemma AbsentSeen(bufs: seq<Buf>, disk: Disk, b: nat)
    requires NoDuplicates(bufs) && b < |bufs| && !bufs[b].valid && bufs[b].dev != NODEV
    ensures Seen(bufs, disk, bufs[b].dev, bufs[b].sector) == DiskAt(disk, bufs[b].dev, bufs[b].sector)
  {
    var d, s := bufs[b].dev, bufs[b].sector;
    forall i | 0 <= i < |bufs| && bufs[i].valid
      ensures !Has(bufs[i], d, s)
    {
    }
    SeenOnDisk(bufs, disk, d, s);
  }

  lemma GoneSeen(bufs: seq<Buf>, disk: Disk, bufs': seq<Buf>, b: nat, d: nat, s: nat)
    requires NoDuplicates(bufs) && NoDuplicates(bufs') && b < |bufs| == |bufs'| && bufs' == bufs[b := bufs'[b]]
    requires d != NODEV && Has(bufs[b], d, s) != Has(bufs'[b], d, s)
    requires Has(bufs'[b], d, s) ==> !Cached(bufs, d, s) && !bufs'[b].valid
    ensures Has(bufs'[b], d, s) ==> Seen(bufs, disk, d, s) == DiskAt(disk, d, s)
    ensures Has(bufs[b], d, s) ==> Seen(bufs', disk, d, s) == DiskAt(disk, d, s)
  {
    forall i | 0 <= i < |bufs| && Has(bufs[b], d, s)
      ensures !Has(bufs'[i], d, s)
    {
    }
    if Has(bufs[b], d, s) { SeenOnDisk(bufs', disk, d, s); } else { SeenOnDisk(bufs, disk, d, s); }
  }

  // A transfer between buffer and disk.
  lemma IoSeen(bufs: seq<Buf>, disk: Disk, disk': Disk, b: nat, x: Buf)
    requires NoDuplicates(bufs) && b < |bufs| && bufs[b].dev != NODEV && x.valid && Has(x, bufs[b].dev, bufs[b].sector)
    requires if bufs[b].valid then x.data == bufs[b].data && disk' == disk[(x.dev, x.sector) := x.data]
             else x.data == DiskAt(disk, x.dev, x.sector) && disk' == disk
    requires NoDuplicates(bufs[b := x])
    ensures SameContent(bufs, disk, bufs[b := x], disk')
  {
    var bufs' := bufs[b := x];
    SameElsewhere(bufs, disk, bufs', disk', b);
    SeenAt(bufs', disk', b);
    if bufs[b].valid { SeenAt(bufs, disk, b); } else { AbsentSeen(bufs, disk, b); }
  }

  // Flags other than B_VALID do not matter to what is seen.
  lemma FlagsSeen(bufs: seq<Buf>, disk: Disk, b: nat, x: Buf)
    requires NoDuplicates(bufs) && b < |bufs| && NoDuplicates(bufs[b := x])
    requires Has(x, bufs[b].dev, bufs[b].sector) && x.valid == bufs[b].valid && x.data == bufs[b].data
    ensures SameContent(bufs, disk, bufs[b := x], disk)
  {
    var bufs' := bufs[b := x];
    SameElsewhere(bufs, disk, bufs', disk, b);
    if bufs[b].dev != NODEV {
      if x.valid {
        SeenAt(bufs, disk, b);
        SeenAt(bufs', disk, b);
      } else {
        AbsentSeen(bufs, disk, b);
        AbsentSeen(bufs', disk, b);
      }
    }
  }

  // Moving buffer k to the front with a new stamp keeps the list in order of release.
  lemma StampKeeps(order: seq<nat>, released: seq<nat>, clock: nat, k: nat)
    requires ByRelease(order, released, clock) && k < |order|
    requires forall i, j | 0 <= i < j < |order| :: order[i] != order[j]
    ensures ByRelease([order[k]] + Without(order, k), released[order[k] := clock], clock + 1)
  {
    hide Without;
    var b := order[k];
    var order', released' := [b] + Without(order, k), released[b := clock];
    FrontAt(order, k, 0);
    forall i, j | 0 <= i < j < |order'|
      ensures order'[i] < |released| && order'[j] < |released| && released'[order'[i]] > released'[order'[j]]
    {
      FrontAt(order, k, i);
      FrontAt(order, k, j);
      var i', j' := if i <= k then i - 1 else i, if j <= k then j - 1 else j;
      assert order'[j] == order[j'] && j' != k;
      if i > 0 { assert order'[i] == order[i'] && i' != k && i' < j'; }
    }
    forall i | 0 <= i < |released'|
      ensures i in order' && released'[i] < clock + 1
    {
      FrontHasAll(order, k, i);
    }
  }

  lemma FrontAt(order: seq<nat>, k: nat, j: nat)
    requires k < |order| && j < |order|
    ensures |[order[k]] + Without(order, k)| == |order|
    ensures ([order[k]] + Without(order, k))[j] == if j == 0 then order[k] else if j <= k then order[j - 1] else order[j]
  {
  }

  lemma FrontHasAll(order: seq<nat>, k: nat, i: nat)
    requires k < |order| && i in order
    ensures i in [order[k]] + Without(order, k)
  {
    var order' := [order[k]] + Without(order, k);
    var j :| 0 <= j < |order| && order[j] == i;
    assert order'[if j < k then j + 1 else if j == k then 0 else j] == i;
  }
}
