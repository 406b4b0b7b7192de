/** Runs of create, link and unlink on the disk. On a disk with fewer than 1024 data blocks no link
    count can overflow: there is no room for that many directory entries. */
module FsRuns {
  import opened Directory
  import opened LinkTree
  import opened LinkTreeProofs
  import opened Paths
  import opened Sysfile
  import opened FsTree
  import opened FsSpace
  import opened SysCalls
  import S = SysCalls
  import I = FsImage
  import F = FileSystem

  // ----- a count is a number of entries, and entries take blocks -----

  ghost function Row(d: nat, n: nat): set<(nat, nat)> { set k: nat | k < n :: (d, k) }

  lemma {:induction false} RowSize(d: nat, n: nat)
    ensures |Row(d, n)| == n
  {
    if n == 0 {
      assert Row(d, n) == {};
    } else {
      RowSize(d, n - 1);
      assert Row(d, n) == Row(d, n - 1) + {(d, n - 1)};
    }
  }

  // The entries that name i in directories below n.
  ghost function RefsBelow(t: Tree, i: nat, n: nat): set<(nat, nat)> { set r | r in Refs(t, i) && r.0 < n }

  lemma EntriesFit(im: I.Image, d: nat)
    requires I.WellFormed(im) && WholeDirs(im) && d in TreeOf(im) && d < im.ninodes
    ensures |TreeOf(im)[d].ents| <= 32 * BlocksFor(im.inodes[d].size)
  {
    hide I.Content, Entries;
    NodeIs(im, d);
    if im.inodes[d].typ == T_DIR { DirSize(im, d); }
  }

  lemma {:induction false} RefsFit(im: I.Image, i: nat, n: nat)
    requires I.WellFormed(im) && WholeDirs(im) && n <= im.ninodes
    ensures |RefsBelow(TreeOf(im), i, n)| <= 32 * Used(im, n)
  {
    hide TreeOf, WholeDirs, BlocksFor, RefsBelow;
    var t := TreeOf(im);
    if n == 0 {
      NoneBelow(t, i);
    } else {
      RefsFit(im, i, n - 1);
      RefsNext(t, i, n);
      if n - 1 in t { EntriesFit(im, n - 1); }
    }
  }

  lemma NoneBelow(t: Tree, i: nat)
    ensures RefsBelow(t, i, 0) == {}
  {
  }

  lemma RefsNext(t: Tree, i: nat, n: nat)
    requires n > 0
    ensures |RefsBelow(t, i, n)| <= |RefsBelow(t, i, n - 1)| + if n - 1 in t then |t[n - 1].ents| else 0
  {
    var d := n - 1;
    var row := Row(d, if d in t then |t[d].ents| else 0);
    RowSize(d, if d in t then |t[d].ents| else 0);
    forall r | r in RefsBelow(t, i, n)
      ensures r in RefsBelow(t, i, d) + row
    {
    }
    SubsetSize(RefsBelow(t, i, n), RefsBelow(t, i, d) + row);
  }

  lemma AllBelow(im: I.Image, i: nat)
    requires I.WellFormed(im)
    ensures RefsBelow(TreeOf(im), i, im.ninodes) == Refs(TreeOf(im), i)
  {
    hide NodeAt;
  }

  ghost predicate SmallDisk(fs: F.FileSystem)
    reads fs
  {
    |fs.disk| < I.DataStart(fs.Im()) + 1024
  }

  // No count gets near the largest short on a small disk.
  lemma CountsFit(fs: F.FileSystem, i: nat)
    requires Ready(fs) && Good(T(fs)) && i in T(fs) && SmallDisk(fs)
    ensures T(fs)[i].nlink <= 32 * 1023
  {
    hide TreeOf, I.Inv, LinkTree.Inv, Refs, FreeCount;
    var im := fs.Im();
    GoodMeans(T(fs));
    AllBelow(im, i);
    RefsFit(im, i, im.ninodes);
    Conservation(im, fs.owner);
  }

  lemma NoOverflow(fs: F.FileSystem, op: Op)
    requires Ready(fs) && Good(T(fs)) && SmallDisk(fs)
    ensures !Overflows(T(fs), op)
  {
    hide Ready, Good, SmallDisk, TreeOf;
    var i := Raised(T(fs), op);
    if i.Some? && i.value in T(fs) { CountsFit(fs, i.value); }
  }

  // ----- calls -----

  predicate Typed(op: Op) { op.OpCreate? ==> op.typ != 0 }

  // One call: the tree's own step, unless there are too few blocks; a good tree stays good
  // exactly when no count overflows.
  method Call(fs: F.FileSystem, op: Op) returns (r: Outcome)
    requires Ready(fs) && fs.ninodes <= 0x1_0000 && Good(T(fs)) && op.cwd in T(fs) && Typed(op)
    modifies fs
    ensures Closed(old(T(fs)))
    ensures r == Panic <==>
              Step(old(T(fs)), fs.ninodes, op).1 == Panic || BlocksNeeded(old(T(fs)), fs.ninodes, op) > old(Free(fs))
    ensures r != Panic ==> Ready(fs) && (T(fs), r) == Step(old(T(fs)), fs.ninodes, op)
    ensures r != Panic ==> (Good(T(fs)) <==> !(r.Done? && Overflows(old(T(fs)), op)))
    ensures r != Panic ==> |fs.disk| == old(|fs.disk|)
    ensures r != Panic ==> Free(fs) >= old(Free(fs)) - BlocksNeeded(old(T(fs)), fs.ninodes, op)
  {
    hide Ready, Good, TreeOf, CreateAt, LinkAt, UnlinkAt, FreeCount, Overflows, CreateNeeds, LinkNeeds, BlocksFor;
    StepKeepsGood(T(fs), fs.ninodes, op);
    match op
    case OpCreate(cwd, path, typ, dev) => r := S.Create(fs, cwd, path, typ, dev.major, dev.minor);
    case OpLink(cwd, old_, new_) => r := S.Link(fs, cwd, old_, new_);
    case OpUnlink(cwd, path) => r := S.Unlink(fs, cwd, path);
  }

  lemma NeedsAtMostThree(t: Tree, ninodes: nat, op: Op)
    requires Closed(t)
    ensures BlocksNeeded(t, ninodes, op) <= 3
  {
    hide CreateAt, LinkAt, UnlinkAt, NameiParent;
  }

  // A run on a small disk, for as long as the caller's directory exists and no call panics: the
  // trees it goes through, each one step from the one before, are good; the disk always stands
  // for the last of them, and the answers are theirs. With three free blocks for each call, only
  // the panics of the tree's own steps remain.
  method Serve(fs: F.FileSystem, ops: seq<Op>) returns (answers: seq<Outcome>, ghost trees: seq<Tree>, ghost left: nat)
    requires Ready(fs) && fs.ninodes <= 0x1_0000 && Good(T(fs)) && SmallDisk(fs)
    requires forall k | 0 <= k < |ops| :: Typed(ops[k])
    modifies fs
    ensures |answers| <= |ops| && |trees| >= 1 && trees[0] == old(T(fs)) && forall k | 0 <= k < |trees| :: Good(trees[k]) && Closed(trees[k])
    ensures var n := |trees| - 1;
      && n <= |answers| <= n + 1
      && (forall k | 0 <= k < n :: (trees[k + 1], answers[k]) == Step(trees[k], fs.ninodes, ops[k]) && answers[k] != Panic)
      && (|answers| == n ==> Ready(fs) && T(fs) == trees[n] && (n < |ops| ==> ops[n].cwd !in trees[n]))
      && (|answers| == n + 1 ==>
            && answers[n] == Panic
            && (Step(trees[n], fs.ninodes, ops[n]).1 == Panic || BlocksNeeded(trees[n], fs.ninodes, ops[n]) > left))
      && left + 3 * n >= old(Free(fs))
    decreases |ops|
  {
    hide Ready, Good, TreeOf, Overflows, FreeCount, Step, BlocksNeeded;
    GoodIsClosed(T(fs));
    answers, trees, left := [], [T(fs)], Free(fs);
    if ops == [] {
      return;
    }
    Allocated(fs, ops[0].cwd);
    if !(ops[0].cwd < fs.ninodes && fs.inodes[ops[0].cwd].typ != 0) {
      return;
    }
    NoOverflow(fs, ops[0]);
    var r := Call(fs, ops[0]);
    NeedsAtMostThree(old(T(fs)), fs.ninodes, ops[0]);
    if r == Panic {
      answers := [Panic];
      return;
    }
    ghost var t0 := trees[0];
    answers, trees, left := Serve(fs, ops[1..]);
    answers, trees := [r] + answers, [t0] + trees;
  }

  lemma Allocated(fs: F.FileSystem, i: nat)
    requires Ready(fs)
    ensures |fs.inodes| == fs.ninodes
    ensures i in T(fs) <==> i < fs.ninodes && fs.inodes[i].typ != 0
  {
  }

  // A new disk of the size that mkfs makes, and any calls on it: 994 blocks are free at first.
  method FreshRun(ops: seq<Op>) returns (fs: F.FileSystem, answers: seq<Outcome>, ghost trees: seq<Tree>, ghost left: nat)
    requires forall k | 0 <= k < |ops| :: Typed(ops[k])
    ensures fs.ninodes == 200 && |answers| <= |ops| && |trees| >= 1 && trees[0] == EmptyTree()
    ensures forall k | 0 <= k < |trees| :: Good(trees[k]) && Closed(trees[k])
    ensures var n := |trees| - 1;
      && n <= |answers| <= n + 1
      && (forall k | 0 <= k < n :: (trees[k + 1], answers[k]) == Step(trees[k], 200, ops[k]) && answers[k] != Panic)
      && (|answers| == n ==> Ready(fs) && T(fs) == trees[n] && (n < |ops| ==> ops[n].cwd !in trees[n]))
      && (|answers| == n + 1 ==>
            && answers[n] == Panic
            && (Step(trees[n], 200, ops[n]).1 == Panic || BlocksNeeded(trees[n], 200, ops[n]) > left))
      && left + 3 * n >= 994
  {
    hide Good, TreeOf, FreeCount, Step, BlocksNeeded;
    EmptyTreeIsGood();
    var ok;
    fs, ok := MakeRoot(200, 1024);
    answers, trees, left := Serve(fs, ops);
  }
}
