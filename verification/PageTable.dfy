/** Page directories, page tables and the frame pool of kernel/vm.c and kernel/kalloc.c:
    two-level 32-bit paging, with page numbers (address / 4096) instead of addresses. */
module PageTable {
  // A present entry holds a frame and the user bit.
  datatype Pte = Absent | Map(frame: nat, user: bool)

  datatype Frame = Junk | Table(e: seq<Pte>) | Bytes(data: seq<nat>)

  // What a frame of the pool is used for.
  datatype Use = Free | Dir | TableOf(d: nat, i: nat) | PageOf(d: nat, v: nat) | Other

  function NoEntries(): (e: seq<Pte>)
    ensures |e| == 1024 && forall j | 0 <= j < 1024 :: e[j] == Absent
  {
    seq(1024, _ => Absent)
  }

  function Zeros(): (data: seq<nat>)
    ensures |data| == 4096 && forall j | 0 <= j < 4096 :: data[j] == 0
  {
    seq(4096, _ => 0)
  }

  predicate IsTable(x: Frame) { x.Table? && |x.e| == 1024 }

  // The page table for directory entry i, or 0.
  function TableFor(mem: map<nat, Frame>, d: nat, i: nat): nat {
    if d in mem && IsTable(mem[d]) && i < 1024 && mem[d].e[i].Map? then mem[d].e[i].frame else 0
  }

  // The entry for page v in address space d.
  function Entry(mem: map<nat, Frame>, d: nat, v: nat): Pte {
    var t := TableFor(mem, d, v / 1024);
    if t in mem && IsTable(mem[t]) then mem[t].e[v % 1024] else Absent
  }

  predicate Present(mem: map<nat, Frame>, d: nat, v: nat) {
    Entry(mem, d, v).Map? && Entry(mem, d, v).frame in mem && mem[Entry(mem, d, v).frame].Bytes?
  }

  // The user part of an address space (640K, 160 pages): the bytes of each mapped page.
  function View(mem: map<nat, Frame>, d: nat): map<nat, seq<nat>> {
    map v: nat | 0 <= v < 160 && Present(mem, d, v) :: mem[Entry(mem, d, v).frame].data
  }

  // ----- the invariant -----

  ghost predicate PoolOk(free: seq<nat>, owner: map<nat, Use>) {
    && 0 !in owner
    && (forall f :: f in free <==> f in owner && owner[f] == Free)
    && (forall i, j | 0 <= i < j < |free| :: free[i] != free[j])
  }

  ghost predicate DirOk(mem: map<nat, Frame>, owner: map<nat, Use>, d: nat)
    requires d in mem
  {
    IsTable(mem[d]) && forall i | 0 <= i < 1024 ::
      mem[d].e[i].Map? ==> mem[d].e[i].frame in owner && owner[mem[d].e[i].frame] == TableOf(d, i)
  }

  // Entries below 640K own the pages they map; those above belong to the kernel.
  ghost predicate TableOk(mem: map<nat, Frame>, owner: map<nat, Use>, t: nat, d: nat, i: nat)
    requires t in mem
  {
    && IsTable(mem[t])
    && d in owner && owner[d] == Dir && TableFor(mem, d, i) == t && i < 1024
    && (forall j | 0 <= j < 1024 && i == 0 && j < 160 :: mem[t].e[j].Map? ==>
          mem[t].e[j].user && mem[t].e[j].frame in owner && owner[mem[t].e[j].frame] == PageOf(d, j))
    && (forall j | 0 <= j < 1024 && (i != 0 || j >= 160) :: mem[t].e[j].Map? ==> !mem[t].e[j].user)
  }

  ghost predicate PageOk(mem: map<nat, Frame>, owner: map<nat, Use>, f: nat, d: nat, v: nat)
    requires f in mem
  {
    && v < 160 && d in owner && owner[d] == Dir
    && Entry(mem, d, v) == Map(f, true) && mem[f].Bytes? && |mem[f].data| == 4096
  }

  ghost predicate FrameOk(mem: map<nat, Frame>, owner: map<nat, Use>, f: nat)
    requires f in owner && f in mem
  {
    match owner[f]
    case Dir => DirOk(mem, owner, f)
    case TableOf(d, i) => TableOk(mem, owner, f, d, i)
    case PageOf(d, v) => PageOk(mem, owner, f, d, v)
    case _ => true
  }

  ghost predicate Inv(mem: map<nat, Frame>, free: seq<nat>, owner: map<nat, Use>) {
    PoolOk(free, owner) && 0 !in mem && forall f | f in owner :: f in mem && FrameOk(mem, owner, f)
  }

  ghost predicate IsSpace(owner: map<nat, Use>, d: nat) { d in owner && owner[d] == Dir }

  // ----- what belongs to an address space -----

  ghost predicate Belongs(u: Use, f: nat, d: nat) {
    (u == Dir && f == d) || (u.TableOf? && u.d == d) || (u.PageOf? && u.d == d)
  }

  // Only free frames and those of d have changed, and they are free or belong to d.
  ghost predicate Kept(mem: map<nat, Frame>, owner: map<nat, Use>, mem': map<nat, Frame>, owner': map<nat, Use>,
                       d: nat)
  {
    && owner'.Keys == owner.Keys && mem'.Keys == mem.Keys
    && forall f | f in owner && f in mem ::
         if owner[f] == Free || Belongs(owner[f], f, d) then owner'[f] == Free || Belongs(owner'[f], f, d)
         else owner'[f] == owner[f] && mem'[f] == mem[f]
  }

  lemma KeptTransitive(mem: map<nat, Frame>, owner: map<nat, Use>, mem1: map<nat, Frame>, owner1: map<nat, Use>,
                       mem2: map<nat, Frame>, owner2: map<nat, Use>, d: nat)
    requires Kept(mem, owner, mem1, owner1, d) && Kept(mem1, owner1, mem2, owner2, d)
    ensures Kept(mem, owner, mem2, owner2, d)
  {
  }

  // An address space whose frames are unchanged reads the same.
  lemma SameView(mem: map<nat, Frame>, free: seq<nat>, owner: map<nat, Use>, mem': map<nat, Frame>, x: nat)
    requires Inv(mem, free, owner) && IsSpace(owner, x) && mem'.Keys == mem.Keys
    requires forall f | f in owner && f in mem && Belongs(owner[f], f, x) :: mem'[f] == mem[f]
    ensures View(mem', x) == View(mem, x)
    ensures forall v | 0 <= v < 160 :: Entry(mem', x, v) == Entry(mem, x, v)
    ensures TableFor(mem', x, 0) == TableFor(mem, x, 0)
  {
    SameTable(mem, free, owner, mem', x);
    forall v: nat | v < 160
      ensures Entry(mem', x, v) == Entry(mem, x, v)
      ensures Present(mem', x, v) == Present(mem, x, v)
      ensures Present(mem, x, v) ==> mem'[Entry(mem, x, v).frame] == mem[Entry(mem, x, v).frame]
    {
      SamePage(mem, free, owner, mem', x, v);
    }
    hide Inv, Entry, TableFor, Present;
    assert View(mem', x) == View(mem, x);
  }

  lemma SameTable(mem: map<nat, Frame>, free: seq<nat>, owner: map<nat, Use>, mem': map<nat, Frame>, x: nat)
    requires Inv(mem, free, owner) && IsSpace(owner, x) && mem'.Keys == mem.Keys
    requires forall f | f in owner && f in mem && Belongs(owner[f], f, x) :: mem'[f] == mem[f]
    ensures TableFor(mem', x, 0) == TableFor(mem, x, 0)
    ensures var t := TableFor(mem, x, 0); t in mem ==> t in owner && owner[t] == TableOf(x, 0) && mem'[t] == mem[t]
  {
    assert FrameOk(mem, owner, x) && mem'[x] == mem[x];
  }

  lemma SamePage(mem: map<nat, Frame>, free: seq<nat>, owner: map<nat, Use>, mem': map<nat, Frame>, x: nat, v: nat)
    requires Inv(mem, free, owner) && IsSpace(owner, x) && mem'.Keys == mem.Keys && v < 160
    requires forall f | f in owner && f in mem && Belongs(owner[f], f, x) :: mem'[f] == mem[f]
    ensures Entry(mem', x, v) == Entry(mem, x, v) && Present(mem', x, v) == Present(mem, x, v)
    ensures Present(mem, x, v) ==> mem'[Entry(mem, x, v).frame] == mem[Entry(mem, x, v).frame]
  {
    SameTable(mem, free, owner, mem', x);
    var t := TableFor(mem, x, 0);
    if t in mem && Entry(mem, x, v).Map? {
      assert FrameOk(mem, owner, t);
      assert Entry(mem, x, v) == mem[t].e[v];
    }
  }

  lemma KeptView(mem: map<nat, Frame>, free: seq<nat>, owner: map<nat, Use>, mem': map<nat, Frame>,
                 owner': map<nat, Use>, 
                 d: nat, x: nat)
    requires Inv(mem, free, owner) && Kept(mem, owner, mem', owner', d) && IsSpace(owner, x) && x != d
    ensures IsSpace(owner', x) && View(mem', x) == View(mem, x)
    ensures TableFor(mem', x, 0) == TableFor(mem, x, 0)
  {
    SameView(mem, free, owner, mem', x);
  }

  // No frame backs two pages.
  lemma NoSharing(mem: map<nat, Frame>, free: seq<nat>, owner: map<nat, Use>, d: nat, v: nat, x: nat, w: nat)
    requires Inv(mem, free, owner) && IsSpace(owner, d) && IsSpace(owner, x) && v < 160 && w < 160
    requires Entry(mem, d, v).Map? && Entry(mem, x, w).Map? && (d, v) != (x, w)
    ensures Entry(mem, d, v).frame != Entry(mem, x, w).frame
    ensures Entry(mem, d, v).frame !in free
  {
    EntryOwned(mem, free, owner, d, v);
    EntryOwned(mem, free, owner, x, w);
  }

  lemma EntryOwned(mem: map<nat, Frame>, free: seq<nat>, owner: map<nat, Use>, d: nat, v: nat)
    requires Inv(mem, free, owner) && IsSpace(owner, d) && v < 160 && Entry(mem, d, v).Map?
    ensures var f := Entry(mem, d, v).frame;
      f in owner && owner[f] == PageOf(d, v) && f in mem && mem[f].Bytes? && |mem[f].data| == 4096 && f != 0
    ensures v in View(mem, d) && View(mem, d)[v] == mem[Entry(mem, d, v).frame].data
  {
    assert FrameOk(mem, owner, d);
    var t := TableFor(mem, d, 0);
    assert FrameOk(mem, owner, t);
    assert Entry(mem, d, v) == mem[t].e[v];
    var f := Entry(mem, d, v).frame;
    assert FrameOk(mem, owner, f);
  }

  lemma ViewIsMapped(mem: map<nat, Frame>, free: seq<nat>, owner: map<nat, Use>, d: nat, v: nat)
    requires Inv(mem, free, owner) && IsSpace(owner, d) && v < 160
    ensures v in View(mem, d) <==> Entry(mem, d, v).Map?
    ensures v in View(mem, d) ==> |View(mem, d)[v]| == 4096
  {
    if Entry(mem, d, v).Map? { EntryOwned(mem, free, owner, d, v); }
  }

  // ----- steps -----

  lemma TakeFrame(mem: map<nat, Frame>, free: seq<nat>, owner: map<nat, Use>)
    requires Inv(mem, free, owner) && |free| > 0
    ensures free[0] in owner && owner[free[0]] == Free && free[0] != 0
    ensures Inv(mem, free[1..], owner[free[0] := Other])
  {
    var owner' := owner[free[0] := Other];
    assert free[0] in free;
    forall f | f in owner'
      ensures f in mem && FrameOk(mem, owner', f)
    {
      assert FrameOk(mem, owner, f);
    }
  }

  lemma GiveFrame(mem: map<nat, Frame>, free: seq<nat>, owner: map<nat, Use>, f: nat)
    requires Inv(mem, free, owner) && f in owner && owner[f] == Other
    ensures Inv(mem[f := Junk], [f] + free, owner[f := Free])
  {
    FillFrame(mem, free, owner, f, Junk);
    var mem', owner' := mem[f := Junk], owner[f := Free];
    forall g | g in owner'
      ensures g in mem' && FrameOk(mem', owner', g)
    {
      assert FrameOk(mem', owner, g);
    }
  }

  // The content of a frame outside every address space is free to change.
  lemma FillFrame(mem: map<nat, Frame>, free: seq<nat>, owner: map<nat, Use>, f: nat, x: Frame)
    requires Inv(mem, free, owner) && f in owner && owner[f] == Other
    ensures Inv(mem[f := x], free, owner)
    ensures forall d, v | IsSpace(owner, d) && v < 160 :: Entry(mem[f := x], d, v) == Entry(mem, d, v)
    ensures forall d | IsSpace(owner, d) :: View(mem[f := x], d) == View(mem, d)
    ensures forall d, i | IsSpace(owner, d) :: TableFor(mem[f := x], d, i) == TableFor(mem, d, i)
  {
    var mem' := mem[f := x];
    forall d | IsSpace(owner, d)
      ensures View(mem', d) == View(mem, d) && forall v | 0 <= v < 160 :: Entry(mem', d, v) == Entry(mem, d, v)
    {
      SameView(mem, free, owner, mem', d);
    }
    forall g | g in owner
      ensures g in mem' && FrameOk(mem', owner, g)
    {
      assert FrameOk(mem, owner, g);
    }
  }

  function SetEntry(mem: map<nat, Frame>, t: nat, j: nat, e: Pte): map<nat, Frame>
    requires t in mem && IsTable(mem[t]) && j < 1024
  {
    mem[t := Table(mem[t].e[j := e])]
  }

  // Writing an entry of table t changes that entry of that address space only.
  lemma EntryAfter(mem: map<nat, Frame>, free: seq<nat>, owner: map<nat, Use>, d: nat, i: nat, j: nat, e: Pte,
                   x: nat, v: nat)
    requires Inv(mem, free, owner) && IsSpace(owner, d) && IsSpace(owner, x) && i < 1024 && j < 1024 && v < 0x100000
    requires TableFor(mem, d, i) != 0
    ensures TableFor(mem, d, i) in owner && owner[TableFor(mem, d, i)] == TableOf(d, i)
    ensures TableFor(mem, d, i) in mem && IsTable(mem[TableFor(mem, d, i)])
    ensures var mem' := SetEntry(mem, TableFor(mem, d, i), j, e);
      && TableFor(mem', x, v / 1024) == TableFor(mem, x, v / 1024)
      && Entry(mem', x, v) == if x == d && v / 1024 == i && v % 1024 == j then e else Entry(mem, x, v)
  {
    var t := TableFor(mem, d, i);
    assert FrameOk(mem, owner, d);
    assert FrameOk(mem, owner, t);
    assert FrameOk(mem, owner, x);
    var u := TableFor(mem, x, v / 1024);
    if u != 0 { assert FrameOk(mem, owner, u); }
  }

  // Mapping a filled frame at an empty user page.
  lemma AttachPage(mem: map<nat, Frame>, free: seq<nat>, owner: map<nat, Use>, d: nat, v: nat, f: nat)
    requires Inv(mem, free, owner) && IsSpace(owner, d) && v < 160 && TableFor(mem, d, 0) != 0
    requires f in owner && owner[f] == Other && f in mem && mem[f].Bytes? && |mem[f].data| == 4096
    requires Entry(mem, d, v) == Absent
    ensures TableFor(mem, d, 0) in mem && IsTable(mem[TableFor(mem, d, 0)])
    ensures var mem' := SetEntry(mem, TableFor(mem, d, 0), v, Map(f, true));
      && Inv(mem', free, owner[f := PageOf(d, v)]) && TableFor(mem', d, 0) == TableFor(mem, d, 0)
      && View(mem', d) == View(mem, d)[v := mem[f].data]
  {
    var t := TableFor(mem, d, 0);
    EntryAfter(mem, free, owner, d, 0, v, Map(f, true), d, v);
    var mem', owner' := SetEntry(mem, t, v, Map(f, true)), owner[f := PageOf(d, v)];
    forall x: nat, w: nat | IsSpace(owner, x) && w < 160
      ensures Entry(mem', x, w) == if (x, w) == (d, v) then Map(f, true) else Entry(mem, x, w)
      ensures TableFor(mem', x, 0) == TableFor(mem, x, 0)
    {
      EntryAfter(mem, free, owner, d, 0, v, Map(f, true), x, w);
    }
    forall g | g in owner'
      ensures g in mem' && FrameOk(mem', owner', g)
    {
      assert FrameOk(mem, owner, g);
      EntryAfterSet(mem, free, owner, d, v, Map(f, true), owner', g);
    }
    AttachView(mem, free, owner, mem', d, v, f);
  }

  lemma AttachView(mem: map<nat, Frame>, free: seq<nat>, owner: map<nat, Use>, mem': map<nat, Frame>, d: nat, v: nat,
                   f: nat)
    requires Inv(mem, free, owner) && IsSpace(owner, d) && v < 160 && f in mem && mem[f].Bytes?
    requires mem'.Keys == mem.Keys && mem'[f] == mem[f]
    requires forall g | g in mem && mem[g].Bytes? :: mem'[g] == mem[g]
    requires forall w: nat | w < 160 :: Entry(mem', d, w) == if w == v then Map(f, true) else Entry(mem, d, w)
    ensures View(mem', d) == View(mem, d)[v := mem[f].data]
  {
    forall w: nat | w < 160 && w != v && Entry(mem, d, w).Map?
      ensures Present(mem, d, w) && Present(mem', d, w)
    {
      EntryOwned(mem, free, owner, d, w);
    }
  }

  // What may be written to entry v of d: a filled frame at an empty page, or nothing at a
  // mapped one, whose frame then leaves the address space.
  ghost predicate Rewrites(mem: map<nat, Frame>, owner: map<nat, Use>, d: nat, v: nat, e: Pte, owner': map<nat, Use>) {
    if e.Map? then
      && e.user && e.frame in owner && owner[e.frame] == Other && Entry(mem, d, v) == Absent
      && e.frame in mem && mem[e.frame].Bytes? && |mem[e.frame].data| == 4096
      && owner' == owner[e.frame := PageOf(d, v)]
    else
      Entry(mem, d, v).Map? && owner' == owner[Entry(mem, d, v).frame := Other]
  }

  // Every frame stays in order.
  lemma EntryAfterSet(mem: map<nat, Frame>, free: seq<nat>, owner: map<nat, Use>, d: nat, v: nat, e: Pte,
                      owner': map<nat, Use>, g: nat)
    requires Inv(mem, free, owner) && IsSpace(owner, d) && v < 160 && TableFor(mem, d, 0) != 0 && g in owner
    requires TableFor(mem, d, 0) in mem && IsTable(mem[TableFor(mem, d, 0)])
    requires Rewrites(mem, owner, d, v, e, owner')
    ensures g in owner' && g in SetEntry(mem, TableFor(mem, d, 0), v, e)
    ensures FrameOk(SetEntry(mem, TableFor(mem, d, 0), v, e), owner', g)
  {
    var t := TableFor(mem, d, 0);
    FramesKnown(mem, free, owner, d, t, g);
    if e == Absent { EntryOwned(mem, free, owner, d, v); }
    match owner[g] {
      case PageOf(x, w) =>
        PageAfterSet(mem, free, owner, d, v, e, owner', g);
      case TableOf(x, i) =>
        TableAfterSet(mem, free, owner, d, v, e, owner', g);
      case _ =>
        EntryAfter(mem, free, owner, d, 0, v, e, d, v);
    }
  }

  lemma PageAfterSet(mem: map<nat, Frame>, free: seq<nat>, owner: map<nat, Use>, d: nat, v: nat, e: Pte,
                     owner': map<nat, Use>, g: nat)
    requires Inv(mem, free, owner) && IsSpace(owner, d) && v < 160 && TableFor(mem, d, 0) != 0 && g in owner
    requires TableFor(mem, d, 0) in mem && IsTable(mem[TableFor(mem, d, 0)])
    requires Rewrites(mem, owner, d, v, e, owner') && owner[g].PageOf?
    ensures g in owner' && g in SetEntry(mem, TableFor(mem, d, 0), v, e)
    ensures FrameOk(SetEntry(mem, TableFor(mem, d, 0), v, e), owner', g)
  {
    assert FrameOk(mem, owner, g);
    var x, w := owner[g].d, owner[g].v;
    if e == Absent { EntryOwned(mem, free, owner, d, v); }
    EntryAfter(mem, free, owner, d, 0, v, e, x, w);
  }

  lemma TableAfterSet(mem: map<nat, Frame>, free: seq<nat>, owner: map<nat, Use>, d: nat, v: nat, e: Pte,
                      owner': map<nat, Use>, g: nat)
    requires Inv(mem, free, owner) && IsSpace(owner, d) && v < 160 && TableFor(mem, d, 0) != 0 && g in owner
    requires TableFor(mem, d, 0) in mem && IsTable(mem[TableFor(mem, d, 0)])
    requires Rewrites(mem, owner, d, v, e, owner') && owner[g].TableOf?
    ensures g in owner' && g in SetEntry(mem, TableFor(mem, d, 0), v, e)
    ensures FrameOk(SetEntry(mem, TableFor(mem, d, 0), v, e), owner', g)
  {
    var t := TableFor(mem, d, 0);
    FramesKnown(mem, free, owner, d, t, g);
    if e == Absent { EntryOwned(mem, free, owner, d, v); }
    EntryAfter(mem, free, owner, d, 0, v, e, d, v);
    assert FrameOk(mem, owner, owner[g].d);
  }

  lemma FramesKnown(mem: map<nat, Frame>, free: seq<nat>, owner: map<nat, Use>, d: nat, t: nat, g: nat)
    requires Inv(mem, free, owner) && IsSpace(owner, d) && t == TableFor(mem, d, 0) != 0 && g in owner
    ensures d in mem && FrameOk(mem, owner, d) && t in owner && t in mem && FrameOk(mem, owner, t)
    ensures g in mem && FrameOk(mem, owner, g)
  {
    assert FrameOk(mem, owner, d);
  }

  // Unmapping a user page: its frame leaves the address space.
  lemma DetachPage(mem: map<nat, Frame>, free: seq<nat>, owner: map<nat, Use>, d: nat, v: nat)
    requires Inv(mem, free, owner) && IsSpace(owner, d) && v < 160 && Entry(mem, d, v).Map?
    ensures TableFor(mem, d, 0) != 0 && TableFor(mem, d, 0) in mem && IsTable(mem[TableFor(mem, d, 0)])
    ensures Entry(mem, d, v).frame in owner && owner[Entry(mem, d, v).frame] == PageOf(d, v)
    ensures var mem' := SetEntry(mem, TableFor(mem, d, 0), v, Absent);
      && Inv(mem', free, owner[Entry(mem, d, v).frame := Other]) && TableFor(mem', d, 0) == TableFor(mem, d, 0)
      && View(mem', d) == View(mem, d) - {v}
  {
    var t, f := TableFor(mem, d, 0), Entry(mem, d, v).frame;
    EntryOwned(mem, free, owner, d, v);
    MappedHasTable(mem, free, owner, d, v);
    EntryAfter(mem, free, owner, d, 0, v, Absent, d, v);
    var mem', owner' := SetEntry(mem, t, v, Absent), owner[f := Other];
    DetachInv(mem, free, owner, d, v);
    forall w: nat | w < 160
      ensures Entry(mem', d, w) == if w == v then Absent else Entry(mem, d, w)
    {
      EntryAfter(mem, free, owner, d, 0, v, Absent, d, w);
    }
    hide Inv, FrameOk, Entry, TableFor, View;
    DetachView(mem, free, owner, mem', d, v);
  }

  lemma MappedHasTable(mem: map<nat, Frame>, free: seq<nat>, owner: map<nat, Use>, d: nat, v: nat)
    requires Inv(mem, free, owner) && IsSpace(owner, d) && v < 160 && Entry(mem, d, v).Map?
    ensures TableFor(mem, d, 0) != 0 && TableFor(mem, d, 0) in mem && IsTable(mem[TableFor(mem, d, 0)])
  {
    assert FrameOk(mem, owner, d);
  }

  lemma DetachInv(mem: map<nat, Frame>, free: seq<nat>, owner: map<nat, Use>, d: nat, v: nat)
    requires Inv(mem, free, owner) && IsSpace(owner, d) && v < 160 && Entry(mem, d, v).Map?
    requires TableFor(mem, d, 0) != 0 && TableFor(mem, d, 0) in mem && IsTable(mem[TableFor(mem, d, 0)])
    ensures Inv(SetEntry(mem, TableFor(mem, d, 0), v, Absent), free, owner[Entry(mem, d, v).frame := Other])
  {
    hide FrameOk, Entry;
    EntryOwned(mem, free, owner, d, v);
    var mem', owner' := SetEntry(mem, TableFor(mem, d, 0), v, Absent), owner[Entry(mem, d, v).frame := Other];
    forall g | g in owner'
      ensures g in mem' && FrameOk(mem', owner', g)
    {
      EntryAfterSet(mem, free, owner, d, v, Absent, owner', g);
    }
  }

  lemma DetachView(mem: map<nat, Frame>, free: seq<nat>, owner: map<nat, Use>, mem': map<nat, Frame>, d: nat, v: nat)
    requires Inv(mem, free, owner) && IsSpace(owner, d) && v < 160 && mem'.Keys == mem.Keys
    requires forall g | g in mem && mem[g].Bytes? :: mem'[g] == mem[g]
    requires forall w: nat | w < 160 :: Entry(mem', d, w) == if w == v then Absent else Entry(mem, d, w)
    ensures View(mem', d) == View(mem, d) - {v}
  {
    hide Inv, Entry;
    forall w: nat | w < 160 && w != v && Entry(mem, d, w).Map?
      ensures Present(mem, d, w) && Present(mem', d, w)
    {
      EntryOwned(mem, free, owner, d, w);
    }
  }

  // A new page table for directory entry i.
  lemma AttachTable(mem: map<nat, Frame>, free: seq<nat>, owner: map<nat, Use>, d: nat, i: nat, t: nat)
    requires Inv(mem, free, owner) && IsSpace(owner, d) && i < 1024 && TableFor(mem, d, i) == 0
    requires t in owner && owner[t] == Other && t in mem && mem[t] == Table(NoEntries())
    ensures d in mem && IsTable(mem[d])
    ensures var mem' := SetEntry(mem, d, i, Map(t, true));
      && Inv(mem', free, owner[t := TableOf(d, i)])
      && (forall v: nat | v < 0x100000 :: Entry(mem', d, v) == Entry(mem, d, v))
      && (forall k: nat | k < 1024 :: TableFor(mem', d, k) == if k == i then t else TableFor(mem, d, k))
  {
    assert FrameOk(mem, owner, d);
    var mem', owner' := SetEntry(mem, d, i, Map(t, true)), owner[t := TableOf(d, i)];
    forall k: nat | k < 1024
      ensures TableFor(mem', d, k) == if k == i then t else TableFor(mem, d, k)
    {
    }
    assert mem[d].e[i] == Absent;
    forall g | g in owner'
      ensures g in mem' && FrameOk(mem', owner', g)
    {
      assert FrameOk(mem, owner, g);
      TableAttached(mem, free, owner, d, i, t, g);
    }
    forall v: nat | v < 0x100000
      ensures Entry(mem', d, v) == Entry(mem, d, v)
    {
      if TableFor(mem, d, v / 1024) != 0 { assert FrameOk(mem, owner, TableFor(mem, d, v / 1024)); }
    }
  }

  lemma TableAttached(mem: map<nat, Frame>, free: seq<nat>, owner: map<nat, Use>, d: nat, i: nat, t: nat, g: nat)
    requires Inv(mem, free, owner) && IsSpace(owner, d) && i < 1024 && d in mem && IsTable(mem[d])
    requires mem[d].e[i] == Absent && t in owner && owner[t] == Other && t in mem && mem[t] == Table(NoEntries())
    requires g in owner
    ensures g in SetEntry(mem, d, i, Map(t, true))
    ensures FrameOk(SetEntry(mem, d, i, Map(t, true)), owner[t := TableOf(d, i)], g)
  {
    assert FrameOk(mem, owner, g);
    match owner[g] {
      case PageOf(x, w) =>
        assert FrameOk(mem, owner, x);
        assert FrameOk(mem, owner, TableFor(mem, x, 0));
      case TableOf(x, k) =>
        assert FrameOk(mem, owner, x);
      case _ =>
    }
  }

  // A zeroed page becomes an empty directory.
  lemma NewDir(mem: map<nat, Frame>, free: seq<nat>, owner: map<nat, Use>, d: nat)
    requires Inv(mem, free, owner) && d in owner && owner[d] == Other && d in mem && mem[d] == Table(NoEntries())
    ensures Inv(mem, free, owner[d := Dir])
    ensures forall i: nat | i < 1024 :: TableFor(mem, d, i) == 0
    ensures forall v: nat | v < 0x100000 :: Entry(mem, d, v) == Absent
    ensures View(mem, d) == map[]
  {
    var owner' := owner[d := Dir];
    forall g | g in owner'
      ensures g in mem && FrameOk(mem, owner', g)
    {
      assert FrameOk(mem, owner, g);
    }
  }

  // A kernel page.
  lemma AttachKernel(mem: map<nat, Frame>, free: seq<nat>, owner: map<nat, Use>, d: nat, v: nat, f: nat)
    requires Inv(mem, free, owner) && IsSpace(owner, d) && 160 <= v < 0x100000 && TableFor(mem, d, v / 1024) != 0
    ensures TableFor(mem, d, v / 1024) in mem && IsTable(mem[TableFor(mem, d, v / 1024)])
    ensures TableFor(mem, d, v / 1024) in owner && owner[TableFor(mem, d, v / 1024)] == TableOf(d, v / 1024)
    ensures var mem' := SetEntry(mem, TableFor(mem, d, v / 1024), v % 1024, Map(f, false));
      && Inv(mem', free, owner)
      && (forall w: nat | w < 0x100000 :: Entry(mem', d, w) == if w == v then Map(f, false) else Entry(mem, d, w))
      && (forall k: nat | k < 1024 :: TableFor(mem', d, k) == TableFor(mem, d, k))
  {
    var t := TableFor(mem, d, v / 1024);
    EntryAfter(mem, free, owner, d, v / 1024, v % 1024, Map(f, false), d, v);
    var mem' := SetEntry(mem, t, v % 1024, Map(f, false));
    forall w: nat | w < 0x100000
      ensures Entry(mem', d, w) == if w == v then Map(f, false) else Entry(mem, d, w)
    {
      EntryAfter(mem, free, owner, d, v / 1024, v % 1024, Map(f, false), d, w);
    }
    forall k: nat | k < 1024
      ensures TableFor(mem', d, k) == TableFor(mem, d, k)
    {
      EntryAfter(mem, free, owner, d, v / 1024, v % 1024, Map(f, false), d, 1024 * k);
    }
    forall g | g in owner
      ensures g in mem' && FrameOk(mem', owner, g)
    {
      KernelAttached(mem, free, owner, d, v, f, g);
    }
  }

  lemma KernelAttached(mem: map<nat, Frame>, free: seq<nat>, owner: map<nat, Use>, d: nat, v: nat, f: nat, g: nat)
    requires Inv(mem, free, owner) && IsSpace(owner, d) && 160 <= v < 0x100000 && TableFor(mem, d, v / 1024) != 0
    requires TableFor(mem, d, v / 1024) in mem && IsTable(mem[TableFor(mem, d, v / 1024)]) && g in owner
    ensures g in SetEntry(mem, TableFor(mem, d, v / 1024), v % 1024, Map(f, false))
    ensures FrameOk(SetEntry(mem, TableFor(mem, d, v / 1024), v % 1024, Map(f, false)), owner, g)
  {
    assert FrameOk(mem, owner, g);
    assert FrameOk(mem, owner, d);
    assert FrameOk(mem, owner, TableFor(mem, d, v / 1024));
    match owner[g] {
      case PageOf(x, w) =>
        EntryAfter(mem, free, owner, d, v / 1024, v % 1024, Map(f, false), x, w);
      case TableOf(x, k) =>
        assert FrameOk(mem, owner, x);
        EntryAfter(mem, free, owner, d, v / 1024, v % 1024, Map(f, false), x, 1024 * k);
      case _ =>
    }
  }

  // ----- taking an address space down -----

  // The use of a frame once d is condemned and its first i tables have been freed.
  ghost function Torn(u: Use, f: nat, d: nat, i: nat): Use {
    if u.TableOf? && u.d == d && u.i < i then Free else if Belongs(u, f, d) then Other else u
  }

  ghost function TornMap(owner: map<nat, Use>, d: nat, i: nat): map<nat, Use> {
    map f | f in owner :: Torn(owner[f], f, d, i)
  }

  lemma Condemn(mem: map<nat, Frame>, free: seq<nat>, owner: map<nat, Use>, d: nat)
    requires Inv(mem, free, owner) && IsSpace(owner, d) && View(mem, d) == map[]
    ensures Inv(mem, free, TornMap(owner, d, 0))
    ensures d in mem && IsTable(mem[d])
    ensures forall f | f in owner :: !(owner[f].PageOf? && owner[f].d == d)
    ensures forall i | 0 <= i < 1024 && mem[d].e[i].Map? ::
              mem[d].e[i].frame in mem && mem[d].e[i].frame in owner && owner[mem[d].e[i].frame] == TableOf(d, i)
    ensures forall f | f in owner && owner[f].TableOf? && owner[f].d == d ::
              0 <= owner[f].i < 1024 && mem[d].e[owner[f].i].Map? && mem[d].e[owner[f].i].frame == f
  {
    var owner' := TornMap(owner, d, 0);
    assert FrameOk(mem, owner, d);
    forall f | f in owner
      ensures !(owner[f].PageOf? && owner[f].d == d)
      ensures f in mem && FrameOk(mem, owner', f)
    {
      assert FrameOk(mem, owner, f);
      if owner[f].PageOf? && owner[f].d == d { EntryOwned(mem, free, owner, d, owner[f].v); }
    }
    forall f | f in owner && owner[f].TableOf? && owner[f].d == d
      ensures 0 <= owner[f].i < 1024 && mem[d].e[owner[f].i].Map? && mem[d].e[owner[f].i].frame == f
    {
      assert FrameOk(mem, owner, f);
    }
  }

  // ----- writing user memory -----

  lemma WritePage(mem: map<nat, Frame>, free: seq<nat>, owner: map<nat, Use>, d: nat, v: nat, data: seq<nat>)
    requires Inv(mem, free, owner) && IsSpace(owner, d) && v < 160 && Entry(mem, d, v).Map? && |data| == 4096
    ensures var mem' := mem[Entry(mem, d, v).frame := Bytes(data)];
      && Inv(mem', free, owner) && Kept(mem, owner, mem', owner, d)
      && TableFor(mem', d, 0) == TableFor(mem, d, 0) && View(mem', d) == View(mem, d)[v := data]
  {
    var f := Entry(mem, d, v).frame;
    var mem' := mem[f := Bytes(data)];
    EntryOwned(mem, free, owner, d, v);
    assert FrameOk(mem, owner, d);
    var t := TableFor(mem, d, 0);
    assert FrameOk(mem, owner, t);
    forall w: nat | w < 160
      ensures Entry(mem', d, w) == Entry(mem, d, w)
      ensures Entry(mem, d, w).Map? ==> Present(mem, d, w) && Present(mem', d, w) && (w != v ==> Entry(mem, d, w).frame != f)
    {
      if Entry(mem, d, w).Map? { EntryOwned(mem, free, owner, d, w); }
    }
    forall g | g in owner
      ensures g in mem' && FrameOk(mem', owner, g)
    {
      PageWritten(mem, free, owner, d, v, data, g);
    }
  }

  lemma PageWritten(mem: map<nat, Frame>, free: seq<nat>, owner: map<nat, Use>, d: nat, v: nat, data: seq<nat>, g: nat)
    requires Inv(mem, free, owner) && IsSpace(owner, d) && v < 160 && Entry(mem, d, v).Map? && |data| == 4096
    requires g in owner
    ensures g in mem && FrameOk(mem[Entry(mem, d, v).frame := Bytes(data)], owner, g)
  {
    EntryOwned(mem, free, owner, d, v);
    assert FrameOk(mem, owner, g);
    match owner[g] {
      case PageOf(x, w) =>
        assert FrameOk(mem, owner, x);
        assert FrameOk(mem, owner, TableFor(mem, x, 0));
      case TableOf(x, k) =>
        assert FrameOk(mem, owner, x);
      case _ =>
    }
  }

  // Above the user part no entry has the user bit.
  lemma KernelEntry(mem: map<nat, Frame>, free: seq<nat>, owner: map<nat, Use>, d: nat, v: nat)
    requires Inv(mem, free, owner) && IsSpace(owner, d) && v < 0x100000 && Entry(mem, d, v).Map?
    ensures Entry(mem, d, v).user <==> v < 160
  {
    assert FrameOk(mem, owner, d);
    var t := TableFor(mem, d, v / 1024);
    assert FrameOk(mem, owner, t);
  }
}
