/** kernel/vm.c and kernel/kalloc.c: building, growing, copying and freeing address spaces. */
module VirtualMemory {
  import opened PageTable

  // PGROUNDUP in pages.
  function Up(a: nat): nat { (a + 4095) / 4096 }

  lemma UpIs(a: nat)
    ensures 4096 * Up(a) - 4096 < a <= 4096 * Up(a)
  {
  }

  predicate In(lo: nat, v: nat, hi: nat) { lo <= v < hi }

  function Range(lo: nat, hi: nat): set<nat> { set v: nat | v < hi && In(lo, v, hi) }

  function ZeroPages(lo: nat, hi: nat): map<nat, seq<nat>> { map v | v in Range(lo, hi) :: Zeros() }

  // The frames of d's pages in [lo, hi) given back.
  ghost function Dropped(owner: map<nat, Use>, d: nat, lo: nat, hi: nat): map<nat, Use> {
    map f | f in owner :: if owner[f].PageOf? && owner[f].d == d && lo <= owner[f].v < hi then Free else owner[f]
  }

  // Free frames taken for pages of d in [lo, hi), and nothing else.
  ghost predicate Grown(mem: map<nat, Frame>, owner: map<nat, Use>, mem': map<nat, Frame>, owner': map<nat, Use>,
                        d: nat, lo: nat, hi: nat)
  {
    && Kept(mem, owner, mem', owner', d)
    && forall f | f in owner :: owner'[f] == owner[f]
         || (owner[f] == Free && owner'[f].PageOf? && owner'[f].d == d && lo <= owner'[f].v < hi)
  }

  class Machine {
    var mem: map<nat, Frame>
    var free: seq<nat>        // kmem.freelist
    ghost var owner: map<nat, Use>

    ghost predicate Valid()
      reads this
    {
      Inv(mem, free, owner)
    }

    // An address space whose first page table exists, as after setupkvm.
    ghost predicate Ready(d: nat)
      reads this
    {
      IsSpace(owner, d) && TableFor(mem, d, 0) != 0
    }

    // kinit: the frames lo to hi - 1 are freed one by one.
    constructor Kinit(lo: nat, hi: nat)
      requires 0 < lo <= hi
      ensures Valid() && free == seq(hi - lo, i requires 0 <= i < hi - lo => hi - 1 - i)
      ensures forall f :: f in owner <==> lo <= f < hi
      ensures forall f | f in owner :: owner[f] == Free
    {
      mem := map f: nat | f < hi && In(lo, f, hi) :: Junk;
      free := [];
      owner := map f: nat | f < hi && In(lo, f, hi) :: Other;
      new;
      var p := lo;
      while p < hi
        invariant lo <= p <= hi && Valid() && free == seq(p - lo, i requires 0 <= i < p - lo => p - 1 - i)
        invariant forall f :: f in owner <==> lo <= f < hi
        invariant forall f | f in owner :: owner[f] == if f < p then Free else Other
      {
        Kfree(p);
        p := p + 1;
      }
    }

    method Kalloc() returns (f: nat)
      requires Valid()
      modifies `free, `owner
      ensures Valid() && (f == 0 <==> old(free) == [])
      ensures f == 0 ==> free == old(free) && owner == old(owner)
      ensures f != 0 ==> f == old(free)[0] && free == old(free)[1..] && owner == old(owner)[f := Other]
      ensures f != 0 ==> f in old(owner) && old(owner)[f] == Free && f in mem
    {
      if free == [] {
        return 0;
      }
      TakeFrame(mem, free, owner);
      f := free[0];
      owner := owner[f := Other];
      free := free[1..];
    }

    method Kfree(f: nat)
      requires Valid() && f in owner && owner[f] == Other
      modifies this
      ensures Valid() && mem == old(mem)[f := Junk] && free == [f] + old(free) && owner == old(owner)[f := Free]
    {
      GiveFrame(mem, free, owner, f);
      mem := mem[f := Junk];
      free := [f] + free;
      owner := owner[f := Free];
    }

    // The table that holds the entry of page v, or 0.
    method Walkpgdir(d: nat, v: nat, create: bool) returns (t: nat)
      requires Valid() && IsSpace(owner, d) && v < 0x100000
      modifies this
      ensures Valid() && IsSpace(owner, d) && Kept(old(mem), old(owner), mem, owner, d)
      ensures t == TableFor(mem, d, v / 1024)
      ensures t == 0 <==> old(TableFor(mem, d, v / 1024)) == 0 && !(create && old(free) != [])
      ensures old(TableFor(mem, d, v / 1024)) != 0 ==> t == old(TableFor(mem, d, v / 1024))
      ensures t == old(TableFor(mem, d, v / 1024)) ==> mem == old(mem) && owner == old(owner) && free == old(free)
      ensures forall w: nat | w < 0x100000 :: Entry(mem, d, w) == Entry(old(mem), d, w)
      ensures t != 0 ==> t in mem && IsTable(mem[t]) && t in owner && owner[t] == TableOf(d, v / 1024)
      ensures |free| == |old(free)| - if t != old(TableFor(mem, d, v / 1024)) then 1 else 0
      ensures forall k: nat | k < 1024 && k != v / 1024 :: TableFor(mem, d, k) == old(TableFor(mem, d, k))
    {
      assert FrameOk(mem, owner, d);
      t := TableFor(mem, d, v / 1024);
      if t != 0 {
        assert FrameOk(mem, owner, t);
        return;
      }
      if !create {
        return 0;
      }
      t := Kalloc();
      if t == 0 {
        return 0;
      }
      FillFrame(mem, free, owner, t, Table(NoEntries()));
      SameEntries(old(mem), old(free), old(owner), d, t, Table(NoEntries()));
      mem := mem[t := Table(NoEntries())];
      AttachTable(mem, free, owner, d, v / 1024, t);
      owner := owner[t := TableOf(d, v / 1024)];
      mem := SetEntry(mem, d, v / 1024, Map(t, true));
    }

    // mappages for one user page: never short of a page table, so it cannot fail.
    method MapUser(d: nat, v: nat, f: nat)
      requires Valid() && Ready(d) && v < 160 && Entry(mem, d, v) == Absent
      requires f in owner && owner[f] == Other && f in mem && mem[f].Bytes? && |mem[f].data| == 4096
      modifies this
      ensures Valid() && Ready(d) && free == old(free) && owner == old(owner)[f := PageOf(d, v)]
      ensures View(mem, d) == old(View(mem, d))[v := old(mem)[f].data]
      ensures mem.Keys == old(mem).Keys
      ensures forall g | g in mem && g in owner && !Belongs(owner[g], g, d) :: mem[g] == old(mem)[g]
    {
      AttachPage(mem, free, owner, d, v, f);
      var t := Walkpgdir(d, v, true);
      owner := owner[f := PageOf(d, v)];
      mem := SetEntry(mem, t, v % 1024, Map(f, true));
    }

    // Unmap user page v and return its frame to the pool.
    method Unmap(d: nat, v: nat)
      requires Valid() && IsSpace(owner, d) && v < 160 && Entry(mem, d, v).Map?
      modifies this
      ensures Valid() && IsSpace(owner, d) && Kept(old(mem), old(owner), mem, owner, d)
      ensures View(mem, d) == old(View(mem, d)) - {v} && TableFor(mem, d, 0) == old(TableFor(mem, d, 0))
      ensures free == [old(Entry(mem, d, v)).frame] + old(free)
      ensures owner == Dropped(old(owner), d, v, v + 1)
    {
      hide Inv, View;
      DetachPage(mem, free, owner, d, v);
      OnlyFrame(mem, free, owner, d, v);
      var t := Walkpgdir(d, v, false);
      var f := Entry(mem, d, v).frame;
      mem := SetEntry(mem, t, v % 1024, Absent);
      owner := owner[f := Other];
      FillFrame(mem, free, owner, f, Junk);
      Kfree(f);
    }

    method Deallocuvm(d: nat, oldsz: nat, newsz: nat) returns (r: nat)
      requires Valid() && IsSpace(owner, d) && oldsz <= 0xA0000
      modifies this
      ensures Valid() && IsSpace(owner, d) && Kept(old(mem), old(owner), mem, owner, d)
      ensures TableFor(mem, d, 0) == old(TableFor(mem, d, 0))
      ensures r == if newsz >= oldsz then oldsz else newsz
      ensures View(mem, d) == old(View(mem, d)) - Range(Up(newsz), Up(oldsz))
      ensures owner == Dropped(old(owner), d, Up(newsz), Up(oldsz))
    {
      hide Inv, Kept, View, Entry, TableFor, Dropped;
      KeptSelf(mem, owner, d);
      DroppedNone(owner, d, Up(newsz), Up(oldsz));
      if newsz >= oldsz {
        return oldsz;
      }
      DroppedNone(owner, d, Up(newsz), Up(newsz));
      var a := Up(newsz) * 4096;
      while a < oldsz
        invariant Valid() && IsSpace(owner, d) && Kept(old(mem), old(owner), mem, owner, d)
        invariant a % 4096 == 0 && Up(newsz) <= a / 4096 <= Up(oldsz)
        invariant TableFor(mem, d, 0) == old(TableFor(mem, d, 0))
        invariant View(mem, d) == old(View(mem, d)) - Range(Up(newsz), a / 4096)
        invariant owner == Dropped(old(owner), d, Up(newsz), a / 4096)
        decreases oldsz - a
      {
        ViewIsMapped(mem, free, owner, d, a / 4096);
        DroppedNext(mem, free, owner, old(owner), d, Up(newsz), a / 4096);
        if Entry(mem, d, a / 4096).Map? {
          ghost var mem1, owner1 := mem, owner;
          Unmap(d, a / 4096);
          KeptTransitive(old(mem), old(owner), mem1, owner1, mem, owner, d);
        }
        a := a + 4096;
      }
      r := newsz;
    }

    // Grow [oldsz, newsz) with zeroed pages: all of them, or none when frames run out. The
    // caller asks only for pages that are not mapped (the source panics on a remap).
    method Allocuvm(d: nat, oldsz: nat, newsz: nat) returns (r: nat)
      requires Valid() && Ready(d)
      requires newsz <= 0xA0000 ==> forall v | v in Range(Up(oldsz), Up(newsz)) :: v !in View(mem, d)
      modifies this
      ensures Valid() && Ready(d)
      ensures newsz > 0xA0000 ==> r == 0
      ensures newsz > 0xA0000 || newsz < oldsz ==> free == old(free)
      ensures newsz <= 0xA0000 && newsz < oldsz ==> r == oldsz
      ensures oldsz <= newsz <= 0xA0000 ==>
                r == if Up(newsz) - Up(oldsz) <= |old(free)| then newsz else 0
      ensures oldsz <= newsz <= 0xA0000 && Up(newsz) - Up(oldsz) <= |old(free)| ==>
                View(mem, d) == old(View(mem, d)) + ZeroPages(Up(oldsz), Up(newsz))
                && |free| == |old(free)| - (Up(newsz) - Up(oldsz))
                && Grown(old(mem), old(owner), mem, owner, d, Up(oldsz), Up(newsz))
      ensures !(oldsz <= newsz <= 0xA0000 && Up(newsz) - Up(oldsz) <= |old(free)|) ==>
                View(mem, d) == old(View(mem, d)) && owner == old(owner)
                && Kept(old(mem), old(owner), mem, owner, d)
    {
      hide Inv, Kept, View, Entry, TableFor, Dropped, Grown, ZeroPages;
      KeptSelf(mem, owner, d);
      if newsz > 0xA0000 {
        return 0;
      }
      if newsz < oldsz {
        return oldsz;
      }
      ghost var lo, hi := Up(oldsz), Up(newsz);
      var a := Up(oldsz) * 4096;
      GrownNone(mem, owner, d, lo, lo, View(mem, d));
      while a < newsz
        invariant Valid() && Ready(d)
        invariant a % 4096 == 0 && lo <= a / 4096 <= hi
        invariant |free| == |old(free)| - (a / 4096 - lo)
        invariant Grown(old(mem), old(owner), mem, owner, d, lo, a / 4096)
        invariant View(mem, d) == old(View(mem, d)) + ZeroPages(lo, a / 4096)
        decreases newsz - a
      {
        ghost var v, mem1, free1, owner1 := a / 4096, mem, free, owner;
        var f := Kalloc();
        if f == 0 {
          GrownUndone(old(mem), old(free), old(owner), mem, owner, d, lo, v, hi);
          ViewUndone(old(View(mem, d)), lo, v, hi);
          ghost var mem2, owner2 := mem, owner;
          var r' := Deallocuvm(d, newsz, oldsz);
          GrownKept(old(mem), old(owner), mem2, owner2, d, lo, v);
          KeptTransitive(old(mem), old(owner), mem2, owner2, mem, owner, d);
          return 0;
        }
        PageFilled(mem, free, owner, d, v, f, View(mem1, d), lo, old(View(mem, d)));
        ViewTaken(mem1, free1, owner1, d, f);
        mem := mem[f := Bytes(Zeros())];
        MapUser(d, a / 4096, f);
        GrownNext(old(mem), old(owner), mem1, owner1, mem, owner, d, lo, v, f);
        ZeroPagesNext(old(View(mem, d)), lo, v);
        a := a + 4096;
      }
      r := newsz;
    }

    // Give back everything that belongs to d: pages, tables and directory.
    method Freevm(d: nat)
      requires Valid() && IsSpace(owner, d)
      modifies this
      ensures Valid() && owner == Released(old(owner), d)
      ensures Kept(old(mem), old(owner), mem, owner, d)
    {
      hide Inv, View, Kept, Dropped, TornMap;
      var r := Deallocuvm(d, 0xA0000, 0);
      ghost var mem1, owner1 := mem, owner;
      NothingLeft(mem, free, old(owner), owner, d, old(View(mem, d)));
      Condemn(mem, free, owner, d);
      owner := TornMap(owner, d, 0);
      FreeTables(d, owner1);
      TornLast(owner1, d);
      Kfree(d);
      TornKept(mem1, owner1, mem, owner, d);
      KeptTransitive(old(mem), old(owner), mem1, owner1, mem, owner, d);
    }

    // The loop of freevm over the page directory of d, now condemned.
    method FreeTables(d: nat, ghost owner1: map<nat, Use>)
      requires Valid() && IsSpace(owner1, d) && owner == TornMap(owner1, d, 0) && d in mem && IsTable(mem[d])
      requires forall i | 0 <= i < 1024 && mem[d].e[i].Map? :: mem[d].e[i].frame in mem
                 && mem[d].e[i].frame in owner1 && owner1[mem[d].e[i].frame] == TableOf(d, i)
      requires forall f | f in owner1 && owner1[f].TableOf? && owner1[f].d == d ::
                 0 <= owner1[f].i < 1024 && mem[d].e[owner1[f].i].Map? && mem[d].e[owner1[f].i].frame == f
      modifies this
      ensures Valid() && owner == TornMap(owner1, d, 1024) && mem.Keys == old(mem).Keys
      ensures forall f | f in owner1 && f in mem && !Belongs(owner1[f], f, d) :: mem[f] == old(mem)[f]
    {
      hide Inv, TornMap;
      TornKeys(owner1, d);
      var i := 0;
      while i < 1024
        invariant 0 <= i <= 1024 && Valid() && owner == TornMap(owner1, d, i)
        invariant mem.Keys == old(mem).Keys && d in mem && mem[d] == old(mem)[d]
        invariant forall f | f in owner1 && f in mem && !Belongs(owner1[f], f, d) :: mem[f] == old(mem)[f]
      {
        if mem[d].e[i].Map? {
          TornNext(owner1, d, i, mem[d].e[i].frame, mem[d].e);
          Kfree(mem[d].e[i].frame);
        } else {
          TornSkip(owner1, d, i, mem[d].e);
        }
        i := i + 1;
      }
    }

    // mappages for n kernel pages; false exactly when there are fewer frames than page tables
    // missing, and then no frame is left.
    method MapKernel(d: nat, v: nat, n: nat, pa: nat) returns (ok: bool)
      requires Valid() && IsSpace(owner, d) && 160 <= v && n >= 1 && v + n <= 0x100000
      requires forall w | v <= w < v + n :: Entry(mem, d, w) == Absent
      modifies this
      ensures ok <==> Missing(old(mem), d, v / 1024, (v + n - 1) / 1024 + 1) <= |old(free)|
      ensures ok ==> |free| == |old(free)| - Missing(old(mem), d, v / 1024, (v + n - 1) / 1024 + 1)
      ensures !ok ==> free == []
      ensures Valid() && IsSpace(owner, d) && Kept(old(mem), old(owner), mem, owner, d)
      ensures forall w: nat | w < 0x100000 && !(v <= w < v + n) :: Entry(mem, d, w) == Entry(old(mem), d, w)
      ensures ok ==> forall w: nat | v <= w < v + n :: Entry(mem, d, w) == Map(pa + w - v, false)
      ensures ok ==> forall k: nat | k < 1024 ::
                TableFor(mem, d, k) == 0 <==> old(TableFor(mem, d, k)) == 0 && !(v / 1024 <= k <= (v + n - 1) / 1024)
    {
      hide Inv, Entry, TableFor, Kept, Missing, Passed;
      KeptSelf(mem, owner, d);
      PassedNone(mem, d, v);
      var a, last, p := v, v + n - 1, pa;
      while true
        invariant Valid() && IsSpace(owner, d) && Kept(old(mem), old(owner), mem, owner, d)
        invariant v <= a <= last && p == pa + a - v
        invariant |free| == |old(free)| - Missing(old(mem), d, v / 1024, Passed(v, a))
        invariant forall w: nat | w < 0x100000 && !(v <= w < a) :: Entry(mem, d, w) == Entry(old(mem), d, w)
        invariant forall w: nat | v <= w < a :: Entry(mem, d, w) == Map(pa + w - v, false)
        invariant forall k: nat | k < 1024 ::
                    TableFor(mem, d, k) == 0 <==> old(TableFor(mem, d, k)) == 0 && !(v / 1024 <= k < Passed(v, a))
        decreases last - a
      {
        ghost var mem1, owner1 := mem, owner;
        MissingNext(old(mem), d, v, a, last);
        assert TableFor(mem, d, a / 1024) == 0 <==> old(TableFor(mem, d, a / 1024)) == 0 && Passed(v, a) == a / 1024;
        var t := Walkpgdir(d, a, true);
        KeptTransitive(old(mem), old(owner), mem1, owner1, mem, owner, d);
        if t == 0 {
          return false;
        }
        AttachKernel(mem, free, owner, d, a, p);
        KernelKept(mem, owner, d, a, p);
        ghost var mem2 := mem;
        mem := SetEntry(mem, t, a % 1024, Map(p, false));
        KeptTransitive(old(mem), old(owner), mem2, owner, mem, owner, d);
        if a == last {
          return true;
        }
        a, p := a + 1, p + 1;
      }
    }

    // A new address space holding the kernel's mappings: I/O space, text, data and memory,
    // devices. It takes 13 frames; with fewer it fails, and those there were stay taken.
    method Setupkvm(data: nat) returns (d: nat)
      requires Valid() && 256 < data < 4096
      modifies this
      ensures Valid() && Kept(old(mem), old(owner), mem, owner, FirstFree(old(free)))
      ensures d == 0 <==> |old(free)| < 13
      ensures d != 0 ==> d == FirstFree(old(free)) && d in old(owner) && old(owner)[d] == Free
      ensures d != 0 ==> Ready(d) && View(mem, d) == map[] && KernelMapped(mem, d, data) && KernelTables(mem, d)
      ensures d != 0 ==> |free| == |old(free)| - 13
      ensures d != 0 ==> forall v: nat | v < 0x100000 ::
                Entry(mem, d, v) == if 160 <= v < 4096 || 0xFE000 <= v then Map(v, false) else Absent
      ensures d == 0 ==> free == [] && (owner == old(owner) <==> old(free) == [])
    {
      hide Inv, Kept, TableFor, KernelMapped, Entry;
      d := Kalloc();
      KeptSelf(mem, owner, d);
      if d == 0 {
        return;
      }
      SpaceBorn(old(mem), old(free), old(owner), mem, free, d);
      FillFrame(mem, free, owner, d, Table(NoEntries()));
      mem := mem[d := Table(NoEntries())];
      NewDir(mem, free, owner, d);
      owner := owner[d := Dir];
      ghost var mem1, owner1, dir := mem, owner, d;
      var ok := MapRegions(d, data);
      KeptTransitive(old(mem), old(owner), mem1, owner1, mem, owner, d);
      if !ok {
        assert owner[dir] == Dir && old(owner)[dir] == Free;
        return 0;
      }
      KernelOnly(mem, free, owner, d, data);
      EmptyView(mem, d);
      KernelMeans(mem, d, data);
    }

    // The loop over kmap: 12 page tables.
    method MapRegions(d: nat, data: nat) returns (ok: bool)
      requires Valid() && IsSpace(owner, d) && 256 < data < 4096
      requires forall v: nat | v < 0x100000 :: Entry(mem, d, v) == Absent
      requires forall k: nat | k < 1024 :: TableFor(mem, d, k) == 0
      modifies this
      ensures Valid() && IsSpace(owner, d) && Kept(old(mem), old(owner), mem, owner, d)
      ensures ok <==> |old(free)| >= KERNEL_FRAMES - 1
      ensures ok ==> |free| == |old(free)| - (KERNEL_FRAMES - 1)
      ensures !ok ==> free == []
      ensures ok ==> TableFor(mem, d, 0) != 0 && KernelMapped(mem, d, data)
    {
      hide Inv, Kept, TableFor, Entry, Missing;
      var kmap := [(160, 256), (256, data), (data, 4096), (0xFE000, 0x100000)];
      KeptSelf(mem, owner, d);
      var k := 0;
      while k < 4
        invariant 0 <= k <= 4
        invariant Valid() && IsSpace(owner, d) && Kept(old(mem), old(owner), mem, owner, d)
        invariant |free| == |old(free)| - TablesFor(data, k)
        invariant forall i: nat | i < 1024 :: TableFor(mem, d, i) == 0 <==> !KernelTable(i, data, k)
        invariant RegionsMapped(mem, d, data, k)
      {
        ghost var mem1, owner1 := mem, owner;
        RegionMissing(mem, d, data, k, kmap[k].0, kmap[k].1);
        ok := MapKernel(d, kmap[k].0, kmap[k].1 - kmap[k].0, kmap[k].0);
        KeptTransitive(old(mem), old(owner), mem1, owner1, mem, owner, d);
        if !ok {
          return;
        }
        forall i: nat | i < 1024
          ensures TableFor(mem, d, i) == 0 <==> !KernelTable(i, data, k + 1)
        {
          NextTables(i, data, k, kmap[k].0, kmap[k].1);
        }
        k := k + 1;
      }
      ok := true;
    }

    // The body of copyuvm's loops.
    method CopyPage(d: nat, c: nat, v: nat) returns (ok: bool)
      requires Valid() && Ready(d) && Ready(c) && d != c && v < 160 && v in View(mem, d) && v !in View(mem, c)
      modifies this
      ensures Valid() && Ready(c) && Ready(d) && View(mem, d) == old(View(mem, d))
      ensures Kept(old(mem), old(owner), mem, owner, c)
      ensures ok <==> |old(free)| >= 1
      ensures ok ==> View(mem, c) == old(View(mem, c))[v := old(View(mem, d))[v]] && |free| == |old(free)| - 1
    {
      hide Inv, Kept, View, Entry, TableFor;
      KeptSelf(mem, owner, c);
      ViewIsMapped(mem, free, owner, d, v);
      EntryOwned(mem, free, owner, d, v);
      var src := Entry(mem, d, v).frame;
      ghost var mem1, free1, owner1 := mem, free, owner;
      var f := Kalloc();
      if f == 0 {
        return false;
      }
      CopyFilled(mem, free, owner, c, v, f, mem[src]);
      mem := mem[f := mem[src]];
      MapUser(c, v, f);
      CopyKept(mem1, free1, owner1, mem, owner, c, v, f);
      KeptView(mem1, free1, owner1, mem, owner, c, d);
      ok := true;
    }

    // Copy the pages of [start, end) of d to c; false when frames run out.
    method CopyRange(d: nat, c: nat, start: nat, end: nat) returns (ok: bool)
      requires Valid() && Ready(d) && Ready(c) && d != c && start % 4096 == 0 && end <= 0xA0000
      requires forall v | v in Range(start / 4096, Up(end)) :: v in View(mem, d) && v !in View(mem, c)
      modifies this
      ensures Valid() && Ready(c) && Ready(d) && Kept(old(mem), old(owner), mem, owner, c)
      ensures View(mem, d) == old(View(mem, d))
      ensures ok <==> Pages(start, end) <= |old(free)|
      ensures ok ==> View(mem, c) == old(View(mem, c)) + Part(old(View(mem, d)), start / 4096, Up(end))
      ensures ok ==> |free| == |old(free)| - Pages(start, end)
    {
      hide Inv, Kept, View, Entry, TableFor, Part;
      KeptSelf(mem, owner, c);
      var i := start;
      PartNone(View(mem, c), View(mem, d), start / 4096, start / 4096);
      PartNone(View(mem, c), View(mem, d), start / 4096, Up(end));
      while i < end
        invariant Valid() && Ready(d) && Ready(c) && Kept(old(mem), old(owner), mem, owner, c)
        invariant i % 4096 == 0 && start <= i && (i == start || i / 4096 <= Up(end))
        invariant View(mem, d) == old(View(mem, d))
        invariant View(mem, c) == old(View(mem, c)) + Part(old(View(mem, d)), start / 4096, i / 4096)
        invariant |free| == |old(free)| - (i / 4096 - start / 4096)
        decreases end - i
      {
        ghost var v, mem1, owner1 := i / 4096, mem, owner;
        PartNext(old(View(mem, c)), old(View(mem, d)), start / 4096, v);
        ok := CopyPage(d, c, i / 4096);
        KeptTransitive(old(mem), old(owner), mem1, owner1, mem, owner, c);
        if !ok {
          return;
        }
        i := i + 4096;
      }
      ok := true;
    }

    // The three loops of copyuvm.
    method CopyRegions(d: nat, c: nat, heapBot: nat, sz: nat, stackLow: nat, ghost mem0: map<nat, Frame>,
                       ghost owner0: map<nat, Use>) returns (ok: bool)
      requires Valid() && Ready(d) && Ready(c) && d != c && View(mem, c) == map[]
      requires heapBot % 4096 == 0 && stackLow % 4096 == 0 && 4096 <= heapBot <= 0xA0000
      requires sz <= 0xA0000 && stackLow <= 0xA0000
      requires forall v | v in Regions(heapBot, sz, stackLow) :: v in View(mem, d)
      requires (sz > heapBot ==> Up(sz) <= stackLow / 4096) && heapBot - 4096 <= stackLow
      requires Kept(mem0, owner0, mem, owner, c)
      modifies this
      ensures Valid() && Ready(c) && Ready(d) && Kept(mem0, owner0, mem, owner, c)
      ensures View(mem, d) == old(View(mem, d))
      ensures ok <==> UserPages(heapBot, sz, stackLow) <= |old(free)|
      ensures ok ==> |free| == |old(free)| - UserPages(heapBot, sz, stackLow)
      ensures ok ==> View(mem, c) == map v | v in Regions(heapBot, sz, stackLow) :: old(View(mem, d))[v]
    {
      hide Inv, Kept, View, TableFor, Part, Range, Regions, Pages;
      RegionsReady(View(mem, d), heapBot, sz, stackLow);
      RegionsWhole(View(mem, d), heapBot, sz, stackLow);
      ghost var mem1, owner1 := mem, owner;
      ok := CopyRange(d, c, 4096, heapBot - 4096);
      KeptTransitive(mem0, owner0, mem1, owner1, mem, owner, c);
      if !ok {
        return;
      }
      mem1, owner1 := mem, owner;
      ok := CopyRange(d, c, heapBot, sz);
      KeptTransitive(mem0, owner0, mem1, owner1, mem, owner, c);
      if !ok {
        return;
      }
      mem1, owner1 := mem, owner;
      ok := CopyRange(d, c, stackLow, 0xA0000);
      KeptTransitive(mem0, owner0, mem1, owner1, mem, owner, c);
    }

    // A copy of the three regions of d, on frames of its own: made exactly when there are
    // frames for it. Otherwise the frames are as before, unless setupkvm was what ran out.
    method Copyuvm(d: nat, heapBot: nat, sz: nat, stackLow: nat, data: nat) returns (c: nat)
      requires Valid() && Ready(d) && 256 < data < 4096
      requires heapBot % 4096 == 0 && stackLow % 4096 == 0 && 4096 <= heapBot <= 0xA0000
      requires sz <= 0xA0000 && stackLow <= 0xA0000
      requires forall v | v in Regions(heapBot, sz, stackLow) :: v in View(mem, d)
      requires sz > heapBot ==> Up(sz) <= stackLow / 4096
      requires heapBot - 4096 <= stackLow
      modifies this
      ensures Valid() && Ready(d) && View(mem, d) == old(View(mem, d))
      ensures c != 0 <==> |old(free)| >= KERNEL_FRAMES + UserPages(heapBot, sz, stackLow)
      ensures c != 0 ==> |free| == |old(free)| - KERNEL_FRAMES - UserPages(heapBot, sz, stackLow)
      ensures Kept(old(mem), old(owner), mem, owner, FirstFree(old(free)))
      ensures c != 0 ==> c == FirstFree(old(free)) && Ready(c) && c in old(owner) && old(owner)[c] == Free
      ensures c != 0 ==> View(mem, c) == map v | v in Regions(heapBot, sz, stackLow) :: old(View(mem, d))[v]
      ensures c == 0 ==> (owner == old(owner) <==> |old(free)| >= KERNEL_FRAMES || old(free) == [])
      ensures |old(free)| < KERNEL_FRAMES ==> free == []
      ensures c == 0 && owner == old(owner) ==>
                forall f | f in owner && owner[f] != Free && f in mem :: mem[f] == old(mem)[f]
    {
      hide Inv, Kept, View, TableFor, Released, KernelMapped, Pages;
      FirstIsFree(mem, free, owner);
      c := Setupkvm(data);
      SpacesDiffer(old(mem), old(free), old(owner), mem, owner, d, FirstFree(old(free)));
      if c == 0 {
        if old(free) == [] { NothingTaken(old(mem), old(free), old(owner), mem, owner); }
        return;
      }
      var ok := CopyRegions(d, c, heapBot, sz, stackLow, old(mem), old(owner));
      if !ok {
        ghost var mem1, owner1 := mem, owner;
        Freevm(c);
        KeptTransitive(old(mem), old(owner), mem1, owner1, mem, owner, c);
        ReleaseUndoes(old(mem), old(free), old(owner), mem1, owner1, c);
        KeptView(old(mem), old(free), old(owner), mem, owner, c, d);
        KeptContent(old(mem), old(free), old(owner), mem, owner, c);
        c := 0;
      }
    }

    // The frame behind user page v, or 0; a crash when the page has no page table, whose entry
    // the code reads all the same.
    method Uva2ka(d: nat, v: nat) returns (crash: bool, f: nat)
      requires Valid() && Ready(d) && v < 0x100000
      ensures crash <==> TableFor(mem, d, v / 1024) == 0
      ensures !crash ==> (f == 0 <==> v !in View(mem, d))
      ensures !crash && f != 0 ==> v < 160 && Entry(mem, d, v) == Map(f, true)
    {
      if TableFor(mem, d, v / 1024) == 0 {
        return true, 0;
      }
      crash := false;
      var e := Entry(mem, d, v);
      if v < 160 { ViewIsMapped(mem, free, owner, d, v); }
      if e == Absent || !e.user {
        if e.Map? { KernelEntry(mem, free, owner, d, v); }
        return false, 0;
      }
      KernelEntry(mem, free, owner, d, v);
      EntryOwned(mem, free, owner, d, v);
      f := e.frame;
    }

    // memmove of buf[k..k + n] to offset o of a page.
    method CopyChunk(d: nat, va: nat, f: nat, buf: seq<nat>, k: nat, n: nat)
      requires Valid() && Ready(d) && va % 4096 + n <= 4096 && k + n <= |buf| && va < 0xA0000
      requires Entry(mem, d, va / 4096) == Map(f, true)
      modifies `mem
      ensures Valid() && Ready(d) && Kept(old(mem), old(owner), mem, owner, d)
      ensures View(mem, d).Keys == old(View(mem, d)).Keys && va / 4096 in View(mem, d)
      ensures forall v | v in View(mem, d) && v != va / 4096 :: View(mem, d)[v] == old(View(mem, d))[v]
      ensures |View(mem, d)[va / 4096]| == |old(View(mem, d))[va / 4096]| == 4096
      ensures forall o | 0 <= o < 4096 :: View(mem, d)[va / 4096][o] ==
                (if va % 4096 <= o < va % 4096 + n then buf[k + o - va % 4096] else old(View(mem, d))[va / 4096][o])
    {
      hide Inv, View, Kept, TableFor;
      var o := va % 4096;
      EntryOwned(mem, free, owner, d, va / 4096);
      var page := mem[f].data;
      page := page[..o] + buf[k..k + n] + page[o + n..];
      WritePage(mem, free, owner, d, va / 4096, page);
      mem := mem[f := Bytes(page)];
    }

    // Read sz bytes of a file, of which data is there, into the pages from va on. A page that is not
    // mapped is not noticed: its bytes go to physical page 0, outside the pool (stray).
    method Loaduvm(d: nat, va: nat, data: seq<nat>, sz: nat) returns (r: LoadResult, stray: bool)
      requires Valid() && Ready(d) && va + sz <= 0xA0000
      requires forall v | 1 <= v < Up(va + sz) :: v in View(mem, d)
      modifies `mem
      ensures Valid() && Ready(d) && Kept(old(mem), old(owner), mem, owner, d)
      ensures r == if va % 4096 != 0 then Misaligned else if |data| < sz then Short else Loaded
      ensures View(mem, d).Keys == old(View(mem, d)).Keys
      ensures r == Loaded ==> Written(old(View(mem, d)), View(mem, d), va, data, sz)
      ensures stray <==> va == 0 && sz > 0 && data != [] && 0 !in old(View(mem, d))
    {
      hide Inv, View, Kept, TableFor, Entry;
      KeptSelf(mem, owner, d);
      ViewSizes(mem, free, owner, d);
      stray := false;
      if va % 4096 != 0 {
        return Misaligned, false;
      }
      var i := 0;
      while i < sz
        invariant stray <==> va == 0 && i > 0 && data != [] && 0 !in old(View(mem, d))
        invariant Valid() && Ready(d) && Kept(old(mem), old(owner), mem, owner, d)
        invariant i % 4096 == 0 && Least(i, sz) <= |data| && (i > 0 ==> sz > 0)
        invariant View(mem, d).Keys == old(View(mem, d)).Keys
        invariant Written(old(View(mem, d)), View(mem, d), va, data, Least(i, sz))
        decreases sz - i
      {
        var n := if sz - i < 4096 then sz - i else 4096;
        var ok, out := LoadPage(d, va, data, i, n, old(mem), old(View(mem, d)));
        stray := stray || out;
        if !ok {
          return Short, stray;
        }
        i := i + 4096;
      }
      return Loaded, stray;
    }

    // The body of loaduvm's loop: n bytes for the page at va + i.
    method LoadPage(d: nat, va: nat, data: seq<nat>, i: nat, n: nat, ghost mem0: map<nat, Frame>,
                    ghost view0: map<nat, seq<nat>>) returns (ok: bool, out: bool)
      requires Valid() && Ready(d) && Kept(mem0, owner, mem, owner, d)
      requires va + i + n <= 0xA0000 && (va + i) % 4096 == 0 && 0 < n <= 4096 && i <= |data|
      requires view0.Keys == View(mem, d).Keys && Written(view0, View(mem, d), va, data, i)
      modifies `mem
      ensures Valid() && Ready(d) && Kept(mem0, owner, mem, owner, d) && View(mem, d).Keys == old(View(mem, d)).Keys
      ensures ok <==> i + n <= |data|
      ensures ok ==> Written(view0, View(mem, d), va, data, i + n)
      ensures out <==> (va + i) / 4096 !in view0 && i < |data|
    {
      hide Inv, View, Kept, TableFor, Entry;
      var got := Least(n, |data| - i);
      var v := (va + i) / 4096;
      var e := Entry(mem, d, v);
      ghost var mem1, view1 := mem, View(mem, d);
      ViewIsMapped(mem, free, owner, d, v);
      ok, out := got == n, e == Absent && got > 0;
      if e.Map? {
        EntryOwned(mem, free, owner, d, v);
        KernelEntry(mem, free, owner, d, v);
        CopyChunk(d, va + i, e.frame, data, i, got);
        KeptTransitive(mem0, owner, mem1, owner, mem, owner, d);
        if ok { WrittenNext(view0, view1, View(mem, d), va, data, i, n, view1[v], View(mem, d)[v]); }
      } else if ok {
        WrittenBeside(view0, view1, va, data, i, n);
      }
    }

    // Copy buf to user address va. On failure the bytes before the first page that the user
    // cannot reach have been written. Only the first page can lack a page table.
    method Copyout(d: nat, va: nat, buf: seq<nat>) returns (r: CopyResult, ghost done: nat)
      requires Valid() && Ready(d) && va < 0x1_0000_0000
      modifies `mem
      ensures Valid() && Ready(d) && Kept(old(mem), old(owner), mem, owner, d)
      ensures done <= |buf| && (r == Copied <==> done == |buf|)
      ensures r != Copied ==> (va + done) / 4096 !in old(View(mem, d))
      ensures r == Copied <==> Mapped(old(View(mem, d)), va, |buf|)
      ensures r == Crashed <==> buf != [] && old(TableFor(mem, d, va / 4096 / 1024)) == 0
      ensures Written(old(View(mem, d)), View(mem, d), va, buf, done)
    {
      hide Inv, View, Kept, TableFor;
      KeptSelf(mem, owner, d);
      ViewSizes(mem, free, owner, d);
      var a, k := va, 0;
      while k < |buf|
        invariant Valid() && Ready(d) && Kept(old(mem), old(owner), mem, owner, d)
        invariant k <= |buf| && (k < |buf| ==> a == va + k)
        invariant if k == 0 then a == va && mem == old(mem) else a <= 0xA0000 && va < 0xA0000
        invariant Mapped(old(View(mem, d)), va, k)
        invariant Written(old(View(mem, d)), View(mem, d), va, buf, k)
        decreases |buf| - k
      {
        var va0 := a / 4096 * 4096;
        var crash, f := Uva2ka(d, a / 4096);
        if crash || f == 0 {
          NoTableNoPage(mem, free, owner, d, a / 4096);
          return if crash then Crashed else Refused, k;
        }
        var n := 4096 - (a - va0);
        if n > |buf| - k {
          n := |buf| - k;
        }
        ghost var mem1, view1 := mem, View(mem, d);
        CopyChunk(d, a, f, buf, k, n);
        KeptTransitive(old(mem), old(owner), mem1, owner, mem, owner, d);
        WrittenNext(old(View(mem, d)), view1, View(mem, d), va, buf, k, n, view1[a / 4096], View(mem, d)[a / 4096]);
        k := k + n;
        a := va0 + 4096;
      }
      return Copied, k;
    }
  }

  // What copyout does: a crash is a read through a null page-table entry.
  datatype CopyResult = Copied | Refused | Crashed

  lemma NoTableNoPage(mem: map<nat, Frame>, free: seq<nat>, owner: map<nat, Use>, d: nat, v: nat)
    requires Inv(mem, free, owner) && IsSpace(owner, d)
    ensures v in View(mem, d) ==> v < 160 && TableFor(mem, d, v / 1024) != 0
  {
    assert FrameOk(mem, owner, d);
  }

  lemma KeptSelf(mem: map<nat, Frame>, owner: map<nat, Use>, d: nat)
    ensures Kept(mem, owner, mem, owner, d)
  {
  }

  // Filling a free frame changes no entry of an address space.
  lemma SameEntries(mem: map<nat, Frame>, free: seq<nat>, owner: map<nat, Use>, d: nat, t: nat, x: Frame)
    requires Inv(mem, free, owner) && IsSpace(owner, d) && t in owner && owner[t] == Free
    ensures forall w: nat | w < 0x100000 :: Entry(mem[t := x], d, w) == Entry(mem, d, w)
    ensures forall k: nat | k < 1024 :: TableFor(mem[t := x], d, k) == TableFor(mem, d, k)
  {
    assert FrameOk(mem, owner, d);
    forall w: nat | w < 0x100000
      ensures Entry(mem[t := x], d, w) == Entry(mem, d, w)
    {
      var u := TableFor(mem, d, w / 1024);
      if u != 0 { assert FrameOk(mem, owner, u); }
    }
  }

  // The only frame of page v of d.
  lemma OnlyFrame(mem: map<nat, Frame>, free: seq<nat>, owner: map<nat, Use>, d: nat, v: nat)
    requires Inv(mem, free, owner) && IsSpace(owner, d) && v < 160 && Entry(mem, d, v).Map?
    ensures Dropped(owner, d, v, v + 1) == owner[Entry(mem, d, v).frame := Free]
    ensures Entry(mem, d, v).frame in mem && mem[Entry(mem, d, v).frame].Bytes?
  {
    EntryOwned(mem, free, owner, d, v);
    forall f | f in owner && owner[f] == PageOf(d, v)
      ensures f == Entry(mem, d, v).frame
    {
      assert FrameOk(mem, owner, f);
    }
  }

  lemma DroppedNone(owner: map<nat, Use>, d: nat, lo: nat, hi: nat)
    ensures lo >= hi ==> Dropped(owner, d, lo, hi) == owner
  {
  }

  lemma DroppedNext(mem: map<nat, Frame>, free: seq<nat>, owner: map<nat, Use>, owner0: map<nat, Use>, d: nat,
                    lo: nat, v: nat)
    requires Inv(mem, free, owner) && IsSpace(owner, d) && lo <= v < 160 && owner == Dropped(owner0, d, lo, v)
    ensures Dropped(owner0, d, lo, v + 1) == Dropped(owner, d, v, v + 1)
    ensures !Entry(mem, d, v).Map? ==> Dropped(owner, d, v, v + 1) == owner
  {
    forall f | f in owner && owner[f] == PageOf(d, v)
      ensures Entry(mem, d, v).Map?
    {
      assert FrameOk(mem, owner, f);
    }
  }

  lemma GrownNone(mem: map<nat, Frame>, owner: map<nat, Use>, d: nat, lo: nat, hi: nat, view: map<nat, seq<nat>>)
    requires lo == hi
    ensures Grown(mem, owner, mem, owner, d, lo, hi) && view + ZeroPages(lo, hi) == view
  {
  }

  lemma GrownKept(mem: map<nat, Frame>, owner: map<nat, Use>, mem': map<nat, Frame>, owner': map<nat, Use>,
                  d: nat, lo: nat, hi: nat)
    requires Grown(mem, owner, mem', owner', d, lo, hi)
    ensures Kept(mem, owner, mem', owner', d)
  {
  }

  // Dropping what has grown leads back.
  lemma GrownUndone(mem: map<nat, Frame>, free: seq<nat>, owner: map<nat, Use>, mem': map<nat, Frame>,
                    owner': map<nat, Use>, 
                    d: nat, lo: nat, v: nat, hi: nat)
    requires Inv(mem, free, owner) && IsSpace(owner, d) && Grown(mem, owner, mem', owner', d, lo, v)
    requires lo <= v <= hi <= 160
    requires forall w | w in Range(lo, hi) :: w !in View(mem, d)
    ensures Dropped(owner', d, lo, hi) == owner
  {
    hide Entry, TableFor, View;
    forall f | f in owner
      ensures !(owner[f].PageOf? && owner[f].d == d && lo <= owner[f].v < hi)
    {
      assert FrameOk(mem, owner, f);
      if owner[f].PageOf? && owner[f].d == d { NotInRange(mem, free, owner, d, f, lo, hi); }
    }
  }

  lemma NotInRange(mem: map<nat, Frame>, free: seq<nat>, owner: map<nat, Use>, d: nat, f: nat, lo: nat, hi: nat)
    requires Inv(mem, free, owner) && IsSpace(owner, d) && f in owner && owner[f].PageOf? && owner[f].d == d
    requires forall w | w in Range(lo, hi) :: w !in View(mem, d)
    ensures !(lo <= owner[f].v < hi)
  {
    hide View, Range;
    assert FrameOk(mem, owner, f);
    EntryOwned(mem, free, owner, d, owner[f].v);
    RangeHas(lo, owner[f].v, hi);
  }

  lemma RangeHas(lo: nat, v: nat, hi: nat)
    ensures v in Range(lo, hi) <==> lo <= v < hi
  {
  }

  lemma ViewUndone(view: map<nat, seq<nat>>, lo: nat, v: nat, hi: nat)
    requires lo <= v <= hi && forall w | w in Range(lo, hi) :: w !in view
    ensures view + ZeroPages(lo, v) - Range(lo, hi) == view
  {
    assert forall w | w in Range(lo, v) :: w in Range(lo, hi);
  }

  lemma GrownNext(mem: map<nat, Frame>, owner: map<nat, Use>, mem1: map<nat, Frame>, owner1: map<nat, Use>,
                  mem2: map<nat, Frame>, owner2: map<nat, Use>, d: nat, lo: nat, v: nat, f: nat)
    requires Grown(mem, owner, mem1, owner1, d, lo, v) && lo <= v
    requires f in owner1 && owner1[f] == Free && owner2 == owner1[f := PageOf(d, v)] && mem2.Keys == mem1.Keys
    requires forall g | g in mem2 && g in owner2 && !Belongs(owner2[g], g, d) :: mem2[g] == mem1[g]
    ensures Grown(mem, owner, mem2, owner2, d, lo, v + 1)
  {
  }

  lemma ZeroPagesNext(view: map<nat, seq<nat>>, lo: nat, v: nat)
    requires lo <= v
    ensures (view + ZeroPages(lo, v))[v := Zeros()] == view + ZeroPages(lo, v + 1)
  {
  }

  lemma PageFilled(mem: map<nat, Frame>, free: seq<nat>, owner: map<nat, Use>, d: nat, v: nat, f: nat,
                   view: map<nat, seq<nat>>, lo: nat, view0: map<nat, seq<nat>>)
    requires Inv(mem, free, owner) && IsSpace(owner, d) && f in owner && owner[f] == Other && v < 160
    requires view == View(mem, d) == view0 + ZeroPages(lo, v) && v !in view0
    ensures Inv(mem[f := Bytes(Zeros())], free, owner)
    ensures TableFor(mem[f := Bytes(Zeros())], d, 0) == TableFor(mem, d, 0)
    ensures Entry(mem[f := Bytes(Zeros())], d, v) == Absent
    ensures View(mem[f := Bytes(Zeros())], d) == view
  {
    FillFrame(mem, free, owner, f, Bytes(Zeros()));
    ViewIsMapped(mem, free, owner, d, v);
  }

  lemma ViewTaken(mem: map<nat, Frame>, free: seq<nat>, owner: map<nat, Use>, d: nat, f: nat)
    requires Inv(mem, free, owner) && IsSpace(owner, d) && f in owner && owner[f] == Free
    ensures f != d && f in mem
  {
    assert FrameOk(mem, owner, f);
  }

  // ----- freevm -----

  ghost function Released(owner: map<nat, Use>, d: nat): map<nat, Use> {
    map f | f in owner :: if Belongs(owner[f], f, d) then Free else owner[f]
  }

  lemma NothingLeft(mem: map<nat, Frame>, free: seq<nat>, owner0: map<nat, Use>, owner: map<nat, Use>, d: nat,
                    view: map<nat, seq<nat>>)
    requires Inv(mem, free, owner) && IsSpace(owner, d) && View(mem, d) == view - Range(Up(0), Up(0xA0000))
    requires owner == Dropped(owner0, d, Up(0), Up(0xA0000))
    ensures View(mem, d) == map[] && Released(owner, d) == Released(owner0, d)
  {
    assert forall v: nat | v < 160 :: v in Range(Up(0), Up(0xA0000));
  }

  lemma TornNext(owner: map<nat, Use>, d: nat, i: nat, f: nat, e: seq<Pte>)
    requires |e| == 1024 && i < 1024 && e[i].Map? && e[i].frame == f && f in owner && owner[f] == TableOf(d, i)
    requires IsSpace(owner, d)
    requires forall g | g in owner && owner[g].TableOf? && owner[g].d == d ::
               0 <= owner[g].i < 1024 && e[owner[g].i].Map? && e[owner[g].i].frame == g
    ensures f in TornMap(owner, d, i) && TornMap(owner, d, i)[f] == Other && f != d
    ensures TornMap(owner, d, i + 1) == TornMap(owner, d, i)[f := Free]
  {
  }

  lemma TornKeys(owner: map<nat, Use>, d: nat)
    ensures forall i: nat :: TornMap(owner, d, i).Keys == owner.Keys
  {
  }

  lemma TornSkip(owner: map<nat, Use>, d: nat, i: nat, e: seq<Pte>)
    requires |e| == 1024 && i < 1024 && !e[i].Map?
    requires forall g | g in owner && owner[g].TableOf? && owner[g].d == d ::
               0 <= owner[g].i < 1024 && e[owner[g].i].Map? && e[owner[g].i].frame == g
    ensures TornMap(owner, d, i + 1) == TornMap(owner, d, i)
  {
  }

  lemma TornLast(owner: map<nat, Use>, d: nat)
    requires IsSpace(owner, d)
    requires forall f | f in owner :: !(owner[f].PageOf? && owner[f].d == d)
    requires forall f | f in owner && owner[f].TableOf? && owner[f].d == d :: owner[f].i < 1024
    ensures d in TornMap(owner, d, 1024) && TornMap(owner, d, 1024)[d] == Other
    ensures TornMap(owner, d, 1024)[d := Free] == Released(owner, d)
  {
  }

  lemma TornKept(mem: map<nat, Frame>, owner: map<nat, Use>, mem': map<nat, Frame>, owner': map<nat, Use>, d: nat)
    requires mem'.Keys == mem.Keys && owner' == Released(owner, d)
    requires forall f | f in owner && f in mem && !Belongs(owner[f], f, d) :: mem'[f] == mem[f]
    ensures Kept(mem, owner, mem', owner', d)
  {
  }

  // Freeing a space that did not exist before gives back exactly the frames taken for it.
  lemma ReleaseUndoes(mem: map<nat, Frame>, free: seq<nat>, owner: map<nat, Use>, mem': map<nat, Frame>,
                      owner': map<nat, Use>, c: nat)
    requires Inv(mem, free, owner) && c in owner && owner[c] == Free && Kept(mem, owner, mem', owner', c)
    ensures Released(owner', c) == owner
  {
    forall f | f in owner
      ensures !Belongs(owner[f], f, c) && f in mem
    {
      assert FrameOk(mem, owner, f);
    }
  }

  lemma KeptContent(mem: map<nat, Frame>, free: seq<nat>, owner: map<nat, Use>, mem': map<nat, Frame>,
                    owner': map<nat, Use>, c: nat)
    requires Inv(mem, free, owner) && c in owner && owner[c] == Free && Kept(mem, owner, mem', owner', c)
    ensures forall f | f in owner && owner[f] != Free && f in mem' :: mem'[f] == mem[f]
  {
    forall f | f in owner
      ensures !Belongs(owner[f], f, c) && f in mem
    {
      assert FrameOk(mem, owner, f);
    }
  }

  // ----- setupkvm -----

  // The pages of the first k regions of kmap.
  predicate KernelPage(v: nat, data: nat, k: nat) {
    || (k >= 1 && 160 <= v < 256) || (k >= 2 && 256 <= v < data) || (k >= 3 && data <= v < 4096)
    || (k >= 4 && 0xFE000 <= v < 0x100000)
  }

  ghost predicate RegionsMapped(mem: map<nat, Frame>, d: nat, data: nat, k: nat) {
    forall v: nat | v < 0x100000 :: Entry(mem, d, v) == if KernelPage(v, data, k) then Map(v, false) else Absent
  }

  // Kernel pages are mapped one to one, and nothing else is.
  ghost predicate KernelMapped(mem: map<nat, Frame>, d: nat, data: nat) {
    forall v: nat | v < 0x100000 ::
      Entry(mem, d, v) == if 160 <= v < 4096 || 0xFE000 <= v then Map(v, false) else Absent
  }

  lemma KernelMeans(mem: map<nat, Frame>, d: nat, data: nat)
    requires KernelMapped(mem, d, data)
    ensures forall v: nat | v < 0x100000 :: Entry(mem, d, v) == if 160 <= v < 4096 || 0xFE000 <= v then Map(v, false) else Absent
  {
  }

  lemma EmptyView(mem: map<nat, Frame>, d: nat)
    requires forall v: nat | v < 160 :: Entry(mem, d, v) == Absent
    ensures View(mem, d) == map[]
  {
  }

  lemma KernelKept(mem: map<nat, Frame>, owner: map<nat, Use>, d: nat, v: nat, f: nat)
    requires TableFor(mem, d, v / 1024) in mem && IsTable(mem[TableFor(mem, d, v / 1024)])
    requires TableFor(mem, d, v / 1024) in owner && owner[TableFor(mem, d, v / 1024)] == TableOf(d, v / 1024)
    ensures Kept(mem, owner, SetEntry(mem, TableFor(mem, d, v / 1024), v % 1024, Map(f, false)), owner, d)
  {
  }

  lemma SpaceBorn(mem0: map<nat, Frame>, free0: seq<nat>, owner0: map<nat, Use>, mem: map<nat, Frame>,
                  free: seq<nat>, d: nat)
    requires Inv(mem0, free0, owner0) && d in owner0 && owner0[d] == Free && mem == mem0
    ensures Kept(mem0, owner0, mem[d := Table(NoEntries())], owner0[d := Other][d := Dir], d)
  {
    assert FrameOk(mem0, owner0, d);
  }

  // With no frame to take, nothing that is in use changes.
  lemma NothingTaken(mem: map<nat, Frame>, free: seq<nat>, owner: map<nat, Use>, mem': map<nat, Frame>,
                     owner': map<nat, Use>)
    requires Inv(mem, free, owner) && Kept(mem, owner, mem', owner', 0)
    ensures forall f | f in owner && owner[f] != Free && f in mem' :: mem'[f] == mem[f]
  {
    forall f | f in owner
      ensures !Belongs(owner[f], f, 0) && f in mem
    {
      assert FrameOk(mem, owner, f);
    }
  }

  // ----- the frames of setupkvm -----

  // The directory, the tables of the first 16M and those of the last 32M.
  const KERNEL_FRAMES: nat := 13

  function FirstFree(free: seq<nat>): nat { if free == [] then 0 else free[0] }

  lemma FirstIsFree(mem: map<nat, Frame>, free: seq<nat>, owner: map<nat, Use>)
    requires Inv(mem, free, owner)
    ensures FirstFree(free) == 0 <==> free == []
    ensures free != [] ==> FirstFree(free) in owner && owner[FirstFree(free)] == Free
  {
    if free != [] { assert free[0] in free; }
  }

  // The page tables that d lacks among lo, ..., hi - 1.
  ghost function Missing(mem: map<nat, Frame>, d: nat, lo: nat, hi: nat): nat
    decreases hi
  {
    if hi <= lo then 0 else Missing(mem, d, lo, hi - 1) + if TableFor(mem, d, hi - 1) == 0 then 1 else 0
  }

  lemma {:induction false} MissingGrows(mem: map<nat, Frame>, d: nat, lo: nat, mid: nat, hi: nat)
    requires mid <= hi
    ensures Missing(mem, d, lo, mid) <= Missing(mem, d, lo, hi)
    decreases hi
  {
    if mid < hi { MissingGrows(mem, d, lo, mid, hi - 1); }
  }

  // One past the table that the page before a is in, for pages from v on.
  function Passed(v: nat, a: nat): nat
    requires v <= a
  {
    if a == v then v / 1024 else (a - 1) / 1024 + 1
  }

  lemma PassedNone(mem: map<nat, Frame>, d: nat, v: nat)
    ensures Passed(v, v) == v / 1024 && Missing(mem, d, v / 1024, Passed(v, v)) == 0
  {
  }

  lemma MissingNext(mem: map<nat, Frame>, d: nat, v: nat, a: nat, last: nat)
    requires v <= a <= last
    ensures a / 1024 <= Passed(v, a) <= Passed(v, a + 1) == a / 1024 + 1
    ensures Missing(mem, d, v / 1024, Passed(v, a + 1)) ==
              Missing(mem, d, v / 1024, Passed(v, a))
              + if Passed(v, a) == a / 1024 && TableFor(mem, d, a / 1024) == 0 then 1 else 0
    ensures Missing(mem, d, v / 1024, Passed(v, a + 1)) <= Missing(mem, d, v / 1024, last / 1024 + 1)
  {
    hide TableFor;
    MissingGrows(mem, d, v / 1024, a / 1024 + 1, last / 1024 + 1);
  }

  // Table i maps pages of the first k regions of kmap.
  predicate KernelTable(i: nat, data: nat, k: nat) {
    || (k >= 1 && i == 0) || (k >= 2 && i <= (data - 1) / 1024) || (k >= 3 && i < 4) || (k >= 4 && 1016 <= i < 1024)
  }

  function TablesFor(data: nat, k: nat): int {
    if k == 0 then 0 else if k == 1 then 1 else if k == 2 then (data - 1) / 1024 + 1 else if k == 3 then 4 else 12
  }

  // Tables are there exactly below p.
  lemma {:induction false} MissingFrom(mem: map<nat, Frame>, d: nat, lo: nat, hi: nat, p: nat)
    requires forall i | lo <= i < hi :: TableFor(mem, d, i) == 0 <==> i >= p
    ensures Missing(mem, d, lo, hi) == if hi <= lo || hi <= p then 0 else if p <= lo then hi - lo else hi - p
    decreases hi
  {
    hide TableFor;
    if hi > lo { MissingFrom(mem, d, lo, hi - 1, p); }
  }

  // Region k of kmap, from page lo to page hi, needs as many new tables as TablesFor says.
  lemma RegionMissing(mem: map<nat, Frame>, d: nat, data: nat, k: nat, lo: nat, hi: nat)
    requires 256 < data < 4096 && k < 4 && lo < hi
    requires (lo, hi) == [(160, 256), (256, data), (data, 4096), (0xFE000, 0x100000)][k]
    requires forall i: nat | i < 1024 :: TableFor(mem, d, i) == 0 <==> !KernelTable(i, data, k)
    ensures Missing(mem, d, lo / 1024, (hi - 1) / 1024 + 1) == TablesFor(data, k + 1) - TablesFor(data, k)
  {
    hide TableFor, Missing;
    var p := if k == 0 then 0 else if k == 1 then 1 else if k == 2 then (data - 1) / 1024 + 1 else 4;
    MissingFrom(mem, d, lo / 1024, (hi - 1) / 1024 + 1, p);
  }

  lemma NextTables(i: nat, data: nat, k: nat, lo: nat, hi: nat)
    requires 256 < data < 4096 && k < 4 && lo < hi && i < 1024
    requires (lo, hi) == [(160, 256), (256, data), (data, 4096), (0xFE000, 0x100000)][k]
    ensures KernelTable(i, data, k + 1) <==> KernelTable(i, data, k) || lo / 1024 <= i <= (hi - 1) / 1024
  {
    if k == 0 {
      assert lo == 160 && hi == 256;
    } else if k == 1 {
      assert lo == 256 && hi == data;
    } else if k == 2 {
      assert lo == data && hi == 4096 && data / 1024 <= (data - 1) / 1024 + 1;
    } else {
      assert lo == 0xFE000 && hi == 0x100000;
    }
  }

  // The page tables of the first 16M and the last 32M are there.
  ghost predicate KernelTables(mem: map<nat, Frame>, d: nat) {
    forall k | 0 <= k < 4 || 1016 <= k < 1024 :: TableFor(mem, d, k) != 0
  }

  lemma KernelOnly(mem: map<nat, Frame>, free: seq<nat>, owner: map<nat, Use>, d: nat, data: nat)
    requires Inv(mem, free, owner) && KernelMapped(mem, d, data)
    ensures forall v: nat | v < 160 :: Entry(mem, d, v) == Absent
    ensures KernelTables(mem, d)
  {
    forall k | 0 <= k < 4 || 1016 <= k < 1024
      ensures TableFor(mem, d, k) != 0
    {
      var v := 1024 * k + 1023;
      assert Entry(mem, d, v).Map? && v / 1024 == k;
    }
  }

  // Page tables stay where they are while their frames keep their use.
  lemma TablesStay(mem: map<nat, Frame>, free: seq<nat>, owner: map<nat, Use>, mem': map<nat, Frame>,
                   free': seq<nat>, owner': map<nat, Use>, d: nat)
    requires Inv(mem, free, owner) && Inv(mem', free', owner') && IsSpace(owner, d)
    requires forall f | f in owner && owner[f].TableOf? && owner[f].d == d :: f in owner' && owner'[f] == owner[f]
    ensures forall k: nat | k < 1024 && TableFor(mem, d, k) != 0 :: TableFor(mem', d, k) == TableFor(mem, d, k)
    ensures KernelTables(mem, d) ==> KernelTables(mem', d)
  {
    assert FrameOk(mem, owner, d);
    forall k: nat | k < 1024 && TableFor(mem, d, k) != 0
      ensures TableFor(mem', d, k) == TableFor(mem, d, k)
    {
      assert FrameOk(mem', owner', TableFor(mem, d, k));
    }
  }

  // Every address that exec copies arguments to has a page table: below 640K, or within 32M of
  // the top when the subtraction has wrapped.
  lemma ArgumentsHaveTables(mem: map<nat, Frame>, d: nat, va: nat)
    requires KernelTables(mem, d) && (va < 0x100_0000 || 0xFE00_0000 <= va < 0x1_0000_0000)
    ensures TableFor(mem, d, va / 4096 / 1024) != 0
  {
  }

  // With one frame left, setupkvm fails and the frame is gone.
  method LastFrameLeaks() returns (m: Machine, d: nat)
    ensures m.Valid() && d == 0 && m.free == [] && 1 in m.owner && m.owner[1] != Free
  {
    m := new Machine.Kinit(1, 2);
    d := m.Setupkvm(300);
  }

  // A segment at address 0 lands in physical page 0.
  method LoadAtZero() returns (m: Machine, r: LoadResult, stray: bool)
    ensures r == Loaded && stray
  {
    m := new Machine.Kinit(1, 14);
    var d := m.Setupkvm(300);
    r, stray := m.Loaduvm(d, 0, [7], 1);
  }

  // ----- copyuvm -----

  function Pages(start: nat, end: nat): nat { if start < end then Up(end) - start / 4096 else 0 }

  // The pages copyuvm copies.
  function UserPages(heapBot: nat, sz: nat, stackLow: nat): nat
    requires heapBot >= 4096
  {
    Pages(4096, heapBot - 4096) + Pages(heapBot, sz) + Pages(stackLow, 0xA0000)
  }

  function Part(view: map<nat, seq<nat>>, lo: nat, hi: nat): map<nat, seq<nat>> {
    map v | v in view && v in Range(lo, hi) :: view[v]
  }

  // Code, heap and stack.
  function Regions(heapBot: nat, sz: nat, stackLow: nat): set<nat>
    requires heapBot >= 4096
  {
    Range(1, heapBot / 4096 - 1) + Range(heapBot / 4096, Up(sz)) + Range(stackLow / 4096, 160)
  }

  // The regions are apart, so each copy goes to pages not yet mapped.
  lemma RegionsReady(view: map<nat, seq<nat>>, heapBot: nat, sz: nat, stackLow: nat)
    requires heapBot % 4096 == 0 && stackLow % 4096 == 0 && 4096 <= heapBot <= 0xA0000 && stackLow <= 0xA0000
    requires forall v | v in Regions(heapBot, sz, stackLow) :: v in view
    requires (sz > heapBot ==> Up(sz) <= stackLow / 4096) && heapBot - 4096 <= stackLow
    ensures forall v | v in Range(4096 / 4096, Up(heapBot - 4096)) :: v in view
    ensures var p1 := map[] + Part(view, 4096 / 4096, Up(heapBot - 4096));
      && (forall v | v in Range(heapBot / 4096, Up(sz)) :: v in view && v !in p1)
      && forall v | v in Range(stackLow / 4096, Up(0xA0000)) ::
           v in view && v !in p1 + Part(view, heapBot / 4096, Up(sz))
  {
  }

  lemma RegionsWhole(view: map<nat, seq<nat>>, heapBot: nat, sz: nat, stackLow: nat)
    requires heapBot % 4096 == 0 && stackLow % 4096 == 0 && 4096 <= heapBot
    requires forall v | v in Regions(heapBot, sz, stackLow) :: v in view
    ensures map[] + Part(view, 4096 / 4096, Up(heapBot - 4096)) + Part(view, heapBot / 4096, Up(sz))
              + Part(view, stackLow / 4096, Up(0xA0000))
            == map v | v in Regions(heapBot, sz, stackLow) :: view[v]
  {
  }

  lemma PartNone(view: map<nat, seq<nat>>, from: map<nat, seq<nat>>, lo: nat, hi: nat)
    ensures lo >= hi ==> view + Part(from, lo, hi) == view
  {
  }

  lemma PartNext(view: map<nat, seq<nat>>, from: map<nat, seq<nat>>, lo: nat, v: nat)
    requires lo <= v && v in from
    ensures v !in Part(from, lo, v)
    ensures (view + Part(from, lo, v))[v := from[v]] == view + Part(from, lo, v + 1)
  {
  }

  lemma CopyFilled(mem: map<nat, Frame>, free: seq<nat>, owner: map<nat, Use>, c: nat, v: nat, f: nat, x: Frame)
    requires Inv(mem, free, owner) && IsSpace(owner, c) && f in owner && owner[f] == Other && v < 160
    requires v !in View(mem, c)
    ensures Inv(mem[f := x], free, owner) && TableFor(mem[f := x], c, 0) == TableFor(mem, c, 0)
    ensures Entry(mem[f := x], c, v) == Absent && View(mem[f := x], c) == View(mem, c)
  {
    FillFrame(mem, free, owner, f, x);
    ViewIsMapped(mem, free, owner, c, v);
  }

  lemma CopyKept(mem: map<nat, Frame>, free: seq<nat>, owner: map<nat, Use>, mem': map<nat, Frame>,
                 owner': map<nat, Use>, 
                 c: nat, v: nat, f: nat)
    requires f in owner && owner[f] == Free && owner' == owner[f := PageOf(c, v)] && mem'.Keys == mem.Keys
    requires forall g | g in mem' && g in owner' && !Belongs(owner'[g], g, c) :: mem'[g] == mem[g]
    ensures Kept(mem, owner, mem', owner', c)
  {
  }

  lemma SpacesDiffer(mem0: map<nat, Frame>, free0: seq<nat>, owner0: map<nat, Use>, mem: map<nat, Frame>,
                     owner: map<nat, Use>, d: nat, dir: nat)
    requires Inv(mem0, free0, owner0) && Kept(mem0, owner0, mem, owner, dir) && IsSpace(owner0, d)
    requires dir == 0 || (dir in owner0 && owner0[dir] == Free)
    ensures d != dir && IsSpace(owner, d) && View(mem, d) == View(mem0, d)
    ensures TableFor(mem, d, 0) == TableFor(mem0, d, 0)
  {
    KeptView(mem0, free0, owner0, mem, owner, dir, d);
  }

  // ----- copyout -----

  // Every page of the n bytes from va on.
  ghost predicate Mapped(view: map<nat, seq<nat>>, va: nat, n: nat) {
    n > 0 ==> forall v | va / 4096 <= v <= (va + n - 1) / 4096 :: v in view
  }

  // view' is view with the first n bytes of buf written from address va on.
  ghost predicate Written(view: map<nat, seq<nat>>, view': map<nat, seq<nat>>, va: nat, buf: seq<nat>, n: nat)
    requires n <= |buf|
  {
    && view'.Keys == view.Keys
    && (forall v | v in view :: |view[v]| == |view'[v]| == 4096)
    && forall v, o | v in view && 0 <= o < 4096 :: view'[v][o] ==
         (if va <= v * 4096 + o < va + n then buf[v * 4096 + o - va] else view[v][o])
  }

  lemma WrittenNext(view: map<nat, seq<nat>>, view1: map<nat, seq<nat>>, view2: map<nat, seq<nat>>, va: nat,
                    buf: seq<nat>, k: nat, n: nat, p1: seq<nat>, p2: seq<nat>)
    requires k + n <= |buf| && Written(view, view1, va, buf, k) && (va + k) % 4096 + n <= 4096
    requires (va + k) / 4096 in view
    requires view2.Keys == view1.Keys && |view2[(va + k) / 4096]| == 4096
    requires forall v | v in view2 && v != (va + k) / 4096 :: view2[v] == view1[v]
    requires p1 == view1[(va + k) / 4096] && p2 == view2[(va + k) / 4096]
    requires forall o | 0 <= o < 4096 :: p2[o] ==
               (if (va + k) % 4096 <= o < (va + k) % 4096 + n then buf[k + o - (va + k) % 4096] else p1[o])
    ensures Written(view, view2, va, buf, k + n)
  {
  }

  datatype LoadResult = Loaded | Short | Misaligned

  function Least(a: int, b: int): int { if a < b then a else b }

  // Bytes for a page that is not there.
  lemma WrittenBeside(view: map<nat, seq<nat>>, view1: map<nat, seq<nat>>, va: nat, buf: seq<nat>, k: nat, n: nat)
    requires k + n <= |buf| && Written(view, view1, va, buf, k) && (va + k) % 4096 + n <= 4096
    requires (va + k) / 4096 !in view
    ensures Written(view, view1, va, buf, k + n)
  {
  }

  lemma ViewSizes(mem: map<nat, Frame>, free: seq<nat>, owner: map<nat, Use>, d: nat)
    requires Inv(mem, free, owner) && IsSpace(owner, d)
    ensures forall v | v in View(mem, d) :: |View(mem, d)[v]| == 4096
  {
    forall v | v in View(mem, d)
      ensures |View(mem, d)[v]| == 4096
    {
      EntryOwned(mem, free, owner, d, v);
    }
  }
}
