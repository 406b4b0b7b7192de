/** The user address space of a process: code, a guard page, the heap growing up and the stack
    growing down on page faults (kernel/exec.c, trap.c, sysproc.c, proc.c). */
module AddressLayout {
  import opened PageTable
  import opened VirtualMemory
  import opened ExecImage

  const U32: nat := 0x1_0000_0000

  // The address-space fields of struct proc, and its kernel stack.
  datatype Proc = Proc(kstack: nat, dir: nat, sz: nat, heapBot: nat, stackLow: nat, maxStack: nat)

  ghost predicate BoundsOk(p: Proc) {
    && p.heapBot % 4096 == 0 && p.stackLow % 4096 == 0
    && 4096 <= p.heapBot <= p.sz <= 0xA0000 && 4096 <= p.stackLow <= 0x9F000
    && p.heapBot - 4096 <= p.stackLow
    && (p.sz > p.heapBot || p.stackLow != 0x9F000 ==> p.sz <= p.stackLow)
  }

  // The mapped pages are exactly the code, the heap and the stack.
  ghost predicate LayoutOk(view: map<nat, seq<nat>>, p: Proc) {
    BoundsOk(p) && view.Keys == Regions(p.heapBot, p.sz, p.stackLow)
  }

  ghost predicate StackOk(p: Proc) { p.maxStack == 0 || (0xA0000 - p.stackLow) / 4096 <= p.maxStack }

  // ----- what the layout means -----

  // The three regions are apart, and the page under the heap is not mapped.
  lemma RegionsApart(view: map<nat, seq<nat>>, p: Proc, v: nat)
    requires LayoutOk(view, p)
    ensures v in view <==> 1 <= v < p.heapBot / 4096 - 1 || p.heapBot / 4096 <= v < Up(p.sz) || p.stackLow / 4096 <= v < 160
    ensures !(1 <= v < p.heapBot / 4096 - 1 && p.heapBot / 4096 <= v < Up(p.sz))
    ensures !(v < p.heapBot / 4096 - 1 && p.stackLow / 4096 <= v)
    ensures !(p.heapBot / 4096 <= v < Up(p.sz) && p.stackLow / 4096 <= v)
    ensures v == p.heapBot / 4096 - 1 && v < p.stackLow / 4096 ==> v !in view
  {
    assert v in view <==> v in Regions(p.heapBot, p.sz, p.stackLow);
  }

  // exec stores heap_bot before it can fail. The old image then has the right layout exactly
  // when the new value is the old one.
  lemma LateFailure(view: map<nat, seq<nat>>, p: Proc, hb: nat)
    requires LayoutOk(view, p) && hb >= 4096 && hb % 4096 == 0
    ensures LayoutOk(view, p.(heapBot := hb)) <==> hb == p.heapBot
  {
    var q := p.(heapBot := hb);
    if LayoutOk(view, q) {
      RegionsApart(view, p, hb / 4096 - 1);
      RegionsApart(view, q, hb / 4096 - 1);
      RegionsApart(view, p, p.heapBot / 4096 - 1);
      RegionsApart(view, q, p.heapBot / 4096 - 1);
    }
  }

  // ----- arithmetic of the checks -----

  // The fault handler accepts an address in the page under the stack but not its first byte,
  // and also the lowest stack address itself.
  lemma FaultWindow(stackLow: nat, bad: nat)
    requires stackLow < U32 && bad < U32
    ensures (stackLow - bad) % U32 < 4096 <==> stackLow - 4096 < bad <= stackLow || bad > stackLow + U32 - 4096
  {
  }

  // sbrk's test is on the 32-bit sum.
  predicate SbrkRefused(p: Proc, n: int) { p.stackLow != 0 && (p.sz + n + 4096) % U32 > p.stackLow }

  // In numbers: room for a page under the stack, and not more than a page below 0.
  lemma RefusedIs(p: Proc, n: int)
    requires BoundsOk(p) && -0x8000_0000 <= n < 0x8000_0000
    ensures !SbrkRefused(p, n) <==> 0 <= p.sz + n + 4096 <= p.stackLow
  {
  }

  // The shrinks that would cut into code: those that end below the heap, but at address 0
  // only when something was mapped there.
  predicate CutsCode(p: Proc, n: int) {
    && !SbrkRefused(p, n) && n < 0 && 0 <= p.sz + n < p.heapBot
    && !(p.sz + n == 0 && p.sz == p.heapBot <= 8192)
  }

  lemma SbrkKeepsLayout(view: map<nat, seq<nat>>, p: Proc, n: int, view': map<nat, seq<nat>>, p': Proc)
    requires LayoutOk(view, p) && -0x8000_0000 <= n < 0 && !SbrkRefused(p, n)
    requires var newsz := (p.sz + n) % U32;
      && view' == (if newsz < p.sz then view - Range(Up(newsz), Up(p.sz)) else view)
      && p' == p.(sz := if newsz == 0 then p.sz else if newsz < p.sz then newsz else p.sz)
    ensures LayoutOk(view', p') <==> !CutsCode(p, n)
  {
    var s := p.sz + n;
    if s >= p.heapBot {
      forall v: nat
        ensures v in view' <==> v in Regions(p'.heapBot, p'.sz, p'.stackLow)
      {
        RegionsApart(view, p, v);
      }
    } else if s == 0 {
      forall v: nat
        ensures v in view' <==> v in view && v >= Up(p.sz)
      {
        assert v in Range(Up(0), Up(p.sz)) <==> v < Up(p.sz);
        RegionsApart(view, p, v);
      }
      if p.sz != p.heapBot { RegionsApart(view, p, p.heapBot / 4096); }
      if p.heapBot > 8192 { RegionsApart(view, p, 1); }
      if p.sz == p.heapBot <= 8192 { assert view'.Keys == view.Keys; }
    }
  }

  lemma GrowKeepsLayout(view: map<nat, seq<nat>>, p: Proc, n: int)
    requires LayoutOk(view, p) && 0 <= n < 0x8000_0000 && !SbrkRefused(p, n)
    ensures p.sz + n <= p.stackLow - 4096
    ensures LayoutOk(view + ZeroPages(Up(p.sz), Up(p.sz + n)), p.(sz := p.sz + n))
    ensures forall v | v in Range(Up(p.sz), Up(p.sz + n)) :: v !in view
  {
    var view', p' := view + ZeroPages(Up(p.sz), Up(p.sz + n)), p.(sz := p.sz + n);
    forall v: nat
      ensures v in view' <==> v in Regions(p'.heapBot, p'.sz, p'.stackLow)
      ensures v in Range(Up(p.sz), Up(p.sz + n)) ==> v !in view
    {
      RegionsApart(view, p, v);
    }
  }

  lemma StackGrowsInLayout(view: map<nat, seq<nat>>, p: Proc)
    requires LayoutOk(view, p) && p.stackLow - 4096 > p.sz
    ensures Range(Up(p.stackLow - 4096), Up(p.stackLow)) == {p.stackLow / 4096 - 1}
    ensures p.stackLow / 4096 - 1 !in view
    ensures LayoutOk(view + ZeroPages(Up(p.stackLow - 4096), Up(p.stackLow)), p.(stackLow := p.stackLow - 4096))
  {
    var view', p' := view + ZeroPages(Up(p.stackLow - 4096), Up(p.stackLow)), p.(stackLow := p.stackLow - 4096);
    RegionsApart(view, p, p.stackLow / 4096 - 1);
    forall v: nat
      ensures v in view' <==> v in Regions(p'.heapBot, p'.sz, p'.stackLow)
    {
      RegionsApart(view, p, v);
    }
  }

  // The image exec builds: code up to end, one unmapped page, an empty heap, one stack page.
  lemma ImageLayout(view: map<nat, seq<nat>>, p: Proc, d: nat, end: nat)
    requires CodeAndStack(view, end)
    ensures LayoutOk(view, NewImage(p, d, Up(end) * 4096 + 4096))
  {
    var q := NewImage(p, d, Up(end) * 4096 + 4096);
    assert forall v :: v in Regions(q.heapBot, q.sz, q.stackLow) <==> 1 <= v < Up(end) || v == 159;
  }

  // The process that exec makes of p.
  function NewImage(p: Proc, d: nat, heap: nat): Proc {
    p.(dir := d, sz := heap, heapBot := heap, stackLow := 0x9F000)
  }

  // ----- all processes -----

  ghost predicate SpaceOk(mem: map<nat, Frame>, owner: map<nat, Use>, p: Proc) {
    p.kstack in owner && owner[p.kstack] == Other && IsSpace(owner, p.dir) && TableFor(mem, p.dir, 0) != 0 && LayoutOk(View(mem, p.dir), p)
  }

  ghost predicate SpacesOk(mem: map<nat, Frame>, owner: map<nat, Use>, procs: map<nat, Proc>) {
    forall q | q in procs :: SpaceOk(mem, owner, procs[q])
  }

  ghost predicate Distinct(procs: map<nat, Proc>) {
    forall q, r | q in procs && r in procs && q != r ::
      procs[q].dir != procs[r].dir && procs[q].kstack != procs[r].kstack
  }

  // A step on address space d leaves the processes that do not use it alone.
  lemma SpacesKept(mem: map<nat, Frame>, free: seq<nat>, owner: map<nat, Use>, mem': map<nat, Frame>,
                   owner': map<nat, Use>, d: nat, procs: map<nat, Proc>)
    requires Inv(mem, free, owner) && SpacesOk(mem, owner, procs) && Kept(mem, owner, mem', owner', d)
    requires forall q | q in procs :: procs[q].dir != d
    ensures SpacesOk(mem', owner', procs)
  {
    forall q | q in procs
      ensures SpaceOk(mem', owner', procs[q])
    {
      assert SpaceOk(mem, owner, procs[q]);
      KeptView(mem, free, owner, mem', owner', d, procs[q].dir);
    }
  }

  lemma SpacesJoin(mem: map<nat, Frame>, owner: map<nat, Use>, procs: map<nat, Proc>, pid: nat, p: Proc)
    requires SpacesOk(mem, owner, procs - {pid}) && SpaceOk(mem, owner, p)
    ensures SpacesOk(mem, owner, procs[pid := p])
  {
    forall q | q in procs && q != pid
      ensures SpaceOk(mem, owner, procs[q])
    {
      assert q in procs - {pid};
    }
  }

  // A directory taken from the pool is nobody's.
  lemma FreshDir(mem: map<nat, Frame>, owner: map<nat, Use>, procs: map<nat, Proc>, d: nat)
    requires SpacesOk(mem, owner, procs) && (d == 0 || (d in owner && owner[d] == Free)) && 0 !in owner
    ensures forall q | q in procs :: procs[q].dir != d
  {
    forall q | q in procs
      ensures procs[q].dir != d
    {
      assert SpaceOk(mem, owner, procs[q]);
    }
  }

  // A frame taken from the pool, or given back by nobody who uses it, disturbs no process.
  lemma SpacesTake(mem: map<nat, Frame>, free: seq<nat>, owner: map<nat, Use>, procs: map<nat, Proc>, f: nat)
    requires Inv(mem, free, owner) && SpacesOk(mem, owner, procs) && f in owner && owner[f] == Free
    ensures SpacesOk(mem, owner[f := Other], procs)
    ensures forall q | q in procs :: procs[q].kstack != f && procs[q].dir != f
  {
    forall q | q in procs
      ensures SpaceOk(mem, owner[f := Other], procs[q]) && procs[q].kstack != f && procs[q].dir != f
    {
      assert SpaceOk(mem, owner, procs[q]);
    }
  }

  lemma SpacesGive(mem: map<nat, Frame>, free: seq<nat>, owner: map<nat, Use>, procs: map<nat, Proc>, f: nat)
    requires Inv(mem, free, owner) && SpacesOk(mem, owner, procs) && f in owner && owner[f] == Other
    requires forall q | q in procs :: procs[q].kstack != f
    ensures SpacesOk(mem[f := Junk], owner[f := Free], procs)
    ensures forall d | IsSpace(owner, d) :: View(mem[f := Junk], d) == View(mem, d)
  {
    hide View;
    FillFrame(mem, free, owner, f, Junk);
    forall q | q in procs
      ensures SpaceOk(mem[f := Junk], owner[f := Free], procs[q])
    {
      assert SpaceOk(mem, owner, procs[q]);
    }
  }

  // How many pages a process has mapped.
  function PagesOf(p: Proc): nat
    requires p.heapBot >= 4096
  {
    UserPages(p.heapBot, p.sz, p.stackLow)
  }

  // As many pages are mapped as fork copies.
  lemma PagesAre(view: map<nat, seq<nat>>, p: Proc)
    requires LayoutOk(view, p)
    ensures PagesOf(p) == |view|
  {
    hide Range;
    PagesSum(p);
    ThreeRanges(1, p.heapBot / 4096 - 1, p.heapBot / 4096, Up(p.sz), p.stackLow / 4096, 160);
    assert |view| == |view.Keys|;
  }

  lemma PagesSum(p: Proc)
    requires BoundsOk(p)
    ensures var h := p.heapBot / 4096;
      PagesOf(p) == (if 1 < h - 1 then h - 2 else 0) + (if h < Up(p.sz) then Up(p.sz) - h else 0) + (160 - p.stackLow / 4096)
    ensures p.heapBot / 4096 < Up(p.sz) ==> Up(p.sz) <= p.stackLow / 4096
    ensures p.heapBot / 4096 - 1 <= p.stackLow / 4096 < 160
  {
    WholePage(p.heapBot);
    WholePage(p.stackLow);
    UpIs(p.sz);
    hide Up;
  }

  lemma WholePage(a: nat)
    requires a % 4096 == 0
    ensures a == 4096 * (a / 4096) && Up(a) == a / 4096 && (a >= 4096 ==> Up(a - 4096) == a / 4096 - 1)
  {
  }

  lemma ThreeRanges(a: nat, b: nat, c: nat, d: nat, e: nat, f: nat)
    requires b <= c && b <= e && (c < d ==> d <= e)
    ensures |Range(a, b) + Range(c, d) + Range(e, f)|
         == (if a < b then b - a else 0) + (if c < d then d - c else 0) + (if e < f then f - e else 0)
  {
    RangeSize(a, b);
    RangeSize(c, d);
    RangeSize(e, f);
    assert Range(a, b) !! Range(c, d) && (Range(a, b) + Range(c, d)) !! Range(e, f);
  }

  lemma {:induction false} RangeSize(lo: nat, hi: nat)
    ensures |Range(lo, hi)| == if lo < hi then hi - lo else 0
    decreases hi
  {
    if lo < hi {
      RangeSize(lo, hi - 1);
      assert Range(lo, hi) == Range(lo, hi - 1) + {hi - 1};
    } else {
      assert Range(lo, hi) == {};
    }
  }

  class Tasks {
    const m: Machine
    var procs: map<nat, Proc>

    constructor (m_: Machine)
      requires m_.Valid()
      ensures Good() && m == m_ && procs == map[]
    {
      m, procs := m_, map[];
    }

    // Holds in every reachable state: each live process has its own address space, laid out right.
    ghost predicate Good()
      reads this, m
    {
      m.Valid() && Distinct(procs) && SpacesOk(m.mem, m.owner, procs)
    }

    // growproc, n > 0.
    method Grow(pid: nat, n: int) returns (ok: bool)
      requires Good() && pid in procs && 0 < n < 0x8000_0000 && !SbrkRefused(procs[pid], n)
      modifies this, m
      ensures Good()
      ensures ok <==> Up(old(procs)[pid].sz + n) - Up(old(procs)[pid].sz) <= |old(m.free)|
      ensures ok ==> procs == old(procs)[pid := old(procs)[pid].(sz := old(procs)[pid].sz + n)]
      ensures ok ==>
                View(m.mem, procs[pid].dir)
                == old(View(m.mem, procs[pid].dir)) + ZeroPages(Up(old(procs)[pid].sz), Up(procs[pid].sz))
      ensures !ok ==> procs == old(procs) && View(m.mem, procs[pid].dir) == old(View(m.mem, procs[pid].dir))
    {
      hide Inv, Kept, View, TableFor, LayoutOk, Distinct, SpacesOk, Grown, ZeroPages, Range;
      var p := procs[pid];
      SpaceOf(m.mem, m.owner, procs, pid);
      ghost var mem0, free0, owner0 := m.mem, m.free, m.owner;
      GrowKeepsLayout(View(m.mem, p.dir), p, n);
      var sz := m.Allocuvm(p.dir, p.sz, (p.sz + n) % U32);
      AllocKept(mem0, owner0, m.mem, m.owner, p.dir, p.sz, p.sz + n);
      OneChanged(mem0, free0, owner0, m.mem, m.owner, procs, pid, if sz == 0 then p else p.(sz := sz));
      if sz == 0 {
        return false;
      }
      procs := procs[pid := p.(sz := sz)];
      ok := true;
    }

    // growproc, n < 0.
    method Shrink(pid: nat, n: int) returns (ok: bool)
      requires Good() && pid in procs && -0x8000_0000 <= n < 0 && !SbrkRefused(procs[pid], n)
      modifies this, m
      ensures m.Valid() && procs.Keys == old(procs).Keys
      ensures Good() <==> !CutsCode(old(procs)[pid], n)
      ensures ok <==> old(procs)[pid].sz + n != 0
      ensures var s := old(procs)[pid].sz + n;
        && procs == (if s <= 0 then old(procs) else old(procs)[pid := old(procs)[pid].(sz := s)])
        && View(m.mem, old(procs)[pid].dir) == old(View(m.mem, procs[pid].dir))
             - (if s < 0 then {} else Range(Up(s), Up(old(procs)[pid].sz)))
    {
      hide Inv, Kept, View, TableFor, LayoutOk, Distinct, SpacesOk, Dropped, Range, Regions, CutsCode;
      var p := procs[pid];
      SpaceOf(m.mem, m.owner, procs, pid);
      ghost var mem0, free0, owner0 := m.mem, m.free, m.owner;
      var sz := m.Deallocuvm(p.dir, p.sz, (p.sz + n) % U32);
      NothingDropped(View(mem0, p.dir), Up((p.sz + n) % U32), Up(p.sz));
      SbrkKeepsLayout(View(mem0, p.dir), p, n, View(m.mem, p.dir), p.(sz := if sz == 0 then p.sz else sz));
      OneChanged(mem0, free0, owner0, m.mem, m.owner, procs, pid, p.(sz := if sz == 0 then p.sz else sz));
      if sz == 0 {
        return false;
      }
      procs := procs[pid := p.(sz := sz)];
      ok := true;
    }

    // sbrk keeps every layout except when it cuts into code.
    method Sbrk(pid: nat, n: int) returns (r: int)
      requires Good() && pid in procs && -0x8000_0000 <= n < 0x8000_0000
      modifies this, m
      ensures procs.Keys == old(procs).Keys && m.Valid()
      ensures old(procs)[pid].heapBot <= old(procs)[pid].sz
      ensures var p, s := old(procs)[pid], old(procs)[pid].sz + n;
        && (r == -1 || r == p.sz)
        && (n >= 0 ==> (r != -1 <==> s + 4096 <= p.stackLow && Up(s) - Up(p.sz) <= |old(m.free)|))
        && (n < 0 ==> (r != -1 <==> 0 <= s + 4096 <= p.stackLow && s != 0))
        && procs == (if r == -1 || s <= 0 then old(procs) else old(procs)[pid := p.(sz := s)])
      ensures var p, s := old(procs)[pid], old(procs)[pid].sz + n;
        Good() <==> !(n < 0 && 0 <= s < p.heapBot && s + 4096 <= p.stackLow && !(s == 0 && p.sz == p.heapBot <= 8192))
      ensures var p, s := old(procs)[pid], old(procs)[pid].sz + n;
        View(m.mem, p.dir) ==
          if s < 0 || s + 4096 > p.stackLow || (r == -1 && n >= 0) then old(View(m.mem, procs[pid].dir))
          else if n >= 0 then old(View(m.mem, procs[pid].dir)) + ZeroPages(Up(p.sz), Up(s))
          else old(View(m.mem, procs[pid].dir)) - Range(Up(s), Up(p.sz))
    {
      hide Inv, View, TableFor, LayoutOk, Distinct, SpacesOk, Range;
      var p := procs[pid];
      SpaceOf(m.mem, m.owner, procs, pid);
      NoneAdded(View(m.mem, p.dir), Up(p.sz));
      RefusedIs(p, n);
      if p.stackLow != 0 && (p.sz + n + 4096) % U32 > p.stackLow {
        return -1;
      }
      var ok := true;
      if n > 0 {
        ok := Grow(pid, n);
      } else if n < 0 {
        ok := Shrink(pid, n);
      }
      r := if ok then p.sz else -1;
    }

    // The page-fault branch of trap.
    method Fault(pid: nat, bad: nat) returns (handled: bool)
      requires Good() && pid in procs && bad < U32
      modifies this, m
      ensures Good()
      ensures handled <==>
                var p := old(procs)[pid];
                && p.stackLow - 4096 < bad <= p.stackLow && p.stackLow - 4096 > p.sz
                && (p.maxStack == 0 || (0xA0000 - p.stackLow) / 4096 + 1 <= p.maxStack) && old(m.free) != []
      ensures !handled ==> procs == old(procs) && View(m.mem, procs[pid].dir) == old(View(m.mem, procs[pid].dir))
      ensures handled ==> procs == old(procs)[pid := old(procs)[pid].(stackLow := old(procs)[pid].stackLow - 4096)]
      ensures handled ==> StackOk(procs[pid])
      ensures handled ==>
                View(m.mem, procs[pid].dir)
                == old(View(m.mem, procs[pid].dir))[procs[pid].stackLow / 4096 := Zeros()]
    {
      hide Inv, Kept, View, TableFor, LayoutOk, Distinct, SpacesOk, Grown;
      var p := procs[pid];
      SpaceOf(m.mem, m.owner, procs, pid);
      FaultWindow(p.stackLow, bad);
      if (p.stackLow - bad) % U32 < 4096 {
        if (p.stackLow - 4096) % U32 > p.sz {
          if p.maxStack == 0 || (0xA0000 - p.stackLow) / 4096 + 1 <= p.maxStack {
            ghost var mem0, free0, owner0 := m.mem, m.free, m.owner;
            StackGrowsInLayout(View(m.mem, p.dir), p);
            OnePage(View(m.mem, p.dir), Up(p.stackLow - 4096), Up(p.stackLow), p.stackLow / 4096 - 1);
            var r := m.Allocuvm(p.dir, p.stackLow - 4096, p.stackLow);
            AllocKept(mem0, owner0, m.mem, m.owner, p.dir, p.stackLow - 4096, p.stackLow);
            OneChanged(mem0, free0, owner0, m.mem, m.owner, procs, pid,
                       if r != 0 then p.(stackLow := p.stackLow - 4096) else p);
            if r != 0 {
              procs := procs[pid := p.(stackLow := p.stackLow - 4096)];
              return true;
            }
          }
        }
      }
      handled := false;
    }

    // exec up to the point where it stores heap_bot: the program's header, kernel mappings and the
    // one LOAD segment. On failure the frames are given back, if setupkvm had succeeded.
    method LoadImage(file: File, data: nat) returns (r: ExecResult, d: nat, sz: nat)
      requires m.Valid() && Loadable(file) && 256 < data < 4096
      modifies m
      ensures m.Valid() && Kept(old(m.mem), old(m.owner), m.mem, m.owner, FirstFree(old(m.free)))
      ensures r == LoadOutcome(|old(m.free)|, file)
      ensures r == Failed ==>
                (m.owner == old(m.owner) <==>
                 file == NoProgram || |old(m.free)| >= KERNEL_FRAMES || old(m.free) == [])
      ensures r == Done ==> file.Program? && d == FirstFree(old(m.free)) && d in old(m.owner) && old(m.owner)[d] == Free
      ensures r == Done ==> m.Ready(d) && KernelTables(m.mem, d) && sz == ImageEnd(file.segs) <= 0xA0000
      ensures r == Done ==> View(m.mem, d).Keys == Range(1, Up(sz)) && SegmentOn(View(m.mem, d), file.segs)
      ensures r == Done ==> |m.free| == |old(m.free)| - KERNEL_FRAMES - CodePages(file.segs)
    {
      hide Inv, Kept, View, TableFor, Released, Grown, Range, KernelMapped, KernelTables, SegmentOn, Written;
      ghost var mem0, free0, owner0 := m.mem, m.free, m.owner;
      KeptSelf(mem0, owner0, FirstFree(free0));
      if file == NoProgram {
        return Failed, 0, 0;
      }
      d := m.Setupkvm(data);
      if d == 0 {
        return Failed, 0, 0;
      }
      sz := 0;
      NoPages(View(m.mem, d));
      NoSegment(View(m.mem, d));
      if |file.segs| == 1 {
        r, sz := LoadSegment(d, file.segs, mem0, free0, owner0);
        if r != Done {
          return;
        }
      }
      r := Done;
    }

    // The body of exec's loop over the segments.
    method LoadSegment(d: nat, segs: seq<Segment>, ghost mem0: map<nat, Frame>, ghost free0: seq<nat>,
                       ghost owner0: map<nat, Use>) returns (r: ExecResult, sz: nat)
      requires m.Valid() && m.Ready(d) && |segs| == 1 && View(m.mem, d) == map[] && KernelTables(m.mem, d)
      requires Inv(mem0, free0, owner0) && d in owner0 && owner0[d] == Free && Kept(mem0, owner0, m.mem, m.owner, d)
      modifies m
      ensures m.Valid() && Kept(mem0, owner0, m.mem, m.owner, d)
      ensures r == LoadOutcome(|old(m.free)| + KERNEL_FRAMES, Program(segs))
      ensures r == Failed ==> m.owner == owner0
      ensures r == Done ==> m.Ready(d) && KernelTables(m.mem, d) && sz == ImageEnd(segs)
      ensures r == Done ==> View(m.mem, d).Keys == Range(1, Up(sz)) && SegmentOn(View(m.mem, d), segs)
      ensures r == Done ==> |m.free| == |old(m.free)| - CodePages(segs)
    {
      hide Inv, Kept, View, TableFor, Released, Grown, ZeroPages, Range, KernelTables, SegmentOn, Written;
      var s := segs[0];
      if s.memsz < s.filesz {
        Discard(d, mem0, free0, owner0);
        return Failed, 0;
      }
      ghost var mem1, free1, owner1 := m.mem, m.free, m.owner;
      NoPages(View(m.mem, d));
      sz := m.Allocuvm(d, 4096, s.va + s.memsz);
      AllocKept(mem1, owner1, m.mem, m.owner, d, 4096, s.va + s.memsz);
      KeptTransitive(mem0, owner0, mem1, owner1, m.mem, m.owner, d);
      if sz == 0 {
        Discard(d, mem0, free0, owner0);
        return Failed, 0;
      }
      AllocTables(mem1, free1, owner1, m.mem, m.free, m.owner, d, 4096, s.va + s.memsz);
      ZeroKeys(1, Up(sz));
      ghost var mem2, view2 := m.mem, View(m.mem, d);
      var l, stray := m.Loaduvm(d, s.va, s.data, s.filesz);
      KeptTransitive(mem0, owner0, mem2, m.owner, m.mem, m.owner, d);
      if l == Misaligned {
        return Panic, 0;
      }
      if l == Short {
        Discard(d, mem0, free0, owner0);
        return Failed, 0;
      }
      TablesStay(mem2, m.free, m.owner, m.mem, m.free, m.owner, d);
      SegmentLoaded(view2, View(m.mem, d), segs, Up(sz));
      r := Done;
    }

    // freevm of an image that is given up.
    method Discard(d: nat, ghost mem0: map<nat, Frame>, ghost free0: seq<nat>, ghost owner0: map<nat, Use>)
      requires m.Valid() && IsSpace(m.owner, d) && Inv(mem0, free0, owner0) && d in owner0 && owner0[d] == Free
      requires Kept(mem0, owner0, m.mem, m.owner, d)
      modifies m
      ensures m.Valid() && m.owner == owner0 && Kept(mem0, owner0, m.mem, m.owner, d)
    {
      hide Inv, Kept, Released;
      ghost var mem1, owner1 := m.mem, m.owner;
      m.Freevm(d);
      KeptTransitive(mem0, owner0, mem1, owner1, m.mem, m.owner, d);
      ReleaseUndoes(mem0, free0, owner0, mem1, owner1, d);
    }

    // The first stack page and the arguments, which copyout never refuses for want of a page table.
    method AddStack(d: nat, ghost sz: nat, ghost segs: seq<Segment>, args: seq<seq<nat>>) returns (r: ExecResult)
      requires m.Valid() && m.Ready(d) && KernelTables(m.mem, d) && sz <= 0xA0000 && Strings(args)
      requires View(m.mem, d).Keys == Range(1, Up(sz)) && SegmentOn(View(m.mem, d), segs)
      requires segs == [] || segs[0].va + segs[0].filesz <= sz
      modifies m
      ensures m.Valid() && m.Ready(d) && Kept(old(m.mem), old(m.owner), m.mem, m.owner, d)
      ensures r == if old(m.free) == [] then Failed else if sz > 0x9F000 then Panic
                   else if Fits(args, sz) then Done else Failed
      ensures r == Done ==> CodeAndStack(View(m.mem, d), sz) && |m.free| == |old(m.free)| - 1
      ensures r == Done ==>
                exists view0, view1 :: SegmentOn(view0, segs) && StringsOn(view0, view1, args, |args|) &&
                  Written(view1, View(m.mem, d), Bottom(args), WordBytes(Ustack(args)), 4 * (|args| + 4))
    {
      hide Inv, Kept, View, TableFor, Grown, Entry, KernelTables, Range, SegmentOn, Fits, ZeroPages;
      KeptSelf(m.mem, m.owner, d);
      ViewIsMapped(m.mem, m.free, m.owner, d, 159);
      InRange(1, 159, Up(sz));
      if Entry(m.mem, d, 159).Map? {
        return if m.free == [] then Failed else Panic;
      }
      ghost var mem0, free0, owner0, view0 := m.mem, m.free, m.owner, View(m.mem, d);
      OnlyStack(view0);
      var top := m.Allocuvm(d, 0x9F000, 0xA0000);
      AllocKept(mem0, owner0, m.mem, m.owner, d, 0x9F000, 0xA0000);
      if top == 0 {
        return Failed;
      }
      AllocTables(mem0, free0, owner0, m.mem, m.free, m.owner, d, 0x9F000, 0xA0000);
      StackAdded(view0, View(m.mem, d), segs, sz);
      ghost var mem1, owner1 := m.mem, m.owner;
      var ok := PushArgs(d, sz, args);
      KeptTransitive(mem0, owner0, mem1, owner1, m.mem, m.owner, d);
      r := if ok then Done else Failed;
    }

    // The strings, then the words above them.
    method PushArgs(d: nat, ghost sz: nat, args: seq<seq<nat>>) returns (ok: bool)
      requires m.Valid() && m.Ready(d) && KernelTables(m.mem, d) && CodeAndStack(View(m.mem, d), sz) && Strings(args)
      modifies m`mem
      ensures m.Valid() && m.Ready(d) && Kept(old(m.mem), m.owner, m.mem, m.owner, d)
      ensures CodeAndStack(View(m.mem, d), sz)
      ensures ok <==> Fits(args, sz)
      ensures ok ==>
                exists view1 :: StringsOn(old(View(m.mem, d)), view1, args, |args|) &&
                  Written(view1, View(m.mem, d), Bottom(args), WordBytes(Ustack(args)), 4 * (|args| + 4))
    {
      hide Inv, Kept, View, TableFor, KernelTables, StringsOn, Written, Mapped, Address, StringByte;
      ghost var view0 := View(m.mem, d);
      ViewSizes(m.mem, m.free, m.owner, d);
      NoStrings(view0, args);
      KeptSelf(m.mem, m.owner, d);
      var sp := 0xA0000;
      var ustack: seq<nat> := [];
      var argc := 0;
      while argc < |args|
        invariant argc <= |args| && argc <= MAXARG && Lowest(sz) <= sp == Sp(args, argc) <= 0xA0000
        invariant m.Valid() && m.Ready(d) && Kept(old(m.mem), m.owner, m.mem, m.owner, d)
        invariant KernelTables(m.mem, d) && CodeAndStack(View(m.mem, d), sz)
        invariant StringsOn(view0, View(m.mem, d), args, argc)
        invariant |ustack| == argc && forall j | 0 <= j < argc :: ustack[j] == Pointer(args, j)
      {
        SpBelow(args, argc, |args|);
        if argc >= MAXARG {
          return false;
        }
        SpBelow(args, argc + 1, |args|);
        ghost var mem1 := m.mem;
        ok, sp := PushString(d, sz, args, argc, sp, view0);
        KeptTransitive(old(m.mem), m.owner, mem1, m.owner, m.mem, m.owner, d);
        if !ok {
          return;
        }
        ustack := ustack + [sp];
        argc := argc + 1;
      }
      ghost var mem2 := m.mem;
      ok := PushWords(d, sz, args, sp, ustack, view0);
      KeptTransitive(old(m.mem), m.owner, mem2, m.owner, m.mem, m.owner, d);
    }

    // The body of exec's loop over argv.
    method PushString(d: nat, ghost sz: nat, args: seq<seq<nat>>, argc: nat, sp: nat, ghost view0: map<nat, seq<nat>>)
      returns (ok: bool, sp': nat)
      requires m.Valid() && m.Ready(d) && KernelTables(m.mem, d) && CodeAndStack(View(m.mem, d), sz) && Strings(args)
      requires argc < |args| && Lowest(sz) <= sp == Sp(args, argc) <= 0xA0000
      requires StringsOn(view0, View(m.mem, d), args, argc)
      modifies m`mem
      ensures m.Valid() && m.Ready(d) && Kept(old(m.mem), m.owner, m.mem, m.owner, d)
      ensures CodeAndStack(View(m.mem, d), sz)
      ensures ok <==> Sp(args, argc + 1) >= Lowest(sz)
      ensures ok ==> KernelTables(m.mem, d) && sp' == Sp(args, argc + 1) && StringsOn(view0, View(m.mem, d), args, argc + 1)
    {
      hide Inv, Kept, View, TableFor, KernelTables, StringsOn, Written, Mapped, Address, StringByte;
      ghost var mem1, view1 := m.mem, View(m.mem, d);
      PieceMapped(view1, sz, Sp(args, argc + 1), |args[argc]| + 1, sp);
      sp' := Address(Aligned(sp - |args[argc]| - 1));
      ArgumentsHaveTables(m.mem, d, sp');
      var c;
      ghost var done;
      c, done := m.Copyout(d, sp', args[argc] + [0]);
      assert c != Crashed;
      SamePages(view1, View(m.mem, d), sz, sp', args[argc] + [0], done);
      ok := c == Copied;
      if ok {
        TablesStay(mem1, m.free, m.owner, m.mem, m.free, m.owner, d);
        StringPushed(view0, view1, View(m.mem, d), args, argc);
      }
    }

    // ustack goes below the strings.
    method PushWords(d: nat, ghost sz: nat, args: seq<seq<nat>>, sp: nat, pointers: seq<nat>,
                     ghost view0: map<nat, seq<nat>>) returns (ok: bool)
      requires m.Valid() && m.Ready(d) && KernelTables(m.mem, d) && CodeAndStack(View(m.mem, d), sz)
      requires |args| <= MAXARG && Lowest(sz) <= sp == Sp(args, |args|)
      requires |pointers| == |args| && forall j | 0 <= j < |args| :: pointers[j] == Pointer(args, j)
      requires StringsOn(view0, View(m.mem, d), args, |args|)
      modifies m`mem
      ensures m.Valid() && m.Ready(d) && Kept(old(m.mem), m.owner, m.mem, m.owner, d)
      ensures CodeAndStack(View(m.mem, d), sz)
      ensures ok <==> Fits(args, sz)
      ensures ok ==>
                exists view1 :: StringsOn(view0, view1, args, |args|) &&
                  Written(view1, View(m.mem, d), Bottom(args), WordBytes(Ustack(args)), 4 * (|args| + 4))
    {
      hide Inv, Kept, View, TableFor, KernelTables, StringsOn, Written, Mapped, Address, StringByte;
      ghost var view1 := View(m.mem, d);
      var argc := |args|;
      var ustack: seq<nat> := [0xffff_ffff, argc, sp - 4 * (argc + 1)] + pointers + [0];
      assert ustack == Ustack(args);
      PieceMapped(view1, sz, Bottom(args), 4 * (argc + 4), sp);
      var at := Address(sp - 4 * (argc + 4));
      ArgumentsHaveTables(m.mem, d, at);
      var c;
      ghost var done;
      c, done := m.Copyout(d, at, WordBytes(ustack));
      assert c != Crashed;
      SamePages(view1, View(m.mem, d), sz, at, WordBytes(ustack), done);
      ok := c == Copied;
    }

    // A new image, or the old one with heap_bot overwritten. What happens is known beforehand
    // from the number of free frames, the program and its arguments.
    method Exec(pid: nat, file: File, args: seq<seq<nat>>, data: nat) returns (r: ExecResult)
      requires Good() && pid in procs && Loadable(file) && Strings(args) && 256 < data < 4096
      modifies this, m
      ensures m.Valid() && procs.Keys == old(procs).Keys
      ensures r == ExecOutcome(|old(m.free)|, file, args)
      ensures r == Done ==> Good() && file.Program? && Bottom(args) >= 0
      ensures r == Done ==>
                var h := HeapStart(file.segs);
                procs == old(procs)[pid := old(procs)[pid].(dir := FirstFree(old(m.free)), sz := h, heapBot := h, stackLow := 0x9F000)]
      ensures r == Done ==> View(m.mem, procs[pid].dir) == ImageView(file.segs, args)
      ensures r == Failed ==>
                var hb := if LoadOutcome(|old(m.free)|, file) == Done then HeapStart(file.segs) else old(procs)[pid].heapBot;
                procs == old(procs)[pid := old(procs)[pid].(heapBot := hb)]
      ensures r == Failed ==> View(m.mem, procs[pid].dir) == old(View(m.mem, procs[pid].dir))
      ensures r == Failed ==>
                (m.owner == old(m.owner) <==>
                 file == NoProgram || |old(m.free)| >= KERNEL_FRAMES || old(m.free) == [])
      ensures r == Failed ==>
                (Good() <==>
                 LoadOutcome(|old(m.free)|, file) != Done || HeapStart(file.segs) == old(procs)[pid].heapBot)
    {
      hide Inv, Kept, View, TableFor, LayoutOk, Distinct, SpacesOk, Released, Range, KernelTables, SegmentOn;
      hide StringsOn, Written, ImageView, Fits, CodeAndStack, Up, CodePages, ImageEnd, Bottom, Entry;
      ghost var mem0, free0, owner0, dir := m.mem, m.free, m.owner, FirstFree(m.free);
      var p := procs[pid];
      SpaceOf(m.mem, m.owner, procs, pid);
      FirstIsFree(mem0, free0, owner0);
      var d, sz;
      r, d, sz := LoadImage(file, data);
      PoolHasNoNull(mem0, free0, owner0);
      FreshDir(mem0, owner0, procs, dir);
      SpacesKept(mem0, free0, owner0, m.mem, m.owner, dir, procs);
      KeptView(mem0, free0, owner0, m.mem, m.owner, dir, p.dir);
      HeapBotStored(m.mem, m.owner, procs, pid, p.heapBot);
      if r != Done {
        return;
      }
      ghost var end := sz;
      sz := Up(sz) * 4096;
      sz := sz + 4096;
      HeapBotStored(m.mem, m.owner, procs, pid, sz);
      procs := procs[pid := p.(heapBot := sz)];
      ghost var mem1, owner1 := m.mem, m.owner;
      SegmentEnds(file.segs);
      r := AddStack(d, end, file.segs, args);
      KeptTransitive(mem0, owner0, mem1, owner1, m.mem, m.owner, d);
      if r == Panic {
        return;
      }
      SpacesKept(mem0, free0, owner0, m.mem, m.owner, d, old(procs));
      if r == Failed {
        Discard(d, mem0, free0, owner0);
        SpacesKept(mem0, free0, owner0, m.mem, m.owner, d, old(procs));
        KeptView(mem0, free0, owner0, m.mem, m.owner, d, p.dir);
        HeapBotStored(m.mem, m.owner, old(procs), pid, sz);
        return;
      }
      ImageIs(View(m.mem, d), file.segs, args, end);
      ImageLayout(View(m.mem, d), p, d, end);
      CommitImage(pid, d, sz, old(procs));
    }

    // The last part of exec: take on the new image and free the old one.
    method CommitImage(pid: nat, d: nat, sz: nat, ghost procs0: map<nat, Proc>)
      requires m.Valid() && m.Ready(d) && pid in procs && pid in procs0 && SpacesOk(m.mem, m.owner, procs0)
      requires Distinct(procs0) && forall q | q in procs0 :: procs0[q].dir != d
      requires procs == procs0[pid := procs0[pid].(heapBot := sz)]
      requires LayoutOk(View(m.mem, d), NewImage(procs0[pid], d, sz))
      modifies this, m
      ensures Good() && procs == procs0[pid := NewImage(procs0[pid], d, sz)]
      ensures View(m.mem, d) == old(View(m.mem, d))
    {
      hide Inv, Kept, View, TableFor, LayoutOk, Distinct, SpacesOk, Released;
      var p := procs[pid];
      ghost var q := NewImage(procs0[pid], d, sz);
      procs := procs[pid := p.(dir := d, sz := sz, stackLow := 0x9F000)];
      SpaceOf(m.mem, m.owner, procs0, pid);
      Commit(m.mem, m.owner, procs0, pid, q);
      ghost var mem2, free2, owner2 := m.mem, m.free, m.owner;
      m.Freevm(p.dir);
      NotOldDir(procs0, pid, procs, p.dir, d);
      SpacesKept(mem2, free2, owner2, m.mem, m.owner, p.dir, procs);
      KeptView(mem2, free2, owner2, m.mem, m.owner, p.dir, d);
    }

    // sys_new_exec: the limit is stored before exec is tried.
    method NewExec(pid: nat, mx: nat, file: File, args: seq<seq<nat>>, data: nat) returns (r: ExecResult)
      requires Good() && pid in procs && Loadable(file) && Strings(args) && 256 < data < 4096
      modifies this, m
      ensures m.Valid() && procs.Keys == old(procs).Keys
      ensures r == ExecOutcome(|old(m.free)|, file, args)
      ensures r == Done ==> Good() && StackOk(procs[pid]) && file.Program? && Bottom(args) >= 0
      ensures r == Done ==>
                var h := HeapStart(file.segs);
                procs == old(procs)[pid := Proc(old(procs)[pid].kstack, FirstFree(old(m.free)), h, h, 0x9F000, mx)]
      ensures r == Done ==> View(m.mem, procs[pid].dir) == ImageView(file.segs, args)
      ensures r == Failed ==>
                (StackOk(procs[pid]) <==> mx == 0 || (0xA0000 - old(procs)[pid].stackLow) / 4096 <= mx)
      ensures r == Failed ==>
                (Good() <==>
                 LoadOutcome(|old(m.free)|, file) != Done || HeapStart(file.segs) == old(procs)[pid].heapBot)
    {
      hide Inv, View, TableFor, LayoutOk, Distinct, SpacesOk, ImageView, Fits;
      LimitStored(m.mem, m.owner, procs, pid, mx);
      procs := procs[pid := procs[pid].(maxStack := mx)];
      r := Exec(pid, file, args, data);
      assert r == Done ==> procs == old(procs)[pid := procs[pid]];
    }

    // fork: a kernel stack, then an address space with the same bytes on other frames. It is made
    // exactly when there are frames for the stack, the kernel's mappings and every page. The
    // child's process number is not in use.
    method Fork(pid: nat, child: nat, data: nat) returns (ok: bool)
      requires Good() && pid in procs && child !in procs && 256 < data < 4096
      modifies this, m
      ensures Good()
      ensures ok <==> |old(m.free)| >= 14 + |old(View(m.mem, procs[pid].dir))|
      ensures ok ==> |m.free| == |old(m.free)| - 14 - |old(View(m.mem, procs[pid].dir))|
      ensures ok ==>
                procs == old(procs)[child := old(procs)[pid].(kstack := old(m.free)[0], dir := old(m.free)[1])]
      ensures ok ==> View(m.mem, procs[child].dir) == old(View(m.mem, procs[pid].dir))
      ensures ok ==> (StackOk(procs[child]) <==> StackOk(old(procs)[pid]))
      ensures !ok ==> procs == old(procs)
      ensures !ok ==> (m.owner == old(m.owner) <==> |old(m.free)| <= 1 || |old(m.free)| >= 14)
      ensures |old(m.free)| <= 13 ==> m.free == old(m.free)[..if old(m.free) == [] then 0 else 1]
      ensures View(m.mem, old(procs)[pid].dir) == old(View(m.mem, procs[pid].dir))
    {
      hide Inv, Kept, View, TableFor, Distinct, SpacesOk, Pages, Range;
      ghost var mem0, free0, owner0 := m.mem, m.free, m.owner;
      var p := procs[pid];
      SpaceOf(m.mem, m.owner, procs, pid);
      PagesAre(View(mem0, p.dir), p);
      var k := m.Kalloc();
      if k == 0 {
        return false;
      }
      SpacesTake(mem0, free0, owner0, procs, k);
      ghost var mem1, free1, owner1 := m.mem, m.free, m.owner;
      FirstIsFree(mem1, free1, owner1);
      var c := m.Copyuvm(p.dir, p.heapBot, p.sz, p.stackLow, data);
      PoolHasNoNull(mem1, free1, owner1);
      FreshDir(mem1, owner1, procs, FirstFree(free1));
      SpacesKept(mem1, free1, owner1, m.mem, m.owner, FirstFree(free1), procs);
      OtherKept(mem1, free1, owner1, m.mem, m.owner, FirstFree(free1), k);
      if c == 0 {
        GivenBack(owner0, owner1, m.owner, k);
        SpacesGive(m.mem, m.free, m.owner, procs, k);
        m.Kfree(k);
        return false;
      }
      WholeView(View(mem1, p.dir), Regions(p.heapBot, p.sz, p.stackLow));
      SpaceAdded(m.mem, m.owner, procs, child, p.(kstack := k, dir := c));
      procs := procs[child := p.(kstack := k, dir := c)];
      ok := true;
    }

    // wait frees the kernel stack and the address space of a zombie.
    method Reap(pid: nat)
      requires Good() && pid in procs
      modifies this, m
      ensures Good() && procs == old(procs) - {pid}
      ensures m.owner == Released(old(m.owner), old(procs)[pid].dir)[old(procs)[pid].kstack := Free]
    {
      hide Inv, Kept, View, TableFor, LayoutOk, SpacesOk;
      ghost var mem0, free0, owner0 := m.mem, m.free, m.owner;
      var p := procs[pid];
      SpaceOf(m.mem, m.owner, procs, pid);
      SpacesWithout(mem0, owner0, procs, pid);
      procs := procs - {pid};
      SpacesGive(mem0, free0, owner0, procs, p.kstack);
      m.Kfree(p.kstack);
      ghost var mem1, free1, owner1 := m.mem, m.free, m.owner;
      m.Freevm(p.dir);
      SpacesKept(mem1, free1, owner1, m.mem, m.owner, p.dir, procs);
    }

    // The frame that pipealloc takes for a pipe.
    method PipeFrame() returns (f: nat)
      requires Good()
      modifies m
      ensures Good() && (f == 0 <==> old(m.free) == [])
      ensures m.free == if f == 0 then old(m.free) else old(m.free)[1..]
      ensures forall q | q in procs :: View(m.mem, procs[q].dir) == old(View(m.mem, procs[q].dir))
    {
      hide Inv, View, TableFor, LayoutOk, Distinct, SpacesOk;
      ghost var mem0, free0, owner0 := m.mem, m.free, m.owner;
      f := m.Kalloc();
      if f != 0 { SpacesTake(mem0, free0, owner0, procs, f); }
    }

    // The first process: userinit gives it a kernel stack and an address space with one page of
    // code at address 0, which its first exec replaces.
    method Boot(pid: nat, init: seq<nat>, file: File, args: seq<seq<nat>>, data: nat) returns (ok: bool)
      requires Good() && procs == map[] && |init| == 4096 && Loadable(file) && Strings(args) && 256 < data < 4096
      modifies this, m
      ensures ok <==> |old(m.free)| >= 2 + KERNEL_FRAMES && ExecOutcome(|old(m.free)| - 2 - KERNEL_FRAMES, file, args) == Done
      ensures ok ==> Good() && file.Program? && Bottom(args) >= 0 && procs.Keys == {pid}
      ensures ok ==>
                var h := HeapStart(file.segs); procs[pid] == Proc(old(m.free)[0], procs[pid].dir, h, h, 0x9F000, 0)
      ensures ok ==> View(m.mem, procs[pid].dir) == ImageView(file.segs, args)
      ensures ok ==> |m.free| == |old(m.free)| - 2 - KERNEL_FRAMES - CodePages(file.segs)
    {
      hide Inv, Kept, View, TableFor, LayoutOk, Released, Range, KernelTables, SegmentOn, KernelMapped;
      hide StringsOn, Written, ImageView, Fits, CodeAndStack;
      var k := m.Kalloc();
      if k == 0 {
        return false;
      }
      ghost var mem0, free0, owner0 := m.mem, m.free, m.owner;
      var d0 := FirstSpace(init, k, data);
      if d0 == 0 {
        return false;
      }
      var d;
      ok, d := FirstExec(d0, k, mem0, free0, owner0, file, args, data);
      if ok {
        var heap := HeapStart(file.segs);
        ImageLayout(View(m.mem, d), Proc(k, 0, 0, 0, 0, 0), d, ImageEnd(file.segs));
        procs := map[pid := Proc(k, d, heap, heap, 0x9F000, 0)];
      }
    }

    // Its exec, from space d0 to d.
    method FirstExec(d0: nat, ghost k: nat, ghost mem0: map<nat, Frame>, ghost free0: seq<nat>,
                     ghost owner0: map<nat, Use>, file: File, args: seq<seq<nat>>, data: nat)
      returns (ok: bool, d: nat)
      requires m.Valid() && m.Ready(d0) && Loadable(file) && Strings(args) && 256 < data < 4096
      requires k in m.owner && m.owner[k] == Other && Inv(mem0, free0, owner0)
      requires d0 in owner0 && owner0[d0] == Free && Kept(mem0, owner0, m.mem, m.owner, d0)
      modifies m
      ensures ok <==> ExecOutcome(|old(m.free)|, file, args) == Done
      ensures ok ==> m.Valid() && m.Ready(d) && k in m.owner && m.owner[k] == Other && file.Program? && Bottom(args) >= 0
      ensures ok ==> View(m.mem, d) == ImageView(file.segs, args) && CodeAndStack(View(m.mem, d), ImageEnd(file.segs))
      ensures ok ==> |m.free| == |free0| - 1 - KERNEL_FRAMES - CodePages(file.segs)
    {
      hide Inv, Kept, View, TableFor, LayoutOk, Released, Range, KernelTables, SegmentOn, KernelMapped;
      hide StringsOn, Written, ImageView, Fits, CodeAndStack;
      ghost var mem1, free1, owner1 := m.mem, m.free, m.owner;
      FirstIsFree(mem1, free1, owner1);
      var r, sz;
      r, d, sz := LoadImage(file, data);
      OtherKept(mem1, free1, owner1, m.mem, m.owner, FirstFree(free1), k);
      if r != Done {
        return false, 0;
      }
      KeptView(mem1, free1, owner1, m.mem, m.owner, d, d0);
      ghost var mem2, free2, owner2 := m.mem, m.free, m.owner;
      SegmentEnds(file.segs);
      r := AddStack(d, sz, file.segs, args);
      OtherKept(mem2, free2, owner2, m.mem, m.owner, d, k);
      KeptView(mem2, free2, owner2, m.mem, m.owner, d, d0);
      if r != Done {
        return false, 0;
      }
      ghost var mem3, free3, owner3 := m.mem, m.free, m.owner;
      ImageIs(View(m.mem, d), file.segs, args, sz);
      m.Freevm(d0);
      KeptTransitive(mem1, owner1, mem2, owner2, mem3, owner3, d);
      FramesBack(mem0, free0, owner0, mem1, free1, owner1, mem3, free3, owner3, m.mem, m.free, d0, d);
      KeptView(mem3, free3, owner3, m.mem, m.owner, d0, d);
      OtherKept(mem3, free3, owner3, m.mem, m.owner, d0, k);
      ok := true;
    }

    // setupkvm and inituvm for the first process.
    method FirstSpace(init: seq<nat>, ghost k: nat, data: nat) returns (d: nat)
      requires m.Valid() && |init| == 4096 && 256 < data < 4096 && k in m.owner && m.owner[k] == Other
      modifies m
      ensures m.Valid() && k in m.owner && m.owner[k] == Other
      ensures d != 0 <==> |old(m.free)| >= 1 + KERNEL_FRAMES
      ensures d != 0 ==> m.Ready(d) && |m.free| == |old(m.free)| - 1 - KERNEL_FRAMES
      ensures d != 0 ==> d in old(m.owner) && old(m.owner)[d] == Free && Kept(old(m.mem), old(m.owner), m.mem, m.owner, d)
    {
      hide Inv, Kept, View, TableFor, KernelTables, KernelMapped;
      ghost var mem0, free0, owner0 := m.mem, m.free, m.owner;
      d := m.Setupkvm(data);
      OtherKept(mem0, free0, owner0, m.mem, m.owner, FirstFree(free0), k);
      if d == 0 {
        return;
      }
      ghost var mem1, free1, owner1 := m.mem, m.free, m.owner;
      var f := m.Kalloc();
      if f == 0 {
        return 0;
      }
      ViewTaken(mem1, free1, owner1, d, f);
      CopyFilled(m.mem, m.free, m.owner, d, 0, f, Bytes(init));
      m.mem := m.mem[f := Bytes(init)];
      m.MapUser(d, 0, f);
      CopyKept(mem1, free1, owner1, m.mem, m.owner, d, 0, f);
      KeptTransitive(mem0, owner0, mem1, owner1, m.mem, m.owner, d);
    }
  }

  lemma SpaceOf(mem: map<nat, Frame>, owner: map<nat, Use>, procs: map<nat, Proc>, pid: nat)
    requires SpacesOk(mem, owner, procs) && pid in procs
    ensures SpaceOk(mem, owner, procs[pid]) && BoundsOk(procs[pid])
  {
    assert SpaceOk(mem, owner, procs[pid]);
  }

  lemma AllocKept(mem: map<nat, Frame>, owner: map<nat, Use>, mem': map<nat, Frame>, owner': map<nat, Use>,
                  d: nat, oldsz: nat, newsz: nat)
    requires Kept(mem, owner, mem', owner', d) || Grown(mem, owner, mem', owner', d, Up(oldsz), Up(newsz))
    ensures Kept(mem, owner, mem', owner', d)
  {
  }

  lemma NothingDropped(view: map<nat, seq<nat>>, lo: nat, hi: nat)
    ensures lo >= hi ==> view - Range(lo, hi) == view && Range(lo, hi) == {}
    ensures view - {} == view
  {
  }

  lemma NoneAdded(view: map<nat, seq<nat>>, lo: nat)
    ensures view + ZeroPages(lo, lo) == view && view - {} == view
  {
  }

  lemma OnePage(view: map<nat, seq<nat>>, lo: nat, hi: nat, v: nat)
    requires Range(lo, hi) == {v}
    ensures view + ZeroPages(lo, hi) == view[v := Zeros()] && lo == v && hi == v + 1
  {
    assert v in Range(lo, hi);
    assert lo in Range(lo, hi);
    assert hi - 1 in Range(lo, hi);
  }

  // After a step on one process's own address space the state is good again exactly when that
  // process's layout is.
  lemma OneChanged(mem: map<nat, Frame>, free: seq<nat>, owner: map<nat, Use>, mem': map<nat, Frame>,
                   owner': map<nat, Use>, procs: map<nat, Proc>, pid: nat, p: Proc)
    requires Inv(mem, free, owner) && SpacesOk(mem, owner, procs) && Distinct(procs) && pid in procs
    requires p.dir == procs[pid].dir && p.kstack == procs[pid].kstack && Kept(mem, owner, mem', owner', p.dir)
    requires IsSpace(owner', p.dir) && TableFor(mem', p.dir, 0) != 0
    ensures Distinct(procs[pid := p])
    ensures SpacesOk(mem', owner', procs[pid := p]) <==> LayoutOk(View(mem', p.dir), p)
    ensures p == procs[pid] ==> procs[pid := p] == procs
  {
    hide Inv, Kept, View, TableFor, LayoutOk;
    var others := procs - {pid};
    assert SpaceOk(mem, owner, procs[pid]);
    OtherKept(mem, free, owner, mem', owner', p.dir, p.kstack);
    SpacesKept(mem, free, owner, mem', owner', p.dir, others);
    if LayoutOk(View(mem', p.dir), p) {
      SpacesJoin(mem', owner', procs, pid, p);
    }
    if SpacesOk(mem', owner', procs[pid := p]) {
      assert SpaceOk(mem', owner', procs[pid := p][pid]);
    }
  }

  // ----- exec -----

  // At most one LOAD segment, which does not reach around the top of the address space.
  ghost predicate Loadable(file: File) {
    file.Program? ==> |file.segs| <= 1 && (file.segs != [] ==> file.segs[0].va + file.segs[0].memsz < U32)
  }

  lemma NoSegment(view: map<nat, seq<nat>>)
    requires view == map[]
    ensures SegmentOn(view, [])
  {
  }

  lemma ZeroKeys(lo: nat, hi: nat)
    ensures (map[] + ZeroPages(lo, hi)).Keys == Range(lo, hi)
    ensures forall v :: v in Range(lo, hi) <==> lo <= v < hi
  {
  }

  lemma InRange(lo: nat, v: nat, hi: nat)
    ensures v in Range(lo, hi) <==> lo <= v < hi
  {
  }

  // What loaduvm writes into zeroed pages.
  lemma SegmentLoaded(view0: map<nat, seq<nat>>, view: map<nat, seq<nat>>, segs: seq<Segment>, hi: nat)
    requires |segs| == 1 && view0 == map[] + ZeroPages(1, hi)
    requires segs[0].filesz <= |segs[0].data| && Written(view0, view, segs[0].va, segs[0].data, segs[0].filesz)
    ensures SegmentOn(view, segs)
  {
  }

  lemma SegmentEnds(segs: seq<Segment>)
    ensures segs != [] && segs[0].filesz <= segs[0].memsz ==> segs[0].va + segs[0].filesz <= ImageEnd(segs)
  {
  }

  lemma OnlyStack(view: map<nat, seq<nat>>)
    ensures Up(0x9F000) == 159 && Up(0xA0000) == 160 && forall v | v in Range(159, 160) :: v == 159
  {
  }

  // The zeroed stack page lies beyond the segment.
  lemma StackAdded(view0: map<nat, seq<nat>>, view: map<nat, seq<nat>>, segs: seq<Segment>, sz: nat)
    requires view0.Keys == Range(1, Up(sz)) && view == view0 + ZeroPages(159, 160) && 159 !in view0
    requires SegmentOn(view0, segs) && (segs == [] || segs[0].va + segs[0].filesz <= sz) && sz <= 0xA0000
    ensures sz <= 0x9F000 && CodeAndStack(view, sz) && SegmentOn(view, segs)
  {
    InRange(1, 159, Up(sz));
    forall v: nat
      ensures v in view <==> 1 <= v < Up(sz) || v == 159
    {
      InRange(1, v, Up(sz));
      InRange(159, v, 160);
    }
  }

  lemma SamePages(view: map<nat, seq<nat>>, view': map<nat, seq<nat>>, sz: nat, a: nat, buf: seq<nat>, n: nat)
    requires CodeAndStack(view, sz) && n <= |buf| && Written(view, view', a, buf, n)
    ensures CodeAndStack(view', sz)
  {
  }

  lemma ImageIs(view: map<nat, seq<nat>>, segs: seq<Segment>, args: seq<seq<nat>>, end: nat)
    requires CodeAndStack(view, end) && end == ImageEnd(segs) && Fits(args, end)
    requires exists view0, view1 :: SegmentOn(view0, segs) && StringsOn(view0, view1, args, |args|) &&
               Written(view1, view, Bottom(args), WordBytes(Ustack(args)), 4 * (|args| + 4))
    ensures Bottom(args) >= 0 && view == ImageView(segs, args)
  {
    hide SegmentOn, StringsOn, Written;
    var view0, view1 :| SegmentOn(view0, segs) && StringsOn(view0, view1, args, |args|)
      && Written(view1, view, Bottom(args), WordBytes(Ustack(args)), 4 * (|args| + 4));
    WholeImage(view0, view1, view, segs, args);
  }

  // A page table keeps its place when pages are added.
  lemma AllocTables(mem: map<nat, Frame>, free: seq<nat>, owner: map<nat, Use>, mem': map<nat, Frame>,
                    free': seq<nat>, owner': map<nat, Use>, d: nat, oldsz: nat, newsz: nat)
    requires Inv(mem, free, owner) && Inv(mem', free', owner') && IsSpace(owner, d) && KernelTables(mem, d)
    requires owner' == owner || Grown(mem, owner, mem', owner', d, Up(oldsz), Up(newsz))
    ensures KernelTables(mem', d)
  {
    TablesStay(mem, free, owner, mem', free', owner', d);
  }

  // A frame in use outside the address spaces stays so.
  lemma OtherKept(mem: map<nat, Frame>, free: seq<nat>, owner: map<nat, Use>, mem': map<nat, Frame>,
                  owner': map<nat, Use>, d: nat, k: nat)
    requires Inv(mem, free, owner) && Kept(mem, owner, mem', owner', d) && k in owner && owner[k] == Other
    ensures k in owner' && owner'[k] == Other
  {
    assert FrameOk(mem, owner, k);
  }

  lemma GivenBack(owner0: map<nat, Use>, owner1: map<nat, Use>, owner2: map<nat, Use>, k: nat)
    requires k in owner0 && owner0[k] == Free && owner1 == owner0[k := Other] && k in owner2 && owner2[k] == Other
    ensures owner2[k := Free] == owner0 <==> owner2 == owner1
  {
    assert owner1[k := Free] == owner0;
    if owner2[k := Free] == owner0 {
      assert owner2 == owner2[k := Free][k := Other];
    }
  }

  lemma NoPages(view: map<nat, seq<nat>>)
    requires view == map[]
    ensures view == ZeroPages(1, Up(0)) == ZeroPages(1, Up(4096))
    ensures forall lo: nat, hi: nat :: view + ZeroPages(lo, hi) == ZeroPages(lo, hi)
  {
  }

  lemma PoolHasNoNull(mem: map<nat, Frame>, free: seq<nat>, owner: map<nat, Use>)
    requires Inv(mem, free, owner)
    ensures 0 !in owner
  {
  }

  // Storing heap_bot in the old process.
  lemma HeapBotStored(mem: map<nat, Frame>, owner: map<nat, Use>, procs: map<nat, Proc>, pid: nat, hb: nat)
    requires pid in procs && SpacesOk(mem, owner, procs) && Distinct(procs) && hb >= 4096 && hb % 4096 == 0
    ensures Distinct(procs[pid := procs[pid].(heapBot := hb)])
    ensures SpacesOk(mem, owner, procs[pid := procs[pid].(heapBot := hb)]) <==> hb == procs[pid].heapBot
    ensures hb == procs[pid].heapBot ==> procs[pid := procs[pid].(heapBot := hb)] == procs
  {
    hide View, TableFor, LayoutOk;
    var q := procs[pid].(heapBot := hb);
    assert SpaceOk(mem, owner, procs[pid]);
    LateFailure(View(mem, q.dir), procs[pid], hb);
    if SpacesOk(mem, owner, procs[pid := q]) {
      assert SpaceOk(mem, owner, procs[pid := q][pid]);
    }
    assert hb == procs[pid].heapBot ==> procs[pid := q] == procs;
  }

  lemma Commit(mem: map<nat, Frame>, owner: map<nat, Use>, procs: map<nat, Proc>, pid: nat, q: Proc)
    requires pid in procs && SpacesOk(mem, owner, procs) && Distinct(procs) && SpaceOk(mem, owner, q)
    requires q.kstack == procs[pid].kstack && forall r | r in procs :: procs[r].dir != q.dir
    ensures SpacesOk(mem, owner, procs[pid := q]) && Distinct(procs[pid := q])
    ensures procs[pid := procs[pid].(heapBot := q.heapBot)][pid := q] == procs[pid := q]
  {
  }

  lemma NotOldDir(procs: map<nat, Proc>, pid: nat, procs': map<nat, Proc>, dir: nat, d: nat)
    requires Distinct(procs) && pid in procs && procs[pid].dir == dir != d && pid in procs' && procs'[pid].dir == d
    requires procs' == procs[pid := procs'[pid]]
    ensures forall q | q in procs' :: procs'[q].dir != dir
  {
  }

  lemma LimitStored(mem: map<nat, Frame>, owner: map<nat, Use>, procs: map<nat, Proc>, pid: nat, mx: nat)
    requires pid in procs && SpacesOk(mem, owner, procs) && Distinct(procs)
    ensures SpacesOk(mem, owner, procs[pid := procs[pid].(maxStack := mx)])
    ensures Distinct(procs[pid := procs[pid].(maxStack := mx)])
  {
    hide View, TableFor;
    var q := procs[pid].(maxStack := mx);
    assert SpaceOk(mem, owner, procs[pid]);
    assert SpaceOk(mem, owner, q);
  }

  lemma WholeView(view: map<nat, seq<nat>>, pages: set<nat>)
    requires view.Keys == pages
    ensures (map v | v in pages :: view[v]) == view
  {
  }

  lemma SpaceAdded(mem: map<nat, Frame>, owner: map<nat, Use>, procs: map<nat, Proc>, pid: nat, p: Proc)
    requires SpacesOk(mem, owner, procs) && Distinct(procs) && pid !in procs && SpaceOk(mem, owner, p)
    requires forall q | q in procs :: procs[q].dir != p.dir && procs[q].kstack != p.kstack
    ensures SpacesOk(mem, owner, procs[pid := p]) && Distinct(procs[pid := p])
  {
  }

  lemma SpacesWithout(mem: map<nat, Frame>, owner: map<nat, Use>, procs: map<nat, Proc>, pid: nat)
    requires SpacesOk(mem, owner, procs) && Distinct(procs) && pid in procs
    ensures SpacesOk(mem, owner, procs - {pid}) && Distinct(procs - {pid})
    ensures forall q | q in procs - {pid} :: procs[q].dir != procs[pid].dir && procs[q].kstack != procs[pid].kstack
  {
  }

  // The bytes the child reads are on frames the parent does not use.
  lemma ForkedApart(mem: map<nat, Frame>, free: seq<nat>, owner: map<nat, Use>, procs: map<nat, Proc>, q: nat, r: nat,
                    v: nat, w: nat)
    requires Inv(mem, free, owner) && SpacesOk(mem, owner, procs) && Distinct(procs) && q in procs && r in procs
    requires q != r
    requires v in View(mem, procs[q].dir) && w in View(mem, procs[r].dir)
    ensures Entry(mem, procs[q].dir, v).frame != Entry(mem, procs[r].dir, w).frame
  {
    SpaceOf(mem, owner, procs, q);
    SpaceOf(mem, owner, procs, r);
    NoSharing(mem, free, owner, procs[q].dir, v, procs[r].dir, w);
  }

  // ----- counting frames -----

  ghost function FreeSet(owner: map<nat, Use>): set<nat> { set f | f in owner && owner[f] == Free }

  ghost function SpaceSet(owner: map<nat, Use>, d: nat): set<nat> { set f | f in owner && Belongs(owner[f], f, d) }

  ghost function Elems(s: seq<nat>): set<nat> { set f | f in s }

  lemma {:induction false} DistinctSize(s: seq<nat>)
    requires forall i, j | 0 <= i < j < |s| :: s[i] != s[j]
    ensures |Elems(s)| == |s|
  {
    if s == [] {
      assert Elems(s) == {};
    } else {
      DistinctSize(s[1..]);
      assert s[0] !in Elems(s[1..]);
      assert Elems(s) == Elems(s[1..]) + {s[0]};
    }
  }

  lemma FreeSize(mem: map<nat, Frame>, free: seq<nat>, owner: map<nat, Use>)
    requires Inv(mem, free, owner)
    ensures |FreeSet(owner)| == |free|
  {
    DistinctSize(free);
    assert FreeSet(owner) == Elems(free);
  }

  // A new space takes exactly the frames that are free no more.
  lemma SpaceTaken(mem: map<nat, Frame>, free: seq<nat>, owner: map<nat, Use>, mem': map<nat, Frame>,
                   free': seq<nat>, owner': map<nat, Use>, d: nat)
    requires Inv(mem, free, owner) && Inv(mem', free', owner') && Kept(mem, owner, mem', owner', d)
    requires d in owner && owner[d] == Free
    ensures |SpaceSet(owner', d)| == |free| - |free'|
  {
    FreeSize(mem, free, owner);
    FreeSize(mem', free', owner');
    forall f | f in owner
      ensures f in mem && !Belongs(owner[f], f, d)
    {
      assert FrameOk(mem, owner, f);
    }
    assert FreeSet(owner) == FreeSet(owner') + SpaceSet(owner', d);
    assert FreeSet(owner') !! SpaceSet(owner', d);
  }

  // Space d0 was made, then d, and d0 is freed: its frames are back, whatever d has taken.
  lemma FramesBack(mem0: map<nat, Frame>, free0: seq<nat>, owner0: map<nat, Use>, mem1: map<nat, Frame>,
                   free1: seq<nat>, owner1: map<nat, Use>, mem3: map<nat, Frame>, free3: seq<nat>,
                   owner3: map<nat, Use>, mem4: map<nat, Frame>, free4: seq<nat>, d0: nat, d: nat)
    requires Inv(mem0, free0, owner0) && Inv(mem1, free1, owner1) && Inv(mem3, free3, owner3)
    requires Kept(mem0, owner0, mem1, owner1, d0) && Kept(mem1, owner1, mem3, owner3, d) && d != d0
    requires d0 in owner0 && owner0[d0] == Free && Inv(mem4, free4, Released(owner3, d0))
    ensures |free4| == |free3| + |free0| - |free1|
  {
    hide Inv, Kept, Released, FreeSet, SpaceSet;
    SpaceTaken(mem0, free0, owner0, mem1, free1, owner1, d0);
    FreeSize(mem3, free3, owner3);
    SameSpace(mem1, free1, owner1, mem3, owner3, d0, d);
    FreeSize(mem4, free4, Released(owner3, d0));
    ReleasedSets(owner3, d0);
  }

  lemma ReleasedSets(owner: map<nat, Use>, d: nat)
    ensures FreeSet(Released(owner, d)) == FreeSet(owner) + SpaceSet(owner, d)
    ensures FreeSet(owner) !! SpaceSet(owner, d)
  {
  }

  lemma SameSpace(mem: map<nat, Frame>, free: seq<nat>, owner: map<nat, Use>, mem': map<nat, Frame>,
                  owner': map<nat, Use>, d0: nat, d: nat)
    requires Inv(mem, free, owner) && Kept(mem, owner, mem', owner', d) && d != d0
    ensures SpaceSet(owner', d0) == SpaceSet(owner, d0)
  {
    forall f | f in owner
      ensures f in mem
    {
      assert FrameOk(mem, owner, f);
    }
  }

  // ----- inputs that fail -----

  // A process with one page of code, and its pages.
  const SMALL: Proc := Proc(1, 2, 12288, 12288, 0x9F000, 0)

  function SmallView(): map<nat, seq<nat>> { ZeroPages(1, 2) + ZeroPages(159, 160) }

  lemma SmallIsOk()
    ensures LayoutOk(SmallView(), SMALL)
  {
    ImageLayout(SmallView(), SMALL, 2, 8192);
  }

  // Two frames more than the kernel's: exec of a program without a LOAD segment and with an argument
  // of 4096 characters returns -1 and leaves the caller's heap where its code is.
  lemma LateFailureInput(arg: seq<nat>)
    requires |arg| == 4096
    ensures LayoutOk(SmallView(), SMALL)
    ensures LoadOutcome(15, Program([])) == Done && ExecOutcome(15, Program([]), [arg]) == Failed
    ensures !LayoutOk(SmallView(), SMALL.(heapBot := HeapStart([])))
  {
    SmallIsOk();
    LateFailure(SmallView(), SMALL, HeapStart([]));
    assert Sp([arg], 1) <= 0xA0000 - 4097;
  }

  // sbrk(-8192) unmaps the code of such a process and succeeds, sbrk(-12288) unmaps everything
  // below the stack and fails.
  lemma SbrkInput()
    ensures LayoutOk(SmallView(), SMALL) && CutsCode(SMALL, -8192) && CutsCode(SMALL, -12288) && SMALL.sz - 12288 == 0
    ensures !LayoutOk(SmallView() - Range(Up(4096), Up(12288)), SMALL.(sz := 4096))
    ensures !LayoutOk(SmallView() - Range(Up(0), Up(12288)), SMALL)
  {
    SmallIsOk();
    SbrkKeepsLayout(SmallView(), SMALL, -8192, SmallView() - Range(Up(4096), Up(12288)), SMALL.(sz := 4096));
    SbrkKeepsLayout(SmallView(), SMALL, -12288, SmallView() - Range(Up(0), Up(12288)), SMALL);
  }

  // The first byte of the page below a one-page stack is out, the second is in.
  lemma FaultInput()
    ensures !((0x9F000 - 0x9E000) % U32 < 4096) && (0x9F000 - 0x9E001) % U32 < 4096
  {
    FaultWindow(0x9F000, 0x9E000);
    FaultWindow(0x9F000, 0x9E001);
  }

  // A process with two stack pages whose new_exec with a limit of one fails is over its limit.
  lemma LimitInput(p: Proc)
    requires p == SMALL.(stackLow := 0x9E000)
    ensures StackOk(p) && ExecOutcome(0, NoProgram, []) == Failed && !StackOk(p.(maxStack := 1))
  {
  }

  // Of 29 frames the first process ends up with 15; a pipe takes one of the other 14. A fork then
  // finds no frame for its last page table and loses the 12 it has for the address space.
  method ForkLeaks() returns (t: Tasks, ok: bool)
    ensures !ok && t.Good() && t.procs.Keys == {1} && PagesOf(t.procs[1]) == 1 && |t.m.free| == 1
  {
    var m := new Machine.Kinit(1, 30);
    t := new Tasks(m);
    EmptyProgram();
    ok := t.Boot(1, Zeros(), Program([]), [], 300);
    var f := t.PipeFrame();
    ok := t.Fork(1, 2, 300);
  }

  lemma EmptyProgram()
    ensures ExecOutcome(14, Program([]), []) == Done && CodePages([]) == 0
  {
    assert Bottom([]) == 0xA0000 - 16;
  }
}
