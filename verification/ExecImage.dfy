/** The memory image that kernel/exec.c builds, as a function of the program file and the arguments:
    the bytes of the LOAD segment, and the argument block under 640K. */
module ExecImage {
  import opened PageTable
  import opened VirtualMemory

  // A LOAD segment; data is what the file holds from its offset on.
  datatype Segment = Segment(va: nat, memsz: nat, filesz: nat, data: seq<nat>)

  // What the path leads to: nothing that exec takes for a program, or a program with its segments.
  datatype File = NoProgram | Program(segs: seq<Segment>)

  datatype ExecResult = Done | Failed | Panic

  const MAXARG: nat := 32

  // ----- the segment -----

  // Where the code ends: allocuvm answers at least PGSIZE when there is a LOAD segment.
  function ImageEnd(segs: seq<Segment>): nat {
    if segs == [] then 0 else if segs[0].va + segs[0].memsz < 4096 then 4096 else segs[0].va + segs[0].memsz
  }

  function HeapStart(segs: seq<Segment>): nat { Up(ImageEnd(segs)) * 4096 + 4096 }

  // The pages that allocuvm maps for it.
  function CodePages(segs: seq<Segment>): nat { if segs == [] then 0 else Up(ImageEnd(segs)) - 1 }

  // How exec fares up to the point where it stores heap_bot, with n free frames.
  function LoadOutcome(n: nat, file: File): ExecResult {
    if file == NoProgram || n < KERNEL_FRAMES then Failed
    else if file.segs == [] then Done
    else
      var s := file.segs[0];
      if s.memsz < s.filesz || s.va + s.memsz > 0xA0000 || n < KERNEL_FRAMES + CodePages(file.segs) then Failed
      else if s.va % 4096 != 0 then Panic
      else if |s.data| < s.filesz then Failed
      else Done
  }

  // And from there on: the last frame is for the stack page, where an image of the full 640K lies
  // already.
  function ExecOutcome(n: nat, file: File, args: seq<seq<nat>>): ExecResult {
    if LoadOutcome(n, file) != Done then LoadOutcome(n, file)
    else if n == KERNEL_FRAMES + CodePages(file.segs) then Failed
    else if ImageEnd(file.segs) > 0x9F000 then Panic
    else if Fits(args, ImageEnd(file.segs)) then Done
    else Failed
  }

  // In numbers, for a program without segments,
  lemma ExecAnswersEmpty(n: nat, args: seq<seq<nat>>)
    ensures ExecOutcome(n, NoProgram, args) == Failed && ExecOutcome(n, Program([]), args) != Panic
    ensures ExecOutcome(n, Program([]), args) == Done <==> n >= 14 && |args| <= 32 && Bottom(args) >= 0x9F000
    ensures LoadOutcome(n, NoProgram) == Failed && (LoadOutcome(n, Program([])) == Done <==> n >= 13)
    ensures HeapStart([]) == 4096 && CodePages([]) == 0
  {
  }

  // and for one with a segment: pages is how many the segment takes beyond the one at address 0.
  lemma ExecAnswers(n: nat, s: Segment, args: seq<seq<nat>>, end: nat, pages: nat)
    requires end == (if s.va + s.memsz < 4096 then 4096 else s.va + s.memsz) && 4096 * pages < end <= 4096 * (pages + 1)
    ensures ExecOutcome(n, Program([s]), args) == Done <==>
              && n >= 14 + pages && s.filesz <= s.memsz && s.filesz <= |s.data|
              && s.va % 4096 == 0 && s.va + s.memsz <= 0x9F000
              && |args| <= 32 && Bottom(args) >= (if end > 0x9E000 then 4096 else 0x9F000)
    ensures ExecOutcome(n, Program([s]), args) == Panic <==>
              && n >= 13 + pages && s.filesz <= s.memsz && s.va + s.memsz <= 0xA0000
              && (s.va % 4096 != 0 || (s.filesz <= |s.data| && n >= 14 + pages && s.va + s.memsz > 0x9F000))
    ensures LoadOutcome(n, Program([s])) == Done <==>
              && n >= 13 + pages && s.filesz <= s.memsz && s.filesz <= |s.data| && s.va % 4096 == 0 && s.va + s.memsz <= 0xA0000
    ensures HeapStart([s]) == 4096 * (pages + 2) && CodePages([s]) == pages
  {
    hide Up;
    UpIs(end);
  }

  // The strings go down from 640K, each with its NUL and at an address that four divides, then
  // four words and one for each argument.
  lemma BlockPlan(args: seq<seq<nat>>, k: nat)
    requires k <= |args|
    ensures Sp(args, 0) == 0xA0000 && Bottom(args) == Sp(args, |args|) - 16 - 4 * |args|
    ensures k < |args| ==> Sp(args, k + 1) % 4 == 0 && 1 <= Sp(args, k) - (Sp(args, k + 1) + |args[k]|) <= 4
  {
  }

  // The byte of the loaded program at address a.
  function SegByte(segs: seq<Segment>, a: nat): nat {
    if segs != [] && segs[0].va <= a < segs[0].va + segs[0].filesz && a - segs[0].va < |segs[0].data|
      then segs[0].data[a - segs[0].va]
    else 0
  }

  // ----- where the arguments go -----

  // sp with its two low bits cleared.
  function Aligned(x: int): (y: int)
    ensures y % 4 == 0 && x - 4 < y <= x
  {
    x - x % 4
  }

  // The stack pointer after the first k strings; below 0 stands for an address that has wrapped.
  function Sp(args: seq<seq<nat>>, k: nat): (sp: int)
    requires k <= |args|
    ensures sp % 4 == 0 && sp <= 0xA0000
  {
    if k == 0 then 0xA0000 else Aligned(Sp(args, k - 1) - |args[k - 1]| - 1)
  }

  // The lowest address of the argument block: return address, argc, argv, pointers and a null.
  function Bottom(args: seq<seq<nat>>): int { Sp(args, |args|) - 4 * (|args| + 4) }

  // The lowest address that the block can grow down to: the stack page's, or that of the code when
  // its last page is the one below.
  function Lowest(end: nat): nat { if Up(end) == 159 then 4096 else 0x9F000 }

  predicate Fits(args: seq<seq<nat>>, end: nat) { |args| <= MAXARG && Bottom(args) >= Lowest(end) }

  // Argument strings lie in user memory.
  ghost predicate Strings(args: seq<seq<nat>>) { forall k | 0 <= k < |args| :: |args[k]| < 0xA0000 }

  lemma {:induction false} SpBelow(args: seq<seq<nat>>, j: nat, k: nat)
    requires j <= k <= |args|
    ensures Sp(args, k) <= Sp(args, j)
    ensures j < k ==> Sp(args, j + 1) + |args[j]| + 1 <= Sp(args, j) && Sp(args, k) <= Sp(args, j + 1)
    decreases k - j
  {
    if j < k { SpBelow(args, j + 1, k); }
  }

  // ----- what the arguments look like in memory -----

  // The bytes of a word, lowest first.
  function WordByte(w: nat, o: nat): nat {
    if o == 0 then w % 256 else WordByte(w / 256, o - 1)
  }

  function WordBytes(ws: seq<nat>): (s: seq<nat>)
    ensures |s| == 4 * |ws|
  {
    seq(4 * |ws|, i requires 0 <= i < 4 * |ws| => WordByte(ws[i / 4], i % 4))
  }

  // The words of ustack once the strings are in place.
  function Ustack(args: seq<seq<nat>>): (ws: seq<nat>)
    requires Sp(args, |args|) >= 4 * (|args| + 1)
    ensures |ws| == |args| + 4
  {
    [0xffff_ffff, |args|, Sp(args, |args|) - 4 * (|args| + 1)]
      + seq(|args|, j requires 0 <= j < |args| => Pointer(args, j)) + [0]
  }

  function Pointer(args: seq<seq<nat>>, j: nat): nat
    requires j < |args|
  {
    if Sp(args, j + 1) >= 0 then Sp(args, j + 1) else 0
  }

  datatype Byte = Untouched | Is(b: nat)

  // The byte at address a after the first k strings.
  function StringByte(args: seq<seq<nat>>, k: nat, a: int): Byte
    requires k <= |args|
  {
    if k == 0 then Untouched
    else if Sp(args, k) <= a <= Sp(args, k) + |args[k - 1]| then Is((args[k - 1] + [0])[a - Sp(args, k)])
    else StringByte(args, k - 1, a)
  }

  function ArgByte(args: seq<seq<nat>>, a: int): Byte
    requires Bottom(args) >= 0
  {
    if Bottom(args) <= a < Bottom(args) + 4 * (|args| + 4) then Is(WordBytes(Ustack(args))[a - Bottom(args)])
    else StringByte(args, |args|, a)
  }

  function Over(b: Byte, under: nat): nat { if b == Untouched then under else b.b }

  // view is view0 with the first k strings in place.
  ghost predicate StringsOn(view0: map<nat, seq<nat>>, view: map<nat, seq<nat>>, args: seq<seq<nat>>, k: nat)
    requires k <= |args|
  {
    && view.Keys == view0.Keys
    && (forall v | v in view :: |view[v]| == |view0[v]| == 4096)
    && forall v, o | v in view && 0 <= o < 4096 ::
         view[v][o] == Over(StringByte(args, k, v * 4096 + o), view0[v][o])
  }

  lemma NoStrings(view: map<nat, seq<nat>>, args: seq<seq<nat>>)
    requires forall v | v in view :: |view[v]| == 4096
    ensures StringsOn(view, view, args, 0)
  {
  }

  // One turn of exec's loop.
  lemma StringPushed(view0: map<nat, seq<nat>>, view1: map<nat, seq<nat>>, view2: map<nat, seq<nat>>,
                     args: seq<seq<nat>>, k: nat)
    requires k < |args| && StringsOn(view0, view1, args, k) && Sp(args, k + 1) >= 0
    requires Written(view1, view2, Sp(args, k + 1), args[k] + [0], |args[k]| + 1)
    ensures StringsOn(view0, view2, args, k + 1)
  {
    hide StringByte, Sp;
    forall v, o | v in view2 && 0 <= o < 4096
      ensures view2[v][o] == Over(StringByte(args, k + 1, v * 4096 + o), view0[v][o])
    {
      OneMoreString(args, k, v * 4096 + o);
    }
  }

  lemma OneMoreString(args: seq<seq<nat>>, k: nat, a: int)
    requires k < |args|
    ensures StringByte(args, k + 1, a) ==
              if Sp(args, k + 1) <= a < Sp(args, k + 1) + |args[k]| + 1 then Is((args[k] + [0])[a - Sp(args, k + 1)])
              else StringByte(args, k, a)
  {
  }

  // The whole image.
  function ImageByte(segs: seq<Segment>, args: seq<seq<nat>>, a: nat): nat
    requires Bottom(args) >= 0
  {
    Over(ArgByte(args, a), SegByte(segs, a))
  }

  function ImagePage(segs: seq<Segment>, args: seq<seq<nat>>, v: nat): (p: seq<nat>)
    requires Bottom(args) >= 0
    ensures |p| == 4096
  {
    seq<nat>(4096, o requires 0 <= o < 4096 => ImageByte(segs, args, v * 4096 + o))
  }

  function ImageView(segs: seq<Segment>, args: seq<seq<nat>>): map<nat, seq<nat>>
    requires Bottom(args) >= 0
  {
    map v: nat | v < 160 && (In(1, v, Up(ImageEnd(segs))) || v == 159) :: ImagePage(segs, args, v)
  }

  // The segment is in place.
  ghost predicate SegmentOn(view: map<nat, seq<nat>>, segs: seq<Segment>) {
    && (forall v | v in view :: |view[v]| == 4096)
    && forall v, o | v in view && 0 <= o < 4096 :: view[v][o] == SegByte(segs, v * 4096 + o)
  }

  lemma WholeImage(view0: map<nat, seq<nat>>, view1: map<nat, seq<nat>>, view2: map<nat, seq<nat>>,
                   segs: seq<Segment>, args: seq<seq<nat>>)
    requires SegmentOn(view0, segs) && StringsOn(view0, view1, args, |args|) && Bottom(args) >= 0
    requires Written(view1, view2, Bottom(args), WordBytes(Ustack(args)), 4 * (|args| + 4))
    requires forall v :: v in view2 <==> 1 <= v < Up(ImageEnd(segs)) || v == 159
    requires ImageEnd(segs) <= 0x9F000
    ensures view2 == ImageView(segs, args)
  {
    forall v | v in view2
      ensures view2[v] == ImagePage(segs, args, v)
    {
      forall o | 0 <= o < 4096
        ensures view2[v][o] == ImagePage(segs, args, v)[o]
      {
        PageByte(segs, args, v, o);
      }
    }
  }

  lemma PageByte(segs: seq<Segment>, args: seq<seq<nat>>, v: nat, o: nat)
    requires Bottom(args) >= 0 && o < 4096
    ensures ImagePage(segs, args, v)[o] == ImageByte(segs, args, v * 4096 + o)
  {
  }

  // ----- what main finds there -----

  function ByteIn(view: map<nat, seq<nat>>, a: nat): nat {
    if a / 4096 in view && a % 4096 < |view[a / 4096]| then view[a / 4096][a % 4096] else 0
  }

  function WordIn(view: map<nat, seq<nat>>, a: nat): nat {
    ByteIn(view, a) + 256 * ByteIn(view, a + 1) + 65536 * ByteIn(view, a + 2) + 16777216 * ByteIn(view, a + 3)
  }

  // The C string at address a is s.
  ghost predicate StringAt(view: map<nat, seq<nat>>, a: nat, s: seq<nat>) {
    && (forall o | 0 <= o < |s| :: ByteIn(view, a + o) == s[o] != 0)
    && ByteIn(view, a + |s|) == 0
  }

  // Nothing below the block is touched; the block itself starts at Bottom. So the code survives
  // exactly when the block stays in the stack page.
  lemma {:induction false} StringsAbove(args: seq<seq<nat>>, k: nat, a: int)
    requires k <= |args|
    ensures a < Sp(args, k) ==> StringByte(args, k, a) == Untouched
  {
    if k > 0 {
      SpBelow(args, k - 1, k);
      StringsAbove(args, k - 1, a);
    }
  }

  lemma CodeSurvives(args: seq<seq<nat>>)
    requires Bottom(args) >= 0
    ensures (forall a | 0 <= a < 0x9F000 :: ArgByte(args, a) == Untouched) <==> Bottom(args) >= 0x9F000
  {
    if Bottom(args) >= 0x9F000 {
      forall a | 0 <= a < 0x9F000
        ensures ArgByte(args, a) == Untouched
      {
        StringsAbove(args, |args|, a);
      }
    } else {
      assert ArgByte(args, Bottom(args)) != Untouched;
    }
  }

  // Under the block stand the bytes of the file and, behind them, zeros.
  lemma CodeReads(s: Segment, args: seq<seq<nat>>, a: nat)
    requires Bottom(args) >= 0 && s.filesz <= |s.data| && 4096 <= a < s.va + s.memsz <= 0x9F000 && a < Bottom(args)
    ensures var view := ImageView([s], args);
      && a / 4096 in view && a % 4096 < |view[a / 4096]|
      && view[a / 4096][a % 4096] == if s.va <= a < s.va + s.filesz then s.data[a - s.va] else 0
  {
    hide Up;
    var v := a / 4096;
    UpIs(ImageEnd([s]));
    SpBelow(args, 0, |args|);
    StringsAbove(args, |args|, a);
    assert In(1, v, Up(ImageEnd([s])));
    PageByte([s], args, v, a % 4096);
  }

  // Code in every page below the stack's, and one argument of 4096 characters: exec succeeds and
  // the argument lies over the code.
  lemma CodeLostInput(arg: seq<nat>)
    requires |arg| == 4096
    ensures Fits([arg], 0x9F000) && Bottom([arg]) < 0x9F000
  {
    assert Sp([arg], 1) == Aligned(0xA0000 - 4097) == 0x9EFFC;
  }

  // A string is found where its pointer says.
  lemma {:induction false} StringFound(args: seq<seq<nat>>, k: nat, j: nat, o: nat)
    requires j < k <= |args| && o <= |args[j]|
    ensures StringByte(args, k, Sp(args, j + 1) + o) == Is((args[j] + [0])[o])
    decreases k
  {
    if j < k - 1 {
      SpBelow(args, j, k - 1);
      SpBelow(args, k - 1, k);
      StringFound(args, k - 1, j, o);
    }
  }

  lemma ImageAt(segs: seq<Segment>, args: seq<seq<nat>>, a: nat)
    requires Fits(args, ImageEnd(segs)) && ImageEnd(segs) <= 0x9F000 && Bottom(args) <= a < 0xA0000
    ensures ByteIn(ImageView(segs, args), a) == ImageByte(segs, args, a)
  {
    var v := a / 4096;
    assert v == 159 || (Up(ImageEnd(segs)) == 159 && 1 <= v < 159);
    assert In(1, v, Up(ImageEnd(segs))) || v == 159;
    PageByte(segs, args, v, a % 4096);
  }

  lemma StringReads(segs: seq<Segment>, args: seq<seq<nat>>, j: nat, o: nat)
    requires Fits(args, ImageEnd(segs)) && ImageEnd(segs) <= 0x9F000 && j < |args| && o <= |args[j]|
    ensures Sp(args, j + 1) >= 0 && ByteIn(ImageView(segs, args), Sp(args, j + 1) + o) == (args[j] + [0])[o]
  {
    hide ImageView, ByteIn, StringByte, WordBytes, Ustack, SegByte;
    SpBelow(args, j, |args|);
    SpBelow(args, 0, j);
    StringFound(args, |args|, j, o);
    ImageAt(segs, args, Sp(args, j + 1) + o);
  }

  // argv[j] points to argument j.
  lemma ArgvReads(segs: seq<Segment>, args: seq<seq<nat>>, j: nat)
    requires Fits(args, ImageEnd(segs)) && ImageEnd(segs) <= 0x9F000 && j < |args|
    requires forall o | 0 <= o < |args[j]| :: args[j][o] != 0
    ensures var view := ImageView(segs, args);
      && WordIn(view, Bottom(args) + 12 + 4 * j) == Sp(args, j + 1) >= 0
      && StringAt(view, Sp(args, j + 1), args[j])
  {
    hide ImageView, ByteIn, WordIn, Ustack, StringAt, Sp;
    WordReads(segs, args, 3 + j);
    UstackWord(args, 3 + j);
    StringReads(segs, args, j, 0);
    WholeString(segs, args, j);
  }

  lemma WholeString(segs: seq<Segment>, args: seq<seq<nat>>, j: nat)
    requires Fits(args, ImageEnd(segs)) && ImageEnd(segs) <= 0x9F000 && j < |args| && Sp(args, j + 1) >= 0
    requires forall o | 0 <= o < |args[j]| :: args[j][o] != 0
    ensures StringAt(ImageView(segs, args), Sp(args, j + 1), args[j])
  {
    hide ImageView, ByteIn, Sp, ImageEnd;
    var view, a := ImageView(segs, args), Sp(args, j + 1);
    StringReads(segs, args, j, |args[j]|);
    forall o | 0 <= o < |args[j]|
      ensures ByteIn(view, a + o) == args[j][o] != 0
    {
      StringReads(segs, args, j, o);
    }
  }

  // main's frame: return address, argc, argv.
  lemma FrameReads(segs: seq<Segment>, args: seq<seq<nat>>)
    requires Fits(args, ImageEnd(segs)) && ImageEnd(segs) <= 0x9F000
    ensures var view := ImageView(segs, args);
      && WordIn(view, Bottom(args)) == 0xffff_ffff && WordIn(view, Bottom(args) + 4) == |args|
      && WordIn(view, Bottom(args) + 8) == Bottom(args) + 12
      && WordIn(view, Bottom(args) + 12 + 4 * |args|) == 0
      && ByteIn(view, Bottom(args) + 4) == |args| && ByteIn(view, Bottom(args) + 5) == ByteIn(view, Bottom(args) + 6) == 0
  {
    hide ImageView, ByteIn, WordIn, Ustack;
    UstackEnds(args);
    WordReads(segs, args, 0);
    WordReads(segs, args, 1);
    WordReads(segs, args, 2);
    WordReads(segs, args, 3 + |args|);
    WordByteReads(segs, args, 1, 0);
    WordByteReads(segs, args, 1, 1);
    WordByteReads(segs, args, 1, 2);
    assert WordByte(|args|, 0) == |args| && WordByte(|args|, 1) == WordByte(|args| / 256, 0) && WordByte(|args|, 2) == WordByte(0, 1);
  }

  lemma WordReads(segs: seq<Segment>, args: seq<seq<nat>>, i: nat)
    requires Fits(args, ImageEnd(segs)) && ImageEnd(segs) <= 0x9F000 && i < |args| + 4
    ensures WordIn(ImageView(segs, args), Bottom(args) + 4 * i) == Ustack(args)[i]
  {
    hide ImageView, ByteIn, Ustack, WordByte, StringByte;
    WordByteReads(segs, args, i, 0);
    WordByteReads(segs, args, i, 1);
    WordByteReads(segs, args, i, 2);
    WordByteReads(segs, args, i, 3);
    UstackWord(args, i);
    FourBytes(Ustack(args)[i]);
  }

  lemma WordByteReads(segs: seq<Segment>, args: seq<seq<nat>>, i: nat, o: nat)
    requires Fits(args, ImageEnd(segs)) && ImageEnd(segs) <= 0x9F000 && i < |args| + 4 && o < 4
    ensures ByteIn(ImageView(segs, args), Bottom(args) + 4 * i + o) == WordByte(Ustack(args)[i], o)
  {
    hide ImageView, ByteIn, Ustack, WordByte, StringByte;
    SpBelow(args, 0, |args|);
    ImageAt(segs, args, Bottom(args) + 4 * i + o);
    assert (4 * i + o) / 4 == i && (4 * i + o) % 4 == o;
  }

  lemma UstackWord(args: seq<seq<nat>>, i: nat)
    requires i < |args| + 4 && Bottom(args) >= 0
    ensures Ustack(args)[i] < 0x1_0000_0000
    ensures 3 <= i < |args| + 3 ==> Ustack(args)[i] == Pointer(args, i - 3)
  {
  }

  lemma UstackEnds(args: seq<seq<nat>>)
    requires Bottom(args) >= 0
    ensures var ws := Ustack(args);
      ws[0] == 0xffff_ffff && ws[1] == |args| && ws[2] == Bottom(args) + 12 && ws[3 + |args|] == 0
  {
  }

  lemma FourBytes(w: nat)
    requires w < 0x1_0000_0000
    ensures w == WordByte(w, 0) + 256 * WordByte(w, 1) + 65536 * WordByte(w, 2) + 16777216 * WordByte(w, 3)
  {
    var a := w / 256;
    var b := a / 256;
    var c := b / 256;
    assert w == w % 256 + 256 * a && a == a % 256 + 256 * b && b == b % 256 + 256 * c && c < 256;
    assert WordByte(w, 3) == WordByte(a, 2) == WordByte(b, 1) == WordByte(c, 0) == c;
    assert WordByte(w, 2) == WordByte(a, 1) == WordByte(b, 0);
    assert WordByte(w, 1) == WordByte(a, 0);
  }

  // ----- which of it can fail -----

  // Pages that the block may occupy, in an address space with code up to `end` and a stack page.
  ghost predicate CodeAndStack(view: map<nat, seq<nat>>, end: nat) {
    end <= 0x9F000 && forall v :: v in view <==> 1 <= v < Up(end) || v == 159
  }

  // An address of the block as the 32-bit sp.
  function Address(sp: int): nat { sp % 0x1_0000_0000 }

  lemma AddressIs(sp: int)
    requires -0x100_0000 <= sp <= 0x100_0000
    ensures Address(sp) == if sp >= 0 then sp else sp + 0x1_0000_0000
  {
  }

  // A piece from sp to the previous stack pointer, at most three bytes short of it, is all mapped
  // exactly when it does not go below the lowest address.
  lemma PieceMapped(view: map<nat, seq<nat>>, end: nat, sp: int, n: nat, prev: int)
    requires CodeAndStack(view, end) && Lowest(end) <= prev <= 0xA0000 && prev % 4 == 0
    requires 1 <= n <= 0xA0000 && prev - 4 < sp + n <= prev
    ensures Mapped(view, Address(sp), n) <==> sp >= Lowest(end)
    ensures Address(sp) < 0x100_0000 || 0xFE00_0000 <= Address(sp) < 0x1_0000_0000
    ensures sp >= 0 ==> Address(sp) == sp
  {
    hide Address, Mapped;
    AddressIs(sp);
    if sp >= Lowest(end) {
      MappedAbove(view, end, sp, n);
    } else if sp >= 0 {
      NotBelow(view, end, sp, n);
    } else {
      NotAtTop(view, end, Address(sp), n);
    }
  }

  lemma MappedAbove(view: map<nat, seq<nat>>, end: nat, sp: nat, n: nat)
    requires CodeAndStack(view, end) && Lowest(end) <= sp && sp + n <= 0xA0000 && n >= 1
    ensures Mapped(view, sp, n)
  {
    forall v | sp / 4096 <= v <= (sp + n - 1) / 4096
      ensures v in view
    {
      assert 1 <= v <= 159;
    }
  }

  // The page under the lowest address is missing, and the piece reaches into it.
  lemma NotBelow(view: map<nat, seq<nat>>, end: nat, sp: nat, n: nat)
    requires CodeAndStack(view, end) && sp < Lowest(end) && sp + n > Lowest(end) - 4 && n >= 1
    ensures !Mapped(view, sp, n)
  {
    var low := Lowest(end) / 4096;
    assert low - 1 !in view;
    assert sp / 4096 <= low - 1 <= (sp + n - 1) / 4096;
  }

  lemma NotAtTop(view: map<nat, seq<nat>>, end: nat, a: nat, n: nat)
    requires CodeAndStack(view, end) && a >= 0xFE00_0000 && n >= 1
    ensures !Mapped(view, a, n)
  {
    assert a / 4096 !in view;
    assert a / 4096 <= (a + n - 1) / 4096;
  }
}
