/** The loops of readi and writei, one turn at a time. */
module FsWrite {
  import opened DiskCodec
  import opened FsImage
  import opened FsTruncate

  // Bytes off to pos of inode i have been taken from src; nothing else has changed.
  ghost predicate Writing(im0: Image, im: Image, owner: map<nat, Slot>, i: nat, src: seq<byte>, off: nat, pos: nat) {
    && WellFormed(im0) && i < im0.ninodes && off <= pos <= off + |src|
    && Growing(im, owner, i, Max(im0.inodes[i].size, pos))
    && SameShape(im0, im) && OthersSame(im0, im, i)
    && OnDisk(im, i) == OnDisk(im0, i)
    && im.inodes[i] == im0.inodes[i].(addrs := im.inodes[i].addrs)
    && (pos <= im0.inodes[i].size ==> im.inodes[i] == im0.inodes[i])
    && (forall p | 0 <= p :: ByteAt(im, i, p) == if off <= p < pos then src[p - off] else ByteAt(im0, i, p))
  }

  lemma WritingStarts(im0: Image, owner: map<nat, Slot>, i: nat, src: seq<byte>, off: nat)
    requires Inv(im0, owner) && i < im0.ninodes && off <= im0.inodes[i].size
    ensures Writing(im0, im0, owner, i, src, off, off)
  {
    hide Marked, OnDisk, Ptr, ByteAt;
    assert Settled(im0, i);
  }

  // The facts that the loop body needs before it calls bmap.
  lemma WritingHere(im0: Image, im: Image, owner: map<nat, Slot>, i: nat, src: seq<byte>, off: nat, pos: nat)
    requires Writing(im0, im, owner, i, src, off, pos)
    ensures Owned(im, owner, {}) && WellFormed(im) && SameShape(im0, im) && i < im.ninodes == |im.inodes|
    ensures OthersSame(im0, im, i) && Dense(im, i, Max(im0.inodes[i].size, pos))
    ensures im.inodes[i] == im0.inodes[i].(addrs := im.inodes[i].addrs)
  {
  }

  // bmap: the inode now has block pos / 512, and every byte is as before.
  lemma WritingMapped(im0: Image, im: Image, owner: map<nat, Slot>, i: nat, src: seq<byte>, off: nat, pos: nat,
                      im1: Image, owner1: map<nat, Slot>, b: nat)
    requires Writing(im0, im, owner, i, src, off, pos) && pos < MAXBYTES
    requires Owned(im1, owner1, {}) && Maps(im, im1, i, pos / 512, b)
    ensures WellFormed(im1) && SameShape(im0, im1) && OthersSame(im0, im1, i)
    ensures Growing(im1, owner1, i, Max(Max(im0.inodes[i].size, pos), pos / 512 * 512 + 1))
    ensures OnDisk(im1, i) == OnDisk(im0, i)
    ensures im1.inodes[i] == im0.inodes[i].(addrs := im1.inodes[i].addrs)
    ensures pos < im0.inodes[i].size ==> im1.inodes[i] == im0.inodes[i]
    ensures forall p | 0 <= p :: ByteAt(im1, i, p) == if off <= p < pos then src[p - off] else ByteAt(im0, i, p)
    ensures b == Ptr(im1, Data(i, pos / 512)) != 0 && b < |im1.disk|
  {
    hide Marked, OnDisk, Ptr, ByteAt, Dense, Settled;
    var n, top := pos / 512, Max(im0.inodes[i].size, pos);
    MapsKeepsGrowing(im, im1, owner, owner1, i, n, b, top);
    MappedInDisk(im, im1, owner1, i, n, b);
    AlreadyMapped(im, im1, i, n, b, top);
    forall k | 0 <= k < im.ninodes && k != i
      ensures SameFile(im, im1, k)
    {
      MapsKeepsOthers(im, im1, i, n, b, k);
    }
    OthersCompose(im0, im, im1, i);
  }

  lemma AlreadyMapped(im: Image, im1: Image, i: nat, n: nat, b: nat, top: nat)
    requires WellFormed(im) && i < im.ninodes && n < MAXFILE && Maps(im, im1, i, n, b) && Dense(im, i, top)
    ensures n * 512 < top ==> im1 == im
    ensures b == Ptr(im1, Data(i, n)) != 0
  {
    hide Marked, OnDisk, Ptr, ByteAt;
    assert Ptr(im, Data(i, n)) != 0 <==> n * 512 < top;
  }

  // memmove into the buffer, then bwrite.
  lemma WritingStep(im0: Image, im1: Image, owner1: map<nat, Slot>, i: nat, src: seq<byte>, off: nat, pos: nat,
                    m: nat, im2: Image)
    requires WellFormed(im0) && i < im0.ninodes && SameShape(im0, im1)
    requires off <= pos < pos + m <= off + |src| && pos + m <= MAXBYTES
    requires Growing(im1, owner1, i, Max(Max(im0.inodes[i].size, pos), pos / 512 * 512 + 1))
    requires OthersSame(im0, im1, i) && OnDisk(im1, i) == OnDisk(im0, i)
    requires im1.inodes[i] == im0.inodes[i].(addrs := im1.inodes[i].addrs)
    requires pos < im0.inodes[i].size ==> im1.inodes[i] == im0.inodes[i]
    requires forall p | 0 <= p :: ByteAt(im1, i, p) == if off <= p < pos then src[p - off] else ByteAt(im0, i, p)
    requires Stored(im1, im2, i, pos, src[pos - off..pos - off + m])
    ensures Writing(im0, im2, owner1, i, src, off, pos + m)
  {
    hide Marked, Ptr, ByteAt, OnDisk, Growing, Stored;
    var piece := src[pos - off..pos - off + m];
    var top := Max(Max(im0.inodes[i].size, pos), pos / 512 * 512 + 1);
    StoredGrows(im1, im2, owner1, i, pos, piece, top);
    assert Max(top, pos + m) == Max(im0.inodes[i].size, pos + m);
    StoredKeepsOthers(im0, im1, im2, owner1, i, pos, piece, top);
    hide OthersSame;
    forall p | 0 <= p
      ensures ByteAt(im2, i, p) == if off <= p < pos + m then src[p - off] else ByteAt(im0, i, p)
    {
      assert ByteAt(im2, i, p) == if pos <= p < pos + m then piece[p - pos] else ByteAt(im1, i, p);
    }
  }

  // One turn of writei's loop.
  lemma WritingTurn(im0: Image, im: Image, owner: map<nat, Slot>, i: nat, src: seq<byte>, off: nat, pos: nat,
                    im1: Image, owner1: map<nat, Slot>, b: nat, m: nat, im2: Image)
    requires Writing(im0, im, owner, i, src, off, pos) && pos + m <= MAXBYTES
    requires Owned(im1, owner1, {}) && pos < MAXBYTES && Maps(im, im1, i, pos / 512, b)
    requires 0 < m <= BSIZE - pos % 512 && pos + m <= off + |src| && b < |im1.disk|
    requires im2 == WithBlock(im1, b, Splice(im1.disk[b], pos % 512, src[pos - off..pos - off + m]))
    ensures Writing(im0, im2, owner1, i, src, off, pos + m)
  {
    WritingMapped(im0, im, owner, i, src, off, pos, im1, owner1, b);
    hide Maps, Owned, Growing, Writing, Marked, Ptr, ByteAt, OnDisk, OthersSame;
    WritingStep(im0, im1, owner1, i, src, off, pos, m, im2);
  }

  lemma MappedInDisk(im: Image, im1: Image, owner1: map<nat, Slot>, i: nat, n: nat, b: nat)
    requires WellFormed(im) && i < im.ninodes && n < MAXFILE
    requires Owned(im1, owner1, {}) && Maps(im, im1, i, n, b)
    ensures WellFormed(im1) && SameShape(im, im1) && 0 < DataStart(im1) <= b < |im1.disk|
    ensures im1.inodes[i] == im.inodes[i].(addrs := im1.inodes[i].addrs)
  {
    assert b == Ptr(im1, Data(i, n));
    hide Marked, OnDisk, Ptr, ByteAt;
    assert OwnerOk(im1, b, owner1[b], {});
  }

  // In readi the block is there, so bmap changes nothing.
  lemma ReadMapped(im: Image, owner: map<nat, Slot>, im1: Image, owner1: map<nat, Slot>, i: nat, n: nat, b: nat)
    requires Inv(im, owner) && i < im.ninodes && n < MAXFILE && Ptr(im, Data(i, n)) != 0
    requires Owned(im1, owner1, {}) && Maps(im, im1, i, n, b)
    ensures im1 == im && b == Ptr(im, Data(i, n)) && Inv(im, owner1)
  {
  }

  lemma StoredKeepsOthers(im0: Image, im1: Image, im2: Image, owner: map<nat, Slot>, i: nat, pos: nat,
                          piece: seq<byte>, top: nat)
    requires Growing(im1, owner, i, top) && i < im1.ninodes && pos / 512 < MAXFILE && Stored(im1, im2, i, pos, piece)
    requires WellFormed(im0) && SameShape(im0, im1) && OthersSame(im0, im1, i)
    ensures WellFormed(im2) && SameShape(im0, im2) && OthersSame(im0, im2, i)
  {
    hide Marked, Ptr, ByteAt, OnDisk, Stored;
    StoredBlock(im1, im2, owner, i, pos, piece);
    hide Owned;
    forall k | 0 <= k < im1.ninodes && k != i
      ensures SameFile(im1, im2, k)
    {
      StoredKeepsFile(im1, im2, owner, i, pos, piece, k);
    }
    OthersCompose(im0, im1, im2, i);
  }

  lemma InvBasics(im: Image, owner: map<nat, Slot>, i: nat)
    requires Inv(im, owner) && i < im.ninodes
    ensures WellFormed(im) && Owned(im, owner, {}) && |im.inodes| == im.ninodes
    ensures im.inodes[i].size <= MAXBYTES && OthersSame(im, im, i)
  {
    assert Settled(im, i);
  }

  lemma InvShape(im: Image, owner: map<nat, Slot>)
    requires Inv(im, owner)
    ensures WellFormed(im) && |im.inodes| == im.ninodes
  {
  }

  lemma WrittenBytes(im0: Image, im: Image, owner: map<nat, Slot>, im': Image, i: nat, src: seq<byte>, off: nat,
                     pos: nat)
    requires Writing(im0, im, owner, i, src, off, pos) && WellFormed(im') && SameShape(im, im') && SameBytes(im, im')
    ensures i < im0.ninodes && WellFormed(im0)
    ensures forall p | 0 <= p :: ByteAt(im', i, p) == if off <= p < pos then src[p - off] else ByteAt(im0, i, p)
  {
    hide ByteAt, Growing, OthersSame;
  }

  // The loop ended inside the old size: no block was added, so nothing is left to record.
  lemma WritingEndsInside(im0: Image, owner0: map<nat, Slot>, im: Image, owner: map<nat, Slot>, i: nat,
                          src: seq<byte>, off: nat, pos: nat)
    requires Inv(im0, owner0) && Writing(im0, im, owner, i, src, off, pos) && pos <= im0.inodes[i].size
    ensures Inv(im, owner) && SameBytes(im, im)
  {
    hide Marked, Ptr, ByteAt, OnDisk, Dense;
    assert Settled(im0, i);
    assert Settled(im, i);
  }

  // The loop ended beyond it: the new size is stored and the record written.
  lemma WritingEndsBeyond(im0: Image, im: Image, owner: map<nat, Slot>, i: nat, src: seq<byte>, off: nat, pos: nat,
                          im': Image)
    requires Writing(im0, im, owner, i, src, off, pos) && pos > im0.inodes[i].size && im0.inodes[i].typ != 0
    requires pos < U32
    requires Updated(im, im', i, im.inodes[i].(size := pos))
    ensures Inv(im', owner) && SameShape(im0, im') && OthersSame(im0, im', i) && SameBytes(im, im')
  {
    UpdateSettles(im, im', owner, i, im.inodes[i].(size := pos), pos);
    hide Marked, Ptr, ByteAt, OnDisk, Growing;
    OthersCompose(im0, im, im', i);
  }

  // Byte by byte, the result is the old contents with src[..cnt] laid over them.
  lemma WrittenContent(im0: Image, im: Image, i: nat, src: seq<byte>, off: nat, cnt: nat)
    requires WellFormed(im0) && WellFormed(im) && i < im0.ninodes && i < im.ninodes
    requires cnt <= |src| && off <= im0.inodes[i].size && im.inodes[i].size == Max(im0.inodes[i].size, off + cnt)
    requires forall p | 0 <= p :: ByteAt(im, i, p) == if off <= p < off + cnt then src[p - off] else ByteAt(im0, i, p)
    ensures Content(im, i) == Overwrite(Content(im0, i), off, src[..cnt])
  {
    hide ByteAt;
  }

  // The bytes of a file after src is written at off.
  function Overwrite(content: seq<byte>, off: nat, src: seq<byte>): (r: seq<byte>)
    requires off <= |content|
    ensures |r| == Max(|content|, off + |src|)
    ensures forall k | 0 <= k < |r| :: r[k] == if off <= k < off + |src| then src[k - off] else content[k]
  {
    content[..off] + src + if off + |src| <= |content| then content[off + |src|..] else []
  }

  // What writei leaves behind, whichever branch it ends in.
  lemma WritingEnds(im0: Image, owner0: map<nat, Slot>, im: Image, owner: map<nat, Slot>, i: nat, src: seq<byte>,
                    off: nat, im': Image)
    requires Inv(im0, owner0) && Writing(im0, im, owner, i, src, off, off + |src|) && im0.inodes[i].typ != 0
    requires off <= im0.inodes[i].size && off + |src| < U32
    requires if |src| > 0 && off + |src| > im0.inodes[i].size then Updated(im, im', i, im.inodes[i].(size := off + |src|)) else im' == im
    ensures Inv(im', owner) && SameShape(im0, im') && OthersSame(im0, im', i)
    ensures im'.inodes[i] == im0.inodes[i].(size := im'.inodes[i].size, addrs := im'.inodes[i].addrs)
    ensures Content(im', i) == Overwrite(Content(im0, i), off, src)
  {
    hide Marked, Ptr, ByteAt, OnDisk, Growing, OthersSame;
    var pos := off + |src|;
    if |src| > 0 && pos > im0.inodes[i].size {
      WritingEndsBeyond(im0, im, owner, i, src, off, pos, im');
    } else {
      WritingEndsInside(im0, owner0, im, owner, i, src, off, pos);
    }
    WrittenBytes(im0, im, owner, im', i, src, off, pos);
    assert src[..|src|] == src;
    WrittenContent(im0, im', i, src, off, |src|);
  }

  lemma BelowSize(im: Image, owner: map<nat, Slot>, i: nat, n: nat)
    requires Inv(im, owner) && i < im.ninodes && n * 512 < im.inodes[i].size
    ensures n < MAXFILE && 0 < Ptr(im, Data(i, n)) < |im.disk|
  {
    hide Marked, OnDisk, Ptr, ByteAt;
    assert Settled(im, i);
    assert Ptr(im, Data(i, n)) != 0;
    assert OwnerOk(im, Ptr(im, Data(i, n)), Data(i, n), {});
  }

  // One turn of readi's loop: the block is there, so bmap allocates nothing, and it holds
  // the bytes wanted.
  lemma ReadStep(im: Image, owner: map<nat, Slot>, i: nat, pos: nat, m: nat)
    requires Inv(im, owner) && i < im.ninodes && pos < im.inodes[i].size
    requires 0 < m <= BSIZE - pos % 512 && pos + m <= im.inodes[i].size
    ensures pos / 512 < MAXFILE
    ensures var b := Ptr(im, Data(i, pos / 512));
      && 0 < b < |im.disk|
      && im.disk[b][pos % 512..pos % 512 + m] == Content(im, i)[pos..pos + m]
  {
    hide Marked, OnDisk, Entry;
    assert Settled(im, i);
    var n := pos / 512;
    var b := Ptr(im, Data(i, n));
    assert b != 0 <==> n * 512 < im.inodes[i].size;
    assert OwnerOk(im, b, owner[b], {});
    hide Ptr;
    var piece, want := im.disk[b][pos % 512..pos % 512 + m], Content(im, i)[pos..pos + m];
    forall q | 0 <= q < m
      ensures piece[q] == want[q]
    {
      assert (pos + q) / 512 == n && (pos + q) % 512 == pos % 512 + q;
    }
  }
}
