/** Directories as files of 16-byte entries: names, and the entry sequence they stand for. */
module Directory {
  import opened DiskCodec
  import opened FsWrite

  const DIRSIZ: nat := 14

  // A name without its padding: at most DIRSIZ bytes, none of them zero.
  datatype Dirent = Dirent(inum: nat, name: seq<byte>)

  // ----- names -----

  // The first byte of a C string, the terminator included.
  function First(s: seq<byte>): byte { if s == [] then 0 else s[0] }

  // strncmp(p, q, n) == 0 (kernel/string.c).
  predicate StrncmpEq(p: seq<byte>, q: seq<byte>, n: nat) {
    n == 0 || (First(p) == First(q) && (First(p) == 0 || StrncmpEq(p[1..], q[1..], n - 1)))
  }

  // What a name field keeps of s: up to the first zero byte, and at most n bytes.
  function Clip(s: seq<byte>, n: nat): (c: seq<byte>)
    ensures |c| <= n && |c| <= |s| && c == s[..|c|]
    ensures forall k | 0 <= k < |c| :: c[k] != 0
    ensures |c| < n ==> |c| == |s| || s[|c|] == 0
  {
    if n == 0 || s == [] || s[0] == 0 then [] else [s[0]] + Clip(s[1..], n - 1)
  }

  function NameOf(s: seq<byte>): seq<byte> { Clip(s, DIRSIZ) }

  // namecmp decides equality of the clipped names.
  lemma {:induction false} NamecmpCorrect(p: seq<byte>, q: seq<byte>, n: nat)
    ensures StrncmpEq(p, q, n) <==> Clip(p, n) == Clip(q, n)
  {
    if n > 0 && First(p) == First(q) != 0 {
      NamecmpCorrect(p[1..], q[1..], n - 1);
      assert Clip(p, n)[1..] == Clip(p[1..], n - 1) && Clip(q, n)[1..] == Clip(q[1..], n - 1);
    }
  }

  // strncpy(de.name, name, DIRSIZ): the clipped name, padded with zeros.
  function Padded(s: seq<byte>, n: nat): (r: seq<byte>)
    ensures |r| == n
    decreases n
  {
    if n == 0 then [] else if First(s) == 0 then [0] + Padded([], n - 1) else [s[0]] + Padded(s[1..], n - 1)
  }

  lemma {:induction false} PaddedKeepsName(s: seq<byte>, n: nat)
    ensures Clip(Padded(s, n), n) == Clip(s, n)
  {
    if n > 0 && First(s) != 0 {
      PaddedKeepsName(s[1..], n - 1);
      assert Padded(s, n)[1..] == Padded(s[1..], n - 1);
    }
  }

  // ----- entries -----

  function EncodeDirent(inum: nat, name: seq<byte>): (s: seq<byte>)
    requires inum < 0x1_0000
    ensures |s| == 16
  {
    Bytes16(inum) + Padded(name, DIRSIZ)
  }

  function DecodeDirent(s: seq<byte>): Dirent
    requires |s| == 16
  {
    Dirent(Get16(s, 0), NameOf(s[2..]))
  }

  lemma DirentRoundTrip(inum: nat, name: seq<byte>)
    requires inum < 0x1_0000
    ensures DecodeDirent(EncodeDirent(inum, name)) == Dirent(inum, NameOf(name))
  {
    assert EncodeDirent(inum, name)[2..] == Padded(name, DIRSIZ);
    PaddedKeepsName(name, DIRSIZ);
  }

  function Entries(content: seq<byte>): (es: seq<Dirent>)
    ensures |es| == |content| / 16
  {
    seq(|content| / 16, k requires 0 <= k < |content| / 16 => DecodeDirent(content[16 * k..16 * k + 16]))
  }

  // An entry in use that carries the name.
  predicate Names(e: Dirent, name: seq<byte>) { e.inum != 0 && e.name == NameOf(name) }

  // The first entry that carries the name, or |es|.
  function Find(es: seq<Dirent>, name: seq<byte>): (k: nat)
    ensures k <= |es| && (k < |es| ==> Names(es[k], name))
    ensures forall m | 0 <= m < k :: !Names(es[m], name)
  {
    if es == [] || Names(es[0], name) then 0 else 1 + Find(es[1..], name)
  }

  // The first unused entry, or |es|.
  function FreeEntryOf(es: seq<Dirent>): (k: nat)
    ensures k <= |es| && (k < |es| ==> es[k].inum == 0)
    ensures forall m | 0 <= m < k :: es[m].inum != 0
  {
    if es == [] || es[0].inum == 0 then 0 else 1 + FreeEntryOf(es[1..])
  }

  lemma FindIs(es: seq<Dirent>, name: seq<byte>, k: nat)
    requires k <= |es| && (k < |es| ==> Names(es[k], name))
    requires forall m | 0 <= m < k :: !Names(es[m], name)
    ensures Find(es, name) == k
  {
  }

  lemma FreeEntryIs(es: seq<Dirent>, k: nat)
    requires k <= |es| && (k < |es| ==> es[k].inum == 0)
    requires forall m | 0 <= m < k :: es[m].inum != 0
    ensures FreeEntryOf(es) == k
  {
  }

  // es with entry k replaced, or e appended when k is its length.
  function Place(es: seq<Dirent>, k: nat, e: Dirent): (r: seq<Dirent>)
    requires k <= |es|
    ensures |r| == if k < |es| then |es| else |es| + 1
    ensures forall m | 0 <= m < |r| :: r[m] == if m == k then e else es[m]
  {
    if k < |es| then es[k := e] else es + [e]
  }

  // Writing an encoded entry at its offset replaces or appends that entry.
  lemma PlaceEntry(content: seq<byte>, k: nat, inum: nat, name: seq<byte>)
    requires |content| % 16 == 0 && k <= |content| / 16 && inum < 0x1_0000
    ensures Entries(Overwrite(content, 16 * k, EncodeDirent(inum, name)))
         == Place(Entries(content), k, Dirent(inum, NameOf(name)))
  {
    hide EncodeDirent, DecodeDirent, Clip;
    var de := EncodeDirent(inum, name);
    var content' := Overwrite(content, 16 * k, de);
    DirentRoundTrip(inum, name);
    forall m | 0 <= m < |content'| / 16
      ensures Entries(content')[m] == Place(Entries(content), k, Dirent(inum, NameOf(name)))[m]
    {
      var slice := content'[16 * m..16 * m + 16];
      if m == k {
        assert slice == de;
      } else {
        assert slice == content[16 * m..16 * m + 16];
      }
    }
  }
}
