/** Registering a name in a directory: gen_numname and dir_register. */
module DirRegister {
  import opened Arith
  import opened Volume
  import opened FatCodec
  import opened Chains
  import opened Allocator
  import opened FileImage
  import opened FileSectors
  import opened FileIO
  import opened DirTable
  import opened LongName
  import opened DirSearch
  import opened DirMatch
  import opened Directory
  import opened DirFind
  import Glob

  const NS_LFN: nat := 0x02
  const SPACE: Byte := 0x20
  const TILDE: Byte := 0x7E

  // ----- numbered names -----

  /** One bit of the hash: shift in b, and fold the overflow back by the polynomial. */
  function HashBit(sr: nat, b: nat): nat {
    var x := 2 * sr + b;
    if x >= 0x1_0000 then BitXor(x, 0x1_1021) else x
  }

  /** The hash stays within 16 bits. */
  lemma HashBitBound(sr: nat, b: nat)
    requires sr < 0x1_0000 && b <= 1
    ensures HashBit(sr, b) < 0x1_0000
  {
    Pow2Times16(1);
    Pow2Times16(0x10);
    Pow2Times16(0x100);
    Pow2Times16(0x1000);
    if 2 * sr + b >= 0x1_0000 {
      XorTop(2 * sr + b, 0x1_1021, 0x1_0000);
    }
    hide BitXor, IsPow2;
  }

  /** The hash after the lower `bits` bits of a character. */
  function HashChar(sr: nat, wc: nat, bits: nat): (r: nat)
    requires sr < 0x1_0000
    ensures r < 0x1_0000
    decreases bits
  {
    HashBitBound(sr, wc % 2);
    if bits == 0 then sr else HashChar(HashBit(sr, wc % 2), wc / 2, bits - 1)
  }

  /** The hash after the characters of a name. */
  function HashName(sr: nat, n: seq<WChar>): (r: nat)
    requires sr < 0x1_0000
    ensures r < 0x1_0000
    decreases |n|
  {
    if n == [] then sr else HashName(HashChar(sr, n[0], 16), n[1..])
  }

  /** The number a short name gets for a sequence number: on many collisions a hash of the long name. */
  function NumberOf(seqNo: nat, n: seq<WChar>): (r: nat)
    requires seqNo < 0x1_0000
    ensures r < 0x1_0000
  {
    if seqNo > 5 then HashName(seqNo, n) else seqNo
  }

  /** "Create a CRC". */
  method Hash(lfn: seq<WChar>, seqNo: nat, ghost n: seq<WChar>) returns (sr: nat)
    requires Holds(lfn, n) && IsName(n) && seqNo < 0x1_0000
    ensures sr == HashName(seqNo, n)
  {
    hide HashBit, IsName, Slot, Holds;
    sr := seqNo;
    var k: nat := 0;
    CharIs(lfn, n, k);
    assert n[0..] == n;
    while lfn[k] != 0
      invariant k <= |n| && sr < 0x1_0000 && k < |lfn| && (lfn[k] == 0 <==> k == |n|)
      invariant HashName(sr, n[k..]) == HashName(seqNo, n)
      decreases |n| - k
    {
      CharIs(lfn, n, k);
      var wc: nat := lfn[k];
      k := k + 1;
      CharIs(lfn, n, k);
      assert n[k - 1..][1..] == n[k..];
      ghost var sr0 := sr;
      var i: nat := 0;
      while i < 16
        invariant i <= 16 && sr < 0x1_0000
        invariant HashChar(sr, wc, 16 - i) == HashChar(sr0, n[k - 1], 16)
      {
        HashBitBound(sr, wc % 2);
        sr := HashBit(sr, wc % 2);
        wc := wc / 2;
        i := i + 1;
      }
    }
  }

  lemma CharIs(b: seq<WChar>, n: seq<WChar>, p: nat)
    requires Holds(b, n) && IsName(n) && p <= |n|
    ensures p < |b| && (b[p] == 0 <==> p == |n|) && (p < |n| ==> b[p] == n[p])
  {
    SlotIs(b, n, p);
  }

  // ----- the number in hexadecimal -----

  function HexChar(x: nat): (c: Byte)
    requires x < 16
    ensures HexDigit(c) && DigitOf(c) == x
  {
    if x < 10 then 0x30 + x else 0x37 + x
  }

  predicate HexDigit(c: Byte) {
    0x30 <= c <= 0x39 || 0x41 <= c <= 0x46
  }

  function DigitOf(c: Byte): nat {
    if c <= 0x39 then (if c < 0x30 then 0 else c - 0x30) else if c < 0x41 then 0 else c - 0x37
  }

  /** Hexadecimal digits, the highest first, without leading zeros. */
  function HexDigits(x: nat): (s: seq<Byte>)
    ensures s != [] && forall k :: 0 <= k < |s| ==> HexDigit(s[k])
  {
    if x < 16 then [HexChar(x)] else HexDigits(x / 16) + [HexChar(x % 16)]
  }

  /** The number hexadecimal digits stand for. */
  function HexOf(s: seq<Byte>): nat {
    if s == [] then 0 else 16 * HexOf(s[..|s| - 1]) + DigitOf(s[|s| - 1])
  }

  /** The digits read back as the number; the first is 0 only if the number is. */
  lemma {:induction false} HexRoundTrip(x: nat)
    ensures HexOf(HexDigits(x)) == x && (DigitOf(HexDigits(x)[0]) == 0 ==> x == 0)
  {
    if x < 16 {
      assert HexDigits(x)[..0] == [];
    } else {
      HexRoundTrip(x / 16);
      assert HexDigits(x)[..|HexDigits(x)| - 1] == HexDigits(x / 16);
      assert HexDigits(x)[0] == HexDigits(x / 16)[0];
    }
  }

  /** Numbers below 16^k have at most k digits. */
  lemma HexLength(x: nat)
    requires x < 0x1_0000
    ensures |HexDigits(x)| <= 4
  {
    var a, b := x / 16, x / 16 / 16;
    assert |HexDigits(b / 16)| == 1 && |HexDigits(b)| <= 2;
    assert |HexDigits(a)| <= 3;
  }

  /** The number behind a tilde. */
  function Tail(number: nat): (m: seq<Byte>)
    ensures |m| >= 2
  {
    [TILDE] + HexDigits(number)
  }

  /** "itoa (hexadecimal)": the tail at the end of the buffer. */
  method Digits(ns: array<Byte>, seqNo: nat) returns (i: nat)
    requires ns.Length == 8 && seqNo < 0x1_0000
    modifies ns
    ensures 3 <= i <= 6 && ns[i..] == Tail(seqNo)
  {
    hide HexDigits;
    HexLength(seqNo);
    i := 7;
    ghost var number := seqNo;
    var seqNo: nat := seqNo;
    assert HexDigits(number) + ns[8..] == HexDigits(number);
    while true
      invariant 3 < i <= 7 && HexDigits(number) == HexDigits(seqNo) + ns[i + 1..]
      decreases i
    {
      var c := seqNo % 16 + 0x30;
      if c > 0x39 {
        c := c + 7;
      }
      DigitNext(seqNo);
      ghost var s := ns[i + 1..];
      ns[i] := c;
      assert ns[i..] == [c] + s;
      i := i - 1;
      seqNo := seqNo / 16;
      if seqNo == 0 {
        break;
      }
    }
    ghost var s := ns[i + 1..];
    ns[i] := TILDE;
    assert ns[i..] == [TILDE] + s;
  }

  lemma DigitNext(x: nat)
    ensures HexChar(x % 16) == if x % 16 + 0x30 > 0x39 then x % 16 + 0x37 else x % 16 + 0x30
    ensures HexDigits(x) == (if x / 16 == 0 then [] else HexDigits(x / 16)) + [HexChar(x % 16)]
    ensures |HexDigits(x)| >= 1
  {
  }

  // ----- numbered names -----

  /** Bytes of the name kept in front of a tail at place i: up to a space, without splitting a two-byte character. */
  function KeptLen(src: seq<Byte>, i: nat, j: nat): (r: nat)
    requires j <= i <= |src|
    ensures j <= r <= i
    decreases i - j
  {
    if j == i || src[j] == SPACE || (Glob.IsDBCS1(src[j]) && j == i - 1) then j
    else KeptLen(src, i, if Glob.IsDBCS1(src[j]) then j + 2 else j + 1)
  }

  /** A character of the name starts, or the name ends, at place k: a lead byte takes the byte behind it along. */
  ghost predicate Boundary(src: seq<Byte>, k: nat)
    requires k <= |src|
    decreases k
  {
    || k == 0
    || ((src[k - 1] < 0x81 || src[k - 1] == 0xFF) && Boundary(src, k - 1))
    || (k >= 2 && 0x81 <= src[k - 2] <= 0xFE && Boundary(src, k - 2))
  }

  /** Whole characters, none of them a space, make up the first k bytes. */
  ghost predicate Prefix(src: seq<Byte>, k: nat)
    requires k <= |src|
  {
    Boundary(src, k) && forall h: nat :: h < k && Boundary(src, h) ==> src[h] != 0x20
  }

  /** The prefix kept is the longest of whole characters that has no space and ends in front of place i. */
  lemma KeptIs(src: seq<Byte>, i: nat)
    requires i <= |src|
    ensures var r := KeptLen(src, i, 0);
      Prefix(src, r) && forall k: nat :: k <= i && Prefix(src, k) ==> k <= r
  {
    KeptFrom(src, i, 0);
  }

  lemma {:induction false} KeptFrom(src: seq<Byte>, i: nat, j: nat)
    requires j <= i <= |src| && Prefix(src, j)
    ensures var r := KeptLen(src, i, j);
      Prefix(src, r) && forall k: nat :: k <= i && Prefix(src, k) ==> k <= r
    decreases i - j
  {
    KeptStep(src, i, j);
    hide KeptLen, Boundary;
    if j < i {
      NextBoundary(src, j, i);
      if src[j] != SPACE && !(Glob.IsDBCS1(src[j]) && j == i - 1) {
        KeptFrom(src, i, if Glob.IsDBCS1(src[j]) then j + 2 else j + 1);
      }
    }
  }

  /** No character starts behind a lead byte that starts one. */
  lemma {:induction false} OneWay(src: seq<Byte>, j: nat)
    requires j < |src| && Boundary(src, j) && 0x81 <= src[j] <= 0xFE
    ensures !Boundary(src, j + 1)
    decreases j
  {
    if j > 0 && 0x81 <= src[j - 1] <= 0xFE && Boundary(src, j - 1) {
      OneWay(src, j - 1);
    }
  }

  /** From one character to the next. */
  lemma NextBoundary(src: seq<Byte>, j: nat, i: nat)
    requires j < i <= |src| && Boundary(src, j)
    ensures var n := if Glob.IsDBCS1(src[j]) then j + 2 else j + 1;
      && (n <= |src| ==> Boundary(src, n))
      && forall k: nat :: j < k <= i && Boundary(src, k) ==> k >= n
  {
    if Glob.IsDBCS1(src[j]) {
      OneWay(src, j);
    }
  }

  /** The short name src with a number: a prefix, the tail, spaces, the extension and the flags byte. */
  function NumName(src: seq<Byte>, number: nat, flags: Byte): (d: seq<Byte>)
    requires |src| >= 11 && number < 0x1_0000
    ensures |d| == 12 && d[11] == flags
  {
    HexLength(number);
    var m := Tail(number);
    var j := KeptLen(src, 8 - |m|, 0);
    src[..j] + m + seq(8 - j - |m|, _ => SPACE) + src[8..11] + [flags]
  }

  /** What a numbered name consists of. */
  lemma NumNameIs(src: seq<Byte>, number: nat, flags: Byte)
    requires |src| >= 11 && number < 0x1_0000
    ensures var d, m := NumName(src, number, flags), Tail(number);
      && m[0] == 0x7E && HexOf(m[1..]) == number && (forall k :: 1 <= k < |m| ==> HexDigit(m[k]))
      && exists j: nat :: j + |m| <= 8 && d[..j] == src[..j] && d[j..j + |m|] == m
           && (forall k :: j + |m| <= k < 8 ==> d[k] == 0x20) && d[8..11] == src[8..11]
           && Prefix(src, j) && forall k: nat :: k + |m| <= 8 && Prefix(src, k) ==> k <= j
  {
    hide HexOf, HexDigits, KeptLen, Prefix;
    HexLength(number);
    KeptIs(src, 8 - |Tail(number)|);
    HexRoundTrip(number);
    var d, m := NumName(src, number, flags), Tail(number);
    var j := KeptLen(src, 8 - |m|, 0);
    assert m[1..] == HexDigits(number);
    NameParts(src, m, j, flags);
    hide NumName;
    assert d[..j] == src[..j];
  }

  lemma NameParts(src: seq<Byte>, m: seq<Byte>, j: nat, flags: Byte)
    requires j + |m| <= 8 && |src| >= 11
    ensures var d := src[..j] + m + seq(8 - j - |m|, _ => SPACE) + src[8..11] + [flags];
      && |d| == 12 && d[..j] == src[..j] && d[j..j + |m|] == m && d[8..11] == src[8..11]
      && forall k :: j + |m| <= k < 8 ==> d[k] == 0x20
  {
    var a, b := src[..j] + m, src[..j] + m + seq(8 - j - |m|, _ => SPACE);
    assert |b| == 8 && b[..j + |m|] == a && a[..j] == src[..j] && a[j..] == m;
    var d := b + src[8..11] + [flags];
    assert d[..8] == b && d[8..11] == src[8..11];
    assert d[..j] == d[..8][..j] && d[j..j + |m|] == d[..8][j..j + |m|] == b[..j + |m|][j..];
  }

  /** gen_numname: the short name src with a number. */
  method GenNumname(dst: array<Byte>, src: seq<Byte>, lfn: seq<WChar>, seqNo: nat, ghost n: seq<WChar>)
    requires dst.Length == 12 && |src| >= 11 && seqNo < 0x1_0000 && Holds(lfn, n) && IsName(n)
    modifies dst
    ensures dst[..] == NumName(src, NumberOf(seqNo, n), old(dst[11]))
  {
    hide Holds, IsName, HexDigits, HashName, KeptLen;
    forall k | 0 <= k < 11 {
      dst[k] := src[k];
    }
    var sr := seqNo;
    if seqNo > 5 {
      sr := Hash(lfn, seqNo, n);
    }
    var ns := new Byte[8];
    var i := Digits(ns, sr);
    var p: nat := 0;
    while p < i && dst[p] != SPACE
      invariant p <= i && KeptLen(src, i, p) == KeptLen(src, i, 0) && ns[i..] == Tail(sr)
      invariant dst[11] == old(dst[11]) && forall k :: 0 <= k < 11 ==> dst[k] == src[k]
    {
      KeptStep(src, i, p);
      if Glob.IsDBCS1(dst[p]) {
        if p == i - 1 {
          break;
        }
        p := p + 1;
      }
      p := p + 1;
    }
    KeptStep(src, i, p);
    ghost var m := ns[i..];
    assert m == Tail(sr) && forall k :: 0 <= k < |m| ==> m[k] == ns[i + k];
    PutTail(dst, ns, i, p);
    forall k | p <= k < p + |m|
      ensures dst[k] == m[k - p]
    {
      assert m[k - p] == ns[i + (k - p)];
    }
    NumNameMade(dst[..], src, sr, p, old(dst[11]));
  }

  lemma KeptStep(src: seq<Byte>, i: nat, j: nat)
    requires j <= i <= |src|
    ensures KeptLen(src, i, j) ==
              if j == i || src[j] == SPACE || (Glob.IsDBCS1(src[j]) && j == i - 1) then j
              else KeptLen(src, i, if Glob.IsDBCS1(src[j]) then j + 2 else j + 1)
  {
  }

  lemma NumNameMade(d: seq<Byte>, src: seq<Byte>, number: nat, j: nat, flags: Byte)
    requires |d| == 12 && |src| >= 11 && number < 0x1_0000 && d[11] == flags && |Tail(number)| <= 5
    requires j == KeptLen(src, 8 - |Tail(number)|, 0)
    requires forall k :: 0 <= k < j ==> d[k] == src[k]
    requires forall k :: j <= k < j + |Tail(number)| ==> d[k] == Tail(number)[k - j]
    requires forall k :: j + |Tail(number)| <= k < 8 ==> d[k] == SPACE
    requires forall k :: 8 <= k < 11 ==> d[k] == src[k]
    ensures d == NumName(src, number, flags)
  {
    hide Tail, KeptLen;
    HexLength(number);
    Pieces(d, src, Tail(number), j);
  }

  lemma Pieces(d: seq<Byte>, src: seq<Byte>, m: seq<Byte>, j: nat)
    requires |d| == 12 && |src| >= 11 && j + |m| <= 8
    requires forall k :: 0 <= k < j ==> d[k] == src[k]
    requires forall k :: j <= k < j + |m| ==> d[k] == m[k - j]
    requires forall k :: j + |m| <= k < 8 ==> d[k] == SPACE
    requires forall k :: 8 <= k < 11 ==> d[k] == src[k]
    ensures d == src[..j] + m + seq(8 - j - |m|, _ => SPACE) + src[8..11] + [d[11]]
  {
    assert d[..j] == src[..j];
    assert d[..j + |m|] == src[..j] + m;
    assert d[..8] == d[..j + |m|] + seq(8 - j - |m|, _ => SPACE);
    assert d[..11] == d[..8] + src[8..11];
  }

  /** "Append the number." */
  method PutTail(dst: array<Byte>, ns: array<Byte>, i0: nat, j0: nat)
    requires dst.Length == 12 && ns.Length == 8 && dst != ns && j0 <= i0 < 8
    modifies dst
    ensures forall k :: 0 <= k < j0 ==> dst[k] == old(dst[k])
    ensures forall k :: j0 <= k < j0 + (8 - i0) ==> dst[k] == ns[k - j0 + i0]
    ensures forall k :: j0 + (8 - i0) <= k < 8 ==> dst[k] == SPACE
    ensures forall k :: 8 <= k < 12 ==> dst[k] == old(dst[k])
  {
    var i, j := i0, j0;
    while j < 8
      invariant j0 <= j <= 8 && i0 <= i <= 8 && (i < 8 ==> i - i0 == j - j0) && (i == 8 ==> 8 - i0 <= j - j0)
      invariant forall k :: 0 <= k < j0 ==> dst[k] == old(dst[k])
      invariant forall k :: j0 <= k < j0 + (i - i0) ==> dst[k] == ns[k - j0 + i0]
      invariant forall k :: j0 + (8 - i0) <= k < j ==> dst[k] == SPACE
      invariant forall k :: 8 <= k < 12 ==> dst[k] == old(dst[k])
    {
      if i < 8 {
        dst[j] := ns[i];
        i := i + 1;
      } else {
        dst[j] := SPACE;
      }
      j := j + 1;
    }
  }

  // ----- writing entries -----

  /** `move_window` has been done: put e at the current entry and mark the window dirty. */
  method StoreEntry(dp: DIR, e: seq<Byte>)
    requires dp.Valid() && dp.At(dp.index) && dp.fs.winsect == dp.sect && |e| == 32
    modifies dp.fs`wflag, dp.fs.win
    ensures dp.Valid() && |dp.fs.View()| == |old(dp.fs.View())| && dp.Name() == old(dp.Name())
    ensures dp.index < |old(dp.Entries())| && dp.Entries() == old(dp.Entries())[dp.index := e]
    ensures WorksOn(old(dp.fs.View()), old(dp.fs.winsect), dp.fs.View(), dp.fs.winsect, dp.fs.g, dp.Secs())
    ensures CountKept(dp.fs)
  {
    hide Owns, Fat, FileSectors.Secs, Table, DirSecs, Sizes, Layout, Uniform, CountFree, Slots, EIdx, EOfs, Eps;
    hide InFatArea, InFat, InMirror, Store, Patched, Mirrored;
    dp.Facts();
    ghost var fs, v, secs := dp.fs, dp.fs.View(), dp.Secs();
    SectorOutside(fs.g, v, secs, dp.sect);
    EntInside(v, fs.g, secs, dp.index);
    PutEntry(v, fs.g, secs, dp.index, e);
    PatchLength(fs.win[..], dp.dir, e);
    PatchView(fs.disk.sec, fs.g, dp.sect, fs.win[..], fs.wflag, Patched(fs.win[..], dp.dir, e));
    forall k | 0 <= k < 32 {
      dp.fs.win[dp.dir + k] := e[k];
    }
    dp.fs.wflag := true;
    assert fs.win[..] == Patched(old(fs.win[..]), dp.dir, e) by {
      PatchIs(old(fs.win[..]), fs.win[..], dp.dir, e);
    }
    SectorFat(v, v[dp.sect := fs.win[..]], fs.g, dp.sect);
  }

  lemma SectorOutside(g: Geom, v: Sectors, secs: seq<nat>, s: nat)
    requires SoundSecs(g, v, secs) && s in secs
    ensures s < |v| && !InFatArea(g, s) && !InFat(g, s) && !InMirror(g, s)
  {
  }

  lemma PatchLength(w: seq<Byte>, o: nat, e: seq<Byte>)
    requires o + |e| <= |w|
    ensures |Patched(w, o, e)| == |w|
  {
  }

  lemma PatchIs(w: seq<Byte>, w': seq<Byte>, o: nat, e: seq<Byte>)
    requires o + |e| <= |w| && |w'| == |w|
    requires forall k :: 0 <= k < |e| ==> w'[o + k] == e[k]
    requires forall k :: 0 <= k < |w| && !(o <= k < o + |e|) ==> w'[k] == w[k]
    ensures w' == Patched(w, o, e)
  {
    forall k | 0 <= k < |w|
      ensures w'[k] == Patched(w, o, e)[k]
    {
      if o <= k < o + |e| {
        assert w'[o + (k - o)] == e[k - o];
      }
    }
  }

  /** A new window on a sector outside the FAT replaces that sector. */
  lemma PatchView(sec: Sectors, g: Geom, s: nat, w: seq<Byte>, dirty: bool, w': seq<Byte>)
    requires s < |sec| && !InFat(g, s) && (!dirty ==> w == sec[s])
    ensures Overlay(sec, g, s, w', true) == Overlay(sec, g, s, w, dirty)[s := w']
    ensures Overlay(sec, g, s, w, dirty)[s] == w
  {
    StoreOutside(sec, g, s, w);
    StoreOutside(sec, g, s, w');
  }

  lemma SectorFat(v: Sectors, v': Sectors, g: Geom, s: nat)
    requires Layout(g, |v|) && Sizes(g, |v|) && |v'| == |v| && s < |v| && !InFat(g, s)
    requires forall k :: 0 <= k < |v| && k != s ==> v'[k] == v[k]
    ensures Fat(v', g) == Fat(v, g)
    ensures Mirrored(v, g) && !InMirror(g, s) ==> Mirrored(v', g)
  {
    hide Sizes, Fat;
    FatFrame(v, v', g);
  }

  lemma ReplacedNext(t: seq<seq<Byte>>, start: nat, es: seq<seq<Byte>>, e: seq<Byte>)
    requires start + |es| < |t|
    ensures Replaced(t, start, es)[start + |es| := e] == Replaced(t, start, es + [e])
  {
  }

  lemma ReplacedNone(t: seq<seq<Byte>>, start: nat)
    requires start <= |t|
    ensures Replaced(t, start, []) == t
  {
  }

  /** The first |es| long entries of a name, last part first. */
  ghost predicate Started(es: seq<seq<Byte>>, n: seq<WChar>, sum: Byte, all: nat) {
    |es| <= all && forall k: nat :: k < |es| ==> Encodes(es[k], n, all - k, sum)
  }

  lemma StartedNext(es: seq<seq<Byte>>, n: seq<WChar>, sum: Byte, all: nat, e: seq<Byte>)
    requires Started(es, n, sum, all) && |es| < all && Encodes(e, n, all - |es|, sum)
    ensures Started(es + [e], n, sum, all)
  {
    hide Encodes;
  }

  /** "Set LFN entry if needed": store the long entries, last part first, in front of entry p. */
  method WriteLong(dp: DIR, buf: seq<WChar>, nent: nat, sum: Byte, ghost n: seq<WChar>)
    returns (ghost es: seq<seq<Byte>>)
    requires dp.Valid() && dp.At(dp.index) && nent <= dp.index
    requires Holds(buf, n) && IsName(n) && nent == LongName.Entries(|n|)
    modifies dp`index, dp`clust, dp`sect, dp`dir, dp`chain, dp.fs, dp.fs.win, dp.fs.disk
    ensures dp.Valid() && dp.At(dp.index) && dp.index == old(dp.index) && |dp.fs.View()| == |old(dp.fs.View())|
    ensures dp.chain == old(dp.chain) && dp.Name() == old(dp.Name())
    ensures |es| == nent && dp.index < |old(dp.Entries())| && Encoded(es, n, sum)
    ensures dp.Entries() == Replaced(old(dp.Entries()), dp.index - nent, es)
    ensures WorksOn(old(dp.fs.View()), old(dp.fs.winsect), dp.fs.View(), dp.fs.winsect, dp.fs.g, dp.Secs())
    ensures CountKept(dp.fs)
  {
    hide Owns, Fat, FATFS.View, FATFS.Valid, FileSectors.Secs, Table, DirSecs, Standing, Slots, CountFree, FreeExact;
    hide WorksOn, Grown, Extends, IsChain, Encodes, Holds, IsName, LongName.Entries, Replaced, Started, InFat;
    ghost var p, t, v0, w0 := dp.index, dp.Entries(), dp.fs.View(), dp.fs.winsect;
    ExtendsSame(dp.Secs());
    Shapes(dp);
    es := [];
    ReplacedNone(t, p - nent);
    NothingStarted(n, sum, nent);
    var res := dp.Sdi(dp.index - nent);
    LooksOnly(v0, w0, dp.fs.winsect, dp.fs.g, dp.Secs());
    var ord: nat := nent;
    while ord > 0
      invariant ord <= nent && dp.Valid() && dp.At(dp.index) && dp.index == p - ord && |dp.fs.View()| == |v0|
      invariant dp.chain == old(dp.chain) && dp.Name() == old(dp.Name())
      invariant |es| == nent - ord && Started(es, n, sum, nent) && dp.Entries() == Replaced(t, p - nent, es)
      invariant WorksOn(v0, w0, dp.fs.View(), dp.fs.winsect, dp.fs.g, dp.Secs())
      invariant CountKept(dp.fs)
    {
      ghost var e;
      ghost var v1, w1 := dp.fs.View(), dp.fs.winsect;
      e := WriteLongEntry(dp, buf, ord, sum, n, p);
      ReplacedNext(t, p - nent, es, e);
      StartedNext(es, n, sum, nent, e);
      SecsGrow(v0, w0, v1, w1, dp.fs.View(), dp.fs.winsect, dp.fs.g, dp.Secs(), dp.Secs());
      es := es + [e];
      ord := ord - 1;
    }
    AllStarted(es, n, sum, nent);
  }

  lemma NothingStarted(n: seq<WChar>, sum: Byte, all: nat)
    ensures Started([], n, sum, all)
  {
  }

  lemma AllStarted(es: seq<seq<Byte>>, n: seq<WChar>, sum: Byte, all: nat)
    requires Started(es, n, sum, all) && |es| == all == LongName.Entries(|n|)
    ensures Encoded(es, n, sum)
  {
    hide Encodes;
  }

  /** One long entry, and on to the next entry. */
  method WriteLongEntry(dp: DIR, buf: seq<WChar>, ord: nat, sum: Byte, ghost n: seq<WChar>, ghost p: nat)
    returns (ghost e: seq<Byte>)
    requires dp.Valid() && dp.At(dp.index) && Holds(buf, n) && IsName(n) && 1 <= ord <= LongName.Entries(|n|)
    requires p == dp.index + ord && p < |dp.Entries()|
    modifies dp`index, dp`clust, dp`sect, dp`dir, dp`chain, dp.fs, dp.fs.win, dp.fs.disk
    ensures dp.Valid() && dp.At(dp.index) && dp.index == old(dp.index) + 1 && |dp.fs.View()| == |old(dp.fs.View())|
    ensures dp.chain == old(dp.chain) && dp.Name() == old(dp.Name())
    ensures Encodes(e, n, ord, sum) && dp.Entries() == old(dp.Entries())[old(dp.index) := e]
    ensures WorksOn(old(dp.fs.View()), old(dp.fs.winsect), dp.fs.View(), dp.fs.winsect, dp.fs.g, dp.Secs())
    ensures CountKept(dp.fs)
  {
    hide Owns, Fat, FATFS.View, FATFS.Valid, FileSectors.Secs, Table, DirSecs, Standing, Slots, CountFree, FreeExact;
    hide KeepsRest, Grown, Extends, IsChain, Encodes, Holds, IsName, LongName.Entries;
    Shapes(dp);
    var res := dp.Show();
    var tmp := new Byte[32];
    FitLfn(buf, tmp, ord, sum, n);
    e := tmp[..];
    StoreEntry(dp, tmp[..]);
    Shapes(dp);
    res := dp.Next(false);
  }

  /** A new short entry of a name: the name, no attributes, the two case flags, and no more. Its times, its first
      cluster and its size are 0. */
  ghost predicate NewEntry(e: seq<Byte>, fn: seq<Byte>) {
    && |e| == 32 && |fn| == 12 && e[..11] == fn[..11] && e[11] == 0 && e[12] == 8 * (fn[11] / 8 % 4)
    && forall k :: 13 <= k < 32 ==> e[k] == 0
  }

  /** It has no cluster and no bytes yet. */
  lemma NewEntryEmpty(e: seq<Byte>, fn: seq<Byte>)
    requires NewEntry(e, fn)
    ensures LdWord(e[20], e[21]) == LdWord(e[26], e[27]) == 0 && LdDword(e[28], e[29], e[30], e[31]) == 0
  {
  }

  lemma CaseFlags(x: nat)
    ensures BitAnd(x, 0x18) == 8 * (x / 8 % 4)
  {
    hide BitAnd;
    AndHalf(x, 12);
    AndHalf(x / 2, 6);
    AndHalf(x / 4, 3);
    assert IsPow2(4);
    MaskIsMod(x / 8, 4);
  }

  lemma ShortIsNew(fn: seq<Byte>)
    requires |fn| == 12
    ensures NewEntry(ShortBytes(fn), fn)
  {
    hide BitAnd;
    CaseFlags(fn[11]);
    var e := ShortBytes(fn);
    assert forall k :: 13 <= k < 32 ==> e[k] == Zeros(19)[k - 13];
  }

  /** The bytes of a short entry: the name, the case flags, and zeros. */
  function ShortBytes(fn: seq<Byte>): (e: seq<Byte>)
    requires |fn| == 12
    ensures |e| == 32 && e[..11] == fn[..11] && e[11] == 0
  {
    fn[..11] + [0, BitAnd(fn[NSFLAG], 0x18) % 256] + Zeros(19)
  }

  /** "Set SFN entry." */
  method WriteShort(dp: DIR)
    requires dp.Valid() && dp.At(dp.index)
    modifies dp.fs`winsect, dp.fs`wflag, dp.fs.win, dp.fs.disk
    ensures dp.Valid() && |dp.fs.View()| == |old(dp.fs.View())|
    ensures dp.Name() == old(dp.Name()) && dp.fs.winsect == dp.sect
    ensures |dp.Name().fn| == 12 && dp.index < |old(dp.Entries())|
    ensures dp.Entries() == old(dp.Entries())[dp.index := ShortBytes(dp.Name().fn)]
    ensures NewEntry(dp.Entries()[dp.index], dp.Name().fn)
    ensures WorksOn(old(dp.fs.View()), old(dp.fs.winsect), dp.fs.View(), dp.fs.winsect, dp.fs.g, dp.Secs())
    ensures CountKept(dp.fs)
  {
    hide Owns, Fat, FATFS.View, FATFS.Valid, FileSectors.Secs, Table, DirSecs, Standing, Slots, CountFree, FreeExact;
    hide KeepsRest, ShortBytes, WorksOn, InFat, NewEntry;
    ghost var v, w := dp.fs.View(), dp.fs.winsect;
    ExtendsSame(dp.Secs());
    var res := dp.Show();
    ghost var w1 := dp.fs.winsect;
    LooksOnly(v, w, w1, dp.fs.g, dp.Secs());
    StoreEntry(dp, ShortBytes(dp.fn[..]));
    SecsGrow(v, w, v, w1, dp.fs.View(), dp.fs.winsect, dp.fs.g, dp.Secs(), dp.Secs());
    ShortIsNew(dp.Name().fn);
  }

  // ----- dir_register -----

  /** A long name entry is wanted. */
  predicate LongWanted(fn: seq<Byte>)
    requires |fn| == 12
  {
    BitAnd(fn[NSFLAG], NS_LFN) != 0
  }

  lemma LfnFlag(fn: seq<Byte>)
    requires |fn| == 12
    ensures LongWanted(fn) <==> fn[11] / 2 % 2 == 1
  {
    hide BitAnd;
    AndHalf(fn[11], 1);
    MaskIsMod(fn[11] / 2, 2);
  }

  /** t2 is the (possibly grown) table t with the name's entries in its first long enough row of free
      entries, ending with entry p. */
  ghost predicate Registered(t: seq<seq<Byte>>, t2: seq<seq<Byte>>, p: nat, q: Query, n: seq<WChar>) {
    exists t1: seq<seq<Byte>>, es: seq<seq<Byte>> :: RegisteredBy(t, t1, t2, p, q, n, es)
  }

  ghost predicate RegisteredBy(t: seq<seq<Byte>>, t1: seq<seq<Byte>>, t2: seq<seq<Byte>>, p: nat, q: Query,
                               n: seq<WChar>, es: seq<seq<Byte>>) {
    && |q.fn| == 12 && Grown(t, t1) && FirstRun(t1, |es| + 1, p) && NewRow(es, ShortBytes(q.fn), q, n)
    && (es != [] <==> q.fn[11] / 2 % 2 == 1)
    && |es| <= p && p < |t1| && t2 == Replaced(t1, p - |es|, es + [ShortBytes(q.fn)])
    && NewEntry(t2[p], q.fn)
  }

  lemma RegisteredEntry(t: seq<seq<Byte>>, t2: seq<seq<Byte>>, p: nat, q: Query, n: seq<WChar>)
    requires Registered(t, t2, p, q, n)
    ensures p < |t2| && NewEntry(t2[p], q.fn)
  {
    hide NewEntry, Grown, FirstRun, NewRow, ShortBytes;
  }

  /** Finding after registering: a name that was not in a well-ended directory is found at its new
      short entry if and only if its short name is exact or it has at most 254 characters; all live
      entries are as they were. */
  lemma FoundAfterRegister(up: WChar -> WChar, q: Query, q': Query, t: seq<seq<Byte>>, t2: seq<seq<Byte>>,
                           p: nat, n: seq<WChar>)
    requires DirSearch.Shaped(t) && WellEnded(t) && SameDecisions(q, q') && KeepsZero(up)
    requires Search(up, q, t, 0, BROKEN) == |t|
    requires Registered(t, t2, p, q', n)
    ensures DirSearch.Shaped(t2) && WellEnded(t2) && |t2| >= |t|
    ensures p < |t2| && |q'.fn| == 12
    ensures Search(up, q', t2, 0, BROKEN) == p <==> !Lossy(q'.fn) || |n| <= 254
    ensures forall i :: 0 <= i < |t| && !FreeEntry(t[i]) ==> t2[i] == t[i]
  {
    hide Search, WellEnded, SameDecisions, NewRow, FirstRun, Lossy, ShortBytes, LongWanted, KeepsZero, NewEntry;
    var t1: seq<seq<Byte>>, es: seq<seq<Byte>> :| RegisteredBy(t, t1, t2, p, q', n, es);
    RegisteredIsFound(up, q, q', t, t1, p, es, ShortBytes(q'.fn), n);
  }

  /** A search for a short name that finds nothing: no live short entry of a well-ended directory
      bears the name. */
  lemma {:induction false} NoSuchShortName(up: WChar -> WChar, q: Query, t: seq<seq<Byte>>, i: nat, st: Run, j: nat)
    requires DirSearch.Shaped(t) && WellEnded(t) && QueryOk(q) && !Lossy(q.fn) && i <= j < |t|
    requires Search(up, q, t, i, st) == |t|
    requires !EndEntry(t[j]) && !Skipped(t[j]) && !IsLong(t[j])
    ensures t[j][..11] != q.fn[..11]
    decreases j - i
  {
    hide Behind, Skipped, IsLong, Lossy;
    assert !EndEntry(t[i]);
    if i >= j {
    } else {
      NoSuchShortName(up, q, t, i + 1, Behind(up, q, st, t[i]), j);
    }
  }

  predicate GoodFirst(fn: seq<Byte>) {
    fn != [] && fn[0] != 0 && fn[0] != DDEM
  }

  lemma NumNameGood(sn: seq<Byte>, number: nat, flags: Byte)
    requires |sn| >= 11 && number < 0x1_0000 && GoodFirst(sn)
    ensures GoodFirst(NumName(sn, number, flags))
  {
    hide HexOf, HexDigits;
    NumNameIs(sn, number, flags);
    var d, m := NumName(sn, number, flags), Tail(number);
    var j: nat :| j + |m| <= 8 && d[..j] == sn[..j] && d[j..j + |m|] == m;
    if j == 0 {
      assert d[0] == d[0..|m|][0] == m[0];
    } else {
      assert d[0] == d[..j][0] == sn[..j][0];
    }
  }

  /** The k-th numbered name is in the directory. */
  ghost predicate Taken(up: WChar -> WChar, sn: seq<Byte>, n: seq<WChar>, t: seq<seq<Byte>>, k: nat) {
    && |sn| == 12 && k < 0x1_0000 && DirSearch.Shaped(t)
    && Search(up, Query(NumName(sn, NumberOf(k, n), 0), NoLfn), t, 0, BROKEN) < |t|
  }

  /** All numbered names before the k-th are. */
  ghost predicate TakenBefore(up: WChar -> WChar, sn: seq<Byte>, n: seq<WChar>, t: seq<seq<Byte>>, k: nat) {
    forall i: nat :: 1 <= i < k ==> Taken(up, sn, n, t, i)
  }

  /** "Find only SFN": the first of the numbers 1 to 99 whose name is not in the directory, or 100. */
  method NumberName(dp: DIR, up: WChar -> WChar, sn: seq<Byte>, buf: seq<WChar>, ghost n: seq<WChar>)
    returns (res: FResult, k: nat)
    requires dp.Valid() && |sn| == 12 && dp.fn[NSFLAG] == 0 && dp.lfn == NoLfn && Holds(buf, n) && IsName(n)
    modifies dp`index, dp`clust, dp`sect, dp`dir, dp`chain, dp.fn, dp.fs, dp.fs.win, dp.fs.disk
    ensures dp.Valid() && dp.fs.View() == old(dp.fs.View()) && dp.chain == old(dp.chain)
    ensures dp.Entries() == old(dp.Entries()) && DirSearch.Shaped(dp.Entries()) && QueryOk(dp.Name())
    ensures 1 <= k <= 100 && TakenBefore(up, sn, n, dp.Entries(), k)
    ensures k < 100 ==> dp.fn[..] == NumName(sn, NumberOf(k, n), 0)
    ensures k < 100 ==> res == if dp.Entries() == [] then IntErr else NoFile
    ensures k < 100 ==> Search(up, dp.Name(), dp.Entries(), 0, BROKEN) == |dp.Entries()|
    ensures WindowIn(old(dp.fs.winsect), dp.fs.winsect, dp.fs.g, dp.Secs())
    ensures CountKept(dp.fs)
  {
    hide Owns, Fat, FATFS.View, FATFS.Valid, FileSectors.Secs, Table, DirSecs, Standing, Slots, CountFree, FreeExact;
    hide Search;
    hide NumName, NumberOf, Holds, IsName, IsChain;
    Shapes(dp);
    res, k := OK, 1;
    while k < 100
      invariant 1 <= k <= 100 && dp.Valid() && dp.fs.View() == old(dp.fs.View()) && dp.chain == old(dp.chain)
      invariant dp.fn[NSFLAG] == 0 && dp.Entries() == old(dp.Entries())
      invariant DirSearch.Shaped(dp.Entries()) && QueryOk(dp.Name())
      invariant TakenBefore(up, sn, n, dp.Entries(), k)
      invariant WindowIn(old(dp.fs.winsect), dp.fs.winsect, dp.fs.g, dp.Secs())
      invariant CountKept(dp.fs)
      decreases 100 - k
    {
      GenNumname(dp.fn, sn, buf, k, n);
      res := Find(dp, up);
      if res != OK {
        break;
      }
      assert Taken(up, sn, n, dp.Entries(), k);
      k := k + 1;
    }
  }

  /** Entries dir_register asks for. */
  function Needed(fn: seq<Byte>, n: seq<WChar>): nat
    requires |fn| == 12
  {
    if LongWanted(fn) then LongName.Entries(|n|) + 1 else 1
  }

  /** dir_alloc found no place: no row of free entries is long enough, and the table cannot grow. */
  ghost predicate NoPlace(dp: DIR, nent: nat)
    reads dp, dp.fs`winsect, dp.fs`wflag, dp.fs.win, dp.fs.disk
  {
    && dp.Entries() != [] && (forall e: nat :: !RunEnds(dp.Entries(), nent, e))
    && (dp.Fixed() || |dp.Entries()| == MAX_INDEX || NoneFree(FatOf(dp.fs)))
  }

  /** The half of dir_register that allocates the entries and stores them. */
  method PlaceEntries(dp: DIR, buf: seq<WChar>, ghost n: seq<WChar>) returns (res: FResult)
    requires dp.Valid() && dp.lfn == Lfn(buf) && Holds(buf, n) && IsName(n)
    requires GoodFirst(dp.fn[..]) && (Lossy(dp.fn[..]) ==> LongWanted(dp.fn[..]))
    modifies dp`index, dp`clust, dp`sect, dp`dir, dp`chain, dp.fs, dp.fs.win, dp.fs.disk
    ensures dp.Valid() && |dp.fs.View()| == |old(dp.fs.View())| && dp.Name() == old(dp.Name())
    ensures res == OK ==> dp.At(dp.index) && Registered(old(dp.Entries()), dp.Entries(), dp.index, dp.Name(), n)
    ensures res != OK ==> Grown(old(dp.Entries()), dp.Entries())
    ensures res == OK || res == IntErr || res == Denied
    ensures res == IntErr ==> old(dp.Entries()) == []
    ensures res == Denied ==> NoPlace(dp, Needed(dp.fn[..], n))
    ensures Extends(old(dp.Secs()), dp.Secs())
    ensures WorksOn(old(dp.fs.View()), old(dp.fs.winsect), dp.fs.View(), dp.fs.winsect, dp.fs.g, dp.Secs())
    ensures CountKept(dp.fs)
  {
    hide Owns, Fat, FATFS.View, FATFS.Valid, FileSectors.Secs, Table, DirSecs, Standing, Slots, CountFree, FreeExact;
    hide WorksOn, InFat, Grown, Extends, IsChain, Holds, IsName, LongName.Entries, Registered, Lossy, LongWanted;
    hide GoodFirst, Encoded, Replaced;
    hide RunEnds, NoneFree, SumOf, ShortBytes, NewEntry, DIR.Entries, FirstRun;
    ghost var t0, v0, w0, q := dp.Entries(), dp.fs.View(), dp.fs.winsect, dp.Name();
    Shapes(dp);
    var nent := 1;
    if LongWanted(dp.fn[..]) {
      var len := CountChars(buf, n);
      EntriesOf(n);
      nent := (len + 25) / 13;
    }
    res := dp.Alloc(nent);
    if res == OK {
      RunStart(dp.Entries(), nent, dp.index);
      ghost var t1, v1, w1, es: seq<seq<Byte>> := dp.Entries(), dp.fs.View(), dp.fs.winsect, [];
      ReplacedNone(t1, dp.index);
      ExtendsSame(dp.Secs());
      LooksOnly(v1, w1, w1, dp.fs.g, dp.Secs());
      if nent > 1 {
        var sum := SumSfn(dp.fn[..]);
        es := WriteLong(dp, buf, nent - 1, sum, n);
      }
      ghost var v2, w2 := dp.fs.View(), dp.fs.winsect;
      SecsGrow(v0, w0, v1, w1, v2, w2, dp.fs.g, dp.Secs(), dp.Secs());
      WriteShort(dp);
      SecsGrow(v0, w0, v2, w2, dp.fs.View(), dp.fs.winsect, dp.fs.g, dp.Secs(), dp.Secs());
      ReplacedNext(t1, dp.index - |es|, es, ShortBytes(q.fn));
      RegisteredWith(t0, t1, dp.Entries(), dp.index, q, n, es);
    } else {
      GrownLonger(t0, dp.Entries());
    }
  }

  lemma GrownLonger(t: seq<seq<Byte>>, t1: seq<seq<Byte>>)
    requires Grown(t, t1)
    ensures |t1| >= |t|
  {
  }

  /** Number of entries of a name. */
  lemma EntriesOf(n: seq<WChar>)
    requires IsName(n)
    ensures (|n| + 25) / 13 == LongName.Entries(|n|) + 1 && LongName.Entries(|n|) >= 1
  {
  }

  lemma RunStart(t: seq<seq<Byte>>, nent: nat, p: nat)
    requires FirstRun(t, nent, p)
    ensures p < |t| && nent <= p + 1
  {
  }

  lemma RegisteredWith(t: seq<seq<Byte>>, t1: seq<seq<Byte>>, t2: seq<seq<Byte>>, p: nat, q: Query, n: seq<WChar>,
                       es: seq<seq<Byte>>)
    requires QueryOk(q) && GoodFirst(q.fn) && (Lossy(q.fn) ==> LongWanted(q.fn)) && (es != [] <==> LongWanted(q.fn))
    requires es != [] ==> q.lfn.Lfn? && IsName(n) && Holds(q.lfn.buf, n) && Encoded(es, n, SumOf(q.fn, 11))
    requires Grown(t, t1) && FirstRun(t1, |es| + 1, p) && |es| <= p < |t1|
    requires t2 == Replaced(t1, p - |es|, es + [ShortBytes(q.fn)])
    ensures Registered(t, t2, p, q, n)
  {
    hide Grown, FirstRun, Encoded, Holds, IsName, Lossy, LongWanted, SumOf, Replaced, ShortBytes, NewEntry;
    LfnFlag(q.fn);
    ShortMade(q.fn);
    ShortIsNew(q.fn);
    ReplacedLast(t1, p - |es|, es, ShortBytes(q.fn));
    assert RegisteredBy(t, t1, t2, p, q, n, es);
  }

  lemma ReplacedLast(t: seq<seq<Byte>>, start: nat, es: seq<seq<Byte>>, e: seq<Byte>)
    requires start + |es| < |t|
    ensures Replaced(t, start, es + [e])[start + |es|] == e
  {
  }

  lemma ShortMade(fn: seq<Byte>)
    requires |fn| == 12 && GoodFirst(fn)
    ensures ShortOf(ShortBytes(fn), fn)
  {
    var e := ShortBytes(fn);
    assert e[0] == e[..11][0] == fn[..11][0];
  }

  /** The short name fn, flags aside, is not in the table t. */
  ghost predicate Unused(up: WChar -> WChar, fn: seq<Byte>, t: seq<seq<Byte>>) {
    |fn| == 12 && DirSearch.Shaped(t) && Search(up, Query(fn[NSFLAG := 0], NoLfn), t, 0, BROKEN) == |t|
  }

  /** fn is the first numbered name that the table does not hold yet, with the flags of sn. */
  ghost predicate FirstUntaken(up: WChar -> WChar, fn: seq<Byte>, sn: seq<Byte>, n: seq<WChar>, t: seq<seq<Byte>>) {
    && |sn| == 12
    && exists k: nat :: 1 <= k < 100 && TakenBefore(up, sn, n, t, k) && fn == NumName(sn, NumberOf(k, n), sn[NSFLAG])
  }

  lemma FlagsRestored(up: WChar -> WChar, fn: seq<Byte>, fn': seq<Byte>, sn: seq<Byte>, n: seq<WChar>, k: nat,
                      t: seq<seq<Byte>>)
    requires |fn| == |sn| == 12 && fn' == fn[NSFLAG := sn[NSFLAG]] && GoodFirst(sn) && DirSearch.Shaped(t)
    requires 1 <= k < 100 && fn == NumName(sn, NumberOf(k, n), 0) && TakenBefore(up, sn, n, t, k)
    requires Search(up, Query(fn, NoLfn), t, 0, BROKEN) == |t|
    ensures FirstUntaken(up, fn', sn, n, t) && GoodFirst(fn') && Unused(up, fn', t)
    ensures (Lossy(fn') <==> Lossy(sn)) && (LongWanted(fn') <==> LongWanted(sn))
  {
    hide Search, NumName, NumberOf, TakenBefore, GoodFirst, BitAnd, Lossy, LongWanted;
    NumNameGood(sn, NumberOf(k, n), sn[NSFLAG]);
    NumNameFlags(sn, NumberOf(k, n), sn[NSFLAG]);
    SameFlags(fn', sn);
    assert fn'[NSFLAG := 0] == fn;
  }

  lemma SameFlags(fn: seq<Byte>, sn: seq<Byte>)
    requires |fn| == |sn| == 12 && fn[NSFLAG] == sn[NSFLAG]
    ensures (Lossy(fn) <==> Lossy(sn)) && (LongWanted(fn) <==> LongWanted(sn))
  {
    hide BitAnd;
  }

  lemma NumNameFlags(sn: seq<Byte>, number: nat, flags: Byte)
    requires |sn| >= 11 && number < 0x1_0000
    ensures NumName(sn, number, flags) == NumName(sn, number, 0)[11 := flags]
  {
    hide HexDigits, KeptLen, Tail;
  }

  /** Why dir_register fails: all 99 numbered names are taken, or there is no place for the entries. */
  ghost predicate Refused(dp: DIR, res: FResult, up: WChar -> WChar, sn: seq<Byte>, n: seq<WChar>, t: seq<seq<Byte>>)
    requires |sn| == 12
    reads dp, dp.fs`winsect, dp.fs`wflag, dp.fs.win, dp.fs.disk
  {
    || (res == IntErr && t == [])
    || (res == Denied && ((Lossy(sn) && TakenBefore(up, sn, n, t, 100)) || NoPlace(dp, Needed(sn, n))))
  }

  /**
   * dir_register: put the name of the directory object into the directory. A name that is not in
   * 8.3 format gets a numbered short name that the directory does not hold yet.
   */
  method Register(dp: DIR, up: WChar -> WChar, ghost n: seq<WChar>) returns (res: FResult)
    requires dp.Valid() && dp.lfn.Lfn? && Holds(dp.lfn.buf, n) && IsName(n)
    requires GoodFirst(dp.fn[..]) && (Lossy(dp.fn[..]) ==> LongWanted(dp.fn[..]))
    modifies dp`index, dp`clust, dp`sect, dp`dir, dp`chain, dp`lfn, dp.fn, dp.fs, dp.fs.win, dp.fs.disk
    ensures dp.Valid() && |dp.fs.View()| == |old(dp.fs.View())|
    ensures res == OK ==>
              && dp.At(dp.index) && dp.lfn == old(dp.lfn) && dp.fn[NSFLAG] == old(dp.fn[NSFLAG])
              && Registered(old(dp.Entries()), dp.Entries(), dp.index, dp.Name(), n)
              && (if Lossy(old(dp.fn[..]))
                  then
                    && FirstUntaken(up, dp.fn[..], old(dp.fn[..]), n, old(dp.Entries()))
                    && Unused(up, dp.fn[..], old(dp.Entries()))
                  else dp.fn[..] == old(dp.fn[..]))
    ensures res == OK ==> dp.index < |dp.Entries()| && NewEntry(dp.Entries()[dp.index], dp.fn[..])
    ensures res != OK ==> Grown(old(dp.Entries()), dp.Entries())
    ensures res == OK || Refused(dp, res, up, old(dp.fn[..]), n, old(dp.Entries()))
    ensures Extends(old(dp.Secs()), dp.Secs())
    ensures WorksOn(old(dp.fs.View()), old(dp.fs.winsect), dp.fs.View(), dp.fs.winsect, dp.fs.g, dp.Secs())
    ensures CountKept(dp.fs)
  {
    hide Owns, Fat, FATFS.View, FATFS.Valid, FileSectors.Secs, Table, DirSecs, Standing, Slots, CountFree, FreeExact;
    hide Search;
    hide WorksOn, InFat, Grown, Extends, IsChain, Holds, IsName, Registered, LongWanted, GoodFirst, FirstUntaken;
    hide TakenBefore, NumName, NoPlace, SameDecisions, NewEntry;
    ghost var t0, v, w := dp.Entries(), dp.fs.View(), dp.fs.winsect;
    LooksOnly(v, w, w, dp.fs.g, dp.Secs());
    ExtendsSame(dp.Secs());
    GrownSame(t0);
    var sn := dp.fn[..];
    var buf := dp.lfn.buf;
    if Lossy(sn) {
      dp.fn[NSFLAG] := 0;
      dp.lfn := NoLfn;
      var k;
      res, k := NumberName(dp, up, sn, buf, n);
      LooksOnly(v, w, dp.fs.winsect, dp.fs.g, dp.Secs());
      if k == 100 {
        return Denied;
      }
      if res != NoFile {
        return;
      }
      ghost var fn := dp.fn[..];
      dp.fn[NSFLAG] := sn[NSFLAG];
      dp.lfn := Lfn(buf);
      FlagsRestored(up, fn, dp.fn[..], sn, n, k, t0);
    }
    ghost var w1, s1 := dp.fs.winsect, dp.Secs();
    res := PlaceEntries(dp, buf, n);
    if res == OK {
      RegisteredEntry(t0, dp.Entries(), dp.index, dp.Name(), n);
    }
    SecsGrow(v, w, v, w1, dp.fs.View(), dp.fs.winsect, dp.fs.g, s1, dp.Secs());
  }

  /** Flags and long name decide alike before and after a numbered name was chosen. */
  lemma SameNameDecisions(q: Query, q': Query)
    requires QueryOk(q) && QueryOk(q') && q'.lfn == q.lfn && q'.fn[NSFLAG] == q.fn[NSFLAG]
    requires !Lossy(q.fn) ==> q'.fn == q.fn
    ensures SameDecisions(q, q') && (LongWanted(q'.fn) <==> LongWanted(q.fn))
  {
  }

  /** What f_open relies on when it creates a file: a name that dir_find does not find and dir_register
      accepts is found afterwards, at the entry the directory object was left on, unless it needs its
      long name and that has 255 characters. */
  method CreateName(dp: DIR, up: WChar -> WChar, ghost n: seq<WChar>)
    returns (before: FResult, res: FResult, after: FResult, p: nat)
    requires dp.Valid() && dp.lfn.Lfn? && Holds(dp.lfn.buf, n) && IsName(n) && KeepsZero(up)
    requires GoodFirst(dp.fn[..]) && (Lossy(dp.fn[..]) ==> LongWanted(dp.fn[..]))
    modifies dp`index, dp`clust, dp`sect, dp`dir, dp`chain, dp`lfn, dp.fn, dp.fs, dp.fs.win, dp.fs.disk
    ensures dp.Valid() && old(DirSearch.Shaped(dp.Entries()) && QueryOk(dp.Name()))
    ensures before == if old(dp.Entries()) == [] then IntErr
                      else if old(Search(up, dp.Name(), dp.Entries(), 0, BROKEN)) < |old(dp.Entries())| then OK
                      else NoFile
    ensures before == NoFile ==> res == OK || Refused(dp, res, up, old(dp.fn[..]), n, old(dp.Entries()))
    ensures before == NoFile && res == OK && old(WellEnded(dp.Entries())) ==>
              && (after == OK && dp.At(p) <==> !old(Lossy(dp.fn[..])) || |n| <= 254)
              && WellEnded(dp.Entries()) && |dp.Entries()| >= |old(dp.Entries())|
              && forall i :: 0 <= i < |old(dp.Entries())| && !FreeEntry(old(dp.Entries())[i]) ==>
                   dp.Entries()[i] == old(dp.Entries())[i]
    ensures before == NoFile ==> Missed(up, old(dp.Name()), old(dp.Entries()))
    ensures before == NoFile && res == OK ==> p < |dp.Entries()| && NewEntry(dp.Entries()[p], dp.fn[..])
    ensures after == OK ==> FirstHit(up, dp.Name(), dp.Entries(), dp.index)
    ensures Extends(old(dp.Secs()), dp.Secs())
    ensures WorksOn(old(dp.fs.View()), old(dp.fs.winsect), dp.fs.View(), dp.fs.winsect, dp.fs.g, dp.Secs())
  {
    hide Owns, Fat, FATFS.View, FATFS.Valid, FileSectors.Secs, Table, DirSecs, Standing, Slots, CountFree, FreeExact;
    hide Search;
    hide WorksOn, InFat, Grown, Extends, IsChain, Holds, IsName, Registered, GoodFirst, FirstUntaken, Refused, Lossy;
    hide LongWanted, WellEnded, FreeEntry;
    hide SameDecisions, Unused, KeepsZero, NewEntry, FirstHit, Missed;
    res, after, p := NoFile, NoFile, 0;
    ghost var v, w := dp.fs.View(), dp.fs.winsect;
    ExtendsSame(dp.Secs());
    before := Find(dp, up);
    ghost var t, q, w1, s1 := dp.Entries(), dp.Name(), dp.fs.winsect, dp.Secs();
    LooksOnly(v, w, w1, dp.fs.g, s1);
    if before == NoFile {
      res := Register(dp, up, n);
      ghost var v2, w2, s2 := dp.fs.View(), dp.fs.winsect, dp.Secs();
      SecsGrow(v, w, v, w1, v2, w2, dp.fs.g, s1, s2);
      if res == OK {
        p := dp.index;
        ghost var q', t2 := dp.Name(), dp.Entries();
        SameNameDecisions(q, q');
        if WellEnded(t) {
          FoundAfterRegister(up, q, q', t, t2, p, n);
        }
        after := Find(dp, up);
        LooksOnly(v2, w2, dp.fs.winsect, dp.fs.g, s2);
        ExtendsSame(s2);
        SecsGrow(v, w, v2, w2, v2, dp.fs.winsect, dp.fs.g, s2, s2);
      }
    }
  }
}
