/** FAT entries of 12, 16 and 32 bits, read and written through the sector window. */
module FatCodec {
  import opened Arith
  import opened Volume

  // ----- the FAT as bytes, and as a sequence of entries -----

  /** Bytes in one FAT copy. */
  function FatLen(g: Geom): nat {
    g.fsize * g.ss
  }

  /** Sector that shows byte i of the FAT. */
  function SecOf(g: Geom, i: nat): nat {
    if g.ss == 0 then 0 else g.fatbase + i / g.ss
  }

  /** Offset of byte i of the FAT in its sector. */
  function OfsOf(g: Geom, i: nat): nat {
    if g.ss == 0 then 0 else i % g.ss
  }

  /** Byte o of sector s. */
  function At(v: Sectors, s: nat, o: nat): Byte {
    if s < |v| && o < |v[s]| then v[s][o] else 0
  }

  /** Byte i of the FAT. */
  function FatByte(v: Sectors, g: Geom, i: nat): Byte {
    At(v, SecOf(g, i), OfsOf(g, i))
  }

  /** The view after byte i of the FAT becomes b. */
  function SetFatByte(v: Sectors, g: Geom, i: nat, b: Byte): Sectors {
    var s, o := SecOf(g, i), OfsOf(g, i);
    if s < |v| && o < |v[s]| then Store(v, g, s, v[s][o := b]) else v
  }

  /** Entry c as stored: its 12, 16 or 32 bits. */
  function RawEntry(v: Sectors, g: Geom, c: nat): nat {
    match g.fsType
    case FAT12 =>
      var w := FatByte(v, g, c + c / 2) + 256 * FatByte(v, g, c + c / 2 + 1);
      if c % 2 == 1 then w / 16 else w % 4096
    case FAT16 => LdWord(FatByte(v, g, 2 * c), FatByte(v, g, 2 * c + 1))
    case FAT32 =>
      LdDword(FatByte(v, g, 4 * c), FatByte(v, g, 4 * c + 1), FatByte(v, g, 4 * c + 2), FatByte(v, g, 4 * c + 3))
  }

  /** The width of an entry's value. */
  function Width(t: FsType): nat {
    match t
    case FAT12 => 0x1000
    case FAT16 => 0x1_0000
    case FAT32 => 0x1000_0000
  }

  /** The value of entry c; the upper four bits of a FAT32 entry are not part of it. */
  function Entry(v: Sectors, g: Geom, c: nat): (e: nat)
    ensures e < 0x1000_0000
  {
    RawEntry(v, g, c) % Width(g.fsType)
  }

  /** The whole FAT. */
  function Fat(v: Sectors, g: Geom): (f: seq<nat>)
    ensures |f| == g.nFatent
    ensures forall c :: 0 <= c < g.nFatent ==> f[c] == Entry(v, g, c)
  {
    seq(g.nFatent, c requires 0 <= c => Entry(v, g, c))
  }

  /** The value an entry takes when `val` is written to it. */
  function Masked(t: FsType, val: nat): nat {
    val % Width(t)
  }

  // ----- where the bytes of an entry are -----

  /** Index of the first byte of entry c. */
  function FirstByte(t: FsType, c: nat): nat {
    match t
    case FAT12 => c + c / 2
    case FAT16 => 2 * c
    case FAT32 => 4 * c
  }

  /** Index of the last byte of entry c. */
  function LastByte(t: FsType, c: nat): nat {
    match t
    case FAT12 => c + c / 2 + 1
    case FAT16 => 2 * c + 1
    case FAT32 => 4 * c + 3
  }

  lemma EntryFits(g: Geom, total: nat, c: nat)
    requires Sizes(g, total) && c < g.nFatent
    ensures LastByte(g.fsType, c) < FatLen(g)
    ensures SectorSize(g.ss)
  {
    hide IsPow2, DataFits, RootFits;
    assert LastByte(g.fsType, c) < FatBytes(g.fsType, g.nFatent);
  }

  /** Byte i of the FAT lies in a sector of the first FAT copy. */
  lemma ByteSector(g: Geom, total: nat, i: nat)
    requires Layout(g, total) && g.ss > 0 && i < FatLen(g)
    ensures InFat(g, SecOf(g, i)) && SecOf(g, i) < total && !InMirror(g, SecOf(g, i))
    ensures OfsOf(g, i) < g.ss
  {
    DivLess(i, g.ss, g.fsize);
  }

  /** An aligned entry of k bytes does not straddle sectors. */
  lemma AlignedEntry(ss: nat, k: nat, c: nat, j: nat)
    requires SectorSize(ss) && (k == 2 || k == 4) && j < k
    ensures ss / k > 0
    ensures (c * k + j) / ss == c / (ss / k)
    ensures (c * k + j) % ss == c * k % ss + j < ss
  {
    var q := ss / k;
    AlignedSplit(ss, k, c, q, j);
    AlignedSplit(ss, k, c, q, 0);
  }

  lemma AlignedSplit(ss: nat, k: nat, c: nat, q: nat, j: nat)
    requires 0 < q && ss == k * q && (k == 2 || k == 4) && j < k
    ensures (c * k + j) / ss == c / q && (c * k + j) % ss == k * (c % q) + j
  {
    assert c == (c / q) * q + c % q;
    assert (c / q) * q * k == (c / q) * ss;
    DivModUnique(c * k + j, ss, c / q, k * (c % q) + j);
  }

  // ----- what one byte write changes -----

  lemma SetFatByteRead(v: Sectors, g: Geom, i: nat, b: Byte, j: nat)
    requires Layout(g, |v|) && Uniform(v, g.ss) && g.ss > 0
    requires i < FatLen(g) && j < FatLen(g)
    ensures FatByte(SetFatByte(v, g, i, b), g, j) == if j == i then b else FatByte(v, g, j)
  {
    ByteSector(g, |v|, i);
    ByteSector(g, |v|, j);
    hide FatLen;
    var s, t := g.fatbase + i / g.ss, g.fatbase + j / g.ss;
    if s == t && i % g.ss == j % g.ss {
      assert i == (i / g.ss) * g.ss + i % g.ss;
      assert j == (j / g.ss) * g.ss + j % g.ss;
    }
  }

  lemma SetFatByteFrame(v: Sectors, g: Geom, i: nat, b: Byte)
    requires Layout(g, |v|) && Uniform(v, g.ss) && g.ss > 0 && i < FatLen(g)
    ensures SameOutsideFat(v, SetFatByte(v, g, i, b), g)
    ensures Uniform(SetFatByte(v, g, i, b), g.ss)
    ensures Mirrored(v, g) ==> Mirrored(SetFatByte(v, g, i, b), g)
  {
    ByteSector(g, |v|, i);
    hide FatLen;
    var s := g.fatbase + i / g.ss;
    if Mirrored(v, g) {
      StoreMirrored(v, g, s, v[s][i % g.ss := b]);
    }
  }

  // ----- bytes of an entry that is rewritten -----

  /** `(p & 0x0F) | (BYTE)val << 4`: the low nibble stays. */
  lemma LowNibbleKept(p: Byte, val: nat)
    ensures BitOr(BitAnd(p, 0x0F), (val % 256) * 16) % 256 == p % 16 + 16 * (val % 16)
  {
    hide BitAnd, BitOr;
    Pow2Times16(1);
    MaskIsMod(p, 16);
    OrIsSum(p % 16, (val % 256) * 16, 16);
    NibbleUp(p % 16, val);
  }

  lemma NibbleUp(n: nat, val: nat)
    requires n < 16
    ensures (n + (val % 256) * 16) % 256 == n + 16 * (val % 16)
  {
    var h := val / 16;
    assert val == 16 * h + val % 16;
    assert val % 256 == 16 * (h % 16) + val % 16 by { DivModUnique(val, 256, h / 16, 16 * (h % 16) + val % 16); }
    DivModUnique(n + (val % 256) * 16, 256, h % 16, n + 16 * (val % 16));
  }

  lemma LowNibble(x: nat)
    ensures x % 256 % 16 == x % 16
  {
    assert x == (x / 16) * 16 + x % 16;
    DivModUnique(x, 256, (x / 16) / 16, (x / 16) % 16 * 16 + x % 16);
  }

  /** `(p & 0xF0) | ((BYTE)(val >> 8) & 0x0F)`: the high nibble stays. */
  lemma HighNibbleKept(p: Byte, val: nat)
    ensures BitOr(BitAnd(p, 0xF0), BitAnd(val / 256 % 256, 0x0F)) == p - p % 16 + val / 256 % 16
  {
    hide BitAnd, BitOr;
    Pow2Times16(1);
    Pow2Times16(16);
    MaskIsMod(p, 16);
    MaskIsMod(val / 256 % 256, 16);
    LowNibble(val / 256);
    ComplementMask(p, 0x0F, 256);
    OrCommutes(BitAnd(p, 0xF0), val / 256 % 16);
    OrIsSum(val / 256 % 16, p - p % 16, 16);
  }

  /** `val | (old & 0xF0000000)`: the upper four bits are or-ed. */
  lemma TopNibbleKept(raw: nat, val: nat)
    requires raw < W32 && val < W32
    ensures BitOr(val, BitAnd(raw, 0xF000_0000))
         == val % 0x1000_0000 + 0x1000_0000 * BitOr(val / 0x1000_0000, raw / 0x1000_0000)
  {
    hide BitAnd, BitOr;
    Pow2At28();
    ClearMask(raw, 0x1000_0000);
    var top := 0x1000_0000 * (raw / 0x1000_0000);
    assert raw - raw % 0x1000_0000 == top;
    DivModUnique(top, 0x1000_0000, raw / 0x1000_0000, 0);
    OrSplit(val, top, 0x1000_0000);
    hide IsPow2;
  }

  lemma Pow2At28()
    ensures IsPow2(0x1000_0000)
  {
    Pow2Times16(1);
    Pow2Times16(0x10);
    Pow2Times16(0x100);
    Pow2Times16(0x1000);
    Pow2Times16(0x1_0000);
    Pow2Times16(0x10_0000);
    Pow2Times16(0x100_0000);
  }

  // ----- what rewriting the bytes of one entry does to all entries -----

  /** v' is v with the FAT bytes from i on replaced by bs. */
  ghost predicate BytesSet(v: Sectors, v': Sectors, g: Geom, i: nat, bs: seq<Byte>) {
    forall j :: 0 <= j < FatLen(g) ==>
      FatByte(v', g, j) == if i <= j < i + |bs| then bs[j - i] else FatByte(v, g, j)
  }

  /** Writing one more byte behind bs. */
  lemma BytesSetNext(v: Sectors, v1: Sectors, g: Geom, i: nat, bs: seq<Byte>, b: Byte)
    requires Layout(g, |v1|) && Uniform(v1, g.ss) && g.ss > 0
    requires i + |bs| < FatLen(g) && BytesSet(v, v1, g, i, bs)
    ensures BytesSet(v, SetFatByte(v1, g, i + |bs|, b), g, i, bs + [b])
  {
    hide FatLen, FatByte, SetFatByte, Layout, Uniform;
    var v2 := SetFatByte(v1, g, i + |bs|, b);
    forall j | 0 <= j < FatLen(g)
      ensures FatByte(v2, g, j) == if i <= j < i + |bs| + 1 then (bs + [b])[j - i] else FatByte(v, g, j)
    {
      SetFatByteRead(v1, g, i + |bs|, b, j);
    }
  }

  /** The bytes an entry is rewritten with, given the stored bytes it shares with a neighbour. */
  function EntryBytes(t: FsType, c: nat, val: nat, first: Byte, last: Byte): (bs: seq<Byte>)
    ensures FirstByte(t, c) + |bs| == LastByte(t, c) + 1
  {
    match t
    case FAT12 =>
      if c % 2 == 1 then [first % 16 + 16 * (val % 16), val / 16 % 256]
      else [val % 256, last - last % 16 + val / 256 % 16]
    case FAT16 => [val % 256, val / 256 % 256]
    case FAT32 => [val % 256, val / 256 % 256, val / 0x1_0000 % 256,
                   16 * TopBits(val, last) + val / 0x100_0000 % 16]
  }

  /** The upper four bits of a FAT32 entry after put_fat: val's, if it has any, are or-ed onto the old ones. */
  function TopBits(val: nat, last: Byte): (r: nat)
    ensures r < 16
    ensures val < 0x1000_0000 ==> r == last / 16
  {
    Pow2Times16(1);
    OrBelow(val / 0x1000_0000 % 16, last / 16, 16);
    BitOr(val / 0x1000_0000 % 16, last / 16)
  }

  /** Two bytes hold a 16-bit value. */
  lemma Split16(val: nat)
    ensures LdWord(val % 256, val / 256 % 256) == val % 0x1_0000
  {
    HighLow(val, 256, 256);
  }

  lemma HighLow(val: nat, a: nat, b: nat)
    requires a > 0 && b > 0
    ensures a * b > 0 && val % a + a * (val / a % b) == val % (a * b)
  {
    var q := val / a;
    assert val == q * a + val % a;
    assert q == (q / b) * b + q % b;
    assert (q / b) * b * a == (q / b) * (a * b) && q * a == (q / b) * b * a + (q % b) * a;
    MulMonotone(q % b, b - 1, a);
    DivModUnique(val, a * b, q / b, a * (q % b) + val % a);
  }

  /** A FAT12 entry by the nibbles of its byte pair. */
  function Nibbles12(c: nat, first: Byte, last: Byte): nat {
    if c % 2 == 1 then first / 16 + 16 * last else first + 256 * (last % 16)
  }

  lemma PairNibbles(first: Byte, last: Byte)
    ensures (first + 256 * last) / 16 == first / 16 + 16 * last < 0x1000
    ensures (first + 256 * last) % 0x1000 == first + 256 * (last % 16) < 0x1000
  {
  }

  lemma Entry12(v: Sectors, g: Geom, c: nat)
    requires g.fsType == FAT12
    ensures Entry(v, g, c) == Nibbles12(c, FatByte(v, g, c + c / 2), FatByte(v, g, c + c / 2 + 1))
  {
    hide FatByte;
    PairNibbles(FatByte(v, g, c + c / 2), FatByte(v, g, c + c / 2 + 1));
  }

  /** The bytes written for a FAT12 entry hold its value and keep the neighbour's nibble. */
  lemma Bytes12(c: nat, val: nat, first: Byte, last: Byte)
    ensures var bs: seq<Byte> := EntryBytes(FAT12, c, val, first, last);
            && Nibbles12(c, bs[0], bs[1]) == val % 0x1000
            && (if c % 2 == 1 then bs[0] % 16 == first % 16 else bs[1] / 16 == last / 16)
  {
    if c % 2 == 1 {
      HighLow(val, 16, 256);
    } else {
      HighLow(val, 256, 16);
    }
  }

  /** A FAT32 entry below four bits that are not its own. */
  lemma Pack32(last: Byte, val: nat)
    ensures var w := LdDword(val % 256, val / 256 % 256, val / 0x1_0000 % 256,
                             16 * TopBits(val, last) + val / 0x100_0000 % 16);
            w % 0x1000_0000 == val % 0x1000_0000 && w / 0x1000_0000 == TopBits(val, last)
  {
    hide TopBits;
    HighLow(val, 256, 256);
    HighLow(val, 0x1_0000, 256);
    HighLow(val, 0x100_0000, 16);
  }

  lemma TopNibble(b0: Byte, b1: Byte, b2: Byte, b3: Byte)
    ensures LdDword(b0, b1, b2, b3) / 0x1000_0000 == b3 / 16
  {
  }

  /** Rewriting entry c makes it read as val and leaves every other entry as it was. */
  lemma EntryRewritten(v: Sectors, v': Sectors, g: Geom, total: nat, c: nat, val: nat, c': nat)
    requires Sizes(g, total) && c < g.nFatent && c' < g.nFatent
    requires BytesSet(v, v', g, FirstByte(g.fsType, c), EntryBytes(g.fsType, c, val,
               FatByte(v, g, FirstByte(g.fsType, c)), FatByte(v, g, LastByte(g.fsType, c))))
    ensures Entry(v', g, c') == if c' == c then Masked(g.fsType, val) else Entry(v, g, c')
    ensures g.fsType == FAT32 ==>
              RawEntry(v', g, c') / 0x1000_0000
              == if c' == c then BitOr(val / 0x1000_0000 % 16, RawEntry(v, g, c) / 0x1000_0000)
                 else RawEntry(v, g, c') / 0x1000_0000
  {
    EntryFits(g, total, c);
    EntryFits(g, total, c');
    hide Sizes, FatLen, FatByte, BytesSet, RawEntry, Entry, EntryBytes, BitOr;
    match g.fsType
    case FAT12 => Rewritten12(v, v', g, c, val, c');
    case FAT16 => Rewritten16(v, v', g, c, val, c');
    case FAT32 => Rewritten32(v, v', g, c, val, c');
  }

  lemma Rewritten12(v: Sectors, v': Sectors, g: Geom, c: nat, val: nat, c': nat)
    requires g.fsType == FAT12 && c + c / 2 + 1 < FatLen(g) && c' + c' / 2 + 1 < FatLen(g)
    requires BytesSet(v, v', g, c + c / 2, EntryBytes(FAT12, c, val,
               FatByte(v, g, c + c / 2), FatByte(v, g, c + c / 2 + 1)))
    ensures Entry(v', g, c') == if c' == c then val % 0x1000 else Entry(v, g, c')
  {
    Entry12(v, g, c');
    Entry12(v', g, c');
    hide FatLen, FatByte, EntryBytes, Entry;
    var i, i' := c + c / 2, c' + c' / 2;
    var first, last := FatByte(v, g, i), FatByte(v, g, i + 1);
    var bs := EntryBytes(FAT12, c, val, first, last);
    assert FirstByte(FAT12, c) == i && LastByte(FAT12, c) == i + 1 && |bs| == 2;
    Bytes12(c, val, first, last);
    var first', last' := FatByte(v', g, i'), FatByte(v', g, i' + 1);
    if c' == c {
      assert first' == bs[0] && last' == bs[1];
    } else if c' == c + 1 && c % 2 == 0 {
      assert i' == i + 1 && first' == bs[1] && last' == FatByte(v, g, i' + 1);
    } else if c' + 1 == c && c % 2 == 1 {
      assert i' + 1 == i && first' == FatByte(v, g, i') && last' == bs[0];
    } else {
      assert i' + 1 < i || i + 1 < i';
      assert first' == FatByte(v, g, i') && last' == FatByte(v, g, i' + 1);
    }
  }

  lemma Rewritten16(v: Sectors, v': Sectors, g: Geom, c: nat, val: nat, c': nat)
    requires g.fsType == FAT16 && 2 * c + 1 < FatLen(g) && 2 * c' + 1 < FatLen(g)
    requires BytesSet(v, v', g, 2 * c, EntryBytes(FAT16, c, val,
               FatByte(v, g, 2 * c), FatByte(v, g, 2 * c + 1)))
    ensures Entry(v', g, c') == if c' == c then val % 0x1_0000 else Entry(v, g, c')
  {
    hide FatLen, FatByte, LdWord;
    Split16(val);
    var b0, b1 := FatByte(v', g, 2 * c'), FatByte(v', g, 2 * c' + 1);
    if c' == c {
      assert b0 == val % 256 && b1 == val / 256 % 256;
    } else {
      assert b0 == FatByte(v, g, 2 * c') && b1 == FatByte(v, g, 2 * c' + 1);
    }
  }

  lemma Rewritten32(v: Sectors, v': Sectors, g: Geom, c: nat, val: nat, c': nat)
    requires g.fsType == FAT32 && 4 * c + 3 < FatLen(g) && 4 * c' + 3 < FatLen(g)
    requires BytesSet(v, v', g, 4 * c, EntryBytes(FAT32, c, val,
               FatByte(v, g, 4 * c), FatByte(v, g, 4 * c + 3)))
    ensures Entry(v', g, c') == if c' == c then val % 0x1000_0000 else Entry(v, g, c')
    ensures RawEntry(v', g, c') / 0x1000_0000
         == if c' == c then BitOr(val / 0x1000_0000 % 16, RawEntry(v, g, c) / 0x1000_0000)
            else RawEntry(v, g, c') / 0x1000_0000
  {
    hide FatLen, FatByte, LdDword, BitOr;
    Pack32(FatByte(v, g, 4 * c + 3), val);
    TopNibble(FatByte(v, g, 4 * c), FatByte(v, g, 4 * c + 1), FatByte(v, g, 4 * c + 2), FatByte(v, g, 4 * c + 3));
    var i := 4 * c';
    if c' != c {
      assert FatByte(v', g, i) == FatByte(v, g, i) && FatByte(v', g, i + 1) == FatByte(v, g, i + 1);
      assert FatByte(v', g, i + 2) == FatByte(v, g, i + 2) && FatByte(v', g, i + 3) == FatByte(v, g, i + 3);
    }
  }

  // ----- the entry as a whole -----

  /** v' is v after val was put into entry c. */
  ghost predicate EntryPut(v: Sectors, v': Sectors, g: Geom, c: nat, val: nat) {
    && |v'| == |v| && c < g.nFatent
    && Fat(v', g) == Fat(v, g)[c := Masked(g.fsType, val)]
    && UpperBits(v, v', g, c, val)
    && SameOutsideFat(v, v', g)
    && (Mirrored(v, g) ==> Mirrored(v', g))
  }

  /** The upper four bits of FAT32 entries stay; only those of a value that has any are or-ed onto entry c's. */
  ghost predicate UpperBits(v: Sectors, v': Sectors, g: Geom, c: nat, val: nat) {
    g.fsType == FAT32 ==>
      forall c': nat :: c' < g.nFatent ==>
        RawEntry(v', g, c') / 0x1000_0000
        == if c' == c && val >= 0x1000_0000 then BitOr(val / 0x1000_0000 % 16, RawEntry(v, g, c) / 0x1000_0000)
           else RawEntry(v, g, c') / 0x1000_0000
  }

  lemma FatRewritten(v: Sectors, v': Sectors, g: Geom, total: nat, c: nat, val: nat)
    requires Sizes(g, total) && c < g.nFatent
    requires BytesSet(v, v', g, FirstByte(g.fsType, c), EntryBytes(g.fsType, c, val,
               FatByte(v, g, FirstByte(g.fsType, c)), FatByte(v, g, LastByte(g.fsType, c))))
    ensures Fat(v', g) == Fat(v, g)[c := Masked(g.fsType, val)] && UpperBits(v, v', g, c, val)
  {
    hide BytesSet, EntryBytes, FatByte, Entry, RawEntry, Masked, FirstByte, LastByte;
    forall c': nat | c' < g.nFatent && g.fsType == FAT32
      ensures RawEntry(v', g, c') / 0x1000_0000
           == if c' == c && val >= 0x1000_0000 then BitOr(val / 0x1000_0000 % 16, RawEntry(v, g, c) / 0x1000_0000)
              else RawEntry(v, g, c') / 0x1000_0000
    {
      EntryRewritten(v, v', g, total, c, val, c');
      if val < 0x1000_0000 {
        assert val / 0x1000_0000 % 16 == 0;
      }
    }
    forall c' | 0 <= c' < g.nFatent
      ensures Fat(v', g)[c'] == if c' == c then Masked(g.fsType, val) else Fat(v, g)[c']
    {
      EntryRewritten(v, v', g, total, c, val, c');
    }
  }

  /** The FAT depends on the sectors of the first FAT copy only. */
  lemma FatFrame(v: Sectors, v': Sectors, g: Geom)
    requires |v'| == |v| && Layout(g, |v|) && Sizes(g, |v|)
    requires forall s :: 0 <= s < |v| && InFat(g, s) ==> v'[s] == v[s]
    ensures Fat(v', g) == Fat(v, g)
  {
    forall c | 0 <= c < g.nFatent
      ensures Entry(v', g, c) == Entry(v, g, c)
    {
      EntryFits(g, |v|, c);
      EntryFrame(v, v', g, c);
    }
  }

  lemma EntryFrame(v: Sectors, v': Sectors, g: Geom, c: nat)
    requires |v'| == |v| && Layout(g, |v|) && g.ss > 0 && LastByte(g.fsType, c) < FatLen(g)
    requires forall s :: 0 <= s < |v| && InFat(g, s) ==> v'[s] == v[s]
    ensures Entry(v', g, c) == Entry(v, g, c)
  {
    hide FatByte, FatLen;
    forall i | FirstByte(g.fsType, c) <= i <= LastByte(g.fsType, c)
      ensures FatByte(v', g, i) == FatByte(v, g, i)
    {
      ByteFrame(v, v', g, i);
    }
  }

  lemma ByteFrame(v: Sectors, v': Sectors, g: Geom, i: nat)
    requires |v'| == |v| && Layout(g, |v|) && g.ss > 0 && i < FatLen(g)
    requires forall s :: 0 <= s < |v| && InFat(g, s) ==> v'[s] == v[s]
    ensures FatByte(v', g, i) == FatByte(v, g, i)
  {
    ByteSector(g, |v|, i);
  }

  // ----- get_fat and put_fat -----

  lemma OverlayPoke(sec: Sectors, g: Geom, s: nat, win: seq<Byte>, dirty: bool, o: nat, b: Byte)
    requires Layout(g, |sec|) && s < |sec| && !InMirror(g, s) && o < |win|
    requires !dirty ==> win == sec[s]
    ensures var v := Overlay(sec, g, s, win, dirty);
            v[s] == win && Overlay(sec, g, s, win[o := b], true) == Store(v, g, s, v[s][o := b])
  {
  }

  /** `fs->win[i % SS] = b; fs->wflag = 1`, with the window on the sector of FAT byte i. */
  method PutByte(fs: FATFS, i: nat, b: Byte)
    requires fs.Valid() && i < FatLen(fs.g) && fs.g.ss > 0
    requires fs.winsect == SecOf(fs.g, i)
    modifies fs`wflag, fs.win
    ensures fs.Valid()
    ensures fs.View() == SetFatByte(old(fs.View()), fs.g, i, b)
    ensures fs.win[..] == fs.View()[fs.winsect]
  {
    ByteSector(fs.g, |fs.disk.sec|, i);
    hide Sizes, FatLen;
    var o := OfsOf(fs.g, i);
    OverlayPoke(fs.disk.sec, fs.g, fs.winsect, fs.win[..], fs.wflag, o, b);
    fs.win[o] := b;
    fs.wflag := true;
    assert fs.win[..] == old(fs.win[..])[o := b];
  }

  /** What a valid volume says about its view. */
  lemma FsFacts(fs: FATFS)
    requires fs.Valid()
    ensures Layout(fs.g, |fs.View()|) && Sizes(fs.g, |fs.View()|) && Uniform(fs.View(), fs.g.ss)
    ensures |fs.View()| == |fs.disk.sec| < W32
    ensures SectorSize(fs.g.ss) && fs.win.Length == fs.g.ss
    ensures fs.winsect < |fs.View()| ==> fs.win[..] == fs.View()[fs.winsect]
  {
    hide IsPow2;
  }

  /** Move the window to sector s of the first FAT copy. */
  method SeekFat(fs: FATFS, s: nat) returns (res: FResult)
    requires fs.Valid() && fs.disk.reliable && InFat(fs.g, s) && s < |fs.View()|
    modifies fs`winsect, fs`wflag, fs.win, fs.disk
    ensures fs.Valid() && fs.View() == old(fs.View())
    ensures res == OK && fs.winsect == s
    ensures fs.win[..] == fs.View()[s] && fs.win.Length == fs.g.ss
  {
    hide Sizes, Uniform, Overlay, Store;
    res := fs.MoveWindow(s);
  }

  /** Byte i of the FAT is byte OfsOf(g, i) of sector SecOf(g, i) in the first copy. */
  lemma ByteAt(v: Sectors, g: Geom, i: nat)
    requires Layout(g, |v|) && Uniform(v, g.ss) && g.ss > 0 && i < FatLen(g)
    ensures InFat(g, SecOf(g, i)) && SecOf(g, i) < |v| && OfsOf(g, i) < |v[SecOf(g, i)]| == g.ss
    ensures v[SecOf(g, i)][OfsOf(g, i)] == FatByte(v, g, i)
  {
    ByteSector(g, |v|, i);
    hide FatLen, SecOf, OfsOf;
  }

  /** Move the window to the sector of FAT byte i. */
  method SeekByte(fs: FATFS, i: nat) returns (res: FResult)
    requires fs.Valid() && fs.disk.reliable && i < FatLen(fs.g) && SectorSize(fs.g.ss)
    modifies fs`winsect, fs`wflag, fs.win, fs.disk
    ensures fs.Valid() && fs.View() == old(fs.View())
    ensures res == OK && fs.winsect == SecOf(fs.g, i) && InFat(fs.g, fs.winsect)
    ensures OfsOf(fs.g, i) < fs.win.Length && fs.win[OfsOf(fs.g, i)] == FatByte(fs.View(), fs.g, i)
  {
    hide Sizes, Layout, Uniform, FatLen, SecOf, OfsOf, FatByte, Overlay, FATFS.Valid, FATFS.View;
    FsFacts(fs);
    ByteAt(fs.View(), fs.g, i);
    res := SeekFat(fs, SecOf(fs.g, i));
  }

  /** Sector of the aligned k-byte entry c, as the code computes it. */
  function EntrySec(g: Geom, k: nat, c: nat): nat {
    if k == 0 || g.ss / k == 0 then 0 else g.fatbase + c / (g.ss / k)
  }

  /** Byte j of the aligned k-byte entry c appears j bytes behind its first. */
  lemma EntryByteAt(v: Sectors, g: Geom, k: nat, c: nat, j: nat)
    requires Layout(g, |v|) && Uniform(v, g.ss) && SectorSize(g.ss) && k * c + j < FatLen(g)
    requires (k == 2 || k == 4) && j < k
    ensures var s, p := EntrySec(g, k, c), OfsOf(g, k * c) + j;
            && s == SecOf(g, k * c + j) && p == OfsOf(g, k * c + j)
            && InFat(g, s) && s < |v| && p < |v[s]| == g.ss && v[s][p] == FatByte(v, g, k * c + j)
  {
    EntryPlace(g, k, c, j);
    hide FatLen, Uniform, FatByte, EntrySec, OfsOf, SecOf, SectorSize;
    ByteAt(v, g, k * c + j);
  }

  lemma EntryPlace(g: Geom, k: nat, c: nat, j: nat)
    requires SectorSize(g.ss) && (k == 2 || k == 4) && j < k
    ensures EntrySec(g, k, c) == SecOf(g, k * c + j) && OfsOf(g, k * c) + j == OfsOf(g, k * c + j)
  {
    AlignedEntry(g.ss, k, c, j);
    AlignedEntry(g.ss, k, c, 0);
    assert c * k == k * c;
  }

  /** FAT byte i + j is byte p + j of w. */
  ghost predicate ShowsAt(w: seq<Byte>, p: nat, v: Sectors, g: Geom, i: nat, j: nat) {
    p + j < |w| && w[p + j] == FatByte(v, g, i + j)
  }

  /** FAT bytes i, i + 1, ... are bytes p, p + 1, ... of w. */
  ghost predicate Shows(w: seq<Byte>, p: nat, v: Sectors, g: Geom, i: nat, k: nat) {
    forall j: nat :: j < k ==> ShowsAt(w, p, v, g, i, j)
  }

  /** Move the window to the sector of the aligned k-byte entry clst. */
  method SeekEntry(fs: FATFS, k: nat, clst: nat) returns (res: FResult)
    requires fs.Valid() && fs.disk.reliable && (k == 2 || k == 4) && k * clst + k - 1 < FatLen(fs.g)
    modifies fs`winsect, fs`wflag, fs.win, fs.disk
    ensures fs.Valid() && fs.View() == old(fs.View())
    ensures res == OK && fs.winsect == EntrySec(fs.g, k, clst) && InFat(fs.g, fs.winsect)
    ensures forall j: nat :: j < k ==> InEntrySec(fs.g, k, clst, j)
    ensures Shows(fs.win[..], OfsOf(fs.g, k * clst), fs.View(), fs.g, k * clst, k)
  {
    hide *;
    FsFacts(fs);
    EntryShown(fs.View(), fs.g, k, clst);
    res := SeekFat(fs, EntrySec(fs.g, k, clst));
  }

  /** Byte j of the entry is in the entry's sector, j bytes behind the first. */
  ghost predicate InEntrySec(g: Geom, k: nat, c: nat, j: nat) {
    SecOf(g, k * c + j) == EntrySec(g, k, c) && OfsOf(g, k * c + j) == OfsOf(g, k * c) + j
  }

  lemma EntryShown(v: Sectors, g: Geom, k: nat, c: nat)
    requires Layout(g, |v|) && Uniform(v, g.ss) && SectorSize(g.ss)
    requires (k == 2 || k == 4) && k * c + k - 1 < FatLen(g)
    ensures var s := EntrySec(g, k, c);
            InFat(g, s) && s < |v| && Shows(v[s], OfsOf(g, k * c), v, g, k * c, k)
    ensures forall j: nat :: j < k ==> InEntrySec(g, k, c, j)
  {
    hide Layout, Uniform, FatByte, SecOf, OfsOf, EntrySec, FatLen, SectorSize;
    var s, p := EntrySec(g, k, c), OfsOf(g, k * c);
    EntryByteAt(v, g, k, c, k - 1);
    forall j: nat | j < k
      ensures ShowsAt(v[s], p, v, g, k * c, j) && InEntrySec(g, k, c, j)
    {
      EntryByteAt(v, g, k, c, j);
    }
  }

  method GetFat12(fs: FATFS, clst: nat) returns (val: nat)
    requires fs.Valid() && fs.disk.reliable && fs.g.fsType == FAT12 && clst < fs.g.nFatent
    modifies fs`winsect, fs`wflag, fs.win, fs.disk
    ensures fs.Valid() && fs.View() == old(fs.View()) && InFat(fs.g, fs.winsect)
    ensures val == Entry(fs.View(), fs.g, clst)
  {
    hide *;
    FsFacts(fs);
    ghost var v := fs.View();
    Entry12Read(v, fs.g, clst);
    val := 0xFFFF_FFFF;
    var bc := clst;
    bc := bc + bc / 2;
    var res := SeekByte(fs, bc);
    if res == OK {
      var wc: nat := fs.win[OfsOf(fs.g, bc)];
      bc := bc + 1;
      res := SeekByte(fs, bc);
      if res == OK {
        wc := BitOr(wc, Shl(fs.win[OfsOf(fs.g, bc)], 256));
        val := if clst % 2 == 1 then wc / 16 else BitAnd(wc, 0xFFF);
      }
    }
  }

  /** A left shift that multiplies by n. */
  function Shl(x: nat, n: nat): nat {
    x * n
  }

  lemma Entry12Read(v: Sectors, g: Geom, c: nat)
    requires Layout(g, |v|) && Sizes(g, |v|) && Uniform(v, g.ss) && g.fsType == FAT12 && c < g.nFatent
    ensures var i := c + c / 2;
            && i + 1 < FatLen(g)
            && var wc := BitOr(FatByte(v, g, i), Shl(FatByte(v, g, i + 1), 256));
               Entry(v, g, c) == if c % 2 == 1 then wc / 16 else BitAnd(wc, 0xFFF)
  {
    hide Sizes, Layout, Uniform, FatLen, BitAnd, BitOr, SecOf, OfsOf, FatByte, Shl;
    EntryFits(g, |v|, c);
    var i := c + c / 2;
    Word12(FatByte(v, g, i), FatByte(v, g, i + 1));
  }

  lemma Word12(first: Byte, last: Byte)
    ensures var wc := BitOr(first, Shl(last, 256));
            wc == first + 256 * last && BitAnd(wc, 0xFFF) == wc % 0x1000 && wc / 16 < 0x1000
  {
    hide BitAnd, BitOr;
    Pow2Times16(1);
    Pow2Times16(0x10);
    Pow2Times16(0x100);
    OrIsSum(first, Shl(last, 256), 256);
    MaskIsMod(first + 256 * last, 0x1000);
  }

  lemma ShownWord(w: seq<Byte>, p: nat, v: Sectors, g: Geom, i: nat)
    requires Shows(w, p, v, g, i, 2)
    ensures p + 1 < |w|
    ensures LdWord(w[p], w[p + 1]) == LdWord(FatByte(v, g, i), FatByte(v, g, i + 1))
  {
    hide FatByte;
    assert ShowsAt(w, p, v, g, i, 0) && ShowsAt(w, p, v, g, i, 1);
  }

  lemma ShownDword(w: seq<Byte>, p: nat, v: Sectors, g: Geom, i: nat)
    requires Shows(w, p, v, g, i, 4)
    ensures p + 3 < |w|
    ensures LdDword(w[p], w[p + 1], w[p + 2], w[p + 3])
         == LdDword(FatByte(v, g, i), FatByte(v, g, i + 1), FatByte(v, g, i + 2), FatByte(v, g, i + 3))
  {
    hide FatByte;
    assert ShowsAt(w, p, v, g, i, 0) && ShowsAt(w, p, v, g, i, 1);
    assert ShowsAt(w, p, v, g, i, 2) && ShowsAt(w, p, v, g, i, 3);
  }

  method GetFat16(fs: FATFS, clst: nat) returns (val: nat)
    requires fs.Valid() && fs.disk.reliable && fs.g.fsType == FAT16 && clst < fs.g.nFatent
    modifies fs`winsect, fs`wflag, fs.win, fs.disk
    ensures fs.Valid() && fs.View() == old(fs.View()) && InFat(fs.g, fs.winsect)
    ensures val == Entry(fs.View(), fs.g, clst)
  {
    hide Sizes, Layout, Uniform, FatLen, SecOf, OfsOf, FatByte, Overlay, FATFS.Valid, FATFS.View, EntrySec, Shows;
    hide LdWord;
    FsFacts(fs);
    EntryFits(fs.g, |fs.View()|, clst);
    val := 0xFFFF_FFFF;
    var res := SeekEntry(fs, 2, clst);
    if res == OK {
      var p := OfsOf(fs.g, 2 * clst);
      ShownWord(fs.win[..], p, fs.View(), fs.g, 2 * clst);
      val := LdWord(fs.win[p], fs.win[p + 1]);
    }
  }

  method GetFat32(fs: FATFS, clst: nat) returns (val: nat)
    requires fs.Valid() && fs.disk.reliable && fs.g.fsType == FAT32 && clst < fs.g.nFatent
    modifies fs`winsect, fs`wflag, fs.win, fs.disk
    ensures fs.Valid() && fs.View() == old(fs.View()) && InFat(fs.g, fs.winsect)
    ensures val == Entry(fs.View(), fs.g, clst)
  {
    hide Sizes, Layout, Uniform, FatLen, SecOf, OfsOf, FatByte, Overlay, FATFS.Valid, FATFS.View, EntrySec, Shows;
    hide BitAnd, LdDword;
    FsFacts(fs);
    EntryFits(fs.g, |fs.View()|, clst);
    val := 0xFFFF_FFFF;
    var res := SeekEntry(fs, 4, clst);
    if res == OK {
      var p := OfsOf(fs.g, 4 * clst);
      ShownDword(fs.win[..], p, fs.View(), fs.g, 4 * clst);
      val := LdDword(fs.win[p], fs.win[p + 1], fs.win[p + 2], fs.win[p + 3]);
      Pow2At28();
      MaskIsMod(val, 0x1000_0000);
      val := BitAnd(val, 0x0FFF_FFFF);
    }
  }

  /** get_fat: the value of entry clst, or 1 when there is no such entry. */
  method GetFat(fs: FATFS, clst: nat) returns (val: nat)
    requires fs.Valid() && fs.disk.reliable
    modifies fs`winsect, fs`wflag, fs.win, fs.disk
    ensures fs.Valid() && fs.View() == old(fs.View())
    ensures val == if clst < 2 || clst >= fs.g.nFatent then 1 else Fat(fs.View(), fs.g)[clst]
    ensures if clst < 2 || clst >= fs.g.nFatent then fs.winsect == old(fs.winsect) else InFat(fs.g, fs.winsect)
    ensures val < 0x1000_0000
  {
    hide *;
    if clst < 2 || clst >= fs.g.nFatent {
      val := 1;
    } else {
      match fs.g.fsType
      case FAT12 => val := GetFat12(fs, clst);
      case FAT16 => val := GetFat16(fs, clst);
      case FAT32 => val := GetFat32(fs, clst);
    }
  }

  /** The view after the FAT bytes from i on were overwritten with bs, one by one. */
  function SetFatBytes(v: Sectors, g: Geom, i: nat, bs: seq<Byte>): (r: Sectors)
    ensures |r| == |v|
  {
    if bs == [] then v
    else SetFatByte(SetFatBytes(v, g, i, bs[..|bs| - 1]), g, i + |bs| - 1, bs[|bs| - 1])
  }

  lemma {:induction false} SetFatBytesEffect(v: Sectors, g: Geom, i: nat, bs: seq<Byte>)
    requires Layout(g, |v|) && Uniform(v, g.ss) && g.ss > 0 && i + |bs| <= FatLen(g)
    ensures var v' := SetFatBytes(v, g, i, bs);
            && BytesSet(v, v', g, i, bs) && SameOutsideFat(v, v', g) && Uniform(v', g.ss)
            && (Mirrored(v, g) ==> Mirrored(v', g))
    decreases |bs|
  {
    hide FatLen, FatByte, SetFatByte, Layout, Uniform, Mirrored;
    if bs == [] {
    } else {
      var front, last := bs[..|bs| - 1], bs[|bs| - 1];
      SetFatBytesEffect(v, g, i, front);
      var v1 := SetFatBytes(v, g, i, front);
      BytesSetNext(v, v1, g, i, front, last);
      SetFatByteFrame(v1, g, i + |front|, last);
      assert bs == front + [last];
    }
  }

  /** The bytes put_fat writes for entry c of view v. */
  function PutBytes(v: Sectors, g: Geom, c: nat, val: nat): (bs: seq<Byte>)
  {
    EntryBytes(g.fsType, c, val, FatByte(v, g, FirstByte(g.fsType, c)), FatByte(v, g, LastByte(g.fsType, c)))
  }

  /** The view after put_fat(c, val). */
  function PutView(v: Sectors, g: Geom, c: nat, val: nat): Sectors {
    SetFatBytes(v, g, FirstByte(g.fsType, c), PutBytes(v, g, c, val))
  }

  /** Writing those bytes changes the value of entry c alone, and nothing outside the FAT copies. */
  lemma PutViewEffect(v: Sectors, g: Geom, c: nat, val: nat)
    requires Layout(g, |v|) && Sizes(g, |v|) && Uniform(v, g.ss) && c < g.nFatent
    ensures EntryPut(v, PutView(v, g, c, val), g, c, val)
    ensures Uniform(PutView(v, g, c, val), g.ss)
  {
    EntryFits(g, |v|, c);
    hide FatLen, FatByte, Layout, Uniform, Mirrored, Sizes, BytesSet, SetFatBytes, EntryBytes, Entry, SameOutsideFat;
    hide FirstByte, LastByte;
    SetFatBytesEffect(v, g, FirstByte(g.fsType, c), PutBytes(v, g, c, val));
    FatRewritten(v, PutView(v, g, c, val), g, |v|, c, val);
  }

  method PutFat12(fs: FATFS, clst: nat, val: nat)
    requires fs.Valid() && fs.disk.reliable && fs.g.fsType == FAT12 && clst < fs.g.nFatent
    modifies fs`winsect, fs`wflag, fs.win, fs.disk
    ensures fs.Valid() && InFat(fs.g, fs.winsect)
    ensures fs.View() == PutView(old(fs.View()), fs.g, clst, val)
  {
    hide Sizes, Layout, Uniform, FatLen, SecOf, OfsOf, FatByte, Overlay, FATFS.Valid, FATFS.View, SetFatByte;
    hide SetFatBytes, BitAnd, BitOr;
    FsFacts(fs);
    EntryFits(fs.g, |fs.View()|, clst);
    ghost var v := fs.View();
    ghost var bs := PutBytes(v, fs.g, clst, val);
    var bc := clst;
    bc := bc + bc / 2;
    var res := SeekByte(fs, bc);
    var p := fs.win[OfsOf(fs.g, bc)];
    LowNibbleKept(p, val);
    p := if clst % 2 == 1 then BitOr(BitAnd(p, 0x0F), Shl(val % 256, 16)) % 256 else val % 256;
    PutByte(fs, bc, p);
    SetFatByteRead(v, fs.g, bc, p, bc + 1);
    SetNext(v, fs.g, bc, bs, 0);
    bc := bc + 1;
    res := SeekByte(fs, bc);
    p := fs.win[OfsOf(fs.g, bc)];
    HighNibbleKept(p, val);
    p := if clst % 2 == 1 then val / 16 % 256 else BitOr(BitAnd(p, 0xF0), BitAnd(val / 256 % 256, 0x0F));
    PutByte(fs, bc, p);
    SetNext(v, fs.g, bc - 1, bs, 1);
  }

  lemma SetNext(v: Sectors, g: Geom, i: nat, bs: seq<Byte>, k: nat)
    requires k < |bs|
    ensures SetFatBytes(v, g, i, bs[..k + 1]) == SetFatByte(SetFatBytes(v, g, i, bs[..k]), g, i + k, bs[k])
    ensures bs[..|bs|] == bs && SetFatBytes(v, g, i, bs[..0]) == v
  {
    hide SetFatByte;
    assert bs[..k + 1][..k] == bs[..k];
  }

  /** Overwrite the aligned k-byte entry in the window with bs. */
  method PutEntryBytes(fs: FATFS, k: nat, clst: nat, bs: seq<Byte>)
    requires fs.Valid() && SectorSize(fs.g.ss) && (k == 2 || k == 4) && k * clst + k - 1 < FatLen(fs.g)
    requires |bs| == k && fs.winsect == EntrySec(fs.g, k, clst)
    requires forall j: nat :: j < k ==> InEntrySec(fs.g, k, clst, j)
    modifies fs`wflag, fs.win
    ensures fs.Valid()
    ensures fs.View() == SetFatBytes(old(fs.View()), fs.g, k * clst, bs)
  {
    hide Sizes, Layout, Uniform, FatLen, SecOf, OfsOf, FatByte, Overlay, FATFS.Valid, FATFS.View;
    hide SetFatByte, SetFatBytes, EntrySec;
    ghost var v := fs.View();
    SetNext(v, fs.g, k * clst, bs, 0);
    for j := 0 to k
      invariant fs.Valid() && fs.winsect == EntrySec(fs.g, k, clst)
      invariant fs.View() == SetFatBytes(v, fs.g, k * clst, bs[..j])
    {
      assert InEntrySec(fs.g, k, clst, j);
      PutByte(fs, k * clst + j, bs[j]);
      SetNext(v, fs.g, k * clst, bs, j);
    }
  }

  method PutFat16(fs: FATFS, clst: nat, val: nat)
    requires fs.Valid() && fs.disk.reliable && fs.g.fsType == FAT16 && clst < fs.g.nFatent
    modifies fs`winsect, fs`wflag, fs.win, fs.disk
    ensures fs.Valid() && InFat(fs.g, fs.winsect)
    ensures fs.View() == PutView(old(fs.View()), fs.g, clst, val)
  {
    hide Sizes, Layout, Uniform, FatLen, SecOf, OfsOf, FatByte, Overlay, FATFS.Valid, FATFS.View, SetFatBytes, EntrySec;
    FsFacts(fs);
    EntryFits(fs.g, |fs.View()|, clst);
    var res := SeekEntry(fs, 2, clst);
    PutEntryBytes(fs, 2, clst, [val % 256, val / 256 % 256]);
  }

  method PutFat32(fs: FATFS, clst: nat, val: nat)
    requires fs.Valid() && fs.disk.reliable && fs.g.fsType == FAT32 && clst < fs.g.nFatent
    requires val < W32
    modifies fs`winsect, fs`wflag, fs.win, fs.disk
    ensures fs.Valid() && InFat(fs.g, fs.winsect)
    ensures fs.View() == PutView(old(fs.View()), fs.g, clst, val)
  {
    hide Sizes, Layout, Uniform, FatLen, SecOf, OfsOf, FatByte, Overlay, FATFS.Valid, FATFS.View, SetFatBytes, EntrySec;
    hide LdDword, BitAnd, BitOr, Shows;
    FsFacts(fs);
    EntryFits(fs.g, |fs.View()|, clst);
    ghost var v := fs.View();
    var res := SeekEntry(fs, 4, clst);
    var p := OfsOf(fs.g, 4 * clst);
    ShownDword(fs.win[..], p, v, fs.g, 4 * clst);
    var raw := LdDword(fs.win[p], fs.win[p + 1], fs.win[p + 2], fs.win[p + 3]);
    var word := BitOr(val, BitAnd(raw, 0xF000_0000));
    PutBytes32(v, fs.g, clst, val);
    PutEntryBytes(fs, 4, clst, [word % 256, word / 256 % 256, word / 0x1_0000 % 256, word / 0x100_0000 % 256]);
  }

  /** The four bytes of `val | (LD_DWORD(p) & 0xF0000000)`. */
  lemma PutBytes32(v: Sectors, g: Geom, c: nat, val: nat)
    requires g.fsType == FAT32 && val < W32
    ensures var raw := LdDword(FatByte(v, g, 4 * c), FatByte(v, g, 4 * c + 1),
                               FatByte(v, g, 4 * c + 2), FatByte(v, g, 4 * c + 3));
            var word := BitOr(val, BitAnd(raw, 0xF000_0000));
            PutBytes(v, g, c, val) == [word % 256, word / 256 % 256, word / 0x1_0000 % 256, word / 0x100_0000 % 256]
  {
    hide FatByte, BitAnd, BitOr, LdDword;
    var b3: nat := FatByte(v, g, 4 * c + 3);
    var raw := LdDword(FatByte(v, g, 4 * c), FatByte(v, g, 4 * c + 1), FatByte(v, g, 4 * c + 2), b3);
    TopNibbleKept(raw, val);
    TopNibble(FatByte(v, g, 4 * c), FatByte(v, g, 4 * c + 1), FatByte(v, g, 4 * c + 2), b3);
    TopBitsAre(val, raw, b3);
    hide TopBits, EntryBytes;
    WordBytes(c, val, FatByte(v, g, 4 * c), b3);
  }

  lemma TopBitsAre(val: nat, raw: nat, last: Byte)
    requires val < W32 && raw / 0x1000_0000 == last / 16
    ensures BitOr(val / 0x1000_0000, raw / 0x1000_0000) == TopBits(val, last)
  {
    hide BitOr;
  }

  lemma WordBytes(c: nat, val: nat, first: Byte, last: Byte)
    requires val < W32
    ensures var word := val % 0x1000_0000 + 0x1000_0000 * TopBits(val, last);
            EntryBytes(FAT32, c, val, first, last)
            == [word % 256, word / 256 % 256, word / 0x1_0000 % 256, word / 0x100_0000 % 256]
  {
    hide TopBits;
    var low, q := val % 0x1000_0000, val / 0x1000_0000;
    OrBytes(low, TopBits(val, last));
    OrBytes(low, q);
    assert val == low + 0x1000_0000 * q;
    NibbleLast(low, q);
  }

  lemma NibbleLast(low: nat, q: nat)
    ensures (low + 0x1000_0000 * q) / 0x100_0000 % 16 == low / 0x100_0000 % 16
  {
    DivShift(low, 16 * q, 0x100_0000);
    ModShift(low / 0x100_0000, q, 16);
  }

  lemma OrBytes(val: nat, top: nat)
    requires val < 0x1000_0000 && top < 16
    ensures var word := val + 0x1000_0000 * top;
            && word % 256 == val % 256 && word / 256 % 256 == val / 256 % 256
            && word / 0x1_0000 % 256 == val / 0x1_0000 % 256
            && word / 0x100_0000 % 256 == 16 * top + val / 0x100_0000 % 16
  {
    ModShift(val, 0x10_0000 * top, 256);
    DivShift(val, 0x10_0000 * top, 256);
    ModShift(val / 256, 0x1000 * top, 256);
    DivShift(val, 0x1000 * top, 0x1_0000);
    ModShift(val / 0x1_0000, 16 * top, 256);
    DivShift(val, 16 * top, 0x100_0000);
  }

  /**
   * put_fat: make entry clst read as val. Every other entry keeps its value, no sector outside
   * the FAT copies changes, and copies that were equal stay equal.
   */
  method PutFat(fs: FATFS, clst: nat, val: nat) returns (res: FResult)
    requires fs.Valid() && fs.disk.reliable && val < W32
    modifies fs`winsect, fs`wflag, fs.win, fs.disk
    ensures fs.Valid()
    ensures res == if clst < 2 || clst >= fs.g.nFatent then IntErr else OK
    ensures res == OK ==> EntryPut(old(fs.View()), fs.View(), fs.g, clst, val) && InFat(fs.g, fs.winsect)
    ensures res != OK ==> fs.View() == old(fs.View()) && fs.winsect == old(fs.winsect)
  {
    hide *;
    FsFacts(fs);
    if clst < 2 || clst >= fs.g.nFatent {
      res := IntErr;
    } else {
      PutViewEffect(fs.View(), fs.g, clst, val);
      res := OK;
      match fs.g.fsType
      case FAT12 => PutFat12(fs, clst, val);
      case FAT16 => PutFat16(fs, clst, val);
      case FAT32 => PutFat32(fs, clst, val);
    }
  }
}
