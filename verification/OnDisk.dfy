/** Where things are on the drive, in numbers: FAT entries, clusters, long name characters. */
module OnDisk {
  import opened Arith
  import opened Volume
  import opened FatCodec
  import opened Allocator
  import opened FileSectors
  import opened LongName
  import opened DirTable
  import opened DirRegister

  /** Byte i of the FAT is in sector i / SS of the first copy. */
  lemma FatByteIs(v: Sectors, g: Geom, i: nat)
    requires Layout(g, |v|) && Uniform(v, g.ss) && g.ss > 0 && i < g.fsize * g.ss
    ensures i / g.ss < g.fsize && g.fatbase + i / g.ss < |v|
    ensures FatByte(v, g, i) == v[g.fatbase + i / g.ss][i % g.ss]
  {
    ByteSector(g, |v|, i);
  }

  /** Three bytes hold two 12-bit entries, the lower digits first. */
  lemma TwelveBits(v: Sectors, g: Geom, k: nat)
    requires g.fsType == FAT12
    ensures var b0: nat, b1: nat, b2: nat := FatByte(v, g, 3 * k), FatByte(v, g, 3 * k + 1), FatByte(v, g, 3 * k + 2);
      && Entry(v, g, 2 * k) == b0 + 256 * (b1 % 16)
      && Entry(v, g, 2 * k + 1) == b1 / 16 + 16 * b2
  {
    hide *;
    PairPlaces(k);
    EvenEntry(v, g, 2 * k, 3 * k);
    OddEntry(v, g, 2 * k + 1, 3 * k + 1);
  }

  lemma EvenEntry(v: Sectors, g: Geom, c: nat, p: nat)
    requires g.fsType == FAT12 && c % 2 == 0 && c + c / 2 == p
    ensures Entry(v, g, c) == FatByte(v, g, p) as nat + 256 * (FatByte(v, g, p + 1) as nat % 16)
  {
    hide FatByte;
    LowTwelve(FatByte(v, g, p), FatByte(v, g, p + 1));
  }

  lemma OddEntry(v: Sectors, g: Geom, c: nat, p: nat)
    requires g.fsType == FAT12 && c % 2 == 1 && c + c / 2 == p
    ensures Entry(v, g, c) == FatByte(v, g, p) as nat / 16 + 16 * FatByte(v, g, p + 1) as nat
  {
    hide FatByte;
    HighTwelve(FatByte(v, g, p), FatByte(v, g, p + 1));
  }

  lemma PairPlaces(k: nat)
    ensures 2 * k + 2 * k / 2 == 3 * k && 2 * k + 1 + (2 * k + 1) / 2 == 3 * k + 1
    ensures 2 * k % 2 == 0 && (2 * k + 1) % 2 == 1
  {
  }

  lemma LowTwelve(x: nat, y: nat)
    requires x < 256 && y < 256
    ensures (x + 256 * y) % 4096 % 4096 == x + 256 * (y % 16)
  {
    DivModUnique(x + 256 * y, 4096, y / 16, x + 256 * (y % 16));
  }

  lemma HighTwelve(x: nat, y: nat)
    requires x < 256 && y < 256
    ensures (x + 256 * y) / 16 % 4096 == x / 16 + 16 * y
  {
    DivModUnique(x + 256 * y, 16, x / 16 + 16 * y, x % 16);
  }

  /** Two bytes hold a 16-bit entry, and four bytes one of 28 bits, the lower byte first. */
  lemma WholeBytes(v: Sectors, g: Geom, c: nat)
    ensures g.fsType == FAT16 ==> Entry(v, g, c) == Number(v, g, 2 * c, 2)
    ensures g.fsType == FAT32 ==> Entry(v, g, c) == Number(v, g, 4 * c, 4) % 0x1000_0000
  {
    TwoBytes(v, g, 2 * c);
    FourBytes(v, g, 4 * c);
    hide FatByte, Number, LdWord, LdDword;
    SmallWord(v, g, 2 * c);
  }

  lemma SmallWord(v: Sectors, g: Geom, i: nat)
    ensures LdWord(FatByte(v, g, i), FatByte(v, g, i + 1)) % 0x1_0000 == LdWord(FatByte(v, g, i), FatByte(v, g, i + 1))
  {
    hide FatByte;
  }

  lemma TwoBytes(v: Sectors, g: Geom, i: nat)
    ensures Number(v, g, i, 2) == LdWord(FatByte(v, g, i), FatByte(v, g, i + 1))
  {
    hide FatByte;
    assert Number(v, g, i + 1, 1) == FatByte(v, g, i + 1);
  }

  lemma FourBytes(v: Sectors, g: Geom, i: nat)
    ensures Number(v, g, i, 4) ==
              LdDword(FatByte(v, g, i), FatByte(v, g, i + 1), FatByte(v, g, i + 2), FatByte(v, g, i + 3))
  {
    hide FatByte;
    TwoBytes(v, g, i + 2);
    assert Number(v, g, i + 1, 3) == (FatByte(v, g, i + 1) as int) + 256 * Number(v, g, i + 2, 2);
    assert Number(v, g, i, 4) == (FatByte(v, g, i) as int) + 256 * Number(v, g, i + 1, 3);
  }

  /** The number that n bytes of the FAT stand for. */
  function Number(v: Sectors, g: Geom, i: nat, n: nat): nat
    decreases n
  {
    if n == 0 then 0 else (FatByte(v, g, i) as int) + 256 * Number(v, g, i + 1, n - 1)
  }

  /** A FAT of n entries takes the bytes up to the last one of its last entry. */
  lemma FatLength(t: FsType, n: nat)
    requires n > 0
    ensures FatBytes(t, n) == LastByte(t, n - 1) + 1
  {
    if t == FAT12 {
      var k := n / 2;
      if n == 2 * k {
        DivModUnique(n * 3, 2, 3 * k, 0);
        DivModUnique(n - 1, 2, k - 1, 1);
      } else {
        DivModUnique(n * 3, 2, 3 * k + 1, 1);
        DivModUnique(n - 1, 2, k, 0);
      }
    }
  }

  /** The end marks that create_chain stores. The eight values below each of them are reserved, too: a volume has
      no more entries than leave the last cluster below these. */
  lemma EndMarks()
    ensures EndMark(FAT12) == 0xFFF && EndMark(FAT16) == 0xFFFF && EndMark(FAT32) == 0x0FFF_FFFF
    ensures forall t: FsType :: MaxEntries(t) == EndMark(t) - 8
  {
  }

  /** Cluster 2 is the first of the data area; the clusters follow each other. */
  lemma ClusterPlace(g: Geom, c: nat)
    requires c >= 2
    ensures First(g, 2) == g.database && First(g, c + 1) == First(g, c) + g.csize
  {
  }

  /** The thirteen characters of a long entry: five from byte 1, six from byte 14, two from byte 28 on. */
  lemma CharPlaces(e: seq<Byte>, s: nat)
    requires |e| == 32 && s < 13
    ensures var o := if s < 5 then 1 + 2 * s else if s < 11 then 4 + 2 * s else 6 + 2 * s;
      o <= 30 && CharAt(e, s) == LdWord(e[o], e[o + 1])
  {
  }

  /** A name of n characters takes one long entry for every 13 of them, and a short one. */
  lemma EntriesNeeded(fn: seq<Byte>, n: seq<WChar>)
    requires |fn| == 12 && n != []
    ensures Needed(fn, n) == if fn[11] / 2 % 2 == 1 then (|n| + 12) / 13 + 1 else 1
  {
    LfnFlag(fn);
    hide LongWanted;
  }

  /** Entries of 32 bytes, one after the other; free ones were deleted or never used. */
  lemma EntryPlace(v: Sectors, g: Geom, secs: seq<nat>, i: nat)
    requires SectorSize(g.ss) && i * 32 < |secs| * g.ss
    requires forall k :: 0 <= k < |secs| ==> secs[k] < |v| && |v[secs[k]]| == g.ss
    ensures i * 32 / g.ss < |secs| && i * 32 % g.ss + 32 <= g.ss
    ensures var s, o := secs[i * 32 / g.ss], i * 32 % g.ss; Ent(v, g, secs, i) == v[s][o..o + 32]
    ensures FreeEntry(Ent(v, g, secs, i)) <==> Ent(v, g, secs, i)[0] == 0 || Ent(v, g, secs, i)[0] == 0xE5
  {
    EpsFacts(g);
    EntrySplit(g, i);
    DivLess(i * 32, g.ss, |secs|);
    assert i * 32 == EIdx(g, i) * g.ss + 32 * EOfs(g, i) by {
      assert i * 32 == (EIdx(g, i) * Eps(g)) * 32 + 32 * EOfs(g, i);
      assert (EIdx(g, i) * Eps(g)) * 32 == EIdx(g, i) * (32 * Eps(g));
    }
    hide EIdx, EOfs, Eps;
    DivModUnique(i * 32, g.ss, EIdx(g, i), 32 * EOfs(g, i));
  }
}
