/** f_getfree: counting the free clusters of the volume. */
module FreeCount {
  import opened Arith
  import opened Volume
  import opened FatCodec
  import opened Chains
  import opened Allocator

  /** Counting the reserved entries too gives the same number exactly when neither is 0. */
  lemma ReservedEntries(fat: seq<nat>)
    requires |fat| >= 2
    ensures CountFree(fat, 0) == CountFree(fat, 2) <==> fat[0] != 0 && fat[1] != 0
  {
    assert CountFree(fat, 1) == (if fat[1] == 0 then 1 else 0) + CountFree(fat, 2);
  }

  /** From one k-byte entry to the next in the byte stream of the FAT. */
  lemma NextEntry(g: Geom, k: nat, x: nat)
    requires SectorSize(g.ss) && (k == 2 || k == 4) && OfsOf(g, x) % k == 0
    ensures OfsOf(g, x) + k <= g.ss
    ensures if OfsOf(g, x) + k == g.ss then SecOf(g, x + k) == SecOf(g, x) + 1 && OfsOf(g, x + k) == 0
            else SecOf(g, x + k) == SecOf(g, x) && OfsOf(g, x + k) == OfsOf(g, x) + k
    ensures OfsOf(g, x + k) % k == 0
  {
    var ss := g.ss;
    var q, r := x / ss, x % ss;
    RoomForEntry(ss, k, r);
    hide SectorSize;
    assert x + k == q * ss + (r + k);
    if r + k < ss {
      DivModUnique(x + k, ss, q, r + k);
    } else {
      assert (q + 1) * ss == q * ss + ss;
      DivModUnique(x + k, ss, q + 1, 0);
    }
  }

  lemma RoomForEntry(ss: nat, k: nat, r: nat)
    requires SectorSize(ss) && (k == 2 || k == 4) && r % k == 0 && r < ss
    ensures r + k <= ss && (r + k) % k == 0 && ss > 0 && 0 % k == 0
  {
  }

  /** Bytes of an entry. */
  function EntrySize(t: FsType): nat {
    if t == FAT16 then 2 else 4
  }

  /** The scan is about to look at entry c, p bytes into the sector before `sect`, or at its start. */
  ghost predicate AtEntry(g: Geom, c: nat, sect: nat, i: nat, p: nat) {
    var x := EntrySize(g.fsType) * c;
    && OfsOf(g, x) % EntrySize(g.fsType) == 0
    && if i == 0 then sect == SecOf(g, x) && OfsOf(g, x) == 0
       else i + p == g.ss && p == OfsOf(g, x) && sect == SecOf(g, x) + 1
  }

  lemma AtFirst(g: Geom)
    requires SectorSize(g.ss)
    ensures AtEntry(g, 0, g.fatbase, 0, 0)
  {
  }

  lemma AtNext(g: Geom, c: nat, sect: nat, i: nat, p: nat)
    requires SectorSize(g.ss) && AtEntry(g, c, sect, i, p) && i > 0
    ensures i >= EntrySize(g.fsType)
    ensures AtEntry(g, c + 1, sect, i - EntrySize(g.fsType), p + EntrySize(g.fsType))
  {
    hide SecOf, OfsOf, SectorSize;
    NextEntry(g, EntrySize(g.fsType), EntrySize(g.fsType) * c);
  }

  /** The entry as the window shows it. */
  lemma EntryInWindow(v: Sectors, g: Geom, c: nat)
    requires Layout(g, |v|) && Sizes(g, |v|) && Uniform(v, g.ss) && g.fsType != FAT12 && c < g.nFatent
    ensures var k := EntrySize(g.fsType);
            var s, p := SecOf(g, k * c), OfsOf(g, k * c);
            InFat(g, s) && s < |v| && p + k <= |v[s]| && Shown(v[s], p, g.fsType) == Entry(v, g, c)
    ensures SectorSize(g.ss)
  {
    hide Layout, Uniform, FatByte, SecOf, OfsOf, FatLen, SectorSize, LdWord, LdDword, Shows, BitAnd, Sizes, EntrySec;
    var k := EntrySize(g.fsType);
    EntryFits(g, |v|, c);
    EntryShown(v, g, k, c);
    assert InEntrySec(g, k, c, 0);
    var s, p := SecOf(g, k * c), OfsOf(g, k * c);
    if g.fsType == FAT16 {
      ShownWord(v[s], p, v, g, 2 * c);
    } else {
      ShownDword(v[s], p, v, g, 4 * c);
      Pow2At28();
      MaskIsMod(LdDword(v[s][p], v[s][p + 1], v[s][p + 2], v[s][p + 3]), 0x1000_0000);
    }
  }

  /** The value the scan reads at offset p. */
  function Shown(w: seq<Byte>, p: nat, t: FsType): nat {
    if t == FAT16 then (if p + 2 <= |w| then LdWord(w[p], w[p + 1]) else 0)
    else if p + 4 <= |w| then BitAnd(LdDword(w[p], w[p + 1], w[p + 2], w[p + 3]), 0x0FFF_FFFF) else 0
  }

  /** The sector-streaming scan for FAT16 and FAT32: every entry is looked at once, including the
      two reserved ones. */
  method ScanAligned(fs: FATFS) returns (nfree: nat)
    requires fs.Valid() && fs.disk.reliable && fs.g.fsType != FAT12
    modifies fs`winsect, fs`wflag, fs.win, fs.disk
    ensures fs.Valid() && fs.View() == old(fs.View())
    ensures nfree == CountFree(FatOf(fs), 0)
    ensures fs.winsect == old(fs.winsect) || InFat(fs.g, fs.winsect)
  {
    hide Sizes, Layout, Uniform, SecOf, OfsOf, FATFS.Valid, FATFS.View, Fat, CountFree, AtEntry, InFat, Shown;
    hide SectorSize;
    FsFacts(fs);
    ghost var fat := FatOf(fs);
    ViewFacts(fs);
    AtFirst(fs.g);
    var clst: nat, sect: nat := fs.g.nFatent, fs.g.fatbase;
    var i: nat, p: nat := 0, 0;
    nfree := 0;
    while clst > 0
      invariant clst <= fs.g.nFatent && fs.Valid() && fs.View() == old(fs.View())
      invariant nfree + CountFree(fat, fs.g.nFatent - clst) == CountFree(fat, 0)
      invariant AtEntry(fs.g, fs.g.nFatent - clst, sect, i, p)
      invariant i > 0 ==> fs.winsect + 1 == sect
      invariant fs.winsect == old(fs.winsect) || InFat(fs.g, fs.winsect)
    {
      ghost var c := fs.g.nFatent - clst;
      i, p, sect := Refill(fs, i, p, sect, c);
      if Shown(fs.win[..], p, fs.g.fsType) == 0 {
        nfree := nfree + 1;
      }
      CountStep(fat, c);
      AtNext(fs.g, c, sect, i, p);
      p := p + EntrySize(fs.g.fsType);
      i := i - EntrySize(fs.g.fsType);
      clst := clst - 1;
    }
    CountDone(fat);
  }

  lemma CountStep(fat: seq<nat>, c: nat)
    requires c < |fat|
    ensures CountFree(fat, c) == (if fat[c] == 0 then 1 else 0) + CountFree(fat, c + 1)
  {
  }

  lemma CountDone(fat: seq<nat>)
    ensures CountFree(fat, |fat|) == 0
  {
  }

  /** Load the next FAT sector once the last one is used up. */
  method Refill(fs: FATFS, i0: nat, p0: nat, sect0: nat, ghost c: nat) returns (i: nat, p: nat, sect: nat)
    requires fs.Valid() && fs.disk.reliable && fs.g.fsType != FAT12 && c < fs.g.nFatent
    requires AtEntry(fs.g, c, sect0, i0, p0) && (i0 > 0 ==> fs.winsect + 1 == sect0)
    modifies fs`winsect, fs`wflag, fs.win, fs.disk
    ensures fs.Valid() && fs.View() == old(fs.View())
    ensures i > 0 && AtEntry(fs.g, c, sect, i, p) && fs.winsect + 1 == sect && InFat(fs.g, fs.winsect)
    ensures Shown(fs.win[..], p, fs.g.fsType) == FatOf(fs)[c] && SectorSize(fs.g.ss)
  {
    hide Sizes, Layout, Uniform, SecOf, OfsOf, FATFS.Valid, FATFS.View, Shown, Overlay, Entry, InFat, SectorSize;
    FsFacts(fs);
    EntryInWindow(fs.View(), fs.g, c);
    i, p, sect := i0, p0, sect0;
    if i == 0 {
      var res := SeekFat(fs, sect);
      sect := sect + 1;
      p := 0;
      i := fs.g.ss;
    }
    FsFacts(fs);
  }

  // ----- FAT12, where a corrupt entry ends the scan -----

  /** The first corrupt entry from c on, or the end of the FAT. */
  ghost function FirstBad(fat: seq<nat>, c: nat): (r: nat)
    requires c <= |fat|
    ensures c <= r <= |fat| && (r < |fat| ==> fat[r] == 1)
    ensures forall d: nat :: c <= d < r ==> fat[d] != 1
    decreases |fat| - c
  {
    if c == |fat| || fat[c] == 1 then c else FirstBad(fat, c + 1)
  }

  /** That there is none from 2 on means that no entry is corrupt. */
  lemma FirstBadIsBad(fat: seq<nat>)
    requires |fat| >= 2
    ensures FirstBad(fat, 2) < |fat| <==> HasBadLink(fat)
  {
  }

  /** Free clusters in front of c, and from c on. */
  lemma {:induction false} CountSplit(fat: seq<nat>, lo: nat, c: nat)
    requires lo <= c <= |fat|
    ensures CountFree(fat, lo) == CountFree(fat[..c], lo) + CountFree(fat, c)
    decreases c - lo
  {
    if lo == c {
    } else {
      CountSplit(fat, lo + 1, c);
      assert fat[..c][lo] == fat[lo];
    }
  }

  /** The count of a scan that a corrupt entry ended is exact if and only if nothing behind it is free. */
  lemma PartialCount(fat: seq<nat>)
    requires |fat| >= 2
    ensures CountFree(fat[..FirstBad(fat, 2)], 2) == CountFree(fat, 2)
        <==> forall d: nat :: FirstBad(fat, 2) < d < |fat| ==> fat[d] != 0
  {
    var c := FirstBad(fat, 2);
    CountSplit(fat, 2, c);
    CountFreeZero(fat, c);
    hide CountFree, FirstBad;
    assert c < |fat| ==> fat[c] != 0;
  }

  /** A volume of two clusters: boot sector, one FAT sector that starts with `head`, root directory, data. */
  function SmallGeom(t: FsType): Geom {
    Geom(t, 512, 1, 1, 16, 4, 1, 0, 1, 2, 3)
  }

  function SmallVolume(head: seq<Byte>): (v: Sectors)
    requires |head| <= 512
    ensures |v| == 5 && Uniform(v, 512)
  {
    var z: seq<Byte> := Zeros(512);
    [z, head + Zeros(512 - |head|), z, z, z]
  }

  lemma SmallByte(head: seq<Byte>, t: FsType, i: nat)
    requires |head| <= 512 && i < 512
    ensures FatByte(SmallVolume(head), SmallGeom(t), i) == if i < |head| then head[i] else 0
  {
    DivModUnique(i, 512, 0, i);
  }

  lemma SmallSound(t: FsType)
    requires t != FAT32
    ensures GeomOk(SmallGeom(t), 5)
  {
  }

  /** On a FAT12 volume with a corrupt entry 2 the counter is set to 0, though cluster 3 is free. */
  lemma PartialCountWrong()
    ensures var v, g := SmallVolume([0xF8, 0xFF, 0xFF, 0x01]), SmallGeom(FAT12);
      && GeomOk(g, |v|) && Fat(v, g) == [0xFF8, 0xFFF, 1, 0]
      && CountFree(Fat(v, g)[..FirstBad(Fat(v, g), 2)], 2) == 0 && CountFree(Fat(v, g), 2) == 1
  {
    SmallSound(FAT12);
    CorruptFat();
    CorruptCount();
    hide *;
  }

  lemma CorruptFat()
    ensures Fat(SmallVolume([0xF8, 0xFF, 0xFF, 0x01]), SmallGeom(FAT12)) == [0xFF8, 0xFFF, 1, 0]
  {
    var head: seq<Byte> := [0xF8, 0xFF, 0xFF, 0x01];
    var v, g := SmallVolume(head), SmallGeom(FAT12);
    hide SmallVolume, FatByte;
    forall c: nat | c < 4
      ensures Fat(v, g)[c] == [0xFF8, 0xFFF, 1, 0][c]
    {
      Entry12(v, g, c);
      SmallByte(head, FAT12, c + c / 2);
      SmallByte(head, FAT12, c + c / 2 + 1);
    }
  }

  lemma CorruptCount()
    ensures var fat := [0xFF8, 0xFFF, 1, 0]; CountFree(fat[..FirstBad(fat, 2)], 2) == 0 && CountFree(fat, 2) == 1
  {
    var fat := [0xFF8, 0xFFF, 1, 0];
    assert FirstBad(fat, 2) == 2 && CountFree(fat, 4) == 0 && CountFree(fat, 3) == 1;
  }

  /** On a FAT16 volume with a 0 in the reserved entry 1, that entry is counted as a free cluster. */
  lemma ReservedCounted()
    ensures var v, g := SmallVolume([0xF8, 0xFF, 0, 0, 0xFF, 0xFF]), SmallGeom(FAT16);
      && GeomOk(g, |v|) && Fat(v, g) == [0xFFF8, 0, 0xFFFF, 0]
      && CountFree(Fat(v, g), 0) == 2 && CountFree(Fat(v, g), 2) == 1
  {
    SmallSound(FAT16);
    ZeroReserved();
    var fat := [0xFFF8, 0, 0xFFFF, 0];
    assert CountFree(fat, 4) == 0 && CountFree(fat, 3) == 1 && CountFree(fat, 1) == 2;
    hide *;
  }

  lemma ZeroReserved()
    ensures Fat(SmallVolume([0xF8, 0xFF, 0, 0, 0xFF, 0xFF]), SmallGeom(FAT16)) == [0xFFF8, 0, 0xFFFF, 0]
  {
    var head: seq<Byte> := [0xF8, 0xFF, 0, 0, 0xFF, 0xFF];
    var v, g := SmallVolume(head), SmallGeom(FAT16);
    hide SmallVolume, FatByte;
    forall c: nat | c < 4
      ensures Fat(v, g)[c] == [0xFFF8, 0, 0xFFFF, 0][c]
    {
      SmallByte(head, FAT16, 2 * c);
      SmallByte(head, FAT16, 2 * c + 1);
    }
  }

  /** The plain scan for FAT12, through get_fat: it ends at the first corrupt entry, with the count so far. */
  method ScanFat12(fs: FATFS) returns (res: FResult, nfree: nat)
    requires fs.Valid() && fs.disk.reliable
    modifies fs`winsect, fs`wflag, fs.win, fs.disk
    ensures fs.Valid() && fs.View() == old(fs.View()) && fs.g.nFatent >= 2
    ensures res == if FirstBad(FatOf(fs), 2) < fs.g.nFatent then IntErr else OK
    ensures nfree == CountFree(FatOf(fs)[..FirstBad(FatOf(fs), 2)], 2)
    ensures fs.winsect == old(fs.winsect) || InFat(fs.g, fs.winsect)
  {
    hide FATFS.Valid, FATFS.View, Fat, CountFree, InFat;
    ViewFacts(fs);
    ghost var fat := FatOf(fs);
    nfree, res := 0, OK;
    var clst := 2;
    while clst < fs.g.nFatent
      invariant 2 <= clst <= fs.g.nFatent && fs.Valid() && fs.View() == old(fs.View())
      invariant nfree + CountFree(fat, clst) == CountFree(fat, 2)
      invariant FirstBad(fat, clst) == FirstBad(fat, 2)
      invariant fs.winsect == old(fs.winsect) || InFat(fs.g, fs.winsect)
    {
      CountStep(fat, clst);
      CountSplit(fat, 2, clst);
      var stat := GetFat(fs, clst);
      if stat == 0xFFFF_FFFF {
        return DiskErr, nfree;
      }
      if stat == 1 {
        return IntErr, nfree;
      }
      if stat == 0 {
        nfree := nfree + 1;
      }
      clst := clst + 1;
    }
    CountSplit(fat, 2, clst);
  }

  /**
   * f_getfree: the number of free clusters. A known counter is returned as it is; otherwise the
   * FAT is scanned and the counter set. On FAT12 a corrupt entry is reported, and the count is that of
   * the free clusters in front of the first one, which is exact if and only if none behind it is free.
   * On FAT16 and FAT32 the count is exact if and only if the two reserved entries are not 0.
   */
  method GetFree(fs: FATFS) returns (res: FResult, nclst: nat)
    requires fs.Valid() && fs.disk.reliable
    modifies fs, fs.win, fs.disk
    ensures fs.Valid() && fs.View() == old(fs.View()) && fs.lastClust == old(fs.lastClust) && fs.g.nFatent >= 2
    ensures old(fs.freeClust) <= fs.g.nFatent - 2 ==>
              res == OK && nclst == fs.freeClust == old(fs.freeClust) && fs.fsiDirty == old(fs.fsiDirty)
    ensures old(fs.freeClust) > fs.g.nFatent - 2 ==>
              && res == (if fs.g.fsType == FAT12 && HasBadLink(FatOf(fs)) then IntErr else OK)
              && fs.freeClust == nclst && fs.fsiDirty
    ensures old(fs.freeClust) > fs.g.nFatent - 2 && fs.g.fsType == FAT12 ==>
              && nclst == CountFree(FatOf(fs)[..FirstBad(FatOf(fs), 2)], 2)
              && (nclst == CountFree(FatOf(fs), 2)
                  <==> forall d: nat :: FirstBad(FatOf(fs), 2) < d < fs.g.nFatent ==> FatOf(fs)[d] != 0)
    ensures old(fs.freeClust) > fs.g.nFatent - 2 && fs.g.fsType != FAT12 ==>
              nclst == CountFree(FatOf(fs), 0) &&
              (nclst == CountFree(FatOf(fs), 2) <==> FatOf(fs)[0] != 0 && FatOf(fs)[1] != 0)
    ensures old(FreeExact(fs)) && old(fs.freeClust) <= fs.g.nFatent - 2 ==> nclst == CountFree(FatOf(fs), 2)
    ensures fs.winsect == old(fs.winsect) || InFat(fs.g, fs.winsect)
  {
    hide FATFS.Valid, FATFS.View, Fat, CountFree, FirstBad, InFat, HasBadLink;
    ViewFacts(fs);
    ReservedEntries(FatOf(fs));
    FirstBadIsBad(FatOf(fs));
    PartialCount(FatOf(fs));
    res := OK;
    if fs.freeClust <= fs.g.nFatent - 2 {
      nclst := fs.freeClust;
    } else {
      if fs.g.fsType == FAT12 {
        res, nclst := ScanFat12(fs);
      } else {
        nclst := ScanAligned(fs);
      }
      fs.freeClust := nclst;
      fs.fsiDirty := true;
    }
  }
}
