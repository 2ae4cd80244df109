/** Mounting what f_mkfs wrote: the same geometry, and a FAT with only the reserved entries in use. */
module FreshVolume {
  import opened Arith
  import opened Volume
  import opened FatCodec
  import opened Chains
  import opened Mount
  import opened Format
  import opened Mkfs

  /** The search for the boot sector ends where f_mkfs put it. */
  lemma VolumeFound(sec: Sectors, p: Plan, nVol: nat, bVol: nat, ss: nat, md: Byte)
    requires Formatted(sec, p, nVol, bVol, ss, md) && bVol < |sec|
    ensures Locate(sec) == (0, bVol)
  {
    hide CheckFs, Partition, Tables, Info;
  }

  /** Byte i of the fresh FAT. */
  lemma FreshByte(sec: Sectors, p: Plan, bVol: nat, ss: nat, md: Byte, i: nat)
    requires Tables(sec, p, bVol, ss, md) && ss >= 512 && Uniform(sec, ss) && i < p.nFat * ss
    ensures FatByte(sec, GeomOf(p, ss, bVol), i)
         == if i < |HeadBytes(p.fmt, md)| then HeadBytes(p.fmt, md)[i] else 0
  {
    hide Zeros, SysArea;
    var s, o := FatBase(p, bVol) + i / ss, i % ss;
    DivLess(i, ss, p.nFat);
    InsideTables(p, bVol, i / ss);
    if i < ss {
      DivModUnique(i, ss, 0, i);
    } else {
      DivMonotone(ss, i, ss);
      DivModUnique(ss, ss, 1, 0);
      assert SecAt(sec, s) == Zeros(ss);
    }
  }

  lemma InsideTables(p: Plan, bVol: nat, k: nat)
    requires k < p.nFat
    ensures FatBase(p, bVol) + k < RootEnd(p, bVol)
  {
  }

  /** The value of entry c of a fresh FAT. */
  function FreshEntry(t: FsType, md: Byte, c: nat): nat {
    if c == 0 then (match t case FAT12 => 0xF00 + md case FAT16 => 0xFF00 + md case FAT32 => 0xFFF_FF00 + md)
    else if c == 1 then (match t case FAT12 => 0xFFF case FAT16 => 0xFFFF case FAT32 => 0xFFF_FFFF)
    else if c == 2 && t == FAT32 then 0xFFF_FFFF
    else 0
  }

  /** Byte i of the FAT is as f_mkfs left it. */
  ghost predicate ByteFresh(sec: Sectors, g: Geom, md: Byte, i: nat) {
    FatByte(sec, g, i) == if i < |HeadBytes(g.fsType, md)| then HeadBytes(g.fsType, md)[i] else 0
  }

  /** Entries decoded from the bytes of a fresh FAT. */
  lemma FreshEntryIs(sec: Sectors, g: Geom, md: Byte, c: nat)
    requires forall i: nat :: FirstByte(g.fsType, c) <= i <= LastByte(g.fsType, c) ==> ByteFresh(sec, g, md, i)
    ensures Entry(sec, g, c) == FreshEntry(g.fsType, md, c)
  {
    hide ByteFresh, Entry, FreshEntry;
    var i := FirstByte(g.fsType, c);
    assert ByteFresh(sec, g, md, i) && ByteFresh(sec, g, md, i + 1);
    match g.fsType
    case FAT12 => Fresh12(sec, g, md, c);
    case FAT16 => Fresh16(sec, g, md, c);
    case FAT32 =>
      assert ByteFresh(sec, g, md, i + 2) && ByteFresh(sec, g, md, i + 3);
      Fresh32(sec, g, md, c);
  }

  lemma Fresh12(sec: Sectors, g: Geom, md: Byte, c: nat)
    requires g.fsType == FAT12 && ByteFresh(sec, g, md, c + c / 2) && ByteFresh(sec, g, md, c + c / 2 + 1)
    ensures Entry(sec, g, c) == FreshEntry(FAT12, md, c)
  {
    hide FatByte;
    Entry12(sec, g, c);
    if c >= 2 {
      assert c + c / 2 >= 3;
    }
  }

  lemma Fresh16(sec: Sectors, g: Geom, md: Byte, c: nat)
    requires g.fsType == FAT16 && ByteFresh(sec, g, md, 2 * c) && ByteFresh(sec, g, md, 2 * c + 1)
    ensures Entry(sec, g, c) == FreshEntry(FAT16, md, c)
  {
    hide FatByte;
  }

  lemma Fresh32(sec: Sectors, g: Geom, md: Byte, c: nat)
    requires g.fsType == FAT32 && ByteFresh(sec, g, md, 4 * c) && ByteFresh(sec, g, md, 4 * c + 1)
    requires ByteFresh(sec, g, md, 4 * c + 2) && ByteFresh(sec, g, md, 4 * c + 3)
    ensures Entry(sec, g, c) == FreshEntry(FAT32, md, c)
  {
    hide FatByte, LdDword;
    Masked32(md);
  }

  /** The upper four bits of an entry do not count. */
  lemma Masked28(q: nat, r: nat, w: nat)
    requires r < 0x1000_0000 && w == q * 0x1000_0000 + r
    ensures w % 0x1000_0000 == r
  {
    DivModUnique(w, 0x1000_0000, q, r);
  }

  lemma Masked32(md: Byte)
    ensures LdDword(md, 0xFF, 0xFF, 0xFF) % 0x1000_0000 == 0xFFF_FF00 + md
    ensures LdDword(0xFF, 0xFF, 0xFF, 0xFF) % 0x1000_0000 == 0xFFF_FFFF
    ensures LdDword(0xFF, 0xFF, 0xFF, 0x0F) % 0x1000_0000 == 0xFFF_FFFF
    ensures LdDword(0, 0, 0, 0) % 0x1000_0000 == 0
  {
    hide LdDword;
    Words(md);
    Masked28(15, 0xFFF_FF00 + md, LdDword(md, 0xFF, 0xFF, 0xFF));
    Masked28(15, 0xFFF_FFFF, LdDword(0xFF, 0xFF, 0xFF, 0xFF));
    Masked28(0, 0xFFF_FFFF, LdDword(0xFF, 0xFF, 0xFF, 0x0F));
    Masked28(0, 0, LdDword(0, 0, 0, 0));
  }

  lemma Words(md: Byte)
    ensures LdDword(md, 0xFF, 0xFF, 0xFF) == 0xFFFF_FF00 + md
    ensures LdDword(0xFF, 0xFF, 0xFF, 0xFF) == 0xFFFF_FFFF
    ensures LdDword(0xFF, 0xFF, 0xFF, 0x0F) == 0x0FFF_FFFF && LdDword(0, 0, 0, 0) == 0
  {
  }

  /** The FAT of a fresh volume, entry by entry. */
  lemma FreshFat(sec: Sectors, p: Plan, bVol: nat, ss: nat, md: Byte, total: nat)
    requires Tables(sec, p, bVol, ss, md) && ss >= 512 && Uniform(sec, ss) && Sizes(GeomOf(p, ss, bVol), total)
    ensures var f := Fat(sec, GeomOf(p, ss, bVol));
      forall c: nat :: c < |f| ==> f[c] == FreshEntry(p.fmt, md, c)
  {
    hide Tables, Sizes, FreshEntry, Uniform, FatByte, Entry, HeadBytes, FatLen;
    var g := GeomOf(p, ss, bVol);
    forall c: nat | c < g.nFatent
      ensures Entry(sec, g, c) == FreshEntry(p.fmt, md, c)
    {
      EntryFits(g, total, c);
      LenIs(p, ss, bVol);
      forall i: nat | FirstByte(g.fsType, c) <= i <= LastByte(g.fsType, c)
        ensures ByteFresh(sec, g, md, i)
      {
        FreshByte(sec, p, bVol, ss, md, i);
      }
      FreshEntryIs(sec, g, md, c);
    }
  }

  lemma LenIs(p: Plan, ss: nat, bVol: nat)
    ensures FatLen(GeomOf(p, ss, bVol)) == p.nFat * ss && GeomOf(p, ss, bVol).fsType == p.fmt
  {
  }

  /** The chains of a fresh volume: none, or the FAT32 root directory. */
  function FreshChains(t: FsType): set<seq<nat>> {
    if t == FAT32 then {[2]} else {}
  }

  /** A fresh FAT is a forest, its two reserved entries are not 0, and all clusters but a FAT32 root
      are free. */
  lemma FreshForest(f: seq<nat>, t: FsType, md: Byte)
    requires 3 <= |f| <= MaxEntries(t) && forall c: nat :: c < |f| ==> f[c] == FreshEntry(t, md, c)
    ensures Forest(f, FreshChains(t)) && f[0] != 0 && f[1] != 0
    ensures CountFree(f, 2) == |f| - 2 - |FreshChains(t)|
  {
    if t == FAT32 {
      assert IsChain(f, [2]);
      assert 2 in [2] && Owned(FreshChains(t), 2);
    }
    AllFree(f, if t == FAT32 then 3 else 2);
  }

  lemma {:induction false} AllFree(f: seq<nat>, c: nat)
    requires c <= |f| && forall i :: c <= i < |f| ==> f[i] == 0
    ensures CountFree(f, c) == |f| - c
    decreases |f| - c
  {
    if c >= |f| {
    } else {
      AllFree(f, c + 1);
    }
  }

  /** What mounting tells about free clusters is exact. */
  lemma FreshHints(sec: Sectors, p: Plan, nVol: nat, bVol: nat, ss: nat, md: Byte)
    requires Formatted(sec, p, nVol, bVol, ss, md) && bVol < |sec| && p.nClst > 0
    ensures p.fmt == FAT32 ==> Hints(sec, GeomOf(p, ss, bVol)) == (2, p.nClst - 1)
    ensures p.fmt != FAT32 ==> Hints(sec, GeomOf(p, ss, bVol)) == (0xFFFF_FFFF, 0xFFFF_FFFF)
  {
    hide Tables, CheckFs, Partition, ParseBpb, Ld16, Ld32;
    if p.fmt == FAT32 {
      InfoThere(sec, bVol, p);
    }
  }

  lemma InfoThere(sec: Sectors, bVol: nat, p: Plan)
    requires Info(SecAt(sec, bVol + 1), FreeAfter(p))
    ensures bVol + 1 < |sec|
  {
    assert Ld32([], 0) == 0;
  }

  /** Everything about the fresh volume that mounting relies on. */
  ghost predicate FreshSound(sec: Sectors, g: Geom) {
    && GeomOk(g, |sec|)
    && Forest(Fat(sec, g), FreshChains(g.fsType))
    && Fat(sec, g)[0] != 0 && Fat(sec, g)[1] != 0
    && CountFree(Fat(sec, g), 2) == g.nFatent - 2 - |FreshChains(g.fsType)|
    && (Hints(sec, g).1 == 0xFFFF_FFFF || Hints(sec, g).1 == CountFree(Fat(sec, g), 2))
  }

  lemma Recovered(sec: Sectors, p: Plan, nVol: nat, bVol: nat, ss: nat, md: Byte, block: nat)
    requires SectorSize(ss) && Uniform(sec, ss) && PlanOk(p, nVol, bVol, ss, block)
    requires Formatted(sec, p, nVol, bVol, ss, md)
    requires bVol + nVol <= |sec| < W32 && bVol < |sec| && Quotient(nVol, p.au) <= 0x0FFF_FFF5
    ensures Locate(sec) == (0, bVol)
    ensures Accepted32(ParseBpb(sec[bVol]), ss) <==> LeavesCluster(p, nVol)
    ensures LeavesCluster(p, nVol) ==> Geom32(ParseBpb(sec[bVol]), ss, bVol) == GeomOf(p, ss, bVol)
    ensures LeavesCluster(p, nVol) ==> FreshSound(sec, GeomOf(p, ss, bVol))
  {
    FormattedParts(sec, p, nVol, bVol, ss, md);
    VolumeFound(sec, p, nVol, bVol, ss, md);
    hide *;
    PlanMounts(sec[bVol], p, nVol, bVol, ss, block, |sec|);
    BootFats(sec[bVol], p, nVol, ss);
    WrapsAway(ParseBpb(sec[bVol]), ss, bVol);
    if LeavesCluster(p, nVol) {
      SoundParts(p, ss, bVol, |sec|);
      FreshFat(sec, p, bVol, ss, md, |sec|);
      FreshForest(Fat(sec, GeomOf(p, ss, bVol)), p.fmt, md);
      FreshHints(sec, p, nVol, bVol, ss, md);
      FreshSoundMade(sec, p, ss, bVol);
    }
  }

  lemma BootFats(b: seq<Byte>, p: Plan, nVol: nat, ss: nat)
    requires Boot(b, p, nVol, ss)
    ensures ParseBpb(b).fats == 1
  {
    hide ParseBpb, CheckFs, Ld16;
  }

  lemma FormattedParts(sec: Sectors, p: Plan, nVol: nat, bVol: nat, ss: nat, md: Byte)
    requires Formatted(sec, p, nVol, bVol, ss, md) && bVol < |sec|
    ensures Tables(sec, p, bVol, ss, md) && Boot(sec[bVol], p, nVol, ss)
  {
    hide Tables, Boot, Info, CheckFs, Partition;
  }

  lemma SoundParts(p: Plan, ss: nat, bVol: nat, total: nat)
    requires GeomOk(GeomOf(p, ss, bVol), total)
    ensures ss >= 512 && Sizes(GeomOf(p, ss, bVol), total) && p.nClst > 0
    ensures 3 <= p.nClst + 2 <= MaxEntries(p.fmt) && GeomOf(p, ss, bVol).nFatent == p.nClst + 2
  {
    hide FatFits, DataFits, RootFits, IsPow2;
  }

  lemma FreshSoundMade(sec: Sectors, p: Plan, ss: nat, bVol: nat)
    requires var g := GeomOf(p, ss, bVol);
      && GeomOk(g, |sec|) && Forest(Fat(sec, g), FreshChains(p.fmt)) && g.nFatent >= 3
      && Fat(sec, g)[0] != 0 && Fat(sec, g)[1] != 0
      && CountFree(Fat(sec, g), 2) == |Fat(sec, g)| - 2 - |FreshChains(p.fmt)|
      && (p.fmt == FAT32 ==> Hints(sec, g) == (2, p.nClst - 1))
      && (p.fmt != FAT32 ==> Hints(sec, g) == (0xFFFF_FFFF, 0xFFFF_FFFF))
    ensures FreshSound(sec, GeomOf(p, ss, bVol))
  {
    hide GeomOk, Forest, Fat, CountFree, Hints;
  }

  /**
   * f_mkfs answers what the drive's size and the request determine, and writes the plan they determine.
   * Mounting what it wrote is accepted if and only if the aligned data area starts early enough for a
   * cluster. It then recovers sub-type, cluster size, FAT start and size, data start and cluster
   * count; the geometry is sound; only the reserved entries and a FAT32 root are in use; and a count
   * of free clusters, if one is given, is exact.
   */
  method FormatAndMount(disk: Disk, tbl: array<Byte>, sfd: bool, au: nat, blockSize: nat, serial: nat)
    returns (made: MkResult, p: Plan, res: MountResult, g: Geom, last: nat, free: nat)
    requires disk.reliable && disk.ss == tbl.Length && Uniform(disk.sec, disk.ss) && SectorSize(disk.ss)
    requires |disk.sec| < W32 && serial < W32
    requires Quotient(|disk.sec|, SectorsPerCluster(au, VolSize(|disk.sec|, sfd), disk.ss)) <= 0x0FFF_FFF5
    modifies disk, tbl
    ensures made == Answer(|disk.sec|, sfd, disk.ss, au, blockSize)
    ensures made == Done ==> p == PlanOf(VolSize(|disk.sec|, sfd), VolStart(sfd), disk.ss, au, blockSize)
    ensures made == Done ==>
              Written(disk.sec, p, VolSize(|disk.sec|, sfd), VolStart(sfd), disk.ss, if sfd then 0xF0 else 0xF8, serial)
    ensures made == Done ==>
              res == if StartFits(VolSize(|disk.sec|, sfd), VolStart(sfd), disk.ss, au, blockSize) then Mounted
                     else NoFilesystem
    ensures made == Done && res == Mounted ==>
              && g == GeomOf(p, disk.ss, VolStart(sfd)) && FreshSound(disk.sec, g) && Uniform(disk.sec, disk.ss)
              && (free == 0xFFFF_FFFF || free == CountFree(Fat(disk.sec, g), 2))
  {
    hide *;
    InWord(Quotient(|disk.sec|, SectorsPerCluster(au, VolSize(|disk.sec|, sfd), disk.ss)), disk.ss);
    p, g := Plan(FAT12, 1, 0, 0, 0, 0), Geom(FAT12, 0, 0, 0, 0, 0, 0, 0, 0, 0, 0);
    res, last, free := NoFilesystem, 0, 0xFFFF_FFFF;
    var md;
    made, p, md := MakeFs(disk, tbl, sfd, au, blockSize, serial);
    if made == Done {
      EnoughSectors(|disk.sec|, sfd, disk.ss, au, blockSize);
      VolFits(|disk.sec|, sfd);
      MediaByte(disk.sec, p, VolSize(|disk.sec|, sfd), sfd, disk.ss, md, serial);
      PlanStart(VolSize(|disk.sec|, sfd), VolStart(sfd), disk.ss, au, blockSize);
      QuotLess(VolSize(|disk.sec|, sfd), |disk.sec|, p.au);
      Recovered(disk.sec, p, VolSize(|disk.sec|, sfd), VolStart(sfd), disk.ss, md, Block(blockSize));
      res, g, last, free := MountVolume(disk, tbl);
      Outcome(disk.sec, p, VolSize(|disk.sec|, sfd), VolStart(sfd), disk.ss, res, g, last, free);
    }
  }

  lemma MediaByte(sec: Sectors, p: Plan, nVol: nat, sfd: bool, ss: nat, md: Byte, serial: nat)
    requires Written(sec, p, nVol, VolStart(sfd), ss, md, serial)
    ensures md == if sfd then 0xF0 else 0xF8
  {
    hide HeadWritten, InfoSector;
  }

  lemma InWord(n: nat, ss: nat)
    requires n <= 0x0FFF_FFF5 && SectorSize(ss)
    ensures FatInWord(n, ss)
  {
  }

  lemma EnoughSectors(total: nat, sfd: bool, ss: nat, au: nat, blockSize: nat)
    requires SectorSize(ss) && Answer(total, sfd, ss, au, blockSize) == Done
    ensures total >= 128
  {
    hide PlanAllowed, PlanOf, RootEnd;
  }

  lemma VolFits(total: nat, sfd: bool)
    requires total >= 128
    ensures VolStart(sfd) + VolSize(total, sfd) <= total && VolStart(sfd) < total
  {
  }

  lemma Outcome(sec: Sectors, p: Plan, nVol: nat, bVol: nat, ss: nat, res: MountResult, g: Geom, last: nat, free: nat)
    requires MountsAs(sec, ss, bVol, res, g, last, free) && bVol < |sec|
    requires Accepted32(ParseBpb(sec[bVol]), ss) <==> LeavesCluster(p, nVol)
    requires LeavesCluster(p, nVol) ==> Geom32(ParseBpb(sec[bVol]), ss, bVol) == GeomOf(p, ss, bVol)
    requires LeavesCluster(p, nVol) ==> FreshSound(sec, GeomOf(p, ss, bVol))
    ensures res == if LeavesCluster(p, nVol) then Mounted else NoFilesystem
    ensures res == Mounted ==> g == GeomOf(p, ss, bVol) && FreshSound(sec, g)
    ensures res == Mounted ==> free == 0xFFFF_FFFF || free == CountFree(Fat(sec, g), 2)
  {
    hide Accepted32, LeavesCluster, Geom32, ParseBpb, Hints, Fat, CountFree, GeomOk, Forest, GeomOf;
  }
}
