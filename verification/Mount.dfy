/** Mounting: check_fs and the parsing half of find_volume. */
module Mount {
  import opened Arith
  import opened Volume
  import opened FatCodec

  const MIN_FAT16: nat := 4086
  const MIN_FAT32: nat := 65526
  const MBR_TABLE: nat := 446
  const SIGNATURE: nat := 510
  const FAT_STRING: nat := 0x544146

  /** Sub-type for a number of clusters: the narrowest whose entries can number them below its reserved values. */
  function SubType(n: nat): (t: FsType)
    ensures t == FAT12 <==> n + 2 <= 0xFF7
    ensures t == FAT32 <==> n + 2 > 0xFFF7
  {
    if n >= MIN_FAT32 then FAT32 else if n >= MIN_FAT16 then FAT16 else FAT12
  }

  function ByteAt(b: seq<Byte>, o: nat): nat {
    if o < |b| then b[o] else 0
  }

  /** LD_WORD and LD_DWORD at offset o. */
  function Ld16(b: seq<Byte>, o: nat): (r: nat)
    ensures r < 0x1_0000
  {
    if o + 2 <= |b| then LdWord(b[o], b[o + 1]) else 0
  }

  function Ld32(b: seq<Byte>, o: nat): (r: nat)
    ensures r < W32
  {
    if o + 4 <= |b| then LdDword(b[o], b[o + 1], b[o + 2], b[o + 3]) else 0
  }

  /** check_fs on the sector's contents: 0 a FAT boot sector, 1 a boot sector of something else,
      2 no boot sector. */
  function CheckFs(b: seq<Byte>): nat {
    if Ld16(b, SIGNATURE) != 0xAA55 then 2
    else if Ld32(b, 54) % 0x100_0000 == FAT_STRING || Ld32(b, 82) % 0x100_0000 == FAT_STRING then 0
    else 1
  }

  /** The BIOS parameter block: sector size, sectors per cluster, reserved sectors, FAT copies, root
      entries, sectors of the volume, sectors per FAT, root cluster. */
  datatype Bpb = Bpb(bytes: nat, spc: nat, rsvd: nat, fats: nat, root: nat, total: nat, fatSize: nat, rootClus: nat)

  function ParseBpb(b: seq<Byte>): Bpb {
    Bpb(Ld16(b, 11), ByteAt(b, 13), Ld16(b, 14), ByteAt(b, 16), Ld16(b, 17),
        if Ld16(b, 19) != 0 then Ld16(b, 19) else Ld32(b, 32),
        if Ld16(b, 22) != 0 then Ld16(b, 22) else Ld32(b, 36),
        Ld32(b, 44))
  }

  /** Sectors of all FAT copies. */
  function FatSectors(p: Bpb): nat {
    if p.fats == 2 then p.fatSize * 2 else p.fatSize
  }

  function RootSectors(p: Bpb, ss: nat): nat {
    if ss < 32 then 0 else p.root / (ss / 32)
  }

  /** Reserved, FAT and static root directory area. */
  function SystemArea(p: Bpb, ss: nat): nat {
    p.rsvd + FatSectors(p) + RootSectors(p, ss)
  }

  function Clusters(p: Bpb, ss: nat): nat {
    if p.spc == 0 || p.total < SystemArea(p, ss) then 0 else (p.total - SystemArea(p, ss)) / p.spc
  }

  /** Every volume find_volume accepts. */
  ghost predicate Accepted(p: Bpb, ss: nat) {
    && p.bytes == ss && (p.fats == 1 || p.fats == 2)
    && p.spc > 0 && IsPow2(p.spc)
    && ss >= 32 && p.root % (ss / 32) == 0 && p.rsvd > 0
    && p.total >= SystemArea(p, ss) && Clusters(p, ss) > 0
    && (SubType(Clusters(p, ss)) == FAT32 <==> p.root == 0)
    && FatBytes(SubType(Clusters(p, ss)), Clusters(p, ss) + 2) <= p.fatSize * ss
  }

  /** The geometry find_volume derives for a volume that starts at sector bsect. */
  function GeomFrom(p: Bpb, ss: nat, bsect: nat): Geom {
    var t := SubType(Clusters(p, ss));
    Geom(t, ss, p.spc, p.fats, p.root, Clusters(p, ss) + 2, p.fatSize, bsect, bsect + p.rsvd,
         if t == FAT32 then p.rootClus else bsect + p.rsvd + FatSectors(p),
         bsect + SystemArea(p, ss))
  }

  /** No sum of sectors wraps around, and the volume lies on the drive. */
  ghost predicate OnDrive(p: Bpb, ss: nat, bsect: nat, total: nat) {
    bsect + p.total <= total < W32 && SystemArea(p, ss) < W32 && 4 * (Clusters(p, ss) + 2) + ss <= W32
  }

  /** What is accepted is a sound geometry, once the limits hold that mounting does not test. */
  lemma AcceptedIsSound(p: Bpb, ss: nat, bsect: nat, total: nat)
    requires Accepted(p, ss) && SectorSize(ss) && p.spc < 256 && OnDrive(p, ss, bsect, total)
    requires Clusters(p, ss) + 2 <= MaxEntries(SubType(Clusters(p, ss)))
    ensures GeomOk(GeomFrom(p, ss, bsect), total)
  {
    ByteSizedPow2(p.spc);
    DivFloor(p.total - SystemArea(p, ss), p.spc);
    hide IsPow2, FatBytes, SectorSize, MaxEntries, RootSectors, SubType;
    assert RootFits(GeomFrom(p, ss, bsect)) by {
      RootKept(p, ss, bsect);
    }
  }

  /** Mounting refuses nothing sound: within the limits that it does not test, a parameter block is accepted exactly
      if it has the drive's sector size, reserved sectors, at least one cluster, the static root directory its
      sub-type calls for, and a sound geometry. */
  lemma AcceptedExactly(p: Bpb, ss: nat, bsect: nat, total: nat)
    requires SectorSize(ss) && p.spc < 256 && OnDrive(p, ss, bsect, total)
    requires Clusters(p, ss) + 2 <= MaxEntries(SubType(Clusters(p, ss)))
    ensures Accepted(p, ss) <==>
              && p.bytes == ss && p.rsvd > 0 && p.spc > 0 && SystemArea(p, ss) + p.spc <= p.total
              && (Clusters(p, ss) + 2 > 0xFFF7 <==> p.root == 0) && GeomOk(GeomFrom(p, ss, bsect), total)
  {
    if Accepted(p, ss) {
      AcceptedIsSound(p, ss, bsect, total);
      OneCluster(p.total - SystemArea(p, ss), p.spc);
    }
    if p.spc > 0 && SystemArea(p, ss) + p.spc <= p.total {
      OneCluster(p.total - SystemArea(p, ss), p.spc);
    }
    hide IsPow2, FatBytes, MaxEntries, RootSectors, DataFits;
  }

  lemma OneCluster(x: nat, d: nat)
    requires d > 0
    ensures x / d > 0 <==> x >= d
  {
    if x < d {
      DivModUnique(x, d, 0, x);
    } else {
      DivMonotone(d, x, d);
      DivModUnique(d, d, 1, 0);
    }
  }

  /** The areas of the geometry follow each other without gaps, and the data area is divided into as many clusters as
      it has room for. */
  lemma GeomLayout(p: Bpb, ss: nat, bsect: nat)
    requires Accepted(p, ss) && SectorSize(ss)
    ensures var g := GeomFrom(p, ss, bsect);
      && g.volbase == bsect && g.fatbase == bsect + p.rsvd && g.fsize == p.fatSize && g.csize == p.spc
      && g.ss == ss && g.nFats == p.fats && g.nRootdir == p.root && g.nFatent >= 3
      && g.database == g.fatbase + p.fats * p.fatSize + p.root * 32 / ss
      && g.dirbase == (if g.fsType == FAT32 then p.rootClus else g.fatbase + p.fats * p.fatSize)
      && g.database + (g.nFatent - 2) * p.spc <= bsect + p.total < g.database + (g.nFatent - 1) * p.spc
  {
    hide IsPow2, FatBytes, SubType;
    SizeBound(ss);
    RootBytes(p.root, ss);
    hide SectorSize;
    Multiples(p.total - SystemArea(p, ss), p.spc);
    var n := Clusters(p, ss);
    assert n == (p.total - SystemArea(p, ss)) / p.spc;
    assert SystemArea(p, ss) == p.rsvd + p.fats * p.fatSize + p.root * 32 / ss by {
      assert p.fats == 1 ==> p.fats * p.fatSize == p.fatSize;
      assert p.fats == 2 ==> p.fats * p.fatSize == p.fatSize * 2;
    }
    hide Clusters, SystemArea, RootSectors;
  }

  lemma Multiples(x: nat, d: nat)
    requires d > 0
    ensures x / d * d <= x < (x / d + 1) * d
  {
    var q := x / d;
    assert x == q * d + x % d;
    assert (q + 1) * d == q * d + d;
  }

  lemma RootBytes(root: nat, ss: nat)
    requires SectorSize(ss) && root % (ss / 32) == 0
    ensures root / (ss / 32) == root * 32 / ss
  {
    var k := ss / 32;
    var q := root / k;
    assert root == q * k && ss == 32 * k;
    assert root * 32 == q * ss;
    DivModUnique(root * 32, ss, q, 0);
  }

  lemma DivFloor(x: nat, d: nat)
    requires d > 0
    ensures (x / d) * d <= x
  {
  }

  lemma RootKept(p: Bpb, ss: nat, bsect: nat)
    requires Accepted(p, ss)
    ensures RootFits(GeomFrom(p, ss, bsect))
  {
    hide FatBytes, IsPow2, Clusters, SubType;
  }

  lemma ByteSizedPow2(n: nat)
    requires IsPow2(n) && n < 256
    ensures n <= 128
  {
    Pow2Times16(1);
    Pow2Double(16);
    Pow2Double(32);
    Pow2Double(64);
    Pow2Below(n, 128);
  }

  lemma {:induction false} Pow2Below(n: nat, top: nat)
    requires IsPow2(n) && IsPow2(top) && n < 2 * top
    ensures n <= top
    decreases n
  {
    if n <= 1 || top <= 1 {
    } else {
      Pow2Below(n / 2, top / 2);
    }
  }

  /** `x & (x - 1)` tells powers of two. */
  lemma {:induction false} Pow2Test(x: nat)
    requires x > 0
    ensures BitAnd(x, x - 1) == 0 <==> IsPow2(x)
    decreases x
  {
    if x == 1 {
    } else if x % 2 == 0 {
      Pow2Test(x / 2);
      assert (x - 1) / 2 == x / 2 - 1;
    } else {
      assert (x - 1) / 2 == x / 2;
      AndSelf(x / 2);
    }
  }

  lemma {:induction false} AndSelf(x: nat)
    ensures BitAnd(x, x) == x
    decreases x
  {
    if x == 0 {
    } else {
      AndSelf(x / 2);
    }
  }

  // ----- finding the volume -----

  /** Start of partition i in the table of sector b, 0 when there is none. */
  function Partition(b: seq<Byte>, i: nat): nat {
    if ByteAt(b, MBR_TABLE + 16 * i + 4) != 0 then Ld32(b, MBR_TABLE + 16 * i + 8) else 0
  }

  /** check_fs of sector s: 3 when it cannot be read. */
  function Probe(sec: Sectors, s: nat): nat {
    if s >= |sec| then 3 else CheckFs(sec[s])
  }

  /** The search through the partitions from number i on: its verdict and the volume's start. */
  function FirstFat(sec: Sectors, b: seq<Byte>, i: nat): (nat, nat)
    decreases 4 - i
  {
    var s := Partition(b, i);
    var fmt := if s == 0 then 2 else Probe(sec, s);
    if fmt == 0 || i >= 3 then (fmt, s) else FirstFat(sec, b, i + 1)
  }

  /** Where the volume starts: sector 0, or the first FAT partition. */
  function Locate(sec: Sectors): (nat, nat) {
    if Probe(sec, 0) == 1 then FirstFat(sec, sec[0], 0) else (Probe(sec, 0), 0)
  }

  /** The sector ends in the signature of a boot sector. */
  predicate SignedBoot(b: seq<Byte>) {
    |b| >= 512 && b[510] == 0x55 && b[511] == 0xAA
  }

  /** It has the letters FAT at byte 54 or 82 as well. */
  predicate FatBoot(b: seq<Byte>) {
    && SignedBoot(b)
    && ((b[54] == 70 && b[55] == 65 && b[56] == 84) || (b[82] == 70 && b[83] == 65 && b[84] == 84))
  }

  /** First sector of entry i of a partition table, 0 if it is empty. */
  function PartStart(b: seq<Byte>, i: nat): nat
    requires |b| >= 512 && i < 4
  {
    if b[450 + 16 * i] == 0 then 0
    else LdDword(b[454 + 16 * i], b[455 + 16 * i], b[456 + 16 * i], b[457 + 16 * i])
  }

  /** Partition i is a FAT volume. */
  predicate FatPart(sec: Sectors, i: nat)
    requires |sec| > 0 && |sec[0]| >= 512 && i < 4
  {
    var s := PartStart(sec[0], i);
    0 < s < |sec| && FatBoot(sec[s])
  }

  /** The verdict on partition i. */
  function Probed(sec: Sectors, i: nat): nat
    requires |sec| > 0 && |sec[0]| >= 512 && i < 4
  {
    var s := PartStart(sec[0], i);
    if s == 0 then 2 else if s >= |sec| then 3 else if FatBoot(sec[s]) then 0 else if SignedBoot(sec[s]) then 1 else 2
  }

  /** check_fs in terms of the sector's bytes. */
  lemma CheckFsIs(b: seq<Byte>)
    requires |b| >= 512
    ensures CheckFs(b) == if FatBoot(b) then 0 else if SignedBoot(b) then 1 else 2
  {
    WordIs(b[510], b[511]);
    LettersAt(b, 54);
    LettersAt(b, 82);
    hide Ld32;
  }

  lemma WordIs(x: Byte, y: Byte)
    ensures LdWord(x, y) == 0xAA55 <==> x == 0x55 && y == 0xAA
  {
    if LdWord(x, y) == 0xAA55 {
      DivModUnique(0xAA55, 256, y, x);
    }
  }

  lemma LettersAt(b: seq<Byte>, o: nat)
    requires o + 4 <= |b|
    ensures Ld32(b, o) % 0x100_0000 == FAT_STRING <==> b[o] == 70 && b[o + 1] == 65 && b[o + 2] == 84
  {
    var low := LdDword(b[o], b[o + 1], b[o + 2], 0);
    var top: nat := b[o + 3];
    assert Ld32(b, o) == 0x100_0000 * top + low;
    DivModUnique(Ld32(b, o), 0x100_0000, top, low);
    if low == 0x54_4146 {
      var high := LdWord(b[o + 1], b[o + 2]);
      DivModUnique(low, 256, high, b[o]);
      DivModUnique(high, 256, b[o + 2], b[o + 1]);
    }
  }

  lemma PartitionIs(b: seq<Byte>, i: nat)
    requires |b| >= 512 && i < 4
    ensures Partition(b, i) == PartStart(b, i)
  {
  }

  /** Which sector mounting takes for the boot sector: sector 0 if it is that of a FAT volume; otherwise, if it is
      a boot sector at all, that of the first partition that is a FAT volume. Its verdict is that of the last
      partition if there is none. */
  lemma LocateIs(sec: Sectors, ss: nat)
    requires Uniform(sec, ss) && ss >= 512
    ensures sec == [] ==> Locate(sec) == (3, 0)
    ensures sec != [] && FatBoot(sec[0]) ==> Locate(sec) == (0, 0)
    ensures sec != [] && !SignedBoot(sec[0]) ==> Locate(sec) == (2, 0)
    ensures sec != [] && SignedBoot(sec[0]) && !FatBoot(sec[0]) ==>
              && (forall i: nat :: i < 4 && FatPart(sec, i) && (forall j: nat :: j < i ==> !FatPart(sec, j)) ==>
                    Locate(sec) == (0, PartStart(sec[0], i)))
              && ((forall i: nat :: i < 4 ==> !FatPart(sec, i)) ==>
                    Locate(sec) == (Probed(sec, 3), PartStart(sec[0], 3)))
  {
    hide CheckFs, Partition;
    if sec != [] {
      CheckFsIs(sec[0]);
      forall i: nat | i < 4
        ensures Partition(sec[0], i) == PartStart(sec[0], i)
        ensures var s := PartStart(sec[0], i); 0 < s < |sec| ==>
                  CheckFs(sec[s]) == if FatBoot(sec[s]) then 0 else if SignedBoot(sec[s]) then 1 else 2
      {
        PartitionIs(sec[0], i);
        if 0 < PartStart(sec[0], i) < |sec| {
          CheckFsIs(sec[PartStart(sec[0], i)]);
        }
      }
      hide FatBoot, SignedBoot, PartStart;
      assert FirstFat(sec, sec[0], 3) == (Probed(sec, 3), PartStart(sec[0], 3));
      assert FatPart(sec, 2) || FirstFat(sec, sec[0], 2) == FirstFat(sec, sec[0], 3);
      assert FatPart(sec, 1) || FirstFat(sec, sec[0], 1) == FirstFat(sec, sec[0], 2);
      assert FatPart(sec, 0) || FirstFat(sec, sec[0], 0) == FirstFat(sec, sec[0], 1);
    }
  }

  datatype MountResult = Mounted | DiskError | NoFilesystem

  /** check_fs. */
  method Check(disk: Disk, win: array<Byte>, sect: nat) returns (fmt: nat)
    requires disk.reliable && disk.ss == win.Length && Uniform(disk.sec, disk.ss)
    modifies win
    ensures fmt == Probe(disk.sec, sect)
    ensures sect < |disk.sec| ==> win[..] == disk.sec[sect]
  {
    hide CheckFs;
    var ok := disk.Read(win, sect);
    fmt := if ok then CheckFs(win[..]) else 3;
  }

  /** The search for the volume's boot sector. */
  method FindBootSector(disk: Disk, win: array<Byte>) returns (fmt: nat, bsect: nat)
    requires disk.reliable && disk.ss == win.Length && Uniform(disk.sec, disk.ss)
    modifies win
    ensures (fmt, bsect) == Locate(disk.sec)
    ensures fmt == 0 ==> bsect < |disk.sec| && win[..] == disk.sec[bsect]
    ensures fmt == 0 && disk.ss >= 512 ==> FatBoot(win[..])
  {
    hide CheckFs, Partition, FatBoot;
    bsect := 0;
    fmt := Check(disk, win, bsect);
    if fmt == 1 {
      ghost var b := win[..];
      var br := [Partition(win[..], 0), Partition(win[..], 1), Partition(win[..], 2), Partition(win[..], 3)];
      var i := 0;
      while true
        invariant 0 <= i < 4 && FirstFat(disk.sec, b, i) == FirstFat(disk.sec, b, 0)
        decreases 4 - i
      {
        assert br[i] == Partition(b, i);
        bsect := br[i];
        if bsect != 0 {
          fmt := Check(disk, win, bsect);
        } else {
          fmt := 2;
        }
        if fmt == 0 || i == 3 {
          break;
        }
        i := i + 1;
      }
    }
    if disk.ss >= 512 && bsect < |disk.sec| {
      CheckFsIs(disk.sec[bsect]);
    }
  }

  // ----- the BIOS parameter block -----

  /** No 32-bit wrap-around in the volume's sums. */
  ghost predicate NoWrap(p: Bpb, ss: nat, bsect: nat) {
    FatSectors(p) < W32 && bsect + SystemArea(p, ss) < W32 && 4 * (Clusters(p, ss) + 2) + ss <= W32
  }

  /** `(szbfat + SS - 1) / SS`: sectors needed. */
  function CeilDiv(bytes: nat, ss: nat): nat {
    if ss == 0 then 0 else (bytes + (ss - 1)) / ss
  }

  lemma FatNeeds(bytes: nat, ss: nat, fsize: nat)
    requires ss > 0
    ensures fsize < CeilDiv(bytes, ss) <==> fsize * ss < bytes
  {
    var q, r := (bytes + (ss - 1)) / ss, (bytes + (ss - 1)) % ss;
    assert bytes + (ss - 1) == q * ss + r;
    if fsize < q {
      MulMonotone(fsize + 1, q, ss);
      assert (fsize + 1) * ss == fsize * ss + ss;
    } else {
      MulMonotone(q, fsize, ss);
    }
  }

  function Wrap32(x: nat): nat {
    x % W32
  }

  lemma Unwrapped(x: nat)
    requires x < W32
    ensures Wrap32(x) == x
  {
  }

  // The sums of find_volume as 32-bit words compute them.

  function FatSectors32(p: Bpb): nat {
    Wrap32(p.fatSize * p.fats)
  }

  function SystemArea32(p: Bpb, ss: nat): nat {
    Wrap32(p.rsvd + FatSectors32(p) + RootSectors(p, ss))
  }

  function Clusters32(p: Bpb, ss: nat): nat {
    if p.spc == 0 || p.total < SystemArea32(p, ss) then 0 else (p.total - SystemArea32(p, ss)) / p.spc
  }

  /** Sectors of FAT that are asked for n clusters. */
  function FatNeed32(t: FsType, n: nat, ss: nat): nat {
    var e := Wrap32(n + 2);
    var bytes := match t
      case FAT12 => Wrap32(e * 3) / 2 + e % 2
      case FAT16 => Wrap32(e * 2)
      case FAT32 => Wrap32(e * 4);
    if ss == 0 then 0 else Quotient(Wrap32(bytes + (ss - 1)), ss)
  }

  ghost predicate Accepted32(p: Bpb, ss: nat) {
    && p.bytes == ss && (p.fats == 1 || p.fats == 2)
    && p.spc > 0 && IsPow2(p.spc)
    && ss >= 32 && p.root % (ss / 32) == 0 && p.rsvd > 0
    && Clusters32(p, ss) > 0
    && (SubType(Clusters32(p, ss)) == FAT32 <==> p.root == 0)
    && FatNeed32(SubType(Clusters32(p, ss)), Clusters32(p, ss), ss) <= p.fatSize
  }

  function Geom32(p: Bpb, ss: nat, bsect: nat): Geom {
    var t := SubType(Clusters32(p, ss));
    Geom(t, ss, p.spc, p.fats, p.root, Wrap32(Clusters32(p, ss) + 2), p.fatSize, bsect, Wrap32(bsect + p.rsvd),
         if t == FAT32 then p.rootClus else Wrap32(Wrap32(bsect + p.rsvd) + FatSectors32(p)),
         Wrap32(bsect + SystemArea32(p, ss)))
  }

  /** Where nothing wraps around, they are the sums themselves. */
  lemma WrapsAway(p: Bpb, ss: nat, bsect: nat)
    requires NoWrap(p, ss, bsect) && SectorSize(ss) && (p.fats == 1 || p.fats == 2)
    ensures Accepted32(p, ss) <==> Accepted(p, ss)
    ensures Accepted(p, ss) ==> Geom32(p, ss, bsect) == GeomFrom(p, ss, bsect)
  {
    hide IsPow2, SubType, Wrap32;
    assert ss >= 32;
    hide SectorSize;
    Unwrapped(FatSectors(p));
    Unwrapped(SystemArea(p, ss));
    assert Clusters32(p, ss) == Clusters(p, ss);
    NeedUnwrapped(SubType(Clusters(p, ss)), Clusters(p, ss), ss, p.fatSize);
    Unwrapped(Clusters(p, ss) + 2);
    Unwrapped(bsect + p.rsvd);
    Unwrapped(bsect + p.rsvd + FatSectors(p));
    Unwrapped(bsect + SystemArea(p, ss));
    hide FatNeed32, FatBytes;
  }

  /** The test on the FAT's size is then the test on its bytes. */
  lemma NeedUnwrapped(t: FsType, n: nat, ss: nat, fsize: nat)
    requires ss > 0 && 4 * (n + 2) + ss <= W32
    ensures FatNeed32(t, n, ss) <= fsize <==> FatBytes(t, n + 2) <= fsize * ss
  {
    hide Wrap32;
    Unwrapped(n + 2);
    Unwrapped((n + 2) * 2);
    Unwrapped((n + 2) * 3);
    Unwrapped((n + 2) * 4);
    var x := FatBytes(t, n + 2);
    BytesBelow(t, n + 2);
    Unwrapped(x + (ss - 1));
    FatNeeds(x, ss, fsize);
  }

  lemma BytesBelow(t: FsType, n: nat)
    ensures FatBytes(t, n) <= 4 * n
  {
  }

  /** A parameter block whose two FAT copies of 2^31 sectors count as none is accepted, though the volume has
      no room for them. */
  lemma WrapAccepted()
    ensures var p := Bpb(512, 1, 1, 2, 16, 100, 0x8000_0000, 0); Accepted32(p, 512) && !Accepted(p, 512)
  {
    Pow2One();
    hide IsPow2;
    var p := Bpb(512, 1, 1, 2, 16, 100, 0x8000_0000, 0);
    assert FatSectors32(p) == 0 && SystemArea32(p, 512) == 2 && Clusters32(p, 512) == 98;
    assert FatNeed32(FAT12, 98, 512) == 1;
  }

  /** The half of find_volume that reads the boot sector in win. */
  method ReadBpb(win: array<Byte>, ss: nat, bsect: nat) returns (ok: bool, g: Geom)
    requires SectorSize(ss) && win.Length == ss && bsect < W32
    ensures var p := ParseBpb(win[..]); (ok <==> Accepted32(p, ss)) && (ok ==> g == Geom32(p, ss, bsect))
  {
    hide ParseBpb, Accepted32, Geom32;
    ok, g := CheckBpb(ParseBpb(win[..]), ss, bsect);
  }

  /** The tests and sums of find_volume on the fields of the boot sector. */
  method CheckBpb(p: Bpb, ss: nat, bsect: nat) returns (ok: bool, g: Geom)
    requires SectorSize(ss) && bsect < W32
    ensures (ok <==> Accepted32(p, ss)) && (ok ==> g == Geom32(p, ss, bsect))
    ensures NoWrap(p, ss, bsect) ==> (ok <==> Accepted(p, ss)) && (ok ==> g == GeomFrom(p, ss, bsect))
  {
    hide IsPow2, BitAnd, SubType, Wrap32, FatBytes, FatNeed32, NoWrap, Accepted, GeomFrom;
    if NoWrap(p, ss, bsect) {
      Unwrapping(p, ss, bsect);
    }
    SizeBound(ss);
    hide SectorSize;
    g := Geom(FAT12, ss, 0, 0, 0, 0, 0, 0, 0, 0, 0);
    if p.bytes != ss {
      return false, g;
    }
    if p.fats != 1 && p.fats != 2 {
      return false, g;
    }
    var fasize := Wrap32(p.fatSize * p.fats);
    if p.spc == 0 {
      return false, g;
    }
    Pow2Test(p.spc);
    if BitAnd(p.spc, p.spc - 1) != 0 {
      return false, g;
    }
    if p.root % (ss / 32) != 0 {
      return false, g;
    }
    if p.rsvd == 0 {
      return false, g;
    }
    var sysect := Wrap32(p.rsvd + fasize + p.root / (ss / 32));
    if p.total < sysect {
      return false, g;
    }
    var nclst := (p.total - sysect) / p.spc;
    if nclst == 0 {
      return false, g;
    }
    ok, g := Boundaries(p, ss, bsect, fasize, sysect, nclst);
  }

  lemma Unwrapping(p: Bpb, ss: nat, bsect: nat)
    requires SectorSize(ss) && NoWrap(p, ss, bsect)
    ensures Accepted32(p, ss) <==> Accepted(p, ss)
    ensures Accepted(p, ss) ==> Geom32(p, ss, bsect) == GeomFrom(p, ss, bsect)
  {
    hide Accepted, Accepted32, GeomFrom, Geom32, NoWrap;
    AcceptedFats(p, ss);
    if p.fats == 1 || p.fats == 2 {
      WrapsAway(p, ss, bsect);
    }
  }

  lemma AcceptedFats(p: Bpb, ss: nat)
    ensures Accepted(p, ss) || Accepted32(p, ss) ==> p.fats == 1 || p.fats == 2
  {
    hide IsPow2, FatBytes, FatNeed32, SubType;
  }

  /** "Boundaries and limits": the rest of the geometry and the test on the FAT size. */
  method Boundaries(p: Bpb, ss: nat, bsect: nat, fasize: nat, sysect: nat, nclst: nat) returns (ok: bool, g: Geom)
    requires ss >= 32
    ensures var t := SubType(nclst);
      && (ok <==> (t == FAT32 <==> p.root == 0) && FatNeed32(t, nclst, ss) <= p.fatSize)
      && (ok ==> g == Geom(t, ss, p.spc, p.fats, p.root, Wrap32(nclst + 2), p.fatSize, bsect, Wrap32(bsect + p.rsvd),
                           if t == FAT32 then p.rootClus else Wrap32(Wrap32(bsect + p.rsvd) + fasize),
                           Wrap32(bsect + sysect)))
  {
    hide Wrap32;
    var fmt := FAT12;
    if nclst >= MIN_FAT16 {
      fmt := FAT16;
    }
    if nclst >= MIN_FAT32 {
      fmt := FAT32;
    }
    var nFatent := Wrap32(nclst + 2);
    var fatbase := Wrap32(bsect + p.rsvd);
    var database := Wrap32(bsect + sysect);
    g := Geom(fmt, ss, p.spc, p.fats, p.root, nFatent, p.fatSize, bsect, fatbase, 0, database);
    var szbfat;
    if fmt == FAT32 {
      if p.root != 0 {
        return false, g;
      }
      g := g.(dirbase := p.rootClus);
      szbfat := Wrap32(nFatent * 4);
    } else {
      if p.root == 0 {
        return false, g;
      }
      g := g.(dirbase := Wrap32(fatbase + fasize));
      szbfat := if fmt == FAT16 then Wrap32(nFatent * 2) else Wrap32(nFatent * 3) / 2 + nFatent % 2;
    }
    ok := !(p.fatSize < Wrap32(szbfat + (ss - 1)) / ss);
  }

  /** The FSINFO sector b holds valid allocation hints. */
  predicate IsFsInfo(b: seq<Byte>) {
    Ld16(b, SIGNATURE) == 0xAA55 && Ld32(b, 0) == 0x41615252 && Ld32(b, 484) == 0x61417272
  }

  /** The boot sector signature, "RRaA" at byte 0 and "rrAa" at byte 484. */
  lemma InfoIs(b: seq<Byte>)
    requires |b| >= 512
    ensures IsFsInfo(b) <==>
              && SignedBoot(b) && b[0] == 82 && b[1] == 82 && b[2] == 97 && b[3] == 65
              && b[484] == 114 && b[485] == 114 && b[486] == 65 && b[487] == 97
  {
    WordIs(b[510], b[511]);
    FourBytes(b[0], b[1], b[2], b[3], 82, 82, 97, 65);
    FourBytes(b[484], b[485], b[486], b[487], 114, 114, 65, 97);
    assert LdDword(82, 82, 97, 65) == 0x41615252 && LdDword(114, 114, 65, 97) == 0x61417272;
    hide LdDword, LdWord;
  }

  lemma FourBytes(a: Byte, b: Byte, c: Byte, d: Byte, w: Byte, x: Byte, y: Byte, z: Byte)
    ensures LdDword(a, b, c, d) == LdDword(w, x, y, z) <==> a == w && b == x && c == y && d == z
  {
    if LdDword(a, b, c, d) == LdDword(w, x, y, z) {
      var p, q := LdDword(b, c, d, 0), LdDword(x, y, z, 0);
      DivModUnique(LdDword(a, b, c, d), 256, p, a);
      DivModUnique(LdDword(w, x, y, z), 256, q, w);
      var r, s := LdWord(c, d), LdWord(y, z);
      DivModUnique(p, 256, r, b);
      DivModUnique(q, 256, s, x);
      DivModUnique(r, 256, d, c);
      DivModUnique(s, 256, z, y);
    }
  }

  /** The last allocated cluster and the number of free clusters, as far as the volume tells. */
  function Hints(sec: Sectors, g: Geom): (nat, nat) {
    if g.fsType == FAT32 && g.volbase < |sec| && Ld16(sec[g.volbase], 48) == 1
       && g.volbase + 1 < |sec| && IsFsInfo(sec[g.volbase + 1])
    then (Ld32(sec[g.volbase + 1], 492), Ld32(sec[g.volbase + 1], 488))
    else (0xFFFF_FFFF, 0xFFFF_FFFF)
  }

  /** The sub-type as the number of entries tells it, unless that wraps around to 0 or 1. */
  lemma TypeByEntries(p: Bpb, ss: nat, bsect: nat)
    requires p.total < W32
    ensures var g := Geom32(p, ss, bsect);
      g.nFatent >= 2 ==> (g.fsType == FAT12 <==> g.nFatent <= 0xFF7) && (g.fsType == FAT32 <==> g.nFatent > 0xFFF7)
  {
    var n := Clusters32(p, ss);
    if p.spc > 0 && p.total >= SystemArea32(p, ss) {
      QuotientBelow(p.total - SystemArea32(p, ss), p.spc);
    }
    hide Clusters32, SystemArea32;
  }

  lemma ParsedTotal(b: seq<Byte>)
    ensures ParseBpb(b).total < W32
  {
    hide Ld16, Ld32;
  }

  lemma QuotientBelow(x: nat, d: nat)
    requires d > 0
    ensures x / d <= x
  {
    MulMonotone(1, d, x + 1);
    DivLess(x, d, x + 1);
  }

  /** What mounting makes of the boot sector bsect. */
  ghost predicate MountsAs(sec: Sectors, ss: nat, bsect: nat, res: MountResult, g: Geom, last: nat, free: nat) {
    && bsect < |sec|
    && res == (if Accepted32(ParseBpb(sec[bsect]), ss) then Mounted else NoFilesystem)
    && (res == Mounted ==> g == Geom32(ParseBpb(sec[bsect]), ss, bsect) && (last, free) == Hints(sec, g))
  }

  /** find_volume on a drive that is not mounted yet. */
  method MountVolume(disk: Disk, win: array<Byte>) returns (res: MountResult, g: Geom, last: nat, free: nat)
    requires disk.reliable && disk.ss == win.Length && SectorSize(disk.ss) && Uniform(disk.sec, disk.ss)
    requires |disk.sec| < W32
    modifies win
    ensures var (fmt, bsect) := Locate(disk.sec);
      && (fmt == 3 ==> res == DiskError)
      && (fmt == 1 || fmt == 2 ==> res == NoFilesystem)
      && (fmt == 0 ==> MountsAs(disk.sec, disk.ss, bsect, res, g, last, free) && FatBoot(disk.sec[bsect]))
    ensures res == Mounted && g.nFatent >= 2 ==>
              (g.fsType == FAT12 <==> g.nFatent <= 0xFF7) && (g.fsType == FAT32 <==> g.nFatent > 0xFFF7)
  {
    hide Locate, ParseBpb, Accepted32, Geom32, IsFsInfo, Ld16, Ld32, SectorSize, FatBoot;
    SizeBound(disk.ss);
    g := Geom(FAT12, disk.ss, 0, 0, 0, 0, 0, 0, 0, 0, 0);
    last, free := 0xFFFF_FFFF, 0xFFFF_FFFF;
    var fmt, bsect := FindBootSector(disk, win);
    if fmt == 3 {
      return DiskError, g, last, free;
    }
    if fmt != 0 {
      return NoFilesystem, g, last, free;
    }
    var ok;
    ok, g := ReadBpb(win, disk.ss, bsect);
    if !ok {
      return NoFilesystem, g, last, free;
    }
    res := Mounted;
    ghost var p := ParseBpb(disk.sec[bsect]);
    ParsedTotal(disk.sec[bsect]);
    TypeByEntries(p, disk.ss, bsect);
    StartOf(p, disk.ss, bsect);
    if g.fsType == FAT32 && Ld16(win[..], 48) == 1 {
      var read := disk.Read(win, bsect + 1);
      if read && IsFsInfo(win[..]) {
        free := Ld32(win[..], 488);
        last := Ld32(win[..], 492);
      }
    }
  }

  lemma SizeBound(ss: nat)
    requires SectorSize(ss)
    ensures ss >= 512
  {
  }

  lemma StartOf(p: Bpb, ss: nat, bsect: nat)
    ensures Geom32(p, ss, bsect).volbase == bsect
  {
  }
}
