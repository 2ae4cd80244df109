/** f_mkfs: laying out a volume and writing it to the drive. */
module Format {
  import opened Arith
  import opened Volume
  import opened FatCodec
  import opened Mount

  const N_ROOTDIR: nat := 512

  // ----- the size of a cluster -----

  const VST: seq<nat> := [1024, 512, 256, 128, 64, 32, 16, 8, 4, 2, 0]
  const CST: seq<nat> := [32768, 16384, 8192, 4096, 2048, 16384, 8192, 4096, 2048, 1024, 512]

  /** Cluster size in bytes for a volume of vs size units: the first fitting row of the table. */
  function AutoSize(vs: nat, i: nat): nat
    decreases 11 - i
  {
    if i >= 10 || vs >= VST[i] then CST[if i < 10 then i else 10] else AutoSize(vs, i + 1)
  }

  /** Sectors per cluster: the caller's choice, or one by the volume's size. */
  function SectorsPerCluster(au: nat, nVol: nat, ss: nat): nat
    requires SectorSize(ss)
  {
    var au := if au > 0 && IsPow2(au) then au else 0;
    var au := if au == 0 then AutoSize(nVol / (2000 / (ss / 512)), 0) else au;
    var au := if au >= 512 then au / ss else au;
    if au == 0 then 1 else if au > 128 then 128 else au
  }

  /** The table of cluster sizes, row by row. */
  lemma AutoSizeIs(vs: nat)
    ensures AutoSize(vs, 0) ==
              if vs >= 1024 then 32768 else if vs >= 512 then 16384 else if vs >= 256 then 8192
              else if vs >= 128 then 4096 else if vs >= 64 then 2048 else if vs >= 32 then 16384
              else if vs >= 16 then 8192 else if vs >= 8 then 4096 else if vs >= 4 then 2048
              else if vs >= 2 then 1024 else 512
  {
    assert AutoSize(vs, 10) == 512;
    assert AutoSize(vs, 8) == if vs >= 4 then 2048 else if vs >= 2 then 1024 else AutoSize(vs, 10);
    assert AutoSize(vs, 6) == if vs >= 16 then 8192 else if vs >= 8 then 4096 else AutoSize(vs, 8);
    assert AutoSize(vs, 4) == if vs >= 64 then 2048 else if vs >= 32 then 16384 else AutoSize(vs, 6);
    assert AutoSize(vs, 2) == if vs >= 256 then 8192 else if vs >= 128 then 4096 else AutoSize(vs, 4);
  }

  /** Sectors per cluster that f_mkfs chooses by itself, on sectors of 512 bytes. */
  lemma ChosenSize(nVol: nat)
    ensures SectorsPerCluster(0, nVol, 512) ==
              if nVol >= 2048000 then 64 else if nVol >= 1024000 then 32 else if nVol >= 512000 then 16
              else if nVol >= 256000 then 8 else if nVol >= 128000 then 4 else if nVol >= 64000 then 32
              else if nVol >= 32000 then 16 else if nVol >= 16000 then 8 else if nVol >= 8000 then 4
              else if nVol >= 4000 then 2 else 1
  {
    AutoSizeIs(nVol / 2000);
    hide AutoSize, IsPow2;
  }

  /** In general: the table's size for the volume's size, at least one sector. */
  lemma ChosenInGeneral(nVol: nat, ss: nat)
    requires SectorSize(ss)
    ensures SectorsPerCluster(0, nVol, ss) == Max(1, AutoSize(nVol * (ss / 512) / 2000, 0) / ss)
  {
    SizeUnits(nVol, ss);
    ChosenUnits(nVol * (ss / 512) / 2000, ss);
    hide AutoSize, IsPow2;
  }

  lemma ChosenUnits(vs: nat, ss: nat)
    requires SectorSize(ss)
    ensures 512 <= AutoSize(vs, 0) <= 32768 && AutoSize(vs, 0) / ss <= 64
  {
    AutoSizeIs(vs);
    hide AutoSize;
    DivMonotone(AutoSize(vs, 0), 32768, ss);
  }

  /** The volume's size in units of 2000 blocks of 512 bytes. */
  lemma SizeUnits(nVol: nat, ss: nat)
    requires SectorSize(ss)
    ensures nVol / (2000 / (ss / 512)) == nVol * (ss / 512) / 2000
  {
    if ss == 512 {
    } else if ss == 1024 {
      DivModUnique(nVol * 2, 2000, nVol / 1000, nVol % 1000 * 2);
    } else if ss == 2048 {
      DivModUnique(nVol * 4, 2000, nVol / 500, nVol % 500 * 4);
    } else {
      DivModUnique(nVol * 8, 2000, nVol / 250, nVol % 250 * 8);
    }
  }

  /** A request is granted if it is a power of two bytes of at least one and at most 128 sectors. */
  lemma RequestGranted(au: nat, nVol: nat, ss: nat)
    requires SectorSize(ss) && IsPow2(au) && ss <= au <= 128 * ss
    ensures SectorsPerCluster(au, nVol, ss) * ss == au
  {
    SectorSizePow2(ss);
    Pow2Divides(au, ss);
    hide IsPow2, AutoSize;
    DivMonotone(au, 128 * ss, ss);
    DivModUnique(128 * ss, ss, 128, 0);
  }

  lemma {:induction false} Pow2Divides(a: nat, b: nat)
    requires IsPow2(a) && IsPow2(b) && b <= a
    ensures b > 0 && a / b * b == a && a / b > 0
    decreases b
  {
    if b <= 1 {
    } else {
      Pow2Divides(a / 2, b / 2);
      HalvedQuotient(a / 2, b / 2);
    }
  }

  lemma {:induction false} Pow2Quotient(a: nat, b: nat)
    requires b > 0 && IsPow2(a) && IsPow2(b)
    ensures a / b == 0 || IsPow2(a / b)
    decreases b
  {
    if b > 1 && a > 1 {
      var c, d := a / 2, b / 2;
      assert a == 2 * c && b == 2 * d;
      Pow2Quotient(c, d);
      HalvedQuotient(c, d);
    } else if b > 1 {
      DivModUnique(1, b, 0, 1);
    }
  }

  lemma HalvedQuotient(a: nat, b: nat)
    requires b > 0
    ensures (2 * a) / (2 * b) == a / b
  {
    var q, r := a / b, a % b;
    assert 2 * a == q * (2 * b) + 2 * r;
    DivModUnique(2 * a, 2 * b, q, 2 * r);
  }

  lemma SectorSizePow2(ss: nat)
    requires SectorSize(ss)
    ensures IsPow2(ss)
  {
    Pow2Times16(1);
    Pow2Times16(16);
    Pow2Double(256);
    Pow2Double(512);
    Pow2Double(1024);
    Pow2Double(2048);
  }

  lemma {:induction false} AutoSizePow2(vs: nat, i: nat)
    ensures IsPow2(AutoSize(vs, i))
    decreases 11 - i
  {
    Pow2One();
    hide IsPow2;
    if i >= 10 || vs >= VST[i] {
      Pow2Times16(1);
      Pow2Times16(16);
      Pow2Double(256);
      Pow2Double(512);
      Pow2Double(1024);
      Pow2Double(2048);
      Pow2Double(4096);
      Pow2Double(8192);
      Pow2Double(16384);
    } else {
      AutoSizePow2(vs, i + 1);
    }
  }

  /** Whatever the caller asks for, a cluster has a power of two of sectors, at most 128. */
  lemma ClusterSizeOk(au: nat, nVol: nat, ss: nat)
    requires SectorSize(ss)
    ensures 1 <= SectorsPerCluster(au, nVol, ss) <= 128 && IsPow2(SectorsPerCluster(au, nVol, ss))
  {
    var a1 := if au > 0 && IsPow2(au) then au else 0;
    AutoSizePow2(nVol / (2000 / (ss / 512)), 0);
    var a2 := if a1 == 0 then AutoSize(nVol / (2000 / (ss / 512)), 0) else a1;
    SectorSizePow2(ss);
    Pow2Quotient(a2, ss);
    Pow2Times16(1);
    Pow2Double(16);
    Pow2Double(32);
    Pow2Double(64);
    hide IsPow2, AutoSize, SectorSize;
  }

  // ----- the layout -----

  /** Sub-type, sectors per cluster, reserved, FAT and root directory sectors, clusters. */
  datatype Plan = Plan(fmt: FsType, au: nat, nRsv: nat, nFat: nat, nDir: nat, nClst: nat)

  /** Sectors before the data area. */
  function SysArea(p: Plan): nat {
    p.nRsv + p.nFat + p.nDir
  }

  /** The aligned data area has room for a cluster. */
  predicate LeavesCluster(p: Plan, nVol: nat) {
    SysArea(p) + p.au <= nVol
  }

  /** What the plan promises: areas that fit their boot sector fields, a FAT large enough for every
      entry, a data area aligned to erase blocks of a power of two sectors, and a sub-type that mounting
      will derive again. */
  ghost predicate PlanOk(p: Plan, nVol: nat, bVol: nat, ss: nat, block: nat) {
    && 1 <= p.nRsv < 0x1_0000 && p.nFat >= 1 && 1 <= p.au <= 128 && IsPow2(p.au) && block > 0
    && (p.fmt == FAT32 ==> p.nRsv >= 32 && p.nDir == 0)
    && (p.fmt != FAT32 ==> p.nFat < 0x1_0000 && ss >= 32 && p.nDir == N_ROOTDIR / (ss / 32))
    && (IsPow2(block) ==> (bVol + SysArea(p)) % block == 0)
    && bVol + SysArea(p) < W32
    && FatBytes(p.fmt, Quotient(nVol, p.au) + 2) <= p.nFat * ss
    && (LeavesCluster(p, nVol) ==> p.nClst == Quotient(nVol - SysArea(p), p.au) && SubType(p.nClst) == p.fmt)
  }

  /** Bytes of FAT that f_mkfs provides for n clusters. */
  function FatRoom(t: FsType, n: nat): nat {
    match t
    case FAT12 => (n * 3 + 1) / 2 + 3
    case FAT16 => n * 2 + 4
    case FAT32 => n * 4 + 8
  }

  /** That is enough, exactly. */
  lemma RoomForEntries(t: FsType, n: nat)
    ensures FatRoom(t, n) == FatBytes(t, n + 2)
  {
    if t == FAT12 {
      var k := n / 2;
      if n == 2 * k {
        DivModUnique((n + 2) * 3, 2, 3 * k + 3, 0);
        DivModUnique(n * 3 + 1, 2, 3 * k, 1);
        DivModUnique(n + 2, 2, k + 1, 0);
      } else {
        DivModUnique((n + 2) * 3, 2, 3 * k + 4, 1);
        DivModUnique(n * 3 + 1, 2, 3 * k + 2, 0);
        DivModUnique(n + 2, 2, k + 1, 1);
      }
    }
  }

  lemma CeilEnough(x: nat, ss: nat)
    requires ss > 0
    ensures x <= CeilDiv(x, ss) * ss
  {
    FatNeeds(x, ss, CeilDiv(x, ss));
  }

  /** The least multiple of n that is not below x. */
  function RoundUp(x: nat, n: nat): (r: nat)
    requires n > 0
    ensures x <= r < x + n && r % n == 0
  {
    MultipleBelow(x + n - 1, n);
    x + n - 1 - (x + n - 1) % n
  }

  /** There is only one. */
  lemma RoundUpUnique(x: nat, n: nat, r: nat)
    requires n > 0 && x <= r < x + n && r % n == 0
    ensures r == RoundUp(x, n)
  {
    var s := RoundUp(x, n);
    hide RoundUp;
    if r < s {
      MultiplesApart(r, s, n);
    } else if s < r {
      MultiplesApart(s, r, n);
    }
  }

  /** Different multiples of n are at least n apart. */
  lemma MultiplesApart(r: nat, s: nat, n: nat)
    requires n > 0 && r % n == 0 && s % n == 0 && r < s
    ensures r + n <= s
  {
    var a, b := r / n, s / n;
    assert r == a * n && s == b * n;
    if b <= a {
      MulMonotone(b, a, n);
      assert false;
    }
    MulMonotone(a + 1, b, n);
    assert (a + 1) * n == a * n + n;
  }

  /** The mask expression of f_mkfs. */
  function Aligned(x: nat, n: nat): nat
    requires 0 < n <= W32
  {
    BitAnd(x + n - 1, W32 - n)
  }

  /** x moved up by less than n, to a number without the bits of n - 1. */
  function MovedUp(x: nat, n: nat): (r: nat)
    requires n > 0
    ensures x <= r < x + n
  {
    AndBelow(x + n - 1, n - 1);
    x + n - 1 - BitAnd(x + n - 1, n - 1)
  }

  /** That is what the mask does, and for a power of two it rounds up to a multiple of the erase block. */
  lemma AlignedIs(x: nat, n: nat)
    requires 0 < n && x + n <= W32
    ensures Aligned(x, n) == MovedUp(x, n)
    ensures IsPow2(n) ==> Aligned(x, n) == RoundUp(x, n)
  {
    hide BitAnd, IsPow2;
    W32IsPow2();
    ComplementMask(x + n - 1, n - 1, W32);
    if IsPow2(n) {
      ClearMask(x + n - 1, n);
    }
  }

  lemma MultipleBelow(y: nat, n: nat)
    requires n > 0
    ensures y % n < n && y - y % n >= 0 && (y - y % n) % n == 0
  {
    assert y == (y / n) * n + y % n;
    DivModUnique(y - y % n, n, y / n, 0);
  }

  /** The block size the drive reports, or 1. */
  function Block(n: nat): nat {
    if n == 0 || n > 32768 then 1 else n
  }

  lemma CeilBound(x: nat, ss: nat, m: nat)
    requires ss > 0 && x <= m * ss
    ensures CeilDiv(x, ss) <= m
  {
    assert (m + 1) * ss == m * ss + ss;
    DivLess(x + (ss - 1), ss, m + 1);
  }

  lemma RootDirectory(ss: nat)
    requires SectorSize(ss)
    ensures 512 <= ss <= 4096 && 1 <= N_ROOTDIR * 32 / ss == N_ROOTDIR / (ss / 32) <= 32
  {
  }

  lemma RoomBounds(t: FsType, n: nat)
    requires SubType(n) == t
    ensures FatRoom(t, n) > 0 && (t != FAT32 ==> FatRoom(t, n) <= 131056)
  {
  }

  lemma CeilPositive(x: nat, ss: nat)
    requires ss > 0 && x > 0
    ensures CeilDiv(x, ss) >= 1
  {
    CeilEnough(x, ss);
  }

  /** Sizes of the FAT structure before alignment. */
  lemma FirstSizes(t: FsType, n: nat, ss: nat)
    requires ss >= 512 && SubType(n) == t
    ensures 1 <= CeilDiv(FatRoom(t, n), ss) && FatBytes(t, n + 2) <= CeilDiv(FatRoom(t, n), ss) * ss
    ensures t != FAT32 ==> CeilDiv(FatRoom(t, n), ss) <= 257
  {
    hide *;
    RoomForEntries(t, n);
    RoomBounds(t, n);
    var x := FatRoom(t, n);
    CeilEnough(x, ss);
    CeilPositive(x, ss);
    MulMonotone(512, ss, 257);
    if t != FAT32 {
      CeilBound(x, ss, 257);
    }
  }

  /** Sectors of the FAT, computed in 32 bits. */
  function FatSize(t: FsType, n: nat, ss: nat): nat
    requires ss > 0
  {
    Quotient((FatRoom(t, n) + (ss - 1)) % W32, ss)
  }

  lemma FatSizeBound(t: FsType, n: nat, ss: nat)
    requires ss >= 512
    ensures FatSize(t, n, ss) < 0x80_0000
  {
    MulMonotone(512, ss, 0x80_0000);
    DivLess((FatRoom(t, n) + (ss - 1)) % W32, ss, 0x80_0000);
  }

  /** The size in bytes of a FAT of n clusters can be rounded up in 32 bits. */
  predicate FatInWord(n: nat, ss: nat) {
    4 * n + 8 + ss <= W32
  }

  lemma FatSizeIs(t: FsType, n: nat, ss: nat)
    requires 512 <= ss <= 4096 && SubType(n) == t && FatInWord(n, ss)
    ensures FatSize(t, n, ss) == CeilDiv(FatRoom(t, n), ss)
  {
    RoomBounds(t, n);
  }

  /** The FAT has room for all entries if and only if its size does not wrap around. */
  lemma FatLargeEnough(t: FsType, n: nat, ss: nat)
    requires 512 <= ss <= 4096 && SubType(n) == t && n < W32
    ensures FatBytes(t, n + 2) <= FatSize(t, n, ss) * ss <==> FatInWord(n, ss)
  {
    RoomBounds(t, n);
    RoomForEntries(t, n);
    if FatInWord(n, ss) {
      FatSizeIs(t, n, ss);
      CeilEnough(FatRoom(t, n), ss);
    } else {
      Floored((FatRoom(t, n) + (ss - 1)) % W32, ss);
    }
  }

  lemma Floored(x: nat, ss: nat)
    requires ss > 0
    ensures Quotient(x, ss) * ss <= x
  {
  }

  /** The layout before alignment. */
  function FirstLayout(nVol: nat, ss: nat, au: nat): Plan
    requires SectorSize(ss)
  {
    var a := SectorsPerCluster(au, nVol, ss);
    var n := Quotient(nVol, a);
    var t := SubType(n);
    Plan(t, a, if t == FAT32 then 32 else 1, FatSize(t, n, ss), if t == FAT32 then 0 else N_ROOTDIR * 32 / ss, n)
  }

  /** First sector of the data area: the layout, moved up to an erase block if their size is a power of two. */
  function DataStart(nVol: nat, bVol: nat, ss: nat, au: nat, blockSize: nat): nat
    requires SectorSize(ss)
  {
    BlockBound(blockSize);
    MovedUp(bVol + SysArea(FirstLayout(nVol, ss, au)), Block(blockSize))
  }

  /** Alignment moves the FAT of a FAT32 volume, and lengthens the FAT of any other. The number of clusters is
      computed in 32 bits. */
  function Shifted(p: Plan, nVol: nat, gap: nat): Plan {
    var q := if p.fmt == FAT32 then p.(nRsv := p.nRsv + gap) else p.(nFat := p.nFat + gap);
    q.(nClst := Quotient(Sub32(nVol, SysArea(q)), q.au))
  }

  /** The plan of f_mkfs for a volume of nVol sectors from bVol on. */
  function PlanOf(nVol: nat, bVol: nat, ss: nat, au: nat, blockSize: nat): Plan
    requires SectorSize(ss)
  {
    var p := FirstLayout(nVol, ss, au);
    BlockBound(blockSize);
    Shifted(p, nVol, DataStart(nVol, bVol, ss, au, blockSize) - (bVol + SysArea(p)))
  }

  /** The two guards of f_mkfs: the volume is too small before alignment, or has too few clusters for its
      sub-type after it. */
  predicate PlanAllowed(nVol: nat, bVol: nat, ss: nat, au: nat, blockSize: nat)
    requires SectorSize(ss)
  {
    LeavesCluster(FirstLayout(nVol, ss, au), nVol) && EnoughClusters(PlanOf(nVol, bVol, ss, au, blockSize))
  }

  predicate EnoughClusters(p: Plan) {
    !(p.fmt == FAT16 && p.nClst < MIN_FAT16) && !(p.fmt == FAT32 && p.nClst < MIN_FAT32)
  }

  /** The aligned start leaves room for a cluster, which f_mkfs does not check. */
  predicate StartFits(nVol: nat, bVol: nat, ss: nat, au: nat, blockSize: nat)
    requires SectorSize(ss)
  {
    DataStart(nVol, bVol, ss, au, blockSize) + SectorsPerCluster(au, nVol, ss) <= bVol + nVol
  }

  /** Where a data area that would start at x starts: there, unless the drive reports an erase block of 2 to
      32768 sectors. Then it is moved up by less than a block, and to a block for a power of two. */
  predicate StartIs(x: nat, blockSize: nat, start: nat) {
    if 2 <= blockSize <= 32768
    then x <= start < x + blockSize && (IsPow2(blockSize) ==> start % blockSize == 0)
    else start == x
  }

  lemma StartMoved(x: nat, blockSize: nat)
    ensures Block(blockSize) > 0 && StartIs(x, blockSize, MovedUp(x, Block(blockSize)))
  {
    BlockBound(blockSize);
    if 2 <= blockSize <= 32768 && IsPow2(blockSize) {
      MaskIsMod(x + blockSize - 1, blockSize);
      assert MovedUp(x, blockSize) == RoundUp(x, blockSize);
    }
    hide MovedUp, IsPow2;
  }

  /** The plan's data area starts there. */
  lemma PlanStart(nVol: nat, bVol: nat, ss: nat, au: nat, blockSize: nat)
    requires SectorSize(ss)
    ensures var p, q := FirstLayout(nVol, ss, au), PlanOf(nVol, bVol, ss, au, blockSize);
      && bVol + SysArea(q) == DataStart(nVol, bVol, ss, au, blockSize)
      && q.fmt == p.fmt && q.au == p.au == SectorsPerCluster(au, nVol, ss)
      && q.nClst == Quotient(Sub32(nVol, SysArea(q)), q.au)
      && (LeavesCluster(q, nVol) <==> StartFits(nVol, bVol, ss, au, blockSize))
    ensures var x := bVol + SysArea(FirstLayout(nVol, ss, au));
            StartIs(x, blockSize, bVol + SysArea(PlanOf(nVol, bVol, ss, au, blockSize)))
  {
    StartMoved(bVol + SysArea(FirstLayout(nVol, ss, au)), blockSize);
    hide SectorSize, SectorsPerCluster, SubType, FatSize, Quotient, Sub32;
  }

  /** The plan of f_mkfs. It is refused when the volume is too small, or when alignment leaves too few
      clusters for the sub-type. */
  method ComputePlan(nVol: nat, bVol: nat, ss: nat, au: nat, blockSize: nat) returns (ok: bool, p: Plan)
    requires SectorSize(ss) && nVol < W32 && bVol <= 63
    ensures ok <==> PlanAllowed(nVol, bVol, ss, au, blockSize)
    ensures ok ==> p == PlanOf(nVol, bVol, ss, au, blockSize)
    ensures ok ==>
              && (p.fmt == FAT12 <==> Quotient(nVol, p.au) + 2 <= 0xFF7)
              && (p.fmt == FAT32 <==> Quotient(nVol, p.au) + 2 > 0xFFF7)
    ensures ok ==> StartIs(bVol + SysArea(FirstLayout(nVol, ss, au)), blockSize, bVol + SysArea(p))
    ensures ok && FatInWord(Quotient(nVol, p.au), ss) ==> PlanOk(p, nVol, bVol, ss, Block(blockSize))
  {
    hide IsPow2, SectorSize, SectorsPerCluster, Aligned, FatRoom, FatSize, PlanOk, SubType, Block, MovedUp, StartIs;
    PlanStart(nVol, bVol, ss, au, blockSize);
    ClusterSizeOk(au, nVol, ss);
    RootDirectory(ss);
    var au' := SectorsPerCluster(au, nVol, ss);
    var nClst := nVol / au';
    var fmt := SubType(nClst);
    FatSizeBound(fmt, nClst, ss);
    var nFat, nRsv, nDir := FatSize(fmt, nClst, ss), 1, 0;
    if fmt == FAT32 {
      nRsv := 32;
    } else {
      nDir := N_ROOTDIR * 32 / ss;
    }
    p := Plan(fmt, au', nRsv, nFat, nDir, nClst);
    assert p == FirstLayout(nVol, ss, au);
    var bData := bVol + nRsv + nFat + nDir;
    if nVol < bData + au' - bVol {
      return false, p;
    }
    var n := Block(blockSize);
    BlockBound(blockSize);
    AlignedIs(bData, n);
    n := Aligned(bData, n) - bData;
    if fmt == FAT32 {
      nRsv := nRsv + n;
    } else {
      nFat := nFat + n;
    }
    nClst := Quotient(Sub32(nVol, nRsv + nFat + nDir), au');
    p := Plan(fmt, au', nRsv, nFat, nDir, nClst);
    assert p == PlanOf(nVol, bVol, ss, au, blockSize);
    ok := !((fmt == FAT16 && nClst < MIN_FAT16) || (fmt == FAT32 && nClst < MIN_FAT32));
    if ok && FatInWord(Quotient(nVol, au'), ss) {
      PlanIsOk(nVol, bVol, ss, au, blockSize);
    }
  }

  /** The FAT before alignment, and m sectors of it after. */
  lemma FatGrown(t: FsType, n: nat, ss: nat, m: nat)
    requires 512 <= ss <= 4096 && SubType(n) == t && FatInWord(n, ss) && FatSize(t, n, ss) <= m
    ensures 1 <= FatSize(t, n, ss) < 0x80_0000 && (t != FAT32 ==> FatSize(t, n, ss) <= 257)
    ensures FatBytes(t, n + 2) <= m * ss
  {
    FirstSizes(t, n, ss);
    FatSizeIs(t, n, ss);
    FatSizeBound(t, n, ss);
    MulMonotone(FatSize(t, n, ss), m, ss);
    hide FatSize, CeilDiv, FatBytes, SubType;
  }

  /** Where alignment leaves room for a cluster, f_mkfs refuses the plan exactly if alignment changed the sub-type. */
  lemma RefusedExactly(nVol: nat, bVol: nat, ss: nat, au: nat, blockSize: nat)
    requires SectorSize(ss) && nVol < W32 && LeavesCluster(PlanOf(nVol, bVol, ss, au, blockSize), nVol)
    ensures var p := PlanOf(nVol, bVol, ss, au, blockSize);
      EnoughClusters(p) <==> SubType(p.nClst) == SubType(Quotient(nVol, p.au))
  {
    ClusterSizeOk(au, nVol, ss);
    PlanStart(nVol, bVol, ss, au, blockSize);
    var p := PlanOf(nVol, bVol, ss, au, blockSize);
    Fewer(nVol, SysArea(p), p.au);
    hide SectorSize, SectorsPerCluster, FatSize, Quotient, Sub32, IsPow2, MovedUp, DataStart;
  }

  /** An allowed plan keeps what it promises. */
  lemma PlanIsOk(nVol: nat, bVol: nat, ss: nat, au: nat, blockSize: nat)
    requires SectorSize(ss) && nVol < W32 && bVol <= 63
    requires FatInWord(Quotient(nVol, SectorsPerCluster(au, nVol, ss)), ss)
    requires PlanAllowed(nVol, bVol, ss, au, blockSize)
    ensures PlanOk(PlanOf(nVol, bVol, ss, au, blockSize), nVol, bVol, ss, Block(blockSize))
  {
    hide SectorSize, SectorsPerCluster, PlanOk, SubType, Block, Sub32, Quotient, FirstLayout, PlanOf, PlanAllowed;
    hide IsPow2, FatBytes, FatInWord, DataStart;
    var p0, p := FirstLayout(nVol, ss, au), PlanOf(nVol, bVol, ss, au, blockSize);
    ClusterSizeOk(au, nVol, ss);
    PlanFields(nVol, bVol, ss, au, blockSize);
    PlanStart(nVol, bVol, ss, au, blockSize);
    if LeavesCluster(p, nVol) {
      Fewer(nVol, SysArea(p), p.au);
      RefusedExactly(nVol, bVol, ss, au, blockSize);
    }
    PlanMade(p, nVol, bVol, ss, Block(blockSize));
  }

  /** Its areas. */
  lemma PlanFields(nVol: nat, bVol: nat, ss: nat, au: nat, blockSize: nat)
    requires SectorSize(ss) && nVol < W32 && bVol <= 63
    requires FatInWord(Quotient(nVol, SectorsPerCluster(au, nVol, ss)), ss)
    requires PlanAllowed(nVol, bVol, ss, au, blockSize)
    ensures var p := PlanOf(nVol, bVol, ss, au, blockSize);
      && 1 <= p.nRsv < 0x1_0000 && p.nFat >= 1 && Block(blockSize) > 0 && EnoughClusters(p)
      && (p.fmt == FAT32 ==> p.nRsv >= 32 && p.nDir == 0)
      && (p.fmt != FAT32 ==> p.nFat < 0x1_0000 && ss >= 32 && p.nDir == N_ROOTDIR / (ss / 32))
      && (IsPow2(Block(blockSize)) ==> (bVol + SysArea(p)) % Block(blockSize) == 0) && bVol + SysArea(p) < W32
      && FatBytes(p.fmt, Quotient(nVol, p.au) + 2) <= p.nFat * ss && p.fmt == SubType(Quotient(nVol, p.au))
  {
    hide IsPow2, SectorSize, SectorsPerCluster, FatBytes, SubType, Block, MovedUp, Sub32, Quotient, FatSize, FatInWord;
    var p0, p := FirstLayout(nVol, ss, au), PlanOf(nVol, bVol, ss, au, blockSize);
    RootDirectory(ss);
    BlockBound(blockSize);
    FatGrown(p0.fmt, p0.nClst, ss, p.nFat);
    AlignedIs(bVol + SysArea(p0), Block(blockSize));
  }

  /** A drive of 128 sectors with erase blocks of 128: the plan is made, though its data area starts at the
      very end of the drive. */
  lemma NothingLeft()
    ensures PlanAllowed(128, 0, 512, 0, 128) && !StartFits(128, 0, 512, 0, 128)
    ensures PlanOf(128, 0, 512, 0, 128) == Plan(FAT12, 1, 1, 95, 32, 0)
  {
    SmallestLayout();
    SmallestStart();
    SmallestShift();
    hide FirstLayout, DataStart, SectorsPerCluster, Shifted;
  }

  /** A drive of 2^30 sectors in clusters of one sector: the plan is made, with a FAT of a single sector. */
  lemma FatWraps()
    ensures PlanAllowed(0x4000_0000, 0, 512, 512, 1)
    ensures PlanOf(0x4000_0000, 0, 512, 512, 1) == Plan(FAT32, 1, 32, 1, 0, 0x3FFF_FFDF)
    ensures FatBytes(FAT32, 0x3FFF_FFDF + 2) > 1 * 512
  {
    LargeLayout();
    LargeStart();
    hide FirstLayout, DataStart, SectorsPerCluster;
  }

  lemma LargeStart()
    ensures DataStart(0x4000_0000, 0, 512, 512, 1) == 33
  {
    LargeLayout();
    hide FirstLayout;
  }

  lemma LargeLayout()
    ensures SectorsPerCluster(512, 0x4000_0000, 512) == 1
    ensures FirstLayout(0x4000_0000, 512, 512) == Plan(FAT32, 1, 32, 1, 0, 0x4000_0000)
  {
    SectorSizePow2(512);
    hide AutoSize, IsPow2;
    assert SectorsPerCluster(512, 0x4000_0000, 512) == 1;
  }

  lemma SmallestShift()
    ensures Shifted(Plan(FAT12, 1, 1, 1, 32, 128), 128, 94) == Plan(FAT12, 1, 1, 95, 32, 0)
  {
  }

  lemma SmallestStart()
    ensures DataStart(128, 0, 512, 0, 128) == 128
  {
    SmallestLayout();
    SmallestBlock();
    AlignedIs(34, 128);
    RoundUpUnique(34, 128, 128);
    hide FirstLayout, MovedUp, RoundUp, Aligned, IsPow2;
  }

  lemma SmallestBlock()
    ensures IsPow2(128)
  {
    Pow2Double(32);
    Pow2Double(64);
    hide IsPow2;
  }

  lemma SmallestLayout()
    ensures SectorsPerCluster(0, 128, 512) == 1 && FirstLayout(128, 512, 0) == Plan(FAT12, 1, 1, 1, 32, 128)
  {
    SmallestRow();
    hide AutoSize, IsPow2;
    assert SectorsPerCluster(0, 128, 512) == 1;
  }

  lemma SmallestRow()
    ensures AutoSize(0, 0) == 512
  {
    assert AutoSize(0, 9) == 512 && AutoSize(0, 7) == 512 && AutoSize(0, 5) == 512 && AutoSize(0, 3) == 512;
  }

  lemma BlockBound(n: nat)
    ensures 1 <= Block(n) <= 32768
  {
  }

  lemma Fewer(nVol: nat, sys: nat, au: nat)
    requires au > 0 && sys <= nVol < W32
    ensures Sub32(nVol, sys) == nVol - sys && Quotient(nVol - sys, au) <= Quotient(nVol, au)
  {
    DivMonotone(nVol - sys, nVol, au);
  }

  lemma SameSubType(n: nat, first: nat, t: FsType)
    requires n <= first && t == SubType(first)
    requires !(t == FAT16 && n < MIN_FAT16) && !(t == FAT32 && n < MIN_FAT32)
    ensures SubType(n) == t
  {
  }

  lemma PlanMade(p: Plan, nVol: nat, bVol: nat, ss: nat, block: nat)
    requires 1 <= p.nRsv < 0x1_0000 && p.nFat >= 1 && 1 <= p.au <= 128 && IsPow2(p.au) && block > 0
    requires p.fmt == FAT32 ==> p.nRsv >= 32 && p.nDir == 0
    requires p.fmt != FAT32 ==> p.nFat < 0x1_0000 && ss >= 32 && p.nDir == N_ROOTDIR / (ss / 32)
    requires (IsPow2(block) ==> (bVol + SysArea(p)) % block == 0) && bVol + SysArea(p) < W32
    requires FatBytes(p.fmt, Quotient(nVol, p.au) + 2) <= p.nFat * ss
    requires LeavesCluster(p, nVol) ==> p.nClst == Quotient(nVol - SysArea(p), p.au) && SubType(p.nClst) == p.fmt
    ensures PlanOk(p, nVol, bVol, ss, block)
  {
  }

  // ----- the boot sector, and mounting it -----

  function RootEntries(p: Plan): nat {
    if p.fmt == FAT32 then 0 else N_ROOTDIR
  }

  /** b is a boot sector that records the plan. */
  ghost predicate Boot(b: seq<Byte>, p: Plan, nVol: nat, ss: nat) {
    && CheckFs(b) == 0
    && ParseBpb(b) == Bpb(ss, p.au, p.nRsv, 1, RootEntries(p), nVol, p.nFat, ParseBpb(b).rootClus)
    && (p.fmt == FAT32 ==> ParseBpb(b).rootClus == 2 && Ld16(b, 48) == 1)
  }

  /** The geometry the plan stands for. */
  function GeomOf(p: Plan, ss: nat, bVol: nat): Geom {
    Geom(p.fmt, ss, p.au, 1, RootEntries(p), p.nClst + 2, p.nFat, bVol, bVol + p.nRsv,
         if p.fmt == FAT32 then 2 else bVol + p.nRsv + p.nFat, bVol + SysArea(p))
  }

  lemma RootSectorsOf(p: Plan, ss: nat)
    requires SectorSize(ss) && (p.nDir == if p.fmt == FAT32 then 0 else N_ROOTDIR / (ss / 32))
    ensures ss >= 32 && RootEntries(p) % (ss / 32) == 0 && RootEntries(p) / (ss / 32) == p.nDir
  {
    if p.fmt == FAT32 {
      DivModUnique(0, ss / 32, 0, 0);
    } else if ss == 512 {
      assert ss / 32 == 16;
    } else if ss == 1024 {
      assert ss / 32 == 32;
    } else if ss == 2048 {
      assert ss / 32 == 64;
    } else {
      assert ss / 32 == 128;
    }
  }

  lemma QuotPositive(x: nat, d: nat)
    requires d > 0
    ensures Quotient(x, d) > 0 <==> x >= d
  {
    if x >= d {
      DivMonotone(d, x, d);
      DivModUnique(d, d, 1, 0);
    } else {
      DivModUnique(x, d, 0, x);
    }
  }

  lemma BytesMonotone(t: FsType, m: nat, n: nat)
    requires m <= n
    ensures FatBytes(t, m) <= FatBytes(t, n)
  {
    if t == FAT12 {
      var j, k := m / 2, n / 2;
      assert m == 2 * j || m == 2 * j + 1;
      assert n == 2 * k || n == 2 * k + 1;
      Twelve(m, j);
      Twelve(n, k);
    }
  }

  lemma Twelve(n: nat, k: nat)
    requires n == 2 * k || n == 2 * k + 1
    ensures FatBytes(FAT12, n) == if n == 2 * k then 3 * k else 3 * k + 2
  {
    if n == 2 * k {
      DivModUnique(n * 3, 2, 3 * k, 0);
      DivModUnique(n, 2, k, 0);
    } else {
      DivModUnique(n * 3, 2, 3 * k + 1, 1);
      DivModUnique(n, 2, k, 1);
    }
  }

  /** Number of clusters mounting finds. */
  lemma ClustersFound(q: Bpb, p: Plan, nVol: nat, bVol: nat, ss: nat, block: nat)
    requires SectorSize(ss) && PlanOk(p, nVol, bVol, ss, block)
    requires q == Bpb(ss, p.au, p.nRsv, 1, RootEntries(p), nVol, p.nFat, q.rootClus)
    ensures ss >= 32 && q.root % (ss / 32) == 0
    ensures SystemArea(q, ss) == SysArea(p) && FatSectors(q) == p.nFat
    ensures Mount.Clusters(q, ss) == if nVol >= SysArea(p) then Quotient(nVol - SysArea(p), p.au) else 0
    ensures Mount.Clusters(q, ss) > 0 && nVol >= SysArea(p) <==> LeavesCluster(p, nVol)
    ensures Mount.Clusters(q, ss) <= Quotient(nVol, p.au)
  {
    hide SectorSize, FatBytes, IsPow2, SubType;
    assert SectorSize(ss) && (p.nDir == if p.fmt == FAT32 then 0 else N_ROOTDIR / (ss / 32));
    RootSectorsOf(p, ss);
    if nVol >= SysArea(p) {
      QuotPositive(nVol - SysArea(p), p.au);
      DivMonotone(nVol - SysArea(p), nVol, p.au);
    }
  }

  /** Mounting accepts the boot sector of a plan if and only if the aligned data area has room for
      a cluster, and then recovers the plan's geometry, which is sound. */
  lemma PlanMounts(b: seq<Byte>, p: Plan, nVol: nat, bVol: nat, ss: nat, block: nat, total: nat)
    requires SectorSize(ss) && PlanOk(p, nVol, bVol, ss, block) && Boot(b, p, nVol, ss)
    requires bVol + nVol <= total < W32 && Quotient(nVol, p.au) <= 0x0FFF_FFF5
    ensures NoWrap(ParseBpb(b), ss, bVol)
    ensures Accepted(ParseBpb(b), ss) <==> LeavesCluster(p, nVol)
    ensures LeavesCluster(p, nVol) ==> GeomFrom(ParseBpb(b), ss, bVol) == GeomOf(p, ss, bVol)
    ensures LeavesCluster(p, nVol) ==> GeomOk(GeomOf(p, ss, bVol), total)
  {
    hide ParseBpb, Mount.Clusters, SystemArea, FatSectors, SectorSize, FatBytes, IsPow2, SubType, Ld16, CheckFs;
    hide MaxEntries, GeomOk;
    var q := ParseBpb(b);
    ClustersFound(q, p, nVol, bVol, ss, block);
    SectorBound(ss);
    if LeavesCluster(p, nVol) {
      BytesMonotone(p.fmt, p.nClst + 2, Quotient(nVol, p.au) + 2);
      EntriesBound(p.nClst);
      AcceptedIsSound(q, ss, bVol, total);
    }
  }

  lemma SectorBound(ss: nat)
    requires SectorSize(ss)
    ensures 512 <= ss <= 4096
  {
  }

  lemma EntriesBound(n: nat)
    requires n <= 0x0FFF_FFF5
    ensures n + 2 <= MaxEntries(SubType(n))
  {
  }
}
