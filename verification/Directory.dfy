/** Walking and growing a directory: dir_sdi, dir_next, dir_alloc. */
module Directory {
  import opened Arith
  import opened Volume
  import opened FatCodec
  import opened Chains
  import opened Allocator
  import opened FileImage
  import opened FileSectors
  import opened FileIO
  import opened DirTable
  import opened DirSearch

  const MAX_INDEX: nat := 0x1_0000

  /** Entry i of a directory is in this cluster (0: static table), sector and place of the window. */
  ghost predicate Standing(g: Geom, fixed: bool, ch: seq<nat>, i: nat, clust: nat, sect: nat, dir: nat) {
    && EIdx(g, i) < |DirSecs(g, fixed, ch)|
    && sect == DirSecs(g, fixed, ch)[EIdx(g, i)] && dir == 32 * EOfs(g, i)
    && (fixed ==> clust == 0)
    && (!fixed ==> ClusterAt(g, ch, EIdx(g, i), clust))
  }

  /** `SS / SZ_DIRE * csize`: entries per cluster. */
  function PerCluster(g: Geom): nat {
    Times(g.csize, Eps(g))
  }

  /** Entry number idx of cluster number k of the chain. */
  lemma EntryInCluster(g: Geom, i: nat, k: nat, idx: nat)
    requires Eps(g) > 0 && g.csize > 0 && i == Times(k, PerCluster(g)) + idx && idx < PerCluster(g)
    ensures CluIdx(g, EIdx(g, i)) == k && CluOfs(g, EIdx(g, i)) == EIdx(g, idx) && EOfs(g, i) == EOfs(g, idx)
    ensures EIdx(g, idx) < g.csize
  {
    EntrySplit(g, idx);
    var q, r := EIdx(g, idx), EOfs(g, idx);
    DivLess(idx, Eps(g), g.csize);
    assert k * (g.csize * Eps(g)) == (k * g.csize) * Eps(g);
    assert (k * g.csize + q) * Eps(g) == (k * g.csize) * Eps(g) + q * Eps(g);
    EntryIs(g, i, k * g.csize + q, r);
    CluIs(g, k * g.csize + q, k, q);
  }

  /** The entries of n clusters. */
  lemma SlotsOfClusters(g: Geom, n: nat)
    ensures Slots(g, Span(g, n)) == Times(n, PerCluster(g))
  {
    assert (n * g.csize) * Eps(g) == n * (g.csize * Eps(g));
  }

  /** Where dir_sdi arrives in a cluster chain. */
  lemma ChainStanding(g: Geom, ch: seq<nat>, i: nat, k: nat, idx: nat, clust: nat)
    requires Eps(g) > 0 && g.csize > 0 && k < |ch| && clust == ch[k]
    requires i == Times(k, PerCluster(g)) + idx && idx < PerCluster(g)
    ensures Standing(g, false, ch, i, clust, First(g, clust) + EIdx(g, idx), 32 * EOfs(g, idx))
    ensures i < Slots(g, |Secs(g, ch)|)
  {
    EntryInCluster(g, i, k, idx);
    SecsRun(g, ch, EIdx(g, i), 1);
    InsideIff(g, i, |Secs(g, ch)|);
    hide EIdx, EOfs, CluIdx, CluOfs, First, Eps, Slots, Times, PerCluster, Secs;
  }

  /** Past the last cluster there is no entry. */
  lemma PastChain(g: Geom, ch: seq<nat>, i: nat, idx: nat)
    requires i == Times(|ch|, PerCluster(g)) + idx
    ensures i >= Slots(g, |Secs(g, ch)|)
  {
    SlotsOfClusters(g, |ch|);
    hide Times, PerCluster, Slots, Secs;
  }

  lemma RootStanding(g: Geom, i: nat)
    requires RootFits(g) && Eps(g) > 0 && g.fsType != FAT32 && i < g.nRootdir && g.fatbase > 0
    ensures g.dirbase > 0
    ensures Standing(g, true, [], i, 0, g.dirbase + EIdx(g, i), 32 * EOfs(g, i))
    ensures i < Slots(g, RootSecs(g))
  {
    EntrySplit(g, g.nRootdir);
    assert EOfs(g, g.nRootdir) == 0;
    InsideIff(g, i, RootSecs(g));
    hide EIdx, EOfs, Eps, Slots;
  }

  lemma RootSlots(g: Geom)
    requires RootFits(g) && Eps(g) > 0
    ensures Slots(g, RootSecs(g)) == g.nRootdir && g.nRootdir % Eps(g) == 0
  {
    EntrySplit(g, g.nRootdir);
  }

  /** The sectors of a directory: on the drive, all different, none in a FAT copy. */
  ghost predicate SoundSecs(g: Geom, v: Sectors, secs: seq<nat>) {
    && Distinct(secs) && FileImage.OnDrive(v, secs)
    && forall k :: 0 <= k < |secs| ==> secs[k] > 0 && !InFatArea(g, secs[k])
  }

  lemma DirSecsSound(g: Geom, v: Sectors, fat: seq<nat>, others: set<seq<nat>>, fixed: bool, ch: seq<nat>, sclust: nat)
    requires Layout(g, |v|) && Sizes(g, |v|) && |fat| == g.nFatent && Owns(fat, others, ch, sclust)
    requires fixed ==> g.fsType != FAT32
    ensures SoundSecs(g, v, DirSecs(g, fixed, ch))
  {
    hide Owns, Secs, IsChain, FatFits, DataFits, IsPow2, Clusters;
    if !fixed {
      OwnedSecs(g, v, fat, others, ch, sclust);
    }
  }

  /** The sectors a new cluster adds to a directory. */
  lemma StretchSecs(g: Geom, ch: seq<nat>, c: nat)
    requires g.csize > 0
    ensures var a, b := Secs(g, ch), Secs(g, ch + [c]);
      && |b| == |a| + g.csize && b[..|a|] == a
      && forall k :: |a| <= k < |b| ==> b[k] == First(g, c) + (k - |a|)
  {
    var ch' := ch + [c];
    SecsPrefix(g, ch, ch');
    SpanNext(g, |ch|);
    CluIs(g, Span(g, |ch|), |ch|, 0);
    SecsRun(g, ch', Span(g, |ch|), g.csize);
    hide Secs, Span, First;
  }

  lemma StretchExtends(g: Geom, ch: seq<nat>, c: nat)
    requires g.csize > 0
    ensures Extends(Secs(g, ch), Secs(g, ch + [c])) && First(g, c) in Secs(g, ch + [c])
  {
    StretchSecs(g, ch, c);
    hide Secs;
    var b := Secs(g, ch + [c]);
    assert b[|Secs(g, ch)|] == First(g, c);
  }

  /** b is a followed by the n sectors from `first` on. */
  ghost predicate Follows(a: seq<nat>, b: seq<nat>, first: nat, n: nat) {
    |b| == |a| + n && b[..|a|] == a && forall k :: |a| <= k < |b| ==> b[k] == first + (k - |a|)
  }

  lemma NewSector(a: seq<nat>, b: seq<nat>, first: nat, n: nat, s: nat)
    requires Follows(a, b, first, n) && Distinct(b) && first <= s < first + n
    ensures s in b && s !in a
  {
    var k := |a| + (s - first);
    assert b[k] == s;
    forall j | 0 <= j < |a|
      ensures a[j] != s
    {
      assert b[j] == b[..|a|][j];
    }
  }

  /** What cleaning a new cluster does to the old sectors and to the rest of the drive. */
  lemma CleanKeeps(v: Sectors, v1: Sectors, v2: Sectors, g: Geom, a: seq<nat>, b: seq<nat>, first: nat)
    requires SameOutsideFat(v, v1, g) && Zeroed(v1, v2, first, g.csize, g.ss)
    requires Follows(a, b, first, g.csize) && SoundSecs(g, v2, b)
    ensures forall s: nat :: s in a && s < |v| ==> v2[s] == v[s]
    ensures forall k :: |a| <= k < |b| ==> SecAt(v2, b[k]) == Zeros(g.ss)
    ensures KeepsRest(v, v2, g, b)
  {
    forall s: nat | s in a && s < |v|
      ensures v2[s] == v[s]
    {
      var j :| 0 <= j < |a| && a[j] == s;
      assert b[j] == b[..|a|][j];
      if first <= s < first + g.csize {
        NewSector(a, b, first, g.csize, s);
      }
    }
    forall s: nat | s < |v| && !InFatArea(g, s) && s !in b
      ensures v2[s] == v[s]
    {
      if first <= s < first + g.csize {
        NewSector(a, b, first, g.csize, s);
      }
    }
  }

  /** Stretching a directory by a clean cluster appends blank entries to it. */
  lemma StretchedTable(v: Sectors, v1: Sectors, v2: Sectors, g: Geom, ch: seq<nat>, c: nat)
    requires SectorSize(g.ss) && g.csize > 0 && Uniform(v2, g.ss)
    requires SameOutsideFat(v, v1, g) && Zeroed(v1, v2, First(g, c), g.csize, g.ss)
    requires SoundSecs(g, v2, Secs(g, ch + [c]))
    ensures Grown(Table(v, g, Secs(g, ch)), Table(v2, g, Secs(g, ch + [c])))
    ensures KeepsRest(v, v2, g, Secs(g, ch + [c]))
  {
    var a, b := Secs(g, ch), Secs(g, ch + [c]);
    StretchSecs(g, ch, c);
    hide Secs, First, Uniform, SectorSize, Table, Grown, Zeros, Distinct, SecAt;
    CleanKeeps(v, v1, v2, g, a, b, First(g, c));
    TableGrows(v, v2, g, a, b);
  }

  /** Stepping to the next entry, by the place of the entry in its sector and cluster. */
  lemma StandNext(g: Geom, fixed: bool, ch: seq<nat>, i: nat, clust: nat, sect: nat, dir: nat)
    requires Standing(g, fixed, ch, i, clust, sect, dir) && Eps(g) > 0 && g.csize > 0
    ensures EOfs(g, i + 1) != 0 ==> Standing(g, fixed, ch, i + 1, clust, sect, 32 * EOfs(g, i + 1))
    ensures EOfs(g, i + 1) == 0 && fixed && EIdx(g, i + 1) < RootSecs(g) ==>
              Standing(g, fixed, ch, i + 1, clust, sect + 1, 0)
    ensures EOfs(g, i + 1) == 0 && !fixed && CluOfs(g, EIdx(g, i + 1)) != 0 ==>
              Standing(g, fixed, ch, i + 1, clust, sect + 1, 0)
  {
    NextSlot(g, i);
    var k := EIdx(g, i);
    hide EIdx, EOfs, Eps;
    if !fixed && EOfs(g, i + 1) == 0 && CluOfs(g, k + 1) != 0 {
      CluSplit(g, k + 1);
      CluIs(g, k, CluIdx(g, k + 1), CluOfs(g, k + 1) - 1);
      hide CluIdx, CluOfs, Secs, First;
      SecsRun(g, ch, k, 2);
    }
  }

  /** Stepping into the next cluster. */
  lemma StandNextCluster(g: Geom, ch: seq<nat>, i: nat, clust: nat, sect: nat, dir: nat)
    requires Standing(g, false, ch, i, clust, sect, dir) && Eps(g) > 0 && g.csize > 0
    requires EOfs(g, i + 1) == 0 && CluOfs(g, EIdx(g, i + 1)) == 0
    ensures var k := CluIdx(g, EIdx(g, i));
      && k < |ch| && clust == ch[k]
      && (k + 1 < |ch| ==> Standing(g, false, ch, i + 1, ch[k + 1], First(g, ch[k + 1]), 0))
      && (k + 1 < |ch| <==> i + 1 < Slots(g, |Secs(g, ch)|))
      && (forall c: nat :: k + 1 == |ch| ==> Standing(g, false, ch + [c], i + 1, c, First(g, c), 0))
  {
    NextSlot(g, i);
    var s := EIdx(g, i + 1);
    CluSplit(g, s);
    ClusterBefore(g, s);
    var k := CluIdx(g, EIdx(g, i));
    assert CluIdx(g, s) == k + 1;
    InsideIff(g, i + 1, |Secs(g, ch)|);
    hide CluIdx, CluOfs, EIdx, EOfs, Slots, First, Eps;
    SpanInside(g, s, |ch|);
    if k + 1 < |ch| {
      SecsRun(g, ch, s, 1);
    }
    if k + 1 == |ch| {
      forall c: nat
        ensures Standing(g, false, ch + [c], i + 1, c, First(g, c), 0)
      {
        SecsRun(g, ch + [c], s, 1);
      }
    }
  }

  /** What standing at an entry says about the current cluster and sector. */
  lemma StandFacts(g: Geom, v: Sectors, fixed: bool, ch: seq<nat>, i: nat, clust: nat, sect: nat, dir: nat,
                   secs: seq<nat>)
    requires Standing(g, fixed, ch, i, clust, sect, dir) && secs == DirSecs(g, fixed, ch) && SoundSecs(g, v, secs)
    requires Eps(g) > 0 && (!fixed ==> Clusters(g, ch))
    ensures sect in secs && sect > 0 && (clust == 0 <==> fixed)
    ensures (i + 1) / Eps(g) == EIdx(g, i + 1) && (i + 1) % Eps(g) == EOfs(g, i + 1)
  {
    hide Secs, CluIdx;
  }

  lemma StandInside(g: Geom, fixed: bool, ch: seq<nat>, i: nat, clust: nat, sect: nat, dir: nat)
    requires Standing(g, fixed, ch, i, clust, sect, dir) && Eps(g) > 0
    ensures i < Slots(g, |DirSecs(g, fixed, ch)|)
  {
    InsideIff(g, i, |DirSecs(g, fixed, ch)|);
  }

  /** `i / (SS / SZ_DIRE)` */
  function SectorOfEntry(g: Geom, i: nat): nat {
    if Eps(g) == 0 then 0 else i / Eps(g)
  }

  lemma BoundaryPlace(g: Geom, i: nat)
    requires Eps(g) > 0 && g.csize > 0 && IsPow2(g.csize)
    ensures SectorOfEntry(g, i) == EIdx(g, i) && BitAnd(SectorOfEntry(g, i), g.csize - 1) == CluOfs(g, EIdx(g, i))
  {
    MaskIsMod(EIdx(g, i), g.csize);
  }

  lemma SpanInside(g: Geom, s: nat, n: nat)
    requires g.csize > 0
    ensures s < Span(g, n) <==> CluIdx(g, s) < n
  {
    CluSplit(g, s);
    if s < Span(g, n) {
      CluInside(g, s, n);
    } else if CluIdx(g, s) < n {
      SpanMonotone(g, CluIdx(g, s) + 1, n);
      SpanNext(g, CluIdx(g, s));
    }
  }

  lemma GeomFacts(g: Geom, total: nat)
    requires Layout(g, total) && Sizes(g, total)
    ensures SectorSize(g.ss) && 16 <= Eps(g) <= 128 && g.csize > 0 && IsPow2(g.csize) && g.csize <= 128
    ensures RootFits(g) && g.nFatent >= 3 && g.fatbase > 0
  {
    hide IsPow2, FatFits, DataFits, RootFits;
    EpsFacts(g);
  }

  /** The window shows the sector it showed before, one of the FAT, or one of `secs`. */
  ghost predicate WindowIn(w: nat, w': nat, g: Geom, secs: seq<nat>) {
    w' == w || InFat(g, w') || w' in secs
  }

  /** Work on the FAT and on the sectors `secs` alone, which keeps equal FAT copies equal. */
  ghost predicate WorksOn(v: Sectors, w: nat, v': Sectors, w': nat, g: Geom, secs: seq<nat>) {
    KeepsRest(v, v', g, secs) && (Mirrored(v, g) ==> Mirrored(v', g)) && WindowIn(w, w', g, secs)
  }

  lemma LooksOnly(v: Sectors, w: nat, w': nat, g: Geom, secs: seq<nat>)
    requires w' == w || InFat(g, w') || w' in secs
    ensures WorksOn(v, w, v, w', g, secs)
  {
    hide InFat, Mirrored;
    KeepsRestSame(v, g, secs);
  }

  lemma Worked(v: Sectors, w: nat, v': Sectors, w': nat, g: Geom, secs: seq<nat>)
    requires KeepsRest(v, v', g, secs) && (Mirrored(v, g) ==> Mirrored(v', g)) && w' in secs
    ensures WorksOn(v, w, v', w', g, secs)
  {
    hide KeepsRest, Mirrored, InFat;
  }

  class DIR {
    const fs: FATFS
    const sclust: nat     // table start cluster (0: root directory)
    var index: nat        // current index
    var clust: nat        // current cluster (0: static table)
    var sect: nat         // current sector
    var dir: nat          // the current entry's place in the window
    const fn: array<Byte> // short name and its flags
    var lfn: LfnPtr       // long name
    ghost var chain: seq<nat>
    ghost var others: set<seq<nat>>

    constructor (fs: FATFS, sclust: nat, fn: array<Byte>, lfn: LfnPtr, ghost chain: seq<nat>,
                 ghost others: set<seq<nat>>)
      requires fs.Valid() && fs.disk.reliable
      requires Owns(FatOf(fs), others, chain, StartOf(fs.g, sclust)) && (chain == [] <==> StartOf(fs.g, sclust) == 0)
      requires StartOf(fs.g, sclust) == 0 ==> fs.g.fsType != FAT32
      requires fn.Length == 12 && fn != fs.win && BufferOk(lfn)
      ensures Valid() && this.fs == fs && this.sclust == sclust && this.chain == chain && this.others == others
      ensures this.fn == fn && this.lfn == lfn
    {
      this.fs, this.sclust, this.fn, this.lfn, this.chain, this.others := fs, sclust, fn, lfn, chain, others;
      index, clust, sect, dir := 0, 0, 0, 0;
    }

    /** A static table. */
    predicate Fixed() {
      StartOf(fs.g, sclust) == 0
    }

    ghost predicate Valid()
      reads this`chain, this`others, this`lfn, fs`winsect, fs`wflag, fs.win, fs.disk
    {
      && fs.Valid() && fs.disk.reliable && fn.Length == 12 && fn != fs.win && BufferOk(lfn)
      && Owns(FatOf(fs), others, chain, StartOf(fs.g, sclust)) && (chain == [] <==> Fixed())
      && (Fixed() ==> fs.g.fsType != FAT32)
    }

    ghost function Secs(): seq<nat>
      reads this`chain
    {
      DirSecs(fs.g, Fixed(), chain)
    }

    /** The entries of the directory. */
    ghost function Entries(): seq<seq<Byte>>
      reads this`chain, fs`winsect, fs`wflag, fs.win, fs.disk
    {
      Table(fs.View(), fs.g, Secs())
    }

    /** The name the object is for. */
    ghost function Name(): Query
      reads this`lfn, fn
    {
      Query(fn[..], lfn)
    }

    /** The object stands at entry i. */
    ghost predicate At(i: nat)
      reads this`chain, this`index, this`clust, this`sect, this`dir
    {
      i < Count(fs.g, |Secs()|) && index == i && Standing(fs.g, Fixed(), chain, i, clust, sect, dir)
    }

    lemma Facts()
      requires Valid()
      ensures Layout(fs.g, |fs.View()|) && Sizes(fs.g, |fs.View()|) && Uniform(fs.View(), fs.g.ss)
      ensures SectorSize(fs.g.ss) && 16 <= Eps(fs.g) <= 128 && fs.g.csize > 0 && IsPow2(fs.g.csize) && fs.g.csize <= 128
      ensures RootFits(fs.g) && fs.g.nFatent >= 3 && fs.g.fatbase > 0 && |fs.View()| < W32 && fs.win.Length == fs.g.ss
      ensures SoundSecs(fs.g, fs.View(), Secs())
      ensures !Fixed() ==> chain != [] && IsChain(FatOf(fs), chain) && chain[0] == StartOf(fs.g, sclust)
      ensures !Fixed() ==> Clusters(fs.g, chain)
    {
      hide Owns, Fat, FileSectors.Secs, DirSecs, FATFS.View, FATFS.Valid, IsChain, SoundSecs, Layout, Uniform, Sizes;
      hide RootFits, SectorSize, IsPow2, Eps, Clusters, Distinct;
      FsFacts(fs);
      GeomFacts(fs.g, |fs.View()|);
      OwnedChain(FatOf(fs), others, chain, StartOf(fs.g, sclust));
      if !Fixed() {
        ChainClusters(fs.g, FatOf(fs), chain);
      }
      DirSecsSound(fs.g, fs.View(), FatOf(fs), others, Fixed(), chain, StartOf(fs.g, sclust));
    }

    /** dir_sdi: go to entry idx. */
    method Sdi(idx: nat) returns (res: FResult)
      requires Valid() && idx < MAX_INDEX
      modifies this`index, this`clust, this`sect, this`dir, fs`winsect, fs`wflag, fs.win, fs.disk
      ensures Valid() && fs.View() == old(fs.View())
      ensures res == if idx < Count(fs.g, |Secs()|) then OK else IntErr
      ensures res == OK ==> At(idx)
      ensures fs.winsect == old(fs.winsect) || InFat(fs.g, fs.winsect)
      ensures CountKept(fs)
    {
      hide Owns, Fat, FATFS.View, FATFS.Valid, Standing, DirSecs, SectorSize, IsPow2, RootFits, EIdx, EOfs, Eps, Slots;
      hide Layout, Sizes, Uniform, First, Clust2Sect, IsChain, CountFree, InFat;
      Facts();
      index := idx;
      var clst := sclust;
      StartInRange(fs.g, sclust, FatOf(fs), chain);
      if clst == 1 || clst >= fs.g.nFatent {
        return IntErr;
      }
      if clst == 0 && fs.g.fsType == FAT32 {
        clst := fs.g.dirbase;
      }
      var idx, sec := idx, 0;
      if clst == 0 {
        RootSlots(fs.g);
        if idx >= fs.g.nRootdir {
          return IntErr;
        }
        sec := fs.g.dirbase;
        RootStanding(fs.g, idx);
      } else {
        var ok;
        ghost var k;
        ok, clst, idx, k := SdiChain(clst, idx);
        if !ok {
          return IntErr;
        }
        ChainStanding(fs.g, chain, index, k, idx, clst);
        ClusterSector(clst);
        sec := Clust2Sect(fs.g, clst);
      }
      clust := clst;
      if sec == 0 {
        return IntErr;
      }
      sect := sec + EIdx(fs.g, idx);
      dir := 32 * EOfs(fs.g, idx);
      res := OK;
    }

    /** "Follow cluster chain" in dir_sdi. */
    method SdiChain(clst0: nat, idx0: nat) returns (ok: bool, clst: nat, idx: nat, ghost k: nat)
      requires Valid() && !Fixed() && clst0 == StartOf(fs.g, sclust)
      modifies fs`winsect, fs`wflag, fs.win, fs.disk
      ensures Valid() && fs.View() == old(fs.View()) && (fs.winsect == old(fs.winsect) || InFat(fs.g, fs.winsect))
      ensures ok <==> idx0 < Slots(fs.g, |Secs()|)
      ensures ok ==> k < |chain| && clst == chain[k]
      ensures ok ==> idx0 == Times(k, PerCluster(fs.g)) + idx && idx < PerCluster(fs.g)
    {
      hide Owns, Fat, FATFS.View, FATFS.Valid, DirSecs, SectorSize, IsPow2, RootFits, Slots, EIdx, EOfs, Eps;
      hide PerCluster, Times;
      hide Layout, Sizes, Uniform, IsChain, FileSectors.Secs, InFat;
      Facts();
      var ic := PerCluster(fs.g);
      PerClusterPositive(fs.g);
      clst, idx, k := clst0, idx0, 0;
      TimesZero(ic);
      while idx >= ic
        invariant Valid() && fs.View() == old(fs.View()) && (fs.winsect == old(fs.winsect) || InFat(fs.g, fs.winsect))
        invariant k < |chain| && clst == chain[k] && idx0 == Times(k, ic) + idx
        decreases idx
      {
        LinkInChain(FatOf(fs), chain, k);
        TimesNext(k, ic);
        clst := GetFat(fs, clst);
        if clst == 0xFFFF_FFFF {
          return false, clst, idx, k;
        }
        if clst < 2 || clst >= fs.g.nFatent {
          PastChain(fs.g, chain, idx0, idx - ic);
          return false, clst, idx, k;
        }
        idx := idx - ic;
        k := k + 1;
      }
      ok := true;
      ChainStanding(fs.g, chain, idx0, k, idx, clst);
    }

    /** "Stretch cluster chain" in dir_next: 0 when the volume is full. */
    method Stretch() returns (clst: nat)
      requires Valid() && !Fixed() && chain != [] && clust == chain[|chain| - 1]
      modifies this`chain, fs, fs.win, fs.disk
      ensures Valid() && |fs.View()| == |old(fs.View())|
      ensures clst == 0 ==> chain == old(chain) && fs.View() == old(fs.View()) && NoneFree(FatOf(fs))
      ensures clst != 0 ==> clst >= 2 && chain == old(chain) + [clst] && Grown(old(Entries()), Entries())
      ensures Extends(old(Secs()), Secs())
      ensures WorksOn(old(fs.View()), old(fs.winsect), fs.View(), fs.winsect, fs.g, Secs())
      ensures CountKept(fs)
    {
      hide Owns, Fat, FATFS.View, FATFS.Valid, DirSecs, FileSectors.Secs, IsChain, SoundSecs, Layout, Sizes, Uniform;
      hide EndMark, Masked;
      hide Extends, CreateResult, Allocates, Stretched, SameOutsideFat, Zeroed, First, Clust2Sect, KeepsRest, Grown;
      hide NoneFree, CountFree, HasBadLink, FirstFree, InFat, Mirrored, WorksOn;
      Facts();
      ghost var g, v, w, fat, ch := fs.g, fs.View(), fs.winsect, FatOf(fs), chain;
      ViewFacts(fs);
      ExtendsSame(Secs());
      LinkInChain(fat, ch, |ch| - 1);
      clst := CreateChain(fs, clust);
      FollowOrStretch(fat, others, ch, StartOf(g, sclust), clust, |ch| - 1, old(fs.lastClust), clst);
      if clst != 0 {
        StretchOwns(fat, others, ch, StartOf(g, sclust), clust, clst, EndMark(g.fsType));
        chain := chain + [clst];
        ghost var v1 := fs.View();
        ClusterSector(clst);
        CleanCluster(fs, Clust2Sect(fs.g, clst));
        FsFacts(fs);
        CleanFat(v1, fs.View(), g, First(g, clst));
        Facts();
        StretchedTable(v, v1, fs.View(), g, ch, clst);
        StretchExtends(g, ch, clst);
        Worked(v, w, fs.View(), fs.winsect, g, Secs());
      } else {
        LooksOnly(v, w, fs.winsect, g, Secs());
      }
    }

    /** The part of dir_next at a cluster boundary: the cluster of entry i, which is followed or, if
        wanted, appended. */
    method NextCluster(stretch: bool, ghost i: nat, ghost s: nat) returns (res: FResult, clst: nat)
      requires Valid() && !Fixed() && Standing(fs.g, false, chain, i, clust, s, dir)
      requires EOfs(fs.g, i + 1) == 0 && CluOfs(fs.g, EIdx(fs.g, i + 1)) == 0
      modifies this`chain, fs, fs.win, fs.disk
      ensures Valid() && |fs.View()| == |old(fs.View())|
      ensures i + 1 < Slots(fs.g, |old(Secs())|) ==> res == OK && chain == old(chain) && fs.View() == old(fs.View())
      ensures i + 1 >= Slots(fs.g, |old(Secs())|) ==>
                && (!stretch ==> res == NoFile)
                && (stretch ==> res == OK || (res == Denied && NoneFree(FatOf(fs))))
                && (res == OK ==> Grown(old(Entries()), Entries()))
      ensures res == OK ==> clst >= 2 && Standing(fs.g, false, chain, i + 1, clst, Clust2Sect(fs.g, clst), 0)
      ensures res != OK ==> chain == old(chain) && fs.View() == old(fs.View())
      ensures Extends(old(Secs()), Secs())
      ensures WorksOn(old(fs.View()), old(fs.winsect), fs.View(), fs.winsect, fs.g, Secs())
      ensures CountKept(fs)
    {
      hide Owns, Fat, FATFS.View, FATFS.Valid, DirSecs, FileSectors.Secs, IsChain, SoundSecs, Layout, Sizes, Uniform;
      hide Standing;
      hide First, Clust2Sect, KeepsRest, Grown, NoneFree, CountFree, InFat, RootFits, SectorSize, IsPow2, EIdx, EOfs;
      hide CluIdx, CluOfs, Slots, Eps;
      Facts();
      KeepsRestSame(fs.View(), fs.g, Secs());
      StandNextCluster(fs.g, chain, i, clust, s, dir);
      ghost var k := CluIdx(fs.g, EIdx(fs.g, i));
      LinkInChain(FatOf(fs), chain, k);
      clst := GetFat(fs, clust);
      if clst <= 1 {
        return IntErr, clst;
      }
      if clst == 0xFFFF_FFFF {
        return DiskErr, clst;
      }
      if clst >= fs.g.nFatent {
        if !stretch {
          return NoFile, clst;
        }
        clst := Stretch();
        if clst == 0 {
          return Denied, clst;
        }
      }
      res := OK;
      ClusterSector(clst);
    }

    /** The part of dir_next where the sector changes. */
    method NextSector(stretch: bool, i: nat) returns (res: FResult)
      requires Valid() && i > 0 && Standing(fs.g, Fixed(), chain, i - 1, clust, sect, dir) && EOfs(fs.g, i) == 0
      modifies this`clust, this`sect, this`chain, fs, fs.win, fs.disk
      ensures Valid() && |fs.View()| == |old(fs.View())|
      ensures i < Slots(fs.g, |old(Secs())|) ==> res == OK && chain == old(chain) && fs.View() == old(fs.View())
      ensures i >= Slots(fs.g, |old(Secs())|) ==>
                && (!stretch || Fixed() ==> res == NoFile)
                && (stretch && !Fixed() ==> res == OK || (res == Denied && NoneFree(FatOf(fs))))
                && (res == OK ==> Grown(old(Entries()), Entries()))
      ensures res == OK ==> Standing(fs.g, Fixed(), chain, i, clust, sect, 0)
      ensures res != OK ==> chain == old(chain) && fs.View() == old(fs.View())
      ensures Extends(old(Secs()), Secs())
      ensures WorksOn(old(fs.View()), old(fs.winsect), fs.View(), fs.winsect, fs.g, Secs())
      ensures CountKept(fs)
    {
      hide Owns, Fat, FATFS.View, FATFS.Valid, FileSectors.Secs, IsChain, SoundSecs, Layout, Sizes, Uniform, Standing;
      hide Table;
      hide First, Clust2Sect, KeepsRest, Grown, NoneFree, CountFree, InFat, RootFits, SectorSize, IsPow2, EIdx, EOfs;
      hide CluIdx, CluOfs, Slots, Eps;
      hide BitAnd, FreeExact, RootSecs, DirSecs, Clusters;
      Facts();
      KeepsRestSame(fs.View(), fs.g, Secs());
      StandFacts(fs.g, fs.View(), Fixed(), chain, i - 1, clust, sect, dir, Secs());
      StandNext(fs.g, Fixed(), chain, i - 1, clust, sect, dir);
      BoundaryPlace(fs.g, i);
      InsideIff(fs.g, i, |Secs()|);
      sect := sect + 1;
      if clust == 0 {
        RootSlots(fs.g);
        if i >= fs.g.nRootdir {
          return NoFile;
        }
      } else if BitAnd(SectorOfEntry(fs.g, i), fs.g.csize - 1) == 0 {
        var clst;
        res, clst := NextCluster(stretch, i - 1, sect - 1);
        if res != OK {
          return;
        }
        clust := clst;
        sect := Clust2Sect(fs.g, clst);
      } else {
        StandInside(fs.g, false, chain, i, clust, sect, 0);
      }
      res := OK;
    }

    /** dir_next: go to the next entry. At the end of a chained directory it is stretched by a clean
        cluster if `stretch` is set. */
    method Next(stretch: bool) returns (res: FResult)
      requires Valid() && At(index)
      modifies this`index, this`clust, this`sect, this`dir, this`chain, fs, fs.win, fs.disk
      ensures Valid() && |fs.View()| == |old(fs.View())|
      // inside the table: exactly where dir_sdi(index + 1) goes
      ensures old(index) + 1 < old(Count(fs.g, |Secs()|)) ==>
                res == OK && At(old(index) + 1) && chain == old(chain) && fs.View() == old(fs.View())
      // at its end
      ensures old(index) + 1 >= old(Count(fs.g, |Secs()|)) ==>
                && (!stretch || Fixed() || old(index) + 1 == MAX_INDEX ==> res == NoFile)
                && (stretch && !Fixed() && old(index) + 1 < MAX_INDEX ==>
                      res == OK || (res == Denied && NoneFree(FatOf(fs))))
                && (res == OK ==> At(old(index) + 1) && Grown(old(Entries()), Entries()))
      ensures res != OK ==> chain == old(chain) && fs.View() == old(fs.View())
      ensures Extends(old(Secs()), Secs())
      ensures WorksOn(old(fs.View()), old(fs.winsect), fs.View(), fs.winsect, fs.g, Secs())
      ensures CountKept(fs)
    {
      hide Owns, Fat, FATFS.View, FATFS.Valid, FileSectors.Secs, IsChain, SoundSecs, Layout, Sizes, Uniform, Standing;
      hide Table;
      hide First, Clust2Sect, KeepsRest, Grown, NoneFree, CountFree, InFat, RootFits, SectorSize, IsPow2, EIdx, EOfs;
      hide CluIdx, CluOfs, Slots, Eps;
      hide FreeExact, DirSecs, Clusters;
      Facts();
      KeepsRestSame(fs.View(), fs.g, Secs());
      var i := index + 1;
      StandFacts(fs.g, fs.View(), Fixed(), chain, index, clust, sect, dir, Secs());
      StandNext(fs.g, Fixed(), chain, index, clust, sect, dir);
      if i % MAX_INDEX == 0 || sect == 0 {
        return NoFile;
      }
      if i % Eps(fs.g) == 0 {
        res := NextSector(stretch, i);
        if res != OK {
          return;
        }
      }
      index := i;
      dir := 32 * (i % Eps(fs.g));
      res := OK;
      StandInside(fs.g, Fixed(), chain, i, clust, sect, dir);
    }

    /** `move_window(dp->fs, dp->sect)`: the window shows the current entry. */
    method Show() returns (res: FResult)
      requires Valid() && At(index)
      modifies fs`winsect, fs`wflag, fs.win, fs.disk
      ensures Valid() && fs.View() == old(fs.View()) && res == OK && fs.winsect == sect && sect in Secs()
      ensures CountKept(fs)
      ensures index < |Entries()| && dir + 32 <= fs.win.Length && Entries()[index] == fs.win[dir..dir + 32]
    {
      hide Owns, Fat, FATFS.View, FATFS.Valid, FileSectors.Secs, IsChain, Layout, Sizes, Uniform, Table, DirSecs;
      hide Slots, EIdx, EOfs;
      hide InFatArea, SectorSize, IsPow2, RootFits, CountFree;
      Facts();
      EntInside(fs.View(), fs.g, Secs(), index);
      NotMirror(fs.g, sect);
      res := fs.MoveWindow(sect);
      FsFacts(fs);
      TableEntry(fs.View(), fs.g, Secs(), index);
    }

    /** One entry of dir_alloc's search. */
    method AllocStep(nent: nat, n: nat) returns (found: bool, res: FResult, n': nat)
      requires Valid() && At(index) && n < nent && Counted(Entries(), nent, index, n)
      modifies this`index, this`clust, this`sect, this`dir, this`chain, fs, fs.win, fs.disk
      ensures Valid() && |fs.View()| == |old(fs.View())|
      ensures found ==> res == OK && At(index) && FirstRun(Entries(), nent, index)
      ensures !found && res == OK ==>
                At(index) && index == old(index) + 1 && n' < nent && Counted(Entries(), nent, index, n')
      ensures res != OK ==>
                && (res == NoFile || res == Denied) && Entries() == old(Entries())
                && (forall e: nat :: !RunEnds(Entries(), nent, e))
                && (Fixed() || |Entries()| == MAX_INDEX || NoneFree(FatOf(fs)))
      ensures Grown(old(Entries()), Entries()) && Extends(old(Secs()), Secs())
      ensures WorksOn(old(fs.View()), old(fs.winsect), fs.View(), fs.winsect, fs.g, Secs())
      ensures CountKept(fs)
    {
      hide Owns, Fat, FATFS.View, FATFS.Valid, FileSectors.Secs, IsChain, Layout, Sizes, Uniform, Table, DirSecs;
      hide Slots, Standing, DIR.Valid, InFat, Mirrored;
      hide WorksOn, KeepsRest, Grown, NoneFree, CountFree, FreeExact, RunEnds, Counted, FirstRun, FreeEntry, Extends;
      ghost var t, v, w, s := Entries(), fs.View(), fs.winsect, Secs();
      ExtendsSame(Secs());
      GrownSame(t);
      n', found := n, false;
      res := Show();
      ghost var w1 := fs.winsect;
      LooksOnly(v, w, w1, fs.g, s);
      CountNext(t, nent, index, n);
      FreeFirst(t[index], fs.win[..], dir);
      if fs.win[dir] == DDEM || fs.win[dir] == 0 {
        n' := n' + 1;
        if n' == nent {
          found := true;
          return;
        }
      } else {
        n' := 0;
      }
      res := Next(true);
      SecsGrow(v, w, v, w1, fs.View(), fs.winsect, fs.g, s, Secs());
      if res == OK {
        Onward(t, t, Entries(), nent, old(index) + 1, n');
      } else {
        NoRun(t, nent, n');
      }
    }

    /** dir_alloc: go to the end of the first row of nent free entries, stretching the directory
        as needed. */
    method Alloc(nent: nat) returns (res: FResult)
      requires Valid() && nent >= 1
      modifies this`index, this`clust, this`sect, this`dir, this`chain, fs, fs.win, fs.disk
      ensures Valid() && |fs.View()| == |old(fs.View())|
      ensures res == OK ==> At(index) && FirstRun(Entries(), nent, index)
      ensures res != OK ==> if old(Entries()) == [] then res == IntErr else
                && res == Denied && (forall e: nat :: !RunEnds(Entries(), nent, e))
                && (Fixed() || |Entries()| == MAX_INDEX || NoneFree(FatOf(fs)))
      ensures Grown(old(Entries()), Entries()) && Extends(old(Secs()), Secs())
      ensures WorksOn(old(fs.View()), old(fs.winsect), fs.View(), fs.winsect, fs.g, Secs())
      ensures CountKept(fs)
    {
      hide Owns, Fat, FATFS.View, FATFS.Valid, FileSectors.Secs, IsChain, Layout, Sizes, Uniform, Table, DirSecs;
      hide Slots, Standing;
      hide KeepsRest, Grown, NoneFree, CountFree, FreeExact, RunEnds, Counted, FirstRun, FreeEntry, Extends;
      ghost var t0, v0, w0, s0 := Entries(), fs.View(), fs.winsect, Secs();
      KeepsRestSame(v0, fs.g, s0);
      ExtendsSame(s0);
      GrownSame(t0);
      NoneCounted(t0, nent);
      res := Sdi(0);
      if res == OK {
        var n: nat := 0;
        var found := false;
        while res == OK && !found
          invariant Valid() && |fs.View()| == |v0|
          invariant res == OK && !found ==> At(index) && n < nent && Counted(Entries(), nent, index, n)
          invariant found ==> res == OK && At(index) && FirstRun(Entries(), nent, index)
          invariant res != OK ==> !found && (res == NoFile || res == Denied)
          invariant res != OK ==> forall e: nat :: !RunEnds(Entries(), nent, e)
          invariant res != OK ==> Fixed() || |Entries()| == MAX_INDEX || NoneFree(FatOf(fs))
          invariant Grown(t0, Entries()) && Extends(s0, Secs()) && WorksOn(v0, w0, fs.View(), fs.winsect, fs.g, Secs())
          invariant CountKept(fs)
          decreases res == OK && !found, MAX_INDEX - index
        {
          ghost var t, v1, w1, s1 := Entries(), fs.View(), fs.winsect, Secs();
          found, res, n := AllocStep(nent, n);
          GrownTrans(t0, t, Entries());
          SecsGrow(v0, w0, v1, w1, fs.View(), fs.winsect, fs.g, s1, Secs());
          ChainsExtend(s0, s1, Secs());
        }
      }
      if res == NoFile {
        res := Denied;
      }
    }

    /** clust2sect of a cluster of the directory. */
    lemma ClusterSector(clst: nat)
      requires Valid() && clst in chain
      ensures Clust2Sect(fs.g, clst) == First(fs.g, clst) > 0
      ensures First(fs.g, clst) >= fs.g.database && First(fs.g, clst) + fs.g.csize <= |fs.View()|
    {
      hide Owns, FatOf, FATFS.View, IsChain, First, Clust2Sect;
      FsFacts(fs);
      OwnedChain(FatOf(fs), others, chain, StartOf(fs.g, sclust));
      ChainInUse(FatOf(fs), chain, clst);
      Clust2SectIs(fs.g, |fs.View()|, clst);
      FirstRange(fs.g, |fs.View()|, clst);
    }
  }

  lemma NotMirror(g: Geom, s: nat)
    requires !InFatArea(g, s)
    ensures !InMirror(g, s)
  {
  }

  lemma TableEntry(v: Sectors, g: Geom, secs: seq<nat>, i: nat)
    requires i < Count(g, |secs|)
    ensures i < |Table(v, g, secs)| && Table(v, g, secs)[i] == Ent(v, g, secs, i)
  {
  }

  /** The table after a step of dir_alloc. */
  lemma Onward(t0: seq<seq<Byte>>, t: seq<seq<Byte>>, t': seq<seq<Byte>>, nent: nat, i: nat, n: nat)
    requires Grown(t0, t) && (t' == t || Grown(t, t')) && Counted(t, nent, i, n)
    ensures Grown(t0, t') && Counted(t', nent, i, n)
  {
    hide Grown, Counted;
    if t' != t {
      GrownTrans(t0, t, t');
      CountGrown(t, t', nent, i, n);
    }
  }

  lemma SecsGrow(v0: Sectors, w0: nat, v1: Sectors, w1: nat, v2: Sectors, w2: nat, g: Geom, a: seq<nat>, b: seq<nat>)
    requires WorksOn(v0, w0, v1, w1, g, a) && WorksOn(v1, w1, v2, w2, g, b) && Extends(a, b)
    ensures WorksOn(v0, w0, v2, w2, g, b)
  {
    hide Mirrored, InFat, InFatArea;
    PrefixMembers(a, b);
  }

  lemma PrefixMembers(a: seq<nat>, b: seq<nat>)
    requires Extends(a, b)
    ensures forall s :: s in a ==> s in b
  {
    forall s | s in a
      ensures s in b
    {
      var k :| 0 <= k < |a| && a[k] == s;
      assert b[k] == b[..|a|][k];
    }
  }

  lemma FreeFirst(e: seq<Byte>, w: seq<Byte>, o: nat)
    requires o + 32 <= |w| && e == w[o..o + 32]
    ensures FreeEntry(e) <==> w[o] == DDEM || w[o] == 0
  {
    assert e[0] == w[o];
  }

  // ----- cleaning a new cluster -----

  /** n sectors from `first` on are zero, the others as before. */
  ghost predicate Zeroed(v: Sectors, v': Sectors, first: nat, n: nat, ss: nat) {
    |v'| == |v| && forall s :: 0 <= s < |v| ==> v'[s] == if first <= s < first + n then Zeros(ss) else v[s]
  }

  /** The stored window replaces its sector. */
  lemma StoreOutside(v: Sectors, g: Geom, s: nat, w: seq<Byte>)
    requires s < |v| && !InFat(g, s)
    ensures Store(v, g, s, w) == v[s := w]
  {
  }

  lemma DataOutside(g: Geom, total: nat, s: nat)
    requires Layout(g, total) && s >= g.database
    ensures !InFat(g, s) && !InMirror(g, s) && !InFatArea(g, s)
  {
  }

  lemma ZeroedNext(v: Sectors, v1: Sectors, first: nat, n: nat, ss: nat)
    requires Zeroed(v, v1, first, n, ss) && first + n < |v|
    ensures Zeroed(v, v1[first + n := Zeros(ss)], first, n + 1, ss)
  {
  }

  /** "Clean-up stretched table": the new cluster is filled with zeros through the window, which
      ends up on its first sector. */
  method CleanCluster(fs: FATFS, first: nat)
    requires fs.Valid() && fs.disk.reliable && fs.g.database <= first && first + fs.g.csize <= |fs.View()|
    modifies fs`winsect, fs`wflag, fs.win, fs.disk
    ensures fs.Valid() && Zeroed(old(fs.View()), fs.View(), first, fs.g.csize, fs.g.ss) && fs.winsect == first
    ensures |fs.View()| == |old(fs.View())|
  {
    hide Sizes, Layout, Uniform, Zeros, Store, InFat, InMirror, Zeroed;
    FsFacts(fs);
    CsizeFacts(fs.g, |fs.View()|);
    ghost var v := fs.View();
    var res := fs.SyncWindow();
    forall i | 0 <= i < fs.win.Length {
      fs.win[i] := 0;
    }
    assert fs.win[..] == Zeros(fs.g.ss);
    fs.winsect := first;
    var c := 0;
    ZeroedNone(v, first, fs.g.ss);
    while c < fs.g.csize
      invariant c <= fs.g.csize && fs.winsect == first + c && !fs.wflag
      invariant fs.win[..] == Zeros(fs.g.ss) && Zeroed(v, fs.disk.sec, first, c, fs.g.ss)
      invariant |fs.disk.sec| == |v| && GeomOk(fs.g, |fs.disk.sec|) && Uniform(fs.disk.sec, fs.g.ss)
    {
      DataOutside(fs.g, |v|, fs.winsect);
      StoreOutside(fs.disk.sec, fs.g, fs.winsect, fs.win[..]);
      ZeroedNext(v, fs.disk.sec, first, c, fs.g.ss);
      fs.wflag := true;
      res := fs.SyncWindow();
      fs.winsect := fs.winsect + 1;
      c := c + 1;
    }
    fs.winsect := fs.winsect - c;
    DataOutside(fs.g, |v|, fs.winsect);
    ZeroedAt(v, fs.disk.sec, first, c, fs.g.ss);
  }

  /** Cleaning a data cluster leaves the FAT alone. */
  lemma CleanFat(v: Sectors, v': Sectors, g: Geom, first: nat)
    requires Zeroed(v, v', first, g.csize, g.ss) && first >= g.database && Layout(g, |v|) && Sizes(g, |v|)
    ensures Fat(v', g) == Fat(v, g) && (Mirrored(v, g) ==> Mirrored(v', g))
  {
    hide Sizes, Fat, Layout, Mirrored;
    DataFat(v, v', g);
  }

  lemma ZeroedNone(v: Sectors, first: nat, ss: nat)
    ensures Zeroed(v, v, first, 0, ss)
  {
  }

  lemma ZeroedAt(v: Sectors, v': Sectors, first: nat, n: nat, ss: nat)
    requires Zeroed(v, v', first, n, ss) && n > 0 && first < |v|
    ensures v'[first] == Zeros(ss)
  {
  }

  lemma CsizeFacts(g: Geom, total: nat)
    requires Sizes(g, total)
    ensures g.csize > 0
  {
  }

  lemma PerClusterPositive(g: Geom)
    requires Eps(g) > 0 && g.csize > 0
    ensures PerCluster(g) > 0
  {
    MulMonotone(1, g.csize, Eps(g));
  }

  lemma StartInRange(g: Geom, sclust: nat, fat: seq<nat>, ch: seq<nat>)
    requires StartOf(g, sclust) != 0 ==> ch != [] && IsChain(fat, ch) && ch[0] == StartOf(g, sclust)
    requires |fat| == g.nFatent
    ensures sclust != 1 && (sclust != 0 ==> sclust < g.nFatent)
  {
  }

  /** Table start cluster: 0 stands for the root directory. */
  function StartOf(g: Geom, sclust: nat): nat {
    if sclust == 0 && g.fsType == FAT32 then g.dirbase else sclust
  }
}
