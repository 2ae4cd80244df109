/** The cluster link map of fast seek: CREATE_LINKMAP and clmt_clust. */
module LinkMap {
  import opened Arith
  import opened Volume
  import opened FatCodec
  import opened Chains
  import opened Allocator
  import opened FileImage
  import opened FileSectors
  import opened FileIO

  /** Length of the run of consecutive cluster numbers ch starts with, from place k on. */
  function RunFrom(ch: seq<nat>, k: nat): (r: nat)
    requires 0 < k <= |ch|
    ensures k <= r <= |ch|
    decreases |ch| - k
  {
    if k < |ch| && ch[k] == ch[k - 1] + 1 then RunFrom(ch, k + 1) else k
  }

  /** The table for a chain: (length, first cluster) for each fragment, then 0. */
  function Items(ch: seq<nat>): (t: seq<nat>)
    ensures |t| >= 1
    decreases |ch|
  {
    if ch == [] then [0] else [RunFrom(ch, 1), ch[0]] + Items(ch[RunFrom(ch, 1)..])
  }

  /** Inside a run cluster numbers count up. */
  lemma {:induction false} RunCounts(ch: seq<nat>, k: nat)
    requires 0 < k <= |ch| && forall i :: 0 <= i < k ==> ch[i] == ch[0] + i
    ensures forall i :: 0 <= i < RunFrom(ch, k) ==> ch[i] == ch[0] + i
    decreases |ch| - k
  {
    if k == |ch| || ch[k] != ch[k - 1] + 1 {
    } else {
      RunCounts(ch, k + 1);
    }
  }

  /** What clmt_clust reads from the table t for cluster order k. */
  function LookUp(t: seq<nat>, k: nat): nat
    decreases |t|
  {
    if |t| < 2 || t[0] == 0 then 0
    else if k < t[0] then k + t[1]
    else LookUp(t[2..], k - t[0])
  }

  /** The table is a run-length encoding of the chain: looking up k gives its k-th cluster,
      and 0 past its end. */
  lemma {:induction false} LookUpIsChain(ch: seq<nat>, k: nat)
    ensures LookUp(Items(ch), k) == if k < |ch| then ch[k] else 0
    decreases |ch|
  {
    if ch == [] {
    } else {
      var r := RunFrom(ch, 1);
      RunCounts(ch, 1);
      var rest := ch[r..];
      assert Items(ch)[2..] == Items(rest);
      if k >= r {
        LookUpIsChain(rest, k - r);
      }
    }
  }

  /** The table holds the map of chain ch: its size, the fragments, the end. */
  ghost predicate HoldsMap(tbl: seq<nat>, ch: seq<nat>) {
    |tbl| >= 1 + |Items(ch)| && tbl[1..1 + |Items(ch)|] == Items(ch)
  }

  /** clmt_clust: the cluster of the file's cluster order `ofs / SS / csize`, 0 past the end. */
  method ClmtClust(g: Geom, tbl: array<nat>, ofs: nat, ghost ch: seq<nat>) returns (cl: nat)
    requires g.ss > 0 && g.csize > 0 && HoldsMap(tbl[..], ch)
    ensures cl == if ofs / g.ss / g.csize < |ch| then ch[ofs / g.ss / g.csize] else 0
  {
    hide Items, LookUp;
    var p := 1;
    cl := ofs / g.ss / g.csize;
    ghost var t, k := Items(ch), cl;
    LookUpIsChain(ch, k);
    TableEnds(ch);
    while true
      invariant 1 <= p && p + |t| <= tbl.Length && tbl[p..p + |t|] == t && Ended(t)
      invariant LookUp(t, cl) == LookUp(Items(ch), k)
      decreases |t|
    {
      EndedStep(t, cl);
      assert t[0] == tbl[p];
      var ncl := tbl[p];
      p := p + 1;
      if ncl == 0 {
        return 0;
      }
      assert t[1] == tbl[p];
      if cl < ncl {
        break;
      }
      cl := cl - ncl;
      p := p + 1;
      t := t[2..];
    }
    cl := cl + tbl[p];
  }

  /** A table of pairs closed by 0. */
  predicate Ended(t: seq<nat>)
    decreases |t|
  {
    t != [] && (t[0] == 0 || (|t| >= 2 && Ended(t[2..])))
  }

  lemma {:induction false} TableEnds(ch: seq<nat>)
    ensures Ended(Items(ch))
    decreases |ch|
  {
    if ch == [] {
    } else {
      var r := RunFrom(ch, 1);
      TableEnds(ch[r..]);
      assert Items(ch)[2..] == Items(ch[r..]);
    }
  }

  lemma EndedStep(t: seq<nat>, k: nat)
    requires Ended(t)
    ensures |t| >= 1 && (t[0] == 0 ==> LookUp(t, k) == 0)
    ensures t[0] != 0 ==> |t| >= 2 && Ended(t[2..])
    ensures t[0] != 0 ==> LookUp(t, k) == if k < t[0] then k + t[1] else LookUp(t[2..], k - t[0])
  {
  }

  // ----- building the table -----

  /** The end mark behind the last cluster looks like the next cluster number. */
  ghost predicate FalseRun(fat: seq<nat>, ch: seq<nat>)
    requires IsChain(fat, ch)
  {
    fat[ch[|ch| - 1]] == ch[|ch| - 1] + 1
  }

  /** End marks from 0xFF8, 0xFFF8 or 0x0FFFFFF8 on are larger than any cluster number plus one. */
  lemma UsualMarks(fat: seq<nat>, ch: seq<nat>, t: FsType)
    requires IsChain(fat, ch) && |fat| <= MaxEntries(t) && fat[ch[|ch| - 1]] > MaxEntries(t)
    ensures !FalseRun(fat, ch)
  {
    assert ch[|ch| - 1] < |fat|;
  }

  /** On a FAT12 volume with two clusters, a chain of both that ends with the mark 4 is such a case. */
  lemma FalseRunOnSmallVolume()
    ensures GeomOk(Geom(FAT12, 512, 1, 1, 16, 4, 1, 0, 1, 2, 3), 5)
    ensures IsChain([0xFF8, 0xFFF, 3, 4], [2, 3]) && FalseRun([0xFF8, 0xFFF, 3, 4], [2, 3])
  {
  }

  /** The rest of the chain and the table items before it make up the whole table. */
  ghost predicate Split(ch: seq<nat>, done: seq<nat>, p: nat) {
    p <= |ch| && done + Items(ch[p..]) == Items(ch)
  }

  lemma SplitNext(ch: seq<nat>, done: seq<nat>, p: nat)
    requires Split(ch, done, p) && p < |ch|
    ensures var r := RunFrom(ch[p..], 1); p + r <= |ch| && Split(ch, done + [r, ch[p]], p + r)
  {
    var rest := ch[p..];
    var r := RunFrom(rest, 1);
    assert rest[r..] == ch[p + r..];
    assert done + [r, ch[p]] + Items(ch[p + r..]) == done + ([r, ch[p]] + Items(ch[p + r..]));
  }

  lemma SplitEnd(ch: seq<nat>, done: seq<nat>)
    requires Split(ch, done, |ch|)
    ensures Items(ch) == done + [0]
  {
    assert ch[|ch|..] == [];
  }

  /** The table so far: the items, as long as the next ones fit, and nothing stored beyond tlen. */
  ghost predicate Stored(tbl: seq<nat>, was: seq<nat>, tlen: nat, done: seq<nat>, tp: nat) {
    && |tbl| == |was| && tlen <= |tbl|
    && (|done| + 2 <= tlen ==> tp == 1 + |done| && tbl[1..1 + |done|] == done)
    && forall i :: 1 <= i < |tbl| && i >= tlen ==> tbl[i] == was[i]
  }

  lemma StoredNext(tbl: seq<nat>, was: seq<nat>, tlen: nat, done: seq<nat>, tp: nat, ncl: nat, tcl: nat)
    requires Stored(tbl, was, tlen, done, tp)
    ensures |done| + 4 <= tlen ==> tp + 1 < |tbl|
    ensures if |done| + 4 <= tlen then Stored(tbl[tp := ncl][tp + 1 := tcl], was, tlen, done + [ncl, tcl], tp + 2)
            else Stored(tbl, was, tlen, done + [ncl, tcl], tp)
  {
    if |done| + 4 <= tlen {
      var t' := tbl[tp := ncl][tp + 1 := tcl];
      assert t'[1..1 + |done|] == tbl[1..1 + |done|];
      assert t'[1..1 + |done| + 2] == t'[1..1 + |done|] + [ncl, tcl];
    }
  }

  lemma StoredEnd(tbl: seq<nat>, was: seq<nat>, tlen: nat, done: seq<nat>, tp: nat, ulen: nat)
    requires Stored(tbl, was, tlen, done, tp) && |tbl| >= 1 && ulen == |done| + 2
    ensures ulen <= tlen ==> tp < |tbl| && tp >= 1 && tbl[0 := ulen][tp := 0][1..1 + |done| + 1] == done + [0]
    ensures forall i :: 1 <= i < |tbl| && i >= tlen ==> tbl[i] == was[i]
  {
    if ulen <= tlen {
      var t' := tbl[0 := ulen][tp := 0];
      assert t'[1..1 + |done|] == tbl[1..1 + |done|];
      assert t'[1..1 + |done| + 1] == t'[1..1 + |done|] + [0];
    }
  }

  /** One fragment of the chain, from its cluster number p on. */
  method Fragment(fs: FATFS, cl0: nat, ghost ch: seq<nat>, ghost p: nat) returns (ok: bool, ncl: nat, cl: nat)
    requires fs.Valid() && fs.disk.reliable && IsChain(FatOf(fs), ch) && p < |ch| && cl0 == ch[p]
    modifies fs`winsect, fs`wflag, fs.win, fs.disk
    ensures fs.Valid() && fs.View() == old(fs.View())
    ensures ok ==> ncl == RunFrom(ch[p..], 1) && p + ncl <= |ch| && !(p + ncl == |ch| && FalseRun(FatOf(fs), ch))
    ensures ok ==> if p + ncl < |ch| then cl == ch[p + ncl] && cl < fs.g.nFatent else cl >= fs.g.nFatent
    ensures !ok ==> FalseRun(FatOf(fs), ch)
    ensures fs.winsect == old(fs.winsect) || InFat(fs.g, fs.winsect)
  {
    hide FATFS.Valid, FATFS.View, Fat, InFat, RunFrom, IsChain;
    ghost var rest := ch[p..];
    ghost var fat := FatOf(fs);
    var pcl: nat;
    cl, ncl := cl0, 0;
    ghost var off := false;
    while true
      invariant fs.Valid() && fs.View() == old(fs.View())
      invariant fs.winsect == old(fs.winsect) || InFat(fs.g, fs.winsect)
      invariant p + ncl <= |ch|
      invariant p + ncl < |ch| ==> cl == ch[p + ncl] && RunFrom(rest, ncl + 1) == RunFrom(rest, 1)
      invariant p + ncl == |ch| ==> cl >= fs.g.nFatent && FalseRun(fat, ch)
      decreases |ch| - p - ncl
    {
      if p + ncl < |ch| {
        LinkInChain(fat, ch, p + ncl);
        RunStep(rest, ncl + 1);
      }
      pcl := cl;
      ncl := ncl + 1;
      cl := GetFat(fs, cl);
      if cl <= 1 {
        return false, ncl, cl;
      }
      if cl == 0xFFFF_FFFF {
        return false, ncl, cl;
      }
      if cl != pcl + 1 {
        break;
      }
    }
    ok := true;
  }

  lemma RunStep(ch: seq<nat>, k: nat)
    requires 0 < k <= |ch|
    ensures RunFrom(ch, k) == if k < |ch| && ch[k] == ch[k - 1] + 1 then RunFrom(ch, k + 1) else k
  {
  }

  /** CREATE_LINKMAP: build the link map of the file's chain in tbl, whose first item holds its
      size. The size needed is reported even when the table is too small for it. */
  method CreateLinkMap(fs: FATFS, sclust: nat, tbl: array<nat>, ghost ch: seq<nat>) returns (res: FResult)
    requires fs.Valid() && fs.disk.reliable
    requires if sclust == 0 then ch == [] else ch != [] && ch[0] == sclust && IsChain(FatOf(fs), ch)
    requires tbl.Length >= 1 && tbl[0] <= tbl.Length
    modifies tbl, fs`winsect, fs`wflag, fs.win, fs.disk
    ensures fs.Valid() && fs.View() == old(fs.View())
    ensures fs.winsect == old(fs.winsect) || InFat(fs.g, fs.winsect)
    ensures res == IntErr <==> ch != [] && FalseRun(FatOf(fs), ch)
    ensures res != IntErr ==>
              && tbl[0] == 1 + |Items(ch)|
              && res == (if 1 + |Items(ch)| <= old(tbl[0]) then OK else NotEnoughCore)
    ensures res == OK ==> HoldsMap(tbl[..], ch)
    ensures forall i :: 1 <= i < tbl.Length && i >= old(tbl[0]) ==> tbl[i] == old(tbl[i])
  {
    hide FATFS.Valid, FATFS.View, Fat, InFat, RunFrom, IsChain, Items, Split, Stored;
    var tlen, tp, ulen := tbl[0], 1, 2;
    var cl := sclust;
    ghost var done: seq<nat>, p: nat := [], 0;
    ghost var was := tbl[..];
    res := OK;
    NothingStored(was, tlen, ch);
    if cl != 0 {
      LinkInChain(FatOf(fs), ch, 0);
      while true
        invariant fs.Valid() && fs.View() == old(fs.View())
        invariant fs.winsect == old(fs.winsect) || InFat(fs.g, fs.winsect)
        invariant p < |ch| && cl == ch[p] && Split(ch, done, p)
        invariant ulen == 2 + |done| && Stored(tbl[..], was, tlen, done, tp)
        decreases |ch| - p
      {
        var tcl := cl;
        ulen := ulen + 2;
        SplitNext(ch, done, p);
        var ok, ncl, nxt := Fragment(fs, cl, ch, p);
        cl := nxt;
        if !ok {
          StoredEnd(tbl[..], was, tlen, done, tp, |done| + 2);
          return IntErr;
        }
        tp := StoreFragment(tbl, tlen, ulen, tp, ncl, tcl, was, done);
        done := done + [ncl, tcl];
        p := p + ncl;
        if cl >= fs.g.nFatent {
          break;
        }
      }
    }
    SplitEnd(ch, done);
    res := CloseTable(tbl, tlen, ulen, tp, was, done);
  }

  /** Store the length and top of the fragment, if they fit. */
  method StoreFragment(tbl: array<nat>, tlen: nat, ulen: nat, tp: nat, ncl: nat, tcl: nat,
                       ghost was: seq<nat>, ghost done: seq<nat>) returns (tp': nat)
    requires Stored(tbl[..], was, tlen, done, tp) && ulen == |done| + 4
    modifies tbl
    ensures Stored(tbl[..], was, tlen, done + [ncl, tcl], tp')
  {
    hide Stored;
    StoredNext(tbl[..], was, tlen, done, tp, ncl, tcl);
    tp' := tp;
    if ulen <= tlen {
      tbl[tp] := ncl;
      tbl[tp + 1] := tcl;
      tp' := tp + 2;
    }
  }

  /** Report the number of items used and terminate the table. */
  method CloseTable(tbl: array<nat>, tlen: nat, ulen: nat, tp: nat, ghost was: seq<nat>, ghost done: seq<nat>)
    returns (res: FResult)
    requires tbl.Length >= 1 && Stored(tbl[..], was, tlen, done, tp) && ulen == |done| + 2
    modifies tbl
    ensures tbl[0] == ulen && res == (if ulen <= tlen then OK else NotEnoughCore)
    ensures res == OK ==> ulen <= tbl.Length && tbl[1..ulen] == done + [0]
    ensures |was| == tbl.Length && forall i :: 1 <= i < tbl.Length && i >= tlen ==> tbl[i] == was[i]
  {
    StoredEnd(tbl[..], was, tlen, done, tp, ulen);
    res := OK;
    tbl[0] := ulen;
    if ulen <= tlen {
      tbl[tp] := 0;
    } else {
      res := NotEnoughCore;
    }
  }

  lemma NothingStored(was: seq<nat>, tlen: nat, ch: seq<nat>)
    requires |was| >= 1 && tlen <= |was|
    ensures Stored(was, was, tlen, [], 1) && Split(ch, [], 0)
  {
    assert ch[0..] == ch && was[1..1] == [];
  }

  // ----- seeking with the table -----

  /** The sector clust2sect and the sector offset give for byte x. */
  lemma MappedSector(g: Geom, ch: seq<nat>, x: nat, clust: nat)
    requires g.ss > 0 && g.csize > 0 && IsPow2(g.csize) && ClusterAt(g, ch, SecIdx(g.ss, x), clust)
    ensures BitAnd(x / g.ss, g.csize - 1) == CluOfs(g, SecIdx(g.ss, x))
    ensures SectorAt(g, ch, SecIdx(g.ss, x), First(g, clust) + CluOfs(g, SecIdx(g.ss, x)))
  {
    SectorInCluster(g, x);
    CluSplit(g, SecIdx(g.ss, x));
    SecsRun(g, ch, SecIdx(g.ss, x), 1);
    hide BitAnd, CluIdx, CluOfs, SecIdx, First, Secs;
  }

  /** The byte before a position inside a sector is in the same sector. */
  lemma SameSector(g: Geom, p: nat)
    requires g.ss > 0 && p > 0 && SecOfs(g.ss, p) != 0
    ensures SecIdx(g.ss, p - 1) == SecIdx(g.ss, p)
  {
    OffsetOf(g.ss, p);
    OffsetIs(g.ss, p - 1, SecIdx(g.ss, p), SecOfs(g.ss, p) - 1);
  }

  /** The fast-seek half of f_lseek: with the link map of the file's chain, the pointer is placed
      as the ordinary seek would place it, without reading the FAT. */
  method FastSeek(fp: FIL, tbl: array<nat>, ofs0: nat) returns (res: FResult)
    requires fp.Valid() && HoldsMap(tbl[..], fp.chain) && ofs0 < W32
    modifies fp`fptr, fp`clust, fp`dirty, fp`dsect, fp.buf, fp.fs.disk
    ensures fp.Valid() && res == fp.err && fp.Data() == old(fp.Data())
    ensures fp.fptr == if res == OK then Min(ofs0, fp.fsize) else old(fp.fptr)
    ensures FatOf(fp.fs) == old(FatOf(fp.fs))
    ensures KeepsRest(old(fp.fs.View()), fp.fs.View(), fp.fs.g, Secs(fp.fs.g, fp.chain))
  {
    hide Owns, FatOf, Secs, FATFS.View, FATFS.Valid, FIL.Base, FIL.Sound, FIL.Bytes, KeepsRest, SeekResult, SecOfs;
    hide SecIdx;
    hide HoldsMap, Placed, BitAnd, IsPow2, SectorSize, ClusterAt, SectorAt, CluOfs, First, Clust2Sect;
    KeepsRestSame(fp.fs.View(), fp.fs.g, Secs(fp.fs.g, fp.chain));
    if fp.err != OK {
      return fp.err;
    }
    res := OK;
    ghost var n := fp.fsize;
    fp.SoundFacts(n);
    var ofs := ofs0;
    if ofs > fp.fsize {
      ofs := fp.fsize;
    }
    fp.fptr := ofs;
    var dsc := 0;
    SeekNowhere(fp.fs.g, fp.chain, ofs, fp.clust);
    if ofs != 0 {
      ByteMapped(fp, ofs - 1, n);
      ByteCluster(fp.fs.g, fp.chain, ofs - 1);
      fp.clust := ClmtClust(fp.fs.g, tbl, ofs - 1, fp.chain);
      fp.SectFacts(n, SecIdx(fp.fs.g.ss, ofs - 1));
      MappedSector(fp.fs.g, fp.chain, ofs - 1, fp.clust);
      dsc := Clust2Sect(fp.fs.g, fp.clust);
      if dsc == 0 {
        return IntErr;
      }
      dsc := dsc + BitAnd((ofs - 1) / fp.fs.g.ss, fp.fs.g.csize - 1);
      MappedPlace(fp.fs.g, fp.chain, ofs, fp.clust, dsc);
    }
    fp.BufferSought(dsc, ofs, n);
  }

  lemma MappedPlace(g: Geom, ch: seq<nat>, p: nat, clust: nat, dsc: nat)
    requires g.ss > 0 && p > 0 && ClusterAt(g, ch, SecIdx(g.ss, p - 1), clust)
    requires SectorAt(g, ch, SecIdx(g.ss, p - 1), dsc)
    ensures SeekResult(g, ch, p, p, clust, dsc)
  {
    hide SecIdx, SecOfs, Secs, CluIdx;
    if SecOfs(g.ss, p) != 0 {
      SameSector(g, p);
    }
  }

  /** A byte of the file has a cluster in its chain. */
  lemma ByteMapped(fp: FIL, x: nat, n: nat)
    requires fp.Base(n) && x < n
    ensures ByteClu(fp.fs.g, x) < |fp.chain|
  {
    fp.SoundFacts(n);
    fp.SeekBound(n);
    hide FIL.Base, FIL.Sound, IsPow2, SectorSize;
    ByteCluIs(fp.fs.g, x);
    DivLess(x, Bcs(fp.fs.g), |fp.chain|);
  }

  lemma ByteCluster(g: Geom, ch: seq<nat>, x: nat)
    requires g.ss > 0 && g.csize > 0 && ByteClu(g, x) < |ch|
    ensures ByteClu(g, x) == x / g.ss / g.csize
    ensures ClusterAt(g, ch, SecIdx(g.ss, x), ch[ByteClu(g, x)])
  {
  }
}
