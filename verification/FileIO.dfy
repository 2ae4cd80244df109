/** Open files: f_read, f_write, f_lseek and f_truncate over a private sector buffer. */
module FileIO {
  import opened Arith
  import opened Volume
  import opened FatCodec
  import opened Chains
  import opened Allocator
  import opened FileImage
  import opened FileSectors

  // ----- data sectors beside the window -----

  /** A transfer of data sectors that the window does not show goes straight to the view. */
  lemma OverlayBlit(sec: Sectors, g: Geom, winsect: nat, win: seq<Byte>, dirty: bool, s: nat, cc: nat, d: seq<Byte>)
    requires Layout(g, |sec|) && g.database <= s && s + cc <= |sec| && !(s <= winsect < s + cc)
    ensures Overlay(Blit(sec, s, cc, d, g.ss), g, winsect, win, dirty)
         == Blit(Overlay(sec, g, winsect, win, dirty), s, cc, d, g.ss)
  {
    hide Chunk;
  }

  lemma OverlayData(sec: Sectors, g: Geom, winsect: nat, win: seq<Byte>, dirty: bool, s: nat, w: seq<Byte>)
    requires Layout(g, |sec|) && g.database <= s < |sec| && s != winsect
    ensures Overlay(sec, g, winsect, win, dirty)[s] == sec[s]
    ensures Overlay(sec[s := w], g, winsect, win, dirty) == Overlay(sec, g, winsect, win, dirty)[s := w]
  {
  }

  lemma UniformBlit(v: Sectors, s: nat, cc: nat, d: seq<Byte>, ss: nat)
    requires Uniform(v, ss) && |d| == cc * ss
    ensures Uniform(Blit(v, s, cc, d, ss), ss)
  {
    forall j: nat | j < cc ensures |Chunk(d, j, ss)| == ss {
      ChunkShape(d, j, cc, ss);
    }
    hide Chunk;
  }

  /** disk_write of one data sector. */
  method WriteData(fs: FATFS, buf: array<Byte>, s: nat)
    requires fs.Valid() && fs.disk.reliable && buf.Length == fs.g.ss
    requires InData(fs.g, |fs.View()|, s) && s != fs.winsect
    modifies fs.disk
    ensures fs.Valid()
    ensures s < |old(fs.View())| && fs.View() == old(fs.View())[s := buf[..]]
    ensures FatOf(fs) == old(FatOf(fs)) && (Mirrored(old(fs.View()), fs.g) ==> Mirrored(fs.View(), fs.g))
  {
    hide Sizes, Fat, Store, Mirrored;
    OverlayData(fs.disk.sec, fs.g, fs.winsect, fs.win[..], fs.wflag, s, buf[..]);
    DataFat(fs.View(), fs.View()[s := buf[..]], fs.g);
    var ok := fs.disk.Write(buf, s);
  }

  /** The FAT does not depend on data sectors. */
  lemma DataFat(v: Sectors, v': Sectors, g: Geom)
    requires |v'| == |v| && Layout(g, |v|) && Sizes(g, |v|)
    requires forall s :: 0 <= s < g.database && s < |v| ==> v'[s] == v[s]
    ensures Fat(v', g) == Fat(v, g) && (Mirrored(v, g) ==> Mirrored(v', g))
  {
    hide Sizes, Fat;
    FatFrame(v, v', g);
  }

  /** disk_write of cc data sectors. */
  method WriteDataMany(fs: FATFS, d: seq<Byte>, s: nat, cc: nat)
    requires fs.Valid() && fs.disk.reliable && |d| == cc * fs.g.ss
    requires fs.g.database <= s && s + cc <= |fs.View()| && !(s <= fs.winsect < s + cc)
    modifies fs.disk
    ensures fs.Valid()
    ensures fs.View() == Blit(old(fs.View()), s, cc, d, fs.g.ss)
    ensures FatOf(fs) == old(FatOf(fs)) && (Mirrored(old(fs.View()), fs.g) ==> Mirrored(fs.View(), fs.g))
  {
    hide Sizes, Fat, Store, Chunk, Mirrored;
    OverlayBlit(fs.disk.sec, fs.g, fs.winsect, fs.win[..], fs.wflag, s, cc, d);
    UniformBlit(fs.disk.sec, s, cc, d, fs.g.ss);
    DataFat(fs.View(), Blit(fs.View(), s, cc, d, fs.g.ss), fs.g);
    var ok := fs.disk.WriteMany(d, s, cc);
  }

  /** disk_read of one data sector. */
  method ReadData(fs: FATFS, buf: array<Byte>, s: nat)
    requires fs.Valid() && fs.disk.reliable && buf.Length == fs.g.ss && buf != fs.win
    requires InData(fs.g, |fs.View()|, s) && s != fs.winsect
    modifies buf
    ensures fs.Valid() && fs.View() == old(fs.View()) && FatOf(fs) == old(FatOf(fs))
    ensures buf[..] == fs.View()[s]
  {
    hide Sizes, Fat, Store;
    OverlayData(fs.disk.sec, fs.g, fs.winsect, fs.win[..], fs.wflag, s, buf[..]);
    var ok := fs.disk.Read(buf, s);
  }

  /** disk_read of cc data sectors to buf[off..]. */
  method ReadDataMany(fs: FATFS, buf: array<Byte>, off: nat, s: nat, cc: nat)
    requires fs.Valid() && fs.disk.reliable && off + cc * fs.g.ss <= buf.Length && buf != fs.win
    requires fs.g.database <= s && s + cc <= |fs.View()| && !(s <= fs.winsect < s + cc)
    modifies buf
    ensures fs.Valid() && fs.View() == old(fs.View()) && FatOf(fs) == old(FatOf(fs))
    ensures IsRun(buf[off..off + cc * fs.g.ss], fs.View(), s, cc, fs.g.ss)
    ensures buf[..off] == old(buf[..off]) && buf[off + cc * fs.g.ss..] == old(buf[off + cc * fs.g.ss..])
  {
    hide Sizes, Fat, Store, Chunk, IsRun;
    OverlayRun(fs.disk.sec, fs.g, fs.winsect, fs.win[..], fs.wflag, s, cc);
    var ok := fs.disk.ReadMany(buf, off, s, cc);
    RunSame(buf[off..off + cc * fs.g.ss], fs.disk.sec, fs.View(), s, cc, fs.g.ss);
  }

  lemma OverlayRun(sec: Sectors, g: Geom, winsect: nat, win: seq<Byte>, dirty: bool, s: nat, cc: nat)
    requires Layout(g, |sec|) && g.database <= s && s + cc <= |sec| && !(s <= winsect < s + cc)
    ensures forall i :: s <= i < s + cc ==> Overlay(sec, g, winsect, win, dirty)[i] == sec[i]
  {
  }

  lemma RunSame(d: seq<Byte>, v: Sectors, v': Sectors, s: nat, cc: nat, ss: nat)
    requires IsRun(d, v, s, cc, ss) && |v'| == |v| && s + cc <= |v|
    requires forall i :: s <= i < s + cc ==> v'[i] == v[i]
    ensures IsRun(d, v', s, cc, ss)
  {
    hide Chunk;
    forall j: nat | j < cc ensures ChunkIs(d, v', s, j, ss) {
      assert ChunkIs(d, v, s, j, ss);
    }
  }

  // ----- the state of an open file -----

  /** The file's chain is one chain of the volume; `others` are all further ones. */
  ghost predicate Owns(fat: seq<nat>, others: set<seq<nat>>, ch: seq<nat>, sclust: nat) {
    && ch !in others
    && Forest(fat, if ch == [] then others else others + {ch})
    && sclust == if ch == [] then 0 else ch[0]
  }

  /** The window shows neither a sector of the file nor the one in its buffer. */
  ghost predicate WindowApart(winsect: nat, secs: seq<nat>, dsect: nat) {
    winsect !in secs && (dsect != 0 ==> winsect != dsect)
  }

  /** The window shows none of the sectors `apart`, which lie outside the FAT. */
  ghost predicate AwayFrom(winsect: nat, g: Geom, apart: set<nat>) {
    winsect !in apart && forall s :: s in apart ==> !InFat(g, s)
  }

  /** The FAT copies are equal, if they are to be kept so. */
  ghost predicate CopiesEqual(keep: bool, v: Sectors, g: Geom) {
    keep ==> Mirrored(v, g)
  }

  lemma CopiesStay(keep: bool, v: Sectors, v': Sectors, g: Geom)
    requires CopiesEqual(keep, v, g) && (Mirrored(v, g) ==> Mirrored(v', g))
    ensures CopiesEqual(keep, v', g)
  {
    hide Mirrored;
  }

  /** The buffer stands for a sector of the file or for none, unless a truncation gave that sector up. */
  ghost predicate Inside(stale: bool, secs: seq<nat>, dsect: nat) {
    stale || dsect == 0 || dsect in secs
  }

  lemma InsideGrows(stale: bool, secs: seq<nat>, secs': seq<nat>, dsect: nat)
    requires Inside(stale, secs, dsect) && |secs| <= |secs'| && secs'[..|secs|] == secs
    ensures Inside(stale, secs', dsect)
  {
    if dsect in secs {
      var k :| 0 <= k < |secs| && secs[k] == dsect;
      assert secs'[k] == secs'[..|secs|][k];
    }
  }

  lemma AwayStays(w0: nat, w: nat, g: Geom, apart: set<nat>)
    requires AwayFrom(w0, g, apart) && (w == w0 || InFat(g, w))
    ensures AwayFrom(w, g, apart)
  {
    hide InFat;
  }

  /** clust is the cluster of the byte before fptr, and a partial sector at fptr is buffered. */
  ghost predicate Placed(g: Geom, ch: seq<nat>, fptr: nat, clust: nat, dsect: nat) {
    && (fptr > 0 ==> ClusterAt(g, ch, SecIdx(g.ss, fptr - 1), clust))
    && (SecOfs(g.ss, fptr) != 0 ==> SectorAt(g, ch, SecIdx(g.ss, fptr), dsect))
  }

  /** clust holds the file's sector k. */
  ghost predicate ClusterAt(g: Geom, ch: seq<nat>, k: nat, clust: nat) {
    CluIdx(g, k) < |ch| && clust == ch[CluIdx(g, k)]
  }

  /** s is the file's sector k. */
  ghost predicate SectorAt(g: Geom, ch: seq<nat>, k: nat, s: nat) {
    k < |Secs(g, ch)| && s == Secs(g, ch)[k]
  }

  /** Outside the FAT and the given sectors nothing changed. */
  ghost predicate KeepsRest(v: Sectors, v': Sectors, g: Geom, secs: seq<nat>) {
    && |v'| == |v|
    && forall s: nat :: s < |v| && !InFatArea(g, s) && s !in secs ==> v'[s] == v[s]
  }

  /** The sectors of a chain that belongs to the volume. */
  lemma OwnedSecs(g: Geom, v: Sectors, fat: seq<nat>, others: set<seq<nat>>, ch: seq<nat>, sclust: nat)
    requires Layout(g, |v|) && Sizes(g, |v|) && |fat| == g.nFatent && Owns(fat, others, ch, sclust)
    ensures ch != [] ==> IsChain(fat, ch)
    ensures Clusters(g, ch) && Distinct(ch)
    ensures Distinct(Secs(g, ch)) && OnDrive(v, Secs(g, ch))
    ensures forall k :: 0 <= k < |Secs(g, ch)| ==> InData(g, |v|, Secs(g, ch)[k])
  {
    CsizePos(g, |v|);
    OwnedChain(fat, others, ch, sclust);
    hide IsChain, Secs, Sizes, Owns;
    if ch != [] {
      ChainClusters(g, fat, ch);
    }
    SecsDistinct(g, ch);
    SecsInData(g, |v|, ch);
  }

  lemma OwnedChain(fat: seq<nat>, others: set<seq<nat>>, ch: seq<nat>, sclust: nat)
    requires Owns(fat, others, ch, sclust)
    ensures ch != [] ==> IsChain(fat, ch) && ch[0] == sclust
    ensures sclust == 0 <==> ch == []
  {
    if ch != [] {
      ForestChain(fat, others + {ch}, ch);
    }
  }

  lemma OpenFacts(fs: FATFS, ch: seq<nat>, others: set<seq<nat>>, sclust: nat)
    requires fs.Valid() && Owns(FatOf(fs), others, ch, sclust)
    ensures Distinct(Secs(fs.g, ch)) && OnDrive(fs.View(), Secs(fs.g, ch))
    ensures Uniform(fs.View(), fs.g.ss) && SectorSize(fs.g.ss)
    ensures |Secs(fs.g, ch)| == Span(fs.g, |ch|)
  {
    hide Owns, Fat, Secs, Span, Distinct, OnDrive, Sizes, Layout, Uniform;
    FsFacts(fs);
    OwnedSecs(fs.g, fs.View(), FatOf(fs), others, ch, sclust);
  }

  // ----- stretching the file's chain -----

  /** ch' is ch, possibly with further clusters behind it. */
  ghost predicate Extends(ch: seq<nat>, ch': seq<nat>) {
    |ch| <= |ch'| && ch'[..|ch|] == ch
  }

  /** create_chain behind the file's cluster i (or for its first cluster) follows or stretches its chain. */
  lemma FollowOrStretch(fat: seq<nat>, others: set<seq<nat>>, ch: seq<nat>, sclust: nat,
                        from: nat, i: nat, last: nat, ncl: nat)
    requires Owns(fat, others, ch, sclust) && CreateResult(fat, from, last, ncl) && |fat| >= 3
    requires if from == 0 then ch == [] else i < |ch| && from == ch[i]
    ensures from != 0 && i + 1 < |ch| ==> ncl == ch[i + 1] && ncl >= 2 && !Allocates(fat, from, ncl)
    ensures from == 0 || i + 1 == |ch| ==>
              if ncl == 0 then NoneFree(fat) else Allocates(fat, from, ncl) && 2 <= ncl < |fat| && fat[ncl] == 0
  {
    OwnedChain(fat, others, ch, sclust);
    NoBadLink(fat, if ch == [] then others else others + {ch});
    hide Forest, SearchResult, NoneFree, HasBadLink;
    if from != 0 {
      ChainInUse(fat, ch, from);
      LinkInChain(fat, ch, i);
    }
    if SearchResult(fat, ScanStart(from, last, |fat|), ncl) {
      CleanSearch(fat, ScanStart(from, last, |fat|), ncl);
    }
  }

  lemma LinkInChain(fat: seq<nat>, ch: seq<nat>, i: nat)
    requires IsChain(fat, ch) && i < |ch|
    ensures 2 <= ch[i] < |fat|
    ensures if i + 1 < |ch| then fat[ch[i]] == ch[i + 1] && 2 <= ch[i + 1] < |fat| else fat[ch[i]] >= |fat|
  {
  }

  lemma NoBadLink(fat: seq<nat>, cs: set<seq<nat>>)
    requires Forest(fat, cs)
    ensures !HasBadLink(fat)
  {
    forall c: nat | 2 <= c < |fat| ensures fat[c] != 1 {
      ForestEntries(fat, cs, c);
    }
    hide Forest;
  }

  /** The stretched chain still belongs to the file, and all other chains are as before. */
  lemma StretchOwns(fat: seq<nat>, others: set<seq<nat>>, ch: seq<nat>, sclust: nat, from: nat, ncl: nat, end: nat)
    requires Owns(fat, others, ch, sclust) && 2 <= ncl < |fat| && fat[ncl] == 0 && end >= |fat|
    requires if ch == [] then from == 0 else from == ch[|ch| - 1]
    ensures from < |fat|
    ensures Owns(Stretched(fat, from, ncl, end), others, ch + [ncl], if ch == [] then ncl else sclust)
  {
    hide Covered, Disjoint, AllChains, IsChain, Stretched;
    if ch == [] {
      NewChainForest(fat, others, ncl, end);
      assert ch + [ncl] == [ncl];
    } else {
      StretchForest(fat, others + {ch}, ch, ncl, end);
      ForestChain(fat, others + {ch}, ch);
      NewName(fat, others + {ch}, ch, ncl);
      assert others + {ch} - {ch} + {ch + [ncl]} == others + {ch + [ncl]};
    }
  }

  lemma NewName(fat: seq<nat>, cs: set<seq<nat>>, ch: seq<nat>, ncl: nat)
    requires Forest(fat, cs) && 2 <= ncl < |fat| && fat[ncl] == 0
    ensures ch + [ncl] !in cs
  {
    assert ncl in ch + [ncl];
    if ch + [ncl] in cs {
      NotInFree(fat, cs, ch + [ncl], ncl);
      assert false;
    }
  }

  /** What changes in the FAT copies leaves data sectors alone. */
  lemma DataKept(m: Img, v': Sectors, g: Geom, secs: seq<nat>)
    requires Layout(g, |m.v|) && SameOutsideFat(m.v, v', g)
    requires forall k :: 0 <= k < |secs| ==> InData(g, |m.v|, secs[k])
    requires m.dsect != 0 ==> InData(g, |m.v|, m.dsect)
    ensures forall s: nat :: s in secs || s == m.dsect ==> s < |v'| ==> v'[s] == m.v[s]
    ensures KeepsRest(m.v, v', g, [])
    ensures forall s: nat :: InFat(g, s) ==> s !in secs && s != m.dsect
  {
  }

  // ----- places in the file -----

  /** fptr is on a cluster boundary. */
  ghost predicate OnClusterEdge(g: Geom, p: nat) {
    SecOfs(g.ss, p) == 0 && CluOfs(g, SecIdx(g.ss, p)) == 0
  }

  /** Behind a cluster boundary the next cluster of the chain begins. */
  lemma EdgeStep(g: Geom, p: nat)
    requires g.ss > 0 && g.csize > 0 && OnClusterEdge(g, p)
    ensures CluIdx(g, SecIdx(g.ss, p)) == if p == 0 then 0 else CluIdx(g, SecIdx(g.ss, p - 1)) + 1
  {
    var k := SecIdx(g.ss, p);
    OffsetOf(g.ss, p);
    CluSplit(g, k);
    if p > 0 {
      SectorBefore(g.ss, p);
      ClusterBefore(g, k);
    } else {
      OffsetIs(g.ss, 0, 0, 0);
      CluIs(g, 0, 0, 0);
    }
  }

  lemma SectorBefore(ss: nat, p: nat)
    requires ss > 0 && p > 0 && SecOfs(ss, p) == 0
    ensures SecIdx(ss, p) > 0 && SecIdx(ss, p - 1) == SecIdx(ss, p) - 1
  {
    OffsetOf(ss, p);
    hide SecIdx, SecOfs;
    var k := SecIdx(ss, p);
    assert p == k * ss && k > 0;
    assert (k - 1) * ss == k * ss - ss;
    OffsetIs(ss, p - 1, k - 1, ss - 1);
  }

  lemma ClusterBefore(g: Geom, k: nat)
    requires g.csize > 0 && k > 0 && CluOfs(g, k) == 0
    ensures CluIdx(g, k) > 0 && CluIdx(g, k - 1) == CluIdx(g, k) - 1
  {
    CluSplit(g, k);
    hide CluIdx, CluOfs;
    var i := CluIdx(g, k);
    assert k == i * g.csize && i > 0;
    assert (i - 1) * g.csize == i * g.csize - g.csize;
    CluIs(g, k - 1, i - 1, g.csize - 1);
  }

  /** Where the pointer stands after w bytes inside the sector of p. */
  lemma PlacedPartial(g: Geom, ch: seq<nat>, p: nat, w: nat, clust: nat, dsect: nat)
    requires g.ss > 0 && 0 < w && SecOfs(g.ss, p) + w <= g.ss
    requires ClusterAt(g, ch, SecIdx(g.ss, p), clust) && SectorAt(g, ch, SecIdx(g.ss, p), dsect)
    ensures Placed(g, ch, p + w, clust, dsect) && ByteClu(g, p + w - 1) == ByteClu(g, p)
  {
    NearOffset(g.ss, p, p + w - 1);
    if SecOfs(g.ss, p) + w < g.ss {
      NearOffset(g.ss, p, p + w);
    } else {
      OffsetOf(g.ss, p);
      assert (SecIdx(g.ss, p) + 1) * g.ss == SecIdx(g.ss, p) * g.ss + g.ss;
      OffsetIs(g.ss, p + w, SecIdx(g.ss, p) + 1, 0);
    }
    hide SecIdx, SecOfs, CluIdx, Secs;
  }

  /** Where the pointer stands after cc sectors inside one cluster. */
  lemma PlacedDirect(g: Geom, ch: seq<nat>, p: nat, cc: nat, clust: nat, dsect: nat)
    requires g.ss > 0 && g.csize > 0 && 0 < cc && SecOfs(g.ss, p) == 0
    requires CluOfs(g, SecIdx(g.ss, p)) + cc <= g.csize
    requires ClusterAt(g, ch, SecIdx(g.ss, p), clust)
    ensures cc * g.ss > 0 && Placed(g, ch, p + cc * g.ss, clust, dsect)
    ensures ByteClu(g, p + cc * g.ss - 1) == ByteClu(g, p)
  {
    var k := SecIdx(g.ss, p);
    OffsetOf(g.ss, p);
    CluSplit(g, k);
    hide SecIdx, SecOfs, CluIdx, CluOfs, Secs;
    assert (k + cc) * g.ss == k * g.ss + cc * g.ss;
    assert (k + cc - 1) * g.ss == (k + cc) * g.ss - g.ss;
    MulMonotone(1, cc, g.ss);
    OffsetIs(g.ss, p + cc * g.ss, k + cc, 0);
    OffsetIs(g.ss, p + cc * g.ss - 1, k + cc - 1, g.ss - 1);
    CluIs(g, k + cc - 1, CluIdx(g, k), CluOfs(g, k) + cc - 1);
  }

  lemma BlitKeeps(v: Sectors, g: Geom, sect: nat, cc: nat, d: seq<Byte>, secs: seq<nat>)
    requires forall s: nat :: sect <= s < sect + cc ==> s in secs
    ensures KeepsRest(v, Blit(v, sect, cc, d, g.ss), g, secs)
  {
    hide Chunk;
  }

  /** mem_cpy of a whole sector. */
  method CopyAll(buf: array<Byte>, d: seq<Byte>)
    requires |d| == buf.Length
    modifies buf
    ensures buf[..] == d
  {
    CopyIn(buf, 0, d);
  }

  lemma KeepsRestTrans(v: Sectors, v1: Sectors, v2: Sectors, g: Geom, a: seq<nat>, b: seq<nat>)
    requires KeepsRest(v, v1, g, a) && KeepsRest(v1, v2, g, b) && (a == [] || a == b)
    ensures KeepsRest(v, v2, g, b)
  {
  }

  lemma KeepsRestWeaken(v: Sectors, v1: Sectors, g: Geom, b: seq<nat>)
    requires KeepsRest(v, v1, g, [])
    ensures KeepsRest(v, v1, g, b)
  {
  }

  /** `fptr / SS & (csize - 1)` is the sector's place in its cluster. */
  lemma SectorInCluster(g: Geom, p: nat)
    requires g.ss > 0 && IsPow2(g.csize) && g.csize > 0
    ensures BitAnd(p / g.ss, g.csize - 1) == CluOfs(g, SecIdx(g.ss, p))
  {
    MaskIsMod(p / g.ss, g.csize);
    hide BitAnd;
  }

  /** At a sector boundary inside a cluster, the pointer's cluster is the sector's. */
  lemma InnerStep(g: Geom, ch: seq<nat>, p: nat, clust: nat, dsect: nat)
    requires g.ss > 0 && g.csize > 0 && Placed(g, ch, p, clust, dsect)
    requires SecOfs(g.ss, p) == 0 && CluOfs(g, SecIdx(g.ss, p)) != 0
    ensures ClusterAt(g, ch, SecIdx(g.ss, p), clust)
  {
    var k := SecIdx(g.ss, p);
    if p == 0 {
      OffsetIs(g.ss, 0, 0, 0);
      CluIs(g, 0, 0, 0);
    }
    SectorBefore(g.ss, p);
    CluSplit(g, k);
    CluIs(g, k - 1, CluIdx(g, k), CluOfs(g, k) - 1);
    hide SecIdx, SecOfs, CluIdx, CluOfs, Secs;
  }

  lemma DirectFits(len: nat, ss: nat, cc: nat)
    requires ss > 0 && cc <= len / ss
    ensures cc * ss <= len
  {
    MulMonotone(cc, len / ss, ss);
  }

  lemma KeepsRestGrow(v: Sectors, v1: Sectors, v2: Sectors, g: Geom, ch0: seq<nat>, ch1: seq<nat>, ch2: seq<nat>)
    requires KeepsRest(v, v1, g, Secs(g, ch1)) && KeepsRest(v1, v2, g, Secs(g, ch2))
    requires Extends(ch0, ch1) && Extends(ch1, ch2) && g.csize > 0
    ensures KeepsRest(v, v2, g, Secs(g, ch2)) && Extends(ch0, ch2)
  {
    SecsPrefix(g, ch1, ch2);
    hide Secs;
    forall s | s in Secs(g, ch1) ensures s in Secs(g, ch2) {
      assert Secs(g, ch2)[..|Secs(g, ch1)|] == Secs(g, ch1);
    }
  }

  lemma SpliceNone(c: seq<Byte>, p: nat)
    requires p <= |c|
    ensures Splice(c, p, []) == c
  {
  }

  /** Writing wcnt further bytes of wbuff behind its first bw. */
  lemma WriteMore(c: seq<Byte>, p: nat, wbuff: seq<Byte>, bw: nat, wcnt: nat)
    requires p <= |c| && bw + wcnt <= |wbuff|
    ensures Splice(Splice(c, p, wbuff[..bw]), p + bw, wbuff[bw..][..wcnt]) == Splice(c, p, wbuff[..bw + wcnt])
  {
    SpliceSplice(c, p, wbuff[..bw], wbuff[bw..][..wcnt]);
    assert wbuff[..bw] + wbuff[bw..][..wcnt] == wbuff[..bw + wcnt];
  }

  /** mem_cpy into the stretch of len bytes at off. */
  method PatchIn(rbuff: array<Byte>, off: nat, len: nat, at: nat, b: seq<Byte>)
    requires off + len <= rbuff.Length && at + |b| <= len
    modifies rbuff
    ensures rbuff[off..off + len] == Splice(old(rbuff[off..off + len]), at, b)
    ensures rbuff[..off] == old(rbuff[..off]) && rbuff[off + len..] == old(rbuff[off + len..])
  {
    forall i | 0 <= i < |b| {
      rbuff[off + at + i] := b[i];
    }
  }

  /** rcnt further bytes of c arrive behind the first br. */
  lemma ReadMore(out0: seq<Byte>, out: seq<Byte>, out': seq<Byte>, c: seq<Byte>, p: nat, br: nat, rcnt: nat)
    requires br + rcnt <= |out| == |out'| == |out0| && p + br + rcnt <= |c|
    requires out[..br] == c[p..p + br] && out[br..] == out0[br..]
    requires out'[..br] == out[..br] && out'[br + rcnt..] == out[br + rcnt..]
    requires out'[br..br + rcnt] == c[p + br..p + br + rcnt]
    ensures out'[..br + rcnt] == c[p..p + (br + rcnt)] && out'[br + rcnt..] == out0[br + rcnt..]
  {
    assert out'[..br + rcnt] == out'[..br] + out'[br..br + rcnt];
    assert c[p..p + (br + rcnt)] == c[p..p + br] + c[p + br..p + br + rcnt];
    assert out[br + rcnt..] == out[br..][rcnt..] && out0[br + rcnt..] == out0[br..][rcnt..];
  }

  /** Bytes per cluster. */
  function Bcs(g: Geom): nat {
    g.csize * g.ss
  }

  lemma TimesNext(i: nat, b: nat)
    ensures Times(i + 1, b) == Times(i, b) + b
  {
  }

  lemma TimesLess(i: nat, j: nat, b: nat)
    requires Times(i, b) < Times(j, b)
    ensures i < j
  {
    if j <= i {
      MulMonotone(j, i, b);
      assert false;
    }
  }

  lemma ExtendsSame(a: seq<nat>)
    ensures Extends(a, a)
  {
  }

  lemma ChainsExtend(a: seq<nat>, b: seq<nat>, c: seq<nat>)
    requires Extends(a, b) && Extends(b, c)
    ensures Extends(a, c)
  {
    assert c[..|a|] == c[..|b|][..|a|];
  }

  /** Position in the chain of byte x's cluster. */
  function ByteClu(g: Geom, x: nat): nat {
    CluIdx(g, SecIdx(g.ss, x))
  }

  /** Byte y of cluster number i of the chain. */
  lemma ByteInCluster(g: Geom, x: nat, i: nat, y: nat)
    requires g.ss > 0 && g.csize > 0 && x == Times(i, Bcs(g)) + y && y < Bcs(g)
    ensures ByteClu(g, x) == i && CluOfs(g, SecIdx(g.ss, x)) == y / g.ss < g.csize && SecOfs(g.ss, x) == y % g.ss
  {
    var k, r := y / g.ss, y % g.ss;
    DivLess(y, g.ss, g.csize);
    assert y == k * g.ss + r;
    assert i * (g.csize * g.ss) == (i * g.csize) * g.ss;
    assert (i * g.csize + k) * g.ss == (i * g.csize) * g.ss + k * g.ss;
    OffsetIs(g.ss, x, i * g.csize + k, r);
    CluIs(g, i * g.csize + k, i, k);
  }

  lemma ByteCluIs(g: Geom, x: nat)
    requires g.ss > 0 && g.csize > 0
    ensures Bcs(g) > 0 && ByteClu(g, x) == x / Bcs(g)
    ensures x == Times(ByteClu(g, x), Bcs(g)) + x % Bcs(g)
  {
    MulMonotone(1, g.csize, g.ss);
    var b := Bcs(g);
    assert x == (x / b) * b + x % b;
    ByteInCluster(g, x, x / b, x % b);
  }

  /** A pointer on a cluster boundary behind the last cluster is at the end of the chain. */
  lemma EdgeAtEnd(g: Geom, n: nat, p: nat)
    requires g.ss > 0 && g.csize > 0 && OnClusterEdge(g, p)
    requires if p == 0 then n == 0 else ByteClu(g, p - 1) + 1 == n
    ensures p == Times(n, Bcs(g))
  {
    EdgeStep(g, p);
    OffsetOf(g.ss, p);
    CluSplit(g, SecIdx(g.ss, p));
    hide SecIdx, CluIdx, CluOfs, SecOfs;
    assert n * g.csize * g.ss == n * (g.csize * g.ss);
  }

  /** f_lseek's place: at p <= t, with clust the cluster of byte p - 1 and nsect the sector of a partial one. */
  ghost predicate SeekResult(g: Geom, ch: seq<nat>, t: nat, p: nat, clust: nat, nsect: nat) {
    && p <= t
    && (p > 0 ==> ClusterAt(g, ch, SecIdx(g.ss, p - 1), clust))
    && (SecOfs(g.ss, p) != 0 ==> SectorAt(g, ch, SecIdx(g.ss, p), nsect))
  }

  lemma SeekNowhere(g: Geom, ch: seq<nat>, t: nat, clust: nat)
    requires g.ss > 0
    ensures SeekResult(g, ch, t, 0, clust, 0)
  {
  }

  lemma SeekEnd(g: Geom, ch: seq<nat>, i: nat, ofs: nat, t: nat, clust: nat)
    requires g.ss > 0 && g.csize > 0 && i < |ch| && clust == ch[i] && 0 < ofs <= Bcs(g)
    requires Times(i, Bcs(g)) + ofs <= t
    ensures var p := Times(i, Bcs(g)) + ofs;
            && ByteClu(g, p - 1) == i
            && (ofs == Bcs(g) ==> SecOfs(g.ss, ofs) == 0)
            && (SecOfs(g.ss, ofs) == 0 ==> SeekResult(g, ch, t, p, clust, 0))
            && (SecOfs(g.ss, ofs) != 0 ==>
                  && ClusterAt(g, ch, SecIdx(g.ss, p), clust)
                  && SeekResult(g, ch, t, p, clust, First(g, clust) + SecIdx(g.ss, ofs)))
  {
    var p := Times(i, Bcs(g)) + ofs;
    ByteInCluster(g, p - 1, i, ofs - 1);
    if ofs == Bcs(g) {
      DivModUnique(ofs, g.ss, g.csize, 0);
      TimesNext(i, Bcs(g));
      ByteInCluster(g, p, i + 1, 0);
      DivModUnique(0, g.ss, 0, 0);
    } else {
      ByteInCluster(g, p, i, ofs);
      SecsRun(g, ch, SecIdx(g.ss, p), 1);
    }
    hide CluIdx, CluOfs, SecIdx, SecOfs, First, Secs, Times, Bcs;
  }

  /** The number of bytes per cluster is a power of two. */
  lemma BcsFacts(g: Geom)
    requires SectorSize(g.ss) && IsPow2(g.csize) && 0 < g.csize <= 128
    ensures IsPow2(Bcs(g)) && 0 < Bcs(g) < W32
  {
    MulMonotone(1, g.csize, g.ss);
    MulMonotone(g.csize, 128, g.ss);
    Pow2Times16(1);
    Pow2Times16(16);
    Pow2Double(256);
    Pow2Double(512);
    Pow2Double(1024);
    Pow2Double(2048);
    Pow2Product(g.csize, g.ss);
  }

  lemma {:induction false} Pow2Product(a: nat, b: nat)
    requires IsPow2(a) && IsPow2(b)
    ensures IsPow2(a * b)
    decreases a
  {
    if a <= 1 {
    } else {
      Pow2Product(a / 2, b);
      assert a * b == 2 * (a / 2 * b);
      Pow2Double(a / 2 * b);
    }
  }

  lemma TimesZero(b: nat)
    ensures Times(0, b) == 0
  {
  }

  /** Starting over from the current cluster: its first byte, not behind the target. */
  lemma SameOrLater(g: Geom, t: nat, x: nat)
    requires g.ss > 0 && g.csize > 0 && IsPow2(Bcs(g)) && 0 < Bcs(g) < W32 && x < W32
    requires Quotient(t, Bcs(g)) >= Quotient(x, Bcs(g))
    ensures BitAnd(x, W32 - Bcs(g)) == Times(ByteClu(g, x), Bcs(g)) <= t
  {
    ByteCluIs(g, x);
    ByteCluIs(g, t);
    ClearMask(x, Bcs(g));
    MulMonotone(ByteClu(g, x), ByteClu(g, t), Bcs(g));
    hide BitAnd, ByteClu, Bcs;
  }

  lemma PlacedCluster(g: Geom, ch: seq<nat>, p: nat, clust: nat, dsect: nat)
    requires Placed(g, ch, p, clust, dsect) && p > 0
    ensures ByteClu(g, p - 1) < |ch| && clust == ch[ByteClu(g, p - 1)]
  {
  }

  lemma SoughtPlace(g: Geom, ch: seq<nat>, t: nat, p: nat, clust: nat, nsect: nat, dsect: nat)
    requires SeekResult(g, ch, t, p, clust, nsect) && (SecOfs(g.ss, p) != 0 ==> dsect == nsect)
    ensures Placed(g, ch, p, clust, dsect) && p <= t
  {
    hide Secs, SecIdx, CluIdx;
  }

  lemma SoughtSector(g: Geom, ch: seq<nat>, t: nat, p: nat, clust: nat, nsect: nat)
    requires SeekResult(g, ch, t, p, clust, nsect) && SecOfs(g.ss, p) != 0
    ensures nsect in Secs(g, ch)
  {
    hide Secs, SecIdx, CluIdx;
  }

  lemma FptrFits(g: Geom, ch: seq<nat>, p: nat)
    requires g.ss > 0 && g.csize > 0 && p > 0 && ByteClu(g, p - 1) < |ch|
    ensures p <= Room(Secs(g, ch), g.ss)
  {
    ByteCluIs(g, p - 1);
    RoomIs(g, ch);
    var i, b := ByteClu(g, p - 1), Bcs(g);
    RestBelow(p - 1, b);
    TimesNext(i, b);
    hide ByteClu, Bcs, Times, Room, Secs;
    TimesUpTo(i + 1, |ch|, b);
  }

  lemma RestBelow(x: nat, b: nat)
    requires b > 0
    ensures x % b < b
  {
  }

  lemma TimesUpTo(i: nat, j: nat, b: nat)
    requires i <= j
    ensures Times(i, b) <= Times(j, b)
  {
    MulMonotone(i, j, b);
  }

  /** Bytes of a chain, by its clusters. */
  lemma RoomIs(g: Geom, ch: seq<nat>)
    ensures Room(Secs(g, ch), g.ss) == Times(|ch|, Bcs(g))
  {
    assert |ch| * g.csize * g.ss == |ch| * (g.csize * g.ss);
  }

  /** Number of clusters that hold the first p bytes. */
  function Kept(g: Geom, p: nat): nat {
    if p == 0 then 0 else ByteClu(g, p - 1) + 1
  }

  /** The chain was stretched no further than byte x needs, if at all. */
  ghost predicate StretchedTo(g: Geom, ch0: seq<nat>, ch: seq<nat>, x: nat) {
    ch == ch0 || ByteClu(g, x) + 1 == |ch|
  }

  lemma StretchedFurther(g: Geom, ch0: seq<nat>, ch1: seq<nat>, ch2: seq<nat>, x: nat, y: nat)
    requires g.ss > 0 && g.csize > 0 && StretchedTo(g, ch0, ch1, x) && StretchedTo(g, ch1, ch2, y)
    requires x <= y && ByteClu(g, y) < |ch2|
    ensures StretchedTo(g, ch0, ch2, y)
  {
    ByteCluIs(g, x);
    ByteCluIs(g, y);
    DivMonotone(x, y, Bcs(g));
    hide ByteClu;
  }

  /** Freeing the file's whole chain. */
  lemma OwnedFreed(fat: seq<nat>, others: set<seq<nat>>, ch: seq<nat>, sclust: nat)
    requires Owns(fat, others, ch, sclust) && ch != []
    ensures 2 <= sclust < |fat| && !HitsBadLink(fat, sclust)
    ensures Owns(Unlinked(fat, sclust), others, [], 0)
  {
    OwnedChain(fat, others, ch, sclust);
    hide Covered, Disjoint, AllChains, Unlinked, HitsBadLink;
    UnlinkedChain(fat, ch);
    FreeForest(fat, others + {ch}, ch);
    assert others + {ch} - {ch} == others;
    NoEmptyChain(fat, others + {ch});
  }

  lemma NoEmptyChain(fat: seq<nat>, cs: set<seq<nat>>)
    requires Forest(fat, cs)
    ensures [] !in cs
  {
  }

  /** Cutting the file's chain behind its first k clusters and freeing the rest. */
  lemma OwnedCut(fat: seq<nat>, others: set<seq<nat>>, ch: seq<nat>, sclust: nat, k: nat, x: nat, end: nat)
    requires Owns(fat, others, ch, sclust) && 0 < k < |ch| && end >= |fat| && x == ch[k - 1] && x < |fat|
    ensures !HitsBadLink(fat[x := end], ch[k])
    ensures Owns(Unlinked(fat[x := end], ch[k]), others, ch[..k], sclust)
  {
    OwnedChain(fat, others, ch, sclust);
    hide Forest, Unlinked, HitsBadLink, IsChain, Freed;
    var a, b := ch[..k], ch[k..];
    OwnedParts(fat, others, ch, sclust, k, end);
    UnlinkedChain(fat[x := end], b);
    FreeForest(fat[x := end], others + {a} + {b}, b);
    TakenOut(others, a, b);
  }

  lemma TakenOut(others: set<seq<nat>>, a: seq<nat>, b: seq<nat>)
    requires b !in others && a != b
    ensures others + {a} + {b} - {b} == others + {a}
  {
  }

  lemma OwnedParts(fat: seq<nat>, others: set<seq<nat>>, ch: seq<nat>, sclust: nat, k: nat, end: nat)
    requires Owns(fat, others, ch, sclust) && 0 < k < |ch| && end >= |fat|
    ensures 2 <= ch[k - 1] < |fat| && IsChain(fat[ch[k - 1] := end], ch[k..])
    ensures Forest(fat[ch[k - 1] := end], others + {ch[..k]} + {ch[k..]})
    ensures ch[..k] !in others && ch[k..] !in others && ch[..k] != ch[k..]
  {
    OwnedChain(fat, others, ch, sclust);
    hide Forest, IsChain;
    CutForest(fat, others + {ch}, ch, k, end);
    CutChain(fat, ch, k, end);
    CutNames(fat, others, ch, sclust, k);
    assert others + {ch} - {ch} + {ch[..k], ch[k..]} == others + {ch[..k]} + {ch[k..]};
  }

  lemma CutNames(fat: seq<nat>, others: set<seq<nat>>, ch: seq<nat>, sclust: nat, k: nat)
    requires Owns(fat, others, ch, sclust) && 0 < k < |ch|
    requires forall c :: c in ch[..k] ==> c !in ch[k..]
    ensures ch[..k] !in others && ch[k..] !in others && ch[..k] != ch[k..]
  {
    hide Covered, AllChains;
    var a, b := ch[..k], ch[k..];
    var x, y := a[0], b[0];
    assert x == ch[0] && x in a && x in ch;
    assert y == ch[k] && y in b && y in ch;
    if a in others { NotShared(others + {ch}, a, ch, x); assert false; }
    if b in others { NotShared(others + {ch}, b, ch, y); assert false; }
  }

  /** Making an in-use cluster the end of its chain frees nothing. */
  lemma CutCount(fat: seq<nat>, c: nat, end: nat)
    requires 2 <= c < |fat| && fat[c] != 0 && end != 0
    ensures CountFree(fat[c := end], 2) == CountFree(fat, 2)
  {
    hide CountFree;
    CountFreeUpdate(fat, c, end, 2);
  }

  lemma FlushKeeps(v0: Sectors, v: Sectors, g: Geom, secs: seq<nat>, s: nat, w: seq<Byte>)
    requires KeepsRest(v0, v, g, secs) && s in secs && s < |v|
    ensures KeepsRest(v0, v[s := w], g, secs)
  {
  }

  /** A pointer stays in place when the clusters behind it are cut off. */
  lemma PlacedCut(g: Geom, ch: seq<nat>, p: nat, clust: nat, dsect: nat)
    requires g.ss > 0 && g.csize > 0 && Placed(g, ch, p, clust, dsect) && Kept(g, p) <= |ch|
    ensures Placed(g, ch[..Kept(g, p)], p, clust, dsect)
    ensures p <= Room(Secs(g, ch[..Kept(g, p)]), g.ss)
  {
    var ch' := ch[..Kept(g, p)];
    if p > 0 {
      FptrFits(g, ch', p);
    } else {
      OffsetIs(g.ss, 0, 0, 0);
    }
    if SecOfs(g.ss, p) != 0 {
      OffsetOf(g.ss, p);
      OffsetIs(g.ss, p - 1, SecIdx(g.ss, p), SecOfs(g.ss, p) - 1);
      SecsRun(g, ch', SecIdx(g.ss, p), 1);
      SecsRun(g, ch, SecIdx(g.ss, p), 1);
      CluSplit(g, SecIdx(g.ss, p));
    }
    hide Secs, SecIdx, SecOfs, CluIdx, CluOfs, Room, First;
  }

  lemma ContentPrefix(m: Img, p: nat, n: nat)
    requires p <= n
    ensures Content(m, p) == Content(m, n)[..p]
  {
    hide ByteOf;
  }

  /** After the FAT part of f_truncate the file's data is still what it was. */
  lemma Released(m: Img, ch0: seq<nat>, w0: nat, w: nat, v': Sectors, g: Geom, ch: seq<nat>, n: nat)
    requires ImgOk(m) && n <= Capacity(m) && m.secs == Secs(g, ch0) && m.ss == g.ss
    requires Layout(g, |m.v|) && SameOutsideFat(m.v, v', g) && Uniform(v', m.ss)
    requires forall k :: 0 <= k < |m.secs| ==> InData(g, |m.v|, m.secs[k])
    requires m.dsect != 0 ==> InData(g, |m.v|, m.dsect)
    requires WindowApart(w0, m.secs, m.dsect) && (w == w0 || InFat(g, w))
    ensures var m1 := m.(v := v');
            && |v'| == |m.v| && ImgOk(m1) && Content(m1, n) == Content(m, n) && n <= Capacity(m1)
            && KeepsRest(m.v, v', g, m.secs)
            && WindowApart(w, m.secs, m.dsect)
            && (m.dirty ==> m.dsect in m.secs && m.dsect != 0 && m.dsect != w && InData(g, |v'|, m.dsect))
  {
    hide Secs, Uniform, Distinct, Room, Content;
    DataKept(m, v', g, m.secs);
    Extended(m, v', m.secs, n);
  }

  lemma InSecs(g: Geom, ch: seq<nat>, k: nat, s: nat)
    requires SectorAt(g, ch, k, s)
    ensures s in Secs(g, ch)
  {
    hide Secs;
  }

  lemma KeepsRestSame(v: Sectors, g: Geom, secs: seq<nat>)
    ensures KeepsRest(v, v, g, secs)
  {
  }

  class FIL {
    const fs: FATFS
    const buf: array<Byte>
    const canRead: bool      // opened with FA_READ
    const canWrite: bool     // opened with FA_WRITE
    var dirty: bool          // FA__DIRTY: buf is newer than sector dsect
    var written: bool        // FA__WRITTEN: the file changed since it was opened or synced
    var err: FResult         // abort flag
    var fptr: nat            // read/write pointer
    var fsize: nat           // file size
    var sclust: nat          // first cluster, 0 when there is none
    var clust: nat           // cluster of the byte before fptr
    var dsect: nat           // sector appearing in buf, 0 when none does
    ghost var chain: seq<nat>
    ghost var others: set<seq<nat>>
    ghost var apart: set<nat>   // further sectors the window is to stay away from
    ghost var stale: bool       // a truncation may have given up the buffered sector
    ghost var mirrored: bool    // the FAT copies are to be kept equal

    ghost function Img(): Img
      reads this`chain, this`dirty, this`dsect, buf, fs`winsect, fs`wflag, fs.win, fs.disk
    {
      FileImage.Img(fs.View(), fs.g.ss, Secs(fs.g, chain), dirty, dsect, buf[..])
    }

    /** Everything but the buffer's coherence and the place of fptr; n is the length in use. */
    ghost predicate Sound(n: nat)
      reads this`chain, this`others, this`apart, this`stale, this`mirrored, this`sclust, this`dirty, this`dsect
      reads buf, fs`winsect, fs`wflag, fs.win, fs.disk
    {
      && fs.Valid() && fs.disk.reliable && buf != fs.win
      && Owns(FatOf(fs), others, chain, sclust)
      && Shaped(Img()) && n <= Capacity(Img())
      && (dsect != 0 ==> InData(fs.g, |fs.View()|, dsect))
      && WindowApart(fs.winsect, Secs(fs.g, chain), dsect) && AwayFrom(fs.winsect, fs.g, apart)
      && Inside(stale, Secs(fs.g, chain), dsect) && CopiesEqual(mirrored, fs.View(), fs.g)
      && n < W32
    }

    ghost predicate Base(n: nat)
      reads this`chain, this`others, this`apart, this`stale, this`mirrored, this`sclust, this`dirty, this`dsect
      reads buf, fs`winsect, fs`wflag, fs.win, fs.disk
    {
      Sound(n) && Coherent(Img())
    }

    ghost predicate Valid()
      reads this, buf, fs`winsect, fs`wflag, fs.win, fs.disk
    {
      Base(fsize) && fptr <= fsize && Placed(fs.g, chain, fptr, clust, dsect)
    }

    /** The buffer stands for a sector of the file, or for none. */
    ghost predicate BufferInside()
      reads this`dsect, this`chain
    {
      dsect == 0 || dsect in Secs(fs.g, chain)
    }

    /** fptr is at the end of the last allocated cluster. */
    ghost predicate AtChainEnd()
      reads this`chain, this`fptr
    {
      fptr == Times(|chain|, Bcs(fs.g))
    }

    /** The first n bytes of the file. */
    ghost function Bytes(n: nat): (c: seq<Byte>)
      reads this`chain, this`dirty, this`dsect, buf, fs`winsect, fs`wflag, fs.win, fs.disk
      ensures |c| == n
    {
      Content(Img(), n)
    }

    /** The file's bytes. */
    ghost function Data(): (c: seq<Byte>)
      reads this`chain, this`dirty, this`dsect, this`fsize, buf, fs`winsect, fs`wflag, fs.win, fs.disk
      ensures |c| == fsize
    {
      Bytes(fsize)
    }

    /** The last part of f_open: the directory entry gave the first cluster and the size. */
    constructor (fs: FATFS, canRead: bool, canWrite: bool, sclust: nat, fsize: nat,
                 ghost chain: seq<nat>, ghost others: set<seq<nat>>)
      requires fs.Valid() && fs.disk.reliable && fsize < W32
      requires Owns(FatOf(fs), others, chain, sclust) && fsize <= Room(Secs(fs.g, chain), fs.g.ss)
      requires fs.winsect !in Secs(fs.g, chain)
      ensures Valid() && fresh(buf) && this.fs == fs && this.canRead == canRead && this.canWrite == canWrite
      ensures err == OK && fptr == 0 && this.fsize == fsize && this.chain == chain && this.others == others
    {
      this.fs, this.canRead, this.canWrite := fs, canRead, canWrite;
      this.sclust, this.fsize, this.chain, this.others := sclust, fsize, chain, others;
      this.apart, this.stale, this.mirrored := {}, false, false;
      buf := new Byte[fs.g.ss](_ => 0);
      dirty, written, err, fptr, clust, dsect := false, false, OK, 0, 0, 0;
      new;
      hide *;
      Opened();
    }

    lemma Opened()
      requires fs.Valid() && fs.disk.reliable && fsize < W32 && buf != fs.win && buf.Length == fs.g.ss
      requires Owns(FatOf(fs), others, chain, sclust) && fsize <= Room(Secs(fs.g, chain), fs.g.ss)
      requires fs.winsect !in Secs(fs.g, chain)
      requires !dirty && dsect == 0 && fptr == 0 && apart == {} && !mirrored
      ensures Valid()
    {
      hide Owns, Fat, Secs, Room, Distinct, OnDrive, Uniform, FATFS.View, FATFS.Valid;
      OpenFacts(fs, chain, others, sclust);
    }

    /** A dirty buffer holds a data sector of the file, which the window does not show. */
    lemma DirtySector(n: nat)
      requires Sound(n) && dirty
      ensures dsect in Secs(fs.g, chain) && dsect != fs.winsect && InData(fs.g, |fs.View()|, dsect)
      ensures buf.Length == fs.g.ss && !InFatArea(fs.g, dsect)
    {
      hide Owns, Fat, Store, Secs, Sizes, Uniform, Distinct;
    }

    /** Write back the buffer if it is dirty. */
    method Flush(ghost n: nat)
      requires Base(n)
      modifies this`dirty, fs.disk
      ensures Base(n) && !dirty
      ensures Bytes(n) == old(Bytes(n))
      ensures KeepsRest(old(fs.View()), fs.View(), fs.g, Secs(fs.g, chain))
      ensures FatOf(fs) == old(FatOf(fs))
    {
      hide Owns, Placed, Fat, FATFS.View, FATFS.Valid, Room, Content, Secs, Uniform, Distinct, OnDrive;
      if dirty {
        DirtySector(n);
        Flushed(Img(), n);
        WriteData(fs, buf, dsect);
        dirty := false;
      }
    }

    /** The file after the FAT and possibly its own chain were changed, but no data sector was. */
    lemma Regrown(m: Img, ch0: seq<nat>, w0: nat, n: nat)
      requires fs.Valid() && fs.disk.reliable && buf != fs.win && Owns(FatOf(fs), others, chain, sclust)
      requires ImgOk(m) && n <= Capacity(m) && m.secs == Secs(fs.g, ch0) && Extends(ch0, chain)
      requires m.ss == fs.g.ss && m.dirty == dirty && m.dsect == dsect && m.buf == buf[..]
      requires SameOutsideFat(m.v, fs.View(), fs.g)
      requires dsect != 0 ==> InData(fs.g, |fs.View()|, dsect)
      requires InFat(fs.g, fs.winsect) || (fs.winsect == w0 && chain == ch0 && WindowApart(w0, m.secs, dsect))
      requires n < W32 && AwayFrom(w0, fs.g, apart) && Inside(stale, m.secs, dsect)
      requires CopiesEqual(mirrored, m.v, fs.g) && (Mirrored(m.v, fs.g) ==> Mirrored(fs.View(), fs.g))
      ensures Base(n) && Bytes(n) == Content(m, n)
      ensures KeepsRest(m.v, fs.View(), fs.g, [])
    {
      hide Owns, Fat, Secs, Room, Distinct, OnDrive, Uniform, FATFS.View, FATFS.Valid, Content, Coherent, Sizes, IsPow2;
      FsFacts(fs);
      OwnedSecs(fs.g, fs.View(), FatOf(fs), others, chain, sclust);
      CsizePos(fs.g, |fs.View()|);
      SecsPrefix(fs.g, ch0, chain);
      DataKept(m, fs.View(), fs.g, Secs(fs.g, chain));
      Extended(m, fs.View(), Secs(fs.g, chain), n);
      InsideGrows(stale, m.secs, Secs(fs.g, chain), dsect);
      AwayStays(w0, fs.winsect, fs.g, apart);
    }

    /**
     * create_chain behind cluster `from` of the file (its i-th), or for a file without clusters:
     * returns the next cluster, newly allocated if needed, or 0 when the volume is full.
     */
    method NextCluster(from: nat, ghost i: nat, ghost n: nat) returns (clst: nat)
      requires Base(n)
      requires if from == 0 then chain == [] else i < |chain| && from == chain[i]
      modifies this`sclust, this`chain, fs, fs.win, fs.disk
      ensures Base(n) && Bytes(n) == old(Bytes(n))
      ensures Extends(old(chain), chain) && KeepsRest(old(fs.View()), fs.View(), fs.g, [])
      ensures clst == 0 ==> chain == old(chain) && (from == 0 || i + 1 == |chain|) && NoneFree(FatOf(fs))
      ensures clst != 0 ==> var j := if from == 0 then 0 else i + 1;
                j < |chain| && clst == chain[j] && |chain| <= Max(j + 1, |old(chain)|)
      ensures CountKept(fs)
    {
      hide Owns, Fat, Secs, Room, Distinct, OnDrive, Uniform, FATFS.View, FATFS.Valid, Content, Sizes, IsPow2;
      hide CreateResult, Allocates, NoneFree, IsChain, Stretched, EndMark, SameOutsideFat, InFat, FreeExact, Mirrored;
      hide SectorSize;
      ghost var fat, m := FatOf(fs), Img();
      ViewFacts(fs);
      OwnedChain(fat, others, chain, sclust);
      clst := CreateChain(fs, from);
      FollowOrStretch(fat, others, chain, sclust, from, i, old(fs.lastClust), clst);
      if Allocates(fat, from, clst) {
        StretchOwns(fat, others, chain, sclust, from, clst, EndMark(fs.g.fsType));
        chain := chain + [clst];
      }
      SameOutside(m.v, m.v, m.v, fs.g);
      if clst != 0 && sclust == 0 {
        sclust := clst;
      }
      Regrown(m, old(chain), old(fs.winsect), n);
    }

    /** Find the cluster that byte fptr goes to, stretching the chain if it is at its end. */
    method LocateForWrite(ghost n: nat) returns (ok: bool)
      requires Base(n) && Placed(fs.g, chain, fptr, clust, dsect) && OnClusterEdge(fs.g, fptr)
      modifies this`clust, this`sclust, this`chain, fs, fs.win, fs.disk
      ensures Base(n) && Bytes(n) == old(Bytes(n))
      ensures Extends(old(chain), chain) && KeepsRest(old(fs.View()), fs.View(), fs.g, [])
      ensures ok ==> ClusterAt(fs.g, chain, SecIdx(fs.g.ss, fptr), clust) && StretchedTo(fs.g, old(chain), chain, fptr)
      ensures !ok ==> clust == old(clust) && chain == old(chain) && NoneFree(FatOf(fs)) && AtChainEnd()
      ensures CountKept(fs)
    {
      hide Owns, FatOf, Secs, Room, Distinct, OnDrive, Uniform, FATFS.View, FATFS.Valid, Content, NoneFree, FreeExact;
      hide SectorAt;
      hide SectorSize, CluIdx, SecIdx, SecOfs, CluOfs, Times, OnClusterEdge, AtChainEnd;
      Facts(n);
      EdgeStep(fs.g, fptr);
      KeepsRestSame(fs.View(), fs.g, []);
      var clst;
      if fptr == 0 {
        clst := sclust;
        if clst == 0 {
          clst := NextCluster(0, 0, n);
        }
      } else {
        clst := NextCluster(clust, CluIdx(fs.g, SecIdx(fs.g.ss, fptr - 1)), n);
      }
      ok := clst != 0;
      if ok {
        clust := clst;
      } else {
        ChainEndReached();
      }
    }

    lemma ChainEndReached()
      requires fs.g.ss > 0 && fs.g.csize > 0 && OnClusterEdge(fs.g, fptr)
      requires if fptr == 0 then chain == [] else CluIdx(fs.g, SecIdx(fs.g.ss, fptr - 1)) + 1 == |chain|
      ensures AtChainEnd()
    {
      EdgeAtEnd(fs.g, |chain|, fptr);
    }

    /** What a sound file says about its numbers. */
    lemma Facts(n: nat)
      requires Sound(n)
      ensures SectorSize(fs.g.ss) && fs.g.ss > 0 && fs.g.csize > 0 && IsPow2(fs.g.csize) && fs.g.csize <= 128
      ensures |fs.View()| < W32 && fs.win.Length == buf.Length == fs.g.ss && Uniform(fs.View(), fs.g.ss)
      ensures sclust == 0 <==> chain == []
      ensures chain != [] ==> chain[0] == sclust
      ensures chain != [] ==> IsChain(FatOf(fs), chain)
      ensures Clusters(fs.g, chain)
      ensures Layout(fs.g, |fs.View()|)
      ensures forall k :: 0 <= k < |Secs(fs.g, chain)| ==> InData(fs.g, |fs.View()|, Secs(fs.g, chain)[k])
    {
      hide Owns, Fat, Secs, Room, Distinct, OnDrive, FATFS.View, IsChain, Clusters, DataFits, RootFits, FatFits;
      hide MaxEntries;
      FsFacts(fs);
      OwnedSecs(fs.g, fs.View(), FatOf(fs), others, chain, sclust);
      OwnedChain(FatOf(fs), others, chain, sclust);
    }

    /** Fill the buffer with the sector at fptr, unless the file does not reach that far yet. */
    method FillBuffer(sect: nat, ghost n: nat)
      requires Base(n) && !dirty && n == Max(fsize, fptr)
      requires SecOfs(fs.g.ss, fptr) == 0 && SectorAt(fs.g, chain, SecIdx(fs.g.ss, fptr), sect)
      modifies this`dsect, buf
      ensures Sound(n) && Bytes(n) == old(Bytes(n)) && dsect == sect
      ensures BufHolds(Img(), fptr, n)
      ensures fs.View() == old(fs.View()) && FatOf(fs) == old(FatOf(fs))
    {
      hide Owns, Fat, Secs, Room, Distinct, Uniform, FATFS.View, FATFS.Valid, Content, SecIdx, SecOfs, SectorSize;
      hide BufHolds;
      Facts(n);
      SectorFacts(n, sect);
      ghost var m := Img();
      if dsect != sect {
        if fptr < fsize {
          ReadData(fs, buf, sect);
          Loaded(m, sect, n);
        } else {
          Stale(m, sect, buf[..], n);
        }
      }
      dsect := sect;
      if fptr < fsize || old(dsect) == sect {
        BufHoldsOwn(Img(), fptr, n);
      } else {
        BufHoldsFresh(Img(), fptr, n);
      }
    }

    /** A sector of the file is a data sector the window does not show. */
    lemma SectorFacts(n: nat, s: nat)
      requires Sound(n) && s in Secs(fs.g, chain)
      ensures s != 0 && s != fs.winsect && InData(fs.g, |fs.View()|, s) && !InFatArea(fs.g, s)
    {
      hide Owns, Fat, Secs, Store, Room, Distinct, Uniform, Sizes;
      Facts(n);
    }

    /** Put d into the buffered sector at fptr. */
    method PutBytes(d: seq<Byte>, ghost n: nat)
      requires Sound(n) && SectorAt(fs.g, chain, SecIdx(fs.g.ss, fptr), dsect) && BufHolds(Img(), fptr, n)
      requires d != [] && SecOfs(fs.g.ss, fptr) + |d| <= fs.g.ss && fptr + |d| < W32 && fptr <= n
      modifies this`dirty, buf
      ensures Base(Max(n, fptr + |d|))
      ensures Bytes(Max(n, fptr + |d|)) == Splice(old(Bytes(n)), fptr, d)
      ensures fs.View() == old(fs.View()) && FatOf(fs) == old(FatOf(fs))
    {
      hide Owns, Fat, Secs, Room, Distinct, OnDrive, Uniform, FATFS.View, FATFS.Valid, Content, SecIdx, SecOfs;
      hide SectorSize, BufHolds, Coherent;
      Facts(n);
      ghost var m := Img();
      PutPartial(m, fptr, d, n);
      var o := SecOfs(fs.g.ss, fptr);
      CopyIn(buf, o, d);
      dirty := true;
      assert buf[..] == Splice(m.buf, o, d);
    }

    /** Write cc sectors at fptr past the clean buffer. */
    method WriteDirect(d: seq<Byte>, sect: nat, cc: nat, ghost n: nat)
      requires Base(n) && !dirty && SecOfs(fs.g.ss, fptr) == 0
      requires |d| == cc * fs.g.ss && fptr + |d| < W32 && fptr <= n
      requires Contiguous(Img(), SecIdx(fs.g.ss, fptr), sect, cc) && cc > 0
      modifies this`dirty, buf, fs.disk
      ensures Base(Max(n, fptr + |d|)) && !dirty
      ensures Bytes(Max(n, fptr + |d|)) == Splice(old(Bytes(n)), fptr, d)
      ensures KeepsRest(old(fs.View()), fs.View(), fs.g, Secs(fs.g, chain))
      ensures FatOf(fs) == old(FatOf(fs))
    {
      hide Owns, Fat, Secs, Room, Distinct, OnDrive, Uniform, FATFS.View, FATFS.Valid, Content, SecIdx, SecOfs;
      hide SectorSize, Mirrored, CopiesEqual, AwayFrom, WindowApart, Inside, InData;
      hide Coherent, Chunk, Contiguous, Blit, Splice;
      Facts(n);
      ghost var m, k := Img(), SecIdx(fs.g.ss, fptr);
      OffsetOf(fs.g.ss, fptr);
      RunFacts(n, k, sect, cc);
      FileImage.DirectWrite(m, k, sect, cc, d, n);
      FsOf(n);
      WriteDataMany(fs, d, sect, cc);
      CopiesStay(mirrored, m.v, fs.View(), fs.g);
      RangeTest(dsect, sect, cc);
      if Sub32(dsect, sect) < cc {
        ChunkShape(d, dsect - sect, cc, fs.g.ss);
        CopyAll(buf, Chunk(d, dsect - sect, fs.g.ss));
        dirty := false;
      }
      BlitKeeps(m.v, fs.g, sect, cc, d, Secs(fs.g, chain));
      assert Img() == FileImage.Direct(m, sect, cc, d);
    }

    lemma SoundFacts(n: nat)
      requires Base(n)
      ensures Sound(n) && fs.g.ss > 0 && fs.g.csize > 0 && IsPow2(fs.g.csize) && fs.g.csize <= 128
      ensures SectorSize(fs.g.ss) && n < W32
    {
      hide Owns, FatOf, Secs, Room, Distinct, OnDrive, Uniform, FATFS.View, FATFS.Valid, IsPow2, SectorSize;
      Facts(n);
    }

    /** clust2sect of the current cluster. */
    lemma SectFacts(n: nat, k: nat)
      requires Base(n) && ClusterAt(fs.g, chain, k, clust)
      ensures Clust2Sect(fs.g, clust) == First(fs.g, clust) != 0
    {
      hide Owns, FatOf, Secs, Room, Distinct, OnDrive, Uniform, FATFS.View, IsPow2, SectorSize, CluIdx, Clust2Sect;
      hide First, Sizes;
      Facts(n);
      FsFacts(fs);
      Clust2SectIs(fs.g, |fs.View()|, clust);
      FirstRange(fs.g, |fs.View()|, clust);
    }

    /** The sectors of sector k's cluster from k on. */
    lemma RunContiguous(n: nat, k: nat, cc: nat)
      requires Base(n) && ClusterAt(fs.g, chain, k, clust) && CluOfs(fs.g, k) + cc <= fs.g.csize
      ensures Contiguous(Img(), k, First(fs.g, clust) + CluOfs(fs.g, k), cc)
      ensures cc > 0 ==> SectorAt(fs.g, chain, k, First(fs.g, clust) + CluOfs(fs.g, k))
    {
      hide Owns, FatOf, Secs, Room, Distinct, OnDrive, Uniform, FATFS.View, IsPow2, SectorSize, CluIdx, CluOfs, First;
      hide Sizes;
      Facts(n);
      SecsRun(fs.g, chain, k, cc);
    }

    /** A run of the file's sectors lies in the data area, away from the window. */
    lemma RunFacts(n: nat, k: nat, sect: nat, cc: nat)
      requires Sound(n) && Contiguous(Img(), k, sect, cc) && cc > 0
      ensures fs.g.database <= sect && sect + cc <= |fs.View()| < W32
      ensures !(sect <= fs.winsect < sect + cc)
      ensures forall s: nat :: sect <= s < sect + cc ==> s in Secs(fs.g, chain)
    {
      hide Owns, Fat, Secs, Store, Room, Distinct, Uniform, Sizes, Contiguous, FATFS.View, OnDrive;
      Facts(n);
      forall s: nat | sect <= s < sect + cc ensures s in Secs(fs.g, chain) && InData(fs.g, |fs.View()|, s) {
        RunMember(Img(), k, sect, cc, s);
      }
      assert InData(fs.g, |fs.View()|, sect) && InData(fs.g, |fs.View()|, sect + cc - 1);
    }

    /** At a sector boundary: find the cluster of byte fptr and write the old buffer back. */
    method ReachSector(ghost n: nat) returns (ok: bool, csect: nat)
      requires Base(n) && Placed(fs.g, chain, fptr, clust, dsect) && SecOfs(fs.g.ss, fptr) == 0
      modifies this`dirty, this`clust, this`sclust, this`chain, fs, fs.win, fs.disk
      ensures Base(n) && Bytes(n) == old(Bytes(n))
      ensures Extends(old(chain), chain) && KeepsRest(old(fs.View()), fs.View(), fs.g, Secs(fs.g, chain))
      ensures ok ==> !dirty && ClusterAt(fs.g, chain, SecIdx(fs.g.ss, fptr), clust)
      ensures if ok then StretchedTo(fs.g, old(chain), chain, fptr) else chain == old(chain)
      ensures csect == CluOfs(fs.g, SecIdx(fs.g.ss, fptr)) < fs.g.csize
      ensures !ok ==> Placed(fs.g, chain, fptr, clust, dsect) && NoneFree(FatOf(fs)) && AtChainEnd()
      ensures CountKept(fs)
    {
      hide Owns, FatOf, Secs, Room, Distinct, OnDrive, Uniform, FATFS.View, FATFS.Valid, Content, NoneFree, CountFree;
      hide FIL.Base, FIL.Sound, FIL.Bytes;
      hide SectorSize, CluIdx, SecIdx, SecOfs, CluOfs, BitAnd, IsPow2, Coherent, KeepsRest, Placed, ClusterAt, SectorAt;
      SoundFacts(n);
      ghost var v0 := fs.View();
      csect := BitAnd(fptr / fs.g.ss, fs.g.csize - 1);
      SectorInCluster(fs.g, fptr);
      CluSplit(fs.g, SecIdx(fs.g.ss, fptr));
      KeepsRestSame(v0, fs.g, []);
      ok := true;
      if csect == 0 {
        ok := LocateForWrite(n);
        if !ok {
          KeepsRestWeaken(v0, fs.View(), fs.g, Secs(fs.g, chain));
          return;
        }
      } else {
        InnerStep(fs.g, chain, fptr, clust, dsect);
      }
      ghost var v1 := fs.View();
      Flush(n);
      KeepsRestTrans(v0, v1, fs.View(), fs.g, [], Secs(fs.g, chain));
    }

    /**
     * The part of f_write's loop at a sector boundary: find the cluster, write the old buffer
     * back, and either transfer whole sectors (count > 0) or make the buffer stand for the sector.
     */
    method BeginSector(wbuff: seq<Byte>, ghost n: nat) returns (full: bool, count: nat)
      requires Base(n) && Placed(fs.g, chain, fptr, clust, dsect) && n == Max(fsize, fptr)
      requires wbuff != [] && fptr + |wbuff| < W32 && SecOfs(fs.g.ss, fptr) == 0
      modifies this`dirty, this`clust, this`sclust, this`dsect, this`chain, buf, fs, fs.win, fs.disk
      ensures Extends(old(chain), chain) && KeepsRest(old(fs.View()), fs.View(), fs.g, Secs(fs.g, chain))
      ensures full ==> count == 0 && Base(n) && Placed(fs.g, chain, fptr, clust, dsect) && Bytes(n) == old(Bytes(n))
      ensures full ==> NoneFree(FatOf(fs)) && AtChainEnd() && chain == old(chain)
      ensures !full ==> StretchedTo(fs.g, old(chain), chain, if count == 0 then fptr else fptr + count - 1)
      ensures !full && count == 0 ==>
                && Sound(n) && BufHolds(Img(), fptr, n) && Bytes(n) == old(Bytes(n))
                && ClusterAt(fs.g, chain, SecIdx(fs.g.ss, fptr), clust)
                && SectorAt(fs.g, chain, SecIdx(fs.g.ss, fptr), dsect)
      ensures !full && count > 0 ==>
                && count <= |wbuff| && Base(Max(n, fptr + count))
                && Placed(fs.g, chain, fptr + count, clust, dsect)
                && Bytes(Max(n, fptr + count)) == Splice(old(Bytes(n)), fptr, wbuff[..count])
      ensures CountKept(fs)
    {
      hide Owns, FatOf, Secs, Room, Distinct, OnDrive, Uniform, FATFS.View, FATFS.Valid, Content, NoneFree, CountFree;
      hide FIL.Base, FIL.Sound, FIL.Bytes;
      hide SectorSize, CluIdx, SecIdx, SecOfs, CluOfs, BufHolds, Contiguous, Clust2Sect, Coherent, KeepsRest, Placed;
      hide ClusterAt, SectorAt, First;
      count := 0;
      SoundFacts(n);
      ghost var v0 := fs.View();
      ghost var k := SecIdx(fs.g.ss, fptr);
      var ok, csect := ReachSector(n);
      full := !ok;
      if full {
        return;
      }
      ghost var v2 := fs.View();
      SectFacts(n, k);
      var sect := Clust2Sect(fs.g, clust) + csect;
      var cc := |wbuff| / fs.g.ss;
      if cc > 0 {
        if csect + cc > fs.g.csize {
          cc := fs.g.csize - csect;
        }
        count := cc * fs.g.ss;
        DirectFits(|wbuff|, fs.g.ss, cc);
        PlacedDirect(fs.g, chain, fptr, cc, clust, dsect);
        RunContiguous(n, k, cc);
        WriteDirect(wbuff[..count], sect, cc, n);
        KeepsRestTrans(v0, v2, fs.View(), fs.g, Secs(fs.g, chain), Secs(fs.g, chain));
      } else {
        RunContiguous(n, k, 1);
        FillBuffer(sect, n);
      }
    }

    /** One turn of f_write's loop: write the next wcnt bytes at fptr, unless the volume is full. */
    method WriteStep(wbuff: seq<Byte>, ghost n: nat) returns (full: bool, wcnt: nat)
      requires Base(n) && Placed(fs.g, chain, fptr, clust, dsect) && n == Max(fsize, fptr)
      requires wbuff != [] && fptr + |wbuff| < W32
      modifies this`dirty, this`clust, this`sclust, this`dsect, this`chain, buf, fs, fs.win, fs.disk
      ensures Extends(old(chain), chain) && KeepsRest(old(fs.View()), fs.View(), fs.g, Secs(fs.g, chain))
      ensures full ==> wcnt == 0 && NoneFree(FatOf(fs)) && AtChainEnd()
      ensures !full ==> 0 < wcnt <= |wbuff| && StretchedTo(fs.g, old(chain), chain, fptr + wcnt - 1)
      ensures full ==> chain == old(chain)
      ensures wcnt <= |wbuff| && Base(Max(n, fptr + wcnt)) && Placed(fs.g, chain, fptr + wcnt, clust, dsect)
      ensures Bytes(Max(n, fptr + wcnt)) == Splice(old(Bytes(n)), fptr, wbuff[..wcnt])
      ensures CountKept(fs)
    {
      hide Owns, FatOf, Secs, Room, Distinct, OnDrive, Uniform, FATFS.View, FATFS.Valid, Content, NoneFree, CountFree;
      hide FIL.Base, FIL.Sound, FIL.Bytes;
      hide SectorSize, CluIdx, SecIdx, CluOfs, BufHolds, Contiguous, Coherent, KeepsRest, Placed, ClusterAt, SectorAt;
      full, wcnt := false, 0;
      SoundFacts(n);
      SpliceNone(Bytes(n), fptr);
      if fptr % fs.g.ss == 0 {
        full, wcnt := BeginSector(wbuff, n);
        if full || wcnt > 0 {
          return;
        }
      } else {
        MidSector(n);
        KeepsRestSame(fs.View(), fs.g, Secs(fs.g, chain));
      }
      ghost var v1 := fs.View();
      wcnt := fs.g.ss - fptr % fs.g.ss;
      if wcnt > |wbuff| {
        wcnt := |wbuff|;
      }
      PlacedPartial(fs.g, chain, fptr, wcnt, clust, dsect);
      PutBytes(wbuff[..wcnt], n);
    }

    /** Inside a sector, the buffer shows it and clust is its cluster. */
    lemma MidSector(n: nat)
      requires Base(n) && Placed(fs.g, chain, fptr, clust, dsect) && SecOfs(fs.g.ss, fptr) != 0
      ensures ClusterAt(fs.g, chain, SecIdx(fs.g.ss, fptr), clust)
      ensures SectorAt(fs.g, chain, SecIdx(fs.g.ss, fptr), dsect)
      ensures BufHolds(Img(), fptr, n)
    {
      hide Owns, FatOf, Secs, Room, Distinct, OnDrive, Uniform, FATFS.View, CluIdx, SectorSize, BufHolds, Coherent;
      Facts(n);
      OffsetOf(fs.g.ss, fptr);
      OffsetIs(fs.g.ss, fptr - 1, SecIdx(fs.g.ss, fptr), SecOfs(fs.g.ss, fptr) - 1);
      BufHoldsOwn(Img(), fptr, n);
    }

    /** After a turn of the loop, the chain reaches as far as the byte written last. */
    lemma WrittenTo(g: Geom, ch0: seq<nat>, ch1: seq<nat>, ch2: seq<nat>, p: nat, wcnt: nat, clust: nat, dsect: nat)
      requires g.ss > 0 && g.csize > 0 && Placed(g, ch2, p + wcnt, clust, dsect)
      requires ch1 == ch0 || (p > 0 && StretchedTo(g, ch0, ch1, p - 1))
      requires if wcnt == 0 then ch2 == ch1 else StretchedTo(g, ch1, ch2, p + wcnt - 1)
      ensures ch2 == ch0 || (p + wcnt > 0 && StretchedTo(g, ch0, ch2, p + wcnt - 1))
    {
      if wcnt > 0 && ch1 != ch0 {
        PlacedCluster(g, ch2, p + wcnt, clust, dsect);
        StretchedFurther(g, ch0, ch1, ch2, p - 1, p + wcnt - 1);
      }
    }

    /** The unsigned comparison of f_write finds out whether the file would reach 4 GB. */
    lemma WrapTest(p: nat, n: nat)
      requires p < W32 && n < W32
      ensures (p + n) % W32 < p <==> p + n >= W32
    {
    }

    /** The loop of f_write. */
    method WriteLoop(wbuff: seq<Byte>) returns (bw: nat)
      requires Valid() && fptr + |wbuff| < W32
      modifies this`dirty, this`clust, this`sclust, this`dsect, this`chain, this`fptr
      modifies buf, fs, fs.win, fs.disk
      ensures bw <= |wbuff| && fptr == old(fptr) + bw
      ensures Base(Max(fsize, fptr)) && Placed(fs.g, chain, fptr, clust, dsect)
      ensures Bytes(Max(fsize, fptr)) == Splice(old(Data()), old(fptr), wbuff[..bw])
      ensures bw < |wbuff| ==> NoneFree(FatOf(fs)) && AtChainEnd()
      ensures chain == old(chain) || (fptr > 0 && ByteClu(fs.g, fptr - 1) + 1 == |chain|)
      ensures Extends(old(chain), chain) && KeepsRest(old(fs.View()), fs.View(), fs.g, Secs(fs.g, chain))
      ensures CountKept(fs)
    {
      hide Owns, FatOf, Secs, Room, Distinct, OnDrive, Uniform, FATFS.View, FATFS.Valid, Content, NoneFree, CountFree;
      hide FIL.Base, FIL.Sound, FIL.Bytes;
      hide AtChainEnd, SectorSize, CluIdx, SecIdx, CluOfs, SecOfs, Coherent, KeepsRest, Placed, ClusterAt, SectorAt;
      hide FreeExact, Splice, Extends;
      ExtendsSame(chain);
      KeepsRestSame(fs.View(), fs.g, Secs(fs.g, chain));
      SoundFacts(fsize);
      ghost var p, c, v0, ch0 := fptr, Data(), fs.View(), chain;
      SpliceNone(c, p);
      var btw := |wbuff|;
      bw := 0;
      var full := false;
      while btw > 0 && !full
        invariant fptr == p + bw && bw <= |wbuff| && bw + btw == |wbuff|
        invariant Base(Max(fsize, fptr)) && Placed(fs.g, chain, fptr, clust, dsect)
        invariant Bytes(Max(fsize, fptr)) == Splice(c, p, wbuff[..bw])
        invariant full ==> NoneFree(FatOf(fs)) && AtChainEnd()
        invariant chain == ch0 || (fptr > 0 && StretchedTo(fs.g, ch0, chain, fptr - 1))
        invariant Extends(ch0, chain) && KeepsRest(v0, fs.View(), fs.g, Secs(fs.g, chain))
        invariant CountKept(fs)
        decreases if full then 0 else 1, btw
      {
        ghost var v1, ch1 := fs.View(), chain;
        var wcnt;
        full, wcnt := WriteStep(wbuff[bw..], Max(fsize, fptr));
        WriteMore(c, p, wbuff, bw, wcnt);
        KeepsRestGrow(v0, v1, fs.View(), fs.g, ch0, ch1, chain);
        WrittenTo(fs.g, ch0, ch1, chain, fptr, wcnt, clust, dsect);
        fptr, bw, btw := fptr + wcnt, bw + wcnt, btw - wcnt;
      }
    }

    /**
     * f_write: overwrite the file from fptr on with wbuff, extending it as needed. Fewer bytes are
     * written only when the volume is full, up to the end of the last cluster; none when the file
     * would reach 4 GB.
     */
    method Write(wbuff: seq<Byte>) returns (res: FResult, bw: nat)
      requires Valid() && |wbuff| < W32
      modifies this`dirty, this`clust, this`sclust, this`dsect, this`chain, this`fptr, this`fsize, this`written
      modifies buf, fs, fs.win, fs.disk
      ensures Valid()
      ensures res == if err != OK then err else if !canWrite then Denied else OK
      ensures res != OK ==> bw == 0 && Data() == old(Data()) && fptr == old(fptr)
      ensures written == (old(written) || res == OK)
      ensures res == OK ==>
                && bw <= |wbuff| && fptr == old(fptr) + bw
                && Data() == Splice(old(Data()), old(fptr), wbuff[..bw])
                && (old(fptr) + |wbuff| >= W32 ==> bw == 0)
                && (bw < |wbuff| && old(fptr) + |wbuff| < W32 ==> NoneFree(FatOf(fs)) && AtChainEnd() && fptr == fsize)
      ensures chain == old(chain) || (fptr > 0 && ByteClu(fs.g, fptr - 1) + 1 == |chain|)
      ensures Extends(old(chain), chain) && KeepsRest(old(fs.View()), fs.View(), fs.g, Secs(fs.g, chain))
      ensures CountKept(fs)
    {
      hide Owns, FatOf, Secs, Room, Distinct, OnDrive, Uniform, FATFS.View, FATFS.Valid, Content, NoneFree, CountFree;
      hide FIL.Base, FIL.Sound, FIL.Bytes, Splice, Extends, ByteClu, WindowApart, AwayFrom, Inside, CopiesEqual;
      hide SectorSize, CluIdx, SecIdx, CluOfs, SecOfs, Coherent, KeepsRest, Placed, ClusterAt, SectorAt, FreeExact;
      bw := 0;
      ExtendsSame(chain);
      KeepsRestSame(fs.View(), fs.g, Secs(fs.g, chain));
      if err != OK {
        return err, 0;
      }
      if !canWrite {
        return Denied, 0;
      }
      SoundFacts(fsize);
      SpliceNone(Data(), fptr);
      var btw := |wbuff|;
      WrapTest(fptr, btw);
      if (fptr + btw) % W32 < fptr {
        btw := 0;
      }
      bw := WriteLoop(wbuff[..btw]);
      SeekBound(Max(fsize, fptr));
      assert wbuff[..btw][..bw] == wbuff[..bw];
      if fptr > fsize {
        fsize := fptr;
      }
      written := true;
      res := OK;
    }

    /** Follow the chain to the cluster of byte fptr. */
    method LocateForRead(ghost n: nat)
      requires Base(n) && Placed(fs.g, chain, fptr, clust, dsect) && OnClusterEdge(fs.g, fptr) && fptr < n
      modifies this`clust, fs`winsect, fs`wflag, fs.win, fs.disk
      ensures Base(n) && Bytes(n) == old(Bytes(n)) && fs.View() == old(fs.View()) && FatOf(fs) == old(FatOf(fs))
      ensures ClusterAt(fs.g, chain, SecIdx(fs.g.ss, fptr), clust)
    {
      hide Owns, Fat, Secs, Room, Distinct, OnDrive, Uniform, FATFS.View, FATFS.Valid, Content;
      hide SectorSize, CluIdx, SecIdx, SecOfs, CluOfs, SectorAt, Layout, Mirrored, CopiesEqual, AwayFrom, Inside;
      Facts(n);
      EdgeStep(fs.g, fptr);
      WithinChain(n);
      ghost var m := Img();
      var clst;
      if fptr == 0 {
        clst := sclust;
      } else {
        LinkInChain(FatOf(fs), chain, CluIdx(fs.g, SecIdx(fs.g.ss, fptr - 1)));
        clst := GetFat(fs, clust);
      }
      SameOutside(m.v, m.v, m.v, fs.g);
      Regrown(m, chain, old(fs.winsect), n);
      clust := clst;
    }

    /** Bytes in use lie in clusters of the chain. */
    lemma WithinChain(n: nat)
      requires Sound(n) && fptr < n
      ensures CluIdx(fs.g, SecIdx(fs.g.ss, fptr)) < |chain| && SecIdx(fs.g.ss, fptr) < |Secs(fs.g, chain)|
    {
      hide Owns, FatOf, Distinct, OnDrive, Uniform, FATFS.View, FATFS.Valid, Content, SectorSize, CluIdx, SecIdx;
      hide Layout, Room, Span;
      Facts(n);
      OffsetInside(Img(), fptr);
      CluInside(fs.g, SecIdx(fs.g.ss, fptr), |chain|);
    }

    /** At a sector boundary: make clust the cluster of byte fptr. */
    method ReachForRead(ghost n: nat) returns (csect: nat)
      requires Base(n) && Placed(fs.g, chain, fptr, clust, dsect) && SecOfs(fs.g.ss, fptr) == 0 && fptr < n
      modifies this`clust, fs`winsect, fs`wflag, fs.win, fs.disk
      ensures Base(n) && Bytes(n) == old(Bytes(n)) && fs.View() == old(fs.View()) && FatOf(fs) == old(FatOf(fs))
      ensures ClusterAt(fs.g, chain, SecIdx(fs.g.ss, fptr), clust)
      ensures csect == CluOfs(fs.g, SecIdx(fs.g.ss, fptr)) < fs.g.csize
    {
      hide Owns, Fat, Secs, Room, Distinct, OnDrive, Uniform, FATFS.View, FATFS.Valid, Content, NoneFree, CountFree;
      hide FIL.Base, FIL.Sound, FIL.Bytes;
      hide SectorSize, CluIdx, SecIdx, SecOfs, CluOfs, BitAnd, IsPow2, Coherent, Placed, ClusterAt, SectorAt;
      SoundFacts(n);
      csect := BitAnd(fptr / fs.g.ss, fs.g.csize - 1);
      SectorInCluster(fs.g, fptr);
      CluSplit(fs.g, SecIdx(fs.g.ss, fptr));
      if csect == 0 {
        LocateForRead(n);
      } else {
        InnerStep(fs.g, chain, fptr, clust, dsect);
      }
    }

    /** A run read from the drive, patched with the buffer where that is newer, is the file's data. */
    lemma RunIsData(d: seq<Byte>, sect: nat, cc: nat, n: nat)
      requires Base(n) && SecOfs(fs.g.ss, fptr) == 0 && fptr + |d| <= n
      requires Contiguous(Img(), SecIdx(fs.g.ss, fptr), sect, cc) && IsRun(d, fs.View(), sect, cc, fs.g.ss)
      ensures Hit(Img(), sect, cc) ==> Times(dsect - sect, fs.g.ss) + buf.Length <= |d|
      ensures (if Hit(Img(), sect, cc) then Splice(d, Times(dsect - sect, fs.g.ss), buf[..]) else d)
           == Bytes(n)[fptr..fptr + |d|]
    {
      hide Owns, Fat, Secs, Room, Distinct, OnDrive, Uniform, FATFS.View, FATFS.Valid, Content, SecIdx, SecOfs;
      hide SectorSize;
      hide Coherent, Contiguous, IsRun, Splice, Times, Shaped, Layout, IsPow2, WindowApart, InData;
      BufSize(n);
      PatchedRunAt(Img(), fptr, sect, cc, d, n);
    }

    /** Read cc sectors at fptr past the buffer; the one that is newer there comes from the buffer. */
    method ReadDirect(rbuff: array<Byte>, off: nat, sect: nat, cc: nat, len: nat, ghost n: nat)
      requires Base(n) && SecOfs(fs.g.ss, fptr) == 0 && rbuff != buf && rbuff != fs.win
      requires cc > 0 && len == cc * fs.g.ss && off + len <= rbuff.Length && fptr + len <= n
      requires Contiguous(Img(), SecIdx(fs.g.ss, fptr), sect, cc)
      modifies rbuff
      ensures Base(n) && Bytes(n) == old(Bytes(n)) && fs.View() == old(fs.View()) && FatOf(fs) == old(FatOf(fs))
      ensures rbuff[off..off + len] == Bytes(n)[fptr..fptr + len]
      ensures rbuff[..off] == old(rbuff[..off]) && rbuff[off + len..] == old(rbuff[off + len..])
    {
      hide Owns, Fat, Secs, FATFS.View, FATFS.Valid, SecIdx, SecOfs, SectorSize, FIL.Base, FIL.Bytes;
      hide Contiguous, IsRun, Splice, Layout, Times, IsPow2, FIL.Sound, Hit;
      SoundFacts(n);
      RunFacts(n, SecIdx(fs.g.ss, fptr), sect, cc);
      FsOf(n);
      HitTest(sect, cc);
      ReadDataMany(fs, rbuff, off, sect, cc);
      RunIsData(rbuff[off..off + len], sect, cc, n);
      if dirty && Sub32(dsect, sect) < cc {
        PatchIn(rbuff, off, len, Times(dsect - sect, fs.g.ss), buf[..]);
      }
    }

    /** The unsigned test of f_read finds out whether the buffer holds one of the sectors. */
    lemma HitTest(sect: nat, cc: nat)
      requires dsect < W32 && sect + cc <= W32
      ensures dirty && Sub32(dsect, sect) < cc <==> Hit(Img(), sect, cc)
      ensures Hit(Img(), sect, cc) ==> dsect >= sect
    {
      hide Secs, FATFS.View;
      RangeTest(dsect, sect, cc);
    }

    lemma BufSize(n: nat)
      requires Sound(n)
      ensures buf.Length == fs.g.ss && Img().ss == fs.g.ss
    {
      hide Secs, FATFS.View, Owns, FatOf, Distinct, OnDrive, Uniform;
    }

    lemma FsOf(n: nat)
      requires Base(n)
      ensures fs.Valid() && fs.disk.reliable
      ensures dsect < W32
    {
      hide Owns, FatOf, Secs, Distinct, OnDrive, Uniform;
    }

    /** Make the buffer show sector sect of the file, writing its old contents back first. */
    method LoadSector(sect: nat, ghost n: nat)
      requires Base(n) && sect in Secs(fs.g, chain)
      modifies this`dirty, this`dsect, buf, fs.disk
      ensures Base(n) && Bytes(n) == old(Bytes(n)) && dsect == sect
      ensures KeepsRest(old(fs.View()), fs.View(), fs.g, Secs(fs.g, chain))
      ensures FatOf(fs) == old(FatOf(fs))
    {
      hide Owns, FatOf, Secs, Room, Distinct, Uniform, FATFS.View, FATFS.Valid, Content, SectorSize, KeepsRest;
      hide Coherent;
      KeepsRestSame(fs.View(), fs.g, Secs(fs.g, chain));
      if dsect != sect {
        Flush(n);
        SectorFacts(n, sect);
        BufSize(n);
        Loaded(Img(), sect, n);
        ReadData(fs, buf, sect);
      }
      dsect := sect;
    }

    /**
     * The part of f_read's loop at a sector boundary: find the cluster and either transfer whole
     * sectors (rcnt > 0) or load the sector into the buffer.
     */
    method BeginRead(rbuff: array<Byte>, off: nat, btr: nat, ghost n: nat) returns (rcnt: nat)
      requires Base(n) && Placed(fs.g, chain, fptr, clust, dsect) && SecOfs(fs.g.ss, fptr) == 0
      requires rbuff != buf && rbuff != fs.win && 0 < btr && off + btr <= rbuff.Length && fptr + btr <= n
      modifies this`dirty, this`clust, this`dsect, buf, rbuff, fs`winsect, fs`wflag, fs.win, fs.disk
      ensures Base(n) && Bytes(n) == old(Bytes(n)) && rcnt <= btr
      ensures KeepsRest(old(fs.View()), fs.View(), fs.g, Secs(fs.g, chain)) && FatOf(fs) == old(FatOf(fs))
      ensures rcnt == 0 ==>
                && ClusterAt(fs.g, chain, SecIdx(fs.g.ss, fptr), clust)
                && SectorAt(fs.g, chain, SecIdx(fs.g.ss, fptr), dsect)
                && rbuff[..] == old(rbuff[..])
      ensures rcnt > 0 ==> Placed(fs.g, chain, fptr + rcnt, clust, dsect)
      ensures rbuff[off..off + rcnt] == Bytes(n)[fptr..fptr + rcnt]
      ensures rbuff[..off] == old(rbuff[..off]) && rbuff[off + rcnt..] == old(rbuff[off + rcnt..])
    {
      hide Owns, FatOf, Secs, FATFS.View, FATFS.Valid, FIL.Base, FIL.Sound, FIL.Bytes, SecIdx, SecOfs, CluIdx, CluOfs;
      hide KeepsRest, Placed;
      hide ClusterAt, SectorSize, Clust2Sect, First, Contiguous, IsPow2, SectorAt;
      SoundFacts(n);
      KeepsRestSame(fs.View(), fs.g, Secs(fs.g, chain));
      rcnt := 0;
      var csect := ReachForRead(n);
      ghost var k := SecIdx(fs.g.ss, fptr);
      SectFacts(n, k);
      var sect := Clust2Sect(fs.g, clust) + csect;
      var cc := btr / fs.g.ss;
      if cc > 0 {
        if csect + cc > fs.g.csize {
          cc := fs.g.csize - csect;
        }
        rcnt := cc * fs.g.ss;
        DirectFits(btr, fs.g.ss, cc);
        PlacedDirect(fs.g, chain, fptr, cc, clust, dsect);
        RunContiguous(n, k, cc);
        ReadDirect(rbuff, off, sect, cc, rcnt, n);
      } else {
        RunContiguous(n, k, 1);
        InSecs(fs.g, chain, k, sect);
        LoadSector(sect, n);
      }
    }

    /** One turn of f_read's loop: the next rcnt bytes at fptr go to rbuff[off..]. */
    method ReadStep(rbuff: array<Byte>, off: nat, btr: nat, ghost n: nat) returns (rcnt: nat)
      requires Base(n) && Placed(fs.g, chain, fptr, clust, dsect) && rbuff != buf && rbuff != fs.win
      requires 0 < btr && off + btr <= rbuff.Length && fptr + btr <= n
      modifies this`dirty, this`clust, this`dsect, buf, rbuff, fs`winsect, fs`wflag, fs.win, fs.disk
      ensures 0 < rcnt <= btr
      ensures Base(n) && Bytes(n) == old(Bytes(n)) && Placed(fs.g, chain, fptr + rcnt, clust, dsect)
      ensures KeepsRest(old(fs.View()), fs.View(), fs.g, Secs(fs.g, chain)) && FatOf(fs) == old(FatOf(fs))
      ensures rbuff[off..off + rcnt] == Bytes(n)[fptr..fptr + rcnt]
      ensures rbuff[..off] == old(rbuff[..off]) && rbuff[off + rcnt..] == old(rbuff[off + rcnt..])
    {
      hide Owns, FatOf, Secs, FATFS.View, FATFS.Valid, FIL.Base, FIL.Sound, FIL.Bytes, SecIdx, CluIdx, CluOfs;
      hide KeepsRest, Placed;
      hide ClusterAt, SectorSize, SectorAt, IsPow2;
      SoundFacts(n);
      KeepsRestSame(fs.View(), fs.g, Secs(fs.g, chain));
      if fptr % fs.g.ss == 0 {
        rcnt := BeginRead(rbuff, off, btr, n);
        if rcnt > 0 {
          return;
        }
        assert forall k :: 0 <= k < rbuff.Length ==> rbuff[k] == rbuff[..][k];
      } else {
        MidSector(n);
      }
      rcnt := ReadBuffered(rbuff, off, btr, n);
    }

    /** The partial transfer at the end of f_read's loop. */
    method ReadBuffered(rbuff: array<Byte>, off: nat, btr: nat, ghost n: nat) returns (rcnt: nat)
      requires Base(n) && rbuff != buf && rbuff != fs.win
      requires ClusterAt(fs.g, chain, SecIdx(fs.g.ss, fptr), clust)
      requires SectorAt(fs.g, chain, SecIdx(fs.g.ss, fptr), dsect)
      requires 0 < btr && off + btr <= rbuff.Length && fptr + btr <= n
      modifies rbuff
      ensures 0 < rcnt <= btr
      ensures Base(n) && Bytes(n) == old(Bytes(n)) && fs.View() == old(fs.View()) && FatOf(fs) == old(FatOf(fs))
      ensures Placed(fs.g, chain, fptr + rcnt, clust, dsect)
      ensures rbuff[off..off + rcnt] == Bytes(n)[fptr..fptr + rcnt]
      ensures rbuff[..off] == old(rbuff[..off]) && rbuff[off + rcnt..] == old(rbuff[off + rcnt..])
    {
      hide Owns, FatOf, Secs, FATFS.View, FATFS.Valid, SecIdx, CluIdx, CluOfs, KeepsRest, Placed, ClusterAt;
      hide SectorSize, Content, IsPow2;
      SoundFacts(n);
      BufSize(n);
      rcnt := fs.g.ss - fptr % fs.g.ss;
      if rcnt > btr {
        rcnt := btr;
      }
      PlacedPartial(fs.g, chain, fptr, rcnt, clust, dsect);
      ReadPartial(Img(), fptr, rcnt, n);
      var o := fptr % fs.g.ss;
      CopyIn(rbuff, off, buf[o..o + rcnt]);
    }

    /** f_read: copy the next btr bytes to rbuff, or as many as the file still has. */
    method Read(rbuff: array<Byte>, btr: nat) returns (res: FResult, br: nat)
      requires Valid() && btr <= rbuff.Length && rbuff != buf && rbuff != fs.win
      modifies this`dirty, this`clust, this`dsect, this`fptr, buf, rbuff, fs`winsect, fs`wflag, fs.win, fs.disk
      ensures Valid() && Data() == old(Data())
      ensures res == if err != OK then err else if !canRead then Denied else OK
      ensures res != OK ==> br == 0 && fptr == old(fptr)
      ensures res == OK ==> br == Min(btr, fsize - old(fptr)) && fptr == old(fptr) + br
      ensures br <= rbuff.Length && old(fptr) + br <= fsize
      ensures rbuff[..br] == Data()[old(fptr)..old(fptr) + br]
      ensures rbuff[br..] == old(rbuff[br..])
      ensures KeepsRest(old(fs.View()), fs.View(), fs.g, Secs(fs.g, chain)) && FatOf(fs) == old(FatOf(fs))
    {
      hide Owns, FatOf, Secs, FATFS.View, FATFS.Valid, FIL.Base, FIL.Sound, FIL.Bytes, SecIdx, SecOfs, KeepsRest;
      hide Placed, IsPow2, SectorSize;
      br := 0;
      KeepsRestSame(fs.View(), fs.g, Secs(fs.g, chain));
      if err != OK {
        return err, 0;
      }
      if !canRead {
        return Denied, 0;
      }
      res := OK;
      var remain := fsize - fptr;
      var btr := btr;
      if btr > remain {
        btr := remain;
      }
      br := ReadLoop(rbuff, btr);
    }

    /** The loop of f_read. */
    method ReadLoop(rbuff: array<Byte>, btr0: nat) returns (br: nat)
      requires Valid() && btr0 <= rbuff.Length && fptr + btr0 <= fsize && rbuff != buf && rbuff != fs.win
      modifies this`dirty, this`clust, this`dsect, this`fptr, buf, rbuff, fs`winsect, fs`wflag, fs.win, fs.disk
      ensures Valid() && Data() == old(Data()) && br == btr0 && fptr == old(fptr) + br
      ensures rbuff[..br] == Data()[old(fptr)..fptr] && rbuff[br..] == old(rbuff[br..])
      ensures KeepsRest(old(fs.View()), fs.View(), fs.g, Secs(fs.g, chain)) && FatOf(fs) == old(FatOf(fs))
    {
      hide Owns, FatOf, Secs, FATFS.View, FATFS.Valid, FIL.Base, FIL.Sound, FIL.Bytes, SecIdx, SecOfs, KeepsRest;
      hide Placed, IsPow2, SectorSize;
      KeepsRestSame(fs.View(), fs.g, Secs(fs.g, chain));
      SoundFacts(fsize);
      var btr := btr0;
      br := 0;
      ghost var p, c, v0, len := fptr, Data(), fs.View(), btr;
      while btr > 0
        invariant br + btr == len && fptr == p + br && br <= len
        invariant Base(fsize) && Placed(fs.g, chain, fptr, clust, dsect) && Data() == c
        invariant KeepsRest(v0, fs.View(), fs.g, Secs(fs.g, chain)) && FatOf(fs) == old(FatOf(fs))
        invariant rbuff[..br] == c[p..p + br] && rbuff[br..] == old(rbuff[..])[br..]
      {
        ghost var v1, out := fs.View(), rbuff[..];
        var rcnt := ReadStep(rbuff, br, btr, fsize);
        KeepsRestTrans(v0, v1, fs.View(), fs.g, Secs(fs.g, chain), Secs(fs.g, chain));
        ReadMore(old(rbuff[..]), out, rbuff[..], c, p, br, rcnt);
        fptr, br, btr := fptr + rcnt, br + rcnt, btr - rcnt;
      }
    }

    /** One turn of f_lseek's loop: from the file's cluster i to the next, stretching in write mode. */
    method NextForSeek(clst: nat, ghost i: nat, ghost n: nat) returns (nxt: nat)
      requires Base(n) && i < |chain| && clst == chain[i] && clst != 0
      requires !canWrite ==> i + 1 < |chain|
      modifies this`sclust, this`chain, fs, fs.win, fs.disk
      ensures Base(n) && Bytes(n) == old(Bytes(n))
      ensures Extends(old(chain), chain) && KeepsRest(old(fs.View()), fs.View(), fs.g, [])
      ensures nxt == 0 ==> canWrite && chain == old(chain) && i + 1 == |chain| && NoneFree(FatOf(fs))
      ensures nxt != 0 ==> i + 1 < |chain| && nxt == chain[i + 1] && (chain == old(chain) || i + 2 == |chain|)
      ensures CountKept(fs)
    {
      hide Owns, Fat, Secs, Room, Distinct, OnDrive, Uniform, FATFS.View, FATFS.Valid, Content, Layout, NoneFree;
      hide CountFree;
      Facts(n);
      ghost var m := Img();
      if canWrite {
        nxt := NextCluster(clst, i, n);
      } else {
        LinkInChain(FatOf(fs), chain, i);
        nxt := GetFat(fs, clst);
        SameOutside(m.v, m.v, m.v, fs.g);
        Regrown(m, chain, old(fs.winsect), n);
      }
    }

    /** f_lseek's loop: from the start of cluster i on, ofs bytes further, cluster by cluster. */
    method SeekLoop(clst0: nat, ofs0: nat, ghost i0: nat, ghost n: nat) returns (clst: nat, ofs: nat, ghost i: nat)
      requires Base(n) && i0 < |chain| && clst0 == clust == chain[i0] && clust != 0 && ofs0 > 0
      requires fptr == Times(i0, Bcs(fs.g)) && Bcs(fs.g) > 0
      requires !canWrite ==> fptr + ofs0 <= Times(|chain|, Bcs(fs.g))
      modifies this`clust, this`sclust, this`chain, this`fptr, fs, fs.win, fs.disk
      ensures Base(n) && Bytes(n) == old(Bytes(n))
      ensures Extends(old(chain), chain) && KeepsRest(old(fs.View()), fs.View(), fs.g, [])
      ensures i0 <= i < |chain| && clust == chain[i] && fptr == Times(i, Bcs(fs.g)) && 0 < ofs <= Bcs(fs.g)
      ensures chain == old(chain) || i + 1 == |chain|
      ensures clst == 0 ==> canWrite && ofs == Bcs(fs.g) && i + 1 == |chain| && NoneFree(FatOf(fs))
      ensures clst == 0 ==> fptr + ofs < old(fptr) + ofs0
      ensures clst != 0 ==> clst == clust && fptr + ofs == old(fptr) + ofs0
      ensures CountKept(fs)
    {
      hide Owns, FatOf, Secs, FATFS.View, FATFS.Valid, FIL.Base, FIL.Sound, FIL.Bytes, KeepsRest, NoneFree, FreeExact;
      hide Times, Bcs;
      clst, ofs, i := clst0, ofs0, i0;
      var bcs := Bcs(fs.g);
      KeepsRestSame(fs.View(), fs.g, []);
      ghost var ch0, v0 := chain, fs.View();
      while ofs > bcs
        invariant Base(n) && Bytes(n) == old(Bytes(n))
        invariant i0 <= i < |chain| && clst == clust == chain[i] && clust != 0 && ofs > 0
        invariant fptr == Times(i, Bcs(fs.g)) && fptr + ofs == old(fptr) + ofs0
        invariant !canWrite ==> chain == ch0
        invariant chain == ch0 || i + 1 == |chain|
        invariant Extends(ch0, chain) && KeepsRest(v0, fs.View(), fs.g, [])
        invariant CountKept(fs)
        decreases ofs
      {
        TimesNext(i, bcs);
        if !canWrite { TimesLess(i + 1, |chain|, bcs); }
        ghost var v1, ch1 := fs.View(), chain;
        var nxt := NextForSeek(clst, i, n);
        KeepsRestTrans(v0, v1, fs.View(), fs.g, [], []);
        ChainsExtend(ch0, ch1, chain);
        clst := nxt;
        if clst == 0 {
          ofs := bcs;
          break;
        }
        NonZeroCluster(n, i + 1);
        clust := clst;
        fptr, ofs, i := fptr + bcs, ofs - bcs, i + 1;
      }
    }

    lemma NonZeroCluster(n: nat, i: nat)
      requires Base(n) && i < |chain|
      ensures chain[i] >= 2
    {
      hide Owns, FatOf, Secs, FATFS.View, FATFS.Valid, Distinct, OnDrive, Uniform;
      Facts(n);
    }

    lemma SeekBound(n: nat)
      requires Base(n)
      ensures n <= Times(|chain|, Bcs(fs.g)) && (chain == [] ==> n == 0)
    {
      hide Owns, FatOf, FATFS.View, FATFS.Valid, Distinct, OnDrive, Uniform, Coherent;
      assert |Secs(fs.g, chain)| * fs.g.ss == |chain| * (fs.g.csize * fs.g.ss);
      if chain == [] {
        TimesZero(Bcs(fs.g));
      }
    }

    /** f_lseek's choice: go on from the current cluster, or start over from the first. */
    method SeekStart(ofs0: nat) returns (clst: nat, ofs: nat, ghost i: nat)
      requires Valid() && 0 < ofs0 < W32 && (!canWrite ==> ofs0 <= fsize)
      modifies this`clust, this`sclust, this`chain, this`fptr, fs, fs.win, fs.disk
      ensures Base(fsize) && Bytes(fsize) == old(Bytes(fsize))
      ensures Extends(old(chain), chain) && KeepsRest(old(fs.View()), fs.View(), fs.g, [])
      ensures ofs > 0 && fptr + ofs == ofs0
      ensures clst != 0 ==> i < |chain| && clst == clust == chain[i] && fptr == Times(i, Bcs(fs.g))
      ensures clst == 0 ==> chain == [] && fptr == 0 && canWrite && NoneFree(FatOf(fs))
      ensures chain == old(chain) || i + 1 == |chain|
      ensures CountKept(fs)
    {
      hide Owns, FatOf, Secs, FATFS.View, FATFS.Valid, FIL.Base, FIL.Sound, FIL.Bytes, KeepsRest, NoneFree, FreeExact;
      hide Times;
      hide IsPow2, SectorSize, BitAnd, ByteClu, Placed, Bcs, Quotient;
      ghost var n := fsize;
      SoundFacts(n);
      BcsFacts(fs.g);
      StartFacts(n);
      KeepsRestSame(fs.View(), fs.g, []);
      TimesZero(Bcs(fs.g));
      ofs := ofs0;
      var ifptr := fptr;
      var bcs := Bcs(fs.g);
      fptr, i := 0, 0;
      if ifptr > 0 && Quotient(ofs - 1, bcs) >= Quotient(ifptr - 1, bcs) {
        SameOrLater(fs.g, ofs - 1, ifptr - 1);
        PlacedCluster(fs.g, chain, ifptr, clust, dsect);
        i := ByteClu(fs.g, ifptr - 1);
        NonZeroCluster(n, i);
        fptr := BitAnd(ifptr - 1, W32 - bcs);
        ofs := ofs - fptr;
        clst := clust;
      } else {
        clst := sclust;
        if clst == 0 {
          clst := NextCluster(0, 0, n);
        }
        clust := clst;
      }
    }

    lemma StartFacts(n: nat)
      requires Base(n)
      ensures sclust == 0 <==> chain == []
      ensures chain != [] ==> chain[0] == sclust
      ensures chain == [] ==> n == 0
    {
      hide Owns, FatOf, FATFS.View, FATFS.Valid, Distinct, OnDrive, Uniform, Coherent, Secs;
      Facts(n);
      SeekBound(n);
    }

    /** The first half of f_lseek: move fptr, as far as the chain can be followed or stretched. */
    method SeekCluster(ofs0: nat) returns (nsect: nat)
      requires Valid() && ofs0 < W32 && (!canWrite ==> ofs0 <= fsize)
      modifies this`clust, this`sclust, this`chain, this`fptr, fs, fs.win, fs.disk
      ensures Base(fsize) && Bytes(fsize) == old(Bytes(fsize))
      ensures Extends(old(chain), chain) && KeepsRest(old(fs.View()), fs.View(), fs.g, [])
      ensures SeekResult(fs.g, chain, ofs0, fptr, clust, nsect)
      ensures fptr < ofs0 ==> canWrite && NoneFree(FatOf(fs)) && fptr == Times(|chain|, Bcs(fs.g))
      ensures chain == old(chain) || (fptr > 0 && ByteClu(fs.g, fptr - 1) + 1 == |chain|)
      ensures CountKept(fs)
    {
      hide Owns, FatOf, Secs, FATFS.View, FATFS.Valid, FIL.Base, FIL.Sound, FIL.Bytes, KeepsRest, NoneFree, FreeExact;
      hide Times, Bcs, SeekResult;
      hide IsPow2, SectorSize, ByteClu, Placed, CluIdx, SecIdx, SecOfs, CluOfs, First, Clust2Sect, ClusterAt, SectorAt;
      ghost var n := fsize;
      SoundFacts(n);
      BcsFacts(fs.g);
      KeepsRestSame(fs.View(), fs.g, []);
      SeekNowhere(fs.g, chain, ofs0, clust);
      nsect := 0;
      if ofs0 == 0 {
        fptr := 0;
        return;
      }
      var clst, ofs;
      ghost var i;
      clst, ofs, i := SeekStart(ofs0);
      ghost var ch1, v1 := chain, fs.View();
      if clst == 0 {
        SeekNowhere(fs.g, chain, ofs0, clust);
        TimesZero(Bcs(fs.g));
        return;
      }
      SeekBound(n);
      clst, ofs, i := SeekLoop(clst, ofs, i, n);
      KeepsRestTrans(old(fs.View()), v1, fs.View(), fs.g, [], []);
      ChainsExtend(old(chain), ch1, chain);
      SeekEnd(fs.g, chain, i, ofs, ofs0, clust);
      TimesNext(i, Bcs(fs.g));
      fptr := fptr + ofs;
      if SecOfs(fs.g.ss, ofs) != 0 {
        SectFacts(n, SecIdx(fs.g.ss, fptr));
        nsect := Clust2Sect(fs.g, clst);
        nsect := nsect + SecIdx(fs.g.ss, ofs);
      }
    }

    /**
     * f_lseek: move fptr to ofs. A file open for reading only is not extended; one open for
     * writing gets further clusters as needed, and the pointer stops at their end when the volume is full.
     */
    method Lseek(ofs0: nat) returns (res: FResult)
      requires Valid() && ofs0 < W32
      modifies this`clust, this`sclust, this`chain, this`fptr, this`dirty, this`dsect, this`fsize, this`written
      modifies buf, fs, fs.win, fs.disk
      ensures Valid() && res == err && written == (old(written) || fsize > old(fsize))
      ensures res != OK ==> Data() == old(Data()) && fptr == old(fptr)
      ensures res == OK ==>
                var t := if canWrite then ofs0 else Min(ofs0, old(fsize));
                && fptr <= t
                && (fptr < t ==> NoneFree(FatOf(fs)) && AtChainEnd() && fptr == fsize)
                && fsize == Max(old(fsize), fptr)
                && Data()[..old(fsize)] == old(Data())
                && (chain == old(chain) || (fptr > 0 && ByteClu(fs.g, fptr - 1) + 1 == |chain|))
      ensures Extends(old(chain), chain) && KeepsRest(old(fs.View()), fs.View(), fs.g, Secs(fs.g, chain))
      ensures CountKept(fs)
    {
      hide Owns, FatOf, Secs, FATFS.View, FATFS.Valid, FIL.Base, FIL.Sound, FIL.Bytes, KeepsRest, NoneFree, CountFree;
      hide Times, Bcs;
      hide IsPow2, SectorSize, ByteClu, Placed, CluIdx, SecIdx, SecOfs, CluOfs, ClusterAt;
      KeepsRestSame(fs.View(), fs.g, Secs(fs.g, chain));
      if err != OK {
        return err;
      }
      res := OK;
      ghost var n, v0 := fsize, fs.View();
      var ofs := ofs0;
      if ofs > fsize && !canWrite {
        ofs := fsize;
      }
      var nsect := SeekCluster(ofs);
      SeekBound(n);
      KeepsRestWeaken(v0, fs.View(), fs.g, Secs(fs.g, chain));
      ghost var v1 := fs.View();
      BufferSought(nsect, ofs, n);
      KeepsRestTrans(v0, v1, fs.View(), fs.g, Secs(fs.g, chain), Secs(fs.g, chain));
      if fptr > fsize {
        fsize := fptr;
        written := true;
      }
    }

    /** The buffer's part of f_lseek: load the sector of a pointer inside a sector. */
    method BufferSought(nsect: nat, ghost t: nat, ghost n: nat)
      requires Base(n) && SeekResult(fs.g, chain, t, fptr, clust, nsect) && t < W32
      modifies this`dirty, this`dsect, buf, fs.disk
      ensures Base(Max(n, fptr)) && Bytes(Max(n, fptr))[..n] == old(Bytes(n)) && fptr <= t
      ensures Placed(fs.g, chain, fptr, clust, dsect)
      ensures KeepsRest(old(fs.View()), fs.View(), fs.g, Secs(fs.g, chain)) && FatOf(fs) == old(FatOf(fs))
    {
      hide Owns, FatOf, Secs, FATFS.View, FATFS.Valid, FIL.Base, FIL.Sound, FIL.Bytes, KeepsRest, SeekResult, Placed;
      hide SecOfs, SecIdx;
      SoundFacts(n);
      KeepsRestSame(fs.View(), fs.g, Secs(fs.g, chain));
      if SecOfs(fs.g.ss, fptr) != 0 && nsect != dsect {
        SoughtSector(fs.g, chain, t, fptr, clust, nsect);
        LoadSector(nsect, n);
      }
      SoughtPlace(fs.g, chain, t, fptr, clust, nsect, dsect);
      Widened(n);
    }

    /** The length in use may grow up to fptr. */
    lemma Widened(n: nat)
      requires Base(n) && Placed(fs.g, chain, fptr, clust, dsect) && fptr < W32
      ensures Base(Max(n, fptr)) && Bytes(Max(n, fptr))[..n] == Bytes(n)
    {
      hide Owns, FatOf, Secs, FATFS.View, FATFS.Valid, Distinct, OnDrive, Uniform, ByteOf, SecIdx, CluIdx, SectorAt;
      hide IsPow2;
      if fptr > n {
        Facts(n);
        ByteCluIs(fs.g, fptr - 1);
        FptrFits(fs.g, chain, fptr);
      }
    }

    /** The FAT side of f_truncate: free the clusters behind the one that holds byte fptr - 1. */
    method ReleaseTail(ghost n: nat) returns (res: FResult)
      requires Base(n) && Placed(fs.g, chain, fptr, clust, dsect) && fptr < n
      modifies this`sclust, this`chain, fs`winsect, fs`wflag, fs`freeClust, fs`fsiDirty, fs.win, fs.disk
      ensures res == OK && fs.Valid() && Owns(FatOf(fs), others, chain, sclust)
      ensures Kept(fs.g, fptr) <= |old(chain)| && chain == old(chain)[..Kept(fs.g, fptr)]
      ensures SameOutsideFat(old(fs.View()), fs.View(), fs.g)
      ensures Mirrored(old(fs.View()), fs.g) ==> Mirrored(fs.View(), fs.g)
      ensures fs.winsect == old(fs.winsect) || InFat(fs.g, fs.winsect)
      ensures CountKept(fs)
    {
      hide Owns, Fat, Secs, FATFS.View, FATFS.Valid, Room, Distinct, OnDrive, Uniform, Coherent, SectorSize;
      hide CountFree, SameOutsideFat, InFat;
      hide CluIdx, SecIdx, SectorAt, Unlinked, HitsBadLink, IsChain, Layout, IsPow2, Placed, Clusters, Mirrored;
      hide WindowApart, InData, Masked, ByteClu;
      Facts(n);
      StartFacts(n);
      ViewFacts(fs);
      ghost var fat, v := FatOf(fs), fs.View();
      SameOutside(v, v, v, fs.g);
      if fptr == 0 {
        OwnedFreed(fat, others, chain, sclust);
        res := RemoveChain(fs, sclust);
        sclust := 0;
        chain := [];
      } else {
        ghost var i := ByteClu(fs.g, fptr - 1);
        PlacedCluster(fs.g, chain, fptr, clust, dsect);
        LinkInChain(fat, chain, i);
        var ncl := GetFat(fs, clust);
        res := OK;
        if ncl < fs.g.nFatent {
          OwnedCut(fat, others, chain, sclust, i + 1, clust, EndMark(fs.g.fsType));
          res := PutFat(fs, clust, 0x0FFF_FFFF);
          ghost var v1 := fs.View();
          CutCount(fat, clust, EndMark(fs.g.fsType));
          res := RemoveChain(fs, ncl);
          SameOutside(v, v1, fs.View(), fs.g);
        } else {
          assert chain[..i + 1] == chain;
        }
        chain := chain[..i + 1];
      }
    }

    /** f_truncate: cut the file at fptr and free the clusters it no longer needs. */
    method Truncate() returns (res: FResult)
      requires Valid()
      modifies this`fsize, this`written, this`sclust, this`chain, this`dirty, this`stale
      modifies fs`winsect, fs`wflag, fs`freeClust, fs`fsiDirty, fs.win, fs.disk
      ensures Valid()
      ensures res == if err != OK then err else if !canWrite then Denied else OK
      ensures res != OK || old(fsize) == fptr ==> Data() == old(Data()) && chain == old(chain)
      ensures res == OK ==> Data() == old(Data())[..fptr]
      ensures written == (old(written) || fsize < old(fsize))
      ensures res == OK && fptr < old(fsize) ==>
                Kept(fs.g, fptr) <= |old(chain)| && chain == old(chain)[..Kept(fs.g, fptr)]
      ensures KeepsRest(old(fs.View()), fs.View(), fs.g, Secs(fs.g, old(chain)))
      ensures CountKept(fs)
    {
      hide Owns, FatOf, Secs, FATFS.View, FATFS.Valid, FIL.Base, FIL.Sound, FIL.Bytes, KeepsRest, CountFree, Kept;
      hide Placed;
      res := OK;
      if err != OK {
        res := err;
      } else if !canWrite {
        res := Denied;
      }
      KeepsRestSame(fs.View(), fs.g, Secs(fs.g, chain));
      if res == OK && fsize > fptr {
        ghost var n := fsize;
        fsize := fptr;
        written := true;
        res := CutAt(n);
      }
      assert Data() == old(Data())[..fsize];
    }

    /** The body of f_truncate, for a pointer before the end of the file. */
    method CutAt(ghost n: nat) returns (res: FResult)
      requires Base(n) && Placed(fs.g, chain, fptr, clust, dsect) && fptr < n
      modifies this`sclust, this`chain, this`dirty, this`stale
      modifies fs`winsect, fs`wflag, fs`freeClust, fs`fsiDirty, fs.win, fs.disk
      ensures res == OK && Base(fptr) && Placed(fs.g, chain, fptr, clust, dsect)
      ensures Bytes(fptr) == old(Bytes(n))[..fptr]
      ensures Kept(fs.g, fptr) <= |old(chain)| && chain == old(chain)[..Kept(fs.g, fptr)]
      ensures KeepsRest(old(fs.View()), fs.View(), fs.g, Secs(fs.g, old(chain)))
      ensures CountKept(fs)
    {
      hide Owns, FatOf, Secs, FATFS.View, FATFS.Valid, KeepsRest, CountFree, Kept, Placed, Room, Distinct, OnDrive;
      hide Uniform, Coherent, Shaped;
      hide SameOutsideFat, InFat, Content, WindowApart, AwayFrom, InData, IsPow2, SectorSize, Layout, Mirrored;
      ghost var m, ch0, w0 := Img(), chain, fs.winsect;
      Facts(n);
      ghost var g := fs.g;
      res := ReleaseTail(n);
      ghost var m1 := m.(v := fs.View());
      FsFacts(fs);
      Released(m, ch0, w0, fs.winsect, fs.View(), g, chain, n);
      AwayStays(w0, fs.winsect, g, apart);
      if res == OK && dirty {
        Flushed(m1, n);
        FlushKeeps(m.v, m1.v, g, m.secs, dsect, buf[..]);
        WriteData(fs, buf, dsect);
        dirty := false;
      }
      stale := dsect != 0 && dsect !in Secs(g, chain);
      Trimmed(m1, ch0, n);
    }

    /** The cut file is valid again, with the bytes before fptr. */
    lemma Trimmed(m: Img, ch0: seq<nat>, n: nat)
      requires fs.Valid() && fs.disk.reliable && buf != fs.win && Owns(FatOf(fs), others, chain, sclust)
      requires ImgOk(m) && fptr < n <= Capacity(m) && n < W32 && m.secs == Secs(fs.g, ch0) && m.ss == fs.g.ss
      requires Kept(fs.g, fptr) <= |ch0| && chain == ch0[..Kept(fs.g, fptr)]
      requires !dirty && m.buf == buf[..] && m.dsect == dsect && (m.dirty ==> dsect < |m.v|)
      requires fs.View() == if m.dirty then m.v[dsect := m.buf] else m.v
      requires Placed(fs.g, ch0, fptr, clust, dsect)
      requires WindowApart(fs.winsect, m.secs, dsect) && AwayFrom(fs.winsect, fs.g, apart)
      requires Inside(stale, Secs(fs.g, chain), dsect) && CopiesEqual(mirrored, fs.View(), fs.g)
      requires dsect != 0 ==> InData(fs.g, |fs.View()|, dsect)
      ensures Base(fptr) && Placed(fs.g, chain, fptr, clust, dsect)
      ensures Bytes(fptr) == Content(m, n)[..fptr]
    {
      hide Owns, FatOf, Secs, FATFS.View, FATFS.Valid, Kept, Placed, Room, Distinct, OnDrive, Uniform, InData;
      hide SectorSize, Content;
      if m.dirty {
        Flushed(m, n);
      }
      var m2 := if m.dirty then m.(v := m.v[m.dsect := m.buf], dirty := false) else m;
      SizesOf();
      PlacedCut(fs.g, ch0, fptr, clust, dsect);
      SecsPrefix(fs.g, chain, ch0);
      Shrunk(m2, Secs(fs.g, chain), fptr);
      ContentPrefix(m2, fptr, n);
      assert Img() == m2.(secs := Secs(fs.g, chain));
    }

    lemma SizesOf()
      requires fs.Valid()
      ensures fs.g.ss > 0 && fs.g.csize > 0
    {
      hide DataFits, FatFits, RootFits, Layout, Uniform, IsPow2;
    }
  }
}
