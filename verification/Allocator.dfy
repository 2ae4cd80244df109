/** Allocating and freeing clusters: create_chain and remove_chain. */
module Allocator {
  import opened Arith
  import opened Volume
  import opened FatCodec
  import opened Chains

  /** The FAT of a mounted volume. */
  ghost function FatOf(fs: FATFS): (f: seq<nat>)
    reads fs`winsect, fs`wflag, fs.win, fs.disk
    ensures |f| == fs.g.nFatent
  {
    Fat(fs.View(), fs.g)
  }

  /** The free-cluster counter, when it is known, counts the free clusters. */
  ghost predicate FreeExact(fs: FATFS)
    reads fs, fs.win, fs.disk
  {
    fs.freeClust == 0xFFFF_FFFF || fs.freeClust == CountFree(FatOf(fs), 2)
  }

  /** An exact counter stays exact, and known or unknown as it was; every change of it is flagged for FSINFO. */
  twostate predicate CountKept(fs: FATFS)
    reads fs, fs.win, fs.disk
  {
    && (old(FreeExact(fs)) ==> FreeExact(fs) && (fs.freeClust == 0xFFFF_FFFF <==> old(fs.freeClust) == 0xFFFF_FFFF))
    && (old(fs.fsiDirty) || fs.freeClust != old(fs.freeClust) ==> fs.fsiDirty)
  }

  /** The value an end mark takes in an entry. */
  function EndMark(t: FsType): nat {
    Masked(t, 0x0FFF_FFFF)
  }

  /** An end mark is not a cluster number. */
  lemma EndMarkIsEnd(g: Geom, total: nat)
    requires Sizes(g, total)
    ensures EndMark(g.fsType) >= g.nFatent >= 3
    ensures forall c: nat :: c < g.nFatent ==> Masked(g.fsType, c) == c
    ensures g.nFatent < 0x1000_0000
  {
    hide IsPow2, DataFits, RootFits, FatFits;
  }

  /** Where the search for a free cluster starts: after the last allocated cluster, or after clst. */
  function ScanStart(clst: nat, last: nat, n: nat): nat {
    if clst != 0 then clst else if last == 0 || last >= n then 1 else last
  }

  /** r is free, and no cluster between s and r in circular order is free or corrupt. */
  ghost predicate Nearest(fat: seq<nat>, s: nat, r: nat) {
    Reached(fat, s, r) && fat[r] == 0
  }

  /** No cluster between s and r in circular order is free or corrupt. */
  ghost predicate Reached(fat: seq<nat>, s: nat, r: nat) {
    && 2 <= r < |fat|
    && (forall c: nat :: s < c < |fat| && 2 <= c && (r > s ==> c < r) ==> fat[c] != 0 && fat[c] != 1)
    && (r <= s ==> forall c: nat :: 2 <= c < r ==> fat[c] != 0 && fat[c] != 1)
  }

  /** The search starts behind the last cluster of the chain, and for a new chain behind the cluster allocated
      last, or at cluster 2 if there is none. */
  lemma SearchNearest(fat: seq<nat>, clst: nat, last: nat, ncl: nat)
    requires CreateResult(fat, clst, last, ncl) && (clst == 0 || (2 <= clst < |fat| && fat[clst] >= |fat|))
    ensures var s := if clst != 0 then clst else if 1 <= last < |fat| then last else 1;
      && (ncl >= 2 ==> Nearest(fat, s, ncl))
      && (ncl == 1 ==> exists c: nat :: Reached(fat, s, c) && fat[c] == 1)
      && (ncl == 0 ==> forall c: nat :: 2 <= c < |fat| ==> fat[c] != 0 && fat[c] != 1)
  {
    var s := if clst != 0 then clst else if 1 <= last < |fat| then last else 1;
    forall r: nat, c: nat | && 2 <= r < |fat| && 1 <= s < |fat| && ClearBefore(fat, s, r)
                            && 2 <= c < |fat| && (if r > s then s < c < r else c > s || c < r)
      ensures fat[c] != 0 && fat[c] != 1
    {
      assert Rank(s, |fat|, c) < Rank(s, |fat|, r);
    }
    if ncl == 1 {
      var c: nat :| 2 <= c < |fat| && fat[c] == 1 && ClearBefore(fat, s, c);
      assert Reached(fat, s, c);
    }
  }

  /** A chain grows by the next cluster whenever that is free. */
  lemma NextIfFree(fat: seq<nat>, clst: nat, last: nat, ncl: nat)
    requires CreateResult(fat, clst, last, ncl) && 2 <= clst < |fat| && fat[clst] >= |fat|
    requires clst + 1 < |fat| && fat[clst + 1] == 0
    ensures ncl == clst + 1
  {
    assert Rank(clst, |fat|, clst + 1) == 0;
  }

  /** The k-th cluster the search looks at: scl + 1, ..., n - 1, 2, ..., scl. */
  function SearchAt(scl: nat, n: nat, k: nat): (c: nat)
    requires 1 <= scl < n && k + 2 < n
    ensures 2 <= c < n && Rank(scl, n, c) == k
  {
    if scl + 1 + k < n then scl + 1 + k else scl + 1 + k - n + 2
  }

  /** The place of cluster c in that order. */
  function Rank(scl: nat, n: nat, c: nat): (k: nat)
    requires 1 <= scl < n && 2 <= c < n
    ensures k + 2 < n
  {
    if c > scl then c - scl - 1 else n - 1 - scl + (c - 2)
  }

  /** Every cluster has one place in the order. */
  lemma SearchesAll(scl: nat, n: nat, c: nat)
    requires 1 <= scl < n && 2 <= c < n
    ensures SearchAt(scl, n, Rank(scl, n, c)) == c
  {
  }

  /** Nothing the search meets before c stops it. */
  ghost predicate ClearBefore(fat: seq<nat>, scl: nat, c: nat)
    requires 1 <= scl < |fat| && 2 <= c < |fat|
  {
    forall d: nat :: 2 <= d < |fat| && Rank(scl, |fat|, d) < Rank(scl, |fat|, c) ==> fat[d] != 0 && fat[d] != 1
  }

  /** r is the first free cluster in the order of the search, and no corrupt entry comes before it. */
  ghost predicate FirstFree(fat: seq<nat>, scl: nat, r: nat) {
    1 <= scl < |fat| && 2 <= r < |fat| && fat[r] == 0 && ClearBefore(fat, scl, r)
  }

  /** A corrupt entry comes before every free cluster in the order of the search. */
  ghost predicate BadFirst(fat: seq<nat>, scl: nat) {
    1 <= scl < |fat| && exists c: nat :: 2 <= c < |fat| && fat[c] == 1 && ClearBefore(fat, scl, c)
  }

  ghost predicate NoneFree(fat: seq<nat>) {
    forall c: nat :: 2 <= c < |fat| ==> fat[c] != 0
  }

  /** Some entry holds 1, which is no link. */
  ghost predicate HasBadLink(fat: seq<nat>) {
    exists c: nat :: 2 <= c < |fat| && fat[c] == 1
  }

  /** What the search for a free cluster returns. */
  ghost predicate SearchResult(fat: seq<nat>, scl: nat, ncl: nat) {
    || (ncl >= 2 && FirstFree(fat, scl, ncl))
    || (ncl == 0 && NoneFree(fat) && !HasBadLink(fat))
    || (ncl == 1 && BadFirst(fat, scl))
  }

  /** The search on a FAT without corrupt entries. */
  lemma CleanSearch(fat: seq<nat>, scl: nat, ncl: nat)
    requires SearchResult(fat, scl, ncl) && !HasBadLink(fat)
    ensures ncl != 1 && (ncl == 0 ==> NoneFree(fat)) && (ncl >= 2 ==> ncl < |fat| && fat[ncl] == 0)
  {
    hide ClearBefore, NoneFree;
  }

  /** The FAT determines what the search returns. */
  lemma SearchDetermined(fat: seq<nat>, scl: nat, ncl: nat)
    requires SearchResult(fat, scl, ncl) && 1 <= scl < |fat|
    ensures ncl == 0 <==> NoneFree(fat) && !HasBadLink(fat)
    ensures ncl == 1 <==> BadFirst(fat, scl)
    ensures forall r: nat :: r >= 2 ==> (ncl == r <==> FirstFree(fat, scl, r))
  {
    hide ClearBefore;
    forall c: nat, d: nat | && 2 <= c < |fat| && ClearBefore(fat, scl, c) && fat[c] < 2
                            && 2 <= d < |fat| && ClearBefore(fat, scl, d) && fat[d] < 2
      ensures c == d
    {
      FirstOnce(fat, scl, c, d);
    }
  }

  lemma FirstOnce(fat: seq<nat>, scl: nat, c: nat, d: nat)
    requires 1 <= scl < |fat| && 2 <= c < |fat| && 2 <= d < |fat|
    requires ClearBefore(fat, scl, c) && ClearBefore(fat, scl, d) && fat[c] < 2 && fat[d] < 2
    ensures c == d
  {
    SearchesAll(scl, |fat|, c);
    SearchesAll(scl, |fat|, d);
  }

  /** The clusters looked at so far, in the order of the search; none of them stopped it. */
  ghost predicate Passed(fat: seq<nat>, scl: nat, looked: seq<nat>) {
    && 1 <= scl < |fat| && |looked| + 2 <= |fat| && SearchOrder(|fat|, scl, looked)
    && forall i :: 0 <= i < |looked| ==> fat[looked[i]] != 0 && fat[looked[i]] != 1
  }

  ghost predicate SearchOrder(n: nat, scl: nat, looked: seq<nat>) {
    && 1 <= scl < n && |looked| + 2 <= n
    && forall i :: 0 <= i < |looked| ==> 2 <= looked[i] < n && looked[i] == SearchAt(scl, n, i)
  }

  /** No cluster is looked at twice. */
  lemma LookedOnce(n: nat, scl: nat, looked: seq<nat>)
    requires SearchOrder(n, scl, looked)
    ensures Distinct(looked)
  {
    forall i, j | 0 <= i < j < |looked|
      ensures looked[i] != looked[j]
    {
      assert Rank(scl, n, looked[i]) == i && Rank(scl, n, looked[j]) == j;
    }
  }

  /** The next cluster stops the search, or is passed. */
  lemma LookAt(fat: seq<nat>, scl: nat, looked: seq<nat>, c: nat)
    requires Passed(fat, scl, looked) && 1 <= scl < |fat| && |looked| + 2 < |fat|
    requires c == if scl + 1 + |looked| < |fat| then scl + 1 + |looked| else scl + 1 + |looked| - |fat| + 2
    ensures SearchOrder(|fat|, scl, looked + [c])
    ensures 2 <= c < |fat| && (fat[c] == 0 ==> SearchResult(fat, scl, c))
    ensures fat[c] == 1 ==> SearchResult(fat, scl, 1)
    ensures fat[c] != 0 && fat[c] != 1 ==> Passed(fat, scl, looked + [c])
  {
    forall d: nat | 2 <= d < |fat| && Rank(scl, |fat|, d) < Rank(scl, |fat|, c)
      ensures fat[d] != 0 && fat[d] != 1
    {
      SearchesAll(scl, |fat|, d);
      assert looked[Rank(scl, |fat|, d)] == d;
    }
    assert ClearBefore(fat, scl, c);
  }

  /** All clusters have been looked at. */
  lemma AllPassed(fat: seq<nat>, scl: nat, looked: seq<nat>)
    requires Passed(fat, scl, looked) && |looked| + 2 == |fat|
    ensures SearchResult(fat, scl, 0)
  {
    forall c: nat | 2 <= c < |fat|
      ensures fat[c] != 0 && fat[c] != 1
    {
      SearchesAll(scl, |fat|, c);
      assert looked[Rank(scl, |fat|, c)] == c;
    }
  }

  /** The circular search of create_chain. The clusters looked at are the first ones in its order, none
      of them twice, up to the one that stops the search. */
  method FindFree(fs: FATFS, scl: nat) returns (ncl: nat, ghost looked: seq<nat>)
    requires fs.Valid() && fs.disk.reliable && 1 <= scl < fs.g.nFatent
    modifies fs`winsect, fs`wflag, fs.win, fs.disk
    ensures fs.Valid() && fs.View() == old(fs.View())
    ensures fs.winsect == old(fs.winsect) || InFat(fs.g, fs.winsect)
    ensures SearchResult(FatOf(fs), scl, ncl) && (ncl >= 2 ==> InFat(fs.g, fs.winsect))
    ensures SearchOrder(fs.g.nFatent, scl, looked) && looked != []
    ensures Distinct(looked)
    ensures Passed(FatOf(fs), scl, looked[..|looked| - 1])
    ensures ncl == 0 ==> |looked| == fs.g.nFatent - 2
    ensures ncl == 1 ==> looked[|looked| - 1] < fs.g.nFatent && FatOf(fs)[looked[|looked| - 1]] == 1
    ensures ncl >= 2 ==> looked[|looked| - 1] == ncl
  {
    hide FATFS.Valid, FATFS.View, Fat, InFat, Sizes, Layout, Uniform, Passed, SearchOrder, SearchResult, Rank;
    hide Distinct, EndMark, Masked, SearchAt, InMirror, Mirrored, Store, Overlay;
    ghost var fat := FatOf(fs);
    ViewFacts(fs);
    looked := [];
    PassedNone(fat, scl);
    ncl := scl;
    while true
      invariant fs.Valid() && fs.View() == old(fs.View())
      invariant fs.winsect == old(fs.winsect) || InFat(fs.g, fs.winsect)
      invariant Passed(fat, scl, looked) && SearchOrder(|fat|, scl, looked)
      invariant |looked| + 2 <= |fat| && (|looked| + 2 == |fat| ==> scl == 1)
      invariant ncl == if scl + |looked| < |fat| then scl + |looked| else scl + |looked| - |fat| + 2
      invariant looked != [] ==> Passed(fat, scl, looked[..|looked| - 1])
      decreases |fat| - |looked|
    {
      ncl := ncl + 1;
      if ncl >= fs.g.nFatent {
        ncl := 2;
        if ncl > scl {
          AllPassed(fat, scl, looked);
          LookedOnce(|fat|, scl, looked);
          return 0, looked;
        }
      }
      LookAt(fat, scl, looked, ncl);
      looked := looked + [ncl];
      assert looked[..|looked| - 1] + [ncl] == looked;
      var cs := GetFat(fs, ncl);
      LookedOnce(|fat|, scl, looked);
      if cs == 0 {
        return;
      }
      if cs == 0xFFFF_FFFF || cs == 1 {
        return 1, looked;
      }
      if ncl == scl {
        AllPassed(fat, scl, looked);
        return 0, looked;
      }
    }
  }

  lemma PassedNone(fat: seq<nat>, scl: nat)
    requires 1 <= scl < |fat| && |fat| >= 3
    ensures Passed(fat, scl, []) && SearchOrder(|fat|, scl, [])
  {
  }

  /** What CreateChain needs to know about the volume it works on. */
  lemma ViewFacts(fs: FATFS)
    requires fs.Valid()
    ensures EndMark(fs.g.fsType) >= fs.g.nFatent >= 3 && fs.g.nFatent < 0x1000_0000
    ensures forall c: nat :: c < fs.g.nFatent ==> Masked(fs.g.fsType, c) == c
    ensures |fs.View()| == |fs.disk.sec|
  {
    hide Layout, Uniform, Masked;
    EndMarkIsEnd(fs.g, |fs.disk.sec|);
  }

  lemma FoundIsFree(fat: seq<nat>, scl: nat, r: nat)
    requires SearchResult(fat, scl, r) && r >= 2
    ensures r < |fat| && fat[r] == 0
  {
  }

  /** Two put_fat calls: the new cluster becomes an end, then its predecessor links to it. */
  lemma LinkTwo(v: Sectors, v1: Sectors, v2: Sectors, g: Geom, ncl: nat, clst: nat)
    requires EntryPut(v, v1, g, ncl, 0x0FFF_FFFF) && EntryPut(v1, v2, g, clst, ncl)
    requires Masked(g.fsType, ncl) == ncl && clst != 0
    ensures Fat(v2, g) == Stretched(Fat(v, g), clst, ncl, EndMark(g.fsType))
    ensures SameOutsideFat(v, v2, g) && (Mirrored(v, g) ==> Mirrored(v2, g))
  {
    hide Fat, Masked, Mirrored;
  }

  lemma StretchCount(fat: seq<nat>, clst: nat, ncl: nat, end: nat)
    requires 2 <= ncl < |fat| && fat[ncl] == 0 && end > 0
    requires clst != 0 ==> 2 <= clst < |fat| && fat[clst] != 0
    ensures clst < |fat| && CountFree(Stretched(fat, clst, ncl, end), 2) == CountFree(fat, 2) - 1
  {
    hide CountFree;
    CountFreeUpdate(fat, ncl, end, 2);
    if clst != 0 {
      CountFreeUpdate(fat[ncl := end], clst, ncl, 2);
    }
  }

  /**
   * create_chain: stretch the chain whose last cluster is clst, or start a new one (clst == 0).
   * Returns the cluster that now follows; 0 when the volume is full, 1 when the FAT is corrupt.
   */
  method CreateChain(fs: FATFS, clst: nat) returns (ncl: nat)
    requires fs.Valid() && fs.disk.reliable
    modifies fs, fs.win, fs.disk
    ensures fs.Valid() && |fs.View()| == |old(fs.View())|
    ensures fs.winsect == old(fs.winsect) || InFat(fs.g, fs.winsect)
    ensures CreateResult(old(FatOf(fs)), clst, old(fs.lastClust), ncl)
    ensures Allocates(old(FatOf(fs)), clst, ncl) ==>
              Nearest(old(FatOf(fs)), if clst != 0 then clst else if 1 <= old(fs.lastClust) < fs.g.nFatent
                                                                  then old(fs.lastClust) else 1, ncl)
    // nothing changes unless a cluster was allocated
    ensures !Allocates(old(FatOf(fs)), clst, ncl) ==>
              fs.View() == old(fs.View()) && fs.lastClust == old(fs.lastClust) && fs.freeClust == old(fs.freeClust)
    // exactly the links of the new cluster change
    ensures Allocates(old(FatOf(fs)), clst, ncl) ==>
              && clst < fs.g.nFatent && 2 <= ncl < fs.g.nFatent
              && FatOf(fs) == Stretched(old(FatOf(fs)), clst, ncl, EndMark(fs.g.fsType))
              && SameOutsideFat(old(fs.View()), fs.View(), fs.g)
              && (Mirrored(old(fs.View()), fs.g) ==> Mirrored(fs.View(), fs.g))
              && fs.lastClust == ncl && InFat(fs.g, fs.winsect)
    ensures CountKept(fs)
  {
    hide FATFS.Valid, FATFS.View, Fat, InFat, Sizes, Layout, Uniform, Mirrored, SameOutsideFat, FirstFree, NoneFree;
    hide HasBadLink, CountFree, EndMark, Masked, Stretched, Nearest, BadFirst;
    ghost var fat := FatOf(fs);
    ViewFacts(fs);
    var scl := ScanStart(clst, fs.lastClust, fs.g.nFatent);
    if clst != 0 {
      var cs := GetFat(fs, clst);
      if cs < 2 {
        return 1;
      }
      if cs < fs.g.nFatent {
        return cs;
      }
    }
    ghost var looked;
    ncl, looked := FindFree(fs, scl);
    if ncl >= 2 {
      FoundIsFree(fat, scl, ncl);
      SearchNearest(fat, clst, fs.lastClust, ncl);
      LinkCluster(fs, clst, ncl);
    }
  }

  /** The second half of create_chain: link the free cluster ncl behind clst and count it. */
  method LinkCluster(fs: FATFS, clst: nat, ncl: nat)
    requires fs.Valid() && fs.disk.reliable && clst < fs.g.nFatent
    requires clst != 0 ==> 2 <= clst && FatOf(fs)[clst] != 0
    requires 2 <= ncl < fs.g.nFatent && FatOf(fs)[ncl] == 0
    modifies fs, fs.win, fs.disk
    ensures fs.Valid() && |fs.View()| == |old(fs.View())| && InFat(fs.g, fs.winsect)
    ensures FatOf(fs) == Stretched(old(FatOf(fs)), clst, ncl, EndMark(fs.g.fsType))
    ensures SameOutsideFat(old(fs.View()), fs.View(), fs.g)
    ensures Mirrored(old(fs.View()), fs.g) ==> Mirrored(fs.View(), fs.g)
    ensures fs.lastClust == ncl
    ensures fs.freeClust ==
              if old(fs.freeClust) == 0xFFFF_FFFF then 0xFFFF_FFFF else (old(fs.freeClust) + 0xFFFF_FFFF) % W32
    ensures CountKept(fs)
  {
    hide FATFS.Valid, FATFS.View, Fat, InFat, Sizes, Layout, Uniform, Mirrored, SameOutsideFat, CountFree, Masked;
    hide Sub32;
    ghost var fat := FatOf(fs);
    ghost var v := fs.View();
    ViewFacts(fs);
    StretchCount(fat, clst, ncl, EndMark(fs.g.fsType));
    CountBound(fat, ncl);
    OneFurther(fs.freeClust);
    var res := PutFat(fs, ncl, 0x0FFF_FFFF);
    ghost var v1 := fs.View();
    if clst != 0 {
      res := PutFat(fs, clst, ncl);
      LinkTwo(v, v1, fs.View(), fs.g, ncl, clst);
    }
    fs.lastClust := ncl;
    if fs.freeClust != 0xFFFF_FFFF {
      fs.freeClust := Sub32(fs.freeClust, 1);
      fs.fsiDirty := true;
    }
  }

  /** A free cluster was taken: clst ended its chain, or was 0. */
  ghost predicate Allocates(fat: seq<nat>, clst: nat, ncl: nat) {
    ncl >= 2 && (clst == 0 || (clst < |fat| && fat[clst] >= |fat|))
  }

  /** Which cluster create_chain returns. */
  ghost predicate CreateResult(fat: seq<nat>, clst: nat, last: nat, ncl: nat) {
    if clst != 0 && (clst < 2 || clst >= |fat| || fat[clst] < 2) then ncl == 1
    else if clst != 0 && fat[clst] < |fat| then ncl == fat[clst]
    else SearchResult(fat, ScanStart(clst, last, |fat|), ncl)
  }

  lemma UnlinkEnd(fat: seq<nat>, c: nat)
    ensures c < 2 || c >= |fat| || fat[c] <= 1 ==> Unlinked(fat, c) == fat
    ensures HitsBadLink(fat, c) ==> 2 <= c < |fat| && fat[c] != 0
    ensures 2 <= c < |fat| && fat[c] == 1 ==> HitsBadLink(fat, c)
  {
  }

  /** Views that agree outside the FAT, in a row. */
  lemma SameOutside(v: Sectors, v1: Sectors, v2: Sectors, g: Geom)
    ensures SameOutsideFat(v, v, g)
    ensures SameOutsideFat(v, v1, g) && SameOutsideFat(v1, v2, g) ==> SameOutsideFat(v, v2, g)
  {
  }

  function Inc32(x: nat): nat {
    (x + 1) % W32
  }

  lemma OneFurther(x: nat)
    ensures Sub32(x, 1) == (x + 0xFFFF_FFFF) % W32 && Inc32(x) == (x + 1) % W32
  {
    DivModUnique(x + 0xFFFF_FFFF, W32, (x - 1) / W32 + 1, (x - 1) % W32);
  }

  lemma CountBound(fat: seq<nat>, c: nat)
    requires 3 <= |fat| < 0x1000_0000 && 2 <= c < |fat|
    ensures Inc32(CountFree(fat, 2)) == CountFree(fat, 2) + 1
    ensures CountFree(fat, 2) > 0 ==> Sub32(CountFree(fat, 2), 1) == CountFree(fat, 2) - 1
    ensures CountFree(fat, 2) < 0x1000_0000
  {
    hide CountFree;
  }

  /** One turn of remove_chain: mark the cluster free and count it. */
  method FreeCluster(fs: FATFS, clst: nat)
    requires fs.Valid() && fs.disk.reliable && 2 <= clst < fs.g.nFatent && FatOf(fs)[clst] != 0
    modifies fs`winsect, fs`wflag, fs`freeClust, fs`fsiDirty, fs.win, fs.disk
    ensures fs.Valid() && |fs.View()| == |old(fs.View())| && InFat(fs.g, fs.winsect)
    ensures FatOf(fs) == old(FatOf(fs))[clst := 0]
    ensures SameOutsideFat(old(fs.View()), fs.View(), fs.g)
    ensures Mirrored(old(fs.View()), fs.g) ==> Mirrored(fs.View(), fs.g)
    ensures fs.freeClust == if old(fs.freeClust) == 0xFFFF_FFFF then 0xFFFF_FFFF else (old(fs.freeClust) + 1) % W32
    ensures CountKept(fs)
  {
    hide FATFS.Valid, FATFS.View, Fat, InFat, Sizes, Layout, Uniform, Mirrored, SameOutsideFat, CountFree, Masked;
    hide Inc32;
    ViewFacts(fs);
    CountFreeUpdate(FatOf(fs), clst, 0, 2);
    CountBound(FatOf(fs), clst);
    OneFurther(fs.freeClust);
    var res := PutFat(fs, clst, 0);
    if fs.freeClust != 0xFFFF_FFFF {
      fs.freeClust := Inc32(fs.freeClust);
      fs.fsiDirty := true;
    }
  }

  /**
   * remove_chain: free the clusters linked from clst on. It ends on every FAT, cyclic and
   * cross-linked ones included, because each turn frees a cluster in use.
   */
  method RemoveChain(fs: FATFS, clst: nat) returns (res: FResult)
    requires fs.Valid() && fs.disk.reliable
    modifies fs`winsect, fs`wflag, fs`freeClust, fs`fsiDirty, fs.win, fs.disk
    ensures fs.Valid() && |fs.View()| == |old(fs.View())|
    ensures fs.winsect == old(fs.winsect) || InFat(fs.g, fs.winsect)
    ensures FatOf(fs) == Unlinked(old(FatOf(fs)), clst)
    ensures res == if clst < 2 || clst >= fs.g.nFatent || HitsBadLink(old(FatOf(fs)), clst) then IntErr else OK
    ensures SameOutsideFat(old(fs.View()), fs.View(), fs.g)
    ensures Mirrored(old(fs.View()), fs.g) ==> Mirrored(fs.View(), fs.g)
    ensures CountKept(fs)
  {
    hide FATFS.Valid, FATFS.View, Fat, InFat, Sizes, Layout, Uniform, Mirrored, SameOutsideFat, Unlinked, HitsBadLink;
    hide InUse, Masked;
    hide CountFree;
    SameOutside(fs.View(), fs.View(), fs.View(), fs.g);
    UnlinkEnd(FatOf(fs), clst);
    if clst < 2 || clst >= fs.g.nFatent {
      return IntErr;
    }
    res := OK;
    var clst := clst;
    ghost var fat0, clst0 := FatOf(fs), clst;
    while clst < fs.g.nFatent
      invariant fs.Valid() && |fs.View()| == |old(fs.View())| && clst >= 2
      invariant fs.winsect == old(fs.winsect) || InFat(fs.g, fs.winsect)
      invariant Unlinked(FatOf(fs), clst) == Unlinked(fat0, clst0)
      invariant HitsBadLink(FatOf(fs), clst) == HitsBadLink(fat0, clst0)
      invariant SameOutsideFat(old(fs.View()), fs.View(), fs.g)
      invariant Mirrored(old(fs.View()), fs.g) ==> Mirrored(fs.View(), fs.g)
      invariant CountKept(fs)
      invariant res == OK
      decreases InUse(FatOf(fs))
    {
      var nxt := GetFat(fs, clst);
      UnlinkEnd(FatOf(fs), clst);
      if nxt == 0 { break; }
      if nxt == 1 { res := IntErr; break; }
      if nxt == 0xFFFF_FFFF { res := DiskErr; break; }
      UnlinkedStep(FatOf(fs), clst);
      ghost var v1 := fs.View();
      FreeCluster(fs, clst);
      SameOutside(old(fs.View()), v1, fs.View(), fs.g);
      clst := nxt;
    }
    UnlinkEnd(FatOf(fs), clst);
  }
}
