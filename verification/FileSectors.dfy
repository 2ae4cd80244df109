/** The data sectors behind a cluster chain. */
module FileSectors {
  import opened Arith
  import opened Volume
  import opened Chains
  import opened FileImage

  /** clust2sect: first sector of cluster clst, 0 when there is no such cluster. */
  function Clust2Sect(g: Geom, clst: nat): nat {
    var c := Sub32(clst, 2);
    if c >= g.nFatent - 2 then 0 else c * g.csize + g.database
  }

  /** Position in the chain of the file's sector k, and its place in that cluster. */
  function CluIdx(g: Geom, k: nat): nat {
    if g.csize == 0 then 0 else k / g.csize
  }

  function CluOfs(g: Geom, k: nat): nat {
    if g.csize == 0 then 0 else k % g.csize
  }

  /** Number of sectors of n clusters. */
  function Span(g: Geom, n: nat): nat {
    n * g.csize
  }

  /** First sector of cluster c. */
  function First(g: Geom, c: nat): nat {
    if c < 2 then 0 else g.database + (c - 2) * g.csize
  }

  /** The sectors of a chain, in file order. */
  function Secs(g: Geom, ch: seq<nat>): (r: seq<nat>)
    ensures |r| == Span(g, |ch|)
    ensures forall k :: 0 <= k < |r| ==> r[k] == SecNo(g, ch, k)
  {
    seq(Span(g, |ch|), k requires 0 <= k => SecNo(g, ch, k))
  }

  function SecNo(g: Geom, ch: seq<nat>, k: nat): nat {
    if CluIdx(g, k) < |ch| then First(g, ch[CluIdx(g, k)]) + CluOfs(g, k) else 0
  }

  /** Sector s belongs to the data area. */
  predicate InData(g: Geom, total: nat, s: nat) {
    g.database <= s < total
  }

  /** Clusters of ch are data clusters. */
  ghost predicate Clusters(g: Geom, ch: seq<nat>) {
    forall i :: 0 <= i < |ch| ==> 2 <= ch[i] < g.nFatent
  }

  lemma ChainClusters(g: Geom, fat: seq<nat>, ch: seq<nat>)
    requires IsChain(fat, ch) && |fat| == g.nFatent
    ensures Clusters(g, ch) && Distinct(ch)
  {
  }

  lemma CluSplit(g: Geom, k: nat)
    requires g.csize > 0
    ensures k == Span(g, CluIdx(g, k)) + CluOfs(g, k) && CluOfs(g, k) < g.csize
  {
  }

  lemma CluInside(g: Geom, k: nat, n: nat)
    requires g.csize > 0 && k < Span(g, n)
    ensures CluIdx(g, k) < n
  {
    DivLess(k, g.csize, n);
  }

  lemma CluIs(g: Geom, k: nat, i: nat, r: nat)
    requires k == Span(g, i) + r && r < g.csize
    ensures CluIdx(g, k) == i && CluOfs(g, k) == r
  {
    DivModUnique(k, g.csize, i, r);
  }

  lemma SpanMonotone(g: Geom, m: nat, n: nat)
    requires m <= n
    ensures Span(g, m) <= Span(g, n)
  {
    MulMonotone(m, n, g.csize);
  }

  lemma SpanNext(g: Geom, n: nat)
    ensures Span(g, n + 1) == Span(g, n) + g.csize
  {
  }

  /** Clusters occupy disjoint runs of sectors inside the data area. */
  lemma FirstRange(g: Geom, total: nat, c: nat)
    requires Sizes(g, total) && 2 <= c < g.nFatent
    ensures g.csize > 0
    ensures First(g, c) >= g.database && First(g, c) + g.csize <= total
  {
    hide IsPow2, FatFits, RootFits;
    MulMonotone(c - 2 + 1, g.nFatent - 2, g.csize);
    assert (c - 2 + 1) * g.csize == (c - 2) * g.csize + g.csize;
  }

  lemma FirstApart(g: Geom, c: nat, d: nat)
    requires 2 <= c < d
    ensures First(g, c) + g.csize <= First(g, d)
  {
    MulMonotone(c - 2 + 1, d - 2, g.csize);
    assert (c - 2 + 1) * g.csize == (c - 2) * g.csize + g.csize;
  }

  lemma Clust2SectIs(g: Geom, total: nat, c: nat)
    requires Sizes(g, total) && 2 <= c < g.nFatent && total < W32
    ensures Clust2Sect(g, c) == First(g, c)
  {
    hide IsPow2, DataFits, RootFits, FatFits;
  }

  /** Any two sector positions of a chain show different sectors. */
  lemma SecsDistinct(g: Geom, ch: seq<nat>)
    requires g.csize > 0 && Clusters(g, ch) && Distinct(ch)
    ensures Distinct(Secs(g, ch))
  {
    hide CluIdx, CluOfs, Span, First;
    forall i, j | 0 <= i < j < |Secs(g, ch)| ensures Secs(g, ch)[i] != Secs(g, ch)[j] {
      SecNoApart(g, ch, i, j);
    }
  }

  lemma SecNoApart(g: Geom, ch: seq<nat>, i: nat, j: nat)
    requires g.csize > 0 && Clusters(g, ch) && Distinct(ch) && i < j < Span(g, |ch|)
    ensures SecNo(g, ch, i) != SecNo(g, ch, j)
  {
    CluInside(g, i, |ch|);
    CluInside(g, j, |ch|);
    CluSplit(g, i);
    CluSplit(g, j);
    hide CluIdx, CluOfs, Span, First;
    var a, b := CluIdx(g, i), CluIdx(g, j);
    if a != b {
      var c, d := ch[a], ch[b];
      if c < d { FirstApart(g, c, d); } else { FirstApart(g, d, c); }
    }
  }

  /** The sectors of a chain lie in the data area. */
  lemma SecsInData(g: Geom, total: nat, ch: seq<nat>)
    requires Sizes(g, total) && Clusters(g, ch)
    ensures forall k :: 0 <= k < |Secs(g, ch)| ==> InData(g, total, Secs(g, ch)[k])
  {
    forall k | 0 <= k < |Secs(g, ch)| ensures InData(g, total, Secs(g, ch)[k]) {
      SecNoInData(g, total, ch, k);
    }
    hide *;
  }

  lemma SecNoInData(g: Geom, total: nat, ch: seq<nat>, k: nat)
    requires Sizes(g, total) && Clusters(g, ch) && k < Span(g, |ch|)
    ensures InData(g, total, SecNo(g, ch, k))
  {
    CsizePos(g, total);
    CluInside(g, k, |ch|);
    CluSplit(g, k);
    FirstRange(g, total, ch[CluIdx(g, k)]);
    hide CluIdx, CluOfs, Span, First, Sizes;
  }

  lemma CsizePos(g: Geom, total: nat)
    requires Sizes(g, total)
    ensures g.csize > 0 && SectorSize(g.ss) && g.nFatent >= 3
  {
  }

  /** A longer chain keeps the sectors of the shorter one. */
  lemma SecsPrefix(g: Geom, ch: seq<nat>, ch': seq<nat>)
    requires |ch| <= |ch'| && ch'[..|ch|] == ch && g.csize > 0
    ensures |Secs(g, ch)| <= |Secs(g, ch')| && Secs(g, ch')[..|Secs(g, ch)|] == Secs(g, ch)
  {
    SpanMonotone(g, |ch|, |ch'|);
    hide Span, CluOfs, CluIdx, First;
    forall k | 0 <= k < |Secs(g, ch)| ensures Secs(g, ch')[k] == Secs(g, ch)[k] {
      CluInside(g, k, |ch|);
      assert ch'[CluIdx(g, k)] == ch'[..|ch|][CluIdx(g, k)];
    }
  }

  /** Inside one cluster, the file's sectors are consecutive. */
  lemma SecsRun(g: Geom, ch: seq<nat>, k: nat, cc: nat)
    requires g.csize > 0 && CluIdx(g, k) < |ch| && CluOfs(g, k) + cc <= g.csize
    ensures k + cc <= |Secs(g, ch)|
    ensures forall i :: k <= i < k + cc ==> Secs(g, ch)[i] == First(g, ch[CluIdx(g, k)]) + CluOfs(g, k) + (i - k)
  {
    CluSplit(g, k);
    SpanMonotone(g, CluIdx(g, k) + 1, |ch|);
    SpanNext(g, CluIdx(g, k));
    hide First, Span, CluOfs, CluIdx;
    forall i | k <= i < k + cc
      ensures Secs(g, ch)[i] == First(g, ch[CluIdx(g, k)]) + CluOfs(g, k) + (i - k)
    {
      CluIs(g, i, CluIdx(g, k), CluOfs(g, k) + (i - k));
    }
  }
}
