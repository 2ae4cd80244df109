/** Any sequence of writes, reads, seeks and truncations on one open file. */
module FileRuns {
  import opened Arith
  import opened Volume
  import opened FatCodec
  import opened Chains
  import opened Allocator
  import opened FileImage
  import opened FileSectors
  import opened FileIO

  datatype Op = OpWrite(d: seq<Byte>) | OpRead(count: nat) | OpSeek(ofs: nat) | OpTruncate

  /** A file as its bytes and a position. */
  datatype File = File(bytes: seq<Byte>, pos: nat)

  /** The simple file one operation stands for. It can grow to `cap` bytes, where writes and seeks stop; a
      write that would reach 4 GB does nothing. Bytes a seek adds have no particular value. */
  ghost predicate Step(s: File, op: Op, out: seq<Byte>, s': File, cap: nat) {
    && s.pos <= |s.bytes| <= cap
    && match op
       case OpWrite(d) =>
         && out == [] && s'.pos == (if s.pos + |d| >= W32 then s.pos else Min(s.pos + |d|, cap))
         && s'.bytes == Splice(s.bytes, s.pos, d[..s'.pos - s.pos])
       case OpRead(count) =>
         && s'.bytes == s.bytes
         && s'.pos == s.pos + Min(count, |s.bytes| - s.pos) && out == s.bytes[s.pos..s'.pos]
       case OpSeek(ofs) =>
         && out == [] && s'.pos == Min(ofs, cap)
         && |s'.bytes| == Max(|s.bytes|, s'.pos) && s'.bytes[..|s.bytes|] == s.bytes
       case OpTruncate =>
         out == [] && s' == File(s.bytes[..s.pos], s.pos)
  }

  /** A run of the simple file, through the states ss. */
  ghost predicate Run(ss: seq<File>, ops: seq<Op>, outs: seq<seq<Byte>>, cap: nat) {
    && |ss| == |ops| + 1 && |outs| == |ops|
    && forall i :: 0 <= i < |ops| ==> Step(ss[i], ops[i], outs[i], ss[i + 1], cap)
  }

  // ----- what holds of every run of the simple file -----

  /** n clusters hold x bytes exactly if x bytes need no more. */
  lemma ClustersHold(g: Geom, n: nat, x: nat)
    requires g.ss > 0 && g.csize > 0
    ensures x <= Times(n, Bcs(g)) <==> Kept(g, x) <= n
  {
    if x > 0 {
      ByteCluIs(g, x - 1);
      RestBelow(x - 1, Bcs(g));
      var i := ByteClu(g, x - 1);
      TimesNext(i, Bcs(g));
      hide ByteClu, Bcs, Times;
      if i < n {
        TimesUpTo(i + 1, n, Bcs(g));
      } else {
        TimesUpTo(n, i, Bcs(g));
      }
    }
  }

  /** A write below 4 GB, from a file of n clusters, is complete if and only if the clusters it needs further
      are free. */
  lemma CompleteIfFree(g: Geom, fat: seq<nat>, n: nat, s: File, d: seq<Byte>, out: seq<Byte>, s': File)
    requires g.ss > 0 && g.csize > 0 && s.pos + |d| < W32
    requires Step(s, OpWrite(d), out, s', Times(n + CountFree(fat, 2), Bcs(g)))
    ensures s'.pos == s.pos + |d| <==> Kept(g, s.pos + |d|) <= n + CountFree(fat, 2)
    ensures s'.pos == s.pos + |d| ==> s'.bytes == Splice(s.bytes, s.pos, d)
  {
    ClustersHold(g, n + CountFree(fat, 2), s.pos + |d|);
    hide Kept, Times, CountFree;
    assert d[..|d|] == d;
  }

  /** The operation writes to or cuts off a byte in [lo, hi). */
  predicate Touches(s: File, op: Op, lo: nat, hi: nat) {
    match op
    case OpWrite(d) => s.pos < hi && lo < s.pos + |d|
    case OpTruncate => s.pos < hi
    case _ => false
  }

  lemma StepKeeps(s: File, op: Op, out: seq<Byte>, s': File, cap: nat, lo: nat, hi: nat)
    requires Step(s, op, out, s', cap) && !Touches(s, op, lo, hi) && lo <= hi <= |s.bytes| && s.pos <= |s.bytes|
    ensures hi <= |s'.bytes| && s'.bytes[lo..hi] == s.bytes[lo..hi] && s'.pos <= |s'.bytes|
  {
    match op
    case OpWrite(d) =>
      SpliceKeeps(s.bytes, s.pos, d[..s'.pos - s.pos], lo, hi);
    case OpSeek(ofs) =>
      PrefixSlice(s.bytes, s'.bytes, lo, hi);
    case OpRead(count) =>
    case OpTruncate =>
      PrefixSlice(s'.bytes, s.bytes, lo, hi);
  }

  lemma PrefixSlice(a: seq<Byte>, b: seq<Byte>, lo: nat, hi: nat)
    requires lo <= hi <= |a| <= |b| && b[..|a|] == a
    ensures b[lo..hi] == a[lo..hi]
  {
    forall i | 0 <= i < hi - lo
      ensures b[lo..hi][i] == a[lo..hi][i]
    {
      assert b[lo + i] == b[..|a|][lo + i];
    }
  }

  lemma SpliceKeeps(c: seq<Byte>, p: nat, d: seq<Byte>, lo: nat, hi: nat)
    requires p <= |c| && lo <= hi <= |c| && (hi <= p || p + |d| <= lo)
    ensures hi <= |Splice(c, p, d)| && Splice(c, p, d)[lo..hi] == c[lo..hi]
    ensures p + |d| <= |Splice(c, p, d)|
  {
    forall i | lo <= i < hi
      ensures Splice(c, p, d)[i] == c[i]
    {
    }
  }

  /** Bytes no operation of a run touches are as before. */
  lemma {:induction false} RunKeeps(ss: seq<File>, ops: seq<Op>, outs: seq<seq<Byte>>, cap: nat, lo: nat,
                                    hi: nat, n: nat)
    requires Run(ss, ops, outs, cap) && n <= |ops| && lo <= hi <= |ss[0].bytes| && ss[0].pos <= |ss[0].bytes|
    requires forall i :: 0 <= i < n ==> !Touches(ss[i], ops[i], lo, hi)
    ensures hi <= |ss[n].bytes| && ss[n].bytes[lo..hi] == ss[0].bytes[lo..hi] && ss[n].pos <= |ss[n].bytes|
    decreases n
  {
    hide Step, Touches;
    if n == 0 {
    } else {
      RunKeeps(ss, ops, outs, cap, lo, hi, n - 1);
      StepKeeps(ss[n - 1], ops[n - 1], outs[n - 1], ss[n], cap, lo, hi);
    }
  }

  /** Reads return the last bytes written: what operation 0 wrote at p is what operation n reads
      there, whatever is done in between outside these bytes. */
  lemma ReadsLastWritten(ss: seq<File>, ops: seq<Op>, outs: seq<seq<Byte>>, cap: nat, n: nat)
    requires Run(ss, ops, outs, cap) && 0 < n < |ops| && ss[0].pos <= |ss[0].bytes|
    requires ops[0].OpWrite? && ops[n] == OpRead(|ops[0].d|)
    requires ss[0].pos + |ops[0].d| < W32 && ss[0].pos + |ops[0].d| <= cap && ss[n].pos == ss[0].pos
    requires forall i :: 0 < i < n ==> !Touches(ss[i], ops[i], ss[0].pos, ss[1].pos)
    ensures outs[n] == ops[0].d
  {
    var p, d := ss[0].pos, ops[0].d;
    assert Step(ss[0], ops[0], outs[0], ss[1], cap);
    assert d[..|d|] == d;
    assert ss[1].bytes[p..p + |d|] == d;
    RunTail(ss, ops, outs, cap);
    RunKeeps(ss[1..], ops[1..], outs[1..], cap, p, p + |d|, n - 1);
    assert Step(ss[n], ops[n], outs[n], ss[n + 1], cap);
  }

  lemma RunTail(ss: seq<File>, ops: seq<Op>, outs: seq<seq<Byte>>, cap: nat)
    requires Run(ss, ops, outs, cap) && ops != []
    ensures Run(ss[1..], ops[1..], outs[1..], cap)
  {
    hide Step;
    forall i | 0 <= i < |ops[1..]|
      ensures Step(ss[1..][i], ops[1..][i], outs[1..][i], ss[1..][i + 1], cap)
    {
      assert Step(ss[i + 1], ops[i + 1], outs[i + 1], ss[i + 2], cap);
    }
  }

  // ----- the open file does the same -----

  ghost function StateOf(f: FIL): File
    reads f`chain, f`dirty, f`dsect, f`fsize, f`fptr, f.buf, f.fs`winsect, f.fs`wflag, f.fs.win, f.fs.disk
  {
    File(f.Data(), f.fptr)
  }

  /** The sectors of all other chains are as before, and those of no cluster that lie outside the FATs. */
  ghost predicate OthersKept(g: Geom, others: set<seq<nat>>, v: Sectors, v': Sectors) {
    && |v'| == |v|
    && (forall o, s: nat :: o in others && s in Secs(g, o) && s < |v| ==> v'[s] == v[s])
    && forall s: nat :: s < g.database && s < |v| && !InFatArea(g, s) ==> v'[s] == v[s]
  }

  lemma OthersSame(g: Geom, others: set<seq<nat>>, v: Sectors)
    ensures OthersKept(g, others, v, v)
  {
  }

  lemma OthersTrans(g: Geom, others: set<seq<nat>>, a: Sectors, b: Sectors, c: Sectors)
    requires OthersKept(g, others, a, b) && OthersKept(g, others, b, c)
    ensures OthersKept(g, others, a, c)
  {
    hide Secs;
  }

  /** Two chains of a volume share no sector. */
  lemma ChainsApart(g: Geom, fat: seq<nat>, cs: set<seq<nat>>, a: seq<nat>, b: seq<nat>, s: nat)
    requires Forest(fat, cs) && a in cs && b in cs && a != b && |fat| == g.nFatent && g.csize > 0
    requires s in Secs(g, a)
    ensures s !in Secs(g, b)
  {
    hide Covered, AllChains, Secs, Span, First;
    ForestMember(fat, cs, a);
    ForestMember(fat, cs, b);
    var i :| 0 <= i < |Secs(g, a)| && Secs(g, a)[i] == s;
    forall j | 0 <= j < |Secs(g, b)|
      ensures Secs(g, b)[j] != s
    {
      SectorsApart(g, cs, a, b, i, j);
    }
  }

  lemma ForestMember(fat: seq<nat>, cs: set<seq<nat>>, a: seq<nat>)
    requires Forest(fat, cs) && a in cs
    ensures forall k :: 0 <= k < |a| ==> 2 <= a[k] < |fat|
  {
  }

  lemma SectorsApart(g: Geom, cs: set<seq<nat>>, a: seq<nat>, b: seq<nat>, i: nat, j: nat)
    requires Disjoint(cs) && a in cs && b in cs && a != b && g.csize > 0
    requires (forall k :: 0 <= k < |a| ==> a[k] >= 2) && (forall k :: 0 <= k < |b| ==> b[k] >= 2)
    requires i < |Secs(g, a)| && j < |Secs(g, b)|
    ensures Secs(g, a)[i] != Secs(g, b)[j]
  {
    CluInside(g, i, |a|);
    CluInside(g, j, |b|);
    CluSplit(g, i);
    CluSplit(g, j);
    hide CluIdx, CluOfs, Span, First;
    var c, d := a[CluIdx(g, i)], b[CluIdx(g, j)];
    assert c in a && d in b;
    NotShared(cs, a, b, d);
    if c < d { FirstApart(g, c, d); } else { FirstApart(g, d, c); }
  }

  /** What changes the file's own sectors and the FAT leaves the others alone. */
  lemma FileKeepsOthers(f: FIL, v: Sectors, v': Sectors, ch: seq<nat>, fat: seq<nat>, sclust: nat)
    requires Layout(f.fs.g, |v|) && Sizes(f.fs.g, |v|) && |fat| == f.fs.g.nFatent
    requires Owns(fat, f.others, ch, sclust) && KeepsRest(v, v', f.fs.g, Secs(f.fs.g, ch))
    ensures OthersKept(f.fs.g, f.others, v, v')
  {
    var g, cs := f.fs.g, if ch == [] then f.others else f.others + {ch};
    CsizePos(g, |v|);
    forall o, s: nat | o in f.others && s in Secs(g, o) && s < |v|
      ensures v'[s] == v[s]
    {
      OtherSector(g, |v|, fat, cs, o, s);
      if ch != [] {
        ChainsApart(g, fat, cs, o, ch, s);
      } else {
        NoSectors(g);
      }
    }
    BehindFront(g, |v|, fat, f.others, ch, sclust);
  }

  /** A file has no sector in front of the data area. */
  lemma BehindFront(g: Geom, total: nat, fat: seq<nat>, others: set<seq<nat>>, ch: seq<nat>, sclust: nat)
    requires Layout(g, total) && Sizes(g, total) && |fat| == g.nFatent && Owns(fat, others, ch, sclust)
    ensures forall s :: s in Secs(g, ch) ==> s >= g.database
  {
    hide Secs, Sizes, IsChain, Forest;
    OwnedChain(fat, others, ch, sclust);
    if ch == [] {
      NoSectors(g);
    } else {
      ChainClusters(g, fat, ch);
      SecsInData(g, total, ch);
    }
  }

  lemma NoSectors(g: Geom)
    ensures Secs(g, []) == []
  {
  }

  lemma OtherSector(g: Geom, total: nat, fat: seq<nat>, cs: set<seq<nat>>, o: seq<nat>, s: nat)
    requires Layout(g, total) && Sizes(g, total) && Forest(fat, cs) && o in cs && |fat| == g.nFatent && s in Secs(g, o)
    ensures !InFatArea(g, s)
  {
    hide Covered, Secs, Sizes;
    ForestMember(fat, cs, o);
    SecsInData(g, total, o);
  }

  predicate Legal(op: Op) {
    match op
    case OpWrite(d) => |d| < W32
    case OpSeek(ofs) => ofs < W32
    case _ => true
  }

  /** Bytes the file could have: its own clusters and all the free ones. */
  ghost function CapOf(f: FIL): nat
    reads f`chain, f.fs`winsect, f.fs`wflag, f.fs.win, f.fs.disk
  {
    Times(|f.chain| + CountFree(FatOf(f.fs), 2), Bcs(f.fs.g))
  }

  /** Clusters in use from c on. */
  ghost function UsedFrom(fat: seq<nat>, c: nat): set<nat> {
    set i: nat | c <= i < |fat| && fat[i] != 0
  }

  lemma {:induction false} FreeAndUsed(fat: seq<nat>, c: nat)
    requires c <= |fat|
    ensures CountFree(fat, c) + |UsedFrom(fat, c)| == |fat| - c
    decreases |fat| - c
  {
    if c == |fat| {
      assert UsedFrom(fat, c) == {};
    } else {
      FreeAndUsed(fat, c + 1);
      assert UsedFrom(fat, c) == UsedFrom(fat, c + 1) + if fat[c] == 0 then {} else {c};
    }
  }

  /** Clusters of the other chains. */
  ghost function OthersOf(n: nat, others: set<seq<nat>>): set<nat> {
    set i: nat | 2 <= i < n && Owned(others, i)
  }

  ghost function Members(ch: seq<nat>): set<nat> {
    set i: nat | i in ch
  }

  lemma {:induction false} MembersCount(ch: seq<nat>)
    requires Distinct(ch)
    ensures |Members(ch)| == |ch|
  {
    if ch == [] {
    } else {
      var l := |ch| - 1;
      MembersCount(ch[..l]);
      assert Members(ch) == Members(ch[..l]) + {ch[l]};
      assert ch[l] !in ch[..l];
    }
  }

  /** The file's chain and the free clusters together stay the same number while the other chains stay. */
  lemma RoomKept(fat: seq<nat>, others: set<seq<nat>>, ch: seq<nat>, sclust: nat)
    requires Owns(fat, others, ch, sclust) && |fat| >= 2
    ensures |ch| + CountFree(fat, 2) == |fat| - 2 - |OthersOf(|fat|, others)|
  {
    var all := if ch == [] then others else others + {ch};
    FreeAndUsed(fat, 2);
    UsedIs(fat, others, ch, all);
    OwnDistinct(fat, all, ch);
    MembersCount(ch);
    OthersApart(fat, others, ch, all);
    hide Owns, Forest, CountFree, UsedFrom, OthersOf, Members;
    var u, o, m := UsedFrom(fat, 2), OthersOf(|fat|, others), Members(ch);
    assert u == o + m && o !! m;
    assert |u| == |o| + |m|;
  }

  lemma OwnDistinct(fat: seq<nat>, all: set<seq<nat>>, ch: seq<nat>)
    requires Forest(fat, all) && (ch == [] || ch in all)
    ensures Distinct(ch)
  {
    if ch != [] {
      ForestChain(fat, all, ch);
    }
  }

  lemma UsedIs(fat: seq<nat>, others: set<seq<nat>>, ch: seq<nat>, all: set<seq<nat>>)
    requires Forest(fat, all) && all == if ch == [] then others else others + {ch}
    ensures UsedFrom(fat, 2) == OthersOf(|fat|, others) + Members(ch)
  {
    forall c: nat | c in UsedFrom(fat, 2)
      ensures c in OthersOf(|fat|, others) || c in Members(ch)
    {
      assert Owned(all, c);
      var a :| a in all && c in a;
      assert a in others ==> Owned(others, c);
    }
    forall c: nat | c in OthersOf(|fat|, others) || c in Members(ch)
      ensures c in UsedFrom(fat, 2)
    {
      var a :| a in all && c in a;
      ForestChain(fat, all, a);
      ChainInUse(fat, a, c);
    }
  }

  lemma OthersApart(fat: seq<nat>, others: set<seq<nat>>, ch: seq<nat>, all: set<seq<nat>>)
    requires Forest(fat, all) && all == (if ch == [] then others else others + {ch}) && ch !in others
    ensures OthersOf(|fat|, others) !! Members(ch)
  {
    forall c: nat | c in OthersOf(|fat|, others)
      ensures c !in Members(ch)
    {
      var a :| a in others && c in a;
      if ch != [] {
        NotShared(all, ch, a, c);
      }
    }
  }

  /** Clusters of the file after an operation that took it from s to s'. */
  ghost function ClustersAfter(g: Geom, n: nat, op: Op, s: File, s': File): nat {
    match op
    case OpRead(_) => n
    case OpTruncate => if s.pos < |s.bytes| then Kept(g, s.pos) else n
    case _ => Max(n, Kept(g, s'.pos))
  }

  /** The truncation does not give up the sector in the buffer: there is nothing to cut, or the position is
      inside that sector. */
  ghost predicate Harmless(g: Geom, s: File, op: Op) {
    op.OpTruncate? ==> s.pos == |s.bytes| || SecOfs(g.ss, s.pos) != 0
  }

  /** Have the file keep what holds of the FAT copies and of its buffer. */
  ghost method Settle(f: FIL)
    requires f.Valid()
    modifies f`stale, f`mirrored
    ensures f.Valid() && f.stale == !f.BufferInside() && f.mirrored == Mirrored(f.fs.View(), f.fs.g)
  {
    hide Owns, Fat, Secs, FATFS.View, FATFS.Valid, Shaped, Coherent, Placed, InData, WindowApart, AwayFrom, Mirrored;
    f.stale := !f.BufferInside();
    f.mirrored := Mirrored(f.fs.View(), f.fs.g);
  }

  /** What the settled file still keeps. */
  lemma Settled(f: FIL)
    requires f.Valid()
    ensures f.mirrored ==> Mirrored(f.fs.View(), f.fs.g)
    ensures !f.stale ==> f.BufferInside()
    ensures SecOfs(f.fs.g.ss, f.fptr) != 0 ==> f.BufferInside()
    ensures Kept(f.fs.g, f.fptr) <= |f.chain|
  {
    hide Owns, Fat, Secs, FATFS.View, FATFS.Valid, Shaped, Coherent, InData, WindowApart, AwayFrom, Mirrored, CluIdx;
    if f.fptr > 0 {
      PlacedCluster(f.fs.g, f.chain, f.fptr, f.clust, f.dsect);
    }
  }

  /** What a call did to the file, and left alone. */
  twostate predicate Called(f: FIL, op: Op, out: seq<Byte>)
    reads f, f.buf, f.fs, f.fs.win, f.fs.disk
  {
    && f.Valid() && f.err == OK && f.others == old(f.others) && f.apart == old(f.apart)
    && f.mirrored == old(f.mirrored) && (op.OpTruncate? || f.stale == old(f.stale))
    && (op.OpTruncate? && old(f.fptr) == old(f.fsize) ==> f.chain == old(f.chain) && f.dsect == old(f.dsect))
    && |f.chain| == ClustersAfter(f.fs.g, old(|f.chain|), op, old(StateOf(f)), StateOf(f))
    && Step(old(StateOf(f)), op, out, StateOf(f), old(CapOf(f)))
    && OthersKept(f.fs.g, f.others, old(f.fs.View()), f.fs.View())
    && CountKept(f.fs) && (old(f.written) || f.Data() != old(f.Data()) ==> f.written)
  }

  method CallWrite(f: FIL, d: seq<Byte>)
    requires f.Valid() && f.err == OK && f.canRead && f.canWrite && |d| < W32
    modifies f, f.buf, f.fs, f.fs.win, f.fs.disk
    ensures Called(f, OpWrite(d), [])
  {
    hide Owns, Fat, Secs, FATFS.View, FATFS.Valid, FIL.Base, FIL.Sound, FIL.Bytes, KeepsRest, Placed, NoneFree;
    hide CountFree, OthersKept, Extends, ByteClu, Kept, FIL.AtChainEnd, CapOf, Share, Step, ClustersAfter;
    ghost var v, fat, ch, sc := f.fs.View(), FatOf(f.fs), f.chain, f.sclust;
    ghost var s, cap := StateOf(f), CapOf(f);
    VolumeOf(f);
    CapFacts(f);
    var res, bw := f.Write(d);
    CapFacts(f);
    VolumeOf(f);
    WriteIsStep(s, d, bw, StateOf(f), cap);
    FileKeepsOthers(f, v, f.fs.View(), f.chain, FatOf(f.fs), f.sclust);
    Settled(f);
    GrownTo(f.fs.g, ch, f.chain, OpWrite(d), s, StateOf(f));
  }

  method CallRead(f: FIL, count: nat) returns (out: seq<Byte>)
    requires f.Valid() && f.err == OK && f.canRead && f.canWrite
    modifies f, f.buf, f.fs, f.fs.win, f.fs.disk
    ensures Called(f, OpRead(count), out)
  {
    hide Owns, Fat, Secs, FATFS.View, FATFS.Valid, FIL.Base, FIL.Sound, FIL.Bytes, KeepsRest, Placed, NoneFree;
    hide CountFree, OthersKept, Extends, ByteClu, Kept, FIL.AtChainEnd, CapOf, Share, Step, ClustersAfter;
    ghost var v, fat, ch, sc := f.fs.View(), FatOf(f.fs), f.chain, f.sclust;
    ghost var s, cap := StateOf(f), CapOf(f);
    VolumeOf(f);
    CapFacts(f);
    out := ReadOut(f, count);
    CapFacts(f);
    VolumeOf(f);
    ReadIsStep(s, count, out, StateOf(f), cap);
    FileKeepsOthers(f, v, f.fs.View(), f.chain, FatOf(f.fs), f.sclust);
    Settled(f);
    GrownTo(f.fs.g, ch, f.chain, OpRead(count), s, StateOf(f));
  }

  method CallSeek(f: FIL, ofs: nat)
    requires f.Valid() && f.err == OK && f.canRead && f.canWrite && ofs < W32
    modifies f, f.buf, f.fs, f.fs.win, f.fs.disk
    ensures Called(f, OpSeek(ofs), [])
  {
    hide Owns, Fat, Secs, FATFS.View, FATFS.Valid, FIL.Base, FIL.Sound, FIL.Bytes, KeepsRest, Placed, NoneFree;
    hide CountFree, OthersKept, Extends, ByteClu, Kept, FIL.AtChainEnd, CapOf, Share, Step, ClustersAfter;
    ghost var v, fat, ch, sc := f.fs.View(), FatOf(f.fs), f.chain, f.sclust;
    ghost var s, cap := StateOf(f), CapOf(f);
    VolumeOf(f);
    CapFacts(f);
    var res := f.Lseek(ofs);
    CapFacts(f);
    VolumeOf(f);
    SeekIsStep(s, ofs, StateOf(f), cap);
    FileKeepsOthers(f, v, f.fs.View(), f.chain, FatOf(f.fs), f.sclust);
    Settled(f);
    GrownTo(f.fs.g, ch, f.chain, OpSeek(ofs), s, StateOf(f));
  }

  method CallTruncate(f: FIL)
    requires f.Valid() && f.err == OK && f.canRead && f.canWrite
    modifies f, f.buf, f.fs, f.fs.win, f.fs.disk
    ensures Called(f, OpTruncate, [])
  {
    hide Owns, Fat, Secs, FATFS.View, FATFS.Valid, FIL.Base, FIL.Sound, FIL.Bytes, KeepsRest, Placed, NoneFree;
    hide CountFree, OthersKept, Extends, ByteClu, Kept, FIL.AtChainEnd, CapOf, Share, Step, ClustersAfter;
    ghost var v, fat, ch, sc := f.fs.View(), FatOf(f.fs), f.chain, f.sclust;
    ghost var s, cap := StateOf(f), CapOf(f);
    VolumeOf(f);
    CapFacts(f);
    var res := f.Truncate();
    CapFacts(f);
    VolumeOf(f);
    TruncateIsStep(s, StateOf(f), cap);
    FileKeepsOthers(f, v, f.fs.View(), ch, fat, sc);
    Settled(f);
    GrownTo(f.fs.g, ch, f.chain, OpTruncate, s, StateOf(f));
  }

  /** One operation on the open file is the same operation on the simple file, whose capacity does not
      change; other files keep their bytes, and equal FAT copies stay equal. */
  method Perform(f: FIL, op: Op) returns (out: seq<Byte>)
    requires f.Valid() && f.err == OK && f.canRead && f.canWrite && Legal(op)
    modifies f, f.buf, f.fs, f.fs.win, f.fs.disk
    ensures f.Valid() && f.err == OK && f.others == old(f.others) && f.apart == old(f.apart)
    ensures Step(old(StateOf(f)), op, out, StateOf(f), CapOf(f)) && CapOf(f) == old(CapOf(f))
    ensures |f.chain| == ClustersAfter(f.fs.g, old(|f.chain|), op, old(StateOf(f)), StateOf(f))
    ensures old(f.BufferInside()) && Harmless(f.fs.g, old(StateOf(f)), op) ==> f.BufferInside()
    ensures old(Mirrored(f.fs.View(), f.fs.g)) ==> Mirrored(f.fs.View(), f.fs.g)
    ensures OthersKept(f.fs.g, f.others, old(f.fs.View()), f.fs.View())
    ensures CountKept(f.fs) && (old(f.written) || f.Data() != old(f.Data()) ==> f.written)
  {
    hide Owns, Fat, Secs, FATFS.View, FATFS.Valid, FIL.Valid, FIL.Bytes, Placed, Kept, CapOf, Share, Step, Mirrored;
    hide OthersKept, ClustersAfter, CountFree, FreeExact;
    Settle(f);
    ghost var s := StateOf(f);
    CapFacts(f);
    out := [];
    match op {
      case OpWrite(d) => CallWrite(f, d);
      case OpRead(count) => out := CallRead(f, count);
      case OpSeek(ofs) => CallSeek(f, ofs);
      case OpTruncate => CallTruncate(f);
    }
    CapFacts(f);
    VolumeOf(f);
    Settled(f);
    TruncatedInside(f.fs.g, s, op, out, StateOf(f), CapOf(f));
  }

  /** A harmless truncation leaves the position where it was. */
  lemma TruncatedInside(g: Geom, s: File, op: Op, out: seq<Byte>, s': File, cap: nat)
    requires Step(s, op, out, s', cap)
    ensures op.OpTruncate? ==> s'.pos == s.pos
  {
  }

  /** How far a write or a seek stretched the chain. */
  lemma GrownTo(g: Geom, ch: seq<nat>, ch': seq<nat>, op: Op, s: File, s': File)
    requires op.OpWrite? || op.OpSeek? ==>
               && Extends(ch, ch') && Kept(g, s'.pos) <= |ch'|
               && (ch' == ch || (s'.pos > 0 && ByteClu(g, s'.pos - 1) + 1 == |ch'|))
    requires op.OpRead? ==> ch' == ch
    requires op.OpTruncate? ==> ch' == if s.pos < |s.bytes| then ch[..Min(Kept(g, s.pos), |ch|)] else ch
    requires op.OpTruncate? && s.pos < |s.bytes| ==> Kept(g, s.pos) <= |ch|
    ensures |ch'| == ClustersAfter(g, |ch|, op, s, s')
  {
    hide ByteClu;
  }

  lemma WriteIsStep(s: File, d: seq<Byte>, bw: nat, s': File, cap: nat)
    requires s.pos <= |s.bytes| <= cap && bw <= |d| && s'.pos == s.pos + bw <= cap
    requires s'.bytes == Splice(s.bytes, s.pos, d[..bw]) && (s.pos + |d| >= W32 ==> bw == 0)
    requires bw < |d| && s.pos + |d| < W32 ==> s'.pos == cap
    ensures Step(s, OpWrite(d), [], s', cap)
  {
  }

  lemma ReadIsStep(s: File, count: nat, out: seq<Byte>, s': File, cap: nat)
    requires s.pos <= |s.bytes| <= cap && s'.bytes == s.bytes
    requires s'.pos == s.pos + Min(count, |s.bytes| - s.pos) && out == s.bytes[s.pos..s'.pos]
    ensures Step(s, OpRead(count), out, s', cap)
  {
  }

  lemma SeekIsStep(s: File, ofs: nat, s': File, cap: nat)
    requires s.pos <= |s.bytes| <= cap && s'.pos <= ofs && s'.pos <= cap && (s'.pos < ofs ==> s'.pos == cap)
    requires |s'.bytes| == Max(|s.bytes|, s'.pos) && s'.bytes[..|s.bytes|] == s.bytes
    ensures Step(s, OpSeek(ofs), [], s', cap)
  {
  }

  lemma TruncateIsStep(s: File, s': File, cap: nat)
    requires s.pos <= |s.bytes| <= cap && s' == File(s.bytes[..s.pos], s.pos)
    ensures Step(s, OpTruncate, [], s', cap)
  {
  }

  lemma VolumeOf(f: FIL)
    requires f.Valid()
    ensures Layout(f.fs.g, |f.fs.View()|) && Sizes(f.fs.g, |f.fs.View()|)
    ensures Owns(FatOf(f.fs), f.others, f.chain, f.sclust)
    ensures f.fptr <= f.fsize == |f.Data()|
  {
    hide Owns, Fat, Secs, FATFS.View, Coherent, Shaped, Placed;
    FsFacts(f.fs);
  }

  /** The capacity depends on the other chains only. */
  ghost function Share(g: Geom, others: set<seq<nat>>): nat {
    var n := 2 + |OthersOf(g.nFatent, others)|;
    if g.nFatent >= n then Times(g.nFatent - n, Bcs(g)) else 0
  }

  lemma CapFacts(f: FIL)
    requires f.Valid()
    ensures f.fsize <= CapOf(f) == Share(f.fs.g, f.others)
    ensures f.AtChainEnd() && NoneFree(FatOf(f.fs)) ==> f.fptr == CapOf(f)
  {
    hide Owns, Fat, Secs, FATFS.View, Coherent, Shaped, Placed, OthersOf, CountFree, Times, Bcs;
    VolumeOf(f);
    ViewFacts(f.fs);
    f.SeekBound(f.fsize);
    RoomKept(FatOf(f.fs), f.others, f.chain, f.sclust);
    CountFreeZero(FatOf(f.fs), 2);
    TimesUpTo(|f.chain|, |f.chain| + CountFree(FatOf(f.fs), 2), Bcs(f.fs.g));
  }

  /** f_read into a buffer of its own. */
  method ReadOut(f: FIL, count: nat) returns (out: seq<Byte>)
    requires f.Valid() && f.err == OK && f.canRead
    modifies f`dirty, f`clust, f`dsect, f`fptr, f.buf, f.fs`winsect, f.fs`wflag, f.fs.win, f.fs.disk
    ensures f.Valid() && f.Data() == old(f.Data()) && old(f.fptr) <= f.fptr <= f.fsize
    ensures f.fptr == old(f.fptr) + Min(count, f.fsize - old(f.fptr)) && out == f.Data()[old(f.fptr)..f.fptr]
    ensures KeepsRest(old(f.fs.View()), f.fs.View(), f.fs.g, Secs(f.fs.g, f.chain)) && FatOf(f.fs) == old(FatOf(f.fs))
  {
    hide Owns, Fat, Secs, FATFS.View, FATFS.Valid, FIL.Base, FIL.Sound, FIL.Bytes, KeepsRest, Placed;
    var rbuff := new Byte[count](_ => 0);
    var res, br := f.Read(rbuff, count);
    out := rbuff[..br];
  }

  /** Any run of operations on one open file is a run of the simple file. */
  method RunOps(f: FIL, ops: seq<Op>) returns (outs: seq<seq<Byte>>, ghost ss: seq<File>)
    requires f.Valid() && f.err == OK && f.canRead && f.canWrite && forall i :: 0 <= i < |ops| ==> Legal(ops[i])
    modifies f, f.buf, f.fs, f.fs.win, f.fs.disk
    ensures f.Valid() && f.err == OK && f.others == old(f.others) && CapOf(f) == old(CapOf(f))
    ensures Run(ss, ops, outs, CapOf(f)) && ss[0] == old(StateOf(f)) && ss[|ops|] == StateOf(f)
    ensures OthersKept(f.fs.g, f.others, old(f.fs.View()), f.fs.View())
    ensures old(Mirrored(f.fs.View(), f.fs.g)) ==> Mirrored(f.fs.View(), f.fs.g)
    ensures CountKept(f.fs) && (old(f.written) || f.Data() != old(f.Data()) ==> f.written)
  {
    hide FIL.Valid, FATFS.View, OthersKept, Step, StateOf, CapOf, FreeExact, Fat;
    hide Legal, Mirrored, ClustersAfter, Harmless;
    ghost var v0, cap := f.fs.View(), CapOf(f);
    OthersSame(f.fs.g, f.others, v0);
    outs, ss := [], [StateOf(f)];
    var k := 0;
    while k < |ops|
      invariant 0 <= k <= |ops| && f.Valid() && f.err == OK && f.others == old(f.others) && CapOf(f) == cap
      invariant Run(ss, ops[..k], outs, cap) && ss[0] == old(StateOf(f)) && ss[k] == StateOf(f)
      invariant OthersKept(f.fs.g, f.others, v0, f.fs.View())
      invariant old(Mirrored(f.fs.View(), f.fs.g)) ==> Mirrored(f.fs.View(), f.fs.g)
      invariant CountKept(f.fs) && (old(f.written) || f.Data() != old(f.Data()) ==> f.written)
    {
      ghost var v1 := f.fs.View();
      var out := Perform(f, ops[k]);
      RunNext(ss, ops[..k], outs, cap, ops[k], out, StateOf(f));
      assert ops[..k + 1] == ops[..k] + [ops[k]];
      OthersTrans(f.fs.g, f.others, v0, v1, f.fs.View());
      outs, ss := outs + [out], ss + [StateOf(f)];
      k := k + 1;
    }
    assert ops[..k] == ops;
  }

  lemma RunNext(ss: seq<File>, ops: seq<Op>, outs: seq<seq<Byte>>, cap: nat, op: Op, out: seq<Byte>, s: File)
    requires Run(ss, ops, outs, cap) && Step(ss[|ops|], op, out, s, cap)
    ensures Run(ss + [s], ops + [op], outs + [out], cap)
  {
    hide Step;
    var ss', ops', outs' := ss + [s], ops + [op], outs + [out];
    forall i | 0 <= i < |ops'|
      ensures Step(ss'[i], ops'[i], outs'[i], ss'[i + 1], cap)
    {
      if i < |ops| {
        assert Step(ss[i], ops[i], outs[i], ss[i + 1], cap);
      }
    }
  }
}
