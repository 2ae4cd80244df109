/** Two open files of one volume: what is done to one leaves the other as it was. */
module FilePairs {
  import opened Arith
  import opened Volume
  import opened FatCodec
  import opened Chains
  import opened Allocator
  import opened FileImage
  import opened FileSectors
  import opened FileIO
  import opened FileRuns

  ghost function Including(rest: set<seq<nat>>, ch: seq<nat>): set<seq<nat>> {
    if ch == [] then rest else rest + {ch}
  }

  /** Two handles with chains of their own; `rest` are the chains of all other files. */
  ghost predicate Linked(f: FIL, o: FIL, rest: set<seq<nat>>)
    reads f, o
  {
    && f != o && f.fs == o.fs && f.buf != o.buf
    && f.others == Including(rest, o.chain) && o.others == Including(rest, f.chain)
    && f.chain !in rest && o.chain !in rest && (f.chain == o.chain ==> f.chain == [])
  }

  ghost predicate Pair(f: FIL, o: FIL, rest: set<seq<nat>>)
    reads f, o, f.buf, o.buf, f.fs, f.fs.win, f.fs.disk, o.fs, o.fs.win, o.fs.disk
  {
    Linked(f, o, rest) && f.Valid() && o.Valid()
  }

  ghost function SectorSet(secs: seq<nat>): set<nat> {
    set s: nat | s in secs
  }

  /** The FAT with the two chains, from the other file's side. */
  lemma OwnsSwapped(fat: seq<nat>, rest: set<seq<nat>>, a: seq<nat>, sa: nat, b: seq<nat>, sb: nat)
    requires Owns(fat, Including(rest, b), a, sa) && b !in rest && sb == (if b == [] then 0 else b[0])
    ensures a !in rest && (a == b ==> a == [])
    ensures Owns(fat, Including(rest, a), b, sb)
  {
    hide Forest;
    assert b != [] ==> Including(Including(rest, b), a) == Including(Including(rest, a), b);
  }

  /** What makes a handle valid, apart from its bytes on the drive. */
  ghost predicate Placement(f: FIL)
    reads f, f.buf, f.fs`winsect, f.fs`wflag, f.fs.win, f.fs.disk
  {
    && f.fs.Valid() && f.fs.disk.reliable && f.buf != f.fs.win && Owns(FatOf(f.fs), f.others, f.chain, f.sclust)
    && WindowApart(f.fs.winsect, Secs(f.fs.g, f.chain), f.dsect) && AwayFrom(f.fs.winsect, f.fs.g, f.apart)
    && (f.dsect != 0 ==> InData(f.fs.g, |f.fs.View()|, f.dsect)) && Inside(f.stale, Secs(f.fs.g, f.chain), f.dsect)
    && CopiesEqual(f.mirrored, f.fs.View(), f.fs.g)
    && f.fptr <= f.fsize < W32 && Placed(f.fs.g, f.chain, f.fptr, f.clust, f.dsect)
  }

  ghost predicate ImageOk(m: Img, n: nat) {
    Shaped(m) && Coherent(m) && n <= FileImage.Capacity(m)
  }

  /** Both together are validity. */
  lemma ValidParts(f: FIL)
    ensures f.Valid() <==> Placement(f) && ImageOk(f.Img(), f.fsize)
  {
    hide Owns, Fat, Secs, FATFS.View, FATFS.Valid, Shaped, Coherent, Placed, InData, WindowApart, AwayFrom, Inside;
    hide FileImage.Capacity, CopiesEqual;
  }

  /** Sectors the other file relies on: its own, and the one in its buffer. */
  ghost function Needs(o: FIL): set<nat>
    reads o`chain, o`dsect
  {
    SectorSet(Secs(o.fs.g, o.chain)) + if o.dsect == 0 then {} else {o.dsect}
  }

  /** The window does not show them, and they lie outside the FAT. */
  lemma OwnSectors(f: FIL)
    requires f.Valid()
    ensures AwayFrom(f.fs.winsect, f.fs.g, Needs(f))
    ensures f.sclust == if f.chain == [] then 0 else f.chain[0]
    ensures Uniform(f.fs.View(), f.fs.g.ss)
  {
    hide Fat, Secs, FATFS.View, Distinct, OnDrive, Uniform, Forest, Placed;
    f.Facts(f.fsize);
  }

  /** Have the window stay away from what o relies on while f is worked on. */
  ghost method StayAway(f: FIL, o: FIL)
    requires f != o && f.fs == o.fs && f.Valid() && o.Valid()
    modifies f`apart, o`mirrored
    ensures f.Valid() && o.Valid() && f.apart == Needs(o) && !o.mirrored
  {
    hide Owns, Fat, Secs, FATFS.View, FATFS.Valid, FIL.Img, ImageOk, Placed, InData, WindowApart, AwayFrom, Needs;
    hide FIL.Valid, Mirrored;
    OwnSectors(o);
    ValidParts(f);
    ValidParts(o);
    f.apart, o.mirrored := Needs(o), false;
    ValidParts(f);
    ValidParts(o);
  }

  /** A file's image on a drive that changed elsewhere: the bytes are the same, and the buffer is still good if
      and only if it is newer than its sector, or the sector did not change. */
  lemma ImageStays(m: Img, v: Sectors, n: nat)
    requires ImageOk(m, n) && |v| == |m.v| && Uniform(v, m.ss) && m.dsect < |v|
    requires forall s: nat :: s in m.secs && s < |v| ==> v[s] == m.v[s]
    ensures Content(m.(v := v), n) == Content(m, n)
    ensures ImageOk(m.(v := v), n) <==> m.dirty || m.dsect == 0 || v[m.dsect] == m.v[m.dsect]
    ensures m.dsect in m.secs ==> ImageOk(m.(v := v), n)
  {
    hide Uniform, Distinct;
    var m' := m.(v := v);
    assert forall k: nat :: k < |m.secs| ==> SectorOf(m', k) == SectorOf(m, k);
    hide SectorOf;
    forall o | 0 <= o < n
      ensures ByteOf(m', o) == ByteOf(m, o)
    {
    }
  }

  /** A file that was cut to nothing, with sector 5 still in its buffer, and another file's bytes in that sector: once
      the file has the sector again, it reads one thing from the buffer and another from the drive. */
  lemma GivenUpSectorChanges(m: Img, w: seq<Byte>)
    requires ImageOk(m, 0) && m.secs == [] && m.dsect == 5 && |m.v| > 5 && |w| == m.ss && w != m.buf
    ensures var m' := m.(v := m.v[5 := w]);
      && Shaped(m') && !ImageOk(m', 0)
      && Content(m'.(secs := [5]), m.ss) == w && w != m'.buf && m'.dsect == [5][0]
  {
    var m2 := m.(v := m.v[5 := w], secs := [5]);
    forall o: nat | o < m.ss
      ensures Content(m2, m.ss)[o] == w[o]
    {
      OffsetIs(m.ss, o, 0, o);
    }
  }

  lemma GivenUpSector() returns (m: Img, w: seq<Byte>)
    ensures ImageOk(m, 0) && m.secs == [] && m.dsect == 5 && |m.v| > 5 && |w| == m.ss && w != m.buf
  {
    var z: seq<Byte> := seq(512, _ => 0);
    w := seq(512, _ => 1);
    m := FileImage.Img(seq(6, _ => z), 512, [], false, 5, z);
    assert w[0] != z[0];
  }

  /** Sectors of a chain among those that were left alone. */
  lemma ChainKept(g: Geom, others: set<seq<nat>>, rest: set<seq<nat>>, ch: seq<nat>, v: Sectors, v': Sectors)
    requires OthersKept(g, others, v, v') && others == Including(rest, ch)
    ensures |v'| == |v| && forall s: nat :: s in Secs(g, ch) && s < |v'| ==> v'[s] == v[s]
  {
    if ch == [] {
      NoSectors(g);
    }
    hide Secs;
  }

  /** The other file on the new drive. */
  lemma OtherKept(o: FIL, m: Img)
    requires o.fs.Valid() && o.fs.disk.reliable && o.buf != o.fs.win && Owns(FatOf(o.fs), o.others, o.chain, o.sclust)
    requires Uniform(o.fs.View(), o.fs.g.ss) && o.fs.winsect !in m.secs && o.apart == {} && !o.mirrored
    requires m.ss == o.fs.g.ss && m.secs == Secs(o.fs.g, o.chain)
    requires m.dirty == o.dirty && m.dsect == o.dsect && m.buf == o.buf[..]
    requires ImageOk(m, o.fsize) && |o.fs.View()| == |m.v| && Inside(o.stale, Secs(o.fs.g, o.chain), o.dsect)
    requires forall s: nat :: s in m.secs && s < |m.v| ==> o.fs.View()[s] == m.v[s]
    requires o.dsect != 0 ==> InData(o.fs.g, |m.v|, o.dsect)
    requires o.fptr <= o.fsize < W32 && Placed(o.fs.g, o.chain, o.fptr, o.clust, o.dsect)
    ensures o.Data() == Content(m, o.fsize) && (Placement(o) <==> o.dsect == 0 || o.fs.winsect != o.dsect)
    ensures o.Valid() <==>
              Placement(o) && (o.dirty || o.dsect == 0 || SecAt(o.fs.View(), o.dsect) == SecAt(m.v, o.dsect))
    ensures o.BufferInside() ==> o.Valid()
  {
    Apart(o.fs.winsect, o.fs.g, o);
    OnTheDrive(o.fs.g, m.v, o.dsect);
    hide Owns, Fat, Secs, FATFS.View, FATFS.Valid, ImageOk, Placed, InData, Uniform, Content, Needs, Mirrored;
    ImageStays(m, o.fs.View(), o.fsize);
    assert o.Img() == m.(v := o.fs.View());
    ValidParts(o);
  }

  lemma Apart(w: nat, g: Geom, o: FIL)
    requires w !in Secs(o.fs.g, o.chain)
    ensures WindowApart(w, Secs(o.fs.g, o.chain), o.dsect) <==> o.dsect == 0 || w != o.dsect
    ensures AwayFrom(w, g, {})
    ensures o.BufferInside() ==> o.dsect == 0 || w != o.dsect
  {
    hide Secs;
  }

  lemma NotShown(o: FIL)
    requires AwayFrom(o.fs.winsect, o.fs.g, Needs(o))
    ensures o.fs.winsect !in Secs(o.fs.g, o.chain) && (o.dsect == 0 || o.fs.winsect != o.dsect)
  {
    hide Secs;
  }

  lemma OnTheDrive(g: Geom, v: Sectors, s: nat)
    requires s != 0 ==> InData(g, |v|, s)
    ensures s != 0 ==> s < |v|
  {
  }

  /** One operation on file f: it does what it does to a file alone. The other file o keeps its bytes and its
      position; it stays valid if and only if its buffer is newer than its sector or that sector did not change,
      and in any case if the sector is its own. */
  method PerformBeside(f: FIL, o: FIL, op: Op, ghost rest: set<seq<nat>>) returns (out: seq<Byte>)
    requires Pair(f, o, rest) && f.err == OK && f.canRead && f.canWrite && Legal(op)
    modifies f, f.buf, f.fs, f.fs.win, f.fs.disk, o`others, o`apart, o`mirrored
    ensures Linked(f, o, rest) && f.Valid() && f.err == OK && Placement(o)
    ensures Step(old(StateOf(f)), op, out, StateOf(f), old(CapOf(f)))
    ensures |f.chain| == ClustersAfter(f.fs.g, old(|f.chain|), op, old(StateOf(f)), StateOf(f))
    ensures old(f.BufferInside()) && Harmless(f.fs.g, old(StateOf(f)), op) ==> f.BufferInside()
    ensures StateOf(o) == old(StateOf(o))
    ensures o.Valid() <==> o.dirty || o.dsect == 0 || SecAt(o.fs.View(), o.dsect) == SecAt(old(o.fs.View()), o.dsect)
    ensures o.BufferInside() ==> o.Valid()
    ensures old(Mirrored(f.fs.View(), f.fs.g)) ==> Mirrored(f.fs.View(), f.fs.g)
  {
    hide Owns, Fat, Secs, FATFS.View, FATFS.Valid, FIL.Valid, ImageOk, Placed, InData, WindowApart, AwayFrom, Content;
    hide Needs, Step, Legal, CapOf, OthersKept, Uniform, Including, Inside, Mirrored, ClustersAfter, Harmless;
    hide FIL.BufferInside, SecAt;
    ghost var m, v := o.Img(), o.fs.View();
    ValidParts(o);
    OwnSectors(o);
    StayAway(f, o);
    out := Perform(f, op);
    OwnSectors(f);
    ValidParts(f);
    o.others := Including(rest, f.chain);
    o.apart := {};
    ChainKept(f.fs.g, f.others, rest, o.chain, v, f.fs.View());
    OwnsSwapped(FatOf(f.fs), rest, f.chain, f.sclust, o.chain, o.sclust);
    NotShown(o);
    OtherKept(o, m);
    ValidParts(f);
  }

  // ----- runs over both handles -----

  datatype PairOp = First(op: Op) | Second(op: Op)

  /** Two simple files, and the number of clusters of each. */
  datatype PairState = PairState(a: File, na: nat, b: File, nb: nat)

  ghost function StatesOf(a: FIL, b: FIL): PairState
    reads a, b, a.buf, b.buf, a.fs, a.fs.win, a.fs.disk, b.fs, b.fs.win, b.fs.disk
  {
    PairState(StateOf(a), |a.chain|, StateOf(b), |b.chain|)
  }

  /** One file takes its step, at the capacity the other leaves it of `total` clusters; the other stays. */
  ghost predicate PairStep(g: Geom, total: nat, s: PairState, x: PairOp, out: seq<Byte>, s': PairState) {
    && s.na + s.nb <= total
    && match x
       case First(op) =>
         && Step(s.a, op, out, s'.a, Times(total - s.nb, Bcs(g))) && s'.na == ClustersAfter(g, s.na, op, s.a, s'.a)
         && s'.b == s.b && s'.nb == s.nb
       case Second(op) =>
         && Step(s.b, op, out, s'.b, Times(total - s.na, Bcs(g))) && s'.nb == ClustersAfter(g, s.nb, op, s.b, s'.b)
         && s'.a == s.a && s'.na == s.na
  }

  ghost predicate PairRun(g: Geom, total: nat, ss: seq<PairState>, ops: seq<PairOp>, outs: seq<seq<Byte>>) {
    && |ss| == |ops| + 1 && |outs| == |ops|
    && forall i :: 0 <= i < |ops| ==> PairStep(g, total, ss[i], ops[i], outs[i], ss[i + 1])
  }

  /** Clusters that the two files have or could have. */
  ghost function Total(a: FIL, b: FIL): nat
    reads a`chain, b`chain, a.fs`winsect, a.fs`wflag, a.fs.win, a.fs.disk
  {
    |a.chain| + |b.chain| + CountFree(FatOf(a.fs), 2)
  }

  /** Their number depends on the chains of all other files only. */
  lemma TotalKept(fat: seq<nat>, rest: set<seq<nat>>, a: seq<nat>, sa: nat, b: seq<nat>)
    requires Owns(fat, Including(rest, b), a, sa) && b !in rest && |fat| >= 2
    ensures |a| + |b| + CountFree(fat, 2) == |fat| - 2 - |OthersOf(|fat|, rest)|
  {
    RoomKept(fat, Including(rest, b), a, sa);
    if b != [] {
      var all := if a == [] then Including(rest, b) else Including(rest, b) + {a};
      OwnDistinct(fat, all, b);
      MembersCount(b);
      ForestMember(fat, all, b);
      IncludedMembers(fat, rest, b, all);
      hide Owns, Forest, CountFree, OthersOf, Members;
      var o, m := OthersOf(|fat|, rest), Members(b);
      assert |o + m| == |o| + |m|;
    }
  }

  lemma IncludedMembers(fat: seq<nat>, rest: set<seq<nat>>, b: seq<nat>, all: set<seq<nat>>)
    requires Forest(fat, all) && rest + {b} <= all && b !in rest && forall k :: 0 <= k < |b| ==> 2 <= b[k] < |fat|
    ensures OthersOf(|fat|, rest + {b}) == OthersOf(|fat|, rest) + Members(b)
    ensures OthersOf(|fat|, rest) !! Members(b)
  {
    forall c: nat | c in OthersOf(|fat|, rest)
      ensures c !in Members(b) && c in OthersOf(|fat|, rest + {b})
    {
      var ch :| ch in rest && c in ch;
      assert ch in rest + {b};
      NotShared(all, b, ch, c);
    }
    forall c: nat | c in Members(b)
      ensures c in OthersOf(|fat|, rest + {b})
    {
      assert b in rest + {b} && c in b;
    }
    forall c: nat | c in OthersOf(|fat|, rest + {b}) && c !in Members(b)
      ensures c in OthersOf(|fat|, rest)
    {
      var ch :| ch in rest + {b} && c in ch;
      assert ch in rest;
    }
  }

  /** The capacity of one file of a pair. */
  lemma PairCap(f: FIL, o: FIL, rest: set<seq<nat>>)
    requires Linked(f, o, rest) && f.Valid()
    ensures CapOf(f) == Times(Total(f, o) - |o.chain|, Bcs(f.fs.g))
    ensures Total(f, o) == Total(o, f)
    ensures f.fs.g.nFatent >= 2 && Total(f, o) == f.fs.g.nFatent - 2 - |OthersOf(f.fs.g.nFatent, rest)|
  {
    hide Owns, Fat, Secs, FATFS.View, Coherent, Shaped, Placed, OthersOf, CountFree, Times, Bcs, Including;
    VolumeOf(f);
    ViewFacts(f.fs);
    TotalKept(FatOf(f.fs), rest, f.chain, f.sclust, o.chain);
  }

  ghost predicate Ready(f: FIL)
    reads f`err
  {
    f.err == OK && f.canRead && f.canWrite
  }

  lemma CleanBuffer(o: FIL)
    requires o.Valid()
    ensures o.dirty || o.dsect == 0 || SecAt(o.fs.View(), o.dsect) == o.buf[..]
    ensures o.buf != o.fs.win
  {
    hide Owns, Fat, Secs, FATFS.View, FATFS.Valid, Placed, AwayFrom, Inside, CopiesEqual, Shaped, WindowApart;
  }

  /** Is a clean buffer still what the drive holds? */
  method BufferGood(o: FIL) returns (ok: bool)
    requires Placement(o)
    ensures ok <==> o.dirty || o.dsect == 0 || SecAt(o.fs.View(), o.dsect) == o.buf[..]
  {
    hide Owns, Fat, Secs, FATFS.Valid, Placed, AwayFrom, Inside, CopiesEqual;
    OnTheDrive(o.fs.g, o.fs.View(), o.dsect);
    FsFacts(o.fs);
    ok := o.dirty || o.dsect == 0;
    if !ok {
      OverlayData(o.fs.disk.sec, o.fs.g, o.fs.winsect, o.fs.win[..], o.fs.wflag, o.dsect, o.buf[..]);
      ok := o.buf[..] == o.fs.disk.sec[o.dsect];
    }
  }

  lemma TotalLeast(f: FIL, o: FIL)
    ensures |f.chain| + |o.chain| <= Total(f, o)
  {
    hide Fat, FATFS.View, CountFree;
  }

  /** The file gave up the sector in its buffer, and the drive holds something else there now. Nothing else is
      wrong with it. */
  ghost predicate BufferBad(o: FIL)
    reads o, o.buf, o.fs`winsect, o.fs`wflag, o.fs.win, o.fs.disk
  {
    && Placement(o) && !o.BufferInside() && !o.dirty && SecAt(o.fs.View(), o.dsect) != o.buf[..]
  }

  /** One operation of a run, on file f; ok tells whether the other file is still valid. */
  method Turn(f: FIL, o: FIL, op: Op, ghost rest: set<seq<nat>>) returns (out: seq<Byte>, ok: bool)
    requires Pair(f, o, rest) && Ready(f) && Legal(op)
    modifies f, f.buf, f.fs, f.fs.win, f.fs.disk, o`others, o`apart, o`mirrored
    ensures Linked(f, o, rest) && f.Valid() && Ready(f) && (ok <==> o.Valid()) && (ok || BufferBad(o))
    ensures o.BufferInside() ==> ok
    ensures Step(old(StateOf(f)), op, out, StateOf(f), Times(old(Total(f, o)) - |o.chain|, Bcs(f.fs.g)))
    ensures Total(f, o) == old(Total(f, o)) && old(|f.chain|) + |o.chain| <= Total(f, o)
    ensures |f.chain| == ClustersAfter(f.fs.g, old(|f.chain|), op, old(StateOf(f)), StateOf(f))
    ensures old(f.BufferInside()) && Harmless(f.fs.g, old(StateOf(f)), op) ==> f.BufferInside()
    ensures StateOf(o) == old(StateOf(o))
    ensures old(Mirrored(f.fs.View(), f.fs.g)) ==> Mirrored(f.fs.View(), f.fs.g)
  {
    hide Owns, Fat, Secs, FATFS.View, FATFS.Valid, FIL.Valid, Placement, ImageOk, Step, Legal, CapOf, Mirrored;
    hide ClustersAfter, Harmless, FIL.BufferInside, SecAt, Including, Times, Bcs, CountFree, StateOf, Total;
    PairCap(f, o, rest);
    TotalLeast(f, o);
    ghost var cap, room := CapOf(f), Total(f, o) - |o.chain|;
    assert cap == Times(room, Bcs(f.fs.g));
    CleanBuffer(o);
    out := PerformBeside(f, o, op, rest);
    PairCap(f, o, rest);
    ok := BufferGood(o);
  }

  function OpOf(x: PairOp): Op {
    match x
    case First(op) => op
    case Second(op) => op
  }

  ghost predicate HarmlessIn(g: Geom, s: PairState, x: PairOp) {
    match x
    case First(op) => Harmless(g, s.a, op)
    case Second(op) => Harmless(g, s.b, op)
  }

  ghost predicate AllHarmless(g: Geom, ss: seq<PairState>, ops: seq<PairOp>) {
    forall i :: 0 <= i < |ops| && i < |ss| ==> HarmlessIn(g, ss[i], ops[i])
  }

  /** One operation of a run, on the file it names. */
  method PairTurn(a: FIL, b: FIL, x: PairOp, ghost rest: set<seq<nat>>) returns (out: seq<Byte>, ok: bool)
    requires Pair(a, b, rest) && Ready(a) && Ready(b) && Legal(OpOf(x))
    modifies a, b, a.buf, b.buf, a.fs, a.fs.win, a.fs.disk
    ensures Linked(a, b, rest) && Ready(a) && Ready(b) && (ok <==> Pair(a, b, rest))
    ensures ok || (a.Valid() && BufferBad(b)) || (b.Valid() && BufferBad(a))
    ensures PairStep(a.fs.g, old(Total(a, b)), old(StatesOf(a, b)), x, out, StatesOf(a, b))
    ensures Total(a, b) == old(Total(a, b))
    ensures old(a.BufferInside() && b.BufferInside()) ==> ok
    ensures old(a.BufferInside() && b.BufferInside()) && HarmlessIn(a.fs.g, old(StatesOf(a, b)), x) ==>
              a.BufferInside() && b.BufferInside()
    ensures old(Mirrored(a.fs.View(), a.fs.g)) ==> Mirrored(a.fs.View(), a.fs.g)
  {
    hide FATFS.View, FIL.Valid, Step, Legal, Mirrored, ClustersAfter, Harmless, FIL.BufferInside, Times, Bcs;
    hide StateOf, Total, Including, Linked, BufferBad, Placement;
    EitherWay(a, b, rest);
    match x {
      case First(op) => out, ok := Turn(a, b, op, rest);
      case Second(op) => out, ok := Turn(b, a, op, rest);
    }
    EitherWay(a, b, rest);
  }

  /** A pair is one from either side. */
  lemma EitherWay(a: FIL, b: FIL, rest: set<seq<nat>>)
    ensures Linked(a, b, rest) <==> Linked(b, a, rest)
    ensures Linked(a, b, rest) ==> a != b && a.fs == b.fs && a.buf != b.buf && Total(a, b) == Total(b, a)
  {
    hide Fat, FATFS.View, CountFree;
  }

  /**
   * Any run of operations over both handles is a run of two simple files that share the clusters no other file
   * has: neither file's bytes depend on what is done to the other. It ends early only when a buffer went bad,
   * which needs a truncation that gave up the buffered sector.
   */
  method RunPair(a: FIL, b: FIL, ops: seq<PairOp>, ghost rest: set<seq<nat>>)
    returns (outs: seq<seq<Byte>>, ghost ss: seq<PairState>, done: nat, ok: bool)
    requires Pair(a, b, rest) && Ready(a) && Ready(b) && forall i :: 0 <= i < |ops| ==> Legal(OpOf(ops[i]))
    modifies a, b, a.buf, b.buf, a.fs, a.fs.win, a.fs.disk
    ensures Linked(a, b, rest) && (ok <==> Pair(a, b, rest)) && done <= |ops| && (done < |ops| ==> !ok)
    ensures ok || (a.Valid() && BufferBad(b)) || (b.Valid() && BufferBad(a))
    ensures PairRun(a.fs.g, old(Total(a, b)), ss, ops[..done], outs)
    ensures ss[0] == old(StatesOf(a, b)) && ss[done] == StatesOf(a, b) && Total(a, b) == old(Total(a, b))
    ensures old(a.BufferInside() && b.BufferInside()) && AllHarmless(a.fs.g, ss, ops[..done]) ==> ok
    ensures old(Mirrored(a.fs.View(), a.fs.g)) ==> Mirrored(a.fs.View(), a.fs.g)
  {
    hide FATFS.View, FIL.Valid, PairStep, Legal, Mirrored, HarmlessIn, FIL.BufferInside, StatesOf, Total, Including;
    hide AllHarmless, Linked, BufferBad;
    ghost var total, s0 := Total(a, b), StatesOf(a, b);
    ghost var inside := a.BufferInside() && b.BufferInside();
    outs, ss, done, ok := [], [s0], 0, true;
    NoneHarmful(a.fs.g, ss);
    while done < |ops| && ok
      invariant Linked(a, b, rest) && Ready(a) && Ready(b) && (ok <==> Pair(a, b, rest)) && done <= |ops|
      invariant ok || (a.Valid() && BufferBad(b)) || (b.Valid() && BufferBad(a))
      invariant PairRun(a.fs.g, total, ss, ops[..done], outs) && Total(a, b) == total
      invariant ss[0] == s0 && ss[done] == StatesOf(a, b)
      invariant inside && AllHarmless(a.fs.g, ss, ops[..done]) ==> ok && a.BufferInside() && b.BufferInside()
      invariant old(Mirrored(a.fs.View(), a.fs.g)) ==> Mirrored(a.fs.View(), a.fs.g)
      decreases |ops| - done
    {
      var out;
      out, ok := PairTurn(a, b, ops[done], rest);
      PairNext(a.fs.g, total, ss, ops[..done], outs, ops[done], out, StatesOf(a, b));
      assert ops[..done + 1] == ops[..done] + [ops[done]];
      outs, ss, done := outs + [out], ss + [StatesOf(a, b)], done + 1;
    }
  }

  lemma NoneHarmful(g: Geom, ss: seq<PairState>)
    ensures AllHarmless(g, ss, [])
  {
  }

  lemma PairNext(g: Geom, total: nat, ss: seq<PairState>, ops: seq<PairOp>, outs: seq<seq<Byte>>,
                 x: PairOp, out: seq<Byte>, s: PairState)
    requires PairRun(g, total, ss, ops, outs) && PairStep(g, total, ss[|ops|], x, out, s)
    ensures PairRun(g, total, ss + [s], ops + [x], outs + [out])
    ensures AllHarmless(g, ss + [s], ops + [x]) ==> AllHarmless(g, ss, ops) && HarmlessIn(g, ss[|ops|], x)
  {
    hide PairStep, HarmlessIn;
    var ss', ops', outs' := ss + [s], ops + [x], outs + [out];
    forall i | 0 <= i < |ops'|
      ensures PairStep(g, total, ss'[i], ops'[i], outs'[i], ss'[i + 1])
    {
      if i < |ops| {
        assert PairStep(g, total, ss[i], ops[i], outs[i], ss[i + 1]);
      }
    }
    if AllHarmless(g, ss', ops') {
      assert HarmlessIn(g, ss'[|ops|], ops'[|ops|]);
      forall i | 0 <= i < |ops|
        ensures HarmlessIn(g, ss[i], ops[i])
      {
        assert HarmlessIn(g, ss'[i], ops'[i]);
      }
    }
  }

  /** Bytes of the first file that its own operations leave alone are as before, whatever is done to the second. */
  lemma {:induction false} FirstKeeps(g: Geom, total: nat, ss: seq<PairState>, ops: seq<PairOp>, outs: seq<seq<Byte>>,
                                      lo: nat, hi: nat, n: nat)
    requires PairRun(g, total, ss, ops, outs) && n <= |ops|
    requires lo <= hi <= |ss[0].a.bytes| && ss[0].a.pos <= |ss[0].a.bytes|
    requires forall i :: 0 <= i < n && ops[i].First? ==> !Touches(ss[i].a, ops[i].op, lo, hi)
    ensures hi <= |ss[n].a.bytes| && ss[n].a.bytes[lo..hi] == ss[0].a.bytes[lo..hi] && ss[n].a.pos <= |ss[n].a.bytes|
    decreases n
  {
    hide Step, Touches, ClustersAfter;
    if n == 0 {
    } else {
      FirstKeeps(g, total, ss, ops, outs, lo, hi, n - 1);
      assert PairStep(g, total, ss[n - 1], ops[n - 1], outs[n - 1], ss[n]);
      if ops[n - 1].First? {
        StepKeeps(ss[n - 1].a, ops[n - 1].op, outs[n - 1], ss[n].a, Times(total - ss[n - 1].nb, Bcs(g)), lo, hi);
      }
    }
  }
}
