/**
 * The bytes of a file as they are spread over sectors: some on the drive, one sector possibly
 * newer in the file's private buffer. Pure theory; FileIO states its methods in these terms.
 */
module FileImage {
  import opened Arith
  import opened Volume

  /** The drive, the file's sectors in order, and the private buffer. */
  datatype Img = Img(
    v: Sectors,
    ss: nat,
    secs: seq<nat>,     // the file's sectors, in file order
    dirty: bool,        // buf is newer than sector dsect
    dsect: nat,         // sector appearing in buf, 0 when none does
    buf: seq<Byte>)

  ghost predicate OnDrive(v: Sectors, secs: seq<nat>) {
    forall i :: 0 <= i < |secs| ==> 0 < secs[i] < |v|
  }

  /** Well-formed, whatever the buffer holds. */
  ghost predicate Shaped(m: Img) {
    && SectorSize(m.ss) && |m.buf| == m.ss && Uniform(m.v, m.ss)
    && Distinct(m.secs) && OnDrive(m.v, m.secs)
    && (m.dirty ==> m.dsect in m.secs)
  }

  /** A clean buffer equals its sector. */
  ghost predicate Coherent(m: Img) {
    !m.dirty && 0 < m.dsect < |m.v| ==> m.buf == m.v[m.dsect]
  }

  ghost predicate ImgOk(m: Img) {
    Shaped(m) && Coherent(m)
  }

  /** Bytes the allocated sectors can hold. */
  function Room(secs: seq<nat>, ss: nat): nat {
    |secs| * ss
  }

  function Capacity(m: Img): nat {
    Room(m.secs, m.ss)
  }

  /** Sector number k of the file. */
  function SectorOf(m: Img, k: nat): seq<Byte> {
    if k >= |m.secs| then []
    else if m.dirty && m.secs[k] == m.dsect then m.buf
    else if m.secs[k] < |m.v| then m.v[m.secs[k]]
    else []
  }

  function SecIdx(ss: nat, o: nat): nat {
    if ss == 0 then 0 else o / ss
  }

  function SecOfs(ss: nat, o: nat): nat {
    if ss == 0 then 0 else o % ss
  }

  /** Byte o of the file. */
  function ByteOf(m: Img, o: nat): Byte {
    var w := SectorOf(m, SecIdx(m.ss, o));
    if SecOfs(m.ss, o) < |w| then w[SecOfs(m.ss, o)] else 0
  }

  /** The first n bytes of the file. */
  function Content(m: Img, n: nat): (c: seq<Byte>)
    ensures |c| == n
    ensures forall o :: 0 <= o < n ==> c[o] == ByteOf(m, o)
  {
    seq(n, o requires 0 <= o => ByteOf(m, o))
  }

  /** c overwritten by d from p on, growing if d reaches past its end. */
  function Splice(c: seq<Byte>, p: nat, d: seq<Byte>): (r: seq<Byte>)
    requires p <= |c|
    ensures |r| == Max(|c|, p + |d|)
    ensures forall o :: 0 <= o < |r| ==> r[o] == if p <= o < p + |d| then d[o - p] else c[o]
  {
    c[..p] + d + (if p + |d| < |c| then c[p + |d|..] else [])
  }

  /** Two writes in a row are one longer write. */
  lemma SpliceSplice(c: seq<Byte>, p: nat, d: seq<Byte>, e: seq<Byte>)
    requires p <= |c|
    ensures Splice(Splice(c, p, d), p + |d|, e) == Splice(c, p, d + e)
  {
  }

  // ----- offsets -----

  /** o is byte r of sector k. */
  lemma OffsetIs(ss: nat, o: nat, k: nat, r: nat)
    requires ss > 0 && o == k * ss + r && r < ss
    ensures SecIdx(ss, o) == k && SecOfs(ss, o) == r
  {
    DivModUnique(o, ss, k, r);
  }

  lemma OffsetOf(ss: nat, o: nat)
    requires ss > 0
    ensures o == SecIdx(ss, o) * ss + SecOfs(ss, o) && SecOfs(ss, o) < ss
  {
  }

  /** An offset below the capacity lies in an allocated sector. */
  lemma OffsetInside(m: Img, o: nat)
    requires m.ss > 0 && o < Capacity(m)
    ensures SecIdx(m.ss, o) < |m.secs|
  {
    DivLess(o, m.ss, |m.secs|);
  }

  /** Within one sector, offsets and positions differ by the same amount. */
  lemma SameSector(ss: nat, p: nat, o: nat)
    requires ss > 0 && SecIdx(ss, o) == SecIdx(ss, p)
    ensures o - p == SecOfs(ss, o) - SecOfs(ss, p)
  {
    OffsetOf(ss, o);
    OffsetOf(ss, p);
  }

  /** The offsets of one sector. */
  lemma NearOffset(ss: nat, p: nat, o: nat)
    requires ss > 0 && p <= o && SecOfs(ss, p) + (o - p) < ss
    ensures SecIdx(ss, o) == SecIdx(ss, p) && SecOfs(ss, o) == SecOfs(ss, p) + (o - p)
  {
    OffsetOf(ss, p);
    OffsetIs(ss, o, SecIdx(ss, p), SecOfs(ss, p) + (o - p));
  }

  // ----- steps that do not change the content -----

  /** Equal sectors, equal content. */
  lemma SameSectors(m: Img, m': Img, n: nat)
    requires m'.ss == m.ss > 0 && n <= Capacity(m)
    requires forall k :: 0 <= k < |m.secs| ==> SectorOf(m', k) == SectorOf(m, k)
    ensures Content(m', n) == Content(m, n)
  {
    hide SectorOf, SecIdx, SecOfs;
    forall o | 0 <= o < n ensures ByteOf(m', o) == ByteOf(m, o) {
      OffsetInside(m, o);
    }
  }

  /** Writing the dirty buffer back. */
  lemma Flushed(m: Img, n: nat)
    requires Shaped(m) && m.dirty && n <= Capacity(m)
    ensures m.dsect < |m.v|
    ensures var m' := m.(v := m.v[m.dsect := m.buf], dirty := false);
            ImgOk(m') && Content(m', n) == Content(m, n)
  {
    hide Room;
    var m' := m.(v := m.v[m.dsect := m.buf], dirty := false);
    SameSectors(m, m', n);
  }

  /** Loading sector s into a clean buffer. */
  lemma Loaded(m: Img, s: nat, n: nat)
    requires Shaped(m) && !m.dirty && 0 < s < |m.v| && n <= Capacity(m)
    ensures var m' := m.(dsect := s, buf := m.v[s]);
            ImgOk(m') && Content(m', n) == Content(m, n)
  {
    hide Capacity;
    SameSectors(m, m.(dsect := s, buf := m.v[s]), n);
  }

  /** Declaring that a clean buffer stands for sector s, without loading it. */
  lemma Stale(m: Img, s: nat, b: seq<Byte>, n: nat)
    requires Shaped(m) && !m.dirty && |b| == m.ss && n <= Capacity(m)
    ensures var m' := m.(dsect := s, buf := b); Shaped(m') && Content(m', n) == Content(m, n)
  {
    hide Room;
    SameSectors(m, m.(dsect := s, buf := b), n);
  }

  /** More sectors at the end, and a drive that changed elsewhere. */
  lemma Extended(m: Img, v': Sectors, secs': seq<nat>, n: nat)
    requires Shaped(m) && n <= Capacity(m) && |v'| == |m.v| && Uniform(v', m.ss)
    requires |m.secs| <= |secs'| && secs'[..|m.secs|] == m.secs && Distinct(secs') && OnDrive(v', secs')
    requires forall s: nat :: s in secs' || s == m.dsect ==> s < |v'| ==> v'[s] == m.v[s]
    ensures var m' := m.(v := v', secs := secs');
            && Shaped(m') && (Coherent(m) ==> Coherent(m')) && n <= Capacity(m')
            && Content(m', n) == Content(m, n)
  {
    var m' := m.(v := v', secs := secs');
    MulMonotone(|m.secs|, |secs'|, m.ss);
    hide Capacity;
    forall k | 0 <= k < |m.secs| ensures SectorOf(m', k) == SectorOf(m, k) {
      assert secs'[k] == m.secs[k] && secs'[k] in secs';
    }
    if m.dirty {
      assert m.dsect in m.secs;
    }
    SameSectors(m, m', n);
  }

  // ----- writing -----

  /** The buffer holds the first n bytes' share of the sector of offset p. */
  ghost predicate BufHolds(m: Img, p: nat, n: nat) {
    forall o: nat :: o < n && SecIdx(m.ss, o) == SecIdx(m.ss, p) && SecOfs(m.ss, o) < |m.buf| ==>
      m.buf[SecOfs(m.ss, o)] == ByteOf(m, o)
  }

  /** A buffer that shows the sector of p holds it, dirty or coherent. */
  lemma BufHoldsOwn(m: Img, p: nat, n: nat)
    requires ImgOk(m) && SecIdx(m.ss, p) < |m.secs| && m.dsect == m.secs[SecIdx(m.ss, p)]
    ensures BufHolds(m, p, n)
  {
    hide SecIdx, SecOfs;
  }

  /** Nothing of the first n bytes lies at or behind the sector boundary p. */
  lemma BufHoldsFresh(m: Img, p: nat, n: nat)
    requires m.ss > 0 && SecOfs(m.ss, p) == 0 && n <= p
    ensures BufHolds(m, p, n)
  {
    forall o: nat | o < n && SecIdx(m.ss, o) == SecIdx(m.ss, p) ensures false {
      SameSector(m.ss, p, o);
    }
  }

  /** Offsets up to the end of an allocated sector are within the capacity. */
  lemma SectorEnd(m: Img, p: nat, w: nat)
    requires m.ss > 0 && SecIdx(m.ss, p) < |m.secs| && SecOfs(m.ss, p) + w <= m.ss
    ensures p + w <= Capacity(m)
  {
    OffsetOf(m.ss, p);
    MulMonotone(SecIdx(m.ss, p) + 1, |m.secs|, m.ss);
    assert (SecIdx(m.ss, p) + 1) * m.ss == SecIdx(m.ss, p) * m.ss + m.ss;
  }

  /** Bytes d put into the buffer at p, within one sector. */
  lemma PutPartial(m: Img, p: nat, d: seq<Byte>, n: nat)
    requires Shaped(m) && p <= n <= Capacity(m) && SecIdx(m.ss, p) < |m.secs|
    requires m.dsect == m.secs[SecIdx(m.ss, p)] && BufHolds(m, p, n)
    requires d != [] && SecOfs(m.ss, p) + |d| <= m.ss
    ensures var m' := m.(dirty := true, buf := Splice(m.buf, SecOfs(m.ss, p), d));
            && ImgOk(m') && Max(n, p + |d|) <= Capacity(m')
            && Content(m', Max(n, p + |d|)) == Splice(Content(m, n), p, d)
  {
    var m' := m.(dirty := true, buf := Splice(m.buf, SecOfs(m.ss, p), d));
    SectorEnd(m, p, |d|);
    hide Capacity, Content, Splice, ByteOf;
    forall o: nat | o < Max(n, p + |d|)
      ensures ByteOf(m', o) == if p <= o < p + |d| then d[o - p] else ByteOf(m, o)
    {
      PutPartialByte(m, p, d, n, o);
    }
    ContentSplice(m, m', p, d, n);
  }

  lemma PutPartialByte(m: Img, p: nat, d: seq<Byte>, n: nat, o: nat)
    requires Shaped(m) && p <= n && SecIdx(m.ss, p) < |m.secs|
    requires m.dsect == m.secs[SecIdx(m.ss, p)] && BufHolds(m, p, n)
    requires d != [] && SecOfs(m.ss, p) + |d| <= m.ss && o < Max(n, p + |d|)
    ensures var m' := m.(dirty := true, buf := Splice(m.buf, SecOfs(m.ss, p), d));
            ByteOf(m', o) == if p <= o < p + |d| then d[o - p] else ByteOf(m, o)
  {
    OffsetOf(m.ss, o);
    if p <= o < p + |d| {
      NearOffset(m.ss, p, o);
    }
    hide SecIdx, SecOfs;
    if SecIdx(m.ss, o) == SecIdx(m.ss, p) {
      SameSector(m.ss, p, o);
    }
  }

  /** The file's sectors from number k on are cc consecutive ones, from sect. */
  ghost predicate Contiguous(m: Img, k: nat, sect: nat, cc: nat) {
    && k + cc <= |m.secs|
    && forall i :: k <= i < k + cc ==> m.secs[i] == sect + (i - k)
  }

  /** Writing cc sectors past a clean buffer, which is refilled if it shows one of them. */
  function Direct(m: Img, sect: nat, cc: nat, d: seq<Byte>): Img {
    m.(v := Blit(m.v, sect, cc, d, m.ss),
       buf := if sect <= m.dsect < sect + cc then Chunk(d, m.dsect - sect, m.ss) else m.buf)
  }

  lemma ChunkShape(d: seq<Byte>, j: nat, cc: nat, ss: nat)
    requires |d| == cc * ss && j < cc
    ensures |Chunk(d, j, ss)| == ss && j * ss + ss <= |d|
    ensures Chunk(d, j, ss) == d[j * ss..j * ss + ss]
  {
    MulMonotone(j + 1, cc, ss);
    assert (j + 1) * ss == j * ss + ss;
  }

  lemma DirectOk(m: Img, k: nat, sect: nat, cc: nat, d: seq<Byte>)
    requires ImgOk(m) && !m.dirty && Contiguous(m, k, sect, cc) && |d| == cc * m.ss
    ensures ImgOk(Direct(m, sect, cc, d))
  {
    forall j: nat | j < cc ensures |Chunk(d, j, m.ss)| == m.ss {
      ChunkShape(d, j, cc, m.ss);
    }
    hide Chunk;
  }

  /** Byte-wise change is a splice. */
  lemma ContentSplice(m: Img, m': Img, p: nat, d: seq<Byte>, n: nat)
    requires p <= n
    requires forall o: nat :: o < Max(n, p + |d|) ==>
               ByteOf(m', o) == if p <= o < p + |d| then d[o - p] else ByteOf(m, o)
    ensures Content(m', Max(n, p + |d|)) == Splice(Content(m, n), p, d)
  {
    hide ByteOf;
  }

  lemma DirectWrite(m: Img, k: nat, sect: nat, cc: nat, d: seq<Byte>, n: nat)
    requires ImgOk(m) && !m.dirty && Contiguous(m, k, sect, cc) && |d| == cc * m.ss
    requires k * m.ss <= n <= Capacity(m)
    ensures var m' := Direct(m, sect, cc, d);
            && ImgOk(m') && Max(n, k * m.ss + |d|) <= Capacity(m')
            && Content(m', Max(n, k * m.ss + |d|)) == Splice(Content(m, n), k * m.ss, d)
  {
    var m' := Direct(m, sect, cc, d);
    var p := k * m.ss;
    DirectOk(m, k, sect, cc, d);
    RunFits(m, k, cc, d);
    hide ByteOf, ImgOk, Contiguous, Capacity, Content, Splice;
    forall o: nat | o < Max(n, p + |d|)
      ensures ByteOf(m', o) == if p <= o < p + |d| then d[o - p] else ByteOf(m, o)
    {
      DirectByte(m, k, sect, cc, d, o);
    }
    ContentSplice(m, m', p, d, n);
  }

  lemma RunFits(m: Img, k: nat, cc: nat, d: seq<Byte>)
    requires k + cc <= |m.secs| && |d| == cc * m.ss
    ensures k * m.ss + |d| <= Capacity(m)
  {
    MulMonotone(k + cc, |m.secs|, m.ss);
    assert (k + cc) * m.ss == k * m.ss + |d|;
  }

  /** The offsets of sectors k to k + cc. */
  lemma InRun(ss: nat, k: nat, cc: nat, o: nat)
    requires ss > 0
    ensures k <= SecIdx(ss, o) < k + cc <==> k * ss <= o < k * ss + cc * ss
    ensures k <= SecIdx(ss, o) ==> o - k * ss == (SecIdx(ss, o) - k) * ss + SecOfs(ss, o)
  {
    OffsetOf(ss, o);
    hide SecIdx, SecOfs;
    var i := SecIdx(ss, o);
    assert (k + cc) * ss == k * ss + cc * ss && (i + 1) * ss == i * ss + ss;
    assert (i - k) * ss == i * ss - k * ss;
    if i < k {
      MulMonotone(i + 1, k, ss);
    } else if i < k + cc {
      MulMonotone(k, i, ss);
      MulMonotone(i + 1, k + cc, ss);
    } else {
      MulMonotone(k + cc, i, ss);
    }
  }

  lemma DirectByte(m: Img, k: nat, sect: nat, cc: nat, d: seq<Byte>, o: nat)
    requires ImgOk(m) && !m.dirty && Contiguous(m, k, sect, cc) && |d| == cc * m.ss
    requires o < Capacity(m)
    ensures var p := k * m.ss;
            ByteOf(Direct(m, sect, cc, d), o) == if p <= o < p + |d| then d[o - p] else ByteOf(m, o)
  {
    OffsetInside(m, o);
    OffsetOf(m.ss, o);
    InRun(m.ss, k, cc, o);
    hide SecIdx, SecOfs, Room, Chunk, Contiguous, Distinct, OnDrive, Uniform, SectorOf;
    var i := SecIdx(m.ss, o);
    DirectSector(m, k, sect, cc, d, i);
    if k <= i < k + cc {
      ChunkShape(d, i - k, cc, m.ss);
    }
  }

  lemma DirectSector(m: Img, k: nat, sect: nat, cc: nat, d: seq<Byte>, i: nat)
    requires ImgOk(m) && !m.dirty && Contiguous(m, k, sect, cc) && i < |m.secs|
    ensures SectorOf(Direct(m, sect, cc, d), i) == if k <= i < k + cc then Chunk(d, i - k, m.ss) else SectorOf(m, i)
  {
    hide Chunk;
    if sect <= m.secs[i] < sect + cc && !(k <= i < k + cc) {
      RunMember(m, k, sect, cc, m.secs[i]);
      assert false;
    }
  }

  lemma RunMember(m: Img, k: nat, sect: nat, cc: nat, s: nat)
    requires Contiguous(m, k, sect, cc) && sect <= s < sect + cc
    ensures k + (s - sect) < k + cc <= |m.secs| && m.secs[k + (s - sect)] == s
  {
  }

  // ----- reading -----

  /** cc sectors read from sect, with the one that is newer in the buffer replaced. */
  function Fetched(m: Img, sect: nat, j: nat): seq<Byte> {
    if m.dirty && m.dsect == sect + j then m.buf
    else if sect + j < |m.v| then m.v[sect + j]
    else []
  }

  lemma ReadDirect(m: Img, k: nat, sect: nat, cc: nat, d: seq<Byte>, n: nat)
    requires ImgOk(m) && Contiguous(m, k, sect, cc) && |d| == cc * m.ss
    requires k * m.ss + |d| <= n <= Capacity(m)
    requires forall j: nat :: j < cc ==> Chunk(d, j, m.ss) == Fetched(m, sect, j)
    ensures d == Content(m, n)[k * m.ss..k * m.ss + |d|]
  {
    forall i: nat | i < |d| ensures d[i] == ByteOf(m, k * m.ss + i) {
      ReadDirectByte(m, k, sect, cc, d, i);
    }
    hide Capacity, ByteOf;
  }

  lemma ReadDirectByte(m: Img, k: nat, sect: nat, cc: nat, d: seq<Byte>, i: nat)
    requires ImgOk(m) && Contiguous(m, k, sect, cc) && |d| == cc * m.ss && i < |d|
    requires forall j: nat :: j < cc ==> Chunk(d, j, m.ss) == Fetched(m, sect, j)
    ensures d[i] == ByteOf(m, k * m.ss + i)
  {
    var j, r := i / m.ss, i % m.ss;
    DivLess(i, m.ss, cc);
    assert i == j * m.ss + r;
    ChunkShape(d, j, cc, m.ss);
    assert (k + j) * m.ss == k * m.ss + j * m.ss;
    OffsetIs(m.ss, k * m.ss + i, k + j, r);
    assert Chunk(d, j, m.ss)[r] == d[i];
    assert Chunk(d, j, m.ss) == Fetched(m, sect, j);
    hide Chunk, SecIdx, SecOfs;
    assert m.secs[k + j] == sect + j;
  }

  /** Replacing one sector of a run by the newer one in the buffer. */
  lemma PatchChunk(d: seq<Byte>, j: nat, b: seq<Byte>, cc: nat, ss: nat, i: nat)
    requires |d| == cc * ss && |b| == ss && j < cc && i < cc
    ensures Times(j, ss) + ss <= |d| && |Splice(d, Times(j, ss), b)| == |d|
    ensures Chunk(Splice(d, Times(j, ss), b), i, ss) == if i == j then b else Chunk(d, i, ss)
  {
    ChunkShape(d, j, cc, ss);
    ChunkShape(d, i, cc, ss);
    if i < j {
      MulMonotone(i + 1, j, ss);
      assert (i + 1) * ss == i * ss + ss;
    } else if i > j {
      MulMonotone(j + 1, i, ss);
      assert (j + 1) * ss == j * ss + ss;
    }
  }

  /** The buffer is newer than one of the cc sectors from sect. */
  predicate Hit(m: Img, sect: nat, cc: nat) {
    m.dirty && sect <= m.dsect < sect + cc
  }

  /** A run read from the drive, patched with a dirty buffer, is what the file holds. */
  lemma PatchedRun(m: Img, k: nat, sect: nat, cc: nat, d: seq<Byte>, n: nat)
    requires ImgOk(m) && IsRun(d, m.v, sect, cc, m.ss) && Contiguous(m, k, sect, cc)
    requires k * m.ss + |d| <= n <= Capacity(m)
    ensures Hit(m, sect, cc) ==> Times(m.dsect - sect, m.ss) + m.ss <= |d|
    ensures (if Hit(m, sect, cc) then Splice(d, Times(m.dsect - sect, m.ss), m.buf) else d)
         == Content(m, n)[k * m.ss..k * m.ss + |d|]
  {
    if Hit(m, sect, cc) {
      ChunkShape(d, m.dsect - sect, cc, m.ss);
    }
    var d' := if Hit(m, sect, cc) then Splice(d, Times(m.dsect - sect, m.ss), m.buf) else d;
    hide Chunk, Splice, Room, Contiguous, Content;
    forall j: nat | j < cc ensures Chunk(d', j, m.ss) == Fetched(m, sect, j) {
      assert ChunkIs(d, m.v, sect, j, m.ss);
      if Hit(m, sect, cc) {
        PatchChunk(d, m.dsect - sect, m.buf, cc, m.ss, j);
      }
    }
    ReadDirect(m, k, sect, cc, d', n);
  }

  lemma PatchedRunAt(m: Img, p: nat, sect: nat, cc: nat, d: seq<Byte>, n: nat)
    requires ImgOk(m) && IsRun(d, m.v, sect, cc, m.ss) && Contiguous(m, SecIdx(m.ss, p), sect, cc)
    requires SecOfs(m.ss, p) == 0 && p + |d| <= n <= Capacity(m)
    ensures Hit(m, sect, cc) ==> Times(m.dsect - sect, m.ss) + m.ss <= |d|
    ensures (if Hit(m, sect, cc) then Splice(d, Times(m.dsect - sect, m.ss), m.buf) else d)
         == Content(m, n)[p..p + |d|]
  {
    OffsetOf(m.ss, p);
    hide SecIdx, SecOfs, Splice, Times, Content, Contiguous, Room, IsRun;
    PatchedRun(m, SecIdx(m.ss, p), sect, cc, d, n);
  }

  lemma ReadPartialByte(m: Img, p: nat, i: nat, n: nat)
    requires ImgOk(m) && SecIdx(m.ss, p) < |m.secs| && m.dsect == m.secs[SecIdx(m.ss, p)]
    requires SecOfs(m.ss, p) + i < m.ss && p + i < n
    ensures m.buf[SecOfs(m.ss, p) + i] == ByteOf(m, p + i)
  {
    NearOffset(m.ss, p, p + i);
    hide SecIdx, SecOfs;
    BufHoldsOwn(m, p, n);
  }

  lemma ReadPartial(m: Img, p: nat, w: nat, n: nat)
    requires ImgOk(m) && SecIdx(m.ss, p) < |m.secs| && m.dsect == m.secs[SecIdx(m.ss, p)]
    requires SecOfs(m.ss, p) + w <= m.ss && p + w <= n
    ensures m.buf[SecOfs(m.ss, p)..SecOfs(m.ss, p) + w] == Content(m, n)[p..p + w]
  {
    hide SecIdx, SecOfs, ByteOf, Uniform, Distinct, OnDrive, Coherent, SectorSize;
    var a := SecOfs(m.ss, p);
    var x, y := m.buf[a..a + w], Content(m, n)[p..p + w];
    forall i: nat | i < w ensures x[i] == y[i] {
      ReadPartialByte(m, p, i, n);
    }
  }

  /** Fewer sectors, with a clean buffer. */
  lemma Shrunk(m: Img, secs': seq<nat>, n: nat)
    requires ImgOk(m) && !m.dirty && |secs'| <= |m.secs| && m.secs[..|secs'|] == secs' && n <= Room(secs', m.ss)
    ensures var m' := m.(secs := secs');
            ImgOk(m') && n <= Capacity(m') && n <= Capacity(m) && Content(m', n) == Content(m, n)
  {
    var m' := m.(secs := secs');
    MulMonotone(|secs'|, |m.secs|, m.ss);
    forall i | 0 <= i < |secs'| ensures secs'[i] == m.secs[i] {}
    hide Capacity;
    SameSectors(m', m, n);
  }
}
