/** What dir_find looks for in a directory, and what registering a name puts there. */
module DirSearch {
  import opened Arith
  import opened Volume
  import opened DirTable
  import opened LongName

  const NSFLAG: nat := 11
  const NS_LOSS: nat := 0x01
  const AM_VOL: nat := 0x08
  const AM_MASK: nat := 0x3F

  /** Pointer to the long name's buffer, or null. */
  datatype LfnPtr = NoLfn | Lfn(buf: seq<WChar>)

  /** The name searched for: the 11 bytes of the short name with its flags, and the long name. */
  datatype Query = Query(fn: seq<Byte>, lfn: LfnPtr)

  predicate BufferOk(lfn: LfnPtr) {
    lfn.Lfn? ==> |lfn.buf| == MAX_LFN + 1
  }

  ghost predicate QueryOk(q: Query) {
    |q.fn| == 12 && BufferOk(q.lfn)
  }

  /** `sum = (sum >> 1) + (sum << 7) + *dir++` on a byte. */
  function SumStep(sum: Byte, b: Byte): Byte {
    (sum / 2 + sum * 128 + b) % 256
  }

  /** sum_sfn over the first n bytes. */
  function SumOf(d: seq<Byte>, n: nat): Byte
    requires n <= |d|
  {
    if n == 0 then 0 else SumStep(SumOf(d, n - 1), d[n - 1])
  }

  /** A byte rotated right by one bit. */
  function Rotated(b: Byte): Byte {
    if b % 2 == 1 then 0x80 + b / 2 else b / 2
  }

  /** The checksum of the first n bytes is that of the first n - 1, rotated, plus the last one. */
  lemma SumRotates(d: seq<Byte>, n: nat)
    requires n <= |d|
    ensures SumOf(d, n) == if n == 0 then 0 else (Rotated(SumOf(d, n - 1)) + d[n - 1]) % 256
  {
    hide SumStep, Rotated;
    if n > 0 {
      RotateAdd(SumOf(d, n - 1), d[n - 1]);
    }
  }

  lemma RotateAdd(s: Byte, b: Byte)
    ensures SumStep(s, b) == (Rotated(s) + b) % 256
  {
    var h := s / 2;
    if s % 2 == 1 {
      assert s * 128 == h * 256 + 128;
    } else {
      assert s * 128 == h * 256;
    }
    DivModUnique(s / 2 + s * 128 + b, 256, h + (Rotated(s) + b) / 256, (Rotated(s) + b) % 256);
  }

  /** sum_sfn. */
  method SumSfn(d: seq<Byte>) returns (sum: Byte)
    requires |d| >= 11
    ensures sum == SumOf(d, 11)
  {
    hide SumStep;
    sum := 0;
    var n := 11;
    while n > 0
      invariant n <= 11 && sum == SumOf(d, 11 - n)
    {
      sum := SumStep(sum, d[11 - n]);
      n := n - 1;
    }
  }

  lemma {:induction false} SumSame(d: seq<Byte>, e: seq<Byte>, n: nat)
    requires n <= |d| && n <= |e| && d[..n] == e[..n]
    ensures SumOf(d, n) == SumOf(e, n)
    decreases n
  {
    if n == 0 {
    } else {
      assert d[n - 1] == d[..n][n - 1] == e[..n][n - 1];
      assert d[..n - 1] == d[..n][..n - 1] == e[..n][..n - 1] == e[..n - 1];
      SumSame(d, e, n - 1);
    }
  }

  // ----- the search -----

  function Attr(e: seq<Byte>): nat
    requires |e| == 32
  {
    BitAnd(e[11], AM_MASK)
  }

  /** An entry without valid data. */
  predicate Skipped(e: seq<Byte>)
    requires |e| == 32
  {
    e[0] == DDEM || (BitAnd(Attr(e), AM_VOL) != 0 && Attr(e) != AM_LFN)
  }

  predicate IsLong(e: seq<Byte>)
    requires |e| == 32
  {
    Attr(e) == AM_LFN
  }

  /** The short name is not exact, so it is not compared. */
  predicate Lossy(fn: seq<Byte>)
    requires |fn| == 12
  {
    BitAnd(fn[NSFLAG], NS_LOSS) != 0
  }

  /** A short entry ends the search: its long name matched, or its short name does. */
  predicate ShortMatch(q: Query, st: Run, e: seq<Byte>)
    requires |e| == 32 && |q.fn| == 12
  {
    (st.ord == 0 && st.sum == SumOf(e, 11)) || (!Lossy(q.fn) && e[..11] == q.fn[..11])
  }

  /** A live short entry that matches. */
  predicate Matches(q: Query, st: Run, e: seq<Byte>)
    requires |e| == 32 && |q.fn| == 12
  {
    !Skipped(e) && !IsLong(e) && ShortMatch(q, st, e)
  }

  /** State of the search behind an entry. */
  function Behind(up: WChar -> WChar, q: Query, st: Run, e: seq<Byte>): Run
    requires |e| == 32 && BufferOk(q.lfn)
  {
    if !Skipped(e) && IsLong(e) then
      if q.lfn.Lfn? then Advance(st, e, Accepts(up, q.lfn.buf, e)) else st
    else st.(ord := 0xFF)
  }

  ghost predicate Shaped(t: seq<seq<Byte>>) {
    forall i :: 0 <= i < |t| ==> |t[i]| == 32
  }

  /** Index of the entry the search finds from entry i on, |t| when it finds none. */
  ghost function Search(up: WChar -> WChar, q: Query, t: seq<seq<Byte>>, i: nat, st: Run): (r: nat)
    requires Shaped(t) && QueryOk(q) && i <= |t|
    ensures i <= r <= |t|
    decreases |t| - i
  {
    if i == |t| || t[i][0] == 0 then |t|
    else if Matches(q, st, t[i]) then i
    else Search(up, q, t, i + 1, Behind(up, q, st, t[i]))
  }

  // ----- registering -----

  /** No entry is in use behind an end mark. */
  ghost predicate WellEnded(t: seq<seq<Byte>>) {
    forall i, j :: 0 <= i < j < |t| && EndEntry(t[i]) ==> EndEntry(t[j])
  }

  /** t with the entries from `start` on replaced by es. */
  function Replaced(t: seq<seq<Byte>>, start: nat, es: seq<seq<Byte>>): seq<seq<Byte>>
    requires start + |es| <= |t|
  {
    t[..start] + es + t[start + |es|..]
  }

  /** Before the first row of free entries no end mark stands. */
  lemma NoEndBefore(t: seq<seq<Byte>>, nent: nat, p: nat)
    requires Shaped(t) && WellEnded(t) && FirstRun(t, nent, p) && nent >= 1
    ensures forall j :: 0 <= j < p + 1 - nent ==> !EndEntry(t[j])
  {
    forall j | 0 <= j < p + 1 - nent
      ensures !EndEntry(t[j])
    {
      if EndEntry(t[j]) {
        EndRun(t, nent, j);
      }
    }
  }

  /** An end mark starts a row of free entries. */
  lemma EndRun(t: seq<seq<Byte>>, nent: nat, j: nat)
    requires Shaped(t) && WellEnded(t) && nent >= 1 && j + nent <= |t| && EndEntry(t[j])
    ensures RunEnds(t, nent, j + nent - 1)
  {
  }

  /** Blank entries at the end keep a table well ended. */
  lemma GrownEnded(t: seq<seq<Byte>>, t': seq<seq<Byte>>)
    requires Grown(t, t') && Shaped(t)
    ensures Shaped(t') && (WellEnded(t) ==> WellEnded(t'))
  {
    assert forall i :: 0 <= i < |t| ==> t'[i] == t'[..|t|][i] == t[i];
  }

  /** The same decisions for two queries: either the same name, or both compare long names only. */
  ghost predicate SameDecisions(q: Query, q': Query) {
    QueryOk(q) && QueryOk(q') && q.lfn == q'.lfn && (q.fn == q'.fn || (Lossy(q.fn) && Lossy(q'.fn)))
  }

  /** A search that finds nothing in t passes the common part of t and t'. */
  lemma {:induction false} PassCommon(up: WChar -> WChar, q: Query, q': Query, t: seq<seq<Byte>>,
                                      t': seq<seq<Byte>>, i: nat, n: nat, st: Run) returns (st': Run)
    requires Shaped(t) && Shaped(t') && SameDecisions(q, q') && i <= n <= |t| && n <= |t'|
    requires forall j :: i <= j < n ==> t'[j] == t[j] && t[j][0] != 0
    requires Search(up, q, t, i, st) == |t|
    ensures var r := Search(up, q', t', n, st');
      Search(up, q', t', i, st) == if r == |t'| then |t'| else r
    decreases n - i
  {
    hide Matches, Behind;
    if i == n {
      st' := st;
    } else {
      SameMatch(up, q, q', st, t[i]);
      st' := PassCommon(up, q, q', t, t', i + 1, n, Behind(up, q, st, t[i]));
    }
  }

  lemma SameMatch(up: WChar -> WChar, q: Query, q': Query, st: Run, e: seq<Byte>)
    requires SameDecisions(q, q') && |e| == 32
    ensures Matches(q, st, e) <==> Matches(q', st, e)
    ensures Behind(up, q, st, e) == Behind(up, q', st, e)
  {
    hide Attr, Advance, Accepts;
  }

  /** Entries the search treats as long entries. */
  ghost predicate LongRow(es: seq<seq<Byte>>) {
    forall k :: 0 <= k < |es| ==> |es[k]| == 32 && es[k][0] != 0 && !Skipped(es[k]) && IsLong(es[k])
  }

  lemma LongEntry(d: seq<Byte>, n: seq<WChar>, ord: nat, sum: Byte)
    requires Encodes(d, n, ord, sum)
    ensures |d| == 32 && d[0] != 0 && !Skipped(d) && IsLong(d)
  {
    hide CharAt;
    assert BitAnd(0x0F, 0x3F) == 0x0F by {
      Pow2Times16(1);
      Pow2Double(16);
      Pow2Double(32);
      MaskIsMod(0x0F, 64);
    }
  }

  lemma LongRowOf(es: seq<seq<Byte>>, n: seq<WChar>, sum: Byte)
    requires Encoded(es, n, sum)
    ensures LongRow(es)
  {
    hide Encodes, Skipped, IsLong;
    forall k: nat | k < |es|
      ensures |es[k]| == 32 && es[k][0] != 0 && !Skipped(es[k]) && IsLong(es[k])
    {
      LongEntry(es[k], n, |es| - k, sum);
    }
  }

  /** The search runs over a row of long entries as `Scan` does. */
  lemma {:induction false} OverLongRow(up: WChar -> WChar, q: Query, t: seq<seq<Byte>>, i: nat,
                                       es: seq<seq<Byte>>, st: Run)
    requires Shaped(t) && QueryOk(q) && q.lfn.Lfn? && LongRow(es) && i + |es| <= |t| && t[i..i + |es|] == es
    requires forall d :: d in es ==> |d| == 32
    ensures Search(up, q, t, i, st) == Search(up, q, t, i + |es|, Scan(up, q.lfn.buf, es, st))
    decreases |es|
  {
    hide Skipped, IsLong, Advance, Accepts;
    if es == [] {
    } else {
      assert t[i] == t[i..i + |es|][0] == es[0];
      assert t[i + 1..i + 1 + |es[1..]|] == es[1..];
      OverLongRow(up, q, t, i + 1, es[1..], Advance(st, es[0], Accepts(up, q.lfn.buf, es[0])));
    }
  }

  /** The short entry made of a name: attributes and all else 0. */
  ghost predicate ShortOf(e: seq<Byte>, fn: seq<Byte>) {
    |e| == 32 && |fn| == 12 && e[..11] == fn[..11] && e[11] == 0 && e[0] != 0 && e[0] != DDEM
  }

  lemma ShortLive(e: seq<Byte>, fn: seq<Byte>)
    requires ShortOf(e, fn)
    ensures !Skipped(e) && !IsLong(e) && !FreeEntry(e) && SumOf(e, 11) == SumOf(fn, 11)
  {
    SumSame(e, fn, 11);
    hide SumOf;
  }

  /** What dir_register adds: the long entries, if any, and the short entry. */
  ghost predicate NewRow(es: seq<seq<Byte>>, sfn: seq<Byte>, q: Query, n: seq<WChar>) {
    && QueryOk(q) && ShortOf(sfn, q.fn)
    && (es == [] ==> !Lossy(q.fn))
    && (es != [] ==> q.lfn.Lfn? && IsName(n) && Holds(q.lfn.buf, n) && Encoded(es, n, SumOf(q.fn, 11)))
  }

  /** The new row is found, from whatever state of the search, if and only if the short name can be
      compared or the long name has at most 254 characters. */
  lemma RowFound(up: WChar -> WChar, q: Query, t: seq<seq<Byte>>, start: nat, es: seq<seq<Byte>>,
                 sfn: seq<Byte>, n: seq<WChar>, st: Run)
    requires Shaped(t) && NewRow(es, sfn, q, n) && KeepsZero(up)
    requires start + |es| < |t| && t[start..start + |es|] == es && t[start + |es|] == sfn
    ensures Search(up, q, t, start, st) >= start + |es|
    ensures Search(up, q, t, start, st) == start + |es| <==> !Lossy(q.fn) || |n| <= 254
  {
    hide Skipped, IsLong, Encoded, Scan, Lossy, SumOf;
    ShortLive(sfn, q.fn);
    if es != [] {
      var sum := SumOf(q.fn, 11);
      LongRowOf(es, n, sum);
      RowShape(es);
      OverLongRow(up, q, t, start, es, st);
      ScanFindsName(up, q.lfn.buf, n, es, n, sum, st);
    }
  }

  lemma RowShape(es: seq<seq<Byte>>)
    requires LongRow(es)
    ensures forall d :: d in es ==> |d| == 32
  {
  }

  /**
   * If the name was not in the well-ended directory t, and its entries were put into the first row
   * of free entries of the (possibly grown) table t1, then a search finds it at the new short entry,
   * unless only its long name can be compared and has 255 characters; all live entries are where they
   * were, and the directory is still well ended.
   */
  lemma RegisteredIsFound(up: WChar -> WChar, q: Query, q': Query, t: seq<seq<Byte>>, t1: seq<seq<Byte>>, p: nat,
                          es: seq<seq<Byte>>, sfn: seq<Byte>, n: seq<WChar>)
    requires Shaped(t) && WellEnded(t) && Grown(t, t1) && SameDecisions(q, q') && KeepsZero(up)
    requires Search(up, q, t, 0, BROKEN) == |t|
    requires FirstRun(t1, |es| + 1, p) && NewRow(es, sfn, q', n)
    ensures p >= |es| && p < |t1|
    ensures var t2 := Replaced(t1, p - |es|, es + [sfn]);
      && Shaped(t2) && WellEnded(t2) && |t2| == |t1|
      && (Search(up, q', t2, 0, BROKEN) == p <==> !Lossy(q'.fn) || |n| <= 254)
      && (forall i :: 0 <= i < |t| && !FreeEntry(t[i]) ==> t2[i] == t[i])
  {
    hide Search, Encoded, Holds, IsName, Lossy, Skipped, IsLong, SumOf, KeepsZero, NewRow;
    GrownEnded(t, t1);
    var start := p - |es|;
    NoEndBefore(t1, |es| + 1, p);
    var row := es + [sfn];
    RowFacts(es, sfn, q', n);
    var t2 := Replaced(t1, start, row);
    ReplacedFacts(t1, start, row);
    InsideOld(t, t1, start);
    ReplacedEnded(t1, start, row, p);
    var st := PassCommon(up, q, q', t, t2, 0, start, BROKEN);
    RowSlices(t2, start, es, sfn);
    RowFound(up, q', t2, start, es, sfn, n, st);
    LiveKept(t, t1, t2, start, row, p);
  }

  lemma RowFacts(es: seq<seq<Byte>>, sfn: seq<Byte>, q: Query, n: seq<WChar>)
    requires NewRow(es, sfn, q, n)
    ensures forall k :: 0 <= k < |es| + 1 ==> |(es + [sfn])[k]| == 32 && !EndEntry((es + [sfn])[k])
  {
    hide Skipped, IsLong, Encoded;
    if es != [] {
      LongRowOf(es, n, SumOf(q.fn, 11));
    }
  }

  lemma ReplacedFacts(t: seq<seq<Byte>>, start: nat, row: seq<seq<Byte>>)
    requires start + |row| <= |t| && Shaped(t) && forall k :: 0 <= k < |row| ==> |row[k]| == 32
    ensures var r := Replaced(t, start, row);
      && |r| == |t| && Shaped(r)
      && forall i :: 0 <= i < |t| ==> r[i] == if start <= i < start + |row| then row[i - start] else t[i]
  {
  }

  lemma InsideOld(t: seq<seq<Byte>>, t1: seq<seq<Byte>>, start: nat)
    requires Grown(t, t1) && Shaped(t) && start <= |t1| && forall j :: 0 <= j < start ==> !EndEntry(t1[j])
    ensures start <= |t| && forall j :: 0 <= j < start ==> t1[j] == t[j] && t[j][0] != 0
  {
    if start > |t| {
      assert EndEntry(t1[|t|]);
    }
    assert forall j :: 0 <= j < |t| ==> t1[j] == t1[..|t|][j] == t[j];
  }

  lemma ReplacedEnded(t: seq<seq<Byte>>, start: nat, row: seq<seq<Byte>>, p: nat)
    requires start + |row| <= |t| && Shaped(t) && WellEnded(t)
    requires forall k :: 0 <= k < |row| ==> |row[k]| == 32 && !EndEntry(row[k])
    requires forall j :: 0 <= j < start ==> !EndEntry(t[j])
    ensures WellEnded(Replaced(t, start, row))
  {
    ReplacedFacts(t, start, row);
    hide Replaced;
  }

  lemma RowSlices(t2: seq<seq<Byte>>, start: nat, es: seq<seq<Byte>>, sfn: seq<Byte>)
    requires start + |es| < |t2|
    requires forall i :: start <= i < start + |es| + 1 ==> t2[i] == (es + [sfn])[i - start]
    ensures t2[start..start + |es|] == es && t2[start + |es|] == sfn
  {
    assert forall k :: 0 <= k < |es| ==> t2[start..start + |es|][k] == t2[start + k] == (es + [sfn])[k];
  }

  lemma LiveKept(t: seq<seq<Byte>>, t1: seq<seq<Byte>>, t2: seq<seq<Byte>>, start: nat, row: seq<seq<Byte>>, p: nat)
    requires Grown(t, t1) && FirstRun(t1, |row|, p) && start == p + 1 - |row| && |t2| == |t1|
    requires forall i :: 0 <= i < |t1| ==> t2[i] == if start <= i < start + |row| then row[i - start] else t1[i]
    ensures forall i :: 0 <= i < |t| && !FreeEntry(t[i]) ==> t2[i] == t[i]
  {
    assert forall j :: 0 <= j < |t| ==> t1[j] == t1[..|t|][j] == t[j];
  }
}
