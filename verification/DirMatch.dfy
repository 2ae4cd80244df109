/** Which entry a search finds: what dir_find looks for, read off the bytes of the entries. */
module DirMatch {
  import opened Arith
  import opened LongName
  import opened DirSearch

  /** A short entry that is neither deleted nor a volume label. */
  predicate LiveShort(e: seq<Byte>)
    requires |e| == 32
  {
    e[0] != 0xE5 && e[11] / 8 % 2 == 0
  }

  /** No terminator comes before character s of a long entry. */
  ghost predicate InName(e: seq<Byte>, s: nat)
    requires |e| == 32
  {
    forall t: nat :: t < s ==> CharAt(e, t) != 0
  }

  /** Part j of a name agrees with its places in the buffer b, terminator included; filler follows the
      terminator, and a last part without one ends where the name in the buffer ends. */
  ghost predicate PartAgrees(up: WChar -> WChar, b: seq<WChar>, e: seq<Byte>, j: nat, last: bool)
    requires |e| == 32 && |b| == 256 && j >= 1
  {
    && (forall s: nat :: s < 13 && InName(e, s) ==>
          13 * (j - 1) + s < 255 && up(CharAt(e, s)) == up(b[13 * (j - 1) + s]))
    && (forall s: nat :: s < 13 && !InName(e, s) ==> CharAt(e, s) == 0xFFFF)
    && (last && InName(e, 13) ==> 13 * j < 256 && b[13 * j] == 0)
  }

  /** The entry is part j of the name in b: order byte, attributes, checksum, zero words and characters. */
  ghost predicate Part(up: WChar -> WChar, b: seq<WChar>, e: seq<Byte>, j: nat, last: bool, sum: nat)
    requires |e| == 32 && |b| == 256
  {
    && j >= 1 && e[0] == (if last then 0x40 + j else j) && e[11] % 64 == 0x0F && e[13] == sum
    && e[26] == 0 && e[27] == 0 && PartAgrees(up, b, e, j, last)
  }

  /** The k entries in front of short entry r are the wanted long name in k parts, last part first, with the
      checksum of the short entry. */
  ghost predicate LongNameBefore(up: WChar -> WChar, q: Query, t: seq<seq<Byte>>, r: nat, k: nat)
    requires DirSearch.Shaped(t) && QueryOk(q) && r < |t|
  {
    && q.lfn.Lfn? && 1 <= k <= r
    && forall i: nat :: r - k <= i < r ==> Part(up, q.lfn.buf, t[i], r - i, i == r - k, SumOf(t[r], 11))
  }

  /** Entry r bears the wanted name: its eleven bytes are the short name, if that is exact, or its long name is
      the wanted one. */
  ghost predicate Hit(up: WChar -> WChar, q: Query, t: seq<seq<Byte>>, r: nat)
    requires DirSearch.Shaped(t) && QueryOk(q) && r < |t|
  {
    && LiveShort(t[r])
    && ((q.fn[11] % 2 == 0 && t[r][..11] == q.fn[..11]) || exists k: nat :: LongNameBefore(up, q, t, r, k))
  }

  /** Entry r is the first that bears the name, and no end mark comes before it. */
  ghost predicate FirstHit(up: WChar -> WChar, q: Query, t: seq<seq<Byte>>, r: nat) {
    && DirSearch.Shaped(t) && QueryOk(q) && r < |t|
    && t[r][0] != 0 && Hit(up, q, t, r)
    && forall j: nat :: j < r ==> t[j][0] != 0 && !Hit(up, q, t, j)
  }

  /** No entry in front of the end mark, or of the end of the table, bears the name. */
  ghost predicate Missed(up: WChar -> WChar, q: Query, t: seq<seq<Byte>>) {
    && DirSearch.Shaped(t) && QueryOk(q)
    && forall r: nat :: r < |t| && (forall j: nat :: j <= r ==> t[j][0] != 0) ==> !Hit(up, q, t, r)
  }

  // ----- bits of an entry -----

  lemma FlagValue(x: nat)
    ensures BitAnd(x, LLEF) == 64 * (x / 64 % 2)
  {
    hide BitAnd;
    AndHalf(x, 32);
    AndHalf(x / 2, 16);
    AndHalf(x / 4, 8);
    AndHalf(x / 8, 4);
    AndHalf(x / 16, 2);
    AndHalf(x / 32, 1);
    MaskIsMod(x / 64, 2);
  }

  /** The order byte: number, flag, and number without the flag. */
  lemma OrderBits(e: seq<Byte>)
    requires |e| == 32
    ensures BitAnd(e[0], 0x3F) == e[0] % 64 && (IsLast(e) <==> e[0] / 64 % 2 == 1)
    ensures Plain(e) == if e[0] / 64 % 2 == 1 then e[0] - 64 else e[0]
  {
    hide BitAnd;
    assert IsPow2(64) by {
      Pow2Double(16);
      Pow2Double(32);
    }
    assert IsPow2(256) by {
      Pow2Times16(1);
      Pow2Times16(16);
    }
    MaskIsMod(e[0], 64);
    FlagValue(e[0]);
    ComplementMask(e[0], LLEF, 256);
  }

  lemma BitThree(x: nat)
    ensures BitAnd(x, 8) == 8 * (x / 8 % 2) && BitAnd(x, 1) == x % 2
  {
    hide BitAnd;
    AndHalf(x, 4);
    AndHalf(x / 2, 2);
    AndHalf(x / 4, 1);
    MaskIsMod(x / 8, 2);
    MaskIsMod(x, 2);
  }

  /** The attribute tests of dir_find. */
  lemma Kinds(e: seq<Byte>)
    requires |e| == 32
    ensures !Skipped(e) && IsLong(e) <==> e[0] != 0xE5 && e[11] % 64 == 0x0F
    ensures !Skipped(e) && !IsLong(e) <==> LiveShort(e)
  {
    hide BitAnd;
    assert IsPow2(64) by {
      Pow2Double(16);
      Pow2Double(32);
    }
    MaskIsMod(e[11], 64);
    BitThree(e[11] % 64);
    LowBits(e[11]);
  }

  lemma LowBits(x: Byte)
    ensures x % 64 / 8 % 2 == x / 8 % 2 && (x % 64 == 0x0F ==> x / 8 % 2 == 1)
  {
    var q, r := x / 64, x % 64;
    DivModUnique(x, 8, 8 * q + r / 8, r % 8);
    DivModUnique(x / 8, 2, 4 * q + r / 8 / 2, r / 8 % 2);
  }

  lemma LossFlag(fn: seq<Byte>)
    requires |fn| == 12
    ensures Lossy(fn) <==> fn[11] % 2 == 1
  {
    hide BitAnd;
    BitThree(fn[11]);
  }

  // ----- one long entry -----

  /** The used characters are those in the name. */
  lemma {:induction false} UsedIs(e: seq<Byte>, s: nat, z: nat)
    requires |e| == 32 && z <= s <= 13 && InName(e, z)
    ensures s < UsedFrom(e, z) <==> s < 13 && InName(e, s)
    decreases 13 - z
  {
    hide CharAt;
    if z < s && CharAt(e, z) != 0 {
      UsedIs(e, s, z + 1);
    }
  }

  /** What cmp_lfn accepts is a part that agrees. */
  lemma AcceptsIs(up: WChar -> WChar, b: seq<WChar>, e: seq<Byte>, j: nat)
    requires |e| == 32 && |b| == 256 && e[0] % 64 == j >= 1
    ensures Accepts(up, b, e) <==> e[26] == 0 && e[27] == 0 && PartAgrees(up, b, e, j, e[0] / 64 % 2 == 1)
  {
    hide BitAnd, CharAt, Used, Sub32, InName, Word;
    OrderBits(e);
    NoWrap(j);
    ZeroWord(e);
    forall s: nat | s <= 13
      ensures s < Used(e) <==> s < 13 && InName(e, s)
    {
      UsedWhole(e, s);
    }
    UsedEnd(e);
  }

  /** What pick_lfn takes, character by character: filler behind the terminator, all places below 255, and one more
      place below 255 behind a last part. */
  lemma PicksIs(e: seq<Byte>, j: nat)
    requires |e| == 32 && e[0] % 64 == j >= 1
    ensures Picks(e) <==>
              && e[26] == 0 && e[27] == 0
              && (forall s: nat :: s < 13 && InName(e, s) ==> 13 * (j - 1) + s < 255)
              && (forall s: nat :: s < 13 && !InName(e, s) ==> CharAt(e, s) == 0xFFFF)
              && (e[0] / 64 % 2 == 1 ==> forall s: nat :: s < 13 && InName(e, s) ==> 13 * (j - 1) + s + 1 < 255)
  {
    hide BitAnd, CharAt, Used, Sub32, InName, Word;
    OrderBits(e);
    NoWrap(j);
    ZeroWord(e);
    forall s: nat | s <= 13
      ensures s < Used(e) <==> s < 13 && InName(e, s)
    {
      UsedWhole(e, s);
    }
    var u := Used(e);
    assert InName(e, u - 1);
  }

  lemma UsedWhole(e: seq<Byte>, s: nat)
    requires |e| == 32 && s <= 13
    ensures s < Used(e) <==> s < 13 && InName(e, s)
  {
    hide CharAt, UsedFrom;
    UsedIs(e, s, 0);
  }

  lemma UsedEnd(e: seq<Byte>)
    requires |e| == 32
    ensures InName(e, 13) <==> !Terminated(e)
    ensures !Terminated(e) ==> Used(e) == 13
  {
    hide CharAt, UsedFrom;
    var u := Used(e);
    UsedWhole(e, u - 1);
    if !Terminated(e) {
      assert InName(e, 12) && CharAt(e, 12) != 0;
    }
  }

  lemma ZeroWord(e: seq<Byte>)
    requires |e| == 32
    ensures Word(e, 26) == 0 <==> e[26] == 0 && e[27] == 0
  {
  }

  // ----- the search -----

  /** State of the search in front of entry i, if it gets there. */
  ghost function StateAt(up: WChar -> WChar, q: Query, t: seq<seq<Byte>>, i: nat): Run
    requires DirSearch.Shaped(t) && QueryOk(q) && i <= |t|
  {
    if i == 0 then BROKEN else Behind(up, q, StateAt(up, q, t, i - 1), t[i - 1])
  }

  /** Parts o + 1 to k of a name stand in front of entry i. */
  ghost predicate Open(up: WChar -> WChar, q: Query, t: seq<seq<Byte>>, i: nat, k: nat, o: nat, sum: nat)
    requires DirSearch.Shaped(t) && QueryOk(q) && i <= |t|
  {
    && q.lfn.Lfn? && o < k <= i + o
    && forall h: nat :: i + o - k <= h < i ==> Part(up, q.lfn.buf, t[h], i + o - h, h == i + o - k, sum)
  }

  /** The step over a long entry. */
  lemma StepLong(up: WChar -> WChar, q: Query, e: seq<Byte>, st: Run, o: nat)
    requires |e| == 32 && QueryOk(q) && q.lfn.Lfn? && o <= 0x3E
    ensures var r := Behind(up, q, st, e);
      && (r.ord == o <==> || Part(up, q.lfn.buf, e, o + 1, true, e[13])
                          || (Part(up, q.lfn.buf, e, o + 1, false, st.sum) && st.ord == o + 1))
      && (r.ord == o ==> r.sum == e[13])
  {
    hide Skipped, IsLong, Accepts, PartAgrees, BitAnd, Plain, IsLast;
    Kinds(e);
    OrderBits(e);
    if e[0] % 64 >= 1 {
      AcceptsIs(up, q.lfn.buf, e, e[0] % 64);
    }
  }

  /** The expected number is small, or out of reach of small ones. */
  lemma StepRange(up: WChar -> WChar, q: Query, e: seq<Byte>, st: Run)
    requires |e| == 32 && QueryOk(q) && (st.ord <= 0x3E || st.ord >= 0x7F)
    ensures var r := Behind(up, q, st, e); r.ord <= 0x3E || r.ord >= 0x7F
    ensures q.lfn.NoLfn? && st.ord >= 0x7F ==> Behind(up, q, st, e).ord >= 0x7F
  {
    hide Skipped, IsLong, Accepts, BitAnd, Plain, IsLast;
    OrderBits(e);
  }

  /** A small expected number o means that the parts down to o + 1 stand in front. */
  lemma {:induction false} StateMeans(up: WChar -> WChar, q: Query, t: seq<seq<Byte>>, i: nat)
    requires DirSearch.Shaped(t) && QueryOk(q) && i <= |t|
    ensures var st := StateAt(up, q, t, i);
      && (st.ord <= 0x3E || st.ord >= 0x7F) && (q.lfn.NoLfn? ==> st.ord >= 0x7F)
      && (st.ord <= 0x3E ==> exists k: nat :: Open(up, q, t, i, k, st.ord, st.sum))
    decreases i
  {
    hide Behind, Part;
    if i > 0 {
      StateMeans(up, q, t, i - 1);
      var e, was, st := t[i - 1], StateAt(up, q, t, i - 1), StateAt(up, q, t, i);
      StepRange(up, q, e, was);
      if st.ord <= 0x3E {
        var o := st.ord;
        StepLong(up, q, e, was, o);
        if Part(up, q.lfn.buf, e, o + 1, true, e[13]) {
          assert Open(up, q, t, i, o + 1, o, st.sum);
        } else {
          PartSum(up, q.lfn.buf, e, o + 1, false, was.sum);
          var k: nat :| Open(up, q, t, i - 1, k, o + 1, was.sum);
          assert Open(up, q, t, i, k, o, st.sum);
        }
      }
    }
  }

  lemma PartSum(up: WChar -> WChar, b: seq<WChar>, e: seq<Byte>, j: nat, last: bool, sum: nat)
    requires |e| == 32 && |b| == 256 && Part(up, b, e, j, last, sum)
    ensures e[13] == sum && 1 <= j <= 20
  {
    assert InName(e, 0);
  }

  /** Parts of a name in front of entry i leave the search expecting the next one. */
  lemma {:induction false} OpenMeans(up: WChar -> WChar, q: Query, t: seq<seq<Byte>>, i: nat, k: nat, o: nat, sum: nat)
    requires DirSearch.Shaped(t) && QueryOk(q) && i <= |t| && Open(up, q, t, i, k, o, sum)
    ensures StateAt(up, q, t, i) == Run(o, sum)
    decreases k - o
  {
    hide Behind, Part;
    var e := t[i - 1];
    assert Part(up, q.lfn.buf, e, o + 1, o + 1 == k, sum);
    PartSum(up, q.lfn.buf, e, o + 1, o + 1 == k, sum);
    StepLong(up, q, e, StateAt(up, q, t, i - 1), o);
    if o + 1 < k {
      OpenMeans(up, q, t, i - 1, k, o + 1, sum);
    }
  }

  /** The search stops at an entry that bears the name, and passes the others. */
  lemma MatchIsHit(up: WChar -> WChar, q: Query, t: seq<seq<Byte>>, r: nat)
    requires DirSearch.Shaped(t) && QueryOk(q) && r < |t|
    ensures Matches(q, StateAt(up, q, t, r), t[r]) <==> Hit(up, q, t, r)
  {
    hide StateAt, Skipped, IsLong, SumOf, Lossy, Part;
    Kinds(t[r]);
    LossFlag(q.fn);
    StateMeans(up, q, t, r);
    var st := StateAt(up, q, t, r);
    if st.ord == 0 && st.sum == SumOf(t[r], 11) {
      var k: nat :| Open(up, q, t, r, k, 0, st.sum);
      assert LongNameBefore(up, q, t, r, k);
    }
    forall k: nat | LongNameBefore(up, q, t, r, k)
      ensures st.ord == 0 && st.sum == SumOf(t[r], 11)
    {
      OpenMeans(up, q, t, r, k, 0, SumOf(t[r], 11));
    }
  }

  lemma {:induction false} SearchFrom(up: WChar -> WChar, q: Query, t: seq<seq<Byte>>, i: nat, r: nat)
    requires DirSearch.Shaped(t) && QueryOk(q) && i <= r < |t|
    ensures Search(up, q, t, i, StateAt(up, q, t, i)) == r <==>
              && t[r][0] != 0 && Hit(up, q, t, r)
              && forall j: nat :: i <= j < r ==> t[j][0] != 0 && !Hit(up, q, t, j)
    decreases r - i
  {
    hide Matches, Behind, Hit;
    MatchIsHit(up, q, t, i);
    assert i + 1 <= |t| ==> StateAt(up, q, t, i + 1) == Behind(up, q, StateAt(up, q, t, i), t[i]);
    if i < r {
      SearchFrom(up, q, t, i + 1, r);
    }
  }

  /**
   * What dir_find's search finds, with its order number and checksum kept from entry to entry, is the first
   * entry that bears the name, and it finds nothing exactly when there is none in front of the end mark.
   */
  lemma SearchFinds(up: WChar -> WChar, q: Query, t: seq<seq<Byte>>)
    requires DirSearch.Shaped(t) && QueryOk(q)
    ensures forall r: nat :: r < |t| ==> (Search(up, q, t, 0, BROKEN) == r <==> FirstHit(up, q, t, r))
    ensures Search(up, q, t, 0, BROKEN) == |t| <==> Missed(up, q, t)
  {
    hide Search, Hit;
    forall r: nat | r < |t|
      ensures Search(up, q, t, 0, BROKEN) == r <==> FirstHit(up, q, t, r)
    {
      SearchFrom(up, q, t, 0, r);
    }
    var r0 := Search(up, q, t, 0, BROKEN);
    if r0 < |t| {
      assert FirstHit(up, q, t, r0);
    }
    if !Missed(up, q, t) {
      var r: nat :| r < |t| && (forall j: nat :: j <= r ==> t[j][0] != 0) && Hit(up, q, t, r);
      LeastHit(up, q, t, r);
    }
  }

  lemma {:induction false} LeastHit(up: WChar -> WChar, q: Query, t: seq<seq<Byte>>, r: nat)
    requires DirSearch.Shaped(t) && QueryOk(q) && r < |t| && Hit(up, q, t, r)
    requires forall j: nat :: j <= r ==> t[j][0] != 0
    ensures exists i: nat :: i <= r && FirstHit(up, q, t, i)
    decreases r
  {
    hide Hit;
    if FirstHit(up, q, t, r) {
    } else {
      var j: nat :| j < r && Hit(up, q, t, j);
      LeastHit(up, q, t, j);
    }
  }

  // ----- the name found -----

  /** Character p of the name in the long entries in front of entry r. */
  function NameChar(t: seq<seq<Byte>>, r: nat, p: nat): (w: nat)
    requires DirSearch.Shaped(t) && p / 13 < r <= |t|
  {
    CharAt(t[r - 1 - p / 13], p % 13)
  }

  /** As far as the name in the buffer goes, a part holds its characters, and then its terminator. */
  lemma {:induction false} PartPlace(up: WChar -> WChar, b: seq<WChar>, e: seq<Byte>, j: nat, last: bool, sum: nat,
                                     m: seq<WChar>, s: nat)
    requires |e| == 32 && |b| == 256 && Part(up, b, e, j, last, sum) && Holds(b, m) && IsName(m) && KeepsZero(up)
    requires s < 13 && 13 * (j - 1) + s <= |m|
    ensures InName(e, s) && up(CharAt(e, s)) == up(b[13 * (j - 1) + s])
    ensures 13 * (j - 1) + s < |m| ==> b[13 * (j - 1) + s] == m[13 * (j - 1) + s] && CharAt(e, s) != 0
    ensures 13 * (j - 1) + s == |m| ==> CharAt(e, s) == 0
    decreases s
  {
    hide CharAt;
    var p := 13 * (j - 1) + s;
    assert p < |m| ==> b[p] == b[..|m|][p];
    if s > 0 {
      PartPlace(up, b, e, j, last, sum, m, s - 1);
    }
  }

  /** A last part ends the name. */
  lemma LastPart(up: WChar -> WChar, b: seq<WChar>, e: seq<Byte>, k: nat, sum: nat, m: seq<WChar>)
    requires |e| == 32 && |b| == 256 && Part(up, b, e, k, true, sum) && Holds(b, m) && IsName(m) && KeepsZero(up)
    ensures |m| <= 13 * k
  {
    hide CharAt;
    assert |m| > 13 * k ==> b[13 * k] == b[..|m|][13 * k];
    if |m| > 13 * k {
      PartPlace(up, b, e, k, true, sum, m, 12);
    }
  }

  /** The long name found holds the wanted characters, up to upper-casing, and ends where they end. */
  lemma FoundName(up: WChar -> WChar, q: Query, t: seq<seq<Byte>>, r: nat, k: nat, m: seq<WChar>)
    requires DirSearch.Shaped(t) && QueryOk(q) && r < |t| && LongNameBefore(up, q, t, r, k)
    requires Holds(q.lfn.buf, m) && IsName(m) && KeepsZero(up)
    ensures |m| <= 13 * k <= 13 * r
    ensures forall p: nat :: p < |m| ==> p / 13 < r && up(NameChar(t, r, p)) == up(m[p])
    ensures |m| < 13 * k ==> |m| / 13 < r && NameChar(t, r, |m|) == 0
  {
    hide SumOf, CharAt, Part, Holds, IsName;
    var b, sum := q.lfn.buf, SumOf(t[r], 11);
    assert Part(up, b, t[r - k], k, true, sum);
    LastPart(up, b, t[r - k], k, sum, m);
    forall p: nat | p <= |m| && p < 13 * k
      ensures p / 13 < r && (if p < |m| then up(NameChar(t, r, p)) == up(m[p]) else NameChar(t, r, p) == 0)
    {
      var j := p / 13 + 1;
      assert Part(up, b, t[r - j], j, r - j == r - k, sum);
      PartPlace(up, b, t[r - j], j, r - j == r - k, sum, m, p % 13);
    }
  }
}
