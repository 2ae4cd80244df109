/** Long file names in directory entries: fit_lfn, pick_lfn and cmp_lfn. */
module LongName {
  import opened Arith

  const MAX_LFN: nat := 255
  const LLEF: nat := 0x40
  const AM_LFN: Byte := 0x0F

  type WChar = x: int | 0 <= x < 0x1_0000

  /** Where the 13 characters of an entry are. */
  const LFN_OFS: seq<nat> := [1, 3, 5, 7, 9, 14, 16, 18, 20, 22, 24, 28, 30]

  function Ofs(s: nat): nat {
    if s < 13 then LFN_OFS[s] else 30
  }

  /** The 16-bit word at offset o of a 32-byte entry. */
  function Word(d: seq<Byte>, o: nat): (w: nat)
    requires |d| == 32 && o < 31
    ensures w < 0x1_0000
  {
    LdWord(d[o], d[o + 1])
  }

  /** Character s of an entry. */
  function CharAt(d: seq<Byte>, s: nat): (w: nat)
    requires |d| == 32
    ensures w < 0x1_0000
  {
    Word(d, Ofs(s))
  }

  /** A name as the sequence of its characters. */
  ghost predicate IsName(n: seq<WChar>) {
    1 <= |n| <= MAX_LFN && forall i :: 0 <= i < |n| ==> n[i] != 0 && n[i] != 0xFFFF
  }

  /** The working buffer holds the zero-terminated name n. */
  ghost predicate Holds(b: seq<WChar>, n: seq<WChar>) {
    |n| < |b| && b[..|n|] == n && b[|n|] == 0
  }

  /** Number of long entries of a name of n characters: `(n + 25) / 13 - 1`. */
  function Entries(n: nat): nat {
    (n + 25) / 13 - 1
  }

  /** What character place i of the entries of a name holds. */
  function Slot(n: seq<WChar>, i: nat): nat {
    if i < |n| then n[i] else if i == |n| then 0 else 0xFFFF
  }

  /** First place of entry ord. */
  function Base(ord: nat): nat
    requires ord >= 1
  {
    13 * (ord - 1)
  }

  /** The name ends in entry ord. */
  predicate Ends(n: seq<WChar>, ord: nat) {
    |n| <= 13 * ord
  }

  /** d is long entry number ord of name n. */
  ghost predicate Encodes(d: seq<Byte>, n: seq<WChar>, ord: nat, sum: Byte) {
    && |d| == 32 && 1 <= ord <= 20
    && d[0] == (if Ends(n, ord) then ord + LLEF else ord)
    && d[11] == AM_LFN && d[12] == 0 && d[13] == sum && d[26] == 0 && d[27] == 0
    && forall s: nat :: s < 13 ==> CharAt(d, s) == Slot(n, Base(ord) + s)
  }

  /** The last-entry flag is on exactly one entry of a name: the one numbered Entries(|n|). */
  lemma LastFlagOnce(n: seq<WChar>, ord: nat)
    requires IsName(n) && 1 <= ord <= Entries(|n|)
    ensures Ends(n, ord) <==> ord == Entries(|n|)
    ensures Entries(|n|) <= 20 && 13 * (ord - 1) <= |n|
  {
  }

  lemma AndHalf(x: nat, y: nat)
    ensures BitAnd(x, 2 * y) == 2 * BitAnd(x / 2, y)
  {
    if x == 0 || y == 0 {
    } else {
      assert (2 * y) % 2 == 0 && 2 * y / 2 == y;
    }
  }

  /** The two fields of the order byte. */
  lemma OrderByte(ord: nat)
    requires ord < 64
    ensures BitAnd(ord, 0x3F) == ord && BitAnd(ord + LLEF, 0x3F) == ord
    ensures BitAnd(ord, LLEF) == 0 && BitAnd(ord + LLEF, LLEF) != 0
    ensures BitOr(ord, LLEF) == ord + LLEF
  {
    hide BitAnd, BitOr;
    assert IsPow2(64) by {
      Pow2Double(16);
      Pow2Double(32);
    }
    MaskIsMod(ord, 64);
    MaskIsMod(ord + LLEF, 64);
    OrIsSum(ord, 64, 64);
    Flag(ord);
    Flag(ord + LLEF);
  }

  lemma Flag(x: nat)
    ensures BitAnd(x, LLEF) != 0 <==> x / 64 % 2 == 1
  {
    hide BitAnd;
    AndHalf(x, 32);
    AndHalf(x / 2, 16);
    AndHalf(x / 4, 8);
    AndHalf(x / 8, 4);
    AndHalf(x / 16, 2);
    AndHalf(x / 32, 1);
    MaskIsMod(x / 64, 2);
  }

  // ----- fit_lfn -----

  lemma OfsApart(s: nat, t: nat)
    requires s < 13 && t < 13 && s != t
    ensures Ofs(s) + 1 < Ofs(t) || Ofs(t) + 1 < Ofs(s)
  {
  }

  lemma OfsRange(s: nat)
    ensures 1 <= Ofs(s) <= 30 && Ofs(s) !in {10, 11, 12, 13, 25, 26, 27}
  {
  }

  /** Places other than the 13 characters. */
  predicate Fixed(k: int) {
    k == 0 || 11 <= k <= 13 || 26 <= k <= 27
  }

  /** `ST_WORD(dir + LfnOfs[s], w)`. */
  method PutChar(dir: array<Byte>, s: nat, w: WChar)
    requires dir.Length == 32 && s < 13
    modifies dir
    ensures CharAt(dir[..], s) == w
    ensures forall t: nat :: t < 13 && t != s ==> CharAt(dir[..], t) == CharAt(old(dir[..]), t)
    ensures forall k :: 0 <= k < 32 && Fixed(k) ==> dir[k] == old(dir[k])
  {
    hide Ofs;
    OfsRange(s);
    ghost var was := dir[..];
    dir[Ofs(s)] := w % 256;
    dir[Ofs(s) + 1] := w / 256;
    forall t: nat | t < 13 && t != s
      ensures CharAt(dir[..], t) == CharAt(was, t)
    {
      OfsApart(s, t);
      OfsRange(t);
    }
  }

  /** What the zero-terminated buffer holds, place by place. */
  lemma SlotIs(b: seq<WChar>, n: seq<WChar>, p: nat)
    requires Holds(b, n) && IsName(n)
    ensures p <= |n| ==> p < |b| && b[p] == Slot(n, p) && Slot(n, p) != 0xFFFF && (b[p] == 0 <==> p == |n|)
    ensures p > |n| ==> Slot(n, p) == 0xFFFF
  {
    assert p < |n| ==> b[p] == b[..|n|][p];
  }

  /** The copying loop of fit_lfn: padding with 0xFFFF after the terminator. */
  method FitChars(lfnbuf: seq<WChar>, dir: array<Byte>, start: nat, ghost n: seq<WChar>) returns (wc: WChar, i: nat)
    requires Holds(lfnbuf, n) && IsName(n) && dir.Length == 32 && start <= |n|
    modifies dir
    ensures forall k :: 0 <= k < 32 && Fixed(k) ==> dir[k] == old(dir[k])
    ensures forall s: nat :: s < 13 ==> CharAt(dir[..], s) == Slot(n, start + s)
    ensures wc == 0xFFFF <==> start + 13 > |n|
    ensures wc != 0xFFFF ==> i == start + 13
  {
    hide CharAt, Holds, Slot, IsName, Fixed;
    i := start;
    wc := 0;
    var s: nat := 0;
    while s < 13
      invariant s <= 13
      invariant (wc == 0xFFFF) == (start + s > |n|)
      invariant i == Min(start + s, |n| + 1)
      invariant forall k :: 0 <= k < 32 && Fixed(k) ==> dir[k] == old(dir[k])
      invariant forall t: nat :: t < s ==> CharAt(dir[..], t) == Slot(n, start + t)
    {
      SlotIs(lfnbuf, n, start + s);
      if wc != 0xFFFF {
        wc := lfnbuf[i];
        i := i + 1;
      }
      PutChar(dir, s, wc);
      if wc == 0 {
        wc := 0xFFFF;
      }
      s := s + 1;
    }
  }

  /** All of fit_lfn but the order byte. */
  method FitBody(lfnbuf: seq<WChar>, dir: array<Byte>, start: nat, sum: Byte, ghost n: seq<WChar>) returns (last: bool)
    requires Holds(lfnbuf, n) && IsName(n) && dir.Length == 32 && start <= |n|
    modifies dir
    ensures dir[13] == sum && dir[11] == AM_LFN && dir[12] == 0 && dir[26] == 0 && dir[27] == 0
    ensures forall s: nat :: s < 13 ==> CharAt(dir[..], s) == Slot(n, start + s)
    ensures last <==> start + 13 >= |n|
  {
    hide CharAt, Holds, Slot, IsName;
    dir[13] := sum;
    dir[11] := AM_LFN;
    dir[12] := 0;
    dir[26], dir[27] := 0, 0;
    var wc, i := FitChars(lfnbuf, dir, start, n);
    SlotIs(lfnbuf, n, start + 13);
    last := wc == 0xFFFF || lfnbuf[i] == 0;
  }

  /** fit_lfn: write entry number ord of the name in lfnbuf. */
  method FitLfn(lfnbuf: seq<WChar>, dir: array<Byte>, ord: nat, sum: Byte, ghost n: seq<WChar>)
    requires Holds(lfnbuf, n) && IsName(n) && dir.Length == 32 && 1 <= ord <= Entries(|n|)
    modifies dir
    ensures Encodes(dir[..], n, ord, sum)
  {
    hide CharAt, BitOr, Encodes, Holds, Slot, IsName, Ends, Entries;
    LastFlagOnce(n, ord);
    OrderByte(ord);
    EndsAt(n, ord);
    var last := FitBody(lfnbuf, dir, (ord - 1) * 13, sum, n);
    var o: Byte := ord;
    if last {
      o := BitOr(o, LLEF);
    }
    ghost var was := dir[..];
    Finished(was, o, n, ord, sum);
    dir[0] := o;
    assert dir[..] == was[0 := o];
  }

  lemma NameLength(n: seq<WChar>)
    requires IsName(n)
    ensures 1 <= |n| <= MAX_LFN
  {
  }

  /** Storing the order byte completes the entry. */
  lemma Finished(d: seq<Byte>, o: Byte, n: seq<WChar>, ord: nat, sum: Byte)
    requires |d| == 32 && 1 <= ord <= 20 && o == if Ends(n, ord) then ord + LLEF else ord
    requires d[13] == sum && d[11] == AM_LFN && d[12] == 0 && d[26] == 0 && d[27] == 0
    requires forall s: nat :: s < 13 ==> CharAt(d, s) == Slot(n, Base(ord) + s)
    ensures Encodes(d[0 := o], n, ord, sum)
  {
    hide Ofs, Slot, Ends;
    var e := d[0 := o];
    assert forall k :: 1 <= k < 32 ==> e[k] == d[k];
    forall s: nat | s < 13
      ensures CharAt(e, s) == CharAt(d, s)
    {
      OfsRange(s);
    }
  }

  // ----- what an entry holds, for pick_lfn and cmp_lfn -----

  /** `((dir[LDIR_Ord] & 0x3F) - 1) * 13` on 32-bit words. */
  function BufferIndex(d: seq<Byte>): nat
    requires |d| == 32
  {
    Sub32(BitAnd(d[0], 0x3F), 1) * 13 % W32
  }

  /** `dir[LDIR_Ord] & LLEF`. */
  predicate IsLast(d: seq<Byte>)
    requires |d| == 32
  {
    BitAnd(d[0], LLEF) != 0
  }

  /** Number of leading characters of an entry, up to and with the terminator. */
  function UsedFrom(d: seq<Byte>, s: nat): (u: nat)
    requires |d| == 32 && s <= 13
    ensures s <= u <= 13
    ensures forall t: nat :: s <= t < u - 1 ==> CharAt(d, t) != 0
    ensures u < 13 ==> s < u && CharAt(d, u - 1) == 0
    decreases 13 - s
  {
    if s == 13 then 13 else if CharAt(d, s) == 0 then s + 1 else UsedFrom(d, s + 1)
  }

  function Used(d: seq<Byte>): (u: nat)
    requires |d| == 32
    ensures 1 <= u <= 13 && (u < 13 ==> CharAt(d, u - 1) == 0)
  {
    UsedFrom(d, 0)
  }

  /** The character that ends the used part is the terminator. */
  predicate Terminated(d: seq<Byte>)
    requires |d| == 32
  {
    CharAt(d, Used(d) - 1) == 0
  }

  /** The rest is filled with 0xFFFF. */
  predicate Padded(d: seq<Byte>)
    requires |d| == 32
  {
    forall s: nat :: Used(d) <= s < 13 ==> CharAt(d, s) == 0xFFFF
  }

  /** Segment of a name that fits below the limit on the buffer. */
  predicate WellFormed(d: seq<Byte>)
    requires |d| == 32
  {
    Word(d, 26) == 0 && Padded(d) && BufferIndex(d) + Used(d) <= MAX_LFN
  }

  /** Every entry pick_lfn takes. */
  predicate Picks(d: seq<Byte>)
    requires |d| == 32
  {
    WellFormed(d) && (IsLast(d) ==> BufferIndex(d) + Used(d) < MAX_LFN)
  }

  /** The buffer places pick_lfn may write. */
  predicate Touched(d: seq<Byte>, p: int)
    requires |d| == 32
  {
    BufferIndex(d) <= p < BufferIndex(d) + Used(d) + (if IsLast(d) then 1 else 0)
  }

  /** Every entry cmp_lfn accepts for the name in the buffer b. */
  predicate Accepts(up: WChar -> WChar, b: seq<WChar>, d: seq<Byte>)
    requires |d| == 32 && |b| == MAX_LFN + 1
  {
    && WellFormed(d)
    && (forall s: nat :: s < Used(d) ==> up(CharAt(d, s)) == up(b[BufferIndex(d) + s]))
    && (IsLast(d) && !Terminated(d) ==> b[BufferIndex(d) + 13] == 0)
  }

  /** One more character leaves the used part alone or extends it. */
  lemma UsedStep(d: seq<Byte>, s: nat)
    requires |d| == 32 && s < 13
    ensures s < Used(d) && CharAt(d, s) == 0 ==> Used(d) == s + 1
    ensures s < Used(d) && CharAt(d, s) != 0 && s < 12 ==> s + 1 < Used(d)
    ensures s < Used(d) && s == 12 ==> Used(d) == 13
  {
    hide CharAt;
  }

  // ----- pick_lfn and cmp_lfn -----

  /** pick_lfn: store the characters of an entry at their place in the buffer. */
  method PickLfn(lfnbuf: array<WChar>, d: seq<Byte>) returns (ok: bool)
    requires lfnbuf.Length == MAX_LFN + 1 && |d| == 32
    modifies lfnbuf
    ensures ok <==> Picks(d)
    ensures ok ==> forall s: nat :: s < Used(d) ==> lfnbuf[BufferIndex(d) + s] == CharAt(d, s)
    ensures ok && IsLast(d) ==> lfnbuf[BufferIndex(d) + Used(d)] == 0
    ensures forall p :: 0 <= p <= MAX_LFN && !Touched(d, p) ==> lfnbuf[p] == old(lfnbuf[p])
  {
    hide CharAt, BufferIndex, Word, Used, IsLast;
    if Word(d, 26) != 0 {
      return false;
    }
    var i := BufferIndex(d);
    var wc: WChar := 1;
    var s: nat := 0;
    while s < 13
      invariant s <= 13
      invariant (wc == 0) == (s > 0 && CharAt(d, Min(s, Used(d)) - 1) == 0)
      invariant wc != 0 ==> s == 13 || s < Used(d)
      invariant wc == 0 ==> Used(d) <= s
      invariant s == 13 ==> Used(d) <= s
      invariant i == BufferIndex(d) + Min(s, Used(d)) && (i <= MAX_LFN || s == 0)
      invariant forall t: nat :: t < s && t < Used(d) ==> lfnbuf[BufferIndex(d) + t] == CharAt(d, t)
      invariant forall t: nat :: Used(d) <= t < s ==> CharAt(d, t) == 0xFFFF
      invariant forall p :: 0 <= p <= MAX_LFN && (p < BufferIndex(d) || p >= i) ==> lfnbuf[p] == old(lfnbuf[p])
    {
      UsedStep(d, s);
      var uc := CharAt(d, s);
      if wc != 0 {
        if i >= MAX_LFN {
          return false;
        }
        lfnbuf[i] := uc;
        wc := uc;
        i := i + 1;
      } else {
        if uc != 0xFFFF {
          return false;
        }
      }
      s := s + 1;
    }
    if IsLast(d) {
      if i >= MAX_LFN {
        return false;
      }
      lfnbuf[i] := 0;
    }
    return true;
  }

  /** cmp_lfn: compare an entry with its place in the name, up to upper-casing. */
  method CmpLfn(up: WChar -> WChar, lfnbuf: seq<WChar>, d: seq<Byte>) returns (ok: bool)
    requires |lfnbuf| == MAX_LFN + 1 && |d| == 32
    ensures ok <==> Accepts(up, lfnbuf, d)
  {
    hide CharAt, BufferIndex, Word, Used, IsLast;
    if Word(d, 26) != 0 {
      return false;
    }
    var i := BufferIndex(d);
    var wc: WChar := 1;
    var s: nat := 0;
    while s < 13
      invariant s <= 13
      invariant (wc == 0) == (s > 0 && CharAt(d, Min(s, Used(d)) - 1) == 0)
      invariant wc != 0 ==> s == 13 || s < Used(d)
      invariant wc == 0 ==> Used(d) <= s
      invariant s == 13 ==> Used(d) <= s
      invariant i == BufferIndex(d) + Min(s, Used(d)) && (i <= MAX_LFN || s == 0)
      invariant forall t: nat :: t < s && t < Used(d) ==> up(CharAt(d, t)) == up(lfnbuf[BufferIndex(d) + t])
      invariant forall t: nat :: Used(d) <= t < s ==> CharAt(d, t) == 0xFFFF
    {
      UsedStep(d, s);
      var uc := CharAt(d, s);
      if wc != 0 {
        if i >= MAX_LFN || up(uc) != up(lfnbuf[i]) {
          return false;
        }
        i := i + 1;
        wc := uc;
      } else {
        if uc != 0xFFFF {
          return false;
        }
      }
      s := s + 1;
    }
    if IsLast(d) && wc != 0 && lfnbuf[i] != 0 {
      return false;
    }
    return true;
  }

  // ----- the entries of one name -----

  /** How the entry of a name reads back. */
  lemma EncodedReads(d: seq<Byte>, n: seq<WChar>, ord: nat, sum: Byte)
    requires Encodes(d, n, ord, sum) && IsName(n) && ord <= Entries(|n|)
    ensures BufferIndex(d) == Base(ord) && (IsLast(d) <==> Ends(n, ord))
    ensures forall s: nat :: s < 13 ==> CharAt(d, s) == Slot(n, Base(ord) + s)
    ensures Used(d) == Min(13, |n| + 1 - Base(ord)) && (Terminated(d) <==> |n| < 13 * ord)
    ensures WellFormed(d) <==> !(Ends(n, ord) && |n| > 254)
    ensures Picks(d) <==> !(Ends(n, ord) && |n| > 253)
  {
    hide BitAnd, CharAt, Sub32, Used, Padded, Terminated, Slot, Word;
    OrderByte(ord);
    NoWrap(ord);
    EncodedUsed(d, n, ord);
    assert Base(ord) <= |n| <= MAX_LFN;
    assert Word(d, 26) == 0 by {
      ZeroCluster(d);
    }
  }

  lemma ZeroCluster(d: seq<Byte>)
    requires |d| == 32 && d[26] == 0 && d[27] == 0
    ensures Word(d, 26) == 0
  {
  }

  lemma NoWrap(ord: nat)
    requires 1 <= ord < 64
    ensures Sub32(ord, 1) * 13 % W32 == Base(ord)
  {
  }

  lemma EncodedUsed(d: seq<Byte>, n: seq<WChar>, ord: nat)
    requires |d| == 32 && IsName(n) && 1 <= ord <= Entries(|n|)
    requires forall s: nat :: s < 13 ==> CharAt(d, s) == Slot(n, Base(ord) + s)
    ensures Used(d) == Min(13, |n| + 1 - Base(ord)) && (Terminated(d) <==> |n| < 13 * ord) && Padded(d)
  {
    hide CharAt;
    var u := UsedFrom(d, 0);
    assert CharAt(d, u - 1) == Slot(n, Base(ord) + u - 1);
    if |n| < 13 * ord {
      var z: nat := |n| - Base(ord);
      assert CharAt(d, z) == Slot(n, Base(ord) + z);
    }
  }

  /** The long entries of a name in directory order: the last part first. */
  ghost predicate Encoded(es: seq<seq<Byte>>, n: seq<WChar>, sum: Byte) {
    |es| == Entries(|n|) && forall k: nat :: k < |es| ==> Encodes(es[k], n, |es| - k, sum)
  }

  /** The same characters up to upper-casing. */
  ghost predicate Agree(up: WChar -> WChar, n: seq<WChar>, m: seq<WChar>) {
    |n| == |m| && forall i :: 0 <= i < |n| ==> up(n[i]) == up(m[i])
  }

  /** State of a scan over long entries: the order number expected next and the checksum. */
  datatype Run = Run(ord: nat, sum: nat)

  /** No sequence of long entries is open. */
  const BROKEN: Run := Run(0xFF, 0xFF)

  /** The order byte without its flag, `c &= ~LLEF`. */
  function Plain(d: seq<Byte>): nat
    requires |d| == 32
  {
    if IsLast(d) then BitAnd(d[0], 0xFF - LLEF) else d[0]
  }

  /** A long entry starts a new sequence if it is flagged. */
  function Opened(q: Run, d: seq<Byte>): Run
    requires |d| == 32
  {
    if IsLast(d) then Run(Plain(d), d[13]) else q
  }

  /** The entry continues the sequence as far as order number and checksum go. */
  predicate InOrder(q: Run, d: seq<Byte>)
    requires |d| == 32
  {
    Plain(d) == Opened(q, d).ord && Opened(q, d).sum == d[13]
  }

  /** One long entry seen by the scans of dir_find and dir_read. */
  function Advance(q: Run, d: seq<Byte>, ok: bool): Run
    requires |d| == 32
  {
    Opened(q, d).(ord := if InOrder(q, d) && ok then (Opened(q, d).ord + 255) % 256 else 0xFF)
  }

  /** dir_find's scan over a row of long entries with the wanted name in b. */
  function Scan(up: WChar -> WChar, b: seq<WChar>, es: seq<seq<Byte>>, q: Run): Run
    requires |b| == MAX_LFN + 1 && forall d :: d in es ==> |d| == 32
  {
    if es == [] then q
    else Scan(up, b, es[1..], Advance(q, es[0], Accepts(up, b, es[0])))
  }

  /** The step over entry number ord of a name. */
  lemma AdvanceEncoded(q: Run, d: seq<Byte>, n: seq<WChar>, ord: nat, sum: Byte, ok: bool)
    requires Encodes(d, n, ord, sum) && IsName(n) && ord <= Entries(|n|)
    ensures ord == Entries(|n|) || q == Run(ord, sum) ==> Advance(q, d, ok) == Run(if ok then ord - 1 else 0xFF, sum)
    ensures ord < Entries(|n|) && q == Run(0xFF, sum) ==> Advance(q, d, ok) == Run(0xFF, sum)
  {
    hide BitAnd, Encodes;
    EncodedOrder(d, n, ord, sum);
    LastFlagOnce(n, ord);
  }

  lemma EncodedOrder(d: seq<Byte>, n: seq<WChar>, ord: nat, sum: Byte)
    requires Encodes(d, n, ord, sum)
    ensures |d| == 32 && Plain(d) == ord && (IsLast(d) <==> Ends(n, ord)) && d[13] == sum && 1 <= ord <= 20
  {
    hide BitAnd, CharAt;
    OrderByte(ord);
    FlagOff(ord);
  }

  lemma FlagOff(ord: nat)
    requires ord < 64
    ensures BitAnd(ord + LLEF, 0xFF - LLEF) == ord
  {
    hide BitAnd;
    OrderByte(ord);
    assert IsPow2(256) by {
      Pow2Times16(1);
      Pow2Times16(16);
    }
    assert IsPow2(128) by {
      Pow2Double(64);
    }
    ComplementMask(ord + LLEF, LLEF, 256);
    AndFlag(ord);
  }

  lemma AndFlag(ord: nat)
    requires ord < 64
    ensures BitAnd(ord + LLEF, LLEF) == LLEF
  {
    hide BitAnd;
    var x := ord + LLEF;
    AndHalf(x, 32);
    AndHalf(x / 2, 16);
    AndHalf(x / 4, 8);
    AndHalf(x / 8, 4);
    AndHalf(x / 16, 2);
    AndHalf(x / 32, 1);
    MaskIsMod(x / 64, 2);
  }

  /** Every entry from number ord down is accepted. */
  ghost predicate AllAccepted(up: WChar -> WChar, b: seq<WChar>, es: seq<seq<Byte>>)
    requires |b| == MAX_LFN + 1 && forall d :: d in es ==> |d| == 32
  {
    forall k: nat :: k < |es| ==> Accepts(up, b, es[k])
  }

  /** The tail of a name's entries is scanned to order number 0 exactly if all of it is accepted. */
  lemma {:induction false} ScanTail(up: WChar -> WChar, b: seq<WChar>, es: seq<seq<Byte>>, n: seq<WChar>,
                                    sum: Byte, q: Run)
    requires |b| == MAX_LFN + 1 && IsName(n) && |es| <= Entries(|n|) && forall d :: d in es ==> |d| == 32
    requires forall k: nat :: k < |es| ==> Encodes(es[k], n, |es| - k, sum)
    requires |es| == Entries(|n|) || q == Run(|es|, sum) || q == Run(0xFF, sum)
    ensures var r := Scan(up, b, es, q);
      es == [] || (r == Run(if AllAccepted(up, b, es) && (|es| == Entries(|n|) || q.ord == |es|) then 0 else 0xFF, sum))
    decreases |es|
  {
    hide Accepts, Encodes, Advance;
    if es == [] {
    } else {
      var ok := Accepts(up, b, es[0]);
      assert Encodes(es[0], n, |es|, sum);
      assert |es| <= 20 by {
        LastFlagOnce(n, |es|);
      }
      AdvanceEncoded(q, es[0], n, |es|, sum, ok);
      ScanTail(up, b, es[1..], n, sum, Advance(q, es[0], ok));
      AllSplit(up, b, es);
    }
  }

  lemma AllSplit(up: WChar -> WChar, b: seq<WChar>, es: seq<seq<Byte>>)
    requires |b| == MAX_LFN + 1 && es != [] && forall d :: d in es ==> |d| == 32
    ensures AllAccepted(up, b, es) <==> Accepts(up, b, es[0]) && AllAccepted(up, b, es[1..])
  {
    hide Accepts;
    forall k: nat | k < |es| && Accepts(up, b, es[0]) && AllAccepted(up, b, es[1..])
      ensures Accepts(up, b, es[k])
    {
      assert k > 0 ==> es[k] == es[1..][k - 1];
    }
    forall k: nat | k < |es[1..]| && AllAccepted(up, b, es)
      ensures Accepts(up, b, es[1..][k])
    {
      assert es[1..][k] == es[k + 1];
    }
  }

  /** Upper-casing keeps the terminator apart from every character. */
  ghost predicate KeepsZero(up: WChar -> WChar) {
    forall w: WChar :: up(w) == 0 <==> w == 0
  }

  /** Place by place, the buffer agrees with the entries of the name. */
  ghost predicate PlacesAgree(up: WChar -> WChar, b: seq<WChar>, n: seq<WChar>)
    requires |b| == MAX_LFN + 1 && |n| <= MAX_LFN
  {
    (forall p: nat :: p < |n| ==> up(b[p]) == up(n[p])) && b[|n|] == 0
  }

  /** The places of entry ord agree. */
  ghost predicate AgreeIn(up: WChar -> WChar, b: seq<WChar>, n: seq<WChar>, ord: nat)
    requires |b| == MAX_LFN + 1 && |n| <= MAX_LFN && ord >= 1
  {
    forall p: nat :: Base(ord) <= p < 13 * ord && p < |n| ==> up(b[p]) == up(n[p])
  }

  lemma AcceptedPlaces(up: WChar -> WChar, b: seq<WChar>, d: seq<Byte>, n: seq<WChar>, ord: nat, sum: Byte)
    requires |b| == MAX_LFN + 1 && KeepsZero(up) && |d| == 32 && 1 <= |n| <= MAX_LFN
    requires Encodes(d, n, ord, sum) && IsName(n) && 1 <= ord <= Entries(|n|)
    ensures Accepts(up, b, d) && Ends(n, ord) ==> |n| <= 254 && b[|n|] == 0
    ensures Accepts(up, b, d) ==> AgreeIn(up, b, n, ord)
    ensures |n| <= 254 && PlacesAgree(up, b, n) ==> Accepts(up, b, d)
  {
    hide Encodes, CharAt, Used, BufferIndex, IsLast, WellFormed, Terminated;
    EncodedReads(d, n, ord, sum);
    LastFlagOnce(n, ord);
    var u := Used(d);
    if Accepts(up, b, d) {
      forall p: nat | Base(ord) <= p < Min(13 * ord, |n| + 1)
        ensures up(b[p]) == up(Slot(n, p))
      {
        var s: nat := p - Base(ord);
        assert s < u && CharAt(d, s) == Slot(n, Base(ord) + s);
      }
    }
  }

  /** All entries of the name are accepted exactly if the names agree and have at most 254
      characters. */
  lemma AllPlaces(up: WChar -> WChar, b: seq<WChar>, es: seq<seq<Byte>>, n: seq<WChar>, sum: Byte)
    requires |b| == MAX_LFN + 1 && KeepsZero(up) && IsName(n) && Encoded(es, n, sum)
    requires |n| <= MAX_LFN && forall d :: d in es ==> |d| == 32
    ensures AllAccepted(up, b, es) <==> |n| <= 254 && PlacesAgree(up, b, n)
  {
    hide Encodes, Accepts;
    forall k: nat | k < |es|
      ensures |n| <= 254 && PlacesAgree(up, b, n) ==> Accepts(up, b, es[k])
    {
      AcceptedPlaces(up, b, es[k], n, |es| - k, sum);
    }
    if AllAccepted(up, b, es) {
      LastFlagOnce(n, |es|);
      AcceptedPlaces(up, b, es[0], n, |es|, sum);
      forall p: nat | p < |n|
        ensures up(b[p]) == up(n[p])
      {
        var ord := p / 13 + 1;
        AcceptedPlaces(up, b, es[|es| - ord], n, ord, sum);
      }
    }
  }

  lemma PlacesAreNames(up: WChar -> WChar, b: seq<WChar>, n: seq<WChar>, m: seq<WChar>)
    requires |b| == MAX_LFN + 1 && KeepsZero(up) && |n| <= MAX_LFN && IsName(n) && IsName(m) && Holds(b, m)
    ensures PlacesAgree(up, b, n) <==> Agree(up, n, m)
  {
    assert forall p: nat :: p < |m| ==> b[p] == b[..|m|][p];
    if |m| < |n| {
      assert up(b[|m|]) != up(n[|m|]);
    } else if |n| < |m| {
      assert b[|n|] != 0;
    }
  }

  /** dir_find's scan over all entries of a name reaches order number 0 exactly when the
      wanted name agrees with it up to upper-casing, for names of at most 254 characters;
      a name of 255 characters is never found. */
  lemma ScanFindsName(up: WChar -> WChar, b: seq<WChar>, m: seq<WChar>, es: seq<seq<Byte>>, n: seq<WChar>,
                      sum: Byte, q: Run)
    requires |b| == MAX_LFN + 1 && KeepsZero(up) && IsName(n) && IsName(m) && Holds(b, m) && Encoded(es, n, sum)
    requires forall d :: d in es ==> |d| == 32
    ensures Scan(up, b, es, q) == Run(if |n| <= 254 && Agree(up, n, m) then 0 else 0xFF, sum)
  {
    hide Encodes, Accepts, Advance, Holds, Agree, IsName, PlacesAgree, Scan;
    NameLength(n);
    assert es != [] && |es| == Entries(|n|) by {
      SomeEntries(es, n, sum);
    }
    ScanTail(up, b, es, n, sum, q);
    AllPlaces(up, b, es, n, sum);
    PlacesAreNames(up, b, n, m);
  }

  /** The last entry of a name of 255 letters A, and of one of 254. */
  const LAST_OF_255: seq<Byte> :=
    [0x54, 65, 0, 65, 0, 65, 0, 65, 0, 65, 0, 0x0F, 0, 7, 65, 0, 65, 0, 65, 0, 0, 0, 255, 255, 255, 255,
     0, 0, 255, 255, 255, 255]
  const LAST_OF_254: seq<Byte> :=
    [0x54, 65, 0, 65, 0, 65, 0, 65, 0, 65, 0, 0x0F, 0, 7, 65, 0, 65, 0, 0, 0, 255, 255, 255, 255, 255, 255,
     0, 0, 255, 255, 255, 255]

  function LettersA(n: nat): seq<WChar> {
    seq(n, _ => 65)
  }

  /** k letters A, a terminator and filler. */
  function Tail(k: nat, s: nat): nat {
    if s < k then 65 else if s == k then 0 else 0xFFFF
  }

  lemma LastEntries()
    ensures Encodes(LAST_OF_255, LettersA(255), 20, 7) && Encodes(LAST_OF_254, LettersA(254), 20, 7)
  {
    forall s: nat | s < 13
      ensures CharAt(LAST_OF_255, s) == Slot(LettersA(255), Base(20) + s)
      ensures CharAt(LAST_OF_254, s) == Slot(LettersA(254), Base(20) + s)
    {
      LastChars(s);
      LastSlots(s);
    }
    hide CharAt, Slot, LettersA;
    assert |LettersA(255)| == 255 && |LettersA(254)| == 254 by { LastSlots(0); }
  }

  lemma LastChars(s: nat)
    requires s < 13
    ensures CharAt(LAST_OF_255, s) == Tail(8, s) && CharAt(LAST_OF_254, s) == Tail(7, s)
  {
    if s < 5 {
      assert Ofs(s) == 2 * s + 1;
    } else if s < 11 {
      assert Ofs(s) == 2 * s + 4;
    } else {
      assert Ofs(s) == 2 * s + 6;
    }
  }

  lemma LastSlots(s: nat)
    ensures |LettersA(255)| == 255 && |LettersA(254)| == 254
    ensures Slot(LettersA(255), Base(20) + s) == Tail(8, s) && Slot(LettersA(254), Base(20) + s) == Tail(7, s)
  {
  }

  /** A name of 255 characters does not match its own last entry, whatever the buffer holds. */
  lemma LongestNotFound(up: WChar -> WChar, b: seq<WChar>)
    requires |b| == MAX_LFN + 1 && KeepsZero(up)
    ensures IsName(LettersA(255)) && Encodes(LAST_OF_255, LettersA(255), 20, 7) && !Accepts(up, b, LAST_OF_255)
  {
    LastEntries();
    hide Encodes, Accepts;
    AcceptedPlaces(up, b, LAST_OF_255, LettersA(255), 20, 7);
  }

  /** A name of 254 characters cannot be decoded. */
  lemma LongNotPicked()
    ensures IsName(LettersA(254)) && Encodes(LAST_OF_254, LettersA(254), 20, 7) && !Picks(LAST_OF_254)
  {
    LastEntries();
    hide Encodes, Picks;
    PickEncoded(LAST_OF_254, LettersA(254), 20, 7);
  }

  lemma SomeEntries(es: seq<seq<Byte>>, n: seq<WChar>, sum: Byte)
    requires IsName(n) && Encoded(es, n, sum)
    ensures 1 <= |es| == Entries(|n|) <= 20
    ensures forall k: nat :: k < |es| ==> |es[k]| == 32
  {
    LastFlagOnce(n, |es|);
  }

  /** `for (n = 0; lfn[n]; n++)`: the length of the name. */
  method CountChars(lfnbuf: seq<WChar>, ghost n: seq<WChar>) returns (len: nat)
    requires Holds(lfnbuf, n) && IsName(n)
    ensures len == |n|
  {
    hide IsName, Slot;
    len := 0;
    SlotIs(lfnbuf, n, 0);
    while lfnbuf[len] != 0
      invariant len <= |n| && (lfnbuf[len] == 0 <==> len == |n|)
      decreases |n| - len
    {
      len := len + 1;
      SlotIs(lfnbuf, n, len);
    }
  }

  /** dir_register's loop: the long entries of a name, last part first. */
  method EncodeName(lfnbuf: seq<WChar>, sum: Byte, ghost n: seq<WChar>) returns (es: seq<seq<Byte>>)
    requires Holds(lfnbuf, n) && IsName(n)
    ensures Encoded(es, n, sum)
  {
    hide Encodes, Holds;
    var len := CountChars(lfnbuf, n);
    var nent: nat := (len + 25) / 13 - 1;
    es := [];
    while nent > 0
      invariant nent + |es| == Entries(|n|)
      invariant forall k: nat :: k < |es| ==> Encodes(es[k], n, nent + |es| - k, sum)
    {
      var dir := new Byte[32];
      FitLfn(lfnbuf, dir, nent, sum, n);
      es := es + [dir[..]];
      nent := nent - 1;
    }
  }

  /** What pick_lfn does with entry number ord of a name. */
  lemma PickEncoded(d: seq<Byte>, n: seq<WChar>, ord: nat, sum: Byte)
    requires |d| == 32 && Encodes(d, n, ord, sum) && IsName(n) && 1 <= ord <= Entries(|n|)
    ensures Picks(d) <==> !(Ends(n, ord) && |n| > 253)
    ensures BufferIndex(d) == Base(ord) && (IsLast(d) <==> Ends(n, ord))
    ensures Used(d) == Min(13, |n| + 1 - Base(ord))
    ensures forall s: nat :: s < Used(d) ==> CharAt(d, s) == Slot(n, Base(ord) + s)
    ensures !Ends(n, ord) ==> forall p :: 13 * ord <= p ==> !Touched(d, p)
    ensures Ends(n, ord) <==> ord == Entries(|n|)
  {
    hide Encodes, CharAt, BufferIndex, IsLast, Used, Picks;
    EncodedReads(d, n, ord, sum);
    LastFlagOnce(n, ord);
  }

  /** The buffer holds the places of the name from entry ord on. */
  ghost predicate HoldsFrom(b: seq<WChar>, n: seq<WChar>, ord: nat)
    requires |b| == MAX_LFN + 1 && |n| <= MAX_LFN && ord >= 1
  {
    b[|n|] == 0 && forall p: nat :: Base(ord) <= p < |n| ==> b[p] == n[p]
  }

  /** One long entry of a name in dir_read. */
  method PickStep(lfnbuf: array<WChar>, q: Run, d: seq<Byte>, ghost n: seq<WChar>, ghost ord: nat, ghost sum: Byte)
    returns (q': Run)
    requires lfnbuf.Length == MAX_LFN + 1 && IsName(n) && |d| == 32 && |n| <= MAX_LFN && 1 <= ord <= Entries(|n|)
    requires Encodes(d, n, ord, sum)
    requires ord < Entries(|n|) ==> q == Run(if |n| <= 253 then ord else 0xFF, sum)
    requires ord < Entries(|n|) && |n| <= 253 ==> HoldsFrom(lfnbuf[..], n, ord + 1)
    modifies lfnbuf
    ensures q' == Run(if |n| <= 253 then ord - 1 else 0xFF, sum)
    ensures |n| <= 253 ==> HoldsFrom(lfnbuf[..], n, ord)
  {
    hide Encodes, Picks, Advance, Touched, InOrder, IsName, CharAt, Used, BufferIndex, IsLast, Ends, Entries;
    PickEncoded(d, n, ord, sum);
    AdvanceEncoded(q, d, n, ord, sum, true);
    AdvanceEncoded(q, d, n, ord, sum, false);
    var picked := false;
    if InOrder(q, d) {
      picked := PickLfn(lfnbuf, d);
    }
    q' := Advance(q, d, picked);
    if |n| <= 253 {
      TakesPart(q, d, n, ord, sum);
      EndsAt(n, ord);
      LastFlagOnce(n, ord);
      forall p: nat | Base(ord) <= p < 13 * ord && p <= |n|
        ensures lfnbuf[p] == Slot(n, p)
      {
        var s: nat := p - Base(ord);
        assert lfnbuf[BufferIndex(d) + s] == CharAt(d, s);
      }
    }
  }

  lemma EndsAt(n: seq<WChar>, ord: nat)
    requires 1 <= ord <= Entries(|n|)
    ensures Ends(n, ord) <==> |n| <= 13 * ord
  {
  }

  lemma TakesPart(q: Run, d: seq<Byte>, n: seq<WChar>, ord: nat, sum: Byte)
    requires |d| == 32 && Encodes(d, n, ord, sum) && IsName(n) && 1 <= ord <= Entries(|n|)
    requires ord == Entries(|n|) || q == Run(ord, sum)
    ensures InOrder(q, d)
  {
    hide Encodes, IsLast;
    EncodedOrder(d, n, ord, sum);
    LastFlagOnce(n, ord);
  }

  /** dir_read's loop over long entries in directory order. */
  method DecodeName(lfnbuf: array<WChar>, es: seq<seq<Byte>>, ghost n: seq<WChar>, ghost sum: Byte) returns (ok: bool)
    requires lfnbuf.Length == MAX_LFN + 1 && IsName(n) && Encoded(es, n, sum)
    modifies lfnbuf
    ensures ok <==> |n| <= 253
    ensures ok ==> Holds(lfnbuf[..], n)
  {
    hide Encodes, Entries;
    SomeEntries(es, n, sum);
    var q := BROKEN;
    var k: nat := 0;
    while k < |es|
      invariant k <= |es|
      invariant k > 0 ==> q == Run(if |n| <= 253 then |es| - k else 0xFF, sum)
      invariant k > 0 && |n| <= 253 ==> HoldsFrom(lfnbuf[..], n, |es| - k + 1)
    {
      q := PickStep(lfnbuf, q, es[k], n, |es| - k, sum);
      k := k + 1;
    }
    ok := q.ord == 0;
  }
}
