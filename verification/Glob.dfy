/** Wildcard matching of f_findfirst: pattern_matching against the `?` and `*` relation. */
module Glob {
  import opened Arith

  const QMARK: Byte := 0x3F
  const STAR: Byte := 0x2A

  /** A C string without its terminator. */
  type CString = s: seq<Byte> | 0 !in s

  // ----- characters (code page 936) -----

  predicate IsLower(c: nat) {
    0x61 <= c <= 0x7A
  }

  predicate IsDBCS1(c: nat) {
    0x81 <= c <= 0xFE
  }

  predicate IsDBCS2(c: nat) {
    0x40 <= c <= 0x7E || 0x80 <= c <= 0xFE
  }

  /** Number of bytes get_achar consumes of a non-empty string. */
  function CharLen(s: CString): (n: nat)
    requires s != []
    ensures 1 <= n <= |s|
  {
    if |s| > 1 && IsDBCS1(UpperByte(s[0])) && IsDBCS2(s[1]) then 2 else 1
  }

  function UpperByte(b: Byte): nat {
    if IsLower(b) then b - 0x20 else b
  }

  /** The character get_achar returns: upper case, one or two bytes; 0 at the terminator. */
  function Achar(s: CString): (c: nat)
    ensures c == 0 <==> s == []
  {
    if s == [] then 0
    else if CharLen(s) == 2 then UpperByte(s[0]) * 256 + s[1]
    else UpperByte(s[0])
  }

  /** The string behind its first character. */
  function Rest(s: CString): (r: CString)
    ensures s != [] ==> |r| < |s|
    ensures s == [] ==> r == []
  {
    if s == [] then [] else s[CharLen(s)..]
  }

  // ----- the relation -----

  datatype Token = Any | Many | Lit(c: nat)

  /** The characters of a name, case folded. */
  function Fold(s: CString): (n: seq<nat>)
    ensures n == [] <==> s == []
    decreases |s|
  {
    if s == [] then [] else [Achar(s)] + Fold(Rest(s))
  }

  /** The tokens of a pattern. */
  function Tokens(p: CString): (t: seq<Token>)
    ensures t == [] <==> p == []
    decreases |p|
  {
    if p == [] then []
    else if p[0] == QMARK then [Any] + Tokens(p[1..])
    else if p[0] == STAR then [Many] + Tokens(p[1..])
    else [Lit(Achar(p))] + Tokens(Rest(p))
  }

  /** The first character of a string is a pair of bytes, or one byte, which becomes a capital if it is a letter. */
  lemma FirstIs(s: CString)
    requires s != []
    ensures if |s| >= 2 && 0x81 <= s[0] <= 0xFE && 0x40 <= s[1] <= 0xFE && s[1] != 0x7F
            then Achar(s) == LdWord(s[1], s[0]) && Rest(s) == s[2..]
            else Achar(s) == Capital(s[0]) && Rest(s) == s[1..]
  {
    if 97 <= s[0] <= 122 {
      assert CharLen(s) == 1;
    }
  }

  function Capital(b: Byte): nat {
    if 97 <= b <= 122 then b - 32 else b
  }

  /** So a name starts with that character, */
  lemma FoldIs(s: CString)
    requires s != []
    ensures if |s| >= 2 && 0x81 <= s[0] <= 0xFE && 0x40 <= s[1] <= 0xFE && s[1] != 0x7F
            then Fold(s) == [LdWord(s[1], s[0])] + Fold(s[2..])
            else Fold(s) == [Capital(s[0])] + Fold(s[1..])
  {
    FirstIs(s);
    hide Achar, Rest, LdWord;
  }

  /** and so does a pattern, unless a wildcard comes first. */
  lemma TokensIs(p: CString)
    requires p != []
    ensures p[0] == 63 ==> Tokens(p) == [Any] + Tokens(p[1..])
    ensures p[0] == 42 ==> Tokens(p) == [Many] + Tokens(p[1..])
    ensures p[0] != 63 && p[0] != 42 ==>
              if |p| >= 2 && 0x81 <= p[0] <= 0xFE && 0x40 <= p[1] <= 0xFE && p[1] != 0x7F
              then Tokens(p) == [Lit(LdWord(p[1], p[0]))] + Tokens(p[2..])
              else Tokens(p) == [Lit(Capital(p[0]))] + Tokens(p[1..])
  {
    FirstIs(p);
    hide Achar, Rest, LdWord;
  }

  /** Names without two-byte characters are folded letter by letter. */
  lemma {:induction false} AsciiFold(s: CString)
    requires forall i :: 0 <= i < |s| ==> s[i] < 0x81
    ensures |Fold(s)| == |s|
    ensures forall i :: 0 <= i < |s| ==> Fold(s)[i] == Capital(s[i])
    decreases |s|
  {
    if s != [] {
      FoldIs(s);
      AsciiFold(s[1..]);
      hide Fold;
    }
  }

  /** `?` stands for one character, `*` for any number of them, anything else for itself. */
  ghost predicate Matches(t: seq<Token>, n: seq<nat>)
    decreases |t|
  {
    if t == [] then n == []
    else match t[0]
      case Any => n != [] && Matches(t[1..], n[1..])
      case Lit(c) => n != [] && n[0] == c && Matches(t[1..], n[1..])
      case Many => exists k: nat :: k <= |n| && Matches(t[1..], n[k..])
  }

  /** t matches the rest of n behind `skip` characters, or (inf) behind at least that many. */
  ghost predicate MatchesFrom(t: seq<Token>, n: seq<nat>, skip: nat, inf: bool) {
    exists k: nat :: MatchesAt(t, n, k) && From(k, skip, inf)
  }

  predicate From(k: nat, skip: nat, inf: bool) {
    if inf then skip <= k else k == skip
  }

  ghost predicate MatchesAt(t: seq<Token>, n: seq<nat>, k: nat) {
    k <= |n| && Matches(t, n[k..])
  }

  /** Least number of characters a match needs. */
  function Needs(t: seq<Token>): nat {
    if t == [] then 0 else (if t[0] == Many then 0 else 1) + Needs(t[1..])
  }

  lemma {:induction false} NeedsThatMany(t: seq<Token>, n: seq<nat>)
    requires Matches(t, n)
    ensures |n| >= Needs(t)
    decreases |t|
  {
    if t == [] {
    } else {
      match t[0]
      case Any => NeedsThatMany(t[1..], n[1..]);
      case Lit(c) => NeedsThatMany(t[1..], n[1..]);
      case Many =>
        var k: nat :| k <= |n| && Matches(t[1..], n[k..]);
        NeedsThatMany(t[1..], n[k..]);
    }
  }

  // ----- a block of wildcards -----

  /** One more `?` in front of the block. */
  lemma AnyFirst(t: seq<Token>, n: seq<nat>, skip: nat, inf: bool)
    ensures MatchesFrom(t, n, skip + 1, inf) <==> n != [] && MatchesFrom(t, n[1..], skip, inf)
  {
    hide Matches;
    if MatchesFrom(t, n, skip + 1, inf) {
      var k: nat :| MatchesAt(t, n, k) && From(k, skip + 1, inf);
      assert n[k..] == n[1..][k - 1..];
      assert MatchesAt(t, n[1..], k - 1) && From(k - 1, skip, inf);
    }
    if n != [] && MatchesFrom(t, n[1..], skip, inf) {
      var k: nat :| MatchesAt(t, n[1..], k) && From(k, skip, inf);
      assert n[k + 1..] == n[1..][k..];
      assert MatchesAt(t, n, k + 1) && From(k + 1, skip + 1, inf);
    }
  }

  /** One more `*` in front of the block. */
  lemma ManyFirst(t: seq<Token>, n: seq<nat>, skip: nat, inf: bool)
    ensures MatchesFrom(t, n, skip, true) <==> exists j: nat :: j <= |n| && MatchesFrom(t, n[j..], skip, inf)
  {
    hide Matches;
    if MatchesFrom(t, n, skip, true) {
      var k: nat :| MatchesAt(t, n, k) && skip <= k;
      var j := k - skip;
      assert n[j..][skip..] == n[k..];
      assert MatchesAt(t, n[j..], skip);
      assert MatchesFrom(t, n[j..], skip, inf);
    }
    if j: nat :| j <= |n| && MatchesFrom(t, n[j..], skip, inf) {
      var k: nat :| MatchesAt(t, n[j..], k) && From(k, skip, inf);
      assert n[j..][k..] == n[j + k..];
      assert MatchesAt(t, n, j + k);
    }
  }

  predicate IsWild(p: CString) {
    p != [] && (p[0] == QMARK || p[0] == STAR)
  }

  /** The block of wildcards a pattern starts with. */
  function BlockLen(p: CString): (n: nat)
    ensures n <= |p|
    decreases |p|
  {
    if IsWild(p) then 1 + BlockLen(p[1..]) else 0
  }

  function Questions(p: CString): nat
    decreases |p|
  {
    if IsWild(p) then (if p[0] == QMARK then 1 else 0) + Questions(p[1..]) else 0
  }

  predicate HasStar(p: CString)
    decreases |p|
  {
    IsWild(p) && (p[0] == STAR || HasStar(p[1..]))
  }

  /** What a block of wildcards means for the characters it covers. */
  lemma {:induction false} BlockMeaning(p: CString, n: seq<nat>)
    ensures Matches(Tokens(p), n) <==> MatchesFrom(Tokens(p[BlockLen(p)..]), n, Questions(p), HasStar(p))
    decreases |p|
  {
    var q: CString := p[BlockLen(p)..];
    if !IsWild(p) {
      SkipNone(Tokens(p), n);
    } else {
      var p1: CString := p[1..];
      assert p[BlockLen(p)..] == p1[BlockLen(p1)..];
      var m, inf := Questions(p1), HasStar(p1);
      if p[0] == QMARK {
        if n != [] { BlockMeaning(p1, n[1..]); }
        AnyFirst(Tokens(q), n, m, inf);
        assert Tokens(p)[1..] == Tokens(p1);
      } else {
        forall j: nat | j <= |n|
          ensures Matches(Tokens(p1), n[j..]) <==> MatchesFrom(Tokens(q), n[j..], m, inf)
        {
          BlockMeaning(p1, n[j..]);
        }
        assert Tokens(p)[1..] == Tokens(p1);
        ManyMatches(Tokens(p), n);
        ManyFirst(Tokens(q), n, m, inf);
      }
    }
  }

  lemma ManyMatches(t: seq<Token>, n: seq<nat>)
    requires t != [] && t[0] == Many
    ensures Matches(t, n) <==> exists k: nat :: k <= |n| && Matches(t[1..], n[k..])
  {
  }

  lemma SkipNone(t: seq<Token>, n: seq<nat>)
    ensures MatchesFrom(t, n, 0, false) <==> Matches(t, n)
  {
    assert n[0..] == n;
    assert MatchesAt(t, n, 0) <==> Matches(t, n);
  }

  // ----- pattern_matching -----

  /** The wildcard block at the start of pp: its `?`s, whether it has a `*`, and what follows. */
  method TakeBlock(pp0: CString) returns (pp: CString, nm: nat, nx: bool)
    requires IsWild(pp0)
    ensures pp == pp0[BlockLen(pp0)..] && nm == Questions(pp0) && nx == HasStar(pp0)
    ensures |pp| < |pp0|
  {
    pp, nm, nx := pp0, 0, false;
    while IsWild(pp)
      invariant nm + Questions(pp) == Questions(pp0)
      invariant (nx || HasStar(pp)) == HasStar(pp0)
      invariant |pp| <= |pp0| && BlockLen(pp0) == |pp0| - |pp| + BlockLen(pp)
      invariant pp == pp0[|pp0| - |pp|..]
      decreases |pp|
    {
      if pp[0] == QMARK {
        nm := nm + 1;
      } else {
        nx := true;
      }
      pp := pp[1..];
    }
  }

  /** Matching pat at the start of nam; nc is the last name character looked at, 0 at its end. */
  method TryHere(pat: CString, nam: CString) returns (hit: bool, nc: nat)
    ensures hit <==> Matches(Tokens(pat), Fold(nam))
    ensures !hit && nc == 0 ==> Needs(Tokens(pat)) >= |Fold(nam)|
    ensures !hit && nc != 0 ==> nam != []
    decreases |pat|, 0
  {
    ghost var t, n := Tokens(pat), Fold(nam);
    ghost var used := 0;
    var pp, np := pat, nam;
    while true
      invariant Matches(t, n) <==> Matches(Tokens(pp), Fold(np))
      invariant Needs(t) == used + Needs(Tokens(pp)) && |n| == used + |Fold(np)|
      invariant |pp| <= |pat|
      decreases |pp|
    {
      if IsWild(pp) {
        BlockMeaning(pp, Fold(np));
        var rest, nm, nx := TakeBlock(pp);
        hit := PatternMatching(rest, np, nm, nx);
        nc := if np == [] then 0 else np[0];
        return;
      }
      var pc := Achar(pp);
      nc := Achar(np);
      LiteralStep(pp, np);
      if pc != nc {
        hit := false;
        return;
      }
      if pc == 0 {
        hit := true;
        return;
      }
      pp, np := Rest(pp), Rest(np);
      used := used + 1;
    }
  }

  /** One character of pattern and name, no wildcard. */
  lemma LiteralStep(pp: CString, np: CString)
    requires !IsWild(pp)
    ensures Achar(pp) != Achar(np) ==> !Matches(Tokens(pp), Fold(np))
    ensures Achar(pp) == Achar(np) == 0 ==> Matches(Tokens(pp), Fold(np))
    ensures Achar(pp) == Achar(np) != 0 ==>
              && (Matches(Tokens(pp), Fold(np)) <==> Matches(Tokens(Rest(pp)), Fold(Rest(np))))
              && Needs(Tokens(pp)) == 1 + Needs(Tokens(Rest(pp))) && |Fold(np)| == 1 + |Fold(Rest(np))|
    ensures Achar(pp) != Achar(np) && np == [] ==> Needs(Tokens(pp)) >= 1
  {
    hide CharLen;
    if pp != [] {
      assert Tokens(pp)[0] == Lit(Achar(pp)) && Tokens(pp)[1..] == Tokens(Rest(pp));
    }
    if np != [] {
      assert Fold(np)[0] == Achar(np) && Fold(np)[1..] == Fold(Rest(np));
    }
  }

  /**
   * pattern_matching: does pat match nam behind `skip` characters, or (inf) behind at least that
   * many? The search stops as soon as the name runs out, which loses no match.
   */
  method PatternMatching(pat: CString, nam0: CString, skip0: nat, inf: bool) returns (r: bool)
    ensures r <==> MatchesFrom(Tokens(pat), Fold(nam0), skip0, inf)
    decreases |pat|, 1
  {
    hide Matches, Achar, Rest, Tokens;
    var nam, skip: nat := nam0, skip0;
    ghost var t, n, k := Tokens(pat), Fold(nam0), 0;
    while skip > 0
      invariant k + skip == skip0 && k <= |n| && Fold(nam) == n[k..]
    {
      skip := skip - 1;
      FoldStep(nam);
      if Achar(nam) == 0 {
        return false;
      }
      nam, k := Rest(nam), k + 1;
    }
    if pat == [] && inf {
      EmptyAtEnd(t, n, k);
      return true;
    }
    while true
      invariant skip0 <= k <= |n| && Fold(nam) == n[k..]
      invariant !inf ==> k == skip0
      invariant forall j: nat :: skip0 <= j < k ==> !MatchesAt(t, n, j)
      decreases |n| - k
    {
      var hit, nc := TryHere(pat, nam);
      if hit {
        assert MatchesAt(t, n, k);
        return true;
      }
      assert !MatchesAt(t, n, k);
      if !inf || nc == 0 {
        if nc == 0 { TooShort(t, n, k); }
        return false;
      }
      FoldStep(nam);
      nam, k := Rest(nam), k + 1;
    }
  }

  lemma FoldStep(s: CString)
    ensures Achar(s) == 0 <==> Fold(s) == []
    ensures s != [] ==> Fold(s) != [] && Fold(Rest(s)) == Fold(s)[1..]
  {
  }

  lemma EmptyAtEnd(t: seq<Token>, n: seq<nat>, skip: nat)
    requires t == Tokens([]) && skip <= |n|
    ensures MatchesFrom(t, n, skip, true)
  {
    assert n[|n|..] == [];
    assert MatchesAt(t, n, |n|);
  }

  /** Where the name is no longer than the pattern needs, no later start can match. */
  lemma TooShort(t: seq<Token>, n: seq<nat>, k: nat)
    requires k <= |n| && Needs(t) >= |n| - k
    ensures forall j: nat :: k < j ==> !MatchesAt(t, n, j)
  {
    hide Matches, Needs;
    forall j: nat | k < j ensures !MatchesAt(t, n, j) {
      if MatchesAt(t, n, j) {
        NeedsThatMany(t, n[j..]);
        assert false;
      }
    }
  }
}
