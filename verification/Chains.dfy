/** Cluster chains of a FAT, as a theory of sequences of entries. */
module Chains {

  /** ch lists the clusters of one chain, first to last. */
  ghost predicate IsChain(fat: seq<nat>, ch: seq<nat>) {
    && ch != []
    && (forall i :: 0 <= i < |ch| ==> 2 <= ch[i] < |fat|)
    && (forall i, j :: 0 <= i < j < |ch| ==> ch[i] != ch[j])
    && (forall i :: 0 <= i < |ch| - 1 ==> fat[ch[i]] == ch[i + 1])
    && fat[ch[|ch| - 1]] >= |fat|
  }

  /** The FAT is exactly the acyclic, pairwise disjoint chains in cs; all other entries are free. */
  ghost predicate Forest(fat: seq<nat>, cs: set<seq<nat>>) {
    AllChains(fat, cs) && Disjoint(cs) && Covered(fat, cs)
  }

  ghost predicate AllChains(fat: seq<nat>, cs: set<seq<nat>>) {
    forall ch :: ch in cs ==> IsChain(fat, ch)
  }

  ghost predicate Disjoint(cs: set<seq<nat>>) {
    forall a, b, c :: a in cs && b in cs && c in a && c in b ==> a == b
  }

  ghost predicate Covered(fat: seq<nat>, cs: set<seq<nat>>) {
    forall c: nat :: 2 <= c < |fat| && fat[c] != 0 ==> Owned(cs, c)
  }

  /** Some chain of cs contains cluster c. */
  ghost predicate Owned(cs: set<seq<nat>>, c: nat) {
    exists ch :: ch in cs && c in ch
  }

  /** Number of free clusters from c on. */
  function CountFree(fat: seq<nat>, c: nat): (r: nat)
    ensures c <= |fat| ==> r <= |fat| - c
    decreases |fat| - c
  {
    if c >= |fat| then 0
    else (if fat[c] == 0 then 1 else 0) + CountFree(fat, c + 1)
  }

  /** The clusters in use. */
  ghost function InUse(fat: seq<nat>): set<nat> {
    set c: nat | c < |fat| && fat[c] != 0
  }

  /** fat with the clusters of ch freed. */
  function Freed(fat: seq<nat>, ch: seq<nat>): (r: seq<nat>)
    ensures |r| == |fat|
    ensures forall c :: 0 <= c < |fat| ==> r[c] == if c in ch then 0 else fat[c]
  {
    seq(|fat|, c requires 0 <= c < |fat| => if c in ch then 0 else fat[c])
  }

  /** fat after a chain is stretched from clst (0: a new chain) by the free cluster ncl. */
  function Stretched(fat: seq<nat>, clst: nat, ncl: nat, end: nat): (r: seq<nat>)
    requires clst < |fat| && ncl < |fat|
    ensures |r| == |fat|
  {
    if clst == 0 then fat[ncl := end] else fat[ncl := end][clst := ncl]
  }

  // ----- counting -----

  lemma {:induction false} CountFreeUpdate(fat: seq<nat>, i: nat, x: nat, c: nat)
    requires c <= i < |fat|
    ensures CountFree(fat[i := x], c) + (if fat[i] == 0 then 1 else 0)
         == CountFree(fat, c) + (if x == 0 then 1 else 0)
    decreases i - c
  {
    if c == i {
      CountFreeSame(fat, fat[i := x], c + 1);
    } else {
      CountFreeUpdate(fat, i, x, c + 1);
    }
  }

  lemma {:induction false} CountFreeSame(fat: seq<nat>, fat': seq<nat>, c: nat)
    requires |fat'| == |fat| && forall i :: c <= i < |fat| ==> (fat'[i] == 0 <==> fat[i] == 0)
    ensures CountFree(fat', c) == CountFree(fat, c)
    decreases |fat| - c
  {
    if c >= |fat| {
    } else {
      CountFreeSame(fat, fat', c + 1);
    }
  }

  /** The count is 0 exactly when nothing is free. */
  lemma {:induction false} CountFreeZero(fat: seq<nat>, c: nat)
    ensures CountFree(fat, c) == 0 <==> forall i :: c <= i < |fat| ==> fat[i] != 0
    decreases |fat| - c
  {
    if c >= |fat| {
    } else {
      CountFreeZero(fat, c + 1);
    }
  }

  // ----- stretching -----

  /** Appending a free cluster to a chain. */
  lemma StretchChain(fat: seq<nat>, ch: seq<nat>, ncl: nat, end: nat)
    requires IsChain(fat, ch) && 2 <= ncl < |fat| && fat[ncl] == 0 && end >= |fat|
    ensures ncl !in ch
    ensures IsChain(Stretched(fat, ch[|ch| - 1], ncl, end), ch + [ncl])
  {
    forall i | 0 <= i < |ch| ensures fat[ch[i]] != 0 {
      if i < |ch| - 1 { assert fat[ch[i]] == ch[i + 1]; }
    }
  }

  /** Clusters of a chain are in use. */
  lemma ChainInUse(fat: seq<nat>, ch: seq<nat>, c: nat)
    requires IsChain(fat, ch) && c in ch
    ensures 2 <= c < |fat| && fat[c] >= 2
  {
    var i :| 0 <= i < |ch| && ch[i] == c;
    if i < |ch| - 1 { assert fat[ch[i]] == ch[i + 1]; }
  }

  /** A chain only depends on its own entries. */
  lemma ChainFrame(fat: seq<nat>, fat': seq<nat>, ch: seq<nat>)
    requires IsChain(fat, ch) && |fat'| == |fat|
    requires forall c :: c in ch && c < |fat| ==> fat'[c] == fat[c]
    ensures IsChain(fat', ch)
  {
    forall i | 0 <= i < |ch| ensures fat'[ch[i]] == fat[ch[i]] {
      assert ch[i] in ch;
    }
  }

  /** Two chains that share their first cluster are the same chain. */
  lemma {:induction false} ChainUnique(fat: seq<nat>, a: seq<nat>, b: seq<nat>)
    requires IsChain(fat, a) && IsChain(fat, b) && a[0] == b[0]
    ensures a == b
    decreases |a|
  {
    if |a| > 1 { assert fat[a[0]] == a[1]; }
    if |b| > 1 { assert fat[b[0]] == b[1]; }
    if |a| > 1 {
      ChainTail(fat, a, 1);
      ChainTail(fat, b, 1);
      ChainUnique(fat, a[1..], b[1..]);
      assert a == [a[0]] + a[1..] && b == [b[0]] + b[1..];
    }
  }

  lemma ChainTail(fat: seq<nat>, ch: seq<nat>, k: nat)
    requires IsChain(fat, ch) && k < |ch|
    ensures IsChain(fat, ch[k..])
  {
    var t := ch[k..];
    forall i | 0 <= i < |t| - 1 ensures fat[t[i]] == t[i + 1] {
      assert t[i] == ch[k + i];
    }
  }

  /** A stretched chain: the forest exchanges ch for ch + [ncl], or gains the chain [ncl]. */
  lemma StretchForest(fat: seq<nat>, cs: set<seq<nat>>, ch: seq<nat>, ncl: nat, end: nat)
    requires Forest(fat, cs) && ch in cs && 2 <= ncl < |fat| && fat[ncl] == 0 && end >= |fat|
    ensures Forest(Stretched(fat, ch[|ch| - 1], ncl, end), cs - {ch} + {ch + [ncl]})
  {
    hide IsChain;
    ForestChain(fat, cs, ch);
    StretchChain(fat, ch, ncl, end);
    var last := ch[|ch| - 1];
    var fat' := Stretched(fat, last, ncl, end);
    var cs' := cs - {ch} + {ch + [ncl]};
    forall a | a in cs' ensures IsChain(fat', a) && (a != ch + [ncl] ==> a in cs && ncl !in a && last !in a) {
      if a != ch + [ncl] {
        NotInFree(fat, cs, a, ncl);
        assert last in ch;
        ForestFrame(fat, fat', cs, a, ncl, last);
      }
    }
    forall c | 2 <= c < |fat| && fat'[c] != 0 ensures Owned(cs', c) {
      if c == ncl {
        assert c in ch + [ncl];
      } else {
        assert c == last || fat[c] != 0;
        assert last in ch;
        assert Owned(cs, c);
        var a :| a in cs && c in a;
        if a == ch { assert c in ch + [ncl]; } else { assert a in cs'; }
      }
    }
  }

  lemma ForestChain(fat: seq<nat>, cs: set<seq<nat>>, ch: seq<nat>)
    requires Forest(fat, cs) && ch in cs
    ensures IsChain(fat, ch) && ch != [] && ch[|ch| - 1] in ch && 2 <= ch[|ch| - 1] < |fat|
  {
  }

  lemma NotInFree(fat: seq<nat>, cs: set<seq<nat>>, a: seq<nat>, ncl: nat)
    requires Forest(fat, cs) && a in cs && ncl < |fat| && fat[ncl] == 0
    ensures ncl !in a
  {
    if ncl in a { ChainInUse(fat, a, ncl); }
  }

  lemma ForestFrame(fat: seq<nat>, fat': seq<nat>, cs: set<seq<nat>>, a: seq<nat>, x: nat, y: nat)
    requires Forest(fat, cs) && a in cs && x !in a && y !in a && |fat'| == |fat|
    requires forall c :: 0 <= c < |fat| && c != x && c != y ==> fat'[c] == fat[c]
    ensures IsChain(fat', a)
  {
    ChainFrame(fat, fat', a);
  }

  lemma NewChainForest(fat: seq<nat>, cs: set<seq<nat>>, ncl: nat, end: nat)
    requires Forest(fat, cs) && 2 <= ncl < |fat| && fat[ncl] == 0 && end >= |fat|
    ensures [ncl] !in cs
    ensures Forest(Stretched(fat, 0, ncl, end), cs + {[ncl]})
  {
    hide IsChain;
    var fat' := Stretched(fat, 0, ncl, end);
    var cs' := cs + {[ncl]};
    if [ncl] in cs { NotInFree(fat, cs, [ncl], ncl); }
    forall a | a in cs' ensures IsChain(fat', a) && (a != [ncl] ==> ncl !in a) {
      if a != [ncl] {
        NotInFree(fat, cs, a, ncl);
        ForestFrame(fat, fat', cs, a, ncl, ncl);
      } else {
        SingleChain(fat', ncl);
      }
    }
    forall c | 2 <= c < |fat| && fat'[c] != 0 ensures Owned(cs', c) {
      if c == ncl {
        assert c in [ncl];
      } else {
        assert Owned(cs, c);
        var a :| a in cs && c in a;
        assert a in cs';
      }
    }
  }

  lemma SingleChain(fat: seq<nat>, c: nat)
    requires 2 <= c < |fat| && fat[c] >= |fat|
    ensures IsChain(fat, [c])
  {
  }

  // ----- cutting and removing -----

  /** Making cluster ch[k - 1] the last of its chain splits the chain in two. */
  lemma CutForest(fat: seq<nat>, cs: set<seq<nat>>, ch: seq<nat>, k: nat, end: nat)
    requires Forest(fat, cs) && ch in cs && 0 < k < |ch| && end >= |fat|
    ensures 2 <= ch[k - 1] < |fat| && ch[k] == fat[ch[k - 1]]
    ensures Forest(fat[ch[k - 1] := end], cs - {ch} + {ch[..k], ch[k..]})
  {
    hide IsChain, Disjoint, Covered;
    ForestChain(fat, cs, ch);
    CutChain(fat, ch, k, end);
    var x := ch[k - 1];
    var fat' := fat[x := end];
    var cs' := cs - {ch} + {ch[..k], ch[k..]};
    assert x in ch;
    forall a | a in cs' ensures IsChain(fat', a) {
      if a in cs - {ch} {
        NotShared(cs, a, ch, x);
        ForestFrame(fat, fat', cs, a, x, x);
      }
    }
    CutDisjoint(fat, cs, ch, k);
    CutCovered(fat, fat', cs, ch, k);
  }

  lemma NotShared(cs: set<seq<nat>>, a: seq<nat>, b: seq<nat>, c: nat)
    requires Disjoint(cs) && a in cs && b in cs && a != b && c in b
    ensures c !in a
  {
  }

  lemma CutMembers(ch: seq<nat>, k: nat)
    requires k <= |ch|
    ensures forall c :: c in ch <==> c in ch[..k] || c in ch[k..]
  {
    assert ch == ch[..k] + ch[k..];
  }

  lemma CutCovered(fat: seq<nat>, fat': seq<nat>, cs: set<seq<nat>>, ch: seq<nat>, k: nat)
    requires Forest(fat, cs) && ch in cs && k <= |ch| && |fat'| == |fat|
    requires forall c :: 0 <= c < |fat| && fat'[c] != 0 ==> fat[c] != 0 || c in ch
    ensures Covered(fat', cs - {ch} + {ch[..k], ch[k..]})
  {
    hide IsChain, Disjoint;
    CutMembers(ch, k);
    forall c: nat | 2 <= c < |fat| && fat'[c] != 0 ensures Owned(cs - {ch} + {ch[..k], ch[k..]}, c) {
      assert Owned(cs, c);
      var a :| a in cs && c in a;
      if a == ch {
        assert c in ch[..k] || c in ch[k..];
      } else {
        assert a in cs - {ch} + {ch[..k], ch[k..]};
      }
    }
  }

  lemma CutDisjoint(fat: seq<nat>, cs: set<seq<nat>>, ch: seq<nat>, k: nat)
    requires Forest(fat, cs) && ch in cs && k <= |ch|
    requires forall c :: c in ch[..k] ==> c !in ch[k..]
    ensures Disjoint(cs - {ch} + {ch[..k], ch[k..]})
  {
    hide IsChain, Covered;
    CutMembers(ch, k);
    var cs' := cs - {ch} + {ch[..k], ch[k..]};
    forall a, b, c | a in cs' && b in cs' && c in a && c in b ensures a == b {
      if c in ch {
        assert forall d :: d in cs && d != ch ==> c !in d;
      }
    }
  }

  lemma CutChain(fat: seq<nat>, ch: seq<nat>, k: nat, end: nat)
    requires IsChain(fat, ch) && 0 < k < |ch| && end >= |fat|
    ensures IsChain(fat[ch[k - 1] := end], ch[..k]) && IsChain(fat[ch[k - 1] := end], ch[k..])
    ensures forall c :: c in ch[..k] ==> c !in ch[k..]
    ensures 2 <= ch[k - 1] < |fat| && ch[k] == fat[ch[k - 1]]
  {
    var fat' := fat[ch[k - 1] := end];
    var a, b := ch[..k], ch[k..];
    forall i | 0 <= i < |a| - 1 ensures fat'[a[i]] == a[i + 1] { assert fat[ch[i]] == ch[i + 1]; }
    forall i | 0 <= i < |b| - 1
      ensures fat'[b[i]] == b[i + 1]
    {
      assert b[i] == ch[k + i];
      assert fat[ch[k + i]] == ch[k + i + 1];
    }
    assert b[|b| - 1] == ch[|ch| - 1];
  }

  /** Freeing a whole chain. */
  lemma FreeForest(fat: seq<nat>, cs: set<seq<nat>>, ch: seq<nat>)
    requires Forest(fat, cs) && ch in cs
    ensures Forest(Freed(fat, ch), cs - {ch})
  {
    hide IsChain;
    var fat' := Freed(fat, ch);
    forall a | a in cs - {ch} ensures IsChain(fat', a) {
      assert forall c :: c in a ==> c !in ch;
      ChainFrame(fat, fat', a);
    }
    forall c | 2 <= c < |fat| && fat'[c] != 0 ensures Owned(cs - {ch}, c) {
      assert Owned(cs, c);
      var a :| a in cs && c in a;
      assert a in cs - {ch};
    }
  }

  /** In a forest, in-use entries link to clusters or end a chain: value 1 does not occur. */
  lemma ForestEntries(fat: seq<nat>, cs: set<seq<nat>>, c: nat)
    requires Forest(fat, cs) && 2 <= c < |fat|
    ensures fat[c] != 1
    ensures 2 <= fat[c] < |fat| ==> fat[fat[c]] != 0
  {
    if fat[c] != 0 {
      assert Owned(cs, c);
      var a :| a in cs && c in a;
      ChainInUse(fat, a, c);
      var i :| 0 <= i < |a| && a[i] == c;
      if i < |a| - 1 { ChainInUse(fat, a, a[i + 1]); }
    }
  }

  // ----- what remove_chain does to an arbitrary FAT -----

  /** Follow the links from c, zeroing each entry, until the end of a chain or an entry that cannot be followed. */
  ghost function Unlinked(fat: seq<nat>, c: nat): (r: seq<nat>)
    ensures |r| == |fat|
    decreases InUse(fat)
  {
    if c < 2 || c >= |fat| || fat[c] <= 1 then fat
    else
      assert InUse(fat[c := 0]) == InUse(fat) - {c};
      Unlinked(fat[c := 0], fat[c])
  }

  /** Whether that walk ran into an entry of value 1. */
  ghost predicate HitsBadLink(fat: seq<nat>, c: nat)
    decreases InUse(fat)
  {
    if c < 2 || c >= |fat| || fat[c] == 0 then false
    else if fat[c] == 1 then true
    else
      assert InUse(fat[c := 0]) == InUse(fat) - {c};
      HitsBadLink(fat[c := 0], fat[c])
  }

  /** On any FAT at all, cyclic or cross-linked ones included, entries are only ever freed. */
  lemma {:induction false} UnlinkedOnlyFrees(fat: seq<nat>, c: nat)
    ensures forall i :: 0 <= i < |fat| ==> Unlinked(fat, c)[i] == fat[i] || Unlinked(fat, c)[i] == 0
    ensures 2 <= c < |fat| && fat[c] > 1 ==> Unlinked(fat, c)[c] == 0
    decreases InUse(fat)
  {
    if c < 2 || c >= |fat| || fat[c] <= 1 {
    } else {
      assert InUse(fat[c := 0]) == InUse(fat) - {c};
      UnlinkedOnlyFrees(fat[c := 0], fat[c]);
    }
  }

  lemma UnlinkedStep(fat: seq<nat>, c: nat)
    requires 2 <= c < |fat| && fat[c] > 1
    ensures Unlinked(fat, c) == Unlinked(fat[c := 0], fat[c])
    ensures HitsBadLink(fat, c) == HitsBadLink(fat[c := 0], fat[c])
    ensures InUse(fat[c := 0]) < InUse(fat)
  {
    assert InUse(fat[c := 0]) == InUse(fat) - {c};
  }

  lemma UnlinkedEnd(fat: seq<nat>, c: nat)
    requires c >= |fat|
    ensures Unlinked(fat, c) == fat && !HitsBadLink(fat, c)
  {
  }

  /** On a chain, exactly its members are freed. */
  lemma {:induction false} UnlinkedChain(fat: seq<nat>, ch: seq<nat>)
    requires IsChain(fat, ch)
    ensures Unlinked(fat, ch[0]) == Freed(fat, ch)
    ensures !HitsBadLink(fat, ch[0])
    decreases |ch|
  {
    var c := ch[0];
    ChainInUse(fat, ch, c);
    var fat1 := fat[c := 0];
    UnlinkedStep(fat, c);
    hide InUse, Unlinked, HitsBadLink;
    if |ch| == 1 {
      assert Freed(fat, ch) == fat1;
      UnlinkedEnd(fat1, fat[c]);
    } else {
      ChainTail(fat, ch, 1);
      var t := ch[1..];
      assert c !in t;
      ChainFrame(fat, fat1, t);
      UnlinkedChain(fat1, t);
      assert ch == [c] + t && fat[c] == t[0];
      assert Freed(fat1, t) == Freed(fat, ch);
    }
  }
}
