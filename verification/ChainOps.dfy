/** create_chain and remove_chain on a well-formed FAT: they turn forests of chains into forests. */
module ChainOps {
  import opened Arith
  import opened Volume
  import opened FatCodec
  import opened Chains
  import opened Allocator
  import opened FileIO

  /** What create_chain may do to the chains: follow one, append a cluster to one, start one, or
      report a full volume. */
  ghost predicate Created(fat: seq<nat>, cs: set<seq<nat>>, cs': set<seq<nat>>, clst: nat, ncl: nat) {
    || (ncl == 0 && cs' == cs && NoneFree(fat) && (clst == 0 || exists ch :: ch in cs && EndsWith(ch, clst)))
    || (clst == 0 && NewCluster(fat, ncl) && cs' == cs + {[ncl]})
    || (clst != 0 && cs' == cs && exists ch :: ch in cs && Follows(ch, clst, ncl))
    || (clst != 0 && NewCluster(fat, ncl)
        && exists ch :: ch in cs && EndsWith(ch, clst) && cs' == cs - {ch} + {ch + [ncl]})
  }

  ghost predicate NewCluster(fat: seq<nat>, ncl: nat) {
    2 <= ncl < |fat| && fat[ncl] == 0
  }

  ghost predicate EndsWith(ch: seq<nat>, clst: nat) {
    ch != [] && ch[|ch| - 1] == clst
  }

  ghost predicate Follows(ch: seq<nat>, clst: nat, ncl: nat) {
    exists i :: 0 <= i < |ch| - 1 && ch[i] == clst && ch[i + 1] == ncl
  }

  /** The forest after create_chain returned ncl, and that it is one. */
  lemma CreateKeepsForest(fat: seq<nat>, cs: set<seq<nat>>, clst: nat, last: nat, ncl: nat, end: nat)
    returns (cs': set<seq<nat>>)
    requires Forest(fat, cs) && CreateResult(fat, clst, last, ncl) && |fat| >= 3 && end >= |fat|
    requires clst == 0 || Owned(cs, clst)
    ensures Created(fat, cs, cs', clst, ncl)
    ensures !Allocates(fat, clst, ncl) ==> cs' == cs
    ensures Allocates(fat, clst, ncl) ==> clst < |fat| && ncl < |fat| && Forest(Stretched(fat, clst, ncl, end), cs')
  {
    NoBadLink(fat, cs);
    if clst == 0 {
      hide AllChains, Disjoint, Covered, HasBadLink, SearchResult, NoneFree, Stretched;
      CleanSearch(fat, ScanStart(0, last, |fat|), ncl);
      if ncl >= 2 {
        NewChainForest(fat, cs, ncl, end);
        cs' := cs + {[ncl]};
      } else {
        cs' := cs;
      }
    } else {
      var ch :| ch in cs && clst in ch;
      cs' := CreateBehind(fat, cs, ch, clst, last, ncl, end);
    }
  }

  lemma CreateBehind(fat: seq<nat>, cs: set<seq<nat>>, ch: seq<nat>, clst: nat, last: nat, ncl: nat, end: nat)
    returns (cs': set<seq<nat>>)
    requires Forest(fat, cs) && CreateResult(fat, clst, last, ncl) && |fat| >= 3 && end >= |fat| && !HasBadLink(fat)
    requires ch in cs && clst in ch && clst != 0
    ensures Created(fat, cs, cs', clst, ncl)
    ensures !Allocates(fat, clst, ncl) ==> cs' == cs
    ensures Allocates(fat, clst, ncl) ==> clst < |fat| && ncl < |fat| && Forest(Stretched(fat, clst, ncl, end), cs')
  {
    ForestChain(fat, cs, ch);
    hide Forest, HasBadLink, SearchResult, NoneFree, Stretched, IsChain;
    var i :| 0 <= i < |ch| && ch[i] == clst;
    LinkInChain(fat, ch, i);
    ChainInUse(fat, ch, clst);
    cs' := cs;
    if i + 1 < |ch| {
      assert Follows(ch, clst, ncl);
    } else {
      assert EndsWith(ch, clst);
      CleanSearch(fat, ScanStart(clst, last, |fat|), ncl);
      if ncl >= 2 {
        StretchForest(fat, cs, ch, ncl, end);
        cs' := cs - {ch} + {ch + [ncl]};
      }
    }
  }

  /** create_chain keeps the FAT a forest of acyclic, disjoint chains, whatever cluster in use it is
      asked to go on from. */
  method Create(fs: FATFS, clst: nat, ghost cs: set<seq<nat>>) returns (ncl: nat, ghost cs': set<seq<nat>>)
    requires fs.Valid() && fs.disk.reliable && Forest(FatOf(fs), cs) && (clst == 0 || Owned(cs, clst))
    modifies fs, fs.win, fs.disk
    ensures fs.Valid() && Forest(FatOf(fs), cs') && Created(old(FatOf(fs)), cs, cs', clst, ncl)
    ensures SameOutsideFat(old(fs.View()), fs.View(), fs.g)
    ensures CountKept(fs)
  {
    hide FATFS.Valid, FATFS.View, Fat, Forest, CreateResult, Created, Allocates, SameOutsideFat, CountFree, Stretched;
    hide InFat, Mirrored, EndMark, Masked;
    ghost var fat, v := FatOf(fs), fs.View();
    ViewFacts(fs);
    SameOutside(v, v, v, fs.g);
    ncl := CreateChain(fs, clst);
    cs' := CreateKeepsForest(fat, cs, clst, old(fs.lastClust), ncl, EndMark(fs.g.fsType));
  }

  /** remove_chain on a whole chain frees exactly its members and leaves the other chains alone. */
  method Remove(fs: FATFS, clst: nat, ghost ch: seq<nat>, ghost cs: set<seq<nat>>) returns (res: FResult)
    requires fs.Valid() && fs.disk.reliable && Forest(FatOf(fs), cs) && ch in cs && ch != [] && clst == ch[0]
    modifies fs`winsect, fs`wflag, fs`freeClust, fs`fsiDirty, fs.win, fs.disk
    ensures fs.Valid() && res == OK && FatOf(fs) == Freed(old(FatOf(fs)), ch) && Forest(FatOf(fs), cs - {ch})
    ensures SameOutsideFat(old(fs.View()), fs.View(), fs.g)
    ensures CountKept(fs)
  {
    hide FATFS.Valid, FATFS.View, Fat, Forest, SameOutsideFat, CountFree, InFat, Mirrored, IsChain, Freed, Unlinked;
    hide HitsBadLink;
    ghost var fat := FatOf(fs);
    ForestChain(fat, cs, ch);
    UnlinkedChain(fat, ch);
    FreeForest(fat, cs, ch);
    FirstInRange(fat, ch);
    res := RemoveChain(fs, clst);
  }

  lemma FirstInRange(fat: seq<nat>, ch: seq<nat>)
    requires IsChain(fat, ch)
    ensures 2 <= ch[0] < |fat|
  {
  }

  /** On a FAT without corrupt entries a new chain, or a chain's next cluster, cannot be had exactly when
      nothing is free. */
  lemma FullIffNoneFree(fat: seq<nat>, clst: nat, last: nat, ncl: nat)
    requires CreateResult(fat, clst, last, ncl) && !HasBadLink(fat) && |fat| >= 3
    requires clst == 0 || (2 <= clst < |fat| && fat[clst] >= |fat|)
    ensures ncl == 0 <==> NoneFree(fat)
    ensures NoneFree(fat) <==> CountFree(fat, 2) == 0
  {
    CountFreeZero(fat, 2);
    SearchDetermined(fat, ScanStart(clst, last, |fat|), ncl);
  }
}
