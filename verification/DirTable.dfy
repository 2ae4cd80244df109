/** A directory as a sequence of 32-byte entries in a row of sectors. */
module DirTable {
  import opened Arith
  import opened Volume
  import opened Chains
  import opened FileImage
  import opened FileSectors

  /** Entries per sector, `SS / SZ_DIRE`. */
  function Eps(g: Geom): nat {
    g.ss / 32
  }

  /** Sector number and place in the sector of entry i. */
  function EIdx(g: Geom, i: nat): nat {
    if Eps(g) == 0 then 0 else i / Eps(g)
  }

  function EOfs(g: Geom, i: nat): nat {
    if Eps(g) == 0 then 0 else i % Eps(g)
  }

  /** Entries in n sectors; an index has 16 bits. */
  function Slots(g: Geom, n: nat): nat {
    n * Eps(g)
  }

  function Count(g: Geom, n: nat): nat {
    Min(Slots(g, n), 0x1_0000)
  }

  /** The sectors of a directory: the static root of FAT12/16, or a cluster chain. */
  function DirSecs(g: Geom, fixed: bool, ch: seq<nat>): (r: seq<nat>)
    ensures fixed ==> |r| == RootSecs(g) && forall k :: 0 <= k < |r| ==> r[k] == g.dirbase + k
    ensures !fixed ==> r == Secs(g, ch)
  {
    if fixed then seq(RootSecs(g), k requires 0 <= k => g.dirbase + k) else Secs(g, ch)
  }

  function RootSecs(g: Geom): nat {
    EIdx(g, g.nRootdir)
  }

  /** Entry i. */
  function Ent(v: Sectors, g: Geom, secs: seq<nat>, i: nat): seq<Byte> {
    if EIdx(g, i) < |secs| then Slice(SecAt(v, secs[EIdx(g, i)]), 32 * EOfs(g, i)) else []
  }

  function Slice(b: seq<Byte>, o: nat): seq<Byte> {
    if o + 32 <= |b| then b[o..o + 32] else []
  }

  /** All entries of the directory. */
  function Table(v: Sectors, g: Geom, secs: seq<nat>): (t: seq<seq<Byte>>)
    ensures |t| == Count(g, |secs|) && forall i :: 0 <= i < |t| ==> t[i] == Ent(v, g, secs, i)
  {
    seq(Count(g, |secs|), i requires 0 <= i => Ent(v, g, secs, i))
  }

  lemma EpsFacts(g: Geom)
    requires SectorSize(g.ss)
    ensures 16 <= Eps(g) <= 128 && 32 * Eps(g) == g.ss
  {
  }

  lemma EntrySplit(g: Geom, i: nat)
    requires Eps(g) > 0
    ensures i == Slots(g, EIdx(g, i)) + EOfs(g, i) && EOfs(g, i) < Eps(g)
  {
  }

  lemma EntryIs(g: Geom, i: nat, k: nat, r: nat)
    requires i == Slots(g, k) + r && r < Eps(g)
    ensures EIdx(g, i) == k && EOfs(g, i) == r
  {
    DivModUnique(i, Eps(g), k, r);
  }

  lemma SlotsMonotone(g: Geom, m: nat, n: nat)
    requires m <= n
    ensures Slots(g, m) <= Slots(g, n)
  {
    MulMonotone(m, n, Eps(g));
  }

  lemma SlotsNext(g: Geom, n: nat)
    ensures Slots(g, n + 1) == Slots(g, n) + Eps(g)
  {
  }

  /** An entry number is below the end exactly if its sector is. */
  lemma InsideIff(g: Geom, i: nat, n: nat)
    requires Eps(g) > 0
    ensures i < Slots(g, n) <==> EIdx(g, i) < n
  {
    EntrySplit(g, i);
    hide EIdx, EOfs;
    if EIdx(g, i) < n {
      SlotsMonotone(g, EIdx(g, i) + 1, n);
      SlotsNext(g, EIdx(g, i));
    } else {
      SlotsMonotone(g, n, EIdx(g, i));
    }
    hide Slots, Eps;
  }

  /** From one entry to the next. */
  lemma NextSlot(g: Geom, i: nat)
    requires Eps(g) > 0
    ensures (i + 1) % Eps(g) == EOfs(g, i + 1)
    ensures if EOfs(g, i + 1) == 0 then EIdx(g, i + 1) == EIdx(g, i) + 1
            else EIdx(g, i + 1) == EIdx(g, i) && EOfs(g, i + 1) == EOfs(g, i) + 1
  {
    EntrySplit(g, i);
    SlotsNext(g, EIdx(g, i));
    if EOfs(g, i) + 1 < Eps(g) {
      EntryIs(g, i + 1, EIdx(g, i), EOfs(g, i) + 1);
    } else {
      EntryIs(g, i + 1, EIdx(g, i) + 1, 0);
    }
  }

  /** Entries lie inside their sectors. */
  lemma EntInside(v: Sectors, g: Geom, secs: seq<nat>, i: nat)
    requires SectorSize(g.ss) && Uniform(v, g.ss) && OnDrive(v, secs) && i < Slots(g, |secs|)
    ensures EIdx(g, i) < |secs| && secs[EIdx(g, i)] < |v| && 32 * EOfs(g, i) + 32 <= g.ss
    ensures |Ent(v, g, secs, i)| == 32
    ensures Ent(v, g, secs, i) == v[secs[EIdx(g, i)]][32 * EOfs(g, i)..32 * EOfs(g, i) + 32]
  {
    EpsFacts(g);
    InsideIff(g, i, |secs|);
    EntrySplit(g, i);
    hide EIdx, EOfs, Eps, Slots;
  }

  lemma TableShape(v: Sectors, g: Geom, secs: seq<nat>)
    requires SectorSize(g.ss) && Uniform(v, g.ss) && OnDrive(v, secs)
    ensures forall i :: 0 <= i < |Table(v, g, secs)| ==> |Table(v, g, secs)[i]| == 32
  {
    hide SectorSize, Uniform, OnDrive, Ent, Slots;
    forall i | 0 <= i < |Table(v, g, secs)|
      ensures |Table(v, g, secs)[i]| == 32
    {
      EntInside(v, g, secs, i);
    }
  }

  /** A sector's bytes with 32 of them replaced. */
  function Patched(b: seq<Byte>, o: nat, e: seq<Byte>): (r: seq<Byte>) {
    if o + |e| <= |b| then b[..o] + e + b[o + |e|..] else b
  }

  /** Storing an entry changes that entry only. */
  lemma PutEntry(v: Sectors, g: Geom, secs: seq<nat>, i: nat, e: seq<Byte>)
    requires SectorSize(g.ss) && Uniform(v, g.ss) && OnDrive(v, secs) && Distinct(secs) && |e| == 32
    requires i < Count(g, |secs|)
    ensures EIdx(g, i) < |secs| && secs[EIdx(g, i)] < |v|
    ensures var s := secs[EIdx(g, i)];
      Table(v[s := Patched(v[s], 32 * EOfs(g, i), e)], g, secs) == Table(v, g, secs)[i := e]
  {
    hide SectorSize, Uniform, OnDrive, Distinct, Slots, EIdx, EOfs, Ent;
    EntInside(v, g, secs, i);
    var s := secs[EIdx(g, i)];
    var v' := v[s := Patched(v[s], 32 * EOfs(g, i), e)];
    forall j | 0 <= j < Count(g, |secs|)
      ensures Ent(v', g, secs, j) == if j == i then e else Ent(v, g, secs, j)
    {
      EntPatched(v, g, secs, i, e, j);
    }
  }

  lemma EntPatched(v: Sectors, g: Geom, secs: seq<nat>, i: nat, e: seq<Byte>, j: nat)
    requires SectorSize(g.ss) && Uniform(v, g.ss) && OnDrive(v, secs) && Distinct(secs) && |e| == 32
    requires i < Slots(g, |secs|) && j < Slots(g, |secs|)
    ensures EIdx(g, i) < |secs| && secs[EIdx(g, i)] < |v|
    ensures var s := secs[EIdx(g, i)];
      Ent(v[s := Patched(v[s], 32 * EOfs(g, i), e)], g, secs, j) == if j == i then e else Ent(v, g, secs, j)
  {
    EpsFacts(g);
    EntInside(v, g, secs, i);
    EntInside(v, g, secs, j);
    EntrySplit(g, i);
    EntrySplit(g, j);
    hide EIdx, EOfs, Eps, Slots, SectorSize;
    var s := secs[EIdx(g, i)];
    PatchedSlice(v[s], 32 * EOfs(g, i), e, 32 * EOfs(g, j));
    hide Patched, Slice;
    if EIdx(g, i) == EIdx(g, j) {
      assert v[s := Patched(v[s], 32 * EOfs(g, i), e)][s] == Patched(v[s], 32 * EOfs(g, i), e);
    } else {
      assert secs[EIdx(g, j)] != s;
    }
  }

  lemma PatchedSlice(b: seq<Byte>, o: nat, e: seq<Byte>, p: nat)
    requires |e| == 32 && o + 32 <= |b| && p + 32 <= |b|
    ensures |Patched(b, o, e)| == |b|
    ensures p == o ==> Slice(Patched(b, o, e), p) == e
    ensures p + 32 <= o || o + 32 <= p ==> Slice(Patched(b, o, e), p) == Slice(b, p)
  {
  }

  // ----- growing -----

  /** A blank entry. */
  function Blank(): (e: seq<Byte>)
    ensures |e| == 32 && forall k :: 0 <= k < 32 ==> e[k] == 0
  {
    Zeros(32)
  }

  /** A table continued with blank entries. */
  ghost predicate Grown(t: seq<seq<Byte>>, t': seq<seq<Byte>>) {
    |t| <= |t'| && t'[..|t|] == t && forall i :: |t| <= i < |t'| ==> t'[i] == Blank()
  }

  /** Adding sectors that are zero. */
  lemma TableGrows(v: Sectors, v': Sectors, g: Geom, secs: seq<nat>, secs': seq<nat>)
    requires SectorSize(g.ss) && Uniform(v', g.ss) && OnDrive(v', secs') && |v'| == |v|
    requires |secs| <= |secs'| && secs'[..|secs|] == secs
    requires forall s: nat :: s in secs && s < |v| ==> v'[s] == v[s]
    requires forall k :: |secs| <= k < |secs'| ==> SecAt(v', secs'[k]) == Zeros(g.ss)
    ensures Grown(Table(v, g, secs), Table(v', g, secs'))
  {
    EpsFacts(g);
    SlotsMonotone(g, |secs|, |secs'|);
    var t, t' := Table(v, g, secs), Table(v', g, secs');
    hide SectorSize, Uniform, OnDrive, EIdx, EOfs, Eps, Slots, Slice, SecAt;
    forall i | 0 <= i < |t'|
      ensures i < |t| ==> t'[i] == t[i]
      ensures i >= |t| ==> t'[i] == Blank()
    {
      InsideIff(g, i, |secs|);
      if i < |t| {
        OldEntry(v, v', g, secs, secs', i);
      } else {
        BlankEntry(v', g, secs', i);
      }
    }
  }

  lemma OldEntry(v: Sectors, v': Sectors, g: Geom, secs: seq<nat>, secs': seq<nat>, i: nat)
    requires |v'| == |v| && |secs| <= |secs'| && secs'[..|secs|] == secs && EIdx(g, i) < |secs|
    requires forall s: nat :: s in secs && s < |v| ==> v'[s] == v[s]
    ensures Ent(v', g, secs', i) == Ent(v, g, secs, i)
  {
    hide EIdx, EOfs, Slice;
    var k := EIdx(g, i);
    assert secs'[k] == secs'[..|secs|][k] == secs[k] && secs[k] in secs;
  }

  lemma BlankEntry(v: Sectors, g: Geom, secs: seq<nat>, i: nat)
    requires SectorSize(g.ss) && Uniform(v, g.ss) && OnDrive(v, secs) && i < Slots(g, |secs|)
    requires EIdx(g, i) < |secs| && SecAt(v, secs[EIdx(g, i)]) == Zeros(g.ss)
    ensures Ent(v, g, secs, i) == Blank()
  {
    EntInside(v, g, secs, i);
  }

  // ----- free entries -----

  const DDEM: nat := 0xE5

  /** Deleted or never used. */
  predicate FreeEntry(e: seq<Byte>) {
    e != [] && (e[0] == DDEM || e[0] == 0)
  }

  /** The end-of-table mark, or a row of such marks. */
  predicate EndEntry(e: seq<Byte>) {
    e != [] && e[0] == 0
  }

  /** nent free entries in a row end with entry i. */
  ghost predicate RunEnds(t: seq<seq<Byte>>, nent: nat, i: nat) {
    i < |t| && i + 1 >= nent && forall j :: i + 1 - nent <= j <= i ==> FreeEntry(t[j])
  }

  /** i is the first place where nent free entries in a row end. */
  ghost predicate FirstRun(t: seq<seq<Byte>>, nent: nat, i: nat) {
    RunEnds(t, nent, i) && forall e: nat :: e < i ==> !RunEnds(t, nent, e)
  }

  /** n free entries in a row end before entry i; there are no more, and no full run so far. */
  ghost predicate Counted(t: seq<seq<Byte>>, nent: nat, i: nat, n: nat) {
    && n <= i <= |t| && n < nent
    && (forall j :: i - n <= j < i ==> FreeEntry(t[j]))
    && (n < i ==> !FreeEntry(t[i - n - 1]))
    && forall e: nat :: e < i ==> !RunEnds(t, nent, e)
  }

  lemma CountNext(t: seq<seq<Byte>>, nent: nat, i: nat, n: nat)
    requires Counted(t, nent, i, n) && i < |t|
    ensures FreeEntry(t[i]) && n + 1 == nent ==> FirstRun(t, nent, i)
    ensures FreeEntry(t[i]) && n + 1 < nent ==> Counted(t, nent, i + 1, n + 1)
    ensures !FreeEntry(t[i]) ==> Counted(t, nent, i + 1, 0)
  {
    if !FreeEntry(t[i]) {
      NotEnds(t, nent, i, i);
    } else if n + 1 < nent && n < i {
      NotEnds(t, nent, i, i - n - 1);
    }
  }

  lemma NotEnds(t: seq<seq<Byte>>, nent: nat, i: nat, j: nat)
    requires i < |t| && j <= i < j + nent && !FreeEntry(t[j])
    ensures !RunEnds(t, nent, i)
  {
  }

  lemma CountGrown(t: seq<seq<Byte>>, t': seq<seq<Byte>>, nent: nat, i: nat, n: nat)
    requires Counted(t, nent, i, n) && Grown(t, t')
    ensures Counted(t', nent, i, n)
  {
    assert forall j :: 0 <= j < |t| ==> t'[j] == t'[..|t|][j] == t[j];
    forall e: nat | e < i
      ensures !RunEnds(t', nent, e)
    {
      assert !RunEnds(t, nent, e);
    }
  }

  lemma NoRun(t: seq<seq<Byte>>, nent: nat, n: nat)
    requires Counted(t, nent, |t|, n)
    ensures forall e: nat :: !RunEnds(t, nent, e)
  {
  }

  lemma GrownSame(t: seq<seq<Byte>>)
    ensures Grown(t, t)
  {
  }

  lemma GrownTrans(a: seq<seq<Byte>>, b: seq<seq<Byte>>, c: seq<seq<Byte>>)
    requires Grown(a, b) && Grown(b, c)
    ensures Grown(a, c)
  {
    assert c[..|a|] == c[..|b|][..|a|];
    forall i | |a| <= i < |c|
      ensures c[i] == Blank()
    {
      if i < |b| {
        assert c[i] == c[..|b|][i];
      }
    }
  }

  lemma NoneCounted(t: seq<seq<Byte>>, nent: nat)
    requires nent >= 1
    ensures Counted(t, nent, 0, 0)
  {
  }
}
