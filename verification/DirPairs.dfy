/** An open file beside a directory of the same volume: work on one leaves the other as it was. */
module DirPairs {
  import opened Arith
  import opened Volume
  import opened FatCodec
  import opened Chains
  import opened Allocator
  import opened FileImage
  import opened FileSectors
  import opened FileIO
  import opened FileRuns
  import opened FilePairs
  import opened LongName
  import opened DirTable
  import opened DirSearch
  import opened Directory
  import opened DirRegister

  /** A directory and an open file with chains of their own; `rest` are the chains of all else. */
  ghost predicate Neighbours(dp: DIR, o: FIL, rest: set<seq<nat>>)
    reads dp`chain, dp`others, o`chain, o`others
  {
    && dp.fs == o.fs && dp.fn != o.buf
    && dp.others == Including(rest, o.chain) && o.others == Including(rest, dp.chain)
    && dp.chain !in rest && o.chain !in rest && (dp.chain == o.chain ==> dp.chain == [])
  }

  // ----- the file, while the directory is worked on -----

  /** A directory shares no sector with a file. */
  lemma DirApart(g: Geom, total: nat, fat: seq<nat>, rest: set<seq<nat>>, fixed: bool, d: seq<nat>, ds: nat,
                 ch: seq<nat>)
    requires Layout(g, total) && Sizes(g, total) && |fat| == g.nFatent && RootFits(g)
    requires Owns(fat, Including(rest, ch), d, ds) && (d == [] <==> fixed)
    requires (fixed ==> g.fsType != FAT32) && ch !in rest
    ensures forall s: nat :: s in FileSectors.Secs(g, ch) ==> s !in DirSecs(g, fixed, d) && !InFatArea(g, s)
  {
    var cs := if d == [] then Including(rest, ch) else Including(rest, ch) + {d};
    CsizePos(g, total);
    forall s: nat | s in FileSectors.Secs(g, ch)
      ensures s !in DirSecs(g, fixed, d) && !InFatArea(g, s)
    {
      if ch == [] {
        NoSectors(g);
        assert false;
      } else {
        OtherSector(g, total, fat, cs, ch, s);
        ForestMember(fat, cs, ch);
        SecsInData(g, total, ch);
        if !fixed {
          ChainsApart(g, fat, cs, ch, d, s);
        }
      }
    }
  }

  /** Working on a directory's sectors leaves the sectors of a file alone, and out of the window. */
  lemma FileAside(g: Geom, v: Sectors, w: nat, v': Sectors, w': nat, secs: seq<nat>, ch: seq<nat>)
    requires WorksOn(v, w, v', w', g, secs) && w !in FileSectors.Secs(g, ch)
    requires forall s: nat :: s in FileSectors.Secs(g, ch) ==> s !in secs && !InFatArea(g, s)
    ensures w' !in FileSectors.Secs(g, ch)
    ensures |v'| == |v| && forall s: nat :: s in FileSectors.Secs(g, ch) && s < |v| ==> v'[s] == v[s]
    ensures Mirrored(v, g) ==> Mirrored(v', g)
  {
    hide Mirrored, FileSectors.Secs;
  }

  /** What the directory's object knows of the volume. */
  lemma DirVolume(dp: DIR)
    requires dp.Valid()
    ensures Layout(dp.fs.g, |dp.fs.View()|) && Sizes(dp.fs.g, |dp.fs.View()|) && |FatOf(dp.fs)| == dp.fs.g.nFatent
    ensures RootFits(dp.fs.g) && Uniform(dp.fs.View(), dp.fs.g.ss) && dp.fs.Valid() && dp.fs.disk.reliable
    ensures Owns(FatOf(dp.fs), dp.others, dp.chain, StartOf(dp.fs.g, dp.sclust)) && (dp.chain == [] <==> dp.Fixed())
    ensures dp.Fixed() ==> dp.fs.g.fsType != FAT32
  {
    hide Owns, FATFS.View, FATFS.Valid, FileSectors.Secs, DirSecs, Layout, Uniform, Sizes, RootFits;
    dp.Facts();
    ViewFacts(dp.fs);
  }

  /** The file goes on beside the directory, whose chain may have grown since its image was m. */
  ghost method Rejoin(dp: DIR, o: FIL, rest: set<seq<nat>>, m: FileImage.Img, w: nat)
    requires dp.Valid() && dp.fs == o.fs && dp.fn != o.buf && dp.others == Including(rest, o.chain) && o.chain !in rest
    requires WorksOn(m.v, w, o.fs.View(), o.fs.winsect, o.fs.g, dp.Secs()) && w !in m.secs && ImageOk(m, o.fsize)
    requires m.ss == o.fs.g.ss && m.secs == FileSectors.Secs(o.fs.g, o.chain)
    requires m.dirty == o.dirty && m.dsect == o.dsect && m.buf == o.buf[..] && o.buf != o.fs.win
    requires o.sclust == (if o.chain == [] then 0 else o.chain[0]) && Inside(o.stale, m.secs, o.dsect)
    requires o.dsect != 0 ==> InData(o.fs.g, |m.v|, o.dsect)
    requires o.fptr <= o.fsize < W32 && Placed(o.fs.g, o.chain, o.fptr, o.clust, o.dsect)
    modifies o`others, o`apart, o`mirrored
    ensures Neighbours(dp, o, rest) && dp.Valid() && o.Data() == Content(m, o.fsize)
    ensures o.Valid() <==>
              && (o.dsect == 0 || o.fs.winsect != o.dsect)
              && (o.dirty || o.dsect == 0 || SecAt(o.fs.View(), o.dsect) == SecAt(m.v, o.dsect))
    ensures o.BufferInside() ==> o.Valid()
    ensures Mirrored(m.v, o.fs.g) ==> Mirrored(o.fs.View(), o.fs.g)
  {
    hide Owns, Fat, FileSectors.Secs, FATFS.View, FATFS.Valid, FIL.Valid, ImageOk;
    hide Placed, InData, WindowApart, AwayFrom;
    hide Content, Uniform, Including, Inside, Mirrored, FIL.BufferInside, SecAt, DIR.Valid, WorksOn, InFatArea;
    DirVolume(dp);
    DirApart(o.fs.g, |o.fs.View()|, FatOf(o.fs), rest, dp.Fixed(), dp.chain, StartOf(dp.fs.g, dp.sclust), o.chain);
    FileAside(o.fs.g, m.v, w, o.fs.View(), o.fs.winsect, dp.Secs(), o.chain);
    o.others, o.apart, o.mirrored := Including(rest, dp.chain), {}, false;
    OwnsSwapped(FatOf(o.fs), rest, dp.chain, StartOf(dp.fs.g, dp.sclust), o.chain, o.sclust);
    OtherKept(o, m);
  }

  /**
   * Creating a name beside an open file: the directory takes what CreateName gives it. The file keeps its bytes and
   * its position; it stays valid if and only if the window does not show the sector in its buffer, and the buffer
   * is newer than that sector or the sector did not change. If the sector is the file's own, it is so in any case.
   */
  method CreateBeside(dp: DIR, o: FIL, up: WChar -> WChar, ghost n: seq<WChar>, ghost rest: set<seq<nat>>)
    returns (before: FResult, res: FResult, after: FResult, p: nat)
    requires Neighbours(dp, o, rest) && o.Valid()
    requires dp.Valid() && dp.lfn.Lfn? && Holds(dp.lfn.buf, n) && IsName(n) && KeepsZero(up)
    requires GoodFirst(dp.fn[..]) && (Lossy(dp.fn[..]) ==> LongWanted(dp.fn[..]))
    modifies dp`index, dp`clust, dp`sect, dp`dir, dp`chain, dp`lfn, dp.fn, dp.fs, dp.fs.win, dp.fs.disk
    modifies o`others, o`apart, o`mirrored
    ensures Neighbours(dp, o, rest) && dp.Valid() && old(DirSearch.Shaped(dp.Entries()) && QueryOk(dp.Name()))
    ensures before == NoFile ==> res == OK || Refused(dp, res, up, old(dp.fn[..]), n, old(dp.Entries()))
    ensures before == NoFile && res == OK && old(WellEnded(dp.Entries())) ==>
              (after == OK && dp.At(p) <==> !old(Lossy(dp.fn[..])) || |n| <= 254)
    ensures StateOf(o) == old(StateOf(o))
    ensures o.Valid() <==>
              && (o.dsect == 0 || o.fs.winsect != o.dsect)
              && (o.dirty || o.dsect == 0 || SecAt(o.fs.View(), o.dsect) == SecAt(old(o.fs.View()), o.dsect))
    ensures o.BufferInside() ==> o.Valid()
    ensures old(Mirrored(o.fs.View(), o.fs.g)) ==> Mirrored(o.fs.View(), o.fs.g)
  {
    hide Owns, Fat, FileSectors.Secs, FATFS.View, FATFS.Valid, FIL.Valid, ImageOk;
    hide Placed, InData, WindowApart, AwayFrom;
    hide Content, Needs, Uniform, Including, Inside, Mirrored, FIL.BufferInside, SecAt, DIR.Valid, WorksOn;
    hide Lossy, LongWanted, GoodFirst, Holds, IsName, KeepsZero, Refused, WellEnded, InFatArea;
    ghost var m, w := o.Img(), o.fs.winsect;
    ValidParts(o);
    OwnSectors(o);
    NotShown(o);
    before, res, after, p := CreateName(dp, up, n);
    Rejoin(dp, o, rest, m, w);
  }

  // ----- the directory, while the file is worked on -----

  lemma TableSame(v: Sectors, v': Sectors, g: Geom, secs: seq<nat>)
    requires |v'| == |v| && forall s: nat :: s in secs && s < |v| ==> v'[s] == v[s]
    ensures Table(v', g, secs) == Table(v, g, secs)
  {
    hide Eps, EIdx, EOfs, Slots;
    forall i: nat | i < Count(g, |secs|)
      ensures Ent(v', g, secs, i) == Ent(v, g, secs, i)
    {
      if EIdx(g, i) < |secs| {
        assert secs[EIdx(g, i)] in secs;
      }
    }
    hide Ent;
    assert Table(v', g, secs) == Table(v, g, secs);
  }

  /** Sectors of a directory among those that work on a file leaves alone. */
  lemma DirKept(g: Geom, others: set<seq<nat>>, rest: set<seq<nat>>, fixed: bool, d: seq<nat>, v: Sectors, v': Sectors)
    requires OthersKept(g, others, v, v') && others == Including(rest, d) && (d == [] <==> fixed)
    requires SoundSecs(g, v, DirSecs(g, fixed, d)) && RootFits(g) && (fixed ==> g.fsType != FAT32)
    ensures |v'| == |v| && forall s: nat :: s in DirSecs(g, fixed, d) && s < |v| ==> v'[s] == v[s]
  {
    hide FileSectors.Secs, InFatArea, Distinct;
  }

  lemma DirOwns(dp: DIR)
    requires dp.fs.Valid() && dp.fs.disk.reliable && dp.fn.Length == 12 && dp.fn != dp.fs.win && BufferOk(dp.lfn)
    requires Owns(FatOf(dp.fs), dp.others, dp.chain, StartOf(dp.fs.g, dp.sclust)) && (dp.chain == [] <==> dp.Fixed())
    requires dp.Fixed() ==> dp.fs.g.fsType != FAT32
    ensures dp.Valid()
  {
    hide Owns, Fat, FATFS.Valid, FATFS.View;
  }

  /** An operation on the file does what it does to a file alone; the directory has the entries it had, and its
      object stands where it stood. */
  method PerformBesideDir(f: FIL, dp: DIR, op: Op, ghost rest: set<seq<nat>>) returns (out: seq<Byte>)
    requires Neighbours(dp, f, rest) && dp.Valid() && f.Valid() && Ready(f) && Legal(op)
    modifies f, f.buf, f.fs, f.fs.win, f.fs.disk, dp`others
    ensures Neighbours(dp, f, rest) && dp.Valid() && f.Valid() && Ready(f)
    ensures Step(old(StateOf(f)), op, out, StateOf(f), old(CapOf(f)))
    ensures |f.chain| == ClustersAfter(f.fs.g, old(|f.chain|), op, old(StateOf(f)), StateOf(f))
    ensures dp.Entries() == old(dp.Entries()) && dp.Name() == old(dp.Name())
    ensures forall i: nat :: dp.At(i) <==> old(dp.At(i))
    ensures old(Mirrored(f.fs.View(), f.fs.g)) ==> Mirrored(f.fs.View(), f.fs.g)
  {
    hide Owns, Fat, FileSectors.Secs, FATFS.View, FATFS.Valid, FIL.Valid, Step, Legal, CapOf, OthersKept, Including;
    hide Mirrored, ClustersAfter, Table, DirSecs, Standing, SoundSecs, Layout, Sizes, Uniform, RootFits, BufferOk;
    ghost var v, secs := f.fs.View(), dp.Secs();
    dp.Facts();
    DirVolume(dp);
    out := Perform(f, op);
    DirKept(f.fs.g, f.others, rest, dp.Fixed(), dp.chain, v, f.fs.View());
    TableSame(v, f.fs.View(), f.fs.g, secs);
    FileVolume(f);
    OwnsSwapped(FatOf(f.fs), rest, f.chain, f.sclust, dp.chain, StartOf(dp.fs.g, dp.sclust));
    dp.others := Including(rest, f.chain);
    DirOwns(dp);
  }

  lemma FileVolume(f: FIL)
    requires f.Valid()
    ensures f.fs.Valid() && f.fs.disk.reliable && Owns(FatOf(f.fs), f.others, f.chain, f.sclust)
  {
    hide Owns, Fat, FileSectors.Secs, FATFS.View, FATFS.Valid, Placed;
  }
}
