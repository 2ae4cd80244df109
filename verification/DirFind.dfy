/** Finding a name in a directory: dir_find. */
module DirFind {
  import opened Arith
  import opened Volume
  import opened FatCodec
  import opened Chains
  import opened Allocator
  import opened FileImage
  import opened FileSectors
  import opened FileIO
  import opened DirTable
  import opened LongName
  import opened DirSearch
  import opened DirMatch
  import opened Directory

  /** One entry of dir_find: whether the search ends here, and its state behind the entry. */
  method Examine(up: WChar -> WChar, e: seq<Byte>, q: Query, st: Run) returns (stop: bool, match_: bool, st': Run)
    requires |e| == 32 && QueryOk(q)
    ensures stop <==> e[0] == 0 || Matches(q, st, e)
    ensures match_ <==> e[0] != 0 && Matches(q, st, e)
    ensures match_ <==>
              && e[0] != 0 && LiveShort(e)
              && ((st.ord == 0 && st.sum == SumOf(e, 11)) || (q.fn[11] % 2 == 0 && e[..11] == q.fn[..11]))
    ensures !stop ==> st' == Behind(up, q, st, e)
  {
    hide BitAnd, Accepts, Plain, IsLast, SumOf;
    Kinds(e);
    LossFlag(q.fn);
    st', match_ := st, false;
    var c := e[0];
    if c == 0 {
      return true, false, st;
    }
    stop := false;
    var a := BitAnd(e[11], AM_MASK);
    if c == DDEM || (BitAnd(a, AM_VOL) != 0 && a != AM_LFN) {
      st' := st.(ord := 0xFF);
    } else if a == AM_LFN {
      if q.lfn.Lfn? {
        var ok := false;
        if InOrder(st, e) {
          ok := CmpLfn(up, q.lfn.buf, e);
        }
        st' := Advance(st, e, ok);
      }
    } else {
      var sum := SumSfn(e);
      if st.ord == 0 && st.sum == sum {
        return true, true, st;
      }
      if BitAnd(q.fn[NSFLAG], NS_LOSS) == 0 && e[..11] == q.fn[..11] {
        return true, true, st;
      }
      st' := st.(ord := 0xFF);
    }
  }

  /** How the search goes on at entry i. */
  lemma SearchStep(up: WChar -> WChar, q: Query, t: seq<seq<Byte>>, i: nat, st: Run)
    requires DirSearch.Shaped(t) && QueryOk(q) && i < |t|
    ensures t[i][0] == 0 ==> Search(up, q, t, i, st) == |t|
    ensures t[i][0] != 0 && Matches(q, st, t[i]) ==> Search(up, q, t, i, st) == i
    ensures t[i][0] != 0 && !Matches(q, st, t[i]) ==>
              Search(up, q, t, i, st) == Search(up, q, t, i + 1, Behind(up, q, st, t[i]))
  {
    hide Matches, Behind;
  }

  lemma SearchDone(up: WChar -> WChar, q: Query, t: seq<seq<Byte>>, st: Run)
    requires DirSearch.Shaped(t) && QueryOk(q)
    ensures Search(up, q, t, |t|, st) == |t|
  {
  }

  /** The entries are 32 bytes each, and the name has its shape. */
  lemma Shapes(dp: DIR)
    requires dp.Valid()
    ensures DirSearch.Shaped(dp.Entries()) && QueryOk(dp.Name())
    ensures |dp.Entries()| == Count(dp.fs.g, |dp.Secs()|)
  {
    hide Owns, Fat, FATFS.View, FATFS.Valid, FileSectors.Secs, Table, DirSecs, Ent;
    dp.Facts();
    TableShape(dp.fs.View(), dp.fs.g, dp.Secs());
  }

  /** One entry of the search, and on to the next. */
  method FindStep(dp: DIR, up: WChar -> WChar, st: Run) returns (more: bool, res: FResult, st': Run)
    requires dp.Valid() && dp.At(dp.index)
    modifies dp`index, dp`clust, dp`sect, dp`dir, dp`chain, dp.fs, dp.fs.win, dp.fs.disk
    ensures dp.Valid() && dp.fs.View() == old(dp.fs.View()) && dp.chain == old(dp.chain) && dp.Name() == old(dp.Name())
    ensures DirSearch.Shaped(dp.Entries()) && QueryOk(dp.Name()) && dp.Entries() == old(dp.Entries())
    ensures old(dp.index) < |dp.Entries()|
    ensures more ==>
              && dp.At(dp.index) && dp.index == old(dp.index) + 1 < |dp.Entries()|
              && Search(up, dp.Name(), dp.Entries(), old(dp.index), st)
                 == Search(up, dp.Name(), dp.Entries(), dp.index, st')
    ensures !more ==>
              && (res == OK || res == NoFile) && (res == OK ==> dp.At(dp.index) && dp.index == old(dp.index))
              && Search(up, dp.Name(), dp.Entries(), old(dp.index), st)
                 == if res == OK then old(dp.index) else |dp.Entries()|
    ensures WindowIn(old(dp.fs.winsect), dp.fs.winsect, dp.fs.g, dp.Secs())
    ensures CountKept(dp.fs)
  {
    hide Owns, Fat, FATFS.View, FATFS.Valid, FileSectors.Secs, Table, DirSecs, Standing, Slots, Search, Matches;
    hide Behind, CountFree, FreeExact, InFat, Mirrored;
    hide KeepsRest, Grown, Extends, IsChain;
    Shapes(dp);
    ghost var t, q, i := dp.Entries(), dp.Name(), dp.index;
    res := dp.Show();
    var e := dp.fs.win[dp.dir..dp.dir + 32];
    SearchStep(up, q, t, i, st);
    var stop, match_;
    stop, match_, st' := Examine(up, e, Query(dp.fn[..], dp.lfn), st);
    if match_ {
      return false, OK, st';
    }
    if stop {
      return false, NoFile, st';
    }
    res := dp.Next(false);
    more := res == OK;
    if !more {
      SearchDone(up, q, t, st');
    }
  }

  /**
   * dir_find: go to the first entry of the name, as the table search `Search` has it. FR_NO_FILE is
   * reported at an end mark or at the end of the table.
   */
  method Find(dp: DIR, up: WChar -> WChar) returns (res: FResult)
    requires dp.Valid()
    modifies dp`index, dp`clust, dp`sect, dp`dir, dp`chain, dp.fs, dp.fs.win, dp.fs.disk
    ensures dp.Valid() && dp.fs.View() == old(dp.fs.View()) && dp.chain == old(dp.chain) && dp.Name() == old(dp.Name())
    ensures DirSearch.Shaped(dp.Entries()) && QueryOk(dp.Name()) && dp.Entries() == old(dp.Entries())
    ensures var r := Search(up, dp.Name(), dp.Entries(), 0, BROKEN);
      && res == (if dp.Entries() == [] then IntErr else if r < |dp.Entries()| then OK else NoFile)
      && (res == OK ==> dp.At(r))
    ensures res == OK ==> FirstHit(up, dp.Name(), dp.Entries(), dp.index)
    ensures res == NoFile ==> Missed(up, dp.Name(), dp.Entries())
    ensures WindowIn(old(dp.fs.winsect), dp.fs.winsect, dp.fs.g, dp.Secs())
    ensures CountKept(dp.fs)
  {
    hide Owns, Fat, FATFS.View, FATFS.Valid, FileSectors.Secs, Table, DirSecs, Standing, Slots, Search, Matches;
    hide Behind, CountFree, FreeExact, InFat, Mirrored;
    hide KeepsRest, Grown, Extends, IsChain, FirstHit, Missed;
    Shapes(dp);
    ghost var t, q := dp.Entries(), dp.Name();
    SearchFinds(up, q, t);
    res := dp.Sdi(0);
    if res != OK {
      return;
    }
    var st := BROKEN;
    var more := true;
    while more
      invariant dp.Valid() && dp.fs.View() == old(dp.fs.View()) && dp.chain == old(dp.chain)
      invariant dp.Entries() == t && dp.Name() == q
      invariant more ==> dp.At(dp.index) && dp.index < |t|
      invariant more ==> Search(up, q, t, dp.index, st) == Search(up, q, t, 0, BROKEN)
      invariant !more ==> if res == OK then dp.At(dp.index) && dp.index == Search(up, q, t, 0, BROKEN) < |t|
                          else res == NoFile && Search(up, q, t, 0, BROKEN) == |t|
      invariant WindowIn(old(dp.fs.winsect), dp.fs.winsect, dp.fs.g, dp.Secs())
      invariant CountKept(dp.fs)
      decreases more, |t| - dp.index
    {
      more, res, st := FindStep(dp, up, st);
    }
  }
}
