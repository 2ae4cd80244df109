/** The table of open-object locks: chk_lock, enq_lock, inc_lock, dec_lock, clear_lock. */
module LockTable {

  /** One FILESEM: the volume (0 for a blank slot), the directory cluster, the entry's index
      and the counter (0x100 for an object open for writing). */
  datatype Slot = Slot(fs: nat, clu: nat, idx: nat, ctr: nat)

  /** An object on a volume. */
  datatype Key = Key(fs: nat, clu: nat, idx: nat)

  const WRITE_OPEN: nat := 0x100

  datatype Verdict = Ok | Locked | TooManyOpenFiles | IntErr

  function KeyOf(s: Slot): Key {
    Key(s.fs, s.clu, s.idx)
  }

  predicate Blank(s: Slot) {
    s.fs == 0
  }

  /** Slot s counts the opens of its object: either one writer or 1 to 255 readers. */
  ghost predicate Counts(s: Slot, readers: multiset<Key>, writers: multiset<Key>) {
    || (s.ctr == WRITE_OPEN && writers[KeyOf(s)] == 1 && readers[KeyOf(s)] == 0)
    || (1 <= s.ctr < WRITE_OPEN && readers[KeyOf(s)] == s.ctr && writers[KeyOf(s)] == 0)
  }

  ghost predicate OneSlotEach(t: seq<Slot>) {
    forall i, j :: 0 <= i < j < |t| && !Blank(t[i]) && !Blank(t[j]) ==> KeyOf(t[i]) != KeyOf(t[j])
  }

  ghost predicate HasSlot(t: seq<Slot>, k: Key) {
    exists i :: 0 <= i < |t| && !Blank(t[i]) && KeyOf(t[i]) == k
  }

  ghost predicate HasBlank(t: seq<Slot>) {
    exists i :: 0 <= i < |t| && Blank(t[i])
  }

  ghost predicate NothingElse(t: seq<Slot>, readers: multiset<Key>, writers: multiset<Key>) {
    forall k :: k in readers || k in writers ==> HasSlot(t, k)
  }

  /** The table stands for the outstanding opens: at most one slot per object, each object with
      one writer or only readers, counters exact, and a slot for whatever is open. */
  ghost predicate Consistent(t: seq<Slot>, readers: multiset<Key>, writers: multiset<Key>) {
    && OneSlotEach(t)
    && (forall i :: 0 <= i < |t| && !Blank(t[i]) ==> Counts(t[i], readers, writers))
    && NothingElse(t, readers, writers)
  }

  /** An object is open exactly if it has a slot. */
  lemma OpenHasSlot(t: seq<Slot>, readers: multiset<Key>, writers: multiset<Key>, k: Key)
    requires Consistent(t, readers, writers)
    ensures HasSlot(t, k) <==> k in readers || k in writers
  {
    if HasSlot(t, k) {
      var i :| 0 <= i < |t| && !Blank(t[i]) && KeyOf(t[i]) == k;
      assert Counts(t[i], readers, writers);
    }
  }

  /** Only one handle writes, or all handles read. */
  lemma WriterExcludes(t: seq<Slot>, readers: multiset<Key>, writers: multiset<Key>, k: Key)
    requires Consistent(t, readers, writers)
    ensures writers[k] <= 1 && (writers[k] == 1 ==> readers[k] == 0) && readers[k] <= 255
  {
    if k in readers || k in writers {
      assert HasSlot(t, k);
      var i :| 0 <= i < |t| && !Blank(t[i]) && KeyOf(t[i]) == k;
      assert Counts(t[i], readers, writers);
    }
  }

  /** A blank slot becomes the slot of an object that was not open. */
  lemma Registered(t: seq<Slot>, readers: multiset<Key>, writers: multiset<Key>, i: nat, k: Key, write: bool)
    requires Consistent(t, readers, writers) && i < |t| && Blank(t[i]) && !HasSlot(t, k) && k.fs != 0
    ensures var t' := t[i := Slot(k.fs, k.clu, k.idx, if write then WRITE_OPEN else 1)];
      Consistent(t', if write then readers else readers + multiset{k}, if write then writers + multiset{k} else writers)
  {
    var t' := t[i := Slot(k.fs, k.clu, k.idx, if write then WRITE_OPEN else 1)];
    var r' := if write then readers else readers + multiset{k};
    var w' := if write then writers + multiset{k} else writers;
    OpenHasSlot(t, readers, writers, k);
    assert KeyOf(t'[i]) == k;
    forall j | 0 <= j < |t| && j != i && !Blank(t[j])
      ensures KeyOf(t[j]) != k && Counts(t[j], r', w')
    {
      assert HasSlot(t, KeyOf(t[j]));
      assert Counts(t[j], readers, writers);
    }
    forall x | x in r' || x in w'
      ensures HasSlot(t', x)
    {
      if x != k {
        assert HasSlot(t, x);
        var j :| 0 <= j < |t| && !Blank(t[j]) && KeyOf(t[j]) == x;
        assert t'[j] == t[j];
      } else {
        assert !Blank(t'[i]);
      }
    }
  }

  /** One more reader of an open object keeps the table exact if and only if nobody writes it and there
      were fewer than 255 readers: the 256th count is the mark of a writer. */
  lemma ReaderAdded(t: seq<Slot>, readers: multiset<Key>, writers: multiset<Key>, i: nat)
    requires Consistent(t, readers, writers) && i < |t| && !Blank(t[i])
    ensures var k := KeyOf(t[i]);
      Consistent(t[i := t[i].(ctr := t[i].ctr + 1)], readers + multiset{k}, writers)
      <==> k !in writers && readers[k] < 255
  {
    var k := KeyOf(t[i]);
    var t' := t[i := t[i].(ctr := t[i].ctr + 1)];
    var r' := readers + multiset{k};
    assert Counts(t[i], readers, writers);
    Recounted(t, t', i);
    if k !in writers && readers[k] < 255 {
      forall j | 0 <= j < |t| && j != i && !Blank(t[j])
        ensures Counts(t[j], r', writers)
      {
        assert Counts(t[j], readers, writers);
        assert KeyOf(t[j]) != k;
      }
    } else {
      assert !Counts(t'[i], r', writers);
    }
  }

  /** A table with 255 readers of one object, and the 256th. */
  lemma TooManyReaders(k: Key)
    requires k.fs != 0
    ensures var readers: multiset<Key> := multiset{}[k := 255];
      && Consistent([Slot(k.fs, k.clu, k.idx, 255)], readers, multiset{})
      && !Consistent([Slot(k.fs, k.clu, k.idx, 256)], readers + multiset{k}, multiset{})
  {
    var t, readers: multiset<Key> := [Slot(k.fs, k.clu, k.idx, 255)], multiset{}[k := 255];
    assert KeyOf(t[0]) == k && HasSlot(t, k);
    ReaderAdded(t, readers, multiset{}, 0);
    assert t[0 := t[0].(ctr := 256)] == [Slot(k.fs, k.clu, k.idx, 256)];
  }

  /** Changing a counter leaves keys and slots alone. */
  lemma Recounted(t: seq<Slot>, t': seq<Slot>, i: nat)
    requires |t'| == |t| && i < |t| && KeyOf(t'[i]) == KeyOf(t[i])
    requires forall j :: 0 <= j < |t| && j != i ==> t'[j] == t[j]
    ensures OneSlotEach(t) ==> OneSlotEach(t')
    ensures forall k :: HasSlot(t, k) ==> HasSlot(t', k)
  {
    forall k | HasSlot(t, k)
      ensures HasSlot(t', k)
    {
      var j :| 0 <= j < |t| && !Blank(t[j]) && KeyOf(t[j]) == k;
      assert !Blank(t'[j]) && KeyOf(t'[j]) == k;
    }
  }

  /** Slot s after one of its opens is closed. */
  function Decremented(s: Slot): Slot {
    var n := if s.ctr == WRITE_OPEN then 0 else s.ctr;
    var n := if n == 0 then 0 else n - 1;
    s.(ctr := n, fs := if n == 0 then 0 else s.fs)
  }

  /** Closing one open of slot i's object. */
  lemma Closed(t: seq<Slot>, readers: multiset<Key>, writers: multiset<Key>, i: nat)
    requires Consistent(t, readers, writers) && i < |t| && !Blank(t[i])
    ensures var k := KeyOf(t[i]);
      Consistent(t[i := Decremented(t[i])], readers - multiset{k}, writers - multiset{k})
    ensures var k := KeyOf(t[i]); readers[k] + writers[k] >= 1
  {
    var k := KeyOf(t[i]);
    var s' := Decremented(t[i]);
    var t' := t[i := s'];
    var r', w' := readers - multiset{k}, writers - multiset{k};
    assert Counts(t[i], readers, writers);
    forall j | 0 <= j < |t| && j != i && !Blank(t[j])
      ensures KeyOf(t[j]) != k && Counts(t[j], r', w')
    {
      assert Counts(t[j], readers, writers);
    }
    forall x | x in r' || x in w'
      ensures HasSlot(t', x)
    {
      assert HasSlot(t, x);
      var j :| 0 <= j < |t| && !Blank(t[j]) && KeyOf(t[j]) == x;
      assert !Blank(t'[j]) && KeyOf(t'[j]) == x;
    }
  }

  /** Blanking slot i forgets all opens of its object. */
  lemma Dropped(t: seq<Slot>, readers: multiset<Key>, writers: multiset<Key>, i: nat)
    requires Consistent(t, readers, writers) && i < |t| && !Blank(t[i])
    ensures var k := KeyOf(t[i]);
      Consistent(t[i := t[i].(fs := 0)], readers[k := 0], writers[k := 0])
  {
    var k := KeyOf(t[i]);
    var t' := t[i := t[i].(fs := 0)];
    forall j | 0 <= j < |t| && j != i && !Blank(t[j])
      ensures KeyOf(t[j]) != k && Counts(t[j], readers[k := 0], writers[k := 0])
    {
      assert Counts(t[j], readers, writers);
    }
    forall x | x in readers[k := 0] || x in writers[k := 0]
      ensures HasSlot(t', x)
    {
      assert HasSlot(t, x);
      var j :| 0 <= j < |t| && !Blank(t[j]) && KeyOf(t[j]) == x;
      assert t'[j] == t[j];
    }
  }

  class Locks {
    const files: array<Slot>
    ghost var readers: multiset<Key>   // outstanding opens for reading
    ghost var writers: multiset<Key>   // outstanding opens for writing

    ghost predicate Valid()
      reads this, files
    {
      Consistent(files[..], readers, writers)
    }

    /** The number of slots is the configuration's _FS_LOCK. */
    constructor (size: nat)
      ensures Valid() && fresh(files) && files.Length == size
      ensures readers == writers == multiset{}
    {
      files := new Slot[size](_ => Slot(0, 0, 0, 0));
      readers, writers := multiset{}, multiset{};
    }

    /** The table search of chk_lock and inc_lock. */
    method Find(k: Key) returns (i: nat, be: bool)
      requires k.fs != 0
      ensures i <= files.Length
      ensures i < files.Length <==> HasSlot(files[..], k)
      ensures i < files.Length ==> !Blank(files[i]) && KeyOf(files[i]) == k
      ensures i == files.Length ==> (be <==> HasBlank(files[..]))
    {
      i, be := 0, false;
      while i < files.Length
        invariant i <= files.Length
        invariant forall j :: 0 <= j < i ==> Blank(files[j]) || KeyOf(files[j]) != k
        invariant be <==> exists j :: 0 <= j < i && Blank(files[j])
      {
        if files[i].fs != 0 {
          if KeyOf(files[i]) == k {
            assert files[..][i] == files[i];
            return;
          }
        } else {
          be := true;
        }
        i := i + 1;
      }
      if be {
        var j :| 0 <= j < i && Blank(files[j]);
        assert Blank(files[..][j]);
      }
    }

    /** chk_lock: may the object be opened with access acc (0: read, 1: write, 2: delete or rename)? */
    method ChkLock(k: Key, acc: nat) returns (res: Verdict)
      requires Valid() && k.fs != 0
      ensures res == if k in readers || k in writers then (if acc != 0 || k in writers then Locked else Ok)
                     else if HasBlank(files[..]) || acc == 2 then Ok else TooManyOpenFiles
    {
      hide Consistent, HasBlank, HasSlot;
      OpenHasSlot(files[..], readers, writers, k);
      var i, be := Find(k);
      if i == files.Length {
        return if be || acc == 2 then Ok else TooManyOpenFiles;
      }
      CounterMeans(files[..], readers, writers, i);
      return if acc != 0 || files[i].ctr == 0x100 then Locked else Ok;
    }

    /** enq_lock: is there a slot for a new object? */
    method EnqLock() returns (ok: bool)
      ensures ok <==> HasBlank(files[..])
    {
      var i := FirstBlank();
      ok := i != files.Length;
    }

    method FirstBlank() returns (i: nat)
      ensures i <= files.Length && (i < files.Length <==> HasBlank(files[..]))
      ensures i < files.Length ==> Blank(files[i])
    {
      i := 0;
      while i < files.Length && files[i].fs != 0
        invariant i <= files.Length
        invariant forall j :: 0 <= j < i ==> !Blank(files[j])
      {
        i := i + 1;
      }
      assert i < files.Length ==> Blank(files[..][i]);
    }

    /** inc_lock: count one more open; 0 when it cannot be counted. The table stays consistent if and only if a
        reader joined neither a writer, which chk_lock prevents, nor 255 other readers. */
    method IncLock(k: Key, acc: nat) returns (r: nat)
      requires Valid() && k.fs != 0
      modifies this, files
      ensures Valid() <==> r == 0 || acc != 0 || (old(k !in writers) && old(readers)[k] < 255)
      ensures r == 0 <==> if old(k in readers || k in writers) then acc != 0 else !old(HasBlank(files[..]))
      ensures r == 0 ==> files[..] == old(files[..]) && readers == old(readers) && writers == old(writers)
      ensures r != 0 ==>
                && r <= files.Length && !Blank(files[r - 1]) && KeyOf(files[r - 1]) == k
                && readers == (if acc == 0 then old(readers) + multiset{k} else old(readers))
                && writers == (if acc == 0 then old(writers) else old(writers) + multiset{k})
      ensures forall j :: 0 <= j < files.Length && j != r - 1 ==> files[j] == old(files[j])
    {
      hide Consistent, HasBlank, HasSlot;
      OpenHasSlot(files[..], readers, writers, k);
      var i, be := Find(k);
      ghost var t := files[..];
      if i == files.Length {
        i := FirstBlank();
        if i == files.Length {
          return 0;
        }
        Registered(t, readers, writers, i, k, acc != 0);
        files[i] := Slot(k.fs, k.clu, k.idx, 0);
      } else {
        CounterMeans(t, readers, writers, i);
        ReaderAdded(t, readers, writers, i);
      }
      if acc != 0 && files[i].ctr != 0 {
        return 0;
      }
      files[i] := files[i].(ctr := if acc != 0 then 0x100 else files[i].ctr + 1);
      assert files[..] == t[i := files[i]];
      readers := if acc == 0 then readers + multiset{k} else readers;
      writers := if acc == 0 then writers else writers + multiset{k};
      r := i + 1;
    }

    /** How f_open uses the table on an existing object: chk_lock, then inc_lock. A verdict of Ok
        never ends in the internal error 0. Only the 256th reader of an object spoils the table. */
    method Open(k: Key, acc: nat) returns (res: Verdict, id: nat)
      requires Valid() && k.fs != 0 && acc <= 1
      modifies this, files
      ensures Valid() <==> !(res == Ok && acc == 0 && old(readers)[k] >= 255)
      ensures res == if old(k in writers) || (acc == 1 && old(k in readers)) then Locked
                     else if old(k in readers) || old(HasBlank(files[..])) then Ok else TooManyOpenFiles
      ensures res == Ok <==> id != 0
      ensures readers == if res == Ok && acc == 0 then old(readers) + multiset{k} else old(readers)
      ensures writers == if res == Ok && acc == 1 then old(writers) + multiset{k} else old(writers)
      ensures res == Ok ==> id <= files.Length && !Blank(files[id - 1]) && KeyOf(files[id - 1]) == k
    {
      hide Consistent, HasBlank, HasSlot;
      id := 0;
      res := ChkLock(k, acc);
      if res == Ok {
        id := IncLock(k, acc);
        if id == 0 {
          res := IntErr;
        }
      }
    }

    /** dec_lock: close one open of the object in slot i - 1. */
    method DecLock(i: nat) returns (res: Verdict)
      requires Valid()
      modifies this, files
      ensures Valid()
      ensures res == if 1 <= i <= files.Length then Ok else IntErr
      ensures res == Ok && old(!Blank(files[i - 1])) ==>
                && var k := old(KeyOf(files[i - 1]));
                && old(readers)[k] + old(writers)[k] >= 1
                && readers == old(readers) - multiset{k} && writers == old(writers) - multiset{k}
                && (Blank(files[i - 1]) <==> k !in readers && k !in writers)
      ensures res != Ok || old(Blank(files[i - 1])) ==> readers == old(readers) && writers == old(writers)
      ensures forall j :: 0 <= j < files.Length && j != i - 1 ==> files[j] == old(files[j])
    {
      hide Consistent;
      if 1 <= i && i - 1 < files.Length {
        ghost var t, s := files[..], files[i - 1];
        Decrement(i - 1);
        assert files[..] == t[i - 1 := Decremented(s)];
        if !Blank(s) {
          Closed(t, readers, writers, i - 1);
          SlotGone(t, readers, writers, i - 1);
          readers, writers := readers - multiset{KeyOf(s)}, writers - multiset{KeyOf(s)};
        } else {
          BlankStays(t, readers, writers, i - 1);
        }
        res := Ok;
      } else {
        res := IntErr;
      }
    }

    method Decrement(i: nat)
      requires i < files.Length
      modifies files
      ensures files[i] == Decremented(old(files[i]))
      ensures forall j :: 0 <= j < files.Length && j != i ==> files[j] == old(files[j])
    {
      var n := files[i].ctr;
      if n == 0x100 {
        n := 0;
      }
      if n != 0 {
        n := n - 1;
      }
      files[i] := files[i].(ctr := n);
      if n == 0 {
        files[i] := files[i].(fs := 0);
      }
    }

    /** clear_lock: forget everything that is open on the volume. */
    method ClearLock(fs: nat)
      requires Valid() && fs != 0
      modifies this, files
      ensures Valid()
      ensures forall k: Key :: readers[k] == (if k.fs == fs then 0 else old(readers[k]))
      ensures forall k: Key :: writers[k] == (if k.fs == fs then 0 else old(writers[k]))
    {
      hide Consistent, HasSlot;
      var i := 0;
      while i < files.Length
        invariant 0 <= i <= files.Length && Valid()
        invariant forall j :: 0 <= j < i ==> files[j].fs != fs
        invariant forall k: Key :: k.fs != fs ==> readers[k] == old(readers[k]) && writers[k] == old(writers[k])
      {
        if files[i].fs == fs {
          ghost var k := KeyOf(files[i]);
          Dropped(files[..], readers, writers, i);
          readers, writers := readers[k := 0], writers[k := 0];
          files[i] := files[i].(fs := 0);
        }
        i := i + 1;
      }
      forall k: Key | k.fs == fs
        ensures readers[k] == writers[k] == 0
      {
        NotListed(files[..], readers, writers, k);
      }
    }
  }

  lemma CounterMeans(t: seq<Slot>, readers: multiset<Key>, writers: multiset<Key>, i: nat)
    requires Consistent(t, readers, writers) && i < |t| && !Blank(t[i])
    ensures t[i].ctr != 0 && (t[i].ctr == WRITE_OPEN <==> KeyOf(t[i]) in writers)
  {
    assert Counts(t[i], readers, writers);
  }

  /** The slot is blank again exactly when its object is no longer open. */
  lemma SlotGone(t: seq<Slot>, readers: multiset<Key>, writers: multiset<Key>, i: nat)
    requires Consistent(t, readers, writers) && i < |t| && !Blank(t[i])
    ensures var k := KeyOf(t[i]);
      Blank(Decremented(t[i])) <==> k !in readers - multiset{k} && k !in writers - multiset{k}
  {
    assert Counts(t[i], readers, writers);
  }

  lemma BlankStays(t: seq<Slot>, readers: multiset<Key>, writers: multiset<Key>, i: nat)
    requires Consistent(t, readers, writers) && i < |t| && Blank(t[i])
    ensures Consistent(t[i := Decremented(t[i])], readers, writers)
  {
    var t' := t[i := Decremented(t[i])];
    forall k | k in readers || k in writers
      ensures HasSlot(t', k)
    {
      assert HasSlot(t, k);
      var j :| 0 <= j < |t| && !Blank(t[j]) && KeyOf(t[j]) == k;
      assert t'[j] == t[j];
    }
  }

  lemma NotListed(t: seq<Slot>, readers: multiset<Key>, writers: multiset<Key>, k: Key)
    requires Consistent(t, readers, writers) && k.fs != 0
    requires forall j :: 0 <= j < |t| ==> t[j].fs != k.fs
    ensures readers[k] == writers[k] == 0
  {
    assert forall j :: 0 <= j < |t| ==> KeyOf(t[j]) != k;
    assert !HasSlot(t, k);
  }
}
