/** The mounted volume: its geometry, the drive below it and the one-sector
    write-back window that every FAT and directory access goes through. */
module Volume {
  import opened Arith

  datatype FsType = FAT12 | FAT16 | FAT32

  datatype FResult = OK | DiskErr | IntErr | NoFile | Denied | NotEnoughCore

  /** The fields of FATFS that mounting sets and nothing changes afterwards. */
  datatype Geom = Geom(
    fsType: FsType,
    ss: nat,          // bytes per sector
    csize: nat,       // sectors per cluster
    nFats: nat,       // number of FAT copies
    nRootdir: nat,    // entries of a static root directory (FAT12/16)
    nFatent: nat,     // number of clusters + 2
    fsize: nat,       // sectors per FAT
    volbase: nat,     // volume start sector
    fatbase: nat,     // first sector of the first FAT
    dirbase: nat,     // first sector (FAT32: first cluster) of the root directory
    database: nat)    // first data sector

  /** Bytes a FAT with n entries occupies. */
  function FatBytes(t: FsType, n: nat): nat {
    match t
    case FAT12 => n * 3 / 2 + n % 2
    case FAT16 => n * 2
    case FAT32 => n * 4
  }

  /** More entries than this and an end mark could be read as a cluster. */
  function MaxEntries(t: FsType): nat {
    match t
    case FAT12 => 0xFF7
    case FAT16 => 0xFFF7
    case FAT32 => 0x0FFF_FFF7
  }

  predicate SectorSize(ss: nat) {
    ss == 512 || ss == 1024 || ss == 2048 || ss == 4096
  }

  /** Sectors of all FAT copies together. */
  function FatArea(g: Geom): nat {
    if g.nFats == 2 then 2 * g.fsize else g.fsize
  }

  /** The areas of the volume follow each other on a drive of `total` sectors. */
  ghost predicate Layout(g: Geom, total: nat) {
    && 1 <= g.nFats <= 2
    && 1 <= g.fatbase
    && g.fatbase + FatArea(g) <= g.database <= total < W32
  }

  /** The FAT has room for its entries. */
  ghost predicate FatFits(g: Geom) {
    FatBytes(g.fsType, g.nFatent) <= g.fsize * g.ss
  }

  /** A drive of `total` sectors has room for the clusters. */
  ghost predicate DataFits(g: Geom, total: nat) {
    g.nFatent >= 2 && g.database + (g.nFatent - 2) * g.csize <= total
  }

  /** A static root directory lies between the FAT copies and the data, in whole sectors. */
  ghost predicate RootFits(g: Geom) {
    && g.ss >= 32
    && g.nRootdir % (g.ss / 32) == 0
    && (g.fsType != FAT32 ==>
          g.fatbase + FatArea(g) <= g.dirbase && g.dirbase + g.nRootdir / (g.ss / 32) <= g.database)
  }

  /** Sector, cluster and table sizes fit together. */
  ghost predicate Sizes(g: Geom, total: nat) {
    && SectorSize(g.ss)
    && IsPow2(g.csize) && 1 <= g.csize <= 128
    && 3 <= g.nFatent <= MaxEntries(g.fsType)
    && FatFits(g) && DataFits(g, total) && RootFits(g)
  }

  ghost predicate GeomOk(g: Geom, total: nat) {
    Layout(g, total) && Sizes(g, total)
  }

  type Sectors = seq<seq<Byte>>

  /** Sector s, empty when there is none. */
  function SecAt(sec: Sectors, s: nat): seq<Byte> {
    if s < |sec| then sec[s] else []
  }

  ghost predicate Uniform(v: Sectors, ss: nat) {
    forall s :: 0 <= s < |v| ==> |v[s]| == ss
  }

  /** Sector s lies in the first (the live) FAT copy. */
  predicate InFat(g: Geom, s: nat) {
    g.fatbase <= s < g.fatbase + g.fsize
  }

  /** Sector s lies in some FAT copy. */
  predicate InFatArea(g: Geom, s: nat) {
    g.fatbase <= s < g.fatbase + FatArea(g)
  }

  predicate InMirror(g: Geom, s: nat) {
    g.nFats == 2 && g.fatbase + g.fsize <= s < g.fatbase + 2 * g.fsize
  }

  /** Store `w` as sector s, and in the second FAT copy too when s belongs to the first. */
  function Store(v: Sectors, g: Geom, s: nat, w: seq<Byte>): (r: Sectors)
    ensures |r| == |v|
  {
    if s >= |v| then v
    else if g.nFats == 2 && InFat(g, s) && s + g.fsize < |v| then v[s := w][s + g.fsize := w]
    else v[s := w]
  }

  /** The drive as the file system means it: its sectors overlaid with a dirty window. */
  function Overlay(sec: Sectors, g: Geom, winsect: nat, win: seq<Byte>, dirty: bool): (v: Sectors)
    ensures |v| == |sec|
  {
    if dirty then Store(sec, g, winsect, win) else sec
  }

  /** Every sector of the second FAT copy equals its original. */
  ghost predicate Mirrored(v: Sectors, g: Geom) {
    g.nFats == 2 ==>
      forall s: nat :: InFat(g, s) && s + g.fsize < |v| ==> v[s + g.fsize] == v[s]
  }

  /** The two views agree outside the FAT copies. */
  ghost predicate SameOutsideFat(v: Sectors, v': Sectors, g: Geom) {
    && |v'| == |v|
    && forall s :: 0 <= s < |v| && !InFatArea(g, s) ==> v'[s] == v[s]
  }

  /** The two views agree outside the second FAT copy. */
  ghost predicate SameButMirror(v: Sectors, v': Sectors, g: Geom) {
    && |v'| == |v|
    && forall s :: 0 <= s < |v| && !InMirror(g, s) ==> v'[s] == v[s]
  }

  lemma StoreMirrored(v: Sectors, g: Geom, s: nat, w: seq<Byte>)
    requires Layout(g, |v|) && Mirrored(v, g) && !InMirror(g, s)
    ensures Mirrored(Store(v, g, s, w), g)
  {
  }

  /** n zero bytes. */
  function Zeros(n: nat): (z: seq<Byte>)
    ensures |z| == n && forall i :: 0 <= i < n ==> z[i] == 0
  {
    seq(n, _ => 0)
  }

  /** Chunk j of d, one sector long. */
  function Chunk(d: seq<Byte>, j: nat, ss: nat): seq<Byte> {
    if j * ss + ss <= |d| then d[j * ss..j * ss + ss] else []
  }

  /** v with cc sectors from s on overwritten by d. */
  function Blit(v: Sectors, s: nat, cc: nat, d: seq<Byte>, ss: nat): (r: Sectors)
    ensures |r| == |v|
    ensures forall i :: 0 <= i < |v| ==> r[i] == if s <= i < s + cc then Chunk(d, i - s, ss) else v[i]
  {
    seq(|v|, i requires 0 <= i < |v| => if s <= i < s + cc then Chunk(d, i - s, ss) else v[i])
  }

  /** Chunk j of d is sector s + j. */
  ghost predicate ChunkIs(d: seq<Byte>, v: Sectors, s: nat, j: nat, ss: nat) {
    s + j < |v| && Chunk(d, j, ss) == v[s + j]
  }

  /** d is cc sectors from s on, one after the other. */
  ghost predicate IsRun(d: seq<Byte>, v: Sectors, s: nat, cc: nat, ss: nat) {
    |d| == cc * ss && forall j: nat :: j < cc ==> ChunkIs(d, v, s, j, ss)
  }

  function Joined(v: Sectors, s: nat, cc: nat): (d: seq<Byte>)
    requires s + cc <= |v|
    decreases cc
  {
    if cc == 0 then [] else Joined(v, s, cc - 1) + v[s + cc - 1]
  }

  lemma ChunkAppend(d: seq<Byte>, e: seq<Byte>, cc: nat, ss: nat, j: nat)
    requires |d| == cc * ss && |e| == ss && j <= cc
    ensures Chunk(d + e, j, ss) == if j < cc then Chunk(d, j, ss) else e
  {
    MulMonotone(j, cc, ss);
    if j < cc {
      MulMonotone(j + 1, cc, ss);
      assert (j + 1) * ss == j * ss + ss;
      assert (d + e)[j * ss..j * ss + ss] == d[j * ss..j * ss + ss];
    } else {
      assert (d + e)[j * ss..j * ss + ss] == e;
    }
  }

  lemma {:induction false} JoinedIsRun(v: Sectors, s: nat, cc: nat, ss: nat)
    requires s + cc <= |v| && Uniform(v, ss)
    ensures IsRun(Joined(v, s, cc), v, s, cc, ss)
    decreases cc
  {
    if cc == 0 {
    } else {
      JoinedIsRun(v, s, cc - 1, ss);
      var d, e := Joined(v, s, cc - 1), v[s + cc - 1];
      assert cc * ss == (cc - 1) * ss + ss;
      hide Chunk;
      forall j: nat | j < cc ensures ChunkIs(d + e, v, s, j, ss) {
        ChunkAppend(d, e, cc - 1, ss, j);
        assert j < cc - 1 ==> ChunkIs(d, v, s, j, ss);
      }
    }
  }

  /** mem_cpy of d to buf + off. */
  method CopyIn(buf: array<Byte>, off: nat, d: seq<Byte>)
    requires off + |d| <= buf.Length
    modifies buf
    ensures buf[..] == old(buf[..off]) + d + old(buf[off + |d|..])
    ensures buf[..off] == old(buf[..off]) && buf[off..off + |d|] == d && buf[off + |d|..] == old(buf[off + |d|..])
  {
    forall i | 0 <= i < |d| {
      buf[off + i] := d[i];
    }
  }

  /** The physical drive. Its operations may fail at any time unless it is `reliable`. */
  class Disk {
    const ss: nat
    const reliable: bool
    var sec: Sectors

    constructor (ss: nat, reliable: bool, sec: Sectors)
      ensures this.ss == ss && this.reliable == reliable && this.sec == sec
    {
      this.ss, this.reliable, this.sec := ss, reliable, sec;
    }

    /** disk_read of one sector. */
    method Read(buf: array<Byte>, s: nat) returns (ok: bool)
      requires buf.Length == ss && Uniform(sec, ss)
      modifies buf
      ensures ok ==> s < |sec| && buf[..] == sec[s]
      ensures reliable && s < |sec| ==> ok
    {
      ok := *;
      ok := (ok || reliable) && s < |sec|;
      if ok {
        var data := sec[s];
        forall i | 0 <= i < ss {
          buf[i] := data[i];
        }
        assert buf[..] == data;
      }
    }

    /** disk_read of cc sectors to buf[off..]. */
    method ReadMany(buf: array<Byte>, off: nat, s: nat, cc: nat) returns (ok: bool)
      requires Uniform(sec, ss) && off + cc * ss <= buf.Length
      modifies buf
      ensures ok ==> IsRun(buf[off..off + cc * ss], sec, s, cc, ss)
      ensures buf[..off] == old(buf[..off]) && buf[off + cc * ss..] == old(buf[off + cc * ss..])
      ensures reliable && s + cc <= |sec| ==> ok
    {
      ok := *;
      ok := (ok || reliable) && s + cc <= |sec|;
      if ok {
        var d := Joined(sec, s, cc);
        JoinedIsRun(sec, s, cc, ss);
        CopyIn(buf, off, d);
      }
    }

    /** disk_write of cc sectors. */
    method WriteMany(d: seq<Byte>, s: nat, cc: nat) returns (ok: bool)
      requires |d| == cc * ss
      modifies this
      ensures ok ==> s + cc <= |old(sec)| && sec == Blit(old(sec), s, cc, d, ss)
      ensures !ok ==> sec == old(sec)
      ensures reliable && s + cc <= |sec| ==> ok
    {
      ok := *;
      ok := (ok || reliable) && s + cc <= |sec|;
      if ok {
        sec := Blit(sec, s, cc, d, ss);
      }
    }

    /** disk_write of one sector. */
    method Write(buf: array<Byte>, s: nat) returns (ok: bool)
      requires buf.Length == ss
      modifies this
      ensures ok ==> s < |old(sec)| && sec == old(sec)[s := buf[..]]
      ensures !ok ==> sec == old(sec)
      ensures reliable && s < |sec| ==> ok
    {
      ok := *;
      ok := (ok || reliable) && s < |sec|;
      if ok {
        sec := sec[s := buf[..]];
      }
    }
  }

  class FATFS {
    const g: Geom
    const disk: Disk
    const win: array<Byte>
    var winsect: nat     // sector appearing in win, 0xFFFFFFFF when none does
    var wflag: bool      // win holds data not yet on the drive
    var lastClust: nat   // last allocated cluster
    var freeClust: nat   // number of free clusters, 0xFFFFFFFF when unknown
    var fsiDirty: bool   // FSINFO is to be updated

    ghost predicate Valid()
      reads this`winsect, this`wflag, disk, win
    {
      && GeomOk(g, |disk.sec|)
      && disk.ss == g.ss == win.Length
      && Uniform(disk.sec, g.ss)
      && winsect < W32 && !InMirror(g, winsect)
      && (wflag ==> winsect < |disk.sec|)
      && (!wflag && winsect < |disk.sec| ==> win[..] == disk.sec[winsect])
    }

    ghost function View(): (v: Sectors)
      reads this`winsect, this`wflag, disk, win
    {
      Overlay(disk.sec, g, winsect, win[..], wflag)
    }

    constructor (g: Geom, disk: Disk)
      requires GeomOk(g, |disk.sec|) && disk.ss == g.ss && Uniform(disk.sec, g.ss)
      ensures Valid() && fresh(win) && this.g == g && this.disk == disk
      ensures View() == disk.sec
      ensures lastClust == freeClust == 0xFFFF_FFFF
    {
      this.g, this.disk := g, disk;
      win := new Byte[g.ss](_ => 0);
      winsect, wflag := 0xFFFF_FFFF, false;
      lastClust, freeClust, fsiDirty := 0xFFFF_FFFF, 0xFFFF_FFFF, false;
    }

    /** Write back the window if it is dirty, to every FAT copy when it shows a FAT sector. */
    method SyncWindow() returns (res: FResult)
      requires Valid()
      modifies this`wflag, disk
      ensures Valid() && |disk.sec| == old(|disk.sec|)
      ensures res == OK || res == DiskErr
      ensures disk.reliable ==> res == OK
      // the overlaid drive is unchanged, up to a mirror copy whose write failed
      ensures disk.reliable ==> View() == old(View())
      ensures SameButMirror(old(View()), View(), g)
      // nothing is left in the window only
      ensures res == OK ==> !wflag && disk.sec == View()
      ensures res != OK ==> wflag && disk.sec == old(disk.sec)
    {
      hide Sizes;
      res := OK;
      if wflag {
        var ok := disk.Write(win, winsect);
        if !ok {
          res := DiskErr;
        } else {
          wflag := false;
          RangeTest(winsect, g.fatbase, g.fsize);
          if Sub32(winsect, g.fatbase) < g.fsize {
            WriteMirrors();
          }
        }
      }
    }

    /** The mirror loop of sync_window: repeat the write for each further FAT copy. */
    method WriteMirrors()
      requires Layout(g, |disk.sec|) && InFat(g, winsect) && disk.ss == win.Length
      modifies disk
      ensures g.nFats == 1 ==> disk.sec == old(disk.sec)
      ensures g.nFats == 2 ==> winsect + g.fsize < |old(disk.sec)|
      ensures disk.sec == old(disk.sec)
           || (g.nFats == 2 && disk.sec == old(disk.sec)[winsect + g.fsize := win[..]])
      ensures disk.reliable && g.nFats == 2 ==> disk.sec == old(disk.sec)[winsect + g.fsize := win[..]]
    {
      var wsect := winsect;
      var nf := g.nFats;
      while nf >= 2
        invariant nf == g.nFats || (nf == 1 && g.nFats == 2)
        invariant wsect == if nf == g.nFats then winsect else winsect + g.fsize
        invariant nf == g.nFats ==> disk.sec == old(disk.sec)
        invariant disk.sec == old(disk.sec)
               || (g.nFats == 2 && disk.sec == old(disk.sec)[winsect + g.fsize := win[..]])
        invariant nf < g.nFats && disk.reliable ==> disk.sec == old(disk.sec)[winsect + g.fsize := win[..]]
      {
        wsect := wsect + g.fsize;
        var ok := disk.Write(win, wsect);
        nf := nf - 1;
      }
    }

    /** Make `sector` appear in the window. */
    method MoveWindow(sector: nat) returns (res: FResult)
      requires Valid() && sector < W32 && !InMirror(g, sector)
      modifies this`wflag, this`winsect, win, disk
      ensures Valid() && |disk.sec| == old(|disk.sec|)
      ensures res == OK || res == DiskErr
      ensures disk.reliable && sector < |disk.sec| ==> res == OK
      ensures disk.reliable ==> View() == old(View())
      ensures SameButMirror(old(View()), View(), g)
      ensures res == OK ==> winsect == sector
      ensures res == OK && sector < |disk.sec| ==> win[..] == View()[sector]
    {
      hide Sizes;
      res := OK;
      if sector != winsect {
        res := SyncWindow();
        if res == OK {
          var target := sector;
          var ok := disk.Read(win, sector);
          if !ok {
            target := 0xFFFF_FFFF;
            res := DiskErr;
          }
          winsect := target;
        }
      }
    }
  }
}
