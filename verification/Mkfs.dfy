/** f_mkfs: writing the boot sector, the FAT and the root directory to the drive. */
module Mkfs {
  import opened Arith
  import opened Volume
  import opened FatCodec
  import opened Chains
  import opened Mount
  import opened Format

  // ----- the sector buffer -----

  /** `mem_set(tbl, 0, SS)`. */
  method Clear(buf: array<Byte>)
    modifies buf
    ensures buf[..] == Zeros(buf.Length)
  {
    forall i | 0 <= i < buf.Length {
      buf[i] := 0;
    }
  }

  /** `mem_cpy` of d to offset o. */
  method Put(buf: array<Byte>, o: nat, d: seq<Byte>)
    requires o + |d| <= buf.Length
    modifies buf
    ensures forall k :: 0 <= k < |d| ==> buf[o + k] == d[k]
    ensures forall k :: 0 <= k < buf.Length && !(o <= k < o + |d|) ==> buf[k] == old(buf[k])
  {
    forall k | 0 <= k < |d| {
      buf[o + k] := d[k];
    }
  }

  /** ST_WORD. */
  method St16(buf: array<Byte>, o: nat, w: nat)
    requires o + 2 <= buf.Length && w < 0x1_0000
    modifies buf
    ensures Ld16(buf[..], o) == w
    ensures forall k :: 0 <= k < buf.Length && !(o <= k < o + 2) ==> buf[k] == old(buf[k])
  {
    buf[o] := w % 256;
    buf[o + 1] := w / 256 % 256;
    Split16(w);
  }

  /** ST_DWORD. */
  method St32(buf: array<Byte>, o: nat, w: nat)
    requires o + 4 <= buf.Length && w < W32
    modifies buf
    ensures Ld32(buf[..], o) == w
    ensures forall k :: 0 <= k < buf.Length && !(o <= k < o + 4) ==> buf[k] == old(buf[k])
  {
    hide LdDword;
    buf[o] := w % 256;
    buf[o + 1] := w / 256 % 256;
    buf[o + 2] := w / 0x1_0000 % 256;
    buf[o + 3] := w / 0x100_0000 % 256;
    Split32(w);
  }

  lemma Split32(w: nat)
    requires w < W32
    ensures LdDword(w % 256, w / 256 % 256, w / 0x1_0000 % 256, w / 0x100_0000 % 256) == w
  {
    HighLow(w, 256, 256);
    HighLow(w, 0x1_0000, 256);
    HighLow(w, 0x100_0000, 256);
    Below(w);
  }

  lemma Below(w: nat)
    requires w < W32
    ensures w % 0x1_0000_0000 == w
  {
  }

  /** A field depends on its own bytes only. */
  lemma SameField(a: seq<Byte>, b: seq<Byte>, o: nat)
    requires |a| == |b|
    ensures o + 2 <= |a| && a[o] == b[o] && a[o + 1] == b[o + 1] ==> Ld16(a, o) == Ld16(b, o)
    ensures o + 4 <= |a| && (forall k :: o <= k < o + 4 ==> a[k] == b[k]) ==> Ld32(a, o) == Ld32(b, o)
  {
  }

  // ----- the boot sector -----

  /** The boot sector's fields up to the root directory size. */
  ghost predicate Start(b: seq<Byte>, p: Plan, ss: nat) {
    |b| == ss && ss >= 512 && Ld16(b, 11) == ss && b[13] == p.au && Ld16(b, 14) == p.nRsv && b[16] == 1
    && Ld16(b, 17) == RootEntries(p)
  }

  /** Jump code and OEM name, media byte, drive geometry, first sector of the volume and its size. */
  ghost predicate Common(b: seq<Byte>, nVol: nat, bVol: nat, md: Byte) {
    && |b| >= 512 && (forall k :: 0 <= k < 11 ==> b[k] == OEM[k]) && b[21] == md
    && Ld16(b, 24) == 63 && Ld16(b, 26) == 255 && Ld32(b, 28) == bVol
    && Ld16(b, 19) == (if nVol < 65536 then nVol else 0) && Ld32(b, 32) == (if nVol < 65536 then 0 else nVol)
  }

  /** "MSDOS5.0" behind a jump to itself. */
  const OEM: seq<Byte> := [0xEB, 0xFE, 0x90, 77, 83, 68, 79, 83, 53, 46, 48]

  lemma CommonKept(a: seq<Byte>, b: seq<Byte>, nVol: nat, bVol: nat, md: Byte)
    requires Common(a, nVol, bVol, md) && |b| == |a| && forall k :: 0 <= k < 36 && k != 22 && k != 23 ==> b[k] == a[k]
    ensures Common(b, nVol, bVol, md)
  {
    hide Ld16, Ld32;
    SameField(a, b, 19);
    SameField(a, b, 24);
    SameField(a, b, 26);
    SameField(a, b, 28);
    SameField(a, b, 32);
  }

  /** Number of sectors of the volume. */
  function TotalOf(b: seq<Byte>): nat {
    if Ld16(b, 19) != 0 then Ld16(b, 19) else Ld32(b, 32)
  }

  /** The fields both kinds of boot sector share, and nothing beyond them. */
  ghost predicate Head(b: seq<Byte>, p: Plan, nVol: nat, ss: nat) {
    && Start(b, p, ss) && TotalOf(b) == nVol && b[22] == b[23] == 0
    && forall k :: 36 <= k < ss ==> b[k] == 0
  }

  lemma StartKept(a: seq<Byte>, b: seq<Byte>, p: Plan, ss: nat)
    requires Start(a, p, ss) && |b| == ss && forall k :: 11 <= k < 19 ==> b[k] == a[k]
    ensures Start(b, p, ss)
  {
    hide Ld16;
    SameField(a, b, 11);
    SameField(a, b, 14);
    SameField(a, b, 17);
  }

  lemma TotalKept(a: seq<Byte>, b: seq<Byte>)
    requires |a| == |b| >= 512 && a[19] == b[19] && a[20] == b[20] && forall k :: 32 <= k < 36 ==> b[k] == a[k]
    ensures TotalOf(a) == TotalOf(b)
  {
    hide Ld16, Ld32;
    SameField(a, b, 19);
    SameField(a, b, 32);
  }

  method PutStart(tbl: array<Byte>, p: Plan, ss: nat)
    requires tbl.Length == ss && SectorSize(ss) && 1 <= p.nRsv < 0x1_0000 && p.au < 256
    modifies tbl
    ensures Start(tbl[..], p, ss) && forall k :: 19 <= k < ss ==> tbl[k] == 0
    ensures forall k :: 0 <= k < 11 ==> tbl[k] == OEM[k]
  {
    hide LdWord;
    Clear(tbl);
    Put(tbl, 0, [0xEB, 0xFE, 0x90, 0x4D, 0x53, 0x44, 0x4F, 0x53, 0x35, 0x2E, 0x30]);
    St16(tbl, 11, ss);
    tbl[13] := p.au;
    St16(tbl, 14, p.nRsv);
    tbl[16] := 1;
    St16(tbl, 17, RootEntries(p));
  }

  method PutHead(tbl: array<Byte>, p: Plan, nVol: nat, bVol: nat, ss: nat, md: Byte)
    requires tbl.Length == ss && SectorSize(ss) && 1 <= p.nRsv < 0x1_0000 && p.au < 256 && 0 < nVol < W32 && bVol < W32
    modifies tbl
    ensures Head(tbl[..], p, nVol, ss) && Common(tbl[..], nVol, bVol, md)
  {
    hide Ld16, Ld32, Start, TotalOf, Common;
    PutStart(tbl, p, ss);
    ghost var b0 := tbl[..];
    PutTotal(tbl, nVol);
    ghost var b1 := tbl[..];
    PutDrive(tbl, bVol, md);
    StartKept(b0, tbl[..], p, ss);
    TotalKept(b1, tbl[..]);
    CommonMade(b1, tbl[..], nVol, bVol, md);
  }

  method PutDrive(tbl: array<Byte>, bVol: nat, md: Byte)
    requires tbl.Length >= 512 && bVol < W32
    modifies tbl
    ensures tbl[21] == md && Ld16(tbl[..], 24) == 63 && Ld16(tbl[..], 26) == 255 && Ld32(tbl[..], 28) == bVol
    ensures forall k :: 0 <= k < tbl.Length && k != 21 && !(24 <= k < 32) ==> tbl[k] == old(tbl[k])
  {
    hide Ld16, Ld32;
    tbl[21] := md;
    St16(tbl, 24, 63);
    ghost var b1 := tbl[..];
    St16(tbl, 26, 255);
    ghost var b2 := tbl[..];
    SameField(b1, b2, 24);
    St32(tbl, 28, bVol);
    SameField(b2, tbl[..], 24);
    SameField(b2, tbl[..], 26);
  }

  lemma CommonMade(a: seq<Byte>, b: seq<Byte>, nVol: nat, bVol: nat, md: Byte)
    requires |a| == |b| >= 512 && (forall k :: 0 <= k < 11 ==> a[k] == OEM[k])
    requires Ld16(a, 19) == (if nVol < 65536 then nVol else 0) && Ld32(a, 32) == (if nVol < 65536 then 0 else nVol)
    requires b[21] == md && Ld16(b, 24) == 63 && Ld16(b, 26) == 255 && Ld32(b, 28) == bVol
    requires forall k :: 0 <= k < |b| && k != 21 && !(24 <= k < 32) ==> b[k] == a[k]
    ensures Common(b, nVol, bVol, md)
  {
    hide Ld16, Ld32;
    SameField(a, b, 19);
    SameField(a, b, 32);
  }

  /** Number of total sectors. */
  method PutTotal(tbl: array<Byte>, nVol: nat)
    requires tbl.Length >= 512 && 0 < nVol < W32
    requires forall k :: 19 <= k < 36 ==> tbl[k] == 0
    modifies tbl
    ensures TotalOf(tbl[..]) == nVol
    ensures Ld16(tbl[..], 19) == if nVol < 65536 then nVol else 0
    ensures Ld32(tbl[..], 32) == if nVol < 65536 then 0 else nVol
    ensures forall k :: 0 <= k < tbl.Length && k != 19 && k != 20 && !(32 <= k < 36) ==> tbl[k] == old(tbl[k])
  {
    hide Ld16, Ld32;
    if nVol < 0x1_0000 {
      St16(tbl, 19, nVol);
      ZeroField(tbl[..], 32);
    } else {
      St32(tbl, 32, nVol);
      ZeroField(tbl[..], 19);
    }
  }

  const LABEL: seq<Byte> := [0x4E, 0x4F, 0x20, 0x4E, 0x41, 0x4D, 0x45, 0x20, 0x20, 0x20, 0x20, 0x46, 0x41, 0x54]
  const FAT32_TAIL: seq<Byte> := [0x33, 0x32, 0x20, 0x20, 0x20]
  const FAT_TAIL: seq<Byte> := [0x20, 0x20, 0x20, 0x20, 0x20]

  /** The FAT32 fields of the boot sector. */
  ghost predicate Tail32(b: seq<Byte>, p: Plan) {
    && |b| >= 512 && b[22] == b[23] == 0 && Ld32(b, 36) == p.nFat && Ld32(b, 44) == 2 && Ld16(b, 48) == 1
    && Named(b, 82)
  }

  /** The FAT12 and FAT16 fields. */
  ghost predicate Tail16(b: seq<Byte>, p: Plan) {
    |b| >= 512 && Ld16(b, 22) == p.nFat && Named(b, 54)
  }

  /** The string "FAT" at offset o. */
  predicate Named(b: seq<Byte>, o: nat) {
    o + 3 <= |b| && b[o] == 0x46 && b[o + 1] == 0x41 && b[o + 2] == 0x54
  }

  lemma NamedFat(b: seq<Byte>, o: nat)
    requires Named(b, o) && o + 4 <= |b|
    ensures Ld32(b, o) % 0x100_0000 == FAT_STRING
  {
    assert Ld32(b, o) == 0x100_0000 * b[o + 3] + FAT_STRING;
    DivModUnique(Ld32(b, o), 0x100_0000, b[o + 3], FAT_STRING);
  }

  /** The bytes of the FAT32 fields behind the FAT size: version, root cluster, FSINFO and backup sector, drive and
      signature bytes, serial number, label and type. */
  ghost predicate Extended32(b: seq<Byte>, serial: nat) {
    && |b| >= 512 && Ld32(b, 40) == 0 && Ld16(b, 50) == 6 && (forall k :: 52 <= k < 64 ==> b[k] == 0)
    && b[64] == 0x80 && b[65] == 0 && b[66] == 0x29 && Ld32(b, 67) == serial
    && forall k :: 71 <= k < 90 ==> b[k] == NO_NAME_32[k - 71]
  }

  /** The same for FAT12 and FAT16. */
  ghost predicate Extended16(b: seq<Byte>, serial: nat) {
    && |b| >= 512 && b[36] == 0x80 && b[37] == 0 && b[38] == 0x29 && Ld32(b, 39) == serial
    && (forall k :: 43 <= k < 62 ==> b[k] == NO_NAME[k - 43]) && forall k :: 62 <= k < 90 ==> b[k] == 0
  }

  /** "NO NAME    FAT32   " and "NO NAME    FAT     ". */
  const NO_NAME_32: seq<Byte> := [78, 79, 32, 78, 65, 77, 69, 32, 32, 32, 32, 70, 65, 84, 51, 50, 32, 32, 32]
  const NO_NAME: seq<Byte> := [78, 79, 32, 78, 65, 77, 69, 32, 32, 32, 32, 70, 65, 84, 32, 32, 32, 32, 32]

  method PutTail32(tbl: array<Byte>, p: Plan, serial: nat)
    requires tbl.Length >= 512 && p.nFat < W32 && serial < W32 && tbl[22] == tbl[23] == 0
    requires forall k :: 36 <= k < 90 ==> tbl[k] == 0
    modifies tbl
    ensures Tail32(tbl[..], p) && Extended32(tbl[..], serial)
    ensures forall k :: 0 <= k < tbl.Length && (k < 36 || k >= 90) ==> tbl[k] == old(tbl[k])
  {
    hide Ld16, Ld32, Named;
    assert LABEL + FAT32_TAIL == NO_NAME_32;
    PutNumbers32(tbl, p, serial);
    ghost var b := tbl[..];
    PutName(tbl, 64, 71, FAT32_TAIL, NO_NAME_32);
    NumbersKept(b, tbl[..]);
  }

  /** The numbers among them. */
  method PutNumbers32(tbl: array<Byte>, p: Plan, serial: nat)
    requires tbl.Length >= 512 && p.nFat < W32 && serial < W32
    requires forall k :: 36 <= k < 90 ==> tbl[k] == 0
    modifies tbl
    ensures var b := tbl[..]; Ld32(b, 36) == p.nFat && Ld32(b, 40) == 0 && Ld32(b, 44) == 2 && Ld32(b, 67) == serial
    ensures var b := tbl[..]; Ld16(b, 48) == 1 && Ld16(b, 50) == 6
    ensures forall k :: 0 <= k < tbl.Length && (k < 36 || 52 <= k < 67 || k >= 71) ==> tbl[k] == old(tbl[k])
  {
    hide Ld16, Ld32;
    St32(tbl, 67, serial);
    ghost var b1 := tbl[..];
    St32(tbl, 36, p.nFat);
    ghost var b2 := tbl[..];
    St32(tbl, 44, 2);
    ghost var b3 := tbl[..];
    St16(tbl, 48, 1);
    ghost var b4 := tbl[..];
    St16(tbl, 50, 6);
    SameField(b1, tbl[..], 67);
    SameField(b2, tbl[..], 36);
    SameField(b3, tbl[..], 44);
    SameField(b4, tbl[..], 48);
    ZeroField(tbl[..], 40);
  }

  lemma NumbersKept(a: seq<Byte>, b: seq<Byte>)
    requires |a| == |b| >= 512 && forall k :: 0 <= k < |a| && k != 64 && k != 66 && !(71 <= k < 90) ==> b[k] == a[k]
    ensures forall o :: o == 36 || o == 40 || o == 44 || o == 67 ==> Ld32(b, o) == Ld32(a, o)
    ensures Ld16(b, 48) == Ld16(a, 48) && Ld16(b, 50) == Ld16(a, 50)
  {
    hide Ld16, Ld32;
    SameField(a, b, 36);
    SameField(a, b, 40);
    SameField(a, b, 44);
    SameField(a, b, 67);
    SameField(a, b, 48);
    SameField(a, b, 50);
  }

  /** Drive and signature bytes, label and type. */
  method PutName(tbl: array<Byte>, drive: nat, o: nat, tail: seq<Byte>, ghost name: seq<Byte>)
    requires drive + 2 < o && o + 19 <= tbl.Length && |tail| == 5 && name == LABEL + tail
    modifies tbl
    ensures tbl[drive] == 0x80 && tbl[drive + 2] == 0x29 && Named(tbl[..], o + 11)
    ensures forall k :: o <= k < o + 19 ==> tbl[k] == name[k - o]
    ensures forall k :: 0 <= k < tbl.Length && k != drive && k != drive + 2 && !(o <= k < o + 19) ==>
              tbl[k] == old(tbl[k])
  {
    hide Named;
    tbl[drive] := 0x80;
    tbl[drive + 2] := 0x29;
    Put(tbl, o, LABEL);
    Put(tbl, o + 14, tail);
    NameBytes(tbl[..], o, name, tail);
  }

  /** Label and type together. */
  lemma NameBytes(b: seq<Byte>, o: nat, name: seq<Byte>, tail: seq<Byte>)
    requires o + 19 <= |b| && |tail| == 5 && name == LABEL + tail
    requires forall k :: 0 <= k < 14 ==> b[o + k] == LABEL[k]
    requires forall k :: 0 <= k < 5 ==> b[o + 14 + k] == tail[k]
    ensures forall k :: o <= k < o + 19 ==> b[k] == name[k - o]
    ensures Named(b, o + 11)
  {
    forall k | o <= k < o + 19
      ensures b[k] == name[k - o]
    {
      if k < o + 14 {
        assert b[o + (k - o)] == LABEL[k - o];
      } else {
        assert b[o + 14 + (k - o - 14)] == tail[k - o - 14];
      }
    }
    assert b[o + 11] == LABEL[11] && b[o + 12] == LABEL[12] && b[o + 13] == LABEL[13];
  }

  lemma ZeroField(b: seq<Byte>, o: nat)
    ensures o + 2 <= |b| && b[o] == b[o + 1] == 0 ==> Ld16(b, o) == 0
    ensures o + 4 <= |b| && (forall k :: o <= k < o + 4 ==> b[k] == 0) ==> Ld32(b, o) == 0
  {
    ZeroDword();
    hide LdDword;
  }

  method PutTail16(tbl: array<Byte>, p: Plan, serial: nat)
    requires tbl.Length >= 512 && p.nFat < 0x1_0000 && serial < W32
    requires forall k :: 36 <= k < 90 ==> tbl[k] == 0
    modifies tbl
    ensures Tail16(tbl[..], p) && Extended16(tbl[..], serial)
    ensures forall k :: 0 <= k < tbl.Length && k != 22 && k != 23 && (k < 36 || k >= 90) ==> tbl[k] == old(tbl[k])
  {
    hide Ld16, Ld32, Named;
    assert LABEL + FAT_TAIL == NO_NAME;
    St32(tbl, 39, serial);
    ghost var b1 := tbl[..];
    St16(tbl, 22, p.nFat);
    ghost var b2 := tbl[..];
    PutName(tbl, 36, 43, FAT_TAIL, NO_NAME);
    SameField(b1, tbl[..], 39);
    SameField(b2, tbl[..], 22);
  }

  /** The parts make up a boot sector of the plan. */
  lemma BootMade(b: seq<Byte>, p: Plan, nVol: nat, ss: nat)
    requires Start(b, p, ss) && TotalOf(b) == nVol && Ld16(b, SIGNATURE) == 0xAA55 && p.nFat > 0
    requires if p.fmt == FAT32 then Tail32(b, p) else Tail16(b, p)
    ensures Boot(b, p, nVol, ss)
  {
    if p.fmt == FAT32 {
      NamedFat(b, 82);
      assert Ld16(b, 22) == LdWord(0, 0) == 0;
    } else {
      NamedFat(b, 54);
    }
    hide LdWord, LdDword;
  }

  /** Every byte of the boot sector. */
  ghost predicate BootSector(b: seq<Byte>, p: Plan, nVol: nat, bVol: nat, ss: nat, md: Byte, serial: nat) {
    && Start(b, p, ss) && Common(b, nVol, bVol, md)
    && (if p.fmt == FAT32 then Tail32(b, p) && Extended32(b, serial) else Tail16(b, p) && Extended16(b, serial))
    && (forall k :: 90 <= k < ss && k != 510 && k != 511 ==> b[k] == 0) && b[510] == 0x55 && b[511] == 0xAA
  }

  /** "Create BPB in the VBR". */
  method MakeBoot(tbl: array<Byte>, p: Plan, nVol: nat, bVol: nat, ss: nat, md: Byte, serial: nat)
    requires tbl.Length == ss && SectorSize(ss) && 1 <= p.nRsv < 0x1_0000 && p.au < 256 && 0 < nVol < W32 && bVol < W32
    requires 0 < p.nFat < W32 && serial < W32 && (p.fmt != FAT32 ==> p.nFat < 0x1_0000)
    modifies tbl
    ensures Boot(tbl[..], p, nVol, ss) && BootSector(tbl[..], p, nVol, bVol, ss, md, serial)
  {
    hide Ld16, Ld32, Start, TotalOf, Boot, Named, Tail32, Tail16, Common, Extended32, Extended16;
    PutHead(tbl, p, nVol, bVol, ss, md);
    assert ss >= 512;
    ghost var b0 := tbl[..];
    if p.fmt == FAT32 {
      PutTail32(tbl, p, serial);
    } else {
      PutTail16(tbl, p, serial);
    }
    ghost var b1 := tbl[..];
    St16(tbl, SIGNATURE, 0xAA55);
    SignatureBytes(tbl[..]);
    StartKept(b0, tbl[..], p, ss);
    TotalKept(b0, tbl[..]);
    TailKept(b1, tbl[..], p);
    ExtendedKept(b1, tbl[..], serial);
    CommonKept(b0, tbl[..], nVol, bVol, md);
    BootMade(tbl[..], p, nVol, ss);
  }

  lemma TailKept(a: seq<Byte>, b: seq<Byte>, p: Plan)
    requires |b| == |a| && forall k :: 0 <= k < 90 && k < |a| ==> b[k] == a[k]
    ensures Tail32(a, p) ==> Tail32(b, p)
    ensures Tail16(a, p) ==> Tail16(b, p)
  {
    hide LdWord, LdDword;
  }

  lemma ExtendedKept(a: seq<Byte>, b: seq<Byte>, serial: nat)
    requires |b| == |a| && forall k :: 0 <= k < 90 && k < |a| ==> b[k] == a[k]
    ensures Extended32(a, serial) ==> Extended32(b, serial)
    ensures Extended16(a, serial) ==> Extended16(b, serial)
  {
    hide LdWord, LdDword;
  }

  lemma SignatureBytes(b: seq<Byte>)
    requires |b| >= 512 && Ld16(b, 510) == 0xAA55
    ensures b[510] == 0x55 && b[511] == 0xAA
  {
    DivModUnique(0xAA55, 256, b[511], b[510]);
  }

  // ----- the partition table -----

  /** System type of a partition: FAT32, FAT16 of 65536 sectors or more, FAT12, small FAT16. */
  function SystemType(t: FsType, nVol: nat): Byte {
    match t
    case FAT32 => 0x0C
    case FAT16 => if nVol >= 65536 then 6 else 4
    case FAT12 => if nVol >= 65536 then 6 else 1
  }

  /** Every byte of a partition table with one partition of nVol sectors, from sector 63 on. Its last cylinder c has
      ten bits. */
  ghost predicate TableSector(b: seq<Byte>, nVol: nat, sys: Byte) {
    var c := (63 + nVol) / 16065;
    && |b| >= 512 && b[446] == 0 && b[447] == 1 && b[448] == 1 && b[449] == 0 && b[450] == sys && b[451] == 254
    && b[452] == 64 * (c / 256 % 4) + 63 && b[453] == c % 256
    && Ld32(b, 454) == 63 && Ld32(b, 458) == nVol && b[510] == 0x55 && b[511] == 0xAA
    && forall k :: 0 <= k < |b| && !(446 <= k < 462) && k != 510 && k != 511 ==> b[k] == 0
  }

  lemma {:induction false} OrOnes(x: nat, n: nat)
    requires IsPow2(n)
    ensures BitOr(x, n - 1) == x / n * n + (n - 1)
    decreases n
  {
    if n > 1 {
      var m := n / 2;
      OrOnes(x / 2, m);
      HalvedMod(x, m);
      assert (n - 1) / 2 == m - 1 && (n - 1) % 2 == 1;
      OrHalf(x, n - 1);
      Floors(x, m);
    } else {
      OrNone(x);
    }
  }

  lemma OrHalf(x: nat, y: nat)
    requires y % 2 == 1
    ensures BitOr(x, y) == 2 * BitOr(x / 2, y / 2) + 1
  {
  }

  lemma {:induction false} OrNone(x: nat)
    ensures BitOr(x, 0) == x
  {
    if x > 0 {
      OrNone(x / 2);
    }
  }

  lemma Floors(x: nat, m: nat)
    requires m > 0
    ensures x / (2 * m) * (2 * m) == 2 * (x / 2 / m * m)
  {
    HalvedMod(x, m);
    var q, r := x / 2 / m, x / 2 % m;
    assert x / 2 == q * m + r;
    assert x == q * (2 * m) + (2 * r + x % 2);
    DivModUnique(x, 2 * m, q, 2 * r + x % 2);
  }

  /** The two bytes of the last cylinder. */
  lemma CylinderBytes(nVol: nat)
    ensures var c, n := (63 + nVol) / 16065, LastCylinder(nVol);
      n == c && BitOr(n / 4, 63) % 256 == 64 * (c / 256 % 4) + 63
  {
    hide BitOr;
    assert IsPow2(64) by {
      Pow2Double(16);
      Pow2Double(32);
    }
    hide IsPow2;
    Quotients(63 + nVol);
    var c := LastCylinder(nVol);
    hide LastCylinder;
    OrOnes(c / 4, 64);
    Byte452(c);
  }

  lemma Quotients(x: nat)
    ensures x / 63 / 255 == x / 16065
  {
    var q, r := x / 63, x % 63;
    DivModUnique(x, 16065, q / 255, q % 255 * 63 + r);
  }

  lemma Byte452(c: nat)
    ensures (c / 4 / 64 * 64 + 63) % 256 == 64 * (c / 256 % 4) + 63
  {
    var d := c / 256;
    assert c / 4 / 64 == d;
    DivModUnique(d * 64 + 63, 256, d / 4, 64 * (d % 4) + 63);
  }

  /** `(b_vol + n_vol) / 63 / 255` */
  function LastCylinder(nVol: nat): nat {
    (63 + nVol) / 63 / 255
  }

  /** A partition table with one partition, from sector 63 on. */
  method MakeTable(tbl: array<Byte>, nVol: nat, sys: Byte)
    requires tbl.Length >= 512 && nVol < W32 && sys != 0
    modifies tbl
    ensures TableSector(tbl[..], nVol, sys) && CheckFs(tbl[..]) == 1 && Partition(tbl[..], 0) == 63
  {
    hide Ld16, Ld32, CheckFs, Partition;
    PutPartition(tbl, nVol, sys);
    St32(tbl, 454, 63);
    ghost var b1 := tbl[..];
    St32(tbl, 458, nVol);
    ghost var b2 := tbl[..];
    SameField(b1, b2, 454);
    St16(tbl, SIGNATURE, 0xAA55);
    SameField(b2, tbl[..], 454);
    SameField(b2, tbl[..], 458);
    SignatureBytes(tbl[..]);
    TableIsBoot(tbl[..], nVol, sys);
  }

  /** First and last head, sector and cylinder of the partition, and its type. */
  method PutPartition(tbl: array<Byte>, nVol: nat, sys: Byte)
    requires tbl.Length >= 512
    modifies tbl
    ensures var c := (63 + nVol) / 16065; tbl[452] == 64 * (c / 256 % 4) + 63 && tbl[453] == c % 256
    ensures tbl[446] == 0 && tbl[447] == 1 && tbl[448] == 1 && tbl[449] == 0 && tbl[450] == sys && tbl[451] == 254
    ensures forall k :: 0 <= k < tbl.Length && !(446 <= k < 454) ==> tbl[k] == 0
  {
    hide BitOr, LastCylinder;
    CylinderBytes(nVol);
    Clear(tbl);
    forall k | 0 <= k < tbl.Length
      ensures tbl[k] == 0
    {
      assert tbl[k] == tbl[..][k];
    }
    hide Zeros;
    tbl[447], tbl[448], tbl[449], tbl[450], tbl[451] := 1, 1, 0, sys, 254;
    var n := LastCylinder(nVol);
    tbl[452] := BitOr(n / 4, 63) % 256;
    tbl[453] := n % 256;
  }

  /** It is a boot sector, but not that of a FAT volume. */
  lemma TableIsBoot(b: seq<Byte>, nVol: nat, sys: Byte)
    requires TableSector(b, nVol, sys) && sys != 0
    ensures CheckFs(b) == 1 && Partition(b, 0) == 63
  {
    hide Ld16, Ld32;
    ZeroField(b, 54);
    ZeroField(b, 82);
    SignatureWord(b);
  }

  lemma SignatureWord(b: seq<Byte>)
    requires |b| >= 512 && b[510] == 0x55 && b[511] == 0xAA
    ensures Ld16(b, 510) == 0xAA55
  {
  }

  lemma ZeroDword()
    ensures LdDword(0, 0, 0, 0) == 0
  {
  }

  // ----- the first FAT sector -----

  /** Bytes of the reserved entries. */
  function HeadBytes(t: FsType, md: Byte): seq<Byte> {
    match t
    case FAT12 => [md, 0xFF, 0xFF, 0]
    case FAT16 => [md, 0xFF, 0xFF, 0xFF]
    case FAT32 => [md, 0xFF, 0xFF, 0xFF, 0xFF, 0xFF, 0xFF, 0xFF, 0xFF, 0xFF, 0xFF, 0x0F]
  }

  /** The first sector of a fresh FAT. */
  ghost predicate FatHead(b: seq<Byte>, t: FsType, md: Byte) {
    && |b| >= 512 && forall k :: 0 <= k < |b| ==> b[k] == if k < |HeadBytes(t, md)| then HeadBytes(t, md)[k] else 0
  }

  /** The four bytes of a double word. */
  lemma BytesOf(b: seq<Byte>, o: nat, b0: Byte, b1: Byte, b2: Byte, b3: Byte)
    requires o + 4 <= |b| && Ld32(b, o) == LdDword(b0, b1, b2, b3)
    ensures b[o] == b0 && b[o + 1] == b1 && b[o + 2] == b2 && b[o + 3] == b3
  {
    hide LdDword;
    Digits(b[o], b[o + 1], b[o + 2], b[o + 3]);
    Digits(b0, b1, b2, b3);
  }

  lemma Digits(b0: Byte, b1: Byte, b2: Byte, b3: Byte)
    ensures var w := LdDword(b0, b1, b2, b3);
      b0 == w % 256 && b1 == w / 256 % 256 && b2 == w / 256 / 256 % 256 && b3 == w / 256 / 256 / 256
  {
    var w := LdDword(b0, b1, b2, b3);
    DivModUnique(w, 256, b1 + 0x100 * b2 + 0x1_0000 * b3, b0);
    DivModUnique(w / 256, 256, b2 + 0x100 * b3, b1);
    DivModUnique(w / 256 / 256, 256, b3, b2);
  }

  /** `n |= 0xFFFFFF00` and its FAT12 variant on a media byte. */
  lemma MediaWord(md: Byte)
    ensures BitOr(md, 0x00FF_FF00) == LdDword(md, 0xFF, 0xFF, 0)
    ensures BitOr(md, 0xFFFF_FF00) == LdDword(md, 0xFF, 0xFF, 0xFF)
    ensures LdDword(0xFF, 0xFF, 0xFF, 0xFF) == 0xFFFF_FFFF && LdDword(0xFF, 0xFF, 0xFF, 0x0F) == 0x0FFF_FFFF
  {
    Pow2Times16(1);
    Pow2Times16(16);
    OrIsSum(md, 0x00FF_FF00, 256);
    OrIsSum(md, 0xFFFF_FF00, 256);
    hide BitOr;
  }

  method MakeFatHead(tbl: array<Byte>, t: FsType, md: Byte)
    requires tbl.Length >= 512
    modifies tbl
    ensures FatHead(tbl[..], t, md)
  {
    hide LdDword, BitOr, Ld32;
    Clear(tbl);
    MediaWord(md);
    var n := BitOr(md, if t == FAT12 then 0x00FF_FF00 else 0xFFFF_FF00);
    St32(tbl, 0, n);
    BytesOf(tbl[..], 0, md, 0xFF, 0xFF, if t == FAT12 then 0 else 0xFF);
    if t == FAT32 {
      St32(tbl, 4, 0xFFFF_FFFF);
      BytesOf(tbl[..], 4, 0xFF, 0xFF, 0xFF, 0xFF);
      St32(tbl, 8, 0x0FFF_FFFF);
      BytesOf(tbl[..], 8, 0xFF, 0xFF, 0xFF, 0x0F);
    }
  }

  /** FSINFO with the number of free clusters. */
  ghost predicate Info(b: seq<Byte>, free: nat) {
    IsFsInfo(b) && Ld32(b, 488) == free && Ld32(b, 492) == 2
  }

  /** Every byte of FSINFO. */
  ghost predicate InfoSector(b: seq<Byte>, free: nat) {
    && |b| >= 512 && Ld32(b, 0) == 0x41615252 && Ld32(b, 484) == 0x61417272
    && Ld32(b, 488) == free && Ld32(b, 492) == 2 && b[510] == 0x55 && b[511] == 0xAA
    && (forall k :: 4 <= k < 484 ==> b[k] == 0)
    && forall k :: 496 <= k < |b| && k != 510 && k != 511 ==> b[k] == 0
  }

  method MakeInfo(tbl: array<Byte>, free: nat)
    requires tbl.Length >= 512 && free < W32 && forall k :: 0 <= k < tbl.Length ==> tbl[k] == 0
    modifies tbl
    ensures Info(tbl[..], free) && InfoSector(tbl[..], free)
  {
    hide LdWord, LdDword;
    St32(tbl, 0, 0x41615252);
    St32(tbl, 484, 0x61417272);
    St32(tbl, 488, free);
    St32(tbl, 492, 2);
    St16(tbl, SIGNATURE, 0xAA55);
    SignatureBytes(tbl[..]);
  }

  // ----- writing to the drive -----

  /** First FAT sector, and the end of what is written. */
  function FatBase(p: Plan, bVol: nat): nat {
    bVol + p.nRsv
  }

  function RootEnd(p: Plan, bVol: nat): nat {
    bVol + SysArea(p) + (if p.fmt == FAT32 then p.au else 0)
  }

  /** Free clusters of a fresh FAT32 volume. */
  function FreeAfter(p: Plan): nat {
    if p.nClst == 0 then 0 else p.nClst - 1
  }

  /** The FAT area and the root directory are as a fresh volume needs them. */
  ghost predicate Tables(sec: Sectors, p: Plan, bVol: nat, ss: nat, md: Byte) {
    && RootEnd(p, bVol) <= |sec|
    && FatHead(SecAt(sec, FatBase(p, bVol)), p.fmt, md)
    && forall s: nat :: FatBase(p, bVol) < s < RootEnd(p, bVol) ==> SecAt(sec, s) == Zeros(ss)
  }

  /** What a finished f_mkfs leaves on the drive, as far as mounting reads it. */
  ghost predicate Formatted(sec: Sectors, p: Plan, nVol: nat, bVol: nat, ss: nat, md: Byte) {
    && Tables(sec, p, bVol, ss, md)
    && (bVol > 0 ==> CheckFs(SecAt(sec, 0)) == 1 && Partition(SecAt(sec, 0), 0) == bVol)
    && Boot(SecAt(sec, bVol), p, nVol, ss)
    && (p.fmt == FAT32 ==> Info(SecAt(sec, bVol + 1), FreeAfter(p)))
  }

  /** Partition table, boot sector and its backup, byte by byte. */
  ghost predicate HeadWritten(sec: Sectors, p: Plan, nVol: nat, bVol: nat, ss: nat, md: Byte, serial: nat) {
    && (bVol > 0 ==> TableSector(SecAt(sec, 0), nVol, SystemType(p.fmt, nVol)))
    && BootSector(SecAt(sec, bVol), p, nVol, bVol, ss, md, serial)
    && (p.fmt == FAT32 && bVol + 6 < |sec| ==> SecAt(sec, bVol + 6) == SecAt(sec, bVol))
  }

  /** All that f_mkfs writes in front of the FAT: these, and FSINFO with its backup. */
  ghost predicate Written(sec: Sectors, p: Plan, nVol: nat, bVol: nat, ss: nat, md: Byte, serial: nat) {
    && HeadWritten(sec, p, nVol, bVol, ss, md, serial) && md == (if bVol == 0 then 0xF0 else 0xF8)
    && (p.fmt == FAT32 ==>
          && bVol + 7 < |sec| && InfoSector(SecAt(sec, bVol + 1), FreeAfter(p))
          && SecAt(sec, bVol + 7) == SecAt(sec, bVol + 1))
  }

  /** Write the buffer to one sector; nothing else changes. */
  method WriteSector(disk: Disk, tbl: array<Byte>, s: nat) returns (ok: bool)
    requires disk.reliable && disk.ss == tbl.Length && Uniform(disk.sec, disk.ss)
    modifies disk
    ensures Uniform(disk.sec, disk.ss) && |disk.sec| == old(|disk.sec|)
    ensures ok <==> s < |disk.sec|
    ensures disk.sec == if ok then old(disk.sec)[s := tbl[..]] else old(disk.sec)
  {
    ok := disk.Write(tbl, s);
  }

  /** Sectors lo <= s < hi are zero, the others are as before. */
  ghost predicate ZeroRun(was: Sectors, sec: Sectors, lo: nat, hi: nat, ss: nat) {
    && |sec| == |was| && lo <= hi
    && forall s :: 0 <= s < |sec| ==> sec[s] == if lo <= s < hi then Zeros(ss) else was[s]
  }

  /** A loop that fills count sectors from wsect0 on with the zero buffer. */
  method FillZero(disk: Disk, tbl: array<Byte>, wsect0: nat, count: nat) returns (ok: bool, wsect: nat)
    requires disk.reliable && disk.ss == tbl.Length && Uniform(disk.sec, disk.ss) && tbl[..] == Zeros(tbl.Length)
    modifies disk
    ensures Uniform(disk.sec, disk.ss) && |disk.sec| == old(|disk.sec|)
    ensures ok <==> count == 0 || wsect0 + count <= |disk.sec|
    ensures ok ==> wsect == wsect0 + count
    ensures ok ==> ZeroRun(old(disk.sec), disk.sec, wsect0, wsect, disk.ss)
  {
    hide Uniform, Zeros;
    wsect := wsect0;
    var n := 0;
    while n < count
      invariant n <= count && wsect == wsect0 + n && Uniform(disk.sec, disk.ss)
      invariant n > 0 ==> wsect <= |disk.sec|
      invariant ZeroRun(old(disk.sec), disk.sec, wsect0, wsect, disk.ss)
    {
      var done := WriteSector(disk, tbl, wsect);
      if !done {
        return false, wsect;
      }
      wsect := wsect + 1;
      n := n + 1;
    }
    ok := true;
  }

  /** "Initialize FAT area" and "Initialize root directory". */
  method WriteTables(disk: Disk, tbl: array<Byte>, p: Plan, bVol: nat, md: Byte) returns (ok: bool)
    requires disk.reliable && disk.ss == tbl.Length && Uniform(disk.sec, disk.ss) && disk.ss >= 512
    requires p.nFat >= 1 && p.au >= 1 && (p.fmt == FAT32 <==> p.nDir == 0)
    modifies disk, tbl
    ensures Uniform(disk.sec, disk.ss) && |disk.sec| == old(|disk.sec|)
    ensures ok <==> RootEnd(p, bVol) <= |disk.sec|
    ensures ok ==> Tables(disk.sec, p, bVol, disk.ss, md)
    ensures ok ==>
              forall s :: 0 <= s < |disk.sec| && !(FatBase(p, bVol) <= s < RootEnd(p, bVol)) ==>
                disk.sec[s] == old(disk.sec[s])
    ensures ok ==> tbl[..] == Zeros(disk.ss)
  {
    hide Uniform, Zeros, FatHead;
    ghost var v0 := disk.sec;
    var wsect := bVol + p.nRsv;
    MakeFatHead(tbl, p.fmt, md);
    ghost var head := tbl[..];
    ok := WriteSector(disk, tbl, wsect);
    if !ok {
      return;
    }
    wsect := wsect + 1;
    Clear(tbl);
    ghost var v1 := disk.sec;
    ok, wsect := FillZero(disk, tbl, wsect, p.nFat - 1);
    if !ok {
      return;
    }
    ghost var v2 := disk.sec;
    var i := if p.fmt == FAT32 then p.au else p.nDir;
    ok, wsect := FillZero(disk, tbl, wsect, i);
    if ok {
      TablesDone(v0, v1, v2, disk.sec, head, p, bVol, disk.ss);
    }
  }

  lemma TablesDone(v0: Sectors, v1: Sectors, v2: Sectors, v3: Sectors, head: seq<Byte>, p: Plan, bVol: nat, ss: nat)
    requires FatBase(p, bVol) < |v0| && v1 == v0[FatBase(p, bVol) := head]
    requires p.nFat >= 1 && (p.fmt == FAT32 <==> p.nDir == 0)
    requires ZeroRun(v1, v2, FatBase(p, bVol) + 1, FatBase(p, bVol) + p.nFat, ss)
    requires ZeroRun(v2, v3, FatBase(p, bVol) + p.nFat, RootEnd(p, bVol), ss)
    requires RootEnd(p, bVol) <= |v3|
    ensures |v3| == |v0| && v3[FatBase(p, bVol)] == head
    ensures forall s :: FatBase(p, bVol) < s < RootEnd(p, bVol) ==> v3[s] == Zeros(ss)
    ensures forall s :: 0 <= s < |v0| && !(FatBase(p, bVol) <= s < RootEnd(p, bVol)) ==> v3[s] == v0[s]
  {
    hide Zeros;
  }

  datatype MkResult = Done | DiskFailed | Aborted

  /** What f_mkfs answers on a drive of `total` sectors: the drive must have 128 sectors, the plan must be
      allowed, and the FAT and the root directory must lie on the drive. */
  function Answer(total: nat, sfd: bool, ss: nat, au: nat, blockSize: nat): MkResult
    requires SectorSize(ss)
  {
    var nVol, bVol := VolSize(total, sfd), VolStart(sfd);
    if total < 128 then DiskFailed
    else if !PlanAllowed(nVol, bVol, ss, au, blockSize) then Aborted
    else if RootEnd(PlanOf(nVol, bVol, ss, au, blockSize), bVol) > total then DiskFailed
    else Done
  }

  /** f_mkfs with the whole drive as one volume: with a partition table (sector 63 on), or without. */
  method MakeFs(disk: Disk, tbl: array<Byte>, sfd: bool, au: nat, blockSize: nat, serial: nat)
    returns (res: MkResult, p: Plan, md: Byte)
    requires disk.reliable && disk.ss == tbl.Length && Uniform(disk.sec, disk.ss) && SectorSize(disk.ss)
    requires |disk.sec| < W32 && serial < W32
    requires FatInWord(Quotient(|disk.sec|, SectorsPerCluster(au, VolSize(|disk.sec|, sfd), disk.ss)), disk.ss)
    modifies disk, tbl
    ensures Uniform(disk.sec, disk.ss) && |disk.sec| == old(|disk.sec|)
    ensures res == Answer(|disk.sec|, sfd, disk.ss, au, blockSize)
    ensures res == Done ==> p == PlanOf(VolSize(|disk.sec|, sfd), VolStart(sfd), disk.ss, au, blockSize)
    ensures res == Done ==> PlanOk(p, VolSize(|disk.sec|, sfd), VolStart(sfd), disk.ss, Block(blockSize))
    ensures res == Done ==> Formatted(disk.sec, p, VolSize(|disk.sec|, sfd), VolStart(sfd), disk.ss, md)
    ensures res == Done ==> Written(disk.sec, p, VolSize(|disk.sec|, sfd), VolStart(sfd), disk.ss, md, serial)
  {
    hide Uniform, SectorSize, PlanOk, PlanOf, PlanAllowed, SectorsPerCluster, Quotient, IsPow2, Zeros, HeadWritten;
    hide Boot, Info, CheckFs;
    hide Partition, Tables, SubType, RootEnd;
    md, p, res := 0xF8, Plan(FAT12, 1, 0, 0, 0, 0), DiskFailed;
    var nVol := |disk.sec|;
    if nVol < 128 {
      return;
    }
    var bVol := VolStart(sfd);
    nVol := nVol - bVol;
    QuotLess(nVol, |disk.sec|, SectorsPerCluster(au, nVol, disk.ss));
    var ok;
    ok, p := ComputePlan(nVol, bVol, disk.ss, au, blockSize);
    if !ok {
      res := Aborted;
      return;
    }
    PlanClusters(nVol, bVol, disk.ss, au, blockSize);
    PlanNumbers(p, nVol, bVol, disk.ss, Block(blockSize));
    ok, md := WriteHead(disk, tbl, sfd, p, nVol, bVol, serial);
    if !ok {
      return;
    }
    ghost var v1 := disk.sec;
    ok := WriteTables(disk, tbl, p, bVol, md);
    if !ok {
      return;
    }
    HeadKept(v1, disk.sec, p, nVol, bVol, disk.ss, md, serial);
    if p.fmt == FAT32 {
      WriteInfo(disk, tbl, p, nVol, bVol, md, serial);
    }
    res := Done;
  }

  /** Partition table and boot sector. */
  method WriteHead(disk: Disk, tbl: array<Byte>, sfd: bool, p: Plan, nVol: nat, bVol: nat, serial: nat)
    returns (ok: bool, md: Byte)
    requires disk.reliable && disk.ss == tbl.Length && Uniform(disk.sec, disk.ss) && SectorSize(disk.ss)
    requires bVol == VolStart(sfd) < |disk.sec| && 0 < nVol < W32 && serial < W32
    requires 1 <= p.nRsv < 0x1_0000 && p.au < 256 && 0 < p.nFat < W32 && (p.fmt != FAT32 ==> p.nFat < 0x1_0000)
    modifies disk, tbl
    ensures Uniform(disk.sec, disk.ss) && |disk.sec| == old(|disk.sec|) && ok && md == if sfd then 0xF0 else 0xF8
    ensures HeadWritten(disk.sec, p, nVol, bVol, disk.ss, md, serial)
    ensures bVol > 0 ==> CheckFs(SecAt(disk.sec, 0)) == 1 && Partition(SecAt(disk.sec, 0), 0) == bVol
    ensures Boot(SecAt(disk.sec, bVol), p, nVol, disk.ss)
  {
    hide Uniform, SectorSize, Boot, BootSector, CheckFs, Partition, TableSector;
    SectorBound(disk.ss);
    md := 0xF8;
    if sfd {
      md := 0xF0;
    } else {
      MakeTable(tbl, nVol, if p.fmt == FAT32 then 0x0C else if p.fmt == FAT12 && nVol < 0x1_0000 then 1
                           else if nVol < 0x1_0000 then 4 else 6);
      ok := WriteSector(disk, tbl, 0);
      if !ok {
        return;
      }
    }
    ghost var v1 := disk.sec;
    MakeBoot(tbl, p, nVol, bVol, disk.ss, md, serial);
    ok := WriteSector(disk, tbl, bVol);
    if !ok {
      return;
    }
    if p.fmt == FAT32 {
      var done := WriteSector(disk, tbl, bVol + 6);
    }
  }

  /** FSINFO. */
  method WriteInfo(disk: Disk, tbl: array<Byte>, p: Plan, nVol: nat, bVol: nat, md: Byte, serial: nat)
    requires disk.reliable && disk.ss == tbl.Length && Uniform(disk.sec, disk.ss) && disk.ss >= 512
    requires p.fmt == FAT32 && p.nRsv >= 32 && 1 <= p.nClst <= W32 && tbl[..] == Zeros(tbl.Length)
    requires Tables(disk.sec, p, bVol, disk.ss, md) && HeadWritten(disk.sec, p, nVol, bVol, disk.ss, md, serial)
    requires Boot(SecAt(disk.sec, bVol), p, nVol, disk.ss) && md == if bVol == 0 then 0xF0 else 0xF8
    requires bVol > 0 ==> CheckFs(SecAt(disk.sec, 0)) == 1 && Partition(SecAt(disk.sec, 0), 0) == bVol
    modifies disk, tbl
    ensures Uniform(disk.sec, disk.ss) && |disk.sec| == old(|disk.sec|)
    ensures Formatted(disk.sec, p, nVol, bVol, disk.ss, md) && Written(disk.sec, p, nVol, bVol, disk.ss, md, serial)
  {
    hide Uniform, Boot, BootSector, CheckFs, Partition, TableSector, Info, InfoSector, FatHead;
    forall k | 0 <= k < tbl.Length
      ensures tbl[k] == 0
    {
      assert tbl[k] == tbl[..][k];
    }
    hide Zeros;
    ghost var v := disk.sec;
    MakeInfo(tbl, p.nClst - 1);
    var ok := WriteSector(disk, tbl, bVol + 1);
    ok := WriteSector(disk, tbl, bVol + 7);
    assert forall s: nat :: s != bVol + 1 && s != bVol + 7 ==> SecAt(disk.sec, s) == SecAt(v, s);
  }

  /** Writing behind the reserved sectors leaves them alone. */
  lemma HeadKept(v: Sectors, v': Sectors, p: Plan, nVol: nat, bVol: nat, ss: nat, md: Byte, serial: nat)
    requires HeadWritten(v, p, nVol, bVol, ss, md, serial) && 1 <= p.nRsv && (p.fmt == FAT32 ==> p.nRsv >= 32)
    requires |v'| == |v| && forall s :: 0 <= s < |v| && !(FatBase(p, bVol) <= s < RootEnd(p, bVol)) ==> v'[s] == v[s]
    ensures HeadWritten(v', p, nVol, bVol, ss, md, serial)
    ensures SecAt(v', 0) == SecAt(v, 0) || bVol == 0
    ensures SecAt(v', bVol) == SecAt(v, bVol)
  {
    hide BootSector, TableSector;
  }

  /** The clusters of an allowed plan, as FSINFO records them. */
  lemma PlanClusters(nVol: nat, bVol: nat, ss: nat, au: nat, blockSize: nat)
    requires SectorSize(ss) && PlanAllowed(nVol, bVol, ss, au, blockSize)
    ensures var p := PlanOf(nVol, bVol, ss, au, blockSize);
      p.nClst < W32 && (p.fmt == FAT32 ==> p.nClst >= MIN_FAT32) && p.au == SectorsPerCluster(au, nVol, ss)
  {
    hide Sub32, FirstLayout, DataStart;
    PlanStart(nVol, bVol, ss, au, blockSize);
    var p := PlanOf(nVol, bVol, ss, au, blockSize);
    QuotBelow(Sub32(nVol, SysArea(p)), p.au);
  }

  /** f_mkfs succeeds without leaving room for a cluster exactly on a FAT12 volume that was large enough before
      alignment, when the aligned data area starts on the drive, but less than a cluster before its end. */
  lemma DoneWithoutRoom(total: nat, sfd: bool, ss: nat, au: nat, blockSize: nat)
    requires SectorSize(ss) && total < W32
    ensures var nVol, bVol := VolSize(total, sfd), VolStart(sfd);
      var p, start := FirstLayout(nVol, ss, au), DataStart(nVol, bVol, ss, au, blockSize);
      Answer(total, sfd, ss, au, blockSize) == Done && !StartFits(nVol, bVol, ss, au, blockSize)
      <==> total >= 128 && p.fmt == FAT12 && LeavesCluster(p, nVol) && start <= total < start + p.au
  {
    var nVol, bVol := VolSize(total, sfd), VolStart(sfd);
    hide FirstLayout, DataStart, PlanOf, Shifted, Sub32, Quotient, SectorsPerCluster, SectorSize, SysArea;
    hide LeavesCluster;
    var q := PlanOf(nVol, bVol, ss, au, blockSize);
    PlanStart(nVol, bVol, ss, au, blockSize);
    if total >= 128 && SysArea(q) <= nVol < SysArea(q) + q.au {
      NoCluster(nVol, SysArea(q), q.au);
    }
  }

  /** For example on a drive of 128 sectors with erase blocks of 128, without a partition table. */
  lemma DoneOnSmallDrive()
    ensures Answer(128, true, 512, 0, 128) == Done && !StartFits(VolSize(128, true), VolStart(true), 512, 0, 128)
  {
    NothingLeft();
    hide PlanOf, PlanAllowed, StartFits;
  }

  lemma NoCluster(nVol: nat, sys: nat, au: nat)
    requires sys <= nVol < sys + au && nVol < W32
    ensures Quotient(Sub32(nVol, sys), au) == 0
  {
    DivModUnique(nVol - sys, au, 0, nVol - sys);
  }

  /** Where there is room f_mkfs succeeds if the plan is allowed. */
  lemma DoneWithRoom(total: nat, sfd: bool, ss: nat, au: nat, blockSize: nat)
    requires SectorSize(ss) && total >= 128 && StartFits(VolSize(total, sfd), VolStart(sfd), ss, au, blockSize)
    ensures Answer(total, sfd, ss, au, blockSize) == Done
            <==> PlanAllowed(VolSize(total, sfd), VolStart(sfd), ss, au, blockSize)
    ensures var p := PlanOf(VolSize(total, sfd), VolStart(sfd), ss, au, blockSize);
      total < W32 ==>
        (Answer(total, sfd, ss, au, blockSize) == Done
         <==> SubType(p.nClst) == SubType(Quotient(VolSize(total, sfd), p.au)))
  {
    hide FirstLayout, DataStart, PlanOf, SectorsPerCluster, SectorSize, SysArea, SubType, EnoughClusters, Quotient;
    PlanStart(VolSize(total, sfd), VolStart(sfd), ss, au, blockSize);
    FirstFits(VolSize(total, sfd), VolStart(sfd), ss, au, blockSize);
    if total < W32 {
      RefusedExactly(VolSize(total, sfd), VolStart(sfd), ss, au, blockSize);
    }
  }

  /** Room behind the aligned start is room before alignment. */
  lemma FirstFits(nVol: nat, bVol: nat, ss: nat, au: nat, blockSize: nat)
    requires SectorSize(ss) && StartFits(nVol, bVol, ss, au, blockSize)
    ensures LeavesCluster(FirstLayout(nVol, ss, au), nVol)
  {
    hide SectorSize, SectorsPerCluster, FatSize, Quotient, SubType;
    BlockBound(blockSize);
  }

  lemma QuotBelow(x: nat, d: nat)
    ensures Quotient(x, d) <= x
  {
    if d > 0 {
      MulMonotone(1, d, x + 1);
      DivLess(x, d, x + 1);
    }
  }

  function VolStart(sfd: bool): nat {
    if sfd then 0 else 63
  }

  function VolSize(total: nat, sfd: bool): nat {
    if sfd then total else if total < 63 then 0 else total - 63
  }

  lemma QuotLess(x: nat, y: nat, d: nat)
    requires x <= y
    ensures Quotient(x, d) <= Quotient(y, d)
  {
    if d > 0 {
      DivMonotone(x, y, d);
    }
  }

  lemma PlanNumbers(p: Plan, nVol: nat, bVol: nat, ss: nat, block: nat)
    requires PlanOk(p, nVol, bVol, ss, block) && SectorSize(ss)
    ensures 1 <= p.nRsv < 0x1_0000 && 1 <= p.nFat < W32 && 1 <= p.au <= 128 && ss >= 512
    ensures p.fmt == FAT32 ==> p.nRsv >= 32
    ensures p.fmt != FAT32 ==> p.nFat < 0x1_0000
    ensures p.fmt == FAT32 <==> p.nDir == 0
  {
    RootDirectory(ss);
  }
}
