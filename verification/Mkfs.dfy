/**
 Formatting, on the drive: `f_mkfs` writes the partition table, the boot record, an empty FAT, an
 empty root directory and the FSINFO sector, and a mount finds the volume it planned.
 */
module Mkfs {
  import opened Bits
  import opened Layout
  import opened FreeSpace
  import opened Chains
  import opened Mount
  import opened MkfsPlan

  datatype FormatResult = Formatted | INVALID_PARAMETER | MKFS_ABORTED | WRITE_ERR

  /** "\xEB\xFE\x90" "MSDOS5.0" */
  const BOOT_CODE: seq<Byte> := [0xEB, 0xFE, 0x90, 0x4D, 0x53, 0x44, 0x4F, 0x53, 0x35, 0x2E, 0x30]
  /** "NO NAME    " "FAT32   " */
  const LABEL32: seq<Byte> := [0x4E, 0x4F, 0x20, 0x4E, 0x41, 0x4D, 0x45, 0x20, 0x20, 0x20, 0x20,
    0x46, 0x41, 0x54, 0x33, 0x32, 0x20, 0x20, 0x20]
  /** "NO NAME    " "FAT     " */
  const LABEL16: seq<Byte> := [0x4E, 0x4F, 0x20, 0x4E, 0x41, 0x4D, 0x45, 0x20, 0x20, 0x20, 0x20,
    0x46, 0x41, 0x54, 0x20, 0x20, 0x20, 0x20, 0x20]

  function Media(sfd: nat): Byte { if sfd != 0 then 0xF0 else 0xF8 }

  /** The system ID in the partition table. */
  function SysId(fmt: FatType, nVol: nat): Byte {
    if fmt == Fat32 then 0x0C else if nVol >= 0x1_0000 then 0x06 else if fmt == Fat12 then 0x01 else 0x04
  }

  // ---- what the sectors hold ----

  /** The master boot record of a drive with one partition, from sector 63 on. */
  predicate IsMbr(s: Sector, fmt: FatType, nVol: nat) {
    && (forall k :: 0 <= k < 446 ==> s[k] == 0) && (forall k :: 462 <= k < 510 ==> s[k] == 0)
    && s[446] == 0 && s[447] == 1 && s[448] == 1 && s[449] == 0 && s[450] == SysId(fmt, nVol) && s[451] == 254
    && s[452] == Or((63 + nVol) / 63 / 255 / 4, 63) % 0x100 && s[453] == (63 + nVol) / 63 / 255 % 0x100
    && LdDword(s, 454) == 63 && LdDword(s, 458) == nVol && LdWord(s, BS_55AA) == 0xAA55
  }

  /** The boot record `s` carries the plan in its parameter block. */
  predicate Carries(b: Bpb, p: Plan) {
    var c := BpbOf(p);
    && b.bytsPerSec == c.bytsPerSec && b.secPerClus == c.secPerClus && b.rsvdSecCnt == c.rsvdSecCnt
    && b.numFats == c.numFats && b.rootEntCnt == c.rootEntCnt && b.totSec16 == c.totSec16 && b.totSec32 == c.totSec32
    && b.fatSz16 == c.fatSz16
    && (p.fmt == Fat32 ==> b.fatSz32 == c.fatSz32 && b.rootClus == c.rootClus && b.fsInfo == c.fsInfo)
  }

  /** The boot record of the volume. */
  predicate IsVbr(s: Sector, p: Plan, md: Byte, vsn: nat) {
    && s[..11] == BOOT_CODE && Carries(ReadBpb(s), p) && s[21] == md
    && LdWord(s, 24) == 63 && LdWord(s, 26) == 255 && LdDword(s, 28) == p.bVol
    && (if p.fmt == Fat32 then
          && LdDword(s, 40) == 0 && LdWord(s, 50) == 6 && (forall k :: 52 <= k < 64 ==> s[k] == 0)
          && s[64] == 0x80 && s[65] == 0 && s[66] == 0x29 && LdDword(s, 67) == vsn && s[71..90] == LABEL32
        else
          && s[36] == 0x80 && s[37] == 0 && s[38] == 0x29 && LdDword(s, 39) == vsn && s[43..62] == LABEL16
          && (forall k :: 62 <= k < 90 ==> s[k] == 0))
    && (forall k :: 90 <= k < 510 ==> s[k] == 0) && LdWord(s, BS_55AA) == 0xAA55
  }

  /** The first sector of the FAT: the reserved entries, and on FAT32 the root directory's cluster. */
  predicate IsFirstFat(s: Sector, fmt: FatType, md: Byte) {
    && s[0] == md && s[1] == 0xFF && s[2] == 0xFF && s[3] == (if fmt == Fat12 then 0 else 0xFF)
    && (forall k :: 4 <= k < 8 ==> s[k] == if fmt == Fat32 then 0xFF else 0)
    && (forall k :: 8 <= k < 11 ==> s[k] == if fmt == Fat32 then 0xFF else 0)
    && s[11] == (if fmt == Fat32 then 0x0F else 0)
    && (forall k :: 12 <= k < SS ==> s[k] == 0)
  }

  /** The first sector after the FAT and the root directory. */
  function End(p: Plan): nat {
    p.bVol + p.nRsv + (if p.nFat == 0 then 1 else p.nFat) + if p.fmt == Fat32 then p.au else p.nDir
  }

  /** Drive `b` is drive `a` formatted by plan `p`. */
  ghost predicate IsFormatted(a: Image, b: Image, sfd: nat, p: Plan, vsn: nat) {
    && |b| == |a| && End(p) <= |b| && p.bVol + 7 < |b|
    && (sfd == 0 ==> IsMbr(b[0], p.fmt, p.nVol))
    && IsVbr(b[p.bVol], p, Media(sfd), vsn)
    && (p.fmt == Fat32 ==>
          p.nClst < DWORD_SIZE && b[p.bVol + 6] == b[p.bVol]
            && b[p.bVol + 1] == b[p.bVol + 7] == FsInfo(Sub32(p.nClst, 1), 2))
    && IsFirstFat(b[p.bVol + p.nRsv], p.fmt, Media(sfd))
    && (forall t: nat :: p.bVol + p.nRsv < t < End(p) ==> b[t] == ZeroSector())
    && forall t: nat :: t < |b| && !Touched(sfd, p, t) ==> b[t] == a[t]
  }

  predicate Touched(sfd: nat, p: Plan, t: nat) {
    || (sfd == 0 && t == 0) || t == p.bVol || p.bVol + p.nRsv <= t < End(p)
    || (p.fmt == Fat32 && (t == p.bVol + 1 || t == p.bVol + 6 || t == p.bVol + 7))
  }

  // ---- building the sectors ----

  /** `mem_cpy` into a sector. */
  function Stamp(w: Sector, i: nat, d: seq<Byte>): (r: Sector)
    requires i + |d| <= SS
    ensures r[i..i + |d|] == d
    ensures forall k :: 0 <= k < SS && !(i <= k < i + |d|) ==> r[k] == w[k]
  {
    Splice(w, i, d)
  }

  method BuildMbr(fmt: FatType, nVol: nat) returns (tbl: Sector)
    requires nVol < DWORD_SIZE
    ensures IsMbr(tbl, fmt, nVol)
  {
    tbl := ZeroSector();
    tbl := tbl[MBR_TABLE + 1 := 1][MBR_TABLE + 2 := 1][MBR_TABLE + 3 := 0];
    tbl := tbl[MBR_TABLE + 4 := SysId(fmt, nVol)][MBR_TABLE + 5 := 254];
    var n := (63 + nVol) / 63 / 255;
    tbl := tbl[MBR_TABLE + 6 := Or(n / 4, 63) % 0x100][MBR_TABLE + 7 := n % 0x100];
    hide Or, StWord, StDword, SysId;
    var s1 := StDword(tbl, MBR_TABLE + 8, 63);
    var s2 := StDword(s1, MBR_TABLE + 12, nVol);
    var s3 := StWord(s2, BS_55AA, 0xAA55);
    hide LdDword;
    SameDword(s1, s3, 454);
    SameDword(s2, s3, 458);
    tbl := s3;
  }

  /** The part of the boot record before offset 36, zeros behind it. */
  predicate IsHead(s: Sector, p: Plan, md: Byte) {
    && s[..11] == BOOT_CODE && LdWord(s, 11) == SS && s[13] == p.au && LdWord(s, 14) == p.nRsv && s[16] == 1
    && LdWord(s, 17) == (if p.fmt == Fat32 then 0 else N_ROOTDIR)
    && LdWord(s, 19) == (if p.nVol < 0x1_0000 then p.nVol else 0) && s[21] == md && LdWord(s, 22) == 0
    && LdWord(s, 24) == 63 && LdWord(s, 26) == 255 && LdDword(s, 28) == p.bVol
    && LdDword(s, 32) == (if p.nVol < 0x1_0000 then 0 else p.nVol)
    && forall k :: 36 <= k < SS ==> s[k] == 0
  }

  method BuildHead(p: Plan, md: Byte) returns (tbl: Sector)
    requires p.au < 0x100 && p.nRsv < 0x1_0000 && p.nVol < DWORD_SIZE && p.bVol < DWORD_SIZE
    ensures IsHead(tbl, p, md) && forall k :: 36 <= k < SS ==> tbl[k] == 0
  {
    hide StWord, StDword, Stamp;
    tbl := Stamp(ZeroSector(), 0, BOOT_CODE);
    tbl := StWord(tbl, 11, SS)[13 := p.au];
    tbl := StWord(tbl, 14, p.nRsv)[16 := 1];
    tbl := StWord(tbl, 17, if p.fmt == Fat32 then 0 else N_ROOTDIR);
    if p.nVol < 0x1_0000 {
      tbl := StWord(tbl, 19, p.nVol);
    } else {
      tbl := StDword(tbl, 32, p.nVol);
    }
    tbl := tbl[21 := md];
    tbl := StWord(tbl, 24, 63);
    tbl := StWord(tbl, 26, 255);
    tbl := StDword(tbl, 28, p.bVol);
  }

  /** The boot record: the head, the fields of the sub-type, the signature. */
  method BuildVbr(p: Plan, md: Byte, vsn: nat) returns (tbl: Sector)
    requires p.au < 0x100 && p.nRsv < 0x1_0000 && p.nVol < DWORD_SIZE && p.bVol < DWORD_SIZE && vsn < DWORD_SIZE
    requires if p.fmt == Fat32 then p.nFat < DWORD_SIZE else p.nFat < 0x1_0000
    ensures IsVbr(tbl, p, md, vsn)
  {
    hide IsHead, StWord, StDword, Stamp, IsVbr;
    var head := BuildHead(p, md);
    if p.fmt == Fat32 {
      tbl := StDword(head, 67, vsn);
      tbl := StDword(tbl, 36, p.nFat);
      tbl := StDword(tbl, 44, 2);
      tbl := StWord(tbl, 48, 1);
      tbl := StWord(tbl, 50, 6);
      tbl := tbl[64 := 0x80][66 := 0x29];
      tbl := Stamp(tbl, 71, LABEL32);
      tbl := StWord(tbl, BS_55AA, 0xAA55);
      IsVbr32(head, tbl, p, md, vsn);
    } else {
      tbl := StDword(head, 39, vsn);
      tbl := StWord(tbl, 22, p.nFat);
      tbl := tbl[36 := 0x80][38 := 0x29];
      tbl := Stamp(tbl, 43, LABEL16);
      tbl := StWord(tbl, BS_55AA, 0xAA55);
      IsVbr16(head, tbl, p, md, vsn);
    }
  }

  lemma IsVbr32(h: Sector, s: Sector, p: Plan, md: Byte, vsn: nat)
    requires IsHead(h, p, md) && p.fmt == Fat32
    requires s[..36] == h[..36] && LdDword(s, 67) == vsn && LdDword(s, 36) == p.nFat && LdDword(s, 44) == 2
    requires LdDword(s, 40) == 0 && LdWord(s, 48) == 1 && LdWord(s, 50) == 6 && s[64] == 0x80 && s[65] == 0
    requires s[66] == 0x29
    requires s[71..90] == LABEL32 && LdWord(s, BS_55AA) == 0xAA55
    requires (forall k :: 52 <= k < 64 ==> s[k] == 0) && forall k :: 90 <= k < 510 ==> s[k] == 0
    ensures IsVbr(s, p, md, vsn)
  {
    SameHead(h, s, p, md);
    hide LdDword, LdWord;
  }

  lemma IsVbr16(h: Sector, s: Sector, p: Plan, md: Byte, vsn: nat)
    requires IsHead(h, p, md) && p.fmt != Fat32
    requires s[..22] == h[..22] && s[24..36] == h[24..36] && LdDword(s, 39) == vsn && LdWord(s, 22) == p.nFat
    requires s[36] == 0x80 && s[37] == 0 && s[38] == 0x29
    requires s[43..62] == LABEL16 && LdWord(s, BS_55AA) == 0xAA55
    requires (forall k :: 62 <= k < 90 ==> s[k] == 0) && forall k :: 90 <= k < 510 ==> s[k] == 0
    ensures IsVbr(s, p, md, vsn)
  {
    SameHead(h, s, p, md);
    hide LdDword, LdWord;
  }

  lemma SameHead(h: Sector, s: Sector, p: Plan, md: Byte)
    requires IsHead(h, p, md) && s[..22] == h[..22] && s[24..36] == h[24..36]
    ensures s[..11] == BOOT_CODE && LdWord(s, 11) == SS && s[13] == p.au && LdWord(s, 14) == p.nRsv && s[16] == 1
    ensures LdWord(s, 17) == (if p.fmt == Fat32 then 0 else N_ROOTDIR)
    ensures LdWord(s, 19) == (if p.nVol < 0x1_0000 then p.nVol else 0) && s[21] == md
    ensures LdWord(s, 24) == 63 && LdWord(s, 26) == 255 && LdDword(s, 28) == p.bVol
    ensures LdDword(s, 32) == (if p.nVol < 0x1_0000 then 0 else p.nVol)
    ensures s[22..24] == h[22..24] ==> LdWord(s, 22) == 0
  {
    SameRun(h, s, 0, 22);
    SameRun(h, s, 24, 36);
    if s[22..24] == h[22..24] {
      SameRun(h, s, 22, 24);
    }
    assert s[..11] == h[..11];
  }

  lemma SameRun(h: Sector, s: Sector, i: nat, j: nat)
    requires i <= j <= SS && s[i..j] == h[i..j]
    ensures forall k :: i <= k < j ==> s[k] == h[k]
  {
    forall k | i <= k < j
      ensures s[k] == h[k]
    {
      assert s[i..j][k - i] == h[i..j][k - i];
    }
  }

  lemma DwordBytes(w: Sector, i: nat, v: nat)
    requires i + 3 < SS
    ensures var r := StDword(w, i, v);
      r[i] == v % 0x100 && r[i + 1] == v % 0x1_0000 / 0x100 % 0x100
      && r[i + 2] == v / 0x1_0000 % 0x1_0000 % 0x100 && r[i + 3] == v / 0x1_0000 % 0x1_0000 / 0x100 % 0x100
  {
  }

  /** The reserved entries of the FAT; the low byte is the media descriptor. */
  method BuildFirstFat(fmt: FatType, md: Byte) returns (tbl: Sector)
    ensures IsFirstFat(tbl, fmt, md)
  {
    var z := ZeroSector();
    if fmt == Fat32 {
      var s0 := StDword(z, 0, md + 0xFFFF_FF00);
      var s1 := StDword(s0, 4, 0xFFFF_FFFF);
      tbl := StDword(s1, 8, 0x0FFF_FFFF);
      DwordBytes(z, 0, md + 0xFFFF_FF00);
      DwordBytes(s0, 4, 0xFFFF_FFFF);
      DwordBytes(s1, 8, 0x0FFF_FFFF);
      hide StDword;
      assert tbl[4] == 0xFF && tbl[5] == 0xFF && tbl[6] == 0xFF && tbl[7] == 0xFF;
      assert tbl[8] == 0xFF && tbl[9] == 0xFF && tbl[10] == 0xFF && tbl[11] == 0x0F;
    } else {
      var v := md + if fmt == Fat12 then 0x00FF_FF00 else 0xFFFF_FF00;
      tbl := StDword(z, 0, v);
      DwordBytes(z, 0, v);
      hide StDword;
    }
  }

  lemma WordAfterDword(w: Sector, i: nat, v: nat, j: nat, u: nat)
    requires i + 3 < j < SS - 1
    ensures StWord(StDword(w, i, v), j, u) == StDword(StWord(w, j, u), i, v)
  {
  }

  /** The FSINFO sector, its signature written last. */
  method BuildInfo(free: nat, last: nat) returns (tbl: Sector)
    ensures tbl == FsInfo(free, last)
  {
    var z := ZeroSector();
    var a := StDword(z, FSI_LEAD_SIG, 0x41615252);
    var b := StDword(a, FSI_STRUC_SIG, 0x61417272);
    var c := StDword(b, FSI_FREE_COUNT, free);
    var d := StDword(c, FSI_NXT_FREE, last);
    tbl := StWord(d, BS_55AA, 0xAA55);
    WordAfterDword(c, FSI_NXT_FREE, last, BS_55AA, 0xAA55);
    WordAfterDword(b, FSI_FREE_COUNT, free, BS_55AA, 0xAA55);
    WordAfterDword(a, FSI_STRUC_SIG, 0x61417272, BS_55AA, 0xAA55);
    WordAfterDword(z, FSI_LEAD_SIG, 0x41615252, BS_55AA, 0xAA55);
    hide StWord, StDword;
  }

  // ---- writing them ----

  /** `disk_write` of one sector: fails past the end of the drive. */
  method DiskWrite(disk: array<Sector>, sect: nat, s: Sector) returns (ok: bool)
    modifies disk
    ensures ok <==> sect < disk.Length
    ensures disk[..] == if ok then old(disk[..])[sect := s] else old(disk[..])
  {
    ok := sect < disk.Length;
    if ok {
      disk[sect] := s;
    }
  }

  ghost predicate ZeroRun(a: Image, b: Image, s: nat, n: nat) {
    |b| == |a| && forall t: nat :: t < |b| ==> b[t] == if s <= t < s + n then ZeroSector() else a[t]
  }

  /** Zeros `n` sectors from `sect` on. */
  method WriteZeros(disk: array<Sector>, sect: nat, n: nat) returns (ok: bool)
    requires sect <= disk.Length
    modifies disk
    ensures ok <==> sect + n <= disk.Length
    ensures ok ==> ZeroRun(old(disk[..]), disk[..], sect, n)
  {
    var i: nat := 0;
    while i < n
      invariant i <= n && sect + i <= disk.Length
      invariant ZeroRun(old(disk[..]), disk[..], sect, i)
    {
      ok := DiskWrite(disk, sect + i, ZeroSector());
      if !ok {
        return;
      }
      i := i + 1;
    }
    ok := true;
  }

  /** The cluster size in sectors. */
  method PickAu(au: nat, nVol: nat) returns (a: nat)
    ensures a == AuFor(au, nVol)
  {
    a := au;
    if a != 0 && And(a, a - 1) != 0 {
      a := 0;
    }
    if a == 0 {
      var vs := nVol / 2000;
      var i: nat := 0;
      while vs < VST[i]
        invariant i < |VST| && AutoAu(vs, 0) == AutoAu(vs, i)
        decreases |VST| - i
      {
        i := i + 1;
      }
      a := CST[i];
    }
    if a >= SS {
      a := a / SS;
    }
    assert a != 0;      // the source sets it to 1 otherwise
    if a > 128 {
      a := 128;
    }
  }

  /** The regions, before the data area is aligned. */
  method MakeDraft(sfd: nat, au: nat, nDisk: nat) returns (d: Plan)
    requires 128 <= nDisk < DWORD_SIZE
    ensures d == Draft(sfd, au, nDisk)
  {
    var bVol := if sfd != 0 then 0 else 63;
    var nVol := nDisk - bVol;
    hide *;
    Sizes();
    var a := PickAu(au, nVol);
    AuIsSound(au, nVol);
    var nClst := Share(nVol, a);
    TypeBySize(nClst);
    var fmt := Fat12;
    if nClst >= MIN_FAT16 {
      fmt := Fat16;
    }
    if nClst >= MIN_FAT32 {
      fmt := Fat32;
    }
    var nFat := SizeFat(fmt, nClst);
    var nRsv, nDir;
    if fmt == Fat32 {
      nRsv, nDir := 32, 0;
    } else {
      nRsv, nDir := 1, N_ROOTDIR * 32 / SS;
    }
    d := Plan(fmt, a, bVol, nVol, nRsv, nFat, nDir, nClst);
    IsDraft(sfd, au, nDisk, d);
  }

  method Share(n: nat, a: nat) returns (q: nat)
    requires a >= 1
    ensures q == n / a
  {
    q := n / a;
  }

  /** The sectors of the FAT. */
  method SizeFat(fmt: FatType, nClst: nat) returns (nFat: nat)
    ensures nFat == FatFor(fmt, nClst)
  {
    if fmt == Fat32 {
      nFat := (nClst * 4 + 8 + SS - 1) % DWORD_SIZE / SS;
    } else {
      nFat := if fmt == Fat12 then (nClst * 3 + 1) / 2 + 3 else nClst * 2 + 4;
      nFat := (nFat + SS - 1) / SS;
    }
  }

  lemma IsDraft(sfd: nat, au: nat, nDisk: nat, d: Plan)
    requires 128 <= nDisk < DWORD_SIZE && d.bVol == (if sfd != 0 then 0 else 63) && d.nVol == nDisk - d.bVol
    requires d.au == AuFor(au, d.nVol) >= 1 && d.nClst == d.nVol / d.au && d.fmt == SubType(d.nClst)
    requires d.nFat == FatFor(d.fmt, d.nClst)
    requires d.nRsv == (if d.fmt == Fat32 then 32 else 1) && d.nDir == (if d.fmt == Fat32 then 0 else 32)
    ensures d == Draft(sfd, au, nDisk)
  {
    hide SubType, FatFor, AuFor;
  }

  lemma Sizes()
    ensures SS == 512 && DWORD_SIZE == 0x1_0000_0000 && MIN_FAT16 == 4086 && MIN_FAT32 == 65526 && N_ROOTDIR == 512
  {
  }

  lemma TypeBySize(n: nat)
    ensures SubType(n) == if n >= 65526 then Fat32 else if n >= 4086 then Fat16 else Fat12
  {
  }

  /** The arithmetic of `f_mkfs`. */
  method MakePlan(sfd: nat, au: nat, nDisk: nat, blk: nat) returns (r: Planned)
    requires 128 <= nDisk < DWORD_SIZE
    ensures r == PlanOf(sfd, au, nDisk, blk)
  {
    var d := MakeDraft(sfd, au, nDisk);
    DraftIs(sfd, au, nDisk);
    hide *;
    var bFat := d.bVol + d.nRsv;
    var bData := bFat + d.nFat + d.nDir;
    HeadIs(d);
    PlanSteps(sfd, au, nDisk, blk);
    if d.nVol < bData + d.au - d.bVol {
      return Refused;
    }
    var nRsv, nFat := d.nRsv, d.nFat;
    var n := AlignedGap(bData, blk);
    if d.fmt == Fat32 {
      nRsv := nRsv + n;
    } else {
      nFat := nFat + n;
    }
    MovedIs(d, n);
    DwordSize();
    var nClst := (d.nVol + DWORD_SIZE - (nRsv + nFat + d.nDir)) % DWORD_SIZE / d.au;
    if (d.fmt == Fat16 && nClst < MIN_FAT16) || (d.fmt == Fat32 && nClst < MIN_FAT32) {
      return Refused;
    }
    r := Accepted(d.(nRsv := nRsv, nFat := nFat, nClst := nClst));
  }

  lemma PlanSteps(sfd: nat, au: nat, nDisk: nat, blk: nat)
    requires 128 <= nDisk < DWORD_SIZE
    ensures var d := Draft(sfd, au, nDisk);
      var p := Moved(d, Gap(d.bVol + Head(d), Block(blk)));
      PlanOf(sfd, au, nDisk, blk) ==
        if d.nVol < Head(d) + d.au || (p.fmt == Fat16 && p.nClst < MIN_FAT16) || (p.fmt == Fat32 && p.nClst < MIN_FAT32)
        then Refused else Accepted(p)
  {
    hide Draft, Head, Moved, Gap;
  }

  /** The distance from `bData` to the next block boundary. */
  method AlignedGap(bData: nat, blk: nat) returns (n: nat)
    ensures n == Gap(bData, Block(blk))
  {
    n := if blk == 0 || blk > 32768 then 1 else blk;
    AndBelow(bData + n - 1, n - 1);
    n := AndNot(bData + n - 1, n - 1) - bData;
  }

  /** What `f_mkfs` does to drive `a`. */
  ghost predicate Outcome(a: Image, b: Image, sfd: nat, au: nat, blk: nat, vsn: nat, r: FormatResult)
    requires |a| < DWORD_SIZE
  {
    if sfd > 1 then r == INVALID_PARAMETER && b == a
    else if |a| < 128 then r == WRITE_ERR && b == a
    else if PlanOf(sfd, au, |a|, blk) == Refused then r == MKFS_ABORTED && b == a
    else
      var p := PlanOf(sfd, au, |a|, blk).p;
      if End(p) <= |a| then r == Formatted && IsFormatted(a, b, sfd, p, vsn) else r == WRITE_ERR
  }

  /** `f_mkfs` on a drive that can be written up to its last sector; `blk` is its answer to
      GET_BLOCK_SIZE, 0 if it has none, `vsn` the current time. */
  method Mkfs(disk: array<Sector>, sfd: nat, au: nat, blk: nat, vsn: nat) returns (r: FormatResult)
    requires disk.Length < DWORD_SIZE && vsn < DWORD_SIZE
    modifies disk
    ensures Outcome(old(disk[..]), disk[..], sfd, au, blk, vsn, r)
  {
    if sfd > 1 {
      return INVALID_PARAMETER;
    }
    if disk.Length < 128 {
      return WRITE_ERR;
    }
    var plan := MakePlan(sfd, au, disk.Length, blk);
    if plan == Refused {
      return MKFS_ABORTED;
    }
    ghost var a := disk[..];
    var p := plan.p;
    PlanIsRegular(sfd, au, disk.Length, blk, p);
    hide *;
    var ok := WritePlan(disk, sfd, p, vsn);
    if !ok {
      FailedOutcome(a, disk[..], sfd, au, blk, vsn, p);
      return WRITE_ERR;
    }
    DoneOutcome(a, disk[..], sfd, au, blk, vsn, p);
    r := Formatted;
  }

  /** The writes of `f_mkfs`. */
  method WritePlan(disk: array<Sector>, sfd: nat, p: Plan, vsn: nat) returns (ok: bool)
    requires 128 <= disk.Length < DWORD_SIZE && p.bVol == (if sfd != 0 then 0 else 63) && vsn < DWORD_SIZE
    requires p.au >= 1 && Regular(p, p.nVol / p.au)
    modifies disk
    ensures ok <==> End(p) <= disk.Length
    ensures ok ==> IsFormatted(old(disk[..]), disk[..], sfd, p, vsn)
  {
    hide *;
    RegularSizes(p, p.nVol / p.au);
    ghost var a := disk[..];
    ok := WriteRecords(disk, sfd, p, vsn);
    ghost var b := disk[..];
    ok := WriteFat(disk, sfd, p);
    if !ok {
      return;
    }
    ghost var c := disk[..];
    RecordedAt(a, b, sfd, p, vsn);
    WriteInfo(disk, p);
    FormattedAll(a, b, c, disk[..], sfd, p, vsn);
  }

  lemma RecordedAt(a: Image, b: Image, sfd: nat, p: Plan, vsn: nat)
    requires Recorded(a, b, sfd, p, vsn)
    ensures p.bVol + 7 < |a|
  {
  }

  lemma RegularSizes(p: Plan, n: nat)
    requires Regular(p, n)
    ensures 1 <= p.au <= 128 && p.nVol < DWORD_SIZE && 1 <= p.nRsv < 0x1_0000 && p.nDir <= 32
    ensures p.nClst < DWORD_SIZE
    ensures p.fmt == Fat32 ==> p.nRsv >= 32 && p.nFat < DWORD_SIZE && 65526 <= p.nClst && p.nDir == 0
    ensures p.fmt != Fat32 ==> 1 <= p.nFat < 0x1_0000 && p.nDir == 32
  {
    hide And, IsPow2, FatFor, SubType;
    NotLarger((p.nVol + DWORD_SIZE - Head(p)) % DWORD_SIZE, p.au);
  }

  lemma NotLarger(x: nat, a: nat)
    requires a >= 1
    ensures x / a <= x
  {
  }

  lemma FailedOutcome(a: Image, b: Image, sfd: nat, au: nat, blk: nat, vsn: nat, p: Plan)
    requires sfd <= 1 && 128 <= |a| < DWORD_SIZE && PlanOf(sfd, au, |a|, blk) == Accepted(p) && End(p) > |a|
    ensures Outcome(a, b, sfd, au, blk, vsn, WRITE_ERR)
  {
    hide PlanOf, End;
  }

  lemma DoneOutcome(a: Image, b: Image, sfd: nat, au: nat, blk: nat, vsn: nat, p: Plan)
    requires sfd <= 1 && 128 <= |a| < DWORD_SIZE && PlanOf(sfd, au, |a|, blk) == Accepted(p) && End(p) <= |a|
    requires IsFormatted(a, b, sfd, p, vsn)
    ensures Outcome(a, b, sfd, au, blk, vsn, Formatted)
  {
    hide PlanOf, End, IsFormatted;
  }

  /** The partition table and the boot records are written. */
  ghost predicate Recorded(a: Image, b: Image, sfd: nat, p: Plan, vsn: nat) {
    && |b| == |a| && p.bVol + 7 < |b|
    && (sfd == 0 ==> IsMbr(b[0], p.fmt, p.nVol))
    && IsVbr(b[p.bVol], p, Media(sfd), vsn)
    && (p.fmt == Fat32 ==> b[p.bVol + 6] == b[p.bVol])
    && forall t: nat :: t < |b| && !(sfd == 0 && t == 0) && t != p.bVol && !(p.fmt == Fat32 && t == p.bVol + 6) ==>
      b[t] == a[t]
  }

  /** The partition table, the boot record and its copy. */
  method WriteRecords(disk: array<Sector>, sfd: nat, p: Plan, vsn: nat) returns (ok: bool)
    requires 128 <= disk.Length && p.bVol == (if sfd != 0 then 0 else 63) && vsn < DWORD_SIZE
    requires p.au < 0x100 && p.nRsv < 0x1_0000 && p.nVol < DWORD_SIZE
    requires if p.fmt == Fat32 then p.nFat < DWORD_SIZE else p.nFat < 0x1_0000
    modifies disk
    ensures ok && Recorded(old(disk[..]), disk[..], sfd, p, vsn)
  {
    hide IsMbr, IsVbr, Media;
    if sfd == 0 {
      var mbr := BuildMbr(p.fmt, p.nVol);
      ok := DiskWrite(disk, 0, mbr);
      if !ok {
        return;
      }
    }
    var tbl := BuildVbr(p, Media(sfd), vsn);
    ok := DiskWrite(disk, p.bVol, tbl);
    if !ok {
      return;
    }
    if p.fmt == Fat32 {
      var _ := DiskWrite(disk, p.bVol + 6, tbl);
    }
  }

  /** The FAT and the root directory are cleared. */
  ghost predicate Cleared(a: Image, b: Image, sfd: nat, p: Plan) {
    && |b| == |a| && p.bVol + p.nRsv < |b|
    && IsFirstFat(b[p.bVol + p.nRsv], p.fmt, Media(sfd))
    && forall t: nat :: t < |b| && t != p.bVol + p.nRsv ==> b[t] == if p.bVol + p.nRsv < t < End(p) then ZeroSector()
      else a[t]
  }

  /** The FAT, and the root directory behind it. */
  method WriteFat(disk: array<Sector>, sfd: nat, p: Plan) returns (ok: bool)
    requires 1 <= if p.fmt == Fat32 then p.au else p.nDir
    modifies disk
    ensures ok <==> End(p) <= disk.Length
    ensures ok ==> Cleared(old(disk[..]), disk[..], sfd, p)
  {
    hide IsFirstFat, Media, ZeroSector;
    var wsect := p.bVol + p.nRsv;
    var tbl := BuildFirstFat(p.fmt, Media(sfd));
    ok := DiskWrite(disk, wsect, tbl);
    if !ok {
      return;
    }
    wsect := wsect + 1;
    var n := if p.nFat == 0 then 0 else p.nFat - 1;
    ok := WriteZeros(disk, wsect, n);
    if !ok {
      return;
    }
    wsect := wsect + n;
    ok := WriteZeros(disk, wsect, if p.fmt == Fat32 then p.au else p.nDir);
  }

  /** The FSINFO sector and its copy; the results are ignored. */
  method WriteInfo(disk: array<Sector>, p: Plan)
    requires p.bVol + 7 < disk.Length && p.nClst < DWORD_SIZE
    modifies disk
    ensures disk[..] == if p.fmt != Fat32 then old(disk[..]) else
      old(disk[..])[p.bVol + 1 := FsInfo(Sub32(p.nClst, 1), 2)][p.bVol + 7 := FsInfo(Sub32(p.nClst, 1), 2)]
  {
    if p.fmt == Fat32 {
      var tbl := BuildInfo(Sub32(p.nClst, 1), 2);
      hide FsInfo;
      var _ := DiskWrite(disk, p.bVol + 1, tbl);
      var _ := DiskWrite(disk, p.bVol + 7, tbl);
    }
  }

  lemma FormattedAll(a: Image, b: Image, c: Image, d: Image, sfd: nat, p: Plan, vsn: nat)
    requires Recorded(a, b, sfd, p, vsn) && Cleared(b, c, sfd, p) && End(p) <= |c|
    requires p.bVol == (if sfd != 0 then 0 else 63) && p.nRsv >= 1 && (p.fmt == Fat32 ==> p.nRsv >= 32)
    requires p.nClst < DWORD_SIZE
    requires d == if p.fmt != Fat32 then c else
      c[p.bVol + 1 := FsInfo(Sub32(p.nClst, 1), 2)][p.bVol + 7 := FsInfo(Sub32(p.nClst, 1), 2)]
    ensures IsFormatted(a, d, sfd, p, vsn)
  {
    hide IsMbr, IsVbr, IsFirstFat, Media, FsInfo, ZeroSector, Sub32;
  }

  // ---- mounting what was formatted ----

  /** What a mount reads besides the plan does not matter. */
  lemma CarriedPlan(b: Bpb, p: Plan, bsect: nat)
    requires Carries(b, p) && (p.fmt != Fat32 ==> p.nFat >= 1)
    ensures Clusters(b) == Clusters(BpbOf(p)) && (Acceptable(b) <==> Acceptable(BpbOf(p)))
    ensures p.fmt == SubType(Clusters(b)) ==> GeometryOf(b, bsect) == GeometryOf(BpbOf(p), bsect)
  {
    assert FatSize(b) == FatSize(BpbOf(p)) && Total(b) == Total(BpbOf(p));
    hide FatSize, Total, SubType, And, NeededBytes;
    assert SysSectors(b) == SysSectors(BpbOf(p));
    hide SysSectors;
  }

  lemma VbrIsFat(s: Sector, p: Plan, md: Byte, vsn: nat)
    requires IsVbr(s, p, md, vsn)
    ensures CheckFs(s) == 0 && Carries(ReadBpb(s), p)
  {
    hide Carries;
    if p.fmt == Fat32 {
      assert s[82] == s[71..90][11] && s[83] == s[71..90][12] && s[84] == s[71..90][13];
      FatString(s, 82);
    } else {
      assert s[54] == s[43..62][11] && s[55] == s[43..62][12] && s[56] == s[43..62][13];
      FatString(s, 54);
    }
  }

  lemma FatString(s: Sector, i: nat)
    requires i + 3 < SS && s[i] == 0x46 && s[i + 1] == 0x41 && s[i + 2] == 0x54
    ensures LdDword(s, i) % 0x100_0000 == 0x544146
  {
    var x: int := s[i + 3];
    ModUnique(LdDword(s, i), 0x100_0000, x, 0x544146);
  }

  lemma MbrIsNot(s: Sector, fmt: FatType, nVol: nat)
    requires IsMbr(s, fmt, nVol)
    ensures CheckFs(s) == 1 && Partition(s, 0) == 63
  {
    hide Or;
    assert LdDword(s, 54) == 0 && LdDword(s, 82) == 0;
  }

  /** A mount finds the volume where formatting put it. */
  lemma FoundWherePut(a: Image, b: Image, sfd: nat, p: Plan, vsn: nat)
    requires IsFormatted(a, b, sfd, p, vsn) && p.bVol == if sfd != 0 then 0 else 63
    ensures VolumeAt(b) == (p.bVol, 0)
  {
    hide IsVbr, IsMbr, CheckFs, Partition, Media;
    VbrIsFat(b[p.bVol], p, Media(sfd), vsn);
    if sfd == 0 {
      MbrIsNot(b[0], p.fmt, p.nVol);
      assert FirstPartition(b, b[0], 0) == (63, 0);
    }
  }

  /** The outcome a formatted volume has when it is mounted. */
  function MountOutcome(p: Plan): Found
    requires p.nClst < DWORD_SIZE
  {
    if p.fmt == Fat32 then Mounted(PlannedGeometry(p), false, Sub32(p.nClst, 1), 2)
    else Mounted(PlannedGeometry(p), true, 0xFFFF_FFFF, 0xFFFF_FFFF)
  }

  /** What formatting reports as done, a mount accepts, with the geometry and the free clusters that
      were planned, exactly if the aligned data area has room for a cluster and the size of the FAT
      wraps around equally often for both; every entry then lies in the FAT exactly if it does not
      wrap around at all, and cluster numbers fit the entries exactly if there are not too many. */
  lemma FormatThenMount(a: Image, b: Image, sfd: nat, au: nat, blk: nat, vsn: nat, r: Found)
    requires 128 <= |a| < DWORD_SIZE && Outcome(a, b, sfd, au, blk, vsn, Formatted) && Mounts(b, r)
    ensures PlanOf(sfd, au, |a|, blk).Accepted? && PlanOf(sfd, au, |a|, blk).p.nClst < DWORD_SIZE
    ensures var p := PlanOf(sfd, au, |a|, blk).p;
      r == if Roomy(p) && SameLaps(p) then MountOutcome(p) else NO_FILESYSTEM
    ensures var p := PlanOf(sfd, au, |a|, blk).p;
      r.Mounted? && |a| < INVALID_SECTOR ==>
        (Placed(r.g, |a|) <==> Countable(p)) && (Fits(r.g, |a|) <==> p.nClst + 2 <= EOC)
  {
    hide *;
    DwordSize();
    OutcomeIs(a, b, sfd, au, blk, vsn);
    var p := PlanOf(sfd, au, |a|, blk).p;
    PlanIsRegular(sfd, au, |a|, blk, p);
    RegularSizes(p, p.nVol / p.au);
    PlanMounts(sfd, au, |a|, blk, p);
    if Roomy(p) && SameLaps(p) {
      PlanGeometry(sfd, au, |a|, blk, p);
    }
    OutcomeOf(p);
    MountFormatted(a, b, sfd, p, vsn, r);
  }

  lemma OutcomeIs(a: Image, b: Image, sfd: nat, au: nat, blk: nat, vsn: nat)
    requires 128 <= |a| < DWORD_SIZE && Outcome(a, b, sfd, au, blk, vsn, Formatted)
    ensures sfd <= 1 && PlanOf(sfd, au, |a|, blk).Accepted? && End(PlanOf(sfd, au, |a|, blk).p) <= |a|
    ensures IsFormatted(a, b, sfd, PlanOf(sfd, au, |a|, blk).p, vsn)
  {
    hide PlanOf, IsFormatted, End;
  }

  lemma MountFormatted(a: Image, b: Image, sfd: nat, p: Plan, vsn: nat, r: Found)
    requires IsFormatted(a, b, sfd, p, vsn) && Mounts(b, r) && p.bVol == (if sfd != 0 then 0 else 63)
    requires p.nClst < DWORD_SIZE && (p.fmt != Fat32 ==> p.nFat >= 1)
    requires Acceptable(BpbOf(p)) <==> Roomy(p) && SameLaps(p)
    requires Roomy(p) && SameLaps(p) ==>
      Clusters(BpbOf(p)) == p.nClst && SubType(p.nClst) == p.fmt && GeometryOf(BpbOf(p), p.bVol) == PlannedGeometry(p)
    ensures r == if Roomy(p) && SameLaps(p) then MountOutcome(p) else NO_FILESYSTEM
  {
    hide *;
    FormattedAt(a, b, sfd, p, vsn);
    FoundWherePut(a, b, sfd, p, vsn);
    VbrIsFat(b[p.bVol], p, Media(sfd), vsn);
    var c := ReadBpb(b[p.bVol]);
    CarriedPlan(c, p, p.bVol);
    MountsAt(b, p.bVol, r);
    CarriedInfo(c, p);
    DwordSize();
    if Roomy(p) && SameLaps(p) {
      if p.fmt == Fat32 {
        FsInfoRoundTrip(Sub32(p.nClst, 1), 2);
      }
      OutcomeOf(p);
    }
  }

  lemma FormattedAt(a: Image, b: Image, sfd: nat, p: Plan, vsn: nat)
    requires IsFormatted(a, b, sfd, p, vsn)
    ensures p.bVol + 7 < |b| && IsVbr(b[p.bVol], p, Media(sfd), vsn)
    ensures p.fmt == Fat32 ==> p.nClst < DWORD_SIZE && b[p.bVol + 1] == FsInfo(Sub32(p.nClst, 1), 2)
  {
    hide IsVbr, FsInfo;
  }

  lemma MountsAt(b: Image, bsect: nat, r: Found)
    requires Mounts(b, r) && VolumeAt(b) == (bsect, 0) && bsect + 1 < |b|
    ensures var c := ReadBpb(b[bsect]);
      if !Acceptable(c) then r == NO_FILESYSTEM
      else if SubType(Clusters(c)) == Fat32 && c.fsInfo == 1 then
        r == Mounted(GeometryOf(c, bsect), false, LoadFsInfo(b[bsect + 1]).0, LoadFsInfo(b[bsect + 1]).1)
      else r == Mounted(GeometryOf(c, bsect), true, 0xFFFF_FFFF, 0xFFFF_FFFF)
  {
    hide Acceptable, ReadBpb, GeometryOf, SubType, Clusters, LoadFsInfo, VolumeAt;
  }

  lemma CarriedInfo(b: Bpb, p: Plan)
    requires Carries(b, p)
    ensures p.fmt == Fat32 ==> b.fsInfo == 1
  {
  }

  lemma OutcomeOf(p: Plan)
    requires p.nClst < DWORD_SIZE
    ensures p.fmt == Fat32 ==> MountOutcome(p) == Mounted(PlannedGeometry(p), false, Sub32(p.nClst, 1), 2)
    ensures p.fmt != Fat32 ==> MountOutcome(p) == Mounted(PlannedGeometry(p), true, 0xFFFF_FFFF, 0xFFFF_FFFF)
  {
    hide PlannedGeometry;
  }

  /** A volume that was formatted and cannot be mounted is a FAT12 volume whose aligned data area
      ends inside its first cluster, or a FAT32 volume for which the size of the FAT wraps around
      less often in the mount. */
  lemma Unmountable(a: Image, b: Image, sfd: nat, au: nat, blk: nat, vsn: nat)
    requires 128 <= |a| < DWORD_SIZE && Outcome(a, b, sfd, au, blk, vsn, Formatted)
    ensures var p := PlanOf(sfd, au, |a|, blk).p;
      Mounts(b, NO_FILESYSTEM) <==>
        || (p.fmt == Fat12 && Head(p) <= p.nVol < Head(p) + p.au)
        || (p.fmt == Fat32 && Laps(p.nClst) < Laps(Spanned(p)))
  {
    hide *;
    DwordSize();
    OutcomeIs(a, b, sfd, au, blk, vsn);
    var p := PlanOf(sfd, au, |a|, blk).p;
    PlanIsRegular(sfd, au, |a|, blk, p);
    RoomIfWritten(p, p.nVol / p.au);
    RoomyIs(p);
    PlanMounts(sfd, au, |a|, blk, p);
    SpannedIs(p);
    RegularFacts(p, p.nVol / p.au);
    RegularSizes(p, p.nVol / p.au);
    if Roomy(p) {
      CountedAgain(p, p.nVol / p.au);
      LapsGrow(p.fmt, p.nClst, p.nVol / p.au);
    }
    MountRefuses(a, b, sfd, p, vsn);
  }

  lemma LapsGrow(fmt: FatType, m: nat, n: nat)
    requires m <= n && fmt == SubType(n)
    ensures Laps(m) <= Laps(n) && (fmt != Fat32 ==> Laps(n) == 0)
  {
  }

  lemma MountRefuses(a: Image, b: Image, sfd: nat, p: Plan, vsn: nat)
    requires IsFormatted(a, b, sfd, p, vsn) && p.bVol == (if sfd != 0 then 0 else 63)
    requires p.fmt != Fat32 ==> p.nFat >= 1
    ensures Mounts(b, NO_FILESYSTEM) <==> !Acceptable(BpbOf(p))
  {
    hide *;
    FormattedAt(a, b, sfd, p, vsn);
    FoundWherePut(a, b, sfd, p, vsn);
    VbrIsFat(b[p.bVol], p, Media(sfd), vsn);
    CarriedPlan(ReadBpb(b[p.bVol]), p, p.bVol);
    RefusesAt(b, p.bVol);
  }

  lemma RefusesAt(b: Image, bsect: nat)
    requires VolumeAt(b) == (bsect, 0) && bsect + 1 < |b|
    ensures Mounts(b, NO_FILESYSTEM) <==> !Acceptable(ReadBpb(b[bsect]))
  {
    hide Acceptable, ReadBpb, GeometryOf, SubType, Clusters, LoadFsInfo, VolumeAt;
  }

  lemma RoomIfWritten(p: Plan, n: nat)
    requires Regular(p, n) && End(p) <= p.bVol + p.nVol
    ensures Roomy(p) || (p.fmt == Fat12 && Head(p) <= p.nVol)
  {
    hide And, IsPow2, FatFor, SubType;
    if !Roomy(p) && p.fmt != Fat32 {
      var left := p.nVol - Head(p);
      ModUnique(left + DWORD_SIZE, DWORD_SIZE, 1, left);
      NoCluster(left, p.au);
    }
  }

  /** Byte `i` of the FAT of a fresh volume. */
  lemma FreshByte(a: Image, b: Image, sfd: nat, p: Plan, vsn: nat, i: nat)
    requires IsFormatted(a, b, sfd, p, vsn) && i < p.nFat * SS
    ensures p.bVol + p.nRsv + p.nFat <= |b|
    ensures FatByte(b, PlannedGeometry(p), i) == if i < SS then b[p.bVol + p.nRsv][i] else 0
    ensures IsFirstFat(b[p.bVol + p.nRsv], p.fmt, Media(sfd))
  {
    hide IsVbr, IsMbr, IsFirstFat, Media, FsInfo;
    if i >= SS {
      assert b[p.bVol + p.nRsv + i / SS] == ZeroSector();
    }
  }

  /** Every cluster of a fresh volume is free, but for the root directory of FAT32. */
  lemma FreshEntry(a: Image, b: Image, sfd: nat, p: Plan, vsn: nat, c: nat)
    requires IsFormatted(a, b, sfd, p, vsn) && FatFits(PlannedGeometry(p), |b|) && 2 <= c < p.nClst + 2
    ensures FatEntry(b, PlannedGeometry(p), c) == if p.fmt == Fat32 && c == 2 then EOC else 0
  {
    var g := PlannedGeometry(p);
    hide IsFormatted, IsFirstFat, FatByte, Media, PlannedGeometry;
    assert g.fsType == p.fmt && g.fsize == p.nFat && g.nFatent == p.nClst + 2 && g.fatbase == p.bVol + p.nRsv by {
      PlannedIs(p);
    }
    EntryBound(g, c);
    if p.fmt == Fat12 {
      FreshByteZero(a, b, sfd, p, vsn, c + c / 2);
      FreshByteZero(a, b, sfd, p, vsn, c + c / 2 + 1);
    } else if p.fmt == Fat16 {
      FreshByteZero(a, b, sfd, p, vsn, 2 * c);
      FreshByteZero(a, b, sfd, p, vsn, 2 * c + 1);
    } else {
      FreshByteZero(a, b, sfd, p, vsn, 4 * c);
      FreshByteZero(a, b, sfd, p, vsn, 4 * c + 1);
      FreshByteZero(a, b, sfd, p, vsn, 4 * c + 2);
      FreshByteZero(a, b, sfd, p, vsn, 4 * c + 3);
    }
  }

  lemma PlannedIs(p: Plan)
    ensures var g := PlannedGeometry(p);
      && g.fsType == p.fmt && g.fsize == p.nFat && g.nFatent == p.nClst + 2 && g.fatbase == p.bVol + p.nRsv
      && g.csize == p.au
      && g.database == p.bVol + Head(p) && g.dirbase == (if p.fmt == Fat32 then 2 else p.bVol + p.nRsv + p.nFat)
  {
  }

  lemma FreshByteZero(a: Image, b: Image, sfd: nat, p: Plan, vsn: nat, i: nat)
    requires IsFormatted(a, b, sfd, p, vsn) && i < p.nFat * SS && i >= 3
    requires p.fmt != Fat12 ==> i >= 4
    ensures p.bVol + p.nRsv + p.nFat <= |b|
    ensures FatByte(b, PlannedGeometry(p), i) == if p.fmt != Fat32 || i >= 12 then 0 else if i == 11 then 0x0F else 0xFF
  {
    FreshByte(a, b, sfd, p, vsn, i);
    hide IsFormatted, FatByte, Media, PlannedGeometry;
  }

  /** With all entries from `k` on zero, all clusters from there on are free. */
  lemma {:induction false} AllFree(F: FatSeq, k: nat, m: nat)
    requires 2 <= k <= m <= |F| && forall c :: k <= c < m ==> F[c] == 0
    ensures FreeBelow(F, m) == FreeBelow(F, k) + (m - k)
  {
    if k < m {
      AllFree(F, k, m - 1);
    }
  }

  /** The `n` sectors from `s` on are zeros. */
  ghost predicate Blank(b: Image, s: nat, n: nat) {
    s + n <= |b| && forall t: nat :: s <= t < s + n ==> b[t] == ZeroSector()
  }

  /** No cluster is in use, but for the root directory of FAT32. */
  ghost predicate Unused(b: Image, g: Geometry)
    requires FatFits(g, |b|)
  {
    forall c: nat :: 2 <= c < g.nFatent ==> FatEntry(b, g, c) == if g.fsType == Fat32 && c == 2 then EOC else 0
  }

  /** Volume `p` on drive `b` has all its entries in the FAT and is empty: `FreeCount` is what a
      mount of it reports. */
  ghost predicate Fresh(b: Image, p: Plan) {
    var g := PlannedGeometry(p);
    && Placed(g, |b|) && Unused(b, g)
    && FreeCount(FatMap(b, g)) == (if p.fmt == Fat32 then p.nClst - 1 else p.nClst)
    && (if p.fmt == Fat32 then Blank(b, ClusterSector(g, 2), g.csize) else Blank(b, g.dirbase, g.nRootdir / 16))
  }

  /** Formatting leaves an empty FAT and a blank root directory, exactly if the size of the FAT does
      not wrap around. */
  lemma FreshVolume(a: Image, b: Image, sfd: nat, au: nat, blk: nat, vsn: nat)
    requires 128 <= |a| < INVALID_SECTOR && Outcome(a, b, sfd, au, blk, vsn, Formatted)
    requires Roomy(PlanOf(sfd, au, |a|, blk).p)
    ensures Fresh(b, PlanOf(sfd, au, |a|, blk).p) <==> Countable(PlanOf(sfd, au, |a|, blk).p)
  {
    hide *;
    DwordSize();
    InvalidSector();
    OutcomeIs(a, b, sfd, au, blk, vsn);
    var p := PlanOf(sfd, au, |a|, blk).p;
    PlanIsRegular(sfd, au, |a|, blk, p);
    var n := p.nVol / p.au;
    RegularFacts(p, n);
    FormattedSize(a, b, sfd, p, vsn);
    SpannedIs(p);
    CountedAgain(p, n);
    LapsGrow(p.fmt, p.nClst, n);
    PlanHoldsAll(p, n);
    if Fresh(b, p) {
      FreshIsPlaced(b, p);
      PlacedEntries(PlannedGeometry(p), |b|);
    }
    if Countable(p) {
      PlanGeometry(sfd, au, |a|, blk, p);
      FreshAll(a, b, sfd, p, vsn);
    }
  }

  lemma InvalidSector()
    ensures INVALID_SECTOR == 0xFFFF_FFFF
  {
  }

  lemma FreshIsPlaced(b: Image, p: Plan)
    requires Fresh(b, p)
    ensures Placed(PlannedGeometry(p), |b|)
  {
    hide Placed, Unused, Blank, FreeCount, PlannedGeometry, ClusterSector;
  }

  lemma FreshAll(a: Image, b: Image, sfd: nat, p: Plan, vsn: nat)
    requires IsFormatted(a, b, sfd, p, vsn) && Placed(PlannedGeometry(p), |b|)
    requires p.nDir == if p.fmt == Fat32 then 0 else 32
    ensures Fresh(b, p)
  {
    hide *;
    var g := PlannedGeometry(p);
    PlannedIs(p);
    FreshFits(g, |b|);
    FreshRoot(a, b, sfd, p, vsn);
    RootSectors(p);
    FirstCluster(g);
    FreshUnused(a, b, sfd, p, vsn);
    FreshCount(b, g);
    IsFresh(b, p);
  }

  lemma IsFresh(b: Image, p: Plan)
    requires var g := PlannedGeometry(p);
      && Placed(g, |b|) && Unused(b, g)
      && FreeCount(FatMap(b, g)) == (if p.fmt == Fat32 then p.nClst - 1 else p.nClst)
      && (if p.fmt == Fat32 then Blank(b, ClusterSector(g, 2), g.csize) else Blank(b, g.dirbase, g.nRootdir / 16))
    ensures Fresh(b, p)
  {
    hide Unused, Blank, FreeCount, PlannedGeometry, ClusterSector;
  }

  lemma FreshUnused(a: Image, b: Image, sfd: nat, p: Plan, vsn: nat)
    requires IsFormatted(a, b, sfd, p, vsn) && FatFits(PlannedGeometry(p), |b|)
    ensures Unused(b, PlannedGeometry(p))
  {
    var g := PlannedGeometry(p);
    hide IsFormatted, FatFits, FatEntry, PlannedGeometry;
    PlannedIs(p);
    forall c: nat | 2 <= c < g.nFatent
      ensures FatEntry(b, g, c) == if g.fsType == Fat32 && c == 2 then EOC else 0
    {
      FreshEntry(a, b, sfd, p, vsn, c);
    }
  }

  lemma FreshCount(b: Image, g: Geometry)
    requires FatFits(g, |b|) && Unused(b, g)
    ensures FreeCount(FatMap(b, g)) == if g.fsType == Fat32 then g.nFatent - 3 else g.nFatent - 2
  {
    hide FatEntry;
    var F := FatMap(b, g);
    if g.fsType == Fat32 {
      FreeBelowNext(F, 2);
      AllFree(F, 3, |F|);
    } else {
      AllFree(F, 2, |F|);
    }
  }

  lemma FirstCluster(g: Geometry)
    ensures ClusterSector(g, 2) == g.database
  {
  }

  lemma FreshFits(g: Geometry, size: nat)
    requires Placed(g, size)
    ensures FatFits(g, size) && g.nFatent >= 3 && g.fsize >= 1
  {
  }

  lemma FormattedSize(a: Image, b: Image, sfd: nat, p: Plan, vsn: nat)
    requires IsFormatted(a, b, sfd, p, vsn)
    ensures |b| == |a|
  {
  }

  lemma FreshRoot(a: Image, b: Image, sfd: nat, p: Plan, vsn: nat)
    requires IsFormatted(a, b, sfd, p, vsn) && p.nFat >= 1 && p.nDir == if p.fmt == Fat32 then 0 else 32
    ensures p.fmt == Fat32 ==> Blank(b, p.bVol + Head(p), p.au)
    ensures p.fmt != Fat32 ==> Blank(b, p.bVol + p.nRsv + p.nFat, 32)
  {
    hide IsVbr, IsMbr, IsFirstFat, Media, FsInfo, ZeroSector;
  }

  lemma RootSectors(p: Plan)
    ensures p.fmt != Fat32 ==> PlannedGeometry(p).nRootdir / 16 == 32
  {
  }
}
