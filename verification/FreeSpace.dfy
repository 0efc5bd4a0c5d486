/**
 Counting free clusters by a scan of the FAT sectors, and the FSINFO sector. All on values.
 */
module FreeSpace {
  import opened Bits
  import opened Layout
  import opened Chains

  // ---- counting ----

  /** The number of zero entries below `k`, entries 0 and 1 included. */
  ghost function Zeros(F: FatSeq, k: nat): (r: nat)
    requires k <= |F|
    ensures r <= k
  {
    if k == 0 then 0 else Zeros(F, k - 1) + if F[k - 1] == 0 then 1 else 0
  }

  function One(b: bool): nat {
    if b then 1 else 0
  }

  /** A scan over all entries counts the reserved ones, too. */
  lemma {:induction false} ZerosAreFree(F: FatSeq, k: nat)
    requires 2 <= k <= |F|
    ensures Zeros(F, k) == FreeBelow(F, k) + One(F[0] == 0) + One(F[1] == 0)
  {
    if k == 2 {
      assert Zeros(F, 1) == One(F[0] == 0);
    } else {
      ZerosAreFree(F, k - 1);
    }
  }

  /** With a zero entry 0 the scan counts one cluster too many. */
  lemma ZeroEntryCounted(F: FatSeq)
    requires F == [0, 0xFFF8, 0, 0xFFF8]
    ensures Zeros(F, 4) == 2 && FreeCount(F) == 1
  {
    ZerosAreFree(F, 4);
    assert FreeBelow(F, 2) == 0 && FreeBelow(F, 3) == 1 && FreeBelow(F, 4) == 1;
  }

  lemma ZerosNext(F: FatSeq, k: nat)
    requires k < |F|
    ensures Zeros(F, k + 1) == Zeros(F, k) + One(F[k] == 0)
    ensures Zeros(F, 0) == 0
  {
  }

  lemma FreeBelowNext(F: FatSeq, k: nat)
    requires 2 <= k < |F|
    ensures FreeBelow(F, k + 1) == FreeBelow(F, k) + One(F[k] == 0)
    ensures FreeBelow(F, 2) == 0
  {
  }

  /** The width in bytes of a word-aligned FAT entry. */
  function Width(t: FatType): nat {
    if t == Fat16 then 2 else 4
  }

  /** The scan is at entry `c`: `left` bytes of the window from `p` on are still to be seen. */
  predicate Scanning(g: Geometry, ws: nat, sect: nat, c: nat, p: nat, left: nat) {
    if left == 0 then Width(g.fsType) * c == SS * (sect - g.fatbase)
    else
      && p + left == SS && left >= Width(g.fsType) && left % Width(g.fsType) == 0
      && Width(g.fsType) * c == SS * (sect - g.fatbase - 1) + p
      && ws == sect - 1
  }

  lemma ScanStart0(g: Geometry, ws: nat)
    ensures Scanning(g, ws, g.fatbase, 0, 0, 0)
  {
  }

  lemma ScanLoads(g: Geometry, ws: nat, sect: nat, c: nat, p: nat)
    requires Scanning(g, ws, sect, c, p, 0)
    ensures Scanning(g, sect, sect + 1, c, 0, SS)
  {
  }

  lemma ScanMoves(g: Geometry, ws: nat, sect: nat, c: nat, p: nat, left: nat)
    requires Scanning(g, ws, sect, c, p, left) && left > 0
    ensures left >= Width(g.fsType)
    ensures Scanning(g, ws, sect, c + 1, p + Width(g.fsType), left - Width(g.fsType))
  {
  }

  /** The sector to load holds entries of the FAT. */
  lemma ScanInFat(g: Geometry, ws: nat, sect: nat, c: nat, p: nat)
    requires Scanning(g, ws, sect, c, p, 0) && g.fsType != Fat12
    requires c < g.nFatent && EntryEnd(g.fsType, g.nFatent - 1) <= g.fsize * SS
    ensures g.fatbase <= sect < g.fatbase + g.fsize
  {
  }

  /** The entry seen in the window. */
  function SeenEntry(t: FatType, w: Sector, p: nat): nat
    requires p + Width(t) <= SS
  {
    if t == Fat16 then LdWord(w, p) else LdDword(w, p) % 0x1000_0000
  }

  lemma ScanSees(img: Image, g: Geometry, sect: nat, ws: nat, c: nat, p: nat, left: nat, w: Sector)
    requires Scanning(g, ws, sect, c, p, left) && left > 0 && g.fsType != Fat12
    requires c < g.nFatent && FatFits(g, |img|)
    requires ws < |img| && w == img[ws]
    ensures p + Width(g.fsType) <= SS
    ensures EntryEnd(g.fsType, c) <= g.fsize * SS && g.fatbase + g.fsize <= |img|
    ensures SeenEntry(g.fsType, w, p) == FatEntry(img, g, c)
  {
    var q := sect - g.fatbase - 1;
    EntryBound(g, c);
    if g.fsType == Fat16 {
      WordScanPos(c, q, p);
      hide *;
      SectorSize();
      WordEntry(img, g, c, w);
      EntryOf(img, g, c);
      SeenOf(g.fsType, w, p);
    } else {
      DwordScanPos(c, q, p);
      hide *;
      SectorSize();
      DwordEntry(img, g, c, w);
      EntryOf(img, g, c);
      SeenOf(g.fsType, w, p);
    }
  }

  lemma EntryBound(g: Geometry, c: nat)
    requires c < g.nFatent && EntryEnd(g.fsType, g.nFatent - 1) <= g.fsize * SS
    ensures EntryEnd(g.fsType, c) <= g.fsize * SS
  {
  }

  lemma EntryOf(img: Image, g: Geometry, c: nat)
    requires FatFits(g, |img|) && c < g.nFatent
    ensures EntryEnd(g.fsType, c) <= g.fsize * SS && g.fatbase + g.fsize <= |img|
    ensures g.fsType == Fat16 ==> FatEntry(img, g, c) == Entry16(img, g, c)
    ensures g.fsType == Fat32 ==> FatEntry(img, g, c) == Entry32(img, g, c)
  {
  }

  lemma SeenOf(t: FatType, w: Sector, p: nat)
    requires p + Width(t) <= SS
    ensures t == Fat16 ==> p + 1 < SS && SeenEntry(t, w, p) == LdWord(w, p)
    ensures t != Fat16 ==> p + 3 < SS && SeenEntry(t, w, p) == LdDword(w, p) % 0x1000_0000
  {
  }

  lemma WordScanPos(c: nat, q: nat, p: nat)
    requires 2 * c == SS * q + p && p + 2 <= SS
    ensures c / (SS / 2) == q && c * 2 % SS == p
  {
    ModUnique(c * 2, SS, q, p);
  }

  lemma DwordScanPos(c: nat, q: nat, p: nat)
    requires 4 * c == SS * q + p && p + 4 <= SS
    ensures c / (SS / 4) == q && c * 4 % SS == p
  {
    ModUnique(c * 4, SS, q, p);
  }

  // ---- the FSINFO sector ----

  const BS_55AA: nat := 510
  const FSI_LEAD_SIG: nat := 0
  const FSI_STRUC_SIG: nat := 484
  const FSI_FREE_COUNT: nat := 488
  const FSI_NXT_FREE: nat := 492

  /** `ST_WORD` */
  function StWord(w: Sector, i: nat, v: nat): (r: Sector)
    requires i + 1 < SS
    ensures v < 0x1_0000 ==> LdWord(r, i) == v
    ensures forall k :: 0 <= k < SS && k != i && k != i + 1 ==> r[k] == w[k]
  {
    w[i := v % 0x100][i + 1 := v / 0x100 % 0x100]
  }

  /** `ST_DWORD` */
  function StDword(w: Sector, i: nat, v: nat): (r: Sector)
    requires i + 3 < SS
    ensures v < DWORD_SIZE ==> LdDword(r, i) == v
    ensures forall k :: 0 <= k < SS && !(i <= k < i + 4) ==> r[k] == w[k]
  {
    Halves(v);
    StWord(StWord(w, i, v % 0x1_0000), i + 2, v / 0x1_0000 % 0x1_0000)
  }

  lemma Halves(v: nat)
    ensures v < DWORD_SIZE ==> v % 0x1_0000 + 0x1_0000 * (v / 0x1_0000 % 0x1_0000) == v
  {
  }

  /** The sector `sync_fs` builds. */
  function FsInfo(free: nat, last: nat): Sector {
    var z := seq<Byte>(SS, i => 0);
    var a := StWord(z, BS_55AA, 0xAA55);
    var b := StDword(a, FSI_LEAD_SIG, 0x41615252);
    var c := StDword(b, FSI_STRUC_SIG, 0x61417272);
    var d := StDword(c, FSI_FREE_COUNT, free);
    StDword(d, FSI_NXT_FREE, last)
  }

  /** What `find_volume` reads from an FSINFO sector: nothing if a signature is wrong. */
  function LoadFsInfo(w: Sector): (nat, nat) {
    if LdWord(w, BS_55AA) == 0xAA55 && LdDword(w, FSI_LEAD_SIG) == 0x41615252 && LdDword(w, FSI_STRUC_SIG) == 0x61417272
    then (LdDword(w, FSI_FREE_COUNT), LdDword(w, FSI_NXT_FREE))
    else (0xFFFF_FFFF, 0xFFFF_FFFF)
  }

  lemma SameDword(w: Sector, x: Sector, i: nat)
    requires i + 3 < SS && forall k :: i <= k < i + 4 ==> x[k] == w[k]
    ensures LdDword(x, i) == LdDword(w, i)
  {
  }

  /** The next mount finds what the last synchronisation wrote. */
  lemma FsInfoRoundTrip(free: nat, last: nat)
    requires free < DWORD_SIZE && last < DWORD_SIZE
    ensures LoadFsInfo(FsInfo(free, last)) == (free, last)
  {
    var z := seq<Byte>(SS, i => 0);
    var a := StWord(z, BS_55AA, 0xAA55);
    var b := StDword(a, FSI_LEAD_SIG, 0x41615252);
    var c := StDword(b, FSI_STRUC_SIG, 0x61417272);
    var d := StDword(c, FSI_FREE_COUNT, free);
    var e := StDword(d, FSI_NXT_FREE, last);
    hide StWord, StDword, LdDword;
    SameDword(b, e, FSI_LEAD_SIG);
    SameDword(c, e, FSI_STRUC_SIG);
    SameDword(d, e, FSI_FREE_COUNT);
  }

  // ---- the FSINFO sector over the FAT ----

  /** Entry `c` of a FAT32 whose first sector is an FSINFO sector. */
  function InfoEntry(free: nat, last: nat, c: nat): nat
    requires c < 128
  {
    LdDword(FsInfo(free, last), 4 * c) % 0x1000_0000
  }

  /** `G` is `F` with the entries of its first sector replaced by an FSINFO sector. */
  ghost predicate Overwritten(F: FatSeq, G: FatSeq, free: nat, last: nat) {
    && |G| == |F|
    && forall c: nat :: c < |F| ==> G[c] == if c < 128 then InfoEntry(free, last, c) else F[c]
  }

  /** The entries of the first FAT sector happen to read as the FSINFO sector. */
  ghost predicate ReadsAsInfo(F: FatSeq, free: nat, last: nat) {
    forall c: nat :: c < |F| && c < 128 ==> F[c] == InfoEntry(free, last, c)
  }

  /** Writing an FSINFO sector over the first sector of a FAT32. */
  lemma FirstSectorLost(a: Image, b: Image, g: Geometry, free: nat, last: nat)
    requires FatFits(g, |a|) && |b| == |a| && g.fsType == Fat32
    requires g.fsize > 0 ==> b[g.fatbase] == FsInfo(free, last)
    requires forall s: nat :: g.fatbase < s < g.fatbase + g.fsize ==> b[s] == a[s]
    ensures Overwritten(FatMap(a, g), FatMap(b, g), free, last)
  {
    forall c: nat | c < g.nFatent
      ensures FatEntry(b, g, c) == if c < 128 then InfoEntry(free, last, c) else FatEntry(a, g, c)
    {
      LostEntry(a, b, g, free, last, c);
    }
  }

  lemma LostEntry(a: Image, b: Image, g: Geometry, free: nat, last: nat, c: nat)
    requires FatFits(g, |a|) && |b| == |a| && g.fsType == Fat32 && c < g.nFatent
    requires g.fsize > 0 ==> b[g.fatbase] == FsInfo(free, last)
    requires forall s: nat :: g.fatbase < s < g.fatbase + g.fsize ==> b[s] == a[s]
    ensures FatEntry(b, g, c) == if c < 128 then InfoEntry(free, last, c) else FatEntry(a, g, c)
  {
    hide *;
    SectorSize();
    EntryInSector(a, g, c);
    EntryInSector(b, g, c);
    DwordEntry(b, g, c, b[g.fatbase + c / 128]);
    if c < 128 {
      InfoEntryIs(free, last, c);
    } else {
      DwordEntry(a, g, c, a[g.fatbase + c / 128]);
    }
  }

  lemma InfoEntryIs(free: nat, last: nat, c: nat)
    requires c < 128
    ensures InfoEntry(free, last, c) == LdDword(FsInfo(free, last), 4 * c) % 0x1000_0000
    ensures c * 4 % 512 == 4 * c
  {
    hide FsInfo, LdDword;
  }

  /** Clusters 2 to 120 become free, so that a FAT in which one of them is in use does not stay. */
  lemma ClustersLost(F: FatSeq, G: FatSeq, free: nat, last: nat)
    requires Overwritten(F, G, free, last)
    ensures forall c: nat :: 2 <= c <= 120 && c < |G| ==> G[c] == 0
    ensures G == F <==> ReadsAsInfo(F, free, last)
  {
    forall c: nat | 2 <= c <= 120 && c < |G|
      ensures G[c] == 0
    {
      InfoEntryZero(free, last, c);
    }
    hide InfoEntry;
    if ReadsAsInfo(F, free, last) {
      assert forall c :: 0 <= c < |F| ==> G[c] == F[c];
    }
  }

  lemma InfoEntryZero(free: nat, last: nat, c: nat)
    requires 2 <= c <= 120
    ensures InfoEntry(free, last, c) == 0
  {
    hide LdDword, StWord, StDword;
    InfoEntryIs(free, last, c);
    var w := FsInfo(free, last);
    assert forall k :: 4 <= k < 484 ==> w[k] == 0;
    ZeroDword(w, 4 * c);
  }

  lemma ZeroDword(w: Sector, i: nat)
    requires i + 3 < SS && forall k :: i <= k < i + 4 ==> w[k] == 0
    ensures LdDword(w, i) == 0
  {
  }

  // ---- the FSINFO sector, byte by byte ----

  /** Four bytes, the lowest first. */
  predicate HoldsDword(w: Sector, i: nat, v: nat)
    requires i + 4 <= 512
  {
    var b0: int, b1: int, b2: int, b3: int := w[i], w[i + 1], w[i + 2], w[i + 3];
    b0 + 0x100 * b1 + 0x1_0000 * b2 + 0x100_0000 * b3 == v
  }

  predicate Signed(w: Sector) {
    && w[0..4] == [0x52, 0x52, 0x61, 0x41] && w[484..488] == [0x72, 0x72, 0x41, 0x61] && w[510..] == [0x55, 0xAA]
  }

  /** The signatures, the number of free clusters at byte 488, the last allocated one at byte 492, zeros. */
  lemma InfoBytes(free: nat, last: nat)
    requires free < DWORD_SIZE && last < DWORD_SIZE
    ensures var w := FsInfo(free, last);
      && Signed(w) && HoldsDword(w, 488, free) && HoldsDword(w, 492, last)
      && (forall k :: 4 <= k < 484 ==> w[k] == 0) && forall k :: 496 <= k < 510 ==> w[k] == 0
  {
    var z := seq<Byte>(SS, i => 0);
    var a := StWord(z, 510, 0xAA55);
    var b := StDword(a, 0, 0x41615252);
    var c := StDword(b, 484, 0x61417272);
    var d := StDword(c, 488, free);
    var e := StDword(d, 492, last);
    hide StWord, StDword;
    DwordIs(b, 0);
    DwordIs(c, 484);
    DwordIs(d, 488);
    DwordIs(e, 492);
    hide LdDword, LdWord;
    BytesOf(b, 0, 0x52, 0x52, 0x61, 0x41);
    BytesOf(c, 484, 0x72, 0x72, 0x41, 0x61);
    assert e[510] == a[510] && e[511] == a[511];
    SignatureBytes(a);
  }

  lemma SignatureBytes(w: Sector)
    requires w == StWord(seq<Byte>(SS, i => 0), 510, 0xAA55)
    ensures w[510] == 0x55 && w[511] == 0xAA
  {
  }

  lemma DwordIs(w: Sector, i: nat)
    requires i + 4 <= 512
    ensures HoldsDword(w, i, LdDword(w, i))
  {
  }

  lemma BytesOf(w: Sector, i: nat, b0: Byte, b1: Byte, b2: Byte, b3: Byte)
    requires i + 4 <= 512
    ensures var x0: int, x1: int, x2: int, x3: int := b0, b1, b2, b3;
      HoldsDword(w, i, x0 + 0x100 * x1 + 0x1_0000 * x2 + 0x100_0000 * x3) <==> w[i..i + 4] == [b0, b1, b2, b3]
  {
    var x0: int, x1: int, x2: int, x3: int := b0, b1, b2, b3;
    var y0: int, y1: int, y2: int, y3: int := w[i], w[i + 1], w[i + 2], w[i + 3];
    assert w[i..i + 4] == [w[i], w[i + 1], w[i + 2], w[i + 3]];
    if HoldsDword(w, i, x0 + 0x100 * x1 + 0x1_0000 * x2 + 0x100_0000 * x3) {
      LowDigit(x0, x1 + 0x100 * x2 + 0x1_0000 * x3, y0, y1 + 0x100 * y2 + 0x1_0000 * y3);
      LowDigit(x1, x2 + 0x100 * x3, y1, y2 + 0x100 * y3);
      LowDigit(x2, x3, y2, y3);
    } else {
      assert [y0, y1, y2, y3] != [x0, x1, x2, x3];
    }
  }

  lemma LowDigit(x: int, xs: int, y: int, ys: int)
    requires 0 <= x < 0x100 && 0 <= y < 0x100 && x + 0x100 * xs == y + 0x100 * ys
    ensures x == y && xs == ys
  {
  }

  /** A mount takes the two numbers from these bytes, if the signatures are there. */
  lemma LoadBytes(w: Sector)
    ensures Signed(w) ==> HoldsDword(w, 488, LoadFsInfo(w).0) && HoldsDword(w, 492, LoadFsInfo(w).1)
    ensures !Signed(w) ==> LoadFsInfo(w) == (0xFFFF_FFFF, 0xFFFF_FFFF)
  {
    DwordIs(w, 0);
    DwordIs(w, 484);
    DwordIs(w, 488);
    DwordIs(w, 492);
    BytesOf(w, 0, 0x52, 0x52, 0x61, 0x41);
    BytesOf(w, 484, 0x72, 0x72, 0x41, 0x61);
    SignedEnd(w);
    hide LdDword;
  }

  lemma SignedEnd(w: Sector)
    ensures LdWord(w, 510) == 0xAA55 <==> w[510..] == [0x55, 0xAA]
  {
    if w[510..] == [0x55, 0xAA] {
      assert w[510] == w[510..][0] && w[511] == w[510..][1];
    }
  }
}
