/**
 On-disk layout of a FAT volume: sectors, the geometry computed at mount, the
 logical image behind the one-sector window, and the FAT read as a map.
 */
module Layout {
  import opened Bits

  const SS: nat := 512
  const INVALID_SECTOR: nat := 0xFFFF_FFFF
  const EOC: nat := 0x0FFF_FFFF

  type Sector = s: seq<Byte> | |s| == 512 witness seq(512, _ => 0)
  type Image = seq<Sector>

  function ZeroSector(): Sector { seq<Byte>(SS, i => 0) }

  lemma SectorSize()
    ensures SS == 512
  {
  }

  /** The result codes of the source that the model uses. */
  datatype FResult = FR_OK | FR_INT_ERR | FR_NO_FILE | FR_DENIED | FR_NOT_ENOUGH_CORE

  datatype FatType = Fat12 | Fat16 | Fat32

  /** The fields of FATFS that a mount computes and that never change afterwards. */
  datatype Geometry = Geometry(
    fsType: FatType,
    csize: nat,      // sectors per cluster
    nFats: nat,      // number of FAT copies
    nRootdir: nat,   // entries of the static root directory
    nFatent: nat,    // number of FAT entries: clusters + 2
    fsize: nat,      // sectors per FAT
    volbase: nat,
    fatbase: nat,
    dirbase: nat,
    database: nat)

  /** The first byte after FAT entry `c`, as an offset into the FAT. */
  function EntryEnd(t: FatType, c: nat): nat {
    match t
    case Fat12 => c + c / 2 + 2
    case Fat16 => 2 * c + 2
    case Fat32 => 4 * c + 4
  }

  /** The largest number of FAT entries for which `EOC` cut to the entry's
      width is not a cluster number. */
  function MaxEntries(t: FatType): nat {
    match t
    case Fat12 => 0xFFF
    case Fat16 => 0xFFFF
    case Fat32 => EOC
  }

  /** The first sector of cluster `c`. */
  function ClusterSector(g: Geometry, c: nat): nat
    requires c >= 2
  {
    (c - 2) * g.csize + g.database
  }

  /** `clust2sect`: 0 for an invalid cluster number; the subtraction wraps around. */
  function Clust2Sect(g: Geometry, clst: nat): (r: nat)
    requires clst < DWORD_SIZE && 2 <= g.nFatent < DWORD_SIZE - 2
    ensures r == if 2 <= clst < g.nFatent then ClusterSector(g, clst) else 0
  {
    var c := Sub32(clst, 2);
    if c >= g.nFatent - 2 then 0 else c * g.csize + g.database
  }

  /** Sectors taken by all FAT copies. */
  function FatSectors(g: Geometry): nat {
    if g.nFats == 2 then 2 * g.fsize else g.fsize
  }

  /** Every FAT entry lies inside the first copy, which lies inside a disk of `size` sectors. */
  ghost predicate FatFits(g: Geometry, size: nat) {
    && 3 <= g.nFatent
    && EntryEnd(g.fsType, g.nFatent - 1) <= g.fsize * SS
    && g.fatbase + FatSectors(g) <= size
  }

  /** The data area follows the FAT and lies inside a disk of `size` sectors. */
  ghost predicate DataFits(g: Geometry, size: nat) {
    && IsPow2(g.csize) && g.csize <= 128
    && 1 <= g.database && g.fatbase + FatSectors(g) <= g.database
    && 2 <= g.nFatent && ClusterSector(g, g.nFatent) <= size
  }

  /** The regions follow one another inside a disk of `size` sectors. */
  ghost predicate Placed(g: Geometry, size: nat) {
    && g.volbase < g.fatbase
    && (g.nFats == 1 || g.nFats == 2)
    && size < INVALID_SECTOR
    && FatFits(g, size)
    && DataFits(g, size)
  }

  /** A geometry laid out inside a disk of `size` sectors, with few enough clusters for the
      width of an entry. */
  ghost predicate Fits(g: Geometry, size: nat) {
    Placed(g, size) && g.nFatent <= MaxEntries(g.fsType)
  }

  predicate InFat(g: Geometry, s: nat) {
    g.fatbase <= s < g.fatbase + g.fsize
  }

  /** The sectors of the second FAT copy, when there is one. */
  predicate InMirror(g: Geometry, s: nat) {
    g.nFats == 2 && g.fatbase + g.fsize <= s < g.fatbase + 2 * g.fsize
  }

  /** The sector whose content `s` stands for: a mirror sector stands for its original. */
  function Home(g: Geometry, s: nat): (r: nat) {
    if InMirror(g, s) then s - g.fsize else s
  }

  /** One sector of the logical image: the disk overlaid by the window. */
  function View(disk: Image, g: Geometry, ws: nat, w: Sector, s: nat): Sector
    requires s < |disk|
  {
    if Home(g, s) == ws then w else disk[Home(g, s)]
  }

  ghost function LogicalOf(disk: Image, g: Geometry, ws: nat, w: Sector): (r: Image)
    ensures |r| == |disk|
    ensures forall s :: 0 <= s < |disk| ==> r[s] == View(disk, g, ws, w, s)
  {
    seq(|disk|, s requires 0 <= s < |disk| => View(disk, g, ws, w, s))
  }

  ghost predicate SameOutsideFat(a: Image, b: Image, g: Geometry) {
    && |a| == |b|
    && forall s :: 0 <= s < |a| && !InFat(g, s) && !InMirror(g, s) ==> a[s] == b[s]
  }

  lemma SameOutsideRefl(a: Image, g: Geometry)
    ensures SameOutsideFat(a, a, g)
  {
  }

  lemma SameOutsideTrans(a: Image, b: Image, c: Image, g: Geometry)
    requires SameOutsideFat(a, b, g) && SameOutsideFat(b, c, g)
    ensures SameOutsideFat(a, c, g)
  {
  }

  /** Part `i` of `data`, one sector long. */
  function Chunk(data: seq<Byte>, i: nat): Sector
    requires SS * (i + 1) <= |data|
  {
    data[SS * i..SS * (i + 1)]
  }

  /** `b` is `a` with `cc` sectors from `s` on replaced by `data`. */
  ghost predicate SectorsWritten(a: Image, b: Image, s: nat, cc: nat, data: seq<Byte>) {
    && |a| == |b| && s + cc <= |a| && |data| == SS * cc
    && forall t: nat :: t < |a| ==> b[t] == if s <= t < s + cc then Chunk(data, t - s) else a[t]
  }

  /** The bytes of `cc` sectors from `s` on. */
  ghost function Flat(img: Image, s: nat, cc: nat): (r: seq<Byte>)
    requires s + cc <= |img|
    ensures |r| == SS * cc
  {
    seq<Byte>(SS * cc, i requires 0 <= i < SS * cc => img[s + i / SS][i % SS])
  }

  /** `a` with the bytes from `o` on replaced by `d`. */
  function Splice(a: seq<Byte>, o: nat, d: seq<Byte>): (r: seq<Byte>)
    requires o + |d| <= |a|
    ensures |r| == |a|
  {
    a[..o] + d + a[o + |d|..]
  }

  lemma SpliceAll(a: seq<Byte>, d: seq<Byte>)
    requires |a| == |d|
    ensures Splice(a, 0, d) == d
  {
  }

  /** `mem_cpy`. */
  method MemCpy(dst: array<Byte>, o: nat, src: seq<Byte>)
    requires o + |src| <= dst.Length
    modifies dst
    ensures dst[..] == Splice(old(dst[..]), o, src)
  {
    var i := 0;
    while i < |src|
      invariant i <= |src|
      invariant dst[..] == Splice(old(dst[..]), o, src[..i])
    {
      dst[o + i] := src[i];
      i := i + 1;
    }
    assert src[..i] == src;
  }

  ghost predicate WrittenUpTo(a: Image, b: Image, s: nat, n: nat, data: seq<Byte>) {
    && |a| == |b| && s + n <= |a| && SS * n <= |data|
    && forall t: nat :: t < |a| ==> b[t] == if s <= t < s + n then Chunk(data, t - s) else a[t]
  }

  lemma WrittenNone(a: Image, s: nat, data: seq<Byte>)
    requires s <= |a|
    ensures WrittenUpTo(a, a, s, 0, data)
  {
  }

  lemma WrittenOneMore(a: Image, m: Image, b: Image, s: nat, n: nat, data: seq<Byte>)
    requires WrittenUpTo(a, m, s, n, data) && s + n < |m| && SS * (n + 1) <= |data|
    requires b == m[s + n := Chunk(data, n)]
    ensures WrittenUpTo(a, b, s, n + 1, data)
  {
  }

  lemma WrittenAll(a: Image, b: Image, s: nat, cc: nat, data: seq<Byte>)
    requires WrittenUpTo(a, b, s, cc, data) && |data| == SS * cc
    ensures SectorsWritten(a, b, s, cc, data)
  {
  }

  lemma LayoutOrder(g: Geometry, size: nat)
    requires Fits(g, size)
    ensures g.volbase + 1 <= g.fatbase < g.fatbase + FatSectors(g) <= size < INVALID_SECTOR && FatFits(g, size)
  {
  }

  /** Moving a clean window to sector `wt`, before the FAT, and writing `m` there. */
  lemma InfoOverlay(d: Image, e: Image, g: Geometry, ws: nat, wt: nat, x: Sector, m: Sector)
    requires ws < |d| ==> d[ws] == x
    requires wt < g.fatbase && wt < |d| && e == d[wt := m]
    ensures LogicalOf(e, g, wt, m) == LogicalOf(d, g, ws, x)[wt := m]
  {
  }

  /** Moving a clean window to the first sector of the FAT, and writing `m` there. */
  lemma InfoShown(d: Image, e: Image, g: Geometry, ws: nat, wt: nat, x: Sector, m: Sector)
    requires ws < |d| ==> d[ws] == x
    requires wt == g.fatbase < |d| && g.fsize > 0 && e == d[wt := m]
    ensures LogicalOf(e, g, wt, m)[wt] == m
    ensures forall s: nat :: g.fatbase < s < g.fatbase + g.fsize && s < |d| ==>
      LogicalOf(e, g, wt, m)[s] == LogicalOf(d, g, ws, x)[s]
  {
  }

  /** The image a clean window shows: every sector stands for its home. */
  ghost function Homes(disk: Image, g: Geometry): (r: Image)
    ensures |r| == |disk|
    ensures forall s :: 0 <= s < |disk| ==> r[s] == disk[Home(g, s)]
  {
    seq(|disk|, s requires 0 <= s < |disk| => disk[Home(g, s)])
  }

  lemma CleanView(disk: Image, g: Geometry, ws: nat, w: Sector)
    requires ws < |disk| ==> disk[ws] == w
    ensures LogicalOf(disk, g, ws, w) == Homes(disk, g)
  {
  }

  lemma DirtyOverlay(disk: Image, g: Geometry, ws: nat, w: Sector)
    requires ws < |disk| && g.fatbase + FatSectors(g) <= ws
    ensures LogicalOf(disk, g, ws, w) == Homes(disk, g)[ws := w]
  {
  }

  lemma Rescribbled(disk: Image, g: Geometry, ws: nat, m: Sector, w: Sector)
    requires ws < |disk| && g.fatbase + FatSectors(g) <= ws
    ensures LogicalOf(disk, g, ws, w) == LogicalOf(disk, g, ws, m)[ws := w]
  {
  }

  /** Writing outside the FAT does not change its entries. */
  lemma DataWriteKeepsFat(a: Image, b: Image, g: Geometry)
    requires FatFits(g, |a|) && |a| == |b|
    requires forall s: nat :: InFat(g, s) && s < |a| ==> b[s] == a[s]
    ensures FatMap(b, g) == FatMap(a, g)
  {
    forall x: nat | x < g.fsize * SS
      ensures FatByte(b, g, x) == FatByte(a, g, x)
    {
    }
    hide FatByte;
    forall c: nat | c < g.nFatent
      ensures FatEntry(b, g, c) == FatEntry(a, g, c)
    {
    }
  }

  /** Byte `b` of the FAT. */
  ghost function FatByte(img: Image, g: Geometry, b: nat): (r: Byte)
    requires b < g.fsize * SS && g.fatbase + g.fsize <= |img|
  {
    img[g.fatbase + b / SS][b % SS]
  }

  ghost function Entry12(img: Image, g: Geometry, c: nat): (r: nat)
    requires EntryEnd(Fat12, c) <= g.fsize * SS && g.fatbase + g.fsize <= |img|
    ensures r < 0x1000
  {
    var wc := FatByte(img, g, c + c / 2) + 0x100 * FatByte(img, g, c + c / 2 + 1);
    if c % 2 == 1 then wc / 16 else wc % 0x1000
  }

  ghost function Entry16(img: Image, g: Geometry, c: nat): (r: nat)
    requires EntryEnd(Fat16, c) <= g.fsize * SS && g.fatbase + g.fsize <= |img|
    ensures r < 0x1_0000
  {
    FatByte(img, g, 2 * c) + 0x100 * FatByte(img, g, 2 * c + 1)
  }

  ghost function Entry32(img: Image, g: Geometry, c: nat): (r: nat)
    requires EntryEnd(Fat32, c) <= g.fsize * SS && g.fatbase + g.fsize <= |img|
    ensures r < 0x1000_0000
  {
    FatByte(img, g, 4 * c) + 0x100 * FatByte(img, g, 4 * c + 1) +
    0x1_0000 * FatByte(img, g, 4 * c + 2) + 0x100_0000 * (FatByte(img, g, 4 * c + 3) % 16)
  }

  ghost function FatEntry(img: Image, g: Geometry, c: nat): (r: nat)
    requires FatFits(g, |img|) && c < g.nFatent
  {
    match g.fsType
    case Fat12 => Entry12(img, g, c)
    case Fat16 => Entry16(img, g, c)
    case Fat32 => Entry32(img, g, c)
  }

  /** The FAT as a map from cluster number to entry. */
  ghost function FatMap(img: Image, g: Geometry): (r: seq<nat>)
    requires FatFits(g, |img|)
    ensures |r| == g.nFatent
    ensures forall c :: 0 <= c < g.nFatent ==> r[c] == FatEntry(img, g, c)
  {
    seq(g.nFatent, c requires 0 <= c < g.nFatent => FatEntry(img, g, c))
  }

  function LdWord(w: Sector, i: nat): (r: nat)
    requires i + 1 < SS
  {
    var lo: int, hi: int := w[i], w[i + 1];
    lo + 0x100 * hi
  }

  function LdDword(w: Sector, i: nat): (r: nat)
    requires i + 3 < SS
  {
    LdWord(w, i) + 0x1_0000 * LdWord(w, i + 2)
  }

  /** A FAT16 entry is a word of one FAT sector. */
  lemma WordEntry(img: Image, g: Geometry, c: nat, w: Sector)
    requires EntryEnd(Fat16, c) <= g.fsize * SS && g.fatbase + g.fsize <= |img|
    requires w == img[g.fatbase + c / (SS / 2)]
    ensures LdWord(w, c * 2 % SS) == Entry16(img, g, c)
  {
    WordPos(c, 0);
    WordPos(c, 1);
  }

  lemma WordPos(c: nat, j: nat)
    requires j < 2
    ensures (2 * c + j) / SS == c / (SS / 2)
    ensures (2 * c + j) % SS == c * 2 % SS + j
  {
    var q, r := c / 256, c % 256;
    assert 2 * c + j == 512 * q + (2 * r + j);
    ModUnique(2 * c + j, 512, q, 2 * r + j);
    ModUnique(2 * c, 512, q, 2 * r);
  }

  /** The whole double word of a FAT32 entry. */
  ghost function RawEntry32(img: Image, g: Geometry, c: nat): (r: nat)
    requires EntryEnd(Fat32, c) <= g.fsize * SS && g.fatbase + g.fsize <= |img|
  {
    FatByte(img, g, 4 * c) + 0x100 * FatByte(img, g, 4 * c + 1) +
    0x1_0000 * FatByte(img, g, 4 * c + 2) + 0x100_0000 * FatByte(img, g, 4 * c + 3)
  }

  /** A FAT32 entry is the low 28 bits of a double word of one FAT sector. */
  lemma DwordEntry(img: Image, g: Geometry, c: nat, w: Sector)
    requires EntryEnd(Fat32, c) <= g.fsize * SS && g.fatbase + g.fsize <= |img|
    requires w == img[g.fatbase + c / (SS / 4)]
    ensures c * 4 % SS + 3 < SS
    ensures LdDword(w, c * 4 % SS) == RawEntry32(img, g, c)
    ensures LdDword(w, c * 4 % SS) % 0x1000_0000 == Entry32(img, g, c)
  {
    DwordPos(c, 0);
    DwordPos(c, 1);
    DwordPos(c, 2);
    DwordPos(c, 3);
    TopNibble(w, c * 4 % SS);
  }

  lemma DwordPos(c: nat, j: nat)
    requires j < 4
    ensures (4 * c + j) / SS == c / (SS / 4)
    ensures (4 * c + j) % SS == c * 4 % SS + j
  {
    var q, r := c / 128, c % 128;
    assert 4 * c + j == 512 * q + (4 * r + j);
    ModUnique(4 * c + j, 512, q, 4 * r + j);
    ModUnique(4 * c, 512, q, 4 * r);
  }

  lemma TopNibble(w: Sector, i: nat)
    requires i + 3 < SS
    ensures var b0: int, b1: int, b2: int, b3: int := w[i], w[i + 1], w[i + 2], w[i + 3];
      LdDword(w, i) % 0x1000_0000 == b0 + 0x100 * b1 + 0x1_0000 * b2 + 0x100_0000 * (b3 % 16)
  {
    var b0: int, b1: int, b2: int, b3: int := w[i], w[i + 1], w[i + 2], w[i + 3];
    ModUnique(LdDword(w, i), 0x1000_0000, b3 / 16, b0 + 0x100 * b1 + 0x1_0000 * b2 + 0x100_0000 * (b3 % 16));
  }

  /** The sector of an aligned entry. */
  lemma EntryInSector(img: Image, g: Geometry, c: nat)
    requires FatFits(g, |img|) && c < g.nFatent
    ensures EntryEnd(g.fsType, c) <= g.fsize * SS && g.fatbase + g.fsize <= |img|
    ensures g.fsType == Fat16 ==> c / (SS / 2) < g.fsize && FatEntry(img, g, c) == Entry16(img, g, c)
    ensures g.fsType == Fat32 ==> c / (SS / 4) < g.fsize && FatEntry(img, g, c) == Entry32(img, g, c)
  {
    hide Entry12, Entry16, Entry32;
    var f: int := g.fsize;
    var d: int := c;
    if g.fsType == Fat16 {
      assert 2 * d + 2 <= f * 512;
      assert d / 256 < f;
    } else if g.fsType == Fat32 {
      assert 4 * d + 4 <= f * 512;
      assert d / 128 < f;
    }
  }

  /** The two bytes of a FAT12 entry. */
  lemma EntryBytes12(img: Image, g: Geometry, c: nat)
    requires FatFits(g, |img|) && c < g.nFatent && g.fsType == Fat12
    ensures g.fatbase + g.fsize <= |img| && c + c / 2 + 1 < g.fsize * SS
    ensures var wc := FatByte(img, g, c + c / 2) + 0x100 * FatByte(img, g, c + c / 2 + 1);
      FatEntry(img, g, c) == if c % 2 == 1 then wc / 16 else wc % 0x1000
  {
    hide FatByte;
  }

  /** What a FAT entry can hold of `v`. */
  function Trunc(t: FatType, v: nat): nat {
    match t
    case Fat12 => v % 0x1000
    case Fat16 => v % 0x1_0000
    case Fat32 => v % 0x1000_0000
  }

  /** `b` is `a` with FAT byte `off` set to `v`, in every copy. */
  ghost predicate ByteSet(a: Image, b: Image, g: Geometry, off: nat, v: Byte) {
    && |a| == |b| && off < g.fsize * SS && g.fatbase + FatSectors(g) <= |a|
    && SameOutsideFat(a, b, g)
    && (forall x: nat :: x < g.fsize * SS && x != off ==> FatByte(b, g, x) == FatByte(a, g, x))
    && FatByte(b, g, off) == v
  }

  /** Changing a byte of a FAT sector and its mirror changes one FAT byte. */
  lemma SectorByteSet(a: Image, b: Image, g: Geometry, off: nat, v: Byte)
    requires |a| == |b| && off < g.fsize * SS && g.fatbase + FatSectors(g) <= |a|
    requires forall s: nat :: s < |a| && Home(g, s) != g.fatbase + off / SS ==> b[s] == a[s]
    requires b[g.fatbase + off / SS] == a[g.fatbase + off / SS][off % SS := v]
    ensures ByteSet(a, b, g, off, v)
  {
    forall x: nat | x < g.fsize * SS && x != off
      ensures FatByte(b, g, x) == FatByte(a, g, x)
    {
      assert Home(g, g.fatbase + x / SS) == g.fatbase + x / SS;
      if x / SS == off / SS {
        assert x % SS != off % SS;
      }
    }
  }

  function Low8(v: nat): Byte { v % 0x100 }

  /** The first byte `put_fat` writes for a FAT12 entry, over the byte `p`. */
  function First12(c: nat, val: nat, p: Byte): Byte {
    if c % 2 == 1 then p % 16 + 16 * (val % 16) else Low8(val)
  }

  /** The second byte `put_fat` writes for a FAT12 entry, over the byte `p`. */
  function Second12(c: nat, val: nat, p: Byte): Byte {
    if c % 2 == 1 then Low8(val / 16) else p / 16 * 16 + val / 0x100 % 16
  }

  /** `b` is `a` with the three nibbles of entry `c` set to those of `val`. */
  ghost predicate NibblesSet(a: Image, b: Image, g: Geometry, c: nat, val: nat) {
    var o := c + c / 2;
    && |a| == |b| && o + 1 < g.fsize * SS && g.fatbase + FatSectors(g) <= |a|
    && SameOutsideFat(a, b, g)
    && (forall x: nat :: x < g.fsize * SS && x != o && x != o + 1 ==> FatByte(b, g, x) == FatByte(a, g, x))
    && (if c % 2 == 1 then
          && FatByte(b, g, o) / 16 == val % 16 && FatByte(b, g, o) % 16 == FatByte(a, g, o) % 16
          && FatByte(b, g, o + 1) == Low8(val / 16)
        else
          && FatByte(b, g, o) == Low8(val)
          && FatByte(b, g, o + 1) % 16 == val / 0x100 % 16
          && FatByte(b, g, o + 1) / 16 == FatByte(a, g, o + 1) / 16)
  }

  lemma TwoBytesSetNibbles(a: Image, m: Image, b: Image, g: Geometry, c: nat, val: nat)
    requires c + c / 2 + 1 < g.fsize * SS && g.fatbase + FatSectors(g) <= |a|
    requires ByteSet(a, m, g, c + c / 2, First12(c, val, FatByte(a, g, c + c / 2)))
    requires ByteSet(m, b, g, c + c / 2 + 1, Second12(c, val, FatByte(a, g, c + c / 2 + 1)))
    ensures NibblesSet(a, b, g, c, val)
  {
    var o := c + c / 2;
    assert FatByte(b, g, o) == FatByte(m, g, o);
  }

  lemma OddNibbles(val: nat)
    ensures val % 16 + 16 * Low8(val / 16) == val % 0x1000
  {
    ModSplit(val, 16, 0x100);
  }

  lemma EvenNibbles(val: nat)
    ensures Low8(val) + 0x100 * (val / 0x100 % 16) == val % 0x1000
  {
    ModSplit(val, 0x100, 16);
  }

  /** Setting the first byte of an entry leaves its second byte as it was. */
  lemma FirstKeepsSecond(a: Image, m: Image, g: Geometry, c: nat, val: nat)
    requires c + c / 2 + 1 < g.fsize * SS && g.fatbase + FatSectors(g) <= |a|
    requires ByteSet(a, m, g, c + c / 2, First12(c, val, FatByte(a, g, c + c / 2)))
    ensures g.fatbase + g.fsize <= |m| && FatByte(m, g, c + c / 2 + 1) == FatByte(a, g, c + c / 2 + 1)
  {
  }

  lemma Put12Self(a: Image, b: Image, g: Geometry, c: nat, val: nat)
    requires NibblesSet(a, b, g, c, val)
    ensures Entry12(b, g, c) == Trunc(Fat12, val)
  {
    var o := c + c / 2;
    if c % 2 == 1 {
      OddEntry(FatByte(b, g, o), FatByte(b, g, o + 1));
      OddNibbles(val);
    } else {
      EvenEntry(FatByte(b, g, o), FatByte(b, g, o + 1));
      EvenNibbles(val);
    }
  }

  /** An odd entry only depends on the high nibble of its first byte. */
  lemma OddEntry(p0: Byte, p1: Byte)
    ensures (p0 + 0x100 * p1) / 16 == p0 / 16 + 16 * p1
  {
    var b0: int, b1: int := p0, p1;
    ModUnique(b0 + 0x100 * b1, 16, b0 / 16 + 16 * b1, b0 % 16);
  }

  /** An even entry only depends on the low nibble of its second byte. */
  lemma EvenEntry(p0: Byte, p1: Byte)
    ensures (p0 + 0x100 * p1) % 0x1000 == p0 + 0x100 * (p1 % 16)
  {
    var b0: int, b1: int := p0, p1;
    ModUnique(b0 + 0x100 * b1, 0x1000, b1 / 16, b0 + 0x100 * (b1 % 16));
  }

  /** Entries share at most one byte, and then each has a nibble of its own in it. */
  lemma Put12Other(a: Image, b: Image, g: Geometry, c: nat, val: nat, d: nat)
    requires NibblesSet(a, b, g, c, val)
    requires EntryEnd(Fat12, d) <= g.fsize * SS && c != d
    ensures Entry12(b, g, d) == Entry12(a, g, d)
  {
    var o, e := c + c / 2, d + d / 2;
    if d % 2 == 1 {
      assert e + 1 != o;
      OddEntry(FatByte(a, g, e), FatByte(a, g, e + 1));
      OddEntry(FatByte(b, g, e), FatByte(b, g, e + 1));
    } else {
      assert e != o + 1;
      EvenEntry(FatByte(a, g, e), FatByte(a, g, e + 1));
      EvenEntry(FatByte(b, g, e), FatByte(b, g, e + 1));
    }
  }

  /** FAT12: the entry takes the value and no other entry changes. */
  lemma Put12(a: Image, b: Image, g: Geometry, c: nat, val: nat)
    requires FatFits(g, |a|) && g.fsType == Fat12 && c < g.nFatent
    requires NibblesSet(a, b, g, c, val)
    ensures FatFits(g, |b|) && SameOutsideFat(a, b, g)
    ensures FatMap(b, g) == FatMap(a, g)[c := Trunc(Fat12, val)]
  {
    forall d: nat | d < g.nFatent
      ensures FatEntry(b, g, d) == if d == c then Trunc(Fat12, val) else FatEntry(a, g, d)
    {
      if d == c {
        Put12Self(a, b, g, c, val);
      } else {
        Put12Other(a, b, g, c, val, d);
      }
    }
  }

  /** `b` is `a` with four FAT bytes from `off` on set to those of `val`, low byte first. */
  ghost predicate DwordSet(a: Image, b: Image, g: Geometry, off: nat, v0: Byte, v1: Byte, v2: Byte, v3: Byte) {
    && |a| == |b| && off + 3 < g.fsize * SS && g.fatbase + FatSectors(g) <= |a|
    && SameOutsideFat(a, b, g)
    && (forall x: nat :: x < g.fsize * SS && (x < off || off + 3 < x) ==> FatByte(b, g, x) == FatByte(a, g, x))
    && FatByte(b, g, off) == v0 && FatByte(b, g, off + 1) == v1
    && FatByte(b, g, off + 2) == v2 && FatByte(b, g, off + 3) == v3
  }

  /** `b` is `a` with two FAT bytes from `off` on set. */
  ghost predicate WordSet(a: Image, b: Image, g: Geometry, off: nat, v0: Byte, v1: Byte) {
    && |a| == |b| && off + 1 < g.fsize * SS && g.fatbase + FatSectors(g) <= |a|
    && SameOutsideFat(a, b, g)
    && (forall x: nat :: x < g.fsize * SS && x != off && x != off + 1 ==> FatByte(b, g, x) == FatByte(a, g, x))
    && FatByte(b, g, off) == v0 && FatByte(b, g, off + 1) == v1
  }

  lemma TwoByteSets(a: Image, m: Image, b: Image, g: Geometry, off: nat, v0: Byte, v1: Byte)
    requires ByteSet(a, m, g, off, v0) && ByteSet(m, b, g, off + 1, v1)
    ensures WordSet(a, b, g, off, v0, v1)
  {
  }

  lemma TwoWordSets(a: Image, m: Image, b: Image, g: Geometry, off: nat, v0: Byte, v1: Byte, v2: Byte, v3: Byte)
    requires WordSet(a, m, g, off, v0, v1) && WordSet(m, b, g, off + 2, v2, v3)
    ensures DwordSet(a, b, g, off, v0, v1, v2, v3)
  {
  }

  /** FAT16: the entry takes the value and no other entry changes. */
  lemma Put16(a: Image, b: Image, g: Geometry, c: nat, val: nat)
    requires FatFits(g, |a|) && g.fsType == Fat16 && c < g.nFatent
    requires WordSet(a, b, g, 2 * c, Low8(val), Low8(val / 0x100))
    ensures FatFits(g, |b|) && SameOutsideFat(a, b, g)
    ensures FatMap(b, g) == FatMap(a, g)[c := Trunc(Fat16, val)]
    ensures SameOutsideFat(a, b, g)
  {
    WordBytes(val);
    forall d: nat | d < g.nFatent && d != c
      ensures Entry16(b, g, d) == Entry16(a, g, d)
    {
      assert 2 * d + 1 < 2 * c || 2 * c + 1 < 2 * d;
    }
  }

  lemma WordBytes(val: nat)
    ensures Low8(val) + 0x100 * Low8(val / 0x100) == val % 0x1_0000
  {
    ModSplit(val, 0x100, 0x100);
  }

  lemma FourBytes(val: nat)
    ensures Low8(val) + 0x100 * Low8(val / 0x100) + 0x1_0000 * Low8(val / 0x1_0000) +
            0x100_0000 * (Low8(val / 0x100_0000) % 16) == val % 0x1000_0000
  {
    ModSplit(val, 0x100, 0x100);
    ModSplit(val, 0x1_0000, 0x100);
    ModSplit(val, 0x100_0000, 16);
  }

  lemma FourBytesRaw(val: nat)
    requires val < DWORD_SIZE
    ensures Low8(val) + 0x100 * Low8(val / 0x100) + 0x1_0000 * Low8(val / 0x1_0000) +
            0x100_0000 * Low8(val / 0x100_0000) == val
  {
    ModSplit(val, 0x100, 0x100);
    ModSplit(val, 0x1_0000, 0x100);
    ModSplit(val, 0x100_0000, 0x100);
    ModUnique(val, DWORD_SIZE, 0, val);
  }

  /** The double word `put_fat` stores for a FAT32 entry: the value or-ed with
      the reserved top four bits of the old double word. */
  function Merge32(val: nat, old32: nat): nat {
    Or(val, old32 / 0x1000_0000 * 0x1000_0000)
  }

  /** A FAT32 entry was stored: its reserved top four bits stay, those of the value are or-ed in. */
  ghost predicate TopKept(a: Image, b: Image, g: Geometry, c: nat, val: nat) {
    && EntryEnd(Fat32, c) <= g.fsize * SS && g.fatbase + g.fsize <= |a| == |b|
    && RawEntry32(b, g, c) == Merge32(val, RawEntry32(a, g, c))
    && (val < 0x1000_0000 ==> RawEntry32(b, g, c) / 0x1000_0000 == RawEntry32(a, g, c) / 0x1000_0000)
  }

  lemma IsTopKept(a: Image, b: Image, g: Geometry, c: nat, val: nat)
    requires EntryEnd(Fat32, c) <= g.fsize * SS && g.fatbase + g.fsize <= |a| == |b|
    requires RawEntry32(b, g, c) == Merge32(val, RawEntry32(a, g, c))
    requires val < 0x1000_0000 ==> RawEntry32(b, g, c) / 0x1000_0000 == RawEntry32(a, g, c) / 0x1000_0000
    ensures TopKept(a, b, g, c, val)
  {
    hide RawEntry32, Merge32;
  }

  lemma MergeKeepsLow(val: nat, old32: nat)
    requires val < DWORD_SIZE && old32 < DWORD_SIZE
    ensures Merge32(val, old32) % 0x1000_0000 == val % 0x1000_0000
    ensures Merge32(val, old32) / 0x1000_0000 == Or(val / 0x1000_0000, old32 / 0x1000_0000)
    ensures Merge32(val, old32) < DWORD_SIZE
    ensures val < 0x1000_0000 ==> Merge32(val, old32) / 0x1000_0000 == old32 / 0x1000_0000
  {
    assert Pow2(28) == 0x1000_0000 by {
      assert Pow2(7) == 128;
      Pow2Sum(7, 7);
      Pow2Sum(14, 14);
    }
    var q, r, t := val / 0x1000_0000, val % 0x1000_0000, old32 / 0x1000_0000;
    OrHigh(q, r, t, 28, 0x1000_0000);
    ModUnique(Merge32(val, old32), 0x1000_0000, Or(q, t), r);
    OrNibble(val / 0x1000_0000, old32 / 0x1000_0000);
    OrZero(old32 / 0x1000_0000);
  }

  lemma OrNibble(a: nat, b: nat)
    requires a < 16 && b < 16
    ensures Or(a, b) < 16
  {
    OrBound(a, b, 4);
    assert Pow2(4) == 16;
  }

  lemma {:induction false} OrBound(a: nat, b: nat, k: nat)
    requires a < Pow2(k) && b < Pow2(k)
    ensures Or(a, b) < Pow2(k)
  {
    if k > 0 {
      OrBound(a / 2, b / 2, k - 1);
    }
  }

  /** `b` is `a` with the double word of FAT32 entry `c` set to `v`. */
  ghost predicate Entry32Set(a: Image, b: Image, g: Geometry, c: nat, v: nat) {
    DwordSet(a, b, g, 4 * c, Low8(v), Low8(v / 0x100), Low8(v / 0x1_0000), Low8(v / 0x100_0000))
  }

  lemma Put32Self(a: Image, b: Image, g: Geometry, c: nat, v: nat)
    requires Entry32Set(a, b, g, c, v) && v < DWORD_SIZE
    ensures Entry32(b, g, c) == v % 0x1000_0000
    ensures RawEntry32(b, g, c) == v
  {
    FourBytesRaw(v);
    FourBytes(v);
  }

  lemma Put32Other(a: Image, b: Image, g: Geometry, c: nat, v: nat, d: nat)
    requires Entry32Set(a, b, g, c, v) && c != d && EntryEnd(Fat32, d) <= g.fsize * SS
    ensures Entry32(b, g, d) == Entry32(a, g, d)
  {
  }

  /** FAT32: the low 28 bits of the entry take the value, the top four bits are
      or-ed in, and no other entry changes. */
  lemma Put32(a: Image, b: Image, g: Geometry, c: nat, val: nat)
    requires FatFits(g, |a|) && g.fsType == Fat32 && c < g.nFatent && val < DWORD_SIZE
    requires Entry32Set(a, b, g, c, Merge32(val, RawEntry32(a, g, c)))
    ensures FatFits(g, |b|) && SameOutsideFat(a, b, g)
    ensures FatMap(b, g) == FatMap(a, g)[c := Trunc(Fat32, val)]
    ensures RawEntry32(b, g, c) == Merge32(val, RawEntry32(a, g, c))
  {
    var v := Merge32(val, RawEntry32(a, g, c));
    MergeKeepsLow(val, RawEntry32(a, g, c));
    Put32Self(a, b, g, c, v);
    forall d: nat | d < g.nFatent && d != c
      ensures FatEntry(b, g, d) == FatEntry(a, g, d)
    {
      Put32Other(a, b, g, c, v, d);
    }
    assert FatEntry(b, g, c) == Trunc(Fat32, val);
    assert |a| == |b| && SameOutsideFat(a, b, g);
    hide Merge32, Low8, Entry32Set, Entry32;
  }

  lemma ZeroEntry(g: Geometry)
    ensures Trunc(g.fsType, 0) == 0
  {
  }

  /** Cluster numbers fit the entries, and the end mark is not one. */
  lemma TruncCluster(g: Geometry, v: nat)
    requires g.nFatent <= MaxEntries(g.fsType) && v < g.nFatent
    ensures Trunc(g.fsType, v) == v && v < DWORD_SIZE
    ensures Trunc(g.fsType, EOC) >= g.nFatent
  {
  }

  // ---- entries, byte by byte ----

  /** Entry `c` by the bytes of the FAT: two entries of a FAT12 share the second of three bytes, a FAT16 has
      two bytes each, a FAT32 four, of which the upper four bits do not belong to the entry. */
  lemma EntryBytes(img: Image, g: Geometry, c: nat)
    requires FatFits(g, |img|) && c < g.nFatent
    ensures g.fsType == Fat12 ==>
      var k := 3 * (c / 2);
      && k + 2 < g.fsize * SS + (1 - c % 2)
      && FatEntry(img, g, c) == if c % 2 == 0
        then FatByte(img, g, k) + 0x100 * (FatByte(img, g, k + 1) % 0x10)
        else FatByte(img, g, k + 1) / 0x10 + 0x10 * FatByte(img, g, k + 2)
    ensures g.fsType == Fat16 ==>
      2 * c + 1 < g.fsize * SS && FatEntry(img, g, c) == FatByte(img, g, 2 * c) + 0x100 * FatByte(img, g, 2 * c + 1)
    ensures g.fsType == Fat32 ==>
      4 * c + 3 < g.fsize * SS && FatEntry(img, g, c) ==
        FatByte(img, g, 4 * c) + 0x100 * FatByte(img, g, 4 * c + 1) + 0x1_0000 * FatByte(img, g, 4 * c + 2)
        + 0x100_0000 * (FatByte(img, g, 4 * c + 3) % 0x10)
  {
    if g.fsType == Fat12 {
      EntryBytes12(img, g, c);
      TwoEntries(c);
      Nibbles(FatByte(img, g, c + c / 2), FatByte(img, g, c + c / 2 + 1));
      hide FatByte, FatEntry, FatFits;
    } else {
      EntryInSector(img, g, c);
      hide FatByte;
    }
  }

  lemma Nibbles(lo: Byte, hi: Byte)
    ensures var wc: int := lo + 0x100 * hi as int;
      wc / 16 == lo / 0x10 + 0x10 * hi as int && wc % 0x1000 == lo + 0x100 * (hi % 0x10) as int
  {
  }

  lemma TwoEntries(c: nat)
    ensures c + c / 2 == 3 * (c / 2) + c % 2
  {
  }
}
