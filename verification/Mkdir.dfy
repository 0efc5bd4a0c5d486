/**
 The table of a new directory: `f_mkdir` builds the dot entries in the window, writes them and clears
 the rest of the cluster, and leaves the window as it happens to be.
 */
module Mkdir {
  import opened Bits
  import opened Layout
  import opened FreeSpace
  import opened FileImage
  import opened DirTable
  import opened VolumeModel

  const AM_DIR: Byte := 0x10
  const DOT: Byte := 0x2E
  const BLANK: Byte := 0x20

  /** The entry at offset `o` is a directory named `.`, or `..` with `two`, with the cluster `clst`. */
  predicate IsDot(s: Sector, o: nat, two: bool, clst: nat, tm: nat)
    requires o + 32 <= SS
  {
    && s[o] == DOT && s[o + 1] == (if two then DOT else BLANK) && (forall k :: o + 2 <= k < o + 11 ==> s[k] == BLANK)
    && s[o + 11] == AM_DIR && (forall k :: o + 12 <= k < o + 20 ==> s[k] == 0)
    && LdDword(s, o + 22) == tm && LdWord(s, o + 26) + 0x1_0000 * LdWord(s, o + 20) == clst
    && forall k :: o + 28 <= k < o + 32 ==> s[k] == 0
  }

  /** The first sector of the table: the dot entries, then end marks. */
  predicate IsDots(s: Sector, dcl: nat, pcl: nat, tm: nat) {
    && IsDot(s, 0, false, dcl, tm) && IsDot(s, 32, true, pcl, tm)
    && forall k :: 64 <= k < SS ==> s[k] == 0
  }

  /** `st_clust` */
  function StClust(s: Sector, o: nat, cl: nat): (r: Sector)
    requires o + 32 <= SS && cl < DWORD_SIZE
    ensures LdWord(r, o + 26) + 0x1_0000 * LdWord(r, o + 20) == cl
    ensures forall k :: 0 <= k < SS && !(o + 20 <= k < o + 22) && !(o + 26 <= k < o + 28) ==> r[k] == s[k]
  {
    StWord(StWord(s, o + 26, cl % 0x1_0000), o + 20, cl / 0x1_0000)
  }

  /** The dot entries of a directory in cluster `dcl` under the one in cluster `pcl`. */
  method BuildDots(dcl: nat, pcl: nat, tm: nat) returns (dir: Sector)
    requires dcl < DWORD_SIZE && pcl < DWORD_SIZE && tm < DWORD_SIZE
    ensures IsDots(dir, dcl, pcl, tm)
    // `.` and `..`, directories
    ensures dir[0] == 0x2E && dir[1] == 0x20 && dir[11] == 0x10 && dir[32] == dir[33] == 0x2E && dir[43] == 0x10
  {
    hide StWord, StDword, StClust, LdDword, LdWord;
    var z := ZeroSector();
    dir := Splice(z, 0, seq<Byte>(11, i => BLANK));
    dir := dir[0 := DOT][11 := AM_DIR];
    var a := StDword(dir, 22, tm);
    var b := StClust(a, 0, dcl);
    SameDword(a, b, 22);
    FirstDot(b, dcl, tm);
    var c := Splice(b, 32, b[..32]);
    Copied(b, c, dcl, tm);
    dir := StClust(c[33 := DOT], 32, pcl);
    SecondDot(b, c, dir, dcl, pcl, tm);
  }

  lemma FirstDot(s: Sector, dcl: nat, tm: nat)
    requires s[0] == DOT && s[11] == AM_DIR && (forall k :: 1 <= k < 11 ==> s[k] == BLANK)
    requires (forall k :: 12 <= k < 20 ==> s[k] == 0) && forall k :: 28 <= k < SS ==> s[k] == 0
    requires LdDword(s, 22) == tm && LdWord(s, 26) + 0x1_0000 * LdWord(s, 20) == dcl
    ensures IsDot(s, 0, false, dcl, tm) && forall k :: 32 <= k < SS ==> s[k] == 0
  {
    hide LdDword, LdWord;
  }

  /** `mem_cpy` of the first entry. */
  lemma Copied(s: Sector, c: Sector, dcl: nat, tm: nat)
    requires IsDot(s, 0, false, dcl, tm) && c == Splice(s, 32, s[..32])
    ensures IsDot(c, 0, false, dcl, tm) && LdDword(c, 54) == tm
    ensures c[32] == DOT && c[43] == AM_DIR && (forall k :: 33 <= k < 43 ==> c[k] == BLANK)
    ensures (forall k :: 44 <= k < 52 ==> c[k] == 0) && (forall k :: 60 <= k < 64 ==> c[k] == 0)
    ensures forall k :: 64 <= k < SS ==> c[k] == s[k]
  {
    assert forall k :: 0 <= k < 32 ==> c[k] == s[k] && c[32 + k] == s[k];
  }

  lemma SecondDot(s: Sector, c: Sector, d: Sector, dcl: nat, pcl: nat, tm: nat)
    requires pcl < DWORD_SIZE && IsDot(c, 0, false, dcl, tm) && LdDword(c, 54) == tm
    requires c[32] == DOT && c[43] == AM_DIR && (forall k :: 33 <= k < 43 ==> c[k] == BLANK)
    requires (forall k :: 44 <= k < 52 ==> c[k] == 0) && (forall k :: 60 <= k < 64 ==> c[k] == 0)
    requires (forall k :: 64 <= k < SS ==> c[k] == s[k]) && forall k :: 32 <= k < SS ==> s[k] == 0
    requires d == StClust(c[33 := DOT], 32, pcl)
    ensures IsDots(d, dcl, pcl, tm)
  {
    hide StClust;
    assert LdDword(d, 22) == LdDword(c, 22) && LdDword(d, 54) == LdDword(c, 54);
    assert LdWord(d, 26) == LdWord(c, 26) && LdWord(d, 20) == LdWord(c, 20);
    hide LdDword, LdWord;
  }

  /** The dot entries are not blank. */
  lemma DotsShow(s: Sector, dcl: nat, pcl: nat, tm: nat)
    requires IsDots(s, dcl, pcl, tm)
    ensures s != ZeroSector()
  {
    hide LdDword, LdWord;
    assert s[0] == DOT && ZeroSector()[0] == 0;
  }

  /** The `n` sectors from `s` on are those of a new table, the first one `dots`. */
  ghost predicate TableUpTo(a: Image, b: Image, s: nat, n: nat, dots: Sector) {
    && |a| == |b| && s + n <= |a|
    && forall t: nat :: t < |a| ==> b[t] == if s < t < s + n then ZeroSector()
      else if t == s < s + n then dots else a[t]
  }

  lemma NoTable(a: Image, s: nat, dots: Sector)
    requires s <= |a|
    ensures TableUpTo(a, a, s, 0, dots)
  {
  }

  lemma OneMoreSector(a: Image, m: Image, b: Image, s: nat, n: nat, dots: Sector, x: Sector)
    requires TableUpTo(a, m, s, n, dots) && s + n < |m| && b == m[s + n := x] && x == if n == 0 then dots
      else ZeroSector()
    ensures TableUpTo(a, b, s, n + 1, dots)
  {
  }

  lemma TableAt(a: Image, b: Image, s: nat, n: nat, dots: Sector)
    requires TableUpTo(a, b, s, n, dots) && n >= 1
    ensures s + n <= |b| == |a| && b[s + (n - 1)] == if n == 1 then dots else ZeroSector()
  {
  }

  /** The middle of `f_mkdir`: the table of the new directory in cluster `dcl`, in a directory that
      starts at `sclust`. The disk is right at once; the window shows the sector it is at exactly if
      that is not the first of the cluster. */
  method NewTable(v: Volume, dcl: nat, sclust: nat, tm: nat) returns (ghost dots: Sector)
    requires v.Valid() && 2 <= dcl < v.g.nFatent && sclust < DWORD_SIZE && tm < DWORD_SIZE
    modifies v`wflag, v`winsect, v`disk, v`img, v.win
    ensures v.Detached() && v.fat == old(v.fat) && v.winsect == Base(v.g, dcl) + v.g.csize - 1
    ensures IsDots(dots, dcl, if v.g.fsType == Fat32 && sclust == v.g.dirbase then 0 else sclust, tm)
    ensures TableUpTo(old(v.img), v.img, Base(v.g, dcl), v.g.csize, dots)
    ensures v.Valid() <==> v.g.csize > 1
  {
    hide *;
    v.Facts();
    SectorSize();
    ghost var a, base := v.img, Base(v.g, dcl);
    ClusterInDisk(v.g, |v.img|, dcl);
    v.SyncWindow();
    var dsc: nat := Clust2Sect(v.g, dcl);
    var pcl := if v.g.fsType == Fat32 && sclust == v.g.dirbase then 0 else sclust;
    var dir := BuildDots(dcl, pcl, tm);
    dots := dir;
    DotsShow(dots, dcl, pcl, tm);
    v.MemBuild(dir);
    NoTable(a, base, dots);
    var n: nat := v.g.csize;
    while n > 0
      invariant v.Detached() && n <= v.g.csize && dsc == base + (v.g.csize - n) && |v.img| == |a|
      invariant v.win.Length == SS && v.win[..] == if n == v.g.csize then dots else ZeroSector()
      invariant TableUpTo(a, v.img, base, v.g.csize - n, dots)
      invariant v.fat == old(v.fat) && (n < v.g.csize ==> v.winsect == dsc - 1)
    {
      ghost var m := v.img;
      v.SetWinsect(dsc);
      dsc := dsc + 1;
      v.PutWindow();
      OneMoreSector(a, m, v.img, base, v.g.csize - n, dots, v.win[..]);
      v.MemClear();
      n := n - 1;
    }
    TableAt(a, v.img, base, v.g.csize, dots);
    AwayFromMirror(v.g, |v.img|, dcl);
    v.DetachedIsValid();
  }

  lemma AwayFromMirror(g: Geometry, size: nat, c: nat)
    requires Fits(g, size) && 2 <= c < g.nFatent
    ensures g.csize >= 1 && !InMirror(g, Base(g, c) + (g.csize - 1))
  {
    ClusterInDisk(g, size, c);
    hide Fits;
  }

  /** The next sector shown, any but the one the window is at, makes the window valid again. */
  method NewTableThenMove(v: Volume, dcl: nat, sclust: nat, tm: nat, sector: nat) returns (ghost dots: Sector)
    requires v.Valid() && 2 <= dcl < v.g.nFatent && sclust < DWORD_SIZE && tm < DWORD_SIZE
    requires sector < |v.img| && !InMirror(v.g, sector)
    requires v.g.csize == 1 ==> sector != Base(v.g, dcl)
    modifies v`wflag, v`winsect, v`disk, v`img, v.win
    ensures v.Valid() && v.winsect == sector && v.fat == old(v.fat)
    ensures IsDots(dots, dcl, if v.g.fsType == Fat32 && sclust == v.g.dirbase then 0 else sclust, tm)
    ensures TableUpTo(old(v.img), v.img, Base(v.g, dcl), v.g.csize, dots)
    ensures v.win[..] == v.img[sector]
  {
    hide *;
    v.Facts();
    ClusterInDisk(v.g, |v.img|, dcl);
    dots := NewTable(v, dcl, sclust, tm);
    TableAt(old(v.img), v.img, Base(v.g, dcl), v.g.csize, dots);
    v.MoveWindow(sector);
  }
}
