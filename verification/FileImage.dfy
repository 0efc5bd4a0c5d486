/**
 The bytes of a file: the sectors along its cluster chain, overlaid by the
 file's private sector buffer while that is dirty. All on values.
 */
module FileImage {
  import opened Bits
  import opened Layout
  import opened Chains

  // ---- positions, sectors and clusters of a file ----

  /** The index in the chain of the cluster that holds sector `j` of the file. */
  function Idx(g: Geometry, j: nat): nat {
    if g.csize == 0 then 0 else j / g.csize
  }

  /** The offset of sector `j` of the file in its cluster. */
  function Off(g: Geometry, j: nat): nat {
    if g.csize == 0 then 0 else j % g.csize
  }

  /** The first disk sector of cluster `c`. */
  function Base(g: Geometry, c: nat): nat {
    if c < 2 then 0 else ClusterSector(g, c)
  }

  /** The cluster a data sector belongs to. */
  function Owner(g: Geometry, s: nat): nat {
    if g.csize == 0 || s < g.database then 0 else (s - g.database) / g.csize + 2
  }

  /** Sector `j` of the file lies in its chain. */
  predicate InChain(g: Geometry, chain: seq<nat>, j: nat) {
    Idx(g, j) < |chain|
  }

  /** The disk sector of sector `j` of the file. */
  function SectorAt(g: Geometry, chain: seq<nat>, j: nat): nat {
    if InChain(g, chain, j) then Base(g, chain[Idx(g, j)]) + Off(g, j) else 0
  }

  lemma OffBound(g: Geometry, j: nat)
    requires g.csize >= 1
    ensures Off(g, j) < g.csize
  {
  }

  lemma SectorOffset(g: Geometry, j: nat)
    requires IsPow2(g.csize)
    ensures g.csize >= 1 && And(j, g.csize - 1) == Off(g, j)
  {
    MaskIsMod(j, g.csize);
  }

  lemma IdxOffUnique(g: Geometry, j: nat, k: nat)
    requires g.csize >= 1 && Idx(g, j) == Idx(g, k) && Off(g, j) == Off(g, k)
    ensures j == k
  {
    DivMod(j, g.csize);
    DivMod(k, g.csize);
  }

  lemma IdxRun(g: Geometry, j: nat, i: nat)
    requires Off(g, j) + i < g.csize
    ensures Idx(g, j + i) == Idx(g, j) && Off(g, j + i) == Off(g, j) + i
  {
    DivMod(j, g.csize);
    ModUnique(j + i, g.csize, j / g.csize, j % g.csize + i);
  }

  lemma IdxMonotonic(g: Geometry, j: nat, k: nat)
    requires g.csize >= 1 && j <= k
    ensures Idx(g, j) <= Idx(g, k)
  {
    DivMonotonic(j, k, g.csize);
  }

  /** Sector `j` is in the next cluster exactly when it starts one. */
  lemma IdxPred(g: Geometry, j: nat)
    requires g.csize >= 1 && j > 0
    ensures Off(g, j) == 0 ==> Idx(g, j) == Idx(g, j - 1) + 1
    ensures Off(g, j) != 0 ==> Idx(g, j) == Idx(g, j - 1)
  {
    PredDiv(j, g.csize);
  }

  lemma IdxZero(g: Geometry)
    ensures Idx(g, 0) == 0 && Off(g, 0) == 0
  {
  }

  lemma ClusterSpan(g: Geometry, c: nat, i: nat, size: nat)
    requires DataFits(g, size) && 2 <= c < g.nFatent && i < g.csize
    ensures g.database <= Base(g, c) + i < size
    ensures Owner(g, Base(g, c) + i) == c
  {
    var d, e := c - 2, g.nFatent - 2;
    assert ClusterSector(g, c) == g.csize * d + g.database;
    assert ClusterSector(g, g.nFatent) == g.csize * e + g.database;
    hide ClusterSector;
    MulDistributes(g.csize, d, 1);
    MulMonotonic(g.csize, d + 1, e);
    ModUnique(g.csize * d + i, g.csize, d, i);
  }

  /** A file's chain on a disk of `size` sectors; empty for a file without clusters. */
  ghost predicate GoodChain(g: Geometry, F: FatSeq, chain: seq<nat>, size: nat) {
    && |F| == g.nFatent && DataFits(g, size) && g.csize >= 1
    && (chain != [] ==> IsChain(F, chain))
  }

  lemma SectorOwner(g: Geometry, F: FatSeq, chain: seq<nat>, size: nat, j: nat)
    requires GoodChain(g, F, chain, size) && InChain(g, chain, j)
    ensures g.database <= SectorAt(g, chain, j) < size
    ensures Owner(g, SectorAt(g, chain, j)) == chain[Idx(g, j)]
  {
    OffBound(g, j);
    hide Idx, Off, Base, Owner, DataFits;
    ClusterSpan(g, chain[Idx(g, j)], Off(g, j), size);
  }

  /** Different file sectors are different disk sectors. */
  lemma SectorInjective(g: Geometry, F: FatSeq, chain: seq<nat>, size: nat, j: nat, k: nat)
    requires GoodChain(g, F, chain, size) && InChain(g, chain, j) && InChain(g, chain, k)
    requires SectorAt(g, chain, j) == SectorAt(g, chain, k)
    ensures j == k
  {
    SectorOwner(g, F, chain, size, j);
    SectorOwner(g, F, chain, size, k);
    AllDistinct(F, chain);
    hide Idx, Off, Base, Owner, DataFits, IsChain;
    assert Idx(g, j) == Idx(g, k);
    IdxOffUnique(g, j, k);
  }

  /** The sectors of one cluster are consecutive. */
  lemma SectorRun(g: Geometry, chain: seq<nat>, j: nat, i: nat)
    requires InChain(g, chain, j) && Off(g, j) + i < g.csize
    ensures InChain(g, chain, j + i)
    ensures SectorAt(g, chain, j + i) == SectorAt(g, chain, j) + i
  {
    hide Idx, Off, Base;
    IdxRun(g, j, i);
  }

  /** Stretching the chain leaves the sectors it had where they were. */
  lemma SectorKept(g: Geometry, chain: seq<nat>, more: seq<nat>, j: nat)
    requires InChain(g, chain, j)
    ensures InChain(g, chain + more, j)
    ensures SectorAt(g, chain + more, j) == SectorAt(g, chain, j)
  {
    hide Idx, Off, Base;
  }

  // ---- the cursor ----

  /** The sector of the file that holds byte `p`. */
  function Sec(p: nat): nat { p / SS }

  /** The offset of byte `p` in its sector. */
  function Rem(p: nat): (r: nat)
    ensures r < SS
  {
    p % SS
  }

  lemma SecPred(p: nat)
    requires p > 0
    ensures Rem(p) != 0 ==> Sec(p) == Sec(p - 1)
    ensures Rem(p) == 0 ==> Sec(p) == Sec(p - 1) + 1
  {
  }

  lemma SecMonotonic(p: nat, q: nat)
    requires p <= q
    ensures Sec(p) <= Sec(q)
  {
  }

  /** Byte `p` lies in the file's chain. */
  predicate Covered(g: Geometry, chain: seq<nat>, p: nat) {
    InChain(g, chain, Sec(p))
  }

  /** All bytes below `size` lie in the chain. */
  ghost predicate CoversSize(g: Geometry, chain: seq<nat>, size: nat) {
    size > 0 ==> Covered(g, chain, size - 1)
  }

  lemma CoveredBelow(g: Geometry, chain: seq<nat>, size: nat, p: nat)
    requires g.csize >= 1 && CoversSize(g, chain, size) && p < size
    ensures Covered(g, chain, p)
  {
    SecMonotonic(p, size - 1);
    hide Sec, Idx;
    IdxMonotonic(g, Sec(p), Sec(size - 1));
  }

  /** `clust` is the cluster of the byte before the pointer. */
  ghost predicate AtCluster(g: Geometry, chain: seq<nat>, fptr: nat, clust: nat) {
    fptr > 0 ==> Covered(g, chain, fptr - 1) && clust == chain[Idx(g, Sec(fptr - 1))]
  }

  /** Inside a cluster, the cluster of the byte before the pointer is the pointer's own. */
  lemma SameCluster(g: Geometry, chain: seq<nat>, fptr: nat, clust: nat)
    requires g.csize >= 1 && fptr > 0 && AtCluster(g, chain, fptr, clust)
    requires Rem(fptr) != 0 || Off(g, Sec(fptr)) != 0
    ensures Covered(g, chain, fptr) && clust == chain[Idx(g, Sec(fptr))]
  {
    SecPred(fptr);
    hide Sec, Idx, Off;
    if Rem(fptr) == 0 {
      IdxPred(g, Sec(fptr));
    }
  }

  /** On a cluster boundary, the pointer's cluster is the next one in the chain. */
  lemma NextCluster(g: Geometry, chain: seq<nat>, fptr: nat, clust: nat)
    requires g.csize >= 1 && fptr > 0 && AtCluster(g, chain, fptr, clust)
    requires Rem(fptr) == 0 && Off(g, Sec(fptr)) == 0
    ensures Idx(g, Sec(fptr)) == Idx(g, Sec(fptr - 1)) + 1 <= |chain|
    ensures clust == chain[Idx(g, Sec(fptr)) - 1]
  {
    SecPred(fptr);
    hide Sec, Idx, Off;
    IdxPred(g, Sec(fptr));
  }

  /** After `n` bytes of one sector, the pointer's cluster is still the same. */
  lemma AdvanceInSector(g: Geometry, chain: seq<nat>, fptr: nat, clust: nat, n: nat)
    requires Covered(g, chain, fptr) && clust == chain[Idx(g, Sec(fptr))]
    requires n >= 1 && Rem(fptr) + n <= SS
    ensures AtCluster(g, chain, fptr + n, clust)
    ensures Rem(fptr + n) != 0 ==> Sec(fptr + n) == Sec(fptr)
  {
    assert Sec(fptr + n - 1) == Sec(fptr);
  }

  /** After `cc` whole sectors inside one cluster, the pointer's cluster is still the same. */
  lemma AdvanceSectors(g: Geometry, chain: seq<nat>, fptr: nat, clust: nat, cc: nat)
    requires Covered(g, chain, fptr) && clust == chain[Idx(g, Sec(fptr))]
    requires Rem(fptr) == 0 && cc >= 1 && Off(g, Sec(fptr)) + cc <= g.csize
    ensures AtCluster(g, chain, fptr + SS * cc, clust) && Rem(fptr + SS * cc) == 0
  {
    AlignedSec(fptr, SS * cc - 1);
    AlignedSec(fptr, SS * cc);
    assert (SS * cc - 1) / SS == cc - 1 && SS * cc % SS == 0;
    hide Sec, Idx, Off;
    IdxRun(g, Sec(fptr), cc - 1);
  }

  // ---- the bytes ----

  /** What determines the bytes of an open file. */
  datatype FileView = FileView(
    img: Image, g: Geometry, chain: seq<nat>, dirty: bool, dsect: nat, b: Sector)

  /** The content of sector `j` of the file. */
  ghost function FileSector(v: FileView, j: nat): Sector {
    if SectorAt(v.g, v.chain, j) < |v.img| && !(v.dirty && SectorAt(v.g, v.chain, j) == v.dsect)
    then v.img[SectorAt(v.g, v.chain, j)]
    else v.b
  }

  ghost function ByteAt(v: FileView, p: nat): Byte {
    FileSector(v, Sec(p))[Rem(p)]
  }

  ghost predicate GoodView(v: FileView, F: FatSeq) {
    GoodChain(v.g, F, v.chain, |v.img|)
  }

  /** Both views show the same file sectors, for every sector in the chain of `v`. */
  ghost predicate SameSectors(v: FileView, w: FileView) {
    forall j: nat :: InChain(v.g, v.chain, j) ==> FileSector(w, j) == FileSector(v, j)
  }

  /** Writing back the buffer. */
  lemma FlushKeeps(v: FileView, w: FileView, F: FatSeq)
    requires GoodView(v, F) && v.dirty && v.dsect < |v.img|
    requires w == v.(img := v.img[v.dsect := v.b], dirty := false)
    ensures SameSectors(v, w)
  {
    forall j: nat | InChain(v.g, v.chain, j)
      ensures FileSector(w, j) == FileSector(v, j)
    {
      SectorOwner(v.g, F, v.chain, |v.img|, j);
      hide SectorAt, GoodChain;
    }
  }

  /** Reloading or retargeting a clean buffer. */
  lemma LoadKeeps(v: FileView, w: FileView, F: FatSeq)
    requires GoodView(v, F) && !v.dirty && !w.dirty
    requires w.img == v.img && w.g == v.g && w.chain == v.chain
    ensures SameSectors(v, w)
  {
    forall j: nat | InChain(v.g, v.chain, j)
      ensures FileSector(w, j) == FileSector(v, j)
    {
      SectorOwner(v.g, F, v.chain, |v.img|, j);
      hide SectorAt, GoodChain;
    }
  }

  /** Changing the FAT and stretching the chain. */
  lemma StretchKeeps(v: FileView, w: FileView, F: FatSeq, more: seq<nat>)
    requires GoodView(v, F) && v.g.fatbase + FatSectors(v.g) <= v.g.database
    requires SameOutsideFat(v.img, w.img, v.g)
    requires w == v.(img := w.img, chain := v.chain + more)
    ensures SameSectors(v, w)
  {
    forall j: nat | InChain(v.g, v.chain, j)
      ensures FileSector(w, j) == FileSector(v, j)
    {
      SectorOwner(v.g, F, v.chain, |v.img|, j);
      SectorKept(v.g, v.chain, more, j);
      hide SectorAt, GoodChain;
    }
  }

  /** `s` with the bytes from `o` on replaced by `d`. */
  function Patch(s: Sector, o: nat, d: seq<Byte>): (r: Sector)
    requires o + |d| <= SS
    ensures forall i :: 0 <= i < SS ==> r[i] == if o <= i < o + |d| then d[i - o] else s[i]
  {
    s[..o] + d + s[o + |d|..]
  }

  /** A direct transfer of `cc` sectors from file sector `j` on, inside one cluster. */
  lemma DirectWrite(v: FileView, w: FileView, F: FatSeq, j: nat, cc: nat, data: seq<Byte>)
    requires GoodView(v, F) && InChain(v.g, v.chain, j) && Off(v.g, j) + cc <= v.g.csize
    requires w.g == v.g && w.chain == v.chain
    requires SectorsWritten(v.img, w.img, SectorAt(v.g, v.chain, j), cc, data)
    requires w.dirty ==> v.dirty && w.dsect == v.dsect && w.b == v.b
    requires w.dirty ==> !(SectorAt(v.g, v.chain, j) <= v.dsect < SectorAt(v.g, v.chain, j) + cc)
    requires v.dirty && !w.dirty ==> SectorAt(v.g, v.chain, j) <= v.dsect < SectorAt(v.g, v.chain, j) + cc
    ensures forall k: nat :: j <= k < j + cc ==> InChain(v.g, v.chain, k) && FileSector(w, k) == Chunk(data, k - j)
    ensures forall k: nat :: InChain(v.g, v.chain, k) && !(j <= k < j + cc) ==> FileSector(w, k) == FileSector(v, k)
  {
    hide SectorAt, Idx, Off, GoodChain, InChain;
    forall k: nat | j <= k < j + cc
      ensures InChain(v.g, v.chain, k) && FileSector(w, k) == Chunk(data, k - j)
    {
      SectorRun(v.g, v.chain, j, k - j);
      SectorOwner(v.g, F, v.chain, |v.img|, k);
    }
    forall k: nat | InChain(v.g, v.chain, k) && !(j <= k < j + cc)
      ensures FileSector(w, k) == FileSector(v, k)
    {
      SectorOwner(v.g, F, v.chain, |v.img|, k);
      NotInRun(v, F, j, cc, k);
    }
  }

  /** File sectors outside a run inside one cluster are disk sectors outside it. */
  lemma NotInRun(v: FileView, F: FatSeq, j: nat, cc: nat, k: nat)
    requires GoodView(v, F) && InChain(v.g, v.chain, j) && Off(v.g, j) + cc <= v.g.csize
    requires InChain(v.g, v.chain, k) && !(j <= k < j + cc)
    ensures !(SectorAt(v.g, v.chain, j) <= SectorAt(v.g, v.chain, k) < SectorAt(v.g, v.chain, j) + cc)
  {
    hide SectorAt, Idx, Off, GoodChain, InChain;
    var d := SectorAt(v.g, v.chain, k) - SectorAt(v.g, v.chain, j);
    if 0 <= d < cc {
      SectorRun(v.g, v.chain, j, d);
      SectorInjective(v.g, F, v.chain, |v.img|, j + d, k);
    }
  }

  /** The buffer holds the current content of file sector `j`. */
  ghost predicate Buffers(v: FileView, j: nat) {
    && v.dsect == SectorAt(v.g, v.chain, j) < |v.img|
    && (v.dirty || v.b == v.img[v.dsect])
  }

  /** Patching the buffer of file sector `j`. */
  lemma BufferedWrite(v: FileView, w: FileView, F: FatSeq, j: nat, o: nat, d: seq<Byte>)
    requires GoodView(v, F) && InChain(v.g, v.chain, j)
    requires v.dsect == SectorAt(v.g, v.chain, j)
    requires o + |d| <= SS && w == v.(b := Patch(v.b, o, d), dirty := true)
    ensures FileSector(w, j) == Patch(v.b, o, d)
    ensures forall k: nat :: InChain(v.g, v.chain, k) && k != j ==> FileSector(w, k) == FileSector(v, k)
  {
    hide SectorAt, Idx, Off, GoodChain, InChain;
    forall k: nat | InChain(v.g, v.chain, k) && k != j
      ensures FileSector(w, k) == FileSector(v, k)
    {
      SectorOwner(v.g, F, v.chain, |v.img|, k);
      if SectorAt(v.g, v.chain, k) == v.dsect {
        SectorInjective(v.g, F, v.chain, |v.img|, j, k);
      }
    }
  }

  // ---- the invariant of an open file ----

  /** The buffer's sector is a data sector, is in the chain while dirty, and
      (`exact`) agrees with the disk while clean. */
  ghost predicate BufferOk(v: FileView, exact: bool) {
    && (v.dsect != 0 ==> v.g.database <= v.dsect < |v.img|)
    && (v.dirty ==> v.dsect != 0 && Owner(v.g, v.dsect) in v.chain)
    && (exact && !v.dirty && v.dsect != 0 ==> v.img[v.dsect] == v.b)
  }

  /** Everything but the cursor: `ws` is the sector in the volume's window. */
  ghost predicate FileOk(v: FileView, F: FatSeq, ws: nat, sclust: nat, exact: bool) {
    && GoodView(v, F)
    && BufferOk(v, exact)
    && Owner(v.g, ws) !in v.chain
    && (if sclust == 0 then v.chain == [] else v.chain != [] && v.chain[0] == sclust)
  }

  /** A dirty buffer can be written back: its sector is not in the window. */
  lemma DirtySector(v: FileView, F: FatSeq, ws: nat, sclust: nat, exact: bool)
    requires FileOk(v, F, ws, sclust, exact) && v.dirty
    ensures v.g.database <= v.dsect < |v.img| && v.dsect != ws
  {
  }

  lemma FlushOk(v: FileView, w: FileView, F: FatSeq, ws: nat, sclust: nat, exact: bool)
    requires FileOk(v, F, ws, sclust, exact) && v.dirty && v.dsect < |v.img|
    requires w == v.(img := v.img[v.dsect := v.b], dirty := false)
    ensures FileOk(w, F, ws, sclust, true) && SameSectors(v, w)
  {
    FlushKeeps(v, w, F);
  }

  lemma LoadOk(v: FileView, w: FileView, F: FatSeq, ws: nat, sclust: nat, exact: bool, j: nat)
    requires FileOk(v, F, ws, sclust, exact) && !v.dirty && InChain(v.g, v.chain, j)
    requires SectorAt(v.g, v.chain, j) < |v.img|
    requires w == v.(dsect := SectorAt(v.g, v.chain, j), b := v.img[SectorAt(v.g, v.chain, j)])
    ensures FileOk(w, F, ws, sclust, true) && SameSectors(v, w) && Buffers(w, j)
  {
    LoadKeeps(v, w, F);
    SectorOwner(v.g, F, v.chain, |v.img|, j);
  }

  lemma AlreadyBuffered(v: FileView, F: FatSeq, ws: nat, sclust: nat, j: nat)
    requires FileOk(v, F, ws, sclust, true) && InChain(v.g, v.chain, j) && v.dsect == SectorAt(v.g, v.chain, j)
    ensures Buffers(v, j)
  {
    SectorOwner(v.g, F, v.chain, |v.img|, j);
  }

  lemma SameSectorsTrans(u: FileView, v: FileView, w: FileView)
    requires SameSectors(u, v) && SameSectors(v, w) && u.g == v.g && u.chain <= v.chain
    ensures SameSectors(u, w)
  {
  }

  /** The window is away from the file once it shows a FAT sector. */
  lemma AwayFromFat(v: FileView, F: FatSeq, ws: nat)
    requires GoodView(v, F) && InFat(v.g, ws)
    ensures Owner(v.g, ws) !in v.chain
  {
  }

  /** The same file: sectors, chain, and everything outside the file. */
  ghost predicate SameFile(v: FileView, w: FileView) {
    SameSectors(v, w) && SameOutsideFile(v, w) && w.g == v.g && w.chain == v.chain
  }

  lemma SameFileRefl(v: FileView)
    ensures SameFile(v, v)
  {
  }

  lemma SameFileTrans(u: FileView, v: FileView, w: FileView)
    requires SameFile(u, v) && SameFile(v, w)
    ensures SameFile(u, w)
  {
    SameSectorsTrans(u, v, w);
    SameOutsideFileTrans(u, v, w);
  }

  /** A sector of the file: not the window's, not in the FAT. */
  lemma OwnSector(v: FileView, F: FatSeq, ws: nat, sclust: nat, exact: bool, j: nat)
    requires FileOk(v, F, ws, sclust, exact) && InChain(v.g, v.chain, j)
    ensures v.g.database <= SectorAt(v.g, v.chain, j) < |v.img| && SectorAt(v.g, v.chain, j) != ws
  {
    SectorOwner(v.g, F, v.chain, |v.img|, j);
  }

  /** What `clust2sect` plus the sector offset gives for the cluster that holds sector `j`. */
  lemma SectorOfCluster(v: FileView, F: FatSeq, j: nat)
    requires GoodView(v, F) && InChain(v.g, v.chain, j) && 2 <= v.g.nFatent < DWORD_SIZE - 2
    ensures And(j, v.g.csize - 1) == Off(v.g, j)
    ensures v.chain[Idx(v.g, j)] < DWORD_SIZE
    ensures Clust2Sect(v.g, v.chain[Idx(v.g, j)]) == Base(v.g, v.chain[Idx(v.g, j)]) > 0
    ensures SectorAt(v.g, v.chain, j) == Clust2Sect(v.g, v.chain[Idx(v.g, j)]) + And(j, v.g.csize - 1)
    ensures Off(v.g, j) < v.g.csize
  {
    MaskIsMod(j, v.g.csize);
    ClusterSpan(v.g, v.chain[Idx(v.g, j)], 0, |v.img|);
  }

  // ---- the cursor of an open file ----

  /** The cursor of a file of `size` bytes. */
  ghost predicate CursorOk(v: FileView, size: nat, fptr: nat, clust: nat) {
    && fptr <= size < DWORD_SIZE
    && CoversSize(v.g, v.chain, size)
    && AtCluster(v.g, v.chain, fptr, clust)
    && (Rem(fptr) != 0 ==> v.dsect == SectorAt(v.g, v.chain, Sec(fptr)))
  }

  lemma CursorFacts(v: FileView, size: nat, fptr: nat, clust: nat)
    requires CursorOk(v, size, fptr, clust)
    ensures fptr <= size < DWORD_SIZE && CoversSize(v.g, v.chain, size)
    ensures AtCluster(v.g, v.chain, fptr, clust)
    ensures Rem(fptr) != 0 ==> v.dsect == SectorAt(v.g, v.chain, Sec(fptr))
  {
  }

  /** `clust` is the cluster that holds byte `fptr`. */
  ghost predicate InCluster(v: FileView, fptr: nat, clust: nat) {
    Covered(v.g, v.chain, fptr) && clust == v.chain[Idx(v.g, Sec(fptr))]
  }

  lemma PlacedInChain(v: FileView, fptr: nat, clust: nat)
    requires InCluster(v, fptr, clust)
    ensures InChain(v.g, v.chain, Sec(fptr))
  {
  }

  lemma PlacedIn(v: FileView, w: FileView, fptr: nat, clust: nat)
    requires InCluster(v, fptr, clust) && SameFile(v, w)
    ensures InCluster(w, fptr, clust) && w.g == v.g && w.chain == v.chain
  {
  }

  lemma PlacedHere(v: FileView, w: FileView, fptr: nat, clust: nat)
    requires InCluster(v, fptr, clust) && w.g == v.g && w.chain == v.chain
    ensures InCluster(w, fptr, clust)
  {
  }

  lemma CoveredHere(v: FileView, fptr: nat, clust: nat)
    requires InCluster(v, fptr, clust)
    ensures Covered(v.g, v.chain, fptr)
  {
  }

  /** Off a sector boundary, the buffer holds the sector of byte `fptr`. */
  lemma StayInSector(v: FileView, F: FatSeq, ws: nat, sclust: nat, size: nat, fptr: nat, clust: nat)
    requires FileOk(v, F, ws, sclust, true) && CursorOk(v, size, fptr, clust) && Rem(fptr) != 0
    ensures InCluster(v, fptr, clust) && Buffers(v, Sec(fptr))
  {
    SameCluster(v.g, v.chain, fptr, clust);
    AlreadyBuffered(v, F, ws, sclust, Sec(fptr));
  }

  /** On a sector boundary inside a cluster, the cluster stays. */
  lemma StayInCluster(v: FileView, size: nat, fptr: nat, clust: nat)
    requires v.g.csize >= 1 && CursorOk(v, size, fptr, clust) && Off(v.g, Sec(fptr)) != 0
    ensures InCluster(v, fptr, clust)
  {
    IdxZero(v.g);
    SameCluster(v.g, v.chain, fptr, clust);
  }

  /** Moving `n` bytes on inside the buffered sector. */
  lemma MovePart(v: FileView, size: nat, fptr: nat, clust: nat, n: nat)
    requires InCluster(v, fptr, clust) && Buffers(v, Sec(fptr))
    requires n >= 1 && Rem(fptr) + n <= SS && fptr + n <= size < DWORD_SIZE && CoversSize(v.g, v.chain, size)
    ensures CursorOk(v, size, fptr + n, clust)
  {
    AdvanceInSector(v.g, v.chain, fptr, clust, n);
  }

  /** Moving `cc` sectors on inside one cluster. */
  lemma MoveWhole(v: FileView, size: nat, fptr: nat, clust: nat, cc: nat)
    requires InCluster(v, fptr, clust) && Rem(fptr) == 0
    requires cc >= 1 && Off(v.g, Sec(fptr)) + cc <= v.g.csize
    requires fptr + SS * cc <= size < DWORD_SIZE && CoversSize(v.g, v.chain, size)
    ensures CursorOk(v, size, fptr + SS * cc, clust)
  {
    AdvanceSectors(v.g, v.chain, fptr, clust, cc);
  }

  /** What `clust2sect` plus the sector offset gives in the cluster of byte `fptr`. */
  lemma ClusterOf(v: FileView, F: FatSeq, fptr: nat, clust: nat)
    requires GoodView(v, F) && InCluster(v, fptr, clust) && 2 <= v.g.nFatent < DWORD_SIZE - 2
    ensures And(Sec(fptr), v.g.csize - 1) == Off(v.g, Sec(fptr)) < v.g.csize
    ensures clust < DWORD_SIZE && Clust2Sect(v.g, clust) > 0
    ensures SectorAt(v.g, v.chain, Sec(fptr)) == Clust2Sect(v.g, clust) + And(Sec(fptr), v.g.csize - 1)
  {
    SectorOfCluster(v, F, Sec(fptr));
  }

  // ---- following the chain ----

  /** At the start of a non-empty file, the next cluster is the first one. */
  lemma EnterFirst(v: FileView, F: FatSeq, ws: nat, sclust: nat, exact: bool, size: nat)
    requires FileOk(v, F, ws, sclust, exact) && CoversSize(v.g, v.chain, size) && size > 0
    ensures Covered(v.g, v.chain, 0) && sclust == v.chain[Idx(v.g, Sec(0))] && sclust >= 2
  {
    CoveredBelow(v.g, v.chain, size, 0);
    IdxZero(v.g);
  }

  /** On a cluster boundary inside the file, the FAT entry of the pointer's cluster is the next one. */
  lemma EnterNext(v: FileView, F: FatSeq, size: nat, fptr: nat, clust: nat)
    requires GoodView(v, F) && CoversSize(v.g, v.chain, size) && 0 < fptr < size
    requires AtCluster(v.g, v.chain, fptr, clust) && Rem(fptr) == 0 && Off(v.g, Sec(fptr)) == 0
    ensures Covered(v.g, v.chain, fptr) && 2 <= clust < |F|
    ensures F[clust] == v.chain[Idx(v.g, Sec(fptr))] && F[clust] >= 2
  {
    CoveredBelow(v.g, v.chain, size, fptr);
    NextCluster(v.g, v.chain, fptr, clust);
    hide Idx, Off, Sec, DataFits, AtCluster;
    LinkAt(F, v.chain, Idx(v.g, Sec(fptr)) - 1);
  }

  // ---- what is not the file's ----

  predicate NotOwned(v: FileView, w: FileView, s: nat) {
    Owner(v.g, s) !in v.chain && Owner(v.g, s) !in w.chain
  }

  /** Outside the FAT and the clusters of the file nothing changes. */
  ghost predicate SameOutsideFile(v: FileView, w: FileView) {
    && |w.img| == |v.img| && w.g == v.g
    && forall s: nat :: s < |v.img| && !InFat(v.g, s) && !InMirror(v.g, s) && NotOwned(v, w, s)
         ==> w.img[s] == v.img[s]
  }

  lemma SameImageOutside(v: FileView, w: FileView)
    requires w.img == v.img && w.g == v.g
    ensures SameOutsideFile(v, w)
  {
  }

  lemma SameOutsideFileTrans(u: FileView, v: FileView, w: FileView)
    requires SameOutsideFile(u, v) && SameOutsideFile(v, w) && u.chain <= v.chain <= w.chain
    ensures SameOutsideFile(u, w)
  {
  }

  lemma FlushOutside(v: FileView, w: FileView)
    requires v.dirty ==> Owner(v.g, v.dsect) in v.chain
    requires v.dirty && v.dsect < |v.img|
    requires w == v.(img := v.img[v.dsect := v.b], dirty := false)
    ensures SameOutsideFile(v, w)
  {
  }

  // ---- runs of bytes ----

  ghost function BytesFrom(v: FileView, p: nat, n: nat): (r: seq<Byte>)
    ensures |r| == n
  {
    seq<Byte>(n, i requires 0 <= i < n => ByteAt(v, p + i))
  }

  lemma SameFileBytes(v: FileView, w: FileView, size: nat, p: nat, n: nat)
    requires v.g.csize >= 1 && SameFile(v, w) && CoversSize(v.g, v.chain, size) && p + n <= size
    ensures BytesFrom(w, p, n) == BytesFrom(v, p, n)
  {
    SameBytes(v, w, size, p, n);
  }

  lemma SameFileFacts(v: FileView, w: FileView)
    requires SameFile(v, w)
    ensures w.g == v.g && w.chain == v.chain
  {
  }

  lemma SameFileCovers(v: FileView, w: FileView, size: nat)
    requires SameFile(v, w) && CoversSize(w.g, w.chain, size) && w.g.csize >= 1
    ensures CoversSize(v.g, v.chain, size) && v.g.csize >= 1
  {
  }

  lemma ByteOf(v: FileView, p: nat, n: nat, i: nat)
    requires i < n
    ensures BytesFrom(v, p, n)[i] == ByteAt(v, p + i)
  {
  }

  lemma BytesAppend(v: FileView, p: nat, n: nat, m: nat)
    ensures BytesFrom(v, p, n + m) == BytesFrom(v, p, n) + BytesFrom(v, p + n, m)
  {
  }

  lemma SameByte(v: FileView, w: FileView, p: nat)
    requires SameSectors(v, w) && Covered(v.g, v.chain, p)
    ensures ByteAt(w, p) == ByteAt(v, p)
  {
  }

  /** Views with the same sectors have the same bytes below a covered size. */
  lemma SameBytes(v: FileView, w: FileView, size: nat, p: nat, n: nat)
    requires v.g.csize >= 1 && SameSectors(v, w) && CoversSize(v.g, v.chain, size) && p + n <= size
    ensures BytesFrom(w, p, n) == BytesFrom(v, p, n)
  {
    forall i: nat | i < n
      ensures BytesFrom(w, p, n)[i] == BytesFrom(v, p, n)[i]
    {
      CoveredBelow(v.g, v.chain, size, p + i);
      ByteOf(w, p, n, i);
      ByteOf(v, p, n, i);
      hide *;
      SameByte(v, w, p + i);
    }
  }

  /** Positions inside one sector. */
  lemma SameSec(p: nat, i: nat)
    requires Rem(p) + i < SS
    ensures Sec(p + i) == Sec(p) && Rem(p + i) == Rem(p) + i
  {
  }

  /** Positions from a sector boundary on. */
  lemma AlignedSec(p: nat, i: nat)
    requires Rem(p) == 0
    ensures Sec(p + i) == Sec(p) + i / SS && Rem(p + i) == i % SS
  {
  }

  /** The bytes of a buffered sector. */
  lemma BufferedBytes(v: FileView, p: nat, n: nat)
    requires Buffers(v, Sec(p)) && Rem(p) + n <= SS
    ensures BytesFrom(v, p, n) == v.b[Rem(p)..Rem(p) + n]
  {
    forall i: nat | i < n
      ensures BytesFrom(v, p, n)[i] == v.b[Rem(p) + i]
    {
      ByteOf(v, p, n, i);
      SameSec(p, i);
    }
  }

  /** The bytes of `cc` sectors read directly, the sector in the dirty buffer copied over. */
  ghost function DirectBytes(v: FileView, sect: nat, cc: nat): (r: seq<Byte>)
    requires sect + cc <= |v.img|
    ensures |r| == SS * cc
  {
    if v.dirty && sect <= v.dsect < sect + cc
    then Splice(Flat(v.img, sect, cc), SS * (v.dsect - sect), v.b)
    else Flat(v.img, sect, cc)
  }

  lemma DirectByte(v: FileView, sect: nat, cc: nat, i: nat)
    requires sect + cc <= |v.img| && i < SS * cc
    ensures DirectBytes(v, sect, cc)[i] ==
      if v.dirty && v.dsect == sect + i / SS then v.b[i % SS] else v.img[sect + i / SS][i % SS]
  {
    if v.dirty && sect <= v.dsect < sect + cc {
      var d := v.dsect - sect;
      assert i / SS == d <==> SS * d <= i < SS * d + SS;
    }
  }

  lemma DirectRead(v: FileView, F: FatSeq, p: nat, sect: nat, cc: nat)
    requires GoodView(v, F) && Rem(p) == 0 && Covered(v.g, v.chain, p)
    requires Off(v.g, Sec(p)) + cc <= v.g.csize && sect == SectorAt(v.g, v.chain, Sec(p))
    requires sect + cc <= |v.img|
    ensures DirectBytes(v, sect, cc) == BytesFrom(v, p, SS * cc)
  {
    forall i: nat | i < SS * cc
      ensures DirectBytes(v, sect, cc)[i] == BytesFrom(v, p, SS * cc)[i]
    {
      DirectByte(v, sect, cc, i);
      ByteOf(v, p, SS * cc, i);
      AlignedSec(p, i);
      assert i / SS < cc;
      hide Sec, SectorAt, Off, DirectBytes, Flat, BytesFrom;
      SectorRun(v.g, v.chain, Sec(p), i / SS);
    }
  }

  /** A run of sectors inside one cluster lies in the data area, away from the window. */
  lemma RunInDisk(v: FileView, F: FatSeq, ws: nat, j: nat, cc: nat)
    requires GoodView(v, F) && Owner(v.g, ws) !in v.chain && InChain(v.g, v.chain, j)
    requires cc >= 1 && Off(v.g, j) + cc <= v.g.csize
    ensures v.g.database <= SectorAt(v.g, v.chain, j) && SectorAt(v.g, v.chain, j) + cc <= |v.img|
    ensures !(SectorAt(v.g, v.chain, j) <= ws < SectorAt(v.g, v.chain, j) + cc)
  {
    hide *;
    ViewChain(v, F);
    SectorOwner(v.g, F, v.chain, |v.img|, j);
    SectorRun(v.g, v.chain, j, cc - 1);
    SectorOwner(v.g, F, v.chain, |v.img|, j + (cc - 1));
    var s := SectorAt(v.g, v.chain, j);
    if s <= ws < s + cc {
      SectorRun(v.g, v.chain, j, ws - s);
      SectorOwner(v.g, F, v.chain, |v.img|, j + (ws - s));
      InChainIdx(v.g, v.chain, j + (ws - s));
    }
  }

  lemma ViewChain(v: FileView, F: FatSeq)
    requires GoodView(v, F)
    ensures GoodChain(v.g, F, v.chain, |v.img|)
  {
  }

  lemma InChainIdx(g: Geometry, chain: seq<nat>, j: nat)
    requires InChain(g, chain, j)
    ensures Idx(g, j) < |chain| && chain[Idx(g, j)] in chain
  {
  }

  /** One more piece read: from `v` at the start of the loop to `m`, and one step more to `w`. */
  lemma ReadMore(v: FileView, m: FileView, w: FileView, size: nat, f: nat, data: seq<Byte>, out: seq<Byte>)
    requires v.g.csize >= 1 && SameFile(v, m) && SameFile(m, w)
    requires CoversSize(v.g, v.chain, size) && f + |data| + |out| <= size
    requires data == BytesFrom(v, f, |data|) && out == BytesFrom(m, f + |data|, |out|)
    ensures SameFile(v, w) && data + out == BytesFrom(v, f, |data + out|)
  {
    SameFileTrans(v, m, w);
    hide BytesFrom, SameSectors, SameOutsideFile, CoversSize;
    SameBytes(v, m, size, f + |data|, |out|);
    BytesAppend(v, f, |data|, |out|);
  }

  lemma NoBytes(v: FileView, p: nat)
    ensures BytesFrom(v, p, 0) == []
  {
  }

  lemma BytesSlice(v: FileView, size: nat, p: nat, n: nat)
    requires p + n <= size
    ensures BytesFrom(v, p, n) == BytesFrom(v, 0, size)[p..p + n]
  {
  }

  /** Sector `j` of a file by the numbers of the volume. */
  lemma SectorNumber(g: Geometry, F: FatSeq, chain: seq<nat>, size: nat, j: nat)
    requires GoodChain(g, F, chain, size) && InChain(g, chain, j)
    ensures j / g.csize < |chain| && chain[j / g.csize] >= 2
    ensures SectorAt(g, chain, j) == g.database + (chain[j / g.csize] - 2) * g.csize + j % g.csize < size
  {
    SectorOwner(g, F, chain, size, j);
  }

  /** Byte `p` of a file by the bytes of the drive: the chain's cluster that it falls into, the sector of
      that cluster, the byte of that sector; or of the buffer while that holds the sector and is dirty. */
  lemma ByteIs(v: FileView, F: FatSeq, p: nat)
    requires GoodView(v, F) && Covered(v.g, v.chain, p)
    ensures var j := p / 512;
      && j / v.g.csize < |v.chain| && v.chain[j / v.g.csize] >= 2
      && var s := v.g.database + (v.chain[j / v.g.csize] - 2) * v.g.csize + j % v.g.csize;
         s < |v.img| && ByteAt(v, p) == if v.dirty && v.dsect == s then v.b[p % 512] else v.img[s][p % 512]
  {
    SectorNumber(v.g, F, v.chain, |v.img|, p / 512);
    hide SectorAt, GoodView, Idx;
  }
}
