/**
 Where the entries of a directory table are: in the static root directory, or along a
 cluster chain. All on values.
 */
module DirTable {
  import opened Bits
  import opened Layout
  import opened Chains
  import opened FileImage
  import opened Lfn
  import opened DirScan
  import opened DirNames

  const DIRE: nat := 32                 // SZ_DIRE
  const PER_SECTOR: nat := 16           // SS(fs) / SZ_DIRE
  const MAX_INDEX: nat := 0x1_0000      // an index is a WORD

  lemma TableSizes()
    ensures DIRE == 32 && PER_SECTOR == 16 && MAX_INDEX == 0x1_0000
  {
  }

  /** Entries per cluster. */
  function PerCluster(g: Geometry): nat { PER_SECTOR * g.csize }

  /** The number of entries of a table with the clusters `xs`; none: the static root. */
  function TableSize(g: Geometry, xs: seq<nat>): nat {
    if xs == [] then g.nRootdir else PerCluster(g) * |xs|
  }

  /** The sector and the cluster of entry `k`; the cluster is 0 in the static root. */
  function EntrySector(g: Geometry, xs: seq<nat>, k: nat): nat {
    if xs == [] then g.dirbase + k / PER_SECTOR else SectorAt(g, xs, k / PER_SECTOR)
  }

  function EntryCluster(g: Geometry, xs: seq<nat>, k: nat): nat {
    if InChain(g, xs, k / PER_SECTOR) then xs[Idx(g, k / PER_SECTOR)] else 0
  }

  function EntryOffset(k: nat): (r: nat)
    ensures r + DIRE <= SS
  {
    k % PER_SECTOR * DIRE
  }

  /** A table on a disk of `size` sectors. */
  ghost predicate GoodTable(g: Geometry, F: FatSeq, xs: seq<nat>, size: nat) {
    && GoodChain(g, F, xs, size) && g.fatbase + FatSectors(g) <= g.database <= size
    && (xs == [] ==>
         && g.fsType != Fat32 && g.nRootdir > 0 && g.nRootdir % PER_SECTOR == 0
         && g.fatbase + FatSectors(g) <= g.dirbase && g.dirbase + g.nRootdir / PER_SECTOR <= g.database)
  }

  /** The number of entries that can be reached: an index is a `WORD`. */
  function Reach(g: Geometry, xs: seq<nat>): (r: nat)
    ensures r == if TableSize(g, xs) < MAX_INDEX then TableSize(g, xs) else MAX_INDEX
  {
    if TableSize(g, xs) < MAX_INDEX then TableSize(g, xs) else MAX_INDEX
  }

  // ---- positions ----

  lemma ClusterOfEntry(g: Geometry, j: nat, r: nat)
    requires g.csize >= 1 && r < PerCluster(g)
    ensures var k := PerCluster(g) * j + r;
      && Idx(g, k / PER_SECTOR) == j && Off(g, k / PER_SECTOR) == r / PER_SECTOR && k % PER_SECTOR == r % PER_SECTOR
  {
    var k := PerCluster(g) * j + r;
    MulAssoc(16, g.csize, j);
    DivMod(r, 16);
    MulDistributes(16, g.csize * j, r / 16);
    ModUnique(k, 16, g.csize * j + r / 16, r % 16);
    assert r / 16 < g.csize;
    ModUnique(k / 16, g.csize, j, r / 16);
  }

  /** The entries of a chained table are those whose sector is in the chain. */
  lemma InTable(g: Geometry, xs: seq<nat>, k: nat)
    requires g.csize >= 1 && xs != []
    ensures k < TableSize(g, xs) <==> InChain(g, xs, k / PER_SECTOR)
  {
    var c := PerCluster(g);
    DivMod(k, c);
    ClusterOfEntry(g, k / c, k % c);
    hide Idx, PerCluster;
    if k < c * |xs| {
      ProductLess(c, k / c, |xs|, k);
    } else {
      ProductLeast(c, k / c, |xs|, k);
    }
  }

  lemma ProductLess(c: nat, q: nat, n: nat, k: nat)
    requires c * q <= k < c * n
    ensures q < n
  {
    if q >= n {
      MulMonotonic(c, n, q);
    }
  }

  lemma ProductLeast(c: nat, q: nat, n: nat, k: nat)
    requires c * n <= k < c * q + c
    ensures q >= n
  {
    MulDistributes(c, q, 1);
    if q < n {
      MulMonotonic(c, q + 1, n);
    }
  }

  /** The entry sectors: in the data area or the static root, away from the FAT. */
  lemma EntryInDisk(g: Geometry, F: FatSeq, xs: seq<nat>, size: nat, k: nat)
    requires GoodTable(g, F, xs, size) && k < TableSize(g, xs)
    ensures g.fatbase + FatSectors(g) <= EntrySector(g, xs, k) < size
    ensures !InFat(g, EntrySector(g, xs, k)) && !InMirror(g, EntrySector(g, xs, k))
  {
    if xs != [] {
      InTable(g, xs, k);
      SectorOwner(g, F, xs, size, k / PER_SECTOR);
      hide SectorAt, DataFits, IsChain;
    } else {
      StaticSector(g.nRootdir, k);
    }
  }

  lemma StaticSector(n: nat, k: nat)
    requires n % PER_SECTOR == 0 && k < n
    ensures k / PER_SECTOR < n / PER_SECTOR
  {
  }

  /** Different entries are in different places. */
  lemma EntriesApart(g: Geometry, F: FatSeq, xs: seq<nat>, size: nat, k: nat, l: nat)
    requires GoodTable(g, F, xs, size) && k < TableSize(g, xs) && l < TableSize(g, xs) && k != l
    ensures EntrySector(g, xs, k) != EntrySector(g, xs, l) || EntryOffset(k) + DIRE <= EntryOffset(l)
      || EntryOffset(l) + DIRE <= EntryOffset(k)
  {
    if EntrySector(g, xs, k) == EntrySector(g, xs, l) {
      if xs != [] {
        InTable(g, xs, k);
        InTable(g, xs, l);
        SectorInjective(g, F, xs, size, k / PER_SECTOR, l / PER_SECTOR);
      }
      assert k / PER_SECTOR == l / PER_SECTOR;
      hide EntrySector, GoodTable;
    }
  }

  // ---- the entries ----

  function EntryIn(s: Sector, o: nat): DirEntry
    requires o + DIRE <= SS
  {
    s[o..o + DIRE]
  }

  ghost function EntryAt(img: Image, g: Geometry, xs: seq<nat>, k: nat): DirEntry {
    if EntrySector(g, xs, k) < |img| then EntryIn(img[EntrySector(g, xs, k)], EntryOffset(k))
    else seq<Byte>(32, i => 0)
  }

  /** The table: its entries in order. */
  ghost function Entries(img: Image, g: Geometry, xs: seq<nat>): (r: seq<DirEntry>)
    ensures |r| == Reach(g, xs)
  {
    seq<DirEntry>(Reach(g, xs), k requires 0 <= k < Reach(g, xs) => EntryAt(img, g, xs, k))
  }

  lemma EntryOf(img: Image, g: Geometry, xs: seq<nat>, k: nat)
    requires k < Reach(g, xs) && EntrySector(g, xs, k) < |img|
    ensures Entries(img, g, xs)[k] == EntryIn(img[EntrySector(g, xs, k)], EntryOffset(k))
  {
  }

  /** The sector `s` with the entry at offset `o` replaced. */
  function PutEntry(s: Sector, o: nat, e: DirEntry): Sector
    requires o + DIRE <= SS
  {
    s[..o] + e + s[o + DIRE..]
  }

  /** Replacing entry `k` on the disk replaces it in the table. */
  lemma EntryReplaced(img: Image, g: Geometry, F: FatSeq, xs: seq<nat>, k: nat, e: DirEntry)
    requires GoodTable(g, F, xs, |img|) && k < Reach(g, xs)
    ensures EntrySector(g, xs, k) < |img|
    ensures var s := EntrySector(g, xs, k);
      Entries(img[s := PutEntry(img[s], EntryOffset(k), e)], g, xs) == Entries(img, g, xs)[k := e]
  {
    hide *;
    ReachIs(g, xs);
    EntryInDisk(g, F, xs, |img|, k);
    var s := EntrySector(g, xs, k);
    var after := img[s := PutEntry(img[s], EntryOffset(k), e)];
    forall l | 0 <= l < Reach(g, xs)
      ensures Entries(after, g, xs)[l] == Entries(img, g, xs)[k := e][l]
    {
      EntryInDisk(g, F, xs, |img|, l);
      EntryOf(after, g, xs, l);
      EntryOf(img, g, xs, l);
      if l != k {
        EntriesApart(g, F, xs, |img|, k, l);
      }
      PutThere(img[s], EntryOffset(k), e, EntryOffset(l));
    }
  }

  lemma PutThere(s: Sector, o: nat, e: DirEntry, q: nat)
    requires o + DIRE <= SS && q + DIRE <= SS
    ensures q == o ==> EntryIn(PutEntry(s, o, e), q) == e
    ensures o + DIRE <= q || q + DIRE <= o ==> EntryIn(PutEntry(s, o, e), q) == EntryIn(s, q)
  {
  }

  lemma NotEmpty(g: Geometry, F: FatSeq, xs: seq<nat>, size: nat)
    requires GoodTable(g, F, xs, size)
    ensures TableSize(g, xs) >= 1
  {
    if xs != [] {
      MulMonotonic(PerCluster(g), 1, |xs|);
    }
  }

  /** Replacing an entry is a change of the table only. */
  lemma PutInTable(img: Image, g: Geometry, F: FatSeq, xs: seq<nat>, k: nat, s: Sector)
    requires GoodTable(g, F, xs, |img|) && k < TableSize(g, xs)
    ensures EntrySector(g, xs, k) < |img|
    ensures SameOutsideTable(g, xs, img, img[EntrySector(g, xs, k) := s])
  {
    EntryInDisk(g, F, xs, |img|, k);
    if xs == [] {
      StaticSector(g.nRootdir, k);
    } else {
      InTable(g, xs, k);
      SectorOwner(g, F, xs, |img|, k / PER_SECTOR);
    }
  }

  // ---- dir_sdi ----

  /** `sclust` stands for the table with the clusters `xs`; 0 is the root directory. */
  ghost predicate StartsAt(g: Geometry, sclust: nat, xs: seq<nat>) {
    var start := if sclust == 0 && g.fsType == Fat32 then g.dirbase else sclust;
    sclust != 1 && sclust < g.nFatent && (if start == 0 then xs == [] else xs != [] && xs[0] == start)
  }

  lemma StartFacts(g: Geometry, sclust: nat, xs: seq<nat>)
    requires StartsAt(g, sclust, xs)
    ensures var start := if sclust == 0 && g.fsType == Fat32 then g.dirbase else sclust;
      sclust != 1 && sclust < g.nFatent && (if start == 0 then xs == [] else xs != [] && xs[0] == start)
  {
  }

  lemma PerClusterIs(g: Geometry)
    ensures PerCluster(g) == PER_SECTOR * g.csize
  {
  }

  lemma ReachIs(g: Geometry, xs: seq<nat>)
    ensures Reach(g, xs) == if TableSize(g, xs) < MAX_INDEX then TableSize(g, xs) else MAX_INDEX
  {
  }

  /** `clust2sect` of a cluster of the table. */
  lemma ClusterStart(g: Geometry, F: FatSeq, xs: seq<nat>, size: nat, c: nat)
    requires GoodTable(g, F, xs, size) && 2 <= c < g.nFatent <= 0x0FFF_FFFF
    ensures c < DWORD_SIZE && 2 <= g.nFatent < DWORD_SIZE - 2
    ensures Clust2Sect(g, c) == Base(g, c) >= 1
  {
    ClusterSpan(g, c, 0, size);
  }

  lemma StaticStart(g: Geometry, F: FatSeq, size: nat)
    requires GoodTable(g, F, [], size)
    ensures g.dirbase >= g.fatbase
  {
  }

  /** The walk along the chain has come to cluster `j` with `rest` entries to go. */
  ghost predicate WalkedTo(g: Geometry, xs: seq<nat>, idx: nat, j: nat, clst: nat, rest: nat) {
    j < |xs| && clst == xs[j] && idx == PerCluster(g) * j + rest
  }

  lemma WalkStarts(g: Geometry, xs: seq<nat>, idx: nat)
    requires xs != []
    ensures WalkedTo(g, xs, idx, 0, xs[0], idx)
  {
  }

  lemma WalkGoesOn(g: Geometry, F: FatSeq, xs: seq<nat>, idx: nat, j: nat, clst: nat, rest: nat)
    requires IsChain(F, xs) && WalkedTo(g, xs, idx, j, clst, rest) && rest >= PerCluster(g)
    ensures 2 <= clst < |F|
    ensures if 2 <= F[clst] < |F| then WalkedTo(g, xs, idx, j + 1, F[clst], rest - PerCluster(g))
      else idx >= TableSize(g, xs)
  {
    LinkAt(F, xs, j);
    MulDistributes(PerCluster(g), j, 1);
  }

  lemma WalkEnds(g: Geometry, F: FatSeq, xs: seq<nat>, idx: nat, j: nat, clst: nat, rest: nat)
    requires IsChain(F, xs) && WalkedTo(g, xs, idx, j, clst, rest) && rest < PerCluster(g) && g.csize >= 1
    ensures 2 <= clst < |F| && idx < TableSize(g, xs)
    ensures EntryCluster(g, xs, idx) == clst && EntrySector(g, xs, idx) == Base(g, clst) + rest / PER_SECTOR
    ensures EntryOffset(idx) == rest % PER_SECTOR * DIRE
  {
    ClusterOfEntry(g, j, rest);
    InTable(g, xs, idx);
    hide Base, Idx, Off;
  }

  lemma StaticEntry(g: Geometry, idx: nat)
    ensures EntryCluster(g, [], idx) == 0 && EntrySector(g, [], idx) == g.dirbase + idx / PER_SECTOR
    ensures EntryOffset(idx) == idx % PER_SECTOR * DIRE
    ensures TableSize(g, []) == g.nRootdir
  {
  }

  // ---- dir_next ----

  /** The next entry in the same sector. */
  lemma NextInSector(g: Geometry, xs: seq<nat>, i: nat)
    requires i > 0 && i % PER_SECTOR != 0
    ensures EntrySector(g, xs, i) == EntrySector(g, xs, i - 1) && EntryCluster(g, xs, i) == EntryCluster(g, xs, i - 1)
  {
    assert i / 16 == (i - 1) / 16;
  }

  /** A table ends at the end of a sector. */
  lemma NotLastInSector(g: Geometry, F: FatSeq, xs: seq<nat>, size: nat, i: nat)
    requires GoodTable(g, F, xs, size) && i > 0 && i % PER_SECTOR != 0 && i - 1 < TableSize(g, xs)
    ensures i < TableSize(g, xs)
  {
    if xs == [] {
      MultipleOf16(g.nRootdir / 16, i);
    } else {
      MulAssoc(16, g.csize, |xs|);
      MultipleOf16(g.csize * |xs|, i);
    }
  }

  lemma MultipleOf16(q: nat, i: nat)
    requires i > 0 && i % 16 != 0 && i - 1 < 16 * q
    ensures i < 16 * q
  {
  }

  lemma OffsetIs(k: nat)
    ensures EntryOffset(k) == k % PER_SECTOR * DIRE
  {
  }

  lemma OffsetFits(k: nat)
    ensures EntryOffset(k) + DIRE <= SS
  {
  }

  lemma EntryOfSector(s: Sector, o: nat)
    requires o + DIRE <= SS
    ensures EntryIn(s, o) == s[o..o + DIRE]
  {
  }

  /** A window changed in one entry only. */
  lemma WindowPut(m: Sector, w: Sector, o: nat, e: DirEntry)
    requires o + DIRE <= SS && w[..o] == m[..o] && w[o + DIRE..] == m[o + DIRE..] && e == w[o..o + DIRE]
    ensures w == PutEntry(m, o, e)
  {
  }

  /** `mem_set`, `mem_cpy` and a store make a short-name entry. */
  lemma ShortInWindow(m: Sector, x: Sector, y: Sector, o: nat, fn: seq<Byte>, nt: Byte)
    requires o + DIRE <= SS && |fn| == 11
    requires x == Splice(m, o, seq<Byte>(32, i => 0)) && y == Splice(x, o, fn)
    ensures o + 12 < SS && y[o + 12 := nt] == PutEntry(m, o, ShortEntry(fn, nt))
  {
  }

  lemma WipedInWindow(m: Sector, x: Sector, o: nat) returns (e: DirEntry)
    requires o + DIRE <= SS && x == Splice(m, o, seq<Byte>(32, i => 0))
    ensures IsWiped(e) && x[o := DDEM] == PutEntry(m, o, e)
  {
    e := seq<Byte>(32, i => if i == 0 then DDEM else 0);
  }

  lemma IndexWraps(i: nat)
    requires 0 < i <= MAX_INDEX
    ensures And(i, 0xFFFF) == 0 <==> i == MAX_INDEX
  {
    WordIsPow2();
    hide And, IsPow2;
    MaskIsMod(i, 0x1_0000);
  }

  lemma WordIsPow2()
    ensures IsPow2(0x1_0000)
  {
    assert Pow2(8) == 256;
    Pow2Sum(8, 8);
    assert Pow2(16) == 0x1_0000;
  }

  /** The next entry in the next sector of the same cluster, or of the static root. */
  lemma NextSector(g: Geometry, xs: seq<nat>, i: nat)
    requires g.csize >= 1 && i > 0 && i % PER_SECTOR == 0
    requires xs == [] || (i - 1 < TableSize(g, xs) && Off(g, i / PER_SECTOR) != 0)
    ensures EntrySector(g, xs, i) == EntrySector(g, xs, i - 1) + 1
    ensures EntryCluster(g, xs, i) == EntryCluster(g, xs, i - 1)
    ensures xs != [] ==> i < TableSize(g, xs)
  {
    assert i / 16 == (i - 1) / 16 + 1;
    if xs != [] {
      InTable(g, xs, i - 1);
      InTable(g, xs, i);
      hide Idx, Off;
      IdxPred(g, i / 16);
      StaysInCluster(g, xs, i / 16);
    } else {
      hide Idx;
    }
  }

  lemma StaysInCluster(g: Geometry, xs: seq<nat>, j: nat)
    requires g.csize >= 1 && j > 0 && Off(g, j) != 0 && InChain(g, xs, j - 1)
    ensures InChain(g, xs, j) && SectorAt(g, xs, j) == SectorAt(g, xs, j - 1) + 1
  {
    PredDiv(j, g.csize);
    DivMod(j, g.csize);
    DivMod(j - 1, g.csize);
    hide Base;
  }

  /** The next entry is the first of the next cluster. */
  lemma EntryInNext(g: Geometry, xs: seq<nat>, i: nat)
    requires g.csize >= 1 && xs != [] && i > 0 && i % PER_SECTOR == 0 && Off(g, i / PER_SECTOR) == 0
    requires i - 1 < TableSize(g, xs)
    ensures var m := Idx(g, i / PER_SECTOR);
      && 1 <= m <= |xs| && EntryCluster(g, xs, i - 1) == xs[m - 1]
      && (i < TableSize(g, xs) <==> m < |xs|)
      && (m < |xs| ==> EntryCluster(g, xs, i) == xs[m])
      && (m < |xs| ==> EntrySector(g, xs, i) == Base(g, xs[m]) && EntryOffset(i) == 0)
  {
    assert i / 16 == (i - 1) / 16 + 1;
    InTable(g, xs, i - 1);
    InTable(g, xs, i);
    hide Idx, Off;
    IdxPred(g, i / 16);
  }

  // ---- stretching ----

  function BlankEntry(): DirEntry { seq<Byte>(32, i => 0) }

  /** The `n` sectors from `s` on are zeros, outside the FAT nothing else has changed. */
  ghost predicate Zeroed(g: Geometry, a: Image, b: Image, s: nat, n: nat) {
    && |a| == |b|
    && forall t: nat :: t < |a| && !InFat(g, t) && !InMirror(g, t) ==> b[t] == if s <= t < s + n then ZeroSector()
      else a[t]
  }

  lemma ZeroPart(o: nat)
    requires o + DIRE <= SS
    ensures EntryIn(ZeroSector(), o) == BlankEntry()
  {
  }

  /** The table after a zeroed cluster `c` was added: its entries, then zeros. */
  lemma EntriesStretched(g: Geometry, F: FatSeq, G: FatSeq, xs: seq<nat>, c: nat, a: Image, b: Image)
    requires GoodTable(g, F, xs, |a|) && GoodTable(g, G, xs + [c], |b|) && xs != []
    requires 2 <= c < g.nFatent && Zeroed(g, a, b, Base(g, c), g.csize) && IsChain(G, xs + [c])
    ensures Reach(g, xs) <= Reach(g, xs + [c])
    ensures forall k :: 0 <= k < Reach(g, xs) ==> Entries(b, g, xs + [c])[k] == Entries(a, g, xs)[k]
    ensures forall k :: Reach(g, xs) <= k < Reach(g, xs + [c]) ==> Entries(b, g, xs + [c])[k] == BlankEntry()
  {
    var ys := xs + [c];
    MulDistributes(PerCluster(g), |xs|, 1);
    forall k | 0 <= k < Reach(g, ys)
      ensures Entries(b, g, ys)[k] == if k < Reach(g, xs) then Entries(a, g, xs)[k] else BlankEntry()
    {
      EntryStretched(g, F, G, xs, c, a, b, k);
    }
  }

  lemma EntryStretched(g: Geometry, F: FatSeq, G: FatSeq, xs: seq<nat>, c: nat, a: Image, b: Image, k: nat)
    requires GoodTable(g, F, xs, |a|) && GoodTable(g, G, xs + [c], |b|) && xs != []
    requires 2 <= c < g.nFatent && Zeroed(g, a, b, Base(g, c), g.csize) && IsChain(G, xs + [c])
    requires k < Reach(g, xs + [c])
    ensures k < TableSize(g, xs + [c])
    ensures Entries(b, g, xs + [c])[k] == if k < Reach(g, xs) then Entries(a, g, xs)[k] else BlankEntry()
  {
    var ys, j := xs + [c], k / PER_SECTOR;
    MulDistributes(PerCluster(g), |xs|, 1);
    EntryInDisk(g, G, ys, |b|, k);
    EntryOf(b, g, ys, k);
    InTable(g, xs, k);
    InTable(g, ys, k);
    SectorOwner(g, G, ys, |b|, j);
    NewClusterLast(G, xs, c);
    hide Entries, GoodTable, IsChain, PerCluster, EntryOffset, EntryIn, Owner;
    if k < Reach(g, xs) {
      SectorKept(g, xs, [c], j);
      EntryInDisk(g, F, xs, |a|, k);
      EntryOf(a, g, xs, k);
      NotInCluster(g, |b|, c, SectorAt(g, ys, j));
    } else {
      hide Off;
      OffBound(g, j);
      assert ys[Idx(g, j)] == c;
      ZeroPart(EntryOffset(k));
    }
  }

  lemma NewClusterLast(G: FatSeq, xs: seq<nat>, c: nat)
    requires IsChain(G, xs + [c])
    ensures forall i :: 0 <= i < |xs| ==> xs[i] != c
  {
    AllDistinct(G, xs + [c]);
    assert forall i :: 0 <= i < |xs| ==> (xs + [c])[i] == xs[i];
    assert (xs + [c])[|xs|] == c;
  }

  lemma NotInCluster(g: Geometry, size: nat, c: nat, s: nat)
    requires DataFits(g, size) && 2 <= c < g.nFatent && Owner(g, s) != c
    ensures !(Base(g, c) <= s < Base(g, c) + g.csize)
  {
    if Base(g, c) <= s < Base(g, c) + g.csize {
      ClusterSpan(g, c, s - Base(g, c), size);
    }
  }

  // ---- what a table operation may change ----

  /** Sector `t` belongs to the table. */
  predicate OfTable(g: Geometry, xs: seq<nat>, t: nat) {
    if xs == [] then g.dirbase <= t < g.dirbase + g.nRootdir / PER_SECTOR else t >= g.database && Owner(g, t) in xs
  }

  /** Outside the FAT and the table nothing changes. */
  ghost predicate SameOutsideTable(g: Geometry, xs: seq<nat>, a: Image, b: Image) {
    && |a| == |b|
    && forall t: nat :: t < |a| && !InFat(g, t) && !InMirror(g, t) && !OfTable(g, xs, t) ==> b[t] == a[t]
  }

  lemma SameOutsideTableRefl(g: Geometry, xs: seq<nat>, a: Image)
    ensures SameOutsideTable(g, xs, a, a)
  {
  }

  lemma SameOutsideTableTrans(g: Geometry, xs: seq<nat>, ys: seq<nat>, a: Image, b: Image, c: Image)
    requires SameOutsideTable(g, xs, a, b) && SameOutsideTable(g, ys, b, c) && xs <= ys && (xs == [] <==> ys == [])
    ensures SameOutsideTable(g, ys, a, c)
  {
    assert forall t: nat :: OfTable(g, xs, t) ==> OfTable(g, ys, t);
  }

  /** A changed FAT is no change of the table. */
  lemma EntriesSame(g: Geometry, F: FatSeq, xs: seq<nat>, a: Image, b: Image)
    requires GoodTable(g, F, xs, |a|) && SameOutsideFat(a, b, g)
    ensures Entries(b, g, xs) == Entries(a, g, xs) && SameOutsideTable(g, xs, a, b)
  {
    forall k | 0 <= k < Reach(g, xs)
      ensures Entries(b, g, xs)[k] == Entries(a, g, xs)[k]
    {
      EntryInDisk(g, F, xs, |a|, k);
      hide GoodTable, EntrySector, EntryOffset, EntryIn;
    }
  }

  /** A table grows by blank entries. */
  ghost predicate Extended(es: seq<DirEntry>, fs: seq<DirEntry>) {
    && |es| <= |fs|
    && (forall k :: 0 <= k < |es| ==> fs[k] == es[k])
    && forall k :: |es| <= k < |fs| ==> fs[k] == BlankEntry()
  }

  lemma ExtendedRefl(es: seq<DirEntry>)
    ensures Extended(es, es)
  {
  }

  lemma ExtendedTrans(es: seq<DirEntry>, fs: seq<DirEntry>, gs: seq<DirEntry>)
    requires Extended(es, fs) && Extended(fs, gs)
    ensures Extended(es, gs)
  {
    hide BlankEntry;
  }

  /** The table after a new cluster `c` was zeroed. */
  lemma TableGrown(g: Geometry, F: FatSeq, G: FatSeq, xs: seq<nat>, c: nat, a: Image, b: Image)
    requires GoodTable(g, F, xs, |a|) && xs != [] && |G| == |F| && IsChain(G, xs + [c])
    requires Zeroed(g, a, b, Base(g, c), g.csize)
    ensures GoodTable(g, G, xs + [c], |b|)
    ensures Extended(Entries(a, g, xs), Entries(b, g, xs + [c])) && SameOutsideTable(g, xs + [c], a, b)
  {
    assert (xs + [c])[|xs|] == c;
    EntriesStretched(g, F, G, xs, c, a, b);
    hide Entries, BlankEntry;
    forall t: nat | Base(g, c) <= t < Base(g, c) + g.csize
      ensures OfTable(g, xs + [c], t)
    {
      InZeroed(g, |a|, xs, c, t);
    }
  }

  lemma InZeroed(g: Geometry, size: nat, xs: seq<nat>, c: nat, t: nat)
    requires DataFits(g, size) && 2 <= c < g.nFatent && xs != []
    requires Base(g, c) <= t < Base(g, c) + g.csize
    ensures OfTable(g, xs + [c], t)
  {
    ClusterSpan(g, c, t - Base(g, c), size);
    assert (xs + [c])[|xs|] == c;
  }

  lemma StretchedLast(xs: seq<nat>, c: nat)
    requires xs != []
    ensures Stretched(xs, |xs| - 1, c) == if c == 0 then xs else xs + [c]
  {
  }

  lemma SameSizes(a: Image, b: Image, g: Geometry)
    requires SameOutsideFat(a, b, g)
    ensures |a| == |b|
  {
  }

  lemma ZeroedAfter(g: Geometry, a: Image, m: Image, b: Image, s: nat, n: nat)
    requires SameOutsideFat(a, m, g) && Zeroed(g, m, b, s, n)
    ensures Zeroed(g, a, b, s, n) && |a| == |m| == |b|
  {
  }

  lemma StillStarts(g: Geometry, sclust: nat, xs: seq<nat>, c: nat)
    requires StartsAt(g, sclust, xs) && xs != []
    ensures StartsAt(g, sclust, xs + [c])
  {
  }

  lemma GrownSize(g: Geometry, xs: seq<nat>, c: nat)
    requires xs != []
    ensures TableSize(g, xs + [c]) == TableSize(g, xs) + PerCluster(g) && xs <= xs + [c]
    ensures |xs + [c]| == |xs| + 1 && xs + [c] != []
  {
    MulDistributes(PerCluster(g), |xs|, 1);
  }

  /** The cluster of an entry is 0 exactly in the static root. */
  lemma ClusterOrStatic(g: Geometry, F: FatSeq, xs: seq<nat>, size: nat, k: nat)
    requires GoodTable(g, F, xs, size) && k < TableSize(g, xs)
    ensures EntryCluster(g, xs, k) == 0 <==> xs == []
  {
    if xs != [] {
      InTable(g, xs, k);
      InChainRange(F, xs, Idx(g, k / PER_SECTOR));
    }
  }

  /** The count of free entries goes on when the table was stretched. */
  lemma CountingExtended(es: seq<DirEntry>, fs: seq<DirEntry>, nent: nat, n: nat, i: nat)
    requires Counting(es, nent, n, i) && Extended(es, fs)
    ensures Counting(fs, nent, n, i)
    ensures (forall j: nat :: !FreeRun(es, nent, j)) && |fs| == |es| ==> forall j: nat :: !FreeRun(fs, nent, j)
  {
    hide BlankEntry, IsFree;
    forall j: nat | j < i
      ensures !FreeRun(fs, nent, j)
    {
      FreeRunExtended(es, fs, nent, j);
    }
    assert |fs| == |es| ==> fs == es;
  }

  lemma FreeRunExtended(es: seq<DirEntry>, fs: seq<DirEntry>, n: nat, j: nat)
    requires Extended(es, fs) && j < |es|
    ensures FreeRun(fs, n, j) <==> FreeRun(es, n, j)
  {
    hide BlankEntry, IsFree;
  }

  // ---- zeroing a cluster ----

  ghost predicate ZeroedUpTo(g: Geometry, a: Image, b: Image, s: nat, c: nat) {
    && |a| == |b| && s + c <= |a|
    && forall t: nat :: t < |a| ==> b[t] == if s <= t < s + c then ZeroSector() else a[t]
  }

  lemma NoneZeroed(g: Geometry, a: Image, s: nat)
    requires s <= |a|
    ensures ZeroedUpTo(g, a, a, s, 0)
  {
  }

  lemma ZeroOneMore(g: Geometry, a: Image, m: Image, b: Image, s: nat, c: nat)
    requires ZeroedUpTo(g, a, m, s, c) && s + c < |m| && b == m[s + c := ZeroSector()]
    ensures ZeroedUpTo(g, a, b, s, c + 1)
  {
  }

  lemma FirstZeroed(g: Geometry, a: Image, b: Image, s: nat, c: nat)
    requires ZeroedUpTo(g, a, b, s, c) && c >= 1
    ensures s < |b| && b[s] == ZeroSector()
  {
  }

  lemma AllZeroed(g: Geometry, a: Image, b: Image, s: nat, c: nat)
    requires ZeroedUpTo(g, a, b, s, c)
    ensures Zeroed(g, a, b, s, c)
  {
  }

  lemma ClusterInDisk(g: Geometry, size: nat, c: nat)
    requires Fits(g, size) && 2 <= c < g.nFatent
    ensures g.csize >= 1 && c < DWORD_SIZE && 2 <= g.nFatent < DWORD_SIZE - 2 && size < DWORD_SIZE - 1
    ensures Clust2Sect(g, c) == Base(g, c)
    ensures g.fatbase + FatSectors(g) <= Base(g, c) && Base(g, c) + g.csize <= size
    ensures !InMirror(g, Base(g, c))
  {
    ClusterSpan(g, c, 0, size);
    ClusterSpan(g, c, g.csize - 1, size);
  }

  // ---- stretched tables ----

  lemma TidyExtended(es: seq<DirEntry>, fs: seq<DirEntry>)
    requires Tidy(es) && Extended(es, fs)
    ensures Tidy(fs)
  {
    BlankIsEnd();
    hide BlankEntry;
  }

  lemma BlankIsEnd()
    ensures BlankEntry()[0] == 0 && !IsShort(BlankEntry())
  {
  }

  lemma DistinctExtended(es: seq<DirEntry>, fs: seq<DirEntry>)
    requires DistinctNames(es) && Extended(es, fs)
    ensures DistinctNames(fs)
  {
    BlankIsEnd();
    hide BlankEntry, IsShort;
  }

  /** A name that is not in a table is not in the stretched table. */
  lemma {:induction false} FindExtended(up: Upper, q: Query, es: seq<DirEntry>, fs: seq<DirEntry>, i: nat, st: State)
    requires GoodQuery(q) && Extended(es, fs) && i <= |es| && FindFrom(up, q, es, i, st) == NoFile
    ensures FindFrom(up, q, fs, i, st) == NoFile
    decreases |es| - i
  {
    BlankIsEnd();
    hide BlankEntry;
    if i == |es| {
      EndFound(up, q, fs, i, st);
    } else {
      hide Look;
      FindOnce(up, q, es, i, st);
      FindOnce(up, q, fs, i, st);
      if Look(up, q, es[i], i, st).Go? {
        FindExtended(up, q, es, fs, i + 1, Look(up, q, es[i], i, st).st);
      }
    }
  }

  lemma StillNotThere(up: Upper, q: Query, es: seq<DirEntry>, fs: seq<DirEntry>)
    requires GoodQuery(q) && Extended(es, fs) && Find(up, q, es) == NoFile
    ensures Find(up, q, fs) == NoFile
  {
    StartFind(up, q, es);
    StartFind(up, q, fs);
    FindExtended(up, q, es, fs, 0, START);
  }

  /** After a successful registration of a name that was not there. */
  lemma CreateDone(up: Upper, q: Query, T0: seq<DirEntry>, es: seq<DirEntry>, fs: seq<DirEntry>, lfn: seq<Wchar>,
                   n: nat,
                   fn: seq<Byte>, nt: Byte, nent: nat, j: nat, long: bool)
    requires UpperOk(up) && GoodQuery(q) && q.hasLfn && q.lfn == lfn && Holds(lfn, n) && 1 <= n && (q.loss ==> long)
    requires Tidy(T0) && DistinctNames(T0) && Extended(T0, es) && Find(up, q, T0) == NoFile
    requires FirstRun(es, nent, j) && Registered(es, fs, lfn, n, fn, nt, nent, j) && fn[0] != 0 && fn[0] != DDEM
    requires nent == if long then Fragments(n) + 1 else 1
    requires if q.loss then NotThere(up, fn, lfn, T0) else fn == q.fn
    ensures Tidy(fs) && DistinctNames(fs) && |fs| == |es|
    ensures forall k :: 0 <= k < |es| && !IsFree(es[k]) ==> fs[k] == es[k]
    ensures (long ==> n <= 254) ==> Named(up, q, fs, j)
  {
    hide Find, Look, IsFragment, BlankEntry, Holds, SameName, UpperOk, Named, NotThere;
    TidyExtended(T0, es);
    DistinctExtended(T0, es);
    StillNotThere(up, q, T0, es);
    TidyAfter(es, fs, lfn, n, fn, nt, nent, j);
    if q.loss {
      NotThereIf(up, fn, lfn, T0);
      StillNotThere(up, Query(false, lfn, fn, false), T0, es);
      DistinctAfter(up, Query(false, lfn, fn, false), es, fs, lfn, n, nt, nent, j);
    } else {
      DistinctAfter(up, q, es, fs, lfn, n, nt, nent, j);
    }
    if long ==> n <= 254 {
      if long {
        SameNameRefl(up, lfn, n);
        FragmentCount(n);
        assert Wanted(up, q, lfn, n);
      }
      var start := RegisterFind(up, q, es, fs, lfn, n, fn, nt, nent, j);
      NamedIf(up, q, fs, j);
    }
  }

  lemma SameNameRefl(up: Upper, lfn: seq<Wchar>, n: nat)
    requires Holds(lfn, n)
    ensures SameName(up, lfn, n, lfn, n)
  {
  }

  /** Entry `k` of a table by the bytes of the drive: entry `k % 16` of the sector `k / 16` of the static
      root, or of the chain. */
  lemma EntryBytes(img: Image, g: Geometry, F: FatSeq, xs: seq<nat>, k: nat, s: nat)
    requires GoodTable(g, F, xs, |img|) && k < Reach(g, xs)
    requires xs == [] ==> s == g.dirbase + k / 16
    requires xs != [] ==> Lies(g, xs, k / 16, s)
    ensures s < |img| && Entries(img, g, xs)[k] == img[s][32 * (k % 16)..32 * (k % 16) + 32]
  {
    hide *;
    TableSizes();
    ReachIs(g, xs);
    EntryPlace(g, xs, k);
    EntryInDisk(g, F, xs, |img|, k);
    EntryOf(img, g, xs, k);
    EntryInIs(img[EntrySector(g, xs, k)], EntryOffset(k));
    if xs != [] {
      GoodTableFacts(g, F, xs, |img|);
      InTable(g, xs, k);
      SectorNumber(g, F, xs, |img|, k / 16);
      ClusterNumber(g, xs, k / 16, s);
    }
  }

  /** Sector `s` is sector `j % csize` of cluster `j / csize` of the chain. */
  predicate Lies(g: Geometry, xs: seq<nat>, j: nat, s: nat) {
    && g.csize >= 1 && j / g.csize < |xs| && xs[j / g.csize] >= 2
    && s == g.database + (xs[j / g.csize] - 2) * g.csize + j % g.csize
  }

  lemma ClusterNumber(g: Geometry, xs: seq<nat>, j: nat, s: nat)
    requires Lies(g, xs, j, s)
    ensures g.csize >= 1 && j / g.csize < |xs| && s == g.database + (xs[j / g.csize] - 2) * g.csize + j % g.csize
  {
  }

  lemma EntryPlace(g: Geometry, xs: seq<nat>, k: nat)
    ensures EntryOffset(k) == 32 * (k % 16)
    ensures EntrySector(g, xs, k) == if xs == [] then g.dirbase + k / 16 else SectorAt(g, xs, k / 16)
  {
    hide SectorAt;
  }

  lemma EntryInIs(s: Sector, o: nat)
    requires o + DIRE <= SS
    ensures o + 32 <= |s| && EntryIn(s, o) == s[o..o + 32]
  {
  }

  lemma GoodTableFacts(g: Geometry, F: FatSeq, xs: seq<nat>, size: nat)
    requires GoodTable(g, F, xs, size)
    ensures GoodChain(g, F, xs, size) && g.csize >= 1
  {
    hide DataFits, IsChain;
  }
}
