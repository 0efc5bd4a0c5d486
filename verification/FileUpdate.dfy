/**
 How the bytes of a file and the FAT change when the file is written, stretched
 or cut. All on values.
 */
module FileUpdate {
  import opened Bits
  import opened Layout
  import opened Chains
  import opened FileImage

  function Max(a: nat, b: nat): (r: nat)
    ensures r == if a < b then b else a
  {
    if a < b then b else a
  }

  // ---- byte sequences ----

  /** `a` with `d` written over it from `f` on; grows at the end. */
  function Overwrite(a: seq<Byte>, f: nat, d: seq<Byte>): (r: seq<Byte>)
    requires f <= |a|
    ensures |r| == Max(|a|, f + |d|)
  {
    a[..f] + d + (if f + |d| < |a| then a[f + |d|..] else [])
  }

  lemma OverwriteAt(a: seq<Byte>, f: nat, d: seq<Byte>, i: nat)
    requires f <= |a| && i < Max(|a|, f + |d|)
    ensures Overwrite(a, f, d)[i] == if f <= i < f + |d| then d[i - f] else a[i]
  {
  }

  lemma OverwriteNothing(a: seq<Byte>, f: nat)
    requires f <= |a|
    ensures Overwrite(a, f, []) == a
  {
  }

  /** Writing in two pieces. */
  lemma OverwriteTwice(a: seq<Byte>, f: nat, d: seq<Byte>, e: seq<Byte>)
    requires f <= |a|
    ensures f + |d| <= |Overwrite(a, f, d)|
    ensures Overwrite(Overwrite(a, f, d), f + |d|, e) == Overwrite(a, f, d + e)
  {
    var l, r := Overwrite(Overwrite(a, f, d), f + |d|, e), Overwrite(a, f, d + e);
    forall i: nat | i < |l|
      ensures l[i] == r[i]
    {
      OverwriteAt(Overwrite(a, f, d), f + |d|, e, i);
      OverwriteAt(a, f, d + e, i);
      if i < Max(|a|, f + |d|) {
        OverwriteAt(a, f, d, i);
      }
    }
  }

  // ---- stretching the chain ----

  /** The file keeps its bytes; its chain may have been stretched. */
  ghost predicate Grown(v: FileView, w: FileView) {
    SameSectors(v, w) && SameOutsideFile(v, w) && w.g == v.g && v.chain <= w.chain
  }

  lemma SameIsGrown(v: FileView, w: FileView)
    requires SameFile(v, w)
    ensures Grown(v, w) && w.chain == v.chain
  {
  }

  lemma GrownTrans(u: FileView, v: FileView, w: FileView)
    requires Grown(u, v) && Grown(v, w)
    ensures Grown(u, w)
  {
    SameSectorsTrans(u, v, w);
    SameOutsideFileTrans(u, v, w);
  }

  lemma GrownBytes(v: FileView, w: FileView, size: nat)
    requires v.g.csize >= 1 && Grown(v, w) && CoversSize(v.g, v.chain, size)
    ensures BytesFrom(w, 0, size) == BytesFrom(v, 0, size)
  {
    SameBytes(v, w, size, 0, size);
  }

  /** The file keeps its bytes, and the FAT changes only where the chain takes in free clusters. */
  ghost predicate Growth(v: FileView, F: FatSeq, w: FileView, G: FatSeq) {
    Grown(v, w) && FatGrown(F, G, v.chain, w.chain)
  }

  lemma GrowthRefl(v: FileView, F: FatSeq)
    ensures Growth(v, F, v, F)
  {
    SameFileRefl(v);
    FatGrownRefl(F, v.chain);
  }

  lemma GrowthTrans(u: FileView, F: FatSeq, v: FileView, G: FatSeq, w: FileView, H: FatSeq)
    requires Growth(u, F, v, G) && Growth(v, G, w, H)
    ensures Growth(u, F, w, H)
  {
    GrownTrans(u, v, w);
    FatGrownTrans(F, G, H, u.chain, v.chain, w.chain);
  }

  lemma SameIsGrowth(v: FileView, w: FileView, F: FatSeq)
    requires SameFile(v, w)
    ensures Growth(v, F, w, F) && w.chain == v.chain
  {
    FatGrownRefl(F, v.chain);
  }

  lemma GrowthFacts(v: FileView, F: FatSeq, w: FileView, G: FatSeq)
    requires Growth(v, F, w, G)
    ensures w.g == v.g && v.chain <= w.chain
  {
  }

  /** Stretching the chain keeps the file. */
  lemma StretchOk(v: FileView, w: FileView, F: FatSeq, G: FatSeq, ws: nat, wt: nat, sclust: nat, start: nat,
                  more: seq<nat>)
    requires FileOk(v, F, ws, sclust, true) && v.g.fatbase + FatSectors(v.g) <= v.g.database
    requires SameOutsideFat(v.img, w.img, v.g) && w == v.(img := w.img, chain := v.chain + more)
    requires |G| == |F| && (w.chain != [] ==> IsChain(G, w.chain))
    requires wt == ws || InFat(v.g, wt)
    requires G != F ==> InFat(v.g, wt)
    requires more != [] ==> G != F
    requires if start == 0 then w.chain == [] else w.chain != [] && w.chain[0] == start
    ensures FileOk(w, G, wt, start, true) && Grown(v, w)
  {
    StretchKeeps(v, w, F, more);
    if InFat(v.g, wt) {
      AwayFromFat(w, G, wt);
    }
  }

  lemma FirstOf(v: FileView, F: FatSeq, ws: nat, sclust: nat, exact: bool)
    requires FileOk(v, F, ws, sclust, exact)
    ensures if sclust == 0 then v.chain == [] else v.chain != [] && v.chain[0] == sclust >= 2
    ensures v.chain != [] ==> IsChain(F, v.chain)
  {
  }

  /** The file after `create_chain` gave its first cluster, or none. */
  lemma StartOk(v: FileView, w: FileView, F: FatSeq, G: FatSeq, ws: nat, wt: nat, eoc: nat, hint: nat, ncl: nat)
    requires FileOk(v, F, ws, 0, true) && v.g.fatbase + FatSectors(v.g) <= v.g.database
    requires NoOnes(F) && 2 <= |F| <= eoc && CreateOutcome(F, G, 0, hint, ncl, eoc)
    requires SameOutsideFat(v.img, w.img, v.g) && (wt == ws || InFat(v.g, wt)) && (G != F ==> InFat(v.g, wt))
    requires w == v.(img := w.img, chain := if ncl == 0 then [] else [ncl])
    ensures FileOk(w, G, wt, ncl, true) && Growth(v, F, w, G) && NoOnes(G)
    ensures if ncl == 0 then NoneFree(G) && w.chain == [] else ncl >= 2 && w.chain == [ncl]
  {
    StartChain(F, G, hint, ncl, eoc);
    FatGrownRefl(F, []);
    hide IsChain, NoOnes, FatGrown, CreateOutcome, SameOutsideFat, FatSectors;
    StretchOk(v, w, F, G, ws, wt, 0, ncl, if ncl == 0 then [] else [ncl]);
  }

  /** The file after `create_chain` on its cluster `k` gave `ncl`. */
  lemma NextOk(v: FileView, w: FileView, F: FatSeq, G: FatSeq, ws: nat, wt: nat, sclust: nat, eoc: nat, hint: nat,
               k: nat, ncl: nat)
    requires FileOk(v, F, ws, sclust, true) && v.g.fatbase + FatSectors(v.g) <= v.g.database
    requires NoOnes(F) && 2 <= |F| <= eoc && k < |v.chain| && CreateOutcome(F, G, v.chain[k], hint, ncl, eoc)
    requires SameOutsideFat(v.img, w.img, v.g) && (wt == ws || InFat(v.g, wt)) && (G != F ==> InFat(v.g, wt))
    requires w == v.(img := w.img, chain := Stretched(v.chain, k, ncl))
    ensures FileOk(w, G, wt, sclust, true) && Growth(v, F, w, G) && NoOnes(G)
    ensures if ncl == 0 then k + 1 == |w.chain| && NoneFree(G) else k + 1 < |w.chain| && ncl == w.chain[k + 1] >= 2
  {
    FirstOf(v, F, ws, sclust, true);
    StretchChain(F, G, v.chain, k, hint, ncl, eoc);
    hide IsChain, NoOnes, FatGrown, CreateOutcome, SameOutsideFat, FatSectors;
    StretchOk(v, w, F, G, ws, wt, sclust, sclust, if k + 1 < |v.chain| || ncl == 0 then [] else [ncl]);
  }

  lemma GrowthBytes(v: FileView, F: FatSeq, w: FileView, G: FatSeq, size: nat)
    requires v.g.csize >= 1 && Growth(v, F, w, G) && CoversSize(v.g, v.chain, size)
    ensures BytesFrom(w, 0, size) == BytesFrom(v, 0, size)
  {
    GrownBytes(v, w, size);
  }

  lemma BytesPrefix(w: FileView, size: nat, more: nat)
    requires size <= more
    ensures BytesFrom(w, 0, more)[..size] == BytesFrom(w, 0, size)
  {
  }

  lemma CursorAtStart(v: FileView, size: nat, clust: nat)
    requires CoversSize(v.g, v.chain, size) && size < DWORD_SIZE
    ensures CursorOk(v, size, 0, clust)
  {
  }

  lemma NoChainNoBytes(v: FileView, size: nat)
    requires CoversSize(v.g, v.chain, size) && v.chain == []
    ensures size == 0
  {
  }

  lemma BufferIs(v: FileView, j: nat)
    requires Buffers(v, j)
    ensures v.dsect == SectorAt(v.g, v.chain, j)
  {
  }

  // ---- writing ----

  /** From `v` to `w` the file of `size` bytes has `d` written over it from `f` on, and nothing
      else changes: not another file's sector, nor a FAT entry that was in use elsewhere. */
  ghost predicate Update(v: FileView, F: FatSeq, w: FileView, G: FatSeq, size: nat, f: nat, d: seq<Byte>)
    requires f <= size
  {
    && w.g == v.g && v.chain <= w.chain && SameOutsideFile(v, w)
    && FatGrown(F, G, v.chain, w.chain)
    && BytesFrom(w, 0, Max(size, f + |d|)) == Overwrite(BytesFrom(v, 0, size), f, d)
  }

  lemma UpdateFacts(v: FileView, F: FatSeq, w: FileView, G: FatSeq, size: nat, f: nat, d: seq<Byte>)
    requires f <= size && Update(v, F, w, G, size, f, d)
    ensures w.g == v.g && v.chain <= w.chain && SameOutsideFile(v, w)
    ensures FatGrown(F, G, v.chain, w.chain)
    ensures BytesFrom(w, 0, Max(size, f + |d|)) == Overwrite(BytesFrom(v, 0, size), f, d)
  {
  }

  lemma NoUpdate(v: FileView, F: FatSeq, w: FileView, G: FatSeq, size: nat, f: nat)
    requires f <= size && v.g.csize >= 1 && Growth(v, F, w, G) && CoversSize(v.g, v.chain, size)
    ensures Update(v, F, w, G, size, f, [])
  {
    GrownBytes(v, w, size);
    OverwriteNothing(BytesFrom(v, 0, size), f);
  }

  lemma UpdateAfterGrowth(u: FileView, F: FatSeq, v: FileView, G: FatSeq, w: FileView, H: FatSeq,
                          size: nat, f: nat, d: seq<Byte>)
    requires f <= size && u.g.csize >= 1 && CoversSize(u.g, u.chain, size)
    requires Growth(u, F, v, G) && Update(v, G, w, H, size, f, d)
    ensures Update(u, F, w, H, size, f, d)
  {
    GrownBytes(u, v, size);
    SameOutsideFileTrans(u, v, w);
    FatGrownTrans(F, G, H, u.chain, v.chain, w.chain);
  }

  lemma UpdateTwice(u: FileView, F: FatSeq, v: FileView, G: FatSeq, w: FileView, H: FatSeq,
                    size: nat, f: nat, d: seq<Byte>, e: seq<Byte>)
    requires f <= size && Update(u, F, v, G, size, f, d)
    requires Update(v, G, w, H, Max(size, f + |d|), f + |d|, e)
    ensures Update(u, F, w, H, size, f, d + e)
  {
    SameOutsideFileTrans(u, v, w);
    FatGrownTrans(F, G, H, u.chain, v.chain, w.chain);
    OverwriteTwice(BytesFrom(u, 0, size), f, d, e);
  }

  /** Bytes that change one by one. */
  lemma BytesOverwritten(v: FileView, w: FileView, size: nat, f: nat, d: seq<Byte>)
    requires f <= size
    requires forall p: nat :: p < Max(size, f + |d|) ==>
      ByteAt(w, p) == if f <= p < f + |d| then d[p - f] else ByteAt(v, p)
    ensures BytesFrom(w, 0, Max(size, f + |d|)) == Overwrite(BytesFrom(v, 0, size), f, d)
  {
    hide ByteAt;
    var l, r := BytesFrom(w, 0, Max(size, f + |d|)), Overwrite(BytesFrom(v, 0, size), f, d);
    forall p: nat | p < |l|
      ensures l[p] == r[p]
    {
      OverwriteAt(BytesFrom(v, 0, size), f, d, p);
      ByteOf(w, 0, |l|, p);
      if p < size {
        ByteOf(v, 0, size, p);
      }
    }
  }

  /** Positions in a run of whole sectors. */
  lemma RunPos(f: nat, n: nat, p: nat)
    requires Rem(f) == 0
    ensures f <= p < f + SS * n <==> Sec(f) <= Sec(p) < Sec(f) + n
    ensures f <= p ==> Sec(p) - Sec(f) == (p - f) / SS && Rem(p) == (p - f) % SS
  {
    if f <= p {
      AlignedSec(f, p - f);
    }
  }

  /** Positions in a part of one sector. */
  lemma PartPos(f: nat, n: nat, p: nat)
    requires Rem(f) + n <= SS
    ensures Sec(p) == Sec(f) ==> p - f == Rem(p) - Rem(f)
    ensures Sec(p) != Sec(f) ==> !(f <= p < f + n)
  {
  }

  /** A direct transfer overwrites the bytes of its sectors. */
  lemma DirectUpdate(v: FileView, w: FileView, F: FatSeq, size: nat, f: nat, n: nat, d: seq<Byte>)
    requires v.g.csize >= 1 && f <= size && CoversSize(v.g, v.chain, size)
    requires Rem(f) == 0 && |d| == SS * n && w.g == v.g && w.chain == v.chain && SameOutsideFile(v, w)
    requires forall k: nat :: Sec(f) <= k < Sec(f) + n ==> FileSector(w, k) == Chunk(d, k - Sec(f))
    requires forall k: nat :: InChain(v.g, v.chain, k) && !(Sec(f) <= k < Sec(f) + n) ==>
      FileSector(w, k) == FileSector(v, k)
    ensures Update(v, F, w, F, size, f, d)
  {
    forall p: nat | p < Max(size, f + |d|)
      ensures ByteAt(w, p) == if f <= p < f + |d| then d[p - f] else ByteAt(v, p)
    {
      RunPos(f, n, p);
      if p < size {
        CoveredBelow(v.g, v.chain, size, p);
      }
      hide Sec, Rem, InChain, FileSector, Covered;
      if f <= p < f + |d| {
        DivMod(p - f, SS);
        ChunkAt(d, n, (p - f) / SS, (p - f) % SS);
      }
    }
    BytesOverwritten(v, w, size, f, d);
    FatGrownRefl(F, v.chain);
  }

  lemma WholeSectors(n: nat)
    ensures SS * (n / SS) <= n
  {
  }

  lemma ChunkAt(d: seq<Byte>, n: nat, i: nat, r: nat)
    requires |d| == SS * n && i < n && r < SS
    ensures SS * i + r < |d| && Chunk(d, i)[r] == d[SS * i + r]
  {
  }

  /** Patching the buffer overwrites a part of its sector. */
  lemma PartUpdate(v: FileView, w: FileView, F: FatSeq, size: nat, f: nat, d: seq<Byte>)
    requires GoodView(v, F) && f <= size && CoversSize(v.g, v.chain, size)
    requires Covered(v.g, v.chain, f) && v.dsect == SectorAt(v.g, v.chain, Sec(f)) && Rem(f) + |d| <= SS
    requires (Rem(f) == 0 && f == size) || FileSector(v, Sec(f)) == v.b
    requires w == v.(b := Patch(v.b, Rem(f), d), dirty := true)
    ensures Update(v, F, w, F, size, f, d)
  {
    BufferedWrite(v, w, F, Sec(f), Rem(f), d);
    SameImageOutside(v, w);
    FatGrownRefl(F, v.chain);
    forall p: nat | p < Max(size, f + |d|)
      ensures ByteAt(w, p) == if f <= p < f + |d| then d[p - f] else ByteAt(v, p)
    {
      PartPos(f, |d|, p);
      if p < size {
        CoveredBelow(v.g, v.chain, size, p);
      }
      hide Sec, InChain, FileSector, GoodView, SectorAt;
    }
    BytesOverwritten(v, w, size, f, d);
  }

  /** The file after a direct transfer, its clean buffer refilled from the data. */
  lemma DirectOk(v: FileView, w: FileView, F: FatSeq, ws: nat, sclust: nat, j: nat, cc: nat, data: seq<Byte>)
    requires FileOk(v, F, ws, sclust, true) && !v.dirty && InChain(v.g, v.chain, j)
    requires cc >= 1 && Off(v.g, j) + cc <= v.g.csize
    requires SectorsWritten(v.img, w.img, SectorAt(v.g, v.chain, j), cc, data)
    requires w == v.(img := w.img, b := w.b)
    requires w.b == var s := SectorAt(v.g, v.chain, j); if s <= v.dsect < s + cc then Chunk(data, v.dsect - s) else v.b
    ensures FileOk(w, F, ws, sclust, true) && SameOutsideFile(v, w)
  {
    var s := SectorAt(v.g, v.chain, j);
    forall t: nat | s <= t < s + cc
      ensures Owner(v.g, t) in v.chain
    {
      hide SectorAt, Idx, Off, Owner;
      SectorRun(v.g, v.chain, j, t - s);
      SectorOwner(v.g, F, v.chain, |v.img|, j + (t - s));
    }
    hide SectorAt, Idx, Off, Owner, IsChain, DataFits, Chunk;
  }

  /** The file after patching the buffer of its sector `j`. */
  lemma PartOk(v: FileView, w: FileView, F: FatSeq, ws: nat, sclust: nat, j: nat)
    requires FileOk(v, F, ws, sclust, false) && InChain(v.g, v.chain, j) && v.dsect == SectorAt(v.g, v.chain, j)
    requires w == v.(b := w.b, dirty := true)
    ensures FileOk(w, F, ws, sclust, true)
  {
    SectorOwner(v.g, F, v.chain, |v.img|, j);
  }

  /** The clean buffer is given to sector `j` without loading it. */
  lemma RetargetOk(v: FileView, w: FileView, F: FatSeq, ws: nat, sclust: nat, j: nat)
    requires FileOk(v, F, ws, sclust, true) && !v.dirty && InChain(v.g, v.chain, j)
    requires w == v.(dsect := SectorAt(v.g, v.chain, j))
    ensures FileOk(w, F, ws, sclust, false) && SameFile(v, w)
  {
    SectorOwner(v.g, F, v.chain, |v.img|, j);
    LoadKeeps(v, w, F);
    SameImageOutside(v, w);
  }

  lemma BufferedSector(v: FileView, F: FatSeq, ws: nat, sclust: nat, j: nat)
    requires FileOk(v, F, ws, sclust, true) && Buffers(v, j)
    ensures FileOk(v, F, ws, sclust, false) && FileSector(v, j) == v.b && v.dsect == SectorAt(v.g, v.chain, j)
  {
  }

  /** Only the window has moved, to a FAT sector. */
  lemma AwayOk(v: FileView, F: FatSeq, ws: nat, wt: nat, sclust: nat, exact: bool)
    requires FileOk(v, F, ws, sclust, exact) && InFat(v.g, wt)
    ensures FileOk(v, F, wt, sclust, exact)
  {
    AwayFromFat(v, F, wt);
  }

  lemma NextLink(v: FileView, F: FatSeq, k: nat)
    requires GoodView(v, F) && k + 1 < |v.chain|
    ensures 2 <= v.chain[k] < |F| && F[v.chain[k]] == v.chain[k + 1] >= 2
  {
  }

  // ---- the cursor while writing ----

  lemma CoversGrown(v: FileView, w: FileView, size: nat)
    requires v.g.csize >= 1 && CoversSize(v.g, v.chain, size) && w.g == v.g && v.chain <= w.chain
    ensures CoversSize(w.g, w.chain, size)
  {
    hide Sec, Idx;
  }

  /** Writing `n` bytes on inside the buffered sector. */
  lemma MovePartWriting(v: FileView, size: nat, fptr: nat, clust: nat, n: nat)
    requires InCluster(v, fptr, clust) && v.dsect == SectorAt(v.g, v.chain, Sec(fptr))
    requires n >= 1 && Rem(fptr) + n <= SS && fptr + n < DWORD_SIZE && size < DWORD_SIZE
    requires CoversSize(v.g, v.chain, size)
    ensures CursorOk(v, Max(size, fptr + n), fptr + n, clust)
  {
    AdvanceInSector(v.g, v.chain, fptr, clust, n);
    hide Idx, Sec, SectorAt;
  }

  /** Writing `cc` sectors on inside one cluster. */
  lemma MoveWholeWriting(v: FileView, size: nat, fptr: nat, clust: nat, cc: nat)
    requires InCluster(v, fptr, clust) && Rem(fptr) == 0
    requires cc >= 1 && Off(v.g, Sec(fptr)) + cc <= v.g.csize
    requires fptr + SS * cc < DWORD_SIZE && size < DWORD_SIZE && CoversSize(v.g, v.chain, size)
    ensures CursorOk(v, Max(size, fptr + SS * cc), fptr + SS * cc, clust)
  {
    AdvanceSectors(v.g, v.chain, fptr, clust, cc);
    hide Idx, Sec, SectorAt;
  }

  /** At the start of the file, its first cluster is the pointer's. */
  lemma InFirst(w: FileView, clst: nat)
    requires w.chain != [] && clst == w.chain[0]
    ensures InCluster(w, 0, clst)
  {
    IdxZero(w.g);
  }

  /** On a cluster boundary, `clust` is the one before the pointer's. */
  lemma BeforeNext(v: FileView, size: nat, fptr: nat, clust: nat)
    requires v.g.csize >= 1 && fptr > 0 && CursorOk(v, size, fptr, clust)
    requires Rem(fptr) == 0 && Off(v.g, Sec(fptr)) == 0
    ensures var k := Idx(v.g, Sec(fptr)); 1 <= k <= |v.chain| && clust == v.chain[k - 1]
  {
    NextCluster(v.g, v.chain, fptr, clust);
  }

  lemma ChainRange(v: FileView, F: FatSeq, k: nat)
    requires GoodView(v, F) && k < |v.chain|
    ensures v.chain[k] >= 2
  {
  }

  lemma InNext(w: FileView, fptr: nat, clst: nat)
    requires var k := Idx(w.g, Sec(fptr)); k < |w.chain| && clst == w.chain[k]
    ensures InCluster(w, fptr, clst)
  {
  }

  /** On a sector boundary, the cursor stays where it is when the chain is stretched. */
  lemma CursorGrown(v: FileView, w: FileView, size: nat, fptr: nat, clust: nat)
    requires CursorOk(v, size, fptr, clust) && w.g == v.g && v.chain <= w.chain && w.dsect == v.dsect
    requires v.g.csize >= 1
    requires Rem(fptr) == 0
    ensures CursorOk(w, size, fptr, clust)
  {
    CursorFacts(v, size, fptr, clust);
    hide Sec, Idx;
  }
}
