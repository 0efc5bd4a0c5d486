/**
 Cutting the cluster chain of a file, as `f_truncate` does. All on values.
 */
module FileCut {
  import opened Bits
  import opened Layout
  import opened Chains
  import opened FileImage
  import opened FileSeek

  /** The file after its chain was cut from `xs` to `ys` and the dirty buffer written back. */
  lemma CutOk(v: FileView, w: FileView, mid: Image, F: FatSeq, G: FatSeq, ws: nat, wt: nat, sclust: nat, ys: seq<nat>)
    requires FileOk(v, F, ws, sclust, true) && v.g.fatbase + FatSectors(v.g) <= v.g.database
    requires ChainCut(F, G, v.chain, ys) && SameOutsideFat(v.img, mid, v.g) && InFat(v.g, wt)
    requires v.dirty ==> v.dsect < |mid|
    requires w == v.(img := if v.dirty then mid[v.dsect := v.b] else mid, chain := ys, dirty := false)
    ensures FileOk(w, G, wt, if ys == [] then 0 else ys[0], true) && SameOutsideFile(v, w)
  {
    AwayFromFat(w, G, wt);
    hide IsChain, NoOnes, DataFits;
  }

  /** Cutting keeps the sectors of the clusters that stay. */
  lemma CutKeeps(v: FileView, w: FileView, mid: Image, F: FatSeq, ys: seq<nat>)
    requires GoodView(v, F) && v.g.fatbase + FatSectors(v.g) <= v.g.database
    requires ys <= v.chain && SameOutsideFat(v.img, mid, v.g)
    requires v.dirty ==> v.dsect < |mid|
    requires w == v.(img := if v.dirty then mid[v.dsect := v.b] else mid, chain := ys, dirty := false)
    ensures forall j: nat :: InChain(v.g, ys, j) ==> FileSector(w, j) == FileSector(v, j)
  {
    forall j: nat | InChain(v.g, ys, j)
      ensures FileSector(w, j) == FileSector(v, j)
    {
      assert v.chain == ys + v.chain[|ys|..];
      SectorKept(v.g, ys, v.chain[|ys|..], j);
      SectorOwner(v.g, F, v.chain, |v.img|, j);
      hide SectorAt, GoodChain;
    }
  }

  /** ... and so the bytes below the cut. */
  lemma CutBytes(v: FileView, w: FileView, size: nat)
    requires v.g.csize >= 1 && w.g == v.g && CoversSize(w.g, w.chain, size)
    requires forall j: nat :: InChain(v.g, w.chain, j) ==> FileSector(w, j) == FileSector(v, j)
    ensures BytesFrom(w, 0, size) == BytesFrom(v, 0, size)
  {
    forall i: nat | i < size
      ensures BytesFrom(w, 0, size)[i] == BytesFrom(v, 0, size)[i]
    {
      CoveredBelow(w.g, w.chain, size, i);
      ByteOf(w, 0, size, i);
      ByteOf(v, 0, size, i);
      hide Sec, Rem, InChain, FileSector;
    }
  }

  /** How many clusters a file of `size` bytes needs. */
  function ClustersFor(g: Geometry, size: nat): nat {
    if size == 0 then 0 else Idx(g, Sec(size - 1)) + 1
  }

  lemma ClustersForIsCeiling(g: Geometry, size: nat)
    requires g.csize >= 1
    ensures var n := ClustersFor(g, size);
      size <= n * ClusterBytes(g) && (n > 0 ==> (n - 1) * ClusterBytes(g) < size)
  {
    if size > 0 {
      ClusterIndex(g, size - 1);
      hide Idx, Sec, ClusterBytes;
      DivMod(size - 1, ClusterBytes(g));
      MulDistributes(ClusterBytes(g), (size - 1) / ClusterBytes(g), 1);
    }
  }

  /** The cursor of the cut file. */
  lemma CutCursor(v: FileView, w: FileView, size: nat, fptr: nat, clust: nat)
    requires v.g.csize >= 1 && CursorOk(v, size, fptr, clust) && w.g == v.g && w.chain <= v.chain && w.dsect == v.dsect
    requires |w.chain| == ClustersFor(v.g, fptr)
    ensures CursorOk(w, fptr, fptr, clust)
  {
    CursorFacts(v, size, fptr, clust);
    if fptr > 0 && Rem(fptr) != 0 {
      SecPred(fptr);
    }
    hide Sec, Idx, Base, Off;
  }

  /** The pointer's cluster is the last one to stay. */
  lemma CutPoint(v: FileView, size: nat, fptr: nat, clust: nat)
    requires CursorOk(v, size, fptr, clust) && fptr > 0
    ensures 1 <= ClustersFor(v.g, fptr) <= |v.chain| && clust == v.chain[ClustersFor(v.g, fptr) - 1]
  {
  }

  lemma NoClusters(g: Geometry)
    ensures ClustersFor(g, 0) == 0
  {
  }

  lemma ImageLengths(v: FileView, mid: Image)
    requires SameOutsideFat(v.img, mid, v.g)
    ensures |mid| == |v.img|
  {
  }

  lemma AwayFromWindow(v: FileView, ws: nat)
    requires v.g.fatbase + FatSectors(v.g) <= v.g.database <= v.dsect && InFat(v.g, ws)
    ensures v.dsect != ws
  {
  }

  lemma SomeChain(v: FileView, size: nat)
    requires CoversSize(v.g, v.chain, size) && size > 0
    ensures v.chain != []
  {
  }
}
