/**
 Positions of the file pointer in its cluster, as `f_lseek` computes them. All on values.
 */
module FileSeek {
  import opened Bits
  import opened Layout
  import opened FileImage
  import opened FileUpdate

  /** The size of a cluster in bytes. */
  function ClusterBytes(g: Geometry): nat {
    g.csize * SS
  }

  lemma ClusterBytesIs(g: Geometry)
    ensures ClusterBytes(g) == g.csize * SS
  {
  }

  lemma CoversLess(v: FileView, size: nat, less: nat)
    requires CoversSize(v.g, v.chain, size) && v.g.csize >= 1
    ensures less <= size ==> CoversSize(v.g, v.chain, less)
  {
    if 0 < less <= size {
      CoveredBelow(v.g, v.chain, size, less - 1);
    }
  }

  /** The cluster of a byte by one division instead of two. */
  lemma ClusterIndex(g: Geometry, p: nat)
    requires g.csize >= 1
    ensures ClusterBytes(g) >= SS >= 1
    ensures Idx(g, Sec(p)) == p / ClusterBytes(g)
  {
    ModSplit(p, SS, g.csize);
    assert SS * g.csize == g.csize * SS;
  }

  /** `x & ~(n - 1)` on a `DWORD` rounds down, for `n` a power of two. */
  lemma RoundDown(x: nat, n: nat)
    requires IsPow2(n) && n < DWORD_SIZE && x < DWORD_SIZE
    ensures n >= 1 && And(x, DWORD_SIZE - n) == n * (x / n)
  {
    var k: nat :| n == Pow2(k);
    hide And, Pow2;
    DivMod(x, n);
    RoundDownBits(n, x / n, x % n, k);
  }

  function Not32(a: nat): nat {
    if a < DWORD_SIZE then DWORD_SIZE - 1 - a else 0
  }

  /** The start of the cluster of the byte before the pointer, by a mask. */
  lemma BaseByMask(g: Geometry, fptr: nat)
    requires IsPow2(g.csize) && 1 <= g.csize <= 128 && 0 < fptr < DWORD_SIZE
    ensures 1 <= ClusterBytes(g) < DWORD_SIZE
    ensures And(fptr - 1, Not32(ClusterBytes(g) - 1)) == ClusterBytes(g) * BaseIndex(g, fptr)
  {
    var k: nat :| g.csize == Pow2(k);
    Pow2Sum(k, 9);
    Pow2Of9();
    assert IsPow2(ClusterBytes(g));
    hide And, IsPow2, Pow2;
    RoundDown(fptr - 1, ClusterBytes(g));
  }

  lemma Pow2Of9()
    ensures Pow2(9) == SS
  {
    assert Pow2(8) == 256;
  }

  lemma RoundDownBits(n: nat, q: nat, r: nat, k: nat)
    requires n == Pow2(k) && n < DWORD_SIZE && r < n && n * q + r < DWORD_SIZE
    ensures And(n * q + r, DWORD_SIZE - n) == n * q
  {
    Pow2Of32();
    hide And, Pow2;
    Pow2Order(k, 32);
    ShiftIsProduct(q, k);
    MaskHigh(n * q + r, q, r, k, 32, DWORD_SIZE - n);
  }

  lemma Pow2Of32()
    ensures Pow2(32) == DWORD_SIZE
  {
    assert Pow2(8) == 256;
    Pow2Sum(8, 8);
    Pow2Sum(16, 16);
  }

  lemma {:induction false} Pow2Order(j: nat, k: nat)
    requires Pow2(j) < Pow2(k)
    ensures j < k
    decreases j
  {
    if j > 0 && k > 0 {
      Pow2Order(j - 1, k - 1);
    }
  }

  /** `c << k`. */
  function Shift(c: nat, k: nat): nat {
    if k == 0 then c else 2 * Shift(c, k - 1)
  }

  lemma {:induction false} ShiftIsProduct(c: nat, k: nat)
    ensures Shift(c, k) == Pow2(k) * c
  {
    if k > 0 {
      ShiftIsProduct(c, k - 1);
      MulAssoc(2, Pow2(k - 1), c);
    }
  }

  lemma HalfOf(x: nat, s: nat, r: nat)
    requires x == 2 * s + r
    ensures x / 2 == s + r / 2
  {
  }

  lemma AndEven(a: nat, h: nat, m: nat, n: nat)
    requires h == a / 2 && m == 2 * n
    ensures And(a, m) == 2 * And(h, n)
  {
    if a != 0 && m != 0 {
      assert m / 2 == n && m % 2 == 0;
    }
  }

  lemma AllBits(x: nat, w: nat, q: nat)
    requires q == Pow2(w) && x < q
    ensures And(x, q - 1) == x
  {
    hide And, Pow2;
    MaskPow(x, w, q);
  }

  /** Masking off the low `k` bits of a number `x` of `w` bits; `mask` has the others. */
  lemma {:induction false} MaskHigh(x: nat, c: nat, r: nat, k: nat, w: nat, mask: nat)
    requires k <= w && r < Pow2(k) && x == Shift(c, k) + r < Pow2(w) && mask + Pow2(k) == Pow2(w)
    ensures And(x, mask) == Shift(c, k)
  {
    if k == 0 {
      hide And;
      AllBits(x, w, Pow2(w));
    } else {
      var a, b, s, n := Pow2(w - 1), Pow2(k - 1), Shift(c, k - 1), Pow2(w - 1) - Pow2(k - 1);
      assert Pow2(w) == 2 * a && Pow2(k) == 2 * b && Shift(c, k) == 2 * s;
      hide *;
      HalfOf(x, s, r);
      MaskHigh(x / 2, c, r / 2, k - 1, w - 1, n);
      AndEven(x, x / 2, mask, n);
    }
  }

  // ---- the walk ----

  /** The pointer is at the start of cluster `k` of the file, which is `clust`. */
  ghost predicate Based(v: FileView, fptr: nat, clust: nat, k: nat) {
    k < |v.chain| && clust == v.chain[k] && fptr == ClusterBytes(v.g) * k
  }

  /** `rest` bytes on from the start of cluster `k`, no farther than its end. */
  lemma BasedCursor(v: FileView, fptr: nat, clust: nat, k: nat, rest: nat)
    requires v.g.csize >= 1 && Based(v, fptr, clust, k) && 0 < rest <= ClusterBytes(v.g)
    ensures AtCluster(v.g, v.chain, fptr + rest, clust)
  {
    var p := fptr + rest - 1;
    ClusterIndex(v.g, p);
    hide Idx, Sec, ClusterBytes;
    ModUnique(p, ClusterBytes(v.g), k, rest - 1);
  }

  /** The sector of the pointer, `rest` bytes on from the start of cluster `k`. */
  lemma BasedSector(v: FileView, fptr: nat, clust: nat, k: nat, rest: nat)
    requires v.g.csize >= 1 && Based(v, fptr, clust, k) && 0 < rest <= ClusterBytes(v.g)
    ensures Rem(fptr + rest) == rest % SS
    ensures rest % SS != 0 ==> InCluster(v, fptr + rest, clust) && Off(v.g, Sec(fptr + rest)) == rest / SS
  {
    var c, q, r := v.g.csize, rest / SS, rest % SS;
    DivMod(rest, SS);
    MulAssoc(SS, c, k);
    assert fptr == SS * (c * k);
    MulDistributes(SS, c * k, q);
    ModUnique(fptr + rest, SS, c * k + q, r);
    assert Sec(fptr + rest) == c * k + q;
    if r != 0 {
      assert q < c;
      hide SS, ClusterBytes;
      ModUnique(c * k + q, c, k, q);
    }
  }

  /** The index of the cluster of the byte before the pointer. */
  function BaseIndex(g: Geometry, fptr: nat): nat {
    if ClusterBytes(g) == 0 || fptr == 0 then 0 else (fptr - 1) / ClusterBytes(g)
  }

  lemma BaseOfCursor(v: FileView, size: nat, fptr: nat, clust: nat)
    requires v.g.csize >= 1 && CursorOk(v, size, fptr, clust) && fptr > 0
    ensures Based(v, ClusterBytes(v.g) * BaseIndex(v.g, fptr), clust, BaseIndex(v.g, fptr))
  {
    CursorFacts(v, size, fptr, clust);
    ClusterIndex(v.g, fptr - 1);
  }

  /** A seek to the same cluster or a later one goes on from the start of this one. */
  lemma SeekOnward(g: Geometry, fptr: nat, ofs: nat)
    requires 1 <= ClusterBytes(g) && fptr > 0 && ofs > 0
    requires (ofs - 1) / ClusterBytes(g) >= (fptr - 1) / ClusterBytes(g)
    ensures ClusterBytes(g) * BaseIndex(g, fptr) < ofs
  {
    hide ClusterBytes;
    RoundBelow(ClusterBytes(g), fptr - 1, ofs - 1);
  }

  lemma RoundBelow(c: nat, x: nat, y: nat)
    requires c >= 1 && y / c >= x / c
    ensures c * (x / c) <= y
  {
    DivMod(y, c);
    ProductBelow(c, x / c, y / c, y % c, y);
  }

  lemma ProductBelow(c: nat, p: nat, q: nat, r: nat, y: nat)
    requires p <= q && y == c * q + r
    ensures c * p <= y
  {
    MulMonotonic(c, p, q);
  }

  lemma BasedFirst(v: FileView, clust: nat)
    requires v.chain != [] && clust == v.chain[0]
    ensures Based(v, 0, clust, 0)
  {
  }

  lemma BasedNext(v: FileView, w: FileView, fptr: nat, clust: nat, k: nat, ncl: nat)
    requires Based(v, fptr, clust, k) && w.g == v.g && k + 1 < |w.chain| && ncl == w.chain[k + 1]
    ensures Based(w, fptr + ClusterBytes(v.g), ncl, k + 1)
  {
    MulDistributes(ClusterBytes(v.g), k, 1);
  }

  lemma BasedFacts(v: FileView, fptr: nat, clust: nat, k: nat)
    requires Based(v, fptr, clust, k)
    ensures k < |v.chain| && clust == v.chain[k]
    ensures k + 1 == |v.chain| ==> fptr + ClusterBytes(v.g) == ClusterBytes(v.g) * |v.chain|
  {
    MulDistributes(ClusterBytes(v.g), k, 1);
  }

  lemma BasedGrown(v: FileView, w: FileView, fptr: nat, clust: nat, k: nat)
    requires Based(v, fptr, clust, k) && w.g == v.g && v.chain <= w.chain
    ensures Based(w, fptr, clust, k)
  {
  }

  /** More than a cluster before a covered position, there is a next cluster. */
  lemma NextCovered(v: FileView, size: nat, fptr: nat, clust: nat, k: nat, rest: nat)
    requires v.g.csize >= 1 && CoversSize(v.g, v.chain, size) && fptr + rest <= size
    requires Based(v, fptr, clust, k) && rest > ClusterBytes(v.g)
    ensures k + 1 < |v.chain|
  {
    BeforeEnd(v, size, fptr + rest);
    BasedFacts(v, fptr, clust, k);
  }

  /** A covered position lies before the end of the chain. */
  lemma BeforeEnd(v: FileView, size: nat, p: nat)
    requires v.g.csize >= 1 && CoversSize(v.g, v.chain, size) && p <= size
    ensures p <= ClusterBytes(v.g) * |v.chain|
  {
    if p > 0 {
      CoveredBelow(v.g, v.chain, size, p - 1);
      ClusterIndex(v.g, p - 1);
      hide Idx, Sec, CoversSize;
      DivMod(p - 1, ClusterBytes(v.g));
      MulMonotonic(ClusterBytes(v.g), (p - 1) / ClusterBytes(v.g) + 1, |v.chain|);
      MulDistributes(ClusterBytes(v.g), (p - 1) / ClusterBytes(v.g), 1);
    }
  }

  /** The cursor after a seek. */
  lemma SoughtCursor(v: FileView, size: nat, fptr: nat, clust: nat)
    requires CoversSize(v.g, v.chain, size) && AtCluster(v.g, v.chain, fptr, clust)
    requires Rem(fptr) != 0 ==> v.dsect == SectorAt(v.g, v.chain, Sec(fptr))
    requires fptr < DWORD_SIZE && size < DWORD_SIZE
    ensures CursorOk(v, Max(size, fptr), fptr, clust)
  {
  }

  // ---- fast seek ----

  /** On a cluster boundary in or at the end of the chain. */
  lemma NextBoundary(v: FileView, size: nat, fptr: nat, clust: nat)
    requires v.g.csize >= 1 && fptr > 0 && CursorOk(v, size, fptr, clust)
    requires Rem(fptr) == 0 && Off(v.g, Sec(fptr)) == 0
    ensures var k := Idx(v.g, Sec(fptr)); 1 <= k <= |v.chain| && fptr == ClusterBytes(v.g) * k
  {
    BeforeNext(v, size, fptr, clust);
    Boundary(v.g.csize, fptr);
  }

  lemma Boundary(c: nat, p: nat)
    requires c >= 1 && p % 512 == 0 && p / 512 % c == 0
    ensures p == c * 512 * (p / 512 / c)
  {
    DivMod(p, 512);
    DivMod(p / 512, c);
    MulAssoc(512, c, p / 512 / c);
  }

  lemma CoveredIs(v: FileView, p: nat)
    requires Covered(v.g, v.chain, p)
    ensures Idx(v.g, Sec(p)) < |v.chain|
  {
  }

  lemma HereInCluster(v: FileView, p: nat, clust: nat)
    requires Covered(v.g, v.chain, p) && Idx(v.g, Sec(p)) < |v.chain| && clust == v.chain[Idx(v.g, Sec(p))]
    ensures InCluster(v, p, clust)
  {
  }

  lemma SecIs(p: nat)
    ensures Sec(p) == p / SS
  {
  }

  lemma RemIs(p: nat)
    ensures Rem(p) == p % SS
  {
  }

  /** Off a sector boundary, the byte before the pointer is in the pointer's sector. */
  lemma SameSector(v: FileView, p: nat, clust: nat)
    requires p > 0 && InCluster(v, p - 1, clust)
    ensures Rem(p) != 0 ==> InCluster(v, p, clust) && Sec(p) == Sec(p - 1)
  {
    SecPred(p);
    hide Sec, Rem, Idx;
  }

  lemma BehindCluster(v: FileView, w: FileView, p: nat, clust: nat)
    requires p > 0 && InCluster(v, p - 1, clust) && w.g == v.g && w.chain == v.chain
    ensures AtCluster(w.g, w.chain, p, clust)
  {
  }
}
