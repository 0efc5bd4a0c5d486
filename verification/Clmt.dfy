/**
 The cluster link map of fast seek: a run-length encoding of a file's chain, built by
 `f_lseek(CREATE_LINKMAP)` and searched by `clmt_clust`.
 */
module Clmt {
  import opened Layout
  import opened Chains
  import opened FileImage
  import opened VolumeModel

  /** A fragment: `len` clusters from `top` on. */
  datatype Frag = Frag(len: nat, top: nat)

  /** The clusters of the fragments, in order. */
  function Expand(rs: seq<Frag>): (r: seq<nat>)
    ensures rs == [] ==> r == []
  {
    if rs == [] then [] else Expand(rs[..|rs| - 1]) + Consecutive(rs[|rs| - 1].top, rs[|rs| - 1].len)
  }

  function Consecutive(top: nat, len: nat): (r: seq<nat>)
    ensures |r| == len && forall i :: 0 <= i < len ==> r[i] == top + i
  {
    seq(len, i requires 0 <= i < len => top + i)
  }

  /** The fragments are a run-length encoding of the chain: none is empty, and none goes on
      where the one before it ends. */
  ghost predicate Encodes(rs: seq<Frag>, xs: seq<nat>) {
    && Expand(rs) == xs
    && (forall i :: 0 <= i < |rs| ==> rs[i].len >= 1)
    && forall i :: 0 < i < |rs| ==> rs[i].top != rs[i - 1].top + rs[i - 1].len
  }

  lemma NoFrags()
    ensures Encodes([], [])
  {
  }

  /** Only no fragments are no clusters. */
  lemma OnlyNone(rs: seq<Frag>)
    requires Encodes(rs, [])
    ensures rs == []
  {
    if rs != [] {
      LastOf(rs);
    }
  }

  lemma MoreFrags(rs: seq<Frag>, xs: seq<nat>, len: nat, top: nat)
    requires Encodes(rs, xs) && len >= 1
    requires xs != [] ==> top != xs[|xs| - 1] + 1
    ensures Encodes(rs + [Frag(len, top)], xs + Consecutive(top, len))
  {
    var ss := rs + [Frag(len, top)];
    assert ss[..|ss| - 1] == rs;
    if rs != [] {
      LastOf(rs);
    }
  }

  /** The last cluster of the fragments is the end of the last one. */
  lemma LastOf(rs: seq<Frag>)
    requires rs != [] && rs[|rs| - 1].len >= 1
    ensures Expand(rs) != []
    ensures Expand(rs)[|Expand(rs)| - 1] == rs[|rs| - 1].top + rs[|rs| - 1].len - 1
  {
  }

  /** Where the last fragment starts the chain does not go on by one; inside it, it does. */
  lemma LastFrag(rs: seq<Frag>, xs: seq<nat>)
    requires Encodes(rs, xs) && rs != []
    ensures var r := rs[|rs| - 1]; var n := |xs| - r.len;
      && 0 <= n < |xs| && xs[n] == r.top && (n > 0 ==> xs[n] != xs[n - 1] + 1)
      && (forall k :: n < k < |xs| ==> xs[k] == xs[k - 1] + 1)
      && Encodes(rs[..|rs| - 1], xs[..n])
  {
    hide *;
    var qs, r := rs[..|rs| - 1], rs[|rs| - 1];
    EncodesLast(rs, xs);
    RunAfter(Expand(qs), r.top, r.len, xs);
  }

  lemma RunAfter(a: seq<nat>, top: nat, len: nat, xs: seq<nat>)
    requires xs == a + Consecutive(top, len) && len >= 1
    ensures |xs| - len == |a| && xs[..|a|] == a && xs[|a|] == top
    ensures forall k :: |a| < k < |xs| ==> xs[k] == xs[k - 1] + 1
    ensures a != [] ==> xs[|a| - 1] == a[|a| - 1]
  {
    hide *;
    var c := Consecutive(top, len);
    forall k | |a| < k < |xs|
      ensures xs[k] == xs[k - 1] + 1
    {
      assert xs[k] == c[k - |a|] && xs[k - 1] == c[k - 1 - |a|];
    }
  }

  lemma EncodesLast(rs: seq<Frag>, xs: seq<nat>)
    requires Encodes(rs, xs) && rs != []
    ensures var qs, r := rs[..|rs| - 1], rs[|rs| - 1];
      && r.len >= 1 && xs == Expand(qs) + Consecutive(r.top, r.len) && Encodes(qs, Expand(qs))
      && (Expand(qs) != [] ==> Expand(qs)[|Expand(qs)| - 1] + 1 != r.top)
  {
    var qs := rs[..|rs| - 1];
    if qs != [] {
      LastOf(qs);
    }
    hide Consecutive;
  }

  /** The encoding of a chain is unique. */
  lemma {:induction false} EncodingUnique(rs: seq<Frag>, ss: seq<Frag>, xs: seq<nat>)
    requires Encodes(rs, xs) && Encodes(ss, xs)
    ensures rs == ss
    decreases |rs|
  {
    hide *;
    if rs == [] || ss == [] {
      NoFragments(rs, ss, xs);
    } else {
      LastFrag(rs, xs);
      LastFrag(ss, xs);
      var r, s := rs[|rs| - 1], ss[|ss| - 1];
      assert r.len == s.len;
      EncodingUnique(rs[..|rs| - 1], ss[..|ss| - 1], xs[..|xs| - r.len]);
      assert rs == rs[..|rs| - 1] + [r] && ss == ss[..|ss| - 1] + [s];
    }
  }

  lemma NoFragments(rs: seq<Frag>, ss: seq<Frag>, xs: seq<nat>)
    requires Encodes(rs, xs) && Encodes(ss, xs) && (rs == [] || ss == [])
    ensures rs == ss
  {
    if rs != [] {
      LastOf(rs);
    }
    if ss != [] {
      LastOf(ss);
    }
  }

  // ---- the table ----

  /** The table holds the fragments: its size, the pairs, and a 0. */
  ghost predicate Holds(t: seq<nat>, rs: seq<Frag>) {
    && |t| >= 2 * |rs| + 2
    && t[0] == 2 * |rs| + 2
    && (forall i :: 0 <= i < |rs| ==> t[2 * i + 1] == rs[i].len && t[2 * i + 2] == rs[i].top)
    && t[2 * |rs| + 1] == 0
  }

  /** The number of clusters in the first `k` fragments. */
  function Before(rs: seq<Frag>, k: nat): nat
    requires k <= |rs|
  {
    |Expand(rs[..k])|
  }

  lemma BeforeNext(rs: seq<Frag>, k: nat)
    requires k < |rs|
    ensures Before(rs, k + 1) == Before(rs, k) + rs[k].len && Before(rs, 0) == 0
  {
    assert rs[..k + 1][..k] == rs[..k];
  }

  /** A cluster in fragment `k`. */
  lemma {:induction false} InFragment(rs: seq<Frag>, k: nat, i: nat)
    requires k < |rs| && i < rs[k].len
    ensures Before(rs, k) + i < |Expand(rs)| && Expand(rs)[Before(rs, k) + i] == rs[k].top + i
    decreases |rs|
  {
    var l := |rs| - 1;
    if k == l {
      assert rs[..l][..k] == rs[..k];
    } else {
      assert rs[..l][..k] == rs[..k];
      InFragment(rs[..l], k, i);
    }
  }

  /** `clmt_clust`: the cluster of byte `ofs`, 0 past the end of the chain. */
  method ClmtClust(g: Geometry, cltbl: array<nat>, ofs: nat, ghost rs: seq<Frag>, ghost xs: seq<nat>) returns (c: nat)
    requires g.csize >= 1 && Holds(cltbl[..], rs) && Encodes(rs, xs)
    ensures c == if Idx(g, Sec(ofs)) < |xs| then xs[Idx(g, Sec(ofs))] else 0
  {
    hide Expand;
    var cl: nat, tbl: nat := ofs / SS / g.csize, 1;
    ghost var k := 0;
    AllBefore(rs);
    while true
      invariant k <= |rs| && tbl == 2 * k + 1 && cl + Before(rs, k) == Idx(g, Sec(ofs))
      decreases |rs| - k
    {
      var ncl := cltbl[tbl];
      assert cltbl[..][2 * k + 1] == ncl;
      assert k < |rs| ==> ncl == rs[k].len >= 1;
      tbl := tbl + 1;
      if ncl == 0 {
        return 0;
      }
      BeforeNext(rs, k);
      if cl < ncl {
        InFragment(rs, k, cl);
        assert cltbl[..][tbl] == rs[k].top;
        return cl + cltbl[tbl];
      }
      cl := cl - ncl;
      tbl := tbl + 1;
      k := k + 1;
    }
  }

  lemma AllBefore(rs: seq<Frag>)
    ensures Before(rs, |rs|) == |Expand(rs)| && Before(rs, 0) == 0
  {
    assert rs[..|rs|] == rs;
  }

  // ---- building the table ----

  /** The last entry of the chain holds just the number of FAT entries and is the entry of the
      last cluster, so that the end mark looks like the next cluster. */
  ghost predicate Unlucky(F: FatSeq, xs: seq<nat>) {
    xs != [] && xs[|xs| - 1] == |F| - 1 && xs[|xs| - 1] < |F| && F[xs[|xs| - 1]] == |F|
  }

  /** The fragment that starts with cluster `j` of the chain, and what follows it.
      False: the walk ran past the end of the FAT. */
  method Fragment(fs: Volume, cl: nat, ghost xs: seq<nat>, ghost j: nat) returns (ok: bool, ncl: nat, next: nat)
    requires fs.Valid() && NoOnes(fs.fat) && IsChain(fs.fat, xs) && j < |xs| && cl == xs[j]
    modifies fs`wflag, fs`winsect, fs`disk, fs.win
    ensures fs.Valid() && |fs.fat| == fs.g.nFatent
    ensures fs.winsect == old(fs.winsect) || InFat(fs.g, fs.winsect)
    ensures !ok ==> Unlucky(fs.fat, xs)
    ensures ok ==> ncl >= 1 && j + ncl <= |xs| && xs[j..j + ncl] == Consecutive(cl, ncl)
    ensures ok ==> next != cl + ncl && (if j + ncl < |xs| then next == xs[j + ncl] < |fs.fat| else next >= |fs.fat|)
    ensures ok && j + ncl == |xs| ==> !Unlucky(fs.fat, xs)
  {
    hide *;
    fs.Facts();
    next, ncl := cl, 0;
    ghost var F := fs.fat;
    assert xs[j..j] == Consecutive(cl, 0);
    while true
      invariant fs.Valid() && fs.fat == F && |F| == fs.g.nFatent
      invariant fs.winsect == old(fs.winsect) || InFat(fs.g, fs.winsect)
      invariant next == cl + ncl && j + ncl <= |xs| && xs[j..j + ncl] == Consecutive(cl, ncl)
      invariant if j + ncl < |xs| then next == xs[j + ncl] else ncl >= 1 && next == |F| && Unlucky(F, xs)
      decreases |xs| - j - ncl
    {
      ghost var m := ncl;
      if j + m < |xs| {
        InChainRange(F, xs, j + m);
        LinkAt(F, xs, j + m);
        OneMore(xs, j, m, cl);
      }
      var pcl := next;
      ncl := ncl + 1;
      next := fs.GetFat(next);
      if next <= 1 {
        ok := false;
        return;
      }
      UnluckyIs(F, xs, j + m, next);
      if next != pcl + 1 {
        break;
      }
    }
    ok := true;
  }

  lemma OneMore(xs: seq<nat>, j: nat, m: nat, cl: nat)
    requires j + m < |xs| && xs[j..j + m] == Consecutive(cl, m) && xs[j + m] == cl + m
    ensures xs[j..j + m + 1] == Consecutive(cl, m + 1)
  {
    assert xs[j..j + m + 1] == xs[j..j + m] + [xs[j + m]];
  }

  lemma UnluckyIs(F: FatSeq, xs: seq<nat>, k: nat, next: nat)
    requires IsChain(F, xs) && k < |xs| && next == F[xs[k]]
    ensures k == |xs| - 1 ==> (Unlucky(F, xs) <==> next == xs[k] + 1)
    ensures k == |xs| - 1 && next == xs[k] + 1 ==> next == |F|
  {
  }

  /** The table so far: of the fragments those for which there is room. */
  ghost predicate Stored(t: seq<nat>, rs: seq<Frag>, tlen: nat) {
    tlen <= |t| && forall i :: 0 <= i < |rs| && 2 * i + 4 <= tlen ==>
      t[2 * i + 1] == rs[i].len && t[2 * i + 2] == rs[i].top
  }

  lemma StoredNext(t: seq<nat>, rs: seq<Frag>, tlen: nat, len: nat, top: nat)
    requires Stored(t, rs, tlen) && tlen >= 1
    ensures var n := 2 * |rs| + 4;
      if n <= tlen then Stored(t[n - 3 := len][n - 2 := top], rs + [Frag(len, top)], tlen)
      else Stored(t, rs + [Frag(len, top)], tlen)
  {
  }

  lemma StoredAll(t: seq<nat>, rs: seq<Frag>, tlen: nat)
    requires Stored(t, rs, tlen) && 2 * |rs| + 2 <= tlen
    ensures Holds(t[0 := 2 * |rs| + 2][2 * |rs| + 1 := 0], rs)
  {
  }

  lemma NextFrag(rs: seq<Frag>, xs: seq<nat>, j: nat, len: nat, top: nat)
    requires j + len <= |xs| && Encodes(rs, xs[..j]) && len >= 1 && xs[j..j + len] == Consecutive(top, len)
    requires j > 0 ==> xs[j - 1] + 1 != xs[j]
    ensures Encodes(rs + [Frag(len, top)], xs[..j + len])
  {
    assert xs[j] == top;
    MoreFrags(rs, xs[..j], len, top);
    assert xs[..j + len] == xs[..j] + xs[j..j + len];
  }

  /** `f_lseek(CREATE_LINKMAP)`: the first item of the table gives its size, and then the size
      that is needed. */
  method CreateLinkMap(fs: Volume, sclust: nat, tbl: array<nat>, ghost xs: seq<nat>)
    returns (res: FResult, ghost rs: seq<Frag>)
    requires fs.Valid() && NoOnes(fs.fat)
    requires if sclust == 0 then xs == [] else IsChain(fs.fat, xs) && xs[0] == sclust
    requires 1 <= tbl.Length && tbl[0] <= tbl.Length
    modifies tbl, fs`wflag, fs`winsect, fs`disk, fs.win
    ensures fs.Valid()
    ensures fs.winsect == old(fs.winsect) || InFat(fs.g, fs.winsect)
    ensures res == if Unlucky(fs.fat, xs) then FR_INT_ERR
      else if 2 * |rs| + 2 <= old(tbl[0]) then FR_OK else FR_NOT_ENOUGH_CORE
    ensures res != FR_INT_ERR ==> Encodes(rs, xs) && tbl[0] == 2 * |rs| + 2
    ensures res == FR_OK ==> Holds(tbl[..], rs)
  {
    hide *;
    rs := [];
    NoFrags();
    var tlen: nat, ulen: nat, p: nat := tbl[0], 2, 1;
    StartStored(tbl[..], tlen);
    NotUnlucky(fs.fat, xs);
    if sclust != 0 {
      var ok: bool;
      ok, ulen, p, rs := MapChain(fs, sclust, tbl, tlen, xs);
      if !ok {
        return FR_INT_ERR, rs;
      }
    }
    res := CloseTable(tbl, tlen, ulen, p, rs);
  }

  /** The loop over the fragments. */
  method MapChain(fs: Volume, sclust: nat, tbl: array<nat>, tlen: nat, ghost xs: seq<nat>)
    returns (ok: bool, ulen: nat, p: nat, ghost rs: seq<Frag>)
    requires fs.Valid() && NoOnes(fs.fat) && IsChain(fs.fat, xs) && xs[0] == sclust
    requires Building(tbl[..], [], tlen, 2, 1)
    modifies tbl, fs`wflag, fs`winsect, fs`disk, fs.win
    ensures fs.Valid() && ok == !Unlucky(fs.fat, xs)
    ensures fs.winsect == old(fs.winsect) || InFat(fs.g, fs.winsect)
    ensures ok ==> Encodes(rs, xs) && Building(tbl[..], rs, tlen, ulen, p)
  {
    hide *;
    ulen, p, rs := 2, 1, [];
    ChainNotEmpty(fs.fat, xs);
    ghost var j: nat;
    var cl: nat;
    ok, ulen, p, cl, j, rs := MapStep(fs, tbl, tlen, 2, 1, sclust, xs, 0, []);
    while ok && cl < fs.g.nFatent
      invariant if ok then MapState(fs, tbl[..], tlen, ulen, p, cl, xs, j, rs) else fs.Valid() && Unlucky(fs.fat, xs)
      invariant fs.fat == old(fs.fat)
      invariant fs.winsect == old(fs.winsect) || InFat(fs.g, fs.winsect)
      decreases ok, |xs| - j
    {
      StateFacts(fs, tbl[..], tlen, ulen, p, cl, xs, j, rs);
      ok, ulen, p, cl, j, rs := MapStep(fs, tbl, tlen, ulen, p, cl, xs, j, rs);
    }
    if ok {
      StateFacts(fs, tbl[..], tlen, ulen, p, cl, xs, j, rs);
      assert xs[..j] == xs;
    }
  }

  /** Between two fragments. */
  ghost predicate MapState(fs: Volume, t: seq<nat>, tlen: nat, ulen: nat, p: nat, cl: nat, xs: seq<nat>, j: nat,
                           rs: seq<Frag>)
    reads fs, fs.win
  {
    && fs.Valid() && NoOnes(fs.fat) && IsChain(fs.fat, xs) && |fs.fat| == fs.g.nFatent
    && Mapped(fs.fat, xs, j, cl, rs) && Building(t, rs, tlen, ulen, p)
  }

  lemma StateFacts(fs: Volume, t: seq<nat>, tlen: nat, ulen: nat, p: nat, cl: nat, xs: seq<nat>, j: nat, rs: seq<Frag>)
    requires MapState(fs, t, tlen, ulen, p, cl, xs, j, rs)
    ensures fs.Valid() && NoOnes(fs.fat) && IsChain(fs.fat, xs) && |fs.fat| == fs.g.nFatent
    ensures Mapped(fs.fat, xs, j, cl, rs) && Building(t, rs, tlen, ulen, p)
    ensures j <= |xs| && (cl < |fs.fat| ==> j < |xs| && cl == xs[j])
    ensures cl >= |fs.fat| ==> j == |xs| && Encodes(rs, xs[..j]) && !Unlucky(fs.fat, xs)
  {
    hide Encodes, Unlucky, Building, Volume.Valid;
  }

  lemma IsState(fs: Volume, t: seq<nat>, tlen: nat, ulen: nat, p: nat, cl: nat, xs: seq<nat>, j: nat, rs: seq<Frag>)
    requires fs.Valid() && NoOnes(fs.fat) && IsChain(fs.fat, xs) && |fs.fat| == fs.g.nFatent
    requires Mapped(fs.fat, xs, j, cl, rs) && Building(t, rs, tlen, ulen, p)
    ensures MapState(fs, t, tlen, ulen, p, cl, xs, j, rs)
  {
  }

  /** Maps one more fragment. */
  method MapStep(fs: Volume, tbl: array<nat>, tlen: nat, ulen0: nat, p0: nat, tcl: nat, ghost xs: seq<nat>,
                 ghost j0: nat, ghost rs0: seq<Frag>)
    returns (ok: bool, ulen: nat, p: nat, cl: nat, ghost j: nat, ghost rs: seq<Frag>)
    requires fs.Valid() && NoOnes(fs.fat) && IsChain(fs.fat, xs) && j0 < |xs| && tcl == xs[j0]
    requires Mapped(fs.fat, xs, j0, tcl, rs0) && Building(tbl[..], rs0, tlen, ulen0, p0)
    modifies tbl, fs`wflag, fs`winsect, fs`disk, fs.win
    ensures if ok then MapState(fs, tbl[..], tlen, ulen, p, cl, xs, j, rs) && j0 < j <= |xs|
      else fs.Valid() && Unlucky(fs.fat, xs)
    ensures fs.winsect == old(fs.winsect) || InFat(fs.g, fs.winsect)
  {
    hide *;
    ulen, p, j, rs := ulen0, p0, j0, rs0;
    var ncl: nat;
    ok, ncl, cl := Fragment(fs, tcl, xs, j0);
    if !ok {
      return;
    }
    ulen, p := StoreFrag(tbl, tlen, ulen0, p0, ncl, tcl, rs0);
    MappedNext(fs.fat, xs, j0, tcl, rs0, ncl, cl);
    rs, j := rs0 + [Frag(ncl, tcl)], j0 + ncl;
    IsState(fs, tbl[..], tlen, ulen, p, cl, xs, j, rs);
  }

  /** The fragments up to cluster `j` of the chain are known; `cl` comes next. */
  ghost predicate Mapped(F: FatSeq, xs: seq<nat>, j: nat, cl: nat, rs: seq<Frag>) {
    && j <= |xs| && Encodes(rs, xs[..j])
    && (j < |xs| ==> cl == xs[j] < |F| && (j > 0 ==> xs[j - 1] + 1 != xs[j]))
    && (j == |xs| ==> cl >= |F| && !Unlucky(F, xs))
  }

  lemma MappedNext(F: FatSeq, xs: seq<nat>, j: nat, cl: nat, rs: seq<Frag>, len: nat, next: nat)
    requires Mapped(F, xs, j, cl, rs) && j < |xs| && len >= 1 && j + len <= |xs|
    requires xs[j..j + len] == Consecutive(cl, len)
    requires next != cl + len && (if j + len < |xs| then next == xs[j + len] < |F| else next >= |F|)
    requires j + len == |xs| ==> !Unlucky(F, xs)
    ensures Mapped(F, xs, j + len, next, rs + [Frag(len, cl)])
  {
    hide Encodes, Unlucky;
    NextFrag(rs, xs, j, len, cl);
    LastInRun(xs, j, len, cl);
  }

  /** The table while it is built: `ulen` items are needed so far, and the next one goes to `p`
      if there is room. */
  ghost predicate Building(t: seq<nat>, rs: seq<Frag>, tlen: nat, ulen: nat, p: nat) {
    ulen == 2 * |rs| + 2 && 1 <= |t| && Stored(t, rs, tlen) && (ulen <= tlen ==> p == ulen - 1)
  }

  lemma BuildingFacts(t: seq<nat>, rs: seq<Frag>, tlen: nat, ulen: nat, p: nat)
    requires Building(t, rs, tlen, ulen, p)
    ensures ulen == 2 * |rs| + 2 && 1 <= |t| && tlen <= |t| && Stored(t, rs, tlen) && (ulen <= tlen ==> p == ulen - 1)
  {
  }

  /** Stores a fragment if there is room. */
  method StoreFrag(tbl: array<nat>, tlen: nat, ulen0: nat, p: nat, ncl: nat, tcl: nat, ghost rs: seq<Frag>)
    returns (ulen: nat, q: nat)
    requires Building(tbl[..], rs, tlen, ulen0, p)
    modifies tbl
    ensures Building(tbl[..], rs + [Frag(ncl, tcl)], tlen, ulen, q)
  {
    BuildingFacts(tbl[..], rs, tlen, ulen0, p);
    hide Stored;
    ulen, q := ulen0 + 2, p;
    if tlen >= 1 {
      StoredNext(tbl[..], rs, tlen, ncl, tcl);
    } else {
      NoRoom(tbl[..], rs + [Frag(ncl, tcl)]);
    }
    ghost var t: seq<nat> := tbl[..];
    if ulen <= tlen {
      tbl[q] := ncl;
      tbl[q + 1] := tcl;
      assert tbl[..] == t[ulen - 3 := ncl][ulen - 2 := tcl];
      q := q + 2;
    }
  }

  lemma NoRoom(t: seq<nat>, rs: seq<Frag>)
    ensures Stored(t, rs, 0)
  {
  }

  /** Stores the size and the end mark. */
  method CloseTable(tbl: array<nat>, tlen: nat, ulen: nat, p: nat, ghost rs: seq<Frag>) returns (res: FResult)
    requires Building(tbl[..], rs, tlen, ulen, p)
    modifies tbl
    ensures 1 <= tbl.Length && tbl[0] == 2 * |rs| + 2
    ensures res == if 2 * |rs| + 2 <= tlen then FR_OK else FR_NOT_ENOUGH_CORE
    ensures res == FR_OK ==> Holds(tbl[..], rs)
  {
    BuildingFacts(tbl[..], rs, tlen, ulen, p);
    hide Stored, Holds;
    ghost var t: seq<nat> := tbl[..];
    tbl[0] := ulen;
    if ulen <= tlen {
      StoredAll(t, rs, tlen);
      tbl[p] := 0;
      assert tbl[..] == t[0 := ulen][ulen - 1 := 0];
      res := FR_OK;
    } else {
      res := FR_NOT_ENOUGH_CORE;
    }
  }

  lemma StartStored(t: seq<nat>, tlen: nat)
    requires tlen <= |t| && 1 <= |t|
    ensures Building(t, [], tlen, 2, 1)
  {
  }

  lemma ChainNotEmpty(F: FatSeq, xs: seq<nat>)
    requires IsChain(F, xs)
    ensures xs != [] && Mapped(F, xs, 0, xs[0], [])
  {
    assert xs[..0] == [];
    NoFrags();
  }

  /** On a volume of one cluster a file whose entry holds 3 is a chain, and has no link map. */
  lemma UnluckyChain()
    ensures var F: FatSeq := [0xFF8, 0xFFF, 3]; IsChain(F, [2]) && NoOnes(F) && Unlucky(F, [2])
  {
    var F: FatSeq := [0xFF8, 0xFFF, 3];
    assert F[[2][0]] == 3;
  }

  /** Every chain that `create_chain` terminated has a link map. */
  lemma OwnMarksAreLucky(g: Geometry, F: FatSeq, xs: seq<nat>)
    requires IsChain(F, xs) && |F| == g.nFatent < MaxEntries(g.fsType)
    requires F[xs[|xs| - 1]] == Trunc(g.fsType, EOC)
    ensures !Unlucky(F, xs)
  {
  }

  lemma NotUnlucky(F: FatSeq, xs: seq<nat>)
    ensures xs == [] ==> !Unlucky(F, xs)
  {
  }

  lemma LastInRun(xs: seq<nat>, j: nat, len: nat, top: nat)
    requires j + len <= |xs| && len >= 1 && xs[j..j + len] == Consecutive(top, len)
    ensures xs[j + len - 1] == top + len - 1
  {
    assert xs[j..j + len][len - 1] == xs[j + len - 1];
  }
}
