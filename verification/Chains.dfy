/**
 Cluster chains in the FAT read as a map: entry `F[c]` is 0 for a free cluster,
 the successor of `c`, or a value of at least `|F|` for the last cluster.
 */
module Chains {

  type FatSeq = seq<nat>

  ghost predicate IsChain(F: FatSeq, xs: seq<nat>) {
    && |xs| > 0
    && (forall i :: 0 <= i < |xs| ==> 2 <= xs[i] < |F|)
    && (forall i :: 0 <= i < |xs| - 1 ==> F[xs[i]] == xs[i + 1])
    && F[xs[|xs| - 1]] >= |F|
  }

  /** The clusters in use. */
  ghost function Used(F: FatSeq): set<nat> {
    set c: nat | c < |F| && F[c] != 0
  }

  /** Chains are acyclic: they visit no cluster twice. */
  lemma {:induction false} Acyclic(F: FatSeq, xs: seq<nat>, i: nat, j: nat)
    requires IsChain(F, xs) && i < j < |xs|
    ensures xs[i] != xs[j]
    decreases |xs| - j
  {
    if xs[i] == xs[j] {
      assert F[xs[i]] == xs[i + 1];
      if j < |xs| - 1 {
        assert F[xs[j]] == xs[j + 1];
        Acyclic(F, xs, i + 1, j + 1);
      }
    }
  }

  lemma AllDistinct(F: FatSeq, xs: seq<nat>)
    requires IsChain(F, xs)
    ensures forall i, j :: 0 <= i < j < |xs| ==> xs[i] != xs[j]
  {
    forall i, j | 0 <= i < j < |xs|
      ensures xs[i] != xs[j]
    {
      Acyclic(F, xs, i, j);
    }
  }

  lemma LinkAt(F: FatSeq, xs: seq<nat>, i: nat)
    requires IsChain(F, xs) && i < |xs|
    ensures i < |xs| - 1 ==> F[xs[i]] == xs[i + 1]
    ensures F[xs[i]] >= |F| <==> i == |xs| - 1
  {
  }

  /** Chains that share a cluster share everything after it. */
  lemma {:induction false} SharedTail(F: FatSeq, xs: seq<nat>, i: nat, ys: seq<nat>, j: nat)
    requires IsChain(F, xs) && IsChain(F, ys) && i < |xs| && j < |ys| && xs[i] == ys[j]
    ensures xs[i..] == ys[j..]
    decreases |xs| - i
  {
    if i == |xs| - 1 {
      LinkAt(F, ys, j);
      assert j == |ys| - 1;
    } else {
      assert F[xs[i]] == xs[i + 1];
      LinkAt(F, ys, j);
      SharedTail(F, xs, i + 1, ys, j + 1);
      assert xs[i..] == [xs[i]] + xs[i + 1..];
      assert ys[j..] == [ys[j]] + ys[j + 1..];
    }
  }

  /** The map and the verdict after freeing from cluster `c` on, one link at a time. */
  ghost function FreeFrom(F: FatSeq, c: nat): (r: (FatSeq, bool))
    ensures |r.0| == |F|
    decreases Used(F)
  {
    if c >= |F| || F[c] == 0 then (F, true)
    else if F[c] == 1 then (F, false)
    else
      assert Used(F[c := 0]) == Used(F) - {c} && c in Used(F);
      FreeFrom(F[c := 0], F[c])
  }

  /** One step of freeing. */
  lemma FreeStep(F: FatSeq, c: nat)
    requires c < |F|
    ensures F[c] > 1 ==> FreeFrom(F, c) == FreeFrom(F[c := 0], F[c])
    ensures F[c] == 0 ==> FreeFrom(F, c) == (F, true)
    ensures F[c] == 1 ==> FreeFrom(F, c) == (F, false)
    ensures F[c] != 0 ==> Used(F[c := 0]) < Used(F)
  {
    if F[c] != 0 {
      assert Used(F[c := 0]) == Used(F) - {c} && c in Used(F);
    }
  }

  lemma FreeStop(F: FatSeq, c: nat)
    requires c >= |F|
    ensures FreeFrom(F, c) == (F, true)
  {
  }

  /** `F` with the clusters `xs` marked free. */
  ghost function Cleared(F: FatSeq, xs: seq<nat>): (r: FatSeq)
    ensures |r| == |F|
    ensures forall c :: 0 <= c < |F| ==> r[c] == if c in xs then 0 else F[c]
  {
    seq(|F|, c requires 0 <= c < |F| => if c in xs then 0 else F[c])
  }

  /** Freeing from the head of a chain frees exactly the chain. */
  lemma {:induction false} FreeChain(F: FatSeq, xs: seq<nat>)
    requires IsChain(F, xs)
    ensures FreeFrom(F, xs[0]) == (Cleared(F, xs), true)
    decreases |xs|
  {
    var c := xs[0];
    var G := F[c := 0];
    AllDistinct(F, xs);
    if |xs| == 1 {
      assert FreeFrom(G, F[c]) == (G, true);
      assert G == Cleared(F, xs);
    } else {
      var ys := xs[1..];
      assert F[c] == ys[0];
      assert IsChain(G, ys);
      FreeChain(G, ys);
      assert Cleared(G, ys) == Cleared(F, xs) by {
        assert xs == [c] + ys;
      }
    }
  }

  /** A walk along links, from cluster to cluster, over entries above 1. */
  ghost predicate Linked(F: FatSeq, p: seq<nat>) {
    && p != []
    && (forall i :: 0 <= i < |p| ==> p[i] < |F| && F[p[i]] > 1)
    && forall i :: 0 <= i < |p| - 1 ==> F[p[i]] == p[i + 1]
  }

  /** Cluster `d` is reached from `c`. */
  ghost predicate Reaches(F: FatSeq, c: nat, d: nat) {
    exists p :: Linked(F, p) && p[0] == c && p[|p| - 1] == d
  }

  /** The walk from `c` comes to an entry that is 1. */
  ghost predicate MeetsOne(F: FatSeq, c: nat) {
    (c < |F| && F[c] == 1) || exists d: nat :: Reaches(F, c, d) && F[d] < |F| && F[F[d]] == 1
  }

  /** A walk that ends elsewhere leaves `c` for good, so that it is one from the link of `c` on with
      `c` freed. */
  lemma {:induction false} LeavesForGood(F: FatSeq, p: seq<nat>, c: nat) returns (q: seq<nat>)
    requires Linked(F, p) && p[0] == c && p[|p| - 1] != c
    ensures c < |F| && Linked(F[c := 0], q) && q[0] == F[c] && q[|q| - 1] == p[|p| - 1]
    decreases |p|
  {
    if i: nat :| 1 <= i < |p| && p[i] == c {
      q := LeavesForGood(F, p[i..], c);
    } else {
      q := p[1..];
    }
  }

  /** What is reached from `c` is `c` and what is reached from its link, with `c` freed. */
  lemma ReachesNext(F: FatSeq, c: nat, d: nat)
    requires c < |F| && F[c] > 1
    ensures Reaches(F, c, d) <==> d == c || Reaches(F[c := 0], F[c], d)
  {
    if Reaches(F, c, d) && d != c {
      var p :| Linked(F, p) && p[0] == c && p[|p| - 1] == d;
      var q := LeavesForGood(F, p, c);
    }
    if d == c {
      assert Linked(F, [c]);
    }
    if Reaches(F[c := 0], F[c], d) {
      var q :| Linked(F[c := 0], q) && q[0] == F[c] && q[|q| - 1] == d;
      assert Linked(F, [c] + q);
    }
  }

  lemma ReachesNone(F: FatSeq, c: nat, d: nat)
    requires c >= |F| || F[c] <= 1
    ensures !Reaches(F, c, d)
  {
  }

  /** On any FAT, cyclic ones included, freeing frees exactly the clusters that are reached, and its
      verdict is whether no entry that is 1 is met. */
  lemma {:induction false} FreedIsReached(F: FatSeq, c: nat)
    ensures forall d: nat :: d < |F| ==> FreeFrom(F, c).0[d] == if Reaches(F, c, d) then 0 else F[d]
    ensures FreeFrom(F, c).1 <==> !MeetsOne(F, c)
    decreases Used(F)
  {
    hide Reaches;
    if c < |F| && F[c] > 1 {
      FreeStep(F, c);
      FreedIsReached(F[c := 0], F[c]);
      forall d: nat
        ensures Reaches(F, c, d) <==> d == c || Reaches(F[c := 0], F[c], d)
      {
        ReachesNext(F, c, d);
      }
      MeetsNext(F, c);
    } else {
      forall d: nat
        ensures !Reaches(F, c, d)
      {
        ReachesNone(F, c, d);
      }
    }
  }

  lemma MeetsNext(F: FatSeq, c: nat)
    requires c < |F| && F[c] > 1
    ensures MeetsOne(F, c) <==> MeetsOne(F[c := 0], F[c])
  {
    var G, e := F[c := 0], F[c];
    forall d: nat
      ensures Reaches(F, c, d) <==> d == c || Reaches(G, e, d)
      ensures Reaches(G, e, d) ==> d < |F| && d != c
      ensures Reaches(F, c, d) ==> d < |F|
    {
      ReachesNext(F, c, d);
      if Reaches(G, e, d) {
        ReachesUsed(G, e, d);
      }
      if Reaches(F, c, d) {
        ReachesUsed(F, c, d);
      }
    }
    hide Reaches;
    assert Reaches(F, c, c);
  }

  lemma ReachesUsed(F: FatSeq, c: nat, d: nat)
    requires Reaches(F, c, d)
    ensures d < |F| && F[d] > 1
  {
  }

  // ---- allocation ----

  /** How far the cyclic scan over the clusters `2..n-1` goes from `scl` to reach `c`. */
  function Distance(n: nat, scl: nat, c: nat): int {
    if c > scl then c - scl else c + n - 2 - scl
  }

  /** `ncl` is the first free cluster the scan from `scl` meets. */
  ghost predicate NextFit(F: FatSeq, scl: nat, ncl: nat) {
    && 2 <= ncl < |F| && F[ncl] == 0
    && forall c :: 2 <= c < |F| && Distance(|F|, scl, c) < Distance(|F|, scl, ncl) ==> F[c] > 1
  }

  ghost predicate NoneFree(F: FatSeq) {
    forall c :: 2 <= c < |F| ==> F[c] != 0
  }

  /** The scan from `scl` has passed up to `ncl`, and wrapped around or not. */
  ghost predicate Scanned(F: FatSeq, scl: nat, ncl: nat, wrapped: bool) {
    && (forall c :: scl < c < |F| && (wrapped || c <= ncl) ==> F[c] > 1)
    && (wrapped ==> forall c :: 2 <= c <= ncl && c < |F| ==> F[c] > 1)
  }

  /** A free cluster that ends the scan is the next fit. */
  lemma ScannedUpTo(F: FatSeq, scl: nat, ncl: nat, wrapped: bool)
    requires 1 <= scl < |F| && 2 <= ncl < |F| && F[ncl] == 0
    requires Scanned(F, scl, ncl - 1, wrapped)
    requires if wrapped then ncl <= scl else scl < ncl
    ensures NextFit(F, scl, ncl)
  {
  }

  lemma ScanStarts(F: FatSeq, scl: nat)
    ensures Scanned(F, scl, scl, false)
  {
  }

  lemma ScanStep(F: FatSeq, scl: nat, ncl: nat, wrapped: bool)
    requires 1 <= ncl < |F| && F[ncl] > 1 && Scanned(F, scl, ncl - 1, wrapped)
    ensures Scanned(F, scl, ncl, wrapped)
  {
  }

  lemma ScanWraps(F: FatSeq, scl: nat)
    requires |F| >= 1 && Scanned(F, scl, |F| - 1, false)
    ensures Scanned(F, scl, 1, true)
  {
  }

  /** A scan that passed every cluster proves that none is free. */
  lemma ScannedAll(F: FatSeq, scl: nat, last: nat)
    requires 1 <= scl <= last && Scanned(F, scl, last, true)
    ensures NoneFree(F)
  {
  }

  /** No entry has the value 1, which `get_fat` reserves for an internal error. */
  ghost predicate NoOnes(F: FatSeq) {
    forall c :: 2 <= c < |F| ==> F[c] != 1
  }

  lemma OneFound(F: FatSeq, c: nat)
    requires 2 <= c < |F| && F[c] == 1
    ensures !NoOnes(F)
  {
  }

  ghost predicate NoOnesBelow(F: FatSeq, k: nat) {
    forall c :: 2 <= c < |F| && c < k ==> F[c] != 1
  }

  lemma NoOnesStart(F: FatSeq)
    ensures NoOnesBelow(F, 2)
  {
  }

  lemma NoOnesNext(F: FatSeq, k: nat)
    requires k < |F| && NoOnesBelow(F, k) && F[k] != 1
    ensures NoOnesBelow(F, k + 1)
  {
  }

  lemma NoOnesAll(F: FatSeq)
    requires NoOnesBelow(F, |F|)
    ensures NoOnes(F)
  {
  }

  /** `F` with the free cluster `ncl` made a last link, after `clst` if that is not 0. */
  ghost function Allocated(F: FatSeq, clst: nat, ncl: nat, eoc: nat): (r: FatSeq)
    requires clst < |F| && ncl < |F|
    ensures |r| == |F|
  {
    if clst == 0 then F[ncl := eoc] else F[ncl := eoc][clst := ncl]
  }

  /** Where `create_chain` starts its scan among `n` entries. */
  function ScanStart(n: nat, clst: nat, hint: nat): nat {
    if clst != 0 then clst else if hint == 0 || hint >= n then 1 else hint
  }

  /** The result `ncl` of `create_chain` on `clst`, and the map it leaves. */
  ghost predicate CreateOutcome(F: FatSeq, G: FatSeq, clst: nat, hint: nat, ncl: nat, eoc: nat) {
    if clst != 0 && (clst == 1 || clst >= |F| || F[clst] < 2) then
      ncl == 1 && G == F
    else if clst != 0 && F[clst] < |F| then
      // an interior cluster: its successor, and nothing changes
      ncl == F[clst] && G == F
    else if ncl == 0 then NoneFree(F) && G == F
    else if ncl == 1 then !NoOnes(F) && G == F
    else NextFit(F, ScanStart(|F|, clst, hint), ncl) && G == Allocated(F, clst, ncl, eoc)
  }

  lemma NewChain(F: FatSeq, ncl: nat, eoc: nat)
    requires 2 <= ncl < |F| <= eoc
    ensures IsChain(Allocated(F, 0, ncl, eoc), [ncl])
  {
  }

  /** Stretching a chain appends exactly the new cluster. */
  lemma AppendChain(F: FatSeq, xs: seq<nat>, ncl: nat, eoc: nat)
    requires IsChain(F, xs) && 2 <= ncl < |F| <= eoc && F[ncl] == 0
    ensures IsChain(Allocated(F, xs[|xs| - 1], ncl, eoc), xs + [ncl])
    ensures ncl !in xs
  {
    AllDistinct(F, xs);
    NotFree(F, xs, ncl);
  }

  lemma NotFree(F: FatSeq, xs: seq<nat>, c: nat)
    requires IsChain(F, xs) && c < |F| && F[c] == 0
    ensures c !in xs
  {
    forall i | 0 <= i < |xs|
      ensures xs[i] != c
    {
      assert i < |xs| - 1 ==> F[xs[i]] == xs[i + 1];
    }
  }

  /** A chain none of whose entries changes stays a chain. */
  lemma KeepChain(F: FatSeq, G: FatSeq, ys: seq<nat>)
    requires IsChain(F, ys) && |F| == |G|
    requires forall c :: c in ys ==> G[c] == F[c]
    ensures IsChain(G, ys)
  {
    forall i | 0 <= i < |ys| - 1
      ensures G[ys[i]] == ys[i + 1]
    {
      assert ys[i] in ys;
    }
  }

  /** Cutting a chain after its first `k` clusters: the head stays a chain, and
      the rest is a chain of its own, ready to be freed. */
  lemma CutChain(F: FatSeq, xs: seq<nat>, k: nat, eoc: nat)
    requires IsChain(F, xs) && 1 <= k < |xs| && |F| <= eoc
    ensures F[xs[k - 1]] == xs[k]
    ensures IsChain(F[xs[k - 1] := eoc], xs[..k])
    ensures IsChain(F[xs[k - 1] := eoc], xs[k..])
  {
    AllDistinct(F, xs);
  }

  // ---- stretching ----

  /** The FAT changes only on the chain, which only takes in free clusters. */
  ghost predicate FatGrown(F: FatSeq, G: FatSeq, xs: seq<nat>, ys: seq<nat>) {
    && |G| == |F|
    && (forall c :: 0 <= c < |F| && c !in ys ==> G[c] == F[c])
    && (forall c :: 0 <= c < |F| && c in ys && c !in xs ==> F[c] == 0)
  }

  lemma FatGrownRefl(F: FatSeq, xs: seq<nat>)
    ensures FatGrown(F, F, xs, xs)
  {
  }

  lemma FatGrownTrans(F: FatSeq, G: FatSeq, H: FatSeq, xs: seq<nat>, ys: seq<nat>, zs: seq<nat>)
    requires FatGrown(F, G, xs, ys) && FatGrown(G, H, ys, zs) && xs <= ys <= zs
    ensures FatGrown(F, H, xs, zs)
  {
    forall c | 0 <= c < |F| && c in zs && c !in xs
      ensures F[c] == 0
    {
      if c !in ys {
        assert G[c] == F[c];
      }
    }
  }

  lemma NoOnesAllocated(F: FatSeq, clst: nat, ncl: nat, eoc: nat)
    requires NoOnes(F) && clst < |F| && 2 <= ncl < |F| && eoc >= 2
    ensures NoOnes(Allocated(F, clst, ncl, eoc))
  {
  }

  /** The chain after `create_chain` on its cluster `k` gave `ncl`. */
  function Stretched(xs: seq<nat>, k: nat, ncl: nat): seq<nat> {
    if k + 1 < |xs| || ncl == 0 then xs else xs + [ncl]
  }

  /** `create_chain` on cluster `k` of a chain: the next cluster, or a new last one. */
  lemma StretchChain(F: FatSeq, G: FatSeq, xs: seq<nat>, k: nat, hint: nat, ncl: nat, eoc: nat)
    requires IsChain(F, xs) && NoOnes(F) && k < |xs| && |F| <= eoc && 2 <= |F|
    requires CreateOutcome(F, G, xs[k], hint, ncl, eoc)
    ensures ncl != 1
    ensures ncl == 0 ==> k == |xs| - 1 && NoneFree(F) && G == F
    ensures var ys := Stretched(xs, k, ncl);
      && IsChain(G, ys) && NoOnes(G) && FatGrown(F, G, xs, ys)
      && (ncl != 0 ==> k + 1 < |ys| && ys[k + 1] == ncl >= 2)
      && (ys != xs ==> G != F)
  {
    LinkAt(F, xs, k);
    if k == |xs| - 1 && ncl > 1 {
      AppendChain(F, xs, ncl, eoc);
      NoOnesAllocated(F, xs[k], ncl, eoc);
    }
  }

  /** `create_chain` for a file without clusters. */
  lemma StartChain(F: FatSeq, G: FatSeq, hint: nat, ncl: nat, eoc: nat)
    requires NoOnes(F) && 2 <= |F| <= eoc
    requires CreateOutcome(F, G, 0, hint, ncl, eoc)
    ensures ncl != 1 && NoOnes(G)
    ensures ncl == 0 ==> NoneFree(F) && G == F
    ensures ncl != 0 ==> IsChain(G, [ncl]) && FatGrown(F, G, [], [ncl]) && G != F
  {
    if ncl > 1 {
      NewChain(F, ncl, eoc);
      NoOnesAllocated(F, 0, ncl, eoc);
    }
  }

  // ---- cutting ----

  /** From `F` to `G` the chain `xs` is cut to its prefix `ys` and the rest is freed. */
  ghost predicate ChainCut(F: FatSeq, G: FatSeq, xs: seq<nat>, ys: seq<nat>) {
    && ys <= xs && |G| == |F| && NoOnes(G)
    && (ys != [] ==> IsChain(G, ys))
    && (forall c :: 0 <= c < |F| && c !in xs ==> G[c] == F[c])
    && (forall c :: 0 <= c < |F| && c in xs && c !in ys ==> G[c] == 0)
  }

  lemma ChainCutFacts(F: FatSeq, G: FatSeq, xs: seq<nat>, ys: seq<nat>)
    requires ChainCut(F, G, xs, ys)
    ensures ys <= xs && |G| == |F| && NoOnes(G) && (ys != [] ==> IsChain(G, ys))
  {
  }

  /** Freeing from the first cluster. */
  lemma CutAll(F: FatSeq, xs: seq<nat>)
    requires IsChain(F, xs) && NoOnes(F)
    ensures FreeFrom(F, xs[0]).1 && ChainCut(F, FreeFrom(F, xs[0]).0, xs, [])
  {
    FreeChain(F, xs);
  }

  /** Marking cluster `k` as the last and freeing from the next one. */
  lemma CutAt(F: FatSeq, xs: seq<nat>, k: nat, eoc: nat)
    requires IsChain(F, xs) && NoOnes(F) && k + 1 < |xs| && 2 <= |F| <= eoc
    ensures F[xs[k]] == xs[k + 1] < |F|
    ensures var r := FreeFrom(F[xs[k] := eoc], xs[k + 1]);
      r.1 && ChainCut(F, r.0, xs, xs[..k + 1])
  {
    var M, ys, zs := F[xs[k] := eoc], xs[..k + 1], xs[k + 1..];
    CutChain(F, xs, k + 1, eoc);
    FreeChain(M, zs);
    HeadAndTail(F, xs, k + 1);
    hide NoOnes, FreeFrom;
    KeepChain(M, Cleared(M, zs), ys);
    hide IsChain;
    ClearedRest(F, xs, k, eoc);
  }

  lemma ClearedRest(F: FatSeq, xs: seq<nat>, k: nat, eoc: nat)
    requires k + 1 < |xs| && xs[k] < |F| && NoOnes(F) && 2 <= eoc
    requires var G := Cleared(F[xs[k] := eoc], xs[k + 1..]); IsChain(G, xs[..k + 1])
    ensures ChainCut(F, Cleared(F[xs[k] := eoc], xs[k + 1..]), xs, xs[..k + 1])
  {
    hide IsChain;
    assert xs == xs[..k + 1] + xs[k + 1..];
    assert xs[..k + 1][k] == xs[k];
  }

  lemma HeadAndTail(F: FatSeq, xs: seq<nat>, k: nat)
    requires IsChain(F, xs) && k <= |xs|
    ensures forall c :: c in xs[..k] ==> c !in xs[k..]
  {
    AllDistinct(F, xs);
    hide IsChain;
  }

  lemma CutNothing(F: FatSeq, xs: seq<nat>)
    requires NoOnes(F) && (xs != [] ==> IsChain(F, xs))
    ensures ChainCut(F, F, xs, xs)
  {
  }

  lemma FirstInRange(F: FatSeq, xs: seq<nat>)
    requires IsChain(F, xs)
    ensures 2 <= xs[0] < |F|
  {
  }

  lemma InChainRange(F: FatSeq, xs: seq<nat>, k: nat)
    requires IsChain(F, xs) && k < |xs|
    ensures 2 <= xs[k] < |F| && F[xs[k]] >= 2
  {
    LinkAt(F, xs, k);
  }

  // ---- free clusters ----

  /** The number of free clusters below `k`. */
  ghost function FreeBelow(F: FatSeq, k: nat): (r: nat)
    requires k <= |F|
    ensures r <= k
  {
    if k <= 2 then 0 else FreeBelow(F, k - 1) + if F[k - 1] == 0 then 1 else 0
  }

  ghost function FreeCount(F: FatSeq): nat { FreeBelow(F, |F|) }

  lemma {:induction false} FreeBelowUpdate(F: FatSeq, c: nat, v: nat, k: nat)
    requires 2 <= c < |F| && k <= |F|
    ensures FreeBelow(F[c := v], k) ==
      FreeBelow(F, k) + (if c < k then (if v == 0 then 1 else 0) - (if F[c] == 0 then 1 else 0) else 0)
  {
    if k > 2 {
      FreeBelowUpdate(F, c, v, k - 1);
    }
  }

  lemma FreeCountUpdate(F: FatSeq, c: nat, v: nat)
    requires 2 <= c < |F|
    ensures FreeCount(F[c := v]) ==
      FreeCount(F) + (if v == 0 then 1 else 0) - (if F[c] == 0 then 1 else 0)
  {
    FreeBelowUpdate(F, c, v, |F|);
  }

  // ---- by sets and order ----

  /** The count of free clusters is the number of those whose entry is 0. */
  lemma {:induction false} FreeBelowIs(F: FatSeq, k: nat)
    requires k <= |F|
    ensures FreeBelow(F, k) == |set c: nat | 2 <= c < k && F[c] == 0|
  {
    var now := set c: nat | 2 <= c < k && F[c] == 0;
    if k <= 2 {
      assert now == {};
    } else {
      FreeBelowIs(F, k - 1);
      var before := set c: nat | 2 <= c < k - 1 && F[c] == 0;
      assert now == if F[k - 1] == 0 then before + {k - 1} else before;
    }
  }

  lemma FreeCountIs(F: FatSeq)
    ensures FreeCount(F) == |set c: nat | 2 <= c < |F| && F[c] == 0|
  {
    FreeBelowIs(F, |F|);
  }

  /** Cluster `c` is the first free one behind `s`, or if there is none the first of all. */
  ghost predicate FirstFreeBehind(F: FatSeq, s: nat, c: nat) {
    && 2 <= c < |F| && F[c] == 0
    && if c > s then forall d :: s < d < c ==> F[d] != 0
       else (forall d :: s < d < |F| ==> F[d] != 0) && forall d :: 2 <= d < c ==> F[d] != 0
  }

  lemma NextFitIs(F: FatSeq, scl: nat, ncl: nat)
    requires 1 <= scl < |F| && NextFit(F, scl, ncl)
    ensures FirstFreeBehind(F, scl, ncl)
  {
    forall d | scl < d < |F| && (ncl <= scl || d < ncl)
      ensures F[d] != 0
    {
      assert Distance(|F|, scl, d) < Distance(|F|, scl, ncl);
    }
    forall d | 2 <= d < ncl && ncl <= scl
      ensures F[d] != 0
    {
      assert Distance(|F|, scl, d) < Distance(|F|, scl, ncl);
    }
  }

  /** A new cluster is the first free one behind the cluster to stretch, or behind the hint if a new chain is
      started and the hint is a cluster number, or else behind cluster 1. */
  lemma NewClusterIs(F: FatSeq, G: FatSeq, clst: nat, hint: nat, ncl: nat, eoc: nat)
    requires CreateOutcome(F, G, clst, hint, ncl, eoc) && G != F && |F| >= 2
    ensures clst != 0 ==> FirstFreeBehind(F, clst, ncl)
    ensures clst == 0 && 1 <= hint < |F| ==> FirstFreeBehind(F, hint, ncl)
    ensures clst == 0 && !(1 <= hint < |F|) ==> FirstFreeBehind(F, 1, ncl)
  {
    NextFitIs(F, if clst != 0 then clst else if 1 <= hint < |F| then hint else 1, ncl);
    hide NextFit, FirstFreeBehind, Allocated;
  }
}
