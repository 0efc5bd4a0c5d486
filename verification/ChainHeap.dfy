/**
 All the cluster chains of a volume, as a heap: what every run of `create_chain`,
 `remove_chain` and the cut in `f_truncate` keeps.
 */
module ChainHeap {
  import opened Layout
  import opened Chains
  import opened VolumeModel

  /** The chains of a volume by their first clusters. */
  type Heap = map<nat, seq<nat>>

  /** Cluster `c` is in a chain of the heap. */
  ghost predicate Held(h: Heap, c: nat) {
    exists s :: s in h && c in h[s]
  }

  /** Every entry of the heap is a chain of the FAT, and no two chains share a cluster. */
  ghost predicate Disjoint(F: FatSeq, h: Heap) {
    && (forall s :: s in h ==> IsChain(F, h[s]) && h[s][0] == s)
    && (forall s, t, c :: s in h && t in h && s != t && c in h[s] ==> c !in h[t])
  }

  /** No cluster is lost: the clusters in use are those in the chains. */
  ghost predicate Tiled(F: FatSeq, h: Heap) {
    forall c: nat :: 2 <= c < |F| ==> (F[c] != 0 <==> Held(h, c))
  }

  ghost predicate Sound(F: FatSeq, h: Heap) {
    NoOnes(F) && Disjoint(F, h) && Tiled(F, h)
  }

  // ---- all chains but one ----

  /** The chains other than `s` are chains of `G` that share no cluster. */
  ghost predicate Others(G: FatSeq, h: Heap, s: nat) {
    && (forall t :: t in h && t != s ==> IsChain(G, h[t]) && h[t][0] == t)
    && (forall t, u, c :: t in h && u in h && t != u && t != s && u != s && c in h[t] ==> c !in h[u])
  }

  /** `ys` shares no cluster with the chains other than `s`. */
  ghost predicate Apart(h: Heap, s: nat, ys: seq<nat>) {
    forall t, c :: t in h && t != s && c in ys ==> c !in h[t]
  }

  /** Where the entries of the other chains stay, they stay chains. */
  lemma OthersKept(F: FatSeq, G: FatSeq, h: Heap, s: nat)
    requires Disjoint(F, h) && |G| == |F|
    requires forall t, c :: t in h && t != s && c in h[t] && c < |F| ==> G[c] == F[c]
    ensures Others(G, h, s)
  {
    forall t | t in h && t != s
      ensures IsChain(G, h[t])
    {
      forall c | c in h[t]
        ensures c < |F| && G[c] == F[c]
      {
      }
      KeepChain(F, G, h[t]);
    }
    hide IsChain;
  }

  lemma Replaced(G: FatSeq, h: Heap, s: nat, ys: seq<nat>)
    requires Others(G, h, s) && Apart(h, s, ys) && IsChain(G, ys) && ys[0] == s
    ensures Disjoint(G, h[s := ys])
  {
  }

  lemma Dropped(G: FatSeq, h: Heap, s: nat)
    requires Others(G, h, s)
    ensures Disjoint(G, h - {s})
  {
    hide IsChain;
  }

  lemma HeldAfter(h: Heap, s: nat, ys: seq<nat>, c: nat)
    ensures Held(h[s := ys], c) <==> c in ys || exists t :: t in h && t != s && c in h[t]
  {
    var j := h[s := ys];
    assert s in j && j[s] == ys;
    if t :| t in h && t != s && c in h[t] {
      assert t in j && c in j[t];
    }
  }

  lemma FreeIsNotHeld(F: FatSeq, h: Heap, c: nat)
    requires Tiled(F, h) && 2 <= c < |F| && F[c] == 0
    ensures !Held(h, c)
  {
  }

  // ---- the operations ----

  /** A chain starting at a cluster that was free. */
  lemma AddChain(F: FatSeq, h: Heap, ncl: nat, eoc: nat)
    requires Sound(F, h) && 2 <= ncl < |F| <= eoc && F[ncl] == 0
    ensures !Held(h, ncl) && Sound(Allocated(F, 0, ncl, eoc), h[ncl := [ncl]])
  {
    var G, j := Allocated(F, 0, ncl, eoc), h[ncl := [ncl]];
    NewChain(F, ncl, eoc);
    FreeIsNotHeld(F, h, ncl);
    hide IsChain, Tiled;
    OthersKept(F, G, h, ncl);
    Replaced(G, h, ncl, [ncl]);
    forall c: nat
      ensures Held(j, c) <==> Held(h, c) || c == ncl
    {
      HeldAfter(h, ncl, [ncl], c);
      FirstHeld(F, h, ncl);
    }
    hide Disjoint, Others;
    AddTiled(F, h, ncl, eoc);
  }

  lemma FirstHeld(F: FatSeq, h: Heap, s: nat)
    requires Disjoint(F, h)
    ensures s in h ==> Held(h, s)
  {
    if s in h {
      assert s in h[s];
    }
  }

  lemma AddTiled(F: FatSeq, h: Heap, ncl: nat, eoc: nat)
    requires Tiled(F, h) && 2 <= ncl < |F| <= eoc && F[ncl] == 0
    requires forall c: nat :: Held(h[ncl := [ncl]], c) <==> Held(h, c) || c == ncl
    ensures Tiled(Allocated(F, 0, ncl, eoc), h[ncl := [ncl]])
  {
    hide Held;
  }

  /** Stretching chain `s` by a cluster that was free. */
  lemma StretchOne(F: FatSeq, h: Heap, s: nat, ncl: nat, eoc: nat)
    requires Sound(F, h) && s in h && 2 <= ncl < |F| <= eoc && F[ncl] == 0
    requires IsChain(F, h[s])
    ensures !Held(h, ncl)
    ensures Sound(Allocated(F, h[s][|h[s]| - 1], ncl, eoc), h[s := h[s] + [ncl]])
  {
    hide *;
    SoundFacts(F, h);
    FreeIsNotHeld(F, h, ncl);
    LastInRange(F, h[s]);
    StretchDisjoint(F, h, s, ncl, eoc);
    StretchHeld(h, s, ncl);
    StretchTiled(F, h, s, h[s][|h[s]| - 1], ncl, eoc);
    NoOnesAllocated(F, h[s][|h[s]| - 1], ncl, eoc);
    IsSound(Allocated(F, h[s][|h[s]| - 1], ncl, eoc), h[s := h[s] + [ncl]]);
  }

  lemma LastInRange(F: FatSeq, xs: seq<nat>)
    requires IsChain(F, xs)
    ensures xs != [] && 2 <= xs[|xs| - 1] < |F| && F[xs[|xs| - 1]] != 0
  {
  }

  lemma SoundFacts(F: FatSeq, h: Heap)
    requires Sound(F, h)
    ensures NoOnes(F) && Disjoint(F, h) && Tiled(F, h)
  {
  }

  lemma IsSound(F: FatSeq, h: Heap)
    requires NoOnes(F) && Disjoint(F, h) && Tiled(F, h)
    ensures Sound(F, h)
  {
  }

  lemma StretchHeld(h: Heap, s: nat, ncl: nat)
    requires s in h
    ensures forall c: nat :: Held(h[s := h[s] + [ncl]], c) <==> Held(h, c) || c == ncl
  {
    forall c: nat
      ensures Held(h[s := h[s] + [ncl]], c) <==> Held(h, c) || c == ncl
    {
      HeldAfter(h, s, h[s] + [ncl], c);
    }
  }

  lemma StretchDisjoint(F: FatSeq, h: Heap, s: nat, ncl: nat, eoc: nat)
    requires Disjoint(F, h) && s in h && 2 <= ncl < |F| <= eoc && F[ncl] == 0 && !Held(h, ncl)
    requires IsChain(F, h[s])
    ensures Disjoint(Allocated(F, h[s][|h[s]| - 1], ncl, eoc), h[s := h[s] + [ncl]])
  {
    var l := h[s][|h[s]| - 1];
    var G, ys := Allocated(F, l, ncl, eoc), h[s] + [ncl];
    AppendChain(F, h[s], ncl, eoc);
    assert l in h[s];
    hide IsChain;
    OthersKept(F, G, h, s);
    Replaced(G, h, s, ys);
  }

  lemma StretchTiled(F: FatSeq, h: Heap, s: nat, l: nat, ncl: nat, eoc: nat)
    requires Tiled(F, h) && s in h && 2 <= l < |F| && 2 <= ncl < |F| <= eoc && F[ncl] == 0 && F[l] != 0
    requires forall c: nat :: Held(h[s := h[s] + [ncl]], c) <==> Held(h, c) || c == ncl
    ensures Tiled(Allocated(F, l, ncl, eoc), h[s := h[s] + [ncl]])
  {
    hide Held;
  }

  /** Cutting chain `s` after `n` clusters; for 0 it goes. */
  function Cut(h: Heap, s: nat, n: nat): Heap
    requires s in h && n <= |h[s]|
  {
    if n == 0 then h - {s} else h[s := h[s][..n]]
  }

  /** A cut chain is the shorter chain, the rest is free. */
  lemma CutOne(F: FatSeq, G: FatSeq, h: Heap, s: nat, n: nat)
    requires Sound(F, h) && s in h && n <= |h[s]| && ChainCut(F, G, h[s], h[s][..n])
    ensures Sound(G, Cut(h, s, n))
  {
    var ys := h[s][..n];
    assert n > 0 ==> ys != [] && ys[0] == s;
    hide IsChain, NoOnes, Tiled;
    OthersKept(F, G, h, s);
    if n == 0 {
      Dropped(G, h, s);
    } else {
      Replaced(G, h, s, ys);
    }
    forall c: nat
      ensures Held(Cut(h, s, n), c) <==> Held(h, c) && (c in h[s] ==> c in ys)
    {
      CutHeld(F, h, s, n, c);
    }
    hide Disjoint, Others;
    CutTiled(F, G, h, s, n);
  }

  lemma CutHeld(F: FatSeq, h: Heap, s: nat, n: nat, c: nat)
    requires Disjoint(F, h) && s in h && n <= |h[s]|
    ensures Held(Cut(h, s, n), c) <==> Held(h, c) && (c in h[s] ==> c in h[s][..n])
  {
    hide IsChain;
    if n == 0 {
      if t :| t in h && t != s && c in h[t] {
        assert t in Cut(h, s, n) && c in Cut(h, s, n)[t];
      }
    } else {
      HeldAfter(h, s, h[s][..n], c);
    }
  }

  lemma CutTiled(F: FatSeq, G: FatSeq, h: Heap, s: nat, n: nat)
    requires Tiled(F, h) && s in h && n <= |h[s]| && ChainCut(F, G, h[s], h[s][..n])
    requires forall c: nat :: Held(Cut(h, s, n), c) <==> Held(h, c) && (c in h[s] ==> c in h[s][..n])
    ensures Tiled(G, Cut(h, s, n))
  {
    hide Cut;
    var ys := h[s][..n];
    forall c: nat | 2 <= c < |F|
      ensures G[c] != 0 <==> Held(Cut(h, s, n), c)
    {
      if c in h[s] {
        assert Held(h, c);
        if c in ys {
          KeptIsUsed(G, ys, c);
        }
      }
    }
  }

  lemma KeptIsUsed(G: FatSeq, ys: seq<nat>, c: nat)
    requires IsChain(G, ys) && c in ys
    ensures c < |G| && G[c] != 0
  {
    var i :| 0 <= i < |ys| && ys[i] == c;
    LinkAt(G, ys, i);
  }

  // ---- runs ----

  datatype HeapOp =
    | Create(c: nat)            // `create_chain` on cluster `c`, or on none if `c` is 0
    | Remove(c: nat)            // `remove_chain` from cluster `c` on
    | Truncate(c: nat)          // the cut in `f_truncate` after cluster `c`

  /** Cluster `c` is cluster `k` of chain `s`. */
  ghost predicate At(h: Heap, s: nat, k: nat, c: nat) {
    s in h && k < |h[s]| && h[s][k] == c
  }

  /** What the callers must see to: a removed chain is removed from its first cluster on. */
  ghost predicate Legal(h: Heap, op: HeapOp) {
    match op
    case Create(_) => true
    case Remove(c) => c in h || !Held(h, c)
    case Truncate(c) => Held(h, c)
  }

  /** One call on a volume of `n` FAT entries, with the result `r`. */
  ghost predicate HeapStep(n: nat, h: Heap, op: HeapOp, r: nat, j: Heap) {
    match op
    case Create(c) =>
      if r == 0 then
        // no cluster is free
        j == h && forall d: nat :: 2 <= d < n ==> Held(h, d)
      else if c == 0 then
        2 <= r < n && !Held(h, r) && j == h[r := [r]]
      else if !Held(h, c) then
        r == 1 && j == h
      else
        exists s: nat, k: nat :: At(h, s, k, c) &&
          if k + 1 < |h[s]| then r == h[s][k + 1] && j == h
          else 2 <= r < n && !Held(h, r) && j == h[s := h[s] + [r]]
    case Remove(c) => if c in h then r == 1 && j == h - {c} else j == h
    case Truncate(c) => exists s: nat, k: nat :: At(h, s, k, c) && r == 1 && j == h[s := h[s][..k + 1]]
  }

  lemma Locate(h: Heap, c: nat) returns (s: nat, k: nat)
    requires Held(h, c)
    ensures At(h, s, k, c)
  {
    s :| s in h && c in h[s];
    k :| 0 <= k < |h[s]| && h[s][k] == c;
  }

  lemma NoneFreeHeld(F: FatSeq, h: Heap)
    requires Tiled(F, h) && NoneFree(F)
    ensures forall d: nat :: 2 <= d < |F| ==> Held(h, d)
  {
    hide Held;
  }

  /** `create_chain` without a cluster. */
  lemma CreateNew(F: FatSeq, G: FatSeq, h: Heap, hint: nat, r: nat, eoc: nat) returns (j: Heap)
    requires Sound(F, h) && 2 <= |F| <= eoc && CreateOutcome(F, G, 0, hint, r, eoc)
    ensures Sound(G, j) && HeapStep(|F|, h, Create(0), r, j)
  {
    StartChain(F, G, hint, r, eoc);
    if r == 0 {
      j := h;
      NoneFreeHeld(F, h);
    } else {
      j := h[r := [r]];
      AddChain(F, h, r, eoc);
    }
  }

  /** `create_chain` on a cluster of a chain. */
  lemma CreateOn(F: FatSeq, G: FatSeq, h: Heap, c: nat, hint: nat, r: nat, eoc: nat) returns (j: Heap)
    requires Sound(F, h) && 2 <= |F| <= eoc && c != 0 && Held(h, c) && CreateOutcome(F, G, c, hint, r, eoc)
    ensures Sound(G, j) && HeapStep(|F|, h, Create(c), r, j)
  {
    var s, k := Locate(h, c);
    StretchChain(F, G, h[s], k, hint, r, eoc);
    LinkAt(F, h[s], k);
    j := h;
    if r == 0 {
      NoneFreeHeld(F, h);
    } else if k + 1 == |h[s]| {
      j := h[s := h[s] + [r]];
      StretchOne(F, h, s, r, eoc);
    }
  }

  /** `create_chain` on a cluster of no chain. */
  lemma CreateBad(F: FatSeq, G: FatSeq, h: Heap, c: nat, hint: nat, r: nat, eoc: nat)
    requires Sound(F, h) && c != 0 && !Held(h, c) && CreateOutcome(F, G, c, hint, r, eoc)
    ensures r == 1 && G == F && HeapStep(|F|, h, Create(c), r, h)
  {
  }

  method DoCreate(v: Volume, c: nat, ghost h: Heap) returns (r: nat, ghost j: Heap)
    requires v.Valid() && Sound(v.fat, h)
    modifies v`wflag, v`winsect, v`disk, v`img, v`fat, v.win, v`freeClust, v`fsiDirty, v`lastClust
    ensures v.Valid() && Sound(v.fat, j) && HeapStep(v.g.nFatent, h, Create(c), r, j)
    ensures SameOutsideFat(old(v.img), v.img, v.g)
    ensures old(v.Counted()) ==> v.Counted()
  {
    hide *;
    v.EndMark();
    ghost var F, eoc, hint := v.fat, Trunc(v.g.fsType, EOC), v.lastClust;
    r := v.CreateChain(c);
    if c == 0 {
      j := CreateNew(F, v.fat, h, hint, r, eoc);
    } else if Held(h, c) {
      j := CreateOn(F, v.fat, h, c, hint, r, eoc);
    } else {
      CreateBad(F, v.fat, h, c, hint, r, eoc);
      j := h;
    }
  }

  lemma RemoveHead(F: FatSeq, h: Heap, c: nat)
    requires Sound(F, h) && c in h
    ensures 2 <= c < |F| && FreeFrom(F, c).1 && Sound(FreeFrom(F, c).0, h - {c})
    ensures HeapStep(|F|, h, Remove(c), 1, h - {c})
  {
    CutAll(F, h[c]);
    assert h[c][..0] == [];
    CutOne(F, FreeFrom(F, c).0, h, c, 0);
  }

  lemma RemoveNone(F: FatSeq, h: Heap, c: nat)
    requires Sound(F, h) && c !in h && !Held(h, c)
    ensures 2 <= c < |F| ==> FreeFrom(F, c).0 == F
    ensures forall r: nat :: HeapStep(|F|, h, Remove(c), r, h)
  {
    if 2 <= c < |F| {
      FreeStep(F, c);
    }
  }

  method DoRemove(v: Volume, c: nat, ghost h: Heap) returns (r: nat, ghost j: Heap)
    requires v.Valid() && Sound(v.fat, h) && (c in h || !Held(h, c))
    modifies v`wflag, v`winsect, v`disk, v`img, v`fat, v.win, v`freeClust, v`fsiDirty
    ensures v.Valid() && Sound(v.fat, j) && HeapStep(v.g.nFatent, h, Remove(c), r, j)
    ensures SameOutsideFat(old(v.img), v.img, v.g)
    ensures old(v.Counted()) ==> v.Counted()
  {
    hide *;
    v.EndMark();
    ghost var F := v.fat;
    var ok := v.RemoveChain(c);
    r := if ok then 1 else 0;
    if c in h {
      RemoveHead(F, h, c);
      j := h - {c};
    } else {
      RemoveNone(F, h, c);
      j := h;
    }
  }

  lemma TruncateStep(F: FatSeq, G: FatSeq, h: Heap, s: nat, k: nat, c: nat)
    requires Sound(F, h) && At(h, s, k, c) && ChainCut(F, G, h[s], h[s][..k + 1])
    ensures Sound(G, h[s := h[s][..k + 1]]) && HeapStep(|F|, h, Truncate(c), 1, h[s := h[s][..k + 1]])
  {
    CutOne(F, G, h, s, k + 1);
  }

  lemma AtFacts(F: FatSeq, h: Heap, s: nat, k: nat, c: nat)
    requires Sound(F, h) && At(h, s, k, c)
    ensures NoOnes(F) && s in h && IsChain(F, h[s]) && k < |h[s]| && h[s][k] == c
  {
  }

  method DoTruncate(v: Volume, c: nat, ghost h: Heap) returns (r: nat, ghost j: Heap)
    requires v.Valid() && Sound(v.fat, h) && Held(h, c)
    modifies v`wflag, v`winsect, v`disk, v`img, v`fat, v.win, v`freeClust, v`fsiDirty
    ensures v.Valid() && Sound(v.fat, j) && HeapStep(v.g.nFatent, h, Truncate(c), r, j)
    ensures SameOutsideFat(old(v.img), v.img, v.g)
    ensures old(v.Counted()) ==> v.Counted()
  {
    hide *;
    v.EndMark();
    ghost var F := v.fat;
    ghost var s, k := Locate(h, c);
    AtFacts(F, h, s, k, c);
    var ok := v.CutAfter(c, h[s], k);
    assert ok;
    r := 1;
    j := h[s := h[s][..k + 1]];
    TruncateStep(F, v.fat, h, s, k, c);
  }

  method Do(v: Volume, op: HeapOp, ghost h: Heap) returns (r: nat, ghost j: Heap)
    requires v.Valid() && Sound(v.fat, h) && Legal(h, op)
    modifies v`wflag, v`winsect, v`disk, v`img, v`fat, v.win, v`freeClust, v`fsiDirty, v`lastClust
    ensures v.Valid() && Sound(v.fat, j) && HeapStep(v.g.nFatent, h, op, r, j)
    ensures SameOutsideFat(old(v.img), v.img, v.g)
    ensures old(v.Counted()) ==> v.Counted()
  {
    match op
    case Create(c) => r, j := DoCreate(v, c, h);
    case Remove(c) => r, j := DoRemove(v, c, h);
    case Truncate(c) => r, j := DoTruncate(v, c, h);
  }

  /** The heaps `trace` of a run of `ops` from `h` on with the results `rs`. */
  ghost predicate IsHeapRun(n: nat, h: Heap, trace: seq<Heap>, ops: seq<HeapOp>, rs: seq<nat>) {
    && |trace| == |ops| + 1 == |rs| + 1 && trace[0] == h
    && forall i :: 0 <= i < |ops| ==> HeapStep(n, trace[i], ops[i], rs[i], trace[i + 1])
  }

  /** The calls are those of a client that chooses each by the results so far. */
  ghost predicate Follows(next: seq<nat> -> HeapOp, ops: seq<HeapOp>, rs: seq<nat>) {
    |ops| == |rs| && forall i :: 0 <= i < |ops| ==> ops[i] == next(rs[..i])
  }

  /** However the run goes, each of the first `m` calls of the client is legal when its turn comes. */
  ghost predicate LegalClient(n: nat, h: Heap, next: seq<nat> -> HeapOp, m: nat) {
    forall trace, ops, rs ::
      IsHeapRun(n, h, trace, ops, rs) && Follows(next, ops, rs) && |rs| < m ==> Legal(trace[|rs|], next(rs))
  }

  lemma NoHeapRun(n: nat, h: Heap, next: seq<nat> -> HeapOp)
    ensures IsHeapRun(n, h, [h], [], []) && Follows(next, [], [])
  {
  }

  lemma LongerHeapRun(n: nat, h: Heap, trace: seq<Heap>, ops: seq<HeapOp>, rs: seq<nat>, op: HeapOp, r: nat, j: Heap)
    requires IsHeapRun(n, h, trace, ops, rs) && HeapStep(n, trace[|ops|], op, r, j)
    ensures IsHeapRun(n, h, trace + [j], ops + [op], rs + [r])
  {
    hide HeapStep;
  }

  lemma FollowsOn(next: seq<nat> -> HeapOp, ops: seq<HeapOp>, rs: seq<nat>, r: nat)
    requires Follows(next, ops, rs)
    ensures Follows(next, ops + [next(rs)], rs + [r])
  {
    forall i | 0 <= i < |ops| + 1
      ensures (ops + [next(rs)])[i] == next((rs + [r])[..i])
    {
      assert (rs + [r])[..i] == rs[..i];
      assert rs[..|rs|] == rs;
    }
  }

  lemma NextIsLegal(n: nat, h: Heap, next: seq<nat> -> HeapOp, m: nat,
                    trace: seq<Heap>, ops: seq<HeapOp>, rs: seq<nat>)
    requires LegalClient(n, h, next, m) && IsHeapRun(n, h, trace, ops, rs) && Follows(next, ops, rs) && |rs| < m
    ensures |trace| == |rs| + 1 && Legal(trace[|rs|], next(rs))
  {
    hide HeapStep, Legal, Follows;
  }

  /** A run of `m` calls of a client: the chains stay acyclic and disjoint, no cluster is lost, the
      count of free clusters stays accurate, and nothing outside the FAT changes. */
  method Run(v: Volume, next: seq<nat> -> HeapOp, m: nat, ghost h: Heap)
    returns (rs: seq<nat>, ghost ops: seq<HeapOp>, ghost trace: seq<Heap>)
    requires v.Valid() && Sound(v.fat, h) && LegalClient(v.g.nFatent, h, next, m)
    modifies v`wflag, v`winsect, v`disk, v`img, v`fat, v.win, v`freeClust, v`fsiDirty, v`lastClust
    ensures v.Valid() && |rs| == m && |trace| == m + 1 && Sound(v.fat, trace[m])
    ensures IsHeapRun(v.g.nFatent, h, trace, ops, rs) && Follows(next, ops, rs)
    ensures SameOutsideFat(old(v.img), v.img, v.g)
    ensures old(v.Counted()) ==> v.Counted()
  {
    hide *;
    rs, ops, trace := [], [], [h];
    NoHeapRun(v.g.nFatent, h, next);
    SameOutsideRefl(v.img, v.g);
    for i := 0 to m
      invariant v.Valid() && |trace| == i + 1 && |rs| == |ops| == i && Sound(v.fat, trace[i])
      invariant IsHeapRun(v.g.nFatent, h, trace, ops, rs) && Follows(next, ops, rs)
      invariant SameOutsideFat(old(v.img), v.img, v.g)
      invariant old(v.Counted()) ==> v.Counted()
    {
      NextIsLegal(v.g.nFatent, h, next, m, trace, ops, rs);
      var op := next(rs);
      ghost var before := v.img;
      ghost var j;
      var r;
      r, j := Do(v, op, trace[i]);
      SameOutsideTrans(old(v.img), before, v.img, v.g);
      LongerHeapRun(v.g.nFatent, h, trace, ops, rs, op, r, j);
      FollowsOn(next, ops, rs, r);
      rs, ops, trace := rs + [r], ops + [op], trace + [j];
    }
  }

  // ---- clients that are legal ----

  /** A call that names clusters by the earlier call that returned them. */
  datatype Turn =
    | Start             // start a chain
    | Stretch(i: nat)   // `create_chain` on the cluster that call `i` returned
    | Shorten(i: nat)   // cut the chain that call `i` started after its first cluster
    | Delete(i: nat)    // remove the chain that call `i` started

  /** Call `i` started a chain, and none of the calls before `k` removes it. */
  predicate Live(script: seq<Turn>, k: nat, i: nat)
    requires k <= |script|
  {
    i < k && script[i].Start? && forall j :: i < j < k ==> script[j] != Delete(i)
  }

  /** Chains are cut and removed only while they are there. */
  predicate Wellformed(script: seq<Turn>) {
    forall k :: 0 <= k < |script| ==>
      && (script[k].Shorten? || script[k].Delete? ==> Live(script, k, script[k].i))
      && (script[k].Stretch? ==> script[k].i < k)
  }

  /** The client that follows the script; where no cluster was free it tries to start a chain again. */
  function Scripted(script: seq<Turn>, rs: seq<nat>): HeapOp {
    var k := |rs|;
    if k >= |script| || script[k].Start? || script[k].i >= k || rs[script[k].i] == 0 then Create(0)
    else if script[k].Stretch? then Create(rs[script[k].i])
    else if script[k].Shorten? then Truncate(rs[script[k].i])
    else Remove(rs[script[k].i])
  }

  /** Chains go by their first clusters. */
  ghost predicate Headed(h: Heap) {
    forall s :: s in h ==> h[s] != [] && h[s][0] == s
  }

  lemma SoundIsHeaded(F: FatSeq, h: Heap)
    requires Sound(F, h)
    ensures Headed(h)
  {
  }

  /** A call keeps every chain but the one it removes. */
  lemma HeadsStay(n: nat, h: Heap, op: HeapOp, r: nat, j: Heap)
    requires Headed(h) && HeapStep(n, h, op, r, j)
    ensures Headed(j) && forall c :: c in h && op != Remove(c) ==> c in j
    ensures op == Create(0) && r != 0 ==> r in j && r !in h
  {
    if op == Create(0) && r in h {
      assert h[r][0] == r && Held(h, r);
    }
  }

  /** The chains that are live are there, under different names. */
  ghost predicate Names(script: seq<Turn>, h: Heap, rs: seq<nat>)
    requires |rs| <= |script|
  {
    && (forall i: nat :: Live(script, |rs|, i) && rs[i] != 0 ==> rs[i] in h)
    && forall i: nat, j: nat ::
      Live(script, |rs|, i) && Live(script, |rs|, j) && i != j && rs[i] != 0 ==> rs[i] != rs[j]
  }

  lemma NamesStay(n: nat, script: seq<Turn>, h: Heap, rs: seq<nat>, r: nat, j: Heap)
    requires Wellformed(script) && |rs| < |script| && Headed(h) && Names(script, h, rs)
    requires HeapStep(n, h, Scripted(script, rs), r, j)
    ensures Headed(j) && Names(script, j, rs + [r])
  {
    var k, op, ss := |rs|, Scripted(script, rs), rs + [r];
    HeadsStay(n, h, op, r, j);
    hide HeapStep, Headed;
    assert script[k].Delete? ==> Live(script, k, script[k].i);
    forall i: nat | Live(script, k + 1, i) && i < k
      ensures Live(script, k, i) && ss[i] == rs[i] && (rs[i] != 0 ==> op != Remove(rs[i]))
    {
      assert script[k] != Delete(i);
    }
    assert Live(script, k + 1, k) ==> op == Create(0) && ss[k] == r;
  }

  lemma {:induction false} NamesKept(n: nat, script: seq<Turn>, h: Heap, next: seq<nat> -> HeapOp,
                                     trace: seq<Heap>, ops: seq<HeapOp>, rs: seq<nat>, k: nat)
    requires Wellformed(script) && Headed(h) && IsHeapRun(n, h, trace, ops, rs) && Follows(next, ops, rs)
    requires k <= |rs| <= |script| && forall qs: seq<nat> :: next(qs) == Scripted(script, qs)
    ensures Headed(trace[k]) && Names(script, trace[k], rs[..k])
  {
    hide HeapStep, Scripted;
    if k > 0 {
      NamesKept(n, script, h, next, trace, ops, rs, k - 1);
      assert HeapStep(n, trace[k - 1], ops[k - 1], rs[k - 1], trace[k - 1 + 1]);
      assert ops[k - 1] == next(rs[..k - 1]);
      NamesStay(n, script, trace[k - 1], rs[..k - 1], rs[k - 1], trace[k]);
      assert rs[..k - 1] + [rs[k - 1]] == rs[..k];
    }
  }

  /** Every well-formed script is legal, on any volume, full ones included. */
  lemma ScriptIsLegal(n: nat, script: seq<Turn>, h: Heap, next: seq<nat> -> HeapOp)
    requires Wellformed(script) && Headed(h) && forall qs: seq<nat> :: next(qs) == Scripted(script, qs)
    ensures LegalClient(n, h, next, |script|)
  {
    forall trace, ops, rs | IsHeapRun(n, h, trace, ops, rs) && Follows(next, ops, rs) && |rs| < |script|
      ensures Legal(trace[|rs|], next(rs))
    {
      var k := |rs|;
      NamesKept(n, script, h, next, trace, ops, rs, k);
      assert rs[..k] == rs;
      NamedIsLegal(script, trace[k], rs);
    }
  }

  lemma NamedIsLegal(script: seq<Turn>, h: Heap, rs: seq<nat>)
    requires Wellformed(script) && |rs| < |script| && Headed(h) && Names(script, h, rs)
    ensures Legal(h, Scripted(script, rs))
  {
    var t := script[|rs|];
    if (t.Shorten? || t.Delete?) && rs[t.i] != 0 {
      assert Live(script, |rs|, t.i);
      assert h[rs[t.i]][0] == rs[t.i];
    }
  }

  /** A file that is made, stretched and cut, and a second one that is made in between and deleted. */
  lemma TwoFiles()
    ensures Wellformed([Start, Stretch(0), Start, Stretch(2), Shorten(0), Delete(2), Stretch(0), Delete(0)])
  {
  }

  /** The run of a script. */
  method RunScript(v: Volume, script: seq<Turn>, ghost h: Heap)
    returns (rs: seq<nat>, ghost ops: seq<HeapOp>, ghost trace: seq<Heap>)
    requires v.Valid() && Sound(v.fat, h) && Wellformed(script)
    modifies v`wflag, v`winsect, v`disk, v`img, v`fat, v.win, v`freeClust, v`fsiDirty, v`lastClust
    ensures v.Valid() && |rs| == |ops| == |script| && |trace| == |script| + 1 && Sound(v.fat, trace[|script|])
    ensures IsHeapRun(v.g.nFatent, h, trace, ops, rs)
    ensures forall i :: 0 <= i < |ops| ==> ops[i] == Scripted(script, rs[..i])
    ensures SameOutsideFat(old(v.img), v.img, v.g)
    ensures old(v.Counted()) ==> v.Counted()
  {
    hide *;
    SoundIsHeaded(v.fat, h);
    var next := (qs: seq<nat>) => Scripted(script, qs);
    ScriptIsLegal(v.g.nFatent, script, h, next);
    rs, ops, trace := Run(v, next, |script|, h);
    FollowsFacts(next, ops, rs);
  }

  lemma FollowsFacts(next: seq<nat> -> HeapOp, ops: seq<HeapOp>, rs: seq<nat>)
    requires Follows(next, ops, rs)
    ensures |ops| == |rs| && forall i :: 0 <= i < |ops| ==> ops[i] == next(rs[..i])
  {
  }
}
