/**
 Whole runs of creating and deleting objects in one directory: what each call does to the table,
 what every run keeps, and that deleting undoes creating.
 */
module DirRun {
  import opened Bits
  import opened Chains
  import opened Layout
  import opened Lfn
  import opened DirScan
  import opened DirNames
  import opened DirTable
  import opened DirWhole
  import opened DirModel

  /** A call: create the object with the long name of `n` characters in `lfn` and the short name `src`,
      or delete the object that a search finds. */
  datatype Op =
    | OpCreate(src: seq<Byte>, loss: bool, long: bool, nt: Byte, lfn: seq<Wchar>, n: nat)
    | OpUnlink(lfn: seq<Wchar>, src: seq<Byte>, loss: bool)

  /** What came of it: the object is, or was, at entry `at`; for a created one also the table before
      it was stored, stretched if needed, its short name, and the number of its entries. */
  datatype Out = Out(res: FResult, there: bool, at: nat, es: seq<DirEntry>, fn: seq<Byte>, nent: nat)

  ghost predicate Callable(op: Op) {
    match op
    case OpCreate(src, loss, long, _, lfn, n) =>
      NameOk(lfn, n) && 1 <= n && (loss ==> long) && |src| == 11 && src[0] != 0 && src[0] != DDEM
    case OpUnlink(lfn, src, _) => |lfn| == MAX_LFN + 1 && |src| == 11
  }

  /** What the call looks for. */
  function QueryOf(op: Op): Query {
    Query(true, op.lfn, op.src, op.loss)
  }

  /** Too many numbered names are taken, or nowhere are there enough free entries. */
  ghost predicate NoPlace(up: Upper, op: Op, o: Out)
    requires op.OpCreate?
  {
    || (op.loss && |op.src| == 11 && 0 in op.lfn && AllTaken(up, op.src, op.lfn, o.es, 99))
    || forall j: nat :: !FreeRun(o.es, o.nent, j)
  }

  ghost predicate Creates(up: Upper, T: seq<DirEntry>, op: Op, o: Out, U: seq<DirEntry>)
    requires op.OpCreate?
  {
    && NameOk(op.lfn, op.n) && 1 <= op.n && GoodQuery(QueryOf(op)) && Extended(T, o.es)
    && (o.res == FR_OK || o.res == FR_DENIED)
    && if o.there then o.res == FR_OK && U == T && Named(up, QueryOf(op), T, o.at)
       else
         && Unnamed(up, QueryOf(op), T)
         && |o.fn| == 11 && o.fn[0] != 0 && o.fn[0] != DDEM && o.nent == (if op.long then Fragments(op.n) + 1 else 1)
         && (o.res == FR_DENIED ==> U == o.es && NoPlace(up, op, o))
         && (o.res == FR_OK ==> FirstRun(o.es, o.nent, o.at))
         && (o.res == FR_OK ==> Registered(o.es, U, op.lfn, op.n, o.fn, op.nt, o.nent, o.at))
         && (o.res == FR_OK && (op.long ==> op.n <= 254) ==> Named(up, QueryOf(op), U, o.at))
  }

  ghost predicate Deletes(up: Upper, T: seq<DirEntry>, op: Op, o: Out, U: seq<DirEntry>) {
    && GoodQuery(QueryOf(op))
    && if o.res == FR_OK then
         && Named(up, QueryOf(op), T, o.at) && o.at < |T| && IsShort(T[o.at])
         && Removed(T, U, FirstOf(QueryOf(op), T, o.at), o.at)
       else o.res == FR_NO_FILE && U == T && Unnamed(up, QueryOf(op), T)
  }

  /** One call, from table `T` to table `U`. */
  ghost predicate Step(up: Upper, T: seq<DirEntry>, op: Op, o: Out, U: seq<DirEntry>) {
    |T| <= |U| <= MAX_INDEX && if op.OpCreate? then Creates(up, T, op, o, U) else Deletes(up, T, op, o, U)
  }

  /** The tables of a run of `ops` with the outcomes `outs`. */
  ghost predicate IsRun(up: Upper, trace: seq<seq<DirEntry>>, ops: seq<Op>, outs: seq<Out>) {
    && |trace| == |ops| + 1 == |outs| + 1
    && forall i :: 0 <= i < |ops| ==> Step(up, trace[i], ops[i], outs[i], trace[i + 1])
  }

  // ---- deleting undoes creating ----

  /** Creating an object and deleting it again, by the same name, leaves the entries in use that were
      in use before, exactly if it has a long name or none stood unfinished before its place. Then the
      name is gone again. */
  lemma CreateThenUnlink(up: Upper, T: seq<DirEntry>, U: seq<DirEntry>, V: seq<DirEntry>, op: Op, o: Out, un: Op,
                         p: Out)
    requires op.OpCreate? && !un.OpCreate? && QueryOf(un) == QueryOf(op) && Tidy(T)
    requires Step(up, T, op, o, U) && o.res == FR_OK && !o.there && (op.long ==> op.n <= 254)
    requires Step(up, U, un, p, V)
    ensures p.res == FR_OK && p.at == o.at
    ensures SameLive(o.es, V) <==> op.long || !Unfinished(o.es, o.at)
    ensures SameLive(o.es, V) ==> Unnamed(up, QueryOf(op), V)
  {
    hide *;
    var q := QueryOf(op);
    StepCreates(up, T, op, o, U);
    StepDeletes(up, U, un, p, V);
    QueryIs(op);
    TableSizes();
    NoLfnIs();
    NamedOnce(up, q, U, o.at, p.at);
    UnnamedIff(up, q, U);
    UnnamedIff(up, q, V);
    FragmentCount(op.n);
    TidyExtended(T, o.es);
    StillNotThere(up, q, T, o.es);
    RemoveUndoes(up, q, o.es, U, V, op.lfn, op.n, o.fn, op.nt, o.nent, o.at);
  }

  lemma QueryIs(op: Op)
    ensures QueryOf(op).hasLfn
  {
  }

  lemma NamedOnce(up: Upper, q: Query, es: seq<DirEntry>, j: nat, k: nat)
    requires Named(up, q, es, j)
    ensures Named(up, q, es, k) ==> k == j
    ensures GoodQuery(q) && Find(up, q, es) != NoFile
  {
    IsQueried(up, q, es, j);
    NamedIf(up, q, es, j);
    NamedIf(up, q, es, k);
    hide Find, Named;
  }

  lemma IsQueried(up: Upper, q: Query, es: seq<DirEntry>, j: nat)
    requires Named(up, q, es, j)
    ensures GoodQuery(q)
  {
    hide Carries;
  }

  lemma StepCreates(up: Upper, T: seq<DirEntry>, op: Op, o: Out, U: seq<DirEntry>)
    requires Step(up, T, op, o, U) && op.OpCreate? && o.res == FR_OK && !o.there && (op.long ==> op.n <= 254)
    ensures op.n >= 1 && GoodQuery(QueryOf(op)) && Extended(T, o.es) && Find(up, QueryOf(op), T) == NoFile
    ensures |o.fn| == 11 && o.fn[0] != 0 && o.fn[0] != DDEM && o.nent == if op.long then Fragments(op.n) + 1 else 1
    ensures FirstRun(o.es, o.nent, o.at) && Registered(o.es, U, op.lfn, op.n, o.fn, op.nt, o.nent, o.at)
    ensures Named(up, QueryOf(op), U, o.at) && |U| == |o.es| <= MAX_INDEX
  {
    UnnamedIff(up, QueryOf(op), T);
    hide Unnamed, Find, FirstRun, Extended, Fragments, IsFragment, Named, NameOk;
  }

  lemma StepDeletes(up: Upper, T: seq<DirEntry>, op: Op, o: Out, U: seq<DirEntry>)
    requires Step(up, T, op, o, U) && !op.OpCreate?
    ensures GoodQuery(QueryOf(op)) && |T| <= MAX_INDEX && (o.res == FR_OK || o.res == FR_NO_FILE)
    ensures o.res == FR_OK ==> Named(up, QueryOf(op), T, o.at) && o.at < |T| && IsShort(T[o.at])
    ensures o.res == FR_OK ==> Removed(T, U, FirstOf(QueryOf(op), T, o.at), o.at)
    ensures o.res == FR_NO_FILE ==> U == T && Unnamed(up, QueryOf(op), T)
  {
    hide Unnamed, Find, Removed, FirstOf, Named, IsShort;
  }

  /** ... always, in a directory whose long names are whole. */
  lemma CreateThenUnlinkRestores(up: Upper, T: seq<DirEntry>, U: seq<DirEntry>, V: seq<DirEntry>, op: Op, o: Out,
                                 un: Op, p: Out)
    requires op.OpCreate? && !un.OpCreate? && QueryOf(un) == QueryOf(op) && Tidy(T) && Complete(T)
    requires Step(up, T, op, o, U) && o.res == FR_OK && !o.there && (op.long ==> op.n <= 254)
    requires Step(up, U, un, p, V)
    ensures SameLive(o.es, V) && Unnamed(up, QueryOf(op), V)
  {
    hide *;
    StepCreates(up, T, op, o, U);
    CreateThenUnlink(up, T, U, V, op, o, un, p);
    CompleteExtended(T, o.es);
    RunIsFree(o.es, o.nent, o.at);
    if !op.long {
      NoneUnfinished(o.es, o.at);
    }
  }

  lemma RunIsFree(es: seq<DirEntry>, n: nat, j: nat)
    requires FirstRun(es, n, j) && n >= 1
    ensures j < |es| && IsFree(es[j])
  {
  }

  /** A name of 255 characters that is not stored as a short name can be created again and again. */
  lemma LongestIsNotThere(up: Upper, T: seq<DirEntry>, U: seq<DirEntry>, op: Op, o: Out)
    requires UpperOk(up) && op.OpCreate? && op.loss && op.long && op.n == 255 && Tidy(T)
    requires Step(up, T, op, o, U) && o.res == FR_OK && !o.there
    ensures Unnamed(up, QueryOf(op), U)
  {
    hide Unnamed, Find, FirstRun, Extended, IsFragment, Named, Holds, UpperOk;
    TidyExtended(T, o.es);
    UnnamedIff(up, QueryOf(op), T);
    UnnamedIff(up, QueryOf(op), U);
    StillNotThere(up, QueryOf(op), T, o.es);
    LongestIsNotNamed(up, QueryOf(op), o.es, U, op.lfn, 255, o.fn, op.nt, o.at);
  }

  // ---- what every run keeps ----

  /** A table as the calls keep it. */
  ghost predicate Sound(T: seq<DirEntry>) { Tidy(T) && DistinctNames(T) && Complete(T) }

  /** The object with the entries from `a` to `j` is taken away by the call. */
  predicate Takes(op: Op, o: Out, j: nat) { !op.OpCreate? && o.res == FR_OK && o.at == j }

  /** An object stays, entry by entry, through every call but the one that deletes it. */
  lemma StepKeepsObject(up: Upper, T: seq<DirEntry>, op: Op, o: Out, U: seq<DirEntry>, a: nat, j: nat)
    requires Step(up, T, op, o, U) && Object(T, a, j) && !Takes(op, o, j)
    ensures Object(U, a, j) && forall k :: a <= k <= j ==> U[k] == T[k]
  {
    hide *;
    ObjectIs(T, a, j);
    StepSize(up, T, op, o, U);
    if op.OpCreate? {
      StepCreated(up, T, op, o, U);
      if !o.there {
        ObjectInExtended(T, o.es, a, j);
        if o.res == FR_OK {
          ObjectOffRun(o.es, U, op.lfn, op.n, o.fn, op.nt, o.nent, o.at, a, j);
        }
      }
    } else {
      StepDeletes(up, T, op, o, U);
      TakesIs(op, o, j);
      TableSizes();
      NoLfnIs();
      if o.res == FR_OK {
        ObjectStays(QueryOf(op), T, U, o.at, a, j);
      }
    }
  }

  lemma TakesIs(op: Op, o: Out, j: nat)
    ensures Takes(op, o, j) <==> !op.OpCreate? && o.res == FR_OK && o.at == j
  {
  }

  lemma StepSize(up: Upper, T: seq<DirEntry>, op: Op, o: Out, U: seq<DirEntry>)
    requires Step(up, T, op, o, U)
    ensures |T| <= |U| <= MAX_INDEX
  {
  }

  lemma StepCreated(up: Upper, T: seq<DirEntry>, op: Op, o: Out, U: seq<DirEntry>)
    requires Step(up, T, op, o, U) && op.OpCreate?
    ensures Extended(T, o.es) && (o.there ==> U == T) && (o.res == FR_OK || o.res == FR_DENIED)
    ensures !o.there && o.res == FR_DENIED ==> U == o.es
    ensures !o.there && o.res == FR_OK ==>
      FirstRun(o.es, o.nent, o.at) && Registered(o.es, U, op.lfn, op.n, o.fn, op.nt, o.nent, o.at)
  {
    hide Unnamed, Find, FirstRun, Extended, Fragments, Registered, Named, NameOk;
  }

  lemma ObjectInExtended(T: seq<DirEntry>, es: seq<DirEntry>, a: nat, j: nat)
    requires Extended(T, es) && Object(T, a, j)
    ensures Object(es, a, j) && forall k :: a <= k <= j ==> es[k] == T[k]
  {
    ObjectKept(T, es, a, j);
    hide IsLong, IsShort, IsLast, Order, SumOf, BlankEntry;
  }

  /** Over a run an object stays as it is, until it is deleted itself. */
  lemma {:induction false} ObjectLives(up: Upper, trace: seq<seq<DirEntry>>, ops: seq<Op>, outs: seq<Out>, a: nat,
                                       j: nat, n: nat)
    requires IsRun(up, trace, ops, outs) && n <= |ops| && Object(trace[0], a, j)
    requires forall i :: 0 <= i < n ==> !Takes(ops[i], outs[i], j)
    ensures Object(trace[n], a, j) && forall k :: a <= k <= j ==> trace[n][k] == trace[0][k]
  {
    hide Step, Object, Takes;
    if n > 0 {
      ObjectLives(up, trace, ops, outs, a, j, n - 1);
      assert Step(up, trace[n - 1], ops[n - 1], outs[n - 1], trace[n - 1 + 1]);
      StepKeepsObject(up, trace[n - 1], ops[n - 1], outs[n - 1], trace[n], a, j);
      ObjectIs(trace[0], a, j);
      ObjectIs(trace[n - 1], a, j);
      ObjectIs(trace[n], a, j);
    }
  }

  // ---- on the volume ----

  /** One call on directory `d`. */
  method Do(d: Dir, op: Op) returns (res: FResult, ghost o: Out)
    requires d.Valid() && Callable(op) && Sound(d.Table())
    modifies d`xs, d`index, d`clust, d`sect, d`ofs, d.fs`wflag, d.fs`winsect, d.fs`disk, d.fs`img, d.fs`fat, d.fs.win
    modifies d.fs`freeClust, d.fs`fsiDirty, d.fs`lastClust
    ensures d.Valid() && Sound(d.Table()) && o.res == res
    ensures Step(d.up, old(d.Table()), op, o, d.Table())
    ensures old(d.fs.Counted()) ==> d.fs.Counted()
  {
    hide *;
    SoundIs(d.Table());
    CallableIs(op);
    ghost var T, F := d.Table(), d.fs.fat;
    TableBound(d);
    if op.OpCreate? {
      var there;
      ghost var es, fn, nent;
      res, there, es, fn, nent := d.Create(op.src, op.loss, op.long, op.nt, op.lfn, op.n);
      o := Out(res, there, d.index, es, fn, nent);
      IsNoPlace(d.up, op, o, d.fs.fat, d.xs);
      IsCreated(d.up, T, op, o, d.Table());
    } else {
      ghost var j;
      res, j := d.Unlink(QueryOf(op));
      d.CountedStays(F);
      o := Out(res, false, j, [], [], 0);
      IsDeleted(d.up, T, op, o, d.Table());
    }
    TableBound(d);
    SoundIs(d.Table());
    IsStep(d.up, T, op, o, d.Table());
  }

  /** Any run of calls: the table stays sound, and each call does what it says. */
  method Run(d: Dir, ops: seq<Op>) returns (rs: seq<FResult>, ghost trace: seq<seq<DirEntry>>, ghost outs: seq<Out>)
    requires d.Valid() && Sound(d.Table()) && forall op :: op in ops ==> Callable(op)
    modifies d`xs, d`index, d`clust, d`sect, d`ofs, d.fs`wflag, d.fs`winsect, d.fs`disk, d.fs`img, d.fs`fat, d.fs.win
    modifies d.fs`freeClust, d.fs`fsiDirty, d.fs`lastClust
    ensures d.Valid() && IsRun(d.up, trace, ops, outs) && |rs| == |ops|
    ensures trace[0] == old(d.Table()) && trace[|ops|] == d.Table()
    ensures forall i :: 0 <= i < |ops| ==> rs[i] == outs[i].res
    ensures forall i :: 0 <= i <= |ops| ==> Sound(trace[i])
    ensures old(d.fs.Counted()) ==> d.fs.Counted()
  {
    hide *;
    rs, trace, outs := [], [d.Table()], [];
    NoRun(d.up, d.Table());
    var i: nat := 0;
    while i < |ops|
      invariant i <= |ops| && d.Valid() && |trace| == i + 1 && |rs| == |outs| == i && IsRun(d.up, trace, ops[..i], outs)
      invariant trace[0] == old(d.Table()) && trace[i] == d.Table()
      invariant forall k :: 0 <= k < i ==> rs[k] == outs[k].res
      invariant forall k :: 0 <= k <= i ==> Sound(trace[k])
      invariant old(d.fs.Counted()) ==> d.fs.Counted()
    {
      ghost var o;
      var res;
      res, o := Do(d, ops[i]);
      LongerRun(d.up, trace, ops[..i], outs, ops[i], o, d.Table());
      assert ops[..i] + [ops[i]] == ops[..i + 1];
      rs, trace, outs, i := rs + [res], trace + [d.Table()], outs + [o], i + 1;
    }
    assert ops[..i] == ops;
  }

  lemma NoRun(up: Upper, T: seq<DirEntry>)
    ensures IsRun(up, [T], [], [])
  {
  }

  lemma LongerRun(up: Upper, trace: seq<seq<DirEntry>>, ops: seq<Op>, outs: seq<Out>, op: Op, o: Out, U: seq<DirEntry>)
    requires IsRun(up, trace, ops, outs) && Step(up, trace[|ops|], op, o, U)
    ensures IsRun(up, trace + [U], ops + [op], outs + [o])
  {
    hide Step;
  }

  lemma SoundIs(T: seq<DirEntry>)
    ensures Sound(T) <==> Tidy(T) && DistinctNames(T) && Complete(T)
  {
  }

  lemma CallableIs(op: Op)
    requires Callable(op)
    ensures op.OpCreate? ==>
      NameOk(op.lfn, op.n) && 1 <= op.n && (op.loss ==> op.long) && |op.src| == 11 && op.src[0] != 0
        && op.src[0] != DDEM
    ensures QueryOf(op) == Query(true, op.lfn, op.src, op.loss)
    ensures !op.OpCreate? ==> GoodQuery(QueryOf(op))
  {
    hide NameOk;
  }

  lemma TableBound(d: Dir)
    requires d.Valid()
    ensures |d.Table()| <= MAX_INDEX
  {
    hide *;
    d.TableIs();
    ReachIs(d.fs.g, d.xs);
  }

  lemma IsNoPlace(up: Upper, op: Op, o: Out, F: FatSeq, xs: seq<nat>)
    requires op.OpCreate?
    ensures |op.src| == 11 && 0 in op.lfn && op.loss && AllTaken(up, op.src, op.lfn, o.es, 99) ==> NoPlace(up, op, o)
    ensures NoRoom(F, xs, o.es, o.nent) ==> NoPlace(up, op, o)
  {
    hide AllTaken, FreeRun;
  }

  lemma IsCreated(up: Upper, T: seq<DirEntry>, op: Op, o: Out, U: seq<DirEntry>)
    requires op.OpCreate? && NameOk(op.lfn, op.n) && 1 <= op.n && GoodQuery(QueryOf(op)) && Extended(T, o.es)
    requires |U| == |o.es|
    requires o.res == FR_OK || o.res == FR_DENIED
    requires if o.there then o.res == FR_OK && U == T && Named(up, QueryOf(op), U, o.at)
      else Unnamed(up, QueryOf(op), T)
    requires |o.fn| == 11 && o.fn[0] != 0 && o.fn[0] != DDEM && o.nent == if op.long then Fragments(op.n) + 1 else 1
    requires o.res == FR_DENIED ==> U == o.es && NoPlace(up, op, o)
    requires o.res == FR_OK && !o.there ==>
      FirstRun(o.es, o.nent, o.at) && Registered(o.es, U, op.lfn, op.n, o.fn, op.nt, o.nent, o.at)
    requires o.res == FR_OK && (op.long ==> op.n <= 254) ==> Named(up, QueryOf(op), U, o.at)
    ensures Creates(up, T, op, o, U) && |T| <= |U|
  {
    hide Unnamed, Find, FirstRun, Fragments, Registered, Named, NameOk, GoodQuery, NoPlace;
  }

  lemma IsDeleted(up: Upper, T: seq<DirEntry>, op: Op, o: Out, U: seq<DirEntry>)
    requires GoodQuery(QueryOf(op))
    requires if o.res == FR_OK then
        Named(up, QueryOf(op), T, o.at) && o.at < |T| && IsShort(T[o.at])
        && Removed(T, U, FirstOf(QueryOf(op), T, o.at), o.at)
      else o.res == FR_NO_FILE && U == T && Unnamed(up, QueryOf(op), U)
    ensures Deletes(up, T, op, o, U) && |U| == |T|
  {
    hide Unnamed, Find, Named, FirstOf, IsShort;
  }

  lemma IsStep(up: Upper, T: seq<DirEntry>, op: Op, o: Out, U: seq<DirEntry>)
    requires |T| <= |U| <= MAX_INDEX && if op.OpCreate? then Creates(up, T, op, o, U) else Deletes(up, T, op, o, U)
    ensures Step(up, T, op, o, U)
  {
    hide Creates, Deletes;
  }
}
