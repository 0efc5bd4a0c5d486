/**
 Whole runs of `f_read`, `f_write`, `f_lseek` and `f_truncate` on one open file: each run
 is a run of a growable byte array with a cursor, and no other file is touched.
 */
module FileRun {
  import opened Bits
  import opened Layout
  import opened Chains
  import opened FileImage
  import opened FileUpdate
  import opened FileModel

  // ---- the abstract machine ----

  /** A byte array with a cursor; `full`: no cluster of the volume is free. */
  datatype Bytes = Bytes(content: seq<Byte>, pos: nat, full: bool)

  datatype Op = OpRead(want: nat) | OpWrite(data: seq<Byte>) | OpSeek(ofs: nat) | OpTruncate

  /** What a call reports: the result code, the bytes read, the number of bytes written. */
  datatype Out = Out(res: FResult, data: seq<Byte>, bw: nat)

  predicate Callable(op: Op) {
    match op
    case OpRead(_) => true
    case OpWrite(d) => |d| < DWORD_SIZE
    case OpSeek(ofs) => ofs < DWORD_SIZE
    case OpTruncate => true
  }

  function Least(a: nat, b: nat): nat {
    if a < b then a else b
  }

  /** Where a seek wants to go: a file not open for writing does not grow. */
  function Goal(w: bool, size: nat, ofs: nat): nat {
    if ofs > size && !w then size else ofs
  }

  /** One call on a file open for reading (`r`) and writing (`w`). */
  ghost predicate Step(r: bool, w: bool, a: Bytes, op: Op, out: Out, b: Bytes) {
    && a.pos <= |a.content| && b.pos <= |b.content|
    && match op
       case OpRead(want) =>
         var n := if r then Least(want, |a.content| - a.pos) else 0;
         && out == Out(if r then FR_OK else FR_DENIED, a.content[a.pos..a.pos + n], 0)
         && b == Bytes(a.content, a.pos + n, a.full)
       case OpWrite(d) =>
         && out.bw <= |d| && out == Out(if w then FR_OK else FR_DENIED, [], out.bw)
         && b == Bytes(Overwrite(a.content, a.pos, d[..out.bw]), a.pos + out.bw, b.full)
         // only at 4 GB, or past the old content on a full volume, less is written
         && (w && out.bw < |d| ==> (out.bw == 0 && a.pos + |d| >= DWORD_SIZE) || (b.full && |a.content| <= b.pos))
       case OpSeek(ofs) =>
         && out == Out(FR_OK, [], 0)
         && b.pos <= Goal(w, |a.content|, ofs)
         && (b.pos == Goal(w, |a.content|, ofs) || (b.full && |a.content| <= b.pos))
         && |b.content| == Max(|a.content|, b.pos)
         && a.content <= b.content
       case OpTruncate =>
         && out == Out(if w then FR_OK else FR_DENIED, [], 0)
         && b == Bytes(if w then a.content[..a.pos] else a.content, a.pos, b.full)
  }

  /** The states `trace` of a run of `ops` with the reports `outs`. */
  ghost predicate IsRun(r: bool, w: bool, trace: seq<Bytes>, ops: seq<Op>, outs: seq<Out>) {
    && |trace| == |ops| + 1 == |outs| + 1
    && forall i :: 0 <= i < |ops| ==> Step(r, w, trace[i], ops[i], outs[i], trace[i + 1])
  }

  lemma NoRun(r: bool, w: bool, a: Bytes)
    ensures IsRun(r, w, [a], [], [])
  {
  }

  lemma LongerRun(r: bool, w: bool, trace: seq<Bytes>, ops: seq<Op>, outs: seq<Out>, op: Op, out: Out, b: Bytes)
    requires IsRun(r, w, trace, ops, outs) && Step(r, w, trace[|ops|], op, out, b)
    ensures IsRun(r, w, trace + [b], ops + [op], outs + [out])
  {
  }

  /** Reading back what was written. */
  lemma ReadBack(trace: seq<Bytes>, d: seq<Byte>, want: nat, outs: seq<Out>)
    requires |trace| == 4 && IsRun(true, true, trace, [OpWrite(d), OpSeek(trace[0].pos), OpRead(want)], outs)
    requires outs[0].bw == |d| == want
    ensures outs[2].data == d
  {
    assert Step(true, true, trace[0], OpWrite(d), outs[0], trace[1]);
    assert Step(true, true, trace[1], OpSeek(trace[0].pos), outs[1], trace[2]);
    assert Step(true, true, trace[2], OpRead(want), outs[2], trace[3]);
    assert d[..|d|] == d;
    assert trace[2].content == trace[1].content;
  }

  /** Data that lies inside the file is written whole, on a full volume, too. */
  lemma InsideIsWhole(r: bool, a: Bytes, d: seq<Byte>, out: Out, b: Bytes)
    requires Step(r, true, a, OpWrite(d), out, b) && a.pos + |d| <= |a.content| < DWORD_SIZE
    ensures out == Out(FR_OK, [], |d|) && b.content == a.content[..a.pos] + d + a.content[a.pos + |d|..]
  {
    assert d[..|d|] == d;
  }

  /** Call `k` of the run overwrites byte `i`, or cuts it off. */
  ghost predicate Touches(a: Bytes, op: Op, out: Out, i: nat) {
    match op
    case OpRead(_) => false
    case OpWrite(_) => a.pos <= i < a.pos + out.bw
    case OpSeek(_) => false
    case OpTruncate => a.pos <= i
  }

  /** A byte changes only when it is written or cut off. */
  lemma {:induction false} Untouched(r: bool, w: bool, trace: seq<Bytes>, ops: seq<Op>, outs: seq<Out>, i: nat, n: nat)
    requires IsRun(r, w, trace, ops, outs) && n <= |ops| && i < |trace[0].content|
    requires forall k :: 0 <= k < n ==> !Touches(trace[k], ops[k], outs[k], i)
    ensures i < |trace[n].content| && trace[n].content[i] == trace[0].content[i]
  {
    if n > 0 {
      Untouched(r, w, trace, ops, outs, i, n - 1);
      assert Step(r, w, trace[n - 1], ops[n - 1], outs[n - 1], trace[n]);
      assert !Touches(trace[n - 1], ops[n - 1], outs[n - 1], i);
      if ops[n - 1].OpWrite? {
        OverwriteAt(trace[n - 1].content, trace[n - 1].pos, ops[n - 1].data[..outs[n - 1].bw], i);
      }
    }
  }

  // ---- other files ----

  /** `ys` is a chain of the volume that shares no cluster with the file's chain `xs`. */
  ghost predicate Foreign(F: FatSeq, xs: seq<nat>, ys: seq<nat>) {
    IsChain(F, ys) && forall c :: c in ys ==> c !in xs
  }

  /** The sectors of the clusters `ys` are the same in both images. */
  ghost predicate SameClusters(g: Geometry, a: Image, b: Image, ys: seq<nat>) {
    && |a| == |b|
    && forall s: nat :: s < |a| && g.database <= s && Owner(g, s) in ys ==> b[s] == a[s]
  }

  lemma SameClustersTrans(g: Geometry, a: Image, b: Image, c: Image, ys: seq<nat>)
    requires SameClusters(g, a, b, ys) && SameClusters(g, b, c, ys)
    ensures SameClusters(g, a, c, ys)
  {
  }

  lemma SameClustersRefl(g: Geometry, a: Image, ys: seq<nat>)
    ensures SameClusters(g, a, a, ys)
  {
  }

  /** Stretching a file leaves every other chain alone. */
  lemma ForeignGrown(F: FatSeq, G: FatSeq, xs: seq<nat>, zs: seq<nat>, ys: seq<nat>)
    requires Foreign(F, xs, ys) && FatGrown(F, G, xs, zs)
    ensures Foreign(G, zs, ys)
  {
    forall c | c in ys
      ensures c !in zs && G[c] == F[c]
    {
      if F[c] == 0 {
        NotFree(F, ys, c);
      }
    }
    KeepChain(F, G, ys);
  }

  /** Cutting a file leaves every other chain alone. */
  lemma ForeignCut(F: FatSeq, G: FatSeq, xs: seq<nat>, zs: seq<nat>, ys: seq<nat>)
    requires Foreign(F, xs, ys) && ChainCut(F, G, xs, zs)
    ensures Foreign(G, zs, ys)
  {
    KeepChain(F, G, ys);
  }

  /** Outside the FAT, the old chain and the new one nothing changes. */
  lemma ForeignSectors(v: FileView, w: FileView, F: FatSeq, G: FatSeq, ys: seq<nat>)
    requires SameOutsideFile(v, w) && Foreign(F, v.chain, ys) && Foreign(G, w.chain, ys)
    requires v.g.fatbase + FatSectors(v.g) <= v.g.database
    ensures SameClusters(v.g, v.img, w.img, ys)
  {
  }

  // ---- runs ----

  /** The abstract value of an open file. */
  ghost function Value(f: File): Bytes
    reads f, f.fs
  {
    Bytes(f.Content(), f.fptr, NoneFree(f.fs.fat))
  }

  /** Everything a run keeps: there is no link map, and `ys` is another file. */
  ghost predicate Keeps(f: File, ys: seq<nat>)
    reads f, f.fs, f.fs.win
  {
    f.Valid() && f.err == FR_OK && f.cltbl == null && Foreign(f.fs.fat, f.view.chain, ys)
  }

  lemma KeepsFacts(f: File, ys: seq<nat>)
    requires Keeps(f, ys)
    ensures f.Valid() && f.err == FR_OK && f.cltbl == null && Foreign(f.fs.fat, f.view.chain, ys)
    ensures f.view.g == f.fs.g && f.view.img == f.fs.img
    ensures f.view.g.fatbase + FatSectors(f.view.g) <= f.view.g.database
    ensures f.fptr <= |f.Content()| == f.fsize
  {
  }

  lemma IsKept(f: File, ys: seq<nat>)
    requires f.Valid() && f.err == FR_OK && f.cltbl == null && Foreign(f.fs.fat, f.view.chain, ys)
    ensures Keeps(f, ys)
  {
  }

  lemma ValueIs(f: File)
    ensures Value(f) == Bytes(f.Content(), f.fptr, NoneFree(f.fs.fat))
  {
  }

  lemma IsReadStep(r: bool, w: bool, a: Bytes, want: nat, res: FResult, data: seq<Byte>, b: Bytes)
    requires a.pos <= |a.content| && b.content == a.content && b.pos == a.pos + |data| <= |b.content|
    requires b.full == a.full
    requires !r ==> res == FR_DENIED && data == []
    requires r ==> res == FR_OK && |data| == Least(want, |a.content| - a.pos)
    requires data == a.content[a.pos..b.pos]
    ensures Step(r, w, a, OpRead(want), Out(res, data, 0), b)
  {
  }

  method CallRead(f: File, want: nat, ghost ys: seq<nat>) returns (out: Out)
    requires Keeps(f, ys)
    modifies f`clust, f`view, f`dirty, f`fptr, f`dsect, f`buf
    modifies f.fs`wflag, f.fs`winsect, f.fs`disk, f.fs`img, f.fs.win
    ensures Keeps(f, ys) && SameClusters(f.fs.g, old(f.fs.img), f.fs.img, ys)
    ensures Step(f.canRead, f.canWrite, old(Value(f)), OpRead(want), out, Value(f))
  {
    hide *;
    KeepsFacts(f, ys);
    ValueIs(f);
    ghost var v, F, a := f.view, f.fs.fat, Value(f);
    f.NoMap();
    var res, data := f.Read(want);
    out := Out(res, data, 0);
    SameIsGrown(v, f.view);
    SameFileFacts(v, f.view);
    OutsideGrown(v, f.view);
    IsKept(f, ys);
    KeepsFacts(f, ys);
    ForeignSectors(v, f.view, F, f.fs.fat, ys);
    ValueIs(f);
    LeastIs(want, |a.content| - a.pos);
    IsReadStep(f.canRead, f.canWrite, a, want, res, data, Value(f));
  }

  lemma LeastIs(a: nat, b: nat)
    ensures Least(a, b) == if a < b then a else b
  {
  }

  lemma OutsideGrown(v: FileView, w: FileView)
    requires Grown(v, w)
    ensures SameOutsideFile(v, w)
  {
  }

  lemma OutsideGrowth(v: FileView, F: FatSeq, w: FileView, G: FatSeq)
    requires Growth(v, F, w, G)
    ensures SameOutsideFile(v, w) && FatGrown(F, G, v.chain, w.chain)
  {
  }

  method CallWrite(f: File, d: seq<Byte>, ghost ys: seq<nat>) returns (out: Out)
    requires Keeps(f, ys) && |d| < DWORD_SIZE
    modifies f`clust, f`sclust, f`view, f`dirty, f`fptr, f`dsect, f`buf, f`fsize, f`written
    modifies f.fs`wflag, f.fs`winsect, f.fs`disk, f.fs`img, f.fs`fat, f.fs.win
    modifies f.fs`freeClust, f.fs`fsiDirty, f.fs`lastClust
    ensures Keeps(f, ys) && SameClusters(f.fs.g, old(f.fs.img), f.fs.img, ys)
    ensures Step(f.canRead, f.canWrite, old(Value(f)), OpWrite(d), out, Value(f))
    ensures old(f.fs.Counted()) ==> f.fs.Counted()
  {
    hide *;
    KeepsFacts(f, ys);
    ValueIs(f);
    ghost var v, F, a := f.view, f.fs.fat, Value(f);
    f.NoMap();
    var res, bw := f.Write(d);
    if f.Stuck() {
      f.StuckFacts();
    }
    out := Out(res, [], bw);
    ForeignGrown(F, f.fs.fat, v.chain, f.view.chain, ys);
    IsKept(f, ys);
    KeepsFacts(f, ys);
    ForeignSectors(v, f.view, F, f.fs.fat, ys);
    ValueIs(f);
    IsWriteStep(f.canRead, f.canWrite, a, d, res, bw, Value(f));
  }

  lemma IsWriteStep(r: bool, w: bool, a: Bytes, d: seq<Byte>, res: FResult, bw: nat, b: Bytes)
    requires a.pos <= |a.content| && bw <= |d| && b.pos == a.pos + bw <= |b.content|
    requires res == if w then FR_OK else FR_DENIED
    requires b.content == Overwrite(a.content, a.pos, d[..bw])
    requires w && bw < |d| ==> (bw == 0 && a.pos + |d| >= DWORD_SIZE) || (b.full && |a.content| <= b.pos)
    ensures Step(r, w, a, OpWrite(d), Out(res, [], bw), b)
  {
  }

  method CallSeek(f: File, ofs: nat, ghost ys: seq<nat>) returns (out: Out)
    requires Keeps(f, ys) && ofs < DWORD_SIZE
    modifies f`clust, f`sclust, f`view, f`dirty, f`fptr, f`dsect, f`buf, f`fsize, f`written
    modifies f.fs`wflag, f.fs`winsect, f.fs`disk, f.fs`img, f.fs`fat, f.fs.win
    modifies f.fs`freeClust, f.fs`fsiDirty, f.fs`lastClust
    ensures Keeps(f, ys) && SameClusters(f.fs.g, old(f.fs.img), f.fs.img, ys)
    ensures Step(f.canRead, f.canWrite, old(Value(f)), OpSeek(ofs), out, Value(f))
    ensures old(f.fs.Counted()) ==> f.fs.Counted()
  {
    hide *;
    KeepsFacts(f, ys);
    ValueIs(f);
    ghost var v, F, a := f.view, f.fs.fat, Value(f);
    var res;
    ghost var goal;
    res, goal := f.Seek(ofs);
    out := Out(res, [], 0);
    OutsideGrowth(v, F, f.view, f.fs.fat);
    GrowthFacts(v, F, f.view, f.fs.fat);
    ForeignGrown(F, f.fs.fat, v.chain, f.view.chain, ys);
    IsKept(f, ys);
    KeepsFacts(f, ys);
    ForeignSectors(v, f.view, F, f.fs.fat, ys);
    ValueIs(f);
    IsSeekStep(f.canRead, f.canWrite, a, ofs, goal, Value(f));
  }

  lemma IsSeekStep(r: bool, w: bool, a: Bytes, ofs: nat, goal: nat, b: Bytes)
    requires a.pos <= |a.content| && b.pos <= |b.content| == Max(|a.content|, b.pos)
    requires goal == if ofs > |a.content| && !w then |a.content| else ofs
    requires b.pos == goal || (b.full && |a.content| <= b.pos < goal)
    requires b.content[..|a.content|] == a.content
    ensures Step(r, w, a, OpSeek(ofs), Out(FR_OK, [], 0), b)
  {
  }

  method CallTruncate(f: File, ghost ys: seq<nat>) returns (out: Out)
    requires Keeps(f, ys)
    modifies f`sclust, f`view, f`dirty, f`fsize, f`written
    modifies f.fs`wflag, f.fs`winsect, f.fs`disk, f.fs`img, f.fs`fat, f.fs.win, f.fs`freeClust, f.fs`fsiDirty
    ensures Keeps(f, ys) && SameClusters(f.fs.g, old(f.fs.img), f.fs.img, ys)
    ensures Step(f.canRead, f.canWrite, old(Value(f)), OpTruncate, out, Value(f))
    ensures old(f.fs.Counted()) ==> f.fs.Counted()
  {
    hide *;
    KeepsFacts(f, ys);
    ValueIs(f);
    ghost var v, F, a := f.view, f.fs.fat, Value(f);
    var res := f.Truncate();
    out := Out(res, [], 0);
    ForeignCut(F, f.fs.fat, v.chain, f.view.chain, ys);
    IsKept(f, ys);
    KeepsFacts(f, ys);
    ForeignSectors(v, f.view, F, f.fs.fat, ys);
    ValueIs(f);
    IsTruncateStep(f.canRead, f.canWrite, a, Value(f));
  }

  lemma IsTruncateStep(r: bool, w: bool, a: Bytes, b: Bytes)
    requires a.pos <= |a.content| && b.pos == a.pos <= |b.content|
    requires b.content == a.content[..if w then a.pos else |a.content|]
    ensures Step(r, w, a, OpTruncate, Out(if w then FR_OK else FR_DENIED, [], 0), b)
  {
    assert a.content[..|a.content|] == a.content;
  }

  /** One call: a step of the byte array with a cursor. */
  method Call(f: File, op: Op, ghost ys: seq<nat>) returns (out: Out)
    requires Keeps(f, ys) && Callable(op)
    modifies f`clust, f`sclust, f`view, f`dirty, f`fptr, f`dsect, f`buf, f`fsize, f`written
    modifies f.fs`wflag, f.fs`winsect, f.fs`disk, f.fs`img, f.fs`fat, f.fs.win
    modifies f.fs`freeClust, f.fs`fsiDirty, f.fs`lastClust
    ensures Keeps(f, ys) && SameClusters(f.fs.g, old(f.fs.img), f.fs.img, ys)
    ensures Step(f.canRead, f.canWrite, old(Value(f)), op, out, Value(f))
    ensures old(f.fs.Counted()) ==> f.fs.Counted()
  {
    hide *;
    CallableFacts(op);
    match op {
      case OpRead(want) =>
        out := CallRead(f, want, ys);
        StillCounted(f);
      case OpWrite(d) =>
        out := CallWrite(f, d, ys);
      case OpSeek(ofs) =>
        out := CallSeek(f, ofs, ys);
      case OpTruncate =>
        out := CallTruncate(f, ys);
    }
  }

  lemma CallableFacts(op: Op)
    requires Callable(op)
    ensures op.OpWrite? ==> |op.data| < DWORD_SIZE
    ensures op.OpSeek? ==> op.ofs < DWORD_SIZE
  {
  }

  twostate lemma StillCounted(f: File)
    requires f.fs.fat == old(f.fs.fat) && f.fs.freeClust == old(f.fs.freeClust)
    ensures old(f.fs.Counted()) ==> f.fs.Counted()
  {
  }

  /** A run of calls on an open file `f`, beside another file `ys`: a run of the byte array
      with a cursor, after which the other file has its clusters and its sectors. */
  method Run(f: File, ops: seq<Op>, ghost ys: seq<nat>) returns (outs: seq<Out>, ghost trace: seq<Bytes>)
    requires Keeps(f, ys) && forall op :: op in ops ==> Callable(op)
    modifies f`clust, f`sclust, f`view, f`dirty, f`fptr, f`dsect, f`buf, f`fsize, f`written
    modifies f.fs`wflag, f.fs`winsect, f.fs`disk, f.fs`img, f.fs`fat, f.fs.win
    modifies f.fs`freeClust, f.fs`fsiDirty, f.fs`lastClust
    ensures Keeps(f, ys) && SameClusters(f.fs.g, old(f.fs.img), f.fs.img, ys)
    ensures IsRun(f.canRead, f.canWrite, trace, ops, outs)
    ensures |trace| > 0 && trace[0] == old(Value(f)) && trace[|trace| - 1] == Value(f)
    ensures old(f.fs.Counted()) ==> f.fs.Counted()
  {
    hide *;
    trace, outs := [Value(f)], [];
    NoRun(f.canRead, f.canWrite, Value(f));
    SameClustersRefl(f.fs.g, f.fs.img, ys);
    assert ops[..0] == [];
    for i := 0 to |ops|
      invariant Keeps(f, ys) && SameClusters(f.fs.g, old(f.fs.img), f.fs.img, ys)
      invariant |trace| == i + 1 && trace[0] == old(Value(f)) && trace[i] == Value(f)
      invariant IsRun(f.canRead, f.canWrite, trace, ops[..i], outs)
      invariant old(f.fs.Counted()) ==> f.fs.Counted()
    {
      ghost var m := f.fs.img;
      var out := Call(f, ops[i], ys);
      SameClustersTrans(f.fs.g, old(f.fs.img), m, f.fs.img, ys);
      LongerRun(f.canRead, f.canWrite, trace, ops[..i], outs, ops[i], out, Value(f));
      assert ops[..i + 1] == ops[..i] + [ops[i]];
      trace, outs := trace + [Value(f)], outs + [out];
    }
    assert ops[..|ops|] == ops;
  }
}
