/**
 Whole runs on an open file with a link map: each run is that of a byte array of fixed capacity with
 a cursor, call by call the same result, and the FAT is not written.
 */
module FastRun {
  import opened Bits
  import opened Layout
  import opened Chains
  import opened FileImage
  import opened FileUpdate
  import opened FileSeek
  import opened FileModel
  import opened FileRun
  import Clmt

  // ---- the abstract machine ----

  /** A byte array with a cursor. */
  datatype Tape = Tape(content: seq<Byte>, pos: nat)

  /** The bytes a write of `n` bytes at `pos` gets through, where there is room for `cap`. */
  function Taken(cap: nat, pos: nat, n: nat): nat {
    if pos + n >= DWORD_SIZE || cap < pos then 0 else Least(n, cap - pos)
  }

  /** The bytes a call reads or writes. */
  function Amount(r: bool, w: bool, cap: nat, a: Tape, op: Op): nat {
    if op.OpRead? && r && a.pos <= |a.content| then Least(op.want, |a.content| - a.pos)
    else if op.OpWrite? && w then Taken(cap, a.pos, |op.data|)
    else 0
  }

  /** What a call reports. */
  function Report(r: bool, w: bool, cap: nat, a: Tape, op: Op): Out
    requires a.pos <= |a.content|
  {
    var n := Amount(r, w, cap, a, op);
    if op.OpRead? then Out(if r then FR_OK else FR_DENIED, a.content[a.pos..a.pos + n], 0)
    else if op.OpWrite? then Out(if w then FR_OK else FR_DENIED, [], n)
    else Out(FR_OK, [], 0)
  }

  /** What a call leaves. */
  function Next(r: bool, w: bool, cap: nat, a: Tape, op: Op): (b: Tape)
    requires a.pos <= |a.content|
    ensures b.pos <= |b.content|
  {
    var n := Amount(r, w, cap, a, op);
    if op.OpRead? then Tape(a.content, a.pos + n)
    else if op.OpWrite? then Tape(Overwrite(a.content, a.pos, op.data[..n]), a.pos + n)
    else if op.OpSeek? then Tape(a.content, Least(op.ofs, |a.content|))
    else a
  }

  /** After the first `k` calls. */
  function After(r: bool, w: bool, cap: nat, a: Tape, ops: seq<Op>, k: nat): (b: Tape)
    requires a.pos <= |a.content| && k <= |ops|
    ensures b.pos <= |b.content|
  {
    if k == 0 then a else Next(r, w, cap, After(r, w, cap, a, ops, k - 1), ops[k - 1])
  }

  /** A call with a link map is one without it, on a volume that is not full, exactly if it would not
      stretch the file: no seek past the end, no write past the last cluster. */
  lemma FastIsStep(r: bool, w: bool, cap: nat, a: Tape, op: Op)
    requires a.pos <= |a.content| <= cap && !op.OpTruncate?
    ensures var b := Next(r, w, cap, a, op);
      Step(r, w, Bytes(a.content, a.pos, false), op, Report(r, w, cap, a, op), Bytes(b.content, b.pos, false)) <==>
        !w || if op.OpSeek? then op.ofs <= |a.content|
              else op.OpWrite? ==> a.pos + |op.data| >= DWORD_SIZE || a.pos + |op.data| <= cap
  {
    if op.OpWrite? {
      assert op.data[..0] == [];
    }
  }

  /** It never overwrites more than it would without a link map, and a full volume explains what
      is left out, if no seek goes past the end. */
  lemma FastIsFullStep(r: bool, w: bool, cap: nat, a: Tape, op: Op)
    requires a.pos <= |a.content| <= cap && !op.OpTruncate?
    requires op.OpSeek? && w ==> op.ofs <= |a.content|
    ensures var b := Next(r, w, cap, a, op);
      Step(r, w, Bytes(a.content, a.pos, true), op, Report(r, w, cap, a, op), Bytes(b.content, b.pos, true))
  {
  }

  // ---- one call ----

  /** `f` has the link map of its chain, which is `chain`, in the FAT `F`; `ys` is another file. */
  ghost predicate Keeps(f: File, chain: seq<nat>, F: FatSeq, ys: seq<nat>)
    reads f, f.fs, f.fs.win, f.cltbl
  {
    && f.Valid() && f.err == FR_OK && f.cltbl != null && f.MapOk() && f.MapCurrent()
    && f.view.chain == chain != [] && f.fs.fat == F && Foreign(F, chain, ys)
  }

  lemma KeepsFacts(f: File, chain: seq<nat>, F: FatSeq, ys: seq<nat>)
    requires Keeps(f, chain, F, ys)
    ensures f.Valid() && f.err == FR_OK && f.cltbl != null && f.MapOk() && f.MapCurrent()
    ensures f.view.chain == chain != [] && f.fs.fat == F && Foreign(F, chain, ys)
    ensures f.view.g == f.fs.g && f.view.img == f.fs.img
    ensures f.view.g.fatbase + FatSectors(f.view.g) <= f.view.g.database && f.view.g.csize >= 1
    ensures f.fptr <= |f.Content()| == f.fsize && CoversSize(f.view.g, f.view.chain, f.fsize)
  {
  }

  lemma IsKept(f: File, chain: seq<nat>, F: FatSeq, ys: seq<nat>)
    requires f.Valid() && f.err == FR_OK && f.cltbl != null && f.MapOk() && f.MapCurrent()
    requires f.view.chain == chain != [] && f.fs.fat == F && Foreign(F, chain, ys)
    ensures Keeps(f, chain, F, ys)
  {
  }

  ghost function Value(f: File): Tape
    reads f, f.fs
  {
    Tape(f.Content(), f.fptr)
  }

  lemma ValueIs(f: File)
    ensures Value(f) == Tape(f.Content(), f.fptr)
  {
  }

  /** The room in the clusters of the file. */
  ghost function Room(g: Geometry, chain: seq<nat>): nat {
    ClusterBytes(g) * |chain|
  }

  lemma RoomIs(g: Geometry, chain: seq<nat>)
    ensures Room(g, chain) == ClusterBytes(g) * |chain|
  {
  }

  /** The call takes `a` to `b`. */
  ghost predicate Does(r: bool, w: bool, cap: nat, a: Tape, op: Op, out: Out, b: Tape) {
    a.pos <= |a.content| && out == Report(r, w, cap, a, op) && b == Next(r, w, cap, a, op)
  }

  method CallRead(f: File, want: nat, ghost chain: seq<nat>, ghost F: FatSeq, ghost ys: seq<nat>) returns (out: Out)
    requires Keeps(f, chain, F, ys)
    modifies f`clust, f`view, f`dirty, f`fptr, f`dsect, f`buf
    modifies f.fs`wflag, f.fs`winsect, f.fs`disk, f.fs`img, f.fs.win
    ensures Keeps(f, chain, F, ys) && SameClusters(f.fs.g, old(f.fs.img), f.fs.img, ys)
    ensures Does(f.canRead, f.canWrite, Room(f.fs.g, chain), old(Value(f)), OpRead(want), out, Value(f))
  {
    hide *;
    KeepsFacts(f, chain, F, ys);
    ValueIs(f);
    ghost var v, a := f.view, Value(f);
    var res, data := f.Read(want);
    out := Out(res, data, 0);
    SameIsGrown(v, f.view);
    SameFileFacts(v, f.view);
    OutsideGrown(v, f.view);
    IsKept(f, chain, F, ys);
    KeepsFacts(f, chain, F, ys);
    ForeignSectors(v, f.view, F, F, ys);
    ValueIs(f);
    LeastIs(want, |a.content| - a.pos);
    DoesRead(f.canRead, f.canWrite, Room(f.fs.g, chain), a, want, res, data, Value(f));
  }

  lemma DoesRead(r: bool, w: bool, cap: nat, a: Tape, want: nat, res: FResult, data: seq<Byte>, b: Tape)
    requires a.pos <= |a.content| && b == Tape(a.content, a.pos + |data|) && b.pos <= |b.content|
    requires !r ==> res == FR_DENIED && data == []
    requires r ==> res == FR_OK && |data| == Least(want, |a.content| - a.pos)
    requires data == a.content[a.pos..b.pos]
    ensures Does(r, w, cap, a, OpRead(want), Out(res, data, 0), b)
  {
  }

  method CallWrite(f: File, d: seq<Byte>, ghost chain: seq<nat>, ghost F: FatSeq, ghost ys: seq<nat>)
    returns (out: Out)
    requires Keeps(f, chain, F, ys) && |d| < DWORD_SIZE
    modifies f`clust, f`sclust, f`view, f`dirty, f`fptr, f`dsect, f`buf, f`fsize, f`written
    modifies f.fs`wflag, f.fs`winsect, f.fs`disk, f.fs`img, f.fs`fat, f.fs.win
    modifies f.fs`freeClust, f.fs`fsiDirty, f.fs`lastClust
    ensures Keeps(f, chain, F, ys) && SameClusters(f.fs.g, old(f.fs.img), f.fs.img, ys)
    ensures Does(f.canRead, f.canWrite, Room(f.fs.g, chain), old(Value(f)), OpWrite(d), out, Value(f))
  {
    hide *;
    KeepsFacts(f, chain, F, ys);
    ValueIs(f);
    RoomIs(f.fs.g, chain);
    f.MapCurrentIs();
    ghost var v, a := f.view, Value(f);
    var res, bw := f.Write(d);
    out := Out(res, [], bw);
    f.FixedFacts(v, F);
    f.MapCurrentIs();
    IsKept(f, chain, F, ys);
    KeepsFacts(f, chain, F, ys);
    ForeignSectors(v, f.view, F, F, ys);
    ValueIs(f);
    if f.Stuck() {
      f.StuckFacts();
    }
    BeforeEnd(f.view, f.fsize, f.fsize);
    DoesWrite(f.canRead, f.canWrite, Room(f.fs.g, chain), a, d, res, bw, Value(f));
  }

  lemma DoesWrite(r: bool, w: bool, cap: nat, a: Tape, d: seq<Byte>, res: FResult, bw: nat, b: Tape)
    requires a.pos <= |a.content| && bw <= |d| && b.pos == a.pos + bw <= |b.content| <= cap
    requires res == if w then FR_OK else FR_DENIED
    requires b.content == Overwrite(a.content, a.pos, d[..bw])
    requires w && bw < |d| ==> (bw == 0 && a.pos + |d| >= DWORD_SIZE) || b.pos == cap
    requires !w || a.pos + |d| >= DWORD_SIZE ==> bw == 0
    ensures Does(r, w, cap, a, OpWrite(d), Out(res, [], bw), b)
  {
  }

  method CallSeek(f: File, ofs: nat, ghost chain: seq<nat>, ghost F: FatSeq, ghost ys: seq<nat>) returns (out: Out)
    requires Keeps(f, chain, F, ys) && ofs < DWORD_SIZE
    modifies f`clust, f`view, f`dirty, f`fptr, f`dsect, f`buf, f`err, f.fs`disk, f.fs`img
    ensures Keeps(f, chain, F, ys) && SameClusters(f.fs.g, old(f.fs.img), f.fs.img, ys)
    ensures Does(f.canRead, f.canWrite, Room(f.fs.g, chain), old(Value(f)), OpSeek(ofs), out, Value(f))
  {
    hide *;
    KeepsFacts(f, chain, F, ys);
    ValueIs(f);
    ghost var v, a := f.view, Value(f);
    var res := f.SeekFast(ofs);
    out := Out(res, [], 0);
    SameIsGrown(v, f.view);
    SameFileFacts(v, f.view);
    OutsideGrown(v, f.view);
    IsKept(f, chain, F, ys);
    KeepsFacts(f, chain, F, ys);
    ForeignSectors(v, f.view, F, F, ys);
    ValueIs(f);
    LeastIs(ofs, |a.content|);
    DoesSeek(f.canRead, f.canWrite, Room(f.fs.g, chain), a, ofs, Value(f));
  }

  lemma DoesSeek(r: bool, w: bool, cap: nat, a: Tape, ofs: nat, b: Tape)
    requires a.pos <= |a.content| && b == Tape(a.content, Least(ofs, |a.content|))
    ensures Does(r, w, cap, a, OpSeek(ofs), Out(FR_OK, [], 0), b)
  {
  }

  // ---- runs ----

  predicate Legal(op: Op) {
    !op.OpTruncate? && Callable(op)
  }

  method Call(f: File, op: Op, ghost chain: seq<nat>, ghost F: FatSeq, ghost ys: seq<nat>) returns (out: Out)
    requires Keeps(f, chain, F, ys) && Legal(op)
    modifies f`clust, f`sclust, f`view, f`dirty, f`fptr, f`dsect, f`buf, f`fsize, f`written, f`err
    modifies f.fs`wflag, f.fs`winsect, f.fs`disk, f.fs`img, f.fs`fat, f.fs.win
    modifies f.fs`freeClust, f.fs`fsiDirty, f.fs`lastClust
    ensures Keeps(f, chain, F, ys) && SameClusters(f.fs.g, old(f.fs.img), f.fs.img, ys)
    ensures Does(f.canRead, f.canWrite, Room(f.fs.g, chain), old(Value(f)), op, out, Value(f))
  {
    hide *;
    LegalFacts(op);
    if op.OpRead? {
      out := CallRead(f, op.want, chain, F, ys);
    } else if op.OpWrite? {
      out := CallWrite(f, op.data, chain, F, ys);
    } else {
      out := CallSeek(f, op.ofs, chain, F, ys);
    }
  }

  lemma LegalFacts(op: Op)
    requires Legal(op)
    ensures !op.OpTruncate? && (op.OpWrite? ==> |op.data| < DWORD_SIZE) && (op.OpSeek? ==> op.ofs < DWORD_SIZE)
  {
  }

  /** The reports of the run. */
  ghost predicate Reported(r: bool, w: bool, cap: nat, a: Tape, ops: seq<Op>, outs: seq<Out>, n: nat)
    requires a.pos <= |a.content|
  {
    && n <= |ops| && |outs| == n
    && forall k: nat :: k < n ==> outs[k] == Report(r, w, cap, After(r, w, cap, a, ops, k), ops[k])
  }

  lemma OneMore(r: bool, w: bool, cap: nat, a: Tape, ops: seq<Op>, outs: seq<Out>, n: nat, out: Out, b: Tape)
    requires a.pos <= |a.content| && n < |ops| && Reported(r, w, cap, a, ops, outs, n)
    requires Does(r, w, cap, After(r, w, cap, a, ops, n), ops[n], out, b)
    ensures Reported(r, w, cap, a, ops, outs + [out], n + 1) && b == After(r, w, cap, a, ops, n + 1)
  {
    hide Report, Next;
  }

  lemma NoneReported(r: bool, w: bool, cap: nat, a: Tape, ops: seq<Op>)
    requires a.pos <= |a.content|
    ensures Reported(r, w, cap, a, ops, [], 0) && After(r, w, cap, a, ops, 0) == a
  {
  }

  /** A run of reads, writes and seeks on a file `f` with its link map, beside another file `ys`. */
  method Run(f: File, ops: seq<Op>, ghost ys: seq<nat>) returns (outs: seq<Out>)
    requires Keeps(f, f.view.chain, f.fs.fat, ys) && forall op :: op in ops ==> Legal(op)
    modifies f`clust, f`sclust, f`view, f`dirty, f`fptr, f`dsect, f`buf, f`fsize, f`written, f`err
    modifies f.fs`wflag, f.fs`winsect, f.fs`disk, f.fs`img, f.fs`fat, f.fs.win
    modifies f.fs`freeClust, f.fs`fsiDirty, f.fs`lastClust
    ensures Keeps(f, old(f.view.chain), old(f.fs.fat), ys)
    ensures SameClusters(f.fs.g, old(f.fs.img), f.fs.img, ys)
    ensures var a, cap := old(Value(f)), Room(f.fs.g, old(f.view.chain));
      && a.pos <= |a.content|
      && Value(f) == After(f.canRead, f.canWrite, cap, a, ops, |ops|)
      && Reported(f.canRead, f.canWrite, cap, a, ops, outs, |ops|)
  {
    hide *;
    ghost var chain, F, a, img := f.view.chain, f.fs.fat, Value(f), f.fs.img;
    ghost var cap := Room(f.fs.g, chain);
    KeepsFacts(f, chain, F, ys);
    ValueIs(f);
    outs := [];
    NoneReported(f.canRead, f.canWrite, cap, a, ops);
    SameClustersRefl(f.fs.g, f.fs.img, ys);
    for i := 0 to |ops|
      invariant Keeps(f, chain, F, ys) && SameClusters(f.fs.g, img, f.fs.img, ys)
      invariant Value(f) == After(f.canRead, f.canWrite, cap, a, ops, i)
      invariant Reported(f.canRead, f.canWrite, cap, a, ops, outs, i)
    {
      ghost var m := f.fs.img;
      var out := Call(f, ops[i], chain, F, ys);
      SameClustersTrans(f.fs.g, img, m, f.fs.img, ys);
      OneMore(f.canRead, f.canWrite, cap, a, ops, outs, i, out, Value(f));
      outs := outs + [out];
    }
  }

  /** `f_truncate` leaves the link map as it is: past the new end of the chain the map leads into
      clusters that are free now. */
  method TruncateThenFollow(f: File, ofs: nat) returns (res: FResult, c: nat)
    requires f.Valid() && f.MapOk() && f.MapCurrent() && f.cltbl != null
    modifies f`sclust, f`view, f`dirty, f`fsize, f`written
    modifies f.fs`wflag, f.fs`winsect, f.fs`disk, f.fs`img, f.fs`fat, f.fs.win, f.fs`freeClust, f.fs`fsiDirty
    ensures f.Valid() && f.view.chain <= old(f.view.chain)
    ensures f.MapCurrent() <==> |f.view.chain| == |old(f.view.chain)|
    ensures var k, xs := Idx(f.fs.g, Sec(ofs)), old(f.view.chain);
      && (k < |f.view.chain| ==> c == f.view.chain[k])
      && (|f.view.chain| <= k < |xs| ==> c == xs[k] < |f.fs.fat| && c !in f.view.chain && f.fs.fat[c] == 0)
      && (|xs| <= k ==> c == 0)
  {
    hide *;
    f.MapFacts();
    f.ValidFacts();
    f.ReadyFacts(f.fsize);
    f.InvFacts(true);
    FirstOf(f.view, f.fs.fat, f.fs.winsect, f.sclust, true);
    ghost var F, xs := f.fs.fat, f.view.chain;
    res := f.Truncate();
    ChainCutFacts(F, f.fs.fat, xs, f.view.chain);
    c := Clmt.ClmtClust(f.fs.g, f.cltbl, ofs, f.frags, xs);
    ghost var k := Idx(f.fs.g, Sec(ofs));
    if |f.view.chain| <= k < |xs| {
      CutOff(F, f.fs.fat, xs, f.view.chain, k);
    }
  }

  lemma CutOff(F: FatSeq, G: FatSeq, xs: seq<nat>, ys: seq<nat>, k: nat)
    requires IsChain(F, xs) && ChainCut(F, G, xs, ys) && |ys| <= k < |xs|
    ensures xs[k] < |G| && xs[k] !in ys && G[xs[k]] == 0
  {
    AllDistinct(F, xs);
  }
}
