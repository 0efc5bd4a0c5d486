/**
 The table of open objects: sharing of files among read handles, exclusive write handles.
 */
module LockTable {

  /** A file or directory: its volume (not null), its directory and its place there. */
  datatype Obj = Obj(fs: nat, clu: nat, idx: nat)

  /** `FILESEM`; `fs` 0 is a blank entry. */
  datatype Sem = Sem(fs: nat, clu: nat, idx: nat, ctr: nat)

  /** An open handle and its lock index. */
  datatype Handle = Handle(obj: Obj, write: bool, id: nat)

  datatype LockResult = FR_OK | FR_LOCKED | FR_TOO_MANY_OPEN_FILES | FR_INT_ERR

  const WRITER: nat := 0x100

  predicate Is(s: Sem, o: Obj) {
    s.fs == o.fs && s.clu == o.clu && s.idx == o.idx
  }

  function ObjOf(s: Sem): Obj {
    Obj(s.fs, s.clu, s.idx)
  }

  /** Entry `i` counts the handles on its object: one writer, or up to 255 readers. */
  ghost predicate Counts(s: Sem, i: nat, open: multiset<Handle>) {
    var w, r := Handle(ObjOf(s), true, i + 1), Handle(ObjOf(s), false, i + 1);
    if s.ctr == WRITER then open[w] == 1 && open[r] == 0
    else 1 <= s.ctr < WRITER && open[r] == s.ctr && open[w] == 0
  }

  /** Each object has at most one entry, each entry counts its handles, and each handle has
      an entry. */
  ghost predicate Sound(files: seq<Sem>, open: multiset<Handle>) {
    && (forall i, j :: 0 <= i < j < |files| && files[i].fs != 0 && files[j].fs != 0 ==>
          ObjOf(files[i]) != ObjOf(files[j]))
    && (forall i :: 0 <= i < |files| && files[i].fs != 0 ==> Counts(files[i], i, open))
    && (forall h :: h in open ==> 1 <= h.id <= |files| && files[h.id - 1].fs != 0 && ObjOf(files[h.id - 1]) == h.obj)
  }

  /** Nobody shares an object with a writer. */
  lemma WriterIsAlone(files: seq<Sem>, open: multiset<Handle>, w: Handle, h: Handle)
    requires Sound(files, open) && w in open && w.write && h in open && h.obj == w.obj
    ensures h == w && open[w] == 1
  {
    assert Counts(files[w.id - 1], w.id - 1, open);
    assert h.id == w.id;
    assert h == Handle(w.obj, h.write, w.id);
  }

  /** The entry counts the readers. */
  lemma ReadersCounted(files: seq<Sem>, open: multiset<Handle>, h: Handle)
    requires Sound(files, open) && h in open && !h.write
    ensures 1 <= h.id <= |files| && files[h.id - 1].ctr == open[h] < WRITER
  {
    assert Counts(files[h.id - 1], h.id - 1, open);
  }

  // ---- one entry changes ----

  /** The object's entry gets one more handle. */
  lemma Opened(files: seq<Sem>, open: multiset<Handle>, i: nat, o: Obj, write: bool)
    requires Sound(files, open) && i < |files| && o.fs != 0
    requires if files[i].fs != 0 then Is(files[i], o) && !write
      else forall j :: 0 <= j < |files| ==> !Is(files[j], o)
    ensures var c := if write then WRITER else if files[i].fs != 0 then files[i].ctr + 1 else 1;
      var h := Handle(o, write, i + 1);
      // 256 readers look like a writer, and a reader beside a writer like nothing
      Sound(files[i := Sem(o.fs, o.clu, o.idx, c)], open + multiset{h}) <==> write || c < WRITER
  {
    var c := if write then WRITER else if files[i].fs != 0 then files[i].ctr + 1 else 1;
    var h := Handle(o, write, i + 1);
    var s := Sem(o.fs, o.clu, o.idx, c);
    var gs, opn := files[i := s], open + multiset{h};
    OpenedCount(files, open, i, o, write);
    hide Counts;
    forall k | 0 <= k < |gs| && k != i && gs[k].fs != 0
      ensures Counts(gs[k], k, opn)
    {
      OthersCount(files, open, k, h);
    }
    if write || c < WRITER {
      forall x | x in opn
        ensures 1 <= x.id <= |gs| && gs[x.id - 1].fs != 0 && ObjOf(gs[x.id - 1]) == x.obj
      {
        if x != h {
          assert x in open;
        }
      }
    }
  }

  /** The 256th reader of an object looks like a writer: the table is not sound any more, and the
      first of them that is closed takes the entry away from the other 255. */
  lemma ReaderTooMany(o: Obj, h: Handle, open: multiset<Handle>)
    requires o.fs != 0 && h == Handle(o, false, 1) && open == multiset{}[h := 255]
    ensures Sound([Sem(o.fs, o.clu, o.idx, 255)], open)
    ensures !Sound([Sem(o.fs, o.clu, o.idx, 256)], open + multiset{h})
    ensures Closed(256) == 0 && (open + multiset{h} - multiset{h})[h] == 255
  {
    var files := [Sem(o.fs, o.clu, o.idx, 255)];
    assert ObjOf(files[0]) == o && Counts(files[0], 0, open);
    assert Sound(files, open);
    Opened(files, open, 0, o, false);
    assert files[0 := Sem(o.fs, o.clu, o.idx, 256)] == [Sem(o.fs, o.clu, o.idx, 256)];
  }

  /** The count of the entry that is opened. */
  lemma OpenedCount(files: seq<Sem>, open: multiset<Handle>, i: nat, o: Obj, write: bool)
    requires Sound(files, open) && i < |files| && o.fs != 0
    requires if files[i].fs != 0 then Is(files[i], o) && !write
      else forall j :: 0 <= j < |files| ==> !Is(files[j], o)
    ensures var c := if write then WRITER else if files[i].fs != 0 then files[i].ctr + 1 else 1;
      Counts(Sem(o.fs, o.clu, o.idx, c), i, open + multiset{Handle(o, write, i + 1)}) <==> write || c < WRITER
  {
    var opn := open + multiset{Handle(o, write, i + 1)};
    if files[i].fs == 0 {
      NoHandles(files, open, i, o);
    } else {
      assert Counts(files[i], i, open);
    }
    hide Sound;
    assert opn[Handle(o, false, i + 1)] == open[Handle(o, false, i + 1)] + (if write then 0 else 1);
    assert opn[Handle(o, true, i + 1)] == open[Handle(o, true, i + 1)] + (if write then 1 else 0);
  }

  /** The other entries count what they did. */
  lemma OthersCount(files: seq<Sem>, open: multiset<Handle>, k: nat, h: Handle)
    requires Sound(files, open) && k < |files| && files[k].fs != 0 && h.id != k + 1
    ensures Counts(files[k], k, open + multiset{h})
  {
    assert Counts(files[k], k, open);
  }

  /** A blank entry has no handles. */
  lemma NoHandles(files: seq<Sem>, open: multiset<Handle>, i: nat, o: Obj)
    requires Sound(files, open) && i < |files| && files[i].fs == 0
    ensures open[Handle(o, true, i + 1)] == 0 && open[Handle(o, false, i + 1)] == 0
  {
    assert Handle(o, true, i + 1) !in open && Handle(o, false, i + 1) !in open;
  }

  /** `ctr` after a handle was closed. */
  function Closed(ctr: nat): nat {
    if ctr == WRITER || ctr == 0 then 0 else ctr - 1
  }

  /** The entry of a handle loses it. */
  lemma ClosedIsSound(files: seq<Sem>, open: multiset<Handle>, h: Handle)
    requires Sound(files, open) && h in open
    ensures 1 <= h.id <= |files|
    ensures var i := h.id - 1; var c := Closed(files[i].ctr);
      Sound(files[i := Sem(if c == 0 then 0 else files[i].fs, files[i].clu, files[i].idx, c)], open - multiset{h})
  {
    var i := h.id - 1;
    var c := Closed(files[i].ctr);
    var s := Sem(if c == 0 then 0 else files[i].fs, files[i].clu, files[i].idx, c);
    var gs, opn := files[i := s], open - multiset{h};
    assert Counts(files[i], i, open);
    assert h == Handle(ObjOf(files[i]), h.write, i + 1);
    forall k | 0 <= k < |gs| && k != i && gs[k].fs != 0
      ensures Counts(gs[k], k, opn)
    {
      assert Counts(files[k], k, open);
    }
    forall x | x in opn
      ensures 1 <= x.id <= |gs| && gs[x.id - 1].fs != 0 && ObjOf(gs[x.id - 1]) == x.obj
    {
      assert x in open;
      if x.id == h.id {
        assert x == Handle(h.obj, x.write, h.id);
      }
    }
  }

  ghost predicate FirstOf(files: seq<Sem>, i: nat, o: Obj) {
    i < |files| && Is(files[i], o) && forall k :: 0 <= k < i ==> !Is(files[k], o)
  }

  lemma LiveFacts(files: seq<Sem>, open: multiset<Handle>, i: nat)
    requires Sound(files, open) && i < |files| && files[i].fs != 0
    ensures 1 <= files[i].ctr <= WRITER
    ensures files[i].ctr < WRITER ==> open[Handle(ObjOf(files[i]), false, i + 1)] == files[i].ctr
    ensures files[i].ctr < WRITER <==> open[Handle(ObjOf(files[i]), true, i + 1)] == 0
    ensures files[i].ctr == WRITER ==> open[Handle(ObjOf(files[i]), false, i + 1)] == 0
  {
    assert Counts(files[i], i, open);
  }

  // ---- the table ----

  class Locks {
    const files: array<Sem>
    ghost var open: multiset<Handle>

    ghost predicate Valid()
      reads this, files
    {
      Sound(files[..], open)
    }

    constructor (n: nat)
      ensures Valid() && fresh(files) && files.Length == n && open == multiset{}
    {
      files := new Sem[n](i => Sem(0, 0, 0, 0));
      open := multiset{};
    }

    /** The first entry of the object, or the length of the table. */
    method Lookup(o: Obj) returns (i: nat)
      ensures i <= files.Length && (i < files.Length ==> Is(files[i], o))
      ensures forall k :: 0 <= k < i ==> !Is(files[k], o)
    {
      i := 0;
      while i < files.Length && !Is(files[i], o)
        invariant i <= files.Length && forall k :: 0 <= k < i ==> !Is(files[k], o)
      {
        i := i + 1;
      }
    }

    /** The first blank entry, or the length of the table. */
    method Blank() returns (i: nat)
      ensures i <= files.Length && (i < files.Length ==> files[i].fs == 0)
      ensures forall k :: 0 <= k < i ==> files[k].fs != 0
    {
      i := 0;
      while i < files.Length && files[i].fs != 0
        invariant i <= files.Length && forall k :: 0 <= k < i ==> files[k].fs != 0
      {
        i := i + 1;
      }
    }

    /** `chk_lock`; `acc` is 0 for reading, 1 for writing, 2 for deleting. */
    method ChkLock(o: Obj, acc: nat) returns (res: LockResult)
      requires o.fs != 0
      ensures res == FR_OK || res == FR_LOCKED || res == FR_TOO_MANY_OPEN_FILES
      ensures res == FR_TOO_MANY_OPEN_FILES <==>
        acc != 2 && (forall k :: 0 <= k < files.Length ==> files[k].fs != 0 && !Is(files[k], o))
      ensures res == FR_LOCKED <==>
        exists i :: 0 <= i < files.Length && FirstOf(files[..], i, o) && (acc != 0 || files[i].ctr == WRITER)
    {
      var i, be := 0, false;
      while i < files.Length && !(files[i].fs != 0 && Is(files[i], o))
        invariant i <= files.Length && forall k :: 0 <= k < i ==> !Is(files[k], o)
        invariant be <==> exists k :: 0 <= k < i && files[k].fs == 0
      {
        if files[i].fs == 0 {
          be := true;
        }
        i := i + 1;
      }
      if i == files.Length {
        res := if be || acc == 2 then FR_OK else FR_TOO_MANY_OPEN_FILES;
      } else {
        res := if acc != 0 || files[i].ctr == WRITER then FR_LOCKED else FR_OK;
      }
    }

    /** `enq_lock` */
    method EnqLock() returns (ok: bool)
      ensures ok <==> exists k :: 0 <= k < files.Length && files[k].fs == 0
    {
      var i := Blank();
      ok := i != files.Length;
    }

    /** `inc_lock`. 0: the object is open and is to be written, or there is no blank entry. */
    method IncLock(o: Obj, acc: nat) returns (id: nat)
      requires Valid() && o.fs != 0
      modifies files, this`open
      ensures id <= files.Length
      ensures id == 0 <==> if (exists k :: 0 <= k < files.Length && Is(old(files[k]), o)) then acc != 0
        else forall k :: 0 <= k < files.Length ==> old(files[k]).fs != 0
      ensures id == 0 ==> Valid() && open == old(open)
      ensures id != 0 ==> open == old(open) + multiset{Handle(o, acc != 0, id)} && Is(files[id - 1], o)
      // `chk_lock` makes sure that there is no writer; 256 readers look like one
      ensures id != 0 ==>
        (Valid() <==> acc != 0 || (old(open)[Handle(o, false, id)] != 255 && old(open)[Handle(o, true, id)] == 0))
    {
      hide Sound, Counts;
      ghost var before := files[..];
      var i := Lookup(o);
      if i == files.Length {
        i := Blank();
        if i == files.Length {
          return 0;
        }
        NoHandles(before, open, i, o);
        files[i] := Sem(o.fs, o.clu, o.idx, 0);
      } else {
        assert before[i].fs != 0;
        LiveFacts(before, open, i);
        if acc != 0 && files[i].ctr != 0 {
          return 0;
        }
      }
      assert acc != 0 ==> files[i].ctr == 0;
      files[i] := files[i].(ctr := if acc != 0 then WRITER else files[i].ctr + 1);
      Opened(before, open, i, o, acc != 0);
      open := open + multiset{Handle(o, acc != 0, i + 1)};
      assert files[..] == before[i := files[i]];
      id := i + 1;
    }

    lemma ValidIs()
      ensures Valid() <==> Sound(files[..], open)
    {
    }

    /** `dec_lock` for an open handle. */
    method DecLock(h: Handle) returns (res: LockResult)
      requires Valid() && h in open
      modifies files, this`open
      ensures Valid() && res == FR_OK && open == old(open) - multiset{h}
    {
      hide *;
      ValidIs();
      ghost var before := files[..];
      ClosedIsSound(before, open, h);
      var i := h.id - 1;
      var n := files[i].ctr;
      ClosedIs(n);
      if n == WRITER {
        n := 0;
      }
      if n != 0 {
        n := n - 1;
      }
      files[i] := files[i].(ctr := n);
      if n == 0 {
        files[i] := files[i].(fs := 0);
      }
      open := open - multiset{h};
      assert files[..] == before[i := files[i]];
      ValidIs();
      res := FR_OK;
    }
  }

  lemma ClosedIs(ctr: nat)
    ensures WRITER == 0x100 && Closed(ctr) == if ctr == WRITER || ctr == 0 then 0 else ctr - 1
  {
  }

  // ---- what the handles say about the table ----

  function Objs(open: multiset<Handle>): set<Obj> {
    set h | h in open :: h.obj
  }

  /** Object `o` is open in a way that forbids opening it. */
  ghost predicate Locked(open: multiset<Handle>, o: Obj, write: bool) {
    exists h :: h in open && h.obj == o && (write || h.write)
  }

  /** Object `o` can be opened, with `cap` entries in the table. */
  ghost predicate CanOpen(open: multiset<Handle>, cap: nat, o: Obj, write: bool) {
    !Locked(open, o, write) && (o in Objs(open) || |Objs(open)| < cap)
  }

  /** The entry of an object and its handles. */
  lemma EntryOfObject(files: seq<Sem>, open: multiset<Handle>, k: nat)
    requires Sound(files, open) && k < |files| && files[k].fs != 0
    ensures ObjOf(files[k]) in Objs(open) && Locked(open, ObjOf(files[k]), true)
    ensures Locked(open, ObjOf(files[k]), false) <==> files[k].ctr == WRITER
  {
    var o := ObjOf(files[k]);
    var w, r := Handle(o, true, k + 1), Handle(o, false, k + 1);
    assert Counts(files[k], k, open);
    assert w in open || r in open;
    if Locked(open, o, false) {
      var h :| h in open && h.obj == o && h.write;
      assert h == Handle(o, true, h.id) && ObjOf(files[h.id - 1]) == o;
      assert h.id == k + 1;
    }
  }

  /** An object is in use exactly if it has an entry. */
  lemma HasEntry(files: seq<Sem>, open: multiset<Handle>, o: Obj)
    requires Sound(files, open) && o.fs != 0
    ensures o in Objs(open) <==> exists k :: 0 <= k < |files| && Is(files[k], o)
    ensures Locked(open, o, false) ==> o in Objs(open)
    ensures Locked(open, o, true) <==> o in Objs(open)
  {
    if k: nat :| k < |files| && Is(files[k], o) {
      assert ObjOf(files[k]) == o;
      EntryOfObject(files, open, k);
    }
    if h :| h in open && h.obj == o {
      assert Is(files[h.id - 1], o);
    }
    hide Counts;
  }

  /** The objects of the first `n` entries. */
  function ObjsBelow(files: seq<Sem>, n: nat): set<Obj>
    requires n <= |files|
  {
    if n == 0 then {}
    else if files[n - 1].fs == 0 then ObjsBelow(files, n - 1)
    else ObjsBelow(files, n - 1) + {ObjOf(files[n - 1])}
  }

  lemma {:induction false} InBelow(files: seq<Sem>, n: nat, o: Obj)
    requires n <= |files|
    ensures o in ObjsBelow(files, n) <==> exists k :: 0 <= k < n && files[k].fs != 0 && ObjOf(files[k]) == o
  {
    if n > 0 {
      InBelow(files, n - 1, o);
    }
  }

  ghost predicate OneEntryEach(files: seq<Sem>) {
    forall i, j :: 0 <= i < j < |files| && files[i].fs != 0 && files[j].fs != 0 ==> ObjOf(files[i]) != ObjOf(files[j])
  }

  lemma {:induction false} BelowSize(files: seq<Sem>, n: nat)
    requires n <= |files| && OneEntryEach(files)
    ensures |ObjsBelow(files, n)| <= n
    ensures |ObjsBelow(files, n)| < n <==> exists k :: 0 <= k < n && files[k].fs == 0
  {
    if n > 0 {
      BelowSize(files, n - 1);
      InBelow(files, n - 1, ObjOf(files[n - 1]));
    }
  }

  /** A blank entry is left exactly if there are fewer objects in use than entries. */
  lemma BlankLeft(files: seq<Sem>, open: multiset<Handle>)
    requires Sound(files, open)
    ensures |Objs(open)| < |files| <==> exists k :: 0 <= k < |files| && files[k].fs == 0
  {
    assert OneEntryEach(files);
    BelowSize(files, |files|);
    forall o: Obj
      ensures o in Objs(open) <==> o in ObjsBelow(files, |files|)
    {
      InBelow(files, |files|, o);
      AllObjs(files, open, o);
    }
    hide *;
    assert Objs(open) == ObjsBelow(files, |files|);
  }

  lemma AllObjs(files: seq<Sem>, open: multiset<Handle>, o: Obj)
    requires Sound(files, open)
    ensures o in Objs(open) <==> exists k :: 0 <= k < |files| && files[k].fs != 0 && ObjOf(files[k]) == o
  {
    if k: nat :| k < |files| && files[k].fs != 0 && ObjOf(files[k]) == o {
      EntryOfObject(files, open, k);
    }
    hide Counts;
  }

  /** What the checks of `f_open` find out. */
  lemma Checked(files: seq<Sem>, open: multiset<Handle>, o: Obj, write: bool)
    requires Sound(files, open) && o.fs != 0
    ensures Locked(open, o, write) <==>
      exists i :: 0 <= i < |files| && FirstOf(files, i, o) && (write || files[i].ctr == WRITER)
    ensures (forall k :: 0 <= k < |files| ==> files[k].fs != 0 && !Is(files[k], o)) <==>
      o !in Objs(open) && |Objs(open)| >= |files|
  {
    HasEntry(files, open, o);
    BlankLeft(files, open);
    if k: nat :| k < |files| && Is(files[k], o) {
      assert ObjOf(files[k]) == o;
      EntryOfObject(files, open, k);
      forall j | 0 <= j < k
        ensures !Is(files[j], o)
      {
        assert Is(files[j], o) ==> ObjOf(files[j]) == o;
      }
      assert FirstOf(files, k, o);
      assert forall i :: 0 <= i < |files| && FirstOf(files, i, o) ==> i == k;
    }
    hide Sound, Objs, Locked;
  }

  // ---- runs ----

  datatype LockOp = OpOpen(obj: Obj, write: bool) | OpCreate(obj: Obj) | OpClose(k: nat)

  /** Opening as `f_open` does: a new object needs a blank entry, an existing one is checked. */
  method OpenGuarded(t: Locks, o: Obj, write: bool, isNew: bool) returns (res: LockResult, id: nat)
    requires t.Valid() && o.fs != 0
    requires isNew ==> forall k :: 0 <= k < t.files.Length ==> !Is(t.files[k], o)
    modifies t.files, t`open
    ensures if res == FR_OK then t.Valid() <==> write || old(t.open)[Handle(o, false, id)] != 255 else t.Valid()
    ensures res == FR_OK <==> CanOpen(old(t.open), t.files.Length, o, write)
    ensures res == FR_LOCKED <==> Locked(old(t.open), o, write)
    ensures res == FR_OK ==> t.open == old(t.open) + multiset{Handle(o, write, id)} && id != 0
    ensures res != FR_OK ==> t.open == old(t.open) && res != FR_INT_ERR
    // a writer comes alone
    ensures res == FR_OK && write ==> forall h :: h in old(t.open) ==> h.obj != o
    ensures res == FR_OK && !write ==> forall h :: h in old(t.open) && h.obj == o ==> !h.write
  {
    hide *;
    id := 0;
    t.ValidIs();
    var acc := if write then 1 else 0;
    ghost var F, a := t.files[..], t.open;
    Checked(F, a, o, write);
    HasEntry(F, a, o);
    BlankLeft(F, a);
    CanOpenIs(a, t.files.Length, o, write);
    if isNew {
      var ok := t.EnqLock();
      res := if ok then FR_OK else FR_TOO_MANY_OPEN_FILES;
    } else {
      res := t.ChkLock(o, acc);
    }
    if res == FR_OK {
      NotWritten(F, a, o, acc, isNew);
      NoneWrites(a, o);
      id := t.IncLock(o, acc);
      assert id != 0;
    }
  }

  lemma CanOpenIs(open: multiset<Handle>, cap: nat, o: Obj, write: bool)
    ensures CanOpen(open, cap, o, write) <==> !Locked(open, o, write) && (o in Objs(open) || |Objs(open)| < cap)
  {
    hide Locked, Objs;
  }

  lemma NoneWrites(open: multiset<Handle>, o: Obj)
    ensures (forall h :: h in open && h.obj == o ==> !h.write) ==> forall i: nat :: open[Handle(o, true, i)] == 0
  {
    if forall h :: h in open && h.obj == o ==> !h.write {
      forall i: nat
        ensures open[Handle(o, true, i)] == 0
      {
        assert Handle(o, true, i) !in open;
      }
    }
  }

  /** An object that may be opened has no writer, and for writing no handle at all. */
  lemma NotWritten(files: seq<Sem>, open: multiset<Handle>, o: Obj, acc: nat, isNew: bool)
    requires Sound(files, open)
    requires if isNew then forall k :: 0 <= k < |files| ==> !Is(files[k], o)
      else forall i :: 0 <= i < |files| && FirstOf(files, i, o) ==> acc == 0 && files[i].ctr != WRITER
    requires o.fs != 0
    ensures forall k :: 0 <= k < |files| && Is(files[k], o) ==> acc == 0 && files[k].ctr != WRITER
    ensures forall h :: h in open && h.obj == o ==> acc == 0 && !h.write
  {
    forall k | 0 <= k < |files| && Is(files[k], o)
      ensures acc == 0 && files[k].ctr != WRITER
    {
      assert ObjOf(files[k]) == o;
      forall j | 0 <= j < k
        ensures !Is(files[j], o)
      {
        assert ObjOf(files[j]) == o <==> Is(files[j], o);
      }
      assert FirstOf(files, k, o);
    }
    forall h | h in open && h.obj == o
      ensures acc == 0 && !h.write
    {
      assert Is(files[h.id - 1], o);
      assert Counts(files[h.id - 1], h.id - 1, open);
      assert h == Handle(o, h.write, h.id);
    }
  }

  /** The read handles on an object. */
  function Readers(held: seq<Handle>, o: Obj): nat {
    if held == [] then 0
    else Readers(held[..|held| - 1], o) + if held[|held| - 1].obj == o && !held[|held| - 1].write then 1 else 0
  }

  lemma {:induction false} AtMostReaders(held: seq<Handle>, o: Obj, i: nat)
    ensures multiset(held)[Handle(o, false, i)] <= Readers(held, o)
  {
    if held != [] {
      var l := |held| - 1;
      AtMostReaders(held[..l], o, i);
      assert held == held[..l] + [held[l]];
    }
  }

  /** One call, from the handles `a` to the handles `b`, on a table of `cap` entries; a 256th reader is
      not let through. */
  ghost predicate Step(cap: nat, a: seq<Handle>, op: LockOp, b: seq<Handle>) {
    match op
    case OpOpen(o, write) =>
      if (write || Readers(a, o) < 255) && CanOpen(multiset(a), cap, o, write) then Gets(a, b, o, write) else b == a
    case OpCreate(o) =>
      if o !in Objs(multiset(a)) && CanOpen(multiset(a), cap, o, true) then Gets(a, b, o, true) else b == a
    case OpClose(k) => b == if k < |a| then a[..k] + a[k + 1..] else a
  }

  /** One more handle. */
  ghost predicate Gets(a: seq<Handle>, b: seq<Handle>, o: Obj, write: bool) {
    |b| == |a| + 1 && b[..|a|] == a && b[|a|].obj == o && b[|a|].write == write
  }

  /** The handles of a run of `ops`. */
  ghost predicate IsRun(cap: nat, trace: seq<seq<Handle>>, ops: seq<LockOp>) {
    && |trace| == |ops| + 1 && trace[0] == []
    && forall i :: 0 <= i < |ops| ==> Step(cap, trace[i], ops[i], trace[i + 1])
  }

  lemma LongerRun(cap: nat, trace: seq<seq<Handle>>, ops: seq<LockOp>, op: LockOp, b: seq<Handle>)
    requires IsRun(cap, trace, ops) && Step(cap, trace[|ops|], op, b)
    ensures IsRun(cap, trace + [b], ops + [op])
  {
    hide Step;
  }

  /** Any run of opens and closes, as long as no object gets more than 255 readers: each call does what the
      handles allow, the table counts them, and writers are alone. */
  method Run(t: Locks, ops: seq<LockOp>) returns (held: seq<Handle>, ghost trace: seq<seq<Handle>>)
    requires t.Valid() && t.open == multiset{} && forall op :: op in ops && !op.OpClose? ==> op.obj.fs != 0
    modifies t.files, t`open
    ensures t.Valid() && t.open == multiset(held)
    ensures IsRun(t.files.Length, trace, ops) && trace[|ops|] == held
    ensures forall i, j :: 0 <= i < |held| && 0 <= j < |held| && held[i].write && held[j].obj == held[i].obj ==> i == j
  {
    hide Sound, Step, IsRun;
    held := [];
    trace := [held];
    NoRun(t.files.Length);
    for n := 0 to |ops|
      invariant t.Valid() && t.open == multiset(held)
      invariant IsRun(t.files.Length, trace, ops[..n]) && |trace| == n + 1 && trace[n] == held
    {
      ghost var a := held;
      held := Do(t, held, ops[n]);
      LongerRun(t.files.Length, trace, ops[..n], ops[n], held);
      assert ops[..n] + [ops[n]] == ops[..n + 1];
      trace := trace + [held];
    }
    assert ops[..|ops|] == ops;
    t.ValidIs();
    WritersAlone(t.files[..], held);
  }

  lemma NoRun(cap: nat)
    ensures IsRun(cap, [[]], [])
  {
  }

  method Do(t: Locks, held: seq<Handle>, op: LockOp) returns (now: seq<Handle>)
    requires t.Valid() && t.open == multiset(held) && (!op.OpClose? ==> op.obj.fs != 0)
    modifies t.files, t`open
    ensures t.Valid() && t.open == multiset(now)
    ensures Step(t.files.Length, held, op, now)
  {
    hide Sound, Counts, CanOpen, Readers, Objs;
    now := held;
    match op
    case OpOpen(o, write) =>
      now := DoOpen(t, held, o, write, false);
    case OpCreate(o) =>
      t.ValidIs();
      HasEntry(t.files[..], t.open, o);
      var i := t.Lookup(o);
      if i == t.files.Length {
        now := DoOpen(t, held, o, true, true);
      }
    case OpClose(k) =>
      if k < |held| {
        assert held == held[..k] + [held[k]] + held[k + 1..];
        var res := t.DecLock(held[k]);
        now := held[..k] + held[k + 1..];
      }
  }

  method DoOpen(t: Locks, held: seq<Handle>, o: Obj, write: bool, isNew: bool) returns (more: seq<Handle>)
    requires t.Valid() && t.open == multiset(held) && o.fs != 0
    requires isNew ==> forall k :: 0 <= k < t.files.Length ==> !Is(t.files[k], o)
    modifies t.files, t`open
    ensures t.Valid() && t.open == multiset(more)
    ensures if (write || Readers(held, o) < 255) && CanOpen(multiset(held), t.files.Length, o, write)
      then Gets(held, more, o, write) else more == held
  {
    hide Sound, Counts, CanOpen;
    more := held;
    if write || Readers(held, o) < 255 {
      forall i: nat
        ensures !write ==> t.open[Handle(o, false, i)] < 255
      {
        AtMostReaders(held, o, i);
      }
      var res, id := OpenGuarded(t, o, write, isNew);
      if res == FR_OK {
        more := held + [Handle(o, write, id)];
      }
    }
  }

  lemma WritersAlone(files: seq<Sem>, held: seq<Handle>)
    requires Sound(files, multiset(held))
    ensures forall i, j :: 0 <= i < |held| && 0 <= j < |held| && held[i].write && held[j].obj == held[i].obj ==> i == j
  {
    forall i, j | 0 <= i < |held| && 0 <= j < |held| && held[i].write && held[j].obj == held[i].obj
      ensures i == j
    {
      WriterIsAlone(files, multiset(held), held[i], held[j]);
      if i < j {
        Twice(held, i, j);
      } else if j < i {
        Twice(held, j, i);
      }
    }
  }

  lemma Twice(held: seq<Handle>, i: nat, j: nat)
    requires i < j < |held| && held[i] == held[j]
    ensures multiset(held)[held[i]] >= 2
  {
    assert held == held[..i] + [held[i]] + held[i + 1..j] + [held[j]] + held[j + 1..];
  }
}
