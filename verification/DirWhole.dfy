/**
 Directories whose long names are whole: each belongs to the short-name entry right behind it.
 What deleting an object takes away, and that it undoes creating it. All on values.
 */
module DirWhole {
  import opened Bits
  import opened Lfn
  import opened DirScan
  import opened DirNames
  import opened DirTable

  // ---- where a search says that the long name starts ----

  /** The latest last fragment among the fragments right before entry `i`. */
  function StartBefore(es: seq<DirEntry>, i: nat): (r: nat)
    requires i <= |es|
    ensures r == NO_LFN || r < i
  {
    if i == 0 || !IsLong(es[i - 1]) then NO_LFN else if IsLast(es[i - 1]) then i - 1 else StartBefore(es, i - 1)
  }

  function Reported(q: Query, es: seq<DirEntry>, i: nat): nat
    requires i <= |es|
  {
    if q.hasLfn then StartBefore(es, i) else NO_LFN
  }

  /** The first entry of the object that ends at `j`. */
  function FirstOf(q: Query, es: seq<DirEntry>, j: nat): (r: nat)
    requires j <= |es|
    ensures r <= j
  {
    if Reported(q, es, j) == NO_LFN then j else Reported(q, es, j)
  }

  lemma LookReports(up: Upper, q: Query, es: seq<DirEntry>, i: nat, st: State, next: State)
    requires GoodQuery(q) && i < |es| && st.start == Reported(q, es, i) && Look(up, q, es[i], i, st) == Go(next)
    ensures next.start == Reported(q, es, i + 1)
  {
    hide Agrees, SumOf;
  }

  lemma MatchIsShort(up: Upper, q: Query, e: DirEntry, i: nat, st: State)
    requires GoodQuery(q) && Look(up, q, e, i, st) == Match
    ensures IsShort(e)
  {
    hide Agrees, SumOf;
  }

  /** A search ends at a short name, and reports where the long name before it starts. */
  lemma {:induction false} FindReports(up: Upper, q: Query, es: seq<DirEntry>, i: nat, st: State)
    requires GoodQuery(q) && i <= |es| && st.start == Reported(q, es, i)
    ensures match FindFrom(up, q, es, i, st)
      case NoFile => true
      case At(j, s) => j < |es| && IsShort(es[j]) && s == Reported(q, es, j)
    decreases |es| - i
  {
    hide Look, Reported, IsShort;
    if i == |es| {
      AtEnd(up, q, es, i, st);
    } else {
      FindOnce(up, q, es, i, st);
      var v := Look(up, q, es[i], i, st);
      if v.Match? {
        MatchIsShort(up, q, es[i], i, st);
      } else if v.Go? {
        LookReports(up, q, es, i, st, v.st);
        FindReports(up, q, es, i + 1, v.st);
      }
    }
  }

  lemma Found(up: Upper, q: Query, es: seq<DirEntry>, j: nat, s: nat)
    requires GoodQuery(q) && Find(up, q, es) == At(j, s)
    ensures j < |es| && IsShort(es[j]) && s == Reported(q, es, j) && (s == NO_LFN || s < j)
  {
    FindReports(up, q, es, 0, START);
    hide FindFrom, IsShort;
  }

  /** From its first entry to its short name an object has fragments only, the first of them a
      last fragment, the others not. */
  lemma {:induction false} StartBeforeIs(es: seq<DirEntry>, i: nat)
    requires i <= |es| && i <= NO_LFN
    ensures var s := StartBefore(es, i);
      && (s != NO_LFN ==> s < i && IsLast(es[s]) && forall k :: s <= k < i ==> IsLong(es[k]))
      && (s != NO_LFN ==> forall k :: s < k < i ==> !IsLast(es[k]))
      && (s == NO_LFN ==> forall k :: 0 <= k < i && IsLast(es[k]) ==> exists l :: k <= l < i && !IsLong(es[l]))
  {
    hide IsLong, IsLast;
    if i > 0 && IsLong(es[i - 1]) && !IsLast(es[i - 1]) {
      StartBeforeIs(es, i - 1);
    }
  }

  lemma FirstOfIs(q: Query, es: seq<DirEntry>, j: nat)
    requires j <= |es| && j <= NO_LFN
    ensures var s := FirstOf(q, es, j);
      && (forall k :: s <= k < j ==> IsLong(es[k])) && (s < j ==> IsLast(es[s])) && forall k :: s < k < j ==>
        !IsLast(es[k])
  {
    StartBeforeIs(es, j);
    hide IsLong, IsLast, StartBefore;
  }

  lemma {:induction false} SameStart(es: seq<DirEntry>, fs: seq<DirEntry>, i: nat)
    requires i <= |es| && i <= |fs| && forall k :: 0 <= k < i ==> fs[k] == es[k]
    ensures StartBefore(fs, i) == StartBefore(es, i)
  {
    if i > 0 {
      SameStart(es, fs, i - 1);
    }
  }

  // ---- removing what was registered ----

  /** A long name without its short name ends right before entry `j`. */
  ghost predicate Unfinished(es: seq<DirEntry>, j: nat) {
    exists k: nat :: k < j <= |es| && IsLast(es[k]) && forall l :: k <= l < j ==> IsLong(es[l])
  }

  lemma UnfinishedIff(es: seq<DirEntry>, j: nat)
    requires j <= |es| && j <= NO_LFN
    ensures Unfinished(es, j) <==> StartBefore(es, j) != NO_LFN
  {
    StartBeforeIs(es, j);
    hide StartBefore, IsLong, IsLast;
  }

  /** The fragments that were stored start where a search says. */
  lemma RegisteredStart(q: Query, es: seq<DirEntry>, fs: seq<DirEntry>, lfn: seq<Wchar>, n: nat, fn: seq<Byte>,
                        nt: Byte,
                        nent: nat, j: nat)
    requires Registered(es, fs, lfn, n, fn, nt, nent, j) && nent == Fragments(n) + 1 && n >= 1 && q.hasLfn
    requires j <= NO_LFN
    ensures FirstOf(q, fs, j) == j + 1 - nent
  {
    hide *;
    FragmentCount(n);
    var a := j + 1 - nent;
    RegisteredRun(es, fs, lfn, n, fn, nt, nent, j);
    StartUnique(fs, a, j);
    FirstOfAre(q, fs, j);
  }

  lemma RegisteredRun(es: seq<DirEntry>, fs: seq<DirEntry>, lfn: seq<Wchar>, n: nat, fn: seq<Byte>, nt: Byte,
                      nent: nat, j: nat)
    requires Registered(es, fs, lfn, n, fn, nt, nent, j) && nent == Fragments(n) + 1 && n >= 1
    ensures j < |fs| && nent >= 2 && nent <= j + 1 && NO_LFN == 0xFFFF && Whole(fs, j + 1 - nent, j)
  {
    FragmentCount(n);
    hide Fragments;
    forall k | j + 1 - nent <= k < j
      ensures IsLong(fs[k]) && (IsLast(fs[k]) <==> k == j + 1 - nent)
    {
      FragmentIsLong(fs[k], lfn, n, j - k, SumOf(fn));
      FragmentFacts(fs[k], lfn, n, j - k, SumOf(fn));
    }
    hide IsFragment, IsLong, IsLast;
  }

  /** From entry `a` to entry `j` there are the fragments of one long name. */
  ghost predicate Whole(es: seq<DirEntry>, a: nat, j: nat) {
    && a <= j <= |es|
    && forall k :: a <= k < j ==> IsLong(es[k]) && (IsLast(es[k]) <==> k == a)
  }

  lemma {:induction false} StartUnique(es: seq<DirEntry>, a: nat, j: nat)
    requires Whole(es, a, j) && a < j
    ensures StartBefore(es, j) == a
    decreases j
  {
    hide IsLong, IsLast;
    assert IsLong(es[j - 1]);
    if a < j - 1 {
      StartUnique(es, a, j - 1);
    }
  }

  /** Removing an object that was just registered leaves the entries in use that were in use before,
      exactly if it has a long name of its own or none stands unfinished right before it. Then its
      name is gone, too. */
  lemma RemoveUndoes(up: Upper, q: Query, es: seq<DirEntry>, fs: seq<DirEntry>, gs: seq<DirEntry>, lfn: seq<Wchar>,
                     n: nat,
                     fn: seq<Byte>, nt: Byte, nent: nat, j: nat)
    requires GoodQuery(q) && Tidy(es) && |es| <= NO_LFN + 1 && FirstRun(es, nent, j) && Find(up, q, es) == NoFile
    requires Registered(es, fs, lfn, n, fn, nt, nent, j)
    requires (nent > 1 ==> q.hasLfn && n >= 1 && nent == Fragments(n) + 1)
    requires Removed(fs, gs, FirstOf(q, fs, j), j)
    ensures SameLive(es, gs) <==> nent > 1 || !q.hasLfn || !Unfinished(es, j)
    ensures SameLive(es, gs) ==> Find(up, q, gs) == NoFile
  {
    hide *;
    RegisteredSize(es, fs, lfn, n, fn, nt, nent, j);
    Prefix(es, fs, gs, lfn, n, fn, nt, nent, j, FirstOf(q, fs, j));
    if nent > 1 {
      RegisteredStart(q, es, fs, lfn, n, fn, nt, nent, j);
    } else {
      SameStart(es, fs, j);
      UnfinishedIff(es, j);
      StartBeforeIs(es, j);
      FirstOfAre(q, fs, j);
      if FirstOf(q, fs, j) < j {
        Lost(es, fs, gs, FirstOf(q, fs, j), j);
      }
    }
    if FirstOf(q, fs, j) == j + 1 - nent {
      RemoveRestores(es, fs, gs, lfn, n, fn, nt, nent, j);
      RemovedIs(es, fs, gs, lfn, n, fn, nt, nent, j);
      RemoveForgets(up, q, es, gs, nent, j);
    }
  }

  lemma FirstOfAre(q: Query, es: seq<DirEntry>, j: nat)
    requires j <= |es|
    ensures FirstOf(q, es, j) == if q.hasLfn && StartBefore(es, j) != NO_LFN then StartBefore(es, j) else j
  {
  }

  lemma RegisteredSize(es: seq<DirEntry>, fs: seq<DirEntry>, lfn: seq<Wchar>, n: nat, fn: seq<Byte>, nt: Byte,
                       nent: nat, j: nat)
    requires Registered(es, fs, lfn, n, fn, nt, nent, j)
    ensures |fs| == |es| && j < |es|
  {
  }

  lemma Prefix(es: seq<DirEntry>, fs: seq<DirEntry>, gs: seq<DirEntry>, lfn: seq<Wchar>, n: nat, fn: seq<Byte>,
               nt: Byte,
               nent: nat, j: nat, s: nat)
    requires Registered(es, fs, lfn, n, fn, nt, nent, j) && Removed(fs, gs, s, j)
    ensures |fs| == |es| == |gs| && j < |es| && 1 <= nent <= j + 1
    ensures forall k :: 0 <= k < j + 1 - nent ==> fs[k] == es[k]
    ensures NO_LFN == 0xFFFF
  {
  }

  lemma Lost(es: seq<DirEntry>, fs: seq<DirEntry>, gs: seq<DirEntry>, s: nat, j: nat)
    requires Removed(fs, gs, s, j) && s < j < |es| && IsLong(es[s])
    ensures !SameLive(es, gs)
  {
    assert IsFree(gs[s]) && !IsFree(es[s]);
  }

  lemma RemovedIs(es: seq<DirEntry>, fs: seq<DirEntry>, gs: seq<DirEntry>, lfn: seq<Wchar>, n: nat, fn: seq<Byte>,
                  nt: Byte,
                  nent: nat, j: nat)
    requires Registered(es, fs, lfn, n, fn, nt, nent, j) && Removed(fs, gs, j + 1 - nent, j)
    ensures |gs| == |es|
    ensures forall k :: 0 <= k < |es| ==> if j < k + nent && k <= j then gs[k][0] == DDEM else gs[k] == es[k]
  {
    hide IsFragment;
  }

  // ---- the longest names ----

  /** While no fragment is expected, the checksum kept does not matter. */
  lemma {:induction false} SumIrrelevant(up: Upper, q: Query, es: seq<DirEntry>, i: nat, x: State, y: State)
    requires GoodQuery(q) && i <= |es| && x.ord == 0xFF == y.ord && x.start == y.start
    ensures FindFrom(up, q, es, i, x) == FindFrom(up, q, es, i, y)
    decreases |es| - i
  {
    hide Look;
    if i < |es| {
      LookAlike(up, q, es[i], i, x, y);
      FindOnce(up, q, es, i, x);
      FindOnce(up, q, es, i, y);
      var v, w := Look(up, q, es[i], i, x), Look(up, q, es[i], i, y);
      if v.Go? {
        if v != w {
          SumIrrelevant(up, q, es, i + 1, v.st, w.st);
        }
      }
    }
  }

  lemma LookAlike(up: Upper, q: Query, e: DirEntry, i: nat, x: State, y: State)
    requires GoodQuery(q) && x.ord == 0xFF == y.ord && x.start == y.start
    ensures var v, w := Look(up, q, e, i, x), Look(up, q, e, i, y);
      v == w || (v.Go? && w.Go? && v.st.ord == 0xFF == w.st.ord && v.st.start == w.st.start)
  {
    hide Agrees, SumOf;
  }

  /** One fragment of a name of 255 characters: the last one does not agree, the others are not expected. */
  lemma LongestFragment(up: Upper, q: Query, lfn: seq<Wchar>, m: nat, e: DirEntry, ord: nat, sum: Byte, i: nat,
                        st: State)
    requires UpperOk(up) && GoodQuery(q) && q.hasLfn && Holds(lfn, 255) && Holds(q.lfn, m)
    requires IsFragment(e, lfn, 255, ord, sum)
    requires ord <= 20 && (ord < 20 ==> st.ord == 0xFF)
    ensures Look(up, q, e, i, st).Go? && Look(up, q, e, i, st).st.ord == 0xFF
  {
    FragmentIsLong(e, lfn, 255, ord, sum);
    FragmentFacts(e, lfn, 255, ord, sum);
    if ord == 20 {
      LongestNotFound(up, lfn, q.lfn, m, e, sum);
    }
    hide Agrees, IsFragment, LfnChar, Holds;
  }

  lemma {:induction false} LongestBlock(up: Upper, q: Query, es: seq<DirEntry>, fs: seq<DirEntry>, lfn: seq<Wchar>,
                                        m: nat,
                                        fn: seq<Byte>, nt: Byte, j: nat, k: nat, st: State)
    returns (next: State)
    requires UpperOk(up) && GoodQuery(q) && q.hasLfn && q.loss && Holds(lfn, 255) && Holds(q.lfn, m)
    requires Registered(es, fs, lfn, 255, fn, nt, 21, j) && fn[0] != 0 && fn[0] != DDEM && j < k + 21 && k <= j < |fs|
    requires k + 20 > j ==> st.ord == 0xFF
    ensures FindFrom(up, q, fs, k, st) == FindFrom(up, q, fs, j + 1, next)
    ensures next.ord == 0xFF && next.start == NO_LFN
    decreases j - k
  {
    hide *;
    RegisteredAt(es, fs, lfn, 255, fn, nt, 21, j, k);
    var v := Look(up, q, fs[k], k, st);
    if k == j {
      LookPast(up, q, fs[j], fn, nt, j, st);
      FindGoes(up, q, fs, j, st, v.st);
      next := v.st;
    } else {
      LongestFragment(up, q, lfn, m, fs[k], j - k, SumOf(fn), k, st);
      FindGoes(up, q, fs, k, st, v.st);
      next := LongestBlock(up, q, es, fs, lfn, m, fn, nt, j, k + 1, v.st);
    }
  }

  /** A short name that is not compared. */
  lemma LookPast(up: Upper, q: Query, e: DirEntry, fn: seq<Byte>, nt: Byte, i: nat, st: State)
    requires GoodQuery(q) && q.loss && |fn| == 11 && e == ShortEntry(fn, nt) && fn[0] != 0 && fn[0] != DDEM
    requires st.ord == 0xFF
    ensures Look(up, q, e, i, st) == Go(Reset(st)) && Reset(st).ord == 0xFF && Reset(st).start == NO_LFN
  {
    assert ShortName(e)[0] == e[0];
    hide Fragment, SumOf;
  }

  /** A name of 255 characters whose short name is not compared is not found after it was registered. */
  lemma LongestIsNotNamed(up: Upper, q: Query, es: seq<DirEntry>, fs: seq<DirEntry>, lfn: seq<Wchar>, m: nat,
                          fn: seq<Byte>, nt: Byte, j: nat)
    requires UpperOk(up) && GoodQuery(q) && q.hasLfn && q.loss && Holds(lfn, 255) && Holds(q.lfn, m)
    requires Tidy(es) && FirstRun(es, 21, j) && Find(up, q, es) == NoFile
    requires Registered(es, fs, lfn, 255, fn, nt, 21, j) && fn[0] != 0 && fn[0] != DDEM
    ensures Find(up, q, fs) == NoFile
  {
    hide *;
    RegisteredSize(es, fs, lfn, 255, fn, nt, 21, j);
    BeforeRun(es, fs, lfn, 255, fn, nt, 21, j);
    StartFind(up, q, es);
    StartFind(up, q, fs);
    var st := SkipPrefix(up, q, es, fs, 0, j - 20, START);
    var next := LongestBlock(up, q, es, fs, lfn, m, fn, nt, j, j - 20, st);
    if j + 1 < |es| && es[j + 1][0] != 0 {
      AllWiped(es, 21, j);
      var same := SkipWiped(up, q, es, j - 20, j + 1, st);
      SumIrrelevant(up, q, es, j + 1, same, next);
      SameSuffix(up, q, es, fs, j + 1, next);
    } else {
      EndFound(up, q, fs, j + 1, next);
    }
  }

  lemma BeforeRun(es: seq<DirEntry>, fs: seq<DirEntry>, lfn: seq<Wchar>, n: nat, fn: seq<Byte>, nt: Byte, nent: nat,
                  j: nat)
    requires Tidy(es) && FirstRun(es, nent, j) && Registered(es, fs, lfn, n, fn, nt, nent, j)
    ensures nent <= j + 1
    ensures forall k :: 0 <= k < j + 1 - nent ==> fs[k] == es[k] && es[k][0] != 0
    ensures forall k :: j < k < |es| ==> fs[k] == es[k]
  {
    forall k | 0 <= k < j + 1 - nent
      ensures es[k][0] != 0
    {
      NoEndBefore(es, nent, j, k);
    }
    hide IsFragment, Tidy, FirstRun;
  }

  lemma AllWiped(es: seq<DirEntry>, nent: nat, j: nat)
    requires Tidy(es) && FirstRun(es, nent, j) && j + 1 < |es| && es[j + 1][0] != 0
    ensures forall k :: j + 1 - nent <= k <= j ==> es[k][0] == DDEM
  {
  }

  /** A last fragment that some other program left behind. */
  function LeftOver(): DirEntry {
    [0x42] + seq<Byte>(10, i => 0x41) + [0x0F] + seq<Byte>(20, i => 0)
  }

  /** Behind it, an object is created, found, and deleted together with it. */
  lemma LeftOverIsLost(up: Upper, q: Query)
    requires GoodQuery(q) && q.hasLfn && !q.loss && q.fn[0] != 0 && q.fn[0] != DDEM
    ensures var es, fs := [LeftOver(), BlankEntry()], [LeftOver(), ShortEntry(q.fn, 0)];
      && Tidy(es) && DistinctNames(es) && FirstRun(es, 1, 1) && Find(up, q, es) == NoFile
      && Registered(es, fs, q.lfn, 0, q.fn, 0, 1, 1) && Find(up, q, fs) == At(1, 0)
      && FirstOf(q, fs, 1) == 0 && IsLong(es[0])
  {
    var e := LeftOver();
    var es, fs := [e, BlankEntry()], [e, ShortEntry(q.fn, 0)];
    assert e[0] == 0x42 && e[11] == 0x0F;
    assert IsLong(e) && IsLast(e) && !IsVoid(e);
    assert BlankEntry()[0] == 0;
    hide Agrees, SumOf, ShortEntry, LeftOver, BlankEntry;
    var v := Look(up, q, e, 0, START);
    assert v.Go? && v.st.start == 0 && v.st.ord != 0;
    hide Fragment;
    FindGoes(up, q, es, 0, START, v.st);
    FindGoes(up, q, fs, 0, START, v.st);
    EndFound(up, q, es, 1, v.st);
    LookAtShort(up, q, fs[1], q.fn, 0, 1, v.st);
    FindStops(up, q, fs, 1, v.st);
    assert StartBefore(fs, 1) == 0;
  }

  // ---- whole directories ----

  /** The entries from `a` to `j` are one object: the fragments of its long name, tied to its short name
      by their order and the checksum. */
  ghost predicate Object(es: seq<DirEntry>, a: nat, j: nat) {
    && Whole(es, a, j) && j < |es| && IsShort(es[j])
    && forall k :: a <= k < j ==> Order(es[k]) == j - k && es[k][13] == SumOf(ShortName(es[j]))
  }

  /** Every fragment belongs to an object. */
  ghost predicate Complete(es: seq<DirEntry>) {
    forall k :: 0 <= k < |es| && IsLong(es[k]) ==> Belongs(es, k)
  }

  ghost predicate Belongs(es: seq<DirEntry>, k: nat) {
    exists a: nat, j: nat :: a <= k < j && Object(es, a, j)
  }

  lemma ObjectKept(es: seq<DirEntry>, fs: seq<DirEntry>, a: nat, j: nat)
    requires Object(es, a, j) && j < |fs| && forall k :: a <= k <= j ==> fs[k] == es[k]
    ensures Object(fs, a, j)
  {
    hide IsLong, IsLast, IsShort, Order, SumOf;
  }

  lemma NotBoth(e: DirEntry)
    ensures !(IsShort(e) && IsLong(e)) && (IsShort(e) || IsLong(e) ==> !IsFree(e)) && (IsWiped(e) ==> IsFree(e))
  {
  }

  /** What was registered is an object. */
  lemma RegisteredObject(es: seq<DirEntry>, fs: seq<DirEntry>, lfn: seq<Wchar>, n: nat, fn: seq<Byte>, nt: Byte,
                         nent: nat, j: nat)
    requires Registered(es, fs, lfn, n, fn, nt, nent, j) && n >= 1 && fn[0] != 0 && fn[0] != DDEM
    requires nent == 1 || nent == Fragments(n) + 1
    ensures j < |fs| && nent <= j + 1 && Object(fs, j + 1 - nent, j)
  {
    RegisteredAt(es, fs, lfn, n, fn, nt, nent, j, j);
    ShortIs(fs[j], fn, nt);
    if nent > 1 {
      RegisteredRun(es, fs, lfn, n, fn, nt, nent, j);
    }
    forall k | j + 1 - nent <= k < j
      ensures Order(fs[k]) == j - k && fs[k][13] == SumOf(fn)
    {
      FragmentIsLong(fs[k], lfn, n, j - k, SumOf(fn));
      FragmentFacts(fs[k], lfn, n, j - k, SumOf(fn));
    }
    hide IsFragment, IsLong, IsLast, IsShort, Order, SumOf, ShortEntry, Fragments;
  }

  lemma ShortIs(e: DirEntry, fn: seq<Byte>, nt: Byte)
    requires |fn| == 11 && e == ShortEntry(fn, nt) && fn[0] != 0 && fn[0] != DDEM
    ensures IsShort(e) && ShortName(e) == fn
  {
    assert e[0] == ShortName(e)[0];
  }

  /** Objects do not share entries. */
  lemma ObjectsApart(es: seq<DirEntry>, a: nat, j: nat, s: nat, i: nat)
    requires Object(es, a, j) && i < |es| && IsShort(es[i]) && s <= i && i != j
    requires forall k :: s <= k < i ==> IsLong(es[k])
    ensures j < s || i < a
  {
    NotBoth(es[i]);
    NotBoth(es[j]);
    hide IsLong, IsShort, IsLast, Order;
  }

  /** No other object changes when one is removed. */
  lemma ObjectStays(q: Query, es: seq<DirEntry>, gs: seq<DirEntry>, i: nat, a: nat, j: nat)
    requires i < |es| && i <= NO_LFN && IsShort(es[i]) && Removed(es, gs, FirstOf(q, es, i), i)
    requires Object(es, a, j) && i != j
    ensures Object(gs, a, j) && j < |es| && forall k :: a <= k <= j ==> gs[k] == es[k]
  {
    hide *;
    FirstOfIs(q, es, i);
    RemovedElse(es, gs, FirstOf(q, es, i), i);
    ObjectIs(es, a, j);
    ObjectsApart(es, a, j, FirstOf(q, es, i), i);
    ObjectKept(es, gs, a, j);
  }

  lemma ObjectIs(es: seq<DirEntry>, a: nat, j: nat)
    requires Object(es, a, j)
    ensures a <= j < |es| && IsShort(es[j])
  {
  }

  lemma RemovedElse(fs: seq<DirEntry>, gs: seq<DirEntry>, s: nat, j: nat)
    requires Removed(fs, gs, s, j)
    ensures s <= j < |fs| == |gs|
    ensures forall k :: 0 <= k < |fs| && !(s <= k <= j) ==> gs[k] == fs[k]
    ensures forall k :: s <= k <= j ==> IsFree(gs[k]) && gs[k][0] == DDEM
  {
  }

  /** Removing an object keeps the directory whole. */
  lemma CompleteAfterRemove(q: Query, es: seq<DirEntry>, gs: seq<DirEntry>, i: nat)
    requires Complete(es) && q.hasLfn && i < |es| && i <= NO_LFN && IsShort(es[i])
    requires Removed(es, gs, FirstOf(q, es, i), i)
    ensures Complete(gs)
  {
    RemovedElse(es, gs, FirstOf(q, es, i), i);
    forall k | 0 <= k < |gs| && IsLong(gs[k])
      ensures Belongs(gs, k)
    {
      NotBoth(gs[k]);
      var a: nat, j: nat :| a <= k < j && Object(es, a, j);
      if j == i {
        StartUnique(es, a, j);
        FirstOfAre(q, es, i);
      } else {
        ObjectStays(q, es, gs, i, a, j);
      }
    }
  }

  /** Registering an object keeps the directory whole. */
  lemma CompleteAfterCreate(es: seq<DirEntry>, fs: seq<DirEntry>, lfn: seq<Wchar>, n: nat, fn: seq<Byte>, nt: Byte,
                            nent: nat, j: nat)
    requires Complete(es) && FirstRun(es, nent, j) && Registered(es, fs, lfn, n, fn, nt, nent, j) && n >= 1
    requires fn[0] != 0 && fn[0] != DDEM && (nent == 1 || nent == Fragments(n) + 1)
    ensures Complete(fs)
  {
    RegisteredObject(es, fs, lfn, n, fn, nt, nent, j);
    forall k | 0 <= k < |fs| && IsLong(fs[k])
      ensures Belongs(fs, k)
    {
      if j + 1 - nent <= k <= j {
        ObjectIs(fs, j + 1 - nent, j);
        NotBoth(fs[j]);
        assert k < j;
      } else {
        assert fs[k] == es[k];
        var a: nat, i: nat :| a <= k < i && Object(es, a, i);
        ObjectOffRun(es, fs, lfn, n, fn, nt, nent, j, a, i);
      }
    }
  }

  lemma ObjectOffRun(es: seq<DirEntry>, fs: seq<DirEntry>, lfn: seq<Wchar>, n: nat, fn: seq<Byte>, nt: Byte, nent: nat,
                     j: nat,
                     a: nat, i: nat)
    requires FirstRun(es, nent, j) && Registered(es, fs, lfn, n, fn, nt, nent, j) && Object(es, a, i)
    ensures Object(fs, a, i) && i < |es| && forall k :: a <= k <= i ==> fs[k] == es[k]
  {
    forall k | a <= k <= i
      ensures fs[k] == es[k]
    {
      NotBoth(es[k]);
      assert !IsFree(es[k]);
    }
    hide IsFragment, IsLong, IsShort, IsLast, Order, SumOf, IsFree, FirstRun;
    ObjectKept(es, fs, a, i);
  }

  lemma CompleteExtended(es: seq<DirEntry>, fs: seq<DirEntry>)
    requires Complete(es) && Extended(es, fs)
    ensures Complete(fs)
  {
    BlankIsEnd();
    forall k | 0 <= k < |fs| && IsLong(fs[k])
      ensures Belongs(fs, k)
    {
      assert k < |es|;
      var a: nat, j: nat :| a <= k < j && Object(es, a, j);
      ObjectKept(es, fs, a, j);
    }
  }

  /** In a whole directory no long name is unfinished before a free entry. */
  lemma NoneUnfinished(es: seq<DirEntry>, j: nat)
    requires Complete(es) && j < |es| && IsFree(es[j])
    ensures !Unfinished(es, j)
  {
    hide Complete, IsFree, IsLong, IsLast;
    forall k: nat | k < j && IsLong(es[k])
      ensures exists l :: k <= l < j && !IsLong(es[l])
    {
      LongEnds(es, j, k);
    }
  }

  lemma LongEnds(es: seq<DirEntry>, j: nat, k: nat)
    requires Complete(es) && k < j < |es| && IsFree(es[j]) && IsLong(es[k])
    ensures exists l :: k <= l < j && !IsLong(es[l])
  {
    assert Belongs(es, k);
    var a: nat, i: nat :| a <= k < i && Object(es, a, i);
    hide IsLong, IsShort, IsFree, IsLast, Order;
    NotBoth(es[i]);
    NotBoth(es[j]);
    assert k <= i < j;
  }

  lemma TidyAfterRemove(es: seq<DirEntry>, gs: seq<DirEntry>, s: nat, j: nat)
    requires Tidy(es) && j < |es| && IsShort(es[j]) && Removed(es, gs, s, j) && forall k :: s <= k < j ==> IsLong(es[k])
    ensures Tidy(gs)
  {
    RemovedElse(es, gs, s, j);
    forall i, k | 0 <= i < k < |gs| && gs[i][0] == 0
      ensures gs[k][0] == 0
    {
      assert es[i][0] == 0 && es[k][0] == 0;
    }
  }

  lemma DistinctAfterRemove(es: seq<DirEntry>, gs: seq<DirEntry>, s: nat, j: nat)
    requires DistinctNames(es) && Removed(es, gs, s, j)
    ensures DistinctNames(gs)
  {
    RemovedElse(es, gs, s, j);
  }

  /** ... so does creating an object, stretching the table if needed. */
  lemma CompleteCreated(T0: seq<DirEntry>, es: seq<DirEntry>, fs: seq<DirEntry>, lfn: seq<Wchar>, n: nat,
                        fn: seq<Byte>, nt: Byte,
                        nent: nat, j: nat)
    requires Extended(T0, es) && FirstRun(es, nent, j) && Registered(es, fs, lfn, n, fn, nt, nent, j) && n >= 1
    requires fn[0] != 0 && fn[0] != DDEM && (nent == 1 || nent == Fragments(n) + 1)
    ensures Complete(T0) ==> Complete(fs)
  {
    hide *;
    if Complete(T0) {
      CompleteExtended(T0, es);
      CompleteAfterCreate(es, fs, lfn, n, fn, nt, nent, j);
    }
  }

  lemma CompleteStretched(es: seq<DirEntry>, fs: seq<DirEntry>)
    requires Extended(es, fs)
    ensures Complete(es) ==> Complete(fs)
  {
    hide *;
    if Complete(es) {
      CompleteExtended(es, fs);
    }
  }

  lemma NoLfnIs()
    ensures NO_LFN == 0xFFFF
  {
  }

  /** Deleting what a search found. */
  lemma Deleted(up: Upper, q: Query, es: seq<DirEntry>, gs: seq<DirEntry>, j: nat, start: nat)
    requires GoodQuery(q) && |es| <= NO_LFN + 1 && Find(up, q, es) == At(j, start)
    requires Removed(es, gs, if start == NO_LFN then j else start, j)
    ensures j < |es| && IsShort(es[j]) && Removed(es, gs, FirstOf(q, es, j), j)
    ensures Tidy(es) ==> Tidy(gs)
    ensures DistinctNames(es) ==> DistinctNames(gs)
    ensures q.hasLfn && Complete(es) ==> Complete(gs)
  {
    hide *;
    Found(up, q, es, j, start);
    FirstIs(q, es, j);
    FirstOfIs(q, es, j);
    if Tidy(es) {
      TidyAfterRemove(es, gs, FirstOf(q, es, j), j);
    }
    if DistinctNames(es) {
      DistinctAfterRemove(es, gs, FirstOf(q, es, j), j);
    }
    if q.hasLfn && Complete(es) {
      CompleteAfterRemove(q, es, gs, j);
    }
  }

  lemma FirstIs(q: Query, es: seq<DirEntry>, j: nat)
    requires j <= |es|
    ensures FirstOf(q, es, j) == if Reported(q, es, j) == NO_LFN then j else Reported(q, es, j)
  {
  }
}
