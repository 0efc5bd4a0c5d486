/**
 A directory as its table of 32-byte entries: searching for a name, taking a block of free
 entries for it, and removing it. All on values.
 */
module DirScan {
  import opened Bits
  import opened Lfn

  const DDEM: Byte := 0xE5
  const NO_LFN: nat := 0xFFFF

  /** What a search looks for. */
  datatype Query = Query(
    hasLfn: bool,           // long names are compared
    lfn: seq<Wchar>,        // the buffer with the long name
    fn: seq<Byte>,          // the short name
    loss: bool)             // the short name is not to be compared

  ghost predicate GoodQuery(q: Query) {
    |q.lfn| == MAX_LFN + 1 && |q.fn| == 11
  }

  // ---- entries ----

  function Attr(e: DirEntry): nat { e[11] % 0x40 }

  predicate IsVolume(e: DirEntry) { Attr(e) / 8 % 2 == 1 && Attr(e) != AM_LFN as nat }

  predicate IsFree(e: DirEntry) { e[0] == 0 || e[0] == DDEM }

  /** An entry without valid data. */
  predicate IsVoid(e: DirEntry) { e[0] == DDEM || IsVolume(e) }

  predicate IsLong(e: DirEntry) { !IsFree(e) && Attr(e) == AM_LFN as nat }

  predicate IsShort(e: DirEntry) { !IsFree(e) && Attr(e) / 8 % 2 == 0 }

  function ShortName(e: DirEntry): seq<Byte> { e[..11] }

  /** All entries after an end mark are end marks. */
  ghost predicate Tidy(es: seq<DirEntry>) {
    forall i, j :: 0 <= i < j < |es| && es[i][0] == 0 ==> es[j][0] == 0
  }

  // ---- dir_find ----

  /** The state of the search: the order of the next fragment, the checksum of the current
      sequence of fragments, and where it starts. */
  datatype State = State(ord: nat, sum: Byte, start: nat)

  function Reset(st: State): State { State(0xFF, st.sum, NO_LFN) }

  const START: State := State(0xFF, 0xFF, NO_LFN)

  datatype Verdict = End | Match | Go(st: State)

  /** One entry of the search, at index `i`. */
  ghost function Look(up: Upper, q: Query, e: DirEntry, i: nat, st: State): Verdict
    requires GoodQuery(q)
  {
    if e[0] == 0 then End
    else if IsVoid(e) then Go(Reset(st))
    else if Attr(e) == AM_LFN as nat then
      if q.hasLfn then Go(Fragment(up, q.lfn, e, i, st)) else Go(st)
    else if st.ord == 0 && st.sum == SumOf(ShortName(e)) then Match
    else if !q.loss && ShortName(e) == q.fn then Match
    else Go(Reset(st))
  }

  /** The state after a fragment at index `i`. */
  ghost function Fragment(up: Upper, lfn: seq<Wchar>, e: DirEntry, i: nat, st: State): State
    requires |lfn| == MAX_LFN + 1
  {
    var s := if IsLast(e) then State(Order(e), e[13], i) else st;
    if Order(e) == s.ord && s.sum == e[13] && Agrees(up, lfn, e) then State(s.ord - 1, s.sum, s.start)
    else State(0xFF, s.sum, s.start)
  }

  datatype Search = NoFile | At(index: nat, start: nat)

  /** `dir_find` from entry `i` on. */
  ghost function FindFrom(up: Upper, q: Query, es: seq<DirEntry>, i: nat, st: State): Search
    requires GoodQuery(q) && i <= |es|
    decreases |es| - i
  {
    if i == |es| then NoFile
    else
      match Look(up, q, es[i], i, st)
      case End => NoFile
      case Match => At(i, st.start)
      case Go(next) => FindFrom(up, q, es, i + 1, next)
  }

  ghost function Find(up: Upper, q: Query, es: seq<DirEntry>): Search
    requires GoodQuery(q)
  {
    FindFrom(up, q, es, 0, START)
  }

  /** One step of the search. */
  lemma FindOnce(up: Upper, q: Query, es: seq<DirEntry>, i: nat, st: State)
    requires GoodQuery(q) && i < |es|
    ensures match Look(up, q, es[i], i, st)
      case End => FindFrom(up, q, es, i, st) == NoFile
      case Match => FindFrom(up, q, es, i, st) == At(i, st.start)
      case Go(next) => FindFrom(up, q, es, i, st) == FindFrom(up, q, es, i + 1, next)
  {
    hide Look;
  }

  lemma AtEnd(up: Upper, q: Query, es: seq<DirEntry>, i: nat, st: State)
    requires GoodQuery(q) && i <= |es|
    ensures i == |es| ==> FindFrom(up, q, es, i, st) == NoFile
  {
  }

  /** The kinds of entries, by their bytes. */
  lemma EntryKinds(e: DirEntry)
    ensures IsFree(e) <==> e[0] == 0 || e[0] == 0xE5
    ensures IsLong(e) <==> e[0] != 0 && e[0] != 0xE5 && e[11] % 0x40 == 0x0F
    ensures IsShort(e) <==> e[0] != 0 && e[0] != 0xE5 && e[11] / 8 % 2 == 0
  {
  }

  // ---- dir_alloc ----

  /** The `n` entries that end at `j` are free. */
  ghost predicate FreeRun(es: seq<DirEntry>, n: nat, j: nat) {
    n <= j + 1 && j < |es| && forall k :: j - n < k <= j ==> IsFree(es[k])
  }

  /** The first run of `n` free entries ends at `j`. */
  ghost predicate FirstRun(es: seq<DirEntry>, n: nat, j: nat) {
    FreeRun(es, n, j) && forall i: nat :: i < j ==> !FreeRun(es, n, i)
  }

  /** The search for free entries: the last `n` before `i` are free, and no run has ended yet. */
  ghost predicate Counting(es: seq<DirEntry>, nent: nat, n: nat, i: nat) {
    && n <= i <= |es| && n < nent
    && (forall k :: i - n <= k < i ==> IsFree(es[k]))
    && (n < i ==> !IsFree(es[i - n - 1]))
    && forall j: nat :: j < i ==> !FreeRun(es, nent, j)
  }

  lemma CountingStarts(es: seq<DirEntry>, nent: nat)
    requires nent >= 1
    ensures Counting(es, nent, 0, 0)
  {
  }

  lemma CountingGoesOn(es: seq<DirEntry>, nent: nat, n: nat, i: nat)
    requires Counting(es, nent, n, i) && i < |es|
    ensures n < nent
    ensures !IsFree(es[i]) ==> Counting(es, nent, 0, i + 1)
    ensures IsFree(es[i]) && n + 1 < nent ==> Counting(es, nent, n + 1, i + 1)
    ensures IsFree(es[i]) && n + 1 == nent ==> FirstRun(es, nent, i)
  {
    if !IsFree(es[i]) || n + 1 < nent {
      assert !FreeRun(es, nent, i);
    }
  }

  lemma CountingDone(es: seq<DirEntry>, nent: nat, n: nat)
    requires Counting(es, nent, n, |es|)
    ensures forall j: nat :: !FreeRun(es, nent, j)
  {
  }

  lemma CountingAtEnd(es: seq<DirEntry>, nent: nat, n: nat, i: nat)
    ensures Counting(es, nent, n, i) && i == |es| ==> forall j: nat :: !FreeRun(es, nent, j)
  {
    if Counting(es, nent, n, i) && i == |es| {
      CountingDone(es, nent, n);
    }
  }

  lemma FreeIs(e: DirEntry)
    ensures IsFree(e) <==> e[0] == DDEM || e[0] == 0
  {
  }

  /** No end mark lies before the first run. */
  lemma NoEndBefore(es: seq<DirEntry>, n: nat, j: nat, i: nat)
    requires Tidy(es) && n >= 1 && FirstRun(es, n, j) && i < j + 1 - n
    ensures es[i][0] != 0
  {
    if es[i][0] == 0 {
      assert FreeRun(es, n, i + n - 1);
    }
  }

  // ---- dir_register ----

  /** The short-name entry: its name, the case flags `nt`, and zeros. */
  function ShortEntry(fn: seq<Byte>, nt: Byte): (r: DirEntry)
    requires |fn| == 11
    ensures ShortName(r) == fn && Attr(r) == 0
  {
    fn + [0, nt] + seq<Byte>(19, i => 0)
  }

  lemma ShortEntryBytes(fn: seq<Byte>, nt: Byte)
    requires |fn| == 11
    ensures var e := ShortEntry(fn, nt);
      e[..11] == fn && e[11] == 0 && e[12] == nt && forall k :: 13 <= k < 32 ==> e[k] == 0
  {
  }

  /** From `es` to `fs` the name of `n` characters in `lfn` (none for `nent` 1) with the short
      name `fn` takes the `nent` entries that end at `j`. */
  ghost predicate Registered(es: seq<DirEntry>, fs: seq<DirEntry>, lfn: seq<Wchar>, n: nat, fn: seq<Byte>, nt: Byte,
                             nent: nat, j: nat) {
    && |fn| == 11 && 1 <= nent <= j + 1 && j < |es| == |fs|
    && (forall k :: 0 <= k < |es| && !(j - nent < k <= j) ==> fs[k] == es[k])
    && fs[j] == ShortEntry(fn, nt)
    && forall k :: j - nent < k < j ==> IsFragment(fs[k], lfn, n, j - k, SumOf(fn))
  }

  /** A long name that can be stored: no 0xFFFF among its characters. */
  ghost predicate NameOk(lfn: seq<Wchar>, n: nat) {
    Holds(lfn, n) && forall i :: 0 <= i < n ==> lfn[i] != 0xFFFF
  }

  lemma NameFacts(lfn: seq<Wchar>, n: nat)
    requires NameOk(lfn, n)
    ensures Holds(lfn, n) && forall i :: 0 <= i < n ==> lfn[i] != 0xFFFF
    ensures n <= 255 && Fragments(n) <= 20 && LLEF == 0x40 && 0 in lfn && |lfn| == MAX_LFN + 1
  {
  }

  /** The fragments up to index `i` are stored in the entries before `j`. */
  ghost predicate FragmentsPut(es: seq<DirEntry>, fs: seq<DirEntry>, lfn: seq<Wchar>, n: nat, sum: Byte, nent: nat,
                               j: nat, i: nat) {
    && |fs| == |es| && j < |es| && i <= j
    && forall k :: 0 <= k < |es| ==> if j - nent < k < i then IsFragment(fs[k], lfn, n, j - k, sum) else fs[k] == es[k]
  }

  lemma NonePut(es: seq<DirEntry>, lfn: seq<Wchar>, n: nat, sum: Byte, nent: nat, j: nat)
    requires 1 <= nent <= j + 1 && j < |es|
    ensures FragmentsPut(es, es, lfn, n, sum, nent, j, j + 1 - nent)
  {
  }

  lemma OneMorePut(es: seq<DirEntry>, fs: seq<DirEntry>, e: DirEntry, lfn: seq<Wchar>, n: nat, sum: Byte, nent: nat,
                   j: nat, i: nat)
    requires FragmentsPut(es, fs, lfn, n, sum, nent, j, i) && j - nent < i < j && IsFragment(e, lfn, n, j - i, sum)
    ensures i < |fs| && FragmentsPut(es, fs[i := e], lfn, n, sum, nent, j, i + 1)
  {
    hide IsFragment;
  }

  lemma FragmentsPutSize(es: seq<DirEntry>, fs: seq<DirEntry>, lfn: seq<Wchar>, n: nat, sum: Byte, nent: nat, j: nat,
                         i: nat)
    requires FragmentsPut(es, fs, lfn, n, sum, nent, j, i)
    ensures |fs| == |es| && j < |fs|
  {
  }

  /** With the short name after them, the name is registered. */
  lemma AllPut(es: seq<DirEntry>, fs: seq<DirEntry>, gs: seq<DirEntry>, lfn: seq<Wchar>, n: nat, fn: seq<Byte>,
               nt: Byte, nent: nat, j: nat)
    requires |fn| == 11 && 1 <= nent <= j + 1 && j < |es|
    requires FragmentsPut(es, fs, lfn, n, SumOf(fn), nent, j, j) && j < |fs| && gs == fs[j := ShortEntry(fn, nt)]
    ensures Registered(es, gs, lfn, n, fn, nt, nent, j)
  {
    hide IsFragment, ShortEntry;
  }

  /** Search passes over entries it has passed over before. */
  lemma {:induction false} SkipPrefix(up: Upper, q: Query, es: seq<DirEntry>, fs: seq<DirEntry>, i: nat, b: nat,
                                      st: State)
    returns (next: State)
    requires GoodQuery(q) && i <= b <= |es| && b <= |fs|
    requires forall k :: i <= k < b ==> fs[k] == es[k] && es[k][0] != 0
    requires FindFrom(up, q, es, i, st) == NoFile
    ensures FindFrom(up, q, es, b, next) == NoFile
    ensures FindFrom(up, q, fs, i, st) == FindFrom(up, q, fs, b, next)
    decreases b - i
  {
    hide Look;
    next := st;
    if i < b {
      LooksOn(up, q, es[i], i, st);
      next := SkipPrefix(up, q, es, fs, i + 1, b, Look(up, q, es[i], i, st).st);
    }
  }

  lemma LooksOn(up: Upper, q: Query, e: DirEntry, i: nat, st: State)
    requires GoodQuery(q) && e[0] != 0
    ensures Look(up, q, e, i, st) != End
  {
  }

  lemma FragmentIsLong(e: DirEntry, lfn: seq<Wchar>, n: nat, ord: nat, sum: Byte)
    requires IsFragment(e, lfn, n, ord, sum)
    ensures e[0] != 0 && !IsVoid(e) && Attr(e) == AM_LFN as nat && e[13] == sum
  {
  }

  /** The search is for the name of `n` characters in `lfn`, up to case. */
  ghost predicate Wanted(up: Upper, q: Query, lfn: seq<Wchar>, n: nat) {
    && GoodQuery(q) && q.hasLfn && UpperOk(up) && Holds(lfn, n) && 1 <= n <= 254
    && exists m: nat :: Holds(q.lfn, m) && SameName(up, lfn, n, q.lfn, m)
  }

  /** One fragment of the name searched for. */
  lemma LookAtFragment(up: Upper, q: Query, lfn: seq<Wchar>, n: nat, e: DirEntry, ord: nat, sum: Byte, i: nat,
                       st: State)
    requires Wanted(up, q, lfn, n) && IsFragment(e, lfn, n, ord, sum) && 13 * (ord - 1) < n
    requires 13 * ord < n ==> st.ord == ord && st.sum == sum
    ensures GoodQuery(q) && Look(up, q, e, i, st) == Go(State(ord - 1, sum, if 13 * ord >= n then i else st.start))
  {
    FragmentIsLong(e, lfn, n, ord, sum);
    FragmentFacts(e, lfn, n, ord, sum);
    var m: nat :| Holds(q.lfn, m) && SameName(up, lfn, n, q.lfn, m);
    SameNameAgrees(up, lfn, n, q.lfn, m, e, ord, sum);
    hide Agrees, IsFragment, LfnChar, SameName, Holds;
  }

  lemma FindGoes(up: Upper, q: Query, es: seq<DirEntry>, i: nat, st: State, next: State)
    requires GoodQuery(q) && i < |es| && Look(up, q, es[i], i, st) == Go(next)
    ensures FindFrom(up, q, es, i, st) == FindFrom(up, q, es, i + 1, next)
  {
    hide Look;
  }

  lemma FindStops(up: Upper, q: Query, es: seq<DirEntry>, i: nat, st: State)
    requires GoodQuery(q) && i < |es| && Look(up, q, es[i], i, st) == Match
    ensures FindFrom(up, q, es, i, st) == At(i, st.start)
  {
    hide Look;
  }

  /** The short name after all its fragments agreed, or a short name that is searched for. */
  lemma LookAtShort(up: Upper, q: Query, e: DirEntry, fn: seq<Byte>, nt: Byte, i: nat, st: State)
    requires GoodQuery(q) && |fn| == 11 && e == ShortEntry(fn, nt) && fn[0] != 0 && fn[0] != DDEM
    requires (st.ord == 0 && st.sum == SumOf(fn)) || (!q.loss && q.fn == fn)
    ensures Look(up, q, e, i, st) == Match
  {
    assert ShortName(e)[0] == e[0];
    hide Fragment, SumOf;
  }

  lemma RegisteredAt(es: seq<DirEntry>, fs: seq<DirEntry>, lfn: seq<Wchar>, n: nat, fn: seq<Byte>, nt: Byte, nent: nat,
                     j: nat, k: nat)
    requires Registered(es, fs, lfn, n, fn, nt, nent, j) && j < k + nent && k <= j
    ensures |fn| == 11 && j < |fs| && fs[j] == ShortEntry(fn, nt)
    ensures k < j ==> IsFragment(fs[k], lfn, n, j - k, SumOf(fn))
  {
  }

  /** The fragments from index `k` on, then the short name. */
  lemma {:induction false} FragmentsMatch(up: Upper, q: Query, es: seq<DirEntry>, fs: seq<DirEntry>, lfn: seq<Wchar>,
                                          n: nat,
                                          fn: seq<Byte>, nt: Byte, nent: nat, j: nat, k: nat, st: State)
    requires Wanted(up, q, lfn, n) && GoodQuery(q) && nent == Fragments(n) + 1
    requires Registered(es, fs, lfn, n, fn, nt, nent, j) && j < k + nent && k <= j < |fs|
    requires |fn| == 11 && fn[0] != 0 && fn[0] != DDEM
    requires k + nent > j + 1 ==> st == State(j - k, SumOf(fn), j + 1 - nent)
    requires n >= 1
    ensures FindFrom(up, q, fs, k, st) == At(j, j + 1 - nent)
    decreases j - k
  {
    hide *;
    RegisteredAt(es, fs, lfn, n, fn, nt, nent, j, k);
    FragmentCount(n);
    if k == j {
      LookAtShort(up, q, fs[j], fn, nt, j, st);
      FindStops(up, q, fs, j, st);
    } else {
      LookAtFragment(up, q, lfn, n, fs[k], j - k, SumOf(fn), k, st);
      var next := State(j - k - 1, SumOf(fn), j + 1 - nent);
      FindGoes(up, q, fs, k, st, next);
      FragmentsMatch(up, q, es, fs, lfn, n, fn, nt, nent, j, k + 1, next);
    }
  }

  lemma FragmentCount(n: nat)
    requires n >= 1
    ensures Fragments(n) >= 1 && 13 * (Fragments(n) - 1) < n <= 13 * Fragments(n)
  {
  }

  /** A name that was not found, once registered, is found where it was put. With a long name
      the search also reports its first fragment. */
  lemma RegisterFind(up: Upper, q: Query, es: seq<DirEntry>, fs: seq<DirEntry>, lfn: seq<Wchar>, n: nat,
                     fn: seq<Byte>, nt: Byte, nent: nat, j: nat)
    returns (start: nat)
    requires GoodQuery(q) && Tidy(es) && FirstRun(es, nent, j)
    requires Find(up, q, es) == NoFile
    requires Registered(es, fs, lfn, n, fn, nt, nent, j) && fn[0] != 0 && fn[0] != DDEM
    // a long name, equal to the one searched for up to case; or only the short one
    requires if nent > 1 then Wanted(up, q, lfn, n) && nent == Fragments(n) + 1 else q.fn == fn && !q.loss
    ensures Find(up, q, fs) == At(j, start)
    ensures nent > 1 ==> start == j + 1 - nent
  {
    var b := j + 1 - nent;
    forall k | 0 <= k < b
      ensures fs[k] == es[k] && es[k][0] != 0
    {
      NoEndBefore(es, nent, j, k);
    }
    hide Look, Tidy, FirstRun, SameName, Holds;
    var st := SkipPrefix(up, q, es, fs, 0, b, START);
    hide *;
    RegisteredAt(es, fs, lfn, n, fn, nt, nent, j, j);
    start := st.start;
    if nent > 1 {
      start := b;
      WantedFacts(up, q, lfn, n);
      FragmentsMatch(up, q, es, fs, lfn, n, fn, nt, nent, j, b, st);
    } else {
      LookAtShort(up, q, fs[j], fn, nt, j, st);
      FindStops(up, q, fs, j, st);
    }
  }

  lemma WantedFacts(up: Upper, q: Query, lfn: seq<Wchar>, n: nat)
    requires Wanted(up, q, lfn, n)
    ensures 1 <= n <= 254
  {
  }

  // ---- short names ----

  /** The short names in the directory are pairwise distinct. */
  ghost predicate DistinctNames(es: seq<DirEntry>) {
    forall i, j :: 0 <= i < j < |es| && IsShort(es[i]) && IsShort(es[j]) ==> ShortName(es[i]) != ShortName(es[j])
  }

  /** A search that compares short names and fails has seen that the name is not taken. */
  lemma {:induction false} NotTaken(up: Upper, q: Query, es: seq<DirEntry>, i: nat, st: State, k: nat)
    requires GoodQuery(q) && !q.loss && i <= k < |es| && Tidy(es) && IsShort(es[k])
    requires FindFrom(up, q, es, i, st) == NoFile
    ensures ShortName(es[k]) != q.fn
    decreases k - i
  {
    assert es[i][0] != 0;
    if i < k {
      LooksOn(up, q, es[i], i, st);
      hide Look, Tidy;
      NotTaken(up, q, es, i + 1, Look(up, q, es[i], i, st).st, k);
    } else {
      hide Fragment;
    }
  }

  /** Registering a short name that is not taken keeps the short names distinct. */
  lemma DistinctAfter(up: Upper, q: Query, es: seq<DirEntry>, fs: seq<DirEntry>, lfn: seq<Wchar>, n: nat, nt: Byte,
                      nent: nat, j: nat)
    requires GoodQuery(q) && !q.loss && Tidy(es) && DistinctNames(es) && Find(up, q, es) == NoFile
    requires Registered(es, fs, lfn, n, q.fn, nt, nent, j) && FirstRun(es, nent, j)
    ensures DistinctNames(fs)
  {
    hide Look, Find, IsFragment;
    forall k | 0 <= k < |fs| && IsShort(fs[k]) && k != j
      ensures fs[k] == es[k] && ShortName(fs[k]) != q.fn
    {
      if j < k + nent && k < j {
        FragmentNotShort(fs[k], lfn, n, j - k, SumOf(q.fn));
      } else {
        StartFind(up, q, es);
        NotTaken(up, q, es, 0, START, k);
      }
    }
  }

  lemma StartFind(up: Upper, q: Query, es: seq<DirEntry>)
    requires GoodQuery(q)
    ensures Find(up, q, es) == FindFrom(up, q, es, 0, START)
  {
  }

  lemma FragmentNotShort(e: DirEntry, lfn: seq<Wchar>, n: nat, ord: nat, sum: Byte)
    requires IsFragment(e, lfn, n, ord, sum)
    ensures !IsShort(e)
  {
  }

  /** Registering keeps the end marks at the end. */
  lemma TidyAfter(es: seq<DirEntry>, fs: seq<DirEntry>, lfn: seq<Wchar>, n: nat, fn: seq<Byte>, nt: Byte, nent: nat,
                  j: nat)
    requires Tidy(es) && FirstRun(es, nent, j) && Registered(es, fs, lfn, n, fn, nt, nent, j) && fn[0] != 0
    ensures Tidy(fs)
  {
    assert fs[j][0] == ShortName(fs[j])[0];
    forall k | 0 <= k <= j
      ensures fs[k][0] != 0
    {
      if k + nent <= j {
        NoEndBefore(es, nent, j, k);
      } else if k < j {
        FragmentIsLong(fs[k], lfn, n, j - k, SumOf(fn));
      }
    }
    hide IsFragment, FirstRun, FreeRun;
  }

  // ---- dir_remove ----

  lemma GoodShortQuery(lfn: seq<Wchar>, fn: seq<Byte>)
    requires |fn| == 11 && |lfn| == MAX_LFN + 1
    ensures GoodQuery(Query(false, lfn, fn, false))
  {
  }

  lemma RunFits(es: seq<DirEntry>, n: nat, j: nat)
    requires FirstRun(es, n, j)
    ensures n <= j + 1 && j < |es|
  {
  }

  /** Without a long name no fragment is to be stored. */
  lemma NotLong(lfn: seq<Wchar>, n: nat, sum: Byte, es: seq<DirEntry>, j: nat)
    requires j < |es|
    ensures FragmentsPut(es, es, lfn, n, sum, 1, j, j)
  {
  }

  /** A removed entry. */
  predicate IsWiped(e: DirEntry) {
    e[0] == DDEM && forall i :: 1 <= i < 32 ==> e[i] == 0
  }

  /** From `fs` to `gs` the entries from `start` to `j` are removed. */
  ghost predicate Removed(fs: seq<DirEntry>, gs: seq<DirEntry>, start: nat, j: nat) {
    && start <= j < |fs| == |gs|
    && forall k :: 0 <= k < |fs| ==> if start <= k <= j then IsWiped(gs[k]) else gs[k] == fs[k]
  }

  /** The entries from `start` up to `i` are removed. */
  ghost predicate RemovedUpTo(fs: seq<DirEntry>, gs: seq<DirEntry>, start: nat, i: nat) {
    && |gs| == |fs| && start <= i <= |fs|
    && forall k :: 0 <= k < |fs| ==> if start <= k < i then IsWiped(gs[k]) else gs[k] == fs[k]
  }

  lemma NoneRemoved(fs: seq<DirEntry>, start: nat, j: nat)
    requires start <= j < |fs|
    ensures RemovedUpTo(fs, fs, start, start)
  {
  }

  lemma OneMoreRemoved(fs: seq<DirEntry>, gs: seq<DirEntry>, e: DirEntry, start: nat, i: nat)
    requires RemovedUpTo(fs, gs, start, i) && i < |gs| && IsWiped(e)
    ensures RemovedUpTo(fs, gs[i := e], start, i + 1) && |gs| == |fs|
  {
    hide IsWiped;
  }

  lemma AllRemoved(fs: seq<DirEntry>, gs: seq<DirEntry>, start: nat, j: nat)
    requires RemovedUpTo(fs, gs, start, j + 1) && start <= j
    ensures Removed(fs, gs, start, j)
  {
    hide IsWiped;
  }

  /** The same entries are in use. */
  ghost predicate SameLive(es: seq<DirEntry>, gs: seq<DirEntry>) {
    && |gs| == |es|
    && forall k :: 0 <= k < |es| ==> (IsFree(gs[k]) <==> IsFree(es[k])) && (!IsFree(es[k]) ==> gs[k] == es[k])
  }

  /** Removing what was registered leaves the entries in use that were in use before. */
  lemma RemoveRestores(es: seq<DirEntry>, fs: seq<DirEntry>, gs: seq<DirEntry>, lfn: seq<Wchar>, n: nat,
                       fn: seq<Byte>, nt: Byte, nent: nat, j: nat)
    requires FirstRun(es, nent, j) && Registered(es, fs, lfn, n, fn, nt, nent, j) && Removed(fs, gs, j + 1 - nent, j)
    ensures SameLive(es, gs)
  {
    hide IsFragment;
  }

  /** Search passes over a removed block. */
  lemma {:induction false} SkipWiped(up: Upper, q: Query, gs: seq<DirEntry>, i: nat, b: nat,
                                     st: State) returns (next: State)
    requires GoodQuery(q) && i <= b <= |gs| && forall k :: i <= k < b ==> gs[k][0] == DDEM
    ensures FindFrom(up, q, gs, i, st) == FindFrom(up, q, gs, b, next)
    ensures next == if i == b then st else State(0xFF, st.sum, NO_LFN)
    decreases b - i
  {
    next := st;
    if i < b {
      FindGoes(up, q, gs, i, st, Reset(st));
      hide Look;
      next := SkipWiped(up, q, gs, i + 1, b, Reset(st));
    }
  }

  /** Two directories that agree from an index on are searched alike from there. */
  lemma {:induction false} SameSuffix(up: Upper, q: Query, es: seq<DirEntry>, gs: seq<DirEntry>, i: nat, st: State)
    requires GoodQuery(q) && i <= |es| == |gs| && forall k :: i <= k < |es| ==> gs[k] == es[k]
    ensures FindFrom(up, q, gs, i, st) == FindFrom(up, q, es, i, st)
    decreases |es| - i
  {
    hide Look;
    if i < |es| && Look(up, q, es[i], i, st).Go? {
      SameSuffix(up, q, es, gs, i + 1, Look(up, q, es[i], i, st).st);
    }
  }

  lemma EndFound(up: Upper, q: Query, gs: seq<DirEntry>, i: nat, st: State)
    requires GoodQuery(q) && i <= |gs| && (i < |gs| ==> gs[i][0] == 0)
    ensures FindFrom(up, q, gs, i, st) == NoFile
  {
  }

  /** ... and the name is gone again. */
  lemma RemoveForgets(up: Upper, q: Query, es: seq<DirEntry>, gs: seq<DirEntry>, nent: nat, j: nat)
    requires GoodQuery(q) && Tidy(es) && nent >= 1 && FirstRun(es, nent, j) && Find(up, q, es) == NoFile
    requires |gs| == |es|
    requires forall k :: 0 <= k < |es| ==> if j < k + nent && k <= j then gs[k][0] == DDEM else gs[k] == es[k]
    ensures Find(up, q, gs) == NoFile
  {
    var b := j + 1 - nent;
    forall k | 0 <= k < b
      ensures gs[k] == es[k] && es[k][0] != 0
    {
      NoEndBefore(es, nent, j, k);
    }
    hide Look;
    var st := SkipPrefix(up, q, es, gs, 0, b, START);
    var next := SkipWiped(up, q, gs, b, j + 1, st);
    if j + 1 < |es| && es[j + 1][0] != 0 {
      // no end mark in the block: it was deleted entries already
      assert forall k :: b <= k <= j ==> es[k][0] == DDEM;
      var same := SkipWiped(up, q, es, b, j + 1, st);
      SameSuffix(up, q, es, gs, j + 1, next);
    } else {
      EndFound(up, q, gs, j + 1, next);
    }
  }

  // ---- whole operations ----

  lemma DdemIs()
    ensures DDEM == 0xE5
  {
  }

  lemma LongQuery(q: Query)
    requires |q.lfn| == MAX_LFN + 1 && |q.fn| == 11
    ensures GoodQuery(q)
  {
  }
}
