/**
 What a search in a directory finds: the first short entry in use that carries the name, by its short
 name or by the fragments of a long name right before it. Nothing here refers to how the search goes.
 */
module DirNames {
  import opened Bits
  import opened Lfn
  import opened DirScan

  /** The `m` entries before the short entry `k` are a long name tied to it: fragments 1 to `m` from the
      back, the foremost one marked, with the checksum of the short name. */
  ghost predicate Sequence(es: seq<DirEntry>, k: nat, m: nat) {
    && 1 <= m <= k < |es|
    && forall j: nat :: k - m <= j < k ==>
      IsLong(es[j]) && es[j][0] as nat == (if j == k - m then m + 0x40 else k - j)
      && es[j][13] == SumOf(ShortName(es[k]))
  }

  /** The characters of the entries from `a` to `k` are those of `lfn`, up to case. */
  ghost predicate Spells(up: Upper, lfn: seq<Wchar>, es: seq<DirEntry>, a: nat, k: nat)
    requires |lfn| == MAX_LFN + 1 && k <= |es|
  {
    forall j: nat :: a <= j < k ==> CharsAgree(up, lfn, es[j][0], Chars(es[j]))
  }

  /** The short entry `k` has a long name, and it is `lfn` up to case. */
  ghost predicate LongNamed(up: Upper, lfn: seq<Wchar>, es: seq<DirEntry>, k: nat)
    requires |lfn| == MAX_LFN + 1
  {
    exists m: nat :: Sequence(es, k, m) && Spells(up, lfn, es, k - m, k)
  }

  /** Entry `k` is a short entry in use that carries the name. */
  ghost predicate Carries(up: Upper, q: Query, es: seq<DirEntry>, k: nat)
    requires GoodQuery(q)
  {
    && k < |es| && IsShort(es[k])
    && ((!q.loss && ShortName(es[k]) == q.fn) || (q.hasLfn && LongNamed(up, q.lfn, es, k)))
  }

  /** The table has an end mark at `i`. */
  predicate EndsAt(es: seq<DirEntry>, i: nat) {
    i < |es| && es[i][0] == 0
  }

  /** Entry `k` is the first one before the end mark that carries the name. */
  ghost predicate Named(up: Upper, q: Query, es: seq<DirEntry>, k: nat) {
    && GoodQuery(q) && Carries(up, q, es, k)
    && forall i: nat :: i < k ==> !EndsAt(es, i) && !Carries(up, q, es, i)
  }

  /** No entry before the end mark carries the name. */
  ghost predicate Unnamed(up: Upper, q: Query, es: seq<DirEntry>) {
    forall k: nat :: !Named(up, q, es, k)
  }

  // ---- the search finds just that ----

  /** The entries from `a` to `i` are the foremost of `m` fragments with the checksum `sum`, and agree. */
  ghost predicate Partial(up: Upper, lfn: seq<Wchar>, es: seq<DirEntry>, i: nat, m: nat, a: nat, sum: Byte)
    requires |lfn| == MAX_LFN + 1
  {
    && a < i <= |es| && i - a <= m
    && forall j: nat :: a <= j < i ==> Part(up, lfn, es[j], First(m, j - a), sum)
  }

  /** The order byte of the fragment after `c` others, of `m`. */
  function First(m: nat, c: nat): int {
    if c == 0 then m + 0x40 else m - c
  }

  ghost predicate Part(up: Upper, lfn: seq<Wchar>, e: DirEntry, first: int, sum: Byte)
    requires |lfn| == MAX_LFN + 1
  {
    IsLong(e) && e[0] == first && e[13] == sum && CharsAgree(up, lfn, e[0], Chars(e))
  }

  /** The state of the search at entry `i`: the order still to come, 0xFF if the fragments before `i` are
      not the beginning of the name. */
  ghost predicate Follows(up: Upper, q: Query, es: seq<DirEntry>, i: nat, st: State)
    requires GoodQuery(q)
  {
    if !q.hasLfn then st.ord == 0xFF
    else
      && (forall m: nat, a: nat, sum ::
            Partial(up, q.lfn, es, i, m, a, sum) ==> st.ord == m - (i - a) && st.sum == sum)
      && (st.ord == 0xFF || exists m: nat, a: nat :: Partial(up, q.lfn, es, i, m, a, st.sum) && st.ord == m - (i - a))
  }

  /** Orders are small where the characters agree. */
  lemma SmallOrder(up: Upper, lfn: seq<Wchar>, e: DirEntry)
    requires |lfn| == MAX_LFN + 1 && CharsAgree(up, lfn, e[0], Chars(e))
    ensures 1 <= Order(e) <= 20 && Agrees(up, lfn, e)
    ensures e[0] as nat == if IsLast(e) then Order(e) + 0x40 else Order(e)
  {
    AgreesIff(up, lfn, e);
    OrderIs(e);
    hide Agrees, Chars, Ends;
  }

  lemma PartIs(up: Upper, lfn: seq<Wchar>, e: DirEntry, first: int, sum: Byte)
    requires |lfn| == MAX_LFN + 1 && IsLong(e)
    ensures Part(up, lfn, e, first, sum) <==> e[0] == first && e[13] == sum && Agrees(up, lfn, e)
    ensures Part(up, lfn, e, first, sum) ==>
      1 <= Order(e) <= 20 && first == if IsLast(e) then Order(e) + 0x40 else Order(e)
  {
    AgreesIff(up, lfn, e);
    if CharsAgree(up, lfn, e[0], Chars(e)) {
      SmallOrder(up, lfn, e);
    }
    hide Agrees, CharsAgree, Chars, Order, IsLast;
  }

  /** A sequence that reaches beyond an entry ends with it. */
  lemma PartialLast(up: Upper, lfn: seq<Wchar>, es: seq<DirEntry>, i: nat, m: nat, a: nat, sum: Byte)
    requires |lfn| == MAX_LFN + 1 && i < |es|
    ensures Partial(up, lfn, es, i + 1, m, a, sum) <==>
      && a <= i && i + 1 - a <= m && Part(up, lfn, es[i], First(m, i - a), sum)
      && (a < i ==> Partial(up, lfn, es, i, m, a, sum))
  {
    hide Part, First;
  }

  lemma PartIsLong(up: Upper, lfn: seq<Wchar>, e: DirEntry, first: int, sum: Byte)
    requires |lfn| == MAX_LFN + 1 && Part(up, lfn, e, first, sum)
    ensures IsLong(e)
  {
    hide IsLong, CharsAgree, Chars;
  }

  /** An entry that is no fragment starts anew. */
  lemma FollowsReset(up: Upper, q: Query, es: seq<DirEntry>, i: nat, st: State)
    requires GoodQuery(q) && i < |es| && !IsLong(es[i])
    ensures Follows(up, q, es, i + 1, Reset(st))
  {
    if q.hasLfn {
      var n: nat := i + 1;
      forall m: nat, a: nat, sum: Byte
        ensures !Partial(up, q.lfn, es, n, m, a, sum)
      {
        PartialLast(up, q.lfn, es, i, m, a, sum);
        if a <= i {
          NotLongIsNoPart(up, q.lfn, es[i], First(m, i - a), sum);
        }
      }
    }
  }

  lemma NotLongIsNoPart(up: Upper, lfn: seq<Wchar>, e: DirEntry, first: int, sum: Byte)
    requires |lfn| == MAX_LFN + 1 && !IsLong(e)
    ensures !Part(up, lfn, e, first, sum)
  {
    hide IsLong, CharsAgree, Chars;
  }

  /** A fragment goes on with the sequence, or starts one. */
  lemma FollowsFragment(up: Upper, q: Query, es: seq<DirEntry>, i: nat, st: State)
    requires GoodQuery(q) && q.hasLfn && i < |es| && IsLong(es[i]) && Follows(up, q, es, i, st)
    ensures Follows(up, q, es, i + 1, Fragment(up, q.lfn, es[i], i, st))
  {
    var next := Fragment(up, q.lfn, es[i], i, st);
    var n: nat := i + 1;
    forall m: nat, a: nat, sum: Byte | Partial(up, q.lfn, es, n, m, a, sum)
      ensures next.ord == m - (i + 1 - a) && next.sum == sum
    {
      PartialLast(up, q.lfn, es, i, m, a, sum);
      PartGoesOn(up, q, es, i, st, m, a, sum);
    }
    if next.ord != 0xFF {
      var m, a := FragmentGoesOn(up, q, es, i, st);
    }
    hide Partial, Fragment;
  }

  lemma PartGoesOn(up: Upper, q: Query, es: seq<DirEntry>, i: nat, st: State, m: nat, a: nat, sum: Byte)
    requires GoodQuery(q) && q.hasLfn && i < |es| && IsLong(es[i]) && Follows(up, q, es, i, st)
    requires Partial(up, q.lfn, es, i + 1, m, a, sum)
    ensures a <= i < a + m
    ensures var next := Fragment(up, q.lfn, es[i], i, st); next.ord == m - (i + 1 - a) && next.sum == sum
  {
    PartialLast(up, q.lfn, es, i, m, a, sum);
    PartIs(up, q.lfn, es[i], First(m, i - a), sum);
    SmallMark(up, q.lfn, es, i, m, a, sum);
    hide Partial, Part, Agrees, IsLong, Order, IsLast;
  }

  /** A sequence has at most 20 fragments, so that an unmarked order is no mark. */
  lemma SmallMark(up: Upper, lfn: seq<Wchar>, es: seq<DirEntry>, i: nat, m: nat, a: nat, sum: Byte)
    requires |lfn| == MAX_LFN + 1 && i < |es| && Partial(up, lfn, es, i + 1, m, a, sum)
    ensures a <= i < a + m && m <= 20 && (IsLast(es[i]) <==> i == a) && Order(es[i]) == m - (i - a)
  {
    assert Part(up, lfn, es[a], First(m, a - a), sum);
    assert Part(up, lfn, es[i], First(m, i - a), sum);
    PartIsLong(up, lfn, es[a], First(m, 0), sum);
    PartIsLong(up, lfn, es[i], First(m, i - a), sum);
    PartIs(up, lfn, es[a], First(m, 0), sum);
    PartIs(up, lfn, es[i], First(m, i - a), sum);
    hide Part, Order, IsLast;
  }

  lemma FragmentGoesOn(up: Upper, q: Query, es: seq<DirEntry>, i: nat, st: State) returns (m: nat, a: nat)
    requires GoodQuery(q) && q.hasLfn && i < |es| && IsLong(es[i]) && Follows(up, q, es, i, st)
    requires Fragment(up, q.lfn, es[i], i, st).ord != 0xFF
    ensures var next := Fragment(up, q.lfn, es[i], i, st);
      Partial(up, q.lfn, es, i + 1, m, a, next.sum) && next.ord == m - (i + 1 - a)
  {
    var e := es[i];
    var next := Fragment(up, q.lfn, e, i, st);
    FragmentAgrees(up, q.lfn, e, i, st);
    PartIs(up, q.lfn, e, e[0], e[13]);
    if IsLast(e) {
      m, a := Order(e), i;
      PartialLast(up, q.lfn, es, i, m, a, e[13]);
    } else {
      m, a :| Partial(up, q.lfn, es, i, m, a, st.sum) && st.ord == m - (i - a);
      PartialLast(up, q.lfn, es, i, m, a, st.sum);
      assert Partial(up, q.lfn, es, i + 1, m, a, next.sum);
    }
  }

  lemma FragmentAgrees(up: Upper, lfn: seq<Wchar>, e: DirEntry, i: nat, st: State)
    requires |lfn| == MAX_LFN + 1 && Fragment(up, lfn, e, i, st).ord != 0xFF
    ensures Agrees(up, lfn, e) && CharsAgree(up, lfn, e[0], Chars(e)) && 1 <= Order(e) <= 20
    ensures e[0] as nat == if IsLast(e) then Order(e) + 0x40 else Order(e)
    ensures var next := Fragment(up, lfn, e, i, st);
      next.ord == Order(e) - 1 && next.sum == e[13] && (!IsLast(e) ==> st.ord == Order(e) && st.sum == e[13])
  {
    AgreesIff(up, lfn, e);
    hide CharsAgree, Chars, Order, IsLast;
    if Agrees(up, lfn, e) {
      SmallOrder(up, lfn, e);
    }
  }

  /** All fragments and the checksum of the short name: the long name. */
  lemma FollowsAll(up: Upper, q: Query, es: seq<DirEntry>, k: nat, st: State)
    requires GoodQuery(q) && k < |es| && Follows(up, q, es, k, st)
    ensures st.ord == 0 && st.sum == SumOf(ShortName(es[k])) <==> q.hasLfn && LongNamed(up, q.lfn, es, k)
  {
    var sum := SumOf(ShortName(es[k]));
    hide SumOf, ShortName, Partial, Sequence, Spells;
    if q.hasLfn && LongNamed(up, q.lfn, es, k) {
      var m: nat :| Sequence(es, k, m) && Spells(up, q.lfn, es, k - m, k);
      WholeIs(up, q.lfn, es, k, m);
    }
    if st.ord == 0 && st.sum == sum {
      var m: nat, a: nat :| Partial(up, q.lfn, es, k, m, a, sum) && st.ord == m - (k - a);
      PartialBounds(up, q.lfn, es, k, m, a, sum);
      WholeIs(up, q.lfn, es, k, m);
    }
  }

  lemma PartialBounds(up: Upper, lfn: seq<Wchar>, es: seq<DirEntry>, i: nat, m: nat, a: nat, sum: Byte)
    requires |lfn| == MAX_LFN + 1 && Partial(up, lfn, es, i, m, a, sum)
    ensures a < i <= |es| && i - a <= m
  {
    hide Part;
  }

  lemma WholeIs(up: Upper, lfn: seq<Wchar>, es: seq<DirEntry>, k: nat, m: nat)
    requires |lfn| == MAX_LFN + 1 && k < |es|
    ensures 1 <= m <= k && Partial(up, lfn, es, k, m, k - m, SumOf(ShortName(es[k]))) <==>
      Sequence(es, k, m) && Spells(up, lfn, es, k - m, k)
    ensures Sequence(es, k, m) ==> 1 <= m <= k
  {
    hide IsLong, CharsAgree, Chars, SumOf, ShortName;
  }

  /** One entry of the search. */
  lemma LooksRight(up: Upper, q: Query, es: seq<DirEntry>, i: nat, st: State)
    requires GoodQuery(q) && i < |es| && Follows(up, q, es, i, st)
    ensures match Look(up, q, es[i], i, st)
      case End => EndsAt(es, i)
      case Match => !EndsAt(es, i) && Carries(up, q, es, i)
      case Go(next) => !EndsAt(es, i) && !Carries(up, q, es, i) && Follows(up, q, es, i + 1, next)
  {
    var e := es[i];
    if e[0] != 0 {
      if !IsLong(e) {
        FollowsReset(up, q, es, i, st);
        FollowsAll(up, q, es, i, st);
      } else if q.hasLfn {
        FollowsFragment(up, q, es, i, st);
      }
      Kinds(e);
    }
    hide Fragment, LongNamed, SumOf, Partial;
  }

  lemma Kinds(e: DirEntry)
    ensures e[0] != 0 && !IsVoid(e) ==> (IsLong(e) <==> Attr(e) == AM_LFN as nat) && (IsShort(e) <==> !IsLong(e))
    ensures e[0] != 0 && IsVoid(e) ==> !IsLong(e) && !IsShort(e)
    ensures e[0] == 0 ==> !IsShort(e) && !IsLong(e)
  {
  }

  /** From entry `i` on, where none before carries the name. */
  lemma {:induction false} FindIs(up: Upper, q: Query, es: seq<DirEntry>, i: nat, st: State)
    requires GoodQuery(q) && i <= |es| && Follows(up, q, es, i, st)
    requires forall k: nat :: k < i ==> !EndsAt(es, k) && !Carries(up, q, es, k)
    ensures match FindFrom(up, q, es, i, st)
      case NoFile => Unnamed(up, q, es)
      case At(k, _) => Named(up, q, es, k)
    decreases |es| - i
  {
    hide Look, Follows, Carries, EndsAt;
    if i == |es| {
      AtEnd(up, q, es, i, st);
      NoneCarries(up, q, es);
    } else {
      LooksRight(up, q, es, i, st);
      FindOnce(up, q, es, i, st);
      var v := Look(up, q, es[i], i, st);
      if v.Go? {
        FindIs(up, q, es, i + 1, v.st);
      } else if v.End? {
        NoneBefore(up, q, es, i);
      }
    }
  }

  lemma NoneCarries(up: Upper, q: Query, es: seq<DirEntry>)
    requires GoodQuery(q) && forall k: nat :: k < |es| ==> !Carries(up, q, es, k)
    ensures Unnamed(up, q, es)
  {
  }

  lemma NoneBefore(up: Upper, q: Query, es: seq<DirEntry>, i: nat)
    requires GoodQuery(q) && EndsAt(es, i) && forall k: nat :: k < i ==> !Carries(up, q, es, k)
    ensures Unnamed(up, q, es)
  {
    Kinds(es[i]);
    hide LongNamed, IsShort;
  }

  /** On every table the search ends at the first entry that carries the name, and at none if there
      is none. */
  lemma FindIff(up: Upper, q: Query, es: seq<DirEntry>)
    requires GoodQuery(q)
    ensures match Find(up, q, es)
      case NoFile => Unnamed(up, q, es)
      case At(k, _) => Named(up, q, es, k) && forall i: nat :: Named(up, q, es, i) ==> i == k
  {
    NothingFollows(up, q, es);
    FindIs(up, q, es, 0, START);
    hide Carries, FindFrom;
  }

  lemma NothingFollows(up: Upper, q: Query, es: seq<DirEntry>)
    requires GoodQuery(q)
    ensures Follows(up, q, es, 0, START)
  {
  }

  lemma NamedIf(up: Upper, q: Query, es: seq<DirEntry>, k: nat)
    requires GoodQuery(q)
    ensures match Find(up, q, es) case NoFile => !Named(up, q, es, k) case At(i, s) => Named(up, q, es, k) <==> i == k
  {
    FindIff(up, q, es);
    hide Find, Named;
  }

  lemma UnnamedIff(up: Upper, q: Query, es: seq<DirEntry>)
    requires GoodQuery(q)
    ensures Find(up, q, es) == NoFile <==> Unnamed(up, q, es)
  {
    FindIff(up, q, es);
    hide Find, Named;
  }

  // ---- well-formed long names ----

  /** The fragments of the name of `n` characters in `buf`, tied to the short entry `k` by order and checksum,
      lie right before it. */
  ghost predicate HasLongName(es: seq<DirEntry>, k: nat, buf: seq<Wchar>, n: nat) {
    && k < |es| && Holds(buf, n) && 1 <= n && Fragments(n) <= k
    && forall j: nat :: k - Fragments(n) <= j < k ==> IsFragment(es[j], buf, n, k - j, SumOf(ShortName(es[k])))
  }

  /** An entry with a whole long name of up to 254 characters carries exactly the names that are equal to
      it up to case. */
  lemma LongNamedIff(up: Upper, lfn: seq<Wchar>, l: nat, es: seq<DirEntry>, k: nat, buf: seq<Wchar>, n: nat)
    requires UpperOk(up) && Holds(lfn, l) && HasLongName(es, k, buf, n) && n <= 254
    ensures LongNamed(up, lfn, es, k) <==> SameName(up, buf, n, lfn, l)
  {
    var m := Fragments(n);
    var sum := SumOf(ShortName(es[k]));
    var fs := seq(m, i requires 0 <= i < m => es[k - 1 - i]);
    HasSequence(es, k, buf, n);
    FragmentsAre(es, k, buf, n, fs);
    CmpIff(up, buf, n, lfn, l, fs, sum);
    SpellsIff(up, lfn, es, k, m, fs);
    hide HasLongName, Spells, SumOf, SameName, AreFragments, Agrees, Sequence;
    if LongNamed(up, lfn, es, k) {
      var u: nat :| Sequence(es, k, u) && Spells(up, lfn, es, k - u, k);
      OneSequence(es, k, m, u);
    }
  }

  lemma FragmentsAre(es: seq<DirEntry>, k: nat, buf: seq<Wchar>, n: nat, fs: seq<DirEntry>)
    requires HasLongName(es, k, buf, n) && |fs| == Fragments(n)
    requires forall i :: 0 <= i < |fs| ==> fs[i] == es[k - 1 - i]
    ensures AreFragments(fs, buf, n, SumOf(ShortName(es[k])))
  {
    hide IsFragment, SumOf, ShortName, Holds;
    forall i | 0 <= i < |fs|
      ensures IsFragment(fs[i], buf, n, i + 1, SumOf(ShortName(es[k])))
    {
      assert IsFragment(es[k - 1 - i], buf, n, k - (k - 1 - i), SumOf(ShortName(es[k])));
    }
  }

  lemma SpellsIff(up: Upper, lfn: seq<Wchar>, es: seq<DirEntry>, k: nat, m: nat, fs: seq<DirEntry>)
    requires |lfn| == MAX_LFN + 1 && |fs| == m <= k <= |es| && forall i :: 0 <= i < m ==> fs[i] == es[k - 1 - i]
    ensures Spells(up, lfn, es, k - m, k) <==> forall i :: 0 <= i < m ==> Agrees(up, lfn, fs[i])
  {
    forall j: nat | k - m <= j < k
      ensures fs[k - 1 - j] == es[j] && (Agrees(up, lfn, es[j]) <==> CharsAgree(up, lfn, es[j][0], Chars(es[j])))
    {
      AgreesIff(up, lfn, es[j]);
    }
    hide Agrees, CharsAgree, Chars;
    if Spells(up, lfn, es, k - m, k) {
      forall i | 0 <= i < m
        ensures Agrees(up, lfn, fs[i])
      {
        assert fs[i] == es[k - 1 - i];
      }
    }
  }

  lemma HasSequence(es: seq<DirEntry>, k: nat, buf: seq<Wchar>, n: nat)
    requires HasLongName(es, k, buf, n)
    ensures Sequence(es, k, Fragments(n)) && Fragments(n) <= 20
  {
    var sum := SumOf(ShortName(es[k]));
    forall j: nat | k - Fragments(n) <= j < k
      ensures IsLong(es[j]) && es[j][13] == sum
      ensures es[j][0] as nat == if j == k - Fragments(n) then Fragments(n) + 0x40 else k - j
    {
      LongIs(es[j], buf, n, k - j, sum);
    }
    hide IsLong, IsFragment, SumOf, ShortName;
  }

  lemma LongIs(e: DirEntry, buf: seq<Wchar>, n: nat, ord: nat, sum: Byte)
    requires n >= 1 && ord <= Fragments(n) && IsFragment(e, buf, n, ord, sum)
    ensures IsLong(e) && e[13] == sum && e[0] as nat == if ord == Fragments(n) then ord + 0x40 else ord
  {
    hide LfnChar, Padded;
  }

  lemma OneSequence(es: seq<DirEntry>, k: nat, m: nat, u: nat)
    requires Sequence(es, k, m) && Sequence(es, k, u) && m <= 20
    ensures u == m
  {
    InSequence(es, k, m, u);
    InSequence(es, k, u, m);
    InSequence(es, k, m, m);
    InSequence(es, k, u, u);
    hide Sequence;
  }

  lemma InSequence(es: seq<DirEntry>, k: nat, m: nat, i: nat)
    requires Sequence(es, k, m)
    ensures 1 <= m <= k < |es|
    ensures 1 <= i <= m ==> es[k - i][0] as nat == (if i == m then m + 0x40 else i) && IsLong(es[k - i])
  {
    hide IsLong, SumOf;
    if 1 <= i <= m {
      var j: nat := k - i;
      assert k - m <= j < k;
      assert es[j] == es[k - i];
    }
  }

  /** An entry with no fragment right before it carries no long name. */
  lemma NoLongName(up: Upper, lfn: seq<Wchar>, es: seq<DirEntry>, k: nat)
    requires |lfn| == MAX_LFN + 1 && k < |es| && (k == 0 || !IsLong(es[k - 1]))
    ensures !LongNamed(up, lfn, es, k)
  {
    forall m: nat
      ensures !Sequence(es, k, m)
    {
      NoFragmentNoSequence(es, k, m);
    }
    hide Sequence;
  }

  lemma NoFragmentNoSequence(es: seq<DirEntry>, k: nat, m: nat)
    requires k < |es| && (k == 0 || !IsLong(es[k - 1]))
    ensures !Sequence(es, k, m)
  {
    hide IsLong, SumOf;
  }

  // ---- short names ----

  /** No entry in use has the short name `fn`. */
  ghost predicate NotThere(up: Upper, fn: seq<Byte>, lfn: seq<Wchar>, es: seq<DirEntry>) {
    && |fn| == 11 && |lfn| == MAX_LFN + 1
    && forall k: nat :: k < |es| && IsShort(es[k]) && ShortName(es[k]) == fn ==> exists i: nat :: i < k && EndsAt(es, i)
  }

  lemma NotThereIf(up: Upper, fn: seq<Byte>, lfn: seq<Wchar>, es: seq<DirEntry>)
    requires |fn| == 11 && |lfn| == MAX_LFN + 1
    ensures NotThere(up, fn, lfn, es) <==> Find(up, Query(false, lfn, fn, false), es) == NoFile
    ensures GoodQuery(Query(false, lfn, fn, false))
  {
    var q := Query(false, lfn, fn, false);
    UnnamedIff(up, q, es);
    forall k: nat
      ensures Carries(up, q, es, k) <==> k < |es| && IsShort(es[k]) && ShortName(es[k]) == fn
    {
    }
    hide Find, Carries, IsShort;
    if NotThere(up, fn, lfn, es) {
      assert Unnamed(up, q, es);
    } else {
      var k: nat :| k < |es| && IsShort(es[k]) && ShortName(es[k]) == fn && forall i: nat :: i < k ==> !EndsAt(es, i);
      var j := FirstCarrier(up, q, es, k);
      assert Named(up, q, es, j);
    }
  }

  lemma {:induction false} FirstCarrier(up: Upper, q: Query, es: seq<DirEntry>, k: nat) returns (j: nat)
    requires GoodQuery(q) && Carries(up, q, es, k)
    ensures j <= k && Carries(up, q, es, j) && forall i: nat :: i < j ==> !Carries(up, q, es, i)
  {
    hide Carries;
    if i: nat :| i < k && Carries(up, q, es, i) {
      j := FirstCarrier(up, q, es, i);
    } else {
      j := k;
    }
  }
}
