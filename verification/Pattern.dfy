/**
 The wildcard matcher of `f_findfirst`: `?` stands for one character, `*` for any run of
 characters, letters are compared without case.
 */
module Pattern {
  import opened Lfn

  const ANY_ONE: Wchar := 63        // '?'
  const ANY_RUN: Wchar := 42        // '*'

  predicate IsWild(c: Wchar) { c == ANY_ONE || c == ANY_RUN }

  /** A string without its terminator. */
  ghost predicate NoZero(s: seq<Wchar>) {
    forall i :: 0 <= i < |s| ==> s[i] != 0
  }

  /** The name `nam` is in the language of the pattern `pat`. */
  ghost predicate Matches(up: Upper, pat: seq<Wchar>, nam: seq<Wchar>)
    decreases |pat|, |nam|
  {
    if pat == [] then nam == []
    else if pat[0] == ANY_ONE then nam != [] && Matches(up, pat[1..], nam[1..])
    else if pat[0] == ANY_RUN then Matches(up, pat[1..], nam) || (nam != [] && Matches(up, pat, nam[1..]))
    else nam != [] && up(nam[0]) == up(pat[0]) && Matches(up, pat[1..], nam[1..])
  }

  /** Some suffix of the name, from position `from` on, matches. */
  ghost predicate SomeSuffix(up: Upper, pat: seq<Wchar>, nam: seq<Wchar>, from: nat) {
    exists k: nat :: from <= k <= |nam| && Matches(up, pat, nam[k..])
  }

  /** The call `pattern_matching(pat, nam, skip, inf)` tests this. */
  ghost predicate Tested(up: Upper, pat: seq<Wchar>, nam: seq<Wchar>, skip: nat, inf: bool) {
    skip <= |nam| && if inf then SomeSuffix(up, pat, nam, skip) else Matches(up, pat, nam[skip..])
  }

  /** `*` at the start stands for any prefix of the name. */
  lemma {:induction false} RunMatches(up: Upper, pat: seq<Wchar>, nam: seq<Wchar>)
    requires pat != [] && pat[0] == ANY_RUN
    ensures Matches(up, pat, nam) <==> SomeSuffix(up, pat[1..], nam, 0)
    decreases |nam|
  {
    assert nam[0..] == nam;
    if nam != [] {
      RunMatches(up, pat, nam[1..]);
      if SomeSuffix(up, pat[1..], nam[1..], 0) {
        var k: nat :| k <= |nam[1..]| && Matches(up, pat[1..], nam[1..][k..]);
        assert nam[1..][k..] == nam[k + 1..];
      }
      if SomeSuffix(up, pat[1..], nam, 0) && !Matches(up, pat[1..], nam) {
        var k: nat :| k <= |nam| && Matches(up, pat[1..], nam[k..]);
        assert k > 0 && nam[k..] == nam[1..][k - 1..];
      }
    }
  }

  /** `nm` question marks and, with `nx`, at least one star in any order, then `rest`. */
  ghost predicate Block(w: seq<Wchar>, nm: nat, nx: bool)
    decreases |w|
  {
    if w == [] then nm == 0 && !nx
    else if w[0] == ANY_ONE then nm > 0 && Block(w[1..], nm - 1, nx)
    else w[0] == ANY_RUN && nx && (Block(w[1..], nm, true) || Block(w[1..], nm, false))
  }

  /** A block of wildcards tests the rest of the pattern. */
  lemma {:induction false} BlockMatches(up: Upper, w: seq<Wchar>, nm: nat, nx: bool, rest: seq<Wchar>, nam: seq<Wchar>)
    requires Block(w, nm, nx)
    ensures Matches(up, w + rest, nam) <==> Tested(up, rest, nam, nm, nx)
    decreases |w|, |nam|
  {
    if w == [] {
      assert w + rest == rest && nam[0..] == nam;
    } else {
      assert (w + rest)[1..] == w[1..] + rest;
      if w[0] == ANY_ONE {
        if nam != [] {
          BlockMatches(up, w[1..], nm - 1, nx, rest, nam[1..]);
          TestedShift(up, rest, nam, nm, nx);
        }
      } else {
        RunMatches(up, w + rest, nam);
        var b := Block(w[1..], nm, true);
        forall k: nat | k <= |nam|
          ensures Matches(up, w[1..] + rest, nam[k..]) <==> Tested(up, rest, nam[k..], nm, b)
        {
          BlockMatches(up, w[1..], nm, b, rest, nam[k..]);
        }
        StarTests(up, rest, nam, nm, b, w[1..] + rest);
      }
    }
  }

  lemma TestedShift(up: Upper, rest: seq<Wchar>, nam: seq<Wchar>, nm: nat, nx: bool)
    requires nam != [] && nm > 0
    ensures Tested(up, rest, nam[1..], nm - 1, nx) <==> Tested(up, rest, nam, nm, nx)
  {
    if nm <= |nam| {
      assert nam[1..][nm - 1..] == nam[nm..];
      forall k: nat | nm <= k <= |nam|
        ensures nam[1..][k - 1..] == nam[k..]
      {
      }
      if SomeSuffix(up, rest, nam[1..], nm - 1) {
        var k: nat :| nm - 1 <= k <= |nam[1..]| && Matches(up, rest, nam[1..][k..]);
        assert nam[1..][k..] == nam[k + 1..];
      }
      if SomeSuffix(up, rest, nam, nm) {
        var k: nat :| nm <= k <= |nam| && Matches(up, rest, nam[k..]);
        assert nam[k..] == nam[1..][k - 1..];
      }
    }
  }

  /** Testing some suffix, then skipping, is testing all suffixes after skipping. */
  lemma StarTests(up: Upper, rest: seq<Wchar>, nam: seq<Wchar>, nm: nat, b: bool, p: seq<Wchar>)
    requires forall k: nat :: k <= |nam| ==> (Matches(up, p, nam[k..]) <==> Tested(up, rest, nam[k..], nm, b))
    ensures SomeSuffix(up, p, nam, 0) <==> Tested(up, rest, nam, nm, true)
  {
    if SomeSuffix(up, p, nam, 0) {
      var k: nat :| k <= |nam| && Matches(up, p, nam[k..]);
      assert Tested(up, rest, nam[k..], nm, b);
      if b {
        var l: nat :| nm <= l <= |nam[k..]| && Matches(up, rest, nam[k..][l..]);
        assert nam[k..][l..] == nam[k + l..];
      } else {
        assert nam[k..][nm..] == nam[k + nm..];
      }
    }
    if Tested(up, rest, nam, nm, true) {
      var k: nat :| nm <= k <= |nam| && Matches(up, rest, nam[k..]);
      assert nam[k - nm..][nm..] == nam[k..];
      assert Tested(up, rest, nam[k - nm..], nm, b);
    }
  }

  /** A literal prefix of the pattern takes as many characters. */
  lemma {:induction false} LiteralTakes(up: Upper, pat: seq<Wchar>, n: nat, nam: seq<Wchar>)
    requires n <= |pat| && (forall i :: 0 <= i < n ==> !IsWild(pat[i])) && Matches(up, pat, nam)
    ensures |nam| >= n
    decreases n
  {
    if n > 0 {
      LiteralTakes(up, pat[1..], n - 1, nam[1..]);
    }
  }

  /** Once a name is too short for the literal prefix, so are its suffixes. */
  lemma TooShort(up: Upper, pat: seq<Wchar>, n: nat, nam: seq<Wchar>, from: nat)
    requires n <= |pat| && (forall i :: 0 <= i < n ==> !IsWild(pat[i]))
    requires from <= |nam| && |nam| - from < n
    ensures !SomeSuffix(up, pat, nam, from)
  {
    if SomeSuffix(up, pat, nam, from) {
      var k: nat :| from <= k <= |nam| && Matches(up, pat, nam[k..]);
      LiteralTakes(up, pat, n, nam[k..]);
    }
  }

  lemma Parted(s: seq<Wchar>, a: nat, b: nat)
    requires a <= b <= |s|
    ensures s[a..b] + s[b..] == s[a..]
  {
  }

  lemma NoZeroFrom(s: seq<Wchar>, a: nat)
    requires a <= |s| && NoZero(s)
    ensures NoZero(s[a..])
  {
  }

  /** The outcome of one attempt: matched, or not, and whether the end of the name was seen. */
  method Attempt(up: Upper, pat: seq<Wchar>, nam: seq<Wchar>, n: nat) returns (matched: bool, more: bool)
    requires UpperOk(up) && n <= |nam|
    requires NoZero(pat) && NoZero(nam)
    ensures matched <==> Matches(up, pat, nam[n..])
    ensures !matched && !more ==> !SomeSuffix(up, pat, nam, n)
    ensures more ==> n < |nam|
    decreases |pat|, 1
  {
    var pp, np := 0, n;
    ghost var start := nam[n..];
    assert pat[0..] == pat;
    while true
      invariant pp <= |pat| && np == n + pp <= |nam|
      invariant forall i :: 0 <= i < pp ==> !IsWild(pat[i])
      invariant Matches(up, pat, start) <==> Matches(up, pat[pp..], nam[np..])
      decreases |pat| - pp
    {
      if pp < |pat| && IsWild(pat[pp]) {
        var q, nm, nx := TakeBlock(pat, pp);
        BlockMatches(up, pat[pp..q], nm, nx, pat[q..], nam[np..]);
        Parted(pat, pp, q);
        NoZeroFrom(pat, q);
        NoZeroFrom(nam, np);
        matched := PatternMatching(up, pat[q..], nam[np..], nm, nx);
        more := np < |nam|;
        if !matched && !more {
          NoLater(up, pat, pp, nam, n);
        }
        return;
      }
      var pc: Wchar := if pp < |pat| then up(pat[pp]) else 0;
      var nc: Wchar := if np < |nam| then up(nam[np]) else 0;
      assert (pp < |pat| ==> up(pat[pp]) != 0) && (np < |nam| ==> up(nam[np]) != 0);
      if pc != nc {
        more := nc != 0;
        if !more {
          TooShort(up, pat, pp + 1, nam, n);
        }
        return false, more;
      }
      if pc == 0 {
        return true, false;
      }
      assert pat[pp..][1..] == pat[pp + 1..] && nam[np..][1..] == nam[np + 1..];
      pp, np := pp + 1, np + 1;
    }
  }

  /** The literal prefix took the whole name, and the rest failed: no later start can do. */
  lemma NoLater(up: Upper, pat: seq<Wchar>, n: nat, nam: seq<Wchar>, from: nat)
    requires n <= |pat| && (forall i :: 0 <= i < n ==> !IsWild(pat[i]))
    requires from + n == |nam| && !Matches(up, pat, nam[from..])
    ensures !SomeSuffix(up, pat, nam, from)
  {
    if SomeSuffix(up, pat, nam, from) {
      var k: nat :| from <= k <= |nam| && Matches(up, pat, nam[k..]);
      LiteralTakes(up, pat, n, nam[k..]);
    }
  }

  /** Counts the question marks of a block of wildcards, and looks for a star. */
  method TakeBlock(pat: seq<Wchar>, pp: nat) returns (q: nat, nm: nat, nx: bool)
    requires pp < |pat| && IsWild(pat[pp])
    ensures pp < q <= |pat| && Block(pat[pp..q], nm, nx)
  {
    q, nm, nx := pp, 0, false;
    assert pat[pp..pp] == [];
    while q < |pat| && IsWild(pat[q])
      invariant pp <= q <= |pat| && Block(pat[pp..q], nm, nx)
      invariant q == pp ==> IsWild(pat[q])
      decreases |pat| - q
    {
      assert pat[pp..q + 1] == pat[pp..q] + [pat[q]];
      BlockGrows(pat[pp..q], nm, nx, pat[q]);
      if pat[q] == ANY_ONE {
        nm := nm + 1;
      } else {
        nx := true;
      }
      q := q + 1;
    }
  }

  lemma {:induction false} BlockGrows(w: seq<Wchar>, nm: nat, nx: bool, c: Wchar)
    requires Block(w, nm, nx) && IsWild(c)
    ensures c == ANY_ONE ==> Block(w + [c], nm + 1, nx)
    ensures c == ANY_RUN ==> Block(w + [c], nm, true)
    decreases |w|
  {
    if w != [] {
      assert (w + [c])[1..] == w[1..] + [c];
      if w[0] == ANY_ONE {
        BlockGrows(w[1..], nm - 1, nx, c);
      } else {
        BlockGrows(w[1..], nm, Block(w[1..], nm, true), c);
      }
    } else {
      assert (w + [c])[1..] == [];
    }
  }

  /** `pattern_matching`: for the whole name, `skip` is 0 and `inf` is false. */
  method PatternMatching(up: Upper, pat: seq<Wchar>, nam: seq<Wchar>, skip: nat, inf: bool) returns (r: bool)
    requires UpperOk(up)
    requires NoZero(pat) && NoZero(nam)
    ensures r <==> Tested(up, pat, nam, skip, inf)
    ensures skip == 0 && !inf ==> (r <==> Matches(up, pat, nam))
    decreases |pat|, 2
  {
    assert nam[0..] == nam;
    var n: nat, s: nat := 0, skip;
    while s > 0
      invariant n + s == skip && n <= |nam|
    {
      if n == |nam| {
        return false;
      }
      n, s := n + 1, s - 1;
    }
    if pat == [] && inf {
      assert nam[|nam|..] == [];
      return true;
    }
    var going := true;
    while going
      invariant skip <= n && (going ==> n <= |nam|)
      invariant going ==> forall k: nat :: skip <= k < n ==> !Matches(up, pat, nam[k..])
      invariant going && !inf ==> n == skip
      invariant !going ==> !Tested(up, pat, nam, skip, inf)
      decreases going, |nam| - n
    {
      var more;
      r, more := Attempt(up, pat, nam, n);
      if r {
        return;
      }
      n := n + 1;
      going := inf && more;
    }
    r := false;
  }

  /** What the language is: `?` (63) is one character, `*` (42) any run of characters, and any other character
      stands for itself up to case. */
  lemma Language(up: Upper, c: Wchar, pat: seq<Wchar>, nam: seq<Wchar>)
    ensures Matches(up, [], nam) <==> nam == []
    ensures c == 63 ==> (Matches(up, [c] + pat, nam) <==> nam != [] && Matches(up, pat, nam[1..]))
    ensures c == 42 ==> (Matches(up, [c] + pat, nam) <==> exists k: nat :: k <= |nam| && Matches(up, pat, nam[k..]))
    ensures c != 63 && c != 42 ==>
      (Matches(up, [c] + pat, nam) <==> nam != [] && up(nam[0]) == up(c) && Matches(up, pat, nam[1..]))
  {
    var p := [c] + pat;
    assert p[0] == c && p[1..] == pat;
    if c == 42 {
      RunMatches(up, p, nam);
    }
  }
}
