/**
 A request that comes in any number of pieces: what is still to come can be read as if nothing had been
 cut, at every stage, exactly if no cut so far was made where a number was open.
 */
module HttpPieces {
  import opened Bits
  import opened HttpSpec
  import opened HttpChunks
  import opened HttpCuts

  /** With the bytes `x` no number is open at their end. */
  ghost predicate SettledAfter(rb: Reqb, x: seq<Byte>) {
    rb.size + |x| < |rb.buff| && Good(Ext(rb, x)) && SettledRun(Ext(rb, x))
  }

  /** At no cut among the first `n` a number is open. */
  ghost predicate CutsSettled(rb: Reqb, xs: seq<seq<Byte>>, n: nat)
    requires n <= |xs|
  {
    forall i :: 0 < i <= n ==> SettledAfter(rb, Concat(xs[..i]))
  }

  /** After the first `i` pieces: whatever comes, in a push of its own, the outcome is that of one push. */
  ghost predicate StageIsSafe(rb: Reqb, xs: seq<seq<Byte>>, i: nat)
    requires Good(rb) && i <= |xs|
  {
    forall y: seq<Byte> :: rb.size + |Concat(xs[..i])| + |y| < |rb.buff| ==>
      SameOutcome(Fed(true, rb, xs[..i] + [y]), Push(true, rb, Concat(xs[..i]) + y))
  }

  /** ... and so at each stage. */
  ghost predicate PiecesAreSafe(rb: Reqb, xs: seq<seq<Byte>>)
    requires Good(rb)
  {
    forall i: nat :: 0 < i <= |xs| ==> StageIsSafe(rb, xs, i)
  }

  lemma OutcomeTrans(a: Reqb, b: Reqb, c: Reqb)
    requires SameOutcome(a, b) && SameOutcome(b, c)
    ensures SameOutcome(a, c)
  {
    assert a.buff[..a.size] == b.buff[..b.size][..a.size] == c.buff[..b.size][..a.size];
  }

  lemma OutcomeFacts(a: Reqb, b: Reqb)
    requires SameOutcome(a, b)
    ensures a.state == b.state && a.req == b.req && a.size <= b.size && |a.buff| == |b.buff|
    ensures a.state == REQB_UNFINISHED ==> a == b
  {
  }

  // ---- one more piece ----

  lemma {:induction false} ConcatLast(xs: seq<seq<Byte>>, y: seq<Byte>)
    ensures Concat(xs + [y]) == Concat(xs) + y
  {
    if xs == [] {
      assert Concat([y]) == y + Concat([y][1..]) == y;
      assert [] + [y] == [y];
    } else {
      assert (xs + [y])[1..] == xs[1..] + [y];
      ConcatLast(xs[1..], y);
    }
  }

  lemma {:induction false} FedLast(rb: Reqb, xs: seq<seq<Byte>>, y: seq<Byte>)
    requires rb.state == REQB_UNFINISHED ==> Good(rb)
    ensures var f := Fed(true, rb, xs); f.state == REQB_UNFINISHED ==> Good(f)
    ensures Fed(true, rb, xs + [y]) == Push(true, Fed(true, rb, xs), y)
    decreases |xs|
  {
    hide *;
    FedStep(true, rb, xs + [y]);
    if xs == [] {
      FedNothing(true, rb, xs);
      assert (xs + [y])[1..] == [];
      FedNothing(true, Push(true, rb, y), []);
    } else {
      FedStep(true, rb, xs);
      assert (xs + [y])[1..] == xs[1..] + [y];
      FedLast(Push(true, rb, xs[0]), xs[1..], y);
    }
  }

  /** One more push, on what has the outcome of one push of `x`, goes on from there. */
  lemma NextPush(rb: Reqb, x: seq<Byte>, f: Reqb, y: seq<Byte>)
    requires Good(rb) && rb.size + |x| + |y| < |rb.buff| && SameOutcome(f, Push(true, rb, x))
    ensures (f.state == REQB_UNFINISHED ==> Good(f)) && Good(Ext(rb, x))
    ensures SameOutcome(Push(true, f, y), Resumed(Ext(rb, x), y))
  {
    hide *;
    Unfinished(rb);
    ExtFacts(rb, x);
    PushFits(true, rb, x);
    PushKeeps(true, rb, x);
    var e, p := Ext(rb, x), Push(true, rb, x);
    OutcomeFacts(f, p);
    ExtFacts(e, y);
    ResumedIs(e, y);
    ResumedSize(e, y);
    if p.state == REQB_UNFINISHED {
      PushFits(true, p, y);
      OutcomeRefl(Resumed(e, y));
    } else {
      Ended(true, f, y);
      OutcomeExt(p, y);
      OutcomeTrans(f, p, Ext(p, y));
    }
  }

  /** ... and with all numbers settled it is one push again. */
  lemma NextIsOnePush(rb: Reqb, x: seq<Byte>, y: seq<Byte>)
    requires Good(rb) && rb.size + |x| + |y| < |rb.buff| && SettledAfter(rb, x)
    ensures Good(Ext(rb, x)) && Resumed(Ext(rb, x), y) == Push(true, rb, x + y)
  {
    hide *;
    SettledIs(rb, x);
    ExtFacts(rb, x);
    ExtTwice(rb, x, y);
    PushFits(true, rb, x + y);
    SettledGoesOn(Ext(rb, x), y);
  }

  lemma SettledIs(rb: Reqb, x: seq<Byte>)
    requires rb.size + |x| < |rb.buff|
    ensures SettledAfter(rb, x) <==> Good(Ext(rb, x)) && SettledRun(Ext(rb, x))
  {
    hide Ext, SettledRun, Good;
  }

  // ---- all pieces ----

  /** The first `i` pieces, no number open at the cuts between them, are one push. */
  lemma {:induction false} PiecesSoFar(rb: Reqb, xs: seq<seq<Byte>>, i: nat)
    requires Good(rb) && 0 < i <= |xs| && CutsSettled(rb, xs, i - 1)
    requires rb.size + |Concat(xs[..i])| < |rb.buff|
    ensures SameOutcome(Fed(true, rb, xs[..i]), Push(true, rb, Concat(xs[..i])))
    decreases i
  {
    hide *;
    Unfinished(rb);
    var before, y := xs[..i - 1], xs[i - 1];
    assert xs[..i] == before + [y];
    ConcatLast(before, y);
    FedLast(rb, before, y);
    if i == 1 {
      assert before == [];
      ConcatNothing();
      FedNothing(true, rb, before);
      PushFits(true, rb, y);
      GoodSize(Push(true, rb, y), rb, y);
      OutcomeRefl(Push(true, rb, y));
      assert Concat(before) + y == y;
    } else {
      CutSettled(rb, xs, i - 1, i - 1);
      FewerSettled(rb, xs, i - 1, i - 2);
      PiecesSoFar(rb, xs, i - 1);
      NextPush(rb, Concat(before), Fed(true, rb, before), y);
      NextIsOnePush(rb, Concat(before), y);
    }
  }

  lemma GoodSize(r: Reqb, rb: Reqb, y: seq<Byte>)
    requires rb.size + |y| < |rb.buff| == |r.buff| && r.size == rb.size + |y|
    ensures r.size <= |r.buff|
  {
  }

  lemma ConcatNothing()
    ensures Concat([]) == []
  {
  }

  lemma CutSettled(rb: Reqb, xs: seq<seq<Byte>>, n: nat, i: nat)
    requires n <= |xs| && 0 < i <= n && CutsSettled(rb, xs, n)
    ensures SettledAfter(rb, Concat(xs[..i]))
  {
    hide SettledAfter, Concat;
  }

  lemma FewerSettled(rb: Reqb, xs: seq<seq<Byte>>, n: nat, m: nat)
    requires m <= n <= |xs| && CutsSettled(rb, xs, n)
    ensures CutsSettled(rb, xs, m)
  {
    hide SettledAfter, Concat;
  }

  lemma OneMoreSettled(rb: Reqb, xs: seq<seq<Byte>>, n: nat)
    requires 0 < n <= |xs| && CutsSettled(rb, xs, n - 1) && SettledAfter(rb, Concat(xs[..n]))
    ensures CutsSettled(rb, xs, n)
  {
    hide SettledAfter, Concat;
  }

  lemma NoneSettled(rb: Reqb, xs: seq<seq<Byte>>)
    ensures CutsSettled(rb, xs, 0)
  {
  }

  /** What comes next, after `i` pieces whose first cuts are settled. */
  lemma NextPiece(rb: Reqb, xs: seq<seq<Byte>>, i: nat, y: seq<Byte>)
    requires Good(rb) && 0 < i <= |xs| && CutsSettled(rb, xs, i - 1)
    requires rb.size + |Concat(xs[..i])| + |y| < |rb.buff|
    ensures Good(Ext(rb, Concat(xs[..i])))
    ensures SameOutcome(Fed(true, rb, xs[..i] + [y]), Resumed(Ext(rb, Concat(xs[..i])), y))
  {
    hide *;
    Unfinished(rb);
    PiecesSoFar(rb, xs, i);
    FedLast(rb, xs[..i], y);
    NextPush(rb, Concat(xs[..i]), Fed(true, rb, xs[..i]), y);
  }

  /** A stage with settled cuts before it is safe exactly if its own cut is settled. */
  lemma StageSafe(rb: Reqb, xs: seq<seq<Byte>>, i: nat)
    requires Good(rb) && 0 < i <= |xs| && CutsSettled(rb, xs, i - 1)
    requires rb.size + |Concat(xs[..i])| + 2 < |rb.buff|
    ensures StageIsSafe(rb, xs, i) <==> SettledAfter(rb, Concat(xs[..i]))
  {
    hide *;
    var x := Concat(xs[..i]);
    ExtFacts(rb, x);
    SettledIs(rb, x);
    if SettledAfter(rb, x) {
      forall y: seq<Byte> | rb.size + |x| + |y| < |rb.buff|
        ensures SameOutcome(Fed(true, rb, xs[..i] + [y]), Push(true, rb, x + y))
      {
        NextPiece(rb, xs, i, y);
        NextIsOnePush(rb, x, y);
      }
      StageIs(rb, xs, i);
    } else {
      var e := Ext(rb, x);
      var y := OpenDiffers(e);
      NextPiece(rb, xs, i, y);
      OutcomeFacts(Fed(true, rb, xs[..i] + [y]), Resumed(e, y));
      ExtTwice(rb, x, y);
      PushFits(true, rb, x + y);
      NotSame(Fed(true, rb, xs[..i] + [y]), Push(true, rb, x + y));
      StageIsNot(rb, xs, i, y);
    }
  }

  lemma StageIs(rb: Reqb, xs: seq<seq<Byte>>, i: nat)
    requires Good(rb) && i <= |xs|
    requires forall y: seq<Byte> :: rb.size + |Concat(xs[..i])| + |y| < |rb.buff| ==>
      SameOutcome(Fed(true, rb, xs[..i] + [y]), Push(true, rb, Concat(xs[..i]) + y))
    ensures StageIsSafe(rb, xs, i)
  {
    hide Fed, Push, SameOutcome, Concat;
  }

  lemma StageIsNot(rb: Reqb, xs: seq<seq<Byte>>, i: nat, y: seq<Byte>)
    requires Good(rb) && i <= |xs| && rb.size + |Concat(xs[..i])| + |y| < |rb.buff|
    requires !SameOutcome(Fed(true, rb, xs[..i] + [y]), Push(true, rb, Concat(xs[..i]) + y))
    ensures !StageIsSafe(rb, xs, i)
  {
    hide Fed, Push, SameOutcome, Concat;
  }

  lemma {:induction false} PrefixFits(xs: seq<seq<Byte>>, i: nat)
    requires i <= |xs|
    ensures |Concat(xs[..i])| <= |Concat(xs)|
    decreases |xs| - i
  {
    if i < |xs| {
      assert xs[..i + 1] == xs[..i] + [xs[i]];
      ConcatLast(xs[..i], xs[i]);
      PrefixFits(xs, i + 1);
    } else {
      assert xs[..i] == xs;
    }
  }

  /** All stages are safe exactly if all cuts are settled. */
  lemma SafePieces(rb: Reqb, xs: seq<seq<Byte>>)
    requires Good(rb) && rb.size + |Concat(xs)| + 2 < |rb.buff|
    ensures PiecesAreSafe(rb, xs) <==> CutsSettled(rb, xs, |xs|)
  {
    hide *;
    if PiecesAreSafe(rb, xs) {
      SafeIsSettled(rb, xs, |xs|);
    }
    if CutsSettled(rb, xs, |xs|) {
      forall i: nat | 0 < i <= |xs|
        ensures StageIsSafe(rb, xs, i)
      {
        PrefixFits(xs, i);
        FewerSettled(rb, xs, |xs|, i - 1);
        CutSettled(rb, xs, |xs|, i);
        StageSafe(rb, xs, i);
      }
      PiecesAre(rb, xs);
    }
  }

  lemma PiecesAre(rb: Reqb, xs: seq<seq<Byte>>)
    requires Good(rb) && forall i: nat :: 0 < i <= |xs| ==> StageIsSafe(rb, xs, i)
    ensures PiecesAreSafe(rb, xs)
  {
    hide StageIsSafe;
  }

  lemma {:induction false} SafeIsSettled(rb: Reqb, xs: seq<seq<Byte>>, n: nat)
    requires Good(rb) && rb.size + |Concat(xs)| + 2 < |rb.buff| && n <= |xs| && PiecesAreSafe(rb, xs)
    ensures CutsSettled(rb, xs, n)
  {
    hide *;
    NoneSettled(rb, xs);
    if n > 0 {
      SafeIsSettled(rb, xs, n - 1);
      PrefixFits(xs, n);
      StageOf(rb, xs, n);
      StageSafe(rb, xs, n);
      OneMoreSettled(rb, xs, n);
    }
  }

  lemma StageOf(rb: Reqb, xs: seq<seq<Byte>>, i: nat)
    requires Good(rb) && PiecesAreSafe(rb, xs) && 0 < i <= |xs|
    ensures StageIsSafe(rb, xs, i)
  {
    hide StageIsSafe;
  }
}
