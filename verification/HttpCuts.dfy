/**
 Where a request may be cut: a number in the header is read past the end of its line, so a cut right
 after the bytes `x` is safe exactly if no number in `x` is still open at its end.
 */
module HttpCuts {
  import opened Bits
  import opened HttpSpec
  import opened HttpChunks

  // ---- numbers ----

  /** The digits from `i` on, after the value `v`, go on up to `n` and are below the limit. */
  predicate OpenDigits(b: seq<Byte>, i: nat, n: nat, v: int, most: int)
    requires i <= n <= |b|
    decreases n - i
  {
    if i == n then v < most else IsDigit(b[i]) && OpenDigits(b, i + 1, n, NextValue(v, b[i]), most)
  }

  function NextValue(v: int, c: Byte): int {
    var w := 10 * v + (c - 48);
    if w > INT_MAX then INT_MAX + 1 else w
  }

  /** The number at `i` may go on at `n`. */
  predicate Open(b: seq<Byte>, i: nat, n: nat)
    requires i <= n <= |b|
    decreases n - i
  {
    if i == n then true
    else if IsSpace(b[i]) then Open(b, i + 1, n)
    else if b[i] == 45 then OpenDigits(b, i + 1, n, 0, INT_MAX + 1)
    else if b[i] == 43 then OpenDigits(b, i + 1, n, 0, INT_MAX)
    else OpenDigits(b, i, n, 0, INT_MAX)
  }

  lemma {:induction false} DigitsGrow(b: seq<Byte>, i: nat, v: int)
    requires 0 <= v <= INT_MAX + 1
    ensures v <= Digits(b, i, v) <= INT_MAX + 1
    decreases |b| - i
  {
    if i < |b| && IsDigit(b[i]) {
      DigitsGrow(b, i + 1, NextValue(v, b[i]));
    }
  }

  /** A number that has ended, or is at the limit, does not depend on what comes after `n`. */
  lemma {:induction false} DigitsClosed(b: seq<Byte>, c: seq<Byte>, i: nat, n: nat, v: int, most: int)
    requires i <= n <= |b| && n <= |c| && 0 <= v <= INT_MAX + 1 && forall k :: i <= k < n ==> c[k] == b[k]
    requires !OpenDigits(b, i, n, v, most)
    ensures Digits(c, i, v) == Digits(b, i, v) || (Digits(c, i, v) >= most && Digits(b, i, v) >= most)
    decreases n - i
  {
    if i == n {
      DigitsGrow(b, i, v);
      DigitsGrow(c, i, v);
    } else if IsDigit(b[i]) {
      DigitsClosed(b, c, i + 1, n, NextValue(v, b[i]), most);
    }
  }

  /** An open number depends on the next character: one with `1` next is larger than one that ends. */
  lemma {:induction false} DigitsOpen(c: seq<Byte>, d: seq<Byte>, i: nat, n: nat, v: int, most: int)
    requires i <= n < |c| && n + 1 < |d| && 0 <= v <= INT_MAX + 1 && most <= INT_MAX + 1
    requires forall k :: i <= k < n ==> d[k] == c[k]
    requires OpenDigits(c, i, n, v, most) && c[n] == 0 && d[n] == 49 && d[n + 1] == 0
    ensures 0 <= Digits(c, i, v) < most && Digits(c, i, v) < Digits(d, i, v)
    decreases n - i
  {
    if i == n {
      assert Digits(d, n + 1, NextValue(v, 49)) == NextValue(v, 49);
    } else {
      DigitsOpen(c, d, i + 1, n, NextValue(v, c[i]), most);
    }
  }

  lemma {:induction false} StrtolClosed(b: seq<Byte>, c: seq<Byte>, i: nat, n: nat)
    requires i <= n <= |b| && n <= |c| && forall k :: i <= k < n ==> c[k] == b[k]
    requires !Open(b, i, n)
    ensures Strtol(c, i) == Strtol(b, i)
    decreases n - i
  {
    if IsSpace(b[i]) {
      StrtolClosed(b, c, i + 1, n);
    } else if b[i] == 45 {
      DigitsClosed(b, c, i + 1, n, 0, INT_MAX + 1);
      DigitsGrow(b, i + 1, 0);
      DigitsGrow(c, i + 1, 0);
    } else if b[i] == 43 {
      DigitsClosed(b, c, i + 1, n, 0, INT_MAX);
    } else {
      DigitsClosed(b, c, i, n, 0, INT_MAX);
    }
  }

  lemma {:induction false} StrtolOpen(c: seq<Byte>, d: seq<Byte>, i: nat, n: nat)
    requires i <= n < |c| && n + 1 < |d| && forall k :: i <= k < n ==> d[k] == c[k]
    requires Open(c, i, n) && c[n] == 0 && d[n] == 49 && d[n + 1] == 0
    ensures Strtol(c, i) != Strtol(d, i)
    decreases n - i
  {
    if i == n {
      assert Strtol(c, i) == 0;
      assert Digits(d, i + 1, 1) == 1;
      assert Digits(d, i, 0) == 1;
    } else if IsSpace(c[i]) {
      StrtolOpen(c, d, i + 1, n);
    } else if c[i] == 45 {
      DigitsOpen(c, d, i + 1, n, 0, INT_MAX + 1);
    } else if c[i] == 43 {
      DigitsOpen(c, d, i + 1, n, 0, INT_MAX);
    } else {
      DigitsOpen(c, d, i, n, 0, INT_MAX);
    }
  }

  lemma {:induction false} OpenOnlyHas(b: seq<Byte>, i: nat, n: nat, k: nat)
    requires i <= k < n <= |b| && Open(b, i, n)
    ensures b[k] != COLON
    decreases n - i
  {
    if IsSpace(b[i]) {
      if i < k {
        OpenOnlyHas(b, i + 1, n, k);
      }
    } else if b[i] == 45 {
      if i < k {
        DigitsOnlyHave(b, i + 1, n, 0, INT_MAX + 1, k);
      }
    } else if b[i] == 43 {
      if i < k {
        DigitsOnlyHave(b, i + 1, n, 0, INT_MAX, k);
      }
    } else {
      DigitsOnlyHave(b, i, n, 0, INT_MAX, k);
    }
  }

  lemma {:induction false} DigitsOnlyHave(b: seq<Byte>, i: nat, n: nat, v: int, most: int, k: nat)
    requires i <= k < n <= |b| && OpenDigits(b, i, n, v, most)
    ensures b[k] != COLON
    decreases n - i
  {
    if i < k {
      DigitsOnlyHave(b, i + 1, n, NextValue(v, b[i]), most, k);
    }
  }

  // ---- lines ----

  /** The number of the header line, if it holds one, is not open at the end of the bytes. */
  ghost predicate Settled(rb: Reqb)
    requires Good(rb)
  {
    rb.pstate == 5 && LineAt(rb).Line? && IsNumeric(FieldAt(rb)) ==>
      !Open(Terminated(rb.buff, LineAt(rb)), LineAt(rb).val, rb.size)
  }

  /** Every number of the run from `rb` on is settled. */
  ghost predicate SettledRun(rb: Reqb)
    requires Good(rb)
    decreases rb.size - rb.pos
  {
    TurnKeeps(true, rb);
    Settled(rb) && (Turn(true, rb).Commit? ==> SettledRun(Turn(true, rb).rb))
  }

  lemma SettledStep(rb: Reqb)
    requires Good(rb)
    ensures Proper(rb, Turn(true, rb))
    ensures SettledRun(rb) <==> Settled(rb) && (Turn(true, rb).Commit? ==> SettledRun(Turn(true, rb).rb))
  {
    TurnKeeps(true, rb);
    hide Turn, Proper, Settled;
  }

  lemma SettledIsFirm(rb: Reqb, y: seq<Byte>)
    requires Good(rb) && rb.size + |y| < |rb.buff| && Settled(rb)
    ensures Firm(true, rb, y)
  {
    if rb.pstate == 5 && LineAt(rb).Line? && IsNumeric(FieldAt(rb)) {
      var l := LineAt(rb);
      var b := Terminated(rb.buff, l);
      StrtolClosed(b, Written(b, rb.size, y), l.val, rb.size);
    }
    hide LineAt, FieldAt, Strtol, Open;
  }

  /** What the bytes `y` make of a parse that was run without them. */
  ghost function Resumed(rb: Reqb, y: seq<Byte>): Reqb
    requires Good(rb) && rb.size + |y| < |rb.buff|
  {
    var r := Parse(true, rb);
    if r.state == REQB_UNFINISHED then
      ExtFacts(r, y);
      Parse(true, Ext(r, y))
    else Ext(r, y)
  }

  lemma ResumedStep(rb: Reqb, y: seq<Byte>)
    requires Good(rb) && rb.size + |y| < |rb.buff|
    ensures var t := Turn(true, rb);
      && Good(Ext(rb, y)) && Proper(rb, t)
      && (t.Wait? ==> Resumed(rb, y) == Parse(true, Ext(rb, y)))
      && (t.Commit? ==> Good(t.rb) && t.rb.size + |y| < |t.rb.buff| && Resumed(rb, y) == Resumed(t.rb, y))
      && (t.End? ==> t.rb.size + |y| < |t.rb.buff| && Resumed(rb, y) == Ext(t.rb, y))
  {
    ParseStep(true, rb);
    ProperFacts(rb, Turn(true, rb));
    ExtFacts(rb, y);
    hide Turn, Ext, Proper;
    Unfinished(rb);
  }

  /** With all numbers settled the parse goes on as if it had not been interrupted. */
  lemma {:induction false} SettledGoesOn(rb: Reqb, y: seq<Byte>)
    requires Good(rb) && rb.size + |y| < |rb.buff| && SettledRun(rb)
    ensures Good(Ext(rb, y)) && Parse(true, Ext(rb, y)) == Resumed(rb, y)
    decreases rb.size - rb.pos
  {
    hide *;
    ResumedStep(rb, y);
    ProperFacts(rb, Turn(true, rb));
    SettledStep(rb);
    ParseStep(true, Ext(rb, y));
    if Turn(true, rb) != Wait {
      SettledIsFirm(rb, y);
      TurnExt(true, rb, y);
      ExtStepIs(rb, Turn(true, rb), y);
      if Turn(true, rb).Commit? {
        SettledGoesOn(Turn(true, rb).rb, y);
      }
    }
  }

  /** No colon is left: nothing more is committed. */
  lemma TailKeeps(rb: Reqb)
    requires Good(rb) && rb.pstate == 5 && forall k :: rb.pos <= k < rb.size ==> rb.buff[k] != COLON
    ensures Parse(true, rb).req == rb.req && (Parse(true, rb).state == REQB_UNFINISHED ==> Parse(true, rb) == rb)
  {
    ParseStep(true, rb);
    NoLineWithoutColon(rb);
    hide LineAt, Parse;
  }

  lemma NoLineWithoutColon(rb: Reqb)
    requires Good(rb) && forall k :: rb.pos <= k < rb.size ==> rb.buff[k] != COLON
    ensures !LineAt(rb).Line?
  {
    hide Scan;
  }

  /** A header line with a number, and what it leaves. */
  lemma NumberLine(rb: Reqb)
    requires Good(rb) && rb.pstate == 5 && LineAt(rb).Line? && IsNumeric(FieldAt(rb))
    ensures var l := LineAt(rb); var t := Turn(true, rb);
      && l.name <= l.colon < l.val <= l.lf < rb.size < |rb.buff|
      && t.Commit? && t.rb.pos == l.lf + 1 && t.rb.pstate == 5 && t.rb.size == rb.size && |t.rb.buff| == |rb.buff|
      && (forall k :: l.lf < k < rb.size ==> t.rb.buff[k] == rb.buff[k])
      && TheNumber(FieldAt(rb), t.rb.req) == Strtol(Terminated(rb.buff, l), l.val)
  {
    hide LineAt, Strtol, CString, FieldOf;
  }

  function TheNumber(f: Field, r: Req): int {
    if f == ContentLength then r.contLen else r.keepAlive
  }

  /** Number and tail of a parse that stops at an open number. */
  lemma OpenTail(rb: Reqb)
    requires Good(rb) && !Settled(rb)
    ensures rb.pstate == 5 && LineAt(rb).Line? && IsNumeric(FieldAt(rb))
    ensures LineAt(rb).lf < rb.size && forall k :: LineAt(rb).lf < k < rb.size ==> rb.buff[k] != COLON
  {
    var l := LineAt(rb);
    var b := Terminated(rb.buff, l);
    forall k | l.lf < k < rb.size
      ensures rb.buff[k] != COLON
    {
      OpenOnlyHas(b, l.val, rb.size, k);
    }
    hide LineAt, FieldAt, Open;
  }

  /** With `y` after an open number: the number is read with `y`, and stays. */
  lemma OpenWith(rb: Reqb, y: seq<Byte>)
    requires Good(rb) && rb.size + |y| < |rb.buff| && !Settled(rb) && COLON !in y
    ensures Good(Ext(rb, y)) && LineAt(rb).Line? && IsNumeric(FieldAt(rb))
    ensures LineAt(rb).name <= LineAt(rb).colon < LineAt(rb).val <= LineAt(rb).lf < |rb.buff|
    ensures TheNumber(FieldAt(rb), Parse(true, Ext(rb, y)).req) ==
      Strtol(Written(Terminated(rb.buff, LineAt(rb)), rb.size, y), LineAt(rb).val)
  {
    hide *;
    var e, l := Ext(rb, y), LineAt(rb);
    OpenTail(rb);
    ExtFacts(rb, y);
    LineExt(rb, y);
    FieldExt(rb, y);
    NumberLine(e);
    NumberLine(rb);
    TerminatedExt(rb, y, l);
    ParseStep(true, e);
    ProperFacts(e, Turn(true, e));
    ExtBytes(rb, y);
    TailKeeps(Turn(true, e).rb);
  }

  lemma ExtBytes(rb: Reqb, y: seq<Byte>)
    requires rb.size + |y| < |rb.buff|
    ensures forall k :: rb.size <= k < rb.size + |y| ==> Ext(rb, y).buff[k] in y
  {
  }

  /** ... and without `y`: whatever comes later, it is the number read when the line was parsed. */
  lemma OpenWithout(rb: Reqb, y: seq<Byte>)
    requires Good(rb) && rb.size + |y| < |rb.buff| && !Settled(rb) && COLON !in y
    ensures LineAt(rb).Line? && LineAt(rb).name <= LineAt(rb).colon < LineAt(rb).val <= LineAt(rb).lf < |rb.buff|
    ensures TheNumber(FieldAt(rb), Resumed(rb, y).req) == Strtol(Terminated(rb.buff, LineAt(rb)), LineAt(rb).val)
  {
    hide *;
    OpenTail(rb);
    NumberLine(rb);
    ResumedStep(rb, y);
    var next := Turn(true, rb).rb;
    TailKeeps(next);
    ResumedIs(next, y);
    ExtFacts(next, y);
    ExtBytes(next, y);
    if Parse(true, next).state == REQB_UNFINISHED {
      TailKeeps(Ext(next, y));
    } else {
      ParseSize(next);
      ExtFacts(Parse(true, next), y);
    }
  }

  lemma ResumedIs(rb: Reqb, y: seq<Byte>)
    requires Good(rb) && rb.size + |y| < |rb.buff|
    ensures var r := Parse(true, rb); r.size + |y| < |r.buff|
    ensures var r := Parse(true, rb);
      if r.state == REQB_UNFINISHED then Good(Ext(r, y)) && Resumed(rb, y) == Parse(true, Ext(r, y))
        else Resumed(rb, y) == Ext(r, y)
  {
    var r := Parse(true, rb);
    if r.state == REQB_UNFINISHED {
      ExtFacts(r, y);
    }
    hide Parse, Ext;
  }

  lemma ParseSize(rb: Reqb)
    requires Good(rb)
    ensures Parse(true, rb).size == rb.size && |Parse(true, rb).buff| == |rb.buff|
  {
    hide Parse;
  }

  /** An open number: with `1` after it, or with a character that ends it, the outcome is not that
      of the uninterrupted parse. */
  lemma {:induction false} OpenDiffers(rb: Reqb) returns (y: seq<Byte>)
    requires Good(rb) && rb.size + 2 < |rb.buff| && !SettledRun(rb)
    ensures |y| <= 2 && Good(Ext(rb, y)) && Parse(true, Ext(rb, y)).req != Resumed(rb, y).req
    decreases rb.size - rb.pos
  {
    hide *;
    SettledStep(rb);
    if Settled(rb) {
      var t := Turn(true, rb);
      ProperFacts(rb, t);
      y := OpenDiffers(t.rb);
      ResumedStep(rb, y);
      SettledIsFirm(rb, y);
      TurnExt(true, rb, y);
      ExtStepIs(rb, t, y);
      ParseStep(true, Ext(rb, y));
    } else {
      var no, one := [0], [49, 0];
      NoColon();
      OpenWith(rb, no);
      OpenWith(rb, one);
      OpenWithout(rb, no);
      OpenWithout(rb, one);
      OpenNumbers(rb, no, one);
      y := if Parse(true, Ext(rb, no)).req != Resumed(rb, no).req then no else one;
    }
  }

  lemma NoColon()
    ensures COLON !in [0] && COLON !in [49, 0]
  {
  }

  lemma OpenNumbers(rb: Reqb, no: seq<Byte>, one: seq<Byte>)
    requires Good(rb) && rb.size + 2 < |rb.buff| && !Settled(rb) && no == [0] && one == [49, 0]
    ensures LineAt(rb).Line? && LineAt(rb).name <= LineAt(rb).colon < LineAt(rb).val <= LineAt(rb).lf < |rb.buff|
    ensures var b := Terminated(rb.buff, LineAt(rb));
      Strtol(Written(b, rb.size, no), LineAt(rb).val) != Strtol(Written(b, rb.size, one), LineAt(rb).val)
  {
    var l := LineAt(rb);
    var b := Terminated(rb.buff, l);
    OpenLocal(b, Written(b, rb.size, no), l.val, rb.size);
    StrtolOpen(Written(b, rb.size, no), Written(b, rb.size, one), l.val, rb.size);
    hide LineAt, FieldAt, Open, Strtol;
  }

  lemma {:induction false} OpenLocal(b: seq<Byte>, c: seq<Byte>, i: nat, n: nat)
    requires i <= n <= |b| && n <= |c| && (forall k :: i <= k < n ==> c[k] == b[k]) && Open(b, i, n)
    ensures Open(c, i, n)
    decreases n - i
  {
    if i < n {
      if IsSpace(b[i]) {
        OpenLocal(b, c, i + 1, n);
      } else if b[i] == 45 {
        OpenDigitsLocal(b, c, i + 1, n, 0, INT_MAX + 1);
      } else if b[i] == 43 {
        OpenDigitsLocal(b, c, i + 1, n, 0, INT_MAX);
      } else {
        OpenDigitsLocal(b, c, i, n, 0, INT_MAX);
      }
    }
  }

  lemma {:induction false} OpenDigitsLocal(b: seq<Byte>, c: seq<Byte>, i: nat, n: nat, v: int, most: int)
    requires i <= n <= |b| && n <= |c| && (forall k :: i <= k < n ==> c[k] == b[k]) && OpenDigits(b, i, n, v, most)
    ensures OpenDigits(c, i, n, v, most)
    decreases n - i
  {
    if i < n {
      OpenDigitsLocal(b, c, i + 1, n, NextValue(v, b[i]), most);
    }
  }

  // ---- cuts ----

  /** Whatever comes after `x`, in a push of its own: the outcome is that of one push. */
  ghost predicate CutIsSafe(rb: Reqb, x: seq<Byte>)
    requires Good(rb)
  {
    forall y: seq<Byte> :: rb.size + |x| + |y| < |rb.buff| ==>
      SameOutcome(Fed(true, rb, [x, y]), Push(true, rb, x + y))
  }

  lemma TwoPushes(rb: Reqb, x: seq<Byte>, y: seq<Byte>)
    requires Good(rb) && rb.size + |x| + |y| < |rb.buff|
    ensures Good(Ext(rb, x)) && Good(Ext(Ext(rb, x), y)) && Push(true, rb, x + y) == Parse(true, Ext(Ext(rb, x), y))
    ensures var r := Resumed(Ext(rb, x), y); var f := Fed(true, rb, [x, y]);
      if Parse(true, Ext(rb, x)).state == REQB_UNFINISHED then f == r
      else f == Parse(true, Ext(rb, x)) && f.req == r.req && SameOutcome(f, r)
  {
    hide *;
    ExtFacts(rb, x);
    ExtTwice(rb, x, y);
    PushFits(true, rb, x);
    PushFits(true, rb, x + y);
    Unfinished(rb);
    FedTwo(rb, x, y);
    var e := Ext(rb, x);
    ExtFacts(e, y);
    ResumedIs(e, y);
    var p := Parse(true, e);
    ParseSize(e);
    if p.state == REQB_UNFINISHED {
      PushFits(true, p, y);
    } else {
      Ended(true, p, y);
      OutcomeExt(p, y);
      ExtFacts(p, y);
    }
  }

  lemma FedTwo(rb: Reqb, x: seq<Byte>, y: seq<Byte>)
    requires rb.state == REQB_UNFINISHED ==> Good(rb)
    ensures Push(true, rb, x).state == REQB_UNFINISHED ==> Good(Push(true, rb, x))
    ensures Fed(true, rb, [x, y]) == Push(true, Push(true, rb, x), y)
  {
    FedStep(true, rb, [x, y]);
    assert [x, y][1..] == [y];
    FedStep(true, Push(true, rb, x), [y]);
    FedNothing(true, Push(true, Push(true, rb, x), y), []);
    hide Push, Fed;
  }

  /** A cut after `x` is safe exactly if no number in `x` is open at its end. */
  lemma SafeCuts(rb: Reqb, x: seq<Byte>)
    requires Good(rb) && rb.size + |x| + 2 < |rb.buff|
    ensures Good(Ext(rb, x)) && (CutIsSafe(rb, x) <==> SettledRun(Ext(rb, x)))
  {
    hide *;
    ExtFacts(rb, x);
    var e := Ext(rb, x);
    if SettledRun(e) {
      forall y: seq<Byte> | rb.size + |x| + |y| < |rb.buff|
        ensures SameOutcome(Fed(true, rb, [x, y]), Push(true, rb, x + y))
      {
        TwoPushes(rb, x, y);
        SettledGoesOn(e, y);
        ResumedSize(e, y);
        OutcomeRefl(Resumed(e, y));
      }
      SafeIs(rb, x);
    } else {
      var y := OpenDiffers(e);
      TwoPushes(rb, x, y);
      NotSame(Fed(true, rb, [x, y]), Push(true, rb, x + y));
      NotSafe(rb, x, y);
    }
  }

  lemma ResumedSize(rb: Reqb, y: seq<Byte>)
    requires Good(rb) && rb.size + |y| < |rb.buff|
    ensures Resumed(rb, y).size <= |Resumed(rb, y).buff|
  {
    hide *;
    ResumedIs(rb, y);
    var r := Parse(true, rb);
    ParseSize(rb);
    ExtFacts(r, y);
    if r.state == REQB_UNFINISHED {
      ParseSize(Ext(r, y));
    }
  }

  lemma SafeIs(rb: Reqb, x: seq<Byte>)
    requires Good(rb)
    requires forall y: seq<Byte> :: rb.size + |x| + |y| < |rb.buff| ==>
      SameOutcome(Fed(true, rb, [x, y]), Push(true, rb, x + y))
    ensures CutIsSafe(rb, x)
  {
    hide Fed, Push, SameOutcome;
  }

  lemma NotSafe(rb: Reqb, x: seq<Byte>, y: seq<Byte>)
    requires Good(rb) && rb.size + |x| + |y| < |rb.buff| && !SameOutcome(Fed(true, rb, [x, y]), Push(true, rb, x + y))
    ensures !CutIsSafe(rb, x)
  {
    hide Fed, Push, SameOutcome;
  }

  lemma NotSame(a: Reqb, b: Reqb)
    requires a.req != b.req
    ensures !SameOutcome(a, b)
  {
  }

  // ---- a request that is cut in two ----

  /** "G / H\nKeep-Alive:\n" "7:a\n\n" */
  const REQUEST: seq<Byte> :=
    [71, 32, 47, 32, 72, 10, 75, 101, 101, 112, 45, 65, 108, 105, 118, 101, 58, 10, 55, 58, 97, 10, 10]

  const KEEP_ALIVE: seq<Byte> := [75, 101, 101, 112, 45, 65, 108, 105, 118, 101]

  /** The parse of REQUEST, as far as it has come, stands at `pos`. */
  ghost predicate Stands(rb: Reqb, pos: nat, pstate: nat) {
    && Good(rb) && rb.pos == pos <= rb.size <= |REQUEST| && rb.pstate == pstate
    && forall k :: pos <= k < rb.size ==> rb.buff[k] == REQUEST[k]
  }

  /** The next step commits an element and leaves the number alone. */
  ghost predicate Passes(rb: Reqb, pos: nat, pstate: nat) {
    Good(rb) && Turn(true, rb).Commit? &&
    var next := Turn(true, rb).rb;
    && Stands(next, pos, pstate) && next.size == rb.size && |next.buff| == |rb.buff|
    && next.req.keepAlive == rb.req.keepAlive && forall k :: pos <= k < |rb.buff| ==> next.buff[k] == rb.buff[k]
  }

  lemma {:induction false} ScanTo(k: Class, b: seq<Byte>, stop: nat, i: nat, r: nat)
    requires i <= r <= stop <= |b| && (forall j :: i <= j < r ==> In(k, b[j])) && (r < stop ==> !In(k, b[r]))
    ensures Scan(k, b, stop, i) == r
    decreases r - i
  {
    if i < r {
      ScanTo(k, b, stop, i + 1, r);
    }
  }

  lemma {:induction false} CStringTo(b: seq<Byte>, i: nat, k: nat)
    requires i <= k < |b| && b[k] == 0 && forall j :: i <= j < k ==> b[j] != 0
    ensures CString(b, i) == b[i..k]
    decreases k - i
  {
    if i < k {
      CStringTo(b, i + 1, k);
    }
  }

  lemma RequestBytes()
    ensures |REQUEST| == 23 && REQUEST[0] == 71 && REQUEST[1] == 32 && REQUEST[2] == 47 && REQUEST[3] == 32
    ensures REQUEST[4] == 72
    ensures REQUEST[5] == 10 && REQUEST[16] == 58 && REQUEST[17] == 10 && REQUEST[18] == 55 && REQUEST[19] == 58
    ensures REQUEST[20] == 97 && REQUEST[21] == 10 && REQUEST[22] == 10
    ensures forall k :: 6 <= k < 16 ==> IsIdent(REQUEST[k])
  {
    KeepAliveBytes();
  }

  lemma KeepAliveBytes()
    ensures REQUEST[6..16] == KEEP_ALIVE && |KEEP_ALIVE| == 10 && forall k :: 0 <= k < 10 ==> IsIdent(KEEP_ALIVE[k])
  {
    forall k | 0 <= k < 10
      ensures REQUEST[6..16][k] == KEEP_ALIVE[k]
    {
      assert REQUEST[6..16][k] == REQUEST[6 + k];
    }
  }

  lemma PassMethod(rb: Reqb)
    requires Stands(rb, 0, 0) && rb.size >= 18
    ensures Passes(rb, 2, 1)
  {
    RequestBytes();
    hide Scan, CString, StrToMethod, REQUEST;
    ScanTo(Class.Blank, rb.buff, rb.size, 0, 0);
    ScanTo(NotSpace, rb.buff, rb.size, 0, 1);
  }

  lemma PassUri(rb: Reqb)
    requires Stands(rb, 2, 1) && rb.size >= 18
    ensures Passes(rb, 4, 4)
  {
    RequestBytes();
    hide Scan, REQUEST;
    ScanTo(Class.Blank, rb.buff, rb.size, 2, 2);
    ScanTo(Ident, rb.buff, rb.size, 2, 3);
  }

  lemma PassVersion(rb: Reqb)
    requires Stands(rb, 4, 4) && rb.size >= 18
    ensures Passes(rb, 6, 5)
  {
    RequestBytes();
    hide Scan, REQUEST;
    ScanTo(Class.Blank, rb.buff, rb.size, 4, 4);
    ScanTo(NotLf, rb.buff, rb.size, 4, 5);
  }

  /** The line with the empty number. */
  lemma AtNumber(rb: Reqb)
    requires Stands(rb, 6, 5) && rb.size >= 18
    ensures LineAt(rb) == Line(6, 16, 17, 17) && FieldAt(rb) == KeepAlive
  {
    hide *;
    StandsIs(rb, 6, 5);
    RequestBytes();
    NumberScans(rb.buff, rb.size);
    LineAtIs(rb);
    NumberName(rb.buff);
    FieldAtIs(rb);
  }

  lemma NumberScans(b: seq<Byte>, n: nat)
    requires 18 <= n <= 23 && n <= |b| && |REQUEST| == 23 && forall k :: 6 <= k < n ==> b[k] == REQUEST[k]
    ensures LineIn(b, n, 6) == Line(6, 16, 17, 17)
  {
    RequestBytes();
    KeepAliveBytes();
    hide Scan, REQUEST;
    assert REQUEST[6] == REQUEST[6..16][0];
    assert b[6] == 75;
    ScanTo(InlineBlank, b, n, 6, 6);
    ScanTo(Ident, b, n, 6, 16);
    ScanTo(InlineBlank, b, n, 17, 17);
    ScanTo(NotLf, b, n, 17, 17);
  }

  lemma NumberName(b: seq<Byte>)
    requires |b| >= 18 && |REQUEST| == 23 && forall k :: 6 <= k < 18 ==> b[k] == REQUEST[k]
    ensures FieldOf(CString(Terminated(b, Line(6, 16, 17, 17)), 6)) == KeepAlive
  {
    KeepAliveBytes();
    var t := Terminated(b, Line(6, 16, 17, 17));
    forall k | 6 <= k < 16
      ensures t[k] == KEEP_ALIVE[k - 6] != 0
    {
      assert REQUEST[6..16][k - 6] == REQUEST[k];
      assert IsIdent(KEEP_ALIVE[k - 6]);
    }
    hide REQUEST, KEEP_ALIVE, CString, FieldOf;
    CStringTo(t, 6, 16);
    assert t[6..16] == KEEP_ALIVE;
    KeepAliveName();
  }

  lemma FieldAtIs(rb: Reqb)
    requires Good(rb) && LineAt(rb).Line?
    ensures FieldAt(rb) == FieldOf(CString(Terminated(rb.buff, LineAt(rb)), LineAt(rb).name))
  {
    hide LineAt, CString, FieldOf, Terminated;
  }

  lemma KeepAliveName()
    ensures FieldOf(KEEP_ALIVE) == KeepAlive
  {
    assert KEEP_ALIVE == Lit("Keep-Alive");
    assert Lit("User-Agent")[0] == 85 && Lit("Connection")[0] == 67;
  }

  /** The line after it, when it is all there. */
  lemma PassOther(rb: Reqb)
    requires Stands(rb, 18, 5) && rb.size == 23
    ensures Passes(rb, 22, 5)
  {
    RequestBytes();
    var b := rb.buff;
    hide Scan, REQUEST, CString, FieldOf, Strtol;
    ScanTo(InlineBlank, b, 23, 18, 18);
    ScanTo(Ident, b, 23, 18, 19);
    ScanTo(InlineBlank, b, 23, 20, 20);
    ScanTo(NotLf, b, 23, 20, 21);
    assert LineAt(rb) == Line(18, 19, 20, 21);
    var t := Terminated(b, Line(18, 19, 20, 21));
    CStringTo(t, 18, 19);
    assert t[18..19] == [55];
    NoField();
  }

  lemma NoField()
    ensures FieldOf([55]) == Other
  {
    var n: seq<Byte> := [55];
    assert |Lit("Host")| == 4 && |Lit("Cookie")| == 6 && |Lit("Accept")| == 6;
  }

  /** The empty line ends the request. */
  lemma LastLine(rb: Reqb)
    requires Stands(rb, 22, 5) && rb.size == 23
    ensures Parse(true, rb).state == REQB_FINISHED && Parse(true, rb).req == rb.req
  {
    RequestBytes();
    hide Scan, REQUEST;
    ScanTo(InlineBlank, rb.buff, 23, 22, 22);
    assert LineAt(rb) == EmptyLine;
    ParseStep(true, rb);
    hide Parse;
  }

  lemma ToTheEnd(rb: Reqb)
    requires Stands(rb, 18, 5) && rb.size == 23
    ensures Parse(true, rb).state == REQB_FINISHED && Parse(true, rb).req.keepAlive == rb.req.keepAlive
  {
    hide *;
    PassOther(rb);
    PassIs(rb, 22, 5);
    LastLine(Turn(true, rb).rb);
  }

  lemma PassIs(rb: Reqb, pos: nat, pstate: nat)
    requires Passes(rb, pos, pstate)
    ensures Good(rb) && Turn(true, rb).Commit? && Stands(Turn(true, rb).rb, pos, pstate) && Good(Turn(true, rb).rb)
    ensures var next := Turn(true, rb).rb;
      && next.size == rb.size && |next.buff| == |rb.buff| && next.req.keepAlive == rb.req.keepAlive
      && Parse(true, rb) == Parse(true, next) && forall k :: pos <= k < |rb.buff| ==> next.buff[k] == rb.buff[k]
  {
    ParseStep(true, rb);
    hide Turn, Parse;
  }

  /** Up to the line with the number. */
  lemma ToTheNumber(rb: Reqb) returns (next: Reqb)
    requires Stands(rb, 0, 0) && rb.size >= 18
    ensures Stands(next, 6, 5) && next.size == rb.size && |next.buff| == |rb.buff| && Good(rb)
    ensures forall k :: 18 <= k < |rb.buff| ==> next.buff[k] == rb.buff[k]
    ensures Parse(true, rb) == Parse(true, next)
    ensures forall y: seq<Byte> :: rb.size + |y| < |rb.buff| ==> Resumed(rb, y) == Resumed(next, y)
  {
    hide *;
    PassMethod(rb);
    PassIs(rb, 2, 1);
    var r1 := Turn(true, rb).rb;
    PassUri(r1);
    PassIs(r1, 4, 4);
    var r2 := Turn(true, r1).rb;
    PassVersion(r2);
    PassIs(r2, 6, 5);
    next := Turn(true, r2).rb;
    forall y: seq<Byte> | rb.size + |y| < |rb.buff|
      ensures Resumed(rb, y) == Resumed(next, y)
    {
      ResumedStep(rb, y);
      ResumedStep(r1, y);
      ResumedStep(r2, y);
    }
  }

  /** The number that is read: what the buffer holds behind the line. */
  lemma PastTheNumber(rb: Reqb) returns (next: Reqb)
    requires Stands(rb, 6, 5) && rb.size >= 18 && |rb.buff| > 23
    ensures Good(rb) && Turn(true, rb) == Commit(next) && Stands(next, 18, 5) && Good(next)
    ensures next.size == rb.size && |next.buff| == |rb.buff| && Parse(true, rb) == Parse(true, next)
    ensures rb.buff[18] == 0 ==> next.req.keepAlive == 0
    ensures rb.buff[18] == 55 && rb.buff[19] == 58 ==> next.req.keepAlive == 7
  {
    hide *;
    StandsIs(rb, 6, 5);
    RequestBytes();
    AtNumber(rb);
    KeepAliveIsNumber();
    NumberLine(rb);
    ParseStep(true, rb);
    ProperFacts(rb, Turn(true, rb));
    next := Turn(true, rb).rb;
    IsStanding(next, 18, 5);
    ReadNumber(rb.buff);
  }

  lemma StandsIs(rb: Reqb, pos: nat, pstate: nat)
    requires Stands(rb, pos, pstate)
    ensures Good(rb) && rb.pos == pos <= rb.size <= |REQUEST| == 23 && rb.pstate == pstate && rb.size < |rb.buff|
    ensures forall k :: pos <= k < rb.size ==> rb.buff[k] == REQUEST[k]
  {
  }

  lemma IsStanding(rb: Reqb, pos: nat, pstate: nat)
    requires Good(rb) && rb.pos == pos <= rb.size <= 23 && rb.pstate == pstate
    requires |REQUEST| == 23 && forall k :: pos <= k < rb.size ==> rb.buff[k] == REQUEST[k]
    ensures Stands(rb, pos, pstate)
  {
  }

  lemma KeepAliveIsNumber()
    ensures IsNumeric(KeepAlive) && forall r: Req :: TheNumber(KeepAlive, r) == r.keepAlive
  {
  }

  lemma ReadNumber(b: seq<Byte>)
    requires |b| > 19 && b[17] == 10
    ensures b[18] == 0 ==> Strtol(Terminated(b, Line(6, 16, 17, 17)), 17) == 0
    ensures b[18] == 55 && b[19] == 58 ==> Strtol(Terminated(b, Line(6, 16, 17, 17)), 17) == 7
  {
    var t := Terminated(b, Line(6, 16, 17, 17));
    assert t[17] == 10 && t[18] == b[18] && t[19] == b[19];
    if b[18] == 0 {
      assert Strtol(t, 18) == 0;
    } else if b[18] == 55 && b[19] == 58 {
      assert Digits(t, 19, 7) == 7;
      assert Strtol(t, 18) == 7;
    }
  }

  lemma InOnePush(rb: Reqb)
    requires Good(rb) && rb.pos == rb.size == rb.pstate == 0 && |rb.buff| > 23
    ensures Push(true, rb, REQUEST).state == REQB_FINISHED && Push(true, rb, REQUEST).req.keepAlive == 7
  {
    hide *;
    RequestBytes();
    ExtIsWritten(rb, REQUEST);
    ExtFacts(rb, REQUEST);
    PushFits(true, rb, REQUEST);
    var one := Ext(rb, REQUEST);
    IsStanding(one, 0, 0);
    var a := ToTheNumber(one);
    StandsIs(a, 6, 5);
    var b := PastTheNumber(a);
    ToTheEnd(b);
  }

  /** The second piece, after the line with the number. */
  lemma SecondPiece(r: Reqb, y: seq<Byte>)
    requires Stands(r, 18, 5) && r.size == 18 && |r.buff| > 23 && y == REQUEST[18..]
    ensures Good(r) && r.size + |y| < |r.buff| && Parse(true, r) == r
    ensures Resumed(r, y).state == REQB_FINISHED && Resumed(r, y).req.keepAlive == r.req.keepAlive
  {
    hide *;
    RequestBytes();
    StandsIs(r, 18, 5);
    ParseStep(true, r);
    Unfinished(r);
    ResumedIs(r, y);
    ExtFacts(r, y);
    ExtIsWritten(r, y);
    IsStanding(Ext(r, y), 18, 5);
    ToTheEnd(Ext(r, y));
  }

  lemma InTwoPushes(rb: Reqb)
    requires Good(rb) && rb.pos == rb.size == rb.pstate == 0 && |rb.buff| > 23 && rb.buff[18] == 0
    ensures var f := Fed(true, rb, [REQUEST[..18], REQUEST[18..]]); f.state == REQB_FINISHED && f.req.keepAlive == 0
  {
    hide *;
    RequestBytes();
    var x, y := REQUEST[..18], REQUEST[18..];
    ExtFacts(rb, x);
    ExtIsWritten(rb, x);
    var two := Ext(rb, x);
    IsStanding(two, 0, 0);
    var b := ToTheNumber(two);
    StandsIs(b, 6, 5);
    var r := PastTheNumber(b);
    SecondPiece(r, y);
    Unfinished(r);
    ResumedStep(b, y);
    TwoPushes(rb, x, y);
  }

  /** From a fresh buffer: in one push the request says keep-alive 7, in two it says 0. */
  lemma CuttingMatters(rb: Reqb)
    requires Good(rb) && rb.pos == rb.size == rb.pstate == 0 && |rb.buff| > 23 && rb.buff[18] == 0
    ensures var f, p := Fed(true, rb, [REQUEST[..18], REQUEST[18..]]), Push(true, rb, REQUEST);
      && f.state == p.state == REQB_FINISHED && f.req.keepAlive == 0 && p.req.keepAlive == 7
  {
    hide *;
    InOnePush(rb);
    InTwoPushes(rb);
  }

  lemma ExtIsWritten(rb: Reqb, y: seq<Byte>)
    requires rb.size + |y| < |rb.buff|
    ensures var b := Ext(rb, y).buff;
      |b| == |rb.buff| && forall k :: 0 <= k < |b| ==> b[k] == if rb.size <= k < rb.size + |y| then y[k - rb.size]
        else rb.buff[k]
  {
  }
}