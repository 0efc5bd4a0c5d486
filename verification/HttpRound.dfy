/**
 A request that is written down and pushed is the request: every part is found where the text has it,
 by name. And the character that is not allowed ends the parse with an error.
 */
module HttpRound {
  import opened Bits
  import opened HttpSpec
  import opened HttpChunks
  import opened HttpCuts
  import opened HttpText

  // ---- names ----

  lemma SameLiteral(s: string)
    ensures Lit(s) == Bytes(s)
  {
  }

  lemma PlainIsIdent(c: Byte)
    ensures IsIdent(c) <==> Plain(c)
  {
  }

  lemma MethodNames(verb: seq<Byte>)
    ensures VerbShown(StrToMethod(verb), verb)
  {
    SameLiteral("GET");
    SameLiteral("POST");
    SameLiteral("HEAD");
    SameLiteral("PUT");
    SameLiteral("CONNECT");
    SameLiteral("OPTIONS");
    SameLiteral("DELETE");
    SameLiteral("TRACE");
    SameLiteral("PATCH");
    hide Lit, Bytes;
  }

  /** The names of the fields are different. */
  lemma FieldNames(name: seq<Byte>)
    ensures FieldOf(name) == Other ==> forall f: Field :: f != Other ==> name != FieldBytes(f)
    ensures FieldOf(name) != Other ==> name == FieldBytes(FieldOf(name))
  {
    SameLiteral("Host");
    SameLiteral("User-Agent");
    SameLiteral("Content-Type");
    SameLiteral("Content-Length");
    SameLiteral("Accept");
    SameLiteral("Accept-Language");
    SameLiteral("Accept-Encoding");
    SameLiteral("Cookie");
    SameLiteral("Connection");
    SameLiteral("Keep-Alive");
    hide Lit, Bytes;
  }

  lemma FieldsDiffer(f: Field, g: Field)
    requires f != Other && g != Other && FieldBytes(f) == FieldBytes(g)
    ensures f == g
  {
    FieldStart(f);
    FieldStart(g);
  }

  /** Length and two characters tell the names apart. */
  lemma FieldStart(f: Field)
    requires f != Other
    ensures var n := FieldBytes(f);
      match f
      case Host => |n| == 4
      case UserAgent => |n| == 10 && n[0] == 85
      case ContentType => |n| == 12
      case ContentLength => |n| == 14
      case Accept => |n| == 6 && n[0] == 65
      case AcceptLanguage => |n| == 15 && n[7] == 76
      case AcceptEncoding => |n| == 15 && n[7] == 69
      case Cookie => |n| == 6 && n[0] == 67
      case Connection => |n| == 10 && n[0] == 67
      case KeepAlive => |n| == 10 && n[0] == 75
  {
  }

  lemma FieldIs(name: seq<Byte>, f: Field)
    requires f != Other
    ensures FieldOf(name) == f <==> name == FieldBytes(f)
  {
    FieldNames(name);
    if name == FieldBytes(f) {
      FieldsDiffer(FieldOf(name), f);
    }
    hide FieldOf, FieldBytes;
  }

  // ---- numbers ----

  /** The saturating value of digits, after `v`. */
  function Fold(v: int, ds: seq<Byte>): int {
    if ds == [] then v else NextValue(Fold(v, ds[..|ds| - 1]), ds[|ds| - 1])
  }

  lemma FoldFirst(v: int, d: Byte, ds: seq<Byte>)
    ensures Fold(v, [d] + ds) == Fold(NextValue(v, d), ds)
    decreases |ds|
  {
    var es := [d] + ds;
    if ds == [] {
      assert es[..0] == [];
    } else {
      assert es[..|es| - 1] == [d] + ds[..|ds| - 1];
      FoldFirst(v, d, ds[..|ds| - 1]);
    }
  }

  lemma {:induction false} DigitsFold(b: seq<Byte>, i: nat, k: nat, v: int)
    requires i <= k < |b| && !IsDigit(b[k]) && forall j :: i <= j < k ==> IsDigit(b[j])
    ensures Digits(b, i, v) == Fold(v, b[i..k])
    decreases k - i
  {
    if i < k {
      assert b[i..k] == [b[i]] + b[i + 1..k];
      FoldFirst(v, b[i], b[i + 1..k]);
      DigitsFold(b, i + 1, k, NextValue(v, b[i]));
    }
  }

  lemma {:induction false} ValueFold(ds: seq<Byte>)
    requires AllDigits(ds)
    ensures Fold(0, ds) == if Value(ds) > INT_MAX then INT_MAX + 1 else Value(ds)
    decreases |ds|
  {
    if ds != [] {
      ValueFold(ds[..|ds| - 1]);
    }
  }

  /** `strtol` of the digits in the buffer, from `i` on. */
  lemma DigitsRead(b: seq<Byte>, i: nat, ds: seq<Byte>)
    requires AllDigits(ds) && i + |ds| < |b| && !IsDigit(b[i + |ds|])
    requires forall k :: 0 <= k < |ds| ==> b[i + k] == ds[k]
    ensures Digits(b, i, 0) == if Value(ds) > INT_MAX then INT_MAX + 1 else Value(ds)
  {
    var k := i + |ds|;
    forall j | i <= j < k
      ensures IsDigit(b[j])
    {
      assert b[i + (j - i)] == ds[j - i];
    }
    assert b[i..k] == ds;
    ValueFold(ds);
    hide Value, Fold, Digits;
    DigitsFold(b, i, k, 0);
  }

  /** `strtol` reads the number that the string says. */
  lemma NumeralRead(b: seq<Byte>, i: nat, s: seq<Byte>, lim: nat, n: Numeral)
    requires Leads(b, Ref(i), s, lim) && Inline(s) && IsNumeral(n, s)
    ensures Strtol(b, i) == Number32(n)
  {
    var o := i + |n.sign|;
    NumeralBytes(b, i, s, lim, n);
    DigitsRead(b, o, n.digits);
    hide Digits, Value;
    assert s != [] ==> b[i + 0] == s[0] > 0x20;
    assert s == [] ==> b[i] == 0;
    if n.sign != [] {
      assert s[0] == n.sign[0];
    } else if n.digits != [] {
      assert s[0] == n.digits[0];
    } else if n.more != [] {
      assert s[0] == n.more[0];
    }
  }

  lemma NumeralBytes(b: seq<Byte>, i: nat, s: seq<Byte>, lim: nat, n: Numeral)
    requires Leads(b, Ref(i), s, lim) && IsNumeral(n, s)
    ensures var o := i + |n.sign|;
      && o + |n.digits| < |b| && !IsDigit(b[o + |n.digits|])
      && forall k :: 0 <= k < |n.digits| ==> b[o + k] == n.digits[k]
  {
    var m, k := |n.sign|, |n.sign| + |n.digits|;
    forall t | 0 <= t < |n.digits|
      ensures b[i + m + t] == n.digits[t]
    {
      assert b[i + (m + t)] == s[m + t] == n.digits[t];
    }
    if n.more != [] {
      assert b[i + k] == s[k] == n.more[0];
    }
  }

  // ---- moving on ----

  /** The rest of the bytes is `rest`. */
  ghost predicate At(rb: Reqb, rest: seq<Byte>) {
    Good(rb) && rb.pos + |rest| == rb.size && forall k :: 0 <= k < |rest| ==> rb.buff[rb.pos + k] == rest[k]
  }

  /** The parse comes from `rb` to `next`, over bytes that nothing else looks at. */
  ghost predicate Comes(rb: Reqb, next: Reqb) {
    && Good(rb) && Good(next) && Parse(true, rb) == Parse(true, next)
    && rb.pos <= next.pos && next.size == rb.size && |next.buff| == |rb.buff|
    && forall k :: 0 <= k < |rb.buff| && !(rb.pos <= k < next.pos) ==> next.buff[k] == rb.buff[k]
  }

  lemma ComesRefl(rb: Reqb)
    requires Good(rb)
    ensures Comes(rb, rb)
  {
    hide Parse;
  }

  lemma ComesTrans(a: Reqb, b: Reqb, c: Reqb)
    requires Comes(a, b) && Comes(b, c)
    ensures Comes(a, c)
  {
    hide Parse, Good;
  }

  /** What follows is still there. */
  lemma RestAt(rb: Reqb, next: Reqb, x: seq<Byte>, y: seq<Byte>)
    requires At(rb, x + y) && Comes(rb, next) && next.pos == rb.pos + |x|
    ensures At(next, y)
  {
    hide Parse;
    forall k | 0 <= k < |y|
      ensures next.buff[next.pos + k] == y[k]
    {
      assert (x + y)[|x| + k] == y[k];
    }
  }

  /** A string that ends before the commit point stays. */
  lemma LeadsOn(rb: Reqb, next: Reqb, ref: Ref, s: seq<Byte>)
    requires Comes(rb, next) && Leads(rb.buff, ref, s, rb.pos)
    ensures Leads(next.buff, ref, s, next.pos)
  {
    hide Parse;
  }

  lemma OneStep(rb: Reqb, next: Reqb)
    requires Good(rb) && Turn(true, rb) == Commit(next) && rb.pos <= next.pos
    requires forall k :: 0 <= k < |rb.buff| && k < |next.buff| && !(rb.pos <= k < next.pos) ==>
      next.buff[k] == rb.buff[k]
    ensures Comes(rb, next)
  {
    ParseStep(true, rb);
    ProperFacts(rb, Turn(true, rb));
    hide Turn, Parse;
  }

  lemma AtByte(rb: Reqb, x: seq<Byte>, c: Byte, y: seq<Byte>)
    requires At(rb, x + [c] + y)
    ensures rb.pos + |x| < rb.size < |rb.buff| && rb.buff[rb.pos + |x|] == c
    ensures forall k :: 0 <= k < |x| ==> rb.buff[rb.pos + k] == x[k]
  {
    var t := x + [c] + y;
    assert t[|x|] == c;
    forall k | 0 <= k < |x|
      ensures rb.buff[rb.pos + k] == x[k]
    {
      assert t[k] == x[k];
    }
  }

  /** The bytes of `x` behind those of `p`. */
  lemma Segment(rb: Reqb, p: seq<Byte>, x: seq<Byte>, d: Byte, y: seq<Byte>)
    requires At(rb, p + x + [d] + y)
    ensures rb.pos + |p| + |x| < rb.size < |rb.buff| && rb.buff[rb.pos + |p| + |x|] == d
    ensures forall k :: 0 <= k < |x| ==> rb.buff[rb.pos + |p| + k] == x[k]
  {
    AtByte(rb, p + x, d, y);
    forall k | 0 <= k < |x|
      ensures rb.buff[rb.pos + |p| + k] == x[k]
    {
      assert rb.buff[rb.pos + (|p| + k)] == (p + x)[|p| + k];
    }
  }

  /** A scan over the bytes of `x`, up to the one behind it. */
  lemma ScanOver(c: Class, rb: Reqb, p: seq<Byte>, x: seq<Byte>, d: Byte, y: seq<Byte>)
    requires At(rb, p + x + [d] + y) && (forall k :: 0 <= k < |x| ==> In(c, x[k])) && !In(c, d)
    ensures Scan(c, rb.buff, rb.size, rb.pos + |p|) == rb.pos + |p| + |x| < rb.size
  {
    hide *;
    Segment(rb, p, x, d, y);
    var o := rb.pos + |p|;
    AllIn(c, rb.buff, o, x);
    ScanTo(c, rb.buff, rb.size, o, o + |x|);
  }

  lemma AllIn(c: Class, b: seq<Byte>, o: nat, x: seq<Byte>)
    requires o + |x| <= |b|
    requires (forall k :: 0 <= k < |x| ==> b[o + k] == x[k]) && forall k :: 0 <= k < |x| ==> In(c, x[k])
    ensures forall j :: o <= j < o + |x| ==> In(c, b[j])
  {
    hide In;
    forall j | o <= j < o + |x|
      ensures In(c, b[j])
    {
      assert b[o + (j - o)] == x[j - o];
    }
  }

  /** The first byte of `x + [d] + y` stands by itself. */
  lemma FirstByteOf(q: seq<Byte>, x: seq<Byte>, d: Byte, y: seq<Byte>) returns (f: Byte, more: seq<Byte>)
    ensures q + x + [d] + y == q + [f] + more && f == if x == [] then d else x[0]
  {
    if x == [] {
      f, more := d, y;
      assert q + x == q;
    } else {
      f, more := x[0], x[1..] + [d] + y;
      assert x == [x[0]] + x[1..];
      assert q + x + [d] + y == q + [f] + more;
    }
  }

  /** Blanks before `x + [d]`, which begins with none. */
  lemma BlanksOver(rb: Reqb, pre: seq<Byte>, x: seq<Byte>, d: Byte, y: seq<Byte>)
    requires At(rb, pre + x + [d] + y) && Blanks(pre) && (if x == [] then d > 0x20 else x[0] > 0x20)
    ensures Scan(Class.Blank, rb.buff, rb.size, rb.pos) == rb.pos + |pre|
  {
    var f, more := FirstByteOf([] + pre, x, d, y);
    assert pre + x + [d] + y == [] + pre + x + [d] + y;
    hide At;
    ScanOver(Class.Blank, rb, [], pre, f, more);
  }

  lemma InlineOver(rb: Reqb, p: seq<Byte>, pre: seq<Byte>, x: seq<Byte>, d: Byte, y: seq<Byte>)
    requires At(rb, p + pre + x + [d] + y) && InlineBlanks(pre)
    requires if x == [] then d > 0x20 || d == 13 || d == 10 else x[0] > 0x20
    ensures Scan(InlineBlank, rb.buff, rb.size, rb.pos + |p|) == rb.pos + |p| + |pre| < rb.size
  {
    var f, more := FirstByteOf(p + pre, x, d, y);
    hide At;
    ScanOver(InlineBlank, rb, p, pre, f, more);
  }

  lemma NothingBefore(x: seq<Byte>, c: Byte, y: seq<Byte>)
    ensures x + [c] + y == [] + x + [c] + y && x + [c] + y == [] + [] + x + [c] + y
    ensures Blanks([]) && InlineBlanks([])
  {
    assert [] + x == x && [] + [] + x == x;
  }

  lemma NothingBetween(x: seq<Byte>, c: Byte, y: seq<Byte>)
    ensures x + [c] + y == [] + x + [] + [c] + y
  {
    assert [] + x + [] == x;
  }

  lemma StringIs(b: seq<Byte>, i: nat, s: seq<Byte>, lim: nat)
    requires Leads(b, Ref(i), s, lim)
    ensures CString(b, i) == s
  {
    forall j | i <= j < i + |s|
      ensures b[j] != 0
    {
      assert b[i + (j - i)] == s[j - i];
    }
    CStringTo(b, i, i + |s|);
    assert b[i..i + |s|] == s;
    hide CString;
  }

  // ---- one element ----

  lemma VerbStep(rb: Reqb, pre: seq<Byte>, m: seq<Byte>, y: seq<Byte>) returns (next: Reqb)
    requires At(rb, pre + m + [32] + y) && rb.pstate == 0 && m != [] && m[0] > 0x20 && Blanks(pre)
    requires forall i :: 0 <= i < |m| ==> m[i] != 0 && m[i] != 32
    ensures Comes(rb, next) && At(next, y) && next.pstate == 1 && next.req == rb.req.(verb := StrToMethod(m))
  {
    hide *;
    AtGood(rb, pre + m + [32] + y);
    Segment(rb, pre, m, 32, y);
    BlanksOver(rb, pre, m, 32, y);
    NotSpaceIs(m);
    ScanOver(NotSpace, rb, pre, m, 32, y);
    MethodAt(rb);
    TurnAt(true, rb);
    var i := rb.pos + |pre|;
    var j := i + |m|;
    LeadsBy(rb.buff, i, m);
    StringIs(rb.buff[j := 0], i, m, j + 1);
    next := Committed(rb, j, 1, rb.req.(verb := StrToMethod(m)));
    CommittedIs(rb, j, 1, rb.req.(verb := StrToMethod(m)));
    OneStep(rb, next);
    RestAt(rb, next, pre + m + [32], y);
  }

  lemma NotSpaceIs(m: seq<Byte>)
    requires forall i :: 0 <= i < |m| ==> m[i] != 0 && m[i] != 32
    ensures (forall i :: 0 <= i < |m| ==> In(NotSpace, m[i])) && !In(NotSpace, 32)
  {
  }

  lemma PathStep(rb: Reqb, pre: seq<Byte>, p: seq<Byte>, d: Byte, y: seq<Byte>) returns (next: Reqb)
    requires At(rb, pre + p + [d] + y) && rb.pstate == 1 && AllPlain(p) && (d == 63 || (d == 32 && p != []))
    requires Blanks(pre)
    ensures Comes(rb, next) && At(next, y) && next.pstate == if d == 63 then 2 else 4
    ensures next.req == rb.req.(uri := Ref(rb.pos + |pre|)) && Leads(next.buff, Ref(rb.pos + |pre|), p, next.pos)
  {
    hide *;
    AtGood(rb, pre + p + [d] + y);
    Segment(rb, pre, p, d, y);
    PlainNotZero(p);
    PlainScan(rb, pre, p, d, y);
    BlanksOver(rb, pre, p, d, y);
    UriAt(rb);
    TurnAt(true, rb);
    SpIs();
    var i, st := rb.pos + |pre|, if d == 63 then 2 else 4;
    var j := i + |p|;
    next := Committed(rb, j, st, rb.req.(uri := Ref(i)));
    CommittedIs(rb, j, st, rb.req.(uri := Ref(i)));
    OneStep(rb, next);
    RestAt(rb, next, pre + p + [d], y);
    LeadsBy(rb.buff, i, p);
  }

  lemma LeadsBy(b: seq<Byte>, i: nat, p: seq<Byte>)
    requires i + |p| < |b| && forall k :: 0 <= k < |p| ==> b[i + k] == p[k] != 0
    ensures Leads(b[i + |p| := 0], Ref(i), p, i + |p| + 1)
  {
  }

  lemma PlainNotZero(p: seq<Byte>)
    requires AllPlain(p)
    ensures forall i :: 0 <= i < |p| ==> p[i] > 32
    ensures !Plain(32) && !Plain(38) && !Plain(61) && !Plain(63)
  {
  }

  lemma PlainScan(rb: Reqb, pre: seq<Byte>, p: seq<Byte>, d: Byte, y: seq<Byte>)
    requires At(rb, pre + p + [d] + y) && AllPlain(p) && !Plain(d)
    ensures Scan(Ident, rb.buff, rb.size, rb.pos + |pre|) == rb.pos + |pre| + |p| < rb.size
  {
    PlainIsIdent(d);
    forall k | 0 <= k < |p|
      ensures In(Ident, p[k])
    {
      PlainIsIdent(p[k]);
    }
    ScanOver(Ident, rb, pre, p, d, y);
  }

  lemma PlainFrom(rb: Reqb, p: seq<Byte>, d: Byte, y: seq<Byte>)
    requires At(rb, p + [d] + y) && AllPlain(p) && !Plain(d)
    ensures Scan(Ident, rb.buff, rb.size, rb.pos) == rb.pos + |p| < rb.size
  {
    hide *;
    NothingBefore(p, d, y);
    PlainScan(rb, [], p, d, y);
  }

  lemma NoBlanks(rb: Reqb, p: seq<Byte>, d: Byte, y: seq<Byte>)
    requires At(rb, p + [d] + y) && (if p == [] then d > 0x20 else p[0] > 0x20)
    ensures Scan(Class.Blank, rb.buff, rb.size, rb.pos) == rb.pos
    ensures Scan(InlineBlank, rb.buff, rb.size, rb.pos) == rb.pos < rb.size
  {
    hide *;
    NothingBefore(p, d, y);
    BlanksOver(rb, [], p, d, y);
    InlineOver(rb, [], [], p, d, y);
  }

  lemma NameStep(rb: Reqb, p: seq<Byte>, d: Byte, y: seq<Byte>) returns (next: Reqb)
    requires At(rb, p + [d] + y) && rb.pstate == 2 && AllPlain(p) && (d == 38 || d == 61 || d == 32)
    ensures Comes(rb, next) && At(next, y) && next.pstate == (if d == 38 then 2 else if d == 61 then 3 else 4)
    ensures Good(rb) && next.req == AddParam(rb.req, rb.pos) && Leads(next.buff, Ref(rb.pos), p, next.pos)
  {
    hide *;
    AtGood(rb, p + [d] + y);
    AtByte(rb, p, d, y);
    PlainNotZero(p);
    PlainFrom(rb, p, d, y);
    ParamAt(rb);
    TurnAt(true, rb);
    SpIs();
    var j, st := rb.pos + |p|, if d == 38 then 2 else if d == 61 then 3 else 4;
    next := Committed(rb, j, st, AddParam(rb.req, rb.pos));
    CommittedIs(rb, j, st, AddParam(rb.req, rb.pos));
    OneStep(rb, next);
    RestAt(rb, next, p + [d], y);
    LeadsBy(rb.buff, rb.pos, p);
  }

  lemma ValueStep(rb: Reqb, p: seq<Byte>, d: Byte, y: seq<Byte>) returns (next: Reqb)
    requires At(rb, p + [d] + y) && rb.pstate == 3 && AllPlain(p) && (d == 38 || d == 32)
    ensures Comes(rb, next) && At(next, y) && next.pstate == (if d == 38 then 2 else 4)
    ensures Good(rb) && next.req == AddValue(rb.req, rb.pos) && Leads(next.buff, Ref(rb.pos), p, next.pos)
  {
    hide *;
    AtGood(rb, p + [d] + y);
    AtByte(rb, p, d, y);
    PlainNotZero(p);
    PlainFrom(rb, p, d, y);
    TurnAt(true, rb);
    ValueAt(rb);
    SpIs();
    var j, st := rb.pos + |p|, if d == 38 then 2 else 4;
    next := Committed(rb, j, st, AddValue(rb.req, rb.pos));
    CommittedIs(rb, j, st, AddValue(rb.req, rb.pos));
    OneStep(rb, next);
    RestAt(rb, next, p + [d], y);
    LeadsBy(rb.buff, rb.pos, p);
  }

  lemma VersionStep(rb: Reqb, pre: seq<Byte>, v: seq<Byte>, e: Byte, y: seq<Byte>) returns (next: Reqb)
    requires At(rb, pre + v + [e] + [10] + y) && rb.pstate == 4 && Blanks(pre) && v != [] && Inline(v) && e != 10
    ensures Comes(rb, next) && At(next, y) && next.pstate == 5
    ensures next.req == rb.req.(ver := Ref(rb.pos + |pre|)) && Leads(next.buff, Ref(rb.pos + |pre|), v, next.pos)
  {
    VersionScan(rb, pre, v, e, y);
    next := VersionTurn(rb, rb.pos + |pre|, rb.pos + |pre| + |v| + 1);
    hide *;
    OneStep(rb, next);
    RestAt(rb, next, pre + v + [e] + [10], y);
    VersionLeads(rb, next, rb.pos + |pre|, v);
  }

  lemma VersionScan(rb: Reqb, pre: seq<Byte>, v: seq<Byte>, e: Byte, y: seq<Byte>)
    requires At(rb, pre + v + [e] + [10] + y) && Blanks(pre) && v != [] && Inline(v) && e != 10
    ensures Good(rb) && Scan(Class.Blank, rb.buff, rb.size, rb.pos) == rb.pos + |pre|
    ensures Scan(NotLf, rb.buff, rb.size, rb.pos + |pre|) == rb.pos + |pre| + |v| + 1 < rb.size
    ensures forall k :: 0 <= k < |v| ==> rb.buff[rb.pos + |pre| + k] == v[k]
  {
    LineBytes(pre, v, e, y);
    InlineNotLf(v, e);
    AtGood(rb, pre + v + [e] + [10] + y);
    hide *;
    BlanksOver(rb, pre, v, e, [10] + y);
    Segment(rb, pre, v, e, [10] + y);
    ScanOver(NotLf, rb, pre, v + [e], 10, y);
  }

  /** Both ways to look at the end of a line. */
  lemma LineBytes(q: seq<Byte>, v: seq<Byte>, e: Byte, y: seq<Byte>)
    ensures q + v + [e] + [10] + y == q + v + [e] + ([10] + y)
    ensures q + v + [e] + [10] + y == q + (v + [e]) + [10] + y
  {
    assert q + v + [e] == q + (v + [e]);
  }

  lemma InlineNotLf(v: seq<Byte>, e: Byte)
    requires Inline(v) && e != 10
    ensures (forall k :: 0 <= k < |v + [e]| ==> In(NotLf, (v + [e])[k])) && !In(NotLf, 10) && |v + [e]| == |v| + 1
    ensures v != [] ==> v[0] > 0x20
  {
  }

  lemma VersionTurn(rb: Reqb, i: nat, l: nat) returns (next: Reqb)
    requires Good(rb) && rb.pstate == 4 && Scan(Class.Blank, rb.buff, rb.size, rb.pos) == i
    requires rb.pos <= i < l < rb.size && Scan(NotLf, rb.buff, rb.size, i) == l
    ensures Turn(true, rb) == Commit(next) && next.buff == rb.buff[l - 1 := 0] && next.pos == l + 1
    ensures next.pstate == 5 && next.req == rb.req.(ver := Ref(i))
  {
    hide Scan;
    next := LineCommitted(rb, rb.buff, l, rb.req.(ver := Ref(i)));
  }

  lemma VersionLeads(rb: Reqb, next: Reqb, i: nat, v: seq<Byte>)
    requires Inline(v) && i + |v| + 1 < |rb.buff| && next.pos == i + |v| + 2
    requires next.buff == rb.buff[i + |v| := 0] && forall k :: 0 <= k < |v| ==> rb.buff[i + k] == v[k]
    ensures Leads(next.buff, Ref(i), v, next.pos)
  {
  }

  // ---- parameters ----

  /** The request with other parameters. */
  ghost predicate SameButParams(a: Req, b: Req) {
    b == a.(numParams := b.numParams, params := b.params, values := b.values)
  }

  lemma ParamsOn(rb: Reqb, next: Reqb, q: seq<Param>, n: nat)
    requires n <= |q| && Comes(rb, next) && ParamsShown(rb.buff, rb.req, q, n, rb.pos)
    ensures ParamsShown(next.buff, rb.req, q, n, next.pos)
  {
    hide Comes, Leads;
    forall k | 0 <= k < n && k < 32
      ensures ParamShown(next.buff, rb.req, k, q[k], next.pos)
    {
      assert ParamShown(rb.buff, rb.req, k, q[k], rb.pos);
      LeadsOn(rb, next, rb.req.params[k], q[k].name);
      if q[k].Param? {
        LeadsOn(rb, next, rb.req.values[k], q[k].text);
      }
    }
  }

  /** A parameter without a value so far. */
  lemma NameShown(b: seq<Byte>, r: Req, q: seq<Param>, n: nat, lim: nat, at: nat)
    requires n < |q| && ParamsShown(b, r, q, n, lim) && Leads(b, Ref(at), q[n].name, lim)
    requires |r.params| == MAX_PARAMS == |r.values|
    ensures var s := AddParam(r, at);
      && SameButParams(r, s) && s.numParams == n + 1
      && (forall k :: 0 <= k < n && k < 32 ==> ParamShown(b, s, k, q[k], lim))
      && (q[n].Bare? ==> ParamsShown(b, s, q, n + 1, lim))
      && (n < 32 ==> s.params[n] == Ref(at)) && |s.params| == MAX_PARAMS == |s.values|
  {
    hide Leads;
    var s := AddParam(r, at);
    forall k | 0 <= k < n && k < 32
      ensures ParamShown(b, s, k, q[k], lim)
    {
      assert ParamShown(b, r, k, q[k], lim);
    }
  }

  lemma ValueShown(b: seq<Byte>, r: Req, q: seq<Param>, n: nat, lim: nat, at: nat)
    requires n < |q| && q[n].Param? && r.numParams == n + 1 && |r.params| == MAX_PARAMS == |r.values|
    requires forall k :: 0 <= k < n && k < 32 ==> ParamShown(b, r, k, q[k], lim)
    requires n < 32 ==> Leads(b, r.params[n], q[n].name, lim)
    requires Leads(b, Ref(at), q[n].text, lim)
    ensures SameButParams(r, AddValue(r, at)) && ParamsShown(b, AddValue(r, at), q, n + 1, lim)
  {
    hide Leads;
    var s := AddValue(r, at);
    forall k | 0 <= k < n && k < 32
      ensures ParamShown(b, s, k, q[k], lim)
    {
      assert ParamShown(b, r, k, q[k], lim);
    }
  }

  lemma GoodParams(rb: Reqb)
    requires Good(rb)
    ensures |rb.req.params| == MAX_PARAMS == |rb.req.values|
  {
  }

  lemma AtGood(rb: Reqb, rest: seq<Byte>)
    requires At(rb, rest)
    ensures Good(rb)
  {
  }

  /** One parameter, and the character behind it. */
  lemma ParamStep(rb: Reqb, q: seq<Param>, n: nat, d: Byte, y: seq<Byte>) returns (next: Reqb)
    requires n < |q| && At(rb, ParamText(q[n]) + [d] + y) && rb.pstate == 2 && PlainParam(q[n]) && (d == 38 || d == 32)
    requires ParamsShown(rb.buff, rb.req, q, n, rb.pos)
    ensures Comes(rb, next) && At(next, y) && next.pstate == if d == 38 then 2 else 4
    ensures SameButParams(rb.req, next.req) && ParamsShown(next.buff, next.req, q, n + 1, next.pos)
  {
    hide *;
    var p := q[n];
    ParamTextIs(p);
    AtGood(rb, ParamText(p) + [d] + y);
    GoodParams(rb);
    if p.Bare? {
      next := NameStep(rb, p.name, d, y);
      ParamsOn(rb, next, q, n);
      NameShown(next.buff, rb.req, q, n, next.pos, rb.pos);
    } else {
      var x := p.text + [d] + y;
      assert ParamText(p) + [d] + y == p.name + [61] + x;
      var mid := NameStep(rb, p.name, 61, x);
      next := ValueStep(mid, p.text, d, y);
      ComesTrans(rb, mid, next);
      ParamsOn(rb, mid, q, n);
      NameShown(mid.buff, rb.req, q, n, mid.pos, rb.pos);
      PairShown(rb, mid, next, q, n, rb.pos);
    }
  }

  lemma ParamTextIs(p: Param)
    ensures ParamText(p) == if p.Bare? then p.name else p.name + [61] + p.text
    ensures PlainParam(p) ==> AllPlain(p.name) && (p.Param? ==> AllPlain(p.text))
  {
  }

  lemma PairShown(rb: Reqb, mid: Reqb, next: Reqb, q: seq<Param>, n: nat, at: nat)
    requires n < |q| && q[n].Param? && Comes(mid, next) && SameButParams(rb.req, mid.req)
    requires mid.req.numParams == n + 1 && |mid.req.params| == MAX_PARAMS == |mid.req.values|
    requires forall k :: 0 <= k < n && k < 32 ==> ParamShown(mid.buff, mid.req, k, q[k], mid.pos)
    requires n < 32 ==> mid.req.params[n] == Ref(at)
    requires Leads(mid.buff, Ref(at), q[n].name, mid.pos) && Leads(next.buff, Ref(mid.pos), q[n].text, next.pos)
    requires next.req == AddValue(mid.req, mid.pos)
    ensures SameButParams(rb.req, next.req) && ParamsShown(next.buff, next.req, q, n + 1, next.pos)
  {
    hide Comes, Leads;
    LeadsOn(mid, next, Ref(at), q[n].name);
    forall k | 0 <= k < n && k < 32
      ensures ParamShown(next.buff, mid.req, k, q[k], next.pos)
    {
      assert ParamShown(mid.buff, mid.req, k, q[k], mid.pos);
      LeadsOn(mid, next, mid.req.params[k], q[k].name);
      if q[k].Param? {
        LeadsOn(mid, next, mid.req.values[k], q[k].text);
      }
    }
    ValueShown(next.buff, mid.req, q, n, next.pos, mid.pos);
  }

  /** All parameters from the `n`-th on. */
  lemma {:induction false} ParamsRun(rb: Reqb, q: seq<Param>, n: nat, y: seq<Byte>) returns (next: Reqb)
    requires n < |q| && At(rb, ParamText(q[n]) + QueryText(q[n + 1..], 38) + [32] + y) && rb.pstate == 2
    requires (forall i :: 0 <= i < |q| ==> PlainParam(q[i])) && ParamsShown(rb.buff, rb.req, q, n, rb.pos)
    ensures Comes(rb, next) && At(next, y) && next.pstate == 4
    ensures SameButParams(rb.req, next.req) && ParamsShown(next.buff, next.req, q, |q|, next.pos)
    decreases |q| - n
  {
    hide *;
    QueryTextIs(q[n + 1..], 38);
    if n + 1 == |q| {
      assert ParamText(q[n]) + QueryText(q[n + 1..], 38) + [32] + y == ParamText(q[n]) + [32] + y;
      next := ParamStep(rb, q, n, 32, y);
    } else {
      var x := ParamText(q[n + 1]) + QueryText(q[n + 2..], 38) + [32] + y;
      assert q[n + 1..][1..] == q[n + 2..];
      assert ParamText(q[n]) + QueryText(q[n + 1..], 38) + [32] + y == ParamText(q[n]) + [38] + x;
      var mid := ParamStep(rb, q, n, 38, x);
      next := ParamsRun(mid, q, n + 1, y);
      ComesTrans(rb, mid, next);
      SameParamsTrans(rb.req, mid.req, next.req);
    }
  }

  lemma SameParamsTrans(a: Req, b: Req, c: Req)
    requires SameButParams(a, b) && SameButParams(b, c)
    ensures SameButParams(a, c)
  {
  }

  lemma QueryTextIs(q: seq<Param>, sep: Byte)
    ensures QueryText(q, sep) == if q == [] then [] else [sep] + ParamText(q[0]) + QueryText(q[1..], 38)
  {
  }

  // ---- header lines ----

  lemma HeaderTurn(rb: Reqb, l: Line, name: seq<Byte>) returns (next: Reqb)
    requires Good(rb) && rb.pstate == 5 && LineAt(rb) == l && l.Line?
    requires CString(Terminated(rb.buff, l), l.name) == name
    ensures Turn(true, rb) == Commit(next) && next.buff == Terminated(rb.buff, l) && next.pos == l.lf + 1
    ensures next.pstate == 5 && next.req == SetParam(true, rb.req, FieldOf(name), next.buff, l.val)
  {
    hide Scan, CString, FieldOf, SetParam, LineAt;
    var b := Terminated(rb.buff, l);
    next := LineCommitted(rb, rb.buff[l.colon := 0], l.lf, SetParam(true, rb.req, FieldOf(name), b, l.val));
  }

  /** The line, its name and its value. */
  lemma HeaderLine(rb: Reqb, h: Header, y: seq<Byte>) returns (l: Line)
    requires At(rb, HeaderText(h) + y) && PlainHeader(h)
    ensures Good(rb) && LineAt(rb) == l && l.Line?
    ensures l.val == rb.pos + |h.pre| + |h.name| + 1 + |h.gap| && l.lf == l.val + |h.value| + 1
    ensures CString(Terminated(rb.buff, l), l.name) == h.name
    ensures Leads(Terminated(rb.buff, l), Ref(l.val), h.value, l.lf + 1)
  {
    hide *;
    PlainHeaderIs(h);
    AtGood(rb, HeaderText(h) + y);
    var i := rb.pos + |h.pre|;
    var c := i + |h.name|;
    var v := c + 1 + |h.gap|;
    l := Line(i, c, v, v + |h.value| + 1);
    NameScans(rb, h, y);
    ValueScans(rb, h, y);
    LineIs(rb, l);
    LineAtIs(rb);
    LineStrings(rb.buff, l, h);
    StringIs(Terminated(rb.buff, l), i, h.name, c + 1);
  }

  /** A header line, up to its value and from there on. */
  lemma HeaderParts(h: Header, y: seq<Byte>)
    ensures HeaderText(h) + y == h.pre + h.name + [58] + (h.gap + h.value + [h.end] + [10] + y)
    ensures HeaderText(h) + y == (h.pre + h.name + [58]) + h.gap + h.value + [h.end] + [10] + y
  {
    var a := h.pre + h.name + [58];
    assert a + h.gap + h.value + [h.end] + [10] == a + (h.gap + h.value + [h.end] + [10]);
  }

  lemma NameScans(rb: Reqb, h: Header, y: seq<Byte>)
    requires At(rb, HeaderText(h) + y) && PlainHeader(h)
    ensures var i := rb.pos + |h.pre|;
      && Scan(InlineBlank, rb.buff, rb.size, rb.pos) == i && Scan(Ident, rb.buff, rb.size, i) == i + |h.name| < rb.size
      && rb.size < |rb.buff| && rb.buff[i] != 13 && rb.buff[i] != 10 && rb.buff[i + |h.name|] == 58
      && forall k :: 0 <= k < |h.name| ==> rb.buff[i + k] == h.name[k]
  {
    hide *;
    PlainHeaderIs(h);
    HeaderParts(h, y);
    var x := h.gap + h.value + [h.end] + [10] + y;
    PlainNotZero(h.name);
    assert [] + h.pre == h.pre;
    InlineOver(rb, [], h.pre, h.name, 58, x);
    PlainScan(rb, h.pre, h.name, 58, x);
    Segment(rb, h.pre, h.name, 58, x);
    assert h.name != [] ==> rb.buff[rb.pos + |h.pre| + 0] == h.name[0];
  }

  lemma ValueScans(rb: Reqb, h: Header, y: seq<Byte>)
    requires At(rb, HeaderText(h) + y) && PlainHeader(h)
    ensures var c := rb.pos + |h.pre| + |h.name| + 1; var v := c + |h.gap|;
      && Scan(InlineBlank, rb.buff, rb.size, c) == v && Scan(NotLf, rb.buff, rb.size, v) == v + |h.value| + 1 < rb.size
      && rb.size < |rb.buff| && forall k :: 0 <= k < |h.value| ==> rb.buff[v + k] == h.value[k]
  {
    var p := h.pre + h.name + [58];
    var q := p + h.gap;
    HeaderParts(h, y);
    LineBytes(q, h.value, h.end, y);
    InlineNotLf(h.value, h.end);
    assert InlineBlanks(h.gap) && (h.value == [] ==> h.end == 13 || h.end > 0x20);
    assert |q| == |h.pre| + |h.name| + 1 + |h.gap| == |p| + |h.gap|;
    hide *;
    InlineOver(rb, p, h.gap, h.value, h.end, [10] + y);
    Segment(rb, q, h.value, h.end, [10] + y);
    ScanOver(NotLf, rb, q, h.value + [h.end], 10, y);
  }

  lemma PlainHeaderIs(h: Header)
    requires PlainHeader(h)
    ensures AllPlain(h.name) && Inline(h.value) && InlineBlanks(h.pre) && !Plain(58)
    ensures forall i :: 0 <= i < |h.value| ==> h.value[i] != 0
    ensures forall i :: 0 <= i < |h.name| ==> h.name[i] != 0
  {
  }

  /** The scans of a header line. */
  lemma LineIs(rb: Reqb, l: Line)
    requires Good(rb) && l.Line? && rb.pos <= l.name <= l.colon < l.val < l.lf < rb.size
    requires Scan(InlineBlank, rb.buff, rb.size, rb.pos) == l.name && rb.buff[l.name] != 13 && rb.buff[l.name] != 10
    requires Scan(Ident, rb.buff, rb.size, l.name) == l.colon && rb.buff[l.colon] == 58
    requires Scan(InlineBlank, rb.buff, rb.size, l.colon + 1) == l.val
    requires Scan(NotLf, rb.buff, rb.size, l.val) == l.lf
    ensures LineIn(rb.buff, rb.size, rb.pos) == l
  {
    hide Scan;
  }

  lemma LineStrings(b: seq<Byte>, l: Line, h: Header)
    requires l.Line? && l.colon == l.name + |h.name| < l.val && l.lf == l.val + |h.value| + 1 < |b|
    requires forall k :: 0 <= k < |h.name| ==> b[l.name + k] == h.name[k] != 0
    requires forall k :: 0 <= k < |h.value| ==> b[l.val + k] == h.value[k] != 0
    ensures Leads(Terminated(b, l), Ref(l.name), h.name, l.colon + 1)
    ensures Leads(Terminated(b, l), Ref(l.val), h.value, l.lf + 1)
  {
  }

  lemma HeaderStep(rb: Reqb, h: Header, y: seq<Byte>) returns (next: Reqb)
    requires At(rb, HeaderText(h) + y) && rb.pstate == 5 && PlainHeader(h)
    ensures Comes(rb, next) && At(next, y) && next.pstate == 5
    ensures var at := rb.pos + |h.pre| + |h.name| + 1 + |h.gap|;
      && next.req == SetParam(true, rb.req, FieldOf(h.name), next.buff, at)
      && Leads(next.buff, Ref(at), h.value, next.pos)
  {
    hide *;
    var l := HeaderLine(rb, h, y);
    next := HeaderTurn(rb, l, h.name);
    OutsideLine(rb, l);
    OneStep(rb, next);
    HeaderLength(h);
    RestAt(rb, next, HeaderText(h), y);
  }

  /** The terminators of a line lie in it. */
  lemma OutsideLine(rb: Reqb, l: Line)
    requires Good(rb) && LineAt(rb) == l && l.Line?
    ensures rb.pos <= l.name <= l.colon < l.val <= l.lf < rb.size < |rb.buff|
    ensures var b := Terminated(rb.buff, l);
      |b| == |rb.buff| && forall k :: 0 <= k < |b| && !(rb.pos <= k < l.lf + 1) ==> b[k] == rb.buff[k]
  {
    hide LineIn;
  }

  lemma HeaderLength(h: Header)
    ensures |HeaderText(h)| == |h.pre| + |h.name| + |h.gap| + |h.value| + 3
  {
  }

  // ---- what header lines say ----

  lemma LastNext(hs: seq<Header>, n: nat, name: seq<Byte>)
    requires n < |hs|
    ensures LastIndex(hs, n + 1, name) == if hs[n].name == name then n else LastIndex(hs, n, name)
  {
  }

  /** A text field after one more line. */
  lemma TextNext(rb: Reqb, next: Reqb, was: Req, hs: seq<Header>, n: nat, at: nat, f: Field)
    requires n < |hs| && IsText(f) && Comes(rb, next) && TextShown(rb.buff, was, rb.req, hs, n, rb.pos, f)
    requires next.req == SetParam(true, rb.req, FieldOf(hs[n].name), next.buff, at)
    requires Leads(next.buff, Ref(at), hs[n].value, next.pos)
    ensures TextShown(next.buff, was, next.req, hs, n + 1, next.pos, f)
  {
    LastNext(hs, n, FieldBytes(f));
    FieldIs(hs[n].name, f);
    TextSet(rb.req, FieldOf(hs[n].name), next.buff, at, f);
    hide Comes, Leads, FieldBytes, FieldOf, LastIndex, SetParam, TextRef;
    var k := LastIndex(hs, n, FieldBytes(f));
    if hs[n].name != FieldBytes(f) && k >= 0 {
      LeadsOn(rb, next, TextRef(rb.req, f), hs[k].value);
    }
  }

  /** A line sets the text field of its name and no other. */
  lemma TextSet(r: Req, g: Field, b: seq<Byte>, i: nat, f: Field)
    requires IsText(f)
    ensures TextRef(SetParam(true, r, g, b, i), f) == if g == f then Ref(i) else TextRef(r, f)
  {
    hide CString, StrToCt, Strtol;
  }

  lemma NumbersNext(rb: Reqb, next: Reqb, was: Req, hs: seq<Header>, n: nat, at: nat)
    requires n < |hs| && Inline(hs[n].value) && Leads(next.buff, Ref(at), hs[n].value, next.pos)
    requires next.req == SetParam(true, rb.req, FieldOf(hs[n].name), next.buff, at)
    requires NumberShown(was.contLen, rb.req.contLen, hs, n, Bytes("Content-Length"))
    requires NumberShown(was.keepAlive, rb.req.keepAlive, hs, n, Bytes("Keep-Alive"))
    ensures NumberShown(was.contLen, next.req.contLen, hs, n + 1, Bytes("Content-Length"))
    ensures NumberShown(was.keepAlive, next.req.keepAlive, hs, n + 1, Bytes("Keep-Alive"))
  {
    LastNext(hs, n, Bytes("Content-Length"));
    LastNext(hs, n, Bytes("Keep-Alive"));
    FieldIs(hs[n].name, ContentLength);
    FieldIs(hs[n].name, KeepAlive);
    forall m: Numeral | IsNumeral(m, hs[n].value)
      ensures Strtol(next.buff, at) == Number32(m)
    {
      NumeralRead(next.buff, at, hs[n].value, next.pos, m);
    }
    hide Leads, FieldOf, LastIndex, CString, StrToCt, Strtol, Bytes, IsNumeral, Number32;
  }

  lemma ConnectionNext(rb: Reqb, next: Reqb, was: Req, hs: seq<Header>, n: nat, at: nat)
    requires n < |hs| && Leads(next.buff, Ref(at), hs[n].value, next.pos)
    requires next.req == SetParam(true, rb.req, FieldOf(hs[n].name), next.buff, at)
    requires ConnectionShown(was.connType, rb.req.connType, hs, n)
    ensures ConnectionShown(was.connType, next.req.connType, hs, n + 1)
  {
    LastNext(hs, n, Bytes("Connection"));
    FieldIs(hs[n].name, Connection);
    StringIs(next.buff, at, hs[n].value, next.pos);
    SameLiteral("close");
    SameLiteral("keep-alive");
    hide Leads, FieldOf, LastIndex, CString, Strtol, Bytes, Lit;
  }

  lemma HeadersNext(rb: Reqb, next: Reqb, was: Req, hs: seq<Header>, n: nat, at: nat)
    requires n < |hs| && Inline(hs[n].value) && Comes(rb, next)
    requires HeadersShown(rb.buff, was, rb.req, hs, n, rb.pos)
    requires next.req == SetParam(true, rb.req, FieldOf(hs[n].name), next.buff, at)
    requires Leads(next.buff, Ref(at), hs[n].value, next.pos)
    ensures HeadersShown(next.buff, was, next.req, hs, n + 1, next.pos)
  {
    forall f: Field | IsText(f)
      ensures TextShown(next.buff, was, next.req, hs, n + 1, next.pos, f)
    {
      TextNext(rb, next, was, hs, n, at, f);
    }
    NumbersNext(rb, next, was, hs, n, at);
    ConnectionNext(rb, next, was, hs, n, at);
    hide TextShown, NumberShown, ConnectionShown, SetParam, Comes, Leads;
  }

  lemma HeadersNone(rb: Reqb, hs: seq<Header>)
    ensures HeadersShown(rb.buff, rb.req, rb.req, hs, 0, rb.pos)
  {
    hide Leads;
  }

  /** The parts that header lines leave alone. */
  ghost predicate SameLine(a: Req, b: Req) {
    && b.verb == a.verb && b.uri == a.uri && b.ver == a.ver
    && b.numParams == a.numParams && b.params == a.params && b.values == a.values
  }

  lemma SetParamLine(r: Req, f: Field, b: seq<Byte>, i: nat)
    ensures SameLine(r, SetParam(true, r, f, b, i))
  {
    hide Strtol, StrToCt, CString;
  }

  lemma SameLineTrans(a: Req, b: Req, c: Req)
    requires SameLine(a, b) && SameLine(b, c)
    ensures SameLine(a, c)
  {
  }

  lemma HeadersTextIs(hs: seq<Header>, n: nat)
    requires n < |hs|
    ensures HeadersText(hs[n..]) == HeaderText(hs[n]) + HeadersText(hs[n + 1..])
  {
    assert hs[n..][1..] == hs[n + 1..];
  }

  /** All header lines from the `n`-th on. */
  lemma {:induction false} HeadersRun(rb: Reqb, was: Req, hs: seq<Header>, n: nat, y: seq<Byte>) returns (next: Reqb)
    requires n <= |hs| && At(rb, HeadersText(hs[n..]) + y) && rb.pstate == 5
    requires (forall i :: 0 <= i < |hs| ==> PlainHeader(hs[i])) && HeadersShown(rb.buff, was, rb.req, hs, n, rb.pos)
    ensures Comes(rb, next) && At(next, y) && next.pstate == 5 && SameLine(rb.req, next.req)
    ensures HeadersShown(next.buff, was, next.req, hs, |hs|, next.pos)
    decreases |hs| - n
  {
    hide *;
    if n == |hs| {
      NoHeaders(hs[n..]);
      assert HeadersText(hs[n..]) + y == y;
      AtGood(rb, y);
      ComesRefl(rb);
      next := rb;
      SameLineRefl(rb.req);
    } else {
      HeadersTextIs(hs, n);
      var x := HeadersText(hs[n + 1..]) + y;
      assert HeadersText(hs[n..]) + y == HeaderText(hs[n]) + x;
      var mid := HeaderStep(rb, hs[n], x);
      PlainHeaderIs(hs[n]);
      var at := rb.pos + |hs[n].pre| + |hs[n].name| + 1 + |hs[n].gap|;
      HeadersNext(rb, mid, was, hs, n, at);
      SetParamLine(rb.req, FieldOf(hs[n].name), mid.buff, at);
      next := HeadersRun(mid, was, hs, n + 1, y);
      ComesTrans(rb, mid, next);
      SameLineTrans(rb.req, mid.req, next.req);
    }
  }

  lemma SameLineRefl(a: Req)
    ensures SameLine(a, a)
  {
  }

  lemma NoHeaders(hs: seq<Header>)
    ensures hs == [] ==> HeadersText(hs) == []
  {
  }

  // ---- the whole request ----

  /** The empty line, whatever follows. */
  lemma EndStep(rb: Reqb, pre: seq<Byte>, c: Byte, y: seq<Byte>)
    requires At(rb, pre + [c] + y) && rb.pstate == 5 && InlineBlanks(pre) && (c == 13 || c == 10)
    ensures Parse(true, rb) == rb.(state := REQB_FINISHED)
  {
    NothingBetween(pre, c, y);
    InlineOver(rb, [], pre, [], c, y);
    AtByte(rb, pre, c, y);
    assert LineAt(rb) == EmptyLine;
    hide Scan, LineAt;
    assert Turn(true, rb) == End(rb.(state := REQB_FINISHED));
    ParseStep(true, rb);
    hide Parse;
  }

  /** A buffer as `http_reqb_init` leaves it. */
  ghost predicate Fresh(rb: Reqb) {
    Good(rb) && rb.pos == rb.size == rb.pstate == 0 && rb.req.numParams == 0
  }

  /** Path and parameters. */
  lemma TargetRun(rb: Reqb, r: Request, y: seq<Byte>) returns (next: Reqb)
    requires At(rb, TargetText(r) + y) && rb.pstate == 1 && rb.req.numParams == 0 && Writable(r)
    ensures Comes(rb, next) && At(next, y) && next.pstate == 4
    ensures next.req == rb.req.(uri := next.req.uri, numParams := next.req.numParams, params := next.req.params,
                                values := next.req.values)
    ensures Leads(next.buff, next.req.uri, r.path, next.pos)
    ensures ParamsShown(next.buff, next.req, r.query, |r.query|, next.pos)
  {
    hide *;
    WritableIs(r);
    TargetTextIs(r);
    QueryTextIs(r.query, 63);
    TargetBytes(r, y);
    if r.query == [] {
      next := PathStep(rb, r.pathPre, r.path, 32, y);
      NoParams(next.buff, next.req, r.query, next.pos);
    } else {
      var x := ParamText(r.query[0]) + QueryText(r.query[1..], 38) + [32] + y;
      var mid := PathStep(rb, r.pathPre, r.path, 63, x);
      NoParams(mid.buff, mid.req, r.query, mid.pos);
      next := ParamsRun(mid, r.query, 0, y);
      ComesTrans(rb, mid, next);
      LeadsOn(mid, next, mid.req.uri, r.path);
      ButParams(mid.req, next.req);
    }
  }

  lemma TargetBytes(r: Request, y: seq<Byte>)
    ensures r.query == [] ==> TargetText(r) + y == r.pathPre + r.path + [32] + y
    ensures r.query != [] ==>
      TargetText(r) + y == r.pathPre + r.path + [63] + (ParamText(r.query[0]) + QueryText(r.query[1..], 38) + [32] + y)
  {
    hide *;
    TargetTextIs(r);
    QueryTextIs(r.query, 63);
    if r.query != [] {
      var t := ParamText(r.query[0]) + QueryText(r.query[1..], 38);
      assert r.pathPre + r.path + ([63] + t) + [32] + y == r.pathPre + r.path + [63] + (t + [32] + y);
      assert [63] + ParamText(r.query[0]) + QueryText(r.query[1..], 38) == [63] + t;
    }
  }

  lemma TargetTextIs(r: Request)
    ensures TargetText(r) == r.pathPre + r.path + QueryText(r.query, 63) + [32]
    ensures VersionText(r) == r.verPre + r.ver + [r.verEnd] + [10]
  {
    hide QueryText;
  }

  lemma ButParams(a: Req, b: Req)
    requires SameButParams(a, b)
    ensures b == a.(numParams := b.numParams, params := b.params, values := b.values)
  {
  }

  lemma NoParams(b: seq<Byte>, r: Req, q: seq<Param>, lim: nat)
    ensures r.numParams == 0 ==> ParamsShown(b, r, q, 0, lim)
    ensures r.numParams == 0 && q == [] ==> ParamsShown(b, r, q, |q|, lim)
  {
  }

  lemma WritableIs(r: Request)
    requires Writable(r)
    ensures r.verb != [] && r.verb[0] > 0x20 && forall i :: 0 <= i < |r.verb| ==> r.verb[i] != 0 && r.verb[i] != 32
    ensures AllPlain(r.path) && (r.path != [] || r.query != [])
    ensures forall i :: 0 <= i < |r.query| ==> PlainParam(r.query[i])
    ensures r.ver != [] && Inline(r.ver) && r.verEnd != 10 && (r.last == 13 || r.last == 10)
    ensures Blanks(r.verbPre) && Blanks(r.pathPre) && Blanks(r.verPre) && InlineBlanks(r.lastPre)
    ensures forall i :: 0 <= i < |r.headers| ==> PlainHeader(r.headers[i])
  {
    hide AllPlain, PlainParam, PlainHeader, Inline, Blanks, InlineBlanks;
  }

  /** The text of a request and anything behind it, parsed from its beginning. */
  lemma TextRun(rb: Reqb, r: Request, y: seq<Byte>)
    requires At(rb, Text(r) + y) && rb.pos == rb.pstate == 0 && rb.req.numParams == 0 && Writable(r)
    ensures Good(rb) && Parse(true, rb).state == REQB_FINISHED && Shows(Parse(true, rb), rb.req, r)
  {
    hide *;
    WritableIs(r);
    TargetTextIs(r);
    TextIs(r);
    var x4 := r.lastPre + [r.last] + y;
    var x3 := HeadersText(r.headers) + x4;
    var x2 := VersionText(r) + x3;
    var x1 := TargetText(r) + x2;
    assert Text(r) + y == r.verbPre + r.verb + [32] + x1;
    AtGood(rb, Text(r) + y);
    var a := VerbStep(rb, r.verbPre, r.verb, x1);
    MethodNames(r.verb);
    var b := TargetRun(a, r, x2);
    var c := VersionStep(b, r.verPre, r.ver, r.verEnd, x3);
    LeadsOn(b, c, b.req.uri, r.path);
    ParamsOn(b, c, r.query, |r.query|);
    ParamsSame(c.buff, b.req, c.req, r.query, c.pos);
    assert r.headers[0..] == r.headers;
    HeadersNone(c, r.headers);
    var d := HeadersRun(c, c.req, r.headers, 0, x4);
    SameLineIs(c.req, d.req);
    LeadsOn(c, d, c.req.uri, r.path);
    LeadsOn(c, d, c.req.ver, r.ver);
    ParamsOn(c, d, r.query, |r.query|);
    ParamsSame(d.buff, c.req, d.req, r.query, d.pos);
    EndStep(d, r.lastPre, r.last, y);
    ComesTrans(rb, a, b);
    ComesTrans(rb, b, c);
    ComesTrans(rb, c, d);
    ComesIs(rb, d);
    HeadersSince(d.buff, c.req, rb.req, d.req, r.headers, d.pos);
    IsShown(d.(state := REQB_FINISHED), rb.req, r);
  }

  lemma ComesIs(rb: Reqb, next: Reqb)
    requires Comes(rb, next)
    ensures Good(rb) && Good(next) && Parse(true, rb) == Parse(true, next) && next.size == rb.size
  {
    hide Parse, Good;
  }

  lemma SameLineIs(a: Req, b: Req)
    requires SameLine(a, b)
    ensures b.verb == a.verb && b.uri == a.uri && b.ver == a.ver
    ensures b.numParams == a.numParams && b.params == a.params && b.values == a.values
  {
  }

  lemma ParamsSame(b: seq<Byte>, r: Req, s: Req, q: seq<Param>, lim: nat)
    requires ParamsShown(b, r, q, |q|, lim)
    requires s.numParams == r.numParams && s.params == r.params && s.values == r.values
    ensures ParamsShown(b, s, q, |q|, lim)
  {
    hide Leads;
    forall k | 0 <= k < |q| && k < 32
      ensures ParamShown(b, s, k, q[k], lim)
    {
      assert ParamShown(b, r, k, q[k], lim);
    }
  }

  lemma TextIs(r: Request)
    ensures Text(r) ==
      r.verbPre + r.verb + [32] + TargetText(r) + VersionText(r) + HeadersText(r.headers) + r.lastPre + [r.last]
  {
    hide TargetText, VersionText, HeadersText;
  }

  /** What the header fields were before the first line counts. */
  lemma HeadersSince(b: seq<Byte>, was: Req, first: Req, now: Req, hs: seq<Header>, lim: nat)
    requires HeadersShown(b, was, now, hs, |hs|, lim)
    requires first == was.(verb := first.verb, uri := first.uri, ver := first.ver, numParams := first.numParams,
                           params := first.params, values := first.values)
    ensures HeadersShown(b, first, now, hs, |hs|, lim)
  {
    hide Leads, LastIndex, FieldBytes, Bytes, IsNumeral, Number32;
    forall f: Field | IsText(f)
      ensures TextShown(b, first, now, hs, |hs|, lim, f)
    {
      assert TextShown(b, was, now, hs, |hs|, lim, f);
    }
  }

  lemma IsShown(e: Reqb, was: Req, r: Request)
    requires VerbShown(e.req.verb, r.verb)
    requires Leads(e.buff, e.req.uri, r.path, e.pos) && ParamsShown(e.buff, e.req, r.query, |r.query|, e.pos)
    requires Leads(e.buff, e.req.ver, r.ver, e.pos)
    requires HeadersShown(e.buff, was, e.req, r.headers, |r.headers|, e.pos)
    ensures Shows(e, was, r)
  {
    hide VerbShown, Leads, ParamsShown, HeadersShown;
  }

  /** A request that is written down and pushed into a fresh buffer, with anything behind it, is that
      request. */
  lemma RoundTrip(rb: Reqb, r: Request, y: seq<Byte>)
    requires Fresh(rb) && Writable(r) && |Text(r) + y| < |rb.buff|
    ensures Good(rb) && Push(true, rb, Text(r) + y).state == REQB_FINISHED
    ensures Shows(Push(true, rb, Text(r) + y), rb.req, r)
  {
    hide *;
    FreshIs(rb);
    var t := Text(r) + y;
    ExtFacts(rb, t);
    PushFits(true, rb, t);
    PushedAt(rb, t);
    TextRun(Ext(rb, t), r, y);
  }

  /** Of whatever request the bytes are the text. */
  lemma AnyRequest(rb: Reqb, x: seq<Byte>)
    requires Fresh(rb) && |x| < |rb.buff|
    ensures Good(rb) && forall r: Request, y: seq<Byte> :: Writable(r) && x == Text(r) + y ==>
      Push(true, rb, x).state == REQB_FINISHED && Shows(Push(true, rb, x), rb.req, r)
  {
    hide *;
    FreshIs(rb);
    forall r: Request, y: seq<Byte> | Writable(r) && x == Text(r) + y
      ensures Push(true, rb, x).state == REQB_FINISHED && Shows(Push(true, rb, x), rb.req, r)
    {
      RoundTrip(rb, r, y);
    }
  }

  lemma FreshIs(rb: Reqb)
    requires Fresh(rb)
    ensures Good(rb) && rb.pos == rb.size == rb.pstate == 0 && rb.req.numParams == 0
  {
  }

  /** What was pushed is there. */
  lemma PushedAt(rb: Reqb, x: seq<Byte>)
    requires Good(rb) && rb.pos == rb.size == 0 && |x| < |rb.buff|
    ensures At(Ext(rb, x), x)
  {
  }

  // ---- lines that end in a line feed alone ----

  /** The version as it is written: all of its line but the line end. */
  function VersionWritten(r: Request): seq<Byte> {
    if r.verEnd == 13 then r.ver else r.ver + [r.verEnd]
  }

  /** The version is kept as it is written exactly if its line ends in a carriage return and a line feed: the
      terminator goes over the character before the line feed, whatever that is. */
  lemma WholeLineIff(rb: Reqb, r: Request, y: seq<Byte>)
    requires Fresh(rb) && Writable(r) && |Text(r) + y| < |rb.buff|
    ensures Good(rb)
    ensures var e := Push(true, rb, Text(r) + y);
      Leads(e.buff, e.req.ver, VersionWritten(r), e.pos) <==> r.verEnd == 13
  {
    RoundTrip(rb, r, y);
    hide Push, Fresh, Writable, Text, Leads, HeadersShown, ParamsShown, VerbShown, Good;
    var e := Push(true, rb, Text(r) + y);
    LeadsIsRef(e.buff, e.req.ver, r.ver, e.pos);
    StringIs(e.buff, e.req.ver.at, r.ver, e.pos);
    if Leads(e.buff, e.req.ver, VersionWritten(r), e.pos) {
      StringIs(e.buff, e.req.ver.at, VersionWritten(r), e.pos);
    }
  }

  lemma LeadsIsRef(b: seq<Byte>, ref: Ref, s: seq<Byte>, lim: nat)
    requires Leads(b, ref, s, lim)
    ensures ref.Ref? && ref == Ref(ref.at)
  {
  }

  /** `GET / HTTP/1.1`, in a line that ends in a line feed alone, is a request of version `HTTP/1.`. */
  lemma LineFeedAlone(rb: Reqb)
    requires Fresh(rb) && |rb.buff| > 16
    ensures Good(rb)
    ensures var e := Push(true, rb, Bytes("GET / HTTP/1.1\n\n"));
      e.state == REQB_FINISHED && e.req.verb == METHOD_GET && Leads(e.buff, e.req.ver, Bytes("HTTP/1."), e.pos)
  {
    var r := Request([], Bytes("GET"), [], Bytes("/"), [], [], Bytes("HTTP/1."), 0x31, [], [], 10);
    SmallRequest(r);
    SmallText(r);
    assert Text(r) + [] == Text(r);
    hide *;
    RoundTrip(rb, r, []);
    ShowsIs(Push(true, rb, Text(r) + []), rb.req, r);
    GetIsNamed(Push(true, rb, Text(r) + []).req.verb);
  }

  lemma SmallBytes()
    ensures Bytes("GET") == [71, 69, 84] && Bytes("/") == [47] && Bytes("HTTP/1.") == [72, 84, 84, 80, 47, 49, 46]
    ensures Bytes("GET / HTTP/1.1\n\n") == [71, 69, 84, 32, 47, 32, 72, 84, 84, 80, 47, 49, 46, 49, 10, 10]
  {
  }

  lemma SmallTarget(r: Request)
    requires r.pathPre == [] && r.path == [47] && r.query == []
    ensures TargetText(r) == [47, 32]
  {
  }

  lemma SmallVersion(r: Request)
    requires r.verPre == [] && r.ver == [72, 84, 84, 80, 47, 49, 46] && r.verEnd == 49
    ensures VersionText(r) == [72, 84, 84, 80, 47, 49, 46, 49, 10]
  {
  }

  lemma SmallText(r: Request)
    requires r == Request([], Bytes("GET"), [], Bytes("/"), [], [], Bytes("HTTP/1."), 0x31, [], [], 10)
    ensures Text(r) == Bytes("GET / HTTP/1.1\n\n") && |Text(r)| == 16
  {
    SmallBytes();
    assert QueryText([], 63) == [] && HeadersText([]) == [];
    hide *;
    SmallTarget(r);
    SmallVersion(r);
    TextIs(r);
    var t := r.verbPre + r.verb + [32] + TargetText(r);
    assert t == [71, 69, 84, 32, 47, 32];
    assert Text(r) == t + VersionText(r) + [10];
  }

  lemma ShowsIs(e: Reqb, was: Req, r: Request)
    requires Shows(e, was, r)
    ensures VerbShown(e.req.verb, r.verb) && Leads(e.buff, e.req.ver, r.ver, e.pos)
  {
    hide VerbShown, Leads, ParamsShown, HeadersShown;
  }

  lemma GetIsNamed(m: Method)
    requires VerbShown(m, Bytes("GET"))
    ensures m == METHOD_GET
  {
    assert Bytes("GET") == MethodBytes(METHOD_GET);
    if m != METHOD_NONE && m != METHOD_GET {
      MethodsDiffer(m);
    }
  }

  lemma MethodsDiffer(m: Method)
    requires m != METHOD_NONE && m != METHOD_GET
    ensures |MethodBytes(m)| != 3 || MethodBytes(m)[0] != 71
  {
  }

  lemma SmallRequest(r: Request)
    requires r == Request([], Bytes("GET"), [], Bytes("/"), [], [], Bytes("HTTP/1."), 0x31, [], [], 10)
    ensures Writable(r)
  {
  }

  // ---- what is not allowed ----

  /** The character `c` stands where the parse expects element `pstate` to go on: it belongs to no element and
      separates none. */
  predicate Offends(pstate: nat, c: Byte) {
    && !Plain(c)
    && if pstate == 1 then c != 63 && c != 32
       else if pstate == 2 then c != 38 && c != 61 && c != 32
       else if pstate == 3 then c != 38 && c != 32
       else pstate == 5 && c != 58
  }

  /** What a turn does with the character `c` behind the characters `x`: an error if it offends. */
  ghost predicate Ends(rb: Reqb, offends: bool) {
    Good(rb) &&
    if offends then Turn(true, rb) == End(rb.(pstate := 10 + rb.pstate, state := REQB_SYNT_ERROR))
    else !Turn(true, rb).End?
  }

  lemma EndsBy(rb: Reqb, n: nat, offends: bool)
    requires Good(rb) && rb.pstate == n
    requires if offends then Turn(true, rb) == End(Failed(rb, 10 + n)) else !Turn(true, rb).End?
    ensures Ends(rb, offends)
  {
    hide Turn;
  }

  lemma PathEnds(rb: Reqb, x: seq<Byte>, c: Byte, y: seq<Byte>)
    requires At(rb, x + [c] + y) && AllPlain(x) && rb.pstate == 1 && !Plain(c) && (x == [] ==> c > 0x20)
    ensures Ends(rb, c != 63 && c != 32)
  {
    PlainNotZero(x);
    AtGood(rb, x + [c] + y);
    hide *;
    AtByte(rb, x, c, y);
    NoBlanks(rb, x, c, y);
    PlainFrom(rb, x, c, y);
    UriAt(rb);
    TurnAt(true, rb);
    SpIs();
    EndsBy(rb, 1, c != 63 && c != 32);
  }

  lemma NameEnds(rb: Reqb, x: seq<Byte>, c: Byte, y: seq<Byte>)
    requires At(rb, x + [c] + y) && AllPlain(x) && rb.pstate == 2 && !Plain(c)
    ensures Ends(rb, c != 38 && c != 61 && c != 32)
  {
    AtGood(rb, x + [c] + y);
    hide *;
    AtByte(rb, x, c, y);
    PlainFrom(rb, x, c, y);
    ParamAt(rb);
    TurnAt(true, rb);
    SpIs();
    EndsBy(rb, 2, c != 38 && c != 61 && c != 32);
  }

  lemma ValueEnds(rb: Reqb, x: seq<Byte>, c: Byte, y: seq<Byte>)
    requires At(rb, x + [c] + y) && AllPlain(x) && rb.pstate == 3 && !Plain(c)
    ensures Ends(rb, c != 38 && c != 32)
  {
    AtGood(rb, x + [c] + y);
    hide *;
    TurnAt(true, rb);
    AtByte(rb, x, c, y);
    PlainFrom(rb, x, c, y);
    ValueAt(rb);
    SpIs();
    EndsBy(rb, 3, c != 38 && c != 32);
  }
  lemma FieldEnds(rb: Reqb, x: seq<Byte>, c: Byte, y: seq<Byte>)
    requires At(rb, x + [c] + y) && AllPlain(x) && rb.pstate == 5 && !Plain(c) && (x == [] ==> c > 0x20)
    ensures Ends(rb, c != 58)
  {
    PlainNotZero(x);
    AtGood(rb, x + [c] + y);
    hide *;
    AtByte(rb, x, c, y);
    NoBlanks(rb, x, c, y);
    PlainFrom(rb, x, c, y);
    FirstAt(rb, x, c, y);
    FieldTurn(rb);
    EndsBy(rb, 5, c != 58);
  }

  lemma FirstAt(rb: Reqb, x: seq<Byte>, c: Byte, y: seq<Byte>)
    requires At(rb, x + [c] + y)
    ensures rb.pos < |rb.buff| && rb.buff[rb.pos] == if x == [] then c else x[0]
  {
    AtByte(rb, x, c, y);
    hide At;
    assert x != [] ==> rb.buff[rb.pos + 0] == x[0];
  }

  lemma FieldTurn(rb: Reqb)
    requires Good(rb) && rb.pstate == 5 && Scan(InlineBlank, rb.buff, rb.size, rb.pos) == rb.pos < rb.size < |rb.buff|
    requires rb.buff[rb.pos] != 13 && rb.buff[rb.pos] != 10 && Scan(Ident, rb.buff, rb.size, rb.pos) < rb.size
    ensures if rb.buff[Scan(Ident, rb.buff, rb.size, rb.pos)] != 58 then Turn(true, rb) == End(Failed(rb, 15))
      else !Turn(true, rb).End?
  {
    hide *;
    HeaderAt(true, rb);
    LineBy(rb.buff, rb.size, rb.pos, rb.pos, Scan(Ident, rb.buff, rb.size, rb.pos), 0, 0);
    LineEnds(rb.buff, rb.size, rb.pos);
    TurnAt(true, rb);
    SpIs();
  }

  /** A field name followed by a colon is no bad line. */
  lemma LineEnds(b: seq<Byte>, n: nat, pos: nat)
    requires pos <= n <= |b| && Scan(InlineBlank, b, n, pos) == pos < n && b[pos] != 13 && b[pos] != 10
    ensures var c := Scan(Ident, b, n, pos);
      c < n ==> (b[c] == 58 <==> LineIn(b, n, pos).Line? || LineIn(b, n, pos) == Partial)
  {
    hide Scan;
  }

  /** Behind the characters `x` of a path, a parameter, a value or the name of a field, `c` ends the parse
      with an error, whatever follows, exactly if it offends; else the parse goes on. */
  lemma OffendingEnds(rb: Reqb, x: seq<Byte>, c: Byte, y: seq<Byte>)
    requires At(rb, x + [c] + y) && AllPlain(x)
    requires rb.pstate == 1 || rb.pstate == 2 || rb.pstate == 3 || rb.pstate == 5
    requires !Plain(c) && (x == [] && (rb.pstate == 1 || rb.pstate == 5) ==> c > 0x20)
    ensures Good(rb) && (Turn(true, rb).End? <==> Offends(rb.pstate, c))
    ensures Offends(rb.pstate, c) ==> Parse(true, rb) == rb.(pstate := 10 + rb.pstate, state := REQB_SYNT_ERROR)
  {
    AtGood(rb, x + [c] + y);
    if rb.pstate == 1 {
      PathEnds(rb, x, c, y);
    } else if rb.pstate == 2 {
      NameEnds(rb, x, c, y);
    } else if rb.pstate == 3 {
      ValueEnds(rb, x, c, y);
    } else {
      FieldEnds(rb, x, c, y);
    }
    ParseStep(true, rb);
    hide Parse, Turn, At, AllPlain, Plain, Good;
  }

  /** Where in a request a character can offend: in the path, in the name or the value of a parameter,
      in the name of a field. */
  datatype Place = InPath | InName | InValue(name: seq<Byte>) | InField

  function StateOf(p: Place): nat {
    if p.InPath? then 1 else if p.InName? then 2 else if p.InValue? then 3 else 5
  }

  /** Parameters, each with `&` behind it. */
  function Joined(q: seq<Param>): seq<Byte> {
    if q == [] then [] else ParamText(q[0]) + [38] + Joined(q[1..])
  }

  /** The text of `r` up to the place. */
  function Upto(r: Request, p: Place): seq<Byte> {
    var start := r.verbPre + r.verb + [32];
    if p.InPath? then start
    else if p.InName? then start + (r.pathPre + r.path + [63] + Joined(r.query))
    else if p.InValue? then start + (r.pathPre + r.path + [63] + (Joined(r.query) + (p.name + [61])))
    else start + (TargetText(r) + (VersionText(r) + HeadersText(r.headers)))
  }

  lemma {:induction false} JoinedRun(rb: Reqb, q: seq<Param>, n: nat, y: seq<Byte>) returns (next: Reqb)
    requires n <= |q| && At(rb, Joined(q[n..]) + y) && rb.pstate == 2
    requires (forall i :: 0 <= i < |q| ==> PlainParam(q[i])) && ParamsShown(rb.buff, rb.req, q, n, rb.pos)
    ensures Comes(rb, next) && At(next, y) && next.pstate == 2
    decreases |q| - n
  {
    hide *;
    JoinedIs(q, n);
    if n == |q| {
      assert Joined(q[n..]) + y == y;
      AtGood(rb, y);
      ComesRefl(rb);
      next := rb;
    } else {
      var x := Joined(q[n + 1..]) + y;
      assert Joined(q[n..]) + y == ParamText(q[n]) + [38] + x;
      var mid := ParamStep(rb, q, n, 38, x);
      next := JoinedRun(mid, q, n + 1, y);
      ComesTrans(rb, mid, next);
    }
  }

  lemma JoinedIs(q: seq<Param>, n: nat)
    requires n <= |q|
    ensures Joined(q[n..]) == if n == |q| then [] else ParamText(q[n]) + [38] + Joined(q[n + 1..])
  {
    if n < |q| {
      assert q[n..][1..] == q[n + 1..];
    }
  }

  /** The parse comes to the header lines, and over those there are. */
  lemma FieldRun(rb: Reqb, r: Request, y: seq<Byte>) returns (next: Reqb)
    requires At(rb, TargetText(r) + (VersionText(r) + (HeadersText(r.headers) + y))) && Writable(r)
    requires rb.pstate == 1 && rb.req.numParams == 0
    ensures Comes(rb, next) && At(next, y) && next.pstate == 5
  {
    hide *;
    WritableIs(r);
    TargetTextIs(r);
    var x2 := HeadersText(r.headers) + y;
    var x1 := VersionText(r) + x2;
    var b := TargetRun(rb, r, x1);
    var c := VersionStep(b, r.verPre, r.ver, r.verEnd, x2);
    assert r.headers[0..] == r.headers;
    HeadersNone(c, r.headers);
    next := HeadersRun(c, c.req, r.headers, 0, y);
    ComesTrans(rb, b, c);
    ComesTrans(rb, c, next);
  }

  /** The parse comes to the next parameter. */
  lemma NameRun(rb: Reqb, r: Request, y: seq<Byte>) returns (next: Reqb)
    requires At(rb, r.pathPre + r.path + [63] + (Joined(r.query) + y)) && Writable(r)
    requires rb.pstate == 1 && rb.req.numParams == 0
    ensures Comes(rb, next) && At(next, y) && next.pstate == 2
  {
    hide *;
    WritableIs(r);
    var b := PathStep(rb, r.pathPre, r.path, 63, Joined(r.query) + y);
    assert r.query[0..] == r.query;
    NoParams(b.buff, b.req, r.query, b.pos);
    next := JoinedRun(b, r.query, 0, y);
    ComesTrans(rb, b, next);
  }

  /** The parse comes to the place. */
  lemma UptoRun(rb: Reqb, r: Request, p: Place, y: seq<Byte>) returns (next: Reqb)
    requires At(rb, Upto(r, p) + y) && rb.pstate == 0 && rb.req.numParams == 0 && Writable(r)
    requires p.InValue? ==> AllPlain(p.name)
    ensures Comes(rb, next) && At(next, y) && next.pstate == StateOf(p)
  {
    hide *;
    WritableIs(r);
    UptoIs(r, p, y);
    StateOfIs(p);
    var a := VerbStep(rb, r.verbPre, r.verb, Behind(r, p, y));
    BehindIs(r, p, y);
    if p.InPath? {
      next := a;
    } else if p.InField? {
      next := FieldRun(a, r, y);
      ComesTrans(rb, a, next);
    } else if p.InName? {
      next := NameRun(a, r, y);
      ComesTrans(rb, a, next);
    } else {
      var n := NameRun(a, r, p.name + [61] + y);
      next := NameStep(n, p.name, 61, y);
      ComesTrans(rb, a, n);
      ComesTrans(rb, n, next);
    }
  }

  /** What stands behind the method, up to the place. */
  function Behind(r: Request, p: Place, y: seq<Byte>): seq<Byte> {
    if p.InPath? then y
    else if p.InName? then r.pathPre + r.path + [63] + (Joined(r.query) + y)
    else if p.InValue? then r.pathPre + r.path + [63] + (Joined(r.query) + (p.name + [61] + y))
    else TargetText(r) + (VersionText(r) + (HeadersText(r.headers) + y))
  }

  lemma BehindIs(r: Request, p: Place, y: seq<Byte>)
    ensures p.InPath? ==> Behind(r, p, y) == y
    ensures p.InName? ==> Behind(r, p, y) == r.pathPre + r.path + [63] + (Joined(r.query) + y)
    ensures p.InValue? ==> Behind(r, p, y) == r.pathPre + r.path + [63] + (Joined(r.query) + (p.name + [61] + y))
    ensures p.InField? ==> Behind(r, p, y) == TargetText(r) + (VersionText(r) + (HeadersText(r.headers) + y))
  {
    hide Joined, TargetText, VersionText, HeadersText;
  }

  lemma UptoIs(r: Request, p: Place, y: seq<Byte>)
    ensures Upto(r, p) + y == r.verbPre + r.verb + [32] + Behind(r, p, y)
  {
    hide Joined, TargetText, VersionText, HeadersText;
    var start := r.verbPre + r.verb + [32];
    if p.InName? {
      assert start + (r.pathPre + r.path + [63] + Joined(r.query)) + y
          == start + (r.pathPre + r.path + [63] + (Joined(r.query) + y));
    } else if p.InValue? {
      var j, n := Joined(r.query), p.name + [61];
      assert start + (r.pathPre + r.path + [63] + (j + n)) + y
          == start + (r.pathPre + r.path + [63] + (j + (n + y)));
    } else if p.InField? {
      var t, v, h := TargetText(r), VersionText(r), HeadersText(r.headers);
      assert start + (t + (v + h)) + y == start + (t + (v + (h + y)));
    }
  }

  lemma StateOfIs(p: Place)
    ensures StateOf(p) == if p.InPath? then 1 else if p.InName? then 2 else if p.InValue? then 3 else 5
  {
  }

  /** The first character that offends, in a request pushed into a fresh buffer, makes it a syntax error,
      whatever follows. */
  lemma OffendingIsError(rb: Reqb, r: Request, p: Place, x: seq<Byte>, c: Byte, y: seq<Byte>)
    requires Fresh(rb) && Writable(r) && (p.InValue? ==> AllPlain(p.name)) && AllPlain(x)
    requires Offends(StateOf(p), c) && (x == [] && (p.InPath? || p.InField?) ==> c > 0x20)
    requires |Upto(r, p) + (x + [c] + y)| < |rb.buff|
    ensures Good(rb) && Push(true, rb, Upto(r, p) + (x + [c] + y)).state == REQB_SYNT_ERROR
  {
    hide *;
    FreshIs(rb);
    StateOfIs(p);
    var t := Upto(r, p) + (x + [c] + y);
    ExtFacts(rb, t);
    PushFits(true, rb, t);
    PushedAt(rb, t);
    var next := UptoRun(Ext(rb, t), r, p, x + [c] + y);
    ComesIs(Ext(rb, t), next);
    OffendsIs(StateOf(p), c);
    OffendingEnds(next, x, c, y);
  }

  lemma OffendsIs(pstate: nat, c: Byte)
    requires Offends(pstate, c)
    ensures !Plain(c)
  {
  }
}
