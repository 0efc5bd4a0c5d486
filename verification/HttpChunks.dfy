/**
 Chunking: however the bytes of a request are cut into successive pushes, the request that
 comes out is the same, but for numbers whose line has no value. All on values.
 */
module HttpChunks {
  import opened Bits
  import opened HttpSpec
  import opened Layout

  // ---- more bytes in the buffer ----

  function Written(b: seq<Byte>, at: nat, y: seq<Byte>): (r: seq<Byte>)
    requires at + |y| <= |b|
    ensures |r| == |b| && forall k :: 0 <= k < |b| ==> r[k] == if at <= k < at + |y| then y[k - at] else b[k]
  {
    b[..at] + y + b[at + |y|..]
  }

  /** `memcpy` of the bytes `y` to the end of the buffer's content. */
  function Ext(rb: Reqb, y: seq<Byte>): Reqb
    requires rb.size + |y| < |rb.buff|
  {
    rb.(buff := Written(rb.buff, rb.size, y), size := rb.size + |y|)
  }

  lemma ExtFacts(rb: Reqb, y: seq<Byte>)
    requires rb.size + |y| < |rb.buff|
    ensures var e := Ext(rb, y);
      && e.size == rb.size + |y| && |e.buff| == |rb.buff| && e.pos == rb.pos && e.pstate == rb.pstate
      && e.state == rb.state && e.req == rb.req
      && forall k :: 0 <= k < rb.size ==> e.buff[k] == rb.buff[k]
    ensures Good(rb) ==> Good(Ext(rb, y))
  {
  }

  lemma ExtNothing(rb: Reqb)
    requires rb.size < |rb.buff|
    ensures Ext(rb, []) == rb
  {
    assert Written(rb.buff, rb.size, []) == rb.buff;
  }

  lemma ExtTwice(rb: Reqb, x: seq<Byte>, y: seq<Byte>)
    requires rb.size + |x| + |y| < |rb.buff|
    ensures Ext(Ext(rb, x), y) == Ext(rb, x + y)
  {
    assert Written(Written(rb.buff, rb.size, x), rb.size + |x|, y) == Written(rb.buff, rb.size, x + y);
  }

  /** A terminator in the old content and bytes after it do not get in each other's way. */
  lemma WriteCommutes(b: seq<Byte>, at: nat, y: seq<Byte>, j: nat)
    requires j < at && at + |y| <= |b|
    ensures Written(b, at, y)[j := 0] == Written(b[j := 0], at, y)
  {
  }

  lemma CommittedExt(rb: Reqb, y: seq<Byte>, j: nat, pstate: nat, req: Req)
    requires rb.size + |y| < |rb.buff| && j < rb.size
    ensures Committed(Ext(rb, y), j, pstate, req) == Ext(Committed(rb, j, pstate, req), y)
  {
    WriteCommutes(rb.buff, rb.size, y, j);
    hide Written;
  }

  lemma FailedExt(rb: Reqb, y: seq<Byte>, pstate: nat)
    requires rb.size + |y| < |rb.buff|
    ensures Failed(Ext(rb, y), pstate) == Ext(Failed(rb, pstate), y)
  {
    hide Written;
  }

  /** What a step that ends on the old content should be when there is more. */
  function ExtStep(rb: Reqb, t: Step, y: seq<Byte>): Step
    requires rb.size + |y| < |rb.buff| && Sized(rb, t)
  {
    match t
    case Wait => Wait
    case Commit(next) => Commit(Ext(next, y))
    case End(last) => End(Ext(last, y))
  }

  predicate Sized(rb: Reqb, t: Step) {
    t.Wait? || (t.rb.size == rb.size && |t.rb.buff| == |rb.buff|)
  }

  lemma ProperIsSized(rb: Reqb, t: Step)
    requires Proper(rb, t)
    ensures Sized(rb, t)
  {
  }

  // ---- each element ----

  lemma ScanExt(k: Class, rb: Reqb, y: seq<Byte>, i: nat)
    requires rb.size + |y| < |rb.buff| && i <= rb.size && Scan(k, rb.buff, rb.size, i) < rb.size
    ensures Scan(k, Ext(rb, y).buff, rb.size + |y|, i) == Scan(k, rb.buff, rb.size, i)
  {
    ExtFacts(rb, y);
    hide Ext;
    ScanMore(k, rb.buff, Ext(rb, y).buff, rb.size, rb.size + |y|, i);
  }

  lemma MethodExt(rb: Reqb, y: seq<Byte>)
    requires Good(rb) && rb.size + |y| < |rb.buff| && ParseMethod(rb) != Wait
    ensures Good(Ext(rb, y)) && Sized(rb, ParseMethod(rb)) && ParseMethod(Ext(rb, y)) == ExtStep(rb, ParseMethod(rb), y)
  {
    ExtFacts(rb, y);
    var i := Scan(Class.Blank, rb.buff, rb.size, rb.pos);
    var j := Scan(NotSpace, rb.buff, rb.size, i);
    ScanExt(Class.Blank, rb, y, rb.pos);
    ScanExt(NotSpace, rb, y, i);
    var verb := StrToMethod(CString(rb.buff[j := 0], i));
    CStringLocal(rb.buff[j := 0], Ext(rb, y).buff[j := 0], i, j);
    CommittedExt(rb, y, j, 1, rb.req.(verb := verb));
    hide Ext, CString, StrToMethod, Scan;
    assert Committed(rb, j, 1, rb.req.(verb := verb)).size == rb.size;
    hide Committed;
  }

  lemma UriExt(rb: Reqb, y: seq<Byte>)
    requires Good(rb) && rb.size + |y| < |rb.buff| && ParseUri(rb) != Wait
    ensures Good(Ext(rb, y)) && Sized(rb, ParseUri(rb)) && ParseUri(Ext(rb, y)) == ExtStep(rb, ParseUri(rb), y)
  {
    ExtFacts(rb, y);
    UriIsProper(rb);
    ProperIsSized(rb, ParseUri(rb));
    var i := Scan(Class.Blank, rb.buff, rb.size, rb.pos);
    var j := Scan(Ident, rb.buff, rb.size, i);
    ScanExt(Class.Blank, rb, y, rb.pos);
    ScanExt(Ident, rb, y, i);
    CommittedExt(rb, y, j, 2, rb.req.(uri := Ref(i)));
    CommittedExt(rb, y, j, 4, rb.req.(uri := Ref(i)));
    FailedExt(rb, y, 11);
    hide Ext, Scan, Committed, Failed, Proper;
  }

  lemma ParamExt(rb: Reqb, y: seq<Byte>)
    requires Good(rb) && rb.size + |y| < |rb.buff| && ParseParam(rb) != Wait
    ensures Good(Ext(rb, y)) && Sized(rb, ParseParam(rb)) && ParseParam(Ext(rb, y)) == ExtStep(rb, ParseParam(rb), y)
  {
    ExtFacts(rb, y);
    ParamIsProper(rb);
    ProperIsSized(rb, ParseParam(rb));
    var j := Scan(Ident, rb.buff, rb.size, rb.pos);
    ScanExt(Ident, rb, y, rb.pos);
    hide AddParam;
    CommittedExt(rb, y, j, 2, AddParam(rb.req, rb.pos));
    CommittedExt(rb, y, j, 3, AddParam(rb.req, rb.pos));
    CommittedExt(rb, y, j, 4, AddParam(rb.req, rb.pos));
    FailedExt(rb, y, 12);
    hide Ext, Scan, Committed, Failed, Proper;
  }

  lemma ValueExt(rb: Reqb, y: seq<Byte>)
    requires Good(rb) && rb.req.numParams >= 1 && rb.size + |y| < |rb.buff| && ParseValue(rb) != Wait
    ensures Good(Ext(rb, y)) && Sized(rb, ParseValue(rb)) && Ext(rb, y).req == rb.req
    ensures ParseValue(Ext(rb, y)) == ExtStep(rb, ParseValue(rb), y)
  {
    ExtFacts(rb, y);
    ValueIsProper(rb);
    ProperIsSized(rb, ParseValue(rb));
    var j := Scan(Ident, rb.buff, rb.size, rb.pos);
    ScanExt(Ident, rb, y, rb.pos);
    hide AddValue;
    CommittedExt(rb, y, j, 2, AddValue(rb.req, rb.pos));
    CommittedExt(rb, y, j, 4, AddValue(rb.req, rb.pos));
    FailedExt(rb, y, 13);
    hide Ext, Scan, Committed, Failed, Proper;
  }

  lemma LineCommittedExt(rb: Reqb, b: seq<Byte>, y: seq<Byte>, l: nat, req: Req)
    requires rb.size + |y| < |rb.buff| == |b| && 1 <= l < rb.size
    ensures LineCommitted(Ext(rb, y), Written(b, rb.size, y), l, req) == Ext(LineCommitted(rb, b, l, req), y)
  {
    WriteCommutes(b, rb.size, y, l - 1);
    hide Written;
  }

  lemma VersionExt(rb: Reqb, y: seq<Byte>)
    requires Good(rb) && rb.size + |y| < |rb.buff| && ParseVersion(rb) != Wait
    ensures Good(Ext(rb, y)) && Sized(rb, ParseVersion(rb))
    ensures ParseVersion(Ext(rb, y)) == ExtStep(rb, ParseVersion(rb), y)
  {
    ExtFacts(rb, y);
    VersionIsProper(rb);
    ProperIsSized(rb, ParseVersion(rb));
    var i := Scan(Class.Blank, rb.buff, rb.size, rb.pos);
    var l := Scan(NotLf, rb.buff, rb.size, i);
    ScanExt(Class.Blank, rb, y, rb.pos);
    ScanExt(NotLf, rb, y, i);
    LineCommittedExt(rb, rb.buff, y, l, rb.req.(ver := Ref(i)));
    assert Ext(rb, y).buff == Written(rb.buff, rb.size, y);
    hide Ext, Scan, LineCommitted, Proper, Written;
  }

  // ---- header lines ----

  /** A complete or bad line is the same line when there is more. */
  lemma LineExt(rb: Reqb, y: seq<Byte>)
    requires Good(rb) && rb.size + |y| < |rb.buff| && LineAt(rb) != Partial
    ensures Good(Ext(rb, y)) && LineAt(Ext(rb, y)) == LineAt(rb)
  {
    hide *;
    ExtFacts(rb, y);
    LineAtIs(rb);
    LineAtIs(Ext(rb, y));
    LineMore(rb.buff, Ext(rb, y).buff, rb.size, rb.size + |y|, rb.pos);
  }

  lemma LineAtIs(rb: Reqb)
    requires Good(rb)
    ensures rb.pos <= rb.size <= |rb.buff| && LineAt(rb) == LineIn(rb.buff, rb.size, rb.pos)
  {
    hide LineIn;
  }

  /** The field of a header line. */
  ghost function FieldAt(rb: Reqb): Field
    requires Good(rb)
  {
    match LineAt(rb)
    case Line(i, c, v, l) => FieldOf(CString(Terminated(rb.buff, Line(i, c, v, l)), i))
    case _ => Other
  }

  /** A number is read from its own line: its value is not empty. */
  ghost predicate Regular(num: bool, rb: Reqb)
    requires Good(rb)
  {
    num && rb.pstate == 5 && LineAt(rb).Line? && IsNumeric(FieldAt(rb)) ==> LineAt(rb).val < LineAt(rb).lf
  }

  /** The number of the header line, if it holds one, is the same when `y` follows. */
  ghost predicate Firm(num: bool, rb: Reqb, y: seq<Byte>)
    requires Good(rb) && rb.size + |y| < |rb.buff|
  {
    num && rb.pstate == 5 && LineAt(rb).Line? && IsNumeric(FieldAt(rb)) ==>
      var l := LineAt(rb);
      Strtol(Written(Terminated(rb.buff, l), rb.size, y), l.val) == Strtol(Terminated(rb.buff, l), l.val)
  }

  lemma RegularIsFirm(num: bool, rb: Reqb, y: seq<Byte>)
    requires Good(rb) && rb.size + |y| < |rb.buff| && Regular(num, rb)
    ensures Firm(num, rb, y)
  {
    if num && rb.pstate == 5 && LineAt(rb).Line? && IsNumeric(FieldAt(rb)) {
      var l := LineAt(rb);
      var b := Terminated(rb.buff, l);
      StrtolLocal(b, Written(b, rb.size, y), l.val, l.lf - 1);
    }
    hide LineAt, FieldAt, Strtol;
  }

  lemma TerminatedExt(rb: Reqb, y: seq<Byte>, l: Line)
    requires rb.size + |y| < |rb.buff| && l.Line? && l.name <= l.colon < l.val <= l.lf < rb.size
    ensures Terminated(Ext(rb, y).buff, l) == Written(Terminated(rb.buff, l), rb.size, y)
    ensures Ext(rb, y).buff[l.colon := 0] == Written(rb.buff[l.colon := 0], rb.size, y)
  {
    WriteCommutes(rb.buff, rb.size, y, l.colon);
    WriteCommutes(rb.buff[l.colon := 0], rb.size, y, l.lf - 1);
  }

  /** The name of a header line does not depend on what follows. */
  lemma FieldExt(rb: Reqb, y: seq<Byte>)
    requires Good(rb) && rb.size + |y| < |rb.buff| && LineAt(rb) != Partial
    ensures Good(Ext(rb, y)) && FieldAt(Ext(rb, y)) == FieldAt(rb)
  {
    LineExt(rb, y);
    if LineAt(rb).Line? {
      var l := LineAt(rb);
      TerminatedExt(rb, y, l);
      CStringLocal(Terminated(rb.buff, l), Written(Terminated(rb.buff, l), rb.size, y), l.name, l.colon);
    }
    hide LineAt, Ext, CString, FieldOf, Terminated, Written;
  }

  /** The end of the value: the terminator, if there is a value. */
  lemma ParamSame(num: bool, rb: Reqb, y: seq<Byte>, l: Line, f: Field)
    requires rb.size + |y| < |rb.buff| && l.Line? && l.name <= l.colon < l.val <= l.lf < rb.size
    requires num && IsNumeric(f) ==>
      Strtol(Written(Terminated(rb.buff, l), rb.size, y), l.val) == Strtol(Terminated(rb.buff, l), l.val)
    requires l.val == l.lf ==> rb.buff[l.val] == LF
    ensures SetParam(num, rb.req, f, Written(Terminated(rb.buff, l), rb.size, y), l.val) ==
            SetParam(num, rb.req, f, Terminated(rb.buff, l), l.val)
  {
    var b := Terminated(rb.buff, l);
    var c := Written(b, rb.size, y);
    if l.val < l.lf {
      CStringLocal(b, c, l.val, l.lf - 1);
    } else {
      NotAConnType(b, l.val);
      NotAConnType(c, l.val);
    }
    hide CString, Strtol, StrToCt, Terminated, Written;
  }

  /** A value that starts with the line feed names no connection type. */
  lemma NotAConnType(b: seq<Byte>, i: nat)
    requires i < |b| && b[i] == LF
    ensures StrToCt(CString(b, i)) == CT_NONE
  {
    assert CString(b, i)[0] == LF;
    assert Lit("close")[0] == 99 && Lit("keep-alive")[0] == 107;
  }

  lemma HeaderExt(num: bool, rb: Reqb, y: seq<Byte>)
    requires Good(rb) && rb.pstate == 5 && rb.size + |y| < |rb.buff| && ParseHeader(num, rb) != Wait && Firm(num, rb, y)
    ensures Good(Ext(rb, y)) && Sized(rb, ParseHeader(num, rb))
    ensures ParseHeader(num, Ext(rb, y)) == ExtStep(rb, ParseHeader(num, rb), y)
  {
    ExtFacts(rb, y);
    HeaderIsProper(num, rb);
    ProperIsSized(rb, ParseHeader(num, rb));
    LineExt(rb, y);
    FailedExt(rb, y, 15);
    match LineAt(rb)
    case Partial =>
    case EmptyLine =>
      FinishedExt(rb, y);
    case Bad =>
    case Line(i, c, v, l) =>
      HeaderLineExt(num, rb, y, Line(i, c, v, l));
  }

  lemma FinishedExt(rb: Reqb, y: seq<Byte>)
    requires rb.size + |y| < |rb.buff|
    ensures Ext(rb, y).(state := REQB_FINISHED) == Ext(rb.(state := REQB_FINISHED), y)
  {
    hide Written;
  }

  lemma LineEnds(rb: Reqb)
    requires Good(rb) && LineAt(rb).Line?
    ensures rb.buff[LineAt(rb).lf] == LF
  {
  }

  lemma HeaderLineExt(num: bool, rb: Reqb, y: seq<Byte>, l: Line)
    requires Good(rb) && rb.pstate == 5 && rb.size + |y| < |rb.buff| && Firm(num, rb, y)
    requires l.Line? && l == LineAt(rb) && Good(Ext(rb, y)) && LineAt(Ext(rb, y)) == l
    requires Sized(rb, ParseHeader(num, rb))
    ensures ParseHeader(num, Ext(rb, y)) == ExtStep(rb, ParseHeader(num, rb), y)
  {
    FieldExt(rb, y);
    TerminatedExt(rb, y, l);
    LineEnds(rb);
    ExtFacts(rb, y);
    var f := FieldAt(rb);
    ParamSame(num, rb, y, l, f);
    LineCommittedExt(rb, rb.buff[l.colon := 0], y, l.lf, SetParam(num, rb.req, f, Terminated(rb.buff, l), l.val));
    hide LineAt, Ext, CString, FieldOf, Terminated, Written, SetParam, LineCommitted, Strtol;
  }

  // ---- a step ----

  /** A step that does not wait is the same step when there is more. */
  lemma TurnExt(num: bool, rb: Reqb, y: seq<Byte>)
    requires Good(rb) && rb.size + |y| < |rb.buff| && Turn(num, rb) != Wait && Firm(num, rb, y)
    ensures Good(Ext(rb, y)) && Sized(rb, Turn(num, rb)) && Turn(num, Ext(rb, y)) == ExtStep(rb, Turn(num, rb), y)
  {
    ExtFacts(rb, y);
    hide Ext, ParseMethod, ParseUri, ParseParam, ParseValue, ParseVersion, ParseHeader, Firm;
    if rb.pstate == 0 {
      MethodExt(rb, y);
    } else if rb.pstate == 1 {
      UriExt(rb, y);
    } else if rb.pstate == 2 {
      ParamExt(rb, y);
    } else if rb.pstate == 3 {
      ValueExt(rb, y);
    } else if rb.pstate == 4 {
      VersionExt(rb, y);
    } else {
      HeaderExt(num, rb, y);
    }
  }

  // ---- a push ----

  /** `http_reqb_push` */
  ghost function Push(num: bool, rb: Reqb, x: seq<Byte>): Reqb
    requires rb.state == REQB_UNFINISHED ==> Good(rb)
  {
    if rb.size + |x| >= |rb.buff| then rb.(state := REQB_REQ_TO_BIG)
    else if rb.state != REQB_UNFINISHED then rb
    else GoodExt(num, rb, x)
  }

  ghost function GoodExt(num: bool, rb: Reqb, x: seq<Byte>): Reqb
    requires Good(rb) && rb.size + |x| < |rb.buff|
  {
    ExtFacts(rb, x);
    Parse(num, Ext(rb, x))
  }

  /** Every header line of the run from `rb` on that holds a number has a value. */
  ghost predicate RegularRun(num: bool, rb: Reqb)
    requires Good(rb)
    decreases rb.size - rb.pos
  {
    TurnKeeps(num, rb);
    Regular(num, rb) && (Turn(num, rb).Commit? ==> RegularRun(num, Turn(num, rb).rb))
  }

  lemma ParseStep(num: bool, rb: Reqb)
    requires Good(rb)
    ensures Proper(rb, Turn(num, rb)) && (rb.pos == rb.size ==> Turn(num, rb) == Wait)
    ensures var t := Turn(num, rb);
      Parse(num, rb) == if t.Wait? then rb else if t.Commit? then Parse(num, t.rb) else t.rb
  {
    TurnKeeps(num, rb);
    hide Turn, Proper;
  }

  lemma RegularStep(num: bool, rb: Reqb)
    requires Good(rb)
    ensures Proper(rb, Turn(num, rb))
    ensures RegularRun(num, rb) ==> Regular(num, rb) && (Turn(num, rb).Commit? ==> RegularRun(num, Turn(num, rb).rb))
    ensures Regular(num, rb) && (Turn(num, rb).Commit? ==> RegularRun(num, Turn(num, rb).rb)) ==> RegularRun(num, rb)
  {
    TurnKeeps(num, rb);
    hide Turn, Proper, Regular;
  }

  lemma ProperFacts(rb: Reqb, t: Step)
    requires Good(rb) && Proper(rb, t)
    ensures t.Commit? ==>
      Good(t.rb) && t.rb.size == rb.size && |t.rb.buff| == |rb.buff| && t.rb.size - t.rb.pos < rb.size - rb.pos
    ensures t.End? ==> t.rb.size == rb.size && |t.rb.buff| == |rb.buff| && t.rb.state != REQB_UNFINISHED
  {
  }

  /** A line that is complete before more bytes come is as regular as before. */
  lemma RegularBefore(num: bool, rb: Reqb, y: seq<Byte>)
    requires Good(rb) && rb.size + |y| < |rb.buff| && Good(Ext(rb, y)) && Regular(num, Ext(rb, y))
    ensures Regular(num, rb)
  {
    ExtFacts(rb, y);
    if LineAt(rb) != Partial {
      LineExt(rb, y);
      FieldExt(rb, y);
    }
    hide Ext, LineAt, FieldAt;
  }

  /** Parsing what is there, then the rest, is parsing it all at once. */
  lemma {:induction false} ParseSplit(num: bool, rb: Reqb, y: seq<Byte>)
    requires Good(rb) && rb.size + |y| < |rb.buff| && Good(Ext(rb, y)) && RegularRun(num, Ext(rb, y))
    ensures var r := Parse(num, rb);
      if r.state == REQB_UNFINISHED
      then Good(Ext(r, y)) && RegularRun(num, Ext(r, y)) && Parse(num, Ext(rb, y)) == Parse(num, Ext(r, y))
      else Parse(num, Ext(rb, y)) == Ext(r, y)
    decreases rb.size - rb.pos
  {
    hide *;
    ParseStep(num, rb);
    ParseStep(num, Ext(rb, y));
    RegularStep(num, Ext(rb, y));
    RegularBefore(num, rb, y);
    ProperFacts(rb, Turn(num, rb));
    if Turn(num, rb) == Wait {
      Unfinished(rb);
    } else {
      RegularIsFirm(num, rb, y);
      TurnExt(num, rb, y);
      ExtStepIs(rb, Turn(num, rb), y);
      if Turn(num, rb).Commit? {
        var next := Turn(num, rb).rb;
        ExtFacts(next, y);
        ParseSplit(num, next, y);
      }
    }
  }

  lemma Unfinished(rb: Reqb)
    requires Good(rb)
    ensures rb.state == REQB_UNFINISHED
  {
  }

  lemma ExtStepIs(rb: Reqb, t: Step, y: seq<Byte>)
    requires rb.size + |y| < |rb.buff| && Sized(rb, t)
    ensures t.Commit? ==> t.rb.size + |y| < |t.rb.buff| && ExtStep(rb, t, y) == Commit(Ext(t.rb, y))
    ensures t.End? ==> t.rb.size + |y| < |t.rb.buff| && ExtStep(rb, t, y) == End(Ext(t.rb, y))
  {
    hide Ext;
  }

  // ---- chunks ----

  function Concat(xs: seq<seq<Byte>>): seq<Byte> {
    if xs == [] then [] else xs[0] + Concat(xs[1..])
  }

  /** Successive pushes. */
  ghost function Fed(num: bool, rb: Reqb, xs: seq<seq<Byte>>): Reqb
    requires rb.state == REQB_UNFINISHED ==> Good(rb)
    decreases |xs|
  {
    if xs == [] then rb
    else
      PushKeeps(num, rb, xs[0]);
      Fed(num, Push(num, rb, xs[0]), xs[1..])
  }

  lemma PushKeeps(num: bool, rb: Reqb, x: seq<Byte>)
    requires rb.state == REQB_UNFINISHED ==> Good(rb)
    ensures Push(num, rb, x).state == REQB_UNFINISHED ==> Good(Push(num, rb, x))
  {
    hide Parse, Ext, Good;
  }

  /** The same outcome: verdict, commit point, expected element and request, and the bytes of
      the shorter run; all of the state while the request is unfinished. */
  ghost predicate SameOutcome(a: Reqb, b: Reqb) {
    && a.state == b.state && a.pos == b.pos && a.pstate == b.pstate && a.req == b.req
    && |a.buff| == |b.buff| && a.size <= b.size <= |b.buff| && a.buff[..a.size] == b.buff[..a.size]
    && (a.state == REQB_UNFINISHED ==> a == b)
  }

  lemma OutcomeRefl(a: Reqb)
    requires a.size <= |a.buff|
    ensures SameOutcome(a, a)
  {
  }

  lemma OutcomeExt(a: Reqb, y: seq<Byte>)
    requires a.size + |y| < |a.buff| && a.state != REQB_UNFINISHED
    ensures SameOutcome(a, Ext(a, y))
  {
  }

  /** After the request has ended, pushes that fit change nothing. */
  lemma {:induction false} FedAfterEnd(num: bool, rb: Reqb, xs: seq<seq<Byte>>)
    requires rb.state != REQB_UNFINISHED && rb.size + |Concat(xs)| < |rb.buff|
    ensures Fed(num, rb, xs) == rb
    decreases |xs|
  {
    if xs != [] {
      FedAfterEnd(num, rb, xs[1..]);
    }
  }

  lemma PushFits(num: bool, rb: Reqb, x: seq<Byte>)
    requires Good(rb) && rb.size + |x| < |rb.buff|
    ensures Good(Ext(rb, x)) && Push(num, rb, x) == Parse(num, Ext(rb, x))
    ensures var r := Push(num, rb, x); r.size == rb.size + |x| && |r.buff| == |rb.buff|
  {
    ExtFacts(rb, x);
    hide Parse, Ext;
  }

  lemma TooBig(num: bool, rb: Reqb, x: seq<Byte>)
    requires (rb.state == REQB_UNFINISHED ==> Good(rb)) && rb.size + |x| >= |rb.buff|
    ensures Push(num, rb, x) == rb.(state := REQB_REQ_TO_BIG)
  {
  }

  lemma Ended(num: bool, rb: Reqb, x: seq<Byte>)
    requires rb.state != REQB_UNFINISHED && rb.size + |x| < |rb.buff|
    ensures Push(num, rb, x) == rb
  {
  }

  lemma ExtIs(rb: Reqb, x: seq<Byte>, b: seq<Byte>)
    requires rb.size + |x| < |rb.buff| && b == Splice(rb.buff, rb.size, x)
    ensures Ext(rb, x) == rb.(buff := b, size := rb.size + |x|)
  {
  }

  lemma SizeFacts(r: Reqb, rb: Reqb, x: seq<Byte>)
    requires Good(rb) && rb.size + |x| < |rb.buff| && r == Push(true, rb, x)
    ensures r.size < |r.buff| == |rb.buff|
  {
    PushFits(true, rb, x);
    hide Push;
  }

  lemma FedStep(num: bool, rb: Reqb, xs: seq<seq<Byte>>)
    requires (rb.state == REQB_UNFINISHED ==> Good(rb)) && xs != []
    ensures Push(num, rb, xs[0]).state == REQB_UNFINISHED ==> Good(Push(num, rb, xs[0]))
    ensures Fed(num, rb, xs) == Fed(num, Push(num, rb, xs[0]), xs[1..]) && Concat(xs) == xs[0] + Concat(xs[1..])
    ensures |Concat(xs)| == |xs[0]| + |Concat(xs[1..])|
  {
    PushKeeps(num, rb, xs[0]);
    hide Push;
  }

  /** The outcome of successive pushes is that of one push of all the bytes. */
  lemma {:induction false} FedIsOnePush(num: bool, rb: Reqb, xs: seq<seq<Byte>>)
    requires Good(rb) && rb.size + |Concat(xs)| < |rb.buff| && xs != []
    requires Good(Ext(rb, Concat(xs))) && RegularRun(num, Ext(rb, Concat(xs)))
    ensures SameOutcome(Fed(num, rb, xs), Push(num, rb, Concat(xs)))
    decreases |xs|
  {
    hide *;
    Unfinished(rb);
    FedStep(num, rb, xs);
    var x, y := xs[0], Concat(xs[1..]);
    PushFits(num, rb, x);
    PushFits(num, rb, x + y);
    ExtTwice(rb, x, y);
    ExtFacts(rb, x);
    ParseSplit(num, Ext(rb, x), y);
    var r := Push(num, rb, x);
    if r.state == REQB_UNFINISHED {
      PushFits(num, r, y);
      if |xs| == 1 {
        OneChunk(xs);
        FedNothing(num, r, xs[1..]);
        ExtNothing(rb);
        assert x + y == x;
        OutcomeRefl(r);
      } else {
        FedIsOnePush(num, r, xs[1..]);
      }
    } else {
      FedEnds(num, r, xs[1..], y);
      OutcomeExt(r, y);
    }
  }

  lemma OneChunk(xs: seq<seq<Byte>>)
    requires |xs| == 1
    ensures Concat(xs[1..]) == [] && xs[1..] == []
  {
  }

  lemma FedNothing(num: bool, rb: Reqb, xs: seq<seq<Byte>>)
    requires (rb.state == REQB_UNFINISHED ==> Good(rb)) && xs == []
    ensures Fed(num, rb, xs) == rb
    ensures rb.state == REQB_UNFINISHED ==> rb.size <= |rb.buff|
  {
  }

  lemma FedEnds(num: bool, r: Reqb, xs: seq<seq<Byte>>, y: seq<Byte>)
    requires r.state != REQB_UNFINISHED && y == Concat(xs) && r.size + |y| < |r.buff|
    ensures Fed(num, r, xs) == r
  {
    FedAfterEnd(num, r, xs);
  }

  // ---- all inputs, but for the numbers ----

  function BlurReq(r: Req): Req { r.(contLen := 0, keepAlive := 0) }

  /** The state without the two numbers. */
  function Blur(rb: Reqb): Reqb { rb.(req := BlurReq(rb.req)) }

  function BlurStep(t: Step): Step {
    match t
    case Wait => Wait
    case Commit(next) => Commit(Blur(next))
    case End(last) => End(Blur(last))
  }

  lemma BlurFacts(rb: Reqb)
    ensures var b := Blur(rb);
      && b.buff == rb.buff && b.size == rb.size && b.pos == rb.pos && b.pstate == rb.pstate && b.state == rb.state
      && b.req == BlurReq(rb.req) && b.req.numParams == rb.req.numParams
    ensures Good(Blur(rb)) <==> Good(rb)
  {
  }

  lemma BlurParam(r: Req, i: nat)
    requires |r.params| == MAX_PARAMS == |r.values|
    ensures AddParam(BlurReq(r), i) == BlurReq(AddParam(r, i))
    ensures r.numParams >= 1 ==> AddValue(BlurReq(r), i) == BlurReq(AddValue(r, i))
  {
  }

  lemma BlurSetParam(num: bool, r: Req, f: Field, b: seq<Byte>, i: nat)
    ensures SetParam(false, BlurReq(r), f, b, i) == BlurReq(SetParam(num, r, f, b, i))
  {
    hide Strtol, StrToCt, CString;
  }

  lemma BlurLine(rb: Reqb, b: seq<Byte>, l: nat, req: Req)
    requires 1 <= l < |b|
    ensures LineCommitted(Blur(rb), b, l, BlurReq(req)) == Blur(LineCommitted(rb, b, l, req))
  {
  }

  lemma BlurElements(rb: Reqb)
    requires Good(rb) && Good(Blur(rb))
    ensures ParseMethod(Blur(rb)) == BlurStep(ParseMethod(rb))
    ensures ParseUri(Blur(rb)) == BlurStep(ParseUri(rb))
    ensures ParseVersion(Blur(rb)) == BlurStep(ParseVersion(rb))
  {
    hide Scan, CString, StrToMethod;
  }

  lemma BlurParams(rb: Reqb)
    requires Good(rb) && Good(Blur(rb))
    ensures ParseParam(Blur(rb)) == BlurStep(ParseParam(rb))
    ensures rb.req.numParams >= 1 ==> ParseValue(Blur(rb)) == BlurStep(ParseValue(rb))
  {
    BlurParam(rb.req, rb.pos);
    hide Scan, AddParam, AddValue;
  }

  lemma BlurHeader(num: bool, rb: Reqb)
    requires Good(rb) && Good(Blur(rb))
    ensures ParseHeader(false, Blur(rb)) == BlurStep(ParseHeader(num, rb))
  {
    BlurFacts(rb);
    LineAtIs(rb);
    LineAtIs(Blur(rb));
    if LineAt(rb).Line? {
      var l := LineAt(rb);
      var b := Terminated(rb.buff, l);
      var f := FieldOf(CString(b, l.name));
      BlurSetParam(num, rb.req, f, b, l.val);
      BlurLine(rb, rb.buff[l.colon := 0], l.lf, SetParam(num, rb.req, f, b, l.val));
      hide SetParam;
    }
    hide LineAt, LineIn, FieldOf, CString, Terminated, LineCommitted;
  }

  lemma BlurTurn(num: bool, rb: Reqb)
    requires Good(rb) && Good(Blur(rb))
    ensures Turn(false, Blur(rb)) == BlurStep(Turn(num, rb))
  {
    BlurFacts(rb);
    BlurElements(rb);
    BlurParams(rb);
    BlurHeader(num, rb);
    hide ParseMethod, ParseUri, ParseParam, ParseValue, ParseVersion, ParseHeader, Blur;
  }

  lemma {:induction false} BlurParse(num: bool, rb: Reqb)
    requires Good(rb) && Good(Blur(rb))
    ensures Parse(false, Blur(rb)) == Blur(Parse(num, rb))
    decreases rb.size - rb.pos
  {
    hide *;
    ParseStep(num, rb);
    ParseStep(false, Blur(rb));
    BlurTurn(num, rb);
    BlurStepIs(Turn(num, rb));
    ProperFacts(rb, Turn(num, rb));
    if Turn(num, rb).Commit? {
      BlurFacts(Turn(num, rb).rb);
      BlurParse(num, Turn(num, rb).rb);
    }
  }

  lemma BlurStepIs(t: Step)
    ensures BlurStep(t).Wait? == t.Wait? && BlurStep(t).Commit? == t.Commit?
    ensures !t.Wait? ==> BlurStep(t).rb == Blur(t.rb)
  {
  }

  lemma BlurExt(rb: Reqb, x: seq<Byte>)
    requires rb.size + |x| < |rb.buff|
    ensures Blur(rb).size + |x| < |Blur(rb).buff| && Ext(Blur(rb), x) == Blur(Ext(rb, x))
  {
  }

  lemma BlurPush(num: bool, rb: Reqb, x: seq<Byte>)
    requires rb.state == REQB_UNFINISHED ==> Good(rb)
    ensures Blur(rb).state == REQB_UNFINISHED ==> Good(Blur(rb))
    ensures Push(false, Blur(rb), x) == Blur(Push(num, rb, x))
  {
    BlurFacts(rb);
    if rb.size + |x| < |rb.buff| && rb.state == REQB_UNFINISHED {
      PushFits(num, rb, x);
      PushFits(false, Blur(rb), x);
      BlurExt(rb, x);
      BlurParse(num, Ext(rb, x));
      hide Push, Parse, Ext;
    }
  }

  lemma {:induction false} BlurFed(num: bool, rb: Reqb, xs: seq<seq<Byte>>)
    requires rb.state == REQB_UNFINISHED ==> Good(rb)
    ensures Blur(rb).state == REQB_UNFINISHED ==> Good(Blur(rb))
    ensures Fed(false, Blur(rb), xs) == Blur(Fed(num, rb, xs))
    decreases |xs|
  {
    BlurFacts(rb);
    if xs != [] {
      hide *;
      FedStep(num, rb, xs);
      FedStep(false, Blur(rb), xs);
      BlurPush(num, rb, xs[0]);
      BlurFed(num, Push(num, rb, xs[0]), xs[1..]);
    }
  }

  /** Without numbers every run is regular. */
  lemma {:induction false} NoNumbersRegular(rb: Reqb)
    requires Good(rb)
    ensures RegularRun(false, rb)
    decreases rb.size - rb.pos
  {
    RegularStep(false, rb);
    ProperFacts(rb, Turn(false, rb));
    if Turn(false, rb).Commit? {
      hide Turn, Proper;
      NoNumbersRegular(Turn(false, rb).rb);
    }
    hide Turn, Proper, LineAt, FieldAt;
  }

  /** For every input and every way to cut it: but for the two numbers, successive pushes
      have the outcome of one push. */
  lemma AnyCutting(rb: Reqb, xs: seq<seq<Byte>>)
    requires Good(rb) && rb.size + |Concat(xs)| < |rb.buff| && xs != []
    ensures SameOutcome(Blur(Fed(true, rb, xs)), Blur(Push(true, rb, Concat(xs))))
  {
    hide *;
    Unfinished(rb);
    BlurFacts(rb);
    BlurFed(true, rb, xs);
    BlurPush(true, rb, Concat(xs));
    ExtFacts(Blur(rb), Concat(xs));
    NoNumbersRegular(Ext(Blur(rb), Concat(xs)));
    FedIsOnePush(false, Blur(rb), xs);
  }
}
