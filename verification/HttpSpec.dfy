/**
 What `http_reqb_push` makes of the bytes of a request, step by step: each step parses one
 element from the commit point on, or waits for more bytes. All on values.
 */
module HttpSpec {
  import opened Bits

  const SP: Byte := 32
  const CR: Byte := 13
  const LF: Byte := 10
  const COLON: Byte := 58
  const EQ: Byte := 61
  const QUESTION: Byte := 63
  const AMP: Byte := 38
  const MAX_PARAMS: nat := 32

  // ---- characters and scans ----

  /** `req_ident` */
  predicate IsIdent(c: Byte) {
    c == 37 || 45 <= c <= 57 || 65 <= c <= 90 || c == 95 || 97 <= c <= 122
  }

  /** Character classes a scan passes over. */
  datatype Class = Blank | InlineBlank | Ident | NotSpace | NotLf

  predicate In(k: Class, c: Byte) {
    match k
    case Blank => c <= 0x20
    case InlineBlank => c <= 0x20 && c != CR && c != LF
    case Ident => IsIdent(c)
    case NotSpace => c != SP
    case NotLf => c != LF
  }

  /** The first position from `i` on, below `stop`, whose character is not in the class. */
  function Scan(k: Class, b: seq<Byte>, stop: nat, i: nat): (r: nat)
    requires i <= stop <= |b|
    ensures i <= r <= stop
    ensures forall j :: i <= j < r ==> In(k, b[j])
    ensures r < stop ==> !In(k, b[r])
    decreases stop - i
  {
    if i < stop && In(k, b[i]) then Scan(k, b, stop, i + 1) else i
  }

  /** A scan that stopped before the end stops at the same place when there is more. */
  lemma {:induction false} ScanMore(k: Class, b: seq<Byte>, c: seq<Byte>, stop: nat, more: nat, i: nat)
    requires i <= stop <= |b| && stop <= more <= |c| && forall j :: i <= j < stop ==> c[j] == b[j]
    requires Scan(k, b, stop, i) < stop
    ensures Scan(k, c, more, i) == Scan(k, b, stop, i)
    decreases stop - i
  {
    if i < stop && In(k, b[i]) {
      ScanMore(k, b, c, stop, more, i + 1);
    }
  }

  lemma ScanAtEnd(k: Class, b: seq<Byte>, stop: nat)
    requires stop <= |b|
    ensures Scan(k, b, stop, stop) == stop
  {
  }

  // ---- strings in the buffer ----

  /** The C string at position `i`. */
  function CString(b: seq<Byte>, i: nat): (r: seq<Byte>)
    decreases |b| - i
  {
    if i >= |b| || b[i] == 0 then [] else [b[i]] + CString(b, i + 1)
  }

  lemma {:induction false} CStringLocal(b: seq<Byte>, c: seq<Byte>, i: nat, k: nat)
    requires i <= k < |b| && k < |c| && b[k] == 0 && forall j :: i <= j <= k ==> c[j] == b[j]
    ensures CString(c, i) == CString(b, i)
    decreases k - i
  {
    if b[i] != 0 {
      CStringLocal(b, c, i + 1, k);
    }
  }

  predicate IsSpace(c: Byte) { c == SP || 9 <= c <= 13 }

  predicate IsDigit(c: Byte) { 48 <= c <= 57 }

  const INT_MAX: int := 0x7FFF_FFFF

  /** The digits from `i` on after the value `v`, saturating. */
  function Digits(b: seq<Byte>, i: nat, v: int): int
    decreases |b| - i
  {
    if i < |b| && IsDigit(b[i]) then
      var w := 10 * v + (b[i] - 48);
      Digits(b, i + 1, if w > INT_MAX then INT_MAX + 1 else w)
    else v
  }

  /** `strtol(.., 10)` of the characters from `i` on; it stops at what is not part of a number. */
  function Strtol(b: seq<Byte>, i: nat): int
    decreases |b| - i
  {
    if i < |b| && IsSpace(b[i]) then Strtol(b, i + 1)
    else if i < |b| && b[i] == 45 then -Digits(b, i + 1, 0)
    else
      var v := Digits(b, if i < |b| && b[i] == 43 then i + 1 else i, 0);
      if v > INT_MAX then INT_MAX else v
  }

  lemma {:induction false} DigitsLocal(b: seq<Byte>, c: seq<Byte>, i: nat, k: nat, v: int)
    requires i <= k < |b| && k < |c| && b[k] == 0 && forall j :: i <= j <= k ==> c[j] == b[j]
    ensures Digits(c, i, v) == Digits(b, i, v)
    decreases k - i
  {
    if IsDigit(b[i]) {
      var w := 10 * v + (b[i] - 48);
      DigitsLocal(b, c, i + 1, k, if w > INT_MAX then INT_MAX + 1 else w);
    }
  }

  /** `strtol` does not read past a terminator. */
  lemma {:induction false} StrtolLocal(b: seq<Byte>, c: seq<Byte>, i: nat, k: nat)
    requires i <= k < |b| && k < |c| && b[k] == 0 && forall j :: i <= j <= k ==> c[j] == b[j]
    ensures Strtol(c, i) == Strtol(b, i)
    decreases k - i
  {
    if IsSpace(b[i]) {
      StrtolLocal(b, c, i + 1, k);
    } else if b[i] == 45 || b[i] == 43 {
      DigitsLocal(b, c, i + 1, k, 0);
    } else {
      DigitsLocal(b, c, i, k, 0);
    }
  }

  // ---- the request ----

  datatype Method =
    METHOD_NONE | METHOD_GET | METHOD_POST | METHOD_HEAD | METHOD_PUT | METHOD_CONNECT |
    METHOD_OPTIONS | METHOD_DELETE | METHOD_TRACE | METHOD_PATCH

  datatype ConnType = CT_NONE | CT_CLOSE | CT_KEEP_ALIVE

  /** A string of the request: its position in the buffer, or NULL. */
  datatype Ref = NULL | Ref(at: nat)

  datatype Req = Req(
    verb: Method, uri: Ref, numParams: nat, params: seq<Ref>, values: seq<Ref>, ver: Ref,
    host: Ref, userAgent: Ref, mime: Ref, contLen: int, accept: Ref, acceptLang: Ref, acceptEnc: Ref,
    cookie: Ref, connType: ConnType, keepAlive: int)

  datatype Status = REQB_UNFINISHED | REQB_FINISHED | REQB_SYNT_ERROR | REQB_REQ_TO_BIG

  /** `http_reqb_t`: the buffer, how much of it is filled, the commit point and the element
      expected there, the verdict, and the request so far. */
  datatype Reqb = Reqb(buff: seq<Byte>, size: nat, pos: nat, pstate: nat, state: Status, req: Req)

  /** The bytes of a string literal. */
  function Lit(s: string): seq<Byte> {
    seq<Byte>(|s|, i requires 0 <= i < |s| => s[i] as int % 256)
  }

  /** `str_to_method` */
  function StrToMethod(s: seq<Byte>): Method {
    if s == Lit("GET") then METHOD_GET else if s == Lit("POST") then METHOD_POST
    else if s == Lit("HEAD") then METHOD_HEAD else if s == Lit("PUT") then METHOD_PUT
    else if s == Lit("CONNECT") then METHOD_CONNECT else if s == Lit("OPTIONS") then METHOD_OPTIONS
    else if s == Lit("DELETE") then METHOD_DELETE else if s == Lit("TRACE") then METHOD_TRACE
    else if s == Lit("PATCH") then METHOD_PATCH else METHOD_NONE
  }

  /** `str_to_ct` */
  function StrToCt(s: seq<Byte>): ConnType {
    if s == Lit("close") then CT_CLOSE else if s == Lit("keep-alive") then CT_KEEP_ALIVE else CT_NONE
  }

  /** The header fields. */
  datatype Field =
    | Host | UserAgent | ContentType | ContentLength | Accept | AcceptLanguage | AcceptEncoding | Cookie
    | Connection | KeepAlive | Other

  function FieldOf(name: seq<Byte>): Field {
    if name == Lit("Host") then Host else if name == Lit("User-Agent") then UserAgent
    else if name == Lit("Content-Type") then ContentType else if name == Lit("Content-Length") then ContentLength
    else if name == Lit("Accept") then Accept else if name == Lit("Accept-Language") then AcceptLanguage
    else if name == Lit("Accept-Encoding") then AcceptEncoding else if name == Lit("Cookie") then Cookie
    else if name == Lit("Connection") then Connection else if name == Lit("Keep-Alive") then KeepAlive
    else Other
  }

  predicate IsNumeric(f: Field) { f == ContentLength || f == KeepAlive }

  /** A number in the buffer; without `num`, numbers are ignored. */
  function Number(num: bool, b: seq<Byte>, i: nat): int {
    if num then Strtol(b, i) else 0
  }

  /** `http_req_set_param` for the field `f` with the value at `i`. */
  function SetParam(num: bool, r: Req, f: Field, b: seq<Byte>, i: nat): Req {
    match f
    case Host => r.(host := Ref(i))
    case UserAgent => r.(userAgent := Ref(i))
    case ContentType => r.(mime := Ref(i))
    case ContentLength => r.(contLen := Number(num, b, i))
    case Accept => r.(accept := Ref(i))
    case AcceptLanguage => r.(acceptLang := Ref(i))
    case AcceptEncoding => r.(acceptEnc := Ref(i))
    case Cookie => r.(cookie := Ref(i))
    case Connection => r.(connType := StrToCt(CString(b, i)))
    case KeepAlive => r.(keepAlive := Number(num, b, i))
    case Other => r
  }

  // ---- steps ----

  /** A request buffer between steps. */
  ghost predicate Good(rb: Reqb) {
    && rb.pos <= rb.size < |rb.buff| && rb.pstate <= 5
    && |rb.req.params| == MAX_PARAMS == |rb.req.values|
    && (rb.pstate == 3 ==> rb.req.numParams >= 1)
    && rb.state == REQB_UNFINISHED
  }

  /** What one turn of the loop does: wait for more bytes, commit an element, or end. */
  datatype Step = Wait | Commit(rb: Reqb) | End(rb: Reqb)

  /** The element ends at `j`: a terminator goes there, the next one starts after it. */
  function Committed(rb: Reqb, j: nat, pstate: nat, req: Req): Reqb
    requires j < |rb.buff|
  {
    rb.(buff := rb.buff[j := 0], pos := j + 1, pstate := pstate, req := req)
  }

  function Failed(rb: Reqb, pstate: nat): Reqb {
    rb.(pstate := pstate, state := REQB_SYNT_ERROR)
  }

  ghost function ParseMethod(rb: Reqb): Step
    requires Good(rb)
  {
    var i := Scan(Blank, rb.buff, rb.size, rb.pos);
    var j := Scan(NotSpace, rb.buff, rb.size, i);
    if j == rb.size then Wait
    else Commit(Committed(rb, j, 1, rb.req.(verb := StrToMethod(CString(rb.buff[j := 0], i)))))
  }

  ghost function ParseUri(rb: Reqb): Step
    requires Good(rb)
  {
    var i := Scan(Blank, rb.buff, rb.size, rb.pos);
    var j := Scan(Ident, rb.buff, rb.size, i);
    if j == rb.size then Wait
    else if rb.buff[j] == QUESTION then Commit(Committed(rb, j, 2, rb.req.(uri := Ref(i))))
    else if rb.buff[j] == SP then Commit(Committed(rb, j, 4, rb.req.(uri := Ref(i))))
    else End(Failed(rb, 11))
  }

  /** One more parameter, kept if there is room for it. */
  function AddParam(r: Req, i: nat): Req
    requires |r.params| == MAX_PARAMS == |r.values|
  {
    var n := r.numParams + 1;
    if n <= MAX_PARAMS then r.(numParams := n, params := r.params[n - 1 := Ref(i)], values := r.values[n - 1 := NULL])
    else r.(numParams := n)
  }

  function AddValue(r: Req, i: nat): Req
    requires |r.params| == MAX_PARAMS == |r.values| && r.numParams >= 1
  {
    if r.numParams <= MAX_PARAMS then r.(values := r.values[r.numParams - 1 := Ref(i)]) else r
  }

  ghost function ParseParam(rb: Reqb): Step
    requires Good(rb)
  {
    var j := Scan(Ident, rb.buff, rb.size, rb.pos);
    if j == rb.size then Wait
    else if rb.buff[j] == AMP then Commit(Committed(rb, j, 2, AddParam(rb.req, rb.pos)))
    else if rb.buff[j] == EQ then Commit(Committed(rb, j, 3, AddParam(rb.req, rb.pos)))
    else if rb.buff[j] == SP then Commit(Committed(rb, j, 4, AddParam(rb.req, rb.pos)))
    else End(Failed(rb, 12))
  }

  ghost function ParseValue(rb: Reqb): Step
    requires Good(rb) && rb.req.numParams >= 1
  {
    var j := Scan(Ident, rb.buff, rb.size, rb.pos);
    if j == rb.size then Wait
    else if rb.buff[j] == AMP then Commit(Committed(rb, j, 2, AddValue(rb.req, rb.pos)))
    else if rb.buff[j] == SP then Commit(Committed(rb, j, 4, AddValue(rb.req, rb.pos)))
    else End(Failed(rb, 13))
  }

  /** A line ends at the line feed at `l`: the terminator goes over the character before it. */
  function LineCommitted(rb: Reqb, b: seq<Byte>, l: nat, req: Req): Reqb
    requires 1 <= l < |b|
  {
    rb.(buff := b[l - 1 := 0], pos := l + 1, pstate := 5, req := req)
  }

  ghost function ParseVersion(rb: Reqb): Step
    requires Good(rb)
  {
    var i := Scan(Blank, rb.buff, rb.size, rb.pos);
    var l := Scan(NotLf, rb.buff, rb.size, i);
    if l == rb.size then Wait
    else Commit(LineCommitted(rb, rb.buff, l, rb.req.(ver := Ref(i))))
  }

  /** The parts of a header line: name from `name` to `colon`, value from `val` to the line feed at `lf`. */
  datatype Line = Partial | EmptyLine | Bad | Line(name: nat, colon: nat, val: nat, lf: nat)

  function LineIn(b: seq<Byte>, n: nat, pos: nat): (r: Line)
    requires pos <= n <= |b|
    ensures r.Line? ==> pos <= r.name <= r.colon < r.val <= r.lf < n
  {
    var i := Scan(InlineBlank, b, n, pos);
    if i < n && (b[i] == CR || b[i] == LF) then EmptyLine
    else
      var c := Scan(Ident, b, n, i);
      if c == n then Partial
      else if b[c] != COLON then Bad
      else
        var v := Scan(InlineBlank, b, n, c + 1);
        var l := Scan(NotLf, b, n, v);
        if l == n then Partial else Line(i, c, v, l)
  }

  ghost function LineAt(rb: Reqb): (r: Line)
    requires Good(rb)
    ensures r.Line? ==> rb.pos <= r.name <= r.colon < r.val <= r.lf < rb.size
  {
    LineIn(rb.buff, rb.size, rb.pos)
  }

  /** A complete line is the same when there is more. */
  lemma LineMore(b: seq<Byte>, c: seq<Byte>, n: nat, more: nat, pos: nat)
    requires pos <= n <= |b| && n <= more <= |c| && forall k :: pos <= k < n ==> c[k] == b[k]
    requires LineIn(b, n, pos) != Partial
    ensures LineIn(c, more, pos) == LineIn(b, n, pos)
  {
    hide Scan;
    var i := Scan(InlineBlank, b, n, pos);
    if i < n {
      ScanMore(InlineBlank, b, c, n, more, pos);
      if b[i] != CR && b[i] != LF {
        var k := Scan(Ident, b, n, i);
        ScanMore(Ident, b, c, n, more, i);
        if b[k] == COLON {
          var v := Scan(InlineBlank, b, n, k + 1);
          if v < n {
            ScanMore(InlineBlank, b, c, n, more, k + 1);
            ScanMore(NotLf, b, c, n, more, v);
          }
        }
      }
    }
  }

  /** The buffer with the name and the value of a header line terminated. */
  function Terminated(b: seq<Byte>, l: Line): seq<Byte>
    requires l.Line? && l.name <= l.colon < l.val <= l.lf < |b|
  {
    b[l.colon := 0][l.lf - 1 := 0]
  }

  ghost function ParseHeader(num: bool, rb: Reqb): Step
    requires Good(rb)
  {
    match LineAt(rb)
    case Partial => Wait
    case EmptyLine => End(rb.(state := REQB_FINISHED))
    case Bad => End(Failed(rb, 15))
    case Line(i, c, v, l) =>
      var b := Terminated(rb.buff, Line(i, c, v, l));
      Commit(LineCommitted(rb, rb.buff[c := 0], l, SetParam(num, rb.req, FieldOf(CString(b, i)), b, v)))
  }

  /** One turn of the loop, before the end of the bytes. */
  ghost function Turn(num: bool, rb: Reqb): Step
    requires Good(rb)
  {
    if rb.pstate == 0 then ParseMethod(rb)
    else if rb.pstate == 1 then ParseUri(rb)
    else if rb.pstate == 2 then ParseParam(rb)
    else if rb.pstate == 3 then ParseValue(rb)
    else if rb.pstate == 4 then ParseVersion(rb)
    else ParseHeader(num, rb)
  }

  /** A step keeps the buffer well formed and moves the commit point on. */
  ghost predicate Proper(rb: Reqb, t: Step) {
    match t
    case Wait => true
    case Commit(next) => Good(next) && next.size == rb.size && |next.buff| == |rb.buff| && rb.pos < next.pos
    case End(last) =>
      && last.size == rb.size && |last.buff| == |rb.buff| && last.pos == rb.pos && last.state != REQB_UNFINISHED
  }

  lemma CommittedIsProper(rb: Reqb, j: nat, pstate: nat, req: Req)
    requires Good(rb) && rb.pos <= j < rb.size && pstate <= 5 && |req.params| == MAX_PARAMS == |req.values|
    requires pstate == 3 ==> req.numParams >= 1
    ensures Proper(rb, Commit(Committed(rb, j, pstate, req)))
  {
  }

  lemma LineIsProper(rb: Reqb, b: seq<Byte>, l: nat, req: Req)
    requires Good(rb) && rb.pos <= l < rb.size && 1 <= l && |b| == |rb.buff|
    requires |req.params| == MAX_PARAMS == |req.values|
    ensures Proper(rb, Commit(LineCommitted(rb, b, l, req)))
  {
  }

  lemma SetParamKeeps(num: bool, r: Req, f: Field, b: seq<Byte>, i: nat)
    ensures var s := SetParam(num, r, f, b, i);
      s.params == r.params && s.values == r.values && s.numParams == r.numParams
  {
    hide Number, StrToCt, CString;
  }

  lemma MethodIsProper(rb: Reqb)
    requires Good(rb)
    ensures Proper(rb, ParseMethod(rb)) && (rb.pos == rb.size ==> ParseMethod(rb) == Wait)
  {
    hide CString, StrToMethod, Proper, Committed;
    var i := Scan(Class.Blank, rb.buff, rb.size, rb.pos);
    var j := Scan(NotSpace, rb.buff, rb.size, i);
    if j < rb.size {
      CommittedIsProper(rb, j, 1, rb.req.(verb := StrToMethod(CString(rb.buff[j := 0], i))));
    } else {
      WaitIsProper(rb);
    }
  }

  lemma WaitIsProper(rb: Reqb)
    ensures Proper(rb, Wait)
  {
  }

  lemma FailedIsProper(rb: Reqb, pstate: nat)
    ensures Proper(rb, End(Failed(rb, pstate)))
  {
  }

  lemma UriIsProper(rb: Reqb)
    requires Good(rb)
    ensures Proper(rb, ParseUri(rb)) && (rb.pos == rb.size ==> ParseUri(rb) == Wait)
  {
    hide Proper, Committed, Failed, Scan;
    var i := Scan(Class.Blank, rb.buff, rb.size, rb.pos);
    var j := Scan(Ident, rb.buff, rb.size, i);
    WaitIsProper(rb);
    FailedIsProper(rb, 11);
    if j < rb.size {
      CommittedIsProper(rb, j, 2, rb.req.(uri := Ref(i)));
      CommittedIsProper(rb, j, 4, rb.req.(uri := Ref(i)));
    }
  }

  lemma ParamIsProper(rb: Reqb)
    requires Good(rb)
    ensures Proper(rb, ParseParam(rb)) && (rb.pos == rb.size ==> ParseParam(rb) == Wait)
  {
    var req := AddParam(rb.req, rb.pos);
    assert |req.params| == MAX_PARAMS == |req.values| && req.numParams >= 1;
    hide Proper, Committed, Failed, Scan, AddParam;
    var j := Scan(Ident, rb.buff, rb.size, rb.pos);
    WaitIsProper(rb);
    FailedIsProper(rb, 12);
    if j < rb.size {
      CommittedIsProper(rb, j, 2, req);
      CommittedIsProper(rb, j, 3, req);
      CommittedIsProper(rb, j, 4, req);
    }
  }

  lemma ValueIsProper(rb: Reqb)
    requires Good(rb) && rb.req.numParams >= 1
    ensures Proper(rb, ParseValue(rb)) && (rb.pos == rb.size ==> ParseValue(rb) == Wait)
  {
    var req := AddValue(rb.req, rb.pos);
    assert |req.params| == MAX_PARAMS == |req.values|;
    hide Proper, Committed, Failed, Scan, AddValue;
    var j := Scan(Ident, rb.buff, rb.size, rb.pos);
    WaitIsProper(rb);
    FailedIsProper(rb, 13);
    if j < rb.size {
      CommittedIsProper(rb, j, 2, req);
      CommittedIsProper(rb, j, 4, req);
    }
  }

  lemma VersionIsProper(rb: Reqb)
    requires Good(rb)
    ensures Proper(rb, ParseVersion(rb)) && (rb.pos == rb.size ==> ParseVersion(rb) == Wait)
  {
    var i := Scan(Class.Blank, rb.buff, rb.size, rb.pos);
    var l := Scan(NotLf, rb.buff, rb.size, i);
    hide Proper, LineCommitted;
    WaitIsProper(rb);
    if l < rb.size {
      LineIsProper(rb, rb.buff, l, rb.req.(ver := Ref(i)));
    }
  }

  lemma HeaderIsProper(num: bool, rb: Reqb)
    requires Good(rb)
    ensures Proper(rb, ParseHeader(num, rb)) && (rb.pos == rb.size ==> ParseHeader(num, rb) == Wait)
  {
    LineAtEnd(rb);
    hide Proper, LineCommitted, SetParam, FieldOf, CString, Failed, LineAt;
    WaitIsProper(rb);
    FailedIsProper(rb, 15);
    match LineAt(rb)
    case Partial =>
    case EmptyLine => FinishedIsProper(rb);
    case Bad =>
    case Line(i, c, v, l) =>
      var b := Terminated(rb.buff, Line(i, c, v, l));
      SetParamKeeps(num, rb.req, FieldOf(CString(b, i)), b, v);
      LineIsProper(rb, rb.buff[c := 0], l, SetParam(num, rb.req, FieldOf(CString(b, i)), b, v));
  }

  lemma LineAtEnd(rb: Reqb)
    requires Good(rb)
    ensures rb.pos == rb.size ==> LineAt(rb) == Partial
  {
  }

  lemma FinishedIsProper(rb: Reqb)
    ensures Proper(rb, End(rb.(state := REQB_FINISHED)))
  {
  }

  lemma TurnKeeps(num: bool, rb: Reqb)
    requires Good(rb)
    ensures Proper(rb, Turn(num, rb))
    ensures rb.pos == rb.size ==> Turn(num, rb) == Wait
  {
    hide Proper, ParseMethod, ParseUri, ParseParam, ParseValue, ParseVersion, ParseHeader;
    if rb.pstate == 0 {
      MethodIsProper(rb);
    } else if rb.pstate == 1 {
      UriIsProper(rb);
    } else if rb.pstate == 2 {
      ParamIsProper(rb);
    } else if rb.pstate == 3 {
      ValueIsProper(rb);
    } else if rb.pstate == 4 {
      VersionIsProper(rb);
    } else {
      HeaderIsProper(num, rb);
    }
  }

  /** The loop of `http_reqb_push`. */
  ghost function Parse(num: bool, rb: Reqb): (r: Reqb)
    requires Good(rb)
    ensures r.size == rb.size && |r.buff| == |rb.buff|
    ensures r.state == REQB_UNFINISHED ==> Good(r)
    decreases rb.size - rb.pos
  {
    TurnKeeps(num, rb);
    var t := Turn(num, rb);
    if t.Wait? then rb else if t.Commit? then Parse(num, t.rb) else t.rb
  }

  // ---- the definitions, one by one ----

  lemma TurnAt(num: bool, rb: Reqb)
    requires Good(rb)
    ensures rb.pstate == 0 ==> Turn(num, rb) == ParseMethod(rb)
    ensures rb.pstate == 1 ==> Turn(num, rb) == ParseUri(rb)
    ensures rb.pstate == 2 ==> Turn(num, rb) == ParseParam(rb)
    ensures rb.pstate == 3 ==> rb.req.numParams >= 1 && Turn(num, rb) == ParseValue(rb)
    ensures rb.pstate == 4 ==> Turn(num, rb) == ParseVersion(rb)
    ensures rb.pstate == 5 ==> Turn(num, rb) == ParseHeader(num, rb)
  {
    hide ParseMethod, ParseUri, ParseParam, ParseValue, ParseVersion, ParseHeader;
  }

  lemma SpIs()
    ensures SP == 32 && CR == 13 && LF == 10 && COLON == 58 && EQ == 61 && QUESTION == 63 && AMP == 38
    ensures MAX_PARAMS == 32
  {
  }

  lemma CommittedIs(rb: Reqb, j: nat, pstate: nat, req: Req)
    requires j < |rb.buff|
    ensures Committed(rb, j, pstate, req) == Reqb(rb.buff[j := 0], rb.size, j + 1, pstate, rb.state, req)
  {
  }

  lemma MethodAt(rb: Reqb)
    requires Good(rb)
    ensures rb.pos <= rb.size < |rb.buff|
    ensures var i := Scan(Class.Blank, rb.buff, rb.size, rb.pos);
      var j := Scan(NotSpace, rb.buff, rb.size, i);
      ParseMethod(rb) == if j == rb.size then Wait
        else Commit(Committed(rb, j, 1, rb.req.(verb := StrToMethod(CString(rb.buff[j := 0], i)))))
  {
    hide Scan, CString, StrToMethod, Committed;
  }

  lemma UriAt(rb: Reqb)
    requires Good(rb)
    ensures rb.pos <= rb.size < |rb.buff|
    ensures var i := Scan(Class.Blank, rb.buff, rb.size, rb.pos);
      var j := Scan(Ident, rb.buff, rb.size, i);
      ParseUri(rb) == if j == rb.size then Wait
        else if rb.buff[j] == QUESTION then Commit(Committed(rb, j, 2, rb.req.(uri := Ref(i))))
        else if rb.buff[j] == SP then Commit(Committed(rb, j, 4, rb.req.(uri := Ref(i))))
        else End(Failed(rb, 11))
  {
    hide Scan, Committed, Failed;
  }

  lemma ParamAt(rb: Reqb)
    requires Good(rb)
    ensures rb.pos <= rb.size < |rb.buff| && |rb.req.params| == MAX_PARAMS == |rb.req.values|
    ensures var j := Scan(Ident, rb.buff, rb.size, rb.pos);
      var r := AddParam(rb.req, rb.pos);
      ParseParam(rb) == if j == rb.size then Wait
        else if rb.buff[j] == AMP then Commit(Committed(rb, j, 2, r))
        else if rb.buff[j] == EQ then Commit(Committed(rb, j, 3, r))
        else if rb.buff[j] == SP then Commit(Committed(rb, j, 4, r))
        else End(Failed(rb, 12))
  {
    hide Scan, Committed, Failed, AddParam;
  }

  lemma ValueAt(rb: Reqb)
    requires Good(rb) && rb.req.numParams >= 1
    ensures rb.pos <= rb.size < |rb.buff| && |rb.req.params| == MAX_PARAMS == |rb.req.values|
    ensures var j := Scan(Ident, rb.buff, rb.size, rb.pos);
      var r := AddValue(rb.req, rb.pos);
      ParseValue(rb) == if j == rb.size then Wait
        else if rb.buff[j] == AMP then Commit(Committed(rb, j, 2, r))
        else if rb.buff[j] == SP then Commit(Committed(rb, j, 4, r))
        else End(Failed(rb, 13))
  {
    hide Scan, Committed, Failed, AddValue;
  }

  lemma VersionAt(rb: Reqb)
    requires Good(rb)
    ensures rb.pos <= rb.size < |rb.buff|
    ensures var i := Scan(Class.Blank, rb.buff, rb.size, rb.pos);
      var l := Scan(NotLf, rb.buff, rb.size, i);
      ParseVersion(rb) == if l == rb.size then Wait
        else if l >= 1 then Commit(Reqb(rb.buff[l - 1 := 0], rb.size, l + 1, 5, rb.state, rb.req.(ver := Ref(i))))
        else Wait
    ensures var i := Scan(Class.Blank, rb.buff, rb.size, rb.pos);
      Scan(NotLf, rb.buff, rb.size, i) < rb.size ==> Scan(NotLf, rb.buff, rb.size, i) >= 1
  {
  }

  lemma HeaderAt(num: bool, rb: Reqb)
    requires Good(rb)
    ensures rb.pos <= rb.size < |rb.buff| && LineAt(rb) == LineIn(rb.buff, rb.size, rb.pos)
    ensures LineAt(rb) == Partial ==> ParseHeader(num, rb) == Wait
    ensures LineAt(rb) == EmptyLine ==> ParseHeader(num, rb) == End(rb.(state := REQB_FINISHED))
    ensures LineAt(rb) == Bad ==> ParseHeader(num, rb) == End(Failed(rb, 15))
    ensures LineAt(rb).Line? ==> var l := LineAt(rb);
      var b := rb.buff[l.colon := 0][l.lf - 1 := 0];
      ParseHeader(num, rb) == Commit(Reqb(b, rb.size, l.lf + 1, 5, rb.state,
        SetParam(num, rb.req, FieldOf(CString(b, l.name)), b, l.val)))
  {
    hide LineIn, SetParam, FieldOf, CString;
  }

  /** Where the scans through a header line stop tells what line it is. */
  lemma LineBy(b: seq<Byte>, n: nat, pos: nat, i: nat, c: nat, v: nat, l: nat)
    requires pos <= n <= |b| && i == Scan(InlineBlank, b, n, pos) && c == Scan(Ident, b, n, i)
    ensures i < n && (b[i] == CR || b[i] == LF) ==> LineIn(b, n, pos) == EmptyLine
    ensures !(i < n && (b[i] == CR || b[i] == LF)) ==>
      && (c == n ==> LineIn(b, n, pos) == Partial)
      && (c < n && b[c] != COLON ==> LineIn(b, n, pos) == Bad)
      && (c < n && b[c] == COLON && v == Scan(InlineBlank, b, n, c + 1) && l == Scan(NotLf, b, n, v) ==>
            LineIn(b, n, pos) == if l == n then Partial else Line(i, c, v, l))
    ensures i < n ==> Scan(InlineBlank, b, n, i) == i
    ensures i == n ==> c == n
  {
  }

  lemma FailedIs(rb: Reqb, pstate: nat)
    ensures Failed(rb, pstate) == rb.(pstate := pstate, state := REQB_SYNT_ERROR)
  {
  }

  lemma AddParamIs(r: Req, i: nat)
    requires |r.params| == MAX_PARAMS == |r.values|
    ensures var n := r.numParams + 1;
      AddParam(r, i) ==
        if n <= MAX_PARAMS then
          r.(numParams := n, params := r.params[n - 1 := Ref(i)], values := r.values[n - 1 := NULL])
        else r.(numParams := n)
  {
  }

  lemma AddValueIs(r: Req, i: nat)
    requires |r.params| == MAX_PARAMS == |r.values| && r.numParams >= 1
    ensures AddValue(r, i) == if r.numParams <= MAX_PARAMS then r.(values := r.values[r.numParams - 1 := Ref(i)]) else r
  {
  }
}
