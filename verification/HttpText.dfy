/**
 The text of a request, from its parts, and what a parsed request says about them: the names of methods
 and header fields, and the strings in the buffer. Nothing here refers to how a request is parsed.
 */
module HttpText {
  import opened Bits
  import opened HttpSpec

  /** The bytes of a name. */
  function Bytes(s: string): (r: seq<Byte>)
    ensures |r| == |s| && forall i :: 0 <= i < |s| ==> r[i] == s[i] as int % 256
  {
    seq<Byte>(|s|, i requires 0 <= i < |s| => s[i] as int % 256)
  }

  function MethodBytes(m: Method): seq<Byte>
    requires m != METHOD_NONE
  {
    match m
    case METHOD_GET => Bytes("GET")
    case METHOD_POST => Bytes("POST")
    case METHOD_HEAD => Bytes("HEAD")
    case METHOD_PUT => Bytes("PUT")
    case METHOD_CONNECT => Bytes("CONNECT")
    case METHOD_OPTIONS => Bytes("OPTIONS")
    case METHOD_DELETE => Bytes("DELETE")
    case METHOD_TRACE => Bytes("TRACE")
    case METHOD_PATCH => Bytes("PATCH")
  }

  function FieldBytes(f: Field): seq<Byte>
    requires f != Other
  {
    match f
    case Host => Bytes("Host")
    case UserAgent => Bytes("User-Agent")
    case ContentType => Bytes("Content-Type")
    case ContentLength => Bytes("Content-Length")
    case Accept => Bytes("Accept")
    case AcceptLanguage => Bytes("Accept-Language")
    case AcceptEncoding => Bytes("Accept-Encoding")
    case Cookie => Bytes("Cookie")
    case Connection => Bytes("Connection")
    case KeepAlive => Bytes("Keep-Alive")
  }

  // ---- the parts of a request ----

  datatype Param = Bare(name: seq<Byte>) | Param(name: seq<Byte>, text: seq<Byte>)

  /** A header line, with the blanks in it, and the character before its line feed, as a rule a carriage
      return. */
  datatype Header = Header(pre: seq<Byte>, name: seq<Byte>, gap: seq<Byte>, value: seq<Byte>, end: Byte)

  datatype Request = Request(
    verbPre: seq<Byte>, verb: seq<Byte>, pathPre: seq<Byte>, path: seq<Byte>, query: seq<Param>,
    verPre: seq<Byte>, ver: seq<Byte>, verEnd: Byte, headers: seq<Header>, lastPre: seq<Byte>, last: Byte)

  function ParamText(p: Param): seq<Byte> {
    if p.Bare? then p.name else p.name + [61] + p.text                 // name=text
  }

  /** The parameters, each behind a separator: `?` before the first, `&` between them. */
  function QueryText(q: seq<Param>, sep: Byte): seq<Byte> {
    if q == [] then [] else [sep] + ParamText(q[0]) + QueryText(q[1..], 38)
  }

  function HeaderText(h: Header): seq<Byte> {
    h.pre + h.name + [58] + h.gap + h.value + [h.end] + [10]           // name: value
  }

  function HeadersText(hs: seq<Header>): seq<Byte> {
    if hs == [] then [] else HeaderText(hs[0]) + HeadersText(hs[1..])
  }

  /** Path and parameters. */
  function TargetText(r: Request): seq<Byte> {
    r.pathPre + r.path + QueryText(r.query, 63) + [32]
  }

  /** The version, to the end of its line. */
  function VersionText(r: Request): seq<Byte> {
    r.verPre + r.ver + [r.verEnd] + [10]
  }

  /** Method, path, parameters, version, header lines and the beginning of an empty line. */
  function Text(r: Request): seq<Byte> {
    r.verbPre + r.verb + [32] + TargetText(r) + VersionText(r) + HeadersText(r.headers) + r.lastPre + [r.last]
  }

  // ---- which parts can be written down ----

  /** A character of paths, parameters and field names: `%`, `-`, `.`, `/`, `_`, digits and letters. */
  predicate Plain(c: Byte) {
    || c == 0x25 || c == 0x2D || c == 0x2E || c == 0x2F || c == 0x5F
    || 0x30 <= c <= 0x39 || 0x41 <= c <= 0x5A || 0x61 <= c <= 0x7A
  }

  ghost predicate AllPlain(s: seq<Byte>) {
    forall i :: 0 <= i < |s| ==> Plain(s[i])
  }

  /** Text in a line that does not begin with a blank. */
  ghost predicate Inline(s: seq<Byte>) {
    (s != [] ==> s[0] > 0x20) && forall i :: 0 <= i < |s| ==> s[i] != 0 && s[i] != 10
  }

  ghost predicate PlainParam(p: Param) {
    AllPlain(p.name) && (p.Param? ==> AllPlain(p.text))
  }

  ghost predicate Blanks(s: seq<Byte>) {
    forall i :: 0 <= i < |s| ==> s[i] <= 0x20
  }

  ghost predicate InlineBlanks(s: seq<Byte>) {
    forall i :: 0 <= i < |s| ==> s[i] <= 0x20 && s[i] != 13 && s[i] != 10
  }

  ghost predicate PlainHeader(h: Header) {
    && InlineBlanks(h.pre) && AllPlain(h.name) && InlineBlanks(h.gap) && Inline(h.value)
    && h.end != 10 && (h.value == [] ==> h.end == 13 || h.end > 0x20)
  }

  ghost predicate Writable(r: Request) {
    && Blanks(r.verbPre) && Blanks(r.pathPre) && Blanks(r.verPre) && InlineBlanks(r.lastPre)
    && r.verb != [] && r.verb[0] > 0x20 && (forall i :: 0 <= i < |r.verb| ==> r.verb[i] != 0 && r.verb[i] != 32)
    && AllPlain(r.path) && (r.path != [] || r.query != [])
    && (forall i :: 0 <= i < |r.query| ==> PlainParam(r.query[i]))
    && r.ver != [] && Inline(r.ver) && r.verEnd != 10 && (r.last == 13 || r.last == 10)
    && forall i :: 0 <= i < |r.headers| ==> PlainHeader(r.headers[i])
  }

  // ---- what the parsed request says ----

  /** The reference leads to the C string `s`, which ends before `lim`. */
  ghost predicate Leads(b: seq<Byte>, ref: Ref, s: seq<Byte>, lim: nat) {
    && ref.Ref? && ref.at + |s| < lim <= |b|
    && b[ref.at + |s|] == 0 && forall k :: 0 <= k < |s| ==> b[ref.at + k] == s[k] != 0
  }

  /** The last of the first `n` headers with the name, -1: there is none. */
  function LastIndex(hs: seq<Header>, n: nat, name: seq<Byte>): (k: int)
    requires n <= |hs|
    ensures -1 <= k < n
    ensures k >= 0 ==> hs[k].name == name
    ensures forall j :: k < j < n ==> hs[j].name != name
  {
    if n == 0 then -1 else if hs[n - 1].name == name then n - 1 else LastIndex(hs, n - 1, name)
  }

  predicate IsText(f: Field) {
    || f == Host || f == UserAgent || f == ContentType || f == Accept || f == AcceptLanguage || f == AcceptEncoding
    || f == Cookie
  }

  function TextRef(r: Req, f: Field): Ref
    requires IsText(f)
  {
    if f == Host then r.host else if f == UserAgent then r.userAgent else if f == ContentType then r.mime
    else if f == Accept then r.accept else if f == AcceptLanguage then r.acceptLang
    else if f == AcceptEncoding then r.acceptEnc else r.cookie
  }

  // ---- numbers ----

  ghost predicate AllDigits(s: seq<Byte>) {
    forall i :: 0 <= i < |s| ==> 0x30 <= s[i] <= 0x39
  }

  /** The value of decimal digits. */
  function Value(s: seq<Byte>): nat
    requires AllDigits(s)
  {
    if s == [] then 0 else 10 * Value(s[..|s| - 1]) + (s[|s| - 1] - 0x30)
  }

  /** What `s` says as a number: a sign, digits, and what else there is; no digits say 0. */
  datatype Numeral = Numeral(sign: seq<Byte>, digits: seq<Byte>, more: seq<Byte>)

  ghost predicate IsNumeral(n: Numeral, s: seq<Byte>) {
    && s == n.sign + n.digits + n.more && AllDigits(n.digits)
    && (n.sign == [] || n.sign == [0x2D] || n.sign == [0x2B])
    && (n.more != [] ==> !(0x30 <= n.more[0] <= 0x39))
    && (n.sign == [] && n.digits == [] && n.more != [] ==> n.more[0] != 0x2D && n.more[0] != 0x2B)
  }

  /** The nearest 32-bit number. */
  ghost function Number32(n: Numeral): int
    requires AllDigits(n.digits)
  {
    var v: int := Value(n.digits);
    if n.sign == [0x2D] then (if v > 0x8000_0000 then -0x8000_0000 else -v)
    else if v > 0x7FFF_FFFF then 0x7FFF_FFFF else v
  }

  /** A text field has the value of its last header line, and what it was if there is none. */
  ghost predicate TextShown(b: seq<Byte>, was: Req, now: Req, hs: seq<Header>, n: nat, lim: nat, f: Field)
    requires n <= |hs| && IsText(f)
  {
    var k := LastIndex(hs, n, FieldBytes(f));
    if k < 0 then TextRef(now, f) == TextRef(was, f) else Leads(b, TextRef(now, f), hs[k].value, lim)
  }

  /** A number is that of its last header line. */
  ghost predicate NumberShown(was: int, now: int, hs: seq<Header>, n: nat, name: seq<Byte>)
    requires n <= |hs|
  {
    var k := LastIndex(hs, n, name);
    if k < 0 then now == was else forall m: Numeral :: IsNumeral(m, hs[k].value) ==> now == Number32(m)
  }

  ghost predicate ConnectionShown(was: ConnType, now: ConnType, hs: seq<Header>, n: nat)
    requires n <= |hs|
  {
    var k := LastIndex(hs, n, Bytes("Connection"));
    now == if k < 0 then was
      else if hs[k].value == Bytes("close") then CT_CLOSE
      else if hs[k].value == Bytes("keep-alive") then CT_KEEP_ALIVE
      else CT_NONE
  }

  /** What the first `n` header lines make of the request. */
  ghost predicate HeadersShown(b: seq<Byte>, was: Req, now: Req, hs: seq<Header>, n: nat, lim: nat)
    requires n <= |hs|
  {
    && (forall f: Field :: IsText(f) ==> TextShown(b, was, now, hs, n, lim, f))
    && NumberShown(was.contLen, now.contLen, hs, n, Bytes("Content-Length"))
    && NumberShown(was.keepAlive, now.keepAlive, hs, n, Bytes("Keep-Alive"))
    && ConnectionShown(was.connType, now.connType, hs, n)
  }

  /** Parameter `k` is kept with its name and its value, if it has one. */
  ghost predicate ParamShown(b: seq<Byte>, r: Req, k: nat, p: Param, lim: nat) {
    && k < |r.params| && k < |r.values| && Leads(b, r.params[k], p.name, lim)
    && if p.Bare? then r.values[k] == NULL else Leads(b, r.values[k], p.text, lim)
  }

  /** The first `n` parameters are counted, and the first 32 of them kept. */
  ghost predicate ParamsShown(b: seq<Byte>, r: Req, q: seq<Param>, n: nat, lim: nat)
    requires n <= |q|
  {
    r.numParams == n && forall k :: 0 <= k < n && k < 32 ==> ParamShown(b, r, k, q[k], lim)
  }

  /** The method is the one with that name. */
  ghost predicate VerbShown(m: Method, verb: seq<Byte>) {
    if m == METHOD_NONE then forall v: Method :: v != METHOD_NONE ==> verb != MethodBytes(v)
    else verb == MethodBytes(m)
  }

  /** Everything that the request `r` says. */
  ghost predicate Shows(e: Reqb, was: Req, r: Request) {
    && VerbShown(e.req.verb, r.verb)
    && Leads(e.buff, e.req.uri, r.path, e.pos) && ParamsShown(e.buff, e.req, r.query, |r.query|, e.pos)
    && Leads(e.buff, e.req.ver, r.ver, e.pos)
    && HeadersShown(e.buff, was, e.req, r.headers, |r.headers|, e.pos)
  }
}
