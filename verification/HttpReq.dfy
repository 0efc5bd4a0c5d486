/**
 The incremental request parser: a cursor over the bytes received so far, and the request
 buffer that parses on from its commit point at every push.
 */
module HttpReq {
  import opened Bits
  import L = Layout
  import opened HttpSpec
  import opened HttpChunks
  import opened HttpPieces
  import opened HttpRound
  import opened HttpText

  /** `parser_t` over a buffer without a read callback. */
  class Parser {
    const buff: array<Byte>
    const stop: nat
    var total: nat

    ghost predicate Valid()
      reads this
    {
      total <= stop <= buff.Length
    }

    /** `parser_init` */
    constructor (buff: array<Byte>, len: nat)
      requires len <= buff.Length
      ensures Valid() && total == 0 && this.buff == buff && stop == len
    {
      this.buff, stop, total := buff, len, 0;
    }

    /** `parser_eof` */
    predicate Eof()
      reads this
    {
      total == stop
    }

    /** `parser_curr` */
    method Curr() returns (c: Byte)
      requires Valid()
      ensures c == if total < stop then buff[total] else 0
    {
      c := if Eof() then 0 else buff[total];
    }

    /** `parser_skip_n` */
    method SkipN(n: nat) returns (m: nat)
      requires Valid()
      modifies this`total
      ensures Valid() && total == old(total) + m && m == if n <= stop - old(total) then n else stop - old(total)
    {
      m := 0;
      while m < n && !Eof()
        invariant Valid() && m <= n && total == old(total) + m
      {
        total := total + 1;
        m := m + 1;
      }
    }

    /** `parser_skip` over the characters of an identifier. */
    method Skip() returns (m: nat)
      requires Valid()
      modifies this`total
      ensures Valid() && old(total) <= total && total == Scan(Ident, buff[..], stop, old(total))
      ensures m == total - old(total)
    {
      m := 0;
      while !Eof() && IsIdent(buff[total])
        invariant Valid() && old(total) <= total && m == total - old(total)
        invariant Scan(Ident, buff[..], stop, old(total)) == Scan(Ident, buff[..], stop, total)
        decreases stop - total
      {
        m := m + 1;
        total := total + 1;
      }
    }

    /** `parser_skip_ws` */
    method SkipWs() returns (some: bool)
      requires Valid()
      modifies this`total
      ensures Valid() && old(total) <= total && total == Scan(Class.Blank, buff[..], stop, old(total))
      ensures some == (total > old(total))
    {
      some := false;
      while !Eof() && buff[total] <= 0x20
        invariant Valid() && old(total) <= total && some == (total > old(total))
        invariant Scan(Class.Blank, buff[..], stop, old(total)) == Scan(Class.Blank, buff[..], stop, total)
        decreases stop - total
      {
        some := true;
        total := total + 1;
      }
    }

    /** `parser_skip_ws_in_line` */
    method SkipWsInLine() returns (some: bool)
      requires Valid()
      modifies this`total
      ensures Valid() && old(total) <= total && total == Scan(InlineBlank, buff[..], stop, old(total))
      ensures some == (total > old(total))
    {
      some := false;
      while !Eof() && !(buff[total] > 0x20 || buff[total] == CR || buff[total] == LF)
        invariant Valid() && old(total) <= total && some == (total > old(total))
        invariant Scan(InlineBlank, buff[..], stop, old(total)) == Scan(InlineBlank, buff[..], stop, total)
        decreases stop - total
      {
        some := true;
        total := total + 1;
      }
    }

    /** `parser_skip_line`: past the next line feed. */
    method SkipLine() returns (found: bool)
      requires Valid()
      modifies this`total
      ensures Valid() && old(total) <= total
      ensures var l := Scan(NotLf, buff[..], stop, old(total));
        if l < stop then found && total == l + 1 else !found && total == stop
    {
      while !Eof()
        invariant Valid() && old(total) <= total
        invariant Scan(NotLf, buff[..], stop, old(total)) == Scan(NotLf, buff[..], stop, total)
        decreases stop - total
      {
        if buff[total] == LF {
          total := total + 1;
          return true;
        }
        total := total + 1;
      }
      found := false;
    }

    /** `parser_skip_before` a blank. */
    method SkipBeforeSpace() returns (found: bool)
      requires Valid()
      modifies this`total
      ensures Valid() && old(total) <= total && total == Scan(NotSpace, buff[..], stop, old(total))
      ensures found == (total < stop)
    {
      while !Eof()
        invariant Valid() && old(total) <= total
        invariant Scan(NotSpace, buff[..], stop, old(total)) == Scan(NotSpace, buff[..], stop, total)
        decreases stop - total
      {
        if buff[total] == SP {
          return true;
        }
        total := total + 1;
      }
      found := false;
    }

    /** `parser_skip_char` */
    method SkipChar(c: Byte) returns (found: bool)
      requires Valid()
      modifies this`total
      ensures Valid() && found == (old(total) < stop && buff[old(total)] == c)
      ensures total == if found then old(total) + 1 else old(total)
    {
      found := !Eof() && buff[total] == c;
      if found {
        total := total + 1;
      }
    }
  }

  /** `http_reqb_t` */
  class ReqBuffer {
    const buff: array<Byte>
    var size: nat
    var pos: nat
    var pstate: nat
    var state: Status
    var req: Req

    /** The state as a value. */
    ghost function Value(): Reqb
      reads this, buff
    {
      Reqb(buff[..], size, pos, pstate, state, req)
    }

    ghost predicate Valid()
      reads this, buff
    {
      size < buff.Length && (state == REQB_UNFINISHED ==> Good(Value()))
    }

    /** `http_reqb_init` */
    constructor (buff: array<Byte>)
      requires buff.Length > 0
      ensures Valid() && this.buff == buff && size == 0 && pos == 0 && pstate == 0 && state == REQB_UNFINISHED
    {
      this.buff := buff;
      size, pos, pstate, state := 0, 0, 0, REQB_UNFINISHED;
      var nulls := seq<Ref>(MAX_PARAMS, i => NULL);
      req := Req.Req(METHOD_NONE, NULL, 0, nulls, nulls, NULL, NULL, NULL, NULL, 0, NULL, NULL, NULL, NULL, CT_NONE, 0);
    }

    /** The parser is at the commit point of an unfinished request. */
    ghost predicate Ready(p: Parser)
      reads this, buff, p
    {
      p.Valid() && p.buff == buff && p.stop == size && p.total == pos && Good(Value())
    }

    /** The outcome of one turn of the loop that started in `v`. */
    ghost predicate Turned(p: Parser, v: Reqb, done: bool)
      reads this, buff, p
    {
      && p.Valid() && p.buff == buff && p.stop == size && Good(v)
      && match Turn(true, v)
         case Wait => !done && Value() == v && p.total == size
         case Commit(next) => !done && Value() == next && p.total == pos
         case End(last) =>
           if last.state == REQB_FINISHED then done && Value() == last
           else
             && !done && p.total < size && pstate > 5
             && state == REQB_UNFINISHED && last == Value().(state := REQB_SYNT_ERROR)
    }

    lemma ReadyFacts(p: Parser)
      requires Ready(p)
      ensures p.Valid() && p.buff == buff && p.stop == size && p.total == pos && Good(Value())
      ensures pos <= size < buff.Length && pstate <= 5 && state == REQB_UNFINISHED
      ensures |req.params| == MAX_PARAMS == |req.values| && (pstate == 3 ==> req.numParams >= 1)
      ensures Value() == Reqb(buff[..], size, pos, pstate, state, req)
    {
    }

    lemma ValueIs()
      ensures Value() == Reqb(buff[..], size, pos, pstate, state, req)
    {
    }

    lemma Waits(p: Parser, v: Reqb)
      requires p.Valid() && p.buff == buff && p.stop == size && Good(v) && Turn(true, v) == Wait
      requires Value() == v && p.total == size
      ensures Turned(p, v, false)
    {
    }

    lemma Commits(p: Parser, v: Reqb)
      requires p.Valid() && p.buff == buff && p.stop == size && Good(v)
      requires Turn(true, v) == Commit(Value()) && p.total == pos
      ensures Turned(p, v, false)
    {
    }

    lemma Fails(p: Parser, v: Reqb)
      requires p.Valid() && p.buff == buff && p.stop == size && Good(v)
      requires Turn(true, v) == End(Value().(state := REQB_SYNT_ERROR)) && state == REQB_UNFINISHED
      requires p.total < size && pstate > 5
      ensures Turned(p, v, false)
    {
    }

    lemma Finishes(p: Parser, v: Reqb)
      requires p.Valid() && p.buff == buff && p.stop == size && Good(v)
      requires Turn(true, v) == End(Value()) && state == REQB_FINISHED
      ensures Turned(p, v, true)
    {
    }

    // ---- the elements ----

    /** State 0: the method. */
    method TakeMethod(p: Parser)
      requires Ready(p) && pstate == 0
      modifies this, buff, p`total
      ensures Turned(p, old(Value()), false)
    {
      hide *;
      ReadyFacts(p);
      ghost var v := Value();
      TurnAt(true, v);
      MethodAt(v);
      SpIs();
      ParserFacts(p);
      var some := p.SkipWs();
      var total := p.total;
      var found := p.SkipBeforeSpace();
      ParserFacts(p);
      EofIs(p);
      ValueIs();
      if p.Eof() {
        Waits(p, v);
        return;
      }
      buff[p.total] := 0;
      assert buff[..] == v.buff[p.total := 0];
      req := req.(verb := StrToMethod(CString(buff[..], total)));
      var n := p.SkipN(1);
      ParserFacts(p);
      pos := p.total;
      pstate := 1;
      ValueIs();
      CommittedIs(v, pos - 1, 1, req);
      Commits(p, v);
    }

    lemma ParserFacts(p: Parser)
      requires p.Valid()
      ensures p.total <= p.stop <= p.buff.Length
    {
    }

    lemma EofIs(p: Parser)
      ensures p.Eof() <==> p.total == p.stop
    {
    }

    /** Ends the element at the parser's position with a terminator, and goes past it. */
    method EndElement(p: Parser)
      requires p.Valid() && p.buff == buff && p.total < p.stop
      modifies this`pos, buff, p`total
      ensures p.Valid() && p.total == old(p.total) + 1 == pos
      ensures buff[..] == old(buff[..])[old(p.total) := 0]
    {
      buff[p.total] := 0;
      var n := p.SkipN(1);
      pos := p.total;
    }

    /** State 1: the path. */
    method TakeUri(p: Parser)
      requires Ready(p) && pstate == 1
      modifies this, buff, p`total
      ensures Turned(p, old(Value()), false)
    {
      hide *;
      ReadyFacts(p);
      ghost var v := Value();
      TurnAt(true, v);
      UriAt(v);
      SpIs();
      var some := p.SkipWs();
      var total := p.total;
      var m := p.Skip();
      ParserFacts(p);
      EofIs(p);
      ValueIs();
      if p.Eof() {
        Waits(p, v);
        return;
      }
      FailedIs(v, 11);
      var c := p.Curr();
      pstate := if c == QUESTION then 2 else if c == SP then 4 else 11;
      ValueIs();
      if pstate >= 10 {
        Fails(p, v);
        return;
      }
      req := req.(uri := Ref(total));
      EndElement(p);
      ValueIs();
      CommittedIs(v, pos - 1, pstate, req);
      Commits(p, v);
    }

    /** State 2: a parameter. */
    method TakeParam(p: Parser)
      requires Ready(p) && pstate == 2
      modifies this, buff, p`total
      ensures Turned(p, old(Value()), false)
    {
      hide *;
      ReadyFacts(p);
      ghost var v := Value();
      TurnAt(true, v);
      ParamAt(v);
      SpIs();
      var total := p.total;
      var m := p.Skip();
      ParserFacts(p);
      EofIs(p);
      ValueIs();
      if p.Eof() {
        Waits(p, v);
        return;
      }
      FailedIs(v, 12);
      var c := p.Curr();
      pstate := if c == AMP then 2 else if c == EQ then 3 else if c == SP then 4 else 12;
      ValueIs();
      if pstate >= 10 {
        Fails(p, v);
        return;
      }
      AddParamIs(req, total);
      req := req.(numParams := req.numParams + 1);
      if req.numParams <= MAX_PARAMS {
        req := req.(params := req.params[req.numParams - 1 := Ref(total)]);
        req := req.(values := req.values[req.numParams - 1 := NULL]);
      }
      EndElement(p);
      ValueIs();
      CommittedIs(v, pos - 1, pstate, req);
      Commits(p, v);
    }

    /** State 3: the value of a parameter. */
    method TakeValue(p: Parser)
      requires Ready(p) && pstate == 3
      modifies this, buff, p`total
      ensures Turned(p, old(Value()), false)
    {
      hide *;
      ReadyFacts(p);
      ghost var v := Value();
      TurnAt(true, v);
      ValueAt(v);
      SpIs();
      var total := p.total;
      var m := p.Skip();
      ParserFacts(p);
      EofIs(p);
      ValueIs();
      if p.Eof() {
        Waits(p, v);
        return;
      }
      FailedIs(v, 13);
      var c := p.Curr();
      pstate := if c == AMP then 2 else if c == SP then 4 else 13;
      ValueIs();
      if pstate >= 10 {
        Fails(p, v);
        return;
      }
      AddValueIs(req, total);
      if req.numParams <= MAX_PARAMS {
        req := req.(values := req.values[req.numParams - 1 := Ref(total)]);
      }
      EndElement(p);
      ValueIs();
      CommittedIs(v, pos - 1, pstate, req);
      Commits(p, v);
    }

    /** State 4: the version. */
    method TakeVersion(p: Parser)
      requires Ready(p) && pstate == 4
      modifies this, buff, p`total
      ensures Turned(p, old(Value()), false)
    {
      hide *;
      ReadyFacts(p);
      ghost var v := Value();
      TurnAt(true, v);
      VersionAt(v);
      SpIs();
      var some := p.SkipWs();
      var total := p.total;
      var found := p.SkipLine();
      ParserFacts(p);
      ValueIs();
      if !found {
        Waits(p, v);
        return;
      }
      req := req.(ver := Ref(total));
      buff[p.total - 2] := 0;
      assert buff[..] == v.buff[p.total - 2 := 0];
      pos := p.total;
      pstate := 5;
      ValueIs();
      Commits(p, v);
    }

    /** State 5: a header line, or the empty line at the end. True: the request is complete. */
    method TakeHeader(p: Parser) returns (done: bool)
      requires Ready(p) && pstate == 5
      modifies this, buff, p`total
      ensures Turned(p, old(Value()), done)
    {
      hide *;
      ReadyFacts(p);
      ghost var v := Value();
      TurnAt(true, v);
      HeaderAt(true, v);
      SpIs();
      done := false;
      var some := p.SkipWsInLine();
      ghost var i := p.total;
      LineBy(v.buff, v.size, v.pos, i, Scan(Ident, v.buff, v.size, i), 0, 0);
      ParserFacts(p);
      var end := p.SkipChar(CR);
      if !end {
        end := p.SkipChar(LF);
      }
      if end {
        state := REQB_FINISHED;
        ValueIs();
        Finishes(p, v);
        return true;
      }
      ScanAtEnd(InlineBlank, v.buff, v.size);
      some := p.SkipWsInLine();
      ValueIs();
      TakeLine(p);
    }

    /** The name and the value of a header line, from the name on. */
    method TakeLine(p: Parser)
      requires Good(Value()) && pstate == 5 && p.Valid() && p.buff == buff && p.stop == size
      requires p.total == Scan(InlineBlank, buff[..], size, pos)
      requires p.total < size ==> buff[p.total] != CR && buff[p.total] != LF
      modifies this, buff, p`total
      ensures Turned(p, old(Value()), false)
    {
      hide *;
      GoodFacts();
      ghost var v := Value();
      TurnAt(true, v);
      HeaderAt(true, v);
      SpIs();
      var name := p.total;
      LineBy(v.buff, v.size, v.pos, name, Scan(Ident, v.buff, v.size, name), 0, 0);
      var m := p.Skip();
      ParserFacts(p);
      EofIs(p);
      ValueIs();
      if p.Eof() {
        Waits(p, v);
        return;
      }
      var c := p.Curr();
      if c != COLON {
        FailedIs(v, 15);
        pstate := 15;
        ValueIs();
        Fails(p, v);
        return;
      }
      TakeText(p, name);
    }

    /** The value of a header line whose name has been read up to its colon. */
    method TakeText(p: Parser, name: nat)
      requires Good(Value()) && pstate == 5 && p.Valid() && p.buff == buff && p.stop == size
      requires name == Scan(InlineBlank, buff[..], size, pos) && name <= size
      requires name < size ==> buff[name] != CR && buff[name] != LF
      requires p.total == Scan(Ident, buff[..], size, name) < size && buff[p.total] == COLON
      modifies this, buff, p`total
      ensures Turned(p, old(Value()), false)
    {
      hide *;
      GoodFacts();
      ghost var v := Value();
      TurnAt(true, v);
      HeaderAt(true, v);
      SpIs();
      ParserFacts(p);
      var colon := p.total;
      var m := p.SkipN(1);
      var some := p.SkipWsInLine();
      var val := p.total;
      ParserFacts(p);
      var found := p.SkipLine();
      ParserFacts(p);
      LineBy(v.buff, v.size, v.pos, name, colon, val, Scan(NotLf, v.buff, v.size, val));
      ValueIs();
      if !found {
        Waits(p, v);
        return;
      }
      buff[colon] := 0;
      buff[p.total - 2] := 0;
      assert buff[..] == v.buff[colon := 0][p.total - 2 := 0];
      req := SetParam(true, req, FieldOf(CString(buff[..], name)), buff[..], val);
      pos := p.total;
      ValueIs();
      Commits(p, v);
    }

    lemma GoodFacts()
      requires Good(Value())
      ensures pos <= size < buff.Length && pstate <= 5 && state == REQB_UNFINISHED
      ensures Value() == Reqb(buff[..], size, pos, pstate, state, req)
    {
    }

    // ---- http_reqb_push ----

    /** One turn of the loop. True: the request is complete. */
    method Take(p: Parser) returns (done: bool)
      requires Ready(p)
      modifies this, buff, p`total
      ensures Turned(p, old(Value()), done)
    {
      hide *;
      ReadyFacts(p);
      done := false;
      match pstate {
        case 0 => TakeMethod(p);
        case 1 => TakeUri(p);
        case 2 => TakeParam(p);
        case 3 => TakeValue(p);
        case 4 => TakeVersion(p);
        case _ => done := TakeHeader(p);
      }
    }

    /** In the loop: parsing on gives `r`. */
    ghost predicate Going(p: Parser, r: Reqb)
      reads this, buff, p
    {
      && p.Valid() && p.buff == buff && p.stop == size
      && ((Ready(p) && Parse(true, Value()) == r)
          || (Value() == r && p.total == size)
          || (pstate > 5 && state == REQB_UNFINISHED && p.total < size && r == Value().(state := REQB_SYNT_ERROR)))
    }

    lemma GoingStarts(p: Parser)
      requires Ready(p)
      ensures Going(p, Parse(true, Value()))
    {
    }

    lemma GoingFacts(p: Parser, r: Reqb)
      requires Going(p, r)
      ensures p.Valid() && p.buff == buff && p.stop == size
      ensures p.total == p.stop ==> Value() == r
      ensures p.total < p.stop && pstate > 5 ==> r == Value().(state := REQB_SYNT_ERROR)
      ensures p.total < p.stop && pstate <= 5 ==> Ready(p) && Parse(true, Value()) == r
    {
      if Ready(p) && Parse(true, Value()) == r {
        ReadyFacts(p);
        ParseStep(true, Value());
      }
      hide Parse, Turn;
    }

    lemma GoesOn(p: Parser, v: Reqb, r: Reqb, done: bool)
      requires Turned(p, v, done) && Parse(true, v) == r
      ensures if done then Value() == r else Going(p, r)
      ensures !done ==> p.total > v.pos || p.total == p.stop || pstate > 5
    {
      ParseStep(true, v);
      hide Parse, Turn;
    }

    /** `http_reqb_push` */
    method Push(data: seq<Byte>)
      requires Valid()
      modifies this, buff
      ensures Valid()
      ensures var v := old(Value());
        (v.state == REQB_UNFINISHED ==> Good(v)) && Value() == HttpChunks.Push(true, v, data)
      // the text of a request in a fresh buffer, with anything behind it, is that request
      ensures Fresh(old(Value())) && |data| < buff.Length ==> forall r: Request, y: seq<Byte> ::
        Writable(r) && data == Text(r) + y ==> state == REQB_FINISHED && Shows(Value(), old(Value()).req, r)
      ensures old(size) + |data| >= buff.Length ==> Value() == old(Value()).(state := REQB_REQ_TO_BIG)
      ensures old(size) + |data| < buff.Length && old(state) != REQB_UNFINISHED ==> Value() == old(Value())
    {
      hide *;
      ValidFacts();
      ValueIs();
      ghost var v := Value();
      if Fresh(v) && |data| < buff.Length {
        AnyRequest(v, data);
      }
      FreshSize(v);
      if size + |data| >= buff.Length {
        state := REQB_REQ_TO_BIG;
        ValueIs();
        TooBig(true, v, data);
        IsValid();
        return;
      }
      if state != REQB_UNFINISHED {
        Ended(true, v, data);
        IsValid();
        return;
      }
      L.MemCpy(buff, size, data);
      size := size + |data|;
      ValueIs();
      ExtFacts(v, data);
      ExtIs(v, data, buff[..]);
      PushFits(true, v, data);
      var p := new Parser(buff, size);
      var n := p.SkipN(pos);
      GoodFacts();
      IsReady(p);
      GoingStarts(p);
      Loop(p, Parse(true, Value()));
      SizeFacts(Value(), v, data);
      PushKeeps(true, v, data);
      ValueIs();
      IsValid();
    }

    /** The loop of `http_reqb_push`. */
    method Loop(p: Parser, ghost r: Reqb)
      requires Going(p, r)
      modifies this, buff, p`total
      ensures Value() == r
    {
      hide *;
      GoingFacts(p, r);
      EofIs(p);
      while !p.Eof()
        invariant Going(p, r)
        decreases pstate <= 5, p.stop - p.total
      {
        GoingFacts(p, r);
        EofIs(p);
        ParserFacts(p);
        if pstate > 5 {
          ValueIs();
          state := REQB_SYNT_ERROR;
          ValueIs();
          return;
        }
        ghost var v := Value();
        ReadyFacts(p);
        var done := Take(p);
        GoesOn(p, v, r, done);
        if done {
          return;
        }
        GoingFacts(p, r);
        ParserFacts(p);
        Descends(p, v);
      }
      EofIs(p);
      GoingFacts(p, r);
    }

    /** Each turn gets on, or fails. */
    lemma Descends(p: Parser, v: Reqb)
      requires p.Valid() && Turned(p, v, false) && v.pos < p.stop
      ensures pstate > 5 || p.total > v.pos
    {
      TurnKeeps(true, v);
      hide Turn;
    }

    lemma FreshSize(v: Reqb)
      ensures Fresh(v) ==> v.size == 0 && v.state == REQB_UNFINISHED
    {
    }

    lemma ValidFacts()
      requires Valid()
      ensures size < buff.Length && (state == REQB_UNFINISHED ==> Good(Value()))
    {
    }

    lemma IsValid()
      requires size < buff.Length && (state == REQB_UNFINISHED ==> Good(Value()))
      ensures Valid()
    {
    }

    lemma IsReady(p: Parser)
      requires p.Valid() && p.buff == buff && p.stop == size && p.total == pos && Good(Value())
      ensures Ready(p)
    {
    }

    /** A request that comes in pieces: the outcome is that of one push of all of it, but for
        the two numbers; for those, too, if each has a value on its line. */
    method PushAll(xs: seq<seq<Byte>>)
      requires Good(Value()) && size + |Concat(xs)| < buff.Length && xs != []
      modifies this, buff
      ensures Valid()
      ensures var v := old(Value()); SameOutcome(Blur(Value()), Blur(HttpChunks.Push(true, v, Concat(xs))))
      ensures old(Value()).size + |Concat(xs)| < |old(Value()).buff| && Good(Ext(old(Value()), Concat(xs)))
      ensures RegularRun(true, Ext(old(Value()), Concat(xs))) ==>
        SameOutcome(Value(), HttpChunks.Push(true, old(Value()), Concat(xs)))
      // no number open at a cut
      ensures CutsSettled(old(Value()), xs, |xs| - 1) ==>
        SameOutcome(Value(), HttpChunks.Push(true, old(Value()), Concat(xs)))
    {
      hide *;
      GoodFacts();
      IsValid();
      ghost var v := Value();
      assert xs[0..] == xs;
      for i := 0 to |xs|
        invariant Valid() && Good(v)
        invariant Value().state == REQB_UNFINISHED ==> Good(Value())
        invariant Fed(true, v, xs) == Fed(true, Value(), xs[i..])
      {
        FedStep(true, Value(), xs[i..]);
        assert xs[i..][0] == xs[i] && xs[i..][1..] == xs[i + 1..];
        Push(xs[i]);
        ValidFacts();
      }
      FedNothing(true, Value(), xs[|xs|..]);
      AnyCutting(v, xs);
      ExtFacts(v, Concat(xs));
      if RegularRun(true, Ext(v, Concat(xs))) {
        FedIsOnePush(true, v, xs);
      }
      if CutsSettled(v, xs, |xs| - 1) {
        assert xs[..|xs|] == xs;
        PiecesSoFar(v, xs, |xs|);
      }
    }
  }
}
