/** The incremental HTTP header parser (http.c:61-337). */
module Http {
  import opened Bytes
  import opened HttpText

  datatype State =
    | Init | Space | Op | ResponseCode | ResponseMessage | Uri | Version
    | HeaderBol | HeaderStart | HeaderName | HeaderVal | Done | Error

  /** The numbers behind the states; the parser returns minus the state of an error. */
  function Code(s: State): (n: int)
    ensures s != Error <==> n > 0
  {
    match s
    case Init => 1 case Space => 2 case Op => 3 case ResponseCode => 4 case ResponseMessage => 5
    case Uri => 6 case Version => 7 case HeaderBol => 8 case HeaderStart => 9 case HeaderName => 10
    case HeaderVal => 11 case Done => 12 case Error => -1
  }

  datatype OpCode = Unknown | Response | Get | Put | Post

  datatype Header = Header(key: Option<string>, val: Option<string>)

  datatype Where = Where(state: State, line: nat, col: int)

  /** What the parser fills in; the response code is kept as the characters strtoul converts. */
  datatype Fields = Fields(op: Option<string>, opCode: OpCode, code: Option<string>, message: Option<string>,
                           uri: Option<string>, version: Option<string>, headers: seq<Header>, error: Option<Where>)

  datatype Parser = Parser(ptr: nat, state: State, next: State, word: nat, line: nat, lineStart: nat, f: Fields)

  function Start(): Parser {
    Parser(0, Init, Init, 0, 0, 0, Fields(None, Unknown, None, None, None, None, [], None))
  }

  predicate Stopped(p: Parser) {
    p.state == Done || p.state == Error
  }

  /** The position of the current word is known, and so is the state behind blanks. */
  predicate Ok(buf: string, p: Parser) {
    && p.word <= p.ptr <= |buf|
    && (p.state == Space ==> p.next !in {Init, Space, Done, Error})
  }

  predicate IsBlank(c: char) { c == ' ' || c == '\t' }

  predicate IsName(c: char) {
    '0' <= c <= '9' || 'a' <= c <= 'z' || 'A' <= c <= 'Z' || c == '-'
  }

  /** Header names consist of letters, digits and hyphens. */
  lemma NamesAre(c: char)
    ensures IsName(c) <==> c == '-' || c in UPPER || c in LOWER || c in "0123456789"
  {
    InAlphabet(c);
  }

  // What one round of the loop can do with the current character.

  function Skip(p: Parser): Parser { p.(ptr := p.ptr + 1) }

  function Go(p: Parser, s: State): Parser { p.(state := s, ptr := p.ptr + 1) }

  function Blanks(p: Parser, s: State): Parser { p.(state := Space, next := s, ptr := p.ptr + 1) }

  function Rescan(p: Parser, s: State): Parser { p.(state := s, word := p.ptr) }

  function Fail(p: Parser): Parser {
    p.(state := Error, ptr := p.ptr + 1, f := p.f.(error := Some(Where(p.state, p.line, p.ptr - p.lineStart))))
  }

  function Word(buf: string, p: Parser): string
    requires p.word <= p.ptr <= |buf|
  {
    Dup(buf[p.word..p.ptr])
  }

  function OpCodeOf(w: string): OpCode {
    if w == "GET" then Get else if w == "PUT" then Put else if w == "POST" then Post else Unknown
  }

  function InOp(buf: string, p: Parser): Parser
    requires p.word <= p.ptr < |buf|
  {
    var c := buf[p.ptr];
    if c == '\n' then Fail(p)
    else if !IsBlank(c) then Skip(p)
    else if "HTTP/" <= Word(buf, p) then
      Blanks(p.(f := p.f.(version := Some(Word(buf, p)), op := None, opCode := Response)), ResponseCode)
    else Blanks(p.(f := p.f.(op := Some(Word(buf, p)), opCode := OpCodeOf(Word(buf, p)))), Uri)
  }

  function InCode(buf: string, p: Parser): Parser
    requires p.word <= p.ptr < |buf|
  {
    var c := buf[p.ptr];
    if !IsBlank(c) && c != '\n' then Skip(p)
    else
      var q := p.(f := p.f.(code := Some(NumberText(buf[p.word..]))));
      if NumberText(buf[p.word..]) == [] then Fail(q)
      else if c == '\n' then Go(q.(next := ResponseMessage), HeaderStart)
      else Blanks(q, ResponseMessage)
  }

  function InMessage(buf: string, p: Parser): Parser
    requires p.word <= p.ptr < |buf|
  {
    if buf[p.ptr] != '\n' then Skip(p)
    else Go(p.(f := p.f.(message := Some(Word(buf, p)))), HeaderStart)
  }

  function InUri(buf: string, p: Parser): Parser
    requires p.word <= p.ptr < |buf|
  {
    var c := buf[p.ptr];
    if !IsBlank(c) && c != '\n' then Skip(p)
    else Blanks(p.(f := p.f.(uri := Some(Word(buf, p)))), if c == '\n' then HeaderStart else Version)
  }

  function InVersion(buf: string, p: Parser): Parser
    requires p.word <= p.ptr < |buf|
  {
    var c := buf[p.ptr];
    if !IsBlank(c) && c != '\n' then Skip(p)
    else
      var q := p.(f := p.f.(version := Some(Word(buf, p))));
      if c == '\n' then Go(q, HeaderStart) else Blanks(q, HeaderBol)
  }

  function SetVal(hs: seq<Header>, v: string): seq<Header> {
    if hs == [] then [] else hs[|hs| - 1 := hs[|hs| - 1].(val := Some(v))]
  }

  function SetKey(hs: seq<Header>, k: string): seq<Header> {
    if hs == [] then [] else hs[|hs| - 1 := hs[|hs| - 1].(key := Some(k))]
  }

  function InHeaderStart(buf: string, p: Parser): Parser
    requires p.word <= p.ptr < |buf|
  {
    var c := buf[p.ptr];
    if IsBlank(c) then Go(p, HeaderVal)
    else
      var hs := SetVal(p.f.headers, Word(buf, p));
      if c == '\n' then Go(p.(f := p.f.(headers := hs)), Done)
      else Go(p.(f := p.f.(headers := hs + [Header(None, None)]), word := p.ptr), HeaderName)
  }

  function InHeaderName(buf: string, p: Parser): Parser
    requires p.word <= p.ptr < |buf|
  {
    var c := buf[p.ptr];
    if IsName(c) then Skip(p)
    else if c != ':' then Fail(p)
    else Blanks(p.(f := p.f.(headers := SetKey(p.f.headers, Word(buf, p)))), HeaderVal)
  }

  function Newline(p: Parser, c: char): Parser {
    if c == '\n' then p.(line := p.line + 1, lineStart := p.ptr) else p
  }

  /** One round of the loop at a character that is not a carriage return. */
  function InState(buf: string, p: Parser): Parser
    requires p.word <= p.ptr < |buf|
  {
    var c := buf[p.ptr];
    match p.state
    case Init => if IsBlank(c) || c == '\n' then Skip(p) else Rescan(p, Op)
    case Space => if IsBlank(c) then Skip(p) else Rescan(p, p.next)
    case Op => InOp(buf, p)
    case ResponseCode => InCode(buf, p)
    case ResponseMessage => InMessage(buf, p)
    case Uri => InUri(buf, p)
    case Version => InVersion(buf, p)
    case HeaderBol => if c == '\n' then Go(p, HeaderStart) else Fail(p)
    case HeaderStart => InHeaderStart(buf, p)
    case HeaderName => InHeaderName(buf, p)
    case HeaderVal => if c == '\n' then Go(p, HeaderStart) else Skip(p)
    case Done => p
    case Error => p
  }

  function Round(buf: string, p: Parser): Parser
    requires p.word <= p.ptr < |buf|
  {
    if buf[p.ptr] == '\r' then Skip(p) else InState(buf, Newline(p, buf[p.ptr]))
  }

  /** A state that reads the current character a second time comes before one that does not. */
  function Rank(p: Parser): nat {
    if p.state == Init || p.state == Space then 1 else 0
  }

  /** Every round consumes the character or leaves the two states that may look at it again. */
  lemma RoundProgress(buf: string, p: Parser)
    requires Ok(buf, p) && p.ptr < |buf| && !Stopped(p)
    ensures var q := Round(buf, p);
      Ok(buf, q) && (q.ptr == p.ptr + 1 || (q.ptr == p.ptr && Rank(q) < Rank(p) && !Stopped(q)))
  {
    hide Word, NumberText, SetVal, SetKey, OpCodeOf;
  }

  ghost predicate Ended(buf: string, p: Parser) {
    p.ptr >= |buf| || Stopped(p)
  }

  /** The loop of http_header_parse from some state on. */
  ghost function Run(buf: string, p: Parser): Parser
    requires Ok(buf, p)
    decreases |buf| - p.ptr, Rank(p)
  {
    if Ended(buf, p) then p
    else
      RoundProgress(buf, p);
      Run(buf, Round(buf, p))
  }

  function Lookup(hs: seq<Header>, key: string): Option<string> {
    if hs == [] then None
    else if hs[0].key.Some? && SameIgnoringCase(hs[0].key.value, key) then hs[0].val
    else Lookup(hs[1..], key)
  }

  datatype Outcome =
    | Complete(headerLen: nat, fields: Fields, contentLength: Option<string>, contentType: Option<string>)
    | Incomplete
    | Failed(fields: Fields)

  function ContentLength(hs: seq<Header>): Option<string> {
    match Lookup(hs, "content-length") case Some(v) => Some(NumberText(v)) case None => None
  }

  function Conclude(p: Parser): Outcome {
    if p.state == Error then Failed(p.f)
    else if p.state != Done then Incomplete
    else Complete(p.ptr, p.f, ContentLength(p.f.headers), Lookup(p.f.headers, "content-type"))
  }

  ghost function Parse(buf: string): Outcome {
    Conclude(Run(buf, Start()))
  }

  /** The response code for the characters converted; nothing converted leaves zero. */
  function CodeValue(text: Option<string>): int {
    match text case None => 0 case Some(s) => ToInt(ULong(s))
  }

  predicate SameFields(f: Fields, g: Fields) {
    CodeValue(f.code) == CodeValue(g.code) && f.(code := None) == g.(code := None)
  }

  /** What the caller sees is the same: every field of http_header_t, with the response code as its value. */
  predicate SameResult(a: Outcome, b: Outcome) {
    match a
    case Complete(n, f, length, kind) =>
      b.Complete? && b.headerLen == n && SameFields(f, b.fields) && b.contentLength == length && b.contentType == kind
    case Incomplete => b.Incomplete?
    case Failed(f) => b.Failed? && SameFields(f, b.fields)
  }

  // ---------------------------------------------------------------------------------------------
  // Prefix stability
  // ---------------------------------------------------------------------------------------------

  /** This round hands the buffer from the word on to strtoul, which may look behind the current character. */
  predicate AtCode(buf: string, p: Parser)
    requires p.ptr < |buf|
  {
    p.state == ResponseCode && (IsBlank(buf[p.ptr]) || buf[p.ptr] == '\n')
  }

  /** The text the run hands to strtoul; it does so at most once. */
  ghost function CodeInput(buf: string, p: Parser): Option<string>
    requires Ok(buf, p)
    decreases |buf| - p.ptr, Rank(p)
  {
    if Ended(buf, p) then None
    else
      RoundProgress(buf, p);
      if AtCode(buf, p) then Some(buf[p.word..]) else CodeInput(buf, Round(buf, p))
  }

  predicate CodeSettled(input: Option<string>) {
    input.Some? ==> Settled(input.value)
  }

  /** The end of the number is in sight, or it reads as -1 now and out of range with one more digit. */
  predicate CodeStable(input: Option<string>) {
    input.Some? ==> Settled(input.value) || Saturated(input.value)
  }

  lemma RoundExtends(buf: string, e: string, p: Parser)
    requires Ok(buf, p) && p.ptr < |buf|
    requires AtCode(buf, p) ==> Settled(buf[p.word..])
    ensures Round(buf + e, p) == Round(buf, p)
  {
    hide Dup, NumberText, Settled, SetVal, SetKey, OpCodeOf;
    assert (buf + e)[p.word..p.ptr] == buf[p.word..p.ptr];
    assert (buf + e)[p.ptr] == buf[p.ptr];
    if AtCode(buf, p) {
      assert (buf + e)[p.word..] == buf[p.word..] + e;
      SettledStays(buf[p.word..], e);
    }
  }

  lemma RunStep(buf: string, p: Parser)
    requires Ok(buf, p)
    ensures Ended(buf, p) ==> Run(buf, p) == p
    ensures !Ended(buf, p) ==> Ok(buf, Round(buf, p)) && Run(buf, p) == Run(buf, Round(buf, p))
  {
    hide Round;
    if !Ended(buf, p) { RoundProgress(buf, p); }
  }

  lemma InputStep(buf: string, p: Parser)
    requires Ok(buf, p) && !Ended(buf, p)
    ensures Ok(buf, Round(buf, p))
    ensures CodeInput(buf, p) == if AtCode(buf, p) then Some(buf[p.word..]) else CodeInput(buf, Round(buf, p))
  {
    hide Round;
    RoundProgress(buf, p);
  }

  /** Past the response code, or in a run that has none: nothing asks strtoul again. */
  predicate PastCode(p: Parser) {
    p.state !in {Init, Op, ResponseCode} && (p.state == Space ==> p.next != Op && p.next != ResponseCode)
  }

  lemma PastStays(buf: string, p: Parser)
    requires Ok(buf, p) && !Ended(buf, p) && PastCode(p)
    ensures PastCode(Round(buf, p)) && Round(buf, p).f.code == p.f.code && !AtCode(buf, p)
  {
    hide Word, NumberText, SetVal, SetKey, OpCodeOf;
  }

  lemma CodeRead(buf: string, p: Parser)
    requires Ok(buf, p) && !Ended(buf, p) && AtCode(buf, p)
    ensures PastCode(Round(buf, p)) && Round(buf, p).f.code == Some(NumberText(buf[p.word..]))
  {
    hide NumberText;
  }

  lemma {:induction false} NoInputPast(buf: string, p: Parser)
    requires Ok(buf, p) && PastCode(p)
    ensures CodeInput(buf, p) == None
    decreases |buf| - p.ptr, Rank(p)
  {
    hide Round, PastCode, AtCode;
    if !Ended(buf, p) {
      InputStep(buf, p);
      RoundProgress(buf, p);
      PastStays(buf, p);
      NoInputPast(buf, Round(buf, p));
    }
  }

  /** More input does not change a run that stopped. */
  lemma {:induction false} RunExtends(buf: string, e: string, p: Parser)
    requires Ok(buf, p) && CodeSettled(CodeInput(buf, p))
    requires Stopped(Run(buf, p))
    ensures Ok(buf + e, p) && Run(buf + e, p) == Run(buf, p)
    decreases |buf| - p.ptr, Rank(p)
  {
    hide Round, Run, Settled, AtCode, CodeInput, PastCode;
    RunStep(buf, p);
    RunStep(buf + e, p);
    if !Ended(buf, p) {
      InputStep(buf, p);
      RoundProgress(buf, p);
      RoundExtends(buf, e, p);
      if AtCode(buf, p) {
        CodeRead(buf, p);
        NoInputPast(buf, Round(buf, p));
      }
      RunExtends(buf, e, Round(buf, p));
    }
  }

  /** The response code consists of the characters strtoul converts of its input. */
  lemma {:induction false} CodeOfInput(buf: string, p: Parser)
    requires Ok(buf, p)
    ensures Run(buf, p).f.code ==
      match CodeInput(buf, p) case None => p.f.code case Some(s) => Some(NumberText(s))
    decreases |buf| - p.ptr, Rank(p)
  {
    hide Round, Run, PastCode, AtCode, NumberText, CodeInput;
    RunStep(buf, p);
    if Ended(buf, p) {
      EndedHasNoInput(buf, p);
    } else {
      InputStep(buf, p);
      RoundProgress(buf, p);
      CodeOfInput(buf, Round(buf, p));
      if AtCode(buf, p) {
        CodeRead(buf, p);
        NoInputPast(buf, Round(buf, p));
      } else {
        NoCodeYet(buf, p);
      }
    }
  }

  lemma EndedHasNoInput(buf: string, p: Parser)
    requires Ok(buf, p) && Ended(buf, p)
    ensures CodeInput(buf, p) == None
  {}

  /** With more input strtoul is handed more, at the same place. */
  lemma {:induction false} InputExtends(buf: string, e: string, p: Parser)
    requires Ok(buf, p) && CodeInput(buf, p).Some?
    ensures Ok(buf + e, p) && CodeInput(buf + e, p) == Some(CodeInput(buf, p).value + e)
    decreases |buf| - p.ptr, Rank(p)
  {
    hide Round, AtCode, CodeInput;
    if Ended(buf, p) { EndedHasNoInput(buf, p); assert false; }
    AtCodeExtends(buf, e, p);
    InputStep(buf, p);
    InputStep(buf + e, p);
    RoundProgress(buf, p);
    if AtCode(buf, p) {
      assert (buf + e)[p.word..] == buf[p.word..] + e;
    } else {
      RoundExtends(buf, e, p);
      InputExtends(buf, e, Round(buf, p));
    }
  }

  // Nothing behind the response code depends on it.

  function WithCode(p: Parser, c: Option<string>): Parser { p.(f := p.f.(code := c)) }

  lemma RoundIgnoresCode(buf: string, p: Parser, c: Option<string>)
    requires Ok(buf, p) && !Ended(buf, p) && PastCode(p)
    ensures Round(buf, WithCode(p, c)) == WithCode(Round(buf, p), c)
  {
    hide Dup, NumberText, OpCodeOf, SetVal, SetKey;
  }

  lemma {:induction false} RunIgnoresCode(buf: string, p: Parser, c: Option<string>)
    requires Ok(buf, p) && PastCode(p)
    ensures Run(buf, WithCode(p, c)) == WithCode(Run(buf, p), c)
    decreases |buf| - p.ptr, Rank(p)
  {
    hide Round, Run, PastCode;
    RunStep(buf, p);
    RunStep(buf, WithCode(p, c));
    if !Ended(buf, p) {
      RoundProgress(buf, p);
      PastStays(buf, p);
      RoundIgnoresCode(buf, p, c);
      RunIgnoresCode(buf, Round(buf, p), c);
    }
  }

  /** At the response code more input only changes the characters converted, if there are any. */
  lemma RoundAtCode(buf: string, e: string, p: Parser)
    requires Ok(buf, p) && !Ended(buf, p) && AtCode(buf, p)
    requires NumberText(buf[p.word..]) != [] && NumberText(buf[p.word..] + e) != []
    ensures Round(buf + e, p) == WithCode(Round(buf, p), Some(NumberText(buf[p.word..] + e)))
  {
    hide NumberText;
    assert (buf + e)[p.word..] == buf[p.word..] + e;
  }

  /** More input behind a saturated number changes nothing but the characters converted. */
  lemma {:induction false} SaturatedRun(buf: string, e: string, p: Parser)
    requires Ok(buf, p) && Stopped(Run(buf, p))
    requires CodeInput(buf, p).Some? && Saturated(CodeInput(buf, p).value)
    ensures Ok(buf + e, p)
    ensures Run(buf + e, p) == WithCode(Run(buf, p), Some(NumberText(CodeInput(buf, p).value + e)))
    decreases |buf| - p.ptr, Rank(p)
  {
    hide Round, Run, AtCode, PastCode, NumberText, Saturated, CodeInput, WithCode;
    if Ended(buf, p) { EndedHasNoInput(buf, p); assert false; }
    AtCodeExtends(buf, e, p);
    RunStep(buf, p);
    RunStep(buf + e, p);
    InputStep(buf, p);
    RoundProgress(buf, p);
    if AtCode(buf, p) {
      SaturatedStays(buf[p.word..], e);
      RoundAtCode(buf, e, p);
      CodeRead(buf, p);
      var q := Round(buf, p);
      NoInputPast(buf, q);
      RunExtends(buf, e, q);
      RunIgnoresCode(buf + e, q, Some(NumberText(buf[p.word..] + e)));
    } else {
      RoundExtends(buf, e, p);
      SaturatedRun(buf, e, Round(buf, p));
    }
  }

  lemma AtCodeExtends(buf: string, e: string, p: Parser)
    requires Ok(buf, p) && p.ptr < |buf|
    ensures AtCode(buf + e, p) == AtCode(buf, p) && Ended(buf + e, p) == Ended(buf, p)
  {}

  /** Complete and failed results are the final ones. */
  predicate Final(o: Outcome) { !o.Incomplete? }

  /**
   * A final result survives every extension of the buffer exactly when strtoul, if the run asked it at all, can tell
   * the end of the number or finds it saturated.
   */
  lemma StableExactly(buf: string)
    requires Final(Parse(buf))
    ensures (forall e :: SameResult(Parse(buf + e), Parse(buf))) <==> CodeStable(CodeInput(buf, Start()))
  {
    hide Run, CodeInput, Settled, Saturated, SameResult;
    if CodeStable(CodeInput(buf, Start())) {
      forall e ensures SameResult(Parse(buf + e), Parse(buf)) { StableResult(buf, e); }
    } else {
      var e := UnstableCode(buf);
      assert !SameResult(Parse(buf + e), Parse(buf));
    }
  }

  /** One half: with a settled number even the characters converted stay the same. */
  lemma StableResult(buf: string, e: string)
    requires Final(Parse(buf)) && CodeStable(CodeInput(buf, Start()))
    ensures SameResult(Parse(buf + e), Parse(buf))
    ensures CodeSettled(CodeInput(buf, Start())) ==> Parse(buf + e) == Parse(buf)
  {
    hide Run, CodeInput, Settled, Saturated, NumberText, ToInt, ULong, ContentLength, Lookup;
    if CodeSettled(CodeInput(buf, Start())) {
      RunExtends(buf, e, Start());
    } else {
      var s := CodeInput(buf, Start()).value;
      SaturatedStays(s, e);
      SaturatedRun(buf, e, Start());
      CodeOfInput(buf, Start());
    }
  }

  /** The other half: one more digit changes the response code. */
  lemma UnstableCode(buf: string) returns (e: string)
    requires Final(Parse(buf)) && !CodeStable(CodeInput(buf, Start()))
    ensures (e == "0" || e == "1") && !SameResult(Parse(buf + e), Parse(buf))
  {
    hide Run, CodeInput, Settled, Saturated, NumberText, ToInt, ULong, ContentLength, Lookup;
    var s := CodeInput(buf, Start()).value;
    UnsettledMoves(s);
    e := if IntValue(s + "0") != IntValue(s) then "0" else "1";
    InputExtends(buf, e, Start());
    CodeOfInput(buf, Start());
    CodeOfInput(buf + e, Start());
  }

  /** Requests, and everything else without a response code, are always stable. */
  lemma RequestsAreStable(buf: string, e: string)
    requires Final(Parse(buf)) && Parse(buf).fields.code == None
    ensures Parse(buf + e) == Parse(buf)
  {
    CodeOfInput(buf, Start());
    hide Run, CodeInput;
    RunExtends(buf, e, Start());
  }

  /** The code field: the characters from the word on to the blank at which strtoul is asked. */
  ghost function CodeField(buf: string, p: Parser): Option<string>
    requires Ok(buf, p)
    decreases |buf| - p.ptr, Rank(p)
  {
    if Ended(buf, p) then None
    else
      RoundProgress(buf, p);
      if AtCode(buf, p) then Some(buf[p.word..p.ptr]) else CodeField(buf, Round(buf, p))
  }

  /** strtoul is handed the code field, the blank behind it and all that follows. */
  lemma {:induction false} FieldInFront(buf: string, p: Parser)
    requires Ok(buf, p)
    ensures CodeField(buf, p).Some? <==> CodeInput(buf, p).Some?
    ensures CodeField(buf, p).Some? ==>
      var field, s := CodeField(buf, p).value, CodeInput(buf, p).value;
      field < s && (IsBlank(s[|field|]) || s[|field|] == '\n')
    decreases |buf| - p.ptr, Rank(p)
  {
    hide Round;
    if !Ended(buf, p) {
      RoundProgress(buf, p);
      if !AtCode(buf, p) { FieldInFront(buf, Round(buf, p)); }
    }
  }

  /** So is a response whose code field holds a visible character. */
  lemma VisibleCodeSettles(buf: string, j: nat)
    requires CodeField(buf, Start()).Some?
    requires j < |CodeField(buf, Start()).value| && !IsSpace(CodeField(buf, Start()).value[j])
    ensures CodeSettled(CodeInput(buf, Start()))
    ensures Final(Parse(buf)) ==> forall e :: Parse(buf + e) == Parse(buf)
  {
    hide CodeField, CodeInput, Settled, IsSpace, Parse;
    FieldInFront(buf, Start());
    var field, s := CodeField(buf, Start()).value, CodeInput(buf, Start()).value;
    assert s[j] == field[j];
    VisibleSettles(s, j, |field|);
    if Final(Parse(buf)) {
      forall e ensures Parse(buf + e) == Parse(buf) { StableResult(buf, e); }
    }
  }

  lemma {:induction false} RunInside(buf: string, p: Parser)
    requires Ok(buf, p)
    ensures Run(buf, p).ptr <= |buf|
    decreases |buf| - p.ptr, Rank(p)
  {
    hide Round, Run;
    RunStep(buf, p);
    if !Ended(buf, p) {
      RoundProgress(buf, p);
      RunInside(buf, Round(buf, p));
    }
  }

  /** No proper prefix of a complete header is final, as long as its own response code is stable. */
  lemma PrefixIncomplete(buf: string, n: nat)
    requires Parse(buf).Complete? && n < Parse(buf).headerLen
    requires n <= |buf| && CodeStable(CodeInput(buf[..n], Start()))
    ensures Parse(buf[..n]) == Incomplete
  {
    hide Run, CodeInput, CodeStable, CodeSettled, Parse, SameFields;
    assert buf[..n] + buf[n..] == buf;
    if Final(Parse(buf[..n])) {
      StableResult(buf[..n], buf[n..]);
      HeaderInside(buf[..n]);
    }
  }

  lemma HeaderInside(buf: string)
    requires Parse(buf).Complete?
    ensures Parse(buf).headerLen <= |buf|
  {
    hide Run;
    RunInside(buf, Start());
  }

  lemma NoCodeYet(buf: string, p: Parser)
    requires Ok(buf, p) && !Ended(buf, p) && !AtCode(buf, p)
    ensures Round(buf, p).f.code == p.f.code
  {
    hide Word, NumberText, SetVal, SetKey, OpCodeOf;
  }

  /** Every proper prefix of a complete request header is incomplete. */
  lemma RequestPrefixIncomplete(buf: string, n: nat)
    requires Parse(buf).Complete? && Parse(buf).fields.code == None && n < Parse(buf).headerLen
    ensures n <= |buf| && Parse(buf[..n]) == Incomplete
  {
    hide Run, CodeInput;
    RunInside(buf, Start());
    assert buf[..n] + buf[n..] == buf;
    CodeOfInput(buf, Start());
    if CodeInput(buf[..n], Start()).Some? { InputExtends(buf[..n], buf[n..], Start()); }
    PrefixIncomplete(buf, n);
  }
}
