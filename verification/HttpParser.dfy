/** http_header_parse itself, working on an http_header_t (http.c:49-103 and 105-337). */
module HttpParser {
  import opened Bytes
  import opened HttpText
  import opened Http

  /** http_keyval_get: the value of the first header with the key, case ignored. */
  method KeyvalGet(hs: seq<Header>, key: string) returns (val: Option<string>)
    ensures val == Lookup(hs, key)
  {
    var i := 0;
    assert hs[0..] == hs;
    while i < |hs|
      invariant 0 <= i <= |hs| && Lookup(hs[i..], key) == Lookup(hs, key)
    {
      assert hs[i..][1..] == hs[i + 1..];
      if hs[i].key.Some? && SameIgnoringCase(hs[i].key.value, key) { return hs[i].val; }
      i := i + 1;
    }
    return None;
  }

  /** What the lookup finds: nothing when no key matches, else the value behind the first key that does. */
  lemma {:induction false} LookupFirst(hs: seq<Header>, key: string, i: nat)
    requires i <= |hs|
    requires forall j :: 0 <= j < i ==> hs[j].key.Some? ==> !SameIgnoringCase(hs[j].key.value, key)
    ensures i == |hs| ==> Lookup(hs, key) == None
    ensures i < |hs| && hs[i].key.Some? && SameIgnoringCase(hs[i].key.value, key) ==> Lookup(hs, key) == hs[i].val
    decreases |hs|
  {
    hide SameIgnoringCase;
    if i > 0 {
      assert hs[1..] != [] ==> hs[1..][0] == hs[1];
      LookupFirst(hs[1..], key, i - 1);
    }
  }

  class HttpHeader {
    // http_header_t
    var op: Option<string>
    var opCode: OpCode
    var responseCode: int
    ghost var codeText: Option<string>
    var responseMessage: Option<string>
    var uri: Option<string>
    var httpVersion: Option<string>
    var headers: seq<Header>
    var error: Option<Where>
    var headerLen: nat
    var contentLen: nat
    var totalLen: nat
    var contentType: Option<string>
    // the local variables of http_header_parse
    var ptr: nat
    var state: State
    var next: State
    var word: nat
    var line: nat
    var lineStart: nat

    ghost function View(): Fields
      reads this
    {
      Fields(op, opCode, codeText, responseMessage, uri, httpVersion, headers, error)
    }

    ghost function Local(): Parser
      reads this
    {
      Parser(ptr, state, next, word, line, lineStart, View())
    }

    /** The response code is the value of the characters converted for it, or zero. */
    ghost predicate CodeOk()
      reads this
    {
      responseCode == CodeValue(codeText)
    }

    /** http_header_clear. */
    method Clear()
      modifies this
      ensures View() == Start().f && CodeOk()
      ensures headerLen == totalLen == contentLen == 0 && contentType == None
    {
      op, opCode, responseCode, responseMessage, uri, httpVersion := None, Unknown, 0, None, None, None;
      headers, error, headerLen, totalLen, contentLen, contentType := [], None, 0, 0, 0, None;
      codeText := None;
    }

    method ParseError()
      requires CodeOk()
      modifies this
      ensures CodeOk()
      ensures Local() == Fail(old(Local()))
    {
      error := Some(Where(state, line, ptr - lineStart));
      state, ptr := Error, ptr + 1;
    }

    method OpState(buf: string)
      requires word <= ptr < |buf|
      requires CodeOk()
      modifies this
      ensures CodeOk()
      ensures Local() == InOp(buf, old(Local()))
    {
      hide Dup;
      if buf[ptr] == '\n' { ParseError(); return; }
      if IsBlank(buf[ptr]) {
        var w := Strdup(buf[word..ptr]);
        op := Some(w);
        if "HTTP/" <= w {
          httpVersion := op;
          op := None;
          opCode := Response;
          state, next := Space, ResponseCode;
        } else {
          if w == "GET" { opCode := Get; }
          else if w == "PUT" { opCode := Put; }
          else if w == "POST" { opCode := Post; }
          else { opCode := Unknown; }
          state, next := Space, Uri;
        }
      }
      ptr := ptr + 1;
    }

    method CodeState(buf: string)
      requires word <= ptr < |buf| && state == ResponseCode
      requires CodeOk()
      modifies this
      ensures CodeOk()
      ensures Local() == InCode(buf, old(Local()))
    {
      hide NumberText;
      if IsBlank(buf[ptr]) || buf[ptr] == '\n' {
        var number := NumberText(buf[word..]);
        responseCode := ToInt(ULong(number));
        codeText := Some(number);
        if number == [] { ParseError(); return; }
        state, next := Space, ResponseMessage;
        if buf[ptr] == '\n' { state := HeaderStart; }
      }
      ptr := ptr + 1;
    }

    method MessageState(buf: string)
      requires word <= ptr < |buf|
      requires CodeOk()
      modifies this
      ensures CodeOk()
      ensures Local() == InMessage(buf, old(Local()))
    {
      hide Dup;
      if buf[ptr] == '\n' {
        var w := Strdup(buf[word..ptr]);
        responseMessage := Some(w);
        state := HeaderStart;
      }
      ptr := ptr + 1;
    }

    method UriState(buf: string)
      requires word <= ptr < |buf| && state == Uri
      requires CodeOk()
      modifies this
      ensures CodeOk()
      ensures Local() == InUri(buf, old(Local()))
    {
      hide Dup;
      if IsBlank(buf[ptr]) || buf[ptr] == '\n' {
        var w := Strdup(buf[word..ptr]);
        uri := Some(w);
        state, next := Space, Version;
      }
      if buf[ptr] == '\n' { next := HeaderStart; }
      ptr := ptr + 1;
    }

    method VersionState(buf: string)
      requires word <= ptr < |buf|
      requires CodeOk()
      modifies this
      ensures CodeOk()
      ensures Local() == InVersion(buf, old(Local()))
    {
      hide Dup;
      if IsBlank(buf[ptr]) || buf[ptr] == '\n' {
        var w := Strdup(buf[word..ptr]);
        httpVersion := Some(w);
        if buf[ptr] == '\n' { state := HeaderStart; } else { state, next := Space, HeaderBol; }
      }
      ptr := ptr + 1;
    }

    method HeaderState(buf: string)
      requires word <= ptr < |buf| && state == HeaderStart
      requires CodeOk()
      modifies this
      ensures CodeOk()
      ensures Local() == InHeaderStart(buf, old(Local()))
    {
      hide Dup;
      if IsBlank(buf[ptr]) {
        state := HeaderVal;
      } else {
        if headers != [] {
          var w := Strdup(buf[word..ptr]);
          headers := headers[|headers| - 1 := headers[|headers| - 1].(val := Some(w))];
        }
        if buf[ptr] == '\n' {
          state := Done;
        } else {
          headers := headers + [Header(None, None)];
          word := ptr;
          state := HeaderName;
        }
      }
      ptr := ptr + 1;
    }

    method NameState(buf: string)
      requires word <= ptr < |buf| && state == HeaderName && headers != []
      requires CodeOk()
      modifies this
      ensures CodeOk()
      ensures Local() == InHeaderName(buf, old(Local()))
    {
      hide Dup;
      if !IsName(buf[ptr]) {
        if buf[ptr] != ':' { ParseError(); return; }
        var w := Strdup(buf[word..ptr]);
        headers := headers[|headers| - 1 := headers[|headers| - 1].(key := Some(w))];
        state, next := Space, HeaderVal;
      }
      ptr := ptr + 1;
    }

    /** The switch; INIT and SPACE step the pointer back to look at the character again. */
    method Switch(buf: string)
      requires word <= ptr < |buf| && (state == HeaderName ==> headers != [])
      requires CodeOk()
      modifies this
      ensures CodeOk()
      ensures Local() == InState(buf, old(Local()))
    {
      hide InOp, InCode, InMessage, InUri, InVersion, InHeaderStart, InHeaderName;
      match state
      case Init =>
        if !IsBlank(buf[ptr]) && buf[ptr] != '\n' { state, word := Op, ptr; } else { ptr := ptr + 1; }
      case Space =>
        if !IsBlank(buf[ptr]) { state, word := next, ptr; } else { ptr := ptr + 1; }
      case Op => OpState(buf);
      case ResponseCode => CodeState(buf);
      case ResponseMessage => MessageState(buf);
      case Uri => UriState(buf);
      case Version => VersionState(buf);
      case HeaderBol =>
        if buf[ptr] != '\n' { ParseError(); } else { state, ptr := HeaderStart, ptr + 1; }
      case HeaderStart => HeaderState(buf);
      case HeaderName => NameState(buf);
      case HeaderVal =>
        if buf[ptr] == '\n' { state := HeaderStart; }
        ptr := ptr + 1;
      case Done =>
      case Error =>
    }

    method Turn(buf: string)
      requires word <= ptr < |buf| && (state == HeaderName ==> headers != [])
      requires CodeOk()
      modifies this
      ensures CodeOk()
      ensures Local() == Round(buf, old(Local()))
    {
      hide InState;
      if buf[ptr] == '\r' { ptr := ptr + 1; return; }
      if buf[ptr] == '\n' { line, lineStart := line + 1, ptr; }
      Switch(buf);
    }

    method Loop(buf: string)
      requires Local() == Start()
      requires CodeOk()
      modifies this
      ensures CodeOk()
      ensures Local() == Run(buf, Start()) && (state == Error <==> error.Some?)
    {
      hide Run, Round, InState;
      RunStep(buf, Local());
      while ptr < |buf| && state != Done && state != Error
        invariant CodeOk() && Ok(buf, Local()) && Run(buf, Local()) == Run(buf, Start()) && HasHeader(Local())
        decreases |buf| - ptr, Rank(Local())
      {
        RunStep(buf, Local());
        RoundProgress(buf, Local());
        HeaderKept(buf, Local());
        Turn(buf);
      }
      RunStep(buf, Local());
    }

    /** What a complete header says about the content behind it (http.c:316-335). */
    method SetLengths()
      modifies `headerLen, `totalLen, `contentLen, `contentType
      ensures headerLen == ptr && contentType == Lookup(headers, "content-type")
      ensures contentLen == LengthValue(ContentLength(headers)) && totalLen == (ptr + contentLen) % ULONG_SIZE
    {
      hide NumberText, Lookup, ULong;
      headerLen, totalLen, contentLen := ptr, ptr % ULONG_SIZE, 0;
      var length := KeyvalGet(headers, "content-length");
      if length.Some? {
        contentLen := ULong(NumberText(length.value));
        SizeAdds(ptr, contentLen);
        totalLen := (totalLen + contentLen) % ULONG_SIZE;
      }
      contentType := KeyvalGet(headers, "content-type");
    }

    /**
     * http_header_parse: 1 with the whole header, 0 with nothing, or minus the state of the error. Numbers are the
     * values of the characters converted, and the total length is what a size_t makes of header and content.
     */
    method Parse(buf: string) returns (r: int)
      modifies this
      ensures CodeOk()
      ensures match Http.Parse(buf)
        case Complete(len, f, length, kind) =>
          && r == 1 && View() == f && headerLen == len && contentType == kind
          && contentLen == LengthValue(length) && totalLen == (len + contentLen) % ULONG_SIZE
        case Incomplete => r == 0 && View() == Start().f && headerLen == totalLen == contentLen == 0
        case Failed(f) => View() == f && f.error.Some? && r == -Code(f.error.value.state)
    {
      hide Run, Lookup, LengthValue, ContentLength, CodeValue;
      Clear();
      ptr, state, next, word, line, lineStart := 0, Init, Init, 0, 0, 0;
      Loop(buf);
      if state == Error { return -Code(error.value.state); }
      if state != Done {
        Clear();
        return 0;
      }
      SetLengths();
      return 1;
    }
  }

  lemma SizeAdds(a: nat, b: nat)
    ensures (a % ULONG_SIZE + b) % ULONG_SIZE == (a + b) % ULONG_SIZE
  {
    var q, s := a / ULONG_SIZE, (a % ULONG_SIZE + b) / ULONG_SIZE;
    assert a + b == ULONG_SIZE * (q + s) + (a % ULONG_SIZE + b) % ULONG_SIZE;
  }

  function LengthValue(text: Option<string>): nat {
    match text case None => 0 case Some(s) => ULong(s)
  }

  /** A header name belongs to a header, and errors are recorded. */
  ghost predicate HasHeader(p: Parser) {
    && (p.state == HeaderName ==> p.f.headers != [])
    && (p.state == Space ==> p.next != HeaderName)
    && (p.state == Error <==> p.f.error.Some?)
  }

  lemma HeaderKept(buf: string, p: Parser)
    requires Ok(buf, p) && p.ptr < |buf| && !Stopped(p) && HasHeader(p)
    ensures HasHeader(Round(buf, p))
  {
    hide Word, NumberText, OpCodeOf;
  }
}
