/** Blanks between words, blank lines in front of a message, and requests without a version (http.c:127-305). */
module HttpLayout {
  import opened Bytes
  import opened HttpText
  import opened Http
  import opened HttpRoundTrip

  /** The parser stands between words, or in front of the first. */
  predicate BetweenWords(p: Parser) {
    p.state == Space || p.state == Init
  }

  /** What is skipped there: blanks, and in front of the first word newlines as well. */
  predicate Skipped(p: Parser, gap: string) {
    forall i :: 0 <= i < |gap| ==> IsBlank(gap[i]) || (p.state == Init && gap[i] == '\n')
  }

  function WithoutError(f: Fields): Fields { f.(error := None) }

  /** The same result, n characters further on; an error is in the same state, wherever it is. */
  predicate SameFurther(a: Outcome, b: Outcome, n: nat) {
    match a
    case Complete(len, f, length, kind) => b == Complete(len + n, f, length, kind)
    case Incomplete => b.Incomplete?
    case Failed(f) =>
      b.Failed? && WithoutError(f) == WithoutError(b.fields) && f.error.Some? && b.fields.error.Some?
      && f.error.value.state == b.fields.error.value.state
  }

  /** q on the longer buffer does what p does on the shorter one. */
  predicate Further(p: Parser, q: Parser, from: nat, n: nat) {
    && p.ptr >= from && q.ptr == p.ptr + n && q.state == p.state && q.next == p.next
    && (BetweenWords(p) || (p.word >= from && q.word == p.word + n))
    && WithoutError(p.f) == WithoutError(q.f) && (p.f.error.Some? <==> q.f.error.Some?)
    && (p.f.error.Some? ==> p.f.error.value.state == q.f.error.value.state)
  }

  lemma TextFurther(a: string, gap: string, b: string, i: nat, j: nat)
    requires |a| <= i <= j <= |a + b|
    ensures (a + gap + b)[i + |gap|..j + |gap|] == (a + b)[i..j] && (a + gap + b)[i + |gap|..] == (a + b)[i..]
    ensures i < |a + b| ==> (a + gap + b)[i + |gap|] == (a + b)[i]
  {}

  /** Two parsers at the same character with the same word behind them. */
  predicate Alike(u: string, p: Parser, v: string, q: Parser, from: nat, n: nat) {
    && Further(p, q, from, n) && !BetweenWords(p)
    && p.word <= p.ptr < |u| && q.word <= q.ptr < |v| && u[p.ptr] == v[q.ptr]
    && u[p.word..p.ptr] == v[q.word..q.ptr] && u[p.word..] == v[q.word..]
  }

  lemma InOpFurther(u: string, p: Parser, v: string, q: Parser, from: nat, n: nat)
    requires Alike(u, p, v, q, from, n) && p.state == Op
    ensures Further(InOp(u, p), InOp(v, q), from, n)
  {
    hide Dup, NumberText, SetVal, SetKey, OpCodeOf, IsName;
  }

  lemma InCodeFurther(u: string, p: Parser, v: string, q: Parser, from: nat, n: nat)
    requires Alike(u, p, v, q, from, n) && p.state == ResponseCode
    ensures Further(InCode(u, p), InCode(v, q), from, n)
  {
    hide Dup, NumberText, SetVal, SetKey, OpCodeOf, IsName;
  }

  lemma InMessageFurther(u: string, p: Parser, v: string, q: Parser, from: nat, n: nat)
    requires Alike(u, p, v, q, from, n) && p.state == ResponseMessage
    ensures Further(InMessage(u, p), InMessage(v, q), from, n)
  {
    hide Dup, NumberText, SetVal, SetKey, OpCodeOf, IsName;
  }

  lemma InUriFurther(u: string, p: Parser, v: string, q: Parser, from: nat, n: nat)
    requires Alike(u, p, v, q, from, n) && p.state == Uri
    ensures Further(InUri(u, p), InUri(v, q), from, n)
  {
    hide Dup, NumberText, SetVal, SetKey, OpCodeOf, IsName;
  }

  lemma InVersionFurther(u: string, p: Parser, v: string, q: Parser, from: nat, n: nat)
    requires Alike(u, p, v, q, from, n) && p.state == Version
    ensures Further(InVersion(u, p), InVersion(v, q), from, n)
  {
    hide Dup, NumberText, SetVal, SetKey, OpCodeOf, IsName;
  }

  lemma InHeaderStartFurther(u: string, p: Parser, v: string, q: Parser, from: nat, n: nat)
    requires Alike(u, p, v, q, from, n) && p.state == HeaderStart
    ensures Further(InHeaderStart(u, p), InHeaderStart(v, q), from, n)
  {
    hide Dup, NumberText, SetVal, SetKey, OpCodeOf, IsName;
  }

  lemma InHeaderNameFurther(u: string, p: Parser, v: string, q: Parser, from: nat, n: nat)
    requires Alike(u, p, v, q, from, n) && p.state == HeaderName
    ensures Further(InHeaderName(u, p), InHeaderName(v, q), from, n)
  {
    hide Dup, NumberText, SetVal, SetKey, OpCodeOf, IsName;
  }

  lemma InStateFurther(u: string, p: Parser, v: string, q: Parser, from: nat, n: nat)
    requires Alike(u, p, v, q, from, n)
    ensures Further(InState(u, p), InState(v, q), from, n)
  {
    hide InOp, InCode, InMessage, InUri, InVersion, InHeaderStart, InHeaderName, Alike;
    AlikeHere(u, p, v, q, from, n);
    match p.state
    case Op => InOpFurther(u, p, v, q, from, n);
    case ResponseCode => InCodeFurther(u, p, v, q, from, n);
    case ResponseMessage => InMessageFurther(u, p, v, q, from, n);
    case Uri => InUriFurther(u, p, v, q, from, n);
    case Version => InVersionFurther(u, p, v, q, from, n);
    case HeaderStart => InHeaderStartFurther(u, p, v, q, from, n);
    case HeaderName => InHeaderNameFurther(u, p, v, q, from, n);
    case _ =>
  }

  lemma AlikeHere(u: string, p: Parser, v: string, q: Parser, from: nat, n: nat)
    requires Alike(u, p, v, q, from, n)
    ensures Further(p, q, from, n) && !BetweenWords(p)
    ensures p.word <= p.ptr < |u| && q.word <= q.ptr < |v| && u[p.ptr] == v[q.ptr]
  {}

  lemma RoundFurther(a: string, gap: string, b: string, p: Parser, q: Parser)
    requires Ok(a + b, p) && Ok(a + gap + b, q) && Further(p, q, |a|, |gap|) && p.ptr < |a + b|
    ensures Further(Round(a + b, p), Round(a + gap + b, q), |a|, |gap|)
  {
    hide Word, NumberText, SetVal, SetKey, OpCodeOf, IsName, InState;
    TextFurther(a, gap, b, p.ptr, p.ptr);
    var c := (a + b)[p.ptr];
    if c != '\r' {
      if BetweenWords(p) {
        StartsFurther(a + b, Newline(p, c), a + gap + b, Newline(q, c), |a|, |gap|);
      } else {
        TextFurther(a, gap, b, p.word, p.ptr);
        InStateFurther(a + b, Newline(p, c), a + gap + b, Newline(q, c), |a|, |gap|);
      }
    }
  }

  lemma StartsFurther(u: string, p: Parser, v: string, q: Parser, from: nat, n: nat)
    requires Further(p, q, from, n) && BetweenWords(p)
    requires p.word <= p.ptr < |u| && q.word <= q.ptr < |v| && u[p.ptr] == v[q.ptr]
    ensures Further(InState(u, p), InState(v, q), from, n)
  {}

  lemma EndedFurther(a: string, gap: string, b: string, p: Parser, q: Parser)
    requires Further(p, q, |a|, |gap|)
    ensures Ended(a + b, p) == Ended(a + gap + b, q)
  {}

  lemma {:induction false} RunFurther(a: string, gap: string, b: string, p: Parser, q: Parser)
    requires Ok(a + b, p) && Ok(a + gap + b, q) && Further(p, q, |a|, |gap|)
    ensures Further(Run(a + b, p), Run(a + gap + b, q), |a|, |gap|)
    decreases |a + b| - p.ptr, Rank(p)
  {
    hide Round, Run, Further;
    EndedFurther(a, gap, b, p, q);
    RunStep(a + b, p);
    RunStep(a + gap + b, q);
    if !Ended(a + b, p) {
      RoundProgress(a + b, p);
      InsideFurther(p, q, |a|, |gap|);
      RoundFurther(a, gap, b, p, q);
      RunFurther(a, gap, b, Round(a + b, p), Round(a + gap + b, q));
    }
  }

  lemma InsideFurther(p: Parser, q: Parser, from: nat, n: nat)
    requires Further(p, q, from, n)
    ensures p.ptr >= from
  {}

  /** A run that used up its buffer goes on from there when more is behind it. */
  lemma {:induction false} RunGoesOn(a: string, x: string, p: Parser)
    requires Ok(a, p) && CodeSettled(CodeInput(a, p)) && !Stopped(Run(a, p))
    ensures Ok(a + x, p) && Ok(a + x, Run(a, p)) && Run(a + x, p) == Run(a + x, Run(a, p))
    ensures Run(a, p).ptr >= |a| && Ok(a, Run(a, p))
    decreases |a| - p.ptr, Rank(p)
  {
    hide Round, Run, Settled, AtCode, CodeInput, PastCode;
    RunStep(a, p);
    if !Ended(a, p) {
      RunStep(a + x, p);
      AtCodeExtends(a, x, p);
      InputStep(a, p);
      RoundProgress(a, p);
      RoundExtends(a, x, p);
      if AtCode(a, p) {
        CodeRead(a, p);
        NoInputPast(a, Round(a, p));
      }
      RunGoesOn(a, x, Round(a, p));
    }
  }

  /** Going over the gap. */
  lemma {:induction false} RunOverGap(buf: string, p: Parser, gap: string) returns (q: Parser)
    requires Ok(buf, p) && BetweenWords(p) && Skipped(p, gap) && Holds(buf, p.ptr, gap)
    ensures Ok(buf, q) && Run(buf, p) == Run(buf, q)
    ensures q.ptr == p.ptr + |gap| && q.state == p.state && q.next == p.next && q.f == p.f
    decreases |gap|
  {
    hide Run;
    q := p;
    if gap != [] {
      HoldsAt(buf, p.ptr, gap, 0);
      HoldsRest(buf, p.ptr, gap);
      RunStep(buf, p);
      q := Round(buf, p);
      assert q.state == p.state && q.ptr == p.ptr + 1;
      q := RunOverGap(buf, q, gap[1..]);
    }
  }

  lemma HoldsRest(buf: string, i: nat, s: string)
    requires Holds(buf, i, s) && s != []
    ensures Holds(buf, i + 1, s[1..])
  {
    assert s == [s[0]] + s[1..];
    HoldsBoth(buf, i, [s[0]], s[1..]);
  }

  lemma SameConclusion(p: Parser, q: Parser, from: nat, n: nat)
    requires Further(p, q, from, n) && (p.state == Error <==> p.f.error.Some?)
    requires p.state != Error ==> p.f.error == None
    ensures SameFurther(Conclude(p), Conclude(q), n)
  {
    hide ContentLength, Lookup;
  }

  lemma {:induction false} ErrorsRecorded(buf: string, p: Parser)
    requires Ok(buf, p) && (p.state == Error <==> p.f.error.Some?)
    ensures Run(buf, p).state == Error <==> Run(buf, p).f.error.Some?
    decreases |buf| - p.ptr, Rank(p)
  {
    hide Run, Round;
    RunStep(buf, p);
    if !Ended(buf, p) {
      RoundProgress(buf, p);
      ErrorRecorded(buf, p);
      ErrorsRecorded(buf, Round(buf, p));
    }
  }

  lemma ErrorRecorded(buf: string, p: Parser)
    requires Ok(buf, p) && !Ended(buf, p) && p.f.error == None
    ensures Round(buf, p).state == Error <==> Round(buf, p).f.error.Some?
  {
    hide Word, NumberText, SetVal, SetKey, OpCodeOf;
  }

  /**
   * More blanks where the parser stands between two words, and blank lines in front of the first, do not matter: the
   * result is the same, that much further on.
   */
  lemma GapsDoNotMatter(a: string, gap: string, b: string)
    requires var p := Run(a, Start()); BetweenWords(p) && Skipped(p, gap)
    requires CodeSettled(CodeInput(a, Start()))
    ensures SameFurther(Parse(a + b), Parse(a + gap + b), |gap|)
  {
    var p := Run(a, Start());
    RunGoesOn(a, b, Start());
    RunGoesOn(a, gap + b, Start());
    RunInside(a, Start());
    Assoc(a, gap, b);
    hide Run, CodeInput, Settled, SameFurther, Conclude;
    HoldsGap(a, gap, b);
    var q := RunOverGap(a + gap + b, p, gap);
    RunFurther(a, gap, b, p, q);
    ErrorsRecorded(a + b, Start());
    SameConclusion(Run(a + b, p), Run(a + gap + b, q), |a|, |gap|);
  }

  lemma HoldsGap(a: string, gap: string, b: string)
    ensures Holds(a + gap + b, |a|, gap)
  {}

  // ---------------------------------------------------------------------------------------------
  // Requests that end behind the address
  // ---------------------------------------------------------------------------------------------

  /** A request line of two words, as in HTTP/0.9, and any headers. */
  function PrintShort(op: string, uri: string, hs: seq<(string, string)>, eol: string): string {
    op + (" " + (uri + (eol + HeaderLines(hs, eol))))
  }

  lemma ToUriEnd(buf: string, p: Parser, uri: string, eol: string) returns (q: Parser)
    requires Ok(buf, p) && p.state == Space && p.next == Uri
    requires Visible(uri) && IsEol(eol) && Holds(buf, p.ptr, uri + eol)
    ensures Ok(buf, q) && Run(buf, p) == Run(buf, q)
    ensures q.state == Space && q.next == HeaderStart && q.ptr == p.ptr + |uri| + |eol|
    ensures q.f == p.f.(uri := Some(Kept(uri)))
  {
    hide Run, Plain, IsSpace, Dup, Holds, Kept;
    var i := p.ptr;
    HoldsBoth(buf, i, uri, eol);
    EolAt(buf, i + |uri|, eol);
    var n := NewlineAt(i + |uri|, eol);
    VisiblePlain(buf, i, uri, Uri);
    SpaceIsBlank(buf[i]);
    StartWord(buf, p);
    var w := Rescan(p, Uri);
    CrPlain(buf, Uri, i + |uri|, n);
    PlainBoth(Uri, buf, i, i + |uri|, n);
    RunOver(buf, w, n);
    RunStep(buf, w.(ptr := n));
    HoldsSlice(buf, i, uri);
    assert buf[i..n] == uri + buf[i + |uri|..n];
    VisibleDup(uri, eol[..|eol| - 1]);
    q := Round(buf, w.(ptr := n));
  }

  /** The headers behind such a line. */
  lemma ReadBehindUri(buf: string, p: Parser, hs: seq<(string, string)>, eol: string)
    requires Ok(buf, p) && p.state == Space && p.next == HeaderStart && p.f.headers == []
    requires HeadersOk(hs) && IsEol(eol) && Holds(buf, p.ptr, HeaderLines(hs, eol))
    ensures Run(buf, p).state == Done && Run(buf, p).ptr == p.ptr + |HeaderLines(hs, eol)|
    ensures Run(buf, p).f == p.f.(headers := KeptHeaders(hs))
  {
    hide Run, Dup, Holds, HeaderLines, KeptHeaders, IsSpace, Plain;
    LinesStep(hs, eol);
    if hs == [] {
      EolAt(buf, p.ptr, eol);
      var n := NewlineAt(p.ptr, eol);
      CrPlain(buf, Space, p.ptr, n);
      RunOver(buf, p, n);
      BlankAfterUri(buf, p.(ptr := n));
      NoHeaders();
    } else {
      KeyInFront(buf, p.ptr, hs, eol);
      StartWord(buf, p);
      ReadHeaders(buf, Rescan(p, HeaderStart), hs, eol, [], []);
      assert [] + KeptHeaders(hs) == KeptHeaders(hs);
    }
  }

  lemma NoHeaders()
    ensures KeptHeaders([]) == []
  {}

  lemma BlankAfterUri(buf: string, p: Parser)
    requires Ok(buf, p) && p.state == Space && p.next == HeaderStart && p.f.headers == []
    requires p.ptr < |buf| && buf[p.ptr] == '\n'
    ensures Run(buf, p).state == Done && Run(buf, p).ptr == p.ptr + 1 && Run(buf, p).f == p.f
  {
    hide Run, Dup;
    RunStep(buf, p);
    var h := Round(buf, p);
    RunStep(buf, h);
    RunStep(buf, Round(buf, h));
  }

  lemma KeyInFront(buf: string, i: nat, hs: seq<(string, string)>, eol: string)
    requires hs != [] && HeadersOk(hs) && Holds(buf, i, HeaderLines(hs, eol))
    ensures i < |buf| && !IsBlank(buf[i]) && buf[i] != '\r' && buf[i] != '\n'
  {
    hide Holds, IsSpace;
    HoldsAt(buf, i, HeaderLines(hs, eol), 0);
    HeadersTail(hs);
    SpaceIsBlank(hs[0].0[0]);
  }

  /** Such a request is parsed to the end of its headers, with no version. */
  lemma ParseShort(op: string, uri: string, hs: seq<(string, string)>, eol: string, body: string)
    requires Visible(op) && !("HTTP/" <= op) && Visible(uri) && HeadersOk(hs) && IsEol(eol)
    ensures Parse(PrintShort(op, uri, hs, eol) + body) ==
      Complete(|PrintShort(op, uri, hs, eol)|, RequestFields(op).(uri := Some(Kept(uri)), headers := KeptHeaders(hs)),
               ContentLength(KeptHeaders(hs)), Lookup(KeptHeaders(hs), "content-type"))
  {
    hide Run, Holds, Visible, HeadersOk, IsEol, HeaderLines, KeptHeaders, ContentLength, Lookup, Ok, Kept, OpCodeOf;
    var lines := HeaderLines(hs, eol);
    var buf := PrintShort(op, uri, hs, eol);
    HoldsAll(buf);
    WordHeld(buf, 0, op, " ", uri + (eol + lines));
    WordHeld(buf, |op| + 1, uri, eol, lines);
    ReadOp(buf, op);
    var p := Parser(|op| + 1, Space, Uri, 0, 0, 0, RequestFields(op));
    var q := ToUriEnd(buf, p, uri, eol);
    ReadBehindUri(buf, q, hs, eol);
    hide PrintShort;
    RequestsAreStable(buf, body);
  }
}
