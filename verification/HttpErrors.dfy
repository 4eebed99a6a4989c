/** Where a header is refused, and what http_header_parse returns for it (http.c:10-24, 120-125 and 307-310). */
module HttpErrors {
  import opened Bytes
  import opened HttpText
  import opened Http
  import opened HttpParser
  import opened HttpRoundTrip

  /** The parser gave up in this state. */
  predicate RefusedIn(o: Outcome, s: State) {
    o.Failed? && o.fields.error.Some? && o.fields.error.value.state == s
  }

  lemma Refused(buf: string, p: Parser, s: State)
    requires Ok(buf, p) && !Ended(buf, p) && Run(buf, Start()) == Run(buf, p) && p.state == s
    requires Round(buf, p).state == Error && Round(buf, p).f.error.Some? && Round(buf, p).f.error.value.state == s
    ensures RefusedIn(Parse(buf), s)
  {
    hide Run, Round;
    RunStep(buf, p);
    RunStep(buf, Round(buf, p));
  }

  /** A line that ends behind its first word. */
  lemma WordAlone(w: string, more: string)
    requires Visible(w)
    ensures RefusedIn(Parse(w + ("\n" + more)), Op)
  {
    hide Run, Plain, IsSpace, Dup, Parse, Visible, Holds;
    var buf := w + ("\n" + more);
    HoldsAll(buf);
    HoldsBoth(buf, 0, w, "\n" + more);
    HoldsAt(buf, |w|, "\n" + more, 0);
    VisiblePlain(buf, 0, w, Op);
    StartOp(buf);
    RunOver(buf, Rescan(Start(), Op), |w|);
    Refused(buf, Rescan(Start(), Op).(ptr := |w|), Op);
  }

  /** A response without a code. */
  lemma NoCode()
    ensures RefusedIn(Parse("HTTP/1.0 \n"), ResponseCode)
  {
    hide Run, Dup, Plain, Holds, NumberText, Settled, Parse;
    BlankNumber();
    var buf := "HTTP/1.0 \n";
    HoldsAll(buf);
    assert "HTTP/1.0" + " " + "\n" == buf;
    ToEmptyCode(buf);
    assert buf[9..] == "\n";
    Refused(buf, EmptyCode(), ResponseCode);
  }

  /** A request line that goes on behind its version. */
  lemma BehindVersion(op: string, uri: string, version: string, c: char, more: string)
    requires Visible(op) && !("HTTP/" <= op) && Visible(uri) && Visible(version) && Visible([c])
    ensures RefusedIn(Parse(op + (" " + (uri + (" " + (version + (" " + ([c] + more))))))), HeaderBol)
  {
    hide Run, Plain, IsSpace, Dup, Parse, Visible, Holds, Round, OpCodeOf, Kept;
    var behind := version + (" " + ([c] + more));
    var buf := op + (" " + (uri + (" " + behind)));
    HoldsAll(buf);
    WordHeld(buf, 0, op, " ", uri + (" " + behind));
    WordHeld(buf, |op| + 1, uri, " ", behind);
    ReadOp(buf, op);
    var p := Parser(|op| + 1, Space, Uri, 0, 0, 0, RequestFields(op));
    ReadUri(buf, p, uri);
    var i := p.ptr + |uri| + 1;
    var q := p.(ptr := i, word := p.ptr, next := Version, f := p.f.(uri := Some(Kept(uri))));
    WordHeld(buf, i, version, " ", [c] + more);
    HoldsBoth(buf, i, version, " ");
    HoldsAt(buf, i + |version|, " ", 0);
    HoldsAt(buf, i + |version| + 1, [c] + more, 0);
    VisiblePlain(buf, i, version, Version);
    SpaceIsBlank(buf[i]);
    StartWord(buf, q);
    var w := Rescan(q, Version);
    RunOver(buf, w, i + |version|);
    var e := w.(ptr := i + |version|);
    VersionBlank(buf, e);
    VisibleOne(c);
    LineGoesOn(buf, Round(buf, e));
  }

  lemma VisibleOne(c: char)
    requires Visible([c])
    ensures !IsBlank(c) && c != '\r' && c != '\n'
  {
    assert [c][0] == c;
  }

  lemma VersionBlank(buf: string, p: Parser)
    requires Ok(buf, p) && p.state == Version && p.ptr < |buf| && buf[p.ptr] == ' '
    ensures var q := Round(buf, p);
      Ok(buf, q) && q.state == Space && q.next == HeaderBol && q.ptr == p.ptr + 1 && Run(buf, p) == Run(buf, q)
  {
    hide Run, Word;
    RunStep(buf, p);
  }

  lemma LineGoesOn(buf: string, p: Parser)
    requires Ok(buf, p) && p.state == Space && p.next == HeaderBol && p.ptr < |buf|
    requires !IsBlank(buf[p.ptr]) && buf[p.ptr] != '\r' && buf[p.ptr] != '\n'
    requires Run(buf, Start()) == Run(buf, p)
    ensures RefusedIn(Parse(buf), HeaderBol)
  {
    hide Run, Parse;
    StartWord(buf, p);
    Refused(buf, Rescan(p, HeaderBol), HeaderBol);
  }

  /** A header name with something else than letters, digits and hyphens in it, or without a colon. */
  lemma BadName(r: Request, eol: string, k: char, c: char, more: string)
    requires Visible(r.op) && !("HTTP/" <= r.op) && Visible(r.uri) && Visible(r.version) && IsEol(eol) && Visible([k])
    requires !IsName(c) && c != ':' && c != '\r'
    ensures RefusedIn(Parse(r.op + (" " + (r.uri + (" " + (r.version + (eol + ([k, c] + more))))))), HeaderName)
  {
    hide Run, Plain, IsSpace, Dup, Parse, Visible, Holds, Round, OpCodeOf, Kept, IsName, IsEol;
    var behind := r.version + (eol + ([k, c] + more));
    var buf := r.op + (" " + (r.uri + (" " + behind)));
    HoldsAll(buf);
    WordHeld(buf, 0, r.op, " ", r.uri + (" " + behind));
    WordHeld(buf, |r.op| + 1, r.uri, " ", behind);
    WordHeld(buf, |r.op| + 1 + |r.uri| + 1, r.version, eol, [k, c] + more);
    var h := ReadRequestLine(buf, r, eol);
    HoldsAt(buf, h.ptr, [k, c] + more, 0);
    HoldsAt(buf, h.ptr, [k, c] + more, 1);
    NoHeadersYet(r.op);
    VisibleOne(k);
    NameBreaks(buf, h);
  }

  lemma NameBreaks(buf: string, p: Parser)
    requires Ok(buf, p) && p.state == HeaderStart && p.f.headers == [] && p.ptr + 1 < |buf|
    requires !IsBlank(buf[p.ptr]) && buf[p.ptr] != '\r' && buf[p.ptr] != '\n'
    requires var c := buf[p.ptr + 1]; !IsName(c) && c != ':' && c != '\r'
    requires Run(buf, Start()) == Run(buf, p)
    ensures RefusedIn(Parse(buf), HeaderName)
  {
    hide Run, Parse, Word, IsName;
    RunStep(buf, p);
    Refused(buf, Round(buf, p), HeaderName);
  }

  /** The return values that tell the four errors apart. */
  method ParseRefused(h: HttpHeader, r: Request, eol: string, k: char, c: char, more: string)
    returns (alone: int, uncoded: int, behind: int, unnamed: int)
    requires RequestOk(r) && IsEol(eol) && Visible([k]) && !IsName(c) && c != ':' && c != '\r'
    modifies h
    ensures alone == -3 && uncoded == -4 && behind == -8 && unnamed == -10
  {
    hide Http.Parse, Visible, IsName;
    WordAlone(r.op, more);
    alone := h.Parse(r.op + ("\n" + more));
    NoCode();
    uncoded := h.Parse("HTTP/1.0 \n");
    BehindVersion(r.op, r.uri, r.version, k, more);
    behind := h.Parse(r.op + (" " + (r.uri + (" " + (r.version + (" " + ([k] + more)))))));
    BadName(r, eol, k, c, more);
    unnamed := h.Parse(r.op + (" " + (r.uri + (" " + (r.version + (eol + ([k, c] + more)))))));
  }
}
