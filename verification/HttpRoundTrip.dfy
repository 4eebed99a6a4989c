/** Printing a request and parsing it again (http.c:105-337). */
module HttpRoundTrip {
  import opened Bytes
  import opened HttpText
  import opened Http

  datatype Request = Request(op: string, uri: string, version: string, headers: seq<(string, string)>)

  /** Lines end in a newline, with or without a carriage return. */
  predicate IsEol(eol: string) { eol == "\n" || eol == "\r\n" }

  function HeaderLines(hs: seq<(string, string)>, eol: string): string {
    if hs == [] then eol else hs[0].0 + (": " + (hs[0].1 + (eol + HeaderLines(hs[1..], eol))))
  }

  function Print(r: Request, eol: string): string {
    r.op + (" " + (r.uri + (" " + (r.version + (eol + HeaderLines(r.headers, eol))))))
  }

  predicate Visible(s: string) {
    s != [] && forall i :: 0 <= i < |s| ==> !IsSpace(s[i]) && s[i] != '\0'
  }

  predicate IsKey(s: string) {
    Visible(s) && forall i :: 1 <= i < |s| ==> IsName(s[i])
  }

  /** A character of a header value: a newline only in front of a blank. */
  predicate ValChar(s: string, i: nat)
    requires i < |s|
  {
    s[i] != '\r' && s[i] != '\0' && (s[i] == '\n' ==> i + 1 < |s| && IsBlank(s[i + 1]))
  }

  /** A header value, over several lines if each new one begins with a blank. */
  predicate IsVal(s: string) {
    Tight(s) && forall i :: 0 <= i < |s| ==> ValChar(s, i)
  }

  /** One that stays on its line. */
  predicate IsLine(s: string) { IsVal(s) && '\n' !in s }

  predicate HeadersOk(hs: seq<(string, string)>) {
    forall i :: 0 <= i < |hs| ==> IsKey(hs[i].0) && IsVal(hs[i].1)
  }

  predicate RequestOk(r: Request) {
    Visible(r.op) && !("HTTP/" <= r.op) && Visible(r.uri) && Visible(r.version) && HeadersOk(r.headers)
  }

  /** What http_strdup leaves of a word. */
  function Kept(s: string): string { if |s| == 1 then [] else s }

  function KeptHeaders(hs: seq<(string, string)>): seq<Header> {
    if hs == [] then [] else [Header(Some(Kept(hs[0].0)), Some(Kept(hs[0].1)))] + KeptHeaders(hs[1..])
  }

  /** Characters that leave the state as it is. */
  predicate Plain(s: State, c: char) {
    match s
    case Space => IsBlank(c) || c == '\r'
    case Op => !IsBlank(c) && c != '\n'
    case Uri => !IsBlank(c) && c != '\n'
    case Version => !IsBlank(c) && c != '\n'
    case HeaderName => IsName(c)
    case HeaderStart => c == '\r'
    case HeaderVal => c != '\n'
    case ResponseCode => !IsBlank(c) && c != '\n'
    case ResponseMessage => c != '\n'
    case _ => false
  }

  lemma PlainRound(buf: string, p: Parser)
    requires Ok(buf, p) && p.ptr < |buf| && Plain(p.state, buf[p.ptr])
    ensures Round(buf, p) == Skip(p) && !Ended(buf, p)
  {}

  predicate AllPlain(s: State, buf: string, i: nat, j: nat)
    requires j <= |buf|
  {
    forall k :: i <= k < j ==> Plain(s, buf[k])
  }

  lemma {:induction false} RunOver(buf: string, p: Parser, j: nat)
    requires Ok(buf, p) && p.ptr <= j <= |buf| && AllPlain(p.state, buf, p.ptr, j)
    ensures Run(buf, p) == Run(buf, p.(ptr := j))
    decreases j - p.ptr
  {
    hide Round, Run, Plain, IsSpace;
    if p.ptr < j {
      PlainRound(buf, p);
      RunStep(buf, p);
      RunOver(buf, Skip(p), j);
    }
  }

  /** s stands at position i. */
  predicate Holds(buf: string, i: nat, s: string) {
    i + |s| <= |buf| && buf[i..i + |s|] == s
  }

  lemma HoldsBoth(buf: string, i: nat, s: string, t: string)
    requires Holds(buf, i, s + t)
    ensures Holds(buf, i, s) && Holds(buf, i + |s|, t)
  {
    assert buf[i..i + |s|] == buf[i..i + |s + t|][..|s|];
    assert buf[i + |s|..i + |s| + |t|] == buf[i..i + |s + t|][|s|..];
  }

  lemma HoldsAt(buf: string, i: nat, s: string, k: nat)
    requires Holds(buf, i, s) && k < |s|
    ensures i + k < |buf| && buf[i + k] == s[k]
  {
    assert buf[i..i + |s|][k] == buf[i + k];
  }

  lemma VisiblePlain(buf: string, i: nat, s: string, st: State)
    requires Holds(buf, i, s) && Visible(s) && st in {Op, Uri, Version}
    ensures AllPlain(st, buf, i, i + |s|)
    ensures i < |buf| && !IsSpace(buf[i])
  {
    hide IsSpace, Holds;
    forall k | i <= k < i + |s| ensures k < |buf| && buf[k] == s[k - i] && Plain(st, buf[k]) {
      HoldsAt(buf, i, s, k - i);
      SpaceIsBlank(s[k - i]);
    }
    HoldsAt(buf, i, s, 0);
    assert Holds(buf, i, s);
  }

  lemma SpaceIsBlank(c: char)
    ensures !IsSpace(c) ==> !IsBlank(c) && c != '\n' && c != '\r'
  {}

  lemma HoldsInside(buf: string, i: nat, s: string)
    requires Holds(buf, i, s)
    ensures i + |s| <= |buf|
  {}

  lemma VisibleDup(s: string, b: string)
    requires Visible(s) && (b == [] || b == "\r")
    ensures Dup(s + b) == Kept(s)
  {
    hide Dup;
    assert Tight(s) && '\r' !in s && '\0' !in s;
    DupTight(s, b);
  }

  /** Behind blanks, a visible character starts the next word. */
  lemma StartWord(buf: string, p: Parser)
    requires Ok(buf, p) && p.state == Space && p.ptr < |buf| && !IsBlank(buf[p.ptr]) && buf[p.ptr] != '\r'
      && buf[p.ptr] != '\n'
    ensures Ok(buf, Rescan(p, p.next)) && Run(buf, p) == Run(buf, Rescan(p, p.next))
  {
    hide Run;
    RunStep(buf, p);
  }

  lemma StartOp(buf: string)
    requires buf != [] && !IsSpace(buf[0])
    ensures Run(buf, Start()) == Run(buf, Rescan(Start(), Op))
  {
    hide Run;
    RunStep(buf, Start());
  }

  function RequestFields(op: string): Fields {
    Fields(Some(Kept(op)), OpCodeOf(Kept(op)), None, None, None, None, [], None)
  }

  lemma ReadOp(buf: string, op: string)
    requires Visible(op) && !("HTTP/" <= op) && Holds(buf, 0, op + " ")
    ensures var p := Parser(|op| + 1, Space, Uri, 0, 0, 0, RequestFields(op));
      Ok(buf, p) && Run(buf, Start()) == Run(buf, p)
  {
    hide Run, Plain, IsSpace, Dup;
    HoldsBoth(buf, 0, op, " ");
    HoldsAt(buf, |op|, " ", 0);
    VisiblePlain(buf, 0, op, Op);
    StartOp(buf);
    var p := Rescan(Start(), Op);
    RunOver(buf, p, |op|);
    RunStep(buf, p.(ptr := |op|));
    assert buf[0..|op|] == op + [];
    VisibleDup(op, []);
  }

  lemma ReadUri(buf: string, p: Parser, uri: string)
    requires Ok(buf, p) && p.state == Space && p.next == Uri && Visible(uri) && Holds(buf, p.ptr, uri + " ")
    ensures var q := p.(ptr := p.ptr + |uri| + 1, word := p.ptr, next := Version, f := p.f.(uri := Some(Kept(uri))));
      Ok(buf, q) && Run(buf, p) == Run(buf, q)
  {
    hide Run, Plain, IsSpace, Dup;
    var i := p.ptr;
    HoldsBoth(buf, i, uri, " ");
    HoldsAt(buf, i + |uri|, " ", 0);
    VisiblePlain(buf, i, uri, Uri);
    SpaceIsBlank(buf[i]);
    StartWord(buf, p);
    var w := Rescan(p, Uri);
    RunOver(buf, w, i + |uri|);
    RunStep(buf, w.(ptr := i + |uri|));
    assert buf[i..i + |uri|] == uri + [];
    VisibleDup(uri, []);
  }

  /** The newline of a line ending that begins at i. */
  function NewlineAt(i: nat, eol: string): nat { if |eol| == 0 then i else i + |eol| - 1 }

  lemma EolAt(buf: string, i: nat, eol: string)
    requires IsEol(eol) && Holds(buf, i, eol)
    ensures var n := NewlineAt(i, eol);
      && i <= n < |buf| && buf[n] == '\n' && n + 1 == i + |eol|
      && (forall k :: i <= k < n ==> buf[k] == '\r')
      && buf[i..n] == eol[..|eol| - 1] && (eol[..|eol| - 1] == [] || eol[..|eol| - 1] == "\r")
  {
    HoldsAt(buf, i, eol, |eol| - 1);
    HoldsAt(buf, i, eol, 0);
  }

  lemma ReadVersion(buf: string, p: Parser, version: string, eol: string)
    requires Ok(buf, p) && p.state == Space && p.next == Version
    requires Visible(version) && IsEol(eol) && Holds(buf, p.ptr, version + eol)
    ensures var q := Parser(p.ptr + |version| + |eol|, HeaderStart, Version, p.ptr, p.line + 1,
                            NewlineAt(p.ptr + |version|, eol), p.f.(version := Some(Kept(version))));
      Ok(buf, q) && Run(buf, p) == Run(buf, q)
  {
    hide Run, Plain, IsSpace, Dup, Holds;
    var i := p.ptr;
    HoldsBoth(buf, i, version, eol);
    EolAt(buf, i + |version|, eol);
    var n := NewlineAt(i + |version|, eol);
    VisiblePlain(buf, i, version, Version);
    SpaceIsBlank(buf[i]);
    StartWord(buf, p);
    var w := Rescan(p, Version);
    CrPlain(buf, Version, i + |version|, n);
    RunOver(buf, w, n);
    RunStep(buf, w.(ptr := n));
    HoldsSlice(buf, i, version);
    assert buf[i..n] == version + buf[i + |version|..n];
    VisibleDup(version, eol[..|eol| - 1]);
  }

  lemma HoldsSlice(buf: string, i: nat, s: string)
    requires Holds(buf, i, s)
    ensures i + |s| <= |buf| && buf[i..i + |s|] == s
  {}

  lemma CrPlain(buf: string, st: State, i: nat, n: nat)
    requires n <= |buf| && st in {Uri, Version, HeaderVal, HeaderStart, Space}
    requires forall k :: i <= k < n ==> buf[k] == '\r'
    ensures AllPlain(st, buf, i, n)
  {}

  /** The word holds val and nothing but blanks behind it. */
  predicate ValueRead(buf: string, p: Parser, val: string) {
    && p.word + |val| <= p.ptr <= |buf| && buf[p.word..p.word + |val|] == val
    && forall k :: p.word + |val| <= k < p.ptr ==> IsSpace(buf[k])
  }

  lemma ValClean(val: string)
    requires IsVal(val)
    ensures '\r' !in val && '\0' !in val
  {
    forall i | 0 <= i < |val| ensures val[i] != '\r' && val[i] != '\0' { assert ValChar(val, i); }
  }

  lemma ValueWord(buf: string, p: Parser, val: string)
    requires IsVal(val) && ValueRead(buf, p, val)
    ensures Word(buf, p) == Kept(val)
  {
    hide Dup, IsSpace;
    var b := buf[p.word + |val|..p.ptr];
    assert buf[p.word..p.ptr] == val + b;
    assert forall c :: c in b ==> IsSpace(c);
    ValClean(val);
    DupTight(val, b);
  }

  /** Once the pending value is stored, the headers are done. */
  predicate Owing(buf: string, p: Parser, val: string, done: seq<Header>) {
    (p.f.headers == [] && done == [])
      || (IsVal(val) && ValueRead(buf, p, val) && SetVal(p.f.headers, Kept(val)) == done)
  }

  lemma OwingWord(buf: string, p: Parser, val: string, done: seq<Header>)
    requires Owing(buf, p, val, done) && p.word <= p.ptr <= |buf|
    ensures SetVal(p.f.headers, Word(buf, p)) == done
  {
    hide Word, IsVal, ValueRead;
    if p.f.headers != [] { ValueWord(buf, p, val); }
  }

  lemma OwingOver(buf: string, p: Parser, val: string, done: seq<Header>, n: nat)
    requires Owing(buf, p, val, done) && p.ptr <= n <= |buf|
    requires forall k :: p.ptr <= k < n ==> buf[k] == '\r'
    ensures Owing(buf, p.(ptr := n), val, done)
  {}

  lemma KeyPlain(buf: string, i: nat, key: string)
    requires IsKey(key) && Holds(buf, i, key)
    ensures i + |key| <= |buf| && !IsSpace(buf[i]) && AllPlain(HeaderName, buf, i + 1, i + |key|)
  {
    hide Holds, IsSpace, IsName;
    HoldsAt(buf, i, key, 0);
    forall k | i < k < i + |key| ensures k < |buf| && Plain(HeaderName, buf[k]) { HoldsAt(buf, i, key, k - i); }
    HoldsInside(buf, i, key);
  }

  function Named(done: seq<Header>, key: string): seq<Header> {
    done + [Header(Some(Kept(key)), None)]
  }

  lemma SetKeyNamed(done: seq<Header>, key: string)
    ensures SetKey(done + [Header(None, None)], Kept(key)) == Named(done, key)
    ensures forall v :: SetVal(Named(done, key), v) == done + [Header(Some(Kept(key)), Some(v))]
  {}

  lemma ReadKey(buf: string, p: Parser, key: string, val: string, done: seq<Header>)
    requires Ok(buf, p) && p.state == HeaderStart && Owing(buf, p, val, done)
    requires IsKey(key) && Holds(buf, p.ptr, key + ": ")
    ensures var q := p.(ptr := p.ptr + |key| + 2, state := Space, next := HeaderVal, word := p.ptr,
                        f := p.f.(headers := Named(done, key)));
      Ok(buf, q) && Run(buf, p) == Run(buf, q)
  {
    hide Run, IsSpace, Dup, Holds, Owing, SetVal, SetKey, AllPlain;
    var i := p.ptr;
    HoldsBoth(buf, i, key, ": ");
    HoldsAt(buf, i + |key|, ": ", 0);
    HoldsAt(buf, i + |key|, ": ", 1);
    KeyPlain(buf, i, key);
    SpaceIsBlank(buf[i]);
    OwingWord(buf, p, val, done);
    RunStep(buf, p);
    var w := p.(ptr := i + 1, state := HeaderName, word := i, f := p.f.(headers := done + [Header(None, None)]));
    assert Round(buf, p) == w;
    RunOver(buf, w, i + |key|);
    var e := w.(ptr := i + |key|);
    KeyEnds(buf, e, key, done);
    BlankBehind(buf, e.(ptr := i + |key| + 1, state := Space, next := HeaderVal,
      f := e.f.(headers := Named(done, key))));
  }

  lemma KeyEnds(buf: string, p: Parser, key: string, done: seq<Header>)
    requires Ok(buf, p) && p.state == HeaderName && p.ptr < |buf| && buf[p.ptr] == ':'
    requires p.f.headers == done + [Header(None, None)] && IsKey(key) && Holds(buf, p.word, key)
      && p.ptr == p.word + |key|
    ensures var q := p.(ptr := p.ptr + 1, state := Space, next := HeaderVal, f := p.f.(headers := Named(done, key)));
      Ok(buf, q) && Run(buf, p) == Run(buf, q)
  {
    hide Run, IsSpace, Dup, SetVal, SetKey;
    RunStep(buf, p);
    assert buf[p.word..p.ptr] == key + [];
    VisibleDup(key, []);
    SetKeyNamed(done, key);
  }

  lemma BlankBehind(buf: string, p: Parser)
    requires Ok(buf, p) && p.state == Space && p.ptr < |buf| && buf[p.ptr] == ' '
    ensures Ok(buf, Skip(p)) && Run(buf, p) == Run(buf, Skip(p))
  {
    hide Run;
    RunStep(buf, p);
  }

  lemma LinePlain(buf: string, i: nat, line: string)
    requires IsLine(line) && Holds(buf, i, line)
    ensures i + |line| <= |buf| && AllPlain(HeaderVal, buf, i, i + |line|)
    ensures line != [] ==> !IsSpace(buf[i])
  {
    hide Holds, IsSpace;
    forall k | i <= k < i + |line| ensures k < |buf| && Plain(HeaderVal, buf[k]) {
      HoldsAt(buf, i, line, k - i);
      assert line[k - i] in line;
    }
    if line != [] { HoldsAt(buf, i, line, 0); }
    HoldsInside(buf, i, line);
  }

  /** A newline at k is followed by a blank in front of j. */
  predicate FoldedAt(buf: string, k: nat, j: nat)
    requires k < j <= |buf|
  {
    buf[k] == '\n' ==> k + 1 < j && IsBlank(buf[k + 1])
  }

  /** From i to j every newline is. */
  predicate Folded(buf: string, i: nat, j: nat)
    requires j <= |buf|
  {
    forall k :: i <= k < j ==> FoldedAt(buf, k, j)
  }

  lemma FoldAt(val: string, m: nat)
    requires IsVal(val) && m < |val| && val[m] == '\n'
    ensures m + 1 < |val| && IsBlank(val[m + 1])
  {
    assert ValChar(val, m);
  }

  lemma ValFolded(buf: string, i: nat, val: string)
    requires IsVal(val) && Holds(buf, i, val)
    ensures i + |val| <= |buf| && Folded(buf, i, i + |val|)
    ensures val != [] ==> !IsSpace(buf[i])
  {
    hide Holds, IsSpace, IsBlank;
    HoldsInside(buf, i, val);
    var j := i + |val|;
    forall k | i <= k < j ensures FoldedAt(buf, k, j) {
      HoldsAt(buf, i, val, k - i);
      if buf[k] == '\n' {
        FoldAt(val, k - i);
        HoldsAt(buf, i, val, k + 1 - i);
      }
    }
    if val != [] { HoldsAt(buf, i, val, 0); }
  }

  lemma FoldedBehind(buf: string, i: nat, j: nat, n: nat)
    requires i <= j <= n <= |buf| && Folded(buf, i, j) && forall k :: j <= k < n ==> buf[k] == '\r'
    ensures Folded(buf, i, n)
  {
    forall k | i <= k < n ensures FoldedAt(buf, k, n) {
      if k < j { assert FoldedAt(buf, k, j); }
    }
  }

  /** Reading over a value and its folds. */
  lemma {:induction false} RunFolded(buf: string, p: Parser, j: nat) returns (q: Parser)
    requires Ok(buf, p) && p.state == HeaderVal && p.ptr <= j <= |buf| && Folded(buf, p.ptr, j)
    ensures Ok(buf, q) && Run(buf, p) == Run(buf, q)
    ensures q.state == HeaderVal && q.ptr == j && q.word == p.word && q.f == p.f
    decreases j - p.ptr
  {
    hide Run, Word;
    q := p;
    if p.ptr < j {
      assert FoldedAt(buf, p.ptr, j);
      RunStep(buf, p);
      q := Round(buf, p);
      if buf[p.ptr] == '\n' {
        RunStep(buf, q);
        q := Round(buf, q);
      }
      q := RunFolded(buf, q, j);
    }
  }

  /** A header value up to its line ending; an empty one makes the newline itself the word. */
  lemma ReadVal(buf: string, p: Parser, val: string, eol: string) returns (q: Parser)
    requires Ok(buf, p) && p.state == Space && p.next == HeaderVal
    requires IsVal(val) && IsEol(eol) && Holds(buf, p.ptr, val + eol)
    ensures Ok(buf, q) && Run(buf, p) == Run(buf, q)
    ensures q.state == HeaderStart && q.f == p.f && q.ptr == p.ptr + |val| + |eol| && ValueRead(buf, q, val)
  {
    hide Run, IsSpace, Dup, Holds, AllPlain, IsVal, IsEol, ValueRead, Folded;
    var i := p.ptr;
    HoldsBoth(buf, i, val, eol);
    EolAt(buf, i + |val|, eol);
    var n := NewlineAt(i + |val|, eol);
    ValFolded(buf, i, val);
    var w: Parser;
    if val == [] {
      CrPlain(buf, Space, i, n);
      RunOver(buf, p, n);
      w := EmptyVal(buf, p.(ptr := n));
    } else {
      SpaceIsBlank(buf[i]);
      StartWord(buf, p);
      w := Rescan(p, HeaderVal);
      FoldedBehind(buf, i, i + |val|, n);
      w := RunFolded(buf, w, n);
    }
    RunStep(buf, w);
    q := Round(buf, w);
    HoldsSlice(buf, i, val);
    ValueEnds(buf, q, val, i, n);
  }

  lemma EmptyVal(buf: string, p: Parser) returns (w: Parser)
    requires Ok(buf, p) && p.state == Space && p.next == HeaderVal && p.ptr < |buf| && buf[p.ptr] == '\n'
    ensures w == Rescan(Newline(p, '\n'), HeaderVal) && Ok(buf, w) && Run(buf, p) == Run(buf, w)
  {
    hide Run;
    RunStep(buf, p);
    w := Round(buf, p);
  }

  lemma PlainBoth(st: State, buf: string, i: nat, m: nat, n: nat)
    requires i <= m <= n <= |buf| && AllPlain(st, buf, i, m) && AllPlain(st, buf, m, n)
    ensures AllPlain(st, buf, i, n)
  {}

  lemma ValueEnds(buf: string, q: Parser, val: string, i: nat, n: nat)
    requires i + |val| <= n < |buf| && buf[i..i + |val|] == val && q.ptr == n + 1 && buf[n] == '\n'
    requires forall k :: i + |val| <= k < n ==> buf[k] == '\r'
    requires q.word == if val == [] then n else i
    ensures ValueRead(buf, q, val)
  {
    if val == [] { assert buf[n..n] == []; }
  }

  lemma {:induction false} ReadHeaders(buf: string, p: Parser, hs: seq<(string, string)>, eol: string,
                                       val: string, done: seq<Header>)
    requires Ok(buf, p) && p.state == HeaderStart && Owing(buf, p, val, done)
    requires HeadersOk(hs) && IsEol(eol) && Holds(buf, p.ptr, HeaderLines(hs, eol))
    ensures Run(buf, p).state == Done && Run(buf, p).ptr == p.ptr + |HeaderLines(hs, eol)|
    ensures Run(buf, p).f == p.f.(headers := done + KeptHeaders(hs))
    decreases |hs|
  {
    hide Run, Dup, Holds, IsEol, ValueRead, Owing, IsVal, IsKey, Round, Ok;
    LinesStep(hs, eol);
    KeptStep(hs, done);
    if hs == [] {
      BlankLine(buf, p, eol, val, done);
    } else {
      var k, v, rest := hs[0].0, hs[0].1, HeaderLines(hs[1..], eol);
      HeadersTail(hs);
      Assoc(k, ": ", v + (eol + rest));
      HoldsBoth(buf, p.ptr, k + ": ", v + (eol + rest));
      ReadKey(buf, p, k, val, done);
      var q := p.(ptr := p.ptr + |k| + 2, state := Space, next := HeaderVal, word := p.ptr,
                  f := p.f.(headers := Named(done, k)));
      Assoc(v, eol, rest);
      HoldsBoth(buf, q.ptr, v + eol, rest);
      var r := ReadVal(buf, q, v, eol);
      Owed(buf, r, k, v, done);
      ReadHeaders(buf, r, hs[1..], eol, v, done + [Header(Some(Kept(k)), Some(Kept(v)))]);
    }
  }

  lemma Owed(buf: string, p: Parser, k: string, v: string, done: seq<Header>)
    requires p.f.headers == Named(done, k) && IsVal(v) && ValueRead(buf, p, v)
    ensures Owing(buf, p, v, done + [Header(Some(Kept(k)), Some(Kept(v)))])
  {
    SetKeyNamed(done, k);
  }

  lemma LinesStep(hs: seq<(string, string)>, eol: string)
    ensures HeaderLines(hs, eol) ==
      if hs == [] then eol else hs[0].0 + (": " + (hs[0].1 + (eol + HeaderLines(hs[1..], eol))))
  {}

  lemma HeadersTail(hs: seq<(string, string)>)
    requires hs != [] && HeadersOk(hs)
    ensures IsKey(hs[0].0) && IsVal(hs[0].1) && HeadersOk(hs[1..])
  {
    hide IsKey, IsVal;
  }

  lemma KeptStep(hs: seq<(string, string)>, done: seq<Header>)
    ensures hs == [] ==> done + KeptHeaders(hs) == done
    ensures hs != [] ==>
      done + KeptHeaders(hs) == done + [Header(Some(Kept(hs[0].0)), Some(Kept(hs[0].1)))] + KeptHeaders(hs[1..])
  {
    if hs != [] { Assoc(done, [Header(Some(Kept(hs[0].0)), Some(Kept(hs[0].1)))], KeptHeaders(hs[1..])); }
  }

  lemma BlankLine(buf: string, p: Parser, eol: string, val: string, done: seq<Header>)
    requires Ok(buf, p) && p.state == HeaderStart && Owing(buf, p, val, done)
    requires IsEol(eol) && Holds(buf, p.ptr, eol)
    ensures var r := Run(buf, p);
      r.state == Done && r.ptr == p.ptr + |eol| && r.f == p.f.(headers := done)
  {
    hide Run, IsEol, Owing, Holds, Dup, SetVal;
    EolAt(buf, p.ptr, eol);
    var n := NewlineAt(p.ptr, eol);
    CrPlain(buf, HeaderStart, p.ptr, n);
    RunOver(buf, p, n);
    OwingOver(buf, p, val, done, n);
    var w := p.(ptr := n);
    OwingWord(buf, w, val, done);
    RunStep(buf, w);
    RunStep(buf, Round(buf, w));
  }

  /** What the parser makes of a printed request. */
  function Understood(r: Request, len: nat): Outcome {
    var hs := KeptHeaders(r.headers);
    Complete(len, RequestFields(r.op).(uri := Some(Kept(r.uri)), version := Some(Kept(r.version)), headers := hs),
             ContentLength(hs), Lookup(hs, "content-type"))
  }

  /** A printed request, whatever follows it, is parsed to the end of its header with every word of it. */
  lemma ParsePrinted(r: Request, eol: string, body: string)
    requires RequestOk(r) && IsEol(eol)
    ensures Parse(Print(r, eol) + body) == Understood(r, |Print(r, eol)|)
  {
    var buf := Print(r, eol);
    ParseExactly(r, eol);
    hide Print, Parse, RequestOk;
    RequestsAreStable(buf, body);
  }

  lemma HoldsAll(buf: string)
    ensures Holds(buf, 0, buf)
  {}

  /** The three words of a request line. */
  lemma ReadRequestLine(buf: string, r: Request, eol: string) returns (h: Parser)
    requires Visible(r.op) && !("HTTP/" <= r.op) && Visible(r.uri) && Visible(r.version) && IsEol(eol)
    requires var i := |r.op| + 1;
      Holds(buf, 0, r.op + " ") && Holds(buf, i, r.uri + " ") && Holds(buf, i + |r.uri| + 1, r.version + eol)
    ensures Ok(buf, h) && Run(buf, Start()) == Run(buf, h) && h.state == HeaderStart
    ensures h.ptr == |r.op| + 1 + |r.uri| + 1 + |r.version| + |eol|
    ensures h.f == RequestFields(r.op).(uri := Some(Kept(r.uri)), version := Some(Kept(r.version)))
  {
    hide Run, Holds, IsEol, Visible, OpCodeOf, Kept;
    ReadOp(buf, r.op);
    var p := Parser(|r.op| + 1, Space, Uri, 0, 0, 0, RequestFields(r.op));
    ReadUri(buf, p, r.uri);
    var q := p.(ptr := p.ptr + |r.uri| + 1, word := p.ptr, next := Version, f := p.f.(uri := Some(Kept(r.uri))));
    ReadVersion(buf, q, r.version, eol);
    h := Parser(q.ptr + |r.version| + |eol|, HeaderStart, Version, q.ptr, q.line + 1,
                NewlineAt(q.ptr + |r.version|, eol), q.f.(version := Some(Kept(r.version))));
  }

  /** A word and what separates it from the rest. */
  lemma WordHeld(buf: string, i: nat, word: string, gap: string, rest: string)
    requires Holds(buf, i, word + (gap + rest))
    ensures Holds(buf, i, word + gap) && Holds(buf, i + |word| + |gap|, rest)
  {
    hide Holds;
    Assoc(word, gap, rest);
    HoldsBoth(buf, i, word + gap, rest);
  }

  lemma RequestParts(buf: string, r: Request, eol: string)
    requires Holds(buf, 0, Print(r, eol))
    ensures var i, lines := |r.op| + 1, HeaderLines(r.headers, eol);
      && Holds(buf, 0, r.op + " ") && Holds(buf, i, r.uri + " ") && Holds(buf, i + |r.uri| + 1, r.version + eol)
      && Holds(buf, i + |r.uri| + 1 + |r.version| + |eol|, lines)
      && |Print(r, eol)| == i + |r.uri| + 1 + |r.version| + |eol| + |lines|
  {
    hide Holds, HeaderLines;
    var lines := HeaderLines(r.headers, eol);
    var afterUri := r.version + (eol + lines);
    WordHeld(buf, 0, r.op, " ", r.uri + (" " + afterUri));
    WordHeld(buf, |r.op| + 1, r.uri, " ", afterUri);
    WordHeld(buf, |r.op| + 1 + |r.uri| + 1, r.version, eol, lines);
  }

  lemma ParseExactly(r: Request, eol: string)
    requires RequestOk(r) && IsEol(eol)
    ensures Parse(Print(r, eol)) == Understood(r, |Print(r, eol)|)
  {
    hide Run, Holds, IsEol, Visible, HeadersOk, ContentLength, Lookup, Ok, HeaderLines, KeptHeaders, Print,
      RequestFields;
    var buf := Print(r, eol);
    HoldsAll(buf);
    RequestParts(buf, r, eol);
    var h := ReadRequestLine(buf, r, eol);
    NoHeadersYet(r.op);
    ReadHeaders(buf, h, r.headers, eol, [], []);
    assert [] + KeptHeaders(r.headers) == KeptHeaders(r.headers);
  }

  lemma NoHeadersYet(op: string)
    ensures RequestFields(op).headers == [] && RequestFields(op).error == None
  {}

  predicate NoSingles(r: Request) {
    |r.op| != 1 && |r.uri| != 1 && |r.version| != 1 &&
    forall i :: 0 <= i < |r.headers| ==> |r.headers[i].0| != 1 && |r.headers[i].1| != 1
  }

  function ExactHeaders(hs: seq<(string, string)>): seq<Header> {
    if hs == [] then [] else [Header(Some(hs[0].0), Some(hs[0].1))] + ExactHeaders(hs[1..])
  }

  lemma {:induction false} KeptExactly(hs: seq<(string, string)>)
    ensures KeptHeaders(hs) == ExactHeaders(hs) <==> forall i :: 0 <= i < |hs| ==> |hs[i].0| != 1 && |hs[i].1| != 1
    ensures |KeptHeaders(hs)| == |ExactHeaders(hs)| == |hs|
    decreases |hs|
  {
    if hs != [] {
      var t := hs[1..];
      KeptExactly(t);
      assert KeptHeaders(hs)[0] == Header(Some(Kept(hs[0].0)), Some(Kept(hs[0].1)))
        && KeptHeaders(hs)[1..] == KeptHeaders(t);
      assert ExactHeaders(hs)[0] == Header(Some(hs[0].0), Some(hs[0].1)) && ExactHeaders(hs)[1..] == ExactHeaders(t);
      forall i | 1 <= i < |hs| ensures hs[i] == t[i - 1] {}
      assert forall i :: 0 <= i < |t| ==> t[i] == hs[i + 1];
    }
  }

  /** Printing and parsing gives the request back exactly when no word of it is a single character. */
  lemma RequestRoundTrip(r: Request, eol: string, body: string)
    requires RequestOk(r) && IsEol(eol)
    ensures var o := Parse(Print(r, eol) + body);
      && o.Complete? && o.headerLen == |Print(r, eol)|
      && ((o.fields.op == Some(r.op) && o.fields.uri == Some(r.uri) && o.fields.version == Some(r.version)
           && o.fields.headers == ExactHeaders(r.headers)) <==> NoSingles(r))
  {
    hide Parse, Print, RequestOk, KeptHeaders, ExactHeaders, ContentLength, Lookup;
    ParsePrinted(r, eol, body);
    KeptExactly(r.headers);
  }

  function EmptyCode(): Parser {
    Parser(9, ResponseCode, ResponseCode, 9, 1, 9,
           Fields(None, Response, None, None, None, Some("HTTP/1.0"), [], None))
  }

  lemma ReadResponse(buf: string, v: string)
    requires Visible(v) && "HTTP/" <= v && |v| != 1 && Holds(buf, 0, v + " ")
    ensures var p := Parser(|v| + 1, Space, ResponseCode, 0, 0, 0,
                            Fields(None, Response, None, None, None, Some(v), [], None));
      Ok(buf, p) && Run(buf, Start()) == Run(buf, p)
  {
    hide Run, Plain, IsSpace, Dup;
    HoldsBoth(buf, 0, v, " ");
    HoldsAt(buf, |v|, " ", 0);
    VisiblePlain(buf, 0, v, Op);
    StartOp(buf);
    var p := Rescan(Start(), Op);
    RunOver(buf, p, |v|);
    RunStep(buf, p.(ptr := |v|));
    assert buf[0..|v|] == v + [];
    VisibleDup(v, []);
  }

  /** The run on a response whose code field is empty, up to the code. */
  lemma ToEmptyCode(buf: string)
    requires Holds(buf, 0, "HTTP/1.0" + " " + "\n")
    ensures var p := EmptyCode();
      Ok(buf, p) && Run(buf, Start()) == Run(buf, p) && AtCode(buf, p) && !Ended(buf, p)
  {
    hide Run, Dup, Plain, Holds, IsSpace;
    var v := "HTTP/1.0";
    HoldsBoth(buf, 0, v + " ", "\n");
    HoldsAt(buf, 9, "\n", 0);
    VersionVisible();
    ReadResponse(buf, v);
    RunStep(buf, Parser(9, Space, ResponseCode, 0, 0, 0,
                        Fields(None, Response, None, None, None, Some(v), [], None)));
  }

  lemma VersionVisible()
    ensures Visible("HTTP/1.0")
  {}

  lemma SkipNewline(t: string)
    requires t != [] ==> !IsSpace(t[0])
    ensures StripLeft("\n" + t) == t
  {
    assert ("\n" + t)[1..] == t;
    if t != [] { assert StripLeft(t) == t; }
  }

  lemma BlankNumber()
    ensures NumberText("\n") == [] && !Settled("\n")
  {
    SkipNewline([]);
    assert "\n" + [] == "\n";
    hide StripLeft;
  }

  lemma TwoDigits(t: string)
    requires t == "2: \n\n"
    ensures Digits(t) == 1 && SignLength(t) == 0 && t[0..] == t && t[..1] == "2" && !IsSpace(t[0])
  {
    assert t[1..] == ": \n\n" && DigitRun(t[1..], 10) == 0;
    assert DigitRun(t, 10) == 1;
  }

  lemma NumberOnNextLine()
    ensures NumberText("\n" + "2: \n\n") == "2"
  {
    hide Digits, StripLeft, SignLength, IsSpace;
    var t := "2: \n\n";
    TwoDigits(t);
    SkipNewline(t);
  }

  /** Stability does fail: this buffer is an error, while one that extends it is a complete header. */
  lemma EmptyCodeIsUnstable()
    ensures Parse("HTTP/1.0 \n").Failed? && !CodeStable(CodeInput("HTTP/1.0 \n", Start()))
    ensures Parse("HTTP/1.0 \n" + "2: \n\n").Complete?
  {
    hide Run, CodeInput, CodeStable, Dup, Plain, Holds, NumberText, Settled, HeaderLines, IsKey, IsVal;
    BlankNumber();
    NumberOnNextLine();
    var p := EmptyCode();
    var buf := "HTTP/1.0 \n";
    HoldsAll(buf);
    assert "HTTP/1.0" + " " + "\n" == buf;
    ToEmptyCode(buf);
    RunStep(buf, p);
    assert buf[9..] == "\n";
    RunStep(buf, Round(buf, p));
    if CodeStable(CodeInput(buf, Start())) { StableResult(buf, "2: \n\n"); }

    var more := buf + "2: \n\n";
    HoldsAll(more);
    HoldsBoth(more, 0, buf, "2: \n\n");
    ToEmptyCode(more);
    RunStep(more, p);
    assert more[9..] == "\n" + "2: \n\n";
    var h := Round(more, p);
    var hs := [("2", "")];
    OneHeader();
    ReadHeaders(more, h, hs, "\n", [], []);
    assert Parse(more).Complete?;
    assert Parse(buf + "2: \n\n") != Parse(buf);
  }

  lemma OneHeader()
    ensures HeaderLines([("2", "")], "\n") == "2: \n\n" && HeadersOk([("2", "")])
  {
    assert [("2", "")][1..] == [];
  }

  // ---------------------------------------------------------------------------------------------
  // Responses
  // ---------------------------------------------------------------------------------------------

  datatype Reply = Reply(version: string, code: string, message: string, headers: seq<(string, string)>)

  /** A response, with or without a message behind its code. */
  function PrintReply(r: Reply, eol: string): string {
    r.version + (" " + (r.code + (AfterCode(r.message, eol) + HeaderLines(r.headers, eol))))
  }

  function AfterCode(message: string, eol: string): string {
    if message == [] then eol else " " + (message + eol)
  }

  /** A decimal number without leading zeros. */
  predicate IsNumber(s: string) {
    s != [] && s[0] != '0' && forall i :: 0 <= i < |s| ==> '0' <= s[i] <= '9'
  }

  predicate ReplyOk(r: Reply) {
    && Visible(r.version) && "HTTP/" <= r.version && IsNumber(r.code)
    && IsLine(r.message) && HeadersOk(r.headers)
  }

  lemma {:induction false} AllDigits(s: string, t: string)
    requires forall i :: 0 <= i < |s| ==> '0' <= s[i] <= '9'
    requires t != [] && IsSpace(t[0])
    ensures DigitRun(s + t, 10) == |s|
    decreases |s|
  {
    if s == [] {
      assert s + t == t;
    } else {
      assert (s + t)[1..] == s[1..] + t;
      AllDigits(s[1..], t);
    }
  }

  lemma NumberRead(code: string, t: string)
    requires IsNumber(code) && t != [] && IsSpace(t[0])
    ensures NumberText(code + t) == code
  {
    hide DigitRun, Digits, StripLeft, SignLength, IsNumber, IsSpace;
    DecimalDigits(code, t);
    DecimalStarts(code, t);
    var s := code + t;
    assert s[0..] == s && s[..|code|] == code;
  }

  lemma DecimalStarts(code: string, t: string)
    requires IsNumber(code)
    ensures StripLeft(code + t) == code + t && SignLength(code + t) == 0
  {
    assert (code + t)[0] == code[0];
  }

  lemma DecimalDigits(code: string, t: string)
    requires IsNumber(code) && t != [] && IsSpace(t[0])
    ensures Digits(code + t) == |code| > 0
  {
    hide DigitRun;
    AllDigits(code, t);
  }

  lemma BlankIsSpace()
    ensures IsSpace(' ')
  {}

  lemma NumberVisible(code: string)
    requires IsNumber(code)
    ensures Visible(code)
  {}

  lemma ReadCode(buf: string, p: Parser, code: string)
    requires Ok(buf, p) && p.state == Space && p.next == ResponseCode && IsNumber(code) && Holds(buf, p.ptr, code + " ")
    ensures var q := p.(ptr := p.ptr + |code| + 1, word := p.ptr, next := ResponseMessage,
                        f := p.f.(code := Some(code)));
      Ok(buf, q) && Run(buf, p) == Run(buf, q)
  {
    hide Run, IsSpace, NumberText, IsNumber;
    var i, j := p.ptr, p.ptr + |code|;
    HoldsBoth(buf, i, code, " ");
    HoldsAt(buf, j, " ", 0);
    NumberVisible(code);
    VisiblePlain(buf, i, code, Uri);
    SpaceIsBlank(buf[i]);
    StartWord(buf, p);
    var w := Rescan(p, ResponseCode);
    CodePlain(buf, i, j);
    RunOver(buf, w, j);
    assert buf[i..] == code + buf[j..];
    assert buf[j..][0] == ' ';
    BlankIsSpace();
    NumberRead(code, buf[j..]);
    RunStep(buf, w.(ptr := j));
    NotEmpty(code);
  }

  /** A code that ends its line leaves no message. */
  lemma ReadLastCode(buf: string, p: Parser, code: string, eol: string)
    requires Ok(buf, p) && p.state == Space && p.next == ResponseCode
    requires IsNumber(code) && IsEol(eol) && Holds(buf, p.ptr, code + eol)
    ensures var q := Parser(p.ptr + |code| + |eol|, HeaderStart, ResponseMessage, p.ptr, p.line + 1,
                            NewlineAt(p.ptr + |code|, eol), p.f.(code := Some(code)));
      Ok(buf, q) && Run(buf, p) == Run(buf, q)
  {
    hide Run, Plain, IsSpace, NumberText, IsNumber, Holds;
    var i, j := p.ptr, p.ptr + |code|;
    HoldsBoth(buf, i, code, eol);
    EolAt(buf, j, eol);
    var n := NewlineAt(j, eol);
    NumberVisible(code);
    VisiblePlain(buf, i, code, Uri);
    SpaceIsBlank(buf[i]);
    StartWord(buf, p);
    var w := Rescan(p, ResponseCode);
    CrPlain(buf, Uri, j, n);
    PlainBoth(Uri, buf, i, j, n);
    CodePlain(buf, i, n);
    RunOver(buf, w, n);
    HoldsSlice(buf, i, code);
    assert buf[i..] == code + buf[j..];
    EolIsSpace(buf, j, n);
    var rest := buf[j..];
    assert rest != [] && IsSpace(rest[0]);
    NumberRead(code, rest);
    RunStep(buf, w.(ptr := n));
    NotEmpty(code);
  }

  lemma EolIsSpace(buf: string, j: nat, n: nat)
    requires j <= n < |buf| && buf[n] == '\n' && forall k :: j <= k < n ==> buf[k] == '\r'
    ensures buf[j..] != [] && IsSpace(buf[j..][0])
  {}

  lemma NotEmpty(code: string)
    requires IsNumber(code)
    ensures code != []
  {}

  lemma CodePlain(buf: string, i: nat, j: nat)
    requires j <= |buf| && AllPlain(Uri, buf, i, j)
    ensures AllPlain(ResponseCode, buf, i, j)
  {}

  /** The message up to the newline of its line. */
  lemma ToMessageEnd(buf: string, p: Parser, message: string, eol: string)
    requires Ok(buf, p) && p.state == Space && p.next == ResponseMessage
    requires IsLine(message) && message != [] && IsEol(eol) && Holds(buf, p.ptr, message + eol)
    ensures var n := NewlineAt(p.ptr + |message|, eol);
      && p.ptr + |message| <= n < |buf| && buf[n] == '\n' && n + 1 == p.ptr + |message| + |eol|
      && var w := Rescan(p, ResponseMessage).(ptr := n);
      Ok(buf, w) && Run(buf, p) == Run(buf, w) && ValueRead(buf, w, message)
  {
    hide Run, Plain, IsSpace, Dup, Holds, IsLine;
    var i := p.ptr;
    HoldsBoth(buf, i, message, eol);
    EolAt(buf, i + |message|, eol);
    var n := NewlineAt(i + |message|, eol);
    LinePlain(buf, i, message);
    SpaceIsBlank(buf[i]);
    StartWord(buf, p);
    CrPlain(buf, HeaderVal, i + |message|, n);
    PlainBoth(HeaderVal, buf, i, i + |message|, n);
    MessagePlain(buf, i, n);
    RunOver(buf, Rescan(p, ResponseMessage), n);
    HoldsSlice(buf, i, message);
    CrIsSpace(buf, i + |message|, n);
  }

  /** The parser behind the line of a message. */
  function BehindMessage(p: Parser, message: string, eol: string): Parser {
    Parser(p.ptr + |message| + |eol|, HeaderStart, ResponseMessage, p.ptr, p.line + 1,
           NewlineAt(p.ptr + |message|, eol), p.f.(message := Some(Kept(message))))
  }

  lemma ReadMessage(buf: string, p: Parser, message: string, eol: string) returns (q: Parser)
    requires Ok(buf, p) && p.state == Space && p.next == ResponseMessage
    requires IsLine(message) && message != [] && IsEol(eol) && Holds(buf, p.ptr, message + eol)
    ensures q == BehindMessage(p, message, eol) && Ok(buf, q) && Run(buf, p) == Run(buf, q)
  {
    hide Run, Holds, IsLine, IsVal, IsEol, ValueRead, Word, Kept, Ended, Round;
    LineIsVal(message);
    ToMessageEnd(buf, p, message, eol);
    var w := Rescan(p, ResponseMessage).(ptr := NewlineAt(p.ptr + |message|, eol));
    WordEnds(buf, w, message);
    q := MessageEnds(buf, w, message);
  }

  lemma LineIsVal(s: string)
    requires IsLine(s)
    ensures IsVal(s)
  {}

  lemma WordEnds(buf: string, p: Parser, val: string)
    requires Ok(buf, p) && IsVal(val) && ValueRead(buf, p, val)
    ensures p.word <= p.ptr <= |buf| && Word(buf, p) == Kept(val)
  {
    hide IsVal, ValueRead, Word;
    ValueWord(buf, p, val);
  }

  lemma MessageEnds(buf: string, p: Parser, message: string) returns (q: Parser)
    requires Ok(buf, p) && p.state == ResponseMessage && p.ptr < |buf| && buf[p.ptr] == '\n'
    requires Word(buf, p) == Kept(message)
    ensures q == Parser(p.ptr + 1, HeaderStart, p.next, p.word, p.line + 1, p.ptr,
                        p.f.(message := Some(Kept(message))))
    ensures Ok(buf, q) && Run(buf, p) == Run(buf, q)
  {
    hide Run, Dup, Kept;
    RunStep(buf, p);
    q := Round(buf, p);
  }

  lemma CrIsSpace(buf: string, i: nat, n: nat)
    requires n <= |buf| && forall k :: i <= k < n ==> buf[k] == '\r'
    ensures forall k :: i <= k < n ==> IsSpace(buf[k])
  {}

  lemma MessagePlain(buf: string, i: nat, n: nat)
    requires n <= |buf| && AllPlain(HeaderVal, buf, i, n)
    ensures AllPlain(ResponseMessage, buf, i, n)
  {}

  function KeptMessage(r: Reply): Option<string> {
    if r.message == [] then None else Some(Kept(r.message))
  }

  /** What the parser makes of a printed response. */
  function UnderstoodReply(r: Reply, len: nat): Outcome {
    var hs := KeptHeaders(r.headers);
    Complete(len, Fields(None, Response, Some(r.code), KeptMessage(r), None, Some(r.version), hs, None),
             ContentLength(hs), Lookup(hs, "content-type"))
  }

  /** The code, the message if there is one, and the end of their line. */
  lemma ReadAfterVersion(buf: string, p: Parser, r: Reply, eol: string) returns (h: Parser)
    requires Ok(buf, p) && p.state == Space && p.next == ResponseCode && IsNumber(r.code) && IsLine(r.message)
      && IsEol(eol)
    requires Holds(buf, p.ptr, r.code + AfterCode(r.message, eol))
    ensures Ok(buf, h) && Run(buf, p) == Run(buf, h) && h.state == HeaderStart
    ensures h.ptr == p.ptr + |r.code| + |AfterCode(r.message, eol)|
    ensures h.f == p.f.(code := Some(r.code), message := if r.message == [] then p.f.message else Some(Kept(r.message)))
  {
    hide Run, Holds, IsEol, IsLine, IsNumber;
    if r.message == [] {
      ReadLastCode(buf, p, r.code, eol);
      h := Parser(p.ptr + |r.code| + |eol|, HeaderStart, ResponseMessage, p.ptr, p.line + 1,
                  NewlineAt(p.ptr + |r.code|, eol), p.f.(code := Some(r.code)));
    } else {
      Assoc(r.code, " ", r.message + eol);
      HoldsBoth(buf, p.ptr, r.code + " ", r.message + eol);
      ReadCode(buf, p, r.code);
      var q := p.(ptr := p.ptr + |r.code| + 1, word := p.ptr, next := ResponseMessage, f := p.f.(code := Some(r.code)));
      h := ReadMessage(buf, q, r.message, eol);
    }
  }

  /** A printed response, whatever follows it, is parsed to the end of its header with its version, code and message. */
  lemma ParsePrintedReply(r: Reply, eol: string, body: string)
    requires ReplyOk(r) && IsEol(eol)
    ensures Parse(PrintReply(r, eol) + body) == UnderstoodReply(r, |PrintReply(r, eol)|)
  {
    hide Run, Holds, IsEol, Visible, IsLine, IsNumber, HeadersOk, ContentLength, Lookup, Ok, HeaderLines, KeptHeaders,
      AfterCode;
    var lines, tail := HeaderLines(r.headers, eol), AfterCode(r.message, eol);
    var afterVersion := r.code + (tail + lines);
    var text := PrintReply(r, eol);
    var buf := text + body;
    HoldsAll(buf);
    HoldsBoth(buf, 0, text, body);
    Assoc(r.version, " ", afterVersion);
    HoldsBoth(buf, 0, r.version + " ", afterVersion);
    ReadResponse(buf, r.version);
    var p := Parser(|r.version| + 1, Space, ResponseCode, 0, 0, 0,
                    Fields(None, Response, None, None, None, Some(r.version), [], None));
    Assoc(r.code, tail, lines);
    HoldsBoth(buf, p.ptr, r.code + tail, lines);
    var h := ReadAfterVersion(buf, p, r, eol);
    ReadHeaders(buf, h, r.headers, eol, [], []);
    assert [] + KeptHeaders(r.headers) == KeptHeaders(r.headers);
  }
}
