/** The content length and type a caller gets for a printed message (http.c:61-73 and 316-335). */
module HttpContent {
  import opened Bytes
  import opened HttpText
  import opened Http
  import opened HttpParser
  import opened HttpRoundTrip

  /** The same character, or the two cases of one letter. */
  ghost predicate SameLetter(c: char, d: char) {
    c == d || exists k :: 0 <= k < 26 && {c, d} == {UPPER[k], LOWER[k]}
  }

  /** The key is this name in any mixture of cases. */
  ghost predicate Spells(key: string, name: string) {
    |key| == |name| && forall i :: 0 <= i < |key| ==> SameLetter(key[i], name[i])
  }

  lemma LowerIsCase(c: char, d: char)
    ensures Lower(c) == Lower(d) <==> SameLetter(c, d)
  {
    if Lower(c) == Lower(d) && c != d {
      var k := (if 'A' <= c <= 'Z' then c else d) as int - 65;
      Alphabet(k);
      assert {c, d} == {UPPER[k], LOWER[k]};
    }
    if SameLetter(c, d) && c != d {
      var k :| 0 <= k < 26 && {c, d} == {UPPER[k], LOWER[k]};
      Alphabet(k);
      assert c in {UPPER[k], LOWER[k]} && d in {UPPER[k], LOWER[k]};
      assert UPPER[k] in {c, d} && LOWER[k] in {c, d};
    }
  }

  /** The comparison of keys ignores exactly the case of letters. */
  lemma CaseIgnored(key: string, name: string)
    ensures SameIgnoringCase(key, name) <==> Spells(key, name)
  {
    hide Lower, SameLetter;
    forall i | 0 <= i < |key| && i < |name|
      ensures Lower(key[i]) == Lower(name[i]) <==> SameLetter(key[i], name[i])
    {
      LowerIsCase(key[i], name[i]);
    }
  }

  /** Header i is the first with this name. */
  ghost predicate FirstNamed(hs: seq<(string, string)>, name: string, i: nat) {
    && i <= |hs| && (i < |hs| ==> Spells(hs[i].0, name))
    && forall j :: 0 <= j < i ==> !Spells(hs[j].0, name)
  }

  lemma {:induction false} KeptAt(hs: seq<(string, string)>, i: nat)
    requires i < |hs|
    ensures |KeptHeaders(hs)| == |hs| && KeptHeaders(hs)[i] == Header(Some(Kept(hs[i].0)), Some(Kept(hs[i].1)))
    decreases |hs|
  {
    if i > 0 {
      KeptAt(hs[1..], i - 1);
    } else if |hs| > 1 {
      KeptAt(hs[1..], 0);
    }
  }

  lemma KeptNone()
    ensures KeptHeaders([]) == []
  {}

  lemma KeptKey(key: string, name: string)
    requires |name| > 1
    ensures SameIgnoringCase(Kept(key), name) <==> Spells(key, name)
  {
    hide SameLetter;
    CaseIgnored(key, name);
  }

  /** The lookup finds the value of the first header of the name, whatever the case of its letters. */
  lemma LookupPrinted(hs: seq<(string, string)>, name: string, i: nat)
    requires |name| > 1 && FirstNamed(hs, name, i)
    ensures Lookup(KeptHeaders(hs), name) == if i < |hs| then Some(Kept(hs[i].1)) else None
  {
    hide Spells, SameIgnoringCase, Lookup, KeptHeaders, Kept;
    var ks := KeptHeaders(hs);
    if |hs| == 0 { KeptNone(); } else { KeptAt(hs, 0); }
    if i < |hs| {
      KeptAt(hs, i);
      KeptKey(hs[i].0, name);
    }
    forall j | 0 <= j < i ensures ks[j].key.Some? && !SameIgnoringCase(ks[j].key.value, name) {
      KeptAt(hs, j);
      KeptKey(hs[j].0, name);
    }
    LookupFirst(ks, name, i);
  }

  lemma PrintedNumber(n: nat)
    ensures var s := PrintedIn(n, 10);
      s != [] && (n > 0 ==> IsNumber(s)) && Magnitude(s, 10) == n && (|s| == 1 <==> n < 10)
  {
    PrintedValue(n, 10);
    PrintedDigits(n, 10);
    if n > 0 { FirstDigit(n); }
  }

  /** strtoul of a printed number at the end of its string. */
  lemma NumberConverts(n: nat)
    requires 0 < n < 0x1_0000_0000_0000_0000
    ensures ULong(NumberText(PrintedIn(n, 10))) == n
  {
    hide PrintedIn, Magnitude, NumberText, ULong, ToInt;
    var s := PrintedIn(n, 10);
    PrintedNumber(n);
    WholeDecimal(s);
    DecimalValue(s);
  }

  lemma WholeDecimal(s: string)
    requires IsNumber(s)
    ensures NumberText(s) == s
  {
    hide DigitRun, Digits, StripLeft;
    DecimalStarts(s, []);
    DigitsOfNumber(s);
    assert s + [] == s && s[0..] == s;
  }

  lemma DigitsOfNumber(s: string)
    requires IsNumber(s)
    ensures Digits(s) == |s|
  {
    hide DigitRun;
    AllDigitsRun(s, 10);
  }

  lemma NothingConverts()
    ensures ULong(NumberText([])) == 0
  {
    assert Unsigned([]) == [] && NumberText([]) == [];
  }

  /**
   * The content length of printed headers is the number in the first content-length header, except that a number of one
   * digit is lost with the character, like any value of a single character.
   */
  lemma LengthIsRead(hs: seq<(string, string)>, i: nat, n: nat)
    requires FirstNamed(hs, "content-length", i) && n < 0x1_0000_0000_0000_0000
    requires i < |hs| ==> hs[i].1 == PrintedIn(n, 10)
    ensures LengthValue(ContentLength(KeptHeaders(hs))) == if i < |hs| && n >= 10 then n else 0
  {
    LookupPrinted(hs, "content-length", i);
    PrintedNumber(n);
    if n > 0 { NumberConverts(n); }
    NothingConverts();
    hide Lookup, NumberText, ULong, FirstNamed;
  }

  /** Parsing a printed request into an http_header_t: lengths and type are those of its headers. */
  method ParseRequest(h: HttpHeader, r: Request, eol: string, body: string, ghost i: nat, ghost n: nat, ghost j: nat)
    returns (ret: int)
    requires RequestOk(r) && IsEol(eol)
    requires FirstNamed(r.headers, "content-length", i) && FirstNamed(r.headers, "content-type", j)
    requires n < 0x1_0000_0000_0000_0000 && (i < |r.headers| ==> r.headers[i].1 == PrintedIn(n, 10))
    modifies h
    ensures ret == 1 && h.headerLen == |Print(r, eol)|
    ensures h.contentLen == if i < |r.headers| && n >= 10 then n else 0
    ensures h.totalLen == (|Print(r, eol)| + h.contentLen) % 0x1_0000_0000_0000_0000
    ensures h.contentType == if j < |r.headers| then Some(Kept(r.headers[j].1)) else None
    ensures h.op == Some(Kept(r.op)) && h.uri == Some(Kept(r.uri)) && h.httpVersion == Some(Kept(r.version))
    ensures h.opCode == Get <==> r.op == "GET"
    ensures h.opCode == Put <==> r.op == "PUT"
    ensures h.opCode == Post <==> r.op == "POST"
    ensures h.opCode != Response && h.responseCode == 0
  {
    hide RequestOk, Http.Parse, Print, FirstNamed, KeptHeaders, LengthValue, ContentLength, Lookup;
    ParsePrinted(r, eol, body);
    LengthIsRead(r.headers, i, n);
    LookupPrinted(r.headers, "content-type", j);
    ret := h.Parse(Print(r, eol) + body);
  }

  /** The same for a response, whose code is the number printed. */
  method ParseReply(h: HttpHeader, r: Reply, eol: string, body: string, ghost i: nat, ghost n: nat, ghost j: nat)
    returns (ret: int)
    requires ReplyOk(r) && IsEol(eol)
    requires FirstNamed(r.headers, "content-length", i) && FirstNamed(r.headers, "content-type", j)
    requires n < 0x1_0000_0000_0000_0000 && (i < |r.headers| ==> r.headers[i].1 == PrintedIn(n, 10))
    modifies h
    ensures ret == 1 && h.headerLen == |PrintReply(r, eol)|
    ensures h.contentLen == if i < |r.headers| && n >= 10 then n else 0
    ensures h.totalLen == (|PrintReply(r, eol)| + h.contentLen) % 0x1_0000_0000_0000_0000
    ensures h.contentType == if j < |r.headers| then Some(Kept(r.headers[j].1)) else None
    ensures h.op == None && h.opCode == Response && h.httpVersion == Some(r.version)
    ensures forall code :: 0 < code < 0x8000_0000 && r.code == PrintedIn(code, 10) ==> h.responseCode == code
  {
    hide ReplyOk, Http.Parse, PrintReply, FirstNamed, KeptHeaders, LengthValue, ContentLength, Lookup, ToInt;
    ParsePrintedReply(r, eol, body);
    LengthIsRead(r.headers, i, n);
    LookupPrinted(r.headers, "content-type", j);
    ret := h.Parse(PrintReply(r, eol) + body);
    forall code | 0 < code < 0x8000_0000 && r.code == PrintedIn(code, 10) ensures h.responseCode == code {
      CodeConverts(code);
    }
  }

  lemma CodeConverts(n: nat)
    requires 0 < n < 0x8000_0000
    ensures CodeValue(Some(PrintedIn(n, 10))) == n
  {
    hide PrintedIn, Magnitude, ULong, ToInt;
    PrintedNumber(n);
    DecimalValue(PrintedIn(n, 10));
  }
}
