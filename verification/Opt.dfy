/** Quoting arguments into a line and splitting the line in place (opt.c:35-257). */
module Opt {
  import opened Bytes

  // ---------------------------------------------------------------------------------------------
  // Printing
  // ---------------------------------------------------------------------------------------------

  /** Membership in WHITESPACE. */
  predicate IsWhitespace(c: char) {
    c == ' ' || c == '\t' || c == '\r' || c == '\n'
  }

  /** Membership in OPT_QUOTED_CHARS. */
  predicate IsQuotedChar(c: char) {
    IsWhitespace(c) || c == '\\' || c == '"'
  }

  /** How one character is written between quotes in the C style. */
  function EncChar(c: char): (r: string)
    ensures 1 <= |r| <= 2
  {
    if c == '\n' then "\\n" else if c == '\r' then "\\r" else if c == '\t' then "\\t"
    else if c == '\\' then "\\\\" else if c == '\0' then "\\0" else if c == '"' then "\\\"" else [c]
  }

  function Body(s: string): string {
    if s == [] then [] else EncChar(s[0]) + Body(s[1..])
  }

  function Quoted(s: string): string {
    "\"" + Body(s) + "\""
  }

  predicate NeedsQuote(s: string) {
    s != [] && (IsQuotedChar(s[0]) || NeedsQuote(s[1..]))
  }

  /** The words that are quoted: those with a blank, tabulator, carriage return, newline, backslash or quote in them. */
  lemma {:induction false} QuotedExactly(s: string)
    ensures NeedsQuote(s) <==> exists i :: 0 <= i < |s| && s[i] in " \t\r\n\\\""
    decreases |s|
  {
    if s != [] {
      QuotedExactly(s[1..]);
      assert forall i :: 0 <= i < |s[1..]| ==> s[1..][i] == s[i + 1];
      assert IsQuotedChar(s[0]) <==> s[0] in " \t\r\n\\\"";
      if NeedsQuote(s[1..]) {
        var i :| 0 <= i < |s[1..]| && s[1..][i] in " \t\r\n\\\"";
        assert s[i + 1] in " \t\r\n\\\"";
      }
    }
  }

  function Word(s: string): string {
    if NeedsQuote(s) then Quoted(s) else s
  }

  /** The words printed so far, with one more argument: a blank separates it from earlier output, if there is any. */
  function Line(args: seq<string>): string {
    if args == [] then []
    else
      var before := Line(args[..|args| - 1]);
      before + (if before == [] then [] else " ") + Word(args[|args| - 1])
  }

  /** The escapes of the C style, and no others. */
  lemma EscapesAre(c: char)
    ensures EncChar(c) ==
      match c
      case '\n' => "\\n" case '\r' => "\\r" case '\t' => "\\t" case '\0' => "\\0" case '\\' => "\\\\"
      case '"' => "\\\"" case _ => [c]
    ensures Unescape('n') == '\n' && Unescape('r') == '\r' && Unescape('t') == '\t'
    ensures c != 'n' && c != 'r' && c != 't' ==> Unescape(c) == c
  {}

  /** Two words: a blank between them, quotes around one that needs them, and a newline behind them. */
  lemma PrintsTwo(a: string, b: string)
    requires a != [] && !NeedsQuote(a) && NeedsQuote(b)
    ensures Cat([a, b]) == a + " " + ("\"" + Body(b) + "\"") + "\n"
    ensures Cat([a]) == a + "\n"
  {
    hide NeedsQuote, Body;
    assert [a, b][..1] == [a] && [a][..0] == [];
    assert Line([a]) == [] + [] + a == a;
  }

  /** What opt_cat prints. */
  function Cat(args: seq<string>): string {
    Line(args) + "\n"
  }

  // ---------------------------------------------------------------------------------------------
  // Parsing
  // ---------------------------------------------------------------------------------------------

  function SkipSpace(s: string): (r: string)
    ensures |r| <= |s| && r == s[|s| - |r|..]
    ensures r != [] ==> !IsWhitespace(r[0])
    ensures s != [] && IsWhitespace(s[0]) ==> |r| < |s|
  {
    if s != [] && IsWhitespace(s[0]) then SkipSpace(s[1..]) else s
  }

  /** The character an escape stands for; unknown escapes stand for themselves. */
  function Unescape(c: char): char {
    if c == 'n' then '\n' else if c == 'r' then '\r' else if c == 't' then '\t' else c
  }

  datatype Token = Token(text: string, rest: string)

  function Prefixed(c: char, t: Token): Token {
    Token([c] + t.text, t.rest)
  }

  /** One argument from s on, inside or outside quotes, and what is left after it and the blanks behind it. */
  function Scan(s: string, quoted: bool): (t: Token)
    ensures |t.text| + |t.rest| <= |s| && t.rest == s[|s| - |t.rest|..]
    ensures s != [] && !quoted && IsWhitespace(s[0]) ==> t.text == [] && |t.rest| < |s|
    decreases |s|
  {
    if s == [] then Token([], [])
    else if quoted then
      if s[0] == '"' then Scan(s[1..], false)
      else if s[0] == '\\' then
        if |s| == 1 then Token([], []) else Prefixed(Unescape(s[1]), Scan(s[2..], true))
      else Prefixed(s[0], Scan(s[1..], true))
    else if IsWhitespace(s[0]) then Token([], SkipSpace(s))
    else if s[0] == '"' then Scan(s[1..], true)
    else Prefixed(s[0], Scan(s[1..], false))
  }

  lemma {:induction false} ScanProgress(s: string, quoted: bool)
    requires s != []
    ensures |Scan(s, quoted).rest| < |s|
    decreases |s|
  {
    if quoted {
      if s[0] == '"' { if |s| > 1 { ScanProgress(s[1..], false); } }
      else if s[0] == '\\' { if |s| > 2 { ScanProgress(s[2..], true); } }
      else if |s| > 1 { ScanProgress(s[1..], true); }
    } else if !IsWhitespace(s[0]) {
      if |s| > 1 { ScanProgress(s[1..], s[0] == '"'); }
    }
  }

  function Dec(s: string): Token {
    Scan(SkipSpace(s), false)
  }

  lemma DecProgress(s: string)
    requires s != []
    ensures |Dec(s).rest| < |s|
  {
    if SkipSpace(s) != [] { ScanProgress(SkipSpace(s), false); }
  }

  /** The arguments opt_str2argv finds. */
  function Argv(s: string): seq<string>
    decreases |s|
  {
    if s == [] then []
    else
      DecProgress(s);
      [Dec(s).text] + Argv(Dec(s).rest)
  }

  // ---------------------------------------------------------------------------------------------
  // Round trip
  // ---------------------------------------------------------------------------------------------

  /** Every character but NUL survives escaping; NUL comes back as the digit zero. */
  lemma EscapeRoundTrip(c: char)
    ensures |EncChar(c)| == 2 ==> EncChar(c)[0] == '\\' && (Unescape(EncChar(c)[1]) == c <==> c != '\0')
    ensures |EncChar(c)| == 1 ==> EncChar(c) == [c] && c != '"' && c != '\\'
    ensures c == '\0' ==> Unescape(EncChar(c)[1]) == '0'
  {}

  lemma ScanEscaped(c: char, u: string)
    requires c != '\0'
    ensures Scan(EncChar(c) + u, true) == Prefixed(c, Scan(u, true))
  {
    EscapeRoundTrip(c);
    assert (EncChar(c) + u)[|EncChar(c)|..] == u;
  }

  lemma ScanUnquoted(c: char, u: string)
    requires !IsQuotedChar(c)
    ensures Scan([c] + u, false) == Prefixed(c, Scan(u, false))
  {
    assert ([c] + u)[1..] == u;
  }

  lemma PrefixedText(s: string, t: Token)
    requires s != []
    ensures Prefixed(s[0], Token(s[1..] + t.text, t.rest)) == Token(s + t.text, t.rest)
  {
    Assoc([s[0]], s[1..], t.text);
    assert [s[0]] + s[1..] == s;
  }

  lemma PlainStep(s: string)
    requires s != [] && !NeedsQuote(s)
    ensures !IsQuotedChar(s[0]) && !NeedsQuote(s[1..])
  {}

  lemma {:induction false} ScanBody(s: string, t: string)
    requires '\0' !in s
    ensures Scan(Body(s) + t, true) == Token(s + Scan(t, true).text, Scan(t, true).rest)
    decreases |s|
  {
    hide Scan, EncChar;
    if s == [] {
      assert Body(s) + t == t && s + Scan(t, true).text == Scan(t, true).text;
    } else {
      ScanBody(s[1..], t);
      ScanEscaped(s[0], Body(s[1..]) + t);
      Assoc(EncChar(s[0]), Body(s[1..]), t);
      PrefixedText(s, Scan(t, true));
    }
  }

  lemma {:induction false} ScanPlain(s: string, t: string)
    requires !NeedsQuote(s)
    ensures Scan(s + t, false) == Token(s + Scan(t, false).text, Scan(t, false).rest)
    decreases |s|
  {
    hide Scan, NeedsQuote, IsQuotedChar;
    if s == [] {
      assert s + t == t && s + Scan(t, false).text == Scan(t, false).text;
    } else {
      PlainStep(s);
      ScanPlain(s[1..], t);
      ScanUnquoted(s[0], s[1..] + t);
      Assoc([s[0]], s[1..], t);
      assert [s[0]] + s[1..] == s;
      PrefixedText(s, Scan(t, false));
    }
  }

  lemma ScanQuote(u: string, quoted: bool)
    ensures Scan("\"" + u, quoted) == Scan(u, !quoted)
  {
    assert ("\"" + u)[1..] == u;
  }

  lemma QuotedWord(s: string, t: string)
    requires NeedsQuote(s)
    ensures Word(s) + t == "\"" + (Body(s) + ("\"" + t))
  {
    hide Body, NeedsQuote;
  }

  lemma OpenQuote(s: string, t: string)
    requires NeedsQuote(s)
    ensures Scan(Word(s) + t, false) == Scan(Body(s) + ("\"" + t), true)
    ensures Scan("\"" + t, true) == Scan(t, false)
  {
    hide Body, NeedsQuote, Scan, Word;
    QuotedWord(s, t);
    ScanQuote(Body(s) + ("\"" + t), false);
    ScanQuote(t, true);
  }

  lemma BlankEndsWord(t: string)
    requires t != [] && IsWhitespace(t[0])
    ensures Scan(t, false) == Token([], SkipSpace(t))
  {}

  lemma BareWord(s: string)
    requires !NeedsQuote(s)
    ensures Word(s) == s
  {}

  /** A printed word followed by a blank is read back whole. */
  lemma ScanWord(s: string, t: string)
    requires '\0' !in s && t != [] && IsWhitespace(t[0])
    ensures Scan(Word(s) + t, false) == Token(s, SkipSpace(t))
  {
    hide Scan, Word, Body, NeedsQuote, SkipSpace, IsWhitespace;
    assert s + [] == s;
    BlankEndsWord(t);
    if NeedsQuote(s) {
      OpenQuote(s, t);
      ScanBody(s, "\"" + t);
    } else {
      BareWord(s);
      ScanPlain(s, t);
    }
  }

  function NonEmpty(args: seq<string>): seq<string> {
    if args == [] then [] else (if args[0] == [] then [] else [args[0]]) + NonEmpty(args[1..])
  }

  ghost predicate CStrings(args: seq<string>) {
    forall a :: a in args ==> '\0' !in a
  }

  /** The words of later arguments, each with its blank. */
  function After(args: seq<string>): string {
    if args == [] then [] else " " + Word(args[0]) + After(args[1..])
  }

  lemma {:induction false} AfterAppend(args: seq<string>, last: string)
    ensures After(args + [last]) == After(args) + (" " + Word(last))
  {
    if args == [] {
      assert [last][1..] == [];
      assert " " + Word(last) + [] == " " + Word(last);
    } else {
      AfterAppend(args[1..], last);
      assert (args + [last])[1..] == args[1..] + [last];
      Assoc(" " + Word(args[0]), After(args[1..]), " " + Word(last));
    }
  }

  lemma WordEmpty(s: string)
    ensures Word(s) == [] <==> s == []
    ensures s != [] ==> !IsWhitespace(Word(s)[0])
  {}

  /** The line read from the left: empty arguments in front leave no trace. */
  lemma {:induction false} LineFromLeft(args: seq<string>)
    requires args != []
    ensures Line(args) == if args[0] == [] then Line(args[1..]) else Word(args[0]) + After(args[1..])
    decreases |args|
  {
    hide Line, Word, After;
    var n := |args| - 1;
    var init, last := args[..n], args[n];
    WordEmpty(args[0]);
    LineOfOne(last);
    if n == 0 {
      assert args == [last] && args[1..] == [];
    } else {
      LineFromLeft(init);
      assert args == init + [last] && args[1..] == init[1..] + [last];
      LineAppend(init, last);
      LineAppend(init[1..], last);
      if args[0] != [] {
        AfterAppend(init[1..], last);
        Assoc(Line(init), " ", Word(last));
        Assoc(Word(args[0]), After(init[1..]), " " + Word(last));
      }
    }
  }

  lemma LineOfOne(a: string)
    ensures Line([]) == After([]) == [] && Line([a]) == Word(a) == Word(a) + []
  {
    assert [a][..0] == [];
    assert Line([a]) == [] + [] + Word(a);
  }

  lemma SkipToWord(s: string, t: string)
    requires s != []
    ensures SkipSpace(" " + (Word(s) + t)) == Word(s) + t == SkipSpace(Word(s) + t)
  {
    WordEmpty(s);
    assert (" " + (Word(s) + t))[1..] == Word(s) + t;
  }

  /** Reading one printed word and everything printed behind it. */
  lemma ArgvWord(s: string, t: string)
    requires s != [] && '\0' !in s && t != [] && IsWhitespace(t[0])
    ensures Argv(Word(s) + t) == [s] + Argv(SkipSpace(t))
  {
    SkipToWord(s, t);
    ScanWord(s, t);
    WordEmpty(s);
    hide Scan, SkipSpace, Word;
    assert Word(s) + t != [];
  }

  lemma {:induction false} ArgvAfter(args: seq<string>)
    requires CStrings(args)
    ensures Argv(SkipSpace(After(args) + "\n")) == NonEmpty(args)
    decreases |args|
  {
    hide Argv, Word, After, SkipSpace, NonEmpty;
    AfterStep(args);
    NonEmptyStep(args);
    if args != [] {
      var s, t := args[0], After(args[1..]) + "\n";
      assert CStrings(args[1..]);
      ArgvAfter(args[1..]);
      WordEmpty(s);
      SkipBlank(Word(s) + t);
      if s == [] {
        assert [] + t == t;
      } else {
        SkipToWord(s, t);
        TailIsWhitespace(args[1..]);
        ArgvWord(s, t);
      }
    } else {
      SkipBlank([]);
      ArgvNothing();
    }
  }

  lemma AfterStep(args: seq<string>)
    ensures After(args) + "\n" == if args == [] then "\n" else " " + (Word(args[0]) + (After(args[1..]) + "\n"))
  {
    if args != [] {
      Assoc(" " + Word(args[0]), After(args[1..]), "\n");
      Assoc(" ", Word(args[0]), After(args[1..]) + "\n");
    }
  }

  lemma NonEmptyStep(args: seq<string>)
    ensures NonEmpty(args) == if args == [] then [] else (if args[0] == [] then [] else [args[0]]) + NonEmpty(args[1..])
  {}

  lemma SkipBlank(t: string)
    ensures SkipSpace(" " + t) == SkipSpace(t) && SkipSpace("\n") == []
  {
    assert (" " + t)[1..] == t && "\n"[1..] == [];
  }

  lemma ArgvNothing()
    ensures Argv([]) == []
  {}

  lemma TailIsWhitespace(args: seq<string>)
    ensures var t := After(args) + "\n"; t != [] && IsWhitespace(t[0])
  {}

  /** Splitting a printed line gives back the non-empty arguments; with none of those, one empty argument. */
  lemma {:induction false} ArgvOfCat(args: seq<string>)
    requires CStrings(args)
    ensures Argv(Cat(args)) == if NonEmpty(args) == [] then [""] else NonEmpty(args)
    decreases |args|
  {
    if args == [] {
      assert Cat(args) == "\n" && "\n"[1..] == [];
      assert Dec("\n") == Token([], []);
    } else {
      LineFromLeft(args);
      assert CStrings(args[1..]);
      if args[0] == [] {
        ArgvOfCat(args[1..]);
      } else {
        var t := After(args[1..]) + "\n";
        Assoc(Word(args[0]), After(args[1..]), "\n");
        TailIsWhitespace(args[1..]);
        ArgvWord(args[0], t);
        ArgvAfter(args[1..]);
      }
    }
  }

  lemma {:induction false} NonEmptyIsAll(args: seq<string>)
    ensures |NonEmpty(args)| <= |args|
    ensures NonEmpty(args) == args <==> [] !in args
  {
    if args != [] { NonEmptyIsAll(args[1..]); }
  }

  /** An argument list survives exactly when it is not empty and has no empty argument, or is one empty argument. */
  lemma RoundTrip(args: seq<string>)
    requires CStrings(args)
    ensures Argv(Cat(args)) == args <==> (args != [] && [] !in args) || args == [""]
  {
    ArgvOfCat(args);
    NonEmptyIsAll(args);
    if args == [""] { assert NonEmpty(args[1..]) == []; }
  }

  // ---------------------------------------------------------------------------------------------
  // The printing code
  // ---------------------------------------------------------------------------------------------

  lemma {:induction false} BodyAppend(s: string, c: char)
    ensures Body(s + [c]) == Body(s) + EncChar(c)
  {
    hide EncChar;
    if s == [] {
      assert [c][1..] == [] && EncChar(c) + [] == EncChar(c);
    } else {
      BodyAppend(s[1..], c);
      assert (s + [c])[1..] == s[1..] + [c];
      Assoc(EncChar(s[0]), Body(s[1..]), EncChar(c));
    }
  }

  lemma {:induction false} BodyGrows(s: string, n: nat)
    requires n <= |s|
    ensures |Body(s[..n])| + |s| - n <= |Body(s)|
    decreases |s| - n
  {
    if n < |s| {
      BodyGrows(s, n + 1);
      assert s[..n + 1] == s[..n] + [s[n]];
      BodyAppend(s[..n], s[n]);
    } else {
      assert s[..n] == s;
    }
  }

  /** One character of the body; snprintf cuts an escape short at end but returns its full length. */
  method EncOne(c: char, dst: array<char>, d0: nat, d1: nat, end: nat) returns (d: nat)
    requires d0 <= d1 < end <= dst.Length
    modifies dst
    ensures d == d1 + |EncChar(c)| && dst[..d0] == old(dst[..d0]) && dst[end..] == old(dst[end..])
    ensures d < end ==> dst[d0..d] == old(dst[d0..d1]) + EncChar(c)
  {
    hide EncChar;
    EncSize(c);
    var esc := EncChar(c);
    ghost var before := dst[d0..d1];
    if |esc| == 2 {
      var n := if end - d1 > 2 then 2 else end - d1 - 1;
      forall j | 0 <= j < n { dst[d1 + j] := esc[j]; }
      dst[d1 + n] := '\0';
    } else {
      dst[d1] := c;
    }
    d := d1 + |esc|;
    if d < end { assert dst[d0..d] == before + esc; }
  }

  /** opt_quoted_enc_style in the C style, printing src at dst[d0..] within dstlen characters. */
  method QuotedEnc(src: string, dst: array<char>, d0: nat, dstlen: nat) returns (r: int)
    requires 1 <= dstlen && d0 + dstlen <= dst.Length
    modifies dst
    ensures dst[..d0] == old(dst[..d0]) && dst[d0 + dstlen..] == old(dst[d0 + dstlen..])
    ensures r == if |Body(src)| + 4 < dstlen then |Quoted(src)| else -1
    ensures r >= 0 ==> r + 1 < dstlen && dst[d0..d0 + r] == Quoted(src) && dst[d0 + r] == '\0'
  {
    hide Body, EncChar;
    BodyNothing();
    var end, d, i := d0 + dstlen - 3, d0 + 1, 0;
    dst[d0] := '"';
    while i < |src| && d < end
      invariant 0 <= i <= |src| && d == d0 + 1 + |Body(src[..i])|
      invariant dst[..d0] == old(dst[..d0]) && dst[d0 + dstlen..] == old(dst[d0 + dstlen..])
      invariant d < end ==> dst[d0..d] == "\"" + Body(src[..i])
    {
      assert src[..i + 1] == src[..i] + [src[i]];
      BodyAppend(src[..i], src[i]);
      d := EncOne(src[i], dst, d0, d, end);
      i := i + 1;
    }
    BodyGrows(src, i);
    assert src[..|src|] == src;
    if d < end {
      dst[d] := '"';
      d := d + 1;
      dst[d] := '\0';
      assert dst[d0..d] == "\"" + Body(src) + "\"";
      return d - d0;
    }
    return -1;
  }

  lemma EncSize(c: char)
    ensures |EncChar(c)| == 1 ==> EncChar(c) == [c]
  {}

  lemma BodyNothing()
    ensures Body([]) == []
  {}

  /** An argument of opt_cat: null, a string, or the 32-bit integer behind OPT_CAT_INT. */
  datatype Arg = Null | Text(s: string) | Number(n: int)

  function DecNat(n: nat): string {
    (if n < 10 then [] else DecNat(n / 10)) + [(n % 10 + 48) as char]
  }

  /** An int as sprintf prints it. */
  function Dec10(n: int): string {
    if n < 0 then "-" + DecNat(-n) else DecNat(n)
  }

  function ArgText(a: Arg): string {
    match a case Null => [] case Text(s) => s case Number(n) => Dec10(n)
  }

  /** The texts of the arguments that are not null. */
  function Given(args: seq<Arg>): seq<string> {
    if args == [] then []
    else
      var a, before := args[|args| - 1], Given(args[..|args| - 1]);
      if a.Null? then before else before + [ArgText(a)]
  }

  predicate Int32(n: int) { -0x8000_0000 <= n < 0x8000_0000 }

  /** Strings end at their NUL, numbers are ints. */
  ghost predicate ArgsOk(args: seq<Arg>) {
    forall a :: a in args ==> (a.Text? ==> '\0' !in a.s) && (a.Number? ==> Int32(a.n))
  }

  /** Room enough for the line, its newline and NUL, and one character more after a quoted last word. */
  ghost predicate Fits(args: seq<string>, len: int) {
    |Cat(args)| + (if args != [] && NeedsQuote(args[|args| - 1]) then 2 else 1) <= len
  }

  lemma LineAppend(args: seq<string>, a: string)
    ensures Line(args + [a]) == Line(args) + (if Line(args) == [] then [] else " ") + Word(a)
  {
    assert (args + [a])[..|args|] == args;
  }

  lemma {:induction false} LineGrows(args: seq<string>, n: nat)
    requires n <= |args|
    ensures |Line(args[..n])| <= |Line(args)|
    ensures n < |args| && Line(args[..n]) != [] ==> |Line(args[..n])| < |Line(args)|
    decreases |args| - n
  {
    hide Line, Word;
    if n < |args| {
      LineGrows(args, n + 1);
      assert args[..n + 1] == args[..n] + [args[n]];
      LineAppend(args[..n], args[n]);
    } else {
      assert args[..n] == args;
    }
  }

  lemma QuotedLine(args: seq<string>, n: nat)
    requires 0 < n <= |args| && NeedsQuote(args[n - 1])
    ensures Line(args[..n]) != []
  {
    hide NeedsQuote, Body;
    assert args[..n][n - 1] == args[n - 1];
  }

  /** Once the words so far leave too little room, no continuation fits. */
  lemma TooLong(args: seq<string>, n: nat, len: int)
    requires 0 < n <= |args|
    requires |Line(args[..n])| + 2 > len || (NeedsQuote(args[n - 1]) && |Line(args[..n])| + 3 > len)
    ensures !Fits(args, len)
  {
    hide Line, NeedsQuote;
    LineGrows(args, n);
    if n == |args| { assert args[..n] == args; }
    if NeedsQuote(args[n - 1]) { QuotedLine(args, n); }
  }

  lemma GivenStep(args: seq<Arg>, i: nat)
    requires i < |args|
    ensures Given(args[..i + 1]) == if args[i].Null? then Given(args[..i]) else Given(args[..i]) + [ArgText(args[i])]
  {
    assert args[..i + 1][..i] == args[..i];
  }

  lemma {:induction false} GivenGrows(args: seq<Arg>, i: nat)
    requires i <= |args|
    ensures Given(args[..i]) <= Given(args)
    decreases |args| - i
  {
    if i < |args| {
      GivenStep(args, i);
      GivenGrows(args, i + 1);
    } else {
      assert args[..i] == args;
    }
  }

  predicate IsDecimal(s: string) {
    s != [] && forall i :: 0 <= i < |s| ==> s[i] == '-' || '0' <= s[i] <= '9'
  }

  function Pow10(k: nat): nat {
    if k == 0 then 1 else 10 * Pow10(k - 1)
  }

  lemma {:induction false} DecNatBounds(n: nat, k: nat)
    requires k >= 1 && n < Pow10(k)
    ensures 1 <= |DecNat(n)| <= k && IsDecimal(DecNat(n))
    decreases k
  {
    if n >= 10 { DecNatBounds(n / 10, k - 1); }
  }

  /** An int takes at most eleven characters, none of which needs quotes. */
  lemma NumberBounds(n: int)
    requires Int32(n)
    ensures 1 <= |Dec10(n)| <= 11 && IsDecimal(Dec10(n))
  {
    TenDigits();
    DecNatBounds(if n < 0 then -n else n, 10);
  }

  lemma TenDigits()
    ensures Pow10(10) == 10_000_000_000
  {
    assert Pow10(5) == 100_000;
    assert Pow10(6) == 1_000_000;
    assert Pow10(8) == 100_000_000;
  }

  /** The printed digits have the value of the number. */
  function Value(s: string): int {
    if s == [] then 0 else 10 * Value(s[..|s| - 1]) + (s[|s| - 1] as int - 48)
  }

  lemma {:induction false} DecNatValue(n: nat)
    ensures Value(DecNat(n)) == n
    decreases n
  {
    var s := DecNat(n);
    if n >= 10 {
      DecNatValue(n / 10);
      assert s[..|s| - 1] == DecNat(n / 10);
    } else {
      assert s[..|s| - 1] == [];
    }
  }

  /** A negative number is a minus sign in front of its magnitude. */
  lemma IntValue(n: int)
    ensures n >= 0 ==> Value(Dec10(n)) == n
    ensures n < 0 ==> Dec10(n)[0] == '-' && Value(Dec10(n)[1..]) == -n
  {
    DecNatValue(if n < 0 then -n else n);
    if n < 0 { assert Dec10(n)[1..] == DecNat(-n); }
  }

  lemma {:induction false} DecimalIsBare(s: string)
    requires IsDecimal(s)
    ensures !NeedsQuote(s) && '\0' !in s
    decreases |s|
  {
    if |s| > 1 { DecimalIsBare(s[1..]); }
  }

  lemma ArgTextOk(a: Arg)
    requires ArgsOk([a])
    ensures '\0' !in ArgText(a)
    ensures a.Number? ==> 1 <= |ArgText(a)| <= 11 && !NeedsQuote(ArgText(a))
  {
    assert a in [a];
    if a.Number? {
      NumberBounds(a.n);
      DecimalIsBare(ArgText(a));
    }
  }

  lemma {:induction false} GivenOk(args: seq<Arg>)
    requires ArgsOk(args)
    ensures CStrings(Given(args))
    decreases |args|
  {
    if args != [] {
      var n := |args| - 1;
      GivenOk(args[..n]);
      ArgTextOk(args[n]);
    }
  }

  /**
   * Where opt_cat stores a NUL at or behind len, if it does: the first word printed without quotes that leaves no room,
   * one place too far for a string, which sprintf cuts off, and further for a number, which it does not.
   */
  function Overrun(args: seq<Arg>, i: nat, len: int): Option<nat>
    requires i <= |args|
    decreases |args| - i
  {
    if i == |args| then None
    else if args[i].Null? then Overrun(args, i + 1, len)
    else
      var before, after := |Line(Given(args[..i]))|, |Line(Given(args[..i + 1]))|;
      if len - before < 2 then None
      else if NeedsQuote(ArgText(args[i])) then if after + 3 > len then None else Overrun(args, i + 1, len)
      else if after < len then Overrun(args, i + 1, len)
      else Some(if args[i].Text? then len else after)
  }

  lemma OverrunStep(args: seq<Arg>, i: nat, len: int)
    requires i < |args| && !args[i].Null?
    ensures var before, after := |Line(Given(args[..i]))|, |Line(Given(args[..i + 1]))|;
      Overrun(args, i, len) ==
        if len - before < 2 then None
        else if NeedsQuote(ArgText(args[i])) then if after + 3 > len then None else Overrun(args, i + 1, len)
        else if after < len then Overrun(args, i + 1, len) else Some(if args[i].Text? then len else after)
  {}

  /** A call that succeeds stays within len. */
  lemma {:induction false} FittingStaysInside(args: seq<Arg>, i: nat, len: int)
    requires i <= |args| && Fits(Given(args), len)
    ensures Overrun(args, i, len) == None
    decreases |args| - i
  {
    hide Line, NeedsQuote, Given;
    if i < |args| {
      FittingStaysInside(args, i + 1, len);
      GivenGrows(args, i + 1);
      var all, g := Given(args), Given(args[..i + 1]);
      assert all[..|g|] == g;
      LineGrows(all, |g|);
    }
  }

  /** A failing call need not: abc does not fit in three characters, and its NUL is stored in a fourth. */
  lemma FailureCanOverrun()
    ensures Overrun([Text("abc")], 0, 3) == Some(3) && !Fits(Given([Text("abc")]), 3)
  {
    var args := [Text("abc")];
    assert args[..0] == [] && args[..1] == args;
    assert Given(args) == [] + ["abc"] == ["abc"];
    BareAbc();
    GivenNothing();
    LineAppend([], "abc");
    assert [] + ["abc"] == ["abc"];
  }

  lemma BareAbc()
    ensures !NeedsQuote("abc") && Word("abc") == "abc"
  {
    assert "abc"[1..] == "bc" && "bc"[1..] == "c" && "c"[1..] == [];
  }

  /** Where the next word of a line ends. */
  function LineEnd(pout: nat, word: string): nat {
    pout + (if pout > 0 then 1 else 0) + |word|
  }

  /** sprintf of a word without quotes at p: a string is cut off at nout characters, a number is not. */
  method Sprintf(arg: Arg, buf: array<char>, p: nat, nout: nat) returns (i: nat)
    requires !arg.Null?
    requires p + (if arg.Text? && |ArgText(arg)| > nout then nout else |ArgText(arg)|) < buf.Length
    modifies buf
    ensures var w := ArgText(arg);
      && i == (if arg.Text? && |w| > nout then nout else |w|)
      && buf[..p + i] == old(buf[..p]) + w[..i] && buf[p + i] == '\0'
      && buf[p + i + 1..] == old(buf[p + i + 1..])
  {
    hide ArgText;
    var w := ArgText(arg);
    i := if arg.Text? && |w| > nout then nout else |w|;
    forall j | 0 <= j < i { buf[p + j] := w[j]; }
    buf[p + i] := '\0';
  }

  ghost predicate NulAt(buf: array<char>, k: nat)
    reads buf
  {
    k < buf.Length && buf[k] == '\0'
  }

  /** A word without quotes at p: the new output length, or -1 when no room is left after it. */
  method CatBare(arg: Arg, buf: array<char>, p: nat, nout: nat, len: nat) returns (r: int)
    requires !arg.Null? && 1 <= nout && p + nout == len <= buf.Length
    requires |ArgText(arg)| >= nout ==> (if arg.Text? then len else p + |ArgText(arg)|) < buf.Length
    modifies buf
    ensures var w := ArgText(arg);
      if |w| < nout then r == p + |w| && buf[..r] == old(buf[..p]) + w && buf[len..] == old(buf[len..])
      else r == -1 && NulAt(buf, if arg.Text? then len else p + |w|)
  {
    hide ArgText;
    var w := ArgText(arg);
    ghost var before := buf[..];
    var i := Sprintf(arg, buf, p, nout);
    if |w| >= nout { return -1; }
    assert w[..i] == w;
    TailKept(before, buf[..], p + i + 1, len);
    return p + i;
  }

  lemma TailKept(b: string, c: string, q: nat, len: nat)
    requires q <= len <= |b| == |c| && b[q..] == c[q..]
    ensures b[len..] == c[len..]
  {
    assert b[len..] == b[q..][len - q..] && c[len..] == c[q..][len - q..];
  }

  /**
   * One argument of opt_cat (opt.c:59-80): the new output length, or -1. With one character of room or none left after
   * it the next test for two fails, so that is reported here. The buffer need only hold what is stored.
   */
  method CatOne(arg: Arg, buf: array<char>, pout: nat, len: nat) returns (r: int)
    requires ArgsOk([arg]) && !arg.Null? && pout <= len <= buf.Length
    requires var w, full := ArgText(arg), LineEnd(pout, Word(ArgText(arg)));
      pout + 2 <= len && !NeedsQuote(w) && full >= len ==> (if arg.Text? then len else full) < buf.Length
    modifies buf
    ensures var w, full := ArgText(arg), LineEnd(pout, Word(ArgText(arg)));
      && (r >= 0 ==> pout + 2 <= len && r == full < len)
      && (r >= 0 ==> buf[..r] == old(buf[..pout]) + (if pout > 0 then " " else "") + Word(w))
      && (r >= 0 && NeedsQuote(w) ==> r + 3 <= len)
      && (r < 0 ==> pout + 2 > len || full >= len || (NeedsQuote(w) && full + 3 > len))
      && if pout + 2 <= len && !NeedsQuote(w) && full >= len
         then NulAt(buf, if arg.Text? then len else full) else buf[len..] == old(buf[len..])
  {
    hide NeedsQuote, Body, ArgText, ArgsOk;
    ArgTextOk(arg);
    var w := ArgText(arg);
    var p, nout := pout, len - pout;
    if nout < 2 { return -1; }
    ghost var before, beyond := buf[..pout], buf[len..];
    if p > 0 {
      buf[p] := ' ';
      p, nout := p + 1, nout - 1;
    }
    ghost var head := before + if pout > 0 then " " else "";
    assert buf[..p] == head && buf[len..] == beyond;
    if NeedsQuote(w) {
      var i := QuotedEnc(w, buf, p, nout);
      if i < 0 { return -1; }
      assert buf[..p + i] == buf[..p] + buf[p..p + i];
      return p + i;
    }
    r := CatBare(arg, buf, p, nout, len);
  }

  /** A buffer of this many characters takes all that opt_cat stores: len of them do, unless it stores behind len. */
  predicate Takes(args: seq<Arg>, len: nat, capacity: nat) {
    len <= capacity && match Overrun(args, 0, len) case None => true case Some(k) => k < capacity
  }

  /** What is stored behind len is less than twelve characters behind it, the length of an int and a NUL. */
  lemma {:induction false} OverrunBounds(args: seq<Arg>, i: nat, len: int)
    requires i <= |args| && ArgsOk(args)
    ensures var k := Overrun(args, i, len); k.Some? ==> len <= k.value < len + 12
    decreases |args| - i
  {
    hide Line, NeedsQuote, Given, ArgText;
    if i < |args| {
      OverrunBounds(args, i + 1, len);
      if !args[i].Null? {
        OneOk(args, i);
        GivenStep(args, i);
        OverrunStep(args, i, len);
        LineShorter(Given(args[..i]), ArgText(args[i]));
      }
    }
  }

  /** opt_cat: succeeds exactly when the line fits, and then nothing is missing from it. */
  method OptCat(buf: array<char>, len: nat, args: seq<Arg>) returns (r: int)
    requires ArgsOk(args) && Takes(args, len, buf.Length)
    modifies buf
    ensures r == if Fits(Given(args), len) then |Cat(Given(args))| else -1
    ensures r >= 0 ==> r == |Cat(Given(args))| < len && buf[..r] == Cat(Given(args)) && buf[r] == '\0'
    ensures match Overrun(args, 0, len)
      case None => buf[len..] == old(buf[len..])
      case Some(k) => len <= k && NulAt(buf, k)
  {
    hide Word, NeedsQuote, Line, LineEnd, Given, ArgText, Overrun, ArgsOk, NulAt;
    GivenNothing();
    var pout, i := 0, 0;
    ghost var all, beyond := Given(args), buf[len..];
    while i < |args|
      invariant 0 <= i <= |args| && Given(args[..i]) <= all
      invariant pout == |Line(Given(args[..i]))| <= len && buf[..pout] == Line(Given(args[..i]))
      invariant Given(args[..i]) != [] ==> pout < len
      invariant var g := Given(args[..i]); g != [] && NeedsQuote(g[|g| - 1]) ==> pout + 3 <= len
      invariant Overrun(args, 0, len) == Overrun(args, i, len) && buf[len..] == beyond
    {
      GivenStep(args, i);
      GivenGrows(args, i + 1);
      if !args[i].Null? {
        ghost var g, w := Given(args[..i]), ArgText(args[i]);
        OneOk(args, i);
        OverrunStep(args, i, len);
        LineShorter(g, w);
        var n := CatOne(args[i], buf, pout, len);
        if n < 0 {
          assert all[..|g| + 1] == g + [w];
          TooLong(all, |g| + 1, len);
          return -1;
        }
        pout := n;
      } else {
        OverrunSkips(args, i, len);
      }
      i := i + 1;
    }
    assert args[..|args|] == args;
    OverrunEnds(args, len);
    if len - pout < 2 {
      return -1;
    }
    r := Finish(buf, pout, len);
  }

  lemma OneOk(args: seq<Arg>, i: nat)
    requires ArgsOk(args) && i < |args|
    ensures ArgsOk([args[i]]) && (args[i].Number? ==> |ArgText(args[i])| <= 11)
  {
    assert forall a :: a in [args[i]] ==> a in args;
    ArgTextOk(args[i]);
  }

  lemma OverrunSkips(args: seq<Arg>, i: nat, len: int)
    requires i < |args| && args[i].Null?
    ensures Overrun(args, i, len) == Overrun(args, i + 1, len)
  {}

  lemma OverrunEnds(args: seq<Arg>, len: int)
    ensures Overrun(args, |args|, len) == None
  {}

  /** The final newline. */
  method Finish(buf: array<char>, pout: nat, len: nat) returns (r: nat)
    requires pout + 2 <= len <= buf.Length
    modifies buf
    ensures r == pout + 1 && buf[..r] == old(buf[..pout]) + "\n" && buf[r] == '\0' && buf[len..] == old(buf[len..])
  {
    buf[pout] := '\n';
    buf[pout + 1] := '\0';
    r := pout + 1;
  }

  lemma LineShorter(args: seq<string>, a: string)
    ensures |Line(args)| <= |Line(args + [a])| == LineEnd(|Line(args)|, Word(a))
    ensures Line(args + [a]) == Line(args) + (if |Line(args)| > 0 then " " else "") + Word(a)
  {
    LineAppend(args, a);
  }

  lemma GivenNothing()
    ensures Given([]) == [] && Line([]) == []
  {}

  // ---------------------------------------------------------------------------------------------
  // The parsing code, which rewrites its input
  // ---------------------------------------------------------------------------------------------

  /** From s on, the buffer still holds the text it held at first, and its NUL. */
  ghost predicate Unread(buf: array<char>, text: string, s: nat)
    reads buf
  {
    s <= |text| < buf.Length && buf[s..|text|] == text[s..] && buf[|text|] == '\0'
  }

  ghost function Part(buf: array<char>, i: nat, j: nat): string
    requires i <= j <= buf.Length
    reads buf
  {
    buf[i..j]
  }

  /** What stands in front of the argument being decoded and behind the NUL of the text. */
  ghost function Outside(buf: array<char>, text: string, d0: nat): (string, string)
    reads buf
  {
    if d0 <= buf.Length && |text| < buf.Length then (buf[..d0], buf[|text| + 1..]) else ([], [])
  }

  lemma OutsideParts(buf: array<char>, text: string, d0: nat)
    requires d0 <= buf.Length && |text| < buf.Length
    ensures Outside(buf, text, d0) == (Part(buf, 0, d0), Part(buf, |text| + 1, buf.Length))
    ensures |Part(buf, 0, d0)| == d0 && Part(buf, |text| + 1, buf.Length) == buf[|text| + 1..]
  {
    assert buf[..d0] == buf[0..d0] && buf[|text| + 1..] == buf[|text| + 1..buf.Length];
  }

  lemma PartNothing(buf: array<char>, i: nat)
    requires i <= buf.Length
    ensures Part(buf, i, i) == []
  {}

  lemma PartGrows(buf: array<char>, i: nat, j: nat)
    requires i <= j < buf.Length
    ensures Part(buf, 0, j + 1) == Part(buf, 0, i) + Part(buf, i, j) + [buf[j]]
    ensures |Part(buf, 0, i)| == i
  {}

  /** No escape runs over the end: no backslash between quotes is the last character of the text. */
  ghost predicate Closed(s: string, quoted: bool)
    decreases |s|
  {
    s != [] ==>
      if !quoted then Closed(s[1..], s[0] == '"')
      else if s[0] == '\\' then |s| > 1 && Closed(s[2..], true)
      else Closed(s[1..], s[0] != '"')
  }

  /** Text without NUL, read up to s, inside or outside quotes, and closed from there on. */
  ghost predicate Scannable(text: string, s: nat, quoted: bool) {
    '\0' !in text && s <= |text| && Closed(text[s..], quoted)
  }

  lemma ClosedAt(text: string, s: nat, quoted: bool)
    requires Scannable(text, s, quoted) && s < |text|
    ensures quoted && text[s] == '\\' ==> s + 1 < |text| && Scannable(text, s + 2, true)
    ensures !(quoted && text[s] == '\\') ==> Scannable(text, s + 1, if quoted then text[s] != '"' else text[s] == '"')
  {
    assert text[s..][1..] == text[s + 1..];
    if s + 1 < |text| { assert text[s..][2..] == text[s + 2..]; }
  }

  /** A text that does not end in a backslash is closed, however it begins. */
  lemma {:induction false} LastCloses(s: string, quoted: bool)
    requires s != [] ==> s[|s| - 1] != '\\'
    ensures Closed(s, quoted)
    decreases |s|
  {
    if s != [] {
      LastCloses(s[1..], if quoted then s[0] != '"' else s[0] == '"');
      if |s| > 1 { LastCloses(s[2..], true); }
    }
  }

  function Resumed(w: string, t: Token): Token {
    Token(w + t.text, t.rest)
  }

  lemma ResumedMore(w: string, c: char, t: Token)
    ensures Resumed(w, Prefixed(c, t)) == Resumed(w + [c], t)
  {
    Assoc(w, [c], t.text);
  }

  /** One step of Scan at position s of the text. */
  lemma ScanAt(text: string, s: nat, quoted: bool)
    requires s < |text| && Scannable(text, s, quoted)
    ensures var t, c := Scan(text[s..], quoted), text[s];
      && c != '\0'
      && (c == '"' ==> t == Scan(text[s + 1..], !quoted))
      && (c == '\\' && quoted ==> s + 1 < |text| && t == Prefixed(Unescape(text[s + 1]), Scan(text[s + 2..], true)))
      && (c != '"' && (quoted ==> c != '\\') && (!quoted ==> !IsWhitespace(c)) ==>
            t == Prefixed(c, Scan(text[s + 1..], quoted)))
      && (!quoted && IsWhitespace(c) ==> t == Token([], SkipSpace(text[s..])))
  {
    assert text[s..][1..] == text[s + 1..];
    if s + 1 < |text| { assert text[s..][2..] == text[s + 2..]; }
  }

  lemma SkipSpaceAt(text: string, s: nat)
    requires s < |text|
    ensures SkipSpace(text[s..]) == if IsWhitespace(text[s]) then SkipSpace(text[s + 1..]) else text[s..]
  {
    assert text[s..][1..] == text[s + 1..];
  }

  lemma SkipSpaceEnd()
    ensures SkipSpace([]) == []
  {}

  /** strspn over blanks. */
  method SkipBlanks(buf: array<char>, text: string, s0: nat) returns (s: nat)
    requires Unread(buf, text, s0)
    ensures s0 <= s <= |text| && text[s..] == SkipSpace(text[s0..]) && Unread(buf, text, s)
    ensures s0 < |text| && IsWhitespace(text[s0]) ==> s > s0
  {
    hide SkipSpace;
    s := s0;
    SkipSpaceEnd();
    UnreadAt(buf, text, s);
    while IsWhitespace(buf[s])
      invariant s0 <= s && Unread(buf, text, s) && SkipSpace(text[s..]) == SkipSpace(text[s0..])
      invariant s > s0 || (s0 < |text| ==> buf[s0] == text[s0])
      decreases |text| - s
    {
      UnreadAt(buf, text, s);
      SkipSpaceAt(text, s);
      UnreadTail(buf, text, s, s + 1);
      s := s + 1;
    }
    UnreadAt(buf, text, s);
    if s < |text| { SkipSpaceAt(text, s); }
  }

  /** Storing behind the read position, just after w. */
  method Store(buf: array<char>, ghost text: string, ghost s: nat, d0: nat, d: nat, c: char)
    requires Unread(buf, text, s) && d0 <= d < s
    modifies buf
    ensures Unread(buf, text, s) && Outside(buf, text, d0) == old(Outside(buf, text, d0))
      && Part(buf, d0, d + 1) == old(Part(buf, d0, d)) + [c]
  {
    ghost var tail := buf[s..|text|];
    buf[d] := c;
    assert buf[s..|text|] == tail;
  }

  /** One character between quotes, escaped or not (opt.c:203-224). */
  method DecChar(buf: array<char>, text: string, s0: nat, d0: nat, d: nat) returns (s: nat)
    requires Scannable(text, s0, true) && Unread(buf, text, s0) && s0 < |text| && text[s0] != '"' && d0 <= d < s0
    modifies buf
    ensures s0 < s <= |text| && Unread(buf, text, s) && Scannable(text, s, true)
    ensures Outside(buf, text, d0) == old(Outside(buf, text, d0))
    ensures Resumed(old(Part(buf, d0, d)), Scan(text[s0..], true)) ==
      Resumed(Part(buf, d0, d + 1), Scan(text[s..], true))
  {
    hide Scan, SkipSpace, IsWhitespace, Resumed, Scannable, Unescape, Unread, Part, Outside;
    s := s0;
    UnreadAt(buf, text, s);
    ScanAt(text, s, true);
    ClosedAt(text, s, true);
    UnreadTail(buf, text, s, s + 1);
    var c := buf[s];
    if c == '\\' {
      s := s + 1;
      UnreadAt(buf, text, s);
      UnreadTail(buf, text, s, s + 1);
      c := Unescape(buf[s]);
    }
    ResumedMore(Part(buf, d0, d), c, Scan(text[s + 1..], true));
    Store(buf, text, s + 1, d0, d, c);
    s := s + 1;
  }

  /** The whole token is what stands between d0 and d, continued from s on. */
  ghost predicate Reading(buf: array<char>, text: string, s: nat, d0: nat, d: nat, quoted: bool, token: Token)
    requires d0 <= d <= buf.Length && s <= |text|
    reads buf
  {
    token == Resumed(Part(buf, d0, d), Scan(text[s..], quoted))
  }

  lemma StartReading(buf: array<char>, text: string, s: nat, d0: nat)
    requires d0 <= buf.Length && s <= |text|
    ensures Reading(buf, text, s, d0, d0, false, Scan(text[s..], false))
  {
    hide Scan;
    ResumedNothing(Scan(text[s..], false));
  }

  lemma StopReading(buf: array<char>, text: string, s: nat, d0: nat, d: nat, token: Token)
    requires d0 <= d <= buf.Length && s <= |text| && Scannable(text, s, false)
      && Reading(buf, text, s, d0, d, false, token)
    requires s == |text| || IsWhitespace(text[s])
    ensures token == Token(Part(buf, d0, d), if s == |text| then [] else SkipSpace(text[s..]))
  {
    hide Scan, SkipSpace, Part, Scannable;
    if s == |text| { ScanAtEnd(text, s, false); } else { ScanAt(text, s, false); }
    ResumedEmpty(Part(buf, d0, d), Scan(text[s..], false).rest);
  }

  /** One round of the inner loop: the closing quote, or a character of the argument. */
  method QuotedStep(buf: array<char>, text: string, s0: nat, d0: nat, d1: nat, ghost token: Token)
    returns (s: nat, d: nat, instr: bool)
    requires Scannable(text, s0, true) && Unread(buf, text, s0) && s0 < |text| < buf.Length && d0 <= d1 < s0
    requires Reading(buf, text, s0, d0, d1, true, token)
    modifies buf
    ensures s0 < s <= |text| && d1 <= d < s && d - d1 <= s - s0 && Unread(buf, text, s) && Scannable(text, s, instr)
    ensures Outside(buf, text, d0) == old(Outside(buf, text, d0)) && Reading(buf, text, s, d0, d, instr, token)
  {
    hide Scan, SkipSpace, IsWhitespace, Resumed, Scannable, Unescape, Unread, Part, Outside;
    UnreadAt(buf, text, s0);
    ScanAt(text, s0, true);
    ClosedAt(text, s0, true);
    if buf[s0] == '"' {
      UnreadTail(buf, text, s0, s0 + 1);
      s, d, instr := s0 + 1, d1, false;
    } else {
      s := DecChar(buf, text, s0, d0, d1);
      d, instr := d1 + 1, true;
    }
    UnreadAt(buf, text, s);
  }

  lemma UnquotedAtEnd(buf: array<char>, text: string, s: nat, d0: nat, d: nat, instr: bool, token: Token)
    requires d0 <= d <= buf.Length && s <= |text| && Scannable(text, s, instr)
      && Reading(buf, text, s, d0, d, instr, token)
    requires instr ==> s == |text|
    ensures Reading(buf, text, s, d0, d, false, token) && Scannable(text, s, false)
  {
    hide Scan, Part, Scannable;
    ScanAtEnd(text, s, instr);
  }

  /** The inner loop of opt_quoted_dec, after an opening quote (opt.c:192-228). */
  method DecQuoted(buf: array<char>, text: string, s0: nat, d0: nat, d1: nat, end: nat, ghost token: Token)
    returns (s: nat, d: nat)
    requires Scannable(text, s0, true) && Unread(buf, text, s0) && s0 <= |text| < buf.Length
    requires d0 <= d1 < s0 && end - d1 >= |text| - s0 && Reading(buf, text, s0, d0, d1, true, token)
    modifies buf
    ensures s0 <= s <= |text| && d1 <= d < s && Unread(buf, text, s) && d - d1 <= s - s0
    ensures Scannable(text, s, false)
    ensures Outside(buf, text, d0) == old(Outside(buf, text, d0)) && Reading(buf, text, s, d0, d, false, token)
  {
    hide Scan, SkipSpace, IsWhitespace, Resumed, Scannable, Unescape, Unread, Part, Outside, Reading;
    s, d := s0, d1;
    var instr := true;
    ghost var front := Outside(buf, text, d0);
    while instr && buf[s] != '\0' && d < end
      invariant s0 <= s <= |text| < buf.Length && d1 <= d < s && d - d1 <= s - s0
      invariant Scannable(text, s, instr) && Unread(buf, text, s) && Outside(buf, text, d0) == front
        && Reading(buf, text, s, d0, d, instr, token)
      decreases |text| - s
    {
      UnreadAt(buf, text, s);
      s, d, instr := QuotedStep(buf, text, s, d0, d, token);
    }
    UnreadAt(buf, text, s);
    ScanAtEnd(text, s, instr);
    UnquotedAtEnd(buf, text, s, d0, d, instr, token);
  }

  /** One character outside quotes (opt.c:230-232). */
  method PlainChar(buf: array<char>, text: string, s: nat, d0: nat, d: nat)
    requires Scannable(text, s, false) && Unread(buf, text, s) && s < |text| && d0 <= d <= s
    requires text[s] != '"' && !IsWhitespace(text[s])
    modifies buf
    ensures Scannable(text, s + 1, false) && Unread(buf, text, s + 1)
    ensures Outside(buf, text, d0) == old(Outside(buf, text, d0))
    ensures Resumed(old(Part(buf, d0, d)), Scan(text[s..], false)) ==
      Resumed(Part(buf, d0, d + 1), Scan(text[s + 1..], false))
  {
    hide Scan, SkipSpace, IsWhitespace, Resumed, Scannable, Unescape, Unread, Part, Outside;
    UnreadAt(buf, text, s);
    ScanAt(text, s, false);
    ClosedAt(text, s, false);
    ResumedMore(Part(buf, d0, d), buf[s], Scan(text[s + 1..], false));
    UnreadTail(buf, text, s, s + 1);
    Store(buf, text, s + 1, d0, d, buf[s]);
  }

  /** In the middle of an argument: the text from s on and the characters before d0 are as they were. */
  ghost predicate Midway(buf: array<char>, text: string, s: nat, d0: nat, d: nat, front: (string, string), token: Token)
    reads buf
  {
    && s <= |text| < buf.Length && d0 <= d <= buf.Length && Scannable(text, s, false) && Unread(buf, text, s)
    && Outside(buf, text, d0) == front && Reading(buf, text, s, d0, d, false, token)
  }

  /** One round of the outer loop, at a character that is not a blank. */
  method TokenStep(buf: array<char>, text: string, s0: nat, d0: nat, d1: nat, end: nat, ghost front: (string, string),
                   ghost token: Token)
    returns (s: nat, d: nat)
    requires Midway(buf, text, s0, d0, d1, front, token) && s0 < |text| && !IsWhitespace(text[s0])
    requires d0 <= d1 <= s0 && end - d1 >= |text| - s0
    modifies buf
    ensures s0 < s <= |text| && d1 <= d <= s && d - d1 <= s - s0 && Midway(buf, text, s, d0, d, front, token)
    ensures d == s ==> !IsWhitespace(text[s - 1])
  {
    hide Scan, SkipSpace, IsWhitespace, Resumed, Scannable, Unescape, Unread, Part, Outside;
    UnreadAt(buf, text, s0);
    ScanAt(text, s0, false);
    ClosedAt(text, s0, false);
    if buf[s0] == '"' {
      UnreadTail(buf, text, s0, s0 + 1);
      s, d := DecQuoted(buf, text, s0 + 1, d0, d1, end, token);
    } else {
      PlainChar(buf, text, s0, d0, d1);
      s, d := s0 + 1, d1 + 1;
    }
    UnreadAt(buf, text, s);
  }

  lemma MidwayAt(buf: array<char>, text: string, s: nat, d0: nat, d: nat, front: (string, string), token: Token)
    requires Midway(buf, text, s, d0, d, front, token)
    ensures s <= |text| < buf.Length && (if s < |text| then buf[s] == text[s] != '\0' else buf[s] == '\0')
  {
    hide Reading, Part, Outside;
    UnreadAt(buf, text, s);
    ScanAtEnd(text, s, false);
  }

  /** The outer loop of opt_quoted_dec, up to the blank or NUL that ends the argument (opt.c:181-234). */
  method ScanChars(buf: array<char>, text: string, s0: nat, d0: nat, end: nat, ghost front: (string, string),
                   ghost token: Token)
    returns (s: nat, d: nat)
    requires Midway(buf, text, s0, d0, d0, front, token) && d0 <= s0 && end - d0 >= |text| - s0
    modifies buf
    ensures s0 <= s <= |text| && d0 <= d <= s && d - d0 <= s - s0 && (s == |text| || IsWhitespace(text[s]))
    ensures d == s && s0 < s ==> !IsWhitespace(text[s - 1])
    ensures Midway(buf, text, s, d0, d, front, token)
  {
    hide IsWhitespace, Midway;
    s, d := s0, d0;
    MidwayAt(buf, text, s, d0, d, front, token);
    while buf[s] != '\0' && d < end
      invariant s0 <= s <= |text| < buf.Length && d0 <= d <= s && d - d0 <= s - s0
      invariant Midway(buf, text, s, d0, d, front, token)
      invariant d == s && s0 < s ==> !IsWhitespace(text[s - 1])
      decreases |text| - s
    {
      MidwayAt(buf, text, s, d0, d, front, token);
      if IsWhitespace(buf[s]) { break; }
      s, d := TokenStep(buf, text, s, d0, d, end, front, token);
    }
    MidwayAt(buf, text, s, d0, d, front, token);
  }

  /** The argument and the blanks behind it. */
  method ScanToken(buf: array<char>, text: string, s0: nat, d0: nat, end: nat) returns (s: nat, d: nat)
    requires Scannable(text, s0, false) && Unread(buf, text, s0) && d0 <= s0 && end - d0 >= |text| - s0
    modifies buf
    ensures s0 <= s <= |text| && d0 <= d <= s && (d == s ==> s == |text|) && d - d0 <= s - s0
    ensures d == s && s0 < s ==> !IsWhitespace(text[s - 1])
    ensures Scannable(text, s, false) && Unread(buf, text, s) && Outside(buf, text, d0) == old(Outside(buf, text, d0))
    ensures Scan(text[s0..], false) == Token(Part(buf, d0, d), text[s..])
  {
    hide Scan, SkipSpace, IsWhitespace, Scannable, Unread, Part, Outside, Reading;
    UnreadAt(buf, text, s0);
    StartReading(buf, text, s0, d0);
    s, d := ScanChars(buf, text, s0, d0, end, Outside(buf, text, d0), Scan(text[s0..], false));
    UnreadAt(buf, text, s);
    StopReading(buf, text, s, d0, d, Scan(text[s0..], false));
    if s == |text| {
      assert text[s..] == [];
    } else {
      ghost var s1 := s;
      s := SkipBlanks(buf, text, s);
      SkipClosed(text, s1, s);
    }
  }

  /** An argument and the NUL behind it, which never lands on unread text (opt.c:181-237). */
  method EndToken(buf: array<char>, text: string, s0: nat, d0: nat, end: nat) returns (s: nat, d: nat)
    requires Scannable(text, s0, false) && Unread(buf, text, s0) && d0 <= s0 && end - d0 >= |text| - s0
    modifies buf
    ensures s0 <= s <= |text| && d0 <= d <= s && (d == s ==> s == |text|) && d - d0 <= s - s0
    ensures d == s && s0 < s ==> !IsWhitespace(text[s - 1])
    ensures Scannable(text, s, false) && Unread(buf, text, s) && Outside(buf, text, d0) == old(Outside(buf, text, d0))
    ensures Scan(text[s0..], false) == Token(Part(buf, d0, d), text[s..]) && buf[d] == '\0'
  {
    hide Scan, SkipSpace, IsWhitespace, Scannable, Unread, Part, Outside;
    s, d := ScanToken(buf, text, s0, d0, end);
    Terminate(buf, text, s, d0, d);
  }

  /** opt_quoted_dec on its own input: reads at src, writes at dst <= src. */
  method QuotedDec(buf: array<char>, text: string, src: nat, dst: nat, len: nat) returns (s: nat, n: nat)
    requires Scannable(text, src, false) && Unread(buf, text, src) && dst <= src < |text| && src + len == |text| + 1
    modifies buf
    ensures src < s <= |text| && Scannable(text, s, false) && Unread(buf, text, s)
      && Outside(buf, text, dst) == old(Outside(buf, text, dst))
    ensures dst + n <= s && (dst + n == s ==> s == |text| && !IsWhitespace(text[s - 1]))
    ensures Dec(text[src..]) == Token(Part(buf, dst, dst + n), text[s..]) && buf[dst + n] == '\0'
  {
    hide Scan, SkipSpace, IsWhitespace, Dec, Scannable, Unread, Part, Outside;
    var d;
    var end: nat := dst + len - 1;
    ghost var token := Dec(text[src..]);
    s := SkipBlanks(buf, text, src);
    SkipClosed(text, src, s);
    UnreadAt(buf, text, s);
    ReadDec(text, src, s);
    s, d := EndToken(buf, text, s, dst, end);
    n := d - dst;
    assert token == Token(Part(buf, dst, dst + n), text[s..]);
    DecProgressAt(text, src, s);
  }

  lemma {:induction false} BlanksClosed(s: string)
    requires Closed(s, false)
    ensures Closed(SkipSpace(s), false)
    decreases |s|
  {
    if s != [] && IsWhitespace(s[0]) { BlanksClosed(s[1..]); }
  }

  lemma SkipClosed(text: string, s0: nat, s: nat)
    requires Scannable(text, s0, false) && s0 <= s <= |text| && text[s..] == SkipSpace(text[s0..])
    ensures Scannable(text, s, false)
  {
    hide SkipSpace;
    BlanksClosed(text[s0..]);
  }

  lemma ReadDec(text: string, src: nat, s: nat)
    requires src <= |text| && s <= |text| && text[s..] == SkipSpace(text[src..])
    ensures Dec(text[src..]) == Scan(text[s..], false)
  {}

  lemma ResumedNothing(t: Token)
    ensures Resumed([], t) == t
  {}

  lemma ResumedEmpty(w: string, rest: string)
    ensures Resumed(w, Token([], rest)) == Token(w, rest)
  {
    assert w + [] == w;
  }

  lemma DecProgressAt(text: string, src: nat, s: nat)
    requires src < |text| && s <= |text| && Dec(text[src..]).rest == text[s..]
    ensures src < s
  {
    DecProgress(text[src..]);
  }

  /** The NUL behind an argument never lands on unread text (opt.c:235-237). */
  method Terminate(buf: array<char>, ghost text: string, ghost s: nat, d0: nat, d: nat)
    requires Unread(buf, text, s) && d0 <= d <= s && (d == s ==> s == |text|)
    modifies buf
    ensures Unread(buf, text, s) && Outside(buf, text, d0) == old(Outside(buf, text, d0)) && buf[d] == '\0'
    ensures Part(buf, d0, d) == old(Part(buf, d0, d))
  {
    ghost var tail := buf[s..|text|];
    buf[d] := '\0';
    assert buf[s..|text|] == tail;
  }

  lemma UnreadAt(buf: array<char>, text: string, s: nat)
    requires Unread(buf, text, s)
    ensures s <= |text| < buf.Length && (s < |text| ==> buf[s] == text[s])
    ensures s == |text| ==> buf[s] == '\0'
  {
    if s < |text| { assert buf[s..|text|][0] == text[s..][0]; }
  }

  lemma UnreadTail(buf: array<char>, text: string, s: nat, s': nat)
    requires Unread(buf, text, s) && s <= s' <= |text|
    ensures Unread(buf, text, s')
  {
    assert buf[s'..|text|] == buf[s..|text|][s' - s..] && text[s'..] == text[s..][s' - s..];
  }

  lemma ScanAtEnd(text: string, s: nat, quoted: bool)
    requires Scannable(text, s, quoted)
    ensures s <= |text| && (s < |text| ==> text[s] != '\0')
    ensures s == |text| ==> Scannable(text, s, false)
    ensures s == |text| ==> Scan(text[s..], true) == Scan(text[s..], false) == Token([], [])
  {}

  /** Arguments laid out one after the other, each with its NUL. */
  function Packed(args: seq<string>): string {
    if args == [] then [] else Packed(args[..|args| - 1]) + args[|args| - 1] + "\0"
  }

  /** Where each of them starts. */
  function Offsets(args: seq<string>): seq<nat> {
    if args == [] then [] else Offsets(args[..|args| - 1]) + [|Packed(args[..|args| - 1])|]
  }

  lemma PackedAppend(args: seq<string>, a: string)
    ensures Packed(args + [a]) == Packed(args) + a + "\0"
    ensures Offsets(args + [a]) == Offsets(args) + [|Packed(args)|]
  {
    assert (args + [a])[..|args|] == args;
  }

  /** Each argument stands at its offset, with its NUL behind it. */
  lemma {:induction false} ArgumentAt(args: seq<string>, i: nat)
    requires i < |args|
    ensures |Offsets(args)| == |args|
    ensures var o := Offsets(args)[i];
      && o + |args[i]| < |Packed(args)|
      && Packed(args)[o..o + |args[i]|] == args[i] && Packed(args)[o + |args[i]|] == '\0'
      && (if i == 0 then o == 0 else o == Offsets(args)[i - 1] + |args[i - 1]| + 1)
    decreases |args|
  {
    var n := |args| - 1;
    var front := args[..n];
    PackedAppend(front, args[n]);
    assert args == front + [args[n]];
    OffsetsCount(front);
    if i < n {
      ArgumentAt(front, i);
    } else if n > 0 {
      ArgumentAt(front, n - 1);
      LastOffset(front);
    }
  }

  lemma {:induction false} OffsetsCount(args: seq<string>)
    ensures |Offsets(args)| == |args|
  {
    if args != [] { OffsetsCount(args[..|args| - 1]); }
  }

  lemma LastOffset(args: seq<string>)
    requires args != []
    ensures |Offsets(args)| == |args|
    ensures |Packed(args)| == Offsets(args)[|args| - 1] + |args[|args| - 1]| + 1
  {
    OffsetsCount(args[..|args| - 1]);
  }

  lemma ArgvStep(text: string, s: nat, s': nat, a: string, done: seq<string>)
    requires s < |text| && s' <= |text| && Dec(text[s..]) == Token(a, text[s'..])
    ensures done + Argv(text[s..]) == done + [a] + Argv(text[s'..])
  {
    hide Dec;
    assert Argv(text[s..]) == [a] + Argv(text[s'..]);
    hide Argv;
    Assoc(done, [a], Argv(text[s'..]));
  }

  /**
   * opt_str2argv: the arguments replace the text in its own buffer, with one more NUL behind them. For single-spaced
   * text that last NUL is stored one place behind the NUL of the text.
   */
  method Str2Argv(buf: array<char>, text: string) returns (argv: seq<nat>, str: nat)
    requires Scannable(text, 0, false) && |text| < buf.Length && buf[..|text|] == text && buf[|text|] == '\0'
    requires SingleSpaced(text) ==> |text| + 1 < buf.Length
    modifies buf
    ensures str == |text|
    ensures var args := Argv(text);
      && argv == Offsets(args)
      && |Packed(args)| < buf.Length && buf[..|Packed(args)|] == Packed(args) && buf[|Packed(args)|] == '\0'
    ensures buf[|text| + 1..] ==
      if SingleSpaced(text) then "\0" + old(buf[|text| + 2..]) else old(buf[|text| + 1..])
  {
    hide Scannable, IsWhitespace, Dec, Argv, Unread, Part, Outside, Packed, Offsets, SingleSpaced;
    var dst: nat, end := 0, |text| + 1;
    argv, str := [], 0;
    ghost var done: seq<string>, behind := [], buf[|text| + 1..];
    OutsideParts(buf, text, 0);
    StartUnread(buf, text);
    ArgvStarts(text);
    PartNothing(buf, 0);
    while buf[str] != '\0' && str < end
      invariant Scannable(text, str, false) && Unread(buf, text, str) && str <= |text| < buf.Length
      invariant dst <= str || (str == |text| && dst == str + 1)
      invariant Part(buf, 0, dst) == Packed(done) && argv == Offsets(done)
      invariant Part(buf, |text| + 1, buf.Length) == behind
      invariant done + Argv(text[str..]) == Argv(text)
      decreases |text| - str
    {
      UnreadAt(buf, text, str);
      argv := argv + [dst];
      ghost var s0 := str;
      PartGrows(buf, dst, dst);
      OutsideParts(buf, text, dst);
      var n;
      str, n := QuotedDec(buf, text, str, dst, end - str);
      OutsideParts(buf, text, dst);
      ghost var a := Part(buf, dst, dst + n);
      PackedAppend(done, a);
      PartGrows(buf, dst, dst + n);
      ArgvStep(text, s0, str, a, done);
      done := done + [a];
      UnreadAt(buf, text, str);
      dst := dst + n + 1;
    }
    UnreadAt(buf, text, str);
    ScanAtEnd(text, str, false);
    assert text[str..] == [];
    ArgvNothing();
    assert done + [] == done;
    OutsideParts(buf, text, dst);
    PackedLength(text);
    LastNul(buf, text, dst);
  }

  method LastNul(buf: array<char>, ghost text: string, dst: nat)
    requires dst < buf.Length && |text| < buf.Length && dst <= |text| + 1
    modifies buf
    ensures buf[..dst] == old(Part(buf, 0, dst)) && |buf[..dst]| == dst && buf[dst] == '\0'
    ensures var behind := old(Part(buf, |text| + 1, buf.Length));
      buf[|text| + 1..] == if dst == |text| + 1 then "\0" + behind[1..] else behind
  {
    ghost var front, behind := buf[..dst], buf[|text| + 1..];
    buf[dst] := '\0';
    assert buf[..dst] == front;
    if dst == |text| + 1 { assert buf[|text| + 1..] == ['\0'] + behind[1..]; }
  }

  /** No quotes, and one blank at a time, only between visible characters. */
  predicate SingleSpaced(s: string) {
    s != [] && !IsWhitespace(s[0]) && s[0] != '"' &&
    (|s| == 1 || if IsWhitespace(s[1]) then SingleSpaced(s[2..]) else SingleSpaced(s[1..]))
  }

  lemma {:induction false} BlankAtEnd(s: string)
    requires s != [] && IsWhitespace(s[|s| - 1])
    ensures !SingleSpaced(s)
    decreases |s|
  {
    if |s| > 1 {
      BlankAtEnd(s[1..]);
      if |s| > 2 { BlankAtEnd(s[2..]); }
    }
  }

  lemma {:induction false} PackedFront(a: string, args: seq<string>)
    ensures |Packed([a] + args)| == |a| + 1 + |Packed(args)|
  {
    if args == [] {
      assert [a] + args == [a] && [a][..0] == [];
    } else {
      var n := |args| - 1;
      assert ([a] + args)[..n + 1] == [a] + args[..n];
      PackedFront(a, args[..n]);
    }
  }

  /** Blanks behind an argument and quotes in it are room that is not needed any more. */
  lemma {:induction false} ScanSpares(s: string, quoted: bool)
    ensures var t := Scan(s, quoted); |t.text| + |t.rest| + (if t.rest == [] then 0 else 1) <= |s|
    decreases |s|
  {
    if s != [] {
      if quoted && s[0] == '\\' {
        if |s| > 1 { ScanSpares(s[2..], true); }
      } else {
        ScanSpares(s[1..], if s[0] == '"' then !quoted else quoted);
      }
    }
  }

  /** The same from a visible character on. */
  lemma {:induction false} TokenLength(s: string)
    requires s != [] && !IsWhitespace(s[0])
    ensures var t := Scan(s, false); var n := |t.text| + 1 + |Packed(Argv(t.rest))|;
      n <= |s| + 1 && (n == |s| + 1 <==> SingleSpaced(s))
    decreases |s|, 0
  {
    hide Packed, Argv;
    var t := Scan(s, false);
    PackedNothing();
    if s[0] == '"' {
      ScanSpares(s[1..], true);
      PackedLength(t.rest);
    } else if |s| == 1 {
      assert s[1..] == [];
    } else if IsWhitespace(s[1]) {
      assert s[1..][1..] == s[2..] && s[1..][0] == s[1];
      assert Scan(s[1..], false) == Token([], SkipSpace(s[1..])) == Token([], SkipSpace(s[2..]));
      assert t == Prefixed(s[0], Token([], SkipSpace(s[2..])));
      PackedLength(t.rest);
      SkipExact(s[2..]);
    } else {
      TokenLength(s[1..]);
    }
  }

  lemma PackedNothing()
    ensures Argv([]) == [] && Packed([]) == []
  {}

  lemma SkipExact(s: string)
    ensures |SkipSpace(s)| == |s| ==> SkipSpace(s) == s
    ensures SingleSpaced(s) ==> SkipSpace(s) == s
  {}

  /** The arguments take at most the text and its NUL, and all of it exactly when the text is single-spaced. */
  lemma {:induction false} PackedLength(text: string)
    ensures |Packed(Argv(text))| <= |text| + 1
    ensures |Packed(Argv(text))| == |text| + 1 <==> SingleSpaced(text)
    decreases |text|, 1
  {
    hide Packed, Argv, Scan, SingleSpaced;
    PackedNothing();
    BlankIsNotSpaced(text);
    if text != [] {
      var u := SkipSpace(text);
      ArgvFront(text);
      PackedFront(Dec(text).text, Argv(Dec(text).rest));
      SkipExact(text);
      ScanNothing();
      if u != [] { TokenLength(u); }
    }
  }

  lemma ArgvFront(s: string)
    requires s != []
    ensures Argv(s) == [Dec(s).text] + Argv(Dec(s).rest)
  {
    hide Dec;
  }

  lemma BlankIsNotSpaced(s: string)
    ensures s == [] || IsWhitespace(s[0]) ==> !SingleSpaced(s)
  {}

  lemma ScanNothing()
    ensures Scan([], false) == Token([], [])
  {}

  /** One letter needs a third place: the letter, its NUL and the NUL behind that. */
  lemma OneLetterOverruns()
    ensures |Packed(Argv("a"))| == |"a"| + 1
  {
    hide Packed, Argv;
    PackedLength("a");
  }

  /**
   * How many characters of memory opt_str2argv steps over, beginning inside or outside quotes: it stops at a NUL it
   * looks at (opt.c:181, 196, 250), but behind a backslash between quotes it takes any character (opt.c:208-218).
   */
  function Reads(memory: string, quoted: bool): (n: nat)
    ensures n <= |memory|
    decreases |memory|
  {
    if memory == [] || memory[0] == '\0' then 0
    else if !quoted then 1 + Reads(memory[1..], memory[0] == '"')
    else if memory[0] != '\\' then 1 + Reads(memory[1..], memory[0] != '"')
    else if |memory| == 1 then 1 else 2 + Reads(memory[2..], true)
  }

  /** The NUL of a text stops it if and only if the text is closed; otherwise it goes on in what lies behind. */
  lemma {:induction false} ReadsPastNul(text: string, quoted: bool, behind: string)
    requires '\0' !in text
    ensures var n := Reads(text + "\0" + behind, quoted);
      if Closed(text, quoted) then n == |text| else n > |text|
    decreases |text|
  {
    var memory := text + "\0" + behind;
    if text != [] {
      assert memory[1..] == text[1..] + "\0" + behind;
      if quoted && text[0] == '\\' {
        if |text| > 1 {
          assert memory[2..] == text[2..] + "\0" + behind;
          ReadsPastNul(text[2..], true, behind);
        }
      } else {
        ReadsPastNul(text[1..], if quoted then text[0] != '"' else text[0] == '"', behind);
      }
    }
  }

  /** A quote and a backslash: the escape takes in the NUL, and the character behind it is read as well. */
  lemma LoneBackslashReadsOn(c: char)
    requires c !in "\0\"\\"
    ensures Reads("\"\\" + "\0" + [c, '\0'], false) == 4
  {
    var memory := "\"\\" + "\0" + [c, '\0'];
    assert memory[1..] == ['\\', '\0', c, '\0'];
    assert memory[1..][2..] == [c, '\0'];
    assert [c, '\0'][1..] == ['\0'];
    assert Reads(['\0'], true) == 0 && Reads([c, '\0'], true) == 1;
  }

  lemma StartUnread(buf: array<char>, text: string)
    requires |text| < buf.Length && buf[..|text|] == text && buf[|text|] == '\0'
    ensures Unread(buf, text, 0)
  {
    assert buf[0..|text|] == buf[..|text|] && text[0..] == text;
  }

  lemma ArgvStarts(text: string)
    ensures [] + Argv(text[0..]) == Argv(text) && Packed([]) == [] && Offsets([]) == []
  {
    assert text[0..] == text;
  }

  /** What opt_cat prints can be split in place. */
  lemma {:induction false} LineScannable(args: seq<string>)
    requires CStrings(args)
    ensures '\0' !in Line(args)
  {
    if args != [] {
      var n := |args| - 1;
      LineScannable(args[..n]);
      WordNul(args[n]);
    }
  }

  lemma {:induction false} WordNul(s: string)
    requires '\0' !in s
    ensures '\0' !in Word(s)
  {
    BodyNul(s);
  }

  lemma {:induction false} BodyNul(s: string)
    ensures '\0' !in Body(s)
    decreases |s|
  {
    if s != [] { BodyNul(s[1..]); }
  }

  /** Printing and splitting again in the same buffer: an argument list comes back whole when no argument is empty. */
  method CatThenSplit(buf: array<char>, len: nat, args: seq<Arg>) returns (r: int, argv: seq<nat>)
    requires ArgsOk(args) && Takes(args, len, buf.Length)
    modifies buf
    ensures r >= 0 <==> Fits(Given(args), len)
    ensures var as_ := Given(args);
      r >= 0 && as_ != [] && [] !in as_ ==>
        argv == Offsets(as_) && |Packed(as_)| <= buf.Length && buf[..|Packed(as_)|] == Packed(as_)
  {
    argv := [];
    r := OptCat(buf, len, args);
    if r >= 0 {
      ghost var as_ := Given(args);
      GivenOk(args);
      LineScannable(as_);
      hide Line, Fits, Word;
      LastCloses(buf[..r], false);
      BlankAtEnd(buf[..r]);
      assert buf[..r][0..] == buf[..r];
      var rest;
      argv, rest := Str2Argv(buf, buf[..r]);
      RoundTrip(as_);
    }
  }
}
