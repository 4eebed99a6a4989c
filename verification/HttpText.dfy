/** Text helpers of the header parser: http_strdup, strcasecmp and the characters strtoul converts (http.c:61-103). */
module HttpText {
  import opened Bytes

  /** isspace in the C locale. */
  predicate IsSpace(c: char) {
    c == ' ' || c == '\t' || c == '\n' || c == '\r' || c == '\U{0B}' || c == '\U{0C}'
  }

  const UPPER := "ABCDEFGHIJKLMNOPQRSTUVWXYZ"
  const LOWER := "abcdefghijklmnopqrstuvwxyz"

  lemma Alphabet(k: nat)
    requires k < 26
    ensures UPPER[k] == (65 + k) as char && LOWER[k] == (97 + k) as char
  {}

  lemma InAlphabet(c: char)
    ensures c in UPPER <==> 'A' <= c <= 'Z'
    ensures c in LOWER <==> 'a' <= c <= 'z'
  {
    if 'A' <= c <= 'Z' { Alphabet(c as int - 65); assert UPPER[c as int - 65] == c; }
    if 'a' <= c <= 'z' { Alphabet(c as int - 97); assert LOWER[c as int - 97] == c; }
    forall k | 0 <= k < 26 ensures 'A' <= UPPER[k] <= 'Z' && 'a' <= LOWER[k] <= 'z' { Alphabet(k); }
  }

  function StripLeft(s: string): (r: string)
    ensures |r| <= |s| && r == s[|s| - |r|..]
    ensures r != [] ==> !IsSpace(r[0])
  {
    if s != [] && IsSpace(s[0]) then StripLeft(s[1..]) else s
  }

  function StripRight(s: string): (r: string)
    ensures r <= s
    ensures r != [] ==> !IsSpace(r[|r| - 1])
  {
    if s != [] && IsSpace(s[|s| - 1]) then StripRight(s[..|s| - 1]) else s
  }

  function Strip(s: string): string {
    StripRight(StripLeft(s))
  }

  function WithoutCr(s: string): string {
    if s == [] then [] else WithoutCr(s[..|s| - 1]) + if s[|s| - 1] == '\r' then [] else [s[|s| - 1]]
  }

  /** A buffer read as a C string. */
  function UpToNul(s: string): (r: string)
    ensures r <= s && '\0' !in r
  {
    if s == [] || s[0] == '\0' then [] else [s[0]] + UpToNul(s[1..])
  }

  /** http_strdup: the text without surrounding blanks and carriage returns; one character alone is dropped. */
  function Dup(s: string): string {
    if |Strip(s)| <= 1 then [] else UpToNul(WithoutCr(Strip(s)))
  }

  lemma {:induction false} CrOnly(s: string)
    ensures '\r' !in s ==> WithoutCr(s) == s
    ensures |WithoutCr(s)| <= |s|
    decreases |s|
  {
    if s != [] { CrOnly(s[..|s| - 1]); }
  }

  lemma {:induction false} NulOnly(s: string)
    ensures UpToNul(s) == s <==> '\0' !in s
    decreases |s|
  {
    if s != [] { NulOnly(s[1..]); }
  }

  /** isspace holds of blank, tabulator, newline, vertical tab, form feed and carriage return. */
  lemma SpacesAre(c: char)
    ensures IsSpace(c) <==> c as int in {9, 10, 11, 12, 13, 32}
  {}

  lemma {:induction false} WithoutCrAdds(a: string, b: string)
    ensures WithoutCr(a + b) == WithoutCr(a) + WithoutCr(b)
    decreases |b|
  {
    if b == [] {
      assert a + b == a;
    } else {
      var n := |b| - 1;
      WithoutCrAdds(a, b[..n]);
      assert (a + b)[..|a| + n] == a + b[..n];
    }
  }

  /** A carriage return anywhere is as if it were not there. */
  lemma CrVanishes(a: string, b: string)
    ensures WithoutCr(a + ("\r" + b)) == WithoutCr(a + b)
  {
    WithoutCrAdds(a, "\r" + b);
    WithoutCrAdds("\r", b);
    WithoutCrAdds(a, b);
    assert "\r"[..0] == [] && WithoutCr("\r") == [];
  }

  /** The copy ends in front of the first NUL. */
  lemma {:induction false} NulStops(a: string, b: string)
    requires '\0' !in a
    ensures UpToNul(a + "\0" + b) == a
    decreases |a|
  {
    var s := a + "\0" + b;
    if a != [] {
      assert s[1..] == a[1..] + "\0" + b;
      NulStops(a[1..], b);
    }
  }

  /** Text that begins and ends with a visible character. */
  predicate Tight(s: string) {
    s != [] ==> !IsSpace(s[0]) && !IsSpace(s[|s| - 1])
  }

  lemma {:induction false} StripBlanks(a: string, s: string)
    requires forall c :: c in a ==> IsSpace(c)
    requires Tight(s)
    ensures StripLeft(a + s) == s
    decreases |a|
  {
    if a == [] {
      assert a + s == s;
    } else {
      assert (a + s)[1..] == a[1..] + s;
      StripBlanks(a[1..], s);
    }
  }

  lemma {:induction false} StripTrailing(s: string, b: string)
    requires forall c :: c in b ==> IsSpace(c)
    requires Tight(s)
    ensures StripRight(s + b) == s
    decreases |b|
  {
    if b == [] {
      assert s + b == s;
    } else {
      assert (s + b)[..|s + b| - 1] == s + b[..|b| - 1];
      StripTrailing(s, b[..|b| - 1]);
    }
  }

  lemma StripLeftTail(s: string, b: string)
    requires forall c :: c in b ==> IsSpace(c)
    requires Tight(s) && s != []
    ensures StripLeft(s + b) == s + b
  {}

  /** http_strdup gives back tight text, with or without blanks around it, exactly when it is not a single character. */
  lemma DupTight(s: string, b: string)
    requires Tight(s) && '\r' !in s && '\0' !in s
    requires forall c :: c in b ==> IsSpace(c)
    ensures Dup(s + b) == s <==> |s| != 1
    ensures |s| == 1 ==> Dup(s + b) == []
  {
    if s == [] {
      assert s + b == b + [];
      StripBlanks(b, []);
    } else {
      StripLeftTail(s, b);
      StripTrailing(s, b);
      CrOnly(s);
      NulOnly(s);
    }
  }

  lemma StripLeftAt(s: string, i: nat)
    requires i < |s|
    ensures StripLeft(s[i..]) == if IsSpace(s[i]) then StripLeft(s[i + 1..]) else s[i..]
  {
    assert s[i..][1..] == s[i + 1..];
  }

  lemma StripRightAt(s: string, i: nat, p: nat)
    requires i <= p < |s|
    ensures StripRight(s[i..p + 1]) == if IsSpace(s[p]) then StripRight(s[i..p]) else s[i..p + 1]
  {
    assert s[i..p + 1][..p - i] == s[i..p];
  }

  lemma WithoutCrAt(s: string, i: nat, j: nat)
    requires i <= j < |s|
    ensures WithoutCr(s[i..j + 1]) == WithoutCr(s[i..j]) + if s[j] == '\r' then [] else [s[j]]
  {
    assert s[i..j + 1][..j - i] == s[i..j];
  }

  lemma StripNothing()
    ensures StripLeft([]) == [] && StripRight([]) == [] && WithoutCr([]) == []
  {}

  /** The first loop of http_strdup: what is left starts at lo. */
  method LeftBound(s: string) returns (lo: nat, len: nat)
    ensures lo + len == |s| && StripLeft(s) == s[lo..] && (len > 0 ==> !IsSpace(s[lo]))
  {
    hide StripLeft, IsSpace;
    StripNothing();
    lo, len := 0, |s|;
    assert s[0..] == s;
    while len > 0 && IsSpace(s[lo])
      invariant lo + len == |s| && StripLeft(s[lo..]) == StripLeft(s)
    {
      StripLeftAt(s, lo);
      lo, len := lo + 1, len - 1;
    }
    if len > 0 { StripLeftAt(s, lo); } else { assert s[lo..] == []; }
  }

  /** The second loop, on text that starts at lo: the text is s[lo..hi], or is dropped when hi <= lo. */
  method RightBound(s: string, lo: nat) returns (hi: int)
    requires lo < |s| && !IsSpace(s[lo])
    ensures lo <= hi <= |s| && if lo < hi then StripRight(s[lo..]) == s[lo..hi] && hi - lo > 1
      else |StripRight(s[lo..])| <= 1
  {
    hide StripRight, IsSpace;
    hi := |s| - 1;
    assert s[lo..hi + 1] == s[lo..];
    while hi > lo && IsSpace(s[hi])
      invariant lo <= hi < |s| && StripRight(s[lo..hi + 1]) == StripRight(s[lo..])
    {
      StripRightAt(s, lo, hi);
      hi := hi - 1;
    }
    StripRightAt(s, lo, hi);
    if hi > lo && !IsSpace(s[hi]) { hi := hi + 1; } else { OneLeft(s, lo); }
  }

  /** Both loops: the text is s[lo..hi], or is dropped when hi <= lo. */
  method Bounds(s: string) returns (lo: nat, hi: int)
    ensures lo < hi ==> hi <= |s| && Strip(s) == s[lo..hi] && hi - lo > 1
    ensures lo >= hi ==> |Strip(s)| <= 1
  {
    hide StripLeft, StripRight, IsSpace;
    StripNothing();
    var len;
    lo, len := LeftBound(s);
    if len == 0 {
      assert s[lo..] == [];
      return lo, lo - 1;
    }
    hi := RightBound(s, lo);
  }

  lemma OneLeft(s: string, lo: nat)
    requires lo < |s|
    ensures |StripRight(s[lo..lo + 1])| <= 1
  {}

  /** http_strdup. */
  method Strdup(s: string) returns (dup: string)
    ensures dup == Dup(s)
  {
    var lo, hi := Bounds(s);
    hide Strip, WithoutCr;
    StripNothing();
    var dst := [];
    var i := lo;
    if lo < hi { assert s[lo..lo] == []; }
    while i < hi
      invariant lo < hi ==> lo <= i <= hi <= |s| && dst == WithoutCr(s[lo..i])
      invariant lo >= hi ==> dst == []
    {
      WithoutCrAt(s, lo, i);
      if s[i] != '\r' { dst := dst + [s[i]]; }
      i := i + 1;
    }
    dup := UpToNul(dst);
  }

  // ---------------------------------------------------------------------------------------------
  // strtoul with base 0: the characters it converts
  // ---------------------------------------------------------------------------------------------

  predicate IsDigit(c: char, base: nat) {
    if base == 16 then '0' <= c <= '9' || 'a' <= c <= 'f' || 'A' <= c <= 'F'
    else if base == 8 then '0' <= c <= '7' else '0' <= c <= '9'
  }

  /** How many leading characters are digits. */
  function DigitRun(s: string, base: nat): (n: nat)
    ensures n <= |s|
  {
    if s != [] && IsDigit(s[0], base) then 1 + DigitRun(s[1..], base) else 0
  }

  predicate HexMark(t: string) {
    |t| >= 2 && t[0] == '0' && (t[1] == 'x' || t[1] == 'X')
  }

  function Base(t: string): nat {
    if t != [] && t[0] == '0' then 8 else 10
  }

  /** The number at the front of t, which has no blanks or sign left. */
  function Digits(t: string): (n: nat)
    ensures n <= |t|
  {
    if HexMark(t) && |t| >= 3 && IsDigit(t[2], 16) then 2 + DigitRun(t[2..], 16) else DigitRun(t, Base(t))
  }

  function SignLength(s: string): (k: nat)
    ensures k <= |s|
  {
    if s != [] && (s[0] == '+' || s[0] == '-') then 1 else 0
  }

  /** The text behind blanks and a sign. */
  function Unsigned(s: string): (r: string)
    ensures |r| <= |StripLeft(s)|
  {
    StripLeft(s)[SignLength(StripLeft(s))..]
  }

  function NumberText(s: string): string {
    var b, n := StripLeft(s), Digits(Unsigned(s));
    if n == 0 then [] else b[..SignLength(b) + n]
  }

  /** strtoul can tell the end of the number t without looking behind its last character. */
  predicate Ends(t: string) {
    t != [] &&
    if HexMark(t) then |t| >= 3 && (IsDigit(t[2], 16) ==> Digits(t) < |t|) else Digits(t) < |t|
  }

  predicate Settled(s: string) {
    Ends(Unsigned(s))
  }

  lemma StripBetween(a: string, s: string, b: string)
    requires Tight(s) && (forall c :: c in a ==> IsSpace(c)) && (forall c :: c in b ==> IsSpace(c))
    ensures Strip(a + s + b) == s
  {
    hide StripLeft, StripRight, IsSpace;
    if s == [] {
      AllBlank(a, b);
      StripNothing();
    } else {
      StripInFront(a, s, b);
      StripTrailing(s, b);
    }
  }

  lemma AllBlank(a: string, b: string)
    requires (forall c :: c in a ==> IsSpace(c)) && (forall c :: c in b ==> IsSpace(c))
    ensures StripLeft(a + [] + b) == []
  {
    hide StripLeft, IsSpace;
    assert a + [] + b == (a + b) + [];
    StripBlanks(a + b, []);
  }

  /**
   * http_strdup of any text between blanks: nothing for a single character, else the text up to its NUL without its
   * carriage returns.
   */
  lemma DupBetweenBlanks(a: string, s: string, b: string)
    requires Tight(s) && (forall c :: c in a ==> IsSpace(c)) && (forall c :: c in b ==> IsSpace(c))
    ensures Dup(a + s + b) == if |s| <= 1 then [] else UpToNul(WithoutCr(s))
  {
    hide Strip, WithoutCr, UpToNul, IsSpace, Tight;
    StripBetween(a, s, b);
  }

  lemma {:induction false} StripInFront(a: string, s: string, b: string)
    requires Tight(s) && s != [] && forall c :: c in a ==> IsSpace(c)
    ensures StripLeft(a + s + b) == s + b
    decreases |a|
  {
    if a == [] {
      assert a + s + b == s + b;
    } else {
      assert (a + s + b)[1..] == a[1..] + s + b;
      StripInFront(a[1..], s, b);
    }
  }

  lemma {:induction false} StripLeftAppend(s: string, e: string)
    ensures StripLeft(s + e) == if StripLeft(s) == [] then StripLeft(e) else StripLeft(s) + e
    decreases |s|
  {
    if s == [] {
      assert s + e == e;
    } else if IsSpace(s[0]) {
      assert (s + e)[1..] == s[1..] + e;
      StripLeftAppend(s[1..], e);
    }
  }

  lemma {:induction false} DigitRunAppend(s: string, e: string, base: nat)
    ensures DigitRun(s, base) < |s| ==> DigitRun(s + e, base) == DigitRun(s, base)
    ensures DigitRun(s, base) == |s| ==> DigitRun(s + e, base) == |s| + DigitRun(e, base)
    decreases |s|
  {
    if s == [] {
      assert s + e == e;
    } else {
      assert (s + e)[1..] == s[1..] + e;
      DigitRunAppend(s[1..], e, base);
    }
  }

  lemma ZeroRuns()
    ensures DigitRun("0", 8) == 1
  {
    assert "0"[1..] == [];
  }

  lemma DigitsAppend(t: string, e: string)
    requires Ends(t)
    ensures Digits(t + e) == Digits(t)
  {
    hide DigitRun, IsDigit;
    if |t| >= 2 { assert (t + e)[2..] == t[2..] + e; DigitRunAppend(t[2..], e, 16); }
    if HexMark(t) { HexIsNotOctal(t); }
    if |t| == 1 { assert t == [t[0]]; ZeroRuns(); }
    DigitRunAppend(t, e, Base(t));
  }

  lemma UnsignedAppend(s: string, e: string)
    requires StripLeft(s) != []
    ensures StripLeft(s + e) == StripLeft(s) + e && Unsigned(s + e) == Unsigned(s) + e
    ensures SignLength(StripLeft(s + e)) == SignLength(StripLeft(s))
  {
    hide StripLeft;
    StripLeftAppend(s, e);
  }

  /** A number whose end is in sight is read the same whatever follows. */
  lemma SettledStays(s: string, e: string)
    requires Settled(s)
    ensures NumberText(s + e) == NumberText(s)
  {
    hide StripLeft, Digits, Ends, Unsigned;
    EndsNotEmpty(Unsigned(s));
    UnsignedAppend(s, e);
    DigitsAppend(Unsigned(s), e);
    var b, n := StripLeft(s), SignLength(StripLeft(s)) + Digits(Unsigned(s));
    NumberFits(s);
    assert (b + e)[..n] == b[..n];
  }

  lemma NumberFits(s: string)
    ensures SignLength(StripLeft(s)) + Digits(Unsigned(s)) <= |StripLeft(s)|
    ensures |NumberText(s)| == if Digits(Unsigned(s)) == 0 then 0 else SignLength(StripLeft(s)) + Digits(Unsigned(s))
  {
    hide StripLeft, Digits;
  }

  lemma EndsNotEmpty(t: string)
    requires Ends(t)
    ensures t != []
  {}

  predicate IsBit(c: char) { c == '0' || c == '1' }

  lemma BitIsDigit(c: char, base: nat)
    requires IsBit(c)
    ensures DigitRun([c], base) == 1 && DigitRun([], base) == 0
  {
    assert [c][1..] == [];
  }

  /** A number that runs into the end of the text takes in a digit that follows. */
  lemma DigitsGrow(t: string, c: char)
    requires !Ends(t) && IsBit(c)
    ensures Digits(t + [c]) == |t| + 1 && !Ends(t + [c])
  {
    hide DigitRun;
    BitIsDigit(c, 16); BitIsDigit(c, Base(t)); BitIsDigit(c, Base(t + [c]));
    if t == [] {
      assert t + [c] == [c];
    } else if HexMark(t) {
      assert (t + [c])[2..] == t[2..] + [c];
      DigitRunAppend(t[2..], [c], 16);
      if |t| == 2 { assert t[2..] == []; HexIsNotOctal(t); }
    } else {
      DigitRunAppend(t, [c], Base(t));
    }
  }

  lemma HexIsNotOctal(t: string)
    requires HexMark(t)
    ensures DigitRun(t, 8) < 2
  {}

  lemma UnsignedGrows(s: string, c: char)
    requires IsBit(c)
    ensures Unsigned(s + [c]) == Unsigned(s) + [c] && Negative(s + [c]) == Negative(s)
  {
    hide StripLeft, SignLength;
    if StripLeft(s) != [] {
      UnsignedAppend(s, [c]);
    } else {
      StripLeftAppend(s, [c]);
      StripBit(c);
      assert [] + [c] == [c][0..] && Unsigned(s) == [];
    }
  }

  lemma StripBit(c: char)
    requires IsBit(c)
    ensures StripLeft([c]) == [c] && SignLength([c]) == 0 == SignLength([])
  {}

  lemma {:induction false} DigitRunStops(t: string, base: nat, i: nat)
    requires i < |t| && !IsDigit(t[i], base)
    ensures DigitRun(t, base) <= i
    decreases |t|
  {
    if i > 0 { DigitRunStops(t[1..], base, i - 1); }
  }

  lemma {:induction false} StripLeftReaches(s: string, i: nat, j: nat)
    requires i <= j < |s| && !IsSpace(s[j])
    ensures |StripLeft(s[i..])| >= |s| - j
    decreases j - i
  {
    hide StripLeft, IsSpace;
    StripLeftAt(s, i);
    if IsSpace(s[i]) { StripLeftReaches(s, i + 1, j); }
  }

  lemma EndsBefore(t: string, i: nat)
    requires i < |t| && (t[i] == ' ' || t[i] == '\t' || t[i] == '\n')
    ensures Ends(t)
  {
    hide DigitRun;
    DigitRunStops(t, Base(t), i);
    if HexMark(t) && |t| >= 3 && IsDigit(t[2], 16) {
      assert t[2..][i - 2] == t[i];
      DigitRunStops(t[2..], 16, i - 2);
    }
  }

  /** A visible character before a blank settles the number. */
  lemma VisibleSettles(s: string, j: nat, k: nat)
    requires j < k < |s| && !IsSpace(s[j]) && (s[k] == ' ' || s[k] == '\t' || s[k] == '\n')
    ensures Settled(s)
  {
    hide StripLeft, Ends, IsSpace;
    StripLeftReaches(s, 0, j);
    assert s[0..] == s;
    var b := StripLeft(s);
    var t := Unsigned(s);
    var i := k - (|s| - |t|);
    assert t == s[|s| - |t|..];
    EndsBefore(t, i);
  }

  // ---------------------------------------------------------------------------------------------
  // The value strtoul gives those characters, for a 64-bit unsigned long
  // ---------------------------------------------------------------------------------------------

  const ULONG_SIZE: nat := 0x1_0000_0000_0000_0000

  function DigitValue(c: char): nat {
    if '0' <= c <= '9' then c as int - 48
    else if 'a' <= c <= 'f' then c as int - 87
    else if 'A' <= c <= 'F' then c as int - 55 else 0
  }

  function Magnitude(s: string, base: nat): nat {
    if s == [] then 0 else Magnitude(s[..|s| - 1], base) * base + DigitValue(s[|s| - 1])
  }

  function Radix(t: string): nat {
    if HexMark(t) then 16 else Base(t)
  }

  /** The number written by t, of any size. */
  function Amount(t: string): nat {
    Magnitude(if HexMark(t) then t[2..] else t, Radix(t))
  }

  /** A magnitude out of range gives the largest value, a minus sign the complement. */
  function InRange(negative: bool, m: nat): (v: nat)
    ensures v < ULONG_SIZE
  {
    if m >= ULONG_SIZE then ULONG_SIZE - 1 else if negative then (ULONG_SIZE - m) % ULONG_SIZE else m
  }

  /** strtoul of a number text. */
  function ULong(s: string): (v: nat)
    ensures v < ULONG_SIZE
  {
    InRange(s != [] && s[0] == '-', Amount(s[SignLength(s)..]))
  }

  /** The conversion of an unsigned long to int. */
  function ToInt(v: nat): int {
    var low := v % 0x1_0000_0000;
    if low >= 0x8000_0000 then low - 0x1_0000_0000 else low
  }

  /** A decimal number that fits is its own value, as a long and as an int. */
  lemma DecimalValue(s: string)
    requires s != [] && '1' <= s[0] <= '9'
    ensures Magnitude(s, 10) < ULONG_SIZE ==> ULong(s) == Magnitude(s, 10)
    ensures Magnitude(s, 10) < 0x8000_0000 ==> ToInt(ULong(s)) == Magnitude(s, 10)
  {
    assert s[0..] == s;
  }

  /** A digit of value d below sixteen, in lower case. */
  function DigitOf(d: nat): char
    requires d < 16
  {
    "0123456789abcdef"[d]
  }

  /** n printed in a base. */
  function PrintedIn(n: nat, base: nat): (s: string)
    requires 2 <= base <= 16
    ensures s != []
  {
    (if n < base then [] else PrintedIn(n / base, base)) + [DigitOf(n % base)]
  }

  lemma DigitOfValue(d: nat, base: nat)
    requires d < base && base in {8, 10, 16}
    ensures DigitValue(DigitOf(d)) == d && IsDigit(DigitOf(d), base)
    ensures d >= 10 ==> DigitValue(UPPER[d - 10]) == d && IsDigit(UPPER[d - 10], 16)
  {}

  lemma PrintedStep(n: nat, base: nat)
    requires base in {8, 10, 16}
    ensures PrintedIn(n, base) == (if n < base then [] else PrintedIn(n / base, base)) + [DigitOf(n % base)]
    ensures DigitValue(DigitOf(n % base)) == n % base && IsDigit(DigitOf(n % base), base)
  {
    DigitOfValue(n % base, base);
  }

  lemma {:induction false} PrintedDigits(n: nat, base: nat)
    requires base in {8, 10, 16}
    ensures forall i :: 0 <= i < |PrintedIn(n, base)| ==> IsDigit(PrintedIn(n, base)[i], base)
    decreases n
  {
    hide PrintedIn, DigitOf, DigitValue, IsDigit;
    PrintedStep(n, base);
    if n >= base { PrintedDigits(n / base, base); }
  }

  lemma {:induction false} PrintedValue(n: nat, base: nat)
    requires base in {8, 10, 16}
    ensures Magnitude(PrintedIn(n, base), base) == n
    decreases n
  {
    hide PrintedIn, DigitOf, DigitValue, IsDigit, Magnitude;
    PrintedStep(n, base);
    DivMod(n, base);
    if n < base {
      MagnitudeNext([], DigitOf(n % base), base);
    } else {
      PrintedValue(n / base, base);
      MagnitudeNext(PrintedIn(n / base, base), DigitOf(n % base), base);
    }
  }

  lemma DivMod(n: nat, base: nat)
    requires base in {8, 10, 16}
    ensures n / base * base + n % base == n && (n < base ==> n % base == n)
  {
    if base == 8 {} else if base == 10 {} else {}
  }

  lemma {:induction false} AllDigitsRun(s: string, base: nat)
    requires forall i :: 0 <= i < |s| ==> IsDigit(s[i], base)
    ensures DigitRun(s, base) == |s|
    decreases |s|
  {
    if s != [] { AllDigitsRun(s[1..], base); }
  }

  /** 0x or 0X and hexadecimal digits. */
  lemma HexConverts(n: nat, x: char)
    requires n < ULONG_SIZE && (x == 'x' || x == 'X')
    ensures var s := ['0', x] + PrintedIn(n, 16); NumberText(s) == s && ULong(s) == n
  {
    hide DigitOf, DigitValue, IsDigit, PrintedIn, ULong, NumberText, Magnitude;
    var d := PrintedIn(n, 16);
    PrintedValue(n, 16);
    PrintedDigits(n, 16);
    AllDigitsRun(d, 16);
    HexRead(d, x);
  }

  lemma HexRead(d: string, x: char)
    requires d != [] && IsDigit(d[0], 16) && DigitRun(d, 16) == |d| && Magnitude(d, 16) < ULONG_SIZE
    requires x == 'x' || x == 'X'
    ensures var s := ['0', x] + d; NumberText(s) == s && ULong(s) == Magnitude(d, 16)
  {
    hide IsDigit, DigitRun, Magnitude;
    var s := ['0', x] + d;
    assert s[2..] == d && s[0..] == s && StripLeft(s) == s && s[2] == d[0] && Digits(s) == |s|;
  }

  /** A zero in front of octal digits. */
  lemma OctalConverts(n: nat)
    requires n < ULONG_SIZE
    ensures var s := "0" + PrintedIn(n, 8); NumberText(s) == s && ULong(s) == n
  {
    hide DigitOf, DigitValue, DigitRun, Magnitude, PrintedIn, ULong, NumberText;
    var d := PrintedIn(n, 8);
    PrintedValue(n, 8);
    PrintedDigits(n, 8);
    assert forall i :: 0 <= i < |"0" + d| ==> IsDigit(("0" + d)[i], 8);
    AllDigitsRun("0" + d, 8);
    LeadingZero(d);
    OctalRead(d);
  }

  lemma OctalRead(d: string)
    requires d != [] && IsDigit(d[0], 8) && DigitRun("0" + d, 8) == 1 + |d| && Magnitude("0" + d, 8) < ULONG_SIZE
    ensures var s := "0" + d; NumberText(s) == s && ULong(s) == Magnitude(s, 8)
  {
    hide DigitRun, Magnitude, NumberText, ULong, StripLeft;
    var s := "0" + d;
    OctalStarts(d);
    assert Digits(s) == |s| && Amount(s) == Magnitude(s, 8);
    WholeAtOnce(s);
  }

  lemma OctalStarts(d: string)
    requires d != [] && IsDigit(d[0], 8)
    ensures var s := "0" + d; StripLeft(s) == s && !HexMark(s) && SignLength(s) == 0 && Base(s) == 8
  {
    assert ("0" + d)[1] == d[0];
  }

  /** A number that is all of a text without blanks and sign in front. */
  lemma WholeAtOnce(s: string)
    requires s != [] && StripLeft(s) == s && SignLength(s) == 0 && Digits(s) == |s| && Amount(s) < ULONG_SIZE
    ensures NumberText(s) == s && ULong(s) == Amount(s)
  {
    hide StripLeft, Digits, Amount;
    assert s[0..] == s;
  }

  lemma {:induction false} LeadingZero(d: string)
    ensures Magnitude("0" + d, 8) == Magnitude(d, 8)
    decreases |d|
  {
    if d == [] {
      assert "0" + d == [] + ['0'];
      MagnitudeNext([], '0', 8);
    } else {
      var n := |d| - 1;
      assert "0" + d == ("0" + d[..n]) + [d[n]] && d == d[..n] + [d[n]];
      MagnitudeNext("0" + d[..n], d[n], 8);
      MagnitudeNext(d[..n], d[n], 8);
      LeadingZero(d[..n]);
    }
  }

  /** A plus sign changes nothing; a minus sign takes the complement, which as an int is the negative number. */
  lemma SignsConvert(n: nat)
    requires 0 < n < ULONG_SIZE
    ensures var s := "+" + PrintedIn(n, 10); NumberText(s) == s && ULong(s) == n
    ensures var s := "-" + PrintedIn(n, 10);
      NumberText(s) == s && ULong(s) == ULONG_SIZE - n && (n <= 0x8000_0000 ==> ToInt(ULong(s)) == -(n as int))
  {
    hide DigitOf, DigitValue, DigitRun, Magnitude, IsDigit, PrintedIn, ToInt, ULong, NumberText;
    var d := PrintedIn(n, 10);
    PrintedValue(n, 10);
    PrintedDigits(n, 10);
    AllDigitsRun(d, 10);
    FirstDigit(n);
    SignRead(d, '+');
    SignRead(d, '-');
    Complement(n, "+" + d);
    Complement(n, "-" + d);
  }

  lemma SignRead(d: string, sign: char)
    requires d != [] && '1' <= d[0] <= '9' && DigitRun(d, 10) == |d| && (sign == '+' || sign == '-')
    ensures var s := [sign] + d; NumberText(s) == s && Amount(s[1..]) == Magnitude(d, 10)
  {
    hide DigitRun, Magnitude, StripLeft;
    var s := [sign] + d;
    SignFront(d, sign);
    assert Unsigned(s) == d && !HexMark(d) && Digits(d) == |d|;
    hide Digits, Amount, Unsigned;
    WholeNumber(s);
  }

  lemma SignFront(d: string, sign: char)
    requires sign == '+' || sign == '-'
    ensures var s := [sign] + d; StripLeft(s) == s && SignLength(s) == 1 && s[1..] == d
  {}

  lemma Complement(n: nat, s: string)
    requires 0 < n < ULONG_SIZE && s != [] && (s[0] == '+' || s[0] == '-') && Amount(s[1..]) == n
    ensures s[0] == '+' ==> ULong(s) == n
    ensures s[0] == '-' ==> ULong(s) == ULONG_SIZE - n && (n <= 0x8000_0000 ==> ToInt(ULong(s)) == -(n as int))
  {
    hide Amount;
  }

  lemma {:induction false} FirstDigit(n: nat)
    requires n > 0
    ensures '1' <= PrintedIn(n, 10)[0] <= '9'
    decreases n
  {
    if n >= 10 { FirstDigit(n / 10); }
  }

  /** The digits of each base are these and no others. */
  lemma DigitsAre(c: char)
    ensures IsDigit(c, 10) <==> c in "0123456789"
    ensures IsDigit(c, 8) <==> c in "01234567"
    ensures IsDigit(c, 16) <==> c in "0123456789abcdefABCDEF"
  {
    if IsDigit(c, 16) {
      var k := if c <= '9' then c as int - 48 else if c <= 'F' then c as int - 49 else c as int - 87;
      assert "0123456789abcdefABCDEF"[k] == c;
      if c <= '9' { assert "0123456789"[k] == c; }
      if c <= '7' { assert "01234567"[k] == c; }
    }
  }

  lemma {:induction false} RunEnds(d: string, rest: string, base: nat)
    requires forall i :: 0 <= i < |d| ==> IsDigit(d[i], base)
    requires rest != [] && !IsDigit(rest[0], base)
    ensures DigitRun(d + rest, base) == |d|
    decreases |d|
  {
    hide IsDigit;
    if d == [] {
      assert d + rest == rest;
    } else {
      RunEnds(d[1..], rest, base);
      assert (d + rest)[1..] == d[1..] + rest && (d + rest)[0] == d[0];
    }
  }

  /** A number ends in front of the first character that is no digit of its base. */
  lemma NumberStops(n: nat, c: char, more: string)
    requires n > 0
    ensures c !in "0123456789" ==> var d := PrintedIn(n, 10); NumberText(d + ([c] + more)) == d
    ensures c !in "01234567" ==> var d := "0" + PrintedIn(n, 8); NumberText(d + ([c] + more)) == d
    ensures c !in "0123456789abcdefABCDEF" ==> var d := "0x" + PrintedIn(n, 16); NumberText(d + ([c] + more)) == d
  {
    hide IsDigit, PrintedIn, NumberText, DigitRun;
    DigitsAre(c);
    FirstDigit(n);
    PrintedDigits(n, 10);
    PrintedDigits(n, 8);
    PrintedDigits(n, 16);
    if !IsDigit(c, 10) { DecimalStops(PrintedIn(n, 10), [c] + more); }
    if !IsDigit(c, 8) { OctalStops(PrintedIn(n, 8), [c] + more); }
    if !IsDigit(c, 16) { HexStops(PrintedIn(n, 16), [c] + more); }
  }

  lemma FrontRead(s: string, n: nat)
    requires s != [] && '0' <= s[0] <= '9' && 0 < n == Digits(s)
    ensures NumberText(s) == s[..n]
  {
    hide Digits;
    assert StripLeft(s) == s && SignLength(s) == 0;
    hide StripLeft, SignLength;
    assert s[0..] == s;
  }

  lemma DecimalStops(d: string, rest: string)
    requires d != [] && '1' <= d[0] <= '9' && rest != [] && !IsDigit(rest[0], 10)
    requires forall i :: 0 <= i < |d| ==> IsDigit(d[i], 10)
    ensures NumberText(d + rest) == d
  {
    hide IsDigit, DigitRun, NumberText;
    RunEnds(d, rest, 10);
    assert (d + rest)[0] == d[0];
    FrontRead(d + rest, |d|);
    assert (d + rest)[..|d|] == d;
  }

  lemma OctalStops(d: string, rest: string)
    requires d != [] && rest != [] && !IsDigit(rest[0], 8)
    requires forall i :: 0 <= i < |d| ==> IsDigit(d[i], 8)
    ensures NumberText("0" + d + rest) == "0" + d
  {
    hide DigitRun, NumberText;
    var z := "0" + d;
    assert forall i :: 0 <= i < |z| ==> IsDigit(z[i], 8);
    RunEnds(z, rest, 8);
    assert (z + rest)[0] == '0' && (z + rest)[1] == d[0];
    FrontRead(z + rest, |z|);
    assert (z + rest)[..|z|] == z;
  }

  lemma HexStops(d: string, rest: string)
    requires d != [] && rest != [] && !IsDigit(rest[0], 16)
    requires forall i :: 0 <= i < |d| ==> IsDigit(d[i], 16)
    ensures NumberText("0x" + d + rest) == "0x" + d
  {
    hide IsDigit, DigitRun, NumberText;
    RunEnds(d, rest, 16);
    var s := "0x" + d + rest;
    assert s[0] == '0' && s[1] == 'x' && s[2] == d[0] && s[2..] == d + rest;
    FrontRead(s, 2 + |d|);
    assert s[..2 + |d|] == "0x" + d;
  }

  // ---------------------------------------------------------------------------------------------
  // When the value of a number no longer depends on what follows
  // ---------------------------------------------------------------------------------------------

  predicate Negative(s: string) {
    StripLeft(s) != [] && StripLeft(s)[0] == '-'
  }

  /** What the response code becomes for the text from the word on. */
  function IntValue(s: string): int {
    ToInt(ULong(NumberText(s)))
  }

  /** One more digit takes the number out of range, and it already reads as -1, like every number out of range. */
  predicate Saturated(s: string) {
    !Settled(s) && Amount(Unsigned(s)) * Radix(Unsigned(s)) >= ULONG_SIZE && IntValue(s) == -1
  }

  lemma WholeNumber(s: string)
    requires Digits(Unsigned(s)) == |Unsigned(s)| > 0
    ensures NumberText(s) == StripLeft(s)
    ensures IntValue(s) == ToInt(InRange(Negative(s), Amount(Unsigned(s))))
  {
    hide StripLeft, Digits, ToInt, InRange, Amount;
  }

  /** The value of a number that runs into the end of the text. */
  lemma OpenValue(s: string)
    requires !Settled(s)
    ensures IntValue(s) == ToInt(InRange(Negative(s), Amount(Unsigned(s))))
  {
    hide StripLeft, ToInt;
    var t, b := Unsigned(s), StripLeft(s);
    if t == [] {
      NumberFits(s);
      assert NumberText(s) == [] && InRange(Negative(s), 0) == 0;
    } else if HexMark(t) && |t| == 2 {
      HexIsNotOctal(t);
      assert t[1..] == [t[1]] && DigitRun(t, 8) == 1;
      var n := b[..SignLength(b) + 1];
      assert NumberText(s) == n && n[SignLength(n)..] == "0" && Amount("0") == 0 == Amount(t);
    } else {
      hide Digits, InRange;
      WholeNumber(s);
    }
  }

  lemma MagnitudeNext(t: string, c: char, base: nat)
    ensures Magnitude([], base) == 0 && Magnitude(t + [c], base) == Magnitude(t, base) * base + DigitValue(c)
  {
    assert (t + [c])[..|t|] == t;
  }

  /** The number with one more digit. */
  function WithDigit(t: string, c: char): nat {
    Amount(t) * Radix(t) + DigitValue(c)
  }

  lemma AmountGrows(t: string, c: char)
    requires !Ends(t) && IsBit(c)
    ensures Amount(t + [c]) == WithDigit(t, c)
  {
    hide Magnitude, Digits;
    if t == [] {
      assert t + [c] == [c] == [] + [c] && !HexMark([c]);
      MagnitudeNext([], c, Base([c]));
      MagnitudeNext([], c, Base([]));
    } else if HexMark(t) {
      assert (t + [c])[2..] == t[2..] + [c];
      MagnitudeNext(t[2..], c, 16);
    } else {
      MagnitudeNext(t, c, Base(t));
    }
  }

  lemma OneOfTwoDiffers(negative: bool, m: nat, r: nat)
    requires r == 8 || r == 10 || r == 16
    requires !(m * r >= ULONG_SIZE && ToInt(InRange(negative, m)) == -1)
    ensures var v := ToInt(InRange(negative, m));
      ToInt(InRange(negative, m * r)) != v || ToInt(InRange(negative, m * r + 1)) != v
  {
    if m * r >= ULONG_SIZE {
      assert ToInt(ULONG_SIZE - 1) == -1;
    } else {
      assert m * r + 1 < ULONG_SIZE;
      NextDiffers(negative, m * r);
    }
  }

  lemma NextDiffers(negative: bool, m: nat)
    requires m + 1 < ULONG_SIZE
    ensures ToInt(InRange(negative, m)) != ToInt(InRange(negative, m + 1))
  {}

  /** A number neither settled nor saturated reads differently when the right digit follows. */
  lemma UnsettledMoves(s: string)
    requires !Settled(s) && !Saturated(s)
    ensures IntValue(s + "0") != IntValue(s) || IntValue(s + "1") != IntValue(s)
  {
    hide StripLeft, Digits, Ends, NumberText, ULong, ToInt, InRange, Amount, Radix, Negative, Unsigned, IntValue;
    var t := Unsigned(s);
    DigitGrows(s, '0');
    DigitGrows(s, '1');
    OpenValue(s);
    RadixCases(t);
    OneOfTwoDiffers(Negative(s), Amount(t), Radix(t));
  }

  lemma RadixCases(t: string)
    ensures Radix(t) == 8 || Radix(t) == 10 || Radix(t) == 16
  {}

  lemma DigitGrows(s: string, c: char)
    requires !Settled(s) && IsBit(c)
    ensures var t := Unsigned(s);
      IntValue(s + [c]) == ToInt(InRange(Negative(s), WithDigit(t, c)))
  {
    hide StripLeft, Digits, Ends, NumberText, ULong, ToInt, InRange, Amount, Radix, Negative, Unsigned, IntValue;
    UnsignedGrows(s, c);
    DigitsGrow(Unsigned(s), c);
    AmountGrows(Unsigned(s), c);
    OpenValue(s + [c]);
  }

  lemma {:induction false} MagnitudeGrows(t: string, d: string, base: nat)
    requires base >= 1
    ensures Magnitude(t + d, base) >= Magnitude(t, base)
    ensures d != [] ==> Magnitude(t + d, base) >= Magnitude(t, base) * base
    decreases |d|
  {
    if d == [] {
      assert t + d == t;
    } else {
      assert (t + d)[..|t + d| - 1] == t + d[..|d| - 1];
      MagnitudeGrows(t, d[..|d| - 1], base);
      MulGrows(Magnitude(t, base), Magnitude(t + d[..|d| - 1], base), base);
    }
  }

  lemma MulGrows(a: nat, b: nat, m: nat)
    requires a <= b && m >= 1
    ensures a * m <= b * m && a <= b * m
  {}

  /** The digits of a saturated number, of which there are several, run to its end. */
  lemma SaturatedDigits(s: string)
    requires Saturated(s)
    ensures |Unsigned(s)| >= 2 && Digits(Unsigned(s)) == |Unsigned(s)|
  {
    hide DigitRun, IntValue, Unsigned, Magnitude;
    var t := Unsigned(s);
    if t == [] {
      MagnitudeNext([], '0', Radix(t));
    } else if |t| == 1 {
      assert t == [] + [t[0]];
      MagnitudeNext([], t[0], Radix(t));
    } else if HexMark(t) && |t| == 2 {
      assert t[2..] == [];
      MagnitudeNext([], '0', 16);
    }
  }

  lemma DigitsExtend(t: string, e: string)
    requires |t| >= 2 && Digits(t) == |t|
    ensures Digits(t + e) == |t| + DigitRun(e, Radix(t))
  {
    hide DigitRun, IsDigit;
    if HexMark(t) {
      HexIsNotOctal(t);
      assert (t + e)[2..] == t[2..] + e;
      DigitRunAppend(t[2..], e, 16);
    } else {
      DigitRunAppend(t, e, Base(t));
    }
  }

  lemma DigitsTake(t: string, e: string)
    requires |t| >= 2 && Digits(t) == |t|
    ensures Digits(t + e) == |t| + DigitRun(e, Radix(t))
    ensures var n := DigitRun(e, Radix(t)); Digits(t + e[..n]) == |t + e[..n]|
  {
    hide Digits, DigitRun, Radix;
    DigitRunFront(e, Radix(t));
    DigitsExtend(t, e);
    DigitsExtend(t, e[..DigitRun(e, Radix(t))]);
  }

  lemma {:induction false} DigitRunFront(e: string, base: nat)
    ensures DigitRun(e[..DigitRun(e, base)], base) == DigitRun(e, base)
    decreases |e|
  {
    if DigitRun(e, base) > 0 {
      DigitRunFront(e[1..], base);
      assert e[..DigitRun(e, base)][1..] == e[1..][..DigitRun(e[1..], base)];
    }
  }

  lemma AmountKept(t: string, d: string)
    requires |t| >= 2
    ensures Amount(t + d) >= Amount(t) && (d != [] ==> Amount(t + d) >= Amount(t) * Radix(t))
  {
    hide Magnitude;
    if HexMark(t) { assert (t + d)[2..] == t[2..] + d; }
    MagnitudeGrows(if HexMark(t) then t[2..] else t, d, Radix(t));
  }

  lemma OutOfRange(s: string, d: string)
    requires Saturated(s)
    ensures d != [] ==> Amount(Unsigned(s) + d) >= ULONG_SIZE
  {
    SaturatedDigits(s);
    hide Amount, Radix, IntValue, Unsigned, Settled;
    AmountKept(Unsigned(s), d);
  }

  /** A whole number takes in the digits that follow, and what is behind them does not matter. */
  lemma TakesDigits(s: string, e: string) returns (d: string)
    requires |Unsigned(s)| >= 2 && Digits(Unsigned(s)) == |Unsigned(s)|
    ensures NumberText(s + e) != [] && IntValue(s + e) == IntValue(s + d)
    ensures IntValue(s + d) == ToInt(InRange(Negative(s + d), Amount(Unsigned(s) + d)))
  {
    hide StripLeft, Digits, Amount, DigitRun, IntValue, Negative, SignLength, NumberText, InRange, ToInt, Radix;
    var t := Unsigned(s);
    d := e[..DigitRun(e, Radix(t))];
    DigitsTake(t, e);
    UnsignedFrom(s);
    UnsignedAppend(s, e);
    UnsignedAppend(s, d);
    hide Unsigned;
    WholeNumber(s + d);
    PrefixAppend(StripLeft(s), e, d);
    NumberCut(s + e, s + d);
  }

  lemma PrefixAppend(b: string, e: string, d: string)
    requires d <= e
    ensures b + d <= b + e
  {}

  /** A saturated number is converted to -1 whatever follows. */
  lemma SaturatedStays(s: string, e: string)
    requires Saturated(s)
    ensures NumberText(s) != [] && NumberText(s + e) != [] && IntValue(s + e) == IntValue(s) == -1
  {
    assert IntValue(s) == -1;
    hide Saturated, StripLeft, Digits, Amount, IntValue, Negative, NumberText, InRange, ToInt, Unsigned;
    SaturatedDigits(s);
    var none := TakesDigits(s, []);
    assert s + [] == s;
    var d := TakesDigits(s, e);
    OutOfRange(s, d);
    if d == [] { assert s + d == s; } else { TopIsMinusOne(Negative(s + d), Amount(Unsigned(s) + d)); }
  }

  lemma UnsignedFrom(s: string)
    ensures Unsigned(s) != [] ==> StripLeft(s) != []
    ensures |StripLeft(s)| == SignLength(StripLeft(s)) + |Unsigned(s)|
  {
    hide StripLeft;
  }

  /** The longer text converts the same characters when its front is the other one, all of which is digits. */
  lemma NumberCut(s: string, s': string)
    requires StripLeft(s') <= StripLeft(s) && SignLength(StripLeft(s)) == SignLength(StripLeft(s'))
    requires 0 < Digits(Unsigned(s')) == |Unsigned(s')| == Digits(Unsigned(s))
    ensures NumberText(s) == NumberText(s') != [] && IntValue(s) == IntValue(s')
  {
    hide StripLeft, Digits, ULong, ToInt;
  }

  lemma TopIsMinusOne(negative: bool, m: nat)
    requires m >= ULONG_SIZE
    ensures ToInt(InRange(negative, m)) == -1
  {}

  function Nines(n: nat): (s: string)
    ensures |s| == n && forall i :: 0 <= i < n ==> s[i] == '9'
  {
    if n == 0 then [] else Nines(n - 1) + "9"
  }

  lemma {:induction false} NinesRun(t: string)
    requires forall i :: 0 <= i < |t| ==> t[i] == '9'
    ensures DigitRun(t, 10) == |t|
    decreases |t|
  {
    if t != [] { NinesRun(t[1..]); }
  }

  function Tens(n: nat): nat {
    if n == 0 then 1 else 10 * Tens(n - 1)
  }

  lemma {:induction false} NinesAmount(n: nat)
    ensures Magnitude(Nines(n), 10) + 1 == Tens(n)
  {
    if n > 0 {
      NinesAmount(n - 1);
      MagnitudeNext(Nines(n - 1), '9', 10);
    }
  }

  lemma {:induction false} TensGrow(n: nat)
    requires n >= 20
    ensures Tens(n) > ULONG_SIZE
  {
    if n > 20 {
      TensGrow(n - 1);
    } else {
      assert Tens(5) == 10 * Tens(4) == 100 * Tens(3) == 1000 * Tens(2) == 10000 * Tens(1) == 100000;
      assert Tens(10) == 10 * Tens(9) == 100 * Tens(8) == 1000 * Tens(7) == 10000 * Tens(6) == 100000 * Tens(5);
      assert Tens(15) == 10 * Tens(14) == 100 * Tens(13) == 1000 * Tens(12) == 10000 * Tens(11) == 100000 * Tens(10);
      assert Tens(20) == 10 * Tens(19) == 100 * Tens(18) == 1000 * Tens(17) == 10000 * Tens(16) == 100000 * Tens(15);
    }
  }

  /** Twenty nines or more, which run to the end of the text, are saturated. */
  lemma NinesSaturate(n: nat)
    requires n >= 20
    ensures Saturated(Nines(n))
  {
    var s := Nines(n);
    assert StripLeft(s) == s && s[0..] == s;
    NinesRun(s);
    NinesAmount(n);
    TensGrow(n);
    hide StripLeft, Magnitude;
    TopIsMinusOne(false, Amount(s));
    WholeNumber(s);
  }

  // ---------------------------------------------------------------------------------------------
  // strcasecmp
  // ---------------------------------------------------------------------------------------------

  function Lower(c: char): char {
    if 'A' <= c <= 'Z' then (c as int + 32) as char else c
  }

  predicate SameIgnoringCase(a: string, b: string) {
    |a| == |b| && forall i :: 0 <= i < |a| ==> Lower(a[i]) == Lower(b[i])
  }
}
