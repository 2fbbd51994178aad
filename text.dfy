/** The few Python string services the repository relies on: `str.strip()`,
    the decimal rendering of an `int`, and `repr()` of a `str`. */
module PyText {

  /** Python's `str.isspace()` for one character: the ASCII separators
      \t \n \v \f \r, the information separators \x1c-\x1f, the space, and
      the Unicode white space characters. */
  predicate IsSpace(c: char) {
    var n := c as int;
    || 9 <= n <= 13
    || 28 <= n <= 32
    || n == 0x85 || n == 0xA0 || n == 0x1680
    || 0x2000 <= n <= 0x200A
    || n == 0x2028 || n == 0x2029 || n == 0x202F || n == 0x205F || n == 0x3000
  }

  ghost predicate AllSpace(s: string) {
    forall k :: 0 <= k < |s| ==> IsSpace(s[k])
  }

  /** Neither end of `s` is white space. */
  predicate Trimmed(s: string) {
    s == [] || (!IsSpace(s[0]) && !IsSpace(s[|s| - 1]))
  }

  /** Length of the leading run of white space. */
  function LeadingSpace(s: string): (i: nat)
    ensures i <= |s|
    ensures AllSpace(s[..i])
    ensures i < |s| ==> !IsSpace(s[i])
  {
    if s == [] || !IsSpace(s[0]) then 0
    else
      var i := 1 + LeadingSpace(s[1..]);
      assert forall k :: 1 <= k < i ==> s[k] == s[1..][k - 1];
      i
  }

  /** Index where the trailing run of white space starts. */
  function TrailingSpace(s: string): (j: nat)
    ensures j <= |s|
    ensures AllSpace(s[j..])
    ensures j > 0 ==> !IsSpace(s[j - 1])
  {
    if s == [] || !IsSpace(s[|s| - 1]) then |s|
    else
      var j := TrailingSpace(s[..|s| - 1]);
      assert forall k :: j <= k < |s| - 1 ==> s[k] == s[..|s| - 1][k];
      j
  }

  /** `s.strip()`: `s` without its leading and trailing white space. */
  function Strip(s: string): (r: string)
    ensures |r| <= |s|
    ensures Trimmed(r)
  {
    var u := s[LeadingSpace(s)..];
    var r := u[..TrailingSpace(u)];
    assert r != [] ==> r[0] == u[0];
    r
  }

  /** `Strip(s)` is the one slice of `s` that is trimmed and leaves only
      white space on either side of it. */
  lemma StripIsTheTrimmedCore(s: string, i: nat, j: nat)
    requires i <= j <= |s|
    requires AllSpace(s[..i]) && AllSpace(s[j..]) && Trimmed(s[i..j])
    ensures Strip(s) == s[i..j]
  {
    var a := LeadingSpace(s);
    var u := s[a..];
    var b := TrailingSpace(u);
    if i == j {
      // everything is white space: the leading run covers all of s
      forall k | 0 <= k < |s| ensures IsSpace(s[k]) {
        if k < i { assert s[..i][k] == s[k]; } else { assert s[j..][k - j] == s[k]; }
      }
      assert u == [];
    } else {
      assert !IsSpace(s[i]) by { assert s[i..j][0] == s[i]; }
      assert !IsSpace(s[j - 1]) by { assert s[i..j][j - i - 1] == s[j - 1]; }
      assert a == i;
      assert b == j - i;
    }
  }

  /** Stripping twice strips nothing more. */
  lemma StripIdempotent(s: string)
    ensures Strip(Strip(s)) == Strip(s)
  {
    var r := Strip(s);
    assert r[..0] == [] && r[|r|..] == [] && r[0..|r|] == r;
    StripIsTheTrimmedCore(r, 0, |r|);
  }

  lemma AllSpaceConcat(x: string, y: string)
    requires AllSpace(x) && AllSpace(y)
    ensures AllSpace(x + y)
  {
    forall k | 0 <= k < |x + y| ensures IsSpace((x + y)[k]) {
      if k >= |x| { assert (x + y)[k] == y[k - |x|]; }
    }
  }

  /** Where `Strip(s)` sits inside `s`. */
  lemma StripBounds(s: string) returns (i: nat, j: nat)
    ensures i <= j <= |s|
    ensures AllSpace(s[..i]) && AllSpace(s[j..])
    ensures Strip(s) == s[i..j]
  {
    i := LeadingSpace(s);
    var u := s[i..];
    j := i + TrailingSpace(u);
    assert u[..j - i] == s[i..j];
    assert u[j - i..] == s[j..];
  }

  lemma PaddedBounds(a: string, s: string, b: string, i: nat, j: nat)
    requires i <= j <= |s|
    requires AllSpace(a) && AllSpace(b) && AllSpace(s[..i]) && AllSpace(s[j..])
    ensures AllSpace((a + s + b)[..|a| + i]) && AllSpace((a + s + b)[|a| + j..])
    ensures (a + s + b)[|a| + i..|a| + j] == s[i..j]
  {
    var w := a + s + b;
    assert w[..|a| + i] == a + s[..i];
    AllSpaceConcat(a, s[..i]);
    assert w[|a| + j..] == s[j..] + b;
    AllSpaceConcat(s[j..], b);
  }

  /** White space added around a text does not survive stripping. */
  lemma StripIgnoresPadding(a: string, s: string, b: string)
    requires AllSpace(a) && AllSpace(b)
    ensures Strip(a + s + b) == Strip(s)
  {
    var i, j := StripBounds(s);
    PaddedBounds(a, s, b, i, j);
    StripIsTheTrimmedCore(a + s + b, |a| + i, |a| + j);
  }

  // ----- decimal rendering of integers -----

  predicate IsDigit(c: char) {
    '0' <= c <= '9'
  }

  ghost predicate AllDigits(s: string) {
    forall k :: 0 <= k < |s| ==> IsDigit(s[k])
  }

  function DigitChar(d: nat): (c: char)
    requires d < 10
    ensures IsDigit(c)
  {
    (48 + d) as char
  }

  function DigitValue(c: char): (d: nat)
    requires IsDigit(c)
    ensures d < 10
  {
    c as int - 48
  }

  /** `str(n)` for a non-negative `int`: its decimal digits, no leading zero. */
  function Decimal(n: nat): (s: string)
    ensures |s| >= 1 && AllDigits(s)
    ensures s[0] == '0' ==> n == 0
    decreases n
  {
    if n < 10 then [DigitChar(n)]
    else
      var s := Decimal(n / 10) + [DigitChar(n % 10)];
      assert s[0] == Decimal(n / 10)[0];
      s
  }

  /** The number a string of decimal digits denotes (`int(s)`). */
  function DigitsValue(s: string): nat
    requires AllDigits(s)
  {
    if s == [] then 0
    else 10 * DigitsValue(s[..|s| - 1]) + DigitValue(s[|s| - 1])
  }

  /** Reading back the digits of `n` gives `n`. */
  lemma {:induction false} DecimalRoundTrip(n: nat)
    ensures DigitsValue(Decimal(n)) == n
    decreases n
  {
    if n >= 10 {
      DecimalRoundTrip(n / 10);
      var s := Decimal(n);
      assert s[..|s| - 1] == Decimal(n / 10);
    }
  }

  function Abs(n: int): nat {
    if n < 0 then -n else n
  }

  /** The f-string fragment `{sign}{abs(n)}` with `sign = "-" if n < 0 else ""`. */
  function SignedDecimal(n: int): string {
    (if n < 0 then "-" else "") + Decimal(Abs(n))
  }

  ghost predicate IsSignedNumeral(s: string) {
    && |s| >= 1
    && (s[0] == '-' ==> |s| >= 2 && AllDigits(s[1..]))
    && (s[0] != '-' ==> AllDigits(s))
  }

  /** `int(s)` for an optionally signed decimal numeral. */
  function ParseSigned(s: string): int
    requires IsSignedNumeral(s)
  {
    if s[0] == '-' then -(DigitsValue(s[1..]) as int) else DigitsValue(s)
  }

  /** The rendering starts with "-" exactly for a negative number, and
      parsing it back gives the number. */
  lemma SignedDecimalRoundTrip(n: int)
    ensures IsSignedNumeral(SignedDecimal(n))
    ensures SignedDecimal(n)[0] == '-' <==> n < 0
    ensures ParseSigned(SignedDecimal(n)) == n
  {
    var d := Decimal(Abs(n));
    DecimalRoundTrip(Abs(n));
    assert !IsDigit('-');
    if n < 0 {
      assert SignedDecimal(n) == "-" + d && SignedDecimal(n)[1..] == d;
    } else {
      assert SignedDecimal(n) == d && d[0] != '-';
    }
  }

  // ----- repr() of a str -----

  /** The quote `repr()` chooses: a double quote when the text holds a single
      quote and no double quote, a single quote otherwise. */
  function QuoteFor(s: string): char {
    if '\'' in s && '"' !in s then '"' else '\''
  }

  function HexDigit(d: nat): (c: char)
    requires d < 16
  {
    if d < 10 then DigitChar(d) else (87 + d) as char
  }

  /** How `repr()` writes one character inside quotes `q`. */
  function EscapeChar(c: char, q: char): string {
    if c == '\\' then "\\\\"
    else if c == q then ['\\', q]
    else if c == '\t' then "\\t"
    else if c == '\n' then "\\n"
    else if c == '\r' then "\\r"
    else if c as int < 32 || c as int == 127 then
      ['\\', 'x', HexDigit(c as int / 16), HexDigit(c as int % 16)]
    else [c]
  }

  function Escaped(s: string, q: char): string {
    if s == [] then [] else EscapeChar(s[0], q) + Escaped(s[1..], q)
  }

  /** `repr(s)` for a `str`. */
  function PyRepr(s: string): (r: string)
    ensures |r| >= 2 && r[0] == r[|r| - 1] == QuoteFor(s)
  {
    var q := QuoteFor(s);
    [q] + Escaped(s, q) + [q]
  }
}
