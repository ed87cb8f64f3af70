/** The pieces of the C library the modelled code leans on, written out over
    unbounded integers and `seq<char>` strings: `isspace` in the "C" locale,
    integer division truncating toward zero, `printf("%d")`, and the
    `scanf` directives `%d`, a blank and `%[^\n]`. */
module CLib {
  import opened Wrappers

  /** `isspace` in the "C" locale: blank, and `\t` `\n` `\v` `\f` `\r` (codes 9 to 13). */
  predicate IsSpace(c: char) {
    c == ' ' || 9 <= c as int <= 13
  }

  predicate IsDigit(c: char) {
    '0' <= c <= '9'
  }

  predicate AllDigits(s: string) {
    forall i :: 0 <= i < |s| ==> IsDigit(s[i])
  }

  /** C's `a / b` for a positive divisor: the quotient truncated toward zero
      (Dafny's own `/` is Euclidean and differs for negative `a`). */
  function TruncDiv(a: int, b: int): (q: int)
    requires b > 0
    ensures a >= 0 ==> q * b <= a < q * b + b
    ensures a < 0 ==> q * b - b < a <= q * b
  {
    if a >= 0 then a / b else -((-a) / b)
  }

  /** Halving with truncation splits a length into two margins that differ by
      at most one, whatever the sign of the length. */
  lemma HalfIsCentred(a: int)
    ensures var q := TruncDiv(a, 2); -1 <= a - 2 * q <= 1
  {
  }

  // ---------------------------------------------------------------------
  // printf("%d")

  function DigitChar(d: int): (c: char)
    requires 0 <= d < 10
    ensures IsDigit(c)
  {
    ('0' as int + d) as char
  }

  /** Decimal digits of a natural number, most significant first, no leading zeros. */
  function NatToDecimal(n: nat): (s: string)
    ensures |s| > 0 && AllDigits(s)
    decreases n
  {
    if n < 10 then [DigitChar(n)] else NatToDecimal(n / 10) + [DigitChar(n % 10)]
  }

  /** `printf("%d", d)`. */
  function FormatInt(d: int): (s: string)
    ensures |s| > 0 && (IsDigit(s[0]) || s[0] == '-')
    ensures s[0] == '-' <==> d < 0
    ensures AllDigits(if d < 0 then s[1..] else s)
  {
    if d < 0 then "-" + NatToDecimal(-d) else NatToDecimal(d)
  }

  // ---------------------------------------------------------------------
  // scanf

  /** Value of a run of decimal digits. */
  function DigitsValue(s: string): nat
    requires AllDigits(s)
  {
    if |s| == 0 then 0 else DigitsValue(s[..|s| - 1]) * 10 + (s[|s| - 1] as int - '0' as int)
  }

  /** Length of the longest prefix of `s` made of decimal digits. */
  function LeadingDigits(s: string): (k: nat)
    ensures k <= |s| && AllDigits(s[..k])
    ensures k < |s| ==> !IsDigit(s[k])
  {
    if |s| == 0 || !IsDigit(s[0]) then 0
    else
      var k := 1 + LeadingDigits(s[1..]);
      assert s[..k] == [s[0]] + s[1..][..k - 1];
      k
  }

  /** What a blank in a `scanf` format consumes: every leading white-space character. */
  function SkipSpace(s: string): (r: string)
    ensures |r| <= |s| && r == s[|s| - |r|..]
    ensures forall i :: 0 <= i < |s| - |r| ==> IsSpace(s[i])
    ensures |r| > 0 ==> !IsSpace(r[0])
  {
    if |s| > 0 && IsSpace(s[0]) then SkipSpace(s[1..]) else s
  }

  /** The characters of `s` before its first newline: what `%[^\n]` would
      store, and what cutting a string at `strchr(s, '\n')` keeps. */
  function UntilNewline(s: string): (r: string)
    ensures |r| <= |s| && r == s[..|r|]
    ensures '\n' !in r
    ensures |r| < |s| ==> s[|r|] == '\n'
  {
    if |s| == 0 || s[0] == '\n' then [] else [s[0]] + UntilNewline(s[1..])
  }

  /** The outcome of a successful `%d` conversion: the value and the unread input. */
  datatype Scanned = Scanned(value: int, rest: string)

  /** The digit stage of `%d`: at least one digit, read greedily. */
  function ScanDigits(u: string): (r: Option<Scanned>)
    ensures r.Some? ==> r.value.value >= 0 && |r.value.rest| < |u|
    ensures r.Some? ==> |r.value.rest| == 0 || !IsDigit(r.value.rest[0])
  {
    var k := LeadingDigits(u);
    if k == 0 then None else Some(Scanned(DigitsValue(u[..k]), u[k..]))
  }

  /** What `%d` sees after skipping white space: whether a minus sign comes
      first, and the text after the optional sign. */
  predicate MinusSign(s: string) {
    var t := SkipSpace(s);
    |t| > 0 && t[0] == '-'
  }

  function Unsigned(s: string): string {
    var t := SkipSpace(s);
    if |t| > 0 && (t[0] == '-' || t[0] == '+') then t[1..] else t
  }

  /** `%d`: white space skipped, an optional sign, then the digit stage.
      `None` is a matching failure; `ScanIntReads` says what is read. */
  function ScanInt(s: string): (r: Option<Scanned>)
    ensures r.Some? ==> |r.value.rest| < |s|
    ensures r.Some? ==> |r.value.rest| == 0 || !IsDigit(r.value.rest[0])
  {
    var t := SkipSpace(s);
    if |t| > 0 && t[0] == '-' then
      match ScanDigits(t[1..])
      case None => None
      case Some(Scanned(v, rest)) => Some(Scanned(-v, rest))
    else if |t| > 0 && t[0] == '+' then ScanDigits(t[1..])
    else ScanDigits(t)
  }

  /** `%d` succeeds exactly when a digit follows the white space and the
      optional sign, and then reads the whole run of digits there, negated
      after a minus sign, leaving what follows the run. */
  lemma ScanIntReads(s: string)
    ensures ScanInt(s).Some? <==> |Unsigned(s)| > 0 && IsDigit(Unsigned(s)[0])
    ensures ScanInt(s).Some? ==> var u := Unsigned(s); var k := LeadingDigits(u);
      && ScanInt(s).value.rest == u[k..]
      && ScanInt(s).value.value == (if MinusSign(s) then 0 - DigitsValue(u[..k]) else DigitsValue(u[..k]))
  {
  }

  lemma {:induction false} DecimalValue(n: nat)
    ensures DigitsValue(NatToDecimal(n)) == n
    decreases n
  {
    if n >= 10 {
      var s := NatToDecimal(n);
      var p := NatToDecimal(n / 10);
      assert s == p + [DigitChar(n % 10)];
      assert s[..|s| - 1] == p;
      DecimalValue(n / 10);
    }
  }

  lemma {:induction false} DigitsThenStop(x: string, rest: string)
    requires AllDigits(x)
    requires |rest| == 0 || !IsDigit(rest[0])
    ensures LeadingDigits(x + rest) == |x|
    decreases |x|
  {
    if |x| > 0 {
      assert (x + rest)[1..] == x[1..] + rest;
      DigitsThenStop(x[1..], rest);
    } else {
      assert x + rest == rest;
    }
  }

  /** An unsigned run of digits followed by a non-digit is read back by the
      digit stage of `%d`. */
  lemma DigitStage(digits: string, rest: string)
    requires |digits| > 0 && AllDigits(digits)
    requires |rest| == 0 || !IsDigit(rest[0])
    ensures LeadingDigits(digits + rest) == |digits|
    ensures (digits + rest)[..|digits|] == digits
    ensures (digits + rest)[|digits|..] == rest
  {
    DigitsThenStop(digits, rest);
  }

  /** Without white space or a sign in front, `%d` is its digit stage. */
  lemma ScanUnsigned(s: string)
    requires |s| > 0 && IsDigit(s[0])
    ensures ScanInt(s) == ScanDigits(s)
  {
    assert SkipSpace(s) == s;
  }

  /** With a leading minus sign, `%d` negates its digit stage. */
  lemma ScanNegative(s: string, v: int, rest: string)
    requires |s| > 0 && s[0] == '-'
    requires ScanDigits(s[1..]) == Some(Scanned(v, rest))
    ensures ScanInt(s) == Some(Scanned(-v, rest))
  {
    assert SkipSpace(s) == s;
  }

  /** The digit stage reads back the decimal digits of `n` when no digit follows. */
  lemma DecimalDigitStage(n: nat, rest: string)
    requires |rest| == 0 || !IsDigit(rest[0])
    ensures ScanDigits(NatToDecimal(n) + rest) == Some(Scanned(n, rest))
  {
    var digits := NatToDecimal(n);
    DecimalValue(n);
    DigitStage(digits, rest);
  }

  /** A negative number is printed as a minus sign and its magnitude. */
  lemma NegativeLayout(d: int, rest: string)
    requires d < 0
    ensures var s := FormatInt(d) + rest;
      |s| > 0 && s[0] == '-' && s[1..] == NatToDecimal(-d) + rest
  {
    var u := NatToDecimal(-d) + rest;
    assert FormatInt(d) + rest == ['-'] + u;
    assert (['-'] + u)[1..] == u;
  }

  lemma {:induction false} ScanFormattedNegative(d: int, rest: string)
    requires d < 0
    requires |rest| == 0 || !IsDigit(rest[0])
    ensures ScanInt(FormatInt(d) + rest) == Some(Scanned(d, rest))
  {
    var s := FormatInt(d) + rest;
    NegativeLayout(d, rest);
    DecimalDigitStage(-d, rest);
    assert ScanDigits(s[1..]) == Some(Scanned(-d, rest));
    ScanNegative(s, -d, rest);
  }

  /** A non-negative number is printed as its digits alone. */
  lemma {:induction false} ScanFormattedNatural(d: int, rest: string)
    requires d >= 0
    requires |rest| == 0 || !IsDigit(rest[0])
    ensures ScanInt(FormatInt(d) + rest) == Some(Scanned(d, rest))
  {
    var s := NatToDecimal(d) + rest;
    assert FormatInt(d) + rest == s;
    DecimalDigitStage(d, rest);
    ScanUnsigned(s);
  }

  /** `scanf("%d")` reads back exactly what `printf("%d")` wrote, as long as
      no digit follows it. */
  lemma ScanFormatted(d: int, rest: string)
    requires |rest| == 0 || !IsDigit(rest[0])
    ensures ScanInt(FormatInt(d) + rest) == Some(Scanned(d, rest))
  {
    if d < 0 {
      ScanFormattedNegative(d, rest);
    } else {
      ScanFormattedNatural(d, rest);
    }
  }
}
