/**
 * Decimal formatting and Python's `int(str)` parser, enough for the date
 * components and the aggregation keys.
 */
module Numbers {
  import opened Wrappers
  import opened Text

  predicate IsDigit(c: char) {
    '0' <= c <= '9'
  }

  function DigitValue(c: char): nat
    requires IsDigit(c)
  {
    (c as int) - ('0' as int)
  }

  function DigitChar(d: nat): (c: char)
    requires d < 10
    ensures IsDigit(c) && DigitValue(c) == d
  {
    (('0' as int) + d) as char
  }

  function Pow10(w: nat): (p: nat)
    ensures p >= 1
  {
    if w == 0 then 1 else 10 * Pow10(w - 1)
  }

  predicate AllDigits(s: string) {
    forall i :: 0 <= i < |s| ==> IsDigit(s[i])
  }

  /** `n` written with exactly `w` digits, zero-padded on the left (strftime's `%Y`, `%m`, `%d`). */
  function FixedDigits(n: nat, w: nat): (r: string)
    ensures |r| == w && AllDigits(r)
  {
    if w == 0 then "" else FixedDigits(n / 10, w - 1) + [DigitChar(n % 10)]
  }

  /** Python's `str(n)` for a non-negative integer. */
  function Decimal(n: nat): (r: string)
    ensures |r| >= 1 && AllDigits(r)
  {
    if n < 10 then [DigitChar(n)] else Decimal(n / 10) + [DigitChar(n % 10)]
  }

  /** Python's `str(n)` for any integer. */
  function IntStr(n: int): (r: string)
    ensures |r| >= 1 && IsDigit(r[|r| - 1])
  {
    if n < 0 then "-" + Decimal(-n) else Decimal(n)
  }

  /** Python's `f"{n:02d}"`: at least two characters, zero-padded when non-negative. */
  function Pad2(n: int): (r: string)
    ensures 0 <= n < 100 ==> |r| == 2 && AllDigits(r)
  {
    if 0 <= n < 100 then FixedDigits(n, 2) else IntStr(n)
  }

  /** The characters `int()` accepts in a digit body: ASCII digits and `_`. */
  predicate DigitOrUnderscore(s: string) {
    forall i :: 0 <= i < |s| ==> IsDigit(s[i]) || s[i] == '_'
  }

  /**
   * The digit body `int()` accepts: digits, with single underscores only
   * between two digits.
   */
  predicate DigitBody(s: string) {
    && |s| > 0
    && IsDigit(s[0]) && IsDigit(s[|s| - 1])
    && DigitOrUnderscore(s)
    && forall i :: 0 < i < |s| ==> !(s[i - 1] == '_' && s[i] == '_')
  }

  /** The decimal value of a digit body, underscores ignored. */
  function DigitsValue(s: string): nat
    requires DigitOrUnderscore(s)
  {
    if |s| == 0 then 0
    else if s[|s| - 1] == '_' then DigitsValue(s[..|s| - 1])
    else DigitsValue(s[..|s| - 1]) * 10 + DigitValue(s[|s| - 1])
  }

  /**
   * Python's `int(s)` in base 10 on ASCII text: whitespace `int()` skips is
   * dropped from both ends, then one optional sign and a body of ASCII digits
   * with single underscores between them; anything else is None. Python also
   * accepts the other Unicode decimal digits (`int("２０２５") == 2025`); those
   * give None here.
   */
  function ParseInt(s: string): Option<int> {
    ParseStripped(IntStrip(s))
  }

  /**
   * The whitespace `int()` skips around its argument: tab through carriage
   * return and the space among ASCII characters, and every non-ASCII
   * character `str.isspace` accepts. The ASCII separators U+001C..U+001F are
   * whitespace to `str.strip` but not to `int()`.
   */
  predicate IntSpace(c: char) {
    ('\t' <= c <= '\r') || c == ' ' || (c > '\U{7F}' && IsSpace(c))
  }

  function IntTrimLeft(s: string): string {
    if |s| > 0 && IntSpace(s[0]) then IntTrimLeft(s[1..]) else s
  }

  function IntTrimRight(s: string): string {
    if |s| > 0 && IntSpace(s[|s| - 1]) then IntTrimRight(s[..|s| - 1]) else s
  }

  function IntStrip(s: string): string {
    IntTrimRight(IntTrimLeft(s))
  }

  /** Text that neither starts nor ends with `int()` whitespace is left as is. */
  lemma IntStripKeeps(s: string)
    requires |s| > 0 && !IntSpace(s[0]) && !IntSpace(s[|s| - 1])
    ensures IntStrip(s) == s
  {
    assert IntTrimLeft(s) == s;
  }

  /** Ordinary whitespace around digits is skipped. */
  lemma ParsePadded(d: string, c: char, e: char)
    requires |d| > 0 && AllDigits(d)
    requires ('\t' <= c <= '\r' || c == ' ') && ('\t' <= e <= '\r' || e == ' ')
    ensures ParseInt([c] + d + [e]) == Some(DigitsValue(d))
  {
    DigitNotSpace(d[0]);
    DigitNotSpace(d[|d| - 1]);
    PaddingStripped([c] + d + [e], d);
    DigitsBody(d);
    ParseUnsigned(d);
  }

  lemma PaddingStripped(s: string, d: string)
    requires |d| > 0 && !IntSpace(d[0]) && !IntSpace(d[|d| - 1])
    requires |s| == |d| + 2 && IntSpace(s[0]) && IntSpace(s[|s| - 1]) && s[1..|s| - 1] == d
    ensures IntStrip(s) == d
  {
    var t := s[1..];
    assert t[0] == d[0];
    assert IntTrimLeft(t) == t;
    assert IntTrimLeft(s) == t;
    assert t[..|t| - 1] == d;
    assert IntTrimRight(d) == d;
  }

  /** A leading U+001C information separator is not skipped: `int()` refuses it. */
  lemma SeparatorRefused(d: string)
    requires |d| > 0 && AllDigits(d)
    ensures ParseInt("\U{1C}" + d) == None
  {
    var s := "\U{1C}" + d;
    assert s[|s| - 1] == d[|d| - 1];
    DigitNotSpace(d[|d| - 1]);
    IntStripKeeps(s);
    assert !IsDigit(s[0]);
  }

  /** `int()` on text already stripped: one optional sign, then a digit body. */
  function ParseStripped(t: string): Option<int> {
    var signed := |t| > 0 && (t[0] == '+' || t[0] == '-');
    var body := if signed then t[1..] else t;
    if !DigitBody(body) then None
    else
      var v: int := DigitsValue(body);
      Some(if signed && t[0] == '-' then -v else v)
  }

  /** A digit-only body is accepted as is. */
  lemma ParseDigitsOnly(s: string)
    requires |s| > 0 && AllDigits(s)
    ensures ParseInt(s) == Some(DigitsValue(s))
  {
    DigitsStripped(s);
    DigitsBody(s);
    ParseUnsigned(s);
  }

  lemma ParseUnsigned(s: string)
    requires DigitBody(s)
    ensures ParseStripped(s) == Some(DigitsValue(s))
  {
    assert IsDigit(s[0]);
  }

  lemma DigitsStripped(s: string)
    requires |s| > 0 && AllDigits(s)
    ensures IntStrip(s) == s
  {
    DigitNotSpace(s[0]);
    DigitNotSpace(s[|s| - 1]);
    IntStripKeeps(s);
  }

  lemma DigitNotSpace(c: char)
    requires IsDigit(c)
    ensures !IntSpace(c)
  {
  }

  /** A string of digits is a digit body. */
  lemma DigitsBody(s: string)
    requires |s| > 0 && AllDigits(s)
    ensures DigitBody(s)
  {
    assert IsDigit(s[0]) && IsDigit(s[|s| - 1]);
  }

  lemma {:induction false} FixedDigitsValue(n: nat, w: nat)
    requires n < Pow10(w)
    ensures DigitsValue(FixedDigits(n, w)) == n
  {
    if w > 0 {
      var r := FixedDigits(n, w);
      assert r[..w - 1] == FixedDigits(n / 10, w - 1);
      FixedDigitsValue(n / 10, w - 1);
    }
  }

  lemma {:induction false} DecimalValue(n: nat)
    ensures DigitsValue(Decimal(n)) == n
  {
    var r := Decimal(n);
    if n < 10 {
      assert r[..0] == "";
    } else {
      assert r[..|r| - 1] == Decimal(n / 10);
      DecimalValue(n / 10);
    }
  }

  /** `int()` reads a zero-padded fixed-width number back. */
  lemma ParseFixedDigits(n: nat, w: nat)
    requires w >= 1 && n < Pow10(w)
    ensures ParseInt(FixedDigits(n, w)) == Some(n)
  {
    ParseDigitsOnly(FixedDigits(n, w));
    FixedDigitsValue(n, w);
  }

  /** `int(str(n)) == n` for every integer. */
  lemma ParseIntStr(n: int)
    ensures ParseInt(IntStr(n)) == Some(n)
  {
    if n < 0 {
      ParseNegativeStr(n);
    } else {
      ParseNaturalStr(n);
    }
  }

  lemma ParseNegativeStr(n: int)
    requires n < 0
    ensures ParseInt(IntStr(n)) == Some(n)
  {
    ParseMinusDecimal(IntStr(n), -n);
  }

  lemma ParseMinusDecimal(s: string, m: nat)
    requires s == "-" + Decimal(m)
    ensures ParseInt(s) == Some(-(m as int))
  {
    DecimalValue(m);
    ParseMinusDigits(s, Decimal(m), m);
  }

  lemma ParseMinusDigits(s: string, d: string, m: nat)
    requires |d| > 0 && AllDigits(d) && DigitsValue(d) == m
    requires s == "-" + d
    ensures ParseInt(s) == Some(-(m as int))
  {
    ParseNegative(d);
  }

  lemma ParseNaturalStr(n: nat)
    ensures ParseInt(IntStr(n)) == Some(n)
  {
    ParseDecimal(IntStr(n), n);
  }

  lemma ParseDecimal(s: string, m: nat)
    requires s == Decimal(m)
    ensures ParseInt(s) == Some(m)
  {
    ParseDigitsOnly(Decimal(m));
    DecimalValue(m);
  }

  /** A minus sign before a digit-only body negates its value. */
  lemma ParseNegative(d: string)
    requires |d| > 0 && AllDigits(d)
    ensures ParseInt("-" + d) == Some(-(DigitsValue(d) as int))
  {
    NegativeStripped(d);
    DigitsBody(d);
    ParseMinus(d);
  }

  lemma ParseMinus(d: string)
    requires DigitBody(d)
    ensures ParseStripped("-" + d) == Some(-(DigitsValue(d) as int))
  {
    assert ("-" + d)[0] == '-' && ("-" + d)[1..] == d;
  }

  lemma NegativeStripped(d: string)
    requires |d| > 0 && AllDigits(d)
    ensures IntStrip("-" + d) == "-" + d
  {
    var s := "-" + d;
    assert !IntSpace('-');
    assert s[|s| - 1] == d[|d| - 1];
    DigitNotSpace(d[|d| - 1]);
    IntStripKeeps(s);
  }

  /** The first two of four fixed digits are the hundreds. */
  lemma FixedDigitsHundreds(n: nat)
    ensures FixedDigits(n, 4)[..2] == FixedDigits(n / 100, 2)
  {
    assert n / 10 / 10 == n / 100;
  }
}
