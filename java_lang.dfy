/** The pieces of the Java platform that the blockchain core relies on:
    fixed-width integer arithmetic, decimal rendering of integers
    (string concatenation, `%d`), `Math.abs`, `String.strip`,
    `String.startsWith` and `String.repeat`. */
module JavaLang {

  datatype Option<T> = None | Some(value: T)

  const TWO_32: int := 0x1_0000_0000
  const TWO_64: int := 0x1_0000_0000_0000_0000
  const INT_MIN: int := -0x8000_0000

  /** Java `int`. */
  type Int32 = x: int | -0x8000_0000 <= x < 0x8000_0000
  /** A byte as the unsigned value `0xff & b`. */
  type Byte = b: int | 0 <= b < 256
  /** Java `long`. */
  type Int64 = x: int | -0x8000_0000_0000_0000 <= x < 0x8000_0000_0000_0000

  /** Two's-complement wrap-around of a 32-bit `int` operation. */
  function Wrap32(x: int): (r: Int32)
    ensures (r - x) % TWO_32 == 0
    ensures -0x8000_0000 <= x < 0x8000_0000 ==> r == x
  {
    (x + 0x8000_0000) % TWO_32 - 0x8000_0000
  }

  /** Two's-complement wrap-around of a 64-bit `long` operation. */
  function Wrap64(x: int): (r: Int64)
    ensures (r - x) % TWO_64 == 0
    ensures -0x8000_0000_0000_0000 <= x < 0x8000_0000_0000_0000 ==> r == x
  {
    (x + 0x8000_0000_0000_0000) % TWO_64 - 0x8000_0000_0000_0000
  }

  /** `Math.abs(int)`: the absolute value, except that the most negative
      `int` has no positive counterpart and is returned unchanged. */
  function JavaAbs(x: Int32): (r: Int32)
    ensures x == INT_MIN ==> r == INT_MIN
    ensures x != INT_MIN ==> r >= 0 && (r == x || r == -x)
  {
    var magnitude: int := if x < 0 then -(x as int) else x;
    Wrap32(magnitude)
  }

  // ---------------------------------------------------------------------
  // Decimal rendering (`"" + n`, `String.format("%d", n)`)
  // ---------------------------------------------------------------------

  predicate IsDigit(c: char) { '0' <= c <= '9' }

  predicate AllDigits(s: string) { forall k :: 0 <= k < |s| ==> IsDigit(s[k]) }

  function DigitChar(d: int): (c: char)
    requires 0 <= d < 10
    ensures IsDigit(c)
  {
    ('0' as int + d) as char
  }

  function DigitValue(c: char): (d: nat)
    requires IsDigit(c)
    ensures d < 10
  {
    c as int - '0' as int
  }

  /** The digits of a natural number, most significant first, without
      leading zeros. */
  function NatDigits(n: nat): (s: string)
    ensures |s| >= 1 && AllDigits(s)
    ensures s[0] == '0' ==> n == 0
    decreases n
  {
    if n < 10 then [DigitChar(n)] else NatDigits(n / 10) + [DigitChar(n % 10)]
  }

  /** The number a string of digits denotes: the reading direction of
      NatDigits. */
  function DigitsValue(s: string): nat
    requires AllDigits(s)
  {
    if s == [] then 0 else DigitsValue(s[..|s| - 1]) * 10 + DigitValue(s[|s| - 1])
  }

  lemma DigitRoundTrip(d: int)
    requires 0 <= d < 10
    ensures DigitValue(DigitChar(d)) == d
  {
  }

  lemma {:induction false} NatDigitsRoundTrip(n: nat)
    ensures DigitsValue(NatDigits(n)) == n
    decreases n
  {
    var s := NatDigits(n);
    if n < 10 {
      DigitRoundTrip(n);
      assert s == [DigitChar(n)];
      assert s[..0] == [];
    } else {
      var front := NatDigits(n / 10);
      NatDigitsRoundTrip(n / 10);
      DigitRoundTrip(n % 10);
      assert s == front + [DigitChar(n % 10)];
      assert s[..|s| - 1] == front;
      assert DigitsValue(s) == DigitsValue(front) * 10 + DigitValue(s[|s| - 1]);
    }
  }

  /** Java's decimal form of an integer: a minus sign for negative values,
      then the digits of the magnitude. */
  function Decimal(n: int): string
  {
    if n < 0 then "-" + NatDigits(-n) else NatDigits(n)
  }

  /** The decimal form starts with '-' exactly for negative numbers, and the
      rest is the digits of the magnitude. */
  lemma DecimalParts(n: int)
    ensures |Decimal(n)| >= 1
    ensures Decimal(n)[0] == '-' <==> n < 0
    ensures n < 0 ==> Decimal(n)[1..] == NatDigits(-n)
    ensures n >= 0 ==> Decimal(n) == NatDigits(n)
  {
    if n < 0 {
      var digits := NatDigits(-n);
      assert Decimal(n) == "-" + digits;
      assert ("-" + digits)[1..] == digits;
    } else {
      assert IsDigit(NatDigits(n)[0]);
    }
  }

  /** Different natural numbers have different digit strings. */
  lemma NatDigitsInjective(m: nat, n: nat)
    requires NatDigits(m) == NatDigits(n)
    ensures m == n
  {
    NatDigitsRoundTrip(m);
    NatDigitsRoundTrip(n);
  }

  /** Different integers have different decimal forms. */
  lemma DecimalInjective(a: int, b: int)
    requires Decimal(a) == Decimal(b)
    ensures a == b
  {
    DecimalParts(a);
    DecimalParts(b);
    if a < 0 {
      assert b < 0;
      assert NatDigits(-a) == Decimal(a)[1..] == Decimal(b)[1..] == NatDigits(-b);
      NatDigitsInjective(-a, -b);
    } else {
      assert b >= 0;
      NatDigitsInjective(a, b);
    }
  }

  // ---------------------------------------------------------------------
  // Strings
  // ---------------------------------------------------------------------

  /** `Character.isWhitespace`: the Unicode space, line and paragraph
      separators except the three non-breaking spaces, and the ASCII
      control characters HT, LF, VT, FF, CR and FS, GS, RS, US. */
  predicate IsWhitespace(c: char)
  {
    || c == ' ' || c == '\t' || c == '\n' || c == '\U{000B}' || c == '\U{000C}' || c == '\r'
    || ('\U{001C}' <= c <= '\U{001F}')
    || c == '\U{1680}'
    || ('\U{2000}' <= c <= '\U{200A}' && c != '\U{2007}')
    || c == '\U{2028}' || c == '\U{2029}' || c == '\U{205F}' || c == '\U{3000}'
  }

  /** Removes leading whitespace; the result is a suffix of the input. */
  function StripLeading(s: string): (r: string)
    ensures |r| <= |s| && r == s[|s| - |r|..]
    ensures forall k :: 0 <= k < |s| - |r| ==> IsWhitespace(s[k])
    ensures r != [] ==> !IsWhitespace(r[0])
  {
    if s != [] && IsWhitespace(s[0]) then StripLeading(s[1..]) else s
  }

  /** Removes trailing whitespace; the result is a prefix of the input. */
  function StripTrailing(s: string): (r: string)
    ensures |r| <= |s| && r == s[..|r|]
    ensures forall k :: |r| <= k < |s| ==> IsWhitespace(s[k])
    ensures r != [] ==> !IsWhitespace(r[|r| - 1])
  {
    if s != [] && IsWhitespace(s[|s| - 1]) then StripTrailing(s[..|s| - 1]) else s
  }

  /** `String.strip`: the part of `s` between its leading and its trailing
      whitespace. `i` is the number of leading characters removed. */
  function Strip(s: string): (r: string)
    ensures var i := |s| - |StripLeading(s)|;
      && i + |r| <= |s|
      && r == s[i..i + |r|]
      && (forall k :: 0 <= k < i ==> IsWhitespace(s[k]))
      && (forall k :: i + |r| <= k < |s| ==> IsWhitespace(s[k]))
    ensures r != [] ==> !IsWhitespace(r[0]) && !IsWhitespace(r[|r| - 1])
  {
    StripTrailing(StripLeading(s))
  }

  /** Stripping a stripped string changes nothing. */
  lemma StripIdempotent(s: string)
    ensures Strip(Strip(s)) == Strip(s)
  {
    var r := Strip(s);
    assert StripLeading(r) == r;
    assert StripTrailing(r) == r;
  }

  /** `String.repeat` applied to `"0"`. */
  function Zeros(n: nat): (z: string)
    ensures |z| == n && forall k :: 0 <= k < n ==> z[k] == '0'
  {
    seq(n, _ => '0')
  }

  /** `String.startsWith`. */
  predicate StartsWith(s: string, prefix: string)
  {
    |prefix| <= |s| && s[..|prefix|] == prefix
  }

  /** Whether `s` starts with `n` zeros, character by character. */
  lemma StartsWithZeros(s: string, n: nat)
    ensures StartsWith(s, Zeros(n)) <==> n <= |s| && forall k :: 0 <= k < n ==> s[k] == '0'
  {
    if n <= |s| && forall k :: 0 <= k < n ==> s[k] == '0' {
      assert s[..n] == Zeros(n);
    }
  }

  /** Only the first `|prefix|` characters of `s` decide whether it starts
      with `prefix`: a string and any of its prefixes at least that long
      agree. */
  lemma StartsWithLongerPrefix(s: string, p: string, prefix: string)
    requires |prefix| <= |p| <= |s| && s[..|p|] == p
    ensures StartsWith(p, prefix) <==> StartsWith(s, prefix)
  {
    assert s[..|prefix|] == p[..|prefix|];
  }

  /** Cancelling a common prefix and a common suffix. */
  lemma CancelAround(p: string, x: string, y: string, q: string)
    requires p + x + q == p + y + q
    ensures x == y
  {
    var whole := p + x + q;
    assert |x| == |y|;
    assert x == whole[|p|..|p| + |x|];
    assert y == (p + y + q)[|p|..|p| + |y|];
  }
}
