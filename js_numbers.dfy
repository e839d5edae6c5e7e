/** The two number conversions the controllers rely on: `parseInt(string)` with no
    radix argument, and the decimal `toString` of a non-negative integer. */
module JsNumbers {
  import opened Wrappers
  import opened JsText

  /** The value of `c` as a digit in base `radix` (10 or 16), or -1 if it is none:
      a digit's value lies below its radix, and only `0` to `9` count in base 10. */
  function DigitValue(c: char, radix: int): (v: int)
    ensures -1 <= v < 16
    ensures radix >= 10 ==> v < radix
    ensures radix != 16 ==> (v >= 0 <==> IsDecimalDigit(c))
  {
    if '0' <= c <= '9' then c as int - '0' as int
    else if radix == 16 && 'a' <= c <= 'f' then c as int - 'a' as int + 10
    else if radix == 16 && 'A' <= c <= 'F' then c as int - 'A' as int + 10
    else -1
  }

  predicate IsDigitIn(c: char, radix: int) {
    DigitValue(c, radix) >= 0
  }

  /** The longest prefix of `s` made of base-`radix` digits. */
  function DigitPrefix(s: string, radix: int): (r: string)
    ensures |r| <= |s| && r == s[..|r|]
    ensures forall k :: 0 <= k < |r| ==> IsDigitIn(r[k], radix)
    ensures |r| < |s| ==> !IsDigitIn(s[|r|], radix)
  {
    if s == [] || !IsDigitIn(s[0], radix) then [] else [s[0]] + DigitPrefix(s[1..], radix)
  }

  /** The number a string of base-`radix` digits denotes, most significant digit first. */
  function DigitsValue(ds: string, radix: int): int {
    if ds == [] then 0
    else DigitsValue(ds[..|ds| - 1], radix) * radix + DigitValue(ds[|ds| - 1], radix)
  }

  /** The digits after the sign: an optional `0x`/`0X` switches to base 16, then the
      longest run of digits is read; NaN (None) when that run is empty. */
  function ParseUnsigned(u: string): (r: Option<int>)
    ensures r.Some? ==> u != [] && IsDecimalDigit(u[0])
  {
    var hex := |u| >= 2 && u[0] == '0' && (u[1] == 'x' || u[1] == 'X');
    var radix := if hex then 16 else 10;
    var ds := DigitPrefix(if hex then u[2..] else u, radix);
    if ds == [] then None
    else
      assert !hex ==> ds[0] == u[0] && IsDigitIn(u[0], 10);
      Some(DigitsValue(ds, radix))
  }

  function Negated(v: Option<int>): Option<int> {
    match v
    case Some(n) => Some(-n)
    case None => None
  }

  /** `parseInt(s)`: skip leading spaces, take an optional sign, then read the digits.
      A number comes out only when a decimal digit follows the spaces and the sign. */
  function ParseInt(s: string): (r: Option<int>)
    ensures var t := TrimStart(s);
      var u := if t != [] && (t[0] == '+' || t[0] == '-') then t[1..] else t;
      r.Some? ==> u != [] && IsDecimalDigit(u[0])
  {
    var t := TrimStart(s);
    if |t| > 0 && t[0] == '-' then Negated(ParseUnsigned(t[1..]))
    else if |t| > 0 && t[0] == '+' then ParseUnsigned(t[1..])
    else ParseUnsigned(t)
  }

  function DigitChar(d: int): (c: char)
    requires 0 <= d < 10
    ensures IsDecimalDigit(c) && DigitValue(c, 10) == d
  {
    ('0' as int + d) as char
  }

  /** `String(n)` for a non-negative integer: its decimal digits, with no leading zero. */
  function DecimalString(n: nat): (r: string)
    ensures |r| >= 1
    ensures forall k :: 0 <= k < |r| ==> IsDecimalDigit(r[k])
    ensures r[0] == '0' ==> n == 0
  {
    if n < 10 then [DigitChar(n)] else DecimalString(n / 10) + [DigitChar(n % 10)]
  }

  /** `String(n)` for any integer. */
  function IntString(n: int): string {
    if n < 0 then "-" + DecimalString(-n) else DecimalString(n)
  }

  /** `10^k`. Its positivity is stated for the bounds of `DecimalStringLength`. */
  function Pow10(k: nat): (p: nat)
    ensures p >= 1
  {
    if k == 0 then 1 else 10 * Pow10(k - 1)
  }

  /** Reading back the decimal digits of `n` gives `n`. */
  lemma {:induction false} DecimalStringValue(n: nat)
    ensures DigitsValue(DecimalString(n), 10) == n
  {
    var r := DecimalString(n);
    if n >= 10 {
      DecimalStringValue(n / 10);
      assert r[..|r| - 1] == DecimalString(n / 10);
    }
  }

  /** A number with `k` decimal digits is written with exactly `k` characters. */
  lemma {:induction false} DecimalStringLength(n: nat, k: nat)
    requires 1 <= k && Pow10(k - 1) <= n < Pow10(k)
    ensures |DecimalString(n)| == k
  {
    if k > 1 {
      assert Pow10(k - 1) == 10 * Pow10(k - 2);
      DecimalStringLength(n / 10, k - 1);
    }
  }

  lemma {:induction false} DigitPrefixOfDigits(s: string, radix: int)
    requires forall k :: 0 <= k < |s| ==> IsDigitIn(s[k], radix)
    ensures DigitPrefix(s, radix) == s
  {
    if s != [] {
      DigitPrefixOfDigits(s[1..], radix);
    }
  }

  /** A non-empty run of decimal digits reads as its value. */
  lemma ParseUnsignedOfDecimal(d: string)
    requires |d| >= 1 && forall k :: 0 <= k < |d| ==> IsDecimalDigit(d[k])
    ensures ParseUnsigned(d) == Some(DigitsValue(d, 10))
  {
    forall k | 0 <= k < |d| ensures IsDigitIn(d[k], 10) {
      assert IsDecimalDigit(d[k]);
    }
    DigitPrefixOfDigits(d, 10);
    assert !(|d| >= 2 && (d[1] == 'x' || d[1] == 'X'));
  }

  /** ... and so it parses on its own ... */
  lemma ParseIntOfDecimal(d: string)
    requires |d| >= 1 && forall k :: 0 <= k < |d| ==> IsDecimalDigit(d[k])
    ensures ParseInt(d) == Some(DigitsValue(d, 10))
  {
    ParseUnsignedOfDecimal(d);
    assert !IsJsSpace(d[0]) && d[0] != '-' && d[0] != '+';
    TrimStartOfTrimmed(d);
  }

  /** ... and with a minus sign in front, negated. */
  lemma ParseIntOfNegatedDecimal(d: string, x: int)
    requires |d| >= 1 && forall k :: 0 <= k < |d| ==> IsDecimalDigit(d[k])
    requires x == DigitsValue(d, 10)
    ensures ParseInt("-" + d) == Some(-x)
  {
    ParseUnsignedOfDecimal(d);
    var s := "-" + d;
    TrimStartOfTrimmed(s);
    assert s[1..] == d;
    assert ParseInt(s) == Negated(ParseUnsigned(d));
    NegatedSome(ParseUnsigned(d), x);
  }

  lemma NegatedSome(p: Option<int>, x: int)
    requires p == Some(x)
    ensures Negated(p) == Some(-x)
  {
  }

  /** `parseInt(String(n)) === n`: the round trip through the decimal form. */
  lemma IntStringRoundTrip(n: int)
    ensures ParseInt(IntString(n)) == Some(n)
  {
    var m: nat := if n < 0 then -n else n;
    DecimalStringValue(m);
    if n < 0 {
      ParseIntOfNegatedDecimal(DecimalString(m), m);
    } else {
      ParseIntOfDecimal(DecimalString(m));
    }
  }
}
