/**
 * PHP scalar values and array keys, with the conversions the repository relies on:
 * truthiness (`if ($x)`, `?:`, `empty()`), string conversion (as done by
 * `str_replace`) and `is_numeric`.
 *
 * Floats, objects and resources are not part of the model.
 */
module PhpValues {

  /** An array key. PHP stores canonical decimal strings as integer keys, so `StrK`
      carries the remaining strings. */
  datatype Key = IntK(i: int) | StrK(s: string)

  /** A scalar value: the values that appear in attribute maps, filters and ids. */
  datatype Scalar = SNull | SBool(b: bool) | SInt(n: int) | SStr(s: string)

  /** PHP truthiness: null, false, 0, "" and "0" are falsy. */
  predicate Truthy(v: Scalar) {
    match v
    case SNull => false
    case SBool(b) => b
    case SInt(n) => n != 0
    case SStr(s) => s != "" && s != "0"
  }

  predicate IsDigit(c: char) {
    '0' <= c <= '9'
  }

  function DigitChar(d: nat): (c: char)
    requires d < 10
    ensures IsDigit(c)
  {
    "0123456789"[d]
  }

  /** Decimal notation of a natural number, without leading zeros. */
  function NatToString(n: nat): (r: string)
    ensures |r| > 0
    ensures forall i :: 0 <= i < |r| ==> IsDigit(r[i])
    ensures n == 0 <==> r == "0"
    decreases n
  {
    if n < 10 then [DigitChar(n)] else NatToString(n / 10) + [DigitChar(n % 10)]
  }

  /** Decimal notation of an integer, as PHP's `(string)` cast writes it. */
  function IntToString(i: int): (r: string)
    ensures |r| > 0
    ensures forall k :: 0 <= k < |r| ==> IsDigit(r[k]) || (k == 0 && r[k] == '-')
  {
    if i < 0 then "-" + NatToString(-i) else NatToString(i)
  }

  /** PHP's `(string)` conversion of a scalar: null and false become "", true becomes "1". */
  function ToPhpString(v: Scalar): (r: string)
    ensures v.SStr? ==> r == v.s
    ensures v.SNull? || v == SBool(false) ==> r == ""
    ensures v == SBool(true) ==> r == "1"
  {
    match v
    case SNull => ""
    case SBool(b) => if b then "1" else ""
    case SInt(n) => IntToString(n)
    case SStr(s) => s
  }

  /** Number of leading characters of `s` that satisfy `IsDigit`. */
  function CountDigits(s: string): (n: nat)
    ensures n <= |s|
    ensures forall i :: 0 <= i < n ==> IsDigit(s[i])
    ensures n < |s| ==> !IsDigit(s[n])
  {
    if |s| == 0 || !IsDigit(s[0]) then 0 else 1 + CountDigits(s[1..])
  }

  predicate IsBlank(c: char) {
    c == ' ' || c == '\t' || c == '\n' || c == '\r' || c == '\U{B}' || c == '\U{C}'
  }

  function CountBlanks(s: string): (n: nat)
    ensures n <= |s|
    ensures forall i :: 0 <= i < n ==> IsBlank(s[i])
  {
    if |s| == 0 || !IsBlank(s[0]) then 0 else 1 + CountBlanks(s[1..])
  }

  /** An empty string, or an exponent `[eE][+-]?digits+`. */
  predicate IsExponentOrEmpty(s: string) {
    |s| == 0 ||
    (&& (s[0] == 'e' || s[0] == 'E')
     && var e := if |s| > 1 && (s[1] == '+' || s[1] == '-') then s[2..] else s[1..];
        |e| > 0 && CountDigits(e) == |e|)
  }

  /** PHP 7 `is_numeric` on a string: leading white space, an optional sign, a decimal
      mantissa with at least one digit and an optional exponent, nothing after it. */
  predicate IsNumericString(s: string) {
    var t := s[CountBlanks(s)..];
    var u := if |t| > 0 && (t[0] == '+' || t[0] == '-') then t[1..] else t;
    var d1 := CountDigits(u);
    var rest := u[d1..];
    if |rest| > 0 && rest[0] == '.' then
      var d2 := CountDigits(rest[1..]);
      d1 + d2 > 0 && IsExponentOrEmpty(rest[1 + d2..])
    else
      d1 > 0 && IsExponentOrEmpty(rest)
  }

  /** A string that starts with a letter or an operator symbol is not numeric. */
  lemma NotNumericByFirst(s: string)
    requires |s| > 0 && !IsBlank(s[0]) && !IsDigit(s[0]) && s[0] !in "+-."
    ensures !IsNumericString(s)
  {
    assert CountBlanks(s) == 0;
    assert CountDigits(s) == 0;
  }

  /** `is_numeric` applied to an array key: integer keys are always numeric. */
  predicate IsNumericKey(k: Key) {
    k.IntK? || IsNumericString(k.s)
  }

  /** How a supplied id is matched against an integer primary key: an integer equal to
      it, or its canonical decimal string. */
  predicate KeyEq(v: Scalar, k: int) {
    match v
    case SInt(n) => n == k
    case SStr(s) => s == IntToString(k)
    case _ => false
  }

  lemma DigitCharInjective(a: nat, b: nat)
    requires a < 10 && b < 10 && DigitChar(a) == DigitChar(b)
    ensures a == b
  {
  }

  /** Distinct natural numbers have distinct decimal forms. */
  lemma {:induction false} NatToStringInjective(a: nat, b: nat)
    requires NatToString(a) == NatToString(b)
    ensures a == b
    decreases a
  {
    var ra := NatToString(a);
    assert a < 10 <==> |ra| == 1 by {
      if a >= 10 {
        assert |NatToString(a / 10)| > 0;
      }
    }
    assert b < 10 <==> |ra| == 1 by {
      if b >= 10 {
        assert |NatToString(b / 10)| > 0;
      }
    }
    if a < 10 && b < 10 {
      DigitCharInjective(a, b);
    } else if a >= 10 && b >= 10 {
      assert ra[..|ra| - 1] == NatToString(a / 10) && ra[|ra| - 1] == DigitChar(a % 10);
      assert ra[..|ra| - 1] == NatToString(b / 10) && ra[|ra| - 1] == DigitChar(b % 10);
      NatToStringInjective(a / 10, b / 10);
      DigitCharInjective(a % 10, b % 10);
    }
  }

  /** Distinct integers have distinct decimal forms. */
  lemma IntToStringInjective(a: int, b: int)
    requires IntToString(a) == IntToString(b)
    ensures a == b
  {
    IntToStringSign(a);
    IntToStringSign(b);
    if a < 0 && b < 0 {
      DropSign(NatToString(-a), NatToString(-b));
      NatToStringInjective(-a, -b);
    } else if a >= 0 && b >= 0 {
      NatToStringInjective(a, b);
    }
  }

  /** The decimal form of an integer starts with a minus sign exactly when it is
      negative. */
  lemma IntToStringSign(a: int)
    ensures a < 0 <==> IntToString(a)[0] == '-'
  {
    if a >= 0 {
      assert IsDigit(NatToString(a)[0]);
    }
  }

  lemma DropSign(x: string, y: string)
    requires "-" + x == "-" + y
    ensures x == y
  {
    assert x == ("-" + x)[1..];
  }

  /** A supplied id matches at most one integer key. */
  lemma KeyEqUnique(v: Scalar, a: int, b: int)
    requires KeyEq(v, a) && KeyEq(v, b)
    ensures a == b
  {
    if v.SStr? {
      IntToStringInjective(a, b);
    }
  }
}
