/**
 * The text-to-number and text-to-boolean conversions `convertTo` applies:
 * `Integer.valueOf`, `Long.valueOf` and `Boolean.valueOf` on a string of
 * bytes. A failed parse is `None` (Java throws a NumberFormatException).
 */
module Numbers {
  import opened Bytes

  const MINUS: byte := 0x2D  // '-'
  const PLUS: byte := 0x2B   // '+'
  const ZERO: byte := 0x30   // '0'

  predicate IsDigit(b: byte) {
    ZERO <= b <= ZERO + 9
  }

  /** Every byte is a decimal digit. */
  predicate AllDigits(s: Bytes) {
    forall i | 0 <= i < |s| :: IsDigit(s[i])
  }

  /** The value of a string of decimal digits, read from the left. */
  function DigitsValue(s: Bytes): (r: nat)
    requires AllDigits(s)
  {
    if s == [] then 0 else DigitsValue(s[..|s| - 1]) * 10 + (s[|s| - 1] - ZERO) as int
  }

  /**
   * `Integer.parseInt(s, 10)` for a `bits`-bit signed integer (32 for
   * `Integer`, 64 for `Long`): an optional '-' or '+' and then at least
   * one digit, with a value in range. Anything else fails.
   */
  function ParseDecimal(s: Bytes, bits: nat): (r: Option<int>)
    requires bits > 0
    ensures r.Some? ==> -Power2(bits - 1) <= r.value < Power2(bits - 1)
    ensures r.Some? ==> s != [] && (r.value < 0 ==> s[0] == MINUS) && (s[0] != MINUS ==> r.value >= 0)
  {
    if s == [] then None
    else
      var negative := s[0] == MINUS;
      var start := if s[0] == MINUS || s[0] == PLUS then 1 else 0;
      var digits := s[start..];
      if digits == [] || !AllDigits(digits) then None
      else
        var value: int := DigitsValue(digits);
        var n := if negative then -value else value;
        if -Power2(bits - 1) <= n < Power2(bits - 1) then Some(n) else None
  }

  function Power2(n: nat): (r: int)
    ensures r >= 1
  {
    if n == 0 then 1 else 2 * Power2(n - 1)
  }

  /** The decimal digits of `n`, most significant first, with no leading zero. */
  function Digits(n: nat): (r: Bytes)
    ensures r != [] && AllDigits(r)
    ensures |r| > 1 ==> r[0] != ZERO
  {
    if n < 10 then [ZERO + n as byte] else Digits(n / 10) + [ZERO + (n % 10) as byte]
  }

  /** `Integer.toString`: the decimal form of `n`, with '-' for a negative number. */
  function ShowDecimal(n: int): Bytes {
    if n < 0 then [MINUS] + Digits(-n) else Digits(n)
  }

  /** Reading back the digits of `n` gives `n`. */
  lemma {:induction false} DigitsValueOf(n: nat)
    ensures DigitsValue(Digits(n)) == n
  {
    if n >= 10 {
      var d := Digits(n);
      assert d[..|d| - 1] == Digits(n / 10);
      DigitsValueOf(n / 10);
    }
  }

  /** `Integer.valueOf(Integer.toString(n)) == n` for every `n` in range, and likewise for `Long`. */
  lemma ParseShow(n: int, bits: nat)
    requires bits > 0 && -Power2(bits - 1) <= n < Power2(bits - 1)
    ensures ParseDecimal(ShowDecimal(n), bits) == Some(n)
  {
    if n < 0 {
      ParseNegative(-n, bits);
    } else {
      ParseNatural(n, bits);
    }
  }

  lemma ParseNatural(m: nat, bits: nat)
    requires bits > 0 && m < Power2(bits - 1)
    ensures ParseDecimal(Digits(m), bits) == Some(m)
  {
    var s := Digits(m);
    assert IsDigit(s[0]) && s[0..] == s;
    DigitsValueOf(m);
  }

  lemma ParseNegative(m: nat, bits: nat)
    requires bits > 0 && 0 < m <= Power2(bits - 1)
    ensures ParseDecimal([MINUS] + Digits(m), bits) == Some(-(m as int))
  {
    var s := [MINUS] + Digits(m);
    assert s[0] == MINUS && s[1..] == Digits(m);
    DigitsValueOf(m);
  }

  /** A leading '+' changes nothing: `Integer.valueOf("+7") == Integer.valueOf("7")`. */
  lemma ParsePlus(digits: Bytes, bits: nat)
    requires bits > 0 && digits != [] && AllDigits(digits)
    ensures ParseDecimal([PLUS] + digits, bits) == ParseDecimal(digits, bits)
  {
    assert ([PLUS] + digits)[1..] == digits;
    assert digits[0..] == digits;
  }

  /** Bytes `Integer.valueOf` refuses: the empty string, a lone sign, a byte that is not a digit. */
  lemma ParseRejects(s: Bytes, bits: nat)
    requires bits > 0
    ensures s == [] ==> ParseDecimal(s, bits) == None
    ensures s == [MINUS] || s == [PLUS] ==> ParseDecimal(s, bits) == None
    ensures s != [] && !IsDigit(s[0]) && s[0] != MINUS && s[0] != PLUS ==> ParseDecimal(s, bits) == None
  {
    if s != [] && !IsDigit(s[0]) && s[0] != MINUS && s[0] != PLUS {
      assert s[0..][0] == s[0];
    }
  }

  /** ASCII lower case, as `equalsIgnoreCase` compares letters. */
  function Lower(b: byte): (r: byte)
    ensures 0x41 <= b <= 0x5A ==> r == b + 0x20
    ensures !(0x41 <= b <= 0x5A) ==> r == b
  {
    if 0x41 <= b <= 0x5A then b + 0x20 else b
  }

  /** "true" */
  const TRUE: Bytes := [0x74, 0x72, 0x75, 0x65]

  /** "TRUE" */
  const TRUE_UPPER: Bytes := [0x54, 0x52, 0x55, 0x45]

  /**
   * `Boolean.valueOf(s)`, which compares with `equalsIgnoreCase("true")`:
   * true exactly when `s` is "true" in any mix of upper and lower case,
   * each of its four bytes being that letter of "true" or of "TRUE".
   */
  function ParseBool(s: Bytes): (r: bool)
    ensures r <==> |s| == 4 && forall i | 0 <= i < 4 :: s[i] == TRUE[i] || s[i] == TRUE_UPPER[i]
  {
    |s| == 4 && forall i | 0 <= i < 4 :: Lower(s[i]) == TRUE[i]
  }

  /** `Boolean.toString`. */
  function ShowBool(b: bool): Bytes {
    if b then TRUE else [0x66, 0x61, 0x6C, 0x73, 0x65]
  }

  /** `Boolean.valueOf(Boolean.toString(b)) == b`, and "TRUE" reads as true too. */
  lemma ParseShowBool(b: bool)
    ensures ParseBool(ShowBool(b)) == b
    ensures ParseBool(TRUE_UPPER)
  {
    if !b {
      assert Lower(ShowBool(b)[0]) != TRUE[0];
    }
  }
}
