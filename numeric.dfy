/** Numeric conversions the controller relies on: Python's `int()` on a float
    (truncation toward zero), the Celsius to Fahrenheit transform, `str()` of an
    integer and `int(s, base)` of a digit string. */
module Numeric {

  datatype Option<T> = None | Some(value: T)

  /** `int(x)` on a float: truncation toward zero. */
  function Trunc(x: real): (r: int)
    ensures 0.0 <= x ==> 0 <= r && r as real <= x < r as real + 1.0
    ensures x < 0.0 ==> r <= 0 && r as real - 1.0 < x <= r as real
  {
    if 0.0 <= x then x.Floor else -((-x).Floor)
  }

  /** `float(c) * 9.0 / 5.0 + 32.0`, in exact arithmetic. */
  function ToF(c: real): (f: real)
    ensures (f - 32.0) * 5.0 / 9.0 == c
    ensures c < 0.0 <==> f < 32.0
  {
    c * 9.0 / 5.0 + 32.0
  }

  /** The character of a decimal digit. */
  function DigitChar(d: nat): (c: char)
    requires d < 10
    ensures '0' <= c <= '9'
  {
    ('0' as int + d) as char
  }

  /** The value of a digit character, for every base up to 16; None for any other character. */
  function DigitValue(c: char): (r: Option<nat>)
    ensures r.Some? ==> r.value < 16
  {
    if '0' <= c <= '9' then Some(c as int - '0' as int)
    else if 'a' <= c <= 'f' then Some(c as int - 'a' as int + 10)
    else if 'A' <= c <= 'F' then Some(c as int - 'A' as int + 10)
    else None
  }

  lemma DigitValueOfDigitChar(d: nat)
    requires d < 10
    ensures DigitValue(DigitChar(d)) == Some(d)
  {
  }

  /** The decimal digits of a natural number, most significant first, without
      leading zeros: `str(n)` for `n >= 0`. */
  function NatDigits(n: nat): (s: string)
    ensures 0 < |s|
    ensures forall i :: 0 <= i < |s| ==> '0' <= s[i] <= '9'
    ensures s[0] == '0' ==> n == 0
  {
    if n < 10 then [DigitChar(n)] else NatDigits(n / 10) + [DigitChar(n % 10)]
  }

  /** `str(n)` for a Python integer. */
  function DecimalString(n: int): (s: string)
    ensures 0 < |s|
    ensures s[0] == '-' <==> n < 0
    ensures forall i :: (if n < 0 then 1 else 0) <= i < |s| ==> '0' <= s[i] <= '9'
  {
    if n < 0 then "-" + NatDigits(-n) else NatDigits(n)
  }

  /** The value of a digit string read in `base` (an empty string reads as 0);
      None when a character is not a digit of that base. */
  function DigitsValue(s: string, base: nat): Option<nat>
    requires 2 <= base <= 16
    decreases |s|
  {
    if s == [] then Some(0)
    else
      var init := DigitsValue(s[..|s| - 1], base);
      var d := DigitValue(s[|s| - 1]);
      if init.Some? && d.Some? && d.value < base then Some(init.value * base + d.value) else None
  }

  /** Python's `int(s, base)`, for the bases 2 to 16, on a string of an
      optional sign followed by at least one digit of that base; None where
      Python raises ValueError on such a string (the empty string, a lone sign,
      a character that is not a digit of the base). */
  function ParseInt(s: string, base: nat): (r: Option<int>)
    requires 2 <= base <= 16
    ensures s == [] ==> r.None?
    ensures r.Some? && r.value < 0 ==> s[0] == '-'
  {
    if s == [] then None
    else if s[0] == '-' || s[0] == '+' then
      if |s| == 1 then None
      else match DigitsValue(s[1..], base)
        case None => None
        case Some(v) =>
          var signed: int := if s[0] == '-' then -(v as int) else v;
          Some(signed)
    else match DigitsValue(s, base)
      case None => None
      case Some(v) => Some(v)
  }

  /** The decimal digits of `n` read as a numeral in `base`: for base 16 this is
      `int(str(n), 16)`, so `ReadAs(72, 16) == 0x72`. */
  function ReadAs(n: nat, base: nat): (r: nat)
    ensures n < 10 ==> r == n
    ensures 10 <= base ==> n <= r
  {
    if n < 10 then n else ReadAs(n / 10, base) * base + n % 10
  }

  lemma {:induction false} DigitsValueOfNatDigits(n: nat, base: nat)
    requires 10 <= base <= 16
    ensures DigitsValue(NatDigits(n), base) == Some(ReadAs(n, base))
  {
    var s := NatDigits(n);
    if n < 10 {
      DigitValueOfDigitChar(n);
      assert s[..|s| - 1] == [];
    } else {
      DigitsValueOfNatDigits(n / 10, base);
      DigitValueOfDigitChar(n % 10);
      assert s[..|s| - 1] == NatDigits(n / 10);
    }
  }

  lemma {:induction false} ReadAsDecimal(n: nat)
    ensures ReadAs(n, 10) == n
  {
    if 10 <= n {
      ReadAsDecimal(n / 10);
    }
  }

  /** `int(str(n), base)` for base 10..16 always succeeds and reads the decimal
      digits of `n` in that base, keeping the sign. */
  lemma ParseDecimalString(n: int, base: nat)
    requires 10 <= base <= 16
    ensures var read: int := if n < 0 then -(ReadAs(-n, base) as int) else ReadAs(n, base);
      ParseInt(DecimalString(n), base) == Some(read)
  {
    var s := DecimalString(n);
    if n < 0 {
      var digits := NatDigits(-n);
      assert s == "-" + digits && s[1..] == digits;
      DigitsValueOfNatDigits(-n, base);
      assert 1 < |s|;
    } else {
      var digits := NatDigits(n);
      assert s == digits;
      DigitsValueOfNatDigits(n, base);
      assert s[0] != '-' && s[0] != '+' by { assert '0' <= s[0] <= '9'; }
    }
  }

  /** Round trip: `int(str(n)) == n` for every integer. */
  lemma DecimalRoundTrip(n: int)
    ensures ParseInt(DecimalString(n), 10) == Some(n)
  {
    ParseDecimalString(n, 10);
    if n < 0 { ReadAsDecimal(-n); } else { ReadAsDecimal(n); }
  }
}
