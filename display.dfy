/** The encoding `display_value` uses to show one stored value on the 4-digit
    segment display: index digit, a dash, then the two low nibbles of the
    value's decimal digits read as a hexadecimal number. */
module Display {
  import opened Numeric

  /** What one position of the display is set to: `set_number(n, pos)` or
      `set_character(c, pos)`. */
  datatype Glyph = Number(n: int) | Character(c: char)

  /** The four positions, left to right, as handed to the driver before `draw()`. */
  datatype Frame = Frame(p0: Glyph, p1: Glyph, p2: Glyph, p3: Glyph)

  /** `(b & 0xF0) >> 4` on a Python integer. Python's `&` acts on the infinite
      two's-complement form, so for every integer, negative ones included, this
      is the floor quotient by 16 reduced modulo 16 (Dafny's `/` and `%` with a
      positive divisor are exactly floor division and a non-negative remainder). */
  function HighNibble(b: int): (h: int)
    ensures 0 <= h < 16
  {
    (b / 16) % 16
  }

  /** `b & 0x0F` on a Python integer, by the same reasoning. */
  function LowNibble(b: int): (l: int)
    ensures 0 <= l < 16
    ensures (b - l) % 16 == 0
  {
    b % 16
  }

  /** The two nibbles are the low byte of `b`, split in two. */
  lemma NibblesRebuildByte(b: int)
    ensures b % 256 == 16 * HighNibble(b) + LowNibble(b)
  {
  }

  /** On a 16-bit word, which holds every `bcd` of a value from 0 to 9999, the
      mask and shift agree with the arithmetic HighNibble and LowNibble use. */
  lemma NibblesAreMasks(b: bv16)
    ensures (b & 0xF0) >> 4 == (b / 16) % 16
    ensures b & 0x0F == b % 16
  {
  }

  /** `int(str(n), 16)`: the decimal digits of `n` read as a hexadecimal
      numeral, sign kept. */
  function HexOfDecimal(n: int): int
  {
    if n < 0 then -(ReadAs(-n, 16) as int) else ReadAs(n, 16)
  }

  /** Reading the digits as hexadecimal keeps the sign, never makes a
      non-negative number smaller, and leaves a single digit as it is. */
  lemma HexOfDecimalBounds(n: int)
    ensures HexOfDecimal(n) < 0 <==> n < 0
    ensures 0 <= n ==> n <= HexOfDecimal(n)
    ensures 0 <= n < 10 ==> HexOfDecimal(n) == n
  {
  }

  function Power(b: nat, k: nat): (p: nat)
    ensures 0 < b ==> 0 < p
  {
    if k == 0 then 1 else b * Power(b, k - 1)
  }

  /** A number of at most k decimal digits reads, as hexadecimal, below 16^k. */
  lemma {:induction false} ReadAsBelowPower(n: nat, k: nat)
    requires n < Power(10, k)
    ensures ReadAs(n, 16) < Power(16, k)
  {
    if 10 <= n {
      assert k != 0;
      assert n / 10 < Power(10, k - 1);
      ReadAsBelowPower(n / 10, k - 1);
      assert ReadAs(n / 10, 16) * 16 <= (Power(16, k - 1) - 1) * 16;
    } else if k != 0 {
      assert 1 <= Power(16, k - 1);
    }
  }

  /** Every `bcd` of a value from 0 to 9999 fits the 16 bits NibblesAreMasks is stated on. */
  lemma HexOfDecimalFitsWord(n: int)
    requires 0 <= n <= 9999
    ensures 0 <= HexOfDecimal(n) < 0x1_0000
  {
    HexOfDecimalBounds(n);
    assert Power(10, 4) == 10000 && Power(16, 4) == 0x1_0000;
    ReadAsBelowPower(n, 4);
  }

  /** The parse of `str(n)` in base 16 always succeeds, with HexOfDecimal's value. */
  lemma HexOfDecimalParses(n: int)
    ensures ParseInt(DecimalString(n), 16) == Some(HexOfDecimal(n))
  {
    ParseDecimalString(n, 16);
  }

  /** The frame `display_value(index, value)` draws. By HexOfDecimalParses
      the parse of `str(int(value))` cannot fail, so the bare `except` never
      fires. */
  function Render(index: int, value: real): (f: Frame)
    ensures f.p0 == Number(index) && f.p1 == Character('-')
    ensures f.p2.Number? && 0 <= f.p2.n < 16 && f.p3.Number? && 0 <= f.p3.n < 16
  {
    var bcd := HexOfDecimal(Trunc(value));
    Frame(Number(index), Character('-'), Number(HighNibble(bcd)), Number(LowNibble(bcd)))
  }

  /** Division by 16 of a hexadecimal numeral with one more digit. */
  lemma ShiftNibble(x: int, d: int)
    requires 0 <= d < 16
    ensures (x * 16 + d) / 16 == x && (x * 16 + d) % 16 == d
  {
  }

  /** Division by 10 recovers quotient and remainder. */
  lemma DivTen(n: int, q: int, r: int)
    requires n == 10 * q + r && 0 <= r < 10
    ensures n / 10 == q && n % 10 == r
  {
  }

  /** The low hexadecimal digit of a decimal numeral read as hex is its units digit. */
  lemma ReadAsHexLow(n: nat)
    ensures ReadAs(n, 16) % 16 == n % 10
  {
    if 10 <= n {
      ShiftNibble(ReadAs(n / 10, 16), n % 10);
    }
  }

  /** For a non-negative integer, the two nibbles of `int(str(n), 16)` are its
      tens and units decimal digits. */
  lemma DecimalNibbles(n: nat)
    ensures HighNibble(ReadAs(n, 16)) == (n / 10) % 10
    ensures LowNibble(ReadAs(n, 16)) == n % 10
  {
    ReadAsHexLow(n);
    if 10 <= n {
      ShiftNibble(ReadAs(n / 10, 16), n % 10);
      ReadAsHexLow(n / 10);
    }
  }

  /** For a non-negative value, positions 2 and 3 show the tens and units
      digits of `int(value)`. */
  lemma RenderDigits(index: int, value: real)
    requires 0.0 <= value
    ensures Render(index, value).p2 == Number((Trunc(value) / 10) % 10)
    ensures Render(index, value).p3 == Number(Trunc(value) % 10)
  {
    DecimalNibbles(Trunc(value));
  }

  /** Values of 100 or more show only their last two decimal digits: the frame
      is the one for `int(value) % 100`. */
  lemma RenderLastTwoDigits(index: int, value: real)
    requires 0.0 <= value
    ensures Render(index, value) == Render(index, (Trunc(value) % 100) as real)
  {
    var n := Trunc(value);
    var m := n % 100;
    RenderDigits(index, value);
    RenderDigits(index, m as real);
    assert Trunc(m as real) == m;
    LastTwoDigits(n);
  }

  lemma LastTwoDigits(n: nat)
    ensures ((n % 100) / 10) % 10 == (n / 10) % 10
    ensures (n % 100) % 10 == n % 10
  {
    var q, m := n / 100, n % 100;
    var t, u := m / 10, m % 10;
    DivTen(m, t, u);
    DivTen(n, 10 * q + t, u);
    DivTen(10 * q + t, q, t);
  }

  /** A negative value does not show its digits: `int("-5", 16)` is -5, whose
      nibbles under Python's `&` are 15 and 11. */
  lemma RenderNegativeExample()
    ensures Render(1, -5.0) == Frame(Number(1), Character('-'), Number(15), Number(11))
  {
  }

  /** Rendering depends on `int(value)` only. */
  lemma RenderTruncates(index: int, v: real, w: real)
    requires Trunc(v) == Trunc(w)
    ensures Render(index, v) == Render(index, w)
  {
  }
}
