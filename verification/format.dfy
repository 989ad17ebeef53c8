/**
 * Fixed-point rendering of one coordinate, the `format_coord` helper of the
 * exporter: five digits after the decimal point, a leading '-' for negative
 * values, no exponent and no grouping.
 *
 * A coordinate is an integer counting units of 10^-5, so the value it stands
 * for is exactly `v / 10^5` and the five-decimal rendering involves no rounding.
 */
module CoordFormat {

  /** Number of digits after the decimal point. */
  const FRACTION_DIGITS: nat := 5

  function Pow10(k: nat): (p: nat)
    ensures p >= 1
  {
    if k == 0 then 1 else 10 * Pow10(k - 1)
  }

  /** Units of one coordinate per whole unit: 10^5. */
  const SCALE: nat := Pow10(FRACTION_DIGITS)

  function Abs(v: int): nat {
    if v < 0 then -v else v
  }

  predicate IsDigit(c: char) {
    '0' <= c <= '9'
  }

  predicate AllDigits(s: string) {
    forall i :: 0 <= i < |s| ==> IsDigit(s[i])
  }

  function DigitValue(c: char): nat {
    if IsDigit(c) then c as int - '0' as int else 0
  }

  function DigitChar(d: nat): (c: char)
    requires d < 10
    ensures IsDigit(c) && DigitValue(c) == d
  {
    ('0' as int + d) as char
  }

  /** Decimal digits of `n` without leading zeros ("0" for zero). */
  function NatDigits(n: nat): (s: string)
    ensures |s| > 0 && AllDigits(s)
  {
    if n < 10 then [DigitChar(n)] else NatDigits(n / 10) + [DigitChar(n % 10)]
  }

  /** The integer part never starts with a redundant '0'. */
  lemma {:induction false} NatDigitsNoLeadingZero(n: nat)
    ensures |NatDigits(n)| > 1 ==> NatDigits(n)[0] != '0'
    ensures n > 0 ==> NatDigits(n)[0] != '0'
  {
    if n >= 10 {
      NatDigitsNoLeadingZero(n / 10);
      assert NatDigits(n)[0] == NatDigits(n / 10)[0];
    }
  }

  /** The last `width` decimal digits of `n`, padded on the left with zeros. */
  function PadDigits(n: nat, width: nat): (s: string)
    ensures |s| == width && AllDigits(s)
  {
    if width == 0 then [] else PadDigits(n / 10, width - 1) + [DigitChar(n % 10)]
  }

  /** The number a string of decimal digits denotes. */
  function DigitsValue(s: string): nat {
    if s == [] then 0 else DigitsValue(s[..|s| - 1]) * 10 + DigitValue(s[|s| - 1])
  }

  /** `f"{v / 10^5:.5f}"`: sign, integer part, '.', five fraction digits. */
  function FormatCoord(v: int): (s: string)
    ensures |s| >= FRACTION_DIGITS + 2
    ensures s[|s| - FRACTION_DIGITS - 1] == '.' && AllDigits(s[|s| - FRACTION_DIGITS..])
    ensures (s[0] == '-') <==> (v < 0)
    ensures '|' !in s && '>' !in s
  {
    (if v < 0 then "-" else "") + NatDigits(Abs(v) / SCALE) + "." + PadDigits(Abs(v) % SCALE, FRACTION_DIGITS)
  }

  /** Reads back the coordinate a rendering produced by FormatCoord denotes. */
  function ParseCoord(s: string): int {
    var negative := |s| > 0 && s[0] == '-';
    var body := if negative then s[1..] else s;
    if |body| < FRACTION_DIGITS + 1 then 0
    else
      var magnitude := DigitsValue(body[..|body| - FRACTION_DIGITS - 1]) * SCALE
                       + DigitsValue(body[|body| - FRACTION_DIGITS..]);
      if negative then -magnitude else magnitude
  }

  lemma {:induction false} NatDigitsValue(n: nat)
    ensures DigitsValue(NatDigits(n)) == n
  {
    var s := NatDigits(n);
    if n < 10 {
      assert s[..|s| - 1] == [];
    } else {
      assert s[..|s| - 1] == NatDigits(n / 10);
      NatDigitsValue(n / 10);
    }
  }

  lemma {:induction false} PadDigitsValue(n: nat, width: nat)
    requires n < Pow10(width)
    ensures DigitsValue(PadDigits(n, width)) == n
  {
    if width > 0 {
      var s := PadDigits(n, width);
      assert s[..|s| - 1] == PadDigits(n / 10, width - 1);
      assert n / 10 < Pow10(width - 1);
      PadDigitsValue(n / 10, width - 1);
    }
  }

  /** The rendering loses nothing: parsing it gives back the coordinate. */
  lemma FormatCoordRoundTrip(v: int)
    ensures ParseCoord(FormatCoord(v)) == v
  {
    var m := Abs(v);
    var whole := NatDigits(m / SCALE);
    var body := whole + "." + PadDigits(m % SCALE, FRACTION_DIGITS);
    var sign := if v < 0 then "-" else "";
    assert FormatCoord(v) == sign + body;
    BodyValue(m, body);
    assert body[0] == whole[0] && IsDigit(whole[0]);
    ParseSigned(sign, body, m);
  }

  /** A sign followed by an unsigned rendering of m parses to m, negated after a '-'. */
  lemma ParseSigned(sign: string, body: string, m: nat)
    requires sign == "" || sign == "-"
    requires |body| >= FRACTION_DIGITS + 1 && body[0] != '-'
    requires DigitsValue(body[..|body| - FRACTION_DIGITS - 1]) * SCALE
             + DigitsValue(body[|body| - FRACTION_DIGITS..]) == m
    ensures sign == "-" ==> ParseCoord(sign + body) == -(m as int)
    ensures sign == "" ==> ParseCoord(sign + body) == m
  {
    if sign == "-" {
      assert (sign + body)[1..] == body;
    } else {
      assert sign + body == body;
    }
  }

  /** The unsigned part of a rendering, read back. */
  lemma BodyValue(m: nat, body: string)
    requires body == NatDigits(m / SCALE) + "." + PadDigits(m % SCALE, FRACTION_DIGITS)
    ensures |body| >= FRACTION_DIGITS + 1
    ensures DigitsValue(body[..|body| - FRACTION_DIGITS - 1]) * SCALE
            + DigitsValue(body[|body| - FRACTION_DIGITS..]) == m
  {
    var whole := NatDigits(m / SCALE);
    var frac := PadDigits(m % SCALE, FRACTION_DIGITS);
    assert body[..|body| - FRACTION_DIGITS - 1] == whole;
    assert body[|body| - FRACTION_DIGITS..] == frac;
    NatDigitsValue(m / SCALE);
    PadDigitsValue(m % SCALE, FRACTION_DIGITS);
    assert (m / SCALE) * SCALE + m % SCALE == m;
  }

  /** Distinct grid coordinates never render alike. */
  lemma FormatCoordInjective(u: int, v: int)
    ensures FormatCoord(u) == FormatCoord(v) <==> u == v
  {
    FormatCoordRoundTrip(u);
    FormatCoordRoundTrip(v);
  }
}
