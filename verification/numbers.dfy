/** Decimal text <-> number conversions the scripts rely on: `int(s)`,
    `float(s)`, `str(n)`, and fixed-point formatting (`'{:.Nf}'`, Decimal
    quantize).

    Numbers are exact reals here; the binary rounding of IEEE doubles is not
    modelled, so a value that is a tie in decimal is treated as a tie.
 */
module Numbers {
  import opened Wrappers
  import opened PyText

  // ---------------------------------------------------------------------
  // Digit strings
  // ---------------------------------------------------------------------

  predicate AllDigits(s: string) {
    forall i :: 0 <= i < |s| ==> IsDigit(s[i])
  }

  function DigitValue(c: char): (d: nat)
    requires IsDigit(c)
    ensures d < 10
  {
    c as int - '0' as int
  }

  function DigitChar(d: nat): (c: char)
    requires d < 10
    ensures IsDigit(c) && DigitValue(c) == d
  {
    ('0' as int + d) as char
  }

  /** Value of a digit string, most significant digit first; "" is 0. */
  function DigitsValue(s: string): nat
    requires AllDigits(s)
    decreases |s|
  {
    if |s| == 0 then 0 else DigitsValue(s[..|s| - 1]) * 10 + DigitValue(s[|s| - 1])
  }

  function Pow10(k: nat): (r: nat)
    ensures r >= 1
  {
    if k == 0 then 1 else 10 * Pow10(k - 1)
  }

  /** Python `str(n)` for a non-negative integer. */
  function NatToDigits(n: nat): (r: string)
    decreases n
    ensures |r| > 0 && AllDigits(r)
    ensures |r| > 1 ==> r[0] != '0'
  {
    if n < 10 then [DigitChar(n)] else NatToDigits(n / 10) + [DigitChar(n % 10)]
  }

  /** Reading back the digits of `n` gives `n`. */
  lemma {:induction false} NatDigitsRoundTrip(n: nat)
    ensures DigitsValue(NatToDigits(n)) == n
    decreases n
  {
    if n >= 10 {
      NatDigitsRoundTrip(n / 10);
      var s := NatToDigits(n);
      assert s[..|s| - 1] == NatToDigits(n / 10);
    }
  }

  /** A number below 10^k has at most k digits. */
  lemma {:induction false} NatDigitsLength(n: nat, k: nat)
    requires n < Pow10(k)
    ensures |NatToDigits(n)| <= k || (n == 0 && k == 0)
    decreases n
  {
    if n >= 10 {
      assert k >= 1;
      NatDigitsLength(n / 10, k - 1);
    } else if k == 0 {
      assert n == 0;
    }
  }

  /** Right-aligns `s` in a field of `width` characters using `fill`
      (Python's `'{:>W}'`); longer texts are left as they are. */
  function PadLeft(s: string, width: nat, fill: char): (r: string)
    ensures |r| == if |s| >= width then |s| else width
    ensures EndsWith(r, s)
    ensures forall i :: 0 <= i < |r| - |s| ==> r[i] == fill
  {
    if |s| >= width then s else seq(width - |s|, _ => fill) + s
  }

  lemma ShiftDigit(va: nat, p: nat, vb: nat, d: nat)
    ensures (va * p + vb) * 10 + d == va * (10 * p) + (vb * 10 + d)
  {
  }

  lemma {:induction false} DigitsValueAppend(a: string, b: string)
    requires AllDigits(a) && AllDigits(b)
    ensures AllDigits(a + b)
    ensures DigitsValue(a + b) == DigitsValue(a) * Pow10(|b|) + DigitsValue(b)
    decreases |b|
  {
    if |b| > 0 {
      var ab := a + b;
      var b' := b[..|b| - 1];
      assert ab[..|ab| - 1] == a + b';
      DigitsValueAppend(a, b');
      assert ab[|ab| - 1] == b[|b| - 1];
      ShiftDigit(DigitsValue(a), Pow10(|b'|), DigitsValue(b'), DigitValue(b[|b| - 1]));
    } else {
      assert a + b == a;
    }
  }

  lemma {:induction false} ZerosValue(k: nat)
    ensures AllDigits(seq(k, _ => '0'))
    ensures DigitsValue(seq(k, _ => '0')) == 0
    decreases k
  {
    if k > 0 {
      var z := seq(k, _ => '0');
      assert z[..k - 1] == seq(k - 1, _ => '0');
      ZerosValue(k - 1);
    }
  }

  /** Leading zeros do not change the value of a digit string. */
  lemma ZeroPadValue(s: string, width: nat)
    requires AllDigits(s)
    ensures AllDigits(PadLeft(s, width, '0'))
    ensures DigitsValue(PadLeft(s, width, '0')) == DigitsValue(s)
  {
    if |s| < width {
      ZerosValue(width - |s|);
      DigitsValueAppend(seq(width - |s|, _ => '0'), s);
    }
  }

  // ---------------------------------------------------------------------
  // Integers
  // ---------------------------------------------------------------------

  /** Python `str(i)`. */
  function IntToStr(i: int): (r: string)
    ensures |r| > 0
  {
    if i < 0 then "-" + NatToDigits(-i) else NatToDigits(i)
  }

  /** Splits an optional leading '+'/'-' off a text. */
  function SignSplit(t: string): (bool, string) {
    if |t| > 0 && (t[0] == '-' || t[0] == '+') then (t[0] == '-', t[1..]) else (false, t)
  }

  /** Python `int(s)` on a decimal literal: surrounding whitespace, an
      optional sign and at least one digit; None where Python raises
      ValueError. */
  function ParseInt(s: string): (r: Option<int>)
    ensures r.Some? ==> Strip(s) != ""
  {
    var (neg, body) := SignSplit(Strip(s));
    if IsDigits(body) then
      Some(if neg then -(DigitsValue(body) as int) else DigitsValue(body))
    else None
  }

  /** Python `int(s)` for a bare digit string: a digit string is its own
      stripped form. */
  lemma StripDigits(s: string)
    requires IsDigits(s)
    ensures Strip(s) == s
  {
    assert IsDigit(s[0]) && IsDigit(s[|s| - 1]);
    StripNoSpaceEnds(s);
  }

  /** `int()` of a non-empty run of digits is its value. */
  lemma DigitsInt(ds: string)
    requires AllDigits(ds) && ds != ""
    ensures ParseInt(ds) == Some(DigitsValue(ds))
  {
    assert Strip(ds) == ds by { StripDigits(ds); }
    assert SignSplit(ds) == (false, ds) by { assert IsDigit(ds[0]); }
    UnsignedInt(ds);
  }

  lemma UnsignedInt(ds: string)
    requires IsDigits(ds) && Strip(ds) == ds && SignSplit(ds) == (false, ds)
    ensures ParseInt(ds) == Some(DigitsValue(ds))
  {
  }

  lemma StripNoSpaceEnds(s: string)
    requires |s| > 0 && !IsSpace(s[0]) && !IsSpace(s[|s| - 1])
    ensures Strip(s) == s
  {
    assert LStrip(s) == s;
  }

  /** `int(str(i)) == i`. */
  lemma IntRoundTrip(i: int)
    ensures ParseInt(IntToStr(i)) == Some(i)
  {
    var s := IntToStr(i);
    var d := NatToDigits(if i < 0 then -i else i);
    NatDigitsRoundTrip(if i < 0 then -i else i);
    StripNoSpaceEnds(s);
    if i < 0 {
      assert s[1..] == d;
    }
  }

  // ---------------------------------------------------------------------
  // Floats
  // ---------------------------------------------------------------------

  function IndexOfExp(s: string): (r: Option<nat>)
    ensures r.Some? ==> r.value < |s| && (s[r.value] == 'e' || s[r.value] == 'E')
    ensures r.None? <==> forall i :: 0 <= i < |s| ==> s[i] != 'e' && s[i] != 'E'
    decreases |s|
  {
    if |s| == 0 then None
    else if s[0] == 'e' || s[0] == 'E' then Some(0)
    else match IndexOfExp(s[1..])
      case Some(k) => Some(k + 1)
      case None => None
  }

  /** `digits[.digits]` or `.digits`, unsigned. */
  function ParseMantissa(m: string): Option<real> {
    var parts := Split(m, ".");
    if |parts| > 2 then None
    else MantissaValue(parts[0], if |parts| == 2 then parts[1] else "")
  }

  /** The value of `ip.fp`; at least one side must have digits. */
  function MantissaValue(ip: string, fp: string): Option<real> {
    if AllDigits(ip) && AllDigits(fp) && |ip| + |fp| > 0 then
      Some(DigitsValue(ip) as real + DigitsValue(fp) as real / Pow10(|fp|) as real)
    else None
  }

  function ScaleByPow10(x: real, e: int): real {
    if e >= 0 then x * Pow10(e) as real else x / Pow10(-e) as real
  }

  /** Python `float(s)` on decimal literals: whitespace, sign, mantissa and
      an optional exponent. `inf`, `nan` and digit underscores are not
      accepted here. */
  function ParseFloat(s: string): Option<real> {
    var (neg, body) := SignSplit(Strip(s));
    var mag: Option<real> :=
      match IndexOfExp(body)
      case None => ParseMantissa(body)
      case Some(k) =>
        var e := ParseExponent(body[k + 1..]);
        var m := ParseMantissa(body[..k]);
        if e.Some? && m.Some? then Some(ScaleByPow10(m.value, e.value)) else None;
    match mag
    case None => None
    case Some(x) => Some(Signed(neg, x))
  }

  function Signed(neg: bool, x: real): real {
    if neg then -x else x
  }

  /** The exponent after 'e': optional sign, then digits (no whitespace). */
  function ParseExponent(t: string): Option<int> {
    var (neg, body) := SignSplit(t);
    if IsDigits(body) then Some(if neg then -(DigitsValue(body) as int) else DigitsValue(body))
    else None
  }

  /** Python's `isDigit` helper in the encoder: `float(v)` succeeds. */
  predicate IsNumber(s: string) {
    ParseFloat(s).Some?
  }

  // ---------------------------------------------------------------------
  // Rounding and fixed-point formatting
  // ---------------------------------------------------------------------

  datatype Rounding =
    | HalfEven            // format(): '{:.Nf}'
    | HalfAwayFromZero    // decimal.ROUND_HALF_UP

  /** Rounds a non-negative real to a whole number. */
  function RoundNonNeg(x: real, mode: Rounding): (n: nat)
    requires x >= 0.0
    ensures -0.5 <= n as real - x <= 0.5
    ensures x - x.Floor as real != 0.5 ==> -0.5 < n as real - x < 0.5
    ensures x - x.Floor as real == 0.5 && mode.HalfAwayFromZero? ==> n as real == x + 0.5
    ensures x - x.Floor as real == 0.5 && mode.HalfEven? ==> n % 2 == 0
  {
    var f := x.Floor;
    var d := x - f as real;
    if d < 0.5 then f
    else if d > 0.5 then f + 1
    else if mode.HalfAwayFromZero? || f % 2 == 1 then f + 1
    else f
  }

  function Abs(x: real): real {
    if x < 0.0 then -x else x
  }

  /** |x| * 10^p rounded to a whole number. */
  function ScaledMagnitude(x: real, p: nat, mode: Rounding): (n: nat)
    ensures -0.5 <= n as real - Abs(x) * Pow10(p) as real <= 0.5
  {
    Scaled(Abs(x), p, mode)
  }

  /** y * 10^p rounded to a whole number, for y >= 0. */
  function Scaled(y: real, p: nat, mode: Rounding): (n: nat)
    requires y >= 0.0
    ensures -0.5 <= n as real - y * Pow10(p) as real <= 0.5
  {
    var z := y * Pow10(p) as real;
    assert z >= 0.0 by { NonNegProduct(y, Pow10(p) as real); }
    RoundNonNeg(z, mode)
  }

  lemma NonNegProduct(a: real, b: real)
    requires a >= 0.0 && b >= 0.0
    ensures a * b >= 0.0
  {
  }

  /** The value the text produced by `FormatFixed` stands for. */
  function RoundedValue(x: real, p: nat, mode: Rounding): real {
    Signed(x < 0.0, Ratio(ScaledMagnitude(x, p, mode), p))
  }

  /** n / 10^p as an exact real. */
  function Ratio(n: nat, p: nat): (r: real)
    ensures r >= 0.0 && r * Pow10(p) as real == n as real
  {
    DivMul(n as real, Pow10(p) as real);
    NonNegQuot(n as real, Pow10(p) as real);
    n as real / Pow10(p) as real
  }

  /** The whole units of `n` hundredths (for p = 2), thousandths, ... */
  function WholeUnits(n: nat, p: nat): nat {
    var d := Pow10(p);
    DivNonNeg(n, d);
    n / d
  }

  lemma DivNonNeg(n: nat, d: nat)
    requires d >= 1
    ensures 0 <= n / d <= n
  {
    var q := n / d;
    assert q <= d * q;
  }

  /** The fractional units left over after `WholeUnits`. */
  function FracUnits(n: nat, p: nat): (r: nat)
    ensures r < Pow10(p)
    ensures WholeUnits(n, p) * Pow10(p) + r == n
  {
    n % Pow10(p)
  }

  /** Fixed-point text with `p` decimals: a '-' for negative inputs (also
      when the digits round to zero, as both `format` and Decimal do), the
      integer digits, and for p > 0 a '.' and exactly p digits. */
  function FormatFixed(x: real, p: nat, mode: Rounding): (r: string)
    ensures |r| > 0
  {
    (if x < 0.0 then "-" else "") + FixedDigits(ScaledMagnitude(x, p, mode), p)
  }

  /** The unsigned text of n / 10^p with exactly p decimals. */
  function FixedDigits(n: nat, p: nat): (r: string)
    ensures |r| > 0 && IsDigit(r[0]) && IsDigit(r[|r| - 1])
  {
    var whole := NatToDigits(WholeUnits(n, p));
    if p == 0 then whole
    else
      var frac := PadLeft(NatToDigits(FracUnits(n, p)), p, '0');
      FracDigits(n, p);
      ZeroPadValue(NatToDigits(FracUnits(n, p)), p);
      PointJoinEnds(whole, frac);
      whole + "." + frac
  }

  lemma PointJoinEnds(whole: string, frac: string)
    requires |whole| > 0 && AllDigits(whole) && |frac| > 0 && AllDigits(frac)
    ensures var r := whole + "." + frac; IsDigit(r[0]) && IsDigit(r[|r| - 1])
  {
    var r := whole + "." + frac;
    assert r[0] == whole[0];
    assert r[|r| - 1] == frac[|frac| - 1];
  }

  /** How far the rounded value lies from x, in units of the last decimal
      place kept. */
  function RoundingError(x: real, p: nat, mode: Rounding): real {
    (RoundedValue(x, p, mode) - x) * Pow10(p) as real
  }

  /** The rounded value is within half a unit in the last place, and has
      the sign of x (or is zero). */
  lemma RoundedValueClose(x: real, p: nat, mode: Rounding)
    ensures -0.5 <= RoundingError(x, p, mode) <= 0.5
    ensures x >= 0.0 ==> RoundedValue(x, p, mode) >= 0.0
    ensures x < 0.0 ==> RoundedValue(x, p, mode) <= 0.0
  {
    var q, n, r, v := RoundedParts(x, p, mode);
    CloseCore(x, q, n, r, v);
  }

  /** The pieces `RoundedValue` is built from, named. */
  lemma RoundedParts(x: real, p: nat, mode: Rounding) returns (q: real, n: real, r: real, v: real)
    ensures q > 0.0 && n >= 0.0 && r * q == n && r >= 0.0
    ensures -0.5 <= n - Abs(x) * q <= 0.5
    ensures v == Signed(x < 0.0, r)
    ensures RoundingError(x, p, mode) == (v - x) * q
  {
    var m := ScaledMagnitude(x, p, mode);
    q, n, r := ScaleParts(p, m);
    var q', n' := ScaleClose(x, p, mode);
    v := ErrorParts(x, p, mode, q, m, r);
  }

  lemma ScaleParts(p: nat, m: nat) returns (q: real, n: real, r: real)
    ensures q == Pow10(p) as real && n == m as real && r == Ratio(m, p)
    ensures q > 0.0 && n >= 0.0 && r * q == n && r >= 0.0
  {
    q, n, r := Pow10(p) as real, m as real, Ratio(m, p);
  }

  lemma ScaleClose(x: real, p: nat, mode: Rounding) returns (q: real, n: real)
    ensures q == Pow10(p) as real && n == ScaledMagnitude(x, p, mode) as real
    ensures -0.5 <= n - Abs(x) * q <= 0.5
  {
    q := Pow10(p) as real;
    var m := ScaledMagnitude(x, p, mode);
    n := m as real;
  }

  lemma ErrorParts(x: real, p: nat, mode: Rounding, q: real, m: nat, r: real) returns (v: real)
    requires q == Pow10(p) as real && m == ScaledMagnitude(x, p, mode) && r == Ratio(m, p)
    ensures v == Signed(x < 0.0, r)
    ensures RoundingError(x, p, mode) == (v - x) * q
  {
    v := RoundedValue(x, p, mode);
  }

  lemma CloseCore(x: real, q: real, n: real, r: real, v: real)
    requires q > 0.0 && n >= 0.0 && r * q == n && r >= 0.0
    requires -0.5 <= n - Abs(x) * q <= 0.5
    requires v == Signed(x < 0.0, r)
    ensures -0.5 <= (v - x) * q <= 0.5
    ensures x >= 0.0 ==> v >= 0.0
    ensures x < 0.0 ==> v <= 0.0
  {
    if x >= 0.0 {
      Distrib(r, x, q);
    } else {
      Distrib(-r, x, q);
      NegMul(r, q);
      NegMul(x, q);
    }
  }

  lemma Distrib(a: real, b: real, q: real)
    ensures (a - b) * q == a * q - b * q
  {
  }

  lemma NegMul(a: real, q: real)
    ensures (-a) * q == -(a * q)
  {
  }

  lemma DivMul(a: real, q: real)
    requires q > 0.0
    ensures a / q * q == a
  {
  }

  lemma NonNegQuot(a: real, q: real)
    requires a >= 0.0 && q > 0.0
    ensures a / q >= 0.0
  {
  }

  lemma FracDigits(n: nat, p: nat)
    requires p > 0
    ensures |PadLeft(NatToDigits(FracUnits(n, p)), p, '0')| == p
  {
    NatDigitsLength(FracUnits(n, p), p);
  }

  /** `float()` of `whole.frac` with digit strings on both sides. */
  lemma MantissaWithPoint(whole: string, frac: string)
    requires IsDigits(whole) && AllDigits(frac)
    ensures ParseMantissa(whole + "." + frac) == MantissaValue(whole, frac)
  {
    forall j | 0 <= j < |whole| ensures whole[j] != '.' {
      assert IsDigit(whole[j]);
    }
    forall j | 0 <= j < |frac| ensures frac[j] != '.' {
      assert IsDigit(frac[j]);
    }
    SplitCharFirst(whole, '.', frac);
    NoCharNoContains(frac, '.');
    SplitNoSep(frac, ".");
    var parts := Split(whole + "." + frac, ".");
    assert parts == [whole, frac];
    assert |parts| == 2 && parts[0] == whole && parts[1] == frac;
  }

  lemma NoCharNoContains(s: string, c: char)
    requires forall j :: 0 <= j < |s| ==> s[j] != c
    ensures !Contains(s, [c])
  {
    forall j | 0 <= j < |s| ensures !OccursAt(s, [c], j) {
      OccursAtChar(s, c, j);
    }
  }

  /** `float()` of a bare digit string. */
  lemma MantissaWhole(whole: string)
    requires IsDigits(whole)
    ensures ParseMantissa(whole) == Some(DigitsValue(whole) as real)
  {
    forall j | 0 <= j < |whole| ensures whole[j] != '.' {
      assert IsDigit(whole[j]);
    }
    NoCharNoContains(whole, '.');
    SplitNoSep(whole, ".");
  }

  lemma DigitsNoExp(s: string)
    requires AllDigits(s)
    ensures IndexOfExp(s).None?
  {
    forall j | 0 <= j < |s| ensures s[j] != 'e' && s[j] != 'E' {
      assert IsDigit(s[j]);
    }
  }

  lemma QuotRem(n: nat, p: nat)
    ensures WholeUnits(n, p) as real + FracUnits(n, p) as real / Pow10(p) as real
            == n as real / Pow10(p) as real
  {
    var a, b, q := WholeUnits(n, p), FracUnits(n, p), Pow10(p);
    assert n == a * q + b;
    QuotRemOf(n, a, b, q);
  }

  lemma QuotRemOf(n: nat, a: nat, b: nat, q: nat)
    requires q > 0 && n == a * q + b
    ensures a as real + b as real / q as real == n as real / q as real
  {
    CastProduct(a, q);
    assert n as real == (a * q) as real + b as real;
    AddQuot(a as real, b as real, q as real);
  }

  lemma CastProduct(a: nat, q: nat)
    ensures (a * q) as real == a as real * q as real
  {
  }

  lemma AddQuot(a: real, b: real, q: real)
    requires q > 0.0
    ensures a + b / q == (a * q + b) / q
  {
    DivMul(a * q, q);
  }

  lemma RatioWhole(n: nat)
    ensures Ratio(n, 0) == n as real
  {
  }

  lemma FixedDigitsNoExp(n: nat, p: nat)
    ensures IndexOfExp(FixedDigits(n, p)).None?
  {
    var body := FixedDigits(n, p);
    var whole := NatToDigits(WholeUnits(n, p));
    if p == 0 {
      DigitsNoExp(whole);
    } else {
      var frac := PadLeft(NatToDigits(FracUnits(n, p)), p, '0');
      ZeroPadValue(NatToDigits(FracUnits(n, p)), p);
      assert body == whole + "." + frac;
      forall j | 0 <= j < |body| ensures body[j] != 'e' && body[j] != 'E' {
        if j < |whole| {
          assert body[j] == whole[j];
        } else if j > |whole| {
          assert body[j] == frac[j - |whole| - 1];
        }
      }
    }
  }

  /** The digits produced by `FixedDigits` read back as n / 10^p. */
  lemma FixedDigitsValue(n: nat, p: nat)
    ensures ParseMantissa(FixedDigits(n, p)) == Some(Ratio(n, p))
  {
    var whole := NatToDigits(WholeUnits(n, p));
    NatDigitsRoundTrip(WholeUnits(n, p));
    if p == 0 {
      MantissaWhole(whole);
      assert WholeUnits(n, p) == n;
      RatioWhole(n);
    } else {
      var fd := NatToDigits(FracUnits(n, p));
      var frac := PadLeft(fd, p, '0');
      NatDigitsRoundTrip(FracUnits(n, p));
      ZeroPadValue(fd, p);
      FracDigits(n, p);
      MantissaWithPoint(whole, frac);
      FracMantissa(n, p, whole, frac);
    }
  }

  lemma FracMantissa(n: nat, p: nat, whole: string, frac: string)
    requires AllDigits(whole) && AllDigits(frac) && |whole| > 0 && |frac| == p
    requires DigitsValue(whole) == WholeUnits(n, p)
    requires DigitsValue(frac) == FracUnits(n, p)
    ensures MantissaValue(whole, frac) == Some(Ratio(n, p))
  {
    QuotRem(n, p);
  }

  /** A signed digit text needs no stripping and parses with its sign. */
  lemma SignedFixed(neg: bool, body: string)
    requires |body| > 0 && IsDigit(body[0]) && IsDigit(body[|body| - 1])
    ensures SignSplit(Strip((if neg then "-" else "") + body)) == (neg, body)
  {
    var text := (if neg then "-" else "") + body;
    assert text[|text| - 1] == body[|body| - 1];
    StripNoSpaceEnds(text);
    if neg {
      assert text[1..] == body;
    }
  }

  /** Parsing the formatted text gives back exactly the rounded value:
      `float('{:.Nf}'.format(x))` is x rounded to N decimals. */
  lemma FormatFixedRoundTrip(x: real, p: nat, mode: Rounding)
    ensures ParseFloat(FormatFixed(x, p, mode)) == Some(RoundedValue(x, p, mode))
  {
    var n := ScaledMagnitude(x, p, mode);
    SignedFixed(x < 0.0, FixedDigits(n, p));
    FixedDigitsNoExp(n, p);
    FixedDigitsValue(n, p);
  }
}
