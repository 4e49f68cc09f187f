/** The SHEF writer of the Mesonet encoder (`shefEncoder`): value text,
    parameter descriptions, the `.E` sections with their `.E1` continuation
    lines, the grouping of sites into messages, and the message header and
    footer.

    Several members take `asWritten`: true gives the encoder as it is
    written, false the correction of the defect described with
    `ApplyMods`.
 */
module MesoEncode {
  import opened Wrappers
  import opened PyText
  import opened Numbers
  import opened Civil
  import opened Dict
  import opened MesoConfig
  import opened MesoUnits
  import opened MesoParse
  import opened Ordering

  // ---------------------------------------------------------------------
  // Depths (`getDepth`)
  // ---------------------------------------------------------------------

  /** `''.join(c for c in s if c.isdigit())`. */
  function DigitsOf(s: string): (r: string)
    decreases |s|
    ensures AllDigits(r) && |r| <= |s|
    ensures AllDigits(s) ==> r == s
  {
    if |s| == 0 then ""
    else (if IsDigit(s[0]) then [s[0]] else []) + DigitsOf(s[1..])
  }

  /** `getDepth`: the digits of the column name after its first '_', read
      as a number; None when there are none (`int('')` fails); IndexError
      when the name has no '_'. */
  function GetDepth(usaceP: string): (r: Result<Option<int>>)
    ensures r.Fail? <==> !Contains(usaceP, "_")
    ensures r.Fail? ==> r.fault == IndexError
    ensures r.Ok? ==> (r.value.None? <==> DigitsOf(Split(usaceP, "_")[1]) == "")
    ensures r.Ok? && r.value.Some? ==> r.value.value == DigitsValue(DigitsOf(Split(usaceP, "_")[1]))
  {
    var parts := Split(usaceP, "_");
    if |parts| < 2 then Fail(IndexError)
    else
      var ds := DigitsOf(parts[1]);
      DigitsParse(ds);
      Ok(ParseInt(ds))
  }

  /** `int()` of a digit string: None only for the empty one. */
  lemma DigitsParse(ds: string)
    requires AllDigits(ds)
    ensures ds == "" ==> ParseInt(ds).None?
    ensures ds != "" ==> ParseInt(ds) == Some(DigitsValue(ds))
  {
    if ds == "" {
      EmptyNotInt();
    } else {
      DigitsInt(ds);
    }
  }

  lemma EmptyNotInt()
    ensures ParseInt("").None?
  {
    assert Strip("") == "";
  }

  /** `'{}'.format(depth)`. */
  function DepthText(depth: Option<int>): string {
    match depth
    case Some(n) => IntToStr(n)
    case None => "None"
  }

  /** A column named by `addDpths` from a name without '_' and a digit
      depth gives back that depth. */
  lemma DepthOfColumn(col: string, n: nat)
    requires forall j :: 0 <= j < |col| ==> col[j] != '_'
    ensures GetDepth(col + "_" + NatToDigits(n)) == Ok(Some(n))
  {
    var d := NatToDigits(n);
    SplitCharFirst(col, '_', d);
    forall j | 0 <= j < |d| ensures d[j] != '_' {
      assert IsDigit(d[j]);
    }
    NoCharNoContains(d, '_');
    SplitNoSep(d, "_");
    assert Split(col + "_" + d, "_") == [col, d];
    IntRoundTrip(n);
  }

  // ---------------------------------------------------------------------
  // Value text (`valueMod`, `valRounder`)
  // ---------------------------------------------------------------------

  /** `'{:>7.2f}'.format(value)`. */
  function DefaultText(x: real): (r: string)
    ensures |r| >= 7
  {
    PadLeft(FormatFixed(x, 2, HalfEven), 7, ' ')
  }

  /** `valRounder`: `str(round(Decimal(value), n))` for a code `R<n>`, with
      `ROUND_HALF_UP`; a code whose rest is not a number raises
      ValueError. */
  function ValRounder(x: real, modCode: string): (r: Result<string>)
    ensures r.Fail? ==> r.fault == ValueError
    ensures r.Ok? ==> exists p: nat :: ParseFloat(r.value) == Some(RoundedValue(x, p, HalfAwayFromZero))
  {
    var places :- Need(ParseInt(Replace(modCode, "R", "")), ValueError);
    if places < 0 then Fail(ValueError)
    else
      FormatFixedRoundTrip(x, places, HalfAwayFromZero);
      Ok(FormatFixed(x, places, HalfAwayFromZero))
  }

  /** A vector value: the depth, then the magnitude divided by 1000 with
      four decimals and every '0.' replaced by '.', signed by the value. */
  function VectorText(depth: Option<int>, x: real): string {
    var value := x / 1000.0;
    var vector := DepthText(depth) + Replace(FormatFixed(Abs(value), 4, HalfEven), "0.", ".");
    if value < 0.0 then "-" + vector else vector
  }

  /** Step 3 of `valueMod`: the first modification naming a vector or a
      rounding decides the text, and without one the value gets the default
      two decimals.

      As written, the -9999 that the parser stores for a missing value
      (`toEnglish` and the hourly totals produce it as text) is coded as a
      vector like any number: a missing soil temperature at 4 inches comes
      out as "-49.9990" instead of as missing. With `asWritten` false, a
      vector element writes -9999 as "-9999". */
  function ApplyMods(mods: seq<string>, x: real, usaceP: string, asWritten: bool): (r: Result<string>)
    decreases |mods|
    ensures r.Fail? ==> r.fault == IndexError || r.fault == ValueError
    ensures (forall i :: 0 <= i < |mods| ==> !Contains(mods[i], "vector") && !Contains(mods[i], "R"))
      ==> r == Ok(DefaultText(x))
  {
    if |mods| == 0 then Ok(DefaultText(x))
    else if Contains(mods[0], "vector") then
      var depth :- GetDepth(usaceP);
      if !asWritten && x == -9999.0 then Ok("-9999") else Ok(VectorText(depth, x))
    else if Contains(mods[0], "R") then ValRounder(x, mods[0])
    else ApplyMods(mods[1..], x, usaceP, asWritten)
  }

  /** `valueMod`: the Mesonet flag 'M' is written as -9999; a value that is
      not a number gives None (the caller then fails on `len(None)`). */
  function ValueMod(v: Cell, shefP: string, usaceP: string, asWritten: bool): (r: Result<Option<string>>)
    ensures v == Raw(MissVal) ==> r == Ok(Some("-9999"))
    ensures v != Raw(MissVal) ==> (r == Ok(None) <==> CellFloat(v).None?)
    ensures r.Fail? ==> r.fault == IndexError || r.fault == ValueError
  {
    if v == Raw(MissVal) then Ok(Some("-9999"))
    else match CellFloat(v)
      case None => Ok(None)
      case Some(x) =>
        var t :- ApplyMods(Mods(shefP), x, usaceP, asWritten);
        Ok(Some(t))
  }

  // ---------------------------------------------------------------------
  // What the value texts read back as
  // ---------------------------------------------------------------------

  /** `lstrip` removes exactly the leading blanks. */
  lemma {:induction false} LStripBlanks(s: string, m: nat)
    requires m < |s| && !IsSpace(s[m])
    requires forall i :: 0 <= i < m ==> s[i] == ' '
    ensures LStrip(s) == s[m..]
    decreases m
  {
    if m > 0 {
      assert IsSpace(s[0]);
      LStripBlanks(s[1..], m - 1);
      assert s[1..][m - 1..] == s[m..];
    }
  }

  /** Right-aligning a text that has no blank at either end is undone by
      `strip`. */
  lemma PadStrip(t: string, w: nat)
    requires |t| > 0 && !IsSpace(t[0]) && !IsSpace(t[|t| - 1])
    ensures Strip(PadLeft(t, w, ' ')) == t
  {
    var s := PadLeft(t, w, ' ');
    var m := |s| - |t|;
    assert s[m..] == t;
    assert s[m] == t[0];
    LStripBlanks(s, m);
    StripNoSpaceEnds(t);
    assert LStrip(t) == t;
  }

  /** `float()` strips its argument first. */
  lemma ParseFloatStrip(s: string, t: string)
    requires Strip(s) == Strip(t)
    ensures ParseFloat(s) == ParseFloat(t)
  {
  }

  /** The unsigned digits of a fixed-point text end in a digit. */
  lemma FormatFixedEnds(x: real, p: nat, mode: Rounding)
    ensures var t := FormatFixed(x, p, mode); !IsSpace(t[0]) && !IsSpace(t[|t| - 1])
  {
    var body := FixedDigits(ScaledMagnitude(x, p, mode), p);
    var t := FormatFixed(x, p, mode);
    assert t[|t| - 1] == body[|body| - 1];
  }

  /** The default text reads back as the value rounded half-even to two
      decimals, within half a hundredth of it. */
  lemma DefaultReadsBack(x: real)
    ensures ParseFloat(DefaultText(x)) == Some(RoundedValue(x, 2, HalfEven))
    ensures -0.005 <= RoundedValue(x, 2, HalfEven) - x <= 0.005
  {
    DefaultParses(x);
    TwoDecimalsClose(x);
  }

  lemma TwoDecimalsClose(x: real)
    ensures -0.005 <= RoundedValue(x, 2, HalfEven) - x <= 0.005
  {
    RoundedValueClose(x, 2, HalfEven);
    SmallPowers();
  }

  lemma DefaultParses(x: real)
    ensures ParseFloat(DefaultText(x)) == Some(RoundedValue(x, 2, HalfEven))
  {
    var t := FormatFixed(x, 2, HalfEven);
    FormatFixedRoundTrip(x, 2, HalfEven);
    FormatFixedEnds(x, 2, HalfEven);
    PadStrip(t, 7);
    StripNoSpaceEnds(t);
    ParseFloatStrip(DefaultText(x), t);
  }

  /** A negative whole number survives rounding to any number of decimals. */
  lemma WholeRounds(k: nat, p: nat, mode: Rounding)
    requires k > 0
    ensures RoundedValue(-(k as real), p, mode) == -(k as real)
  {
    ScaledWhole(k, p, mode);
    RatioOfWhole(k, p);
    NegativeRounded(-(k as real), p, mode, k * Pow10(p), k as real);
  }

  lemma ScaledWhole(k: nat, p: nat, mode: Rounding)
    ensures ScaledMagnitude(-(k as real), p, mode) == k * Pow10(p)
  {
    var q := Pow10(p);
    AbsOfNegated(k);
    CastProduct(k, q);
    ScaledOfWhole(k as real, p, mode, k * q);
  }

  lemma AbsOfNegated(k: nat)
    ensures Abs(-(k as real)) == k as real
  {
  }

  /** A value whose scaled form is already whole rounds to it. */
  lemma ScaledOfWhole(y: real, p: nat, mode: Rounding, n: nat)
    requires y >= 0.0 && y * Pow10(p) as real == n as real
    ensures Scaled(y, p, mode) == n
  {
    var z := y * Pow10(p) as real;
    assert z == n as real;
    assert Scaled(y, p, mode) == RoundNonNeg(z, mode);
    RoundWhole(n, mode);
  }

  lemma RoundWhole(n: nat, mode: Rounding)
    ensures RoundNonNeg(n as real, mode) == n
  {
    assert (n as real).Floor == n;
  }

  lemma RatioOfWhole(k: nat, p: nat)
    ensures Ratio(k * Pow10(p), p) == k as real
  {
    var q := Pow10(p);
    CastProduct(k, q);
    CancelFactor(Ratio(k * q, p), k as real, q as real);
  }

  lemma CancelFactor(r: real, k: real, q: real)
    requires q > 0.0 && r * q == k * q
    ensures r == k
  {
    assert (r - k) * q == 0.0;
  }

  lemma NegativeRounded(x: real, p: nat, mode: Rounding, n: nat, v: real)
    requires x < 0.0 && ScaledMagnitude(x, p, mode) == n && Ratio(n, p) == v
    ensures RoundedValue(x, p, mode) == -v
  {
  }

  /** `float('-' + str(n))`. */
  lemma NegativeIntText(n: nat)
    ensures ParseFloat("-" + NatToDigits(n)) == Some(-(n as real))
  {
    var d := NatToDigits(n);
    var s := "-" + d;
    assert s[|s| - 1] == d[|d| - 1];
    StripNoSpaceEnds(s);
    assert SignSplit(s) == (true, d);
    DigitsNoExp(d);
    MantissaWhole(d);
    NatDigitsRoundTrip(n);
  }

  /** `float('-9999')`. */
  lemma MissingText()
    ensures ParseFloat("-9999") == Some(-9999.0)
  {
    NineDigits();
    NegativeIntText(9999);
  }

  lemma NineDigits()
    ensures "-" + NatToDigits(9999) == "-9999"
  {
    assert NatToDigits(9) == "9";
    assert NatToDigits(99) == "99";
    assert NatToDigits(999) == "999";
  }

  lemma MissingDefault()
    ensures ParseFloat(DefaultText(-9999.0)) == Some(-9999.0)
  {
    DefaultReadsBack(-9999.0);
    WholeRounds(9999, 2, HalfEven);
  }

  lemma MissingRounded(modCode: string)
    ensures ValRounder(-9999.0, modCode).Ok? ==> ParseFloat(ValRounder(-9999.0, modCode).value) == Some(-9999.0)
  {
    var r := ValRounder(-9999.0, modCode);
    if r.Ok? {
      var places := ParseInt(Replace(modCode, "R", "")).value;
      assert r.value == FormatFixed(-9999.0, places, HalfAwayFromZero);
      FormatFixedRoundTrip(-9999.0, places, HalfAwayFromZero);
      WholeRounds(9999, places, HalfAwayFromZero);
    }
  }

  /** With the correction, every modification writes the -9999 of a missing
      value as text that reads back as -9999. */
  lemma {:induction false} MissingReadsBack(mods: seq<string>, usaceP: string)
    ensures ApplyMods(mods, -9999.0, usaceP, false).Ok? ==>
      ParseFloat(ApplyMods(mods, -9999.0, usaceP, false).value) == Some(-9999.0)
    decreases |mods|
  {
    if |mods| == 0 {
      MissingDefault();
    } else if Contains(mods[0], "vector") {
      MissingText();
    } else if Contains(mods[0], "R") {
      MissingRounded(mods[0]);
    } else {
      MissingReadsBack(mods[1..], usaceP);
    }
  }

  /** With the correction, a missing value of any element is written as a
      text reading -9999. */
  lemma MissingWrittenAsMissing(v: Cell, shefP: string, usaceP: string)
    requires v == Raw(MissVal) || CellFloat(v) == Some(-9999.0)
    ensures ValueMod(v, shefP, usaceP, false).Ok? ==>
      ValueMod(v, shefP, usaceP, false).value.Some?
      && ParseFloat(ValueMod(v, shefP, usaceP, false).value.value) == Some(-9999.0)
  {
    if v == Raw(MissVal) {
      MissingText();
    } else {
      MissingReadsBack(Mods(shefP), usaceP);
    }
  }

  // ---------------------------------------------------------------------
  // The vector text
  // ---------------------------------------------------------------------

  /** Fixed-point digits with decimals: the whole units, '.', and exactly
      p digits. */
  lemma FixedParts(n: nat, p: nat)
    requires p > 0
    ensures FixedDigits(n, p) == NatToDigits(WholeUnits(n, p)) + "." + PadLeft(NatToDigits(FracUnits(n, p)), p, '0')
    ensures AllDigits(PadLeft(NatToDigits(FracUnits(n, p)), p, '0'))
  {
    ZeroPadValue(NatToDigits(FracUnits(n, p)), p);
  }

  /** A '0.' can only occur in `digits.digits` where the last whole digit
      is a zero. */
  lemma ZeroPointAt(w: string, f: string, i: int)
    requires AllDigits(w) && AllDigits(f)
    requires OccursAt(w + "." + f, "0.", i)
    ensures i == |w| - 1 && |w| > 0 && w[|w| - 1] == '0'
  {
    var s := w + "." + f;
    forall j | 0 <= j < |s| && j != |w| ensures IsDigit(s[j]) {
      if j < |w| {
        assert s[j] == w[j];
      } else {
        assert s[j] == f[j - |w| - 1];
      }
    }
    assert s[i + 1] == '.' && s[i] == '0';
  }

  lemma NoPointInDigits(f: string)
    requires AllDigits(f)
    ensures !Contains(f, "0.")
  {
    forall i ensures !OccursAt(f, "0.", i) {
      if 0 <= i && i + 2 <= |f| {
        assert f[i..i + 2][1] == f[i + 1];
        assert IsDigit(f[i + 1]);
      }
    }
  }

  /** `replace('0.', '.')` on `w.f` removes the last whole digit when it is
      a zero and changes nothing otherwise. */
  lemma ReplaceZeroPoint(w: string, f: string)
    requires AllDigits(w) && AllDigits(f)
    ensures |w| > 0 && w[|w| - 1] == '0' ==> Replace(w + "." + f, "0.", ".") == w[..|w| - 1] + "." + f
    ensures !(|w| > 0 && w[|w| - 1] == '0') ==> Replace(w + "." + f, "0.", ".") == w + "." + f
  {
    var s := w + "." + f;
    forall i | OccursAt(s, "0.", i) ensures i == |w| - 1 && |w| > 0 && w[|w| - 1] == '0' {
      ZeroPointAt(w, f, i);
    }
    if |w| > 0 && w[|w| - 1] == '0' {
      assert s[|w| - 1..|w| + 1] == "0.";
      assert OccursAt(s, "0.", |w| - 1);
      assert Find(s, "0.") == |w| - 1;
      assert s[..|w| - 1] == w[..|w| - 1];
      assert s[|w| + 1..] == f;
      NoPointInDigits(f);
      SplitNoSep(f, "0.");
      assert Split(s, "0.") == [w[..|w| - 1]] + Split(f, "0.");
      assert Split(s, "0.") == [w[..|w| - 1], f];
      assert Join([w[..|w| - 1], f], ".") == w[..|w| - 1] + "." + Join([f], ".");
    } else {
      assert !Contains(s, "0.");
      ReplaceAbsent(s, "0.", ".");
    }
  }

  /** The whole digits with a last zero removed, as `replace('0.', '.')`
      leaves them. */
  function DropLastZero(w: string): string {
    if |w| > 0 && w[|w| - 1] == '0' then w[..|w| - 1] else w
  }

  /** The unsigned text of a vector value: the four-decimal magnitude with
      its last whole digit dropped when that digit is a zero. */
  lemma VectorShape(depth: Option<int>, x: real)
    ensures var n := ScaledMagnitude(x / 1000.0, 4, HalfEven);
      var w := NatToDigits(WholeUnits(n, 4));
      var f := PadLeft(NatToDigits(FracUnits(n, 4)), 4, '0');
      VectorText(depth, x) == (if x < 0.0 then "-" else "") + DepthText(depth)
        + DropLastZero(w) + "." + f
  {
    var n := ScaledMagnitude(x / 1000.0, 4, HalfEven);
    var w := NatToDigits(WholeUnits(n, 4));
    var f := PadLeft(NatToDigits(FracUnits(n, 4)), 4, '0');
    VectorFixed(x);
    FixedParts(n, 4);
    VectorCompose(depth, x, w, f);
  }

  lemma VectorCompose(depth: Option<int>, x: real, w: string, f: string)
    requires AllDigits(w) && AllDigits(f)
    requires FormatFixed(Abs(x / 1000.0), 4, HalfEven) == w + "." + f
    ensures VectorText(depth, x) == (if x < 0.0 then "-" else "") + DepthText(depth)
      + DropLastZero(w) + "." + f
  {
    VectorSign(depth, x);
    var t := FormatFixed(Abs(x / 1000.0), 4, HalfEven);
    var r := Replace(t, "0.", ".");
    DropZeroPoint(t, w, f, r);
    Regroup4(VectorText(depth, x), if x < 0.0 then "-" else "", DepthText(depth), r, DropLastZero(w), f);
  }

  /** `ReplaceZeroPoint` in terms of `DropLastZero`. */
  lemma DropZeroPoint(t: string, w: string, f: string, r: string)
    requires AllDigits(w) && AllDigits(f) && t == w + "." + f && r == Replace(t, "0.", ".")
    ensures r == DropLastZero(w) + "." + f
  {
    ReplaceZeroPoint(w, f);
  }

  lemma Regroup4(v: string, sign: string, d: string, r: string, w: string, f: string)
    requires v == sign + d + r && r == w + "." + f
    ensures v == sign + d + w + "." + f
  {
  }

  lemma VectorFixed(x: real)
    ensures FormatFixed(Abs(x / 1000.0), 4, HalfEven) == FixedDigits(ScaledMagnitude(x / 1000.0, 4, HalfEven), 4)
  {
    FormatAbs(x / 1000.0, 4, HalfEven);
  }

  lemma FormatAbs(a: real, p: nat, mode: Rounding)
    ensures FormatFixed(Abs(a), p, mode) == FixedDigits(ScaledMagnitude(a, p, mode), p)
  {
    assert Abs(Abs(a)) == Abs(a);
  }

  lemma VectorSign(depth: Option<int>, x: real)
    ensures VectorText(depth, x) == (if x < 0.0 then "-" else "") + DepthText(depth)
      + Replace(FormatFixed(Abs(x / 1000.0), 4, HalfEven), "0.", ".")
  {
    var v := x / 1000.0;
    ThousandthSign(x);
    var t := Replace(FormatFixed(Abs(v), 4, HalfEven), "0.", ".");
    assert VectorText(depth, x) == if v < 0.0 then "-" + (DepthText(depth) + t) else DepthText(depth) + t;
    SignJoin(v < 0.0, x < 0.0, DepthText(depth), t);
  }

  lemma SignJoin(a: bool, b: bool, d: string, t: string)
    requires a == b
    ensures (if a then "-" + (d + t) else d + t) == (if b then "-" else "") + d + t
  {
  }

  lemma ThousandthSign(x: real)
    ensures x / 1000.0 < 0.0 <==> x < 0.0
  {
  }

  /** A magnitude below 1 (after rounding) loses only its leading zero: the
      text is the depth followed by '.dddd'. */
  lemma VectorBelowOne(depth: Option<int>, x: real)
    requires ScaledMagnitude(x / 1000.0, 4, HalfEven) < 10000
    ensures var t := FormatFixed(Abs(x / 1000.0), 4, HalfEven);
      t[0] == '0' && VectorText(depth, x) == (if x < 0.0 then "-" else "") + DepthText(depth) + t[1..]
  {
    var n := ScaledMagnitude(x / 1000.0, 4, HalfEven);
    var f := PadLeft(NatToDigits(FracUnits(n, 4)), 4, '0');
    var t := FormatFixed(Abs(x / 1000.0), 4, HalfEven);
    VectorFixed(x);
    ZeroWhole(n);
    assert t == "0" + "." + f;
    VectorCompose(depth, x, "0", f);
    Regroup(if x < 0.0 then "-" else "", DepthText(depth), f, t);
  }

  lemma ZeroWhole(n: nat)
    requires n < 10000
    ensures FixedDigits(n, 4) == "0" + "." + PadLeft(NatToDigits(FracUnits(n, 4)), 4, '0')
    ensures AllDigits(PadLeft(NatToDigits(FracUnits(n, 4)), 4, '0'))
  {
    assert WholeUnits(n, 4) == 0 by { SmallPowers(); }
    assert NatToDigits(0) == "0";
    FixedParts(n, 4);
  }

  lemma Regroup(sign: string, d: string, f: string, t: string)
    requires t == "0" + "." + f
    ensures t[0] == '0'
    ensures sign + d + "0"[..0] + "." + f == sign + d + t[1..]
  {
    assert "0"[..0] == "";
    assert t[1..] == "." + f;
  }

  /** A magnitude of 10 or more loses a digit: 10.5 at depth 4 is written
      "41.5000", which reads as depth 4 and 1.5. */
  lemma VectorDropsDigit()
    ensures VectorText(Some(4), 10500.0) == "41.5000"
  {
    ScaledOf10500();
    DropsDigitAt(10500.0);
  }

  lemma DropsDigitAt(x: real)
    requires x >= 0.0 && ScaledMagnitude(x / 1000.0, 4, HalfEven) == 105000
    ensures VectorText(Some(4), x) == "41.5000"
  {
    assert VectorText(Some(4), x) == "" + DepthText(Some(4)) + DropLastZero("10") + "." + "5000" by {
      PartsOf105000();
      VectorFrom(Some(4), x, 105000, "10", "5000");
    }
    assert DepthText(Some(4)) == "4";
    WrittenVector("", "4", "10", "5000");
  }

  /** `VectorShape` with the magnitude and its digits named. */
  lemma VectorFrom(depth: Option<int>, x: real, n: nat, w: string, f: string)
    requires ScaledMagnitude(x / 1000.0, 4, HalfEven) == n
    requires NatToDigits(WholeUnits(n, 4)) == w && PadLeft(NatToDigits(FracUnits(n, 4)), 4, '0') == f
    ensures VectorText(depth, x) == (if x < 0.0 then "-" else "") + DepthText(depth) + DropLastZero(w) + "." + f
  {
    VectorShape(depth, x);
  }

  lemma ScaledOf10500()
    ensures ScaledMagnitude(10500.0 / 1000.0, 4, HalfEven) == 105000
  {
    SmallPowers();
    assert Abs(10.5) * Pow10(4) as real == 105000.0;
    assert RoundNonNeg(105000.0, HalfEven) == 105000;
  }

  lemma PartsOf105000()
    ensures NatToDigits(WholeUnits(105000, 4)) == "10"
    ensures PadLeft(NatToDigits(FracUnits(105000, 4)), 4, '0') == "5000"
  {
    assert WholeUnits(105000, 4) == 10 && FracUnits(105000, 4) == 5000 by { SmallPowers(); }
    assert NatToDigits(10) == "10";
    assert NatToDigits(5000) == "5000" by {
      assert NatToDigits(5) == "5";
      assert NatToDigits(50) == "50";
      assert NatToDigits(500) == "500";
    }
    assert PadLeft("5000", 4, '0') == "5000";
  }

  /** The vector text of the -9999 missing value at depth 4. */
  lemma MissingVector()
    ensures VectorText(Some(4), -9999.0) == "-49.9990"
  {
    MissingVectorAt(-9999.0);
  }

  lemma MissingVectorAt(x: real)
    requires x == -9999.0
    ensures VectorText(Some(4), x) == "-49.9990"
  {
    ScaledOfMissing();
    PartsOf99990();
    VectorFrom(Some(4), x, 99990, "9", "9990");
    assert DepthText(Some(4)) == "4";
    WrittenVector("-", "4", "9", "9990");
  }

  /** The pieces of the two example vector texts put together. */
  lemma WrittenVector(sign: string, depth: string, w: string, f: string)
    requires depth == "4"
    requires (sign, w, f) in {("-", "9", "9990"), ("", "10", "5000")}
    ensures sign == "-" ==> sign + depth + DropLastZero(w) + "." + f == "-49.9990"
    ensures sign == "" ==> sign + depth + DropLastZero(w) + "." + f == "41.5000"
  {
    assert "10"[..1] == "1";
  }

  lemma ScaledOfMissing()
    ensures ScaledMagnitude(-9999.0 / 1000.0, 4, HalfEven) == 99990
  {
    SmallPowers();
    assert Abs(-9.999) * Pow10(4) as real == 99990.0;
    assert RoundNonNeg(99990.0, HalfEven) == 99990;
  }

  lemma PartsOf99990()
    ensures NatToDigits(WholeUnits(99990, 4)) == "9"
    ensures PadLeft(NatToDigits(FracUnits(99990, 4)), 4, '0') == "9990"
  {
    assert WholeUnits(99990, 4) == 9 && FracUnits(99990, 4) == 9990 by { SmallPowers(); }
    assert NatToDigits(9) == "9";
    assert NatToDigits(9990) == "9990" by {
      assert NatToDigits(99) == "99";
      assert NatToDigits(999) == "999";
    }
    assert PadLeft("9990", 4, '0') == "9990";
  }

  lemma SoilTemperatureMods()
    ensures Mods("TB") == ["vector", "eng"]
  {
  }

  lemma FourInchColumn()
    ensures GetDepth("Temp-Soil_4") == Ok(Some(4))
  {
    assert "Temp-Soil" + "_" + NatToDigits(4) == "Temp-Soil_4";
    DepthOfColumn("Temp-Soil", 4);
  }

  lemma VectorModFirst(x: real, usaceP: string, asWritten: bool)
    ensures ApplyMods(["vector", "eng"], x, usaceP, asWritten) ==
      match GetDepth(usaceP)
      case Fail(e) => Fail(e)
      case Ok(depth) => Ok(if !asWritten && x == -9999.0 then "-9999" else VectorText(depth, x))
  {
    assert OccursAt("vector", "vector", 0);
  }

  /** As written: a missing soil temperature at 4 inches, stored by the
      parser as the text -9999, is written as the vector "-49.9990". */
  lemma MissingSoilTemperatureAsWritten()
    ensures ValueMod(Raw("-9999"), "TB", "Temp-Soil_4", true) == Ok(Some("-49.9990"))
  {
    MissingText();
    SoilTemperatureMods();
    FourInchColumn();
    VectorModFirst(-9999.0, "Temp-Soil_4", true);
    MissingVector();
  }

  /** Corrected: the same value is written as missing. */
  lemma MissingSoilTemperatureCorrected()
    ensures ValueMod(Raw("-9999"), "TB", "Temp-Soil_4", false) == Ok(Some("-9999"))
  {
    MissingText();
    SoilTemperatureMods();
    FourInchColumn();
    VectorModFirst(-9999.0, "Temp-Soil_4", false);
  }

  /** Wind direction ("R0") is rounded half away from zero to a whole
      number, within half a degree of the value. */
  lemma WindDirectionWhole(x: real, usaceP: string, asWritten: bool)
    ensures ValueMod(Num(x), "UD", usaceP, asWritten) == Ok(Some(FormatFixed(x, 0, HalfAwayFromZero)))
    ensures ParseFloat(FormatFixed(x, 0, HalfAwayFromZero)) == Some(RoundedValue(x, 0, HalfAwayFromZero))
    ensures -0.5 <= RoundedValue(x, 0, HalfAwayFromZero) - x <= 0.5
  {
    WindDirectionText(x, usaceP, asWritten);
    FormatFixedRoundTrip(x, 0, HalfAwayFromZero);
    WholeClose(x);
  }

  lemma WindDirectionText(x: real, usaceP: string, asWritten: bool)
    ensures ValueMod(Num(x), "UD", usaceP, asWritten) == Ok(Some(FormatFixed(x, 0, HalfAwayFromZero)))
  {
    WindDirectionMods();
    RoundFirst(x, usaceP, asWritten);
  }

  lemma WindDirectionMods()
    ensures Mods("UD") == ["R0"]
  {
    GetAt(ValueMods, "UD", 2);
  }

  lemma RoundFirst(x: real, usaceP: string, asWritten: bool)
    ensures ApplyMods(["R0"], x, usaceP, asWritten) == Ok(FormatFixed(x, 0, HalfAwayFromZero))
  {
    NoCharNoSub("R0", "vector", 'v');
    ContainsAt("R0", "R", 0);
    RoundsWhole(x);
  }

  lemma RoundsWhole(x: real)
    ensures ValRounder(x, "R0") == Ok(FormatFixed(x, 0, HalfAwayFromZero))
  {
    RoundCodeZero();
  }

  lemma WholeClose(x: real)
    ensures -0.5 <= RoundedValue(x, 0, HalfAwayFromZero) - x <= 0.5
  {
    RoundedValueClose(x, 0, HalfAwayFromZero);
  }

  /** The code "R0" asks for no decimals. */
  lemma RoundCodeZero()
    ensures ParseInt(Replace("R0", "R", "")) == Some(0)
  {
    assert Replace("R0", "R", "") == "0" by {
      SplitR0();
      JoinR0();
    }
    DigitsInt("0");
    assert DigitsValue("0") == 0;
  }

  lemma SplitR0()
    ensures Split("R0", "R") == ["", "0"]
  {
    assert OccursAt("R0", "R", 0);
    assert Find("R0", "R") == 0;
    NoCharNoContains("0", 'R');
    SplitNoSep("0", "R");
    assert "R0"[1..] == "0";
  }

  lemma JoinR0()
    ensures Join(["", "0"], "") == "0"
  {
    assert Join(["", "0"], "") == "" + "" + Join(["0"], "");
  }

  /** Modifications that only convert units or sum hours leave the default
      two-decimal text. */
  lemma PlainMods(mods: seq<string>, x: real, usaceP: string, asWritten: bool)
    requires forall i :: 0 <= i < |mods| ==> mods[i] == "eng" || mods[i] == "hrly"
    ensures ApplyMods(mods, x, usaceP, asWritten) == Ok(DefaultText(x))
  {
    NoCharNoContains("eng", 'R');
    NoCharNoContains("hrly", 'R');
    assert forall i :: 0 <= i < |mods| ==> !Contains(mods[i], "vector") && !Contains(mods[i], "R");
  }

  lemma PlainTable(shefP: string)
    requires shefP in ["XR", "SD", "US", "TA", "PP", "RW"]
    ensures forall i :: 0 <= i < |Mods(shefP)| ==> Mods(shefP)[i] == "eng" || Mods(shefP)[i] == "hrly"
  {
    if shefP == "XR" {
      ModsXR();
    } else if shefP == "SD" {
      ModsSD();
    } else if shefP == "US" {
      ModsUS();
    } else if shefP == "TA" {
      ModsTA();
    } else if shefP == "PP" {
      ModsPP();
    } else {
      ModsRW();
    }
  }

  lemma ModsXR() ensures Mods("XR") == [] { NoXKey(); GetAbsent(ValueMods, "XR"); }

  lemma NoXKey()
    ensures forall j :: 0 <= j < |ValueMods| ==> |ValueMods[j].0| > 0 && ValueMods[j].0[0] != 'X'
  {
  }
  lemma ModsSD() ensures Mods("SD") == ["eng"] { GetAt(ValueMods, "SD", 4); }
  lemma ModsUS() ensures Mods("US") == ["eng"] { GetAt(ValueMods, "US", 3); }
  lemma ModsTA() ensures Mods("TA") == ["eng"] { GetAt(ValueMods, "TA", 5); }
  lemma ModsPP() ensures Mods("PP") == ["hrly", "eng"] { GetAt(ValueMods, "PP", 6); }
  lemma ModsRW() ensures Mods("RW") == ["hrly"] { GetAt(ValueMods, "RW", 7); }

  /** Humidity, snow depth, wind speed, air temperature, precipitation and
      solar radiation get the default two decimals. */
  lemma PlainElements(shefP: string, x: real, usaceP: string, asWritten: bool)
    requires shefP in ["XR", "SD", "US", "TA", "PP", "RW"]
    ensures ValueMod(Num(x), shefP, usaceP, asWritten) == Ok(Some(DefaultText(x)))
  {
    PlainTable(shefP);
    PlainMods(Mods(shefP), x, usaceP, asWritten);
  }

  // ---------------------------------------------------------------------
  // `.E1` continuation lines
  // ---------------------------------------------------------------------

  /** The value loop's text so far and its line-length counter `lLen`
      (1 before the first value). */
  datatype Wrapped = Wrapped(text: string, lLen: int)

  /** One turn of the value loop of `body`: the first value opens a `.E1`
      line; a later one joins the line with '/ ' while the counter stays
      below 65, and opens a new `.E1` line otherwise. */
  function WrapStep(w: Wrapped, v: string): Wrapped {
    if w.lLen == 1 then Wrapped(w.text + ".E1 " + v, w.lLen + 4 + |v|)
    else
      var l := w.lLen + 2 + |v|;
      if 1 < l < LineLenMax then Wrapped(w.text + "/ " + v, l)
      else Wrapped(w.text + "\n.E1 " + v, 4 + |v|)
  }

  /** The value loop over the value texts of one parameter, in order. */
  function WrapValues(vals: seq<string>): Wrapped
    decreases |vals|
  {
    if |vals| == 0 then Wrapped("", 1)
    else WrapStep(WrapValues(vals[..|vals| - 1]), vals[|vals| - 1])
  }

  /** A continuation line holding a group of values. */
  function LineText(g: seq<string>): string {
    ".E1 " + Join(g, "/ ")
  }

  function LineTexts(gs: seq<seq<string>>): (r: seq<string>)
    ensures |r| == |gs|
    ensures forall i :: 0 <= i < |gs| ==> r[i] == LineText(gs[i])
  {
    seq(|gs|, i requires 0 <= i < |gs| => LineText(gs[i]))
  }

  /** Groups of values written one continuation line each. */
  function Render(gs: seq<seq<string>>): string {
    Join(LineTexts(gs), "\n")
  }

  /** The longest a line may grow: the counter starts at 1, so the first
      line is one character shorter than the others. */
  function Cap(i: nat): nat {
    if i == 0 then LineLenMax - 1 else LineLenMax
  }

  /** Greedy lines measured by their actual length: each value goes on the
      current line if the line stays shorter than its cap, and on a new
      line otherwise. */
  function Lines(vals: seq<string>): (gs: seq<seq<string>>)
    decreases |vals|
    ensures |vals| == 0 <==> |gs| == 0
  {
    if |vals| == 0 then [] else LinesStep(Lines(vals[..|vals| - 1]), vals[|vals| - 1])
  }

  /** One value added to the greedy lines. */
  function LinesStep(gs: seq<seq<string>>, v: string): (r: seq<seq<string>>)
    ensures |r| > 0
  {
    if |gs| == 0 then [[v]]
    else
      var last := gs[|gs| - 1];
      if |LineText(last + [v])| < Cap(|gs| - 1) then gs[..|gs| - 1] + [last + [v]]
      else gs + [[v]]
  }

  lemma LineTextSnoc(g: seq<string>, v: string)
    requires |g| >= 1
    ensures LineText(g + [v]) == LineText(g) + "/ " + v
  {
    JoinSnoc(g, v, "/ ");
  }

  lemma LineTextOne(v: string)
    ensures LineText([v]) == ".E1 " + v
  {
  }

  /** The lines hold the values, in order. */
  lemma {:induction false} LinesFlatten(vals: seq<string>)
    ensures Flatten(Lines(vals)) == vals
    decreases |vals|
  {
    if |vals| > 0 {
      var init, v := vals[..|vals| - 1], vals[|vals| - 1];
      LinesFlatten(init);
      LinesStepFlatten(Lines(init), v);
      assert vals == init + [v];
    }
  }

  lemma LinesStepFlatten(gs0: seq<seq<string>>, v: string)
    ensures Flatten(LinesStep(gs0, v)) == Flatten(gs0) + [v]
  {
    var gs := LinesStep(gs0, v);
    if |gs0| > 0 && |gs| == |gs0| {
      var n := |gs0|;
      assert gs[..n - 1] == gs0[..n - 1];
      assert Flatten(gs0) == Flatten(gs0[..n - 1]) + gs0[n - 1];
      assert Flatten(gs) == Flatten(gs0[..n - 1]) + (gs0[n - 1] + [v]);
    } else if |gs0| > 0 {
      assert gs[..|gs| - 1] == gs0;
    } else {
      assert gs == [[v]];
      assert gs[..0] == [];
    }
  }

  /** Every line holds a value, a line holding more than one value is
      shorter than its cap, and a line was closed only because the next
      value would have taken it to its cap. */
  lemma {:induction false} LinesBounded(vals: seq<string>)
    ensures forall i :: 0 <= i < |Lines(vals)| ==> |Lines(vals)[i]| >= 1
    ensures forall i :: 0 <= i < |Lines(vals)| && |Lines(vals)[i]| >= 2 ==> |LineText(Lines(vals)[i])| < Cap(i)
    ensures forall i :: 0 <= i < |Lines(vals)| - 1 ==>
      |LineText(Lines(vals)[i] + [Lines(vals)[i + 1][0]])| >= Cap(i)
    decreases |vals|
  {
    if |vals| > 0 {
      LinesBounded(vals[..|vals| - 1]);
      LinesStepBounded(Lines(vals[..|vals| - 1]), vals[|vals| - 1]);
    }
  }

  /** The three facts `LinesBounded` states, for any lines. */
  predicate BoundedLines(gs: seq<seq<string>>) {
    && (forall i :: 0 <= i < |gs| ==> |gs[i]| >= 1)
    && (forall i :: 0 <= i < |gs| && |gs[i]| >= 2 ==> |LineText(gs[i])| < Cap(i))
    && (forall i :: 0 <= i < |gs| - 1 ==> |LineText(gs[i] + [gs[i + 1][0]])| >= Cap(i))
  }

  lemma LinesStepBounded(gs0: seq<seq<string>>, v: string)
    requires BoundedLines(gs0)
    ensures BoundedLines(LinesStep(gs0, v))
  {
    var gs := LinesStep(gs0, v);
    if |gs0| > 0 && |gs| == |gs0| {
      var n := |gs0|;
      assert forall i :: 0 <= i < n - 1 ==> gs[i] == gs0[i];
      assert gs[n - 1] == gs0[n - 1] + [v];
      assert gs[n - 1][0] == gs0[n - 1][0];
    } else if |gs0| > 0 {
      assert forall i :: 0 <= i < |gs0| ==> gs[i] == gs0[i];
      assert gs[|gs0|] == [v];
    }
  }

  lemma RenderExtend(gs: seq<seq<string>>, v: string)
    requires |gs| >= 1 && |gs[|gs| - 1]| >= 1
    ensures Render(gs[..|gs| - 1] + [gs[|gs| - 1] + [v]]) == Render(gs) + ("/ " + v)
  {
    var n := |gs|;
    var ts := LineTexts(gs);
    var q := gs[..n - 1] + [gs[n - 1] + [v]];
    var us := ts[..n - 1] + [ts[n - 1] + ("/ " + v)];
    LineTextSnoc(gs[n - 1], v);
    assert forall i :: 0 <= i < n ==> LineTexts(q)[i] == us[i] by {
      forall i | 0 <= i < n
        ensures LineTexts(q)[i] == us[i]
      {
        if i < n - 1 {
          assert q[i] == gs[i];
        }
      }
    }
    assert LineTexts(q) == us;
    JoinExtendLast(ts, "/ " + v, "\n");
  }

  lemma RenderSnoc(gs: seq<seq<string>>, v: string)
    requires |gs| >= 1
    ensures Render(gs + [[v]]) == Render(gs) + "\n" + (".E1 " + v)
  {
    LineTextOne(v);
    assert LineTexts(gs + [[v]]) == LineTexts(gs) + [".E1 " + v];
    JoinSnoc(LineTexts(gs), ".E1 " + v, "\n");
  }

  /** What the loop keeps about the lines written so far. */
  predicate WrapsLines(w: Wrapped, gs: seq<seq<string>>) {
    w.text == Render(gs)
    && (|gs| == 0 ==> w.lLen == 1)
    && (|gs| > 0 ==> w.lLen == |LineText(gs[|gs| - 1])| + (if |gs| == 1 then 1 else 0))
  }

  /** One loop turn keeps `WrapsLines` with the greedy step of `Lines`. */
  lemma WrapStepLines(w: Wrapped, gs: seq<seq<string>>, v: string)
    requires WrapsLines(w, gs)
    requires forall i :: 0 <= i < |gs| ==> |gs[i]| >= 1
    ensures |gs| == 0 ==> WrapsLines(WrapStep(w, v), [[v]])
    ensures |gs| > 0 && |LineText(gs[|gs| - 1] + [v])| < Cap(|gs| - 1) ==>
      WrapsLines(WrapStep(w, v), gs[..|gs| - 1] + [gs[|gs| - 1] + [v]])
    ensures |gs| > 0 && |LineText(gs[|gs| - 1] + [v])| >= Cap(|gs| - 1) ==>
      WrapsLines(WrapStep(w, v), gs + [[v]])
  {
    LineTextOne(v);
    if |gs| == 0 {
      assert Render([[v]]) == ".E1 " + v;
    } else {
      var n := |gs|;
      var last := gs[n - 1];
      LineTextSnoc(last, v);
      if |LineText(last + [v])| < Cap(n - 1) {
        RenderExtend(gs, v);
      } else {
        RenderSnoc(gs, v);
      }
    }
  }

  /** The encoder's counter-driven loop writes the greedy lines: its text
      is the rendering of `Lines`, and its counter is the length of the
      last line (plus the initial 1 while on the first line). */
  lemma {:induction false} WrapIsLines(vals: seq<string>)
    ensures WrapsLines(WrapValues(vals), Lines(vals))
    decreases |vals|
  {
    if |vals| > 0 {
      var init := vals[..|vals| - 1];
      WrapIsLines(init);
      LinesBounded(init);
      WrapStepLines(WrapValues(init), Lines(init), vals[|vals| - 1]);
    }
  }

  // ---------------------------------------------------------------------
  // Descriptions and the `.E` line
  // ---------------------------------------------------------------------

  /** `getDescript`: the description of the column's parameter (looked up
      by the name before '_'), the unit and, for elements coded as vectors,
      the sensor depth. KeyError for a parameter without a description;
      a vector element's column without '_' fails in `getDepth`. */
  function GetDescript(shefP: string, usaceP: string, unit: string): (r: Result<string>)
    ensures var key := Split(usaceP, "_")[0];
      && (r.Fail? <==> key !in Describe || ("vector" in Mods(shefP) && !Contains(usaceP, "_")))
      && (r.Fail? ==> r.fault in {KeyError, IndexError})
      && (r.Ok? ==> StartsWith(r.value, Describe[key] + unit) && EndsWith(r.value, ")"))
      && (r.Ok? && "vector" in Mods(shefP) ==>
            EndsWith(r.value, " at " + DepthText(GetDepth(usaceP).value) + " inch depth)"))
  {
    var key := Split(usaceP, "_")[0];
    if key !in Describe then Fail(KeyError)
    else if "vector" in Mods(shefP) then
      var depth :- GetDepth(usaceP);
      var tail := " at " + DepthText(depth) + " inch depth)";
      var d := Describe[key] + unit + tail;
      assert d[|d| - |tail|..] == tail;
      Ok(d)
    else
      Ok(Describe[key] + unit + ")")
  }

  /** The units declaration of the `.E` line: English for inches, feet,
      Fahrenheit and miles per hour, none for percentages and degrees, SI
      for everything else. */
  function UnitDecl(unit: string): (r: string)
    ensures r == "/DUE" <==> unit in ["in", "ft", "F", "mph"]
    ensures r == "" <==> unit in ["%", "pct", "deg"]
    ensures r in ["/DUE", "", "/DUS"]
  {
    if unit in ["in", "ft", "F", "mph"] then "/DUE"
    else if unit in ["%", "pct", "deg"] then ""
    else "/DUS"
  }

  /** The parameter code: hourly totals (duration H) for the summed
      elements, instantaneous values (duration I) for the others; type R,
      source Z. */
  function PeCode(shefP: string): (r: string)
    ensures |r| == |shefP| + 3 && r[..|shefP|] == shefP
    ensures r[|shefP|..] == (if shefP in ["PP", "RW"] then "HRZ" else "IRZ")
  {
    HourlyColumns();
    shefP + (if shefP in GetHourly().0 then "HRZ" else "IRZ")
  }

  /** `%y%m%d` of a stamp (yymmdd of yyyymmddHHMM). */
  function StampDate(n: int): (r: string)
    ensures |r| == 6 && AllDigits(r)
  {
    SmallPowers();
    Digits(n / 100000000 % 100, 2) + Digits(n / 1000000 % 100, 2) + Digits(n / 10000 % 100, 2)
  }

  /** `%H%M` of a stamp. */
  function StampTime(n: int): (r: string)
    ensures |r| == 4 && AllDigits(r)
  {
    SmallPowers();
    Digits(n / 100 % 100, 2) + Digits(n % 100, 2)
  }

  lemma Base100(q: int, d: int)
    requires 0 <= d < 100
    ensures (q * 100 + d) / 100 == q && (q * 100 + d) % 100 == d
  {
  }

  /** The stamp of a date and time gives back its fields: the year's last
      two digits, the month, day, hour and minute. */
  lemma StampFields(t: DateTime)
    requires Valid(t)
    ensures StampDate(Stamp(t)) == Digits(t.year % 100, 2) + Digits(t.month, 2) + Digits(t.day, 2)
    ensures StampTime(Stamp(t)) == Digits(t.hour, 2) + Digits(t.minute, 2)
  {
    var n := Stamp(t);
    assert n == (((t.year * 100 + t.month) * 100 + t.day) * 100 + t.hour) * 100 + t.minute;
    StampParts(n, t.year, t.month, t.day, t.hour, t.minute);
    SmallPowers();
  }

  /** The base-100 digits of a stamp. */
  lemma StampParts(n: int, y: int, mo: int, d: int, h: int, mi: int)
    requires 0 <= mo < 100 && 0 <= d < 100 && 0 <= h < 100 && 0 <= mi < 100
    requires n == (((y * 100 + mo) * 100 + d) * 100 + h) * 100 + mi
    ensures n % 100 == mi && n / 100 % 100 == h && n / 10000 % 100 == d
    ensures n / 1000000 % 100 == mo && n / 100000000 % 100 == y % 100
  {
    var a := y * 100 + mo;
    var b := a * 100 + d;
    var c := b * 100 + h;
    Base100(c, mi);
    Base100(b, h);
    Base100(a, d);
    Base100(y, mo);
    ShiftDigit(n, 100, c, b);
    ShiftDigit(n, 10000, b, a);
    ShiftDigit(n, 1000000, a, y);
  }

  /** One more base-100 digit off the quotient. */
  lemma ShiftDigit(n: int, a: int, q: int, q': int)
    requires a > 0 && n / a == q && q / 100 == q'
    ensures n / (a * 100) == q'
  {
    DivDiv(n, a);
  }

  /** Dividing by 100 after dividing by `a` is dividing by `100 a`. */
  lemma DivDiv(n: int, a: int)
    requires a > 0
    ensures n / (a * 100) == n / a / 100
  {
    var d, s := n / a, n % a;
    var q, r := d / 100, d % 100;
    MulSplit(q, r, a);
    MulBelow(r, a);
    DivUnique(n, a * 100, q, r * a + s);
  }

  lemma MulSplit(q: int, r: int, a: int)
    ensures (q * 100 + r) * a == q * (a * 100) + r * a
  {
  }

  lemma MulBelow(r: int, a: int)
    requires 0 <= r <= 99 && a > 0
    ensures 0 <= r * a <= 99 * a
  {
  }

  lemma DivUnique(n: int, m: int, q: int, r: int)
    requires m > 0 && 0 <= r < m && n == q * m + r
    ensures n / m == q
  {
    var q', r' := n / m, n % m;
    assert (q - q') * m == r' - r;
    if q > q' {
      MulAtLeast(q - q', m);
    } else if q < q' {
      MulAtLeast(q' - q, m);
    }
  }

  lemma {:induction false} MulAtLeast(k: int, m: int)
    requires k >= 1 && m > 0
    ensures k * m >= m
    decreases k
  {
    if k > 1 {
      MulAtLeast(k - 1, m);
      assert k * m == (k - 1) * m + m;
    }
  }

  // ---------------------------------------------------------------------
  // One parameter of one site
  // ---------------------------------------------------------------------

  /** The value texts of one parameter: each non-empty value in time order
      through `valueMod`. A value `valueMod` turns into None makes the
      `len()` of the value loop raise TypeError. */
  function ValueTexts(data: map<int, Cell>, keys: seq<int>, shefP: string, usaceP: string, asWritten: bool)
    : (r: Result<seq<string>>)
    requires forall i :: 0 <= i < |keys| ==> keys[i] in data
    ensures r.Fail? ==> r.fault in {IndexError, ValueError, TypeError}
    ensures r.Ok? <==> forall i :: 0 <= i < |keys| && Filled(data[keys[i]]) ==>
      ValueMod(data[keys[i]], shefP, usaceP, asWritten).Ok?
      && ValueMod(data[keys[i]], shefP, usaceP, asWritten).value.Some?
    decreases |keys|
  {
    if |keys| == 0 then Ok([])
    else
      var v := data[keys[0]];
      if !Filled(v) then
        assert forall i :: 1 <= i < |keys| ==> keys[1..][i - 1] == keys[i];
        ValueTexts(data, keys[1..], shefP, usaceP, asWritten)
      else
        var m :- ValueMod(v, shefP, usaceP, asWritten);
        if m.None? then Fail(TypeError)
        else
          var rest :- ValueTexts(data, keys[1..], shefP, usaceP, asWritten);
          assert forall i :: 1 <= i < |keys| ==> keys[1..][i - 1] == keys[i];
          Ok([m.value] + rest)
  }

  /** With every value present, the texts are the values' texts, one per
      time and in time order. */
  lemma {:induction false} ValueTextsAll(data: map<int, Cell>, keys: seq<int>, shefP: string, usaceP: string, asWritten: bool)
    requires forall i :: 0 <= i < |keys| ==> keys[i] in data && Filled(data[keys[i]])
    ensures var r := ValueTexts(data, keys, shefP, usaceP, asWritten);
      r.Ok? ==> (|r.value| == |keys|
        && forall i :: 0 <= i < |keys| ==> r.value[i] == ValueMod(data[keys[i]], shefP, usaceP, asWritten).value.value)
    decreases |keys|
  {
    if |keys| > 0 {
      var r := ValueTexts(data, keys, shefP, usaceP, asWritten);
      var rest := ValueTexts(data, keys[1..], shefP, usaceP, asWritten);
      ValueTextsAll(data, keys[1..], shefP, usaceP, asWritten);
      if r.Ok? {
        var head := ValueMod(data[keys[0]], shefP, usaceP, asWritten).value.value;
        assert rest.Ok? && r.value == [head] + rest.value;
        assert forall i :: 1 <= i < |keys| ==> keys[1..][i - 1] == keys[i];
      }
    }
  }

  /** The `.E` line opening a parameter's values: the location id, the
      date and time of the earliest value in UTC, the units declaration
      and the parameter code. */
  function ELine(sId: string, stamp: int, unit: string, shefP: string): (r: string)
    ensures StartsWith(r, ".E " + sId + " ")
    ensures EndsWith(r, "/" + PeCode(shefP) + "/DIH1\n")
  {
    var head := ".E " + sId + " ";
    var tail := "/" + PeCode(shefP) + "/DIH1\n";
    var mid := StampDate(stamp) + " Z" + " DH" + StampTime(stamp) + UnitDecl(unit);
    Enclosed(head, mid, tail);
    head + mid + tail
  }

  lemma Enclosed(head: string, mid: string, tail: string)
    ensures StartsWith(head + mid + tail, head) && EndsWith(head + mid + tail, tail)
  {
    var l := head + mid + tail;
    assert l[..|head|] == head;
    assert l[|l| - |tail|..] == tail;
  }

  /** The unit as the encoder writes it: '%' becomes 'pct'. */
  function UnitName(units: string): string {
    if units == "%" then "pct" else units
  }

  /** The section `body` writes for one column of one site: nothing for a
      column without values, an empty section for a column without SHEF
      element, and otherwise a description comment, the `.E` line and the
      `.E1` lines of its values in time order. */
  function ParamText(sId: string, p: string, series: Series, asWritten: bool): (r: Result<string>)
    ensures |series.data| == 0 ==> r == Ok("")
    ensures |series.data| > 0 && ShefParam(p).None? ==> r == Ok("\n\n")
    ensures |series.data| > 0 && ShefParam(p).Some? ==>
      var sp, unit, keys := ShefParam(p).value, UnitName(series.units), SortedKeys(series.data.Keys);
      && (r.Ok? <==> GetDescript(sp, p, unit).Ok? && ValueTexts(series.data, keys, sp, p, asWritten).Ok?)
      && (r.Ok? ==>
            r.value == ": " + GetDescript(sp, p, unit).value + "\n"
              + ELine(sId, Least(series.data.Keys), unit, sp)
              + Render(Lines(ValueTexts(series.data, keys, sp, p, asWritten).value)) + "\n\n")
    ensures r.Fail? ==> r.fault in {KeyError, IndexError, ValueError, TypeError}
  {
    if |series.data| == 0 then Ok("")
    else
      var keys := SortedKeys(series.data.Keys);
      var sp := ShefParam(p);
      if sp.None? then Ok("\n\n")
      else
        var unit := UnitName(series.units);
        var desc :- GetDescript(sp.value, p, unit);
        var vals :- ValueTexts(series.data, keys, sp.value, p, asWritten);
        WrapIsLines(vals);
        Ok(": " + desc + "\n" + ELine(sId, keys[0], unit, sp.value) + WrapValues(vals).text + "\n\n")
  }

  /** The sections of all columns of a site, in column order. */
  function SiteText(sId: string, params: Dict<string, Series>, asWritten: bool): (r: Result<string>)
    ensures r.Ok? <==> forall i :: 0 <= i < |params| ==> ParamText(sId, params[i].0, params[i].1, asWritten).Ok?
    ensures r.Fail? ==> r.fault in {KeyError, IndexError, ValueError, TypeError}
  {
    var texts :- MapAll(params, (p: (string, Series)) => ParamText(sId, p.0, p.1, asWritten));
    Ok(Flatten(texts))
  }

  /** The texts of the given sites, in order. */
  function SiteTexts(sites: seq<Site>, asWritten: bool): (r: Result<seq<string>>)
    ensures r.Ok? <==> forall i :: 0 <= i < |sites| ==> SiteText(sites[i].sId, sites[i].params, asWritten).Ok?
    ensures r.Ok? ==> |r.value| == |sites|
    ensures r.Ok? ==> forall i :: 0 <= i < |sites| ==>
      r.value[i] == SiteText(sites[i].sId, sites[i].params, asWritten).value
    ensures r.Fail? ==> r.fault in {KeyError, IndexError, ValueError, TypeError}
  {
    MapAll(sites, (s: Site) => SiteText(s.sId, s.params, asWritten))
  }

  /** The sites of one state, in the order they were stored. */
  function StateSites(d: Data, st: string): (r: seq<Site>)
    ensures forall i :: 0 <= i < |r| ==> r[i].state == st
    ensures forall i :: 0 <= i < |r| ==> exists j :: 0 <= j < |d| && d[j].1 == r[i]
    ensures forall j :: 0 <= j < |d| && d[j].1.state == st ==> d[j].1 in r
    ensures |r| <= |d|
    decreases |d|
  {
    if |d| == 0 then []
    else
      var rest := StateSites(d[1..], st);
      assert forall j :: 1 <= j < |d| ==> d[j] == d[1..][j - 1];
      if d[0].1.state == st then [d[0].1] + rest else rest
  }

  // ---------------------------------------------------------------------
  // Sites per message
  // ---------------------------------------------------------------------

  /** The grouping state of `body`: finished bodies, the current one and
      the counter `numLocs`. */
  datatype Batch<T> = Batch(done: seq<seq<T>>, cur: seq<T>, n: nat)

  /** One site: the counter goes up first, and when it passes 60 the
      current body is closed and the counter reset to 0, so the site that
      opens a new body is not counted. */
  function AddSite<T>(b: Batch<T>, x: T): Batch<T> {
    if b.n + 1 > MaxLocs then Batch(b.done + [b.cur], [x], 0)
    else Batch(b.done, b.cur + [x], b.n + 1)
  }

  function Gather<T>(items: seq<T>): Batch<T>
    decreases |items|
  {
    if |items| == 0 then Batch([], [], 0)
    else AddSite(Gather(items[..|items| - 1]), items[|items| - 1])
  }

  /** The bodies `body` returns: the closed ones and the last one. */
  function Bodies<T>(items: seq<T>): (r: seq<seq<T>>)
    ensures |r| >= 1
  {
    var b := Gather(items);
    b.done + [b.cur]
  }

  /** Sites in the `i`th body when it is full. */
  function BodySize(i: nat): nat {
    if i == 0 then MaxLocs else MaxLocs + 1
  }

  /** What the grouping keeps: the closed bodies are full, and the
      counter trails the size of the current body by one once a body has
      been closed. */
  ghost predicate Grouped<T>(b: Batch<T>, items: seq<T>) {
    Flatten(b.done + [b.cur]) == items
    && (forall i :: 0 <= i < |b.done| ==> |b.done[i]| == BodySize(i))
    && (|b.done| == 0 ==> |b.cur| == b.n <= MaxLocs)
    && (|b.done| > 0 ==> |b.cur| == b.n + 1 && b.n <= MaxLocs)
  }

  lemma AddSiteGrouped<T>(b: Batch<T>, items: seq<T>, x: T)
    requires Grouped(b, items)
    ensures Grouped(AddSite(b, x), items + [x])
  {
    FlattenSnoc(b.done, b.cur);
    if b.n + 1 > MaxLocs {
      FlattenSnoc(b.done + [b.cur], [x]);
    } else {
      FlattenSnoc(b.done, b.cur + [x]);
    }
  }

  lemma {:induction false} GatherGrouped<T>(items: seq<T>)
    ensures Grouped(Gather(items), items)
    decreases |items|
  {
    if |items| == 0 {
      var one: seq<seq<T>> := [[]];
      assert one[..0] == [];
    } else {
      var init := items[..|items| - 1];
      GatherGrouped(init);
      AddSiteGrouped(Gather(init), init, items[|items| - 1]);
      assert init + [items[|items| - 1]] == items;
    }
  }

  /** The bodies hold every site once, in order; the first holds up to 60
      sites, every later one but the last holds 61, and the last at most
      61 and at least one. */
  lemma BodiesShape<T>(items: seq<T>)
    ensures Flatten(Bodies(items)) == items
    ensures |Bodies(items)[0]| == if |items| < MaxLocs then |items| else MaxLocs
    ensures forall i :: 0 <= i < |Bodies(items)| - 1 ==> |Bodies(items)[i]| == BodySize(i)
    ensures |Bodies(items)| > 1 ==> 1 <= |Bodies(items)[|Bodies(items)| - 1]| <= MaxLocs + 1
  {
    GatherGrouped(items);
    var b := Gather(items);
    if |b.done| == 0 {
      assert Flatten(b.done + [b.cur]) == b.cur by {
        assert (b.done + [b.cur])[..0] == [];
      }
    } else {
      assert |b.done[0]| == MaxLocs;
      assert |items| >= MaxLocs by { FlattenLength(b.done + [b.cur], 0); }
    }
  }

  /** The flattening is at least as long as any of its groups. */
  lemma {:induction false} FlattenLength<T>(gs: seq<seq<T>>, i: nat)
    requires i < |gs|
    ensures |Flatten(gs)| >= |gs[i]|
    decreases |gs|
  {
    if i < |gs| - 1 {
      FlattenLength(gs[..|gs| - 1], i);
    }
  }

  // ---------------------------------------------------------------------
  // Messages (`makeShef`, `header`, `footer`)
  // ---------------------------------------------------------------------

  /** The name of the first state in the cross-reference whose
      abbreviation or name is `st`. */
  function StateName(t: Dict<string, StateInfo>, st: string): (r: Option<string>)
    ensures r.None? <==> forall i :: 0 <= i < |t| ==> t[i].1.abrv != st && t[i].1.name != st
    ensures r.Some? ==> exists i :: 0 <= i < |t| && t[i].1.name == r.value && (t[i].1.abrv == st || t[i].1.name == st)
    decreases |t|
  {
    if |t| == 0 then None
    else if t[0].1.abrv == st || t[0].1.name == st then Some(t[0].1.name)
    else
      var r := StateName(t[1..], st);
      assert forall i :: 1 <= i < |t| ==> t[i] == t[1..][i - 1];
      r
  }

  /** The message header: the WMO heading with the run time as `%d%H%M`,
      the AWIPS id and the comment lines naming the state. */
  function Header(name: string, now: DateTime): (r: string)
    requires Valid(now)
    ensures StartsWith(r, "\nSRUS83 KKRF ")
    ensures EndsWith(r, ": " + name + " Mesonet Data\n\n\n")
  {
    SmallPowers();
    var head := "\nSRUS83 KKRF ";
    var tail := ": " + name + " Mesonet Data\n\n\n";
    var mid := Digits(now.day, 2) + Digits(now.hour, 2) + Digits(now.minute, 2) + "\n"
      + "RR8KRF\n\n"
      + ": US Army Corp of Engineers\n"
      + ": Upper Missouri River Basin Plains\n"
      + ": Snow and Soil Moisture Network\n\n";
    Enclosed(head, mid, tail);
    head + mid + tail
  }

  /** The message footer. */
  const Footer: string := "\n:END OF MESSAGE\nNNNN"

  /** The texts one after the other. */
  function Concat(ts: seq<string>): string
    decreases |ts|
  {
    if |ts| == 0 then "" else Concat(ts[..|ts| - 1]) + ts[|ts| - 1]
  }

  lemma {:induction false} ConcatAppend(a: seq<string>, b: seq<string>)
    ensures Concat(a + b) == Concat(a) + Concat(b)
    decreases |b|
  {
    if |b| > 0 {
      var b0 := b[..|b| - 1];
      ConcatAppend(a, b0);
      assert (a + b)[..|a + b| - 1] == a + b0;
    } else {
      assert a + b == a;
    }
  }

  /** Each group's texts one after the other. */
  function Concats(gs: seq<seq<string>>): (r: seq<string>)
    ensures |r| == |gs|
    ensures forall i :: 0 <= i < |gs| ==> r[i] == Concat(gs[i])
  {
    seq(|gs|, i requires 0 <= i < |gs| => Concat(gs[i]))
  }

  /** The groups' texts one after the other are the texts one after the
      other. */
  lemma {:induction false} ConcatFlatten(gs: seq<seq<string>>)
    ensures Concat(Flatten(gs)) == Concat(Concats(gs))
    decreases |gs|
  {
    if |gs| > 0 {
      var init := gs[..|gs| - 1];
      ConcatFlatten(init);
      ConcatAppend(Flatten(init), gs[|gs| - 1]);
      assert Concats(gs)[..|gs| - 1] == Concats(init);
    }
  }

  /** One message per body: the header, the body's site texts and the
      footer. */
  function Messages(header: string, bodies: seq<seq<string>>): (r: seq<string>)
    ensures |r| == |bodies|
    ensures forall i :: 0 <= i < |r| ==> r[i] == header + Concat(bodies[i]) + Footer
  {
    seq(|bodies|, i requires 0 <= i < |bodies| => header + Concat(bodies[i]) + Footer)
  }

  /** `makeShef`: the SHEF messages for the sites of state `st` (given by
      abbreviation or name), at most 61 sites each; None for a state the
      cross-reference does not know. `asWritten` chooses between the
      encoder as written and the corrected value text of a missing soil
      temperature or moisture. `xref` is the state cross-reference the
      encoder reads (`StateXref`). */
  function MakeShef(d: Data, st: string, now: DateTime, asWritten: bool, xref: Dict<string, StateInfo>): (r: Result<Option<seq<string>>>)
    requires Valid(now)
    ensures StateName(xref, st).None? <==> r == Ok(None)
    ensures r.Ok? && r.value.Some? ==> |r.value.value| >= 1
    ensures r.Ok? && r.value.Some? ==> forall i :: 0 <= i < |r.value.value| ==>
      StartsWith(r.value.value[i], Header(StateName(xref, st).value, now))
      && EndsWith(r.value.value[i], Footer)
    ensures r.Ok? <==> StateName(xref, st).None? || SiteTexts(StateSites(d, st), asWritten).Ok?
    ensures r.Fail? ==> r.fault in {KeyError, IndexError, ValueError, TypeError}
  {
    match StateName(xref, st)
    case None => Ok(None)
    case Some(name) =>
      var texts :- SiteTexts(StateSites(d, st), asWritten);
      MessagesFramed(Header(name, now), Bodies(texts));
      Ok(Some(Messages(Header(name, now), Bodies(texts))))
  }

  /** Every message starts with the header and ends with the footer. */
  lemma MessagesFramed(header: string, bodies: seq<seq<string>>)
    ensures var msgs := Messages(header, bodies);
      forall i :: 0 <= i < |msgs| ==> StartsWith(msgs[i], header) && EndsWith(msgs[i], Footer)
  {
    var msgs := Messages(header, bodies);
    forall i | 0 <= i < |msgs|
      ensures StartsWith(msgs[i], header) && EndsWith(msgs[i], Footer)
    {
      Enclosed(header, Concat(bodies[i]), Footer);
    }
  }

  /** The bodies' texts one after the other are the site texts one after
      the other, and no body holds more than 61 sites. */
  lemma BodiesConcat(texts: seq<string>)
    ensures Concat(Concats(Bodies(texts))) == Concat(texts)
    ensures forall i :: 0 <= i < |Bodies(texts)| ==> |Bodies(texts)[i]| <= MaxLocs + 1
  {
    BodiesShape(texts);
    ConcatFlatten(Bodies(texts));
  }

  /** Every site of the state is written exactly once, in the stored
      order: message `i` is the header, the texts of body `i` and the
      footer, and the bodies one after the other are the site texts one
      after the other; each body holds at most 61 sites. */
  lemma MessagesHoldSites(d: Data, st: string, now: DateTime, asWritten: bool)
    requires Valid(now)
    requires MakeShef(d, st, now, asWritten, StateXref).Ok? && MakeShef(d, st, now, asWritten, StateXref).value.Some?
    ensures var msgs, texts := MakeShef(d, st, now, asWritten, StateXref).value.value, SiteTexts(StateSites(d, st), asWritten).value;
      && |msgs| == |Bodies(texts)|
      && (forall i :: 0 <= i < |msgs| ==>
            msgs[i] == Header(StateName(StateXref, st).value, now) + Concats(Bodies(texts))[i] + Footer)
      && Concat(Concats(Bodies(texts))) == Concat(texts)
      && (forall i :: 0 <= i < |msgs| ==> |Bodies(texts)[i]| <= MaxLocs + 1)
  {
    MakeShefMessages(d, st, now, asWritten);
    MessagesOf(Header(StateName(StateXref, st).value, now), SiteTexts(StateSites(d, st), asWritten).value);
  }

  lemma MessagesOf(header: string, texts: seq<string>)
    ensures var msgs := Messages(header, Bodies(texts));
      && |msgs| == |Bodies(texts)|
      && (forall i :: 0 <= i < |msgs| ==> msgs[i] == header + Concats(Bodies(texts))[i] + Footer)
      && Concat(Concats(Bodies(texts))) == Concat(texts)
      && (forall i :: 0 <= i < |msgs| ==> |Bodies(texts)[i]| <= MaxLocs + 1)
  {
    BodiesConcat(texts);
  }

  lemma MakeShefMessages(d: Data, st: string, now: DateTime, asWritten: bool)
    requires Valid(now)
    requires MakeShef(d, st, now, asWritten, StateXref).Ok? && MakeShef(d, st, now, asWritten, StateXref).value.Some?
    ensures SiteTexts(StateSites(d, st), asWritten).Ok?
    ensures MakeShef(d, st, now, asWritten, StateXref).value.value
      == Messages(Header(StateName(StateXref, st).value, now), Bodies(SiteTexts(StateSites(d, st), asWritten).value))
  {
  }
}
