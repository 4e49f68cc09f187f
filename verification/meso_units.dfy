/** Data values of the Mesonet encoder and its unit conversions
    (`toEnglish`, `toMetric`).

    A value is either the text read from the CSV file or a number the
    encoder computed and turned back into text with `str()`. Python's
    `float(str(x))` gives back `x` for every float, so the model keeps
    computed numbers as numbers. Arithmetic is exact (`real`); binary
    floating-point rounding is not modelled.
 */
module MesoUnits {
  import opened Wrappers
  import opened Numbers

  datatype Cell = Raw(text: string) | Num(x: real)

  /** The encoder's missing-value text. */
  const Missing: Cell := Raw("-9999")

  /** `float(v)`, None where Python raises ValueError. */
  function CellFloat(c: Cell): Option<real> {
    match c
    case Raw(s) => ParseFloat(s)
    case Num(x) => Some(x)
  }

  /** `bool(v)` and `len(v) > 0`: a computed number is never empty text. */
  predicate Filled(c: Cell) {
    c.Num? || c.text != ""
  }

  /** Both conversions give up with ('-9999', '') on text that is not a
      number and on the number -9999 itself. */
  predicate Unconvertible(v: Cell) {
    CellFloat(v).None? || CellFloat(v) == Some(-9999.0)
  }

  /** `toEnglish`: millimetres to inches, km/h to mph, Celsius to
      Fahrenheit; any other unit keeps the number and its unit. */
  function ToEnglish(v: Cell, fromU: string): (r: (Cell, string))
    ensures Unconvertible(v) <==> r == (Missing, "")
    ensures !Unconvertible(v) ==> r.0.Num? && var x, y := CellFloat(v).value, r.0.x;
      && (fromU == "mm" ==> r.1 == "in" && y * 25.4 == x)
      && (fromU == "kph" ==> r.1 == "mph" && y * 1.609 == x)
      && (fromU == "C" ==> r.1 == "F" && (y - 32.0) * 5.0 / 9.0 == x)
      && (fromU !in {"mm", "kph", "C"} ==> r.1 == fromU && y == x)
  {
    match CellFloat(v)
    case None => (Missing, "")
    case Some(x) =>
      if x == -9999.0 then (Missing, "")
      else if fromU == "mm" then (Num(x / 25.4), "in")
      else if fromU == "kph" then (Num(x / 1.609), "mph")
      else if fromU == "C" then (Num(x * (9.0 / 5.0) + 32.0), "F")
      else (Num(x), fromU)
  }

  /** `toMetric`: inches to millimetres, Fahrenheit to Celsius, langley/min
      to W/m^2; any other unit keeps the number and its unit. The second
      'in' branch (to metres) can never be taken. */
  function ToMetric(v: Cell, fromU: string): (r: (Cell, string))
    ensures Unconvertible(v) <==> r == (Missing, "")
    ensures !Unconvertible(v) ==> r.0.Num? && var x, y := CellFloat(v).value, r.0.x;
      && (fromU == "in" ==> r.1 == "mm" && y / 25.4 == x)
      && (fromU == "F" ==> r.1 == "C" && y * (9.0 / 5.0) + 32.0 == x)
      && (fromU == "langley/min" ==> r.1 == "W/m^2" && y / 697.3 == x)
      && (fromU !in {"in", "F", "langley/min"} ==> r.1 == fromU && y == x)
  {
    match CellFloat(v)
    case None => (Missing, "")
    case Some(x) =>
      if x == -9999.0 then (Missing, "")
      else if fromU == "in" then (Num(x * 25.4), "mm")
      else if fromU == "F" then (Num((x - 32.0) * 5.0 / 9.0), "C")
      else if fromU == "langley/min" then (Num(x * 697.3), "W/m^2")
      else (Num(x), fromU)
  }

  /** Millimetres and degrees Celsius survive a trip to English units and
      back, unless the English value happens to be the -9999 sentinel. */
  lemma EnglishThenMetric(x: real, u: string)
    requires u == "mm" || u == "C"
    requires x != -9999.0
    requires ToEnglish(Num(x), u).0 != Num(-9999.0)
    ensures ToMetric(ToEnglish(Num(x), u).0, ToEnglish(Num(x), u).1) == (Num(x), u)
  {
  }

  /** Inches and degrees Fahrenheit survive a trip to metric units and
      back, with the same proviso. */
  lemma MetricThenEnglish(x: real, u: string)
    requires u == "in" || u == "F"
    requires x != -9999.0
    requires ToMetric(Num(x), u).0 != Num(-9999.0)
    ensures ToEnglish(ToMetric(Num(x), u).0, ToMetric(Num(x), u).1) == (Num(x), u)
  {
  }

  /** Miles per hour have no metric conversion: a km/h value converted to
      English stays in mph. */
  lemma SpeedStaysEnglish(x: real)
    requires x != -9999.0
    requires ToEnglish(Num(x), "kph").0 != Num(-9999.0)
    ensures ToMetric(ToEnglish(Num(x), "kph").0, "mph") == ToEnglish(Num(x), "kph")
  {
  }

  /** A value that lands on the sentinel is lost on the way back. */
  lemma SentinelNotInverted()
    ensures ToEnglish(Num(-9999.0 * 25.4), "mm") == (Num(-9999.0), "in")
    ensures ToMetric(Num(-9999.0), "in") == (Missing, "")
  {
  }
}
