/** The ACIS daily loader (`getNwsAcis.py`): the rows ACIS returns for a
    station (a date, then one cell per element) become one CWMS series per
    element, after the cells' flags are cleaned.

    The location groups, the HTTP request and the store are outside the
    model: it receives each location's `data` array (None when the response
    has none) and returns the series the loader would store, and the
    locations it reports as failed.
 */
module NwsAcis {
  import opened Wrappers
  import opened PyText
  import opened Civil

  // ---------------------------------------------------------------------
  // Elements
  // ---------------------------------------------------------------------

  /** The ACIS elements requested, in order. */
  const Elements: seq<string> := ["pcpn", "snow", "snwd", "maxt", "mint", "obst"]

  /** The frame's columns: the date, then the elements. */
  const Columns: seq<string> := ["date-time"] + Elements

  const Version: string := "Raw-NWS-ACIS"

  /** Element to the parameter part of its time-series id. */
  const TsMapping: map<string, string> := map[
    "pcpn" := "Precip.Total.~1Day.1Day." + Version,
    "snow" := "Depth-Inc-Snow.Total.~1Day.1Day." + Version,
    "snwd" := "Depth-Snow.Total.~1Week.1Month." + Version,
    "maxt" := "Temp-Air.Max.~1Day.1Day." + Version,
    "mint" := "Temp-Air.Min.~1Day.1Day." + Version,
    "obst" := "Temp-Air.Inst.~1Day.0." + Version]

  const UnitMapping: map<string, string> := map[
    "pcpn" := "in", "snow" := "in", "snwd" := "in",
    "maxt" := "F", "mint" := "F", "obst" := "F"]

  /** The element columns the store loop walks: `cols[1:-1]` as written,
      which also drops the last element; every element column when
      corrected. */
  function StoredColumns(asWritten: bool): (r: seq<nat>)
    ensures forall k :: 0 <= k < |r| ==> 1 <= r[k] < |Columns|
    ensures forall k :: 0 <= k < |r| ==> r[k] == k + 1
  {
    if asWritten then [1, 2, 3, 4, 5] else [1, 2, 3, 4, 5, 6]
  }

  /** As written the observed temperature is never stored; corrected,
      every element is, each under its own mapping. */
  lemma StoredElements()
    ensures forall k :: 0 <= k < |StoredColumns(true)| ==> Columns[StoredColumns(true)[k]] != "obst"
    ensures forall e :: e in Elements ==>
      exists k :: 0 <= k < |StoredColumns(false)| && Columns[StoredColumns(false)[k]] == e
    ensures forall k :: 0 <= k < |StoredColumns(false)| ==>
      Columns[StoredColumns(false)[k]] in TsMapping && Columns[StoredColumns(false)[k]] in UnitMapping
  {
    var c := StoredColumns(false);
    assert Columns == ["date-time", "pcpn", "snow", "snwd", "maxt", "mint", "obst"];
    assert forall e :: e in Elements ==>
      (e == Columns[c[0]] || e == Columns[c[1]] || e == Columns[c[2]]
       || e == Columns[c[3]] || e == Columns[c[4]] || e == Columns[c[5]]);
  }

  // ---------------------------------------------------------------------
  // Cell cleaning
  // ---------------------------------------------------------------------

  /** `str(missingValueCwms)`: the CWMS missing value, an int, in full. */
  const MissingText: string := "-" + MissingDigits

  const MissingDigits: string := "340282346638528859811704183484516925440"

  /** `str(0.001)`: the value a trace is stored as. */
  const TraceText: string := "0.001"

  /** The characters the screening keeps: digits and '.', and, once
      corrected, the minus sign. */
  predicate Keeps(c: char, asWritten: bool) {
    ('0' <= c <= '9') || c == '.' || (!asWritten && c == '-')
  }

  /** `replace(r'[^0-9\.]', '', regex=True)`: removes every other
      character; the corrected pattern also keeps '-'. */
  function Screen(s: string, asWritten: bool): (r: string)
    ensures |r| <= |s|
    ensures forall i :: 0 <= i < |r| ==> Keeps(r[i], asWritten)
    ensures (forall i :: 0 <= i < |s| ==> Keeps(s[i], asWritten)) ==> r == s
    decreases |s|
  {
    if |s| == 0 then ""
    else
      var rest := Screen(s[1..], asWritten);
      if Keeps(s[0], asWritten) then [s[0]] + rest else rest
  }

  /** Screening text in two pieces screens each piece. */
  lemma {:induction false} ScreenAppend(a: string, b: string, asWritten: bool)
    ensures Screen(a + b, asWritten) == Screen(a, asWritten) + Screen(b, asWritten)
    decreases |a|
  {
    if |a| > 0 {
      assert (a + b)[1..] == a[1..] + b;
      assert (a + b)[0] == a[0];
      ScreenAppend(a[1..], b, asWritten);
    } else {
      assert a + b == b;
    }
  }

  /** Screening twice is screening once. */
  lemma ScreenIdempotent(s: string, asWritten: bool)
    ensures Screen(Screen(s, asWritten), asWritten) == Screen(s, asWritten)
  {
  }

  /** One cell of an element column: 'M' (missing) drops the day; 'T'
      (trace) becomes 0.001, 'S' (multi-day total pending) the CWMS
      missing value; flag letters are then screened out. */
  function CleanCell(v: string, asWritten: bool): (r: Option<string>)
    ensures r.None? <==> v == "M"
    ensures v == "T" ==> r == Some(TraceText)
    ensures r.Some? ==> forall i :: 0 <= i < |r.value| ==> Keeps(r.value[i], asWritten)
    ensures v != "M" && v != "S" && (forall i :: 0 <= i < |v| ==> Keeps(v[i], asWritten)) ==> r == Some(v)
  {
    if v == "M" then None
    else
      var w := if v == "T" then TraceText else if v == "S" then MissingText else v;
      Some(Screen(w, asWritten))
  }

  /** As written the sign is screened out: a temperature below zero is
      stored as its magnitude, and (by `PendingIsMissing`) a pending
      multi-day total as a large positive number instead of the missing
      value. */
  lemma SignScreenedOut(digits: string)
    requires |digits| > 0 && forall i :: 0 <= i < |digits| ==> '0' <= digits[i] <= '9'
    ensures CleanCell("-" + digits, true) == Some(digits)
  {
    ScreenAppend("-", digits, true);
    assert |"-" + digits| >= 2;
    assert Screen("-", true) == "";
  }

  /** As written a pending multi-day total is stored as the magnitude of
      the missing value. */
  lemma PendingUnsigned()
    ensures CleanCell("S", true) == Some(MissingDigits) && MissingDigits != MissingText
  {
    assert forall i :: 0 <= i < |MissingDigits| ==> '0' <= MissingDigits[i] <= '9';
    SignScreenedOut(MissingDigits);
  }

  /** Corrected, negative readings keep their sign, and a flag letter
      after a value is still screened out. */
  lemma SignKept(digits: string, flag: char)
    requires |digits| > 0 && forall i :: 0 <= i < |digits| ==> '0' <= digits[i] <= '9'
    requires 'A' <= flag <= 'Z'
    ensures CleanCell("-" + digits, false) == Some("-" + digits)
    ensures CleanCell(digits + [flag], false) == Some(digits)
  {
    assert |"-" + digits| >= 2 && |digits + [flag]| >= 2;
    assert forall i :: 0 <= i < |"-" + digits| ==> Keeps(("-" + digits)[i], false);
    ScreenAppend(digits, [flag], false);
    assert [flag][1..] == [];
    assert Screen([flag], false) == "";
    assert forall i :: 0 <= i < |digits| ==> Keeps(digits[i], false);
    assert Screen(digits, false) == digits;
    assert Screen(digits + [flag], false) == digits + "" == digits;
    assert digits + [flag] != "M" && digits + [flag] != "T" && digits + [flag] != "S";
  }

  // ---------------------------------------------------------------------
  // Series
  // ---------------------------------------------------------------------

  /** A stored point: epoch seconds, the value text, the quality code. */
  datatype Point = Point(time: int, value: string, quality: int)

  datatype Series = Series(tsId: string, units: string, points: seq<Point>)

  /** `pd.to_datetime(date) + Timedelta(hours=hour_offset)` in epoch
      seconds. */
  function RowTime(date: string, hourOffset: int): (r: Result<int>)
    ensures r.Ok? <==> ParseDate(date).Ok?
    ensures r.Fail? ==> r.fault == ValueError
  {
    var d :- ParseDate(date);
    Ok(EpochSeconds(DateTime(d.y, d.m, d.d, 0, 0, 0)) + hourOffset * 3600)
  }

  /** Later dates give later times. */
  lemma RowTimeOrder(a: Date, b: Date, hourOffset: int)
    requires ValidDay(a) && ValidDay(b) && 1 <= a.y < 10000 && 1 <= b.y < 10000
    requires DayOf(a) < DayOf(b)
    ensures RowTime(FormatDate(a), hourOffset).Ok? && RowTime(FormatDate(b), hourOffset).Ok?
    ensures RowTime(FormatDate(a), hourOffset).value < RowTime(FormatDate(b), hourOffset).value
  {
    DateRoundTrip(a);
    DateRoundTrip(b);
  }

  /** The points of one element column: a day whose cell is 'M' is
      dropped, every other day keeps its cleaned value with quality 0. */
  function ColumnPoints(cells: seq<string>, times: seq<int>, asWritten: bool): (r: seq<Point>)
    requires |cells| == |times|
    ensures |r| <= |cells|
    ensures forall p :: p in r ==>
      exists k :: 0 <= k < |cells| && cells[k] != "M"
        && p == Point(times[k], CleanCell(cells[k], asWritten).value, 0)
    ensures forall k :: 0 <= k < |cells| && cells[k] != "M" ==>
      Point(times[k], CleanCell(cells[k], asWritten).value, 0) in r
    decreases |cells|
  {
    if |cells| == 0 then []
    else
      var rest := ColumnPoints(cells[1..], times[1..], asWritten);
      assert forall k :: 1 <= k < |cells| ==> cells[1..][k - 1] == cells[k] && times[1..][k - 1] == times[k];
      match CleanCell(cells[0], asWritten)
      case None => rest
      case Some(v) => [Point(times[0], v, 0)] + rest
  }

  /** Points in strictly increasing time order. */
  predicate Ascending(ps: seq<Point>) {
    forall a, b :: 0 <= a < b < |ps| ==> ps[a].time < ps[b].time
  }

  lemma AscendingCons(p: Point, rest: seq<Point>)
    requires Ascending(rest)
    requires forall q :: q in rest ==> p.time < q.time
    ensures Ascending([p] + rest)
  {
    var r := [p] + rest;
    forall a, b | 0 <= a < b < |r|
      ensures r[a].time < r[b].time
    {
      assert r[b] == rest[b - 1];
      if a > 0 {
        assert r[a] == rest[a - 1];
      }
    }
  }

  /** Days in increasing order give points in increasing order. */
  lemma {:induction false} ColumnPointsOrdered(cells: seq<string>, times: seq<int>, asWritten: bool)
    requires |cells| == |times|
    requires forall a, b :: 0 <= a < b < |times| ==> times[a] < times[b]
    ensures Ascending(ColumnPoints(cells, times, asWritten))
    decreases |cells|
  {
    if |cells| > 0 {
      ColumnPointsOrdered(cells[1..], times[1..], asWritten);
      var rest := ColumnPoints(cells[1..], times[1..], asWritten);
      forall q | q in rest
        ensures times[0] < q.time
      {
        var k :| 0 <= k < |cells[1..]| && cells[1..][k] != "M"
          && q == Point(times[1..][k], CleanCell(cells[1..][k], asWritten).value, 0);
        assert times[1..][k] == times[k + 1];
      }
      var c := CleanCell(cells[0], asWritten);
      if c.Some? {
        AscendingCons(Point(times[0], c.value, 0), rest);
      }
    }
  }

  /** Every row has the date and one cell per element, as the frame
      constructor demands. */
  predicate WellShaped(rows: seq<seq<string>>) {
    forall k :: 0 <= k < |rows| ==> |rows[k]| == |Columns|
  }

  /** The cells of column `j`, one per row. */
  function Column(rows: seq<seq<string>>, j: nat): (r: seq<string>)
    requires WellShaped(rows) && j < |Columns|
    ensures |r| == |rows|
    ensures forall i :: 0 <= i < |rows| ==> r[i] == rows[i][j]
  {
    seq(|rows|, i requires 0 <= i < |rows| => rows[i][j])
  }

  /** The series of the element in column `j`: its id is the location
      followed by the element's mapping, its units the element's unit. */
  function ElementSeries(loc: string, rows: seq<seq<string>>, times: seq<int>, j: nat, asWritten: bool): (r: Series)
    requires WellShaped(rows) && |times| == |rows| && 1 <= j < |Columns|
    ensures Columns[j] in TsMapping && Columns[j] in UnitMapping
    ensures r.tsId == loc + "." + TsMapping[Columns[j]]
    ensures r.units == UnitMapping[Columns[j]]
    ensures |r.points| <= |rows|
    ensures forall p :: p in r.points ==> p.quality == 0
  {
    assert Columns[j] in Elements by {
      assert Columns[j] == Elements[j - 1];
    }
    Series(loc + "." + TsMapping[Columns[j]], UnitMapping[Columns[j]], ColumnPoints(Column(rows, j), times, asWritten))
  }

  /** The date of a row, shifted by the offset. */
  function RowStart(row: seq<string>, hourOffset: int): (r: Result<int>)
    ensures |row| > 0 ==> r == RowTime(row[0], hourOffset)
    ensures |row| == 0 ==> r == Fail(ValueError)
  {
    if |row| == 0 then Fail(ValueError) else RowTime(row[0], hourOffset)
  }

  /** One location: no `data` raises KeyError, a row of the wrong width or
      an unreadable date ValueError (the loader then reports the
      location); otherwise one series per stored element column. */
  function LocationSeries(loc: string, data: Option<seq<seq<string>>>, hourOffset: int, asWritten: bool): (r: Result<seq<Series>>)
    ensures data.None? ==> r == Fail(KeyError)
    ensures data.Some? && !WellShaped(data.value) ==> r == Fail(ValueError)
    ensures r.Ok? <==>
      (data.Some? && WellShaped(data.value)
       && forall i :: 0 <= i < |data.value| ==> ParseDate(data.value[i][0]).Ok?)
    ensures r.Ok? ==> |r.value| == |StoredColumns(asWritten)|
    ensures r.Ok? ==> forall k :: 0 <= k < |r.value| ==>
      var e := Columns[StoredColumns(asWritten)[k]];
      && e in TsMapping && e in UnitMapping
      && r.value[k].tsId == loc + "." + TsMapping[e]
      && r.value[k].units == UnitMapping[e]
      && |r.value[k].points| <= |data.value|
  {
    var rows :- Need(data, KeyError);
    if !WellShaped(rows) then Fail(ValueError)
    else
      var times :- MapAll(rows, row => RowStart(row, hourOffset));
      var cols := StoredColumns(asWritten);
      Ok(seq(|cols|, k requires 0 <= k < |cols| => ElementSeries(loc, rows, times, cols[k], asWritten)))
  }

  /** Only the observed temperature maps to an id of its length. */
  lemma ObservedIdLength(e: string)
    requires e in Elements && e != "obst"
    ensures e in TsMapping && |TsMapping[e]| != |TsMapping["obst"]|
  {
  }

  /** As written a location's observed temperature series is never
      produced; corrected, it is the last series. */
  lemma ObservedTemperature(loc: string, data: Option<seq<seq<string>>>, hourOffset: int)
    requires LocationSeries(loc, data, hourOffset, false).Ok?
    ensures LocationSeries(loc, data, hourOffset, true).Ok?
    ensures var written := LocationSeries(loc, data, hourOffset, true).value;
      forall k :: 0 <= k < |written| ==> written[k].tsId != loc + "." + TsMapping["obst"]
    ensures var fixed := LocationSeries(loc, data, hourOffset, false).value;
      |fixed| == 6 && fixed[5].tsId == loc + "." + TsMapping["obst"]
  {
    var written := LocationSeries(loc, data, hourOffset, true).value;
    forall k | 0 <= k < |written|
      ensures written[k].tsId != loc + "." + TsMapping["obst"]
    {
      var e := Columns[StoredColumns(true)[k]];
      assert e == Elements[k];
      ObservedIdLength(e);
    }
  }

  /** The whole loop: every location's series in order, and the locations
      that failed, in order. */
  function Run(stations: seq<(string, Option<seq<seq<string>>>)>, hourOffset: int, asWritten: bool): (r: (seq<Series>, seq<string>))
    ensures |r.1| <= |stations|
    ensures forall l :: l in r.1 <==>
      exists k :: 0 <= k < |stations| && stations[k].0 == l
        && LocationSeries(l, stations[k].1, hourOffset, asWritten).Fail?
    decreases |stations|
  {
    if |stations| == 0 then ([], [])
    else
      var rest := Run(stations[1..], hourOffset, asWritten);
      assert forall k :: 1 <= k < |stations| ==> stations[1..][k - 1] == stations[k];
      var (loc, data) := stations[0];
      match LocationSeries(loc, data, hourOffset, asWritten)
      case Fail(_) => (rest.0, [loc] + rest.1)
      case Ok(series) => (series + rest.0, rest.1)
  }
}
