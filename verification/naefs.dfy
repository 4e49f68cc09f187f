/** The LMRFC NAEFS forecast loader (`getLMRFC_NAEFS.py`): the newest
    28-day PI-XML export listed on the RFC's file page is chosen, one
    creation date is taken from the file's headers, and each CWMS series
    with an NWS alias is filled from the first PI series for that station
    and parameter, versioned at noon of the creation date.

    The page fetch, the download and decompression, the XML parsing, the
    group queries and the store are outside the model: the page is its list
    of link targets, the file its list of PI series, the groups a list of
    rows.
 */
module Naefs {
  import opened Wrappers
  import opened PyText
  import opened Numbers
  import opened Civil
  import opened Strptime

  // ---------------------------------------------------------------------
  // Choosing the newest export
  // ---------------------------------------------------------------------

  /** The text every NAEFS export's file name carries. */
  const Query: string := "HECRAS_NAEFS_pixml_export"

  const PageUrl: string := "https://tgftp.nws.noaa.gov/data/rfc/lmrfc/misc/"

  /** The links the page selector keeps: `href*=` the query text, and the
      name ending in ".gz". */
  predicate IsCandidate(href: string) {
    Contains(href, Query) && EndsWith(href, ".gz")
  }

  function Candidates(hrefs: seq<string>): (r: seq<string>)
    ensures forall h :: h in r <==> h in hrefs && IsCandidate(h)
    ensures |r| <= |hrefs|
    decreases |hrefs|
  {
    if |hrefs| == 0 then []
    else (if IsCandidate(hrefs[0]) then [hrefs[0]] else []) + Candidates(hrefs[1..])
  }

  /** `extract_number_from_href`: `int()` of the fourteen characters that
      start one past the end of the query text. */
  function HrefKey(href: string): (r: Result<int>)
    ensures r.Fail? ==> r.fault == ValueError
  {
    KeyAfter(href, Query)
  }

  function KeyAfter(href: string, q: string): (r: Result<int>)
    ensures r.Fail? ==> r.fault == ValueError
  {
    var start := Find(href, q) + |q|;
    Need(ParseInt(Slice(href, start + 1, start + 15)), ValueError)
  }

  /** A name with a fourteen-digit stamp after the query text and one
      separator has that stamp as its key. */
  lemma HrefKeyOfStamp(pre: string, sep: char, stamp: string, rest: string)
    requires 'H' !in pre
    requires |stamp| == 14 && IsDigits(stamp)
    ensures HrefKey(pre + Query + [sep] + stamp + rest) == Ok(DigitsValue(stamp))
  {
    KeyAfterStamp(pre, Query, sep, stamp, rest);
  }

  lemma KeyAfterStamp(pre: string, q: string, sep: char, stamp: string, rest: string)
    requires |q| > 0 && q[0] !in pre
    requires |stamp| == 14 && IsDigits(stamp)
    ensures KeyAfter(pre + q + [sep] + stamp + rest, q) == Ok(DigitsValue(stamp))
  {
    var head := pre + q + [sep];
    var href := head + (stamp + rest);
    assert href == pre + q + [sep] + stamp + rest;
    assert Find(href, q) == |pre| by {
      assert href == pre + q + ([sep] + stamp + rest);
      FindAfterPrefix(pre, q, [sep] + stamp + rest);
    }
    var start := |pre| + |q|;
    assert Slice(href, start + 1, start + 15) == stamp by {
      assert |head| == start + 1;
      assert href[|head|..|head| + |stamp|] == stamp;
    }
    DigitsInt(stamp);
  }

  /** The index of the first largest key, as Python's `max` keeps the
      first of equal maxima. */
  function FirstMax(keys: seq<int>): (i: nat)
    requires |keys| > 0
    ensures i < |keys|
    ensures forall j :: 0 <= j < |keys| ==> keys[j] <= keys[i]
    ensures forall j :: 0 <= j < i ==> keys[j] < keys[i]
    decreases |keys|
  {
    if |keys| == 1 then 0
    else
      var init := keys[..|keys| - 1];
      var i := FirstMax(init);
      assert forall j :: 0 <= j < |keys| - 1 ==> init[j] == keys[j];
      if keys[|keys| - 1] > keys[i] then |keys| - 1 else i
  }

  /** The position of the newest export among the candidates: the first
      one with the largest key; the key's error when some key cannot be
      read. */
  function Newest(cands: seq<string>, key: string -> Result<int>): (r: Result<nat>)
    requires |cands| > 0
    ensures r.Ok? <==> forall j :: 0 <= j < |cands| ==> key(cands[j]).Ok?
    ensures r.Ok? ==> r.value < |cands|
    ensures r.Ok? ==> forall j :: 0 <= j < |cands| ==> key(cands[j]).value <= key(cands[r.value]).value
    ensures r.Ok? ==> forall j :: 0 <= j < r.value ==> key(cands[j]).value < key(cands[r.value]).value
    ensures r.Fail? ==> exists j :: 0 <= j < |cands| && key(cands[j]) == Fail(r.fault)
  {
    var keys :- MapAll(cands, key);
    Ok(FirstMax(keys))
  }

  /** The newest export by `key`: `sys.exit(1)` when the page lists no
      candidate, the key's error when one cannot be read. */
  function PickBy(hrefs: seq<string>, key: string -> Result<int>): (r: Result<string>)
    ensures |Candidates(hrefs)| == 0 ==> r == Fail(SystemExit)
    ensures r.Ok? ==> r.value in hrefs && IsCandidate(r.value) && key(r.value).Ok?
    ensures r.Ok? ==> forall h :: h in hrefs && IsCandidate(h) ==>
      key(h).Ok? && key(h).value <= key(r.value).value
    ensures r.Fail? && |Candidates(hrefs)| > 0 ==>
      exists h :: h in hrefs && IsCandidate(h) && key(h) == Fail(r.fault)
  {
    var cands := Candidates(hrefs);
    if |cands| == 0 then Fail(SystemExit)
    else
      var i :- Newest(cands, key);
      assert forall h :: h in cands ==> exists j :: 0 <= j < |cands| && cands[j] == h;
      Ok(cands[i])
  }

  /** The export the loader downloads: the candidate with the largest
      stamp (`PickBy` with `HrefKey`). */
  function Latest(hrefs: seq<string>): (r: Result<string>)
    ensures r == Fail(SystemExit) <==> |Candidates(hrefs)| == 0
    ensures r.Ok? ==> r.value in hrefs && IsCandidate(r.value)
    ensures r.Fail? && r.fault != SystemExit ==> r.fault == ValueError
  {
    PickBy(hrefs, HrefKey)
  }

  /** The URL the chosen export is downloaded from. */
  function FileUrl(href: string): (r: string)
    ensures StartsWith(r, PageUrl) && r[|PageUrl|..] == href
  {
    var r := PageUrl + href;
    assert r[..|PageUrl|] == PageUrl;
    r
  }

  // ---------------------------------------------------------------------
  // PI series
  // ---------------------------------------------------------------------

  /** The header elements the loader reads; None when the element is
      absent. */
  datatype Header = Header(locationId: Option<string>, parameterId: Option<string>, units: Option<string>,
                           missVal: Option<string>, creationDate: Option<string>, creationTime: Option<string>)

  /** One `pi:event`: its date, time and value attributes. */
  datatype Event = Event(date: string, time: string, value: string)

  datatype PiSeries = PiSeries(header: Header, events: seq<Event>)

  /** A stored value: the event's text, or the CWMS missing value. */
  datatype Value = Text(text: string) | MissingValue

  const MissingQuality: int := 5

  /** One stored point: time as `%Y-%m-%d %H:%M:%S+0000`, value, quality. */
  datatype Point = Point(dateTime: string, value: Value, quality: int)

  /** An event as stored: the missing value with quality 5 when the value
      is the series' missing marker, otherwise the value with quality 0;
      the time read as UTC. */
  function EventPoint(e: Event, missVal: string): (r: Result<Point>)
    ensures r.Ok? <==> ParseIso(e.date + " " + e.time, ' ').Ok?
    ensures r.Fail? ==> r.fault == ValueError
    ensures r.Ok? ==> (r.value.quality == MissingQuality <==> e.value == missVal)
    ensures r.Ok? ==> (r.value.value == MissingValue <==> e.value == missVal)
    ensures r.Ok? && e.value != missVal ==> r.value == Point(r.value.dateTime, Text(e.value), 0)
  {
    var t :- ParseIso(e.date + " " + e.time, ' ');
    var stamp := FormatIso(t, ' ') + "+0000";
    if e.value == missVal then Ok(Point(stamp, MissingValue, MissingQuality))
    else Ok(Point(stamp, Text(e.value), 0))
  }

  /** An event's time is written back as it was read, marked UTC. */
  lemma EventTimeReadBack(t: DateTime, value: string, missVal: string)
    requires Valid(t) && 1 <= t.year < 10000
    ensures var s := FormatIso(t, ' ');
      EventPoint(Event(s[..10], s[11..], value), missVal).Ok?
      && EventPoint(Event(s[..10], s[11..], value), missVal).value.dateTime == s + "+0000"
  {
    var s := FormatIso(t, ' ');
    assert s[..10] + " " + s[11..] == s;
    IsoRoundTrip(t, ' ');
  }

  /** The version date: the creation date at 12:00:00, in UTC. */
  function VersionDate(creationDate: string, creationTime: string): (r: Result<string>)
    ensures r.Ok? <==> ParseIso(creationDate + " " + creationTime, ' ').Ok?
    ensures r.Fail? ==> r.fault == ValueError
    ensures r.Ok? ==> r.value == NoonOf(ParseIso(creationDate + " " + creationTime, ' ').value)
  {
    var t :- ParseIso(creationDate + " " + creationTime, ' ');
    Ok(NoonOf(t))
  }

  /** The day of t at noon UTC, as `%Y-%m-%dT%H:%M:%S%z` writes it. */
  function NoonOf(t: DateTime): (r: string)
    requires Valid(t) && 1 <= t.year < 10000
    ensures r == FormatDate(DateOf(t)) + "T12:00:00+0000"
  {
    var noon := DateTime(t.year, t.month, t.day, 12, 0, 0);
    NoonText(noon);
    FormatIso(noon, 'T') + "+0000"
  }

  /** Noon is written `T12:00:00` after the date. */
  lemma NoonText(noon: DateTime)
    requires Valid(noon) && 0 <= noon.year < 10000
    requires noon.hour == 12 && noon.minute == 0 && noon.second == 0
    ensures FormatIso(noon, 'T') == FormatDate(DateOf(noon)) + "T12:00:00"
  {
    NoonDigits();
    assert FormatClock(noon) == "12:00:00";
  }

  lemma NoonDigits()
    ensures Pow10(2) == 100 && Digits(12, 2) == "12" && Digits(0, 2) == "00"
  {
    SmallPowers();
  }

  /** A creation stamp as the forecast header writes it, split into its
      date and time elements, reads back as itself. */
  lemma StampReadBack(t: DateTime)
    requires Valid(t) && 1 <= t.year < 10000
    ensures var s := FormatIso(t, ' ');
      ParseIso(s[..10] + " " + s[11..], ' ') == Ok(t)
  {
    var s := FormatIso(t, ' ');
    IsoDateOf(t, ' ');
    assert s[..10] + " " + s[11..] == s;
    IsoRoundTrip(t, ' ');
  }

  /** Only the creation day counts: every creation time of a day, written
      as the forecast header writes it, gives that day at noon UTC. */
  lemma VersionDateOfDay(t: DateTime)
    requires Valid(t) && 1 <= t.year < 10000
    ensures var s := FormatIso(t, ' ');
      VersionDate(s[..10], s[11..]) == Ok(FormatDate(DateOf(t)) + "T12:00:00+0000")
  {
    StampReadBack(t);
  }

  /** The version date as the loader computes it on a host whose local
      zone is `hostOffset` seconds east of UTC: `astimezone` takes the naive
      noon as local time, so the UTC time written is noon less the offset,
      possibly on the day before or after. */
  function VersionDateOnHost(creationDate: string, creationTime: string, hostOffset: int): (r: Result<string>)
    requires -86400 < hostOffset < 86400
    ensures ParseIso(creationDate + " " + creationTime, ' ').Fail? ==> r == Fail(ValueError)
    ensures ParseIso(creationDate + " " + creationTime, ' ').Ok? ==>
      r == HostNoonOf(ParseIso(creationDate + " " + creationTime, ' ').value, hostOffset)
  {
    var t :- ParseIso(creationDate + " " + creationTime, ' ');
    HostNoonOf(t, hostOffset)
  }

  /** The day of t at local noon on a host `hostOffset` seconds east of
      UTC, converted to UTC and written with `%z`; a conversion past year
      9999 overflows. */
  function HostNoonOf(t: DateTime, hostOffset: int): (r: Result<string>)
    requires Valid(t) && -86400 < hostOffset < 86400
    ensures r.Fail? ==> r.fault == OverflowError
    ensures r.Ok? ==> var noon := DateTime(t.year, t.month, t.day, 12, 0, 0);
      |r.value| == 24 && r.value[19..] == "+0000" && ParseIso(r.value[..19], 'T').Ok?
      && EpochSeconds(ParseIso(r.value[..19], 'T').value) == EpochSeconds(noon) - hostOffset
  {
    var noon := DateTime(t.year, t.month, t.day, 12, 0, 0);
    var utc := ShiftSeconds(noon, -hostOffset);
    if 1 <= utc.year < 10000 then
      var text := FormatIso(utc, 'T');
      IsoRoundTrip(utc, 'T');
      assert (text + "+0000")[..19] == text;
      Ok(text + "+0000")
    else Fail(OverflowError)
  }

  /** On a host that keeps UTC the loader writes the intended version
      date. */
  lemma UtcHostVersionDate(creationDate: string, creationTime: string)
    ensures VersionDateOnHost(creationDate, creationTime, 0) == VersionDate(creationDate, creationTime)
  {
    var p := ParseIso(creationDate + " " + creationTime, ' ');
    if p.Ok? {
      UtcHostNoon(p.value);
    }
  }

  lemma UtcHostNoon(t: DateTime)
    requires Valid(t) && 1 <= t.year < 10000
    ensures HostNoonOf(t, 0) == Ok(NoonOf(t))
  {
    var noon := DateTime(t.year, t.month, t.day, 12, 0, 0);
    assert ShiftSeconds(noon, 0) == noon;
  }

  /** On a host six hours west of UTC (US Central Standard Time) every
      creation time of a day gives that day at 18:00 UTC, not noon. */
  lemma CentralHostVersionDate(t: DateTime)
    requires Valid(t) && 1 <= t.year < 10000
    ensures var s := FormatIso(t, ' ');
      var late := DateTime(t.year, t.month, t.day, 18, 0, 0);
      VersionDateOnHost(s[..10], s[11..], -21600) == Ok(FormatIso(late, 'T') + "+0000")
      && VersionDateOnHost(s[..10], s[11..], -21600) != VersionDate(s[..10], s[11..])
  {
    StampReadBack(t);
    CentralHostNoon(t);
  }

  lemma CentralHostNoon(t: DateTime)
    requires Valid(t) && 1 <= t.year < 10000
    ensures var late := DateTime(t.year, t.month, t.day, 18, 0, 0);
      HostNoonOf(t, -21600) == Ok(FormatIso(late, 'T') + "+0000") && FormatIso(late, 'T') + "+0000" != NoonOf(t)
  {
    var noon := DateTime(t.year, t.month, t.day, 12, 0, 0);
    var late := DateTime(t.year, t.month, t.day, 18, 0, 0);
    assert ShiftSeconds(noon, 21600) == late;
    var a, b := FormatIso(late, 'T'), FormatIso(noon, 'T');
    IsoTimeOf(late, 'T');
    IsoTimeOf(noon, 'T');
    NoonText(noon);
  }

  // ---------------------------------------------------------------------
  // One row of the location groups
  // ---------------------------------------------------------------------

  /** A CWMS series with its NWS station. */
  datatype LocRow = LocRow(nwsId: string, locationId: string, param: string, tsId: string)

  /** What one row stores. */
  datatype Stored = Stored(tsId: string, units: string, points: seq<Point>, versionDate: string)

  /** The series' station and parameter, read from its header; an absent
      element raises AttributeError. */
  function Key(h: Header): (r: Result<(string, string)>)
    ensures r.Ok? <==> h.locationId.Some? && h.parameterId.Some? && h.units.Some? && h.missVal.Some?
    ensures r.Ok? ==> r.value == (h.locationId.value, h.parameterId.value)
    ensures r.Fail? ==> r.fault == AttributeError
  {
    if h.locationId.Some? && h.parameterId.Some? && h.units.Some? && h.missVal.Some? then
      Ok((h.locationId.value, h.parameterId.value))
    else Fail(AttributeError)
  }

  /** The series is the row's: its station and parameter are the row's,
      upper-cased. */
  predicate Matches(row: LocRow, h: Header) {
    Key(h) == Ok((Upper(row.nwsId), Upper(row.param)))
  }

  /** The series is read and skipped. */
  predicate Passes(row: LocRow, h: Header) {
    Key(h).Ok? && !Matches(row, h)
  }

  /** The series a row is filled from: `Ok(Some(k))` for the first series
      whose station and parameter equal the row's, upper-cased; `Ok(None)`
      when none does (the warning). Headers are read up to the match. */
  function FindSeries(row: LocRow, series: seq<PiSeries>): (r: Result<Option<nat>>)
    ensures r.Ok? && r.value.Some? ==> r.value.value < |series| && Matches(row, series[r.value.value].header)
    ensures r.Ok? && r.value.Some? ==> forall j :: 0 <= j < r.value.value ==> Passes(row, series[j].header)
    ensures r == Ok(None) <==> forall j :: 0 <= j < |series| ==> Passes(row, series[j].header)
    ensures r.Fail? ==> r.fault == AttributeError
    decreases |series|
  {
    if |series| == 0 then Ok(None)
    else
      var k :- Key(series[0].header);
      if Matches(row, series[0].header) then Ok(Some(0))
      else
        var rest :- FindSeries(row, series[1..]);
        assert forall j :: 1 <= j < |series| ==> series[1..][j - 1] == series[j];
        match rest
        case None => Ok(None)
        case Some(i) => Ok(Some(i + 1))
  }

  /** Series after the match are never read. */
  lemma {:induction false} LaterSeriesIgnored(row: LocRow, series: seq<PiSeries>, later: seq<PiSeries>)
    requires FindSeries(row, series).Ok? && FindSeries(row, series).value.Some?
    ensures FindSeries(row, series + later) == FindSeries(row, series)
    decreases |series|
  {
    var s := series + later;
    assert s[0] == series[0];
    if !Matches(row, series[0].header) {
      assert s[1..] == series[1..] + later;
      assert FindSeries(row, series[1..]).Ok? && FindSeries(row, series[1..]).value.Some?;
      LaterSeriesIgnored(row, series[1..], later);
    }
  }

  /** The outcome of one row: what was stored, and whether the warning
      was logged. */
  datatype RowOutcome = RowOutcome(stored: Option<Stored>, warned: bool)

  /** `load_NAEFS_data`: with no series at all the warning test reads an
      unbound name. */
  function LoadRow(row: LocRow, series: seq<PiSeries>, creationDate: string, creationTime: string): (r: Result<RowOutcome>)
    ensures |series| == 0 ==> r == Fail(UnboundName)
    ensures r.Ok? ==> (r.value.warned <==> r.value.stored.None?)
    ensures r.Ok? && r.value.stored.Some? ==>
      && FindSeries(row, series).Ok? && FindSeries(row, series).value.Some?
      && StoredFrom(row, series[FindSeries(row, series).value.value], creationDate, creationTime, r.value.stored.value)
  {
    if |series| == 0 then Fail(UnboundName)
    else
      var found :- FindSeries(row, series);
      match found
      case None => Ok(RowOutcome(None, true))
      case Some(i) =>
        var stored :- StoreSeries(row, series[i], creationDate, creationTime);
        Ok(RowOutcome(Some(stored), false))
  }

  /** What a matched series stores: under the row's series, in the
      series' units, with the version date of the forecast, one point per
      event in order. */
  predicate StoredFrom(row: LocRow, s: PiSeries, creationDate: string, creationTime: string, st: Stored)
  {
    && s.header.units.Some? && s.header.missVal.Some?
    && st.tsId == row.tsId && st.units == s.header.units.value
    && VersionDate(creationDate, creationTime) == Ok(st.versionDate)
    && |st.points| == |s.events|
    && forall k :: 0 <= k < |s.events| ==> EventPoint(s.events[k], s.header.missVal.value) == Ok(st.points[k])
  }

  /** The series found for a row, stored. */
  function StoreSeries(row: LocRow, s: PiSeries, creationDate: string, creationTime: string): (r: Result<Stored>)
    requires s.header.units.Some? && s.header.missVal.Some?
    ensures r.Ok? ==> StoredFrom(row, s, creationDate, creationTime, r.value)
    ensures VersionDate(creationDate, creationTime).Fail? ==> r == Fail(ValueError)
  {
    var version :- VersionDate(creationDate, creationTime);
    var points :- MapAll(s.events, e => EventPoint(e, s.header.missVal.value));
    Ok(Stored(row.tsId, s.header.units.value, points, version))
  }

  // ---------------------------------------------------------------------
  // The run
  // ---------------------------------------------------------------------

  predicate HasStamp(h: Header) {
    h.creationDate.Some? && h.creationTime.Some?
  }

  /** The header has both creation elements, with these values. */
  predicate Stamped(h: Header, stamp: (string, string)) {
    h.creationDate == Some(stamp.0) && h.creationTime == Some(stamp.1)
  }

  /** The creation date and time of the first header that has both; the
      later log line reads an unbound name when none has. */
  function CreationStamp(series: seq<PiSeries>): (r: Result<(string, string)>)
    ensures r.Fail? <==> forall j :: 0 <= j < |series| ==> !HasStamp(series[j].header)
    ensures r.Fail? ==> r.fault == UnboundName
    ensures r.Ok? ==> exists i :: (0 <= i < |series| && Stamped(series[i].header, r.value)
      && forall j :: 0 <= j < i ==> !HasStamp(series[j].header))
    decreases |series|
  {
    if |series| == 0 then Fail(UnboundName)
    else
      var h := series[0].header;
      if HasStamp(h) then Ok((h.creationDate.value, h.creationTime.value))
      else
        var r := CreationStamp(series[1..]);
        assert forall j :: 1 <= j < |series| ==> series[1..][j - 1] == series[j];
        r
  }

  /** The rows in order; the first uncaught exception ends the run. */
  function LoadRows(rows: seq<LocRow>, series: seq<PiSeries>, creationDate: string, creationTime: string): (r: Result<seq<RowOutcome>>)
    ensures r.Ok? <==> forall k :: 0 <= k < |rows| ==> LoadRow(rows[k], series, creationDate, creationTime).Ok?
    ensures r.Ok? ==> |r.value| == |rows|
    ensures r.Ok? ==> forall k :: 0 <= k < |rows| ==> r.value[k] == LoadRow(rows[k], series, creationDate, creationTime).value
  {
    MapAll(rows, row => LoadRow(row, series, creationDate, creationTime))
  }

  /** `main` after the download: the creation stamp, then every row in
      order. */
  function Run(hrefs: seq<string>, series: seq<PiSeries>, rows: seq<LocRow>): (r: Result<(string, seq<RowOutcome>)>)
    ensures |Candidates(hrefs)| == 0 ==> r == Fail(SystemExit)
    ensures r.Ok? ==> StartsWith(r.value.0, PageUrl) && IsCandidate(r.value.0[|PageUrl|..])
    ensures r.Ok? ==> CreationStamp(series).Ok? && |r.value.1| == |rows|
    ensures r.Ok? ==> forall k :: 0 <= k < |rows| ==>
      Ok(r.value.1[k]) == LoadRow(rows[k], series, CreationStamp(series).value.0, CreationStamp(series).value.1)
  {
    var href :- Latest(hrefs);
    var stamp :- CreationStamp(series);
    var outcomes :- LoadRows(rows, series, stamp.0, stamp.1);
    Ok((FileUrl(href), outcomes))
  }
}
