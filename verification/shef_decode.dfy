/** Decoding SHEF messages into CWMS time series (`Parse_E`, `Parse_A`,
    `Parse_B`, `process_shef`): each `.E` message is an evenly spaced series
    of values for one location and physical element, each `.A` message a
    single value; the criteria table maps (location, element, version) to
    the CWMS path and units the values are stored under.
 */
module ShefDecode {
  import opened Wrappers
  import opened PyText
  import opened Numbers
  import opened Civil
  import opened Strptime
  import opened CdaPost
  import opened ShefCrit
  import opened ShefTokenize

  // ---------------------------------------------------------------------
  // Time zones and times
  // ---------------------------------------------------------------------

  /** `NWSTZ2CDATZ`: SHEF zone codes to the names the offset table uses;
      `Z` is UTC and a two-letter code (`CS`, `CD`, ...) gains a `T`. */
  function NwsTzToCdaTz(tz: string): (r: string)
    ensures |r| != 2
    ensures |tz| == 2 ==> |r| == 3 && r[..2] == tz && r[2] == 'T'
    ensures |tz| != 2 && tz != "Z" ==> r == tz
  {
    var z := if tz == "Z" then "UTC" else tz;
    if |z| == 2 then z + "T" else z
  }

  /** Hours to add to local standard or daylight time to reach UTC. */
  const UtcOffsetHours: map<string, int> := map["CST" := 6, "CDT" := 5, "EST" := 5, "EDT" := 4, "UTC" := 0]

  const ShefZones: set<string> := {"Z", "CS", "CD", "ES", "ED", "UTC", "CST", "CDT", "EST", "EDT"}

  /** Converting twice is converting once. */
  lemma NwsTzIdempotent(tz: string)
    ensures NwsTzToCdaTz(NwsTzToCdaTz(tz)) == NwsTzToCdaTz(tz)
  {
  }

  /** A converted zone has an offset exactly when it is one of the SHEF
      codes for UTC or US Central/Eastern time, or already such a name. */
  lemma KnownZones(tz: string)
    ensures NwsTzToCdaTz(tz) in UtcOffsetHours <==> tz in ShefZones
  {
    var r := NwsTzToCdaTz(tz);
    if |tz| == 2 {
      assert r == tz + "T";
      if tz == "CS" { assert r == "CST"; }
      else if tz == "CD" { assert r == "CDT"; }
      else if tz == "ES" { assert r == "EST"; }
      else if tz == "ED" { assert r == "EDT"; }
    }
  }

  const MsPerMinute := 60 * 1000
  const MsPerHour := 60 * 60 * 1000
  const MsPerDay := 24 * 60 * 60 * 1000

  /** `TimeString2UnixTime(s, '%Y%m%d%H%M', zone)` in milliseconds. The
      `pytz` lookup in its `try` always fails (the name `timezone` is never
      imported), so the fixed-offset table decides; a zone outside it
      leaves `hectime` unbound. The difference of the two naive
      `timestamp()` calls is the calendar difference only on a host whose
      local zone keeps one offset all year (a UTC host); that host is the
      one modelled here. */
  function TimeToMs(s: string, zone: string): (r: Result<int>)
    ensures r.Ok? <==> ParseCompact(s).Ok? && zone in UtcOffsetHours
    ensures ParseCompact(s).Fail? ==> r == Fail(ValueError)
    ensures ParseCompact(s).Ok? && zone !in UtcOffsetHours ==> r == Fail(UnboundName)
    ensures r.Ok? ==> r.value % MsPerMinute == 0
  {
    var t :- ParseCompact(s);
    if zone in UtcOffsetHours then
      WholeMinuteMs(DayNumber(t.year, t.month, t.day) * 1440 + t.hour * 60 + t.minute + UtcOffsetHours[zone] * 60);
      Ok((EpochSeconds(t) + UtcOffsetHours[zone] * 3600) * 1000)
    else Fail(UnboundName)
  }

  /** A whole number of minutes is a whole number of minutes in ms. */
  lemma WholeMinuteMs(m: int)
    ensures (m * 60 * 1000) % MsPerMinute == 0
  {
    assert m * 60 * 1000 == m * MsPerMinute;
  }

  /** A minute written as `%Y%m%d%H%M` in a known zone decodes to that
      minute's UTC instant. */
  lemma TimeToMsRoundTrip(t: DateTime, zone: string)
    requires Valid(t) && 1 <= t.year <= 9999 && t.second == 0
    requires zone in UtcOffsetHours
    ensures TimeToMs(FormatCompact(t), zone) == Ok((EpochSeconds(t) + UtcOffsetHours[zone] * 3600) * 1000)
  {
    CompactRoundTrip(t);
    TimeToMsOf(FormatCompact(t), zone, t);
  }

  lemma TimeToMsOf(s: string, zone: string, t: DateTime)
    requires ParseCompact(s) == Ok(t) && zone in UtcOffsetHours
    ensures TimeToMs(s, zone) == Ok((EpochSeconds(t) + UtcOffsetHours[zone] * 3600) * 1000)
  {
  }

  /** The same wall-clock time in CST is six hours after it in UTC, and in
      CDT one hour before it in CST. */
  lemma ZoneShift(s: string)
    requires ParseCompact(s).Ok?
    ensures TimeToMs(s, "CST").value == TimeToMs(s, "UTC").value + 6 * MsPerHour
    ensures TimeToMs(s, "CDT").value == TimeToMs(s, "CST").value - MsPerHour
  {
  }

  // ---------------------------------------------------------------------
  // .E messages
  // ---------------------------------------------------------------------

  /** What a decoder hands to the loop: a path ("" when the criteria table
      has no entry), the values and the units. */
  datatype Decoded = Decoded(path: string, values: seq<Point>, units: string)

  const NoSeries := Decoded("", [], "")

  /** Milliseconds per interval unit, by the third character of `DIxnn`. */
  const UnitMs: map<char, int> := map['H' := MsPerHour, 'M' := MsPerMinute, 'D' := MsPerDay]

  /** The time increment of a `DIxnn` field. The count is read (and can
      fail) before the unit letter is looked at, as Python evaluates the
      left operand of `*` first. */
  function Increment(interval: string): (r: Result<int>)
    ensures |interval| < 3 ==> r == Fail(IndexError)
    ensures r.Ok? ==> interval[2] in UnitMs && r.value % MsPerMinute == 0
    ensures |interval| >= 3 && interval[2] !in UnitMs ==> r.Fail?
  {
    if |interval| < 3 then Fail(IndexError)
    else
      var words := SplitWs(interval[3..]);
      if |words| == 0 then Fail(IndexError)
      else match ParseInt(words[0])
        case None => Fail(ValueError)
        case Some(n) =>
          if interval[2] in UnitMs then
            UnitMinutes(n, interval[2]);
            Ok(n * UnitMs[interval[2]])
          else Fail(UnboundName)
  }

  lemma UnitMinutes(n: int, unit: char)
    requires unit in UnitMs
    ensures (n * UnitMs[unit]) % MsPerMinute == 0
  {
    var m := UnitMs[unit] / MsPerMinute;
    assert UnitMs[unit] == m * MsPerMinute;
    assert n * UnitMs[unit] == (n * m) * MsPerMinute;
  }

  /** `DIH06` is six hours, `DIM15` fifteen minutes, `DID1` one day. */
  lemma IncrementOf(unit: char, n: nat)
    requires unit in UnitMs
    ensures Increment("DI" + [unit] + NatToDigits(n)) == Ok(n * UnitMs[unit])
  {
    var s := "DI" + [unit] + NatToDigits(n);
    assert s[3..] == NatToDigits(n);
    assert s[2] == unit;
    NatDigitsRoundTrip(n);
    SplitWsWord(NatToDigits(n));
    IntRoundTrip(n);
  }

  /** A word without whitespace splits into itself. */
  lemma {:induction false} SplitWsWord(w: string)
    requires |w| > 0 && forall j :: 0 <= j < |w| ==> !IsSpace(w[j])
    ensures SplitWs(w) == [w]
  {
    WordAll(w);
    assert w[..|w|] == w;
    assert SplitWs(w[|w|..]) == [];
  }

  lemma {:induction false} WordAll(w: string)
    requires forall j :: 0 <= j < |w| ==> !IsSpace(w[j])
    ensures WordLength(w) == |w|
    decreases |w|
  {
    if |w| > 0 {
      WordAll(w[1..]);
    }
  }

  /** The `/`-separated chunks from the first one starting with `DI` on
      (the `while chunks[0][:2] != 'DI'` loop, without its IndexError). */
  function FromInterval(cs: seq<string>): (r: seq<string>)
    ensures |r| <= |cs| && r == cs[|cs| - |r|..]
    ensures forall j :: 0 <= j < |cs| - |r| ==> Take(cs[j], 2) != "DI"
    ensures |r| > 0 ==> Take(r[0], 2) == "DI"
    decreases |cs|
  {
    if |cs| == 0 || Take(cs[0], 2) == "DI" then cs else FromInterval(cs[1..])
  }

  /** The value chunks of a `.E` message: everything after the interval
      field, where the interval field itself is replaced by its last
      whitespace-separated word (a value written on the same line). */
  function DataChunks(block: string): (r: Result<seq<string>>)
    ensures r.Fail? ==> r == Fail(IndexError)
    ensures r.Ok? ==> var cs := FromInterval(Split(Strip(block), "/"));
      |r.value| == |cs| > 0 && r.value[1..] == cs[1..]
  {
    var chunks := FromInterval(Split(Strip(block), "/"));
    if |chunks| == 0 then Fail(IndexError)
    else
      var words := SplitWs(chunks[0]);
      IntervalWords(chunks[0]);
      Ok([words[|words| - 1]] + chunks[1..])
  }

  /** The interval field starts with `DI`, so it holds at least one word. */
  lemma IntervalWords(c: string)
    requires Take(c, 2) == "DI"
    ensures |SplitWs(c)| > 0
  {
    assert c[0] == 'D';
  }

  /** The non-empty chunks, in order. */
  function NonEmpty(cs: seq<string>): (r: seq<string>)
    ensures |r| <= |cs|
    ensures forall k :: 0 <= k < |r| ==> r[k] != ""
    decreases |cs|
  {
    if |cs| == 0 then []
    else if cs[0] == "" then NonEmpty(cs[1..])
    else [cs[0]] + NonEmpty(cs[1..])
  }

  lemma NonEmptyMembers(cs: seq<string>, k: nat)
    requires k < |NonEmpty(cs)|
    ensures NonEmpty(cs)[k] in cs
    decreases |cs|
  {
    if cs[0] == "" {
      NonEmptyMembers(cs[1..], k);
    } else if k > 0 {
      NonEmptyMembers(cs[1..], k - 1);
    }
  }

  /** `k` steps of `step` after `t`, spelled out so that the solver sees a
      product of two variables only here. */
  function Nth(t: int, k: int, step: int): (r: int)
    ensures r - step == t + (k - 1) * step
  {
    t + k * step
  }

  /** `float(chunk)` for each non-empty chunk, in order; the first chunk
      that is not a number raises ValueError. */
  function ParseValues(cs: seq<string>): (r: Result<seq<real>>)
    ensures r.Fail? ==> r == Fail(ValueError)
    ensures r.Ok? ==> |r.value| == |NonEmpty(cs)|
    ensures r.Ok? ==> forall k :: 0 <= k < |r.value| ==> ParseFloat(NonEmpty(cs)[k]) == Some(r.value[k])
    decreases |cs|
  {
    if |cs| == 0 then Ok([])
    else if cs[0] == "" then ParseValues(cs[1..])
    else match ParseFloat(cs[0])
      case None => Fail(ValueError)
      case Some(x) =>
        var rest :- ParseValues(cs[1..]);
        ConsValues(ParseFloat, cs, x, rest);
        Ok([x] + rest)
  }

  /** The step case of `ParseValues`, for any chunk parser `f`. */
  lemma ConsValues(f: string -> Option<real>, cs: seq<string>, x: real, rest: seq<real>)
    requires |cs| > 0 && cs[0] != "" && f(cs[0]) == Some(x)
    requires |rest| == |NonEmpty(cs[1..])|
    requires forall k :: 0 <= k < |rest| ==> f(NonEmpty(cs[1..])[k]) == Some(rest[k])
    ensures |[x] + rest| == |NonEmpty(cs)|
    ensures forall k :: 0 <= k < |[x] + rest| ==> f(NonEmpty(cs)[k]) == Some(([x] + rest)[k])
  {
    var r := [x] + rest;
    assert NonEmpty(cs) == [cs[0]] + NonEmpty(cs[1..]);
    forall k | 0 <= k < |r| ensures f(NonEmpty(cs)[k]) == Some(r[k]) {
      if k > 0 {
        assert r[k] == rest[k - 1];
        assert NonEmpty(cs)[k] == NonEmpty(cs[1..])[k - 1];
      }
    }
  }

  /** Decoding fails exactly when some non-empty chunk is not a number. */
  lemma {:induction false} ParseValuesOk(cs: seq<string>)
    ensures ParseValues(cs).Ok? <==> forall j :: 0 <= j < |cs| && cs[j] != "" ==> IsNumber(cs[j])
    decreases |cs|
  {
    if |cs| > 0 {
      var tail := cs[1..];
      ParseValuesOk(tail);
      NumbersCons(cs, IsNumber);
      if cs[0] == "" {
        assert ParseValues(cs) == ParseValues(tail);
      } else if !IsNumber(cs[0]) {
        assert ParseValues(cs) == Fail(ValueError);
      } else {
        assert ParseValues(cs).Ok? == ParseValues(tail).Ok?;
      }
    }
  }

  /** A property holds of every non-empty chunk exactly when it holds of
      the first (if non-empty) and of every non-empty later one. */
  lemma NumbersCons(cs: seq<string>, ok: string -> bool)
    requires |cs| > 0
    ensures (forall j :: 0 <= j < |cs| && cs[j] != "" ==> ok(cs[j]))
      <==> (cs[0] == "" || ok(cs[0])) && forall j :: 0 <= j < |cs[1..]| && cs[1..][j] != "" ==> ok(cs[1..][j])
  {
    assert forall j :: 0 < j < |cs| ==> cs[j] == cs[1..][j - 1];
  }

  /** The values laid out from `t` on, one increment apart, quality 0. */
  function Spaced(xs: seq<real>, t: int, step: int): (r: seq<Point>)
    ensures |r| == |xs|
    ensures forall k :: 0 <= k < |r| ==> r[k] == Point(Nth(t, k, step), Num(xs[k]), 0)
  {
    seq(|xs|, k requires 0 <= k < |xs| => Point(Nth(t, k, step), Num(xs[k]), 0))
  }

  /** The value loop: each non-empty chunk becomes `[time, float(chunk), 0]`
      and advances the time by one increment; empty chunks (from `//`) are
      skipped without advancing it. */
  function Emit(chunks: seq<string>, t: int, step: int): (r: Result<seq<Point>>)
    ensures r.Fail? ==> r == Fail(ValueError)
    ensures r.Ok? ==> |r.value| == |NonEmpty(chunks)|
    ensures r.Ok? ==> forall k :: 0 <= k < |r.value| ==>
      r.value[k].time == Nth(t, k, step) && r.value[k].quality == 0 && r.value[k].value.Num?
      && ParseFloat(NonEmpty(chunks)[k]) == Some(r.value[k].value.x)
  {
    var xs :- ParseValues(chunks);
    Ok(Spaced(xs, t, step))
  }

  /** The criteria lookup at the end of `Parse_E`: a known entry yields its
      `Path` and `Units` (KeyError without `Units`), anything else the
      empty triple. */
  function Lookup(crit: CritTable, loc: string, pe: string, version: string, values: seq<Point>): (r: Result<Decoded>)
    ensures Entry(crit, loc, pe, version).None? ==> r == Ok(NoSeries)
    ensures r.Fail? <==> Entry(crit, loc, pe, version).Some?
                         && ("Units" !in Entry(crit, loc, pe, version).value
                             || "Path" !in Entry(crit, loc, pe, version).value)
    ensures r.Ok? && Entry(crit, loc, pe, version).Some? ==>
      var a := Entry(crit, loc, pe, version).value;
      r.value == Decoded(a["Path"], values, a["Units"])
    ensures r.Ok? ==> r.value.values == values || r.value.values == []
  {
    match Entry(crit, loc, pe, version)
    case None => Ok(NoSeries)
    case Some(a) =>
      if "Units" in a && "Path" in a then Ok(Decoded(a["Path"], values, a["Units"])) else Fail(KeyError)
  }

  /** The version a `.E` element field names: `[-4:-1]` of the field when
      it has at least five characters, else the default `RZZ`. */
  function EVersion(pe: string): (r: string)
    ensures |pe| >= 5 ==> r == pe[|pe| - 4..|pe| - 1]
    ensures |pe| < 5 ==> r == "RZZ"
    ensures |r| == 3
  {
    if |pe| >= 5 then Slice(pe, -4, -1) else "RZZ"
  }

  /** The start time as the loader computes it: the date word followed by
      whatever follows `DH` in the time word, read as `%Y%m%d%H%M` in the
      message's zone. */
  function EStartAsWritten(tok: seq<string>): (r: Result<int>)
    requires |tok| >= 5
  {
    TimeToMs(StartTextAsWritten(tok[2], Split(tok[4], "/")[0]), NwsTzToCdaTz(tok[3]))
  }

  /** The start time with an hour-only `DHhh` read as minute 0. */
  function EStart(tok: seq<string>): (r: Result<int>)
    requires |tok| >= 5
  {
    TimeToMs(StartText(tok[2], Split(tok[4], "/")[0]), NwsTzToCdaTz(tok[3]))
  }

  /** `date + DHfield[2:]`: the date word and the clock digits of the time
      word, as the loader joins them. */
  function StartTextAsWritten(date: string, dh: string): (r: string)
    ensures |dh| >= 2 ==> r == date + dh[2..]
    ensures |dh| < 2 ==> r == date
  {
    date + Drop(dh, 2)
  }

  /** The joined start text with a two-digit clock (`DHhh`, an hour only)
      completed by `00` minutes; any other clock is kept as written. */
  function StartText(date: string, dh: string): (r: string)
    ensures |Drop(dh, 2)| == 2 ==> r == StartTextAsWritten(date, dh) + "00"
    ensures |Drop(dh, 2)| != 2 ==> r == StartTextAsWritten(date, dh)
  {
    var clock := Drop(dh, 2);
    date + (if |clock| == 2 then clock + "00" else clock)
  }

  /** As written, `.E LOC 20240111 Z DH12/...` starts at 01:02, not at noon:
      `%H%M` takes one digit for the hour and one for the minute. */
  lemma HourOnlyStartAsWritten()
    ensures StartTextAsWritten("20240111", "DH12") == "2024011112"
    ensures ParseCompact(StartTextAsWritten("20240111", "DH12")) == Ok(DateTime(2024, 1, 11, 1, 2, 0))
  {
    assert "DH12"[2..] == "12";
    assert "20240111" + "12" == "2024011112";
    CompactHourOnly();
  }

  /** With the hour completed by `00`, a date word and a `DHhh` word read
      back as that hour, minute 0. */
  lemma HourOnlyStart(t: DateTime)
    requires Valid(t) && 1 <= t.year <= 9999 && t.minute == 0 && t.second == 0
    ensures var date := Digits(t.year, 4) + Digits(t.month, 2) + Digits(t.day, 2);
      ParseCompact(StartText(date, "DH" + Digits(t.hour, 2))) == Ok(t)
  {
    SmallPowers();
    var date := Digits(t.year, 4) + Digits(t.month, 2) + Digits(t.day, 2);
    var dh := "DH" + Digits(t.hour, 2);
    assert Drop(dh, 2) == Digits(t.hour, 2);
    ZeroMinutes();
    assert StartText(date, dh) == FormatCompact(t);
    CompactRoundTrip(t);
  }

  lemma ZeroMinutes()
    ensures Digits(0, 2) == "00"
  {
    SmallPowers();
  }

  /** The values of a decoded series are numbers of quality 0, on whole
      minutes and evenly spaced. */
  predicate EvenSeries(vs: seq<Point>) {
    (forall k :: 0 <= k < |vs| ==> vs[k].quality == 0 && vs[k].value.Num?)
    && (forall k :: 0 < k < |vs| ==> vs[k].time - vs[k - 1].time == vs[1].time - vs[0].time)
    && (forall k :: 0 <= k < |vs| ==> vs[k].time % MsPerMinute == 0)
  }

  /** `Parse_E`, given which `/`-field holds the physical element and
      whether the start time is read as written or with an hour-only
      `DHhh` completed. */
  function ParseEAt(block: string, crit: CritTable, i: nat, asWritten: bool): (r: Result<Decoded>)
    ensures |SplitWs(block)| < 5 ==> r == Fail(IndexError)
    ensures r.Ok? ==> EvenSeries(r.value.values)
    ensures r.Ok? ==> EDecoded(block, crit, i, asWritten, r.value)
    ensures forall d :: EDecoded(block, crit, i, asWritten, d) ==> r == Ok(d)
  {
    var tok := SplitWs(block);
    if |tok| < 5 then Fail(IndexError)
    else
      var start :- if asWritten then EStartAsWritten(tok) else EStart(tok);
      EBody(block, crit, i, tok[1], start)
  }

  /** What a decoded `.E` message is, given the element field `i` and the
      start-time rule: the criteria lookup of the location, the element (the
      field's first two letters) and its version, with the values of the
      data chunks laid out from the start time one interval apart. */
  predicate EDecoded(block: string, crit: CritTable, i: nat, asWritten: bool, d: Decoded)
  {
    var tok, fields := SplitWs(block), Split(block, "/");
    |tok| >= 5 && i + 1 < |fields| && DataChunks(block).Ok? && Increment(fields[i + 1]).Ok? &&
    var start := if asWritten then EStartAsWritten(tok) else EStart(tok);
    start.Ok? &&
    var values := Emit(DataChunks(block).value, start.value, Increment(fields[i + 1]).value);
    values.Ok? && Lookup(crit, tok[1], Take(fields[i], 2), EVersion(fields[i]), values.value) == Ok(d)
  }

  /** `Parse_E` after the start time: element, version, interval, values
      and the criteria lookup. */
  function EBody(block: string, crit: CritTable, i: nat, loc: string, start: int): (r: Result<Decoded>)
    requires start % MsPerMinute == 0
    ensures r.Ok? ==> EvenSeries(r.value.values)
  {
    var fields := Split(block, "/");
    if |fields| <= i + 1 then Fail(IndexError)
    else
      var step :- Increment(fields[i + 1]);
      var values :- EValues(block, start, step);
      var pe, version := Take(fields[i], 2), EVersion(fields[i]);
      StepEven(values, start, step);
      LookupEven(crit, loc, pe, version, values);
      Lookup(crit, loc, pe, version, values)
  }

  /** The lookup passes on an evenly spaced series unchanged or not at all. */
  lemma LookupEven(crit: CritTable, loc: string, pe: string, version: string, values: seq<Point>)
    requires EvenSeries(values)
    ensures Lookup(crit, loc, pe, version, values).Ok? ==> EvenSeries(Lookup(crit, loc, pe, version, values).value.values)
  {
  }

  /** The values of a `.E` message from its start time on: numbers, on
      whole minutes, one increment apart. */
  function EValues(block: string, start: int, step: int): (r: Result<seq<Point>>)
    requires start % MsPerMinute == 0 && step % MsPerMinute == 0
    ensures r.Ok? ==> StepSeries(r.value, start, step)
  {
    var chunks :- DataChunks(block);
    EmitSpaced(chunks, start, step);
    Emit(chunks, start, step)
  }

  /** Numbers of quality 0 from `start` on, `step` apart, on whole minutes. */
  predicate StepSeries(vs: seq<Point>, start: int, step: int) {
    (forall k :: 0 <= k < |vs| ==> vs[k].quality == 0 && vs[k].value.Num?)
    && (forall k :: 0 < k < |vs| ==> vs[k].time - vs[k - 1].time == step)
    && (forall k :: 0 <= k < |vs| ==> vs[k].time % MsPerMinute == 0)
    && (|vs| > 0 ==> vs[0].time == start)
  }

  /** A series one fixed step apart is evenly spaced. */
  lemma StepEven(vs: seq<Point>, start: int, step: int)
    requires StepSeries(vs, start, step)
    ensures EvenSeries(vs)
  {
  }

  /** The value loop's points, started on a whole minute with a step of
      whole minutes, stay on whole minutes one step apart. */
  lemma EmitSpaced(chunks: seq<string>, start: int, step: int)
    requires start % MsPerMinute == 0 && step % MsPerMinute == 0
    ensures Emit(chunks, start, step).Ok? ==> StepSeries(Emit(chunks, start, step).value, start, step)
  {
    if Emit(chunks, start, step).Ok? {
      EvenlySpaced(Emit(chunks, start, step).value, start, step);
    }
  }

  lemma EvenlySpaced(vs: seq<Point>, start: int, step: int)
    requires start % MsPerMinute == 0 && step % MsPerMinute == 0
    requires forall k :: 0 <= k < |vs| ==> vs[k].time == Nth(start, k, step)
    ensures forall k :: 0 < k < |vs| ==> vs[k].time - vs[k - 1].time == step
    ensures forall k :: 0 <= k < |vs| ==> vs[k].time % MsPerMinute == 0
  {
    forall k | 0 <= k < |vs| ensures vs[k].time % MsPerMinute == 0 {
      MinuteMultiple(start, k, step);
    }
    forall k | 0 < k < |vs| ensures vs[k].time - vs[k - 1].time == step {
      assert Nth(start, k - 1, step) == start + (k - 1) * step;
    }
  }

  lemma MinuteMultiple(t: int, k: nat, step: int)
    requires t % MsPerMinute == 0 && step % MsPerMinute == 0
    ensures Nth(t, k, step) % MsPerMinute == 0
  {
    var a, b := t / MsPerMinute, step / MsPerMinute;
    assert t + k * step == (a + k * b) * MsPerMinute;
  }

  /** The element field as the loader picks it: `if block.find('/DC'):`
      tests the position, which is 0 only for a message starting with
      `/DC`, so without a `/DC` field (find gives -1) it still picks 2. */
  function PeFieldAsWritten(block: string): (i: nat)
    ensures i == 1 <==> Find(block, "/DC") == 0
  {
    if Find(block, "/DC") != 0 then 2 else 1
  }

  /** Every real message starts with '.', so the loader always reads the
      element from the third field, even when there is no `/DC` field
      before it. */
  lemma PeFieldAlwaysThird(block: string)
    requires |block| > 0 && block[0] == '.'
    ensures PeFieldAsWritten(block) == 2
    ensures !Contains(block, "/DC") ==> PeFieldAsWritten(block) != PeField(block)
  {
  }

  /** The element field as intended: after the `/DC` creation-date field
      when there is one, else right after the date/time word. */
  function PeField(block: string): (i: nat)
    ensures i == 2 <==> Contains(block, "/DC")
    ensures i == 1 || i == 2
  {
    if Contains(block, "/DC") then 2 else 1
  }

  /** With the intended field, the element of `.E LOC DATE Z DHhhmm/PE/DI..`
      is the field right after the date/time word. */
  lemma PeFieldNoCreationDate(block: string)
    requires !Contains(block, "/DC")
    ensures PeField(block) == 1
    ensures 1 < |Split(block, "/")| ==> Split(block, "/")[PeField(block)] == Split(block, "/")[1]
  {
  }

  function ParseEAsWritten(block: string, crit: CritTable): (r: Result<Decoded>)
    ensures |SplitWs(block)| < 5 ==> r == Fail(IndexError)
    ensures r.Ok? ==> EDecoded(block, crit, PeFieldAsWritten(block), true, r.value)
    ensures forall d :: EDecoded(block, crit, PeFieldAsWritten(block), true, d) ==> r == Ok(d)
  {
    ParseEAt(block, crit, PeFieldAsWritten(block), true)
  }

  function ParseE(block: string, crit: CritTable): (r: Result<Decoded>)
    ensures |SplitWs(block)| < 5 ==> r == Fail(IndexError)
    ensures r.Ok? ==> EDecoded(block, crit, PeField(block), false, r.value)
    ensures forall d :: EDecoded(block, crit, PeField(block), false, d) ==> r == Ok(d)
  {
    ParseEAt(block, crit, PeField(block), false)
  }

  // ---------------------------------------------------------------------
  // .A messages
  // ---------------------------------------------------------------------

  /** The `for data_block in data_blocks: code, value = data_block.split()`
      loop: every field must hold exactly two words (ValueError otherwise);
      the last pair survives, and with no fields `code` stays unbound. */
  function LastPair(ds: seq<string>): (r: Result<(string, string)>)
    ensures r.Ok? <==> |ds| > 0 && forall j :: 0 <= j < |ds| ==> |SplitWs(ds[j])| == 2
    ensures |ds| == 0 ==> r == Fail(UnboundName)
    ensures |ds| > 0 && r.Fail? ==> r.fault == ValueError
    ensures r.Ok? ==> r.value == (SplitWs(ds[|ds| - 1])[0], SplitWs(ds[|ds| - 1])[1])
    decreases |ds|
  {
    if |ds| == 0 then Fail(UnboundName)
    else
      var w := SplitWs(ds[0]);
      if |w| != 2 then Fail(ValueError)
      else if |ds| == 1 then Ok((w[0], w[1]))
      else
        var r := LastPair(ds[1..]);
        assert (forall j :: 0 <= j < |ds| ==> |SplitWs(ds[j])| == 2)
          <==> (forall j :: 0 <= j < |ds[1..]| ==> |SplitWs(ds[1..][j])| == 2) by {
          if forall j :: 0 <= j < |ds[1..]| ==> |SplitWs(ds[1..][j])| == 2 {
            forall j | 0 <= j < |ds| ensures |SplitWs(ds[j])| == 2 {
              if j > 0 { assert ds[j] == ds[1..][j - 1]; }
            }
          }
        }
        r
  }

  /** The parts of a `.A` message the decoder reads before the criteria
      lookup: location, time, element code and value. */
  datatype AReading = AReading(loc: string, time: int, code: string, value: string)

  /** A `.A` message has a time and a last code/value pair: at least four
      words, the time in the message's zone, every `/` field after the first
      two words apart. */
  predicate AReadable(block: string) {
    var tok, fields := SplitWs(block), Split(block, "/");
    && |tok| >= 4
    && TimeToMs(tok[2] + Drop(fields[0], -4), NwsTzToCdaTz(tok[3])).Ok?
    && LastPair(fields[1..]).Ok?
  }

  /** The reading of a `.A` message: its location word, the date word
      joined with the last four characters of the first field read in the
      message's zone, and the code and value of the last `/` field. */
  predicate ARead(block: string, rd: AReading) {
    var tok, fields := SplitWs(block), Split(block, "/");
    && AReadable(block)
    && rd.loc == tok[1]
    && rd.time == TimeToMs(tok[2] + Drop(fields[0], -4), NwsTzToCdaTz(tok[3])).value
    && (rd.code, rd.value) == LastPair(fields[1..]).value
  }

  /** The first part of `Parse_A`: `None` when the location is not in the
      criteria table (the message is ignored). */
  function ReadA(block: string, crit: CritTable): (r: Result<Option<AReading>>)
    ensures |SplitWs(block)| < 2 ==> r == Fail(IndexError)
    ensures |SplitWs(block)| >= 2 && SplitWs(block)[1] !in crit ==> r == Ok(None)
    ensures |SplitWs(block)| >= 2 && SplitWs(block)[1] in crit ==> (r.Ok? <==> AReadable(block))
    ensures r.Ok? && r.value.Some? ==> r.value.value.loc in crit && ARead(block, r.value.value)
    ensures r.Ok? && r.value.None? ==> SplitWs(block)[1] !in crit
  {
    var tok := SplitWs(block);
    if |tok| < 2 then Fail(IndexError)
    else if tok[1] !in crit then Ok(None)
    else if |tok| < 4 then Fail(IndexError)
    else
      var fields := Split(block, "/");
      var start :- TimeToMs(tok[2] + Drop(fields[0], -4), NwsTzToCdaTz(tok[3]));
      var pair :- LastPair(fields[1..]);
      Ok(Some(AReading(tok[1], start, pair.0, pair.1)))
  }

  /** The element and version a code names: `HGIRZ` is `HG` with version
      `IRZ`; a bare two-letter code has the default version `RZZ`. */
  function SplitCode(code: string): (r: (string, string))
    ensures |code| > 2 ==> r.0 + r.1 == code && |r.0| == 2
    ensures |code| <= 2 ==> r == (code, "RZZ")
  {
    if |code| > 2 then (code[..2], code[2..]) else (code, "RZZ")
  }

  /** The one-value series a `.A` reading yields for a criteria entry. */
  function AEntry(r: AReading, a: Attrs): Result<seq<Decoded>> {
    if "Units" in a && "Path" in a then Ok([Decoded(a["Path"], [Point(r.time, Text(r.value), 0)], a["Units"])])
    else Fail(KeyError)
  }

  /** The criteria lookup of `Parse_A` as written: membership is tested
      with the whole code (`HGIRZ`), the table is then indexed with its
      first two letters. */
  function ALookupAsWritten(crit: CritTable, r: AReading): (res: Result<seq<Decoded>>)
    requires r.loc in crit
    ensures res.Ok? ==> |res.value| <= 1
  {
    if r.code !in crit[r.loc] then Ok([])
    else
      var (pe, version) := SplitCode(r.code);
      if pe !in crit[r.loc] then Fail(KeyError)
      else if version !in crit[r.loc][pe] then Ok([])
      else AEntry(r, crit[r.loc][pe][version])
  }

  /** As written, a code with a version (`HGIRZ`) is dropped whenever the
      table keys its elements by two letters, however the entry for `HG`,
      version `IRZ` is set up. */
  lemma VersionedCodeIgnored(crit: CritTable, r: AReading)
    requires r.loc in crit && |r.code| > 2 && r.code !in crit[r.loc]
    ensures ALookupAsWritten(crit, r) == Ok([])
    ensures var (pe, version) := SplitCode(r.code);
      Entry(crit, r.loc, pe, version).Some?
      && "Units" in Entry(crit, r.loc, pe, version).value && "Path" in Entry(crit, r.loc, pe, version).value
      ==> |ALookup(crit, r).value| == 1
  {
  }

  /** The evidently intended lookup: split the code first, then look up
      element and version. */
  function ALookup(crit: CritTable, r: AReading): (res: Result<seq<Decoded>>)
    requires r.loc in crit
    ensures var (pe, version) := SplitCode(r.code);
      match Entry(crit, r.loc, pe, version)
      case None => res == Ok([])
      case Some(a) =>
        if "Units" in a && "Path" in a
        then res == Ok([Decoded(a["Path"], [Point(r.time, Text(r.value), 0)], a["Units"])])
        else res == Fail(KeyError)
  {
    var (pe, version) := SplitCode(r.code);
    if pe in crit[r.loc] && version in crit[r.loc][pe] then AEntry(r, crit[r.loc][pe][version])
    else Ok([])
  }

  function ParseAAsWritten(block: string, crit: CritTable): (r: Result<seq<Decoded>>)
    ensures |SplitWs(block)| >= 2 && SplitWs(block)[1] !in crit ==> r == Ok([])
    ensures r.Ok? && |SplitWs(block)| >= 2 && SplitWs(block)[1] in crit ==> AReadable(block)
    ensures |SplitWs(block)| >= 2 && SplitWs(block)[1] in crit && AReadable(block) ==>
      ReadA(block, crit).Ok? && ReadA(block, crit).value.Some?
      && var rd := ReadA(block, crit).value.value;
         ARead(block, rd) && r == ALookupAsWritten(crit, rd)
    ensures r.Ok? ==> |r.value| <= 1
  {
    var a :- ReadA(block, crit);
    match a
    case None => Ok([])
    case Some(rd) => ALookupAsWritten(crit, rd)
  }

  /** `Parse_A` with the intended lookup: at most one series, holding the
      value as the text that was read, at the message's time. */
  function ParseA(block: string, crit: CritTable): (r: Result<seq<Decoded>>)
    ensures |SplitWs(block)| >= 2 && SplitWs(block)[1] !in crit ==> r == Ok([])
    ensures r.Ok? && |SplitWs(block)| >= 2 && SplitWs(block)[1] in crit ==> AReadable(block)
    ensures |SplitWs(block)| >= 2 && SplitWs(block)[1] in crit && AReadable(block) ==>
      ReadA(block, crit).Ok? && ReadA(block, crit).value.Some?
      && var rd := ReadA(block, crit).value.value;
         ARead(block, rd) && r == ALookup(crit, rd)
    ensures r.Ok? ==> |r.value| <= 1
    ensures r.Ok? && |r.value| == 1 ==>
      |r.value[0].values| == 1 && r.value[0].values[0].value.Text? && r.value[0].values[0].quality == 0
  {
    var a :- ReadA(block, crit);
    match a
    case None => Ok([])
    case Some(rd) => ALookup(crit, rd)
  }

  // ---------------------------------------------------------------------
  // The block loop
  // ---------------------------------------------------------------------

  /** What one message contributes: an `.E` series, the `.A` series list,
      a `.B` message (whose decoder returns nothing) or another kind. */
  datatype Outcome = EOut(d: Decoded) | AOut(ts: seq<Decoded>) | BOut | Skip

  function DecodeWith(block: string, crit: CritTable, asWritten: bool): (r: Result<Outcome>)
    ensures r.Ok? && r.value.EOut? ==> Take(block, 2) == ".E"
    ensures r.Ok? && r.value.AOut? ==> Take(block, 2) == ".A"
    ensures Take(block, 2) == ".B" ==> r == Ok(BOut)
    ensures Take(block, 2) !in MessageKinds ==> r == Ok(Skip)
  {
    var kind := Take(block, 2);
    if kind == ".E" then
      var d :- if asWritten then ParseEAsWritten(block, crit) else ParseE(block, crit);
      Ok(EOut(d))
    else if kind == ".A" then
      var ts :- if asWritten then ParseAAsWritten(block, crit) else ParseA(block, crit);
      Ok(AOut(ts))
    else if kind == ".B" then Ok(BOut)
    else Ok(Skip)
  }

  const Office := "LRL"

  /** The loaded series by path. */
  type Store = map<string, CdaPostTs>

  /** Every series is filed under its own name and belongs to the office. */
  predicate WellFiled(data: Store) {
    forall p :: p in data ==> data[p].name == p && data[p].officeId == Office
  }

  /** The values already held for `p`. */
  function Held(data: Store, p: string): seq<Point> {
    if p in data then data[p].values else []
  }

  /** `if path: ... data[path].insertValue(...)` for one decoded series:
      creates the series on first sight, then appends its values. */
  function Deliver(data: Store, d: Decoded): (r: Store)
    ensures d.path == "" ==> r == data
    ensures d.path != "" ==> r.Keys == data.Keys + {d.path}
    ensures forall p :: p in data && p != d.path ==> r[p] == data[p]
    ensures d.path != "" ==> Held(r, d.path) == Held(data, d.path) + d.values
    ensures d.path != "" && d.path !in data ==> r[d.path] == CdaPostTs(d.path, Office, d.units, d.values)
    ensures d.path in data ==> r[d.path].name == data[d.path].name && r[d.path].officeId == data[d.path].officeId
                               && r[d.path].units == data[d.path].units
    ensures WellFiled(data) ==> WellFiled(r)
  {
    if d.path == "" then data
    else data[d.path := Appended(data, d)]
  }

  /** The series for `d.path` once `d`'s values are inserted: the held one,
      or a new one in `d`'s units, with the values appended. */
  function Appended(data: Store, d: Decoded): (ts: CdaPostTs)
    ensures ts.values == Held(data, d.path) + d.values
    ensures d.path !in data ==> ts == CdaPostTs(d.path, Office, d.units, d.values)
    ensures d.path in data ==>
      ts.name == data[d.path].name && ts.officeId == data[d.path].officeId && ts.units == data[d.path].units
  {
    var ts := if d.path in data then data[d.path] else NewTs(d.path, Office, d.units);
    InsertAllAppends(ts, d.values);
    InsertAll(ts, d.values)
  }

  function DeliverAll(data: Store, ds: seq<Decoded>): (r: Store)
    ensures WellFiled(data) ==> WellFiled(r)
    decreases |ds|
  {
    if |ds| == 0 then data else Deliver(DeliverAll(data, ds[..|ds| - 1]), ds[|ds| - 1])
  }

  /** All points for path `p` in a list of decoded series, in order. */
  function Gathered(ds: seq<Decoded>, p: string): seq<Point>
    decreases |ds|
  {
    if |ds| == 0 then []
    else Gathered(ds[..|ds| - 1], p) + (if ds[|ds| - 1].path == p then ds[|ds| - 1].values else [])
  }

  /** Delivering a list keeps the store well filed, adds exactly the named
      paths, and appends to each path exactly the points of its series, in
      order: no point is lost or repeated. */
  lemma {:induction false} DeliverAllGathers(data: Store, ds: seq<Decoded>, p: string)
    requires p != ""
    ensures p in DeliverAll(data, ds) <==> p in data || p in Paths(ds)
    ensures Held(DeliverAll(data, ds), p) == Held(data, p) + Gathered(ds, p)
    decreases |ds|
  {
    if |ds| == 0 {
      assert Held(data, p) + [] == Held(data, p);
    } else {
      var init := ds[..|ds| - 1];
      var last := ds[|ds| - 1];
      DeliverAllGathers(data, init, p);
      var mid := DeliverAll(data, init);
      DeliverStep(mid, last, p);
      assert DeliverAll(data, ds) == Deliver(mid, last);
      assert Paths(ds) == Paths(init) + {last.path};
      var tail := if last.path == p then last.values else [];
      assert Gathered(ds, p) == Gathered(init, p) + tail;
      Assoc(Held(data, p), Gathered(init, p), tail);
    }
  }

  lemma Assoc<T>(a: seq<T>, b: seq<T>, c: seq<T>)
    ensures a + b + c == a + (b + c)
  {
  }

  /** One delivery, seen from path `p`. */
  lemma DeliverStep(data: Store, d: Decoded, p: string)
    requires p != ""
    ensures p in Deliver(data, d) <==> p in data || p == d.path
    ensures Held(Deliver(data, d), p) == Held(data, p) + (if d.path == p then d.values else [])
  {
    if d.path != p {
      assert Held(data, p) + [] == Held(data, p);
    }
  }

  /** The paths named in a list of decoded series. */
  function Paths(ds: seq<Decoded>): (r: set<string>)
    ensures forall j :: 0 <= j < |ds| ==> ds[j].path in r
    ensures forall q :: q in r ==> exists j :: 0 <= j < |ds| && ds[j].path == q
    decreases |ds|
  {
    if |ds| == 0 then {} else Paths(ds[..|ds| - 1]) + {ds[|ds| - 1].path}
  }

  /** `process_shef`'s loop body as written: `ts_array` is kept from one
      message to the next and delivered again after every message. */
  function AbsorbAsWritten(data: Store, tsArray: seq<Decoded>, o: Outcome): (r: (Store, seq<Decoded>))
    ensures o.EOut? || o.Skip? ==> r.1 == tsArray
  {
    var e := if o.EOut? then o.d else NoSeries;
    var ts := match o
      case AOut(x) => x
      case BOut => []
      case _ => tsArray;
    (DeliverAll(Deliver(data, e), ts), ts)
  }

  /** The list of series a message contributes by itself. */
  function Contribution(o: Outcome): (r: seq<Decoded>)
    ensures o.EOut? ==> r == [o.d]
    ensures o.AOut? ==> r == o.ts
    ensures o.BOut? || o.Skip? ==> r == []
  {
    match o
    case EOut(d) => [d]
    case AOut(ts) => ts
    case _ => []
  }

  /** The evidently intended loop body: each message's series delivered
      once. */
  function Absorb(data: Store, o: Outcome): Store {
    DeliverAll(data, Contribution(o))
  }

  /** As written, a `.A` value is stored again after each later `.E`
      message; the intended loop stores it once. */
  lemma APointRepeated(data: Store, d: Decoded, e: Decoded)
    requires d.path != "" && e.path != d.path
    ensures var s1 := AbsorbAsWritten(data, [], AOut([d]));
      var s2 := AbsorbAsWritten(s1.0, s1.1, EOut(e));
      Held(s2.0, d.path) == Held(data, d.path) + d.values + d.values
    ensures Held(Absorb(Absorb(data, AOut([d])), EOut(e)), d.path) == Held(data, d.path) + d.values
  {
    var once := Deliver(data, d);
    DeliverOne(data, d);
    DeliverOne(once, e);
    DeliverOne(Deliver(once, e), d);
    assert Held(Deliver(once, e), d.path) == Held(once, d.path);
  }

  lemma DeliverOne(data: Store, d: Decoded)
    ensures DeliverAll(data, [d]) == Deliver(data, d)
  {
    assert [d][..0] == [];
  }

  /** The block loop with the intended body. */
  function ProcessBlocks(crit: CritTable, blocks: seq<string>): (r: Result<Store>)
    ensures r.Ok? ==> WellFiled(r.value)
    decreases |blocks|
  {
    if |blocks| == 0 then Ok(map[])
    else
      var data :- ProcessBlocks(crit, blocks[..|blocks| - 1]);
      var o :- DecodeWith(blocks[|blocks| - 1], crit, false);
      Ok(Absorb(data, o))
  }

  /** The block loop as written (with the as-written decoders); returns the
      store and the final `ts_array`. */
  function ProcessBlocksAsWritten(crit: CritTable, blocks: seq<string>): (r: Result<(Store, seq<Decoded>)>)
    ensures r.Ok? ==> WellFiled(r.value.0)
    decreases |blocks|
  {
    if |blocks| == 0 then Ok((map[], []))
    else
      var st :- ProcessBlocksAsWritten(crit, blocks[..|blocks| - 1]);
      var o :- DecodeWith(blocks[|blocks| - 1], crit, true);
      Ok(AbsorbAsWritten(st.0, st.1, o))
  }

  /** The series each decoded message contributes, in message order. */
  function Outcomes(crit: CritTable, blocks: seq<string>): (r: Result<seq<Outcome>>)
    ensures r.Ok? ==> |r.value| == |blocks|
    decreases |blocks|
  {
    if |blocks| == 0 then Ok([])
    else
      var os :- Outcomes(crit, blocks[..|blocks| - 1]);
      var o :- DecodeWith(blocks[|blocks| - 1], crit, false);
      Ok(os + [o])
  }

  function Contributions(os: seq<Outcome>): seq<Decoded>
    decreases |os|
  {
    if |os| == 0 then [] else Contributions(os[..|os| - 1]) + Contribution(os[|os| - 1])
  }

  /** Delivering one more series delivers it after the others. */
  lemma DeliverAllSnoc(data: Store, ds: seq<Decoded>, d: Decoded)
    ensures DeliverAll(data, ds + [d]) == Deliver(DeliverAll(data, ds), d)
  {
    var s := ds + [d];
    assert s[..|s| - 1] == ds && s[|s| - 1] == d;
  }

  lemma {:induction false} DeliverAllAppend(data: Store, a: seq<Decoded>, b: seq<Decoded>)
    ensures DeliverAll(data, a + b) == DeliverAll(DeliverAll(data, a), b)
    decreases |b|
  {
    if |b| == 0 {
      assert a + b == a;
    } else {
      var init, last := b[..|b| - 1], b[|b| - 1];
      DeliverAllAppend(data, a, init);
      SnocSplit(a, b);
      DeliverAllSnoc(data, a + init, last);
      DeliverAllSnoc(DeliverAll(data, a), init, last);
    }
  }

  lemma SnocSplit<T>(a: seq<T>, b: seq<T>)
    requires |b| > 0
    ensures b == b[..|b| - 1] + [b[|b| - 1]]
    ensures a + b == (a + b[..|b| - 1]) + [b[|b| - 1]]
  {
  }

  /** The intended loop stores exactly what the messages contribute: the
      store is the delivery of all their series in message order, and a
      block fails exactly when decoding it fails. */
  lemma {:induction false} ProcessIsDelivery(crit: CritTable, blocks: seq<string>)
    ensures ProcessBlocks(crit, blocks).Ok? <==> Outcomes(crit, blocks).Ok?
    ensures ProcessBlocks(crit, blocks).Ok? ==>
      ProcessBlocks(crit, blocks).value == DeliverAll(map[], Contributions(Outcomes(crit, blocks).value))
    decreases |blocks|
  {
    if |blocks| > 0 {
      var init := blocks[..|blocks| - 1];
      ProcessIsDelivery(crit, init);
      var os := Outcomes(crit, init);
      var o := DecodeWith(blocks[|blocks| - 1], crit, false);
      if os.Ok? && o.Ok? {
        var all := os.value + [o.value];
        assert all[..|all| - 1] == os.value;
        DeliverAllAppend(map[], Contributions(os.value), Contribution(o.value));
      }
    }
  }

  /** For every path, the posted series holds exactly the points the
      messages decoded for it, each once and in message order. */
  lemma EachPointOnce(crit: CritTable, blocks: seq<string>, p: string)
    requires p != "" && ProcessBlocks(crit, blocks).Ok?
    ensures Outcomes(crit, blocks).Ok?
    ensures Held(ProcessBlocks(crit, blocks).value, p) == Gathered(Contributions(Outcomes(crit, blocks).value), p)
  {
    ProcessIsDelivery(crit, blocks);
    var ds := Contributions(Outcomes(crit, blocks).value);
    DeliverAllGathers(map[], ds, p);
    assert Held(map[], p) == [];
    NilAppend(Gathered(ds, p));
  }

  /** `process_shef(shef_file, crit_file)` as written, over the two files'
      lines: the criteria are loaded first, then the product is cut into
      messages and decoded. */
  function ProcessShefAsWritten(critLines: seq<string>, shefLines: seq<string>): (r: Result<Store>)
    ensures r.Ok? ==> WellFiled(r.value)
  {
    var crit :- LoadShefCrit(critLines);
    var blocks :- Tokenize(shefLines);
    var st :- ProcessBlocksAsWritten(crit, blocks);
    Ok(st.0)
  }

  /** `process_shef` with the four corrections: the last message is kept,
      the element field follows `/DC` only when there is one, versioned
      `.A` codes are looked up by element and version, and each message's
      series are stored once. */
  function ProcessShef(critLines: seq<string>, shefLines: seq<string>): (r: Result<Store>)
    ensures r.Ok? ==> WellFiled(r.value)
  {
    var crit :- LoadShefCrit(critLines);
    var blocks :- TokenizeAll(shefLines);
    ProcessBlocks(crit, blocks)
  }
}
