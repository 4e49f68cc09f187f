/** The CHPS forecast loader (`loadNwsCHPS.py`): each series of a
    Delft-FEWS PI-XML forecast becomes a CWMS time series named through the
    NWS location alias table, and the file name decides the forecast
    version, the version date and the standard-text key of the run.

    XML parsing, the CDA requests that fetch the alias groups and store the
    results, and logging are outside the model: it receives the parsed
    series and alias rows and returns the payloads the loader would store.
 */
module NwsChps {
  import opened Wrappers
  import opened PyText
  import opened Numbers
  import opened Civil
  import opened Strptime

  // ---------------------------------------------------------------------
  // Constants
  // ---------------------------------------------------------------------

  /** The value CWMS stores for a missing reading, and its quality code. */
  const MissingCwmsValue: int := -340282346638528859811704183484516925440
  const MissingQuality: int := 5

  /** The suffix of a non-contributing parameter. */
  const NonContrib: string := "-Non_contrib"

  /** The version part shared by every forecast version. */
  const VersionBase: string := "Fcst-NCRFC-CHIPS"

  /** NWS parameter code to CWMS parameter. */
  const ParamMap: map<string, string> := map[
    "SQIN" := "Flow-Sim", "SPEL" := "Elev", "QINE" := "Flow",
    "RAIM" := "Precip-RainAndMelt", "MAP" := "Precip-Rain", "SSTG" := "Stage"]

  /** Exactly the two precipitation codes map to a precipitation
      parameter, and exactly the two flow codes to a flow parameter. */
  lemma MappedKinds(pid: string)
    requires pid in ParamMap
    ensures Contains(ParamMap[pid], "Precip") <==> pid == "RAIM" || pid == "MAP"
    ensures Contains(ParamMap[pid], "Flow") <==> pid == "SQIN" || pid == "QINE"
  {
    var v := ParamMap[pid];
    if pid == "RAIM" || pid == "MAP" {
      PrecipValue(v);
    } else if pid == "SQIN" || pid == "QINE" {
      FlowValue(v);
    } else {
      assert v == "Elev" || v == "Stage";
      NoCharNoSub(v, "Precip", 'P');
      NoCharNoSub(v, "Flow", 'F');
    }
  }

  lemma PrecipValue(v: string)
    requires v == "Precip-RainAndMelt" || v == "Precip-Rain"
    ensures Contains(v, "Precip") && !Contains(v, "Flow")
  {
    assert v == "Precip" + v[6..];
    ContainsPrefix("Precip", v[6..]);
    NoCharNoSub(v, "Flow", 'F');
  }

  lemma FlowValue(v: string)
    requires v == "Flow-Sim" || v == "Flow"
    ensures Contains(v, "Flow") && !Contains(v, "Precip")
  {
    assert v == "Flow" + v[4..];
    ContainsPrefix("Flow", v[4..]);
    NoCharNoSub(v, "Precip", 'P');
  }

  // ---------------------------------------------------------------------
  // Location and parameter
  // ---------------------------------------------------------------------

  /** `parse_nws_loc_parm_data`: the NWS id is the first five characters of
      the location (the whole of `BoundaryDiversion`); a flow parameter is
      renamed after an IN, OUT or LOC marker in the rest of the location,
      the last of those checks winning; a longer location holding NON
      marks the parameter non-contributing. */
  function ParseLocParam(locId: string, param: string): (r: (string, string))
    ensures locId == "BoundaryDiversion" ==> r.0 == locId
    ensures locId != "BoundaryDiversion" ==> StartsWith(locId, r.0) && |r.0| == if |locId| < 5 then |locId| else 5
    ensures var tail := Drop(locId, 5);
      var flow := Contains(param, "Flow");
      var base :=
        if flow && Contains(tail, "LOC") then "Flow-Local"
        else if flow && Contains(tail, "OUT") then "Flow-Out"
        else if flow && Contains(tail, "IN") then "Flow-In"
        else param;
      r.1 == if Contains(locId, "NON") && |locId| > 5 then base + NonContrib else base
  {
    var nwsId := if locId == "BoundaryDiversion" then locId else Take(locId, 5);
    var tail := Drop(locId, 5);
    var p1 := if Contains(tail, "IN") && Contains(param, "Flow") then "Flow-In" else param;
    var p2 := if Contains(tail, "OUT") && Contains(p1, "Flow") then "Flow-Out" else p1;
    var p3 := if Contains(tail, "LOC") && Contains(p2, "Flow") then "Flow-Local" else p2;
    FlowRenamed("-In");
    FlowRenamed("-Out");
    var p4 := if Contains(locId, "NON") && |locId| > 5 then p3 + NonContrib else p3;
    (nwsId, p4)
  }

  lemma FlowRenamed(suffix: string)
    ensures Contains("Flow" + suffix, "Flow")
  {
    ContainsPrefix("Flow", suffix);
  }

  /** A location of at most five characters is its own NWS id and leaves
      the parameter as it is. */
  lemma ShortLocationKeepsParam(locId: string, param: string)
    requires |locId| <= 5
    ensures ParseLocParam(locId, param) == (locId, param)
  {
    assert Drop(locId, 5) == [];
  }

  // ---------------------------------------------------------------------
  // Time series ids
  // ---------------------------------------------------------------------

  /** One row of the alias table: a CWMS location and its NWS id. */
  datatype Alias = Alias(location: string, nwsId: string)

  /** The first row at or after `k` with the NWS id. */
  function FirstAlias(alias: seq<Alias>, nwsId: string, k: nat): (r: Option<nat>)
    requires k <= |alias|
    ensures r.None? <==> forall j :: k <= j < |alias| ==> alias[j].nwsId != nwsId
    ensures r.Some? ==> k <= r.value < |alias| && alias[r.value].nwsId == nwsId
    ensures r.Some? ==> forall j :: k <= j < r.value ==> alias[j].nwsId != nwsId
    decreases |alias| - k
  {
    if k == |alias| then None
    else if alias[k].nwsId == nwsId then Some(k)
    else FirstAlias(alias, nwsId, k + 1)
  }

  /** Data type and duration: totals over six hours for precipitation,
      instantaneous values otherwise. */
  function DataKind(param: string): (string, string) {
    if Contains(param, "Precip") then ("Total", "6Hours") else ("Inst", "0")
  }

  /** `create_ts_id`: the CWMS location of the first alias row with the NWS
      id (IndexError when there is none) and the six-part time-series id
      built on it. */
  function CreateTsId(nwsId: string, param: string, alias: seq<Alias>, version: string): (r: Result<(string, string)>)
    ensures r.Fail? <==> forall j :: 0 <= j < |alias| ==> alias[j].nwsId != nwsId
    ensures r.Fail? ==> r.fault == IndexError
    ensures r.Ok? ==>
      exists i :: 0 <= i < |alias| && alias[i].nwsId == nwsId && r.value.0 == alias[i].location
        && forall j :: 0 <= j < i ==> alias[j].nwsId != nwsId
  {
    match FirstAlias(alias, nwsId, 0)
    case None => Fail(IndexError)
    case Some(i) =>
      var loc := alias[i].location;
      var kind := DataKind(param);
      Ok((loc, loc + "." + param + "." + kind.0 + ".6Hours." + kind.1 + "." + version))
  }

  /** When no part holds a dot, the id splits back into location,
      parameter, data type, the six-hour interval, duration and version;
      the type is Total exactly for a precipitation parameter. */
  lemma TsIdFields(nwsId: string, param: string, alias: seq<Alias>, version: string)
    requires CreateTsId(nwsId, param, alias, version).Ok?
    requires '.' !in CreateTsId(nwsId, param, alias, version).value.0
    requires '.' !in param && '.' !in version
    ensures var r := CreateTsId(nwsId, param, alias, version).value;
      var f := Split(r.1, ".");
      && |f| == 6 && f[0] == r.0 && f[1] == param && f[3] == "6Hours" && f[5] == version
      && (f[2] == "Total" <==> Contains(param, "Precip"))
      && f[4] == (if f[2] == "Total" then "6Hours" else "0")
  {
    var r := CreateTsId(nwsId, param, alias, version).value;
    var kind := DataKind(param);
    var parts := [r.0, param, kind.0, "6Hours", kind.1, version];
    JoinTsId(r.0, param, kind.0, kind.1, version);
    JoinSplitChar(parts, '.');
  }

  /** The six parts joined with dots are the id `CreateTsId` writes. */
  lemma JoinTsId(loc: string, param: string, k0: string, k1: string, version: string)
    ensures Join([loc, param, k0, "6Hours", k1, version], ".")
      == loc + "." + param + "." + k0 + ".6Hours." + k1 + "." + version
  {
    var t4 := [k1] + [version];
    var t3 := ["6Hours"] + t4;
    var t2 := [k0] + t3;
    var t1 := [param] + t2;
    JoinCons(k1, [version], ".");
    JoinCons("6Hours", t4, ".");
    JoinCons(k0, t3, ".");
    JoinCons(param, t2, ".");
    JoinCons(loc, t1, ".");
    assert [loc] + t1 == [loc, param, k0, "6Hours", k1, version];
    DotsFlatten(loc, param, k0, k1, version);
  }

  lemma DotsFlatten(loc: string, param: string, k0: string, k1: string, version: string)
    ensures loc + "." + (param + "." + (k0 + "." + ("6Hours" + "." + (k1 + "." + version))))
      == loc + "." + param + "." + k0 + ".6Hours." + k1 + "." + version
  {
    assert "." + "6Hours" + "." == ".6Hours.";
  }

  // ---------------------------------------------------------------------
  // The alias table
  // ---------------------------------------------------------------------

  /** `str.slice(0, -5)`: the RFC CHPS alias without its `_CHPS` suffix. */
  function ChpsAliasId(id: string): (r: string)
    ensures EndsWith(id, "_CHPS") ==> r + "_CHPS" == id
    ensures |id| <= 5 ==> r == ""
  {
    Slice(id, 0, -5)
  }

  /** `DataFrame.update`: a location that also has an RFC CHPS alias takes
      that alias (suffix dropped) as its NWS id; other rows are unchanged. */
  function UpdateAliases(alias: seq<Alias>, chps: map<string, string>): (r: seq<Alias>)
    ensures |r| == |alias|
    ensures forall i :: 0 <= i < |alias| ==> r[i].location == alias[i].location
    ensures forall i :: 0 <= i < |alias| && alias[i].location !in chps ==> r[i] == alias[i]
    ensures forall i :: 0 <= i < |alias| && alias[i].location in chps ==>
      r[i].nwsId + "_CHPS" == chps[alias[i].location] || !EndsWith(chps[alias[i].location], "_CHPS")
  {
    seq(|alias|, i requires 0 <= i < |alias| =>
      var a := alias[i];
      if a.location in chps then Alias(a.location, ChpsAliasId(chps[a.location])) else a)
  }

  /** Updating twice with CHPS ids that carry their suffix is updating
      once. */
  lemma UpdateOnce(alias: seq<Alias>, chps: map<string, string>)
    ensures UpdateAliases(UpdateAliases(alias, chps), chps) == UpdateAliases(alias, chps)
  {
  }

  /** Another row has the same NWS id (`duplicated(keep=False)`). */
  ghost predicate Duplicated(alias: seq<Alias>, i: nat)
    requires i < |alias|
  {
    exists j :: 0 <= j < |alias| && j != i && alias[j].nwsId == alias[i].nwsId
  }

  /** A row survives unless it is duplicated and its location is a
      sub-location (holds a '-'). */
  predicate Kept(alias: seq<Alias>, i: nat)
    requires i < |alias|
  {
    !(Contains(alias[i].location, "-")
      && exists j :: 0 <= j < |alias| && j != i && alias[j].nwsId == alias[i].nwsId)
  }

  /** The surviving rows at or after `k`, in order. */
  function KeptFrom(alias: seq<Alias>, k: nat): (r: seq<Alias>)
    requires k <= |alias|
    ensures forall x :: x in r ==> exists i :: k <= i < |alias| && x == alias[i] && Kept(alias, i)
    ensures forall i :: k <= i < |alias| && Kept(alias, i) ==> alias[i] in r
    ensures |r| <= |alias| - k
    decreases |alias| - k
  {
    if k == |alias| then []
    else
      var rest := KeptFrom(alias, k + 1);
      if Kept(alias, k) then [alias[k]] + rest else rest
  }

  /** Drops duplicated NWS ids held by sub-locations. */
  function DropSubLocations(alias: seq<Alias>): (r: seq<Alias>)
    ensures forall x :: x in r ==> exists i :: 0 <= i < |alias| && x == alias[i] && Kept(alias, i)
    ensures forall i :: 0 <= i < |alias| && Kept(alias, i) ==> alias[i] in r
  {
    KeptFrom(alias, 0)
  }

  /** A row other than the base one that shares its NWS id and is a
      sub-location is dropped. */
  lemma OtherRowDropped(alias: seq<Alias>, b: nat, i: nat)
    requires b < |alias| && i < |alias| && i != b
    requires alias[i].nwsId == alias[b].nwsId && Contains(alias[i].location, "-")
    ensures !Kept(alias, i)
  {
  }

  /** When every row sharing an NWS id is a sub-location except one, that
      one names the series of the id. */
  lemma BaseLocationChosen(alias: seq<Alias>, b: nat, param: string, version: string)
    requires b < |alias| && !Contains(alias[b].location, "-")
    requires forall j :: 0 <= j < |alias| && j != b && alias[j].nwsId == alias[b].nwsId ==>
      Contains(alias[j].location, "-")
    ensures var r := CreateTsId(alias[b].nwsId, param, DropSubLocations(alias), version);
      r.Ok? && r.value.0 == alias[b].location
  {
    var n := alias[b].nwsId;
    var d := DropSubLocations(alias);
    assert Kept(alias, b);
    assert alias[b] in d;
    forall i | 0 <= i < |alias| && i != b && alias[i].nwsId == n
      ensures !Kept(alias, i)
    {
      OtherRowDropped(alias, b, i);
    }
    assert forall x :: x in d && x.nwsId == n ==> x == alias[b];
    var r := CreateTsId(n, param, d, version);
    var k :| 0 <= k < |d| && d[k] == alias[b];
    assert d[k].nwsId == n;
    var i :| 0 <= i < |d| && d[i].nwsId == n && r.value.0 == d[i].location;
    assert d[i] in d;
  }

  // ---------------------------------------------------------------------
  // Events
  // ---------------------------------------------------------------------

  /** The attributes of one `event` element. */
  datatype Event = Event(date: string, time: string, value: string)

  /** A stored value: the event's own text, or the CWMS missing number. */
  datatype Value = Text(text: string) | Number(n: int)

  datatype Point = Point(time: DateTime, value: Value, quality: int)

  /** One event: its date and time read with `%Y-%m-%d %H:%M:%S`; a value
      equal to the header's missing value becomes the CWMS missing value
      with quality 5, any other keeps its text with quality 0. */
  function EventPoint(e: Event, missVal: string): (r: Result<Point>)
    ensures r.Ok? <==> ParseIso(e.date + " " + e.time, ' ').Ok?
    ensures r.Ok? ==> r.value.time == ParseIso(e.date + " " + e.time, ' ').value
    ensures r.Ok? ==> (r.value.quality == MissingQuality <==> e.value == missVal)
    ensures r.Ok? && e.value == missVal ==> r.value.value == Number(MissingCwmsValue)
    ensures r.Ok? && e.value != missVal ==> r.value.value == Text(e.value) && r.value.quality == 0
  {
    var t :- ParseIso(e.date + " " + e.time, ' ');
    if e.value == missVal then Ok(Point(t, Number(MissingCwmsValue), MissingQuality))
    else Ok(Point(t, Text(e.value), 0))
  }

  /** An event whose date and time are the two halves of a written time
      reads back as that time. */
  lemma EventTimeReadBack(t: DateTime, value: string, missVal: string)
    requires Valid(t) && 1 <= t.year < 10000
    ensures var s := FormatIso(t, ' ');
      var r := EventPoint(Event(s[..10], s[11..], value), missVal);
      r.Ok? && r.value.time == t
  {
    var s := FormatIso(t, ' ');
    SmallPowers();
    assert s[10] == ' ';
    assert s[..10] + " " + s[11..] == s;
    IsoRoundTrip(t, ' ');
  }

  // ---------------------------------------------------------------------
  // Series
  // ---------------------------------------------------------------------

  /** The header elements a series must have; a missing one is None. */
  datatype Header = Header(locationId: Option<string>, parameterId: Option<string>,
                           units: Option<string>, missVal: Option<string>)

  datatype Series = Series(header: Header, events: seq<Event>)

  /** The header texts once all four are present. */
  datatype Fields = Fields(locationId: string, parameterId: string, units: string, missVal: string)

  /** One stored time series: what `timeseries_df_to_json` is given. */
  datatype Stored = Stored(tsId: string, units: string, points: seq<Point>, versionDate: Option<string>)

  /** Reading `.text` of a missing header element raises AttributeError. */
  function ReadHeader(h: Header): (r: Result<Fields>)
    ensures r.Ok? <==> h.locationId.Some? && h.parameterId.Some? && h.units.Some? && h.missVal.Some?
    ensures r.Ok? ==> r.value.locationId == h.locationId.value && r.value.parameterId == h.parameterId.value
    ensures r.Fail? ==> r.fault == AttributeError
  {
    var loc :- Need(h.locationId, AttributeError);
    var pid :- Need(h.parameterId, AttributeError);
    var units :- Need(h.units, AttributeError);
    var miss :- Need(h.missVal, AttributeError);
    Ok(Fields(loc, pid, units, miss))
  }

  /** What a series with its CWMS parameter yields: the time series to
      store, or None when its location has no alias or an event time does
      not parse (the loader reports it and skips the series). */
  function Payload(nwsId: string, param: string, f: Fields, events: seq<Event>,
                   alias: seq<Alias>, version: string, versionDate: Option<string>): (r: Option<Stored>)
    ensures r.Some? <==>
      (CreateTsId(nwsId, param, alias, version).Ok?
       && forall i :: 0 <= i < |events| ==> EventPoint(events[i], f.missVal).Ok?)
    ensures r.Some? ==> r.value.tsId == CreateTsId(nwsId, param, alias, version).value.1
    ensures r.Some? ==> r.value.units == f.units && r.value.versionDate == versionDate
    ensures r.Some? ==> |r.value.points| == |events|
    ensures r.Some? ==> forall i :: 0 <= i < |events| ==> r.value.points[i] == EventPoint(events[i], f.missVal).value
  {
    match CreateTsId(nwsId, param, alias, version)
    case Fail(_) => None
    case Ok(ids) =>
      match MapAll(events, e => EventPoint(e, f.missVal))
      case Fail(_) => None
      case Ok(points) => Some(Stored(ids.1, f.units, points, versionDate))
  }

  /** One series as the loop body is written: an unknown parameter code
      leaves `usace_parameterId` as the previous series set it, and raises
      UnboundLocalError on the first series; the variable then holds the
      parameter after `parse_nws_loc_parm_data`. */
  function StepAsWritten(prev: Option<string>, s: Series, alias: seq<Alias>,
                         version: string, versionDate: Option<string>): (r: Result<(Option<string>, Option<Stored>)>)
    ensures r.Fail? <==>
      (ReadHeader(s.header).Fail?
       || (ReadHeader(s.header).value.parameterId !in ParamMap && prev.None?))
    ensures r.Fail? ==> r.fault == AttributeError || r.fault == UnboundName
    ensures r.Ok? ==>
      var f := ReadHeader(s.header).value;
      var used := if f.parameterId in ParamMap then ParamMap[f.parameterId] else prev.value;
      r.value.0 == Some(ParseLocParam(f.locationId, used).1)
  {
    var f :- ReadHeader(s.header);
    var mapped := if f.parameterId in ParamMap then Some(ParamMap[f.parameterId]) else prev;
    var used :- Need(mapped, UnboundName);
    var lp := ParseLocParam(f.locationId, used);
    Ok((Some(lp.1), Payload(lp.0, lp.1, f, s.events, alias, version, versionDate)))
  }

  /** `load_chps_data` as written: the series in order, carrying the
      parameter variable from one to the next. */
  function LoadAsWritten(series: seq<Series>, prev: Option<string>, alias: seq<Alias>,
                         version: string, versionDate: Option<string>): (r: Result<seq<Stored>>)
    ensures r.Ok? ==> |r.value| <= |series|
    ensures r.Ok? ==> forall x :: x in r.value ==> x.versionDate == versionDate
    decreases |series|
  {
    if |series| == 0 then Ok([])
    else
      var st :- StepAsWritten(prev, series[0], alias, version, versionDate);
      var rest :- LoadAsWritten(series[1..], st.0, alias, version, versionDate);
      Ok(Listed(st.1) + rest)
  }

  /** An unknown parameter code in the first series stops the load with
      UnboundLocalError. */
  lemma UnknownFirstAsWritten(s: Series, rest: seq<Series>, alias: seq<Alias>,
                              version: string, versionDate: Option<string>)
    requires ReadHeader(s.header).Ok? && ReadHeader(s.header).value.parameterId !in ParamMap
    ensures LoadAsWritten([s] + rest, None, alias, version, versionDate) == Fail(UnboundName)
  {
    assert ([s] + rest)[0] == s;
  }

  /** A location past whose fifth character NON occurs but no IN, OUT or
      LOC does. */
  predicate NonContribOnly(locId: string) {
    |locId| > 5 && locId != "BoundaryDiversion" && Contains(locId, "NON")
    && !Contains(Drop(locId, 5), "IN") && !Contains(Drop(locId, 5), "OUT") && !Contains(Drop(locId, 5), "LOC")
  }

  /** Such a location only appends the non-contributing suffix. */
  lemma NonContribAppends(locId: string, param: string)
    requires NonContribOnly(locId)
    ensures ParseLocParam(locId, param) == (Take(locId, 5), param + NonContrib)
  {
  }

  /** `ABCDENON` is such a location, with NWS id ABCDE. */
  lemma ExampleLocation()
    ensures NonContribOnly("ABCDENON") && Take("ABCDENON", 5) == "ABCDE"
  {
    assert Drop("ABCDENON", 5) == "NON";
    NoCharNoSub("NON", "IN", 'I');
    NoCharNoSub("NON", "OUT", 'U');
    NoCharNoSub("NON", "LOC", 'L');
    assert "ABCDENON" == "ABCDE" + "NON";
    ContainsSuffix("ABCDE", "NON");
  }

  /** After a mapped series, a series with an unknown code is stored under
      the parameter the previous series ended with instead of being
      skipped: at a non-contributing location both are stored, the second
      with the suffix appended twice. */
  lemma UnknownAfterMappedAsWritten(s1: Series, s2: Series, alias: seq<Alias>,
                                    version: string, versionDate: Option<string>)
    requires ReadHeader(s1.header).Ok? && ReadHeader(s2.header).Ok?
    requires ReadHeader(s1.header).value.parameterId in ParamMap
    requires ReadHeader(s2.header).value.parameterId !in ParamMap
    requires ReadHeader(s1.header).value.locationId == ReadHeader(s2.header).value.locationId
    requires NonContribOnly(ReadHeader(s1.header).value.locationId)
    ensures var f1, f2 := ReadHeader(s1.header).value, ReadHeader(s2.header).value;
      var nwsId := Take(f1.locationId, 5);
      var p := ParamMap[f1.parameterId] + NonContrib;
      LoadAsWritten([s1, s2], None, alias, version, versionDate)
        == Ok(Listed(Payload(nwsId, p, f1, s1.events, alias, version, versionDate))
              + Listed(Payload(nwsId, p + NonContrib, f2, s2.events, alias, version, versionDate)))
  {
    var f1 := ReadHeader(s1.header).value;
    var p := ParamMap[f1.parameterId] + NonContrib;
    var f2 := ReadHeader(s2.header).value;
    var nwsId := Take(f1.locationId, 5);
    NonContribAppends(f1.locationId, ParamMap[f1.parameterId]);
    NonContribAppends(f1.locationId, p);
    var o1 := Payload(nwsId, p, f1, s1.events, alias, version, versionDate);
    var o2 := Payload(nwsId, p + NonContrib, f2, s2.events, alias, version, versionDate);
    assert StepAsWritten(None, s1, alias, version, versionDate) == Ok((Some(p), o1));
    assert StepAsWritten(Some(p), s2, alias, version, versionDate) == Ok((Some(p + NonContrib), o2));
    assert LoadAsWritten([], Some(p + NonContrib), alias, version, versionDate) == Ok([]);
    assert [s2][0] == s2 && [s2][1..] == [];
    assert LoadAsWritten([s2], Some(p), alias, version, versionDate) == Ok(Listed(o2) + []);
    assert Listed(o2) + [] == Listed(o2);
    var a := [s1, s2];
    assert a[0] == s1 && a[1..] == [s2];
  }

  /** One series as the loader evidently intends it: an unknown parameter
      code skips the series. */
  function Step(s: Series, alias: seq<Alias>, version: string, versionDate: Option<string>): (r: Result<Option<Stored>>)
    ensures r.Fail? <==> ReadHeader(s.header).Fail?
    ensures r.Fail? ==> r.fault == AttributeError
    ensures r.Ok? && r.value.Some? ==> ReadHeader(s.header).value.parameterId in ParamMap
    ensures r.Ok? && r.value.Some? ==> r.value.value.versionDate == versionDate
    ensures r.Ok? && r.value.Some? ==>
      var f := ReadHeader(s.header).value;
      var lp := ParseLocParam(f.locationId, ParamMap[f.parameterId]);
      CreateTsId(lp.0, lp.1, alias, version).Ok?
        && r.value.value.tsId == CreateTsId(lp.0, lp.1, alias, version).value.1
  {
    var f :- ReadHeader(s.header);
    if f.parameterId !in ParamMap then Ok(None)
    else
      var lp := ParseLocParam(f.locationId, ParamMap[f.parameterId]);
      Ok(Payload(lp.0, lp.1, f, s.events, alias, version, versionDate))
  }

  /** `load_chps_data` with unknown codes skipped: every stored series
      comes from one series of the file, through its own parameter. */
  function Load(series: seq<Series>, alias: seq<Alias>, version: string, versionDate: Option<string>): (r: Result<seq<Stored>>)
    ensures r.Ok? <==> forall i :: 0 <= i < |series| ==> ReadHeader(series[i].header).Ok?
    ensures r.Fail? ==> r.fault == AttributeError
    ensures r.Ok? ==> |r.value| <= |series|
    ensures r.Ok? ==> forall x :: x in r.value ==>
      exists i :: 0 <= i < |series| && Step(series[i], alias, version, versionDate) == Ok(Some(x))
  {
    var step := s => Step(s, alias, version, versionDate);
    GatherOk(series, step);
    var r := Gather(series, step);
    assert r.Ok? ==> forall x :: x in r.value ==>
      exists i :: 0 <= i < |series| && Step(series[i], alias, version, versionDate) == Ok(Some(x)) by {
      if r.Ok? {
        forall x | x in r.value
          ensures exists i :: 0 <= i < |series| && Step(series[i], alias, version, versionDate) == Ok(Some(x))
        {
          GatherFrom(series, step, x);
        }
      }
    }
    r
  }

  /** Series are independent: loading two lists of series together stores
      what loading each would. */
  lemma LoadAppend(a: seq<Series>, b: seq<Series>, alias: seq<Alias>,
                   version: string, versionDate: Option<string>)
    requires Load(a, alias, version, versionDate).Ok? && Load(b, alias, version, versionDate).Ok?
    ensures Load(a + b, alias, version, versionDate)
      == Ok(Load(a, alias, version, versionDate).value + Load(b, alias, version, versionDate).value)
  {
    GatherAppend(a, b, s => Step(s, alias, version, versionDate));
  }

  /** A series with an unknown parameter code changes nothing, wherever it
      stands. */
  lemma UnknownSkipped(a: seq<Series>, s: Series, b: seq<Series>, alias: seq<Alias>,
                       version: string, versionDate: Option<string>)
    requires Load(a, alias, version, versionDate).Ok? && Load(b, alias, version, versionDate).Ok?
    requires ReadHeader(s.header).Ok? && ReadHeader(s.header).value.parameterId !in ParamMap
    ensures Load(a + [s] + b, alias, version, versionDate) == Load(a + b, alias, version, versionDate)
  {
    assert [s][0] == s && [s][1..] == [];
    assert Load([s], alias, version, versionDate) == Ok([]);
    var lb := Load(b, alias, version, versionDate).value;
    LoadAppend([s], b, alias, version, versionDate);
    assert [] + lb == lb;
    assert Load([s] + b, alias, version, versionDate) == Ok(lb);
    LoadAppend(a, [s] + b, alias, version, versionDate);
    LoadAppend(a, b, alias, version, versionDate);
    assert a + [s] + b == a + ([s] + b);
  }

  // ---------------------------------------------------------------------
  // The run, from the file name
  // ---------------------------------------------------------------------

  /** `%Y%m%d%H%M%S`, the stamp in a forecast file name. */
  const StampFormat: seq<Directive> := [Year, Month, Day, Hour, Minute, Second]

  /** `strptime(s, '%Y%m%d%H%M%S')`. */
  function ParseStamp(s: string): (r: Result<DateTime>)
    ensures r.Ok? ==> Valid(r.value) && 1 <= r.value.year <= 9999
    ensures r.Fail? ==> r.fault == ValueError
  {
    var p :- Scan(StampFormat, s);
    Build(FieldValue(p[0]), FieldValue(p[1]), FieldValue(p[2]), FieldValue(p[3]), FieldValue(p[4]), FieldValue(p[5]))
  }

  /** A time as `%Y%m%d%H%M%S` writes it. */
  function FormatStamp(t: DateTime): (r: string)
    requires Valid(t) && 0 <= t.year < 10000
    ensures |r| == 14
  {
    SmallPowers();
    FormatCompact(t) + Digits(t.second, 2)
  }

  /** A written stamp reads back as the same time. */
  lemma StampRoundTrip(t: DateTime)
    requires Valid(t) && 1 <= t.year < 10000
    ensures ParseStamp(FormatStamp(t)) == Ok(t)
  {
    StampFields(t);
    var s := FormatStamp(t);
    StampTakes(s, t.year, t.month, t.day, t.hour, t.minute, t.second);
    StampLaid(s);
    StampScan(s);
  }

  /** Each field of a written stamp reads back as that field. */
  lemma StampFields(t: DateTime)
    requires Valid(t) && 1 <= t.year < 10000
    ensures var s := FormatStamp(t);
      FieldAt(s, 0, 4) == Some(t.year) && FieldAt(s, 4, 2) == Some(t.month)
      && FieldAt(s, 6, 2) == Some(t.day) && FieldAt(s, 8, 2) == Some(t.hour)
      && FieldAt(s, 10, 2) == Some(t.minute) && FieldAt(s, 12, 2) == Some(t.second)
  {
    SmallPowers();
    var c, sec := FormatCompact(t), Digits(t.second, 2);
    CompactFields(t);
    FieldInFront(c, sec, 0, 4);
    FieldInFront(c, sec, 4, 2);
    FieldInFront(c, sec, 6, 2);
    FieldInFront(c, sec, 8, 2);
    FieldInFront(c, sec, 10, 2);
    FieldOfDigits(c + sec, 12, t.second, 2);
  }

  lemma StampTakes(s: string, y: nat, mo: nat, d: nat, h: nat, mi: nat, sec: nat)
    requires |s| == 14 && FieldAt(s, 0, 4) == Some(y) && FieldAt(s, 4, 2) == Some(mo)
    requires FieldAt(s, 6, 2) == Some(d) && FieldAt(s, 8, 2) == Some(h) && FieldAt(s, 10, 2) == Some(mi)
    requires FieldAt(s, 12, 2) == Some(sec) && 1 <= mo <= 12 && 1 <= d <= 31 && h < 24 && mi < 60 && sec < 60
    ensures Takes(Year, s, 0, 4) && Takes(Month, s, 4, 6) && Takes(Day, s, 6, 8)
    ensures Takes(Hour, s, 8, 10) && Takes(Minute, s, 10, 12) && Takes(Second, s, 12, 14)
    ensures FieldValue(s[0..4]) == y && FieldValue(s[4..6]) == mo && FieldValue(s[6..8]) == d
    ensures FieldValue(s[8..10]) == h && FieldValue(s[10..12]) == mi && FieldValue(s[12..14]) == sec
  {
    YearPrefers(s, 0, y);
    TwoPrefers(Month, s, 4, mo);
    TwoPrefers(Day, s, 6, d);
    TwoPrefers(Hour, s, 8, h);
    TwoPrefers(Minute, s, 10, mi);
    TwoPrefers(Second, s, 12, sec);
  }

  lemma StampLaid(s: string)
    requires |s| == 14 && Takes(Year, s, 0, 4) && Takes(Month, s, 4, 6) && Takes(Day, s, 6, 8)
    requires Takes(Hour, s, 8, 10) && Takes(Minute, s, 10, 12) && Takes(Second, s, 12, 14)
    ensures Laid(StampFormat, s, [0, 4, 6, 8, 10, 12, 14])
  {
    assert Laid([], s, [14]);
    LaidCons(Second, [], s, 12, [14]);
    LaidCons(Minute, [Second], s, 10, [12, 14]);
    LaidCons(Hour, [Minute, Second], s, 8, [10, 12, 14]);
    LaidCons(Day, [Hour, Minute, Second], s, 6, [8, 10, 12, 14]);
    LaidCons(Month, [Day, Hour, Minute, Second], s, 4, [6, 8, 10, 12, 14]);
    LaidCons(Year, [Month, Day, Hour, Minute, Second], s, 0, [4, 6, 8, 10, 12, 14]);
  }

  lemma StampScan(s: string)
    requires |s| == 14 && Laid(StampFormat, s, [0, 4, 6, 8, 10, 12, 14])
    ensures Scan(StampFormat, s) == Ok(StampPieces(s))
  {
    LaidScan(StampFormat, s, [0, 4, 6, 8, 10, 12, 14]);
  }

  /** The six pieces of a text read as `%Y%m%d%H%M%S`. */
  function StampPieces(s: string): (r: seq<string>)
    requires |s| == 14
    ensures |r| == 6 && r[0] == s[0..4] && r[1] == s[4..6] && r[2] == s[6..8]
    ensures r[3] == s[8..10] && r[4] == s[10..12] && r[5] == s[12..14]
  {
    var a := Pieces(s, [0, 4, 6, 8, 10, 12, 14]);
    assert a[0] == s[0..4] && a[1] == s[4..6] && a[2] == s[6..8];
    assert a[3] == s[8..10] && a[4] == s[10..12] && a[5] == s[12..14];
    a
  }

  /** What the file name decides about the run. */
  datatype RunInfo = RunInfo(fileTime: DateTime, baseName: string, version: string,
                             versionDate: Option<string>, textKey: string, runText: string)

  /** `filename.split(marker)[1].split('.')[0]`. */
  function BaseName(filename: string, marker: string): (r: Result<string>)
    requires |marker| > 0
    ensures r.Ok? <==> Contains(filename, marker)
    ensures r.Fail? ==> r.fault == IndexError
  {
    SplitCount(filename, marker);
    var after :- At(Split(filename, marker), 1);
    Ok(Split(after, ".")[0])
  }

  lemma SplitCount(s: string, sep: string)
    requires |sep| > 0
    ensures |Split(s, sep)| >= 2 <==> Contains(s, sep)
  {
    if !Contains(s, sep) {
      SplitNoSep(s, sep);
    }
  }

  /** The version date of a main run: the file's day at 01:11:00, as
      `%Y-%m-%dT%H:%M:%S.%f` cut to milliseconds, with `Z`. */
  function MainVersionDate(t: DateTime): (r: string)
    requires Valid(t) && 1 <= t.year <= 9999
    ensures |r| == 24 && r[19..] == ".000Z"
  {
    FormatIso(DateTime(t.year, t.month, t.day, 1, 11, 0), 'T') + ".000Z"
  }

  /** The file-name rules: the stamp after the first dot is the run time;
      an `auto` run is checked before a `CRF` run, and both get no version
      date; any other is a main run dated at 01:11 of its day. */
  function Classify(filename: string): (r: Result<RunInfo>)
    ensures |Split(filename, ".")| < 2 ==> r == Fail(IndexError)
    ensures r.Fail? ==> r.fault == IndexError || r.fault == ValueError
    ensures r.Ok? ==> ParseStamp(Split(filename, ".")[1]) == Ok(r.value.fileTime)
    ensures r.Ok? ==> (r.value.versionDate.None? <==> Contains(filename, "auto") || Contains(filename, "CRF"))
    ensures r.Ok? && Contains(filename, "auto") ==>
      r.value.version == VersionBase + "-Auto" && r.value.textKey == "cva_" + Take(r.value.baseName, 12)
    ensures r.Ok? && !Contains(filename, "auto") && Contains(filename, "CRF") ==>
      r.value.version == VersionBase + "-CRF" && r.value.textKey == "cvc_" + Take(r.value.baseName, 12)
    ensures r.Ok? && !Contains(filename, "auto") && !Contains(filename, "CRF") ==>
      r.value.version == VersionBase && r.value.textKey == "cv_" + Take(r.value.baseName, 12)
  {
    var stamp :- At(Split(filename, "."), 1);
    var t :- ParseStamp(stamp);
    var runText := FormatIso(t, ' ');
    if Contains(filename, "auto") then
      var base :- BaseName(filename, "MSR_main_auto_");
      Ok(RunInfo(t, base, VersionBase + "-Auto", None, "cva_" + Take(base, 12), runText))
    else if Contains(filename, "CRF") then
      var base :- BaseName(filename, "MSR_CRF_");
      Ok(RunInfo(t, base, VersionBase + "-CRF", None, "cvc_" + Take(base, 12), runText))
    else
      var base :- BaseName(filename, "MSR_main_");
      Ok(RunInfo(t, base, VersionBase, Some(MainVersionDate(t)), "cv_" + Take(base, 12), runText))
  }

  /** The version date of a main run reads back as 01:11:00 of the file's
      day, and the stored run text as the file time. */
  lemma RunTimesReadBack(filename: string)
    requires Classify(filename).Ok?
    ensures var run := Classify(filename).value;
      ParseIso(run.runText, ' ') == Ok(run.fileTime)
    ensures var run := Classify(filename).value;
      run.versionDate.Some? ==>
        var t := run.fileTime;
        ParseIso(run.versionDate.value[..19], 'T') == Ok(DateTime(t.year, t.month, t.day, 1, 11, 0))
  {
    ClassifyTimes(filename);
    var run := Classify(filename).value;
    IsoRoundTrip(run.fileTime, ' ');
    if run.versionDate.Some? {
      MainVersionReadBack(run.fileTime);
    }
  }

  /** The run text is the file time written out, and a version date is the
      main-run date of the file time. */
  lemma ClassifyTimes(filename: string)
    requires Classify(filename).Ok?
    ensures var run := Classify(filename).value;
      Valid(run.fileTime) && 1 <= run.fileTime.year <= 9999
      && run.runText == FormatIso(run.fileTime, ' ')
      && (run.versionDate.Some? ==> run.versionDate.value == MainVersionDate(run.fileTime))
  {
  }

  lemma MainVersionReadBack(t: DateTime)
    requires Valid(t) && 1 <= t.year <= 9999
    ensures ParseIso(MainVersionDate(t)[..19], 'T') == Ok(DateTime(t.year, t.month, t.day, 1, 11, 0))
  {
    var v := DateTime(t.year, t.month, t.day, 1, 11, 0);
    IsoRoundTrip(v, 'T');
    assert MainVersionDate(t)[..19] == FormatIso(v, 'T');
  }

  /** The whole loader as written: classify the file name, build the alias
      table from the Handbook 5 rows and the RFC CHPS aliases, and load the
      series under the run's version, the parameter variable carried from
      one series to the next. */
  function ProgramAsWritten(filename: string, series: seq<Series>, alias: seq<Alias>, chps: map<string, string>): (r: Result<(RunInfo, seq<Stored>)>)
    ensures Classify(filename).Fail? ==> r == Fail(Classify(filename).fault)
    ensures r.Ok? ==> Classify(filename) == Ok(r.value.0)
    ensures r.Ok? ==> forall x :: x in r.value.1 ==> x.versionDate == r.value.0.versionDate
    ensures r.Ok? ==> |r.value.1| <= |series|
  {
    var run :- Classify(filename);
    var table := DropSubLocations(UpdateAliases(alias, chps));
    var stored :- LoadAsWritten(series, None, table, run.version, run.versionDate);
    Ok((run, stored))
  }

  /** A file whose first series has an unknown parameter code stores
      nothing: the loader stops with UnboundLocalError. */
  lemma ProgramUnknownFirstAsWritten(filename: string, s: Series, rest: seq<Series>,
                                     alias: seq<Alias>, chps: map<string, string>)
    requires Classify(filename).Ok?
    requires ReadHeader(s.header).Ok? && ReadHeader(s.header).value.parameterId !in ParamMap
    ensures ProgramAsWritten(filename, [s] + rest, alias, chps) == Fail(UnboundName)
  {
    var run := Classify(filename).value;
    UnknownFirstAsWritten(s, rest, DropSubLocations(UpdateAliases(alias, chps)), run.version, run.versionDate);
  }

  /** The whole loader as evidently intended: as `ProgramAsWritten`, but a
      series with an unknown parameter code is skipped. */
  function Program(filename: string, series: seq<Series>, alias: seq<Alias>, chps: map<string, string>): (r: Result<(RunInfo, seq<Stored>)>)
    ensures Classify(filename).Fail? ==> r == Fail(Classify(filename).fault)
    ensures r.Ok? ==> Classify(filename) == Ok(r.value.0)
    ensures r.Ok? ==> forall x :: x in r.value.1 ==> x.versionDate == r.value.0.versionDate
    ensures r.Ok? ==> |r.value.1| <= |series|
  {
    var run :- Classify(filename);
    var table := DropSubLocations(UpdateAliases(alias, chps));
    var stored :- Load(series, table, run.version, run.versionDate);
    Ok((run, stored))
  }
}
