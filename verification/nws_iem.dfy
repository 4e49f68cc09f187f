/** The IEM observation-history loader (`getNwsIem.py`): for each location,
    for each day of the look-back window, the first non-null reading of
    each mapped SHEF code in the day's observation list is stored as one
    point under the location's series for that code.

    The location groups, the station index, the HTTP requests and the store
    are outside the model: it receives, per day, the response's `data` list
    (None when the response has no `data`) and returns the points the loader
    would store.
 */
module NwsIem {
  import opened Wrappers
  import opened PyText
  import opened Civil
  import opened Strptime

  // ---------------------------------------------------------------------
  // The first non-null value of a key
  // ---------------------------------------------------------------------

  /** A JSON observation: each field a string or null. */
  type Record = map<string, Option<string>>

  /** The record carries a non-null value for `key`. */
  predicate Has(d: Record, key: string) {
    key in d && d[key].Some?
  }

  /** `find_first_value`: the timestamp and value of the first record with
      a non-null `key`, None when there is none; a KeyError when that record
      has no timestamp field. */
  function FindFirstValue(ds: seq<Record>, key: string, stamp: string): (r: Result<Option<(Option<string>, string)>>)
    ensures r == Ok(None) <==> forall i :: 0 <= i < |ds| ==> !Has(ds[i], key)
    ensures r.Ok? && r.value.Some? ==>
      exists i :: 0 <= i < |ds| && Has(ds[i], key) && (forall j :: 0 <= j < i ==> !Has(ds[j], key))
        && stamp in ds[i] && r.value.value == (ds[i][stamp], ds[i][key].value)
    ensures r.Fail? ==> r.fault == KeyError
    ensures r.Fail? ==>
      exists i :: 0 <= i < |ds| && Has(ds[i], key) && (forall j :: 0 <= j < i ==> !Has(ds[j], key))
        && stamp !in ds[i]
    decreases |ds|
  {
    if |ds| == 0 then Ok(None)
    else if Has(ds[0], key) then
      if stamp in ds[0] then Ok(Some((ds[0][stamp], ds[0][key].value))) else Fail(KeyError)
    else
      var r := FindFirstValue(ds[1..], key, stamp);
      assert forall i :: 1 <= i < |ds| ==> ds[1..][i - 1] == ds[i];
      r
  }

  /** Records after the first one carrying the key are never inspected. */
  lemma {:induction false} LaterRecordsIgnored(ds: seq<Record>, later: seq<Record>, key: string, stamp: string)
    requires exists i :: 0 <= i < |ds| && Has(ds[i], key)
    ensures FindFirstValue(ds + later, key, stamp) == FindFirstValue(ds, key, stamp)
    decreases |ds|
  {
    assert (ds + later)[0] == ds[0];
    if !Has(ds[0], key) {
      assert (ds + later)[1..] == ds[1..] + later;
      var i :| 0 <= i < |ds| && Has(ds[i], key);
      assert ds[1..][i - 1] == ds[i];
      LaterRecordsIgnored(ds[1..], later, key, stamp);
    }
  }

  // ---------------------------------------------------------------------
  // Network and dates
  // ---------------------------------------------------------------------

  /** `iem_network.split('_')[0] + '_COOP'`: the state's cooperative
      network. */
  function Network(iemNetwork: string): (r: string)
    ensures EndsWith(r, "_COOP")
  {
    Split(iemNetwork, "_")[0] + "_COOP"
  }

  /** The network's state prefix is kept and whatever followed it is
      replaced. */
  lemma NetworkOfState(state: string, rest: string)
    requires '_' !in state
    ensures Network(state + "_" + rest) == state + "_COOP"
    ensures Network(state) == state + "_COOP"
  {
    assert forall j :: 0 <= j < |state| ==> state[j] != '_';
    SplitCharFirst(state, '_', rest);
    NoCharSplit(state, '_');
  }

  /** Naming the cooperative network again changes nothing. */
  lemma NetworkIdempotent(iemNetwork: string)
    ensures Network(Network(iemNetwork)) == Network(iemNetwork)
  {
    var state := Split(iemNetwork, "_")[0];
    assert '_' !in state by {
      if '_' in state {
        var k :| 0 <= k < |state| && state[k] == '_';
        SplitFieldsFree(iemNetwork, k);
      }
    }
    NetworkOfState(state, "COOP");
    assert state + "_COOP" == state + "_" + "COOP";
  }

  /** The first field of a split on '_' holds no '_'. */
  lemma SplitFieldsFree(s: string, k: nat)
    requires k < |Split(s, "_")[0]|
    ensures Split(s, "_")[0][k] != '_'
  {
    var f := Find(s, "_");
    if f < 0 {
      SplitNoSep(s, "_");
      assert Split(s, "_")[0] == s;
      assert !OccursAt(s, "_", k);
      assert s[k..k + 1] != "_";
      assert s[k..k + 1][0] == s[k];
    } else {
      SplitFirstPrefix(s, "_");
      assert Split(s, "_")[0] == s[..f];
      assert !OccursAt(s, "_", k);
      assert s[k..k + 1][0] == s[k];
    }
  }

  /** The days requested: `days_back` days before today through today,
      oldest first (none when `days_back` is negative). */
  function DateList(today: Date, daysBack: int): (r: seq<Date>)
    requires ValidDay(today)
    ensures |r| == if daysBack < 0 then 0 else daysBack + 1
    ensures forall i :: 0 <= i < |r| ==> ValidDay(r[i]) && DayOf(r[i]) == DayOf(today) - daysBack + i
  {
    if daysBack < 0 then []
    else seq(daysBack + 1, i requires 0 <= i <= daysBack => DaysBefore(today, daysBack - i))
  }

  /** `today - timedelta(days=k)`. */
  function DaysBefore(today: Date, k: int): (r: Date)
    requires ValidDay(today)
    ensures ValidDay(r) && DayOf(r) == DayOf(today) - k
  {
    AddDays(today, -k)
  }

  /** Consecutive days, ending today. */
  lemma DateListSpan(today: Date, daysBack: nat)
    requires ValidDay(today)
    ensures var r := DateList(today, daysBack);
      && DayOf(r[|r| - 1]) == DayOf(today)
      && forall i :: 0 < i < |r| ==> DayOf(r[i]) == DayOf(r[i - 1]) + 1
  {
  }

  // ---------------------------------------------------------------------
  // Series and units
  // ---------------------------------------------------------------------

  const Version: string := "Raw-NWS-IEM"

  /** SHEF code to the parameter part of its time-series id, in the order
      the loader walks them. */
  const TsMapping: seq<(string, string)> := [
    ("GDIRZZZ", "Depth-Frost.Inst.~1Week.0." + Version),
    ("GTIRZZZ", "Depth-Frost-Thawed.Inst.~1Week.0." + Version),
    ("ICIRZZZ", "%-Ice.Inst.~1Week.0." + Version),
    ("ITIRZZZ", "Depth-Ice.Inst.~1Week.0." + Version),
    ("UDIRZZZ", "Dir-Wind.Inst.~1Day.0." + Version),
    ("USIRZZZ", "Speed-Wind.Inst.~1Day.0." + Version),
    ("TWIRZZZ", "Temp-Water.Inst.~1Day.0." + Version)]

  /** Parameter fragment to units, in the order the loader tests them. */
  const UnitMapping: seq<(string, string)> := [
    ("Depth", "in"), ("Dir-Wind", "deg"), ("%-Ice", "%"), ("Speed-Wind", "mph"), ("Temp-Water", "F")]

  /** The loop over the unit table: every fragment the id contains assigns
      its unit, so the last one wins; None when none does (the name would
      be unbound). */
  function UnitLoop(tsId: string, ps: seq<(string, string)>, current: Option<string>): (r: Option<string>)
    ensures r.Some? ==> r == current || exists i :: 0 <= i < |ps| && r.value == ps[i].1
    decreases |ps|
  {
    if |ps| == 0 then current
    else UnitLoop(tsId, ps[1..], if Contains(tsId, ps[0].0) then Some(ps[0].1) else current)
  }

  /** Reference reading: the unit of the last fragment the id contains. */
  function LastUnit(tsId: string, ps: seq<(string, string)>): (r: Option<string>)
    ensures r.None? <==> forall i :: 0 <= i < |ps| ==> !Contains(tsId, ps[i].0)
    ensures r.Some? ==>
      exists i :: 0 <= i < |ps| && Contains(tsId, ps[i].0) && r.value == ps[i].1
        && forall j :: i < j < |ps| ==> !Contains(tsId, ps[j].0)
  {
    LastMatch(ps, key => Contains(tsId, key))
  }

  /** The value of the last pair whose key satisfies `p`. */
  function LastMatch(ps: seq<(string, string)>, p: string -> bool): (r: Option<string>)
    ensures r.None? <==> forall i :: 0 <= i < |ps| ==> !p(ps[i].0)
    ensures r.Some? ==>
      exists i :: 0 <= i < |ps| && p(ps[i].0) && r.value == ps[i].1
        && forall j :: i < j < |ps| ==> !p(ps[j].0)
    decreases |ps|
  {
    if |ps| == 0 then None
    else if p(ps[|ps| - 1].0) then Some(ps[|ps| - 1].1)
    else
      var r := LastMatch(ps[..|ps| - 1], p);
      assert forall i :: 0 <= i < |ps| - 1 ==> ps[..|ps| - 1][i] == ps[i];
      r
  }

  /** The loop agrees with the reference: a later fragment overrides an
      earlier one, and the starting value survives only when nothing
      matches. */
  lemma {:induction false} UnitLoopIsLast(tsId: string, ps: seq<(string, string)>, current: Option<string>)
    ensures UnitLoop(tsId, ps, current) == if LastUnit(tsId, ps).Some? then LastUnit(tsId, ps) else current
    decreases |ps|
  {
    if |ps| > 0 {
      var next := if Contains(tsId, ps[0].0) then Some(ps[0].1) else current;
      UnitLoopIsLast(tsId, ps[1..], next);
      LastUnitCons(tsId, ps);
    }
  }

  /** The reference reading, peeling off the first fragment. */
  lemma {:induction false} LastUnitCons(tsId: string, ps: seq<(string, string)>)
    requires |ps| > 0
    ensures LastUnit(tsId, ps) == if LastUnit(tsId, ps[1..]).Some? then LastUnit(tsId, ps[1..])
      else if Contains(tsId, ps[0].0) then Some(ps[0].1) else None
    decreases |ps|
  {
    if |ps| > 1 && !Contains(tsId, ps[|ps| - 1].0) {
      LastUnitCons(tsId, ps[..|ps| - 1]);
      assert ps[..|ps| - 1][1..] == ps[1..][..|ps[1..]| - 1];
      assert ps[..|ps| - 1][0] == ps[0];
    }
  }

  /** The units a series id is stored with. */
  function Units(tsId: string): (r: Option<string>)
    ensures r == LastUnit(tsId, UnitMapping)
  {
    UnitLoopIsLast(tsId, UnitMapping, None);
    UnitLoop(tsId, UnitMapping, None)
  }

  /** A fragment found in `loc + "." + v` is in `loc`, in `v`, or spans
      the '.' between them. */
  lemma NoStraddle(loc: string, v: string, key: string)
    requires Contains(loc + "." + v, key)
    ensures Contains(loc, key) || Contains(v, key) || '.' in key
  {
    var s := loc + "." + v;
    var j := Find(s, key);
    assert OccursAt(s, key, j);
    if j + |key| <= |loc| {
      assert s[j..j + |key|] == loc[j..j + |key|];
      ContainsAt(loc, key, j);
    } else if j > |loc| {
      var k := j - |loc| - 1;
      forall i | 0 <= i < |key| ensures v[k + i] == key[i] {
        assert s[j..j + |key|][i] == s[j + i];
      }
      assert v[k..k + |key|] == key;
      ContainsAt(v, key, k);
    } else {
      assert key[|loc| - j] == s[|loc|] == '.';
    }
  }

  /** The id's parameter part, when it begins with the fragment, makes the
      id contain it. */
  lemma ContainsInParameter(loc: string, key: string, rest: string)
    ensures Contains(loc + "." + (key + rest), key)
  {
    var s := loc + "." + (key + rest);
    assert s[|loc| + 1..|loc| + 1 + |key|] == key;
    ContainsAt(s, key, |loc| + 1);
  }

  /** The last fragment contained decides, wherever it sits. */
  lemma LastUnitAt(tsId: string, ps: seq<(string, string)>, i: nat)
    requires i < |ps| && Contains(tsId, ps[i].0)
    requires forall j :: i < j < |ps| ==> !Contains(tsId, ps[j].0)
    ensures LastUnit(tsId, ps) == Some(ps[i].1)
  {
    var r := LastUnit(tsId, ps);
    var k :| 0 <= k < |ps| && Contains(tsId, ps[k].0) && r.value == ps[k].1
      && forall j :: k < j < |ps| ==> !Contains(tsId, ps[j].0);
    assert k == i;
  }

  /** The unit of `loc + "." + v` when `v` begins with fragment `i`, the
      location holds no fragment, and each later fragment has a character
      (`absent`) that `v` lacks. */
  lemma UnitOfParameter(loc: string, v: string, ps: seq<(string, string)>, i: nat, absent: seq<char>)
    requires i < |ps| && |ps[i].0| <= |v| && v[..|ps[i].0|] == ps[i].0
    requires forall j :: 0 <= j < |ps| ==> '.' !in ps[j].0 && !Contains(loc, ps[j].0)
    requires |absent| == |ps| - i - 1
    requires forall j :: i < j < |ps| ==> absent[j - i - 1] in ps[j].0
    requires forall k :: 0 <= k < |absent| ==> absent[k] !in v
    ensures LastUnit(loc + "." + v, ps) == Some(ps[i].1)
  {
    var tsId := loc + "." + v;
    var key := ps[i].0;
    assert v == key + v[|key|..];
    ContainsInParameter(loc, key, v[|key|..]);
    forall j | i < j < |ps|
      ensures !Contains(tsId, ps[j].0)
    {
      NoCharNoSub(v, ps[j].0, absent[j - i - 1]);
      if Contains(tsId, ps[j].0) {
        NoStraddle(loc, v, ps[j].0);
      }
    }
    LastUnitAt(tsId, ps, i);
  }

  /** A location name free of every unit fragment. */
  predicate PlainLocation(loc: string) {
    forall i :: 0 <= i < |UnitMapping| ==> !Contains(loc, UnitMapping[i].0)
  }

  /** Characters missing from both halves of a text are missing from it. */
  lemma LacksJoin(absent: seq<char>, head: string, tail: string)
    requires forall k :: 0 <= k < |absent| ==> absent[k] !in head
    requires forall k :: 0 <= k < |absent| ==> absent[k] !in tail
    ensures forall k :: 0 <= k < |absent| ==> absent[k] !in head + tail
  {
  }

  /** Characters of the later unit fragments that this parameter lacks. */
  lemma FrostLacks()
    ensures forall k :: 0 <= k < 4 ==> "i%dT"[k] !in TsMapping[0].1
  {
    LacksJoin("i%dT", "Depth-Frost.Inst.~1Week.0.", Version);
  }

  /** With a plain location name every mapped series gets the unit of its
      own parameter: depths in inches (frost, thawed frost and ice depth),
      ice cover in percent, wind direction in degrees, wind speed in mph,
      water temperature in Fahrenheit. */
  lemma FrostUnits(loc: string)
    requires PlainLocation(loc)
    ensures Units(loc + "." + TsMapping[0].1) == Some("in")
  {
    FrostLacks();
    UnitOfParameter(loc, TsMapping[0].1, UnitMapping, 0, "i%dT");
  }

  /** Characters of the later unit fragments that this parameter lacks. */
  lemma ThawedLacks()
    ensures forall k :: 0 <= k < 4 ==> "i%im"[k] !in TsMapping[1].1
  {
    LacksJoin("i%im", "Depth-Frost-Thawed.Inst.~1Week.0.", Version);
  }

  lemma ThawedUnits(loc: string)
    requires PlainLocation(loc)
    ensures Units(loc + "." + TsMapping[1].1) == Some("in")
  {
    ThawedLacks();
    UnitOfParameter(loc, TsMapping[1].1, UnitMapping, 0, "i%im");
  }

  /** Characters of the later unit fragments that this parameter lacks. */
  lemma IceCoverLacks()
    ensures forall k :: 0 <= k < 2 ==> "dT"[k] !in TsMapping[2].1
  {
    LacksJoin("dT", "%-Ice.Inst.~1Week.0.", Version);
  }

  lemma IceCoverUnits(loc: string)
    requires PlainLocation(loc)
    ensures Units(loc + "." + TsMapping[2].1) == Some("%")
  {
    IceCoverLacks();
    UnitOfParameter(loc, TsMapping[2].1, UnitMapping, 2, "dT");
  }

  /** Characters of the later unit fragments that this parameter lacks. */
  lemma IceDepthLacks()
    ensures forall k :: 0 <= k < 4 ==> "i%iT"[k] !in TsMapping[3].1
  {
    LacksJoin("i%iT", "Depth-Ice.Inst.~1Week.0.", Version);
  }

  lemma IceDepthUnits(loc: string)
    requires PlainLocation(loc)
    ensures Units(loc + "." + TsMapping[3].1) == Some("in")
  {
    IceDepthLacks();
    UnitOfParameter(loc, TsMapping[3].1, UnitMapping, 0, "i%iT");
  }

  /** Characters of the later unit fragments that this parameter lacks. */
  lemma WindDirectionLacks()
    ensures forall k :: 0 <= k < 3 ==> "%pT"[k] !in TsMapping[4].1
  {
    LacksJoin("%pT", "Dir-Wind.Inst.~1Day.0.", Version);
  }

  lemma WindDirectionUnits(loc: string)
    requires PlainLocation(loc)
    ensures Units(loc + "." + TsMapping[4].1) == Some("deg")
  {
    WindDirectionLacks();
    UnitOfParameter(loc, TsMapping[4].1, UnitMapping, 1, "%pT");
  }

  /** Characters of the later unit fragments that this parameter lacks. */
  lemma WindSpeedLacks()
    ensures forall k :: 0 <= k < 1 ==> "T"[k] !in TsMapping[5].1
  {
    LacksJoin("T", "Speed-Wind.Inst.~1Day.0.", Version);
  }

  lemma WindSpeedUnits(loc: string)
    requires PlainLocation(loc)
    ensures Units(loc + "." + TsMapping[5].1) == Some("mph")
  {
    WindSpeedLacks();
    UnitOfParameter(loc, TsMapping[5].1, UnitMapping, 3, "T");
  }

  lemma WaterTemperatureUnits(loc: string)
    requires PlainLocation(loc)
    ensures Units(loc + "." + TsMapping[6].1) == Some("F")
  {
    UnitOfParameter(loc, TsMapping[6].1, UnitMapping, 4, "");
  }

  // ---------------------------------------------------------------------
  // Observation times
  // ---------------------------------------------------------------------

  /** `T%H:%M%z`, after the date. */
  const ValidClock: seq<Directive> := [Lit('T'), Hour, Lit(':'), Minute, Zone]

  /** `%Y-%m-%dT%H:%M%z`, the format of `utc_valid`. */
  const ValidTimeFormat: seq<Directive> := IsoDate + ValidClock

  /** `strptime(t, '%Y-%m-%dT%H:%M%z')` as UTC epoch microseconds: the
      reading of the clock less the offset. */
  function ParseValidTime(t: string): (r: Result<int>)
    ensures r.Fail? ==> r.fault == ValueError
  {
    var p :- Scan(ValidTimeFormat, t);
    ValidTimeOf(p)
  }

  /** The matched pieces of a `utc_valid` text as UTC epoch microseconds. */
  function ValidTimeOf(p: seq<string>): (r: Result<int>)
    requires |p| == 10
    ensures r.Fail? ==> r.fault == ValueError
  {
    var local :- Build(FieldValue(p[0]), FieldValue(p[2]), FieldValue(p[4]), FieldValue(p[6]), FieldValue(p[8]), 0);
    var offset :- ZoneValue(p[9]);
    Ok(EpochSeconds(local) * 1000000 - offset)
  }

  /** The offset spellings IEM-style timestamps use: `Z`, `+HHMM` and
      `+HH:MM`, either sign. */
  predicate ZoneText(z: string) {
    || z == "Z"
    || (|z| == 5 && (z[0] == '+' || z[0] == '-') && IsDigit(z[1]) && IsDigit(z[2])
        && '0' <= z[3] <= '5' && IsDigit(z[4]))
    || (|z| == 6 && (z[0] == '+' || z[0] == '-') && IsDigit(z[1]) && IsDigit(z[2])
        && z[3] == ':' && '0' <= z[4] <= '5' && IsDigit(z[5]))
  }

  /** A time as `%Y-%m-%dT%H:%M` writes it. */
  function ValidText(t: DateTime): (r: string)
    requires Valid(t) && 1 <= t.year < 10000
    ensures |r| == 16
  {
    FormatIso(t, 'T')[..16]
  }

  /** A written time followed by an offset reads back as that time less
      the offset, when the offset is under a day. */
  lemma ValidTimeReadBack(t: DateTime, z: string)
    requires Valid(t) && 1 <= t.year < 10000 && t.second == 0 && ZoneText(z)
    ensures ParseValidTime(ValidText(t) + z)
      == if ZoneValue(z).Ok? then Ok(EpochSeconds(t) * 1000000 - ZoneValue(z).value) else Fail(ValueError)
  {
    ValidTextFields(t);
    ValidParse(ValidText(t), z, t);
  }

  /** The fields of a written time. */
  lemma ValidTextFields(t: DateTime)
    requires Valid(t) && 1 <= t.year < 10000
    ensures var s := ValidText(t);
      s[4] == '-' && s[7] == '-' && s[10] == 'T' && s[13] == ':'
      && FieldAt(s, 0, 4) == Some(t.year) && FieldAt(s, 5, 2) == Some(t.month) && FieldAt(s, 8, 2) == Some(t.day)
      && FieldAt(s, 11, 2) == Some(t.hour) && FieldAt(s, 14, 2) == Some(t.minute)
  {
    var iso := FormatIso(t, 'T');
    IsoDateOf(t, 'T');
    IsoTimeOf(t, 'T');
    var front, back := iso[..16], iso[16..];
    assert iso == front + back;
    FieldInFront(front, back, 0, 4);
    FieldInFront(front, back, 5, 2);
    FieldInFront(front, back, 8, 2);
    FieldInFront(front, back, 11, 2);
    FieldInFront(front, back, 14, 2);
  }

  /** Sixteen characters with the fields of t laid out as
      `%Y-%m-%dT%H:%M` prints them, followed by an offset, read as t less
      the offset. */
  lemma ValidParse(front: string, z: string, t: DateTime)
    requires |front| == 16 && Valid(t) && 1 <= t.year < 10000 && t.second == 0 && ZoneText(z)
    requires front[4] == '-' && front[7] == '-' && front[10] == 'T' && front[13] == ':'
    requires FieldAt(front, 0, 4) == Some(t.year) && FieldAt(front, 5, 2) == Some(t.month)
    requires FieldAt(front, 8, 2) == Some(t.day) && FieldAt(front, 11, 2) == Some(t.hour)
    requires FieldAt(front, 14, 2) == Some(t.minute)
    ensures ParseValidTime(front + z)
      == if ZoneValue(z).Ok? then Ok(EpochSeconds(t) * 1000000 - ZoneValue(z).value) else Fail(ValueError)
  {
    var s := front + z;
    PrefixFields(front, z, t);
    ValidLayout(s, t.year, t.month, t.day, t.hour, t.minute);
    ValidRead(s, z, t);
  }

  /** The fields of the front are still there with the offset after it. */
  lemma PrefixFields(front: string, z: string, t: DateTime)
    requires |front| == 16 && front[4] == '-' && front[7] == '-' && front[10] == 'T' && front[13] == ':'
    requires FieldAt(front, 0, 4) == Some(t.year) && FieldAt(front, 5, 2) == Some(t.month)
    requires FieldAt(front, 8, 2) == Some(t.day) && FieldAt(front, 11, 2) == Some(t.hour)
    requires FieldAt(front, 14, 2) == Some(t.minute)
    ensures var s := front + z;
      s[4] == '-' && s[7] == '-' && s[10] == 'T' && s[13] == ':' && s[16..] == z
      && FieldAt(s, 0, 4) == Some(t.year) && FieldAt(s, 5, 2) == Some(t.month) && FieldAt(s, 8, 2) == Some(t.day)
      && FieldAt(s, 11, 2) == Some(t.hour) && FieldAt(s, 14, 2) == Some(t.minute)
  {
    FieldInFront(front, z, 0, 4);
    FieldInFront(front, z, 5, 2);
    FieldInFront(front, z, 8, 2);
    FieldInFront(front, z, 11, 2);
    FieldInFront(front, z, 14, 2);
  }

  /** A text laid out as `%Y-%m-%dT%H:%M` prints it, followed by an
      offset, is cut into its fields. */
  lemma ValidLayout(s: string, y: nat, mo: nat, d: nat, h: nat, mi: nat)
    requires |s| > 16 && s[4] == '-' && s[7] == '-' && s[10] == 'T' && s[13] == ':'
    requires FieldAt(s, 0, 4) == Some(y) && FieldAt(s, 5, 2) == Some(mo) && FieldAt(s, 8, 2) == Some(d)
    requires FieldAt(s, 11, 2) == Some(h) && FieldAt(s, 14, 2) == Some(mi)
    requires InRange(Month, mo) && InRange(Day, d) && InRange(Hour, h) && InRange(Minute, mi) && ZoneText(s[16..])
    ensures ParseValidTime(s) == ValidTimeOf(ValidPieces(s))
    ensures FieldValue(s[0..4]) == y && FieldValue(s[5..7]) == mo && FieldValue(s[8..10]) == d
    ensures FieldValue(s[11..13]) == h && FieldValue(s[14..16]) == mi
  {
    DateTakes(s, y, mo, d);
    ValidClockTakes(s, h, mi);
    DateLaid(s);
    ValidClockLaid(s);
    ValidScan(s);
  }

  /** A laid-out date and clock are read as their pieces. */
  lemma ValidScan(s: string)
    requires |s| > 16 && Laid(IsoDate, s, [0, 4, 5, 7, 8, 10]) && Laid(ValidClock, s, [10, 11, 13, 14, 16, |s|])
    ensures ParseValidTime(s) == ValidTimeOf(ValidPieces(s))
  {
    ValidTimeScan(s);
  }

  lemma ValidTimeScan(s: string)
    requires |s| > 16 && Laid(IsoDate, s, [0, 4, 5, 7, 8, 10]) && Laid(ValidClock, s, [10, 11, 13, 14, 16, |s|])
    ensures Scan(ValidTimeFormat, s) == Ok(ValidPieces(s))
  {
    var at, bt := [0, 4, 5, 7, 8, 10], [10, 11, 13, 14, 16, |s|];
    ScanJoin(IsoDate, ValidClock, s, at, bt);
    assert ValidPieces(s) == Pieces(s, at) + Pieces(s, bt);
  }

  /** The fields of a written time give that time back. */
  lemma ValidRead(s: string, z: string, t: DateTime)
    requires |s| > 16 && s[16..] == z && Valid(t) && 1 <= t.year < 10000 && t.second == 0
    requires FieldValue(s[0..4]) == t.year && FieldValue(s[5..7]) == t.month && FieldValue(s[8..10]) == t.day
    requires FieldValue(s[11..13]) == t.hour && FieldValue(s[14..16]) == t.minute
    ensures ValidTimeOf(ValidPieces(s))
      == if ZoneValue(z).Ok? then Ok(EpochSeconds(t) * 1000000 - ZoneValue(z).value) else Fail(ValueError)
  {
    PiecesRead(ValidPieces(s), z, t);
  }

  lemma PiecesRead(p: seq<string>, z: string, t: DateTime)
    requires |p| == 10 && p[9] == z && Valid(t) && 1 <= t.year < 10000 && t.second == 0
    requires FieldValue(p[0]) == t.year && FieldValue(p[2]) == t.month && FieldValue(p[4]) == t.day
    requires FieldValue(p[6]) == t.hour && FieldValue(p[8]) == t.minute
    ensures ValidTimeOf(p)
      == if ZoneValue(z).Ok? then Ok(EpochSeconds(t) * 1000000 - ZoneValue(z).value) else Fail(ValueError)
  {
    assert Build(FieldValue(p[0]), FieldValue(p[2]), FieldValue(p[4]), FieldValue(p[6]), FieldValue(p[8]), 0) == Ok(t);
  }

  /** `T%H:%M%z` from position 10, each field taking its printed width and
      the offset the rest. */
  lemma ValidClockTakes(s: string, h: nat, mi: nat)
    requires |s| > 16 && s[10] == 'T' && s[13] == ':'
    requires FieldAt(s, 11, 2) == Some(h) && FieldAt(s, 14, 2) == Some(mi)
    requires InRange(Hour, h) && InRange(Minute, mi) && ZoneText(s[16..])
    ensures Takes(Lit('T'), s, 10, 11) && Takes(Hour, s, 11, 13) && Takes(Lit(':'), s, 13, 14)
    ensures Takes(Minute, s, 14, 16) && Takes(Zone, s, 16, |s|)
    ensures FieldValue(s[11..13]) == h && FieldValue(s[14..16]) == mi
  {
    LitPrefers('T', s, 10);
    TwoPrefers(Hour, s, 11, h);
    LitPrefers(':', s, 13);
    TwoPrefers(Minute, s, 14, mi);
    ZonePrefers(s, 16);
  }

  /** An offset in one of the usual spellings is taken whole by `%z`. */
  lemma ZonePrefers(s: string, i: nat)
    requires i < |s| && ZoneText(s[i..])
    ensures Takes(Zone, s, i, |s|)
  {
    var z := s[i..];
    assert z[0] == s[i];
    if |z| == 5 {
      assert s[i + 3] == z[3] && s[i + 4] == z[4];
      assert MinutesAt(s, i + 3) == [|s|];
    } else if |z| == 6 {
      assert s[i + 3] == z[3] && s[i + 4] == z[4] && s[i + 5] == z[5];
      assert MinutesAt(s, i + 4) == [|s|];
    }
  }

  lemma ValidClockLaid(s: string)
    requires |s| > 16 && Takes(Lit('T'), s, 10, 11) && Takes(Hour, s, 11, 13)
    requires Takes(Lit(':'), s, 13, 14) && Takes(Minute, s, 14, 16) && Takes(Zone, s, 16, |s|)
    ensures Laid(ValidClock, s, [10, 11, 13, 14, 16, |s|])
  {
    assert Laid([], s, [|s|]);
    LaidCons(Zone, [], s, 16, [|s|]);
    LaidCons(Minute, [Zone], s, 14, [16, |s|]);
    LaidCons(Lit(':'), [Minute, Zone], s, 13, [14, 16, |s|]);
    LaidCons(Hour, [Lit(':'), Minute, Zone], s, 11, [13, 14, 16, |s|]);
    LaidCons(Lit('T'), [Hour, Lit(':'), Minute, Zone], s, 10, [11, 13, 14, 16, |s|]);
  }

  /** The ten pieces of a text read as `%Y-%m-%dT%H:%M%z`. */
  function ValidPieces(s: string): (r: seq<string>)
    requires |s| > 16
    ensures |r| == 10 && r[0] == s[0..4] && r[2] == s[5..7] && r[4] == s[8..10]
    ensures r[6] == s[11..13] && r[8] == s[14..16] && r[9] == s[16..]
  {
    var a, b := Pieces(s, [0, 4, 5, 7, 8, 10]), Pieces(s, [10, 11, 13, 14, 16, |s|]);
    assert a[0] == s[0..4] && a[2] == s[5..7] && a[4] == s[8..10];
    assert b[1] == s[11..13] && b[3] == s[14..16] && b[4] == s[16..|s|];
    a + b
  }

  /** A reading with an offset is the 'Z' reading shifted by it; east of
      UTC the offset is positive. */
  lemma ZoneShift(t: DateTime, z: string)
    requires Valid(t) && 1 <= t.year < 10000 && t.second == 0 && ZoneText(z) && ZoneValue(z).Ok?
    ensures ParseValidTime(ValidText(t) + "Z").Ok? && ParseValidTime(ValidText(t) + z).Ok?
    ensures ParseValidTime(ValidText(t) + z).value == ParseValidTime(ValidText(t) + "Z").value - ZoneValue(z).value
  {
    ValidTimeReadBack(t, z);
    ValidTimeReadBack(t, "Z");
  }

  // ---------------------------------------------------------------------
  // Storing one day
  // ---------------------------------------------------------------------

  /** A stored point: one value at one time (UTC epoch microseconds) with
      quality 0. */
  datatype Store = Store(tsId: string, units: string, time: int, value: string)

  /** The stores of one day, and the exception that ended the day early,
      if any (the loader logs it and moves to the next day). */
  datatype DayOutcome = DayOutcome(stores: seq<Store>, fault: Option<Fault>)

  /** Python truthiness of the timestamp: present and non-empty. */
  predicate Truthy(t: Option<string>) {
    t.Some? && t.value != ""
  }

  /** One mapped code on one day: a KeyError or ValueError ends the day,
      a missing reading or an empty timestamp stores nothing, otherwise
      the first reading is stored at its time. */
  function KeyStore(loc: string, ds: seq<Record>, m: (string, string)): (r: Result<Option<Store>>)
    ensures r.Ok? && r.value.Some? ==>
      var f := FindFirstValue(ds, m.0, "utc_valid");
      && f.Ok? && f.value.Some? && Truthy(f.value.value.0)
      && ParseValidTime(f.value.value.0.value) == Ok(r.value.value.time)
      && f.value.value.1 == r.value.value.value
      && r.value.value.tsId == loc + "." + m.1
      && Units(r.value.value.tsId) == Some(r.value.value.units)
    ensures r.Fail? ==> r.fault in {KeyError, ValueError, UnboundName}
  {
    var f :- FindFirstValue(ds, m.0, "utc_valid");
    if f.None? || !Truthy(f.value.0) then Ok(None)
    else
      var time :- ParseValidTime(f.value.0.value);
      var tsId := loc + "." + m.1;
      var u :- Need(Units(tsId), UnboundName);
      Ok(Some(Store(tsId, u, time, f.value.1)))
  }

  /** The results of steps that each give at most one item, in order; the
      first failing step ends the run, and unlike `Gather` what came before
      it is kept. */
  function GatherPartial<M, S>(f: M -> Result<Option<S>>, ms: seq<M>): (r: (seq<S>, Option<Fault>))
    ensures |r.0| <= |ms|
    ensures r.1.Some? ==> exists i :: 0 <= i < |ms| && f(ms[i]) == Fail(r.1.value)
    decreases |ms|
  {
    if |ms| == 0 then ([], None)
    else match f(ms[0])
      case Fail(e) => ([], Some(e))
      case Ok(o) =>
        var rest := GatherPartial(f, ms[1..]);
        assert rest.1.Some? ==> exists i :: 0 <= i < |ms| && f(ms[i]) == Fail(rest.1.value) by {
          if rest.1.Some? {
            var i :| 0 <= i < |ms[1..]| && f(ms[1..][i]) == Fail(rest.1.value);
            assert ms[1..][i] == ms[i + 1];
          }
        }
        (Listed(o) + rest.0, rest.1)
  }

  /** Every gathered item is the result of one of the steps. */
  lemma {:induction false} GatherPartialFrom<M, S>(f: M -> Result<Option<S>>, ms: seq<M>, k: nat)
    requires k < |GatherPartial(f, ms).0|
    ensures exists i :: 0 <= i < |ms| && f(ms[i]) == Ok(Some(GatherPartial(f, ms).0[k]))
    decreases |ms|
  {
    var items := GatherPartial(f, ms).0;
    var h := f(ms[0]);
    assert h.Ok?;
    var rest := GatherPartial(f, ms[1..]).0;
    assert items == Listed(h.value) + rest;
    if h.value.Some? && k == 0 {
      assert items[0] == h.value.value;
    } else {
      var k' := if h.value.Some? then k - 1 else k;
      assert items[k] == rest[k'];
      GatherPartialFrom(f, ms[1..], k');
      var i :| 0 <= i < |ms[1..]| && f(ms[1..][i]) == Ok(Some(rest[k']));
      assert ms[1..][i] == ms[i + 1];
    }
  }

  /** The codes of one day, in mapping order; a failure keeps what was
      already stored. */
  function KeyStores(loc: string, ds: seq<Record>, ms: seq<(string, string)>): (r: DayOutcome)
    ensures |r.stores| <= |ms|
    ensures r.fault.Some? ==> r.fault.value in {KeyError, ValueError, UnboundName}
  {
    var g := GatherPartial(m => KeyStore(loc, ds, m), ms);
    DayOutcome(g.0, g.1)
  }

  /** Each stored point is its code's `KeyStore` result. */
  lemma StoredIsFirst(loc: string, ds: seq<Record>, ms: seq<(string, string)>, k: nat)
    requires k < |KeyStores(loc, ds, ms).stores|
    ensures exists i :: 0 <= i < |ms| && KeyStore(loc, ds, ms[i]) == Ok(Some(KeyStores(loc, ds, ms).stores[k]))
  {
    GatherPartialFrom(m => KeyStore(loc, ds, m), ms, k);
  }

  /** One day: nothing for an empty list, otherwise every mapped code. */
  function DayStores(loc: string, ds: seq<Record>): (r: DayOutcome)
    ensures |ds| == 0 ==> r == DayOutcome([], None)
    ensures |r.stores| <= |TsMapping|
  {
    if |ds| == 0 then DayOutcome([], None) else KeyStores(loc, ds, TsMapping)
  }

  // ---------------------------------------------------------------------
  // Storing one location
  // ---------------------------------------------------------------------

  /** A location's days in order; the first response without `data` ends
      the location's loop. */
  function LocationStores(loc: string, responses: seq<Option<seq<Record>>>): (r: seq<Store>)
    ensures |r| <= |responses| * |TsMapping|
    decreases |responses|
  {
    if |responses| == 0 || responses[0].None? then []
    else
      var day, rest := DayStores(loc, responses[0].value).stores, LocationStores(loc, responses[1..]);
      BoundStep(|day|, |rest|, |responses|, |TsMapping|);
      day + rest
  }

  lemma BoundStep(a: nat, rest: nat, n: nat, b: nat)
    requires n >= 1 && a <= b && rest <= (n - 1) * b
    ensures a + rest <= n * b
  {
    assert (n - 1) * b + b == n * b;
  }

  /** Nothing after a response without `data` is stored. */
  lemma {:induction false} StopsAtMissingData(loc: string, before: seq<Option<seq<Record>>>, after: seq<Option<seq<Record>>>)
    ensures LocationStores(loc, before + [None] + after) == LocationStores(loc, before)
    decreases |before|
  {
    var s := before + [None] + after;
    if |before| == 0 {
      assert s[0] == None;
    } else {
      assert s[0] == before[0];
      assert s[1..] == before[1..] + [None] + after;
      StopsAtMissingData(loc, before[1..], after);
    }
  }
}
