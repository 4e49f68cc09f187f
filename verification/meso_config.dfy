/** The configuration tables of the Mesonet to SHEF encoder: which USACE
    parameter names map to which SHEF physical-element codes, what is done
    to each element's values, the text describing each parameter, and the
    state cross-reference used to group sites into messages.

    Every table is an ordered sequence because the encoder walks them in
    their written order and takes the first match.
 */
module MesoConfig {
  import opened Wrappers
  import opened PyText
  import opened Dict

  /** USACE parameter name -> SHEF physical element. */
  const ParamXref: Dict<string, string> := [
    ("%-RelativeHumidity", "XR"), ("Depth-Snow", "SD"), ("Dir-Wind", "UD"),
    ("Irrad", "RW"), ("Precip", "PP"), ("Speed-Wind", "US"),
    ("Temp-Air", "TA"), ("%-SoilMoisture", "MV"), ("Temp-Soil", "TB")]

  /** SHEF element -> the modifications applied to its values: "vector"
      (vector coding with depth), "eng" (convert to English units), "R<n>"
      (round half up to n decimals), "hrly" (hourly total of 5-minute
      samples). */
  const ValueMods: Dict<string, seq<string>> := [
    ("TB", ["vector", "eng"]), ("MV", ["vector"]), ("UD", ["R0"]),
    ("US", ["eng"]), ("SD", ["eng"]), ("TA", ["eng"]),
    ("PP", ["hrly", "eng"]), ("RW", ["hrly"])]

  /** USACE parameter name -> the opening of its description comment. */
  const Describe: map<string, string> := map[
    "%-RelativeHumidity" := "Relative humidity (", "Depth-Snow" := "Snow depth (",
    "Dir-Wind" := "Wind direction (", "Irrad" := "Solar radiation (",
    "Precip" := "Precipitation (", "Speed-Wind" := "Wind speed (",
    "Temp-Air" := "Air temperature (", "%-SoilMoisture" := "Soil moisture (",
    "Temp-Soil" := "Soil temperature ("]

  datatype StateInfo = StateInfo(abrv: string, name: string)

  /** NWS location-id state suffix -> state. */
  const StateXref: Dict<string, StateInfo> := [
    ("M8", StateInfo("MT", "Montana")), ("W4", StateInfo("WY", "Wyoming")),
    ("C2", StateInfo("CO", "Colorado")), ("N8", StateInfo("ND", "North Dakota")),
    ("S2", StateInfo("SD", "South Dakota")), ("N1", StateInfo("NE", "Nebraska")),
    ("K1", StateInfo("KS", "Kansas")), ("M5", StateInfo("MN", "Minnesota")),
    ("I4", StateInfo("IA", "Iowa")), ("M7", StateInfo("MO", "Missouri"))]

  /** The Mesonet missing-value flag. */
  const MissVal: string := "M"

  /** Longest `.E1` continuation line the encoder aims for. */
  const LineLenMax: nat := 65

  /** Sites per SHEF message. */
  const MaxLocs: nat := 60

  /** The SHEF element of a USACE column name: the element of the first
      table entry whose name occurs in the column name (`getShefParam`, and
      the `sP` list of the parser). */
  function ShefParam(c: string): (r: Option<string>)
    ensures r.None? <==> forall i :: 0 <= i < |ParamXref| ==> !Contains(c, ParamXref[i].0)
    ensures r.Some? ==>
      exists i :: 0 <= i < |ParamXref| && Contains(c, ParamXref[i].0) && r.value == ParamXref[i].1
        && forall j :: 0 <= j < i ==> !Contains(c, ParamXref[j].0)
  {
    FirstMatch(ParamXref, name => Contains(c, name), 0)
  }

  /** The value of the first entry from position k on whose key satisfies
      `p`. */
  function FirstMatch(t: Dict<string, string>, p: string -> bool, k: nat): (r: Option<string>)
    requires k <= |t|
    decreases |t| - k
    ensures r.None? <==> forall i :: k <= i < |t| ==> !p(t[i].0)
    ensures r.Some? ==>
      exists i :: k <= i < |t| && p(t[i].0) && r.value == t[i].1
        && forall j :: k <= j < i ==> !p(t[j].0)
  {
    if k == |t| then None
    else if p(t[k].0) then Some(t[k].1)
    else FirstMatch(t, p, k + 1)
  }

  /** The modifications for a SHEF element; none for elements not in the
      table. */
  function Mods(shefP: string): seq<string> {
    Get(ValueMods, shefP).GetOr([])
  }

  /** The elements whose modifications include "hrly", in table order. */
  function HourlyShef(mods: Dict<string, seq<string>>): (r: seq<string>)
    ensures forall x :: x in r ==> exists i :: 0 <= i < |mods| && mods[i].0 == x && "hrly" in mods[i].1
  {
    if |mods| == 0 then []
    else (if "hrly" in mods[0].1 then [mods[0].0] else []) + HourlyShef(mods[1..])
  }

  /** For each element in turn, every USACE name whose element text
      contains it. */
  function MesoNames(codes: seq<string>, xref: Dict<string, string>): seq<string> {
    if |codes| == 0 then []
    else NamesFor(codes[0], xref) + MesoNames(codes[1..], xref)
  }

  function NamesFor(code: string, xref: Dict<string, string>): seq<string> {
    if |xref| == 0 then []
    else (if Contains(xref[0].1, code) then [xref[0].0] else []) + NamesFor(code, xref[1..])
  }

  /** `getHourly`: the hourly SHEF elements and the USACE columns summed into
      hourly totals. */
  function GetHourly(): (seq<string>, seq<string>) {
    var shef := HourlyShef(ValueMods);
    (shef, MesoNames(shef, ParamXref))
  }

  /** Between texts of equal length, containment is equality. */
  lemma ContainsEqualLength(s: string, sub: string)
    requires |s| == |sub|
    ensures Contains(s, sub) <==> s == sub
  {
    if s == sub {
      assert OccursAt(s, sub, 0);
    }
  }

  /** Names whose element is exactly `code`. */
  function NamesEqual(code: string, xref: Dict<string, string>): seq<string> {
    if |xref| == 0 then []
    else (if xref[0].1 == code then [xref[0].0] else []) + NamesEqual(code, xref[1..])
  }

  lemma {:induction false} NamesForEqual(code: string, xref: Dict<string, string>)
    requires forall i :: 0 <= i < |xref| ==> |xref[i].1| == |code|
    ensures NamesFor(code, xref) == NamesEqual(code, xref)
    decreases |xref|
  {
    if |xref| > 0 {
      ContainsEqualLength(xref[0].1, code);
      NamesForEqual(code, xref[1..]);
    }
  }

  lemma HourlyNames()
    ensures NamesFor("PP", ParamXref) == ["Precip"] && NamesFor("RW", ParamXref) == ["Irrad"]
  {
    XrefCodesTwo();
    NamesForEqual("PP", ParamXref);
    NamesForEqual("RW", ParamXref);
    PrecipOnly();
    IrradOnly();
  }

  lemma XrefCodesTwo()
    ensures forall i :: 0 <= i < |ParamXref| ==> |ParamXref[i].1| == 2
  {
  }

  lemma PrecipOnly()
    ensures NamesEqual("PP", ParamXref) == ["Precip"]
  {
  }

  lemma IrradOnly()
    ensures NamesEqual("RW", ParamXref) == ["Irrad"]
  {
  }

  lemma MesoNamesPair(a: string, b: string, xref: Dict<string, string>)
    ensures MesoNames([a, b], xref) == NamesFor(a, xref) + NamesFor(b, xref)
  {
    assert [a, b][1..] == [b];
    assert [b][1..] == [];
    assert MesoNames([b], xref) == NamesFor(b, xref) + MesoNames([], xref);
  }

  lemma HourlyElements()
    ensures HourlyShef(ValueMods) == ["PP", "RW"]
  {
  }

  /** Precipitation and solar radiation, in that order, are the columns
      summed into hourly totals. */
  lemma HourlyColumns()
    ensures GetHourly().0 == ["PP", "RW"]
    ensures GetHourly().1 == ["Precip", "Irrad"]
  {
    HourlyElements();
    HourlyNames();
    MesoNamesPair("PP", "RW", ParamXref);
  }
}
