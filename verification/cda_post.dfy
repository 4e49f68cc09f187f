/** The in-memory time series the SHEF loader fills and posts to the CWMS
    Data API (`CDAPostTS`): a name, an office, units and a growing list of
    `[time, value, quality]` triples. Posting itself is network I/O and is
    not modelled; the JSON payload it sends is.
 */
module CdaPost {
  import opened Wrappers

  /** A posted value: decoded `.E` values are floats, `.A` values stay the
      text that was read. */
  datatype Value = Num(x: real) | Text(s: string)

  /** One `[datetime, value, quality]` triple; `time` is milliseconds since
      the epoch. */
  datatype Point = Point(time: int, value: Value, quality: int)

  datatype CdaPostTs = CdaPostTs(name: string, officeId: string, units: string, values: seq<Point>)

  /** `CDAPostTS(name, officeID, units)`: a series with no values yet. */
  function NewTs(name: string, officeId: string, units: string): (ts: CdaPostTs)
    ensures ts.name == name && ts.officeId == officeId && ts.units == units
    ensures |ts.values| == 0
  {
    CdaPostTs(name, officeId, units, [])
  }

  /** `insertValue(datetime, value, quality=0)`: appends one triple at the
      end; the identity of the series does not change. */
  function InsertValue(ts: CdaPostTs, time: int, value: Value, quality: int := 0): (r: CdaPostTs)
    ensures r.name == ts.name && r.officeId == ts.officeId && r.units == ts.units
    ensures |r.values| == |ts.values| + 1
    ensures r.values[..|ts.values|] == ts.values
    ensures r.values[|ts.values|] == Point(time, value, quality)
  {
    ts.(values := ts.values + [Point(time, value, quality)])
  }

  /** The loader's `for value in values: insertValue(value[0], value[1],
      value[2])`. */
  function InsertAll(ts: CdaPostTs, pts: seq<Point>): (r: CdaPostTs)
    decreases |pts|
  {
    if |pts| == 0 then ts
    else
      var last := pts[|pts| - 1];
      InsertValue(InsertAll(ts, pts[..|pts| - 1]), last.time, last.value, last.quality)
  }

  /** Inserting a list of triples one at a time appends the whole list, in
      order, and leaves name, office and units alone. */
  lemma {:induction false} InsertAllAppends(ts: CdaPostTs, pts: seq<Point>)
    ensures InsertAll(ts, pts) == ts.(values := ts.values + pts)
    decreases |pts|
  {
    if |pts| > 0 {
      InsertAllAppends(ts, pts[..|pts| - 1]);
      assert ts.values + pts[..|pts| - 1] + [pts[|pts| - 1]] == ts.values + pts;
    }
  }

  /** Fields of the JSON body `post` sends. */
  datatype Field = FStr(s: string) | FValues(points: seq<Point>)

  const PayloadKeys: set<string> := {"name", "office-id", "units", "values"}

  /** The `payload` dictionary of `post`. */
  function Payload(ts: CdaPostTs): (m: map<string, Field>)
    ensures m.Keys == PayloadKeys
  {
    map["name" := FStr(ts.name), "office-id" := FStr(ts.officeId),
        "units" := FStr(ts.units), "values" := FValues(ts.values)]
  }

  /** Reads a series back from a payload, as the receiving side does. */
  function FromPayload(m: map<string, Field>): (r: Option<CdaPostTs>)
    ensures r.Some? ==> PayloadKeys <= m.Keys
  {
    if PayloadKeys <= m.Keys && m["name"].FStr? && m["office-id"].FStr?
       && m["units"].FStr? && m["values"].FValues? then
      Some(CdaPostTs(m["name"].s, m["office-id"].s, m["units"].s, m["values"].points))
    else None
  }

  /** The payload carries the whole series: nothing is lost or renamed. */
  lemma PayloadRoundTrip(ts: CdaPostTs)
    ensures FromPayload(Payload(ts)) == Some(ts)
  {
  }
}
