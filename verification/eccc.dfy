/** The Environment Canada hydrometric loader (`getECCC.py`): for each
    time series in the acquisition group, the station's real-time CSV is
    downloaded (once per run of rows for the same station), its times are
    snapped to five minutes, and the stage or discharge column is written
    to the series.

    The group queries, the CSV download and the store are outside the model:
    the download is a function from URL to the parsed rows (None when it
    fails), times are whole seconds since the epoch in UTC, and the
    round-half rule of `dt.round` is a parameter.
 */
module Eccc {
  import opened Wrappers
  import opened PyText

  /** Five minutes in seconds. */
  const Step: int := 300

  // ---------------------------------------------------------------------
  // The five-minute check
  // ---------------------------------------------------------------------

  /** `Series.diff()`: no difference for the first row, then each row's
      distance from the one before. */
  function Diffs(times: seq<int>): (r: seq<Option<int>>)
    ensures |r| == |times|
    ensures |r| > 0 ==> r[0].None?
    ensures forall i :: 0 < i < |r| ==> r[i] == Some(times[i] - times[i - 1])
  {
    seq(|times|, i requires 0 <= i < |times| => if i == 0 then None else Some(times[i] - times[i - 1]))
  }

  /** `check_even_5min_interval`: every difference, in minutes, is a
      multiple of 5; the missing first difference compares false. */
  predicate EvenFiveMinutes(times: seq<int>) {
    var d := Diffs(times);
    forall i :: 0 <= i < |d| ==> d[i].Some? && d[i].value % Step == 0
  }

  /** The check holds only for an empty column, so every download is
      snapped. */
  lemma EvenOnlyWhenEmpty(times: seq<int>)
    ensures EvenFiveMinutes(times) <==> |times| == 0
  {
    if |times| > 0 {
      assert Diffs(times)[0].None?;
    }
  }

  // ---------------------------------------------------------------------
  // Snapping
  // ---------------------------------------------------------------------

  function Dist(a: int, b: int): nat {
    if a < b then b - a else a - b
  }

  /** `dt.round('5min')` for one time: the nearest multiple of five
      minutes; an exact half goes up when `tieUp` says so for the multiple
      below. */
  function Snap(t: int, tieUp: int -> bool): (r: int)
    ensures r % Step == 0
    ensures Dist(r, t) <= Step / 2
    ensures t % Step == 0 ==> r == t
  {
    var q := t / Step;
    var rem := t % Step;
    if rem < Step / 2 then q * Step
    else if rem > Step / 2 then (q + 1) * Step
    else if tieUp(q) then (q + 1) * Step
    else q * Step
  }

  /** No multiple of five minutes is nearer than the snapped time. */
  lemma SnapNearest(t: int, tieUp: int -> bool, m: int)
    requires m % Step == 0
    ensures Dist(Snap(t, tieUp), t) <= Dist(m, t)
  {
    var q := t / Step;
    var k := m / Step;
    assert m == k * Step;
    assert t == q * Step + t % Step;
    if k <= q {
      assert m <= q * Step;
    } else {
      assert m >= (q + 1) * Step;
    }
  }

  /** Snapping an aligned time changes nothing, so snapping twice is
      snapping once. */
  lemma SnapIdempotent(t: int, tieUp: int -> bool)
    ensures Snap(Snap(t, tieUp), tieUp) == Snap(t, tieUp)
  {
  }

  /** Snapping keeps the order of times. */
  lemma SnapMonotone(a: int, b: int, tieUp: int -> bool)
    requires a <= b
    ensures Snap(a, tieUp) <= Snap(b, tieUp)
  {
    var qa := a / Step;
    var qb := b / Step;
    assert a == qa * Step + a % Step;
    assert b == qb * Step + b % Step;
    if qa < qb {
      assert (qa + 1) * Step <= qb * Step;
    }
  }

  // ---------------------------------------------------------------------
  // One download
  // ---------------------------------------------------------------------

  /** One CSV row: its time and the two readings, absent when blank. */
  datatype Reading = Reading(time: int, stage: Option<real>, flow: Option<real>)

  /** One written observation. */
  datatype Obs = Obs(time: int, value: real)

  function Times(rs: seq<Reading>): (r: seq<int>)
    ensures |r| == |rs| && forall i :: 0 <= i < |rs| ==> r[i] == rs[i].time
  {
    seq(|rs|, i requires 0 <= i < |rs| => rs[i].time)
  }

  /** `check_and_shift_to_5min`: the times are snapped unless the check
      passes. */
  function ShiftToFive(rs: seq<Reading>, tieUp: int -> bool): (r: seq<Reading>)
    ensures |r| == |rs|
    ensures forall i :: 0 <= i < |rs| ==>
      r[i].stage == rs[i].stage && r[i].flow == rs[i].flow
      && r[i].time % Step == 0 && Dist(r[i].time, rs[i].time) <= Step / 2
  {
    EvenOnlyWhenEmpty(Times(rs));
    if EvenFiveMinutes(Times(rs)) then rs
    else seq(|rs|, i requires 0 <= i < |rs| => rs[i].(time := Snap(rs[i].time, tieUp)))
  }

  /** The reading a row holds for one column. */
  function Pick(r: Reading, stage: bool): Option<real> {
    if stage then r.stage else r.flow
  }

  /** One column as (date, value) pairs, rows without a value dropped. */
  function ColumnObs(rs: seq<Reading>, stage: bool): (r: seq<Obs>)
    ensures |r| <= |rs|
    ensures forall o :: o in r ==> exists i :: 0 <= i < |rs| && rs[i].time == o.time && Pick(rs[i], stage) == Some(o.value)
    ensures forall i :: 0 <= i < |rs| && Pick(rs[i], stage).Some? ==> Obs(rs[i].time, Pick(rs[i], stage).value) in r
    ensures (forall i :: 0 <= i < |rs| ==> Pick(rs[i], stage).None?) <==> |r| == 0
    decreases |rs|
  {
    if |rs| == 0 then []
    else
      var rest := ColumnObs(rs[1..], stage);
      assert forall i :: 1 <= i < |rs| ==> rs[1..][i - 1] == rs[i];
      match Pick(rs[0], stage)
      case None => rest
      case Some(v) => [Obs(rs[0].time, v)] + rest
  }

  /** The rows with their times snapped when snapping is asked for. */
  function Shifted(rs: seq<Reading>, snap: bool, tieUp: int -> bool): (r: seq<Reading>)
    ensures |r| == |rs|
    ensures forall i :: 0 <= i < |rs| ==>
      Pick(r[i], true) == rs[i].stage && Pick(r[i], false) == rs[i].flow
      && Dist(r[i].time, rs[i].time) <= (if snap then Step / 2 else 0)
      && (snap ==> r[i].time % Step == 0)
  {
    if snap then ShiftToFive(rs, tieUp) else rs
  }

  /** The stage and discharge columns of one download. */
  datatype Columns = Columns(stage: seq<Obs>, flow: seq<Obs>)

  /** `getECCC_data`: None for a failed or empty download, otherwise the
      (snapped) stage and discharge columns. */
  function StationData(download: Option<seq<Reading>>, snap: bool, tieUp: int -> bool): (r: Option<Columns>)
    ensures r.None? <==> download.None? || |download.value| == 0
    ensures r.Some? ==> r.value.stage == ColumnObs(Shifted(download.value, snap, tieUp), true)
    ensures r.Some? ==> r.value.flow == ColumnObs(Shifted(download.value, snap, tieUp), false)
  {
    match download
    case None => None
    case Some(rs) =>
      if |rs| == 0 then None
      else Some(Columns(ColumnObs(Shifted(rs, snap, tieUp), true), ColumnObs(Shifted(rs, snap, tieUp), false)))
  }

  /** Every written observation is a downloaded reading of its column, at
      most two and a half minutes from the reading's time and on a
      five-minute mark when snapped; every downloaded reading is written. */
  lemma ColumnTraced(rs: seq<Reading>, snap: bool, tieUp: int -> bool, stage: bool)
    ensures var c := ColumnObs(Shifted(rs, snap, tieUp), stage);
      && (forall o :: o in c ==>
            (snap ==> o.time % Step == 0)
            && exists i :: 0 <= i < |rs| && Pick(rs[i], stage) == Some(o.value)
                 && Dist(o.time, rs[i].time) <= (if snap then Step / 2 else 0))
      && (forall i :: 0 <= i < |rs| && Pick(rs[i], stage).Some? ==>
            exists o :: o in c && o.value == Pick(rs[i], stage).value)
  {
    var sh := Shifted(rs, snap, tieUp);
    var c := ColumnObs(sh, stage);
    assert forall i :: 0 <= i < |rs| ==> Pick(sh[i], stage) == Pick(rs[i], stage);
    forall i | 0 <= i < |rs| && Pick(rs[i], stage).Some?
      ensures exists o :: o in c && o.value == Pick(rs[i], stage).value
    {
      assert Obs(sh[i].time, Pick(sh[i], stage).value) in c;
    }
  }

  // ---------------------------------------------------------------------
  // The loop over series
  // ---------------------------------------------------------------------

  /** A series of the group, with its station and province. */
  datatype TsRow = TsRow(station: string, prov: string, tsId: string, param: string)

  /** One store: observations, units and quality code. */
  datatype Write = Write(tsId: string, units: string, obs: seq<Obs>, quality: int)

  /** The datamart address of a station's CSV. */
  function DataUrl(prov: string, station: string, freq: string): (r: string)
    ensures StartsWith(r, "https://dd.weather.gc.ca/hydrometric/csv/" + prov + "/" + freq + "/")
    ensures EndsWith(r, "_" + freq + "_hydrometric.csv")
  {
    var head := "https://dd.weather.gc.ca/hydrometric/csv/" + prov + "/" + freq + "/";
    var tail := "_" + freq + "_hydrometric.csv";
    var r := head + (prov + "_" + station + tail);
    assert r[..|head|] == head;
    assert r[|r| - |tail|..] == tail;
    r
  }

  /** What one series stores from its station's columns: discharge in
      cms, stage or elevation in m, quality 0, and nothing when there is
      no data or the column is empty. */
  function RowWrites(row: TsRow, cols: Option<Columns>): (r: seq<Write>)
    ensures |r| <= 1
    ensures |r| == 1 <==>
      (cols.Some? && ((row.param == "Flow" && |cols.value.flow| > 0)
                      || ((row.param == "Stage" || row.param == "Elev") && |cols.value.stage| > 0)))
    ensures |r| == 1 ==>
      (r[0].tsId == row.tsId && r[0].quality == 0
       && (row.param == "Flow" ==> r[0].units == "cms" && r[0].obs == cols.value.flow)
       && (row.param != "Flow" ==> r[0].units == "m" && r[0].obs == cols.value.stage))
  {
    if cols.None? then []
    else if row.param == "Flow" && |cols.value.flow| > 0 then [Write(row.tsId, "cms", cols.value.flow, 0)]
    else if (row.param == "Stage" || row.param == "Elev") && |cols.value.stage| > 0 then
      [Write(row.tsId, "m", cols.value.stage, 0)]
    else []
  }

  /** The loop's result: the stores in order and the URLs fetched. */
  datatype Outcome = Outcome(writes: seq<Write>, fetches: seq<string>)

  /** A row starts a new fetch when its station differs from the row
      before. */
  predicate StartsRun(rows: seq<TsRow>, i: int)
    requires 0 <= i < |rows|
  {
    i == 0 || rows[i].station != rows[i - 1].station
  }

  /** `loopThroughTs` from a given state: the station last fetched and the
      columns it gave. */
  function LoopFrom(rows: seq<TsRow>, fetch: string -> Option<seq<Reading>>, freq: string, tieUp: int -> bool,
                    last: Option<string>, cols: Option<Columns>): (r: Outcome)
    ensures |r.fetches| <= |rows|
    decreases |rows|
  {
    if |rows| == 0 then Outcome([], [])
    else
      var row := rows[0];
      var url := DataUrl(row.prov, row.station, freq);
      var refetch := last != Some(row.station);
      var now := if refetch then StationData(fetch(url), true, tieUp) else cols;
      var rest := LoopFrom(rows[1..], fetch, freq, tieUp, Some(row.station), now);
      Outcome(RowWrites(row, now) + rest.writes, (if refetch then [url] else []) + rest.fetches)
  }

  function Loop(rows: seq<TsRow>, fetch: string -> Option<seq<Reading>>, freq: string, tieUp: int -> bool): (r: Outcome)
    ensures |r.fetches| <= |rows|
    ensures |rows| > 0 ==> |r.fetches| >= 1 && r.fetches[0] == DataUrl(rows[0].prov, rows[0].station, freq)
  {
    LoopFrom(rows, fetch, freq, tieUp, None, None)
  }

  /** Number of rows that start a run of one station. */
  function Runs(rows: seq<TsRow>, last: Option<string>): nat
    decreases |rows|
  {
    if |rows| == 0 then 0
    else (if last != Some(rows[0].station) then 1 else 0) + Runs(rows[1..], Some(rows[0].station))
  }

  /** One fetch per run of rows for the same station. */
  lemma {:induction false} FetchPerRun(rows: seq<TsRow>, fetch: string -> Option<seq<Reading>>, freq: string, tieUp: int -> bool,
                                       last: Option<string>, cols: Option<Columns>)
    ensures |LoopFrom(rows, fetch, freq, tieUp, last, cols).fetches| == Runs(rows, last)
    decreases |rows|
  {
    if |rows| > 0 {
      var row := rows[0];
      var refetch := last != Some(row.station);
      var now := if refetch then StationData(fetch(DataUrl(row.prov, row.station, freq)), true, tieUp) else cols;
      FetchPerRun(rows[1..], fetch, freq, tieUp, Some(row.station), now);
    }
  }

  /** Rows of the same station name the same province. */
  predicate ProvincePerStation(rows: seq<TsRow>) {
    forall i :: 0 < i < |rows| && rows[i].station == rows[i - 1].station ==> rows[i].prov == rows[i - 1].prov
  }

  /** Reference: every row fetching its own station's data. */
  function FreshWrites(rows: seq<TsRow>, fetch: string -> Option<seq<Reading>>, freq: string, tieUp: int -> bool): (r: seq<Write>)
    ensures |r| <= |rows|
    decreases |rows|
  {
    if |rows| == 0 then []
    else
      RowWrites(rows[0], StationData(fetch(DataUrl(rows[0].prov, rows[0].station, freq)), true, tieUp))
        + FreshWrites(rows[1..], fetch, freq, tieUp)
  }

  /** Fetching once per run stores what fetching for every row would, as
      long as a station's rows agree on the province. */
  lemma {:induction false} CachingTransparent(rows: seq<TsRow>, fetch: string -> Option<seq<Reading>>, freq: string, tieUp: int -> bool,
                                              last: Option<string>, cols: Option<Columns>)
    requires ProvincePerStation(rows)
    requires |rows| > 0 && last == Some(rows[0].station) ==>
      cols == StationData(fetch(DataUrl(rows[0].prov, rows[0].station, freq)), true, tieUp)
    ensures LoopFrom(rows, fetch, freq, tieUp, last, cols).writes == FreshWrites(rows, fetch, freq, tieUp)
    decreases |rows|
  {
    if |rows| > 0 {
      var row := rows[0];
      var now := StationData(fetch(DataUrl(row.prov, row.station, freq)), true, tieUp);
      var tail := rows[1..];
      assert ProvincePerStation(tail) by {
        forall i | 0 < i < |tail| && tail[i].station == tail[i - 1].station
          ensures tail[i].prov == tail[i - 1].prov
        {
          assert tail[i] == rows[i + 1] && tail[i - 1] == rows[i];
        }
      }
      if |tail| > 0 && tail[0].station == row.station {
        assert tail[0] == rows[1];
        assert rows[1].prov == rows[0].prov;
      }
      CachingTransparent(tail, fetch, freq, tieUp, Some(row.station), now);
    }
  }

  /** The whole loop stores what fetching for every row would. */
  lemma LoopIsFresh(rows: seq<TsRow>, fetch: string -> Option<seq<Reading>>, freq: string, tieUp: int -> bool)
    requires ProvincePerStation(rows)
    ensures Loop(rows, fetch, freq, tieUp).writes == FreshWrites(rows, fetch, freq, tieUp)
    ensures |Loop(rows, fetch, freq, tieUp).fetches| == Runs(rows, None)
  {
    CachingTransparent(rows, fetch, freq, tieUp, None, None);
    FetchPerRun(rows, fetch, freq, tieUp, None, None);
  }
}
