/** The Mesonet CSV reader of the encoder (`dataTools.parser`).

    The input is a list of CSV rows. A 'B' row names the station (third
    field) and carries sensor depths; a 'C' row carries the column names; a
    'Units' row the units; a row whose first field is all digits is a
    5-minute data row. Only top-of-hour rows are stored. Precipitation and
    solar radiation are summed over the hour instead: the top-of-hour value
    is the sum of the twelve 5-minute samples, or -9999 when there were not
    exactly twelve.

    The running hourly sums are kept for the whole file, not per station: a
    'B' row does not reset them.
 */
module MesoParse {
  import opened Wrappers
  import opened PyText
  import opened Numbers
  import opened Civil
  import opened Strptime
  import opened Dict
  import opened MesoConfig
  import opened MesoUnits
  import opened MesoIds

  // ---------------------------------------------------------------------
  // Hourly accumulator
  // ---------------------------------------------------------------------

  datatype Acc = Acc(sum: real, cnt: nat)

  const Fresh: Acc := Acc(0.0, 0)

  /** One 5-minute sample: numbers are added and counted, anything else is
      ignored (`isDigit` is "float() succeeds"). */
  function Sample(a: Acc, v: string): (r: Acc)
    ensures IsNumber(v) ==> r == Acc(a.sum + ParseFloat(v).value, a.cnt + 1)
    ensures !IsNumber(v) ==> r == a
  {
    match ParseFloat(v)
    case Some(x) => Acc(a.sum + x, a.cnt + 1)
    case None => a
  }

  /** The value a top-of-hour row reports for an hourly column, given the
      sums so far and the row's own field. */
  function HourValue(a: Acc, v: string): (r: Cell)
    ensures r.Num? <==> v != "" && Sample(a, v).cnt == 12
    ensures r.Num? ==> r.x == Sample(a, v).sum
    ensures r.Raw? ==> r == Missing
  {
    if v != "" then
      var b := Sample(a, v);
      if b.cnt == 12 then Num(b.sum) else Missing
    else Missing
  }

  /** `f` applied to the fields one after the other. */
  function Fold<A>(a: A, vs: seq<string>, f: (A, string) -> A): A
    decreases |vs|
  {
    if |vs| == 0 then a else f(Fold(a, vs[..|vs| - 1], f), vs[|vs| - 1])
  }

  /** Folding one field and then a run is folding the run with the field in
      front. */
  lemma {:induction false} FoldCons<A>(a: A, v: string, vs: seq<string>, f: (A, string) -> A)
    ensures Fold(f(a, v), vs, f) == Fold(a, [v] + vs, f)
    decreases |vs|
  {
    var all := [v] + vs;
    if |vs| == 0 {
      assert all[..0] == [];
    } else {
      FoldCons(a, v, vs[..|vs| - 1], f);
      assert all[..|all| - 1] == [v] + vs[..|vs| - 1];
    }
  }

  lemma FoldSnoc<A>(a: A, vs: seq<string>, v: string, f: (A, string) -> A)
    ensures Fold(a, vs + [v], f) == f(Fold(a, vs, f), v)
  {
    assert (vs + [v])[..|vs|] == vs;
  }

  /** The samples of a run of rows, one after the other. */
  function SampleAll(a: Acc, vs: seq<string>): Acc {
    Fold(a, vs, Sample)
  }

  /** The numbers among the fields, in order. */
  function NumbersIn(vs: seq<string>): (r: seq<real>)
    decreases |vs|
    ensures |r| <= |vs|
  {
    if |vs| == 0 then []
    else NumbersIn(vs[..|vs| - 1]) + (match ParseFloat(vs[|vs| - 1]) case Some(x) => [x] case None => [])
  }

  function Sum(xs: seq<real>): real
    decreases |xs|
  {
    if |xs| == 0 then 0.0 else Sum(xs[..|xs| - 1]) + xs[|xs| - 1]
  }

  lemma {:induction false} SampleAllCounts(vs: seq<string>)
    ensures SampleAll(Fresh, vs) == Acc(Sum(NumbersIn(vs)), |NumbersIn(vs)|)
    decreases |vs|
  {
    if |vs| > 0 {
      SampleAllCounts(vs[..|vs| - 1]);
      var ns := NumbersIn(vs[..|vs| - 1]);
      match ParseFloat(vs[|vs| - 1])
      case Some(x) =>
        assert NumbersIn(vs) == ns + [x];
        assert (ns + [x])[..|ns|] == ns;
      case None =>
        assert NumbersIn(vs) == ns;
    }
  }

  /** An hour's total from its sub-hourly fields and its top-of-hour field:
      the sum of the numbers among them when there are exactly twelve and
      the top-of-hour field is not empty, and -9999 otherwise. */
  function HourTotal(subs: seq<string>, top: string): Cell {
    var ns := NumbersIn(subs + [top]);
    if top != "" && |ns| == 12 then Num(Sum(ns)) else Missing
  }

  /** Starting from a reset, an hour's sub-hourly fields followed by the
      top-of-hour field give the sum of the numbers among them when there
      are exactly twelve and the top-of-hour field is not empty, and -9999
      otherwise. */
  lemma TwelveSamples(subs: seq<string>, top: string)
    ensures HourValue(SampleAll(Fresh, subs), top) == HourTotal(subs, top)
  {
    var all := subs + [top];
    assert all[..|all| - 1] == subs;
    SampleAllCounts(all);
  }

  // ---------------------------------------------------------------------
  // Parsed data
  // ---------------------------------------------------------------------

  /** A date as a number that orders like the date: yyyymmddHHMM. */
  function Stamp(t: DateTime): int {
    t.year * 100000000 + t.month * 1000000 + t.day * 10000 + t.hour * 100 + t.minute
  }

  /** One column of one station: its unit and its values by time. */
  datatype Series = Series(units: string, data: map<int, Cell>)

  datatype Site = Site(sId: string, state: string, desc: string, params: Dict<string, Series>)

  /** Stations in the order they were first stored. */
  type Data = Dict<string, Site>

  /** What every stored column satisfies: it has a SHEF element, at least
      one value, and no empty value. */
  predicate GoodSeries(c: string, s: Series) {
    ShefParam(c).Some? && |s.data| > 0 && forall k :: k in s.data ==> Filled(s.data[k])
  }

  predicate GoodSite(site: Site) {
    Distinct(site.params)
    && forall j :: 0 <= j < |site.params| ==> GoodSeries(site.params[j].0, site.params[j].1)
  }

  predicate GoodData(d: Data) {
    Distinct(d) && forall j :: 0 <= j < |d| ==> GoodSite(d[j].1)
  }

  /** The station a 'B' row sets up. */
  datatype Station = Station(uId: string, dpths: seq<string>, sId: string, desc: string, st: string)

  /** A column's series after storing `v` at `stamp`. */
  function Updated(prev: Option<Series>, stamp: int, v: Cell, u: string): (r: Series)
    ensures stamp in r.data && r.data[stamp] == v
    ensures prev.Some? ==> r.data.Keys == prev.value.data.Keys + {stamp}
    ensures prev.Some? ==> forall k :: k in prev.value.data && k != stamp ==> r.data[k] == prev.value.data[k]
    ensures prev.None? ==> r == Series(u, map[stamp := v])
  {
    match prev
    case Some(p) => Series(if p.units == "" then u else p.units, p.data[stamp := v])
    case None => Series(u, map[stamp := v])
  }

  /** `data[uId][c]['data'][date] = v`, creating the station (with its id,
      state and description) or the column (with unit `u`) on first use; an
      existing column takes `u` only while its unit is empty. */
  function Store(d: Data, stn: Station, c: string, stamp: int, v: Cell, u: string): (r: Data)
    ensures stn.uId in Keys(d) ==> Keys(r) == Keys(d)
    ensures stn.uId !in Keys(d) ==> Keys(r) == Keys(d) + [stn.uId]
  {
    match Get(d, stn.uId)
    case Some(site) =>
      var ser := Updated(Get(site.params, c), stamp, v, u);
      Put(d, stn.uId, site.(params := Put(site.params, c, ser)))
    case None =>
      Put(d, stn.uId, Site(stn.sId, stn.st, stn.desc, [(c, Series(u, map[stamp := v]))]))
  }

  /** The value stored last for a station, column and time is the one read. */
  lemma StoreGet(d: Data, stn: Station, c: string, stamp: int, v: Cell, u: string)
    ensures var r := Store(d, stn, c, stamp, v, u);
      Get(r, stn.uId).Some? && Get(Get(r, stn.uId).value.params, c).Some?
      && Get(Get(r, stn.uId).value.params, c).value.data[stamp] == v
  {
    match Get(d, stn.uId)
    case Some(site) =>
      var ser := Updated(Get(site.params, c), stamp, v, u);
      GetPut(site.params, c, ser);
      GetPut(d, stn.uId, site.(params := Put(site.params, c, ser)));
    case None =>
      GetPut(d, stn.uId, Site(stn.sId, stn.st, stn.desc, [(c, Series(u, map[stamp := v]))]));
  }

  /** `data[uId][c]['data'][t]`, when there is one. */
  function ValueAt(d: Data, uId: string, c: string, t: int): Option<Cell> {
    match Get(d, uId)
    case None => None
    case Some(site) =>
      match Get(site.params, c)
      case None => None
      case Some(ser) => if t in ser.data then Some(ser.data[t]) else None
  }

  /** `Store` writes its value at its station, column and time, and every
      other station, column or time reads as before. */
  lemma StoreValueAt(d: Data, stn: Station, c: string, stamp: int, v: Cell, u: string)
    ensures ValueAt(Store(d, stn, c, stamp, v, u), stn.uId, c, stamp) == Some(v)
    ensures forall x, y, t :: x != stn.uId || y != c || t != stamp ==>
      ValueAt(Store(d, stn, c, stamp, v, u), x, y, t) == ValueAt(d, x, y, t)
  {
    StoreGet(d, stn, c, stamp, v, u);
    forall x, y, t | x != stn.uId || y != c || t != stamp
      ensures ValueAt(Store(d, stn, c, stamp, v, u), x, y, t) == ValueAt(d, x, y, t)
    {
      if Get(d, stn.uId).Some? {
        StoreOldSite(d, stn, c, stamp, v, u, x, y, t);
      } else {
        StoreNewSite(d, stn, c, stamp, v, u, x, y, t);
      }
    }
  }

  lemma StoreOldSite(d: Data, stn: Station, c: string, stamp: int, v: Cell, u: string, x: string, y: string, t: int)
    requires Get(d, stn.uId).Some?
    requires x != stn.uId || y != c || t != stamp
    ensures ValueAt(Store(d, stn, c, stamp, v, u), x, y, t) == ValueAt(d, x, y, t)
  {
    var site := Get(d, stn.uId).value;
    var ser := Updated(Get(site.params, c), stamp, v, u);
    var site' := site.(params := Put(site.params, c, ser));
    assert Store(d, stn, c, stamp, v, u) == Put(d, stn.uId, site');
    if x != stn.uId {
      PutOther(d, stn.uId, site', x);
    } else {
      GetPut(d, stn.uId, site');
      if y != c {
        PutOther(site.params, c, ser, y);
      } else {
        GetPut(site.params, c, ser);
      }
    }
  }

  lemma StoreNewSite(d: Data, stn: Station, c: string, stamp: int, v: Cell, u: string, x: string, y: string, t: int)
    requires Get(d, stn.uId).None?
    requires x != stn.uId || y != c || t != stamp
    ensures ValueAt(Store(d, stn, c, stamp, v, u), x, y, t) == ValueAt(d, x, y, t)
  {
    var site' := Site(stn.sId, stn.st, stn.desc, [(c, Series(u, map[stamp := v]))]);
    assert Store(d, stn, c, stamp, v, u) == Put(d, stn.uId, site');
    if x != stn.uId {
      PutOther(d, stn.uId, site', x);
    } else {
      GetPut(d, stn.uId, site');
      if y != c {
        GetAbsent(site'.params, y);
      }
    }
  }

  lemma PutSeriesGood(ps: Dict<string, Series>, c: string, ser: Series)
    requires Distinct(ps) && forall j :: 0 <= j < |ps| ==> GoodSeries(ps[j].0, ps[j].1)
    requires GoodSeries(c, ser)
    ensures var r := Put(ps, c, ser);
      Distinct(r) && forall j :: 0 <= j < |r| ==> GoodSeries(r[j].0, r[j].1)
  {
    PutDistinct(ps, c, ser);
    PutAll(ps, c, ser, GoodSeries);
  }

  lemma PutSiteGood(d: Data, k: string, site: Site)
    requires GoodData(d) && GoodSite(site)
    ensures GoodData(Put(d, k, site))
  {
    PutGet(d, k, site, k);
  }

  lemma SiteGood(d: Data, k: string)
    requires GoodData(d) && Get(d, k).Some?
    ensures GoodSite(Get(d, k).value)
  {
    GetIn(d, k);
  }

  lemma SeriesGood(site: Site, c: string)
    requires GoodSite(site) && Get(site.params, c).Some?
    ensures GoodSeries(c, Get(site.params, c).value)
  {
    GetIn(site.params, c);
  }

  lemma UpdatedGood(prev: Option<Series>, c: string, stamp: int, v: Cell, u: string)
    requires prev.Some? ==> GoodSeries(c, prev.value)
    requires Filled(v) && ShefParam(c).Some?
    ensures GoodSeries(c, Updated(prev, stamp, v, u))
  {
  }

  /** Storing a non-empty value under a column with a SHEF element keeps the
      data well formed. */
  lemma StoreGood(d: Data, stn: Station, c: string, stamp: int, v: Cell, u: string)
    requires GoodData(d) && Filled(v) && ShefParam(c).Some?
    ensures GoodData(Store(d, stn, c, stamp, v, u))
  {
    match Get(d, stn.uId)
    case Some(site) =>
      SiteGood(d, stn.uId);
      SiteStoreGood(site, c, stamp, v, u);
      var ser := Updated(Get(site.params, c), stamp, v, u);
      PutSiteGood(d, stn.uId, site.(params := Put(site.params, c, ser)));
    case None =>
      FirstSiteGood(stn, c, stamp, v, u);
      PutSiteGood(d, stn.uId, Site(stn.sId, stn.st, stn.desc, [(c, Series(u, map[stamp := v]))]));
  }

  /** A new station holding one non-empty value under a column with a SHEF
      element is well formed. */
  lemma FirstSiteGood(stn: Station, c: string, stamp: int, v: Cell, u: string)
    requires Filled(v) && ShefParam(c).Some?
    ensures GoodSite(Site(stn.sId, stn.st, stn.desc, [(c, Series(u, map[stamp := v]))]))
  {
    assert GoodSeries(c, Series(u, map[stamp := v]));
  }

  /** Within one station, storing a non-empty value under a column with a
      SHEF element keeps the station well formed. */
  lemma SiteStoreGood(site: Site, c: string, stamp: int, v: Cell, u: string)
    requires GoodSite(site) && Filled(v) && ShefParam(c).Some?
    ensures GoodSite(site.(params := Put(site.params, c, Updated(Get(site.params, c), stamp, v, u))))
  {
    var prev := Get(site.params, c);
    if prev.Some? {
      SeriesGood(site, c);
    }
    UpdatedGood(prev, c, stamp, v, u);
    PutSeriesGood(site.params, c, Updated(prev, stamp, v, u));
  }

  lemma StoreKeepsGood(d: Data, stn: Station, c: string, stamp: int, v: Cell, u: string)
    ensures GoodData(d) && Filled(v) && ShefParam(c).Some? ==> GoodData(Store(d, stn, c, stamp, v, u))
  {
    if GoodData(d) && Filled(v) && ShefParam(c).Some? {
      StoreGood(d, stn, c, stamp, v, u);
    }
  }

  // ---------------------------------------------------------------------
  // The row loop
  // ---------------------------------------------------------------------

  /** The parser's variables between rows; a None is a name not yet
      assigned. */
  datatype PState = PState(
    stn: Option<Station>, cols: Option<seq<string>>, units: Option<seq<string>>,
    hrly: map<string, Acc>, data: Data)

  /** The columns summed into hourly totals, written out; `HourlyColsAgree`
      shows they are the ones `getHourly` derives from the configuration. */
  function HourlyCols(): seq<string> {
    ["Precip", "Irrad"]
  }

  lemma HourlyColsAgree()
    ensures HourlyCols() == GetHourly().1
  {
    HourlyColumns();
  }

  function Start(): (s: PState)
    ensures s.hrly.Keys == set c | c in HourlyCols()
    ensures s.data == []
  {
    PState(None, None, None, map c | c in HourlyCols() :: Fresh, [])
  }

  /** A 'B' row: station id from the third field (IndexError when short). */
  function BRow(xref: map<string, string>, row: seq<string>): (r: Result<Station>)
    ensures r.Ok? <==> |row| >= 3
    ensures r.Ok? ==> r.value.uId == row[2] && r.value.dpths == row
  {
    var uId :- At(row, 2);
    var (sId, desc) := ResolveShefId(uId, xref);
    Ok(Station(uId, row, sId, desc, GetState(uId, sId)))
  }

  /** The fields a row has under the columns named `c`, from column `i` on. */
  function Named(cols: seq<string>, row: seq<string>, c: string, i: nat): seq<string>
    requires i <= |cols|
    decreases |cols| - i
  {
    if i == |cols| then []
    else (if cols[i] == c && i < |row| then [row[i]] else []) + Named(cols, row, c, i + 1)
  }

  /** Column `j` is the only one with its name. */
  predicate OnlyAt(cols: seq<string>, j: nat)
    requires j < |cols|
  {
    forall k :: 0 <= k < |cols| && k != j ==> cols[k] != cols[j]
  }

  lemma {:induction false} NamedNone(cols: seq<string>, row: seq<string>, c: string, i: nat)
    requires i <= |cols|
    requires forall k :: i <= k < |cols| ==> cols[k] != c
    ensures Named(cols, row, c, i) == []
    decreases |cols| - i
  {
    if i < |cols| {
      NamedNone(cols, row, c, i + 1);
    }
  }

  /** A column named once contributes exactly its own field. */
  lemma {:induction false} NamedOnce(cols: seq<string>, row: seq<string>, j: nat, i: nat)
    requires i <= j < |cols| && j < |row| && OnlyAt(cols, j)
    ensures Named(cols, row, cols[j], i) == [row[j]]
    decreases |cols| - i
  {
    if i == j {
      NamedNone(cols, row, cols[j], j + 1);
    } else {
      NamedOnce(cols, row, j, i + 1);
    }
  }

  /** One field folded into the sum of its column, followed by the folds of
      the later columns, is the fold from this column on. */
  lemma NamedStep<A>(hrly: map<string, A>, out: map<string, A>, cols: seq<string>, row: seq<string>, i: nat, f: (A, string) -> A)
    requires i < |cols| && i < |row| && cols[i] in hrly
    requires forall c :: c in hrly ==>
      c in out && out[c] == Fold(hrly[cols[i] := f(hrly[cols[i]], row[i])][c], Named(cols, row, c, i + 1), f)
    ensures forall c :: c in hrly ==> out[c] == Fold(hrly[c], Named(cols, row, c, i), f)
  {
    forall c | c in hrly
      ensures out[c] == Fold(hrly[c], Named(cols, row, c, i), f)
    {
      var rest := Named(cols, row, c, i + 1);
      if c == cols[i] {
        assert Named(cols, row, c, i) == [row[i]] + rest;
        FoldCons(hrly[c], row[i], rest, f);
      } else {
        assert Named(cols, row, c, i) == rest;
      }
    }
  }

  /** A column that is not summed leaves every sum as the later columns
      leave it. */
  lemma NamedSkip<A>(hrly: map<string, A>, out: map<string, A>, cols: seq<string>, row: seq<string>, i: nat, f: (A, string) -> A)
    requires i < |cols| && cols[i] !in hrly
    requires forall c :: c in hrly ==> c in out && out[c] == Fold(hrly[c], Named(cols, row, c, i + 1), f)
    ensures forall c :: c in hrly ==> out[c] == Fold(hrly[c], Named(cols, row, c, i), f)
  {
    forall c | c in hrly
      ensures out[c] == Fold(hrly[c], Named(cols, row, c, i), f)
    {
      var rest := Named(cols, row, c, i + 1);
      assert cols[i] != c;
      assert Named(cols, row, c, i) == [] + rest;
      assert [] + rest == rest;
    }
  }

  /** Each field under a column of `sums` folded into that column's sum with
      `f`, from column `i` on (IndexError for a row too short to have one). */
  function Feed<A>(sums: map<string, A>, cols: seq<string>, row: seq<string>, i: nat, f: (A, string) -> A): (r: Result<map<string, A>>)
    requires i <= |cols|
    decreases |cols| - i
    ensures r.Fail? ==> r.fault == IndexError
    ensures r.Ok? ==> r.value.Keys == sums.Keys
    ensures r.Ok? ==> forall c :: c in sums ==> r.value[c] == Fold(sums[c], Named(cols, row, c, i), f)
  {
    if i == |cols| then Ok(sums)
    else if cols[i] in sums then
      var v :- At(row, i);
      var r := Feed(sums[cols[i] := f(sums[cols[i]], v)], cols, row, i + 1, f);
      if r.Ok? then
        NamedStep(sums, r.value, cols, row, i, f);
        r
      else r
    else
      var r := Feed(sums, cols, row, i + 1, f);
      if r.Ok? then
        NamedSkip(sums, r.value, cols, row, i, f);
        r
      else r
  }

  /** Feeding fails exactly when the row is too short to have a field under
      some column of `sums`. */
  lemma {:induction false} FeedFits<A>(sums: map<string, A>, cols: seq<string>, row: seq<string>, i: nat, f: (A, string) -> A)
    requires i <= |cols|
    ensures Feed(sums, cols, row, i, f).Ok? <==> forall k :: i <= k < |cols| && cols[k] in sums ==> k < |row|
    decreases |cols| - i
  {
    if i < |cols| {
      if cols[i] !in sums {
        FeedFits(sums, cols, row, i + 1, f);
      } else if i < |row| {
        var h := sums[cols[i] := f(sums[cols[i]], row[i])];
        assert h.Keys == sums.Keys;
        FeedFits(h, cols, row, i + 1, f);
      }
    }
  }

  /** A 5-minute row that is not at the top of the hour only feeds the
      hourly sums: each hourly column takes one sample of each field under
      its name, and the row fails (IndexError) exactly when it is too short
      to have a field under some hourly column. */
  function SubHour(hrly: map<string, Acc>, cols: seq<string>, row: seq<string>): (r: Result<map<string, Acc>>)
    ensures r.Ok? <==> forall k :: 0 <= k < |cols| && cols[k] in hrly ==> k < |row|
    ensures r.Fail? ==> r.fault == IndexError
    ensures r.Ok? ==> r.value.Keys == hrly.Keys
    ensures r.Ok? ==> forall c :: c in hrly ==> r.value[c] == SampleAll(hrly[c], Named(cols, row, c, 0))
  {
    FeedFits(hrly, cols, row, 0, Sample);
    Feed(hrly, cols, row, 0, Sample)
  }

  /** Everything one column of a top-of-hour row needs. */
  datatype RowEnv = RowEnv(stn: Station, cols: seq<string>, units: Option<seq<string>>, row: seq<string>, stamp: int)

  /** Column `i` has a field and a unit. */
  predicate Fits(e: RowEnv, i: nat) {
    i < |e.row| && e.units.Some? && i < |e.units.value|
  }

  /** The value to store after the unit conversion of the column's SHEF
      element ("eng" or "metric"). */
  function Convert(sp: string, v: Cell, u: string): (Cell, string) {
    var mods := Mods(sp);
    if "eng" in mods then ToEnglish(v, u)
    else if "metric" in mods then ToMetric(v, u)
    else (v, u)
  }

  /** What a top-of-hour row reports under column `c`: the hourly total for
      an hourly column, the field itself otherwise. */
  function Reported(hrly: map<string, Acc>, c: string, raw: string): Cell {
    if c in hrly then HourValue(hrly[c], raw) else Raw(raw)
  }

  /** The value column `i` of a top-of-hour row stores, if any: a non-empty
      report beyond the first two columns and other than 'UTC', converted by
      the column's SHEF element, when the conversion leaves it non-empty. */
  function StoredValue(e: RowEnv, hrly: map<string, Acc>, i: nat): Option<Cell>
    requires i < |e.cols| && Fits(e, i)
  {
    StoredCell(e, i, Reported(hrly, e.cols[i], e.row[i]))
  }

  /** The value column `i` stores when it reports `v`. */
  function StoredCell(e: RowEnv, i: nat, v: Cell): Option<Cell>
    requires i < |e.cols| && Fits(e, i)
  {
    var c := e.cols[i];
    if i > 1 && c != "UTC" && Filled(v) && ShefParam(c).Some? then
      var w := Convert(ShefParam(c).value, v, e.units.value[i]).0;
      if Filled(w) then Some(w) else None
    else None
  }

  /** Column `i` of a top-of-hour row can be read: it has a field and a
      unit, and a non-empty report beyond the first two columns, other than
      'UTC', names a SHEF element. */
  predicate ColumnOk(e: RowEnv, hrly: map<string, Acc>, i: nat)
    requires i < |e.cols|
  {
    Fits(e, i) && (i > 1 && e.cols[i] != "UTC" && Filled(Reported(hrly, e.cols[i], e.row[i])) ==> ShefParam(e.cols[i]).Some?)
  }

  /** The hourly sums after the columns `names` of a top-of-hour row: each
      hourly column among them restarts from `Fresh`. */
  function Reset(hrly: map<string, Acc>, names: seq<string>): (r: map<string, Acc>)
    ensures r.Keys == hrly.Keys
  {
    map c | c in hrly :: if c in names then Fresh else hrly[c]
  }

  /** One column of a top-of-hour row: take the unit and the field (an
      unassigned units row is a NameError, a short row an IndexError), turn
      an hourly column into its hourly total and reset its sum, then store
      every non-empty value beyond the first two columns. */
  function TopColumn(e: RowEnv, hrly: map<string, Acc>, d: Data, i: nat): (r: Result<(map<string, Acc>, Data)>)
    requires i < |e.cols|
    ensures e.units.None? ==> r == Fail(UnboundName)
    ensures r.Ok? <==> ColumnOk(e, hrly, i)
    ensures r.Fail? && e.units.Some? ==> r.fault == IndexError
    ensures r.Ok? ==> Fits(e, i)
    ensures r.Ok? ==> r.value.0 == if e.cols[i] in hrly then hrly[e.cols[i] := Fresh] else hrly
    ensures r.Ok? && i > 1 && e.cols[i] != "UTC" && Filled(Reported(hrly, e.cols[i], e.row[i])) ==> ShefParam(e.cols[i]).Some?
    ensures r.Ok? && StoredValue(e, hrly, i).Some? ==> ValueAt(r.value.1, e.stn.uId, e.cols[i], e.stamp) == StoredValue(e, hrly, i)
    ensures r.Ok? && StoredValue(e, hrly, i).None? ==> r.value.1 == d
    ensures r.Ok? ==> forall x, y, t :: x != e.stn.uId || y != e.cols[i] || t != e.stamp ==>
      ValueAt(r.value.1, x, y, t) == ValueAt(d, x, y, t)
    ensures r.Ok? && GoodData(d) ==> GoodData(r.value.1)
  {
    var c := e.cols[i];
    var us :- Need(e.units, UnboundName);
    var u :- At(us, i);
    var raw :- At(e.row, i);
    var v := Reported(hrly, c, raw);
    var hrly' := if c in hrly then hrly[c := Fresh] else hrly;
    if i > 1 && c != "UTC" && Filled(v) then
      var d' :- StoreCell(e, d, c, v, u);
      Ok((hrly', d'))
    else Ok((hrly', d))
  }

  /** One non-empty value of a stored column: its SHEF element (IndexError
      without one), converted to SHEF units, and stored unless the
      conversion leaves it empty. */
  function StoreCell(e: RowEnv, d: Data, c: string, v: Cell, u: string): (r: Result<Data>)
    ensures ShefParam(c).None? <==> r == Fail(IndexError)
    ensures r.Ok? && Filled(Convert(ShefParam(c).value, v, u).0) ==>
      ValueAt(r.value, e.stn.uId, c, e.stamp) == Some(Convert(ShefParam(c).value, v, u).0)
    ensures r.Ok? && !Filled(Convert(ShefParam(c).value, v, u).0) ==> r.value == d
    ensures r.Ok? ==> forall x, y, t :: x != e.stn.uId || y != c || t != e.stamp ==>
      ValueAt(r.value, x, y, t) == ValueAt(d, x, y, t)
    ensures r.Ok? && GoodData(d) ==> GoodData(r.value)
  {
    var sp :- Need(ShefParam(c), IndexError);
    var (v', u') := Convert(sp, v, u);
    if Filled(v') then
      StoreKeepsGood(d, e.stn, c, e.stamp, v', u');
      StoreValueAt(d, e.stn, c, e.stamp, v', u');
      Ok(Store(d, e.stn, c, e.stamp, v', u'))
    else Ok(d)
  }

  /** The columns of a top-of-hour row from column `i` on: every hourly
      column among them restarts from `Fresh`, the others keep their sums,
      and nothing is stored outside the station's columns at the row's time. */
  function TopHour(e: RowEnv, hrly: map<string, Acc>, d: Data, i: nat): (r: Result<(map<string, Acc>, Data)>)
    requires i <= |e.cols|
    decreases |e.cols| - i
    ensures r.Ok? ==> r.value.0.Keys == hrly.Keys
    ensures r.Ok? ==> forall c :: c in hrly ==> r.value.0[c] == if c in e.cols[i..] then Fresh else hrly[c]
    ensures r.Ok? ==> forall k :: i <= k < |e.cols| ==> Fits(e, k)
    ensures r.Ok? ==> forall x, y, t :: x != e.stn.uId || y !in e.cols[i..] || t != e.stamp ==>
      ValueAt(r.value.1, x, y, t) == ValueAt(d, x, y, t)
    ensures r.Ok? && GoodData(d) ==> GoodData(r.value.1)
  {
    if i == |e.cols| then Ok((hrly, d))
    else
      var (h, d') :- TopColumn(e, hrly, d, i);
      SuffixCons(e.cols, i);
      TopHour(e, h, d', i + 1)
  }

  /** The columns of a top-of-hour row from `i` on are read exactly when
      each of them can be read with the sums as the earlier columns left
      them, and afterwards every hourly column among them has restarted. */
  lemma {:induction false} TopHourOk(e: RowEnv, hrly: map<string, Acc>, d: Data, i: nat)
    requires i <= |e.cols|
    ensures TopHour(e, hrly, d, i).Ok? <==>
      forall k :: i <= k < |e.cols| ==> ColumnOk(e, Reset(hrly, e.cols[i..k]), k)
    ensures TopHour(e, hrly, d, i).Ok? ==> TopHour(e, hrly, d, i).value.0 == Reset(hrly, e.cols[i..])
    decreases |e.cols| - i
  {
    ResetNone(hrly, e.cols[i..i]);
    if i == |e.cols| {
      ResetNone(hrly, e.cols[i..]);
    } else {
      var t := TopColumn(e, hrly, d, i);
      if t.Fail? {
        assert TopHour(e, hrly, d, i).Fail?;
        assert !ColumnOk(e, Reset(hrly, e.cols[i..i]), i);
      } else {
        var (h, d') := t.value;
        assert TopHour(e, hrly, d, i) == TopHour(e, h, d', i + 1);
        TopHourOk(e, h, d', i + 1);
        ResetAfter(hrly, e.cols, i, i + 1);
        TopHourShift(e, hrly, h, i, i + 1);
        SuffixWhole(e.cols, i + 1);
        SuffixWhole(e.cols, i);
      }
    }
  }

  /** The condition of `TopHourOk` from `i` is column `i`'s condition and
      the condition from `n == i + 1` with column `i` restarted. */
  lemma TopHourShift(e: RowEnv, hrly: map<string, Acc>, h: map<string, Acc>, i: nat, n: nat)
    requires n == i + 1 <= |e.cols| && Reset(hrly, e.cols[i..i]) == hrly
    requires forall k :: n <= k <= |e.cols| ==> Reset(h, e.cols[n..k]) == Reset(hrly, e.cols[i..k])
    ensures (forall k :: i <= k < |e.cols| ==> ColumnOk(e, Reset(hrly, e.cols[i..k]), k)) <==>
      ColumnOk(e, hrly, i) && forall k :: n <= k < |e.cols| ==> ColumnOk(e, Reset(h, e.cols[n..k]), k)
  {
    if ColumnOk(e, hrly, i) && forall k :: n <= k < |e.cols| ==> ColumnOk(e, Reset(h, e.cols[n..k]), k) {
      forall k | i <= k < |e.cols| ensures ColumnOk(e, Reset(hrly, e.cols[i..k]), k) {
        if k > i {
          assert Reset(h, e.cols[n..k]) == Reset(hrly, e.cols[i..k]);
        }
      }
    }
    if forall k :: i <= k < |e.cols| ==> ColumnOk(e, Reset(hrly, e.cols[i..k]), k) {
      assert ColumnOk(e, Reset(hrly, e.cols[i..i]), i);
      forall k | n <= k < |e.cols| ensures ColumnOk(e, Reset(h, e.cols[n..k]), k) {
        assert Reset(h, e.cols[n..k]) == Reset(hrly, e.cols[i..k]);
      }
    }
  }

  lemma SuffixWhole<T>(s: seq<T>, i: nat)
    requires i <= |s|
    ensures s[i..] == s[i..|s|]
  {
  }

  /** Restarting no column that has a sum changes nothing. */
  lemma ResetNone(hrly: map<string, Acc>, names: seq<string>)
    requires |names| == 0
    ensures Reset(hrly, names) == hrly
  {
  }

  /** Restarting column `i` and then the columns from `n == i + 1` up to
      `k` is restarting the columns from `i` up to `k`. */
  lemma ResetAfter(hrly: map<string, Acc>, cols: seq<string>, i: nat, n: nat)
    requires n == i + 1 <= |cols|
    ensures var h := if cols[i] in hrly then hrly[cols[i] := Fresh] else hrly;
      forall k :: n <= k <= |cols| ==> Reset(h, cols[n..k]) == Reset(hrly, cols[i..k])
  {
    var h := if cols[i] in hrly then hrly[cols[i] := Fresh] else hrly;
    forall k | n <= k <= |cols| ensures Reset(h, cols[n..k]) == Reset(hrly, cols[i..k]) {
      assert cols[i..k] == [cols[i]] + cols[n..k];
      assert forall y :: y in cols[i..k] <==> y == cols[i] || y in cols[n..k];
      assert Reset(h, cols[n..k]).Keys == Reset(hrly, cols[i..k]).Keys;
    }
  }

  lemma SuffixCons(cols: seq<string>, i: nat)
    requires i < |cols|
    ensures forall y :: y in cols[i..] <==> y == cols[i] || y in cols[i + 1..]
  {
    assert cols[i..] == [cols[i]] + cols[i + 1..];
  }

  /** A column named once in a top-of-hour row whose columns can all be
      read ends up holding what `StoredValue` gives for it at the row's
      time, reading the hourly sums as they were before the row; an hourly
      column named once that reports a non-empty total needs a SHEF
      element. */
  lemma TopHourStores(e: RowEnv, hrly: map<string, Acc>, d: Data, i: nat, j: nat)
    requires i <= j < |e.cols| && OnlyAt(e.cols, j)
    requires forall k :: i <= k < |e.cols| ==> ColumnOk(e, Reset(hrly, e.cols[i..k]), k)
    ensures TopHour(e, hrly, d, i).Ok?
    ensures Fits(e, j)
    ensures j > 1 && e.cols[j] != "UTC" && Filled(Reported(hrly, e.cols[j], e.row[j])) ==> ShefParam(e.cols[j]).Some?
    ensures ValueAt(TopHour(e, hrly, d, i).value.1, e.stn.uId, e.cols[j], e.stamp) ==
      if StoredValue(e, hrly, j).Some? then StoredValue(e, hrly, j) else ValueAt(d, e.stn.uId, e.cols[j], e.stamp)
  {
    TopHourOk(e, hrly, d, i);
    ReadColumnStores(e, hrly, d, i, j);
  }

  /** `TopHourStores` for a row already read. */
  lemma {:induction false} ReadColumnStores(e: RowEnv, hrly: map<string, Acc>, d: Data, i: nat, j: nat)
    requires i <= j < |e.cols| && OnlyAt(e.cols, j)
    requires TopHour(e, hrly, d, i).Ok?
    ensures Fits(e, j)
    ensures j > 1 && e.cols[j] != "UTC" && Filled(Reported(hrly, e.cols[j], e.row[j])) ==> ShefParam(e.cols[j]).Some?
    ensures ValueAt(TopHour(e, hrly, d, i).value.1, e.stn.uId, e.cols[j], e.stamp) ==
      if StoredValue(e, hrly, j).Some? then StoredValue(e, hrly, j) else ValueAt(d, e.stn.uId, e.cols[j], e.stamp)
    decreases |e.cols| - i
  {
    var (h, d') := TopColumn(e, hrly, d, i).value;
    assert TopHour(e, hrly, d, i) == TopHour(e, h, d', i + 1);
    if i == j {
      NotLater(e.cols, j);
    } else {
      ReadColumnStores(e, h, d', i + 1, j);
      LaterColumn(e, hrly, d, i, j);
    }
  }

  /** An earlier column of a top-of-hour row changes neither what a column
      with another name reports nor what is stored under it. */
  lemma LaterColumn(e: RowEnv, hrly: map<string, Acc>, d: Data, i: nat, j: nat)
    requires i < j < |e.cols| && e.cols[i] != e.cols[j] && j < |e.row|
    requires TopColumn(e, hrly, d, i).Ok?
    ensures var (h, d') := TopColumn(e, hrly, d, i).value;
      && Reported(h, e.cols[j], e.row[j]) == Reported(hrly, e.cols[j], e.row[j])
      && ValueAt(d', e.stn.uId, e.cols[j], e.stamp) == ValueAt(d, e.stn.uId, e.cols[j], e.stamp)
  {
  }

  lemma NotLater(cols: seq<string>, j: nat)
    requires j < |cols| && OnlyAt(cols, j)
    ensures cols[j] !in cols[j + 1..]
  {
    var later := cols[j + 1..];
    assert forall k :: 0 <= k < |later| ==> later[k] == cols[j + 1 + k];
  }

  /** The time a data row's 'UTC' field reads as, if it has one. */
  function RowTime(cols: seq<string>, row: seq<string>): Option<DateTime> {
    match IndexOf(cols, "UTC")
    case None => None
    case Some(k) =>
      if k < |row| && ParseDayMonYear(row[k]).Ok? then Some(ParseDayMonYear(row[k]).value) else None
  }

  /** A data row: skipped while the station has no SHEF id; otherwise the
      time comes from the 'UTC' column (ValueError when there is none or it
      does not read as `%d%b%Y %H%M`). */
  function DataRow(s: PState, row: seq<string>): (r: Result<PState>)
    ensures r.Ok? ==> r.value.hrly.Keys == s.hrly.Keys
    ensures r.Ok? && GoodData(s.data) ==> GoodData(r.value.data)
    ensures r.Ok? ==> r.value.stn == s.stn && r.value.cols == s.cols && r.value.units == s.units
  {
    var stn :- Need(s.stn, UnboundName);
    if stn.sId == "" then Ok(s)
    else
      var cols :- Need(s.cols, UnboundName);
      var k :- Need(IndexOf(cols, "UTC"), ValueError);
      var text :- At(row, k);
      var date :- ParseDayMonYear(text);
      if date.minute == 0 then
        var (h, d) :- TopHour(RowEnv(stn, cols, s.units, row, Stamp(date)), s.hrly, s.data, 0);
        Ok(s.(hrly := h, data := d))
      else
        var h :- SubHour(s.hrly, cols, row);
        Ok(s.(hrly := h))
  }

  /** The station is known, has a SHEF id, and the columns are named. */
  predicate Ready(s: PState) {
    s.stn.Some? && s.stn.value.sId != "" && s.cols.Some?
  }

  /** A row off the hour stores nothing, fails only when it is too short for
      an hourly column, and gives each hourly column one sample per field
      under its name. */
  lemma SubRowSamples(s: PState, row: seq<string>)
    requires Ready(s) && RowTime(s.cols.value, row).Some? && RowTime(s.cols.value, row).value.minute != 0
    ensures DataRow(s, row).Ok? <==> forall k :: 0 <= k < |s.cols.value| && s.cols.value[k] in s.hrly ==> k < |row|
    ensures DataRow(s, row).Ok? ==> DataRow(s, row).value.data == s.data
    ensures DataRow(s, row).Ok? ==> forall c :: c in s.hrly ==>
      DataRow(s, row).value.hrly[c] == SampleAll(s.hrly[c], Named(s.cols.value, row, c, 0))
  {
    var k := IndexOf(s.cols.value, "UTC").value;
    assert At(row, k) == Ok(row[k]);
    var h := SubHour(s.hrly, s.cols.value, row);
    assert DataRow(s, row) == if h.Ok? then Ok(s.(hrly := h.value)) else Fail(h.fault);
  }

  /** The row environment of a timed data row in a ready state. */
  function TopEnv(s: PState, row: seq<string>): RowEnv
    requires Ready(s) && RowTime(s.cols.value, row).Some?
  {
    RowEnv(s.stn.value, s.cols.value, s.units, row, Stamp(RowTime(s.cols.value, row).value))
  }

  /** Every column of a top-of-hour row can be read, with the sums as the
      columns before it left them. */
  predicate TopRowReadable(s: PState, row: seq<string>)
    requires Ready(s) && RowTime(s.cols.value, row).Some?
  {
    var e := TopEnv(s, row);
    forall k :: 0 <= k < |e.cols| ==> ColumnOk(e, Reset(s.hrly, e.cols[0..k]), k)
  }

  /** A top-of-hour row is read exactly when each of its columns can be;
      then every hourly column it names restarts and nothing else changes
      but the stored data. */
  lemma TopRowOk(s: PState, row: seq<string>)
    requires Ready(s) && RowTime(s.cols.value, row).Some? && RowTime(s.cols.value, row).value.minute == 0
    ensures DataRow(s, row).Ok? <==> TopRowReadable(s, row)
    ensures DataRow(s, row).Ok? ==>
      DataRow(s, row).value == s.(hrly := Reset(s.hrly, s.cols.value), data := DataRow(s, row).value.data)
  {
    var k := IndexOf(s.cols.value, "UTC").value;
    assert At(row, k) == Ok(row[k]);
    var e := TopEnv(s, row);
    var t := TopHour(e, s.hrly, s.data, 0);
    assert DataRow(s, row) == if t.Ok? then Ok(s.(hrly := t.value.0, data := t.value.1)) else Fail(t.fault);
    TopHourOk(e, s.hrly, s.data, 0);
    assert e.cols[0..] == e.cols;
  }

  /** A top-of-hour row whose columns all have a field and a unit, and whose
      stored columns all name a SHEF element, can be read. */
  lemma ReadableWhenNamed(s: PState, row: seq<string>)
    requires Ready(s) && RowTime(s.cols.value, row).Some?
    requires |row| >= |s.cols.value| && s.units.Some? && |s.units.value| >= |s.cols.value|
    requires forall k :: 1 < k < |s.cols.value| && s.cols.value[k] != "UTC" ==> ShefParam(s.cols.value[k]).Some?
    ensures TopRowReadable(s, row)
  {
  }

  /** A readable top-of-hour row restarts the sum of every hourly column it
      names, and a column named once holds what `StoredValue` gives for it
      at the row's time. */
  lemma TopRowStores(s: PState, row: seq<string>, j: nat)
    requires Ready(s) && RowTime(s.cols.value, row).Some? && RowTime(s.cols.value, row).value.minute == 0
    requires j < |s.cols.value| && OnlyAt(s.cols.value, j)
    requires TopRowReadable(s, row)
    ensures DataRow(s, row).Ok?
    ensures var e := TopEnv(s, row);
      && Fits(e, j)
      && (j > 1 && e.cols[j] != "UTC" && Filled(Reported(s.hrly, e.cols[j], row[j])) ==> ShefParam(e.cols[j]).Some?)
      && ValueAt(DataRow(s, row).value.data, e.stn.uId, e.cols[j], e.stamp) ==
        (if StoredValue(e, s.hrly, j).Some? then StoredValue(e, s.hrly, j)
         else ValueAt(s.data, e.stn.uId, e.cols[j], e.stamp))
    ensures forall c :: c in s.hrly ==>
      DataRow(s, row).value.hrly[c] == if c in s.cols.value then Fresh else s.hrly[c]
  {
    var k := IndexOf(s.cols.value, "UTC").value;
    assert At(row, k) == Ok(row[k]);
    var e := TopEnv(s, row);
    TopRowOk(s, row);
    assert DataRow(s, row) == Ok(s.(hrly := TopHour(e, s.hrly, s.data, 0).value.0, data := TopHour(e, s.hrly, s.data, 0).value.1));
    TopHourStores(e, s.hrly, s.data, 0, j);
    assert e.cols[0..] == e.cols;
  }

  /** One CSV row; empty rows are skipped. */
  function Step(xref: map<string, string>, s: PState, row: seq<string>): (r: Result<PState>)
    ensures r.Ok? ==> r.value.hrly.Keys == s.hrly.Keys
    ensures r.Ok? && GoodData(s.data) ==> GoodData(r.value.data)
    ensures |row| > 0 && IsDigits(row[0]) ==> r == DataRow(s, row)
    ensures |row| == 0 ==> r == Ok(s)
    ensures |row| > 0 && row[0] == "B" ==>
      (r.Ok? <==> |row| >= 3) && (r.Ok? ==> r.value == s.(stn := Some(BRow(xref, row).value)))
    ensures |row| > 0 && row[0] == "C" ==>
      && (r.Ok? <==> s.stn.Some? && AddDpths(s.stn.value.dpths, row).Ok?)
      && (r.Ok? ==> r.value == s.(cols := Some(AddDpths(s.stn.value.dpths, row).value)))
    ensures |row| > 0 && row[0] == "Units" ==> r == Ok(s.(units := Some(row)))
  {
    if |row| == 0 then Ok(s)
    else if row[0] == "B" then
      assert !IsDigit(row[0][0]);
      var stn :- BRow(xref, row);
      Ok(s.(stn := Some(stn)))
    else if row[0] == "C" then
      assert !IsDigit(row[0][0]);
      var stn :- Need(s.stn, UnboundName);
      var cols :- AddDpths(stn.dpths, row);
      Ok(s.(cols := Some(cols)))
    else if row[0] == "Units" then
      assert !IsDigit(row[0][0]);
      Ok(s.(units := Some(row)))
    else if IsDigits(row[0]) then DataRow(s, row)
    else Ok(s)
  }

  function ParseFrom(xref: map<string, string>, s: PState, rows: seq<seq<string>>): (r: Result<PState>)
    decreases |rows|
    ensures r.Ok? ==> r.value.hrly.Keys == s.hrly.Keys
    ensures r.Ok? && GoodData(s.data) ==> GoodData(r.value.data)
  {
    if |rows| == 0 then Ok(s)
    else
      var s' :- Step(xref, s, rows[0]);
      ParseFrom(xref, s', rows[1..])
  }

  /** Reading two runs of rows is reading the first and then, from where it
      left off, the second. */
  lemma {:induction false} ParseFromAppend(xref: map<string, string>, s: PState, a: seq<seq<string>>, b: seq<seq<string>>)
    ensures ParseFrom(xref, s, a + b) ==
      match ParseFrom(xref, s, a)
      case Ok(mid) => ParseFrom(xref, mid, b)
      case Fail(f) => Fail(f)
    decreases |a|
  {
    if |a| == 0 {
      assert a + b == b;
    } else {
      assert (a + b)[0] == a[0];
      assert (a + b)[1..] == a[1..] + b;
      match Step(xref, s, a[0])
      case Ok(s') => ParseFromAppend(xref, s', a[1..], b);
      case Fail(_) =>
    }
  }

  lemma ParseFromSnoc(xref: map<string, string>, s: PState, rows: seq<seq<string>>)
    requires |rows| > 0
    ensures ParseFrom(xref, s, rows) ==
      match ParseFrom(xref, s, rows[..|rows| - 1])
      case Ok(mid) => ParseFrom(xref, mid, [rows[|rows| - 1]])
      case Fail(f) => Fail(f)
  {
    assert rows == rows[..|rows| - 1] + [rows[|rows| - 1]];
    ParseFromAppend(xref, s, rows[..|rows| - 1], [rows[|rows| - 1]]);
  }

  /** Field `j` of each row ("" for a row too short to have one). */
  function Column(rows: seq<seq<string>>, j: nat): (r: seq<string>)
    ensures |r| == |rows|
    ensures forall m :: 0 <= m < |rows| && j < |rows[m]| ==> r[m] == rows[m][j]
  {
    seq(|rows|, m requires 0 <= m < |rows| => if j < |rows[m]| then rows[m][j] else "")
  }

  lemma ColumnSnoc(rows: seq<seq<string>>, j: nat)
    requires |rows| > 0 && j < |rows[|rows| - 1]|
    ensures Column(rows, j) == Column(rows[..|rows| - 1], j) + [rows[|rows| - 1][j]]
  {
  }

  /** A data row (first field all digits) with a time in its 'UTC' field. */
  predicate TimedRow(cols: seq<string>, row: seq<string>) {
    |row| > 0 && IsDigits(row[0]) && RowTime(cols, row).Some?
  }

  /** Every row is a data row whose time is off the hour. */
  predicate OffHour(cols: seq<string>, rows: seq<seq<string>>)
    decreases |rows|
  {
    |rows| == 0
    || (OffHour(cols, rows[..|rows| - 1])
        && TimedRow(cols, rows[|rows| - 1]) && RowTime(cols, rows[|rows| - 1]).value.minute != 0)
  }

  /** One row off the hour, read as a row of the file, adds its field to
      the sum of a column named once and stores nothing. */
  lemma OffRow(xref: map<string, string>, s: PState, row: seq<string>, j: nat)
    requires Ready(s) && j < |s.cols.value| && OnlyAt(s.cols.value, j) && s.cols.value[j] in s.hrly
    requires TimedRow(s.cols.value, row) && RowTime(s.cols.value, row).value.minute != 0
    requires ParseFrom(xref, s, [row]).Ok?
    ensures var out := ParseFrom(xref, s, [row]).value;
      && j < |row|
      && out.stn == s.stn && out.cols == s.cols && out.units == s.units && out.data == s.data
      && out.hrly[s.cols.value[j]] == Sample(s.hrly[s.cols.value[j]], row[j])
  {
    assert ParseFrom(xref, s, [row]) == DataRow(s, row);
    SubRowSamples(s, row);
    NamedOnce(s.cols.value, row, j, 0);
    FoldSnoc(s.hrly[s.cols.value[j]], [], row[j], Sample);
  }

  /** Rows off the hour, read one after the other, store nothing and feed
      the sum of a column named once with that column's fields in order. */
  lemma {:induction false} SubRows(xref: map<string, string>, s: PState, subs: seq<seq<string>>, j: nat)
    requires Ready(s) && j < |s.cols.value| && OnlyAt(s.cols.value, j) && s.cols.value[j] in s.hrly
    requires OffHour(s.cols.value, subs)
    requires ParseFrom(xref, s, subs).Ok?
    ensures var out := ParseFrom(xref, s, subs).value;
      && out.stn == s.stn && out.cols == s.cols && out.units == s.units && out.data == s.data
      && out.hrly[s.cols.value[j]] == SampleAll(s.hrly[s.cols.value[j]], Column(subs, j))
    decreases |subs|
  {
    var c := s.cols.value[j];
    if |subs| == 0 {
      assert Column(subs, j) == [];
    } else {
      var init, last := subs[..|subs| - 1], subs[|subs| - 1];
      ParseFromSnoc(xref, s, subs);
      SubRows(xref, s, init, j);
      var mid := ParseFrom(xref, s, init).value;
      OffRow(xref, mid, last, j);
      ColumnSnoc(subs, j);
      FoldSnoc(s.hrly[c], Column(init, j), last[j], Sample);
    }
  }

  /** An hour of a column named once, from a restarted sum: after the rows
      off the hour and then the top-of-hour row, the station's column holds
      at the top-of-hour time the converted hourly total (the sum of the
      twelve numbers among the fields, or -9999 when there are not exactly
      twelve or the top-of-hour field is empty), and the column's sum starts
      again from `Fresh`. A converted total that comes out empty is not
      stored. */
  lemma HourStored(xref: map<string, string>, s: PState, subs: seq<seq<string>>, top: seq<string>, j: nat)
    requires Ready(s) && 1 < j < |s.cols.value| && OnlyAt(s.cols.value, j) && s.cols.value[j] != "UTC"
    requires s.cols.value[j] in s.hrly && s.hrly[s.cols.value[j]] == Fresh
    requires OffHour(s.cols.value, subs)
    requires TimedRow(s.cols.value, top) && RowTime(s.cols.value, top).value.minute == 0
    requires ParseFrom(xref, s, subs + [top]).Ok?
    ensures var out := ParseFrom(xref, s, subs + [top]).value;
      var c := s.cols.value[j];
      && j < |top| && s.units.Some? && j < |s.units.value| && ShefParam(c).Some?
      && out.hrly[c] == Fresh
      && var w := Convert(ShefParam(c).value, HourTotal(Column(subs, j), top[j]), s.units.value[j]).0;
         var stamp := Stamp(RowTime(s.cols.value, top).value);
         ValueAt(out.data, s.stn.value.uId, c, stamp) == if Filled(w) then Some(w) else ValueAt(s.data, s.stn.value.uId, c, stamp)
  {
    var c := s.cols.value[j];
    ThenTop(xref, s, subs, top);
    SubRows(xref, s, subs, j);
    var mid := ParseFrom(xref, s, subs).value;
    TopRowOk(mid, top);
    TopRowStores(mid, top, j);
    ReportedTotal(mid.hrly, c, top[j], Column(subs, j));
  }

  /** Each hourly column of a row has a field. */
  predicate Fit(cols: seq<string>, hrly: map<string, Acc>, row: seq<string>) {
    forall k :: 0 <= k < |cols| && cols[k] in hrly ==> k < |row|
  }

  /** Rows off the hour are read exactly when each has a field for every
      hourly column, and they change nothing but the hourly sums. */
  lemma {:induction false} SubRowsParse(xref: map<string, string>, s: PState, subs: seq<seq<string>>)
    requires Ready(s) && OffHour(s.cols.value, subs)
    ensures ParseFrom(xref, s, subs).Ok? <==> AllFit(s.cols.value, s.hrly, subs)
    ensures ParseFrom(xref, s, subs).Ok? ==>
      ParseFrom(xref, s, subs).value == s.(hrly := ParseFrom(xref, s, subs).value.hrly)
    decreases |subs|
  {
    if |subs| > 0 {
      var init, last := subs[..|subs| - 1], subs[|subs| - 1];
      ParseFromSnoc(xref, s, subs);
      SubRowsParse(xref, s, init);
      AllFitSnoc(s.cols.value, s.hrly, subs);
      var p := ParseFrom(xref, s, init);
      if p.Ok? {
        var mid := p.value;
        LastRowParse(xref, s, mid, last);
      }
    }
  }

  /** The last of the rows off the hour, read from the state the others
      left. */
  lemma LastRowParse(xref: map<string, string>, s: PState, mid: PState, last: seq<string>)
    requires Ready(s) && mid == s.(hrly := mid.hrly) && mid.hrly.Keys == s.hrly.Keys
    requires TimedRow(s.cols.value, last) && RowTime(s.cols.value, last).value.minute != 0
    ensures ParseFrom(xref, mid, [last]).Ok? <==> Fit(s.cols.value, s.hrly, last)
    ensures ParseFrom(xref, mid, [last]).Ok? ==>
      ParseFrom(xref, mid, [last]).value == s.(hrly := ParseFrom(xref, mid, [last]).value.hrly)
  {
    assert ParseFrom(xref, mid, [last]) == DataRow(mid, last);
    SubRowSamples(mid, last);
  }

  /** Every row has a field for every hourly column. */
  predicate AllFit(cols: seq<string>, hrly: map<string, Acc>, rows: seq<seq<string>>) {
    forall m :: 0 <= m < |rows| ==> Fit(cols, hrly, rows[m])
  }

  lemma AllFitSnoc(cols: seq<string>, hrly: map<string, Acc>, rows: seq<seq<string>>)
    requires |rows| > 0
    ensures AllFit(cols, hrly, rows) <==>
      AllFit(cols, hrly, rows[..|rows| - 1]) && Fit(cols, hrly, rows[|rows| - 1])
  {
    assert forall m :: 0 <= m < |rows| - 1 ==> rows[..|rows| - 1][m] == rows[m];
  }

  /** An hour is read when its rows off the hour have a field for every
      hourly column, and its top-of-hour row has a field and a unit for
      every column and a SHEF element for every stored column. */
  lemma HourReads(xref: map<string, string>, s: PState, subs: seq<seq<string>>, top: seq<string>)
    requires Ready(s) && OffHour(s.cols.value, subs) && AllFit(s.cols.value, s.hrly, subs)
    requires TimedRow(s.cols.value, top) && RowTime(s.cols.value, top).value.minute == 0
    requires |top| >= |s.cols.value| && s.units.Some? && |s.units.value| >= |s.cols.value|
    requires forall k :: 1 < k < |s.cols.value| && s.cols.value[k] != "UTC" ==> ShefParam(s.cols.value[k]).Some?
    ensures ParseFrom(xref, s, subs + [top]).Ok?
  {
    SubRowsParse(xref, s, subs);
    var mid := ParseFrom(xref, s, subs).value;
    ReadableWhenNamed(mid, top);
    TopRowOk(mid, top);
    ParseFromAppend(xref, s, subs, [top]);
    assert ParseFrom(xref, mid, [top]) == DataRow(mid, top);
  }

  /** A station's header rows, 'B', 'C' and 'Units', make the state ready:
      the station of the 'B' row, the columns of the 'C' row with the depths
      the 'B' row lists, and the units row; sums and data stay as they were. */
  lemma HeaderReady(xref: map<string, string>, s: PState, b: seq<string>, c: seq<string>, u: seq<string>)
    requires |b| >= 3 && b[0] == "B" && b[2] != ""
    requires |c| > 0 && c[0] == "C" && |c| <= |b|
    requires |u| > 0 && u[0] == "Units"
    ensures ParseFrom(xref, s, [b, c, u]).Ok?
    ensures var out := ParseFrom(xref, s, [b, c, u]).value;
      && Ready(out) && out.stn == Some(BRow(xref, b).value) && out.stn.value.uId == b[2]
      && out.cols == Some(AddDpths(b, c).value) && out.units == Some(u)
      && out.hrly == s.hrly && out.data == s.data
  {
    var s1 := s.(stn := Some(BRow(xref, b).value));
    var s2 := s1.(cols := Some(AddDpths(b, c).value));
    assert Step(xref, s, b) == Ok(s1);
    assert Step(xref, s1, c) == Ok(s2);
    assert Step(xref, s2, u) == Ok(s2.(units := Some(u)));
    assert [b, c, u][1..] == [c, u] && [c, u][1..] == [u];
    assert ParseFrom(xref, s2, [u]) == Ok(s2.(units := Some(u)));
  }

  /** The first hour of a file, end to end: after a station's header rows,
      rows off the hour and a top-of-hour row, the parsed table holds at the
      top-of-hour time, under the station and an hourly column named once,
      the converted hourly total of that column's fields, unless it comes
      out empty. */
  lemma FirstHourStored(xref: map<string, string>, b: seq<string>, c: seq<string>, u: seq<string>,
                        subs: seq<seq<string>>, top: seq<string>, j: nat)
    requires |b| >= 3 && b[0] == "B" && b[2] != ""
    requires |c| > 0 && c[0] == "C" && |c| <= |b|
    requires |u| >= |c| && u[0] == "Units"
    requires var cols := AddDpths(b, c).value;
      && 1 < j < |cols| && OnlyAt(cols, j) && cols[j] != "UTC" && cols[j] in HourlyCols()
      && OffHour(cols, subs) && AllFit(cols, Start().hrly, subs)
      && TimedRow(cols, top) && RowTime(cols, top).value.minute == 0 && |top| >= |cols|
      && (forall k :: 1 < k < |cols| && cols[k] != "UTC" ==> ShefParam(cols[k]).Some?)
    ensures Parse(xref, [b, c, u] + subs + [top]).Ok?
    ensures var cols := AddDpths(b, c).value;
      var w := Convert(ShefParam(cols[j]).value, HourTotal(Column(subs, j), top[j]), u[j]).0;
      ValueAt(Parse(xref, [b, c, u] + subs + [top]).value, b[2], cols[j], Stamp(RowTime(cols, top).value))
        == if Filled(w) then Some(w) else None
  {
    var cols := AddDpths(b, c).value;
    HeaderReady(xref, Start(), b, c, u);
    var mid := ParseFrom(xref, Start(), [b, c, u]).value;
    HourReads(xref, mid, subs, top);
    HourStored(xref, mid, subs, top, j);
    AppendThree([b, c, u], subs, [top]);
    ParseSplit(xref, [b, c, u], subs + [top]);
  }

  lemma AppendThree<T>(a: seq<T>, b: seq<T>, c: seq<T>)
    ensures a + b + c == a + (b + c)
  {
  }

  /** The rows of an hour read as the rows before the last, then the last
      row as a data row. */
  lemma ThenTop(xref: map<string, string>, s: PState, subs: seq<seq<string>>, top: seq<string>)
    requires |top| > 0 && IsDigits(top[0])
    requires ParseFrom(xref, s, subs + [top]).Ok?
    ensures ParseFrom(xref, s, subs).Ok?
    ensures ParseFrom(xref, s, subs + [top]) == DataRow(ParseFrom(xref, s, subs).value, top)
  {
    ParseFromAppend(xref, s, subs, [top]);
  }

  /** An hourly column fed an hour's fields from a reset reports their
      hourly total. */
  lemma ReportedTotal(hrly: map<string, Acc>, c: string, raw: string, fields: seq<string>)
    requires c in hrly && hrly[c] == SampleAll(Fresh, fields)
    ensures Reported(hrly, c, raw) == HourTotal(fields, raw)
  {
    TwelveSamples(fields, raw);
  }

  /** `parser`: the stations with their stored columns. Every stored column
      has a SHEF element and at least one value, and no stored value is
      empty. */
  function Parse(xref: map<string, string>, rows: seq<seq<string>>): (r: Result<Data>)
    ensures r.Ok? ==> GoodData(r.value)
  {
    var s :- ParseFrom(xref, Start(), rows);
    Ok(s.data)
  }

  /** `parser` over a file is the row loop over its first rows, continued
      from where it left off over the rest; so `HourStored` applies to any
      hour of a file once the rows before it have been read. */
  lemma ParseSplit(xref: map<string, string>, pre: seq<seq<string>>, rest: seq<seq<string>>)
    ensures var first := ParseFrom(xref, Start(), pre);
      Parse(xref, pre + rest) ==
        if first.Fail? then Fail(first.fault)
        else
          var out := ParseFrom(xref, first.value, rest);
          if out.Fail? then Fail(out.fault) else Ok(out.value.data)
  {
    ParseFromAppend(xref, Start(), pre, rest);
  }

  /** A 'B' row for a new station leaves the hourly sums as they were: the
      samples of the previous station's unfinished hour are counted into the
      new station's first hour. */
  lemma BRowKeepsSums(xref: map<string, string>, s: PState, row: seq<string>)
    requires |row| >= 3 && row[0] == "B"
    ensures Step(xref, s, row).Ok?
    ensures Step(xref, s, row).value.hrly == s.hrly
    ensures Step(xref, s, row).value.stn.Some? && Step(xref, s, row).value.stn.value.uId == row[2]
  {
  }
}
