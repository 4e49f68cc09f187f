/** How the Mesonet encoder names things: the station-id cross-reference
    file, the SHEF location id and state of a Mesonet station, the column
    names with their sensor depths, and the output file names.
 */
module MesoIds {
  import opened Wrappers
  import opened PyText
  import opened Numbers
  import opened Civil
  import opened Dict
  import opened MesoConfig

  // ---------------------------------------------------------------------
  // The id cross-reference file (`getIdXref`)
  // ---------------------------------------------------------------------

  /** Lines holding a '#' and whitespace-only lines are skipped. The empty
      line is not whitespace-only (`''.isspace()` is False). */
  predicate XrefSkipped(line: string) {
    Contains(line, "#") || IsAllSpace(line)
  }

  function XrefKey(line: string): string {
    Strip(Split(line, "|")[0])
  }

  /** `getIdXref` over the file's lines: each kept line is `uid | nwsid`;
      a kept line without '|' raises IndexError on `parsed[1]`; a later
      line for the same uid overwrites an earlier one. */
  function GetIdXref(lines: seq<string>): (r: Result<map<string, string>>)
    ensures r.Ok? <==> forall i :: 0 <= i < |lines| && !XrefSkipped(lines[i]) ==> Contains(lines[i], "|")
    ensures r.Fail? ==> r.fault == IndexError
  {
    if |lines| == 0 then Ok(map[])
    else
      var x :- GetIdXref(lines[..|lines| - 1]);
      var line := lines[|lines| - 1];
      if XrefSkipped(line) then Ok(x)
      else
        var parsed := Split(line, "|");
        if |parsed| < 2 then Fail(IndexError)
        else Ok(x[Strip(parsed[0]) := Strip(parsed[1])])
  }

  /** A file with an empty line cannot be loaded. */
  lemma BlankLineFails(lines: seq<string>, i: nat)
    requires i < |lines| && lines[i] == ""
    ensures GetIdXref(lines).Fail?
  {
    assert !XrefSkipped(lines[i]) && !Contains(lines[i], "|");
  }

  /** The uid a line enters into the table, None for a skipped line. */
  function LineKey(line: string): Option<string> {
    if XrefSkipped(line) then None else Some(XrefKey(line))
  }

  function OptionSet(o: Option<string>): set<string> {
    if o.Some? then {o.value} else {}
  }

  /** The loaded table has exactly the uids of the kept lines. */
  lemma {:induction false} XrefKeys(lines: seq<string>, u: string)
    requires GetIdXref(lines).Ok?
    ensures u in GetIdXref(lines).value <==> exists i :: 0 <= i < |lines| && LineKey(lines[i]) == Some(u)
    decreases |lines|
  {
    if |lines| > 0 {
      var init := lines[..|lines| - 1];
      XrefLast(lines);
      XrefKeys(init, u);
      KeyedStep(lines, init, LineKey, u, GetIdXref(lines).value.Keys, GetIdXref(init).value.Keys);
    }
  }

  /** One more line adds its uid to the keys when it is kept. */
  lemma XrefLast(lines: seq<string>)
    requires |lines| > 0 && GetIdXref(lines).Ok?
    ensures GetIdXref(lines[..|lines| - 1]).Ok?
    ensures GetIdXref(lines).value.Keys
      == GetIdXref(lines[..|lines| - 1]).value.Keys + OptionSet(LineKey(lines[|lines| - 1]))
  {
  }

  /** The keys grow by the last element's key, whatever the keys are. */
  lemma KeyedStep<L>(xs: seq<L>, init: seq<L>, key: L -> Option<string>, u: string, keys: set<string>, keys0: set<string>)
    requires |xs| > 0 && init == xs[..|xs| - 1]
    requires keys == keys0 + OptionSet(key(xs[|xs| - 1]))
    requires u in keys0 <==> exists i :: 0 <= i < |init| && key(init[i]) == Some(u)
    ensures u in keys <==> exists i :: 0 <= i < |xs| && key(xs[i]) == Some(u)
  {
    if u in keys0 {
      var i :| 0 <= i < |init| && key(init[i]) == Some(u);
      assert init[i] == xs[i];
    }
    if exists i :: 0 <= i < |xs| - 1 && key(xs[i]) == Some(u) {
      var i :| 0 <= i < |xs| - 1 && key(xs[i]) == Some(u);
      assert init[i] == xs[i];
    }
  }

  // ---------------------------------------------------------------------
  // SHEF location id and state
  // ---------------------------------------------------------------------

  /** `getShefId`: a 5-character id is taken as an NWS location id; other
      ids are looked up in the cross-reference; failing that an id of at
      most 8 characters is used as it is. All upper-cased. */
  function GetShefId(uId: string, xref: map<string, string>): (r: Option<string>)
    ensures |uId| == 5 ==> r == Some(Upper(uId))
    ensures |uId| != 5 && uId in xref ==> r == Some(Upper(xref[uId]))
    ensures |uId| != 5 && uId !in xref ==> (r.Some? <==> |uId| <= 8)
    ensures r.Some? && r.value != Upper(uId) ==> uId in xref
  {
    if |uId| == 5 && IsAlpha(uId[3]) && IsDigit(uId[4]) then Some(Upper(uId))
    else if |uId| != 5 && uId in xref then Some(Upper(xref[uId]))
    else if |uId| <= 8 then Some(Upper(uId))
    else None
  }

  /** `genShefId`: the first 8 characters, upper-cased. */
  function GenShefId(uId: string): (r: string)
    ensures |r| == if |uId| < 8 then |uId| else 8
    ensures forall i :: 0 <= i < |r| ==> r[i] == UpperChar(uId[i])
  {
    Upper(Take(uId, 8))
  }

  /** The id and description a 'B' row sets: an id that came out empty or
      not at all is generated from the Mesonet id. */
  function ResolveShefId(uId: string, xref: map<string, string>): (r: (string, string))
    ensures uId != "" ==> r.0 != ""
    ensures uId !in xref ==> |r.0| <= |uId| && forall i :: 0 <= i < |r.0| ==> r.0[i] == UpperChar(uId[i])
  {
    var s := GetShefId(uId, xref);
    if s.None? || s.value == "" then
      var g := GenShefId(uId);
      (g, "No valid lid was found for " + uId + ". Using: " + g)
    else (s.value, "")
  }

  /** First entry whose abbreviation contains `p`. */
  function AbbrevHolding(t: Dict<string, StateInfo>, p: string): (r: bool)
    ensures r <==> exists i :: 0 <= i < |t| && Contains(t[i].1.abrv, p)
  {
    if |t| == 0 then false
    else Contains(t[0].1.abrv, p) || AbbrevHolding(t[1..], p)
  }

  /** `getState`: the state of a 5-character NWS id's suffix; else the
      Mesonet id's first two characters upper-cased when they occur in some
      state abbreviation; else 'MSG'. */
  function GetState(uId: string, sId: string): (r: string)
    ensures r == "MSG" || exists i :: 0 <= i < |StateXref| && Contains(StateXref[i].1.abrv, r)
    ensures |sId| == 5 && Get(StateXref, sId[3..]).Some? ==> r == Get(StateXref, sId[3..]).value.abrv
    ensures !(|sId| == 5 && Get(StateXref, sId[3..]).Some?) ==>
      r == (if AbbrevHolding(StateXref, Upper(Take(uId, 2))) then Upper(Take(uId, 2)) else "MSG")
  {
    if |sId| == 5 && Get(StateXref, sId[3..]).Some? then
      var a := Get(StateXref, sId[3..]).value.abrv;
      StateAbbrevListed(sId[3..]);
      ContainsSelf(a);
      a
    else
      var prfx := Upper(Take(uId, 2));
      if AbbrevHolding(StateXref, prfx) then prfx else "MSG"
  }

  lemma ContainsSelf(s: string)
    ensures Contains(s, s)
  {
    assert OccursAt(s, s, 0);
  }

  lemma StateAbbrevListed(k: string)
    requires Get(StateXref, k).Some?
    ensures exists i :: 0 <= i < |StateXref| && StateXref[i].1 == Get(StateXref, k).value
  {
    var i := IndexOfKey(StateXref, k).value;
    assert StateXref[i].1 == Get(StateXref, k).value;
  }

  // ---------------------------------------------------------------------
  // Column names with depths (`addDpths`)
  // ---------------------------------------------------------------------

  /** The depth suffix a 'B' row field gives its column: '_' and the text
      after its first '-D' (up to a second one), or nothing. */
  function DepthSuffix(f: string): string {
    if Contains(f, "-D") then "_" + Split(f, "-D")[1] else ""
  }

  /** `addDpths`: each column name with the depth suffix of the field in the
      same position of the 'B' row; IndexError when the 'C' row is longer. */
  function AddDpths(dpths: seq<string>, cols: seq<string>): (r: Result<seq<string>>)
    ensures r.Ok? <==> |cols| <= |dpths|
    ensures r.Fail? ==> r.fault == IndexError
    ensures r.Ok? ==> |r.value| == |cols|
    ensures r.Ok? ==> forall i :: 0 <= i < |cols| ==> r.value[i] == cols[i] + DepthSuffix(dpths[i])
  {
    if |cols| > |dpths| then Fail(IndexError)
    else Ok(seq(|cols|, i requires 0 <= i < |cols| => cols[i] + DepthSuffix(dpths[i])))
  }

  /** A column name without '_' and a depth without '_' can be taken apart
      again at the '_': the name before it, the depth after it. */
  lemma DepthSplitsBack(col: string, field: string)
    requires forall j :: 0 <= j < |col| ==> col[j] != '_'
    requires Contains(field, "-D")
    requires forall j :: 0 <= j < |Split(field, "-D")[1]| ==> Split(field, "-D")[1][j] != '_'
    ensures Split(col + DepthSuffix(field), "_") == [col, Split(field, "-D")[1]]
  {
    var d := Split(field, "-D")[1];
    assert col + DepthSuffix(field) == col + ['_'] + d;
    SplitCharFirst(col, '_', d);
    assert !Contains(d, "_") by {
      if Contains(d, "_") {
        OccursAtChar(d, '_', Find(d, "_"));
      }
    }
    SplitNoSep(d, "_");
  }

  // ---------------------------------------------------------------------
  // Output file names (`outNameGen`)
  // ---------------------------------------------------------------------

  /** `%Y%m%d_%H%M%S`. */
  function TimeTag(t: DateTime): (r: string)
    requires Valid(t) && 0 <= t.year < 10000
    ensures |r| == 15
  {
    SmallPowers();
    Digits(t.year, 4) + Digits(t.month, 2) + Digits(t.day, 2) + "_"
      + Digits(t.hour, 2) + Digits(t.minute, 2) + Digits(t.second, 2)
  }

  /** The text a file name carries before and after the message number. */
  function NameParts(outFile: string, st: string, now: DateTime): (r: Result<(string, string)>)
    requires Valid(now) && 0 <= now.year < 10000
    ensures r.Ok? <==> outFile == "" || Contains(outFile, ".")
  {
    if outFile == "" then Ok((st + "_Mesonet_SHEF_" + TimeTag(now) + "_", ".txt"))
    else
      var parts := Split(outFile, ".");
      if |parts| < 2 then Fail(IndexError)
      else Ok((st + "_" + parts[0] + "_" + TimeTag(now) + "_", "." + parts[1]))
  }

  /** `outNameGen`: the state, the user's base name (or 'Mesonet_SHEF'), the
      run time and the message number; a user name without '.' raises
      IndexError. */
  function OutNameGen(outFile: string, st: string, i: nat, now: DateTime): (r: Result<string>)
    requires Valid(now) && 0 <= now.year < 10000
    ensures r.Ok? <==> outFile == "" || Contains(outFile, ".")
    ensures r.Ok? ==> StartsWith(r.value, st + "_")
    ensures r.Ok? && outFile == "" ==> EndsWith(r.value, ".txt")
  {
    var (pre, post) :- NameParts(outFile, st, now);
    Ok(pre + IntToStr(i) + post)
  }

  /** The messages of one state never overwrite each other's files. */
  lemma OutNamesDistinct(outFile: string, st: string, now: DateTime, i: nat, j: nat)
    requires Valid(now) && 0 <= now.year < 10000
    requires OutNameGen(outFile, st, i, now).Ok?
    requires i != j
    ensures OutNameGen(outFile, st, i, now) != OutNameGen(outFile, st, j, now)
  {
    var (pre, post) := NameParts(outFile, st, now).value;
    var a, b := IntToStr(i), IntToStr(j);
    if pre + a + post == pre + b + post {
      assert |a| == |b|;
      assert a == (pre + a + post)[|pre|..|pre| + |a|];
      assert b == (pre + b + post)[|pre|..|pre| + |b|];
      IntRoundTrip(i);
      IntRoundTrip(j);
    }
  }
}
