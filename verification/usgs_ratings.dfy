/** The rating fetcher (`getUSGS_ratings_CDA.py`): which rating
    specifications are kept and with which rating type, the time zone and
    effective date read from the header of a USGS RDB rating file, and the
    rule that skips a rating whose effective date CWMS already holds.
 */
module UsgsRatings {
  import opened Wrappers
  import opened PyText
  import RatingIni

  // ---------------------------------------------------------------------
  // Time zones (`convert_tz`, `get_usgs_tz`)
  // ---------------------------------------------------------------------

  /** The zone names the abbreviations map to. */
  const ZoneNames: set<string> :=
    {"America/Halifax", "US/Eastern", "US/Central", "US/Mountain", "US/Pacific", "America/Anchorage", "UTC"}

  /** A USGS zone abbreviation (standard or daylight) as a fixed zone name;
      anything else unchanged. */
  function ConvertTz(tz: string): (r: string)
    ensures r in ZoneNames || r == tz
    ensures tz in {"AST", "ADT"} ==> r == "America/Halifax"
    ensures tz in {"EST", "EDT"} ==> r == "US/Eastern"
    ensures tz in {"CST", "CDT"} ==> r == "US/Central"
    ensures tz in {"MST", "MDT"} ==> r == "US/Mountain"
    ensures tz in {"PST", "PDT"} ==> r == "US/Pacific"
    ensures tz in {"AKST", "AKDT"} ==> r == "America/Anchorage"
    ensures tz in {"UTC", "GMT"} ==> r == "UTC"
  {
    if tz in {"AST", "ADT"} then "America/Halifax"
    else if tz in {"EST", "EDT"} then "US/Eastern"
    else if tz in {"CST", "CDT"} then "US/Central"
    else if tz in {"MST", "MDT"} then "US/Mountain"
    else if tz in {"PST", "PDT"} then "US/Pacific"
    else if tz in {"AKST", "AKDT"} then "America/Anchorage"
    else if tz in {"UTC", "GMT"} then "UTC"
    else tz
  }

  /** A converted name converts to itself: the fixed names are not
      abbreviations, and a token left alone stays alone. */
  lemma ConvertTzIdempotent(tz: string)
    ensures ConvertTz(ConvertTz(tz)) == ConvertTz(tz)
  {
  }

  /** The first line with the prefix (`data[...startswith(p)].iloc[0,0]`);
      IndexError when there is none. */
  function FirstStarting(lines: seq<string>, p: string): (r: Result<string>)
    ensures r.Ok? ==> StartsWith(r.value, p) && r.value in lines
    ensures r.Ok? ==>
      exists i :: 0 <= i < |lines| && lines[i] == r.value &&
        forall j :: 0 <= j < i ==> !StartsWith(lines[j], p)
    ensures r.Fail? <==> forall i :: 0 <= i < |lines| ==> !StartsWith(lines[i], p)
    ensures r.Fail? ==> r.fault == IndexError
    decreases |lines|
  {
    if |lines| == 0 then Fail(IndexError)
    else if StartsWith(lines[0], p) then Ok(lines[0])
    else
      var r := FirstStarting(lines[1..], p);
      if r.Ok? then
        var i :| 0 <= i < |lines[1..]| && lines[1..][i] == r.value &&
          forall j :: 0 <= j < i ==> !StartsWith(lines[1..][j], p);
        assert lines[i + 1] == r.value;
        r
      else r
  }

  /** `s.replace('"', '')`. */
  function Unquote(s: string): (r: string) {
    Replace(s, "\"", "")
  }

  /** No double quote is left after removing them. */
  lemma UnquoteClean(s: string)
    ensures '"' !in Unquote(s)
  {
    var parts := Split(s, "\"");
    forall j | 0 <= j < |parts|
      ensures '"' !in parts[j]
    {
      if '"' in parts[j] {
        var k :| 0 <= k < |parts[j]| && parts[j][k] == '"';
        OccursAtChar(parts[j], '"', k);
        ContainsAt(parts[j], "\"", k);
      }
    }
    JoinNoChar(parts, "", '"');
  }

  lemma {:induction false} JoinNoChar(parts: seq<string>, sep: string, c: char)
    requires forall j :: 0 <= j < |parts| ==> c !in parts[j]
    requires c !in sep
    ensures c !in Join(parts, sep)
    decreases |parts|
  {
    if |parts| > 1 {
      JoinNoChar(parts[1..], sep, c);
    }
  }

  /** The first whitespace token of `s`; IndexError when there is none. */
  function FirstWord(s: string): (r: Result<string>)
    ensures r.Ok? <==> |SplitWs(s)| > 0
    ensures r.Ok? ==> r.value == SplitWs(s)[0] && |r.value| > 0
  {
    var ws := SplitWs(s);
    if |ws| == 0 then Fail(IndexError) else Ok(ws[0])
  }

  /** `get_usgs_tz`: the first token after `TIME_ZONE=` on the first station
      line, without double quotes, converted. */
  function UsgsTz(lines: seq<string>): (r: Result<string>)
    ensures r.Ok? ==> r.value in ZoneNames || '"' !in r.value
    ensures r.Fail? ==> r.fault == IndexError
  {
    var line :- FirstStarting(lines, "# //STATION AGENCY=");
    var field :- SecondField(line, "TIME_ZONE=");
    var word :- FirstWord(field);
    UnquoteClean(word);
    Ok(ConvertTz(Unquote(word)))
  }

  /** `iloc[0]` of the lines with a prefix is the first such line. */
  lemma FirstStartingAt(lines: seq<string>, p: string, i: nat)
    requires i < |lines| && StartsWith(lines[i], p)
    requires forall j :: 0 <= j < i ==> !StartsWith(lines[j], p)
    ensures FirstStarting(lines, p) == Ok(lines[i])
  {
    var r := FirstStarting(lines, p);
    var k :| 0 <= k < |lines| && lines[k] == r.value && forall j :: 0 <= j < k ==> !StartsWith(lines[j], p);
  }

  /** The zone is the converted first word after `TIME_ZONE=` on the first
      station line, without its quotes; it is missing (IndexError) when that
      line has no `TIME_ZONE=` or nothing after it. */
  lemma UsgsTzOfStation(lines: seq<string>, i: nat)
    requires i < |lines| && StartsWith(lines[i], "# //STATION AGENCY=")
    requires forall j :: 0 <= j < i ==> !StartsWith(lines[j], "# //STATION AGENCY=")
    ensures var after := Split(lines[i], "TIME_ZONE=");
      UsgsTz(lines) ==
        if Contains(lines[i], "TIME_ZONE=") && |SplitWs(after[1])| > 0
        then Ok(ConvertTz(Unquote(SplitWs(after[1])[0])))
        else Fail(IndexError)
  {
    FirstStartingAt(lines, "# //STATION AGENCY=", i);
  }

  /** A Central-time station: `TIME_ZONE="CST"` names `US/Central`. */
  lemma CentralStationTz(lines: seq<string>)
    requires lines == ["# //STATION AGENCY=\"USGS \" TIME_ZONE=\"CST\" DST_FLAG=Y"]
    ensures UsgsTz(lines) == Ok("US/Central")
  {
    var rest := "\"CST\" DST_FLAG=Y";
    CstStation(lines[0], rest);
    CstWord(rest);
    var word := SplitWs(Split(lines[0], "TIME_ZONE=")[1])[0];
    UnquoteCst(word);
    UsgsTzOfStation(lines, 0);
  }

  lemma UnquoteCst(word: string)
    requires word == "\"CST\""
    ensures ConvertTz(Unquote(word)) == "US/Central"
  {
    UnquoteWord("CST");
    assert "\"" + "CST" + "\"" == word;
  }

  /** The sample station line splits on `TIME_ZONE=` before `"CST"`. */
  lemma CstStation(line: string, rest: string)
    requires line == "# //STATION AGENCY=\"USGS \" TIME_ZONE=\"CST\" DST_FLAG=Y"
    requires rest == "\"CST\" DST_FLAG=Y"
    ensures StartsWith(line, "# //STATION AGENCY=") && Contains(line, "TIME_ZONE=")
    ensures Split(line, "TIME_ZONE=")[1] == rest
  {
    var pre := "# //STATION AGENCY=\"USGS \" ";
    assert line == pre + "TIME_ZONE=" + rest;
    assert line[..19] == "# //STATION AGENCY=";
    StationZoneFound(pre, rest);
    ZoneFieldWhole(rest);
    SplitAfter(pre, "TIME_ZONE=", rest);
  }

  /** Splitting at the first occurrence: the second field is the first
      field of what follows it. */
  lemma SplitAfter(pre: string, sep: string, rest: string)
    requires |sep| > 0 && Find(pre + sep + rest, sep) == |pre|
    ensures Contains(pre + sep + rest, sep)
    ensures Split(pre + sep + rest, sep)[1] == Split(rest, sep)[0]
  {
    var s := pre + sep + rest;
    assert s[|pre| + |sep|..] == rest;
  }

  /** An occurrence starts with the first three characters of what
      occurs. */
  lemma OccursHead(s: string, sub: string, j: int)
    requires |sub| >= 3
    ensures OccursAt(s, sub, j) ==> j + 2 < |s| && s[j] == sub[0] && s[j + 1] == sub[1] && s[j + 2] == sub[2]
  {
    if OccursAt(s, sub, j) {
      var w := s[j..j + |sub|];
      assert w[0] == s[j] && w[1] == s[j + 1] && w[2] == s[j + 2];
    }
  }

  lemma StationZoneFound(pre: string, rest: string)
    requires pre == "# //STATION AGENCY=\"USGS \" "
    ensures Find(pre + "TIME_ZONE=" + rest, "TIME_ZONE=") == |pre|
  {
    StationPrefixClear(pre);
    FindPast(pre, "TIME_ZONE=", rest);
  }

  /** No `TIM` starts inside the sample prefix. */
  lemma StationPrefixClear(pre: string)
    requires pre == "# //STATION AGENCY=\"USGS \" "
    ensures forall j :: 0 <= j < |pre| ==> NoHeadAt(pre, "TIME_ZONE=", j)
  {
  }

  /** The first three characters of `sub` do not start at `j` of `pre`. */
  predicate NoHeadAt(pre: string, sub: string, j: nat)
    requires |sub| >= 3 && j < |pre|
  {
    pre[j] != sub[0] || (j + 2 < |pre| && (pre[j + 1] != sub[1] || pre[j + 2] != sub[2]))
  }

  /** A separator is first found right after a prefix in which none of its
      occurrences can start: none of its first three characters begins
      there. */
  lemma FindPast(pre: string, sub: string, rest: string)
    requires |sub| >= 3
    requires forall j :: 0 <= j < |pre| ==> NoHeadAt(pre, sub, j)
    ensures Find(pre + sub + rest, sub) == |pre|
  {
    var s := pre + sub + rest;
    forall j | 0 <= j < |pre| ensures !OccursAt(s, sub, j) {
      OccursHead(s, sub, j);
      assert NoHeadAt(pre, sub, j);
      assert s[j] == pre[j];
      if j + 2 < |pre| {
        assert s[j + 1] == pre[j + 1] && s[j + 2] == pre[j + 2];
      }
    }
    assert s[|pre|..|pre| + |sub|] == sub;
    assert OccursAt(s, sub, |pre|);
  }

  lemma ZoneFieldWhole(rest: string)
    requires rest == "\"CST\" DST_FLAG=Y"
    ensures Split(rest, "TIME_ZONE=") == [rest]
  {
    assert forall j :: 0 <= j < |rest| ==> rest[j] != 'T' || (j + 1 < |rest| && rest[j + 1] != 'I');
    forall j | 0 <= j < |rest| ensures !OccursAt(rest, "TIME_ZONE=", j) {
      OccursHead(rest, "TIME_ZONE=", j);
    }
    SplitNoSep(rest, "TIME_ZONE=");
  }

  lemma CstWord(rest: string)
    requires rest == "\"CST\" DST_FLAG=Y"
    ensures SplitWs(rest)[0] == "\"CST\""
  {
    assert WordLength(rest[5..]) == 0;
    assert WordLength(rest) == 5;
    assert rest[..5] == "\"CST\"";
  }

  lemma JoinThree(w: string)
    ensures Join([[], w, []], "") == w
  {
    assert [[], w, []][1..] == [w, []];
    assert [w, []][1..] == [[]];
    assert Join([w, []], "") == w + "" + [];
  }

  /** A quoted word without quotes inside loses exactly its two quotes. */
  lemma UnquoteWord(w: string)
    requires '"' !in w
    ensures Unquote("\"" + w + "\"") == w
  {
    var q: string := "\"";
    assert q == [] + ['"'] + [] && q + w + q == [] + ['"'] + (w + q);
    SplitCharFirst([], '"', w + q);
    assert w + q == w + ['"'] + [];
    forall j | 0 <= j < |w| ensures w[j] != '"' { }
    SplitCharFirst(w, '"', []);
    SplitNoSep([], q);
    assert Split(q + w + q, q) == [[], w, []];
    JoinThree(w);
  }

  /** Without a station line there is no zone. */
  lemma UsgsTzNoStation(lines: seq<string>)
    requires forall j :: 0 <= j < |lines| ==> !StartsWith(lines[j], "# //STATION AGENCY=")
    ensures UsgsTz(lines) == Fail(IndexError)
  {
  }

  // ---------------------------------------------------------------------
  // Effective date text (`get_begin_with_date`, `get_usgs_effective_date`)
  // ---------------------------------------------------------------------

  /** The line starts with one of the prefixes (`startswith` on a tuple). */
  predicate StartsWithAny(line: string, prefixes: seq<string>)
    decreases |prefixes|
  {
    |prefixes| > 0 && (StartsWith(line, prefixes[0]) || StartsWithAny(line, prefixes[1..]))
  }

  /** The token after `BEGIN=` on one line, stripped and without double
      quotes. */
  function BeginToken(line: string): (r: Result<string>)
    ensures r.Fail? ==> r.fault == IndexError
  {
    var field :- SecondField(line, "BEGIN=");
    var word :- FirstWord(field);
    Ok(Unquote(Strip(word)))
  }

  /** A prefixed line whose token is all digits. */
  predicate DigitToken(line: string, prefixes: seq<string>) {
    StartsWithAny(line, prefixes) && BeginToken(line).Ok? && IsDigits(BeginToken(line).value)
  }

  /** For each line, None when it lacks the prefixes, else its token. */
  function Tokens(lines: seq<string>, prefixes: seq<string>): (r: seq<Option<Result<string>>>)
    ensures |r| == |lines|
    ensures forall i :: 0 <= i < |lines| ==>
      r[i] == if StartsWithAny(lines[i], prefixes) then Some(BeginToken(lines[i])) else None
  {
    seq(|lines|, i requires 0 <= i < |lines| =>
      if StartsWithAny(lines[i], prefixes) then Some(BeginToken(lines[i])) else None)
  }

  predicate IsDigitToken(t: Option<Result<string>>) {
    t.Some? && t.value.Ok? && IsDigits(t.value.value)
  }

  /** The loop of `get_begin_with_date` over the tokens, in order: the last
      digit token; a missing token raises. */
  function LastDigits(toks: seq<Option<Result<string>>>): (r: Result<Option<string>>)
    ensures r.Ok? && r.value.Some? ==> IsDigits(r.value.value)
    ensures r.Fail? ==> exists i :: 0 <= i < |toks| && toks[i].Some? && toks[i].value.Fail? && toks[i].value.fault == r.fault
    decreases |toks|
  {
    if |toks| == 0 then Ok(None)
    else
      var init := LastDigits(toks[..|toks| - 1]);
      var last := toks[|toks| - 1];
      if init.Fail? then
        var i :| 0 <= i < |toks| - 1 && toks[..|toks| - 1][i].Some? && toks[..|toks| - 1][i].value.Fail? &&
          toks[..|toks| - 1][i].value.fault == init.fault;
        assert toks[i] == toks[..|toks| - 1][i];
        init
      else match last
        case None => init
        case Some(Fail(f)) => Fail(f)
        case Some(Ok(t)) => if IsDigits(t) then Ok(Some(t)) else init
  }

  /** `get_begin_with_date`: over the lines with one of the prefixes, in
      order, the last token that is all digits; None when no token is. A
      prefixed line without a token raises IndexError. */
  function BeginDate(lines: seq<string>, prefixes: seq<string>): (r: Result<Option<string>>)
    ensures r.Ok? && r.value.Some? ==> IsDigits(r.value.value)
    ensures r.Fail? ==> r.fault == IndexError
  {
    LastDigits(Tokens(lines, prefixes))
  }

  /** The search fails exactly when some token is missing. */
  lemma {:induction false} LastDigitsFails(toks: seq<Option<Result<string>>>)
    ensures LastDigits(toks).Fail? <==> exists i :: 0 <= i < |toks| && toks[i].Some? && toks[i].value.Fail?
    decreases |toks|
  {
    if |toks| > 0 {
      var init := toks[..|toks| - 1];
      LastDigitsFails(init);
      assert forall i :: 0 <= i < |init| ==> init[i] == toks[i];
    }
  }

  /** The result is the last digit token, None exactly when there is none. */
  lemma {:induction false} LastDigitsLast(toks: seq<Option<Result<string>>>)
    requires LastDigits(toks).Ok?
    ensures LastDigits(toks).value.None? <==> forall i :: 0 <= i < |toks| ==> !IsDigitToken(toks[i])
    ensures LastDigits(toks).value.Some? ==>
      exists i :: 0 <= i < |toks| && IsDigitToken(toks[i]) &&
        toks[i].value.value == LastDigits(toks).value.value &&
        forall j :: i < j < |toks| ==> !IsDigitToken(toks[j])
    decreases |toks|
  {
    if |toks| > 0 {
      var n := |toks| - 1;
      var init := toks[..n];
      assert forall i :: 0 <= i < |init| ==> init[i] == toks[i];
      LastDigitsLast(init);
      if !IsDigitToken(toks[n]) && LastDigits(init).value.Some? {
        var i :| 0 <= i < |init| && IsDigitToken(init[i]) &&
          init[i].value.value == LastDigits(init).value.value &&
          forall j :: i < j < |init| ==> !IsDigitToken(init[j]);
        assert IsDigitToken(toks[i]);
      }
    }
  }

  /** The search fails exactly when some prefixed line has no token. */
  lemma BeginDateFails(lines: seq<string>, prefixes: seq<string>)
    ensures BeginDate(lines, prefixes).Fail? <==>
      exists i :: 0 <= i < |lines| && StartsWithAny(lines[i], prefixes) && BeginToken(lines[i]).Fail?
  {
    var toks := Tokens(lines, prefixes);
    LastDigitsFails(toks);
    if BeginDate(lines, prefixes).Fail? {
      var i :| 0 <= i < |toks| && toks[i].Some? && toks[i].value.Fail?;
      assert StartsWithAny(lines[i], prefixes) && BeginToken(lines[i]).Fail?;
    }
  }

  /** The date found is the token of the last line with a digit token, and
      there is none exactly when no line has one. */
  lemma BeginDateLast(lines: seq<string>, prefixes: seq<string>)
    requires BeginDate(lines, prefixes).Ok?
    ensures BeginDate(lines, prefixes).value.None? <==> forall i :: 0 <= i < |lines| ==> !DigitToken(lines[i], prefixes)
    ensures BeginDate(lines, prefixes).value.Some? ==>
      exists i :: 0 <= i < |lines| && DigitToken(lines[i], prefixes) &&
        BeginToken(lines[i]).value == BeginDate(lines, prefixes).value.value &&
        forall j :: i < j < |lines| ==> !DigitToken(lines[j], prefixes)
  {
    var toks := Tokens(lines, prefixes);
    LastDigitsLast(toks);
    assert forall i :: 0 <= i < |lines| ==> (DigitToken(lines[i], prefixes) <==> IsDigitToken(toks[i]));
  }

  const CorrPrefixes: seq<string> := ["# //CORR1_PREV BEGIN=", "# //CORR2_PREV BEGIN=", "# //CORR3_PREV BEGIN="]

  /** The date text of a shifted (EXSA) rating: the first token after the
      first '=' of the first `RATING SHIFTED=` line, without quotes. */
  function ShiftedDate(lines: seq<string>): (r: Result<string>)
    ensures r.Fail? ==> r.fault == IndexError
  {
    var line :- FirstStarting(lines, "# //RATING SHIFTED=");
    var field :- SecondField(line, "=");
    FirstWord(Unquote(field))
  }

  /** The shifted date text is the first word of the first `RATING
      SHIFTED=` line after its first '=', quotes removed; IndexError when
      there is no word there. */
  lemma ShiftedDateOf(lines: seq<string>, i: nat)
    requires i < |lines| && StartsWith(lines[i], "# //RATING SHIFTED=")
    requires forall j :: 0 <= j < i ==> !StartsWith(lines[j], "# //RATING SHIFTED=")
    ensures |Split(lines[i], "=")| > 1
    ensures var words := SplitWs(Unquote(Split(lines[i], "=")[1]));
      ShiftedDate(lines) == if |words| > 0 then Ok(words[0]) else Fail(IndexError)
  {
    FirstStartingAt(lines, "# //RATING SHIFTED=", i);
    assert lines[i][18..19] == "# //RATING SHIFTED="[18..19];
    ContainsAt(lines[i], "=", 18);
  }

  /** The fallback date text: what follows `RETRIEVED: ` on the first
      `RETRIEVED:` line, up to a second such mark. */
  function RetrievedDate(lines: seq<string>): (r: Result<string>)
    ensures r.Fail? ==> r.fault == IndexError
  {
    var line :- FirstStarting(lines, "# //RETRIEVED:");
    SecondField(line, "RETRIEVED: ")
  }

  /** The retrieved date text is what follows the first `RETRIEVED: ` on
      the first `RETRIEVED:` line, up to any second one; IndexError when the
      line has no `RETRIEVED: ` (nothing but a colon after the word). */
  lemma RetrievedDateOf(lines: seq<string>, i: nat)
    requires i < |lines| && StartsWith(lines[i], "# //RETRIEVED:")
    requires forall j :: 0 <= j < i ==> !StartsWith(lines[j], "# //RETRIEVED:")
    ensures RetrievedDate(lines) ==
      if Contains(lines[i], "RETRIEVED: ") then Ok(Split(lines[i], "RETRIEVED: ")[1]) else Fail(IndexError)
  {
    FirstStartingAt(lines, "# //RETRIEVED:", i);
  }

  /** The date text a type's own header lines give: None sends the reader
      to the fallback. */
  function OwnDate(lines: seq<string>, ratingType: string): (r: Result<Option<string>>)
    ensures r.Fail? ==> r.fault == IndexError
  {
    if ratingType == "EXSA" then
      var d :- ShiftedDate(lines);
      Ok(Some(d))
    else if ratingType == "BASE" then BeginDate(lines, ["# //RATING_DATETIME BEGIN="])
    else if ratingType == "CORR" then BeginDate(lines, CorrPrefixes)
    else Ok(None)
  }

  /** `get_usgs_effective_date` up to the parsing of the text: the date text
      and the zone it is read in. */
  function EffectiveDate(lines: seq<string>, ratingType: string): (r: Result<(string, string)>)
    ensures r.Fail? ==> r.fault == IndexError
    ensures r.Ok? ==> UsgsTz(lines).Ok? && r.value.1 == UsgsTz(lines).value
    ensures ratingType == "EXSA" ==>
      (r.Ok? <==> ShiftedDate(lines).Ok? && UsgsTz(lines).Ok?) &&
      (r.Ok? ==> r.value.0 == ShiftedDate(lines).value)
    ensures ratingType == "BASE" && r.Ok? ==>
      match BeginDate(lines, ["# //RATING_DATETIME BEGIN="])
      case Ok(Some(d)) => r.value.0 == d
      case Ok(None) => RetrievedDate(lines).Ok? && r.value.0 == RetrievedDate(lines).value
      case Fail(_) => false
    ensures ratingType == "CORR" && r.Ok? ==>
      match BeginDate(lines, CorrPrefixes)
      case Ok(Some(d)) => r.value.0 == d
      case Ok(None) => RetrievedDate(lines).Ok? && r.value.0 == RetrievedDate(lines).value
      case Fail(_) => false
  {
    var own :- OwnDate(lines, ratingType);
    var date :- match own
      case Some(d) => Ok(d)
      case None => RetrievedDate(lines);
    var tz :- UsgsTz(lines);
    Ok((date, tz))
  }

  // ---------------------------------------------------------------------
  // Rating specifications (`get_rating_ids_from_specs`)
  // ---------------------------------------------------------------------

  datatype Spec = Spec(ratingId: string, description: Option<string>, active: bool, autoUpdate: bool)

  /** The type a description is tagged with: the tags are tried in the
      order EXSA, CORR, BASE and a later one overwrites an earlier one. */
  function RatingTypeOf(desc: string): (r: Option<string>)
    ensures r.Some? ==> r.value in {"EXSA", "CORR", "BASE"} && Contains(desc, "USGS-" + r.value)
    ensures r == Some("BASE") <==> Contains(desc, "USGS-BASE")
    ensures r == Some("CORR") <==> Contains(desc, "USGS-CORR") && !Contains(desc, "USGS-BASE")
    ensures r.None? <==> !Contains(desc, "USGS-EXSA") && !Contains(desc, "USGS-CORR") && !Contains(desc, "USGS-BASE")
  {
    assert "USGS-" + "EXSA" == "USGS-EXSA" && "USGS-" + "CORR" == "USGS-CORR" && "USGS-" + "BASE" == "USGS-BASE";
    var t0: Option<string> := None;
    var t1 := if Contains(desc, "USGS-EXSA") then Some("EXSA") else t0;
    var t2 := if Contains(desc, "USGS-CORR") then Some("CORR") else t1;
    if Contains(desc, "USGS-BASE") then Some("BASE") else t2
  }

  /** The specifications the fetcher works on, with their types, in their
      original order: a description with a tag, active, auto-update. */
  function TaggedSpecs(specs: seq<Spec>): (r: seq<(Spec, string)>)
    ensures |r| <= |specs|
    ensures forall i :: 0 <= i < |r| ==>
      r[i].0 in specs && r[i].0.active && r[i].0.autoUpdate && r[i].0.description.Some? &&
      RatingTypeOf(r[i].0.description.value) == Some(r[i].1)
    decreases |specs|
  {
    if |specs| == 0 then []
    else
      var init := TaggedSpecs(specs[..|specs| - 1]);
      var s := specs[|specs| - 1];
      if s.description.Some? && s.active && s.autoUpdate then
        match RatingTypeOf(s.description.value)
        case Some(t) => init + [(s, t)]
        case None => init
      else init
  }

  /** A specification is kept exactly when it is active, auto-updating and
      tagged. */
  lemma {:induction false} TaggedSpecsKeeps(specs: seq<Spec>, s: Spec)
    ensures (exists t :: (s, t) in TaggedSpecs(specs)) <==>
      s in specs && s.active && s.autoUpdate && s.description.Some? && RatingTypeOf(s.description.value).Some?
    decreases |specs|
  {
    if |specs| > 0 {
      var init := specs[..|specs| - 1];
      TaggedSpecsKeeps(init, s);
      assert specs == init + [specs[|specs| - 1]];
      var last := specs[|specs| - 1];
      if s == last && s.active && s.autoUpdate && s.description.Some? && RatingTypeOf(s.description.value).Some? {
        assert (s, RatingTypeOf(s.description.value).value) in TaggedSpecs(specs);
      }
    }
  }

  /** A description the ini importer has written for a rating type is
      picked up by the fetcher: it carries a tag, and a base rating is
      always taken as base. */
  lemma DescribedIsTagged(desc: Option<string>, disc: string)
    requires disc in {"USGS-CORR", "USGS-BASE", "USGS-EXSA"}
    ensures RatingTypeOf(RatingIni.Described(desc, disc)).Some?
    ensures disc == "USGS-BASE" ==> RatingTypeOf(RatingIni.Described(desc, disc)) == Some("BASE")
  {
  }

  // ---------------------------------------------------------------------
  // One rating of `cwms_write_ratings`
  // ---------------------------------------------------------------------

  /** How one rating ends: the list it is recorded in, or saved, or skipped
      because CWMS holds its effective date. */
  datatype Outcome = ApiError | EmptyRating | EffectiveError | SameEffective | Saved | StoreError

  /** What the USGS returned for a rating: None when the request raised;
      whether the rating table was empty; the lines of the RDB file. */
  datatype Fetched = Fetched(empty: bool, rdb: seq<string>)

  /** The hour the skip rule also accepts, in minutes. */
  const Hour: int := 60

  /** A rating is not stored again when the latest CWMS effective date is
      the USGS date or one hour after it (dates in minutes). A new
      specification has no CWMS date (`NaT` after the concatenation), and
      `NaT` equals no date. */
  predicate SameDate(cwms: Option<int>, usgs: int) {
    cwms.Some? && (cwms.value == usgs || cwms.value == usgs + Hour)
  }

  /** One rating. Parsing and localising the date text (`to_datetime`,
      `tz_localize`, `floor`) is the parameter `parse`, None when it raises;
      storing is `storeOk`; `cwmsDate` is None for a specification without
      an effective date. */
  function RowOutcome(fetched: Option<Fetched>, ratingType: string, cwmsDate: Option<int>,
                      parse: (string, string) -> Option<int>, storeOk: bool): (r: Outcome)
    ensures r == SameEffective <==>
      && fetched.Some? && !fetched.value.empty
      && EffectiveDate(fetched.value.rdb, ratingType).Ok?
      && var (d, tz) := EffectiveDate(fetched.value.rdb, ratingType).value;
         parse(d, tz).Some? && SameDate(cwmsDate, parse(d, tz).value)
    ensures r == Saved <==>
      && fetched.Some? && !fetched.value.empty
      && EffectiveDate(fetched.value.rdb, ratingType).Ok?
      && var (d, tz) := EffectiveDate(fetched.value.rdb, ratingType).value;
         parse(d, tz).Some? && !SameDate(cwmsDate, parse(d, tz).value) && storeOk
    ensures cwmsDate.None? ==> r != SameEffective
    ensures fetched.None? <==> r == ApiError
  {
    match fetched
    case None => ApiError
    case Some(f) =>
      if f.empty then EmptyRating
      else match EffectiveDate(f.rdb, ratingType)
        case Fail(_) => EffectiveError
        case Ok((d, tz)) =>
          match parse(d, tz)
          case None => EffectiveError
          case Some(u) =>
            if SameDate(cwmsDate, u) then SameEffective
            else if storeOk then Saved else StoreError
  }

  /** The skip rule in terms of the difference: exactly 0 or 60 minutes. */
  lemma SameDateDifference(cwms: int, usgs: int)
    ensures SameDate(Some(cwms), usgs) <==> cwms - usgs in {0, Hour}
  {
  }

  /** A new specification, one without a CWMS effective date, is stored
      whenever its USGS rating is fetched, dated and accepted by the store. */
  lemma NewSpecStored(fetched: Option<Fetched>, ratingType: string,
                      parse: (string, string) -> Option<int>)
    requires fetched.Some? && !fetched.value.empty
    requires EffectiveDate(fetched.value.rdb, ratingType).Ok?
    requires var (d, tz) := EffectiveDate(fetched.value.rdb, ratingType).value; parse(d, tz).Some?
    ensures RowOutcome(fetched, ratingType, None, parse, true) == Saved
  {
  }

  function CountOf(outs: seq<Outcome>, k: Outcome): (n: nat)
    ensures n <= |outs|
    decreases |outs|
  {
    if |outs| == 0 then 0
    else CountOf(outs[..|outs| - 1], k) + (if outs[|outs| - 1] == k then 1 else 0)
  }

  /** Every rating is counted once: the saved and skipped ones plus the four
      error lists make up all rows. */
  lemma {:induction false} OutcomesPartition(outs: seq<Outcome>)
    ensures CountOf(outs, Saved) + CountOf(outs, SameEffective) + CountOf(outs, ApiError)
      + CountOf(outs, EmptyRating) + CountOf(outs, EffectiveError) + CountOf(outs, StoreError) == |outs|
    decreases |outs|
  {
    if |outs| > 0 {
      OutcomesPartition(outs[..|outs| - 1]);
    }
  }
}
