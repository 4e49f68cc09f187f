/** The rating ini-file importer (`rating_ini_file_import.py`): the field
    splitter for one ini line (`parse_ini_line`), the keyword loop of
    `main` that collects settings and the rating specifications to update,
    and the description rule of `update_rating_spec`.
 */
module RatingIni {
  import opened Wrappers
  import opened PyText

  // ---------------------------------------------------------------------
  // Fields of one line (`parse_ini_line`)
  // ---------------------------------------------------------------------

  /** The character scan of the quoting branch: the kept characters, the
      backslash flag, and the open quote character, if any. */
  datatype Scan = Scan(out: string, escape: bool, quote: Option<char>)

  predicate IsQuote(c: char) {
    c == '"' || c == '\''
  }

  /** The placeholder for whitespace inside quotes (`chr(0)`). */
  const Hidden: char := '\0'

  /** One character: a backslash flips the flag and is kept only when the
      flag goes off; a quote character opens a region when none is open and
      closes the region it opened; whitespace inside a region is hidden;
      everything else is kept. */
  function ScanChar(s: Scan, c: char): Scan {
    if c == '\\' then
      if s.escape then Scan(s.out + [c], false, s.quote) else Scan(s.out, true, s.quote)
    else if IsQuote(c) && s.quote.None? then Scan(s.out, s.escape, Some(c))
    else if IsQuote(c) && s.quote == Some(c) then Scan(s.out, s.escape, None)
    else if IsSpace(c) && s.quote.Some? then Scan(s.out + [Hidden], s.escape, s.quote)
    else Scan(s.out + [c], s.escape, s.quote)
  }

  function ScanFrom(s: Scan, line: string): Scan
    decreases |line|
  {
    if |line| == 0 then s else ScanFrom(ScanChar(s, line[0]), line[1..])
  }

  const Start: Scan := Scan("", false, None)

  /** `parse_ini_line`: a line with a quote character after its first
      position is scanned for quoted regions and split on whitespace, the
      hidden whitespace coming back as spaces; otherwise a line with a tab
      after its first position is split on every tab; otherwise on
      whitespace. */
  function ParseIniLine(line: string): (r: seq<string>)
    ensures !(Find(line, "'") > 0 || Find(line, "\"") > 0) && Find(line, "\t") > 0 ==>
      |r| == CountChar(line, '\t') + 1
    ensures !(Find(line, "'") > 0 || Find(line, "\"") > 0) && Find(line, "\t") <= 0 ==> r == SplitWs(line)
  {
    if Find(line, "'") > 0 || Find(line, "\"") > 0 then
      var fields := SplitWs(ScanFrom(Start, line).out);
      seq(|fields|, i requires 0 <= i < |fields| => Replace(fields[i], [Hidden], " "))
    else if Find(line, "\t") > 0 then
      SplitCharCount(line, '\t');
      Split(line, "\t")
    else SplitWs(line)
  }

  /** A quote in the first column does not count as quoting (the test is
      `find(...) > 0`): such a line is split on whitespace with the quote
      kept in its first field. */
  lemma LeadingQuoteKept(line: string)
    requires |line| > 0 && IsQuote(line[0])
    requires forall k :: 1 <= k < |line| ==> !IsQuote(line[k]) && line[k] != '\t'
    ensures ParseIniLine(line) == SplitWs(line)
    ensures |ParseIniLine(line)| > 0 && ParseIniLine(line)[0][0] == line[0]
  {
    forall j | 1 <= j < |line|
      ensures !OccursAt(line, "'", j) && !OccursAt(line, "\"", j) && !OccursAt(line, "\t", j)
    {
      OccursAtChar(line, '\'', j);
      OccursAtChar(line, '"', j);
      OccursAtChar(line, '\t', j);
    }
    OccursAtChar(line, '\t', 0);
    assert Find(line, "\t") < 0;
    assert Find(line, "'") <= 0 && Find(line, "\"") <= 0;
  }

  /** Scanning the halves of a line one after the other is scanning the
      line. */
  lemma {:induction false} ScanAppend(s: Scan, a: string, b: string)
    ensures ScanFrom(s, a + b) == ScanFrom(ScanFrom(s, a), b)
    decreases |a|
  {
    if |a| > 0 {
      assert (a + b)[0] == a[0];
      assert (a + b)[1..] == a[1..] + b;
      ScanAppend(ScanChar(s, a[0]), a[1..], b);
    } else {
      assert a + b == b;
    }
  }

  /** Every second backslash survives: the kept backslashes and the flag
      account for all backslashes read. */
  lemma {:induction false} BackslashCount(s: Scan, line: string)
    ensures var r := ScanFrom(s, line);
      2 * CountChar(r.out, '\\') + (if r.escape then 1 else 0)
      == 2 * CountChar(s.out, '\\') + (if s.escape then 1 else 0) + CountChar(line, '\\')
    decreases |line|
  {
    if |line| > 0 {
      BackslashStep(s, line[0]);
      BackslashCount(ScanChar(s, line[0]), line[1..]);
    }
  }

  /** One character adds to the backslash tally exactly when it is a
      backslash. */
  lemma BackslashStep(s: Scan, c: char)
    ensures var t := ScanChar(s, c);
      2 * CountChar(t.out, '\\') + (if t.escape then 1 else 0)
      == 2 * CountChar(s.out, '\\') + (if s.escape then 1 else 0) + (if c == '\\' then 1 else 0)
  {
    var t := ScanChar(s, c);
    if t.out != s.out {
      CountCharAppend(s.out, [t.out[|t.out| - 1]], '\\');
      assert t.out == s.out + [t.out[|t.out| - 1]];
    }
  }

  /** Of the k backslashes of a quoted line, k/2 (rounded down) are kept,
      whatever lies between them. */
  lemma BackslashesHalved(line: string)
    ensures CountChar(ScanFrom(Start, line).out, '\\') == CountChar(line, '\\') / 2
  {
    BackslashCount(Start, line);
  }

  /** The backslash flag has no say in quotes or whitespace: for any other
      character the scan does the same with the flag on or off. */
  lemma EscapeIgnored(out: string, q: Option<char>, c: char)
    requires c != '\\'
    ensures ScanChar(Scan(out, true, q), c).out == ScanChar(Scan(out, false, q), c).out
    ensures ScanChar(Scan(out, true, q), c).quote == ScanChar(Scan(out, false, q), c).quote
  {
  }

  /** Plain text outside quotes is kept as it is. */
  lemma {:induction false} ScanPlain(s: Scan, w: string)
    requires s.quote.None?
    requires forall k :: 0 <= k < |w| ==> !IsQuote(w[k]) && w[k] != '\\'
    ensures ScanFrom(s, w) == Scan(s.out + w, s.escape, None)
    decreases |w|
  {
    if |w| > 0 {
      ScanPlain(ScanChar(s, w[0]), w[1..]);
      assert s.out + [w[0]] + w[1..] == s.out + w;
    } else {
      assert s.out + w == s.out;
    }
  }

  /** Text inside a region opened by `q` has its whitespace hidden; the other
      quote character is kept. */
  lemma {:induction false} ScanQuoted(s: Scan, q: char, x: string)
    requires s.quote == Some(q)
    requires forall k :: 0 <= k < |x| ==> x[k] != q && x[k] != '\\'
    ensures ScanFrom(s, x) == Scan(s.out + Hide(x), s.escape, Some(q))
    decreases |x|
  {
    if |x| > 0 {
      var t := ScanChar(s, x[0]);
      assert ScanFrom(s, x) == ScanFrom(t, x[1..]);
      ScanQuotedChar(s, q, x[0]);
      var x1 := x[1..];
      assert forall k :: 0 <= k < |x1| ==> x1[k] == x[k + 1];
      ScanQuoted(t, q, x1);
      HideCons(x);
      PushChar(s.out, if IsSpace(x[0]) then Hidden else x[0], Hide(x1));
    } else {
      assert s.out + Hide(x) == s.out;
    }
  }

  lemma PushChar(a: string, c: char, b: string)
    ensures (a + [c]) + b == a + ([c] + b)
  {
  }

  lemma ScanQuotedChar(s: Scan, q: char, c: char)
    requires s.quote == Some(q) && c != q && c != '\\'
    ensures ScanChar(s, c) == Scan(s.out + [if IsSpace(c) then Hidden else c], s.escape, Some(q))
  {
  }

  lemma HideCons(x: string)
    requires |x| > 0
    ensures Hide(x) == [if IsSpace(x[0]) then Hidden else x[0]] + Hide(x[1..])
  {
    var l, r := Hide(x), [if IsSpace(x[0]) then Hidden else x[0]] + Hide(x[1..]);
    assert forall k :: 0 < k < |x| ==> r[k] == Hide(x[1..])[k - 1];
    assert forall k :: 0 <= k < |x| ==> l[k] == r[k];
  }

  /** Whitespace replaced by the placeholder. */
  function Hide(x: string): (r: string)
    ensures |r| == |x|
    ensures forall k :: 0 <= k < |x| ==> r[k] == if IsSpace(x[k]) then Hidden else x[k]
  {
    seq(|x|, k requires 0 <= k < |x| => if IsSpace(x[k]) then Hidden else x[k])
  }

  /** A word followed by a quoted text makes two fields: the word, and the
      quoted text without its quotes, its whitespace turned into spaces
      (the other quote character stays). */
  lemma QuotedField(w: string, q: char, x: string)
    requires IsQuote(q)
    requires |w| > 0 && |x| > 0
    requires forall k :: 0 <= k < |w| ==> !IsQuote(w[k]) && w[k] != '\\' && !IsSpace(w[k]) && w[k] != Hidden
    requires forall k :: 0 <= k < |x| ==> x[k] != q && x[k] != '\\' && x[k] != Hidden
    ensures ParseIniLine(w + " " + [q] + x + [q]) == [w, SwapChar(Hide(x), Hidden, ' ')]
  {
    var line := w + " " + [q] + x + [q];
    QuoteFound(w, q, x);
    ScanLine(w, q, x);
    var h := Hide(x);
    assert forall k :: 0 <= k < |h| ==> !IsSpace(h[k]);
    TwoWords(w, h);
    ReplaceChar(w, Hidden, ' ');
    assert SwapChar(w, Hidden, ' ') == w;
    ReplaceChar(h, Hidden, ' ');
    QuotedFields(line, w, h);
  }

  lemma QuotedFields(line: string, w: string, h: string)
    requires Find(line, "'") > 0 || Find(line, "\"") > 0
    requires SplitWs(ScanFrom(Start, line).out) == [w, h]
    ensures ParseIniLine(line) == [Replace(w, [Hidden], " "), Replace(h, [Hidden], " ")]
  {
  }

  /** The scan of such a line keeps the word, the blank, and the hidden
      quoted text. */
  lemma ScanLine(w: string, q: char, x: string)
    requires IsQuote(q)
    requires forall k :: 0 <= k < |w| ==> !IsQuote(w[k]) && w[k] != '\\'
    requires forall k :: 0 <= k < |x| ==> x[k] != q && x[k] != '\\'
    ensures ScanFrom(Start, w + " " + [q] + x + [q]).out == w + " " + Hide(x)
  {
    var w1 := w + " ";
    assert w + " " + [q] + x + [q] == w1 + ([q] + (x + [q]));
    ScanAppend(Start, w1, [q] + (x + [q]));
    assert forall k :: 0 <= k < |w1| ==> !IsQuote(w1[k]) && w1[k] != '\\';
    ScanPlain(Start, w1);
    var s1 := Scan(w1, false, None);
    assert Start.out + w1 == w1;
    ScanAppend(s1, [q], x + [q]);
    var s2 := ScanChar(s1, q);
    assert ScanFrom(s1, [q]) == s2;
    ScanAppend(s2, x, [q]);
    ScanQuoted(s2, q, x);
    var s3 := Scan(w1 + Hide(x), false, Some(q));
    assert ScanFrom(s3, [q]) == Scan(w1 + Hide(x), false, None);
  }

  /** The quoting branch is taken for such a line. */
  lemma QuoteFound(w: string, q: char, x: string)
    requires IsQuote(q) && |w| > 0
    requires forall k :: 0 <= k < |w| ==> !IsQuote(w[k])
    ensures var line := w + " " + [q] + x + [q]; Find(line, "'") > 0 || Find(line, "\"") > 0
  {
    var line := w + " " + [q] + x + [q];
    OccursAtChar(line, q, |w| + 1);
    assert OccursAt(line, [q], |w| + 1);
    forall j | 0 <= j <= |w|
      ensures !OccursAt(line, [q], j)
    {
      OccursAtChar(line, q, j);
    }
    assert Find(line, [q]) == |w| + 1;
  }

  /** Two words with one blank between them are two fields. */
  lemma TwoWords(w: string, h: string)
    requires |w| > 0 && |h| > 0
    requires forall k :: 0 <= k < |w| ==> !IsSpace(w[k])
    requires forall k :: 0 <= k < |h| ==> !IsSpace(h[k])
    ensures SplitWs(w + " " + h) == [w, h]
  {
    assert w + " " + h == w + (" " + h);
    SplitWsWord(w, " " + h);
    assert (" " + h)[1..] == h;
    assert SplitWs(" " + h) == SplitWs(h);
    SplitWsWord(h, "");
    assert h + "" == h;
  }

  /** A word at the start of a text is its first field. */
  lemma SplitWsWord(w: string, rest: string)
    requires |w| > 0
    requires forall k :: 0 <= k < |w| ==> !IsSpace(w[k])
    requires |rest| == 0 || IsSpace(rest[0])
    ensures SplitWs(w + rest) == [w] + SplitWs(rest)
  {
    var s := w + rest;
    WordRun(w, rest);
    assert s[0] == w[0];
    assert s[..|w|] == w && s[|w|..] == rest;
  }

  lemma {:induction false} WordRun(w: string, rest: string)
    requires forall k :: 0 <= k < |w| ==> !IsSpace(w[k])
    requires |rest| == 0 || IsSpace(rest[0])
    ensures WordLength(w + rest) == |w|
    decreases |w|
  {
    if |w| > 0 {
      WordRun(w[1..], rest);
      assert (w + rest)[1..] == w[1..] + rest;
    } else {
      assert w + rest == rest;
    }
  }

  // ---------------------------------------------------------------------
  // The keyword loop of `main`
  // ---------------------------------------------------------------------

  /** Settings the loop records. */
  const Keywords: seq<string> := ["cwms_office", "db_base", "db_exsa", "db_corr", "localid"]

  /** The setting and the description tag of each store keyword. */
  function RatingType(k: string): Option<(string, string)> {
    if k == "store_corr" then Some(("db_corr", "USGS-CORR"))
    else if k == "store_base" then Some(("db_base", "USGS-BASE"))
    else if k == "store_exsa" then Some(("db_exsa", "USGS-EXSA"))
    else None
  }

  /** The field a store line must hold for its rating to be updated. */
  function Marker(dbType: string): string {
    "$($" + dbType + ")"
  }

  /** A rating specification to update, the office it belongs to (None
      when no office was set: the update then fails inside the guarded call
      and the specification is listed among the errors), and the tag its
      description gets. */
  datatype Update = Update(specId: string, office: Option<string>, disc: string)

  function Setting(params: map<string, string>, k: string): Option<string> {
    if k in params then Some(params[k]) else None
  }

  datatype IniState = IniState(params: map<string, string>, updates: seq<Update>)

  /** The line without its last character, stripped, and cut before the
      first '#' (stripped again); a line without '#' is only stripped. */
  function CleanIniLine(raw: string): (r: string)
    ensures !Contains(r, "#")
    ensures !Contains(Strip(Take(raw, -1)), "#") ==> r == Strip(Take(raw, -1))
  {
    var l := Strip(Take(raw, -1));
    var h := Find(l, "#");
    if h >= 0 then
      assert !Contains(l[..h], "#") by {
        if Contains(l[..h], "#") {
          OccursInPrefix(l, "#", h, Find(l[..h], "#"));
        }
      }
      NoSubInStrip(l[..h], "#");
      Strip(l[..h])
    else l
  }

  /** Stripping a text cannot make a pattern appear in it. */
  lemma NoSubInStrip(s: string, sub: string)
    requires !Contains(s, sub)
    ensures !Contains(Strip(s), sub)
  {
    var a := StripStart(s);
    NoSubInSlice(s, sub, a, a + |Strip(s)|);
  }

  lemma NoSubInSlice(s: string, sub: string, a: nat, b: nat)
    requires a <= b <= |s| && !Contains(s, sub)
    ensures !Contains(s[a..b], sub)
  {
    var t := s[a..b];
    if Contains(t, sub) {
      var i := Find(t, sub);
      SliceOfSlice(s, a, b, i, |sub|);
      ContainsAt(s, sub, a + i);
    }
  }

  /** One line of the loop. A `key=value` line sets a keyword (the text up
      to the second '='); a store line holding its marker field asks for an
      update of the specification named by its setting, with `\$localid`
      replaced; a missing setting raises KeyError, a line without fields
      IndexError. */
  function IniStep(st: IniState, raw: string): (r: Result<IniState>)
    ensures r.Ok? ==> |st.updates| <= |r.value.updates| <= |st.updates| + 1
    ensures r.Ok? ==> r.value.updates[..|st.updates|] == st.updates
    ensures r.Ok? && |r.value.updates| > |st.updates| ==>
      r.value.updates[|st.updates|].disc in ["USGS-CORR", "USGS-BASE", "USGS-EXSA"]
    ensures r.Fail? ==> r.fault in {KeyError, IndexError}
  {
    var line := CleanIniLine(raw);
    if line == "" then Ok(st)
    else if Contains(line, "=") then
      SplitFound(line, "=");
      SettingLine(st, Split(line, "="))
    else
      var fields := ParseIniLine(line);
      if |fields| == 0 then Fail(IndexError)
      else RatingLine(st, fields)
  }

  /** A `key=value` line: a keyword's value is recorded, anything else is
      ignored. */
  function SettingLine(st: IniState, fields: seq<string>): (r: Result<IniState>)
    requires |fields| >= 2
    ensures r.Ok? && r.value.updates == st.updates
    ensures fields[0] in Keywords ==> r.value.params == st.params[fields[0] := fields[1]]
    ensures fields[0] !in Keywords ==> r.value == st
  {
    if fields[0] in Keywords then Ok(IniState(st.params[fields[0] := fields[1]], st.updates))
    else Ok(st)
  }

  /** A line of fields whose first names a rating type and which holds that
      type's store marker asks for one update (KeyError without the
      type's setting or `localid`); any other line changes nothing. */
  function RatingLine(st: IniState, fields: seq<string>): (r: Result<IniState>)
    requires |fields| > 0
    ensures r.Ok? ==> r.value.params == st.params
    ensures r.Ok? ==> (r.value.updates == st.updates
      || (RatingType(fields[0]).Some? && |r.value.updates| == |st.updates| + 1
          && r.value.updates[..|st.updates|] == st.updates
          && r.value.updates[|st.updates|].disc == RatingType(fields[0]).value.1
          && r.value.updates[|st.updates|].disc in ["USGS-CORR", "USGS-BASE", "USGS-EXSA"]))
    ensures r.Fail? ==> r == Fail(KeyError)
  {
    match RatingType(fields[0])
    case None => Ok(st)
    case Some((dbType, disc)) =>
      if Marker(dbType) !in fields then Ok(st)
      else if dbType !in st.params || "localid" !in st.params then Fail(KeyError)
      else
        var u := Update(Replace(st.params[dbType], "\\$localid", st.params["localid"]),
          Setting(st.params, "cwms_office"), disc);
        assert (st.updates + [u])[..|st.updates|] == st.updates;
        Ok(IniState(st.params, st.updates + [u]))
  }

  /** The loop over the file's lines. */
  function IniRun(lines: seq<string>): (r: Result<IniState>)
    ensures r.Ok? ==> |r.value.updates| <= |lines|
    decreases |lines|
  {
    if |lines| == 0 then Ok(IniState(map[], []))
    else
      var st :- IniRun(lines[..|lines| - 1]);
      IniStep(st, lines[|lines| - 1])
  }

  /** A line `key=value` for a keyword sets exactly that keyword. */
  lemma KeywordSet(st: IniState, k: string, v: string)
    requires k in Keywords
    requires '=' !in v && '#' !in v && |v| > 0 && !IsSpace(v[|v| - 1])
    ensures IniStep(st, k + "=" + v + "\n") == Ok(IniState(st.params[k := v], st.updates))
  {
    KeywordShape(k);
    var line := k + "=" + v;
    CleanKeywordLine(k, v);
    SplitCharFirst(k, '=', v);
    NoCharSplit(v, '=');
    assert line == k + ['='] + v;
    ContainsAt(line, "=", |k|);
    KeywordStep(st, k + "=" + v + "\n", line, k, v);
  }

  lemma KeywordStep(st: IniState, raw: string, line: string, k: string, v: string)
    requires k in Keywords
    requires CleanIniLine(raw) == line && line != "" && Contains(line, "=")
    requires Split(line, "=") == [k, v]
    ensures IniStep(st, raw) == Ok(IniState(st.params[k := v], st.updates))
  {
  }

  lemma KeywordShape(k: string)
    requires k in Keywords
    ensures |k| > 0 && !IsSpace(k[0]) && '=' !in k && '#' !in k
  {
  }

  lemma CleanKeywordLine(k: string, v: string)
    requires |k| > 0 && !IsSpace(k[0]) && '#' !in k
    requires |v| > 0 && !IsSpace(v[|v| - 1]) && '#' !in v
    ensures CleanIniLine(k + "=" + v + "\n") == k + "=" + v
  {
    var raw := k + "=" + v + "\n";
    var line := k + "=" + v;
    assert Take(raw, -1) == line;
    KeywordLine(k, v);
    StripEnds(line);
    NoHashIn(line, k, v);
  }

  lemma KeywordLine(k: string, v: string)
    requires |k| > 0 && |v| > 0
    ensures (k + "=" + v)[0] == k[0] && (k + "=" + v)[|k| + |v|] == v[|v| - 1]
  {
  }

  lemma StripEnds(s: string)
    requires |s| > 0 && !IsSpace(s[0]) && !IsSpace(s[|s| - 1])
    ensures Strip(s) == s
  {
    assert LStrip(s) == s;
  }

  lemma NoHashIn(line: string, k: string, v: string)
    requires line == k + "=" + v && '#' !in k && '#' !in v
    ensures Find(line, "#") < 0
  {
    NoCharFound(line, '#');
  }

  /** A store line naming its own setting asks for one update: the
      specification in that setting with `\$localid` replaced, tagged for
      its rating type; without the setting or `localid` it raises KeyError. */
  lemma StoreUpdate(st: IniState, k: string)
    requires RatingType(k).Some?
    ensures var (t, disc) := RatingType(k).value;
      IniStep(st, k + " " + Marker(t) + "\n") ==
        if t in st.params && "localid" in st.params then
          Ok(IniState(st.params, st.updates + [Update(Replace(st.params[t], "\\$localid", st.params["localid"]),
            Setting(st.params, "cwms_office"), disc)]))
        else Fail(KeyError)
  {
    var (t, disc) := RatingType(k).value;
    StoreLine(k);
    StoreStep(st, k + " " + Marker(t) + "\n", k + " " + Marker(t), k, t, disc);
  }

  /** A store line cleans to itself and reads as its two words. */
  lemma StoreLine(k: string)
    requires RatingType(k).Some?
    ensures var line := k + " " + Marker(RatingType(k).value.0);
      && CleanIniLine(line + "\n") == line && line != "" && !Contains(line, "=")
      && ParseIniLine(line) == [k, Marker(RatingType(k).value.0)]
  {
    var m := Marker(RatingType(k).value.0);
    StoreShape(k);
    StoreLineClean(k, m);
    StoreWords(k, m);
  }

  /** Two words without quotes, tabs or `=` between one space read as
      those two words. */
  lemma StoreWords(k: string, m: string)
    requires |k| > 0 && |m| > 0
    requires forall j :: 0 <= j < |k| ==> !IsSpace(k[j])
    requires forall j :: 0 <= j < |m| ==> !IsSpace(m[j])
    requires forall c :: c in "#='\"\t " ==> c !in k && c !in m
    ensures !Contains(k + " " + m, "=") && ParseIniLine(k + " " + m) == [k, m]
  {
    var line := k + " " + m;
    assert line == k + (" " + m);
    NoCharFound(line, '\'');
    NoCharFound(line, '"');
    NoCharFound(line, '\t');
    NoCharFound(line, '=');
    TwoWords(k, m);
  }

  lemma StoreStep(st: IniState, raw: string, line: string, k: string, t: string, disc: string)
    requires RatingType(k) == Some((t, disc))
    requires CleanIniLine(raw) == line && line != "" && !Contains(line, "=")
    requires ParseIniLine(line) == [k, Marker(t)]
    ensures IniStep(st, raw) ==
      if t in st.params && "localid" in st.params then
        Ok(IniState(st.params, st.updates + [Update(Replace(st.params[t], "\\$localid", st.params["localid"]),
          Setting(st.params, "cwms_office"), disc)]))
      else Fail(KeyError)
  {
  }

  lemma StoreShape(k: string)
    requires RatingType(k).Some?
    ensures var m := Marker(RatingType(k).value.0);
      && |k| > 0 && |m| > 0 && !IsSpace(k[0]) && !IsSpace(m[|m| - 1])
      && (forall j :: 0 <= j < |k| ==> !IsSpace(k[j]))
      && (forall j :: 0 <= j < |m| ==> !IsSpace(m[j]))
      && (forall c :: c in "#='\"\t " ==> c !in k && c !in m)
  {
  }

  lemma StoreLineClean(k: string, m: string)
    requires |k| > 0 && |m| > 0 && !IsSpace(k[0]) && !IsSpace(m[|m| - 1])
    requires '#' !in k && '#' !in m
    ensures CleanIniLine(k + " " + m + "\n") == k + " " + m
  {
    var raw := k + " " + m + "\n";
    var line := k + " " + m;
    assert Take(raw, -1) == line;
    assert line[0] == k[0] && line[|line| - 1] == m[|m| - 1];
    StripEnds(line);
    NoCharFound(line, '#');
  }

  /** A comment line leaves everything as it was. */
  lemma CommentIgnored(st: IniState, raw: string)
    requires StartsWith(Strip(Take(raw, -1)), "#")
    ensures IniStep(st, raw) == Ok(st)
  {
    var l := Strip(Take(raw, -1));
    assert OccursAt(l, "#", 0);
    assert Find(l, "#") == 0;
    assert l[..0] == "";
    assert Strip("") == "";
  }

  // ---------------------------------------------------------------------
  // The description rule of `update_rating_spec`
  // ---------------------------------------------------------------------

  /** The new description: the tag is appended after a space unless the
      description already holds it; a specification without a description
      gets the tag alone. */
  function Described(desc: Option<string>, disc: string): (r: string)
    ensures Contains(r, disc)
    ensures desc.Some? ==> StartsWith(r, desc.value)
    ensures desc.None? ==> r == disc
    ensures desc.Some? && Contains(desc.value, disc) ==> r == desc.value
    ensures desc.Some? && !Contains(desc.value, disc) ==> r == desc.value + " " + disc
  {
    match desc
    case None =>
      assert OccursAt(disc, disc, 0);
      disc
    case Some(d) =>
      if Contains(d, disc) then d
      else
        var r := d + " " + disc;
        assert OccursAt(r, disc, |d| + 1);
        assert r[..|d|] == d;
        r
  }

  /** Updating a description twice with the same tag is updating it once. */
  lemma DescribedIdempotent(desc: Option<string>, disc: string)
    ensures Described(Some(Described(desc, disc)), disc) == Described(desc, disc)
  {
  }

  /** The columns of a rating specification that `update_rating_spec`
      touches; `effectiveDates` is None once the column is dropped. */
  datatype RatingSpec = RatingSpec(
    sourceAgency: string, active: bool, autoUpdate: bool, autoActivate: bool,
    description: Option<string>, effectiveDates: Option<seq<string>>)

  /** `update_rating_spec`: drop the effective dates, mark the
      specification as a USGS one that is active and updated and activated
      automatically, and tag its description. */
  function UpdateSpec(spec: RatingSpec, disc: string): (r: RatingSpec)
    ensures r.sourceAgency == "USGS" && r.active && r.autoUpdate && r.autoActivate
    ensures r.effectiveDates.None?
    ensures r.description == Some(Described(spec.description, disc))
  {
    RatingSpec("USGS", true, true, true, Some(Described(spec.description, disc)), None)
  }

  /** Storing the updated specification again with the same tag changes
      nothing. */
  lemma UpdateSpecIdempotent(spec: RatingSpec, disc: string)
    ensures UpdateSpec(UpdateSpec(spec, disc), disc) == UpdateSpec(spec, disc)
  {
    DescribedIdempotent(spec.description, disc);
  }
}
