/** The SHEF criteria table the loader reads (`load_shef_crit`): lines of the
    form `LOC.PE.VER.Q=path;Key=Value;...` build a nested table
    location -> physical element -> version -> attributes, where the
    attribute `Path` holds the CWMS time-series name.
 */
module ShefCrit {
  import opened Wrappers
  import opened PyText

  type Attrs = map<string, string>
  type CritTable = map<string, map<string, map<string, Attrs>>>

  /** The attributes stored for (loc, pe, ver), if any. */
  function Entry(t: CritTable, loc: string, pe: string, ver: string): Option<Attrs> {
    if loc in t && pe in t[loc] && ver in t[loc][pe] then Some(t[loc][pe][ver]) else None
  }

  /** `shef_crit[loc][pe][ver][key] = val`, creating the missing levels. */
  function Put(t: CritTable, loc: string, pe: string, ver: string, key: string, val: string): (r: CritTable)
    ensures Entry(r, loc, pe, ver) == Some(Entry(t, loc, pe, ver).GetOr(map[])[key := val])
    ensures forall l, p, v :: (l, p, v) != (loc, pe, ver) ==> Entry(r, l, p, v) == Entry(t, l, p, v)
  {
    var byPe := if loc in t then t[loc] else map[];
    var byVer := if pe in byPe then byPe[pe] else map[];
    var attrs := if ver in byVer then byVer[ver] else map[];
    t[loc := byPe[pe := byVer[ver := attrs[key := val]]]]
  }

  /** One parsed criteria line. */
  datatype CritLine = CritLine(loc: string, pe: string, version: string, path: string,
                               attrs: seq<(string, string)>)

  /** The `Key=Value` segments after the first ';'; a segment without '='
      raises IndexError. */
  function ParseAttrs(segs: seq<string>): (r: Result<seq<(string, string)>>)
    ensures r.Ok? ==> |r.value| == |segs|
    ensures r.Ok? ==> forall i :: 0 <= i < |segs| ==>
      |Split(segs[i], "=")| >= 2 && r.value[i] == (Split(segs[i], "=")[0], Split(segs[i], "=")[1])
    ensures r.Ok? <==> forall i :: 0 <= i < |segs| ==> Contains(segs[i], "=")
    ensures r.Fail? ==> r.fault == IndexError
    decreases |segs|
  {
    if |segs| == 0 then Ok([])
    else
      var init :- ParseAttrs(segs[..|segs| - 1]);
      var seg := segs[|segs| - 1];
      var v :- SecondField(seg, "=");
      Ok(init + [(Split(seg, "=")[0], v)])
  }

  /** Lines starting with one of these are skipped. */
  const SkipChars: set<char> := {'#', ' ', '\n'}

  /** Parses one line as read from the file (with its '\n'); `Ok(None)` for
      a skipped line. The last character is dropped unconditionally. */
  function ParseCritLine(line: string): (r: Result<Option<CritLine>>)
    ensures |line| == 0 ==> r == Fail(IndexError)
    ensures |line| > 0 && line[0] in SkipChars ==> r == Ok(None)
    ensures |line| > 0 && line[0] !in SkipChars ==>
      var body := line[..|line| - 1];
      var key := Split(Split(body, "=")[0], ".");
      var attrs := ParseAttrs(Split(body, ";")[1..]);
      && (|key| != 4 ==> r == Fail(ValueError))
      && (|key| == 4 ==> (r.Ok? <==> Contains(body, "=") && attrs.Ok?))
      && (|key| == 4 && r.Fail? ==> r.fault == IndexError)
      && (r.Ok? ==> |key| == 4 && |Split(body, "=")| >= 2 && attrs.Ok?
                    && r.value == Some(CritLine(key[0], key[1], key[2],
                                                Split(Split(body, "=")[1], ";")[0], attrs.value)))
  {
    if |line| == 0 then Fail(IndexError)
    else if line[0] in SkipChars then Ok(None)
    else
      var body := line[..|line| - 1];
      var key := Split(Split(body, "=")[0], ".");
      if |key| != 4 then Fail(ValueError)
      else
        var rhs :- SecondField(body, "=");
        var attrs :- ParseAttrs(Split(body, ";")[1..]);
        Ok(Some(CritLine(key[0], key[1], key[2], Split(rhs, ";")[0], attrs)))
  }

  /** The value stored under `key` in the entry (loc, pe, ver), if any. */
  function Attr(t: CritTable, loc: string, pe: string, ver: string, key: string): Option<string> {
    match Entry(t, loc, pe, ver)
    case Some(a) => if key in a then Some(a[key]) else None
    case None => None
  }

  /** The value of the last pair for `key`, if any pair has that key. */
  function LastValue(kvs: seq<(string, string)>, key: string): Option<string>
    decreases |kvs|
  {
    if |kvs| == 0 then None
    else if kvs[|kvs| - 1].0 == key then Some(kvs[|kvs| - 1].1)
    else LastValue(kvs[..|kvs| - 1], key)
  }

  /** Sets the given attributes in order: a later key overwrites an earlier
      one. */
  function PutAll(t: CritTable, loc: string, pe: string, ver: string, kvs: seq<(string, string)>): (r: CritTable)
    decreases |kvs|
    ensures Entry(r, loc, pe, ver).Some? || (|kvs| == 0 && r == t)
    ensures forall key :: Attr(r, loc, pe, ver, key)
                          == (if LastValue(kvs, key).Some? then LastValue(kvs, key) else Attr(t, loc, pe, ver, key))
    ensures forall l, p, v :: (l, p, v) != (loc, pe, ver) ==> Entry(r, l, p, v) == Entry(t, l, p, v)
    ensures Entry(t, loc, pe, ver).Some? ==>
      Entry(r, loc, pe, ver).value.Keys >= Entry(t, loc, pe, ver).value.Keys
  {
    if |kvs| == 0 then t
    else
      var kv := kvs[|kvs| - 1];
      Put(PutAll(t, loc, pe, ver, kvs[..|kvs| - 1]), loc, pe, ver, kv.0, kv.1)
  }

  /** Stores one parsed line: first its `Path`, then its attributes. */
  function ApplyLine(t: CritTable, c: CritLine): (r: CritTable)
    ensures Entry(r, c.loc, c.pe, c.version).Some?
    ensures "Path" in Entry(r, c.loc, c.pe, c.version).value
    ensures forall l, p, v :: (l, p, v) != (c.loc, c.pe, c.version) ==> Entry(r, l, p, v) == Entry(t, l, p, v)
  {
    PutAll(Put(t, c.loc, c.pe, c.version, "Path", c.path), c.loc, c.pe, c.version, c.attrs)
  }

  /** `load_shef_crit` over the file's lines, continuing from table `t`; the
      first bad line aborts the load. */
  function LoadFrom(t: CritTable, lines: seq<string>): (r: Result<CritTable>)
    decreases |lines|
  {
    if |lines| == 0 then Ok(t)
    else
      var t' :- LoadFrom(t, lines[..|lines| - 1]);
      var c :- ParseCritLine(lines[|lines| - 1]);
      match c
      case None => Ok(t')
      case Some(cl) => Ok(ApplyLine(t', cl))
  }

  function LoadShefCrit(lines: seq<string>): Result<CritTable> {
    LoadFrom(map[], lines)
  }

  /** Every stored entry has a `Path`. */
  ghost predicate EveryEntryHasPath(t: CritTable) {
    forall l, p, v :: Entry(t, l, p, v).Some? ==> "Path" in Entry(t, l, p, v).value
  }

  /** Loading keeps every entry addressable: whatever the lines, each entry
      the loader creates carries a `Path`, so the decoder's `['Path']` lookup
      can only fail on `Units`. */
  lemma {:induction false} LoadKeepsPaths(t: CritTable, lines: seq<string>)
    requires EveryEntryHasPath(t)
    ensures LoadFrom(t, lines).Ok? ==> EveryEntryHasPath(LoadFrom(t, lines).value)
    decreases |lines|
  {
    if |lines| > 0 {
      LoadKeepsPaths(t, lines[..|lines| - 1]);
      var prev := LoadFrom(t, lines[..|lines| - 1]);
      if prev.Ok? {
        var c := ParseCritLine(lines[|lines| - 1]);
        if c.Ok? && c.value.Some? {
          var cl := c.value.value;
          var r := ApplyLine(prev.value, cl);
          forall l, p, v | Entry(r, l, p, v).Some? ensures "Path" in Entry(r, l, p, v).value {
            if (l, p, v) != (cl.loc, cl.pe, cl.version) {
              assert Entry(r, l, p, v) == Entry(prev.value, l, p, v);
            }
          }
        }
      }
    }
  }

  /** Loading a file in two parts is loading the first part and continuing
      with the second. */
  lemma {:induction false} LoadSplit(t: CritTable, a: seq<string>, b: seq<string>)
    ensures LoadFrom(t, a + b) == match LoadFrom(t, a)
                                  case Ok(t') => LoadFrom(t', b)
                                  case Fail(f) => Fail(f)
    decreases |b|
  {
    if |b| == 0 {
      assert a + b == a;
    } else {
      assert (a + b)[..|a + b| - 1] == a + b[..|b| - 1];
      assert (a + b)[|a + b| - 1] == b[|b| - 1];
      LoadSplit(t, a, b[..|b| - 1]);
    }
  }

  /** Comment and indented lines change nothing. */
  lemma SkippedLine(t: CritTable, lines: seq<string>, line: string)
    requires |line| > 0 && line[0] in SkipChars
    ensures LoadFrom(t, lines + [line]) == LoadFrom(t, lines)
  {
    assert (lines + [line])[..|lines|] == lines;
  }

  /** A line for an entry that has been seen before replaces its `Path`
      (unless its own attributes set `Path` again) and leaves every other
      entry alone. */
  lemma LastLineWins(t: CritTable, lines: seq<string>, line: string)
    requires LoadFrom(t, lines + [line]).Ok?
    requires ParseCritLine(line).Ok? && ParseCritLine(line).value.Some?
    ensures var c := ParseCritLine(line).value.value;
      var r := LoadFrom(t, lines + [line]).value;
      Entry(r, c.loc, c.pe, c.version).Some?
      && ((forall i :: 0 <= i < |c.attrs| ==> c.attrs[i].0 != "Path") ==>
            Entry(r, c.loc, c.pe, c.version).value["Path"] == c.path)
      && LoadFrom(t, lines).Ok?
      && forall l, p, v :: (l, p, v) != (c.loc, c.pe, c.version) ==>
           Entry(r, l, p, v) == Entry(LoadFrom(t, lines).value, l, p, v)
  {
    var c := ParseCritLine(line).value.value;
    assert (lines + [line])[..|lines|] == lines;
    var prev := LoadFrom(t, lines).value;
    PutAllKeeps(Put(prev, c.loc, c.pe, c.version, "Path", c.path), c.loc, c.pe, c.version, c.attrs, "Path");
  }

  /** A line written as `LOC.PE.VER.Q=path;key=value` reads back as exactly
      those parts, when none of them holds a separator. */
  lemma CritLineRoundTrip(loc: string, pe: string, ver: string, q: string, path: string, k: string, v: string)
    requires |loc| > 0 && loc[0] !in SkipChars
    requires '.' !in loc && '.' !in pe && '.' !in ver && '.' !in q
    requires '=' !in loc && '=' !in pe && '=' !in ver && '=' !in q && '=' !in path && '=' !in k && '=' !in v
    requires ';' !in loc && ';' !in pe && ';' !in ver && ';' !in q && ';' !in path && ';' !in k && ';' !in v
    ensures ParseCritLine(loc + "." + pe + "." + ver + "." + q + "=" + path + ";" + k + "=" + v + "\n")
            == Ok(Some(CritLine(loc, pe, ver, path, [(k, v)])))
  {
    var id := loc + "." + pe + "." + ver + "." + q;
    SplitFour(loc, pe, ver, q, '.');
    CritBodySplits(id, path, k, v);
    AttrPair(k, v);
    CritLineOf(id + "=" + path + ";" + k + "=" + v, id, q, path, k, v,
               CritLine(loc, pe, ver, path, [(k, v)]));
  }

  /** The `=` and `;` fields of a criteria line's body. */
  lemma CritBodySplits(id: string, path: string, k: string, v: string)
    requires '=' !in id && '=' !in path && '=' !in k && '=' !in v
    requires ';' !in id && ';' !in path && ';' !in k && ';' !in v
    ensures var body := id + "=" + path + ";" + k + "=" + v;
      && Split(body, "=") == [id, path + ";" + k, v]
      && Split(path + ";" + k, ";") == [path, k]
      && Split(body, ";") == [id + "=" + path, k + "=" + v]
  {
    var mid := path + ";" + k;
    assert '=' !in mid;
    SplitThree(id, mid, v, '=');
    SplitTwo(path, k, ';');
    var left, right := id + "=" + path, k + "=" + v;
    assert ';' !in left && ';' !in right;
    SplitTwo(left, right, ';');
    Regroup(id, path, k, v);
  }

  lemma Regroup(id: string, path: string, k: string, v: string)
    ensures id + "=" + path + ";" + k + "=" + v == id + ['='] + (path + ";" + k) + ['='] + v
    ensures id + "=" + path + ";" + k + "=" + v == (id + "=" + path) + [';'] + (k + "=" + v)
  {
  }

  /** A single `key=value` segment gives its pair. */
  lemma AttrPair(k: string, v: string)
    requires '=' !in k && '=' !in v
    ensures ParseAttrs([k + "=" + v]) == Ok([(k, v)])
  {
    var seg := k + "=" + v;
    SplitTwo(k, v, '=');
    assert Split(seg, "=") == [k, v];
    assert Contains(seg, "=") by {
      if !Contains(seg, "=") { SplitNoSep(seg, "="); }
    }
    assert SecondField(seg, "=") == Ok(v);
    assert [seg][..0] == [];
    assert ParseAttrs([seg][..0]) == Ok([]);
    assert [] + [(k, v)] == [(k, v)];
  }

  /** Reading a line whose fields are known. */
  lemma CritLineOf(body: string, id: string, q: string, path: string, k: string, v: string, c: CritLine)
    requires |body| > 0 && body[0] !in SkipChars
    requires Split(body, "=") == [id, path + ";" + k, v]
    requires Split(id, ".") == [c.loc, c.pe, c.version, q]
    requires Split(path + ";" + k, ";") == [path, k] && c.path == path
    requires |Split(body, ";")| == 2 && Split(body, ";")[1] == k + "=" + v
    requires ParseAttrs([k + "=" + v]) == Ok(c.attrs)
    ensures ParseCritLine(body + "\n") == Ok(Some(c))
  {
    var line := body + "\n";
    assert line[..|line| - 1] == body;
    assert Split(body, ";")[1..] == [k + "=" + v];
    assert Contains(body, "=") by {
      if !Contains(body, "=") { SplitNoSep(body, "="); }
    }
  }

  lemma SplitTwo(a: string, b: string, c: char)
    requires c !in a && c !in b
    ensures Split(a + [c] + b, [c]) == [a, b]
  {
    assert forall j :: 0 <= j < |a| ==> a[j] != c;
    SplitCharFirst(a, c, b);
    NoCharSplit(b, c);
  }

  lemma SplitThree(a: string, b: string, d: string, c: char)
    requires c !in a && c !in b && c !in d
    ensures Split(a + [c] + b + [c] + d, [c]) == [a, b, d]
  {
    assert a + [c] + b + [c] + d == a + [c] + (b + [c] + d);
    assert forall j :: 0 <= j < |a| ==> a[j] != c;
    SplitCharFirst(a, c, b + [c] + d);
    SplitTwo(b, d, c);
  }

  lemma SplitFour(a: string, b: string, d: string, e: string, c: char)
    requires c !in a && c !in b && c !in d && c !in e
    ensures Split(a + [c] + b + [c] + d + [c] + e, [c]) == [a, b, d, e]
  {
    assert a + [c] + b + [c] + d + [c] + e == a + [c] + (b + [c] + d + [c] + e);
    assert forall j :: 0 <= j < |a| ==> a[j] != c;
    SplitCharFirst(a, c, b + [c] + d + [c] + e);
    SplitThree(b, d, e, c);
  }

  /** Setting attributes whose keys differ from `key` keeps `key`'s value. */
  lemma {:induction false} PutAllKeeps(t: CritTable, loc: string, pe: string, ver: string,
                                       kvs: seq<(string, string)>, key: string)
    requires Entry(t, loc, pe, ver).Some? && key in Entry(t, loc, pe, ver).value
    ensures (forall i :: 0 <= i < |kvs| ==> kvs[i].0 != key) ==>
      Entry(PutAll(t, loc, pe, ver, kvs), loc, pe, ver).value[key] == Entry(t, loc, pe, ver).value[key]
    decreases |kvs|
  {
    if |kvs| > 0 {
      PutAllKeeps(t, loc, pe, ver, kvs[..|kvs| - 1], key);
    }
  }
}
