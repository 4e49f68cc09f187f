/** The alias reader of the criteria-file importer (`parse_crit_file`):
    each line `alias = time-series id ; second alias` of a `.crit` file
    becomes one record pairing the time-series id with the alias
    `alias:second alias`. The line shape is the regular expression
    `([^=]+)=([^;]+);(.+)`, matched at the start of the stripped line.
 */
module CritImport {
  import opened Wrappers
  import opened PyText
  import opened Numbers

  datatype AliasEntry = AliasEntry(alias: string, tsId: string)

  /** Comment lines (a '#' in the first column) and blank lines are
      skipped; a '#' after leading blanks is not a comment. */
  predicate Skipped(line: string) {
    StartsWith(line, "#") || Strip(line) == ""
  }

  /** The longest run at the start of `s` without '\n' (what `.+` takes). */
  function LineRun(s: string): (r: string)
    ensures |r| <= |s| && r == s[..|r|]
    ensures forall k :: 0 <= k < |r| ==> r[k] != '\n'
    ensures |r| < |s| ==> s[|r|] == '\n'
    decreases |s|
  {
    if |s| == 0 || s[0] == '\n' then "" else [s[0]] + LineRun(s[1..])
  }

  /** The three groups of the pattern on `s`, None when it does not match:
      group 1 runs to the first '=' and is not empty, group 2 runs from there
      to the next ';' and is not empty, group 3 is the non-empty rest of the
      line after that ';'. */
  function Groups(s: string): (r: Option<(string, string, string)>)
    ensures r.Some? ==>
      var (a, b, c) := r.value;
      && |a| > 0 && |b| > 0 && |c| > 0
      && '=' !in a && ';' !in b && '\n' !in c
      && StartsWith(s, a + "=" + b + ";" + c)
      && (|a| + |b| + |c| + 2 < |s| ==> s[|a| + |b| + |c| + 2] == '\n')
  {
    match IndexOf(s, '=')
    case None => None
    case Some(i) =>
      if i == 0 then None
      else
        var rest := s[i + 1..];
        match IndexOf(rest, ';')
        case None => None
        case Some(j) =>
          if j == 0 then None
          else
            var c := LineRun(rest[j + 1..]);
            if c == "" then None
            else
              GroupsSplit(s, i, j, c);
              Some((s[..i], rest[..j], c))
  }

  /** The three groups and their separators spell out a prefix of `s`. */
  lemma GroupsSplit(s: string, i: nat, j: nat, c: string)
    requires i < |s| && s[i] == '='
    requires j < |s[i + 1..]| && s[i + 1..][j] == ';'
    requires |c| <= |s[i + 1..][j + 1..]| && c == s[i + 1..][j + 1..][..|c|]
    ensures s[..i] + "=" + s[i + 1..][..j] + ";" + c == s[..i + j + 2 + |c|]
    ensures i + j + 2 + |c| < |s| ==> s[i + j + 2 + |c|] == s[i + 1..][j + 1..][|c|]
  {
    var rest := s[i + 1..];
    assert s[..i + j + 2 + |c|] == s[..i] + [s[i]] + rest[..j] + [rest[j]] + rest[j + 1..][..|c|];
  }

  /** One line: None for a skipped or non-matching line, otherwise the
      stripped groups. */
  function ParseAliasLine(line: string): (r: Option<AliasEntry>)
    ensures Skipped(line) ==> r.None?
    ensures !Skipped(line) ==> (r.Some? <==> Groups(Strip(line)).Some?)
    ensures r.Some? ==> Contains(r.value.alias, ":")
  {
    if Skipped(line) then None
    else
      match Groups(Strip(line))
      case None => None
      case Some((a, b, c)) =>
        var alias := Strip(a) + ":" + Strip(c);
        assert OccursAt(alias, ":", |Strip(a)|);
        Some(AliasEntry(alias, Strip(b)))
  }

  /** `parse_crit_file` over the file's lines. */
  function ParseCritFile(lines: seq<string>): (r: seq<AliasEntry>)
    ensures |r| <= |lines|
    decreases |lines|
  {
    if |lines| == 0 then []
    else
      var init := ParseCritFile(lines[..|lines| - 1]);
      match ParseAliasLine(lines[|lines| - 1])
      case None => init
      case Some(e) => init + [e]
  }

  /** The records of two files read one after the other are the records of
      each: one record per matching line, in line order. */
  lemma {:induction false} ParseCritFileAppend(a: seq<string>, b: seq<string>)
    ensures ParseCritFile(a + b) == ParseCritFile(a) + ParseCritFile(b)
    decreases |b|
  {
    if |b| > 0 {
      var b0 := b[..|b| - 1];
      ParseCritFileAppend(a, b0);
      assert (a + b)[..|a + b| - 1] == a + b0;
      assert (a + b)[|a + b| - 1] == b[|b| - 1];
    } else {
      assert a + b == a;
    }
  }

  /** A single line gives its record, or nothing. */
  lemma ParseCritFileOne(line: string)
    ensures ParseCritFile([line]) == match ParseAliasLine(line) case None => [] case Some(e) => [e]
  {
    assert [line][..0] == [];
  }

  /** A line written as `alias=id;second` from clean parts reads back as
      those parts. */
  lemma AliasLineRoundTrip(a: string, t: string, b: string)
    requires |a| > 0 && |t| > 0 && |b| > 0
    requires Strip(a) == a && Strip(t) == t && Strip(b) == b
    requires '=' !in a && ';' !in t && '\n' !in b && a[0] != '#'
    ensures ParseAliasLine(a + "=" + t + ";" + b) == Some(AliasEntry(a + ":" + b, t))
  {
    var s := a + "=" + t + ";" + b;
    CleanLine(a, t, b);
    GroupsOfParts(a, t, b);
    ParseOfGroups(s, a, t, b);
  }

  /** Such a line is its own stripped form and not a comment. */
  lemma CleanLine(a: string, t: string, b: string)
    requires |a| > 0 && |b| > 0 && a[0] != '#'
    requires !IsSpace(a[0]) && !IsSpace(b[|b| - 1])
    ensures var s := a + "=" + t + ";" + b; Strip(s) == s && !StartsWith(s, "#") && Strip(s) != ""
  {
    var s := a + "=" + t + ";" + b;
    LineEnds(a, t, b);
    StripNoSpaceEnds(s);
    NoHash(s);
  }

  lemma NoHash(s: string)
    requires |s| > 0 && s[0] != '#'
    ensures !StartsWith(s, "#")
  {
    assert s[..1] == [s[0]];
  }

  lemma LineEnds(a: string, t: string, b: string)
    requires |a| > 0 && |b| > 0
    ensures var s := a + "=" + t + ";" + b; s[0] == a[0] && s[|s| - 1] == b[|b| - 1]
  {
  }

  lemma ParseOfGroups(line: string, a: string, t: string, b: string)
    requires !StartsWith(line, "#") && Strip(line) != "" && Groups(Strip(line)) == Some((a, t, b))
    ensures ParseAliasLine(line) == Some(AliasEntry(Strip(a) + ":" + Strip(b), Strip(t)))
  {
  }

  lemma GroupsOfParts(a: string, t: string, b: string)
    requires |a| > 0 && |t| > 0 && |b| > 0
    requires '=' !in a && ';' !in t && '\n' !in b
    ensures Groups(a + "=" + t + ";" + b) == Some((a, t, b))
  {
    MarkedLine(a, t, b);
    GroupsOfMarked(a, t, b);
  }

  lemma MarkedLine(a: string, t: string, b: string)
    ensures a + "=" + t + ";" + b == a + ['='] + (t + [';'] + b)
  {
  }

  lemma GroupsOfMarked(a: string, t: string, b: string)
    requires |a| > 0 && |t| > 0 && |b| > 0
    requires '=' !in a && ';' !in t && '\n' !in b
    ensures Groups(a + ['='] + (t + [';'] + b)) == Some((a, t, b))
  {
    var r := t + [';'] + b;
    var s := a + ['='] + r;
    IndexAfter(a, '=', r);
    AroundMark(a, '=', r);
    IndexAfter(t, ';', b);
    AroundMark(t, ';', b);
    LineRunWhole(b);
    GroupsAt(s, |a|, |t|);
  }

  /** `Groups` once the two separators are located. */
  lemma GroupsAt(s: string, i: nat, j: nat)
    requires IndexOf(s, '=') == Some(i) && i > 0 && i < |s|
    requires IndexOf(s[i + 1..], ';') == Some(j) && j > 0 && j < |s[i + 1..]|
    requires LineRun(s[i + 1..][j + 1..]) != ""
    ensures Groups(s) == Some((s[..i], s[i + 1..][..j], LineRun(s[i + 1..][j + 1..])))
  {
  }

  /** What lies before and after a marked position. */
  lemma AroundMark(a: string, c: char, b: string)
    ensures (a + [c] + b)[..|a|] == a && (a + [c] + b)[|a| + 1..] == b
  {
  }

  /** The first `c` in `a + [c] + b`, when `a` has none, is at `|a|`. */
  lemma IndexAfter(a: string, c: char, b: string)
    requires c !in a
    ensures IndexOf(a + [c] + b, c) == Some(|a|)
  {
    var s := a + [c] + b;
    assert s[|a|] == c;
    assert forall k :: 0 <= k < |a| ==> s[k] == a[k];
  }

  lemma {:induction false} LineRunWhole(s: string)
    requires '\n' !in s
    ensures LineRun(s) == s
    decreases |s|
  {
    if |s| > 0 {
      LineRunWhole(s[1..]);
      assert s == [s[0]] + s[1..];
    }
  }
}
