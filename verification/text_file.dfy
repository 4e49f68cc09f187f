/** The line store of the CSV time-series loader (`textfile.py`): a text
    file as its list of lines, with exact and prefix lookups, slices, and
    `key=value` lookup.
 */
module TextFiles {
  import opened Wrappers
  import opened PyText

  datatype TextFile = TextFile(lines: seq<string>)

  const LineEnds: set<char> := {'\r', '\n'}

  /** The constructor: given lines are kept as they are; the lines of a
      file (`contents`, as read with their line ends) lose their trailing
      '\r' and '\n' characters; neither raises ValueError. */
  function Make(contents: Option<seq<string>>, lines: Option<seq<string>>): (r: Result<TextFile>)
    ensures lines.Some? ==> r == Ok(TextFile(lines.value))
    ensures lines.None? && contents.Some? ==>
      && r.Ok? && |r.value.lines| == |contents.value|
      && forall i :: 0 <= i < |contents.value| ==>
           && r.value.lines[i] == RStripSet(contents.value[i], LineEnds)
           && (|r.value.lines[i]| > 0 ==> r.value.lines[i][|r.value.lines[i]| - 1] !in LineEnds)
    ensures r.Fail? <==> lines.None? && contents.None?
    ensures r.Fail? ==> r.fault == ValueError
  {
    if lines.Some? then Ok(TextFile(lines.value))
    else if contents.Some? then
      var c := contents.value;
      Ok(TextFile(seq(|c|, i requires 0 <= i < |c| => RStripSet(c[i], LineEnds))))
    else Fail(ValueError)
  }

  /** A line already without line ends is read back unchanged. */
  lemma ReadBack(line: string)
    requires |line| > 0 ==> line[|line| - 1] !in LineEnds
    ensures Make(Some([line + "\n"]), None) == Ok(TextFile([line]))
  {
    var s := line + "\n";
    assert s[..|s| - 1] == line;
    assert RStripSet(s, LineEnds) == RStripSet(line, LineEnds);
    assert RStripSet(line, LineEnds) == line;
    var c := [s];
    assert seq(|c|, i requires 0 <= i < |c| => RStripSet(c[i], LineEnds)) == [line];
  }

  /** `find`: the first index of a line equal to `entry`, or -1. */
  function FindLine(tf: TextFile, entry: string): (r: int)
    ensures r == -1 <==> entry !in tf.lines
    ensures r != -1 ==> 0 <= r < |tf.lines| && tf.lines[r] == entry
    ensures r != -1 ==> forall j :: 0 <= j < r ==> tf.lines[j] != entry
  {
    match IndexOf(tf.lines, entry)
    case Some(i) => i
    case None => -1
  }

  /** `subset`: the half-open slice `lines[start:end]`. */
  function Subset(tf: TextFile, start: int, end: int): (r: seq<string>)
    ensures 0 <= start <= end <= |tf.lines| ==> r == tf.lines[start..end] && |r| == end - start
  {
    Slice(tf.lines, start, end)
  }

  /** `subset_as_textfile`: the inclusive slice `lines[start:end+1]`. */
  function SubsetAsTextFile(tf: TextFile, start: int, end: int): (r: TextFile)
    ensures 0 <= start <= end < |tf.lines| ==> r.lines == tf.lines[start..end + 1]
    ensures 0 <= start <= end < |tf.lines| ==> r.lines[0] == tf.lines[start] && r.lines[|r.lines| - 1] == tf.lines[end]
  {
    TextFile(Slice(tf.lines, start, end + 1))
  }

  /** `find_beginning_with`: the first index of a line with the prefix, or
      -1. */
  function FindBeginningWith(tf: TextFile, text: string): (r: int)
    ensures r == -1 <==> forall j :: 0 <= j < |tf.lines| ==> !StartsWith(tf.lines[j], text)
    ensures r != -1 ==> 0 <= r < |tf.lines| && StartsWith(tf.lines[r], text)
    ensures r != -1 ==> forall j :: 0 <= j < r ==> !StartsWith(tf.lines[j], text)
  {
    FirstPrefixed(tf.lines, text, 0)
  }

  function FirstPrefixed(lines: seq<string>, text: string, k: nat): (r: int)
    requires k <= |lines|
    ensures r == -1 <==> forall j :: k <= j < |lines| ==> !StartsWith(lines[j], text)
    ensures r != -1 ==> k <= r < |lines| && StartsWith(lines[r], text)
    ensures r != -1 ==> forall j :: k <= j < r ==> !StartsWith(lines[j], text)
    decreases |lines| - k
  {
    if k == |lines| then -1
    else if StartsWith(lines[k], text) then k
    else FirstPrefixed(lines, text, k + 1)
  }

  /** `get_value`: the rest of the first line that starts with `text=`, or
      "" when none does. */
  function GetValue(tf: TextFile, text: string): (r: string)
    ensures var i := FindBeginningWith(tf, text + "=");
      i >= 0 ==> tf.lines[i] == text + "=" + r
    ensures FindBeginningWith(tf, text + "=") == -1 ==> r == ""
  {
    var prefix := text + "=";
    var idx := FindBeginningWith(tf, prefix);
    if idx >= 0 then
      var s := tf.lines[idx];
      assert s == prefix + s[|prefix|..];
      s[|prefix|..]
    else ""
  }

  /** A value written as `key=value` in front of any other lines is read
      back. */
  lemma GetValueRoundTrip(k: string, v: string, rest: seq<string>)
    ensures GetValue(TextFile([k + "=" + v] + rest), k) == v
  {
    var tf := TextFile([k + "=" + v] + rest);
    assert StartsWith(tf.lines[0], k + "=");
    assert FindBeginningWith(tf, k + "=") == 0;
  }

  /** `len`. */
  function Len(tf: TextFile): (n: nat)
    ensures n == |tf.lines|
  {
    |tf.lines|
  }

  /** `find_all`: every index of a line equal to `entry`, ascending. */
  function FindAll(tf: TextFile, entry: string): (r: seq<nat>)
    ensures forall a, b :: 0 <= a < b < |r| ==> r[a] < r[b]
    ensures forall a :: 0 <= a < |r| ==> r[a] < |tf.lines| && tf.lines[r[a]] == entry
    ensures forall j :: 0 <= j < |tf.lines| && tf.lines[j] == entry ==> j in r
  {
    FindAllFrom(tf.lines, entry, 0)
  }

  function FindAllFrom(lines: seq<string>, entry: string, k: nat): (r: seq<nat>)
    requires k <= |lines|
    ensures forall a, b :: 0 <= a < b < |r| ==> r[a] < r[b]
    ensures forall a :: 0 <= a < |r| ==> k <= r[a] < |lines| && lines[r[a]] == entry
    ensures forall j :: k <= j < |lines| && lines[j] == entry ==> j in r
    decreases |lines| - k
  {
    if k == |lines| then []
    else
      var rest := FindAllFrom(lines, entry, k + 1);
      if lines[k] == entry then [k] + rest else rest
  }

  /** The first match `find_all` reports is the one `find` reports. */
  lemma FindAllStartsWithFind(tf: TextFile, entry: string)
    ensures |FindAll(tf, entry)| == 0 <==> FindLine(tf, entry) == -1
    ensures |FindAll(tf, entry)| > 0 ==> FindAll(tf, entry)[0] == FindLine(tf, entry)
  {
    var r := FindAll(tf, entry);
    if |r| > 0 {
      assert tf.lines[r[0]] == entry;
      var i := FindLine(tf, entry);
      assert i != -1;
      assert i in r;
    }
  }
}
