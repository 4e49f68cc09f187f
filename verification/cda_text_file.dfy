/** The multi-series text reader of the CSV loader (`CdaTextFile.py`): a
    file holds series one after the other, each opened by a `Begin Header`
    line, with `key=value` header lines, an `End Header` line, a column
    title line, and `time,value` data lines.
 */
module CdaTextFile {
  import opened Wrappers
  import opened PyText
  import opened Numbers
  import opened TextFiles

  /** One value: time in milliseconds, value, quality flag. */
  datatype Point = Point(t: int, v: real, q: int)

  /** The series record `read_ts` builds. */
  datatype Ts = Ts(name: string, officeId: string, units: string, values: seq<Point>)

  const BeginHeader := "Begin Header"
  const EndHeader := "End Header"

  // ---------------------------------------------------------------------
  // Data lines (`get_ts_values`)
  // ---------------------------------------------------------------------

  /** One data line: exactly two comma fields (ValueError otherwise), the
      time read by `parseTime` (`strptime` and the local-time `timestamp`;
      None when it raises ValueError), the value by `float`, quality 0. */
  function ValuePoint(line: string, parseTime: string -> Option<int>): (r: Result<Point>)
    ensures r.Ok? <==> |Split(line, ",")| == 2 && parseTime(Split(line, ",")[0]).Some? && ParseFloat(Split(line, ",")[1]).Some?
    ensures r.Ok? ==> r.value == Point(parseTime(Split(line, ",")[0]).value, ParseFloat(Split(line, ",")[1]).value, 0)
    ensures r.Fail? ==> r.fault == ValueError
  {
    var fields := Split(line, ",");
    if |fields| != 2 then Fail(ValueError)
    else
      var t :- Need(parseTime(fields[0]), ValueError);
      var v :- Need(ParseFloat(fields[1]), ValueError);
      Ok(Point(t, v, 0))
  }

  /** The data lines in order; the first bad line raises. */
  function Points(lines: seq<string>, parseTime: string -> Option<int>): (r: Result<seq<Point>>)
    ensures r.Ok? <==> forall i :: 0 <= i < |lines| ==> ValuePoint(lines[i], parseTime).Ok?
    ensures r.Ok? ==> |r.value| == |lines|
    ensures r.Ok? ==> forall i :: 0 <= i < |lines| ==> r.value[i] == ValuePoint(lines[i], parseTime).value
    ensures r.Ok? ==> forall i :: 0 <= i < |r.value| ==> r.value[i].q == 0
    ensures r.Fail? ==> r.fault == ValueError
  {
    MapAll(lines, l => ValuePoint(l, parseTime))
  }

  /** `get_ts_values`: no values without an `End Header` line; otherwise the
      lines from two after it (the column titles are skipped) to the end. */
  function GetTsValues(tf: TextFile, parseTime: string -> Option<int>): (r: Result<seq<Point>>)
    ensures FindLine(tf, EndHeader) == -1 ==> r == Ok([])
    ensures FindLine(tf, EndHeader) != -1 ==>
      (r.Ok? <==> forall i :: FindLine(tf, EndHeader) + 2 <= i < |tf.lines| ==> ValuePoint(tf.lines[i], parseTime).Ok?)
    ensures r.Ok? && FindLine(tf, EndHeader) != -1 ==>
      |r.value| == if FindLine(tf, EndHeader) + 2 <= |tf.lines| then |tf.lines| - FindLine(tf, EndHeader) - 2 else 0
    ensures r.Ok? ==> forall i :: 0 <= i < |r.value| ==>
      r.value[i] == ValuePoint(tf.lines[FindLine(tf, EndHeader) + 2 + i], parseTime).value
    ensures r.Fail? ==> r.fault == ValueError
  {
    var idx1 := FindLine(tf, EndHeader);
    if idx1 < 0 then Ok([])
    else Points(Drop(tf.lines, idx1 + 2), parseTime)
  }

  /** The header and the column-title line carry no values. */
  lemma ValuesAfterTitles(tf: TextFile, parseTime: string -> Option<int>)
    requires FindLine(tf, EndHeader) != -1
    requires GetTsValues(tf, parseTime).Ok?
    ensures |GetTsValues(tf, parseTime).value| == if FindLine(tf, EndHeader) + 2 <= |tf.lines| then |tf.lines| - FindLine(tf, EndHeader) - 2 else 0
  {
  }

  // ---------------------------------------------------------------------
  // One series (`read_ts`)
  // ---------------------------------------------------------------------

  /** `read_ts`: only GMT series are read (ValueError otherwise, also when
      the timezone line is missing); name, office and units come from the
      header, "" when absent. */
  function ReadTs(tf: TextFile, parseTime: string -> Option<int>): (r: Result<Ts>)
    ensures r.Ok? <==> Lower(GetValue(tf, "timezone")) == "gmt" && GetTsValues(tf, parseTime).Ok?
    ensures r.Ok? ==> r.value == Ts(GetValue(tf, "TimeSeriesID"), GetValue(tf, "office"), GetValue(tf, "units"),
      GetTsValues(tf, parseTime).value)
    ensures r.Fail? ==> r.fault == ValueError
  {
    var office := GetValue(tf, "office");
    var timezone := GetValue(tf, "timezone");
    var units := GetValue(tf, "units");
    var tsid := GetValue(tf, "TimeSeriesID");
    if Lower(timezone) != "gmt" then Fail(ValueError)
    else
      var values :- GetTsValues(tf, parseTime);
      Ok(Ts(tsid, office, units, values))
  }

  /** A series without a timezone line is refused. */
  lemma NoTimezoneRefused(tf: TextFile, parseTime: string -> Option<int>)
    requires forall j :: 0 <= j < |tf.lines| ==> !StartsWith(tf.lines[j], "timezone=")
    ensures ReadTs(tf, parseTime) == Fail(ValueError)
  {
    assert GetValue(tf, "timezone") == "";
  }

  /** Any capitalisation of GMT is accepted. */
  lemma GmtAnyCase(tf: TextFile, parseTime: string -> Option<int>, rest: seq<string>)
    requires tf.lines == ["timezone=GMT"] + rest || tf.lines == ["timezone=gmt"] + rest || tf.lines == ["timezone=Gmt"] + rest
    ensures ReadTs(tf, parseTime).Ok? <==> GetTsValues(tf, parseTime).Ok?
  {
    var v := GetValue(tf, "timezone");
    GetValueRoundTrip("timezone", tf.lines[0][9..], rest);
    assert tf.lines[0] == "timezone" + "=" + tf.lines[0][9..];
    assert Lower(v) == "gmt";
  }

  // ---------------------------------------------------------------------
  // Splitting the file into series (`get_time_series_list`)
  // ---------------------------------------------------------------------

  /** The last line of each block: one before the next marker, and the last
      line of the file for the last block. */
  function Ends(idxs: seq<nat>, n: nat): (r: seq<int>)
    ensures |r| == |idxs|
    ensures forall i {:trigger r[i]} :: 0 <= i < |idxs| ==> r[i] == if i + 1 < |idxs| then idxs[i + 1] - 1 else n - 1
  {
    seq(|idxs|, i requires 0 <= i < |idxs| => if i + 1 < |idxs| then idxs[i + 1] - 1 else n - 1)
  }

  /** The blocks: from each `Begin Header` line through its end line. */
  function Blocks(tf: TextFile): (r: seq<TextFile>)
    ensures |r| == |FindAll(tf, BeginHeader)|
  {
    var idxs := FindAll(tf, BeginHeader);
    var ends := Ends(idxs, |tf.lines|);
    seq(|idxs|, i requires 0 <= i < |idxs| => SubsetAsTextFile(tf, idxs[i], ends[i]))
  }

  /** Where block `i` stops: the next marker, or the end of the file. */
  function Next(idxs: seq<nat>, i: nat, n: nat): nat
    requires i < |idxs|
  {
    if i + 1 < |idxs| then idxs[i + 1] else n
  }

  /** Block `i` runs from its marker up to the next marker (or the end of
      the file). */
  lemma BlockLines(tf: TextFile, i: nat)
    requires i < |Blocks(tf)|
    ensures var idxs := FindAll(tf, BeginHeader);
      idxs[i] < Next(idxs, i, |tf.lines|) <= |tf.lines| &&
      Blocks(tf)[i].lines == tf.lines[idxs[i]..Next(idxs, i, |tf.lines|)]
  {
    var idxs := FindAll(tf, BeginHeader);
    assert Marks(idxs, |tf.lines|);
    BlockAt(tf, idxs, i);
  }

  lemma BlockAt(tf: TextFile, idxs: seq<nat>, i: nat)
    requires Marks(idxs, |tf.lines|) && i < |idxs|
    ensures var n := |tf.lines|;
      idxs[i] < Next(idxs, i, n) <= n &&
      SubsetAsTextFile(tf, idxs[i], Ends(idxs, n)[i]).lines == tf.lines[idxs[i]..Next(idxs, i, n)]
  {
    if i + 1 < |idxs| {
      assert idxs[i] < idxs[i + 1];
    }
  }

  /** Strictly increasing positions inside a sequence of length `n`. */
  predicate Marks(idxs: seq<nat>, n: nat) {
    (forall a, b :: 0 <= a < b < |idxs| ==> idxs[a] < idxs[b]) &&
    (forall a :: 0 <= a < |idxs| ==> idxs[a] < n)
  }

  /** The pieces of `s` from each mark to the next (or to the end). */
  function Pieces<T>(s: seq<T>, idxs: seq<nat>): (r: seq<seq<T>>)
    requires Marks(idxs, |s|)
    ensures |r| == |idxs|
    ensures forall i {:trigger r[i]} :: 0 <= i < |idxs| ==> idxs[i] < Next(idxs, i, |s|) <= |s| && r[i] == s[idxs[i]..Next(idxs, i, |s|)]
  {
    seq(|idxs|, i requires 0 <= i < |idxs| => s[idxs[i]..Next(idxs, i, |s|)])
  }

  /** The pieces read one after the other are `s` from the first mark on. */
  lemma {:induction false} PiecesCover<T>(s: seq<T>, idxs: seq<nat>, k: nat)
    requires Marks(idxs, |s|)
    requires 1 <= k <= |idxs|
    ensures idxs[0] <= Next(idxs, k - 1, |s|)
    ensures Flatten(Pieces(s, idxs)[..k]) == s[idxs[0]..Next(idxs, k - 1, |s|)]
    decreases k
  {
    var ps := Pieces(s, idxs);
    if k == 1 {
      FlattenOne(ps[..1]);
    } else {
      PiecesCover(s, idxs, k - 1);
      assert ps[..k] == ps[..k - 1] + [ps[k - 1]];
      assert idxs[0] <= idxs[k - 1];
      CoverStep(ps[..k - 1], ps[k - 1], s, idxs[0], idxs[k - 1], Next(idxs, k - 1, |s|));
    }
  }

  lemma FlattenOne<T>(gs: seq<seq<T>>)
    requires |gs| == 1
    ensures Flatten(gs) == gs[0]
  {
    assert gs[..0] == [];
  }

  lemma CoverStep<T>(init: seq<seq<T>>, last: seq<T>, s: seq<T>, a: nat, b: nat, c: nat)
    requires a <= b <= c <= |s|
    requires Flatten(init) == s[a..b] && last == s[b..c]
    ensures Flatten(init + [last]) == s[a..c]
  {
    FlattenSnoc(init, last);
    SliceJoin(s, a, b, c);
  }

  lemma SliceJoin<T>(s: seq<T>, a: nat, b: nat, c: nat)
    requires a <= b <= c <= |s|
    ensures s[a..b] + s[b..c] == s[a..c]
  {
  }

  /** A piece holds only its own mark's element among the marked ones. */
  lemma PieceMarks<T>(s: seq<T>, idxs: seq<nat>, x: T, i: nat)
    requires Marks(idxs, |s|) && i < |idxs|
    requires forall j :: 0 <= j < |s| && s[j] == x ==> j in idxs
    ensures forall j :: 0 < j < |Pieces(s, idxs)[i]| ==> Pieces(s, idxs)[i][j] != x
  {
    var p := Pieces(s, idxs)[i];
    forall j | 0 < j < |p|
      ensures p[j] != x
    {
      var k := idxs[i] + j;
      assert p[j] == s[k];
      Unmarked(idxs, |s|, i, k);
    }
  }

  /** A position strictly inside a piece is not a mark. */
  lemma Unmarked(idxs: seq<nat>, n: nat, i: nat, k: nat)
    requires Marks(idxs, n) && i < |idxs|
    requires idxs[i] < k < Next(idxs, i, n)
    ensures k !in idxs
  {
    forall a | 0 <= a < |idxs|
      ensures idxs[a] != k
    {
      if a < i {
        assert idxs[a] < idxs[i];
      } else if a > i {
        assert a == i + 1 || idxs[i + 1] < idxs[a];
      }
    }
  }

  /** The block texts are the pieces of the file at its markers. */
  lemma BlockPieces(tf: TextFile)
    ensures Marks(FindAll(tf, BeginHeader), |tf.lines|)
    ensures BlockTexts(tf) == Pieces(tf.lines, FindAll(tf, BeginHeader))
  {
    var idxs := FindAll(tf, BeginHeader);
    forall i | 0 <= i < |idxs|
      ensures BlockTexts(tf)[i] == Pieces(tf.lines, idxs)[i]
    {
      BlockLines(tf, i);
    }
  }

  /** Each block starts with its marker and holds no other. */
  lemma BlockMarkers(tf: TextFile, i: nat)
    requires i < |Blocks(tf)|
    ensures |Blocks(tf)[i].lines| > 0 && Blocks(tf)[i].lines[0] == BeginHeader
    ensures forall j :: 0 < j < |Blocks(tf)[i].lines| ==> Blocks(tf)[i].lines[j] != BeginHeader
  {
    BlockPieces(tf);
    PieceMarks(tf.lines, FindAll(tf, BeginHeader), BeginHeader, i);
    assert BlockTexts(tf)[i] == Blocks(tf)[i].lines;
  }

  /** The blocks, read one after the other, are the file from the first
      marker on: nothing after it is lost or read twice. */
  lemma BlocksCover(tf: TextFile)
    requires |Blocks(tf)| > 0
    ensures Flatten(BlockTexts(tf)) == tf.lines[FindAll(tf, BeginHeader)[0]..]
  {
    BlockPieces(tf);
    PiecesAll(tf.lines, FindAll(tf, BeginHeader));
  }

  lemma PiecesAll<T>(s: seq<T>, idxs: seq<nat>)
    requires Marks(idxs, |s|) && |idxs| > 0
    ensures Flatten(Pieces(s, idxs)) == s[idxs[0]..]
  {
    PiecesCover(s, idxs, |idxs|);
    assert Pieces(s, idxs)[..|idxs|] == Pieces(s, idxs);
  }

  function BlockTexts(tf: TextFile): (r: seq<seq<string>>)
    ensures |r| == |Blocks(tf)|
    ensures forall i :: 0 <= i < |r| ==> r[i] == Blocks(tf)[i].lines
  {
    var bs := Blocks(tf);
    seq(|bs|, i requires 0 <= i < |bs| => bs[i].lines)
  }

  /** A file without markers has no series; lines before the first marker
      belong to none. */
  lemma BlocksNone(tf: TextFile)
    ensures |Blocks(tf)| == 0 <==> BeginHeader !in tf.lines
    ensures |Blocks(tf)| > 0 ==> forall j :: 0 <= j < FindAll(tf, BeginHeader)[0] ==> tf.lines[j] != BeginHeader
  {
    FindAllStartsWithFind(tf, BeginHeader);
  }

  /** `get_time_series_list` over the blocks, each read by `read`: a
      block that reads with values is kept, one without values is counted
      as an error; a block that does not read raises. */
  function Collect(blocks: seq<TextFile>, read: TextFile -> Result<Ts>): (r: Result<(seq<Ts>, nat)>)
    ensures r.Ok? ==> |r.value.0| + r.value.1 == |blocks|
    ensures r.Ok? ==> forall i :: 0 <= i < |r.value.0| ==> |r.value.0[i].values| > 0
    ensures r.Ok? <==> forall i :: 0 <= i < |blocks| ==> read(blocks[i]).Ok?
    decreases |blocks|
  {
    if |blocks| == 0 then Ok(([], 0))
    else
      var init := blocks[..|blocks| - 1];
      assert forall i :: 0 <= i < |init| ==> init[i] == blocks[i];
      match Collect(init, read)
      case Fail(e) => Fail(e)
      case Ok((kept, errors)) =>
        match read(blocks[|blocks| - 1])
        case Fail(e) => Fail(e)
        case Ok(ts) => if |ts.values| > 0 then Ok((kept + [ts], errors)) else Ok((kept, errors + 1))
  }

  /** The series of the blocks that read and have values, in block order:
      the reference `Collect` is held to. */
  function Kept(blocks: seq<TextFile>, read: TextFile -> Result<Ts>): (r: seq<Ts>)
    decreases |blocks|
  {
    if |blocks| == 0 then []
    else
      var first := read(blocks[0]);
      (if first.Ok? && |first.value.values| > 0 then [first.value] else []) + Kept(blocks[1..], read)
  }

  /** The blocks that read but have no values. */
  function Empties(blocks: seq<TextFile>, read: TextFile -> Result<Ts>): nat
    decreases |blocks|
  {
    if |blocks| == 0 then 0
    else
      var first := read(blocks[0]);
      (if first.Ok? && |first.value.values| == 0 then 1 else 0) + Empties(blocks[1..], read)
  }

  lemma {:induction false} KeptSnoc(blocks: seq<TextFile>, b: TextFile, read: TextFile -> Result<Ts>)
    ensures var last := read(b);
      && Kept(blocks + [b], read) == Kept(blocks, read) + (if last.Ok? && |last.value.values| > 0 then [last.value] else [])
      && Empties(blocks + [b], read) == Empties(blocks, read) + (if last.Ok? && |last.value.values| == 0 then 1 else 0)
    decreases |blocks|
  {
    var all := blocks + [b];
    if |blocks| == 0 {
      assert all[1..] == [];
    } else {
      assert all[1..] == blocks[1..] + [b];
      KeptSnoc(blocks[1..], b, read);
    }
  }

  /** The walk keeps exactly the series `Kept` lists, in the same order, and
      counts exactly the blocks without values as errors. */
  lemma {:induction false} CollectKept(blocks: seq<TextFile>, read: TextFile -> Result<Ts>)
    requires Collect(blocks, read).Ok?
    ensures Collect(blocks, read).value == (Kept(blocks, read), Empties(blocks, read))
    decreases |blocks|
  {
    if |blocks| > 0 {
      var init, last := blocks[..|blocks| - 1], blocks[|blocks| - 1];
      assert forall i :: 0 <= i < |init| ==> init[i] == blocks[i];
      assert Collect(init, read).Ok?;
      CollectKept(init, read);
      KeptSnoc(init, last, read);
      assert init + [last] == blocks;
      var (kept, errors) := Collect(init, read).value;
      var ts := read(last).value;
      assert Collect(blocks, read) == if |ts.values| > 0 then Ok((kept + [ts], errors)) else Ok((kept, errors + 1));
      assert Collect(blocks, read).value.0 == Kept(blocks, read);
      assert Collect(blocks, read).value.1 == Empties(blocks, read);
    }
  }

  /** `read_ts` with the given clock, as a block reader. */
  function Reader(parseTime: string -> Option<int>): TextFile -> Result<Ts> {
    b => ReadTs(b, parseTime)
  }

  /** The series of a file: the blocks' series that have values, in file
      order. */
  function TimeSeriesList(tf: TextFile, parseTime: string -> Option<int>): (r: Result<seq<Ts>>)
    ensures r.Ok? ==> |r.value| <= |FindAll(tf, BeginHeader)|
    ensures r.Ok? ==> forall i :: 0 <= i < |r.value| ==> |r.value[i].values| > 0
    ensures r.Ok? <==> forall i :: 0 <= i < |Blocks(tf)| ==> ReadTs(Blocks(tf)[i], parseTime).Ok?
    ensures r.Ok? ==> r.value == Kept(Blocks(tf), Reader(parseTime))
  {
    var (kept, _) :- Collect(Blocks(tf), Reader(parseTime));
    CollectKept(Blocks(tf), Reader(parseTime));
    Ok(kept)
  }
}
