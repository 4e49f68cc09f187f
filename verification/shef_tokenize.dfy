/** How the SHEF loader cuts a product into messages (`process_shef`, the
    line loop): a line whose first space-separated word is `.E`, `.ER`, `.A`,
    `.AR` or `.B` opens a message; a line beginning with the same two
    characters as the open message (`.E1`, `.A2`, ...) continues it; any
    other line closes it. The message still open when the lines run out is
    not kept.
 */
module ShefTokenize {
  import opened Wrappers
  import opened PyText

  const HeaderKeys: set<string> := {".E", ".ER", ".A", ".AR", ".B"}

  /** The two-character prefixes a message can have. */
  const MessageKinds: set<string> := {".E", ".A", ".B"}

  /** Messages closed so far, and the open one ("" when none). */
  datatype Scan = Scan(blocks: seq<string>, block: string)

  /** `line.split(' ')[0]`. */
  function HeadWord(line: string): string {
    Split(line, " ")[0]
  }

  /** The closed messages after closing the open one (if any). */
  function Closed(st: Scan): (r: seq<string>)
    ensures st.block == "" ==> r == st.blocks
    ensures st.block != "" ==> r == st.blocks + [st.block]
  {
    if st.block != "" then st.blocks + [st.block] else st.blocks
  }

  /** One turn of the line loop; `line` is as read, with its '\n'. Inside a
      `.B` message a further data line makes the loader call `append` on a
      string (AttributeError), and an empty line fails on `line[0]`. */
  function Step(st: Scan, raw: string): (r: Result<Scan>)
  {
    var line := StripSet(raw, {'\n'});
    if HeadWord(line) in HeaderKeys then Ok(Scan(Closed(st), line))
    else if Take(line, 2) == Take(st.block, 2) then
      Ok(Scan(st.blocks, st.block + Drop(line, |HeadWord(line)|)))
    else if Take(st.block, 2) == ".B" then
      if |line| == 0 then Fail(IndexError)
      else if line[0] != '#' && |line| > 4 then Fail(AttributeError)
      else Ok(st)
    else Ok(Scan(Closed(st), ""))
  }

  function ScanFrom(st: Scan, lines: seq<string>): Result<Scan>
    decreases |lines|
  {
    if |lines| == 0 then Ok(st)
    else
      var st' :- Step(st, lines[0]);
      ScanFrom(st', lines[1..])
  }

  /** The messages the loader decodes, in file order. */
  function Tokenize(lines: seq<string>): (r: Result<seq<string>>)
  {
    var st :- ScanFrom(Scan([], ""), lines);
    Ok(st.blocks)
  }

  // ---------------------------------------------------------------------
  // Every message starts with its kind
  // ---------------------------------------------------------------------

  predicate IsMessage(b: string) {
    |b| >= 2 && b[..2] in MessageKinds
  }

  predicate WellScanned(st: Scan) {
    (forall i :: 0 <= i < |st.blocks| ==> IsMessage(st.blocks[i]))
    && (st.block == "" || IsMessage(st.block))
  }

  lemma KindOfHeader(h: string)
    requires h in HeaderKeys
    ensures |h| >= 2 && h[..2] in MessageKinds
    ensures h[..2] == ".B" <==> h == ".B"
  {
    if h == ".ER" {
      assert h[..2] == ".E";
    } else if h == ".AR" {
      assert h[..2] == ".A";
    } else {
      assert h[..2] == h;
    }
  }

  lemma HeaderIsMessage(line: string)
    requires HeadWord(line) in HeaderKeys
    ensures IsMessage(line)
    ensures line[..2] == ".B" <==> HeadWord(line) == ".B"
  {
    SplitFirstPrefix(line, " ");
    PrefixKind(line, HeadWord(line));
  }

  /** A line that starts with a header key has that key's kind. */
  lemma PrefixKind(line: string, h: string)
    requires h in HeaderKeys && StartsWith(line, h)
    ensures IsMessage(line)
    ensures line[..2] == ".B" <==> h == ".B"
  {
    KindOfHeader(h);
    assert line[..2] == line[..|h|][..2];
  }

  /** Closing the open message keeps every closed one a message. */
  lemma ClosedWell(st: Scan)
    requires WellScanned(st)
    ensures forall i :: 0 <= i < |Closed(st)| ==> IsMessage(Closed(st)[i])
  {
  }

  /** A continuation line appended to the open message keeps its kind. */
  lemma ContinueWell(block: string, line: string, tail: string)
    requires block == "" || IsMessage(block)
    requires Take(line, 2) == Take(block, 2) && |tail| <= |line|
    ensures block + tail == "" || IsMessage(block + tail)
  {
    if block == "" {
      assert |line| == 0;
    } else {
      assert (block + tail)[..2] == block[..2];
    }
  }

  /** One step keeps every message, closed or open, starting with `.E`,
      `.A` or `.B`. */
  lemma StepWellScanned(st: Scan, raw: string)
    requires WellScanned(st)
    ensures Step(st, raw).Ok? ==> WellScanned(Step(st, raw).value)
  {
    var line := StripSet(raw, {'\n'});
    ClosedWell(st);
    if HeadWord(line) in HeaderKeys {
      HeaderIsMessage(line);
    } else if Take(line, 2) == Take(st.block, 2) {
      SplitFirstPrefix(line, " ");
      ContinueWell(st.block, line, Drop(line, |HeadWord(line)|));
    }
  }

  /** Whatever the input, every message handed to the decoders starts with
      `.E`, `.A` or `.B`. */
  lemma {:induction false} ScanWellScanned(st: Scan, lines: seq<string>)
    requires WellScanned(st)
    ensures ScanFrom(st, lines).Ok? ==> WellScanned(ScanFrom(st, lines).value)
    decreases |lines|
  {
    if |lines| > 0 {
      StepWellScanned(st, lines[0]);
      if Step(st, lines[0]).Ok? {
        ScanWellScanned(Step(st, lines[0]).value, lines[1..]);
      }
    }
  }

  lemma TokenizeMessages(lines: seq<string>)
    ensures Tokenize(lines).Ok? ==>
      forall i :: 0 <= i < |Tokenize(lines).value| ==> IsMessage(Tokenize(lines).value[i])
  {
    ScanWellScanned(Scan([], ""), lines);
  }

  // ---------------------------------------------------------------------
  // Products of one-line messages separated by blank lines
  // ---------------------------------------------------------------------

  /** A one-line `.E`/`.A` message header without surrounding newlines. */
  predicate SimpleHeader(h: string) {
    |h| >= 2 && HeadWord(h) in HeaderKeys && HeadWord(h) != ".B"
    && h[0] != '\n' && h[|h| - 1] != '\n'
  }

  /** `[h1, "", h2, "", ..., hn, ""]`. */
  function BlankSeparated(hs: seq<string>): (r: seq<string>)
    ensures |r| == 2 * |hs|
  {
    if |hs| == 0 then [] else [hs[0], ""] + BlankSeparated(hs[1..])
  }

  lemma SimpleHeaderShape(h: string)
    requires SimpleHeader(h)
    ensures StripSet(h, {'\n'}) == h && IsMessage(h) && h[..2] != ".B"
  {
    HeaderIsMessage(h);
    StripSetNoop(h, {'\n'});
  }

  lemma HeaderOpens(bs: seq<string>, h: string)
    requires SimpleHeader(h)
    ensures Step(Scan(bs, ""), h) == Ok(Scan(bs, h))
  {
    SimpleHeaderShape(h);
  }

  /** A blank line closes an open `.E`/`.A` message. */
  lemma BlankCloses(st: Scan)
    requires IsMessage(st.block) && st.block[..2] != ".B"
    ensures Step(st, "") == Ok(Scan(st.blocks + [st.block], ""))
  {
    assert StripSet("", {'\n'}) == "";
    assert Split("", " ") == [""];
    assert Take(st.block, 2) == st.block[..2];
  }

  lemma ScanCons(st: Scan, line: string, rest: seq<string>)
    ensures Step(st, line).Ok? ==> ScanFrom(st, [line] + rest) == ScanFrom(Step(st, line).value, rest)
    ensures Step(st, line).Fail? ==> ScanFrom(st, [line] + rest) == Fail(Step(st, line).fault)
  {
    assert ([line] + rest)[1..] == rest;
  }

  lemma NilAppend<T>(s: seq<T>)
    ensures [] + s == s && s + [] == s
  {
  }

  lemma ConsTwo<T>(x: T, y: T, rest: seq<T>)
    ensures [x, y] + rest == [x] + ([y] + rest)
  {
  }

  /** A header line followed by a blank line contributes exactly that
      message. */
  lemma HeaderThenBlank(bs: seq<string>, h: string, rest: seq<string>)
    requires SimpleHeader(h)
    ensures ScanFrom(Scan(bs, ""), [h, ""] + rest) == ScanFrom(Scan(bs + [h], ""), rest)
  {
    HeaderOpens(bs, h);
    SimpleHeaderShape(h);
    BlankCloses(Scan(bs, h));
    ConsTwo(h, "", rest);
    ScanCons(Scan(bs, ""), h, [""] + rest);
    ScanCons(Scan(bs, h), "", rest);
  }

  /** Every message closed by a blank line reaches the decoders, in order. */
  lemma {:induction false} BlankSeparatedScan(bs: seq<string>, hs: seq<string>)
    requires forall i :: 0 <= i < |hs| ==> SimpleHeader(hs[i])
    ensures ScanFrom(Scan(bs, ""), BlankSeparated(hs)) == Ok(Scan(bs + hs, ""))
    decreases |hs|
  {
    if |hs| == 0 {
      assert bs + hs == bs;
    } else {
      BlankSeparatedScan(bs + [hs[0]], hs[1..]);
      BlankSeparatedStep(bs, hs);
      ConsSplit(bs, hs);
      Rejoin(ScanFrom(Scan(bs, ""), BlankSeparated(hs)), ScanFrom(Scan(bs + [hs[0]], ""), BlankSeparated(hs[1..])),
        bs + [hs[0]] + hs[1..], bs + hs);
    }
  }

  lemma BlankSeparatedStep(bs: seq<string>, hs: seq<string>)
    requires |hs| > 0 && SimpleHeader(hs[0])
    ensures ScanFrom(Scan(bs, ""), BlankSeparated(hs)) == ScanFrom(Scan(bs + [hs[0]], ""), BlankSeparated(hs[1..]))
  {
    assert BlankSeparated(hs) == [hs[0], ""] + BlankSeparated(hs[1..]);
    HeaderThenBlank(bs, hs[0], BlankSeparated(hs[1..]));
  }

  lemma ConsSplit<T>(bs: seq<T>, hs: seq<T>)
    requires |hs| > 0
    ensures bs + [hs[0]] + hs[1..] == bs + hs
  {
  }

  lemma Rejoin(a: Result<Scan>, b: Result<Scan>, x: seq<string>, y: seq<string>)
    requires a == b && b == Ok(Scan(x, "")) && x == y
    ensures a == Ok(Scan(y, ""))
  {
  }

  lemma BlankSeparatedTokenize(hs: seq<string>)
    requires forall i :: 0 <= i < |hs| ==> SimpleHeader(hs[i])
    ensures Tokenize(BlankSeparated(hs)) == Ok(hs)
  {
    BlankSeparatedScan([], hs);
    NilAppend(hs);
  }

  /** As written, the message on the last line of a product is lost when no
      line follows it. */
  lemma LastMessageDropped(hs: seq<string>, last: string)
    requires forall i :: 0 <= i < |hs| ==> SimpleHeader(hs[i])
    requires SimpleHeader(last)
    ensures Tokenize(BlankSeparated(hs) + [last]) == Ok(hs)
  {
    EndsOpen(hs, last);
  }

  /** The scan over blank-separated messages plus a final line ends with
      that line's message still open. */
  lemma EndsOpen(hs: seq<string>, last: string)
    requires forall i :: 0 <= i < |hs| ==> SimpleHeader(hs[i])
    requires SimpleHeader(last)
    ensures ScanFrom(Scan([], ""), BlankSeparated(hs) + [last]) == Ok(Scan(hs, last))
  {
    BlankSeparatedScan([], hs);
    NilAppend(hs);
    ScanSplit(Scan([], ""), BlankSeparated(hs), [last]);
    HeaderOpens(hs, last);
    NilAppend([last]);
    ScanCons(Scan(hs, ""), last, []);
  }

  lemma {:induction false} ScanSplit(st: Scan, a: seq<string>, b: seq<string>)
    ensures ScanFrom(st, a).Ok? ==> ScanFrom(st, a + b) == ScanFrom(ScanFrom(st, a).value, b)
    ensures ScanFrom(st, a).Fail? ==> ScanFrom(st, a + b) == Fail(ScanFrom(st, a).fault)
    decreases |a|
  {
    if |a| == 0 {
      assert a + b == b;
    } else {
      assert (a + b)[0] == a[0];
      assert (a + b)[1..] == a[1..] + b;
      if Step(st, a[0]).Ok? {
        ScanSplit(Step(st, a[0]).value, a[1..], b);
      }
    }
  }

  /** The evidently intended tokenizer: the message still open at the end of
      the product is kept too. */
  function TokenizeAll(lines: seq<string>): (r: Result<seq<string>>)
  {
    var st :- ScanFrom(Scan([], ""), lines);
    Ok(Closed(st))
  }

  /** With the final message closed, nothing is lost: a product that ends on
      a message line yields that message as well. */
  lemma TokenizeAllKeepsLast(hs: seq<string>, last: string)
    requires forall i :: 0 <= i < |hs| ==> SimpleHeader(hs[i])
    requires SimpleHeader(last)
    ensures TokenizeAll(BlankSeparated(hs) + [last]) == Ok(hs + [last])
    ensures TokenizeAll(BlankSeparated(hs)) == Ok(hs)
  {
    EndsOpen(hs, last);
    BlankSeparatedScan([], hs);
    NilAppend(hs);
  }
}
