/** `datetime.strptime` as CPython's `_strptime` carries it out, for the
    directives the loaders use: `%Y %m %d %H %M %S %b %z`, literal
    characters and runs of white space.

    The format becomes a regular expression: each directive an ordered
    alternation (`%m` is `1[0-2]|0[1-9]|[1-9]`), each run of white space
    `\s+`, every other character itself. It is matched, ignoring case,
    from the start of the text by a backtracking engine: each field takes
    its first alternative that lets the rest of the pattern match. Only
    once a match is found must the text end there ("unconverted data
    remains"). So a field can be read with fewer digits than it is
    printed with, when the wider reading leaves a later field nothing to
    match: `strptime("2024011112", "%Y%m%d%H%M")` is 2024-01-11 01:02.
 */
module Strptime {
  import opened Wrappers
  import opened PyText
  import opened Numbers
  import opened Civil

  /** One element of a compiled format. */
  datatype Directive =
    | Year          // %Y: \d\d\d\d
    | Month         // %m: 1[0-2]|0[1-9]|[1-9]
    | Day           // %d: 3[01]|[12]\d|0[1-9]|[1-9]| [1-9]
    | Hour          // %H: 2[0-3]|[0-1]\d|\d
    | Minute        // %M: [0-5]\d|\d
    | Second        // %S: 6[0-1]|[0-5]\d|\d
    | MonthName     // %b: jan|feb|...|dec
    | Zone          // %z: [+-]\d\d:?[0-5]\d(:?[0-5]\d(\.\d{1,6})?)?|Z
    | Lit(c: char)  // any other character of the format
    | Blank         // a run of white space in the format: \s+

  /** A separator character of a format: white space becomes `\s+`. */
  function Sep(c: char): Directive {
    if IsSpace(c) then Blank else Lit(c)
  }

  // ---------------------------------------------------------------------
  // Where each directive can end, in the engine's order of preference
  // ---------------------------------------------------------------------

  /** `[lo0-hi0][lo1-hi1]` at `i`. */
  function Two(s: string, i: nat, lo0: char, hi0: char, lo1: char, hi1: char): (r: seq<nat>)
    ensures r == [] || (r == [i + 2] && i + 2 <= |s|)
  {
    if i + 2 <= |s| && lo0 <= s[i] <= hi0 && lo1 <= s[i + 1] <= hi1 then [i + 2] else []
  }

  /** `[lo-hi]` at `i`. */
  function One(s: string, i: nat, lo: char, hi: char): (r: seq<nat>)
    ensures r == [] || (r == [i + 1] && i + 1 <= |s|)
  {
    if i + 1 <= |s| && lo <= s[i] <= hi then [i + 1] else []
  }

  /** The length of the run of white space from `i`. */
  function SpaceRun(s: string, i: nat): (n: nat)
    requires i <= |s|
    ensures i + n <= |s|
    ensures forall k :: i <= k < i + n ==> IsSpace(s[k])
    ensures i + n < |s| ==> !IsSpace(s[i + n])
    decreases |s| - i
  {
    if i < |s| && IsSpace(s[i]) then 1 + SpaceRun(s, i + 1) else 0
  }

  /** The length of the run of digits from `i`, at most `cap`. */
  function DigitRun(s: string, i: nat, cap: nat): (n: nat)
    requires i <= |s|
    ensures n <= cap && i + n <= |s|
    ensures forall k :: i <= k < i + n ==> IsDigit(s[k])
    ensures n < cap && i + n < |s| ==> !IsDigit(s[i + n])
    decreases cap
  {
    if cap > 0 && i < |s| && IsDigit(s[i]) then 1 + DigitRun(s, i + 1, cap - 1) else 0
  }

  /** The ends a greedy repetition offers, longest first: `hi`, `hi - 1`,
      down to `lo + 1`. */
  function Downfrom(lo: nat, hi: nat): (r: seq<nat>)
    requires lo <= hi
    ensures |r| == hi - lo
    ensures forall k :: 0 <= k < |r| ==> r[k] == hi - k
  {
    seq(hi - lo, k requires 0 <= k < hi - lo => hi - k)
  }

  /** `[0-5]\d` at `q`. */
  predicate LowPair(s: string, q: nat) {
    q + 2 <= |s| && '0' <= s[q] <= '5' && IsDigit(s[q + 1])
  }

  /** `(\.\d{1,6})?` at `v`: the longest fraction first, then none. */
  function FractionEnds(s: string, v: nat): (r: seq<nat>)
    requires v <= |s|
    ensures forall k :: 0 <= k < |r| ==> v <= r[k] <= |s|
    ensures |r| > 0 && r[|r| - 1] == v
  {
    if v < |s| && s[v] == '.' then Downfrom(v + 1, v + 1 + DigitRun(s, v + 1, 6)) + [v]
    else [v]
  }

  /** `[0-5]\d(\.\d{1,6})?` at `q`. */
  function SecondsAt(s: string, q: nat): (r: seq<nat>)
    requires q <= |s|
    ensures forall k :: 0 <= k < |r| ==> q < r[k] <= |s|
  {
    if LowPair(s, q) then FractionEnds(s, q + 2) else []
  }

  /** `(:?[0-5]\d(\.\d{1,6})?)?` at `e`: the seconds with a colon, without
      one, then no seconds at all. */
  function SecondsEnds(s: string, e: nat): (r: seq<nat>)
    requires e <= |s|
    ensures forall k :: 0 <= k < |r| ==> e <= r[k] <= |s|
    ensures |r| > 0 && r[|r| - 1] == e
  {
    (if e < |s| && s[e] == ':' then SecondsAt(s, e + 1) else []) + SecondsAt(s, e) + [e]
  }

  /** `[0-5]\d` and the optional seconds, at `q`. */
  function MinutesAt(s: string, q: nat): (r: seq<nat>)
    requires q <= |s|
    ensures forall k :: 0 <= k < |r| ==> q < r[k] <= |s|
  {
    if LowPair(s, q) then SecondsEnds(s, q + 2) else []
  }

  /** `%z` at `i`: a signed offset (the colon after the hours tried
      first), or a capital `Z`, which is matched with case. */
  function ZoneEnds(s: string, i: nat): (r: seq<nat>)
    requires i <= |s|
    ensures forall k :: 0 <= k < |r| ==> i < r[k] <= |s|
  {
    if i + 3 <= |s| && (s[i] == '+' || s[i] == '-') && IsDigit(s[i + 1]) && IsDigit(s[i + 2]) then
      (if i + 3 < |s| && s[i + 3] == ':' then MinutesAt(s, i + 4) else []) + MinutesAt(s, i + 3)
    else if i < |s| && s[i] == 'Z' then [i + 1]
    else []
  }

  /** Every place directive `d` can end when it starts at `i`, in the
      order the engine tries them. */
  function Ends(d: Directive, s: string, i: nat): (r: seq<nat>)
    requires i <= |s|
    ensures forall k :: 0 <= k < |r| ==> i < r[k] <= |s|
  {
    match d
    case Year => if i + 4 <= |s| && AllDigits(s[i..i + 4]) then [i + 4] else []
    case Month => Two(s, i, '1', '1', '0', '2') + Two(s, i, '0', '0', '1', '9') + One(s, i, '1', '9')
    case Day =>
      Two(s, i, '3', '3', '0', '1') + Two(s, i, '1', '2', '0', '9') + Two(s, i, '0', '0', '1', '9')
      + One(s, i, '1', '9') + Two(s, i, ' ', ' ', '1', '9')
    case Hour => Two(s, i, '2', '2', '0', '3') + Two(s, i, '0', '1', '0', '9') + One(s, i, '0', '9')
    case Minute => Two(s, i, '0', '5', '0', '9') + One(s, i, '0', '9')
    case Second => Two(s, i, '6', '6', '0', '1') + Two(s, i, '0', '5', '0', '9') + One(s, i, '0', '9')
    case MonthName => if i + 3 <= |s| && MonthFromAbbrev(s[i..i + 3]).Some? then [i + 3] else []
    case Zone => ZoneEnds(s, i)
    case Lit(c) => if i < |s| && LowerChar(s[i]) == LowerChar(c) then [i + 1] else []
    case Blank => Downfrom(i, i + SpaceRun(s, i))
  }

  // ---------------------------------------------------------------------
  // Matching
  // ---------------------------------------------------------------------

  /** A match: the text each directive took, and where the match ends. */
  datatype Found = Found(pieces: seq<string>, end: nat)

  /** The first match of `ds` at `i` in the engine's order: each directive
      tries its ends in turn and keeps the first the rest can follow.
      The empty pattern matches without consuming anything, so the match
      need not reach the end of the text. */
  function Match(ds: seq<Directive>, s: string, i: nat): (r: Option<Found>)
    requires i <= |s|
    ensures r.Some? ==> |r.value.pieces| == |ds| && i <= r.value.end <= |s|
    ensures r.Some? && |ds| > 0 ==> i < r.value.end
    decreases |ds|, 1
  {
    if ds == [] then Some(Found([], i)) else Try(ds, s, i, Ends(ds[0], s, i))
  }

  /** The first directive ending at each of `ends` in turn. */
  function Try(ds: seq<Directive>, s: string, i: nat, ends: seq<nat>): (r: Option<Found>)
    requires ds != [] && i <= |s|
    requires forall k :: 0 <= k < |ends| ==> i < ends[k] <= |s|
    ensures r.Some? ==> |r.value.pieces| == |ds| && i < r.value.end <= |s|
    decreases |ds|, 0, |ends|
  {
    if ends == [] then None
    else match Match(ds[1..], s, ends[0])
      case Some(f) => Some(Found([s[i..ends[0]]] + f.pieces, f.end))
      case None => Try(ds, s, i, ends[1..])
  }

  /** The pieces of a successful `strptime`: no match is "time data does
      not match format", a match that stops short "unconverted data
      remains"; both are ValueError. */
  function Scan(ds: seq<Directive>, s: string): (r: Result<seq<string>>)
    ensures r.Ok? <==> Match(ds, s, 0).Some? && Match(ds, s, 0).value.end == |s|
    ensures r.Ok? ==> r.value == Match(ds, s, 0).value.pieces && |r.value| == |ds|
    ensures r.Fail? ==> r.fault == ValueError
  {
    match Match(ds, s, 0)
    case None => Fail(ValueError)
    case Some(f) => if f.end == |s| then Ok(f.pieces) else Fail(ValueError)
  }

  /** `int` of a matched numeric field: its digits, after the leading
      space of a day read as " 5". A matched field always has digits
      there; other text reads as 0. */
  function FieldValue(p: string): (n: nat)
    ensures AllDigits(p) ==> n == DigitsValue(p)
  {
    var digits := if |p| > 0 && p[0] == ' ' then p[1..] else p;
    if AllDigits(digits) then DigitsValue(digits) else 0
  }

  // ---------------------------------------------------------------------
  // How a match is found
  // ---------------------------------------------------------------------

  /** When the first end of the first directive lets the rest match, the
      match takes it. */
  lemma Prefer(ds: seq<Directive>, s: string, i: nat, e: nat)
    requires ds != [] && i <= |s|
    requires |Ends(ds[0], s, i)| > 0 && Ends(ds[0], s, i)[0] == e
    requires Match(ds[1..], s, e).Some?
    ensures Match(ds, s, i)
      == Some(Found([s[i..e]] + Match(ds[1..], s, e).value.pieces, Match(ds[1..], s, e).value.end))
  {
  }

  /** When it does not, the engine goes on to the next end. */
  lemma Fallback(ds: seq<Directive>, s: string, i: nat)
    requires ds != [] && i <= |s|
    requires |Ends(ds[0], s, i)| > 0 && Match(ds[1..], s, Ends(ds[0], s, i)[0]).None?
    ensures Match(ds, s, i) == Try(ds, s, i, Ends(ds[0], s, i)[1..])
  {
  }

  /** The text between consecutive positions (positions out of order,
      which a match never produces, give the empty text). */
  function Pieces(s: string, at: seq<nat>): (r: seq<string>)
    requires |at| > 0
    ensures |r| == |at| - 1
  {
    seq(|at| - 1, k requires 0 <= k < |at| - 1 => Between(s, at[k], at[k + 1]))
  }

  function Between(s: string, i: nat, j: nat): (r: string)
    ensures i <= j <= |s| ==> r == s[i..j]
  {
    if i <= j <= |s| then s[i..j] else ""
  }

  /** Directive `d` starting at `i` prefers to end at `j`. */
  predicate Takes(d: Directive, s: string, i: nat, j: nat)
    requires i <= |s|
  {
    var e := Ends(d, s, i);
    |e| > 0 && e[0] == j
  }

  /** The text is laid out as the format prints it: from each position the
      directive's preferred end is the next position. */
  predicate Laid(ds: seq<Directive>, s: string, at: seq<nat>)
    decreases |ds|
  {
    |at| == |ds| + 1 && at[0] <= |s|
    && (ds != [] ==> Takes(ds[0], s, at[0], at[1]) && Laid(ds[1..], s, at[1..]))
  }

  /** Laying out one more field in front. */
  lemma LaidCons(d: Directive, ds: seq<Directive>, s: string, i: nat, at: seq<nat>)
    requires Laid(ds, s, at) && i <= |s|
    requires Takes(d, s, i, at[0])
    ensures Laid([d] + ds, s, [i] + at)
  {
    assert ([d] + ds)[1..] == ds && ([i] + at)[1..] == at;
  }

  lemma PiecesCons(s: string, at: seq<nat>)
    requires |at| > 1
    ensures Pieces(s, at) == [Between(s, at[0], at[1])] + Pieces(s, at[1..])
  {
    var a, b := Pieces(s, at), [Between(s, at[0], at[1])] + Pieces(s, at[1..]);
    forall k | 0 <= k < |a| ensures a[k] == b[k] {
      if k > 0 {
        assert b[k] == Pieces(s, at[1..])[k - 1];
      }
    }
  }

  /** On such a text every directive takes its preferred end, so the match
      reads the fields exactly as they were laid out, and whatever follows
      them matches as it would on its own. */
  lemma {:induction false} LaidThen(ds: seq<Directive>, rest: seq<Directive>, s: string, at: seq<nat>)
    requires Laid(ds, s, at) && at[|ds|] <= |s| && Match(rest, s, at[|ds|]).Some?
    ensures var f := Match(rest, s, at[|ds|]).value;
      Match(ds + rest, s, at[0]) == Some(Found(Pieces(s, at) + f.pieces, f.end))
    decreases |ds|
  {
    var f := Match(rest, s, at[|ds|]).value;
    if ds == [] {
      assert ds + rest == rest && Pieces(s, at) + f.pieces == f.pieces;
    } else {
      var tail, later := ds[1..], at[1..];
      assert later[|tail|] == at[|ds|];
      LaidThen(tail, rest, s, later);
      var g := Match(tail + rest, s, at[1]).value;
      assert g == Found(Pieces(s, later) + f.pieces, f.end);
      var all := ds + rest;
      TailOfJoin(ds, rest);
      Prefer(all, s, at[0], at[1]);
      assert Match(all, s, at[0]) == Some(Found([s[at[0]..at[1]]] + g.pieces, g.end));
      PiecesCons(s, at);
      Regroup([s[at[0]..at[1]]], Pieces(s, later), f.pieces);
    }
  }

  lemma TailOfJoin<T>(a: seq<T>, b: seq<T>)
    requires a != []
    ensures (a + b)[0] == a[0] && (a + b)[1..] == a[1..] + b
  {
  }

  lemma Regroup<T>(a: seq<T>, b: seq<T>, c: seq<T>)
    ensures a + (b + c) == (a + b) + c
  {
  }

  /** A text laid out from its start to its end is what `strptime` reads,
      piece by piece. */
  lemma LaidScan(ds: seq<Directive>, s: string, at: seq<nat>)
    requires Laid(ds, s, at) && at[0] == 0 && at[|ds|] == |s|
    ensures Scan(ds, s) == Ok(Pieces(s, at))
  {
    LaidThen(ds, [], s, at);
    assert ds + [] == ds && Pieces(s, at) + [] == Pieces(s, at);
  }

  /** Two laid-out stretches, the second starting where the first ends and
      ending with the text, are read piece by piece. */
  lemma ScanJoin(ds: seq<Directive>, es: seq<Directive>, s: string, at: seq<nat>, bt: seq<nat>)
    requires Laid(ds, s, at) && Laid(es, s, bt) && at[|ds|] == bt[0]
    requires at[0] == 0 && bt[|es|] == |s|
    ensures Scan(ds + es, s) == Ok(Pieces(s, at) + Pieces(s, bt))
  {
    LaidThen(es, [], s, bt);
    assert es + [] == es && Pieces(s, bt) + [] == Pieces(s, bt);
    LaidThen(ds, es, s, at);
  }

  /** A field's range as the format prints it. */
  predicate InRange(d: Directive, n: nat) {
    match d
    case Month => 1 <= n <= 12
    case Day => 1 <= n <= 31
    case Hour => n < 24
    case Minute => n < 60
    case Second => n < 60
    case _ => false
  }

  /** The two digits of a slice, as characters. */
  lemma TwoDigitValue(s: string, i: nat, n: nat)
    requires i + 2 <= |s| && FieldAt(s, i, 2) == Some(n)
    ensures IsDigit(s[i]) && IsDigit(s[i + 1])
    ensures DigitValue(s[i]) == n / 10 && DigitValue(s[i + 1]) == n % 10
  {
    var p := s[i..i + 2];
    assert p[..1][..0] == [];
    assert DigitsValue(p[..1]) == DigitValue(p[0]);
    assert p[..|p| - 1] == p[..1];
  }

  /** A two-digit field printed in its range is read with both digits, as
      the number printed. */
  lemma TwoPrefers(d: Directive, s: string, i: nat, n: nat)
    requires i + 2 <= |s| && FieldAt(s, i, 2) == Some(n) && InRange(d, n)
    ensures Takes(d, s, i, i + 2) && FieldValue(s[i..i + 2]) == n
  {
    TwoDigitValue(s, i, n);
    var a, b := DigitValue(s[i]), DigitValue(s[i + 1]);
    assert s[i..i + 2][0] == s[i];
    match d {
      case Month =>
        if a == 1 { assert Two(s, i, '1', '1', '0', '2') == [i + 2]; }
        else { assert Two(s, i, '1', '1', '0', '2') == [] && Two(s, i, '0', '0', '1', '9') == [i + 2]; }
      case Day =>
        if a == 3 { assert Two(s, i, '3', '3', '0', '1') == [i + 2]; }
        else if a >= 1 {
          assert Two(s, i, '3', '3', '0', '1') == [] && Two(s, i, '1', '2', '0', '9') == [i + 2];
        } else {
          assert Two(s, i, '3', '3', '0', '1') == [] && Two(s, i, '1', '2', '0', '9') == [];
          assert Two(s, i, '0', '0', '1', '9') == [i + 2];
        }
      case Hour =>
        if a == 2 { assert Two(s, i, '2', '2', '0', '3') == [i + 2]; }
        else { assert Two(s, i, '2', '2', '0', '3') == [] && Two(s, i, '0', '1', '0', '9') == [i + 2]; }
      case Minute =>
        assert Two(s, i, '0', '5', '0', '9') == [i + 2];
      case Second =>
        assert Two(s, i, '6', '6', '0', '1') == [] && Two(s, i, '0', '5', '0', '9') == [i + 2];
    }
  }

  /** A four-digit year is read whole. */
  lemma YearPrefers(s: string, i: nat, n: nat)
    requires i + 4 <= |s| && FieldAt(s, i, 4) == Some(n)
    ensures Ends(Year, s, i) == [i + 4] && Takes(Year, s, i, i + 4) && FieldValue(s[i..i + 4]) == n
  {
  }

  /** A literal character of the format takes the same character. */
  lemma LitPrefers(c: char, s: string, i: nat)
    requires i < |s| && s[i] == c
    ensures Ends(Lit(c), s, i) == [i + 1] && Takes(Lit(c), s, i, i + 1)
  {
  }

  /** A single white-space character before a non-space is all `\s+`
      takes. */
  lemma BlankPrefers(s: string, i: nat)
    requires i + 1 < |s| && IsSpace(s[i]) && !IsSpace(s[i + 1])
    ensures Ends(Blank, s, i) == [i + 1] && Takes(Blank, s, i, i + 1)
  {
    assert SpaceRun(s, i + 1) == 0;
  }

  /** A printed month abbreviation is read as its month. */
  lemma MonthNamePrefers(s: string, i: nat, m: nat)
    requires 1 <= m <= 12 && i + 3 <= |s| && s[i..i + 3] == MonthAbbrevs[m - 1]
    ensures Ends(MonthName, s, i) == [i + 3] && Takes(MonthName, s, i, i + 3)
    ensures MonthFromAbbrev(s[i..i + 3]) == Some(m)
  {
    MonthAbbrevRoundTrip(m);
  }

  // ---------------------------------------------------------------------
  // The formats
  // ---------------------------------------------------------------------

  const CompactFormat: seq<Directive> := [Year, Month, Day, Hour, Minute]

  /** `strptime(s, '%Y%m%d%H%M')`. */
  function ParseCompact(s: string): (r: Result<DateTime>)
    ensures r.Ok? ==> Valid(r.value) && 1 <= r.value.year <= 9999 && r.value.second == 0
    ensures r.Fail? ==> r.fault == ValueError
  {
    var p :- Scan(CompactFormat, s);
    Build(FieldValue(p[0]), FieldValue(p[1]), FieldValue(p[2]), FieldValue(p[3]), FieldValue(p[4]), 0)
  }

  /** Reading back a formatted time gives the same time. */
  lemma CompactRoundTrip(t: DateTime)
    requires Valid(t) && 1 <= t.year < 10000 && t.second == 0
    ensures ParseCompact(FormatCompact(t)) == Ok(t)
  {
    CompactFields(t);
    CompactLayout(FormatCompact(t), t.year, t.month, t.day, t.hour, t.minute);
  }

  /** Twelve digits laid out as `%Y%m%d%H%M` prints them are read field by
      field. */
  lemma CompactLayout(s: string, y: nat, mo: nat, d: nat, h: nat, mi: nat)
    requires |s| == 12 && FieldAt(s, 0, 4) == Some(y) && FieldAt(s, 4, 2) == Some(mo)
    requires FieldAt(s, 6, 2) == Some(d) && FieldAt(s, 8, 2) == Some(h) && FieldAt(s, 10, 2) == Some(mi)
    requires InRange(Month, mo) && InRange(Day, d) && InRange(Hour, h) && InRange(Minute, mi)
    ensures ParseCompact(s) == Build(y, mo, d, h, mi, 0)
  {
    CompactTakes(s, y, mo, d, h, mi);
    CompactLaid(s);
    CompactScan(s);
  }

  lemma CompactScan(s: string)
    requires |s| == 12 && Laid(CompactFormat, s, [0, 4, 6, 8, 10, 12])
    ensures Scan(CompactFormat, s) == Ok(CompactPieces(s))
  {
    LaidScan(CompactFormat, s, [0, 4, 6, 8, 10, 12]);
  }

  /** The five pieces of a text read as `%Y%m%d%H%M`. */
  function CompactPieces(s: string): (r: seq<string>)
    requires |s| == 12
    ensures |r| == 5 && r[0] == s[0..4] && r[1] == s[4..6] && r[2] == s[6..8]
    ensures r[3] == s[8..10] && r[4] == s[10..12]
  {
    var a := Pieces(s, [0, 4, 6, 8, 10, 12]);
    assert a[0] == s[0..4] && a[1] == s[4..6] && a[2] == s[6..8];
    assert a[3] == s[8..10] && a[4] == s[10..12];
    a
  }

  lemma CompactTakes(s: string, y: nat, mo: nat, d: nat, h: nat, mi: nat)
    requires |s| == 12 && FieldAt(s, 0, 4) == Some(y) && FieldAt(s, 4, 2) == Some(mo)
    requires FieldAt(s, 6, 2) == Some(d) && FieldAt(s, 8, 2) == Some(h) && FieldAt(s, 10, 2) == Some(mi)
    requires InRange(Month, mo) && InRange(Day, d) && InRange(Hour, h) && InRange(Minute, mi)
    ensures Takes(Year, s, 0, 4) && Takes(Month, s, 4, 6) && Takes(Day, s, 6, 8)
    ensures Takes(Hour, s, 8, 10) && Takes(Minute, s, 10, 12)
    ensures FieldValue(s[0..4]) == y && FieldValue(s[4..6]) == mo && FieldValue(s[6..8]) == d
    ensures FieldValue(s[8..10]) == h && FieldValue(s[10..12]) == mi
  {
    YearPrefers(s, 0, y);
    TwoPrefers(Month, s, 4, mo);
    TwoPrefers(Day, s, 6, d);
    TwoPrefers(Hour, s, 8, h);
    TwoPrefers(Minute, s, 10, mi);
  }

  lemma CompactLaid(s: string)
    requires |s| == 12 && Takes(Year, s, 0, 4) && Takes(Month, s, 4, 6) && Takes(Day, s, 6, 8)
    requires Takes(Hour, s, 8, 10) && Takes(Minute, s, 10, 12)
    ensures Laid(CompactFormat, s, [0, 4, 6, 8, 10, 12])
  {
    assert Laid([], s, [12]);
    LaidCons(Minute, [], s, 10, [12]);
    LaidCons(Hour, [Minute], s, 8, [10, 12]);
    LaidCons(Day, [Hour, Minute], s, 6, [8, 10, 12]);
    LaidCons(Month, [Day, Hour, Minute], s, 4, [6, 8, 10, 12]);
    LaidCons(Year, [Month, Day, Hour, Minute], s, 0, [4, 6, 8, 10, 12]);
  }

  /** Two digits at the end of the text, where `%H%M` expects four, are
      read as a one-digit hour and a one-digit minute: the hour's preferred
      two digits would leave the minute nothing to match. */
  lemma HourGivesBack(s: string, i: nat)
    requires i + 2 == |s| && IsDigit(s[i]) && IsDigit(s[i + 1])
    ensures Match([Hour, Minute], s, i) == Some(Found([s[i..i + 1], s[i + 1..i + 2]], i + 2))
  {
    var ds := [Hour, Minute];
    assert ds[1..] == [Minute];
    assert Ends(Minute, s, i + 2) == [];
    assert Match([Minute], s, i + 2) == None;
    assert Ends(Minute, s, i + 1) == [i + 2];
    assert [Minute][1..] == [];
    Prefer([Minute], s, i + 1, i + 2);
    assert Match([], s, i + 2) == Some(Found([], i + 2));
    assert [s[i + 1..i + 2]] + [] == [s[i + 1..i + 2]];
    assert Match([Minute], s, i + 1) == Some(Found([s[i + 1..i + 2]], i + 2));
    var two := Two(s, i, '2', '2', '0', '3') + Two(s, i, '0', '1', '0', '9');
    assert Ends(Hour, s, i) == two + [i + 1];
    assert [s[i..i + 1]] + [s[i + 1..i + 2]] == [s[i..i + 1], s[i + 1..i + 2]];
    if two == [] {
      Prefer(ds, s, i, i + 1);
    } else {
      assert two == [i + 2];
      Fallback(ds, s, i);
      assert Ends(Hour, s, i)[1..] == [i + 1];
    }
  }

  /** `%Y%m%d%H%M` on a date and an hour of two digits: the hour is the
      first digit and the minute the second. */
  lemma HourOnly(s: string, y: nat, mo: nat, d: nat)
    requires |s| == 10 && FieldAt(s, 0, 4) == Some(y) && FieldAt(s, 4, 2) == Some(mo)
    requires FieldAt(s, 6, 2) == Some(d) && InRange(Month, mo) && InRange(Day, d)
    requires IsDigit(s[8]) && IsDigit(s[9])
    ensures ParseCompact(s) == Build(y, mo, d, DigitValue(s[8]), DigitValue(s[9]), 0)
  {
    YearPrefers(s, 0, y);
    TwoPrefers(Month, s, 4, mo);
    TwoPrefers(Day, s, 6, d);
    DateLaidCompact(s);
    HourOnlyScan(s);
    OneDigit(s[8..9]);
    OneDigit(s[9..10]);
  }

  /** A one-character field reads as its digit. */
  lemma OneDigit(p: string)
    requires |p| == 1 && IsDigit(p[0])
    ensures FieldValue(p) == DigitValue(p[0])
  {
    assert p[0] != ' ' && AllDigits(p);
    assert p[..0] == [] && DigitsValue(p[..0]) == 0;
    assert DigitsValue(p) == DigitValue(p[0]);
  }

  lemma HourOnlyScan(s: string)
    requires |s| == 10 && Laid([Year, Month, Day], s, [0, 4, 6, 8]) && IsDigit(s[8]) && IsDigit(s[9])
    ensures Scan(CompactFormat, s) == Ok(HourOnlyPieces(s))
  {
    HourGivesBack(s, 8);
    LaidThen([Year, Month, Day], [Hour, Minute], s, [0, 4, 6, 8]);
    assert [Year, Month, Day] + [Hour, Minute] == CompactFormat;
  }

  /** The date of a compact text, each field taking its printed width. */
  lemma DateLaidCompact(s: string)
    requires |s| >= 8 && Takes(Year, s, 0, 4) && Takes(Month, s, 4, 6) && Takes(Day, s, 6, 8)
    ensures Laid([Year, Month, Day], s, [0, 4, 6, 8])
  {
    assert Laid([], s, [8]);
    LaidCons(Day, [], s, 6, [8]);
    LaidCons(Month, [Day], s, 4, [6, 8]);
    LaidCons(Year, [Month, Day], s, 0, [4, 6, 8]);
  }

  /** The five pieces of ten digits read as `%Y%m%d%H%M`: the hour and the
      minute get one digit each. */
  function HourOnlyPieces(s: string): (r: seq<string>)
    requires |s| == 10
    ensures |r| == 5 && r[0] == s[0..4] && r[1] == s[4..6] && r[2] == s[6..8]
    ensures r[3] == s[8..9] && r[4] == s[9..10]
  {
    var a := Pieces(s, [0, 4, 6, 8]);
    assert a[0] == s[0..4] && a[1] == s[4..6] && a[2] == s[6..8];
    a + [s[8..9], s[9..10]]
  }

  /** DH12 after the date 20240111 is 01:02. */
  lemma CompactHourOnly()
    ensures ParseCompact("2024011112") == Ok(DateTime(2024, 1, 11, 1, 2, 0))
  {
    var s := "2024011112";
    YearDigits(s[0..4]);
    PairDigits(s[4..6]);
    PairDigits(s[6..8]);
    HourOnly(s, 2024, 1, 11);
  }

  /** The value of two digits, place by place. */
  lemma PairDigits(p: string)
    requires |p| == 2 && AllDigits(p)
    ensures DigitsValue(p) == 10 * DigitValue(p[0]) + DigitValue(p[1])
  {
    assert p[..1][..0] == [];
    assert DigitsValue(p[..1]) == DigitValue(p[0]);
    assert p[..|p| - 1] == p[..1];
  }

  /** The value of four digits, place by place. */
  lemma YearDigits(p: string)
    requires |p| == 4 && AllDigits(p)
    ensures DigitsValue(p) == 1000 * DigitValue(p[0]) + 100 * DigitValue(p[1]) + 10 * DigitValue(p[2]) + DigitValue(p[3])
  {
    assert p[..1][..0] == [];
    assert DigitsValue(p[..1]) == DigitValue(p[0]);
    assert p[..2][..1] == p[..1];
    assert DigitsValue(p[..2]) == 10 * DigitValue(p[0]) + DigitValue(p[1]);
    assert p[..3][..2] == p[..2];
    assert DigitsValue(p[..3]) == 100 * DigitValue(p[0]) + 10 * DigitValue(p[1]) + DigitValue(p[2]);
    assert p[..|p| - 1] == p[..3];
  }

  /** `%Y-%m-%d`, the date half of the ISO formats. */
  const IsoDate: seq<Directive> := [Year, Lit('-'), Month, Lit('-'), Day]

  /** `%H:%M:%S`. */
  const IsoClock: seq<Directive> := [Hour, Lit(':'), Minute, Lit(':'), Second]

  function IsoFormat(sep: char): (r: seq<Directive>)
    ensures |r| == 11
  {
    IsoDate + [Sep(sep)] + IsoClock
  }

  /** `strptime(s, '%Y-%m-%d{sep}%H:%M:%S')`. */
  function ParseIso(s: string, sep: char): (r: Result<DateTime>)
    ensures r.Ok? ==> Valid(r.value) && 1 <= r.value.year <= 9999
    ensures r.Fail? ==> r.fault == ValueError
  {
    var p :- Scan(IsoFormat(sep), s);
    Build(FieldValue(p[0]), FieldValue(p[2]), FieldValue(p[4]), FieldValue(p[6]), FieldValue(p[8]), FieldValue(p[10]))
  }

  /** Reading back a formatted time gives the same time. */
  lemma IsoRoundTrip(t: DateTime, sep: char)
    requires Valid(t) && 1 <= t.year < 10000
    ensures ParseIso(FormatIso(t, sep), sep) == Ok(t)
  {
    var s := FormatIso(t, sep);
    IsoDateOf(t, sep);
    IsoTimeOf(t, sep);
    IsoLayout(s, sep, t.year, t.month, t.day, t.hour, t.minute, t.second);
  }

  /** Nineteen characters laid out as `%Y-%m-%d{sep}%H:%M:%S` prints them
      are read field by field. */
  lemma IsoLayout(s: string, sep: char, y: nat, mo: nat, d: nat, h: nat, mi: nat, sec: nat)
    requires |s| == 19 && s[4] == '-' && s[7] == '-' && s[10] == sep && s[13] == ':' && s[16] == ':'
    requires FieldAt(s, 0, 4) == Some(y) && FieldAt(s, 5, 2) == Some(mo) && FieldAt(s, 8, 2) == Some(d)
    requires FieldAt(s, 11, 2) == Some(h) && FieldAt(s, 14, 2) == Some(mi) && FieldAt(s, 17, 2) == Some(sec)
    requires InRange(Month, mo) && InRange(Day, d) && InRange(Hour, h) && InRange(Minute, mi) && InRange(Second, sec)
    ensures ParseIso(s, sep) == Build(y, mo, d, h, mi, sec)
  {
    DateTakes(s, y, mo, d);
    ClockTakes(s, sep, h, mi, sec);
    DateLaid(s);
    ClockLaid(s, sep);
    IsoScan(s, sep);
  }

  /** `%Y-%m-%d` at the start of a text, each field taking its printed
      width. */
  lemma DateTakes(s: string, y: nat, mo: nat, d: nat)
    requires 10 <= |s| && s[4] == '-' && s[7] == '-'
    requires FieldAt(s, 0, 4) == Some(y) && FieldAt(s, 5, 2) == Some(mo) && FieldAt(s, 8, 2) == Some(d)
    requires InRange(Month, mo) && InRange(Day, d)
    ensures Takes(Year, s, 0, 4) && Takes(Lit('-'), s, 4, 5) && Takes(Month, s, 5, 7)
    ensures Takes(Lit('-'), s, 7, 8) && Takes(Day, s, 8, 10)
    ensures FieldValue(s[0..4]) == y && FieldValue(s[5..7]) == mo && FieldValue(s[8..10]) == d
  {
    YearPrefers(s, 0, y);
    LitPrefers('-', s, 4);
    TwoPrefers(Month, s, 5, mo);
    LitPrefers('-', s, 7);
    TwoPrefers(Day, s, 8, d);
  }

  /** `{sep}%H:%M:%S` from position 10, each field taking its printed
      width. */
  lemma ClockTakes(s: string, sep: char, h: nat, mi: nat, sec: nat)
    requires |s| == 19 && s[10] == sep && s[13] == ':' && s[16] == ':'
    requires FieldAt(s, 11, 2) == Some(h) && FieldAt(s, 14, 2) == Some(mi) && FieldAt(s, 17, 2) == Some(sec)
    requires InRange(Hour, h) && InRange(Minute, mi) && InRange(Second, sec)
    ensures Takes(Sep(sep), s, 10, 11) && Takes(Hour, s, 11, 13) && Takes(Lit(':'), s, 13, 14)
    ensures Takes(Minute, s, 14, 16) && Takes(Lit(':'), s, 16, 17) && Takes(Second, s, 17, 19)
    ensures FieldValue(s[11..13]) == h && FieldValue(s[14..16]) == mi && FieldValue(s[17..19]) == sec
  {
    TwoDigitValue(s, 11, h);
    SepPrefers(s, 10, sep);
    TwoPrefers(Hour, s, 11, h);
    LitPrefers(':', s, 13);
    TwoPrefers(Minute, s, 14, mi);
    LitPrefers(':', s, 16);
    TwoPrefers(Second, s, 17, sec);
  }

  lemma DateLaid(s: string)
    requires 10 <= |s| && Takes(Year, s, 0, 4) && Takes(Lit('-'), s, 4, 5) && Takes(Month, s, 5, 7)
    requires Takes(Lit('-'), s, 7, 8) && Takes(Day, s, 8, 10)
    ensures Laid(IsoDate, s, [0, 4, 5, 7, 8, 10])
  {
    assert Laid([], s, [10]);
    LaidCons(Day, [], s, 8, [10]);
    LaidCons(Lit('-'), [Day], s, 7, [8, 10]);
    LaidCons(Month, [Lit('-'), Day], s, 5, [7, 8, 10]);
    LaidCons(Lit('-'), [Month, Lit('-'), Day], s, 4, [5, 7, 8, 10]);
    LaidCons(Year, [Lit('-'), Month, Lit('-'), Day], s, 0, [4, 5, 7, 8, 10]);
  }

  lemma ClockLaid(s: string, sep: char)
    requires |s| == 19 && Takes(Sep(sep), s, 10, 11)
    requires Takes(Hour, s, 11, 13) && Takes(Lit(':'), s, 13, 14) && Takes(Minute, s, 14, 16)
    requires Takes(Lit(':'), s, 16, 17) && Takes(Second, s, 17, 19)
    ensures Laid([Sep(sep)] + IsoClock, s, [10, 11, 13, 14, 16, 17, 19])
  {
    assert Laid([], s, [19]);
    LaidCons(Second, [], s, 17, [19]);
    LaidCons(Lit(':'), [Second], s, 16, [17, 19]);
    LaidCons(Minute, [Lit(':'), Second], s, 14, [16, 17, 19]);
    LaidCons(Lit(':'), [Minute, Lit(':'), Second], s, 13, [14, 16, 17, 19]);
    LaidCons(Hour, [Lit(':'), Minute, Lit(':'), Second], s, 11, [13, 14, 16, 17, 19]);
    LaidCons(Sep(sep), IsoClock, s, 10, [11, 13, 14, 16, 17, 19]);
  }

  lemma IsoScan(s: string, sep: char)
    requires |s| == 19 && Laid(IsoDate, s, [0, 4, 5, 7, 8, 10])
    requires Laid([Sep(sep)] + IsoClock, s, [10, 11, 13, 14, 16, 17, 19])
    ensures Scan(IsoFormat(sep), s) == Ok(IsoPieces(s))
  {
    ScanJoin(IsoDate, [Sep(sep)] + IsoClock, s, [0, 4, 5, 7, 8, 10], [10, 11, 13, 14, 16, 17, 19]);
    Regroup(IsoDate, [Sep(sep)], IsoClock);
  }

  /** The eleven pieces of a text read as `%Y-%m-%d{sep}%H:%M:%S`. */
  function IsoPieces(s: string): (r: seq<string>)
    requires |s| == 19
    ensures |r| == 11 && r[0] == s[0..4] && r[2] == s[5..7] && r[4] == s[8..10]
    ensures r[6] == s[11..13] && r[8] == s[14..16] && r[10] == s[17..19]
  {
    var a, b := Pieces(s, [0, 4, 5, 7, 8, 10]), Pieces(s, [10, 11, 13, 14, 16, 17, 19]);
    assert a[0] == s[0..4] && a[2] == s[5..7] && a[4] == s[8..10];
    assert b[1] == s[11..13] && b[3] == s[14..16] && b[5] == s[17..19];
    a + b
  }

  /** The separator of a formatted time is taken by its directive alone. */
  lemma SepPrefers(s: string, i: nat, sep: char)
    requires i + 1 < |s| && s[i] == sep && IsDigit(s[i + 1])
    ensures Takes(Sep(sep), s, i, i + 1)
  {
    if IsSpace(sep) {
      BlankPrefers(s, i);
    } else {
      LitPrefers(sep, s, i);
    }
  }

  // ---------------------------------------------------------------------
  // The %z offset
  // ---------------------------------------------------------------------

  /** A day in microseconds: `timezone` accepts offsets strictly inside
      it. */
  const DayMicros: int := 86400 * 1000000

  /** `int()` of a piece of the offset. */
  function IntOf(p: string): (r: Result<int>)
    ensures r.Ok? <==> ParseInt(p).Some?
    ensures r.Ok? ==> r.value == ParseInt(p).value
    ensures r.Fail? ==> r.fault == ValueError
  {
    match ParseInt(p)
    case Some(n) => Ok(n)
    case None => Fail(ValueError)
  }

  /** The offset with its colons removed: a colon after the hours goes,
      and then, when more than the minutes follow, a colon must come after
      the minutes too and goes as well ("Inconsistent use of :"). A text
      too short to hold hours and a colon is refused (a matched offset is
      never that short). */
  function Uncolon(z: string): (r: Result<string>)
    ensures r.Ok? ==> |z| >= 4 && 0 < |r.value| <= |z| && r.value[0] == z[0]
    ensures r.Fail? ==> r.fault == ValueError
    ensures |z| >= 4 && z[3] != ':' ==> r == Ok(z)
  {
    if |z| < 4 then Fail(ValueError)
    else if z[3] != ':' then Ok(z)
    else
      var u := z[..3] + z[4..];
      if |u| <= 5 then Ok(u)
      else if u[5] != ':' then Fail(ValueError)
      else Ok(u[..5] + u[6..])
  }

  /** `"0" * n`. */
  function Zeros(n: int): (r: string)
    ensures |r| == (if n < 0 then 0 else n)
    ensures forall k :: 0 <= k < |r| ==> r[k] == '0'
  {
    if n <= 0 then "" else seq(n, _ => '0')
  }

  /** `_strptime`'s reading of a matched `%z` text, in microseconds east
      of UTC: `Z` is zero; anything else has its colons removed, its size
      read, and a leading '-' negates it. */
  function ZoneValue(z: string): (r: Result<int>)
    ensures r.Ok? ==> -DayMicros < r.value < DayMicros
    ensures r.Fail? ==> r.fault == ValueError
  {
    if z == "Z" then Ok(0)
    else
      var u :- Uncolon(z);
      var size :- OffsetSize(u);
      Bounded(u[0] == '-', size)
  }

  /** A signed offset as `timezone` takes it: under a day either way, or
      ValueError. */
  function Bounded(negative: bool, size: int): (r: Result<int>)
    ensures r.Ok? <==> -DayMicros < size < DayMicros
    ensures r.Ok? ==> r.value == if negative then -size else size
    ensures r.Fail? ==> r.fault == ValueError
  {
    if -DayMicros < size < DayMicros then Ok(if negative then -size else size) else Fail(ValueError)
  }

  /** The unsigned size of an offset without colons. */
  function OffsetSize(u: string): (r: Result<int>)
    ensures r.Fail? ==> r.fault == ValueError
  {
    var h :- IntOf(Slice(u, 1, 3));
    var m :- IntOf(Slice(u, 3, 5));
    var (sec, frac) :- SecondsFraction(u);
    Ok(Micros(h, m, sec, frac))
  }

  /** The seconds (0 when absent) and the microseconds, the fraction
      after position 8 padded to six digits. */
  function SecondsFraction(u: string): (r: Result<(int, int)>)
    ensures r.Fail? ==> r.fault == ValueError
  {
    var sec :- if Slice(u, 5, 7) == "" then Ok(0) else IntOf(Slice(u, 5, 7));
    var rest := Drop(u, 8);
    var frac :- IntOf(rest + Zeros(6 - |rest|));
    Ok((sec, frac))
  }

  /** An offset of hours and minutes only has no seconds and no fraction. */
  lemma NoSecondsFraction(u: string)
    requires |u| == 5
    ensures SecondsFraction(u) == Ok((0, 0))
  {
    assert Slice(u, 5, 7) == "";
    var rest := Drop(u, 8);
    assert rest == "";
    assert rest + Zeros(6 - |rest|) == "" + Zeros(6);
    SixZeros();
  }

  /** Hours, minutes, seconds and microseconds, in microseconds. */
  function Micros(h: int, m: int, sec: int, frac: int): int {
    (h * 3600 + m * 60 + sec) * 1000000 + frac
  }

  /** `+HH:MM` reads as `+HHMM` does: the sign's hours and minutes,
      refused from a day on. */
  lemma ZoneSpellings(sign: char, hh: string, mm: string)
    requires (sign == '+' || sign == '-') && |hh| == 2 && |mm| == 2 && AllDigits(hh) && AllDigits(mm)
    ensures ZoneValue([sign] + hh + ":" + mm) == ZoneValue([sign] + hh + mm)
    ensures ZoneValue([sign] + hh + mm) == Bounded(sign == '-', Micros(DigitsValue(hh), DigitsValue(mm), 0, 0))
  {
    var a, b := [sign] + hh + mm, [sign] + hh + ":" + mm;
    assert b[..3] + b[4..] == a;
    assert Uncolon(b) == Ok(a);
    assert Uncolon(a) == Ok(a);
    PlainSize(a, hh, mm);
  }

  lemma PlainSize(a: string, hh: string, mm: string)
    requires |a| == 5 && a[1..3] == hh && a[3..5] == mm && AllDigits(hh) && AllDigits(mm)
    ensures OffsetSize(a) == Ok(Micros(DigitsValue(hh), DigitsValue(mm), 0, 0))
  {
    IntOfDigits(Slice(a, 1, 3));
    IntOfDigits(Slice(a, 3, 5));
    NoSecondsFraction(a);
  }

  /** `int()` of a run of digits is its value. */
  lemma IntOfDigits(p: string)
    requires AllDigits(p) && p != ""
    ensures IntOf(p) == Ok(DigitsValue(p) as int)
  {
    DigitsInt(p);
  }

  lemma SixZeros()
    ensures IntOf("" + Zeros(6)) == Ok(0)
  {
    assert "" + Zeros(6) == seq(6, _ => '0');
    ZerosValue(6);
    DigitsInt(seq(6, _ => '0'));
  }

  /** A colon after the hours with none after the minutes is refused when
      seconds follow. */
  lemma ZoneColonMismatch()
    ensures ZoneValue("+01:0030") == Fail(ValueError)
  {
    assert Uncolon("+01:0030") == Fail(ValueError);
  }

  const DayMonYearFormat: seq<Directive> := [Day, MonthName, Year, Blank, Hour, Minute]

  /** `strptime(s, '%d%b%Y %H%M')`, e.g. "05MAR2024 1300". */
  function ParseDayMonYear(s: string): (r: Result<DateTime>)
    ensures r.Ok? ==> Valid(r.value) && 1 <= r.value.year <= 9999 && r.value.second == 0
    ensures r.Fail? ==> r.fault == ValueError
  {
    var p :- Scan(DayMonYearFormat, s);
    var mo := MonthFromAbbrev(p[1]);
    Build(FieldValue(p[2]), if mo.Some? then mo.value else 0, FieldValue(p[0]), FieldValue(p[4]), FieldValue(p[5]), 0)
  }

  /** Reading back a formatted time gives the same time. */
  lemma DayMonYearRoundTrip(t: DateTime)
    requires Valid(t) && 1 <= t.year < 10000 && t.second == 0
    ensures ParseDayMonYear(FormatDayMonYear(t)) == Ok(t)
  {
    DayMonYearFields(t);
    DayMonYearLayout(FormatDayMonYear(t), t.day, t.month, t.year, t.hour, t.minute);
  }

  /** Fourteen characters laid out as `%d%b%Y %H%M` prints them are read
      field by field. */
  lemma DayMonYearLayout(s: string, d: nat, mo: nat, y: nat, h: nat, mi: nat)
    requires |s| == 14 && FieldAt(s, 0, 2) == Some(d) && 1 <= mo <= 12 && s[2..5] == MonthAbbrevs[mo - 1]
    requires FieldAt(s, 5, 4) == Some(y) && s[9] == ' ' && FieldAt(s, 10, 2) == Some(h) && FieldAt(s, 12, 2) == Some(mi)
    requires InRange(Day, d) && InRange(Hour, h) && InRange(Minute, mi)
    ensures ParseDayMonYear(s) == Build(y, mo, d, h, mi, 0)
  {
    DayMonYearTakes(s, d, mo, y);
    HourMinuteTakes(s, h, mi);
    DayMonYearLaid(s);
    DayMonYearScan(s);
  }

  /** `%d%b%Y` as printed, each field taking its printed width. */
  lemma DayMonYearTakes(s: string, d: nat, mo: nat, y: nat)
    requires |s| == 14 && FieldAt(s, 0, 2) == Some(d) && 1 <= mo <= 12 && s[2..5] == MonthAbbrevs[mo - 1]
    requires FieldAt(s, 5, 4) == Some(y) && InRange(Day, d)
    ensures Takes(Day, s, 0, 2) && Takes(MonthName, s, 2, 5) && Takes(Year, s, 5, 9)
    ensures FieldValue(s[0..2]) == d && MonthFromAbbrev(s[2..5]) == Some(mo) && FieldValue(s[5..9]) == y
  {
    TwoPrefers(Day, s, 0, d);
    MonthNamePrefers(s, 2, mo);
    YearPrefers(s, 5, y);
  }

  /** ` %H%M` after the year, each field taking its printed width. */
  lemma HourMinuteTakes(s: string, h: nat, mi: nat)
    requires |s| == 14 && s[9] == ' ' && FieldAt(s, 10, 2) == Some(h) && FieldAt(s, 12, 2) == Some(mi)
    requires InRange(Hour, h) && InRange(Minute, mi)
    ensures Takes(Blank, s, 9, 10) && Takes(Hour, s, 10, 12) && Takes(Minute, s, 12, 14)
    ensures FieldValue(s[10..12]) == h && FieldValue(s[12..14]) == mi
  {
    TwoDigitValue(s, 10, h);
    BlankPrefers(s, 9);
    TwoPrefers(Hour, s, 10, h);
    TwoPrefers(Minute, s, 12, mi);
  }

  lemma DayMonYearScan(s: string)
    requires |s| == 14 && Laid(DayMonYearFormat, s, [0, 2, 5, 9, 10, 12, 14])
    ensures Scan(DayMonYearFormat, s) == Ok(DayMonYearPieces(s))
  {
    LaidScan(DayMonYearFormat, s, [0, 2, 5, 9, 10, 12, 14]);
  }

  /** The six pieces of a text read as `%d%b%Y %H%M`. */
  function DayMonYearPieces(s: string): (r: seq<string>)
    requires |s| == 14
    ensures |r| == 6 && r[0] == s[0..2] && r[1] == s[2..5] && r[2] == s[5..9]
    ensures r[4] == s[10..12] && r[5] == s[12..14]
  {
    var a := Pieces(s, [0, 2, 5, 9, 10, 12, 14]);
    assert a[0] == s[0..2] && a[1] == s[2..5] && a[2] == s[5..9];
    assert a[4] == s[10..12] && a[5] == s[12..14];
    a
  }

  lemma DayMonYearLaid(s: string)
    requires |s| == 14 && Takes(Day, s, 0, 2) && Takes(MonthName, s, 2, 5) && Takes(Year, s, 5, 9)
    requires Takes(Blank, s, 9, 10) && Takes(Hour, s, 10, 12) && Takes(Minute, s, 12, 14)
    ensures Laid(DayMonYearFormat, s, [0, 2, 5, 9, 10, 12, 14])
  {
    assert Laid([], s, [14]);
    LaidCons(Minute, [], s, 12, [14]);
    LaidCons(Hour, [Minute], s, 10, [12, 14]);
    LaidCons(Blank, [Hour, Minute], s, 9, [10, 12, 14]);
    LaidCons(Year, [Blank, Hour, Minute], s, 5, [9, 10, 12, 14]);
    LaidCons(MonthName, [Year, Blank, Hour, Minute], s, 2, [5, 9, 10, 12, 14]);
    LaidCons(Day, [MonthName, Year, Blank, Hour, Minute], s, 0, [2, 5, 9, 10, 12, 14]);
  }
}
