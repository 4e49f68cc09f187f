/** The Python `str` and list primitives the scripts build their parsers from:
    `find`, `in`, `split(sep)`, `split()`, `strip`, `replace`, `startswith`,
    `upper`/`lower`, `isdigit` and slicing with negative indices.

    Whitespace is Python's `str.isspace()` restricted to the ASCII range;
    letters and digits are the ASCII ones.
 */
module PyText {
  import opened Wrappers

  // ---------------------------------------------------------------------
  // Character classes
  // ---------------------------------------------------------------------

  predicate IsSpace(c: char) {
    c == ' ' || c == '\t' || c == '\n' || c == '\r' || c == '\U{0B}' || c == '\U{0C}'
    || ('\U{1C}' <= c <= '\U{1F}')
  }

  predicate IsDigit(c: char) {
    '0' <= c <= '9'
  }

  predicate IsAlpha(c: char) {
    ('a' <= c <= 'z') || ('A' <= c <= 'Z')
  }

  function UpperChar(c: char): char {
    if 'a' <= c <= 'z' then (c as int - 32) as char else c
  }

  function LowerChar(c: char): char {
    if 'A' <= c <= 'Z' then (c as int + 32) as char else c
  }

  function Upper(s: string): (r: string)
    ensures |r| == |s|
    ensures forall i :: 0 <= i < |s| ==> r[i] == UpperChar(s[i])
  {
    seq(|s|, i requires 0 <= i < |s| => UpperChar(s[i]))
  }

  function Lower(s: string): (r: string)
    ensures |r| == |s|
    ensures forall i :: 0 <= i < |s| ==> r[i] == LowerChar(s[i])
  {
    seq(|s|, i requires 0 <= i < |s| => LowerChar(s[i]))
  }

  /** Upper-casing twice is upper-casing once. */
  lemma UpperIdempotent(s: string)
    ensures Upper(Upper(s)) == Upper(s)
  {
  }

  /** Python `s.isdigit()`: non-empty and every character a digit. */
  predicate IsDigits(s: string) {
    |s| > 0 && forall i :: 0 <= i < |s| ==> IsDigit(s[i])
  }

  /** Python `s.isspace()`: non-empty and every character whitespace. */
  predicate IsAllSpace(s: string) {
    |s| > 0 && forall i :: 0 <= i < |s| ==> IsSpace(s[i])
  }

  // ---------------------------------------------------------------------
  // Prefixes, occurrences, find
  // ---------------------------------------------------------------------

  predicate StartsWith(s: string, p: string) {
    |p| <= |s| && s[..|p|] == p
  }

  predicate EndsWith(s: string, p: string) {
    |p| <= |s| && s[|s| - |p|..] == p
  }

  /** `sub` occurs in `s` starting at index `i`. */
  ghost predicate OccursAt(s: string, sub: string, i: int) {
    0 <= i && i + |sub| <= |s| && s[i..i + |sub|] == sub
  }

  function FindFrom(s: string, sub: string, k: nat): (r: int)
    requires k <= |s|
    decreases |s| - k
    ensures r == -1 || (k <= r && OccursAt(s, sub, r))
    ensures r >= 0 ==> forall i :: k <= i < r ==> !OccursAt(s, sub, i)
    ensures r == -1 ==> forall i :: k <= i ==> !OccursAt(s, sub, i)
  {
    if k + |sub| > |s| then -1
    else if s[k..k + |sub|] == sub then k
    else FindFrom(s, sub, k + 1)
  }

  /** Python `s.find(sub)`: the first index where `sub` occurs, or -1. */
  function Find(s: string, sub: string): (r: int)
    ensures r == -1 || OccursAt(s, sub, r)
    ensures r >= 0 ==> forall i :: 0 <= i < r ==> !OccursAt(s, sub, i)
    ensures r == -1 <==> forall i :: !OccursAt(s, sub, i)
  {
    FindFrom(s, sub, 0)
  }

  /** Python `sub in s`. */
  predicate Contains(s: string, sub: string) {
    Find(s, sub) >= 0
  }

  lemma ContainsAt(s: string, sub: string, i: int)
    requires OccursAt(s, sub, i)
    ensures Contains(s, sub)
  {
  }

  /** A slice of a slice is a slice of the whole. */
  lemma SliceOfSlice<T>(s: seq<T>, a: nat, b: nat, i: nat, n: nat)
    requires a <= b <= |s| && i + n <= b - a
    ensures s[a..b][i..i + n] == s[a + i..a + i + n]
  {
    var t, u := s[a..b][i..i + n], s[a + i..a + i + n];
    forall j | 0 <= j < n
      ensures t[j] == u[j]
    {
      assert t[j] == s[a..b][i + j] == s[a + i + j];
    }
  }

  /** A slice inside the first part of a concatenation. */
  lemma SliceInFront<T>(u: seq<T>, v: seq<T>, i: nat, j: nat)
    requires i <= j <= |u|
    ensures (u + v)[i..j] == u[i..j]
  {
  }

  /** The second part of a concatenation, sliced back out. */
  lemma SliceAtEnd<T>(u: seq<T>, x: seq<T>)
    ensures (u + x)[|u|..|u| + |x|] == x
  {
  }

  /** A string always contains itself as the tail of a longer one. */
  lemma ContainsSuffix(a: string, b: string)
    ensures Contains(a + b, b)
  {
    assert (a + b)[|a|..|a| + |b|] == b;
    ContainsAt(a + b, b, |a|);
  }

  lemma ContainsPrefix(a: string, b: string)
    ensures Contains(a + b, a)
  {
    assert (a + b)[0..|a|] == a;
    ContainsAt(a + b, a, 0);
  }

  /** A character that does not occur is not found. */
  lemma NoCharFound(s: string, c: char)
    requires c !in s
    ensures Find(s, [c]) < 0
  {
    forall j | 0 <= j < |s|
      ensures !OccursAt(s, [c], j)
    {
      OccursAtChar(s, c, j);
    }
    assert forall j :: !OccursAt(s, [c], j);
  }

  /** A text lacking one of the characters of `sub` does not contain it. */
  lemma NoCharNoSub(s: string, sub: string, c: char)
    requires c in sub && c !in s
    ensures !Contains(s, sub)
  {
    forall j | 0 <= j && j + |sub| <= |s|
      ensures !OccursAt(s, sub, j)
    {
      var k :| 0 <= k < |sub| && sub[k] == c;
      assert s[j..j + |sub|][k] != sub[k];
    }
  }

  /** Text placed after a prefix that lacks its first character is found
      right after that prefix. */
  lemma FindAfterPrefix(pre: string, sub: string, rest: string)
    requires |sub| > 0 && sub[0] !in pre
    ensures Find(pre + sub + rest, sub) == |pre|
  {
    var s := pre + sub + rest;
    assert s[|pre|..|pre| + |sub|] == sub;
    assert OccursAt(s, sub, |pre|);
    forall j | 0 <= j < |pre|
      ensures !OccursAt(s, sub, j)
    {
      assert s[j] == pre[j] != sub[0];
      assert j + |sub| <= |s| ==> s[j..j + |sub|][0] == s[j];
    }
    var r := Find(s, sub);
    assert r != -1;
    assert !(r < |pre|);
    assert !(r > |pre|);
  }

  /** An occurrence inside a prefix of `s` is an occurrence in `s`. */
  lemma OccursInPrefix(s: string, sub: string, n: nat, i: int)
    requires n <= |s|
    requires OccursAt(s[..n], sub, i)
    ensures OccursAt(s, sub, i)
  {
    assert s[..n][i..i + |sub|] == s[i..i + |sub|];
  }

  // ---------------------------------------------------------------------
  // Joining and splitting
  // ---------------------------------------------------------------------

  /** Python `sep.join(parts)`. */
  function Join(parts: seq<string>, sep: string): string
    decreases |parts|
  {
    if |parts| == 0 then ""
    else if |parts| == 1 then parts[0]
    else parts[0] + sep + Join(parts[1..], sep)
  }

  /** Python `s.split(sep)` for a non-empty separator. */
  function Split(s: string, sep: string): (r: seq<string>)
    requires |sep| > 0
    decreases |s|
    ensures |r| >= 1
    ensures forall j :: 0 <= j < |r| ==> !Contains(r[j], sep)
  {
    var i := Find(s, sep);
    if i < 0 then [s]
    else
      var head := s[..i];
      assert !Contains(head, sep) by {
        if Contains(head, sep) {
          OccursInPrefix(s, sep, i, Find(head, sep));
        }
      }
      [head] + Split(s[i + |sep|..], sep)
  }

  /** Joining the pieces of a split with the same separator restores the
      original text: nothing is lost or reordered. */
  lemma {:induction false} SplitJoin(s: string, sep: string)
    requires |sep| > 0
    ensures Join(Split(s, sep), sep) == s
    decreases |s|
  {
    var i := Find(s, sep);
    if i >= 0 {
      var rest := s[i + |sep|..];
      var parts := Split(rest, sep);
      SplitJoin(rest, sep);
      assert Split(s, sep) == [s[..i]] + parts;
      assert ([s[..i]] + parts)[1..] == parts;
      assert Join([s[..i]] + parts, sep) == s[..i] + sep + Join(parts, sep);
      assert s == s[..i] + sep + rest;
    }
  }

  /** Joining one more part appends the separator and the part. */
  lemma {:induction false} JoinSnoc(parts: seq<string>, x: string, sep: string)
    requires |parts| >= 1
    ensures Join(parts + [x], sep) == Join(parts, sep) + sep + x
    decreases |parts|
  {
    if |parts| > 1 {
      JoinSnoc(parts[1..], x, sep);
      assert (parts + [x])[1..] == parts[1..] + [x];
    }
  }

  /** Extending the last part extends the joined text by the same amount. */
  lemma {:induction false} JoinExtendLast(parts: seq<string>, s: string, sep: string)
    requires |parts| >= 1
    ensures Join(parts[..|parts| - 1] + [parts[|parts| - 1] + s], sep) == Join(parts, sep) + s
    decreases |parts|
  {
    var q := parts[..|parts| - 1] + [parts[|parts| - 1] + s];
    if |parts| > 1 {
      JoinExtendLast(parts[1..], s, sep);
      assert q[1..] == parts[1..][..|parts[1..]| - 1] + [parts[1..][|parts[1..]| - 1] + s];
      assert q[0] == parts[0];
    }
  }

  /** The first field of a split is a prefix of the text. */
  lemma SplitFirstPrefix(s: string, sep: string)
    requires |sep| > 0
    ensures StartsWith(s, Split(s, sep)[0])
  {
  }

  /** A text with no separator is a single field. */
  lemma SplitNoSep(s: string, sep: string)
    requires |sep| > 0
    requires !Contains(s, sep)
    ensures Split(s, sep) == [s]
  {
  }

  /** A text holding the separator has at least two fields. */
  lemma SplitFound(s: string, sep: string)
    requires |sep| > 0
    requires Contains(s, sep)
    ensures |Split(s, sep)| >= 2
  {
  }

  /** Splitting `a + c + b` on the character `c`, where `a` has no `c`, gives
      `a` followed by the fields of `b`. */
  lemma SplitCharFirst(a: string, c: char, b: string)
    requires forall j :: 0 <= j < |a| ==> a[j] != c
    ensures Split(a + [c] + b, [c]) == [a] + Split(b, [c])
  {
    var s := a + [c] + b;
    forall j | 0 <= j < |a| ensures !OccursAt(s, [c], j) {
      OccursAtChar(s, c, j);
    }
    OccursAtChar(s, c, |a|);
    assert Find(s, [c]) == |a|;
    assert s[..|a|] == a;
    assert s[|a| + 1..] == b;
  }

  /** A text without the separator character is a single field. */
  lemma NoCharSplit(s: string, c: char)
    requires c !in s
    ensures Split(s, [c]) == [s]
  {
    assert !Contains(s, [c]) by {
      if Contains(s, [c]) {
        OccursAtChar(s, c, Find(s, [c]));
      }
    }
    SplitNoSep(s, [c]);
  }

  /** Splitting parts joined by a character none of them holds gives the
      parts back. */
  lemma {:induction false} JoinSplitChar(parts: seq<string>, c: char)
    requires |parts| >= 1
    requires forall i :: 0 <= i < |parts| ==> c !in parts[i]
    ensures Split(Join(parts, [c]), [c]) == parts
    decreases |parts|
  {
    if |parts| == 1 {
      NoCharSplit(parts[0], c);
    } else {
      JoinSplitChar(parts[1..], c);
      assert [parts[0]] + parts[1..] == parts;
      JoinCons(parts[0], parts[1..], [c]);
      assert forall j :: 0 <= j < |parts[0]| ==> parts[0][j] != c;
      SplitCharFirst(parts[0], c, Join(parts[1..], [c]));
    }
  }

  /** Number of occurrences of character `c` in `s`. */
  function CountChar(s: string, c: char): nat
    decreases |s|
  {
    if |s| == 0 then 0 else (if s[0] == c then 1 else 0) + CountChar(s[1..], c)
  }

  lemma CountCharAppend(a: string, b: string, c: char)
    ensures CountChar(a + b, c) == CountChar(a, c) + CountChar(b, c)
    decreases |a|
  {
    if |a| > 0 {
      assert (a + b)[0] == a[0];
      assert (a + b)[1..] == a[1..] + b;
      CountCharAppend(a[1..], b, c);
    } else {
      assert a + b == b;
    }
  }

  lemma CountCharNone(s: string, c: char)
    requires forall j :: 0 <= j < |s| ==> s[j] != c
    ensures CountChar(s, c) == 0
    decreases |s|
  {
    if |s| > 0 {
      CountCharNone(s[1..], c);
    }
  }

  /** `[c]` occurs at `j` exactly when the character there is `c`. */
  lemma OccursAtChar(s: string, c: char, j: int)
    requires 0 <= j < |s|
    ensures OccursAt(s, [c], j) <==> s[j] == c
  {
    assert s[j..j + 1] == [s[j]];
  }

  /** Splitting on a single character yields one more field than there are
      occurrences of that character. */
  lemma {:induction false} SplitCharCount(s: string, c: char)
    ensures |Split(s, [c])| == CountChar(s, c) + 1
    decreases |s|
  {
    var i := Find(s, [c]);
    var upto := if i < 0 then |s| else i;
    forall j | 0 <= j < upto ensures s[j] != c {
      OccursAtChar(s, c, j);
    }
    assert forall j :: 0 <= j < |s[..upto]| ==> s[..upto][j] != c;
    CountCharNone(s[..upto], c);
    if i < 0 {
      assert s[..upto] == s;
    } else {
      var rest := s[i + 1..];
      SplitCharCount(rest, c);
      assert s == s[..i] + [c] + rest;
      CountCharAppend(s[..i] + [c], rest, c);
      CountCharAppend(s[..i], [c], c);
    }
  }

  /** Python `s.replace(pat, repl)`: every non-overlapping occurrence, left to
      right. */
  function Replace(s: string, pat: string, repl: string): (r: string)
    requires |pat| > 0
  {
    Join(Split(s, pat), repl)
  }

  /** Replacing a text that does not occur changes nothing. */
  lemma ReplaceAbsent(s: string, pat: string, repl: string)
    requires |pat| > 0
    requires !Contains(s, pat)
    ensures Replace(s, pat, repl) == s
  {
    SplitNoSep(s, pat);
  }

  /** Every `a` in `s` changed to `b`. */
  function SwapChar(s: string, a: char, b: char): (r: string)
    ensures |r| == |s|
    ensures forall i :: 0 <= i < |s| ==> r[i] == if s[i] == a then b else s[i]
  {
    seq(|s|, i requires 0 <= i < |s| => if s[i] == a then b else s[i])
  }

  /** Replacing one character by another is changing it wherever it
      occurs. */
  lemma {:induction false} ReplaceChar(s: string, a: char, b: char)
    ensures Replace(s, [a], [b]) == SwapChar(s, a, b)
    decreases |s|
  {
    if a !in s {
      assert !Contains(s, [a]) by {
        if Contains(s, [a]) {
          OccursAtChar(s, a, Find(s, [a]));
        }
      }
      ReplaceAbsent(s, [a], [b]);
      assert SwapChar(s, a, b) == s;
    } else {
      var i := IndexOf(s, a).value;
      var head, rest := s[..i], s[i + 1..];
      assert s == head + [a] + rest;
      SplitCharFirst(head, a, rest);
      ReplaceChar(rest, a, b);
      JoinCons(head, Split(rest, [a]), [b]);
      SwapAt(head, a, rest, b);
    }
  }

  lemma JoinCons(h: string, parts: seq<string>, sep: string)
    requires |parts| >= 1
    ensures Join([h] + parts, sep) == h + sep + Join(parts, sep)
  {
    assert ([h] + parts)[1..] == parts;
  }

  lemma SwapAt(head: string, a: char, rest: string, b: char)
    requires a !in head
    ensures SwapChar(head + [a] + rest, a, b) == head + [b] + SwapChar(rest, a, b)
  {
    var s := head + [a] + rest;
    var l, r := SwapChar(s, a, b), head + [b] + SwapChar(rest, a, b);
    assert forall k :: 0 <= k < |head| ==> s[k] == head[k];
    assert forall k :: |head| < k < |s| ==> s[k] == rest[k - |head| - 1];
    assert forall k :: 0 <= k < |s| ==> l[k] == r[k];
  }

  /** The text after the first occurrence of `sep` and before the second:
      Python `s.split(sep)[1]`, which raises IndexError without a separator. */
  function SecondField(s: string, sep: string): (r: Result<string>)
    requires |sep| > 0
    ensures r.Ok? <==> Contains(s, sep)
  {
    if Contains(s, sep) then Ok(Split(s, sep)[1]) else Fail(IndexError)
  }

  // ---------------------------------------------------------------------
  // Whitespace split and strip
  // ---------------------------------------------------------------------

  /** Length of the leading run of non-whitespace characters. */
  function WordLength(s: string): (n: nat)
    ensures n <= |s|
    ensures forall j :: 0 <= j < n ==> !IsSpace(s[j])
    ensures n == |s| || IsSpace(s[n])
    decreases |s|
  {
    if |s| == 0 || IsSpace(s[0]) then 0 else 1 + WordLength(s[1..])
  }

  /** Python `s.split()`: the maximal runs of non-whitespace characters. */
  function SplitWs(s: string): (r: seq<string>)
    decreases |s|
    ensures forall j :: 0 <= j < |r| ==> |r[j]| > 0
    ensures forall j, k :: 0 <= j < |r| && 0 <= k < |r[j]| ==> !IsSpace(r[j][k])
  {
    if |s| == 0 then []
    else if IsSpace(s[0]) then SplitWs(s[1..])
    else
      var n := WordLength(s);
      [s[..n]] + SplitWs(s[n..])
  }

  function LStripSet(s: string, chars: set<char>): (r: string)
    decreases |s|
    ensures |r| <= |s| && r == s[|s| - |r|..]
    ensures |r| > 0 ==> r[0] !in chars
  {
    if |s| > 0 && s[0] in chars then LStripSet(s[1..], chars) else s
  }

  function RStripSet(s: string, chars: set<char>): (r: string)
    decreases |s|
    ensures |r| <= |s| && r == s[..|r|]
    ensures |r| > 0 ==> r[|r| - 1] !in chars
  {
    if |s| > 0 && s[|s| - 1] in chars then RStripSet(s[..|s| - 1], chars) else s
  }

  /** Python `s.strip(chars)`. */
  function StripSet(s: string, chars: set<char>): string {
    RStripSet(LStripSet(s, chars), chars)
  }

  /** Stripping a text whose ends are not in `chars` leaves it as it is. */
  lemma StripSetNoop(s: string, chars: set<char>)
    requires |s| > 0 ==> s[0] !in chars && s[|s| - 1] !in chars
    ensures StripSet(s, chars) == s
  {
  }

  predicate IsSpaceInRange(s: string, lo: int, hi: int)
    requires 0 <= lo <= hi <= |s|
  {
    forall j :: lo <= j < hi ==> IsSpace(s[j])
  }

  function LStrip(s: string): (r: string)
    decreases |s|
    ensures |r| <= |s| && r == s[|s| - |r|..]
    ensures |r| > 0 ==> !IsSpace(r[0])
    ensures IsSpaceInRange(s, 0, |s| - |r|)
  {
    if |s| > 0 && IsSpace(s[0]) then LStrip(s[1..]) else s
  }

  function RStrip(s: string): (r: string)
    decreases |s|
    ensures |r| <= |s| && r == s[..|r|]
    ensures |r| > 0 ==> !IsSpace(r[|r| - 1])
    ensures IsSpaceInRange(s, |r|, |s|)
  {
    if |s| > 0 && IsSpace(s[|s| - 1]) then RStrip(s[..|s| - 1]) else s
  }

  /** Python `s.strip()`. */
  function Strip(s: string): (r: string)
    ensures |r| > 0 ==> !IsSpace(r[0]) && !IsSpace(r[|r| - 1])
  {
    RStrip(LStrip(s))
  }

  /** `s.strip()` is the slice of `s` that starts at the returned index. */
  lemma StripStart(s: string) returns (a: nat)
    ensures a + |Strip(s)| <= |s| && Strip(s) == s[a..a + |Strip(s)|]
  {
    var l, r := LStrip(s), Strip(s);
    a := |s| - |l|;
    assert l == s[a..|s|];
    assert r == l[0..|r|];
    SliceOfSlice(s, a, |s|, 0, |r|);
  }

  /** `s.strip()` is empty exactly when `s` is empty or all whitespace. */
  lemma StripEmpty(s: string)
    ensures Strip(s) == "" <==> forall j :: 0 <= j < |s| ==> IsSpace(s[j])
  {
    var l := LStrip(s);
    assert |l| > 0 ==> l[0] == s[|s| - |l|];
    assert Strip(s) == "" ==> IsSpaceInRange(l, 0, |l|);
  }

  // ---------------------------------------------------------------------
  // Python slicing and indexing
  // ---------------------------------------------------------------------

  /** A Python slice bound: negative values count from the end, and the
      result is clamped to `0..n`. */
  function Bound(i: int, n: nat): (r: nat)
    ensures r <= n
    ensures 0 <= i <= n ==> r == i
  {
    if i < 0 then (if i + n < 0 then 0 else i + n)
    else if i > n then n
    else i
  }

  /** Python `s[a:b]`. */
  function Slice<T>(s: seq<T>, a: int, b: int): (r: seq<T>)
    ensures 0 <= a <= b <= |s| ==> r == s[a..b]
  {
    var lo := Bound(a, |s|);
    var hi := Bound(b, |s|);
    if lo <= hi then s[lo..hi] else []
  }

  /** Python `s[:n]`. */
  function Take<T>(s: seq<T>, n: int): (r: seq<T>)
    ensures 0 <= n <= |s| ==> r == s[..n]
    ensures n >= |s| ==> r == s
  {
    Slice(s, 0, n)
  }

  /** Python `s[n:]`. */
  function Drop<T>(s: seq<T>, n: int): (r: seq<T>)
    ensures 0 <= n <= |s| ==> r == s[n..]
    ensures n >= |s| ==> r == []
  {
    Slice(s, n, |s|)
  }

  /** Python `s[i]`, negative indices counting from the end; IndexError
      outside the sequence. */
  function At<T>(s: seq<T>, i: int): (r: Result<T>)
    ensures r.Ok? <==> -|s| <= i < |s|
    ensures 0 <= i < |s| ==> r == Ok(s[i])
    ensures -|s| <= i < 0 ==> r == Ok(s[|s| + i])
  {
    if 0 <= i < |s| then Ok(s[i])
    else if -|s| <= i < 0 then Ok(s[|s| + i])
    else Fail(IndexError)
  }

  /** First index of `x` in `s` (Python `list.index`), None when absent. */
  function IndexOf<T(==)>(s: seq<T>, x: T): (r: Option<nat>)
    ensures r.Some? ==> r.value < |s| && s[r.value] == x
    ensures r.Some? ==> forall j :: 0 <= j < r.value ==> s[j] != x
    ensures r.None? <==> x !in s
  {
    if |s| == 0 then None
    else if s[0] == x then Some(0)
    else match IndexOf(s[1..], x)
      case Some(k) => Some(k + 1)
      case None => None
  }

  // ---------------------------------------------------------------------
  // Sequences of sequences
  // ---------------------------------------------------------------------

  /** The pieces one after the other. */
  function Flatten<T>(gs: seq<seq<T>>): seq<T>
    decreases |gs|
  {
    if |gs| == 0 then [] else Flatten(gs[..|gs| - 1]) + gs[|gs| - 1]
  }

  lemma FlattenSnoc<T>(gs: seq<seq<T>>, g: seq<T>)
    ensures Flatten(gs + [g]) == Flatten(gs) + g
  {
    assert (gs + [g])[..|gs|] == gs;
  }
}
