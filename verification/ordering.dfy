/** Python's `min` and `sorted` over the keys of a dict, for integer keys. */
module Ordering {
  lemma HasLeast(s: set<int>)
    requires s != {}
    ensures exists m :: m in s && forall y :: y in s ==> m <= y
    decreases |s|
  {
    var x := PickOne(s);
    if s != {x} {
      HasLeast(s - {x});
      var m :| m in s - {x} && forall y :: y in s - {x} ==> m <= y;
      var k := if x < m then x else m;
      assert forall y :: y in s ==> k <= y by {
        forall y | y in s
          ensures k <= y
        {
          if y != x {
            assert y in s - {x};
          }
        }
      }
    } else {
      assert forall y :: y in s ==> x <= y;
    }
  }

  lemma PickOne(s: set<int>) returns (x: int)
    requires s != {}
    ensures x in s
  {
    if forall y :: y !in s {
      EmptyWithoutMembers(s);
    }
    x :| x in s;
  }

  lemma EmptyWithoutMembers(s: set<int>)
    requires forall y :: y !in s
    ensures s == {}
  {
    assert forall y :: y in s <==> y in {};
  }

  /** `min(data.keys())`. */
  function Least(s: set<int>): (m: int)
    requires s != {}
    ensures m in s && forall y :: y in s ==> m <= y
  {
    HasLeast(s);
    var m :| m in s && forall y :: y in s ==> m <= y;
    m
  }

  /** `sorted(data.keys())`. */
  function SortedKeys(s: set<int>): (r: seq<int>)
    decreases |s|
    ensures |r| == |s|
    ensures forall i, j :: 0 <= i < j < |r| ==> r[i] < r[j]
    ensures forall i :: 0 <= i < |r| ==> r[i] in s
    ensures forall x :: x in s ==> x in r
    ensures |r| > 0 ==> r[0] == Least(s)
  {
    if s == {} then []
    else
      var m := Least(s);
      var rest := SortedKeys(s - {m});
      assert forall i :: 0 <= i < |rest| ==> m < rest[i];
      [m] + rest
  }
}
