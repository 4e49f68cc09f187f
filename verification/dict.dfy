/** A Python `dict` with its insertion order, as a sequence of key/value
    pairs with distinct keys. The scripts iterate their dicts (`items()`,
    `keys()`) and the output depends on that order, so a plain `map` is not
    enough.
 */
module Dict {
  import opened Wrappers

  type Dict<K, V> = seq<(K, V)>

  function Keys<K, V>(d: Dict<K, V>): (r: seq<K>)
    ensures |r| == |d|
    ensures forall i :: 0 <= i < |d| ==> r[i] == d[i].0
  {
    seq(|d|, i requires 0 <= i < |d| => d[i].0)
  }

  predicate Distinct<K(==), V>(d: Dict<K, V>) {
    forall i, j :: 0 <= i < j < |d| ==> d[i].0 != d[j].0
  }

  /** Position of key `k`, None when absent. */
  function IndexOfKey<K(==), V>(d: Dict<K, V>, k: K): (r: Option<nat>)
    ensures r.Some? ==> r.value < |d| && d[r.value].0 == k
    ensures r.Some? ==> forall j :: 0 <= j < r.value ==> d[j].0 != k
    ensures r.None? <==> forall j :: 0 <= j < |d| ==> d[j].0 != k
  {
    if |d| == 0 then None
    else if d[0].0 == k then Some(0)
    else match IndexOfKey(d[1..], k)
      case Some(j) => Some(j + 1)
      case None => None
  }

  /** `d.get(k)`. */
  function Get<K(==), V>(d: Dict<K, V>, k: K): (r: Option<V>)
    ensures r.None? <==> k !in Keys(d)
  {
    match IndexOfKey(d, k)
    case Some(i) => Some(d[i].1)
    case None => None
  }

  /** The first entry with key `k` is what `Get` finds. */
  lemma GetAt<K, V>(d: Dict<K, V>, k: K, i: nat)
    requires i < |d| && d[i].0 == k
    requires forall j :: 0 <= j < i ==> d[j].0 != k
    ensures Get(d, k) == Some(d[i].1)
  {
  }

  /** A key no entry has is not found. */
  lemma GetAbsent<K, V>(d: Dict<K, V>, k: K)
    requires forall j :: 0 <= j < |d| ==> d[j].0 != k
    ensures Get(d, k) == None
  {
  }

  /** `d[k] = v`: an existing key keeps its place, a new one goes last. */
  function Put<K(==), V>(d: Dict<K, V>, k: K, v: V): (r: Dict<K, V>)
    ensures k in Keys(d) ==> Keys(r) == Keys(d)
    ensures k !in Keys(d) ==> Keys(r) == Keys(d) + [k]
  {
    match IndexOfKey(d, k)
    case Some(i) => d[i := (k, v)]
    case None => d + [(k, v)]
  }

  /** What `Put` stores is what `Get` finds, distinct keys or not. */
  lemma GetPut<K, V>(d: Dict<K, V>, k: K, v: V)
    ensures Get(Put(d, k, v), k) == Some(v)
  {
    var r := Put(d, k, v);
    match IndexOfKey(d, k)
    case Some(i) =>
      assert IndexOfKey(r, k) == Some(i);
    case None =>
      assert forall x :: 0 <= x < |d| ==> r[x] == d[x];
      assert r[|d|].0 == k;
      assert IndexOfKey(r, k) == Some(|d|);
  }

  /** A value `Get` finds is stored in the dict under its key. */
  lemma GetIn<K, V>(d: Dict<K, V>, k: K)
    requires Get(d, k).Some?
    ensures exists j :: 0 <= j < |d| && d[j] == (k, Get(d, k).value)
  {
    var j := IndexOfKey(d, k).value;
    assert d[j] == (k, Get(d, k).value);
  }

  /** What `Put` stores is what `Get` finds, every other key is left as it
      was, and keys stay distinct. */
  lemma PutGet<K, V>(d: Dict<K, V>, k: K, v: V, j: K)
    requires Distinct(d)
    ensures Distinct(Put(d, k, v))
    ensures Get(Put(d, k, v), k) == Some(v)
    ensures j != k ==> Get(Put(d, k, v), j) == Get(d, j)
  {
    PutDistinct(d, k, v);
    GetPut(d, k, v);
    if j != k {
      PutOther(d, k, v, j);
    }
  }

  /** A property every entry has, and the new entry has too, holds for
      every entry after `Put`. */
  lemma PutAll<K, V>(d: Dict<K, V>, k: K, v: V, p: (K, V) -> bool)
    requires forall x :: 0 <= x < |d| ==> p(d[x].0, d[x].1)
    requires p(k, v)
    ensures var r := Put(d, k, v); forall x :: 0 <= x < |r| ==> p(r[x].0, r[x].1)
  {
  }

  lemma PutDistinct<K, V>(d: Dict<K, V>, k: K, v: V)
    requires Distinct(d)
    ensures Distinct(Put(d, k, v))
  {
    var r := Put(d, k, v);
    assert forall x :: 0 <= x < |r| ==> r[x].0 == Keys(r)[x];
    assert forall x :: 0 <= x < |d| ==> d[x].0 == Keys(d)[x];
  }

  /** `Put` leaves every other key where it was. */
  lemma PutOther<K, V>(d: Dict<K, V>, k: K, v: V, j: K)
    requires j != k
    ensures Get(Put(d, k, v), j) == Get(d, j)
  {
    var r := Put(d, k, v);
    assert forall x :: 0 <= x < |d| ==> r[x].0 == d[x].0 && (r[x].0 == j ==> r[x] == d[x]);
    match IndexOfKey(d, j)
    case Some(m) =>
      assert IndexOfKey(r, j) == Some(m);
    case None =>
      assert IndexOfKey(r, j) == None;
  }
}
