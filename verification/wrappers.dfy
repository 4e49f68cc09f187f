/** Failure-carrying result types shared by every module.

    The original scripts signal failure by raising Python exceptions; each
    model function that can raise returns a `Result` whose `Fail` case names
    the exception class the original would raise at that point.
 */
module Wrappers {

  datatype Option<+T> = None | Some(value: T) {

    predicate IsFailure() {
      None?
    }

    function PropagateFailure<U>(): Option<U>
      requires None?
    {
      None
    }

    function Extract(): T
      requires Some?
    {
      value
    }

    function GetOr(default: T): T {
      match this
      case Some(v) => v
      case None => default
    }
  }

  /** The Python exception classes the modelled code can raise. */
  datatype Fault =
    | IndexError      // list/str index out of range, empty split result
    | KeyError        // missing dict key
    | ValueError      // bad int()/float()/strptime() input, bad unpacking
    | OverflowError   // a date moved before year 1 or past year 9999
    | UnboundName     // NameError / UnboundLocalError on a never-assigned name
    | AttributeError  // method missing on the value's type
    | TypeError       // operation applied to None
    | SystemExit      // sys.exit() ends the run

  datatype Result<+T> = Ok(value: T) | Fail(fault: Fault) {

    predicate IsFailure() {
      Fail?
    }

    function PropagateFailure<U>(): Result<U>
      requires Fail?
    {
      Fail(fault)
    }

    function Extract(): T
      requires Ok?
    {
      value
    }
  }

  /** Turns a missing value into the given exception. */
  function Need<T>(o: Option<T>, f: Fault): (r: Result<T>)
    ensures r.Ok? <==> o.Some?
    ensures r.Ok? ==> r.value == o.value
    ensures r.Fail? ==> r.fault == f
  {
    match o
    case Some(v) => Ok(v)
    case None => Fail(f)
  }

  /** Applies `f` to every element in order; the first failure is the
      result. */
  function MapAll<A, B>(xs: seq<A>, f: A -> Result<B>): (r: Result<seq<B>>)
    ensures r.Ok? <==> forall i :: 0 <= i < |xs| ==> f(xs[i]).Ok?
    ensures r.Ok? ==> |r.value| == |xs|
    ensures r.Ok? ==> forall i :: 0 <= i < |xs| ==> r.value[i] == f(xs[i]).value
    ensures r.Fail? ==> exists i :: 0 <= i < |xs| && f(xs[i]) == Fail(r.fault)
    decreases |xs|
  {
    if |xs| == 0 then Ok([])
    else match f(xs[0])
      case Fail(e) => Fail(e)
      case Ok(y) =>
        match MapAll(xs[1..], f)
        case Fail(e) =>
          assert forall i :: 1 <= i < |xs| ==> xs[1..][i - 1] == xs[i];
          Fail(e)
        case Ok(ys) =>
          assert forall i :: 1 <= i < |xs| ==> xs[1..][i - 1] == xs[i];
          Ok([y] + ys)
  }

  /** Applies `f` to every element in order, keeping the present results;
      the first failure is the result. */
  function Gather<A, B>(xs: seq<A>, f: A -> Result<Option<B>>): (r: Result<seq<B>>)
    ensures r.Ok? ==> |r.value| <= |xs|
    decreases |xs|
  {
    if |xs| == 0 then Ok([])
    else if f(xs[0]).Fail? then Fail(f(xs[0]).fault)
    else
      var rest := Gather(xs[1..], f);
      if rest.Fail? then rest
      else Ok(Listed(f(xs[0]).value) + rest.value)
  }

  /** Gathering succeeds exactly when every element does; a failure is
      some element's. */
  lemma {:induction false} GatherOk<A, B>(xs: seq<A>, f: A -> Result<Option<B>>)
    ensures Gather(xs, f).Ok? <==> forall i :: 0 <= i < |xs| ==> f(xs[i]).Ok?
    ensures Gather(xs, f).Fail? ==> exists i :: 0 <= i < |xs| && f(xs[i]) == Fail(Gather(xs, f).fault)
    decreases |xs|
  {
    if |xs| > 0 {
      GatherOk(xs[1..], f);
      assert forall i :: 1 <= i < |xs| ==> xs[1..][i - 1] == xs[i];
    }
  }

  /** Every gathered value is some element's. */
  lemma {:induction false} GatherFrom<A, B>(xs: seq<A>, f: A -> Result<Option<B>>, y: B)
    requires Gather(xs, f).Ok? && y in Gather(xs, f).value
    ensures exists i :: 0 <= i < |xs| && f(xs[i]) == Ok(Some(y))
    decreases |xs|
  {
    var o := f(xs[0]).value;
    if o.Some? && o.value == y {
      assert f(xs[0]) == Ok(Some(y));
    } else {
      GatherFrom(xs[1..], f, y);
      var i :| 0 <= i < |xs[1..]| && f(xs[1..][i]) == Ok(Some(y));
      assert xs[1..][i] == xs[i + 1];
    }
  }

  /** The first element's result in front of the rest's. */
  lemma GatherCons<A, B>(xs: seq<A>, f: A -> Result<Option<B>>)
    requires |xs| > 0 && Gather(xs, f).Ok?
    ensures f(xs[0]).Ok? && Gather(xs[1..], f).Ok?
    ensures Gather(xs, f).value == Listed(f(xs[0]).value) + Gather(xs[1..], f).value
  {
  }

  /** An optional value as a list of at most one. */
  function Listed<T>(o: Option<T>): (r: seq<T>)
    ensures |r| <= 1
  {
    if o.Some? then [o.value] else []
  }

  /** Gathering two lists together gathers each in turn. */
  lemma {:induction false} GatherAppend<A, B>(xs: seq<A>, ys: seq<A>, f: A -> Result<Option<B>>)
    requires Gather(xs, f).Ok? && Gather(ys, f).Ok?
    ensures Gather(xs + ys, f) == Ok(Gather(xs, f).value + Gather(ys, f).value)
    decreases |xs|
  {
    if |xs| == 0 {
      assert xs + ys == ys;
      assert Gather(xs, f).value + Gather(ys, f).value == Gather(ys, f).value;
    } else {
      var zs := xs + ys;
      assert zs[1..] == xs[1..] + ys;
      assert zs[0] == xs[0];
      GatherCons(xs, f);
      GatherAppend(xs[1..], ys, f);
      GatherCons(zs, f);
      var head := Listed(f(xs[0]).value);
      var a := Gather(xs[1..], f).value;
      var b := Gather(ys, f).value;
      assert head + (a + b) == (head + a) + b;
    }
  }
}
