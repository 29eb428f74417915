/** Optional values and results with an error, as used throughout the model. */
module Wrappers {

  datatype Option<+T> = None | Some(value: T)

  datatype Result<+T, +E> = Ok(value: T) | Err(error: E)

  /** The exceptions the table pipeline can raise. Python raises them and the
      script has no handler, so each one ends the processing of the table. */
  datatype Failure =
    | ValueError      // float() or int() refused its argument
    | LabelNotText    // unidecode() applied to a NaN label cell
    | IndexError      // positional access past the end of a list or index
    | ShapeMismatch   // pandas refused a column list whose length differs from the data
    | DuplicateColumn // a column selection matched several columns, or insert met an existing name
    | NotAString      // str.split called on an integer column label

  /** f applied to every element in turn, as a Python loop that appends
      f(x) to a list: the first element for which f raises ends the loop
      with that exception. */
  function MapAll<A, B>(xs: seq<A>, f: A -> Result<B, Failure>): (r: Result<seq<B>, Failure>)
    ensures r.Ok? <==> forall i :: 0 <= i < |xs| ==> f(xs[i]).Ok?
    ensures r.Ok? ==> |r.value| == |xs|
    ensures r.Ok? ==> forall i :: 0 <= i < |xs| ==> f(xs[i]).Ok? && r.value[i] == f(xs[i]).value
    ensures r.Err? ==> exists k :: 0 <= k < |xs| && f(xs[k]) == Err(r.error)
                                   && forall i :: 0 <= i < k ==> f(xs[i]).Ok?
  {
    if xs == [] then Ok([])
    else
      assert forall i :: 0 <= i < |xs| - 1 ==> xs[..|xs| - 1][i] == xs[i];
      match MapAll(xs[..|xs| - 1], f)
      case Err(e) => Err(e)
      case Ok(init) =>
        match f(xs[|xs| - 1])
        case Err(e) => Err(e)
        case Ok(y) =>
          assert forall i :: 0 <= i < |xs| - 1 ==> (init + [y])[i] == init[i];
          Ok(init + [y])
  }

  /** The first element for which f fails decides the error of MapAll. */
  lemma MapAllFirstFailure<A, B>(xs: seq<A>, f: A -> Result<B, Failure>, k: nat)
    requires k < |xs| && f(xs[k]).Err? && forall i :: 0 <= i < k ==> f(xs[i]).Ok?
    ensures MapAll(xs, f) == Err(f(xs[k]).error)
  {
    var r := MapAll(xs, f);
    var k' :| 0 <= k' < |xs| && f(xs[k']) == Err(r.error) && forall i :: 0 <= i < k' ==> f(xs[i]).Ok?;
    assert k' == k;
  }

  /** When f succeeds on every element, MapAll gives the results in order. */
  lemma MapAllResults<A, B>(xs: seq<A>, f: A -> Result<B, Failure>, ys: seq<B>)
    requires |ys| == |xs| && forall i :: 0 <= i < |xs| ==> f(xs[i]).Ok? && ys[i] == f(xs[i]).value
    ensures MapAll(xs, f) == Ok(ys)
  {
    var r := MapAll(xs, f);
    assert r.value == ys;
  }

  /** The loop itself: f(x) is appended to a list for each x in turn, and
      the first exception leaves the loop. */
  method MapEach<A, B>(xs: seq<A>, f: A -> Result<B, Failure>) returns (r: Result<seq<B>, Failure>)
    ensures r == MapAll(xs, f)
  {
    var ys: seq<B> := [];
    var i := 0;
    while i < |xs|
      invariant 0 <= i <= |xs| && |ys| == i
      invariant forall k :: 0 <= k < i ==> f(xs[k]).Ok? && ys[k] == f(xs[k]).value
    {
      var y := f(xs[i]);
      if y.Err? {
        MapAllFirstFailure(xs, f, i);
        return Err(y.error);
      }
      ys := ys + [y.value];
      i := i + 1;
    }
    MapAllResults(xs, f, ys);
    r := Ok(ys);
  }
}
