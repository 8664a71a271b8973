/** `source.Where(test).ToList()` for a predicate that may throw: the
    list is built front to back, and the first exception ends it. */
module Linq {
  import opened Wrappers

  function WhereToList<T, E>(source: seq<T>, test: T -> Result<bool, E>): (r: Result<seq<T>, E>)
    ensures r.Success? <==> forall i :: 0 <= i < |source| ==> test(source[i]).Success?
    ensures r.Success? ==> |r.value| <= |source|
    ensures r.Success? ==> forall x :: x in r.value ==> x in source && test(x) == Success(true)
    ensures r.Success? ==>
      forall i :: 0 <= i < |source| && test(source[i]) == Success(true) ==> source[i] in r.value
  {
    if |source| == 0 then Success([])
    else
      var kept :- test(source[0]);
      var rest :- WhereToList(source[1..], test);
      assert forall i :: 1 <= i < |source| ==> source[i] == source[1..][i - 1];
      Success(if kept then [source[0]] + rest else rest)
  }

  /** One element is kept exactly when the predicate holds of it. */
  lemma WhereSingle<T, E>(x: T, test: T -> Result<bool, E>)
    requires test(x).Success?
    ensures WhereToList([x], test) == Success(if test(x).value then [x] else [])
  {
    assert [x][1..] == [];
    assert [x] + [] == [x];
  }

  /** Filtering distributes over concatenation, so input order is kept. */
  lemma {:induction false} WhereAppend<T, E>(a: seq<T>, b: seq<T>, test: T -> Result<bool, E>)
    requires WhereToList(a, test).Success? && WhereToList(b, test).Success?
    ensures WhereToList(a + b, test) == Success(WhereToList(a, test).value + WhereToList(b, test).value)
  {
    if |a| > 0 {
      assert (a + b)[1..] == a[1..] + b;
      assert (a + b)[0] == a[0];
      WhereAppend(a[1..], b, test);
      var ra, rb := WhereToList(a[1..], test).value, WhereToList(b, test).value;
      assert [a[0]] + ra + rb == [a[0]] + (ra + rb);
    } else {
      assert a + b == b;
      assert [] + WhereToList(b, test).value == WhereToList(b, test).value;
    }
  }

  /** The first element whose predicate throws decides the error. */
  lemma {:induction false} WhereFirstError<T, E>(source: seq<T>, test: T -> Result<bool, E>, k: nat)
    requires k < |source|
    requires forall i :: 0 <= i < k ==> test(source[i]).Success?
    requires test(source[k]).Failure?
    ensures WhereToList(source, test) == Failure(test(source[k]).error)
  {
    if k > 0 {
      assert forall i :: 0 <= i < k - 1 ==> source[1..][i] == source[i + 1];
      assert source[1..][k - 1] == source[k];
      WhereFirstError(source[1..], test, k - 1);
    }
  }
}
