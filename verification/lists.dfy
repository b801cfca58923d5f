/** The few Python list facts the script relies on: directory listings hold
distinct names, and `list.remove` drops the first occurrence of a value. */
module Lists {

  predicate Distinct<T(==)>(xs: seq<T>) {
    forall i, j :: 0 <= i < j < |xs| ==> xs[i] != xs[j]
  }

  /** In a list of distinct values, the head is not in the tail and the
      tail is distinct. */
  lemma DistinctTail<T>(xs: seq<T>)
    requires xs != []
    ensures Distinct(xs) ==> Distinct(xs[1..]) && xs[0] !in xs[1..]
  {
    if Distinct(xs) {
      forall j | 0 <= j < |xs[1..]|
        ensures xs[1..][j] != xs[0]
      {
        assert xs[1..][j] == xs[j + 1];
      }
    }
  }

  /** `xs.remove(x)` for an `x` that is in `xs` (otherwise Python raises
      `ValueError`, which the script never provokes). */
  function RemoveFirst<T(==, !new)>(xs: seq<T>, x: T): (r: seq<T>)
    requires x in xs
    ensures |r| == |xs| - 1
    ensures forall y :: y != x ==> (y in r <==> y in xs)
    ensures Distinct(xs) ==> Distinct(r) && x !in r
    decreases |xs|
  {
    if xs[0] == x then
      DistinctTail(xs);
      assert forall y :: y in xs[1..] ==> y in xs;
      xs[1..]
    else
      var rest := RemoveFirst(xs[1..], x);
      assert forall y :: y in xs[1..] ==> y in xs;
      assert forall y :: y in xs && y != xs[0] ==> y in xs[1..];
      DistinctTail(xs);
      [xs[0]] + rest
  }

  /** `for x in xs: ys.remove(x)`, for distinct `xs` all present in `ys`. */
  function RemoveEach<T(==, !new)>(ys: seq<T>, xs: seq<T>): (r: seq<T>)
    requires Distinct(ys) && Distinct(xs)
    requires forall x :: x in xs ==> x in ys
    ensures Distinct(r)
    ensures forall y :: y in r <==> y in ys && y !in xs
    ensures |r| == |ys| - |xs|
    decreases |xs|
  {
    if xs == [] then ys
    else
      var ys' := RemoveFirst(ys, xs[0]);
      DistinctTail(xs);
      assert forall x :: x in xs[1..] ==> x in xs;
      RemoveEach(ys', xs[1..])
  }
}
