/**
 * The two array operations the listener registries rely on:
 * `Array.prototype.indexOf` and a one-element `splice` at that index.
 */
module Lists {

  /** Position of the first `x` in `xs`, or -1 when there is none. */
  function IndexOf<T(==)>(xs: seq<T>, x: T): (i: int)
    ensures -1 <= i < |xs|
    ensures i == -1 <==> x !in xs
    ensures 0 <= i ==> xs[i] == x && x !in xs[..i]
  {
    if |xs| == 0 then -1
    else if xs[0] == x then 0
    else
      var j := IndexOf(xs[1..], x);
      if j == -1 then -1
      else
        assert xs[..j + 1] == [xs[0]] + xs[1..][..j];
        j + 1
  }

  /** `xs` after `splice(indexOf(x), 1)` when `x` occurs, `xs` itself otherwise. */
  function RemoveFirst<T(==)>(xs: seq<T>, x: T): (ys: seq<T>)
    ensures x !in xs ==> ys == xs
    ensures x in xs ==> |ys| == |xs| - 1 && multiset(ys) == multiset(xs) - multiset{x}
  {
    var i := IndexOf(xs, x);
    if i == -1 then xs
    else
      assert xs == xs[..i] + [xs[i]] + xs[i + 1..];
      xs[..i] + xs[i + 1..]
  }

  /**
   * A second removal of the same element is a no-op when it occurred at most
   * once, and removes another copy when it occurred twice.
   */
  lemma {:induction false} RemoveFirstTwice<T>(xs: seq<T>, x: T)
    ensures multiset(xs)[x] <= 1 ==> RemoveFirst(RemoveFirst(xs, x), x) == RemoveFirst(xs, x)
    ensures multiset(xs)[x] >= 2 ==> |RemoveFirst(RemoveFirst(xs, x), x)| == |xs| - 2
  {
    var ys := RemoveFirst(xs, x);
    if x in xs {
      assert multiset(ys)[x] == multiset(xs)[x] - 1;
      if multiset(xs)[x] <= 1 {
        assert x !in multiset(ys);
      } else {
        assert x in multiset(ys);
      }
    }
  }
}
