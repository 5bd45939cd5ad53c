/** Cardinality facts about finite sets of grid cells. */
module Sets {

  /** A set that is the image of `A` under a function one-to-one on `A` is as large as `A`. */
  lemma {:induction false} InjectiveImageCard<T, U>(A: set<T>, B: set<U>, f: T -> U)
    requires forall x, y | x in A && y in A && f(x) == f(y) :: x == y
    requires forall x | x in A :: f(x) in B
    requires forall y | y in B :: exists x | x in A :: f(x) == y
    ensures |B| == |A|
  {
    if A == {} {
      assert B == {};
    } else {
      var a :| a in A;
      var A', B' := A - {a}, B - {f(a)};
      forall y | y in B'
        ensures exists x | x in A' :: f(x) == y
      {
        var x :| x in A && f(x) == y;
        assert x in A';
      }
      InjectiveImageCard(A', B', f);
    }
  }
}
