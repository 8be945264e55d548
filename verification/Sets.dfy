module Sets {

  lemma EmptyOrNot(s: set<int>)
    ensures s == {} || exists x :: x in s
  {
    if forall x :: x !in s { assert s == {}; }
  }

  lemma {:induction false} SubsetIsSmaller(a: set<int>, b: set<int>)
    requires a <= b
    ensures |a| <= |b|
    decreases a
  {
    EmptyOrNot(a);
    if x :| x in a {
      SubsetIsSmaller(a - {x}, b - {x});
    }
  }
}
