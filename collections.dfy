/** Facts about finite sets and duplicate-free lists shared by the models. */
module Collections {

  /** No element occurs twice in the list. */
  predicate Distinct<T(==)>(list: seq<T>) {
    forall p, q :: 0 <= p < q < |list| ==> list[p] != list[q]
  }

  /** The set of elements of a list. */
  function Elements<T>(list: seq<T>): set<T> {
    set s | s in list
  }

  /** A subset is no larger than its superset, and equally large only when equal. */
  lemma {:induction false} SubsetCard<T>(a: set<T>, b: set<T>)
    requires a <= b
    ensures |a| <= |b|
    ensures |a| == |b| ==> a == b
  {
    if b != {} {
      var y :| y in b;
      SubsetCard(a - {y}, b - {y});
      if |a| == |b| {
        assert y in a;
        assert a - {y} == b - {y};
      }
    }
  }

  /** The elements of a set, listed once each in some order. */
  method ListOf<T>(s: set<T>) returns (list: seq<T>)
    ensures Distinct(list) && Elements(list) == s
  {
    list := [];
    var rest := s;
    while rest != {}
      invariant rest <= s && Distinct(list)
      invariant forall x :: x in list <==> x in s - rest
      decreases rest
    {
      var x :| x in rest;
      assert x !in list;
      list := list + [x];
      rest := rest - {x};
    }
  }
}
