/** Going through a set element by element; where the source sorts, any order without repetition will do. */
module Enumeration {

  ghost predicate Enumerates<T(!new)>(order: seq<T>, elements: set<T>) {
    (forall x :: x in order <==> x in elements) && forall i, j :: 0 <= i < j < |order| ==> order[i] != order[j]
  }

  method Sorted<T(==, !new)>(elements: set<T>) returns (order: seq<T>)
    ensures Enumerates(order, elements)
  {
    order := [];
    var rest := elements;
    while rest != {}
      invariant rest <= elements && forall x :: x in order <==> x in elements - rest
      invariant forall i, j :: 0 <= i < j < |order| ==> order[i] != order[j]
      decreases |rest|
    {
      var next :| next in rest;
      assert next !in order;
      assert forall x :: x in order + [next] <==> x in order || x == next;
      order, rest := order + [next], rest - {next};
    }
  }
}
