/** Picking an element of a finite set, which the proofs and loops over sets rely on. */
module Sets {

  /** A set other than {} has an element. */
  lemma NonEmpty<T>(s: set<T>)
    requires s != {}
    ensures exists x :: x in s
  {
    if forall x :: x !in s {
      assert false;
    }
  }

  /** Some element of a non-empty set. */
  ghost function Pick<T>(s: set<T>): (x: T)
    requires s != {}
    ensures x in s
  {
    NonEmpty(s);
    var x :| x in s;
    x
  }

  /** Some element of a non-empty set, chosen at run time (the next element an iteration visits). */
  method Choose<T(==)>(s: set<T>) returns (x: T)
    requires s != {}
    ensures x in s
  {
    NonEmpty(s);
    x :| x in s;
  }

  /** No element is listed twice. */
  predicate Distinct(order: seq<int>) {
    forall i, j | 0 <= i < j < |order| :: order[i] != order[j]
  }

  /**
   * One element moves from the set still to visit to the list of those
   * visited, as each turn of a loop over a set does.
   */
  lemma Advance(all: set<int>, rest: set<int>, order: seq<int>, x: int)
    requires rest <= all && x in rest && Distinct(order)
    requires forall y :: y in order <==> y in all && y !in rest
    ensures rest - {x} <= all && |rest - {x}| < |rest|
    ensures Distinct(order + [x]) && (order + [x])[..|order|] == order
    ensures forall y :: y in order + [x] <==> y in all && y !in rest - {x}
  {
    assert x !in order;
  }

  /** The last of a list of distinct elements, and the others. */
  lemma SplitLast(order: seq<int>, all: set<int>)
    requires |order| > 0 && Distinct(order)
    requires forall y :: y in order <==> y in all
    ensures var init := order[..|order| - 1]; var x := order[|order| - 1];
      && x in all && Distinct(init) && all - {x} + {x} == all
      && (forall y :: y in init <==> y in all - {x})
  {
    var init := order[..|order| - 1];
    var x := order[|order| - 1];
    assert order == init + [x];
    forall i | 0 <= i < |init| ensures init[i] != x {
      assert init[i] == order[i];
    }
  }
}
