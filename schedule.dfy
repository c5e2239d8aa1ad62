/**
 * The prioritized set of the registry: a TreeSet ordered by start time.
 * Because its comparator looks at the start only, two elements with the same
 * start are "the same" to it: add keeps the first, and remove(x) removes
 * whichever element has x's start.  It is modelled as a sequence strictly
 * increasing by start.
 *
 * isIntersectedTask, the admission rule, is defined here too: a dated
 * candidate clashes with an element of a different identity that has the
 * same start or whose half-open window overlaps its own.
 */
module Schedule {
  import opened Wrappers
  import opened Entities

  function StartOf(t: Task): int
    requires t.start.Some?
  {
    t.start.value
  }

  function EndOf(t: Task): int
    requires IsPrioritized(t)
  {
    EndTime(t).value
  }

  /** The TreeSet's order: every element has a start, and starts strictly increase. */
  predicate Sorted(q: seq<Task>) {
    && (forall i :: 0 <= i < |q| ==> q[i].start.Some?)
    && (forall i, j :: 0 <= i < j < |q| ==> q[i].start.value < q[j].start.value)
  }

  /** `t` (an admitted entity) and `c` (a candidate) clash: the same start, or overlapping windows. */
  predicate Conflict(t: Task, c: Task)
    requires IsPrioritized(t) && IsPrioritized(c)
  {
    StartOf(t) == StartOf(c) || (StartOf(t) < EndOf(c) && EndOf(t) > StartOf(c))
  }

  predicate AllPrioritized(q: seq<Task>) {
    forall x | x in q :: IsPrioritized(x)
  }

  /** No element of `q` starts at `start`. */
  predicate StartFree(q: seq<Task>, start: Option<int>) {
    forall x | x in q :: x.start != start
  }

  /**
   * The schedule the registry keeps: ordered by start, every element dated,
   * no two elements clashing and no entity twice.
   */
  predicate Valid(q: seq<Task>) {
    && Sorted(q)
    && AllPrioritized(q)
    && (forall x, y | x in q && y in q && x != y :: !Conflict(x, y) && !Equals(x, y))
  }

  /** The anyMatch over the stream of the set, element by element. */
  function AnyConflict(q: seq<Task>, c: Task): (r: bool)
    requires AllPrioritized(q) && IsPrioritized(c)
    ensures r <==> exists x :: x in q && !Equals(x, c) && Conflict(x, c)
    decreases |q|
  {
    if |q| == 0 then false
    else
      var rest := AnyConflict(q[1..], c);
      assert forall x :: x in q <==> x == q[0] || x in q[1..];
      (!Equals(q[0], c) && Conflict(q[0], c)) || rest
  }

  /**
   * isIntersectedTask: false for a candidate without a start or an end;
   * otherwise whether some element other than the candidate itself clashes
   * with it.
   */
  function IsIntersectedTask(q: seq<Task>, c: Task): (r: bool)
    requires AllPrioritized(q)
    ensures r <==> IsPrioritized(c) && exists x :: x in q && !Equals(x, c) && Conflict(x, c)
  {
    if c.start.None? || EndTime(c).None? then false else AnyConflict(q, c)
  }

  /** TreeSet.add: inserted in start order, unless an element with the same start is present. */
  function Insert(q: seq<Task>, t: Task): (r: seq<Task>)
    requires Sorted(q) && t.start.Some?
    ensures forall x :: x in r <==> x in q || (x == t && StartFree(q, t.start))
    ensures Sorted(r)
    decreases |q|
  {
    if |q| == 0 then [t]
    else if t.start.value < q[0].start.value then
      assert forall x :: x in q ==> x == q[0] || x.start.value > q[0].start.value;
      SortedCons(t, q);
      [t] + q
    else if t.start == q[0].start then q
    else
      var rest := Insert(q[1..], t);
      assert forall x :: x in q <==> x == q[0] || x in q[1..];
      assert forall x :: x in q[1..] ==> x.start.value > q[0].start.value;
      SortedCons(q[0], rest);
      [q[0]] + rest
  }

  /** The elements of `q` that `keep` accepts, in order. */
  function Filter(q: seq<Task>, keep: Task -> bool): (r: seq<Task>)
    ensures forall x :: x in r <==> x in q && keep(x)
    ensures |r| <= |q|
    decreases |q|
  {
    if |q| == 0 then []
    else
      var rest := Filter(q[1..], keep);
      assert forall x :: x in q <==> x == q[0] || x in q[1..];
      if keep(q[0]) then [q[0]] + rest else rest
  }

  /** Dropping elements keeps the order. */
  lemma {:induction false} FilterKeepsSorted(q: seq<Task>, keep: Task -> bool)
    ensures Sorted(q) ==> Sorted(Filter(q, keep))
    decreases |q|
  {
    if |q| > 0 && Sorted(q) {
      FilterKeepsSorted(q[1..], keep);
      if keep(q[0]) {
        var rest := Filter(q[1..], keep);
        assert forall x :: x in q[1..] ==> x.start.value > q[0].start.value;
        SortedCons(q[0], rest);
      }
    }
  }

  /** An element that starts before everything in a sorted sequence can lead it. */
  lemma SortedCons(x: Task, r: seq<Task>)
    requires Sorted(r) && x.start.Some?
    requires forall y | y in r :: x.start.value < y.start.value
    ensures Sorted([x] + r)
  {
    var s := [x] + r;
    forall i, j | 0 <= i < j < |s|
      ensures s[i].start.value < s[j].start.value
    {
      assert s[j] == r[j - 1];
      if i > 0 {
        assert s[i] == r[i - 1];
      } else {
        assert r[j - 1] in r;
      }
    }
  }

  /** Dropping elements keeps the schedule valid. */
  lemma FilterKeepsValid(q: seq<Task>, keep: Task -> bool)
    ensures Sorted(q) ==> Sorted(Filter(q, keep))
    ensures Valid(q) ==> Valid(Filter(q, keep))
  {
    FilterKeepsSorted(q, keep);
  }

  /** TreeSet.remove(x) for an x whose start is `s`: drops the element with that start, if any. */
  function RemoveByStart(q: seq<Task>, s: int): (r: seq<Task>)
    ensures forall x :: x in r <==> x in q && x.start != Some(s)
    ensures Sorted(q) ==> Sorted(r)
    ensures Valid(q) ==> Valid(r)
  {
    var keep := (x: Task) => x.start != Some(s);
    FilterKeepsValid(q, keep);
    Filter(q, keep)
  }

  /** Drops the element that is the entity `t` (the same class and id), if it is there. */
  function Evict(q: seq<Task>, t: Task): (r: seq<Task>)
    ensures forall x :: x in r <==> x in q && !Equals(x, t)
    ensures Sorted(q) ==> Sorted(r)
    ensures Valid(q) ==> Valid(r)
  {
    var keep := (x: Task) => !Equals(x, t);
    FilterKeepsValid(q, keep);
    Filter(q, keep)
  }

  /** addPrioritizedTask: only an entity with both a start and an end enters the set. */
  function Admit(q: seq<Task>, t: Task): (r: seq<Task>)
    requires Sorted(q)
    ensures Sorted(r)
    ensures !IsPrioritized(t) ==> r == q
  {
    if t.start.Some? && EndTime(t).Some? then Insert(q, t) else q
  }

  // ----- properties -----

  /** The clash rule is symmetric, and windows that only touch do not clash. */
  lemma ConflictRules(a: Task, b: Task)
    requires IsPrioritized(a) && IsPrioritized(b)
    ensures Conflict(a, b) <==> Conflict(b, a)
    ensures StartOf(a) == StartOf(b) ==> Conflict(a, b)
    ensures EndOf(a) == StartOf(b) && StartOf(a) != StartOf(b) ==> !Conflict(a, b)
    ensures EndOf(a) <= StartOf(b) && StartOf(a) < StartOf(b) ==> !Conflict(a, b) && !Conflict(b, a)
  {
  }

  /** In a sorted sequence the head starts first, and a start pins down the element. */
  lemma SortedHead(q: seq<Task>, x: Task, y: Task)
    requires Sorted(q) && x in q && y in q
    ensures x == q[0] || q[0].start.value < x.start.value
    ensures x.start == y.start ==> x == y
  {
    var i :| 0 <= i < |q| && q[i] == x;
    var j :| 0 <= j < |q| && q[j] == y;
    assert i == j || x.start != y.start;
  }

  /**
   * A sorted sequence is determined by its elements: the TreeSet's contents
   * fix its iteration order.
   */
  lemma {:induction false} SortedUnique(p: seq<Task>, q: seq<Task>)
    requires Sorted(p) && Sorted(q)
    requires forall x :: x in p <==> x in q
    ensures p == q
    decreases |p|
  {
    assert |q| > 0 ==> q[0] in q;
    if |p| != 0 {
      assert p[0] in p;
      SortedHead(q, p[0], q[0]);
      SortedHead(p, q[0], p[0]);
      assert p[0] == q[0];
      forall x
        ensures x in p[1..] <==> x in q[1..]
      {
        assert x in p <==> x == p[0] || x in p[1..];
        assert x in q <==> x == q[0] || x in q[1..];
        if x in p[1..] {
          SortedHead(p, x, x);
          assert x != p[0] by {
            var k :| 0 <= k < |p[1..]| && p[1..][k] == x;
            assert p[k + 1] == x;
          }
        }
        if x in q[1..] {
          SortedHead(q, x, x);
          assert x != q[0] by {
            var k :| 0 <= k < |q[1..]| && q[1..][k] == x;
            assert q[k + 1] == x;
          }
        }
      }
      SortedUnique(p[1..], q[1..]);
      assert p == [p[0]] + p[1..];
      assert q == [q[0]] + q[1..];
    }
  }

  /**
   * Admitting a candidate that isIntersectedTask clears, and that is not
   * already in the set, keeps the schedule valid and adds exactly it.
   */
  lemma AdmitKeepsValid(q: seq<Task>, t: Task)
    requires Valid(q) && IsPrioritized(t)
    requires !IsIntersectedTask(q, t)
    requires forall x | x in q :: !Equals(x, t)
    ensures Valid(Admit(q, t))
    ensures forall x :: x in Admit(q, t) <==> x in q || x == t
  {
    forall x | x in q
      ensures x.start != t.start && !Conflict(t, x)
    {
      assert !Conflict(x, t);
      ConflictRules(x, t);
    }
    EqualsIsIdentity(t, t, t);
  }
}
