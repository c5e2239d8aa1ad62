/**
 * The access history (InMemoryHistoryManager of package `services`): a
 * doubly linked list of nodes from `first` to `last`, most recent last, with
 * an index from id to node so that an id is listed at most once.
 *
 * The value-level behaviour is given first, as functions on the sequence of
 * entries; the class below is proved against it.
 */
module History {
  import opened Entities

  /** No two entries share an id. */
  predicate DistinctIds(h: seq<Task>) {
    forall i, j | 0 <= i < j < |h| :: h[i].id != h[j].id
  }

  /** Some entry has id `id`. */
  predicate Tracks(h: seq<Task>, id: int) {
    exists i | 0 <= i < |h| :: h[i].id == id
  }

  /** The entries without the one for `id`, the others in their order. */
  function Without(h: seq<Task>, id: int): seq<Task>
    decreases |h|
  {
    if |h| == 0 then []
    else (if h[0].id == id then [] else [h[0]]) + Without(h[1..], id)
  }

  /** Exactly the entries with other ids remain. */
  lemma {:induction false} WithoutElements(h: seq<Task>, id: int)
    ensures forall t :: t in Without(h, id) <==> t in h && t.id != id
    ensures |Without(h, id)| <= |h|
    decreases |h|
  {
    if |h| > 0 {
      WithoutElements(h[1..], id);
      assert forall t :: t in h <==> t == h[0] || t in h[1..];
    }
  }

  /** The entries whose ids are not in `ids`, in order: what a series of remove calls leaves. */
  function WithoutAll(h: seq<Task>, ids: set<int>): seq<Task>
    decreases |h|
  {
    if |h| == 0 then []
    else (if h[0].id in ids then [] else [h[0]]) + WithoutAll(h[1..], ids)
  }

  /** Removing ids one at a time is removing them all at once. */
  lemma {:induction false} WithoutAllStep(h: seq<Task>, ids: set<int>, id: int)
    ensures WithoutAll(h, {}) == h
    ensures Without(WithoutAll(h, ids), id) == WithoutAll(h, ids + {id})
    decreases |h|
  {
    if |h| > 0 {
      WithoutAllStep(h[1..], ids, id);
      var a := if h[0].id in ids then [] else [h[0]];
      WithoutConcat(a, WithoutAll(h[1..], ids), id);
      assert h == [h[0]] + h[1..];
    }
  }

  /** Removing one group of ids and then another is removing both groups at once. */
  lemma {:induction false} WithoutAllUnion(h: seq<Task>, a: set<int>, b: set<int>)
    ensures WithoutAll(WithoutAll(h, a), b) == WithoutAll(h, a + b)
    decreases |h|
  {
    if |h| > 0 {
      WithoutAllUnion(h[1..], a, b);
      var rest := WithoutAll(h[1..], a);
      if h[0].id in a {
        assert WithoutAll(h, a) == rest;
      } else {
        var w := [h[0]] + rest;
        assert WithoutAll(h, a) == w;
        assert w[0] == h[0] && w[1..] == rest;
      }
    }
  }

  /** Removing several ids keeps the rest distinct and drops exactly those ids. */
  lemma {:induction false} WithoutAllElements(h: seq<Task>, ids: set<int>)
    ensures forall t :: t in WithoutAll(h, ids) <==> t in h && t.id !in ids
    ensures DistinctIds(h) ==> DistinctIds(WithoutAll(h, ids))
    decreases |h|
  {
    if |h| > 0 {
      WithoutAllElements(h[1..], ids);
      assert forall t :: t in h <==> t == h[0] || t in h[1..];
      if DistinctIds(h) {
        var t := h[1..];
        assert DistinctIds(t) by {
          forall i, j | 0 <= i < j < |t| ensures t[i].id != t[j].id {
            assert t[i] == h[i + 1] && t[j] == h[j + 1];
          }
        }
        var rest := WithoutAll(t, ids);
        if h[0].id !in ids {
          forall x | x in rest ensures x.id != h[0].id {
            var i :| 0 <= i < |t| && t[i] == x;
            assert h[i + 1] == x;
          }
          var r := [h[0]] + rest;
          forall i, j | 0 <= i < j < |r| ensures r[i].id != r[j].id {
            assert r[j] == rest[j - 1];
            if i > 0 {
              assert r[i] == rest[i - 1];
            } else {
              assert rest[j - 1] in rest;
            }
          }
        }
      }
    }
  }

  /** What add(task) leaves behind: the old entry for its id dropped, the task appended. */
  function Added(h: seq<Task>, t: Task): seq<Task> {
    Without(h, t.id) + [t]
  }

  /** The ids of the entries, in order. */
  function IdsOf(h: seq<Task>): (r: seq<int>)
    ensures |r| == |h|
    ensures forall i | 0 <= i < |h| :: r[i] == h[i].id
  {
    seq(|h|, i requires 0 <= i < |h| => h[i].id as int)
  }

  // ----- properties of the value-level history -----

  /** An untracked id leaves the history as it is. */
  lemma {:induction false} WithoutUntracked(h: seq<Task>, id: int)
    requires !Tracks(h, id)
    ensures Without(h, id) == h
    decreases |h|
  {
    if |h| > 0 {
      assert !Tracks(h[1..], id) by {
        forall i | 0 <= i < |h[1..]| ensures h[1..][i].id != id {
          assert h[1..][i] == h[i + 1];
        }
      }
      WithoutUntracked(h[1..], id);
      assert h == [h[0]] + h[1..];
    }
  }

  /** Removal distributes over concatenation. */
  lemma {:induction false} WithoutConcat(a: seq<Task>, b: seq<Task>, id: int)
    ensures Without(a + b, id) == Without(a, id) + Without(b, id)
    decreases |a|
  {
    if |a| > 0 {
      assert (a + b)[1..] == a[1..] + b;
      WithoutConcat(a[1..], b, id);
    } else {
      assert a + b == b;
    }
  }

  /** Removing the entry at position k, whose id is listed once, keeps the others in order. */
  lemma WithoutAt(h: seq<Task>, k: int)
    requires DistinctIds(h) && 0 <= k < |h|
    ensures Without(h, h[k].id) == h[..k] + h[k + 1..]
  {
    UntrackedAround(h, k);
    SplitAround(h, k);
    WithoutOnly(h[..k], h[k], h[k + 1..]);
  }

  /** With distinct ids, the id at k appears neither before nor after k. */
  lemma UntrackedAround(h: seq<Task>, k: int)
    requires DistinctIds(h) && 0 <= k < |h|
    ensures !Tracks(h[..k], h[k].id) && !Tracks(h[k + 1..], h[k].id)
  {
    var id := h[k].id;
    var a, b := h[..k], h[k + 1..];
    forall i | 0 <= i < |a| ensures a[i].id != id {
      assert a[i] == h[i];
    }
    forall i | 0 <= i < |b| ensures b[i].id != id {
      assert b[i] == h[k + 1 + i];
    }
  }

  /** A sequence is what comes before position k, the entry at k and what comes after. */
  lemma SplitAround(h: seq<Task>, k: int)
    requires 0 <= k < |h|
    ensures h == h[..k] + [h[k]] + h[k + 1..]
  {
  }

  /** A single entry is removed by its own id. */
  lemma WithoutSingle(t: Task)
    ensures Without([t], t.id) == []
  {
    assert [t][1..] == [];
  }

  lemma WithoutOnly(a: seq<Task>, t: Task, b: seq<Task>)
    requires !Tracks(a, t.id) && !Tracks(b, t.id)
    ensures Without(a + [t] + b, t.id) == a + b
  {
    WithoutUntracked(a, t.id);
    WithoutUntracked(b, t.id);
    WithoutSingle(t);
    WithoutConcat(a, [t], t.id);
    assert Without(a + [t], t.id) == a by {
      assert a + [] == a;
    }
    WithoutConcat(a + [t], b, t.id);
  }

  /** Removing an entry keeps the ids distinct. */
  lemma {:induction false} WithoutKeepsDistinct(h: seq<Task>, id: int)
    requires DistinctIds(h)
    ensures DistinctIds(Without(h, id))
    decreases |h|
  {
    if |h| > 0 {
      var t := h[1..];
      assert DistinctIds(t) by {
        forall i, j | 0 <= i < j < |t| ensures t[i].id != t[j].id {
          assert t[i] == h[i + 1] && t[j] == h[j + 1];
        }
      }
      WithoutKeepsDistinct(t, id);
      WithoutElements(t, id);
      var rest := Without(t, id);
      if h[0].id != id {
        forall x | x in rest ensures x.id != h[0].id {
          var i :| 0 <= i < |t| && t[i] == x;
          assert h[i + 1] == x;
        }
        var r := [h[0]] + rest;
        forall i, j | 0 <= i < j < |r| ensures r[i].id != r[j].id {
          assert r[j] == rest[j - 1];
          if i > 0 {
            assert r[i] == rest[i - 1];
          } else {
            assert rest[j - 1] in rest;
          }
        }
      }
    }
  }

  /**
   * add(t): afterwards there is exactly one entry with t's id and it is the
   * last one; the other entries keep their order; a re-added id keeps the
   * length, a new id adds one.
   */
  lemma AddedSpec(h: seq<Task>, t: Task)
    requires DistinctIds(h)
    ensures DistinctIds(Added(h, t))
    ensures Added(h, t)[|Added(h, t)| - 1] == t
    ensures forall i | 0 <= i < |Added(h, t)| - 1 :: Added(h, t)[i].id != t.id
    ensures Tracks(h, t.id) ==> |Added(h, t)| == |h|
    ensures !Tracks(h, t.id) ==> Added(h, t) == h + [t]
    ensures forall x :: x in Added(h, t) <==> x == t || (x in h && x.id != t.id)
  {
    var w := Without(h, t.id);
    WithoutKeepsDistinct(h, t.id);
    WithoutElements(h, t.id);
    var r := w + [t];
    forall i | 0 <= i < |r| - 1 ensures r[i].id != t.id {
      assert r[i] == w[i] && w[i] in w;
    }
    assert DistinctIds(r) by {
      forall i, j | 0 <= i < j < |r| ensures r[i].id != r[j].id {
        if j < |r| - 1 {
          assert r[i] == w[i] && r[j] == w[j];
        }
      }
    }
    if Tracks(h, t.id) {
      var k :| 0 <= k < |h| && h[k].id == t.id;
      WithoutAt(h, k);
    } else {
      WithoutUntracked(h, t.id);
    }
  }

  /**
   * remove(id): a no-op for an untracked id; otherwise exactly that entry
   * goes, whether it is the head, the tail, the only or a middle entry, and
   * the others keep their order.
   */
  lemma WithoutSpec(h: seq<Task>, id: int)
    requires DistinctIds(h)
    ensures DistinctIds(Without(h, id))
    ensures !Tracks(h, id) ==> Without(h, id) == h
    ensures forall k | 0 <= k < |h| && h[k].id == id :: Without(h, id) == h[..k] + h[k + 1..]
    ensures !Tracks(Without(h, id), id)
  {
    WithoutKeepsDistinct(h, id);
    if !Tracks(h, id) {
      WithoutUntracked(h, id);
    }
    forall k | 0 <= k < |h| && h[k].id == id
      ensures Without(h, id) == h[..k] + h[k + 1..]
    {
      WithoutAt(h, k);
    }
    var w := Without(h, id);
    WithoutElements(h, id);
    forall i | 0 <= i < |w| ensures w[i].id != id {
      assert w[i] in w;
    }
  }

  /** Distinct ids: the history is as long as the set of its ids is large. */
  lemma {:induction false} DistinctIdsCount(h: seq<Task>)
    requires DistinctIds(h)
    ensures |set t | t in h :: t.id as int| == |h|
    decreases |h|
  {
    if |h| > 0 {
      var t := h[1..];
      DistinctIdsTail(h);
      DistinctIdsCount(t);
      IdSetCons(h);
    }
  }

  /** Dropping the first entry keeps the ids distinct. */
  lemma DistinctIdsTail(h: seq<Task>)
    requires DistinctIds(h) && |h| > 0
    ensures DistinctIds(h[1..])
  {
    var t := h[1..];
    forall i, j | 0 <= i < j < |t| ensures t[i].id != t[j].id {
      assert t[i] == h[i + 1] && t[j] == h[j + 1];
    }
  }

  /** With distinct ids, the ids of a history are the first id and, apart from it, those of the rest. */
  lemma IdSetCons(h: seq<Task>)
    requires DistinctIds(h) && |h| > 0
    ensures var s := set x | x in h[1..] :: x.id as int;
      && h[0].id !in s
      && (set x | x in h :: x.id as int) == s + {h[0].id as int}
  {
    var t := h[1..];
    forall x | x in t ensures x.id != h[0].id {
      var i :| 0 <= i < |t| && t[i] == x;
      assert h[i + 1] == x;
    }
    assert forall x :: x in h <==> x == h[0] || x in t by {
      assert h == [h[0]] + t;
    }
  }

  // ----- the linked list -----

  /** A list node; `data` is the entry and never changes. */
  class Node {
    const data: Task
    var prev: Node?
    var next: Node?

    constructor (task: Task, prev: Node?)
      ensures data == task && this.prev == prev && next == null
    {
      data := task;
      this.prev := prev;
      next := null;
    }

    /** Node.equals: the same node, or a node holding an entry with the same id. */
    predicate Equals(o: Node?) {
      this == o || (o != null && data.id == o.data.id)
    }

    predicate HasPrev()
      reads this
    {
      prev != null
    }

    predicate HasNext()
      reads this
    {
      next != null
    }
  }

  /** The entries held by a sequence of nodes. */
  function DataOf(ns: seq<Node>): (r: seq<Task>)
    ensures |r| == |ns|
  {
    seq(|ns|, i requires 0 <= i < |ns| => ns[i].data)
  }

  lemma DataOfAppend(ns: seq<Node>, node: Node)
    ensures DataOf(ns + [node]) == DataOf(ns) + [node.data]
  {
    assert forall i | 0 <= i < |ns| :: (ns + [node])[i] == ns[i];
  }

  /** No node holds an entry with an untracked id. */
  lemma UntrackedNodes(ns: seq<Node>, id: int)
    requires !Tracks(DataOf(ns), id)
    ensures forall i | 0 <= i < |ns| :: ns[i].data.id != id
    ensures DistinctNodes(ns) ==> forall i, j | 0 <= i < j < |ns| :: ns[i] != ns[j]
  {
    forall i | 0 <= i < |ns| ensures ns[i].data.id != id {
      assert DataOf(ns)[i] == ns[i].data;
    }
  }

  /** No two of the nodes hold entries with the same id. */
  predicate DistinctNodes(ns: seq<Node>) {
    forall i, j | 0 <= i < j < |ns| :: ns[i].data.id != ns[j].data.id
  }

  /** The node-level and entry-level statements of distinctness agree. */
  lemma DistinctData(ns: seq<Node>)
    ensures DistinctNodes(ns) <==> DistinctIds(DataOf(ns))
    ensures DistinctNodes(ns) ==> forall i, j | 0 <= i < j < |ns| :: ns[i] != ns[j]
  {
    var h := DataOf(ns);
    assert forall i | 0 <= i < |ns| :: h[i] == ns[i].data;
  }

  class HistoryManager {
    var first: Node?
    var last: Node?
    var history: map<int, Node>
    /** The nodes from `first` to `last`. */
    ghost var nodes: seq<Node>

    /** The entries, from first to last. */
    ghost function Contents(): seq<Task>
      reads this
    {
      DataOf(nodes)
    }

    /**
     * `ns` is linked from `first` to `last` through `next` and back through
     * `prev`, `first.prev` and `last.next` are null, `first` and `last` are
     * null together, and no two nodes hold the same id.
     */
    static ghost predicate Chain(first: Node?, last: Node?, ns: seq<Node>)
      reads ns
    {
      && (|ns| == 0 ==> first == null && last == null)
      && (|ns| > 0 ==> first == ns[0] && last == ns[|ns| - 1])
      && (forall i {:trigger ns[i].prev} | 0 <= i < |ns| ::
            ns[i].prev == (if i == 0 then null else ns[i - 1]))
      && (forall i {:trigger ns[i].next} | 0 <= i < |ns| ::
            ns[i].next == (if i == |ns| - 1 then null else ns[i + 1]))
      && DistinctNodes(ns)
    }

    /** The index maps each listed id to its node, and nothing else. */
    static ghost predicate Indexes(index: map<int, Node>, ns: seq<Node>) {
      && (forall i | 0 <= i < |ns| :: ns[i].data.id in index && index[ns[i].data.id] == ns[i])
      && (forall id | id in index :: index[id] in ns && index[id].data.id == id)
    }

    ghost predicate Valid()
      reads this, nodes
    {
      Chain(first, last, nodes) && Indexes(history, nodes)
    }

    constructor ()
      ensures Valid() && Contents() == []
    {
      first := null;
      last := null;
      history := map[];
      nodes := [];
    }

    /** The linkage invariant, as the list shows it from outside. */
    lemma Linkage()
      requires Valid()
      ensures first == null <==> last == null
      ensures first != null ==> first.prev == null && last.next == null
      ensures first == null <==> Contents() == []
      ensures DistinctIds(Contents())
      ensures forall id :: id in history <==> Tracks(Contents(), id)
    {
      DistinctData(nodes);
      if first != null {
        assert nodes[0].prev == null;
        assert nodes[|nodes| - 1].next == null;
      }
      forall id ensures id in history <==> Tracks(Contents(), id) {
        if id in history {
          var k :| 0 <= k < |nodes| && nodes[k] == history[id];
          assert Contents()[k].id == id;
        }
        if Tracks(Contents(), id) {
          var k :| 0 <= k < |nodes| && Contents()[k].id == id;
          assert nodes[k].data.id == id;
        }
      }
    }

    /** linkLast: the current last node points forward to the new one, which becomes last. */
    method LinkLast(newNode: Node)
      modifies this, last
      ensures old(last) != null ==> old(last).next == newNode && old(last).prev == old(last.prev)
      ensures last == newNode
      ensures first == old(first) && history == old(history) && nodes == old(nodes)
    {
      if last != null {
        last.next := newNode;
      }
      last := newNode;
    }

    /**
     * removeNode: unlinks the node at position k, by the four cases of the
     * source (the only node, the first, the last, a middle one).  The index
     * and the ghost node sequence are updated by the caller.
     */
    method RemoveNode(node: Node, ghost k: int)
      requires Chain(first, last, nodes) && 0 <= k < |nodes| && nodes[k] == node
      modifies this, nodes
      ensures Chain(first, last, old(nodes)[..k] + old(nodes)[k + 1..])
      ensures history == old(history) && nodes == old(nodes)
    {
      ghost var ns := nodes;
      ghost var n := |ns|;
      DistinctData(ns);
      assert node.Equals(first) <==> k == 0 by {
        if k != 0 { assert ns[0].data.id != ns[k].data.id; }
      }
      assert node.Equals(last) <==> k == n - 1 by {
        if k != n - 1 { assert ns[k].data.id != ns[n - 1].data.id; }
      }
      ghost var rest := ns[..k] + ns[k + 1..];
      assert DistinctNodes(rest) by {
        forall i, j | 0 <= i < j < |rest| ensures rest[i].data.id != rest[j].data.id {
          var i' := if i < k then i else i + 1;
          var j' := if j < k then j else j + 1;
          assert rest[i] == ns[i'] && rest[j] == ns[j'];
        }
      }
      if node.Equals(first) && node.Equals(last) {
        first := null;
        last := null;
      } else if node.Equals(first) {
        RemoveFirst(ns);
      } else if node.Equals(last) {
        RemoveLast(ns);
      } else {
        RemoveMiddle(ns, node, k);
      }
    }

    method RemoveFirst(ghost ns: seq<Node>)
      requires Chain(first, last, ns) && |ns| > 1 && DistinctNodes(ns[1..])
      modifies this, ns
      ensures Chain(first, last, ns[1..])
      ensures history == old(history) && nodes == old(nodes)
    {
      var node := first;
      first := node.next;
      if first != null {
        first.prev := null;
      }
      DistinctData(ns);
      forall i | 0 <= i < |ns| - 1
        ensures ns[1..][i].prev == (if i == 0 then null else ns[1..][i - 1])
        ensures ns[1..][i].next == (if i == |ns| - 2 then null else ns[1..][i + 1])
      {
        assert ns[1..][i] == ns[i + 1];
        assert ns[i + 1].prev == (if i == 0 then null else ns[i]) by {
          if i > 0 { assert ns[i + 1] != ns[1]; }
        }
        assert ns[i + 1].next == old(ns[i + 1].next);
      }
    }

    method RemoveLast(ghost ns: seq<Node>)
      requires Chain(first, last, ns) && |ns| > 1 && DistinctNodes(ns[..|ns| - 1])
      modifies this, ns
      ensures Chain(first, last, ns[..|ns| - 1])
      ensures history == old(history) && nodes == old(nodes)
    {
      var node := last;
      last := node.prev;
      if last != null {
        last.next := null;
      }
      DistinctData(ns);
      var n := |ns| - 1;
      forall i | 0 <= i < n
        ensures ns[..n][i].prev == (if i == 0 then null else ns[..n][i - 1])
        ensures ns[..n][i].next == (if i == n - 1 then null else ns[..n][i + 1])
      {
        assert ns[..n][i] == ns[i];
        assert ns[i].next == (if i == n - 1 then null else ns[i + 1]) by {
          if i < n - 1 { assert ns[i] != ns[n - 1]; }
        }
        assert ns[i].prev == old(ns[i].prev);
      }
    }

    method RemoveMiddle(ghost ns: seq<Node>, node: Node, ghost k: int)
      requires Chain(first, last, ns) && 0 < k < |ns| - 1 && ns[k] == node
      requires DistinctNodes(ns[..k] + ns[k + 1..])
      modifies ns
      ensures Chain(first, last, ns[..k] + ns[k + 1..])
      ensures first == old(first) && last == old(last)
    {
      DistinctData(ns);
      assert node.prev == ns[k - 1] && node.next == ns[k + 1];
      if node.HasPrev() {
        node.prev.next := node.next;
      }
      if node.HasNext() {
        node.next.prev := node.prev;
      }
      var rest := ns[..k] + ns[k + 1..];
      forall i | 0 <= i < |rest|
        ensures rest[i].prev == (if i == 0 then null else rest[i - 1])
        ensures rest[i].next == (if i == |rest| - 1 then null else rest[i + 1])
      {
        if i < k {
          assert rest[i] == ns[i];
          if i > 0 { assert rest[i - 1] == ns[i - 1]; }
          if i + 1 < k { assert rest[i + 1] == ns[i + 1]; } else { assert rest[i + 1] == ns[k + 1]; }
          assert ns[i].prev == old(ns[i].prev);
          assert i < k - 1 ==> ns[i].next == old(ns[i].next);
        } else {
          assert rest[i] == ns[i + 1];
          if i == k { assert rest[i - 1] == ns[k - 1]; } else { assert rest[i - 1] == ns[i]; }
          if i < |rest| - 1 { assert rest[i + 1] == ns[i + 2]; }
          assert ns[i + 1].next == old(ns[i + 1].next);
          assert i > k ==> ns[i + 1].prev == old(ns[i + 1].prev);
        }
      }
    }

    /** remove(id): drops the entry for id, if there is one. */
    method Remove(id: int)
      requires Valid()
      modifies this, nodes
      ensures Valid()
      ensures Contents() == Without(old(Contents()), id)
      ensures forall n | n in nodes :: n in old(nodes)
    {
      if id in history {
        Unlink(id);
      } else {
        Linkage();
        WithoutUntracked(Contents(), id);
      }
    }

    /** The body of remove for an indexed id: its node is unlinked and the id leaves the index. */
    method Unlink(id: int)
      requires Valid() && id in history
      modifies this, nodes
      ensures Valid()
      ensures Contents() == Without(old(Contents()), id)
      ensures forall n | n in nodes :: n in old(nodes)
    {
      ghost var h := Contents();
      ghost var k :| 0 <= k < |nodes| && nodes[k] == history[id];
      ghost var ns := nodes;
      IndexAfterRemoval(history, ns, k, id);
      RemovedEntry(h, ns, k, id);
      RemoveNode(history[id], k);
      history := history - {id};
      nodes := ns[..k] + ns[k + 1..];
    }

    /** Dropping the node at k and its id keeps the index exact. */
    static lemma IndexAfterRemoval(index: map<int, Node>, ns: seq<Node>, k: int, id: int)
      requires Indexes(index, ns) && DistinctNodes(ns) && 0 <= k < |ns| && id in index && index[id] == ns[k]
      ensures Indexes(index - {id}, ns[..k] + ns[k + 1..])
      ensures forall n | n in ns[..k] + ns[k + 1..] :: n in ns
    {
      DistinctData(ns);
      var rest := ns[..k] + ns[k + 1..];
      var index' := index - {id};
      forall i | 0 <= i < |rest|
        ensures rest[i].data.id in index' && index'[rest[i].data.id] == rest[i]
      {
        var i' := if i < k then i else i + 1;
        assert rest[i] == ns[i'];
      }
      forall x | x in index' ensures index'[x] in rest {
        var j :| 0 <= j < |ns| && ns[j] == index[x];
        assert ns[j] == (if j < k then rest[j] else rest[j - 1]);
      }
    }

    /** The entries after the node at k is dropped are those of Without. */
    static lemma RemovedEntry(h: seq<Task>, ns: seq<Node>, k: int, id: int)
      requires h == DataOf(ns) && DistinctNodes(ns) && 0 <= k < |ns| && ns[k].data.id == id
      ensures DataOf(ns[..k] + ns[k + 1..]) == Without(h, id)
    {
      DistinctData(ns);
      assert h[k].id == id;
      WithoutAt(h, k);
      assert DataOf(ns[..k] + ns[k + 1..]) == h[..k] + h[k + 1..];
    }

    /** add(task): the task becomes the last entry, replacing any entry with its id. */
    method Add(task: Task)
      requires Valid()
      modifies this, nodes
      ensures Valid()
      ensures Contents() == Added(old(Contents()), task)
      ensures forall n | n in nodes :: n in old(nodes) || fresh(n)
    {
      var id := task.id;
      Remove(id);
      WithoutSpec(old(Contents()), id);
      Append(task);
    }

    /** The second half of add: links a new node holding an untracked entry after `last`. */
    method Append(task: Task)
      requires Valid() && !Tracks(Contents(), task.id)
      modifies this, nodes
      ensures Valid()
      ensures Contents() == old(Contents()) + [task]
      ensures forall n | n in nodes :: n in old(nodes) || fresh(n)
    {
      var id := task.id;
      ghost var ns := nodes;
      UntrackedNodes(ns, id);
      IndexAfterAppendAny(history, ns, task);
      var node := new Node(task, last);
      LinkNew(ns, node);
      history := history[id := node];
      nodes := ns + [node];
      DataOfAppend(ns, node);
    }

    /** The linking steps of add: the new node becomes `first` if the list was empty, and `last`. */
    method LinkNew(ghost ns: seq<Node>, node: Node)
      requires Chain(first, last, ns) && node !in ns && node.prev == last && node.next == null
      requires forall i | 0 <= i < |ns| :: ns[i].data.id != node.data.id
      modifies this, last
      ensures Chain(first, last, ns + [node])
      ensures history == old(history) && nodes == old(nodes)
    {
      ghost var n := |ns|;
      assert forall i | 0 <= i < n - 1 :: ns[i] != ns[n - 1] by {
        forall i | 0 <= i < n - 1 ensures ns[i] != ns[n - 1] {
          assert ns[i].data.id != ns[n - 1].data.id;
        }
      }
      if first == null {
        first := node;
      }
      if last != null {
        LinkLast(node);
      }
      last := node;
      ghost var ns' := ns + [node];
      forall i | 0 <= i < |ns'|
        ensures ns'[i].prev == (if i == 0 then null else ns'[i - 1])
        ensures ns'[i].next == (if i == |ns'| - 1 then null else ns'[i + 1])
      {
        if i < n {
          assert ns'[i] == ns[i];
          assert ns[i].prev == old(ns[i].prev);
          assert i < n - 1 ==> ns[i].next == old(ns[i].next);
        }
      }
    }

    /** Any new node listed under an id not yet indexed keeps the index exact. */
    static lemma IndexAfterAppendAny(index: map<int, Node>, ns: seq<Node>, task: Task)
      requires Indexes(index, ns) && forall i | 0 <= i < |ns| :: ns[i].data.id != task.id
      ensures forall node: Node | node.data == task :: Indexes(index[task.id := node], ns + [node])
    {
      forall node: Node | node.data == task ensures Indexes(index[task.id := node], ns + [node]) {
        IndexAfterAppend(index, ns, node);
      }
    }

    /** Listing a new node under an id not yet indexed keeps the index exact. */
    static lemma IndexAfterAppend(index: map<int, Node>, ns: seq<Node>, node: Node)
      requires Indexes(index, ns) && forall i | 0 <= i < |ns| :: ns[i].data.id != node.data.id
      ensures Indexes(index[node.data.id := node], ns + [node])
    {
      var id := node.data.id;
      var ns' := ns + [node];
      forall i | 0 <= i < |ns'|
        ensures ns'[i].data.id in index[id := node] && index[id := node][ns'[i].data.id] == ns'[i]
      {
        if i < |ns| { assert ns'[i] == ns[i]; }
      }
    }

    /** getHistory: walks from `first` along `next`, collecting the entries. */
    method GetHistory() returns (r: seq<Task>)
      requires Valid()
      ensures r == Contents()
      ensures |r| == |history|
    {
      r := [];
      var tmp := first;
      ghost var i := 0;
      while tmp != null
        invariant 0 <= i <= |nodes|
        invariant tmp == (if i < |nodes| then nodes[i] else null)
        invariant r == Contents()[..i]
        decreases |nodes| - i
      {
        r := r + [tmp.data];
        tmp := tmp.next;
        i := i + 1;
      }
      IndexSize(history, nodes);
    }

    /** The index has one key per listed node. */
    static lemma IndexSize(index: map<int, Node>, ns: seq<Node>)
      requires Indexes(index, ns) && DistinctNodes(ns)
      ensures |index| == |ns|
    {
      var r := DataOf(ns);
      DistinctData(ns);
      DistinctIdsCount(r);
      IndexKeys(index, ns);
    }

    /** The index's keys are the ids of the listed entries. */
    static lemma IndexKeys(index: map<int, Node>, ns: seq<Node>)
      requires Indexes(index, ns)
      ensures index.Keys == set t | t in DataOf(ns) :: t.id as int
    {
      var r := DataOf(ns);
      forall x | x in index ensures x in set t | t in r :: t.id as int {
        var k :| 0 <= k < |ns| && ns[k] == index[x];
        assert r[k] == ns[k].data;
      }
      forall t | t in r ensures t.id as int in index {
        var k :| 0 <= k < |r| && r[k] == t;
        assert r[k] == ns[k].data;
      }
    }

    /** clear (used by clearAllData): the history becomes empty. */
    method Clear()
      modifies this
      ensures Valid() && Contents() == []
    {
      first := null;
      last := null;
      history := map[];
      nodes := [];
    }
  }
}
