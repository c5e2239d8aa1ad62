/**
 * The history of the earlier iteration (src/InMemoryHistoryManager.java): an
 * array list of at most ten entries.  Every view is appended, duplicates and
 * nulls included, and once the list grows past ten its oldest entry goes.
 */
module LegacyHistory {
  import opened Wrappers
  import opened LegacyEntities

  const HISTORY_ITEMS_COUNT: nat := 10

  /**
   * add: the entry appended at the end; when that makes eleven, the first
   * entry is dropped.
   */
  function Appended(h: seq<Option<Entity>>, t: Option<Entity>): seq<Option<Entity>> {
    var longer := h + [t];
    if |longer| > HISTORY_ITEMS_COUNT then longer[1..] else longer
  }

  /** The list never holds more than ten entries and always ends with the latest one. */
  lemma AppendedBounded(h: seq<Option<Entity>>, t: Option<Entity>)
    requires |h| <= HISTORY_ITEMS_COUNT
    ensures var r := Appended(h, t);
      && |r| <= HISTORY_ITEMS_COUNT
      && |r| == (if |h| < HISTORY_ITEMS_COUNT then |h| + 1 else HISTORY_ITEMS_COUNT)
      && r[|r| - 1] == t
  {
  }

  /**
   * Below the cap nothing is lost; at the cap exactly the oldest entry is
   * dropped and the others keep their order.
   */
  lemma AppendedDropsOldest(h: seq<Option<Entity>>, t: Option<Entity>)
    requires |h| <= HISTORY_ITEMS_COUNT
    ensures |h| < HISTORY_ITEMS_COUNT ==> Appended(h, t) == h + [t]
    ensures |h| == HISTORY_ITEMS_COUNT ==> Appended(h, t) == h[1..] + [t]
  {
  }

  /**
   * Duplicates are kept: the entry counts once more than before, less the
   * dropped oldest entry when that was the same entry.
   */
  lemma AppendedKeepsDuplicates(h: seq<Option<Entity>>, t: Option<Entity>)
    requires |h| <= HISTORY_ITEMS_COUNT
    ensures var dropped := |h| == HISTORY_ITEMS_COUNT && h[0] == t;
      multiset(Appended(h, t))[t] == multiset(h)[t] + 1 - (if dropped then 1 else 0)
  {
    var longer := h + [t];
    assert multiset(longer) == multiset(h) + multiset{t};
    if |h| == HISTORY_ITEMS_COUNT {
      assert longer == [h[0]] + longer[1..];
      assert multiset(longer) == multiset{h[0]} + multiset(longer[1..]);
      assert Appended(h, t) == longer[1..];
      assert multiset(longer)[t] == multiset(h)[t] + 1;
      assert multiset(longer)[t] == (if h[0] == t then 1 else 0) + multiset(longer[1..])[t];
    } else {
      assert Appended(h, t) == longer;
    }
  }

  class HistoryManager {
    var history: seq<Option<Entity>>

    ghost predicate Valid()
      reads this
    {
      |history| <= HISTORY_ITEMS_COUNT
    }

    /** An empty list with room for ten entries. */
    constructor ()
      ensures Valid() && history == []
    {
      history := [];
    }

    /** add: addLast, then removeFirst when the list has grown past ten. */
    method Add(task: Option<Entity>)
      requires Valid()
      modifies this
      ensures Valid() && history == Appended(old(history), task)
    {
      history := history + [task];
      if |history| > HISTORY_ITEMS_COUNT {
        history := history[1..];
      }
    }

    /** getHistory: the list itself. */
    function GetHistory(): (r: seq<Option<Entity>>)
      reads this
      requires Valid()
      ensures |r| <= HISTORY_ITEMS_COUNT
    {
      history
    }
  }
}
