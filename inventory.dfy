/**
 * The player's inventory (src/inventory/inventory.rs): the kinds of item,
 * their display names, a count per kind and the one-line summary.
 */
module Inventories {
  import opened Text

  datatype ItemKind = Plant1 | Plant2 | Plant3 | Plant4

  /** `display_name`. */
  function DisplayName(k: ItemKind): string {
    match k
    case Plant1 => "Herb"
    case Plant2 => "Flower"
    case Plant3 => "Mushroom"
    case Plant4 => "Fern"
  }

  /** The place of a kind when kinds are ordered by display name: Fern, Flower, Herb, Mushroom. */
  function Rank(k: ItemKind): (r: nat)
    ensures r < 4
  {
    match k
    case Plant4 => 0
    case Plant2 => 1
    case Plant1 => 2
    case Plant3 => 3
  }

  /** All kinds, ordered by display name. */
  const ALPHABETICAL: seq<ItemKind> := [Plant4, Plant2, Plant1, Plant3]

  lemma AlphabeticalRanks(k: ItemKind)
    ensures |ALPHABETICAL| == 4 && ALPHABETICAL[Rank(k)] == k
    ensures forall i | 0 <= i < 4 :: Rank(ALPHABETICAL[i]) == i
  {
  }

  /** One entry of the summary: `"{name}: x{count}"`. */
  function Part(k: ItemKind, n: nat): string {
    DisplayName(k) + ": x" + NatToString(n)
  }

  /**
   * Entries are ordered by their kind's display name, whatever the counts:
   * the names differ before either one ends.
   */
  lemma PartOrder(a: ItemKind, b: ItemKind, m: nat, n: nat)
    requires Rank(a) < Rank(b)
    ensures StrLess(Part(a, m), Part(b, n))
  {
    var p, q := Part(a, m), Part(b, n);
    assert p[0] == DisplayName(a)[0] && q[0] == DisplayName(b)[0];
    if a == Plant4 && b == Plant2 {
      assert p[1] == 'e' && q[1] == 'l';
      assert p[..1] == q[..1];
      StrLessAt(p, q, 1);
    } else {
      StrLessAt(p, q, 0);
    }
  }

  /** Display names, and hence summary entries, tell the kinds apart. */
  lemma DisplayNamesDistinct(a: ItemKind, b: ItemKind, m: nat, n: nat)
    requires a != b
    ensures DisplayName(a) != DisplayName(b)
    ensures Part(a, m) != Part(b, n)
  {
    if Rank(a) < Rank(b) {
      PartOrder(a, b, m, n);
      StrLessAsymmetric(Part(a, m), Part(b, n));
    } else {
      PartOrder(b, a, n, m);
      StrLessAsymmetric(Part(b, n), Part(a, m));
    }
  }

  /** The entries of the kinds of `kinds` that have a count, in that order. */
  function PartsInOrder(items: map<ItemKind, nat>, kinds: seq<ItemKind>): seq<string> {
    if |kinds| == 0 then []
    else (if kinds[0] in items then [Part(kinds[0], items[kinds[0]])] else []) + PartsInOrder(items, kinds[1..])
  }

  /** The summary's entries: one per kind with a count. */
  ghost predicate IsEntry(items: map<ItemKind, nat>, x: string) {
    exists k | k in items :: x == Part(k, items[k])
  }

  /** From the `i`-th kind on, the entries are strictly sorted and belong to kinds of rank `i` or more. */
  lemma {:induction false} PartsFromSorted(items: map<ItemKind, nat>, i: nat)
    requires i <= 4
    ensures StrictlySorted(PartsInOrder(items, ALPHABETICAL[i..]))
    ensures forall x | x in PartsInOrder(items, ALPHABETICAL[i..]) ::
              exists k | k in items && Rank(k) >= i :: x == Part(k, items[k])
    ensures forall k | k in items && Rank(k) >= i :: Part(k, items[k]) in PartsInOrder(items, ALPHABETICAL[i..])
    decreases 4 - i
  {
    AlphabeticalRanks(Plant1);
    if i < 4 {
      PartsFromSorted(items, i + 1);
      var kinds := ALPHABETICAL[i..];
      assert kinds[1..] == ALPHABETICAL[i + 1..];
      var rest := PartsInOrder(items, kinds[1..]);
      var h := kinds[0];
      assert Rank(h) == i;
      if h in items {
        forall j | 0 <= j < |rest|
          ensures StrLess(Part(h, items[h]), rest[j])
        {
          assert rest[j] in rest;
          var k :| k in items && Rank(k) >= i + 1 && rest[j] == Part(k, items[k]);
          PartOrder(h, k, items[h], items[k]);
        }
        StrictlySortedCons(Part(h, items[h]), rest);
      }
      forall k | k in items && Rank(k) >= i
        ensures Part(k, items[k]) in PartsInOrder(items, kinds)
      {
        if Rank(k) == i {
          assert k == h;
        }
      }
    }
  }

  /** The entries in display-name order: strictly sorted, and exactly the entries of the counted kinds. */
  lemma PartsInOrderSpec(items: map<ItemKind, nat>)
    ensures StrictlySorted(PartsInOrder(items, ALPHABETICAL))
    ensures forall x :: x in PartsInOrder(items, ALPHABETICAL) <==> IsEntry(items, x)
  {
    PartsFromSorted(items, 0);
    assert ALPHABETICAL[0..] == ALPHABETICAL;
  }

  /** `summary`: "Empty", or the entries of the counted kinds in sorted order, separated by ", ". */
  function SummaryOf(items: map<ItemKind, nat>): string {
    if |items| == 0 then "Empty" else Join(PartsInOrder(items, ALPHABETICAL), ", ")
  }

  /** The summary says "Empty" exactly when nothing has been collected. */
  lemma SummaryEmptyIff(items: map<ItemKind, nat>)
    ensures SummaryOf(items) == "Empty" <==> |items| == 0
  {
    if |items| > 0 {
      var k :| k in items;
      PartsInOrderSpec(items);
      assert IsEntry(items, Part(k, items[k]));
      var parts := PartsInOrder(items, ALPHABETICAL);
      assert |parts| > 0;
      var first := parts[0];
      assert first in parts;
      var j :| j in items && first == Part(j, items[j]);
      JoinStartsWithFirst(parts, ", ");
      PartInitial(j, items[j]);
      var s := Join(parts, ", ");
      assert s[0] == s[..|first|][0] == first[0];
    }
  }

  /** No entry starts like "Empty". */
  lemma PartInitial(k: ItemKind, n: nat)
    ensures |Part(k, n)| > 0 && Part(k, n)[0] != 'E'
  {
    assert Part(k, n)[0] == DisplayName(k)[0];
  }

  /**
   * A non-empty summary is the join of a strictly sorted list of entries,
   * one per counted kind.
   */
  lemma SummarySortedEntries(items: map<ItemKind, nat>)
    requires |items| > 0
    ensures var parts := PartsInOrder(items, ALPHABETICAL);
            SummaryOf(items) == Join(parts, ", ") && StrictlySorted(parts) &&
            (forall x :: x in parts <==> IsEntry(items, x))
  {
    PartsInOrderSpec(items);
  }

  /** `Inventory`: how many of each kind of item the player holds. */
  class Inventory {
    var items: map<ItemKind, nat>

    /** Entries are created on the first `add` and only ever incremented. */
    ghost predicate Valid()
      reads this
    {
      forall k | k in items :: items[k] >= 1
    }

    /** `Inventory::default`: holds nothing. */
    constructor ()
      ensures items == map[] && Valid()
    {
      items := map[];
    }

    /** The count of a kind, zero when it was never added. */
    function Count(k: ItemKind): nat
      reads this
    {
      if k in items then items[k] else 0
    }

    /** `add`: one more of `item`; returns the new count. */
    method Add(item: ItemKind) returns (count: nat)
      requires Valid()
      modifies this
      ensures Valid()
      ensures count == old(Count(item)) + 1 && items == old(items)[item := count]
      ensures forall k | k != item :: Count(k) == old(Count(k))
    {
      var entry := if item in items then items[item] else 0;
      entry := entry + 1;
      items := items[item := entry];
      count := entry;
    }

    /** `summary`: the entries in the map's own order, then sorted and joined. */
    method Summary() returns (s: string)
      ensures s == SummaryOf(items)
    {
      if |items| == 0 {
        return "Empty";
      }
      var parts: seq<string> := [];
      var keys := items.Keys;
      while keys != {}
        invariant keys <= items.Keys
        invariant forall x :: x in parts <==> exists k | k in items.Keys - keys :: x == Part(k, items[k])
        invariant Distinct(parts)
        decreases keys
      {
        var k :| k in keys;
        forall j | 0 <= j < |parts|
          ensures parts[j] != Part(k, items[k])
        {
          assert parts[j] in parts;
          var k' :| k' in items.Keys - keys && parts[j] == Part(k', items[k']);
          DisplayNamesDistinct(k', k, items[k'], items[k]);
        }
        parts := parts + [Part(k, items[k])];
        keys := keys - {k};
      }
      var sorted := Sort(parts);
      SortedEntries(items, parts, sorted);
      s := Join(sorted, ", ");
    }

    /** Sorting the entries, in whatever order they were collected, gives the display-name order. */
    static lemma SortedEntries(items: map<ItemKind, nat>, parts: seq<string>, sorted: seq<string>)
      requires Distinct(parts) && sorted == Sort(parts)
      requires forall x :: x in parts <==> exists k | k in items.Keys :: x == Part(k, items[k])
      ensures sorted == PartsInOrder(items, ALPHABETICAL)
    {
      SortSorted(parts);
      DistinctMultiset(parts);
      DistinctMultiset(sorted);
      SortedDistinctStrict(sorted);
      PartsInOrderSpec(items);
      forall x
        ensures x in sorted <==> x in PartsInOrder(items, ALPHABETICAL)
      {
        assert x in sorted <==> x in multiset(sorted);
        assert x in parts <==> x in multiset(parts);
      }
      StrictlySortedUnique(sorted, PartsInOrder(items, ALPHABETICAL));
    }
  }
}
