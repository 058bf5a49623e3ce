/**
 * Picking up items (src/inventory/systems.rs): every item closer to the
 * player than its pickup radius is first selected, then despawned and
 * counted into the inventory.
 */
module InventoryPickup {
  import opened Geometry
  import opened Inventories

  /** `Pickable`: the kind of item and the radius within which it is picked up. */
  datatype Pickable = Pickable(kind: ItemKind, radius: real)

  /** A pickable entity: its id, its world translation and its `Pickable` component. */
  datatype Item = Item(entity: nat, position: Vec3, pickable: Pickable)

  /** The item is strictly inside its pickup radius around the player. */
  predicate InReach(playerPos: Vec2, it: Item) {
    DistanceSquared(playerPos, Xy(it.position)) < Sq(it.pickable.radius)
  }

  /** The `(entity, kind)` pairs of the items in reach, in query order. */
  function Collected(playerPos: Vec2, items: seq<Item>): (r: seq<(nat, ItemKind)>)
    ensures |r| <= |items|
  {
    if |items| == 0 then []
    else
      var rest := Collected(playerPos, items[..|items| - 1]);
      var it := items[|items| - 1];
      if InReach(playerPos, it) then rest + [(it.entity, it.pickable.kind)] else rest
  }

  /** One more item of the query extends the selection by that item when it is in reach. */
  lemma CollectedPrefix(playerPos: Vec2, items: seq<Item>, i: nat)
    requires i < |items|
    ensures Collected(playerPos, items[..i + 1]) ==
            Collected(playerPos, items[..i]) +
            (if InReach(playerPos, items[i]) then [(items[i].entity, items[i].pickable.kind)] else [])
  {
    assert items[..i + 1][..i] == items[..i];
  }

  /** An item is selected exactly when it is in reach. */
  lemma {:induction false} CollectedIff(playerPos: Vec2, items: seq<Item>, it: Item)
    requires forall i, j | 0 <= i < j < |items| :: items[i].entity != items[j].entity
    requires it in items
    ensures (it.entity, it.pickable.kind) in Collected(playerPos, items) <==> InReach(playerPos, it)
  {
    var n := |items|;
    var init := items[..n - 1];
    assert items == init + [items[n - 1]];
    if it == items[n - 1] {
      CollectedEntities(playerPos, init);
      forall e | e in Collected(playerPos, init)
        ensures e.0 != it.entity
      {
        var i :| 0 <= i < |init| && init[i].entity == e.0;
        assert items[i].entity == e.0;
      }
    } else {
      assert it in init;
      CollectedIff(playerPos, init, it);
    }
  }

  /** Only entities of the query are selected, each with its own kind. */
  lemma {:induction false} CollectedEntities(playerPos: Vec2, items: seq<Item>)
    ensures forall e | e in Collected(playerPos, items) ::
              exists i | 0 <= i < |items| :: items[i].entity == e.0 && items[i].pickable.kind == e.1
  {
    if |items| > 0 {
      var init := items[..|items| - 1];
      CollectedEntities(playerPos, init);
      forall e | e in Collected(playerPos, items)
        ensures exists i | 0 <= i < |items| :: items[i].entity == e.0 && items[i].pickable.kind == e.1
      {
        if e in Collected(playerPos, init) {
          var i :| 0 <= i < |init| && init[i].entity == e.0 && init[i].pickable.kind == e.1;
          assert items[i] == init[i];
        } else {
          assert items[|items| - 1].entity == e.0;
        }
      }
    }
  }

  /** The counts after adding `kinds` one by one. */
  function AddedAll(items: map<ItemKind, nat>, kinds: seq<ItemKind>): map<ItemKind, nat> {
    if |kinds| == 0 then items
    else
      var k := kinds[|kinds| - 1];
      var before := AddedAll(items, kinds[..|kinds| - 1]);
      before[k := (if k in before then before[k] else 0) + 1]
  }

  function CountIn(items: map<ItemKind, nat>, k: ItemKind): nat {
    if k in items then items[k] else 0
  }

  /** Each kind's count goes up by the number of times it was added; no other kind appears. */
  lemma {:induction false} AddedAllCounts(items: map<ItemKind, nat>, kinds: seq<ItemKind>, k: ItemKind)
    ensures CountIn(AddedAll(items, kinds), k) == CountIn(items, k) + multiset(kinds)[k]
    ensures k in AddedAll(items, kinds) <==> k in items || k in kinds
  {
    if |kinds| > 0 {
      var init := kinds[..|kinds| - 1];
      AddedAllCounts(items, init, k);
      assert kinds == init + [kinds[|kinds| - 1]];
    }
  }

  /** The kinds of a selection. */
  function Kinds(c: seq<(nat, ItemKind)>): (r: seq<ItemKind>)
    ensures |r| == |c| && forall i | 0 <= i < |c| :: r[i] == c[i].1
  {
    seq(|c|, i requires 0 <= i < |c| => c[i].1)
  }

  /** The entities of a selection. */
  function Entities(c: seq<(nat, ItemKind)>): (r: seq<nat>)
    ensures |r| == |c| && forall i | 0 <= i < |c| :: r[i] == c[i].0
  {
    seq(|c|, i requires 0 <= i < |c| => c[i].0)
  }

  /**
   * `handle_pickups`: with exactly one player, every item in reach is
   * despawned (returned here, in query order) and counted; without exactly
   * one player nothing happens. The logged summary is not modelled.
   */
  method HandlePickups(inventory: Inventory, players: seq<Vec3>, pickables: seq<Item>) returns (despawned: seq<nat>)
    requires inventory.Valid()
    modifies inventory
    ensures inventory.Valid()
    ensures |players| != 1 ==> despawned == [] && inventory.items == old(inventory.items)
    ensures |players| == 1 ==>
              var c := Collected(Xy(players[0]), pickables);
              despawned == Entities(c) && inventory.items == AddedAll(old(inventory.items), Kinds(c))
  {
    if |players| != 1 {
      return [];
    }
    var collected := CollectInReach(Xy(players[0]), pickables);
    despawned := Absorb(inventory, collected);
  }

  /** The first loop of `handle_pickups`: the items in reach, in query order. */
  method CollectInReach(playerPos: Vec2, pickables: seq<Item>) returns (collected: seq<(nat, ItemKind)>)
    ensures collected == Collected(playerPos, pickables)
  {
    collected := [];
    for i := 0 to |pickables|
      invariant collected == Collected(playerPos, pickables[..i])
    {
      CollectedPrefix(playerPos, pickables, i);
      var it := pickables[i];
      var itemPos := Xy(it.position);
      var distanceSq := DistanceSquared(playerPos, itemPos);
      if distanceSq < Sq(it.pickable.radius) {
        collected := collected + [(it.entity, it.pickable.kind)];
      }
    }
    assert pickables[..|pickables|] == pickables;
  }

  /** The second loop of `handle_pickups`: despawn each selected entity and add its kind. */
  method Absorb(inventory: Inventory, collected: seq<(nat, ItemKind)>) returns (despawned: seq<nat>)
    requires inventory.Valid()
    modifies inventory
    ensures inventory.Valid()
    ensures despawned == Entities(collected) && inventory.items == AddedAll(old(inventory.items), Kinds(collected))
  {
    despawned := [];
    for i := 0 to |collected|
      invariant inventory.Valid()
      invariant despawned == Entities(collected[..i])
      invariant inventory.items == AddedAll(old(inventory.items), Kinds(collected[..i]))
    {
      var (entity, kind) := collected[i];
      despawned := despawned + [entity];
      var count := inventory.Add(kind);
      assert Kinds(collected[..i + 1])[..i] == Kinds(collected[..i]);
    }
    assert collected[..|collected|] == collected;
  }

  /**
   * With one player, an item's kind gains one count per selected item of
   * that kind, and kinds with nothing selected keep their counts.
   */
  lemma PickupCounts(items: map<ItemKind, nat>, playerPos: Vec2, pickables: seq<Item>, k: ItemKind)
    ensures var c := Collected(playerPos, pickables);
            CountIn(AddedAll(items, Kinds(c)), k) == CountIn(items, k) + multiset(Kinds(c))[k]
    ensures k !in Kinds(Collected(playerPos, pickables)) ==>
              CountIn(AddedAll(items, Kinds(Collected(playerPos, pickables))), k) == CountIn(items, k)
  {
    AddedAllCounts(items, Kinds(Collected(playerPos, pickables)), k);
  }
}
