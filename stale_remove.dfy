/** A database state in which `remove_component` for a component the entity does not have
    frees the slot of another entity, and the checked removal that the class model uses. */
module StaleRemove {
  import opened Wrappers
  import opened TypeGuid
  import opened Bitsets
  import opened ComponentSets
  import opened EntityStore

  /** Entities 0 and 1 are created in an empty database. */
  ghost function TwoEntities<V>(): (d: Db<V>)
    ensures DbInv(d) && RegInv(d, EmptyRegistry) && Alive(d, 0) && Alive(d, 1) && d.sets == []
  {
    var d0 := EmptyDb<V>();
    CreateSpec(d0);
    var d1 := Create(d0).0;
    CreateSpec(d1);
    Create(d1).0
  }

  /** Entity 0 gets an `A`, the first type registered (id 1), and loses it again. Its slot is
      now the head of the free list, and its entry in `entid_to_comid` still names that slot. */
  ghost function AddedThenRemoved<V>(a: V): (res: (Db<V>, Registry))
    ensures DbInv(res.0) && RegInv(res.0, res.1) && res.1 == Registry(map[Named("A") := 1], 1)
    ensures Alive(res.0, 0) && Alive(res.0, 1) && !BitAt(res.0.masks[1], 1)
    ensures 1 < |res.0.sets| && res.0.sets[1].DataSet?
    ensures var t := res.0.sets[1].table;
      0 < |t.entToCom| && t.freeList != [] && t.freeHead == t.entToCom[0]
  {
    var d2 := TwoEntities<V>();
    AddDataSpec(d2, EmptyRegistry, "A", 0, a);
    var (d3, r1, c0) := AddData(d2, EmptyRegistry, "A", 0, a);
    assert r1 == Registry(map[Named("A") := 1], 1);
    RemoveCheckedSpec(d3, r1, Named("A"), 0);
    var (d4, r2) := RemoveChecked(d3, r1, Named("A"), 0);
    assert d4.sets[1].table == Removed(d3.sets[1].table, 0);
    (d4, r2)
  }

  /** Then entity 1 gets an `A`, which takes the slot entity 0 freed. Entity 0's entry in
      `entid_to_comid` still names that slot. */
  ghost function Scenario<V>(a: V, b: V): (res: (Db<V>, Registry))
    ensures DbInv(res.0) && RegInv(res.0, res.1)
    ensures Named("A") in res.1.ids && res.1.ids[Named("A")] == 1
    ensures Alive(res.0, 0) && Alive(res.0, 1)
    ensures BitAt(res.0.masks[1], 1) && ComponentOf(res.0, 1, 1) == Some(b)
    ensures Removable(res.0, 1, 0) && res.0.sets[1].DataSet?
    ensures var t := res.0.sets[1].table; 1 < |t.entToCom| && t.entToCom[0] == t.entToCom[1]
  {
    var (d4, r2) := AddedThenRemoved<V>(a);
    ReuseSlot(d4, r2, b);
    var (d5, r3, c1) := AddData(d4, r2, "A", 1, b);
    (d5, r3)
  }

  /** Adding an `A` to entity 1 when entity 0's stale entry names the head of the free list. */
  lemma ReuseSlot<V>(d4: Db<V>, r2: Registry, b: V)
    requires DbInv(d4) && RegInv(d4, r2) && r2 == Registry(map[Named("A") := 1], 1)
    requires Alive(d4, 0) && Alive(d4, 1) && !BitAt(d4.masks[1], 1)
    requires 1 < |d4.sets| && d4.sets[1].DataSet?
    requires var t := d4.sets[1].table; 0 < |t.entToCom| && t.freeList != [] && t.freeHead == t.entToCom[0]
    ensures var (d5, r3, c1) := AddData(d4, r2, "A", 1, b);
      DbInv(d5) && RegInv(d5, r3) && r3 == r2 &&
      Alive(d5, 0) && Alive(d5, 1) &&
      BitAt(d5.masks[1], 1) && ComponentOf(d5, 1, 1) == Some(b) &&
      Removable(d5, 1, 0) && d5.sets[1].DataSet? &&
      var t := d5.sets[1].table; 1 < |t.entToCom| && t.entToCom[0] == t.entToCom[1]
  {
    var t4 := d4.sets[1].table;
    assert TableFits(d4, 1);
    assert !Owns(t4, 1);
    AssignedSpec(t4, 1, b);
    assert EnsureSet(d4.sets, 1, Named("A")) == d4.sets;
    assert d4.(sets := d4.sets) == d4;
    var (d5, r3, c1) := AddData(d4, r2, "A", 1, b);
    assert (d5, r3, c1) == (PutData(d4, 1, 1, b).0, r2, PutData(d4, 1, 1, b).1);
    PutDataSpec(d4, 1, 1, b);
    RegInvKinds(d4, d5, r2);
    assert d5.sets[1].table == Assigned(t4, 1, b).0;
  }

  /** In the scenario entity 0 has no `A`, yet `remove_component<A>(0)` as written frees the
      slot of entity 1. Entity 1 keeps its bit, so `has_component<A>(1)` still answers yes,
      while no slot holds its component any more: the invariant is broken. */
  lemma StaleRemoveFreesAnotherSlot<V>(a: V, b: V)
    ensures var (d, r) := Scenario(a, b);
      var (d', r') := RemoveComponent(d, r, Named("A"), 0);
      r' == r && HasComponent(d', r', Named("A"), 1).1 &&
      ComponentOf(d, 1, 1) == Some(b) && ComponentOf(d', 1, 1) == None && !DbInv(d')
  {
    var (d, r) := Scenario(a, b);
    var (d', r') := RemoveComponent(d, r, Named("A"), 0);
    var t := d.sets[1].table;
    var t' := d'.sets[1].table;
    assert t' == Removed(t, 0);
    assert t'.comToEnt[t.entToCom[1]] == None;
    assert !Owns(t', 1);
    assert !TableFits(d', 1) by {
      assert BitAt(d'.masks[1], 1);
    }
  }

  /** After that removal, `destroy_entity(1)` still finds entity 1's bit and calls `remove(1)`,
      which frees the same slot again: the free list then names it twice, so two later
      `assign`s would both be given that slot. */
  lemma StaleRemoveThenDestroyFreesTwice<V>(a: V, b: V)
    ensures var (d, r) := Scenario(a, b);
      var (d', r') := RemoveComponent(d, r, Named("A"), 0);
      var s := d.sets[1].table.entToCom[1];
      1 < |d'.masks| && 1 < |d'.sets| && d'.sets[1].DataSet? &&
      var t := Destroy(d', 1).sets[1].table;
      2 <= |t.freeList| && t.freeList[0] == s && t.freeList[1] == s
  {
    var (d, r) := Scenario(a, b);
    var (d', r') := RemoveComponent(d, r, Named("A"), 0);
    var t := d.sets[1].table;
    var t' := d'.sets[1].table;
    assert t' == Removed(t, 0);
    assert d'.masks[1] == d.masks[1];
    assert BitAt(d'.masks[1], 1);
    assert Destroy(d', 1).sets[1] == DataSet(TableAfterDestroy(t', 1));
    assert TableAfterDestroy(t', 1) == Removed(t', 1);
  }
}
