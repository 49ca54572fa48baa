/** The database as a value: the entity table (one mask per entity slot plus the LIFO stack
    of free slots) and the component sets indexed by type id. Each operation of `database` is
    a function from the old state to the new one; the lemmas state what the operations keep
    and what they change. */
module EntityStore {
  import opened Wrappers
  import opened Seqs
  import opened TypeGuid
  import opened Bitsets
  import opened ComponentSets
  import opened Dispatch

  /** The entry of `component_sets` for one type id: a null pointer, the table of a tag type
      (which stores nothing), or the table of a data type. */
  datatype SetView<V> = NoSet | TagSet | DataSet(table: Table<V>)

  /** `entities` (as their masks), `free_entities` and `component_sets`. */
  datatype Db<V> = Db(masks: seq<seq<bool>>, free: seq<nat>, sets: seq<SetView<V>>)

  function EmptyDb<V>(): Db<V> {
    Db([], [], [])
  }

  /** Entity slot `e` holds a live entity: its alive bit 0 is set. */
  predicate Alive<V>(d: Db<V>, e: nat) {
    e < |d.masks| && BitAt(d.masks[e], 0)
  }

  /** The live entities. */
  function AliveSet<V>(d: Db<V>): set<nat> {
    set e: nat | e < |d.masks| && BitAt(d.masks[e], 0)
  }

  /** The data table at `g` is consistent and agrees with the masks: an entity carries bit `g`
      exactly when the table holds a component for it. */
  ghost predicate TableFits<V>(d: Db<V>, g: nat)
    requires g < |d.sets| && d.sets[g].DataSet?
  {
    var t := d.sets[g].table;
    TInv(t) &&
    (forall e: nat :: Owns(t, e) ==> e < |d.masks|) &&
    (forall e :: 0 <= e < |d.masks| ==> (BitAt(d.masks[e], g) <==> Owns(t, e)))
  }

  /** The database invariant. */
  ghost predicate DbInv<V>(d: Db<V>) {
    (forall e :: 0 <= e < |d.masks| ==> WellSized(d.masks[e])) &&
    // the free stack holds each dead slot once
    Distinct(d.free) &&
    (forall k :: 0 <= k < |d.free| ==> d.free[k] < |d.masks|) &&
    (forall e :: 0 <= e < |d.masks| ==> (BitAt(d.masks[e], 0) <==> e !in d.free)) &&
    // a dead entity carries no component
    (forall e, i {:trigger BitAt(d.masks[e], i)} :: 0 <= e < |d.masks| && !BitAt(d.masks[e], 0) ==> !BitAt(d.masks[e], i)) &&
    // every set bit above 0 has a component set
    (forall e, g {:trigger BitAt(d.masks[e], g)} :: 0 <= e < |d.masks| && 1 <= g && BitAt(d.masks[e], g) ==>
      g < |d.sets| && !d.sets[g].NoSet?) &&
    (forall g :: 0 <= g < |d.sets| && d.sets[g].DataSet? ==> TableFits(d, g)) &&
    (|d.sets| > 0 ==> d.sets[0] == NoSet)
  }

  /** The set at an id holds the kind of table its type calls for. */
  predicate SetFitsKey<V>(s: SetView<V>, k: TypeKey) {
    (s.DataSet? ==> k.Named?) && (s.TagSet? ==> k.TagOf?)
  }

  /** The database agrees with the registry: sets exist only for ids handed out, and each
      registered type's set has the type's kind. */
  ghost predicate RegInv<V>(d: Db<V>, r: Registry) {
    Wf(r) && |d.sets| <= r.last + 1 &&
    (forall k :: k in r.ids && r.ids[k] < |d.sets| ==> SetFitsKey(d.sets[r.ids[k]], k))
  }

  /** The component of data type id `g` that entity `e` holds (`get_component`), if any. */
  function ComponentOf<V>(d: Db<V>, g: nat, e: nat): Option<V> {
    if g < |d.sets| && d.sets[g].DataSet? then ValueOf(d.sets[g].table, e) else None
  }

  /** The number of valid slots in the table of id `g` (0 when there is none). */
  function CountOf<V>(d: Db<V>, g: nat): nat {
    if g < |d.sets| && d.sets[g].DataSet? then |LiveSlots(d.sets[g].table)| else 0
  }

  /** `get_or_create_com_set` for the type `k` of id `g`: the vector grows to `g + 1` entries
      when too short, and a null entry gets a fresh table of the type's kind. */
  function EnsureSet<V>(sets: seq<SetView<V>>, g: nat, k: TypeKey): (r: seq<SetView<V>>)
    ensures |r| == if |sets| <= g then g + 1 else |sets|
    ensures r[g] == if g < |sets| && !sets[g].NoSet? then sets[g]
                    else if k.TagOf? then TagSet else DataSet(Empty())
    ensures forall h :: 0 <= h < |r| && h != g ==> r[h] == if h < |sets| then sets[h] else NoSet
  {
    var grown := if |sets| <= g then sets + seq(g + 1 - |sets|, _ => NoSet) else sets;
    if grown[g].NoSet? then grown[g := if k.TagOf? then TagSet else DataSet(Empty())] else grown
  }

  /** `create_entity`: the state afterwards and the new entity's id. The most recently freed
      slot is reused; otherwise a new slot is appended. The mask gets its alive bit. */
  function Create<V>(d: Db<V>): (Db<V>, nat)
    requires |d.free| > 0 ==> d.free[|d.free| - 1] < |d.masks|
  {
    if d.free == [] then
      (d.(masks := d.masks + [WithBit(Fresh(), 0)]), |d.masks|)
    else
      var e := d.free[|d.free| - 1];
      (d.(masks := d.masks[e := WithBit(d.masks[e], 0)], free := d.free[..|d.free| - 1]), e)
  }

  /** The table of id `g` after `destroy_entity(e)`, which calls `remove(e)` on it because `e`
      carries bit `g`. Nothing checks that `e` owns a slot: `remove` frees the slot that
      `entid_to_comid[e]` names. The table is left alone only where that entry cannot be read,
      which the source leaves undefined and which `CarriedIsRemovable` rules out under the
      invariant. */
  function TableAfterDestroy<V>(t: Table<V>, e: nat): Table<V> {
    if e < |t.entToCom| && t.entToCom[e] < |t.slots| && |t.slots| == |t.comToEnt| then Removed(t, e) else t
  }

  /** `destroy_entity(e)`: every set whose bit (above 0) the entity carries removes it, then
      the mask is cleared and the slot pushed on the free stack. */
  function Destroy<V>(d: Db<V>, e: nat): Db<V>
    requires e < |d.masks|
  {
    var sets := seq(|d.sets|, (g: int) requires 0 <= g < |d.sets| =>
      if 1 <= g && BitAt(d.masks[e], g) && d.sets[g].DataSet?
      then DataSet(TableAfterDestroy(d.sets[g].table, e)) else d.sets[g]);
    Db(d.masks[e := Cleared(d.masks[e])], d.free + [e], sets)
  }

  /** `get_or_create_com_set` keeps both invariants and changes no mask or stored value. */
  lemma EnsureSetSpec<V>(d: Db<V>, r: Registry, k: TypeKey)
    requires DbInv(d) && RegInv(d, r) && k in r.ids && k != VoidKey
    ensures var d' := d.(sets := EnsureSet(d.sets, r.ids[k], k));
      DbInv(d') && RegInv(d', r) &&
      (k.Named? ==> d'.sets[r.ids[k]].DataSet?) && (k.TagOf? ==> d'.sets[r.ids[k]] == TagSet) &&
      (forall g: nat, e: nat :: ComponentOf(d', g, e) == ComponentOf(d, g, e)) &&
      (forall g: nat :: CountOf(d', g) == CountOf(d, g))
  {
    var g := r.ids[k];
    var d' := d.(sets := EnsureSet(d.sets, g, k));
    assert g >= 1;
    if g < |d.sets| {
      assert SetFitsKey(d.sets[g], k);
    }
    forall h | 0 <= h < |d'.sets| && d'.sets[h].DataSet? ensures TableFits(d', h) {
      if h == g && (g >= |d.sets| || d.sets[g].NoSet?) {
        EmptyValid<V>();
        forall e | 0 <= e < |d.masks| ensures !BitAt(d.masks[e], g) {
        }
      } else {
        assert d'.sets[h] == d.sets[h];
        assert TableFits(d, h);
      }
    }
    assert d'.masks == d.masks;
    forall e, h | 0 <= e < |d.masks| && 1 <= h && BitAt(d.masks[e], h)
      ensures h < |d'.sets| && !d'.sets[h].NoSet?
    {
      assert h < |d.sets| && !d.sets[h].NoSet?;
    }
    forall k' | k' in r.ids && r.ids[k'] < |d'.sets| ensures SetFitsKey(d'.sets[r.ids[k']], k') {
      if r.ids[k'] == g {
        assert k' == k;
      }
    }
    forall h: nat, e: nat ensures ComponentOf(d', h, e) == ComponentOf(d, h, e) {
      if h == g && (g >= |d.sets| || d.sets[g].NoSet?) {
        EmptyValid<V>();
      }
    }
    forall h: nat ensures CountOf(d', h) == CountOf(d, h) {
      if h == g && (g >= |d.sets| || d.sets[g].NoSet?) {
        EmptyValid<V>();
      }
    }
  }

  /** Two set vectors with the same kind of entry at every id. */
  predicate SameKinds<V>(a: seq<SetView<V>>, b: seq<SetView<V>>) {
    |a| == |b| &&
    forall g :: 0 <= g < |a| ==> a[g].NoSet? == b[g].NoSet? && a[g].TagSet? == b[g].TagSet?
  }

  /** The registry invariant depends only on the kinds of the sets. */
  lemma RegInvKinds<V>(d: Db<V>, d': Db<V>, r: Registry)
    requires RegInv(d, r) && SameKinds(d.sets, d'.sets)
    ensures RegInv(d', r)
  {
    forall k | k in r.ids && r.ids[k] < |d'.sets| ensures SetFitsKey(d'.sets[r.ids[k]], k) {
      assert SetFitsKey(d.sets[r.ids[k]], k);
    }
  }

  /** There are `|entities| - |free_entities|` live entities. */
  lemma {:induction false} AliveCount<V>(d: Db<V>)
    requires DbInv(d)
    ensures |d.free| <= |d.masks| && |AliveSet(d)| == |d.masks| - |d.free|
  {
    var fs := set x | x in d.free;
    forall e: nat ensures e in AliveSet(d) <==> e in Below(|d.masks|) - fs {
    }
    assert AliveSet(d) == Below(|d.masks|) - fs;
    BelowMinusCard(|d.masks|, d.free);
  }

  /** A component value is held exactly by the owners of its table's slots. */
  lemma ValueOfOwns<V>(t: Table<V>, e: nat)
    requires TInv(t)
    ensures ValueOf(t, e).Some? <==> Owns(t, e)
  {
    if Owns(t, e) {
      assert OwnedSlot(t, t.entToCom[e]);
    }
  }

  /** `create_entity` takes the most recently freed slot, or a new one at the end when none is
      free; the entity it returns was dead and is now alive with no component, no other mask
      and no set changes, the invariant is kept, and there is one more live entity. */
  lemma {:induction false} CreateSpec<V>(d: Db<V>)
    requires DbInv(d)
    ensures var (d', e) := Create(d);
      DbInv(d') && d'.sets == d.sets &&
      (d.free == [] ==> e == |d.masks| && |d'.masks| == |d.masks| + 1 && d'.free == []) &&
      (d.free != [] ==> e == d.free[|d.free| - 1] && |d'.masks| == |d.masks| &&
                        d'.free == d.free[..|d.free| - 1]) &&
      !Alive(d, e) && Alive(d', e) && (forall g: nat :: g >= 1 ==> !BitAt(d'.masks[e], g)) &&
      (forall e' :: 0 <= e' < |d.masks| && e' != e ==> d'.masks[e'] == d.masks[e']) &&
      AliveSet(d') == AliveSet(d) + {e}
  {
    var (d', e) := Create(d);
    var old_mask := if e < |d.masks| then d.masks[e] else Fresh();
    assert WellSized(old_mask) && forall i: nat :: !BitAt(old_mask, i);
    SetGrowth(old_mask, 0);
    assert d'.masks[e] == WithBit(old_mask, 0);
    assert forall e' :: 0 <= e' < |d.masks| && e' != e ==> d'.masks[e'] == d.masks[e'];
    if d.free != [] {
      var fl := d'.free;
      assert forall k :: 0 <= k < |fl| ==> fl[k] == d.free[k];
      assert e !in fl;
      forall x | 0 <= x < |d'.masks| ensures BitAt(d'.masks[x], 0) <==> x !in fl {
        assert x != e ==> (x in fl <==> x in d.free);
      }
    }
    forall g | 0 <= g < |d'.sets| && d'.sets[g].DataSet? ensures TableFits(d', g) {
      assert TableFits(d, g);
      var t := d.sets[g].table;
      assert !Owns(t, e) by {
        if e < |d.masks| {
          assert !BitAt(d.masks[e], g);
        }
      }
    }
    assert forall x: nat :: x in AliveSet(d') <==> x in AliveSet(d) || x == e;
  }

  /** One table under `destroy_entity(e)`. */
  lemma DestroyTable<V>(d: Db<V>, e: nat, g: nat)
    requires DbInv(d) && Alive(d, e) && g < |d.sets| && d.sets[g].DataSet?
    ensures var d' := Destroy(d, e); var t := d.sets[g].table; var t' := d'.sets[g].table;
      d'.sets[g].DataSet? && TInv(t') && !Owns(t', e) &&
      (forall e': nat :: e' != e ==> (Owns(t', e') <==> Owns(t, e')) && ValueOf(t', e') == ValueOf(t, e')) &&
      |LiveSlots(t')| == if Owns(t, e) then |LiveSlots(t)| - 1 else |LiveSlots(t)|
  {
    var t := d.sets[g].table;
    assert TableFits(d, g);
    if g != 0 && BitAt(d.masks[e], g) {
      RemovedSpec(t, e);
    }
  }

  /** `destroy_entity` on a live entity removes its component from every table that holds one
      and nothing else, clears its mask, pushes its slot on the free stack, keeps the invariant,
      and leaves one live entity fewer. Each table loses exactly one valid slot when the entity
      had that component. */
  lemma {:induction false} DestroySpec<V>(d: Db<V>, e: nat)
    requires DbInv(d) && Alive(d, e)
    ensures var d' := Destroy(d, e);
      DbInv(d') && SameKinds(d.sets, d'.sets) &&
      !Alive(d', e) && (forall i: nat :: !BitAt(d'.masks[e], i)) &&
      d'.free == d.free + [e] && |d'.masks| == |d.masks| &&
      (forall e' :: 0 <= e' < |d.masks| && e' != e ==> d'.masks[e'] == d.masks[e']) &&
      (forall g: nat :: ComponentOf(d', g, e) == None) &&
      (forall g: nat, e': nat :: e' != e ==> ComponentOf(d', g, e') == ComponentOf(d, g, e')) &&
      (forall g: nat :: CountOf(d', g) ==
        if ComponentOf(d, g, e).Some? then CountOf(d, g) - 1 else CountOf(d, g)) &&
      AliveSet(d') == AliveSet(d) - {e}
  {
    var d' := Destroy(d, e);
    ZeroSemantics(d.masks[e]);
    assert d'.masks[e] == Cleared(d.masks[e]);
    DestroyInv(d, e);
    DestroyComponents(d, e);
    assert forall x: nat :: x in AliveSet(d') <==> x in AliveSet(d) && x != e;
  }

  /** `destroy_entity` of an entity that is already dead is not rejected: its slot is pushed on
      the free stack a second time, so the next two `create_entity` calls return the same
      id. Here entity 0 is created and destroyed twice. */
  lemma DestroyDeadPushesTwice<V>()
    ensures var d1 := Create(EmptyDb<V>()).0;
      var d3 := Destroy(Destroy(d1, 0), 0);
      d3.free == [0, 0] && Create(d3).1 == 0 && Create(Create(d3).0).1 == 0
  {
    var d1 := Create(EmptyDb<V>()).0;
    assert |d1.masks| == 1;
    var d2 := Destroy(d1, 0);
    assert d2.free == [0] && |d2.masks| == 1;
    var d3 := Destroy(d2, 0);
    assert d3.free == [0, 0] && |d3.masks| == 1;
    assert Create(d3).0.free == [0];
  }

  /** `add_component` on a destroyed entity is not rejected either: the bit is set on the dead
      slot, and the next `create_entity` hands that slot out again with the component already
      on it. Here entity 0 is created, destroyed and given the tag `T` (id 1). */
  lemma AddToDeadSurvivesCreate<V>()
    ensures var d2 := Destroy(Create(EmptyDb<V>()).0, 0);
      var (d3, r) := AddTag(d2, EmptyRegistry, "T", 0);
      r.ids[TagOf("T")] == 1 && Create(d3).1 == 0 && BitAt(Create(d3).0.masks[0], 1)
  {
    var d1 := Create(EmptyDb<V>()).0;
    assert |d1.masks| == 1;
    var d2 := Destroy(d1, 0);
    assert d2.free == [0] && |d2.masks| == 1;
    var (d3, r) := AddTag(d2, EmptyRegistry, "T", 0);
    assert r.ids[TagOf("T")] == 1;
    assert BitAt(d3.masks[0], 1) && d3.free == [0];
  }

  /** `destroy_entity` keeps the invariant and the kind of every set. */
  lemma DestroyInv<V>(d: Db<V>, e: nat)
    requires DbInv(d) && Alive(d, e)
    ensures DbInv(Destroy(d, e)) && SameKinds(d.sets, Destroy(d, e).sets)
  {
    var d' := Destroy(d, e);
    ZeroSemantics(d.masks[e]);
    assert d'.masks[e] == Cleared(d.masks[e]);
    assert forall e' :: 0 <= e' < |d.masks| && e' != e ==> d'.masks[e'] == d.masks[e'];
    assert e !in d.free;
    assert Distinct(d'.free);
    forall x | 0 <= x < |d'.masks| ensures BitAt(d'.masks[x], 0) <==> x !in d'.free {
      assert x in d'.free <==> x in d.free || x == e;
    }
    forall g | 0 <= g < |d'.sets| && d'.sets[g].DataSet? ensures TableFits(d', g) {
      DestroyTable(d, e, g);
      assert TableFits(d, g);
    }
  }

  /** `destroy_entity` takes the entity's components away, one valid slot from each table that
      held one, and leaves every other entity's components as they were. */
  lemma DestroyComponents<V>(d: Db<V>, e: nat)
    requires DbInv(d) && Alive(d, e)
    ensures var d' := Destroy(d, e);
      (forall g: nat :: ComponentOf(d', g, e) == None) &&
      (forall g: nat, e': nat :: e' != e ==> ComponentOf(d', g, e') == ComponentOf(d, g, e')) &&
      (forall g: nat :: CountOf(d', g) ==
        if ComponentOf(d, g, e).Some? then CountOf(d, g) - 1 else CountOf(d, g))
  {
    var d' := Destroy(d, e);
    forall g: nat ensures ComponentOf(d', g, e) == None {
      if g < |d.sets| && d.sets[g].DataSet? {
        DestroyTable(d, e, g);
        ValueOfOwns(d'.sets[g].table, e);
      }
    }
    forall g: nat, e': nat | e' != e ensures ComponentOf(d', g, e') == ComponentOf(d, g, e') {
      if g < |d.sets| && d.sets[g].DataSet? {
        DestroyTable(d, e, g);
      }
    }
    forall g: nat ensures CountOf(d', g) ==
      if ComponentOf(d, g, e).Some? then CountOf(d, g) - 1 else CountOf(d, g)
    {
      if g < |d.sets| && d.sets[g].DataSet? {
        DestroyTable(d, e, g);
        ValueOfOwns(d.sets[g].table, e);
      }
    }
  }

  /** Registering a type keeps the registry invariant. */
  lemma RegisterKeeps<V>(d: Db<V>, r: Registry, k: TypeKey)
    requires RegInv(d, r)
    ensures RegInv(d, Register(r, k).0)
  {
    var r' := Register(r, k).0;
    forall k' | k' in r'.ids && r'.ids[k'] < |d.sets| ensures SetFitsKey(d.sets[r'.ids[k']], k') {
      assert k' in r.ids;
    }
  }

  /** `add_component(e, v)` for the data type `n`: the state afterwards, the registry and the
      component id. An entity that already has the type gets the value assigned in place and
      keeps its id; otherwise the table assigns a slot and the mask gets the type's bit. */
  function AddData<V>(d: Db<V>, r: Registry, n: string, e: nat, v: V): (Db<V>, Registry, nat)
    requires DbInv(d) && RegInv(d, r) && e < |d.masks|
  {
    var (r', g) := Register(r, Named(n));
    RegisterKeeps(d, r, Named(n));
    EnsureSetSpec(d, r', Named(n));
    var (d', cid) := PutData(d.(sets := EnsureSet(d.sets, g, Named(n))), g, e, v);
    (d', r', cid)
  }

  /** The second half of `add_component(e, v)`, once the data set of id `g` exists: an entity
      with bit `g` has its slot overwritten; otherwise the table assigns a slot and the bit is
      set. */
  function PutData<V>(d: Db<V>, g: nat, e: nat, v: V): (Db<V>, nat)
    requires DbInv(d) && e < |d.masks| && g < |d.sets| && d.sets[g].DataSet?
  {
    var t := d.sets[g].table;
    assert TableFits(d, g);
    if g < |d.masks[e]| && BitAt(d.masks[e], g) then
      var cid := t.entToCom[e];
      (d.(sets := d.sets[g := DataSet(Overwritten(t, cid, v))]), cid)
    else
      var (t', cid) := Assigned(t, e, v);
      (Db(d.masks[e := WithBit(d.masks[e], g)], d.free, d.sets[g := DataSet(t')]), cid)
  }

  /** `add_component(e, tag<n>)`: the tag's set is created if needed and the bit set. */
  function AddTag<V>(d: Db<V>, r: Registry, n: string, e: nat): (Db<V>, Registry)
    requires Wf(r) && e < |d.masks|
  {
    var (r', g) := Register(r, TagOf(n));
    (MarkTag(d.(sets := EnsureSet(d.sets, g, TagOf(n))), g, e), r')
  }

  /** The second half of `add_component(e, tag<n>)`: the entity's mask gets bit `g`. */
  function MarkTag<V>(d: Db<V>, g: nat, e: nat): Db<V>
    requires e < |d.masks|
  {
    d.(masks := d.masks[e := WithBit(d.masks[e], g)])
  }

  /** What `remove_component` dereferences for type id `g`: the set must exist, and a data
      table must have an entry for `e` that names one of its slots. */
  predicate Removable<V>(d: Db<V>, g: nat, e: nat) {
    g < |d.sets| && !d.sets[g].NoSet? &&
    (d.sets[g].DataSet? ==>
      var t := d.sets[g].table;
      e < |t.entToCom| && t.entToCom[e] < |t.slots| && |t.slots| == |t.comToEnt|)
  }

  /** `remove_component<K>(e)` as written: registers `K`, has the set remove `e` (the slot
      `entid_to_comid[e]` is freed, whoever owns it; a tag table does nothing) and clears the
      bit. Nothing checks that the entity has the component. */
  function RemoveComponent<V>(d: Db<V>, r: Registry, k: TypeKey, e: nat): (Db<V>, Registry)
    requires Wf(r) && e < |d.masks| && Removable(d, Register(r, k).1, e)
  {
    var (r', g) := Register(r, k);
    (DropComponent(d, g, e), r')
  }

  /** The second half of `remove_component`: the set of id `g` removes `e` and the bit is
      cleared. */
  function DropComponent<V>(d: Db<V>, g: nat, e: nat): Db<V>
    requires e < |d.masks| && Removable(d, g, e)
  {
    var sets := if d.sets[g].DataSet? then d.sets[g := DataSet(Removed(d.sets[g].table, e))] else d.sets;
    Db(d.masks[e := WithoutBit(d.masks[e], g)], d.free, sets)
  }

  /** An entity that carries bit `g` can be removed from the set of `g`. */
  lemma CarriedIsRemovable<V>(d: Db<V>, g: nat, e: nat)
    requires DbInv(d) && e < |d.masks| && 1 <= g && BitAt(d.masks[e], g)
    ensures Removable(d, g, e)
  {
    if d.sets[g].DataSet? {
      assert TableFits(d, g);
      assert OwnedSlot(d.sets[g].table, d.sets[g].table.entToCom[e]);
    }
  }

  /** `remove_component` guarded by the entity's bit: the removal happens only when the
      entity has the component, and is otherwise a no-op apart from registering `K`. */
  function RemoveChecked<V>(d: Db<V>, r: Registry, k: TypeKey, e: nat): (Db<V>, Registry)
    requires DbInv(d) && Wf(r) && e < |d.masks|
  {
    var (r', g) := Register(r, k);
    if BitAt(d.masks[e], g) then
      CarriedIsRemovable(d, g, e);
      RemoveComponent(d, r, k, e)
    else (d, r')
  }

  /** `has_component<K>(e)`: registers `K` and reads its bit. */
  function HasComponent<V>(d: Db<V>, r: Registry, k: TypeKey, e: nat): (Registry, bool)
    requires Wf(r) && e < |d.masks|
  {
    var (r', g) := Register(r, k);
    (r', BitAt(d.masks[e], g))
  }

  /** Slot `c` of the table of id `g` holds a component. */
  predicate ValidCid<V>(d: Db<V>, g: nat, c: nat) {
    g < |d.sets| && d.sets[g].DataSet? && c < |d.sets[g].table.comToEnt| && d.sets[g].table.comToEnt[c].Some?
  }

  /** `size()`. */
  function Size<V>(d: Db<V>): int {
    |d.masks| - |d.free|
  }

  /** `size()` is the number of live entities. */
  lemma SizeIsAlive<V>(d: Db<V>)
    requires DbInv(d)
    ensures Size(d) == |AliveSet(d)|
  {
    AliveCount(d);
  }

  /** Replacing the mask of a live entity `e` and the table at data id `g`, in step, keeps the
      invariant when the new table is consistent, agrees with the new mask at `e` and agrees
      with the old one for every other entity. */
  lemma ReplaceOne<V>(d: Db<V>, e: nat, g: nat, m: seq<bool>, t': Table<V>)
    requires DbInv(d) && Alive(d, e) && 1 <= g < |d.sets| && d.sets[g].DataSet?
    requires WellSized(m) && BitAt(m, 0) && (forall i: nat :: i != g ==> BitAt(m, i) == BitAt(d.masks[e], i))
    requires TInv(t') && (BitAt(m, g) <==> Owns(t', e))
    requires forall e': nat :: e' != e ==> (Owns(t', e') <==> Owns(d.sets[g].table, e'))
    ensures DbInv(Db(d.masks[e := m], d.free, d.sets[g := DataSet(t')]))
  {
    var d' := Db(d.masks[e := m], d.free, d.sets[g := DataSet(t')]);
    assert forall x :: 0 <= x < |d.masks| && x != e ==> d'.masks[x] == d.masks[x];
    forall x | 0 <= x < |d'.masks| ensures BitAt(d'.masks[x], 0) <==> x !in d'.free {
    }
    forall x, i | 0 <= x < |d'.masks| && 1 <= i && BitAt(d'.masks[x], i)
      ensures i < |d'.sets| && !d'.sets[i].NoSet?
    {
      if x == e && i == g {
      } else {
        assert BitAt(d.masks[x], i);
      }
    }
    forall h | 0 <= h < |d'.sets| && d'.sets[h].DataSet? ensures TableFits(d', h) {
      assert TableFits(d, g);
      if h != g {
        assert TableFits(d, h);
      }
    }
  }

  /** `d'` differs from `d` at most in entity `e`'s bit `g` and in what the table at `g`
      holds for `e`: every other entity, every other type and the free stack are as before. */
  ghost predicate OnlyChanged<V>(d: Db<V>, d': Db<V>, g: nat, e: nat)
    requires e < |d.masks| && e < |d'.masks|
  {
    (forall h: nat, e': nat :: h != g || e' != e ==> ComponentOf(d', h, e') == ComponentOf(d, h, e')) &&
    (forall h: nat :: h != g ==> CountOf(d', h) == CountOf(d, h)) &&
    |d'.masks| == |d.masks| && d'.free == d.free &&
    (forall e' :: 0 <= e' < |d.masks| && e' != e ==> d'.masks[e'] == d.masks[e']) &&
    (forall i: nat :: i != g ==> BitAt(d'.masks[e], i) == BitAt(d.masks[e], i))
  }

  /** The overwriting branch of `add_component`, once the set exists. */
  lemma AddDataOverwrite<V>(d: Db<V>, e: nat, g: nat, v: V)
    requires DbInv(d) && Alive(d, e) && 1 <= g < |d.sets| && d.sets[g].DataSet? && BitAt(d.masks[e], g)
    ensures var t := d.sets[g].table; var c := t.entToCom[e];
      c < |t.slots| &&
      var d' := d.(sets := d.sets[g := DataSet(Overwritten(t, c, v))]);
      DbInv(d') && OnlyChanged(d, d', g, e) && ComponentOf(d', g, e) == Some(v) &&
      ComponentOf(d, g, e).Some? && CountOf(d', g) == CountOf(d, g) &&
      c < t.backIndex && d'.sets[g].table.entToCom[e] == c && d'.masks == d.masks
  {
    var t := d.sets[g].table;
    assert TableFits(d, g);
    var c := t.entToCom[e];
    assert Owns(t, e);
    assert OwnedSlot(t, c);
    OverwrittenSpec(t, c, v);
    var d' := d.(sets := d.sets[g := DataSet(Overwritten(t, c, v))]);
    ReplaceOne(d, e, g, d.masks[e], Overwritten(t, c, v));
    assert d.masks[e := d.masks[e]] == d.masks;
    ValueOfOwns(t, e);
  }

  /** The assigning branch of `add_component`, once the set exists. */
  lemma AddDataAssign<V>(d: Db<V>, e: nat, g: nat, v: V)
    requires DbInv(d) && Alive(d, e) && 1 <= g < |d.sets| && d.sets[g].DataSet? && !BitAt(d.masks[e], g)
    ensures var t := d.sets[g].table;
      TInv(t) &&
      var (t', c) := Assigned(t, e, v);
      var d' := Db(d.masks[e := WithBit(d.masks[e], g)], d.free, d.sets[g := DataSet(t')]);
      DbInv(d') && OnlyChanged(d, d', g, e) && ComponentOf(d', g, e) == Some(v) &&
      ComponentOf(d, g, e).None? && CountOf(d', g) == CountOf(d, g) + 1 &&
      c < t'.backIndex && t'.entToCom[e] == c && BitAt(d'.masks[e], g)
  {
    var t := d.sets[g].table;
    assert TableFits(d, g);
    var (t', c) := Assigned(t, e, v);
    AssignedSpec(t, e, v);
    var m := WithBit(d.masks[e], g);
    SetGrowth(d.masks[e], g);
    ReplaceOne(d, e, g, m, t');
    ValueOfOwns(t', e);
    ValueOfOwns(t, e);
  }

  /** The table and mask step of `add_component` keeps the invariant and the kind of every
      set. */
  lemma PutDataInv<V>(d: Db<V>, g: nat, e: nat, v: V)
    requires DbInv(d) && Alive(d, e) && 1 <= g < |d.sets| && d.sets[g].DataSet?
    ensures DbInv(PutData(d, g, e, v).0) && SameKinds(d.sets, PutData(d, g, e, v).0.sets)
  {
    if BitAt(d.masks[e], g) {
      AddDataOverwrite(d, e, g, v);
    } else {
      AddDataAssign(d, e, g, v);
    }
  }

  /** The table and mask step of `add_component` on a live entity, once the data set of id
      `g` exists: the entity holds `v` under the returned id afterwards, an existing component
      keeps its id and the count, a new one adds one valid slot, and nothing else changes. */
  lemma PutDataSpec<V>(d: Db<V>, g: nat, e: nat, v: V)
    requires DbInv(d) && Alive(d, e) && 1 <= g < |d.sets| && d.sets[g].DataSet?
    ensures var (d', cid) := PutData(d, g, e, v);
      DbInv(d') && SameKinds(d.sets, d'.sets) &&
      d'.sets[g].DataSet? && d'.sets[g].table.entToCom[e] == cid &&
      cid < d'.sets[g].table.backIndex &&
      ComponentOf(d', g, e) == Some(v) && BitAt(d'.masks[e], g) &&
      (ComponentOf(d, g, e).Some? ==>
        cid == d.sets[g].table.entToCom[e] && CountOf(d', g) == CountOf(d, g)) &&
      (ComponentOf(d, g, e).None? ==> CountOf(d', g) == CountOf(d, g) + 1) &&
      OnlyChanged(d, d', g, e)
  {
    if BitAt(d.masks[e], g) {
      AddDataOverwrite(d, e, g, v);
    } else {
      AddDataAssign(d, e, g, v);
    }
  }

  /** `add_component` of data type `n` to a live entity. If the entity had the type, the id is
      its old one and the value is replaced in place; otherwise a slot is assigned, the bit is
      set, and the table has one more valid slot. Either way the entity now holds `v` under that
      id, nothing else changes, and both invariants are kept. */
  lemma {:induction false} AddDataSpec<V>(d: Db<V>, r: Registry, n: string, e: nat, v: V)
    requires DbInv(d) && RegInv(d, r) && Alive(d, e)
    ensures var (d', r', cid) := AddData(d, r, n, e, v);
      var g := Register(r, Named(n)).1;
      DbInv(d') && RegInv(d', r') && r' == Register(r, Named(n)).0 &&
      g < |d'.sets| && d'.sets[g].DataSet? && d'.sets[g].table.entToCom[e] == cid &&
      cid < d'.sets[g].table.backIndex &&
      ComponentOf(d', g, e) == Some(v) && BitAt(d'.masks[e], g) &&
      (ComponentOf(d, g, e).Some? ==>
        cid == d.sets[g].table.entToCom[e] && CountOf(d', g) == CountOf(d, g)) &&
      (ComponentOf(d, g, e).None? ==> CountOf(d', g) == CountOf(d, g) + 1) &&
      OnlyChanged(d, d', g, e) && AliveSet(d') == AliveSet(d)
  {
    var (r', g) := Register(r, Named(n));
    RegisterKeeps(d, r, Named(n));
    EnsureSetSpec(d, r', Named(n));
    var d1 := d.(sets := EnsureSet(d.sets, g, Named(n)));
    PutDataSpec(d1, g, e, v);
    var d' := PutData(d1, g, e, v).0;
    assert AddData(d, r, n, e, v) == (d', r', PutData(d1, g, e, v).1);
    assert g < |d.sets| && d.sets[g].DataSet? ==> d1.sets[g] == d.sets[g];
    assert OnlyChanged(d, d1, g, e);
    RegInvKinds(d1, d', r');
    assert forall x: nat :: x in AliveSet(d') <==> x in AliveSet(d);
  }

  /** `add_component` of tag `n` to a live entity: the tag's (empty) set exists afterwards and
      the entity carries its bit; no stored value and no other bit or entity changes. */
  lemma {:induction false} AddTagSpec<V>(d: Db<V>, r: Registry, n: string, e: nat)
    requires DbInv(d) && RegInv(d, r) && Alive(d, e)
    ensures var (d', r') := AddTag(d, r, n, e);
      var g := Register(r, TagOf(n)).1;
      DbInv(d') && RegInv(d', r') && r' == Register(r, TagOf(n)).0 &&
      g < |d'.sets| && d'.sets[g] == TagSet && BitAt(d'.masks[e], g) &&
      OnlyChanged(d, d', g, e) && CountOf(d', g) == 0 &&
      (forall e': nat :: ComponentOf(d', g, e') == None) && AliveSet(d') == AliveSet(d)
  {
    var (r', g) := Register(r, TagOf(n));
    RegisterKeeps(d, r, TagOf(n));
    EnsureSetSpec(d, r', TagOf(n));
    var d1 := d.(sets := EnsureSet(d.sets, g, TagOf(n)));
    var d' := MarkTag(d1, g, e);
    assert AddTag(d, r, n, e) == (d', r');
    MarkTagSpec(d1, g, e);
    assert OnlyChanged(d, d1, g, e);
    RegInvKinds(d1, d', r');
    assert forall x: nat :: x in AliveSet(d') <==> x in AliveSet(d1);
  }

  /** Setting the bit of an existing tag set on a live entity keeps the invariant and changes
      no other bit, entity or set. */
  lemma MarkTagSpec<V>(d: Db<V>, g: nat, e: nat)
    requires DbInv(d) && Alive(d, e) && 1 <= g < |d.sets| && d.sets[g] == TagSet
    ensures var d' := MarkTag(d, g, e);
      DbInv(d') && d'.sets == d.sets && BitAt(d'.masks[e], g) && Alive(d', e) &&
      OnlyChanged(d, d', g, e)
  {
    var d' := MarkTag(d, g, e);
    var m := WithBit(d.masks[e], g);
    SetGrowth(d.masks[e], g);
    assert forall x :: 0 <= x < |d.masks| && x != e ==> d'.masks[x] == d.masks[x];
    forall x | 0 <= x < |d'.masks| ensures BitAt(d'.masks[x], 0) <==> x !in d'.free {
    }
    forall x, i | 0 <= x < |d'.masks| && 1 <= i && BitAt(d'.masks[x], i)
      ensures i < |d'.sets| && !d'.sets[i].NoSet?
    {
      if x != e || i != g {
        assert BitAt(d.masks[x], i);
      }
    }
    forall h | 0 <= h < |d'.sets| && d'.sets[h].DataSet? ensures TableFits(d', h) {
      assert TableFits(d, h);
    }
  }

  /** Adding a tag twice is the same as adding it once. */
  lemma AddTagIdempotent<V>(d: Db<V>, r: Registry, n: string, e: nat)
    requires DbInv(d) && RegInv(d, r) && Alive(d, e)
    ensures var (d1, r1) := AddTag(d, r, n, e);
      AddTag(d1, r1, n, e) == (d1, r1)
  {
    var (d1, r1) := AddTag(d, r, n, e);
    var g := Register(r, TagOf(n)).1;
    AddTagSpec(d, r, n, e);
    SetGrowth(d1.masks[e], g);
    assert WithBit(d1.masks[e], g) == d1.masks[e];
    assert d1.masks[e := d1.masks[e]] == d1.masks;
  }

  /** The checked `remove_component` on any entity slot: afterwards the entity does not hold
      the component and the bit is clear; the set loses one valid slot exactly when the entity
      had a component in a data table; every other entity, type and the free stack are as
      before, and both invariants are kept. Without the component the database is unchanged. */
  lemma {:induction false} RemoveCheckedSpec<V>(d: Db<V>, r: Registry, k: TypeKey, e: nat)
    requires DbInv(d) && RegInv(d, r) && e < |d.masks|
    ensures var (d', r') := RemoveChecked(d, r, k, e); var g := Register(r, k).1;
      DbInv(d') && RegInv(d', r') && r' == Register(r, k).0 && SameKinds(d.sets, d'.sets) &&
      !BitAt(d'.masks[e], g) && ComponentOf(d', g, e) == None &&
      Alive(d', e) == Alive(d, e) && OnlyChanged(d, d', g, e) &&
      CountOf(d', g) == (if ComponentOf(d, g, e).Some? then CountOf(d, g) - 1 else CountOf(d, g)) &&
      (!BitAt(d.masks[e], g) ==> d' == d) &&
      AliveSet(d') == AliveSet(d)
  {
    var (r', g) := Register(r, k);
    RegisterKeeps(d, r, k);
    var (d', r2) := RemoveChecked(d, r, k, e);
    if BitAt(d.masks[e], g) {
      assert d' == DropComponent(d, g, e);
      DropSpec(d, g, e);
      RegInvKinds(d, d', r');
    } else {
      assert d' == d;
      if g < |d.sets| && d.sets[g].DataSet? {
        assert TableFits(d, g);
        ValueOfOwns(d.sets[g].table, e);
      }
    }
  }

  /** Removing a component the entity carries: it is gone and its bit is clear, the set
      loses one valid slot when it is a data table, and nothing else changes. */
  lemma DropSpec<V>(d: Db<V>, g: nat, e: nat)
    requires DbInv(d) && e < |d.masks| && 1 <= g && BitAt(d.masks[e], g)
    ensures Removable(d, g, e)
    ensures var d' := DropComponent(d, g, e);
      DbInv(d') && SameKinds(d.sets, d'.sets) &&
      !BitAt(d'.masks[e], g) && ComponentOf(d', g, e) == None &&
      Alive(d', e) == Alive(d, e) && OnlyChanged(d, d', g, e) &&
      CountOf(d', g) == (if ComponentOf(d, g, e).Some? then CountOf(d, g) - 1 else CountOf(d, g)) &&
      AliveSet(d') == AliveSet(d)
  {
    DropInv(d, g, e);
    var d' := DropComponent(d, g, e);
    UnsetSemantics(d.masks[e], g);
    assert forall x :: 0 <= x < |d.masks| && x != e ==> d'.masks[x] == d.masks[x];
    if d.sets[g].DataSet? {
      var t := d.sets[g].table;
      assert TableFits(d, g);
      RemovedSpec(t, e);
      ValueOfOwns(Removed(t, e), e);
      ValueOfOwns(t, e);
    }
    assert forall x: nat :: x in AliveSet(d') <==> x in AliveSet(d);
  }

  /** Removing a component the entity carries keeps the invariant and the kind of every set. */
  lemma DropInv<V>(d: Db<V>, g: nat, e: nat)
    requires DbInv(d) && e < |d.masks| && 1 <= g && BitAt(d.masks[e], g)
    ensures Removable(d, g, e) && DbInv(DropComponent(d, g, e)) && SameKinds(d.sets, DropComponent(d, g, e).sets)
  {
    CarriedIsRemovable(d, g, e);
    var d' := DropComponent(d, g, e);
    var m := WithoutBit(d.masks[e], g);
    UnsetSemantics(d.masks[e], g);
    assert Alive(d, e);
    assert forall x :: 0 <= x < |d.masks| && x != e ==> d'.masks[x] == d.masks[x];
    if d.sets[g].DataSet? {
      var t := d.sets[g].table;
      assert TableFits(d, g);
      RemovedSpec(t, e);
      ReplaceOne(d, e, g, m, Removed(t, e));
    } else {
      forall x | 0 <= x < |d'.masks| ensures BitAt(d'.masks[x], 0) <==> x !in d'.free {
      }
      forall x, i | 0 <= x < |d'.masks| && 1 <= i && BitAt(d'.masks[x], i)
        ensures i < |d'.sets| && !d'.sets[i].NoSet?
      {
        assert BitAt(d.masks[x], i);
      }
      forall h | 0 <= h < |d'.sets| && d'.sets[h].DataSet? ensures TableFits(d', h) {
        assert TableFits(d, h);
      }
    }
  }

  /** `has_component<K>(e)` is true exactly when the entity holds a `K`: for a data type, when
      `get_component` has a value for it; it is false for `void`, for a type never added, and
      for a dead entity. The registry keeps its invariant. */
  lemma HasComponentSpec<V>(d: Db<V>, r: Registry, k: TypeKey, e: nat)
    requires DbInv(d) && RegInv(d, r) && e < |d.masks|
    ensures var (r', b) := HasComponent(d, r, k, e); var g := Register(r, k).1;
      RegInv(d, r') && r' == Register(r, k).0 &&
      (k.Named? ==> (b <==> ComponentOf(d, g, e).Some?)) &&
      (k == VoidKey ==> !b) &&
      (k !in r.ids ==> !b) &&
      (!Alive(d, e) ==> !b)
  {
    var (r', g) := Register(r, k);
    RegisterKeeps(d, r, k);
    if BitAt(d.masks[e], g) {
      assert g < |d.sets| && !d.sets[g].NoSet?;
      assert SetFitsKey(d.sets[g], k);
      if k.Named? {
        assert TableFits(d, g);
        ValueOfOwns(d.sets[g].table, e);
      }
    } else if k.Named? && g < |d.sets| && d.sets[g].DataSet? {
      assert TableFits(d, g);
      ValueOfOwns(d.sets[g].table, e);
    }
  }

  /** The value the visitor receives for one parameter: a reference to a component, an
      `optional` of a data type or of a tag, a default-constructed marker (`tag`, `require`,
      `deny`), or the entity id. */
  datatype Arg<V> = Ref(value: V) | OptionalRef(item: Option<V>) | OptionalTag(present: bool) | Marker | Id(eid: nat)

  /** One call of the visitor: the entity, the primary component's id (none without a
      primary) and the arguments in parameter order. */
  datatype Visited<V> = Visited(eid: nat, cid: Option<nat>, args: seq<Arg<V>>)

  /** `guids` holds the registered id of each parameter's component type. */
  ghost predicate GuidsFor(r: Registry, ps: seq<Param>, guids: seq<nat>) {
    |guids| == |ps| &&
    forall i :: 0 <= i < |ps| ==> ComponentKey(ps[i]) in r.ids && guids[i] == r.ids[ComponentKey(ps[i])]
  }

  /** `get_com` for one parameter of entity `e`, `g` being the id of its component type. A
      data parameter refers to the entity's component; the `Marker` alternative there is never
      taken for an entity that passes the check (MatchedHasData). */
  function ArgOf<V>(d: Db<V>, p: Param, g: nat, e: nat): Arg<V>
    requires e < |d.masks|
  {
    match p
    case Data(_) => (match ComponentOf(d, g, e) case Some(v) => Ref(v) case None => Marker)
    case Optional(k) =>
      if k.TagOf? then OptionalTag(BitAt(d.masks[e], g))
      else OptionalRef(if BitAt(d.masks[e], g) then ComponentOf(d, g, e) else None)
    case EntityId => Id(e)
    case _ => Marker
  }

  /** An `optional` argument is present exactly when the entity carries the type's bit: for a
      tag it is that bit, and for a data type it is the entity's component or nothing. */
  lemma OptionalArgSpec<V>(d: Db<V>, r: Registry, k: TypeKey, g: nat, e: nat)
    requires DbInv(d) && RegInv(d, r) && k in r.ids && r.ids[k] == g && k != VoidKey && e < |d.masks|
    ensures var a := ArgOf(d, Optional(k), g, e);
      (k.TagOf? ==> a == OptionalTag(BitAt(d.masks[e], g))) &&
      (k.Named? ==> a.OptionalRef? && (a.item.Some? <==> BitAt(d.masks[e], g)) &&
                    (a.item.Some? ==> a.item == ComponentOf(d, g, e)))
  {
    if k.Named? && BitAt(d.masks[e], g) {
      assert g >= 1;
      assert g < |d.sets| && !d.sets[g].NoSet?;
      assert SetFitsKey(d.sets[g], k);
      assert TableFits(d, g);
      ValueOfOwns(d.sets[g].table, e);
    }
  }

  /** Every data parameter of entity `e` has a component. */
  ghost predicate HasData<V>(d: Db<V>, ps: seq<Param>, guids: seq<nat>, e: nat)
    requires |guids| == |ps|
  {
    forall i :: 0 <= i < |ps| && ps[i].Data? ==> ComponentOf(d, guids[i], e).Some?
  }

  /** The argument list the visitor is applied to. */
  function ArgsOf<V>(d: Db<V>, ps: seq<Param>, guids: seq<nat>, e: nat): (args: seq<Arg<V>>)
    requires |guids| == |ps| && e < |d.masks|
    ensures |args| == |ps| && forall i :: 0 <= i < |ps| ==> args[i] == ArgOf(d, ps[i], guids[i], e)
  {
    seq(|ps|, (i: int) requires 0 <= i < |ps| => ArgOf(d, ps[i], guids[i], e))
  }

  /** The argument list of a non-empty parameter list is the first argument followed by the
      argument list of the rest; the ids and the data of the rest are still in place. */
  lemma ArgsTail<V>(d: Db<V>, r: Registry, ps: seq<Param>, guids: seq<nat>, e: nat)
    requires GuidsFor(r, ps, guids) && ps != [] && e < |d.masks| && HasData(d, ps, guids, e)
    ensures GuidsFor(r, ps[1..], guids[1..]) && HasData(d, ps[1..], guids[1..], e)
    ensures ArgsOf(d, ps, guids, e) == [ArgOf(d, ps[0], guids[0], e)] + ArgsOf(d, ps[1..], guids[1..], e)
  {
    assert forall i :: 0 <= i < |ps| - 1 ==> ps[1..][i] == ps[i + 1] && guids[1..][i] == guids[i + 1];
  }

  /** An entity that passes the check and holds the primary component (if there is one) has a
      component for every data parameter, so every reference argument exists. */
  lemma MatchedHasData<V>(d: Db<V>, r: Registry, ps: seq<Param>, guids: seq<nat>, e: nat)
    requires DbInv(d) && RegInv(d, r) && GuidsFor(r, ps, guids) && e < |d.masks|
    requires Matches(ps, guids, PrimaryKey(ps), d.masks[e])
    requires PrimaryKey(ps) != VoidKey ==> ComponentOf(d, r.ids[PrimaryKey(ps)], e).Some?
    ensures HasData(d, ps, guids, e)
  {
    MatchesAll(ps, guids, PrimaryKey(ps), d.masks[e]);
    forall i | 0 <= i < |ps| && ps[i].Data? ensures ComponentOf(d, guids[i], e).Some? {
      if ComponentKey(ps[i]) != PrimaryKey(ps) {
        assert CheckParam(ps[i], guids[i], PrimaryKey(ps), d.masks[e]);
        var g := guids[i];
        assert BitAt(d.masks[e], g) && g >= 1;
        assert SetFitsKey(d.sets[g], ComponentKey(ps[i]));
        assert TableFits(d, g);
        ValueOfOwns(d.sets[g].table, e);
      }
    }
  }

  /** Every slot owner of table `t` is an entity slot below `m`. */
  ghost predicate OwnersBelow<V>(t: Table<V>, m: nat) {
    forall c :: 0 <= c < |t.comToEnt| && t.comToEnt[c].Some? ==> t.comToEnt[c].value < m
  }

  /** The primary path of `visit_helper`: component ids `0 .. n - 1` of the primary table `g`
      in increasing order; an invalid slot is skipped, and the owner of a valid one is visited
      when it passes the check. */
  function PrimaryScan<V>(d: Db<V>, ps: seq<Param>, guids: seq<nat>, g: nat, n: nat): (hits: seq<Visited<V>>)
    requires |guids| == |ps| && g < |d.sets| && d.sets[g].DataSet?
    requires n <= |d.sets[g].table.comToEnt| && OwnersBelow(d.sets[g].table, |d.masks|)
    ensures forall k :: 0 <= k < |hits| ==> hits[k].cid.Some? && hits[k].cid.value < n
    ensures forall k, l :: 0 <= k < l < |hits| ==> hits[k].cid.value < hits[l].cid.value
    decreases n
  {
    if n == 0 then []
    else
      var rest := PrimaryScan(d, ps, guids, g, n - 1);
      var t := d.sets[g].table;
      var c := n - 1;
      if t.comToEnt[c].Some? && Matches(ps, guids, PrimaryKey(ps), d.masks[t.comToEnt[c].value]) then
        rest + [Visited(t.comToEnt[c].value, Some(c), ArgsOf(d, ps, guids, t.comToEnt[c].value))]
      else rest
  }

  /** The path of `visit_helper` without a primary: entity slots `0 .. n - 1` in increasing
      order; a live entity is visited when it passes the check. */
  function EntityScan<V>(d: Db<V>, ps: seq<Param>, guids: seq<nat>, n: nat): (hits: seq<Visited<V>>)
    requires |guids| == |ps| && n <= |d.masks|
    ensures forall k :: 0 <= k < |hits| ==> hits[k].cid.None? && hits[k].eid < n
    ensures forall k, l :: 0 <= k < l < |hits| ==> hits[k].eid < hits[l].eid
    decreases n
  {
    if n == 0 then []
    else
      var rest := EntityScan(d, ps, guids, n - 1);
      var e := n - 1;
      if BitAt(d.masks[e], 0) && Matches(ps, guids, VoidKey, d.masks[e]) then
        rest + [Visited(e, None, ArgsOf(d, ps, guids, e))]
      else rest
  }

  /** Registering the parameters' types keeps the registry invariant. */
  lemma RegisterAllKeeps<V>(d: Db<V>, r: Registry, ks: seq<TypeKey>)
    requires RegInv(d, r)
    ensures RegInv(d, RegisterAll(r, ks).0)
  {
    var r' := RegisterAll(r, ks).0;
    forall k | k in r'.ids && r'.ids[k] < |d.sets| ensures SetFitsKey(d.sets[r'.ids[k]], k) {
      assert k in r.ids;
    }
  }

  /** The data tables' owners are entity slots. */
  lemma TableOwnersBelow<V>(d: Db<V>, g: nat)
    requires DbInv(d) && g < |d.sets| && d.sets[g].DataSet?
    ensures OwnersBelow(d.sets[g].table, |d.masks|)
  {
    var t := d.sets[g].table;
    assert TableFits(d, g);
    forall c | 0 <= c < |t.comToEnt| && t.comToEnt[c].Some? ensures t.comToEnt[c].value < |d.masks| {
      OwnerOfSlot(t, c);
    }
  }

  /** `visit` with parameter list `ps`: the ids of the parameters' types are registered in
      order; then the primary table, or without a primary the entity table, is scanned. A
      primary type with no table yet visits nothing. */
  function Visit<V>(d: Db<V>, r: Registry, ps: seq<Param>): (Registry, seq<Visited<V>>)
    requires DbInv(d) && RegInv(d, r)
  {
    var (r', guids) := RegisterAll(r, Keys(ps));
    if PrimaryKey(ps) == VoidKey then (r', EntityScan(d, ps, guids, |d.masks|))
    else (r', PrimaryCalls(d, ps, guids, guids[PrimaryIndex(ps).value]))
  }

  /** The primary path for primary type id `g`: the scan of its table up to the high-water
      mark, or nothing when the type has no table. */
  function PrimaryCalls<V>(d: Db<V>, ps: seq<Param>, guids: seq<nat>, g: nat): seq<Visited<V>>
    requires DbInv(d) && |guids| == |ps|
  {
    if g < |d.sets| && d.sets[g].DataSet? then
      TableOwnersBelow(d, g);
      PrimaryScan(d, ps, guids, g, d.sets[g].table.backIndex)
    else []
  }

  /** Each call of the primary scan is for the owner of a valid slot below `n` that passes
      the check, with the owner's arguments; every such slot yields a call. */
  lemma PrimaryScanMembers<V>(d: Db<V>, ps: seq<Param>, guids: seq<nat>, g: nat, n: nat)
    requires |guids| == |ps| && g < |d.sets| && d.sets[g].DataSet?
    requires n <= |d.sets[g].table.comToEnt| && OwnersBelow(d.sets[g].table, |d.masks|)
    ensures var hits := PrimaryScan(d, ps, guids, g, n); var t := d.sets[g].table;
      (forall k :: 0 <= k < |hits| ==>
        t.comToEnt[hits[k].cid.value] == Some(hits[k].eid) && hits[k].eid < |d.masks| &&
        Matches(ps, guids, PrimaryKey(ps), d.masks[hits[k].eid]) &&
        hits[k].args == ArgsOf(d, ps, guids, hits[k].eid)) &&
      (forall c :: 0 <= c < n && t.comToEnt[c].Some? &&
        Matches(ps, guids, PrimaryKey(ps), d.masks[t.comToEnt[c].value])
        ==> exists k :: 0 <= k < |hits| && hits[k].cid == Some(c))
  {
    PrimaryScanSound(d, ps, guids, g, n);
    PrimaryScanComplete(d, ps, guids, g, n);
    var hits := PrimaryScan(d, ps, guids, g, n);
    forall c | 0 <= c < n && d.sets[g].table.comToEnt[c].Some? &&
      Matches(ps, guids, PrimaryKey(ps), d.masks[d.sets[g].table.comToEnt[c].value])
      ensures exists k :: 0 <= k < |hits| && hits[k].cid == Some(c)
    {
      assert SlotCalled(hits, c);
    }
  }

  lemma {:induction false} PrimaryScanSound<V>(d: Db<V>, ps: seq<Param>, guids: seq<nat>, g: nat, n: nat)
    requires |guids| == |ps| && g < |d.sets| && d.sets[g].DataSet?
    requires n <= |d.sets[g].table.comToEnt| && OwnersBelow(d.sets[g].table, |d.masks|)
    ensures forall k :: 0 <= k < |PrimaryScan(d, ps, guids, g, n)| ==>
      var h := PrimaryScan(d, ps, guids, g, n)[k];
      d.sets[g].table.comToEnt[h.cid.value] == Some(h.eid) && h.eid < |d.masks| &&
      Matches(ps, guids, PrimaryKey(ps), d.masks[h.eid]) && h.args == ArgsOf(d, ps, guids, h.eid)
    decreases n
  {
    if n > 0 {
      PrimaryScanSound(d, ps, guids, g, n - 1);
    }
  }

  /** Some call in `hits` is for component slot `c`. */
  ghost predicate SlotCalled<V>(hits: seq<Visited<V>>, c: nat) {
    exists k :: 0 <= k < |hits| && hits[k].cid == Some(c)
  }

  lemma {:induction false} PrimaryScanComplete<V>(d: Db<V>, ps: seq<Param>, guids: seq<nat>, g: nat, n: nat)
    requires |guids| == |ps| && g < |d.sets| && d.sets[g].DataSet?
    requires n <= |d.sets[g].table.comToEnt| && OwnersBelow(d.sets[g].table, |d.masks|)
    ensures forall c: nat ::
      c < n && d.sets[g].table.comToEnt[c].Some? &&
      Matches(ps, guids, PrimaryKey(ps), d.masks[d.sets[g].table.comToEnt[c].value]) ==>
      SlotCalled(PrimaryScan(d, ps, guids, g, n), c)
    decreases n
  {
    if n > 0 {
      PrimaryScanComplete(d, ps, guids, g, n - 1);
      var rest := PrimaryScan(d, ps, guids, g, n - 1);
      var hits := PrimaryScan(d, ps, guids, g, n);
      assert |rest| <= |hits| && forall k :: 0 <= k < |rest| ==> hits[k] == rest[k];
      var t := d.sets[g].table;
      forall c: nat | c < n && t.comToEnt[c].Some? && Matches(ps, guids, PrimaryKey(ps), d.masks[t.comToEnt[c].value])
        ensures SlotCalled(hits, c)
      {
        if c == n - 1 {
          assert hits[|rest|].cid == Some(c);
        } else {
          assert SlotCalled(rest, c);
          var k :| 0 <= k < |rest| && rest[k].cid == Some(c);
          assert hits[k].cid == Some(c);
        }
      }
    }
  }

  /** Each call of the entity scan is for a live entity below `n` that passes the check, with
      its arguments; every such entity yields a call. */
  lemma EntityScanMembers<V>(d: Db<V>, ps: seq<Param>, guids: seq<nat>, n: nat)
    requires |guids| == |ps| && n <= |d.masks|
    ensures var hits := EntityScan(d, ps, guids, n);
      (forall k :: 0 <= k < |hits| ==>
        Alive(d, hits[k].eid) && Matches(ps, guids, VoidKey, d.masks[hits[k].eid]) &&
        hits[k].args == ArgsOf(d, ps, guids, hits[k].eid)) &&
      (forall e :: 0 <= e < n && Alive(d, e) && Matches(ps, guids, VoidKey, d.masks[e]) ==>
        exists k :: 0 <= k < |hits| && hits[k].eid == e)
  {
    EntityScanSound(d, ps, guids, n);
    EntityScanComplete(d, ps, guids, n);
    forall e | 0 <= e < n && Alive(d, e) && Matches(ps, guids, VoidKey, d.masks[e])
      ensures exists k :: 0 <= k < |EntityScan(d, ps, guids, n)| && EntityScan(d, ps, guids, n)[k].eid == e
    {
      assert CallsFor(EntityScan(d, ps, guids, n), e);
    }
  }

  lemma {:induction false} EntityScanSound<V>(d: Db<V>, ps: seq<Param>, guids: seq<nat>, n: nat)
    requires |guids| == |ps| && n <= |d.masks|
    ensures forall k :: 0 <= k < |EntityScan(d, ps, guids, n)| ==>
      var h := EntityScan(d, ps, guids, n)[k];
      Alive(d, h.eid) && Matches(ps, guids, VoidKey, d.masks[h.eid]) && h.args == ArgsOf(d, ps, guids, h.eid)
    decreases n
  {
    if n > 0 {
      EntityScanSound(d, ps, guids, n - 1);
    }
  }

  /** Some call in `hits` is for entity `e`. */
  ghost predicate CallsFor<V>(hits: seq<Visited<V>>, e: nat) {
    exists k :: 0 <= k < |hits| && hits[k].eid == e
  }

  lemma {:induction false} EntityScanComplete<V>(d: Db<V>, ps: seq<Param>, guids: seq<nat>, n: nat)
    requires |guids| == |ps| && n <= |d.masks|
    ensures forall e: nat :: e < n && Alive(d, e) && Matches(ps, guids, VoidKey, d.masks[e]) ==>
      CallsFor(EntityScan(d, ps, guids, n), e)
    decreases n
  {
    if n > 0 {
      EntityScanComplete(d, ps, guids, n - 1);
      var rest := EntityScan(d, ps, guids, n - 1);
      var hits := EntityScan(d, ps, guids, n);
      assert |rest| <= |hits| && forall k :: 0 <= k < |rest| ==> hits[k] == rest[k];
      forall e: nat | e < n && Alive(d, e) && Matches(ps, guids, VoidKey, d.masks[e])
        ensures CallsFor(hits, e)
      {
        if e == n - 1 {
          assert hits[|rest|].eid == e;
        } else {
          assert CallsFor(rest, e);
          var k :| 0 <= k < |rest| && rest[k].eid == e;
          assert hits[k].eid == e;
        }
      }
    }
  }

  /** The calls of a visit are exactly the live entities that satisfy the documented matching
      rule, each once, each with its own arguments, and every data argument exists. */
  ghost predicate VisitsExactly<V>(d: Db<V>, ps: seq<Param>, guids: seq<nat>, hits: seq<Visited<V>>)
    requires |guids| == |ps|
  {
    (forall k :: 0 <= k < |hits| ==>
      Alive(d, hits[k].eid) && SemanticMatch(ps, guids, d.masks[hits[k].eid]) &&
      HasData(d, ps, guids, hits[k].eid) && hits[k].args == ArgsOf(d, ps, guids, hits[k].eid)) &&
    (forall e: nat :: Alive(d, e) && SemanticMatch(ps, guids, d.masks[e]) ==>
      exists k :: 0 <= k < |hits| && hits[k].eid == e) &&
    (forall k, l :: 0 <= k < l < |hits| ==> hits[k].eid != hits[l].eid)
  }

  /** The primary path when the primary table exists. */
  lemma VisitPrimaryTable<V>(d: Db<V>, r: Registry, ps: seq<Param>, guids: seq<nat>, g: nat)
    requires DbInv(d) && RegInv(d, r) && GuidsFor(r, ps, guids) && PrimaryKey(ps) != VoidKey
    requires g == r.ids[PrimaryKey(ps)] && g < |d.sets| && d.sets[g].DataSet?
    requires OwnersBelow(d.sets[g].table, |d.masks|)
    ensures VisitsExactly(d, ps, guids, PrimaryScan(d, ps, guids, g, d.sets[g].table.backIndex))
    ensures var hits := PrimaryScan(d, ps, guids, g, d.sets[g].table.backIndex);
      forall k :: 0 <= k < |hits| ==> hits[k].cid == Some(d.sets[g].table.entToCom[hits[k].eid])
  {
    var t := d.sets[g].table;
    var hits := PrimaryScan(d, ps, guids, g, t.backIndex);
    PrimaryScanMembers(d, ps, guids, g, t.backIndex);
    PrimaryHitsSound(d, r, ps, guids, g);
    PrimaryHitsComplete(d, r, ps, guids, g);
    forall k, l | 0 <= k < l < |hits| ensures hits[k].eid != hits[l].eid {
      assert hits[k].cid.value < hits[l].cid.value;
    }
  }

  /** Every call of the primary path is for a live entity that matches by the documented rule
      and holds every data parameter's component; its id is the entity's slot. */
  lemma PrimaryHitsSound<V>(d: Db<V>, r: Registry, ps: seq<Param>, guids: seq<nat>, g: nat)
    requires DbInv(d) && RegInv(d, r) && GuidsFor(r, ps, guids) && PrimaryKey(ps) != VoidKey
    requires g == r.ids[PrimaryKey(ps)] && g < |d.sets| && d.sets[g].DataSet?
    requires OwnersBelow(d.sets[g].table, |d.masks|)
    ensures var hits := PrimaryScan(d, ps, guids, g, d.sets[g].table.backIndex);
      forall k :: 0 <= k < |hits| ==>
        Alive(d, hits[k].eid) && SemanticMatch(ps, guids, d.masks[hits[k].eid]) &&
        HasData(d, ps, guids, hits[k].eid) &&
        hits[k].cid == Some(d.sets[g].table.entToCom[hits[k].eid])
  {
    var t := d.sets[g].table;
    var hits := PrimaryScan(d, ps, guids, g, t.backIndex);
    assert TableFits(d, g);
    assert g >= 1;
    PrimaryScanMembers(d, ps, guids, g, t.backIndex);
    forall k | 0 <= k < |hits|
      ensures Alive(d, hits[k].eid) && SemanticMatch(ps, guids, d.masks[hits[k].eid])
      ensures HasData(d, ps, guids, hits[k].eid)
      ensures hits[k].cid == Some(t.entToCom[hits[k].eid])
    {
      var e, c := hits[k].eid, hits[k].cid.value;
      OwnerOfSlot(t, c);
      assert BitAt(d.masks[e], g);
      assert BitAt(d.masks[e], 0);
      PrimaryMatchIsSemantic(ps, guids, d.masks[e]);
      ValueOfOwns(t, e);
      MatchedHasData(d, r, ps, guids, e);
    }
  }

  /** Every live entity that matches by the documented rule gets a call on the primary path. */
  lemma PrimaryHitsComplete<V>(d: Db<V>, r: Registry, ps: seq<Param>, guids: seq<nat>, g: nat)
    requires DbInv(d) && GuidsFor(r, ps, guids) && PrimaryKey(ps) != VoidKey
    requires g == r.ids[PrimaryKey(ps)] && g < |d.sets| && d.sets[g].DataSet?
    requires OwnersBelow(d.sets[g].table, |d.masks|)
    ensures var hits := PrimaryScan(d, ps, guids, g, d.sets[g].table.backIndex);
      forall e: nat :: Alive(d, e) && SemanticMatch(ps, guids, d.masks[e]) ==>
        exists k :: 0 <= k < |hits| && hits[k].eid == e
  {
    var t := d.sets[g].table;
    var hits := PrimaryScan(d, ps, guids, g, t.backIndex);
    assert TableFits(d, g);
    PrimaryScanMembers(d, ps, guids, g, t.backIndex);
    forall e: nat | Alive(d, e) && SemanticMatch(ps, guids, d.masks[e])
      ensures exists k :: 0 <= k < |hits| && hits[k].eid == e
    {
      var pi := PrimaryIndex(ps).value;
      assert Demands(ps[pi]) && guids[pi] == g;
      assert Owns(t, e);
      var c := t.entToCom[e];
      assert t.comToEnt[c] == Some(e);
      PrimaryMatchIsSemantic(ps, guids, d.masks[e]);
      var k :| 0 <= k < |hits| && hits[k].cid == Some(c);
      assert hits[k].eid == e;
    }
  }

  /** The primary path when the primary type has no table: no entity carries its bit. */
  lemma VisitPrimaryNoTable<V>(d: Db<V>, r: Registry, ps: seq<Param>, guids: seq<nat>, g: nat)
    requires DbInv(d) && RegInv(d, r) && GuidsFor(r, ps, guids) && PrimaryKey(ps) != VoidKey
    requires g == r.ids[PrimaryKey(ps)] && !(g < |d.sets| && d.sets[g].DataSet?)
    ensures VisitsExactly(d, ps, guids, [])
  {
    var pi := PrimaryIndex(ps).value;
    PrimaryIsData(ps);
    assert guids[pi] == g && Demands(ps[pi]) && g >= 1;
    forall e: nat | Alive(d, e) ensures !SemanticMatch(ps, guids, d.masks[e]) {
      if g < |d.sets| {
        assert SetFitsKey(d.sets[g], PrimaryKey(ps));
      }
      assert !BitAt(d.masks[e], g);
    }
  }

  /** The path without a primary: the entity scan over every slot. */
  lemma VisitVoid<V>(d: Db<V>, r: Registry, ps: seq<Param>, guids: seq<nat>)
    requires DbInv(d) && RegInv(d, r) && GuidsFor(r, ps, guids) && PrimaryKey(ps) == VoidKey
    requires WellFormed(ps)
    ensures VisitsExactly(d, ps, guids, EntityScan(d, ps, guids, |d.masks|))
  {
    var hits := EntityScan(d, ps, guids, |d.masks|);
    EntityScanMembers(d, ps, guids, |d.masks|);
    forall k | 0 <= k < |hits|
      ensures SemanticMatch(ps, guids, d.masks[hits[k].eid]) && HasData(d, ps, guids, hits[k].eid)
    {
      VoidMatchIsSemantic(ps, guids, d.masks[hits[k].eid]);
      MatchedHasData(d, r, ps, guids, hits[k].eid);
    }
    forall e: nat | Alive(d, e) && SemanticMatch(ps, guids, d.masks[e])
      ensures exists k :: 0 <= k < |hits| && hits[k].eid == e
    {
      VoidMatchIsSemantic(ps, guids, d.masks[e]);
    }
  }

  /** `visit`: the parameters' types are registered in order and the registry invariant is
      kept; the visitor is called exactly for the live entities that satisfy the documented
      rule, once each. Through the primary table the calls come in component-id order, and
      through the entity table in entity order. */
  lemma VisitSpec<V>(d: Db<V>, r: Registry, ps: seq<Param>)
    requires DbInv(d) && RegInv(d, r) && WellFormed(ps)
    ensures var (r', hits) := Visit(d, r, ps); var guids := RegisterAll(r, Keys(ps)).1;
      r' == RegisterAll(r, Keys(ps)).0 && RegInv(d, r') && GuidsFor(r', ps, guids) &&
      VisitsExactly(d, ps, guids, hits) &&
      (PrimaryKey(ps) == VoidKey ==> forall k, l :: 0 <= k < l < |hits| ==> hits[k].eid < hits[l].eid) &&
      (PrimaryKey(ps) != VoidKey ==>
        (forall k :: 0 <= k < |hits| ==> hits[k].cid.Some?) &&
        (forall k, l :: 0 <= k < l < |hits| ==> hits[k].cid.value < hits[l].cid.value))
  {
    var (r', guids) := RegisterAll(r, Keys(ps));
    RegisterAllKeeps(d, r, Keys(ps));
    assert GuidsFor(r', ps, guids);
    if PrimaryKey(ps) == VoidKey {
      VisitVoid(d, r', ps, guids);
    } else {
      var g := guids[PrimaryIndex(ps).value];
      if g < |d.sets| && d.sets[g].DataSet? {
        TableOwnersBelow(d, g);
        VisitPrimaryTable(d, r', ps, guids, g);
      } else {
        VisitPrimaryNoTable(d, r', ps, guids, g);
      }
    }
  }
}
