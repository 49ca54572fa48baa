/** The `database` class: the entity table, the free stack and one component set per type id,
    all updated in place. Each method is proved against the function of the same operation on
    the value model of `EntityStore`, whose lemmas state what the operations promise. */
module Ginseng {
  import opened Wrappers
  import opened TypeGuid
  import opened Bitsets
  import opened ComponentSets
  import opened Dispatch
  import opened EntityStore

  /** An entry of `component_sets`: a null pointer, the table of a tag type (which stores
      nothing), or the table of a data type. */
  datatype SetRef<V> = NullSet | TagTable | DataTable(table: ComponentSet<V>)

  /** The value an entry of `component_sets` stands for. */
  ghost function ViewOf<V>(s: SetRef<V>): SetView<V>
    reads if s.DataTable? then {s.table} else {}
  {
    match s
    case NullSet => NoSet
    case TagTable => TagSet
    case DataTable(t) => DataSet(t.View())
  }

  /** The vector of sets grown to hold index `g`, the new entries null. */
  function Grown<V>(cs: seq<SetRef<V>>, g: nat): (r: seq<SetRef<V>>)
    ensures |r| == if |cs| <= g then g + 1 else |cs|
    ensures forall h :: 0 <= h < |r| ==> r[h] == if h < |cs| then cs[h] else NullSet
  {
    if |cs| <= g then cs + seq(g + 1 - |cs|, _ => NullSet) else cs
  }

  class Database<V> {
    /** The registry of type ids, which the source keeps process-wide. */
    const registry: TypeRegistry
    /** `entities`: the component mask of every entity slot, held by value. */
    var entities: seq<seq<bool>>
    /** `free_entities`: the dead slots, the most recently freed last. */
    var freeEntities: seq<nat>
    /** `component_sets`, indexed by type id. */
    var componentSets: seq<SetRef<V>>

    /** The data tables the database owns: a ghost superset of the tables in `componentSets`,
        which the frames of its methods and functions name. */
    ghost var tables: set<ComponentSet<V>>

    /** Every type id owns its own table. */
    ghost predicate TablesDistinct()
      reads this`componentSets
    {
      forall g, h ::
        0 <= g < |componentSets| && 0 <= h < |componentSets| && g != h &&
        componentSets[g].DataTable? && componentSets[h].DataTable?
        ==> componentSets[g].table != componentSets[h].table
    }

    /** The database as a value. */
    ghost var model: Db<V>

    /** The fields and the tables hold what the model says. */
    ghost predicate Coupled()
      reads this, tables
    {
      (forall g :: 0 <= g < |componentSets| && componentSets[g].DataTable? ==> componentSets[g].table in tables) &&
      entities == model.masks && freeEntities == model.free && |componentSets| == |model.sets| &&
      forall g :: 0 <= g < |componentSets| ==> ViewOf(componentSets[g]) == model.sets[g]
    }

    /** The database's own invariant: distinct tables that agree with a consistent model. */
    ghost predicate Intact()
      reads this, tables
    {
      TablesDistinct() && Coupled() && DbInv(model)
    }

    /** The registry is consistent and agrees with the model's sets. */
    ghost predicate Registered()
      reads this`model, registry
    {
      registry.Valid() && RegInv(model, registry.View())
    }

    ghost predicate Valid()
      reads this, registry, tables
    {
      Intact() && Registered()
    }

    constructor (reg: TypeRegistry)
      requires reg.Valid()
      ensures Valid() && registry == reg && model == EmptyDb()
    {
      registry := reg;
      entities, freeEntities, componentSets := [], [], [];
      model, tables := EmptyDb(), {};
    }

    /** The fields and tables agree with a consistent model that agrees with the registry. */
    lemma Recoupled()
      requires TablesDistinct()
      requires forall g :: 0 <= g < |componentSets| && componentSets[g].DataTable? ==> componentSets[g].table in tables
      requires entities == model.masks && freeEntities == model.free && |componentSets| == |model.sets|
      requires forall g :: 0 <= g < |componentSets| ==> ViewOf(componentSets[g]) == model.sets[g]
      requires DbInv(model) && registry.Valid() && RegInv(model, registry.View())
      ensures Valid()
    {
    }

    /** The table at a data id is valid and is what the value model holds there. */
    lemma TableAt(g: nat)
      requires Valid() && g < |componentSets| && componentSets[g].DataTable?
      ensures componentSets[g].table.Valid() && model.sets[g] == DataSet(componentSets[g].table.View())
      ensures componentSets[g].table in tables
    {
      assert TableFits(model, g);
    }

    /** `create_entity`. */
    method CreateEntity() returns (e: nat)
      requires Valid()
      modifies this`entities, this`freeEntities, this`model
      ensures Valid() && (model, e) == Create(old(model))
    {
      ghost var d := model;
      CreateSpec(d);
      if freeEntities == [] {
        e := |entities|;
        entities := entities + [Fresh()];
      } else {
        e := freeEntities[|freeEntities| - 1];
        freeEntities := freeEntities[..|freeEntities| - 1];
      }
      entities := entities[e := WithBit(entities[e], 0)];
      model := Create(d).0;
    }

    /** `destroy_entity`: the entity leaves every set, then the mask is cleared and the slot
        pushed. */
    method DestroyEntity(e: nat)
      requires Valid() && Alive(model, e)
      modifies this`entities, this`freeEntities, this`model, tables
      ensures Valid() && model == Destroy(old(model), e)
    {
      ghost var d, r := model, registry.View();
      DestroySpec(d, e);
      RegInvKinds(d, Destroy(d, e), r);
      LeaveSets(e);
      entities := entities[e := Cleared(entities[e])];
      freeEntities := freeEntities + [e];
      model := Destroy(d, e);
    }

    /** The loop of `destroy_entity`: for every bit `i >= 1` below the mask's size that is set,
        the set of id `i` removes the entity. Afterwards every table holds what the value model
        of the destroyed state says. */
    method LeaveSets(e: nat)
      requires Valid() && Alive(model, e)
      modifies tables
      ensures forall g :: 0 <= g < |componentSets| ==> ViewOf(componentSets[g]) == Destroy(model, e).sets[g]
    {
      ghost var d' := Destroy(model, e);
      var i := 1;
      while i < |entities[e]|
        invariant 1 <= i <= |entities[e]|
        invariant TablesDistinct()
        invariant forall g :: 0 <= g < |componentSets| ==>
          ViewOf(componentSets[g]) == if g < i then d'.sets[g] else model.sets[g]
      {
        if BitAt(entities[e], i) {
          if componentSets[i].DataTable? {
            assert TableFits(model, i);
          }
          RemoveAt(i, e);
        }
        i := i + 1;
      }
    }

    /** `get_or_create_com_set<K>` for a registered type: the vector grows to the type's id and
        a null entry gets a fresh table of the type's kind. */
    method GetOrCreateComSet(k: TypeKey)
      requires Valid() && k in registry.ids && k != VoidKey
      modifies this`componentSets, this`model, this`tables
      ensures Valid()
      ensures model == old(model).(sets := EnsureSet(old(model).sets, registry.ids[k], k))
      ensures forall t :: t in tables ==> t in old(tables) || fresh(t)
    {
      var g := registry.ids[k];
      if g < |componentSets| && !componentSets[g].NullSet? {
        assert EnsureSet(model.sets, g, k) == model.sets;
      } else if k.TagOf? {
        InstallTag(k, g);
      } else {
        InstallData(k, g);
      }
    }

    /** The null (or missing) entry of a registered tag type becomes a tag table. */
    method InstallTag(k: TypeKey, g: nat)
      requires Valid() && k in registry.ids && k.TagOf? && g == registry.ids[k]
      requires g < |componentSets| ==> componentSets[g].NullSet?
      modifies this`componentSets, this`model, this`tables
      ensures Valid()
      ensures model == old(model).(sets := EnsureSet(old(model).sets, g, k))
      ensures tables == old(tables)
    {
      ghost var d := model;
      EnsureSetSpec(d, registry.View(), k);
      model := d.(sets := EnsureSet(d.sets, g, k));
      SetEntry(g, TagTable);
      Recoupled();
    }

    /** The null (or missing) entry of a registered data type gets a fresh, empty table. */
    method InstallData(k: TypeKey, g: nat)
      requires Valid() && k in registry.ids && k.Named? && g == registry.ids[k]
      requires g < |componentSets| ==> componentSets[g].NullSet?
      modifies this`componentSets, this`model, this`tables
      ensures Valid()
      ensures model == old(model).(sets := EnsureSet(old(model).sets, g, k))
      ensures forall t :: t in tables ==> t in old(tables) || fresh(t)
    {
      ghost var d := model;
      EnsureSetSpec(d, registry.View(), k);
      var t := new ComponentSet<V>();
      model := d.(sets := EnsureSet(d.sets, g, k));
      SetEntry(g, DataTable(t));
      Recoupled();
    }

    /** Stores `s` at the null (or missing) entry `g`, growing the vector with null entries:
        no other entry changes, and the tables stay distinct. */
    method SetEntry(g: nat, s: SetRef<V>)
      requires TablesDistinct()
      requires forall h :: 0 <= h < |componentSets| && componentSets[h].DataTable? ==> componentSets[h].table in tables
      requires g < |componentSets| ==> componentSets[g].NullSet?
      requires s.DataTable? ==> s.table !in tables && s.table.Valid() && s.table.View() == Empty()
      modifies this`componentSets, this`tables
      ensures TablesDistinct()
      ensures forall h :: 0 <= h < |componentSets| && componentSets[h].DataTable? ==> componentSets[h].table in tables
      ensures tables == old(tables) + if s.DataTable? then {s.table} else {}
      ensures componentSets == Grown(old(componentSets), g)[g := s]
      ensures ViewOf(componentSets[g]) == if s.DataTable? then DataSet(Empty()) else ViewOf(s)
      ensures forall h :: 0 <= h < |componentSets| && h != g ==>
        ViewOf(componentSets[h]) == if h < |old(componentSets)| then old(ViewOf(componentSets[h])) else NoSet
    {
      componentSets := Grown(componentSets, g)[g := s];
      if s.DataTable? {
        tables := tables + {s.table};
      }
    }

    /** `add_component(e, v)` for the data type `n`. */
    method AddComponent(e: nat, n: string, v: V) returns (cid: nat)
      requires Valid() && Alive(model, e)
      modifies this`entities, this`componentSets, this`model, this`tables, registry, tables
      ensures Valid()
      ensures (model, registry.View(), cid) == AddData(old(model), old(registry.View()), n, e, v)
    {
      var g := Guid(Named(n));
      GetOrCreateComSet(Named(n));
      cid := PutAt(g, e, v);
    }

    /** The table and mask step of `add_component`, once the data table of id `g` exists. */
    method PutAt(g: nat, e: nat, v: V) returns (cid: nat)
      requires Valid() && Alive(model, e) && 1 <= g < |componentSets| && componentSets[g].DataTable?
      modifies this`entities, this`model, tables
      ensures Valid() && (model, cid) == PutData(old(model), g, e, v)
    {
      if g < |entities[e]| && BitAt(entities[e], g) {
        cid := OverwriteEntry(g, e, v);
      } else {
        cid := AssignEntry(g, e, v);
      }
    }

    /** `get_com(get_comid(e)) = v` for an entity that has the component. */
    method OverwriteEntry(g: nat, e: nat, v: V) returns (cid: nat)
      requires Valid() && Alive(model, e) && 1 <= g < |componentSets| && componentSets[g].DataTable?
      requires BitAt(entities[e], g)
      modifies this`model, tables
      ensures Valid() && (model, cid) == PutData(old(model), g, e, v)
    {
      ghost var d, r := model, registry.View();
      PutDataInv(d, g, e, v);
      RegInvKinds(d, PutData(d, g, e, v).0, r);
      TableAt(g);
      assert TableFits(d, g);
      ghost var t := d.sets[g].table;
      assert PutData(d, g, e, v) ==
        (d.(sets := d.sets[g := DataSet(Overwritten(t, t.entToCom[e], v))]), t.entToCom[e]);
      cid := componentSets[g].table.GetComid(e);
      model := PutData(d, g, e, v).0;
      OverwriteAt(g, cid, v);
      Recoupled();
    }

    /** `assign(e, v)` and the bit, for an entity that lacks the component. */
    method AssignEntry(g: nat, e: nat, v: V) returns (cid: nat)
      requires Valid() && Alive(model, e) && 1 <= g < |componentSets| && componentSets[g].DataTable?
      requires !BitAt(entities[e], g)
      modifies this`entities, this`model, tables
      ensures Valid() && (model, cid) == PutData(old(model), g, e, v)
    {
      ghost var d, r := model, registry.View();
      PutDataInv(d, g, e, v);
      RegInvKinds(d, PutData(d, g, e, v).0, r);
      TableAt(g);
      assert TableFits(d, g);
      ghost var t := d.sets[g].table;
      assert PutData(d, g, e, v) ==
        (Db(d.masks[e := WithBit(d.masks[e], g)], d.free, d.sets[g := DataSet(Assigned(t, e, v).0)]),
         Assigned(t, e, v).1);
      entities := entities[e := WithBit(entities[e], g)];
      model := PutData(d, g, e, v).0;
      cid := AssignAt(g, e, v);
      Recoupled();
    }

    /** `add_component(e, tag<n>)`. */
    method AddTag(e: nat, n: string)
      requires Valid() && Alive(model, e)
      modifies this`entities, this`componentSets, this`model, this`tables, registry
      ensures Valid()
      ensures (model, registry.View()) == EntityStore.AddTag(old(model), old(registry.View()), n, e)
    {
      var g := Guid(TagOf(n));
      EnsureSetSpec(model, registry.View(), TagOf(n));
      GetOrCreateComSet(TagOf(n));
      TagAt(g, e);
    }

    /** The mask step of `add_component` for a tag, once the tag's set exists. */
    method TagAt(g: nat, e: nat)
      requires Valid() && Alive(model, e) && 1 <= g < |model.sets| && model.sets[g] == TagSet
      modifies this`entities, this`model
      ensures Valid() && model == MarkTag(old(model), g, e)
    {
      ghost var d := model;
      MarkTagSpec(d, g, e);
      entities := entities[e := WithBit(entities[e], g)];
      model := MarkTag(d, g, e);
    }

    /** `remove_component<K>(e)`, guarded by the entity's bit (see `StaleRemove` for what the
        unguarded removal does to another entity). */
    method RemoveComponent(k: TypeKey, e: nat)
      requires Valid() && e < |entities|
      modifies this`entities, this`model, registry, tables
      ensures Valid()
      ensures (model, registry.View()) == RemoveChecked(old(model), old(registry.View()), k, e)
    {
      var g := Guid(k);
      if BitAt(entities[e], g) {
        DropAt(g, e);
      }
    }

    /** The removal step of `remove_component` for an entity carrying bit `g`. */
    method DropAt(g: nat, e: nat)
      requires Valid() && e < |entities| && 1 <= g && BitAt(entities[e], g)
      modifies this`entities, this`model, tables
      ensures Valid() && Removable(old(model), g, e) && model == DropComponent(old(model), g, e)
    {
      ghost var d, r := model, registry.View();
      DropInv(d, g, e);
      RegInvKinds(d, DropComponent(d, g, e), r);
      if componentSets[g].DataTable? {
        TableAt(g);
      }
      assert DropComponent(d, g, e) == Db(d.masks[e := WithoutBit(d.masks[e], g)], d.free,
        if d.sets[g].DataSet? then d.sets[g := DataSet(Removed(d.sets[g].table, e))] else d.sets);
      entities := entities[e := WithoutBit(entities[e], g)];
      model := DropComponent(d, g, e);
      RemoveAt(g, e);
      Recoupled();
    }

    /** `get_type_guid<K>()` as the database's members call it: registering a type keeps the
        database's invariant. */
    method Guid(k: TypeKey) returns (g: nat)
      requires Valid()
      modifies registry
      ensures Valid() && (registry.View(), g) == Register(old(registry.View()), k)
    {
      ghost var r := registry.View();
      g := registry.GuidOf(k);
      RegisterKeeps(model, r, k);
    }

    /** `component_sets[g]->remove(e)`: the virtual `remove`, which does nothing on a tag
        table. No other entry changes. */
    method RemoveAt(g: nat, e: nat)
      requires TablesDistinct() && g < |componentSets|
      requires componentSets[g].DataTable? ==>
        componentSets[g].table.Valid() && Owns(componentSets[g].table.View(), e)
      modifies if componentSets[g].DataTable? then {componentSets[g].table} else {}
      ensures componentSets[g].DataTable? ==>
        componentSets[g].table.Valid() &&
        componentSets[g].table.View() == Removed(old(componentSets[g].table.View()), e)
      ensures forall h :: 0 <= h < |componentSets| && h != g ==>
        ViewOf(componentSets[h]) == old(ViewOf(componentSets[h]))
    {
      match componentSets[g] {
        case DataTable(t) => t.Remove(e);
        case TagTable =>
        case NullSet =>
      }
    }

    /** `com_set.assign(e, v)` on the data table of id `g`. No other entry changes. */
    method AssignAt(g: nat, e: nat, v: V) returns (cid: nat)
      requires TablesDistinct() && g < |componentSets| && componentSets[g].DataTable?
      requires componentSets[g].table.Valid() && !Owns(componentSets[g].table.View(), e)
      modifies componentSets[g].table
      ensures componentSets[g].table.Valid()
      ensures (componentSets[g].table.View(), cid) == Assigned(old(componentSets[g].table.View()), e, v)
      ensures forall h :: 0 <= h < |componentSets| && h != g ==>
        ViewOf(componentSets[h]) == old(ViewOf(componentSets[h]))
    {
      cid := componentSets[g].table.Assign(e, v);
    }

    /** `com_set.get_com(c) = v` on the data table of id `g`. No other entry changes. */
    method OverwriteAt(g: nat, c: nat, v: V)
      requires TablesDistinct() && g < |componentSets| && componentSets[g].DataTable?
      requires componentSets[g].table.Valid() && c < |componentSets[g].table.comToEnt|
      requires componentSets[g].table.IsValid(c)
      modifies componentSets[g].table
      ensures componentSets[g].table.Valid()
      ensures componentSets[g].table.View() == Overwritten(old(componentSets[g].table.View()), c, v)
      ensures forall h :: 0 <= h < |componentSets| && h != g ==>
        ViewOf(componentSets[h]) == old(ViewOf(componentSets[h]))
    {
      componentSets[g].table.Overwrite(c, v);
    }

    /** `has_component<K>(e)`. */
    method HasComponent(k: TypeKey, e: nat) returns (b: bool)
      requires Valid() && e < |entities|
      modifies registry
      ensures Valid()
      ensures (registry.View(), b) == EntityStore.HasComponent(old(model), old(registry.View()), k, e)
    {
      var g := Guid(k);
      b := BitAt(entities[e], g);
    }

    /** `get_component<Com>(eid, guid)`: the component of `e` in the table of id `g`. */
    function Lookup(g: nat, e: nat): (v: V)
      reads this, registry, tables
      requires Valid() && ComponentOf(model, g, e).Some?
      ensures ComponentOf(model, g, e) == Some(v)
    {
      TableAt(g);
      ValueOfOwns(model.sets[g].table, e);
      var t := componentSets[g].table;
      t.GetCom(t.GetComid(e))
    }

    /** `get_component<n>(e)` for a registered data type. */
    function GetComponent(n: string, e: nat): (v: V)
      reads this, registry, tables
      requires Valid() && Named(n) in registry.ids && ComponentOf(model, registry.ids[Named(n)], e).Some?
      ensures ComponentOf(model, registry.ids[Named(n)], e) == Some(v)
    {
      Lookup(registry.ids[Named(n)], e)
    }

    /** `get_component_by_id<n>(c)` for a valid slot of a registered data type: the component
        of the slot's owner. */
    function GetComponentById(n: string, c: nat): (v: V)
      reads this, registry, tables
      requires Valid() && Named(n) in registry.ids && ValidCid(model, registry.ids[Named(n)], c)
      ensures var t := model.sets[registry.ids[Named(n)]].table;
        ComponentOf(model, registry.ids[Named(n)], t.comToEnt[c].value) == Some(v)
    {
      var g := registry.ids[Named(n)];
      TableAt(g);
      var t := componentSets[g].table;
      OwnerOfSlot(t.View(), c);
      ValueOfOwns(t.View(), t.comToEnt[c].value);
      t.GetCom(c)
    }

    /** `size()`: the number of live entities. */
    function Size(): (n: int)
      reads this, registry, tables
      requires Valid()
      ensures n == |AliveSet(model)|
    {
      SizeIsAlive(model);
      |entities| - |freeEntities|
    }

    /** `get_com` for one parameter of entity `e`. A data parameter is read through
        `get_comid` and `get_com`; for the primary type the source reads the slot
        `primary_cid` instead (`get_component_by_id`), which is the same slot, since the scan
        passes each entity's own slot (`VisitPrimaryTable`). */
    function ArgFor(p: Param, g: nat, e: nat): (a: Arg<V>)
      reads this, registry, tables
      requires Valid() && e < |entities|
      requires p.Data? ==> ComponentOf(model, g, e).Some?
      requires p.Optional? && !p.of.TagOf? && BitAt(entities[e], g) ==>
        g < |componentSets| && componentSets[g].DataTable?
      ensures a == ArgOf(model, p, g, e)
    {
      match p
      case Data(_) => Ref(Lookup(g, e))
      case Optional(k) =>
        if k.TagOf? then OptionalTag(BitAt(entities[e], g))
        else if BitAt(entities[e], g) then
          TableAt(g);
          ValueOfOwns(model.sets[g].table, e);
          OptionalRef(Some(Lookup(g, e)))
        else OptionalRef(None)
      case EntityId => Id(e)
      case _ => Marker
    }

    /** The visitor's arguments for entity `e`, one per parameter in order. */
    function ArgsFor(ps: seq<Param>, guids: seq<nat>, e: nat): (args: seq<Arg<V>>)
      reads this, registry, tables
      requires Valid() && e < |entities| && GuidsFor(registry.View(), ps, guids)
      requires HasData(model, ps, guids, e)
      ensures args == ArgsOf(model, ps, guids, e)
      decreases |ps|
    {
      if ps == [] then []
      else
        OptionalArgExists(ps[0], guids[0], e);
        ArgsTail(model, registry.View(), ps, guids, e);
        [ArgFor(ps[0], guids[0], e)] + ArgsFor(ps[1..], guids[1..], e)
    }

    /** The table an `optional` of a data type reads exists when the entity carries its bit. */
    lemma OptionalArgExists(p: Param, g: nat, e: nat)
      requires Valid() && e < |entities|
      requires ComponentKey(p) in registry.ids && registry.ids[ComponentKey(p)] == g
      ensures p.Optional? && !p.of.TagOf? && BitAt(entities[e], g) ==>
        g < |componentSets| && componentSets[g].DataTable?
    {
      if p.Optional? && BitAt(entities[e], g) {
        assert g >= 1;
        assert g < |model.sets| && !model.sets[g].NoSet?;
        assert SetFitsKey(model.sets[g], p.of);
      }
    }

    /** `visit`: registers the parameters' types (the visitor key's ids), then calls the
        visitor for every matching entity through the primary table or, without a primary,
        through the entity table. */
    method Visit(ps: seq<Param>) returns (calls: seq<Visited<V>>)
      requires Valid()
      modifies registry
      ensures Valid()
      ensures (registry.View(), calls) == EntityStore.Visit(old(model), old(registry.View()), ps)
    {
      var guids := Guids(ps);
      var pi := PrimaryIndex(ps);
      if pi.None? {
        calls := VisitEntities(ps, guids);
      } else {
        calls := VisitPrimary(ps, guids, guids[pi.value]);
      }
    }

    /** The visitor key's ids, `{get_type_guid<com_t<Coms>>()...}`: registering the parameters'
        types keeps the database's invariant. */
    method Guids(ps: seq<Param>) returns (guids: seq<nat>)
      requires Valid()
      modifies registry
      ensures Valid() && (registry.View(), guids) == RegisterAll(old(registry.View()), Keys(ps))
      ensures GuidsFor(registry.View(), ps, guids)
    {
      ghost var r := registry.View();
      guids := registry.GuidsOf(Keys(ps));
      RegisterAllKeeps(model, r, Keys(ps));
    }

    /** `visit_helper(visitor, primary<Component>)`: when the primary type has a table, every
        component id below the table's `size()`, read once before the scan, in increasing
        order; the owner of a valid slot is visited when it passes the check. */
    method VisitPrimary(ps: seq<Param>, guids: seq<nat>, g: nat) returns (calls: seq<Visited<V>>)
      requires Valid() && GuidsFor(registry.View(), ps, guids) && PrimaryKey(ps) != VoidKey
      requires g == registry.ids[PrimaryKey(ps)]
      ensures calls == PrimaryCalls(model, ps, guids, g)
    {
      calls := [];
      if g < |componentSets| && componentSets[g].DataTable? {
        TableAt(g);
        TableOwnersBelow(model, g);
        assert TableFits(model, g);
        calls := ScanPrimary(ps, guids, g);
      }
    }

    /** The loop of the primary path over the existing table of id `g`. */
    method ScanPrimary(ps: seq<Param>, guids: seq<nat>, g: nat) returns (calls: seq<Visited<V>>)
      requires Valid() && GuidsFor(registry.View(), ps, guids) && PrimaryKey(ps) != VoidKey
      requires g == registry.ids[PrimaryKey(ps)] && g < |componentSets| && componentSets[g].DataTable?
      requires g < |model.sets| && model.sets[g].DataSet? && OwnersBelow(model.sets[g].table, |model.masks|)
      requires model.sets[g].table.backIndex <= |model.sets[g].table.comToEnt|
      ensures calls == PrimaryScan(model, ps, guids, g, model.sets[g].table.backIndex)
    {
      var t := componentSets[g].table;
      TableAt(g);
      var sz := t.Size();
      calls := [];
      var cid := 0;
      while cid < sz
        invariant cid <= sz && calls == PrimaryScan(model, ps, guids, g, cid)
      {
        var hit := VisitSlot(ps, guids, g, cid);
        calls := calls + hit;
        cid := cid + 1;
      }
    }

    /** One step of the primary path: slot `cid` of the primary table. */
    method VisitSlot(ps: seq<Param>, guids: seq<nat>, g: nat, cid: nat) returns (hit: seq<Visited<V>>)
      requires Valid() && GuidsFor(registry.View(), ps, guids) && PrimaryKey(ps) != VoidKey
      requires g == registry.ids[PrimaryKey(ps)] && g < |componentSets| && componentSets[g].DataTable?
      requires g < |model.sets| && model.sets[g].DataSet? && OwnersBelow(model.sets[g].table, |model.masks|)
      requires cid < |model.sets[g].table.comToEnt|
      ensures PrimaryScan(model, ps, guids, g, cid + 1) == PrimaryScan(model, ps, guids, g, cid) + hit
    {
      var t := componentSets[g].table;
      TableAt(g);
      hit := [];
      if t.IsValid(cid) {
        var e := t.GetEntid(cid).value;
        if Matches(ps, guids, PrimaryKey(ps), entities[e]) {
          ValueOfOwns(t.View(), e);
          MatchedHasData(model, registry.View(), ps, guids, e);
          hit := [Visited(e, Some(cid), ArgsFor(ps, guids, e))];
        }
      }
    }

    /** `visit_helper(visitor, primary<void>)`: every entity slot in increasing order; a live
        entity is visited when it passes the check. */
    method VisitEntities(ps: seq<Param>, guids: seq<nat>) returns (calls: seq<Visited<V>>)
      requires Valid() && GuidsFor(registry.View(), ps, guids) && PrimaryKey(ps) == VoidKey
      ensures calls == EntityScan(model, ps, guids, |model.masks|)
    {
      calls := [];
      var eid := 0;
      while eid < |entities|
        invariant eid <= |entities| && calls == EntityScan(model, ps, guids, eid)
      {
        if BitAt(entities[eid], 0) && Matches(ps, guids, VoidKey, entities[eid]) {
          MatchedHasData(model, registry.View(), ps, guids, eid);
          calls := calls + [Visited(eid, None, ArgsFor(ps, guids, eid))];
        }
        eid := eid + 1;
      }
    }
  }
}
