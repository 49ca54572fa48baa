# ginseng entity-component store, modelled in Dafny

This project models the core of ginseng, the header-only entity-component store in
`include/ginseng/ginseng.hpp`. It covers these parts:

- **The type-id registry.** `get_type_guid<T>()` hands every component type a number on first use. The counter is pre-incremented, so the first id is 1.
- **`dynamic_bitset`.** This is the per-entity presence mask. Bit 0 is the alive bit, and bit `g` says the entity has the component whose type id is `g`. The mask grows a 64-bit word at a time and never shrinks.
- **`component_set_impl<T>`.** This is the slot table of one data type. It has two index maps kept in step, `entid_to_comid` and `comid_to_entid`. It has a LIFO free list threaded through the freed slots, and a high-water mark called `back_index`. A tag type's table stores nothing, and its `remove` does nothing.
- **`database`.** This covers the entity table, which is a mask per slot plus the LIFO stack of free slots. It covers `create_entity`, `destroy_entity` and `add_component` for data and for tags. It also covers `remove_component`, `get_component`, `get_component_by_id`, `has_component`, `size` and `get_or_create_com_set`.
- **The visitor dispatcher.** A parameter's category decides its role:
  - `component_traits` gives each parameter's category;
  - `get_primary` picks the first plain data parameter as the primary;
  - `visitor_key::check` is the per-entity match;
  - `get_com` picks each argument's value;
  - `visit_helper` runs the scan, either over the primary's table or over the entity table.

The model has two layers:

- **The value layer** (`TypeGuid`, `Bitsets`, `ComponentSets`, `Dispatch`, `EntityStore`). Every operation is a function from the old state to the new one. The lemmas about these functions state what the source promises: invariants kept, slot choice, counts, and which entities a visit reaches and in what order.
- **The class layer** (`TypeRegistry`, `DynamicBitset`, `ComponentSet`, `Database`). This is imperative Dafny with fields updated in place and the source's loops. Each method is proved to produce the state, or the result, that the matching value-layer function gives.

The visitor's parameter list is an explicit `Param` list:

- `Data(T)` for `T`;
- `Tag(T)` for `tag<T>`;
- `Require(K)`, `Deny(K)` and `Optional(K)`;
- `EntityId` for `ent_id`.

A visit returns the sequence of calls the visitor would receive. Each call carries the entity, the primary component's id and the argument list.

Type ids live in an explicit registry object, because the source keeps them process-wide in function-local statics. Operations that call `get_type_guid` take the registry and return it updated. All component values have a single type parameter `V`.

## Model

| member | source | states |
|---|---|---|
| TypeGuid.Register | include/ginseng/ginseng.hpp:34-43 | A type already registered keeps its id and leaves the registry unchanged. A new type gets exactly the old counter plus one, which becomes the new counter and is above every earlier id. Ids stay distinct and in `1..last`. |
| TypeGuid.FirstGuidIsOne | include/ginseng/ginseng.hpp:34-37 | The counter starts at 0 and is pre-incremented, so the first type registered in an empty registry gets id 1 and id 0 is never handed out. |
| TypeGuid.RegisterAll | include/ginseng/ginseng.hpp:426 | Registering the parameter types in order gives one id per parameter, namely that type's registered id. Old ids are kept, and ids new to the registry exceed the old counter. |
| TypeGuid.TypeRegistry.GuidOf | include/ginseng/ginseng.hpp:34-43 | The registry object's new state and the returned id are those `Register` gives. |
| TypeGuid.TypeRegistry.GuidsOf | include/ginseng/ginseng.hpp:426 | The visitor key's ids, one `get_type_guid` per parameter in order, are those `RegisterAll` gives. |
| TypeGuid.TypeRegistry.NextGuid | include/ginseng/ginseng.hpp:34-37 | The counter is pre-incremented, and the new value is returned. |
| Bitsets.Fresh | include/ginseng/ginseng.hpp:56-57 | A new mask is one 64-bit word with every bit false. |
| Bitsets.WithBit | include/ginseng/ginseng.hpp:130-138 | The bits after `set(i)`. Characterised by `SetGrowth`: bit `i` set, others kept, growth to the next word multiple only past the end. |
| Bitsets.WithoutBit | include/ginseng/ginseng.hpp:140-145 | The bits after `unset(i)`. Characterised by `UnsetSemantics` and `UnsetPastEnd`: only bit `i` cleared and the size kept. |
| Bitsets.Cleared | include/ginseng/ginseng.hpp:147-150 | The bits after `zero()`. Characterised by `ZeroSemantics`: every bit false and the size kept. |
| Bitsets.RoundUp | include/ginseng/ginseng.hpp:109-111 | The new size is a multiple of 64, at least the request and less than 64 above it. |
| Bitsets.Resized | include/ginseng/ginseng.hpp:107-122 | `resize(n)` grows the mask to `n` rounded up to whole words only when `n` exceeds the size. Every old bit is kept and the new bits are false. |
| Bitsets.SetGrowth | include/ginseng/ginseng.hpp:130-138 | `set(i)` sets bit `i` and changes no other bit. It grows the mask only when `i` is past the end, and then to the smallest multiple of 64 above `i`. It never shrinks the mask and keeps the size a positive multiple of 64. |
| Bitsets.UnsetPastEnd | include/ginseng/ginseng.hpp:140-141 | `unset(i)` at or past the size changes nothing, size and single-word mode included. |
| Bitsets.UnsetSemantics | include/ginseng/ginseng.hpp:140-145 | `unset(i)` clears bit `i` only and keeps the size. |
| Bitsets.ZeroSemantics | include/ginseng/ginseng.hpp:147-150 | `zero()` clears every bit and keeps the size. |
| Bitsets.DynamicBitset.constructor | include/ginseng/ginseng.hpp:56-57 | The mask object starts as a fresh mask. |
| Bitsets.DynamicBitset.Get | include/ginseng/ginseng.hpp:124-128 | `get(i)` at or past the size is false and does not grow the mask. Below the size it is bit `i`. |
| Bitsets.DynamicBitset.Resize | include/ginseng/ginseng.hpp:107-122 | The in-place resize leaves the bits `Resized` gives. |
| Bitsets.DynamicBitset.Set | include/ginseng/ginseng.hpp:130-138 | The in-place `set` leaves the bits `WithBit` gives, on both the single-word path and the growing path. |
| Bitsets.DynamicBitset.Unset | include/ginseng/ginseng.hpp:140-145 | The in-place `unset` leaves the bits `WithoutBit` gives. |
| Bitsets.DynamicBitset.Zero | include/ginseng/ginseng.hpp:147-150 | The in-place `zero` leaves the bits `Cleared` gives. |
| ComponentSets.GrowEntMap | include/ginseng/ginseng.hpp:558-560 | `entid_to_comid` covers `e` afterwards. Old entries are kept and the new entries are 0. |
| ComponentSets.EmptyValid | include/ginseng/ginseng.hpp:636-637 | A new table is consistent, has no valid slot and holds no entity. |
| ComponentSets.Assigned | include/ginseng/ginseng.hpp:557-587 | The table and slot after `assign(e, v)`. Characterised by `AssignedSpec` and `AssignedInv`: slot choice from the free list or `back_index`, ownership and the invariant. |
| ComponentSets.Removed | include/ginseng/ginseng.hpp:589-599 | The table after `remove(e)`. Characterised by `RemovedSpec` and `RemovedInv`: the slot pushed on the free list and marked invalid, and the invariant kept. |
| ComponentSets.Overwritten | include/ginseng/ginseng.hpp:609-614 | The table after assigning through `get_com(c)`. Characterised by `OverwrittenSpec`: only slot `c`'s value changes. |
| ComponentSets.LiveCount | include/ginseng/ginseng.hpp:601-622 | The valid slots are exactly the slots below `back_index` that are not on the free list. So there are `back_index` minus the free list's length of them. |
| ComponentSets.OwnerOfSlot | include/ginseng/ginseng.hpp:616-618 | The owner of a valid slot has its `entid_to_comid` entry pointing back at that slot. |
| ComponentSets.AssignAtBack | include/ginseng/ginseng.hpp:567-576 | With an empty free list, `assign` uses slot `back_index` and raises the mark by one. The entity then owns that slot, which holds the value, and every other entity keeps its slot and value. |
| ComponentSets.AssignedInv | include/ginseng/ginseng.hpp:557-587 | `assign` of an entity not in the table keeps the table invariant. |
| ComponentSets.AssignedSpec | include/ginseng/ginseng.hpp:557-587 | Slot choice: `back_index` when the free list is empty, otherwise the most recently freed slot, which is popped. Afterwards `get_entid(get_comid(e)) == e`, the slot holds the value and lies below the mark, and every other entity keeps its slot and value. The invariant is kept and there is one more valid slot. |
| ComponentSets.RemovedInv | include/ginseng/ginseng.hpp:589-599 | `remove` of an entity in the table keeps the table invariant. |
| ComponentSets.RemovedSpec | include/ginseng/ginseng.hpp:589-599 | `remove(e)` pushes `e`'s slot on the front of the free list and marks only that slot invalid. Every other entity keeps its slot and value, and `back_index` does not move. The invariant is kept, which includes "below the mark, valid or free, never both", and there is one valid slot fewer. |
| ComponentSets.OverwrittenSpec | include/ginseng/ginseng.hpp:609-614 | Assigning through `get_com(c)` replaces only slot `c`'s value. Every entity's ownership is kept, and so are the set of valid slots and the invariant. |
| ComponentSets.ComponentSet.constructor | include/ginseng/ginseng.hpp:633-637 | The table object starts empty. |
| ComponentSets.ComponentSet.Assign | include/ginseng/ginseng.hpp:557-587 | The in-place `assign` leaves the table `Assigned` gives, returns that slot and keeps the invariant. |
| ComponentSets.ComponentSet.Remove | include/ginseng/ginseng.hpp:589-599 | The in-place `remove` leaves the table `Removed` gives and keeps the invariant. |
| ComponentSets.ComponentSet.Overwrite | include/ginseng/ginseng.hpp:609-614 | The in-place assignment to `get_com(c)` leaves the table `Overwritten` gives. |
| ComponentSets.ComponentSet.IsValid | include/ginseng/ginseng.hpp:601-603 | `is_valid(c)` holds exactly when `c` is below the mark and not on the free list. |
| ComponentSets.ComponentSet.GetComid | include/ginseng/ginseng.hpp:605-607 | For an entity in the table, the id is a valid slot below `size()` whose owner is that entity. |
| ComponentSets.ComponentSet.GetEntid | include/ginseng/ginseng.hpp:616-618 | A slot has an owner exactly when it is valid, and the owner's entry leads back to the slot. |
| ComponentSets.ComponentSet.GetCom | include/ginseng/ginseng.hpp:609-614 | A valid slot's component is the value stored in it. |
| ComponentSets.ComponentSet.Size | include/ginseng/ginseng.hpp:620-622 | `size()` is the high-water mark, and no slot at or above it is valid. |
| Dispatch.PrimaryIndex | include/ginseng/ginseng.hpp:342-357 | The primary is the first parameter of category `normal`, or there is none when no parameter has it. |
| Dispatch.CategoryOf | include/ginseng/ginseng.hpp:287-321 | Each parameter form gets its `component_traits` category. `PrimaryIsData` shows that only data parameters are `normal`. |
| Dispatch.ComponentKey | include/ginseng/ginseng.hpp:287-321 | The component type of each parameter form, the `com_t` whose id is registered at 426: the named type for data, tag, require, deny and optional, and `void` for `ent_id`. `Keys`, `PrimaryKey` and `CheckParam` are built on it. |
| Dispatch.CheckParam | include/ginseng/ginseng.hpp:401-424 | One parameter's check. `PrimaryMatchIsSemantic` and `VoidMatchIsSemantic` relate the checks to the documented matching rule, and `DenyPrimaryMatchesNothing` and `MetaNeverExcludes` give the special cases. |
| Dispatch.Matches | include/ginseng/ginseng.hpp:387-390 | The fold of the parameter checks. `MatchesAll` states that it holds exactly when every parameter passes. |
| Dispatch.Keys | include/ginseng/ginseng.hpp:426 | One key per parameter, in order: the parameter's component type, `void` for `ent_id`. |
| Dispatch.PrimaryKey | include/ginseng/ginseng.hpp:342-357 | The primary type is `void` exactly when no parameter is of category `normal`. |
| Dispatch.PrimaryIsData | include/ginseng/ginseng.hpp:287-357 | Only plain data parameters become primary: tag, require, deny, optional and id parameters never do. A list with a data parameter always has a primary, namely the first data parameter. |
| Dispatch.MatchesAll | include/ginseng/ginseng.hpp:387-390 | The fold matches exactly when every parameter's check passes. |
| Dispatch.MatchesAppend | include/ginseng/ginseng.hpp:387-390 | The check of a concatenated parameter list is the conjunction of its parts' checks. |
| Dispatch.MetaNeverExcludes | include/ginseng/ginseng.hpp:421-424 | Removing an `optional` or `ent_id` parameter from any position never changes whether an entity matches. |
| Dispatch.DenyPrimaryMatchesNothing | include/ginseng/ginseng.hpp:411-416 | A `deny` of the primary type matches no entity. |
| Dispatch.PrimaryMatchIsSemantic | include/ginseng/ginseng.hpp:401-419 | For an entity with the primary component, the check (which skips the primary's own conditions) holds exactly when the entity has every data, tag and required component and none of the denied ones. |
| Dispatch.VoidMatchIsSemantic | include/ginseng/ginseng.hpp:401-424 | Without a primary, the check is exactly the documented matching rule. |
| EntityStore.EnsureSet | include/ginseng/ginseng.hpp:977-989 | The vector grows to `g + 1` entries only when it is too short. A null entry at `g` gets a fresh table of the type's kind, an existing one is kept, and every other entry is unchanged. After growth the new entries are null. |
| EntityStore.EnsureSetSpec | include/ginseng/ginseng.hpp:977-989 | `get_or_create_com_set` keeps the database and registry invariants. Afterwards the type has a set of its kind, and no stored component and no count changes. |
| EntityStore.Create | include/ginseng/ginseng.hpp:725-739 | The state and id after `create_entity`. Characterised by `CreateSpec`. |
| EntityStore.Destroy | include/ginseng/ginseng.hpp:747-756 | The state after `destroy_entity`. Characterised by `DestroySpec`, `DestroyInv`, `DestroyComponents` and `DestroyTable`, and by `DestroyDeadPushesTwice` for a dead entity. |
| EntityStore.TableAfterDestroy | include/ginseng/ginseng.hpp:749-751 | One table's `remove(eid)` in `destroy_entity`. It is called for each set bit, with no ownership test, so it frees the slot that `entid_to_comid[e]` names. Under the invariant this is the entity's own slot (`DestroyTable`). In the state after the unguarded removal it is another entity's slot (`StaleRemove.StaleRemoveThenDestroyFreesTwice`). |
| EntityStore.DestroyDeadPushesTwice | include/ginseng/ginseng.hpp:747-756 | Destroying an entity twice pushes its slot on the free stack twice, so the next two `create_entity` calls both return that slot. |
| EntityStore.AddToDeadSurvivesCreate | include/ginseng/ginseng.hpp:725-738 | A tag added to a destroyed entity stays on its slot, so the next `create_entity` returns that slot already carrying the tag. |
| EntityStore.CreateSpec | include/ginseng/ginseng.hpp:725-739 | `create_entity` returns the most recently freed slot and pops it, or, with no free slot, the old `entities.size()` as a new slot. That entity was dead and is now alive with no component bit. No other mask and no set changes, the invariant is kept, and the live set gains exactly that entity. |
| EntityStore.DestroyTable | include/ginseng/ginseng.hpp:748-752 | In each data table, the destroyed entity's component is removed if it had one. Every other entity keeps its slot and value, and the table loses a valid slot exactly when the entity held one. |
| EntityStore.DestroyInv | include/ginseng/ginseng.hpp:747-756 | `destroy_entity` of a live entity keeps the database invariant and the kind of every set. |
| EntityStore.DestroyComponents | include/ginseng/ginseng.hpp:747-756 | Afterwards the entity holds no component. Every other entity's components are unchanged, and each type's count drops by one exactly when the entity held that type. |
| EntityStore.DestroySpec | include/ginseng/ginseng.hpp:747-756 | `destroy_entity` of a live entity takes away all its components, so every later `has_component` is false. The mask is cleared and the slot pushed on the free stack. Other entities' masks and components are unchanged, and counts drop by one exactly for the types the entity held. The invariant is kept and the live set loses exactly that entity. |
| EntityStore.AliveCount | include/ginseng/ginseng.hpp:931-933 | There are `entities.size() - free_entities.size()` live entities. |
| EntityStore.Size | include/ginseng/ginseng.hpp:931-933 | `entities.size() - free_entities.size()`. `SizeIsAlive` shows that this is the number of live entities. |
| EntityStore.SizeIsAlive | include/ginseng/ginseng.hpp:931-933 | `size()` is the number of live entities. |
| EntityStore.AddData | include/ginseng/ginseng.hpp:769-787 | The state, registry and id after `add_component` of a data type. Characterised by `AddDataSpec`. |
| EntityStore.PutData | include/ginseng/ginseng.hpp:773-787 | The table and mask step of `add_component`. Characterised by `PutDataSpec`, `PutDataInv`, `AddDataOverwrite` and `AddDataAssign`. |
| EntityStore.AddDataOverwrite | include/ginseng/ginseng.hpp:778-780 | Adding a type the entity has assigns the value in place. The component id and the count are kept, the masks do not change, and nothing else changes. |
| EntityStore.AddDataAssign | include/ginseng/ginseng.hpp:781-784 | Adding a type the entity lacks assigns a new slot under the returned id and sets the bit. The count goes up by one and nothing else changes. |
| EntityStore.PutDataInv | include/ginseng/ginseng.hpp:773-787 | The table and mask step of `add_component` keeps the invariant and every set's kind. |
| EntityStore.PutDataSpec | include/ginseng/ginseng.hpp:773-787 | Once the set exists, the entity holds the value under the returned id and carries the type's bit. An existing component keeps its id and the count. A new component raises the count by one. Nothing else changes. |
| EntityStore.AddDataSpec | include/ginseng/ginseng.hpp:769-787 | `add_component` of a data type to a live entity registers the type and keeps both invariants. The entity then holds the value under the returned id. The id is the old one, with the count unchanged, when the entity had the type. Otherwise the id is a new slot, the bit is set and the count goes up by one. Every other entity, every other type, the free stack and the live set are unchanged. |
| EntityStore.AddTag | include/ginseng/ginseng.hpp:796-804 | The state and registry after `add_component` of a tag. Characterised by `AddTagSpec` and `AddTagIdempotent`. |
| EntityStore.MarkTag | include/ginseng/ginseng.hpp:803 | The mask step of the tag `add_component`. Characterised by `MarkTagSpec`. |
| EntityStore.MarkTagSpec | include/ginseng/ginseng.hpp:803 | Setting a tag's bit on a live entity keeps the invariant and changes no set, no other bit and no other entity. |
| EntityStore.AddTagSpec | include/ginseng/ginseng.hpp:796-804 | `add_component` of a tag to a live entity creates the tag's empty set if needed and sets only the tag's bit. No stored value, no other bit and no other entity changes. The tag type holds no component, and both invariants are kept. |
| EntityStore.AddTagIdempotent | include/ginseng/ginseng.hpp:796-804 | Adding a tag a second time changes nothing. |
| EntityStore.CarriedIsRemovable | include/ginseng/ginseng.hpp:830-834 | For an entity that carries the type's bit, everything `remove_component` dereferences exists. |
| EntityStore.RemoveComponent | include/ginseng/ginseng.hpp:830-836 | `remove_component` as written, with no check of the entity's bit. `StaleRemoveFreesAnotherSlot` shows a reachable state where it frees another entity's slot. |
| EntityStore.DropComponent | include/ginseng/ginseng.hpp:833-835 | The `remove(e)` and `unset(guid)` step. Characterised by `DropSpec` and `DropInv`. |
| EntityStore.RemoveChecked | include/ginseng/ginseng.hpp:830-836 | `remove_component` guarded by the entity's bit. Characterised by `RemoveCheckedSpec`. |
| EntityStore.DropInv | include/ginseng/ginseng.hpp:830-836 | Removing a component the entity carries keeps the invariant and every set's kind. |
| EntityStore.DropSpec | include/ginseng/ginseng.hpp:830-836 | Removing a component the entity carries frees its slot and clears its bit, so the entity no longer holds it. A data table loses one valid slot. No other entity, type or live-set member changes. |
| EntityStore.RemoveCheckedSpec | include/ginseng/ginseng.hpp:830-836 | `remove_component`, guarded by the bit, on any entity slot: afterwards the entity lacks the component and the bit is clear. The count drops by one exactly when it held a component, and nothing else changes. Without the component the database is unchanged. Both invariants are kept. |
| EntityStore.HasComponent | include/ginseng/ginseng.hpp:887-890 | The registry and answer of `has_component`. Characterised by `HasComponentSpec`. |
| EntityStore.HasComponentSpec | include/ginseng/ginseng.hpp:887-890 | `has_component` registers the type and keeps the registry invariant. For a data type it is true exactly when the entity holds a component of it. It is false for `void`, for a never-registered type and for a dead entity. |
| EntityStore.ArgOf | include/ginseng/ginseng.hpp:456-506 | The `get_com` value for one parameter. Characterised by `OptionalArgSpec` and `MatchedHasData`. |
| EntityStore.ArgsOf | include/ginseng/ginseng.hpp:448-453 | One argument per parameter, in order, each the one `ArgOf` gives. |
| EntityStore.OptionalArgSpec | include/ginseng/ginseng.hpp:474-491 | An `optional` argument is present exactly when the entity carries the type's bit. A present data optional holds the entity's component. |
| EntityStore.MatchedHasData | include/ginseng/ginseng.hpp:448-463 | An entity that passes the check, and holds the primary if there is one, has a component for every data parameter, so every reference argument exists. |
| EntityStore.PrimaryScan | include/ginseng/ginseng.hpp:1001-1006 | The calls of the primary scan carry component ids below the bound, in strictly increasing order. |
| EntityStore.EntityScan | include/ginseng/ginseng.hpp:1017-1021 | The calls of the entity scan carry no component id and entity slots below the bound, in strictly increasing order. |
| EntityStore.PrimaryScanMembers | include/ginseng/ginseng.hpp:1001-1006 | Each call is for the owner of a valid slot below the bound that passes the check, with that owner's arguments. Every such slot yields a call. |
| EntityStore.EntityScanMembers | include/ginseng/ginseng.hpp:1017-1021 | Each call is for a live entity below the bound that passes the check, with its arguments. Every such entity yields a call. |
| EntityStore.PrimaryHitsSound | include/ginseng/ginseng.hpp:998-1006 | Every call of the primary path is for a live entity that matches by the documented rule and holds every data parameter's component, and its id is that entity's slot. |
| EntityStore.PrimaryHitsComplete | include/ginseng/ginseng.hpp:998-1006 | Every live entity that matches by the documented rule gets a call on the primary path. |
| EntityStore.VisitPrimaryTable | include/ginseng/ginseng.hpp:991-1008 | Through the primary table, the visitor is called for exactly the live entities that match, once each, with their arguments. The passed component id is the entity's own slot in the primary table, so `get_component_by_id` reads the entity's component. |
| EntityStore.VisitPrimaryNoTable | include/ginseng/ginseng.hpp:998 | A primary type without a table visits nothing, and no live entity matches then. |
| EntityStore.VisitVoid | include/ginseng/ginseng.hpp:1010-1022 | Without a primary, the scan over every entity slot calls the visitor for exactly the live entities that match, once each. |
| EntityStore.Visit | include/ginseng/ginseng.hpp:918-925 | The registry and calls of `visit`. Characterised by `VisitSpec`. |
| EntityStore.PrimaryCalls | include/ginseng/ginseng.hpp:991-1008 | The primary path's calls: the scan of the primary table, or none without a table. Characterised by `VisitPrimaryTable` and `VisitPrimaryNoTable`. |
| EntityStore.VisitSpec | include/ginseng/ginseng.hpp:918-925 | `visit` registers the parameter types in order and keeps the registry invariant. The visitor is called exactly for the live entities that satisfy the documented rule, once each, with every data argument present. Through a primary table the calls come in increasing component-id order, so the first data parameter decides the order. Without a primary they come in entity order. |
| StaleRemove.StaleRemoveFreesAnotherSlot | include/ginseng/ginseng.hpp:830-836 | In a reachable state, `remove_component<A>(0)` for entity 0, which holds no `A`, frees entity 1's slot. `has_component<A>(1)` still answers true while entity 1's component is gone, and the database invariant is broken. |
| StaleRemove.StaleRemoveThenDestroyFreesTwice | include/ginseng/ginseng.hpp:747-756 | After that removal, `destroy_entity(1)` still sees entity 1's bit and calls `remove(1)`, which frees the same slot a second time. The free list then names it twice. |
| Ginseng.Grown | include/ginseng/ginseng.hpp:980-982 | `component_sets.resize(g + 1)` keeps every entry and adds null ones. |
| Ginseng.Database.constructor | include/ginseng/ginseng.hpp:1024-1026 | A new database has no entity, no free slot and no set. |
| Ginseng.Database.CreateEntity | include/ginseng/ginseng.hpp:725-739 | The in-place `create_entity` leaves the state, and returns the entity, that `Create` gives. |
| Ginseng.Database.DestroyEntity | include/ginseng/ginseng.hpp:747-756 | The in-place `destroy_entity` leaves the state that `Destroy` gives and keeps the invariant. |
| Ginseng.Database.LeaveSets | include/ginseng/ginseng.hpp:748-752 | The loop over the mask's bits from 1 leaves every set as `Destroy` says. |
| Ginseng.Database.GetOrCreateComSet | include/ginseng/ginseng.hpp:977-989 | The component-set vector afterwards is `EnsureSet`'s, and only fresh tables are added. |
| Ginseng.Database.InstallTag | include/ginseng/ginseng.hpp:984-985 | A null entry for a tag type becomes the tag table, leaving the vector and sets that `EnsureSet` gives, with no new data table. |
| Ginseng.Database.InstallData | include/ginseng/ginseng.hpp:984-985 | A null entry for a data type becomes a fresh empty table, leaving the vector and sets that `EnsureSet` gives. |
| Ginseng.Database.SetEntry | include/ginseng/ginseng.hpp:980-985 | The vector is grown to cover the id and the entry set. Every other entry keeps its contents, and new entries are null. |
| Ginseng.Database.AddComponent | include/ginseng/ginseng.hpp:769-787 | The in-place `add_component` of a data type leaves the state, registry and id that `AddData` gives. |
| Ginseng.Database.PutAt | include/ginseng/ginseng.hpp:778-784 | The branch on the entity's bit leaves the state and id that `PutData` gives. |
| Ginseng.Database.OverwriteAt | include/ginseng/ginseng.hpp:780 | `get_com(c) = v` leaves the table that `Overwritten` gives. No other entry changes. |
| Ginseng.Database.AssignAt | include/ginseng/ginseng.hpp:782 | `assign(e, v)` leaves the table and returns the slot that `Assigned` gives. No other entry changes. |
| Ginseng.Database.OverwriteEntry | include/ginseng/ginseng.hpp:779-780 | Assigning through `get_com(get_comid(e))` leaves the state and id that `PutData` gives. |
| Ginseng.Database.AssignEntry | include/ginseng/ginseng.hpp:782-783 | `assign` plus `set(guid)` leaves the state and id that `PutData` gives. |
| Ginseng.Database.AddTag | include/ginseng/ginseng.hpp:796-804 | The in-place tag `add_component` leaves the state and registry that `AddTag` gives. |
| Ginseng.Database.TagAt | include/ginseng/ginseng.hpp:803 | Setting the tag's bit leaves the state that `MarkTag` gives. |
| Ginseng.Database.RemoveComponent | include/ginseng/ginseng.hpp:830-836 | The in-place removal leaves the state and registry that the checked removal gives. |
| Ginseng.Database.DropAt | include/ginseng/ginseng.hpp:833-835 | For an entity carrying the bit, `remove(e)` plus `unset(guid)` leaves the state that `DropComponent` gives. |
| Ginseng.Database.RemoveAt | include/ginseng/ginseng.hpp:834 | `remove(e)` on a data table leaves the table that `Removed` gives. On a tag table it changes nothing. No other entry changes. |
| Ginseng.Database.Guid | include/ginseng/ginseng.hpp:34-43 | Registering a type from inside the database keeps the database's invariant. |
| Ginseng.Database.HasComponent | include/ginseng/ginseng.hpp:951-955 | The result is the mask bit that `HasComponent` gives. |
| Ginseng.Database.Lookup | include/ginseng/ginseng.hpp:938-943 | The value read through `get_comid` and `get_com` is the entity's component. |
| Ginseng.Database.GetComponent | include/ginseng/ginseng.hpp:852-857 | `get_component` returns the entity's component of that type. |
| Ginseng.Database.GetComponentById | include/ginseng/ginseng.hpp:871-875 | `get_component_by_id` on a valid slot returns the slot owner's component. |
| Ginseng.Database.Size | include/ginseng/ginseng.hpp:931-933 | `size()` is the number of live entities. |
| Ginseng.Database.ArgFor | include/ginseng/ginseng.hpp:456-506 | Each argument read from the fields is the one `ArgOf` gives. For the primary type the source reads slot `primary_cid` through `get_component_by_id` (457-459). That is the same value as `Lookup` gives, because `VisitPrimaryTable` shows the scan passes each entity's own slot. |
| Ginseng.Database.ArgsFor | include/ginseng/ginseng.hpp:451 | The argument list, in parameter order, is the one `ArgsOf` gives. |
| Ginseng.Database.OptionalArgExists | include/ginseng/ginseng.hpp:474-485 | A data `optional` reads its table only when the entity carries the bit, and then the table exists. |
| Ginseng.Database.Guids | include/ginseng/ginseng.hpp:426 | The visitor key's ids are `RegisterAll`'s, one per parameter's component type. |
| Ginseng.Database.Visit | include/ginseng/ginseng.hpp:918-925 | The calls and the registry afterwards are those `Visit` gives. |
| Ginseng.Database.VisitPrimary | include/ginseng/ginseng.hpp:991-1008 | The primary path's calls are `PrimaryCalls`'s: the scan of the existing table, or none. |
| Ginseng.Database.ScanPrimary | include/ginseng/ginseng.hpp:1001-1006 | The loop over component ids up to the `size()` read before the scan yields `PrimaryScan`'s calls. |
| Ginseng.Database.VisitSlot | include/ginseng/ginseng.hpp:1002-1005 | One slot is re-checked for validity and then matched, extending the scan by one step. |
| Ginseng.Database.VisitEntities | include/ginseng/ginseng.hpp:1017-1021 | The loop over entity slots yields `EntityScan`'s calls. |

## Left out

- Raw memory is not modelled. This covers unions with placement new, explicit destructors, `unique_ptr` buckets and the moves of `dynamic_bitset`. Slots are a datatype `Unset | Occupied(v) | Free(next)` over one flat sequence. Buckets appear only as the growth step, which adds one bucket of 32768 slots when `back_index` reaches the storage's end.
- Type erasure is not modelled: `component_set` and its `static_cast`s are replaced by one value type `V` for every data table. The tag specialisation is the `TagTable` entry, whose `remove` does nothing.
- The signature deduction of `visitor_traits` is not modelled. The visitor's parameter list is given explicitly as a `Param` list.
- `opaque_index` is not modelled. Entity and component ids are plain naturals.
- The visitor's own code is not modelled: its side effects on the database during a scan and its return value are left out. The model states that the scan bound is read once before the loop, and that each slot's validity is checked when the slot is reached.
- Integers are unbounded. `size_t` wrap-around of the type counter, of `(entid + 1) * 3 / 2` and of `back_index` is not modelled, and neither is the `int` loop counter of the entity scan.
- The process-wide statics of `get_type_guid` are not modelled as statics. They become one registry object that the database holds and every operation updates.
- EntityStore.DestroySpec and Ginseng.Database.DestroyEntity require a live entity. The source also accepts a dead id within range. It then clears the mask again and pushes the id on `free_entities` a second time, so the next two `create_entity` calls return the same id (`EntityStore.DestroyDeadPushesTwice`). The class model does not cover that path.
- EntityStore.AddDataSpec, EntityStore.AddTagSpec, Ginseng.Database.AddComponent and Ginseng.Database.AddTag require a live entity. The source also accepts a destroyed id within range. It assigns the component and sets the bit on the dead slot, and the next `create_entity` of that id then returns an entity that already carries the component (`EntityStore.AddToDeadSurvivesCreate`). The class cannot allow this, because its invariant says dead entities carry no bits.
- Undefined behaviour becomes a precondition. This covers `get_component` of a component that is absent and `get_component_by_id` of an invalid id.
- Masks are held by value in `entities` rather than as `DynamicBitset` objects. The database methods apply the bitset functions that the `DynamicBitset` methods are proved against.
- Ginseng.Database.RemoveComponent (the class) removes only when the entity carries the type's bit. For the unguarded removal as written, see ## Findings.
- Ginseng.Database.GetComponent and Ginseng.Database.GetComponentById require the type to be registered already. In the source, `get_component` registers an unknown type and then dereferences a null set.
- Dispatch.WellFormed excludes `optional<P>` of the primary type `P`, because that instantiation does not compile (the value would be built through an explicit constructor). It also excludes `require`, `deny` and `optional` of `void`.
- `count<T>()`, generation counters, `exists` and handle tokens are not part of this header, so they are not modelled.
- src/ginseng.hpp, the earlier engine, is not part of this model. Neither are the examples' visitors, which do floating-point arithmetic and console output.

## Findings

| source | as written | input that shows it | evidently intended | confidence | as-written member | corrected member |
|---|---|---|---|---|---|---|
| include/ginseng/ginseng.hpp:830-836 | `remove_component<A>(e)` calls `remove(e)` on `A`'s table without checking `e`'s bit. `remove` frees slot `entid_to_comid[e]` whoever owns it (589-598). | Create entities 0 and 1. Add an `A` to 0, then remove it: 0's stale entry names slot 0, now the free head. Add an `A` to 1, which takes slot 0. Then `remove_component<A>(0)`: slot 0, entity 1's component, is freed, while 1 keeps its bit. | Removing a component the entity does not have changes nothing, as `remove_component` on a tag table already does. | not executed | StaleRemove.StaleRemoveFreesAnotherSlot | EntityStore.RemoveCheckedSpec |
