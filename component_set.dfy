/** `component_set_impl<T>`: the table that stores the components of one data type.
    Components live in slots that never move, so a component id (a slot index) stays valid
    until its component is removed. Two index maps are kept in step: `entid_to_comid` from
    entity to slot and `comid_to_entid` from slot to entity (-1 for an empty slot). Freed slots
    form a LIFO free list threaded through the slots themselves, and `back_index` is the
    high-water mark of slots ever used. The bucket split of the storage is arithmetic over one
    flat sequence of slots that grows a bucket at a time. */
module ComponentSets {
  import opened Wrappers
  import opened Seqs

  /** Slots per bucket (`bucket_size`). */
  const BucketSize: nat := 32768

  /** One storage slot: never used yet, holding a component, or on the free list with the
      index of the next free slot (`next_free`). */
  datatype Slot<V> = Unset | Occupied(value: V) | Free(next: nat)

  /** The table's state. `comToEnt[c]` is `None` where the source stores -1. `freeList` lists
      the chain of free slots that starts at `freeHead` and follows the `next_free` links; it
      ends at `backIndex`. */
  datatype Table<V> = Table(
    entToCom: seq<nat>,
    comToEnt: seq<Option<nat>>,
    slots: seq<Slot<V>>,
    freeHead: nat,
    backIndex: nat,
    freeList: seq<nat>)

  /** A table as constructed: no buckets, both counters at 0. */
  function Empty<V>(): Table<V> {
    Table([], [], [], 0, 0, [])
  }

  /** The slot the `k`-th free slot links to. */
  function NextFree(fl: seq<nat>, k: nat, back: nat): nat
    requires k < |fl|
  {
    if k + 1 < |fl| then fl[k + 1] else back
  }

  /** Dropping the head of a free list shifts its links by one. */
  lemma NextFreeShift(fl: seq<nat>, k: nat, back: nat)
    requires 0 < k < |fl|
    ensures NextFree(fl, k, back) == NextFree(fl[1..], k - 1, back)
  {
  }

  /** Slot `c` is owned by the entity it names, and that entity's map entry points back. */
  ghost predicate OwnedSlot<V>(t: Table<V>, c: nat)
    requires c < |t.comToEnt| && c < |t.slots| && t.comToEnt[c].Some?
  {
    var e := t.comToEnt[c].value;
    e < |t.entToCom| && t.entToCom[e] == c && t.slots[c].Occupied?
  }

  /** The free list: distinct slots below the high-water mark, starting at `freeHead` and
      linked in order through the slots. */
  ghost predicate FreeListOk<V>(t: Table<V>)
    requires t.backIndex <= |t.slots|
  {
    Distinct(t.freeList) &&
    (forall k :: 0 <= k < |t.freeList| ==> t.freeList[k] < t.backIndex) &&
    t.freeHead == (if t.freeList == [] then t.backIndex else t.freeList[0]) &&
    (forall k :: 0 <= k < |t.freeList| ==>
      t.slots[t.freeList[k]] == Free(NextFree(t.freeList, k, t.backIndex)))
  }

  /** A slot is valid exactly when it is below the mark and not free, and the two maps agree
      on every valid slot. */
  ghost predicate SlotsOk<V>(t: Table<V>)
    requires |t.slots| == |t.comToEnt|
  {
    (forall c :: 0 <= c < |t.comToEnt| ==>
      (t.comToEnt[c].Some? <==> c < t.backIndex && c !in t.freeList)) &&
    (forall c :: 0 <= c < |t.comToEnt| && t.comToEnt[c].Some? ==> OwnedSlot(t, c))
  }

  /** The table invariant. */
  ghost predicate TInv<V>(t: Table<V>) {
    |t.slots| == |t.comToEnt| && |t.slots| % BucketSize == 0 &&
    t.backIndex <= |t.slots| && FreeListOk(t) && SlotsOk(t)
  }

  /** Entity `e` has a component in the table: its map entry names a slot that names it. */
  predicate Owns<V>(t: Table<V>, e: nat) {
    e < |t.entToCom| && t.entToCom[e] < |t.comToEnt| && t.comToEnt[t.entToCom[e]] == Some(e)
  }

  /** The valid slots (`is_valid`). */
  function LiveSlots<V>(t: Table<V>): set<nat> {
    set c: nat | c < |t.comToEnt| && t.comToEnt[c].Some?
  }

  /** `entid_to_comid` after the growth step of `assign`: when `e` is past the end it is
      resized to `(e + 1) * 3 / 2` entries, the new ones 0. */
  function GrowEntMap(m: seq<nat>, e: nat): (r: seq<nat>)
    ensures e < |r| && |m| <= |r|
    ensures forall i :: 0 <= i < |r| ==> r[i] == if i < |m| then m[i] else 0
  {
    if e >= |m| then m + seq((e + 1) * 3 / 2 - |m|, _ => 0) else m
  }

  /** `assign(e, v)`: the table afterwards and the slot used. */
  function Assigned<V>(t: Table<V>, e: nat, v: V): (Table<V>, nat)
    requires TInv(t)
  {
    var etc := GrowEntMap(t.entToCom, e);
    var index := t.freeHead;
    if index == t.backIndex then
      // no free slot: take the next unused one, adding a bucket when the storage is full
      var grow := index / BucketSize == |t.slots| / BucketSize;
      var slots := if grow then t.slots + seq(BucketSize, _ => Unset) else t.slots;
      var cte := if grow then t.comToEnt + seq(BucketSize, _ => None) else t.comToEnt;
      (Table(etc[e := index], cte[index := Some(e)], slots[index := Occupied(v)],
             t.backIndex + 1, t.backIndex + 1, t.freeList), index)
    else
      // pop the free list
      (Table(etc[e := index], t.comToEnt[index := Some(e)], t.slots[index := Occupied(v)],
             t.slots[index].next, t.backIndex, t.freeList[1..]), index)
  }

  /** `remove(e)`: the slot of `e` goes to the front of the free list and is marked empty. */
  function Removed<V>(t: Table<V>, e: nat): Table<V>
    requires e < |t.entToCom| && t.entToCom[e] < |t.slots| && |t.slots| == |t.comToEnt|
  {
    var index := t.entToCom[e];
    Table(t.entToCom, t.comToEnt[index := None], t.slots[index := Free(t.freeHead)],
          index, t.backIndex, [index] + t.freeList)
  }

  /** Assigning through `get_com(c)`: the value in slot `c` is replaced. */
  function Overwritten<V>(t: Table<V>, c: nat, v: V): Table<V>
    requires c < |t.slots|
  {
    t.(slots := t.slots[c := Occupied(v)])
  }

  /** A new table satisfies the invariant and owns nothing. */
  lemma EmptyValid<V>()
    ensures TInv(Empty<V>()) && LiveSlots(Empty<V>()) == {}
    ensures forall e: nat :: !Owns(Empty<V>(), e)
  {
  }

  /** The valid slots are the slots below `back_index` that are not on the free list, so there
      are `back_index - |free list|` of them. */
  lemma {:induction false} LiveCount<V>(t: Table<V>)
    requires TInv(t)
    ensures LiveSlots(t) == Below(t.backIndex) - (set x | x in t.freeList)
    ensures |t.freeList| <= t.backIndex
    ensures |LiveSlots(t)| == t.backIndex - |t.freeList|
  {
    var fl := set x | x in t.freeList;
    forall c: nat ensures c in LiveSlots(t) <==> c in Below(t.backIndex) - fl {
      if c < t.backIndex {
        assert c < |t.comToEnt|;
      }
    }
    assert LiveSlots(t) == Below(t.backIndex) - fl;
    BelowMinusCard(t.backIndex, t.freeList);
  }

  /** The component entity `e` holds in the table, if any. */
  function ValueOf<V>(t: Table<V>, e: nat): Option<V> {
    if Owns(t, e) && t.entToCom[e] < |t.slots| && t.slots[t.entToCom[e]].Occupied?
    then Some(t.slots[t.entToCom[e]].value) else None
  }

  /** Every entity other than `e` owns in `t'` what it owned in `t`, at the same slot and
      with the same value. */
  ghost predicate OthersKept<V>(t: Table<V>, t': Table<V>, e: nat) {
    forall e': nat :: e' != e ==>
      (Owns(t', e') <==> Owns(t, e')) && ValueOf(t', e') == ValueOf(t, e') &&
      (Owns(t, e') ==> t'.entToCom[e'] == t.entToCom[e'])
  }

  /** In a consistent table an entity that owns a slot is the one that slot names. */
  lemma OwnerOfSlot<V>(t: Table<V>, c: nat)
    requires TInv(t) && c < |t.comToEnt| && t.comToEnt[c].Some?
    ensures Owns(t, t.comToEnt[c].value) && t.entToCom[t.comToEnt[c].value] == c
  {
    assert OwnedSlot(t, c);
  }

  /** `assign` with an empty free list. */
  lemma {:induction false} AssignAtBack<V>(t: Table<V>, e: nat, v: V)
    requires TInv(t) && !Owns(t, e) && t.freeHead == t.backIndex
    ensures var (t', i) := Assigned(t, e, v);
      TInv(t') && i == t.backIndex && t'.backIndex == t.backIndex + 1 &&
      t'.freeList == t.freeList && Owns(t', e) && t'.entToCom[e] == i &&
      t'.slots[i] == Occupied(v) && OthersKept(t, t', e)
  {
    var (t', i) := Assigned(t, e, v);
    assert t.freeList == [];
    assert i == t.backIndex && i < |t'.slots|;
    assert t'.comToEnt[i] == Some(e);
    assert forall c :: 0 <= c < |t.comToEnt| && c != i ==> t'.comToEnt[c] == t.comToEnt[c];
    assert forall c :: |t.comToEnt| <= c < |t'.comToEnt| && c != i ==> t'.comToEnt[c] == None;
    forall c | 0 <= c < |t.comToEnt| && t.comToEnt[c].Some?
      ensures t.comToEnt[c].value != e && t'.entToCom[t.comToEnt[c].value] == c
    {
      OwnerOfSlot(t, c);
    }
    assert Distinct(t'.freeList);
    assert forall c :: 0 <= c < |t'.comToEnt| ==>
      (t'.comToEnt[c].Some? <==> c < t'.backIndex && c !in t'.freeList);
    forall c | 0 <= c < |t'.comToEnt| && t'.comToEnt[c].Some? ensures OwnedSlot(t', c) {
      if c != i {
        assert OwnedSlot(t, c);
      }
    }
    assert TInv(t');
    forall e': nat | e' != e ensures Owns(t', e') <==> Owns(t, e') {
      if Owns(t, e') {
        OwnerOfSlot(t, t.entToCom[e']);
      }
    }
  }

  /** `assign` with a non-empty free list pops the head of the list. */
  lemma PoppedFreeList<V>(t: Table<V>, e: nat, v: V)
    requires TInv(t) && t.freeHead != t.backIndex
    ensures var (t', i) := Assigned(t, e, v);
      t.freeList != [] && i == t.freeList[0] && i !in t'.freeList &&
      t'.freeList == t.freeList[1..] && t'.backIndex == t.backIndex &&
      |t'.slots| == |t.slots| && FreeListOk(t')
  {
    var (t', i) := Assigned(t, e, v);
    var fl := t'.freeList;
    assert t.freeList != [] && i == t.freeList[0];
    DistinctTail(t.freeList);
    assert t.slots[i] == Free(NextFree(t.freeList, 0, t.backIndex));
    forall k | 0 <= k < |fl|
      ensures fl[k] < t'.backIndex && t'.slots[fl[k]] == Free(NextFree(fl, k, t'.backIndex))
    {
      NextFreeShift(t.freeList, k + 1, t.backIndex);
      assert fl[k] == t.freeList[k + 1];
    }
  }

  /** `assign` with a non-empty free list. */
  lemma {:induction false} AssignFromFree<V>(t: Table<V>, e: nat, v: V)
    requires TInv(t) && !Owns(t, e) && t.freeHead != t.backIndex
    ensures var (t', i) := Assigned(t, e, v);
      TInv(t') && t.freeList != [] && i == t.freeList[0] && t'.backIndex == t.backIndex &&
      t'.freeList == t.freeList[1..] && Owns(t', e) && t'.entToCom[e] == i &&
      t'.slots[i] == Occupied(v) && OthersKept(t, t', e)
  {
    var (t', i) := Assigned(t, e, v);
    PoppedFreeList(t, e, v);
    var fl := t'.freeList;
    forall c | 0 <= c < |t.comToEnt| && t.comToEnt[c].Some?
      ensures t.comToEnt[c].value != e && t'.entToCom[t.comToEnt[c].value] == c
    {
      OwnerOfSlot(t, c);
    }
    forall c | 0 <= c < |t'.comToEnt|
      ensures t'.comToEnt[c].Some? <==> c < t'.backIndex && c !in fl
    {
      if c != i {
        assert c in t.freeList <==> c in fl;
      }
    }
    forall c | 0 <= c < |t'.comToEnt| && t'.comToEnt[c].Some? ensures OwnedSlot(t', c) {
      if c != i {
        assert OwnedSlot(t, c);
      }
    }
    forall e': nat | e' != e ensures Owns(t', e') <==> Owns(t, e') {
      if Owns(t, e') {
        OwnerOfSlot(t, t.entToCom[e']);
      }
    }
  }

  /** `assign` keeps the table invariant. */
  lemma AssignedInv<V>(t: Table<V>, e: nat, v: V)
    requires TInv(t) && !Owns(t, e)
    ensures TInv(Assigned(t, e, v).0)
  {
    if t.freeHead == t.backIndex {
      AssignAtBack(t, e, v);
    } else {
      AssignFromFree(t, e, v);
    }
  }

  /** What `assign` does to a table that does not hold `e` yet: with an empty free list it
      uses slot `back_index` and raises the mark by one; otherwise it reuses the most recently
      freed slot and pops it. Either way `e` now owns the slot, which holds `v`, every other
      entity keeps its slot and value, the mark never goes down, the invariant is kept, and
      there is one more valid slot. */
  lemma {:induction false} AssignedSpec<V>(t: Table<V>, e: nat, v: V)
    requires TInv(t) && !Owns(t, e)
    ensures var (t', i) := Assigned(t, e, v);
      TInv(t') &&
      (t.freeList == [] ==> i == t.backIndex && t'.backIndex == t.backIndex + 1) &&
      (t.freeList != [] ==> i == t.freeList[0] && t'.freeList == t.freeList[1..] &&
                            t'.backIndex == t.backIndex) &&
      Owns(t', e) && t'.entToCom[e] == i && i < t'.backIndex && t'.slots[i] == Occupied(v) &&
      OthersKept(t, t', e) &&
      |LiveSlots(t')| == |LiveSlots(t)| + 1
  {
    var (t', i) := Assigned(t, e, v);
    if t.freeHead == t.backIndex {
      AssignAtBack(t, e, v);
    } else {
      AssignFromFree(t, e, v);
    }
    LiveCount(t);
    LiveCount(t');
  }

  /** `remove` keeps the table invariant. */
  lemma RemovedInv<V>(t: Table<V>, e: nat)
    requires TInv(t) && Owns(t, e)
    ensures TInv(Removed(t, e))
  {
    RemovedFreeList(t, e);
    RemovedSlots(t, e);
  }

  /** `remove` pushes the slot it frees on the free list, linked to the old head. */
  lemma RemovedFreeList<V>(t: Table<V>, e: nat)
    requires TInv(t) && Owns(t, e)
    ensures FreeListOk(Removed(t, e))
  {
    var t' := Removed(t, e);
    var i := t.entToCom[e];
    var fl := t'.freeList;
    assert i < t.backIndex && i !in t.freeList;
    DistinctCons(i, t.freeList);
    assert fl[1..] == t.freeList;
    forall k | 0 <= k < |fl|
      ensures fl[k] < t'.backIndex && t'.slots[fl[k]] == Free(NextFree(fl, k, t'.backIndex))
    {
      if k > 0 {
        NextFreeShift(fl, k, t.backIndex);
        assert fl[k] == t.freeList[k - 1];
      }
    }
  }

  /** After `remove` the slot it frees is invalid and every other slot keeps its owner. */
  lemma RemovedSlots<V>(t: Table<V>, e: nat)
    requires TInv(t) && Owns(t, e)
    ensures SlotsOk(Removed(t, e))
  {
    var t' := Removed(t, e);
    var i := t.entToCom[e];
    var fl := t'.freeList;
    assert OwnedSlot(t, i);
    forall c | 0 <= c < |t'.comToEnt|
      ensures t'.comToEnt[c].Some? <==> c < t'.backIndex && c !in fl
    {
      assert c in fl <==> c == i || c in t.freeList;
    }
    forall c | 0 <= c < |t'.comToEnt| && t'.comToEnt[c].Some? ensures OwnedSlot(t', c) {
      assert OwnedSlot(t, c);
    }
  }

  /** What `remove` does to a table that holds `e`: its slot goes to the front of the free list
      and is marked empty, `e` no longer owns anything, every other entity keeps its slot and
      value, the mark does not move, the invariant is kept, and there is one valid slot fewer. */
  lemma {:induction false} RemovedSpec<V>(t: Table<V>, e: nat)
    requires TInv(t) && Owns(t, e)
    ensures var t' := Removed(t, e);
      TInv(t') &&
      t'.freeList == [t.entToCom[e]] + t.freeList && t'.freeHead == t.entToCom[e] &&
      t'.backIndex == t.backIndex && !Owns(t', e) && OthersKept(t, t', e) &&
      |LiveSlots(t')| == |LiveSlots(t)| - 1
  {
    var t' := Removed(t, e);
    var i := t.entToCom[e];
    RemovedInv(t, e);
    forall e': nat | e' != e
      ensures (Owns(t', e') <==> Owns(t, e')) && ValueOf(t', e') == ValueOf(t, e')
    {
      if Owns(t, e') {
        assert t.entToCom[e'] != i;
      }
    }
    LiveCount(t);
    LiveCount(t');
  }

  /** Assigning through `get_com(c)` to a valid slot keeps the invariant, the ownership of
      every entity and the value of every other slot; slot `c` then holds `v`. */
  lemma OverwrittenSpec<V>(t: Table<V>, c: nat, v: V)
    requires TInv(t) && c < |t.comToEnt| && t.comToEnt[c].Some?
    ensures var t' := Overwritten(t, c, v);
      TInv(t') && t'.slots[c] == Occupied(v) && LiveSlots(t') == LiveSlots(t) &&
      (forall e: nat :: Owns(t', e) <==> Owns(t, e)) &&
      (forall d :: 0 <= d < |t.slots| && d != c ==> t'.slots[d] == t.slots[d])
  {
    var t' := Overwritten(t, c, v);
    assert c !in t.freeList;
    forall d | 0 <= d < |t'.comToEnt| && t'.comToEnt[d].Some? ensures OwnedSlot(t', d) {
      assert OwnedSlot(t, d);
    }
  }

  /** The table object. The free list is a ghost field that lists the chain of `next_free`
      links from `freeHead`. */
  class ComponentSet<V> {
    var entToCom: seq<nat>
    var comToEnt: seq<Option<nat>>
    var slots: seq<Slot<V>>
    var freeHead: nat
    var backIndex: nat
    ghost var freeList: seq<nat>

    ghost function View(): Table<V>
      reads this
    {
      Table(entToCom, comToEnt, slots, freeHead, backIndex, freeList)
    }

    ghost predicate Valid()
      reads this
    {
      TInv(View())
    }

    constructor ()
      ensures Valid() && View() == Empty()
    {
      entToCom, comToEnt, slots := [], [], [];
      freeHead, backIndex := 0, 0;
      freeList := [];
    }

    /** `assign(e, v)` for an entity that has no component in the table (the database checks
        the entity's mask first). */
    method Assign(e: nat, v: V) returns (index: nat)
      requires Valid() && !Owns(View(), e)
      modifies this
      ensures Valid() && (View(), index) == Assigned(old(View()), e, v)
    {
      ghost var t := View();
      AssignedInv(t, e, v);
      if e >= |entToCom| {
        entToCom := entToCom + seq((e + 1) * 3 / 2 - |entToCom|, _ => 0);
      }
      assert entToCom == GrowEntMap(t.entToCom, e);
      index := freeHead;
      var bucket := index / BucketSize;
      if index == backIndex {
        if bucket == |slots| / BucketSize {
          slots := slots + seq(BucketSize, _ => Unset);
          comToEnt := comToEnt + seq(BucketSize, _ => None);
        }
        backIndex := backIndex + 1;
        freeHead := backIndex;
      } else {
        freeHead := slots[index].next;
        freeList := freeList[1..];
      }
      slots := slots[index := Occupied(v)];
      entToCom := entToCom[e := index];
      comToEnt := comToEnt[index := Some(e)];
      assert View() == Assigned(t, e, v).0;
    }

    /** `remove(e)` for an entity that has a component in the table. */
    method Remove(e: nat)
      requires Valid() && Owns(View(), e)
      modifies this
      ensures Valid() && View() == Removed(old(View()), e)
    {
      RemovedSpec(View(), e);
      var index := entToCom[e];
      slots := slots[index := Free(freeHead)];
      freeHead := index;
      freeList := [index] + freeList;
      comToEnt := comToEnt[index := None];
    }

    /** The assignment `get_com(c) = v` on a valid slot. */
    method Overwrite(c: nat, v: V)
      requires Valid() && c < |comToEnt| && IsValid(c)
      modifies this
      ensures Valid() && View() == Overwritten(old(View()), c, v)
    {
      OverwrittenSpec(View(), c, v);
      slots := slots[c := Occupied(v)];
    }

    /** `is_valid(c)`: slot `c` holds a component exactly when it is below the mark and not
        on the free list. */
    predicate IsValid(c: nat)
      reads this
      requires c < |comToEnt|
      ensures Valid() ==> (IsValid(c) <==> c < backIndex && c !in freeList)
    {
      comToEnt[c].Some?
    }

    /** `get_comid(e)`: for an entity in the table, a valid slot that it owns. */
    function GetComid(e: nat): (c: nat)
      reads this
      requires Valid() && Owns(View(), e)
      ensures c < Size() && c < |comToEnt| && IsValid(c) && GetEntid(c) == Some(e)
    {
      entToCom[e]
    }

    /** `get_entid(c)`: the owner of slot `c`, whose own entry leads back to `c`. */
    function GetEntid(c: nat): (r: Option<nat>)
      reads this
      requires Valid() && c < |comToEnt|
      ensures r.Some? <==> IsValid(c)
      ensures r.Some? ==> Owns(View(), r.value) && entToCom[r.value] == c
    {
      assert comToEnt[c].Some? ==> OwnedSlot(View(), c);
      comToEnt[c]
    }

    /** `get_com(c)`: the component in a valid slot. */
    function GetCom(c: nat): (v: V)
      reads this
      requires Valid() && c < |comToEnt| && IsValid(c)
      ensures slots[c] == Occupied(v)
    {
      assert OwnedSlot(View(), c);
      slots[c].value
    }

    /** `size()`: the high-water mark. Every slot at or above it is empty. */
    function Size(): (n: nat)
      reads this
      requires Valid()
      ensures n <= |comToEnt| && forall c :: n <= c < |comToEnt| ==> !IsValid(c)
    {
      backIndex
    }
  }
}
