/** The type-id registry: every component type gets a numeric id on first use.
    The source keeps the counter in a function-local static; here it is an explicit
    registry object, and its abstract state is the value `Registry`. */
module TypeGuid {

  /** A type as the registry sees it. `tag<T>` is a type of its own, distinct from `T`;
      `VoidKey` stands for `void`, the component type the visitor assigns to an
      entity-id parameter, which is registered like any other. */
  datatype TypeKey = Named(name: string) | TagOf(name: string) | VoidKey

  /** The ids handed out so far and the counter: `last` is the last id handed out. */
  datatype Registry = Registry(ids: map<TypeKey, nat>, last: nat)

  const EmptyRegistry: Registry := Registry(map[], 0)

  /** Every id lies in 1..last and no two types share one. */
  ghost predicate Wf(r: Registry) {
    (forall k :: k in r.ids ==> 1 <= r.ids[k] <= r.last) &&
    (forall k1, k2 :: k1 in r.ids && k2 in r.ids && k1 != k2 ==> r.ids[k1] != r.ids[k2])
  }

  /** `get_type_guid<T>()`: the id of `k`, taking the next counter value if `k` is new. */
  function Register(r: Registry, k: TypeKey): (res: (Registry, nat))
    requires Wf(r)
    ensures Wf(res.0)
    ensures k in res.0.ids && res.0.ids[k] == res.1 && res.1 >= 1
    ensures forall k' :: k' in r.ids ==> k' in res.0.ids && res.0.ids[k'] == r.ids[k']
    ensures k in r.ids ==> res.0 == r
    ensures k !in r.ids ==> forall k' :: k' in r.ids ==> r.ids[k'] < res.1
    ensures k !in r.ids ==> res.1 == r.last + 1 && res.0.last == res.1
    ensures r.last <= res.0.last
  {
    if k in r.ids then (r, r.ids[k])
    else (Registry(r.ids[k := r.last + 1], r.last + 1), r.last + 1)
  }

  /** The first type registered gets id 1. */
  lemma FirstGuidIsOne(k: TypeKey)
    ensures Register(EmptyRegistry, k).1 == 1
  {
  }

  /** Registering the keys of `ks` in order, as the visitor does for its parameter list. */
  function RegisterAll(r: Registry, ks: seq<TypeKey>): (res: (Registry, seq<nat>))
    requires Wf(r)
    ensures Wf(res.0) && |res.1| == |ks|
    ensures forall i :: 0 <= i < |ks| ==> ks[i] in res.0.ids && res.0.ids[ks[i]] == res.1[i]
    ensures forall k :: k in r.ids ==> k in res.0.ids && res.0.ids[k] == r.ids[k]
    ensures forall k :: k in res.0.ids && k !in r.ids ==> res.0.ids[k] > r.last
    ensures r.last <= res.0.last
    decreases |ks|
  {
    if ks == [] then (r, [])
    else
      var first := Register(r, ks[0]);
      var rest := RegisterAll(first.0, ks[1..]);
      var gs := [first.1] + rest.1;
      IdsCons(ks, first.1, rest.1, rest.0.ids);
      (rest.0, gs)
  }

  /** The ids of `ks` in `m` are `[g] + gs` when the head's id is `g` and the tail's are `gs`. */
  lemma IdsCons(ks: seq<TypeKey>, g: nat, gs: seq<nat>, m: map<TypeKey, nat>)
    requires ks != [] && |gs| == |ks| - 1 && ks[0] in m && m[ks[0]] == g
    requires forall i :: 0 <= i < |ks[1..]| ==> ks[1..][i] in m && m[ks[1..][i]] == gs[i]
    ensures forall i :: 0 <= i < |ks| ==> ks[i] in m && m[ks[i]] == ([g] + gs)[i]
  {
    forall i | 1 <= i < |ks| ensures ks[i] in m && m[ks[i]] == ([g] + gs)[i] {
      assert ks[i] == ks[1..][i - 1];
    }
  }

  /** The registry object shared by every database that must agree on type ids. */
  class TypeRegistry {
    var ids: map<TypeKey, nat>
    /** The counter of `get_next_type_guid`. */
    var last: nat

    ghost function View(): Registry
      reads this
    {
      Registry(ids, last)
    }

    ghost predicate Valid()
      reads this
    {
      Wf(View())
    }

    constructor ()
      ensures Valid() && View() == EmptyRegistry
    {
      ids, last := map[], 0;
    }

    /** `get_next_type_guid`: pre-increments the counter, so the first id is 1. */
    method NextGuid() returns (g: nat)
      modifies this`last
      ensures last == old(last) + 1 && g == last
    {
      last := last + 1;
      g := last;
    }

    /** `get_type_guid<T>`: the first call for a type fixes its id for good. */
    method GuidOf(k: TypeKey) returns (g: nat)
      requires Valid()
      modifies this
      ensures Valid()
      ensures (View(), g) == Register(old(View()), k)
    {
      if k in ids {
        g := ids[k];
      } else {
        g := NextGuid();
        ids := ids[k := g];
      }
    }

    /** The ids of the visitor's parameter types, `{get_type_guid<com_t<Coms>>()...}`: one
        call per parameter, in order. */
    method GuidsOf(ks: seq<TypeKey>) returns (gs: seq<nat>)
      requires Valid()
      modifies this
      ensures Valid()
      ensures (View(), gs) == RegisterAll(old(View()), ks)
      decreases |ks|
    {
      if ks == [] {
        gs := [];
      } else {
        var first := GuidOf(ks[0]);
        var rest := GuidsOf(ks[1..]);
        gs := [first] + rest;
      }
    }
  }
}
