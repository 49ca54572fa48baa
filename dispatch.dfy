/** The visitor's parameter list and the rules the source derives from it at compile time:
    each parameter's category (`component_traits`), the primary component (`get_primary`)
    and the per-entity match (`visitor_key::check`). */
module Dispatch {
  import opened Wrappers
  import opened TypeGuid
  import opened Bitsets

  /** A visitor parameter: `T`, `tag<T>`, `require<X>`, `deny<X>`, `optional<X>` or `ent_id`,
      where `X` is a data type (`Named`) or a tag type (`TagOf`). */
  datatype Param =
    | Data(name: string)
    | Tag(name: string)
    | Require(of: TypeKey)
    | Deny(of: TypeKey)
    | Optional(of: TypeKey)
    | EntityId

  /** The category tags of `component_tags`. */
  datatype Category = Normal | NoLoad | Tagged | OptionalCat | Eid | Inverted

  /** `component_traits<P>::category`. */
  function CategoryOf(p: Param): Category {
    match p
    case Data(_) => Normal
    case Tag(_) => Tagged
    case Require(_) => NoLoad
    case Deny(_) => Inverted
    case Optional(_) => OptionalCat
    case EntityId => Eid
  }

  /** `component_traits<P>::component`: the type whose id the visitor registers for `p`;
      `void` for `ent_id`. */
  function ComponentKey(p: Param): TypeKey {
    match p
    case Data(n) => Named(n)
    case Tag(n) => TagOf(n)
    case Require(k) => k
    case Deny(k) => k
    case Optional(k) => k
    case EntityId => VoidKey
  }

  /** The keys the visitor registers, one per parameter, in order (`visitor_key::guids`). */
  function Keys(ps: seq<Param>): (ks: seq<TypeKey>)
    ensures |ks| == |ps| && forall i :: 0 <= i < |ps| ==> ks[i] == ComponentKey(ps[i])
  {
    seq(|ps|, i requires 0 <= i < |ps| => ComponentKey(ps[i]))
  }

  /** `get_primary`: the position of the first parameter of category `normal`, if any. */
  function PrimaryIndex(ps: seq<Param>): (r: Option<nat>)
    ensures r.Some? ==> r.value < |ps| && CategoryOf(ps[r.value]) == Normal &&
                        forall j :: 0 <= j < r.value ==> CategoryOf(ps[j]) != Normal
    ensures r.None? ==> forall j :: 0 <= j < |ps| ==> CategoryOf(ps[j]) != Normal
    decreases |ps|
  {
    if ps == [] then None
    else if CategoryOf(ps[0]) == Normal then Some(0)
    else match PrimaryIndex(ps[1..])
      case None => None
      case Some(i) => Some(i + 1)
  }

  /** The primary component type: the type of the first data parameter, or `void`. */
  function PrimaryKey(ps: seq<Param>): (k: TypeKey)
    ensures k == VoidKey <==> PrimaryIndex(ps).None?
  {
    match PrimaryIndex(ps)
    case None => VoidKey
    case Some(i) => ComponentKey(ps[i])
  }

  /** Parameter lists the source accepts: `require`, `deny` and `optional` wrap a data or tag
      type, and `optional<T>` of the primary type `T` does not compile (the value would be
      built through an explicit constructor). */
  predicate WellFormed(ps: seq<Param>) {
    forall i :: 0 <= i < |ps| ==>
      (ps[i].Require? || ps[i].Deny? || ps[i].Optional? ==> ps[i].of != VoidKey) &&
      (ps[i].Optional? ==> ps[i].of != PrimaryKey(ps))
  }

  /** The check of one parameter against an entity's mask, where `guid` is the id of the
      parameter's component type: a positive condition is skipped for the primary type, a
      deny on the primary type fails, and `optional` and `ent_id` always pass. */
  function CheckParam(p: Param, guid: nat, primary: TypeKey, mask: seq<bool>): bool {
    match CategoryOf(p)
    case Normal => ComponentKey(p) == primary || BitAt(mask, guid)
    case NoLoad => ComponentKey(p) == primary || BitAt(mask, guid)
    case Tagged => ComponentKey(p) == primary || BitAt(mask, guid)
    case Inverted => ComponentKey(p) != primary && !BitAt(mask, guid)
    case OptionalCat => true
    case Eid => true
  }

  /** `visitor_key::check`: the conjunction of the parameters' checks, in order. */
  function Matches(ps: seq<Param>, guids: seq<nat>, primary: TypeKey, mask: seq<bool>): bool
    requires |guids| == |ps|
    decreases |ps|
  {
    ps == [] || (CheckParam(ps[0], guids[0], primary, mask) && Matches(ps[1..], guids[1..], primary, mask))
  }

  /** The parameter asks for its component to be present: `T`, `tag<T>`, `require<T>`. */
  predicate Demands(p: Param) {
    p.Data? || p.Tag? || p.Require?
  }

  /** The matching rule as the documentation of `visit` states it: the entity has every
      data, tag and required component and none of the denied ones. */
  predicate SemanticMatch(ps: seq<Param>, guids: seq<nat>, mask: seq<bool>)
    requires |guids| == |ps|
  {
    forall i :: 0 <= i < |ps| ==>
      (Demands(ps[i]) ==> BitAt(mask, guids[i])) && (ps[i].Deny? ==> !BitAt(mask, guids[i]))
  }

  /** The fold is the conjunction over every parameter. */
  lemma {:induction false} MatchesAll(ps: seq<Param>, guids: seq<nat>, primary: TypeKey, mask: seq<bool>)
    requires |guids| == |ps|
    ensures Matches(ps, guids, primary, mask) <==>
      forall i :: 0 <= i < |ps| ==> CheckParam(ps[i], guids[i], primary, mask)
    decreases |ps|
  {
    if ps != [] {
      MatchesAll(ps[1..], guids[1..], primary, mask);
      assert forall i :: 1 <= i < |ps| ==> ps[1..][i - 1] == ps[i] && guids[1..][i - 1] == guids[i];
    }
  }

  /** The check of a concatenated list is the conjunction of the checks of its parts. */
  lemma {:induction false} MatchesAppend(a: seq<Param>, b: seq<Param>, ga: seq<nat>, gb: seq<nat>,
                                          primary: TypeKey, mask: seq<bool>)
    requires |ga| == |a| && |gb| == |b|
    ensures Matches(a + b, ga + gb, primary, mask) ==
            (Matches(a, ga, primary, mask) && Matches(b, gb, primary, mask))
    decreases |a|
  {
    if a == [] {
      assert a + b == b && ga + gb == gb;
    } else {
      MatchesAppend(a[1..], b, ga[1..], gb, primary, mask);
      assert (a + b)[1..] == a[1..] + b && (ga + gb)[1..] == ga[1..] + gb;
    }
  }

  /** `optional` and `ent_id` parameters never exclude an entity: removing one from the list,
      wherever it stands, does not change the outcome. */
  lemma MetaNeverExcludes(a: seq<Param>, p: Param, b: seq<Param>, ga: seq<nat>, g: nat,
                          gb: seq<nat>, primary: TypeKey, mask: seq<bool>)
    requires |ga| == |a| && |gb| == |b| && (p.Optional? || p.EntityId?)
    ensures Matches(a + [p] + b, ga + [g] + gb, primary, mask) == Matches(a + b, ga + gb, primary, mask)
  {
    MatchesAppend(a + [p], b, ga + [g], gb, primary, mask);
    MatchesAppend(a, [p], ga, [g], primary, mask);
    MatchesAppend(a, b, ga, gb, primary, mask);
    assert [p][1..] == [] && [g][1..] == [];
  }

  /** A `deny` on the primary type matches no entity at all. */
  lemma DenyPrimaryMatchesNothing(ps: seq<Param>, guids: seq<nat>, mask: seq<bool>, i: nat)
    requires |guids| == |ps| && i < |ps| && ps[i].Deny? && ps[i].of == PrimaryKey(ps)
    requires PrimaryKey(ps) != VoidKey
    ensures !Matches(ps, guids, PrimaryKey(ps), mask)
  {
    MatchesAll(ps, guids, PrimaryKey(ps), mask);
    assert !CheckParam(ps[i], guids[i], PrimaryKey(ps), mask);
  }

  /** Entities reached through the primary table carry the primary component. For them the
      check, which skips the primary's own conditions, agrees with the documented rule. */
  lemma PrimaryMatchIsSemantic(ps: seq<Param>, guids: seq<nat>, mask: seq<bool>)
    requires |guids| == |ps| && PrimaryKey(ps) != VoidKey
    requires forall i :: 0 <= i < |ps| && ComponentKey(ps[i]) == PrimaryKey(ps) ==> BitAt(mask, guids[i])
    ensures Matches(ps, guids, PrimaryKey(ps), mask) <==> SemanticMatch(ps, guids, mask)
  {
    var pk := PrimaryKey(ps);
    var pi := PrimaryIndex(ps).value;
    MatchesAll(ps, guids, pk, mask);
    if Matches(ps, guids, pk, mask) {
      forall i | 0 <= i < |ps|
        ensures (Demands(ps[i]) ==> BitAt(mask, guids[i])) && (ps[i].Deny? ==> !BitAt(mask, guids[i]))
      {
        assert CheckParam(ps[i], guids[i], pk, mask);
      }
    }
    if SemanticMatch(ps, guids, mask) {
      forall i | 0 <= i < |ps| ensures CheckParam(ps[i], guids[i], pk, mask) {
      }
    }
  }

  /** Without a data parameter nothing is skipped: the check is the documented rule. */
  lemma VoidMatchIsSemantic(ps: seq<Param>, guids: seq<nat>, mask: seq<bool>)
    requires |guids| == |ps| && WellFormed(ps) && PrimaryKey(ps) == VoidKey
    ensures Matches(ps, guids, VoidKey, mask) <==> SemanticMatch(ps, guids, mask)
  {
    MatchesAll(ps, guids, VoidKey, mask);
    forall i | 0 <= i < |ps|
      ensures CheckParam(ps[i], guids[i], VoidKey, mask) <==>
        (Demands(ps[i]) ==> BitAt(mask, guids[i])) && (ps[i].Deny? ==> !BitAt(mask, guids[i]))
    {
      assert CategoryOf(ps[i]) != Normal;
    }
  }

  /** Only a data parameter can become primary, and a list with one always has a primary. */
  lemma PrimaryIsData(ps: seq<Param>)
    ensures PrimaryKey(ps) != VoidKey <==> exists i :: 0 <= i < |ps| && ps[i].Data?
    ensures PrimaryKey(ps) != VoidKey ==>
      PrimaryKey(ps).Named? &&
      exists i :: 0 <= i < |ps| && ps[i] == Data(PrimaryKey(ps).name) &&
                  forall j :: 0 <= j < i ==> !ps[j].Data?
  {
    match PrimaryIndex(ps)
    case None =>
    case Some(i) =>
      assert ps[i].Data?;
  }
}
