/** Queries: a required signature built up one component type at a time, the ids whose
    signature carries all of it, and the typed pool lookup. */
module Queries {
  import opened Common
  import opened Errors
  import opened Signatures
  import opened EntityIds
  import CS = ComponentStore
  import Pools
  import EntityStore
  import EntityConsistency

  datatype EntityQuery = EntityQuery(required: bv32)

  /** `Query::entities`: a query that requires nothing, so every signature meets it. */
  function Entities(): (q: EntityQuery)
    ensures forall sig: bv32 :: Contains(sig, q.required)
  {
    ContainsNothingAll();
    EntityQuery(0)
  }

  /** `EntityQuery::with_component`: the type's mask joins the requirement, so a signature
      meets the new query exactly when it meets the old one and carries the type.
      An unregistered type makes `get_mask` fail and the `unwrap` panic. */
  function WithComponent<V>(cm: CS.ComponentManager<V>, q: EntityQuery, k: TypeKey): (r: EntityQuery)
    requires k in cm.masks
    ensures forall sig: bv32 :: Contains(sig, r.required) <==>
              Contains(sig, q.required) && Contains(sig, cm.masks[k])
  {
    EntityQuery(Require(q.required, CS.GetMask(cm, k).value))
  }

  /** Chaining `with_component` does not depend on the order of the types. */
  lemma WithComponentCommutes<V>(cm: CS.ComponentManager<V>, q: EntityQuery, a: TypeKey, b: TypeKey)
    requires a in cm.masks && b in cm.masks
    ensures WithComponent(cm, WithComponent(cm, q, a), b) == WithComponent(cm, WithComponent(cm, q, b), a)
  {
  }

  /** Asking for the same type twice is asking once. */
  lemma WithComponentIdempotent<V>(cm: CS.ComponentManager<V>, q: EntityQuery, k: TypeKey)
    requires k in cm.masks
    ensures WithComponent(cm, WithComponent(cm, q, k), k) == WithComponent(cm, q, k)
  {
  }

  /** The ids `0 .. |sigs| - 1` whose signature meets `required`, in ascending order. */
  function Matching(sigs: seq<bv32>, required: bv32): (r: seq<EntityId>)
    ensures forall i: nat :: i in r <==> i < |sigs| && Contains(sigs[i], required)
    ensures forall a :: 0 <= a < |r| ==> r[a] < |sigs|
    ensures forall a, b :: 0 <= a < b < |r| ==> r[a] < r[b]
    decreases |sigs|
  {
    if sigs == [] then []
    else
      var n := |sigs| - 1;
      var prefix := sigs[..n];
      assert forall i :: 0 <= i < n ==> prefix[i] == sigs[i];
      Matching(prefix, required) + (if Contains(sigs[n], required) then [n] else [])
  }

  /** `EntityQuery::get`: walks the signature array once, keeping the ids that match. */
  method Get<V>(em: EntityStore.EntityManager<V>, q: EntityQuery) returns (r: seq<EntityId>)
    ensures r == Matching(em.signatures, q.required)
  {
    var sigs := em.signatures;
    r := [];
    var i := 0;
    while i < |sigs|
      invariant 0 <= i <= |sigs|
      invariant r == Matching(sigs[..i], q.required)
    {
      MatchingStep(sigs, i, q.required);
      if Contains(sigs[i], q.required) {
        r := r + [i];
      }
      i := i + 1;
    }
    assert sigs[..i] == sigs;
  }

  /** Scanning one more slot appends that slot when it matches. */
  lemma MatchingStep(sigs: seq<bv32>, i: nat, required: bv32)
    requires i < |sigs|
    ensures Matching(sigs[..i + 1], required) ==
              Matching(sigs[..i], required) + (if Contains(sigs[i], required) then [i] else [])
  {
    assert sigs[..i + 1][..i] == sigs[..i];
  }

  /** With nothing required, every slot of the signature array matches, in order. */
  lemma {:induction false} MatchingNothingIsEverySlot(sigs: seq<bv32>)
    ensures Matching(sigs, 0) == Range(0, |sigs|)
    decreases |sigs|
  {
    if sigs != [] {
      var n := |sigs| - 1;
      MatchingNothingIsEverySlot(sigs[..n]);
      ContainsNothing(sigs[n]);
      assert Range(0, n) + [n] == Range(0, n + 1);
    }
  }

  /** `entities().get()` therefore reports ids that are not live: freed ids and the padding
      slots past the counter. */
  lemma EmptyQueryReportsDeadSlots<V>(em: EntityStore.EntityManager<V>, i: EntityId)
    requires i < |em.signatures| && !Live(em.ids, i)
    ensures i in Matching(em.signatures, Entities().required)
  {
  }

  /** Under the entity manager's invariant, a one-type query picks out, among live ids,
      exactly those whose pool for the type holds a value. */
  lemma OneTypeQueryFindsHolders<V>(em: EntityStore.EntityManager<V>, k: TypeKey, e: EntityId)
    requires EntityConsistency.Consistent(em) && k in em.components.masks && Live(em.ids, e)
    ensures e in Matching(em.signatures, WithComponent(em.components, Entities(), k).required) <==>
            Pools.Occupied(em.components.pools[k], e)
  {
  }

  /** `ComponentQuery::get` (and `get_mut`): the type's pool; an unregistered type makes
      `get_components` fail and the `unwrap` panic. */
  function Components<V>(cm: CS.ComponentManager<V>, k: TypeKey): (p: Pools.CompPool<V>)
    requires k in cm.pools
    ensures CS.GetComponents(cm, k) == Ok(p)
  {
    CS.GetComponents(cm, k).value
  }
}
