/** The invariant tying signatures to pools: for every registered type and every live
    entity, the type's bit is set in the entity's signature exactly when the type's pool
    holds a value for the entity. */
module EntityConsistency {
  import opened Common
  import opened Errors
  import opened Signatures
  import opened EntityIds
  import opened EntityStore
  import CS = ComponentStore
  import Pools

  /** The central invariant, for live entities. */
  ghost predicate Agree<V>(em: EntityManager<V>) {
    forall k, e: nat ::
      (k in em.components.masks && k in em.components.pools && e < |em.signatures| && Live(em.ids, e)) ==>
      (Contains(em.signatures[e], em.components.masks[k]) <==>
       Pools.Occupied(em.components.pools[k], e))
  }

  /** Ids that are not live hold no component, so an id comes back from the free queue
      (or off the counter) empty-handed. */
  ghost predicate DeadEmpty<V>(em: EntityManager<V>) {
    forall k, e: nat :: k in em.components.pools && !Live(em.ids, e) ==>
      !Pools.Occupied(em.components.pools[k], e)
  }

  /** Live signatures only carry bits that some registered type owns. */
  ghost predicate InWindow<V>(em: EntityManager<V>) {
    && |em.components.masks| <= CS.MaxComponentTypes
    && forall e: nat :: e < |em.signatures| && Live(em.ids, e) ==>
         Contains(Window(|em.components.masks|), em.signatures[e])
  }

  ghost predicate Consistent<V>(em: EntityManager<V>) {
    && CS.Valid(em.components)
    && EntityIds.Valid(em.ids)
    && em.ids.next <= |em.signatures|
    && Agree(em)
    && DeadEmpty(em)
    && InWindow(em)
  }

  lemma NewIsConsistent<V>()
    ensures Consistent(EntityStore.New<V>())
  {
    CS.NewIsValid<V>();
  }

  /** Under the invariant, `has_component` on a live entity answers whether the type's
      pool holds a value for it. */
  lemma HasComponentMatchesPool<V>(em: EntityManager<V>, entity: EntityId, k: TypeKey)
    requires Consistent(em) && Live(em.ids, entity) && k in em.components.masks
    ensures CanQueryComponent(em, entity, k)
    ensures HasComponent(em, entity, k) == Ok(Pools.Occupied(em.components.pools[k], entity))
  {
  }

  /** `create_entity` keeps the invariant; the new entity is live and holds no component. */
  lemma CreateEntityPreservesConsistent<V>(em: EntityManager<V>)
    requires Consistent(em)
    ensures Consistent(CreateEntity(em).0)
    ensures Live(CreateEntity(em).0.ids, CreateEntity(em).1)
    ensures forall k :: k in em.components.masks ==>
              HasComponent(CreateEntity(em).0, CreateEntity(em).1, k) == Ok(false)
  {
    var r := CreateEntity(em);
    GetIdPreservesValid(em.ids);
    CreateEntityAgrees(em);
    CreateEntityKeepsWindow(em);
    CreateEntityKeepsDeadEmpty(em);
    forall k | k in em.components.masks
      ensures HasComponent(r.0, r.1, k) == Ok(false)
    {
      EmptyContainsNoBit(em.components.masks[k]);
    }
  }

  lemma CreateEntityAgrees<V>(em: EntityManager<V>)
    requires CS.Valid(em.components) && EntityIds.Valid(em.ids)
    requires em.ids.next <= |em.signatures| && Agree(em) && DeadEmpty(em)
    ensures Agree(CreateEntity(em).0)
  {
    var r := CreateEntity(em);
    var after, id := r.0, r.1;
    GetIdPreservesValid(em.ids);
    forall k, e: nat | k in after.components.masks && k in after.components.pools &&
                       e < |after.signatures| && Live(after.ids, e)
      ensures Contains(after.signatures[e], after.components.masks[k]) <==>
              Pools.Occupied(after.components.pools[k], e)
    {
      if e == id {
        EmptyContainsNoBit(em.components.masks[k]);
      } else {
        assert Live(em.ids, e);
      }
    }
  }

  lemma CreateEntityKeepsWindow<V>(em: EntityManager<V>)
    requires EntityIds.Valid(em.ids) && em.ids.next <= |em.signatures| && InWindow(em)
    ensures InWindow(CreateEntity(em).0)
  {
    var r := CreateEntity(em);
    GetIdPreservesValid(em.ids);
    forall e: nat | e < |r.0.signatures| && Live(r.0.ids, e)
      ensures Contains(Window(|em.components.masks|), r.0.signatures[e])
    {
      if e != r.1 {
        assert Live(em.ids, e);
      }
    }
  }

  lemma CreateEntityKeepsDeadEmpty<V>(em: EntityManager<V>)
    requires EntityIds.Valid(em.ids) && DeadEmpty(em)
    ensures DeadEmpty(CreateEntity(em).0)
  {
    GetIdPreservesValid(em.ids);
  }

  /** `remove_entity` of a live entity keeps the invariant, when it does not panic. */
  lemma RemoveEntityPreservesConsistent<V>(em: EntityManager<V>, entity: EntityId)
    requires Consistent(em) && Live(em.ids, entity) && CanRemoveEntity(em, entity)
    ensures Consistent(RemoveEntity(em, entity))
    ensures !Live(RemoveEntity(em, entity).ids, entity)
  {
    var after := RemoveEntity(em, entity);
    FreeIdPreservesValid(em.ids, entity);
    assert after.ids == FreeId(em.ids, entity);
    RemoveEntityAgrees(em, entity);
    RemoveEntityKeepsDeadEmpty(em, entity);
    assert CS.Valid(after.components);
  }

  lemma RemoveEntityAgrees<V>(em: EntityManager<V>, entity: EntityId)
    requires EntityIds.Valid(em.ids) && Live(em.ids, entity) && CanRemoveEntity(em, entity)
    requires Agree(em)
    ensures Agree(RemoveEntity(em, entity))
  {
    var after := RemoveEntity(em, entity);
    FreeIdPreservesValid(em.ids, entity);
    assert after.ids == FreeId(em.ids, entity);
    forall k, e: nat | k in after.components.masks && k in after.components.pools &&
                       e < |after.signatures| && Live(after.ids, e)
      ensures Contains(after.signatures[e], after.components.masks[k]) <==>
              Pools.Occupied(after.components.pools[k], e)
    {
      assert e < |em.components.pools[k]| ==> after.components.pools[k][e] == em.components.pools[k][e];
    }
  }

  lemma RemoveEntityKeepsDeadEmpty<V>(em: EntityManager<V>, entity: EntityId)
    requires EntityIds.Valid(em.ids) && Live(em.ids, entity) && CanRemoveEntity(em, entity)
    requires DeadEmpty(em)
    ensures DeadEmpty(RemoveEntity(em, entity))
  {
    var after := RemoveEntity(em, entity);
    FreeIdPreservesValid(em.ids, entity);
    assert after.ids == FreeId(em.ids, entity);
    forall k, e: nat | k in after.components.pools && !Live(after.ids, e)
      ensures !Pools.Occupied(after.components.pools[k], e)
    {
      if e != entity {
        assert !Live(em.ids, e);
        assert e < |em.components.pools[k]| ==> after.components.pools[k][e] == em.components.pools[k][e];
      }
    }
  }

  /** The effect of `add_component` on a live entity, stated without its definition, in
      three parts: the signatures, the masks and the pools. */
  ghost predicate SignatureAdded<V>(em: EntityManager<V>, after: EntityManager<V>, entity: EntityId, mk: bv32)
    requires entity < |em.signatures|
  {
    && after.ids == em.ids
    && |after.signatures| == |em.signatures|
    && after.signatures[entity] == em.signatures[entity] | mk
    && (forall j :: 0 <= j < |em.signatures| && j != entity ==> after.signatures[j] == em.signatures[j])
  }

  /** The type is registered afterwards; a new type took the next bit. */
  ghost predicate MaskAdded<V>(em: EntityManager<V>, after: EntityManager<V>, k: TypeKey) {
    && k in after.components.masks
    && (k in em.components.pools ==> after.components.masks == em.components.masks)
    && (k !in em.components.pools ==>
          && |em.components.masks| < CS.MaxComponentTypes
          && after.components.masks == em.components.masks[k := Bit(|em.components.masks|)])
  }

  /** The type's pool holds a value for the entity and otherwise the slots it held before;
      every other pool is untouched. */
  ghost predicate PoolAdded<V>(em: EntityManager<V>, after: EntityManager<V>, entity: EntityId, k: TypeKey) {
    && after.components.pools.Keys == em.components.pools.Keys + {k}
    && (forall k' :: k' in em.components.pools && k' != k ==>
          after.components.pools[k'] == em.components.pools[k'])
    && Pools.Occupied(after.components.pools[k], entity)
    && (forall j: nat :: j != entity ==>
          (Pools.Occupied(after.components.pools[k], j) <==>
           k in em.components.pools && Pools.Occupied(em.components.pools[k], j)))
  }

  lemma AddComponentAddsSignature<V>(em: EntityManager<V>, entity: EntityId, k: TypeKey, v: V)
    requires Live(em.ids, entity) && CanAddComponent(em, entity, k)
    ensures AddComponent(em, entity, k, v).1 == Ok(())
    ensures k in AddComponent(em, entity, k, v).0.components.masks
    ensures SignatureAdded(em, AddComponent(em, entity, k, v).0, entity,
                           AddComponent(em, entity, k, v).0.components.masks[k])
  {
  }

  lemma AddComponentAddsMask<V>(em: EntityManager<V>, entity: EntityId, k: TypeKey, v: V)
    requires CS.Valid(em.components) && CanAddComponent(em, entity, k)
    ensures MaskAdded(em, AddComponent(em, entity, k, v).0, k)
  {
    var cm := em.components;
    var after := CS.AddComponent(cm, entity, k, v).0;
    assert after.masks == CS.Register(cm, k).masks;
  }

  lemma AddComponentAddsPool<V>(em: EntityManager<V>, entity: EntityId, k: TypeKey, v: V)
    requires CanAddComponent(em, entity, k)
    ensures PoolAdded(em, AddComponent(em, entity, k, v).0, entity, k)
  {
    var cm := em.components;
    var pools := CS.AddComponent(cm, entity, k, v).0.pools;
    var before := CS.PoolBefore(cm, k);
    var pool := CS.Store(before, entity, v);
    assert pools == cm.pools[k := pool];
    forall j: nat | j != entity
      ensures Pools.Occupied(pool, j) <==> k in cm.pools && Pools.Occupied(cm.pools[k], j)
    {
      if j < |before| {
        assert pool[j] == before[j];
      }
    }
  }

  /** `add_component` on a live entity succeeds, keeps the invariant, and leaves the entity
      holding the type. */
  lemma AddComponentPreservesConsistent<V>(em: EntityManager<V>, entity: EntityId, k: TypeKey, v: V)
    requires Consistent(em) && Live(em.ids, entity) && CanAddComponent(em, entity, k)
    ensures AddComponent(em, entity, k, v).1 == Ok(())
    ensures Consistent(AddComponent(em, entity, k, v).0)
    ensures HasComponent(AddComponent(em, entity, k, v).0, entity, k) == Ok(true)
  {
    var after := AddComponent(em, entity, k, v).0;
    AddComponentKeepsConsistent(em, entity, k, v);
    AddComponentAddsSignature(em, entity, k, v);
    AddedTypeAgreesAtEntity(em, after, entity, k, after.components.masks[k]);
  }

  lemma AddComponentKeepsConsistent<V>(em: EntityManager<V>, entity: EntityId, k: TypeKey, v: V)
    requires Consistent(em) && Live(em.ids, entity) && CanAddComponent(em, entity, k)
    ensures Consistent(AddComponent(em, entity, k, v).0)
  {
    var after := AddComponent(em, entity, k, v).0;
    CS.AddComponentPreservesValid(em.components, entity, k, v);
    AddComponentAddsSignature(em, entity, k, v);
    AddComponentAddsMask(em, entity, k, v);
    AddComponentAddsPool(em, entity, k, v);
    var mk := after.components.masks[k];
    AddedKeepsWindow(em, after, entity, k, mk);
    AddedAgrees(em, after, entity, k, mk);
    AddedKeepsDeadEmpty(em, after, entity, k);
  }

  lemma AddedKeepsDeadEmpty<V>(em: EntityManager<V>, after: EntityManager<V>, entity: EntityId, k: TypeKey)
    requires DeadEmpty(em) && Live(em.ids, entity) && after.ids == em.ids
    requires PoolAdded(em, after, entity, k)
    ensures DeadEmpty(after)
  {
  }

  lemma AddedKeepsWindow<V>(em: EntityManager<V>, after: EntityManager<V>, entity: EntityId,
                            k: TypeKey, mk: bv32)
    requires CS.Valid(after.components) && InWindow(em) && entity < |em.signatures|
    requires MaskAdded(em, after, k) && mk == after.components.masks[k]
    requires SignatureAdded(em, after, entity, mk)
    ensures InWindow(after)
  {
    var n, n' := |em.components.masks|, |after.components.masks|;
    assert n' == n || n' == n + 1 by {
      if k !in em.components.pools {
        assert after.components.masks.Keys == em.components.masks.Keys + {k};
      }
    }
    WindowWidens(n, n');
    AddedSignaturesInWindow(em, after, entity, Window(n), Window(n'), mk);
  }

  lemma AddedSignaturesInWindow<V>(em: EntityManager<V>, after: EntityManager<V>, entity: EntityId,
                                   w: bv32, w': bv32, mk: bv32)
    requires entity < |em.signatures| && SignatureAdded(em, after, entity, mk)
    requires forall e: nat :: e < |em.signatures| && Live(em.ids, e) ==> Contains(w, em.signatures[e])
    requires Contains(w', w) && Contains(w', mk)
    ensures forall e: nat :: e < |after.signatures| && Live(after.ids, e) ==> Contains(w', after.signatures[e])
  {
    forall e: nat | e < |after.signatures| && Live(after.ids, e)
      ensures Contains(w', after.signatures[e])
    {
      SignatureStep(em, after, entity, mk, e);
      StaysInWindow(w, w', em.signatures[e], mk, after.signatures[e]);
    }
  }

  lemma SignatureStep<V>(em: EntityManager<V>, after: EntityManager<V>, entity: EntityId, mk: bv32, e: nat)
    requires entity < |em.signatures| && SignatureAdded(em, after, entity, mk) && e < |em.signatures|
    ensures after.signatures[e] == if e == entity then em.signatures[e] | mk else em.signatures[e]
  {
  }

  /** A signature inside the window of the first `n` types lacks the `n`-th type's bit. */
  lemma NewBitNotInWindow(n: nat, sig: bv32)
    requires n < 32 && Contains(Window(n), sig)
    ensures !Contains(sig, Bit(n))
  {
    WindowGrow(n, sig);
    BitFacts(n);
    DisjointNotContained(sig, Bit(n));
  }

  /** Registration leaves the window as it was or widens it. */
  lemma WindowWidens(n: nat, n': nat)
    requires n' == n <= 32 || n' == n + 1 <= 32
    ensures Contains(Window(n'), Window(n))
  {
    if n' != n {
      BitFacts(n);
    }
  }

  lemma StaysInWindow(w: bv32, w': bv32, sig: bv32, mk: bv32, sig': bv32)
    requires Contains(w', w) && Contains(w, sig) && Contains(w', mk)
    requires sig' == sig || sig' == sig | mk
    ensures Contains(w', sig')
  {
  }

  lemma AddedAgrees<V>(em: EntityManager<V>, after: EntityManager<V>, entity: EntityId,
                       k: TypeKey, mk: bv32)
    requires CS.Valid(em.components) && CS.Valid(after.components) && InWindow(em) && Agree(em)
    requires entity < |em.signatures| && Live(em.ids, entity)
    requires MaskAdded(em, after, k) && mk == after.components.masks[k]
    requires SignatureAdded(em, after, entity, mk) && PoolAdded(em, after, entity, k)
    ensures Agree(after)
  {
    forall k', e: nat | k' in after.components.masks && k' in after.components.pools &&
                        e < |after.signatures| && Live(after.ids, e)
      ensures Contains(after.signatures[e], after.components.masks[k']) <==>
              Pools.Occupied(after.components.pools[k'], e)
    {
      if k' == k && e == entity {
        AddedTypeAgreesAtEntity(em, after, entity, k, mk);
      } else if k' == k {
        AddedTypeAgreesElsewhere(em, after, entity, k, e, mk);
      } else if e == entity {
        CS.MasksDisjoint(after.components, k, k');
        OtherTypeKept(em, after, entity, k, k');
        OtherTypeAgreesAtEntity(em.signatures[e], after.signatures[e], mk, after.components.masks[k'],
                                Pools.Occupied(em.components.pools[k'], e),
                                Pools.Occupied(after.components.pools[k'], e));
      } else {
        OtherTypeAgreesElsewhere(em, after, entity, k, mk, k', e);
      }
    }
  }

  /** The entity now carries the added type's bit and a value in its pool. */
  lemma AddedTypeAgreesAtEntity<V>(em: EntityManager<V>, after: EntityManager<V>, entity: EntityId,
                                   k: TypeKey, mk: bv32)
    requires entity < |em.signatures| && SignatureAdded(em, after, entity, mk)
    requires k in after.components.pools && Pools.Occupied(after.components.pools[k], entity)
    ensures Contains(after.signatures[entity], mk) && Pools.Occupied(after.components.pools[k], entity)
  {
    SignatureStep(em, after, entity, mk, entity);
    OrSets(em.signatures[entity], mk);
  }

  /** Every other type keeps its pool, and its bit is untouched by OR-ing in the added one. */
  lemma OtherTypeAgreesAtEntity(sig: bv32, sig': bv32, mk: bv32, mk': bv32, occupied: bool, occupied': bool)
    requires sig' == sig | mk && mk & mk' == 0
    requires occupied' == occupied && (Contains(sig, mk') <==> occupied)
    ensures Contains(sig', mk') <==> occupied'
  {
    OrKeepsOthers(sig, mk, mk');
  }

  /** A type other than the added one keeps its mask and its pool. */
  lemma OtherTypeKept<V>(em: EntityManager<V>, after: EntityManager<V>, entity: EntityId,
                         k: TypeKey, k': TypeKey)
    requires MaskAdded(em, after, k) && PoolAdded(em, after, entity, k)
    requires k' in after.components.masks && k' in after.components.pools && k' != k
    ensures k' in em.components.masks && after.components.masks[k'] == em.components.masks[k']
    ensures k' in em.components.pools && after.components.pools[k'] == em.components.pools[k']
  {
  }

  lemma OtherTypeAgreesElsewhere<V>(em: EntityManager<V>, after: EntityManager<V>, entity: EntityId,
                                    k: TypeKey, mk: bv32, k': TypeKey, e: EntityId)
    requires Agree(em) && MaskAdded(em, after, k)
    requires entity < |em.signatures| && SignatureAdded(em, after, entity, mk)
    requires PoolAdded(em, after, entity, k)
    requires k' in after.components.masks && k' in after.components.pools && k' != k
    requires e < |em.signatures| && Live(em.ids, e) && e != entity
    ensures Contains(after.signatures[e], after.components.masks[k']) <==>
            Pools.Occupied(after.components.pools[k'], e)
  {
    assert k' in em.components.masks;
    SignatureStep(em, after, entity, mk, e);
  }

  /** Another live entity neither gains the added type's bit nor a value in its pool. */
  lemma AddedTypeAgreesElsewhere<V>(em: EntityManager<V>, after: EntityManager<V>, entity: EntityId,
                                    k: TypeKey, e: EntityId, mk: bv32)
    requires InWindow(em) && Agree(em)
    requires MaskAdded(em, after, k) && mk == after.components.masks[k]
    requires entity < |em.signatures| && SignatureAdded(em, after, entity, mk)
    requires PoolAdded(em, after, entity, k)
    requires Live(em.ids, e) && e != entity && e < |em.signatures|
    ensures Contains(after.signatures[e], mk) <==> Pools.Occupied(after.components.pools[k], e)
  {
    SignatureStep(em, after, entity, mk, e);
    if k !in em.components.pools {
      NewBitNotInWindow(|em.components.masks|, em.signatures[e]);
    }
  }

  /** `remove_component` and `remove_component_for_id` on a live entity succeed, keep the
      invariant, and leave the entity without the type. */
  lemma RemoveComponentPreservesConsistent<V>(em: EntityManager<V>, entity: EntityId, k: TypeKey)
    requires Consistent(em) && Live(em.ids, entity) && CanRemoveComponent(em, entity, k)
    ensures RemoveComponent(em, entity, k).1 == Ok(())
    ensures Consistent(RemoveComponent(em, entity, k).0)
    ensures HasComponent(RemoveComponent(em, entity, k).0, entity, k) == Ok(false)
    ensures RemoveComponentForId(em, entity, k).1 == Ok(())
    ensures Consistent(RemoveComponentForId(em, entity, k).0)
    ensures HasComponent(RemoveComponentForId(em, entity, k).0, entity, k) == Ok(false)
  {
    RemovedKeepsConsistent(em, RemoveComponent(em, entity, k).0, entity, k);
    RemovedKeepsConsistent(em, RemoveComponentForId(em, entity, k).0, entity, k);
  }

  lemma RemovedKeepsConsistent<V>(em: EntityManager<V>, after: EntityManager<V>, entity: EntityId, k: TypeKey)
    requires Consistent(em) && Live(em.ids, entity) && k in em.components.masks
    requires entity < |em.signatures| && ComponentRemoved(em, after, entity, k)
    ensures Consistent(after)
    ensures HasComponent(after, entity, k) == Ok(false)
  {
    RemovedKeepsWindow(em, after, entity, k);
    RemovedAgrees(em, after, entity, k);
    RemovedAnswersFalse(em, after, entity, k);
  }

  /** After the removal, `has_component` answers false for that type on that entity. */
  lemma RemovedAnswersFalse<V>(em: EntityManager<V>, after: EntityManager<V>, entity: EntityId, k: TypeKey)
    requires Consistent(em) && Live(em.ids, entity) && k in em.components.masks
    requires entity < |em.signatures| && ComponentRemoved(em, after, entity, k)
    ensures HasComponent(after, entity, k) == Ok(false)
  {
    var mk := em.components.masks[k];
    CS.MaskNonZero(em.components, k);
    RemovedSignatureStep(em, after, entity, k, entity);
    ClearRemoves(em.signatures[entity], mk);
  }

  lemma RemovedSignatureStep<V>(em: EntityManager<V>, after: EntityManager<V>, entity: EntityId,
                                k: TypeKey, e: nat)
    requires k in em.components.masks && entity < |em.signatures| && e < |em.signatures|
    requires ComponentRemoved(em, after, entity, k)
    ensures after.signatures[e] ==
              if e == entity then em.signatures[e] & !em.components.masks[k] else em.signatures[e]
  {
  }

  /** Whether a pool holds a value for `e` after the removal: only the cleared slot changed. */
  lemma RemovedSlot<V>(em: EntityManager<V>, after: EntityManager<V>, entity: EntityId,
                       k: TypeKey, k': TypeKey, e: nat)
    requires k in em.components.masks && k in em.components.pools && entity < |em.signatures|
    requires ComponentRemoved(em, after, entity, k) && k' in em.components.pools
    ensures k' in after.components.pools
    ensures Pools.Occupied(after.components.pools[k'], e) <==>
              !(k' == k && e == entity) && Pools.Occupied(em.components.pools[k'], e)
  {
    if k' == k && e != entity && e < |em.components.pools[k]| {
      assert after.components.pools[k][e] == em.components.pools[k][e];
    }
  }

  lemma RemovedKeepsWindow<V>(em: EntityManager<V>, after: EntityManager<V>, entity: EntityId, k: TypeKey)
    requires InWindow(em) && k in em.components.masks && entity < |em.signatures|
    requires ComponentRemoved(em, after, entity, k)
    ensures InWindow(after)
  {
    var mk := em.components.masks[k];
    RemovedClearsSignature(em, after, entity, k);
    ClearedSignaturesInWindow(em, after, entity, mk, Window(|em.components.masks|));
  }

  /** The signature half of a removal: the entity's signature loses `mk`, nothing else changes. */
  ghost predicate SignatureCleared<V>(em: EntityManager<V>, after: EntityManager<V>, entity: EntityId, mk: bv32)
    requires entity < |em.signatures|
  {
    && after.ids == em.ids
    && |after.signatures| == |em.signatures|
    && after.signatures[entity] == em.signatures[entity] & !mk
    && (forall j :: 0 <= j < |em.signatures| && j != entity ==> after.signatures[j] == em.signatures[j])
  }

  lemma RemovedClearsSignature<V>(em: EntityManager<V>, after: EntityManager<V>, entity: EntityId, k: TypeKey)
    requires k in em.components.masks && entity < |em.signatures|
    requires ComponentRemoved(em, after, entity, k)
    ensures SignatureCleared(em, after, entity, em.components.masks[k])
  {
  }

  lemma ClearedSignaturesInWindow<V>(em: EntityManager<V>, after: EntityManager<V>, entity: EntityId,
                                     mk: bv32, w: bv32)
    requires entity < |em.signatures| && SignatureCleared(em, after, entity, mk)
    requires forall e: nat :: e < |em.signatures| && Live(em.ids, e) ==> Contains(w, em.signatures[e])
    ensures forall e: nat :: e < |after.signatures| && Live(after.ids, e) ==> Contains(w, after.signatures[e])
  {
    forall e: nat | e < |after.signatures| && Live(after.ids, e)
      ensures Contains(w, after.signatures[e])
    {
      ClearedInWindowAt(em, after, entity, mk, w, e);
    }
  }

  lemma ClearedInWindowAt<V>(em: EntityManager<V>, after: EntityManager<V>, entity: EntityId,
                             mk: bv32, w: bv32, e: nat)
    requires entity < |em.signatures| && SignatureCleared(em, after, entity, mk)
    requires e < |em.signatures| && Contains(w, em.signatures[e])
    ensures Contains(w, after.signatures[e])
  {
    if e == entity {
      ClearWithin(w, em.signatures[e], mk);
    }
  }

  lemma ClearWithin(w: bv32, sig: bv32, mk: bv32)
    requires Contains(w, sig)
    ensures Contains(w, sig & !mk)
  {
  }

  lemma RemovedAgrees<V>(em: EntityManager<V>, after: EntityManager<V>, entity: EntityId, k: TypeKey)
    requires CS.Valid(em.components) && Agree(em) && k in em.components.masks
    requires entity < |em.signatures| && ComponentRemoved(em, after, entity, k)
    ensures Agree(after)
  {
    forall k', e: nat | k' in after.components.masks && k' in after.components.pools &&
                        e < |after.signatures| && Live(after.ids, e)
      ensures Contains(after.signatures[e], after.components.masks[k']) <==>
              Pools.Occupied(after.components.pools[k'], e)
    {
      RemovedAgreesAt(em, after, entity, k, k', e);
    }
  }

  /** One type's test on one entity after the removal: the removed type on the entity is
      gone from both sides; everything else is as it was, because the cleared bit is
      disjoint from every other type's mask. */
  lemma RemovedAgreesAt<V>(em: EntityManager<V>, after: EntityManager<V>, entity: EntityId,
                           k: TypeKey, k': TypeKey, e: nat)
    requires CS.Valid(em.components) && k in em.components.masks && k' in em.components.masks
    requires entity < |em.signatures| && ComponentRemoved(em, after, entity, k) && e < |em.signatures|
    requires Contains(em.signatures[e], em.components.masks[k']) <==>
             Pools.Occupied(em.components.pools[k'], e)
    ensures after.components.masks == em.components.masks && k' in after.components.pools
    ensures Contains(after.signatures[e], em.components.masks[k']) <==>
            Pools.Occupied(after.components.pools[k'], e)
  {
    if e != entity {
      RemovedAgreesElsewhere(em, after, entity, k, k', e);
    } else if k' == k {
      RemovedTypeGone(em, after, entity, k);
    } else {
      OtherTypeUntouched(em, after, entity, k, k');
    }
  }

  lemma RemovedAgreesElsewhere<V>(em: EntityManager<V>, after: EntityManager<V>, entity: EntityId,
                                  k: TypeKey, k': TypeKey, e: nat)
    requires CS.Valid(em.components) && k in em.components.masks && k' in em.components.masks
    requires entity < |em.signatures| && ComponentRemoved(em, after, entity, k)
    requires e < |em.signatures| && e != entity
    ensures after.components.masks == em.components.masks && k' in after.components.pools
    ensures after.signatures[e] == em.signatures[e]
    ensures Pools.Occupied(after.components.pools[k'], e) <==> Pools.Occupied(em.components.pools[k'], e)
  {
    RemovedSlot(em, after, entity, k, k', e);
  }

  /** The removed type on the entity: its bit is gone and so is its value. */
  lemma RemovedTypeGone<V>(em: EntityManager<V>, after: EntityManager<V>, entity: EntityId, k: TypeKey)
    requires CS.Valid(em.components) && k in em.components.masks
    requires entity < |em.signatures| && ComponentRemoved(em, after, entity, k)
    ensures after.components.masks == em.components.masks && k in after.components.pools
    ensures !Contains(after.signatures[entity], em.components.masks[k])
    ensures !Pools.Occupied(after.components.pools[k], entity)
  {
    CS.MaskNonZero(em.components, k);
    RemovedClearsSignature(em, after, entity, k);
    ClearedBitGone(em, after, entity, em.components.masks[k]);
  }

  lemma ClearedBitGone<V>(em: EntityManager<V>, after: EntityManager<V>, entity: EntityId, mk: bv32)
    requires entity < |em.signatures| && SignatureCleared(em, after, entity, mk) && mk != 0
    ensures !Contains(after.signatures[entity], mk)
  {
    ClearRemoves(em.signatures[entity], mk);
  }

  /** Another type on the entity: the cleared bit is disjoint from its mask and its pool is untouched. */
  lemma OtherTypeUntouched<V>(em: EntityManager<V>, after: EntityManager<V>, entity: EntityId,
                              k: TypeKey, k': TypeKey)
    requires CS.Valid(em.components) && k in em.components.masks && k' in em.components.masks && k' != k
    requires entity < |em.signatures| && ComponentRemoved(em, after, entity, k)
    ensures after.components.masks == em.components.masks && k' in after.components.pools
    ensures Contains(after.signatures[entity], em.components.masks[k']) <==>
            Contains(em.signatures[entity], em.components.masks[k'])
    ensures after.components.pools[k'] == em.components.pools[k']
  {
    CS.MasksDisjoint(em.components, k, k');
    RemovedClearsSignature(em, after, entity, k);
  }
}
