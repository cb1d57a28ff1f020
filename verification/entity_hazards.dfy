/** Where the entity manager, as written, lets the invariant of `EntityConsistency` go:
    each lemma starts from a consistent state and names the call that breaks it. */
module EntityHazards {
  import opened Common
  import opened Errors
  import opened Signatures
  import opened EntityIds
  import opened EntityStore
  import opened EntityConsistency
  import CS = ComponentStore
  import Pools

  /** `is_id_used` admits the counter, so `add_component` accepts a component for an id
      that was never handed out: the call succeeds, the component is stored, and the dead
      id now holds a value. */
  lemma CounterIdAcceptsComponent<V>(em: EntityManager<V>, k: TypeKey, v: V)
    requires Consistent(em) && em.ids.next < |em.signatures|
    requires CS.CanAddComponent(em.components, k)
    ensures !Live(em.ids, em.ids.next) && CanAddComponent(em, em.ids.next, k)
    ensures AddComponent(em, em.ids.next, k, v).1 == Ok(())
    ensures !DeadEmpty(AddComponent(em, em.ids.next, k, v).0)
  {
    var id := em.ids.next;
    IsIdUsedAdmitsCounter(em.ids, id);
    var after := AddComponent(em, id, k, v).0;
    assert Pools.Occupied(after.components.pools[k], id);
  }

  /** The id then comes off the counter with a zero signature but still holding the stored
      component: `has_component` says no while the pool says yes. */
  lemma StaleComponentOnReissue<V>(em: EntityManager<V>, k: TypeKey, v: V)
    requires Consistent(em) && em.ids.freed == [] && em.ids.next < |em.signatures|
    requires CS.CanAddComponent(em.components, k)
    ensures CanAddComponent(em, em.ids.next, k)
    ensures var created := CreateEntity(AddComponent(em, em.ids.next, k, v).0);
            && created.1 == em.ids.next
            && Live(created.0.ids, created.1)
            && CanQueryComponent(created.0, created.1, k)
            && HasComponent(created.0, created.1, k) == Ok(false)
            && Pools.Occupied(created.0.components.pools[k], created.1)
            && !Agree(created.0)
  {
    var id := em.ids.next;
    IsIdUsedAdmitsCounter(em.ids, id);
    var added := AddComponent(em, id, k, v).0;
    CS.AddComponentPreservesValid(em.components, id, k, v);
    CS.MaskNonZero(added.components, k);
    var created := CreateEntity(added);
    EmptyContainsNoBit(added.components.masks[k]);
    assert Pools.Occupied(created.0.components.pools[k], id);
  }

  /** `add_component` writes the pool before it checks the id, so a component sent to a
      freed id is rejected and stored all the same. */
  lemma FreedIdKeepsComponent<V>(em: EntityManager<V>, entity: EntityId, k: TypeKey, v: V)
    requires Consistent(em) && entity in em.ids.freed && CanAddComponent(em, entity, k)
    ensures !Live(em.ids, entity)
    ensures AddComponent(em, entity, k, v).1 == Err(EntityDoesNotExist(entity))
    ensures !DeadEmpty(AddComponent(em, entity, k, v).0)
  {
    var after := AddComponent(em, entity, k, v).0;
    assert Pools.Occupied(after.components.pools[k], entity);
  }

  /** A type's first pool has 30 slots, and `remove_all` indexes every pool, so once a type
      is registered through an entity below 30, removing any entity at 30 or above panics. */
  lemma NewPoolBlocksRemoval<V>(em: EntityManager<V>, entity: EntityId, k: TypeKey, v: V, other: EntityId)
    requires CanAddComponent(em, entity, k) && k !in em.components.pools
    requires entity < CS.InitialPoolSize <= other
    ensures k in AddComponent(em, entity, k, v).0.components.pools
    ensures |AddComponent(em, entity, k, v).0.components.pools[k]| == CS.InitialPoolSize
    ensures !CanRemoveEntity(AddComponent(em, entity, k, v).0, other)
  {
  }

  /** `remove_entity` never checks the id, so removing an entity twice queues its id twice
      and the next two `create_entity` calls both hand it out. */
  lemma DoubleRemoveReissuesTwice<V>(em: EntityManager<V>, entity: EntityId)
    requires CanRemoveEntity(em, entity) && em.ids.freed == []
    ensures CanRemoveEntity(RemoveEntity(em, entity), entity)
    ensures var twice := RemoveEntity(RemoveEntity(em, entity), entity);
            var first := CreateEntity(twice);
            first.1 == entity && CreateEntity(first.0).1 == entity
  {
    var once := RemoveEntity(em, entity);
    assert CanRemoveEntity(once, entity);
    var twice := RemoveEntity(once, entity);
    assert twice.ids.freed == [entity, entity];
  }
}
