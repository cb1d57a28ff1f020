/** The entity manager: the id allocator, one signature per entity slot, and the component
    manager, kept in step. */
module EntityStore {
  import opened Common
  import opened Errors
  import opened Signatures
  import opened EntityIds
  import CS = ComponentStore
  import Pools

  datatype EntityManager<V> = EntityManager(
    ids: IdGenerator,
    signatures: seq<bv32>,
    components: CS.ComponentManager<V>)

  /** How far past a fresh id the signature array grows when the id does not fit. */
  const SignatureHeadroom: nat := 10

  function New<V>(): (em: EntityManager<V>)
    ensures em.ids == EntityIds.New() && em.signatures == [] && em.components == CS.New()
    ensures forall k :: CS.GetMask(em.components, k).Err?
  {
    EntityManager(EntityIds.New(), [], CS.New())
  }

  function Zeros(n: nat): (r: seq<bv32>)
    ensures |r| == n && forall i :: 0 <= i < n ==> r[i] == 0
  {
    seq(n, _ => 0)
  }

  /** `create_entity`: draws an id and gives it an empty signature, growing the array to
      ten slots past the id when the id does not fit. */
  function CreateEntity<V>(em: EntityManager<V>): (r: (EntityManager<V>, EntityId))
    ensures (r.0.ids, r.1) == GetId(em.ids)
    ensures r.1 < |r.0.signatures| && r.0.signatures[r.1] == 0
    ensures |r.0.signatures| == if r.1 < |em.signatures| then |em.signatures| else r.1 + SignatureHeadroom
    ensures forall j :: 0 <= j < |em.signatures| && j != r.1 ==> r.0.signatures[j] == em.signatures[j]
    ensures forall j :: |em.signatures| <= j < |r.0.signatures| ==> r.0.signatures[j] == 0
    ensures r.0.components == em.components
  {
    var drawn := GetId(em.ids);
    var id := drawn.1;
    var signatures :=
      if id >= |em.signatures| then em.signatures + Zeros(id + SignatureHeadroom - |em.signatures|)
      else em.signatures[id := 0];
    (EntityManager(drawn.0, signatures, em.components), id)
  }

  /** `remove_entity` indexes the signature array and every pool without a bounds check. */
  predicate CanRemoveEntity<V>(em: EntityManager<V>, entity: EntityId) {
    entity < |em.signatures| && CS.CanRemoveAll(em.components, entity)
  }

  /** `remove_entity`: zeroes the signature, empties the entity's slot in every pool and
      queues the id for reuse. */
  function RemoveEntity<V>(em: EntityManager<V>, entity: EntityId): (r: EntityManager<V>)
    requires CanRemoveEntity(em, entity)
    ensures |r.signatures| == |em.signatures| && r.signatures[entity] == 0
    ensures forall j :: 0 <= j < |em.signatures| && j != entity ==> r.signatures[j] == em.signatures[j]
    ensures r.components.masks == em.components.masks
    ensures r.components.pools.Keys == em.components.pools.Keys
    ensures forall k :: k in r.components.pools ==>
              |r.components.pools[k]| == |em.components.pools[k]| &&
              !Pools.Occupied(r.components.pools[k], entity)
    ensures forall k, j :: k in r.components.pools && 0 <= j < |r.components.pools[k]| && j != entity ==>
              r.components.pools[k][j] == em.components.pools[k][j]
    ensures r.ids.next == em.ids.next && r.ids.freed == em.ids.freed + [entity]
  {
    EntityManager(FreeId(em.ids, entity), em.signatures[entity := 0],
                  CS.RemoveAll(em.components, entity))
  }

  /** `add_component` panics when the component manager does (see `CS.CanAddComponent`) or
      when an id it accepts lies past the signature array. */
  predicate CanAddComponent<V>(em: EntityManager<V>, entity: EntityId, k: TypeKey) {
    && CS.CanAddComponent(em.components, k)
    && (IsIdUsed(em.ids, entity) ==> entity < |em.signatures|)
  }

  /** `add_component`: stores the value first, then rejects an unused id; an accepted id
      has the type's mask OR-ed into its signature. */
  function AddComponent<V>(em: EntityManager<V>, entity: EntityId, k: TypeKey, v: V)
    : (r: (EntityManager<V>, Result<()>))
    requires CanAddComponent(em, entity, k)
    ensures r.1.Ok? <==> IsIdUsed(em.ids, entity)
    ensures r.1.Err? ==> r.1.error == EntityDoesNotExist(entity) && r.0.signatures == em.signatures
    ensures r.0.components == CS.AddComponent(em.components, entity, k, v).0
    ensures k in r.0.components.pools && r.0.components.pools[k][entity] == Some(v)
    ensures r.1.Ok? ==> |r.0.signatures| == |em.signatures|
    ensures r.1.Ok? ==> r.0.signatures[entity] == em.signatures[entity] | r.0.components.masks[k]
    ensures forall j :: 0 <= j < |em.signatures| && j != entity ==> r.0.signatures[j] == em.signatures[j]
    ensures r.0.ids == em.ids
  {
    var added := CS.AddComponent(em.components, entity, k, v);
    if !IsIdUsed(em.ids, entity) then
      (em.(components := added.0), Err(EntityDoesNotExist(entity)))
    else
      (em.(components := added.0,
           signatures := em.signatures[entity := em.signatures[entity] | added.1]),
       Ok(()))
  }

  /** `remove_component` and `remove_component_for_id` panic on a used id when the type
      has no mask, when the id lies past the signature array, or when it lies past the
      type's pool. */
  predicate CanRemoveComponent<V>(em: EntityManager<V>, entity: EntityId, k: TypeKey) {
    IsIdUsed(em.ids, entity) ==>
      && k in em.components.masks
      && entity < |em.signatures|
      && (k in em.components.pools ==> entity < |em.components.pools[k]|)
  }

  /** What both removals leave behind on a used id: the type's bit cleared in the entity's
      signature, the pool slot emptied, and nothing else changed. */
  ghost predicate ComponentRemoved<V>(em: EntityManager<V>, after: EntityManager<V>,
                                      entity: EntityId, k: TypeKey)
    requires k in em.components.masks && entity < |em.signatures|
  {
    && after.ids == em.ids
    && |after.signatures| == |em.signatures|
    && after.signatures[entity] == em.signatures[entity] & !em.components.masks[k]
    && (forall j :: 0 <= j < |em.signatures| && j != entity ==> after.signatures[j] == em.signatures[j])
    && (k in em.components.pools ==> CS.Cleared(em.components, after.components, entity, k))
    && (k !in em.components.pools ==> after.components == em.components)
  }

  /** `remove_component<T>`: rejects an unused id without touching anything; otherwise clears
      the type's bit and then its pool slot, ignoring the component manager's missing-pool
      error. */
  function RemoveComponent<V>(em: EntityManager<V>, entity: EntityId, k: TypeKey)
    : (r: (EntityManager<V>, Result<()>))
    requires CanRemoveComponent(em, entity, k)
    ensures r.1.Ok? <==> IsIdUsed(em.ids, entity)
    ensures r.1.Err? ==> r.1.error == EntityDoesNotExist(entity) && r.0 == em
    ensures r.1.Ok? ==> ComponentRemoved(em, r.0, entity, k)
  {
    if !IsIdUsed(em.ids, entity) then (em, Err(EntityDoesNotExist(entity)))
    else
      var mask := CS.GetMask(em.components, k).value;
      var components := match CS.Remove(em.components, entity, k)
                        case Ok(c) => c
                        case Err(_) => em.components;
      (em.(signatures := em.signatures[entity := em.signatures[entity] & !mask],
           components := components),
       Ok(()))
  }

  /** `remove_component_for_id`: as `remove_component<T>`, through the dynamically keyed
      lookups of the component manager. */
  function RemoveComponentForId<V>(em: EntityManager<V>, entity: EntityId, k: TypeKey)
    : (r: (EntityManager<V>, Result<()>))
    requires CanRemoveComponent(em, entity, k)
    ensures r.1.Ok? <==> IsIdUsed(em.ids, entity)
    ensures r.1.Err? ==> r.1.error == EntityDoesNotExist(entity) && r.0 == em
    ensures r.1.Ok? ==> ComponentRemoved(em, r.0, entity, k)
  {
    if !IsIdUsed(em.ids, entity) then (em, Err(EntityDoesNotExist(entity)))
    else
      var mask := CS.GetMaskForId(em.components, k).value;
      var components := match CS.RemoveWithId(em.components, entity, k)
                        case Ok(c) => c
                        case Err(_) => em.components;
      (em.(signatures := em.signatures[entity := em.signatures[entity] & !mask],
           components := components),
       Ok(()))
  }

  /** `has_component` unwraps the type's mask and the entity's signature on a used id. */
  predicate CanQueryComponent<V>(em: EntityManager<V>, entity: EntityId, k: TypeKey) {
    IsIdUsed(em.ids, entity) ==> k in em.components.masks && entity < |em.signatures|
  }

  /** `has_component`: whether the entity's signature carries all of the type's mask. */
  function HasComponent<V>(em: EntityManager<V>, entity: EntityId, k: TypeKey): (r: Result<bool>)
    requires CanQueryComponent(em, entity, k)
    ensures r.Ok? <==> IsIdUsed(em.ids, entity)
    ensures r.Err? ==> r.error == EntityDoesNotExist(entity)
    ensures r.Ok? ==> (r.value <==> Contains(em.signatures[entity], em.components.masks[k]))
  {
    if !IsIdUsed(em.ids, entity) then Err(EntityDoesNotExist(entity))
    else
      var mask := CS.GetMask(em.components, k).value;
      Ok(Contains(em.signatures[entity], mask))
  }

  /** `get_signature`: the entity's signature, for a used id inside the array. */
  function GetSignature<V>(em: EntityManager<V>, entity: EntityId): (r: Result<bv32>)
    requires IsIdUsed(em.ids, entity) ==> entity < |em.signatures|
    ensures r.Ok? <==> IsIdUsed(em.ids, entity)
    ensures r.Err? ==> r.error == EntityDoesNotExist(entity)
    ensures r.Ok? ==> r.value == em.signatures[entity]
  {
    if !IsIdUsed(em.ids, entity) then Err(EntityDoesNotExist(entity))
    else Ok(em.signatures[entity])
  }

  /** `get_component_signatures`: a copy of the type-to-mask map. */
  function ComponentSignatures<V>(em: EntityManager<V>): (r: map<TypeKey, bv32>)
    ensures forall k :: k in r <==> CS.GetMask(em.components, k).Ok?
    ensures forall k :: k in r ==> CS.GetMask(em.components, k) == Ok(r[k])
  {
    em.components.masks
  }
}
