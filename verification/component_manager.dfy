/** The component manager: one pool per registered component type, and the one-bit mask
    each type receives when it is first used. */
module ComponentStore {
  import opened Common
  import opened Errors
  import opened Signatures
  import Pools

  datatype ComponentManager<V> = ComponentManager(
    pools: map<TypeKey, Pools.CompPool<V>>,
    masks: map<TypeKey, bv32>)

  /** Number of empty slots a pool starts with when its type is first registered. */
  const InitialPoolSize: nat := 30

  /** Signatures are `u32`, so at most this many types can own a bit. */
  const MaxComponentTypes: nat := 32

  function Max(a: nat, b: nat): (m: nat) { if a < b then b else a }

  function New<V>(): (cm: ComponentManager<V>)
    ensures cm.pools == map[] && cm.masks == map[]
    ensures forall k :: GetMask(cm, k).Err? && GetComponents(cm, k).Err?
  {
    ComponentManager(map[], map[])
  }

  /** What registration keeps true: pools and masks cover the same types, and the masks are
      distinct single bits inside the window of the first `|masks|` bits. */
  ghost predicate Valid<V>(cm: ComponentManager<V>) {
    cm.pools.Keys == cm.masks.Keys && MasksValid(cm.masks)
  }

  ghost predicate MasksValid(masks: map<TypeKey, bv32>) {
    && |masks| <= MaxComponentTypes
    && (forall k :: k in masks ==> IsSingleBit(masks[k]) && Contains(Window(|masks|), masks[k]))
    && (forall a, b :: a in masks && b in masks && a != b ==> masks[a] != masks[b])
  }

  /** `add_component` can run to completion: a type already holding a pool also holds a
      mask (else the final `unwrap` panics), and a new type still finds a free bit (the
      source has no guard: `1 << 32` overflows a `u32`). */
  predicate CanAddComponent<V>(cm: ComponentManager<V>, k: TypeKey) {
    if k in cm.pools then k in cm.masks else |cm.masks| < MaxComponentTypes
  }

  /** The pool `add_component` works on: the existing one, or a fresh 30-slot pool. */
  function PoolBefore<V>(cm: ComponentManager<V>, k: TypeKey): (p: Pools.CompPool<V>) {
    if k in cm.pools then cm.pools[k] else Pools.New(InitialPoolSize)
  }

  /** The registration step of `add_component`: a type seen for the first time gets a fresh
      30-slot pool and the next free bit, `1 << (types already registered)`. */
  function Register<V>(cm: ComponentManager<V>, k: TypeKey): (r: ComponentManager<V>)
    requires CanAddComponent(cm, k)
    ensures k in cm.pools ==> r == cm
    ensures k !in cm.pools ==> r.masks == cm.masks[k := Bit(|cm.masks|)]
    ensures k !in cm.pools ==> r.pools == cm.pools[k := Pools.New(InitialPoolSize)]
  {
    if k in cm.pools then cm
    else ComponentManager(cm.pools[k := Pools.New(InitialPoolSize)], cm.masks[k := Bit(|cm.masks|)])
  }

  /** The storing step of `add_component`: grow the pool to cover the entity, then `set`. */
  function Store<V>(pool: Pools.CompPool<V>, entity: EntityId, v: V): (r: Pools.CompPool<V>)
    ensures |r| == Max(|pool|, entity + 1)
    ensures r[entity] == Some(v)
    ensures forall j :: 0 <= j < |pool| && j != entity ==> r[j] == pool[j]
    ensures forall j :: |pool| <= j < |r| && j != entity ==> r[j] == None
  {
    var grown := if |pool| <= entity then Pools.Resize(pool, entity + 1) else pool;
    Pools.Set(grown, entity, v).value
  }

  /** `add_component`: registers the type on first use, grows its pool to cover the entity,
      stores the value, and returns the type's mask. */
  function AddComponent<V>(cm: ComponentManager<V>, entity: EntityId, k: TypeKey, v: V)
    : (r: (ComponentManager<V>, bv32))
    requires CanAddComponent(cm, k)
    ensures r.0.masks == Register(cm, k).masks && r.1 == r.0.masks[k]
    ensures r.0.pools == cm.pools[k := Store(PoolBefore(cm, k), entity, v)]
  {
    var registered := Register(cm, k);
    (registered.(pools := registered.pools[k := Store(registered.pools[k], entity, v)]),
     registered.masks[k])
  }

  /** `after` is `before` with slot `entity` of type `k`'s pool emptied and nothing else changed. */
  ghost predicate Cleared<V>(before: ComponentManager<V>, after: ComponentManager<V>,
                             entity: EntityId, k: TypeKey)
  {
    && after.masks == before.masks
    && after.pools.Keys == before.pools.Keys
    && k in after.pools
    && |after.pools[k]| == |before.pools[k]|
    && !Pools.Occupied(after.pools[k], entity)
    && (forall j :: 0 <= j < |before.pools[k]| && j != entity ==> after.pools[k][j] == before.pools[k][j])
    && (forall k' :: k' in before.pools && k' != k ==> after.pools[k'] == before.pools[k'])
  }

  /** `remove<T>`: an unregistered type is an error; a registered one has its slot emptied,
      and an entity past the pool's end makes the inner `unwrap` panic. */
  function Remove<V>(cm: ComponentManager<V>, entity: EntityId, k: TypeKey)
    : (r: Result<ComponentManager<V>>)
    requires k in cm.pools ==> entity < |cm.pools[k]|
    ensures r.Err? <==> k !in cm.pools
    ensures r.Err? ==> r.error == ComponentMissing(k)
    ensures r.Ok? ==> Cleared(cm, r.value, entity, k)
  {
    if k in cm.pools then
      Ok(cm.(pools := cm.pools[k := Pools.Remove(cm.pools[k], entity).value]))
    else
      Err(ComponentMissing(k))
  }

  /** `remove_with_id`: as `remove<T>` but keyed dynamically, so the error names no type,
      and the slot is emptied by the unchecked `remove_any`. */
  function RemoveWithId<V>(cm: ComponentManager<V>, entity: EntityId, k: TypeKey)
    : (r: Result<ComponentManager<V>>)
    requires k in cm.pools ==> entity < |cm.pools[k]|
    ensures r.Err? <==> k !in cm.pools
    ensures r.Err? ==> r.error == ComponentDoesNotExist(UnknownComponent)
    ensures r.Ok? ==> Cleared(cm, r.value, entity, k)
  {
    if k in cm.pools then
      Ok(cm.(pools := cm.pools[k := Pools.RemoveAny(cm.pools[k], entity)]))
    else
      Err(ComponentDoesNotExist(UnknownComponent))
  }

  /** `remove_all` indexes every pool without a bounds check. */
  predicate CanRemoveAll<V>(cm: ComponentManager<V>, entity: EntityId) {
    forall k :: k in cm.pools ==> entity < |cm.pools[k]|
  }

  /** `remove_all`: empties the entity's slot in every pool and touches nothing else. */
  function RemoveAll<V>(cm: ComponentManager<V>, entity: EntityId): (r: ComponentManager<V>)
    requires CanRemoveAll(cm, entity)
    ensures r.masks == cm.masks && r.pools.Keys == cm.pools.Keys
    ensures forall k :: k in cm.pools ==>
              |r.pools[k]| == |cm.pools[k]| && !Pools.Occupied(r.pools[k], entity)
    ensures forall k, j :: k in cm.pools && 0 <= j < |cm.pools[k]| && j != entity ==>
              r.pools[k][j] == cm.pools[k][j]
  {
    cm.(pools := map k | k in cm.pools :: Pools.RemoveAny(cm.pools[k], entity))
  }

  /** `get_components` (and `get_components_mut`, which differs only in the borrow). */
  function GetComponents<V>(cm: ComponentManager<V>, k: TypeKey): (r: Result<Pools.CompPool<V>>)
    ensures r.Ok? <==> k in cm.pools
    ensures r.Ok? ==> r.value == cm.pools[k]
    ensures r.Err? ==> r.error == ComponentMissing(k)
  {
    if k in cm.pools then Ok(cm.pools[k]) else Err(ComponentMissing(k))
  }

  /** `get_mask<T>`. */
  function GetMask<V>(cm: ComponentManager<V>, k: TypeKey): (r: Result<bv32>)
    ensures r.Ok? <==> k in cm.masks
    ensures r.Ok? ==> r.value == cm.masks[k]
    ensures r.Err? ==> r.error == ComponentMissing(k)
  {
    if k in cm.masks then Ok(cm.masks[k]) else Err(ComponentMissing(k))
  }

  /** `get_mask_for_id`: as `get_mask<T>` but keyed dynamically. */
  function GetMaskForId<V>(cm: ComponentManager<V>, k: TypeKey): (r: Result<bv32>)
    ensures r.Ok? <==> k in cm.masks
    ensures r.Ok? ==> r.value == cm.masks[k]
    ensures r.Err? ==> r.error == ComponentDoesNotExist(UnknownComponent)
  {
    if k in cm.masks then Ok(cm.masks[k]) else Err(ComponentDoesNotExist(UnknownComponent))
  }

  lemma NewIsValid<V>()
    ensures Valid(New<V>())
  {
  }

  /** Registration keeps the masks distinct single bits, as long as a bit is left. */
  lemma AddComponentPreservesValid<V>(cm: ComponentManager<V>, entity: EntityId, k: TypeKey, v: V)
    requires Valid(cm) && CanAddComponent(cm, k)
    ensures Valid(AddComponent(cm, entity, k, v).0)
    ensures |AddComponent(cm, entity, k, v).0.masks| == |cm.masks| + (if k in cm.masks then 0 else 1)
  {
    var registered := Register(cm, k);
    RegisterPreservesValid(cm, k);
    assert AddComponent(cm, entity, k, v).0.pools.Keys == registered.pools.Keys;
  }

  lemma RegisterPreservesValid<V>(cm: ComponentManager<V>, k: TypeKey)
    requires Valid(cm) && CanAddComponent(cm, k)
    ensures Valid(Register(cm, k))
    ensures |Register(cm, k).masks| == |cm.masks| + (if k in cm.masks then 0 else 1)
  {
    if k !in cm.masks {
      var n := |cm.masks|;
      NewBitKeepsMasksValid(cm.masks, k, n, Register(cm, k).masks);
    }
  }

  /** Adding the next bit `1 << n` under a new key keeps `n + 1` masks distinct single bits. */
  lemma NewBitKeepsMasksValid(masks: map<TypeKey, bv32>, k: TypeKey, n: nat, after: map<TypeKey, bv32>)
    requires MasksValid(masks) && n == |masks| < MaxComponentTypes
    requires k !in masks && after == masks[k := Bit(n)]
    ensures MasksValid(after) && |after| == n + 1
  {
    assert after.Keys == masks.Keys + {k};
    BitFacts(n);
    forall a | a in after
      ensures IsSingleBit(after[a]) && Contains(Window(n + 1), after[a])
      ensures a != k ==> after[a] != Bit(n)
    {
      if a != k {
        WindowGrow(n, masks[a]);
      }
    }
  }

  /** Two different registered types never share a bit. */
  lemma MasksDisjoint<V>(cm: ComponentManager<V>, a: TypeKey, b: TypeKey)
    requires Valid(cm) && a in cm.masks && b in cm.masks && a != b
    ensures cm.masks[a] & cm.masks[b] == 0
  {
    SingleBitsDisjoint(cm.masks[a], cm.masks[b]);
  }

  /** A registered type's mask has a bit to test. */
  lemma MaskNonZero<V>(cm: ComponentManager<V>, k: TypeKey)
    requires Valid(cm) && k in cm.masks
    ensures cm.masks[k] != 0
  {
  }

  /** After `add_component`, `get_mask` yields the mask it returned and the pool yields the value. */
  lemma AddThenGet<V>(cm: ComponentManager<V>, entity: EntityId, k: TypeKey, v: V)
    requires CanAddComponent(cm, k)
    ensures GetMask(AddComponent(cm, entity, k, v).0, k) == Ok(AddComponent(cm, entity, k, v).1)
    ensures GetComponents(AddComponent(cm, entity, k, v).0, k).Ok?
    ensures Pools.Get(GetComponents(AddComponent(cm, entity, k, v).0, k).value, entity) == Ok(v)
  {
  }
}
