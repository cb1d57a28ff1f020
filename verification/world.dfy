/** The world: the entity manager, the registered systems, resources, events, and the two
    queues through which entities join and leave systems on `update`. */
module Worlds {
  import opened Common
  import opened Errors
  import opened Signatures
  import opened EntityIds
  import EM = EntityStore
  import CS = ComponentStore
  import Sys = Systems
  import Cmd = Commands
  import Res = ResourceStore
  import Ev = Events
  import Queries
  import EC = EntityConsistency
  import CE = CommandEffects
  import Pools

  /** Systems are keyed by the type of their action. */
  datatype World<V, R> = World(
    entities: EM.EntityManager<V>,
    systems: map<TypeKey, Sys.GameSystem>,
    resources: Res.Resources<R>,
    toAdd: set<EntityId>,
    toRemove: set<EntityId>,
    current: Option<EntityId>,
    events: Ev.WorldEvents)

  function New<V, R>(): (w: World<V, R>)
    ensures w.entities == EM.New() && w.systems == map[] && w.toAdd == {} && w.toRemove == {}
    ensures w.current == None && w.resources == Res.New() && w.events == Ev.New()
  {
    World(EM.New(), map[], Res.New(), {}, {}, None, Ev.New())
  }

  /** A system takes an entity whose signature carries everything the system requires. */
  predicate Matches(s: Sys.GameSystem, sig: bv32) {
    Contains(sig, s.signature)
  }

  // ---------------------------------------------------------------------------------
  // Building entities

  /** `create_entity`: draws an id, makes it the current entity and queues it for the
      systems; no system changes until `update`. */
  function CreateEntity<V, R>(w: World<V, R>): (r: World<V, R>)
    ensures (r.entities, r.current) == (EM.CreateEntity(w.entities).0, Some(EM.CreateEntity(w.entities).1))
    ensures r.toAdd == w.toAdd + {r.current.value}
    ensures r.systems == w.systems && r.toRemove == w.toRemove
    ensures r.resources == w.resources && r.events == w.events
  {
    var created := EM.CreateEntity(w.entities);
    w.(entities := created.0, current := Some(created.1), toAdd := w.toAdd + {created.1})
  }

  /** `World::add_component`: the entity manager's call, whose error is unwrapped. */
  predicate CanAddComponent<V, R>(w: World<V, R>, entity: EntityId, k: TypeKey) {
    EM.CanAddComponent(w.entities, entity, k) && IsIdUsed(w.entities.ids, entity)
  }

  function AddComponent<V, R>(w: World<V, R>, entity: EntityId, k: TypeKey, v: V): (r: World<V, R>)
    requires CanAddComponent(w, entity, k)
    ensures EM.AddComponent(w.entities, entity, k, v) == (r.entities, Ok(()))
    ensures r.systems == w.systems && r.toAdd == w.toAdd && r.toRemove == w.toRemove
    ensures r.resources == w.resources && r.events == w.events && r.current == w.current
  {
    w.(entities := EM.AddComponent(w.entities, entity, k, v).0)
  }

  /** `with_component`: adds to the current entity; with no current entity the `unwrap`
      panics. */
  function WithComponent<V, R>(w: World<V, R>, k: TypeKey, v: V): (r: World<V, R>)
    requires w.current.Some? && CanAddComponent(w, w.current.value, k)
    ensures EM.AddComponent(w.entities, w.current.value, k, v) == (r.entities, Ok(()))
    ensures r.current == w.current && r.systems == w.systems && r.toAdd == w.toAdd
    ensures r.toRemove == w.toRemove && r.resources == w.resources && r.events == w.events
  {
    AddComponent(w, w.current.value, k, v)
  }

  /** `finish_entity`: the current entity, which stays current. */
  function FinishEntity<V, R>(w: World<V, R>): (e: EntityId)
    requires w.current.Some?
    ensures w.current == Some(e)
  {
    w.current.value
  }

  /** `World::remove_component<T>`: the entity manager's call, whose error is unwrapped. */
  predicate CanRemoveComponent<V, R>(w: World<V, R>, entity: EntityId, k: TypeKey) {
    EM.CanRemoveComponent(w.entities, entity, k) && IsIdUsed(w.entities.ids, entity)
  }

  function RemoveComponent<V, R>(w: World<V, R>, entity: EntityId, k: TypeKey): (r: World<V, R>)
    requires CanRemoveComponent(w, entity, k)
    ensures EM.RemoveComponent(w.entities, entity, k) == (r.entities, Ok(()))
    ensures r.systems == w.systems && r.toAdd == w.toAdd && r.toRemove == w.toRemove
    ensures r.resources == w.resources && r.events == w.events && r.current == w.current
  {
    w.(entities := EM.RemoveComponent(w.entities, entity, k).0)
  }

  /** `remove_component_with_id`: the dynamically keyed removal, its error discarded. */
  function RemoveComponentWithId<V, R>(w: World<V, R>, entity: EntityId, k: TypeKey): (r: World<V, R>)
    requires EM.CanRemoveComponent(w.entities, entity, k)
    ensures r.entities == EM.RemoveComponentForId(w.entities, entity, k).0
    ensures r.systems == w.systems && r.toAdd == w.toAdd && r.toRemove == w.toRemove
    ensures r.resources == w.resources && r.events == w.events && r.current == w.current
    ensures !IsIdUsed(w.entities.ids, entity) ==> r == w
  {
    w.(entities := EM.RemoveComponentForId(w.entities, entity, k).0)
  }

  /** `World::has_component`: the entity manager's answer, unwrapped. */
  function HasComponent<V, R>(w: World<V, R>, entity: EntityId, k: TypeKey): (b: bool)
    requires EM.CanQueryComponent(w.entities, entity, k) && IsIdUsed(w.entities.ids, entity)
    ensures EM.HasComponent(w.entities, entity, k) == Ok(b)
  {
    EM.HasComponent(w.entities, entity, k).value
  }

  /** `remove_entity`: only queues the id; the entity stays as it is until `update`. */
  function RemoveEntity<V, R>(w: World<V, R>, entity: EntityId): (r: World<V, R>)
    ensures r.toRemove == w.toRemove + {entity}
    ensures r.entities == w.entities && r.systems == w.systems && r.toAdd == w.toAdd
    ensures r.resources == w.resources && r.events == w.events && r.current == w.current
  {
    w.(toRemove := w.toRemove + {entity})
  }

  // ---------------------------------------------------------------------------------
  // update: joining systems

  /** `get_signature(..).unwrap()` and the indexing behind it succeed. */
  predicate HasSignature<V>(em: EM.EntityManager<V>, entity: EntityId) {
    IsIdUsed(em.ids, entity) && entity < |em.signatures|
  }

  /** `add_entity_to_systems`: every system the entity's signature satisfies appends it. */
  function AddEntityToSystems<V, R>(w: World<V, R>, entity: EntityId): (r: World<V, R>)
    requires HasSignature(w.entities, entity)
    ensures r.systems == JoinMatching(w.systems, entity, w.entities.signatures[entity])
    ensures r.entities == w.entities && r.toAdd == w.toAdd && r.toRemove == w.toRemove
    ensures r.resources == w.resources && r.events == w.events && r.current == w.current
  {
    w.(systems := JoinMatching(w.systems, entity, EM.GetSignature(w.entities, entity).value))
  }

  /** The systems after `entity`, with signature `sig`, joins those it satisfies. */
  function JoinMatching(systems: map<TypeKey, Sys.GameSystem>, entity: EntityId, sig: bv32)
    : (r: map<TypeKey, Sys.GameSystem>)
    ensures r.Keys == systems.Keys
    ensures forall key :: key in systems ==>
              r[key] == if Matches(systems[key], sig) then Sys.AddEntity(systems[key], entity)
                        else systems[key]
  {
    map key | key in systems ::
      if Matches(systems[key], sig) then Sys.AddEntity(systems[key], entity) else systems[key]
  }

  predicate AllHaveSignatures<V>(em: EM.EntityManager<V>, order: seq<EntityId>) {
    forall i :: 0 <= i < |order| ==> HasSignature(em, order[i])
  }

  /** The add phase of `update`: the queued entities join systems one after another, in the
      order the set yields them. Joining changes no signature, so each entity is judged by
      the signature it has when the phase starts. */
  function AddAll<V, R>(w: World<V, R>, order: seq<EntityId>): (r: World<V, R>)
    requires AllHaveSignatures(w.entities, order)
    ensures r.entities == w.entities && r.toAdd == w.toAdd && r.toRemove == w.toRemove
    ensures r.resources == w.resources && r.events == w.events && r.current == w.current
    ensures r.systems == JoinAll(w.systems, w.entities.signatures, order)
    decreases |order|
  {
    if order == [] then w else AddAll(AddEntityToSystems(w, order[0]), order[1..])
  }

  function JoinAll(systems: map<TypeKey, Sys.GameSystem>, sigs: seq<bv32>, order: seq<EntityId>)
    : (r: map<TypeKey, Sys.GameSystem>)
    requires forall i :: 0 <= i < |order| ==> order[i] < |sigs|
    ensures r.Keys == systems.Keys
    decreases |order|
  {
    if order == [] then systems
    else JoinAll(JoinMatching(systems, order[0], sigs[order[0]]), sigs, order[1..])
  }

  /** The ids of `order` whose signature meets `required`, in order. */
  function Joining(required: bv32, sigs: seq<bv32>, order: seq<EntityId>): (joined: seq<EntityId>)
    requires forall i :: 0 <= i < |order| ==> order[i] < |sigs|
    decreases |order|
  {
    if order == [] then []
    else (if Contains(sigs[order[0]], required) then [order[0]] else []) + Joining(required, sigs, order[1..])
  }

  /** After the add phase each system's list is its old list followed by the queued ids it
      matches, in the order they were taken from the queue; its signature stays. */
  lemma {:induction false} JoinAllAppendsMatching(systems: map<TypeKey, Sys.GameSystem>, sigs: seq<bv32>,
                                                  order: seq<EntityId>, key: TypeKey)
    requires forall i :: 0 <= i < |order| ==> order[i] < |sigs|
    requires key in systems
    ensures key in JoinAll(systems, sigs, order)
    ensures JoinAll(systems, sigs, order)[key].signature == systems[key].signature
    ensures JoinAll(systems, sigs, order)[key].entities ==
              systems[key].entities + Joining(systems[key].signature, sigs, order)
    decreases |order|
  {
    if order != [] {
      var s := systems[key];
      var next, head := JoinAllStep(systems, sigs, order, key);
      JoinAllAppendsMatching(next, sigs, order[1..], key);
      var tail := Joining(s.signature, sigs, order[1..]);
      AppendAssoc(s.entities, head, tail);
    }
  }

  /** One step of the join phase: the first queued entity joins, and the rest follow. */
  lemma JoinAllStep(systems: map<TypeKey, Sys.GameSystem>, sigs: seq<bv32>, order: seq<EntityId>,
                    key: TypeKey)
    returns (next: map<TypeKey, Sys.GameSystem>, head: seq<EntityId>)
    requires order != [] && forall i :: 0 <= i < |order| ==> order[i] < |sigs|
    requires key in systems
    ensures forall i :: 0 <= i < |order[1..]| ==> order[1..][i] < |sigs|
    ensures JoinAll(systems, sigs, order) == JoinAll(next, sigs, order[1..])
    ensures key in next && next[key].signature == systems[key].signature
    ensures next[key].entities == systems[key].entities + head
    ensures Joining(systems[key].signature, sigs, order) ==
              head + Joining(systems[key].signature, sigs, order[1..])
  {
    next := JoinMatching(systems, order[0], sigs[order[0]]);
    head := JoinStep(systems, order[0], sigs[order[0]], key);
  }

  /** One entity joining: the system under `key` gains `head`, the entity or nothing. */
  lemma JoinStep(systems: map<TypeKey, Sys.GameSystem>, entity: EntityId, sig: bv32, key: TypeKey)
    returns (head: seq<EntityId>)
    requires key in systems
    ensures head == if Contains(sig, systems[key].signature) then [entity] else []
    ensures JoinMatching(systems, entity, sig)[key].entities == systems[key].entities + head
    ensures JoinMatching(systems, entity, sig)[key].signature == systems[key].signature
  {
    head := if Contains(sig, systems[key].signature) then [entity] else [];
  }

  lemma {:induction false} JoiningMembers(s: Sys.GameSystem, sigs: seq<bv32>, order: seq<EntityId>)
    requires forall i :: 0 <= i < |order| ==> order[i] < |sigs|
    ensures forall x :: x in Joining(s.signature, sigs, order) <==> x in order && Matches(s, sigs[x])
    decreases |order|
  {
    if order != [] {
      JoiningMembers(s, sigs, order[1..]);
    }
  }

  // ---------------------------------------------------------------------------------
  // update: leaving systems

  /** `kill_entity` unwraps the entity's signature and then removes it from the entity
      manager, which indexes every pool. */
  predicate CanKill<V>(em: EM.EntityManager<V>, entity: EntityId) {
    HasSignature(em, entity) && EM.CanRemoveEntity(em, entity)
  }

  /** `kill_entity`: the systems the entity's current signature satisfies drop it, then the
      entity manager destroys it. A system it joined under an earlier signature keeps it. */
  function KillEntity<V, R>(w: World<V, R>, entity: EntityId): (r: World<V, R>)
    requires CanKill(w.entities, entity)
    ensures r.systems == LeaveMatching(w.systems, entity, w.entities.signatures[entity])
    ensures r.entities == EM.RemoveEntity(w.entities, entity)
    ensures r.toAdd == w.toAdd && r.toRemove == w.toRemove
    ensures r.resources == w.resources && r.events == w.events && r.current == w.current
  {
    var sig := EM.GetSignature(w.entities, entity).value;
    w.(systems := LeaveMatching(w.systems, entity, sig),
       entities := EM.RemoveEntity(w.entities, entity))
  }

  /** The systems after `entity`, with signature `sig`, leaves those it satisfies. */
  function LeaveMatching(systems: map<TypeKey, Sys.GameSystem>, entity: EntityId, sig: bv32)
    : (r: map<TypeKey, Sys.GameSystem>)
    ensures r.Keys == systems.Keys
    ensures forall key :: key in systems ==>
              r[key] == if Matches(systems[key], sig) then Sys.RemoveEntity(systems[key], entity)
                        else systems[key]
  {
    map key | key in systems ::
      if Matches(systems[key], sig) then Sys.RemoveEntity(systems[key], entity) else systems[key]
  }

  predicate Distinct(order: seq<EntityId>) {
    forall i, j :: 0 <= i < j < |order| ==> order[i] != order[j]
  }

  predicate AllCanBeKilled<V>(em: EM.EntityManager<V>, order: seq<EntityId>) {
    forall i :: 0 <= i < |order| ==> CanKill(em, order[i])
  }

  /** Destroying one entity leaves every other entity as killable as it was, with the
      signature it had. */
  lemma KillKeepsOthers<V>(em: EM.EntityManager<V>, entity: EntityId, order: seq<EntityId>)
    requires CanKill(em, entity) && AllCanBeKilled(em, order) && entity !in order
    ensures AllCanBeKilled(EM.RemoveEntity(em, entity), order)
    ensures forall i :: 0 <= i < |order| ==>
              EM.RemoveEntity(em, entity).signatures[order[i]] == em.signatures[order[i]]
  {
    var after := EM.RemoveEntity(em, entity);
    forall i | 0 <= i < |order|
      ensures CanKill(after, order[i])
    {
      assert order[i] != entity;
      assert CS.CanRemoveAll(after.components, order[i]);
    }
  }

  /** `after` is `em` with every entity of `order` destroyed: its signature is zero and its
      slot in every pool is empty. Every other signature and slot, the masks, the pool
      types and the pool lengths are kept. */
  ghost predicate Destroyed<V>(em: EM.EntityManager<V>, after: EM.EntityManager<V>, order: seq<EntityId>) {
    && after.components.masks == em.components.masks
    && SignaturesZeroed(em, after, order)
    && SlotsEmptied(em, after, order)
  }

  ghost predicate SignaturesZeroed<V>(em: EM.EntityManager<V>, after: EM.EntityManager<V>,
                                      order: seq<EntityId>) {
    && |after.signatures| == |em.signatures|
    && (forall x :: 0 <= x < |em.signatures| ==>
          after.signatures[x] == if x in order then 0 else em.signatures[x])
  }

  ghost predicate SlotsEmptied<V>(em: EM.EntityManager<V>, after: EM.EntityManager<V>,
                                  order: seq<EntityId>) {
    && after.components.pools.Keys == em.components.pools.Keys
    && (forall k :: k in em.components.pools ==>
          |after.components.pools[k]| == |em.components.pools[k]|)
    && (forall k, j :: k in em.components.pools && 0 <= j < |em.components.pools[k]| ==>
          after.components.pools[k][j] == if j in order then None else em.components.pools[k][j])
  }

  /** Destroying one entity is the one-element case of `Destroyed`. */
  lemma DestroyedOne<V>(em: EM.EntityManager<V>, entity: EntityId)
    requires EM.CanRemoveEntity(em, entity)
    ensures Destroyed(em, EM.RemoveEntity(em, entity), [entity])
  {
    var after := EM.RemoveEntity(em, entity);
    forall k, j | k in em.components.pools && 0 <= j < |em.components.pools[k]|
      ensures after.components.pools[k][j] == if j in [entity] then None else em.components.pools[k][j]
    {
      if j == entity {
        assert !Pools.Occupied(after.components.pools[k], entity);
      }
    }
  }

  /** Destroying one entity and then the rest destroys them all. */
  lemma DestroyedCompose<V>(a: EM.EntityManager<V>, b: EM.EntityManager<V>, c: EM.EntityManager<V>,
                            entity: EntityId, rest: seq<EntityId>)
    requires Destroyed(a, b, [entity]) && Destroyed(b, c, rest)
    ensures Destroyed(a, c, [entity] + rest)
  {
    SignaturesCompose(a, b, c, entity, rest);
    SlotsCompose(a, b, c, entity, rest);
  }

  lemma SignaturesCompose<V>(a: EM.EntityManager<V>, b: EM.EntityManager<V>, c: EM.EntityManager<V>,
                             entity: EntityId, rest: seq<EntityId>)
    requires SignaturesZeroed(a, b, [entity]) && SignaturesZeroed(b, c, rest)
    ensures SignaturesZeroed(a, c, [entity] + rest)
  {
    forall x | 0 <= x < |a.signatures|
      ensures c.signatures[x] == if x in [entity] + rest then 0 else a.signatures[x]
    {
      assert x in [entity] + rest <==> x == entity || x in rest;
    }
  }

  lemma SlotsCompose<V>(a: EM.EntityManager<V>, b: EM.EntityManager<V>, c: EM.EntityManager<V>,
                        entity: EntityId, rest: seq<EntityId>)
    requires SlotsEmptied(a, b, [entity]) && SlotsEmptied(b, c, rest)
    ensures SlotsEmptied(a, c, [entity] + rest)
  {
    forall k, j | k in a.components.pools && 0 <= j < |a.components.pools[k]|
      ensures c.components.pools[k][j] ==
                if j in [entity] + rest then None else a.components.pools[k][j]
    {
      assert k in b.components.pools && j < |b.components.pools[k]|;
      var mid := if j in [entity] then None else a.components.pools[k][j];
      assert b.components.pools[k][j] == mid;
      assert c.components.pools[k][j] == if j in rest then None else mid;
      assert j in [entity] + rest <==> j == entity || j in rest;
    }
  }

  /** The kill phase of `update`: the queued entities are killed one after another, in
      the order the set yields them. */
  function KillAll<V, R>(w: World<V, R>, order: seq<EntityId>): (r: World<V, R>)
    requires Distinct(order) && AllCanBeKilled(w.entities, order)
    ensures r.entities.ids == FreeIds(w.entities.ids, order)
    ensures Destroyed(w.entities, r.entities, order)
    ensures r.toAdd == w.toAdd && r.toRemove == w.toRemove && r.systems.Keys == w.systems.Keys
    ensures r.resources == w.resources && r.events == w.events && r.current == w.current
    decreases |order|
  {
    if order == [] then w
    else
      KillKeepsOthers(w.entities, order[0], order[1..]);
      var next := KillEntity(w, order[0]);
      var r := KillAll(next, order[1..]);
      DestroyedOne(w.entities, order[0]);
      DestroyedCompose(w.entities, next.entities, r.entities, order[0], order[1..]);
      assert [order[0]] + order[1..] == order;
      r
  }

  /** The systems after the kill phase: each entity leaves by the signature it had when the
      phase started, since killing one entity zeroes no other signature. */
  lemma {:induction false} KillAllLeaves<V, R>(w: World<V, R>, order: seq<EntityId>)
    requires Distinct(order) && AllCanBeKilled(w.entities, order)
    ensures KillAll(w, order).systems == LeaveAll(w.systems, w.entities.signatures, order)
    decreases |order|
  {
    if order != [] {
      KillKeepsOthers(w.entities, order[0], order[1..]);
      var next := KillEntity(w, order[0]);
      KillAllLeaves(next, order[1..]);
      LeaveAllReadsOnlyOrder(next.systems, next.entities.signatures, w.entities.signatures, order[1..]);
    }
  }

  lemma {:induction false} LeaveAllReadsOnlyOrder(systems: map<TypeKey, Sys.GameSystem>, sigs: seq<bv32>,
                                                  sigs': seq<bv32>, order: seq<EntityId>)
    requires forall i :: 0 <= i < |order| ==> order[i] < |sigs| && order[i] < |sigs'|
    requires forall i :: 0 <= i < |order| ==> sigs[order[i]] == sigs'[order[i]]
    ensures LeaveAll(systems, sigs, order) == LeaveAll(systems, sigs', order)
    decreases |order|
  {
    if order != [] {
      LeaveAllReadsOnlyOrder(LeaveMatching(systems, order[0], sigs[order[0]]), sigs, sigs', order[1..]);
    }
  }

  /** Leaving the systems one entity after another, each judged by the given signature. */
  function LeaveAll(systems: map<TypeKey, Sys.GameSystem>, sigs: seq<bv32>, order: seq<EntityId>)
    : (r: map<TypeKey, Sys.GameSystem>)
    requires forall i :: 0 <= i < |order| ==> order[i] < |sigs|
    ensures r.Keys == systems.Keys
    decreases |order|
  {
    if order == [] then systems
    else LeaveAll(LeaveMatching(systems, order[0], sigs[order[0]]), sigs, order[1..])
  }

  /** After the leave phase a system keeps exactly the members that are not both queued and
      matched by their signature; its signature stays. */
  lemma {:induction false} LeaveAllMembers(systems: map<TypeKey, Sys.GameSystem>, sigs: seq<bv32>,
                                           order: seq<EntityId>, key: TypeKey)
    requires forall i :: 0 <= i < |order| ==> order[i] < |sigs|
    requires key in systems
    ensures key in LeaveAll(systems, sigs, order)
    ensures LeaveAll(systems, sigs, order)[key].signature == systems[key].signature
    ensures forall x :: x in LeaveAll(systems, sigs, order)[key].entities <==>
              x in systems[key].entities && !(x in order && Matches(systems[key], sigs[x]))
    decreases |order|
  {
    if order != [] {
      var next := LeaveMatching(systems, order[0], sigs[order[0]]);
      LeaveAllMembers(next, sigs, order[1..], key);
      assert forall x :: x in order <==> x == order[0] || x in order[1..];
    }
  }

  /** After the join phase a system's members are its old members and the queued ids its
      signature admits. */
  lemma JoinAllMembers(systems: map<TypeKey, Sys.GameSystem>, sigs: seq<bv32>,
                       order: seq<EntityId>, key: TypeKey)
    requires forall i :: 0 <= i < |order| ==> order[i] < |sigs|
    requires key in systems
    ensures key in JoinAll(systems, sigs, order)
    ensures JoinAll(systems, sigs, order)[key].signature == systems[key].signature
    ensures forall x :: x in JoinAll(systems, sigs, order)[key].entities <==>
              x in systems[key].entities || (x in order && Matches(systems[key], sigs[x]))
  {
    JoinAllAppendsMatching(systems, sigs, order, key);
    JoiningMembers(systems[key], sigs, order);
  }

  // ---------------------------------------------------------------------------------
  // update

  /** `order` lists the set's elements, each once: how a hash set hands them out. */
  predicate Enumerates(order: seq<EntityId>, elements: set<EntityId>) {
    && Distinct(order)
    && (forall x :: x in order ==> x in elements)
    && (forall x :: x in elements ==> x in order)
  }

  /** Every queued entity's signature can be unwrapped, and every entity queued for removal
      can also be destroyed. */
  predicate CanUpdate<V, R>(w: World<V, R>, addOrder: seq<EntityId>, removeOrder: seq<EntityId>) {
    && Enumerates(addOrder, w.toAdd) && Enumerates(removeOrder, w.toRemove)
    && AllHaveSignatures(w.entities, addOrder)
    && AllCanBeKilled(w.entities, removeOrder)
  }

  /** `update`: takes the add queue and lets its entities join systems, then takes the
      remove queue and kills its entities. The orders the two sets yield are parameters. */
  function Update<V, R>(w: World<V, R>, addOrder: seq<EntityId>, removeOrder: seq<EntityId>)
    : (r: World<V, R>)
    requires CanUpdate(w, addOrder, removeOrder)
    ensures r.toAdd == {} && r.toRemove == {}
    ensures r.entities.ids == FreeIds(w.entities.ids, removeOrder)
    ensures Destroyed(w.entities, r.entities, removeOrder)
    ensures r.systems.Keys == w.systems.Keys
    ensures r.resources == w.resources && r.events == w.events && r.current == w.current
  {
    var added := AddAll(w.(toAdd := {}), addOrder);
    KillAll(added.(toRemove := {}), removeOrder)
  }

  /** Membership after `update`: a system holds an entity when it held it before or the
      entity was queued and satisfies the system, unless the entity was queued for removal
      and satisfies the system. Membership does not depend on the orders the sets yield;
      only the order of each system's list does. */
  lemma UpdateMembers<V, R>(w: World<V, R>, addOrder: seq<EntityId>, removeOrder: seq<EntityId>,
                            key: TypeKey, x: EntityId)
    requires CanUpdate(w, addOrder, removeOrder) && key in w.systems
    ensures key in Update(w, addOrder, removeOrder).systems
    ensures Update(w, addOrder, removeOrder).systems[key].signature == w.systems[key].signature
    ensures x in Update(w, addOrder, removeOrder).systems[key].entities <==>
              && (x in w.systems[key].entities ||
                  (x in w.toAdd && Matches(w.systems[key], w.entities.signatures[x])))
              && !(x in w.toRemove && Matches(w.systems[key], w.entities.signatures[x]))
  {
    var sigs := w.entities.signatures;
    var added := AddAll(w.(toAdd := {}), addOrder);
    JoinAllMembers(w.systems, sigs, addOrder, key);
    var killing := added.(toRemove := {});
    KillAllLeaves(killing, removeOrder);
    LeaveAllMembers(added.systems, sigs, removeOrder, key);
  }

  /** The stale-membership gap: an entity queued for removal that no longer satisfies a
      system it joined (a component was removed since) stays in that system's list after
      `update`, although it has been destroyed and its id queued for reuse. */
  lemma StaleMemberSurvivesUpdate<V, R>(w: World<V, R>, addOrder: seq<EntityId>,
                                        removeOrder: seq<EntityId>, key: TypeKey, x: EntityId)
    requires CanUpdate(w, addOrder, removeOrder) && key in w.systems
    requires x in w.toRemove && x in w.systems[key].entities
    requires !Matches(w.systems[key], w.entities.signatures[x])
    ensures key in Update(w, addOrder, removeOrder).systems
    ensures x in Update(w, addOrder, removeOrder).systems[key].entities
    ensures x in Update(w, addOrder, removeOrder).entities.ids.freed
    ensures !IsIdUsed(Update(w, addOrder, removeOrder).entities.ids, x)
  {
    UpdateMembers(w, addOrder, removeOrder, key, x);
  }

  /** Killing entities that are live keeps the entity manager consistent and ends exactly
      their lives. */
  lemma {:induction false} KillAllPreservesConsistent<V, R>(w: World<V, R>, order: seq<EntityId>)
    requires Distinct(order) && AllCanBeKilled(w.entities, order)
    requires EC.Consistent(w.entities)
    requires forall i :: 0 <= i < |order| ==> Live(w.entities.ids, order[i])
    ensures EC.Consistent(KillAll(w, order).entities)
    ensures forall x :: Live(KillAll(w, order).entities.ids, x) <==> Live(w.entities.ids, x) && x !in order
    decreases |order|
  {
    if order != [] {
      var e := order[0];
      KillKeepsOthers(w.entities, e, order[1..]);
      EC.RemoveEntityPreservesConsistent(w.entities, e);
      FreeIdPreservesValid(w.entities.ids, e);
      var next := KillEntity(w, e);
      assert next.entities.ids == FreeId(w.entities.ids, e);
      forall i | 0 <= i < |order[1..]|
        ensures Live(next.entities.ids, order[1..][i])
      {
        assert order[1..][i] == order[i + 1] && order[i + 1] != e;
      }
      KillAllPreservesConsistent(next, order[1..]);
      assert KillAll(w, order) == KillAll(next, order[1..]);
      assert forall x :: x in order <==> x == e || x in order[1..];
    }
  }

  /** An `update` whose remove queue holds only live entities keeps the entity manager
      consistent, and the entities it destroys are exactly the queued ones. */
  lemma UpdatePreservesConsistent<V, R>(w: World<V, R>, addOrder: seq<EntityId>, removeOrder: seq<EntityId>)
    requires CanUpdate(w, addOrder, removeOrder)
    requires EC.Consistent(w.entities)
    requires forall x :: x in w.toRemove ==> Live(w.entities.ids, x)
    ensures EC.Consistent(Update(w, addOrder, removeOrder).entities)
    ensures forall x :: Live(Update(w, addOrder, removeOrder).entities.ids, x) <==>
              Live(w.entities.ids, x) && x !in w.toRemove
  {
    var added := AddAll(w.(toAdd := {}), addOrder);
    var killing := added.(toRemove := {});
    forall i | 0 <= i < |removeOrder|
      ensures Live(killing.entities.ids, removeOrder[i])
    {
      assert removeOrder[i] in w.toRemove;
    }
    KillAllPreservesConsistent(killing, removeOrder);
  }

  // ---------------------------------------------------------------------------------
  // Systems

  /** `add_system`: the built system (the action's `to_system` is foreign, so it is a
      parameter), optionally back-filled with every slot of the signature array whose
      signature satisfies it, in ascending order; it replaces any system under the key. */
  function AddSystem<V, R>(w: World<V, R>, key: TypeKey, s: Sys.GameSystem, update: bool): (r: World<V, R>)
    ensures key in r.systems && r.systems == w.systems[key := r.systems[key]]
    ensures r.systems[key].signature == s.signature && r.systems[key].name == s.name
    ensures !update ==> r.systems[key] == s
    ensures update ==>
              r.systems[key].entities == s.entities + Queries.Matching(w.entities.signatures, s.signature)
    ensures r.entities == w.entities && r.toAdd == w.toAdd && r.toRemove == w.toRemove
    ensures r.resources == w.resources && r.events == w.events && r.current == w.current
  {
    var filled := if update then Backfill(s, w.entities.signatures) else s;
    w.(systems := w.systems[key := filled])
  }

  /** The back-fill loop of `add_system`. */
  function Backfill(s: Sys.GameSystem, sigs: seq<bv32>): (r: Sys.GameSystem)
    ensures r.signature == s.signature && r.name == s.name && r.action == s.action
    ensures r.entities == s.entities + Queries.Matching(sigs, s.signature)
  {
    s.(entities := s.entities + Queries.Matching(sigs, s.signature))
  }

  /** A freshly built system back-filled by `add_system` holds exactly the slots whose
      signature satisfies it, each once, in ascending order. */
  lemma AddSystemBackfillIsExact<V, R>(w: World<V, R>, key: TypeKey, s: Sys.GameSystem, x: EntityId)
    requires s.entities == []
    ensures x in AddSystem(w, key, s, true).systems[key].entities <==>
              x < |w.entities.signatures| && Matches(s, w.entities.signatures[x])
    ensures var es := AddSystem(w, key, s, true).systems[key].entities;
            forall a, b :: 0 <= a < b < |es| ==> es[a] < es[b]
  {
    var m := Queries.Matching(w.entities.signatures, s.signature);
    assert [] + m == m;
    assert AddSystem(w, key, s, true).systems[key].entities == m;
  }

  /** The back-fill does not look at liveness: a system that requires nothing takes every
      slot, including freed ids and the padding past the counter. */
  lemma BackfillTakesDeadSlots<V, R>(w: World<V, R>, key: TypeKey, s: Sys.GameSystem, x: EntityId)
    requires s.signature == 0 && x < |w.entities.signatures| && !Live(w.entities.ids, x)
    ensures x in AddSystem(w, key, s, true).systems[key].entities
  {
    ContainsNothing(w.entities.signatures[x]);
  }

  /** `remove_system`: drops the key, if present, and nothing else. */
  function RemoveSystem<V, R>(w: World<V, R>, key: TypeKey): (r: World<V, R>)
    ensures key !in r.systems
    ensures forall k :: k != key ==> (k in r.systems <==> k in w.systems)
    ensures forall k :: k != key && k in w.systems ==> r.systems[k] == w.systems[k]
    ensures key !in w.systems ==> r == w
    ensures r.entities == w.entities && r.toAdd == w.toAdd && r.toRemove == w.toRemove
    ensures r.resources == w.resources && r.events == w.events && r.current == w.current
  {
    if key in w.systems then w.(systems := w.systems - {key}) else w
  }

  /** `has_system`. */
  predicate HasSystem<V, R>(w: World<V, R>, key: TypeKey) {
    key in w.systems
  }

  /** `has_system` follows registration: true for a key just added, false for a key just
      removed, and unchanged for every other key. */
  lemma HasSystemTracksRegistration<V, R>(w: World<V, R>, key: TypeKey, other: TypeKey,
                                          s: Sys.GameSystem, update: bool)
    requires other != key
    ensures HasSystem(AddSystem(w, key, s, update), key)
    ensures !HasSystem(RemoveSystem(w, key), key)
    ensures HasSystem(AddSystem(w, key, s, update), other) <==> HasSystem(w, other)
    ensures HasSystem(RemoveSystem(w, key), other) <==> HasSystem(w, other)
  {
  }

  /** `get_system` (and `get_system_mut`): an unregistered key makes the `unwrap` panic. */
  function GetSystem<V, R>(w: World<V, R>, key: TypeKey): (s: Sys.GameSystem)
    requires HasSystem(w, key)
    ensures s == w.systems[key]
  {
    w.systems[key]
  }

  // ---------------------------------------------------------------------------------
  // Commands

  /** Which commands `handle_commands` can carry out: the component-carrying ones hit
      `todo!()`, and a removal by dynamic key unwraps the type's mask on a used id. */
  predicate Handleable<V>(em: EM.EntityManager<V>, c: Cmd.WorldCommand) {
    match c
    case RemoveEntity(_) => true
    case RemoveComponent(entity, k) => EM.CanRemoveComponent(em, entity, k)
    case CreateEntity => false
    case AddComponent(_) => false
  }

  predicate AllHandleable<V>(em: EM.EntityManager<V>, cmds: seq<Cmd.WorldCommand>) {
    forall i :: 0 <= i < |cmds| ==> Handleable(em, cmds[i])
  }

  /** One command: an entity removal is queued, a component removal is carried out at once. */
  function HandleCommand<V, R>(w: World<V, R>, c: Cmd.WorldCommand): (r: World<V, R>)
    requires Handleable(w.entities, c)
    ensures c.RemoveEntity? ==> r == RemoveEntity(w, c.entity)
    ensures c.RemoveComponent? ==> r == RemoveComponentWithId(w, c.entity, c.key)
    ensures CE.ComponentsRemoved(w.entities, r.entities, [c])
    ensures r.systems == w.systems && r.toAdd == w.toAdd
    ensures r.resources == w.resources && r.events == w.events && r.current == w.current
  {
    match c
    case RemoveEntity(entity) =>
      CE.QueuedRemovalTouchesNothing(w.entities, entity);
      RemoveEntity(w, entity)
    case RemoveComponent(entity, k) =>
      CE.OneRemoval(w.entities, entity, k);
      RemoveComponentWithId(w, entity, k)
  }

  /** Removing a component by dynamic key leaves every other removal as possible as it was:
      ids, signature count, masks and pool lengths are all unchanged. */
  lemma HandleKeepsHandleable<V, R>(w: World<V, R>, c: Cmd.WorldCommand, cmds: seq<Cmd.WorldCommand>)
    requires Handleable(w.entities, c) && AllHandleable(w.entities, cmds)
    ensures AllHandleable(HandleCommand(w, c).entities, cmds)
  {
    var after := HandleCommand(w, c).entities;
    if c.RemoveComponent? && IsIdUsed(w.entities.ids, c.entity) {
      assert EM.ComponentRemoved(w.entities, after, c.entity, c.key);
      forall i | 0 <= i < |cmds|
        ensures Handleable(after, cmds[i])
      {
        if cmds[i].RemoveComponent? && cmds[i].key in after.components.pools {
          assert |after.components.pools[cmds[i].key]| == |w.entities.components.pools[cmds[i].key]|;
        }
      }
    }
  }

  /** The commands that queue a removal. */
  function RemovalsIn(cmds: seq<Cmd.WorldCommand>): (ids: set<EntityId>)
    ensures forall x :: x in ids <==> Cmd.RemoveEntity(x) in cmds
  {
    set i | 0 <= i < |cmds| && cmds[i].RemoveEntity? :: cmds[i].entity
  }

  /** Carrying out the commands front to back: the entity removals are queued and the
      component removals applied, with the outcome on the entity manager given by
      `CE.ComponentsRemoved`, which does not depend on the order of the commands. */
  function HandleAll<V, R>(w: World<V, R>, cmds: seq<Cmd.WorldCommand>): (r: World<V, R>)
    requires AllHandleable(w.entities, cmds)
    ensures CE.ComponentsRemoved(w.entities, r.entities, cmds)
    ensures r.toRemove == w.toRemove + RemovalsIn(cmds)
    ensures r.systems == w.systems && r.toAdd == w.toAdd
    ensures r.resources == w.resources && r.events == w.events && r.current == w.current
    decreases |cmds|
  {
    if cmds == [] then
      CE.NoCommandsRemoveNothing(w.entities);
      w
    else
      HandleKeepsHandleable(w, cmds[0], cmds[1..]);
      assert RemovalsIn(cmds) == RemovalsIn(cmds[..1]) + RemovalsIn(cmds[1..]);
      var first := HandleCommand(w, cmds[0]);
      var r := HandleAll(first, cmds[1..]);
      CE.ComposeOne(w.entities, first.entities, r.entities, cmds[0], cmds[1..]);
      assert [cmds[0]] + cmds[1..] == cmds;
      r
  }

  /** Handling is insensitive to the order of the commands and to repeated ones: only which
      commands occur decides the entity manager that results. */
  lemma HandleOrderIrrelevant<V, R>(w: World<V, R>, xs: seq<Cmd.WorldCommand>, ys: seq<Cmd.WorldCommand>)
    requires AllHandleable(w.entities, xs) && AllHandleable(w.entities, ys)
    requires forall c :: c in xs <==> c in ys
    ensures HandleAll(w, xs).entities == HandleAll(w, ys).entities
    ensures HandleAll(w, xs).toRemove == HandleAll(w, ys).toRemove
  {
    var a := HandleAll(w, xs).entities;
    var b := HandleAll(w, ys).entities;
    CE.SameCommandsSameEffect(w.entities, b, ys, xs);
    CE.RemovedIsDetermined(w.entities, a, b, xs);
  }

  /** `handle_commands`: drains the buffer front to back. An entity removal is only queued,
      so no entity is destroyed and no system changes until the next `update`; a component
      removal takes effect at once. */
  function HandleCommands<V, R>(w: World<V, R>, b: Cmd.CommandBuffer): (r: World<V, R>)
    requires AllHandleable(w.entities, Cmd.Iterate(b))
    ensures CE.ComponentsRemoved(w.entities, r.entities, Cmd.Iterate(b))
    ensures r.toRemove == w.toRemove + RemovalsIn(Cmd.Iterate(b))
    ensures r.systems == w.systems && r.toAdd == w.toAdd
    ensures r.resources == w.resources && r.events == w.events && r.current == w.current
  {
    HandleAll(w, Cmd.Iterate(b))
  }

  /** `update_system`: for a registered system, the action runs against the world with the
      systems taken out (its command buffer is a parameter), the commands are handled and
      the systems are put back; an unregistered system is skipped. */
  function UpdateSystem<V, R>(w: World<V, R>, key: TypeKey, produced: Cmd.CommandBuffer): (r: World<V, R>)
    requires key in w.systems ==> AllHandleable(w.entities, Cmd.Iterate(produced))
    ensures r.systems == w.systems
    ensures key !in w.systems ==> r == w
    ensures key in w.systems ==> r.entities == HandleCommands(w.(systems := map[]), produced).entities
    ensures key in w.systems ==> CE.ComponentsRemoved(w.entities, r.entities, Cmd.Iterate(produced))
    ensures key in w.systems ==> r.toRemove == w.toRemove + RemovalsIn(Cmd.Iterate(produced))
    ensures r.toAdd == w.toAdd && r.resources == w.resources && r.events == w.events
    ensures r.current == w.current
  {
    if key in w.systems then
      var taken := w.(systems := map[]);
      HandleCommands(taken, produced).(systems := w.systems)
    else w
  }

  // ---------------------------------------------------------------------------------
  // Events and resources

  /** `events().subscribe`. */
  function Subscribe<V, R>(w: World<V, R>, k: TypeKey, h: Ev.HandlerId): (r: World<V, R>)
    ensures Ev.HandlersOf(r.events, k) == Ev.HandlersOf(w.events, k) + [h]
    ensures forall k' :: k' != k ==> Ev.HandlersOf(r.events, k') == Ev.HandlersOf(w.events, k')
    ensures r.entities == w.entities && r.systems == w.systems && r.resources == w.resources
    ensures r.toAdd == w.toAdd && r.toRemove == w.toRemove && r.current == w.current
  {
    w.(events := Ev.Subscribe(w.events, k, h))
  }

  /** `emit_event`: the handlers of the event's type run in subscription order (the trace
      is returned; the commands they leave in the shared buffer are a parameter), then the
      buffer is handled. The buffer starts empty and only handlers write to it, so with no
      handler for the type it is still empty and the world is unchanged. */
  function EmitEvent<V, R, E>(w: World<V, R>, k: TypeKey, event: E, produced: Cmd.CommandBuffer)
    : (r: (World<V, R>, seq<Ev.HandlerCall<E>>))
    requires Ev.HandlersOf(w.events, k) == [] ==> Cmd.Iterate(produced) == []
    requires AllHandleable(w.entities, Cmd.Iterate(produced))
    ensures r.1 == Ev.Emit(w.events, k, event)
    ensures r.0 == HandleCommands(w, produced)
    ensures Ev.HandlersOf(w.events, k) == [] ==> r.0 == w && r.1 == []
    ensures CE.ComponentsRemoved(w.entities, r.0.entities, Cmd.Iterate(produced))
    ensures r.0.toRemove == w.toRemove + RemovalsIn(Cmd.Iterate(produced))
    ensures r.0.systems == w.systems && r.0.toAdd == w.toAdd && r.0.current == w.current
    ensures r.0.resources == w.resources && r.0.events == w.events
  {
    (HandleCommands(w, produced), Ev.Emit(w.events, k, event))
  }

  /** A handler subscribed through the world is the last one `emit_event` invokes for its
      type, after every handler already there. */
  lemma EmitAfterSubscribe<V, R, E>(w: World<V, R>, k: TypeKey, h: Ev.HandlerId, event: E,
                                    produced: Cmd.CommandBuffer)
    requires AllHandleable(w.entities, Cmd.Iterate(produced))
    ensures EmitEvent(Subscribe(w, k, h), k, event, produced).1 ==
              Ev.Emit(w.events, k, event) + [Ev.HandlerCall(h, event)]
  {
    Ev.SubscribeThenEmit(w.events, k, h, event);
  }

  /** `add_resource`. */
  function AddResource<V, R>(w: World<V, R>, k: TypeKey, value: R): (r: World<V, R>)
    ensures Res.Has(r.resources, k) && Res.Get(r.resources, k) == value
    ensures r.resources == Res.Add(w.resources, k, value)
    ensures r.entities == w.entities && r.systems == w.systems && r.events == w.events
    ensures r.toAdd == w.toAdd && r.toRemove == w.toRemove && r.current == w.current
  {
    w.(resources := Res.Add(w.resources, k, value))
  }

  /** `delete_resource`. */
  function DeleteResource<V, R>(w: World<V, R>, k: TypeKey): (r: World<V, R>)
    ensures !Res.Has(r.resources, k)
    ensures r.resources == Res.Delete(w.resources, k)
    ensures r.entities == w.entities && r.systems == w.systems && r.events == w.events
    ensures r.toAdd == w.toAdd && r.toRemove == w.toRemove && r.current == w.current
  {
    w.(resources := Res.Delete(w.resources, k))
  }

  /** `get_component_signatures`. */
  function GetComponentSignatures<V, R>(w: World<V, R>): (r: map<TypeKey, bv32>)
    ensures forall k :: k in r <==> CS.GetMask(w.entities.components, k).Ok?
    ensures forall k :: k in r ==> CS.GetMask(w.entities.components, k) == Ok(r[k])
  {
    EM.ComponentSignatures(w.entities)
  }
}
