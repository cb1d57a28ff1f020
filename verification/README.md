# secs: a verified model of the ECS core

This project models the core of `secs`, a small single-threaded entity-component-system in
Rust, as pure Dafny functions over immutable data, and proves what the code promises about it.

- **Entities** are `nat` ids handed out by a counter, with a FIFO queue of freed ids.
- Each entity has a 32-bit **signature** (`bv32`). The signature holds one bit per component type the entity carries.
- **Components** of one type live in a **pool**, a `seq<Option<V>>` indexed by entity id. A type gets its pool of 30 empty slots and its one-bit mask `1 << n` the first time it is used.
- **Queries**, **system back-fill** and **system membership** all use the same test. A signature `sig` meets a requirement `req` when `sig & req == req`.
- The **world** keeps two queues of entities. Entities in the add queue join systems, and entities in the remove queue are killed, when `update` runs.
- **Systems** hold an ordered list of member ids.
- **Command buffers** defer removals. Systems and event handlers fill them, and the world drains them.
- **Resources** are one value per type.
- **Event handlers** are one ordered list per event type.

Type identity (`TypeId`) becomes an opaque `TypeKey`, component values a type parameter `V`, resources a type parameter `R`. System actions and event handlers are foreign code, so they become opaque ids.

A Rust panic becomes a precondition behind a named predicate, so the verifier shows every call site that could reach one. The panics are an `unwrap`, an out-of-bounds index, a `todo!()`, and a shift past 31. The predicates include `CanAddComponent`, `CanRemoveEntity`, `CanRemoveComponent`, `Handleable` and `CanUpdate`.

The central invariant is `EntityConsistency.Consistent`. It says: for every registered type `k` and every live entity `e`, the bit `mask[k]` is set in `sig[e]` exactly when `pool[k][e]` is occupied. It also requires that non-live ids hold no components and that masks are distinct single bits.

"Live" is the intended liveness: issued and not freed since. The code's own `is_id_used` is modelled literally as `id <= counter && id not queued`, and the model states how the two differ. The operations that preserve the invariant are proved to do so. The places where the code breaks it are exhibited as lemmas in `EntityHazards` and `Worlds`.

Files, one module each:

| file | module | models |
|---|---|---|
| common.dfy | Common | `Option`, `TypeKey`, `EntityId` |
| errors.dfy | Errors | `EcsErrors` and `Result` |
| signature.dfy | Signatures | masks, subset test, bit-vector facts |
| comp_pool.dfy | Pools | `CompPool` and `GenericCompPool` |
| component_manager.dfy | ComponentStore | `ComponentManager` |
| entity_ids.dfy | EntityIds | `EntityIdGenerator` |
| entity_manager.dfy | EntityStore | `EntityManager` |
| entity_consistency.dfy | EntityConsistency | the signature/pool invariant and its preservation |
| entity_hazards.dfy | EntityHazards | where the code as written breaks the invariant or panics |
| query.dfy | Queries | `Query`, `EntityQuery`, `ComponentQuery` |
| command_buffer.dfy | Commands | `WorldCommand`, `CommandBuffer` |
| command_effects.dfy | CommandEffects | what draining a buffer does to the entity manager, independent of command order |
| system.dfy | Systems | `SystemBuilder`, `GameSystem` |
| resources.dfy | ResourceStore | `Resources` |
| events.dfy | Events | `WorldEvents`, `EventEmitter` |
| world.dfy | Worlds | `World` |

## Hazards in the code as written

The model follows the code. Each point below is stated as a lemma or a contract.

- **`is_id_used`.** It uses `current_free_id >= id`, so it also accepts the id the counter will hand out next (`EntityIds.IsIdUsedAdmitsCounter`). As a result, `add_component` accepts a component for that not-yet-created entity, and the entity later created under that id starts with the stale component while its signature says otherwise (`EntityHazards.CounterIdAcceptsComponent`, `EntityHazards.StaleComponentOnReissue`).
- **`add_component` writes the pool first.** It stores the value before it checks the id. A freed id is rejected with `EntityDoesNotExist`, but its pool slot has already been filled (`EntityHazards.FreedIdKeepsComponent`).
- **`remove_all` has no bounds check.** It indexes every pool. A type first used by an entity below 30 gets a 30-slot pool. Removing any entity past a pool's end panics: right after that first use, every id of 30 or more, until an entity at 30 or above receives that type and the pool grows (`EntityHazards.NewPoolBlocksRemoval`).
- **`remove_entity` has no liveness check.** Removing an entity twice queues its id twice, so two later creations both receive it (`EntityHazards.DoubleRemoveReissuesTwice`).
- **Commands drain last in, first out.** Every producer pushes at the front, and iteration goes front to back (`Commands.DrainIsLifo`).
- **Stale system members.** `kill_entity` removes an entity only from the systems its *current* signature satisfies. If the entity lost a component after it joined a system, it stays in that system's list after it is destroyed (`Worlds.StaleMemberSurvivesUpdate`).
- **Queries and back-fill ignore liveness.** `entities().get()` and `add_system(_, true)` scan the whole signature array, so they report freed ids and padding slots (`Queries.EmptyQueryReportsDeadSlots`, `Worlds.BackfillTakesDeadSlots`).
- **The world's system record.** `src/world.rs` refers to a `System` struct and a `SystemAction` trait whose shape does not match `src/system.rs`. The world's systems are modelled as `GameSystem` records: name, signature, ordered entity list and action id.

## Model

| member | source | states |
|---|---|---|
| EntityIds.New | src/entities/entity_manager.rs:18-23 | the counter starts at 0 with nothing queued: no id is live, and `is_id_used` accepts exactly id 0 |
| EntityIds.GetId | src/entities/entity_manager.rs:25-33 | with nothing queued, the counter is handed out and advances by one; otherwise the oldest freed id comes out and the counter stays |
| EntityIds.FreeId | src/entities/entity_manager.rs:35-37 | the id joins the back of the queue, unchecked; the counter is unchanged |
| EntityIds.IsIdUsedAdmitsCounter | src/entities/entity_manager.rs:39-41 | `is_id_used` holds exactly for the live ids plus the counter itself when it is not queued; for a valid allocator the counter is "used" but not live |
| EntityIds.FreshIdsAreSequential | src/entities/entity_manager.rs:25-29 | with nothing queued, `n` draws yield `next, next+1, …, next+n-1` and leave the counter at `next+n` |
| EntityIds.ReuseIsFifo | src/entities/entity_manager.rs:30-37 | queued ids come out front first, in the order they were freed, and the counter does not move |
| EntityIds.ReuseBeforeFresh | src/entities/entity_manager.rs:25-37 | every queued id is reused before any fresh id is drawn from the counter |
| EntityIds.FreedComeBackInOrder | src/entities/entity_manager.rs:25-37 | ids freed in a given order are reissued in that order, after the ones already queued |
| EntityIds.GetIdPreservesValid | src/entities/entity_manager.rs:25-33 | drawing keeps the queue duplicate-free and below the counter; the drawn id was not live and is the only id that becomes live |
| EntityIds.FreeIdPreservesValid | src/entities/entity_manager.rs:35-37 | freeing a live id keeps the allocator valid and ends exactly that id's life |
| EntityStore.New | src/entities/entity_manager.rs:51-57 | a fresh allocator, no signatures, an empty component manager: no type has a mask |
| EntityStore.CreateEntity | src/entities/entity_manager.rs:59-71 | the drawn id gets a zero signature; the array grows to id+10 zero slots when the id does not fit, and every other slot keeps its signature |
| EntityStore.RemoveEntity | src/entities/entity_manager.rs:73-79 | the entity's signature is zeroed, its slot is emptied in every pool with pool lengths kept, every other signature and every other pool slot is kept, and its id is queued at the back |
| EntityStore.AddComponent | src/entities/entity_manager.rs:81-95 | succeeds exactly on an id `is_id_used` accepts, OR-ing the type's mask into that signature only; an unused id gets `EntityDoesNotExist` with signatures unchanged, yet the pool holds the value either way |
| EntityStore.RemoveComponent | src/entities/entity_manager.rs:97-116 | an unused id is rejected with no state change; a used one has exactly the type's bit cleared and its pool slot emptied, nothing else |
| EntityStore.RemoveComponentForId | src/entities/entity_manager.rs:117-137 | the dynamically keyed removal has the same outcome as `remove_component` |
| EntityStore.HasComponent | src/entities/entity_manager.rs:139-152 | errors exactly on unused ids; otherwise answers whether the signature contains the whole mask |
| EntityStore.GetSignature | src/entities/entity_manager.rs:154-160 | errors exactly on unused ids; otherwise the entity's signature |
| EntityStore.ComponentSignatures | src/entities/entity_manager.rs:162-164 | the type-to-mask map holds exactly the types `get_mask` knows, with the masks it reports |
| EntityConsistency.NewIsConsistent | src/entities/entity_manager.rs:51-57 | an empty entity manager satisfies the signature/pool invariant |
| EntityConsistency.HasComponentMatchesPool | src/entities/entity_manager.rs:139-152 | under the invariant, `has_component` on a live entity is exactly pool occupancy |
| EntityConsistency.CreateEntityPreservesConsistent | src/entities/entity_manager.rs:59-71 | creation keeps the invariant, and the new entity is live and has no component |
| EntityConsistency.RemoveEntityPreservesConsistent | src/entities/entity_manager.rs:73-79 | removing a live entity keeps the invariant and ends its life |
| EntityConsistency.AddComponentPreservesConsistent | src/entities/entity_manager.rs:81-95 | adding to a live entity succeeds, keeps the invariant, and `has_component` then answers true |
| EntityConsistency.RemoveComponentPreservesConsistent | src/entities/entity_manager.rs:97-137 | both removals on a live entity succeed, keep the invariant, and `has_component` then answers false |
| EntityHazards.CounterIdAcceptsComponent | src/entities/entity_manager.rs:81-95 | from a consistent state, adding a component to the not-yet-issued counter id succeeds and leaves a non-live id holding a component |
| EntityHazards.StaleComponentOnReissue | src/entities/entity_manager.rs:59-95 | the entity then created under that id is live and its pool slot is occupied, while `has_component` answers false: the invariant fails |
| EntityHazards.FreedIdKeepsComponent | src/entities/entity_manager.rs:86-90 | adding to a freed id is rejected, but the freed id now holds a component |
| EntityHazards.NewPoolBlocksRemoval | src/components/component_manager.rs:81-85 | after a type's first use below id 30 its pool has 30 slots, and removing any entity at 30 or above cannot proceed (the unchecked index panics) |
| EntityHazards.DoubleRemoveReissuesTwice | src/entities/entity_manager.rs:73-79 | removing an entity twice lets the next two creations both return its id |
| Pools.New | src/components/comp_pool.rs:52-57 | exactly `size` slots, none occupied |
| Pools.Add | src/components/comp_pool.rs:59-61 | one more slot, holding the value, at the end; the others unchanged |
| Pools.Remove | src/components/comp_pool.rs:63-69 | succeeds exactly within bounds, emptying that slot only; past the end `EntityDoesNotExist(index)` |
| Pools.Set | src/components/comp_pool.rs:71-78 | succeeds exactly within bounds, filling that slot only; past the end `EntityDoesNotExist(index)` |
| Pools.Get | src/components/comp_pool.rs:80-94 | within bounds the stored value (an empty slot panics, so it is excluded); past the end `EntityDoesNotExist(index)` |
| Pools.Resize | src/components/comp_pool.rs:38-40 | length becomes `size`, surviving slots are kept, new slots are empty |
| Pools.RemoveAny | src/components/comp_pool.rs:46-48 | empties the slot with no bounds check, so an index past the end is excluded |
| Pools.SetThenGet | src/components/comp_pool.rs:71-86 | `get` after `set` returns the value that was set |
| Pools.RemoveIdempotent | src/components/comp_pool.rs:63-69 | removing twice is removing once |
| Pools.RemoveAnyAgreesWithRemove | src/components/comp_pool.rs:46-48 | within bounds the unchecked removal agrees with the checked `remove` |
| Pools.Clear | src/components/comp_pool.rs:42-44 | the pool is left with no slots at all |
| Pools.ClearThenResizeIsNew | src/components/comp_pool.rs:38-44 | a cleared pool resized to `size` equals a fresh pool of `size` empty slots: no value survives |
| Pools.ResizeKeepsOccupancy | src/components/comp_pool.rs:38-40 | after resizing, a slot is occupied exactly when it survives and was occupied before |
| ComponentStore.New | src/components/component_manager.rs:24-29 | no pools and no masks: `get_mask` and `get_components` fail for every type |
| ComponentStore.Register | src/components/component_manager.rs:34-38 | a new type gets a 30-slot empty pool and mask `1 << (types already registered)`; a known type changes nothing |
| ComponentStore.Store | src/components/component_manager.rs:40-51 | the pool grows to `entity+1` only when too short, never shrinks, and holds the value at the entity's slot with the other slots kept |
| ComponentStore.AddComponent | src/components/component_manager.rs:31-53 | the returned mask is the type's registered mask; only that type's pool changes |
| ComponentStore.Remove | src/components/component_manager.rs:55-69 | fails exactly for an unregistered type with `ComponentDoesNotExist(name)`; otherwise empties one slot of that pool only |
| ComponentStore.RemoveWithId | src/components/component_manager.rs:71-79 | fails exactly for an unknown key with `ComponentDoesNotExist("Unknown")`; otherwise empties one slot of that pool only |
| ComponentStore.RemoveAll | src/components/component_manager.rs:81-85 | empties the entity's slot in every pool and nothing else, with lengths and masks kept |
| ComponentStore.GetComponents | src/components/component_manager.rs:87-115 | the type's pool exactly when registered, else `ComponentDoesNotExist` |
| ComponentStore.GetMask | src/components/component_manager.rs:117-124 | the stored mask exactly when registered, else `ComponentDoesNotExist(name)` |
| ComponentStore.GetMaskForId | src/components/component_manager.rs:126-132 | the stored mask exactly when registered, else `ComponentDoesNotExist("Unknown")` |
| ComponentStore.AddComponentPreservesValid | src/components/component_manager.rs:34-38 | while fewer than 32 types exist, registration keeps pools and masks over the same types and the masks distinct single bits |
| ComponentStore.NewBitKeepsMasksValid | src/components/component_manager.rs:36-37 | the `n`-th mask `1 << n` is a single bit outside every earlier mask |
| ComponentStore.MasksDisjoint | src/components/component_manager.rs:36-37 | two registered types share no bit |
| ComponentStore.AddThenGet | src/components/component_manager.rs:31-53 | after `add_component`, `get_mask` yields the returned mask and the pool yields the value at the entity |
| Signatures.BitFacts | src/components/component_manager.rs:36-37 | `1 << n` is a single bit, disjoint from the first `n` masks, and the window of the first `n+1` masks contains it and the old window |
| Queries.Entities | src/query.rs:49-55 | a fresh query is met by every signature |
| Queries.WithComponent | src/query.rs:77-81 | a signature meets the widened query exactly when it meets the old one and carries the type's mask; an unregistered type is excluded (`unwrap` panics) |
| Queries.WithComponentCommutes | src/query.rs:77-81 | chaining two types gives the same query in either order |
| Queries.WithComponentIdempotent | src/query.rs:77-81 | adding the same type twice is adding it once |
| Queries.Matching | src/query.rs:83-93 | exactly the indices whose signature meets the requirement, in strictly ascending order |
| Queries.Get | src/query.rs:83-93 | the scanning loop returns exactly the matching indices, ascending |
| Queries.MatchingNothingIsEverySlot | src/query.rs:83-93 | with nothing required, every index of the signature array is returned, in order |
| Queries.EmptyQueryReportsDeadSlots | src/query.rs:49-93 | `entities().get()` returns ids that are not live |
| Queries.OneTypeQueryFindsHolders | src/query.rs:77-93 | under the invariant, a one-type query returns a live entity exactly when its pool slot is occupied |
| Queries.Components | src/query.rs:67-73 | the type's pool, as `get_components` returns it; an unregistered type is excluded |
| Commands.New | src/command_buffer.rs:21-25 | a new buffer yields nothing |
| Commands.Push | src/command_buffer.rs:27-41 | each producer puts exactly one command at the front, in front of the old contents |
| Commands.PushRemoveEntity | src/command_buffer.rs:27-29 | records a removal of that entity, at the front |
| Commands.PushRemoveComponent | src/command_buffer.rs:31-33 | records the entity and the type key, at the front |
| Commands.PushAddComponent | src/command_buffer.rs:35-37 | records an add for that entity, at the front |
| Commands.PushCreateEntity | src/command_buffer.rs:39-41 | records an entity creation, at the front |
| Commands.Iterate | src/command_buffer.rs:43-45 | iteration yields the buffer's whole contents, front first: rebuilding a buffer from it gives the same buffer |
| Commands.IntoIter | src/command_buffer.rs:43-49 | consuming iteration yields the same order as `iterate` |
| Commands.DrainIsLifo | src/command_buffer.rs:27-45 | commands come back in reverse order of enqueueing, ahead of what the buffer held |
| Commands.NewBufferDrainsReversed | src/command_buffer.rs:21-45 | from a new buffer, `c1 … cn` drains as `cn … c1` |
| Systems.NewBuilder | src/system.rs:24-31 | the builder requires nothing (every signature meets it) and has no action |
| Systems.WithAction | src/system.rs:33-36 | sets the action and nothing else |
| Systems.WithComponent | src/system.rs:38-43 | a signature meets the new requirement exactly when it meets the old one and carries the type; an unregistered type is excluded |
| Systems.Build | src/system.rs:45-52 | the accumulated signature, the builder's name, no members; a missing action is excluded |
| Systems.AddEntity | src/system.rs:87-89 | appends at the end, without de-duplication |
| Systems.RemoveEntity | src/system.rs:91-93 | drops every entry equal to the id and keeps the rest |
| Systems.AddThenRemove | src/system.rs:87-93 | removing right after adding leaves what removing alone leaves |
| Systems.AddRemoveCommute | src/system.rs:87-93 | adding one id and removing another commute |
| Systems.WithoutIdempotent | src/system.rs:91-93 | removing twice is removing once |
| Systems.WithoutAbsent | src/system.rs:91-93 | removing an absent id leaves the list exactly as it was, order included |
| ResourceStore.New | src/resources.rs:31-35 | no type has a resource |
| ResourceStore.Add | src/resources.rs:37-40 | the value is stored under its type and `get` yields it; other types are untouched |
| ResourceStore.Delete | src/resources.rs:50-54 | the type has no resource afterwards; other types are untouched |
| ResourceStore.GetThenAddIsNoOp | src/resources.rs:42-48 | `get` returns the stored value: adding it back leaves the store unchanged |
| ResourceStore.AddReplaces | src/resources.rs:37-40 | a second `add` of the same type replaces the first outright |
| ResourceStore.DeleteAbsentIsNoOp | src/resources.rs:50-54 | deleting an absent type changes nothing |
| ResourceStore.AddThenDelete | src/resources.rs:37-54 | deleting what was just added leaves the store as deleting alone would |
| Events.New | src/events/mod.rs:58-62 | no type has a handler, so emitting any event invokes nothing |
| Events.Subscribe | src/events/mod.rs:72-88 | the type's list is created if missing and the handler appended at its end; other types' lists are unchanged |
| Events.Emit | src/events/mod.rs:92-111 | each handler of the type is invoked once, in subscription order, with the same event; a type with no list invokes nothing |
| Events.SubscribeThenEmit | src/events/mod.rs:72-111 | a new subscriber is invoked last, after all earlier ones |
| Events.SubscribeOtherType | src/events/mod.rs:72-111 | subscribing to one type does not change what another type's emit invokes |
| Events.SubscribeAllThenEmit | src/events/mod.rs:72-111 | handlers subscribed in a given order are invoked in that order |
| CommandEffects.OneRemoval | src/world.rs:231-237 | one dynamically keyed removal is the one-command case of the order-free description: the bit and slot of that type on a used id, nothing on an unused one |
| CommandEffects.ComposeOne | src/world.rs:172-183 | handling one command and then the rest has the effect described for the whole list |
| CommandEffects.SameCommandsSameEffect | src/world.rs:172-183 | the description depends only on which commands occur, not on their order or repeats |
| CommandEffects.RemovedIsDetermined | src/world.rs:172-183 | the description pins the resulting entity manager down completely |
| Worlds.New | src/world.rs:32-43 | empty entity manager, systems, queues, resources and events, and no current entity |
| Worlds.CreateEntity | src/world.rs:57-64 | allocates through the entity manager, makes the id current and queues it for adding; systems and the remove queue are unchanged |
| Worlds.AddComponent | src/world.rs:210-220 | under its precondition the entity manager's call succeeds (the `unwrap` does not fire); systems, queues, resources, events and the current entity are unchanged |
| Worlds.WithComponent | src/world.rs:66-70 | adds to the current entity, successfully, and keeps it current; systems, queues, resources and events are unchanged |
| Worlds.FinishEntity | src/world.rs:72-74 | returns the current entity; having none is excluded |
| Worlds.RemoveComponent | src/world.rs:222-229 | under its precondition the entity manager's removal succeeds; systems, queues, resources, events and the current entity are unchanged |
| Worlds.RemoveComponentWithId | src/world.rs:231-237 | the dynamic removal with its error discarded: an unused id changes nothing |
| Worlds.HasComponent | src/world.rs:239-241 | the entity manager's successful answer |
| Worlds.RemoveEntity | src/world.rs:93-97 | only queues the id; entities, systems, the add queue, resources, events and the current entity are unchanged |
| Worlds.AddAll | src/world.rs:45-49 | the add phase changes only the systems: entities, both queues, resources, events and the current entity are kept |
| Worlds.AddEntityToSystems | src/world.rs:76-91 | every system whose requirement the entity's signature meets appends the entity; every other system is kept; entities, queues, resources, events and the current entity are unchanged |
| Worlds.JoinAllAppendsMatching | src/world.rs:76-91 | after the add phase, each system's list is its old list followed by the queued ids it matches, in queue order, and its signature is unchanged |
| Worlds.JoinAllMembers | src/world.rs:45-49 | after the add phase, a system holds an id exactly when it held it before or the id was queued and matches it |
| Worlds.KillEntity | src/world.rs:99-115 | the systems the current signature satisfies drop the entity, then the entity manager destroys it; queues, resources, events and the current entity are unchanged |
| Worlds.KillAll | src/world.rs:51-55 | the kill phase frees the queued ids in the order given; each killed entity's signature becomes 0 and its slot in every pool empties, while every other signature and slot, the masks and the pool lengths are kept (`Destroyed`); the system keys, queues, resources, events and current entity are kept |
| Worlds.KillAllLeaves | src/world.rs:51-55 | each queued entity leaves by the signature it had when the phase began, since killing one zeroes no other signature |
| Worlds.LeaveAllMembers | src/world.rs:99-115 | after the kill phase, a system keeps exactly the members that are not both queued and satisfying it |
| Worlds.Update | src/world.rs:45-55 | both queues end empty; exactly the queued-for-removal ids are freed and destroyed in the entity manager (zero signature, empty slots), every surviving entity keeps its signature and components; the system keys, resources, events and current entity are unchanged |
| Worlds.UpdateMembers | src/world.rs:45-55 | membership after `update`: held before or queued-and-matching, and not queued-for-removal-and-matching; it does not depend on the set iteration order |
| Worlds.StaleMemberSurvivesUpdate | src/world.rs:99-115 | an entity whose signature no longer satisfies a system it joined stays in that system's list after it is destroyed and its id is freed |
| Worlds.KillAllPreservesConsistent | src/world.rs:51-55 | killing live entities keeps the signature/pool invariant and ends exactly their lives |
| Worlds.UpdatePreservesConsistent | src/world.rs:45-55 | an `update` whose remove queue holds only live ids keeps the invariant, and the live ids afterwards are the old ones minus that queue |
| Worlds.AddSystem | src/world.rs:133-148 | the key now maps to the system, replacing any earlier one; with back-fill its list is extended by exactly the matching slots, ascending; nothing but the systems changes |
| Worlds.AddSystemBackfillIsExact | src/world.rs:137-144 | a freshly built, back-filled system holds exactly the slots whose signature satisfies it, in strictly ascending order |
| Worlds.BackfillTakesDeadSlots | src/world.rs:137-144 | a system requiring nothing takes slots that are not live |
| Worlds.RemoveSystem | src/world.rs:150-155 | only that key is removed, and nothing but the systems changes; when absent, nothing changes |
| Worlds.HasSystemTracksRegistration | src/world.rs:185-188 | `has_system` is true for a key just added and false for a key just removed; other keys keep their answer |
| Worlds.GetSystem | src/world.rs:190-198 | the system registered under the key; an unregistered key is excluded (`unwrap`) |
| Worlds.HandleCommand | src/world.rs:172-183 | a `RemoveEntity` command is `remove_entity` (queued only); a `RemoveComponent` command is `remove_component_with_id`; either way the entity manager changes as `CommandEffects.ComponentsRemoved` says for that one command, and systems, the add queue, resources, events and the current entity are kept |
| Worlds.HandleKeepsHandleable | src/world.rs:176-178 | one removal by dynamic key does not make a later command in the buffer panic |
| Worlds.HandleAll | src/world.rs:172-183 | draining the commands queues exactly the `RemoveEntity` ids for the next `update`; on every used id it clears the bits and pool slots of exactly the types some `RemoveComponent` names for it, leaving every other signature and slot, the ids and the masks unchanged; no system changes |
| Worlds.HandleOrderIrrelevant | src/world.rs:172-183 | two command lists holding the same commands, in any order and with any repeats, leave the same entity manager and the same remove queue |
| Worlds.HandleCommands | src/world.rs:172-183 | the whole buffer, drained front to back, queues every entity removal and applies every component removal as `CommandEffects.ComponentsRemoved` describes |
| Worlds.UpdateSystem | src/world.rs:157-170 | the systems map comes back unchanged; an unregistered system changes nothing; a registered one's commands are handled against the world with its systems taken out: entity removals are queued and component removals are applied; the add queue, resources, events and current entity are kept |
| Worlds.Subscribe | src/world.rs:117-119 | the handler is appended to its type's list only; entities, systems, resources, both queues and the current entity are unchanged |
| Worlds.EmitEvent | src/world.rs:125-131 | the trace is the registry's ordered invocation of the type's handlers, and the commands they leave are then handled: entity removals are queued and component removals are applied, with systems, the add queue, resources, events and the current entity kept; the buffer starts empty and only handlers write to it, so a type with no handler invokes nothing and leaves the world unchanged |
| Worlds.EmitAfterSubscribe | src/world.rs:117-131 | a handler subscribed through the world is invoked last by the next emit of its type |
| Worlds.AddResource | src/world.rs:200-203 | the resource store becomes the store's `add`: present with that value, other types untouched; entities, systems, events, queues and the current entity are unchanged |
| Worlds.DeleteResource | src/world.rs:205-208 | the resource store becomes the store's `delete`: absent, other types untouched; entities, systems, events, queues and the current entity are unchanged |
| Worlds.GetComponentSignatures | src/world.rs:243-245 | exactly the types `get_mask` knows, with their masks |

## Left out

- Logging and printing (`info!`, `println!`): output only, no effect on state.
- Worlds.New: `env_logger::init()` panics when a global logger is already set, so a second `World::new` in one process panics. That panic is not modelled, because it depends on process-wide state outside the world.
- `RefCell` borrow checking in pools, resources and queries: dynamic aliasing enforcement, not data logic. Values are modelled directly.
- `Any` downcasting and `TypeId`: replaced by maps indexed by `TypeKey`. A downcast to the wrong type cannot happen in the model.
- System actions and event handler bodies: foreign code. `update_system` and `emit_event` take the command buffer the foreign code produced as a parameter; for `emit_event` that buffer is required to be empty when the type has no handler, since only handlers write to it. `emit_event` returns the ordered trace of handler invocations.
- `SystemAction::to_system` (`add_system`): foreign code. The built `GameSystem` is a parameter.
- The component payloads of `AddComponent` and `CreateEntity` commands: the world hits `todo!()` on both, so those commands are excluded by `Worlds.Handleable`. The handler storage's `remove_any` is a `todo!()` that nothing calls.
- `Rc` sharing between `WorldEvents` and `EventEmitter`: one shared handler map stands for both. A subscription made after an emitter was created is therefore visible to it.
- `HashSet` iteration order in `update`: the two orders are parameters, each an enumeration of its set. Membership results hold for every order.
- `Query::resource` / `resource_mut` and `Resource::get` / `get_mut`: borrows and downcasts of what `ResourceStore.Get` returns.
- `is_empty`, `get_size`, `iter`, `iter_mut` on pools, `signature()`/`name()` accessors, `World::query`, `World::emiter`, `events()`: accessors with no logic of their own.
- ComponentStore.CanAddComponent: a 33rd component type is excluded by precondition. The code has no guard, and `1 << 32` overflows a `u32`: a panic in a debug build, a wrapped shift in a release build. The wrapped mask of a release build is not modelled.
- Integer widths: `usize` ids and counters are unbounded `nat`. Overflow would need about 2^64 entities.
- ecs_macro/src/lib.rs (derive macros), src/lib.rs (module declarations) and src/tests/mod.rs (tests) are not part of this model.
