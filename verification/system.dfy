/** Systems: a builder that accumulates the required signature, and the built system with
    its ordered list of member entities. */
module Systems {
  import opened Common
  import opened Signatures

  /** A system's action is foreign code; it is kept as an opaque id. */
  type ActionId = nat

  datatype SystemBuilder = SystemBuilder(
    masks: map<TypeKey, bv32>,
    signature: bv32,
    name: string,
    action: Option<ActionId>)

  datatype GameSystem = GameSystem(
    name: string,
    signature: bv32,
    entities: seq<EntityId>,
    action: ActionId)

  /** `SystemBuilder::new`: a copy of the type-to-mask map, nothing required yet, no action. */
  function NewBuilder(masks: map<TypeKey, bv32>, name: string): (b: SystemBuilder)
    ensures b.masks == masks && b.name == name && b.action == None
    ensures forall sig: bv32 :: Contains(sig, b.signature)
  {
    ContainsNothingAll();
    SystemBuilder(masks, 0, name, None)
  }

  /** `with_action`. */
  function WithAction(b: SystemBuilder, action: ActionId): (r: SystemBuilder)
    ensures r.action == Some(action)
    ensures r.masks == b.masks && r.signature == b.signature && r.name == b.name
  {
    b.(action := Some(action))
  }

  /** `with_component`: the type's mask joins the signature, so a member must carry the
      type as well; an unregistered type makes the `unwrap` panic. */
  function WithComponent(b: SystemBuilder, k: TypeKey): (r: SystemBuilder)
    requires k in b.masks
    ensures r.masks == b.masks && r.name == b.name && r.action == b.action
    ensures forall sig: bv32 :: Contains(sig, r.signature) <==>
              Contains(sig, b.signature) && Contains(sig, b.masks[k])
  {
    b.(signature := Require(b.signature, b.masks[k]))
  }

  /** `build`: the accumulated signature and no members; without an action the `unwrap`
      panics. */
  function Build(b: SystemBuilder): (s: GameSystem)
    requires b.action.Some?
    ensures s.signature == b.signature && s.name == b.name && s.action == b.action.value
    ensures s.entities == []
  {
    GameSystem(b.name, b.signature, [], b.action.value)
  }

  /** `add_entity`: appends, with no check for an entity already listed. */
  function AddEntity(s: GameSystem, entity: EntityId): (r: GameSystem)
    ensures r.entities == s.entities + [entity]
    ensures r.name == s.name && r.signature == s.signature && r.action == s.action
  {
    s.(entities := s.entities + [entity])
  }

  /** `remove_entity`: drops every entry equal to the entity and keeps the rest in order. */
  function RemoveEntity(s: GameSystem, entity: EntityId): (r: GameSystem)
    ensures r.entities == Without(s.entities, entity)
    ensures r.name == s.name && r.signature == s.signature && r.action == s.action
  {
    s.(entities := Without(s.entities, entity))
  }

  /** `entities` with every `entity` entry dropped, the others in their order. */
  function Without(entities: seq<EntityId>, entity: EntityId): (r: seq<EntityId>)
    ensures forall x :: x in r <==> x in entities && x != entity
    ensures |r| <= |entities|
    decreases |entities|
  {
    if entities == [] then []
    else
      var rest := Without(entities[1..], entity);
      if entities[0] == entity then rest else [entities[0]] + rest
  }

  /** Dropping distributes over concatenation. */
  lemma {:induction false} WithoutConcat(a: seq<EntityId>, b: seq<EntityId>, entity: EntityId)
    ensures Without(a + b, entity) == Without(a, entity) + Without(b, entity)
    decreases |a|
  {
    if a != [] {
      WithoutConcat(a[1..], b, entity);
      assert (a + b)[0] == a[0] && (a + b)[1..] == a[1..] + b;
      var rest := Without(a[1..], entity);
      if a[0] != entity {
        AppendAssoc([a[0]], rest, Without(b, entity));
      }
    } else {
      assert a + b == b;
    }
  }

  /** Removing an entity right after adding it undoes the add, and any earlier entries. */
  lemma AddThenRemove(s: GameSystem, entity: EntityId)
    ensures RemoveEntity(AddEntity(s, entity), entity) == RemoveEntity(s, entity)
  {
    WithoutConcat(s.entities, [entity], entity);
  }

  /** Adding another entity and removing an entity commute. */
  lemma AddRemoveCommute(s: GameSystem, added: EntityId, removed: EntityId)
    requires added != removed
    ensures RemoveEntity(AddEntity(s, added), removed) == AddEntity(RemoveEntity(s, removed), added)
  {
    WithoutConcat(s.entities, [added], removed);
  }

  /** Removing twice is removing once. */
  lemma {:induction false} WithoutIdempotent(entities: seq<EntityId>, entity: EntityId)
    ensures Without(Without(entities, entity), entity) == Without(entities, entity)
    decreases |entities|
  {
    if entities != [] {
      WithoutIdempotent(entities[1..], entity);
    }
  }

  /** An entity not listed is untouched by removal: the list comes back as it was. */
  lemma {:induction false} WithoutAbsent(entities: seq<EntityId>, entity: EntityId)
    requires entity !in entities
    ensures Without(entities, entity) == entities
    decreases |entities|
  {
    if entities != [] {
      WithoutAbsent(entities[1..], entity);
    }
  }
}
