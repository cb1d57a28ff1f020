/** The deferred-command queue systems and event handlers fill, and the world drains. */
module Commands {
  import opened Common

  /** The component payloads of `AddComponent` and `CreateEntity` are boxed values the
      world never consumes (it panics on both), so only their shape is kept. */
  datatype WorldCommand =
    | RemoveEntity(entity: EntityId)
    | RemoveComponent(entity: EntityId, key: TypeKey)
    | CreateEntity
    | AddComponent(entity: EntityId)

  /** The queue, front first: `commands[0]` is the first one iteration yields. */
  datatype CommandBuffer = CommandBuffer(commands: seq<WorldCommand>)

  function New(): (b: CommandBuffer)
    ensures Iterate(b) == []
  {
    CommandBuffer([])
  }

  /** What every producer does: one command at the front. */
  function Push(b: CommandBuffer, c: WorldCommand): (r: CommandBuffer)
    ensures |Iterate(r)| == |Iterate(b)| + 1
    ensures Iterate(r)[0] == c && Iterate(r)[1..] == Iterate(b)
  {
    CommandBuffer([c] + b.commands)
  }

  /** `remove_entity`: records the entity's index. */
  function PushRemoveEntity(b: CommandBuffer, entity: EntityId): (r: CommandBuffer)
    ensures Iterate(r) == [RemoveEntity(entity)] + Iterate(b)
  {
    Push(b, RemoveEntity(entity))
  }

  /** `remove_component<T>`: records the entity's index and the type's key. */
  function PushRemoveComponent(b: CommandBuffer, entity: EntityId, k: TypeKey): (r: CommandBuffer)
    ensures Iterate(r) == [RemoveComponent(entity, k)] + Iterate(b)
  {
    Push(b, RemoveComponent(entity, k))
  }

  /** `add_component`: records the entity's index. */
  function PushAddComponent(b: CommandBuffer, entity: EntityId): (r: CommandBuffer)
    ensures Iterate(r) == [AddComponent(entity)] + Iterate(b)
  {
    Push(b, AddComponent(entity))
  }

  /** `create_component`: records an entity creation. */
  function PushCreateEntity(b: CommandBuffer): (r: CommandBuffer)
    ensures Iterate(r) == [CreateEntity] + Iterate(b)
  {
    Push(b, CreateEntity)
  }

  /** `iterate`: front to back. */
  function Iterate(b: CommandBuffer): (cmds: seq<WorldCommand>)
    ensures CommandBuffer(cmds) == b
  {
    b.commands
  }

  /** `into_iter`: the same order as `iterate`. */
  function IntoIter(b: CommandBuffer): (r: seq<WorldCommand>)
    ensures r == Iterate(b)
  {
    b.commands
  }

  /** Enqueueing `cs` in order, each through a producer. */
  function EnqueueAll(b: CommandBuffer, cs: seq<WorldCommand>): (r: CommandBuffer)
    ensures |Iterate(r)| == |Iterate(b)| + |cs|
    decreases |cs|
  {
    if cs == [] then b else EnqueueAll(Push(b, cs[0]), cs[1..])
  }

  function Reverse<T>(s: seq<T>): (r: seq<T>)
    ensures |r| == |s| && forall i :: 0 <= i < |s| ==> r[i] == s[|s| - 1 - i]
  {
    if s == [] then [] else Reverse(s[1..]) + [s[0]]
  }

  /** Draining is last in, first out: commands come back in the reverse of the order they
      were enqueued, ahead of whatever the buffer already held. */
  lemma {:induction false} DrainIsLifo(b: CommandBuffer, cs: seq<WorldCommand>)
    ensures Iterate(EnqueueAll(b, cs)) == Reverse(cs) + Iterate(b)
    decreases |cs|
  {
    if cs != [] {
      DrainIsLifo(Push(b, cs[0]), cs[1..]);
      assert Reverse(cs) == Reverse(cs[1..]) + [cs[0]];
      AppendAssoc(Reverse(cs[1..]), [cs[0]], Iterate(b));
    }
  }

  /** From an empty buffer, enqueueing `c1, ..., cn` drains as `cn, ..., c1`. */
  lemma NewBufferDrainsReversed(cs: seq<WorldCommand>)
    ensures Iterate(EnqueueAll(New(), cs)) == Reverse(cs)
  {
    DrainIsLifo(New(), cs);
    assert Reverse(cs) + [] == Reverse(cs);
  }
}
