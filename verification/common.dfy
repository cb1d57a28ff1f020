/** Names shared by every part of the entity-component-system model. */
module Common {

  /** An optional value: one slot of a component pool, the action of a system builder. */
  datatype Option<+T> = None | Some(value: T)

  /** The stable per-process identity of a Rust type (its `TypeId`). Two keys are the
      same type exactly when their names agree; the name is what `type_name` prints. */
  datatype TypeKey = TypeKey(name: string)

  /** The index an `Entity` handle wraps: a slot of the signature array and of every pool. */
  type EntityId = nat

  /** Concatenation regroups freely. */
  lemma AppendAssoc<T>(a: seq<T>, b: seq<T>, c: seq<T>)
    ensures (a + b) + c == a + (b + c)
  {
  }
}
