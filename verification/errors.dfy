/** The two recoverable errors of the store, and the result type that carries them. */
module Errors {
  import opened Common

  datatype EcsError =
    | EntityDoesNotExist(entity: EntityId)
    | ComponentDoesNotExist(component: string)

  /** The name the dynamically keyed paths report, since they have no static type to name. */
  const UnknownComponent: string := "Unknown"

  /** The error the statically typed paths report for an unregistered component type. */
  function ComponentMissing(k: TypeKey): (e: EcsError)
    ensures e.ComponentDoesNotExist? && e.component == k.name
  {
    ComponentDoesNotExist(k.name)
  }

  datatype Result<+T> = Ok(value: T) | Err(error: EcsError)
}
