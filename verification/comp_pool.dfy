/** One component pool: slot `i` holds entity `i`'s value of one component type, or nothing. */
module Pools {
  import opened Common
  import opened Errors

  type CompPool<V> = seq<Option<V>>

  /** Entity `i` holds a value in the pool; slots past the end hold nothing. */
  predicate Occupied<V>(p: CompPool<V>, i: nat) {
    i < |p| && p[i].Some?
  }

  /** `CompPool::new(size)`: `size` empty slots. */
  function New<V>(size: nat): (p: CompPool<V>)
    ensures |p| == size
    ensures forall i :: 0 <= i < size ==> !Occupied(p, i)
  {
    seq(size, _ => None)
  }

  /** `add`: appends an occupied slot. */
  function Add<V>(p: CompPool<V>, v: V): (q: CompPool<V>)
    ensures |q| == |p| + 1
    ensures q[|p|] == Some(v)
    ensures forall i :: 0 <= i < |p| ==> q[i] == p[i]
  {
    p + [Some(v)]
  }

  /** `remove`: empties slot `index`, or reports the index as missing past the end. */
  function Remove<V>(p: CompPool<V>, index: nat): (r: Result<CompPool<V>>)
    ensures r.Ok? <==> index < |p|
    ensures r.Err? ==> r.error == EntityDoesNotExist(index)
    ensures r.Ok? ==> |r.value| == |p| && !Occupied(r.value, index)
    ensures r.Ok? ==> forall j :: 0 <= j < |p| && j != index ==> r.value[j] == p[j]
  {
    if index < |p| then Ok(p[index := None]) else Err(EntityDoesNotExist(index))
  }

  /** `set`: stores `v` in slot `index`, which must already exist. */
  function Set<V>(p: CompPool<V>, index: nat, v: V): (r: Result<CompPool<V>>)
    ensures r.Ok? <==> index < |p|
    ensures r.Err? ==> r.error == EntityDoesNotExist(index)
    ensures r.Ok? ==> |r.value| == |p| && r.value[index] == Some(v)
    ensures r.Ok? ==> forall j :: 0 <= j < |p| && j != index ==> r.value[j] == p[j]
  {
    if index < |p| then Ok(p[index := Some(v)]) else Err(EntityDoesNotExist(index))
  }

  /** `get` (and `get_mut`, which differs only in the kind of borrow it hands out).
      An in-bounds empty slot is unwrapped and panics, hence the precondition. */
  function Get<V>(p: CompPool<V>, index: nat): (r: Result<V>)
    requires index < |p| ==> p[index].Some?
    ensures r.Ok? <==> index < |p|
    ensures r.Ok? ==> p[index] == Some(r.value)
    ensures r.Err? ==> r.error == EntityDoesNotExist(index)
  {
    if index < |p| then Ok(p[index].value) else Err(EntityDoesNotExist(index))
  }

  /** `GenericCompPool::resize`: truncates or pads with empty slots. */
  function Resize<V>(p: CompPool<V>, size: nat): (q: CompPool<V>)
    ensures |q| == size
    ensures forall i :: 0 <= i < size && i < |p| ==> q[i] == p[i]
    ensures forall i :: |p| <= i < size ==> q[i] == None
  {
    if size <= |p| then p[..size] else p + seq(size - |p|, _ => None)
  }

  /** `GenericCompPool::remove_any`: empties a slot with no bounds check (indexing panics). */
  function RemoveAny<V>(p: CompPool<V>, index: nat): (q: CompPool<V>)
    requires index < |p|
    ensures |q| == |p| && !Occupied(q, index)
    ensures forall j :: 0 <= j < |p| && j != index ==> q[j] == p[j]
  {
    p[index := None]
  }

  /** A value stored by `set` is what `get` returns. */
  lemma SetThenGet<V>(p: CompPool<V>, index: nat, v: V)
    requires index < |p|
    ensures Set(p, index, v).Ok?
    ensures Get(Set(p, index, v).value, index) == Ok(v)
  {
  }

  /** Removing twice is removing once. */
  lemma RemoveIdempotent<V>(p: CompPool<V>, index: nat)
    requires index < |p|
    ensures Remove(Remove(p, index).value, index) == Remove(p, index)
  {
    assert p[index := None][index := None] == p[index := None];
  }

  /** Within bounds the unchecked `remove_any` agrees with the checked `remove`. */
  lemma RemoveAnyAgreesWithRemove<V>(p: CompPool<V>, index: nat)
    requires index < |p|
    ensures Remove(p, index) == Ok(RemoveAny(p, index))
  {
  }

  /** Resizing keeps exactly the occupancy of the slots that survive. */
  lemma ResizeKeepsOccupancy<V>(p: CompPool<V>, size: nat, i: nat)
    ensures Occupied(Resize(p, size), i) <==> i < size && Occupied(p, i)
  {
  }

  /** `GenericCompPool::clear`: drops every slot, leaving a pool of length zero. */
  function Clear<V>(p: CompPool<V>): (q: CompPool<V>)
    ensures |q| == 0
  {
    []
  }

  /** A cleared pool grown back to `size` is a fresh pool of that size: nothing survives. */
  lemma ClearThenResizeIsNew<V>(p: CompPool<V>, size: nat)
    ensures Resize(Clear(p), size) == New(size)
  {
  }
}
