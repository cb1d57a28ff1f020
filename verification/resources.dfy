/** The resource store: at most one value per type, keyed by the value's own type. */
module ResourceStore {
  import opened Common

  datatype Resources<R> = Resources(data: map<TypeKey, R>)

  function New<R>(): (res: Resources<R>)
    ensures forall k :: !Has(res, k)
  {
    Resources(map[])
  }

  predicate Has<R>(res: Resources<R>, k: TypeKey) {
    k in res.data
  }

  /** `add`: stores the value under its type, replacing any earlier value of that type. */
  function Add<R>(res: Resources<R>, k: TypeKey, value: R): (r: Resources<R>)
    ensures Has(r, k) && Get(r, k) == value
    ensures forall k' :: k' != k ==> (Has(r, k') <==> Has(res, k'))
    ensures forall k' :: k' != k && Has(res, k') ==> Get(r, k') == Get(res, k')
  {
    Resources(res.data[k := value])
  }

  /** `get`: the stored value; an absent type makes the `unwrap` panic. */
  function Get<R>(res: Resources<R>, k: TypeKey): (v: R)
    requires Has(res, k)
  {
    res.data[k]
  }

  /** `delete`: drops the type's value, if any, and nothing else. */
  function Delete<R>(res: Resources<R>, k: TypeKey): (r: Resources<R>)
    ensures !Has(r, k)
    ensures forall k' :: k' != k ==> (Has(r, k') <==> Has(res, k'))
    ensures forall k' :: k' != k && Has(res, k') ==> Get(r, k') == Get(res, k')
  {
    Resources(res.data - {k})
  }

  /** Storing back what `get` returned changes nothing. */
  lemma GetThenAddIsNoOp<R>(res: Resources<R>, k: TypeKey)
    requires Has(res, k)
    ensures Add(res, k, Get(res, k)) == res
  {
  }

  /** A second `add` of the same type wins outright. */
  lemma AddReplaces<R>(res: Resources<R>, k: TypeKey, first: R, second: R)
    ensures Add(Add(res, k, first), k, second) == Add(res, k, second)
  {
  }

  /** Deleting an absent type changes nothing. */
  lemma DeleteAbsentIsNoOp<R>(res: Resources<R>, k: TypeKey)
    requires !Has(res, k)
    ensures Delete(res, k) == res
  {
  }

  /** Deleting what was just added leaves the store as if the type had been deleted. */
  lemma AddThenDelete<R>(res: Resources<R>, k: TypeKey, value: R)
    ensures Delete(Add(res, k, value), k) == Delete(res, k)
  {
  }
}
