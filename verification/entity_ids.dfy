/** The entity id allocator: a counter for fresh ids and a FIFO queue of freed ones. */
module EntityIds {
  import opened Common

  datatype IdGenerator = IdGenerator(next: nat, freed: seq<EntityId>)

  function New(): (g: IdGenerator)
    ensures g.next == 0 && g.freed == []
    ensures forall id :: !Live(g, id)
    ensures forall id :: IsIdUsed(g, id) <==> id == 0
  {
    IdGenerator(0, [])
  }

  /** `get_id`: the oldest freed id if there is one, else the counter, which then moves on. */
  function GetId(g: IdGenerator): (r: (IdGenerator, EntityId))
    ensures g.freed == [] ==> r.1 == g.next && r.0 == IdGenerator(g.next + 1, [])
    ensures g.freed != [] ==> r.1 == g.freed[0] && r.0 == IdGenerator(g.next, g.freed[1..])
  {
    if g.freed == [] then (IdGenerator(g.next + 1, []), g.next)
    else (IdGenerator(g.next, g.freed[1..]), g.freed[0])
  }

  /** `free_id`: queues the id at the back, with no check that it was ever issued. */
  function FreeId(g: IdGenerator, id: EntityId): (r: IdGenerator)
    ensures r.next == g.next && r.freed == g.freed + [id]
  {
    IdGenerator(g.next, g.freed + [id])
  }

  /** `is_id_used`, exactly as written: the comparison admits the counter itself,
      an id that has not been handed out yet. */
  predicate IsIdUsed(g: IdGenerator, id: EntityId) {
    id <= g.next && id !in g.freed
  }

  /** An id that has been handed out and not freed since. */
  predicate Live(g: IdGenerator, id: EntityId) {
    id < g.next && id !in g.freed
  }

  /** What the allocator keeps true: the queue holds distinct ids, each issued before. */
  ghost predicate Valid(g: IdGenerator) {
    && (forall i :: 0 <= i < |g.freed| ==> g.freed[i] < g.next)
    && (forall i, j :: 0 <= i < j < |g.freed| ==> g.freed[i] != g.freed[j])
  }

  /** `is_id_used` is liveness plus exactly one more id: the counter, when it is not queued. */
  lemma IsIdUsedAdmitsCounter(g: IdGenerator, id: EntityId)
    ensures IsIdUsed(g, id) <==> Live(g, id) || (id == g.next && id !in g.freed)
    ensures Valid(g) ==> IsIdUsed(g, g.next) && !Live(g, g.next)
  {
    if Valid(g) {
      assert forall i :: 0 <= i < |g.freed| ==> g.freed[i] != g.next;
    }
  }

  /** Taking `n` ids in a row. */
  function TakeIds(g: IdGenerator, n: nat): (r: (IdGenerator, seq<EntityId>))
    ensures |r.1| == n
    decreases n
  {
    if n == 0 then (g, [])
    else
      var first := GetId(g);
      var rest := TakeIds(first.0, n - 1);
      (rest.0, [first.1] + rest.1)
  }

  /** Freeing a sequence of ids in order. */
  function FreeIds(g: IdGenerator, ids: seq<EntityId>): (r: IdGenerator)
    ensures r.next == g.next && r.freed == g.freed + ids
    decreases |ids|
  {
    if ids == [] then g
    else
      assert g.freed + ids == (g.freed + [ids[0]]) + ids[1..];
      FreeIds(FreeId(g, ids[0]), ids[1..])
  }

  /** The ids `start, start + 1, ..., start + n - 1`. */
  function Range(start: nat, n: nat): (r: seq<EntityId>)
    ensures |r| == n && forall i :: 0 <= i < n ==> r[i] == start + i
  {
    seq(n, i => start + i)
  }

  /** With nothing queued, ids come out as consecutive counter values. */
  lemma {:induction false} FreshIdsAreSequential(g: IdGenerator, n: nat)
    requires g.freed == []
    ensures TakeIds(g, n).1 == Range(g.next, n)
    ensures TakeIds(g, n).0 == IdGenerator(g.next + n, [])
    decreases n
  {
    if n > 0 {
      var g' := IdGenerator(g.next + 1, []);
      FreshIdsAreSequential(g', n - 1);
      assert TakeIds(g, n).1 == [g.next] + Range(g.next + 1, n - 1);
    }
  }

  /** Queued ids come out front first, in the order they were freed, and the counter stays put. */
  lemma {:induction false} ReuseIsFifo(g: IdGenerator, n: nat)
    requires n <= |g.freed|
    ensures TakeIds(g, n).1 == g.freed[..n]
    ensures TakeIds(g, n).0 == IdGenerator(g.next, g.freed[n..])
    decreases n
  {
    if n > 0 {
      var g' := IdGenerator(g.next, g.freed[1..]);
      ReuseIsFifo(g', n - 1);
      assert g.freed[1..][..n - 1] == g.freed[1..n];
      assert g.freed[1..][n - 1..] == g.freed[n..];
      assert [g.freed[0]] + g.freed[1..n] == g.freed[..n];
    }
  }

  /** Taking `a + b` ids is taking `a`, then `b` more from where that left off. */
  lemma {:induction false} TakeIdsSplit(g: IdGenerator, a: nat, b: nat)
    ensures TakeIds(g, a + b).0 == TakeIds(TakeIds(g, a).0, b).0
    ensures TakeIds(g, a + b).1 == TakeIds(g, a).1 + TakeIds(TakeIds(g, a).0, b).1
    decreases a
  {
    if a > 0 {
      var first := GetId(g);
      var h := first.0;
      TakeIdsSplit(h, a - 1, b);
      var front, whole := TakeIds(h, a - 1), TakeIds(h, (a - 1) + b);
      var back := TakeIds(front.0, b);
      assert TakeIds(g, a) == (front.0, [first.1] + front.1);
      assert TakeIds(g, a + b) == (whole.0, [first.1] + whole.1);
      AppendAssoc([first.1], front.1, back.1);
    }
  }

  /** Every queued id is reused before any fresh id is drawn from the counter. */
  lemma ReuseBeforeFresh(g: IdGenerator, n: nat)
    ensures TakeIds(g, |g.freed| + n).1 == g.freed + Range(g.next, n)
  {
    var reused := TakeIds(g, |g.freed|);
    TakeIdsSplit(g, |g.freed|, n);
    ReuseIsFifo(g, |g.freed|);
    assert g.freed[..|g.freed|] == g.freed;
    assert g.freed[|g.freed|..] == [];
    assert reused == (IdGenerator(g.next, []), g.freed);
    FreshIdsAreSequential(reused.0, n);
  }

  /** Freed ids come back in the order they were freed, after the ones already queued. */
  lemma FreedComeBackInOrder(g: IdGenerator, ids: seq<EntityId>)
    ensures TakeIds(FreeIds(g, ids), |g.freed| + |ids|).1 == g.freed + ids
  {
    var h := FreeIds(g, ids);
    DrainQueue(h);
    assert |h.freed| == |g.freed| + |ids|;
  }

  /** Drawing as many ids as are queued hands back the whole queue. */
  lemma DrainQueue(h: IdGenerator)
    ensures TakeIds(h, |h.freed|).1 == h.freed
  {
    ReuseIsFifo(h, |h.freed|);
    assert h.freed[..|h.freed|] == h.freed;
  }

  /** Drawing an id keeps the allocator valid; the id drawn was not live, and it is the one id that becomes live. */
  lemma GetIdPreservesValid(g: IdGenerator)
    requires Valid(g)
    ensures Valid(GetId(g).0)
    ensures !Live(g, GetId(g).1)
    ensures forall id :: Live(GetId(g).0, id) <==> Live(g, id) || id == GetId(g).1
  {
    if g.freed != [] {
      var rest := g.freed[1..];
      forall i | 0 <= i < |rest|
        ensures rest[i] != g.freed[0]
      {
        assert rest[i] == g.freed[i + 1];
      }
    }
  }

  /** Freeing a live id keeps the allocator valid and ends exactly that id's life. */
  lemma FreeIdPreservesValid(g: IdGenerator, id: EntityId)
    requires Valid(g) && Live(g, id)
    ensures Valid(FreeId(g, id))
    ensures forall x :: Live(FreeId(g, id), x) <==> Live(g, x) && x != id
  {
    var after := FreeId(g, id);
    forall i, j | 0 <= i < j < |after.freed|
      ensures after.freed[i] != after.freed[j]
    {
      if j == |g.freed| {
        assert after.freed[i] == g.freed[i];
      }
    }
  }
}
