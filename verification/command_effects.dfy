/** What handling a run of commands does to the entity manager, stated without reference to
    the order of the commands: every component removal aimed at a used id clears that type's
    bit in the id's signature and its slot in the type's pool, and nothing else changes.
    Queued entity removals leave the manager alone until `update`. */
module CommandEffects {
  import opened Common
  import opened EntityIds
  import EM = EntityStore
  import Cmd = Commands
  import CS = ComponentStore
  import Pools

  /** A type's mask, or no bits for a type that has none. */
  function MaskOf(masks: map<TypeKey, bv32>, k: TypeKey): (m: bv32) {
    if k in masks then masks[k] else 0
  }

  ghost function PickKey(ks: set<TypeKey>): (k: TypeKey)
    requires ks != {}
    ensures k in ks
  {
    var k :| k in ks; k
  }

  /** The union of the masks of every type in `ks`. */
  ghost function UnionMask(masks: map<TypeKey, bv32>, ks: set<TypeKey>): (m: bv32)
    decreases ks
  {
    if ks == {} then 0
    else
      var k := PickKey(ks);
      MaskOf(masks, k) | UnionMask(masks, ks - {k})
  }

  lemma OrSwap(a: bv32, b: bv32, c: bv32)
    ensures a | (b | c) == b | (a | c)
  {
  }

  lemma OrAbsorb(a: bv32, b: bv32)
    ensures a | (a | b) == a | b
  {
  }

  /** Any member can be taken out first: the union does not depend on the order in which
      `PickKey` visits the set. */
  lemma {:induction false} UnionMaskTake(masks: map<TypeKey, bv32>, ks: set<TypeKey>, k: TypeKey)
    requires k in ks
    ensures UnionMask(masks, ks) == MaskOf(masks, k) | UnionMask(masks, ks - {k})
    decreases ks
  {
    var j := PickKey(ks);
    if j != k {
      UnionMaskTake(masks, ks - {j}, k);
      UnionMaskTake(masks, ks - {k}, j);
      assert ks - {j} - {k} == ks - {k} - {j};
      OrSwap(MaskOf(masks, j), MaskOf(masks, k), UnionMask(masks, ks - {j} - {k}));
    }
  }

  /** Adding a type to the set ORs in its mask, whether or not it was there already. */
  lemma UnionMaskAdd(masks: map<TypeKey, bv32>, ks: set<TypeKey>, k: TypeKey)
    ensures UnionMask(masks, ks + {k}) == MaskOf(masks, k) | UnionMask(masks, ks)
  {
    if k in ks {
      assert ks + {k} == ks;
      UnionMaskTake(masks, ks, k);
      OrAbsorb(MaskOf(masks, k), UnionMask(masks, ks - {k}));
    } else {
      UnionMaskTake(masks, ks + {k}, k);
      assert ks + {k} - {k} == ks;
    }
  }

  lemma UnionMaskOne(masks: map<TypeKey, bv32>, k: TypeKey)
    ensures UnionMask(masks, {k}) == MaskOf(masks, k)
  {
    UnionMaskAdd(masks, {}, k);
    assert {} + {k} == {k};
  }

  /** The types whose removal from `e` the commands ask for, when `e` is a used id; every
      removal aimed at an unused id is rejected. */
  ghost function ClearedKeys<V>(em: EM.EntityManager<V>, cmds: seq<Cmd.WorldCommand>, e: EntityId)
    : (ks: set<TypeKey>)
    ensures forall k :: k in ks <==> IsIdUsed(em.ids, e) && Cmd.RemoveComponent(e, k) in cmds
  {
    if IsIdUsed(em.ids, e) then
      set i | 0 <= i < |cmds| && cmds[i].RemoveComponent? && cmds[i].entity == e :: cmds[i].key
    else {}
  }

  /** `after` is `em` with, for every used id, the bits of every type the commands remove
      from it cleared from its signature and its slots in those types' pools emptied; ids,
      masks, pool types and lengths, and every other signature and slot are unchanged. */
  ghost predicate ComponentsRemoved<V>(em: EM.EntityManager<V>, after: EM.EntityManager<V>,
                                       cmds: seq<Cmd.WorldCommand>)
  {
    && after.ids == em.ids
    && after.components.masks == em.components.masks
    && SignaturesCleared(em, after, cmds)
    && SlotsCleared(em, after, cmds)
  }

  ghost predicate SignaturesCleared<V>(em: EM.EntityManager<V>, after: EM.EntityManager<V>,
                                       cmds: seq<Cmd.WorldCommand>)
  {
    && |after.signatures| == |em.signatures|
    && (forall e :: 0 <= e < |em.signatures| ==> SignatureClearedAt(em, after, cmds, e))
  }

  /** Slot `e` of the signature array has lost exactly the bits the commands clear from it. */
  ghost predicate SignatureClearedAt<V>(em: EM.EntityManager<V>, after: EM.EntityManager<V>,
                                        cmds: seq<Cmd.WorldCommand>, e: EntityId)
  {
    && e < |em.signatures| && e < |after.signatures|
    && after.signatures[e] ==
         em.signatures[e] & !UnionMask(em.components.masks, ClearedKeys(em, cmds, e))
  }

  ghost predicate SlotsCleared<V>(em: EM.EntityManager<V>, after: EM.EntityManager<V>,
                                  cmds: seq<Cmd.WorldCommand>)
  {
    && after.components.pools.Keys == em.components.pools.Keys
    && (forall k :: k in em.components.pools ==>
          |after.components.pools[k]| == |em.components.pools[k]|)
    && (forall k, e :: k in em.components.pools && 0 <= e < |em.components.pools[k]| ==>
          after.components.pools[k][e] ==
            if k in ClearedKeys(em, cmds, e) then None else em.components.pools[k][e])
  }

  lemma NoCommandsRemoveNothing<V>(em: EM.EntityManager<V>)
    ensures ComponentsRemoved(em, em, [])
  {
  }

  /** A queued entity removal touches no component. */
  lemma QueuedRemovalTouchesNothing<V>(em: EM.EntityManager<V>, x: EntityId)
    ensures ComponentsRemoved(em, em, [Cmd.RemoveEntity(x)])
  {
  }

  /** One dynamically keyed removal is the one-command case of `ComponentsRemoved`. */
  lemma OneRemoval<V>(em: EM.EntityManager<V>, e: EntityId, k: TypeKey)
    requires EM.CanRemoveComponent(em, e, k)
    ensures ComponentsRemoved(em, EM.RemoveComponentForId(em, e, k).0, [Cmd.RemoveComponent(e, k)])
  {
    var after := EM.RemoveComponentForId(em, e, k).0;
    if IsIdUsed(em.ids, e) {
      assert EM.ComponentRemoved(em, after, e, k);
      UsedRemoval(em, after, e, k);
    } else {
      forall x: EntityId
        ensures ClearedKeys(em, [Cmd.RemoveComponent(e, k)], x) == {}
      {
        SingleRemovalKeys(em, e, k, x);
      }
    }
  }

  /** The types one removal command clears from each id. */
  lemma SingleRemovalKeys<V>(em: EM.EntityManager<V>, e: EntityId, k: TypeKey, x: EntityId)
    ensures ClearedKeys(em, [Cmd.RemoveComponent(e, k)], x) ==
              if x == e && IsIdUsed(em.ids, e) then {k} else {}
  {
  }

  /** The used-id case of `OneRemoval`, from the entity manager's own removal contract. */
  lemma UsedRemoval<V>(em: EM.EntityManager<V>, after: EM.EntityManager<V>, e: EntityId, k: TypeKey)
    requires k in em.components.masks && e < |em.signatures|
    requires EM.ComponentRemoved(em, after, e, k)
    requires IsIdUsed(em.ids, e)
    requires k in em.components.pools ==> e < |em.components.pools[k]|
    ensures ComponentsRemoved(em, after, [Cmd.RemoveComponent(e, k)])
  {
    SignatureAfterOne(em, after, e, k);
    SlotsAfterOne(em, after, e, k);
  }

  lemma {:induction false} SignatureAfterOne<V>(em: EM.EntityManager<V>, after: EM.EntityManager<V>, e: EntityId, k: TypeKey)
    requires k in em.components.masks && e < |em.signatures| && IsIdUsed(em.ids, e)
    requires after.components.masks == em.components.masks
    requires |after.signatures| == |em.signatures|
    requires after.signatures[e] == em.signatures[e] & !em.components.masks[k]
    requires forall j :: 0 <= j < |em.signatures| && j != e ==> after.signatures[j] == em.signatures[j]
    ensures SignaturesCleared(em, after, [Cmd.RemoveComponent(e, k)])
  {
    var cmds := [Cmd.RemoveComponent(e, k)];
    var masks := em.components.masks;
    forall x | 0 <= x < |em.signatures|
      ensures SignatureClearedAt(em, after, cmds, x)
    {
      SignatureAt(em, after, e, k, x);
    }
  }

  lemma {:induction false} SignatureAt<V>(em: EM.EntityManager<V>, after: EM.EntityManager<V>, e: EntityId, k: TypeKey, x: EntityId)
    requires k in em.components.masks && e < |em.signatures| && IsIdUsed(em.ids, e)
    requires |after.signatures| == |em.signatures| && x < |em.signatures|
    requires after.signatures[e] == em.signatures[e] & !em.components.masks[k]
    requires x != e ==> after.signatures[x] == em.signatures[x]
    ensures SignatureClearedAt(em, after, [Cmd.RemoveComponent(e, k)], x)
  {
    var cmds := [Cmd.RemoveComponent(e, k)];
    var masks := em.components.masks;
    SingleRemovalKeys(em, e, k, x);
    if x == e {
      UnionMaskOne(masks, k);
    }
  }

  lemma {:induction false} SlotsAfterOne<V>(em: EM.EntityManager<V>, after: EM.EntityManager<V>, e: EntityId, k: TypeKey)
    requires IsIdUsed(em.ids, e)
    requires k in em.components.pools ==> e < |em.components.pools[k]|
    requires k in em.components.pools ==> CS.Cleared(em.components, after.components, e, k)
    requires k !in em.components.pools ==> after.components == em.components
    ensures SlotsCleared(em, after, [Cmd.RemoveComponent(e, k)])
  {
    var cmds := [Cmd.RemoveComponent(e, k)];
    var pools := em.components.pools;
    forall k2, x | k2 in pools && 0 <= x < |pools[k2]|
      ensures after.components.pools[k2][x] ==
                if k2 in ClearedKeys(em, cmds, x) then None else pools[k2][x]
    {
      SingleRemovalKeys(em, e, k, x);
      if k2 == k && x == e {
        assert !Pools.Occupied(after.components.pools[k], e);
      }
    }
  }

  /** Handling one command and then the rest is handling them all. */
  lemma ComposeOne<V>(a: EM.EntityManager<V>, b: EM.EntityManager<V>, c: EM.EntityManager<V>,
                      cmd: Cmd.WorldCommand, rest: seq<Cmd.WorldCommand>)
    requires ComponentsRemoved(a, b, [cmd]) && ComponentsRemoved(b, c, rest)
    ensures ComponentsRemoved(a, c, [cmd] + rest)
  {
    ComposeSignatures(a, b, c, cmd, rest);
    ComposeSlots(a, b, c, cmd, rest);
  }

  lemma {:induction false} ComposeSignatures<V>(a: EM.EntityManager<V>, b: EM.EntityManager<V>,
                                                c: EM.EntityManager<V>, cmd: Cmd.WorldCommand,
                                                rest: seq<Cmd.WorldCommand>)
    requires b.ids == a.ids && b.components.masks == a.components.masks
    requires SignaturesCleared(a, b, [cmd]) && SignaturesCleared(b, c, rest)
    ensures SignaturesCleared(a, c, [cmd] + rest)
  {
    forall e | 0 <= e < |a.signatures|
      ensures SignatureClearedAt(a, c, [cmd] + rest, e)
    {
      ComposeSignatureAt(a, b, c, cmd, rest, e);
    }
  }

  lemma ComposeSignatureAt<V>(a: EM.EntityManager<V>, b: EM.EntityManager<V>,
                              c: EM.EntityManager<V>, cmd: Cmd.WorldCommand,
                              rest: seq<Cmd.WorldCommand>, e: EntityId)
    requires b.ids == a.ids && b.components.masks == a.components.masks
    requires SignatureClearedAt(a, b, [cmd], e) && SignatureClearedAt(b, c, rest, e)
    ensures SignatureClearedAt(a, c, [cmd] + rest, e)
  {
    UnionOfSplit(a, b, cmd, rest, e);
  }

  /** The mask cleared by `[cmd] + rest` is that of `cmd` together with that of `rest`. */
  lemma UnionOfSplit<V>(a: EM.EntityManager<V>, b: EM.EntityManager<V>, cmd: Cmd.WorldCommand,
                        rest: seq<Cmd.WorldCommand>, e: EntityId)
    requires b.ids == a.ids
    ensures UnionMask(a.components.masks, ClearedKeys(a, [cmd] + rest, e)) ==
              UnionMask(a.components.masks, ClearedKeys(a, [cmd], e)) |
              UnionMask(a.components.masks, ClearedKeys(b, rest, e))
  {
    var masks := a.components.masks;
    var later := ClearedKeys(b, rest, e);
    if cmd.RemoveComponent? && cmd.entity == e && IsIdUsed(a.ids, e) {
      SplitKeysRemoving(a, b, cmd, rest, e);
      UnionMaskOne(masks, cmd.key);
      UnionMaskAdd(masks, later, cmd.key);
    } else {
      SplitKeysOther(a, b, cmd, rest, e);
    }
  }

  lemma SplitKeysRemoving<V>(a: EM.EntityManager<V>, b: EM.EntityManager<V>, cmd: Cmd.WorldCommand,
                             rest: seq<Cmd.WorldCommand>, e: EntityId)
    requires b.ids == a.ids && cmd.RemoveComponent? && cmd.entity == e && IsIdUsed(a.ids, e)
    ensures ClearedKeys(a, [cmd], e) == {cmd.key}
    ensures ClearedKeys(a, [cmd] + rest, e) == ClearedKeys(b, rest, e) + {cmd.key}
  {
  }

  lemma SplitKeysOther<V>(a: EM.EntityManager<V>, b: EM.EntityManager<V>, cmd: Cmd.WorldCommand,
                          rest: seq<Cmd.WorldCommand>, e: EntityId)
    requires b.ids == a.ids && !(cmd.RemoveComponent? && cmd.entity == e && IsIdUsed(a.ids, e))
    ensures ClearedKeys(a, [cmd], e) == {}
    ensures ClearedKeys(a, [cmd] + rest, e) == ClearedKeys(b, rest, e)
  {
  }

  lemma {:induction false} ComposeSlots<V>(a: EM.EntityManager<V>, b: EM.EntityManager<V>,
                                           c: EM.EntityManager<V>, cmd: Cmd.WorldCommand,
                                           rest: seq<Cmd.WorldCommand>)
    requires b.ids == a.ids
    requires SlotsCleared(a, b, [cmd]) && SlotsCleared(b, c, rest)
    ensures SlotsCleared(a, c, [cmd] + rest)
  {
    var all := [cmd] + rest;
    forall k, e | k in a.components.pools && 0 <= e < |a.components.pools[k]|
      ensures c.components.pools[k][e] ==
                if k in ClearedKeys(a, all, e) then None else a.components.pools[k][e]
    {
      assert k in b.components.pools && e < |b.components.pools[k]|;
      var mid := if k in ClearedKeys(a, [cmd], e) then None else a.components.pools[k][e];
      assert b.components.pools[k][e] == mid;
      assert c.components.pools[k][e] ==
               if k in ClearedKeys(b, rest, e) then None else b.components.pools[k][e];
      assert k in ClearedKeys(a, all, e) <==> k in ClearedKeys(a, [cmd], e) || k in ClearedKeys(b, rest, e);
    }
  }

  /** Only which commands occur matters, not their order or how often each occurs. */
  lemma SameCommandsSameEffect<V>(em: EM.EntityManager<V>, after: EM.EntityManager<V>,
                                  xs: seq<Cmd.WorldCommand>, ys: seq<Cmd.WorldCommand>)
    requires forall c :: c in xs <==> c in ys
    requires ComponentsRemoved(em, after, xs)
    ensures ComponentsRemoved(em, after, ys)
  {
    forall e: EntityId
      ensures ClearedKeys(em, xs, e) == ClearedKeys(em, ys, e)
    {
    }
    forall e | 0 <= e < |em.signatures|
      ensures SignatureClearedAt(em, after, ys, e)
    {
      assert SignatureClearedAt(em, after, xs, e);
    }
  }

  /** `ComponentsRemoved` pins the resulting manager down completely. */
  lemma RemovedIsDetermined<V>(em: EM.EntityManager<V>, a: EM.EntityManager<V>,
                               b: EM.EntityManager<V>, cmds: seq<Cmd.WorldCommand>)
    requires ComponentsRemoved(em, a, cmds) && ComponentsRemoved(em, b, cmds)
    ensures a == b
  {
    forall e | 0 <= e < |a.signatures|
      ensures a.signatures[e] == b.signatures[e]
    {
      assert SignatureClearedAt(em, a, cmds, e) && SignatureClearedAt(em, b, cmds, e);
    }
    assert a.signatures == b.signatures;
    forall k | k in a.components.pools
      ensures a.components.pools[k] == b.components.pools[k]
    {
      forall e | 0 <= e < |a.components.pools[k]|
        ensures a.components.pools[k][e] == b.components.pools[k][e]
      {
        assert a.components.pools[k][e] ==
                 if k in ClearedKeys(em, cmds, e) then None else em.components.pools[k][e];
      }
    }
    assert a.components.pools == b.components.pools;
  }
}
