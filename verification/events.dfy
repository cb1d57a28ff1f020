/** Events: one ordered handler list per event type, shared by the world and every
    emitter. Handlers are foreign code, kept as opaque ids; emitting records which handler
    is invoked with which event, in order. */
module Events {
  import opened Common

  type HandlerId = nat

  /** The handler map. `WorldEvents` and each `EventEmitter` hold the same map, so one
      value stands for both. */
  datatype WorldEvents = WorldEvents(handlers: map<TypeKey, seq<HandlerId>>)

  datatype HandlerCall<E> = HandlerCall(handler: HandlerId, event: E)

  function New(): (ev: WorldEvents)
    ensures forall k :: HandlersOf(ev, k) == []
    ensures forall k, e: int :: Emit(ev, k, e) == []
  {
    WorldEvents(map[])
  }

  /** `subscribe<T>`: creates T's list on first use, then appends the handler; the lists
      of other types are untouched. */
  function Subscribe(ev: WorldEvents, k: TypeKey, h: HandlerId): (r: WorldEvents)
    ensures k in r.handlers && |r.handlers[k]| == |HandlersOf(ev, k)| + 1
    ensures r.handlers[k][..|HandlersOf(ev, k)|] == HandlersOf(ev, k)
    ensures r.handlers[k][|HandlersOf(ev, k)|] == h
    ensures forall k' :: k' != k ==> (k' in r.handlers <==> k' in ev.handlers)
    ensures forall k' :: k' != k && k' in ev.handlers ==> r.handlers[k'] == ev.handlers[k']
  {
    var before := if k in ev.handlers then ev.handlers[k] else [];
    WorldEvents(ev.handlers[k := before + [h]])
  }

  /** The list for `k`, empty when the type was never subscribed. */
  function HandlersOf(ev: WorldEvents, k: TypeKey): (hs: seq<HandlerId>) {
    if k in ev.handlers then ev.handlers[k] else []
  }

  /** `emit`: every handler of the event's type, once each, in subscription order, each
      with the same event; a type with no list invokes nothing. */
  function Emit<E>(ev: WorldEvents, k: TypeKey, event: E): (calls: seq<HandlerCall<E>>)
    ensures |calls| == |HandlersOf(ev, k)|
    ensures forall i :: 0 <= i < |calls| ==> calls[i] == HandlerCall(HandlersOf(ev, k)[i], event)
    ensures k !in ev.handlers ==> calls == []
  {
    Calls(HandlersOf(ev, k), event)
  }

  function Calls<E>(hs: seq<HandlerId>, event: E): (calls: seq<HandlerCall<E>>)
    ensures |calls| == |hs|
    ensures forall i :: 0 <= i < |hs| ==> calls[i] == HandlerCall(hs[i], event)
  {
    seq(|hs|, i requires 0 <= i < |hs| => HandlerCall(hs[i], event))
  }

  /** The calls for a list are the first handler's call, then the rest's. */
  lemma CallsCons<E>(hs: seq<HandlerId>, event: E)
    requires hs != []
    ensures Calls(hs, event) == [HandlerCall(hs[0], event)] + Calls(hs[1..], event)
  {
  }

  /** A new subscription is invoked last, after every handler already there. */
  lemma SubscribeThenEmit<E>(ev: WorldEvents, k: TypeKey, h: HandlerId, event: E)
    ensures Emit(Subscribe(ev, k, h), k, event) == Emit(ev, k, event) + [HandlerCall(h, event)]
  {
  }

  /** Subscribing to one type does not change what another type's emit invokes. */
  lemma SubscribeOtherType<E>(ev: WorldEvents, k: TypeKey, other: TypeKey, h: HandlerId, event: E)
    requires other != k
    ensures Emit(Subscribe(ev, k, h), other, event) == Emit(ev, other, event)
  {
  }

  /** Subscribing `hs` in order makes emit invoke them in that order. */
  function SubscribeAll(ev: WorldEvents, k: TypeKey, hs: seq<HandlerId>): (r: WorldEvents)
    decreases |hs|
  {
    if hs == [] then ev else SubscribeAll(Subscribe(ev, k, hs[0]), k, hs[1..])
  }

  lemma {:induction false} SubscribeAllThenEmit<E>(ev: WorldEvents, k: TypeKey, hs: seq<HandlerId>, event: E)
    ensures Emit(SubscribeAll(ev, k, hs), k, event) == Emit(ev, k, event) + Calls(hs, event)
    decreases |hs|
  {
    if hs != [] {
      var first := Subscribe(ev, k, hs[0]);
      var call := HandlerCall(hs[0], event);
      SubscribeThenEmit(ev, k, hs[0], event);
      SubscribeAllThenEmit(first, k, hs[1..], event);
      assert SubscribeAll(ev, k, hs) == SubscribeAll(first, k, hs[1..]);
      CallsCons(hs, event);
      AppendAssoc(Emit(ev, k, event), [call], Calls(hs[1..], event));
    }
  }
}
