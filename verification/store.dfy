/** The `State` interface of state.go and its composition. A store is a
    persisting store (`LastState` or `RingState`) wrapped by any number of
    `FilterState` and `EmittingState` decorators in any order. `Set` returns
    the new store together with the records handed to `OnState` callbacks,
    in call order; `List` delegates through the decorators to the bottom. */
module Store {
  import opened Records
  import LastState
  import RingState
  import FilterState

  datatype State =
    | Last(last: LastState.Last)
    | Ring(ring: RingState.Rings)
    | Filter(parent: State)
      /** `inner` is the embedded `State` (nil is `None`); `onState` says
          whether an `OnState` callback is installed. */
    | Emitting(inner: Option<State>, onState: bool)

  /** The outcome of one `Set`: the store after it, and the arguments of the
      callbacks it fired, outermost last. */
  datatype Applied = Applied(store: State, emitted: seq<Record>)

  /** The composition the shipped binary builds: an emitter over a fresh
      last-value store, with the broadcast callback installed. */
  function Shipped(): State {
    Emitting(Some(Last(LastState.Empty)), true)
  }

  ghost predicate Valid(s: State) {
    match s
    case Last(l) => LastState.Valid(l)
    case Ring(g) => RingState.Valid(g)
    case Filter(p) => Valid(p)
    case Emitting(inner, _) => inner.Some? ==> Valid(inner.value)
  }

  /** Whether `v` gets through every filter on the way down and finds a
      persisting store at the bottom (an emitter with no inner store ends the
      chain). This depends on the composition only, never on stored data. */
  predicate Reaches(s: State, v: Record) {
    match s
    case Last(_) => true
    case Ring(_) => true
    case Filter(p) => FilterState.Accepts(v) && Reaches(p, v)
    case Emitting(inner, _) => inner.Some? && Reaches(inner.value, v)
  }

  /** How many records per entity the bottom store keeps. */
  function Capacity(s: State): nat {
    match s
    case Last(_) => 1
    case Ring(g) => if g.size >= 0 then g.size as nat else 0
    case Filter(p) => Capacity(p)
    case Emitting(inner, _) => if inner.Some? then Capacity(inner.value) else 0
  }

  /** The entity ids the bottom store holds something for. */
  function Keys(s: State): set<string> {
    match s
    case Last(l) => l.entries.Keys
    case Ring(g) => g.rings.Keys
    case Filter(p) => Keys(p)
    case Emitting(inner, _) => if inner.Some? then Keys(inner.value) else {}
  }

  /** What the bottom store holds for entity `e`, oldest first. */
  function View(s: State, e: string): seq<Record>
    requires Valid(s)
  {
    match s
    case Last(l) => LastState.View(l, e)
    case Ring(g) => RingState.View(g, e)
    case Filter(p) => View(p, e)
    case Emitting(inner, _) => if inner.Some? then View(inner.value, e) else []
  }

  /** No emitter in the chain has a callback installed. */
  predicate Silent(s: State) {
    match s
    case Last(_) => true
    case Ring(_) => true
    case Filter(p) => Silent(p)
    case Emitting(inner, onState) => !onState && (inner.Some? ==> Silent(inner.value))
  }

  /** `s` and `t` are the same composition: the same decorators in the same
      order, the same callbacks installed, the same ring size. */
  predicate SameChain(s: State, t: State) {
    match s
    case Last(_) => t.Last?
    case Ring(g) => t.Ring? && t.ring.size == g.size
    case Filter(p) => t.Filter? && SameChain(p, t.parent)
    case Emitting(inner, onState) =>
      && t.Emitting? && t.onState == onState && inner.Some? == t.inner.Some?
      && (inner.Some? ==> SameChain(inner.value, t.inner.value))
  }

  /** Everything decided by the composition alone agrees on the same chain. */
  lemma {:induction false} SameChainAgrees(s: State, t: State)
    requires SameChain(s, t)
    ensures forall w :: Reaches(s, w) == Reaches(t, w)
    ensures Capacity(s) == Capacity(t)
    ensures Silent(s) == Silent(t)
    ensures Listable(s) == Listable(t)
  {
    match s
    case Last(_) =>
    case Ring(_) =>
    case Filter(p) => SameChainAgrees(p, t.parent);
    case Emitting(inner, _) =>
      if inner.Some? {
        SameChainAgrees(inner.value, t.inner.value);
      }
  }

  lemma {:induction false} SameChainRefl(s: State)
    ensures SameChain(s, s)
  {
    match s
    case Last(_) =>
    case Ring(_) =>
    case Filter(p) => SameChainRefl(p);
    case Emitting(inner, _) =>
      if inner.Some? {
        SameChainRefl(inner.value);
      }
  }

  lemma {:induction false} SameChainTrans(s: State, t: State, u: State)
    requires SameChain(s, t) && SameChain(t, u)
    ensures SameChain(s, u)
  {
    match s
    case Last(_) =>
    case Ring(_) =>
    case Filter(p) => SameChainTrans(p, t.parent, u.parent);
    case Emitting(inner, _) =>
      if inner.Some? {
        SameChainTrans(inner.value, t.inner.value, u.inner.value);
      }
  }

  /** `Set` through the chain. The composition is kept, a record that some
      filter drops leaves the store exactly as it was, and every callback
      receives `v` itself; a chain with no callback installed emits nothing. */
  function Set(s: State, v: Record): (r: Applied)
    requires Valid(s)
    ensures Valid(r.store)
    ensures SameChain(s, r.store)
    ensures forall x | x in r.emitted :: x == v
    ensures Silent(s) ==> r.emitted == []
    ensures !Reaches(s, v) ==> r.store == s
    decreases s
  {
    match s
    case Last(l) =>
      Applied(Last(LastState.Set(l, v)), [])
    case Ring(g) =>
      Applied(Ring(RingState.Set(g, v)), [])
    case Filter(p) =>
      if FilterState.Accepts(v) then
        var a := Set(p, v);
        Applied(Filter(a.store), a.emitted)
      else
        SameChainRefl(s);
        Applied(s, [])
    case Emitting(inner, onState) =>
      var notified := if onState then [v] else [];
      if inner.Some? then
        var a := Set(inner.value, v);
        Applied(Emitting(Some(a.store), onState), a.emitted + notified)
      else
        Applied(s, notified)
  }

  /** `Set` seen per entity: a record that gets through is appended once to
      its entity's history at the bottom, trimmed to the capacity (for
      `LastState`, capacity 1: the entry becomes `v`); the written id joins
      the keys; every other entity keeps exactly what it had. */
  lemma {:induction false} SetHistory(s: State, v: Record)
    requires Valid(s)
    ensures Keys(Set(s, v).store) == if Reaches(s, v) then Keys(s) + {v.entityId} else Keys(s)
    ensures forall e | e != v.entityId :: View(Set(s, v).store, e) == View(s, e)
    ensures Reaches(s, v) ==> View(Set(s, v).store, v.entityId) == Retain(View(s, v.entityId) + [v], Capacity(s))
  {
    SetKeys(s, v);
    forall e | e != v.entityId ensures View(Set(s, v).store, e) == View(s, e) {
      SetOthers(s, v, e);
    }
    if Reaches(s, v) {
      SetOwn(s, v);
    }
  }

  lemma {:induction false} SetKeys(s: State, v: Record)
    requires Valid(s)
    ensures Keys(Set(s, v).store) == if Reaches(s, v) then Keys(s) + {v.entityId} else Keys(s)
    decreases s
  {
    match s
    case Last(l) =>
    case Ring(g) =>
    case Filter(p) =>
      if FilterState.Accepts(v) {
        SetKeys(p, v);
      }
    case Emitting(inner, _) =>
      if inner.Some? {
        SetKeys(inner.value, v);
      }
  }

  lemma {:induction false} SetOthers(s: State, v: Record, e: string)
    requires Valid(s) && e != v.entityId
    ensures View(Set(s, v).store, e) == View(s, e)
    decreases s
  {
    match s
    case Last(l) => LastState.SetOther(l, v, e);
    case Ring(g) =>
    case Filter(p) =>
      if FilterState.Accepts(v) {
        SetOthers(p, v, e);
      }
    case Emitting(inner, _) =>
      if inner.Some? {
        SetOthers(inner.value, v, e);
      }
  }

  lemma {:induction false} SetOwn(s: State, v: Record)
    requires Valid(s) && Reaches(s, v)
    ensures View(Set(s, v).store, v.entityId) == Retain(View(s, v.entityId) + [v], Capacity(s))
    decreases s
  {
    match s
    case Last(l) =>
    case Ring(g) =>
    case Filter(p) => SetOwn(p, v);
    case Emitting(inner, _) => SetOwn(inner.value, v);
  }

  /** The writes `ws`, one `Set` after another. */
  function SetAll(s: State, ws: seq<Record>): (r: Applied)
    requires Valid(s)
    ensures Valid(r.store)
    ensures SameChain(s, r.store)
    decreases |ws|
  {
    if ws == [] then SameChainRefl(s); Applied(s, [])
    else
      var a := Set(s, ws[0]);
      var b := SetAll(a.store, ws[1..]);
      SameChainTrans(s, a.store, b.store);
      Applied(b.store, a.emitted + b.emitted)
  }

  /** No emitter in the chain lacks its inner store, so `List` never follows a
      nil embedded interface. */
  predicate Listable(s: State) {
    match s
    case Last(_) => true
    case Ring(_) => true
    case Filter(p) => Listable(p)
    case Emitting(inner, _) => inner.Some? && Listable(inner.value)
  }

  /** `List` for one iteration order `order` of the bottom store's map. Every
      decorator returns its inner store's list; for each entity, the records
      carrying its id are exactly what the store holds for it. */
  function List(s: State, order: seq<string>): (r: seq<Record>)
    requires Valid(s) && Listable(s)
    requires Enumerates(order, Keys(s))
    ensures forall e :: Project(r, e) == View(s, e)
  {
    match s
    case Last(l) => LastState.List(l, order)
    case Ring(g) => RingState.List(g, order)
    case Filter(p) => List(p, order)
    case Emitting(inner, _) => List(inner.value, order)
  }

  /** An emitter with a callback notifies exactly once per `Set`, with the
      record as given, after its inner store has run, and whether or not a
      filter below dropped the record. */
  lemma EmitterNotifiesOnce(inner: Option<State>, v: Record)
    requires inner.Some? ==> Valid(inner.value)
    ensures var below := if inner.Some? then Set(inner.value, v).emitted else [];
            Set(Emitting(inner, true), v).emitted == below + [v]
  {
  }

  /** A record the filter under an emitter rejects leaves the store untouched,
      yet the emitter's callback still receives it exactly once. */
  lemma {:induction false} DroppedRecordsStillNotify(p: State, v: Record)
    requires Valid(p)
    requires !FilterState.Accepts(v)
    ensures Set(Emitting(Some(Filter(p)), true), v) == Applied(Emitting(Some(Filter(p)), true), [v])
  {
  }

  /** The bottom of the chain is a last-value store, or there is none. */
  predicate OverLast(s: State) {
    match s
    case Last(_) => true
    case Ring(_) => false
    case Filter(p) => OverLast(p)
    case Emitting(inner, _) => inner.Some? ==> OverLast(inner.value)
  }

  /** Over a last-value store, writing the same record twice leaves the same
      store as writing it once (only the callbacks fire again). */
  lemma {:induction false} SetTwiceKeepsStore(s: State, v: Record)
    requires Valid(s) && OverLast(s)
    ensures Set(Set(s, v).store, v).store == Set(s, v).store
    decreases s
  {
    match s
    case Last(l) => LastState.SetTwice(l, v);
    case Filter(p) => SetTwiceKeepsStore(p, v);
    case Emitting(inner, _) =>
      if inner.Some? {
        SetTwiceKeepsStore(inner.value, v);
      }
  }

  /** Both decorators pass the record on untouched: a filter that accepts it
      and an emitter with an inner store leave exactly what the same `Set` on
      the store below leaves, wrapped in themselves. */
  lemma DecoratorsForward(p: State, onState: bool, v: Record)
    requires Valid(p)
    ensures FilterState.Accepts(v) ==> Set(Filter(p), v).store == Filter(Set(p, v).store)
    ensures Set(Emitting(Some(p), onState), v).store == Emitting(Some(Set(p, v).store), onState)
    ensures Set(Emitting(None, onState), v).store == Emitting(None, onState)
  {
  }

  /** Neither decorator stores anything of its own: listing through it lists
      the store below, in the same order. */
  lemma DecoratorsList(p: State, onState: bool, order: seq<string>)
    requires Valid(p) && Listable(p) && Enumerates(order, Keys(p))
    ensures List(Filter(p), order) == List(p, order)
    ensures List(Emitting(Some(p), onState), order) == List(p, order)
  {
  }

  /** A store nothing was written to, of either kind, lists nothing. */
  lemma EmptyListsNothing(size: int, order: seq<string>)
    requires size >= 1
    ensures Enumerates(order, Keys(Last(LastState.Empty))) ==> List(Last(LastState.Empty), order) == []
    ensures Enumerates(order, Keys(Ring(RingState.Empty(size)))) ==> List(Ring(RingState.Empty(size)), order) == []
  {
    if order != [] {
      assert order[0] in order;
    }
  }
}
