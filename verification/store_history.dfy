/** Sequences of writes through a store chain: `Set` applied to each record
    in turn, as the fetcher does within a fetch round and across rounds. */
module StoreHistory {
  import opened Records
  import opened Store

  /** The writes among `ws` that concern entity `e` and get through to the
      bottom of `s`, in order. */
  function Accepted(s: State, ws: seq<Record>, e: string): seq<Record> {
    if ws == [] then []
    else (if ws[0].entityId == e && Reaches(s, ws[0]) then [ws[0]] else []) + Accepted(s, ws[1..], e)
  }

  lemma {:induction false} AcceptedSameRoute(s: State, t: State, ws: seq<Record>, e: string)
    requires forall w :: Reaches(s, w) == Reaches(t, w)
    ensures Accepted(s, ws, e) == Accepted(t, ws, e)
    decreases |ws|
  {
    if ws != [] {
      AcceptedSameRoute(s, t, ws[1..], e);
    }
  }

  /** The history property of every composition: after the writes `ws`, the
      store holds for entity `e` the last `Capacity` records of what it held
      before followed by the writes for `e` that the filters let through. For
      a ring that is the last `Size` writes, oldest first; for a last-value
      store it is the latest write alone. */
  lemma {:induction false} SetAllHistory(s: State, ws: seq<Record>, e: string)
    requires Valid(s)
    ensures View(SetAll(s, ws).store, e) == Retain(View(s, e) + Accepted(s, ws, e), Capacity(s))
    decreases |ws|
  {
    ViewWithinCapacity(s, e);
    if ws == [] {
      assert View(s, e) + [] == View(s, e);
    } else {
      var w := ws[0];
      var a := Set(s, w);
      SetAllTail(s, ws);
      SetAllHistory(a.store, ws[1..], e);
      StepHistory(s, ws, e);
      RetainAppendAssoc(View(s, e), Step(s, w, e), Accepted(s, ws[1..], e), Capacity(s));
    }
  }

  /** What one write `w` adds to the history of entity `e`. */
  function Step(s: State, w: Record, e: string): seq<Record> {
    if w.entityId == e && Reaches(s, w) then [w] else []
  }

  lemma StepHistory(s: State, ws: seq<Record>, e: string)
    requires Valid(s) && ws != []
    ensures Accepted(s, ws, e) == Step(s, ws[0], e) + Accepted(s, ws[1..], e)
    ensures Accepted(Set(s, ws[0]).store, ws[1..], e) == Accepted(s, ws[1..], e)
    ensures Capacity(Set(s, ws[0]).store) == Capacity(s)
    ensures View(Set(s, ws[0]).store, e) == Retain(View(s, e) + Step(s, ws[0], e), Capacity(s))
  {
    StepRoute(s, ws[0], ws[1..], e);
    StepView(s, ws[0], e);
  }

  /** A write does not change which later writes get through. */
  lemma StepRoute(s: State, w: Record, ws: seq<Record>, e: string)
    requires Valid(s)
    ensures Accepted(Set(s, w).store, ws, e) == Accepted(s, ws, e)
    ensures Capacity(Set(s, w).store) == Capacity(s)
  {
    var a := Set(s, w);
    SameChainAgrees(s, a.store);
    AcceptedSameRoute(a.store, s, ws, e);
  }

  /** One write, seen from entity `e`. */
  lemma StepView(s: State, w: Record, e: string)
    requires Valid(s)
    ensures View(Set(s, w).store, e) == Retain(View(s, e) + Step(s, w, e), Capacity(s))
  {
    ViewWithinCapacity(s, e);
    if w.entityId == e && Reaches(s, w) {
      SetOwn(s, w);
    } else {
      if w.entityId != e {
        SetOthers(s, w, e);
      }
      assert View(s, e) + [] == View(s, e);
    }
  }

  lemma {:induction false} ViewWithinCapacity(s: State, e: string)
    requires Valid(s)
    ensures |View(s, e)| <= Capacity(s)
    ensures Retain(View(s, e), Capacity(s)) == View(s, e)
  {
    match s
    case Last(_) =>
    case Ring(_) =>
    case Filter(p) => ViewWithinCapacity(p, e);
    case Emitting(inner, _) =>
      if inner.Some? {
        ViewWithinCapacity(inner.value, e);
      }
  }

  lemma SetAllTail(s: State, ws: seq<Record>)
    requires Valid(s) && ws != []
    ensures SetAll(s, ws).store == SetAll(Set(s, ws[0]).store, ws[1..]).store
  {
  }

  /** A single write through `SetAll` is one `Set`. */
  lemma SetAllSingle(s: State, w: Record)
    requires Valid(s)
    ensures SetAll(s, [w]) == Set(s, w)
  {
    var a := Set(s, w);
    assert [w][1..] == [];
    assert a.emitted + [] == a.emitted;
  }

  /** Writing `ws1` then `ws2` is writing `ws1 + ws2`, and the callbacks fire
      in the same order. */
  lemma SetAllAppend(s: State, ws1: seq<Record>, ws2: seq<Record>)
    requires Valid(s)
    ensures SetAll(s, ws1 + ws2).store == SetAll(SetAll(s, ws1).store, ws2).store
    ensures SetAll(s, ws1 + ws2).emitted == SetAll(s, ws1).emitted + SetAll(SetAll(s, ws1).store, ws2).emitted
  {
    SetAllAppendStore(s, ws1, ws2);
    SetAllAppendEmitted(s, ws1, ws2);
  }

  lemma {:induction false} SetAllAppendStore(s: State, ws1: seq<Record>, ws2: seq<Record>)
    requires Valid(s)
    ensures SetAll(s, ws1 + ws2).store == SetAll(SetAll(s, ws1).store, ws2).store
    decreases |ws1|
  {
    if ws1 == [] {
      assert ws1 + ws2 == ws2;
    } else {
      var a := Set(s, ws1[0]);
      assert (ws1 + ws2)[0] == ws1[0];
      assert (ws1 + ws2)[1..] == ws1[1..] + ws2;
      SetAllAppendStore(a.store, ws1[1..], ws2);
    }
  }

  lemma {:induction false} SetAllAppendEmitted(s: State, ws1: seq<Record>, ws2: seq<Record>)
    requires Valid(s)
    ensures SetAll(s, ws1 + ws2).emitted == SetAll(s, ws1).emitted + SetAll(SetAll(s, ws1).store, ws2).emitted
    decreases |ws1|
  {
    if ws1 == [] {
      assert ws1 + ws2 == ws2;
    } else {
      var a := Set(s, ws1[0]);
      var b := SetAll(a.store, ws1[1..]);
      var c := SetAll(b.store, ws2);
      assert (ws1 + ws2)[0] == ws1[0];
      assert (ws1 + ws2)[1..] == ws1[1..] + ws2;
      SetAllAppendEmitted(a.store, ws1[1..], ws2);
      ConcatAssoc(a.emitted, b.emitted, c.emitted);
    }
  }

  /** With one notifying emitter on the outside and nothing notifying below,
      the callback sees every write, in order, filtered or not. */
  lemma {:induction false} BroadcastSeesEveryWrite(inner: State, ws: seq<Record>)
    requires Valid(inner) && Silent(inner)
    ensures SetAll(Emitting(Some(inner), true), ws).emitted == ws
    decreases |ws|
  {
    if ws != [] {
      var a := Set(Emitting(Some(inner), true), ws[0]);
      assert a.emitted == [ws[0]];
      SameChainAgrees(inner, a.store.inner.value);
      BroadcastSeesEveryWrite(a.store.inner.value, ws[1..]);
      assert ws == [ws[0]] + ws[1..];
    }
  }

}
