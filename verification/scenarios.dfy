/** Whole-run consequences of the store chain and the fetch logic: what a
    bootstrap leaves in each kind of store, what a ring keeps after any number
    of writes, and what the shipped composition does in a fetch round. */
module Scenarios {
  import opened Records
  import opened Store
  import opened StoreHistory
  import opened Fetcher
  import LastState
  import RingState

  /** When every write is for `e` and passes every filter, all of them are
      accepted. */
  lemma {:induction false} AcceptedAll(s: State, ws: seq<Record>, e: string)
    requires forall i | 0 <= i < |ws| :: ws[i].entityId == e && Reaches(s, ws[i])
    ensures Accepted(s, ws, e) == ws
    decreases |ws|
  {
    if ws != [] {
      AcceptedAll(s, ws[1..], e);
      assert ws == [ws[0]] + ws[1..];
    }
  }

  /** Over a last-value store, a record that gets through meets capacity 1. */
  lemma {:induction false} OverLastCapacity(s: State, v: Record)
    requires OverLast(s) && Reaches(s, v)
    ensures Capacity(s) == 1
  {
    match s
    case Last(_) =>
    case Filter(p) => OverLastCapacity(p, v);
    case Emitting(inner, _) => OverLastCapacity(inner.value, v);
  }

  lemma RetainLast<T>(xs: seq<T>)
    requires |xs| > 0
    ensures Retain(xs, 1) == [xs[|xs| - 1]]
  {
    assert xs[|xs| - 1..] == [xs[|xs| - 1]];
  }

  /** Writing a series for one entity over a last-value store leaves only
      the latest record of the series. */
  lemma LastKeepsLatest(s: State, ws: seq<Record>, e: string)
    requires Valid(s) && OverLast(s)
    requires |ws| > 0
    requires forall i | 0 <= i < |ws| :: ws[i].entityId == e && Reaches(s, ws[i])
    ensures View(SetAll(s, ws).store, e) == [ws[|ws| - 1]]
  {
    SetAllHistory(s, ws, e);
    AcceptedAll(s, ws, e);
    OverLastCapacity(s, ws[0]);
    RetainLast(View(s, e) + ws);
  }

  /** Bootstrapping an entity over a last-value store leaves only the latest
      record of its history. */
  lemma BootstrapKeepsLatest(s: State, entity: string, series: seq<Record>, e: string)
    requires Valid(s) && OverLast(s)
    requires |series| > 0
    requires forall i | 0 <= i < |series| :: series[i].entityId == e && Reaches(s, series[i])
    ensures View(FetchEntityHistory(s, entity, Ok([series])).store, e) == [series[|series| - 1]]
  {
    var t := FetchEntityHistory(s, entity, Ok([series]));
    assert t.store == SetAll(s, series).store;
    LastKeepsLatest(s, series, e);
  }

  /** Writing a series for one entity that has nothing stored yet, into a
      store with room for the whole series, keeps the whole series. */
  lemma RoomKeepsAll(s: State, ws: seq<Record>, e: string)
    requires Valid(s) && View(s, e) == [] && |ws| <= Capacity(s)
    requires forall i | 0 <= i < |ws| :: ws[i].entityId == e && Reaches(s, ws[i])
    ensures View(SetAll(s, ws).store, e) == ws
  {
    SetAllHistory(s, ws, e);
    AcceptedAll(s, ws, e);
    assert View(s, e) + ws == ws;
    RetainAll(ws, Capacity(s));
  }

  /** Bootstrapping an entity with no stored history into a store with room
      for the whole series keeps the whole series, oldest first. */
  lemma BootstrapFillsRoom(s: State, entity: string, series: seq<Record>, e: string)
    requires Valid(s) && View(s, e) == [] && |series| <= Capacity(s)
    requires forall i | 0 <= i < |series| :: series[i].entityId == e && Reaches(s, series[i])
    ensures View(FetchEntityHistory(s, entity, Ok([series])).store, e) == series
  {
    var t := FetchEntityHistory(s, entity, Ok([series]));
    assert t.store == SetAll(s, series).store;
    RoomKeepsAll(s, series, e);
  }

  /** A composition without a filter that drops anything accepts every
      record. */
  lemma {:induction false} AcceptedUnfiltered(s: State, ws: seq<Record>, e: string)
    requires forall w :: Reaches(s, w)
    ensures Accepted(s, ws, e) == Project(ws, e)
    decreases |ws|
  {
    if ws != [] {
      AcceptedUnfiltered(s, ws[1..], e);
      assert ws == [ws[0]] + ws[1..];
      ProjectAppend([ws[0]], ws[1..], e);
    }
  }

  /** A ring store of size `size`, written `ws` from empty, holds for each
      entity its last `size` writes, oldest first. */
  lemma RingFromEmpty(size: int, ws: seq<Record>, e: string)
    requires size >= 1
    ensures View(SetAll(Ring(RingState.Empty(size)), ws).store, e) == Retain(Project(ws, e), size)
  {
    var s := Ring(RingState.Empty(size));
    assert View(s, e) == [];
    SetAllHistory(s, ws, e);
    AcceptedUnfiltered(s, ws, e);
    assert [] + Project(ws, e) == Project(ws, e);
  }

  /** The same seen through `List`: for every entity, the listed records are
      its last `size` writes, oldest first. */
  lemma RingKeepsLast(size: int, ws: seq<Record>, e: string, order: seq<string>)
    requires size >= 1
    requires Enumerates(order, Keys(SetAll(Ring(RingState.Empty(size)), ws).store))
    ensures Project(List(SetAll(Ring(RingState.Empty(size)), ws).store, order), e)
              == Retain(Project(ws, e), size)
  {
    RingFromEmpty(size, ws, e);
  }

  /** Writes for a single entity: the ring holds the last `size` of them. */
  lemma RingOneEntity(size: int, ws: seq<Record>, e: string)
    requires size >= 1
    requires forall x | x in ws :: x.entityId == e
    ensures View(SetAll(Ring(RingState.Empty(size)), ws).store, e) == Retain(ws, size)
  {
    RingFromEmpty(size, ws, e);
    ProjectOwn(ws, e);
  }

  /** A ring of size 3 written a, b, c, d for one entity holds b, c, d. */
  lemma RingOfThreeExample(a: Record, b: Record, c: Record, d: Record)
    requires a.entityId == b.entityId == c.entityId == d.entityId
    ensures View(SetAll(Ring(RingState.Empty(3)), [a, b, c, d]).store, a.entityId) == [b, c, d]
  {
    var ws := [a, b, c, d];
    RingOneEntity(3, ws, a.entityId);
    RetainDropOne(ws, 3);
    assert ws[1..] == [b, c, d];
  }

  /** In the shipped composition a fetch round hands every fetched record to
      the broadcast callback, in fetch order, and leaves each entity's latest
      fetched record in the store. */
  lemma ShippedRound(entities: seq<string>, results: seq<Result<Record>>, e: string)
    requires |results| == |entities|
    ensures Round(Shipped(), entities, results).emitted == RoundWrites(results)
    ensures View(Round(Shipped(), entities, results).store, e)
              == Retain(Project(RoundWrites(results), e), 1)
  {
    var s := Shipped();
    var ws := RoundWrites(results);
    RoundIsSetAll(s, entities, results);
    BroadcastSeesEveryWrite(Last(LastState.Empty), ws);
    SetAllHistory(s, ws, e);
    AcceptedUnfiltered(s, ws, e);
    assert [] + Project(ws, e) == Project(ws, e);
  }

  /** The binary configures no bootstrap window, so its fetcher never asks
      for history: every call it makes is a current-state call. */
  lemma ShippedNeverBootstraps(entities: seq<string>, histories: seq<Result<seq<seq<Record>>>>,
                               ticks: seq<seq<Result<Record>>>)
    requires |histories| == |entities| && Answered(ticks, |entities|)
    ensures var calls := Run(Fetcher(entities, 0), Shipped(), histories, ticks).calls;
      forall i | 0 <= i < |calls| :: calls[i].GetState?
  {
    RunCalls(Fetcher(entities, 0), Shipped(), histories, ticks);
  }
}
