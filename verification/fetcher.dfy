/** The fetch logic of fetcher.go. The remote client is replaced by its
    answers: each fetch receives the value-or-error the client returned. A
    fetch round calls the fetch function once per configured entity; the
    source runs those calls concurrently, the model runs them one after the
    other in list order. Cancellation is modelled by a finite list of ticks. */
module Fetcher {
  import opened Records
  import opened Store
  import StoreHistory

  /** A call made to the remote client. */
  datatype Call = GetState(entity: string) | GetHistory(entity: string)

  /** The configuration the fetch logic reads. `bootstrap` is the bootstrap
      window as a signed duration; only its sign matters here. */
  datatype Fetcher = Fetcher(entities: seq<string>, bootstrap: int)

  /** The store after some fetching, the records handed to callbacks, and the
      client calls made, all in order. */
  datatype Trace = Trace(store: State, emitted: seq<Record>, calls: seq<Call>)

  /** The `Set` calls one current-state answer leads to. */
  function EntityWrites(res: Result<Record>): seq<Record> {
    match res
    case Ok(v) => [v]
    case Err(_) => []
  }

  /** `fetchEntity`: one client call; an error writes nothing and notifies
      nobody, a value is written with exactly one `Set`. */
  function FetchEntity(s: State, entity: string, res: Result<Record>): (t: Trace)
    requires Valid(s)
    ensures Valid(t.store)
    ensures t.calls == [GetState(entity)]
    ensures res.Err? ==> t.store == s && t.emitted == []
    ensures res.Ok? ==> Applied(t.store, t.emitted) == Set(s, res.value)
  {
    var a := SetAll(s, EntityWrites(res));
    if res.Ok? then StoreHistory.SetAllSingle(s, res.value); Trace(a.store, a.emitted, [GetState(entity)])
    else Trace(a.store, a.emitted, [GetState(entity)])
  }

  /** The records `fetchEntityHistory` writes, rebuilt field by field as the
      source does. */
  function Copy(xs: seq<Record>): seq<Record> {
    seq(|xs|, i requires 0 <= i < |xs| =>
      Record(xs[i].entityId, xs[i].status, xs[i].attributes, xs[i].lastChanged, xs[i].lastUpdated))
  }

  /** The `Set` calls one history answer leads to: none for an error, none
      unless exactly one series came back, otherwise that series in order,
      each record equal to its source on all five fields. */
  function HistoryWrites(res: Result<seq<seq<Record>>>): (ws: seq<Record>)
    ensures res.Err? ==> ws == []
    ensures res.Ok? && |res.value| != 1 ==> ws == []
    ensures res.Ok? && |res.value| == 1 ==> ws == res.value[0]
  {
    match res
    case Err(_) => []
    case Ok(series) => if |series| != 1 then [] else Copy(series[0])
  }

  /** `fetchEntityHistory`: one client call, then the writes above. */
  function FetchEntityHistory(s: State, entity: string, res: Result<seq<seq<Record>>>): (t: Trace)
    requires Valid(s)
    ensures Valid(t.store)
    ensures t.calls == [GetHistory(entity)]
    ensures (res.Err? || |res.value| != 1) ==> t.store == s && t.emitted == []
    ensures res.Ok? && |res.value| == 1 ==> Applied(t.store, t.emitted) == SetAll(s, res.value[0])
  {
    var a := SetAll(s, HistoryWrites(res));
    Trace(a.store, a.emitted, [GetHistory(entity)])
  }

  /** The client calls of a fetch round: one current-state call per entity,
      in list order. */
  function StateCalls(entities: seq<string>): (r: seq<Call>)
    ensures |r| == |entities|
    ensures forall i | 0 <= i < |r| :: r[i] == GetState(entities[i])
  {
    if entities == [] then [] else [GetState(entities[0])] + StateCalls(entities[1..])
  }

  /** The client calls of the bootstrap round: one history call per entity. */
  function HistoryCalls(entities: seq<string>): (r: seq<Call>)
    ensures |r| == |entities|
    ensures forall i | 0 <= i < |r| :: r[i] == GetHistory(entities[i])
  {
    if entities == [] then [] else [GetHistory(entities[0])] + HistoryCalls(entities[1..])
  }

  /** `xs` repeated `n` times. */
  function Repeat(xs: seq<Call>, n: nat): (r: seq<Call>)
    ensures |r| == |xs| * n
  {
    if n == 0 then [] else xs + Repeat(xs, n - 1)
  }

  /** A fetch round of `fetchEntities`: entity `entities[i]` is fetched once
      and answered with `results[i]`; an id listed twice is fetched twice. */
  function Round(s: State, entities: seq<string>, results: seq<Result<Record>>): (t: Trace)
    requires Valid(s) && |results| == |entities|
    ensures Valid(t.store)
    ensures t.calls == StateCalls(entities)
    decreases |entities|
  {
    if entities == [] then Trace(s, [], [])
    else
      var a := FetchEntity(s, entities[0], results[0]);
      var b := Round(a.store, entities[1..], results[1..]);
      Trace(b.store, a.emitted + b.emitted, a.calls + b.calls)
  }

  /** The bootstrap round of `fetchEntityHistories`, shaped like `Round`. */
  function BootstrapRound(s: State, entities: seq<string>, results: seq<Result<seq<seq<Record>>>>): (t: Trace)
    requires Valid(s) && |results| == |entities|
    ensures Valid(t.store)
    ensures t.calls == HistoryCalls(entities)
    decreases |entities|
  {
    if entities == [] then Trace(s, [], [])
    else
      var a := FetchEntityHistory(s, entities[0], results[0]);
      var b := BootstrapRound(a.store, entities[1..], results[1..]);
      Trace(b.store, a.emitted + b.emitted, a.calls + b.calls)
  }

  /** Every round's answers cover every configured entity. */
  ghost predicate Answered<T>(ticks: seq<seq<T>>, n: nat) {
    forall k | 0 <= k < |ticks| :: |ticks[k]| == n
  }

  /** The polling loop: one fetch round per tick. Rounds never overlap: each
      starts from the store the previous one left, and the calls are one full
      round per tick. */
  function Poll(s: State, entities: seq<string>, ticks: seq<seq<Result<Record>>>): (r: Trace)
    requires Valid(s) && Answered(ticks, |entities|)
    ensures Valid(r.store)
    ensures r.calls == Repeat(StateCalls(entities), |ticks|)
    decreases |ticks|
  {
    if ticks == [] then Trace(s, [], [])
    else
      var a := Round(s, entities, ticks[0]);
      var r := Poll(a.store, entities, ticks[1..]);
      Trace(r.store, a.emitted + r.emitted, a.calls + r.calls)
  }

  /** `Run` until cancelled after `|ticks|` ticks: the bootstrap round's calls
      when `Bootstrap > 0`, nothing otherwise, then one round per tick. */
  function Run(f: Fetcher, s: State, histories: seq<Result<seq<seq<Record>>>>,
               ticks: seq<seq<Result<Record>>>): (t: Trace)
    requires Valid(s) && |histories| == |f.entities| && Answered(ticks, |f.entities|)
    ensures Valid(t.store)
    ensures t.calls == (if f.bootstrap > 0 then HistoryCalls(f.entities) else [])
                       + Repeat(StateCalls(f.entities), |ticks|)
  {
    var start := if f.bootstrap > 0 then BootstrapRound(s, f.entities, histories)
                 else Trace(s, [], []);
    var p := Poll(start.store, f.entities, ticks);
    Trace(p.store, start.emitted + p.emitted, start.calls + p.calls)
  }

  /** Every call of the polling rounds asks for current state. */
  lemma {:induction false} RepeatedStateCalls(entities: seq<string>, n: nat)
    ensures forall i | 0 <= i < |Repeat(StateCalls(entities), n)| ::
              Repeat(StateCalls(entities), n)[i].GetState?
  {
    if n > 0 {
      RepeatedStateCalls(entities, n - 1);
    }
  }

  /** The bootstrap round runs once, first, and exactly when `Bootstrap > 0`:
      then the first `|Entities|` calls are history calls in entity order, and
      no other call is. */
  lemma RunCalls(f: Fetcher, s: State, histories: seq<Result<seq<seq<Record>>>>,
                 ticks: seq<seq<Result<Record>>>)
    requires Valid(s) && |histories| == |f.entities| && Answered(ticks, |f.entities|)
    ensures var calls := Run(f, s, histories, ticks).calls;
      && |calls| == (if f.bootstrap > 0 then |f.entities| else 0) + |f.entities| * |ticks|
      && (forall i | 0 <= i < |calls| :: calls[i].GetHistory? <==> f.bootstrap > 0 && i < |f.entities|)
      && (f.bootstrap > 0 ==> forall i | 0 <= i < |f.entities| :: calls[i] == GetHistory(f.entities[i]))
  {
    var first := if f.bootstrap > 0 then HistoryCalls(f.entities) else [];
    var rest := Repeat(StateCalls(f.entities), |ticks|);
    RepeatedStateCalls(f.entities, |ticks|);
    var calls := Run(f, s, histories, ticks).calls;
    assert calls == first + rest;
    forall i | |first| <= i < |calls| ensures calls[i].GetState? {
      assert calls[i] == rest[i - |first|];
    }
  }

  /** The writes of a round, entity by entity. */
  function RoundWrites(results: seq<Result<Record>>): seq<Record> {
    if results == [] then [] else EntityWrites(results[0]) + RoundWrites(results[1..])
  }

  /** The writes of a bootstrap round, entity by entity. */
  function BootstrapWrites(results: seq<Result<seq<seq<Record>>>>): seq<Record> {
    if results == [] then [] else HistoryWrites(results[0]) + BootstrapWrites(results[1..])
  }

  /** A round is the sequence of its entities' writes applied in turn: no
      write is lost, repeated or reordered, and callbacks fire in that order. */
  lemma {:induction false} RoundIsSetAll(s: State, entities: seq<string>, results: seq<Result<Record>>)
    requires Valid(s) && |results| == |entities|
    ensures Applied(Round(s, entities, results).store, Round(s, entities, results).emitted)
              == SetAll(s, RoundWrites(results))
    decreases |entities|
  {
    if entities != [] {
      var ws := EntityWrites(results[0]);
      var a := SetAll(s, ws);
      RoundIsSetAll(a.store, entities[1..], results[1..]);
      StoreHistory.SetAllAppend(s, ws, RoundWrites(results[1..]));
    }
  }

  /** The bootstrap round likewise is its writes applied in turn. */
  lemma {:induction false} BootstrapIsSetAll(s: State, entities: seq<string>,
                                             results: seq<Result<seq<seq<Record>>>>)
    requires Valid(s) && |results| == |entities|
    ensures Applied(BootstrapRound(s, entities, results).store, BootstrapRound(s, entities, results).emitted)
              == SetAll(s, BootstrapWrites(results))
    decreases |entities|
  {
    if entities != [] {
      var ws := HistoryWrites(results[0]);
      var a := SetAll(s, ws);
      BootstrapIsSetAll(a.store, entities[1..], results[1..]);
      StoreHistory.SetAllAppend(s, ws, BootstrapWrites(results[1..]));
    }
  }

  /** The writes of a polling run, round by round. */
  function PollWrites(ticks: seq<seq<Result<Record>>>): seq<Record> {
    if ticks == [] then [] else RoundWrites(ticks[0]) + PollWrites(ticks[1..])
  }

  /** Polling is every round's writes applied in turn: each round starts from
      the store the previous one left, and the callbacks fire in that order. */
  lemma {:induction false} PollIsSetAll(s: State, entities: seq<string>, ticks: seq<seq<Result<Record>>>)
    requires Valid(s) && Answered(ticks, |entities|)
    ensures Applied(Poll(s, entities, ticks).store, Poll(s, entities, ticks).emitted)
              == SetAll(s, PollWrites(ticks))
    decreases |ticks|
  {
    if ticks != [] {
      var a := Round(s, entities, ticks[0]);
      RoundIsSetAll(s, entities, ticks[0]);
      PollIsSetAll(a.store, entities, ticks[1..]);
      StoreHistory.SetAllAppend(s, RoundWrites(ticks[0]), PollWrites(ticks[1..]));
    }
  }

  /** A whole run is the bootstrap writes (when `Bootstrap > 0`) followed by
      every polling round's writes, applied in turn to the starting store. */
  lemma RunIsSetAll(f: Fetcher, s: State, histories: seq<Result<seq<seq<Record>>>>,
                    ticks: seq<seq<Result<Record>>>)
    requires Valid(s) && |histories| == |f.entities| && Answered(ticks, |f.entities|)
    ensures Applied(Run(f, s, histories, ticks).store, Run(f, s, histories, ticks).emitted)
              == SetAll(s, (if f.bootstrap > 0 then BootstrapWrites(histories) else []) + PollWrites(ticks))
  {
    var first := if f.bootstrap > 0 then BootstrapWrites(histories) else [];
    var start := if f.bootstrap > 0 then BootstrapRound(s, f.entities, histories)
                 else Trace(s, [], []);
    if f.bootstrap > 0 {
      BootstrapIsSetAll(s, f.entities, histories);
    } else {
      assert first + PollWrites(ticks) == PollWrites(ticks);
    }
    PollIsSetAll(start.store, f.entities, ticks);
    StoreHistory.SetAllAppend(s, first, PollWrites(ticks));
  }
}
