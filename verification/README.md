# halocation: the state store chain and the fetch loop, in Dafny

halocation polls a Home Assistant server for the state of a configured list
of entities (usually device trackers). It keeps what it fetched in a store
and rebroadcasts each new state to server-sent-event listeners. This project
models three parts of that program:

- **The store chain.** The `State` interface has two persisting stores:
  `LastState`, which keeps the last record per entity, and `RingState`,
  which keeps a circular buffer of `Size` records per entity. Two
  decorators wrap them: `FilterState`, which drops records without float
  `latitude`/`longitude` or with `position: false`, and `EmittingState`,
  which forwards to an optional inner store and then calls an optional
  `OnState` callback.
- **The fetch logic.** This covers `fetchEntity`, `fetchEntityHistory`, the
  bootstrap guard of `Run` and the per-tick polling rounds.
- **`arrayFlags`.** This is the repeatable `-entity` command-line flag.

Modelling choices:

- **Records.** A Home Assistant state is a `Record`. Its attribute values
  carry the JSON decoder's dynamic tags. Numbers are always floats, so the
  type assertions of the filter are modelled as tag tests.
- **Stores.** A store is the recursive datatype `Store.State`. `Set`
  returns the new store plus the records handed to callbacks, in call
  order, so callbacks are a trace rather than side effects.
- **Per-entity view.** Every store contract is stated through
  `Store.View(s, e)`, which is what the bottom store holds for entity `e`,
  oldest first. Each `Set` that gets through turns it into
  `Retain(View + [v], Capacity)`. The capacity is 1 for `LastState` and
  `Size` for `RingState`.
- **Map iteration.** Go's map iteration order is unspecified. `List`
  therefore takes an `order` argument that must enumerate the map's keys,
  and every property holds for every such order.
- **Rings.** A ring (`container/ring`) is its slots plus the cursor the
  source's ring pointer stands on. `Do` visits the slots from the cursor
  round to the slot before it.
- **Remote calls.** Calls to the Home Assistant client are replaced by
  their answers, a value or an error supplied as an argument. The fetch
  functions return the client calls they made, so the bootstrap guard can
  be stated.
- **Concurrency.** A fetch round runs the per-entity fetches one after the
  other in list order. The source runs them concurrently; see "Left out".
- **Cancellation.** The run is cut off after a finite list of ticks.

Modules:

- `Records`: the record, option and result types, `Project` and `Retain`.
- `LastState`, `RingState`, `FilterState`: one per store.
- `Store`: the interface dispatch and `EmittingState`.
- `StoreHistory`: sequences of writes.
- `Fetcher`: the fetch logic.
- `Flags`: `arrayFlags`.
- `Scenarios`: whole-run consequences.

## Model

| member | source | states |
|---|---|---|
| LastState.Set | state.go:22-31 | the written entity maps to exactly the written record; the key set grows by that id only; every other entry is unchanged; entries stay filed under their own id |
| LastState.View | state.go:16-19 | the store holds at most one record per entity, and holds one exactly when the entity has an entry |
| LastState.List | state.go:34-40 | for any iteration order, the list has one record per entry, exactly the map's values, no id twice, and per entity exactly what the store holds |
| LastState.SetTwice | state.go:22-31 | writing the same record twice leaves the same store as writing it once |
| LastState.SetOther | state.go:30 | a write leaves every other entity's entry as it was |
| RingState.Write | ringstate.go:30-31 | writing the current slot and stepping the cursor, seen in `Do` order, drops the oldest slot from the front and appends the new record at the back |
| RingState.WriteRetains | ringstate.go:30-31 | a ring of n slots keeps the most recent n records: one write appends the record and, once the ring is full, pushes the oldest out; empty slots stay in front |
| RingState.View | ringstate.go:39-44 | an entity's records are never more than `Size`, and all carry its id |
| RingState.Set | ringstate.go:18-32 | a first write creates a ring of `Size` empty slots and writes it; the entity's records become the last `Size` of (old records + new one), oldest first; every other entity's ring and records are unchanged; validity is kept |
| RingState.List | ringstate.go:35-48 | for any iteration order, restricted to one entity the list is exactly that entity's retained records, oldest first, and never more than `Size`; empty slots are skipped |
| RingState.FlattenMembers | ringstate.go:40-42 | every listed record comes from a filled slot |
| FilterState.WrongTypeIsMissing | filterstate.go:15-21 | a coordinate stored under any non-float tag counts as missing, and the record is dropped |
| FilterState.OnlyFalsePositionBlocks | filterstate.go:23-28 | with both coordinates present as floats, the record passes if and only if `position` is not the boolean `false` (missing, `true` or another tag all pass) |
| FilterState.DecidedByCoordinatesAndPosition | filterstate.go:14-28 | acceptance depends only on whether each coordinate is a float and whether `position` is the boolean `false`: changing any other attribute, replacing a float coordinate by another float, or changing the id, status or timestamps never changes the verdict |
| FilterState.Examples | filterstate.go:14-28 | coordinates alone pass; no coordinates is dropped; `position: false` is dropped; `position: true` passes |
| Store.Set | state.go:10-13 | every composition keeps its shape; every callback receives the record itself; a chain with no callback emits nothing; a record some filter drops leaves the store exactly as it was |
| Store.SetHistory | state.go:10-13 | per entity: a record that reaches the bottom store is appended to its entity's history, trimmed to the capacity; its id joins the keys; every other entity keeps what it had; a dropped record changes no key |
| Store.List | state.go:10-13 | through any decorators, per entity the listed records are exactly what the bottom store holds |
| Store.DecoratorsForward | state.go:49-52 | an emitter with an inner store hands the record unchanged to exactly one `Set` of the store below, and an emitter without one stores nothing; an accepting filter does the same (filterstate.go:28) |
| Store.DecoratorsList | state.go:43-46 | listing through an emitter lists its embedded store, whose `List` it inherits; listing through a filter lists its parent (filterstate.go:32-34) |
| Store.EmitterNotifiesOnce | state.go:49-57 | an emitter with a callback notifies exactly once per `Set`, with the record as given, after its inner store (if any) has run |
| Store.DroppedRecordsStillNotify | state.go:49-57 | a record a filter under the emitter drops leaves the store untouched, yet the callback still receives it once |
| Store.SetTwiceKeepsStore | state.go:22-31 | over a last-value store, repeating a write changes no stored data |
| Store.EmptyListsNothing | state.go:26-28 | a store nothing was written to, of either kind, lists nothing |
| StoreHistory.SetAllHistory | ringstate.go:18-32 | after any write sequence, each entity holds the last `Capacity` of its earlier records followed by its writes that pass the filters: the last `Size` for a ring, the latest alone for a last-value store |
| StoreHistory.SetAllAppend | state.go:10-13 | writing two batches in turn is writing their concatenation, and callbacks fire in the same order |
| StoreHistory.BroadcastSeesEveryWrite | state.go:49-57 | an outermost notifying emitter over silent stores sees every write, in order, filtered or not |
| Fetcher.FetchEntity | fetcher.go:77-85 | one current-state call; an error changes nothing and notifies nobody; a value is written with exactly one `Set` |
| Fetcher.HistoryWrites | fetcher.go:95-115 | an error, or a history with other than exactly one series, writes nothing; otherwise the series is written in order, each record equal to its source on all five fields |
| Fetcher.FetchEntityHistory | fetcher.go:87-116 | one history call, then the writes above applied to the store in turn |
| Fetcher.Round | fetcher.go:46-71 | a fetch round makes one current-state call per configured entity, in list order |
| Fetcher.BootstrapRound | fetcher.go:73-75 | a bootstrap round makes one history call per configured entity |
| Fetcher.Poll | fetcher.go:36-43 | the client calls are one full round per tick, in order |
| Fetcher.PollIsSetAll | fetcher.go:36-43 | each tick runs one full round starting from the store the previous round left: the final store and the callbacks are those of every round's successful answers written in turn |
| Fetcher.Run | fetcher.go:25-44 | the calls are the bootstrap round's when `Bootstrap > 0`, none otherwise, then one round per tick |
| Fetcher.RunIsSetAll | fetcher.go:25-44 | a whole run leaves the store and fires the callbacks of writing the bootstrap histories first (only when `Bootstrap > 0`) and then every polling round's answers, in order |
| Fetcher.RunCalls | fetcher.go:31-34 | bootstrap runs once, first, and if and only if `Bootstrap > 0`: then exactly the first calls, one per entity in order, ask for history, and no other call does |
| Fetcher.RoundIsSetAll | fetcher.go:69-85 | a round is the writes of its successful answers applied in turn: none lost, repeated or reordered, callbacks in the same order |
| Fetcher.BootstrapIsSetAll | fetcher.go:73-116 | a bootstrap round is likewise its history writes applied in turn |
| Scenarios.LastKeepsLatest | state.go:30 | over a last-value store, a series of passing writes for one entity leaves only the latest |
| Scenarios.BootstrapKeepsLatest | fetcher.go:106-115 | bootstrapping into a last-value store leaves the latest record of the history |
| Scenarios.RoomKeepsAll | ringstate.go:30-31 | an entity with nothing stored, written fewer records than the capacity, keeps them all in order |
| Scenarios.BootstrapFillsRoom | fetcher.go:106-115 | bootstrapping a short enough history into an empty entity keeps the whole history, oldest first |
| Scenarios.RingFromEmpty | ringstate.go:18-32 | a ring store written from empty holds for each entity its last `Size` writes, oldest first |
| Scenarios.RingKeepsLast | ringstate.go:35-48 | the same, seen through `List` restricted to the entity |
| Scenarios.RingOneEntity | ringstate.go:18-32 | with writes for one entity only, the ring holds the last `Size` of them |
| Scenarios.RingOfThreeExample | ringstate.go:30-31 | a ring of size 3 written a, b, c, d holds b, c, d |
| Scenarios.ShippedRound | cmd/location/main.go:58-81 | in the composition the binary builds, a fetch round broadcasts every fetched record in fetch order and leaves each entity's latest fetched record |
| Scenarios.ShippedNeverBootstraps | cmd/location/main.go:62-68 | the binary sets no bootstrap window, so its fetcher only ever asks for current state |
| Flags.Split | cmd/location/main.go:178 | splitting on a comma gives one more piece than there are commas, empty pieces kept; no piece holds a comma; joining the pieces back gives the value |
| Flags.SplitJoin | cmd/location/main.go:178 | splitting undoes joining for comma-free pieces |
| Flags.TrimSpaceShape | cmd/location/main.go:179 | a trimmed piece is the infix after the leading white space, everything after it is white space, and it neither starts nor ends with white space |
| Flags.Set | cmd/location/main.go:176-188 | never fails and only appends; a value without a comma is appended verbatim; otherwise one entry per comma-separated piece, in order and trimmed, one more than the number of commas |
| Flags.SetKeepsEmptyPiece | cmd/location/main.go:177-179 | two commas in a row give an empty entry, as in `a,,b` giving `a`, `""`, `b` |
| Flags.SetJoined | cmd/location/main.go:177-182 | a value of two or more comma-free pieces becomes exactly those pieces, each trimmed |
| Flags.StringSetRoundTrip | cmd/location/main.go:172-188 | feeding `String`'s output back to `Set` reproduces the entries when there is at least one and none holds a comma or has white space at its ends |

## Left out

- Concurrency. `fetchConcurrent` runs each round's fetches as goroutines
  bounded by a semaphore of `MaxConcurrency` and waits on a `WaitGroup`.
  The model runs them sequentially in list order. Under the mutexes every
  real run is some interleaving of the same `Set` calls. The per-entity
  results still hold when each entity is listed once, but their order
  across entities is not modelled.
- `MaxConcurrency`. The model assumes it is at least 1, which is what makes
  every round complete. The source does not check the value (the
  `-concurrency` flag accepts any int). A negative value makes the channel
  creation panic. With 0 the semaphore channel is unbuffered, so the first
  send blocks forever: no `Set` happens and `Run` never returns to its
  `select`. The model's `Fetcher` has no such field, and its rounds always
  complete and apply every write.
- The mutexes of `LastState` and `RingState`. The model is sequential, so
  they have no effect. Also not modelled: `LastState.List` reads the map
  without taking the lock.
- The ticker and the context. `PollInterval` and cancellation are replaced
  by a finite list of ticks. Time is not modelled.
- The bootstrap window's start and end times. These come from `time.Now`
  and are only passed to the client, which is replaced by its answers.
  Only the sign of `Bootstrap` is used.
- Logging, on every early return in the filter and the fetcher.
- The rest of cmd/location/main.go: flag parsing other than `arrayFlags`,
  the ping with back-off, the SSE bus, the HTTP server and signal handling.
  Only the store composition (lines 58-68) and the `OnState` callback
  (lines 78-81) are modelled, the callback as a record in the emitted trace.
- Float payloads. These are kept as `real` and never computed with.
- RingState.Set: requires `Size >= 1`, so a store with `Size <= 0` is
  excluded. For such a size `ring.New` returns nil and the write then
  dereferences nil, so the source panics.
- Store.List: an emitter with no inner store is excluded by the `Listable`
  precondition. The source calls `List` on a nil embedded interface there
  and panics.
- Fetcher.Run, Fetcher.RunCalls, Fetcher.RunIsSetAll: assume
  `PollInterval > 0` and a non-nil `State`. `Run` creates its ticker at
  fetcher.go:28, before the bootstrap guard, and `time.NewTicker` panics on
  a non-positive interval, which the `-poll-interval` flag does not rule
  out. That run makes no client call and no `Set` before the process dies.
  A nil `State` panics at the first successful answer, on the interface
  call at fetcher.go:84 or fetcher.go:108. The model's `Fetcher` has
  neither field: its runs always bootstrap when `Bootstrap > 0` and poll
  every tick.
- A `FilterState` with a nil `Parent` panics on its first accepted record.
  The model always has a parent store.
- Flags.String: no contract beyond its definition as a join with ", ". Its
  behaviour is stated through Flags.StringSetRoundTrip.
