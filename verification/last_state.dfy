/** `LastState` of state.go: the most recent record of every entity, keyed by
    entity id. The source's zero value has no map at all; reading or ranging
    over it behaves as an empty map, so `Empty` stands for both. */
module LastState {
  import opened Records

  datatype Last = Last(entries: map<string, Record>)

  const Empty: Last := Last(map[])

  /** Every entry is filed under its own record's id. `Set` keeps this. */
  ghost predicate Valid(s: Last) {
    forall k | k in s.entries :: s.entries[k].entityId == k
  }

  /** Latest write wins: the written entity now maps to exactly `v`, the key
      set grows by that id at most, and every other entry is untouched. */
  function Set(s: Last, v: Record): (r: Last)
    ensures v.entityId in r.entries && r.entries[v.entityId] == v
    ensures r.entries.Keys == s.entries.Keys + {v.entityId}
    ensures forall k | k in s.entries && k != v.entityId :: r.entries[k] == s.entries[k]
    ensures Valid(s) ==> Valid(r)
  {
    Last(s.entries[v.entityId := v])
  }

  /** What the store holds for entity `e`: its one entry, or nothing. */
  function View(s: Last, e: string): (r: seq<Record>)
    ensures |r| <= 1
    ensures |r| == 1 <==> e in s.entries
  {
    if e in s.entries then [s.entries[e]] else []
  }

  /** A write leaves every other entity's entry as it was. */
  lemma SetOther(s: Last, v: Record, e: string)
    requires e != v.entityId
    ensures View(Set(s, v), e) == View(s, e)
  {
  }

  /** The values met by ranging over the map in the key order `order`. */
  function Collect(s: Last, order: seq<string>): (r: seq<Record>)
    requires forall k | k in order :: k in s.entries
    ensures |r| == |order|
    ensures forall i | 0 <= i < |order| :: r[i] == s.entries[order[i]]
  {
    if order == [] then [] else [s.entries[order[0]]] + Collect(s, order[1..])
  }

  /** `List` for one iteration order of the map: exactly the map's values, one
      record per stored entity id and no id twice, and for every entity the
      records carrying its id are exactly what the store holds for it. */
  function List(s: Last, order: seq<string>): (r: seq<Record>)
    requires Valid(s)
    requires Enumerates(order, s.entries.Keys)
    ensures |r| == |s.entries|
    ensures forall x | x in r :: x in s.entries.Values
    ensures forall x | x in s.entries.Values :: x in r
    ensures forall i, j | 0 <= i < j < |r| :: r[i].entityId != r[j].entityId
    ensures forall e :: Project(r, e) == View(s, e)
  {
    var r := Collect(s, order);
    EnumeratesSize(order, s.entries.Keys);
    assert forall i | 0 <= i < |r| :: r[i].entityId == order[i];
    assert forall x | x in s.entries.Values :: x in r by {
      forall x | x in s.entries.Values ensures x in r {
        var k :| k in s.entries && s.entries[k] == x;
        var i :| 0 <= i < |order| && order[i] == k;
        assert r[i] == x;
      }
    }
    forall e ensures Project(r, e) == View(s, e) {
      CollectProject(s, order, e);
    }
    r
  }

  lemma {:induction false} CollectProject(s: Last, order: seq<string>, e: string)
    requires Valid(s)
    requires forall k | k in order :: k in s.entries
    requires forall i, j | 0 <= i < j < |order| :: order[i] != order[j]
    ensures Project(Collect(s, order), e) == (if e in order then [s.entries[e]] else [])
    decreases |order|
  {
    if order != [] {
      var rest := order[1..];
      CollectProject(s, rest, e);
      assert Collect(s, order) == [s.entries[order[0]]] + Collect(s, rest);
      ProjectAppend([s.entries[order[0]]], Collect(s, rest), e);
    }
  }

  /** Writing the same record a second time changes nothing. */
  lemma SetTwice(s: Last, v: Record)
    ensures Set(Set(s, v), v) == Set(s, v)
  {
  }
}
