/** `RingState` of ringstate.go: per entity, a circular buffer of `Size` slots
    created on the entity's first write. A ring is its slots plus the cursor
    the source's `*ring.Ring` pointer stands on, which is the slot written
    next; `Do` walks every slot once starting from the cursor. */
module RingState {
  import opened Records

  datatype Ring = Ring(slots: seq<Option<Record>>, cursor: nat)

  datatype Rings = Rings(size: int, rings: map<string, Ring>)

  /** A store with no ring yet; `size` is the configured `Size`. */
  function Empty(size: int): Rings {
    Rings(size, map[])
  }

  /** `ring.New(size)`: `size` empty slots, cursor on the first. */
  function NewRing(size: nat): Ring {
    Ring(seq(size, _ => None), 0)
  }

  /** The slots in the order `Do` visits them: from the cursor to the end, then
      from the start up to the cursor. */
  function Rotation(g: Ring): (r: seq<Option<Record>>)
    requires g.cursor <= |g.slots|
    ensures |r| == |g.slots|
  {
    g.slots[g.cursor..] + g.slots[..g.cursor]
  }

  /** The records among `xs`, skipping empty slots, in order. */
  function Flatten(xs: seq<Option<Record>>): (r: seq<Record>)
    ensures |r| <= |xs|
  {
    if xs == [] then []
    else (if xs[0].Some? then [xs[0].value] else []) + Flatten(xs[1..])
  }

  lemma {:induction false} FlattenAppend(a: seq<Option<Record>>, b: seq<Option<Record>>)
    ensures Flatten(a + b) == Flatten(a) + Flatten(b)
    decreases |a|
  {
    if a != [] {
      assert (a + b)[1..] == a[1..] + b;
      FlattenAppend(a[1..], b);
    } else {
      assert a + b == b;
    }
  }

  /** With no empty slot, every slot contributes a record. */
  lemma {:induction false} FlattenFull(xs: seq<Option<Record>>)
    requires forall i | 0 <= i < |xs| :: xs[i].Some?
    ensures |Flatten(xs)| == |xs|
    decreases |xs|
  {
    if xs != [] {
      FlattenFull(xs[1..]);
    }
  }

  /** With only empty slots, there is no record. */
  lemma {:induction false} FlattenEmpty(xs: seq<Option<Record>>)
    requires forall i | 0 <= i < |xs| :: xs[i].None?
    ensures Flatten(xs) == []
    decreases |xs|
  {
    if xs != [] {
      FlattenEmpty(xs[1..]);
    }
  }

  /** Every record comes from a filled slot. */
  lemma {:induction false} FlattenMembers(xs: seq<Option<Record>>)
    ensures forall x | x in Flatten(xs) :: Some(x) in xs
    decreases |xs|
  {
    if xs != [] {
      FlattenMembers(xs[1..]);
      assert forall y | y in xs[1..] :: y in xs;
    }
  }

  /** What `Do` hands to its callback and the type assertion keeps: the ring's
      records, oldest first. */
  function Contents(g: Ring): seq<Record>
    requires g.cursor <= |g.slots|
  {
    Flatten(Rotation(g))
  }

  /** In `Do`'s order, every empty slot comes before every filled one: the ring
      fills from the cursor onwards and is never emptied. */
  predicate NonesFirst(xs: seq<Option<Record>>) {
    if xs == [] then true
    else if xs[0].Some? then AllSome(xs)
    else NonesFirst(xs[1..])
  }

  predicate AllSome(xs: seq<Option<Record>>) {
    forall i | 0 <= i < |xs| :: xs[i].Some?
  }

  /** A filled ring has its empty slots (none) first. */
  lemma {:induction false} AllSomeNonesFirst(xs: seq<Option<Record>>)
    requires AllSome(xs)
    ensures NonesFirst(xs)
  {
  }

  /** So has an empty ring. */
  lemma {:induction false} AllNoneNonesFirst(xs: seq<Option<Record>>)
    requires forall i | 0 <= i < |xs| :: xs[i].None?
    ensures NonesFirst(xs)
    decreases |xs|
  {
    if xs != [] {
      AllNoneNonesFirst(xs[1..]);
    }
  }

  /** Filling a slot at the back keeps the empty slots first. */
  lemma {:induction false} NonesFirstAppend(xs: seq<Option<Record>>, v: Record)
    requires NonesFirst(xs)
    ensures NonesFirst(xs + [Some(v)])
    decreases |xs|
  {
    if xs == [] {
    } else if xs[0].Some? {
      assert AllSome(xs + [Some(v)]);
    } else {
      NonesFirstAppend(xs[1..], v);
      assert (xs + [Some(v)])[1..] == xs[1..] + [Some(v)];
    }
  }

  /** The shape every ring of entity `e` keeps in a store of capacity `size`. */
  ghost predicate RingOk(g: Ring, size: int, e: string) {
    && |g.slots| == size
    && g.cursor < size
    && NonesFirst(Rotation(g))
    && forall i | 0 <= i < |g.slots| && g.slots[i].Some? :: g.slots[i].value.entityId == e
  }

  ghost predicate Valid(s: Rings) {
    && s.size >= 1
    && forall k | k in s.rings :: RingOk(s.rings[k], s.size, k)
  }

  /** Store `v` in the current slot, then step the cursor forward. Seen in
      `Do`'s order, the oldest slot leaves the front and `v` joins the back. */
  function Write(g: Ring, v: Record): (r: Ring)
    requires g.cursor < |g.slots|
    ensures |r.slots| == |g.slots| && r.cursor < |r.slots|
    ensures Rotation(r) == Rotation(g)[1..] + [Some(v)]
  {
    var r := Ring(g.slots[g.cursor := Some(v)], (g.cursor + 1) % |g.slots|);
    if g.cursor + 1 < |g.slots| then WriteInside(g, v, r); r
    else WriteWraps(g, v, r); r
  }

  /** The write of a cursor short of the last slot. */
  lemma WriteInside(g: Ring, v: Record, r: Ring)
    requires g.cursor + 1 < |g.slots|
    requires r == Ring(g.slots[g.cursor := Some(v)], g.cursor + 1)
    ensures Rotation(r) == Rotation(g)[1..] + [Some(v)]
  {
    var c := g.cursor;
    assert r.slots[c + 1..] == g.slots[c + 1..];
    assert r.slots[..c + 1] == g.slots[..c] + [Some(v)];
    assert g.slots[c..][1..] == g.slots[c + 1..];
    assert Rotation(g)[1..] == g.slots[c + 1..] + g.slots[..c];
  }

  /** The write on the last slot, which sends the cursor back to the first. */
  lemma WriteWraps(g: Ring, v: Record, r: Ring)
    requires g.cursor + 1 == |g.slots|
    requires r == Ring(g.slots[g.cursor := Some(v)], 0)
    ensures Rotation(r) == Rotation(g)[1..] + [Some(v)]
  {
    var c := g.cursor;
    assert Rotation(r) == r.slots;
    assert r.slots == g.slots[..c] + [Some(v)];
    assert g.slots[c..] == [g.slots[c]];
    assert Rotation(g)[1..] == g.slots[..c];
  }

  /** Dropping the front slot and filling one at the back keeps the empty
      slots first. */
  lemma ShiftNonesFirst(rot: seq<Option<Record>>, v: Record)
    requires |rot| > 0 && NonesFirst(rot)
    ensures NonesFirst(rot[1..] + [Some(v)])
  {
    if rot[0].Some? {
      assert AllSome(rot[1..] + [Some(v)]);
      AllSomeNonesFirst(rot[1..] + [Some(v)]);
    } else {
      NonesFirstAppend(rot[1..], v);
    }
  }

  /** Seen as records, that shift appends `v` and, once every slot is
      filled, pushes the oldest record out. */
  lemma ShiftRetains(rot: seq<Option<Record>>, v: Record)
    requires |rot| > 0
    requires rot[0].Some? ==> AllSome(rot)
    ensures Flatten(rot[1..] + [Some(v)]) == Retain(Flatten(rot) + [v], |rot|)
  {
    var tail := rot[1..];
    FlattenAppend(tail, [Some(v)]);
    assert Flatten([Some(v)]) == [v];
    if rot[0].Some? {
      FlattenFull(rot);
      ShiftFull(rot, v);
    } else {
      assert Flatten(rot) == Flatten(tail);
      RetainAll(Flatten(rot) + [v], |rot|);
    }
  }

  lemma ShiftFull(rot: seq<Option<Record>>, v: Record)
    requires |rot| > 0 && rot[0].Some? && |Flatten(rot)| == |rot|
    ensures Retain(Flatten(rot) + [v], |rot|) == Flatten(rot[1..]) + [v]
  {
    var f := Flatten(rot[1..]);
    assert Flatten(rot) == [rot[0].value] + f;
    RetainDropOne(Flatten(rot) + [v], |rot|);
    assert ([rot[0].value] + f + [v])[1..] == f + [v];
  }

  /** A ring of capacity `|g.slots|` keeps the most recent `|g.slots|` records:
      one write appends `v` to the contents and, once the ring is full, pushes
      the oldest record out. */
  lemma WriteRetains(g: Ring, v: Record)
    requires g.cursor < |g.slots|
    requires NonesFirst(Rotation(g))
    ensures NonesFirst(Rotation(Write(g, v)))
    ensures Contents(Write(g, v)) == Retain(Contents(g) + [v], |g.slots|)
  {
    var rot := Rotation(g);
    ShiftNonesFirst(rot, v);
    ShiftRetains(rot, v);
  }

  /** The records the store holds for entity `e`, oldest first. */
  function View(s: Rings, e: string): (r: seq<Record>)
    requires Valid(s)
    ensures |r| <= s.size
    ensures forall x | x in r :: x.entityId == e
  {
    if e in s.rings then
      var g := s.rings[e];
      assert forall x | x in Contents(g) :: x.entityId == e by {
        FlattenMembers(Rotation(g));
        forall x | x in Contents(g) ensures x.entityId == e {
          var i :| 0 <= i < |Rotation(g)| && Rotation(g)[i] == Some(x);
          if i < |g.slots| - g.cursor {
            assert g.slots[g.cursor + i] == Some(x);
          } else {
            assert g.slots[i - (|g.slots| - g.cursor)] == Some(x);
          }
        }
      }
      Contents(g)
    else []
  }

  /** `Set`: the entity's ring is created with `Size` empty slots on first
      sight, then written. Other entities' rings are left as they were, and
      the entity's records become the last `Size` of its writes. */
  function Set(s: Rings, v: Record): (r: Rings)
    requires Valid(s)
    ensures Valid(r)
    ensures r.size == s.size
    ensures r.rings.Keys == s.rings.Keys + {v.entityId}
    ensures forall k | k in s.rings && k != v.entityId :: r.rings[k] == s.rings[k]
    ensures v.entityId !in s.rings ==> r.rings[v.entityId] == Write(NewRing(s.size), v)
    ensures View(r, v.entityId) == Retain(View(s, v.entityId) + [v], s.size)
    ensures forall k | k != v.entityId :: View(r, k) == View(s, k)
  {
    var e := v.entityId;
    var g := if e in s.rings then s.rings[e] else NewRing(s.size);
    SetRetains(s, v, g);
    ReplaceRing(s, e, Write(g, v));
    Rings(s.size, s.rings[e := Write(g, v)])
  }

  /** Replacing one entity's ring by a well-shaped one keeps the store valid
      and touches no other entity. */
  lemma ReplaceRing(s: Rings, e: string, w: Ring)
    requires Valid(s) && RingOk(w, s.size, e)
    ensures Valid(Rings(s.size, s.rings[e := w]))
    ensures s.rings[e := w].Keys == s.rings.Keys + {e}
    ensures forall k | k in s.rings && k != e :: s.rings[e := w][k] == s.rings[k]
    ensures forall k | k != e :: View(Rings(s.size, s.rings[e := w]), k) == View(s, k)
  {
  }

  lemma SetKeepsShape(s: Rings, v: Record, g: Ring)
    requires Valid(s)
    requires g == if v.entityId in s.rings then s.rings[v.entityId] else NewRing(s.size)
    ensures RingOk(g, s.size, v.entityId)
    ensures RingOk(Write(g, v), s.size, v.entityId)
  {
    if v.entityId !in s.rings {
      NewRingOk(s.size, v.entityId);
    }
    WriteKeepsShape(g, s.size, v);
  }

  /** A fresh ring has the shape of every ring. */
  lemma NewRingOk(size: int, e: string)
    requires size >= 1
    ensures RingOk(NewRing(size), size, e)
  {
    var g := NewRing(size);
    assert forall i | 0 <= i < |Rotation(g)| :: Rotation(g)[i].None?;
    AllNoneNonesFirst(Rotation(g));
  }

  /** Writing a record of entity `v.entityId` keeps that entity's ring shape. */
  lemma WriteKeepsShape(g: Ring, size: int, v: Record)
    requires RingOk(g, size, v.entityId)
    ensures RingOk(Write(g, v), size, v.entityId)
  {
    var g' := Write(g, v);
    WriteRetains(g, v);
    forall i | 0 <= i < |g'.slots| && g'.slots[i].Some?
      ensures g'.slots[i].value.entityId == v.entityId
    {
      if i != g.cursor {
        assert g'.slots[i] == g.slots[i];
      }
    }
  }

  lemma SetRetains(s: Rings, v: Record, g: Ring)
    requires Valid(s)
    requires g == if v.entityId in s.rings then s.rings[v.entityId] else NewRing(s.size)
    ensures RingOk(Write(g, v), s.size, v.entityId)
    ensures Contents(Write(g, v)) == Retain(View(s, v.entityId) + [v], s.size)
  {
    SetKeepsShape(s, v, g);
    WriteRetains(g, v);
    if v.entityId !in s.rings {
      assert forall i | 0 <= i < |Rotation(g)| :: Rotation(g)[i].None?;
      FlattenEmpty(Rotation(g));
    }
  }

  /** The records `List` meets ranging over the rings in key order `order`. */
  function Collect(s: Rings, order: seq<string>): seq<Record>
    requires Valid(s)
    requires forall k | k in order :: k in s.rings
  {
    if order == [] then [] else View(s, order[0]) + Collect(s, order[1..])
  }

  lemma {:induction false} CollectProject(s: Rings, order: seq<string>, e: string)
    requires Valid(s)
    requires forall k | k in order :: k in s.rings
    requires forall i, j | 0 <= i < j < |order| :: order[i] != order[j]
    ensures Project(Collect(s, order), e) == (if e in order then View(s, e) else [])
    decreases |order|
  {
    if order != [] {
      var rest := order[1..];
      CollectProject(s, rest, e);
      ProjectAppend(View(s, order[0]), Collect(s, rest), e);
      if order[0] == e {
        ProjectOwn(View(s, e), e);
      } else {
        ProjectForeign(View(s, order[0]), e);
      }
    }
  }

  /** `List` for one iteration order of the map: every ring flattened, empty
      slots skipped. Restricted to one entity it is exactly that entity's
      retained records, oldest first, so never more than `Size` of them. */
  function List(s: Rings, order: seq<string>): (r: seq<Record>)
    requires Valid(s)
    requires Enumerates(order, s.rings.Keys)
    ensures forall e :: Project(r, e) == View(s, e)
    ensures forall e :: |Project(r, e)| <= s.size
  {
    var r := Collect(s, order);
    forall e ensures Project(r, e) == View(s, e) {
      CollectProject(s, order, e);
    }
    r
  }
}
