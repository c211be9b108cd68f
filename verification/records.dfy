/** The value that flows through every store: one observed state of a Home
    Assistant entity, with its loosely typed attributes. Also the two sequence
    views every store contract is stated with: the records of one entity
    (`Project`) and the most recent `n` of a history (`Retain`). */
module Records {

  datatype Option<+T> = None | Some(value: T)

  /** A value-or-error answer from the remote source. */
  datatype Result<+T> = Ok(value: T) | Err(message: string)

  /** One attribute value as the JSON decoder hands it over. Every JSON number
      decodes as a float, so `Float` is the only numeric tag; the payload is
      kept opaque because no store computes with it. */
  datatype AttrValue =
    | Float(number: real)
    | Text(text: string)
    | Bool(flag: bool)
    | Null
    | Composite   // a nested array or object; the stores never look inside

  /** One observed state of an entity. Timestamps are opaque instants. */
  datatype Record = Record(
    entityId: string,
    status: string,
    attributes: map<string, AttrValue>,
    lastChanged: int,
    lastUpdated: int)

  /** `order` lists every key of `keys` exactly once: one possible iteration
      order of a Go map with that key set. */
  ghost predicate Enumerates(order: seq<string>, keys: set<string>) {
    && (forall i, j | 0 <= i < j < |order| :: order[i] != order[j])
    && (forall k | k in order :: k in keys)
    && (forall k | k in keys :: k in order)
  }

  lemma {:induction false} EnumeratesSize(order: seq<string>, keys: set<string>)
    requires Enumerates(order, keys)
    ensures |order| == |keys|
    decreases |order|
  {
    if order != [] {
      var rest := order[1..];
      assert Enumerates(rest, keys - {order[0]}) by {
        forall k | k in keys - {order[0]} ensures k in rest {
          var i :| 0 <= i < |order| && order[i] == k;
          assert i != 0;
          assert rest[i - 1] == k;
        }
        forall k | k in rest ensures k in keys - {order[0]} {
          var i :| 0 <= i < |rest| && rest[i] == k;
          assert order[i + 1] == k;
        }
      }
      EnumeratesSize(rest, keys - {order[0]});
    }
  }

  /** The records of `rs` that belong to entity `e`, in their original order. */
  function Project(rs: seq<Record>, e: string): (r: seq<Record>)
    ensures |r| <= |rs|
    ensures forall x | x in r :: x.entityId == e && x in rs
    ensures forall x | x in rs && x.entityId == e :: x in r
  {
    if rs == [] then []
    else (if rs[0].entityId == e then [rs[0]] else []) + Project(rs[1..], e)
  }

  lemma {:induction false} ProjectAppend(a: seq<Record>, b: seq<Record>, e: string)
    ensures Project(a + b, e) == Project(a, e) + Project(b, e)
    decreases |a|
  {
    if a != [] {
      assert (a + b)[1..] == a[1..] + b;
      ProjectAppend(a[1..], b, e);
    } else {
      assert a + b == b;
    }
  }

  lemma {:induction false} ProjectOwn(rs: seq<Record>, e: string)
    requires forall x | x in rs :: x.entityId == e
    ensures Project(rs, e) == rs
    decreases |rs|
  {
    if rs != [] {
      ProjectOwn(rs[1..], e);
      assert rs == [rs[0]] + rs[1..];
    }
  }

  lemma ProjectForeign(rs: seq<Record>, e: string)
    requires forall x | x in rs :: x.entityId != e
    ensures Project(rs, e) == []
  {
  }

  lemma ConcatAssoc<T>(x: seq<T>, y: seq<T>, z: seq<T>)
    ensures x + (y + z) == (x + y) + z
  {
  }

  /** The last `n` elements of `xs`, or all of them when there are fewer:
      what a buffer of capacity `n` still holds after receiving `xs`. */
  function Retain<T>(xs: seq<T>, n: nat): (r: seq<T>)
    ensures |r| == if |xs| <= n then |xs| else n
    ensures r == xs[|xs| - |r|..]
  {
    if |xs| <= n then xs else xs[|xs| - n..]
  }

  /** Nothing is trimmed from a sequence that fits. */
  lemma RetainAll<T>(xs: seq<T>, n: nat)
    requires |xs| <= n
    ensures Retain(xs, n) == xs
  {
  }

  /** One element too many: the oldest is trimmed. */
  lemma RetainDropOne<T>(xs: seq<T>, n: nat)
    requires |xs| == n + 1
    ensures Retain(xs, n) == xs[1..]
  {
  }

  /** Trimming before one more arrival loses nothing that trimming after keeps. */
  lemma RetainStep<T>(xs: seq<T>, y: T, n: nat)
    ensures Retain(Retain(xs, n) + [y], n) == Retain(xs + [y], n)
  {
    if |xs| > n && n > 0 {
      assert Retain(xs, n) + [y] == (xs + [y])[|xs| - n..];
      assert (xs + [y])[|xs| + 1 - n..] == (xs + [y])[|xs| - n..][1..];
    }
  }

  lemma {:induction false} RetainAppend<T>(xs: seq<T>, ys: seq<T>, n: nat)
    ensures Retain(Retain(xs, n) + ys, n) == Retain(xs + ys, n)
    decreases |ys|
  {
    if ys != [] {
      var init := ys[..|ys| - 1];
      var y := ys[|ys| - 1];
      assert ys == init + [y];
      RetainAppend(xs, init, n);
      calc {
        Retain(Retain(xs, n) + ys, n);
        { assert Retain(xs, n) + ys == (Retain(xs, n) + init) + [y]; }
        Retain((Retain(xs, n) + init) + [y], n);
        { RetainStep(Retain(xs, n) + init, y, n); }
        Retain(Retain(Retain(xs, n) + init, n) + [y], n);
        Retain(Retain(xs + init, n) + [y], n);
        { RetainStep(xs + init, y, n); }
        Retain((xs + init) + [y], n);
        { assert (xs + init) + [y] == xs + ys; }
        Retain(xs + ys, n);
      }
    } else {
      assert Retain(xs, n) + ys == Retain(xs, n);
      assert xs + ys == xs;
    }
  }

  /** Trimming a prefix of the arrivals before the rest arrive keeps the same
      final window. */
  lemma RetainAppendAssoc<T>(xs: seq<T>, ys: seq<T>, zs: seq<T>, n: nat)
    ensures Retain(Retain(xs + ys, n) + zs, n) == Retain(xs + (ys + zs), n)
  {
    RetainAppend(xs + ys, zs, n);
    assert (xs + ys) + zs == xs + (ys + zs);
  }
}
