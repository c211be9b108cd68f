/** `arrayFlags` of cmd/location/main.go: the value list of the repeatable
    `-entity` flag. Each flag value is appended as given, unless it holds a
    comma, in which case every comma-separated piece is appended trimmed. */
module Flags {
  import opened Records

  /** `unicode.IsSpace`, which `strings.TrimSpace` trims: the ASCII controls
      tab to carriage return, space, NEL, no-break space, and the other
      characters Unicode gives the White_Space property. */
  predicate IsSpace(c: char) {
    var n := c as int;
    || (0x09 <= n <= 0x0D) || n == 0x20 || n == 0x85 || n == 0xA0 || n == 0x1680
    || (0x2000 <= n <= 0x200A) || n == 0x2028 || n == 0x2029 || n == 0x202F
    || n == 0x205F || n == 0x3000
  }

  /** The number of white-space characters `s` starts with. */
  function Lead(s: string): (n: nat)
    ensures n <= |s|
    ensures forall k | 0 <= k < n :: IsSpace(s[k])
    ensures n == |s| || !IsSpace(s[n])
  {
    if s != [] && IsSpace(s[0]) then 1 + Lead(s[1..]) else 0
  }

  /** `s` without its trailing white space: the longest prefix that does not
      end with a space. */
  function TrimRight(s: string): (r: string)
    ensures |r| <= |s| && r == s[..|r|]
    ensures forall k | |r| <= k < |s| :: IsSpace(s[k])
    ensures r == [] || !IsSpace(r[|r| - 1])
  {
    if s != [] && IsSpace(s[|s| - 1]) then TrimRight(s[..|s| - 1]) else s
  }

  /** `strings.TrimSpace`: what is left of `s` after its leading and its
      trailing white space are removed. */
  function TrimSpace(s: string): string {
    TrimRight(s[Lead(s)..])
  }

  /** The trimmed string is the infix of `s` that starts after the leading
      spaces, everything after it is space, and it neither starts nor ends
      with a space. */
  lemma TrimSpaceShape(s: string)
    ensures var r := TrimSpace(s);
      && Lead(s) + |r| <= |s| && r == s[Lead(s)..Lead(s) + |r|]
      && (forall k | Lead(s) + |r| <= k < |s| :: IsSpace(s[k]))
      && (r == [] || (!IsSpace(r[0]) && !IsSpace(r[|r| - 1])))
  {
  }

  /** A string with no space at either end is its own trimming. */
  lemma TrimSpaceKeeps(s: string)
    requires s == [] || (!IsSpace(s[0]) && !IsSpace(s[|s| - 1]))
    ensures TrimSpace(s) == s
  {
    assert Lead(s) == 0;
    assert s[0..] == s;
  }

  /** A leading space is trimmed away. */
  lemma TrimSpaceLeadingSpace(x: string)
    requires TrimSpace(x) == x
    ensures TrimSpace(" " + x) == x
  {
    var y := " " + x;
    assert y[1..] == x;
    TrimSpaceShape(x);
    assert Lead(x) == 0;
    assert x[Lead(x)..] == x;
    assert Lead(y) == 1;
    assert y[Lead(y)..] == x;
  }

  /** How many times `c` occurs in `s`. */
  function Count(s: string, c: char): nat {
    if s == [] then 0 else (if s[0] == c then 1 else 0) + Count(s[1..], c)
  }

  lemma {:induction false} CountAppend(a: string, b: string, c: char)
    ensures Count(a + b, c) == Count(a, c) + Count(b, c)
    decreases |a|
  {
    if a != [] {
      assert (a + b)[1..] == a[1..] + b;
      CountAppend(a[1..], b, c);
    } else {
      assert a + b == b;
    }
  }

  lemma {:induction false} CountAbsent(s: string, c: char)
    requires c !in s
    ensures Count(s, c) == 0
    decreases |s|
  {
    if s != [] {
      CountAbsent(s[1..], c);
    }
  }

  /** The first position of `c` in `s`. */
  function IndexOf(s: string, c: char): (i: nat)
    requires c in s
    ensures i < |s| && s[i] == c && c !in s[..i]
  {
    if s[0] == c then 0
    else
      var i := 1 + IndexOf(s[1..], c);
      assert s[..i] == [s[0]] + s[1..][..i - 1];
      i
  }

  /** `strings.Join`: the elements with `sep` between neighbours. */
  function Join(xs: seq<string>, sep: string): string {
    if xs == [] then ""
    else if |xs| == 1 then xs[0]
    else xs[0] + sep + Join(xs[1..], sep)
  }

  /** `strings.Split` with a one-character separator: one more piece than
      there are separators (empty pieces kept), no piece holds the separator,
      and joining the pieces back with it gives `s` again. */
  function Split(s: string, sep: char): (r: seq<string>)
    ensures |r| == Count(s, sep) + 1
    ensures forall i | 0 <= i < |r| :: sep !in r[i]
    ensures Join(r, [sep]) == s
    decreases |s|
  {
    if sep !in s then
      CountAbsent(s, sep);
      [s]
    else
      var i := IndexOf(s, sep);
      var rest := Split(s[i + 1..], sep);
      assert s == s[..i] + [sep] + s[i + 1..];
      CountAppend(s[..i] + [sep], s[i + 1..], sep);
      CountAppend(s[..i], [sep], sep);
      CountAbsent(s[..i], sep);
      assert ([s[..i]] + rest)[1..] == rest;
      [s[..i]] + rest
  }

  /** Splitting at the first separator. */
  lemma SplitAt(a: string, b: string, sep: char)
    requires sep !in a
    ensures Split(a + [sep] + b, sep) == [a] + Split(b, sep)
  {
    var s := a + [sep] + b;
    assert s[|a|] == sep;
    assert s[..|a|] == a;
    var i := IndexOf(s, sep);
    assert i == |a|;
    assert s[i + 1..] == b;
  }

  /** Splitting undoes joining, for pieces free of the separator. */
  lemma {:induction false} SplitJoin(xs: seq<string>, sep: char)
    requires |xs| >= 1
    requires forall i | 0 <= i < |xs| :: sep !in xs[i]
    ensures Split(Join(xs, [sep]), sep) == xs
    decreases |xs|
  {
    if |xs| == 1 {
      assert Join(xs, [sep]) == xs[0];
    } else {
      SplitJoin(xs[1..], sep);
      SplitAt(xs[0], Join(xs[1..], [sep]), sep);
      assert xs == [xs[0]] + xs[1..];
    }
  }

  /** What `arrayFlags.Set` leaves behind, and the error it returns. */
  datatype Flagged = Flagged(entries: seq<string>, err: Option<string>)

  /** `arrayFlags.Set`: never fails and only appends. A value without a comma
      is appended verbatim; otherwise every comma-separated piece, empty ones
      included, is appended trimmed and in order, one more entry than the
      value has commas. */
  function Set(entries: seq<string>, value: string): (r: Flagged)
    ensures r.err == None
    ensures |r.entries| > |entries| && r.entries[..|entries|] == entries
    ensures ',' !in value ==> r.entries == entries + [value]
    ensures ',' in value ==> |r.entries| == |entries| + Count(value, ',') + 1
    ensures ',' in value ==>
      forall i | 0 <= i < |r.entries| - |entries| ::
        r.entries[|entries| + i] == TrimSpace(Split(value, ',')[i])
  {
    if ',' in value then
      var pieces := Split(value, ',');
      var trimmed := seq(|pieces|, i requires 0 <= i < |pieces| => TrimSpace(pieces[i]));
      Flagged(entries + trimmed, None)
    else
      Flagged(entries + [value], None)
  }

  /** `arrayFlags.String`: the entries joined with ", ". */
  function String(entries: seq<string>): string {
    Join(entries, ", ")
  }

  /** Joining with ", " is joining with "," after prefixing every entry but
      the first with a space. */
  lemma {:induction false} JoinCommaSpace(xs: seq<string>)
    requires |xs| >= 1
    ensures Join(xs, ", ") == Join([xs[0]] + Spaced(xs[1..]), ",")
    decreases |xs|
  {
    if |xs| > 1 {
      JoinCommaSpace(xs[1..]);
      var ys := [xs[0]] + Spaced(xs[1..]);
      assert ys[1..] == [" " + xs[1]] + Spaced(xs[2..]);
      assert Join(ys[1..], ",") == " " + Join([xs[1]] + Spaced(xs[2..]), ",");
      assert xs[1..][1..] == xs[2..];
    }
  }

  function Spaced(xs: seq<string>): (r: seq<string>)
    ensures |r| == |xs|
    ensures forall i | 0 <= i < |xs| :: r[i] == " " + xs[i]
  {
    if xs == [] then [] else [" " + xs[0]] + Spaced(xs[1..])
  }

  lemma CommaInString(xs: seq<string>)
    requires |xs| > 1
    ensures ',' in String(xs)
  {
    assert String(xs) == xs[0] + ", " + Join(xs[1..], ", ");
    assert String(xs)[|xs[0]|] == ',';
  }

  /** The comma-separated pieces of `String(xs)` are the entries, all but
      the first behind the space of the ", " separator. */
  lemma SplitString(xs: seq<string>)
    requires |xs| >= 1
    requires forall i | 0 <= i < |xs| :: ',' !in xs[i]
    ensures Split(String(xs), ',') == [xs[0]] + Spaced(xs[1..])
  {
    var ys := [xs[0]] + Spaced(xs[1..]);
    JoinCommaSpace(xs);
    assert forall i | 0 <= i < |ys| :: ',' !in ys[i];
    SplitJoin(ys, ',');
  }

  /** Trimming those pieces gives back the entries. */
  lemma TrimSpaced(xs: seq<string>)
    requires |xs| >= 1
    requires forall i | 0 <= i < |xs| :: TrimSpace(xs[i]) == xs[i]
    ensures forall i | 0 <= i < |xs| :: TrimSpace(([xs[0]] + Spaced(xs[1..]))[i]) == xs[i]
  {
    forall i | 1 <= i < |xs| ensures TrimSpace(([xs[0]] + Spaced(xs[1..]))[i]) == xs[i] {
      TrimSpaceLeadingSpace(xs[i]);
    }
  }

  /** Feeding `String`'s output back to `Set` reproduces the entries, as long
      as there is at least one, none holds a comma and none has white space
      at its ends. */
  lemma StringSetRoundTrip(xs: seq<string>)
    requires |xs| >= 1
    requires forall i | 0 <= i < |xs| :: ',' !in xs[i] && TrimSpace(xs[i]) == xs[i]
    ensures Set([], String(xs)).entries == xs
  {
    var r := Set([], String(xs)).entries;
    if |xs| == 1 {
      assert String(xs) == xs[0];
      assert r == [] + [xs[0]];
      assert xs == [] + [xs[0]];
    } else {
      CommaInString(xs);
      SplitString(xs);
      TrimSpaced(xs);
      assert |r| == |xs|;
      assert forall i | 0 <= i < |xs| :: r[i] == xs[i];
    }
  }

  /** A value made of two or more comma-free pieces joined by commas is
      split back into those pieces, each trimmed. */
  lemma SetJoined(ps: seq<string>)
    requires |ps| >= 2
    requires forall i | 0 <= i < |ps| :: ',' !in ps[i]
    ensures |Set([], Join(ps, [','])).entries| == |ps|
    ensures forall i | 0 <= i < |ps| :: Set([], Join(ps, [','])).entries[i] == TrimSpace(ps[i])
  {
    var v := Join(ps, [',']);
    SplitJoin(ps, ',');
    assert v == ps[0] + [','] + Join(ps[1..], [',']);
    assert v[|ps[0]|] == ',';
  }

  /** Two commas in a row leave an empty entry between the pieces around
      them, as in "a,,b". */
  lemma SetKeepsEmptyPiece(a: string, b: string)
    requires ',' !in a && ',' !in b
    requires TrimSpace(a) == a && TrimSpace(b) == b
    ensures Set([], a + ",," + b).entries == [a, "", b]
  {
    var ps := [a, "", b];
    assert ps[1..] == ["", b] && ps[1..][1..] == [b];
    assert Join(ps[1..], [',']) == [','] + b;
    assert Join(ps, [',']) == a + ",," + b;
    SetJoined(ps);
    TrimSpaceKeeps("");
  }
}
