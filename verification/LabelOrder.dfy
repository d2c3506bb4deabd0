/** The ordering of labels the core relies on: lexicographic comparison of
    strings by character code (how the host language compares strings), the
    sorted endpoint pair used as a direction-free edge key, and the
    ascending-label sort of an edge list. */
module LabelOrder {
  import opened GraphModel

  /** `a` sorts before or equal to `b`: a prefix sorts first, otherwise the
      first differing character decides. */
  predicate LexLe(a: string, b: string)
    decreases |a|
  {
    a == [] || (b != [] && (a[0] < b[0] || (a[0] == b[0] && LexLe(a[1..], b[1..]))))
  }

  lemma {:induction false} LexLeTotal(a: string, b: string)
    ensures LexLe(a, b) || LexLe(b, a)
    decreases |a|
  {
    if a != [] && b != [] && a[0] == b[0] {
      LexLeTotal(a[1..], b[1..]);
    }
  }

  lemma {:induction false} LexLeAntisymmetric(a: string, b: string)
    requires LexLe(a, b) && LexLe(b, a)
    ensures a == b
    decreases |a|
  {
    if a != [] {
      LexLeAntisymmetric(a[1..], b[1..]);
      assert a == [a[0]] + a[1..] && b == [b[0]] + b[1..];
    }
  }

  lemma {:induction false} LexLeTransitive(a: string, b: string, c: string)
    requires LexLe(a, b) && LexLe(b, c)
    ensures LexLe(a, c)
    decreases |a|
  {
    if a != [] && a[0] == b[0] && b[0] == c[0] {
      LexLeTransitive(a[1..], b[1..], c[1..]);
    }
  }

  lemma {:induction false} LexLeReflexive(a: string)
    ensures LexLe(a, a)
    decreases |a|
  {
    if a != [] {
      LexLeReflexive(a[1..]);
    }
  }

  /** The two labels in ascending order. */
  function SortedPair(a: Label, b: Label): (Label, Label) {
    if LexLe(a, b) then (a, b) else (b, a)
  }

  /** The direction-free key of an edge: its endpoints, sorted. */
  function EdgeKey(e: Edge): (Label, Label) {
    SortedPair(e.v1, e.v2)
  }

  /** Two edges get the same key exactly when they join the same two
      endpoints, in either direction (two loops on one vertex included). */
  lemma EdgeKeyJoins(e: Edge, f: Edge)
    ensures EdgeKey(e) == EdgeKey(f) <==> Joins(f, e.v1, e.v2)
  {
    LexLeTotal(e.v1, e.v2);
    LexLeTotal(f.v1, f.v2);
    if LexLe(e.v1, e.v2) && LexLe(e.v2, e.v1) {
      LexLeAntisymmetric(e.v1, e.v2);
    }
    if LexLe(f.v1, f.v2) && LexLe(f.v2, f.v1) {
      LexLeAntisymmetric(f.v1, f.v2);
    }
  }

  predicate SortedByName(s: seq<Edge>) {
    forall i, j :: 0 <= i < j < |s| ==> LexLe(s[i].name, s[j].name)
  }

  /** A sorted list stays sorted under a new head that sorts before all of it. */
  lemma SortedCons(x: Edge, s: seq<Edge>)
    requires SortedByName(s)
    requires forall y :: y in s ==> LexLe(x.name, y.name)
    ensures SortedByName([x] + s)
  {
    var r := [x] + s;
    forall i, j | 0 <= i < j < |r| ensures LexLe(r[i].name, r[j].name) {
      assert r[j] == s[j - 1];
      if i > 0 {
        assert r[i] == s[i - 1];
      }
    }
  }

  /** In a sorted list the head sorts before every element. */
  lemma SortedHeadFirst(x: Edge, s: seq<Edge>)
    requires SortedByName(s) && s != [] && LexLe(x.name, s[0].name)
    ensures forall y :: y in s ==> LexLe(x.name, y.name)
  {
    forall y | y in s ensures LexLe(x.name, y.name) {
      var k :| 0 <= k < |s| && s[k] == y;
      if k > 0 {
        LexLeTransitive(x.name, s[0].name, y.name);
      }
    }
  }

  /** Inserts `e` before the first element whose label sorts after it. */
  function Insert(e: Edge, s: seq<Edge>): (r: seq<Edge>)
    requires SortedByName(s)
    ensures SortedByName(r)
    ensures multiset(r) == multiset(s) + multiset{e}
  {
    if s == [] then [e]
    else if LexLe(e.name, s[0].name) then
      SortedHeadFirst(e, s);
      SortedCons(e, s);
      [e] + s
    else
      var rest := Insert(e, s[1..]);
      assert s == [s[0]] + s[1..];
      LexLeTotal(e.name, s[0].name);
      LexLeReflexive(s[0].name);
      SortedHeadFirst(s[0], s);
      InsertBound(s[0], e, s[1..], rest);
      SortedCons(s[0], rest);
      [s[0]] + rest
  }

  lemma InsertBound(x: Edge, e: Edge, s: seq<Edge>, rest: seq<Edge>)
    requires multiset(rest) == multiset(s) + multiset{e}
    requires LexLe(x.name, e.name)
    requires forall y :: y in s ==> LexLe(x.name, y.name)
    ensures forall y :: y in rest ==> LexLe(x.name, y.name)
  {
    forall y | y in rest ensures LexLe(x.name, y.name) {
      assert y in multiset(rest);
      if y != e {
        assert y in multiset(s);
      }
    }
  }

  /** The edges in ascending label order: a permutation of the input that is
      sorted by label. */
  function SortByName(s: seq<Edge>): (r: seq<Edge>)
    ensures SortedByName(r)
    ensures multiset(r) == multiset(s)
  {
    if s == [] then []
    else
      assert s == [s[0]] + s[1..];
      Insert(s[0], SortByName(s[1..]))
  }
}
