/** The graph store as an immutable value: vertex labels and labelled edge
    records of an undirected multigraph (loops and parallel edges allowed),
    together with the incidence view every algorithm of the core is built on. */
module GraphModel {

  type Label = string

  /** An edge record: its label (the key of the edge store) and its two
      endpoint labels. */
  datatype Edge = Edge(name: Label, v1: Label, v2: Label)

  /** Vertices in insertion order and edges in store order. */
  datatype Graph = Graph(vertices: seq<Label>, edges: seq<Edge>)

  datatype Option<T> = None | Some(value: T)

  /** The invalid-vertex error raised by the degree and tree-building queries. */
  datatype Error = InvalidVertex(vertex: Label)

  datatype Result<T> = Ok(value: T) | Err(error: Error)

  predicate Distinct<T(==)>(s: seq<T>) {
    forall i, j :: 0 <= i < j < |s| ==> s[i] != s[j]
  }

  predicate DistinctLabels(es: seq<Edge>) {
    forall i, j :: 0 <= i < j < |es| ==> es[i].name != es[j].name
  }

  /** What the store guarantees of every graph it holds: unique vertex labels,
      unique edge labels (edges are kept in a map keyed by label) and edges
      whose endpoints are vertices of the graph. */
  ghost predicate WellFormed(g: Graph) {
    && Distinct(g.vertices)
    && DistinctLabels(g.edges)
    && forall e :: e in g.edges ==> e.v1 in g.vertices && e.v2 in g.vertices
  }

  predicate IsLoop(e: Edge) {
    e.v1 == e.v2
  }

  /** `e` is incident to `v`. */
  predicate Touches(e: Edge, v: Label) {
    e.v1 == v || e.v2 == v
  }

  /** The neighbour reached from `v` along `e`: the second endpoint when the
      first one is `v`, the first endpoint otherwise. Along a loop it is `v`. */
  function Other(e: Edge, v: Label): Label {
    if e.v1 == v then e.v2 else e.v1
  }

  /** `e` joins `x` and `z`, in either direction. */
  predicate Joins(e: Edge, x: Label, z: Label) {
    (e.v1 == x && e.v2 == z) || (e.v1 == z && e.v2 == x)
  }

  ghost predicate Adjacent(g: Graph, x: Label, z: Label) {
    exists e :: e in g.edges && Joins(e, x, z)
  }

  lemma OtherJoins(e: Edge, v: Label)
    requires Touches(e, v)
    ensures Joins(e, v, Other(e, v))
  {
  }

  lemma JoinsOther(e: Edge, x: Label, z: Label)
    requires Joins(e, x, z)
    ensures Touches(e, x) && Other(e, x) == z
    ensures Touches(e, z) && Other(e, z) == x
  {
  }

  /** A sequence without repeats has as many members as entries. */
  lemma {:induction false} DistinctSize<T>(s: seq<T>)
    requires Distinct(s)
    ensures |set x | x in s| == |s|
  {
    if s != [] {
      var p := s[..|s| - 1];
      DistinctSize(p);
      assert s == p + [s[|s| - 1]];
      assert (set x | x in s) == (set x | x in p) + {s[|s| - 1]};
    }
  }

  /** In a store with unique labels an edge record is determined by its label. */
  lemma SameLabelSameEdge(g: Graph, a: Edge, b: Edge)
    requires WellFormed(g)
    requires a in g.edges && b in g.edges && a.name == b.name
    ensures a == b
  {
    var i :| 0 <= i < |g.edges| && g.edges[i] == a;
    var j :| 0 <= j < |g.edges| && g.edges[j] == b;
  }

  lemma DistinctEdgesDistinctLabels(g: Graph, a: Edge, b: Edge)
    requires WellFormed(g)
    requires a in g.edges && b in g.edges && a != b
    ensures a.name != b.name
  {
    var i :| 0 <= i < |g.edges| && g.edges[i] == a;
    var j :| 0 <= j < |g.edges| && g.edges[j] == b;
    assert i != j;
  }

  /** The first position of `x` in `s`. */
  function IndexOf<T(==)>(s: seq<T>, x: T): (k: nat)
    requires x in s
    ensures k < |s| && s[k] == x && x !in s[..k]
  {
    if s[0] == x then 0
    else
      assert x in s[1..];
      var k := IndexOf(s[1..], x) + 1;
      assert s[..k] == [s[0]] + s[1..][..k - 1];
      k
  }

  lemma IndexOfDistinct<T>(s: seq<T>, k: nat)
    requires Distinct(s) && k < |s|
    ensures IndexOf(s, s[k]) == k
  {
    var m := IndexOf(s, s[k]);
    assert forall c :: 0 <= c < m ==> s[..m][c] == s[c];
  }

  /** A member found among the first `p` entries has its first index there. */
  lemma IndexBefore<T>(s: seq<T>, x: T, p: nat)
    requires p <= |s| && x in s[..p]
    ensures IndexOf(s, x) < p
  {
    var b :| 0 <= b < |s[..p]| && s[..p][b] == x;
    var k := IndexOf(s, x);
    assert forall c :: 0 <= c < k ==> s[..k][c] == s[c];
    assert s[b] == x;
  }

  /** In a repeat-free sequence, a member found from position `b` on has its
      index there. */
  lemma IndexFrom<T>(s: seq<T>, x: T, b: nat)
    requires Distinct(s) && b <= |s| && x in s[b..]
    ensures x in s && b <= IndexOf(s, x)
  {
    var a := PositionFrom(s, b, x);
    IndexOfDistinct(s, a);
  }

  /** A position of `x` from `b` on. */
  lemma PositionFrom<T>(s: seq<T>, b: nat, x: T) returns (a: nat)
    requires b <= |s| && x in s[b..]
    ensures b <= a < |s| && s[a] == x
  {
    var c :| 0 <= c < |s| - b && s[b..][c] == x;
    a := b + c;
  }

  /** A repeat-free sequence split at `b` shares no member between its parts. */
  lemma DistinctSplit<T>(s: seq<T>, b: nat, x: T)
    requires Distinct(s) && b <= |s|
    ensures x in s[..b] ==> x !in s[b..]
  {
    if x in s[..b] {
      var i :| 0 <= i < b && s[..b][i] == x;
      assert s[i] == x;
      forall j | 0 <= j < |s| - b ensures s[b..][j] != x {
        assert s[b..][j] == s[b + j];
      }
    }
  }

  /** Past a repeat-free sequence's head, positions shift by one. */
  lemma IndexOfTail<T>(s: seq<T>, x: T)
    requires Distinct(s) && |s| > 0 && x in s[1..]
    ensures IndexOf(s, x) == IndexOf(s[1..], x) + 1
  {
    var k :| 0 <= k < |s[1..]| && s[1..][k] == x;
    assert s[k + 1] == x;
  }

  /** `r` lists members of `s`, each later one further along `s`: a
      selection from `s` that keeps its order and repeats nothing. */
  predicate InOrder<T(==)>(r: seq<T>, s: seq<T>) {
    && (forall i :: 0 <= i < |r| ==> r[i] in s)
    && forall i, j :: 0 <= i < j < |r| ==> IndexOf(s, r[i]) < IndexOf(s, r[j])
  }

  lemma InOrderDistinct<T>(r: seq<T>, s: seq<T>)
    requires InOrder(r, s)
    ensures Distinct(r)
  {
  }

  /** Selections from the tail of a repeat-free sequence stay in order in
      the whole sequence, with or without its head in front. */
  lemma InOrderCons<T>(s: seq<T>, r: seq<T>)
    requires Distinct(s) && |s| > 0 && InOrder(r, s[1..])
    ensures InOrder(r, s)
    ensures InOrder([s[0]] + r, s)
  {
    forall i | 0 <= i < |r| ensures IndexOf(s, r[i]) == IndexOf(s[1..], r[i]) + 1 {
      IndexOfTail(s, r[i]);
    }
    var r' := [s[0]] + r;
    forall i, j | 0 <= i < j < |r'| ensures IndexOf(s, r'[i]) < IndexOf(s, r'[j]) {
      if i > 0 {
        assert r'[i] == r[i - 1] && r'[j] == r[j - 1];
      } else {
        assert r'[j] == r[j - 1];
      }
    }
  }

  /** The incident edges of `v` in store order; a loop appears once, as it
      appears once in the store. The code raises nothing for a label that is
      not a vertex: it gets no edges. */
  function IncidentEdges(g: Graph, v: Label): (r: seq<Edge>)
    ensures forall e :: e in r <==> e in g.edges && Touches(e, v)
    ensures forall e :: multiset(r)[e] == if Touches(e, v) then multiset(g.edges)[e] else 0
    ensures DistinctLabels(g.edges) ==> DistinctLabels(r)
    ensures DistinctLabels(g.edges) ==> InOrder(r, g.edges)
  {
    IncidentInCounts(g.edges, v);
    IncidentInDistinct(g.edges, v);
    IncidentInOrder(g.edges, v);
    IncidentIn(g.edges, v)
  }

  /** The filter behind `IncidentEdges`, one store position at a time. */
  function IncidentIn(es: seq<Edge>, v: Label): (r: seq<Edge>)
    ensures |r| <= |es|
    ensures forall e :: e in r <==> e in es && Touches(e, v)
  {
    if es == [] then []
    else if Touches(es[0], v) then [es[0]] + IncidentIn(es[1..], v)
    else IncidentIn(es[1..], v)
  }

  lemma {:induction false} IncidentInCounts(es: seq<Edge>, v: Label)
    ensures forall e :: multiset(IncidentIn(es, v))[e] == if Touches(e, v) then multiset(es)[e] else 0
  {
    if es != [] {
      IncidentInCounts(es[1..], v);
      assert es == [es[0]] + es[1..];
    }
  }

  lemma {:induction false} IncidentInDistinct(es: seq<Edge>, v: Label)
    ensures DistinctLabels(es) ==> DistinctLabels(IncidentIn(es, v))
  {
    if es != [] && DistinctLabels(es) {
      var rest := IncidentIn(es[1..], v);
      IncidentInDistinct(es[1..], v);
      if Touches(es[0], v) {
        var r := [es[0]] + rest;
        forall i, j | 0 <= i < j < |r| ensures r[i].name != r[j].name {
          if i == 0 {
            assert r[j] in es[1..];
            var k :| 0 <= k < |es[1..]| && es[1..][k] == r[j];
            assert es[k + 1] == r[j];
          }
        }
      }
    }
  }

  /** The incidence view is compatible with concatenation of stores, so it
      keeps the store order of the edges it selects. */
  lemma {:induction false} IncidentInAppend(a: seq<Edge>, b: seq<Edge>, v: Label)
    ensures IncidentIn(a + b, v) == IncidentIn(a, v) + IncidentIn(b, v)
  {
    if a == [] {
      assert a + b == b;
    } else {
      assert (a + b)[1..] == a[1..] + b;
      IncidentInAppend(a[1..], b, v);
    }
  }

  lemma LabelsDistinctEdges(es: seq<Edge>)
    requires DistinctLabels(es)
    ensures Distinct(es)
  {
  }

  /** The incidence view keeps the store order of the edges it selects. */
  lemma {:induction false} IncidentInOrder(es: seq<Edge>, v: Label)
    ensures DistinctLabels(es) ==> InOrder(IncidentIn(es, v), es)
  {
    if es != [] && DistinctLabels(es) {
      LabelsDistinctEdges(es);
      IncidentInOrder(es[1..], v);
      InOrderCons(es, IncidentIn(es[1..], v));
    }
  }
}
