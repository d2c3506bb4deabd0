/** The structural predicates: degree, loop presence, parallel-edge presence
    and the ordered pairs of distinct non-adjacent vertices. */
module Predicates {
  import opened GraphModel
  import opened LabelOrder

  // ---------------------------------------------------------------- degree

  /** What one edge adds to the degree of `v`: 2 for a loop at `v`, 1 when
      exactly one endpoint is `v`, 0 otherwise. */
  function Contribution(e: Edge, v: Label): nat {
    if v == e.v1 && v == e.v2 then 2
    else if v == e.v1 || v == e.v2 then 1
    else 0
  }

  /** The degree accumulated over the store, edge by edge in store order. */
  function DegreeIn(es: seq<Edge>, v: Label): nat {
    if es == [] then 0
    else DegreeIn(es[..|es| - 1], v) + Contribution(es[|es| - 1], v)
  }

  /** `e` is a loop at `v`. */
  predicate LoopAt(e: Edge, v: Label) {
    e.v1 == v && e.v2 == v
  }

  /** Exactly one endpoint of `e` is `v`. */
  predicate OneEnd(e: Edge, v: Label) {
    (e.v1 == v) != (e.v2 == v)
  }

  /** Store positions holding a loop at `v`. */
  ghost function LoopsAt(es: seq<Edge>, v: Label): set<nat> {
    set i: nat | i < |es| && LoopAt(es[i], v)
  }

  /** Store positions holding an edge with exactly one endpoint `v`. */
  ghost function SidesAt(es: seq<Edge>, v: Label): set<nat> {
    set i: nat | i < |es| && OneEnd(es[i], v)
  }

  lemma LoopsAtSnoc(es: seq<Edge>, v: Label)
    requires es != []
    ensures |LoopsAt(es, v)| == |LoopsAt(es[..|es| - 1], v)| + (if LoopAt(es[|es| - 1], v) then 1 else 0)
  {
    var p := es[..|es| - 1];
    assert forall i :: 0 <= i < |p| ==> p[i] == es[i];
    assert |p| !in LoopsAt(p, v);
    if LoopAt(es[|p|], v) {
      assert LoopsAt(es, v) == LoopsAt(p, v) + {|p|};
    } else {
      assert LoopsAt(es, v) == LoopsAt(p, v);
    }
  }

  lemma SidesAtSnoc(es: seq<Edge>, v: Label)
    requires es != []
    ensures |SidesAt(es, v)| == |SidesAt(es[..|es| - 1], v)| + (if OneEnd(es[|es| - 1], v) then 1 else 0)
  {
    var p := es[..|es| - 1];
    assert forall i :: 0 <= i < |p| ==> p[i] == es[i];
    assert |p| !in SidesAt(p, v);
    if OneEnd(es[|p|], v) {
      assert SidesAt(es, v) == SidesAt(p, v) + {|p|};
    } else {
      assert SidesAt(es, v) == SidesAt(p, v);
    }
  }

  lemma {:induction false} DegreeInCounts(es: seq<Edge>, v: Label)
    ensures DegreeIn(es, v) == |SidesAt(es, v)| + 2 * |LoopsAt(es, v)|
  {
    if es != [] {
      var p, last := es[..|es| - 1], es[|es| - 1];
      DegreeInCounts(p, v);
      LoopsAtSnoc(es, v);
      SidesAtSnoc(es, v);
      assert DegreeIn(es, v) == DegreeIn(p, v) + Contribution(last, v);
    }
  }

  /** The degree of `v`: the invalid-vertex error when `v` is not a vertex,
      otherwise the number of edges with exactly one endpoint `v` plus twice
      the number of loops at `v`. */
  function Degree(g: Graph, v: Label): (r: Result<nat>)
    ensures r.Err? <==> v !in g.vertices
    ensures r.Err? ==> r.error == InvalidVertex(v)
    ensures r.Ok? ==> r.value == |SidesAt(g.edges, v)| + 2 * |LoopsAt(g.edges, v)|
  {
    if v !in g.vertices then Err(InvalidVertex(v))
    else
      DegreeInCounts(g.edges, v);
      Ok(DegreeIn(g.edges, v))
  }

  /** A vertex no edge touches has degree 0. */
  lemma IsolatedDegree(g: Graph, v: Label)
    requires v in g.vertices
    requires forall e :: e in g.edges ==> !Touches(e, v)
    ensures Degree(g, v) == Ok(0)
  {
    assert SidesAt(g.edges, v) == {} by {
      forall i: nat | i < |g.edges| ensures i !in SidesAt(g.edges, v) {
        assert !Touches(g.edges[i], v);
      }
    }
    assert LoopsAt(g.edges, v) == {} by {
      forall i: nat | i < |g.edges| ensures i !in LoopsAt(g.edges, v) {
        assert !Touches(g.edges[i], v);
      }
    }
  }

  /** The sum of the degrees of the vertices listed in `vs`. */
  function SumOfDegrees(g: Graph, vs: seq<Label>): int
    requires forall v :: v in vs ==> v in g.vertices
  {
    if vs == [] then 0
    else SumOfDegrees(g, vs[..|vs| - 1]) + Degree(g, vs[|vs| - 1]).value
  }

  /** What one edge adds to the degrees of the vertices in `vs`. */
  function ShareOf(e: Edge, vs: seq<Label>): nat {
    if vs == [] then 0 else ShareOf(e, vs[..|vs| - 1]) + Contribution(e, vs[|vs| - 1])
  }

  function DegreeSum(es: seq<Edge>, vs: seq<Label>): nat {
    if vs == [] then 0 else DegreeSum(es, vs[..|vs| - 1]) + DegreeIn(es, vs[|vs| - 1])
  }

  lemma {:induction false} ShareOfCount(e: Edge, vs: seq<Label>)
    requires Distinct(vs)
    ensures ShareOf(e, vs) == (if e.v1 in vs then 1 else 0) + (if e.v2 in vs then 1 else 0)
  {
    if vs != [] {
      var p := vs[..|vs| - 1];
      ShareOfCount(e, p);
      assert vs == p + [vs[|vs| - 1]];
      assert vs[|vs| - 1] !in p;
    }
  }

  lemma {:induction false} DegreeSumSnoc(es: seq<Edge>, e: Edge, vs: seq<Label>)
    ensures DegreeSum(es + [e], vs) == DegreeSum(es, vs) + ShareOf(e, vs)
  {
    assert (es + [e])[..|es|] == es;
    if vs != [] {
      DegreeSumSnoc(es, e, vs[..|vs| - 1]);
    }
  }

  lemma {:induction false} DegreeSumEdges(es: seq<Edge>, vs: seq<Label>)
    requires Distinct(vs)
    requires forall e :: e in es ==> e.v1 in vs && e.v2 in vs
    ensures DegreeSum(es, vs) == 2 * |es|
  {
    if es == [] {
      DegreeSumNoEdges(vs);
    } else {
      var p := es[..|es| - 1];
      var e := es[|es| - 1];
      assert es == p + [e];
      DegreeSumEdges(p, vs);
      DegreeSumSnoc(p, e, vs);
      ShareOfCount(e, vs);
    }
  }

  lemma {:induction false} DegreeSumNoEdges(vs: seq<Label>)
    ensures DegreeSum([], vs) == 0
  {
    if vs != [] {
      DegreeSumNoEdges(vs[..|vs| - 1]);
    }
  }

  lemma {:induction false} SumOfDegreesIsDegreeSum(g: Graph, vs: seq<Label>)
    requires forall v :: v in vs ==> v in g.vertices
    ensures SumOfDegrees(g, vs) == DegreeSum(g.edges, vs)
  {
    if vs != [] {
      SumOfDegreesIsDegreeSum(g, vs[..|vs| - 1]);
    }
  }

  /** Handshake: every edge adds 2 to the degree sum, a loop to its single
      vertex, any other edge 1 to each endpoint. */
  lemma Handshake(g: Graph)
    requires WellFormed(g)
    ensures SumOfDegrees(g, g.vertices) == 2 * |g.edges|
  {
    SumOfDegreesIsDegreeSum(g, g.vertices);
    DegreeSumEdges(g.edges, g.vertices);
  }

  /** Without loops, the degree of `v` is the number of its incident edges. */
  lemma {:induction false} IncidentCountIsDegree(es: seq<Edge>, v: Label)
    requires forall e :: e in es ==> !IsLoop(e)
    ensures |IncidentIn(es, v)| == DegreeIn(es, v)
  {
    if es != [] {
      var p, last := es[..|es| - 1], es[|es| - 1];
      assert es == p + [last];
      IncidentInAppend(p, [last], v);
      assert forall e :: e in p ==> e in es;
      IncidentCountIsDegree(p, v);
      assert !IsLoop(last);
      assert [last][1..] == [];
      assert |IncidentIn([last], v)| == Contribution(last, v);
      assert DegreeIn(es, v) == DegreeIn(p, v) + Contribution(last, v);
    }
  }

  lemma LooplessDegree(g: Graph, v: Label)
    requires v in g.vertices && forall e :: e in g.edges ==> !IsLoop(e)
    ensures Degree(g, v) == Ok(|IncidentEdges(g, v)|)
  {
    IncidentCountIsDegree(g.edges, v);
  }

  // ---------------------------------------------------------------- loops

  /** Scans the store in order and stops at the first loop. */
  function LoopIn(es: seq<Edge>): (r: bool)
    ensures r <==> exists i :: 0 <= i < |es| && IsLoop(es[i])
  {
    if es == [] then false
    else if IsLoop(es[0]) then true
    else
      var r := LoopIn(es[1..]);
      assert r ==> exists i :: 0 <= i < |es| && IsLoop(es[i]) by {
        if r {
          var i :| 0 <= i < |es[1..]| && IsLoop(es[1..][i]);
          assert IsLoop(es[i + 1]);
        }
      }
      assert (exists i :: 0 <= i < |es| && IsLoop(es[i])) ==> r by {
        if exists i :: 0 <= i < |es| && IsLoop(es[i]) {
          var i :| 0 <= i < |es| && IsLoop(es[i]);
          assert es[1..][i - 1] == es[i];
        }
      }
      r
  }

  /** There is a loop iff some edge has equal endpoints; none without edges. */
  function HasLoop(g: Graph): (r: bool)
    ensures r <==> exists i :: 0 <= i < |g.edges| && g.edges[i].v1 == g.edges[i].v2
    ensures g.edges == [] ==> !r
  {
    LoopIn(g.edges)
  }

  // ---------------------------------------------------------- parallel edges

  /** `e` and `f` join the same two endpoints, in either direction. */
  predicate Parallel(e: Edge, f: Edge) {
    Joins(f, e.v1, e.v2)
  }

  /** Scans the store in order, keeping the sorted endpoint pairs seen so
      far, and stops at the first pair seen twice. */
  function ParallelIn(es: seq<Edge>, seen: set<(Label, Label)>): (r: bool)
    ensures r <==>
      || (exists i :: 0 <= i < |es| && EdgeKey(es[i]) in seen)
      || (exists i, j :: 0 <= i < j < |es| && EdgeKey(es[i]) == EdgeKey(es[j]))
  {
    if es == [] then false
    else if EdgeKey(es[0]) in seen then true
    else
      var r := ParallelIn(es[1..], seen + {EdgeKey(es[0])});
      ParallelInStep(es, seen, r);
      r
  }

  lemma ParallelInStep(es: seq<Edge>, seen: set<(Label, Label)>, r: bool)
    requires es != [] && EdgeKey(es[0]) !in seen
    requires r <==>
      || (exists i :: 0 <= i < |es[1..]| && EdgeKey(es[1..][i]) in seen + {EdgeKey(es[0])})
      || (exists i, j :: 0 <= i < j < |es[1..]| && EdgeKey(es[1..][i]) == EdgeKey(es[1..][j]))
    ensures r <==>
      || (exists i :: 0 <= i < |es| && EdgeKey(es[i]) in seen)
      || (exists i, j :: 0 <= i < j < |es| && EdgeKey(es[i]) == EdgeKey(es[j]))
  {
    var t := es[1..];
    if r {
      if exists i :: 0 <= i < |t| && EdgeKey(t[i]) in seen + {EdgeKey(es[0])} {
        var i :| 0 <= i < |t| && EdgeKey(t[i]) in seen + {EdgeKey(es[0])};
        assert t[i] == es[i + 1];
        if EdgeKey(t[i]) !in seen {
          assert EdgeKey(es[0]) == EdgeKey(es[i + 1]);
        }
      } else {
        var i, j :| 0 <= i < j < |t| && EdgeKey(t[i]) == EdgeKey(t[j]);
        assert t[i] == es[i + 1] && t[j] == es[j + 1];
      }
    } else {
      forall i | 0 <= i < |es| ensures EdgeKey(es[i]) !in seen {
        if i > 0 {
          assert es[i] == t[i - 1];
        }
      }
      forall i, j | 0 <= i < j < |es| ensures EdgeKey(es[i]) != EdgeKey(es[j]) {
        assert es[j] == t[j - 1];
        if i > 0 {
          assert es[i] == t[i - 1];
        }
      }
    }
  }

  /** There are parallel edges iff two distinct store positions hold edges
      joining the same two endpoints, in either direction. */
  function HasParallel(g: Graph): (r: bool)
    ensures r <==> exists i, j :: 0 <= i < j < |g.edges| && Parallel(g.edges[i], g.edges[j])
  {
    var r := ParallelIn(g.edges, {});
    forall i, j | 0 <= i < j < |g.edges|
      ensures EdgeKey(g.edges[i]) == EdgeKey(g.edges[j]) <==> Parallel(g.edges[i], g.edges[j])
    {
      EdgeKeyJoins(g.edges[i], g.edges[j]);
    }
    r
  }

  /** With unique edge labels, parallel edges are two different records that
      join the same endpoints; so the answer depends only on which edges the
      store holds, not on their order. */
  lemma ParallelOrderFree(g: Graph, h: Graph)
    requires DistinctLabels(g.edges) && DistinctLabels(h.edges)
    requires multiset(g.edges) == multiset(h.edges)
    ensures HasParallel(g) == HasParallel(h)
  {
    ParallelByMembers(g);
    ParallelByMembers(h);
    assert forall e :: e in g.edges <==> e in h.edges by {
      forall e ensures e in g.edges <==> e in h.edges {
        assert e in g.edges <==> e in multiset(g.edges);
        assert e in h.edges <==> e in multiset(h.edges);
      }
    }
  }

  lemma ParallelByMembers(g: Graph)
    requires DistinctLabels(g.edges)
    ensures HasParallel(g) <==> exists e, f :: e in g.edges && f in g.edges && e != f && Parallel(e, f)
  {
    if exists e, f :: e in g.edges && f in g.edges && e != f && Parallel(e, f) {
      var e, f :| e in g.edges && f in g.edges && e != f && Parallel(e, f);
      ParallelPositions(g, e, f);
    }
    if HasParallel(g) {
      var i, j :| 0 <= i < j < |g.edges| && Parallel(g.edges[i], g.edges[j]);
      assert g.edges[i].name != g.edges[j].name;
    }
  }

  /** Two different parallel records sit at two store positions. */
  lemma ParallelPositions(g: Graph, e: Edge, f: Edge)
    requires e in g.edges && f in g.edges && e != f && Parallel(e, f)
    ensures exists i, j :: 0 <= i < j < |g.edges| && Parallel(g.edges[i], g.edges[j])
  {
    var i :| 0 <= i < |g.edges| && g.edges[i] == e;
    var j :| 0 <= j < |g.edges| && g.edges[j] == f;
    if j < i {
      assert Parallel(g.edges[j], g.edges[i]);
    } else {
      assert Parallel(g.edges[i], g.edges[j]);
    }
  }

  // ------------------------------------------------- non-adjacent vertices

  /** Every edge as two directed pairs, both orientations. */
  function DirectedPairs(es: seq<Edge>): (s: set<(Label, Label)>)
    ensures forall x, z :: (x, z) in s <==> exists e :: e in es && Joins(e, x, z)
  {
    if es == [] then {}
    else
      var rest := DirectedPairs(es[1..]);
      var s := {(es[0].v1, es[0].v2), (es[0].v2, es[0].v1)} + rest;
      assert forall x, z :: (x, z) in s <==> exists e :: e in es && Joins(e, x, z) by {
        forall x, z ensures (x, z) in s <==> exists e :: e in es && Joins(e, x, z) {
          if (x, z) in s && (x, z) !in rest {
            assert Joins(es[0], x, z);
          }
          if exists e :: e in es && Joins(e, x, z) {
            var e :| e in es && Joins(e, x, z);
            if e != es[0] {
              assert e in es[1..];
            }
          }
        }
      }
      s
  }

  /** The ordered pairs of distinct vertices that no edge joins, in either
      direction. */
  function NonAdjacentPairs(g: Graph): (r: set<(Label, Label)>)
    ensures forall x, z :: (x, z) in r <==>
      x in g.vertices && z in g.vertices && x != z && !Adjacent(g, x, z)
  {
    var existing := DirectedPairs(g.edges);
    set x, z | x in g.vertices && z in g.vertices && x != z && (x, z) !in existing :: (x, z)
  }

  /** Both orientations of a non-adjacent pair are reported. */
  lemma NonAdjacentSymmetric(g: Graph, x: Label, z: Label)
    ensures (x, z) in NonAdjacentPairs(g) <==> (z, x) in NonAdjacentPairs(g)
  {
    if Adjacent(g, x, z) {
      var e :| e in g.edges && Joins(e, x, z);
      assert Joins(e, z, x);
    }
    if Adjacent(g, z, x) {
      var e :| e in g.edges && Joins(e, z, x);
      assert Joins(e, x, z);
    }
  }

  /** In a complete graph every pair is adjacent, so nothing is reported. */
  lemma NonAdjacentComplete(g: Graph)
    requires forall x, z :: x in g.vertices && z in g.vertices && x != z ==> Adjacent(g, x, z)
    ensures NonAdjacentPairs(g) == {}
  {
    var r := NonAdjacentPairs(g);
    forall x, z ensures (x, z) !in r {
    }
  }

  ghost function OrderedPairs(vs: seq<Label>): set<(Label, Label)> {
    set x, z | x in vs && z in vs && x != z :: (x, z)
  }

  /** Pairs (v, z) for z in `vs`. */
  ghost function Row(v: Label, vs: seq<Label>): set<(Label, Label)> {
    set z | z in vs :: (v, z)
  }

  /** Pairs (x, v) for x in `vs`. */
  ghost function Column(v: Label, vs: seq<Label>): set<(Label, Label)> {
    set x | x in vs :: (x, v)
  }

  lemma {:induction false} RowColumnSize(v: Label, vs: seq<Label>)
    requires Distinct(vs)
    ensures |Row(v, vs)| == |vs| && |Column(v, vs)| == |vs|
  {
    if vs != [] {
      var p := vs[..|vs| - 1];
      var z := vs[|vs| - 1];
      assert vs == p + [z];
      RowColumnSize(v, p);
      assert z !in p;
      assert Row(v, vs) == Row(v, p) + {(v, z)};
      assert Column(v, vs) == Column(v, p) + {(z, v)};
    }
  }

  lemma OrderedPairsSnoc(p: seq<Label>, v: Label)
    requires v !in p
    ensures OrderedPairs(p + [v]) == OrderedPairs(p) + Row(v, p) + Column(v, p)
    ensures OrderedPairs(p) !! Row(v, p) && OrderedPairs(p) !! Column(v, p) && Row(v, p) !! Column(v, p)
  {
    var vs := p + [v];
    forall q | q in OrderedPairs(vs) ensures q in OrderedPairs(p) + Row(v, p) + Column(v, p) {
      var (x, z) := q;
      assert x in vs && z in vs && x != z;
    }
  }

  lemma SquareStep(n: nat)
    ensures n * (n - 1) + n + n == (n + 1) * n
  {
  }

  lemma {:induction false} OrderedPairsSize(vs: seq<Label>)
    requires Distinct(vs)
    ensures |OrderedPairs(vs)| == |vs| * (|vs| - 1)
  {
    if vs != [] {
      var p := vs[..|vs| - 1];
      var v := vs[|vs| - 1];
      var n := |p|;
      assert vs == p + [v];
      assert v !in p;
      OrderedPairsSize(p);
      RowColumnSize(v, p);
      OrderedPairsSnoc(p, v);
      var a, b, c := OrderedPairs(p), Row(v, p), Column(v, p);
      assert |a + b| == |a| + |b|;
      assert |a + b + c| == |a + b| + |c|;
      SquareStep(n);
    }
  }

  /** Without edges every ordered pair of distinct vertices is reported:
      N * (N - 1) of them for N vertices. */
  lemma NonAdjacentEdgeless(g: Graph)
    requires Distinct(g.vertices) && g.edges == []
    ensures |NonAdjacentPairs(g)| == |g.vertices| * (|g.vertices| - 1)
  {
    assert NonAdjacentPairs(g) == OrderedPairs(g.vertices);
    OrderedPairsSize(g.vertices);
  }

  /** The store with its loops removed, order kept. */
  function WithoutLoops(es: seq<Edge>): (r: seq<Edge>)
    ensures forall e :: e in r <==> e in es && !IsLoop(e)
  {
    if es == [] then []
    else if IsLoop(es[0]) then WithoutLoops(es[1..])
    else [es[0]] + WithoutLoops(es[1..])
  }

  /** Loops never change the non-adjacent pairs. */
  lemma NonAdjacentIgnoresLoops(g: Graph)
    ensures NonAdjacentPairs(g) == NonAdjacentPairs(Graph(g.vertices, WithoutLoops(g.edges)))
  {
    var h := Graph(g.vertices, WithoutLoops(g.edges));
    forall x, z | x != z ensures Adjacent(g, x, z) <==> Adjacent(h, x, z) {
      if Adjacent(g, x, z) {
        var e :| e in g.edges && Joins(e, x, z);
        assert e in h.edges;
      }
    }
    forall p | p in NonAdjacentPairs(g) ensures p in NonAdjacentPairs(h) {
      assert (p.0, p.1) in NonAdjacentPairs(g);
    }
    forall p | p in NonAdjacentPairs(h) ensures p in NonAdjacentPairs(g) {
      assert (p.0, p.1) in NonAdjacentPairs(h);
    }
  }

  // ------------------------------------------ the "X-Z" string encoding

  /** The string the code builds for the ordered pair (x, z). */
  function Encode(x: Label, z: Label): string {
    x + "-" + z
  }

  /** The encoded endpoint pairs the code records for the edges, both
      orientations. */
  function EncodedEdges(es: seq<Edge>): set<string> {
    (set e | e in es :: Encode(e.v1, e.v2)) + (set e | e in es :: Encode(e.v2, e.v1))
  }

  /** `vertices_nao_adjacentes` as written: the encoded pairs of distinct
      vertices whose encoding is not among the encoded edges. */
  function NonAdjacentAsWritten(g: Graph): set<string> {
    var existing := EncodedEdges(g.edges);
    set x, z | x in g.vertices && z in g.vertices && x != z && Encode(x, z) !in existing :: Encode(x, z)
  }

  /** A label containing the separator makes two different pairs share one
      encoding: the vertices "a" and "b-c" are not adjacent, yet their pair
      is dropped because the edge between "a-b" and "c" encodes to the same
      string "a-b-c". */
  lemma EncodingCollision()
    ensures var g := Graph(["a-b", "c", "a", "b-c"], [Edge("e", "a-b", "c")]);
      && WellFormed(g)
      && ("a", "b-c") in NonAdjacentPairs(g)
      && Encode("a", "b-c") !in NonAdjacentAsWritten(g)
  {
    var g := Graph(["a-b", "c", "a", "b-c"], [Edge("e", "a-b", "c")]);
    var e := g.edges[0];
    assert Encode("a", "b-c") == Encode(e.v1, e.v2);
    assert Encode(e.v1, e.v2) in EncodedEdges(g.edges);
    assert !Joins(e, "a", "b-c") by {
      assert e.v1 != "a" && e.v2 != "a";
    }
    assert !Adjacent(g, "a", "b-c");
    assert Distinct(g.vertices) by {
      assert g.vertices[0] != g.vertices[1] && g.vertices[0] != g.vertices[2] && g.vertices[0] != g.vertices[3];
      assert g.vertices[1] != g.vertices[2] && g.vertices[1] != g.vertices[3] && g.vertices[2] != g.vertices[3];
    }
  }

  /** No vertex label contains the separator. */
  predicate NoSeparator(g: Graph) {
    forall x :: x in g.vertices ==> '-' !in x
  }

  /** Without the separator in `x`, the first separator of the encoding sits
      right after `x`. */
  lemma FirstSeparator(x: Label, z: Label)
    requires '-' !in x
    ensures Encode(x, z)[|x|] == '-'
    ensures forall i :: 0 <= i < |x| ==> Encode(x, z)[i] != '-'
  {
    forall i | 0 <= i < |x| ensures Encode(x, z)[i] != '-' {
      assert Encode(x, z)[i] == x[i];
    }
  }

  /** Without the separator in the first label, the encoding is one-to-one. */
  lemma EncodeInjective(x: Label, z: Label, x': Label, z': Label)
    requires '-' !in x && '-' !in x' && Encode(x, z) == Encode(x', z')
    ensures x == x' && z == z'
  {
    var s := Encode(x, z);
    FirstSeparator(x, z);
    FirstSeparator(x', z');
    assert |x| == |x'|;
    assert x == s[..|x|] == x';
    assert z == s[|x| + 1..] == z';
  }

  /** For two vertices without the separator, the encoded pair is among the
      encoded edges exactly when an edge joins them. */
  lemma EncodedIffAdjacent(g: Graph, x: Label, z: Label)
    requires WellFormed(g) && NoSeparator(g) && x in g.vertices
    ensures Encode(x, z) in EncodedEdges(g.edges) <==> Adjacent(g, x, z)
  {
    if Encode(x, z) in EncodedEdges(g.edges) {
      var e :| e in g.edges && (Encode(x, z) == Encode(e.v1, e.v2) || Encode(x, z) == Encode(e.v2, e.v1));
      if Encode(x, z) == Encode(e.v1, e.v2) {
        EncodeInjective(x, z, e.v1, e.v2);
      } else {
        EncodeInjective(x, z, e.v2, e.v1);
      }
      assert Joins(e, x, z);
    }
    if Adjacent(g, x, z) {
      var e :| e in g.edges && Joins(e, x, z);
      if e.v1 == x {
        assert Encode(x, z) == Encode(e.v1, e.v2);
      } else {
        assert Encode(x, z) == Encode(e.v2, e.v1);
      }
    }
  }

  /** When no label contains the separator, the code's answer is exactly the
      encoding of the non-adjacent pairs. */
  lemma AsWrittenAgrees(g: Graph)
    requires WellFormed(g) && NoSeparator(g)
    ensures NonAdjacentAsWritten(g) == set p | p in NonAdjacentPairs(g) :: Encode(p.0, p.1)
  {
    var a := NonAdjacentAsWritten(g);
    var b := set p | p in NonAdjacentPairs(g) :: Encode(p.0, p.1);
    forall s | s in a ensures s in b {
      var x, z :| x in g.vertices && z in g.vertices && x != z
        && Encode(x, z) !in EncodedEdges(g.edges) && s == Encode(x, z);
      EncodedIffAdjacent(g, x, z);
      assert (x, z) in NonAdjacentPairs(g);
    }
    forall s | s in b ensures s in a {
      var p :| p in NonAdjacentPairs(g) && s == Encode(p.0, p.1);
      assert (p.0, p.1) in NonAdjacentPairs(g);
      EncodedIffAdjacent(g, p.0, p.1);
    }
  }
}
