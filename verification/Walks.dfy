/** Walks, reachability and forests: the reference notions the traversal
    engine is judged against. */
module Walks {
  import opened GraphModel

  /** A non-empty vertex sequence whose consecutive members are adjacent. */
  ghost predicate IsWalk(g: Graph, p: seq<Label>) {
    |p| > 0 && forall i :: 0 <= i < |p| - 1 ==> Adjacent(g, p[i], p[i + 1])
  }

  ghost predicate Reachable(g: Graph, s: Label, t: Label) {
    exists p :: IsWalk(g, p) && p[0] == s && p[|p| - 1] == t
  }

  lemma AdjacentSymmetric(g: Graph, x: Label, z: Label)
    requires Adjacent(g, x, z)
    ensures Adjacent(g, z, x)
  {
    var e :| e in g.edges && Joins(e, x, z);
    assert Joins(e, z, x);
  }

  lemma ReachableRefl(g: Graph, s: Label)
    ensures Reachable(g, s, s)
  {
    assert IsWalk(g, [s]);
  }

  lemma ReachableStep(g: Graph, s: Label, x: Label, y: Label)
    requires Reachable(g, s, x) && Adjacent(g, x, y)
    ensures Reachable(g, s, y)
  {
    var p :| IsWalk(g, p) && p[0] == s && p[|p| - 1] == x;
    var q := p + [y];
    forall i | 0 <= i < |q| - 1 ensures Adjacent(g, q[i], q[i + 1]) {
      if i < |p| - 1 {
        assert q[i] == p[i] && q[i + 1] == p[i + 1];
      }
    }
    assert IsWalk(g, q) && q[0] == s && q[|q| - 1] == y;
  }

  function Reverse(p: seq<Label>): (r: seq<Label>)
    ensures |r| == |p|
    ensures forall i :: 0 <= i < |p| ==> r[i] == p[|p| - 1 - i]
  {
    if p == [] then [] else Reverse(p[1..]) + [p[0]]
  }

  lemma ReachableSymmetric(g: Graph, s: Label, t: Label)
    requires Reachable(g, s, t)
    ensures Reachable(g, t, s)
  {
    var p :| IsWalk(g, p) && p[0] == s && p[|p| - 1] == t;
    var q := Reverse(p);
    forall i | 0 <= i < |q| - 1 ensures Adjacent(g, q[i], q[i + 1]) {
      var k := |p| - 2 - i;
      assert q[i] == p[k + 1] && q[i + 1] == p[k];
      AdjacentSymmetric(g, p[k], p[k + 1]);
    }
    assert IsWalk(g, q) && q[0] == t && q[|q| - 1] == s;
  }

  lemma ReachableTransitive(g: Graph, a: Label, b: Label, c: Label)
    requires Reachable(g, a, b) && Reachable(g, b, c)
    ensures Reachable(g, a, c)
  {
    var p :| IsWalk(g, p) && p[0] == a && p[|p| - 1] == b;
    var q :| IsWalk(g, q) && q[0] == b && q[|q| - 1] == c;
    var w := p + q[1..];
    forall i | 0 <= i < |w| - 1 ensures Adjacent(g, w[i], w[i + 1]) {
      if i < |p| - 1 {
        assert w[i] == p[i] && w[i + 1] == p[i + 1];
      } else {
        var k := i - |p| + 1;
        assert w[i] == q[k] && w[i + 1] == q[k + 1];
      }
    }
    assert IsWalk(g, w) && w[0] == a && w[|w| - 1] == c;
  }

  /** Every neighbour of a member of `s` is a member. */
  ghost predicate ClosedSet(g: Graph, s: set<Label>) {
    forall x, e :: x in s && e in g.edges && Touches(e, x) ==> Other(e, x) in s
  }

  lemma {:induction false} ClosedWalk(g: Graph, s: set<Label>, p: seq<Label>, k: nat)
    requires ClosedSet(g, s) && IsWalk(g, p) && p[0] in s && k < |p|
    ensures p[k] in s
  {
    if k > 0 {
      ClosedWalk(g, s, p, k - 1);
      assert Adjacent(g, p[k - 1], p[k]);
      var e :| e in g.edges && Joins(e, p[k - 1], p[k]);
      JoinsOther(e, p[k - 1], p[k]);
    }
  }

  /** A set closed under adjacency holds everything reachable from its members. */
  lemma ClosedReach(g: Graph, s: set<Label>, a: Label, b: Label)
    requires ClosedSet(g, s) && a in s && Reachable(g, a, b)
    ensures b in s
  {
    var p :| IsWalk(g, p) && p[0] == a && p[|p| - 1] == b;
    ClosedWalk(g, s, p, |p| - 1);
  }

  /** The graph with the edge at store position `i` removed. */
  function WithoutEdge(g: Graph, i: nat): (h: Graph)
    requires i < |g.edges|
    ensures h.vertices == g.vertices
    ensures forall e :: e in h.edges <==> exists j :: 0 <= j < |g.edges| && j != i && g.edges[j] == e
  {
    var h := Graph(g.vertices, g.edges[..i] + g.edges[i + 1..]);
    assert forall e :: e in h.edges <==> exists j :: 0 <= j < |g.edges| && j != i && g.edges[j] == e by {
      forall e ensures e in h.edges <==> exists j :: 0 <= j < |g.edges| && j != i && g.edges[j] == e {
        if e in h.edges {
          var k :| 0 <= k < |h.edges| && h.edges[k] == e;
          if k < i {
            assert g.edges[k] == e;
          } else {
            assert g.edges[k + 1] == e;
          }
        }
        if exists j :: 0 <= j < |g.edges| && j != i && g.edges[j] == e {
          var j :| 0 <= j < |g.edges| && j != i && g.edges[j] == e;
          if j < i {
            assert h.edges[j] == e;
          } else {
            assert h.edges[j - 1] == e;
          }
        }
      }
    }
    h
  }

  /** The edge at store position `i` lies on a cycle: its endpoints stay
      connected once it is removed. A loop always does, and so does each of a
      pair of parallel edges. */
  ghost predicate OnCycle(g: Graph, i: nat)
    requires i < |g.edges|
  {
    Reachable(WithoutEdge(g, i), g.edges[i].v1, g.edges[i].v2)
  }

  /** A forest: no edge lies on a cycle, so every edge is a bridge. */
  ghost predicate IsForest(g: Graph) {
    forall i :: 0 <= i < |g.edges| ==> !OnCycle(g, i)
  }

  /** Any loop rules out a forest. */
  lemma LoopNotForest(g: Graph, i: nat)
    requires i < |g.edges| && IsLoop(g.edges[i])
    ensures OnCycle(g, i) && !IsForest(g)
  {
    ReachableRefl(WithoutEdge(g, i), g.edges[i].v1);
    assert OnCycle(g, i);
  }

  /** Any pair of parallel edges rules out a forest. */
  lemma ParallelNotForest(g: Graph, i: nat, j: nat)
    requires i < |g.edges| && j < |g.edges| && i != j
    requires Joins(g.edges[j], g.edges[i].v1, g.edges[i].v2)
    ensures OnCycle(g, i) && !IsForest(g)
  {
    var h := WithoutEdge(g, i);
    var e := g.edges[i];
    assert g.edges[j] in h.edges;
    assert Adjacent(h, e.v1, e.v2);
    ReachableRefl(h, e.v1);
    ReachableStep(h, e.v1, e.v1, e.v2);
    assert OnCycle(g, i);
  }
}
