/** The state every depth-first traversal of the core grows, and what it
    proves about the graph once it is complete. */
module Forests {
  import opened GraphModel
  import opened Walks

  /** The vertices in the order they were first visited and, for each, the
      tree edge it was reached along, oriented from the vertex it was reached
      from; `None` marks a vertex where a traversal started. The `dfs` output
      graph is exactly this: those vertices and those edges, in that order. */
  datatype Forest = Forest(order: seq<Label>, links: seq<Option<Edge>>)

  /** The shape of a forest under construction, independent of any graph:
      one link per vertex, each tree edge leading from an earlier vertex to
      the vertex it introduces. */
  ghost predicate Linked(f: Forest) {
    && |f.links| == |f.order|
    && Distinct(f.order)
    && forall j :: 0 <= j < |f.order| && f.links[j].Some? ==>
         f.links[j].value.v2 == f.order[j] && f.links[j].value.v1 in f.order[..j]
  }

  /** A tree edge copies an edge of `g`: same label, same two endpoints. */
  ghost predicate SourceEdge(g: Graph, t: Edge) {
    exists e :: e in g.edges && e.name == t.name && Joins(e, t.v1, t.v2)
  }

  /** A forest grown over `g`. */
  ghost predicate Shape(g: Graph, f: Forest) {
    && Linked(f)
    && (forall x :: x in f.order ==> x in g.vertices)
    && forall j :: 0 <= j < |f.order| && f.links[j].Some? ==> SourceEdge(g, f.links[j].value)
  }

  ghost predicate IsTreeName(f: Forest, n: Label) {
    exists j :: 0 <= j < |f.links| && f.links[j].Some? && f.links[j].value.name == n
  }

  /** From position `base` on, the forest is one tree rooted at `base`. */
  ghost predicate Rooted(f: Forest, base: nat) {
    && base < |f.order| && |f.links| == |f.order|
    && f.links[base].None?
    && forall j :: base < j < |f.order| ==> f.links[j].Some? && f.links[j].value.v1 in f.order[base..]
  }

  /** The tree edge into position `j` leaves from an earlier position. */
  lemma LinkFromEarlier(f: Forest, base: nat, j: nat) returns (k: nat)
    requires Linked(f) && Rooted(f, base) && base < j < |f.order|
    ensures base <= k < j && f.order[k] == f.links[j].value.v1
  {
    var x := f.links[j].value.v1;
    assert x in f.order[base..];
    IndexFrom(f.order, x, base);
    k := IndexOf(f.order, x);
    IndexBefore(f.order, x, j);
  }

  /** Every vertex of a rooted tree is reachable from its root in any graph
      that has its tree edges. */
  lemma {:induction false} RootedReach(f: Forest, base: nat, h: Graph, j: nat)
    requires Linked(f) && Rooted(f, base) && base <= j < |f.order|
    requires forall k :: base < k < |f.order| ==> Adjacent(h, f.links[k].value.v1, f.order[k])
    ensures Reachable(h, f.order[base], f.order[j])
    decreases j
  {
    if j == base {
      ReachableRefl(h, f.order[base]);
    } else {
      var k := LinkFromEarlier(f, base, j);
      RootedReach(f, base, h, k);
      ReachableStep(h, f.order[base], f.order[k], f.order[j]);
    }
  }

  /** Every tree edge is an edge of the graph. */
  lemma TreeEdgesAdjacent(g: Graph, f: Forest, base: nat)
    requires Shape(g, f) && Rooted(f, base)
    ensures forall k :: base < k < |f.order| ==> Adjacent(g, f.links[k].value.v1, f.order[k])
  {
    forall k | base < k < |f.order| ensures Adjacent(g, f.links[k].value.v1, f.order[k]) {
      var t := f.links[k].value;
      var e :| e in g.edges && e.name == t.name && Joins(e, t.v1, t.v2);
    }
  }

  /** Every vertex of a tree rooted at the first position is reachable
      from its root. */
  lemma VisitedAreReachable(g: Graph, f: Forest, root: Label)
    requires Shape(g, f) && Rooted(f, 0) && f.order[0] == root
    ensures forall x :: x in f.order ==> x in g.vertices && Reachable(g, root, x)
  {
    TreeEdgesAdjacent(g, f, 0);
    forall x | x in f.order ensures Reachable(g, root, x) {
      var j :| 0 <= j < |f.order| && f.order[j] == x;
      RootedReach(f, 0, g, j);
    }
  }

  /** When every neighbour of a recorded vertex is recorded, so is every
      vertex reachable from a recorded one. */
  lemma ReachableAreRecorded(g: Graph, f: Forest, root: Label)
    requires root in f.order
    requires forall k, e :: 0 <= k < |f.order| && e in g.edges && Touches(e, f.order[k]) ==>
      Other(e, f.order[k]) in f.order
    ensures forall x :: Reachable(g, root, x) ==> x in f.order
  {
    var s := set x | x in f.order;
    assert ClosedSet(g, s) by {
      forall x, e | x in s && e in g.edges && Touches(e, x) ensures Other(e, x) in s {
        var k :| 0 <= k < |f.order| && f.order[k] == x;
      }
    }
    forall x | Reachable(g, root, x) ensures x in f.order {
      ClosedReach(g, s, root, x);
    }
  }

  // ------------------------------------------------------------ growing

  /** Records that `w` was first reached from `v` along `e`. */
  function Extend(f: Forest, v: Label, e: Edge, w: Label): Forest {
    Forest(f.order + [w], f.links + [Some(Edge(e.name, v, w))])
  }

  /** Starts a new tree at `r`. */
  function StartAt(f: Forest, r: Label): Forest {
    Forest(f.order + [r], f.links + [None])
  }

  /** One forest continues another: it only appended vertices and links. */
  ghost predicate Grows(f: Forest, r: Forest) {
    f.order <= r.order && f.links <= r.links
  }

  lemma GrowsTransitive(a: Forest, b: Forest, c: Forest)
    requires Grows(a, b) && Grows(b, c)
    ensures Grows(a, c)
  {
  }

  /** Vertices of `g` the forest has not reached yet: the traversal measure. */
  ghost function Unvisited(g: Graph, f: Forest): set<Label> {
    set x | x in g.vertices && x !in f.order
  }

  lemma UnvisitedShrinks(g: Graph, f: Forest, r: Forest)
    requires Grows(f, r)
    ensures Unvisited(g, r) <= Unvisited(g, f)
    ensures |Unvisited(g, r)| <= |Unvisited(g, f)|
  {
    var a, b := Unvisited(g, r), Unvisited(g, f);
    assert b == a + (b - a);
  }

  lemma UnvisitedExtend(g: Graph, f: Forest, w: Label, r: Forest)
    requires w in g.vertices && w !in f.order && r.order == f.order + [w]
    ensures |Unvisited(g, r)| < |Unvisited(g, f)|
  {
    assert Unvisited(g, f) == Unvisited(g, r) + {w};
  }

  /** Extending by a neighbour not yet reached keeps the forest well shaped
      and the current tree rooted. */
  lemma ExtendShape(g: Graph, f: Forest, base: nat, v: Label, e: Edge)
    requires WellFormed(g) && Shape(g, f) && Rooted(f, base)
    requires e in g.edges && Touches(e, v) && v in f.order[base..] && Other(e, v) !in f.order
    ensures Shape(g, Extend(f, v, e, Other(e, v)))
    ensures Rooted(Extend(f, v, e, Other(e, v)), base)
    ensures Grows(f, Extend(f, v, e, Other(e, v)))
  {
    var w := Other(e, v);
    var r := Extend(f, v, e, w);
    OtherJoins(e, v);
    assert SourceEdge(g, Edge(e.name, v, w));
    ExtendLinked(f, base, v, e, w);
    forall j | 0 <= j < |r.order| && r.links[j].Some? ensures SourceEdge(g, r.links[j].value) {
      if j < |f.order| {
        assert r.links[j] == f.links[j];
      }
    }
  }

  /** The graph-independent half of `ExtendShape`. */
  lemma ExtendLinked(f: Forest, base: nat, v: Label, e: Edge, w: Label)
    requires Linked(f) && Rooted(f, base) && v in f.order[base..] && w !in f.order
    ensures Linked(Extend(f, v, e, w)) && Rooted(Extend(f, v, e, w), base)
  {
    var r := Extend(f, v, e, w);
    assert r.order[..|f.order|] == f.order;
    assert r.order[base..] == f.order[base..] + [w];
    forall j | 0 <= j < |r.order| && r.links[j].Some?
      ensures r.links[j].value.v2 == r.order[j] && r.links[j].value.v1 in r.order[..j]
    {
      if j < |f.order| {
        assert r.order[..j] == f.order[..j];
      }
    }
  }

  lemma StartShape(g: Graph, f: Forest, r: Label)
    requires Shape(g, f) && r in g.vertices && r !in f.order
    ensures Shape(g, StartAt(f, r)) && Rooted(StartAt(f, r), |f.order|)
    ensures Grows(f, StartAt(f, r))
  {
    var s := StartAt(f, r);
    forall j | 0 <= j < |s.order| && s.links[j].Some?
      ensures s.links[j].value.v2 == s.order[j] && s.links[j].value.v1 in s.order[..j]
    {
      assert s.order[..j] == f.order[..j];
    }
  }

  // ------------------------------------------------------------- bridges

  /** Position `p` lies in the subtree below position `j`. */
  ghost predicate InSub(f: Forest, j: nat, p: nat)
    requires Linked(f) && p < |f.order|
    decreases p
  {
    p == j ||
    (p > j && f.links[p].Some? && InSubFrom(f, j, p))
  }

  ghost predicate InSubFrom(f: Forest, j: nat, p: nat)
    requires Linked(f) && p < |f.order| && f.links[p].Some?
    decreases p, 0
  {
    var x := f.links[p].value.v1;
    IndexBefore(f.order, x, p);
    InSub(f, j, IndexOf(f.order, x))
  }

  /** Which side of the cut below position `j` the label `x` lies on. */
  ghost predicate Below(f: Forest, j: nat, x: Label)
    requires Linked(f)
  {
    x in f.order && InSub(f, j, IndexOf(f.order, x))
  }

  /** A tree edge other than the one into `j` never crosses the cut. */
  lemma LinkKeepsSide(f: Forest, j: nat, m: nat)
    requires Linked(f) && j < |f.order| && m < |f.order| && m != j && f.links[m].Some?
    ensures f.links[m].value.v1 in f.order
    ensures Below(f, j, f.order[m]) == Below(f, j, f.links[m].value.v1)
  {
    IndexOfDistinct(f.order, m);
    var x := f.links[m].value.v1;
    IndexBefore(f.order, x, m);
    var k := IndexOf(f.order, x);
    assert InSub(f, j, m) == (m > j && InSub(f, j, k));
  }

  /** An edge of `g` other than the tree edge into `j` never crosses the cut,
      when every edge of `g` is a tree edge. */
  lemma EdgeKeepsSide(g: Graph, f: Forest, j: nat, a: Edge, x: Label, y: Label)
    requires WellFormed(g) && Shape(g, f) && j < |f.order| && f.links[j].Some?
    requires a in g.edges && IsTreeName(f, a.name) && a.name != f.links[j].value.name && Joins(a, x, y)
    ensures Below(f, j, x) == Below(f, j, y)
  {
    var m :| 0 <= m < |f.links| && f.links[m].Some? && f.links[m].value.name == a.name;
    var t := f.links[m].value;
    var b :| b in g.edges && b.name == t.name && Joins(b, t.v1, t.v2);
    SameLabelSameEdge(g, a, b);
    assert t.v2 == f.order[m];
    LinkKeepsSide(f, j, m);
    var u, z := f.order[m], t.v1;
    assert Below(f, j, u) == Below(f, j, z);
    if x == z {
      assert y == u;
    } else {
      assert x == u && y == z;
    }
  }

  /** An edge left after removing the one at `i` has another label. */
  lemma RemainingEdge(g: Graph, i: nat, a: Edge)
    requires WellFormed(g) && i < |g.edges| && a in WithoutEdge(g, i).edges
    ensures a in g.edges && a.name != g.edges[i].name
  {
    var n :| 0 <= n < |g.edges| && n != i && g.edges[n] == a;
    if n < i {
      assert g.edges[n].name != g.edges[i].name;
    } else {
      assert g.edges[i].name != g.edges[n].name;
    }
  }

  /** A walk in `h`, a graph holding only edges of `g` other than the tree
      edge into `j`, stays on one side of the cut below `j`. */
  lemma {:induction false} WalkKeepsSide(g: Graph, f: Forest, h: Graph, j: nat, p: seq<Label>, k: nat)
    requires WellFormed(g) && Shape(g, f) && j < |f.order| && f.links[j].Some?
    requires forall e :: e in g.edges ==> IsTreeName(f, e.name)
    requires forall a :: a in h.edges ==> a in g.edges && a.name != f.links[j].value.name
    requires IsWalk(h, p) && k < |p|
    ensures Below(f, j, p[0]) == Below(f, j, p[k])
  {
    if k > 0 {
      WalkKeepsSide(g, f, h, j, p, k - 1);
      assert Adjacent(h, p[k - 1], p[k]);
      var a :| a in h.edges && Joins(a, p[k - 1], p[k]);
      assert IsTreeName(f, a.name);
      EdgeKeepsSide(g, f, j, a, p[k - 1], p[k]);
    }
  }

  /** The vertex at `j` lies below the cut, the vertex its tree edge leaves
      from does not. */
  lemma CutSides(f: Forest, j: nat)
    requires Linked(f) && j < |f.order| && f.links[j].Some?
    ensures Below(f, j, f.order[j])
    ensures !Below(f, j, f.links[j].value.v1)
  {
    IndexOfDistinct(f.order, j);
    IndexBefore(f.order, f.links[j].value.v1, j);
  }

  /** The tree edge carrying the label of the edge at position `i`. */
  lemma TreeEdgeOf(g: Graph, f: Forest, i: nat) returns (j: nat)
    requires WellFormed(g) && Shape(g, f) && i < |g.edges|
    requires IsTreeName(f, g.edges[i].name)
    ensures j < |f.order| && f.links[j].Some? && f.links[j].value.name == g.edges[i].name
    ensures Joins(g.edges[i], f.links[j].value.v1, f.order[j])
  {
    j :| 0 <= j < |f.links| && f.links[j].Some? && f.links[j].value.name == g.edges[i].name;
    var t := f.links[j].value;
    var b :| b in g.edges && b.name == t.name && Joins(b, t.v1, t.v2);
    SameLabelSameEdge(g, g.edges[i], b);
  }

  /** The edge at store position `i` is a bridge. */
  lemma EdgeIsBridge(g: Graph, f: Forest, i: nat)
    requires WellFormed(g) && Shape(g, f) && i < |g.edges|
    requires forall e :: e in g.edges ==> IsTreeName(f, e.name)
    ensures !Reachable(WithoutEdge(g, i), g.edges[i].v1, g.edges[i].v2)
  {
    var e := g.edges[i];
    var j := TreeEdgeOf(g, f, i);
    CutSides(f, j);
    var h := WithoutEdge(g, i);
    forall a | a in h.edges ensures a in g.edges && a.name != f.links[j].value.name {
      RemainingEdge(g, i, a);
    }
    if p :| IsWalk(h, p) && p[0] == e.v1 && p[|p| - 1] == e.v2 {
      WalkKeepsSide(g, f, h, j, p, |p| - 1);
    }
  }

  /** A forest grown over `g` whose tree edges account for every edge of `g`
      proves that `g` is a forest: removing the edge that introduced a vertex
      cuts that vertex's subtree off from the rest. */
  lemma SpanningForestIsForest(g: Graph, f: Forest)
    requires WellFormed(g) && Shape(g, f)
    requires forall e :: e in g.edges ==> IsTreeName(f, e.name)
    ensures IsForest(g)
  {
    forall i | 0 <= i < |g.edges| ensures !Reachable(WithoutEdge(g, i), g.edges[i].v1, g.edges[i].v2) {
      EdgeIsBridge(g, f, i);
    }
  }
}
