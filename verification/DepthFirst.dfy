/** `dfs`: the depth-first spanning tree of the component of a root, trying
    the incident edges of each vertex in ascending label order. */
module DepthFirst {
  import opened GraphModel
  import opened LabelOrder
  import opened Walks
  import opened Forests

  /** Visits `v`, already recorded in `f`: tries its incident edges in
      ascending label order. */
  function Visit(g: Graph, v: Label, f: Forest): (r: Forest)
    requires WellFormed(g)
    ensures Grows(f, r)
    decreases |Unvisited(g, f)|, 1
  {
    Explore(g, v, Candidates(g, v), f)
  }

  /** The incident edges of `v` in ascending label order. */
  function Candidates(g: Graph, v: Label): (r: seq<Edge>)
    ensures SortedByName(r)
    ensures multiset(r) == multiset(IncidentEdges(g, v))
    ensures forall e :: e in r <==> e in g.edges && Touches(e, v)
  {
    var r := SortByName(IncidentEdges(g, v));
    assert forall e :: e in r <==> e in multiset(r);
    r
  }

  /** Tries the edges `es` of `v` in turn; a neighbour not reached yet is
      recorded together with the edge, then visited at once. */
  function Explore(g: Graph, v: Label, es: seq<Edge>, f: Forest): (r: Forest)
    requires WellFormed(g)
    requires forall e :: e in es ==> e in g.edges
    ensures Grows(f, r)
    decreases |Unvisited(g, f)|, 0, |es|
  {
    if es == [] then f
    else
      var e := es[0];
      var w := Other(e, v);
      if w in f.order then Explore(g, v, es[1..], f)
      else
        var f1 := Extend(f, v, e, w);
        UnvisitedExtend(g, f, w, f1);
        var f2 := Visit(g, w, f1);
        UnvisitedShrinks(g, f1, f2);
        var r := Explore(g, v, es[1..], f2);
        GrowsTransitive(f1, f2, r);
        GrowsTransitive(f, f1, r);
        r
  }

  /** Every neighbour of a vertex recorded after position `from` is recorded. */
  ghost predicate ClosedFrom(g: Graph, r: Forest, from: nat) {
    forall k, e :: from <= k < |r.order| && e in g.edges && Touches(e, r.order[k]) ==>
      Other(e, r.order[k]) in r.order
  }

  lemma {:induction false} VisitSound(g: Graph, v: Label, f: Forest)
    requires WellFormed(g) && Shape(g, f) && Rooted(f, 0) && v in f.order
    ensures var r := Visit(g, v, f);
      && Shape(g, r) && Rooted(r, 0)
      && ClosedFrom(g, r, |f.order|)
      && forall e :: e in g.edges && Touches(e, v) ==> Other(e, v) in r.order
    decreases |Unvisited(g, f)|, 1
  {
    ExploreSound(g, v, Candidates(g, v), f);
  }

  lemma {:induction false} ExploreSound(g: Graph, v: Label, es: seq<Edge>, f: Forest)
    requires WellFormed(g) && Shape(g, f) && Rooted(f, 0) && v in f.order
    requires forall e :: e in es ==> e in g.edges && Touches(e, v)
    ensures var r := Explore(g, v, es, f);
      && Shape(g, r) && Rooted(r, 0)
      && ClosedFrom(g, r, |f.order|)
      && forall e :: e in es ==> Other(e, v) in r.order
    decreases |Unvisited(g, f)|, 0, |es|
  {
    if es != [] {
      var e := es[0];
      var w := Other(e, v);
      var r := Explore(g, v, es, f);
      if w in f.order {
        ExploreSound(g, v, es[1..], f);
        assert r == Explore(g, v, es[1..], f);
      } else {
        var f1 := Extend(f, v, e, w);
        ExtendShape(g, f, 0, v, e);
        UnvisitedExtend(g, f, w, f1);
        var f2 := Visit(g, w, f1);
        VisitSound(g, w, f1);
        UnvisitedShrinks(g, f1, f2);
        assert v in f2.order;
        ExploreSound(g, v, es[1..], f2);
        assert r == Explore(g, v, es[1..], f2);
        ClosedStep(g, f, f1, f2, r, w);
      }
    }
  }

  /** Closure below the recorded part composes across the visit of one child. */
  lemma ClosedStep(g: Graph, f: Forest, f1: Forest, f2: Forest, r: Forest, w: Label)
    requires Grows(f, f1) && Grows(f1, f2) && Grows(f2, r)
    requires f1.order == f.order + [w]
    requires forall e :: e in g.edges && Touches(e, w) ==> Other(e, w) in f2.order
    requires ClosedFrom(g, f2, |f1.order|) && ClosedFrom(g, r, |f2.order|)
    ensures ClosedFrom(g, r, |f.order|)
  {
    forall k, e | |f.order| <= k < |r.order| && e in g.edges && Touches(e, r.order[k])
      ensures Other(e, r.order[k]) in r.order
    {
      if k < |f2.order| {
        assert r.order[k] == f2.order[k];
        if k == |f.order| {
          assert f2.order[k] == f1.order[k] == w;
        }
        assert Other(e, r.order[k]) in f2.order;
      }
    }
  }

  /** The tree edges in the order they were added to the output graph. */
  function TreeEdges(links: seq<Option<Edge>>): seq<Edge> {
    if links == [] then []
    else (match links[0] case Some(e) => [e] case None => []) + TreeEdges(links[1..])
  }

  lemma {:induction false} TreeEdgesAllSome(links: seq<Option<Edge>>)
    requires forall k :: 0 <= k < |links| ==> links[k].Some?
    ensures |TreeEdges(links)| == |links|
    ensures forall k :: 0 <= k < |links| ==> TreeEdges(links)[k] == links[k].value
  {
    if links != [] {
      TreeEdgesAllSome(links[1..]);
    }
  }

  function Names(es: seq<Edge>): (r: seq<Label>)
    ensures |r| == |es| && forall k :: 0 <= k < |es| ==> r[k] == es[k].name
  {
    if es == [] then [] else [es[0].name] + Names(es[1..])
  }

  /** The vertices reachable from `root`. */
  ghost function ReachableSet(g: Graph, root: Label): set<Label> {
    set x | x in g.vertices && Reachable(g, root, x)
  }

  /** The output graph of a complete traversal from `root`. */
  function TreeOf(g: Graph, root: Label): Graph
    requires WellFormed(g)
  {
    var f := Visit(g, root, Forest([root], [None]));
    Graph(f.order, TreeEdges(f.links))
  }

  /** A tree built from `root`: its vertices, in visiting order, are exactly
      those reachable from `root`, and each edge, in insertion order, is an
      edge of `g` from an already visited vertex to the next new vertex. */
  ghost predicate SpanningTree(g: Graph, root: Label, t: Graph) {
    && |t.vertices| > 0 && t.vertices[0] == root
    && Distinct(t.vertices)
    && (forall x :: x in t.vertices <==> x in g.vertices && Reachable(g, root, x))
    && |t.edges| == |t.vertices| - 1
    && forall k :: 0 <= k < |t.edges| ==>
         && t.edges[k].v2 == t.vertices[k + 1]
         && t.edges[k].v1 in t.vertices[..k + 1]
         && SourceEdge(g, t.edges[k])
  }

  lemma TreeOfSound(g: Graph, root: Label)
    requires WellFormed(g) && root in g.vertices
    ensures SpanningTree(g, root, TreeOf(g, root))
  {
    var f0 := Forest([root], [None]);
    var f := Visit(g, root, f0);
    VisitSound(g, root, f0);
    TreeEdgesFollow(g, f);
    VisitedAreReachable(g, f, root);
    ReachableAreRecorded(g, f, root);
  }

  /** The tree edges of a single tree rooted at the first position, in
      order, each lead into the next vertex from an earlier one. */
  lemma TreeEdgesFollow(g: Graph, f: Forest)
    requires Shape(g, f) && Rooted(f, 0)
    ensures var t := TreeEdges(f.links);
      && |t| == |f.order| - 1
      && forall k :: 0 <= k < |t| ==>
           && t[k].v2 == f.order[k + 1]
           && t[k].v1 in f.order[..k + 1]
           && SourceEdge(g, t[k])
  {
    TreeEdgesAllSome(f.links[1..]);
    assert f.links == [None] + f.links[1..];
    var t := TreeEdges(f.links);
    assert t == TreeEdges(f.links[1..]);
    forall k | 0 <= k < |t|
      ensures t[k].v2 == f.order[k + 1] && t[k].v1 in f.order[..k + 1]
      ensures SourceEdge(g, t[k])
    {
      assert t[k] == f.links[k + 1].value;
    }
  }

  /** Two tree edges never carry the same label: both endpoints of the
      earlier one are recorded before the later one's new vertex. */
  lemma TreeNamePair(g: Graph, root: Label, t: Graph, k: nat, l: nat)
    requires WellFormed(g) && SpanningTree(g, root, t) && k < l < |t.edges|
    ensures t.edges[k].name != t.edges[l].name
  {
    var tk, tl := t.edges[k], t.edges[l];
    var a :| a in g.edges && a.name == tk.name && Joins(a, tk.v1, tk.v2);
    var b :| b in g.edges && b.name == tl.name && Joins(b, tl.v1, tl.v2);
    var newest := t.vertices[l + 1];
    assert t.vertices[k + 1] == t.vertices[..l + 1][k + 1];
    assert tk.v1 in t.vertices[..l + 1] by {
      assert t.vertices[..k + 1] <= t.vertices[..l + 1];
    }
    assert newest !in t.vertices[..l + 1];
    assert Touches(b, newest) && !Touches(a, newest);
    DistinctEdgesDistinctLabels(g, a, b);
  }

  lemma TreeNamesDistinct(g: Graph, root: Label, t: Graph)
    requires WellFormed(g) && SpanningTree(g, root, t)
    ensures Distinct(Names(t.edges))
  {
    var r := Names(t.edges);
    forall k, l | 0 <= k < l < |r| ensures r[k] != r[l] {
      TreeNamePair(g, root, t, k, l);
    }
  }

  /** Every tree edge copies an edge of `g` that is not a loop. */
  lemma TreeNamesNotLoops(g: Graph, root: Label, t: Graph)
    requires SpanningTree(g, root, t)
    ensures forall n :: n in Names(t.edges) ==> exists e :: e in g.edges && e.name == n && !IsLoop(e)
  {
    var r := Names(t.edges);
    forall n | n in r ensures exists e :: e in g.edges && e.name == n && !IsLoop(e) {
      var k :| 0 <= k < |r| && r[k] == n;
      var tk := t.edges[k];
      assert tk.v2 == t.vertices[k + 1] && tk.v1 in t.vertices[..k + 1];
      assert tk.v2 !in t.vertices[..k + 1];
      var a :| a in g.edges && a.name == tk.name && Joins(a, tk.v1, tk.v2);
      assert !IsLoop(a);
    }
  }

  /** The labels of a spanning tree's edges are distinct labels of non-loop
      edges of `g`, as many as the reachable vertices less one. */
  lemma TreeNames(g: Graph, root: Label, t: Graph)
    requires WellFormed(g) && SpanningTree(g, root, t)
    ensures Distinct(Names(t.edges))
    ensures forall n :: n in Names(t.edges) ==> exists e :: e in g.edges && e.name == n && !IsLoop(e)
    ensures |Names(t.edges)| == |ReachableSet(g, root)| - 1
  {
    TreeNamesDistinct(g, root, t);
    TreeNamesNotLoops(g, root, t);
    assert (set x | x in t.vertices) == ReachableSet(g, root);
    DistinctSize(t.vertices);
  }

  /** `dfs`: the invalid-vertex error for a root that is not a vertex;
      otherwise the labels of the tree edges in insertion order. They are
      distinct labels of edges of `g`, none a loop, one fewer than the
      vertices reachable from the root. */
  function Dfs(g: Graph, root: Label): (r: Result<seq<Label>>)
    requires WellFormed(g)
    ensures r.Err? <==> root !in g.vertices
    ensures r.Err? ==> r.error == InvalidVertex(root)
    ensures r.Ok? ==> Distinct(r.value)
    ensures r.Ok? ==> forall n :: n in r.value ==> exists e :: e in g.edges && e.name == n && !IsLoop(e)
    ensures r.Ok? ==> |r.value| == |ReachableSet(g, root)| - 1
  {
    if root !in g.vertices then Err(InvalidVertex(root))
    else
      TreeOfSound(g, root);
      TreeNames(g, root, TreeOf(g, root));
      Ok(Names(TreeOf(g, root).edges))
  }

  // ------------------------------------------- the first edge of the tree

  /** The position of the first edge of `es` that is not a loop. */
  function FirstNonLoop(es: seq<Edge>): (k: nat)
    requires exists e :: e in es && !IsLoop(e)
    ensures k < |es| && !IsLoop(es[k])
    ensures forall m :: 0 <= m < k ==> IsLoop(es[m])
  {
    if !IsLoop(es[0]) then 0
    else
      var b :| b in es && !IsLoop(b);
      assert b in es[1..];
      FirstNonLoop(es[1..]) + 1
  }

  /** From the root alone, the first non-loop edge in `es` becomes the first
      tree edge: loops lead back to the root, which is already recorded. */
  lemma {:induction false} ExploreFirstLink(g: Graph, v: Label, es: seq<Edge>)
    requires WellFormed(g)
    requires forall e :: e in es ==> e in g.edges && Touches(e, v)
    requires exists e :: e in es && !IsLoop(e)
    ensures |Explore(g, v, es, Forest([v], [None])).links| > 1
    ensures Explore(g, v, es, Forest([v], [None])).links[1]
      == Some(Edge(es[FirstNonLoop(es)].name, v, Other(es[FirstNonLoop(es)], v)))
  {
    var f := Forest([v], [None]);
    var e, w := es[0], Other(es[0], v);
    if IsLoop(e) {
      assert e in es && Touches(e, v);
      assert w == v;
      assert Explore(g, v, es, f) == Explore(g, v, es[1..], f);
      assert FirstNonLoop(es) == FirstNonLoop(es[1..]) + 1;
      assert es[FirstNonLoop(es)] == es[1..][FirstNonLoop(es[1..])];
      ExploreFirstLink(g, v, es[1..]);
    } else {
      ExploreFirstStep(g, v, es);
    }
  }

  /** A first edge that is not a loop is recorded as the first tree edge. */
  lemma ExploreFirstStep(g: Graph, v: Label, es: seq<Edge>)
    requires WellFormed(g)
    requires forall e :: e in es ==> e in g.edges && Touches(e, v)
    requires es != [] && !IsLoop(es[0])
    ensures |Explore(g, v, es, Forest([v], [None])).links| > 1
    ensures Explore(g, v, es, Forest([v], [None])).links[1] == Some(Edge(es[0].name, v, Other(es[0], v)))
  {
    var f := Forest([v], [None]);
    var e, w := es[0], Other(es[0], v);
    assert w != v && w !in f.order;
    var f1 := Extend(f, v, e, w);
    var f2 := Visit(g, w, f1);
    var r := Explore(g, v, es[1..], f2);
    assert Explore(g, v, es, f) == r;
    GrowsTransitive(f1, f2, r);
    assert f1.links[1] == Some(Edge(e.name, v, w));
  }

  /** With no tree edge at the start, the first tree edge heads the list. */
  lemma FirstTreeEdge(links: seq<Option<Edge>>, t: Edge)
    requires |links| > 1 && links[0].None? && links[1] == Some(t)
    ensures |TreeEdges(links)| > 0 && TreeEdges(links)[0] == t
  {
    assert TreeEdges(links) == TreeEdges(links[1..]);
    assert links[1..][0] == Some(t);
  }

  /** The first label `dfs` reports is the smallest label among the non-loop
      edges at the root, whenever there is one: the root's edges are tried in
      ascending label order and loops lead nowhere new. */
  lemma DfsFirstLabel(g: Graph, root: Label, e: Edge)
    requires WellFormed(g) && root in g.vertices
    requires e in g.edges && Touches(e, root) && !IsLoop(e)
    ensures Dfs(g, root).Ok? && |Dfs(g, root).value| > 0
    ensures exists a :: (a in g.edges && Touches(a, root) && !IsLoop(a) && Dfs(g, root).value[0] == a.name
      && forall b :: b in g.edges && Touches(b, root) && !IsLoop(b) ==> LexLe(a.name, b.name))
  {
    var es := Candidates(g, root);
    assert e in es;
    var k := FirstNonLoop(es);
    TreeOfFirstEdge(g, root);
    assert Dfs(g, root).value[0] == es[k].name;
    SmallestNonLoop(g, root, es, k);
  }

  /** The first edge of the tree built from the root is the root's first
      non-loop edge in label order. */
  lemma TreeOfFirstEdge(g: Graph, root: Label)
    requires WellFormed(g) && root in g.vertices
    requires exists e :: e in Candidates(g, root) && !IsLoop(e)
    ensures |TreeOf(g, root).edges| > 0
    ensures TreeOf(g, root).edges[0].name == Candidates(g, root)[FirstNonLoop(Candidates(g, root))].name
  {
    var es := Candidates(g, root);
    var a := es[FirstNonLoop(es)];
    ExploreFirstLink(g, root, es);
    var f := Visit(g, root, Forest([root], [None]));
    FirstTreeEdge(f.links, Edge(a.name, root, Other(a, root)));
  }

  /** In the sorted incidence list, the first non-loop edge has the smallest
      label among the non-loop edges at the vertex. */
  lemma SmallestNonLoop(g: Graph, v: Label, es: seq<Edge>, k: nat)
    requires SortedByName(es) && (forall e :: e in es <==> e in g.edges && Touches(e, v))
    requires k < |es| && forall m :: 0 <= m < k ==> IsLoop(es[m])
    ensures forall b :: b in g.edges && Touches(b, v) && !IsLoop(b) ==> LexLe(es[k].name, b.name)
  {
    forall b | b in g.edges && Touches(b, v) && !IsLoop(b) ensures LexLe(es[k].name, b.name) {
      var m :| 0 <= m < |es| && es[m] == b;
      if m == k {
        LexLeReflexive(b.name);
      } else {
        assert k < m;
      }
    }
  }
}
