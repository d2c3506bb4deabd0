/** `ha_ciclo` and `eh_arvore`: a depth-first search that remembers the
    vertex each vertex was reached from and reports a cycle on meeting an
    already visited neighbour other than that one. Incident edges are tried
    in store order. */
module CycleSearch {
  import opened GraphModel
  import opened Walks
  import opened Forests
  import opened Predicates

  /** The outcome of a search: a cycle was met, or the forest grown so far. */
  datatype Search = Cycle | Done(forest: Forest)

  /** Visits `v`, already recorded in `f`, reached from `parent`. */
  function Visit(g: Graph, v: Label, parent: Option<Label>, f: Forest): (r: Search)
    requires WellFormed(g)
    ensures r.Done? ==> Grows(f, r.forest)
    decreases |Unvisited(g, f)|, 1
  {
    Explore(g, v, parent, IncidentEdges(g, v), f)
  }

  /** Tries the edges `es` of `v` in turn. A neighbour not visited yet is
      visited at once with `v` as its parent; a visited neighbour other
      than the parent closes a cycle. */
  function Explore(g: Graph, v: Label, parent: Option<Label>, es: seq<Edge>, f: Forest): (r: Search)
    requires WellFormed(g)
    requires forall e :: e in es ==> e in g.edges
    ensures r.Done? ==> Grows(f, r.forest)
    decreases |Unvisited(g, f)|, 0, |es|
  {
    if es == [] then Done(f)
    else
      var e := es[0];
      var w := Other(e, v);
      if w !in f.order then
        var f1 := Extend(f, v, e, w);
        UnvisitedExtend(g, f, w, f1);
        match Visit(g, w, Some(v), f1)
        case Cycle => Cycle
        case Done(f2) =>
          UnvisitedShrinks(g, f1, f2);
          var r := Explore(g, v, parent, es[1..], f2);
          if r.Done? then
            GrowsTransitive(f1, f2, r.forest);
            GrowsTransitive(f, f1, r.forest);
            r
          else r
      else if Some(w) != parent then Cycle
      else Explore(g, v, parent, es[1..], f)
  }

  /** Starts a search at every vertex, in store order, not reached by an
      earlier one. */
  function Sweep(g: Graph, i: nat, f: Forest): (r: Search)
    requires WellFormed(g) && i <= |g.vertices|
    decreases |g.vertices| - i
  {
    if i == |g.vertices| then Done(f)
    else
      var x := g.vertices[i];
      if x in f.order then Sweep(g, i + 1, f)
      else
        match Visit(g, x, None, StartAt(f, x))
        case Cycle => Cycle
        case Done(f1) => Sweep(g, i + 1, f1)
  }

  // ------------------------------------------------------- search state

  /** The part recorded before the current tree is closed under adjacency. */
  ghost predicate PrefixClosed(g: Graph, f: Forest, base: nat) {
    base <= |f.order| &&
    forall k, e :: 0 <= k < base && e in g.edges && Touches(e, f.order[k]) ==>
      Other(e, f.order[k]) in f.order[..base]
  }

  /** `parent` is the vertex `v` was reached from; `None` only at the root. */
  ghost predicate ParentLink(f: Forest, base: nat, v: Label, parent: Option<Label>) {
    forall p :: 0 <= p < |f.order| && p < |f.links| && f.order[p] == v ==>
      if parent.None? then p == base
      else f.links[p].Some? && f.links[p].value.v1 == parent.value
  }

  /** No tree edge leaving `v` carries the label of an edge still to try. */
  ghost predicate NoLinkFrom(f: Forest, v: Label, es: seq<Edge>) {
    forall m, e :: 0 <= m < |f.links| && f.links[m].Some? && f.links[m].value.v1 == v && e in es ==>
      f.links[m].value.name != e.name
  }

  /** Every edge at a vertex recorded from position `from` on is a tree edge. */
  ghost predicate ResolvedFrom(g: Graph, f: Forest, from: nat) {
    forall k, e :: from <= k < |f.order| && e in g.edges && Touches(e, f.order[k]) ==>
      IsTreeName(f, e.name)
  }

  /** The tree edges recorded since `f` leave `v` or a vertex recorded since. */
  ghost predicate NewLinksFrom(f: Forest, r: Forest, v: Label) {
    forall m :: |f.order| <= m < |r.order| && m < |r.links| && r.links[m].Some? ==>
      r.links[m].value.v1 == v || r.links[m].value.v1 in r.order[|f.order|..]
  }

  ghost predicate Pre(g: Graph, f: Forest, base: nat, v: Label, parent: Option<Label>) {
    && Shape(g, f) && Rooted(f, base) && v in f.order[base..]
    && PrefixClosed(g, f, base) && ParentLink(f, base, v, parent)
  }

  ghost predicate Post(g: Graph, f: Forest, r: Forest, base: nat, v: Label) {
    && Shape(g, r) && Rooted(r, base) && Grows(f, r)
    && NewLinksFrom(f, r, v) && ResolvedFrom(g, r, |f.order|)
  }

  // ------------------------------------------------------ small lemmas

  lemma TreeNameGrows(f: Forest, r: Forest, n: Label)
    requires Grows(f, r) && IsTreeName(f, n)
    ensures IsTreeName(r, n)
  {
    var j :| 0 <= j < |f.links| && f.links[j].Some? && f.links[j].value.name == n;
    assert r.links[j] == f.links[j];
  }

  lemma PrefixClosedGrows(g: Graph, f: Forest, r: Forest, base: nat)
    requires PrefixClosed(g, f, base) && Grows(f, r)
    ensures PrefixClosed(g, r, base)
  {
    assert r.order[..base] == f.order[..base];
    assert forall k :: 0 <= k < base ==> r.order[k] == f.order[k];
  }

  lemma ParentLinkGrows(f: Forest, r: Forest, base: nat, v: Label, parent: Option<Label>)
    requires Linked(r) && Grows(f, r) && |f.links| == |f.order| && v in f.order
    requires ParentLink(f, base, v, parent)
    ensures ParentLink(r, base, v, parent)
  {
    var q :| 0 <= q < |f.order| && f.order[q] == v;
    forall p | 0 <= p < |r.order| && p < |r.links| && r.order[p] == v
      ensures if parent.None? then p == base
              else r.links[p].Some? && r.links[p].value.v1 == parent.value
    {
      assert r.order[q] == v;
      assert p == q;
      assert r.links[p] == f.links[p];
    }
  }

  /** The parent, when there is one, was recorded before `v`. */
  lemma ParentVisited(f: Forest, base: nat, v: Label, parent: Option<Label>)
    requires Linked(f) && v in f.order && ParentLink(f, base, v, parent) && parent.Some?
    ensures parent.value in f.order
  {
    var p :| 0 <= p < |f.order| && f.order[p] == v;
  }

  /** The vertex recorded last has no tree edge leaving it. */
  lemma NewestLinksNone(f: Forest)
    requires Linked(f) && |f.order| > 0
    ensures forall m :: 0 <= m < |f.links| && f.links[m].Some? ==>
      f.links[m].value.v1 != f.order[|f.order| - 1]
  {
    var n := |f.order| - 1;
    forall m | 0 <= m < |f.links| && f.links[m].Some? ensures f.links[m].value.v1 != f.order[n] {
      if m < n {
        DistinctSplit(f.order, m + 1, f.links[m].value.v1);
        assert f.order[m + 1..][n - m - 1] == f.order[n];
      } else {
        assert f.order[..n + 1] == f.order;
        assert f.order[..m] == f.order[..n];
        DistinctSplit(f.order, n, f.links[m].value.v1);
        assert f.order[n..][0] == f.order[n];
      }
    }
  }

  /** A tree edge joins two recorded vertices, so a resolved vertex has all
      its neighbours recorded. */
  lemma TreeNameEndpoints(g: Graph, f: Forest, e: Edge, u: Label)
    requires WellFormed(g) && Shape(g, f) && e in g.edges && Touches(e, u) && u in f.order
    requires IsTreeName(f, e.name)
    ensures Other(e, u) in f.order
  {
    var m :| 0 <= m < |f.links| && f.links[m].Some? && f.links[m].value.name == e.name;
    var t := f.links[m].value;
    var b :| b in g.edges && b.name == t.name && Joins(b, t.v1, t.v2);
    SameLabelSameEdge(g, e, b);
    assert t.v1 in f.order[..m];
  }

  /** A tree edge copies the endpoints of the store edge with its label. */
  lemma LinkSource(g: Graph, f: Forest, k: nat, e: Edge)
    requires WellFormed(g) && Shape(g, f) && k < |f.order| && f.links[k].Some?
    requires e in g.edges && f.links[k].value.name == e.name
    ensures Joins(e, f.links[k].value.v1, f.order[k])
  {
    var t := f.links[k].value;
    var a :| a in g.edges && a.name == t.name && Joins(a, t.v1, t.v2);
    SameLabelSameEdge(g, e, a);
  }

  // ------------------------------------------------- the cycle witness

  /** A neighbour of a vertex of the current tree is not in an earlier tree. */
  lemma CurrentTreeNeighbour(g: Graph, f: Forest, base: nat, v: Label, e: Edge) returns (b: nat)
    requires Linked(f) && PrefixClosed(g, f, base) && v in f.order[base..]
    requires e in g.edges && Touches(e, v) && Other(e, v) in f.order
    ensures base <= b < |f.order| && f.order[b] == Other(e, v)
  {
    var w := Other(e, v);
    DistinctSplit(f.order, base, v);
    forall k | 0 <= k < base ensures f.order[k] != w {
      assert f.order[..base][k] == f.order[k];
    }
    b :| 0 <= b < |f.order| && f.order[b] == w;
  }

  /** A back edge met at `v` is not one of the tree edges of the current tree. */
  lemma BackEdgeNotTree(g: Graph, f: Forest, base: nat, v: Label, parent: Option<Label>, e: Edge)
    requires WellFormed(g) && Shape(g, f) && Rooted(f, base) && ParentLink(f, base, v, parent)
    requires e in g.edges && Touches(e, v) && !IsLoop(e) && Some(Other(e, v)) != parent
    requires NoLinkFrom(f, v, [e])
    ensures forall k :: base < k < |f.order| ==> f.links[k].value.name != e.name
  {
    forall k | base < k < |f.order| ensures f.links[k].value.name != e.name {
      if f.links[k].value.name == e.name {
        LinkSource(g, f, k, e);
        assert false;
      }
    }
  }

  /** Every tree edge of the current tree is an edge of `h`. */
  ghost predicate TreeIn(h: Graph, f: Forest, base: nat)
    requires Rooted(f, base)
  {
    forall k :: base < k < |f.order| ==> Adjacent(h, f.links[k].value.v1, f.order[k])
  }

  /** Every tree edge of the current tree survives the removal of the store
      edge at `i` when that edge is not one of them. */
  lemma TreeAvoids(g: Graph, f: Forest, base: nat, i: nat)
    requires WellFormed(g) && Shape(g, f) && Rooted(f, base) && i < |g.edges|
    requires forall k :: base < k < |f.order| ==> f.links[k].value.name != g.edges[i].name
    ensures TreeIn(WithoutEdge(g, i), f, base)
  {
    forall k | base < k < |f.order| ensures Adjacent(WithoutEdge(g, i), f.links[k].value.v1, f.order[k]) {
      TreeEdgeKept(g, f, base, i, k);
    }
  }

  /** One tree edge survives the removal of a store edge with another label. */
  lemma TreeEdgeKept(g: Graph, f: Forest, base: nat, i: nat, k: nat)
    requires WellFormed(g) && Shape(g, f) && Rooted(f, base) && i < |g.edges|
    requires base < k < |f.order| && f.links[k].value.name != g.edges[i].name
    ensures Adjacent(WithoutEdge(g, i), f.links[k].value.v1, f.order[k])
  {
    var h := WithoutEdge(g, i);
    var t := f.links[k].value;
    var a :| a in g.edges && a.name == t.name && Joins(a, t.v1, t.v2);
    var j :| 0 <= j < |g.edges| && g.edges[j] == a;
    assert j != i;
    assert a in h.edges;
  }

  /** Two vertices of the current tree joined by a store edge that is not a
      tree edge: removing that edge leaves them joined through the tree. */
  lemma TreePathCycle(g: Graph, f: Forest, base: nat, i: nat, a: nat, b: nat)
    requires Linked(f) && Rooted(f, base) && i < |g.edges|
    requires TreeIn(WithoutEdge(g, i), f, base)
    requires base <= a < |f.order| && base <= b < |f.order| && Joins(g.edges[i], f.order[a], f.order[b])
    ensures OnCycle(g, i) && !IsForest(g)
  {
    var h := WithoutEdge(g, i);
    var v, w := f.order[a], f.order[b];
    RootedReach(f, base, h, a);
    RootedReach(f, base, h, b);
    ReachableSymmetric(h, f.order[base], v);
    ReachableTransitive(h, v, f.order[base], w);
    ReachableSymmetric(h, v, w);
    assert Reachable(h, g.edges[i].v1, g.edges[i].v2);
    assert OnCycle(g, i);
  }

  /** A visited neighbour of `v` other than its parent closes a cycle: the
      tree path between them plus the edge that was just met. */
  lemma BackEdgeCycle(g: Graph, f: Forest, base: nat, v: Label, parent: Option<Label>, e: Edge)
    requires WellFormed(g) && Pre(g, f, base, v, parent)
    requires e in g.edges && Touches(e, v) && Other(e, v) in f.order && Some(Other(e, v)) != parent
    requires NoLinkFrom(f, v, [e])
    ensures exists i :: 0 <= i < |g.edges| && g.edges[i] == e && OnCycle(g, i)
    ensures !IsForest(g)
  {
    var i :| 0 <= i < |g.edges| && g.edges[i] == e;
    if IsLoop(e) {
      LoopNotForest(g, i);
    } else {
      var b := CurrentTreeNeighbour(g, f, base, v, e);
      var a := PositionFrom(f.order, base, v);
      BackEdgeNotTree(g, f, base, v, parent, e);
      TreeAvoids(g, f, base, i);
      OtherJoins(e, v);
      assert Joins(g.edges[i], f.order[a], f.order[b]);
      TreePathCycle(g, f, base, i, a, b);
    }
  }


  // --------------------------------------------------------- soundness

  /** Every edge at `v` outside `es` was tried already and led to a
      recorded vertex. */
  ghost predicate Unexplored(g: Graph, f: Forest, v: Label, es: seq<Edge>) {
    forall e :: e in g.edges && Touches(e, v) && e !in es ==> Other(e, v) in f.order
  }

  /** Every edge of `es` became a tree edge, or leads back to the parent. */
  ghost predicate Settled(r: Forest, v: Label, parent: Option<Label>, es: seq<Edge>) {
    forall e :: e in es ==> IsTreeName(r, e.name) || Some(Other(e, v)) == parent
  }

  lemma SuffixWithin(s: seq<Label>, a: nat, b: nat, x: Label)
    requires a <= b <= |s| && x in s[b..]
    ensures x in s[a..]
  {
    var c :| 0 <= c < |s| - b && s[b..][c] == x;
    assert s[a..][b - a + c] == x;
  }

  lemma PrefixWithin(f: Forest, r: Forest, x: Label)
    requires Grows(f, r) && x in f.order
    ensures x in r.order
  {
    var c :| 0 <= c < |f.order| && f.order[c] == x;
    assert r.order[c] == x;
  }

  /** The state in which a newly reached neighbour is visited. */
  lemma ChildPre(g: Graph, f: Forest, base: nat, v: Label, parent: Option<Label>, e: Edge)
    requires WellFormed(g) && Pre(g, f, base, v, parent)
    requires e in g.edges && Touches(e, v) && Other(e, v) !in f.order
    ensures var f1 := Extend(f, v, e, Other(e, v));
      && Pre(g, f1, base, Other(e, v), Some(v))
      && f1.order[|f1.order| - 1] == Other(e, v)
  {
    var w := Other(e, v);
    var f1 := Extend(f, v, e, w);
    ExtendShape(g, f, base, v, e);
    PrefixClosedGrows(g, f, f1, base);
    assert f1.order[base..][|f.order| - base] == w;
    NewestParent(f, f1, base, v, e, w);
  }

  /** The vertex just recorded was reached from `v`. */
  lemma NewestParent(f: Forest, f1: Forest, base: nat, v: Label, e: Edge, w: Label)
    requires w !in f.order && |f.links| == |f.order| && f1 == Extend(f, v, e, w)
    ensures ParentLink(f1, base, w, Some(v))
  {
    forall p | 0 <= p < |f1.order| && p < |f1.links| && f1.order[p] == w
      ensures f1.links[p].Some? && f1.links[p].value.v1 == v
    {
    }
  }

  /** The state in which `v` resumes after a child's visit. */
  lemma RestPre(g: Graph, f: Forest, f1: Forest, f2: Forest, base: nat, v: Label, parent: Option<Label>, es: seq<Edge>)
    requires WellFormed(g) && Pre(g, f, base, v, parent)
    requires es != [] && forall e :: e in es ==> e in g.edges && Touches(e, v)
    requires DistinctLabels(es) && Unexplored(g, f, v, es) && NoLinkFrom(f, v, es)
    requires Other(es[0], v) !in f.order && f1 == Extend(f, v, es[0], Other(es[0], v))
    requires Post(g, f1, f2, base, Other(es[0], v))
    ensures Pre(g, f2, base, v, parent)
    ensures Unexplored(g, f2, v, es[1..]) && NoLinkFrom(f2, v, es[1..])
  {
    assert Grows(f, f1);
    GrowsTransitive(f, f1, f2);
    RestState(g, f, f2, base, v, parent);
    RestUnexplored(g, f, f1, f2, v, es);
    RestNoLink(f, f1, f2, v, es);
  }

  /** Growing keeps `v` in the current tree, the earlier trees closed and the
      parent link. */
  lemma RestState(g: Graph, f: Forest, f2: Forest, base: nat, v: Label, parent: Option<Label>)
    requires Pre(g, f, base, v, parent) && Grows(f, f2) && Shape(g, f2) && Rooted(f2, base)
    ensures Pre(g, f2, base, v, parent)
  {
    var a := PositionFrom(f.order, base, v);
    assert f2.order[a] == v && f2.order[base..][a - base] == v;
    PrefixClosedGrows(g, f, f2, base);
    ParentLinkGrows(f, f2, base, v, parent);
  }

  /** The edge just tried led to a recorded vertex. */
  lemma RestUnexplored(g: Graph, f: Forest, f1: Forest, f2: Forest, v: Label, es: seq<Edge>)
    requires es != [] && Unexplored(g, f, v, es)
    requires f1 == Extend(f, v, es[0], Other(es[0], v)) && Grows(f1, f2)
    ensures Unexplored(g, f2, v, es[1..])
  {
    var e, rest, w := es[0], es[1..], Other(es[0], v);
    assert f2.order[|f.order|] == w;
    forall e' | e' in g.edges && Touches(e', v) && e' !in rest ensures Other(e', v) in f2.order {
      if e' != e {
        assert e' !in es by {
          assert forall d :: d in es ==> d == e || d in rest;
        }
        PrefixWithin(f1, f2, Other(e', v));
      }
    }
  }

  /** The tree edges recorded since `f` leave the child or later vertices,
      never `v`, except the one just recorded, whose label is not among the
      edges still to try. */
  lemma RestNoLink(f: Forest, f1: Forest, f2: Forest, v: Label, es: seq<Edge>)
    requires Linked(f2) && v in f.order && |f.links| == |f.order|
    requires es != [] && DistinctLabels(es) && NoLinkFrom(f, v, es)
    requires f1 == Extend(f, v, es[0], Other(es[0], v)) && Grows(f1, f2)
    requires NewLinksFrom(f1, f2, Other(es[0], v))
    ensures NoLinkFrom(f2, v, es[1..])
  {
    var rest := es[1..];
    var a :| 0 <= a < |f.order| && f.order[a] == v;
    assert v in f2.order[..|f.order|] by {
      assert f2.order[..|f.order|][a] == v;
    }
    DistinctSplit(f2.order, |f.order|, v);
    forall m, e' | 0 <= m < |f2.links| && f2.links[m].Some? && f2.links[m].value.v1 == v && e' in rest
      ensures f2.links[m].value.name != e'.name
    {
      var j :| 0 <= j < |rest| && rest[j] == e';
      assert es[j + 1] == e';
      if m < |f.order| {
        assert f2.links[m] == f.links[m];
      } else if m == |f.order| {
        assert f2.links[m] == f1.links[m];
      }
    }
  }

  /** Tree edges recorded across a child's visit and the rest of `es` leave
      `v` or vertices recorded since `f`. */
  lemma CombineLinks(f: Forest, f1: Forest, f2: Forest, r: Forest, v: Label, w: Label, e: Edge)
    requires f1 == Extend(f, v, e, w) && Grows(f1, f2) && Grows(f2, r)
    requires |f.links| == |f.order| && |f2.links| == |f2.order| && |r.links| == |r.order|
    requires NewLinksFrom(f1, f2, w) && NewLinksFrom(f2, r, v)
    ensures NewLinksFrom(f, r, v)
  {
    forall m | |f.order| <= m < |r.order| && m < |r.links| && r.links[m].Some?
      ensures r.links[m].value.v1 == v || r.links[m].value.v1 in r.order[|f.order|..]
    {
      var x := r.links[m].value.v1;
      assert r.order[|f.order|] == w;
      if m == |f.order| {
        assert r.links[m] == f1.links[m];
      } else if m < |f2.order| {
        assert r.links[m] == f2.links[m];
        if x == w {
          assert r.order[|f.order|..][0] == w;
        } else {
          assert x in f2.order[|f1.order|..];
          assert f2.order[|f1.order|..] == r.order[|f1.order|..|f2.order|];
          var c :| 0 <= c < |f2.order| - |f1.order| && f2.order[|f1.order|..][c] == x;
          assert r.order[|f1.order| + c] == x;
          SuffixWithin(r.order, |f.order|, |f1.order|, x);
        }
      } else if x != v {
        SuffixWithin(r.order, |f.order|, |f2.order|, x);
      }
    }
  }

  /** After a child's visit and the rest of `es`, every edge at the child or
      at a vertex recorded since is a tree edge: an edge from the child back
      to `v` other than the one it was reached along is still in `es` and,
      not leading to the parent of `v`, became a tree edge or was reported. */
  lemma CombineResolved(g: Graph, f: Forest, f1: Forest, f2: Forest, r: Forest, v: Label,
                        parent: Option<Label>, es: seq<Edge>)
    requires WellFormed(g)
    requires es != [] && Other(es[0], v) !in f.order && v in f.order && |f.links| == |f.order|
    requires (parent.Some? ==> parent.value in f.order)
    requires f1 == Extend(f, v, es[0], Other(es[0], v)) && Grows(f1, f2) && Grows(f2, r)
    requires Unexplored(g, f, v, es)
    requires forall e :: e in g.edges && Touches(e, Other(es[0], v)) ==>
      IsTreeName(f2, e.name) || Some(Other(e, Other(es[0], v))) == Some(v)
    requires ResolvedFrom(g, f2, |f1.order|) && ResolvedFrom(g, r, |f2.order|)
    requires Settled(r, v, parent, es[1..])
    ensures ResolvedFrom(g, r, |f.order|)
  {
    var e, w := es[0], Other(es[0], v);
    assert r.links[|f.order|] == f1.links[|f.order|];
    assert IsTreeName(r, e.name);
    forall k, e' | |f.order| <= k < |r.order| && e' in g.edges && Touches(e', r.order[k])
      ensures IsTreeName(r, e'.name)
    {
      if k == |f.order| {
        assert r.order[k] == w;
        if !IsTreeName(f2, e'.name) && e' != e {
          assert Other(e', w) == v;
          assert Other(e', v) == w;
          assert e' in es[1..];
        } else if e' != e {
          TreeNameGrows(f2, r, e'.name);
        }
      } else if k < |f2.order| {
        assert r.order[k] == f2.order[k];
        TreeNameGrows(f2, r, e'.name);
      }
    }
  }

  /** Visiting `v` either proves a cycle or records a forest in which every
      edge at `v` is a tree edge or leads back to the parent, and every edge
      at a vertex recorded during the visit is a tree edge. */
  lemma {:induction false} VisitSound(g: Graph, v: Label, parent: Option<Label>, f: Forest, base: nat)
    requires WellFormed(g) && Pre(g, f, base, v, parent) && f.order[|f.order| - 1] == v
    ensures var r := Visit(g, v, parent, f);
      && (r.Cycle? ==> !IsForest(g))
      && (r.Done? ==> Post(g, f, r.forest, base, v))
      && (r.Done? ==> forall e :: e in g.edges && Touches(e, v) ==>
            IsTreeName(r.forest, e.name) || Some(Other(e, v)) == parent)
    decreases |Unvisited(g, f)|, 1
  {
    var es := IncidentEdges(g, v);
    NewestLinksNone(f);
    ExploreSound(g, v, parent, es, f, base);
  }

  lemma {:induction false} ExploreSound(g: Graph, v: Label, parent: Option<Label>, es: seq<Edge>, f: Forest, base: nat)
    requires WellFormed(g) && Pre(g, f, base, v, parent)
    requires forall e :: e in es ==> e in g.edges && Touches(e, v)
    requires DistinctLabels(es) && Unexplored(g, f, v, es) && NoLinkFrom(f, v, es)
    ensures var r := Explore(g, v, parent, es, f);
      && (r.Cycle? ==> !IsForest(g))
      && (r.Done? ==> Post(g, f, r.forest, base, v) && Settled(r.forest, v, parent, es))
    decreases |Unvisited(g, f)|, 0, |es|, 1
  {
    if es != [] {
      var e, rest := es[0], es[1..];
      var w := Other(e, v);
      if w !in f.order {
        ChildSound(g, v, parent, es, f, base);
      } else if Some(w) != parent {
        BackEdgeCycle(g, f, base, v, parent, e);
      } else {
        ParentEdgeSound(g, v, parent, es, f, base);
      }
    }
  }

  /** The case of `Explore` where the first edge leads back to the parent. */
  lemma {:induction false} ParentEdgeSound(g: Graph, v: Label, parent: Option<Label>, es: seq<Edge>, f: Forest, base: nat)
    requires WellFormed(g) && Pre(g, f, base, v, parent)
    requires es != [] && Other(es[0], v) in f.order && Some(Other(es[0], v)) == parent
    requires forall e :: e in es ==> e in g.edges && Touches(e, v)
    requires DistinctLabels(es) && Unexplored(g, f, v, es) && NoLinkFrom(f, v, es)
    ensures var r := Explore(g, v, parent, es, f);
      && (r.Cycle? ==> !IsForest(g))
      && (r.Done? ==> Post(g, f, r.forest, base, v) && Settled(r.forest, v, parent, es))
    decreases |Unvisited(g, f)|, 0, |es|, 0
  {
    var rest := es[1..];
    RestEdges(g, v, es);
    assert forall e :: e in es ==> e == es[0] || e in rest;
    ExploreSound(g, v, parent, rest, f, base);
    assert Explore(g, v, parent, es, f) == Explore(g, v, parent, rest, f);
  }

  /** The case of `Explore` where the first edge reaches a new vertex. */
  lemma {:induction false} ChildSound(g: Graph, v: Label, parent: Option<Label>, es: seq<Edge>, f: Forest, base: nat)
    requires WellFormed(g) && Pre(g, f, base, v, parent)
    requires es != [] && Other(es[0], v) !in f.order
    requires forall e :: e in es ==> e in g.edges && Touches(e, v)
    requires DistinctLabels(es) && Unexplored(g, f, v, es) && NoLinkFrom(f, v, es)
    ensures var r := Explore(g, v, parent, es, f);
      && (r.Cycle? ==> !IsForest(g))
      && (r.Done? ==> Post(g, f, r.forest, base, v) && Settled(r.forest, v, parent, es))
    decreases |Unvisited(g, f)|, 0, |es|, 0
  {
    var e, rest := es[0], es[1..];
    var w := Other(e, v);
    var f1 := Extend(f, v, e, w);
    ChildPre(g, f, base, v, parent, e);
    UnvisitedExtend(g, f, w, f1);
    VisitSound(g, w, Some(v), f1, base);
    match Visit(g, w, Some(v), f1)
    case Cycle =>
    case Done(f2) =>
      UnvisitedShrinks(g, f1, f2);
      RestPre(g, f, f1, f2, base, v, parent, es);
      RestEdges(g, v, es);
      assert |Unvisited(g, f2)| < |Unvisited(g, f)|;
      ExploreSound(g, v, parent, rest, f2, base);
      match Explore(g, v, parent, rest, f2)
      case Cycle =>
      case Done(r) =>
        assert Explore(g, v, parent, es, f) == Done(r);
        ChildDone(g, v, parent, es, f, f1, f2, r, base);
  }

  /** What holds of the edges still to try holds of all but the first. */
  lemma RestEdges(g: Graph, v: Label, es: seq<Edge>)
    requires es != [] && DistinctLabels(es)
    requires forall e :: e in es ==> e in g.edges && Touches(e, v)
    ensures DistinctLabels(es[1..])
    ensures forall e :: e in es[1..] ==> e in g.edges && Touches(e, v)
  {
    assert forall e :: e in es[1..] ==> e in es;
  }

  /** Both the child's visit and the rest of `es` ended without a cycle. */
  lemma ChildDone(g: Graph, v: Label, parent: Option<Label>, es: seq<Edge>, f: Forest, f1: Forest,
                  f2: Forest, r: Forest, base: nat)
    requires WellFormed(g) && Pre(g, f, base, v, parent)
    requires es != [] && Other(es[0], v) !in f.order && f1 == Extend(f, v, es[0], Other(es[0], v))
    requires Unexplored(g, f, v, es)
    requires Post(g, f1, f2, base, Other(es[0], v))
    requires forall e :: e in g.edges && Touches(e, Other(es[0], v)) ==>
      IsTreeName(f2, e.name) || Some(Other(e, Other(es[0], v))) == Some(v)
    requires Post(g, f2, r, base, v) && Settled(r, v, parent, es[1..])
    ensures Post(g, f, r, base, v) && Settled(r, v, parent, es)
  {
    var e, w := es[0], Other(es[0], v);
    GrowsTransitive(f, f1, f2);
    GrowsTransitive(f, f2, r);
    GrowsTransitive(f1, f2, r);
    ParentVisitedOpt(f, base, v, parent);
    CombineLinks(f, f1, f2, r, v, w, e);
    CombineResolved(g, f, f1, f2, r, v, parent, es);
    ChildSettled(f, f1, r, v, parent, es);
  }

  /** The edge that led to the child is a tree edge of the final forest, so
      the settled tail extends to all of `es`. */
  lemma ChildSettled(f: Forest, f1: Forest, r: Forest, v: Label, parent: Option<Label>, es: seq<Edge>)
    requires es != [] && |f.links| == |f.order| && f1 == Extend(f, v, es[0], Other(es[0], v))
    requires Grows(f1, r) && Settled(r, v, parent, es[1..])
    ensures Settled(r, v, parent, es)
  {
    var e := es[0];
    assert IsTreeName(r, e.name) by {
      assert r.links[|f.order|] == f1.links[|f.order|];
    }
    assert forall e' :: e' in es ==> e' == e || e' in es[1..];
  }

  lemma ParentVisitedOpt(f: Forest, base: nat, v: Label, parent: Option<Label>)
    requires Linked(f) && v in f.order && ParentLink(f, base, v, parent)
    ensures parent.Some? ==> parent.value in f.order
  {
    if parent.Some? {
      ParentVisited(f, base, v, parent);
    }
  }

  // ----------------------------------------------------------- the sweep

  /** The state in which a search starts at a vertex not reached before. */
  lemma StartPre(g: Graph, f: Forest, x: Label)
    requires WellFormed(g) && Shape(g, f) && ResolvedFrom(g, f, 0)
    requires x in g.vertices && x !in f.order
    ensures var f0 := StartAt(f, x);
      && Pre(g, f0, |f.order|, x, None) && f0.order[|f0.order| - 1] == x
  {
    var f0 := StartAt(f, x);
    var base := |f.order|;
    StartShape(g, f, x);
    assert f0.order[..base] == f.order;
    assert f0.order[base..] == [x];
    forall k, e | 0 <= k < base && e in g.edges && Touches(e, f0.order[k])
      ensures Other(e, f0.order[k]) in f0.order[..base]
    {
      assert f0.order[k] == f.order[k];
      TreeNameEndpoints(g, f, e, f.order[k]);
    }
    assert forall c :: 0 <= c < base ==> f0.order[c] == f.order[c];
  }

  /** After a search from a new root, every recorded vertex is resolved. */
  lemma SweepStep(g: Graph, f: Forest, x: Label, f1: Forest)
    requires WellFormed(g) && ResolvedFrom(g, f, 0)
    requires Post(g, StartAt(f, x), f1, |f.order|, x)
    requires forall e :: e in g.edges && Touches(e, x) ==> IsTreeName(f1, e.name) || Some(Other(e, x)) == None
    ensures ResolvedFrom(g, f1, 0)
  {
    var f0 := StartAt(f, x);
    forall k, e | 0 <= k < |f1.order| && e in g.edges && Touches(e, f1.order[k])
      ensures IsTreeName(f1, e.name)
    {
      if k < |f.order| {
        assert f1.order[k] == f.order[k];
        TreeNameGrows(f, f1, e.name);
      } else if k == |f.order| {
        assert f1.order[k] == f0.order[k] == x;
      }
    }
  }

  /** The search from the vertex at `i` recorded it and kept the earlier ones. */
  lemma RecordedSoFar(g: Graph, i: nat, f: Forest, f1: Forest)
    requires i < |g.vertices| && forall k :: 0 <= k < i ==> g.vertices[k] in f.order
    requires Grows(StartAt(f, g.vertices[i]), f1)
    ensures forall k :: 0 <= k < i + 1 ==> g.vertices[k] in f1.order
  {
    assert f1.order[|f.order|] == g.vertices[i];
    forall k | 0 <= k < i ensures g.vertices[k] in f1.order {
      PrefixWithin(f, f1, g.vertices[k]);
    }
  }

  /** Once every vertex is recorded and resolved, every edge is a tree edge. */
  lemma AllTreeNames(g: Graph, f: Forest)
    requires WellFormed(g) && ResolvedFrom(g, f, 0)
    requires forall x :: x in g.vertices ==> x in f.order
    ensures forall e :: e in g.edges ==> IsTreeName(f, e.name)
  {
    forall e | e in g.edges ensures IsTreeName(f, e.name) {
      var k :| 0 <= k < |f.order| && f.order[k] == e.v1;
    }
  }

  /** The sweep reports a cycle exactly when the graph is not a forest. */
  lemma {:induction false} SweepSound(g: Graph, i: nat, f: Forest)
    requires WellFormed(g) && i <= |g.vertices| && Shape(g, f) && ResolvedFrom(g, f, 0)
    requires forall k :: 0 <= k < i ==> g.vertices[k] in f.order
    ensures Sweep(g, i, f).Cycle? <==> !IsForest(g)
    decreases |g.vertices| - i, 1
  {
    if i == |g.vertices| {
      AllTreeNames(g, f);
      SpanningForestIsForest(g, f);
    } else if g.vertices[i] in f.order {
      SweepSound(g, i + 1, f);
    } else {
      SweepNewRoot(g, i, f);
    }
  }

  /** The case of the sweep where the vertex at `i` starts a new search. */
  lemma {:induction false} SweepNewRoot(g: Graph, i: nat, f: Forest)
    requires WellFormed(g) && i < |g.vertices| && Shape(g, f) && ResolvedFrom(g, f, 0)
    requires forall k :: 0 <= k < i ==> g.vertices[k] in f.order
    requires g.vertices[i] !in f.order
    ensures Sweep(g, i, f).Cycle? <==> !IsForest(g)
    decreases |g.vertices| - i, 0
  {
    var x := g.vertices[i];
    var f0 := StartAt(f, x);
    StartPre(g, f, x);
    VisitSound(g, x, None, f0, |f.order|);
    match Visit(g, x, None, f0)
    case Cycle =>
    case Done(f1) =>
      SweepStep(g, f, x, f1);
      RecordedSoFar(g, i, f, f1);
      SweepSound(g, i + 1, f1);
  }

  /** `ha_ciclo`: whether some component holds a cycle. It answers yes
      exactly when some edge is not a bridge: a loop, a parallel edge, or an
      edge on a longer cycle. */
  function HasCycle(g: Graph): (r: bool)
    requires WellFormed(g)
    ensures r <==> !IsForest(g)
  {
    SweepSound(g, 0, Forest([], []));
    Sweep(g, 0, Forest([], [])).Cycle?
  }

  /** A loop or a pair of parallel edges is a cycle. */
  lemma LoopIsCycle(g: Graph)
    requires WellFormed(g) && HasLoop(g)
    ensures HasCycle(g)
  {
    var i :| 0 <= i < |g.edges| && g.edges[i].v1 == g.edges[i].v2;
    LoopNotForest(g, i);
  }

  lemma ParallelIsCycle(g: Graph)
    requires WellFormed(g) && HasParallel(g)
    ensures HasCycle(g)
  {
    var i, j :| 0 <= i < j < |g.edges| && Parallel(g.edges[i], g.edges[j]);
    ParallelNotForest(g, i, j);
  }

  // ------------------------------------------------------------ eh_arvore

  /** Every vertex is reachable from the first one. */
  ghost predicate Connected(g: Graph)
    requires |g.vertices| > 0
  {
    forall x :: x in g.vertices ==> Reachable(g, g.vertices[0], x)
  }

  /** The verdict of `eh_arvore`: not a tree, or the list of its leaves. */
  datatype TreeVerdict = NotTree | Leaves(leaves: seq<Label>)

  /** The vertices of `vs`, in order, with exactly one incident edge. */
  function LeavesOf(g: Graph, vs: seq<Label>): (r: seq<Label>)
    ensures forall x :: x in r <==> x in vs && |IncidentEdges(g, x)| == 1
  {
    if vs == [] then []
    else (if |IncidentEdges(g, vs[0])| == 1 then [vs[0]] else []) + LeavesOf(g, vs[1..])
  }

  /** The leaves come in the order of `vs`, each once. */
  lemma {:induction false} LeavesInOrder(g: Graph, vs: seq<Label>)
    requires Distinct(vs)
    ensures InOrder(LeavesOf(g, vs), vs)
  {
    if vs != [] {
      LeavesInOrder(g, vs[1..]);
      InOrderCons(vs, LeavesOf(g, vs[1..]));
    }
  }

  /** The search from the first vertex alone. */
  function FirstSearch(g: Graph): Search
    requires WellFormed(g) && |g.vertices| > 0
  {
    Visit(g, g.vertices[0], None, StartAt(Forest([], []), g.vertices[0]))
  }

  /** `eh_arvore`: not a tree when there are no vertices, when the search
      from the first vertex meets a cycle, or when it does not record every
      vertex; otherwise the vertices with exactly one incident edge. */
  function IsTree(g: Graph): (r: TreeVerdict)
    requires WellFormed(g)
    ensures r.Leaves? <==> |g.vertices| > 0 && IsForest(g) && Connected(g)
    ensures r.Leaves? ==> forall x :: x in r.leaves <==> x in g.vertices && Degree(g, x) == Ok(1)
    ensures r.Leaves? ==> InOrder(r.leaves, g.vertices) && Distinct(r.leaves)
  {
    if g.vertices == [] then NotTree
    else
      FirstSearchSound(g);
      match FirstSearch(g)
      case Cycle => NotTree
      case Done(f) =>
        if |f.order| != |g.vertices| then NotTree
        else
          var r := LeavesOf(g, g.vertices);
          TreeLeaves(g);
          LeavesInOrder(g, g.vertices);
          InOrderDistinct(r, g.vertices);
          Leaves(r)
  }

  /** In a forest a leaf, one incident edge, is a vertex of degree 1. */
  lemma TreeLeaves(g: Graph)
    requires WellFormed(g) && IsForest(g)
    ensures forall x :: x in LeavesOf(g, g.vertices) <==> x in g.vertices && Degree(g, x) == Ok(1)
  {
    forall e | e in g.edges ensures !IsLoop(e) {
      var i :| 0 <= i < |g.edges| && g.edges[i] == e;
      if IsLoop(e) {
        LoopNotForest(g, i);
      }
    }
    forall x | x in g.vertices ensures Degree(g, x) == Ok(|IncidentEdges(g, x)|) {
      LooplessDegree(g, x);
    }
  }

  /** A repeat-free sequence drawn from another repeat-free sequence of the
      same length holds all of its members. */
  lemma SameSizeAll(s: seq<Label>, t: seq<Label>)
    requires Distinct(s) && Distinct(t) && (forall x :: x in s ==> x in t)
    ensures |s| == |t| <==> forall x :: x in t ==> x in s
  {
    DistinctSize(s);
    DistinctSize(t);
    var a, b := (set x | x in s), (set x | x in t);
    assert b == a + (b - a);
    if forall x :: x in t ==> x in s {
      assert a == b;
    }
    if |s| == |t| {
      assert |b - a| == 0;
      assert forall x :: x in t ==> x in b;
    }
  }

  /** What the search from the first vertex decides: a cycle proves the graph
      is not a forest; otherwise it recorded all the vertices exactly when the
      graph is connected, and then the graph is a forest. */
  lemma FirstSearchSound(g: Graph)
    requires WellFormed(g) && |g.vertices| > 0
    ensures FirstSearch(g).Cycle? ==> !IsForest(g)
    ensures FirstSearch(g).Done? ==>
      (|FirstSearch(g).forest.order| == |g.vertices| <==> Connected(g))
    ensures FirstSearch(g).Done? && |FirstSearch(g).forest.order| == |g.vertices| ==> IsForest(g)
  {
    var root := g.vertices[0];
    var e0 := Forest([], []);
    var f0 := StartAt(e0, root);
    StartPre(g, e0, root);
    VisitSound(g, root, None, f0, 0);
    match FirstSearch(g)
    case Cycle =>
    case Done(f) =>
      SweepStep(g, e0, root, f);
      assert f.order[0] == root;
      VisitedAreReachable(g, f, root);
      forall k, e | 0 <= k < |f.order| && e in g.edges && Touches(e, f.order[k])
        ensures Other(e, f.order[k]) in f.order
      {
        TreeNameEndpoints(g, f, e, f.order[k]);
      }
      ReachableAreRecorded(g, f, root);
      SameSizeAll(f.order, g.vertices);
      if |f.order| == |g.vertices| {
        AllTreeNames(g, f);
        SpanningForestIsForest(g, f);
      }
  }
}
