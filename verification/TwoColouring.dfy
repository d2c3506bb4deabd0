/** `eh_bipartido`: a breadth-first two-colouring, component by component,
    that gives up at the first edge whose endpoints received the same colour. */
module TwoColouring {
  import opened GraphModel
  import opened Predicates

  /** Colours recorded so far: vertices only, each 0 or 1. */
  ghost predicate Colouring(g: Graph, colour: map<Label, int>) {
    forall x :: x in colour ==> x in g.vertices && (colour[x] == 0 || colour[x] == 1)
  }

  /** A proper two-colouring of `g`: every vertex coloured 0 or 1 and the two
      endpoints of every edge coloured differently (so no loop is allowed). */
  ghost predicate Proper(g: Graph, c: map<Label, int>) {
    && (forall x :: x in g.vertices ==> x in c && (c[x] == 0 || c[x] == 1))
    && forall e :: e in g.edges ==> e.v1 in c && e.v2 in c && c[e.v1] != c[e.v2]
  }

  ghost predicate Bipartite(g: Graph) {
    exists c :: Proper(g, c)
  }

  /** Every edge at `x` leads to a vertex coloured, and coloured differently. */
  ghost predicate Good(g: Graph, colour: map<Label, int>, x: Label)
    requires x in colour
  {
    forall e :: e in g.edges && Touches(e, x) ==>
      Other(e, x) in colour && colour[Other(e, x)] != colour[x]
  }

  /** Every colour recorded in `colour0` is kept in `colour`. */
  ghost predicate Extends(colour0: map<Label, int>, colour: map<Label, int>) {
    forall x :: x in colour0 ==> x in colour && colour[x] == colour0[x]
  }

  /** `b` applied to `a`: the same colour for 0, the other one for 1. */
  function Flip(a: int, b: int): int {
    if b == 0 then a else 1 - a
  }

  /** Any proper colouring agrees, up to swapping, with the colours given
      since `colour0` to the component of `r`. */
  ghost predicate Forced(g: Graph, r: Label, colour0: map<Label, int>, colour: map<Label, int>) {
    forall c :: Proper(g, c) ==>
      forall x :: x in colour && x !in colour0 ==> x in c && r in c && r in colour && c[x] == Flip(c[r], colour[x])
  }

  ghost function Uncoloured(g: Graph, colour: map<Label, int>): set<Label> {
    set x | x in g.vertices && x !in colour
  }

  lemma UncolouredShrinks(g: Graph, colour: map<Label, int>, w: Label, k: int)
    requires w in g.vertices && w !in colour
    ensures |Uncoloured(g, colour[w := k])| < |Uncoloured(g, colour)|
  {
    assert Uncoloured(g, colour) == Uncoloured(g, colour[w := k]) + {w};
  }

  /** Colouring a neighbour of `v` with the other colour keeps every proper
      colouring in agreement. */
  lemma ForcedExtend(g: Graph, r: Label, colour0: map<Label, int>, colour: map<Label, int>, v: Label, e: Edge)
    requires WellFormed(g) && Colouring(g, colour) && Extends(colour0, colour) && Forced(g, r, colour0, colour)
    requires v in colour && v !in colour0 && e in g.edges && Touches(e, v) && Other(e, v) !in colour
    ensures Forced(g, r, colour0, colour[Other(e, v) := 1 - colour[v]])
  {
    var w := Other(e, v);
    var colour' := colour[w := 1 - colour[v]];
    forall c | Proper(g, c)
      ensures forall x :: x in colour' && x !in colour0 ==> x in c && r in c && r in colour' && c[x] == Flip(c[r], colour'[x])
    {
      OtherJoins(e, v);
      assert c[w] != c[v];
      assert c[w] == Flip(c[r], colour'[w]);
    }
  }

  /** Colouring a new neighbour keeps the search state. */
  lemma ColourStep(g: Graph, r: Label, colour0: map<Label, int>, colour: map<Label, int>, q: seq<Label>, v: Label, e: Edge)
    requires WellFormed(g) && Growing(g, r, colour0, colour, q) && v in colour && v !in colour0
    requires forall x :: x in colour && x !in q && x != v ==> Good(g, colour, x)
    requires e in g.edges && Touches(e, v) && Other(e, v) !in colour
    ensures var colour' := colour[Other(e, v) := 1 - colour[v]];
      && Growing(g, r, colour0, colour', q + [Other(e, v)])
      && (forall x :: x in colour' && x !in q + [Other(e, v)] && x != v ==> Good(g, colour', x))
      && Extends(colour, colour')
      && |Uncoloured(g, colour')| < |Uncoloured(g, colour)|
  {
    var w := Other(e, v);
    var colour' := colour[w := 1 - colour[v]];
    ForcedExtend(g, r, colour0, colour, v, e);
    UncolouredShrinks(g, colour, w, 1 - colour[v]);
    forall x | x in colour' && x !in q + [w] && x != v ensures Good(g, colour', x) {
      assert x in colour && Good(g, colour, x);
    }
  }

  /** Two vertices of the component of `r` joined by an edge and given the
      same colour rule out every proper colouring. */
  lemma Conflict(g: Graph, r: Label, colour0: map<Label, int>, colour: map<Label, int>, v: Label, e: Edge)
    requires Colouring(g, colour) && Forced(g, r, colour0, colour)
    requires v in colour && v !in colour0 && Other(e, v) in colour && Other(e, v) !in colour0
    requires e in g.edges && Touches(e, v) && colour[Other(e, v)] == colour[v]
    ensures !Bipartite(g)
  {
    var w := Other(e, v);
    assert forall c :: Proper(g, c) ==> v in c && w in c && c[v] == c[w];
    OtherJoins(e, v);
  }

  /** A neighbour that an earlier component coloured would have made `v`
      coloured too. */
  lemma EarlierComponent(g: Graph, colour0: map<Label, int>, v: Label, e: Edge)
    requires forall x :: x in colour0 ==> Good(g, colour0, x)
    requires e in g.edges && Touches(e, v) && v !in colour0
    ensures Other(e, v) !in colour0
  {
    OtherJoins(e, v);
    JoinsOther(e, v, Other(e, v));
  }

  /** The state of a breadth-first colouring of the component of `r` grown
      from `colour0`: colours kept, the new vertices queued or good, every
      proper colouring in agreement. */
  ghost predicate Growing(g: Graph, r: Label, colour0: map<Label, int>, colour: map<Label, int>, q: seq<Label>) {
    && Colouring(g, colour) && Extends(colour0, colour)
    && r in colour && r !in colour0
    && (forall x :: x in q ==> x in colour && x !in colour0)
    && Forced(g, r, colour0, colour)
  }

  /** The first `j` edges of `es` at `v` lead to vertices of the other colour. */
  ghost predicate Scanned(colour: map<Label, int>, v: Label, es: seq<Edge>, j: nat)
    requires v in colour && j <= |es|
  {
    forall k :: 0 <= k < j ==> Other(es[k], v) in colour && colour[Other(es[k], v)] != colour[v]
  }

  lemma ScannedNext(colour: map<Label, int>, v: Label, es: seq<Edge>, j: nat)
    requires v in colour && j < |es| && Scanned(colour, v, es, j)
    requires Other(es[j], v) in colour && colour[Other(es[j], v)] != colour[v]
    ensures Scanned(colour, v, es, j + 1)
  {
  }

  lemma ExtendsTransitive(a: map<Label, int>, b: map<Label, int>, c: map<Label, int>)
    requires Extends(a, b) && Extends(b, c)
    ensures Extends(a, c)
  {
  }

  /** Colouring the neighbour along the next edge keeps the scan's state. */
  lemma ScanColour(g: Graph, r: Label, colour0: map<Label, int>, colour: map<Label, int>,
                   colour': map<Label, int>, q: seq<Label>, q': seq<Label>, v: Label, es: seq<Edge>, j: nat)
    requires WellFormed(g) && j < |es| && es[j] in g.edges && Touches(es[j], v)
    requires Growing(g, r, colour0, colour', q') && Extends(colour, colour')
    requires v in colour && v in colour' && v !in colour0
    requires forall x :: x in colour' && x !in q' && x != v ==> Good(g, colour', x)
    requires Scanned(colour', v, es, j) && Other(es[j], v) !in colour'
    requires |Uncoloured(g, colour')| <= |Uncoloured(g, colour)|
    ensures var w := Other(es[j], v);
      var colour'' := colour'[w := 1 - colour'[v]];
      && Growing(g, r, colour0, colour'', q' + [w]) && Extends(colour, colour'')
      && (forall x :: x in colour'' && x !in q' + [w] && x != v ==> Good(g, colour'', x))
      && Scanned(colour'', v, es, j + 1)
      && |Uncoloured(g, colour'')| < |Uncoloured(g, colour)|
  {
    var w := Other(es[j], v);
    var colour'' := colour'[w := 1 - colour'[v]];
    ColourStep(g, r, colour0, colour', q', v, es[j]);
    ExtendsTransitive(colour, colour', colour'');
  }

  /** Tries the edges of `v`, just taken off the queue: a neighbour without a
      colour gets the other colour and joins the queue; a neighbour with the
      same colour is a failure. */
  method ColourNeighbours(g: Graph, r: Label, colour0: map<Label, int>, colour: map<Label, int>,
                          q: seq<Label>, v: Label) returns (ok: bool, colour': map<Label, int>, q': seq<Label>)
    requires WellFormed(g) && forall x :: x in colour0 ==> Good(g, colour0, x)
    requires Growing(g, r, colour0, colour, q) && v in colour && v !in colour0
    requires forall x :: x in colour && x !in q && x != v ==> Good(g, colour, x)
    ensures ok ==> Growing(g, r, colour0, colour', q')
    ensures ok ==> forall x :: x in colour' && x !in q' ==> Good(g, colour', x)
    ensures ok ==> |Uncoloured(g, colour')| < |Uncoloured(g, colour)| ||
                   (|Uncoloured(g, colour')| == |Uncoloured(g, colour)| && q' == q)
    ensures !ok ==> !Bipartite(g)
  {
    colour', q' := colour, q;
    var es := IncidentEdges(g, v);
    var j := 0;
    while j < |es|
      invariant j <= |es|
      invariant Growing(g, r, colour0, colour', q') && Extends(colour, colour')
      invariant forall x :: x in colour' && x !in q' && x != v ==> Good(g, colour', x)
      invariant v in colour' && Scanned(colour', v, es, j)
      invariant |Uncoloured(g, colour')| < |Uncoloured(g, colour)| ||
                (|Uncoloured(g, colour')| == |Uncoloured(g, colour)| && q' == q)
    {
      var e := es[j];
      var w := Other(e, v);
      if w !in colour' {
        ScanColour(g, r, colour0, colour, colour', q, q', v, es, j);
        colour' := colour'[w := 1 - colour'[v]];
        q' := q' + [w];
      } else if colour'[w] == colour'[v] {
        EarlierComponent(g, colour0, v, e);
        Conflict(g, r, colour0, colour', v, e);
        return false, colour', q';
      } else {
        ScannedNext(colour', v, es, j);
      }
      j := j + 1;
    }
    GoodAfterScan(g, colour', v, es);
    ok := true;
  }

  /** Once every incident edge of `v` was tried, `v` is good. */
  lemma GoodAfterScan(g: Graph, colour: map<Label, int>, v: Label, es: seq<Edge>)
    requires v in colour && es == IncidentEdges(g, v) && Scanned(colour, v, es, |es|)
    ensures Good(g, colour, v)
  {
    forall e | e in g.edges && Touches(e, v) ensures Other(e, v) in colour && colour[Other(e, v)] != colour[v] {
      var k :| 0 <= k < |es| && es[k] == e;
    }
  }

  /** Colours the component of `r` breadth first: `r` gets 0, each newly
      reached neighbour the colour opposite to the vertex it was reached
      from. Fails at the first edge whose endpoints got the same colour. */
  method ColourComponent(g: Graph, r: Label, colour0: map<Label, int>) returns (ok: bool, colour: map<Label, int>)
    requires WellFormed(g) && r in g.vertices && r !in colour0
    requires Colouring(g, colour0) && forall x :: x in colour0 ==> Good(g, colour0, x)
    ensures ok ==> Colouring(g, colour) && Extends(colour0, colour) && r in colour
    ensures ok ==> forall x :: x in colour ==> Good(g, colour, x)
    ensures !ok ==> !Bipartite(g)
  {
    colour := colour0[r := 0];
    var q := [r];
    while q != []
      invariant Growing(g, r, colour0, colour, q)
      invariant forall x :: x in colour && x !in q ==> Good(g, colour, x)
      decreases |Uncoloured(g, colour)|, |q|
    {
      var v := q[0];
      var rest := q[1..];
      assert forall x :: x in rest ==> x in q;
      assert forall x :: x in q ==> x == v || x in rest;
      ok, colour, q := ColourNeighbours(g, r, colour0, colour, rest, v);
      if !ok {
        return;
      }
    }
    ok := true;
  }

  /** `eh_bipartido`: colours every component in vertex order and answers
      whether no edge ever joined two vertices of the same colour, which
      happens exactly when a proper two-colouring exists. */
  method IsBipartite(g: Graph) returns (b: bool)
    requires WellFormed(g)
    ensures b <==> Bipartite(g)
  {
    var colour: map<Label, int> := map[];
    var i := 0;
    while i < |g.vertices|
      invariant i <= |g.vertices|
      invariant Colouring(g, colour)
      invariant forall x :: x in colour ==> Good(g, colour, x)
      invariant forall k :: 0 <= k < i ==> g.vertices[k] in colour
    {
      var x := g.vertices[i];
      if x !in colour {
        var ok;
        ok, colour := ColourComponent(g, x, colour);
        if !ok {
          return false;
        }
      }
      i := i + 1;
    }
    ProperFromGood(g, colour);
    return true;
  }

  /** Colours on every vertex with every vertex good form a proper colouring. */
  lemma ProperFromGood(g: Graph, colour: map<Label, int>)
    requires WellFormed(g) && Colouring(g, colour)
    requires forall x :: x in g.vertices ==> x in colour
    requires forall x :: x in colour ==> Good(g, colour, x)
    ensures Proper(g, colour)
  {
    forall e | e in g.edges ensures colour[e.v1] != colour[e.v2] {
      assert Touches(e, e.v1);
    }
  }

  /** A loop rules out every proper two-colouring. */
  lemma LoopNotBipartite(g: Graph)
    requires HasLoop(g)
    ensures !Bipartite(g)
  {
    var i :| 0 <= i < |g.edges| && g.edges[i].v1 == g.edges[i].v2;
    assert g.edges[i] in g.edges;
  }
}
