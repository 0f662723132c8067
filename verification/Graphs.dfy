/** Finite directed graphs, walks, and the two facts about them the module loader rests on:
    adding an edge that closes no walk keeps a graph acyclic, and following edges of an
    acyclic graph strictly shrinks what is reachable. */
module Graphs {

  type Graph = set<(nat, nat)>

  /** A walk from a to b of at least one edge; mid lists the vertices strictly in between. */
  ghost predicate Walk(g: Graph, a: nat, mid: seq<nat>, b: nat)
    decreases |mid|
  {
    if mid == [] then (a, b) in g
    else (a, mid[0]) in g && Walk(g, mid[0], mid[1..], b)
  }

  ghost predicate Reach(g: Graph, a: nat, b: nat) {
    exists mid :: Walk(g, a, mid, b)
  }

  ghost predicate Acyclic(g: Graph) {
    forall v: nat :: !Reach(g, v, v)
  }

  lemma ReachEdge(g: Graph, a: nat, b: nat)
    requires (a, b) in g
    ensures Reach(g, a, b)
  {
    assert Walk(g, a, [], b);
  }

  lemma {:induction false} WalkConcat(g: Graph, a: nat, m1: seq<nat>, b: nat, m2: seq<nat>, c: nat)
    requires Walk(g, a, m1, b) && Walk(g, b, m2, c)
    ensures Walk(g, a, m1 + [b] + m2, c)
    decreases |m1|
  {
    if m1 == [] {
      assert (m1 + [b] + m2)[1..] == m2;
    } else {
      WalkConcat(g, m1[0], m1[1..], b, m2, c);
      assert (m1 + [b] + m2)[1..] == m1[1..] + [b] + m2;
    }
  }

  lemma ReachTrans(g: Graph, a: nat, b: nat, c: nat)
    requires Reach(g, a, b) && Reach(g, b, c)
    ensures Reach(g, a, c)
  {
    var m1 :| Walk(g, a, m1, b);
    var m2 :| Walk(g, b, m2, c);
    WalkConcat(g, a, m1, b, m2, c);
  }

  lemma {:induction false} WalkMonotone(g: Graph, h: Graph, a: nat, mid: seq<nat>, b: nat)
    requires g <= h && Walk(g, a, mid, b)
    ensures Walk(h, a, mid, b)
    decreases |mid|
  {
    if mid != [] {
      WalkMonotone(g, h, mid[0], mid[1..], b);
    }
  }

  lemma ReachMonotone(g: Graph, h: Graph, a: nat, b: nat)
    requires g <= h && Reach(g, a, b)
    ensures Reach(h, a, b)
  {
    var mid :| Walk(g, a, mid, b);
    WalkMonotone(g, h, a, mid, b);
  }

  /** A set that contains the successors of each of its members captures every walk from it. */
  lemma {:induction false} ClosedCapturesWalk(g: Graph, closed: set<nat>, a: nat, mid: seq<nat>, b: nat)
    requires forall x, y :: (x, y) in g && x in closed ==> y in closed
    requires a in closed && Walk(g, a, mid, b)
    ensures b in closed
    decreases |mid|
  {
    if mid != [] {
      ClosedCapturesWalk(g, closed, mid[0], mid[1..], b);
    }
  }

  /** Where a walk that may use one extra edge can go. */
  lemma {:induction false} WalkWithExtraEdge(g: Graph, m: nat, d: nat, x: nat, mid: seq<nat>, y: nat)
    requires Walk(g + {(m, d)}, x, mid, y)
    ensures Reach(g, x, y) || ((x == m || Reach(g, x, m)) && (d == y || Reach(g, d, y)))
    decreases |mid|
  {
    var z := if mid == [] then y else mid[0];
    if mid != [] {
      WalkWithExtraEdge(g, m, d, z, mid[1..], y);
    }
    if (x, z) in g {
      ReachEdge(g, x, z);
      if z != y && Reach(g, z, y) { ReachTrans(g, x, z, y); }
      if Reach(g, z, y) { ReachTrans(g, x, z, y); }
      if Reach(g, z, m) { ReachTrans(g, x, z, m); }
    }
  }

  /** Adding the edge (m, d) when no walk leads from d back to m creates no cycle. */
  lemma AcyclicAddEdge(g: Graph, m: nat, d: nat)
    requires Acyclic(g) && m != d && !Reach(g, d, m)
    ensures Acyclic(g + {(m, d)})
  {
    forall v: nat ensures !Reach(g + {(m, d)}, v, v) {
      if Reach(g + {(m, d)}, v, v) {
        var mid :| Walk(g + {(m, d)}, v, mid, v);
        WalkWithExtraEdge(g, m, d, v, mid, v);
        if v != m && v != d { ReachTrans(g, d, v, m); }
      }
    }
  }

  lemma AcyclicSubgraph(g: Graph, h: Graph)
    requires g <= h && Acyclic(h)
    ensures Acyclic(g)
  {
    forall v: nat ensures !Reach(g, v, v) {
      if Reach(g, v, v) { ReachMonotone(g, h, v, v); }
    }
  }

  /** The vertices reachable from a. */
  ghost function Below(g: Graph, a: nat): set<nat> {
    set e | e in g && Reach(g, a, e.1) :: e.1
  }

  lemma {:induction false} WalkEndsInTarget(g: Graph, a: nat, mid: seq<nat>, b: nat)
    requires Walk(g, a, mid, b)
    ensures exists e :: e in g && e.1 == b
    decreases |mid|
  {
    if mid == [] {
      assert (a, b) in g && (a, b).1 == b;
    } else {
      WalkEndsInTarget(g, mid[0], mid[1..], b);
    }
  }

  lemma InBelow(g: Graph, a: nat, b: nat)
    ensures b in Below(g, a) <==> Reach(g, a, b)
  {
    if Reach(g, a, b) {
      var mid :| Walk(g, a, mid, b);
      WalkEndsInTarget(g, a, mid, b);
    }
  }

  /** Along an edge to a vertex on no cycle the reachable set shrinks strictly. */
  lemma BelowShrinks(g: Graph, a: nat, b: nat)
    requires !Reach(g, b, b) && (a, b) in g
    ensures Below(g, b) < Below(g, a)
  {
    ReachEdge(g, a, b);
    forall v | v in Below(g, b) ensures v in Below(g, a) {
      InBelow(g, b, v);
      ReachTrans(g, a, b, v);
      InBelow(g, a, v);
    }
    InBelow(g, a, b);
    InBelow(g, b, b);
  }

  /** A numbering that falls along every edge rules out cycles. */
  lemma {:induction false} WalkDescends(g: Graph, rank: nat -> nat, a: nat, mid: seq<nat>, b: nat)
    requires forall x, y :: (x, y) in g ==> rank(y) < rank(x)
    requires Walk(g, a, mid, b)
    ensures rank(b) < rank(a)
    decreases |mid|
  {
    if mid != [] {
      WalkDescends(g, rank, mid[0], mid[1..], b);
    }
  }
}
