/** The depth-first order in which bundleWithDependencies emits modules. */
module BundleOrder {
  import opened Collections
  import opened Graphs

  /** Module paths stand for themselves as numbers; each has its list of dependencies. */
  type Dependencies = map<nat, seq<nat>>

  ghost predicate Closed(deps: Dependencies) {
    forall m, i :: m in deps && 0 <= i < |deps[m]| ==> deps[m][i] in deps
  }

  ghost function EdgesOf(deps: Dependencies): Graph {
    set m, i | m in deps && 0 <= i < |deps[m]| :: (m, deps[m][i])
  }

  /** What visiting m emits when `visited` has been visited before. */
  function Visit(deps: Dependencies, visited: set<nat>, m: nat): (order: seq<nat>)
    requires Closed(deps) && m in deps
    ensures Elements(order) <= deps.Keys
    decreases deps.Keys - visited, 0
  {
    if m in visited then []
    else VisitAll(deps, visited + {m}, deps[m]) + [m]
  }

  function VisitAll(deps: Dependencies, visited: set<nat>, list: seq<nat>): (order: seq<nat>)
    requires Closed(deps) && forall i :: 0 <= i < |list| ==> list[i] in deps
    ensures Elements(order) <= deps.Keys
    decreases deps.Keys - visited, 1 + |list|
  {
    if list == [] then []
    else
      var first := Visit(deps, visited, list[0]);
      first + VisitAll(deps, visited + Elements(first), list[1..])
  }

  /** What one visit does: it emits, once each, modules not visited before; whatever it was
      asked for is visited afterwards; and it leaves no dependency of an emitted module unvisited. */
  ghost predicate VisitsRight(deps: Dependencies, visited: set<nat>, order: seq<nat>)
  {
    && NoDuplicates(order) && Elements(order) !! visited && Elements(order) <= deps.Keys
    && forall m, i :: m in order && 0 <= i < |deps[m]| ==> deps[m][i] in visited + Elements(order)
  }

  /** Emitted modules are reachable from where the visit started. */
  ghost predicate From(g: Graph, start: nat, order: seq<nat>) {
    forall x :: x in order ==> x == start || Reach(g, start, x)
  }

  /** A dependency of an emitted module was emitted before it or visited already, or depends
      back on it: it is still being visited. */
  ghost predicate DependenciesFirst(deps: Dependencies, done: set<nat>, order: seq<nat>) {
    forall k, i :: 0 <= k < |order| && order[k] in deps && 0 <= i < |deps[order[k]]| ==>
      DependencyFirst(deps, done, order, k, deps[order[k]][i])
  }

  ghost predicate DependencyFirst(deps: Dependencies, done: set<nat>, order: seq<nat>, k: nat, d: nat)
    requires k < |order|
  {
    d in done || d in order[..k] || d == order[k] || Reach(EdgesOf(deps), d, order[k])
  }

  /** Modules whose visit has begun but not ended all lead to m. */
  ghost predicate StackLeadsTo(g: Graph, stack: set<nat>, m: nat) {
    forall s :: s in stack ==> Reach(g, s, m)
  }

  lemma EdgeOf(deps: Dependencies, m: nat, i: nat)
    requires m in deps && i < |deps[m]|
    ensures (m, deps[m][i]) in EdgesOf(deps)
  {}

  lemma AppendKeepsFirst(deps: Dependencies, done: set<nat>, a: seq<nat>, b: seq<nat>)
    requires DependenciesFirst(deps, done, a) && DependenciesFirst(deps, done + Elements(a), b)
    ensures DependenciesFirst(deps, done, a + b)
  {
    var o := a + b;
    forall k, i | 0 <= k < |o| && o[k] in deps && 0 <= i < |deps[o[k]]|
      ensures DependencyFirst(deps, done, o, k, deps[o[k]][i])
    {
      var d := deps[o[k]][i];
      if k < |a| {
        assert DependencyFirst(deps, done, a, k, d);
        assert o[..k] == a[..k];
      } else {
        assert DependencyFirst(deps, done + Elements(a), b, k - |a|, d);
        assert o[..k] == a + b[..k - |a|];
      }
    }
  }

  lemma AppendVisitsRight(deps: Dependencies, visited: set<nat>, a: seq<nat>, b: seq<nat>)
    requires VisitsRight(deps, visited, a) && VisitsRight(deps, visited + Elements(a), b)
    ensures VisitsRight(deps, visited, a + b)
  {
    ElementsConcat(a, b);
    forall i, j | 0 <= i < j < |a + b| ensures (a + b)[i] != (a + b)[j] {
      if i < |a| <= j {
        assert a[i] in Elements(a) && b[j - |a|] in Elements(b);
      }
    }
  }

  /** The visit of m, with `done` emitted and `stack` under way. */
  lemma {:induction false} VisitIsRight(deps: Dependencies, done: set<nat>, stack: set<nat>, m: nat)
    requires Closed(deps) && m in deps && StackLeadsTo(EdgesOf(deps), stack, m)
    ensures VisitsRight(deps, done + stack, Visit(deps, done + stack, m))
    ensures m in done + stack + Elements(Visit(deps, done + stack, m))
    ensures From(EdgesOf(deps), m, Visit(deps, done + stack, m))
    ensures DependenciesFirst(deps, done, Visit(deps, done + stack, m))
    decreases deps.Keys - (done + stack), 0
  {
    var visited := done + stack;
    if m !in visited {
      var below := VisitAll(deps, visited + {m}, deps[m]);
      var stack' := stack + {m};
      assert done + stack' == visited + {m};
      forall i, s | 0 <= i < |deps[m]| && s in stack' ensures Reach(EdgesOf(deps), s, deps[m][i]) {
        EdgeOf(deps, m, i);
        ReachEdge(EdgesOf(deps), m, deps[m][i]);
        if s != m { ReachTrans(EdgesOf(deps), s, m, deps[m][i]); }
      }
      VisitAllIsRight(deps, done, stack', deps[m]);
      FinishVisit(deps, done, stack, m, below);
    }
  }

  lemma FinishVisit(deps: Dependencies, done: set<nat>, stack: set<nat>, m: nat, below: seq<nat>)
    requires m in deps && m !in done + stack && StackLeadsTo(EdgesOf(deps), stack, m)
    requires VisitsRight(deps, done + stack + {m}, below)
    requires forall i :: 0 <= i < |deps[m]| ==> deps[m][i] in done + stack + {m} + Elements(below)
    requires forall x :: x in below ==>
               exists i :: 0 <= i < |deps[m]| && (x == deps[m][i] || Reach(EdgesOf(deps), deps[m][i], x))
    requires DependenciesFirst(deps, done, below)
    ensures VisitsRight(deps, done + stack, below + [m])
    ensures From(EdgesOf(deps), m, below + [m])
    ensures DependenciesFirst(deps, done, below + [m])
  {
    var o := below + [m];
    ElementsConcat(below, [m]);
    forall x | x in o ensures x == m || Reach(EdgesOf(deps), m, x) {
      if x != m {
        var i :| 0 <= i < |deps[m]| && (x == deps[m][i] || Reach(EdgesOf(deps), deps[m][i], x));
        EdgeOf(deps, m, i);
        ReachEdge(EdgesOf(deps), m, deps[m][i]);
        if x != deps[m][i] { ReachTrans(EdgesOf(deps), m, deps[m][i], x); }
      }
    }
    forall k, i | 0 <= k < |o| && o[k] in deps && 0 <= i < |deps[o[k]]|
      ensures DependencyFirst(deps, done, o, k, deps[o[k]][i])
    {
      var d := deps[o[k]][i];
      if k < |below| {
        assert DependencyFirst(deps, done, below, k, d);
        assert o[..k] == below[..k];
      } else {
        assert o[..k] == below;
      }
    }
  }

  lemma {:induction false} VisitAllIsRight(deps: Dependencies, done: set<nat>, stack: set<nat>, list: seq<nat>)
    requires Closed(deps)
    requires forall i :: 0 <= i < |list| ==> list[i] in deps && StackLeadsTo(EdgesOf(deps), stack, list[i])
    ensures VisitsRight(deps, done + stack, VisitAll(deps, done + stack, list))
    ensures forall i :: 0 <= i < |list| ==> list[i] in done + stack + Elements(VisitAll(deps, done + stack, list))
    ensures forall x :: x in VisitAll(deps, done + stack, list) ==>
              exists i :: 0 <= i < |list| && (x == list[i] || Reach(EdgesOf(deps), list[i], x))
    ensures DependenciesFirst(deps, done, VisitAll(deps, done + stack, list))
    decreases deps.Keys - (done + stack), 1 + |list|
  {
    if list != [] {
      var first := Visit(deps, done + stack, list[0]);
      VisitIsRight(deps, done, stack, list[0]);
      var done' := done + Elements(first);
      assert done' + stack == done + stack + Elements(first);
      VisitAllIsRight(deps, done', stack, list[1..]);
      var rest := VisitAll(deps, done' + stack, list[1..]);
      AppendVisitsRight(deps, done + stack, first, rest);
      AppendKeepsFirst(deps, done, first, rest);
      ElementsConcat(first, rest);
      forall x | x in first + rest
        ensures exists i :: 0 <= i < |list| && (x == list[i] || Reach(EdgesOf(deps), list[i], x))
      {
        if x in first {
          assert x == list[0] || Reach(EdgesOf(deps), list[0], x);
        } else {
          var j :| 0 <= j < |list[1..]| && (x == list[1..][j] || Reach(EdgesOf(deps), list[1..][j], x));
          assert list[1..][j] == list[j + 1];
        }
      }
    }
  }

  /** The bundle holds exactly the modules reachable from the entry, each once; and a dependency
      comes before its dependent unless it depends back on it. */
  lemma BundleOrderIsRight(deps: Dependencies, entry: nat)
    requires Closed(deps) && entry in deps
    ensures NoDuplicates(Visit(deps, {}, entry))
    ensures forall x :: x in Visit(deps, {}, entry) <==> x == entry || Reach(EdgesOf(deps), entry, x)
    ensures DependenciesFirst(deps, {}, Visit(deps, {}, entry))
  {
    var order := Visit(deps, {}, entry);
    var none: set<nat> := {};
    assert none + none == none;
    VisitIsRight(deps, none, none, entry);
    forall x | x == entry || Reach(EdgesOf(deps), entry, x) ensures x in order {
      if x != entry {
        var mid :| Walk(EdgesOf(deps), entry, mid, x);
        ClosedCapturesWalk(EdgesOf(deps), Elements(order), entry, mid, x);
      }
    }
  }

  /** On an acyclic graph every dependency comes before its dependent. */
  lemma AcyclicBundleOrder(deps: Dependencies, entry: nat, k: nat, i: nat)
    requires Closed(deps) && entry in deps && Acyclic(EdgesOf(deps))
    requires k < |Visit(deps, {}, entry)| && i < |deps[Visit(deps, {}, entry)[k]]|
    ensures deps[Visit(deps, {}, entry)[k]][i] in Visit(deps, {}, entry)[..k]
  {
    var order := Visit(deps, {}, entry);
    BundleOrderIsRight(deps, entry);
    var d := deps[order[k]][i];
    assert DependencyFirst(deps, {}, order, k, d);
    EdgeOf(deps, order[k], i);
    ReachEdge(EdgesOf(deps), order[k], d);
    if Reach(EdgesOf(deps), d, order[k]) { ReachTrans(EdgesOf(deps), d, order[k], d); }
  }

  lemma {:induction false} VisitAllConcat(deps: Dependencies, visited: set<nat>, a: seq<nat>, b: seq<nat>)
    requires Closed(deps) && forall i :: 0 <= i < |a| ==> a[i] in deps
    requires forall i :: 0 <= i < |b| ==> b[i] in deps
    ensures VisitAll(deps, visited, a + b) ==
            VisitAll(deps, visited, a) + VisitAll(deps, visited + Elements(VisitAll(deps, visited, a)), b)
    decreases |a|
  {
    if a == [] {
      assert a + b == b && visited + Elements(VisitAll(deps, visited, a)) == visited;
    } else {
      var first := Visit(deps, visited, a[0]);
      var visited' := visited + Elements(first);
      VisitAllConcat(deps, visited', a[1..], b);
      assert (a + b)[1..] == a[1..] + b;
      ElementsConcat(first, VisitAll(deps, visited', a[1..]));
      assert visited' + Elements(VisitAll(deps, visited', a[1..])) == visited + Elements(VisitAll(deps, visited, a));
    }
  }

  /** What the entry's first n dependencies contribute comes first in the bundle. */
  lemma FirstDependencies(deps: Dependencies, entry: nat, n: nat) returns (a: seq<nat>)
    requires Closed(deps) && entry in deps && n <= |deps[entry]|
    ensures a <= Visit(deps, {}, entry)
    ensures forall k :: 0 <= k < n ==> deps[entry][k] == entry || deps[entry][k] in a
    ensures forall x :: x in a ==>
              exists k :: 0 <= k < n && (x == deps[entry][k] || Reach(EdgesOf(deps), deps[entry][k], x))
  {
    var list, none: set<nat> := deps[entry], {};
    var upto := list[..n];
    forall k | 0 <= k < n ensures upto[k] in deps && StackLeadsTo(EdgesOf(deps), {entry}, upto[k]) {
      EdgeOf(deps, entry, k);
      ReachEdge(EdgesOf(deps), entry, upto[k]);
    }
    VisitAllIsRight(deps, none, {entry}, upto);
    assert none + {entry} == {entry};
    a := VisitAll(deps, {entry}, upto);
    PrefixOfVisit(deps, entry, n);
    forall k | 0 <= k < n ensures list[k] == entry || list[k] in a { assert upto[k] in {entry} + Elements(a); }
  }

  lemma PrefixOfVisit(deps: Dependencies, entry: nat, n: nat)
    requires Closed(deps) && entry in deps && n <= |deps[entry]|
    ensures VisitAll(deps, {entry}, deps[entry][..n]) <= Visit(deps, {}, entry)
  {
    var list := deps[entry];
    assert list == list[..n] + list[n..] && {} + {entry} == {entry};
    VisitAllConcat(deps, {entry}, list[..n], list[n..]);
  }

  /** The dependencies of the entry come in the order it lists them: one before another that is listed
      after it, unless a dependency listed up to there leads to that other one. */
  lemma SiblingsInOrder(deps: Dependencies, entry: nat, i: nat, j: nat) returns (cut: nat)
    requires Closed(deps) && entry in deps && i < j < |deps[entry]| && deps[entry][i] != entry
    requires forall k :: 0 <= k <= i ==> deps[entry][k] != deps[entry][j]
    requires forall k :: 0 <= k <= i ==> !Reach(EdgesOf(deps), deps[entry][k], deps[entry][j])
    ensures cut <= |Visit(deps, {}, entry)|
    ensures deps[entry][i] in Visit(deps, {}, entry)[..cut] && deps[entry][j] in Visit(deps, {}, entry)[cut..]
  {
    var order := Visit(deps, {}, entry);
    var a := FirstDependencies(deps, entry, i + 1);
    cut := |a|;
    EdgeOf(deps, entry, j);
    ReachEdge(EdgesOf(deps), entry, deps[entry][j]);
    BundleOrderIsRight(deps, entry);
    assert order == a + order[cut..];
  }
}
