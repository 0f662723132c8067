/** bundleWithDependencies: a depth-first walk that hands the modules to a source map builder. */
module Bundlers {
  import opened Collections
  import opened Options
  import opened SourceMaps
  import opened SourceMapMeaning
  import opened SourceMapCopying
  import opened SourceMapBuilders
  import opened BundleOrder

  /** A module as the loader keeps it; dependencies that could not be loaded are left out. */
  datatype LoadedModule = LoadedModule(dependencyRequests: seq<string>, dependencies: seq<nat>, source: Source)

  type ModuleGraph = map<nat, LoadedModule>

  function DependenciesOf(g: ModuleGraph): Dependencies {
    map m | m in g :: g[m].dependencies
  }

  ghost predicate ValidGraph(g: ModuleGraph) {
    Closed(DependenciesOf(g)) && forall m :: m in g ==> g[m].source.Valid()
  }

  // ---- What a sequence of sources adds up to ----

  function Contents(sources: seq<Source>): seq<Byte> {
    if sources == [] then [] else sources[0].content + Contents(sources[1..])
  }

  function Names(sources: seq<Source>, names: seq<string>): seq<string>
    decreases |sources|
  {
    if sources == [] then names else Names(sources[1..], AddNames(names, sources[0].sourceMap.sources))
  }

  function Lines(sources: seq<Source>): nat {
    if sources == [] then 0 else sources[0].sourceLines + Lines(sources[1..])
  }

  /** What the maps of the sources say, each moved down by the lines before it. */
  function Meanings(sources: seq<Source>, shift: nat): seq<Located>
    decreases |sources|
  {
    if sources == [] then []
    else SourceMeaning(sources[0].sourceMap, shift) + Meanings(sources[1..], shift + sources[0].sourceLines)
  }

  /** Copying the maps of the sources one after the other. */
  function Draw(pen: Pen, sources: seq<Source>, names: seq<string>): Pen
    decreases |sources|
  {
    if sources == [] then pen
    else
      var merged := AddNames(names, sources[0].sourceMap.sources);
      Draw(DrawOne(pen, sources[0], merged), sources[1..], merged)
  }

  function DrawOne(pen: Pen, source: Source, merged: seq<string>): Pen {
    CopyMap(pen, source.sourceMap.mappings, source.sourceLines, RemapOf(merged, source.sourceMap.sources))
  }

  lemma {:induction false} DrawConcat(pen: Pen, a: seq<Source>, b: seq<Source>, names: seq<string>)
    ensures Draw(pen, a + b, names) == Draw(Draw(pen, a, names), b, Names(a, names))
    decreases |a|
  {
    if a == [] {
      assert a + b == b;
    } else {
      assert (a + b)[1..] == a[1..] + b;
      var merged := AddNames(names, a[0].sourceMap.sources);
      DrawConcat(DrawOne(pen, a[0], merged), a[1..], b, merged);
    }
  }

  ghost predicate AllWellFormed(sources: seq<Source>) {
    forall i :: 0 <= i < |sources| ==> WellFormed(sources[i].sourceMap, sources[i].sourceLines)
  }

  lemma {:induction false} ContentsConcat(a: seq<Source>, b: seq<Source>)
    ensures Contents(a + b) == Contents(a) + Contents(b) && Lines(a + b) == Lines(a) + Lines(b)
    decreases |a|
  {
    if a == [] {
      assert a + b == b;
    } else {
      assert (a + b)[1..] == a[1..] + b;
      ContentsConcat(a[1..], b);
    }
  }

  lemma {:induction false} NamesConcat(a: seq<Source>, b: seq<Source>, names: seq<string>)
    ensures Names(a + b, names) == Names(b, Names(a, names))
    decreases |a|
  {
    if a == [] {
      assert a + b == b;
    } else {
      assert (a + b)[1..] == a[1..] + b;
      NamesConcat(a[1..], b, AddNames(names, a[0].sourceMap.sources));
    }
  }

  lemma {:induction false} MeaningsConcat(a: seq<Source>, b: seq<Source>, shift: nat)
    ensures Meanings(a + b, shift) == Meanings(a, shift) + Meanings(b, shift + Lines(a))
    decreases |a|
  {
    if a == [] {
      assert a + b == b;
    } else {
      assert (a + b)[1..] == a[1..] + b && (a + b)[0] == a[0];
      var next := shift + a[0].sourceLines;
      MeaningsConcat(a[1..], b, next);
      assert Lines(a) == a[0].sourceLines + Lines(a[1..]);
      ConcatAssoc(SourceMeaning(a[0].sourceMap, shift), Meanings(a[1..], next), Meanings(b, shift + Lines(a)));
    }
  }

  lemma {:induction false} AddNamesGrows(names: seq<string>, more: seq<string>)
    ensures |names| <= |AddNames(names, more)|
    decreases |more|
  {
    if more != [] { AddNamesGrows(if more[0] in names then names else names + [more[0]], more[1..]); }
  }

  lemma {:induction false} NamesGrow(sources: seq<Source>, names: seq<string>)
    ensures |names| <= |Names(sources, names)|
    decreases |sources|
  {
    if sources != [] {
      AddNamesGrows(names, sources[0].sourceMap.sources);
      NamesGrow(sources[1..], AddNames(names, sources[0].sourceMap.sources));
    }
  }

  /** The sources of the modules in some order. */
  function Picked(g: ModuleGraph, order: seq<nat>): seq<Source>
    requires Elements(order) <= g.Keys
  {
    seq(|order|, i requires 0 <= i < |order| => assert order[i] in Elements(order); g[order[i]].source)
  }

  /** What a builder holds. */
  datatype Snapshot = Snapshot(output: seq<Byte>, lines: nat, names: seq<string>, good: bool, meaning: seq<Located>,
                               pen: Pen)

  const NOTHING := Snapshot([], 0, [], true, [], FRESH_PEN)

  /** after is before with the given sources added. */
  ghost predicate Extends(before: Snapshot, after: Snapshot, sources: seq<Source>) {
    && after.output == before.output + Contents(sources)
    && after.lines == before.lines + Lines(sources)
    && after.names == Names(sources, before.names)
    && after.pen == Draw(before.pen, sources, before.names)
    && MeansMore(before, after, sources)
  }

  ghost predicate MeansMore(before: Snapshot, after: Snapshot, sources: seq<Source>) {
    before.good && AllWellFormed(sources) && |after.names| <= LIMIT ==>
      after.good && after.meaning == before.meaning + Meanings(sources, before.lines)
  }

  lemma ExtendsTrans(s: Snapshot, t: Snapshot, u: Snapshot, a: seq<Source>, b: seq<Source>)
    requires Extends(s, t, a) && Extends(t, u, b)
    ensures Extends(s, u, a + b)
  {
    ExtendsOutput(s.output, t.output, u.output, a, b);
    NamesConcat(a, b, s.names);
    ExtendsPen(s.pen, t.pen, u.pen, a, b, s.names);
    NamesGrow(b, t.names);
    MeansMoreTrans(s, t, u, a, b);
  }

  lemma MeansMoreTrans(s: Snapshot, t: Snapshot, u: Snapshot, a: seq<Source>, b: seq<Source>)
    requires t.lines == s.lines + Lines(a) && |t.names| <= |u.names|
    requires MeansMore(s, t, a) && MeansMore(t, u, b)
    ensures MeansMore(s, u, a + b)
  {
    if s.good && AllWellFormed(a + b) && |u.names| <= LIMIT {
      WellFormedParts(a, b);
      ExtendsMeaning(s.meaning, t.meaning, u.meaning, a, b, s.lines);
    }
  }

  lemma ExtendsOutput(s: seq<Byte>, t: seq<Byte>, u: seq<Byte>, a: seq<Source>, b: seq<Source>)
    requires t == s + Contents(a) && u == t + Contents(b)
    ensures u == s + Contents(a + b) && Lines(a + b) == Lines(a) + Lines(b)
  {
    ContentsConcat(a, b);
    ConcatAssoc(s, Contents(a), Contents(b));
  }

  lemma ExtendsPen(s: Pen, t: Pen, u: Pen, a: seq<Source>, b: seq<Source>, names: seq<string>)
    requires t == Draw(s, a, names) && u == Draw(t, b, Names(a, names))
    ensures u == Draw(s, a + b, names)
  {
    DrawConcat(s, a, b, names);
  }

  lemma ExtendsMeaning(s: seq<Located>, t: seq<Located>, u: seq<Located>, a: seq<Source>, b: seq<Source>, lines: nat)
    requires t == s + Meanings(a, lines) && u == t + Meanings(b, lines + Lines(a))
    ensures u == s + Meanings(a + b, lines)
  {
    MeaningsConcat(a, b, lines);
    ConcatAssoc(s, Meanings(a, lines), Meanings(b, lines + Lines(a)));
  }

  lemma WellFormedParts(a: seq<Source>, b: seq<Source>)
    ensures AllWellFormed(a + b) ==> AllWellFormed(a) && AllWellFormed(b)
  {
    assert forall i :: 0 <= i < |a| ==> (a + b)[i] == a[i];
    assert forall i :: 0 <= i < |b| ==> (a + b)[|a| + i] == b[i];
  }

  lemma ExtendsNothing(s: Snapshot)
    ensures Extends(s, s, [])
  {}

  ghost function Held(builder: SourceMapBuilder): Snapshot
    requires builder.Valid()
    reads builder, builder.outputBuffer, builder.outputBuffer.buffer, builder.mappings, builder.mappings.buffer
  {
    Snapshot(builder.Output(), CountNewlines(builder.Output()), builder.sources, builder.Good(), builder.Meaning(),
             builder.PenNow())
  }

  /** A source map the builder does not throw on. */
  predicate ReadableMap(source: Source) {
    forall i :: 0 <= i < |source.sourceMap.mappings| ==> SourceMapBuilder.Readable(source.sourceMap.mappings[i])
  }

  predicate AllReadable(sources: seq<Source>) {
    forall i :: 0 <= i < |sources| ==> ReadableMap(sources[i])
  }

  lemma AllReadableConcat(a: seq<Source>, b: seq<Source>)
    ensures AllReadable(a + b) <==> AllReadable(a) && AllReadable(b)
  {
    assert forall i :: 0 <= i < |a| ==> (a + b)[i] == a[i];
    assert forall i :: 0 <= i < |b| ==> (a + b)[|a| + i] == b[i];
  }

  lemma PickedConcat(g: ModuleGraph, a: seq<nat>, b: seq<nat>)
    requires Elements(a) <= g.Keys && Elements(b) <= g.Keys
    ensures Elements(a + b) <= g.Keys && Picked(g, a + b) == Picked(g, a) + Picked(g, b)
  {
    ElementsConcat(a, b);
  }

  method AppendSource(builder: SourceMapBuilder, source: Source) returns (ok: bool)
    requires builder.Valid() && source.Valid()
    modifies builder, builder.outputBuffer, builder.outputBuffer.buffer, builder.mappings, builder.mappings.buffer
    ensures ok <==> AllReadable([source])
    ensures builder.Valid() && (ok ==> Extends(old(Held(builder)), Held(builder), [source]))
    ensures builder.mappings.buffer == old(builder.mappings.buffer) || fresh(builder.mappings.buffer)
    ensures builder.outputBuffer.buffer == old(builder.outputBuffer.buffer) || fresh(builder.outputBuffer.buffer)
  {
    CountConcat(builder.Output(), source.content);
    ok := builder.AddSource(source);
    assert Draw(old(builder.PenNow()), [source], old(builder.sources))
        == DrawOne(old(builder.PenNow()), source, AddNames(old(builder.sources), source.sourceMap.sources));
    assert AllReadable([source]) <==> ReadableMap([source][0]);
    assert Contents([source]) == source.content;
    assert Names([source], old(builder.sources)) == AddNames(old(builder.sources), source.sourceMap.sources);
    assert Meanings([source], CountNewlines(old(builder.Output())))
        == SourceMeaning(source.sourceMap, CountNewlines(old(builder.Output())));
    assert AllWellFormed([source]) ==> WellFormed([source][0].sourceMap, [source][0].sourceLines);
  }

  /** What a visit emits, given what has been visited before. */
  function Emitted(g: ModuleGraph, visited: set<nat>, m: nat): seq<Source>
    requires Closed(DependenciesOf(g)) && m in g
  {
    Picked(g, Visit(DependenciesOf(g), visited, m))
  }

  function EmittedAll(g: ModuleGraph, visited: set<nat>, list: seq<nat>): seq<Source>
    requires Closed(DependenciesOf(g)) && forall i :: 0 <= i < |list| ==> list[i] in g
  {
    Picked(g, VisitAll(DependenciesOf(g), visited, list))
  }

  /** The builder has been given n of these sources: all of them, or those before the first it
      throws on. */
  ghost predicate FedUpTo(before: Snapshot, after: Snapshot, sources: seq<Source>, ok: bool, n: nat) {
    && n <= |sources| && AllReadable(sources[..n])
    && if ok then n == |sources| && Extends(before, after, sources) else n < |sources| && !ReadableMap(sources[n])
  }

  ghost predicate Fed(before: Snapshot, after: Snapshot, sources: seq<Source>, ok: bool) {
    exists n: nat :: FedUpTo(before, after, sources, ok, n)
  }

  lemma FedMeans(s: Snapshot, t: Snapshot, sources: seq<Source>, ok: bool)
    requires Fed(s, t, sources, ok)
    ensures (ok <==> AllReadable(sources)) && (ok ==> Extends(s, t, sources))
  {
    var n: nat :| FedUpTo(s, t, sources, ok, n);
    assert sources[..|sources|] == sources;
  }

  lemma FedNothing(s: Snapshot)
    ensures Fed(s, s, [], true)
  {
    ExtendsNothing(s);
    assert FedUpTo(s, s, [], true, 0);
  }

  lemma FedOne(s: Snapshot, t: Snapshot, source: Source, ok: bool)
    requires (ok <==> AllReadable([source])) && (ok ==> Extends(s, t, [source]))
    ensures Fed(s, t, [source], ok)
  {
    assert [source][..1] == [source] && [source][..0] == [];
    assert FedUpTo(s, t, [source], ok, if ok then 1 else 0);
  }

  lemma FedMore(s: Snapshot, t: Snapshot, u: Snapshot, a: seq<Source>, b: seq<Source>, ok: bool)
    requires Fed(s, t, a, true) && Fed(t, u, b, ok)
    ensures Fed(s, u, a + b, ok)
  {
    FedMeans(s, t, a, true);
    var n: nat :| FedUpTo(t, u, b, ok, n);
    AllReadableConcat(a, b[..n]);
    assert (a + b)[..|a| + n] == a + b[..n];
    if ok { ExtendsTrans(s, t, u, a, b); } else { assert (a + b)[|a| + n] == b[n]; }
    assert FedUpTo(s, u, a + b, ok, |a| + n);
  }

  /** Once the builder has thrown, nothing that would have followed matters. */
  lemma FedNoFurther(s: Snapshot, t: Snapshot, a: seq<Source>, b: seq<Source>)
    requires Fed(s, t, a, false)
    ensures Fed(s, t, a + b, false)
  {
    var n: nat :| FedUpTo(s, t, a, false, n);
    assert (a + b)[..n] == a[..n] && (a + b)[n] == a[n];
    assert FedUpTo(s, t, a + b, false, n);
  }

  /** The walk of bundleWithDependencies: the modules visited and the builder it feeds. */
  class Walker {
    var visited: set<nat>
    const builder: SourceMapBuilder

    constructor ()
      ensures visited == {} && fresh(builder) && fresh(builder.outputBuffer) && fresh(builder.outputBuffer.buffer)
      ensures fresh(builder.mappings) && fresh(builder.mappings.buffer)
      ensures builder.Valid() && Held(builder) == NOTHING
    {
      visited := {};
      builder := new SourceMapBuilder();
      new;
      assert LocateAll([], [], 0) == [];
    }

    /** visit: the module's dependencies first, then its own source; false if the builder threw. */
    method VisitModule(g: ModuleGraph, m: nat) returns (ok: bool)
      requires ValidGraph(g) && m in g && builder.Valid()
      modifies this, builder, builder.outputBuffer, builder.outputBuffer.buffer, builder.mappings,
               builder.mappings.buffer
      ensures builder.Valid() && Fed(old(Held(builder)), Held(builder), Emitted(g, old(visited), m), ok)
      ensures ok ==> visited == old(visited) + Elements(Visit(DependenciesOf(g), old(visited), m))
      ensures builder.mappings.buffer == old(builder.mappings.buffer) || fresh(builder.mappings.buffer)
      ensures builder.outputBuffer.buffer == old(builder.outputBuffer.buffer) || fresh(builder.outputBuffer.buffer)
      decreases g.Keys - visited, 0
    {
      ghost var start := Held(builder);
      if m in visited {
        FedAlready(g, visited, m, start);
        return true;
      }
      assert DependenciesOf(g)[m] == g[m].dependencies;
      ghost var below := VisitAll(DependenciesOf(g), visited + {m}, g[m].dependencies);
      VisitStep(g, visited, m, below);
      visited := visited + {m};
      ok := VisitDependencies(g, g[m].dependencies);
      ghost var middle := Held(builder);
      if !ok {
        FedNoFurther(start, middle, Picked(g, below), [g[m].source]);
        return;
      }
      ok := FeedSource(g[m].source, start, Picked(g, below));
      ElementsConcat(below, [m]);
    }

    /** One more source, after `fed`. */
    method FeedSource(source: Source, ghost start: Snapshot, ghost fed: seq<Source>) returns (ok: bool)
      requires builder.Valid() && source.Valid() && Fed(start, Held(builder), fed, true)
      modifies builder, builder.outputBuffer, builder.outputBuffer.buffer, builder.mappings, builder.mappings.buffer
      ensures builder.Valid() && Fed(start, Held(builder), fed + [source], ok)
      ensures builder.mappings.buffer == old(builder.mappings.buffer) || fresh(builder.mappings.buffer)
      ensures builder.outputBuffer.buffer == old(builder.outputBuffer.buffer) || fresh(builder.outputBuffer.buffer)
    {
      ghost var middle := Held(builder);
      ok := AppendSource(builder, source);
      FedOne(middle, Held(builder), source, ok);
      FedMore(start, middle, Held(builder), fed, [source], ok);
    }

    /** Where the loop over a list of dependencies stands: `emitted` has been fed. */
    ghost predicate FedSoFar(g: ModuleGraph, list: seq<nat>, i: nat, before: set<nat>, start: Snapshot,
                             emitted: seq<nat>)
      requires ValidGraph(g) && builder.Valid() && i <= |list| && forall j :: 0 <= j < |list| ==> list[j] in g
      reads this, builder, builder.outputBuffer, builder.outputBuffer.buffer, builder.mappings, builder.mappings.buffer
    {
      && Elements(emitted) <= g.Keys && visited == before + Elements(emitted)
      && Fed(start, Held(builder), Picked(g, emitted), true)
      && VisitAll(DependenciesOf(g), before, list) == emitted + VisitAll(DependenciesOf(g), visited, list[i..])
    }

    method VisitDependencies(g: ModuleGraph, list: seq<nat>) returns (ok: bool)
      requires ValidGraph(g) && builder.Valid() && forall i :: 0 <= i < |list| ==> list[i] in g
      modifies this, builder, builder.outputBuffer, builder.outputBuffer.buffer, builder.mappings,
               builder.mappings.buffer
      ensures builder.Valid() && Fed(old(Held(builder)), Held(builder), EmittedAll(g, old(visited), list), ok)
      ensures ok ==> visited == old(visited) + Elements(VisitAll(DependenciesOf(g), old(visited), list))
      ensures builder.mappings.buffer == old(builder.mappings.buffer) || fresh(builder.mappings.buffer)
      ensures builder.outputBuffer.buffer == old(builder.outputBuffer.buffer) || fresh(builder.outputBuffer.buffer)
      decreases g.Keys - visited, 2
    {
      ghost var start, before := Held(builder), visited;
      ghost var emitted: seq<nat> := [];
      FedNothing(start);
      assert Picked(g, []) == [] && list[0..] == list;
      for i := 0 to |list|
        invariant builder.Valid() && FedSoFar(g, list, i, before, start, emitted)
        invariant builder.mappings.buffer == old(builder.mappings.buffer) || fresh(builder.mappings.buffer)
        invariant builder.outputBuffer.buffer == old(builder.outputBuffer.buffer) || fresh(builder.outputBuffer.buffer)
      {
        ok, emitted := VisitDependency(g, list, i, before, start, emitted);
        if !ok { return; }
      }
      ok := true;
      assert emitted + [] == emitted;
    }

    /** One turn of that loop. */
    method VisitDependency(g: ModuleGraph, list: seq<nat>, i: nat, ghost before: set<nat>, ghost start: Snapshot,
                           ghost emitted: seq<nat>)
      returns (ok: bool, ghost emitted': seq<nat>)
      requires ValidGraph(g) && builder.Valid()
      requires i < |list| && (forall j :: 0 <= j < |list| ==> list[j] in g)
      requires FedSoFar(g, list, i, before, start, emitted)
      modifies this, builder, builder.outputBuffer, builder.outputBuffer.buffer, builder.mappings,
               builder.mappings.buffer
      ensures builder.Valid()
      ensures if ok then FedSoFar(g, list, i + 1, before, start, emitted')
              else Fed(start, Held(builder), EmittedAll(g, before, list), false)
      ensures builder.mappings.buffer == old(builder.mappings.buffer) || fresh(builder.mappings.buffer)
      ensures builder.outputBuffer.buffer == old(builder.outputBuffer.buffer) || fresh(builder.outputBuffer.buffer)
      decreases g.Keys - visited, 1
    {
      ghost var middle := Held(builder);
      ghost var first := Visit(DependenciesOf(g), visited, list[i]);
      ghost var rest := VisitAll(DependenciesOf(g), visited + Elements(first), list[i + 1..]);
      VisitAllStep(g, visited, list, i, emitted, first, rest);
      ok := VisitModule(g, list[i]);
      emitted' := emitted + first;
      FedMore(start, middle, Held(builder), Picked(g, emitted), Picked(g, first), ok);
      if !ok {
        FedNoFurther(start, Held(builder), Picked(g, emitted'), Picked(g, rest));
      }
    }
  }

  lemma FedAlready(g: ModuleGraph, visited: set<nat>, m: nat, s: Snapshot)
    requires Closed(DependenciesOf(g)) && m in g && m in visited
    ensures Fed(s, s, Emitted(g, visited, m), true) && Visit(DependenciesOf(g), visited, m) == []
  {
    assert Emitted(g, visited, m) == [];
    FedNothing(s);
  }

  lemma VisitStep(g: ModuleGraph, visited: set<nat>, m: nat, below: seq<nat>)
    requires Closed(DependenciesOf(g)) && m in g && m !in visited
    requires below == VisitAll(DependenciesOf(g), visited + {m}, DependenciesOf(g)[m])
    ensures Visit(DependenciesOf(g), visited, m) == below + [m]
    ensures Emitted(g, visited, m) == Picked(g, below) + [g[m].source]
  {
    PickedConcat(g, below, [m]);
    assert Picked(g, [m]) == [g[m].source];
  }

  /** One dependency of a list, after `emitted`. */
  lemma VisitAllStep(g: ModuleGraph, visited: set<nat>, list: seq<nat>, i: nat, emitted: seq<nat>, first: seq<nat>,
                     rest: seq<nat>)
    requires Closed(DependenciesOf(g)) && i < |list| && (forall j :: 0 <= j < |list| ==> list[j] in g)
    requires Elements(emitted) <= g.Keys && first == Visit(DependenciesOf(g), visited, list[i])
    requires rest == VisitAll(DependenciesOf(g), visited + Elements(first), list[i + 1..])
    ensures emitted + VisitAll(DependenciesOf(g), visited, list[i..]) == (emitted + first) + rest
    ensures Elements(emitted + first) == Elements(emitted) + Elements(first)
    ensures Elements(emitted + first) <= g.Keys && Elements(emitted + first + rest) <= g.Keys
    ensures Picked(g, emitted + first) == Picked(g, emitted) + Picked(g, first)
    ensures Picked(g, emitted + first + rest) == Picked(g, emitted + first) + Picked(g, rest)
  {
    assert list[i..][1..] == list[i + 1..];
    assert emitted + (first + rest) == emitted + first + rest;
    ElementsConcat(emitted, first);
    PickedConcat(g, emitted, first);
    PickedConcat(g, emitted + first, rest);
  }

  /** The text of a bundle and its source map. */
  datatype Bundle = Bundle(content: seq<Byte>, sourceMap: SourceMap)

  /** What bundling a sequence of sources must give; the root is that of the entry's map. */
  ghost predicate Bundles(b: Bundle, sources: seq<Source>, root: Option<string>, annotate: SourceMap -> seq<Byte>) {
    && b.content == Contents(sources) + annotate(b.sourceMap) + [NEWLINE]
    && b.sourceMap.sources == Names(sources, []) && b.sourceMap.sourceRoot == root
    && b.sourceMap.mappings == Draw(FRESH_PEN, sources, []).text
    && (AllWellFormed(sources) && |b.sourceMap.sources| <= LIMIT ==> DescribesAll(b.sourceMap, sources))
  }

  /** The map says what the maps of the sources say, each at its place, and has a line for each
      of theirs. */
  ghost predicate DescribesAll(map': SourceMap, sources: seq<Source>) {
    && Decode(map'.mappings).ok
    && SourceMeaning(map', 0) == Meanings(sources, 0)
    && Decode(map'.mappings).line == CountNewlines(Contents(sources))
  }

  /** The sources determine the bundle. */
  lemma BundlesIsUnique(a: Bundle, b: Bundle, sources: seq<Source>, root: Option<string>,
                        annotate: SourceMap -> seq<Byte>)
    requires Bundles(a, sources, root, annotate) && Bundles(b, sources, root, annotate)
    ensures a == b
  {
  }

  lemma FinishedMap(builder: SourceMapBuilder, start: Snapshot, sources: seq<Source>, root: Option<string>)
    requires builder.Valid() && start == NOTHING
    requires Extends(start, Held(builder), sources)
    ensures builder.Output() == Contents(sources)
    ensures builder.sources == Names(sources, []) && builder.Mappings() == Draw(FRESH_PEN, sources, []).text
    ensures AllWellFormed(sources) && |builder.sources| <= LIMIT ==>
              DescribesAll(SourceMap(builder.sources, builder.Mappings(), root), sources)
  {
    assert start.output + Contents(sources) == Contents(sources);
    assert start.meaning + Meanings(sources, 0) == Meanings(sources, 0);
    if AllWellFormed(sources) && |builder.sources| <= LIMIT {
      var d := Read(START, builder.Mappings());
      assert builder.Good() && Commit(d) == d;
    }
  }

  /** bundleWithDependencies: the sources of everything reachable from the entry, in post-order,
      and a closing line (the map itself, encoded by `annotate`). If the modules' maps are well
      formed, the bundle's map says exactly what they say, each at its place. It throws exactly
      if one of those maps has an unreadable byte. */
  method BundleWithDependencies(g: ModuleGraph, entry: nat, annotate: SourceMap -> seq<Byte>)
    returns (b: Option<Bundle>)
    requires ValidGraph(g) && entry in g
    ensures b.Some? <==> AllReadable(Emitted(g, {}, entry))
    ensures b.Some? ==> Bundles(b.value, Emitted(g, {}, entry), g[entry].source.sourceMap.sourceRoot, annotate)
  {
    var walker := new Walker();
    ghost var start := Held(walker.builder);
    var ok := walker.VisitModule(g, entry);
    FedMeans(start, Held(walker.builder), Emitted(g, {}, entry), ok);
    if !ok { return None; }
    var builder := walker.builder;
    var root := g[entry].source.sourceMap.sourceRoot;
    FinishedMap(builder, start, Emitted(g, {}, entry), root);
    var sourceMap := builder.ToSourceMap(None);
    sourceMap := sourceMap.(sourceRoot := root);
    builder.AddLine(annotate(sourceMap));
    var content := builder.ToContent();
    b := Some(Bundle(content, sourceMap));
  }
}
