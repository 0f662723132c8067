/** The source root of a bundle: it is that of the entry's map, and the names of all sources are
    read relative to it. */
module BundleRoots {
  import opened Collections
  import opened Options
  import opened SourceMaps
  import opened SourceMapMeaning
  import opened SourceMapCopying
  import opened SourceMapBuilders
  import opened Bundlers

  ghost predicate HasOrigin(meaning: seq<Located>) {
    exists i :: 0 <= i < |meaning| && meaning[i].Origin?
  }

  /** The map says where something comes from. */
  ghost predicate NamesOrigins(source: Source) {
    HasOrigin(SourceMeaning(source.sourceMap, 0))
  }

  /** What a map says, and under which root. */
  datatype Part = Part(meaning: seq<Located>, root: string)

  function PartsOf(sources: seq<Source>, shift: nat): seq<Part>
    decreases |sources|
  {
    if sources == [] then []
    else
      [Part(SourceMeaning(sources[0].sourceMap, shift), RootOf(sources[0].sourceMap))]
      + PartsOf(sources[1..], shift + sources[0].sourceLines)
  }

  function Joined(parts: seq<Part>): seq<Located> {
    if parts == [] then [] else parts[0].meaning + Joined(parts[1..])
  }

  /** The same, each under its own root. */
  function JoinedRooted(parts: seq<Part>): seq<Located> {
    if parts == [] then [] else Rooted(parts[0].meaning, parts[0].root) + JoinedRooted(parts[1..])
  }

  /** What the maps of the sources say, each with its own root. */
  function RootedMeanings(sources: seq<Source>, shift: nat): seq<Located> {
    JoinedRooted(PartsOf(sources, shift))
  }

  lemma {:induction false} MeaningsAreJoined(sources: seq<Source>, shift: nat)
    ensures Meanings(sources, shift) == Joined(PartsOf(sources, shift))
    decreases |sources|
  {
    if sources != [] {
      var rest := PartsOf(sources[1..], shift + sources[0].sourceLines);
      MeaningsAreJoined(sources[1..], shift + sources[0].sourceLines);
      assert PartsOf(sources, shift)[1..] == rest;
    }
  }

  lemma RootedIff(meaning: seq<Located>, root: string, root': string)
    ensures Rooted(meaning, root) == Rooted(meaning, root') <==> !HasOrigin(meaning) || root == root'
  {
    if Rooted(meaning, root) == Rooted(meaning, root') && HasOrigin(meaning) {
      var i :| 0 <= i < |meaning| && meaning[i].Origin?;
      assert Rooted(meaning, root)[i].name == Rooted(meaning, root')[i].name;
      SamePrefix(root, root', meaning[i].name);
    }
  }

  lemma SamePrefix(a: string, b: string, name: string)
    requires a + name == b + name
    ensures a == b
  {
    assert |a + name| == |b + name|;
    assert a == (a + name)[..|a|] && b == (b + name)[..|b|];
  }

  lemma RootedConcat(a: seq<Located>, b: seq<Located>, root: string)
    ensures Rooted(a + b, root) == Rooted(a, root) + Rooted(b, root)
  {}

  lemma ConcatIff(a: seq<Located>, a': seq<Located>, b: seq<Located>, b': seq<Located>)
    requires |a| == |a'|
    ensures a + b == a' + b' <==> a == a' && b == b'
  {
    assert a == (a + b)[..|a|] && b == (a + b)[|a|..];
    assert a' == (a' + b')[..|a|] && b' == (a' + b')[|a|..];
  }

  /** Moving a text down changes no origin. */
  lemma OriginsStay(source: Source, shift: nat)
    ensures HasOrigin(SourceMeaning(source.sourceMap, shift)) <==> NamesOrigins(source)
  {
    var segments, names := Decode(source.sourceMap.mappings).segments, source.sourceMap.sources;
    OriginsAre(segments, names, shift);
    OriginsAre(segments, names, 0);
  }

  lemma OriginsAre(segments: seq<Segment>, names: seq<string>, shift: nat)
    ensures HasOrigin(LocateAll(segments, names, shift)) <==> exists i :: 0 <= i < |segments| && segments[i].Mapped?
  {
    var meaning := LocateAll(segments, names, shift);
    assert forall i :: 0 <= i < |segments| ==> (meaning[i].Origin? <==> segments[i].Mapped?);
    if HasOrigin(meaning) {
      var i :| 0 <= i < |meaning| && meaning[i].Origin?;
      assert segments[i].Mapped?;
    }
    if i :| 0 <= i < |segments| && segments[i].Mapped? {
      assert meaning[i].Origin?;
    }
  }

  /** The root fits a source: it is its own, or its map names nothing. */
  ghost predicate RootFits(source: Source, root: string) {
    NamesOrigins(source) ==> RootOf(source.sourceMap) == root
  }

  ghost predicate RootFitsAll(sources: seq<Source>, root: string) {
    forall i :: 0 <= i < |sources| ==> RootFits(sources[i], root)
  }

  ghost predicate PartFits(part: Part, root: string) {
    !HasOrigin(part.meaning) || part.root == root
  }

  lemma {:induction false} JoinedIff(parts: seq<Part>, root: string)
    ensures Rooted(Joined(parts), root) == JoinedRooted(parts)
       <==> forall i :: 0 <= i < |parts| ==> PartFits(parts[i], root)
  {
    if parts != [] {
      var first, rest := parts[0], parts[1..];
      JoinedIff(rest, root);
      RootedConcat(first.meaning, Joined(rest), root);
      ConcatIff(Rooted(first.meaning, root), Rooted(first.meaning, first.root), Rooted(Joined(rest), root),
                JoinedRooted(rest));
      RootedIff(first.meaning, root, first.root);
      assert parts == [first] + rest;
    }
  }

  lemma {:induction false} PartsFitIff(sources: seq<Source>, shift: nat, root: string)
    ensures |PartsOf(sources, shift)| == |sources|
    ensures forall i :: 0 <= i < |sources| ==>
            (PartFits(PartsOf(sources, shift)[i], root) <==> RootFits(sources[i], root))
    decreases |sources|
  {
    if sources != [] {
      PartsFitIff(sources[1..], shift + sources[0].sourceLines, root);
      OriginsStay(sources[0], shift);
    }
  }

  /** The map of a bundle, which describes its sources, names the origins their maps name, roots
      included, if and only if every map that names any has the root of the bundle's. */
  lemma BundleNamesOriginsIff(map': SourceMap, sources: seq<Source>)
    requires DescribesAll(map', sources)
    ensures Rooted(SourceMeaning(map', 0), RootOf(map')) == RootedMeanings(sources, 0)
       <==> RootFitsAll(sources, RootOf(map'))
  {
    MeaningsAreJoined(sources, 0);
    JoinedIff(PartsOf(sources, 0), RootOf(map'));
    PartsFitIff(sources, 0, RootOf(map'));
  }

  /** A source of one line that comes from the first line of `x`, under some root. */
  lemma SourceUnder(root: string) returns (source: Source)
    ensures source.Valid() && source.sourceMap.sourceRoot == Some(root) && source.sourceMap.sources == ["x"]
    ensures WellFormed(source.sourceMap, source.sourceLines) && NamesOrigins(source)
  {
    var segments := [Mapped(0, 0, 0, 0, 0)];
    assert Ordered(0, segments) by { assert segments[1..] == []; }
    var map' := EveryListHasAMap(segments, ["x"], 1, 0);
    source := Source([100, NEWLINE], map'.(sourceRoot := Some(root)), 1);
    assert [100, NEWLINE][..1] == [100] && [100][..0] == [];
    assert CountNewlines([]) == 0 && CountNewlines([100]) == 0;
    assert SourceMeaning(map', 0)[0].Origin?;
  }

  /** Two such sources under different roots: whatever the map of their bundle is, it gets the
      origin of one of them wrong. */
  lemma OtherRootIsLost(annotate: SourceMap -> seq<Byte>) returns (dependency: Source, entry: Source)
    ensures dependency.Valid() && entry.Valid() && AllWellFormed([dependency, entry])
    ensures forall b :: Bundles(b, [dependency, entry], entry.sourceMap.sourceRoot, annotate) ==>
              Rooted(SourceMeaning(b.sourceMap, 0), RootOf(b.sourceMap)) != RootedMeanings([dependency, entry], 0)
  {
    dependency := SourceUnder("a/");
    entry := SourceUnder("b/");
    var sources := [dependency, entry];
    assert "a/"[0] != "b/"[0];
    forall b | Bundles(b, sources, entry.sourceMap.sourceRoot, annotate)
      ensures Rooted(SourceMeaning(b.sourceMap, 0), RootOf(b.sourceMap)) != RootedMeanings(sources, 0)
    {
      TwoNames(sources);
      BundleNamesOriginsIff(b.sourceMap, sources);
      assert !RootFits(sources[0], RootOf(b.sourceMap));
    }
  }

  lemma TwoNames(sources: seq<Source>)
    requires |sources| == 2 && sources[0].sourceMap.sources == ["x"] && sources[1].sourceMap.sources == ["x"]
    ensures |Names(sources, [])| <= LIMIT
  {
    assert ["x"][1..] == [] && sources[1..][1..] == [];
    assert AddNames([], ["x"]) == ["x"] && AddNames(["x"], ["x"]) == ["x"];
    assert Names(sources[1..][1..], ["x"]) == ["x"];
    assert Names(sources[1..], ["x"]) == ["x"];
  }
}
