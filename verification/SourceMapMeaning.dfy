/** Segments resolved to what they point at, and what concatenating one source does to them. */
module SourceMapMeaning {
  import opened Collections
  import opened Options
  import opened Vlq
  import opened SourceMaps

  datatype SourceMap = SourceMap(sources: seq<string>, mappings: seq<Byte>, sourceRoot: Option<string>)

  const EMPTY_SOURCE_MAP := SourceMap([], [], None)

  /** A segment with its source named instead of numbered. */
  datatype Located =
    | Plain(line: nat, col: int)
    | Origin(line: nat, col: int, name: string, sourceLine: int, sourceCol: int)

  function NameOf(sources: seq<string>, i: int): string {
    if 0 <= i < |sources| then sources[i] else ""
  }

  function Locate(s: Segment, sources: seq<string>, shift: nat): Located {
    match s
    case Generated(line, col) => Plain(line + shift, col)
    case Mapped(line, col, source, sourceLine, sourceCol) =>
      Origin(line + shift, col, NameOf(sources, source), sourceLine, sourceCol)
  }

  /** The segments of a map whose lines start after `shift` earlier ones. */
  function LocateAll(segments: seq<Segment>, sources: seq<string>, shift: nat): seq<Located> {
    seq(|segments|, i requires 0 <= i < |segments| => Locate(segments[i], sources, shift))
  }

  /** What a map says about a text placed after `shift` lines. */
  function SourceMeaning(map': SourceMap, shift: nat): seq<Located> {
    LocateAll(Decode(map'.mappings).segments, map'.sources, shift)
  }

  /** What the names of its sources are relative to. */
  function RootOf(map': SourceMap): string {
    if map'.sourceRoot.Some? then map'.sourceRoot.value else ""
  }

  /** The same with the root in front of the names. */
  function Rooted(meaning: seq<Located>, root: string): seq<Located> {
    seq(|meaning|, i requires 0 <= i < |meaning| =>
      if meaning[i].Origin? then meaning[i].(name := root + meaning[i].name) else meaning[i])
  }

  predicate SourcesInRange(segments: seq<Segment>, n: nat) {
    forall i :: 0 <= i < |segments| && segments[i].Mapped? ==> 0 <= segments[i].source < n
  }

  predicate LinesBelow(segments: seq<Segment>, n: nat) {
    forall i :: 0 <= i < |segments| ==> segments[i].line < n
  }

  /** A map that describes a text of n lines. */
  predicate WellFormed(map': SourceMap, n: nat) {
    var d := Decode(map'.mappings);
    d.ok && SourcesInRange(d.segments, |map'.sources|) && LinesBelow(d.segments, n) && d.line <= n
  }

  lemma {:induction false} LastLineBelow(line: nat, segments: seq<Segment>, n: nat)
    requires Ordered(line, segments) && line <= n && LinesBelow(segments, n)
    ensures LastLine(line, segments) <= n
    decreases |segments|
  {
    if segments != [] {
      assert segments[0].line < n;
      LastLineBelow(segments[0].line, segments[1..], n);
    }
  }

  /** Well-formed maps can say anything: every list of segments in order of lines, with known
      sources and lines of the text, is what some well-formed map says. */
  lemma EveryListHasAMap(segments: seq<Segment>, names: seq<string>, n: nat, shift: nat) returns (map': SourceMap)
    requires Ordered(0, segments) && SourcesInRange(segments, |names|) && LinesBelow(segments, n)
    ensures WellFormed(map', n) && map'.sources == names
    ensures SourceMeaning(map', shift) == LocateAll(segments, names, shift)
  {
    var mappings := SegmentsHaveText(segments);
    map' := SourceMap(names, mappings, None);
    LastLineBelow(0, segments, n);
  }

  // ---- Remapping source indices ----

  predicate Remaps(sources: seq<string>, remap: seq<nat>, names: seq<string>) {
    |remap| == |names| && forall i :: 0 <= i < |names| ==> remap[i] < |sources| && sources[remap[i]] == names[i]
  }

  function RemapSegment(s: Segment, remap: seq<nat>, shift: nat): Segment
    requires s.Mapped? ==> 0 <= s.source < |remap|
  {
    match s
    case Generated(line, col) => Generated(line + shift, col)
    case Mapped(line, col, source, sourceLine, sourceCol) =>
      Mapped(line + shift, col, remap[source], sourceLine, sourceCol)
  }

  function RemapAll(segments: seq<Segment>, remap: seq<nat>, shift: nat): seq<Segment>
    requires SourcesInRange(segments, |remap|)
  {
    seq(|segments|, i requires 0 <= i < |segments| => RemapSegment(segments[i], remap, shift))
  }

  lemma RemapKeepsMeaning(segments: seq<Segment>, remap: seq<nat>, shift: nat, sources: seq<string>, names: seq<string>)
    requires Remaps(sources, remap, names) && SourcesInRange(segments, |names|)
    ensures LocateAll(RemapAll(segments, remap, shift), sources, 0) == LocateAll(segments, names, shift)
    ensures SourcesInRange(RemapAll(segments, remap, shift), |sources|)
  {}

  lemma MoreSourcesKeepMeaning(segments: seq<Segment>, sources: seq<string>, more: seq<string>)
    requires sources <= more && SourcesInRange(segments, |sources|)
    ensures LocateAll(segments, more, 0) == LocateAll(segments, sources, 0)
    ensures SourcesInRange(segments, |more|)
  {}

  lemma LocateConcat(a: seq<Segment>, b: seq<Segment>, sources: seq<string>)
    ensures LocateAll(a + b, sources, 0) == LocateAll(a, sources, 0) + LocateAll(b, sources, 0)
  {}

  // ---- Reading input and writing output side by side ----

  /** The segment a reader would end with here. */
  function SegmentNow(d: Reader): Segment {
    if d.fields == 1 then Generated(d.line, d.col)
    else Mapped(d.line, d.col, d.source, d.sourceLine, d.sourceCol)
  }

  /** `output` was written from `base` for everything `input` has read and ended so far. */
  ghost predicate InStep(base: Reader, output: Reader, input: Reader, remap: seq<nat>) {
    && BetweenSegments(output)
    && input.ok && PositionInLimit(PositionOf(input))
    && output.line == base.line + input.line
    && SourcesInRange(input.segments, |remap|)
    && output.segments == base.segments + RemapAll(input.segments, remap, base.line)
  }

  ghost predicate RemapInLimit(remap: seq<nat>) {
    forall i :: 0 <= i < |remap| ==> InLimit(remap[i])
  }

  /** What ending the input's current segment writes. */
  function CommitText(output: Reader, input: Reader, remap: seq<nat>, shift: nat): seq<Byte>
    requires input.fields > 1 ==> 0 <= input.source < |remap|
  {
    if input.fields == 0 then []
    else SegmentText(PositionOf(output), RemapSegment(SegmentNow(input), remap, shift))
  }

  lemma RemapOneMore(segments: seq<Segment>, s: Segment, remap: seq<nat>, shift: nat)
    requires SourcesInRange(segments + [s], |remap|)
    ensures SourcesInRange(segments, |remap|) && (s.Mapped? ==> 0 <= s.source < |remap|)
    ensures RemapAll(segments + [s], remap, shift) == RemapAll(segments, remap, shift) + [RemapSegment(s, remap, shift)]
  {
    assert (segments + [s])[|segments|] == s;
    forall i | 0 <= i < |segments| && segments[i].Mapped? ensures 0 <= segments[i].source < |remap| {
      assert (segments + [s])[i] == segments[i];
    }
  }

  /** Ending a segment on both sides keeps them in step. */
  lemma CommitInStep(base: Reader, output: Reader, input: Reader, remap: seq<nat>)
    requires InStep(base, output, input, remap) && RemapInLimit(remap)
    requires Commit(input).ok && SourcesInRange(Commit(input).segments, |remap|)
    ensures input.fields > 1 ==> 0 <= input.source < |remap|
    ensures var f := Read(output, CommitText(output, input, remap, base.line));
            && f.ok && f.digits == 0 && Commit(f).ok
            && InStep(base, Commit(f), Commit(input), remap)
            && f == (if input.fields == 0 then output
                     else WithSegment(output, RemapSegment(SegmentNow(input), remap, base.line)))
  {
    if input.fields > 0 {
      RemapOneMore(input.segments, SegmentNow(input), remap, base.line);
      SegmentReadsBack(output, RemapSegment(SegmentNow(input), remap, base.line));
    }
  }

  lemma SeparatorInStep(base: Reader, output: Reader, input: Reader, remap: seq<nat>, b: Byte)
    requires InStep(base, output, input, remap) && RemapInLimit(remap)
    requires b == SEMICOLON || b == COMMA
    requires Step(input, b).ok && SourcesInRange(Step(input, b).segments, |remap|)
    ensures input.fields > 1 ==> 0 <= input.source < |remap|
    ensures InStep(base, Read(output, CommitText(output, input, remap, base.line) + [b]), Step(input, b), remap)
    ensures var o := Read(output, CommitText(output, input, remap, base.line) + [b]);
            && o.col == (if b == SEMICOLON then 0 else if input.fields == 0 then output.col else input.col)
            && (input.fields > 1 ==>
                  o.source == remap[input.source] && o.sourceLine == input.sourceLine && o.sourceCol == input.sourceCol)
            && (input.fields <= 1 ==>
                  o.source == output.source && o.sourceLine == output.sourceLine && o.sourceCol == output.sourceCol)
  {
    CommitInStep(base, output, input, remap);
    var text := CommitText(output, input, remap, base.line);
    ReadConcat(output, text, [b]);
    var f := Read(output, text);
    assert Read(Step(f, b), []) == Step(f, b);
  }

  /** The end of a source: the last segment and one `;` for each line that has none yet. */
  lemma FinishInStep(base: Reader, output: Reader, input: Reader, remap: seq<nat>, n: nat)
    requires InStep(base, output, input, remap) && RemapInLimit(remap)
    requires Commit(input).ok && SourcesInRange(Commit(input).segments, |remap|)
    requires n == 0 ==> input.fields == 0 && output.col == 0
    ensures input.fields > 1 ==> 0 <= input.source < |remap|
    ensures var o := Read(output, CommitText(output, input, remap, base.line) + Semicolons(n));
            && BetweenSegments(o) && o.col == 0 && o.line == output.line + n
            && o.segments == base.segments + RemapAll(Commit(input).segments, remap, base.line)
            && (input.fields > 1 ==>
                  o.source == remap[input.source] && o.sourceLine == input.sourceLine && o.sourceCol == input.sourceCol)
            && (input.fields <= 1 ==>
                  o.source == output.source && o.sourceLine == output.sourceLine && o.sourceCol == output.sourceCol)
  {
    CommitInStep(base, output, input, remap);
    var text := CommitText(output, input, remap, base.line);
    var f := Read(output, text);
    ReadConcat(output, text, Semicolons(n));
    if n > 0 {
      assert Semicolons(n)[1..] == Semicolons(n - 1);
      SemicolonsReadBack(Step(f, SEMICOLON), n - 1);
    }
  }

  // ---- Reading digits in 32 bits ----

  lemma {:induction false} DoubledFiveTimes(c: nat, k: nat)
    ensures Double(c, 5 * k) == InPlace(c, k)
    decreases k
  {
    if k > 0 {
      var j := 5 * (k - 1);
      assert Double(c, j + 5) == Double(2 * c, j + 4) == Double(4 * c, j + 3);
      assert Double(4 * c, j + 3) == Double(8 * c, j + 2) == Double(16 * c, j + 1) == Double(32 * c, j);
      DoubledFiveTimes(32 * c, k - 1);
      InPlaceTimes32(c, k - 1);
    }
  }

  lemma {:induction false} InPlaceTimes32(c: nat, k: nat)
    ensures InPlace(32 * c, k) == 32 * InPlace(c, k)
  {
    if k > 0 { InPlaceTimes32(c, k - 1); }
  }

  lemma {:induction false} DoubledZero(times: nat)
    ensures Double(0, times) == 0
  {
    if times > 0 { DoubledZero(times - 1); }
  }

  /** From the eighth place on a digit other than 0 does not fit 31 bits. */
  lemma {:induction false} InPlaceGrows(c: nat, k: nat)
    requires k >= 7
    ensures c == 0 ==> InPlace(c, k) == 0
    ensures c > 0 ==> InPlace(c, k) >= TWO_31
  {
    if k > 7 {
      InPlaceGrows(c, k - 1);
    } else {
      assert InPlace(c, 7) == 32 * InPlace(c, 6) && InPlace(c, 6) == 32 * InPlace(c, 5);
      assert InPlace(c, 5) == 32 * InPlace(c, 4) && InPlace(c, 4) == 32 * InPlace(c, 3);
      assert InPlace(c, 3) == 32 * InPlace(c, 2) && InPlace(c, 2) == 32 * InPlace(c, 1) && InPlace(c, 1) == 32 * c;
    }
  }

  /** As long as the number fits 31 bits, shifting a digit into place loses nothing. */
  lemma DigitInPlace(c: nat, k: nat)
    requires c < 32 && InPlace(c, k) < TWO_31
    ensures ShiftLeft(c, 5 * k) == InPlace(c, k)
  {
    if k >= 7 {
      InPlaceGrows(c, k);
      DoubledZero(5 * k % 32);
    } else {
      DoubledFiveTimes(c, k);
      assert 5 * k % 32 == 5 * k;
    }
  }

  /** A number that leaves its coordinate in range fits 31 bits. */
  lemma NumberFits(d: Reader, raw: nat)
    requires d.ok && PositionInLimit(PositionOf(d)) && Field(d, Signed(raw)).ok
    ensures d.fields < 4 ==> raw < TWO_31
    ensures PositionInLimit(PositionOf(Field(d, Signed(raw))))
  {}

  // ---- Prefixes of a well-formed map ----

  lemma {:induction false} SegmentsGrow(d: Reader, bs: seq<Byte>)
    ensures d.segments <= Read(d, bs).segments
    decreases |bs|
  {
    if bs != [] { SegmentsGrow(Step(d, bs[0]), bs[1..]); }
  }

  lemma PrefixSegments(bs: seq<Byte>, n: nat)
    requires n <= |bs|
    ensures Read(START, bs[..n]).segments <= Decode(bs).segments
  {
    assert bs == bs[..n] + bs[n..];
    ReadConcat(START, bs[..n], bs[n..]);
    SegmentsGrow(Read(START, bs[..n]), bs[n..]);
  }

  /** A reader off column 0 has met a segment on its line, or is in one. */
  ghost predicate ColumnExplained(d: Reader) {
    d.col == 0 || d.fields > 0 || exists i :: 0 <= i < |d.segments| && d.segments[i].line == d.line
  }

  lemma StepExplainsColumn(d: Reader, b: Byte)
    requires ColumnExplained(d)
    ensures ColumnExplained(Step(d, b))
  {
    var e := Step(d, b);
    if e.col != 0 && e.fields == 0 {
      if d.fields > 0 {
        assert e.segments[|d.segments|].line == e.line;
      } else {
        var i :| 0 <= i < |d.segments| && d.segments[i].line == d.line;
        assert e.segments[i].line == e.line;
      }
    }
  }

  lemma {:induction false} ReadExplainsColumn(d: Reader, bs: seq<Byte>)
    requires ColumnExplained(d)
    ensures ColumnExplained(Read(d, bs))
    decreases |bs|
  {
    if bs != [] {
      StepExplainsColumn(d, bs[0]);
      ReadExplainsColumn(Step(d, bs[0]), bs[1..]);
    }
  }
}
