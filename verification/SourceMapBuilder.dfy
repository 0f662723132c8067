/** The builder of scripts/playground-server.ts: it concatenates sources and, in one pass over
    their mappings, the source maps. */
module SourceMapBuilders {
  import opened Collections
  import opened Options
  import opened Vlq
  import opened SourceMaps
  import opened SourceMapMeaning
  import opened SourceMapCopying
  import opened DynamicBuffers

  const NEWLINE: Byte := '\n' as int

  function CountNewlines(bs: seq<Byte>): nat {
    if bs == [] then 0 else CountNewlines(bs[..|bs| - 1]) + (if bs[|bs| - 1] == NEWLINE then 1 else 0)
  }

  lemma {:induction false} CountConcat(a: seq<Byte>, b: seq<Byte>)
    ensures CountNewlines(a + b) == CountNewlines(a) + CountNewlines(b)
    decreases |b|
  {
    if b == [] {
      assert a + b == a;
    } else {
      assert (a + b)[..|a + b| - 1] == a + b[..|b| - 1];
      CountConcat(a, b[..|b| - 1]);
    }
  }

  /** It is the number of places where a newline stands. */
  lemma {:induction false} CountIsNumber(bs: seq<Byte>)
    ensures CountNewlines(bs) == |set i | 0 <= i < |bs| && bs[i] == '\n' as int|
    decreases |bs|
  {
    if bs != [] {
      var n := |bs| - 1;
      CountIsNumber(bs[..n]);
      var before := set i | 0 <= i < n && bs[..n][i] == '\n' as int;
      var all := set i | 0 <= i < |bs| && bs[i] == '\n' as int;
      assert all == if bs[n] == '\n' as int then before + {n} else before;
    }
  }

  method CountNL(b: seq<Byte>) returns (res: nat)
    ensures res == CountNewlines(b)
    ensures res == |set i | 0 <= i < |b| && b[i] == '\n' as int|
  {
    CountIsNumber(b);
    res := 0;
    for i := 0 to |b|
      invariant res == CountNewlines(b[..i])
    {
      assert b[..i + 1][..i] == b[..i];
      if b[i] == NEWLINE { res := res + 1; }
    }
    assert b[..|b|] == b;
  }

  /** A text, its source map and its number of lines; fixed once built. */
  datatype Source = Source(content: seq<Byte>, sourceMap: SourceMap, sourceLines: nat) {
    ghost predicate Valid() {
      sourceLines == CountNewlines(content)
    }
  }

  function Terminated(content: seq<Byte>): seq<Byte> {
    if |content| > 0 && content[|content| - 1] != NEWLINE then content + [NEWLINE] else content
  }

  /** The constructor of Source: a text that does not end in a newline gets one. */
  method NewSource(content: seq<Byte>, sourceMap: Option<SourceMap>) returns (source: Source)
    ensures source.Valid() && source.content == Terminated(content)
    ensures source.content == if content == [] || content[|content| - 1] == '\n' as int then content
                              else content + ['\n' as int]
    ensures source.sourceMap == if sourceMap.Some? then sourceMap.value else SourceMap([], [], None)
  {
    var text := content;
    var lines := CountNL(content);
    if |content| > 0 && content[|content| - 1] != NEWLINE {
      lines := lines + 1;
      CountConcat(text, [NEWLINE]);
      text := text + [NEWLINE];
    }
    source := Source(text, if sourceMap.Some? then sourceMap.value else EMPTY_SOURCE_MAP, lines);
  }

  class SourceMapBuilder {
    const outputBuffer: DynamicBuffer
    const mappings: DynamicBuffer
    var sources: seq<string>
    var lastSourceIndex: Option<int>
    var lastSourceLine: int
    var lastSourceCol: int

    ghost predicate Valid()
      reads this, outputBuffer, mappings
    {
      && outputBuffer != mappings && outputBuffer.buffer != mappings.buffer
      && outputBuffer.Valid() && mappings.Valid()
    }

    ghost function Output(): seq<Byte>
      requires Valid()
      reads this, outputBuffer, outputBuffer.buffer, mappings
    {
      outputBuffer.Contents()
    }

    ghost function Mappings(): seq<Byte>
      requires Valid()
      reads this, outputBuffer, mappings, mappings.buffer
    {
      mappings.Contents()
    }

    /** Where addSource goes on writing. */
    ghost function PenNow(): Pen
      requires Valid()
      reads this, outputBuffer, mappings, mappings.buffer
    {
      Pen(Mappings(), lastSourceIndex, lastSourceLine, lastSourceCol)
    }

    constructor ()
      ensures Valid() && Good() && Output() == [] && PenNow() == FRESH_PEN && sources == []
      ensures fresh(outputBuffer) && fresh(mappings) && fresh(outputBuffer.buffer) && fresh(mappings.buffer)
    {
      outputBuffer := new DynamicBuffer();
      mappings := new DynamicBuffer();
      sources, lastSourceIndex, lastSourceLine, lastSourceCol := [], Some(0), 0, 0;
    }

    /** The mappings written so far describe the text written so far, line by line, and the
        builder remembers the coordinates they end with. */
    ghost predicate Good()
      requires Valid()
      reads this, outputBuffer, outputBuffer.buffer, mappings, mappings.buffer
    {
      Describes(Read(START, Mappings()), CountNewlines(Output()))
    }

    /** Mappings that leave a reader as d are right for a text of so many lines. */
    ghost predicate Describes(d: Reader, lines: nat)
      reads this
    {
      && BetweenSegments(d) && d.col == 0 && d.line == lines && Remembers(d)
      && NoDuplicates(sources) && |sources| <= LIMIT && SourcesInRange(d.segments, |sources|)
    }

    ghost predicate Remembers(d: Reader)
      reads this
    {
      lastSourceIndex == Some(d.source) && lastSourceLine == d.sourceLine && lastSourceCol == d.sourceCol
    }

    /** What the mappings say, sources by name. */
    ghost function Meaning(): seq<Located>
      requires Valid()
      reads this, outputBuffer, mappings, mappings.buffer
    {
      LocateAll(Read(START, Mappings()).segments, sources, 0)
    }

    method AddMapping(b: Byte)
      requires Valid()
      modifies mappings, mappings.buffer
      ensures Valid() && Output() == old(Output()) && Mappings() == old(Mappings()) + [b]
      ensures mappings.buffer == old(mappings.buffer) || fresh(mappings.buffer)
    {
      mappings.AddByte(b);
    }

    /** commit, for the segment the cursor holds. */
    method CommitSegment(at: Cursor, lastOutputCol: int, sourceRemap: seq<nat>) returns (newLastOutputCol: int)
      requires Valid()
      modifies this`lastSourceIndex, this`lastSourceLine, this`lastSourceCol, mappings, mappings.buffer
      ensures Valid() && Output() == old(Output())
      ensures mappings.buffer == old(mappings.buffer) || fresh(mappings.buffer)
      ensures Mappings() == old(Mappings()) + CommitBytes(at, lastOutputCol, Lookup(sourceRemap, at.inSourceIndex),
                                                         old(lastSourceIndex), old(lastSourceLine), old(lastSourceCol))
      ensures PenNow() == CommitPen(old(PenNow()), at, lastOutputCol, sourceRemap)
      ensures newLastOutputCol == if at.valpos == 0 then lastOutputCol else at.inOutputCol
      ensures if at.valpos <= 1
              then unchanged(`lastSourceIndex) && unchanged(`lastSourceLine) && unchanged(`lastSourceCol)
              else lastSourceIndex == Lookup(sourceRemap, at.inSourceIndex)
                   && lastSourceLine == at.inSourceLine && lastSourceCol == at.inSourceCol
    {
      newLastOutputCol := lastOutputCol;
      if at.valpos == 0 {
        assert Mappings() == Mappings() + [];
        return;
      }
      ghost var before, first := Mappings(), Encode(at.inOutputCol - lastOutputCol);
      AddNumber(at.inOutputCol - lastOutputCol);
      newLastOutputCol := at.inOutputCol;
      if at.valpos == 1 { return; }
      ghost var rest := OriginBytes(at, Lookup(sourceRemap, at.inSourceIndex), lastSourceIndex, lastSourceLine,
                                    lastSourceCol);
      CommitOrigin(at, Lookup(sourceRemap, at.inSourceIndex));
      AppendTwo(Mappings(), before, first, rest);
    }

    method AddNumber(n: int)
      requires Valid()
      modifies mappings, mappings.buffer
      ensures Valid() && Output() == old(Output()) && Mappings() == old(Mappings()) + Encode(n)
      ensures mappings.buffer == old(mappings.buffer) || fresh(mappings.buffer)
    {
      mappings.AddVLQ(n);
    }

    /** The part of commit for a segment that points at a source. */
    method CommitOrigin(at: Cursor, outSourceIndex: Option<int>)
      requires Valid()
      modifies this`lastSourceIndex, this`lastSourceLine, this`lastSourceCol, mappings, mappings.buffer
      ensures Valid() && Output() == old(Output())
      ensures mappings.buffer == old(mappings.buffer) || fresh(mappings.buffer)
      ensures Mappings() == old(Mappings())
                + OriginBytes(at, outSourceIndex, old(lastSourceIndex), old(lastSourceLine), old(lastSourceCol))
      ensures lastSourceIndex == outSourceIndex && lastSourceLine == at.inSourceLine && lastSourceCol == at.inSourceCol
    {
      AddThree(Difference(outSourceIndex, lastSourceIndex), at.inSourceLine - lastSourceLine,
               at.inSourceCol - lastSourceCol);
      lastSourceIndex, lastSourceLine, lastSourceCol := outSourceIndex, at.inSourceLine, at.inSourceCol;
    }

    method AddThree(i: int, l: int, c: int)
      requires Valid()
      modifies mappings, mappings.buffer
      ensures Valid() && Output() == old(Output())
              && Mappings() == old(Mappings()) + (Encode(i) + Encode(l) + Encode(c))
      ensures mappings.buffer == old(mappings.buffer) || fresh(mappings.buffer)
    {
      ghost var before := Mappings();
      AddNumber(i);
      AddNumber(l);
      AddNumber(c);
      AppendThree(Mappings(), before, Encode(i), Encode(l), Encode(c));
    }

    lemma AppendTwo(all: seq<Byte>, a: seq<Byte>, b: seq<Byte>, c: seq<Byte>)
      requires all == a + b + c
      ensures all == a + (b + c)
    {}

    lemma AppendThree(all: seq<Byte>, a: seq<Byte>, b: seq<Byte>, c: seq<Byte>, d: seq<Byte>)
      requires all == a + b + c + d
      ensures all == a + (b + c + d)
    {}

    // ---- addSource, step by step ----

    /** Merges the names of a map into the list of sources; remap says where each one went. */
    method MergeSources(names: seq<string>) returns (sourceRemap: seq<nat>)
      modifies this`sources
      ensures sources == AddNames(old(sources), names) && old(sources) <= sources
      ensures Remaps(sources, sourceRemap, names) && sourceRemap == RemapOf(sources, names)
      ensures NoDuplicates(old(sources)) ==> NoDuplicates(sources)
    {
      sourceRemap := [];
      ghost var goal := AddNames(sources, names);
      for i := 0 to |names|
        invariant AddNames(sources, names[i..]) == goal && old(sources) <= sources
        invariant Remaps(sources, sourceRemap, names[..i]) && sourceRemap == RemapOf(sources, names[..i])
        invariant NoDuplicates(old(sources)) ==> NoDuplicates(sources)
      {
        var v := names[i];
        assert names[i..][1..] == names[i + 1..];
        var pos := FindSource(v);
        if pos == |sources| {
          RemapStays(sources, names[..i], sourceRemap, [v]);
          sources := sources + [v];
        }
        IndexOfIs(sources, v, pos);
        sourceRemap := sourceRemap + [pos];
        assert sourceRemap == RemapOf(sources, names[..i + 1]);
      }
      assert names[..|names|] == names;
    }

    /** The first place of a name; the number of names if it is not there. */
    method FindSource(v: string) returns (pos: nat)
      ensures pos <= |sources| && v !in sources[..pos] && (pos < |sources| ==> sources[pos] == v)
    {
      pos := 0;
      while pos < |sources| && sources[pos] != v
        invariant pos <= |sources| && v !in sources[..pos]
      {
        pos := pos + 1;
      }
    }

    lemma RemapStays(sources: seq<string>, names: seq<string>, remap: seq<nat>, more: seq<string>)
      requires Remaps(sources, remap, names)
      ensures RemapOf(sources + more, names) == RemapOf(sources, names)
    {
      forall i | 0 <= i < |names| ensures IndexOf(sources + more, names[i]) == IndexOf(sources, names[i]) {
        assert sources[remap[i]] == names[i];
        IndexOfStays(sources, more, names[i]);
      }
    }

    /** Output and input are in step, and the cursor and the builder remember both. */
    ghost predicate Running(base: Reader, input: Reader, remap: seq<nat>,
                            at: Cursor, lastOutputCol: int, outputLine: nat)
      requires Valid()
      reads this, outputBuffer, mappings, mappings.buffer
    {
      var o := Read(START, Mappings());
      && InStep(base, o, input, remap) && Tracks(at, input) && Remembers(o)
      && lastOutputCol == o.col && outputLine == input.line
      && (input.fields == 0 ==> o.col == input.col)
    }

    /** What commit writes is the segment the input holds, remapped and relative to the output. */
    lemma CommitBytesAreText(base: Reader, o: Reader, input: Reader, remap: seq<nat>, at: Cursor)
      requires InStep(base, o, input, remap) && Tracks(at, input) && Remembers(o)
      requires Commit(input).ok && SourcesInRange(Commit(input).segments, |remap|)
      ensures input.fields > 1 ==> 0 <= input.source < |remap|
      ensures CommitBytes(at, o.col, Lookup(remap, at.inSourceIndex), lastSourceIndex, lastSourceLine, lastSourceCol)
           == CommitText(o, input, remap, base.line)
    {
      if input.fields > 0 {
        RemapOneMore(input.segments, SegmentNow(input), remap, base.line);
      }
      assert at == CursorOf(input, at.shift, at.value);
      SegmentBytesAreText(o, input, remap, at.shift, at.value, base.line);
    }

    /** The pen after a segment and some more bytes. */
    ghost function Written(pen: Pen, at: Cursor, lastOutputCol: int, remap: seq<nat>, more: seq<Byte>): Pen {
      var after := CommitPen(pen, at, lastOutputCol, remap);
      after.(text := after.text + more)
    }

    /** Ends the current segment and writes a separator. */
    method WriteSeparator(b: Byte, at: Cursor, lastOutputCol: int, sourceRemap: seq<nat>,
                          ghost base: Reader, ghost input: Reader, ghost outputLine: nat, ghost sound: bool)
      returns (newLastOutputCol: int)
      requires Valid() && (b == SEMICOLON || b == COMMA)
      requires sound ==> Running(base, input, sourceRemap, at, lastOutputCol, outputLine) && RemapInLimit(sourceRemap)
      requires sound ==> Step(input, b).ok && SourcesInRange(Step(input, b).segments, |sourceRemap|)
      modifies this`lastSourceIndex, this`lastSourceLine, this`lastSourceCol, mappings, mappings.buffer
      ensures Valid() && Output() == old(Output())
      ensures mappings.buffer == old(mappings.buffer) || fresh(mappings.buffer)
      ensures PenNow() == Written(old(PenNow()), at, lastOutputCol, sourceRemap, [b])
      ensures newLastOutputCol == if at.valpos == 0 then lastOutputCol else at.inOutputCol
      ensures sound ==> Running(base, Step(input, b), sourceRemap,
                                if b == SEMICOLON then at.(valpos := 0, inOutputCol := 0) else at.(valpos := 0),
                                if b == SEMICOLON then 0 else newLastOutputCol,
                                if b == SEMICOLON then outputLine + 1 else outputLine)
    {
      ghost var before := Mappings();
      ghost var o := Read(START, before);
      ghost var text := CommitBytes(at, lastOutputCol, Lookup(sourceRemap, at.inSourceIndex),
                                    lastSourceIndex, lastSourceLine, lastSourceCol);
      if sound {
        CommitBytesAreText(base, o, input, sourceRemap, at);
        SeparatorInStep(base, o, input, sourceRemap, b);
      }
      newLastOutputCol := CommitSegment(at, lastOutputCol, sourceRemap);
      AddMapping(b);
      AppendTwo(Mappings(), before, text, [b]);
      ReadConcat(START, before, text + [b]);
    }

    method ReadDigit(at: Cursor, v: nat, sourceRemap: seq<nat>, ghost base: Reader, ghost input: Reader,
                     ghost lastOutputCol: int, ghost outputLine: nat, ghost sound: bool)
      returns (newAt: Cursor)
      requires Valid() && v < 255
      requires sound ==> Running(base, input, sourceRemap, at, lastOutputCol, outputLine)
      requires sound ==> v < 64 && Digit(input, v).ok
      ensures newAt == TakeDigit(at, v)
      ensures sound ==> Running(base, Digit(input, v), sourceRemap, newAt, lastOutputCol, outputLine)
    {
      newAt := TakeDigit(at, v);
      if sound {
        TakeDigitTracks(at, input, v);
      }
    }

    /** The mappings say what they said at base, followed by the remapped segments. */
    ghost predicate Appended(base: Reader, segments: seq<Segment>, remap: seq<nat>, sourceLines: nat)
      requires Valid()
      reads this, outputBuffer, mappings, mappings.buffer
    {
      var o := Read(START, Mappings());
      && BetweenSegments(o) && o.col == 0 && Remembers(o) && o.line == base.line + sourceLines
      && SourcesInRange(segments, |remap|)
      && o.segments == base.segments + RemapAll(segments, remap, base.line)
    }

    /** The last commit and the lines the map says nothing about. */
    method FinishSource(at: Cursor, lastOutputCol: int, sourceRemap: seq<nat>, outputLine: nat, sourceLines: nat,
                        ghost base: Reader, ghost input: Reader, ghost sound: bool)
      requires Valid()
      requires sound ==> Running(base, input, sourceRemap, at, lastOutputCol, outputLine) && RemapInLimit(sourceRemap)
      requires sound ==> Commit(input).ok && SourcesInRange(Commit(input).segments, |sourceRemap|)
      requires sound ==>
                 input.line <= sourceLines && (input.line == sourceLines ==> input.fields == 0 && input.col == 0)
      modifies this`lastSourceIndex, this`lastSourceLine, this`lastSourceCol, mappings, mappings.buffer
      ensures Valid() && Output() == old(Output())
      ensures mappings.buffer == old(mappings.buffer) || fresh(mappings.buffer)
      ensures PenNow() == FinishPen(Copying(old(PenNow()), at, lastOutputCol, outputLine), sourceLines, sourceRemap)
      ensures sound ==> Appended(base, Commit(input).segments, sourceRemap, sourceLines)
    {
      ghost var before := Mappings();
      ghost var o := Read(START, before);
      ghost var text := CommitBytes(at, lastOutputCol, Lookup(sourceRemap, at.inSourceIndex),
                                    lastSourceIndex, lastSourceLine, lastSourceCol);
      ghost var n: nat := if outputLine < sourceLines then sourceLines - outputLine else 0;
      if sound {
        CommitBytesAreText(base, o, input, sourceRemap, at);
        FinishInStep(base, o, input, sourceRemap, n);
      }
      var _ := CommitSegment(at, lastOutputCol, sourceRemap);
      PadLines(outputLine, sourceLines);
      AppendTwo(Mappings(), before, text, Semicolons(n));
      ReadConcat(START, before, text + Semicolons(n));
    }

    method PadLines(outputLine: nat, sourceLines: nat)
      requires Valid()
      modifies mappings, mappings.buffer
      ensures Valid() && Output() == old(Output())
      ensures mappings.buffer == old(mappings.buffer) || fresh(mappings.buffer)
      ensures Mappings()
           == old(Mappings()) + Semicolons(if outputLine < sourceLines then sourceLines - outputLine else 0)
    {
      var line := outputLine;
      while line < sourceLines
        invariant outputLine <= line && (line <= sourceLines || line == outputLine)
        invariant Valid() && Output() == old(Output())
        invariant mappings.buffer == old(mappings.buffer) || fresh(mappings.buffer)
        invariant Mappings() == old(Mappings()) + Semicolons(line - outputLine)
      {
        assert Semicolons(line - outputLine) + [SEMICOLON] == Semicolons(line + 1 - outputLine);
        AddMapping(SEMICOLON);
        line := line + 1;
      }
    }

    /** What each byte of a well-formed map finds: no trouble, and sources within the map. */
    lemma SoundStep(in': seq<Byte>, ip: nat, n: nat)
      requires ip < |in'| && Decode(in').ok && SourcesInRange(Decode(in').segments, n)
      ensures Read(START, in'[..ip + 1]) == Step(Read(START, in'[..ip]), in'[ip])
      ensures Read(START, in'[..ip + 1]).ok && SourcesInRange(Read(START, in'[..ip + 1]).segments, n)
      ensures in'[ip] != SEMICOLON && in'[ip] != COMMA ==> CharToInteger(in'[ip]) < 64
    {
      ReadOneMore(START, in', ip);
      OkPrefix(in', ip + 1);
      PrefixSegments(in', ip + 1);
      var some, all := Read(START, in'[..ip + 1]).segments, Decode(in').segments;
      forall i | 0 <= i < |some| && some[i].Mapped? ensures 0 <= some[i].source < n {
        assert some[i] == all[i];
      }
    }

    /** The whole map has been read when the last byte has. */
    lemma SoundEnd(in': seq<Byte>, n: nat, lines: nat)
      requires SoundMap(in', n, lines)
      ensures var input := Read(START, in');
              && Commit(input).ok && SourcesInRange(Commit(input).segments, n)
              && input.line <= lines && (input.line == lines ==> input.fields == 0 && input.col == 0)
    {
      var input := Read(START, in');
      ReadExplainsColumn(START, in');
      SegmentsAreAbove(input, lines);
    }

    lemma SegmentsAreAbove(d: Reader, lines: nat)
      requires Commit(d).ok && LinesBelow(Commit(d).segments, lines) && ColumnExplained(d)
      ensures d.fields > 0 || d.col != 0 ==> d.line < lines
    {
      if d.fields > 0 {
        assert Commit(d).segments[|d.segments|].line == d.line;
      } else if i :| 0 <= i < |d.segments| && d.segments[i].line == d.line {
        assert Commit(d).segments[i].line == d.line;
      }
    }

    static predicate Readable(b: Byte) {
      b == SEMICOLON || b == COMMA || CharToInteger(b) != 255
    }

    /** One byte of the input mappings; false if it is no mapping character. */
    method CopyByte(b: Byte, at: Cursor, lastOutputCol: int, outputLine: nat, sourceRemap: seq<nat>,
                    ghost base: Reader, ghost input: Reader, ghost sound: bool)
      returns (valid: bool, newAt: Cursor, newLastOutputCol: int, newOutputLine: nat)
      requires Valid()
      requires sound ==> Running(base, input, sourceRemap, at, lastOutputCol, outputLine) && RemapInLimit(sourceRemap)
      requires sound ==> Step(input, b).ok && SourcesInRange(Step(input, b).segments, |sourceRemap|)
      modifies this`lastSourceIndex, this`lastSourceLine, this`lastSourceCol, mappings, mappings.buffer
      ensures Valid() && Output() == old(Output())
      ensures mappings.buffer == old(mappings.buffer) || fresh(mappings.buffer)
      ensures valid <==> Readable(b)
      ensures valid ==> Copying(PenNow(), newAt, newLastOutputCol, newOutputLine)
                        == CopyStep(Copying(old(PenNow()), at, lastOutputCol, outputLine), b, sourceRemap)
      ensures sound ==> valid && Running(base, Step(input, b), sourceRemap, newAt, newLastOutputCol, newOutputLine)
    {
      valid, newAt, newLastOutputCol, newOutputLine := true, at, lastOutputCol, outputLine;
      if b == SEMICOLON {
        var _ := WriteSeparator(b, at, lastOutputCol, sourceRemap, base, input, outputLine, sound);
        newAt, newLastOutputCol, newOutputLine := at.(valpos := 0, inOutputCol := 0), 0, outputLine + 1;
      } else if b == COMMA {
        newLastOutputCol := WriteSeparator(b, at, lastOutputCol, sourceRemap, base, input, outputLine, sound);
        newAt := at.(valpos := 0);
      } else {
        if CharToInteger(b) == 255 { return false, at, lastOutputCol, outputLine; }
        newAt := ReadDigit(at, CharToInteger(b), sourceRemap, base, input, lastOutputCol, outputLine, sound);
      }
    }

    ghost predicate SoundMap(in': seq<Byte>, n: nat, lines: nat) {
      Decode(in').ok && SourcesInRange(Decode(in').segments, n) && LinesBelow(Decode(in').segments, lines)
      && Decode(in').line <= lines
    }

    lemma RunningFromStart(base: Reader, remap: seq<nat>)
      requires Valid() && base == Read(START, Mappings()) && BetweenSegments(base) && base.col == 0 && Remembers(base)
      ensures Running(base, START, remap, CURSOR, 0, 0)
    {
      assert base.segments == base.segments + RemapAll([], remap, base.line);
    }

    static ghost predicate ReadableUpto(bs: seq<Byte>, n: nat) {
      forall i {:trigger ReadableAt(bs, i)} :: 0 <= i < n ==> ReadableAt(bs, i)
    }

    static ghost predicate ReadableAt(bs: seq<Byte>, i: int) {
      0 <= i < |bs| && Readable(bs[i])
    }

    static lemma ReadableUptoAll(bs: seq<Byte>)
      requires ReadableUpto(bs, |bs|)
      ensures forall i :: 0 <= i < |bs| ==> Readable(bs[i])
    {
      forall i | 0 <= i < |bs| ensures Readable(bs[i]) { assert ReadableAt(bs, i); }
    }

    /** Where the loop of addSource stands after ip bytes. */
    ghost predicate Copied(start: Copying, in': seq<Byte>, ip: nat, remap: seq<nat>, base: Reader, input: Reader,
                           sound: bool, at: Cursor, lastOutputCol: int, outputLine: nat)
      requires Valid() && ip <= |in'|
      reads this, outputBuffer, mappings, mappings.buffer
    {
      && CopyUpto(start, in', ip, remap) == Copying(PenNow(), at, lastOutputCol, outputLine)
      && ReadableUpto(in', ip) && input == Read(START, in'[..ip])
      && (sound ==> Running(base, input, remap, at, lastOutputCol, outputLine))
    }

    /** One turn of that loop. */
    method CopyNext(in': seq<Byte>, ip: nat, sourceRemap: seq<nat>, at: Cursor, lastOutputCol: int, outputLine: nat,
                    ghost start: Copying, ghost base: Reader, ghost input: Reader, ghost sound: bool)
      returns (valid: bool, newAt: Cursor, newLastOutputCol: int, newOutputLine: nat, ghost newInput: Reader)
      requires Valid() && ip < |in'|
      requires Copied(start, in', ip, sourceRemap, base, input, sound, at, lastOutputCol, outputLine)
      requires sound ==>
                 Decode(in').ok && SourcesInRange(Decode(in').segments, |sourceRemap|) && RemapInLimit(sourceRemap)
      modifies this`lastSourceIndex, this`lastSourceLine, this`lastSourceCol, mappings, mappings.buffer
      ensures Valid() && Output() == old(Output())
      ensures mappings.buffer == old(mappings.buffer) || fresh(mappings.buffer)
      ensures if valid
              then Copied(start, in', ip + 1, sourceRemap, base, newInput, sound, newAt, newLastOutputCol,
                          newOutputLine)
              else !ReadableAt(in', ip) && !sound
    {
      ReadOneMore(START, in', ip);
      newInput := Step(input, in'[ip]);
      if sound { SoundStep(in', ip, |sourceRemap|); }
      valid, newAt, newLastOutputCol, newOutputLine :=
        CopyByte(in'[ip], at, lastOutputCol, outputLine, sourceRemap, base, input, sound);
    }

    /** The loop of addSource over the input mappings. */
    method CopyAll(in': seq<Byte>, sourceRemap: seq<nat>, ghost start: Copying, ghost base: Reader, ghost sound: bool)
      returns (valid: bool, at: Cursor, lastOutputCol: int, outputLine: nat, ghost input: Reader)
      requires Valid() && Copied(start, in', 0, sourceRemap, base, START, sound, CURSOR, 0, 0)
      requires sound ==>
                 Decode(in').ok && SourcesInRange(Decode(in').segments, |sourceRemap|) && RemapInLimit(sourceRemap)
      modifies this`lastSourceIndex, this`lastSourceLine, this`lastSourceCol, mappings, mappings.buffer
      ensures Valid() && Output() == old(Output())
      ensures mappings.buffer == old(mappings.buffer) || fresh(mappings.buffer)
      ensures if valid then Copied(start, in', |in'|, sourceRemap, base, input, sound, at, lastOutputCol, outputLine)
              else !sound && !ReadableUpto(in', |in'|)
    {
      var ip := 0;
      at, lastOutputCol, outputLine, input := CURSOR, 0, 0, START;
      while ip < |in'|
        invariant ip <= |in'|
        invariant Valid() && Output() == old(Output())
        invariant mappings.buffer == old(mappings.buffer) || fresh(mappings.buffer)
        invariant Copied(start, in', ip, sourceRemap, base, input, sound, at, lastOutputCol, outputLine)
      {
        valid, at, lastOutputCol, outputLine, input :=
          CopyNext(in', ip, sourceRemap, at, lastOutputCol, outputLine, start, base, input, sound);
        if !valid { return; }
        ip := ip + 1;
      }
      valid := true;
    }

    /** All of addSource after the names have been merged. */
    method CopyMappings(in': seq<Byte>, sourceRemap: seq<nat>, sourceLines: nat, ghost base: Reader, ghost sound: bool)
      returns (valid: bool)
      requires Valid()
      requires sound ==> SoundMap(in', |sourceRemap|, sourceLines) && RemapInLimit(sourceRemap)
      requires sound ==> base == Read(START, Mappings()) && BetweenSegments(base) && base.col == 0 && Remembers(base)
      modifies this`lastSourceIndex, this`lastSourceLine, this`lastSourceCol, mappings, mappings.buffer
      ensures Valid() && Output() == old(Output())
      ensures mappings.buffer == old(mappings.buffer) || fresh(mappings.buffer)
      ensures valid <==> forall i :: 0 <= i < |in'| ==> Readable(in'[i])
      ensures valid ==> PenNow() == CopyMap(old(PenNow()), in', sourceLines, sourceRemap)
      ensures sound ==> valid && Appended(base, Decode(in').segments, sourceRemap, sourceLines)
    {
      ghost var start := Copying(PenNow(), CURSOR, 0, 0);
      if sound { RunningFromStart(base, sourceRemap); }
      var at, lastOutputCol, outputLine;
      ghost var input;
      valid, at, lastOutputCol, outputLine, input := CopyAll(in', sourceRemap, start, base, sound);
      if valid {
        ReadableUptoAll(in');
        assert in'[..|in'|] == in';
        if sound { SoundEnd(in', |sourceRemap|, sourceLines); }
        FinishSource(at, lastOutputCol, sourceRemap, outputLine, sourceLines, base, Read(START, in'), sound);
      }
    }

    /** addSource. Whatever the earlier sources were, adding one with a well-formed map appends
        exactly what that map says, moved down by the lines already there; the map then again
        describes the whole output. An unreadable byte makes it throw. */
    method AddSource(source: Source) returns (valid: bool)
      requires Valid() && source.Valid()
      modifies this, outputBuffer, outputBuffer.buffer, mappings, mappings.buffer
      ensures Valid()
      ensures mappings.buffer == old(mappings.buffer) || fresh(mappings.buffer)
      ensures outputBuffer.buffer == old(outputBuffer.buffer) || fresh(outputBuffer.buffer)
      ensures Output() == old(Output()) + source.content
      ensures sources == AddNames(old(sources), source.sourceMap.sources)
      ensures valid <==> forall i :: 0 <= i < |source.sourceMap.mappings| ==> Readable(source.sourceMap.mappings[i])
      ensures valid ==> PenNow() == CopyMap(old(PenNow()), source.sourceMap.mappings, source.sourceLines,
                                           RemapOf(sources, source.sourceMap.sources))
      ensures old(Good()) && WellFormed(source.sourceMap, source.sourceLines) && |sources| <= LIMIT ==>
                && valid && Good()
                && Meaning() == old(Meaning()) + SourceMeaning(source.sourceMap, CountNewlines(old(Output())))
    {
      ghost var base, names, lines := Read(START, Mappings()), sources, CountNewlines(Output());
      ghost var good := Good();
      AppendContent(source);
      var sourceRemap := MergeSources(source.sourceMap.sources);
      ghost var sound := good && WellFormed(source.sourceMap, source.sourceLines) && |sources| <= LIMIT;
      valid := CopyMappings(source.sourceMap.mappings, sourceRemap, source.sourceLines, base, sound);
      if sound {
        GoodAgain(base, source, names, sourceRemap, lines);
      }
    }

    method AppendContent(source: Source)
      requires Valid() && source.Valid()
      modifies outputBuffer, outputBuffer.buffer
      ensures Valid() && Mappings() == old(Mappings())
      ensures outputBuffer.buffer == old(outputBuffer.buffer) || fresh(outputBuffer.buffer)
      ensures Output() == old(Output()) + source.content
      ensures CountNewlines(Output()) == CountNewlines(old(Output())) + source.sourceLines
    {
      CountConcat(Output(), source.content);
      outputBuffer.AddBuffer(source.content);
    }

    lemma GoodAgain(base: Reader, source: Source, names: seq<string>, remap: seq<nat>, lines: nat)
      requires Valid() && base.line == lines && SourcesInRange(base.segments, |names|)
      requires SourcesInRange(Decode(source.sourceMap.mappings).segments, |source.sourceMap.sources|)
      requires names <= sources && Remaps(sources, remap, source.sourceMap.sources)
      requires NoDuplicates(sources) && |sources| <= LIMIT
      requires Appended(base, Decode(source.sourceMap.mappings).segments, remap, source.sourceLines)
      requires CountNewlines(Output()) == lines + source.sourceLines
      ensures Good()
      ensures Meaning() == LocateAll(base.segments, names, 0) + SourceMeaning(source.sourceMap, lines)
    {
      MeaningGrows(base, Read(START, Mappings()), Decode(source.sourceMap.mappings).segments, names, remap,
                   source.sourceMap.sources);
    }

    lemma MeaningGrows(base: Reader, o: Reader, segments: seq<Segment>, names: seq<string>,
                       remap: seq<nat>, sourceNames: seq<string>)
      requires names <= sources && SourcesInRange(base.segments, |names|)
      requires Remaps(sources, remap, sourceNames) && SourcesInRange(segments, |sourceNames|)
      requires o.segments == base.segments + RemapAll(segments, remap, base.line)
      ensures SourcesInRange(o.segments, |sources|)
      ensures LocateAll(o.segments, sources, 0)
           == LocateAll(base.segments, names, 0) + LocateAll(segments, sourceNames, base.line)
    {
      MoreSourcesKeepMeaning(base.segments, names, sources);
      RemapKeepsMeaning(segments, remap, base.line, sources, sourceNames);
      LocateConcat(base.segments, RemapAll(segments, remap, base.line), sources);
    }

    /** addLine, for a text given as bytes; the map stays right if the text is one line. */
    method AddLine(text: seq<Byte>)
      requires Valid()
      modifies outputBuffer, outputBuffer.buffer, mappings, mappings.buffer
      ensures Valid()
      ensures mappings.buffer == old(mappings.buffer) || fresh(mappings.buffer)
      ensures outputBuffer.buffer == old(outputBuffer.buffer) || fresh(outputBuffer.buffer)
      ensures Output() == old(Output()) + text + [NEWLINE]
      ensures old(Good()) ==> (Good() <==> CountNewlines(text) == 0)
      ensures old(Good()) ==> Meaning() == old(Meaning())
    {
      ghost var d, lines, before := Read(START, Mappings()), CountNewlines(Output()), Mappings();
      CountConcat(Output(), text);
      CountConcat(Output() + text, [NEWLINE]);
      outputBuffer.AddBuffer(text);
      outputBuffer.AddByte(NEWLINE);
      AddMapping(SEMICOLON);
      LineAdded(before, d);
      LineDescribed(d, Read(START, Mappings()), lines, CountNewlines(text));
    }

    /** One more line without segments. */
    lemma LineAdded(mappings: seq<Byte>, d: Reader)
      requires d == Read(START, mappings)
      ensures BetweenSegments(d) ==> Read(START, mappings + [SEMICOLON]) == d.(line := d.line + 1, col := 0)
    {
      ReadConcat(START, mappings, [SEMICOLON]);
      assert Semicolons(1) == [SEMICOLON];
      if BetweenSegments(d) {
        SemicolonsReadBack(d, 1);
      }
    }

    lemma LineDescribed(d: Reader, e: Reader, lines: nat, more: nat)
      requires BetweenSegments(d) ==> e == d.(line := d.line + 1, col := 0)
      ensures Describes(d, lines) ==> (Describes(e, lines + more + 1) <==> more == 0)
    {}

    method ToContent() returns (bs: seq<Byte>)
      requires Valid()
      ensures bs == Output()
    {
      bs := outputBuffer.ToBuffer();
    }

    method ToSourceMap(sourceRoot: Option<string>) returns (sourceMap': SourceMap)
      requires Valid()
      ensures sourceMap' == SourceMap(sources, Mappings(), sourceRoot)
    {
      var bs := mappings.ToBuffer();
      sourceMap' := SourceMap(sources, bs, sourceRoot);
    }
  }
}
