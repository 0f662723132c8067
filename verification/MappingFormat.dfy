/** Reading mappings by the rules of the format (Source Map Revision 3 Proposal, "Proposed Format"),
    said of the numbers that stand in the text: which coordinate each of them moves, what starts over,
    and what a separator does. */
module MappingFormat {
  import opened Collections
  import opened Vlq
  import opened Options
  import opened SourceMaps
  import opened SourceMapMeaning

  predicate Small(n: int) {
    -0x4000_0000 < n < 0x4000_0000
  }

  predicate IsCoordinate(x: int) {
    0 <= x < 0x4000_0000
  }

  /** Between two numbers nothing is left of the one before. */
  lemma StepKeepsRaw(d: Reader, b: Byte)
    requires d.digits == 0 ==> d.raw == 0
    ensures Step(d, b).digits == 0 ==> Step(d, b).raw == 0
  {}

  lemma {:induction false} ReadKeepsRaw(d: Reader, bs: seq<Byte>)
    requires d.digits == 0 ==> d.raw == 0
    ensures Read(d, bs).digits == 0 ==> Read(d, bs).raw == 0
    decreases |bs|
  {
    if bs != [] {
      StepKeepsRaw(d, bs[0]);
      ReadKeepsRaw(Step(d, bs[0]), bs[1..]);
    }
  }

  /** Where a separator leaves a reader that has ended its segment: `;` starts the next line. */
  function Past(d: Reader, separator: char): Reader {
    if separator == ';' then d.(line := d.line + 1, col := 0) else d
  }

  /** After a text that decodes, and a separator. */
  lemma Separated(mappings: seq<Byte>, separator: char, text: seq<Byte>)
    requires Decode(mappings).ok && (separator == ',' || separator == ';')
    ensures var e := Past(Decode(mappings), separator);
            Read(START, mappings + [separator as int] + text) == Read(e, text) && Starts(e)
  {
    ReadInTurn(START, mappings, [separator as int], text);
    ReadKeepsRaw(START, mappings);
    ReadSeparator(Read(START, mappings), separator);
  }

  lemma ReadInTurn(d: Reader, a: seq<Byte>, b: seq<Byte>, c: seq<Byte>)
    ensures Read(d, a + b + c) == Read(Read(Read(d, a), b), c)
  {
    ReadConcat(d, a + b, c);
    ReadConcat(d, a, b);
  }

  lemma ReadSeparator(d: Reader, separator: char)
    requires separator == ',' || separator == ';'
    ensures Read(d, [separator as int]) == Past(Commit(d), separator)
  {
    var b := separator as int;
    assert [b][1..] == [] && Read(Step(d, b), []) == Step(d, b);
  }

  /** A segment may begin. */
  predicate Starts(e: Reader) {
    e.ok && e.raw == 0 && e.digits == 0 && e.fields == 0
  }

  /** A number in front of more text. */
  lemma ReadNumberFirst(e: Reader, a: int, text: seq<Byte>)
    requires e.raw == 0 && e.digits == 0 && Small(a)
    ensures Read(e, Encode(a) + text) == Read(Field(e, a), text)
    ensures Field(e, a).raw == 0 && Field(e, a).digits == 0
  {
    ReadConcat(e, Encode(a), text);
    EncodeReadsBack(e, a);
  }

  function FourNumbers(a: int, b: int, c: int, f: int): seq<Byte> {
    Encode(a) + (Encode(b) + (Encode(c) + Encode(f)))
  }

  lemma ReadFields(e: Reader, a: int, b: int, c: int, f: int)
    requires e.raw == 0 && e.digits == 0 && Small(a) && Small(b) && Small(c) && Small(f)
    ensures Read(e, FourNumbers(a, b, c, f)) == Field(Field(Field(Field(e, a), b), c), f)
  {
    ReadNumberFirst(e, a, Encode(b) + (Encode(c) + Encode(f)));
    ReadNumberFirst(Field(e, a), b, Encode(c) + Encode(f));
    ReadNumberFirst(Field(Field(e, a), b), c, Encode(f));
    EncodeReadsBack(Field(Field(Field(e, a), b), c), f);
  }

  lemma FourFields(e: Reader, a: int, b: int, c: int, f: int)
    requires Starts(e) && IsCoordinate(e.col + a) && IsCoordinate(e.source + b)
    requires IsCoordinate(e.sourceLine + c) && IsCoordinate(e.sourceCol + f)
    ensures Commit(Field(Field(Field(Field(e, a), b), c), f)) ==
            e.(col := e.col + a, source := e.source + b, sourceLine := e.sourceLine + c, sourceCol := e.sourceCol + f,
               segments := e.segments
                 + [Mapped(e.line, e.col + a, e.source + b, e.sourceLine + c, e.sourceCol + f)])
  {}

  lemma ReadColumn(e: Reader, a: int, text: seq<Byte>)
    requires Starts(e) && Small(a) && IsCoordinate(e.col + a) && text == Encode(a)
    ensures Commit(Read(e, text)) == e.(col := e.col + a, segments := e.segments + [Generated(e.line, e.col + a)])
  {
    EncodeReadsBack(e, a);
  }

  /** A segment of one number: the column, relative to the one before on its line. */
  lemma GeneratedFollows(mappings: seq<Byte>, separator: char, a: int)
    requires Decode(mappings).ok && (separator == ',' || separator == ';')
    requires Small(a) && IsCoordinate(Past(Decode(mappings), separator).col + a)
    ensures var e := Past(Decode(mappings), separator);
            Decode(mappings + [separator as int] + Encode(a)) ==
              e.(col := e.col + a, segments := e.segments + [Generated(e.line, e.col + a)])
  {
    var e := Past(Decode(mappings), separator);
    Separated(mappings, separator, Encode(a));
    ReadColumn(e, a, Encode(a));
  }

  /** A segment of four numbers: the column, the source, the line and the column in there, each relative
      to the one before, the column on its line, the others over the whole text. */
  lemma MappedFollows(mappings: seq<Byte>, separator: char, a: int, b: int, c: int, f: int)
    requires Decode(mappings).ok && (separator == ',' || separator == ';')
    requires Small(a) && Small(b) && Small(c) && Small(f)
    requires var e := Past(Decode(mappings), separator);
             && IsCoordinate(e.col + a) && IsCoordinate(e.source + b)
             && IsCoordinate(e.sourceLine + c) && IsCoordinate(e.sourceCol + f)
    ensures var e := Past(Decode(mappings), separator);
            Decode(mappings + [separator as int] + FourNumbers(a, b, c, f)) ==
              e.(col := e.col + a, source := e.source + b, sourceLine := e.sourceLine + c, sourceCol := e.sourceCol + f,
                 segments := e.segments
                   + [Mapped(e.line, e.col + a, e.source + b, e.sourceLine + c, e.sourceCol + f)])
  {
    var e := Past(Decode(mappings), separator);
    Separated(mappings, separator, FourNumbers(a, b, c, f));
    ReadFields(e, a, b, c, f);
    FourFields(e, a, b, c, f);
  }

  /** The first segment of a text is relative to zero. */
  lemma FirstSegment(a: int, b: int, c: int, f: int)
    requires IsCoordinate(a) && IsCoordinate(b) && IsCoordinate(c) && IsCoordinate(f)
    ensures Decode(FourNumbers(a, b, c, f)) == Reader(0, 0, 0, 0, a, b, c, f, [Mapped(0, a, b, c, f)], true)
  {
    ReadFields(START, a, b, c, f);
    FourFields(START, a, b, c, f);
  }

  lemma FirstColumn(a: int)
    requires IsCoordinate(a)
    ensures Decode(Encode(a)) == Reader(0, 0, 0, 0, a, 0, 0, 0, [Generated(0, a)], true)
  {
    EncodeReadsBack(START, a);
  }

  /** A separator alone says nothing but where the line ends. */
  lemma SeparatorFollows(mappings: seq<Byte>, separator: char)
    requires Decode(mappings).ok && (separator == ',' || separator == ';')
    ensures Decode(mappings + [separator as int]) == Past(Decode(mappings), separator)
  {
    Separated(mappings, separator, []);
    assert mappings + [separator as int] + [] == mappings + [separator as int];
  }

  // ---- What the numbers say about the text ----

  /** Where a reader that begins a segment comes to by four numbers: a place in the text, after `shift`
      earlier lines, and a place in the source that the running number names. */
  function OriginFrom(e: Reader, sources: seq<string>, shift: nat, a: int, b: int, c: int, f: int): Located
    requires 0 <= e.source + b < |sources|
  {
    Origin(e.line + shift, e.col + a, sources[e.source + b], e.sourceLine + c, e.sourceCol + f)
  }

  /** A map of one segment of four numbers. */
  lemma FirstOrigin(sources: seq<string>, root: Option<string>, shift: nat, a: int, b: int, c: int, f: int)
    requires IsCoordinate(a) && IsCoordinate(b) && b < |sources| && IsCoordinate(c) && IsCoordinate(f)
    ensures SourceMeaning(SourceMap(sources, FourNumbers(a, b, c, f), root), shift)
         == [Origin(shift, a, sources[b], c, f)]
  {
    FirstSegment(a, b, c, f);
  }

  /** One more such segment, after a `,` or on the next line. */
  lemma OriginFollows(sources: seq<string>, root: Option<string>, shift: nat, mappings: seq<Byte>, separator: char,
                      a: int, b: int, c: int, f: int)
    requires Decode(mappings).ok && (separator == ',' || separator == ';')
    requires Small(a) && Small(b) && Small(c) && Small(f)
    requires var e := Past(Decode(mappings), separator);
             && IsCoordinate(e.col + a) && IsCoordinate(e.source + b) && e.source + b < |sources|
             && IsCoordinate(e.sourceLine + c) && IsCoordinate(e.sourceCol + f)
    ensures SourceMeaning(SourceMap(sources, mappings + [separator as int] + FourNumbers(a, b, c, f), root), shift)
         == SourceMeaning(SourceMap(sources, mappings, root), shift)
            + [OriginFrom(Past(Decode(mappings), separator), sources, shift, a, b, c, f)]
  {
    var e, more := Past(Decode(mappings), separator), mappings + [separator as int] + FourNumbers(a, b, c, f);
    MappedFollows(mappings, separator, a, b, c, f);
    SegmentAdds(mappings, more, Mapped(e.line, e.col + a, e.source + b, e.sourceLine + c, e.sourceCol + f),
                sources, root, shift);
  }

  lemma SegmentAdds(mappings: seq<Byte>, more: seq<Byte>, s: Segment, sources: seq<string>, root: Option<string>,
                    shift: nat)
    requires Decode(more).segments == Decode(mappings).segments + [s]
    ensures SourceMeaning(SourceMap(sources, more, root), shift)
         == SourceMeaning(SourceMap(sources, mappings, root), shift) + [Locate(s, sources, shift)]
  {}
}
