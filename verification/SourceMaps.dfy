/** What the mappings of a source map mean (Source Map Revision 3 Proposal, "Proposed Format"):
    groups separated by `;` are lines, segments separated by `,` hold 1, 4 or 5 Base64 VLQ
    numbers, each relative to its predecessor; the column restarts on every line. */
module SourceMaps {
  import opened Collections
  import opened Vlq

  const SEMICOLON: Byte := ';' as int
  const COMMA: Byte := ',' as int

  /** Coordinates stay below this bound, so that differences fit a signed 31-bit VLQ. */
  const LIMIT := TWO_30

  datatype Segment =
    | Generated(line: nat, col: int)
    | Mapped(line: nat, col: int, source: int, sourceLine: int, sourceCol: int)

  /** A reader of mappings between two bytes: the number and the segment being read, the
      running coordinates, and the segments read so far. */
  datatype Reader = Reader(
    raw: nat, digits: nat, fields: nat,
    line: nat, col: int, source: int, sourceLine: int, sourceCol: int,
    segments: seq<Segment>, ok: bool)

  const START := Reader(0, 0, 0, 0, 0, 0, 0, 0, [], true)

  predicate InLimit(x: int) {
    0 <= x < LIMIT
  }

  /** A complete number: it moves the coordinate its position in the segment stands for. The
      fifth one (the name) is dropped. */
  function Field(d: Reader, n: int): Reader {
    var e := d.(fields := d.fields + 1);
    match d.fields
    case 0 => e.(col := d.col + n, ok := d.ok && InLimit(d.col + n))
    case 1 => e.(source := d.source + n, ok := d.ok && InLimit(d.source + n))
    case 2 => e.(sourceLine := d.sourceLine + n, ok := d.ok && InLimit(d.sourceLine + n))
    case 3 => e.(sourceCol := d.sourceCol + n, ok := d.ok && InLimit(d.sourceCol + n))
    case _ => e
  }

  function Digit(d: Reader, v: nat): Reader
    requires v < 64
  {
    var raw := d.raw + InPlace(v % 32, d.digits);
    if v >= 32 then d.(raw := raw, digits := d.digits + 1)
    else Field(d.(raw := 0, digits := 0), Signed(raw))
  }

  /** The end of a segment. */
  function Commit(d: Reader): Reader {
    if d.digits > 0 then d.(ok := false)
    else if d.fields == 0 then d
    else if d.fields == 1 then d.(fields := 0, segments := d.segments + [Generated(d.line, d.col)])
    else if d.fields == 4 || d.fields == 5 then
      d.(fields := 0, segments := d.segments + [Mapped(d.line, d.col, d.source, d.sourceLine, d.sourceCol)])
    else d.(ok := false)
  }

  function Step(d: Reader, b: Byte): Reader {
    if b == SEMICOLON then var e := Commit(d); e.(line := e.line + 1, col := 0)
    else if b == COMMA then Commit(d)
    else if CharToInteger(b) >= 64 then d.(ok := false)
    else Digit(d, CharToInteger(b))
  }

  function Read(d: Reader, bs: seq<Byte>): Reader
    decreases |bs|
  {
    if bs == [] then d else Read(Step(d, bs[0]), bs[1..])
  }

  function Decode(mappings: seq<Byte>): Reader {
    Commit(Read(START, mappings))
  }

  lemma {:induction false} ReadConcat(d: Reader, a: seq<Byte>, b: seq<Byte>)
    ensures Read(d, a + b) == Read(Read(d, a), b)
    decreases |a|
  {
    if a == [] {
      assert a + b == b;
    } else {
      assert (a + b)[1..] == a[1..] + b;
      ReadConcat(Step(d, a[0]), a[1..], b);
    }
  }

  lemma ReadOneMore(d: Reader, bs: seq<Byte>, n: nat)
    requires n < |bs|
    ensures Read(d, bs[..n + 1]) == Step(Read(d, bs[..n]), bs[n])
  {
    assert bs[..n + 1] == bs[..n] + [bs[n]];
    ReadConcat(d, bs[..n], [bs[n]]);
    assert Read(Step(Read(d, bs[..n]), bs[n]), []) == Step(Read(d, bs[..n]), bs[n]);
  }

  /** Trouble, once met, is not forgotten. */
  lemma {:induction false} OkFromStart(d: Reader, bs: seq<Byte>)
    requires Read(d, bs).ok
    ensures d.ok
    decreases |bs|
  {
    if bs != [] { OkFromStart(Step(d, bs[0]), bs[1..]); }
  }

  lemma OkPrefix(bs: seq<Byte>, n: nat)
    requires n <= |bs| && Decode(bs).ok
    ensures Read(START, bs[..n]).ok
  {
    assert bs == bs[..n] + bs[n..];
    ReadConcat(START, bs[..n], bs[n..]);
    OkFromStart(Read(START, bs[..n]), bs[n..]);
  }

  // ---- Reading back what addVLQ writes ----

  lemma {:induction false} DigitsReadBack(d: Reader, rest: nat)
    requires rest < TWO_31
    ensures Read(d, DigitBytes(rest)) == Field(d.(raw := 0, digits := 0), Signed(d.raw + InPlace(rest, d.digits)))
    decreases rest
  {
    var bs, low := DigitBytes(rest), rest % 32;
    FirstDigit(rest);
    StepDigit(d, bs[0], low, rest / 32 > 0);
    InPlaceSplit(rest, d.digits);
    if rest / 32 > 0 {
      assert bs[1..] == DigitBytes(rest / 32);
      DigitsReadBack(Step(d, bs[0]), rest / 32);
    } else {
      assert bs[1..] == [] && rest / 32 == 0;
    }
  }

  /** Reading a byte that is a digit: its low five bits, and whether more are to come. */
  lemma StepDigit(d: Reader, b: Byte, low: nat, more: bool)
    requires low < 32 && CharToInteger(b) == if more then low + 32 else low
    ensures Step(d, b) ==
            if more then d.(raw := d.raw + InPlace(low, d.digits), digits := d.digits + 1)
            else Field(d.(raw := 0, digits := 0), Signed(d.raw + InPlace(low, d.digits)))
  {
    assert (low + 32) % 32 == low && low % 32 == low;
  }

  lemma FreshDigitsReadBack(d: Reader, w: nat, n: int)
    requires w < TWO_31 && Signed(w) == n && d.raw == 0 && d.digits == 0
    ensures Read(d, DigitBytes(w)) == Field(d, n)
  {
    DigitsReadBack(d, w);
    assert InPlace(w, 0) == w;
    assert d.(raw := 0, digits := 0) == d;
  }

  /** A number in range that addVLQ writes is read back as itself, ending with its last byte. */
  lemma EncodeReadsBack(d: Reader, n: int)
    requires -TWO_30 < n < TWO_30 && d.raw == 0 && d.digits == 0
    ensures Read(d, Encode(n)) == Field(d, n)
  {
    SignFirstInRange(n);
    FreshDigitsReadBack(d, SignFirst(n), n);
  }

  /** What a reader gets for the digits addVLQ writes for n. */
  function ReadAs(n: int): int {
    if SignFirst(n) >= 0 then Signed(SignFirst(n)) else Signed(SignFirst(n) % 32)
  }

  lemma ReadAsIff(n: int)
    ensures ReadAs(n) == n <==> -TWO_30 < n < TWO_30
  {
    SignFirstInRange(n);
  }

  lemma OneNumberRead(d: Reader, n: int)
    requires d.raw == 0 && d.digits == 0
    ensures Read(d, Encode(n)) == Field(d, ReadAs(n))
  {
    SignFirstInRange(n);
    var w := SignFirst(n);
    if w >= 0 {
      FreshDigitsReadBack(d, w, Signed(w));
    } else {
      assert DigitBytes(w) == DigitBytes(w % 32);
      FreshDigitsReadBack(d, w % 32, Signed(w % 32));
    }
  }

  lemma FieldIff(d: Reader, m: int, n: int)
    ensures Field(d, m) == Field(d, n) <==> d.fields >= 4 || m == n
  {}

  /** addVLQ round-trips exactly the integers below 2^30 in absolute value: outside, what the
      reader gets is another number (a name, which is dropped, does not matter). */
  lemma RoundTripIff(d: Reader, n: int)
    requires d.raw == 0 && d.digits == 0
    ensures Read(d, Encode(n)).fields == d.fields + 1
    ensures Read(d, Encode(n)) == Field(d, n) <==> d.fields >= 4 || -TWO_30 < n < TWO_30
  {
    OneNumberRead(d, n);
    ReadAsIff(n);
    FieldIff(d, ReadAs(n), n);
  }

  // ---- Writing segments by the rules of the format ----

  /** The running coordinates a segment is written relative to. */
  datatype Position = Position(col: int, source: int, sourceLine: int, sourceCol: int)

  function PositionOf(d: Reader): Position {
    Position(d.col, d.source, d.sourceLine, d.sourceCol)
  }

  predicate PositionInLimit(p: Position) {
    InLimit(p.col) && InLimit(p.source) && InLimit(p.sourceLine) && InLimit(p.sourceCol)
  }

  predicate SegmentInLimit(s: Segment) {
    InLimit(s.col) && (s.Mapped? ==> InLimit(s.source) && InLimit(s.sourceLine) && InLimit(s.sourceCol))
  }

  function After(p: Position, s: Segment): Position {
    match s
    case Generated(_, col) => p.(col := col)
    case Mapped(_, col, source, sourceLine, sourceCol) => Position(col, source, sourceLine, sourceCol)
  }

  /** One segment, relative to a position. */
  function SegmentText(p: Position, s: Segment): seq<Byte> {
    if s.Generated? then Encode(s.col - p.col)
    else Encode(s.col - p.col) + OriginText(s.source - p.source, s.sourceLine - p.sourceLine, s.sourceCol - p.sourceCol)
  }

  function OriginText(source: int, sourceLine: int, sourceCol: int): seq<Byte> {
    Encode(source) + Encode(sourceLine) + Encode(sourceCol)
  }

  /** The reader stands between segments. */
  predicate BetweenSegments(d: Reader) {
    d.ok && d.raw == 0 && d.digits == 0 && d.fields == 0 && PositionInLimit(PositionOf(d))
  }

  /** The reader with segment s read but not yet ended. */
  function WithSegment(d: Reader, s: Segment): Reader {
    var p := After(PositionOf(d), s);
    d.(fields := if s.Generated? then 1 else 4,
       col := p.col, source := p.source, sourceLine := p.sourceLine, sourceCol := p.sourceCol)
  }

  lemma ReadFour(d: Reader, a: seq<Byte>, b: seq<Byte>, c: seq<Byte>, e: seq<Byte>)
    ensures Read(d, a + (b + c + e)) == Read(Read(Read(Read(d, a), b), c), e)
  {
    ReadConcat(d, a, b + c + e);
    ReadConcat(Read(d, a), b + c, e);
    ReadConcat(Read(d, a), b, c);
  }

  lemma FieldsMakeSegment(d: Reader, s: Segment)
    requires BetweenSegments(d) && SegmentInLimit(s) && s.Mapped?
    ensures Field(Field(Field(Field(d, s.col - d.col), s.source - d.source),
                        s.sourceLine - d.sourceLine), s.sourceCol - d.sourceCol) == WithSegment(d, s)
  {}

  lemma MappedReadsBack(d: Reader, s: Segment, a: seq<Byte>, b: seq<Byte>, c: seq<Byte>, e: seq<Byte>)
    requires BetweenSegments(d) && SegmentInLimit(s) && s.Mapped?
    requires forall r :: ReadsNumber(r) ==> Read(r, a) == Field(r, s.col - d.col)
    requires forall r :: ReadsNumber(r) ==> Read(r, b) == Field(r, s.source - d.source)
    requires forall r :: ReadsNumber(r) ==> Read(r, c) == Field(r, s.sourceLine - d.sourceLine)
    requires forall r :: ReadsNumber(r) ==> Read(r, e) == Field(r, s.sourceCol - d.sourceCol)
    ensures Read(d, a + (b + c + e)) == WithSegment(d, s)
  {
    ReadFour(d, a, b, c, e);
    FieldsMakeSegment(d, s);
    assert ReadsNumber(d) && ReadsNumber(Field(d, s.col - d.col));
  }

  predicate ReadsNumber(d: Reader) {
    d.raw == 0 && d.digits == 0
  }

  lemma EncodeReadsBackAnywhere(n: int, bs: seq<Byte>)
    requires -TWO_30 < n < TWO_30 && bs == Encode(n)
    ensures forall r :: ReadsNumber(r) ==> Read(r, bs) == Field(r, n)
  {
    forall r | ReadsNumber(r) ensures Read(r, bs) == Field(r, n) { EncodeReadsBack(r, n); }
  }

  lemma SegmentReadsBack(d: Reader, s: Segment)
    requires BetweenSegments(d) && SegmentInLimit(s)
    ensures Read(d, SegmentText(PositionOf(d), s)) == WithSegment(d, s)
  {
    var a := Encode(s.col - d.col);
    EncodeReadsBackAnywhere(s.col - d.col, a);
    if s.Generated? {
      assert ReadsNumber(d);
    } else {
      var b, c, e := Encode(s.source - d.source), Encode(s.sourceLine - d.sourceLine),
        Encode(s.sourceCol - d.sourceCol);
      EncodeReadsBackAnywhere(s.source - d.source, b);
      EncodeReadsBackAnywhere(s.sourceLine - d.sourceLine, c);
      EncodeReadsBackAnywhere(s.sourceCol - d.sourceCol, e);
      MappedReadsBack(d, s, a, b, c, e);
    }
  }

  function Semicolons(n: nat): seq<Byte> {
    seq(n, _ => SEMICOLON)
  }

  lemma {:induction false} SemicolonsReadBack(d: Reader, n: nat)
    requires BetweenSegments(d)
    ensures Read(d, Semicolons(n)) == d.(line := d.line + n, col := if n > 0 then 0 else d.col)
    decreases n
  {
    if n > 0 {
      assert Semicolons(n)[1..] == Semicolons(n - 1);
      SemicolonsReadBack(Step(d, SEMICOLON), n - 1);
    }
  }

  /** What separates a segment on `to` from what precedes it on `line`; open says whether a
      segment was already written on that line. */
  function Separator(line: nat, open: bool, to: nat): seq<Byte>
    requires line <= to
  {
    if line < to then Semicolons(to - line) else if open then [COMMA] else []
  }

  predicate Ordered(line: nat, segments: seq<Segment>)
    decreases |segments|
  {
    segments == [] ||
    (line <= segments[0].line && SegmentInLimit(segments[0]) && Ordered(segments[0].line, segments[1..]))
  }

  function LineStart(line: nat, p: Position, s: Segment): Position {
    if line < s.line then p.(col := 0) else p
  }

  /** A separator and a segment. */
  function SeparatedText(line: nat, open: bool, p: Position, s: Segment): seq<Byte>
    requires line <= s.line
  {
    Separator(line, open, s.line) + SegmentText(LineStart(line, p, s), s)
  }

  /** The mappings of a list of segments in order of lines. */
  function Write(line: nat, open: bool, p: Position, segments: seq<Segment>): seq<Byte>
    requires Ordered(line, segments)
    decreases |segments|
  {
    if segments == [] then []
    else
      var s := segments[0];
      SeparatedText(line, open, p, s) + Write(s.line, true, After(LineStart(line, p, s), s), segments[1..])
  }

  /** The reader is not inside a number, and what it has of a segment could end here. */
  predicate Standing(d: Reader, open: bool) {
    && d.digits == 0 && d.ok && PositionInLimit(PositionOf(d)) && BetweenSegments(Commit(d))
    && (open <==> d.fields > 0)
  }

  lemma SeparatorReadsBack(d: Reader, open: bool, to: nat)
    requires d.line <= to && d.digits == 0 && d.ok && PositionInLimit(PositionOf(d))
    requires BetweenSegments(Commit(d)) && (open <==> d.fields > 0)
    ensures Read(d, Separator(d.line, open, to)) ==
            (if d.line < to then Commit(d).(line := to, col := 0) else Commit(d))
  {
    if d.line < to {
      assert Semicolons(to - d.line)[1..] == Semicolons(to - d.line - 1);
      SemicolonsReadBack(Step(d, SEMICOLON), to - d.line - 1);
    }
  }

  /** The reader after the separator that precedes s. */
  function AtLineOf(d: Reader, s: Segment): Reader {
    if d.line < s.line then Commit(d).(line := s.line, col := 0) else Commit(d)
  }

  lemma AtLineIsBetween(d: Reader, open: bool, s: Segment)
    requires d.line <= s.line && Standing(d, open)
    ensures BetweenSegments(AtLineOf(d, s)) && LineStart(d.line, PositionOf(d), s) == PositionOf(AtLineOf(d, s))
  {}

  lemma HeadFirst(a: seq<Segment>, segments: seq<Segment>)
    requires segments != []
    ensures a + segments == (a + [segments[0]]) + segments[1..]
  {}

  lemma SeparatedRead(d: Reader, open: bool, s: Segment)
    requires d.line <= s.line && Standing(d, open) && SegmentInLimit(s)
    ensures Read(d, SeparatedText(d.line, open, PositionOf(d), s)) == WithSegment(AtLineOf(d, s), s)
  {
    var e := AtLineOf(d, s);
    AtLineIsBetween(d, open, s);
    assert Read(d, Separator(d.line, open, s.line)) == e by { SeparatorReadsBack(d, open, s.line); }
    ReadConcat(d, Separator(d.line, open, s.line), SegmentText(PositionOf(e), s));
    SegmentReadsBack(e, s);
  }

  lemma SeparatedLeavesStanding(d: Reader, open: bool, s: Segment)
    requires d.line <= s.line && Standing(d, open) && SegmentInLimit(s)
    ensures var f := WithSegment(AtLineOf(d, s), s);
            && Standing(f, true) && f.line == s.line
            && PositionOf(f) == After(LineStart(d.line, PositionOf(d), s), s)
            && Commit(f).segments == Commit(d).segments + [s]
  {}

  function LastLine(line: nat, segments: seq<Segment>): nat
    requires Ordered(line, segments)
    decreases |segments|
  {
    if segments == [] then line else LastLine(segments[0].line, segments[1..])
  }

  /** What a reader has after reading written segments to the end. */
  ghost predicate ReadsBack(d: Reader, open: bool, segments: seq<Segment>, all: seq<Segment>)
    requires Ordered(d.line, segments)
  {
    var r := Commit(Read(d, Write(d.line, open, PositionOf(d), segments)));
    r.ok && r.segments == all && r.line == LastLine(d.line, segments)
  }

  lemma NothingReadsBack(d: Reader, open: bool)
    requires Standing(d, open)
    ensures ReadsBack(d, open, [], Commit(d).segments)
  {}

  /** Reading what Write starts with leaves the reader where Write goes on. */
  lemma OneSegmentReadsBack(d: Reader, open: bool, segments: seq<Segment>, all: seq<Segment>, f: Reader)
    requires segments != [] && Ordered(d.line, segments) && Standing(d, open)
    requires f == WithSegment(AtLineOf(d, segments[0]), segments[0])
    ensures Standing(f, true) && f.line == segments[0].line
    ensures Commit(f).segments == Commit(d).segments + [segments[0]]
    ensures ReadsBack(f, true, segments[1..], all) ==> ReadsBack(d, open, segments, all)
  {
    SeparatedRead(d, open, segments[0]);
    SeparatedLeavesStanding(d, open, segments[0]);
    ReadConcat(d, SeparatedText(d.line, open, PositionOf(d), segments[0]),
               Write(f.line, true, PositionOf(f), segments[1..]));
  }

  /** Reading mappings inverts writing them: any segments in order come back as they were. */
  lemma {:induction false} WriteReadsBack(d: Reader, open: bool, segments: seq<Segment>)
    requires Ordered(d.line, segments) && Standing(d, open)
    ensures ReadsBack(d, open, segments, Commit(d).segments + segments)
    decreases |segments|
  {
    if segments == [] {
      NothingReadsBack(d, open);
      assert Commit(d).segments + segments == Commit(d).segments;
    } else {
      var f := WithSegment(AtLineOf(d, segments[0]), segments[0]);
      OneSegmentReadsBack(d, open, segments, Commit(d).segments + segments, f);
      WriteReadsBack(f, true, segments[1..]);
      HeadFirst(Commit(d).segments, segments);
    }
  }

  /** Every list of segments in order of lines can be written down, so that decoding gives it. */
  lemma SegmentsHaveText(segments: seq<Segment>) returns (mappings: seq<Byte>)
    requires Ordered(0, segments)
    ensures Decode(mappings).ok && Decode(mappings).segments == segments
    ensures Decode(mappings).line == LastLine(0, segments)
  {
    mappings := Write(0, false, Position(0, 0, 0, 0), segments);
    WriteReadsBack(START, false, segments);
  }
}
