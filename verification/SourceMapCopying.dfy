/** What addSource reads from the mappings of a map and what it writes for them, in JavaScript's
    32-bit arithmetic. */
module SourceMapCopying {
  import opened Collections
  import opened Options
  import opened Vlq
  import opened SourceMaps
  import opened SourceMapMeaning

  // ---- The reading side of addSource ----

  /** The variables addSource reads input mappings with. */
  datatype Cursor = Cursor(
    inOutputCol: int, inSourceIndex: int, inSourceLine: int, inSourceCol: int,
    shift: nat, value: int, valpos: nat)

  const CURSOR := Cursor(0, 0, 0, 0, 0, 0, 0)

  /** One Base64 digit; `v` is 64 for the padding character, which reads as a zero digit. */
  function TakeDigit(at: Cursor, v: nat): Cursor {
    var value := at.value + ShiftLeft(v % 32, at.shift);
    if (v / 32) % 2 == 1 then at.(value := value, shift := at.shift + 5) else TakeNumber(at, value)
  }

  /** value & 1 is the sign, value >> 1 the magnitude. */
  function SignedValue(value: int): int {
    var half := ShiftRight(value, 1);
    if LowBits(value, 2) == 1 then -half else half
  }

  /** The cursor after a whole number. */
  function Added(at: Cursor, n: int): Cursor {
    var next := at.(valpos := at.valpos + 1, value := 0, shift := 0);
    match at.valpos
    case 0 => next.(inOutputCol := at.inOutputCol + n)
    case 1 => next.(inSourceIndex := at.inSourceIndex + n)
    case 2 => next.(inSourceLine := at.inSourceLine + n)
    case 3 => next.(inSourceCol := at.inSourceCol + n)
    case _ => next
  }

  function TakeNumber(at: Cursor, value: int): Cursor {
    Added(at, SignedValue(value))
  }

  /** The cursor holds what the reader has read. */
  predicate Tracks(at: Cursor, input: Reader) {
    && at.inOutputCol == input.col && at.inSourceIndex == input.source
    && at.inSourceLine == input.sourceLine && at.inSourceCol == input.sourceCol
    && at.valpos == input.fields && at.shift == 5 * input.digits
    && (input.raw < TWO_31 ==> at.value == input.raw)
  }

  lemma SignedValueAgrees(raw: nat)
    requires raw < TWO_31
    ensures SignedValue(raw) == Signed(raw)
  {
    assert ToInt32(raw) == raw && Halve(raw, 1) == raw / 2;
  }

  lemma TakeNumberTracks(at: Cursor, input: Reader, value: int, raw: nat)
    requires Tracks(at.(value := 0, shift := 0), input.(raw := 0, digits := 0))
    requires input.fields < 4 ==> raw < TWO_31 && value == raw
    ensures Tracks(TakeNumber(at, value), Field(input.(raw := 0, digits := 0), Signed(raw)))
  {
    if input.fields < 4 { SignedValueAgrees(raw); }
  }

  lemma ValueTracks(at: Cursor, input: Reader, c: nat)
    requires c < 32 && Tracks(at, input) && input.raw + InPlace(c, input.digits) < TWO_31
    ensures at.value + ShiftLeft(c, at.shift) == input.raw + InPlace(c, input.digits)
  {
    DigitInPlace(c, input.digits);
  }

  lemma FinalDigitTracks(at: Cursor, input: Reader, value: int, raw: nat)
    requires Tracks(at, input) && input.ok && PositionInLimit(PositionOf(input))
    requires raw < TWO_31 ==> value == raw
    requires Field(input.(raw := 0, digits := 0), Signed(raw)).ok
    ensures Tracks(TakeNumber(at, value), Field(input.(raw := 0, digits := 0), Signed(raw)))
    ensures PositionInLimit(PositionOf(Field(input.(raw := 0, digits := 0), Signed(raw))))
  {
    NumberFits(input.(raw := 0, digits := 0), raw);
    TakeNumberTracks(at, input, value, raw);
  }

  /** Reading digits with 32-bit operators agrees with reading them exactly. */
  lemma TakeDigitTracks(at: Cursor, input: Reader, v: nat)
    requires v < 64 && Tracks(at, input) && input.ok && PositionInLimit(PositionOf(input)) && Digit(input, v).ok
    ensures Tracks(TakeDigit(at, v), Digit(input, v))
    ensures PositionInLimit(PositionOf(Digit(input, v)))
  {
    var c := v % 32;
    var raw := input.raw + InPlace(c, input.digits);
    var value := at.value + ShiftLeft(c, at.shift);
    if raw < TWO_31 { ValueTracks(at, input, c); }
    if v < 32 {
      assert TakeDigit(at, v) == TakeNumber(at, value);
      FinalDigitTracks(at, input, value, raw);
    }
  }

  // ---- Numbers read back ----

  /** The digits of a number, one after the other. */
  function TakeDigits(at: Cursor, bs: seq<Byte>): Cursor
    decreases |bs|
  {
    if bs == [] then at else TakeDigits(TakeDigit(at, CharToInteger(bs[0])), bs[1..])
  }

  /** Reading one digit in place j. */
  lemma TakenDigit(at: Cursor, j: nat, low: nat, more: bool)
    requires at.shift == 5 * j && low < 32 && InPlace(low, j) < TWO_31
    ensures TakeDigit(at, if more then low + 32 else low) ==
            if more then at.(value := at.value + InPlace(low, j), shift := at.shift + 5)
            else TakeNumber(at, at.value + InPlace(low, j))
  {
    assert (low + 32) % 32 == low && (low + 32) / 32 == 1 && low / 32 == 0;
    DigitInPlace(low, j);
  }

  /** With `rest` still to come, the digits read so far and those of `rest` make up w. */
  lemma {:induction false} DigitsTaken(at: Cursor, j: nat, rest: nat, w: nat)
    requires at.shift == 5 * j && at.value >= 0 && at.value + InPlace(rest, j) == w < TWO_31
    ensures TakeDigits(at, DigitBytes(rest)) == Added(at, Signed(w))
    decreases rest
  {
    var bs, low := DigitBytes(rest), rest % 32;
    InPlaceSplit(rest, j);
    FirstDigit(rest);
    TakenDigit(at, j, low, rest / 32 > 0);
    if rest / 32 > 0 {
      assert bs[1..] == DigitBytes(rest / 32);
      DigitsTaken(at.(value := at.value + InPlace(low, j), shift := at.shift + 5), j + 1, rest / 32, w);
    } else {
      SignedValueAgrees(w);
      assert bs[1..] == [];
    }
  }

  /** Only the last digit of a number moves the cursor on. */
  lemma {:induction false} DigitsKeepPlace(at: Cursor, rest: int, k: nat)
    requires k < |DigitBytes(rest)|
    ensures TakeDigits(at, DigitBytes(rest)[..k]).valpos == at.valpos
    decreases k
  {
    var bs := DigitBytes(rest);
    if k > 0 {
      FirstDigit(rest);
      assert bs[1..] == DigitBytes(rest / 32) && bs[..k][1..] == bs[1..][..k - 1];
      DigitsKeepPlace(TakeDigit(at, CharToInteger(bs[0])), rest / 32, k - 1);
    }
  }

  /** Whatever addVLQ writes, the loop of addSource takes it for one number, which ends with its
      last byte. */
  lemma LoopReadsOneNumber(at: Cursor, n: int)
    requires at.shift == 0 && at.value == 0
    ensures TakeDigits(at, Encode(n)) == Added(at, ReadAs(n))
    ensures forall k :: 0 <= k < |Encode(n)| ==> TakeDigits(at, Encode(n)[..k]).valpos == at.valpos
  {
    SignFirstInRange(n);
    var w := SignFirst(n);
    forall k: nat | k < |Encode(n)| ensures TakeDigits(at, Encode(n)[..k]).valpos == at.valpos {
      DigitsKeepPlace(at, w, k);
    }
    if w >= 0 {
      DigitsTaken(at, 0, w, w);
    } else {
      assert DigitBytes(w) == DigitBytes(w % 32);
      DigitsTaken(at, 0, w % 32, w % 32);
    }
  }

  lemma AddedIff(at: Cursor, m: int, n: int)
    ensures Added(at, m) == Added(at, n) <==> at.valpos >= 4 || m == n
  {}

  /** The loop of addSource reads n back from what addVLQ writes for it, if and only if n is below
      2^30 in absolute value (a name, which is dropped, always). */
  lemma LoopRoundTripIff(at: Cursor, n: int)
    requires at.shift == 0 && at.value == 0
    ensures TakeDigits(at, Encode(n)) == Added(at, n) <==> at.valpos >= 4 || -TWO_30 < n < TWO_30
  {
    LoopReadsOneNumber(at, n);
    ReadAsIff(n);
    AddedIff(at, ReadAs(n), n);
  }

  // ---- The writing side ----

  function Difference(a: Option<int>, b: Option<int>): int {
    if a.Some? && b.Some? then a.value - b.value else 0
  }

  /** What commit writes. A source index outside the map reads as `undefined`, and arithmetic
      with it as NaN, which addVLQ writes as 0. */
  function CommitBytes(at: Cursor, lastOutputCol: int, outSourceIndex: Option<int>,
                       lastSourceIndex: Option<int>, lastSourceLine: int, lastSourceCol: int): seq<Byte> {
    if at.valpos == 0 then []
    else if at.valpos == 1 then Encode(at.inOutputCol - lastOutputCol)
    else Encode(at.inOutputCol - lastOutputCol)
         + OriginBytes(at, outSourceIndex, lastSourceIndex, lastSourceLine, lastSourceCol)
  }

  function OriginBytes(at: Cursor, outSourceIndex: Option<int>,
                       lastSourceIndex: Option<int>, lastSourceLine: int, lastSourceCol: int): seq<Byte> {
    OriginText(Difference(outSourceIndex, lastSourceIndex), at.inSourceLine - lastSourceLine,
               at.inSourceCol - lastSourceCol)
  }

  function Lookup(sourceRemap: seq<nat>, i: int): Option<int> {
    if 0 <= i < |sourceRemap| then Some(sourceRemap[i]) else None
  }

  /** The cursor that holds what the reader has read. */
  function CursorOf(input: Reader, shift: nat, value: int): Cursor {
    Cursor(input.col, input.source, input.sourceLine, input.sourceCol, shift, value, input.fields)
  }

  /** commit writes the segment the reader is at, remapped and relative to the output. */
  lemma SegmentBytesAreText(o: Reader, input: Reader, remap: seq<nat>, shift: nat, value: int, lines: nat)
    requires input.fields > 1 ==> 0 <= input.source < |remap|
    ensures CommitBytes(CursorOf(input, shift, value), o.col, Lookup(remap, input.source), Some(o.source), o.sourceLine,
                        o.sourceCol)
         == CommitText(o, input, remap, lines)
  {
    if input.fields > 1 { OriginBytesAreText(o, input, remap, shift, value, lines); }
  }

  lemma OriginBytesAreText(o: Reader, input: Reader, remap: seq<nat>, shift: nat, value: int, lines: nat)
    requires input.fields > 1 && 0 <= input.source < |remap|
    ensures CommitBytes(CursorOf(input, shift, value), o.col, Lookup(remap, input.source), Some(o.source), o.sourceLine,
                        o.sourceCol)
         == CommitText(o, input, remap, lines)
  {}

  /** Appending the names not yet present, in order. */
  function AddNames(sources: seq<string>, names: seq<string>): seq<string>
    decreases |names|
  {
    if names == [] then sources
    else AddNames(if names[0] in sources then sources else sources + [names[0]], names[1..])
  }

  // ---- The whole of what addSource writes ----

  /** Where addSource writes: the mappings so far and the coordinates they end with. */
  datatype Pen = Pen(text: seq<Byte>, sourceIndex: Option<int>, sourceLine: int, sourceCol: int)

  const FRESH_PEN := Pen([], Some(0), 0, 0)

  /** addSource between two bytes of its input. */
  datatype Copying = Copying(pen: Pen, at: Cursor, lastOutputCol: int, outputLine: nat)

  function CommitPen(pen: Pen, at: Cursor, lastOutputCol: int, remap: seq<nat>): Pen {
    var out := Lookup(remap, at.inSourceIndex);
    var text := pen.text + CommitBytes(at, lastOutputCol, out, pen.sourceIndex, pen.sourceLine, pen.sourceCol);
    if at.valpos <= 1 then pen.(text := text) else Pen(text, out, at.inSourceLine, at.inSourceCol)
  }

  function CopyStep(c: Copying, b: Byte, remap: seq<nat>): Copying {
    var pen := CommitPen(c.pen, c.at, c.lastOutputCol, remap);
    if b == SEMICOLON then
      Copying(pen.(text := pen.text + [b]), c.at.(valpos := 0, inOutputCol := 0), 0, c.outputLine + 1)
    else if b == COMMA then
      Copying(pen.(text := pen.text + [b]), c.at.(valpos := 0),
              if c.at.valpos == 0 then c.lastOutputCol else c.at.inOutputCol, c.outputLine)
    else c.(at := TakeDigit(c.at, CharToInteger(b)))
  }

  /** The first n bytes, one after the other. */
  function CopyUpto(c: Copying, bs: seq<Byte>, n: nat, remap: seq<nat>): Copying
    requires n <= |bs|
  {
    if n == 0 then c else CopyStep(CopyUpto(c, bs, n - 1, remap), bs[n - 1], remap)
  }

  function FinishPen(c: Copying, sourceLines: nat, remap: seq<nat>): Pen {
    var pen := CommitPen(c.pen, c.at, c.lastOutputCol, remap);
    pen.(text := pen.text + Semicolons(if c.outputLine < sourceLines then sourceLines - c.outputLine else 0))
  }

  function CopyMap(pen: Pen, mappings: seq<Byte>, sourceLines: nat, remap: seq<nat>): Pen {
    FinishPen(CopyUpto(Copying(pen, CURSOR, 0, 0), mappings, |mappings|, remap), sourceLines, remap)
  }

  function IndexOf(sources: seq<string>, name: string): nat {
    if sources == [] || sources[0] == name then 0 else 1 + IndexOf(sources[1..], name)
  }

  function RemapOf(sources: seq<string>, names: seq<string>): seq<nat> {
    seq(|names|, i requires 0 <= i < |names| => IndexOf(sources, names[i]))
  }

  lemma {:induction false} IndexOfIs(sources: seq<string>, name: string, pos: nat)
    requires pos < |sources| && sources[pos] == name && name !in sources[..pos]
    ensures IndexOf(sources, name) == pos
  {
    if pos > 0 {
      assert sources[0] in sources[..pos];
      assert sources[1..][..pos - 1] == sources[..pos][1..];
      IndexOfIs(sources[1..], name, pos - 1);
    }
  }

  lemma {:induction false} IndexOfStays(sources: seq<string>, more: seq<string>, name: string)
    requires name in sources
    ensures IndexOf(sources + more, name) == IndexOf(sources, name)
    decreases |sources|
  {
    if sources[0] != name {
      assert (sources + more)[1..] == sources[1..] + more;
      IndexOfStays(sources[1..], more, name);
    }
  }
}
