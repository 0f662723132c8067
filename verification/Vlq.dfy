/** Base64 VLQ numbers as the bundler writes and reads them, with JavaScript's 32-bit integer
    operators spelled out. */
module Vlq {
  import opened Collections

  const TWO_32 := 0x1_0000_0000
  const TWO_31 := 0x8000_0000
  const TWO_30 := 0x4000_0000

  // ---- JavaScript's integer operators ----

  /** What a bitwise operator makes of an integral number first. */
  function ToInt32(x: int): (r: int)
    ensures -TWO_31 <= r < TWO_31
  {
    if -TWO_31 <= x < TWO_31 then x else Wrap(x % TWO_32)
  }

  /** The signed reading of 32 bits. */
  function Wrap(y: int): int {
    if y < TWO_31 then y else y - TWO_32
  }

  function Double(x: int, times: nat): int
    decreases times
  {
    if times == 0 then x else Double(2 * x, times - 1)
  }

  function Halve(x: int, times: nat): int
    decreases times
  {
    if times == 0 then x else Halve(x / 2, times - 1)
  }

  /** x << k: the shift count is taken modulo 32 and the result wraps around. */
  function ShiftLeft(x: int, k: nat): int {
    ToInt32(Double(ToInt32(x), k % 32))
  }

  /** x >> k, keeping the sign. */
  function ShiftRight(x: int, k: nat): int {
    Halve(ToInt32(x), k % 32)
  }

  /** x & (m - 1), the low bits in two's complement, for m a power of two up to 2^31. */
  function LowBits(x: int, m: int): (r: int)
    requires m > 0
    ensures 0 <= r < m
  {
    ToInt32(x) % m
  }

  // ---- The digit alphabet (RFC 4648, section 4) ----

  const ALPHABET := "ABCDEFGHIJKLMNOPQRSTUVWXYZ" + "abcdefghijklmnopqrstuvwxyz" + "0123456789" + "+/"

  /** integerToChar */
  function IntegerToChar(d: int): (b: Byte)
    requires 0 <= d < 64
  {
    if d < 26 then 65 + d
    else if d < 52 then 97 + (d - 26)
    else if d < 62 then 48 + (d - 52)
    else if d == 62 then 43
    else 47
  }

  /** charToInteger: 255 marks bytes that are no digit; `=` stands at position 64. */
  function CharToInteger(b: Byte): (d: int)
    ensures 0 <= d <= 64 || d == 255
    ensures d == 64 <==> b == 61
  {
    if 65 <= b <= 90 then b - 65
    else if 97 <= b <= 122 then b - 97 + 26
    else if 48 <= b <= 57 then b - 48 + 52
    else if b == 43 then 62
    else if b == 47 then 63
    else if b == 61 then 64
    else 255
  }

  /** The digits are those of the standard, in its order. */
  lemma DigitIsStandard(d: int)
    requires 0 <= d < 64
    ensures IntegerToChar(d) == ALPHABET[d] as int
  {
    assert Consecutive(65, 26) == "ABCDEFGHIJKLMNOPQRSTUVWXYZ";
    assert Consecutive(97, 26) == "abcdefghijklmnopqrstuvwxyz";
    assert Consecutive(48, 10) == "0123456789";
    assert ALPHABET == Consecutive(65, 26) + Consecutive(97, 26) + Consecutive(48, 10) + "+/";
  }

  function Consecutive(from: nat, n: nat): string
    requires from + n <= 128
  {
    seq(n, i requires 0 <= i < n => (from + i) as char)
  }

  /** A byte is read as the place it has in the alphabet; any byte that is not in there, other than
      `=`, is none. */
  lemma CharToIntegerIff(b: Byte, e: int)
    requires 0 <= e < 64
    ensures CharToInteger(b) == e <==> b == ALPHABET[e] as int
    ensures CharToInteger(b) == 255 <==> b != '=' as int && forall i :: 0 <= i < 64 ==> b != ALPHABET[i] as int
  {
    DigitIsStandard(e);
    forall i | 0 <= i < 64 ensures IntegerToChar(i) == ALPHABET[i] as int { DigitIsStandard(i); }
    if CharToInteger(b) < 64 { DigitIsStandard(CharToInteger(b)); }
  }

  lemma ReadsItself(d: int)
    requires 0 <= d < 64
    ensures CharToInteger(IntegerToChar(d)) == d
  {}

  // ---- Numbers as digits ----

  /** c * 32^k: what a digit is worth in place k. */
  function InPlace(c: nat, k: nat): nat {
    if k == 0 then c else 32 * InPlace(c, k - 1)
  }

  /** The lowest digit and the rest, each in its place. */
  lemma {:induction false} InPlaceSplit(rest: nat, k: nat)
    ensures InPlace(rest, k) == InPlace(rest % 32, k) + InPlace(rest / 32, k + 1)
    ensures rest / 32 == 0 ==> InPlace(rest / 32, k + 1) == 0
  {
    if k > 0 { InPlaceSplit(rest, k - 1); }
  }

  /** The number the accumulated digits stand for: the lowest bit is the sign. */
  function Signed(raw: nat): int {
    if raw % 2 == 1 then -(raw / 2) else raw / 2
  }

  /** What addVLQ starts from: the sign moved into the lowest bit, in 32 bits. */
  function SignFirst(num: int): int {
    if num < 0 then ShiftLeft(-num, 1) + 1 else ShiftLeft(num, 1)
  }

  /** The bytes addVLQ writes for what is left of the number, which is a 32-bit integer:
      `& 31` is its remainder, `>>= 5` its floored quotient by 32. */
  function DigitBytes(rest: int): (bs: seq<Byte>)
    ensures |bs| > 0
    decreases if rest < 0 then 0 else rest
  {
    if rest / 32 > 0 then [IntegerToChar(rest % 32 + 32)] + DigitBytes(rest / 32) else [IntegerToChar(rest % 32)]
  }

  lemma FirstDigit(rest: int)
    ensures CharToInteger(DigitBytes(rest)[0]) == if rest / 32 > 0 then rest % 32 + 32 else rest % 32
  {
    ReadsItself(if rest / 32 > 0 then rest % 32 + 32 else rest % 32);
  }

  /** The bytes addVLQ appends for num. */
  function Encode(num: int): seq<Byte> {
    DigitBytes(SignFirst(num))
  }

  lemma SignFirstInRange(num: int)
    ensures -TWO_31 <= SignFirst(num) < TWO_31
    ensures -TWO_30 < num < TWO_30 ==> SignFirst(num) >= 0 && Signed(SignFirst(num)) == num
    ensures SignFirst(num) >= 0 && Signed(SignFirst(num)) == num ==> -TWO_30 < num < TWO_30
  {
  }

  lemma FiveBits(rest: int)
    requires -TWO_31 <= rest < TWO_31
    ensures LowBits(rest, 32) == rest % 32 && ShiftRight(rest, 5) == rest / 32
  {
    assert 5 % 32 == 5;
    assert Halve(rest, 5) == rest / 2 / 2 / 2 / 2 / 2;
  }

  // ---- The format of a number (Source Map Revision 3 Proposal, "Proposed Format") ----

  /** The values of digits, five bits each, the lowest first. */
  function Worth(ds: seq<nat>): nat {
    if ds == [] then 0 else ds[0] % 32 + 32 * Worth(ds[1..])
  }

  /** All but the last digit are marked, by the sixth bit, as continued. */
  ghost predicate Continued(ds: seq<nat>) {
    |ds| > 0 && forall i :: 0 <= i < |ds| ==> ds[i] < 64 && (ds[i] >= 32 <==> i < |ds| - 1)
  }

  /** The digits of n: their value is twice the magnitude, plus one for a negative number; and there
      are no more than it takes. */
  ghost predicate DigitsOf(ds: seq<nat>, n: int) {
    Continued(ds) && Worth(ds) == (if n < 0 then 2 * -n + 1 else 2 * n) && (|ds| > 1 ==> ds[|ds| - 1] > 0)
  }

  ghost predicate Spells(bs: seq<Byte>, ds: seq<nat>) {
    |bs| == |ds| && forall i :: 0 <= i < |bs| ==> ds[i] < 64 && bs[i] == ALPHABET[ds[i]] as int
  }

  /** The bytes of a Base64 VLQ number. */
  ghost predicate IsVlq(bs: seq<Byte>, n: int) {
    exists ds :: DigitsOf(ds, n) && Spells(bs, ds)
  }

  lemma ContinuedOneMore(low: nat, ds: seq<nat>)
    requires low < 32 && Continued(ds)
    ensures Continued([low + 32] + ds) && Worth([low + 32] + ds) == low + 32 * Worth(ds)
  {
    assert ([low + 32] + ds)[1..] == ds && (low + 32) % 32 == low;
  }

  lemma SpellsOneMore(d: nat, bs: seq<Byte>, ds: seq<nat>)
    requires d < 64 && Spells(bs, ds)
    ensures Spells([IntegerToChar(d)] + bs, [d] + ds)
  {
    DigitIsStandard(d);
  }

  lemma {:induction false} DigitBytesAre(rest: nat) returns (ds: seq<nat>)
    ensures Continued(ds) && Worth(ds) == rest && Spells(DigitBytes(rest), ds)
    ensures if rest > 0 then ds[|ds| - 1] > 0 else |ds| == 1
  {
    if rest / 32 > 0 {
      var more := DigitBytesAre(rest / 32);
      ds := [rest % 32 + 32] + more;
      ContinuedOneMore(rest % 32, more);
      SpellsOneMore(rest % 32 + 32, DigitBytes(rest / 32), more);
    } else {
      ds := [rest];
      assert ds[1..] == [];
      DigitIsStandard(rest);
    }
  }

  /** What addVLQ writes for a number below 2^30 is that number in the format of the standard. */
  lemma EncodeIsVlq(n: int)
    requires -0x4000_0000 < n < 0x4000_0000
    ensures IsVlq(Encode(n), n)
  {
    SignFirstInRange(n);
    assert SignFirst(n) == if n < 0 then 2 * -n + 1 else 2 * n;
    var ds := DigitBytesAre(SignFirst(n));
    assert DigitsOf(ds, n);
  }
}
