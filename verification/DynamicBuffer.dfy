/** The growable byte buffer of scripts/playground-server.ts. */
module DynamicBuffers {
  import opened Collections
  import opened Vlq

  class DynamicBuffer {
    var buffer: array<Byte>
    var size: nat
    /** Bytes moved by growing, over the whole life of the buffer. */
    ghost var copied: nat

    /** Capacity stays within twice what is stored, and all growth together has moved fewer
        bytes than the buffer can hold now. */
    ghost predicate Valid()
      reads this
    {
      size <= buffer.Length && copied < buffer.Length && buffer.Length <= Max(512, 2 * size)
    }

    ghost function Contents(): seq<Byte>
      requires size <= buffer.Length
      reads this, buffer
    {
      buffer[..size]
    }

    constructor ()
      ensures Valid() && Contents() == [] && fresh(buffer)
    {
      buffer := new Byte[512](_ => 0);
      size := 0;
      copied := 0;
    }

    method EnsureCapacity(capacity: nat)
      requires size <= buffer.Length && copied < buffer.Length
      modifies this`buffer, this`copied
      ensures capacity <= buffer.Length && copied < buffer.Length && size <= buffer.Length
      ensures Contents() == old(Contents())
      ensures if old(buffer.Length) >= capacity then buffer == old(buffer)
              else fresh(buffer) && buffer.Length == Max(old(buffer.Length) * 2, capacity)
    {
      if buffer.Length >= capacity { return; }
      var oldBuffer := buffer;
      buffer := new Byte[Max(oldBuffer.Length * 2, capacity)](_ => 0);
      forall i | 0 <= i < oldBuffer.Length {
        buffer[i] := oldBuffer[i];
      }
      copied := copied + oldBuffer.Length;
    }

    method AddByte(b: Byte)
      requires Valid()
      modifies this, buffer
      ensures Valid() && (buffer == old(buffer) || fresh(buffer))
      ensures Contents() == old(Contents()) + [b]
    {
      EnsureCapacity(size + 1);
      buffer[size] := b;
      size := size + 1;
    }

    method AddBuffer(b: seq<Byte>)
      requires Valid()
      modifies this, buffer
      ensures Valid() && (buffer == old(buffer) || fresh(buffer))
      ensures Contents() == old(Contents()) + b
    {
      EnsureCapacity(size + |b|);
      forall i | 0 <= i < |b| {
        buffer[size + i] := b[i];
      }
      size := size + |b|;
    }

    static method TakeFiveBits(n: int) returns (low: int, rest: int)
      requires -TWO_31 <= n < TWO_31
      ensures low == n % 32 && rest == n / 32
    {
      FiveBits(n);
      low := LowBits(n, 32);
      rest := ShiftRight(n, 5);
    }

    /** One round of addVLQ: writes the lowest five bits and returns what is left. */
    method AddDigit(n: int) returns (rest: int)
      requires Valid() && -TWO_31 <= n < TWO_31
      modifies this, buffer
      ensures Valid() && (buffer == old(buffer) || fresh(buffer))
      ensures rest == n / 32
      ensures Contents() + (if rest > 0 then DigitBytes(rest) else []) == old(Contents()) + DigitBytes(n)
    {
      var clamped;
      clamped, rest := TakeFiveBits(n);
      if rest > 0 { clamped := clamped + 32; }
      DigitBytesStep(n, clamped);
      AddByte(IntegerToChar(clamped));
    }

    static lemma DigitBytesStep(n: int, clamped: int)
      requires clamped == if n / 32 > 0 then n % 32 + 32 else n % 32
      ensures 0 <= clamped < 64
      ensures DigitBytes(n) == [IntegerToChar(clamped)] + (if n / 32 > 0 then DigitBytes(n / 32) else [])
    {}

    /** addVLQ: the sign moves to the lowest bit, then five bits go out at a time. */
    method AddVLQ(num: int)
      requires Valid()
      modifies this, buffer
      ensures Valid() && (buffer == old(buffer) || fresh(buffer))
      ensures Contents() == old(Contents()) + Encode(num)
      ensures -0x4000_0000 < num < 0x4000_0000 ==> IsVlq(Contents()[|old(Contents())|..], num)
    {
      if -0x4000_0000 < num < 0x4000_0000 { EncodeIsVlq(num); }
      var n := if num < 0 then ShiftLeft(-num, 1) + 1 else ShiftLeft(num, 1);
      SignFirstInRange(num);
      assert n == SignFirst(num);
      ghost var goal := Contents() + DigitBytes(n);
      n := AddDigit(n);
      while n > 0
        invariant Valid() && (buffer == old(buffer) || fresh(buffer))
        invariant -TWO_31 <= n < TWO_31
        invariant Contents() + (if n > 0 then DigitBytes(n) else []) == goal
      {
        n := AddDigit(n);
      }
    }

    method ToBuffer() returns (bs: seq<Byte>)
      requires Valid()
      ensures bs == Contents()
    {
      bs := buffer[..size];
    }
  }
}
