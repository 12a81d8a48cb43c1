/** `ByteDeconstructor`: reads booleans and fixed-width integers back out of a
    packet, most significant bit first, and checks at the end that nothing
    but padding is left. */
module Deconstructor {
  import opened Bits
  import opened Wrappers
  import opened Errors

  /** The packet and the read cursor: the next bit to read is bit
      `currentBitPosition` (0 = most significant) of byte `currentBytePosition`. */
  datatype ByteDeconstructor = ByteDeconstructor(byteArray: seq<byte>, currentBitPosition: int, currentBytePosition: int)

  /** A value read together with the reader advanced past it. */
  datatype Read<+T> = Read(value: T, rest: ByteDeconstructor)

  /** Cursor invariant: within the packet, and at bit 0 once every byte is used up. */
  predicate Valid(r: ByteDeconstructor)
  {
    && 0 <= r.currentBitPosition <= 7
    && 0 <= r.currentBytePosition <= |r.byteArray|
    && (r.currentBytePosition == |r.byteArray| ==> r.currentBitPosition == 0)
  }

  /** How many bits have been read. */
  function Consumed(r: ByteDeconstructor): (n: nat)
    requires Valid(r)
    ensures n <= 8 * |r.byteArray|
  {
    8 * r.currentBytePosition + r.currentBitPosition
  }

  /** The bits not read yet (none for a cursor outside the packet). */
  function Remaining(r: ByteDeconstructor): seq<bool>
  {
    if Valid(r) then Unpack(r.byteArray)[Consumed(r)..] else []
  }

  /** A reader positioned at the first bit of a packet. */
  function New(data: seq<byte>): (r: ByteDeconstructor)
    ensures Valid(r) && Remaining(r) == Unpack(data)
  {
    ByteDeconstructor(data, 0, 0)
  }

  /** `empty()`: the current byte does not exist. */
  predicate Empty(r: ByteDeconstructor)
  {
    r.currentBytePosition == |r.byteArray|
  }

  /** `getCurrentBitToRead`: `(byte shr (7 - position)) and 1`, or
      "Packet too short!" once the packet is used up. */
  function GetCurrentBitToRead(r: ByteDeconstructor): (res: Result<int, Error>)
    requires Valid(r)
    ensures res.Success? <==> |Remaining(r)| > 0
    ensures res.Failure? ==> res.error == InvalidPacket("Packet too short!")
    ensures res.Success? ==> res.value == (if Remaining(r)[0] then 1 else 0)
  {
    if Empty(r) then Failure(InvalidPacket("Packet too short!"))
    else
      UnpackAt(r.byteArray, r.currentBytePosition, r.currentBitPosition);
      Success(Shr(r.byteArray[r.currentBytePosition], 7 - r.currentBitPosition) % 2)
  }

  /** `advanceOneBit`: the next bit, moving on to the next byte after bit 7. */
  function AdvanceOneBit(r: ByteDeconstructor): (a: ByteDeconstructor)
    requires Valid(r) && !Empty(r)
    ensures Valid(a) && a.byteArray == r.byteArray
    ensures Consumed(a) == Consumed(r) + 1
    ensures Remaining(a) == Remaining(r)[1..]
  {
    if r.currentBitPosition < 7 then r.(currentBitPosition := r.currentBitPosition + 1)
    else r.(currentBytePosition := r.currentBytePosition + 1, currentBitPosition := 0)
  }

  /** `readBoolean`: the next bit, 1 meaning true. */
  function ReadBoolean(r: ByteDeconstructor): (res: Result<Read<bool>, Error>)
    requires Valid(r)
    ensures res.Success? <==> |Remaining(r)| > 0
    ensures res.Failure? ==> res.error == InvalidPacket("Packet too short!")
    ensures res.Success? ==> && Valid(res.value.rest)
                             && res.value.value == Remaining(r)[0]
                             && Remaining(res.value.rest) == Remaining(r)[1..]
  {
    var bit :- GetCurrentBitToRead(r);
    Success(Read(bit == 1, AdvanceOneBit(r)))
  }

  /** The Kotlin accumulation `acc = (acc shl 1) or bit`, bit by bit, in
      32-bit arithmetic (the shifted value is even, so `or` adds the bit). */
  function Accumulate(acc: int32, bits: seq<bool>): int32
    decreases |bits|
  {
    if |bits| == 0 then acc
    else Accumulate(Wrap32(2 * acc + (if bits[0] then 1 else 0)), bits[1..])
  }

  /** Accumulating bits onto the (wrapped) value of a prefix gives the wrapped
      value of the whole string. */
  lemma {:induction false} AccumulateValue(p: seq<bool>, bits: seq<bool>)
    ensures Accumulate(Wrap32(ValueOf(p)), bits) == Wrap32(ValueOf(p + bits))
    decreases |bits|
  {
    if |bits| == 0 {
      assert p + bits == p;
    } else {
      var b := if bits[0] then 1 else 0;
      var p' := p + [bits[0]];
      Wrap32Absorbs(ValueOf(p), 2, b);
      assert p'[..|p|] == p;
      assert ValueOf(p') == 2 * ValueOf(p) + b;
      AccumulateValue(p', bits[1..]);
      assert p' + bits[1..] == p + bits;
    }
  }

  /** The loop of `readInt`: reads n more bits onto `acc`. */
  function ReadIntLoop(r: ByteDeconstructor, n: nat, acc: int32): (res: Result<Read<int32>, Error>)
    requires Valid(r)
    ensures res.Success? <==> n <= |Remaining(r)|
    ensures res.Failure? ==> res.error == InvalidPacket("Packet too short!")
    ensures res.Success? ==> && Valid(res.value.rest)
                             && res.value.rest.byteArray == r.byteArray
                             && Consumed(res.value.rest) == Consumed(r) + n
                             && res.value.value == Accumulate(acc, Remaining(r)[..n])
    decreases n
  {
    if n == 0 then Success(Read(acc, r))
    else
      var bit :- GetCurrentBitToRead(r);
      var r' := AdvanceOneBit(r);
      var res := ReadIntLoop(r', n - 1, Wrap32(2 * acc + bit));
      if res.Success? then
        PrefixTail(Remaining(r), n);
        res
      else res
  }

  /** Dropping the first bit of an n-bit prefix leaves the (n-1)-bit prefix
      of the tail. */
  lemma PrefixTail(s: seq<bool>, n: nat)
    requires 1 <= n <= |s|
    ensures s[..n][1..] == s[1..][..n - 1]
  {
  }

  /** `readInt(bitLength)`: "Wrong bit length!" for a length below 1,
      "Packet too short!" when fewer bits remain; otherwise the next
      `bitLength` bits as an unsigned number, reduced to 32 bits. */
  function ReadInt(r: ByteDeconstructor, bitLength: int): (res: Result<Read<int32>, Error>)
    requires Valid(r)
    ensures res.Success? <==> 1 <= bitLength <= |Remaining(r)|
    ensures bitLength < 1 ==> res == Failure(IllegalArgument("Wrong bit length!"))
    ensures 1 <= bitLength && res.Failure? ==> res.error == InvalidPacket("Packet too short!")
    ensures res.Success? ==> && Valid(res.value.rest)
                             && res.value.rest.byteArray == r.byteArray
                             && Consumed(res.value.rest) == Consumed(r) + bitLength
                             && res.value.value == Wrap32(ValueOf(Remaining(r)[..bitLength]))
                             && Remaining(res.value.rest) == Remaining(r)[bitLength..]
  {
    if bitLength < 1 then Failure(IllegalArgument("Wrong bit length!"))
    else
      var res := ReadIntLoop(r, bitLength, 0);
      if res.Success? then
        AccumulateValue([], Remaining(r)[..bitLength]);
        assert [] + Remaining(r)[..bitLength] == Remaining(r)[..bitLength];
        res
      else res
  }

  /** Up to 31 bits read back as exactly their unsigned value. */
  lemma ReadIntValue(r: ByteDeconstructor, n: nat)
    requires Valid(r) && 1 <= n <= 31 && n <= |Remaining(r)|
    ensures ReadInt(r, n).value.value == ValueOf(Remaining(r)[..n])
    ensures 0 <= ReadInt(r, n).value.value < Pow2(n)
  {
    ValueOfBound(Remaining(r)[..n]);
    Pow2Int32(n);
  }

  /** The bits left in the last byte, shifted up to the top of the byte:
      `(byte shl position) and 0xFF`. */
  function RestBitsInByte(r: ByteDeconstructor): (v: int)
    requires Valid(r) && !Empty(r)
    ensures v == 0 <==> forall i :: r.currentBitPosition <= i < 8 ==> !BitAt(r.byteArray[r.currentBytePosition], i)
  {
    var b := r.byteArray[r.currentBytePosition];
    var k := r.currentBitPosition;
    ByteBitsValue(b);
    ShlValueOf(ByteBits(b), k);
    ValueOfMod256(ByteBits(b) + Zeros(k));
    var tail := (ByteBits(b) + Zeros(k))[k..];
    assert tail == ByteBits(b)[k..] + Zeros(k);
    ValueOfZeroIff(tail);
    assert forall i :: k <= i < 8 ==> tail[i - k] == BitAt(b, i);
    Shl(b, k) % 256
  }

  /** The unread bits of the last byte, when the cursor is in it. */
  lemma RemainingInLastByte(r: ByteDeconstructor)
    requires Valid(r) && r.currentBytePosition == |r.byteArray| - 1
    ensures |Remaining(r)| == 8 - r.currentBitPosition
    ensures forall i :: 0 <= i < |Remaining(r)| ==> Remaining(r)[i] == BitAt(r.byteArray[r.currentBytePosition], r.currentBitPosition + i)
  {
    forall i | 0 <= i < |Remaining(r)|
      ensures Remaining(r)[i] == BitAt(r.byteArray[r.currentBytePosition], r.currentBitPosition + i)
    {
      UnpackAt(r.byteArray, r.currentBytePosition, r.currentBitPosition + i);
    }
  }

  /** Only padding is left: fewer than 8 unread bits, all of them 0. */
  predicate OnlyPadding(r: ByteDeconstructor)
    requires Valid(r)
  {
    |Remaining(r)| < 8 && forall i :: 0 <= i < |Remaining(r)| ==> !Remaining(r)[i]
  }

  /** `finish()` as written: accepts a used-up packet, or a cursor in the last
      byte whose remaining bits are 0. At bit 0 of the last byte that accepts
      a whole unread zero byte. */
  function FinishAsWritten(r: ByteDeconstructor): (res: Outcome<Error>)
    requires Valid(r)
    ensures res.Pass? <==> |Remaining(r)| <= 8 && forall i :: 0 <= i < |Remaining(r)| ==> !Remaining(r)[i]
    ensures res.Fail? ==> res.error == InvalidPacket("Packet contains too much information!")
  {
    if Empty(r) then Pass
    else
      var restBits := RestBitsInByte(r);
      if r.currentBytePosition == |r.byteArray| - 1 && restBits == 0 then
        RemainingInLastByte(r);
        Pass
      else
        assert !(|Remaining(r)| <= 8 && forall i :: 0 <= i < |Remaining(r)| ==> !Remaining(r)[i]) by {
          if r.currentBytePosition == |r.byteArray| - 1 {
            RemainingInLastByte(r);
            var i :| r.currentBitPosition <= i < 8 && BitAt(r.byteArray[r.currentBytePosition], i);
            assert Remaining(r)[i - r.currentBitPosition];
          }
        }
        Fail(InvalidPacket("Packet contains too much information!"))
  }

  /** `finish()` as its documentation and tests describe it: a packet with any
      unread data left, a whole unread zero byte included, is rejected. */
  function Finish(r: ByteDeconstructor): (res: Outcome<Error>)
    requires Valid(r)
    ensures res.Pass? <==> OnlyPadding(r)
    ensures res.Fail? ==> res.error == InvalidPacket("Packet contains too much information!")
  {
    var asWritten := FinishAsWritten(r);
    if asWritten.Pass? && r.currentBitPosition == 0 && !Empty(r) then
      Fail(InvalidPacket("Packet contains too much information!"))
    else asWritten
  }

  /** The two agree whenever the cursor is inside a byte. */
  lemma FinishAgreesInsideByte(r: ByteDeconstructor)
    requires Valid(r) && r.currentBitPosition != 0
    ensures Finish(r) == FinishAsWritten(r)
  {
  }

  /** The discrepancy: with the cursor at the start of a final zero byte,
      the original `finish()` accepts although a whole byte is unread; the
      corrected one rejects it. */
  lemma FinishAcceptsUnreadZeroByte(r: ByteDeconstructor)
    requires Valid(r) && r.currentBitPosition == 0
    requires r.currentBytePosition == |r.byteArray| - 1 && r.byteArray[r.currentBytePosition] == 0
    ensures |Remaining(r)| == 8
    ensures FinishAsWritten(r) == Pass
    ensures Finish(r).Fail?
  {
    RemainingInLastByte(r);
    assert BitAt(0, 7) == false;
    assert !Remaining(r)[7];
  }

  /** A concrete instance: read the value 5 from [0x05, 0x00]; the original
      `finish()` lets the unread byte 0x00 through. */
  lemma FinishAcceptsUnreadZeroByteExample(data: seq<byte>)
    requires data == [0x05, 0x00]
    ensures ReadInt(New(data), 8).Success?
    ensures ReadInt(New(data), 8).value.value == 5
    ensures FinishAsWritten(ReadInt(New(data), 8).value.rest) == Pass
    ensures Finish(ReadInt(New(data), 8).value.rest).Fail?
  {
    var res := ReadInt(New(data), 8);
    var rest := res.value.rest;
    assert rest.currentBytePosition == 1 && rest.currentBitPosition == 0;
    assert Unpack(data)[..8] == ByteBits(data[0]) by {
      assert Unpack(data) == ByteBits(data[0]) + Unpack(data[1..]);
    }
    ByteBitsValue(data[0]);
    FinishAcceptsUnreadZeroByte(rest);
  }
}
