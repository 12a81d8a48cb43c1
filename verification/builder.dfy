/** `ByteBuilder`: accumulates booleans and fixed-width unsigned integers into
    bytes, most significant bit first. Each operation returns the updated
    builder instead of mutating it. */
module Builder {
  import opened Bits
  import opened Wrappers
  import opened Errors

  /** The completed bytes, the byte being filled, and the position (0 = most
      significant) of the last bit written into that byte; -1 before the first
      bit, because the position is advanced before each write. */
  datatype ByteBuilder = ByteBuilder(byteArray: seq<byte>, currentByte: byte, currentBitPosition: int)

  /** The bits already written into the byte being filled. */
  function Pending(w: ByteBuilder): seq<bool>
    requires -1 <= w.currentBitPosition <= 7
  {
    ByteBits(w.currentByte)[..w.currentBitPosition + 1]
  }

  /** Every bit written so far, in order. */
  function Content(w: ByteBuilder): seq<bool>
    requires -1 <= w.currentBitPosition <= 7
  {
    Unpack(w.byteArray) + Pending(w)
  }

  /** Cursor invariant: the position stays in [-1, 7], it is -1 only while
      nothing has been written, and the unwritten low bits of the byte being
      filled are zero. */
  predicate Valid(w: ByteBuilder)
  {
    && -1 <= w.currentBitPosition <= 7
    && (w.currentBitPosition == -1 ==> w.byteArray == [])
    && w.currentByte == PadByte(Pending(w))
  }

  /** A fresh builder: nothing written. */
  function New(): (w: ByteBuilder)
    ensures Valid(w) && Content(w) == []
  {
    ValueOfZeros(8);
    assert [] + Zeros(8) == Zeros(8);
    ByteBuilder([], 0, -1)
  }

  /** Moves to the next bit position, flushing the current byte after bit 7.
      The result has room for exactly one more bit at its position. */
  function AdvanceOneBit(w: ByteBuilder): (a: ByteBuilder)
    requires Valid(w)
    ensures 0 <= a.currentBitPosition <= 7
    ensures Unpack(a.byteArray) + ByteBits(a.currentByte)[..a.currentBitPosition] == Content(w)
    ensures a.currentByte == PadByte(ByteBits(a.currentByte)[..a.currentBitPosition])
  {
    if w.currentBitPosition < 7 then
      w.(currentBitPosition := w.currentBitPosition + 1)
    else
      UnpackAppend(w.byteArray, [w.currentByte]);
      assert ByteBits(w.currentByte)[..8] == ByteBits(w.currentByte);
      assert Unpack([w.currentByte]) == ByteBits(w.currentByte) + Unpack([]);
      ValueOfZeros(8);
      assert [] + Zeros(8) == Zeros(8);
      assert ByteBits(0)[..0] == [];
      ByteBuilder(w.byteArray + [w.currentByte], 0, 0)
  }

  /** Writes one bit (0 or 1) at the next position: `currentByte or (bit shl (7 - position))`. */
  function AddBit(w: ByteBuilder, bit: int): (r: ByteBuilder)
    requires Valid(w) && (bit == 0 || bit == 1)
    ensures Valid(r)
    ensures Content(r) == Content(w) + [bit == 1]
  {
    var a := AdvanceOneBit(w);
    var chunk := ByteBits(a.currentByte)[..a.currentBitPosition];
    assert Pow2(7 - a.currentBitPosition) < 256 by {
      OrAppends(chunk, bit == 1);
    }
    // `bit shl (7 - position)`, for a bit of 0 or 1
    var mask: byte := if bit == 1 then Pow2(7 - a.currentBitPosition) else 0;
    var r := a.(currentByte := Or(a.currentByte, mask));
    assert r.currentByte == PadByte(chunk + [bit == 1]) by {
      OrAppends(chunk, bit == 1);
    }
    assert Pending(r) == chunk + [bit == 1] by {
      PadByteBits(chunk + [bit == 1]);
    }
    r
  }

  /** `addBoolean`: true is written as 1, false as 0. */
  function AddBoolean(w: ByteBuilder, b: bool): (r: ByteBuilder)
    requires Valid(w)
    ensures Valid(r)
    ensures Content(r) == Content(w) + [b]
  {
    AddBit(w, if b then 1 else 0)
  }

  /** The loop of `addInt`: writes `(v shr i) and 1` for i = n-1 down to 0. */
  function AddBits(w: ByteBuilder, v: nat, n: nat): (r: ByteBuilder)
    requires Valid(w)
    ensures Valid(r)
    ensures Content(r) == Content(w) + BitsOf(v, n)
    decreases n
  {
    if n == 0 then
      assert Content(w) + BitsOf(v, 0) == Content(w);
      w
    else
      var b := Shr(v, n - 1) % 2;
      var w' := AddBit(w, b);
      var r := AddBits(w', v, n - 1);
      assert Content(r) == Content(w) + BitsOf(v, n) by {
        BitsOfFront(v, n);
        AppendAssoc(Content(w), [b == 1], BitsOf(v, n - 1));
      }
      r
  }

  /** `addInt(value, bitSize)`: rejects a value that needs more than
      `bitSize` bits (`value shr bitSize != 0`, which includes every negative
      value) before writing anything; otherwise appends its `bitSize` bits,
      most significant first. */
  function AddInt(w: ByteBuilder, value: int32, bitSize: nat): (r: Result<ByteBuilder, Error>)
    requires Valid(w) && bitSize <= 31
    ensures r.Success? <==> 0 <= value < Pow2(bitSize)
    ensures r.Failure? ==> r.error == IllegalArgument("Integer value too big!")
    ensures r.Success? ==> Valid(r.value) && Content(r.value) == Content(w) + BitsOf(value, bitSize)
  {
    ShrZeroIff(value, bitSize);
    if Shr(value, bitSize) != 0 then Failure(IllegalArgument("Integer value too big!"))
    else Success(AddBits(w, value, bitSize))
  }

  /** `getBytes`: the completed bytes plus the byte being filled, if any bit
      of it has been written. This is exactly the MSB-first packing of
      everything written, zero-padded in the last byte. */
  function GetBytes(w: ByteBuilder): (bytes: seq<byte>)
    requires Valid(w)
    ensures bytes == Pack(Content(w))
    ensures |bytes| == (|Content(w)| + 7) / 8
  {
    PackUnpack(w.byteArray);
    PackLength(Content(w));
    if w.currentBitPosition >= 0 then
      PackAppendChunk(Unpack(w.byteArray), Pending(w));
      w.byteArray + [w.currentByte]
    else
      assert Content(w) == Unpack(w.byteArray);
      w.byteArray
  }

  /** A sequence of `addBoolean` calls. */
  function AddBooleans(w: ByteBuilder, bits: seq<bool>): (r: ByteBuilder)
    requires Valid(w)
    ensures Valid(r)
    decreases |bits|
  {
    if |bits| == 0 then w else AddBooleans(AddBoolean(w, bits[0]), bits[1..])
  }

  /** Writing booleans one by one appends exactly those bits. */
  lemma {:induction false} AddBooleansContent(w: ByteBuilder, bits: seq<bool>)
    requires Valid(w)
    ensures Content(AddBooleans(w, bits)) == Content(w) + bits
    decreases |bits|
  {
    if |bits| > 0 {
      var w' := AddBoolean(w, bits[0]);
      AddBooleansContent(w', bits[1..]);
      SnocThenRest(Content(w), bits);
    } else {
      assert Content(w) + bits == Content(w);
    }
  }

  lemma SnocThenRest(c: seq<bool>, bits: seq<bool>)
    requires |bits| > 0
    ensures c + [bits[0]] + bits[1..] == c + bits
  {
    assert bits == [bits[0]] + bits[1..];
  }

  /** `addInt(v, n)` with 0 <= v < 2^n is the same as n `addBoolean` calls with
      the bits of v, most significant first; those bits read back as v. */
  lemma AddIntIsAddBooleans(w: ByteBuilder, v: int32, n: nat)
    requires Valid(w) && n <= 31 && 0 <= v < Pow2(n)
    ensures AddInt(w, v, n) == Success(AddBooleans(w, BitsOf(v, n)))
    ensures ValueOf(BitsOf(v, n)) == v
  {
    AddBooleansContent(w, BitsOf(v, n));
    ContentDetermines(AddInt(w, v, n).value, AddBooleans(w, BitsOf(v, n)));
    ValueOfBitsOf(v, n);
  }

  /** A valid builder is determined by what has been written into it. */
  lemma ContentDetermines(a: ByteBuilder, b: ByteBuilder)
    requires Valid(a) && Valid(b) && Content(a) == Content(b)
    ensures a == b
  {
    var n := |Content(a)|;
    assert |Unpack(a.byteArray)| + a.currentBitPosition + 1 == n;
    assert |Unpack(b.byteArray)| + b.currentBitPosition + 1 == n;
    assert a.currentBitPosition == b.currentBitPosition by {
      if n == 0 {
      } else {
        assert a.currentBitPosition >= 0 && b.currentBitPosition >= 0;
        assert (n - 1) % 8 == a.currentBitPosition;
        assert (n - 1) % 8 == b.currentBitPosition;
      }
    }
    var m := |Unpack(a.byteArray)|;
    assert Unpack(a.byteArray) == Content(a)[..m];
    assert Unpack(b.byteArray) == Content(b)[..m];
    PackUnpack(a.byteArray);
    PackUnpack(b.byteArray);
    assert Pending(a) == Content(a)[m..];
    assert Pending(b) == Content(b)[m..];
  }

  /** The builder after writing a bit string from scratch. */
  function Build(bits: seq<bool>): (w: ByteBuilder)
    ensures Valid(w) && Content(w) == bits
  {
    AddBooleansContent(New(), bits);
    AddBooleans(New(), bits)
  }

  /** Bit k of the packing is the k-th bit, or padding 0 past the end. */
  lemma PackBitAt(bits: seq<bool>, k: nat)
    requires k < 8 * |Pack(bits)|
    ensures BitAt(Pack(bits)[k / 8], k % 8) == (k < |bits| && bits[k])
  {
    var bytes := Pack(bits);
    var u := Unpack(bytes);
    assert u == bits + Zeros(8 * |bytes| - |bits|) by {
      UnpackPack(bits);
    }
    assert BitAt(bytes[k / 8], k % 8) == u[8 * (k / 8) + k % 8] by {
      UnpackAt(bytes, k / 8, k % 8);
    }
    assert 8 * (k / 8) + k % 8 == k;
    if k < |bits| {
      assert u[k] == bits[k];
    } else {
      assert u[k] == Zeros(8 * |bytes| - |bits|)[k - |bits|];
    }
  }

  /** A fresh builder yields no bytes; after n >= 1 bits it yields ceil(n/8)
      bytes, the k-th bit written being bit 7 - k mod 8 of byte k div 8 and
      every unwritten bit of the last byte being 0. */
  lemma PackedLayout(bits: seq<bool>, k: nat)
    requires k < 8 * |GetBytes(Build(bits))|
    ensures |GetBytes(Build(bits))| == (|bits| + 7) / 8
    ensures GetBytes(New()) == []
    ensures BitAt(GetBytes(Build(bits))[k / 8], k % 8) == (k < |bits| && bits[k])
  {
    assert GetBytes(Build(bits)) == Pack(bits);
    PackBitAt(bits, k);
  }

  /** `getBytes` does not disturb the builder: adding after reading the bytes
      continues where the earlier bits left off. */
  lemma GetBytesThenContinue(w: ByteBuilder, more: seq<bool>)
    requires Valid(w)
    ensures GetBytes(w) == Pack(Content(w))
    ensures GetBytes(AddBooleans(w, more)) == Pack(Content(w) + more)
  {
    AddBooleansContent(w, more);
  }
  /** Bytes whose bits are `bits` followed by fewer than 8 zeros are the
      packing of `bits`. */
  lemma PackOf(bits: seq<bool>, data: seq<byte>)
    requires |bits| <= 8 * |data| < |bits| + 8
    requires Unpack(data) == bits + Zeros(8 * |data| - |bits|)
    ensures Pack(bits) == data
  {
    var packed := Pack(bits);
    var pad := 8 * |data| - |bits|;
    assert 8 * |packed| - |bits| == pad;
    assert Unpack(packed) == bits + Zeros(pad) by {
      UnpackPack(bits);
    }
    assert packed == Pack(Unpack(packed)) by {
      PackUnpack(packed);
    }
    assert data == Pack(Unpack(data)) by {
      PackUnpack(data);
    }
  }

  /** The bytes of one `addInt` on a fresh builder. */
  lemma FreshAddInt(v: int32, n: nat, data: seq<byte>)
    requires n <= 31 && 0 <= v < Pow2(n)
    requires |data| == (n + 7) / 8 && Unpack(data) == BitsOf(v, n) + Zeros(8 * |data| - n)
    ensures AddInt(New(), v, n).Success?
    ensures GetBytes(AddInt(New(), v, n).value) == data
  {
    assert [] + BitsOf(v, n) == BitsOf(v, n);
    PackOf(BitsOf(v, n), data);
  }

  /** The unit tests' vectors: `addInt(3, 2)` gives 0b11000000. */
  lemma AddSmallInt(v: int32, n: nat, data: seq<byte>)
    requires v == 3 && n == 2 && data == [0xC0]
    ensures AddInt(New(), v, n).Success? && GetBytes(AddInt(New(), v, n).value) == data
  {
    assert Pow2(2) == 4;
    assert Unpack(data) == ByteBits(0xC0);
    assert BitsOf(3, 2) == [true, true];
    FreshAddInt(v, n, data);
  }

  /** `addInt(5, 7)` gives 0b00001010. */
  lemma AddIntShort(v: int32, n: nat, data: seq<byte>)
    requires v == 5 && n == 7 && data == [0x0A]
    ensures AddInt(New(), v, n).Success? && GetBytes(AddInt(New(), v, n).value) == data
  {
    assert Pow2(7) == 128;
    assert Unpack(data) == ByteBits(0x0A);
    assert BitsOf(5, 7) == [false, false, false, false, true, false, true];
    FreshAddInt(v, n, data);
  }

  /** `addInt(9, 10)` spans two bytes: 0b00000010 0b01000000. */
  lemma AddIntOverlapping(v: int32, n: nat, data: seq<byte>)
    requires v == 9 && n == 10 && data == [0x02, 0x40]
    ensures AddInt(New(), v, n).Success? && GetBytes(AddInt(New(), v, n).value) == data
  {
    assert Pow2(10) == 1024;
    var hi := [false, false, false, false, false, false, true, false];
    var lo := [false, true, false, false, false, false, false, false];
    assert Unpack(data) == hi + lo by {
      assert ByteBits(0x02) == hi;
      assert ByteBits(0x40) == lo;
      assert Unpack(data) == ByteBits(0x02) + ByteBits(0x40);
    }
    var q := [true, false, false, true];
    assert ValueOf([true]) == 1 by {
      assert [true][..0] == [];
    }
    assert ValueOf([true, false]) == 2 by {
      assert [true, false][..1] == [true];
    }
    assert ValueOf([true, false, false]) == 4 by {
      assert [true, false, false][..2] == [true, false];
    }
    assert ValueOf(q) == 9 by {
      assert q[..3] == [true, false, false];
    }
    BitsOfPadded(q, 6);
    assert hi + lo == Zeros(6) + q + Zeros(6);
    FreshAddInt(v, n, data);
  }

  /** Four copies of 0101 pack into two bytes 0x55. */
  lemma AlternatingBytes(nibble: seq<bool>, data: seq<byte>)
    requires nibble == [false, true, false, true] && data == [0x55, 0x55]
    ensures Pack(nibble + nibble + nibble + nibble) == data
  {
    var bits := nibble + nibble + nibble + nibble;
    assert ByteBits(0x55) == [false, true, false, true, false, true, false, true];
    assert Unpack(data) == ByteBits(0x55) + ByteBits(0x55);
    assert Unpack(data) == bits + Zeros(0);
    PackOf(bits, data);
  }

  /** Four `addInt(5, 4)` calls fill two bytes: 0b01010101 0b01010101. */
  lemma AddIntMultiple(v: int32, n: nat, data: seq<byte>)
    requires v == 5 && n == 4 && data == [0x55, 0x55]
    ensures AddInt(New(), v, n).Success?
    ensures var w1 := AddInt(New(), v, n).value;
      AddInt(w1, v, n).Success? &&
      var w2 := AddInt(w1, v, n).value;
      AddInt(w2, v, n).Success? &&
      var w3 := AddInt(w2, v, n).value;
      AddInt(w3, v, n).Success? && GetBytes(AddInt(w3, v, n).value) == data
  {
    assert Pow2(4) == 16;
    var nibble := BitsOf(v, n);
    assert nibble == [false, true, false, true];
    var w1 := AddInt(New(), v, n).value;
    assert Content(w1) == nibble;
    var w2 := AddInt(w1, v, n).value;
    assert Content(w2) == nibble + nibble;
    var w3 := AddInt(w2, v, n).value;
    assert Content(w3) == nibble + nibble + nibble;
    var w4 := AddInt(w3, v, n).value;
    assert Content(w4) == nibble + nibble + nibble + nibble;
    AlternatingBytes(nibble, data);
  }

  /** `addInt(10, 2)` is rejected: 10 needs four bits. */
  lemma AddIntTooBig(v: int32, n: nat)
    requires v == 10 && n == 2
    ensures AddInt(New(), v, n) == Failure(IllegalArgument("Integer value too big!"))
  {
    assert Pow2(2) == 4;
  }
}
