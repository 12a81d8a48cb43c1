/** Bit-level vocabulary shared by the writer and the reader: bytes, Kotlin's
    32-bit `Int`, arithmetic right shift, and the MSB-first packing of a bit
    string into bytes that both sides of the wire agree on. */
module Bits {

  /** One byte of a packet, as its unsigned value (Kotlin's signed `Byte`
      -128 is 0x80 here). */
  type byte = b: int | 0 <= b < 256

  /** Kotlin's 32-bit `Int`. */
  type int32 = x: int | -0x8000_0000 <= x < 0x8000_0000

  function Pow2(n: nat): (r: nat)
    ensures r >= 1
  {
    if n == 0 then 1 else 2 * Pow2(n - 1)
  }

  lemma Pow2Add(a: nat, b: nat)
    ensures Pow2(a + b) == Pow2(a) * Pow2(b)
  {
    if a > 0 {
      Pow2Add(a - 1, b);
    }
  }

  /** Widths up to 31 bits fit an `Int`. */
  lemma {:induction false} Pow2Int32(n: nat)
    requires n <= 31
    ensures Pow2(n) <= 0x8000_0000
    decreases 31 - n
  {
    if n < 31 {
      Pow2Int32(n + 1);
    } else {
      assert Pow2(8) == 256;
      Pow2Add(8, 8);
      Pow2Add(16, 8);
      assert Pow2(7) == 128;
      Pow2Add(24, 7);
    }
  }

  /** Kotlin's `v shr n` on an `Int` with 0 <= n <= 31: an arithmetic shift,
      that is, division by 2^n rounding towards minus infinity. */
  function Shr(v: int, n: nat): int
    decreases n
  {
    if n == 0 then v else Shr(v / 2, n - 1)
  }

  /** A right shift leaves zero exactly when no set bit lies at or above
      position n, which for an `Int` also excludes every negative value. */
  lemma {:induction false} ShrZeroIff(v: int, n: nat)
    ensures Shr(v, n) == 0 <==> 0 <= v < Pow2(n)
    decreases n
  {
    if n > 0 {
      ShrZeroIff(v / 2, n - 1);
    }
  }

  /** Reduction of an integer to Kotlin's 32-bit two's-complement `Int`. */
  function Wrap32(x: int): (r: int32)
    ensures -0x8000_0000 <= x < 0x8000_0000 ==> r == x
  {
    (x + 0x8000_0000) % 0x1_0000_0000 - 0x8000_0000
  }

  lemma ModMultiple(a: int, j: int)
    ensures (a + 0x1_0000_0000 * j) % 0x1_0000_0000 == a % 0x1_0000_0000
  {
    var m := 0x1_0000_0000;
    var q := a / m;
    var r := a % m;
    assert a + m * j == m * (q + j) + r;
  }

  /** Wrapping an intermediate result first does not change the final wrap:
      this is why Kotlin's overflowing `shl` still accumulates the low 32 bits. */
  lemma Wrap32Absorbs(x: int, k: int, y: int)
    ensures Wrap32(Wrap32(x) * k + y) == Wrap32(x * k + y)
  {
    var m := 0x1_0000_0000;
    var q := (x + 0x8000_0000) / m;
    assert Wrap32(x) == x - m * q;
    assert Wrap32(x) * k + y == x * k + y + m * (-q * k);
    ModMultiple(x * k + y + 0x8000_0000, -q * k);
  }

  /** The unsigned big-endian value of a bit string. */
  function ValueOf(bits: seq<bool>): nat
  {
    if |bits| == 0 then 0
    else 2 * ValueOf(bits[..|bits| - 1]) + (if bits[|bits| - 1] then 1 else 0)
  }

  /** The n low bits of v, most significant first: bit i is `(v shr (n-1-i)) and 1`. */
  function BitsOf(v: int, n: nat): (bits: seq<bool>)
    ensures |bits| == n
  {
    seq(n, i requires 0 <= i < n => Shr(v, n - 1 - i) % 2 == 1)
  }

  function Zeros(n: nat): (z: seq<bool>)
    ensures |z| == n
  {
    seq(n, i => false)
  }

  /** n bits hold a value below 2^n. */
  lemma {:induction false} ValueOfBound(bits: seq<bool>)
    ensures ValueOf(bits) < Pow2(|bits|)
  {
    if |bits| > 0 {
      ValueOfBound(bits[..|bits| - 1]);
    }
  }

  /** Setting the clear bit at index i of a bit string adds 2^(|s|-1-i) to its value. */
  lemma {:induction false} ValueOfSetBit(s: seq<bool>, i: nat)
    requires i < |s| && !s[i]
    ensures ValueOf(s[i := true]) == ValueOf(s) + Pow2(|s| - 1 - i)
  {
    var s' := s[i := true];
    var n := |s|;
    if i < n - 1 {
      assert s'[..n - 1] == s[..n - 1][i := true];
      ValueOfSetBit(s[..n - 1], i);
    } else {
      assert s'[..n - 1] == s[..n - 1];
    }
  }

  /** A leading bit contributes 2^(number of bits after it). */
  lemma {:induction false} ValueOfPrepend(b: bool, rest: seq<bool>)
    ensures ValueOf([b] + rest) == (if b then Pow2(|rest|) else 0) + ValueOf(rest)
  {
    if |rest| > 0 {
      var n := |rest|;
      assert ([b] + rest)[..n] == [b] + rest[..n - 1];
      ValueOfPrepend(b, rest[..n - 1]);
    } else {
      assert [b] + rest == [b];
      assert [b][..0] == [];
    }
  }

  lemma {:induction false} ValueOfZeros(n: nat)
    ensures ValueOf(Zeros(n)) == 0
  {
    if n > 0 {
      assert Zeros(n)[..n - 1] == Zeros(n - 1);
      ValueOfZeros(n - 1);
    }
  }

  /** A bit string is worth zero exactly when every bit in it is clear. */
  lemma {:induction false} ValueOfZeroIff(bits: seq<bool>)
    ensures ValueOf(bits) == 0 <==> forall i :: 0 <= i < |bits| ==> !bits[i]
  {
    if |bits| > 0 {
      var p := bits[..|bits| - 1];
      ValueOfZeroIff(p);
      assert forall i :: 0 <= i < |p| ==> p[i] == bits[i];
    }
  }

  /** Shifting right by k drops the last k bits of a bit string. */
  lemma {:induction false} ShrValueOf(bits: seq<bool>, k: nat)
    requires k <= |bits|
    ensures Shr(ValueOf(bits), k) == ValueOf(bits[..|bits| - k])
  {
    if k > 0 {
      var p := bits[..|bits| - 1];
      assert ValueOf(bits) / 2 == ValueOf(p);
      ShrValueOf(p, k - 1);
      assert p[..|p| - (k - 1)] == bits[..|bits| - k];
    } else {
      assert bits[..|bits|] == bits;
    }
  }

  /** Bit j (0 = most significant) of a bit string's value is the string's j-th entry. */
  lemma BitOfValue(bits: seq<bool>, j: nat)
    requires j < |bits|
    ensures (Shr(ValueOf(bits), |bits| - 1 - j) % 2 == 1) == bits[j]
  {
    var p := bits[..j + 1];
    assert Shr(ValueOf(bits), |bits| - 1 - j) == ValueOf(p) by {
      ShrValueOf(bits, |bits| - 1 - j);
    }
    LastBitParity(p);
  }

  /** A bit string's value is odd exactly when its last bit is set. */
  lemma LastBitParity(p: seq<bool>)
    requires |p| > 0
    ensures (ValueOf(p) % 2 == 1) == p[|p| - 1]
  {
    var h := ValueOf(p[..|p| - 1]);
    assert ValueOf(p) == 2 * h + (if p[|p| - 1] then 1 else 0);
  }

  /** Writing a value in n bits and reading the bits back yields the value. */
  lemma {:induction false} ValueOfBitsOf(v: nat, n: nat)
    requires v < Pow2(n)
    ensures ValueOf(BitsOf(v, n)) == v
  {
    if n > 0 {
      var bits := BitsOf(v, n);
      var p := bits[..n - 1];
      assert p == BitsOf(v / 2, n - 1) by {
        forall i | 0 <= i < n - 1
          ensures p[i] == BitsOf(v / 2, n - 1)[i]
        {
          assert Shr(v, n - 1 - i) == Shr(v / 2, n - 2 - i);
        }
      }
      ValueOfBitsOf(v / 2, n - 1);
      assert Shr(v, 0) == v;
      assert bits[n - 1] == (Shr(v, 0) % 2 == 1);
      assert ValueOf(bits) == 2 * ValueOf(p) + (if bits[n - 1] then 1 else 0);
    }
  }

  /** Reading a bit string as a number and writing it back in the same width is the identity. */
  lemma BitsOfValueOf(bits: seq<bool>)
    ensures BitsOf(ValueOf(bits), |bits|) == bits
  {
    var w := BitsOf(ValueOf(bits), |bits|);
    forall j | 0 <= j < |bits|
      ensures w[j] == bits[j]
    {
      BitOfValue(bits, j);
      var k := |bits| - 1 - j;
      assert w[j] == (Shr(ValueOf(bits), k) % 2 == 1);
    }
  }

  /** The first of n bits is bit n-1 of the value; the rest are its n-1 low bits. */
  lemma BitsOfFront(v: int, n: nat)
    requires n >= 1
    ensures BitsOf(v, n) == [Shr(v, n - 1) % 2 == 1] + BitsOf(v, n - 1)
  {
    var a := BitsOf(v, n);
    var b := [Shr(v, n - 1) % 2 == 1] + BitsOf(v, n - 1);
    forall i | 0 <= i < n
      ensures a[i] == b[i]
    {
      if i > 0 {
        assert b[i] == BitsOf(v, n - 1)[i - 1];
      }
    }
  }

  /** Leading zeros add nothing: writing the value of q in |q| + z bits gives
      z zeros followed by q. */
  lemma BitsOfPadded(q: seq<bool>, z: nat)
    ensures BitsOf(ValueOf(q), z + |q|) == Zeros(z) + q
  {
    var bits := Zeros(z) + q;
    assert ValueOf(bits) == ValueOf(q) by {
      ValueOfAppend(Zeros(z), q);
      ValueOfZeros(z);
      assert ValueOf(Zeros(z)) * Pow2(|q|) == 0;
    }
    BitsOfValueOf(bits);
  }

  /** Bit i (0 = most significant) of a byte: `(b shr (7 - i)) and 1`. The sign
      extension of Kotlin's `Byte.toInt()` does not reach these 8 bits. */
  function BitAt(b: byte, i: nat): bool
    requires i < 8
  {
    Shr(b, 7 - i) % 2 == 1
  }

  /** The 8 bits of a byte, most significant first. */
  function ByteBits(b: byte): (bits: seq<bool>)
    ensures |bits| == 8
    ensures forall i :: 0 <= i < 8 ==> bits[i] == BitAt(b, i)
  {
    seq(8, i requires 0 <= i < 8 => BitAt(b, i))
  }

  lemma ByteBitsValue(b: byte)
    ensures ValueOf(ByteBits(b)) == b
  {
    assert ByteBits(b) == BitsOf(b, 8);
    assert Pow2(8) == 256;
    ValueOfBitsOf(b, 8);
  }

  /** The bits of a byte sequence, byte after byte, each MSB first. */
  function Unpack(data: seq<byte>): (bits: seq<bool>)
    ensures |bits| == 8 * |data|
  {
    if |data| == 0 then [] else ByteBits(data[0]) + Unpack(data[1..])
  }

  lemma {:induction false} UnpackAt(data: seq<byte>, i: nat, j: nat)
    requires i < |data| && j < 8
    ensures Unpack(data)[8 * i + j] == BitAt(data[i], j)
  {
    if i > 0 {
      UnpackAt(data[1..], i - 1, j);
    }
  }

  lemma {:induction false} UnpackAppend(a: seq<byte>, b: seq<byte>)
    ensures Unpack(a + b) == Unpack(a) + Unpack(b)
  {
    if |a| > 0 {
      assert (a + b)[1..] == a[1..] + b;
      UnpackAppend(a[1..], b);
    } else {
      assert a + b == b;
    }
  }

  /** A chunk of at most 8 bits as one byte, its unused low bits zero. */
  function PadByte(chunk: seq<bool>): (b: byte)
    requires |chunk| <= 8
  {
    assert Pow2(8) == 256;
    ValueOfBound(chunk + Zeros(8 - |chunk|));
    ValueOf(chunk + Zeros(8 - |chunk|))
  }

  /** The bits of a padded chunk are the chunk followed by zeros. */
  lemma PadByteBits(chunk: seq<bool>)
    requires |chunk| <= 8
    ensures ByteBits(PadByte(chunk)) == chunk + Zeros(8 - |chunk|)
  {
    var p := chunk + Zeros(8 - |chunk|);
    forall j | 0 <= j < 8
      ensures ByteBits(PadByte(chunk))[j] == p[j]
    {
      BitOfValue(p, j);
    }
  }

  lemma PadSnoc(chunk: seq<bool>, b: bool, k: nat)
    ensures chunk + [b] + Zeros(k) == (chunk + Zeros(k + 1))[|chunk| := b]
  {
    assert Zeros(k + 1) == [false] + Zeros(k);
  }

  /** The bytes of a bit string: 8 bits per byte, MSB first, the last byte
      zero-padded in its low bits. */
  function Pack(bits: seq<bool>): (data: seq<byte>)
    ensures |bits| <= 8 * |data| < |bits| + 8
  {
    if |bits| == 0 then []
    else if |bits| <= 8 then [PadByte(bits)]
    else [PadByte(bits[..8])] + Pack(bits[8..])
  }

  /** The packing has ceil(n / 8) bytes. */
  lemma PackLength(bits: seq<bool>)
    ensures |Pack(bits)| == (|bits| + 7) / 8
  {
  }

  /** Unpacking the packed bytes gives back the bits followed by the padding. */
  lemma {:induction false} UnpackPack(bits: seq<bool>)
    ensures Unpack(Pack(bits)) == bits + Zeros(8 * |Pack(bits)| - |bits|)
  {
    if |bits| == 0 {
    } else if |bits| <= 8 {
      var p := Pack(bits);
      assert p == [PadByte(bits)];
      assert Unpack(p) == ByteBits(PadByte(bits)) + Unpack([]);
      PadByteBits(bits);
    } else {
      UnpackPack(bits[8..]);
      UnpackPackStep(bits);
    }
  }

  /** One step of `UnpackPack`: the first byte, then the packing of the rest. */
  lemma UnpackPackStep(bits: seq<bool>)
    requires |bits| > 8
    requires Unpack(Pack(bits[8..])) == bits[8..] + Zeros(8 * |Pack(bits[8..])| - |bits[8..]|)
    ensures Unpack(Pack(bits)) == bits + Zeros(8 * |Pack(bits)| - |bits|)
  {
    var head, tail := bits[..8], bits[8..];
    var p := Pack(bits);
    var z := Zeros(8 * |Pack(tail)| - |tail|);
    assert p[0] == PadByte(head) && p[1..] == Pack(tail);
    assert ByteBits(p[0]) == head by {
      PadByteBits(head);
      assert head + Zeros(0) == head;
    }
    assert Unpack(p) == head + (tail + z);
    assert 8 * |p| - |bits| == 8 * |Pack(tail)| - |tail|;
    assert head + (tail + z) == bits + z;
  }

  /** Packing the bits of whole bytes gives the bytes back. */
  lemma {:induction false} PackUnpack(data: seq<byte>)
    ensures Pack(Unpack(data)) == data
  {
    if |data| > 0 {
      var u := Unpack(data);
      assert u[..8] == ByteBits(data[0]);
      assert u[8..] == Unpack(data[1..]);
      ByteBitsValue(data[0]);
      assert ByteBits(data[0]) + Zeros(0) == ByteBits(data[0]);
      PackUnpack(data[1..]);
    }
  }

  /** Packing a byte-aligned prefix then one partial chunk is packing their concatenation. */
  lemma {:induction false} PackAppendChunk(s: seq<bool>, chunk: seq<bool>)
    requires |s| % 8 == 0 && 1 <= |chunk| <= 8
    ensures Pack(s + chunk) == Pack(s) + [PadByte(chunk)]
  {
    if |s| > 0 {
      assert (s + chunk)[..8] == s[..8];
      assert (s + chunk)[8..] == s[8..] + chunk;
      PackAppendChunk(s[8..], chunk);
      if |s| == 8 {
        assert s[..8] == s;
      }
    } else {
      assert s + chunk == chunk;
    }
  }

  /** Kotlin's `v shl n`; the reader only shifts a byte by at most 7, so no
      32-bit overflow can occur where it is used. */
  function Shl(v: int, n: nat): int
    decreases n
  {
    if n == 0 then v else Shl(2 * v, n - 1)
  }

  /** Shifting left by k appends k zero bits. */
  lemma {:induction false} ShlValueOf(bits: seq<bool>, k: nat)
    ensures Shl(ValueOf(bits), k) == ValueOf(bits + Zeros(k))
    decreases k
  {
    if k == 0 {
      assert bits + Zeros(0) == bits;
    } else {
      var b' := bits + [false];
      assert b'[..|bits|] == bits;
      assert ValueOf(b') == 2 * ValueOf(bits);
      ShlValueOf(b', k - 1);
      assert b' + Zeros(k - 1) == bits + Zeros(k);
    }
  }

  /** Reducing modulo 256 keeps the value of the last 8 bits. */
  lemma {:induction false} ValueOfMod256(bits: seq<bool>)
    requires 8 <= |bits|
    ensures ValueOf(bits) % 256 == ValueOf(bits[|bits| - 8..])
    decreases |bits|
  {
    assert Pow2(8) == 256;
    if |bits| == 8 {
      ValueOfBound(bits);
      assert bits[|bits| - 8..] == bits;
    } else {
      var rest := bits[1..];
      assert bits == [bits[0]] + rest;
      ValueOfPrepend(bits[0], rest);
      ValueOfMod256(rest);
      assert rest[|rest| - 8..] == bits[|bits| - 8..];
      Pow2Add(8, |rest| - 8);
      var hi := if bits[0] then Pow2(|rest| - 8) else 0;
      assert (if bits[0] then Pow2(|rest|) else 0) == 256 * hi;
      ModMultiple256(hi, ValueOf(rest));
    }
  }

  lemma ModMultiple256(x: int, y: int)
    ensures (256 * x + y) % 256 == y % 256
  {
  }

  /** The bits of `a or b`: each set where it is set in either byte. */
  function OrBits(a: byte, b: byte): (bits: seq<bool>)
    ensures |bits| == 8
    ensures forall i :: 0 <= i < 8 ==> bits[i] == (BitAt(a, i) || BitAt(b, i))
  {
    seq(8, i requires 0 <= i < 8 => BitAt(a, i) || BitAt(b, i))
  }

  /** Bitwise `or` of two bytes. */
  function Or(a: byte, b: byte): byte
  {
    assert Pow2(8) == 256;
    ValueOfBound(OrBits(a, b));
    ValueOf(OrBits(a, b))
  }

  /** The 8 bits of an 8-bit value read back as the bit string. */
  lemma ByteBitsOfValue(bits: seq<bool>)
    requires |bits| == 8
    ensures ValueOf(bits) < 256
    ensures ByteBits(ValueOf(bits)) == bits
  {
    assert Pow2(8) == 256;
    ValueOfBound(bits);
    forall j | 0 <= j < 8
      ensures ByteBits(ValueOf(bits))[j] == bits[j]
    {
      BitOfValue(bits, j);
    }
  }

  /** `1 shl (7 - i)` is the byte whose only set bit is bit i. */
  lemma SingleBit(i: nat)
    requires i < 8
    ensures Pow2(7 - i) < 256
    ensures ByteBits(Pow2(7 - i)) == Zeros(8)[i := true]
  {
    ValueOfZeros(8);
    ValueOfSetBit(Zeros(8), i);
    ByteBitsOfValue(Zeros(8)[i := true]);
  }

  /** The mask `bit shl (7 - i)` as a byte: only bit i, and only if the bit is set. */
  lemma MaskBits(b: bool, i: nat)
    requires i < 8
    ensures Pow2(7 - i) < 256
    ensures ByteBits(if b then Pow2(7 - i) else 0) == Zeros(8)[i := b]
  {
    SingleBit(i);
    if !b {
      ValueOfZeros(8);
      ByteBitsOfValue(Zeros(8));
      assert Zeros(8)[i := false] == Zeros(8);
    }
  }

  /** One bit of `PadByte(chunk) or mask`, the mask holding only bit |chunk|. */
  lemma OrBitPadded(chunk: seq<bool>, b: bool, i: nat)
    requires |chunk| < 8 && i < 8
    ensures Pow2(7 - |chunk|) < 256
    ensures OrBits(PadByte(chunk), if b then Pow2(7 - |chunk|) else 0)[i]
            == (chunk + Zeros(8 - |chunk|))[|chunk| := b][i]
  {
    assert Pow2(7 - |chunk|) < 256 by {
      MaskBits(b, |chunk|);
    }
    var pad := PadByte(chunk);
    var mask: byte := if b then Pow2(7 - |chunk|) else 0;
    var p := chunk + Zeros(8 - |chunk|);
    var m := Zeros(8)[|chunk| := b];
    assert BitAt(pad, i) == p[i] by {
      PadByteBits(chunk);
      assert ByteBits(pad)[i] == BitAt(pad, i);
    }
    assert BitAt(mask, i) == m[i] by {
      MaskBits(b, |chunk|);
      assert ByteBits(mask)[i] == BitAt(mask, i);
    }
    assert OrBits(pad, mask)[i] == (p[i] || m[i]);
    if i == |chunk| {
      assert !p[i];
    } else {
      assert !m[i];
    }
  }

  lemma OrBitsPadded(chunk: seq<bool>, b: bool)
    requires |chunk| < 8
    ensures Pow2(7 - |chunk|) < 256
    ensures OrBits(PadByte(chunk), if b then Pow2(7 - |chunk|) else 0)
            == (chunk + Zeros(8 - |chunk|))[|chunk| := b]
  {
    OrBitPadded(chunk, b, 0);
    var o := OrBits(PadByte(chunk), if b then Pow2(7 - |chunk|) else 0);
    var t := (chunk + Zeros(8 - |chunk|))[|chunk| := b];
    forall i | 0 <= i < 8
      ensures o[i] == t[i]
    {
      OrBitPadded(chunk, b, i);
    }
  }

  /** Or-ing bit |chunk| into a padded chunk, where that bit is still clear,
      appends the bit to the chunk. */
  lemma OrAppends(chunk: seq<bool>, b: bool)
    requires |chunk| < 8
    ensures Pow2(7 - |chunk|) < 256
    ensures Or(PadByte(chunk), if b then Pow2(7 - |chunk|) else 0) == PadByte(chunk + [b])
  {
    PadSnoc(chunk, b, 7 - |chunk|);
    OrBitsPadded(chunk, b);
  }

  /** The value of a concatenation, for callers whose lengths are fixed. */
  lemma {:induction false} ValueOfAppend(s: seq<bool>, t: seq<bool>)
    ensures ValueOf(s + t) == ValueOf(s) * Pow2(|t|) + ValueOf(t)
  {
    if |t| > 0 {
      var t' := t[..|t| - 1];
      assert (s + t)[..|s + t| - 1] == s + t';
      ValueOfAppend(s, t');
      var b := if t[|t| - 1] then 1 else 0;
      assert ValueOf(s + t) == 2 * ValueOf(s + t') + b;
      assert ValueOf(t) == 2 * ValueOf(t') + b;
      assert Pow2(|t|) == 2 * Pow2(|t'|);
      Distribute(ValueOf(s), Pow2(|t'|), ValueOf(t'), b);
    } else {
      assert s + t == s;
    }
  }

  lemma Distribute(a: int, p: int, t: int, b: int)
    ensures 2 * (a * p + t) + b == a * (2 * p) + (2 * t + b)
  {
  }

  /** Concatenation regroups freely. */
  lemma AppendAssoc<T>(a: seq<T>, b: seq<T>, c: seq<T>)
    ensures a + b + c == a + (b + c)
  {
  }
}
