/** The packets the client sends: `OutgoingPacketType`, whose ordinal is the
    3-bit tag at the start of every packet, and the `BaseCommunicator`
    helpers that build each packet's bytes. Handing the bytes to the
    transport (`sendBytes`) is not part of this module: each helper returns
    the bytes it would send. */
module Outgoing {
  import opened Bits
  import opened Wrappers
  import opened Errors
  import Wire

  datatype PacketType = CodeSubmit | RequestCurrentStatus | PlayerMakeMove | BoardReset | ToggleSymbol

  /** The enum ordinal, in declaration order; it fits the 3-bit tag. */
  function Ordinal(t: PacketType): (n: nat)
    ensures n < 8
  {
    match t
    case CodeSubmit => 0
    case RequestCurrentStatus => 1
    case PlayerMakeMove => 2
    case BoardReset => 3
    case ToggleSymbol => 4
  }

  /** Distinct packet types have distinct tags, so the tag identifies the type. */
  lemma OrdinalInjective(a: PacketType, b: PacketType)
    ensures Ordinal(a) == Ordinal(b) <==> a == b
  {
  }

  /** The tag field: `addInt(type.ordinal, 3)`. */
  function Tag(t: PacketType): Wire.Field
  {
    Wire.Number(Ordinal(t), 3)
  }

  /** `it - 'A'` for a character of the game code, in 5 bits. */
  function LetterField(c: char): Wire.Field
  {
    Wire.Number(c as int - 'A' as int, 5)
  }

  function LetterFields(code: string): (fields: seq<Wire.Field>)
    ensures |fields| == |code|
    ensures forall i :: 0 <= i < |code| ==> fields[i] == LetterField(code[i])
  {
    if |code| == 0 then [] else [LetterField(code[0])] + LetterFields(code[1..])
  }

  /** A character the 5-bit letter field can carry: 'A' up to 'A' + 31. */
  predicate Encodable(c: char)
  {
    0 <= c as int - 'A' as int < 32
  }

  lemma {:induction false} LetterFieldsWritable(code: string)
    ensures Wire.Writable(LetterFields(code))
    ensures Wire.AllInRange(LetterFields(code)) <==> forall i :: 0 <= i < |code| ==> Encodable(code[i])
    decreases |code|
  {
    assert Pow2(5) == 32;
    if |code| > 0 {
      LetterFieldsWritable(code[1..]);
      assert LetterFields(code)[1..] == LetterFields(code[1..]);
      assert forall i :: 1 <= i < |code| ==> code[1..][i - 1] == code[i];
    }
  }

  /** The fields of a CodeSubmit packet: the tag, then one field per character. */
  function CodeSubmitFields(code: string): (fields: seq<Wire.Field>)
    ensures Wire.Writable(fields)
  {
    LetterFieldsWritable(code);
    [Tag(CodeSubmit)] + LetterFields(code)
  }

  /** `sendSubmitGameCode`: fails with the builder's "Integer value too big!"
      unless every character lies in 'A'..'A'+31; otherwise sends the tag and
      5 bits per character, ceil((3 + 5n) / 8) bytes in all. */
  function SendSubmitGameCode(code: string): (r: Result<seq<byte>, Error>)
    ensures r.Success? <==> forall i :: 0 <= i < |code| ==> Encodable(code[i])
    ensures r.Failure? ==> r.error == IllegalArgument("Integer value too big!")
    ensures r.Success? ==> |r.value| == (3 + 5 * |code| + 7) / 8
    ensures r.Success? ==> r.value == Pack(BitsOf(0, 3) + Wire.FieldBits(LetterFields(code)))
  {
    CodeSubmitShape(code);
    Wire.Encode(CodeSubmitFields(code))
  }

  lemma CodeSubmitShape(code: string)
    ensures Wire.AllInRange(CodeSubmitFields(code)) <==> forall i :: 0 <= i < |code| ==> Encodable(code[i])
    ensures |Wire.FieldBits(CodeSubmitFields(code))| == 3 + 5 * |code|
    ensures Wire.FieldBits(CodeSubmitFields(code)) == BitsOf(0, 3) + Wire.FieldBits(LetterFields(code))
  {
    var fields := CodeSubmitFields(code);
    LetterFieldsWritable(code);
    assert Pow2(3) == 8;
    assert fields[1..] == LetterFields(code);
    LetterBitsLength(code);
    Wire.FieldBitsAppend([Tag(CodeSubmit)], LetterFields(code));
    Wire.FieldBitsSingle(Tag(CodeSubmit));
  }

  /** For a code of any length, the bits sent are tag 0, five bits per
      character, then zero padding up to the byte boundary. */
  lemma CodeSubmitBits(code: string)
    requires forall i :: 0 <= i < |code| ==> Encodable(code[i])
    ensures SendSubmitGameCode(code).Success?
    ensures 3 + 5 * |code| <= 8 * |SendSubmitGameCode(code).value|
    ensures Unpack(SendSubmitGameCode(code).value) ==
      BitsOf(0, 3) + Wire.FieldBits(LetterFields(code)) + Zeros(8 * |SendSubmitGameCode(code).value| - 3 - 5 * |code|)
  {
    var r := SendSubmitGameCode(code);
    var bits := BitsOf(0, 3) + Wire.FieldBits(LetterFields(code));
    assert r.Success? && r.value == Pack(bits);
    assert |bits| == 3 + 5 * |code| by { CodeSubmitShape(code); }
    assert Unpack(Pack(bits)) == bits + Zeros(8 * |Pack(bits)| - |bits|) by { UnpackPack(bits); }
  }

  /** A five-letter code is sent as 28 bits, tag 0 then the letters, in four
      bytes whose last four bits are zero. */
  lemma CodeSubmitLayout(code: string)
    requires |code| == 5 && forall i :: 0 <= i < |code| ==> Encodable(code[i])
    ensures SendSubmitGameCode(code).Success?
    ensures |SendSubmitGameCode(code).value| == 4
    ensures Unpack(SendSubmitGameCode(code).value) == BitsOf(0, 3) + Wire.FieldBits(LetterFields(code)) + Zeros(4)
  {
    var fields := CodeSubmitFields(code);
    CodeSubmitShape(code);
    LetterFieldsWritable(code);
    Wire.EncodeInRange(fields);
    var bits := Wire.FieldBits(fields);
    UnpackPack(bits);
    assert fields[1..] == LetterFields(code);
    assert bits == BitsOf(0, 3) + Wire.FieldBits(LetterFields(code));
  }

  lemma {:induction false} LetterBitsLength(code: string)
    ensures |Wire.FieldBits(LetterFields(code))| == 5 * |code|
    decreases |code|
  {
    if |code| > 0 {
      LetterBitsLength(code[1..]);
      assert LetterFields(code)[1..] == LetterFields(code[1..]);
    }
  }

  /** The byte of a packet whose fields fill at most 8 bits. */
  lemma OneByte(fields: seq<Wire.Field>, v: nat)
    requires Wire.Writable(fields) && Wire.AllInRange(fields)
    requires 1 <= |Wire.FieldBits(fields)| <= 8
    requires ValueOf(Wire.FieldBits(fields) + Zeros(8 - |Wire.FieldBits(fields)|)) == v
    ensures Wire.Encode(fields) == Success([v])
  {
    var bits := Wire.FieldBits(fields);
    Wire.EncodeInRange(fields);
    PackOneByte(bits);
  }

  lemma PackOneByte(bits: seq<bool>)
    requires 1 <= |bits| <= 8
    ensures Pack(bits) == [PadByte(bits)]
  {
  }

  /** `sendEmptyPacket(type)`: one byte holding the tag in its top 3 bits. */
  function SendEmptyPacket(t: PacketType): (bytes: seq<byte>)
    ensures bytes == [Ordinal(t) * 32]
  {
    EmptyPacketByte(t);
    Wire.Encode([Tag(t)]).value
  }

  lemma EmptyPacketByte(t: PacketType)
    ensures Wire.Encode([Tag(t)]) == Success([Ordinal(t) * 32])
  {
    var bits := BitsOf(Ordinal(t), 3);
    assert Pow2(3) == 8;
    assert Pow2(5) == 32;
    Wire.FieldBitsSingle(Tag(t));
    ValueOfBitsOf(Ordinal(t), 3);
    ValueOfAppend(bits, Zeros(5));
    ValueOfZeros(5);
    OneByte([Tag(t)], Ordinal(t) * 32);
  }

  /** `sendRequestCurrentStatus`, `sendResetBoard` and `sendToggleSymbol`:
      the empty packet of their type (bytes in `EmptyPacketBytes`). */
  function SendRequestCurrentStatus(): seq<byte>
  {
    SendEmptyPacket(RequestCurrentStatus)
  }

  function SendResetBoard(): seq<byte>
  {
    SendEmptyPacket(BoardReset)
  }

  function SendToggleSymbol(): seq<byte>
  {
    SendEmptyPacket(ToggleSymbol)
  }

  /** The three empty packets the client sends are the single bytes 0x20
      (RequestCurrentStatus), 0x60 (BoardReset) and 0x80 (ToggleSymbol). */
  lemma EmptyPacketBytes(t: PacketType)
    ensures t == RequestCurrentStatus ==> SendEmptyPacket(t) == [0x20]
    ensures t == BoardReset ==> SendEmptyPacket(t) == [0x60]
    ensures t == ToggleSymbol ==> SendEmptyPacket(t) == [0x80]
  {
  }

  /** The fields of a PlayerMakeMove packet: the tag and the position in 4 bits. */
  function MakeMoveFields(position: int32): (fields: seq<Wire.Field>)
    ensures Wire.Writable(fields)
  {
    [Tag(PlayerMakeMove), Wire.Number(position, 4)]
  }

  /** `sendMakeMove(position)`: fails with "Integer value too big!" unless
      0 <= position < 16; otherwise one byte, tag 2 in the top 3 bits, the
      position in the next 4 and a zero bit of padding. */
  function SendMakeMove(position: int32): (r: Result<seq<byte>, Error>)
    ensures r.Success? <==> 0 <= position < 16
    ensures r.Failure? ==> r.error == IllegalArgument("Integer value too big!")
    ensures r.Success? ==> r.value == [0x40 + 2 * position]
  {
    var fields := MakeMoveFields(position);
    assert Pow2(3) == 8 && Pow2(4) == 16;
    if 0 <= position < 16 then
      MakeMoveByte(position);
      Wire.Encode(fields)
    else
      Wire.Encode(fields)
  }

  lemma MakeMoveByte(position: int32)
    requires 0 <= position < 16
    ensures Wire.Encode(MakeMoveFields(position)) == Success([0x40 + 2 * position])
  {
    var fields := MakeMoveFields(position);
    var a := BitsOf(2, 3);
    var b := BitsOf(position, 4);
    MakeMoveBits(position);
    ValueOfAppend(a + b, Zeros(1));
    ValueOfZeros(1);
    OneByte(fields, 0x40 + 2 * position);
  }

  /** The 7 bits of a PlayerMakeMove packet are worth 32 + position. */
  lemma MakeMoveBits(position: int32)
    requires 0 <= position < 16
    ensures Wire.Writable(MakeMoveFields(position)) && Wire.AllInRange(MakeMoveFields(position))
    ensures Wire.FieldBits(MakeMoveFields(position)) == BitsOf(2, 3) + BitsOf(position, 4)
    ensures ValueOf(BitsOf(2, 3) + BitsOf(position, 4)) == 32 + position
    ensures Pow2(1) == 2
  {
    var fields := MakeMoveFields(position);
    assert Pow2(3) == 8 && Pow2(4) == 16;
    Wire.FieldBitsAppend([fields[0]], [fields[1]]);
    Wire.FieldBitsSingle(fields[0]);
    Wire.FieldBitsSingle(fields[1]);
    assert [fields[0]] + [fields[1]] == fields;
    ValueOfBitsOf(2, 3);
    ValueOfBitsOf(position, 4);
    ValueOfAppend(BitsOf(2, 3), BitsOf(position, 4));
  }

  /** Every board index 0..8 can be sent. */
  lemma MakeMoveBoardIndex(index: int32)
    requires 0 <= index <= 8
    ensures SendMakeMove(index).Success?
  {
  }

  /** The test vectors: position 4 gives 0x48, 1 gives 0x42, 7 gives 0x4E. */
  lemma MakeMoveVectors()
    ensures SendMakeMove(4) == Success([0x48])
    ensures SendMakeMove(1) == Success([0x42])
    ensures SendMakeMove(7) == Success([0x4E])
  {
  }

  /** The reader reads a PlayerMakeMove packet back as tag 2 and the
      position, with nothing left over but padding. */
  lemma MakeMoveDecodes(position: int32)
    requires 0 <= position < 16
    ensures SendMakeMove(position).Success?
    ensures Wire.Decode(SendMakeMove(position).value, Wire.Shape(MakeMoveFields(position)))
            == Success(MakeMoveFields(position))
  {
    var fields := MakeMoveFields(position);
    assert Pow2(3) == 8 && Pow2(4) == 16;
    assert fields[1..][1..] == [];
    assert Wire.AllFit(fields);
    Wire.RoundTrip(fields);
    MakeMoveByte(position);
  }
}
