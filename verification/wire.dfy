/** The agreement between the writer and the reader: a sequence of booleans
    and fixed-width integers written by `ByteBuilder` reads back, with the same
    widths, through `ByteDeconstructor`, and `finish()` accepts the rest. */
module Wire {
  import opened Bits
  import opened Wrappers
  import opened Errors
  import Builder
  import Deconstructor

  /** One value of a packet: a boolean, or an integer in a given bit width. */
  datatype Field = Flag(b: bool) | Number(value: int32, width: nat)

  /** What the reader expects next: a boolean, or an integer of some width. */
  datatype Kind = Boolean | Integer(width: int)

  function KindOf(f: Field): Kind
  {
    match f
    case Flag(_) => Boolean
    case Number(_, w) => Integer(w)
  }

  function Shape(fields: seq<Field>): (kinds: seq<Kind>)
    ensures |kinds| == |fields|
  {
    if |fields| == 0 then [] else [KindOf(fields[0])] + Shape(fields[1..])
  }

  /** Widths the writer supports (see `Builder.AddInt`). */
  predicate WidthOk(f: Field)
  {
    f.Number? ==> f.width <= 31
  }

  predicate Writable(fields: seq<Field>)
  {
    |fields| == 0 || (WidthOk(fields[0]) && Writable(fields[1..]))
  }

  /** An integer field whose value fits its width. */
  predicate InRange(f: Field)
  {
    f.Number? ==> 0 <= f.value < Pow2(f.width)
  }

  predicate AllInRange(fields: seq<Field>)
  {
    |fields| == 0 || (InRange(fields[0]) && AllInRange(fields[1..]))
  }

  /** A field that survives the round trip: an integer needs a width of at
      least 1 (the reader's requirement) and must fit it (the writer's). */
  predicate Fits(f: Field)
  {
    f.Number? ==> 1 <= f.width <= 31 && 0 <= f.value < Pow2(f.width)
  }

  predicate AllFit(fields: seq<Field>)
  {
    |fields| == 0 || (Fits(fields[0]) && AllFit(fields[1..]))
  }

  /** The bits one field stands for on the wire. */
  function OneFieldBits(f: Field): seq<bool>
  {
    match f
    case Flag(b) => [b]
    case Number(v, w) => BitsOf(v, w)
  }

  /** The bits of a sequence of fields, one after the other. */
  function FieldBits(fields: seq<Field>): seq<bool>
  {
    if |fields| == 0 then [] else OneFieldBits(fields[0]) + FieldBits(fields[1..])
  }

  lemma FieldBitsSingle(f: Field)
    ensures FieldBits([f]) == OneFieldBits(f)
  {
    assert [f][1..] == [];
    assert OneFieldBits(f) + [] == OneFieldBits(f);
  }

  /** The bits of two runs of fields are the bits of the first, then of the second. */
  lemma {:induction false} FieldBitsAppend(a: seq<Field>, b: seq<Field>)
    ensures FieldBits(a + b) == FieldBits(a) + FieldBits(b)
    decreases |a|
  {
    if |a| == 0 {
      assert a + b == b;
    } else {
      assert (a + b)[1..] == a[1..] + b;
      FieldBitsAppend(a[1..], b);
      AppendAssoc(OneFieldBits(a[0]), FieldBits(a[1..]), FieldBits(b));
    }
  }

  /** `addBoolean` or `addInt` for one field. */
  function WriteField(w: Builder.ByteBuilder, f: Field): (r: Result<Builder.ByteBuilder, Error>)
    requires Builder.Valid(w) && WidthOk(f)
    ensures r.Success? <==> InRange(f)
    ensures r.Failure? ==> r.error == IllegalArgument("Integer value too big!")
    ensures r.Success? ==> Builder.Valid(r.value) && Builder.Content(r.value) == Builder.Content(w) + OneFieldBits(f)
  {
    match f
    case Flag(b) => Success(Builder.AddBoolean(w, b))
    case Number(v, n) => Builder.AddInt(w, v, n)
  }

  /** Writes the fields in order, stopping at the first integer that does
      not fit its width. */
  function WriteFields(w: Builder.ByteBuilder, fields: seq<Field>): (r: Result<Builder.ByteBuilder, Error>)
    requires Builder.Valid(w) && Writable(fields)
    ensures r.Success? <==> AllInRange(fields)
    ensures r.Failure? ==> r.error == IllegalArgument("Integer value too big!")
    ensures r.Success? ==> Builder.Valid(r.value) && Builder.Content(r.value) == Builder.Content(w) + FieldBits(fields)
    decreases |fields|
  {
    if |fields| == 0 then
      assert Builder.Content(w) + [] == Builder.Content(w);
      Success(w)
    else
      var w' :- WriteField(w, fields[0]);
      var r := WriteFields(w', fields[1..]);
      AppendAssoc(Builder.Content(w), OneFieldBits(fields[0]), FieldBits(fields[1..]));
      r
  }

  /** The bytes of a packet: the fields written into a fresh builder. */
  function Encode(fields: seq<Field>): (r: Result<seq<byte>, Error>)
    requires Writable(fields)
    ensures r.Success? ==> r.value == Pack(FieldBits(fields))
    ensures r.Failure? ==> r.error == IllegalArgument("Integer value too big!")
  {
    var w :- WriteFields(Builder.New(), fields);
    assert [] + FieldBits(fields) == FieldBits(fields);
    Success(Builder.GetBytes(w))
  }

  /** `readBoolean` or `readInt` for one field. */
  function ReadField(r: Deconstructor.ByteDeconstructor, kind: Kind): (res: Result<Deconstructor.Read<Field>, Error>)
    requires Deconstructor.Valid(r)
    ensures res.Success? ==> Deconstructor.Valid(res.value.rest) && KindOf(res.value.value) == kind
  {
    match kind
    case Boolean =>
      var b :- Deconstructor.ReadBoolean(r);
      Success(Deconstructor.Read(Flag(b.value), b.rest))
    case Integer(n) =>
      var v :- Deconstructor.ReadInt(r, n);
      Success(Deconstructor.Read(Number(v.value, n), v.rest))
  }

  /** Reads fields of the given kinds in order. */
  function ReadFields(r: Deconstructor.ByteDeconstructor, kinds: seq<Kind>): (res: Result<Deconstructor.Read<seq<Field>>, Error>)
    requires Deconstructor.Valid(r)
    ensures res.Success? ==> Deconstructor.Valid(res.value.rest) && Shape(res.value.value) == kinds
    decreases |kinds|
  {
    if |kinds| == 0 then Success(Deconstructor.Read([], r))
    else
      var head :- ReadField(r, kinds[0]);
      var tail :- ReadFields(head.rest, kinds[1..]);
      var fields := [head.value] + tail.value;
      assert fields[1..] == tail.value;
      assert kinds == [kinds[0]] + kinds[1..];
      Success(Deconstructor.Read(fields, tail.rest))
  }

  /** A whole packet: the fields, then `finish()`. */
  function Decode(data: seq<byte>, kinds: seq<Kind>): (res: Result<seq<Field>, Error>)
    ensures res.Success? ==> |res.value| == |kinds|
  {
    var fields :- ReadFields(Deconstructor.New(data), kinds);
    var done := Deconstructor.Finish(fields.rest);
    if done.Fail? then Failure(done.error) else Success(fields.value)
  }

  /** Reading one field of its own kind off a reader positioned on its bits
      returns it and leaves the reader after it. */
  lemma ReadFieldWritten(r: Deconstructor.ByteDeconstructor, f: Field, tail: seq<bool>)
    requires Deconstructor.Valid(r) && Fits(f)
    requires Deconstructor.Remaining(r) == OneFieldBits(f) + tail
    ensures ReadField(r, KindOf(f)).Success?
    ensures ReadField(r, KindOf(f)).value.value == f
    ensures Deconstructor.Remaining(ReadField(r, KindOf(f)).value.rest) == tail
  {
    var rem := Deconstructor.Remaining(r);
    match f {
      case Flag(b) =>
        assert rem[1..] == tail;
      case Number(v, n) =>
        assert rem[..n] == BitsOf(v, n);
        assert rem[n..] == tail;
        ValueOfBitsOf(v, n);
        Pow2Int32(n);
    }
  }

  /** Reading fields of the right kinds off a reader positioned on their bits
      returns them and leaves the reader after them. */
  lemma {:induction false} ReadFieldsWritten(r: Deconstructor.ByteDeconstructor, fields: seq<Field>, tail: seq<bool>)
    requires Deconstructor.Valid(r)
    requires AllFit(fields)
    requires Deconstructor.Remaining(r) == FieldBits(fields) + tail
    ensures ReadFields(r, Shape(fields)).Success?
    ensures ReadFields(r, Shape(fields)).value.value == fields
    ensures Deconstructor.Remaining(ReadFields(r, Shape(fields)).value.rest) == tail
    decreases |fields|
  {
    if |fields| == 0 {
      assert FieldBits(fields) + tail == tail;
    } else {
      var f := fields[0];
      var first := ReadField(r, KindOf(f));
      assert first.Success? && first.value.value == f
          && Deconstructor.Remaining(first.value.rest) == FieldBits(fields[1..]) + tail by {
        AppendAssoc(OneFieldBits(f), FieldBits(fields[1..]), tail);
        ReadFieldWritten(r, f, FieldBits(fields[1..]) + tail);
      }
      var kinds := Shape(fields);
      assert kinds[0] == KindOf(f) && kinds[1..] == Shape(fields[1..]);
      var rest := ReadFields(first.value.rest, kinds[1..]);
      assert rest.Success? && rest.value.value == fields[1..] && Deconstructor.Remaining(rest.value.rest) == tail by {
        ReadFieldsWritten(first.value.rest, fields[1..], tail);
      }
      ReadFieldsStep(r, kinds, first.value, rest.value);
      HeadTail(fields);
    }
  }

  lemma HeadTail<T>(s: seq<T>)
    requires |s| > 0
    ensures [s[0]] + s[1..] == s
  {
  }

  /** One step of `ReadFields`: a field, then the rest. */
  lemma ReadFieldsStep(r: Deconstructor.ByteDeconstructor, kinds: seq<Kind>,
                       head: Deconstructor.Read<Field>, tail: Deconstructor.Read<seq<Field>>)
    requires Deconstructor.Valid(r) && |kinds| > 0
    requires ReadField(r, kinds[0]) == Success(head)
    requires Deconstructor.Valid(head.rest) && ReadFields(head.rest, kinds[1..]) == Success(tail)
    ensures ReadFields(r, kinds) == Success(Deconstructor.Read([head.value] + tail.value, tail.rest))
  {
  }

  /** Fields that fit are writable and in range. */
  lemma {:induction false} FitIsWritable(fields: seq<Field>)
    requires AllFit(fields)
    ensures Writable(fields) && AllInRange(fields)
    decreases |fields|
  {
    if |fields| > 0 {
      FitIsWritable(fields[1..]);
    }
  }

  /** A reader on packed bits sees the bits, then fewer than 8 zero bits. */
  lemma StartOfPacked(bits: seq<bool>, data: seq<byte>)
    requires data == Pack(bits)
    ensures 8 * |data| - |bits| < 8
    ensures Deconstructor.Remaining(Deconstructor.New(data)) == bits + Zeros(8 * |data| - |bits|)
  {
    var pad := 8 * |Pack(bits)| - |bits|;
    UnpackPack(bits);
    assert Unpack(data) == bits + Zeros(pad);
    var r := Deconstructor.New(data);
    assert Deconstructor.Remaining(r) == Unpack(data);
  }

  /** Decoding succeeds when the fields read and only padding is left. */
  lemma DecodeWhenRead(data: seq<byte>, kinds: seq<Kind>, fields: seq<Field>)
    requires ReadFields(Deconstructor.New(data), kinds).Success?
    requires ReadFields(Deconstructor.New(data), kinds).value.value == fields
    requires Deconstructor.OnlyPadding(ReadFields(Deconstructor.New(data), kinds).value.rest)
    ensures Decode(data, kinds) == Success(fields)
  {
  }

  /** Fields in range encode to the packing of their bits. */
  lemma EncodeInRange(fields: seq<Field>)
    requires Writable(fields) && AllInRange(fields)
    ensures Encode(fields) == Success(Pack(FieldBits(fields)))
  {
  }

  /** Fields that fit encode to the packing of their bits. */
  lemma EncodeFits(fields: seq<Field>)
    requires AllFit(fields)
    ensures Writable(fields)
    ensures Encode(fields) == Success(Pack(FieldBits(fields)))
  {
    FitIsWritable(fields);
    EncodeInRange(fields);
  }

  /** Reading the packing of fields that fit returns them and leaves only
      the zero padding of the last byte. */
  lemma ReadPacked(fields: seq<Field>, data: seq<byte>)
    requires AllFit(fields) && data == Pack(FieldBits(fields))
    ensures ReadFields(Deconstructor.New(data), Shape(fields)).Success?
    ensures ReadFields(Deconstructor.New(data), Shape(fields)).value.value == fields
    ensures Deconstructor.OnlyPadding(ReadFields(Deconstructor.New(data), Shape(fields)).value.rest)
  {
    var bits := FieldBits(fields);
    var pad := Zeros(8 * |data| - |bits|);
    StartOfPacked(bits, data);
    ReadFieldsWritten(Deconstructor.New(data), fields, pad);
  }

  /** The packing of fields that fit decodes back to them. */
  lemma DecodePacked(fields: seq<Field>)
    requires AllFit(fields)
    ensures Decode(Pack(FieldBits(fields)), Shape(fields)) == Success(fields)
  {
    var data := Pack(FieldBits(fields));
    ReadPacked(fields, data);
    DecodeWhenRead(data, Shape(fields), fields);
  }

  /** Round trip: fields that fit their widths encode without error, and
      decoding the bytes with the same kinds returns them, `finish()`
      accepting the zero padding of the last byte. */
  lemma RoundTrip(fields: seq<Field>)
    requires AllFit(fields)
    ensures Writable(fields)
    ensures Encode(fields).Success?
    ensures Decode(Encode(fields).value, Shape(fields)) == Success(fields)
  {
    EncodeFits(fields);
    DecodePacked(fields);
  }
}
