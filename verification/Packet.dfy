/**
  The packet of the JavaScript client: the `Context` message in front of the content, with a header
  of two 16-bit sizes.
 */
module Packet {
  import opened Binary
  import opened Framing
  import opened Message
  import opened Reader
  import opened Results
  import opened UInt64
  import opened Utf8
  import opened Varints
  import opened Writer

  // ---------- writing and reading any tree of fields ----------

  /** A tree of fields that is written, submessages back-patched, and read again with a schema it conforms to. */
  method TreeRoundTrip(fields: seq<Field>, schema: Schema) returns (r: Result<seq<Field>>)
    requires AllWritable(fields) && AllConform(fields, schema)
    ensures r == Success(Known(fields, schema))
    ensures r == Success(fields) <==> AllCovered(fields, schema)
  {
    AllIsKnownIff(fields, schema);
    var writer := new BinaryWriter();
    writer.WriteFields(fields);
    var bytes := writer.GetResultBuffer();
    assert bytes == EncodeFields(fields);
    var reader := new BinaryReader(bytes);
    assert reader.decoder.bytes[0..|bytes|] == EncodeFields(fields);
    r := reader.ReadFields(schema, fields);
  }

  // ---------- the Context message ----------

  datatype Context = Context(
    transmissionId: uint32, packetType: int32, packetFlags: int32, priority: int32,
    serviceMethod: seq<unit>, isCancelled: bool, isFailed: bool)

  const DEFAULT := Context(0, 0, 0, 0, [], false, false)

  /** The 64-bit pattern of a signed 32-bit number. */
  function Extended(n: int32): (x: UInt64)
    ensures x.Value() == n % TWO_TO_64 && Signed(x) == n
  {
    UInt64(n % TWO_TO_32, if n < 0 then TWO_TO_32 - 1 else 0)
  }

  function NumberField(number: nat, x: UInt64): seq<Field> {
    if x == UInt64(0, 0) then [] else [VarintField(number, x)]
  }

  function MethodField(s: seq<unit>): seq<Field> {
    if s == [] then [] else [BytesField(5, Encode(s))]
  }

  function Flag(b: bool): UInt64 {
    UInt64(if b then 1 else 0, 0)
  }

  /** The fields of a context, those with default values left out. */
  function ContextFields(c: Context): seq<Field> {
    NumberField(1, UInt64(c.transmissionId, 0)) + NumberField(2, Extended(c.packetType))
    + NumberField(3, Extended(c.packetFlags)) + NumberField(4, Extended(c.priority))
    + MethodField(c.serviceMethod) + NumberField(6, Flag(c.isCancelled)) + NumberField(7, Flag(c.isFailed))
  }

  /** The seven fields by number and value, each there exactly if it is not the default. */
  lemma FieldsAreNumbered(c: Context)
    ensures ContextFields(c) ==
      (if c.transmissionId == 0 then [] else [VarintField(1, UInt64(c.transmissionId, 0))])
      + (if c.packetType == 0 then [] else [VarintField(2, UInt64(c.packetType % 0x1_0000_0000, if c.packetType < 0 then 0xFFFF_FFFF else 0))])
      + (if c.packetFlags == 0 then [] else [VarintField(3, UInt64(c.packetFlags % 0x1_0000_0000, if c.packetFlags < 0 then 0xFFFF_FFFF else 0))])
      + (if c.priority == 0 then [] else [VarintField(4, UInt64(c.priority % 0x1_0000_0000, if c.priority < 0 then 0xFFFF_FFFF else 0))])
      + (if c.serviceMethod == [] then [] else [BytesField(5, Encode(c.serviceMethod))])
      + (if c.isCancelled then [VarintField(6, UInt64(1, 0))] else [])
      + (if c.isFailed then [VarintField(7, UInt64(1, 0))] else [])
  {
    SignedNumber(2, c.packetType);
    SignedNumber(3, c.packetFlags);
    SignedNumber(4, c.priority);
    UnsignedNumber(1, c.transmissionId);
    FlagNumber(6, c.isCancelled);
    FlagNumber(7, c.isFailed);
    hide Encode, NumberField, Extended, Flag;
  }

  lemma UnsignedNumber(number: nat, n: uint32)
    ensures NumberField(number, UInt64(n, 0)) == if n == 0 then [] else [VarintField(number, UInt64(n, 0))]
  {
  }

  lemma SignedNumber(number: nat, n: int32)
    ensures NumberField(number, Extended(n)) ==
      if n == 0 then [] else [VarintField(number, UInt64(n % 0x1_0000_0000, if n < 0 then 0xFFFF_FFFF else 0))]
  {
  }

  lemma FlagNumber(number: nat, b: bool)
    ensures NumberField(number, Flag(b)) == if b then [VarintField(number, UInt64(1, 0))] else []
  {
  }

  /** Fields a context can be read from: the known ones have the right type and range, others may be anything. */
  ghost predicate ContextField(f: Field) {
    && Writable(f)
    && (f.number == 1 || f.number == 6 || f.number == 7 ==> f.VarintField? && f.value.hi == 0)
    && (f.number == 2 || f.number == 3 || f.number == 4 ==>
          f.VarintField? && -TWO_TO_31 <= Signed(f.value) < TWO_TO_31)
    && (f.number == 5 ==> f.BytesField? && Decode(f.bytes, 0, |f.bytes|).1 == |f.bytes|)
  }

  ghost predicate AreContextFields(fields: seq<Field>) {
    forall i :: 0 <= i < |fields| ==> ContextField(fields[i])
  }

  /** What one more field does to a context: the last occurrence of a field counts. */
  ghost function Apply(c: Context, f: Field): Context
    requires ContextField(f)
  {
    if f.number == 1 then c.(transmissionId := f.value.lo)
    else if f.number == 2 then c.(packetType := Signed(f.value))
    else if f.number == 3 then c.(packetFlags := Signed(f.value))
    else if f.number == 4 then c.(priority := Signed(f.value))
    else if f.number == 5 then c.(serviceMethod := Decode(f.bytes, 0, |f.bytes|).0)
    else if f.number == 6 then c.(isCancelled := f.value.lo != 0)
    else if f.number == 7 then c.(isFailed := f.value.lo != 0)
    else c
  }

  /** What each number sets; all others are ignored. */
  lemma {:induction false} SetterOfNumber(c: Context, f: Field)
    requires ContextField(f)
    ensures f.number == 1 ==> Apply(c, f) == c.(transmissionId := f.value.lo)
    ensures f.number == 2 ==> Apply(c, f) == c.(packetType := Signed(f.value))
    ensures f.number == 3 ==> Apply(c, f) == c.(packetFlags := Signed(f.value))
    ensures f.number == 4 ==> Apply(c, f) == c.(priority := Signed(f.value))
    ensures f.number == 5 ==> Apply(c, f) == c.(serviceMethod := Decode(f.bytes, 0, |f.bytes|).0)
    ensures f.number == 6 ==> Apply(c, f) == c.(isCancelled := f.value.lo != 0)
    ensures f.number == 7 ==> Apply(c, f) == c.(isFailed := f.value.lo != 0)
    ensures f.number > 7 ==> Apply(c, f) == c
  {
    hide Decode;
  }

  ghost function ApplyAll(c: Context, fields: seq<Field>): Context
    requires AreContextFields(fields)
    decreases |fields|
  {
    if fields == [] then c else ApplyAll(Apply(c, fields[0]), fields[1..])
  }

  lemma {:induction false} ApplyConcat(c: Context, a: seq<Field>, b: seq<Field>)
    requires AreContextFields(a) && AreContextFields(b)
    ensures AreContextFields(a + b) && ApplyAll(c, a + b) == ApplyAll(ApplyAll(c, a), b)
    decreases |a|
  {
    if a == [] {
      assert a + b == b;
    } else {
      assert (a + b)[1..] == a[1..] + b;
      ApplyConcat(Apply(c, a[0]), a[1..], b);
    }
  }

  lemma {:induction false} EncodeConcat(a: seq<Field>, b: seq<Field>)
    ensures EncodeFields(a + b) == EncodeFields(a) + EncodeFields(b)
  {
    if a == [] {
      assert a + b == b;
    } else {
      assert (a + b)[1..] == a[1..] + b;
      EncodeConcat(a[1..], b);
    }
  }

  /** A field left out because its value is 0 leaves a context alone in which it still is. */
  lemma {:induction false} NumberApplied(c: Context, number: nat, x: UInt64, d: Context)
    requires 1 <= number < 8 && number != 5 && ContextField(VarintField(number, x))
    requires d == Apply(c, VarintField(number, x)) && (x == UInt64(0, 0) ==> c == d)
    ensures AreContextFields(NumberField(number, x)) && ApplyAll(c, NumberField(number, x)) == d
  {
    var fields := NumberField(number, x);
    if fields != [] { assert fields[1..] == []; }
  }

  lemma {:induction false} MethodApplied(c: Context, s: seq<unit>)
    requires c.serviceMethod == [] && |Encode(s)| < TWO_TO_32
    ensures AreContextFields(MethodField(s)) && ApplyAll(c, MethodField(s)) == c.(serviceMethod := Kept(s))
  {
    EncodedMethod(s);
    var fields := MethodField(s);
    if fields != [] { assert fields[1..] == []; }
  }

  /** One more step of a chain of fields. */
  lemma {:induction false} Chain(c: Context, a: seq<Field>, d: Context, b: seq<Field>, e: Context) returns (all: seq<Field>)
    requires AreContextFields(a) && ApplyAll(c, a) == d && AreContextFields(b) && ApplyAll(d, b) == e
    ensures all == a + b && AreContextFields(all) && ApplyAll(c, all) == e
  {
    all := a + b;
    ApplyConcat(c, a, b);
  }

  lemma EncodedMethod(s: seq<unit>)
    requires |Encode(s)| < TWO_TO_32
    ensures AreContextFields(MethodField(s))
    ensures Decode(Encode(s), 0, |Encode(s)|) == (Kept(s), |Encode(s)|)
  {
    var b := Encode(s);
    assert b[0..|b|] == b;
    DecodeEncode(b, 0, |b|, s);
  }

  /** Reading the fields of a context gives it back, but for unpaired high surrogates in the method name. */
  lemma {:induction false} FieldsCarryTheContext(c: Context)
    requires |Encode(c.serviceMethod)| < TWO_TO_32
    ensures AreContextFields(ContextFields(c))
    ensures ApplyAll(DEFAULT, ContextFields(c)) == c.(serviceMethod := Kept(c.serviceMethod))
  {
    hide ApplyAll, AreContextFields, NumberField, MethodField;
    var c1 := DEFAULT.(transmissionId := c.transmissionId);
    NumberApplied(DEFAULT, 1, UInt64(c.transmissionId, 0), c1);
    var c2 := c1.(packetType := c.packetType);
    NumberApplied(c1, 2, Extended(c.packetType), c2);
    var all := Chain(DEFAULT, NumberField(1, UInt64(c.transmissionId, 0)), c1, NumberField(2, Extended(c.packetType)), c2);
    var c3 := c2.(packetFlags := c.packetFlags);
    NumberApplied(c2, 3, Extended(c.packetFlags), c3);
    all := Chain(DEFAULT, all, c2, NumberField(3, Extended(c.packetFlags)), c3);
    var c4 := c3.(priority := c.priority);
    NumberApplied(c3, 4, Extended(c.priority), c4);
    all := Chain(DEFAULT, all, c3, NumberField(4, Extended(c.priority)), c4);
    var c5 := c4.(serviceMethod := Kept(c.serviceMethod));
    MethodApplied(c4, c.serviceMethod);
    all := Chain(DEFAULT, all, c4, MethodField(c.serviceMethod), c5);
    var c6 := c5.(isCancelled := c.isCancelled);
    NumberApplied(c5, 6, Flag(c.isCancelled), c6);
    all := Chain(DEFAULT, all, c5, NumberField(6, Flag(c.isCancelled)), c6);
    var c7 := c6.(isFailed := c.isFailed);
    NumberApplied(c6, 7, Flag(c.isFailed), c7);
    all := Chain(DEFAULT, all, c6, NumberField(7, Flag(c.isFailed)), c7);
    assert all == ContextFields(c);
  }

  // ---------- serialization ----------

  lemma {:induction false} OneField(f: Field)
    ensures EncodeFields([f]) == Tag(f.number, f.WireType()) + Payload(f)
  {
    assert [f][1..] == [];
    assert EncodeFields([]) == [];
  }

  /** The output so far is `out` followed by the encoding of the fields done. */
  ghost predicate Written(writer: BinaryWriter, out: seq<int>, done: seq<Field>)
    reads writer, writer.encoder, writer.blocks, writer.tail, StackSet(writer.stack)
  {
    writer.Valid() && writer.Current() == out + EncodeFields(done)
  }

  lemma Appended(out: seq<int>, before: seq<int>, done: seq<Field>, more: seq<Field>)
    requires before == out + EncodeFields(done)
    ensures before + EncodeFields(more) == out + EncodeFields(done + more)
    ensures before == out + EncodeFields(done + [])
  {
    EncodeConcat(done, more);
    hide EncodeFields;
    assert done + [] == done;
    Writer.Assoc(out, EncodeFields(done), EncodeFields(more));
  }

  /** `writeUint32` and `writeEnum` under the guard that the value is not 0; flags are written as 1. */
  method WriteNumber(writer: BinaryWriter, number: nat, n: int, signed: bool, ghost out: seq<int>, ghost done: seq<Field>)
    requires Written(writer, out, done) && 1 <= number < 8
    requires if signed then -TWO_TO_31 <= n < TWO_TO_31 else 0 <= n < TWO_TO_32
    modifies writer, writer.encoder
    ensures writer.stack == old(writer.stack)
    ensures Written(writer, out, done + NumberField(number, if signed then Extended(n) else UInt64(n, 0)))
  {
    hide BinaryWriter.Valid, BinaryWriter.Current, Varint;
    ghost var x := if signed then Extended(n) else UInt64(n, 0);
    Appended(out, writer.Current(), done, [VarintField(number, x)]);
    OneField(VarintField(number, x));
    if n != 0 {
      if signed {
        writer.WriteEnum(number, n);
      } else {
        writer.WriteUint32(number, n);
      }
    }
  }

  method WriteMethod(writer: BinaryWriter, s: seq<unit>, ghost out: seq<int>, ghost done: seq<Field>)
    requires Written(writer, out, done) && |Encode(s)| < TWO_TO_32
    modifies writer, writer.encoder
    ensures writer.stack == old(writer.stack) && Written(writer, out, done + MethodField(s))
  {
    hide BinaryWriter.Valid, BinaryWriter.Current, Varint, Encode;
    Appended(out, writer.Current(), done, [BytesField(5, Encode(s))]);
    OneField(BytesField(5, Encode(s)));
    if s != [] {
      writer.WriteString(5, s);
    }
  }

  method SerializeToWriter(c: Context, writer: BinaryWriter)
    requires writer.Valid() && |Encode(c.serviceMethod)| < TWO_TO_32
    modifies writer, writer.encoder
    ensures writer.Valid() && writer.stack == old(writer.stack)
    ensures writer.Current() == old(writer.Current()) + EncodeFields(ContextFields(c))
  {
    hide BinaryWriter.Valid, BinaryWriter.Current, NumberField, MethodField;
    ghost var out := writer.Current();
    ghost var done: seq<Field> := [];
    assert out + EncodeFields(done) == out;
    WriteNumber(writer, 1, c.transmissionId, false, out, done);
    done := done + NumberField(1, UInt64(c.transmissionId, 0));
    WriteNumber(writer, 2, c.packetType, true, out, done);
    done := done + NumberField(2, Extended(c.packetType));
    WriteNumber(writer, 3, c.packetFlags, true, out, done);
    done := done + NumberField(3, Extended(c.packetFlags));
    WriteNumber(writer, 4, c.priority, true, out, done);
    done := done + NumberField(4, Extended(c.priority));
    WriteMethod(writer, c.serviceMethod, out, done);
    done := done + MethodField(c.serviceMethod);
    WriteNumber(writer, 6, Flag(c.isCancelled).lo, false, out, done);
    done := done + NumberField(6, Flag(c.isCancelled));
    WriteNumber(writer, 7, Flag(c.isFailed).lo, false, out, done);
    done := done + NumberField(7, Flag(c.isFailed));
    assert done == ContextFields(c);
  }

  method Serialize(c: Context) returns (bytes: seq<byte>)
    requires |Encode(c.serviceMethod)| < TWO_TO_32
    ensures bytes == EncodeFields(ContextFields(c))
  {
    var writer := new BinaryWriter();
    SerializeToWriter(c, writer);
    bytes := writer.GetResultBuffer();
  }

  // ---------- deserialization ----------

  /** One field of a context: what its generated setter makes of it, or nothing for unknown fields. */
  method ReadContextField(reader: BinaryReader, c: Context, ghost f: Field, ghost tail: seq<byte>) returns (r: Result<Context>)
    requires reader.Valid() && reader.decoder.cursor <= reader.decoder.end
    modifies reader, reader.decoder`cursor
    ensures r.Success? ==> reader.decoder.cursor > old(reader.decoder.cursor)
    ensures old(reader.PayloadAhead(f, tail)) && ContextField(f) ==>
      r == Success(Apply(c, f)) && reader.TailAhead(tail)
  {
    hide Decode, Encode, EncodeFields, Varint, ParseVarint, NextVarint;
    ghost var good := reader.PayloadAhead(f, tail) && ContextField(f);
    match reader.nextField {
      case 1 =>
        var v := ReadUint32(reader, f, tail);
        if v.Failure? { return Failure; }
        r := Success(c.(transmissionId := v.value));
      case 2 =>
        var v := ReadEnum(reader, f, tail);
        if v.Failure? { return Failure; }
        r := Success(c.(packetType := v.value));
      case 3 =>
        var v := ReadEnum(reader, f, tail);
        if v.Failure? { return Failure; }
        r := Success(c.(packetFlags := v.value));
      case 4 =>
        var v := ReadEnum(reader, f, tail);
        if v.Failure? { return Failure; }
        r := Success(c.(priority := v.value));
      case 5 =>
        var s := ReadText(reader, f, tail);
        if s.Failure? { return Failure; }
        r := Success(c.(serviceMethod := s.value));
      case 6 =>
        var v := ReadUint32(reader, f, tail);
        if v.Failure? { return Failure; }
        r := Success(c.(isCancelled := v.value != 0));
      case 7 =>
        var v := ReadUint32(reader, f, tail);
        if v.Failure? { return Failure; }
        r := Success(c.(isFailed := v.value != 0));
      case _ =>
        var skipped := reader.SkipField(f, tail);
        if skipped.Failure? { return Failure; }
        r := Success(c);
    }
  }

  /** `readUint32`, and `readBool` but for the test against 0. */
  method ReadUint32(reader: BinaryReader, ghost f: Field, ghost tail: seq<byte>) returns (r: Result<uint32>)
    requires reader.Valid() && reader.decoder.cursor <= reader.decoder.end
    modifies reader.decoder`cursor
    ensures r.Success? ==> reader.decoder.cursor > old(reader.decoder.cursor)
    ensures old(reader.PayloadAhead(f, tail)) && f.VarintField? && f.value.hi == 0 ==>
      r == Success(f.value.lo) && reader.TailAhead(tail)
  {
    if reader.nextWireType != VARINT { return Failure; }
    if reader.PayloadAhead(f, tail) && f.VarintField? && f.value.hi == 0 {
      RestAfterVarint(reader.decoder.bytes, reader.decoder.cursor, reader.decoder.end, f.value.Value(), tail);
      NarrowingIsExact(f.value.lo, 0);
    }
    hide Varint, NextVarint, Narrow;
    var v := reader.decoder.ReadUnsignedVarint32();
    if v.Failure? { return Failure; }
    r := Success(v.value % TWO_TO_32);
  }

  /** `readEnum` reads 64 bits and takes them as signed; a number beyond 32 bits does not occur here. */
  method ReadEnum(reader: BinaryReader, ghost f: Field, ghost tail: seq<byte>) returns (r: Result<int32>)
    requires reader.Valid() && reader.decoder.cursor <= reader.decoder.end
    modifies reader.decoder`cursor
    ensures r.Success? ==> reader.decoder.cursor > old(reader.decoder.cursor)
    ensures old(reader.PayloadAhead(f, tail)) && f.VarintField? && -TWO_TO_31 <= Signed(f.value) < TWO_TO_31 ==>
      r == Success(Signed(f.value)) && reader.TailAhead(tail)
  {
    if reader.nextWireType != VARINT { return Failure; }
    ghost var good := reader.PayloadAhead(f, tail) && f.VarintField?;
    if good {
      RestAfterVarint(reader.decoder.bytes, reader.decoder.cursor, reader.decoder.end, f.value.Value(), tail);
    }
    hide Varint, NextVarint;
    var v := reader.decoder.ReadSplitVarint64();
    if v.Failure? { return Failure; }
    if good { SameValueSameHalves(v.value, f.value); }
    var n := JoinInt64(v.value);
    if !(-TWO_TO_31 <= n < TWO_TO_31) { return Failure; }
    r := Success(n);
  }

  /** `joinInt64`: the magnitude first, then the sign. */
  function JoinInt64(x: UInt64): (n: int)
    ensures n == Signed(x)
  {
    if x.Msb() then
      var lo := (TWO_TO_32 - 1 - x.lo + 1) % TWO_TO_32;
      var hi := (TWO_TO_32 - 1 - x.hi + if lo == 0 then 1 else 0) % TWO_TO_32;
      -(hi * TWO_TO_32 + lo)
    else x.hi * TWO_TO_32 + x.lo
  }

  method ReadText(reader: BinaryReader, ghost f: Field, ghost tail: seq<byte>) returns (r: Result<seq<unit>>)
    requires reader.Valid() && reader.decoder.cursor <= reader.decoder.end
    modifies reader.decoder`cursor
    ensures r.Success? ==> reader.decoder.cursor > old(reader.decoder.cursor)
    ensures old(reader.PayloadAhead(f, tail)) && f.BytesField? && Decode(f.bytes, 0, |f.bytes|).1 == |f.bytes| ==>
      r == Success(Decode(f.bytes, 0, |f.bytes|).0) && reader.TailAhead(tail)
  {
    hide Varint, NextVarint, Narrow, Decode, Encode, EncodeFields, Message.Payload, Writable;
    if reader.nextWireType != DELIMITED { return Failure; }
    var d := reader.decoder;
    if reader.PayloadAhead(f, tail) && f.BytesField? && Decode(f.bytes, 0, |f.bytes|).1 == |f.bytes| {
      TextAhead(d.bytes, d.cursor, d.end, f, tail);
    }
    var length := d.ReadUnsignedVarint32();
    if length.Failure? || length.value < 0 { return Failure; }
    DecodeAdvances(d.bytes, d.cursor, d.cursor + length.value);
    var s := d.ReadString(length.value);
    r := Success(s);
  }

  /** A length and, after it, a text whose characters are complete, then the tail. */
  ghost predicate TextIsAhead(bytes: seq<byte>, start: nat, end: nat, text: seq<byte>, tail: seq<byte>) {
    var n := |text|;
    var at := start + |Varint(n)|;
    && NextVarint(bytes, start) == Some((n, |Varint(n)|)) && Narrow(n, |Varint(n)|) == n
    && at + n <= end <= |bytes| && bytes[at + n..end] == tail
    && Decode(bytes, at, at + n) == (Decode(text, 0, n).0, at + n)
  }

  lemma {:induction false} TextAhead(bytes: seq<byte>, start: nat, end: nat, f: Field, tail: seq<byte>)
    requires f.BytesField? && Writable(f) && Decode(f.bytes, 0, |f.bytes|).1 == |f.bytes|
    requires start <= end <= |bytes| && bytes[start..end] == Message.Payload(f) + tail
    ensures TextIsAhead(bytes, start, end, f.bytes, tail)
  {
    assert Message.Payload(f) == Varint(|f.bytes|) + f.bytes && |f.bytes| < TWO_TO_32;
    hide Message.Payload, Writable, Varint, Decode, TextIsAhead;
    DelimitedTextAhead(bytes, start, end, f.bytes, tail);
  }

  lemma {:induction false} DelimitedTextAhead(bytes: seq<byte>, start: nat, end: nat, text: seq<byte>, tail: seq<byte>)
    requires Decode(text, 0, |text|).1 == |text| < TWO_TO_32
    requires start <= end <= |bytes| && bytes[start..end] == Varint(|text|) + text + tail
    ensures TextIsAhead(bytes, start, end, text, tail)
  {
    hide Varint, NextVarint, Narrow, Decode;
    DelimitedAhead(bytes, start, end, text, tail);
    assert text[0..] == text;
    var at := start + |Varint(|text|)|;
    DecodeInPlace(bytes, at, at + |text|, text, 0);
  }

  lemma {:induction false} DecodeAdvances(b: seq<byte>, c: nat, limit: nat)
    ensures Decode(b, c, limit).1 >= c && Decode(b, c, limit).1 >= limit
    decreases limit - c
  {
    hide Character, SixBits;
    if c < limit {
      DecodeAdvances(b, c + Width(if c < |b| then b[c] else 255), limit);
    }
  }

  /** A text whose characters are complete is decoded the same inside a larger buffer. */
  lemma {:induction false} DecodeInPlace(b: seq<byte>, c: nat, limit: nat, text: seq<byte>, at: nat)
    requires c <= limit <= |b| && at <= |text| && text[at..] == b[c..limit]
    requires Decode(text, at, |text|).1 == |text|
    ensures Decode(b, c, limit) == (Decode(text, at, |text|).0, limit)
    decreases limit - c
  {
    hide Character, SixBits, Width;
    if c < limit {
      assert b[c] == b[c..limit][0] == text[at];
      var w := Width(text[at]);
      WidthIsPositive(text[at]);
      DecodeAdvances(text, at + w, |text|);
      DecodeStep(text, at, |text|, []);
      assert text[at + w..] == text[at..][w..] == b[c..limit][w..] == b[c + w..limit];
      DecodeInPlace(b, c + w, limit, text, at + w);
      SameCharacter(b, c, limit, text, at);
    }
  }

  lemma WidthIsPositive(first: byte)
    ensures Width(first) > 0
  {
  }

  lemma {:induction false} SameCharacter(b: seq<byte>, c: nat, limit: nat, text: seq<byte>, at: nat)
    requires c < limit <= |b| && at < |text| && text[at..] == b[c..limit] && at + Width(text[at]) <= |text|
    ensures b[c] == text[at]
    ensures Character(b[c], SixBits(b, c + 1), SixBits(b, c + 2), SixBits(b, c + 3))
      == Character(text[at], SixBits(text, at + 1), SixBits(text, at + 2), SixBits(text, at + 3))
  {
    assert forall i {:trigger b[c + i]} :: 0 <= i < |text| - at ==> b[c + i] == b[c..limit][i] == text[at..][i] == text[at + i];
    assert b[c + 0] == text[at];
    var w := Width(text[at]);
    assert w > 1 ==> b[c + 1] == text[at + 1];
    assert w > 2 ==> b[c + 2] == text[at + 2];
    assert w > 3 ==> b[c + 3] == text[at + 3];
  }

  /** The generated reading loop of the context. */
  method Deserialize(bytes: seq<byte>, ghost fields: seq<Field>) returns (r: Result<Context>)
    ensures bytes == EncodeFields(fields) && AllWritable(fields) && AreContextFields(fields) ==>
      r == Success(ApplyAll(DEFAULT, fields))
  {
    hide EncodeFields, AllWritable, ContextField, Apply;
    var reader := new BinaryReader(bytes);
    var c := DEFAULT;
    ghost var good := bytes == EncodeFields(fields) && AllWritable(fields) && AreContextFields(fields);
    ghost var rest := fields;
    assert bytes[0..|bytes|] == bytes;
    while true
      invariant reader.Valid() && reader.decoder.end == |bytes| && reader.decoder.bytes == bytes
      invariant fresh(reader) && fresh(reader.decoder)
      invariant good ==> Holds(reader.decoder, rest) && AreContextFields(rest) && ApplyAll(c, rest) == ApplyAll(DEFAULT, fields)
      decreases |bytes| + 2 - reader.decoder.cursor
    {
      EndIsEmpty(rest);
      var more := reader.NextField(rest);
      if more.Failure? { return Failure; }
      if !more.value || reader.nextWireType == END_GROUP {
        assert good ==> rest == [];
        return Success(c);
      }
      assert good ==> rest != [];
      ghost var f := if rest == [] then VarintField(1, UInt64(0, 0)) else rest[0];
      ghost var tail := if rest == [] then [] else rest[1..];
      if good { WritableTail(rest); }
      var next := ReadContextField(reader, c, f, EncodeFields(tail));
      if next.Failure? { return Failure; }
      c := next.value;
      rest := tail;
    }
  }

  lemma {:induction false} EndIsEmpty(fields: seq<Field>)
    ensures fields == [] <==> EncodeFields(fields) == []
  {
  }

  lemma {:induction false} WritableTail(fields: seq<Field>)
    requires fields != [] && AllWritable(fields)
    ensures AllWritable(fields[1..])
  {
  }

  lemma {:induction false} ContextIsWritable(c: Context)
    requires |Encode(c.serviceMethod)| < TWO_TO_32
    ensures AllWritable(ContextFields(c))
  {
    hide Encode;
    FieldsCarryTheContext(c);
    AllAreWritable(ContextFields(c));
  }

  lemma {:induction false} AllAreWritable(fields: seq<Field>)
    requires AreContextFields(fields)
    ensures AllWritable(fields)
    decreases |fields|
  {
    if fields != [] { AllAreWritable(fields[1..]); }
  }

  // ---------- the packet around it ----------

  /** `ArrayBuffer.slice`: both ends are clamped to the buffer. */
  function Slice(b: seq<byte>, from: nat, to: nat): seq<byte> {
    var hi := if to <= |b| then to else |b|;
    if from <= hi then b[from..hi] else []
  }

  method Pack(context: seq<byte>, content: seq<byte>) returns (packet: seq<int>)
    ensures packet == Frame(context, content)
  {
    var ab := new int[4 + |context| + |content|];
    Set(ab, 0, Size16(|context|));
    Set(ab, 2, Size16(|content|));
    ghost var header := ab[..4];
    Set(ab, 4, context);
    ghost var front := ab[..4 + |context|];
    Set(ab, 4 + |context|, content);
    packet := ab[..];
    assert packet == ab[..4 + |context| + |content|];
  }

  /** The two parts of a packet; reading the header of a buffer that is too short is a range error. */
  function Split(ab: seq<byte>): Result<(seq<byte>, seq<byte>)> {
    if |ab| < 4 then Failure
    else
      var limit := 4 + Pair(ab[0], ab[1]);
      Success((Slice(ab, 4, limit), Slice(ab, limit, limit + Pair(ab[2], ab[3]))))
  }

  /** Whatever a buffer holds, the parts have the sizes in its header, cut off where the buffer ends. */
  lemma SplitBySizes(ab: seq<byte>, m: int, n: int)
    requires |ab| >= 4 && m == 256 * (ab[0] as int) + ab[1] as int && n == 256 * (ab[2] as int) + ab[3] as int
    ensures Split(ab).Success? && Split(ab).value.0 <= ab[4..] && Split(ab).value.1 <= ab[4 + |Split(ab).value.0|..]
    ensures |Split(ab).value.0| == if 4 + m <= |ab| then m else |ab| - 4
    ensures |Split(ab).value.1| == if 4 + m + n <= |ab| then n else if 4 + m <= |ab| then |ab| - 4 - m else 0
  {
  }

  /** Both parts come back exactly when both sizes fit into 16 bits. */
  lemma PartsComeBackIff(context: seq<byte>, content: seq<byte>)
    ensures Split(Frame(context, content)) == Success((context, content))
      <==> |context| < 0x1_0000 && |content| < 0x1_0000
  {
    var f := Frame(context, content);
    var n, m := |context| % 0x1_0000, |content| % 0x1_0000;
    SizesCutOff(|context|);
    SizesCutOff(|content|);
    assert Pair(f[0], f[1]) == n && Pair(f[2], f[3]) == m;
    assert |Slice(f, 4, 4 + n)| == n;
    assert |Slice(f, 4 + n, 4 + n + m)| == m;
    if |context| < 0x1_0000 && |content| < 0x1_0000 {
      assert f[4..4 + n] == context;
      assert f[4 + n..4 + n + m] == content;
    }
  }

  /**
    From a context and a content to a packet and back: all seven fields and the content come back,
    the method name without unpaired high surrogates.
   */
  method PacketRoundTrip(c: Context, content: seq<byte>) returns (r: Result<(Context, seq<byte>)>)
    requires |EncodeFields(ContextFields(c))| < 0x1_0000 && |content| < 0x1_0000
    requires |Encode(c.serviceMethod)| < TWO_TO_32
    ensures r == Success((c.(serviceMethod := Kept(c.serviceMethod)), content))
    ensures r == Success((c, content)) <==> Paired(c.serviceMethod)
  {
    hide Encode, EncodeFields, ContextFields, ApplyAll, AreContextFields, AllWritable;
    var bytes := Serialize(c);
    var packet := Pack(bytes, content);
    var parts := Split(packet);
    PartsComeBackIff(bytes, content);
    var (contextBytes, rest) := parts.value;
    ContextIsWritable(c);
    FieldsCarryTheContext(c);
    KeptIffPaired(c.serviceMethod);
    var context := Deserialize(contextBytes, ContextFields(c));
    r := Success((context.value, rest));
  }
}
