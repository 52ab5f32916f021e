/** `jspb.BinaryReader`: field by field through a buffer, skipping what the caller does not know. */
module Reader {
  import opened Binary
  import opened Message
  import opened Results
  import opened UInt64
  import opened Varints

  /** From the cursor to the end the decoder has exactly the encoding of these fields. */
  ghost predicate Holds(d: BinaryDecoder, fields: seq<Field>)
    reads d
  {
    && d.cursor <= d.end <= |d.bytes|
    && AllWritable(fields)
    && d.bytes[d.cursor..d.end] == EncodeFields(fields)
  }

  /** What is left of an encoding once its first part has been read. */
  lemma Rest(bytes: seq<byte>, cursor: nat, end: nat, head: seq<byte>, tail: seq<byte>)
    requires cursor <= end <= |bytes| && bytes[cursor..end] == head + tail
    ensures cursor + |head| <= end && bytes[cursor + |head|..end] == tail
    ensures bytes[cursor..cursor + |head|] == head
    ensures head <= bytes[cursor..]
  {
    assert bytes[cursor + |head|..end] == bytes[cursor..end][|head|..];
    assert bytes[cursor..cursor + |head|] == bytes[cursor..end][..|head|];
    assert bytes[cursor..][..|head|] == head;
  }

  /** A varint that is there is found, and what follows it is what it should be. */
  lemma {:induction false} RestAfterVarint(bytes: seq<byte>, cursor: nat, end: nat, v: nat, tail: seq<byte>)
    requires v < TWO_TO_64 && cursor <= end <= |bytes| && bytes[cursor..end] == Varint(v) + tail
    ensures NextVarint(bytes, cursor) == Some((v, |Varint(v)|))
    ensures cursor + |Varint(v)| <= end && bytes[cursor + |Varint(v)|..end] == tail
  {
    Rest(bytes, cursor, end, Varint(v), tail);
    WrittenVarintIsFound(bytes, cursor, v);
  }

  class BinaryReader {
    const decoder: BinaryDecoder
    var nextField: nat
    var nextWireType: int

    constructor (bytes: seq<byte>)
      ensures fresh(decoder) && decoder.bytes == bytes && decoder.cursor == 0 && decoder.end == |bytes|
    {
      decoder := new BinaryDecoder(bytes);
      nextField, nextWireType := 0, -1;
    }

    predicate Valid()
      reads decoder
    {
      decoder.end <= |decoder.bytes|
    }

    /**
      Reads the tag of the next field, if the end has not been reached. Here and below the ghost
      parameters are any fields the buffer might hold; the contract says what happens if it does.
     */
    method NextField(ghost fields: seq<Field>) returns (r: Result<bool>)
      requires Valid()
      modifies this, decoder`cursor
      ensures r == Success(false) ==> decoder.cursor == old(decoder.cursor) == decoder.end
      ensures r == Success(true) ==> old(decoder.cursor) < decoder.cursor <= decoder.end && nextWireType in {0, 1, 2, 3, 4, 5}
      ensures old(decoder.cursor == decoder.end) ==> r == Success(false)
      ensures fields != [] && old(Holds(decoder, fields)) ==>
        && r == Success(true) && nextField == fields[0].number && nextWireType == fields[0].WireType()
        && PayloadAhead(fields[0], EncodeFields(fields[1..]))
    {
      hide NextVarint, Message.Payload, AllWritable, EncodeFields, Varint;
      if decoder.cursor == decoder.end {
        if fields != [] && Holds(decoder, fields) { NotEmpty(fields); }
        return Success(false);
      }
      if decoder.cursor > decoder.end { return Failure; }
      ghost var start := decoder.cursor;
      if fields != [] && Holds(decoder, fields) {
        TagAhead(decoder.bytes, start, decoder.end, fields);
      }
      var tag := decoder.ReadUnsignedVarint32();
      if tag.Failure? { return Failure; }
      var a := tag.value % TWO_TO_32;
      if a % 8 > 5 { return Failure; }
      nextField, nextWireType := a / 8, a % 8;
      r := Success(true);
    }

    /** Passes over a field of any kind but a group. */
    method SkipField(ghost f: Field, ghost tail: seq<byte>) returns (r: Result<()>)
      requires Valid() && decoder.cursor <= decoder.end
      modifies decoder`cursor
      ensures r.Success? ==> decoder.cursor > old(decoder.cursor)
      ensures old(PayloadAhead(f, tail)) ==> r.Success? && TailAhead(tail)
    {
      if PayloadAhead(f, tail) {
        SkippedIsRight(decoder.bytes, decoder.cursor, decoder.end, f, tail);
      }
      match nextWireType {
        case 0 => SkipVarint(); r := Success(());
        case 1 => r := Advance(8);
        case 5 => r := Advance(4);
        case 2 => r := SkipDelimited();
        case _ => r := Failure;
      }
    }

    method Advance(n: nat) returns (r: Result<()>)
      modifies decoder`cursor
      ensures decoder.cursor == old(decoder.cursor) + n
      ensures r.Success? <==> decoder.cursor <= decoder.end
    {
      decoder.cursor := decoder.cursor + n;
      r := if decoder.cursor <= decoder.end then Success(()) else Failure;
    }

    /** Goes on behind the first byte that does not continue. */
    method SkipVarint()
      requires decoder.cursor <= |decoder.bytes|
      modifies decoder`cursor
      ensures decoder.cursor > old(decoder.cursor)
      ensures var next := ParseVarint(decoder.bytes[old(decoder.cursor)..]);
        next.Some? ==> decoder.cursor == old(decoder.cursor) + next.value.1
    {
      ghost var start, s := decoder.cursor, decoder.bytes[decoder.cursor..];
      while decoder.cursor < |decoder.bytes| && decoder.bytes[decoder.cursor] >= 128
        invariant start <= decoder.cursor <= |decoder.bytes| && Continues(s, decoder.cursor - start)
      {
        decoder.cursor := decoder.cursor + 1;
      }
      ghost var k := decoder.cursor - start;
      if decoder.cursor < |decoder.bytes| {
        ParseEnds(s, k);
      } else {
        ParseContinues(s, k);
      }
      decoder.cursor := decoder.cursor + 1;
    }

    method SkipDelimited() returns (r: Result<()>)
      requires Valid()
      modifies decoder`cursor
      ensures r.Success? ==> decoder.cursor > old(decoder.cursor)
      ensures var next := NextVarint(decoder.bytes, old(decoder.cursor));
        next.Some? && old(decoder.cursor) + next.value.1 <= decoder.end && Narrow(next.value.0, next.value.1) >= 0 ==>
        && decoder.cursor == old(decoder.cursor) + next.value.1 + Narrow(next.value.0, next.value.1)
        && (r.Success? <==> decoder.cursor <= decoder.end)
    {
      var length := decoder.ReadUnsignedVarint32();
      if length.Failure? || length.value < 0 { return Failure; }
      r := Advance(length.value);
    }

    /** The generated reading loop: known fields are read, others skipped, up to the end of the message. */
    method ReadFields(schema: Schema, ghost fields: seq<Field>) returns (r: Result<seq<Field>>)
      requires Valid()
      modifies this, decoder
      ensures Valid() && (r.Success? ==> decoder.cursor >= old(decoder.cursor))
      ensures r.Success? ==> decoder.end == old(decoder.end) && (decoder.cursor == decoder.end || nextWireType == END_GROUP)
      ensures old(Holds(decoder, fields)) && AllConform(fields, schema) ==>
        r == Success(Known(fields, schema)) && decoder.cursor == decoder.end
      decreases |decoder.bytes| + 2 - decoder.cursor, 3
    {
      ghost var good := Holds(decoder, fields) && AllConform(fields, schema);
      var read: seq<Field> := [];
      ghost var rest := fields;
      while true
        invariant Valid() && decoder.end == old(decoder.end) && decoder.cursor >= old(decoder.cursor)
        invariant good ==> Holds(decoder, rest) && AllConform(rest, schema)
        invariant good ==> read + Known(rest, schema) == Known(fields, schema)
        decreases |decoder.bytes| + 2 - decoder.cursor
      {
        var more := NextField(rest);
        if more.Failure? { return Failure; }
        if !more.value || nextWireType == END_GROUP {
          assert good ==> rest == [];
          assert read + [] == read;
          return Success(read);
        }
        ghost var f := if rest == [] then VarintField(1, UInt64(0, 0)) else rest[0];
        ghost var tail := if rest == [] then [] else rest[1..];
        var one := ReadField(schema, f, EncodeFields(tail));
        if one.Failure? { return Failure; }
        if good { Assoc(read, one.value, Known(tail, schema)); }
        read := read + one.value;
        rest := tail;
      }
    }

    /** The payload of the field whose tag has just been read: the field, or nothing if it is not known. */
    method ReadField(schema: Schema, ghost f: Field, ghost tail: seq<byte>) returns (r: Result<seq<Field>>)
      requires Valid() && decoder.cursor <= decoder.end
      modifies this, decoder
      ensures Valid() && (r.Success? ==> decoder.cursor >= old(decoder.cursor))
      ensures r.Success? ==> decoder.end == old(decoder.end) && decoder.cursor > old(decoder.cursor)
      ensures old(PayloadAhead(f, tail)) && Conforms(f, schema) ==>
        r == Success(KnownField(f, schema)) && TailAhead(tail)
      decreases |decoder.bytes| + 2 - decoder.cursor, 2
    {
      var number := nextField;
      if number !in schema.kinds {
        var skipped := SkipField(f, tail);
        return if skipped.Success? then Success([]) else Failure;
      }
      match schema.kinds[number] {
        case KVarint => r := ReadVarint(f, tail);
        case KFixed32 => r := ReadFixed32(f, tail);
        case KFixed64 => r := ReadFixed64(f, tail);
        case KBytes => r := ReadDelimited(f, tail);
        case KMessage(sub) => r := ReadSubmessage(sub, f, tail);
      }
    }

    /** The current tag is that of f, and its payload and the tail are what remains. */
    ghost predicate PayloadAhead(f: Field, tail: seq<byte>)
      reads this, decoder
    {
      && f.WireType() == nextWireType && f.number == nextField && Writable(f)
      && decoder.cursor <= decoder.end <= |decoder.bytes|
      && decoder.bytes[decoder.cursor..decoder.end] == Payload(f) + tail
    }

    ghost predicate TailAhead(tail: seq<byte>)
      reads decoder
    {
      decoder.cursor <= decoder.end <= |decoder.bytes| && decoder.bytes[decoder.cursor..decoder.end] == tail
    }

    method ReadVarint(ghost f: Field, ghost tail: seq<byte>) returns (r: Result<seq<Field>>)
      requires Valid() && decoder.cursor <= decoder.end
      modifies decoder`cursor
      ensures r.Success? ==> decoder.cursor > old(decoder.cursor)
      ensures old(PayloadAhead(f, tail)) && f.VarintField? ==> r == Success([f]) && TailAhead(tail)
    {
      if nextWireType != VARINT { return Failure; }
      if PayloadAhead(f, tail) && f.VarintField? {
        RestAfterVarint(decoder.bytes, decoder.cursor, decoder.end, f.value.Value(), tail);
      }
      var v := decoder.ReadSplitVarint64();
      if v.Failure? { return Failure; }
      if old(PayloadAhead(f, tail)) && f.VarintField? { SameValueSameHalves(v.value, f.value); }
      r := Success([VarintField(nextField, v.value)]);
    }

    method ReadFixed32(ghost f: Field, ghost tail: seq<byte>) returns (r: Result<seq<Field>>)
      requires Valid() && decoder.cursor <= decoder.end
      modifies decoder`cursor
      ensures r.Success? ==> decoder.cursor > old(decoder.cursor)
      ensures old(PayloadAhead(f, tail)) && f.Fixed32Field? ==> r == Success([f]) && TailAhead(tail)
    {
      if nextWireType != FIXED32 { return Failure; }
      if PayloadAhead(f, tail) && f.Fixed32Field? {
        Rest(decoder.bytes, decoder.cursor, decoder.end, Word(f.word), tail);
      }
      var v := decoder.ReadUint32();
      if v.Failure? { return Failure; }
      if old(PayloadAhead(f, tail)) && f.Fixed32Field? { SameWord(v.value, f.word); }
      r := Success([Fixed32Field(nextField, v.value)]);
    }

    method ReadFixed64(ghost f: Field, ghost tail: seq<byte>) returns (r: Result<seq<Field>>)
      requires Valid() && decoder.cursor <= decoder.end
      modifies decoder`cursor
      ensures r.Success? ==> decoder.cursor > old(decoder.cursor)
      ensures old(PayloadAhead(f, tail)) && f.Fixed64Field? ==> r == Success([f]) && TailAhead(tail)
    {
      if nextWireType != FIXED64 { return Failure; }
      if PayloadAhead(f, tail) && f.Fixed64Field? {
        TwoWordsAhead(decoder.bytes, decoder.cursor, decoder.end, f.words, tail);
      }
      var lo := decoder.ReadUint32();
      if lo.Failure? { return Failure; }
      var hi := decoder.ReadUint32();
      if hi.Failure? { return Failure; }
      if old(PayloadAhead(f, tail)) && f.Fixed64Field? {
        SameWord(lo.value, f.words.lo);
        SameWord(hi.value, f.words.hi);
      }
      r := Success([Fixed64Field(nextField, UInt64(lo.value, hi.value))]);
    }

    method ReadDelimited(ghost f: Field, ghost tail: seq<byte>) returns (r: Result<seq<Field>>)
      requires Valid() && decoder.cursor <= decoder.end
      modifies decoder`cursor
      ensures r.Success? ==> decoder.cursor > old(decoder.cursor)
      ensures old(PayloadAhead(f, tail)) && f.BytesField? ==> r == Success([f]) && TailAhead(tail)
    {
      if nextWireType != DELIMITED { return Failure; }
      if PayloadAhead(f, tail) && f.BytesField? {
        DelimitedAhead(decoder.bytes, decoder.cursor, decoder.end, f.bytes, tail);
      }
      var length := decoder.ReadUnsignedVarint32();
      if length.Failure? { return Failure; }
      var bytes := decoder.ReadBytes(length.value);
      if bytes.Failure? { return Failure; }
      r := Success([BytesField(nextField, bytes.value)]);
    }

    method ReadSubmessage(schema: Schema, ghost f: Field, ghost tail: seq<byte>) returns (r: Result<seq<Field>>)
      requires Valid() && decoder.cursor <= decoder.end
      modifies this, decoder
      ensures Valid()
      ensures r.Success? ==> decoder.end == old(decoder.end) && decoder.cursor > old(decoder.cursor)
      ensures old(PayloadAhead(f, tail)) && f.MessageField? && AllConform(f.fields, schema) ==>
        r == Success([MessageField(f.number, Known(f.fields, schema))]) && TailAhead(tail)
      decreases |decoder.bytes| + 2 - decoder.cursor, 1
    {
      if nextWireType != DELIMITED { return Failure; }
      var number := nextField;
      ghost var body := if f.MessageField? then f.fields else [];
      if PayloadAhead(f, tail) && f.MessageField? {
        DelimitedAhead(decoder.bytes, decoder.cursor, decoder.end, EncodeFields(body), tail);
      }
      var read := ReadMessage(schema, body);
      if read.Failure? { return Failure; }
      r := Success([MessageField(number, read.value)]);
    }

    /** Reads a submessage within its own end, then goes on after it within the old one. */
    method ReadMessage(schema: Schema, ghost body: seq<Field>) returns (r: Result<seq<Field>>)
      requires Valid() && decoder.cursor <= decoder.end
      modifies this, decoder
      ensures Valid() && (r.Success? ==> decoder.cursor >= old(decoder.cursor))
      ensures r.Success? ==> decoder.end == old(decoder.end) && decoder.cursor > old(decoder.cursor)
      ensures old(MessageAhead(body)) && AllConform(body, schema) ==>
        && r == Success(Known(body, schema))
        && decoder.cursor == old(decoder.cursor) + |Varint(|EncodeFields(body)|)| + |EncodeFields(body)|
      decreases |decoder.bytes| + 2 - decoder.cursor, 0
    {
      ghost var start := decoder.cursor;
      var outer := decoder.end;
      var length := decoder.ReadUnsignedVarint32();
      if length.Failure? || length.value < 0 { return Failure; }
      var inner := decoder.cursor + length.value;
      if inner > |decoder.bytes| { return Failure; }
      decoder.end := inner;
      r := ReadFields(schema, body);
      if r.Failure? { return Failure; }
      decoder.cursor := inner;
      decoder.end := outer;
    }

    /** A length and, after it, that many bytes encoding these fields. */
    ghost predicate MessageAhead(body: seq<Field>)
      reads decoder
    {
      var n := |EncodeFields(body)|;
      && AllWritable(body)
      && NextVarint(decoder.bytes, decoder.cursor) == Some((n, |Varint(n)|)) && Narrow(n, |Varint(n)|) == n
      && var at := decoder.cursor + |Varint(n)|;
        at + n <= decoder.end <= |decoder.bytes| && decoder.bytes[at..at + n] == EncodeFields(body)
    }
  }

  lemma Assoc(a: seq<Field>, b: seq<Field>, c: seq<Field>)
    ensures a + b + c == a + (b + c)
  {
  }

  lemma SameWord(v: uint32, w: uint32)
    requires Word(v) == Word(w)
    ensures v == w
  {
    assert Word(v)[0] == Word(w)[0] && Word(v)[1] == Word(w)[1] && Word(v)[2] == Word(w)[2] && Word(v)[3] == Word(w)[3];
    Sum(v);
    Sum(w);
  }

  lemma Sum(v: uint32)
    ensures v == v % 256 + 256 * (v / 256 % 256) + 0x1_0000 * (v / 0x1_0000 % 256) + 0x100_0000 * (v / 0x100_0000)
  {
    assert v / 256 / 256 == v / 0x1_0000 && v / 0x1_0000 / 256 == v / 0x100_0000;
  }

  lemma {:induction false} TwoWordsAhead(bytes: seq<byte>, start: nat, end: nat, words: UInt64, tail: seq<byte>)
    requires start <= end <= |bytes| && bytes[start..end] == Word(words.lo) + Word(words.hi) + tail
    ensures start + 8 <= end && bytes[start..start + 4] == Word(words.lo) && bytes[start + 4..start + 8] == Word(words.hi)
    ensures bytes[start + 8..end] == tail
  {
    assert Word(words.lo) + Word(words.hi) + tail == Word(words.lo) + (Word(words.hi) + tail);
    Rest(bytes, start, end, Word(words.lo), Word(words.hi) + tail);
    Rest(bytes, start + 4, end, Word(words.hi), tail);
  }

  ghost function TagOf(f: Field): nat {
    8 * f.number + f.WireType()
  }

  lemma {:induction false} NotEmpty(fields: seq<Field>)
    requires fields != []
    ensures EncodeFields(fields) != []
  {
  }

  lemma {:induction false} TagAhead(bytes: seq<byte>, start: nat, end: nat, fields: seq<Field>)
    requires fields != [] && AllWritable(fields) && start <= end <= |bytes| && bytes[start..end] == EncodeFields(fields)
    ensures NextVarint(bytes, start) == Some((TagOf(fields[0]), |Varint(TagOf(fields[0]))|))
    ensures start + |Varint(TagOf(fields[0]))| <= end
    ensures bytes[start + |Varint(TagOf(fields[0]))|..end] == Payload(fields[0]) + EncodeFields(fields[1..])
    ensures Narrow(TagOf(fields[0]), |Varint(TagOf(fields[0]))|) == TagOf(fields[0]) < TWO_TO_32
    ensures Writable(fields[0])
  {
    var f, tail := fields[0], EncodeFields(fields[1..]);
    assert EncodeFields(fields) == Varint(TagOf(f)) + (Payload(f) + tail);
    RestAfterVarint(bytes, start, end, TagOf(f), Payload(f) + tail);
    NarrowingIsExact(TagOf(f), 0);
  }

  /** Where skipping the payload of f has to end. */
  ghost predicate Skipped(bytes: seq<byte>, start: nat, end: nat, f: Field, tail: seq<byte>) {
    match f
    case VarintField(_, _) =>
      && start <= |bytes| && ParseVarint(bytes[start..]).Some?
      && Lands(bytes, start + ParseVarint(bytes[start..]).value.1, end, tail)
    case Fixed32Field(_, _) => Lands(bytes, start + 4, end, tail)
    case Fixed64Field(_, _) => Lands(bytes, start + 8, end, tail)
    case _ =>
      && NextVarint(bytes, start).Some?
      && var (v, n) := NextVarint(bytes, start).value;
        start + n <= end && 0 <= Narrow(v, n) && Lands(bytes, start + n + Narrow(v, n), end, tail)
  }

  ghost predicate Lands(bytes: seq<byte>, at: nat, end: nat, tail: seq<byte>) {
    at <= end <= |bytes| && bytes[at..end] == tail
  }

  lemma {:induction false} SkippedIsRight(bytes: seq<byte>, start: nat, end: nat, f: Field, tail: seq<byte>)
    requires start <= end <= |bytes| && Writable(f) && bytes[start..end] == Payload(f) + tail
    ensures Skipped(bytes, start, end, f, tail)
  {
    match f {
      case VarintField(_, value) =>
        RestAfterVarint(bytes, start, end, value.Value(), tail);
      case Fixed32Field(_, word) =>
        Rest(bytes, start, end, Word(word), tail);
      case Fixed64Field(_, words) =>
        Rest(bytes, start, end, Word(words.lo) + Word(words.hi), tail);
      case BytesField(_, payload) =>
        DelimitedAhead(bytes, start, end, payload, tail);
      case MessageField(_, fields) =>
        DelimitedAhead(bytes, start, end, EncodeFields(fields), tail);
    }
  }

  lemma {:induction false} DelimitedAhead(bytes: seq<byte>, start: nat, end: nat, body: seq<byte>, tail: seq<byte>)
    requires start <= end <= |bytes| && |body| < TWO_TO_32 && bytes[start..end] == Varint(|body|) + body + tail
    ensures NextVarint(bytes, start) == Some((|body|, |Varint(|body|)|))
    ensures Narrow(|body|, |Varint(|body|)|) == |body|
    ensures var at := start + |Varint(|body|)|;
      at + |body| <= end && bytes[at..at + |body|] == body && bytes[at + |body|..end] == tail
  {
    assert Varint(|body|) + body + tail == Varint(|body|) + (body + tail);
    RestAfterVarint(bytes, start, end, |body|, body + tail);
    NarrowingIsExact(|body|, 0);
    Rest(bytes, start + |Varint(|body|)|, end, body, tail);
  }
}
