/**
  Messages as trees of fields, and their encoding (Protocol Buffers Encoding, "Message Structure"
  and "Length-Delimited Records"): what the writer has to produce and the reader to recover.
 */
module Message {
  import opened Results
  import opened UInt64
  import opened Varints

  const VARINT := 0
  const FIXED64 := 1
  const DELIMITED := 2
  const END_GROUP := 4
  const FIXED32 := 5

  datatype Field =
    | VarintField(number: nat, value: UInt64)
    | Fixed32Field(number: nat, word: uint32)
    | Fixed64Field(number: nat, words: UInt64)
    | BytesField(number: nat, bytes: seq<byte>)
    | MessageField(number: nat, fields: seq<Field>)
  {
    function WireType(): nat {
      match this
      case VarintField(_, _) => VARINT
      case Fixed32Field(_, _) => FIXED32
      case Fixed64Field(_, _) => FIXED64
      case BytesField(_, _) => DELIMITED
      case MessageField(_, _) => DELIMITED
    }
  }

  function Tag(number: nat, wireType: nat): seq<byte> {
    Varint(8 * number + wireType)
  }

  /** A tag and a payload; a delimited payload has its length in front. */
  function EncodeField(f: Field): (s: seq<byte>)
    ensures |s| > 0
    decreases f, 1
  {
    Tag(f.number, f.WireType()) + Payload(f)
  }

  function Payload(f: Field): seq<byte>
    decreases f, 0
  {
    match f
    case VarintField(_, value) => Varint(value.Value())
    case Fixed32Field(_, word) => Word(word)
    case Fixed64Field(_, words) => Word(words.lo) + Word(words.hi)
    case BytesField(_, bytes) => Varint(|bytes|) + bytes
    case MessageField(_, fields) => Varint(|EncodeFields(fields)|) + EncodeFields(fields)
  }

  function EncodeFields(fields: seq<Field>): seq<byte>
    decreases fields
  {
    if fields == [] then [] else EncodeField(fields[0]) + EncodeFields(fields[1..])
  }

  /** The tag, by its number: what kind a field has is in the low three bits. */
  lemma {:induction false} TagOfField(f: Field)
    ensures var kind := match f {
        case VarintField(_, _) => 0
        case Fixed64Field(_, _) => 1
        case BytesField(_, _) => 2
        case MessageField(_, _) => 2
        case Fixed32Field(_, _) => 5
      };
      ParseVarint(EncodeField(f)) == Some((8 * f.number + kind, |EncodeField(f)| - |Payload(f)|))
  {
    VarintParses(8 * f.number + f.WireType(), Payload(f));
  }

  /** The examples of Protocol Buffers Encoding, and one of each fixed width. */
  lemma {:induction false} KnownMessages()
    ensures EncodeField(VarintField(1, UInt64(150, 0))) == [8, 150, 1]
    ensures EncodeField(BytesField(2, [116, 101, 115, 116])) == [18, 4, 116, 101, 115, 116]
    ensures EncodeField(MessageField(3, [VarintField(1, UInt64(150, 0))])) == [26, 3, 8, 150, 1]
    ensures EncodeField(Fixed32Field(4, 1)) == [37, 1, 0, 0, 0]
    ensures EncodeField(Fixed64Field(5, UInt64(1, 2))) == [41, 1, 0, 0, 0, 2, 0, 0, 0]
  {
    KnownNumbers();
    var one := VarintField(1, UInt64(150, 0));
    assert EncodeField(one) == [8] + [150, 1];
    assert [one][1..] == [] && EncodeFields([]) == [];
    assert EncodeFields([one]) == EncodeField(one) + [];
  }

  /** The assertions of the writer: field numbers and lengths have to fit. */
  ghost predicate Writable(f: Field)
    decreases f
  {
    && 1 <= f.number < 0x2000_0000
    && (f.BytesField? ==> |f.bytes| < TWO_TO_32)
    && (f.MessageField? ==> AllWritable(f.fields) && |EncodeFields(f.fields)| < TWO_TO_32)
  }

  ghost predicate AllWritable(fields: seq<Field>)
    decreases fields
  {
    fields == [] || (Writable(fields[0]) && AllWritable(fields[1..]))
  }

  // ---------- what a reader knows about the fields it may meet ----------

  datatype Kind = KVarint | KFixed32 | KFixed64 | KBytes | KMessage(schema: Schema)

  datatype Schema = Schema(kinds: map<nat, Kind>)

  /** Fields the schema knows have the kind it says; other fields may be anything. */
  ghost predicate Conforms(f: Field, schema: Schema)
    decreases f
  {
    f.number in schema.kinds ==> match schema.kinds[f.number] {
      case KVarint => f.VarintField?
      case KFixed32 => f.Fixed32Field?
      case KFixed64 => f.Fixed64Field?
      case KBytes => f.BytesField?
      case KMessage(sub) => f.MessageField? && AllConform(f.fields, sub)
    }
  }

  ghost predicate AllConform(fields: seq<Field>, schema: Schema)
    decreases fields
  {
    fields == [] || (Conforms(fields[0], schema) && AllConform(fields[1..], schema))
  }

  /** The tree without the fields, at any depth, that the schema does not know. */
  ghost function Known(fields: seq<Field>, schema: Schema): seq<Field>
    decreases fields
  {
    if fields == [] then []
    else KnownField(fields[0], schema) + Known(fields[1..], schema)
  }

  ghost function KnownField(f: Field, schema: Schema): seq<Field>
    decreases f
  {
    if f.number !in schema.kinds then []
    else if f.MessageField? && schema.kinds[f.number].KMessage? then
      [MessageField(f.number, Known(f.fields, schema.kinds[f.number].schema))]
    else [f]
  }

  /** Fields are kept or dropped one by one. */
  lemma {:induction false} KnownConcat(a: seq<Field>, b: seq<Field>, schema: Schema)
    ensures Known(a + b, schema) == Known(a, schema) + Known(b, schema)
  {
    if a == [] {
      assert a + b == b;
    } else {
      assert (a + b)[1..] == a[1..] + b;
      KnownConcat(a[1..], b, schema);
    }
  }

  /** One whose number is not known is dropped; a submessage is kept without what its own schema does not know. */
  lemma {:induction false} KnownOfOne(f: Field, schema: Schema)
    ensures f.number !in schema.kinds ==> Known([f], schema) == []
    ensures f.number in schema.kinds && !(f.MessageField? && schema.kinds[f.number].KMessage?) ==> Known([f], schema) == [f]
    ensures f.number in schema.kinds && f.MessageField? && schema.kinds[f.number].KMessage? ==>
      Known([f], schema) == [MessageField(f.number, Known(f.fields, schema.kinds[f.number].schema))]
  {
    assert [f][1..] == [];
    assert Known([], schema) == [];
  }

  /** The schema knows the number of every field, at every depth it looks into. */
  ghost predicate Covered(f: Field, schema: Schema)
    decreases f
  {
    f.number in schema.kinds
    && (f.MessageField? && schema.kinds[f.number].KMessage? ==> AllCovered(f.fields, schema.kinds[f.number].schema))
  }

  ghost predicate AllCovered(fields: seq<Field>, schema: Schema)
    decreases fields
  {
    fields == [] || (Covered(fields[0], schema) && AllCovered(fields[1..], schema))
  }

  lemma {:induction false} KnownIsNoLonger(fields: seq<Field>, schema: Schema)
    ensures |Known(fields, schema)| <= |fields|
  {
    if fields != [] { KnownIsNoLonger(fields[1..], schema); }
  }

  /** Nothing is missing from what a reader knows exactly if it knows every number. */
  lemma {:induction false} AllIsKnownIff(fields: seq<Field>, schema: Schema)
    ensures Known(fields, schema) == fields <==> AllCovered(fields, schema)
    decreases fields, 1
  {
    if fields != [] {
      var first, rest := KnownField(fields[0], schema), Known(fields[1..], schema);
      FieldIsKnownIff(fields[0], schema);
      AllIsKnownIff(fields[1..], schema);
      KnownIsNoLonger(fields[1..], schema);
      assert fields == [fields[0]] + fields[1..];
      if first + rest == fields {
        assert |first| == 1 && (first + rest)[0] == first[0] && (first + rest)[1..] == rest;
      }
    }
  }

  lemma {:induction false} FieldIsKnownIff(f: Field, schema: Schema)
    ensures KnownField(f, schema) == [f] <==> Covered(f, schema)
    decreases f, 0
  {
    if f.MessageField? && f.number in schema.kinds && schema.kinds[f.number].KMessage? {
      AllIsKnownIff(f.fields, schema.kinds[f.number].schema);
    }
  }
}
