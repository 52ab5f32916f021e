/**
  `jspb.BinaryWriter`: a message is a list of blocks. A submessage begins with a block that also
  serves as bookmark: the bytes written so far are noted at its end, and when the submessage ends
  the note is taken out and the length of the body put there instead.
 */
module Writer {
  import opened Binary
  import opened Message
  import opened UInt64
  import opened Utf8
  import opened Varints

  /** A JavaScript array of numbers, shared between the list of blocks and the holder of a bookmark. */
  class Block {
    var data: seq<int>

    constructor (data: seq<int>)
      ensures this.data == data
    {
      this.data := data;
    }

    /** Takes the note off the end and appends how far `total` is beyond it, seven bits at a time. */
    method ReplaceNote(total: int) returns (count: nat)
      requires data != [] && data[|data| - 1] <= total
      modifies this
      ensures var note := old(data[|data| - 1]);
        data == old(data[..|data| - 1]) + Varint(total - note) && count == |Varint(total - note)|
    {
      var note := data[|data| - 1];
      ghost var prefix := data[..|data| - 1];
      data := data[..|data| - 1];
      var b := total - note;
      count := 0;
      ghost var written: seq<byte> := [];
      while 127 < b
        invariant 0 <= b && written + Varint(b) == Varint(total - note)
        invariant data == prefix + written && count == |written|
      {
        assert written + Varint(b) == written + [b % 128 + 128] + Varint(b / 128);
        data := data + [b % 128 + 128];
        written := written + [b % 128 + 128];
        b := b / 128;
        count := count + 1;
      }
      data := data + [b];
      count := count + 1;
    }
  }

  lemma Assoc(a: seq<int>, b: seq<int>, c: seq<int>)
    ensures a + b + c == a + (b + c)
  {
  }

  ghost function Flatten(blocks: seq<Block>): seq<int>
    reads blocks
  {
    if blocks == [] then [] else Flatten(blocks[..|blocks| - 1]) + blocks[|blocks| - 1].data
  }

  lemma {:induction false} FlattenConcat(a: seq<Block>, b: seq<Block>)
    ensures Flatten(a + b) == Flatten(a) + Flatten(b)
  {
    if b == [] {
      assert a + b == a;
    } else {
      var n := |b| - 1;
      FlattenConcat(a, b[..n]);
      assert (a + b)[..|a + b| - 1] == a + b[..n];
      assert (a + b)[|a + b| - 1] == b[n];
    }
  }

  lemma FlattenAround(before: seq<Block>, block: Block, after: seq<Block>)
    ensures Flatten(before + [block] + after) == Flatten(before) + block.data + Flatten(after)
  {
    FlattenConcat(before + [block], after);
    assert (before + [block])[..|before|] == before;
  }

  /** The open submessages, innermost outermost: blocks before the bookmark, the bookmark, and the bytes of both. */
  datatype Stack = Bottom | Open(below: Stack, before: seq<Block>, bookmark: Block, bytes: seq<int>)

  ghost function StackBlocks(stack: Stack): seq<Block> {
    match stack
    case Bottom => []
    case Open(below, before, bookmark, _) => StackBlocks(below) + before + [bookmark]
  }

  ghost function StackSet(stack: Stack): set<Block> {
    match stack
    case Bottom => {}
    case Open(below, before, bookmark, _) => StackSet(below) + (set b | b in before) + {bookmark}
  }

  ghost function StackLength(stack: Stack): nat {
    match stack
    case Bottom => 0
    case Open(below, _, _, bytes) => StackLength(below) + |bytes|
  }

  /** Each bookmark ends in the number of bytes written when its submessage began. */
  ghost predicate Marked(stack: Stack)
    reads StackSet(stack)
  {
    match stack
    case Bottom => true
    case Open(below, before, bookmark, bytes) =>
      && Marked(below)
      && bookmark.data != []
      && bookmark.data[|bookmark.data| - 1] == StackLength(stack)
      && bytes == Flatten(before) + bookmark.data[..|bookmark.data| - 1]
  }

  class BinaryWriter {
    var blocks: seq<Block>
    var totalLength: int
    const encoder: BinaryEncoder
    ghost var stack: Stack
    ghost var tail: seq<Block>

    ghost predicate Valid()
      reads this, blocks, tail, StackSet(stack)
    {
      && blocks == StackBlocks(stack) + tail
      && (forall i, j :: 0 <= i < j < |blocks| ==> blocks[i] != blocks[j])
      && (forall b :: b in StackSet(stack) ==> b in blocks)
      && (forall b :: b in tail ==> b in blocks)
      && Marked(stack)
      && totalLength == StackLength(stack) + |Flatten(tail)|
    }

    /** The bytes written since the innermost open submessage began. */
    ghost function Current(): seq<int>
      reads this, encoder, tail
    {
      Flatten(tail) + encoder.buffer
    }

    constructor ()
      ensures Valid() && stack == Bottom && Current() == [] && fresh(encoder) && blocks == []
    {
      blocks, totalLength := [], 0;
      encoder := new BinaryEncoder();
      stack, tail := Bottom, [];
    }

    method WriteFieldHeader(number: nat, wireType: nat)
      requires Valid() && 1 <= number && 8 * number + wireType < TWO_TO_32
      modifies encoder
      ensures Valid() && Current() == old(Current()) + Tag(number, wireType)
      ensures encoder.buffer == old(encoder.buffer) + Tag(number, wireType)
    {
      encoder.WriteUnsignedVarint32(8 * number + wireType);
    }

    /** A new block at the end. */
    method PushBlock(data: seq<int>) returns (block: Block)
      requires Valid() && encoder.buffer == []
      modifies this
      ensures Valid() && fresh(block) && block.data == data && stack == old(stack) && tail == old(tail) + [block]
      ensures Current() == old(Current()) + data && encoder.buffer == []
    {
      hide Varint;
      block := new Block(data);
      blocks := blocks + [block];
      tail := tail + [block];
      totalLength := totalLength + |data|;
      assert tail[..|tail| - 1] == old(tail);
      assert Flatten(tail) == Flatten(old(tail)) + data;
    }

    /** Moves what the encoder holds into a block of its own. */
    method Flush() returns (block: Block)
      requires Valid()
      modifies this, encoder
      ensures Valid() && fresh(block) && stack == old(stack) && tail == old(tail) + [block]
      ensures block.data == old(encoder.buffer) && encoder.buffer == []
      ensures Current() == old(Current())
    {
      var bytes := EndEncoder();
      block := PushBlock(bytes);
    }

    method EndEncoder() returns (bytes: seq<byte>)
      requires Valid()
      modifies encoder
      ensures Valid() && bytes == old(encoder.buffer) && encoder.buffer == []
      ensures old(Current()) == Current() + bytes
    {
      bytes := encoder.End();
    }

    /** `writeBytes` uses this to append an array it does not copy. */
    method AppendUint8Array(data: seq<byte>)
      requires Valid()
      modifies this, encoder
      ensures Valid() && stack == old(stack)
      ensures Current() == old(Current()) + data
    {
      hide Valid;
      var b := Flush();
      var c := PushBlock(data);
    }

    /** The bookmark of the innermost open submessage is no other block. */
    lemma BookmarkIsAlone()
      requires Valid() && stack.Open?
      ensures stack.bookmark !in stack.before && stack.bookmark !in tail && stack.bookmark !in StackSet(stack.below)
    {
      var first := StackBlocks(stack.below) + stack.before;
      StackSetIsBlocks(stack.below);
      assert blocks == first + [stack.bookmark] + tail;
      assert blocks[|first|] == stack.bookmark;
      assert forall i :: 0 <= i < |first| ==> blocks[i] == first[i];
      assert forall i :: 0 <= i < |tail| ==> blocks[|first| + 1 + i] == tail[i];
      assert stack.bookmark !in first;
    }

    /** The tag goes out first; its block then carries the note of the length so far. */
    method BeginDelimited(number: nat) returns (bookmark: Block)
      requires Valid() && 1 <= number < 0x2000_0000
      modifies this, encoder
      ensures Valid() && fresh(bookmark) && Current() == []
      ensures stack == Open(old(stack), old(tail), bookmark, old(Current()) + Tag(number, DELIMITED))
    {
      WriteFieldHeader(number, DELIMITED);
      ghost var before := tail;
      bookmark := Flush();
      assert tail[..|tail| - 1] == before;
      PushNote(bookmark, before);
    }

    method PushNote(bookmark: Block, ghost before: seq<Block>)
      requires Valid() && tail == before + [bookmark] && encoder.buffer == [] && tail[..|tail| - 1] == before
      modifies this, bookmark
      ensures Valid() && Current() == []
      ensures stack == Open(old(stack), before, bookmark, old(Current()))
    {
      ghost var below, bytes := stack, Current();
      AppendNote(bookmark, before);
      stack, tail := Open(below, before, bookmark, bytes), [];
      assert StackBlocks(stack) == StackBlocks(below) + before + [bookmark];
      assert blocks == StackBlocks(stack) + tail;
    }

    /** The note is written; the other blocks and what the stack says of them are untouched. */
    method AppendNote(bookmark: Block, ghost before: seq<Block>)
      requires Valid() && tail == before + [bookmark] && tail[..|tail| - 1] == before
      modifies bookmark
      ensures bookmark.data == old(bookmark.data) + [totalLength] && bookmark.data[..|bookmark.data| - 1] == old(bookmark.data)
      ensures old(Flatten(tail)) == Flatten(before) + old(bookmark.data)
      ensures Marked(stack) && totalLength == StackLength(stack) + old(|Flatten(tail)|)
    {
      TailIsAlone(|before|);
      bookmark.data := bookmark.data + [totalLength];
    }

    lemma TailIsAlone(i: nat)
      requires Valid() && i < |tail|
      ensures tail[i] !in tail[..i] && tail[i] !in StackSet(stack)
    {
      StackSetIsBlocks(stack);
      var n := |StackBlocks(stack)|;
      assert forall j :: 0 <= j < n ==> blocks[j] == StackBlocks(stack)[j];
      assert forall j :: 0 <= j < |tail| ==> blocks[n + j] == tail[j];
    }

    /**
      Takes the note out and puts the length of the body in its place. The bookmark has to be
      that of the innermost open submessage.
     */
    method EndDelimited(bookmark: Block)
      requires Valid() && stack.Open? && stack.bookmark == bookmark && |Current()| < TWO_TO_32
      modifies this, bookmark
      ensures Valid() && stack == old(stack.below) && tail == old(stack.before) + [bookmark] + old(tail)
      ensures Current() == old(stack.bytes) + Varint(old(|Current()|)) + old(Current())
    {
      Patch(bookmark);
      Close(bookmark);
    }

    /** Turns the note into the length, counting its bytes. */
    method Patch(bookmark: Block)
      requires Valid() && stack.Open? && stack.bookmark == bookmark && |Current()| < TWO_TO_32
      modifies this`totalLength, bookmark
      ensures Patched(bookmark, old(Current())) && Current() == old(Current())
    {
      hide Varint;
      BookmarkIsAlone();
      ghost var below, before, after := stack.below, stack.before, tail;
      ghost var flatBefore, flatAfter, prefix := Flatten(before), Flatten(after), bookmark.data[..|bookmark.data| - 1];
      ghost var body := |Current()|;
      assert stack.bytes == flatBefore + prefix && Marked(below);
      assert forall b :: b in StackSet(below) ==> b in blocks && b != bookmark;
      var count := bookmark.ReplaceNote(totalLength + |encoder.buffer|);
      assert forall b :: b in StackSet(below) ==> b.data == old(b.data);
      assert Marked(below);
      assert Flatten(before) == flatBefore && Flatten(after) == flatAfter;
      Assoc(flatBefore, prefix, Varint(body));
      totalLength := totalLength + count;
    }

    /** The innermost submessage with its length in place, still on the stack. */
    ghost predicate Patched(bookmark: Block, body: seq<int>)
      reads this, encoder, blocks, tail, StackSet(stack), bookmark
    {
      && stack.Open? && stack.bookmark == bookmark
      && blocks == StackBlocks(stack) + tail
      && (forall i, j :: 0 <= i < j < |blocks| ==> blocks[i] != blocks[j])
      && (forall b :: b in StackSet(stack) ==> b in blocks)
      && (forall b :: b in tail ==> b in blocks)
      && Marked(stack.below)
      && Flatten(stack.before) + bookmark.data == stack.bytes + Varint(|body|)
      && totalLength == StackLength(stack) + |Flatten(tail)| + |Varint(|body|)|
    }

    ghost method Close(bookmark: Block)
      requires Patched(bookmark, Current())
      modifies this`stack, this`tail
      ensures Valid() && stack == old(stack.below) && tail == old(stack.before) + [bookmark] + old(tail)
      ensures Current() == old(stack.bytes) + Varint(old(|Current()|)) + old(Current())
    {
      var body, bytes, flat := Current(), stack.bytes, Flatten(tail);
      FlattenAround(stack.before, bookmark, tail);
      stack, tail := stack.below, stack.before + [bookmark] + tail;
      assert Flatten(tail) == bytes + Varint(|body|) + flat;
      Assoc(bytes + Varint(|body|), flat, encoder.buffer);
      assert blocks == StackBlocks(stack) + tail;
    }

    // ---------- fields ----------

    method WriteSplitVarint64(number: nat, lo: uint32, hi: uint32)
      requires Valid() && 1 <= number < 0x2000_0000
      modifies encoder
      ensures Valid() && Current() == old(Current()) + Tag(number, VARINT) + Varint(UInt64(lo, hi).Value())
    {
      hide Varint;
      WriteFieldHeader(number, VARINT);
      encoder.WriteSplitVarint64(lo, hi);
    }

    method EncodeUnsigned(v: uint32)
      requires Valid()
      modifies encoder
      ensures Valid() && Current() == old(Current()) + Varint(v)
    {
      encoder.WriteUnsignedVarint32(v);
    }

    method EncodeSigned(v: int32)
      requires Valid()
      modifies encoder
      ensures Valid() && Current() == old(Current()) + Varint(v % TWO_TO_64)
    {
      encoder.WriteSignedVarint32(v);
    }

    method EncodeWord(v: uint32)
      requires Valid()
      modifies encoder
      ensures Valid() && Current() == old(Current()) + Word(v)
    {
      hide Word;
      encoder.WriteUint32(v);
    }

    method EncodeText(s: seq<unit>)
      requires Valid()
      modifies encoder
      ensures Valid() && Current() == old(Current()) + Encode(s)
    {
      hide Encode;
      encoder.WriteString(s);
    }

    method WriteUint32(number: nat, v: uint32)
      requires Valid() && 1 <= number < 0x2000_0000
      modifies encoder
      ensures Valid() && Current() == old(Current()) + (Tag(number, VARINT) + Varint(v))
    {
      hide Valid, Current, Varint;
      WriteFieldHeader(number, VARINT);
      EncodeUnsigned(v);
      Assoc(old(Current()), Tag(number, VARINT), Varint(v));
    }

    method WriteEnum(number: nat, v: int32)
      requires Valid() && 1 <= number < 0x2000_0000
      modifies encoder
      ensures Valid() && Current() == old(Current()) + (Tag(number, VARINT) + Varint(v % TWO_TO_64))
    {
      hide Valid, Current, Varint;
      WriteFieldHeader(number, VARINT);
      EncodeSigned(v);
      Assoc(old(Current()), Tag(number, VARINT), Varint(v % TWO_TO_64));
    }

    /** The length goes in front of the text afterwards, as for a submessage. */
    method WriteString(number: nat, s: seq<unit>)
      requires Valid() && 1 <= number < 0x2000_0000 && |Encode(s)| < TWO_TO_32
      modifies this, encoder
      ensures Valid() && stack == old(stack)
      ensures Current() == old(Current()) + (Tag(number, DELIMITED) + (Varint(|Encode(s)|) + Encode(s)))
    {
      hide Valid, Current, Varint, Encode;
      ghost var before, text := Current(), Encode(s);
      var bookmark := BeginDelimited(number);
      EncodeText(s);
      EndDelimited(bookmark);
      Assoc(before + Tag(number, DELIMITED), Varint(|text|), text);
      Assoc(before, Tag(number, DELIMITED), Varint(|text|) + text);
    }

    method WriteFixed32(number: nat, word: uint32)
      requires Valid() && 1 <= number < 0x2000_0000
      modifies encoder
      ensures Valid() && Current() == old(Current()) + Tag(number, FIXED32) + Word(word)
    {
      hide Valid, Current, Varint, Word;
      WriteFieldHeader(number, FIXED32);
      EncodeWord(word);
    }

    method WriteSplitFixed64(number: nat, lo: uint32, hi: uint32)
      requires Valid() && 1 <= number < 0x2000_0000
      modifies encoder
      ensures Valid() && Current() == old(Current()) + Tag(number, FIXED64) + (Word(lo) + Word(hi))
    {
      hide Valid, Current, Varint, Word;
      WriteFieldHeader(number, FIXED64);
      EncodeWord(lo);
      EncodeWord(hi);
      Assoc(old(Current()) + Tag(number, FIXED64), Word(lo), Word(hi));
    }

    method WriteBytes(number: nat, bytes: seq<byte>)
      requires Valid() && 1 <= number < 0x2000_0000 && |bytes| < TWO_TO_32
      modifies this, encoder
      ensures Valid() && stack == old(stack)
      ensures Current() == old(Current()) + Tag(number, DELIMITED) + (Varint(|bytes|) + bytes)
    {
      hide Valid, Current, Varint;
      WriteFieldHeader(number, DELIMITED);
      ghost var header := Current();
      EncodeUnsigned(|bytes|);
      AppendUint8Array(bytes);
      Assoc(header, Varint(|bytes|), bytes);
    }

    /** A whole tree of fields: submessages begin, are written field by field, and end. */
    method WriteFields(fields: seq<Field>)
      requires Valid() && AllWritable(fields)
      modifies this, encoder
      ensures Valid() && stack == old(stack)
      ensures Current() == old(Current()) + EncodeFields(fields)
      decreases fields, 0
    {
      hide Valid, Current;
      if fields == [] { return; }
      ghost var before := Current();
      WriteField(fields[0]);
      WriteFields(fields[1..]);
      Assoc(before, EncodeField(fields[0]), EncodeFields(fields[1..]));
    }

    method WriteField(f: Field)
      requires Valid() && Writable(f)
      modifies this, encoder
      ensures Valid() && stack == old(stack)
      ensures Current() == old(Current()) + EncodeField(f)
      decreases f
    {
      hide Valid, Current, EncodeFields;
      match f {
        case VarintField(number, value) =>
          WriteSplitVarint64(number, value.lo, value.hi);
        case Fixed32Field(number, word) =>
          WriteFixed32(number, word);
        case Fixed64Field(number, words) =>
          WriteSplitFixed64(number, words.lo, words.hi);
        case BytesField(number, bytes) =>
          WriteBytes(number, bytes);
        case MessageField(number, sub) =>
          WriteMessage(number, sub);
      }
      Assoc(old(Current()), Tag(f.number, f.WireType()), Payload(f));
    }

    method WriteMessage(number: nat, fields: seq<Field>)
      requires Valid() && 1 <= number < 0x2000_0000 && AllWritable(fields) && |EncodeFields(fields)| < TWO_TO_32
      modifies this, encoder
      ensures Valid() && stack == old(stack)
      ensures Current() == old(Current()) + Tag(number, DELIMITED) + (Varint(|EncodeFields(fields)|) + EncodeFields(fields))
      decreases fields, 1
    {
      hide Valid, Current, EncodeFields;
      ghost var before := Current();
      var bookmark := BeginDelimited(number);
      WriteFields(fields);
      ghost var body := EncodeFields(fields);
      assert Current() == body;
      EndDelimited(bookmark);
      Assoc(before + Tag(number, DELIMITED), Varint(|body|), body);
    }

    lemma FlattenNext(e: nat)
      requires e < |blocks|
      ensures Flatten(blocks[..e + 1]) == Flatten(blocks[..e]) + blocks[e].data
      ensures |Flatten(blocks[..e + 1])| <= |Flatten(blocks)|
    {
      FlattenConcat(blocks[..e + 1], blocks[e + 1..]);
      assert blocks == blocks[..e + 1] + blocks[e + 1..];
      assert blocks[..e + 1][..e] == blocks[..e];
    }

    /** Copies the blocks to the front of an array. */
    method CopyBlocks(a: array<int>) returns (d: nat)
      requires |Flatten(blocks)| <= a.Length
      modifies a
      ensures d == |Flatten(blocks)| && a[..d] == Flatten(blocks)
    {
      d := 0;
      for e := 0 to |blocks|
        invariant 0 <= d <= a.Length && d == |Flatten(blocks[..e])| && a[..d] == Flatten(blocks[..e])
      {
        FlattenNext(e);
        Set(a, d, blocks[e].data);
        d := d + |blocks[e].data|;
      }
      assert blocks[..|blocks|] == blocks;
    }

    /**
      Copies blocks and encoder bytes into one array of `totalLength` plus the encoder's bytes: it
      is filled exactly. The length is not corrected for encoder bytes that now sit in the single
      block left, so the writer can be used on only if the encoder had nothing.
     */
    method GetResultBuffer() returns (result: seq<int>)
      requires Valid() && stack == Bottom
      modifies this, encoder
      ensures result == old(Current())
      ensures totalLength == old(totalLength) && |blocks| == 1 && blocks[0].data == result && encoder.buffer == []
      ensures totalLength == |result| <==> old(encoder.buffer) == []
      ensures stack == Bottom && (Valid() <==> old(encoder.buffer) == []) && Current() == result
    {
      assert blocks == tail;
      var a := new int[totalLength + |encoder.buffer|];
      var d := CopyBlocks(a);
      ghost var front := a[..d];
      var rest := encoder.End();
      Set(a, d, rest);
      d := d + |rest|;
      assert d == a.Length;
      result := a[..];
      assert result == a[..d] == front + rest;
      KeepResult(result);
    }

    /** The result becomes the only block; totalLength is left as it is. */
    method KeepResult(result: seq<int>)
      requires stack == Bottom && encoder.buffer == []
      modifies this
      ensures |blocks| == 1 && fresh(blocks[0]) && blocks[0].data == result
      ensures stack == Bottom && totalLength == old(totalLength)
      ensures Current() == result && (Valid() <==> totalLength == |result|)
    {
      var block := new Block(result);
      blocks, tail := [block], [block];
      assert tail[..0] == [] && Flatten([]) == [];
      assert [] + result + [] == [] + result == result;
      assert StackBlocks(stack) + tail == blocks;
    }
  }

  lemma StackSetIsBlocks(stack: Stack)
    ensures forall b :: b in StackSet(stack) <==> b in StackBlocks(stack)
  {
  }

  /** `Uint8Array.set`; writing past the end would be a range error. */
  method Set(a: array<int>, at: nat, f: seq<int>)
    requires at + |f| <= a.Length
    modifies a
    ensures a[..at + |f|] == old(a[..at]) + f
  {
    for i := 0 to |f|
      invariant a[..at + i] == old(a[..at]) + f[..i]
    {
      a[at + i] := f[i];
      assert f[..i + 1] == f[..i] + [f[i]];
      assert a[..at + i + 1] == a[..at + i] + [f[i]];
    }
    assert f[..|f|] == f;
  }
}
