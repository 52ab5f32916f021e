/** `jspb.BinaryEncoder` and `jspb.BinaryDecoder`: scalars to bytes and back. */
module Binary {
  import opened Arith
  import opened Results
  import opened UInt64
  import opened Utf8
  import opened Varints

  class BinaryEncoder {
    var buffer: seq<byte>

    constructor ()
      ensures buffer == []
    {
      buffer := [];
    }

    /** Hands the bytes over and starts again. */
    method End() returns (bytes: seq<byte>)
      modifies this
      ensures bytes == old(buffer) && buffer == []
    {
      bytes := buffer;
      buffer := [];
    }

    method WriteUnsignedVarint32(v: uint32)
      modifies this
      ensures buffer == old(buffer) + Varint(v)
    {
      var a := v;
      while 127 < a
        invariant 0 <= a <= v && buffer + Varint(a) == old(buffer) + Varint(v)
      {
        assert buffer + Varint(a) == buffer + [a % 128 + 128] + Varint(a / 128);
        buffer := buffer + [a % 128 + 128];
        a := a / 128;
      }
      buffer := buffer + [a];
    }

    method WriteSplitVarint64(lo: uint32, hi: uint32)
      modifies this
      ensures buffer == old(buffer) + Varint(UInt64(lo, hi).Value())
    {
      var a, b := lo, hi;
      ghost var v := UInt64(lo, hi).Value();
      while 0 < b || 127 < a
        invariant buffer + Varint(UInt64(a, b).Value()) == old(buffer) + Varint(v)
        decreases UInt64(a, b).Value()
      {
        ghost var x := UInt64(a, b).Value();
        SevenBitsLess(a, b);
        assert buffer + Varint(x) == buffer + [a % 128 + 128] + Varint(x / 128);
        buffer := buffer + [a % 128 + 128];
        a, b := a / 128 + b % 128 * 0x200_0000, b / 128;
      }
      buffer := buffer + [a];
    }

    /** A negative number is written as the 64-bit number with the same low bits: ten bytes. */
    method WriteSignedVarint32(v: int32)
      modifies this
      ensures buffer == old(buffer) + Varint(v % TWO_TO_64)
    {
      if 0 <= v {
        WriteUnsignedVarint32(v);
        return;
      }
      KnownNumbers();
      NinthPower();
      hide Varint, Pow128;
      var a: int := v;
      ghost var w := TWO_TO_64;
      for b := 0 to 9
        invariant w == 2 * Pow128(9 - b) && -w / 2 <= a < 0
        invariant buffer + Varint(a + w) == old(buffer) + Varint(v + TWO_TO_64)
      {
        SignedStep(a, w, 9 - b);
        OneByteMore(buffer, a % 128 + 128, Varint(a / 128 + w / 128));
        buffer := buffer + [a % 128 + 128];
        a := a / 128;
        w := w / 128;
      }
      assert a + w == 1;
      buffer := buffer + [1];
    }

    /** Four bytes, the lowest first. */
    method WriteUint32(v: uint32)
      modifies this
      ensures buffer == old(buffer) + Word(v)
    {
      buffer := buffer + [v % 256];
      buffer := buffer + [v / 256 % 256];
      buffer := buffer + [v / 0x1_0000 % 256];
      buffer := buffer + [v / 0x100_0000];
    }

    /** `writeString` without the length. */
    method WriteString(s: seq<unit>)
      modifies this
      ensures buffer == old(buffer) + Encode(s)
    {
      var c := 0;
      while c < |s|
        invariant 0 <= c <= |s| && buffer + Encode(s[c..]) == old(buffer) + Encode(s)
      {
        ghost var rest := s[c..];
        var d := s[c];
        if d < 128 {
          buffer := buffer + [d];
        } else if d < 2048 {
          buffer := buffer + Two(d);
        } else if High(d) && c + 1 < |s| {
          var e := s[c + 1];
          assert rest[1] == e;
          if Low(e) {
            buffer := buffer + Four(CodePoint(d, e));
            c := c + 1;
          }
        } else {
          buffer := buffer + Three(d);
        }
        c := c + 1;
      }
    }
  }

  /** `lo >>> 7 | hi << 25` and `hi >>> 7` are the halves of the number shifted right by seven bits. */
  lemma SevenBitsLess(lo: uint32, hi: uint32)
    ensures var x := UInt64(lo, hi).Value();
      && lo / 128 + hi % 128 * 0x200_0000 < TWO_TO_32
      && x % 128 == lo % 128
      && UInt64(lo / 128 + hi % 128 * 0x200_0000, hi / 128).Value() == x / 128
  {
    var x := UInt64(lo, hi).Value();
    DivModUnique(x, 128, UInt64(lo / 128 + hi % 128 * 0x200_0000, hi / 128).Value(), lo % 128);
  }

  lemma NinthPower()
    ensures 2 * Pow128(9) == TWO_TO_64 && Pow128(0) == 1
  {
  }

  lemma OneByteMore(buffer: seq<byte>, b: byte, rest: seq<byte>)
    ensures buffer + ([b] + rest) == buffer + [b] + rest
  {
  }

  lemma {:induction false} SignedStep(a: int, w: int, k: nat)
    requires k > 0 && w == 2 * Pow128(k) && -w / 2 <= a < 0
    ensures Varint(a + w) == [a % 128 + 128] + Varint(a / 128 + w / 128)
    ensures w / 128 == 2 * Pow128(k - 1) && -(w / 128) / 2 <= a / 128 < 0
  {
    var p := Pow128(k - 1);
    assert w == 256 * p && p >= 1;
    assert a + w >= 128;
    assert (a + w) % 128 == a % 128 && (a + w) / 128 == a / 128 + w / 128;
  }

  /** What `readUnsignedVarint32` makes of a number of the given length: the long form of negative numbers is signed. */
  function Narrow(v: nat, length: nat): int {
    if length <= 5 then v % TWO_TO_32 else ToInt32(v % TWO_TO_32)
  }

  /** The low 32 bits, taken as unsigned if there are five bytes at most and as signed otherwise. */
  lemma NarrowIsLow32Bits(v: nat, length: nat)
    ensures Narrow(v, length) % 0x1_0000_0000 == v % 0x1_0000_0000
    ensures if length <= 5 then 0 <= Narrow(v, length) < 0x1_0000_0000 else -0x8000_0000 <= Narrow(v, length) < 0x8000_0000
  {
  }

  /** The value `readSplitVarint64` and `readUnsignedVarint32` find at a position, if they find one. */
  function NextVarint(bytes: seq<byte>, cursor: nat): (r: Option<(nat, nat)>)
    ensures r.Some? ==> 1 <= r.value.1 <= 10 && cursor + r.value.1 <= |bytes|
  {
    if cursor > |bytes| then None
    else match ParseVarint(bytes[cursor..]) {
      case Some((v, n)) => if n <= 10 then Some((v, n)) else None
      case None => None
    }
  }

  /** What was written as a varint is found again, whatever follows it, in at most ten bytes. */
  lemma {:induction false} WrittenVarintIsFound(bytes: seq<byte>, cursor: nat, v: nat)
    requires v < TWO_TO_64 && cursor <= |bytes| && Varint(v) <= bytes[cursor..]
    ensures NextVarint(bytes, cursor) == Some((v, |Varint(v)|)) && |Varint(v)| <= 10
  {
    var s := bytes[cursor..];
    assert s == Varint(v) + s[|Varint(v)|..];
    VarintParses(v, s[|Varint(v)|..]);
    VarintLengths(v);
  }

  /** Unsigned numbers come back from their short form, signed ones also from the ten-byte form. */
  lemma {:induction false} NarrowingIsExact(v: uint32, n: int32)
    ensures Narrow(v, |Varint(v)|) == v
    ensures Narrow(n % TWO_TO_64, |Varint(n % TWO_TO_64)|) == n
  {
    VarintLengths(v);
    if n >= 0 {
      VarintLengths(n);
    } else {
      assert n % TWO_TO_64 == n + TWO_TO_64;
      LongVarint(n + TWO_TO_64, 9);
      assert (n + TWO_TO_64) % TWO_TO_32 == n + TWO_TO_32;
    }
  }

  /** A number of 2^63 and more takes ten bytes. */
  lemma {:induction false} LongVarint(n: nat, k: nat)
    requires n >= Pow128(k)
    ensures |Varint(n)| > k
  {
    if k > 0 {
      LongVarint(n / 128, k - 1);
    }
  }

  class BinaryDecoder {
    const bytes: seq<byte>
    var cursor: nat
    var end: nat

    constructor (bytes: seq<byte>)
      ensures this.bytes == bytes && cursor == 0 && end == |bytes|
    {
      this.bytes := bytes;
      cursor, end := 0, |bytes|;
    }

    /** A byte, or nothing where JavaScript reads `undefined`. */
    function At(i: nat): (b: Option<byte>)
      ensures b == if i < |bytes| then Some(bytes[i]) else None
    {
      if i < |bytes| then Some(bytes[i]) else None
    }

    /** What lies ahead of the cursor. */
    ghost function Ahead(): seq<byte>
      reads this
    {
      if cursor <= |bytes| then bytes[cursor..] else []
    }

    /** The first four bytes, or as many as it takes. */
    method ReadLowBits() returns (r: Result<(nat, bool)>)
      modifies this`cursor
      ensures r.Failure? ==> ParseVarint(old(Ahead())).None?
      ensures r.Success? ==>
        && old(cursor) < cursor <= old(cursor) + 4 && (r.value.1 ==> cursor == old(cursor) + 4)
        && Reading(old(Ahead()), cursor - old(cursor), r.value.1)
        && r.value.0 == Digits(old(Ahead()), cursor - old(cursor)) < Pow128(4)
    {
      ghost var s := Ahead();
      var more, c, e := true, 0, 0;
      while e < 4 && more
        invariant 0 <= e <= 4 && cursor == old(cursor) + e && (e == 0 ==> more)
        invariant Reading(s, e, more) && c == Digits(s, e) < Pow128(e) <= Pow128(4)
      {
        var b := At(cursor);
        if b.None? { Stopped(s, e); return Failure; }
        assert b.value == s[e];
        Step(s, e);
        Powers();
        c := c + b.value % 128 * Pow128(e);
        more := b.value >= 128;
        cursor := cursor + 1;
        e := e + 1;
      }
      r := Success((c, more));
    }

    /** The bytes after the fifth, whose bits go to the high half. */
    method ReadHighBits(c: uint32, low: nat, ghost s: seq<byte>) returns (r: Result<uint32>)
      requires Reading(s, 5, true) && low < 8 && c + low * TWO_TO_32 == Digits(s, 5)
      requires Ahead() == s[5..]
      modifies this`cursor
      ensures r.Failure? <==> ParseVarint(s).None? || ParseVarint(s).value.1 > 10
      ensures r.Success? ==>
        && cursor == old(cursor) + ParseVarint(s).value.1 - 5
        && c + r.value * TWO_TO_32 == ParseVarint(s).value.0 % TWO_TO_64
    {
      var more, d, e := true, low, 0;
      while e < 5 && more
        invariant 0 <= e <= 5 && cursor == old(cursor) + e && (e == 0 ==> more)
        invariant Reading(s, 5 + e, more) && 0 <= d < TWO_TO_32 && (e < 5 ==> d < 8 * Pow128(e))
        invariant c + d * TWO_TO_32 == Digits(s, 5 + e) % TWO_TO_64
      {
        var b := At(cursor);
        if b.None? { Stopped(s, 5 + e); return Failure; }
        assert b.value == s[5 + e];
        Step(s, 5 + e);
        HighStep(c, d, Digits(s, 5 + e), b.value, e);
        d := (d + b.value % 128 * (8 * Pow128(e))) % TWO_TO_32;
        more := b.value >= 128;
        cursor := cursor + 1;
        e := e + 1;
      }
      if more { ParseContinues(s, 10); return Failure; }
      ParseEnds(s, 5 + e - 1);
      r := Success(d);
    }

    /**
      Reads up to ten bytes into two halves. Ends in a failed assertion exactly when no varint
      of at most ten bytes starts at the cursor.
     */
    method ReadSplitVarint64() returns (r: Result<UInt64>)
      modifies this`cursor
      ensures var next := NextVarint(bytes, old(cursor));
        && (r.Failure? <==> next.None?)
        && (next.Some? ==> r.value.Value() == next.value.0 % TWO_TO_64 && cursor == old(cursor) + next.value.1)
    {
      ghost var s := Ahead();
      var low := ReadLowBits();
      if low.Failure? { return Failure; }
      var c: int, more := low.value.0, low.value.1;
      if !more {
        ShortEnd(s, cursor - old(cursor));
        return Success(UInt64(c, 0));
      }
      var b := At(cursor);
      if b.None? { Stopped(s, 4); return Failure; }
      assert b.value == s[4];
      FifthByte(s);
      cursor := cursor + 1;
      var fifth: int := b.value;
      c := c + fifth % 16 * 0x1000_0000;
      var d := fifth % 128 / 16;
      if fifth < 128 {
        ShortEnd(s, 5);
        return Success(UInt64(c, d));
      }
      assert Ahead() == s[5..];
      var high := ReadHighBits(c, d, s);
      if high.Failure? { return Failure; }
      r := Success(UInt64(c, high.value));
    }

    /**
      Reads a 32-bit number from its first five bytes and skips the five more that a negative
      number has. Fails exactly when no varint of at most ten bytes ends within `end`.
     */
    method ReadUnsignedVarint32() returns (r: Result<int>)
      requires end <= |bytes|
      modifies this`cursor
      ensures var next := NextVarint(bytes, old(cursor));
        && (r.Failure? <==> next.None? || old(cursor) + next.value.1 > end)
        && (r.Success? ==> r.value == Narrow(next.value.0, next.value.1) && cursor == old(cursor) + next.value.1)
    {
      hide Digits, ParseVarint, Pow128, Continues;
      ghost var s := Ahead();
      var low := ReadLowBits();
      if low.Failure? { return Failure; }
      var c: int, more := low.value.0, low.value.1;
      if !more {
        ShortEnd(s, cursor - old(cursor));
        if cursor > end { return Failure; }
        return Success(c);
      }
      var b := At(cursor);
      if b.None? { Stopped(s, 4); return Failure; }
      assert b.value == s[4];
      FifthByte(s);
      cursor := cursor + 1;
      var fifth: int := b.value;
      c := c + fifth % 16 * 0x1000_0000;
      if fifth < 128 {
        ShortEnd(s, 5);
        if cursor > end { return Failure; }
        return Success(c);
      }
      more := true;
      var e := 5;
      while e < 10 && more
        invariant 5 <= e <= 10 && cursor == old(cursor) + e && (e == 5 ==> more)
        invariant Reading(s, e, more) && c == Digits(s, e) % TWO_TO_32
      {
        b := At(cursor);
        if b.None? { Stopped(s, e); return Failure; }
        assert b.value == s[e];
        Step(s, e);
        BeyondLowBits(Digits(s, e), b.value, e);
        more := b.value >= 128;
        cursor := cursor + 1;
        e := e + 1;
      }
      if more { ParseContinues(s, 10); return Failure; }
      ParseEnds(s, e - 1);
      if cursor > end { return Failure; }
      r := Success(ToInt32(c));
    }

    /** Four bytes, the lowest first. */
    method ReadUint32() returns (r: Result<uint32>)
      requires end <= |bytes|
      modifies this`cursor
      ensures r.Failure? <==> old(cursor) + 4 > end
      ensures r.Success? ==> cursor == old(cursor) + 4 && Word(r.value) == bytes[old(cursor)..cursor]
    {
      if cursor + 4 > end { return Failure; }
      var a: int, b: int, c: int, d: int := bytes[cursor], bytes[cursor + 1], bytes[cursor + 2], bytes[cursor + 3];
      cursor := cursor + 4;
      WordParts(a, b, c, d);
      r := Success(a + 256 * b + 0x1_0000 * c + 0x100_0000 * d);
    }

    method ReadBytes(length: int) returns (r: Result<seq<byte>>)
      requires end <= |bytes|
      modifies this`cursor
      ensures r.Failure? <==> length < 0 || old(cursor) + length > end
      ensures r.Success? ==> cursor == old(cursor) + length && r.value == bytes[old(cursor)..cursor]
    {
      if 0 > length || cursor + length > |bytes| { return Failure; }
      var b := bytes[cursor..cursor + length];
      cursor := cursor + length;
      if cursor > end { return Failure; }
      r := Success(b);
    }

    /** A string of the given number of bytes; the cursor ends where reading did. */
    method ReadString(length: nat) returns (s: seq<unit>)
      modifies this`cursor
      ensures (s, cursor) == Decode(bytes, old(cursor), old(cursor) + length)
    {
      hide Character, SixBits, Decode;
      var c, limit := cursor, cursor + length;
      s := [];
      ghost var all := Decode(bytes, c, limit);
      assert [] + all.0 == all.0;
      while c < limit
        invariant Prepend(s, Decode(bytes, c, limit)) == Decode(bytes, old(cursor), limit)
        decreases limit - c
      {
        var first := if c < |bytes| then bytes[c] else 255;
        var units := Character(first, SixBits(bytes, c + 1), SixBits(bytes, c + 2), SixBits(bytes, c + 3));
        DecodeStep(bytes, c, limit, s);
        s := s + units;
        c := c + Width(first);
      }
      DecodeEnd(bytes, c, limit);
      assert s + [] == s;
      cursor := c;
    }
  }

  /** k bytes have been read; all but perhaps the last continue, the last if `more` says so. */
  ghost predicate Reading(s: seq<byte>, k: nat, more: bool) {
    k <= |s| && (if more then Continues(s, k) else k > 0 && Continues(s, k - 1) && s[k - 1] < 128)
  }

  lemma {:induction false} Stopped(s: seq<byte>, k: nat)
    requires Reading(s, k, true) && k == |s|
    ensures ParseVarint(s).None?
  {
    ParseContinues(s, k);
  }

  lemma {:induction false} Step(s: seq<byte>, k: nat)
    requires Reading(s, k, true) && k < |s|
    ensures Reading(s, k + 1, s[k] >= 128)
    ensures Digits(s, k + 1) == Digits(s, k) + s[k] % 128 * Pow128(k)
    ensures 0 <= s[k] % 128 * Pow128(k) <= 127 * Pow128(k)
  {
    MulLe(s[k] % 128, 127, Pow128(k));
  }

  /** A number of up to five bytes fits into 64 bits, one of up to four into 32. */
  lemma {:induction false} ShortEnd(s: seq<byte>, k: nat)
    requires 1 <= k <= 5 && Reading(s, k, false)
    ensures ParseVarint(s) == Some((Digits(s, k), k))
    ensures Digits(s, k) < TWO_TO_64 && Digits(s, k) % TWO_TO_64 == Digits(s, k)
    ensures k <= 4 ==> Digits(s, k) % TWO_TO_32 == Digits(s, k)
  {
    ParseEnds(s, k - 1);
    Powers();
    assert Pow128(5) == 0x8_0000_0000;
    DigitsBound(s, k);
  }

  lemma {:induction false} DigitsBound(s: seq<byte>, k: nat)
    requires k <= |s|
    ensures Digits(s, k) < Pow128(k)
  {
    if k > 0 {
      DigitsBound(s, k - 1);
      MulLe(s[k - 1] % 128, 127, Pow128(k - 1));
    }
  }

  /** Four bits of the fifth byte complete the low half, three begin the high half. */
  lemma {:induction false} FifthByte(s: seq<byte>)
    requires Reading(s, 4, true) && |s| > 4
    ensures Reading(s, 5, s[4] >= 128)
    ensures var b: int := s[4];
      var c, d := Digits(s, 4) + b % 16 * 0x1000_0000, b % 128 / 16;
      && 0 <= c < TWO_TO_32 && 0 <= d < 8
      && c + d * TWO_TO_32 == Digits(s, 5) && c == Digits(s, 5) % TWO_TO_32
      && Digits(s, 5) % TWO_TO_64 == Digits(s, 5)
  {
    Powers();
    Step(s, 4);
    DigitsBound(s, 4);
    FifthByteParts(Digits(s, 4), s[4], Digits(s, 5));
  }

  lemma FifthByteParts(low: nat, b: int, all: nat)
    requires low < 0x1000_0000 && 0 <= b < 256 && all == low + b % 128 * 0x1000_0000
    ensures var c, d := low + b % 16 * 0x1000_0000, b % 128 / 16;
      && 0 <= c < TWO_TO_32 && 0 <= d < 8
      && c + d * TWO_TO_32 == all && c == all % TWO_TO_32 && all % TWO_TO_64 == all
  {
    assert b % 128 == b % 16 + 16 * (b % 128 / 16);
  }

  lemma Powers()
    ensures Pow128(4) == 0x1000_0000 && Pow128(3) == 0x20_0000 && Pow128(2) == 0x4000 && Pow128(1) == 128 && Pow128(0) == 1
  {
  }

  lemma {:induction false} HighStep(c: int, d: int, before: nat, b: byte, e: nat)
    requires 0 <= c < TWO_TO_32 && 0 <= d < 8 * Pow128(e) && e < 5
    requires c + d * TWO_TO_32 == before % TWO_TO_64
    ensures var d' := (d + b % 128 * (8 * Pow128(e))) % TWO_TO_32;
      && 0 <= d' < TWO_TO_32 && (e < 4 ==> d' < 8 * Pow128(e + 1))
      && c + d' * TWO_TO_32 == (before + b % 128 * Pow128(5 + e)) % TWO_TO_64
  {
    var t := b % 128 * (8 * Pow128(e));
    FifthPower(e);
    assert b % 128 * Pow128(5 + e) == t * TWO_TO_32 by {
      MulAssoc(b % 128, 8 * Pow128(e), TWO_TO_32);
    }
    DivMod(before, TWO_TO_64);
    DivMod(d + t, TWO_TO_32);
    var d' := (d + t) % TWO_TO_32;
    DivModUnique(before + t * TWO_TO_32, TWO_TO_64, before / TWO_TO_64 + (d + t) / TWO_TO_32, c + d' * TWO_TO_32);
    MulLe(b % 128, 127, 8 * Pow128(e));
    assert 0 <= t <= 127 * (8 * Pow128(e));
  }

  /** From the sixth byte on nothing reaches the low 32 bits. */
  lemma {:induction false} BeyondLowBits(before: nat, b: byte, e: nat)
    requires 5 <= e < 10
    ensures (before + b % 128 * Pow128(e)) % TWO_TO_32 == before % TWO_TO_32
  {
    FifthPower(e - 5);
    var t := b % 128 * (8 * Pow128(e - 5));
    assert b % 128 * Pow128(e) == t * TWO_TO_32 by {
      MulAssoc(b % 128, 8 * Pow128(e - 5), TWO_TO_32);
    }
    DivMod(before, TWO_TO_32);
    DivModUnique(before + t * TWO_TO_32, TWO_TO_32, before / TWO_TO_32 + t, before % TWO_TO_32);
  }

  lemma WordParts(a: int, b: int, c: int, d: int)
    requires 0 <= a < 256 && 0 <= b < 256 && 0 <= c < 256 && 0 <= d < 256
    ensures var v := a + 256 * b + 0x1_0000 * c + 0x100_0000 * d;
      0 <= v < TWO_TO_32 && Word(v) == [a, b, c, d]
  {
    var v := a + 256 * b + 0x1_0000 * c + 0x100_0000 * d;
    DivModUnique(v, 0x100_0000, d, a + 256 * b + 0x1_0000 * c);
    DivModUnique(v, 0x1_0000, c + 256 * d, a + 256 * b);
    DivModUnique(v, 256, b + 256 * c + 0x1_0000 * d, a);
    DivModUnique(v / 256, 256, c + 256 * d, b);
    DivModUnique(v / 0x1_0000, 256, d, c);
  }

  lemma {:induction false} FifthPower(e: nat)
    requires e < 5
    ensures Pow128(5 + e) == 8 * Pow128(e) * TWO_TO_32
    ensures e < 4 ==> 128 * (8 * Pow128(e)) == 8 * Pow128(e + 1) <= TWO_TO_32
  {
    Powers();
    assert Pow128(5) == 0x8_0000_0000;
    assert e == 0 || e == 1 || e == 2 || e == 3 || e == 4;
    assert Pow128(6) == 128 * Pow128(5) && Pow128(7) == 128 * Pow128(6) && Pow128(8) == 128 * Pow128(7) && Pow128(9) == 128 * Pow128(8);
  }
}
