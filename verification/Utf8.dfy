/**
  Strings on the wire: UTF-16 code units written as UTF-8 (section 3 of RFC 3629) and read back,
  with what the code does for surrogates that are not paired.
 */
module Utf8 {
  import opened Varints

  type unit = x: int | 0 <= x < 0x1_0000

  predicate High(u: unit) {
    0xD800 <= u <= 0xDBFF
  }

  predicate Low(u: unit) {
    0xDC00 <= u <= 0xDFFF
  }

  /** Two bytes, three bytes, four bytes; leading bits and six payload bits in each following byte. */
  function Two(d: unit): seq<byte>
    requires d < 2048
  {
    [192 + d / 64, 128 + d % 64]
  }

  function Three(d: unit): seq<byte> {
    [224 + d / 4096, 128 + d / 64 % 64, 128 + d % 64]
  }

  function Four(d: int): seq<byte>
    requires 0x1_0000 <= d < 0x11_0000
  {
    [240 + d / 0x4_0000, 128 + d / 4096 % 64, 128 + d / 64 % 64, 128 + d % 64]
  }

  function CodePoint(high: unit, low: unit): (d: int)
    requires High(high) && Low(low)
    ensures 0x1_0000 <= d < 0x11_0000
  {
    1024 * (high - 0xD800) + low - 0xDC00 + 0x1_0000
  }

  /** A high surrogate before anything but a low one is dropped; at the very end it takes three bytes. */
  function Encode(s: seq<unit>): seq<byte> {
    if s == [] then []
    else if s[0] < 128 then [s[0]] + Encode(s[1..])
    else if s[0] < 2048 then Two(s[0]) + Encode(s[1..])
    else if High(s[0]) && |s| > 1 then
      if Low(s[1]) then Four(CodePoint(s[0], s[1])) + Encode(s[2..]) else Encode(s[1..])
    else Three(s[0]) + Encode(s[1..])
  }

  /** The table of section 3 of RFC 3629, for a unit that is not a surrogate and for a pair of surrogates. */
  lemma {:induction false} EncodedUnit(d: unit)
    requires d < 0xD800 || d > 0xDFFF
    ensures Encode([d]) ==
      if d < 0x80 then [d]
      else if d < 0x800 then [0xC0 + d / 0x40, 0x80 + d % 0x40]
      else [0xE0 + d / 0x1000, 0x80 + d / 0x40 % 0x40, 0x80 + d % 0x40]
  {
    assert [d][1..] == [] && Encode([]) == [];
  }

  lemma {:induction false} EncodedPair(high: unit, low: unit, d: int)
    requires 0xD800 <= high <= 0xDBFF && 0xDC00 <= low <= 0xDFFF && d == 0x10000 + (high - 0xD800) * 0x400 + (low - 0xDC00)
    ensures Encode([high, low]) == [0xF0 + d / 0x40000, 0x80 + d / 0x1000 % 0x40, 0x80 + d / 0x40 % 0x40, 0x80 + d % 0x40]
  {
    assert [high, low][2..] == [] && Encode([]) == [];
  }

  /** Strings are encoded unit by unit where no surrogate is involved. */
  lemma {:induction false} EncodedInFront(d: unit, s: seq<unit>)
    requires d < 0xD800 || d > 0xDFFF
    ensures Encode([d] + s) == Encode([d]) + Encode(s)
  {
    assert ([d] + s)[1..] == s && [d][1..] == [];
  }

  /** Payload of a following byte; reading past the buffer gives no bits. */
  function SixBits(b: seq<byte>, i: nat): (p: int)
    ensures 0 <= p < 64
  {
    if i < |b| then b[i] % 64 else 0
  }

  /** How many bytes a character with this first byte is taken to have. */
  function Width(first: byte): nat {
    if first < 192 then 1 else if first < 224 then 2 else if first < 240 then 3 else if first < 248 then 4 else 1
  }

  /** The units of one character; stray following bytes and bytes from 248 on give none. */
  function Character(first: byte, p: int, q: int, r: int): seq<unit>
    requires 0 <= p < 64 && 0 <= q < 64 && 0 <= r < 64
  {
    if first < 128 then [first]
    else if first < 192 then []
    else if first < 224 then [first % 32 * 64 + p]
    else if first < 240 then [first % 16 * 4096 + p * 64 + q]
    else if first < 248 then
      var d := first % 8 * 0x4_0000 + p * 4096 + q * 64 + r - 0x1_0000;
      [d / 1024 % 1024 + 0xD800, d % 1024 + 0xDC00]
    else []
  }

  /** The units of the characters that start before `limit`, and where reading stops. */
  function Decode(b: seq<byte>, c: nat, limit: nat): (r: (seq<unit>, nat))
    decreases limit - c
  {
    if c >= limit then ([], c)
    else
      var first := if c < |b| then b[c] else 255;
      Prepend(Character(first, SixBits(b, c + 1), SixBits(b, c + 2), SixBits(b, c + 3)),
              Decode(b, c + Width(first), limit))
  }

  lemma {:induction false} DecodeStep(b: seq<byte>, c: nat, limit: nat, s: seq<unit>)
    requires c < limit
    ensures var first := if c < |b| then b[c] else 255;
      var units := Character(first, SixBits(b, c + 1), SixBits(b, c + 2), SixBits(b, c + 3));
      Prepend(s, Decode(b, c, limit)) == Prepend(s + units, Decode(b, c + Width(first), limit)) && Width(first) > 0
  {
    hide Character, SixBits;
    var first := if c < |b| then b[c] else 255;
    var units := Character(first, SixBits(b, c + 1), SixBits(b, c + 2), SixBits(b, c + 3));
    var rest := Decode(b, c + Width(first), limit);
    assert s + (units + rest.0) == (s + units) + rest.0;
  }

  /**
    What the reader makes of any bytes, well-formed or not: a following byte that stands alone and a first byte
    from 248 on are passed over, and nothing is asked of the bytes that follow a first byte.
   */
  lemma {:induction false} DecodedCharacter(b: seq<byte>, c: nat, limit: nat, f: int, p: int, q: int, r: int)
    requires c < limit && c + 3 < |b|
    requires f == b[c] as int && p == (b[c + 1] as int) % 64 && q == (b[c + 2] as int) % 64 && r == (b[c + 3] as int) % 64
    ensures 128 <= f < 192 || f >= 248 ==> Decode(b, c, limit) == Decode(b, c + 1, limit)
    ensures f < 128 ==> Decode(b, c, limit) == ([f] + Decode(b, c + 1, limit).0, Decode(b, c + 1, limit).1)
    ensures 192 <= f < 224 ==>
      Decode(b, c, limit) == ([(f - 192) * 64 + p] + Decode(b, c + 2, limit).0, Decode(b, c + 2, limit).1)
    ensures 224 <= f < 240 ==>
      Decode(b, c, limit) == ([(f - 224) * 4096 + p * 64 + q] + Decode(b, c + 3, limit).0, Decode(b, c + 3, limit).1)
    ensures 240 <= f < 248 ==>
      var d := (f - 240) * 0x4_0000 + p * 4096 + q * 64 + r - 0x1_0000;
      Decode(b, c, limit)
        == ([d / 1024 % 1024 + 0xD800, d % 1024 + 0xDC00] + Decode(b, c + 4, limit).0, Decode(b, c + 4, limit).1)
  {
    var rest := Decode(b, c + 1, limit).0;
    assert [] + rest == rest;
  }

  lemma {:induction false} DecodeEnd(b: seq<byte>, c: nat, limit: nat)
    requires c >= limit
    ensures Decode(b, c, limit) == ([], c)
  {
  }

  function Prepend(s: seq<unit>, r: (seq<unit>, nat)): (seq<unit>, nat) {
    (s + r.0, r.1)
  }

  /** The string without the high surrogates that are followed by something other than a low one. */
  function Kept(s: seq<unit>): (k: seq<unit>)
    ensures |k| <= |s|
  {
    if s == [] then []
    else if High(s[0]) && |s| > 1 && !Low(s[1]) then Kept(s[1..])
    else [s[0]] + Kept(s[1..])
  }

  /** What the bytes of a character start with decides how many there are; together they carry its units. */
  ghost predicate Carries(head: seq<byte>, units: seq<unit>) {
    && 1 <= |head| <= 4 && |head| == Width(head[0])
    && units == Character(head[0], SixBits(head, 1), SixBits(head, 2), SixBits(head, 3))
  }

  lemma OneByte(d: unit)
    requires d < 128
    ensures Carries([d], [d])
  {
  }

  lemma TwoBytes(d: unit)
    requires 128 <= d < 2048
    ensures Carries(Two(d), [d])
  {
    assert d / 64 * 64 + d % 64 == d;
  }

  lemma ThreeBytes(d: unit)
    requires 2048 <= d
    ensures Carries(Three(d), [d])
  {
    Sixes(d);
    Payloads(d);
    ThreeParts(Three(d), d / 4096, d / 64 % 64, d % 64);
  }

  lemma Sixes(d: int)
    requires 0 <= d < 0x20_0000
    ensures d / 4096 * 4096 + d / 64 % 64 * 64 + d % 64 == d
    ensures d / 0x4_0000 * 0x4_0000 + d / 4096 % 64 * 4096 == d / 4096 * 4096
  {
    assert d / 64 / 64 == d / 4096;
    assert d / 4096 / 64 == d / 0x4_0000;
  }

  lemma Payloads(d: int)
    requires 0 <= d < 0x11_0000
    ensures 0 <= d / 0x4_0000 <= 4 && 0 <= d / 4096 % 64 < 64 && 0 <= d / 64 % 64 < 64 && 0 <= d % 64 < 64
    ensures d < 0x1_0000 ==> 0 <= d / 4096 < 16
  {
  }

  lemma ThreeParts(s: seq<byte>, a: int, p: int, q: int)
    requires 0 <= a < 16 && 0 <= p < 64 && 0 <= q < 64 && s == [224 + a, 128 + p, 128 + q]
    ensures Carries(s, [a * 4096 + p * 64 + q])
  {
    assert s[0] % 16 == a && s[1] % 64 == p && s[2] % 64 == q;
  }

  lemma FourParts(s: seq<byte>, a: int, p: int, q: int, r: int)
    requires 0 <= a <= 4 && 0 <= p < 64 && 0 <= q < 64 && 0 <= r < 64 && s == [240 + a, 128 + p, 128 + q, 128 + r]
    ensures var d := a * 0x4_0000 + p * 4096 + q * 64 + r - 0x1_0000;
      Carries(s, [d / 1024 % 1024 + 0xD800, d % 1024 + 0xDC00])
  {
    assert s[0] % 8 == a && s[1] % 64 == p && s[2] % 64 == q && s[3] % 64 == r;
  }

  lemma FourBytes(high: unit, low: unit)
    requires High(high) && Low(low)
    ensures Carries(Four(CodePoint(high, low)), [high, low])
  {
    var d := CodePoint(high, low);
    var a, p, q, r := d / 0x4_0000, d / 4096 % 64, d / 64 % 64, d % 64;
    Sixes(d);
    Payloads(d);
    FourParts(Four(d), a, p, q, r);
    var e := d - 0x1_0000;
    assert e == a * 0x4_0000 + p * 4096 + q * 64 + r - 0x1_0000;
    Halves(e, high - 0xD800, low - 0xDC00);
  }

  lemma Halves(e: int, h: int, l: int)
    requires e == 1024 * h + l && 0 <= h < 1024 && 0 <= l < 1024
    ensures e / 1024 % 1024 == h && e % 1024 == l
  {
  }

  /** The bytes of the first character of s. */
  function Head(s: seq<unit>): (head: seq<byte>)
    requires s != [] && (High(s[0]) && |s| > 1 ==> Low(s[1]))
    ensures Encode(s) == head + Encode(s[HeadUnits(s)..])
  {
    if s[0] < 128 then [s[0]] else if s[0] < 2048 then Two(s[0])
    else if High(s[0]) && |s| > 1 then Four(CodePoint(s[0], s[1])) else Three(s[0])
  }

  function HeadUnits(s: seq<unit>): (n: nat)
    requires s != []
    ensures 1 <= n <= |s|
  {
    if High(s[0]) && |s| > 1 then 2 else 1
  }

  lemma HeadCarries(s: seq<unit>)
    requires s != [] && (High(s[0]) && |s| > 1 ==> Low(s[1]))
    ensures Carries(Head(s), s[..HeadUnits(s)])
  {
    if s[0] < 128 {
      OneByte(s[0]);
    } else if s[0] < 2048 {
      TwoBytes(s[0]);
    } else if High(s[0]) && |s| > 1 {
      FourBytes(s[0], s[1]);
      assert s[..2] == [s[0], s[1]];
    } else {
      ThreeBytes(s[0]);
    }
  }

  lemma {:induction false} KeptHead(s: seq<unit>)
    requires s != [] && (High(s[0]) && |s| > 1 ==> Low(s[1]))
    ensures Kept(s) == s[..HeadUnits(s)] + Kept(s[HeadUnits(s)..])
  {
    assert s[..1] == [s[0]];
    if HeadUnits(s) == 2 {
      KeptPair(s);
    }
  }

  lemma {:induction false} KeptPair(s: seq<unit>)
    requires |s| > 1 && High(s[0]) && Low(s[1])
    ensures Kept(s) == s[..2] + Kept(s[2..])
  {
    var t := s[1..];
    assert t[0] == s[1] && t[1..] == s[2..];
    assert Kept(t) == [t[0]] + Kept(t[1..]);
    assert Kept(s) == [s[0]] + Kept(t);
    assert s[..2] == [s[0]] + [s[1]];
  }

  /** Reading a character whose bytes are all there. */
  lemma DecodeHead(b: seq<byte>, c: nat, limit: nat, head: seq<byte>, units: seq<unit>)
    requires c < limit && Carries(head, units) && c + |head| <= |b|
    requires forall i :: 0 <= i < |head| ==> b[c + i] == head[i]
    ensures Decode(b, c, limit) == Prepend(units, Decode(b, c + |head|, limit))
  {
    assert b[c + 0] == head[0];
    assert Character(b[c], SixBits(b, c + 1), SixBits(b, c + 2), SixBits(b, c + 3)) == units;
  }

  /** For every string: reading back what was written gives exactly the kept units. */
  lemma {:induction false} DecodeEncode(b: seq<byte>, c: nat, limit: nat, s: seq<unit>)
    requires c <= limit <= |b| && b[c..limit] == Encode(s)
    ensures Decode(b, c, limit) == (Kept(s), limit)
    decreases |s|
  {
    if s == [] {
    } else if High(s[0]) && |s| > 1 && !Low(s[1]) {
      DecodeEncode(b, c, limit, s[1..]);
    } else {
      var n, head := HeadUnits(s), Head(s);
      HeadCarries(s);
      Split(b, c, limit, head, Encode(s[n..]));
      DecodeHead(b, c, limit, head, s[..n]);
      DecodeEncode(b, c + |head|, limit, s[n..]);
      KeptHead(s);
    }
  }

  lemma Split(b: seq<byte>, c: nat, limit: nat, head: seq<byte>, tail: seq<byte>)
    requires c <= limit <= |b| && b[c..limit] == head + tail
    ensures forall i :: 0 <= i < |head| ==> b[c + i] == head[i]
    ensures c + |head| <= limit && b[c + |head|..limit] == tail
  {
    assert forall i :: 0 <= i < |head| ==> b[c..limit][i] == head[i];
    assert b[c + |head|..limit] == b[c..limit][|head|..];
  }

  /** Every high surrogate but a final one is followed by a low surrogate. */
  ghost predicate Paired(s: seq<unit>) {
    forall i :: 0 <= i < |s| - 1 && High(s[i]) ==> Low(s[i + 1])
  }

  lemma PairedFromFront(s: seq<unit>)
    requires |s| > 0
    ensures Paired(s) <==> (|s| > 1 && High(s[0]) ==> Low(s[1])) && Paired(s[1..])
  {
    var t := s[1..];
    if Paired(s) {
      forall i | 0 <= i < |t| - 1 && High(t[i])
        ensures Low(t[i + 1])
      {
        assert High(s[i + 1]);
      }
    }
    if (|s| > 1 && High(s[0]) ==> Low(s[1])) && Paired(t) {
      forall i | 0 <= i < |s| - 1 && High(s[i])
        ensures Low(s[i + 1])
      {
        assert i > 0 ==> High(t[i - 1]) && t[i] == s[i + 1];
      }
    }
  }

  lemma {:induction false} KeptIffPaired(s: seq<unit>)
    ensures Kept(s) == s <==> Paired(s)
  {
    if |s| > 0 {
      KeptIffPaired(s[1..]);
      PairedFromFront(s);
      assert s == [s[0]] + s[1..];
    }
  }

  /** A string survives the wire exactly when its surrogates are paired, a final high one aside. */
  lemma StringSurvivesIffPaired(s: seq<unit>)
    ensures Decode(Encode(s), 0, |Encode(s)|) == (s, |Encode(s)|) <==> Paired(s)
  {
    var b := Encode(s);
    assert b[0..|b|] == b;
    DecodeEncode(b, 0, |b|, s);
    KeptIffPaired(s);
  }
}
