/**
  Base 128 varints and zigzag numbers (Protocol Buffers Encoding, "Base 128 Varints" and
  "Signed Integers"): the notation itself, apart from the code that reads and writes it.
 */
module Varints {
  import opened Arith
  import opened Results
  import opened UInt64

  type byte = x: int | 0 <= x < 256

  /** Seven bits a byte, the lowest first; the top bit says that more follow. */
  function Varint(n: nat): (s: seq<byte>)
    ensures |s| > 0
  {
    if n < 128 then [n] else [n % 128 + 128] + Varint(n / 128)
  }

  /** The number at the front of s and the bytes it takes; nothing if s ends before it does. */
  function ParseVarint(s: seq<byte>): (r: Option<(nat, nat)>)
    ensures r.Some? ==> 1 <= r.value.1 <= |s|
  {
    if s == [] then None
    else if s[0] < 128 then Some((s[0], 1))
    else match ParseVarint(s[1..]) {
      case None => None
      case Some((v, n)) => Some((s[0] - 128 + 128 * v, n + 1))
    }
  }

  lemma {:induction false} VarintParses(n: nat, rest: seq<byte>)
    ensures ParseVarint(Varint(n) + rest) == Some((n, |Varint(n)|))
  {
    if n >= 128 {
      VarintParses(n / 128, rest);
      assert (Varint(n) + rest)[1..] == Varint(n / 128) + rest;
    }
  }

  function Pow128(k: nat): (p: nat)
    ensures p > 0
  {
    if k == 0 then 1 else 128 * Pow128(k - 1)
  }

  lemma {:induction false} VarintLength(n: nat, k: nat)
    requires k >= 1 && n < Pow128(k)
    ensures |Varint(n)| <= k
  {
    if n >= 128 {
      VarintLength(n / 128, k - 1);
    }
  }

  /** Byte i carries the i-th digit to the base 128, and its top bit says whether more follow. */
  lemma {:induction false} VarintBytes(n: nat, i: nat)
    requires i < |Varint(n)|
    ensures Varint(n)[i] % 128 == n / Pow128(i) % 128 && (Varint(n)[i] >= 128 <==> i + 1 < |Varint(n)|)
  {
    if i > 0 {
      assert Varint(n)[i] == Varint(n / 128)[i - 1];
      VarintBytes(n / 128, i - 1);
      NestedQuotient(n, Pow128(i - 1));
    }
  }

  lemma NestedQuotient(n: nat, p: nat)
    requires p > 0
    ensures n / 128 / p == n / (128 * p)
  {
    var q, r := n / 128 / p, n / 128 % p;
    DivMod(n / 128, p);
    DivMod(n, 128);
    MulAssoc(128, p, q);
    assert n == 128 * p * q + (128 * r + n % 128);
    DivModUnique(n, 128 * p, q, 128 * r + n % 128);
  }

  /** A 32-bit number takes at most 5 bytes, a 64-bit number at most 10. */
  lemma VarintLengths(n: nat)
    ensures n < TWO_TO_32 ==> |Varint(n)| <= 5
    ensures n < TWO_TO_64 ==> |Varint(n)| <= 10
  {
    assert Pow128(5) == 0x8_0000_0000;
    assert Pow128(10) == 0x8_0000_0000 * 0x8_0000_0000 by {
      assert Pow128(10) == 128 * (128 * (128 * (128 * (128 * Pow128(5)))));
    }
    if n < TWO_TO_32 { VarintLength(n, 5); }
    if n < TWO_TO_64 { VarintLength(n, 10); }
  }

  // ---------- reading digit by digit ----------

  /** The number in the low seven bits of the first k bytes. */
  function Digits(s: seq<byte>, k: nat): nat
    requires k <= |s|
  {
    if k == 0 then 0 else Digits(s, k - 1) + s[k - 1] % 128 * Pow128(k - 1)
  }

  ghost predicate Continues(s: seq<byte>, k: nat) {
    k <= |s| && forall i :: 0 <= i < k ==> s[i] >= 128
  }

  lemma {:induction false} DigitsFromFront(s: seq<byte>, k: nat)
    requires 1 <= k <= |s|
    ensures Digits(s, k) == s[0] % 128 + 128 * Digits(s[1..], k - 1)
  {
    if k == 1 {
      assert Digits(s, 0) == 0 && Digits(s[1..], 0) == 0;
    } else {
      DigitsFromFront(s, k - 1);
      var t := s[1..];
      assert t[k - 2] == s[k - 1];
      assert s[k - 1] % 128 * Pow128(k - 1) == 128 * (s[k - 1] % 128 * Pow128(k - 2)) by {
        MulAssoc(s[k - 1] % 128, 128, Pow128(k - 2));
        MulAssoc(128, s[k - 1] % 128, Pow128(k - 2));
      }
    }
  }

  /** After k bytes that all continue, a byte that does not ends the number. */
  lemma {:induction false} ParseEnds(s: seq<byte>, k: nat)
    requires k < |s| && Continues(s, k) && s[k] < 128
    ensures ParseVarint(s) == Some((Digits(s, k + 1), k + 1))
  {
    DigitsFromFront(s, k + 1);
    if k == 0 {
      assert Digits(s[1..], 0) == 0;
    } else {
      ParseEnds(s[1..], k - 1);
    }
  }

  /** After k bytes that all continue, the number is longer, or not there at all when s ends. */
  lemma {:induction false} ParseContinues(s: seq<byte>, k: nat)
    requires Continues(s, k)
    ensures ParseVarint(s).None? || ParseVarint(s).value.1 > k
    ensures k == |s| ==> ParseVarint(s).None?
  {
    if k > 0 {
      ParseContinues(s[1..], k - 1);
    }
  }

  /** Four bytes, the lowest first. */
  function Word(v: uint32): (s: seq<byte>)
    ensures |s| == 4
  {
    [v % 256, v / 256 % 256, v / 0x1_0000 % 256, v / 0x100_0000]
  }

  /** A 300 takes two bytes, the low seven bits first; a word has its lowest byte first. */
  lemma {:induction false} KnownNumbers()
    ensures Varint(1) == [1] && Varint(150) == [150, 1] && Varint(300) == [172, 2] && Word(0x0403_0201) == [1, 2, 3, 4]
  {
    assert Varint(1) == [1] && Varint(2) == [2];
  }

  // ---------- zigzag ----------

  type int32 = x: int | -TWO_TO_31 <= x < TWO_TO_31

  /** The two's complement reading of 32 bits. */
  function ToInt32(x: uint32): int32 {
    if x >= TWO_TO_31 then x - TWO_TO_32 else x
  }

  function ToUint32(n: int): uint32 {
    n % TWO_TO_32
  }

  /** `x ^ m` for the masks m = 0 and m = -1. */
  function XorSign(x: uint32, negative: bool): uint32 {
    if negative then TWO_TO_32 - 1 - x else x
  }

  /** `(n << 1 ^ n >> 31) >>> 0` */
  function EncodeZigzag32(n: int32): (z: uint32)
    ensures z == if n >= 0 then 2 * n else -2 * n - 1
  {
    XorSign(ToUint32(2 * n), n < 0)
  }

  /** `z >>> 1 ^ -(z & 1)` */
  function DecodeZigzag32(z: uint32): (n: int32)
    ensures EncodeZigzag32(n) == z
  {
    ToInt32(XorSign(z / 2, z % 2 == 1))
  }

  lemma Zigzag32RoundTrip(n: int32)
    ensures DecodeZigzag32(EncodeZigzag32(n)) == n
  {
  }

  function XorSign64(x: UInt64, negative: bool): (r: UInt64)
    ensures r.Value() == if negative then TWO_TO_64 - 1 - x.Value() else x.Value()
  {
    UInt64(XorSign(x.lo, negative), XorSign(x.hi, negative))
  }

  /** The two's complement reading of 64 bits. */
  function Signed(x: UInt64): (n: int)
    ensures -TWO_TO_64 / 2 <= n < TWO_TO_64 / 2 && n % TWO_TO_64 == x.Value()
  {
    if x.Msb() then x.Value() - TWO_TO_64 else x.Value()
  }

  /** `toZigzag64` on the halves of a number. */
  function ToZigzag64(x: UInt64): (z: UInt64)
    ensures z.Value() == if Signed(x) >= 0 then 2 * Signed(x) else -2 * Signed(x) - 1
  {
    DivModUnique(x.Value() * 2, TWO_TO_64, if x.Msb() then 1 else 0, x.Value() * 2 - if x.Msb() then TWO_TO_64 else 0);
    XorSign64(x.LeftShift(), x.Msb())
  }

  /** `fromZigzag64` */
  function FromZigzag64(z: UInt64): (x: UInt64)
    ensures Signed(x) == if z.Value() % 2 == 0 then z.Value() / 2 else -(z.Value() / 2) - 1
  {
    XorSign64(z.RightShift(), z.lo % 2 == 1)
  }

  lemma SameValueSameHalves(x: UInt64, y: UInt64)
    requires x.Value() == y.Value()
    ensures x == y
  {
    assert x.lo == x.Value() % TWO_TO_32 && y.lo == y.Value() % TWO_TO_32;
  }

  lemma SameSignedSameHalves(x: UInt64, y: UInt64)
    requires Signed(x) == Signed(y)
    ensures x == y
  {
    SameValueSameHalves(x, y);
  }

  lemma Zigzag64RoundTrips(x: UInt64)
    ensures FromZigzag64(ToZigzag64(x)) == x && ToZigzag64(FromZigzag64(x)) == x
  {
    var n, z := Signed(x), ToZigzag64(x);
    assert z.Value() / 2 == (if n >= 0 then n else -n - 1) && (z.Value() % 2 == 0 <==> n >= 0);
    SameSignedSameHalves(FromZigzag64(z), x);
    var y := FromZigzag64(x);
    assert Signed(y) >= 0 <==> x.Value() % 2 == 0;
    SameValueSameHalves(ToZigzag64(y), x);
  }

  /** `splitUint64`: the halves of a number; what does not fit into 64 bits is cut off. */
  function SplitUint64(n: nat): (r: UInt64)
    ensures n < TWO_TO_64 ==> r.Value() == n
    ensures n == TWO_TO_64 ==> r.Value() == 0
  {
    UInt64(n % TWO_TO_32, n / TWO_TO_32 % TWO_TO_32)
  }

  /** Taking one away, the way `splitZigzag64` does for negative numbers; 0 wraps around. */
  function Decrement(s: UInt64): (r: UInt64)
    ensures r.Value() == if s.Value() == 0 then TWO_TO_64 - 1 else s.Value() - 1
  {
    if s.lo != 0 then UInt64(s.lo - 1, s.hi)
    else if s.hi != 0 then UInt64(TWO_TO_32 - 1, s.hi - 1)
    else UInt64(TWO_TO_32 - 1, TWO_TO_32 - 1)
  }

  /** `splitZigzag64` works on the magnitude, doubled, which for -2^63 no longer fits. */
  function SplitZigzag64(n: int): UInt64 {
    var s := SplitUint64(2 * if n < 0 then -n else n);
    if n < 0 then Decrement(s) else s
  }

  /** Both zigzag routes agree on every 64-bit number. */
  lemma ZigzagRoutesAgree(x: UInt64)
    ensures SplitZigzag64(Signed(x)) == ToZigzag64(x)
  {
    SameValueSameHalves(SplitZigzag64(Signed(x)), ToZigzag64(x));
  }
}
