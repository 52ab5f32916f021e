/**
  Printing 64-bit numbers in three base-10^7 digits (`jspb.utils.join...DecimalString`), against
  plain decimal notation; and the signed printing and parsing of `jspb.arith.Int64`.
 */
module DecimalString {
  import opened Arith
  import opened Decimal
  import opened Results
  import opened UInt64
  import opened Varints

  const TEN_TO_7 := 10_000_000

  /** The text of one base-10^7 digit: nothing for 0, and zeros in front if asked for. */
  function Chunk(x: nat, pad: bool): string {
    var digits := if x != 0 then ToDecimal(x) else "";
    if pad then Zeros(if |digits| <= 7 then 7 - |digits| else 0) + digits else digits
  }

  /** The three base-10^7 digits before carrying; 2^24 is 1|6777216 and 2^48 is 2|8147497|6710656. */
  function RawDigits(lo: uint32, hi: uint32): (r: (nat, nat, nat))
    ensures (r.0 * TEN_TO_7 + r.1) * TEN_TO_7 + r.2 == UInt64(lo, hi).Value()
  {
    var middle := lo / 0x100_0000 + hi % 65536 * 256;
    var top := hi / 65536;
    (top * 2, middle + 8147497 * top, lo % 0x100_0000 + 6777216 * middle + 6710656 * top)
  }

  function Carry(r: (nat, nat, nat)): (s: (nat, nat, nat))
    ensures s.1 < TEN_TO_7 && s.2 < TEN_TO_7
    ensures (s.0 * TEN_TO_7 + s.1) * TEN_TO_7 + s.2 == (r.0 * TEN_TO_7 + r.1) * TEN_TO_7 + r.2
  {
    var (b, d, a) := r;
    var (d', a') := if TEN_TO_7 <= a then (d + a / TEN_TO_7, a % TEN_TO_7) else (d, a);
    var (b', d'') := if TEN_TO_7 <= d' then (b + d' / TEN_TO_7, d' % TEN_TO_7) else (b, d');
    (b', d'', a')
  }

  function JoinUnsigned(lo: uint32, hi: uint32): string {
    if hi <= 2097151 then ToDecimal(hi * TWO_TO_32 + lo)
    else
      var (b, d, a) := Carry(RawDigits(lo, hi));
      Chunk(b, false) + Chunk(d, b != 0) + Chunk(a, true)
  }

  lemma SevenDigits(x: nat)
    requires x < TEN_TO_7
    ensures Chunk(x, true) == Padded(x, 7) && Pow10(7) == TEN_TO_7
  {
    assert Pow10(3) == 1000;
    assert Pow10(7) == 10 * (10 * (10 * (10 * Pow10(3))));
    PaddingIsFixedWidth(x, 7);
  }

  lemma ThreeDigits(b: nat, d: nat, a: nat)
    requires 0 < b && d < TEN_TO_7 && a < TEN_TO_7
    ensures ToDecimal((b * TEN_TO_7 + d) * TEN_TO_7 + a) == Chunk(b, false) + Chunk(d, true) + Chunk(a, true)
  {
    SevenDigits(d);
    SevenDigits(a);
    hide Padded, ToDecimal, Pow10;
    AppendDigits(b, d, 7);
    AppendDigits(b * TEN_TO_7 + d, a, 7);
  }

  /** The three-digit route prints plain decimal notation, for every pair of halves. */
  lemma JoinUnsignedIsDecimal(lo: uint32, hi: uint32)
    ensures JoinUnsigned(lo, hi) == ToDecimal(UInt64(lo, hi).Value())
  {
    if hi > 2097151 {
      var (b, d, a) := Carry(RawDigits(lo, hi));
      // From 2^53 on the number has more than fourteen digits.
      assert b > 0;
      ThreeDigits(b, d, a);
    }
  }

  // ---------- signed numbers ----------

  function SignedDecimal(n: int): string {
    if n < 0 then "-" + ToDecimal(-n) else ToDecimal(n)
  }

  /** Two's complement negation, half by half. */
  function Negate(lo: uint32, hi: uint32): (r: UInt64)
    ensures r.Value() == -UInt64(lo, hi).Value() % TWO_TO_64
  {
    var lo' := (TWO_TO_32 - 1 - lo + 1) % TWO_TO_32;
    var carry := if lo' == 0 then 1 else 0;
    var hi' := (TWO_TO_32 - 1 - hi + carry) % TWO_TO_32;
    NegatedHalves(lo, hi);
    NegatedValue(UInt64(lo, hi), UInt64(lo', hi'));
    UInt64(lo', hi')
  }

  lemma NegatedHalves(lo: uint32, hi: uint32)
    ensures (TWO_TO_32 - 1 - lo + 1) % TWO_TO_32 == if lo == 0 then 0 else TWO_TO_32 - lo
    ensures (TWO_TO_32 - 1 - hi + 1) % TWO_TO_32 == if hi == 0 then 0 else TWO_TO_32 - hi
    ensures (TWO_TO_32 - 1 - hi) % TWO_TO_32 == TWO_TO_32 - 1 - hi
  {
  }

  lemma NegatedValue(x: UInt64, r: UInt64)
    requires r.lo == if x.lo == 0 then 0 else TWO_TO_32 - x.lo
    requires r.hi == if x.lo > 0 then TWO_TO_32 - 1 - x.hi else if x.hi == 0 then 0 else TWO_TO_32 - x.hi
    ensures r.Value() == -x.Value() % TWO_TO_64
  {
    var zero := x.lo == 0 && x.hi == 0;
    assert r.Value() == if zero then 0 else TWO_TO_64 - x.Value();
    DivModUnique(-x.Value(), TWO_TO_64, if zero then 0 else -1, r.Value());
  }

  function JoinSigned(lo: uint32, hi: uint32): string {
    if hi >= TWO_TO_31 then "-" + JoinUnsigned(Negate(lo, hi).lo, Negate(lo, hi).hi)
    else JoinUnsigned(lo, hi)
  }

  lemma NegateMagnitude(v: int)
    requires TWO_TO_64 / 2 <= v < TWO_TO_64
    ensures -v % TWO_TO_64 == TWO_TO_64 - v
  {
    DivModUnique(-v, TWO_TO_64, -1, TWO_TO_64 - v);
  }

  lemma JoinSignedIsDecimal(lo: uint32, hi: uint32)
    ensures JoinSigned(lo, hi) == SignedDecimal(Signed(UInt64(lo, hi)))
  {
    var x := UInt64(lo, hi);
    if x.Msb() {
      var m := Negate(lo, hi);
      NegateMagnitude(x.Value());
      JoinUnsignedIsDecimal(m.lo, m.hi);
    } else {
      JoinUnsignedIsDecimal(lo, hi);
    }
  }

  method Int64ToString(x: UInt64) returns (s: string)
    ensures s == SignedDecimal(Signed(x))
  {
    var negative := x.Msb();
    if negative {
      NegateMagnitude(x.Value());
      var magnitude := UInt64(0, 0).Sub(x);
      s := magnitude.ToString();
      s := "-" + s;
    } else {
      s := x.ToString();
    }
  }

  function Unsigned(n: int): (v: int)
    ensures 0 <= v < TWO_TO_64
  {
    n % TWO_TO_64
  }

  lemma UnsignedNegation(n: int)
    ensures Unsigned(-Unsigned(n)) == Unsigned(-n)
  {
    var q, r := n / TWO_TO_64, n % TWO_TO_64;
    DivMod(-r, TWO_TO_64);
    DivModUnique(-n, TWO_TO_64, -r / TWO_TO_64 - q, -r % TWO_TO_64);
  }

  method Int64FromString(s: string) returns (r: Option<UInt64>)
    ensures r.Some? <==> AllDigits(Magnitude(s))
    ensures r.Some? ==> r.value.Value() == Unsigned(if IsNegative(s) then -(FromDecimal(Magnitude(s)) as int) else FromDecimal(Magnitude(s)))
  {
    r := UInt64.FromString(Magnitude(s));
    if r.Some? && IsNegative(s) {
      UnsignedNegation(FromDecimal(Magnitude(s)));
      r := Some(UInt64(0, 0).Sub(r.value));
    }
  }

  predicate IsNegative(s: string) {
    |s| > 0 && s[0] == '-'
  }

  function Magnitude(s: string): string {
    if IsNegative(s) then s[1..] else s
  }

  lemma SignedTextParts(n: int)
    ensures IsNegative(SignedDecimal(n)) <==> n < 0
    ensures Magnitude(SignedDecimal(n)) == ToDecimal(if n < 0 then -n else n)
    ensures AllDigits(Magnitude(SignedDecimal(n))) && FromDecimal(Magnitude(SignedDecimal(n))) == if n < 0 then -n else n
  {
    DecimalRoundTrip(if n < 0 then -n else n);
  }

  /** Every 64-bit pattern survives being printed as a signed number and read back. */
  method SignedRoundTrip(x: UInt64) returns (y: Option<UInt64>)
    ensures y == Some(x)
  {
    var s := Int64ToString(x);
    SignedTextParts(Signed(x));
    y := Int64FromString(s);
    SameValueSameHalves(x, y.value);
  }
}
