/**
  64-bit arithmetic on two 32-bit halves, as JavaScript code without 64-bit integers has to do
  it (`jspb.arith`). The bit operators of the source are written arithmetically: `& (2^k - 1)` is
  a remainder, `>>> k` a quotient, `x >>> 0` reduces modulo 2^32, and `|` joins disjoint bits.
 */
module UInt64 {
  import opened Arith
  import opened Decimal
  import opened Results

  const TWO_TO_31 := 0x8000_0000
  const TWO_TO_32 := 0x1_0000_0000
  const TWO_TO_64 := 0x1_0000_0000_0000_0000

  type uint32 = x: int | 0 <= x < TWO_TO_32

  datatype UInt64 = UInt64(lo: uint32, hi: uint32) {

    function Value(): (v: int)
      ensures 0 <= v < TWO_TO_64
    {
      hi * TWO_TO_32 + lo
    }

    function Cmp(a: UInt64): (c: int)
      ensures c == if Value() < a.Value() then -1 else if Value() == a.Value() then 0 else 1
    {
      if hi < a.hi || (hi == a.hi && lo < a.lo) then -1
      else if hi == a.hi && lo == a.lo then 0 else 1
    }

    function RightShift(): (r: UInt64)
      ensures r.Value() == Value() / 2
    {
      UInt64(lo / 2 + hi % 2 * TWO_TO_31, hi / 2)
    }

    function LeftShift(): (r: UInt64)
      ensures r.Value() == Value() * 2 % TWO_TO_64
    {
      var r := UInt64(lo * 2 % TWO_TO_32, hi % TWO_TO_31 * 2 + lo / TWO_TO_31);
      DivModUnique(Value() * 2, TWO_TO_64, hi / TWO_TO_31, r.Value());
      r
    }

    predicate Msb()
      ensures Msb() <==> Value() >= TWO_TO_64 / 2
    {
      hi >= TWO_TO_31
    }

    predicate Zero()
      ensures Zero() <==> Value() == 0
    {
      lo == 0 && hi == 0
    }

    function Add(a: UInt64): (r: UInt64)
      ensures r.Value() == (Value() + a.Value()) % TWO_TO_64
    {
      var carry := if TWO_TO_32 <= lo + a.lo then 1 else 0;
      var r := UInt64((lo + a.lo) % TWO_TO_32, ((hi + a.hi) % TWO_TO_32 + carry) % TWO_TO_32);
      assert r.lo == lo + a.lo - carry * TWO_TO_32;
      var over := if TWO_TO_32 <= hi + a.hi + carry then 1 else 0;
      assert r.hi == hi + a.hi + carry - over * TWO_TO_32;
      DivModUnique(Value() + a.Value(), TWO_TO_64, over, r.Value());
      r
    }

    function Sub(a: UInt64): (r: UInt64)
      ensures r.Value() == (Value() - a.Value()) % TWO_TO_64
    {
      var borrow := if 0 > lo - a.lo then 1 else 0;
      var r := UInt64((lo - a.lo) % TWO_TO_32, ((hi - a.hi) % TWO_TO_32 - borrow) % TWO_TO_32);
      assert r.lo == lo - a.lo + borrow * TWO_TO_32;
      var under := if 0 > hi - a.hi - borrow then 1 else 0;
      assert r.hi == hi - a.hi - borrow + under * TWO_TO_32;
      DivModUnique(Value() - a.Value(), TWO_TO_64, -under, r.Value());
      r
    }

    /** The product with a 32-bit number, modulo 2^64. */
    method Mul(a: uint32) returns (r: UInt64)
      ensures r.Value() == Value() * a % TWO_TO_64
    {
      var low := Mul32x32(lo, a);
      var high := Mul32x32(hi, a);
      r := low.Add(UInt64(0, high.lo));
      var shifted := high.lo * TWO_TO_32;
      assert Value() * a == low.Value() + shifted + TWO_TO_64 * high.hi by {
        assert Value() * a == hi * a * TWO_TO_32 + lo * a by { MulDistAdd(hi * TWO_TO_32, lo, a); MulSwap(hi, TWO_TO_32, a); }
        assert hi * a * TWO_TO_32 == shifted + TWO_TO_64 * high.hi;
      }
      DivMod(low.Value() + shifted, TWO_TO_64);
      var carry := (low.Value() + shifted) / TWO_TO_64;
      DivModUnique(Value() * a, TWO_TO_64, carry + high.hi, (low.Value() + shifted) % TWO_TO_64);
    }

    /** Quotient and remainder by shift and subtract; nothing for a zero divisor. */
    method Div(divisor: uint32) returns (r: Option<(UInt64, UInt64)>)
      ensures r.None? <==> divisor == 0
      ensures r.Some? ==>
        && Value() == r.value.0.Value() * divisor + r.value.1.Value()
        && r.value.1.Value() < divisor
    {
      if divisor == 0 {
        return None;
      }
      var b := UInt64(0, 0);
      var c := UInt64(lo, hi);
      var a := UInt64(divisor, 0);
      var d := UInt64(1, 0);
      ghost var k := 0;
      while !a.Msb()
        invariant Aligned(divisor, a, d, k)
        decreases TWO_TO_64 - a.Value()
      {
        ShiftedLeft(divisor, a, d, k);
        a := a.LeftShift();
        d := d.LeftShift();
        k := k + 1;
      }
      while !d.Zero()
        invariant b.Value() * divisor + c.Value() == Value()
        invariant if d.Zero() then c.Value() < divisor else Aligned(divisor, a, d, k) && c.Value() < 2 * a.Value()
        decreases d.Value()
      {
        if a.Cmp(c) <= 0 {
          Subtracted(divisor, a, d, k, b, c, Value());
          b := b.Add(d);
          c := c.Sub(a);
        }
        ShiftedRight(divisor, a, d, k);
        a := a.RightShift();
        d := d.RightShift();
        k := k - 1;
      }
      r := Some((b, c));
    }

    /** Decimal notation, digit by digit from the right. */
    method ToString() returns (s: string)
      ensures s == ToDecimal(Value())
    {
      s := "";
      var b := this;
      while !b.Zero()
        invariant (if b.Zero() then "" else ToDecimal(b.Value())) + s == if Zero() then "" else ToDecimal(Value())
        decreases b.Value()
      {
        var qr := b.Div(10);
        var v, q, digit := b.Value(), qr.value.0.Value(), qr.value.1.Value();
        assert q == v / 10 && digit == v % 10;
        s := [Digit(qr.value.1.lo)] + s;
        b := qr.value.0;
      }
      if s == "" {
        s := "0";
      }
    }

    /** Reads digits; anything else in the string gives nothing. What does not fit is cut off at 64 bits. */
    static method FromString(s: string) returns (r: Option<UInt64>)
      ensures r.Some? <==> AllDigits(s)
      ensures r.Some? ==> r.value.Value() == FromDecimal(s) % TWO_TO_64
    {
      var b := UInt64(0, 0);
      for i := 0 to |s|
        invariant AllDigits(s[..i]) && b.Value() == FromDecimal(s[..i]) % TWO_TO_64
      {
        if '0' > s[i] || '9' < s[i] {
          return None;
        }
        var digit: uint32 := s[i] as int - '0' as int;
        assert s[..i + 1][..i] == s[..i];
        ghost var before, all := b.Value(), FromDecimal(s[..i]);
        b := b.Mul(10);
        b := b.Add(UInt64(digit, 0));
        NextDigit(before, all, digit);
      }
      assert s[..|s|] == s;
      r := Some(b);
    }
  }

  /** a is the divisor and d is 1, both shifted left by k bits. */
  ghost predicate Aligned(divisor: uint32, a: UInt64, d: UInt64, k: int) {
    k >= 0 && divisor > 0 && d.Value() == Pow2(k) && a.Value() == divisor * Pow2(k)
  }

  lemma ShiftedLeft(divisor: uint32, a: UInt64, d: UInt64, k: int)
    requires Aligned(divisor, a, d, k) && !a.Msb()
    ensures Aligned(divisor, a.LeftShift(), d.LeftShift(), k + 1)
    ensures a.Value() < a.LeftShift().Value()
  {
    Doubled(divisor, k);
    MulLe(1, divisor, Pow2(k));
    assert Pow2(k + 1) == 2 * Pow2(k);
    Small(2 * a.Value(), TWO_TO_64);
    Small(2 * d.Value(), TWO_TO_64);
  }

  lemma ShiftedRight(divisor: uint32, a: UInt64, d: UInt64, k: int)
    requires Aligned(divisor, a, d, k)
    ensures if k == 0 then d.RightShift().Zero() && a.Value() == divisor
      else Aligned(divisor, a.RightShift(), d.RightShift(), k - 1) && a.Value() == 2 * a.RightShift().Value() && !d.RightShift().Zero()
  {
    if k > 0 { Doubled(divisor, k - 1); }
  }

  /** Subtracting the shifted divisor and counting the shifted 1 keeps the sum, without overflow. */
  lemma Subtracted(divisor: uint32, a: UInt64, d: UInt64, k: int, b: UInt64, c: UInt64, total: nat)
    requires Aligned(divisor, a, d, k) && a.Value() <= c.Value()
    requires b.Value() * divisor + c.Value() == total < TWO_TO_64
    ensures b.Add(d).Value() * divisor + c.Sub(a).Value() == total
    ensures c.Sub(a).Value() == c.Value() - a.Value()
  {
    SumStaysBelow(divisor, b.Value(), d.Value(), a.Value(), total);
    Small(b.Value() + d.Value(), TWO_TO_64);
    Small(c.Value() - a.Value(), TWO_TO_64);
  }

  lemma SumStaysBelow(divisor: int, b: nat, d: nat, a: int, total: nat)
    requires divisor >= 1 && a == divisor * d && b * divisor + a <= total
    ensures (b + d) * divisor == b * divisor + a && b + d <= total
  {
    MulDistAdd(b, d, divisor);
    MulLe(1, divisor, b + d);
  }

  lemma Small(x: nat, m: nat)
    requires x < m
    ensures x % m == x
  {
  }

  /** Appending a digit commutes with cutting off at 64 bits. */
  lemma NextDigit(before: nat, all: nat, digit: nat)
    requires before == all % TWO_TO_64 && digit < 10
    ensures (before * 10 % TWO_TO_64 + digit) % TWO_TO_64 == (10 * all + digit) % TWO_TO_64
  {
    var q, x := all / TWO_TO_64, before * 10 + digit;
    DivMod(before * 10, TWO_TO_64);
    DivMod(x, TWO_TO_64);
    DivModUnique(10 * all + digit, TWO_TO_64, 10 * q + x / TWO_TO_64, x % TWO_TO_64);
    var p, r := before * 10 / TWO_TO_64, before * 10 % TWO_TO_64;
    DivModUnique(r + digit, TWO_TO_64, x / TWO_TO_64 - p, x % TWO_TO_64);
  }

  ghost function Pow2(k: int): (p: nat)
    ensures p > 0
  {
    if k <= 0 then 1 else 2 * Pow2(k - 1)
  }

  lemma Doubled(a: nat, k: nat)
    ensures a * Pow2(k + 1) == 2 * (a * Pow2(k))
  {
  }

  lemma MulDistAdd(a: int, b: int, c: int)
    ensures (a + b) * c == a * c + b * c
  {
  }

  lemma MulSwap(a: int, b: int, c: int)
    ensures a * b * c == a * c * b
  {
    MulAssoc(a, b, c);
    MulAssoc(a, c, b);
  }

  /** The exact 64-bit product of two 32-bit numbers, from four 16-bit products. */
  method Mul32x32(a: uint32, b: uint32) returns (r: UInt64)
    ensures r.Value() == a * b
  {
    var c, a' := a % 65536, a / 65536;
    var d, e := b % 65536, b / 65536;
    var ce, ad := c * e, a' * d;
    var low := c * d + 65536 * (ce % 65536) + 65536 * (ad % 65536);
    var high := a' * e + ce / 65536 + ad / 65536;
    FourProducts(a, b);
    ProductBound(a, b);
    while TWO_TO_32 <= low
      invariant 0 <= low && 0 <= high && high * TWO_TO_32 + low == a * b
      decreases low
    {
      low := low - TWO_TO_32;
      high := high + 1;
    }
    r := UInt64(low, high);
  }

  lemma FourProducts(a: uint32, b: uint32)
    ensures var c, a', d, e := a % 65536, a / 65536, b % 65536, b / 65536;
      && c * e >= 0 && a' * d >= 0 && c * d >= 0 && a' * e >= 0
      && a * b == TWO_TO_32 * (a' * e) + 65536 * (c * e) + 65536 * (a' * d) + c * d
  {
    var c, a', d, e := a % 65536, a / 65536, b % 65536, b / 65536;
    Cross(a', c, d, e);
    MulLe(0, c, e);
    MulLe(0, a', d);
    MulLe(0, c, d);
    MulLe(0, a', e);
  }

  lemma Cross(a: int, c: int, d: int, e: int)
    ensures (65536 * a + c) * (65536 * e + d) == TWO_TO_32 * (a * e) + 65536 * (c * e) + 65536 * (a * d) + c * d
  {
    assert (65536 * a + c) * (65536 * e + d) == 65536 * a * (65536 * e + d) + c * (65536 * e + d);
    assert 65536 * a * (65536 * e + d) == 65536 * (a * (65536 * e + d));
    assert a * (65536 * e + d) == 65536 * (a * e) + a * d;
    assert c * (65536 * e + d) == 65536 * (c * e) + c * d;
  }

  lemma ProductBound(a: uint32, b: uint32)
    ensures 0 <= a * b <= 0xFFFF_FFFF * 0xFFFF_FFFF
  {
    MulLe(a, 0xFFFF_FFFF, b);
  }

  /** Every 64-bit number survives being printed and read back. */
  method StringRoundTrip(x: UInt64) returns (y: Option<UInt64>)
    ensures y == Some(x)
  {
    var s := x.ToString();
    DecimalRoundTrip(x.Value());
    y := UInt64.FromString(s);
    assert y.value.lo == y.value.Value() % TWO_TO_32;
  }
}
