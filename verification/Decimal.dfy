/** Decimal notation of natural numbers: the reference the digit-printing code is measured against. */
module Decimal {

  function Digit(d: int): (c: char)
    requires 0 <= d < 10
    ensures '0' <= c <= '9'
  {
    '0' + d as char
  }

  /** Decimal notation without leading zeros. */
  function ToDecimal(n: nat): (s: string)
    ensures |s| > 0 && (n > 0 ==> s[0] != '0')
  {
    if n < 10 then [Digit(n)] else ToDecimal(n / 10) + [Digit(n % 10)]
  }

  /** The last digit is that of the remainder by ten, the ones before it are the digits of the quotient. */
  lemma {:induction false} LastDigit(n: nat)
    ensures var s, last := ToDecimal(n), |ToDecimal(n)| - 1;
      && s[last] == "0123456789"[n % 10] && (|s| == 1 <==> n < 10)
      && (n >= 10 ==> s[..last] == ToDecimal(n / 10))
  {
  }

  predicate AllDigits(s: string) {
    forall i :: 0 <= i < |s| ==> '0' <= s[i] <= '9'
  }

  /** The number a string of digits denotes; the empty string denotes 0. */
  function FromDecimal(s: string): nat
    requires AllDigits(s)
  {
    if s == "" then 0 else 10 * FromDecimal(s[..|s| - 1]) + (s[|s| - 1] as int - '0' as int)
  }

  lemma {:induction false} DecimalRoundTrip(n: nat)
    ensures AllDigits(ToDecimal(n)) && FromDecimal(ToDecimal(n)) == n
  {
    if n < 10 {
      assert ToDecimal(n)[..0] == "";
    } else {
      DecimalRoundTrip(n / 10);
      assert ToDecimal(n)[..|ToDecimal(n)| - 1] == ToDecimal(n / 10);
    }
  }

  // ---------- fixed-width digits ----------

  function Pow10(k: nat): (p: nat)
    ensures p > 0
  {
    if k == 0 then 1 else 10 * Pow10(k - 1)
  }

  /** The last k digits of r, leading zeros included. */
  function Padded(r: nat, k: nat): (s: string)
    ensures |s| == k
  {
    if k == 0 then "" else Padded(r / 10, k - 1) + [Digit(r % 10)]
  }

  lemma TenTimes(q: nat, p: nat, r: nat)
    requires q > 0 && p > 0
    ensures var n := q * (10 * p) + r;
      n >= 10 && n / 10 == q * p + r / 10 && n % 10 == r % 10
  {
    var m := q * p;
    assert q * (10 * p) == 10 * m;
    assert m >= 1;
  }

  /** A positive number followed by k more digits. */
  lemma {:induction false} AppendDigits(q: nat, r: nat, k: nat)
    requires q > 0 && r < Pow10(k)
    ensures ToDecimal(q * Pow10(k) + r) == ToDecimal(q) + Padded(r, k)
  {
    if k > 0 {
      var p := Pow10(k - 1);
      TenTimes(q, p, r);
      AppendDigits(q, r / 10, k - 1);
    }
  }

  function Zeros(k: nat): (s: string)
    ensures |s| == k && forall i :: 0 <= i < k ==> s[i] == '0'
  {
    seq(k, _ => '0')
  }

  /** Padding with zeros in front of the number, nothing standing for 0, gives the fixed width. */
  lemma {:induction false} PaddingIsFixedWidth(r: nat, k: nat)
    requires r < Pow10(k)
    ensures var digits := if r == 0 then "" else ToDecimal(r);
      |digits| <= k && Padded(r, k) == Zeros(k - |digits|) + digits
  {
    if k > 0 {
      PaddingIsFixedWidth(r / 10, k - 1);
      if r == 0 {
        assert Zeros(k - 1) + ['0'] == Zeros(k);
      }
    }
  }
}
