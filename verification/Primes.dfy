/**
  The table of primes that sizes the Maglev lookup table, checked prime by prime,
  and Euclid's lemma, which is what makes a prime size useful.
 */
module Primes {
  import opened Arith
  import opened Sorting

  const ROW_0: seq<nat> := [
    2, 3, 5, 7, 11, 13, 17, 19, 23, 29, 31, 37, 41, 43, 47, 53, 59, 61, 67,
    71, 73
  ]
  const ROW_1: seq<nat> := [
    79, 83, 89, 97, 101, 103, 107, 109, 113, 127, 131, 137, 139, 149, 151,
    157, 163, 167, 173, 179, 181
  ]
  const ROW_2: seq<nat> := [
    191, 193, 197, 199, 211, 223, 227, 229, 233, 239, 241, 251, 257, 263,
    269, 271, 277, 281, 283, 293, 307
  ]
  const ROW_3: seq<nat> := [
    311, 313, 317, 331, 337, 347, 349, 353, 359, 367, 373, 379, 383, 389,
    397, 401, 409, 419, 421, 431, 433
  ]
  const ROW_4: seq<nat> := [
    439, 443, 449, 457, 461, 463, 467, 479, 487, 491, 499, 503, 509, 521,
    523, 541, 547, 557, 563, 569, 571
  ]
  const ROW_5: seq<nat> := [
    577, 587, 593, 599, 601, 607, 613, 617, 619, 631, 641, 643, 647, 653,
    659, 661, 673, 677, 683, 691, 701
  ]
  const ROW_6: seq<nat> := [
    709, 719, 727, 733, 739, 743, 751, 757, 761, 769, 773, 787, 797, 809,
    811, 821, 823, 827, 829, 839, 853
  ]
  const ROW_7: seq<nat> := [
    857, 859, 863, 877, 881, 883, 887, 907, 911, 919, 929, 937, 941, 947,
    953, 967, 971, 977, 983, 991, 997
  ]

  /** The primes up to 997, in order. */
  const PRIMES: seq<nat> := ((ROW_0 + ROW_1) + (ROW_2 + ROW_3)) + ((ROW_4 + ROW_5) + (ROW_6 + ROW_7))

  predicate Divides(d: int, n: int)
    requires d > 0
  {
    n % d == 0
  }

  ghost predicate IsPrime(n: int) {
    n >= 2 && forall d :: 2 <= d < n ==> !Divides(d, n)
  }

  // ---------- every entry of the table is a prime ----------

  /** No prime up to 31 divides p, unless it is p. */
  predicate PassesTrialDivision(p: int) {
    && 2 <= p < 1024
    && (p == 2 || p % 2 != 0)
    && (p == 3 || p % 3 != 0)
    && (p == 5 || p % 5 != 0)
    && (p == 7 || p % 7 != 0)
    && (p == 11 || p % 11 != 0)
    && (p == 13 || p % 13 != 0)
    && (p == 17 || p % 17 != 0)
    && (p == 19 || p % 19 != 0)
    && (p == 23 || p % 23 != 0)
    && (p == 29 || p % 29 != 0)
    && (p == 31 || p % 31 != 0)
  }

  /** Any number from 2 to 31 has one of the primes tried above as a factor. */
  function SmallFactor(d: int): (q: int)
    requires 2 <= d < 32
    ensures 2 <= q <= d && Divides(q, d)
    ensures q in {2, 3, 5, 7, 11, 13, 17, 19, 23, 29, 31}
  {
    if d % 2 == 0 then 2 else if d % 3 == 0 then 3 else if d % 5 == 0 then 5 else d
  }

  /** A factor of a factor is a factor. */
  lemma FactorOfFactor(q: int, d: int, e: int, p: int)
    requires q > 0 && d > 0 && Divides(q, d) && p == d * e
    ensures Divides(q, p)
  {
    DivMod(d, q);
    MulAssoc(q, d / q, e);
    DivModUnique(p, q, (d / q) * e, 0);
  }

  /** Two cofactors of a number below 1024 are not both 32 or more. */
  lemma SmallCofactor(d: int, e: int)
    requires 2 <= d < d * e < 1024
    ensures 2 <= e < d * e && (d < 32 || e < 32)
  {
    if e <= 1 { MulLe(e, 1, d); }
    MulLe(2, d, e);
    if d >= 32 && e >= 32 { MulMono(32, d, e); }
  }

  lemma NoListedFactor(p: int, q: int)
    requires PassesTrialDivision(p) && q in {2, 3, 5, 7, 11, 13, 17, 19, 23, 29, 31} && q != p
    ensures !Divides(q, p)
  {
  }

  lemma TrialDivisionFindsPrimes(p: int)
    requires PassesTrialDivision(p)
    ensures IsPrime(p)
  {
    assert 2 <= p < 1024;
    hide PassesTrialDivision, SmallFactor;
    forall d | 2 <= d < p
      ensures !Divides(d, p)
    {
      if Divides(d, p) {
        var e := p / d;
        DivMod(p, d);
        SmallCofactor(d, e);
        var q := SmallFactor(if d < 32 then d else e);
        if d < 32 {
          FactorOfFactor(q, d, e, p);
        } else {
          FactorOfFactor(q, e, d, p);
        }
        NoListedFactor(p, q);
      }
    }
  }

  lemma Row0Holds()
    ensures Ascending(ROW_0) && forall k :: 0 <= k < |ROW_0| ==> PassesTrialDivision(ROW_0[k])
  {
  }

  lemma Row1Holds()
    ensures Ascending(ROW_1) && forall k :: 0 <= k < |ROW_1| ==> PassesTrialDivision(ROW_1[k])
  {
  }

  lemma Row2Holds()
    ensures Ascending(ROW_2) && forall k :: 0 <= k < |ROW_2| ==> PassesTrialDivision(ROW_2[k])
  {
  }

  lemma Row3Holds()
    ensures Ascending(ROW_3) && forall k :: 0 <= k < |ROW_3| ==> PassesTrialDivision(ROW_3[k])
  {
  }

  lemma Row4Holds()
    ensures Ascending(ROW_4) && forall k :: 0 <= k < |ROW_4| ==> PassesTrialDivision(ROW_4[k])
  {
  }

  lemma Row5Holds()
    ensures Ascending(ROW_5) && forall k :: 0 <= k < |ROW_5| ==> PassesTrialDivision(ROW_5[k])
  {
  }

  lemma Row6Holds()
    ensures Ascending(ROW_6) && forall k :: 0 <= k < |ROW_6| ==> PassesTrialDivision(ROW_6[k])
  {
  }

  lemma Row7Holds()
    ensures Ascending(ROW_7) && forall k :: 0 <= k < |ROW_7| ==> PassesTrialDivision(ROW_7[k])
  {
  }

  /** No number of the table can be divided. */
  lemma TableHoldsNoProduct(p: int, d: int)
    ensures p in PRIMES && 2 <= d < p ==> p % d != 0
  {
    TableHoldsPrimes();
    if p in PRIMES && 2 <= d < p { assert IsPrime(p) && !Divides(d, p); }
  }

  lemma TableHoldsPrimes()
    ensures forall p :: p in PRIMES ==> IsPrime(p)
  {
    forall p | p in PRIMES
      ensures IsPrime(p)
    {
      Row0Holds();
      Row1Holds();
      Row2Holds();
      Row3Holds();
      Row4Holds();
      Row5Holds();
      Row6Holds();
      Row7Holds();
      assert PassesTrialDivision(p);
      TrialDivisionFindsPrimes(p);
    }
  }

  lemma AscendingConcat(s: seq<nat>, t: seq<nat>)
    requires Ascending(s) && Ascending(t) && |s| > 0 && |t| > 0 && s[|s| - 1] < t[0]
    ensures Ascending(s + t)
  {
  }

  lemma TableAscends()
    ensures Ascending(PRIMES) && |PRIMES| == 168 && PRIMES[167] == 997
  {
    Row0Holds();
    Row1Holds();
    Row2Holds();
    Row3Holds();
    Row4Holds();
    Row5Holds();
    Row6Holds();
    Row7Holds();
    AscendingConcat(ROW_0, ROW_1);
    AscendingConcat(ROW_2, ROW_3);
    AscendingConcat(ROW_4, ROW_5);
    AscendingConcat(ROW_6, ROW_7);
    AscendingConcat(ROW_0 + ROW_1, ROW_2 + ROW_3);
    AscendingConcat(ROW_4 + ROW_5, ROW_6 + ROW_7);
    AscendingConcat((ROW_0 + ROW_1) + (ROW_2 + ROW_3), (ROW_4 + ROW_5) + (ROW_6 + ROW_7));
  }

  // ---------- Euclid's lemma ----------

  /** A prime that divides a product, but not its first factor, divides the second. */
  lemma {:induction false} Euclid(p: int, a: int, b: int)
    requires IsPrime(p) && 1 <= a < p && Divides(p, a * b)
    ensures Divides(p, b)
    decreases a
  {
    if a > 1 {
      // p = q * a + r with 0 < r < a, and p divides r * b too.
      var q, r := p / a, p % a;
      assert !Divides(a, p);
      DivMod(p, a);
      DivMod(a * b, p);
      var k := (a * b) / p;
      assert r * b == p * (b - q * k) by {
        assert r * b == p * b - (a * q) * b by { MulDistSub(p, a * q, b); }
        assert (a * q) * b == q * (a * b) by { MulAssoc(q, a, b); }
        assert q * (a * b) == p * (q * k) by { MulAssoc(q, p, k); MulAssoc(p, q, k); }
        MulDistSub(b, q * k, p);
      }
      DivModUnique(r * b, p, b - q * k, 0);
      Euclid(p, r, b);
    }
  }
}
