/**
  Masking of WebSocket payloads (section 5.3 of RFC 6455): the block-wise loops of the C extension
  against the bytewise definition of the standard. Words are stored lowest byte first.
 */
module Mask {
  import opened Results

  const MASK_LEN := 4

  /** The definition: every byte is combined with the byte of the mask at its index modulo 4. */
  function Masked(input: seq<bv8>, mask: seq<bv8>): seq<bv8>
    requires |mask| == MASK_LEN
  {
    seq(|input|, i requires 0 <= i < |input| => Xor8(input[i], mask[i % 4]))
  }

  function Xor8(a: bv8, b: bv8): bv8 { a ^ b }

  function Xor32(a: bv32, b: bv32): bv32 { a ^ b }

  function Xor64(a: bv64, b: bv64): bv64 { a ^ b }

  function Xor128(a: bv128, b: bv128): bv128 { a ^ b }

  // ---------- words in memory ----------

  function Join32(a: bv8, b: bv8, c: bv8, d: bv8): bv32 {
    (a as bv32) | ((b as bv32) << 8) | ((c as bv32) << 16) | ((d as bv32) << 24)
  }

  function Join64(lo: bv32, hi: bv32): bv64 {
    (lo as bv64) | ((hi as bv64) << 32)
  }

  function Join128(lo: bv64, hi: bv64): bv128 {
    (lo as bv128) | ((hi as bv128) << 64)
  }

  function Low32(x: bv64): bv32 {
    (x & 0xFFFF_FFFF) as bv32
  }

  function High32(x: bv64): bv32 {
    (x >> 32) as bv32
  }

  function Low64(x: bv128): bv64 {
    (x & 0xFFFF_FFFF_FFFF_FFFF) as bv64
  }

  function High64(x: bv128): bv64 {
    (x >> 64) as bv64
  }

  function Load32(s: seq<bv8>, i: nat): bv32
    requires i + 4 <= |s|
  {
    Join32(s[i], s[i + 1], s[i + 2], s[i + 3])
  }

  function Load64(s: seq<bv8>, i: nat): bv64
    requires i + 8 <= |s|
  {
    Join64(Load32(s, i), Load32(s, i + 4))
  }

  function Load128(s: seq<bv8>, i: nat): bv128
    requires i + 16 <= |s|
  {
    Join128(Load64(s, i), Load64(s, i + 8))
  }

  function Bytes32(x: bv32): (s: seq<bv8>)
    ensures |s| == 4
  {
    [(x & 0xFF) as bv8, ((x >> 8) & 0xFF) as bv8, ((x >> 16) & 0xFF) as bv8, (x >> 24) as bv8]
  }

  function Bytes64(x: bv64): (s: seq<bv8>)
    ensures |s| == 8
  {
    Bytes32(Low32(x)) + Bytes32(High32(x))
  }

  function Bytes128(x: bv128): (s: seq<bv8>)
    ensures |s| == 16
  {
    Bytes64(Low64(x)) + Bytes64(High64(x))
  }

  // ---------- exclusive or of words is exclusive or of their bytes ----------

  lemma Split64(a: bv32, b: bv32, c: bv32, d: bv32)
    ensures Low32(Xor64(Join64(a, b), Join64(c, d))) == Xor32(a, c)
    ensures High32(Xor64(Join64(a, b), Join64(c, d))) == Xor32(b, d)
  {
  }

  lemma Split128(a: bv64, b: bv64, c: bv64, d: bv64)
    ensures Low64(Xor128(Join128(a, b), Join128(c, d))) == Xor64(a, c)
    ensures High64(Xor128(Join128(a, b), Join128(c, d))) == Xor64(b, d)
  {
  }

  lemma Split32(a: bv8, b: bv8, c: bv8, d: bv8, m: bv8, n: bv8, o: bv8, p: bv8)
    ensures Bytes32(Xor32(Join32(a, b, c, d), Join32(m, n, o, p))) == [Xor8(a, m), Xor8(b, n), Xor8(c, o), Xor8(d, p)]
  {
  }

  lemma Block32(input: seq<bv8>, i: nat, mask: seq<bv8>)
    requires |mask| == MASK_LEN && i % 4 == 0 && i + 4 <= |input|
    ensures Bytes32(Xor32(Load32(input, i), Load32(mask, 0))) == Masked(input, mask)[i..i + 4]
  {
    hide Join32, Bytes32, Xor8, Xor32;
    Split32(input[i], input[i + 1], input[i + 2], input[i + 3], mask[0], mask[1], mask[2], mask[3]);
  }

  lemma Block64(input: seq<bv8>, i: nat, mask: seq<bv8>)
    requires |mask| == MASK_LEN && i % 4 == 0 && i + 8 <= |input|
    ensures Bytes64(Xor64(Load64(input, i), Join64(Load32(mask, 0), Load32(mask, 0)))) == Masked(input, mask)[i..i + 8]
  {
    hide Load32, Join64, Low32, High32, Bytes32, Masked, Xor32, Xor64;
    MaskedLength(input, mask);
    Split64(Load32(input, i), Load32(input, i + 4), Load32(mask, 0), Load32(mask, 0));
    Block32(input, i, mask);
    Block32(input, i + 4, mask);
    Adjacent(Masked(input, mask), i, 4);
  }

  lemma Block128(input: seq<bv8>, i: nat, mask: seq<bv8>)
    requires |mask| == MASK_LEN && i % 4 == 0 && i + 16 <= |input|
    ensures var m := Join64(Load32(mask, 0), Load32(mask, 0));
      Bytes128(Xor128(Load128(input, i), Join128(m, m))) == Masked(input, mask)[i..i + 16]
  {
    hide Load32, Load64, Join64, Join128, Low64, High64, Bytes64, Masked, Xor64, Xor128;
    MaskedLength(input, mask);
    var m := Join64(Load32(mask, 0), Load32(mask, 0));
    Split128(Load64(input, i), Load64(input, i + 8), m, m);
    Block64(input, i, mask);
    Block64(input, i + 8, mask);
    Adjacent(Masked(input, mask), i, 8);
  }

  lemma Adjacent(s: seq<bv8>, i: nat, n: nat)
    requires i + n + n <= |s|
    ensures s[i..i + n] + s[i + n..i + n + n] == s[i..i + n + n]
  {
  }

  // ---------- the loops ----------

  method Store(output: array<bv8>, i: nat, bytes: seq<bv8>)
    requires i + |bytes| <= output.Length
    modifies output
    ensures output[..i + |bytes|] == old(output[..i]) + bytes
  {
    for k := 0 to |bytes|
      invariant output[..i + k] == old(output[..i]) + bytes[..k]
    {
      output[i + k] := bytes[k];
    }
  }

  /** A block that starts before the last whole block ends does not reach beyond it. */
  lemma StepWithin(n: nat, i: nat, size: nat)
    requires (size == 8 || size == 16) && i % size == 0 && i < n - n % size
    ensures i % 4 == 0 && i + size <= n - n % size && (i + size) % size == 0
  {
  }

  /** 16 bytes at once, as far as whole blocks go. */
  method WideBlocks(input: seq<bv8>, mask: seq<bv8>, output: array<bv8>) returns (i: nat)
    requires |mask| == MASK_LEN && output.Length == |input|
    modifies output
    ensures i == |input| - |input| % 16 && i <= |Masked(input, mask)| && output[..i] == Masked(input, mask)[..i]
  {
    hide Masked, Load32, Load128, Bytes128, Join64, Join128, Xor128;
    MaskedLength(input, mask);
    ghost var all := Masked(input, mask);
    var n := |input|;
    var mask64 := Join64(Load32(mask, 0), Load32(mask, 0));
    var mask128 := Join128(mask64, mask64);
    i := 0;
    while i < n - n % 16
      invariant i % 16 == 0 && i <= n - n % 16 && output[..i] == all[..i]
    {
      StepWithin(n, i, 16);
      Block128(input, i, mask);
      Adjoin(all, i, 16);
      Store(output, i, Bytes128(Xor128(Load128(input, i), mask128)));
      i := i + 16;
    }
  }

  /** 8 bytes at once, as far as whole blocks go. */
  method NarrowBlocks(input: seq<bv8>, mask: seq<bv8>, output: array<bv8>) returns (i: nat)
    requires |mask| == MASK_LEN && output.Length == |input|
    modifies output
    ensures i == |input| - |input| % 8 && i <= |Masked(input, mask)| && output[..i] == Masked(input, mask)[..i]
  {
    hide Masked, Load32, Load64, Bytes64, Join64, Xor64;
    MaskedLength(input, mask);
    ghost var all := Masked(input, mask);
    var n := |input|;
    var mask64 := Join64(Load32(mask, 0), Load32(mask, 0));
    i := 0;
    while i < n - n % 8
      invariant i % 8 == 0 && i <= n - n % 8 && output[..i] == all[..i]
    {
      StepWithin(n, i, 8);
      Block64(input, i, mask);
      Adjoin(all, i, 8);
      Store(output, i, Bytes64(Xor64(Load64(input, i), mask64)));
      i := i + 8;
    }
  }

  /** `wide` says that 16 bytes are taken at once and not 8; a mask must have 4 bytes. */
  method ApplyMask(input: seq<bv8>, mask: seq<bv8>, wide: bool) returns (r: Result<seq<bv8>>)
    ensures r == if |mask| == MASK_LEN then Success(Masked(input, mask)) else Failure
  {
    if |mask| != MASK_LEN { return Failure; }
    hide Masked, Xor8;
    MaskedLength(input, mask);
    ghost var all := Masked(input, mask);
    var output := new bv8[|input|];
    var i: nat;
    if wide {
      i := WideBlocks(input, mask, output);
    } else {
      i := NarrowBlocks(input, mask, output);
    }
    while i < |input|
      invariant i <= |input| && output[..i] == all[..i]
    {
      MaskedAt(input, mask, i);
      output[i] := Xor8(input[i], mask[i % 4]);
      i := i + 1;
    }
    assert output[..] == output[..i] && all[..i] == all;
    r := Success(output[..]);
  }

  lemma MaskedLength(input: seq<bv8>, mask: seq<bv8>)
    requires |mask| == MASK_LEN
    ensures |Masked(input, mask)| == |input|
  {
  }

  lemma MaskedAt(input: seq<bv8>, mask: seq<bv8>, i: nat)
    requires |mask| == MASK_LEN && i < |input|
    ensures |Masked(input, mask)| == |input| && Masked(input, mask)[i] == Xor8(input[i], mask[i % 4])
  {
  }

  /** The definition in the words of the standard. */
  lemma MaskedByte(input: seq<bv8>, mask: seq<bv8>, i: nat)
    requires |mask| == 4 && i < |input|
    ensures |Masked(input, mask)| == |input| && Masked(input, mask)[i] == input[i] ^ mask[i % 4]
  {
    MaskedAt(input, mask, i);
    hide Masked;
  }

  lemma Adjoin(s: seq<bv8>, i: nat, n: nat)
    requires i + n <= |s|
    ensures s[..i] + s[i..i + n] == s[..i + n]
  {
  }

  // ---------- what masking is for ----------

  lemma XorTwice(x: bv8, m: bv8)
    ensures Xor8(Xor8(x, m), m) == x
  {
  }

  /** Unmasking is masking again. */
  lemma MaskingTwiceGivesTheInput(input: seq<bv8>, mask: seq<bv8>)
    requires |mask| == MASK_LEN
    ensures Masked(Masked(input, mask), mask) == input
  {
    forall i | 0 <= i < |input|
      ensures Masked(Masked(input, mask), mask)[i] == input[i]
    {
      XorTwice(input[i], mask[i % 4]);
    }
  }

  /** A payload may be masked in parts, the mask turned by the length of the part before. */
  lemma MaskingInParts(a: seq<bv8>, b: seq<bv8>, mask: seq<bv8>)
    requires |mask| == MASK_LEN
    ensures var k := |a| % 4;
      Masked(a + b, mask) == Masked(a, mask) + Masked(b, mask[k..] + mask[..k])
  {
    hide Xor8;
    var k := |a| % 4;
    var turned := mask[k..] + mask[..k];
    var whole, parts := Masked(a + b, mask), Masked(a, mask) + Masked(b, turned);
    forall i | 0 <= i < |a| + |b|
      ensures whole[i] == parts[i]
    {
      if i >= |a| { TurnedAt(mask, |a|, i - |a|); }
    }
  }

  lemma TurnedAt(mask: seq<bv8>, n: nat, i: nat)
    requires |mask| == MASK_LEN
    ensures (mask[n % 4..] + mask[..n % 4])[i % 4] == mask[(n + i) % 4]
  {
    assert (n + i) % 4 == (n % 4 + i % 4) % 4;
  }

  /** Different inputs are never masked to the same output. */
  lemma MaskingIsInjective(a: seq<bv8>, b: seq<bv8>, mask: seq<bv8>)
    requires |mask| == MASK_LEN && Masked(a, mask) == Masked(b, mask)
    ensures a == b
  {
    MaskingTwiceGivesTheInput(a, mask);
    MaskingTwiceGivesTheInput(b, mask);
  }
}
