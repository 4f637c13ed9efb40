/**
 * Masked comparison of IPv4 and IPv6 addresses, and the leading bits that it stands for (section 3.1 of
 * RFC 4632, section 2.3 of RFC 4291). Prefix lengths are numbers of 8 bits, as in the modelled program.
 */
module PrefixBits {

  // ----- IPv4: one 32-bit word

  /** `!0u32 << (32 - prefix)`; for a prefix of zero a release build reduces the shift by 32 to no shift. */
  function Mask32(prefix: bv8): bv32
    requires prefix <= 32
  {
    if prefix == 0 then 0xFFFF_FFFF else 0xFFFF_FFFF << (32 - prefix)
  }

  /** Bit `i` of a word, counted from the most significant one. */
  predicate Bit32(x: bv32, i: bv8)
    requires i < 32
  {
    (x << i) & 0x8000_0000 != 0
  }

  lemma XorDistributes32(a: bv32, b: bv32, m: bv32)
    ensures (a & m) ^ (b & m) == (a ^ b) & m
  {
  }

  lemma XorZero32(a: bv32, b: bv32)
    ensures a == b <==> a ^ b == 0
  {
  }

  lemma XorMask32(a: bv32, b: bv32, m: bv32)
    ensures a & m == b & m <==> (a ^ b) & m == 0
  {
    XorDistributes32(a, b, m);
    XorZero32(a & m, b & m);
  }

  lemma XorBit32(a: bv32, b: bv32, i: bv8)
    requires i < 32
    ensures Bit32(a ^ b, i) <==> Bit32(a, i) != Bit32(b, i)
  {
  }

  ghost predicate NoTopBits32(z: bv32, n: bv8)
    requires n <= 32
  {
    forall i: bv8 :: i < n ==> !Bit32(z, i)
  }

  /** The first `n` bits are the same. */
  ghost predicate SameTopBits32(a: bv32, b: bv32, n: bv8)
    requires n <= 32
  {
    forall i: bv8 :: i < n ==> (Bit32(a, i) <==> Bit32(b, i))
  }

  lemma NoTopBitsOfXor32(a: bv32, b: bv32, n: bv8)
    requires n <= 32
    ensures NoTopBits32(a ^ b, n) <==> SameTopBits32(a, b, n)
  {
    forall i: bv8 | i < n
      ensures !Bit32(a ^ b, i) <==> (Bit32(a, i) <==> Bit32(b, i))
    {
      XorBit32(a, b, i);
    }
  }

  lemma NoTopBitsSplit32(z: bv32, n: bv8)
    requires 1 < n <= 32
    ensures NoTopBits32(z, n) <==> NoTopBits32(z, n - 1) && !Bit32(z, n - 1)
  {
    if NoTopBits32(z, n - 1) && !Bit32(z, n - 1) {
      forall i: bv8 | i < n
        ensures !Bit32(z, i)
      {
        if i != n - 1 {
          assert i < n - 1;
        }
      }
    }
  }

  lemma NoTopBitsFirst32(z: bv32)
    ensures NoTopBits32(z, 1) <==> !Bit32(z, 0)
  {
    forall i: bv8 | i < 1
      ensures !Bit32(z, i) <==> !Bit32(z, 0)
    {
      assert i == 0;
    }
  }

  lemma {:induction false} MaskBits32(z: bv32, n: bv8)
    requires 0 < n <= 32
    ensures z & Mask32(n) == 0 <==> NoTopBits32(z, n)
    decreases n
  {
    if n > 1 {
      MaskBits32(z, n - 1);
      NoTopBitsSplit32(z, n);
    } else {
      NoTopBitsFirst32(z);
    }
  }

  predicate Agree4(a: bv32, b: bv32, prefix: bv8)
    requires prefix <= 32
  {
    a & Mask32(prefix) == b & Mask32(prefix)
  }

  /** The masked comparison is agreement on the top bits, for prefixes from 1 to 32. */
  lemma Agree4IsTopBits(a: bv32, b: bv32, prefix: bv8)
    requires 0 < prefix <= 32
    ensures Agree4(a, b, prefix) <==> SameTopBits32(a, b, prefix)
  {
    MaskBits32(a ^ b, prefix);
    XorMask32(a, b, Mask32(prefix));
    NoTopBitsOfXor32(a, b, prefix);
  }

  /** A prefix of zero compares whole addresses instead of nothing. */
  lemma Agree4Zero(a: bv32, b: bv32)
    ensures Agree4(a, b, 0) ==> a == b
  {
  }

  lemma Agree4Self(a: bv32, prefix: bv8)
    requires prefix <= 32
    ensures Agree4(a, a, prefix)
  {
  }

  // ----- IPv6: eight 16-bit segments

  type Segments = s: seq<bv16> | |s| == 8 witness [0, 0, 0, 0, 0, 0, 0, 0]

  /** `!0u16 << (16 - bits)` */
  function Mask16(bits: bv8): bv16
    requires 0 < bits < 16
  {
    0xFFFF << (16 - bits)
  }

  predicate Bit16(x: bv16, i: bv8)
    requires i < 16
  {
    (x << i) & 0x8000 != 0
  }

  lemma XorDistributes16(a: bv16, b: bv16, m: bv16)
    ensures (a & m) ^ (b & m) == (a ^ b) & m
  {
  }

  lemma XorZero16(a: bv16, b: bv16)
    ensures a == b <==> a ^ b == 0
  {
  }

  lemma XorMask16(a: bv16, b: bv16, m: bv16)
    ensures a & m == b & m <==> (a ^ b) & m == 0
  {
    XorDistributes16(a, b, m);
    XorZero16(a & m, b & m);
  }

  lemma XorBit16(a: bv16, b: bv16, i: bv8)
    requires i < 16
    ensures Bit16(a ^ b, i) <==> Bit16(a, i) != Bit16(b, i)
  {
  }

  ghost predicate NoTopBits16(z: bv16, n: bv8)
    requires n <= 16
  {
    forall i: bv8 :: i < n ==> !Bit16(z, i)
  }

  /** The first `n` bits are the same. */
  ghost predicate SameTopBits16(a: bv16, b: bv16, n: bv8)
    requires n <= 16
  {
    forall i: bv8 :: i < n ==> (Bit16(a, i) <==> Bit16(b, i))
  }

  lemma NoTopBitsOfXor16(a: bv16, b: bv16, n: bv8)
    requires n <= 16
    ensures NoTopBits16(a ^ b, n) <==> SameTopBits16(a, b, n)
  {
    forall i: bv8 | i < n
      ensures !Bit16(a ^ b, i) <==> (Bit16(a, i) <==> Bit16(b, i))
    {
      XorBit16(a, b, i);
    }
  }

  lemma NoTopBitsSplit16(z: bv16, n: bv8)
    requires 1 < n <= 16
    ensures NoTopBits16(z, n) <==> NoTopBits16(z, n - 1) && !Bit16(z, n - 1)
  {
    if NoTopBits16(z, n - 1) && !Bit16(z, n - 1) {
      forall i: bv8 | i < n
        ensures !Bit16(z, i)
      {
        if i != n - 1 {
          assert i < n - 1;
        }
      }
    }
  }

  lemma MaskFirst16(z: bv16)
    ensures z & Mask16(1) == 0 <==> !Bit16(z, 0)
  {
  }

  lemma {:induction false} MaskBits16(z: bv16, n: bv8)
    requires 0 < n < 16
    ensures z & Mask16(n) == 0 <==> NoTopBits16(z, n)
    decreases n
  {
    if n > 1 {
      MaskBits16(z, n - 1);
      NoTopBitsSplit16(z, n);
    } else {
      MaskFirst16(z);
    }
  }

  predicate AgreeSegment(x: bv16, y: bv16, bits: bv8)
    requires 0 < bits < 16
  {
    x & Mask16(bits) == y & Mask16(bits)
  }

  lemma AgreeSegmentIsTopBits(x: bv16, y: bv16, bits: bv8)
    requires 0 < bits < 16
    ensures AgreeSegment(x, y, bits) <==> SameTopBits16(x, y, bits)
  {
    MaskBits16(x ^ y, bits);
    XorMask16(x, y, Mask16(bits));
    NoTopBitsOfXor16(x, y, bits);
  }

  /** Sixteen equal bits make equal segments. */
  lemma WholeSegment(x: bv16, y: bv16)
    requires SameTopBits16(x, y, 16)
    ensures x == y
  {
    assert SameTopBits16(x, y, 15);
    AgreeSegmentIsTopBits(x, y, 15);
    assert Bit16(x, 15) <==> Bit16(y, 15);
  }

  function FullSegments(prefix: bv8): (n: nat)
    requires prefix <= 128
    ensures n <= 8
  {
    (prefix / 16) as nat
  }

  /** The segment loop and the partial-segment mask. */
  predicate Agree6(a: Segments, b: Segments, prefix: bv8)
    requires prefix <= 128
  {
    var full := FullSegments(prefix);
    && (forall s :: 0 <= s < full ==> a[s] == b[s])
    && (prefix % 16 > 0 && full < 8 ==> AgreeSegment(a[full], b[full], prefix % 16))
  }

  method ComputeAgree6(a: Segments, b: Segments, prefix: bv8) returns (ok: bool)
    requires prefix <= 128
    ensures ok == Agree6(a, b, prefix)
  {
    var full := FullSegments(prefix);
    for s := 0 to full
      invariant forall t :: 0 <= t < s ==> a[t] == b[t]
    {
      if a[s] != b[s] {
        return false;
      }
    }
    var rest := prefix % 16;
    if rest > 0 && full < 8 {
      if !AgreeSegment(a[full], b[full], rest) {
        return false;
      }
    }
    return true;
  }

  /** Bit `16 * s + i` of the 128-bit address, counted from the top. */
  function Position(s: nat, i: bv8): nat {
    16 * s + i as nat
  }

  /** The two addresses agree on their first `prefix` bits out of 128. */
  ghost predicate SameTopBits128(a: Segments, b: Segments, prefix: nat)
    requires prefix <= 128
  {
    forall s: nat, i: bv8 :: s < 8 && i < 16 && Position(s, i) < prefix ==> (Bit16(a[s], i) <==> Bit16(b[s], i))
  }

  lemma SegmentsGiveTopBits(a: Segments, b: Segments, prefix: bv8, s: nat, i: bv8)
    requires prefix <= 128 && Agree6(a, b, prefix)
    requires s < 8 && i < 16 && Position(s, i) < prefix as nat
    ensures Bit16(a[s], i) <==> Bit16(b[s], i)
  {
    if s == FullSegments(prefix) {
      AgreeSegmentIsTopBits(a[s], b[s], prefix % 16);
    }
  }

  lemma TopBitsGiveFull(a: Segments, b: Segments, prefix: bv8, s: nat)
    requires prefix <= 128 && prefix as nat <= 128 && SameTopBits128(a, b, prefix as nat)
    requires s < FullSegments(prefix)
    ensures a[s] == b[s]
  {
    forall i: bv8 | i < 16
      ensures Bit16(a[s], i) <==> Bit16(b[s], i)
    {
    }
    WholeSegment(a[s], b[s]);
  }

  lemma TopBitsGivePartial(a: Segments, b: Segments, prefix: bv8)
    requires prefix <= 128 && prefix as nat <= 128 && SameTopBits128(a, b, prefix as nat)
    requires prefix % 16 > 0 && FullSegments(prefix) < 8
    ensures AgreeSegment(a[FullSegments(prefix)], b[FullSegments(prefix)], prefix % 16)
  {
    var s := FullSegments(prefix);
    forall i: bv8 | i < prefix % 16
      ensures Bit16(a[s], i) <==> Bit16(b[s], i)
    {
    }
    AgreeSegmentIsTopBits(a[s], b[s], prefix % 16);
  }

  /** The loop with its partial mask compares exactly the top `prefix` bits. */
  lemma Agree6IsTopBits(a: Segments, b: Segments, prefix: bv8)
    requires prefix <= 128
    ensures prefix as nat <= 128
    ensures Agree6(a, b, prefix) <==> SameTopBits128(a, b, prefix as nat)
  {
    if Agree6(a, b, prefix) {
      forall s: nat, i: bv8 | s < 8 && i < 16 && Position(s, i) < prefix as nat
        ensures Bit16(a[s], i) <==> Bit16(b[s], i)
      {
        SegmentsGiveTopBits(a, b, prefix, s, i);
      }
    }
    if SameTopBits128(a, b, prefix as nat) {
      forall s | 0 <= s < FullSegments(prefix)
        ensures a[s] == b[s]
      {
        TopBitsGiveFull(a, b, prefix, s);
      }
      if prefix % 16 > 0 && FullSegments(prefix) < 8 {
        TopBitsGivePartial(a, b, prefix);
      }
    }
  }

  // ----- addresses that agree so far and no further

  lemma FlipBit32(x: bv32, p: bv8, i: bv8)
    requires p < 32 && i < 32
    ensures Bit32(x ^ (0x8000_0000 >> p), i) <==> (Bit32(x, i) != (i == p))
  {
  }

  lemma FlipBit16(x: bv16, p: bv8, i: bv8)
    requires p < 16 && i < 16
    ensures Bit16(x ^ (0x8000 >> p), i) <==> (Bit16(x, i) != (i == p))
  {
  }

  ghost predicate Flipped32(a: bv32, y: bv32, p: bv8) {
    forall i: bv8 :: i < 32 ==> (Bit32(y, i) <==> (Bit32(a, i) != (i == p)))
  }

  lemma FlippedAgree32(a: bv32, y: bv32, p: bv8)
    requires p <= 32 && Flipped32(a, y, p)
    ensures SameTopBits32(a, y, p)
  {
  }

  lemma FlippedDiffer32(a: bv32, y: bv32, p: bv8, q: bv8)
    requires p < q <= 32 && Flipped32(a, y, p)
    ensures !SameTopBits32(a, y, q)
  {
    assert Bit32(y, p) != Bit32(a, p);
  }

  lemma Flip32(a: bv32, p: bv8) returns (y: bv32)
    requires p < 32
    ensures Flipped32(a, y, p)
  {
    y := a ^ (0x8000_0000 >> p);
    forall i: bv8 | i < 32
      ensures Bit32(y, i) <==> (Bit32(a, i) != (i == p))
    {
      FlipBit32(a, p, i);
    }
  }

  /** For two different prefixes some address agrees on the shorter and not on the longer. */
  lemma Apart4(a: bv32, p: bv8, q: bv8) returns (y: bv32)
    requires 0 < p < q <= 32
    ensures Agree4(a, y, p) && !Agree4(a, y, q)
  {
    y := Flip32(a, p);
    FlippedAgree32(a, y, p);
    FlippedDiffer32(a, y, p, q);
    Agree4IsTopBits(a, y, p);
    Agree4IsTopBits(a, y, q);
  }

  lemma Flip16(a: bv16, p: bv8) returns (y: bv16)
    requires p < 16
    ensures forall i: bv8 :: i < 16 ==> (Bit16(y, i) <==> (Bit16(a, i) != (i == p)))
  {
    y := a ^ (0x8000 >> p);
    forall i: bv8 | i < 16
      ensures Bit16(y, i) <==> (Bit16(a, i) != (i == p))
    {
      FlipBit16(a, p, i);
    }
  }

  lemma FlippedAgree128(a: Segments, y: Segments, s: nat, i: bv8, p: nat, q: nat)
    requires s < 8 && i < 16 && p == Position(s, i) < q <= 128
    requires forall t :: 0 <= t < 8 && t != s ==> y[t] == a[t]
    requires forall j: bv8 :: j < 16 ==> (Bit16(y[s], j) <==> (Bit16(a[s], j) != (j == i)))
    ensures SameTopBits128(a, y, p) && !SameTopBits128(a, y, q)
  {
    forall t: nat, j: bv8 | t < 8 && j < 16 && Position(t, j) < p
      ensures Bit16(a[t], j) <==> Bit16(y[t], j)
    {
      assert t == s ==> j as nat < i as nat;
    }
    assert Bit16(y[s], i) != Bit16(a[s], i);
  }

  lemma PositionOfPrefix(p: bv8)
    requires p < 128
    ensures FullSegments(p) < 8 && p % 16 < 16 && Position(FullSegments(p), p % 16) == p as nat
  {
  }

  lemma PrefixOrder(p: bv8, q: bv8)
    requires p < q <= 128
    ensures p as nat < q as nat <= 128
  {
  }

  lemma AgreeByBits(a: Segments, y: Segments, p: bv8, q: bv8)
    requires p <= 128 && q <= 128
    requires SameTopBits128(a, y, p as nat) && !SameTopBits128(a, y, q as nat)
    ensures Agree6(a, y, p) && !Agree6(a, y, q)
  {
    Agree6IsTopBits(a, y, p);
    Agree6IsTopBits(a, y, q);
  }

  lemma FlipSegment(a: Segments, s: nat, i: bv8, p: nat, q: nat) returns (y: Segments)
    requires s < 8 && i < 16 && p == Position(s, i) < q <= 128
    ensures SameTopBits128(a, y, p) && !SameTopBits128(a, y, q)
  {
    var x := Flip16(a[s], i);
    y := a[s := x];
    FlippedAgree128(a, y, s, i, p, q);
  }

  lemma Apart6(a: Segments, p: bv8, q: bv8) returns (y: Segments)
    requires p < q <= 128
    ensures Agree6(a, y, p) && !Agree6(a, y, q)
  {
    PositionOfPrefix(p);
    PrefixOrder(p, q);
    y := FlipSegment(a, FullSegments(p), p % 16, p as nat, q as nat);
    AgreeByBits(a, y, p, q);
  }
}
