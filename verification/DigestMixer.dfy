/** Arithmetic of one digest lane: xor, odd multiplication modulo 2^64, xor-shift. */
module DigestMixer {
  import opened Basics
  import opened DigestEncoding

  const MULTIPLIER: nat := 0x0100_0000_01b3

  /** Inverse of the multiplier modulo 2^64. */
  const UNMULTIPLIER: nat := 0xce96_5057_aff6_957b

  const SEED: seq<nat> :=
    [0xcbf2_9ce4_8422_2325, 0x8422_2325_cbf2_9ce4, 0x9e37_79b1_85eb_ca87, 0xc2b2_ae3d_27d4_eb4f]

  /** Bitwise exclusive or of two unbounded words. */
  function Xor(a: nat, b: nat): nat
    decreases a + b
  {
    if a == 0 && b == 0 then 0 else (if a % 2 == b % 2 then 0 else 1) + 2 * Xor(a / 2, b / 2)
  }

  /** Logical right shift. */
  function ShiftRight(a: nat, count: nat): nat
    decreases count
  {
    if count == 0 then a else ShiftRight(a / 2, count - 1)
  }

  function Multiply(a: nat): nat { (a * MULTIPLIER) % U64_COUNT }

  function Unmultiply(a: nat): nat { (a * UNMULTIPLIER) % U64_COUNT }

  /** `lane ^= lane >> 32`. */
  function FoldHigh(a: nat): nat { Xor(a, ShiftRight(a, 32)) }

  /** The addend of lane `index`: the byte plus `index << 8`. */
  function Addend(value: Byte, index: nat): nat { value as int + 256 * index }

  function MixLane(lane: nat, value: Byte, index: nat): nat {
    FoldHigh(Multiply(Xor(lane, Addend(value, index))))
  }

  /** The reverse of `MixLane` for a known byte. */
  function UnmixLane(lane: nat, value: Byte, index: nat): nat {
    Xor(Unmultiply(FoldHigh(lane)), Addend(value, index))
  }

  function Mix(lanes: seq<nat>, value: Byte): (mixed: seq<nat>)
    ensures |mixed| == |lanes|
  {
    seq(|lanes|, i requires 0 <= i < |lanes| => MixLane(lanes[i], value, i))
  }

  /** State of the lanes after absorbing a whole stream. */
  function Absorb(lanes: seq<nat>, bytes: Bytes): (after: seq<nat>)
    ensures |after| == |lanes|
    decreases |bytes|
  {
    if bytes == [] then lanes else Absorb(Mix(lanes, bytes[0]), bytes[1..])
  }

  /** Four lanes, each a 64-bit word. */
  predicate Words64(lanes: seq<nat>) {
    |lanes| == 4 && forall i | 0 <= i < 4 :: lanes[i] < U64_COUNT
  }

  function Finish(lanes: seq<nat>): Bytes
    requires |lanes| == 4
  {
    U64(lanes[0]) + (U64(lanes[1]) + (U64(lanes[2]) + U64(lanes[3])))
  }

  // ---- Exclusive or and shifts ---------------------------------------------

  lemma {:induction false} XorCancels(a: nat, b: nat)
    ensures Xor(Xor(a, b), b) == a
    decreases a + b
  {
    if a != 0 || b != 0 {
      XorCancels(a / 2, b / 2);
      XorHalves(a, b);
      XorHalves(Xor(a, b), b);
    }
  }

  /** Low bit and remaining bits of an exclusive or. */
  lemma XorHalves(a: nat, b: nat)
    ensures Xor(a, b) % 2 == (if a % 2 == b % 2 then 0 else 1)
    ensures Xor(a, b) / 2 == Xor(a / 2, b / 2)
  {
  }

  lemma {:induction false} XorCommutes(a: nat, b: nat)
    ensures Xor(a, b) == Xor(b, a)
    decreases a + b
  {
    if a != 0 || b != 0 {
      XorCommutes(a / 2, b / 2);
    }
  }

  lemma {:induction false} XorZero(a: nat)
    ensures Xor(a, 0) == a
    decreases a
  {
    if a != 0 {
      XorZero(a / 2);
    }
  }

  function Power2(bits: nat): (power: nat)
    ensures power > 0
  {
    if bits == 0 then 1 else 2 * Power2(bits - 1)
  }

  lemma {:induction false} XorBounded(a: nat, b: nat, bits: nat)
    requires a < Power2(bits) && b < Power2(bits)
    ensures Xor(a, b) < Power2(bits)
    decreases bits
  {
    if bits != 0 {
      XorBounded(a / 2, b / 2, bits - 1);
    }
  }

  lemma {:induction false} ShiftXor(a: nat, b: nat, count: nat)
    ensures ShiftRight(Xor(a, b), count) == Xor(ShiftRight(a, count), ShiftRight(b, count))
    decreases count
  {
    if count != 0 {
      XorHalves(a, b);
      ShiftXor(a / 2, b / 2, count - 1);
    }
  }

  lemma {:induction false} ShiftAdds(a: nat, first: nat, second: nat)
    ensures ShiftRight(ShiftRight(a, first), second) == ShiftRight(a, first + second)
    decreases first
  {
    if first != 0 {
      ShiftAdds(a / 2, first - 1, second);
    }
  }

  lemma {:induction false} ShiftsOut(a: nat, bits: nat)
    requires a < Power2(bits)
    ensures ShiftRight(a, bits) == 0
    decreases bits
  {
    if bits != 0 {
      ShiftsOut(a / 2, bits - 1);
    }
  }

  lemma {:induction false} ShiftShrinks(a: nat, count: nat)
    ensures ShiftRight(a, count) <= a
    decreases count
  {
    if count != 0 {
      ShiftShrinks(a / 2, count - 1);
    }
  }

  lemma WordBits()
    ensures Power2(64) == U64_COUNT
  {
    assert Power2(8) == 256;
    assert Power2(16) == 0x1_0000;
    assert Power2(24) == 0x100_0000;
    assert Power2(32) == 0x1_0000_0000;
    assert Power2(40) == 0x100_0000_0000;
    assert Power2(48) == 0x1_0000_0000_0000;
    assert Power2(56) == 0x100_0000_0000_0000;
  }

  lemma FoldHighSelfInverse(a: nat)
    requires a < U64_COUNT
    ensures FoldHigh(FoldHigh(a)) == a && FoldHigh(a) < U64_COUNT
  {
    var high := ShiftRight(a, 32);
    ShiftXor(a, high, 32);
    ShiftAdds(a, 32, 32);
    WordBits();
    ShiftsOut(a, 64);
    XorZero(high);
    XorCancels(a, high);
    ShiftShrinks(a, 32);
    XorBounded(a, high, 64);
  }

  // ---- Multiplication by an odd constant -----------------------------------

  lemma ProductInverts(a: nat, factor: nat, inverse: nat, quotient: nat)
    requires a < U64_COUNT && factor * inverse == 1 + quotient * U64_COUNT
    ensures (((a * factor) % U64_COUNT) * inverse) % U64_COUNT == a
  {
    var q, r := (a * factor) / U64_COUNT, (a * factor) % U64_COUNT;
    assert a * factor == q * U64_COUNT + r;
    calc {
      r * inverse;
      (a * factor - q * U64_COUNT) * inverse;
      a * (factor * inverse) - q * U64_COUNT * inverse;
      a + U64_COUNT * (quotient * a - q * inverse);
    }
    RemainderUnique(r * inverse, a, quotient * a - q * inverse);
  }

  lemma RemainderUnique(value: nat, remainder: nat, quotient: int)
    requires remainder < U64_COUNT && value == remainder + U64_COUNT * quotient
    ensures value % U64_COUNT == remainder
  {
  }

  lemma MultiplyInverts(a: nat)
    requires a < U64_COUNT
    ensures Unmultiply(Multiply(a)) == a && Multiply(Unmultiply(a)) == a
  {
    var k := (MULTIPLIER * UNMULTIPLIER) / U64_COUNT;
    assert MULTIPLIER * UNMULTIPLIER == 1 + k * U64_COUNT;
    ProductInverts(a, MULTIPLIER, UNMULTIPLIER, k);
    ProductInverts(a, UNMULTIPLIER, MULTIPLIER, k);
  }

  // ---- The lane step -------------------------------------------------------

  /**
   * For a fixed byte the lane step is a permutation of the 64-bit words: `UnmixLane` is its
   * two-sided inverse and both stay inside the word.
   */
  lemma MixLanePermutes(lane: nat, value: Byte, index: nat)
    requires lane < U64_COUNT && index < 4
    ensures MixLane(lane, value, index) < U64_COUNT
    ensures UnmixLane(MixLane(lane, value, index), value, index) == lane
    ensures UnmixLane(lane, value, index) < U64_COUNT
    ensures MixLane(UnmixLane(lane, value, index), value, index) == lane
  {
    var addend := Addend(value, index);
    WordBits();
    XorBounded(lane, addend, 64);
    MultiplyInverts(Xor(lane, addend));
    FoldHighSelfInverse(Multiply(Xor(lane, addend)));
    XorCancels(lane, addend);
    FoldHighSelfInverse(lane);
    MultiplyInverts(FoldHigh(lane));
    XorBounded(Unmultiply(FoldHigh(lane)), addend, 64);
    XorCancels(Unmultiply(FoldHigh(lane)), addend);
  }

  /** For a fixed lane the step is injective in the byte. */
  lemma MixLaneSeparatesBytes(lane: nat, a: Byte, b: Byte, index: nat)
    requires lane < U64_COUNT && index < 4 && MixLane(lane, a, index) == MixLane(lane, b, index)
    ensures a == b
  {
    var x, y := Addend(a, index), Addend(b, index);
    WordBits();
    XorBounded(lane, x, 64);
    XorBounded(lane, y, 64);
    FoldHighSelfInverse(Multiply(Xor(lane, x)));
    FoldHighSelfInverse(Multiply(Xor(lane, y)));
    MultiplyInverts(Xor(lane, x));
    MultiplyInverts(Xor(lane, y));
    XorCommutes(lane, x);
    XorCommutes(lane, y);
    XorCancels(x, lane);
    XorCancels(y, lane);
  }

  // ---- Whole streams -------------------------------------------------------

  lemma {:induction false} AbsorbConcat(lanes: seq<nat>, first: Bytes, second: Bytes)
    ensures Absorb(lanes, first + second) == Absorb(Absorb(lanes, first), second)
    decreases |first|
  {
    if first == [] {
      assert first + second == second;
    } else {
      assert (first + second)[1..] == first[1..] + second;
      AbsorbConcat(Mix(lanes, first[0]), first[1..], second);
    }
  }

  lemma MixKeepsWords(lanes: seq<nat>, value: Byte)
    requires Words64(lanes)
    ensures Words64(Mix(lanes, value))
  {
    forall i | 0 <= i < 4 ensures Mix(lanes, value)[i] < U64_COUNT {
      MixLanePermutes(lanes[i], value, i);
    }
  }

  lemma {:induction false} AbsorbKeepsWords(lanes: seq<nat>, bytes: Bytes)
    requires Words64(lanes)
    ensures Words64(Absorb(lanes, bytes))
    decreases |bytes|
  {
    if bytes != [] {
      MixKeepsWords(lanes, bytes[0]);
      AbsorbKeepsWords(Mix(lanes, bytes[0]), bytes[1..]);
    }
  }

  /** Absorbing a common suffix, however long, never merges two states that differ in some lane. */
  lemma {:induction false} CommonSuffixSeparates(a: seq<nat>, b: seq<nat>, suffix: Bytes, lane: nat)
    requires Words64(a) && Words64(b) && lane < 4 && a[lane] != b[lane]
    ensures Absorb(a, suffix)[lane] != Absorb(b, suffix)[lane]
    decreases |suffix|
  {
    if suffix != [] {
      MixLanePermutes(a[lane], suffix[0], lane);
      MixLanePermutes(b[lane], suffix[0], lane);
      MixKeepsWords(a, suffix[0]);
      MixKeepsWords(b, suffix[0]);
      CommonSuffixSeparates(Mix(a, suffix[0]), Mix(b, suffix[0]), suffix[1..], lane);
    }
  }

  /** Two streams that differ in exactly one byte end in digests that differ in every lane. */
  lemma OneByteChangeShows(prefix: Bytes, a: Byte, b: Byte, suffix: Bytes, lane: nat)
    requires a != b && lane < 4
    ensures Absorb(SEED, prefix + [a] + suffix)[lane] != Absorb(SEED, prefix + [b] + suffix)[lane]
    ensures Finish(Absorb(SEED, prefix + [a] + suffix)) != Finish(Absorb(SEED, prefix + [b] + suffix))
  {
    var state := Absorb(SEED, prefix);
    AbsorbKeepsWords(SEED, prefix);
    var x, y := Mix(state, a), Mix(state, b);
    MixKeepsWords(state, a);
    MixKeepsWords(state, b);
    if x[lane] == y[lane] {
      MixLaneSeparatesBytes(state[lane], a, b, lane);
    }
    CommonSuffixSeparates(x, y, suffix, lane);
    OneByteThen(prefix, a, suffix);
    OneByteThen(prefix, b, suffix);
    AbsorbKeepsWords(x, suffix);
    AbsorbKeepsWords(y, suffix);
    if Finish(Absorb(x, suffix)) == Finish(Absorb(y, suffix)) {
      FinishInjective(Absorb(x, suffix), Absorb(y, suffix));
    }
  }

  lemma OneByteThen(prefix: Bytes, value: Byte, suffix: Bytes)
    ensures Absorb(SEED, prefix + [value] + suffix) == Absorb(Mix(Absorb(SEED, prefix), value), suffix)
  {
    AbsorbConcat(SEED, prefix + [value], suffix);
    AbsorbConcat(SEED, prefix, [value]);
    var state := Absorb(SEED, prefix);
    assert Absorb(state, [value]) == Absorb(Mix(state, value), []);
  }

  lemma FinishInjective(a: seq<nat>, b: seq<nat>)
    requires Words64(a) && Words64(b) && Finish(a) == Finish(b)
    ensures a == b
  {
    U64Reads(a[0], b[0], U64(a[1]) + (U64(a[2]) + U64(a[3])), U64(b[1]) + (U64(b[2]) + U64(b[3])));
    U64Reads(a[1], b[1], U64(a[2]) + U64(a[3]), U64(b[2]) + U64(b[3]));
    U64Reads(a[2], b[2], U64(a[3]), U64(b[3]));
    assert U64(a[3]) + [] == U64(a[3]) && U64(b[3]) + [] == U64(b[3]);
    U64Reads(a[3], b[3], [], []);
  }
}
