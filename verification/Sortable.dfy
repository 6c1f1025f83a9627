/**
 * Order-preserving byte encodings of 64-bit floats and integers.
 */
module Sortable {
  import opened Arith
  import opened ByteStrings

  // A float is its bit pattern; its numeric value is read off the pattern, in units of the least
  // subnormal.

  const SIGN: nat := 0x8000_0000_0000_0000
  const TWO64: nat := 0x1_0000_0000_0000_0000
  const INF: nat := 0x7FF0_0000_0000_0000
  const HIDDEN_BIT: nat := 0x10_0000_0000_0000 // the significand's implicit leading bit

  type F64 = x: nat | x < TWO64

  type I64 = x: int | -0x8000_0000_0000_0000 <= x < 0x8000_0000_0000_0000

  const POS_ZERO: F64 := 0
  const NEG_ZERO: F64 := SIGN
  const NEG_INF: F64 := SIGN + INF

  // ---- the value of a bit pattern -----------------------------------------------------

  function Mag(x: F64): nat { if x < SIGN then x else x - SIGN }

  predicate IsNan(x: F64) { Mag(x) > INF }

  /** The magnitude's value in units of 2^-1074: subnormals count up, then each exponent doubles the step.
      Infinity comes out above every finite value. */
  function Scaled(mag: nat): nat {
    var e: nat, m: nat := mag / HIDDEN_BIT, mag % HIDDEN_BIT;
    if e == 0 then m else Times(Significand(m), Pow2(e - 1))
  }

  function Significand(m: nat): nat { HIDDEN_BIT + m }

  function Val(x: F64): int {
    var v: int := Scaled(Mag(x));
    if x < SIGN then v else -v
  }

  /** IEEE comparisons: false whenever a side is not a number. */
  predicate FloatLt(x: F64, y: F64) { !IsNan(x) && !IsNan(y) && Val(x) < Val(y) }

  predicate FloatLe(x: F64, y: F64) { !IsNan(x) && !IsNan(y) && Val(x) <= Val(y) }

  lemma ScaledNext(mag: nat)
    ensures Scaled(mag) < Scaled(mag + 1)
  {
    var e, m := mag / HIDDEN_BIT, mag % HIDDEN_BIT;
    if m + 1 < HIDDEN_BIT {
      assert (mag + 1) / HIDDEN_BIT == e && (mag + 1) % HIDDEN_BIT == m + 1;
      if e > 0 {
        StepUp(Significand(m), Pow2(e - 1));
      }
    } else {
      assert (mag + 1) / HIDDEN_BIT == e + 1 && (mag + 1) % HIDDEN_BIT == 0;
      if e > 0 {
        StepUp(Significand(m), Pow2(e - 1));
        assert Pow2(e) == 2 * Pow2(e - 1);
        Doubled(HIDDEN_BIT, Pow2(e - 1));
      }
    }
  }

  lemma StepUp(a: nat, p: nat)
    requires p > 0
    ensures a * p < (a + 1) * p
  {
    assert (a + 1) * p == a * p + p;
  }

  lemma Doubled(a: nat, p: nat)
    ensures (a + a) * p == a * (2 * p)
  {
  }

  /** Magnitudes order as their bit patterns. */
  lemma {:induction false} ScaledMono(a: nat, b: nat)
    requires a < b
    ensures Scaled(a) < Scaled(b)
    decreases b
  {
    hide Scaled;
    ScaledNext(b - 1);
    if a < b - 1 {
      ScaledMono(a, b - 1);
    }
  }

  // ---- floats ----------------------------------------------------------------------------

  /** Negative values invert all bits, the others set the sign bit. */
  function Mapped(x: F64): F64 { if x >= SIGN then TWO64 - 1 - x else x + SIGN }

  function Unmapped(y: F64): F64 { if y >= SIGN then y - SIGN else TWO64 - 1 - y }

  lemma EightBytes()
    ensures Pow256(8) == TWO64
  {
    assert Pow256(4) == 0x1_0000_0000;
    assert Pow256(6) == 0x1_0000_0000_0000;
  }

  function EncodeF64(x: F64): (b: Bytes)
    ensures |b| == 8
  {
    Be(Mapped(x), 8)
  }

  function DecodeF64(b: Bytes): F64
    requires |b| == 8
  {
    FromBeBound(b);
    EightBytes();
    Unmapped(FromBe(b))
  }

  lemma DecodeInverse(x: F64)
    ensures DecodeF64(EncodeF64(x)) == x
  {
    EightBytes();
    BeInverse(Mapped(x), 8);
  }

  lemma EncodeInverse(b: Bytes)
    requires |b| == 8
    ensures EncodeF64(DecodeF64(b)) == b
  {
    EightBytes();
    FromBeBound(b);
    BeOfFromBe(b);
  }

  /** The mapped patterns order as the values do, and tell the two zeros apart. */
  lemma MappedOrder(x: F64, y: F64)
    ensures Val(x) < Val(y) ==> Mapped(x) < Mapped(y)
    ensures Mapped(x) <= Mapped(y) ==> Val(x) <= Val(y)
    ensures Val(x) == Val(y) <==> x == y || (Mag(x) == 0 && Mag(y) == 0)
  {
    assert Scaled(0) == 0;
    var a, b := Mag(x), Mag(y);
    if a < b { ScaledMono(a, b); }
    if b < a { ScaledMono(b, a); }
    if 0 < a { ScaledMono(0, a); }
    if 0 < b { ScaledMono(0, b); }
  }

  /** Byte order is numeric order. */
  lemma EncodeOrder(x: F64, y: F64)
    ensures LexLe(EncodeF64(x), EncodeF64(y)) <==> Mapped(x) <= Mapped(y)
    ensures Val(x) < Val(y) ==> LexLt(EncodeF64(x), EncodeF64(y))
    ensures LexLe(EncodeF64(x), EncodeF64(y)) ==> Val(x) <= Val(y)
  {
    EightBytes();
    BeOrder(Mapped(x), Mapped(y), 8);
    BeOrder(Mapped(y), Mapped(x), 8);
    MappedOrder(x, y);
    if EncodeF64(x) == EncodeF64(y) {
      LexRefl(EncodeF64(x));
    }
  }

  // ---- integers --------------------------------------------------------------------------

  /** The sign bit flipped. */
  function MappedInt(x: I64): F64 { x + 0x8000_0000_0000_0000 }

  function UnmappedInt(y: F64): I64 { y - 0x8000_0000_0000_0000 }

  function EncodeI64(x: I64): (b: Bytes)
    ensures |b| == 8
  {
    Be(MappedInt(x), 8)
  }

  function DecodeI64(b: Bytes): I64
    requires |b| == 8
  {
    FromBeBound(b);
    EightBytes();
    UnmappedInt(FromBe(b))
  }

  lemma IntDecodeInverse(x: I64)
    ensures DecodeI64(EncodeI64(x)) == x
  {
    EightBytes();
    BeInverse(MappedInt(x), 8);
  }

  lemma IntEncodeOrder(x: I64, y: I64)
    ensures LexLe(EncodeI64(x), EncodeI64(y)) <==> x <= y
  {
    EightBytes();
    BeOrder(MappedInt(x), MappedInt(y), 8);
  }
}
