/**
 * The 128-bit two's-complement integer as a value: a `BigInt` is 16 bytes,
 * little-endian, byte 15 holding the sign bit. Every operation of the
 * library is specified here as a function of its inputs' values, and the
 * laws the library promises are proved about these functions.
 */
module Int128 {
  import opened Arith
  import opened LittleEndian

  /** sizeof(BigInt) */
  const Size: nat := 16

  /** `unsigned char[16]`, byte 0 least significant. */
  type BigInt = s: seq<byte> | |s| == Size witness Fill(Size, 0)

  /** The width in bits. */
  const Bits: nat := 8 * Size

  /** 2^128: every operation wraps around modulo this. */
  const Modulus: int := 0x1_0000_0000_0000_0000_0000_0000_0000_0000

  /** 2^127: the weight of bit 7 of byte 15, the sign bit. */
  const SignWeight: int := 0x8000_0000_0000_0000_0000_0000_0000_0000

  /** A 64-bit `long` (the LP64 data model: sizeof(long) == 8). */
  type Long = x: int | -0x8000_0000_0000_0000 <= x < 0x8000_0000_0000_0000

  /** sizeof(long) */
  const LongBytes: nat := 8

  /** Bit 7 of byte 15 is set. */
  predicate IsNegative(a: BigInt) {
    a[Size - 1] >= 128
  }

  /** The byte an arithmetic shift brings in from the top: the sign, replicated. */
  function SignFill(a: BigInt): (f: byte)
    ensures f == 0xFF <==> IsNegative(a)
    ensures f == 0x00 <==> !IsNegative(a)
  {
    if IsNegative(a) then 0xFF else 0x00
  }

  /** All sixteen bytes zero. */
  function Zero(): (z: BigInt)
    ensures Value(z) == 0
  {
    ValueOfZeros(Size);
    Fill(Size, 0)
  }

  lemma ModulusIsPow256()
    ensures Modulus == Pow256(Size)
    ensures SignWeight == 128 * Pow256(Size - 1)
  {
    assert Pow256(7) == 0x100_0000_0000_0000;
    assert Pow256(8) == 0x1_0000_0000_0000_0000;
    Pow256Add(8, 7);
    Pow256Add(8, 8);
  }

  /** Sixteen bytes hold a value below 2^128. */
  lemma ValueBelowModulus(a: BigInt)
    ensures Value(a) < Modulus
  {
    ValueBound(a);
    ModulusIsPow256();
  }

  lemma ModulusIsTwiceSignWeight()
    ensures Modulus == 2 * SignWeight
  {
  }

  lemma ModulusIsPow2()
    ensures Modulus == Pow2(Bits)
  {
    ModulusIsPow256();
    Pow256IsPow2(Size);
  }

  /** The sign bit is set exactly when the unsigned value reaches 2^127. */
  lemma SignBit(a: BigInt)
    ensures IsNegative(a) <==> Value(a) >= SignWeight
  {
    ValueBelowModulus(a);
    ModulusIsPow256();
    ValueSplit(a, Size - 1);
    assert a[Size - 1..] == [a[Size - 1]];
    ValueOfOne(a[Size - 1]);
    DivLowerBound(Value(a), Pow256(Size - 1), 128);
  }

  /** The two's-complement reading of a BigInt. */
  function Signed(a: BigInt): (v: int)
    ensures -SignWeight <= v < SignWeight
    ensures v < 0 <==> IsNegative(a)
  {
    ValueBelowModulus(a);
    SignBit(a);
    if IsNegative(a) then Value(a) - Modulus else Value(a)
  }

  /** The unsigned and the signed reading agree modulo 2^128. */
  lemma ValueIsSignedMod(a: BigInt)
    ensures Value(a) == Signed(a) % Modulus
  {
    if IsNegative(a) {
      DivModUnique(Signed(a), Modulus, -1, Value(a));
    } else {
      DivModUnique(Signed(a), Modulus, 0, Value(a));
    }
  }

  /** The 16 bytes of x modulo 2^128; for negative x, its two's complement. */
  function FromValue(x: int): (r: BigInt)
    ensures Value(r) == x % Modulus
  {
    ModulusIsPow256();
    ValueOfEncode(x % Modulus, Size);
    DivModUnique(x % Modulus, Modulus, 0, x % Modulus);
    Encode(x % Modulus, Size)
  }

  /** A value below 2^128 is stored as it is. */
  lemma ValueOfFromValue(x: int)
    requires 0 <= x < Modulus
    ensures Value(FromValue(x)) == x
  {
    DivModUnique(x, Modulus, 0, x);
  }

  /** Arguments equal modulo 2^128 are stored alike. */
  lemma FromValueEquiv(x: int, y: int)
    requires x % Modulus == y % Modulus
    ensures FromValue(x) == FromValue(y)
  {
    ValueInjective(FromValue(x), FromValue(y));
  }

  /** FromValue only looks at its argument modulo 2^128. */
  lemma FromValueCongruent(x: int, k: int)
    ensures FromValue(x + k * Modulus) == FromValue(x)
  {
    ModAddMultiple(x, k, Modulus);
  }

  /** FromValue respects addition, multiplication and negation modulo 2^128. */
  lemma FromValueAdd(x: int, y: int, x2: int, y2: int)
    requires FromValue(x) == FromValue(x2) && FromValue(y) == FromValue(y2)
    ensures FromValue(x + y) == FromValue(x2 + y2)
  {
    ModCongruentAdd(x, y, x2, y2, Modulus);
    ValueInjective(FromValue(x + y), FromValue(x2 + y2));
  }

  lemma FromValueMul(x: int, y: int, x2: int, y2: int)
    requires FromValue(x) == FromValue(x2) && FromValue(y) == FromValue(y2)
    ensures FromValue(x * y) == FromValue(x2 * y2)
  {
    ModCongruentMul(x, y, x2, y2, Modulus);
    ValueInjective(FromValue(x * y), FromValue(x2 * y2));
  }

  lemma FromValueNeg(x: int, x2: int)
    requires FromValue(x) == FromValue(x2)
    ensures FromValue(-x) == FromValue(-x2)
  {
    ModCongruentNeg(x, x2, Modulus);
    ValueInjective(FromValue(-x), FromValue(-x2));
  }

  /** Every multiple of 2^128 is stored as zero. */
  lemma FromValueOfMultiple(k: int)
    ensures FromValue(k * Modulus) == Zero()
  {
    var m: int := Modulus;
    ModAddMultiple(0, k, m);
    DivModUnique(0, m, 0, 0);
    ValueInjective(FromValue(k * m), Zero());
  }

  lemma FromValueOfValue(a: BigInt)
    ensures FromValue(Value(a)) == a
  {
    ValueBelowModulus(a);
    ValueOfFromValue(Value(a));
    ValueInjective(FromValue(Value(a)), a);
  }

  lemma FromValueOfSigned(a: BigInt)
    ensures FromValue(Signed(a)) == a
  {
    ValueIsSignedMod(a);
    ValueInjective(FromValue(Signed(a)), a);
  }

  /** Every integer in [-2^127, 2^127) survives the trip through 16 bytes. */
  lemma SignedOfFromValue(x: int)
    requires -SignWeight <= x < SignWeight
    ensures Signed(FromValue(x)) == x
  {
    var r := FromValue(x);
    SignBit(r);
    if x >= 0 {
      DivModUnique(x, Modulus, 0, x);
    } else {
      DivModUnique(x, Modulus, -1, x + Modulus);
    }
  }

  // ---------------------------------------------------------------------
  // The operations, as functions of their inputs
  // ---------------------------------------------------------------------

  /** big_val: the `long` v, sign-extended to 128 bits. */
  function FromLong(v: Long): (r: BigInt)
    ensures Signed(r) == v
    ensures Value(r) == v % Modulus
    ensures forall i :: LongBytes <= i < Size ==> r[i] == if v < 0 then 0xFF else 0x00
  {
    LongFitsSigned(v);
    SignedOfFromValue(v);
    SignExtension(v);
    FromValue(v)
  }

  lemma LongFitsSigned(v: Long)
    ensures -SignWeight <= v < SignWeight
    ensures Pow256(LongBytes) == 0x1_0000_0000_0000_0000
    ensures -(Pow256(LongBytes) as int) <= v < Pow256(LongBytes)
  {
    assert 0x8000_0000_0000_0000 == 128 * Pow256(7);
    assert Pow256(LongBytes) == 0x1_0000_0000_0000_0000;
    Pow256Add(7, 8);
  }

  /** The high eight bytes of a sign-extended `long` are all 0x00 or all 0xFF. */
  lemma SignExtension(v: Long)
    ensures forall i :: LongBytes <= i < Size ==> FromValue(v)[i] == if v < 0 then 0xFF else 0x00
  {
    var r := FromValue(v);
    var p := Pow256(LongBytes);
    var fill: byte := if v < 0 then 0xFF else 0x00;
    LongFitsSigned(v);
    Pow256Add(LongBytes, LongBytes);
    HighHalf(v, p);
    ValueSplit(r, LongBytes);
    if v < 0 {
      ValueOfOnes(LongBytes);
    } else {
      ValueOfZeros(LongBytes);
    }
    ValueInjective(r[LongBytes..], Fill(LongBytes, fill));
    forall i | LongBytes <= i < Size
      ensures r[i] == fill
    {
      assert r[i] == r[LongBytes..][i - LongBytes];
    }
  }

  /** The upper half of a two-digit (base p) two's-complement number. */
  lemma HighHalf(v: int, p: int)
    requires 0 < p && -p <= v < p
    ensures (v % (p * p)) / p == if v < 0 then p - 1 else 0
  {
    MulMonotone(p, 1, p);
    if v < 0 {
      DivModUnique(v, p * p, -1, v + p * p);
      DivModUnique(v + p * p, p, p - 1, v + p);
    } else {
      DivModUnique(v, p * p, 0, v);
      DivModUnique(v, p, 0, v);
    }
  }

  /** big_comp2: -a modulo 2^128. */
  function Negated(a: BigInt): (r: BigInt)
    ensures Value(r) == (Modulus - Value(a)) % Modulus
  {
    ModAddMultiple(-(Value(a) as int), 1, Modulus);
    FromValue(-(Value(a) as int))
  }

  /** big_sum: a + b modulo 2^128. */
  function Plus(a: BigInt, b: BigInt): (r: BigInt)
    ensures Value(r) == (Value(a) + Value(b)) % Modulus
  {
    FromValue(Value(a) + Value(b))
  }

  /** big_sub: a - b modulo 2^128. */
  function Minus(a: BigInt, b: BigInt): (r: BigInt)
    ensures Value(r) == (Value(a) - Value(b)) % Modulus
  {
    FromValue(Value(a) - Value(b))
  }

  /** big_mul: a * b modulo 2^128. */
  function Times(a: BigInt, b: BigInt): (r: BigInt)
    ensures Value(r) == (Value(a) * Value(b)) % Modulus
  {
    FromValue(Value(a) * Value(b))
  }

  /** big_shl: a logical shift left by n bits; a count n <= 0 leaves a as it is. */
  function ShiftedLeft(a: BigInt, n: int): (r: BigInt)
    ensures n <= 0 ==> r == a
    ensures n > 0 ==> Value(r) == Value(a) * Pow2(n) % Modulus
  {
    if n <= 0 then a else FromValue(Value(a) * Pow2(n))
  }

  /** big_shr: a logical shift right by n bits; a count n <= 0 leaves a as it is. */
  function ShiftedRight(a: BigInt, n: int): (r: BigInt)
    ensures n <= 0 ==> r == a
    ensures n > 0 ==> Value(r) == Value(a) / Pow2(n)
  {
    if n <= 0 then a
    else
      ValueBelowModulus(a);
      DivStaysInRange(Value(a), Pow2(n), 0, Modulus);
      ValueOfFromValue(Value(a) / Pow2(n));
      FromValue(Value(a) / Pow2(n))
  }

  /** big_sar: an arithmetic shift right by n bits (floor division of the signed value). */
  function ShiftedRightArith(a: BigInt, n: int): (r: BigInt)
    ensures n <= 0 ==> r == a
    ensures n > 0 ==> Signed(r) == Signed(a) / Pow2(n)
  {
    if n <= 0 then a
    else
      DivStaysInRange(Signed(a), Pow2(n), -SignWeight, SignWeight);
      SignedOfFromValue(Signed(a) / Pow2(n));
      FromValue(Signed(a) / Pow2(n))
  }

  // ---------------------------------------------------------------------
  // Negation, addition and subtraction
  // ---------------------------------------------------------------------

  lemma FromValueOfZero(x: int)
    requires x == 0
    ensures FromValue(x) == Zero()
  {
    ValueOfFromValue(x);
    ValueInjective(FromValue(x), Zero());
  }

  /** comp2(comp2(a)) == a */
  lemma NegatedInvolutive(a: BigInt)
    ensures Negated(Negated(a)) == a
  {
    var x: int := Value(a);
    var na := Negated(a);
    assert na == FromValue(-x);
    FromValueOfValue(na);
    assert FromValue(Value(na)) == FromValue(-x);
    FromValueNeg(Value(na), -x);
    assert - -x == x;
    FromValueOfValue(a);
  }

  /** comp2(0) == 0 */
  lemma NegatedZero()
    ensures Negated(Zero()) == Zero()
  {
    FromValueOfZero(-(Value(Zero()) as int));
  }

  lemma NegatedOfSigned(a: BigInt)
    ensures Negated(a) == FromValue(-Signed(a))
  {
    FromValueOfValue(a);
    FromValueOfSigned(a);
    FromValueNeg(Value(a), Signed(a));
  }

  /** 2^127 and -2^127 have the same 16 bytes. */
  lemma FromValueOfMinusSignWeight(s: int)
    requires s == -SignWeight
    ensures FromValue(-s) == FromValue(s)
  {
    ModulusIsTwiceSignWeight();
    FromValueCongruent(s, 1);
    assert s + 1 * Modulus == -s;
  }

  /** On the signed reading comp2 is negation, except that -2^127 is its own negation. */
  lemma NegatedSigned(a: BigInt)
    ensures Signed(a) != -SignWeight ==> Signed(Negated(a)) == -Signed(a)
    ensures Signed(a) == -SignWeight ==> Negated(a) == a
  {
    var s: int := Signed(a);
    NegatedOfSigned(a);
    if s != -SignWeight {
      SignedOfFromValue(-s);
    } else {
      FromValueOfMinusSignWeight(s);
      FromValueOfSigned(a);
    }
  }

  lemma PlusCommutative(a: BigInt, b: BigInt)
    ensures Plus(a, b) == Plus(b, a)
  {
    assert Value(a) + Value(b) == Value(b) + Value(a);
  }

  lemma PlusAssociative(a: BigInt, b: BigInt, c: BigInt)
    ensures Plus(Plus(a, b), c) == Plus(a, Plus(b, c))
  {
    PlusOfPlusLeft(a, b, c);
    PlusOfPlusRight(a, b, c);
  }

  lemma {:induction false} PlusOfPlusLeft(a: BigInt, b: BigInt, c: BigInt)
    ensures Plus(Plus(a, b), c) == FromValue(Value(a) + Value(b) + Value(c))
  {
    ModAddReduced(Value(Plus(a, b)), Value(a) + Value(b), Value(c), Modulus);
    FromValueEquiv(Value(Plus(a, b)) + Value(c), Value(a) + Value(b) + Value(c));
  }

  lemma {:induction false} PlusOfPlusRight(a: BigInt, b: BigInt, c: BigInt)
    ensures Plus(a, Plus(b, c)) == FromValue(Value(a) + Value(b) + Value(c))
  {
    ModAddReduced(Value(Plus(b, c)), Value(b) + Value(c), Value(a), Modulus);
    assert Value(a) + Value(Plus(b, c)) == Value(Plus(b, c)) + Value(a);
    assert Value(b) + Value(c) + Value(a) == Value(a) + Value(b) + Value(c);
    FromValueEquiv(Value(a) + Value(Plus(b, c)), Value(a) + Value(b) + Value(c));
  }

  /** a + comp2(a) == 0 */
  lemma PlusNegatedIsZero(a: BigInt)
    ensures Plus(a, Negated(a)) == Zero()
  {
    var x: int := Value(a);
    FromValueOfValue(Negated(a));
    FromValueAdd(x, Value(Negated(a)), x, -x);
    FromValueOfZero(x + -x);
  }

  /** sub(a, b) == sum(a, comp2(b)) */
  lemma MinusIsPlusNegated(a: BigInt, b: BigInt)
    ensures Minus(a, b) == Plus(a, Negated(b))
  {
    var x: int, y: int := Value(a), Value(b);
    FromValueOfValue(Negated(b));
    FromValueAdd(x, Value(Negated(b)), x, -y);
    assert x + -y == x - y;
  }

  /** sub(a, a) == 0 */
  lemma MinusSelf(a: BigInt)
    ensures Minus(a, a) == Zero()
  {
    FromValueOfZero(Value(a) - Value(a));
  }

  /** Addition is the same ring operation on the signed reading. */
  lemma PlusSigned(a: BigInt, b: BigInt)
    ensures Plus(a, b) == FromValue(Signed(a) + Signed(b))
  {
    FromValueOfValue(a);
    FromValueOfSigned(a);
    FromValueOfValue(b);
    FromValueOfSigned(b);
    FromValueAdd(Value(a), Value(b), Signed(a), Signed(b));
  }

  // ---------------------------------------------------------------------
  // Multiplication
  // ---------------------------------------------------------------------

  lemma TimesCommutative(a: BigInt, b: BigInt)
    ensures Times(a, b) == Times(b, a)
  {
    MulCommutes(Value(a), Value(b));
  }

  lemma TimesAssociative(a: BigInt, b: BigInt, c: BigInt)
    ensures Times(Times(a, b), c) == Times(a, Times(b, c))
  {
    var x: int, y: int, z: int := Value(a), Value(b), Value(c);
    assert Times(Times(a, b), c) == FromValue((x * y) * z) by {
      FromValueOfValue(Times(a, b));
      FromValueMul(Value(Times(a, b)), z, x * y, z);
    }
    assert Times(a, Times(b, c)) == FromValue(x * (y * z)) by {
      FromValueOfValue(Times(b, c));
      FromValueMul(x, Value(Times(b, c)), x, y * z);
    }
    MulAssociates(x, y, z);
  }

  /** mul(a, sum(b, c)) == sum(mul(a, b), mul(a, c)) */
  lemma TimesDistributesOverPlus(a: BigInt, b: BigInt, c: BigInt)
    ensures Times(a, Plus(b, c)) == Plus(Times(a, b), Times(a, c))
  {
    var x: int, y: int, z: int := Value(a), Value(b), Value(c);
    assert Times(a, Plus(b, c)) == FromValue(x * (y + z)) by {
      FromValueOfValue(Plus(b, c));
      FromValueMul(x, Value(Plus(b, c)), x, y + z);
    }
    assert Plus(Times(a, b), Times(a, c)) == FromValue(x * y + x * z) by {
      FromValueOfValue(Times(a, b));
      FromValueOfValue(Times(a, c));
      FromValueAdd(Value(Times(a, b)), Value(Times(a, c)), x * y, x * z);
    }
    MulDistributes(x, y, z);
  }

  /** Multiplication is the same ring operation on the signed reading. */
  lemma TimesSigned(a: BigInt, b: BigInt)
    ensures Times(a, b) == FromValue(Signed(a) * Signed(b))
  {
    FromValueOfValue(a);
    FromValueOfSigned(a);
    FromValueOfValue(b);
    FromValueOfSigned(b);
    FromValueMul(Value(a), Value(b), Signed(a), Signed(b));
  }

  // ---------------------------------------------------------------------
  // Shifts
  // ---------------------------------------------------------------------

  /** shl by n >= 128 gives zero. */
  lemma ShiftedLeftBeyondWidth(a: BigInt, n: int)
    requires n >= Bits
    ensures ShiftedLeft(a, n) == Zero()
  {
    FromValueOfScaledBeyondWidth(Value(a), n);
  }

  lemma FromValueOfScaledBeyondWidth(v: int, n: int)
    requires n >= Bits
    ensures FromValue(v * Pow2(n)) == Zero()
  {
    var q: int := Pow2(n - Bits);
    ModulusIsPow2();
    Pow2Split(Bits, n);
    ScaleSplit(v, Pow2(n), Modulus, q);
    FromValueOfMultiple(v * q);
  }

  /** shl by 0 < n leaves the n low bits zero. */
  lemma ShiftedLeftLowBitsZero(a: BigInt, n: int)
    requires n > 0
    ensures Value(ShiftedLeft(a, n)) % Pow2(n) == 0
  {
    if n >= Bits {
      ShiftedLeftBeyondWidth(a, n);
      DivModUnique(0, Pow2(n), 0, 0);
    } else {
      ModulusIsPow2();
      Pow2Split(n, Bits);
      ScaledStaysMultiple(Value(a), Pow2(n), Pow2(Bits - n));
    }
  }

  lemma Pow2Of63()
    ensures Pow2(63) == 0x8000_0000_0000_0000
  {
    Pow256IsPow2(7);
    Pow2Add(56, 7);
  }

  /** shl by 0 <= k < 63 is multiplication by big_val(1 << k). */
  lemma {:induction false} ShiftedLeftIsTimesPow2(a: BigInt, k: nat)
    requires k < 63
    ensures Pow2(k) < 0x8000_0000_0000_0000
    ensures ShiftedLeft(a, k) == Times(a, FromLong(Pow2(k)))
  {
    Pow2Monotone(k, 62);
    Pow2Of63();
    assert Pow2(63) == 2 * Pow2(62);
    var p: Long := Pow2(k);
    LongFitsSigned(p);
    ValueOfFromValue(p);
    if k == 0 {
      FromValueOfValue(a);
    }
  }

  /** shr by n >= 128 gives zero. */
  lemma ShiftedRightBeyondWidth(a: BigInt, n: int)
    requires n >= Bits
    ensures ShiftedRight(a, n) == Zero()
  {
    ModulusIsPow2();
    ValueBelowModulus(a);
    Pow2Monotone(Bits, n);
    DivModUnique(Value(a), Pow2(n), 0, Value(a));
    ValueInjective(ShiftedRight(a, n), Zero());
  }

  /** shr by 0 < n <= 128 leaves the n high bits zero. */
  lemma ShiftedRightHighBitsZero(a: BigInt, n: int)
    requires 0 < n <= Bits
    ensures Value(ShiftedRight(a, n)) < Pow2(Bits - n)
  {
    ModulusIsPow2();
    ValueBelowModulus(a);
    Pow2Split(n, Bits);
    QuotientBelow(Value(a), Pow2(n), Pow2(Bits - n), Modulus);
  }

  /** sar by n >= 128 replicates the sign bit into every bit. */
  lemma ShiftedRightArithBeyondWidth(a: BigInt, n: int)
    requires n >= Bits
    ensures ShiftedRightArith(a, n) == Fill(Size, SignFill(a))
  {
    var s: int, d: int := Signed(a), Pow2(n);
    assert SignWeight <= d by {
      ModulusIsPow2();
      ModulusIsTwiceSignWeight();
      Pow2Monotone(Bits, n);
    }
    if IsNegative(a) {
      DivModUnique(s, d, -1, s + d);
      FromValueOfMinusOne(s / d);
    } else {
      DivModUnique(s, d, 0, s);
      FromValueOfZero(s / d);
    }
  }

  /** For a non-negative a, sar and shr agree for every count. */
  lemma ShiftedRightArithOfNonNegative(a: BigInt, n: int)
    requires !IsNegative(a)
    ensures ShiftedRightArith(a, n) == ShiftedRight(a, n)
  {
  }

  /** For a negative a, sar and shr differ for every positive count. */
  lemma ShiftedRightArithOfNegative(a: BigInt, n: int)
    requires IsNegative(a) && n > 0
    ensures IsNegative(ShiftedRightArith(a, n)) && !IsNegative(ShiftedRight(a, n))
    ensures ShiftedRightArith(a, n) != ShiftedRight(a, n)
  {
    var d := Pow2(n);
    DivLowerBound(Signed(a), d, 0);
    Pow2Monotone(1, n);
    MulMonotone(SignWeight, 2, d);
    DivLowerBound(Value(a), d, SignWeight);
    SignBit(ShiftedRight(a, n));
  }

  /** Shifting zero gives zero, whatever the kind and the count. */
  lemma ShiftsOfZero(n: int)
    ensures ShiftedLeft(Zero(), n) == Zero()
    ensures ShiftedRight(Zero(), n) == Zero()
    ensures ShiftedRightArith(Zero(), n) == Zero()
  {
    if n > 0 {
      var z: int := Value(Zero());
      DivModUnique(z, Pow2(n), 0, 0);
      FromValueOfZero(z * Pow2(n));
      FromValueOfZero(z / Pow2(n));
      assert Signed(Zero()) == z;
    }
  }

  /** C's `x >> k` on a non-negative `long`: floor division by 2^k. */
  function LongShiftRight(x: Long, k: nat): (r: Long)
    requires x >= 0
    ensures 0 <= r <= x
  {
    DivStaysInRange(x, Pow2(k), 0, x + 1);
    x / Pow2(k)
  }

  /** For a non-negative `long` x, shr(big_val(x), k) == big_val(x >> k). */
  lemma ShiftedRightOfLong(x: Long, k: nat)
    requires x >= 0
    ensures ShiftedRight(FromLong(x), k) == FromLong(LongShiftRight(x, k))
  {
    assert Value(FromLong(x)) == x by {
      LongFitsSigned(x);
      ModulusIsTwiceSignWeight();
      ValueOfFromValue(x);
    }
    if k == 0 {
      assert Pow2(k) == 1;
    }
  }

  // ---------------------------------------------------------------------
  // Concrete cases
  // ---------------------------------------------------------------------

  /** A value in [0, 256) fills byte 0 alone. */
  lemma FromValueOfByte(x: int)
    requires 0 <= x < 256
    ensures FromValue(x) == [x] + Fill(Size - 1, 0x00)
  {
    var rest := Fill(Size - 1, 0x00);
    ValueOfFromValue(x);
    ValueAppend([x], rest);
    ValueOfOne(x);
    ValueOfZeros(Size - 1);
    ValueInjective(FromValue(x), [x] + rest);
  }

  /** A value in [-256, 0) is byte x + 256 followed by fifteen 0xFF bytes. */
  lemma FromValueOfNegativeByte(x: int)
    requires -256 <= x < 0
    ensures FromValue(x) == [x + 256] + Fill(Size - 1, 0xFF)
  {
    var rest := Fill(Size - 1, 0xFF);
    var m: int := Modulus;
    ModulusIsPow256();
    assert m == 256 * Pow256(Size - 1);
    DivModUnique(x, m, -1, x + m);
    ValueAppend([x + 256], rest);
    ValueOfOne(x + 256);
    ValueOfOnes(Size - 1);
    ValueInjective(FromValue(x), [x + 256] + rest);
  }

  /** -1 is sixteen 0xFF bytes. */
  lemma FromValueOfMinusOne(x: int)
    requires x == -1
    ensures FromValue(x) == Fill(Size, 0xFF)
  {
    FromValueOfNegativeByte(x);
    assert [0xFF] + Fill(Size - 1, 0xFF) == Fill(Size, 0xFF);
  }

  /** big_val(1) is 0x01 followed by fifteen 0x00 bytes. */
  lemma FromLongOfOne()
    ensures FromLong(1) == [0x01] + Fill(Size - 1, 0x00)
  {
    FromValueOfByte(1);
  }

  /** big_val(-1) is sixteen 0xFF bytes. */
  lemma FromLongOfMinusOne()
    ensures FromLong(-1) == Fill(Size, 0xFF)
  {
    FromValueOfMinusOne(-1);
  }

  /** big_val(-2) is 0xFE followed by fifteen 0xFF bytes. */
  lemma FromLongOfMinusTwo()
    ensures FromLong(-2) == [0xFE] + Fill(Size - 1, 0xFF)
  {
    FromValueOfNegativeByte(-2);
  }

  /** comp2(-6) == 6 */
  lemma NegatedExample()
    ensures Negated(FromLong(-6)) == FromLong(6)
  {
    NegatedSigned(FromLong(-6));
    FromValueOfSigned(Negated(FromLong(-6)));
  }

  /** sum(-5, 12) == 7 */
  lemma PlusExample()
    ensures Plus(FromLong(-5), FromLong(12)) == FromLong(7)
  {
    PlusSigned(FromLong(-5), FromLong(12));
  }

  /** mul(-5, -7) == 35 */
  lemma TimesExample()
    ensures Times(FromLong(-5), FromLong(-7)) == FromLong(35)
  {
    TimesSigned(FromLong(-5), FromLong(-7));
  }

  /** shl(1, k) == 1 << k for a count k that fits a `long`. */
  lemma ShiftedLeftOfOne(k: nat)
    requires k < 63
    ensures Pow2(k) < 0x8000_0000_0000_0000
    ensures ShiftedLeft(FromLong(1), k) == FromLong(Pow2(k))
  {
    ShiftedLeftIsTimesPow2(FromLong(1), k);
    var p: Long := Pow2(k);
    LongFitsSigned(p);
    TimesSigned(FromLong(1), FromLong(p));
    assert 1 * p == p;
  }

  /** sar(-1, n) == -1 for every count n. */
  lemma ShiftedRightArithOfMinusOne(n: int)
    ensures ShiftedRightArith(FromLong(-1), n) == FromLong(-1)
  {
    if n > 0 {
      DivModUnique(-1, Pow2(n), -1, Pow2(n) - 1);
    }
  }
}
