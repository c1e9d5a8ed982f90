/**
 * big_shl, big_shr and big_sar. Each splits the count n into whole bytes
 * (n / 8) and remaining bits (n % 8), moves the bytes into a temporary
 * BigInt, shifts the bits inside it with a carry running from byte to
 * byte, and copies the temporary into `res`, so that `res` may be `a`.
 *
 * In the bit passes the C code joins two parts with `|`; the parts occupy
 * disjoint bits (the loop invariants bound the carry), so `|` is written
 * as `+`. `<<` and `>>` are multiplication and floor division by a power
 * of two, `& mask` is a remainder.
 */
module BigIntShifts {
  import opened Arith
  import opened LittleEndian
  import opened Int128
  import opened BigIntOps

  // ---------------------------------------------------------------------
  // big_shl
  // ---------------------------------------------------------------------

  /** big_shl: res = a << n (logical); n <= 0 copies a, n >= 128 gives zero. */
  method Shl(res: array<byte>, a: array<byte>, n: int)
    requires res.Length == Size && a.Length == Size
    modifies res
    ensures res[..] == ShiftedLeft(old(a[..]), n)
  {
    ghost var A: BigInt := a[..];
    if n <= 0 {
      if res != a {
        Copy(res, a);
      }
      return;
    }
    if n >= Bits {
      ShiftedLeftBeyondWidth(A, n);
      SetAll(res, 0);
      return;
    }
    var byteShift := n / 8;
    var bitShift := n % 8;
    var tmp := new byte[Size];
    ShiftBytesLeft(tmp, a, byteShift);
    ghost var T := tmp[..];
    if bitShift != 0 {
      ShiftBitsLeft(tmp, bitShift);
    }
    Copy(res, tmp);
    ShlResult(res[..], T, A, n, byteShift, bitShift);
  }

  /** Step 1 of big_shl: tmp[i] = a[i - byteShift], zero where that is outside a. */
  method ShiftBytesLeft(tmp: array<byte>, a: array<byte>, byteShift: int)
    requires tmp.Length == Size && a.Length == Size && tmp != a
    requires 0 <= byteShift < Size
    modifies tmp
    ensures tmp[..] == Fill(byteShift, 0) + a[..Size - byteShift]
  {
    for i := 0 to Size
      invariant forall j :: 0 <= j < i ==> tmp[j] == if j < byteShift then 0 else a[j - byteShift]
    {
      var src := i - byteShift;
      tmp[i] := if src >= 0 && src < Size then a[src] else 0x00;
    }
    assert tmp[..] == Fill(byteShift, 0) + a[..Size - byteShift];
  }

  /** Step 2 of big_shl: shift every byte left by bitShift, the bits leaving byte i entering byte i + 1. */
  method ShiftBitsLeft(tmp: array<byte>, bitShift: nat)
    requires tmp.Length == Size && 0 < bitShift < 8
    modifies tmp
    ensures Value(tmp[..]) == Value(old(tmp[..])) * Pow2(bitShift) % Modulus
  {
    ghost var T := tmp[..];
    var carry := 0;
    for i := 0 to Size
      invariant forall j :: i <= j < Size ==> tmp[j] == T[j]
      invariant 0 <= carry < Pow2(bitShift)
      invariant Value(tmp[..i]) + carry * Pow256(i) == Value(T[..i]) * Pow2(bitShift)
    {
      ghost var prev := tmp[..i];
      var v := tmp[i] * Pow2(bitShift) + carry;
      BitsLeftPrefix(prev, T, i, bitShift, carry);
      tmp[i] := v % 256;
      assert tmp[..i + 1] == prev + [v % 256];
      carry := v / 256;
    }
    BitsLeftResult(tmp[..], T, bitShift, carry);
  }

  /** One byte of the left bit pass: the byte shifted up, plus the bits carried in from below. */
  lemma {:induction false} BitsLeftPrefix(r: seq<byte>, t: seq<byte>, i: nat, b: nat, c: int)
    requires |r| == i < |t| && 0 < b < 8 && 0 <= c < Pow2(b)
    requires Value(r) + c * Pow256(i) == Value(t[..i]) * Pow2(b)
    ensures Value(r + [(t[i] * Pow2(b) + c) % 256]) + ((t[i] * Pow2(b) + c) / 256) * Pow256(i + 1)
      == Value(t[..i + 1]) * Pow2(b)
    ensures 0 <= (t[i] * Pow2(b) + c) / 256 < Pow2(b)
  {
    ValueSnoc(r, (t[i] * Pow2(b) + c) % 256);
    ValuePrefixStep(t, i);
    Pow256Succ(i);
    BitsLeftStep(Value(r), c, Value(t[..i]), t[i], Pow2(b), Pow256(i));
  }

  lemma {:induction false} BitsLeftStep(r: int, c: int, vt: int, x: int, q: int, p: int)
    requires r + c * p == vt * q
    requires 0 <= x < 256 && 0 <= c < q
    ensures r + ((x * q + c) % 256) * p + ((x * q + c) / 256) * (256 * p) == (vt + x * p) * q
    ensures 0 <= (x * q + c) / 256 < q
  {
    DigitCarry(x * q + c, p);
    assert (x * q + c) * p == x * p * q + c * p;
    MulMonotone(q, x, 255);
    DivLowerBound(x * q + c, 256, q);
  }

  /** The carry out of byte 15 is dropped: the result is the shifted value modulo 2^128. */
  lemma {:induction false} BitsLeftResult(r: seq<byte>, t: seq<byte>, b: nat, c: int)
    requires |r| == Size && |t| == Size && 0 <= c
    requires Value(r[..Size]) + c * Pow256(Size) == Value(t[..Size]) * Pow2(b)
    ensures Value(r) == Value(t) * Pow2(b) % Modulus
  {
    ValueOfWhole(r);
    ValueOfWhole(t);
    ModulusIsPow256();
    ValueBelowModulus(r);
    ModOfCarry(Value(t) * Pow2(b), Value(r), c, Modulus);
  }

  /** Moving whole bytes up multiplies by 256^byteShift, modulo 2^128. */
  lemma {:induction false} BytesLeftValue(a: seq<byte>, bs: nat)
    requires |a| == Size && bs < Size
    ensures Value(Fill(bs, 0) + a[..Size - bs]) == Value(a) * Pow256(bs) % Modulus
  {
    var p, h := Pow256(bs), Pow256(Size - bs);
    ValueAppend(Fill(bs, 0), a[..Size - bs]);
    ValueOfZeros(bs);
    ValueSplit(a, Size - bs);
    ScaleMod(p, Value(a), h);
    Pow256Add(bs, Size - bs);
    ModulusIsPow256();
    MulCommutes(p, Value(a));
  }

  /** The byte pass followed by the bit pass is the shift by 8 * bs + b. */
  lemma {:induction false} ShlResult(r: seq<byte>, t: seq<byte>, a: BigInt, n: int, bs: int, b: int)
    requires |r| == Size && 0 <= bs < Size && 0 <= b < 8 && n == 8 * bs + b && 0 < n
    requires t == Fill(bs, 0) + a[..Size - bs]
    requires b == 0 ==> r == t
    requires b != 0 ==> Value(r) == Value(t) * Pow2(b) % Modulus
    ensures r == ShiftedLeft(a, n)
  {
    var v: int := Value(a);
    BytesLeftValue(a, bs);
    Pow256IsPow2(bs);
    Pow2Add(8 * bs, b);
    if b == 0 {
      assert Pow2(n) == Pow256(bs);
    } else {
      ModMul(v * Pow256(bs), Pow2(b), Modulus);
      MulAssociates(v, Pow256(bs), Pow2(b));
    }
    ValueInjective(r, ShiftedLeft(a, n));
  }

  // ---------------------------------------------------------------------
  // big_shr and big_sar
  // ---------------------------------------------------------------------

  /** big_shr: res = a >> n (logical); n <= 0 copies a, n >= 128 gives zero. */
  method Shr(res: array<byte>, a: array<byte>, n: int)
    requires res.Length == Size && a.Length == Size
    modifies res
    ensures res[..] == ShiftedRight(old(a[..]), n)
  {
    ghost var A: BigInt := a[..];
    if n <= 0 {
      Copy(res, a);
      return;
    }
    if n >= Bits {
      ShiftedRightBeyondWidth(A, n);
      SetAll(res, 0);
      return;
    }
    var byteShift := n / 8;
    var bitShift := n % 8;
    var tmp := new byte[Size];
    ShiftBytesRight(tmp, a, byteShift, 0x00);
    ghost var T := tmp[..];
    if bitShift != 0 {
      ShiftBitsRight(tmp, bitShift, 0);
    }
    Copy(res, tmp);
    ShrResult(res[..], T, A, n, byteShift, bitShift);
  }

  /** big_sar: res = a >> n (arithmetic); n <= 0 copies a, n >= 128 fills res with the sign. */
  method Sar(res: array<byte>, a: array<byte>, n: int)
    requires res.Length == Size && a.Length == Size
    modifies res
    ensures res[..] == ShiftedRightArith(old(a[..]), n)
  {
    ghost var A: BigInt := a[..];
    if n <= 0 {
      Copy(res, a);
      return;
    }
    var sign: byte := if a[Size - 1] >= 0x80 then 0xFF else 0x00;
    if n >= Bits {
      ShiftedRightArithBeyondWidth(A, n);
      SetAll(res, sign);
      return;
    }
    var byteShift := n / 8;
    var bitShift := n % 8;
    var tmp := new byte[Size];
    ShiftBytesRight(tmp, a, byteShift, sign);
    ghost var T := tmp[..];
    if bitShift != 0 {
      Pow2Monotone(bitShift, 7);
      assert Pow2(7) == 128;
      var carry: byte := if sign == 0xFF then Pow2(bitShift) - 1 else 0;
      ShiftBitsRight(tmp, bitShift, carry);
    }
    Copy(res, tmp);
    SarResult(res[..], T, A, n, byteShift, bitShift);
  }

  /** Step 1 of big_shr and big_sar: tmp[i] = a[i + byteShift], fill where that is outside a. */
  method ShiftBytesRight(tmp: array<byte>, a: array<byte>, byteShift: int, fill: byte)
    requires tmp.Length == Size && a.Length == Size && tmp != a
    requires 0 <= byteShift < Size
    modifies tmp
    ensures tmp[..] == a[byteShift..] + Fill(byteShift, fill)
  {
    for i := 0 to Size
      invariant forall j :: 0 <= j < i ==> tmp[j] == if j + byteShift < Size then a[j + byteShift] else fill
    {
      var src := i + byteShift;
      tmp[i] := if src < Size then a[src] else fill;
    }
    assert tmp[..] == a[byteShift..] + Fill(byteShift, fill);
  }

  /**
   * Step 2 of big_shr and big_sar: from byte 15 down to byte 0, shift every
   * byte right by bitShift, the bits leaving byte i entering byte i - 1 at
   * the top. carryIn holds the bits entering byte 15, as if it were a
   * seventeenth byte above them.
   */
  method ShiftBitsRight(tmp: array<byte>, bitShift: nat, carryIn: byte)
    requires tmp.Length == Size && 0 < bitShift < 8 && carryIn < Pow2(bitShift)
    modifies tmp
    ensures Value(tmp[..]) == (Value(old(tmp[..])) + carryIn * Modulus) / Pow2(bitShift)
  {
    ghost var T := tmp[..];
    ghost var U := T + [carryIn];
    var carry: int := carryIn;
    for i := Size downto 0
      invariant forall j :: 0 <= j < i ==> tmp[j] == U[j]
      invariant 0 <= carry < Pow2(bitShift)
      invariant Value(tmp[i..]) * Pow2(bitShift) + carry == Value(U[i..])
    {
      ghost var prev := tmp[i + 1..];
      var v := tmp[i] / Pow2(bitShift) + carry * Pow2(8 - bitShift);
      BitsRightPrefix(prev, U, i, bitShift, carry);
      carry := tmp[i] % Pow2(bitShift);
      tmp[i] := v % 256;
      assert tmp[i..] == [v % 256] + prev;
    }
    BitsRightResult(tmp[..], T, U, bitShift, carry, carryIn);
  }

  /** One byte of the right bit pass: the byte shifted down, plus the bits carried in from above. */
  lemma {:induction false} BitsRightPrefix(r: seq<byte>, u: seq<byte>, i: nat, b: nat, c: int)
    requires i + 1 < |u| && |r| == |u| - i - 2 && 0 < b < 8 && 0 <= c < Pow2(b)
    requires Value(r) * Pow2(b) + c == Value(u[i + 1..])
    ensures 0 <= u[i] / Pow2(b) + c * Pow2(8 - b) < 256
    ensures Value([(u[i] / Pow2(b) + c * Pow2(8 - b)) % 256] + r) * Pow2(b) + u[i] % Pow2(b)
      == Value(u[i..])
  {
    var p, q := Pow2(b), Pow2(8 - b);
    var x: int := u[i];
    Pow2Split(b, 8);
    assert Pow2(8) == 256;
    QuotientBelow(x, p, q, 256);
    DivMod(x, p);
    BitsRightStep(Value(r), c, Value(u[i + 1..]), x, x / p, x % p, p, q);
    var v := x / p + c * q;
    DivModUnique(v, 256, 0, v);
    ValueAppend([v], r);
    ValueOfOne(v);
    ValueSuffixStep(u, i);
  }

  lemma {:induction false} BitsRightStep(r: int, c: int, vu: int, x: int, y: int, z: int, p: int, q: int)
    requires 0 < p && 0 < q && p * q == 256
    requires x == y * p + z && 0 <= z < p && 0 <= y < q
    requires r * p + c == vu && 0 <= c < p
    ensures 0 <= y + c * q < 256
    ensures (y + c * q + 256 * r) * p + z == x + 256 * vu
  {
    MulMonotone(q, c, p - 1);
    assert q * (p - 1) == p * q - q;
    assert (y + c * q + 256 * r) * p == y * p + c * (p * q) + 256 * (r * p);
  }

  /** After byte 0 the carry out holds the bits shifted out of the bottom, which are dropped. */
  lemma {:induction false} BitsRightResult(r: seq<byte>, t: seq<byte>, u: seq<byte>, b: nat, c: int, c0: byte)
    requires |r| == Size && |t| == Size && u == t + [c0] && 0 <= c < Pow2(b)
    requires Value(r[0..]) * Pow2(b) + c == Value(u[0..])
    ensures Value(r) == (Value(t) + c0 * Modulus) / Pow2(b)
  {
    assert r[0..] == r && u[0..] == u;
    ValueSnoc(t, c0);
    ModulusIsPow256();
    DivModUnique(Value(t) + c0 * Modulus, Pow2(b), Value(r), c);
  }

  /** Moving whole bytes down divides by 256^byteShift; the fill bytes land on top. */
  lemma {:induction false} BytesRightValue(a: seq<byte>, bs: nat, f: byte)
    requires |a| == Size && bs < Size
    ensures Value(a[bs..] + Fill(bs, f)) == Value(a) / Pow256(bs) + Pow256(Size - bs) * Value(Fill(bs, f))
  {
    ValueAppend(a[bs..], Fill(bs, f));
    ValueSplit(a, bs);
  }

  /** The logical byte pass followed by the bit pass is the shift by 8 * bs + b. */
  lemma {:induction false} ShrResult(r: seq<byte>, t: seq<byte>, a: BigInt, n: int, bs: int, b: int)
    requires |r| == Size && 0 <= bs < Size && 0 <= b < 8 && n == 8 * bs + b && 0 < n
    requires t == a[bs..] + Fill(bs, 0)
    requires b == 0 ==> r == t
    requires b != 0 ==> Value(r) == (Value(t) + 0 * Modulus) / Pow2(b)
    ensures r == ShiftedRight(a, n)
  {
    var v: int := Value(a);
    BytesRightValue(a, bs, 0);
    ValueOfZeros(bs);
    Pow256IsPow2(bs);
    Pow2Add(8 * bs, b);
    if b != 0 {
      ModOfProduct(v, Pow256(bs), Pow2(b));
    }
    ValueInjective(r, ShiftedRight(a, n));
  }

  /** The arithmetic byte pass divides the signed value by 256^bs, rounding down. */
  lemma {:induction false} SarBytesSigned(a: BigInt, t: BigInt, bs: nat)
    requires bs < Size && t == a[bs..] + Fill(bs, SignFill(a))
    ensures Signed(t) == Signed(a) / Pow256(bs)
  {
    if bs == 0 {
      assert t == a && Pow256(bs) == 1;
      DivModUnique(Signed(a), 1, Signed(a), 0);
    } else if IsNegative(a) {
      SarBytesOfNegative(a, t, bs);
    } else {
      SarBytesOfNonNegative(a, t, bs);
    }
  }

  lemma {:induction false} SarBytesOfNegative(a: BigInt, t: BigInt, bs: nat)
    requires 0 < bs < Size && IsNegative(a) && t == a[bs..] + Fill(bs, 0xFF)
    ensures Signed(t) == Signed(a) / Pow256(bs)
  {
    var p: int, h: int := Pow256(bs), Pow256(Size - bs);
    BytesRightValue(a, bs, 0xFF);
    ValueOfOnes(bs);
    assert t[Size - 1] == 0xFF;
    Pow256Add(bs, Size - bs);
    ModulusIsPow256();
    SignedShiftOfNegative(Value(a), p, h, Modulus, Value(t));
  }

  lemma {:induction false} SarBytesOfNonNegative(a: BigInt, t: BigInt, bs: nat)
    requires bs < Size && !IsNegative(a) && t == a[bs..] + Fill(bs, 0x00)
    ensures Signed(t) == Signed(a) / Pow256(bs)
  {
    BytesRightValue(a, bs, 0x00);
    ValueOfZeros(bs);
    SignBit(a);
    DivStaysInRange(Value(a), Pow256(bs), 0, SignWeight);
    SignBit(t);
  }

  /** (v - m) / p for m == p * h, where the h high digits of the quotient are all p - 1. */
  lemma SignedShiftOfNegative(v: int, p: int, h: int, m: int, vt: int)
    requires 0 < p && m == p * h && vt == v / p + h * (p - 1)
    ensures vt - m == (v - m) / p
  {
    ModAddMultiple(v, -h, p);
    assert v + (-h) * p == v - m;
    assert h * (p - 1) == m - h;
  }

  /** The arithmetic bit pass, whose carry starts full of ones for a negative t, divides by 2^b. */
  lemma {:induction false} SarBitsSigned(t: BigInt, r: BigInt, b: nat, c0: int)
    requires 0 < b < 8 && c0 == if IsNegative(t) then Pow2(b) - 1 else 0
    requires Value(r) == (Value(t) + c0 * Modulus) / Pow2(b)
    ensures Signed(r) == Signed(t) / Pow2(b)
  {
    var s, p := Signed(t), Pow2(b);
    DivStaysInRange(s, p, -SignWeight, SignWeight);
    DivLowerBound(s, p, 0);
    SignBit(r);
    if IsNegative(t) {
      assert Value(t) + c0 * Modulus == s + Modulus * p;
      ModAddMultiple(s, Modulus, p);
    }
  }

  /** The arithmetic byte pass followed by the bit pass is the shift by 8 * bs + b. */
  lemma {:induction false} SarResult(r: seq<byte>, t: seq<byte>, a: BigInt, n: int, bs: int, b: int)
    requires |r| == Size && 0 <= bs < Size && 0 <= b < 8 && n == 8 * bs + b && 0 < n
    requires t == a[bs..] + Fill(bs, SignFill(a))
    requires b == 0 ==> r == t
    requires b != 0 ==> Value(r) == (Value(t) + (if SignFill(a) == 0xFF then Pow2(b) - 1 else 0) * Modulus) / Pow2(b)
    ensures r == ShiftedRightArith(a, n)
  {
    var s: int := Signed(a);
    var p := Pow256(bs);
    SarBytesSigned(a, t, bs);
    DivLowerBound(s, p, 0);
    Pow256IsPow2(bs);
    Pow2Add(8 * bs, b);
    if b != 0 {
      SarBitsSigned(t, r, b, if SignFill(a) == 0xFF then Pow2(b) - 1 else 0);
      ModOfProduct(s, p, Pow2(b));
    }
    FromValueOfSigned(r);
  }
}
