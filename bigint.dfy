/**
 * The routines of bigint.c, each working in place on `unsigned char[16]`
 * arrays, byte 0 least significant. Every routine writes its result into
 * `res`, which may be the same array as an operand, and is proved to leave
 * in `res` exactly what the corresponding function of Int128 computes from
 * the operands as they were on entry.
 */
module BigIntOps {
  import opened Arith
  import opened LittleEndian
  import opened Int128

  /** memcpy(dst, src, sizeof(BigInt)) */
  method Copy(dst: array<byte>, src: array<byte>)
    requires dst.Length == Size && src.Length == Size
    modifies dst
    ensures dst[..] == old(src[..])
  {
    ghost var S := src[..];
    for i := 0 to Size
      invariant forall j :: 0 <= j < i ==> dst[j] == S[j]
      invariant forall j :: i <= j < Size ==> src[j] == S[j]
    {
      dst[i] := src[i];
    }
    assert dst[..] == S;
  }

  /** The loop `for (i = 0; i < sizeof(BigInt); i++) dst[i] = x;` */
  method SetAll(dst: array<byte>, x: byte)
    requires dst.Length == Size
    modifies dst
    ensures dst[..] == Fill(Size, x)
  {
    for i := 0 to Size
      invariant forall j :: 0 <= j < i ==> dst[j] == x
    {
      dst[i] := x;
    }
  }

  // ---------------------------------------------------------------------
  // big_val
  // ---------------------------------------------------------------------

  /** big_val: res = val, sign-extended to 128 bits. */
  method Val(res: array<byte>, val: Long)
    requires res.Length == Size
    modifies res
    ensures res[..] == FromLong(val)
  {
    SetAll(res, 0);
    var neg := val < 0;
    var temp: int := val % 0x1_0000_0000_0000_0000;
    ghost var u := temp;
    var part: byte := 0;
    for i := 0 to LongBytes
      invariant temp == u / Pow256(i)
      invariant Value(res[..i]) == u % Pow256(i)
      invariant forall j :: i <= j < Size ==> res[j] == 0
    {
      ghost var prev := res[..i];
      part := temp % 256;
      ValPrefix(prev, u, i, temp);
      res[i] := part;
      assert res[..i + 1] == prev + [part];
      temp := temp / 256;
    }
    if !neg {
      ValOfParts(res[..], val);
      return;
    }
    ghost var low := res[..LongBytes];
    for i := LongBytes to Size
      invariant res[..LongBytes] == low
      invariant forall j :: LongBytes <= j < i ==> res[j] == 0xFF
    {
      res[i] := 0xFF;
    }
    ValOfParts(res[..], val);
  }

  /** One byte of (unsigned long)val: the low byte of what the earlier shifts left in temp. */
  lemma ValPrefix(r: seq<byte>, u: int, i: nat, temp: int)
    requires Value(r) == u % Pow256(i) && temp == u / Pow256(i) && |r| == i
    ensures Value(r + [temp % 256]) == u % Pow256(i + 1)
    ensures temp / 256 == u / Pow256(i + 1)
  {
    ValueSnoc(r, temp % 256);
    DigitStep(u, i);
    MulCommutes(temp % 256, Pow256(i));
  }

  /** Eight low bytes holding (unsigned long)val, then eight bytes of sign. */
  lemma {:induction false} ValOfParts(r: seq<byte>, val: Long)
    requires |r| == Size
    requires Value(r[..LongBytes]) == val % 0x1_0000_0000_0000_0000 % Pow256(LongBytes)
    requires forall j :: LongBytes <= j < Size ==> r[j] == if val < 0 then 0xFF else 0x00
    ensures r == FromLong(val)
  {
    LongFitsSigned(val);
    var p: int := Pow256(LongBytes);
    var f: byte := if val < 0 then 0xFF else 0x00;
    assert r == r[..LongBytes] + r[LongBytes..];
    assert r[LongBytes..] == Fill(LongBytes, f);
    ValueAppend(r[..LongBytes], r[LongBytes..]);
    if val < 0 {
      ValueOfOnes(LongBytes);
    } else {
      ValueOfZeros(LongBytes);
    }
    DivModUnique(val % p, p, 0, val % p);
    Pow256Add(LongBytes, LongBytes);
    TwoDigitMod(val, p);
    ValueInjective(r, FromLong(val));
  }

  /** A prefix that covers all sixteen bytes is the whole number. */
  lemma ValueOfWhole(s: seq<byte>)
    requires |s| == Size
    ensures Value(s[..Size]) == Value(s)
  {
    assert s[..Size] == s;
  }

  // ---------------------------------------------------------------------
  // big_comp2
  // ---------------------------------------------------------------------

  /** big_comp2: res = ~a + 1, the two's complement of a. */
  method Comp2(res: array<byte>, a: array<byte>)
    requires res.Length == Size && a.Length == Size
    modifies res
    ensures res[..] == Negated(old(a[..]))
  {
    ghost var A: BigInt := a[..];
    var carry := 1;
    for i := 0 to Size
      invariant forall j :: i <= j < Size ==> a[j] == A[j]
      invariant 0 <= carry <= 1
      invariant Value(res[..i]) + carry * Pow256(i) == Pow256(i) - Value(A[..i])
    {
      ghost var prev := res[..i];
      var inv := 255 - a[i];
      var sum := inv + carry;
      Comp2Prefix(prev, A, i, carry, sum);
      res[i] := sum % 256;
      assert res[..i + 1] == prev + [sum % 256];
      carry := sum / 256;
    }
    Comp2Result(res[..], A, carry);
  }

  /** One byte of ~a + 1: the complemented byte plus the carry in. */
  lemma {:induction false} Comp2Prefix(r: seq<byte>, a: seq<byte>, i: nat, c: int, s: int)
    requires |r| == i < |a| && 0 <= c <= 1 && s == 255 - a[i] + c
    requires Value(r) + c * Pow256(i) == Pow256(i) - Value(a[..i])
    ensures Value(r + [s % 256]) + (s / 256) * Pow256(i + 1) == Pow256(i + 1) - Value(a[..i + 1])
    ensures 0 <= s / 256 <= 1
  {
    ValueSnoc(r, s % 256);
    ValuePrefixStep(a, i);
    Pow256Succ(i);
    Comp2Step(Value(r), c, Value(a[..i]), a[i], Pow256(i));
  }

  lemma {:induction false} Comp2Step(r: int, c: int, va: int, x: int, p: int)
    requires r + c * p == p - va
    requires 0 <= x < 256 && 0 <= c <= 1
    ensures r + ((255 - x + c) % 256) * p + ((255 - x + c) / 256) * (256 * p) == 256 * p - (va + x * p)
    ensures 0 <= (255 - x + c) / 256 <= 1
  {
    DigitCarry(255 - x + c, p);
    MulDistributes(p, 255 - x, c);
  }

  /** After all sixteen bytes the carry out is dropped: the result is 2^128 - a modulo 2^128. */
  lemma {:induction false} Comp2Result(r: seq<byte>, a: BigInt, c: int)
    requires |r| == Size && 0 <= c <= 1
    requires Value(r[..Size]) + c * Pow256(Size) == Pow256(Size) - Value(a[..Size])
    ensures r == Negated(a)
  {
    ValueOfWhole(r);
    ValueOfWhole(a);
    ModulusIsPow256();
    ValueBelowModulus(r);
    ModOfCarry(Modulus - Value(a), Value(r), c, Modulus);
    ValueInjective(r, Negated(a));
  }

  // ---------------------------------------------------------------------
  // big_sum and big_sub
  // ---------------------------------------------------------------------

  /** big_sum: res = a + b, byte by byte with a carry. */
  method Sum(res: array<byte>, a: array<byte>, b: array<byte>)
    requires res.Length == Size && a.Length == Size && b.Length == Size
    modifies res
    ensures res[..] == Plus(old(a[..]), old(b[..]))
  {
    ghost var A: BigInt, B: BigInt := a[..], b[..];
    var carry := 0;
    for i := 0 to Size
      invariant forall j :: i <= j < Size ==> a[j] == A[j] && b[j] == B[j]
      invariant 0 <= carry <= 1
      invariant Value(res[..i]) + carry * Pow256(i) == Value(A[..i]) + Value(B[..i])
    {
      ghost var prev := res[..i];
      var sum := a[i] + b[i] + carry;
      SumPrefix(prev, A, B, i, carry, sum);
      res[i] := sum % 256;
      assert res[..i + 1] == prev + [sum % 256];
      carry := sum / 256;
    }
    SumResult(res[..], A, B, carry);
  }

  /** One byte of a + b: the two bytes plus the carry in. */
  lemma {:induction false} SumPrefix(r: seq<byte>, a: seq<byte>, b: seq<byte>, i: nat, c: int, s: int)
    requires |r| == i < |a| == |b| && 0 <= c <= 1 && s == a[i] + b[i] + c
    requires Value(r) + c * Pow256(i) == Value(a[..i]) + Value(b[..i])
    ensures Value(r + [s % 256]) + (s / 256) * Pow256(i + 1) == Value(a[..i + 1]) + Value(b[..i + 1])
    ensures 0 <= s / 256 <= 1
  {
    ValueSnoc(r, s % 256);
    ValuePrefixStep(a, i);
    ValuePrefixStep(b, i);
    Pow256Succ(i);
    SumStep(Value(r), c, Value(a[..i]), Value(b[..i]), a[i], b[i], Pow256(i));
  }

  lemma {:induction false} SumStep(r: int, c: int, va: int, vb: int, x: int, y: int, p: int)
    requires r + c * p == va + vb
    requires 0 <= x < 256 && 0 <= y < 256 && 0 <= c <= 1
    ensures r + ((x + y + c) % 256) * p + ((x + y + c) / 256) * (256 * p) == (va + x * p) + (vb + y * p)
    ensures 0 <= (x + y + c) / 256 <= 1
  {
    DigitCarry(x + y + c, p);
    MulDistributes(p, x + y, c);
    MulDistributes(p, x, y);
  }

  /** After all sixteen bytes the carry out is dropped: the result is a + b modulo 2^128. */
  lemma {:induction false} SumResult(r: seq<byte>, a: BigInt, b: BigInt, c: int)
    requires |r| == Size && 0 <= c <= 1
    requires Value(r[..Size]) + c * Pow256(Size) == Value(a[..Size]) + Value(b[..Size])
    ensures r == Plus(a, b)
  {
    ValueOfWhole(r);
    ValueOfWhole(a);
    ValueOfWhole(b);
    ModulusIsPow256();
    ValueBelowModulus(r);
    ModOfCarry(Value(a) + Value(b), Value(r), c, Modulus);
    ValueInjective(r, Plus(a, b));
  }

  /** big_sub: res = a - b, byte by byte with a borrow. */
  method Sub(res: array<byte>, a: array<byte>, b: array<byte>)
    requires res.Length == Size && a.Length == Size && b.Length == Size
    modifies res
    ensures res[..] == Minus(old(a[..]), old(b[..]))
  {
    ghost var A: BigInt, B: BigInt := a[..], b[..];
    var prox := 0;
    for i := 0 to Size
      invariant forall j :: i <= j < Size ==> a[j] == A[j] && b[j] == B[j]
      invariant 0 <= prox <= 1
      invariant Value(res[..i]) == Value(A[..i]) - Value(B[..i]) + prox * Pow256(i)
    {
      ghost var prev := res[..i];
      ghost var borrowIn := prox;
      var sub := a[i] - b[i] - prox;
      if sub < 0 {
        sub := sub + 256;
        prox := 1;
      } else {
        prox := 0;
      }
      SubPrefix(prev, A, B, i, borrowIn, prox, sub);
      res[i] := sub % 256;
      assert res[..i + 1] == prev + [sub % 256];
    }
    SubResult(res[..], A, B, prox);
  }

  /** One byte of a - b: the difference of the two bytes less the borrow in, plus 256 when it is negative. */
  lemma {:induction false} SubPrefix(r: seq<byte>, a: seq<byte>, b: seq<byte>, i: nat, c: int, c2: int, d: int)
    requires |r| == i < |a| == |b|
    requires Value(r) == Value(a[..i]) - Value(b[..i]) + c * Pow256(i)
    requires d == a[i] - b[i] - c + 256 * c2 && 0 <= d < 256
    ensures Value(r + [d % 256]) == Value(a[..i + 1]) - Value(b[..i + 1]) + c2 * Pow256(i + 1)
  {
    ValueSnoc(r, d % 256);
    ValuePrefixStep(a, i);
    ValuePrefixStep(b, i);
    Pow256Succ(i);
    SubStep(Value(r), c, c2, d, Value(a[..i]), Value(b[..i]), a[i], b[i], Pow256(i));
  }

  lemma {:induction false} SubStep(r: int, c: int, c2: int, d: int, va: int, vb: int, x: int, y: int, p: int)
    requires r == va - vb + c * p
    requires d == x - y - c + 256 * c2 && 0 <= d < 256
    ensures r + (d % 256) * p == (va + x * p) - (vb + y * p) + c2 * (256 * p)
  {
    assert d % 256 == d;
    MulDistributes(p, x - y - c, 256 * c2);
    MulDistributes(p, x - y, -c);
    MulDistributes(p, x, -y);
  }

  /** After all sixteen bytes the borrow out is dropped: the result is a - b modulo 2^128. */
  lemma {:induction false} SubResult(r: seq<byte>, a: BigInt, b: BigInt, c: int)
    requires |r| == Size && 0 <= c <= 1
    requires Value(r[..Size]) == Value(a[..Size]) - Value(b[..Size]) + c * Pow256(Size)
    ensures r == Minus(a, b)
  {
    ValueOfWhole(r);
    ValueOfWhole(a);
    ValueOfWhole(b);
    ModulusIsPow256();
    ValueBelowModulus(r);
    ModByMultiple(Value(a) - Value(b), Value(r), c, Modulus);
    ValueInjective(r, Minus(a, b));
  }

}
