/**
 * Little-endian byte strings: byte 0 is the least significant.
 * Value(s) is the sum of s[i] * 256^i; Encode is its inverse for a
 * fixed number of bytes.
 */
module LittleEndian {
  import opened Arith

  /** One `unsigned char`. */
  type byte = x: int | 0 <= x < 256

  /** 256^n */
  function Pow256(n: nat): (r: nat)
    ensures r >= 1
  {
    if n == 0 then 1 else 256 * Pow256(n - 1)
  }

  lemma {:induction false} Pow256IsPow2(n: nat)
    ensures Pow256(n) == Pow2(8 * n)
  {
    if n > 0 {
      Pow256IsPow2(n - 1);
      Pow2Add(8 * (n - 1), 8);
      assert Pow2(8) == 256;
    }
  }

  lemma {:induction false} Pow256Add(a: nat, b: nat)
    ensures Pow256(a + b) == Pow256(a) * Pow256(b)
  {
    Pow256IsPow2(a);
    Pow256IsPow2(b);
    Pow256IsPow2(a + b);
    Pow2Add(8 * a, 8 * b);
  }

  /** The unsigned number a little-endian byte string denotes. */
  function Value(s: seq<byte>): nat
  {
    if s == [] then 0 else s[0] + 256 * Value(s[1..])
  }

  /** n bytes hold a value below 256^n. */
  lemma {:induction false} ValueBound(s: seq<byte>)
    ensures Value(s) < Pow256(|s|)
  {
    if s != [] {
      ValueBound(s[1..]);
    }
  }

  /** The n low bytes of v, least significant first. */
  function Encode(v: nat, n: nat): (s: seq<byte>)
    ensures |s| == n
  {
    if n == 0 then [] else [v % 256] + Encode(v / 256, n - 1)
  }

  lemma {:induction false} ValueOfEncode(v: nat, n: nat)
    ensures Value(Encode(v, n)) == v % Pow256(n)
  {
    if n > 0 {
      var s := Encode(v, n);
      assert s[0] == v % 256 && s[1..] == Encode(v / 256, n - 1);
      ValueOfEncode(v / 256, n - 1);
      ModOfProduct(v, 256, Pow256(n - 1));
    }
  }

  lemma {:induction false} EncodeOfValue(s: seq<byte>)
    ensures Encode(Value(s), |s|) == s
  {
    if s != [] {
      DivModUnique(Value(s), 256, Value(s[1..]), s[0]);
      EncodeOfValue(s[1..]);
    }
  }

  /** Byte strings of one length are equal exactly when their values are. */
  lemma ValueInjective(s: seq<byte>, t: seq<byte>)
    requires |s| == |t| && Value(s) == Value(t)
    ensures s == t
  {
    EncodeOfValue(s);
    EncodeOfValue(t);
  }

  lemma {:induction false} ValueAppend(s: seq<byte>, t: seq<byte>)
    ensures Value(s + t) == Value(s) + Pow256(|s|) * Value(t)
  {
    if s == [] {
      assert s + t == t;
    } else {
      assert (s + t)[0] == s[0] && (s + t)[1..] == s[1..] + t;
      ValueAppend(s[1..], t);
      Regroup(s[0], Value(s[1..]), Pow256(|s| - 1), Value(t));
    }
  }

  lemma Regroup(b: int, low: int, p: int, high: int)
    ensures b + 256 * (low + p * high) == (b + 256 * low) + (256 * p) * high
  {
  }

  lemma ValueOfOne(x: byte)
    ensures Value([x]) == x
  {
    assert [x][1..] == [];
  }

  /** Appending one more significant byte. */
  lemma ValueSnoc(s: seq<byte>, x: byte)
    ensures Value(s + [x]) == Value(s) + x * Pow256(|s|)
  {
    ValueOfOne(x);
    ValueAppend(s, [x]);
  }

  /** The low i bytes hold the value modulo 256^i, the rest the quotient. */
  lemma ValueSplit(s: seq<byte>, i: nat)
    requires i <= |s|
    ensures Value(s[..i]) == Value(s) % Pow256(i)
    ensures Value(s[i..]) == Value(s) / Pow256(i)
  {
    var lo, hi := s[..i], s[i..];
    assert s == lo + hi;
    assert |lo| == i;
    ValueAppend(lo, hi);
    ValueBound(lo);
    SplitDivMod(Value(s), Pow256(i), Value(lo), Value(hi));
  }

  lemma SplitDivMod(v: int, p: int, low: int, high: int)
    requires 0 <= low < p && v == low + p * high
    ensures v % p == low && v / p == high
  {
    DivModUnique(v, p, high, low);
  }

  /** A run of n copies of one byte. */
  function Fill(n: nat, x: byte): (s: seq<byte>)
    ensures |s| == n && forall i :: 0 <= i < n ==> s[i] == x
  {
    seq(n, _ => x)
  }

  lemma {:induction false} ValueOfZeros(n: nat)
    ensures Value(Fill(n, 0)) == 0
  {
    if n > 0 {
      assert Fill(n, 0)[1..] == Fill(n - 1, 0);
      ValueOfZeros(n - 1);
    }
  }

  lemma {:induction false} ValueOfOnes(n: nat)
    ensures Value(Fill(n, 255)) == Pow256(n) - 1
  {
    if n > 0 {
      assert Fill(n, 255)[1..] == Fill(n - 1, 255);
      ValueOfOnes(n - 1);
    }
  }

  /** One step of a digit-by-digit decomposition of x. */
  lemma DigitStep(x: int, i: nat)
    ensures x % Pow256(i + 1) == x % Pow256(i) + Pow256(i) * ((x / Pow256(i)) % 256)
    ensures x / Pow256(i + 1) == x / Pow256(i) / 256
  {
    assert Pow256(i + 1) == Pow256(i) * 256;
    ModOfProduct(x, Pow256(i), 256);
  }

  lemma Pow256Succ(i: nat)
    ensures Pow256(i + 1) == 256 * Pow256(i)
  {
  }

  /** Extending a prefix by one byte adds that byte at its weight. */
  lemma ValuePrefixStep(s: seq<byte>, i: nat)
    requires i < |s|
    ensures Value(s[..i + 1]) == Value(s[..i]) + s[i] * Pow256(i)
  {
    assert s[..i + 1] == s[..i] + [s[i]];
    ValueSnoc(s[..i], s[i]);
  }

  /** Prepending one less significant byte. */
  lemma ValueSuffixStep(s: seq<byte>, i: nat)
    requires i < |s|
    ensures Value(s[i..]) == s[i] + 256 * Value(s[i + 1..])
  {
    assert s[i..][0] == s[i] && s[i..][1..] == s[i + 1..];
  }
}
