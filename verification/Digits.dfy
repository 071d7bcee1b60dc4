/**
 Numbers written as big-endian sequences of 16-bit digits, and the 32-bit word
 operations of the i386 that the kernel's multiword routines are written with.
 */
module Digits {
  import opened Arith

  const B: int := 0x1_0000
  const W: int := 0x1_0000_0000

  /** A value of type `digit`: the code stores nothing larger than 16 bits in one. */
  type digit = x: int | 0 <= x < B

  /** A value of type `unsigned long`. */
  type word = x: int | 0 <= x < W

  function HHalf(x: word): digit { x / B }

  function LHalf(x: word): digit { x % B }

  function Sub32(x: word, y: word): word { (x - y) % W }

  function Add32(x: word, y: word): word { (x + y) % W }

  function Mul32(x: word, y: word): word { (x * y) % W }

  function Shl32(x: word, k: nat): word { (x * Pow2(k)) % W }

  function Shr32(x: word, k: nat): (r: word)
  {
    Pow2Positive(k);
    assert 0 <= x / Pow2(k) <= x by { DivBound(x, Pow2(k)); }
    x / Pow2(k)
  }

  /** Bitwise inclusive or. */
  function Or(x: nat, y: nat): nat
  {
    if x == 0 && y == 0 then 0
    else 2 * Or(x / 2, y / 2) + (if x % 2 == 1 || y % 2 == 1 then 1 else 0)
  }

  function Pow16(k: nat): int { if k == 0 then 1 else B * Pow16(k - 1) }

  /** The number a big-endian digit sequence stands for. */
  function Val(s: seq<digit>): int
  {
    if s == [] then 0 else B * Val(s[..|s| - 1]) + s[|s| - 1]
  }

  // Arithmetic

  lemma Pow2Sixteen()
    ensures Pow2(16) == B
  {
    assert Pow2(4) == 16;
    Pow2Add(4, 4);
    Pow2Add(8, 8);
  }

  lemma Pow16Positive(k: nat)
    ensures Pow16(k) >= 1
  {
  }

  lemma {:induction false} Pow16Add(a: nat, b: nat)
    ensures Pow16(a + b) == Pow16(a) * Pow16(b)
  {
    if a > 0 { Pow16Add(a - 1, b); }
  }

  /** Disjoint bit fields: or is addition. */
  lemma {:induction false} OrDisjoint(x: nat, y: nat, k: nat)
    requires x % (Pow2Positive(k); Pow2(k)) == 0 && y < Pow2(k)
    ensures Or(x, y) == x + y
    decreases k
  {
    Pow2Positive(k);
    if k == 0 {
      OrZero(x);
    } else {
      var p := Pow2(k - 1);
      Pow2Positive(k - 1);
      var z := x / (2 * p);
      assert x == 2 * (p * z) by { assert x == (2 * p) * z; }
      assert x / 2 == p * z;
      DivModUnique(p * z, p, z, 0);
      OrDisjoint(x / 2, y / 2, k - 1);
    }
  }

  lemma {:induction false} OrZero(x: nat)
    ensures Or(x, 0) == x
  {
    if x > 0 { OrZero(x / 2); }
  }

  lemma {:induction false} OrCommutes(x: nat, y: nat)
    ensures Or(x, y) == Or(y, x)
  {
    if x != 0 || y != 0 { OrCommutes(x / 2, y / 2); }
  }

  // Values of digit sequences

  lemma {:induction false} ValBound(s: seq<digit>)
    ensures 0 <= Val(s) < Pow16(|s|)
  {
    if s != [] { ValBound(s[..|s| - 1]); }
  }

  lemma {:induction false} ValConcat(a: seq<digit>, b: seq<digit>)
    ensures Val(a + b) == Val(a) * Pow16(|b|) + Val(b)
  {
    if b == [] {
      assert a + b == a;
    } else {
      var b' := b[..|b| - 1];
      assert (a + b)[..|a + b| - 1] == a + b';
      ValConcat(a, b');
      assert B * (Val(a) * Pow16(|b'|)) == Val(a) * Pow16(|b|);
    }
  }

  lemma ValHead(d: digit, s: seq<digit>)
    ensures Val([d] + s) == d * Pow16(|s|) + Val(s)
  {
    ValConcat([d], s);
    assert Val([d]) == d by { assert [d][..0] == []; }
  }

  lemma ValSnoc(s: seq<digit>, d: digit)
    ensures Val(s + [d]) == B * Val(s) + d
  {
    assert (s + [d])[..|s|] == s;
  }

  lemma {:induction false} ValZeros(s: seq<digit>)
    requires forall i :: 0 <= i < |s| ==> s[i] == 0
    ensures Val(s) == 0
  {
    if s != [] { ValZeros(s[..|s| - 1]); }
  }
}
