/** Powers of two, products, quotients and sequence surgery used throughout. */
module Arith {

  function Pow2(k: nat): int { if k == 0 then 1 else 2 * Pow2(k - 1) }

  lemma Pow2Positive(k: nat)
    ensures Pow2(k) >= 1
  {
  }

  lemma {:induction false} Pow2Add(a: nat, b: nat)
    ensures Pow2(a + b) == Pow2(a) * Pow2(b)
  {
    if a > 0 { Pow2Add(a - 1, b); }
  }

  lemma DivBound(x: int, d: int)
    requires 0 <= x && 1 <= d
    ensures 0 <= x / d <= x
  {
  }

  lemma MulAtLeast(k: int, d: int)
    requires k >= 1 && d >= 0
    ensures k * d >= d
  {
    assert (k - 1) * d >= 0;
  }

  lemma MulMono(x: int, y: int, d: int)
    requires x <= y && d >= 0
    ensures x * d <= y * d
  {
  }

  lemma MultipleInRange(k: int, d: int)
    requires d >= 1 && -d < k * d < d
    ensures k == 0
  {
    if k >= 1 {
      MulAtLeast(k, d);
    } else if k <= -1 {
      MulAtLeast(-k, d);
    }
  }

  /** The quotient and remainder of a division are the only pair with these two properties. */
  lemma DivModUnique(a: int, d: int, q: int, r: int)
    requires d >= 1 && a == q * d + r && 0 <= r < d
    ensures a / d == q && a % d == r
  {
    var q', r' := a / d, a % d;
    assert a == d * q' + r';
    assert (q - q') * d == q * d - q' * d;
    MultipleInRange(q - q', d);
  }

  /** Scaling by s, where s * c == b, moves the part of x above c across the digit boundary b. */
  lemma ScaledParts(x: int, s: int, c: int, b: int)
    requires s >= 1 && c >= 1 && s * c == b && 0 <= x < b
    ensures 0 <= x / c < s && 0 <= (x % c) * s <= b - s
    ensures x * s == (x / c) * b + (x % c) * s
  {
    var q, r := x / c, x % c;
    assert x == c * q + r;
    calc {
      x * s;
      (c * q + r) * s;
      c * q * s + r * s;
      { assert c * q * s == q * (s * c); }
      q * b + r * s;
    }
    MulMono(r, c - 1, s);
    assert (c - 1) * s == b - s;
    if q >= s { MulMono(s, q, c); }
  }

  /** Overwriting the last element of the second of four parts moves it to the third. */
  lemma OverwriteLast<T>(pre: seq<T>, w: seq<T>, r: seq<T>, post: seq<T>, x: T)
    requires w != []
    ensures (pre + w + r + post)[|pre| + |w| - 1 := x] == pre + w[..|w| - 1] + ([x] + r) + post
  {
  }

  lemma OverwriteOne<T>(pre: seq<T>, y: T, r: seq<T>, post: seq<T>, x: T)
    ensures (pre + [y] + r + post)[|pre| := x] == pre + ([x] + r) + post
  {
  }

  /** Overwriting the first element of the third of four parts moves it to the second. */
  lemma OverwriteFirst<T>(pre: seq<T>, r: seq<T>, w: seq<T>, post: seq<T>, x: T)
    requires w != []
    ensures (pre + r + w + post)[|pre| + |r| := x] == pre + (r + [x]) + w[1..] + post
  {
  }

  lemma SmallerPower(a: nat, b: nat)
    requires a <= b
    ensures Pow2(a) <= Pow2(b)
  {
    Pow2Add(a, b - a);
    Pow2Positive(a);
    Pow2Positive(b - a);
    MulMono(1, Pow2(b - a), Pow2(a));
  }
}
