/**
 The kernel's 64-bit division (kernel/util/math.c): Knuth's Algorithm D in base
 2^16 on 32-bit words, and the libgcc entry points built on it.
 */
module Division {
  import opened Arith
  import opened Digits

  const Q: int := W * W

  type u64 = x: int | 0 <= x < Q
  type s64 = x: int | -0x8000_0000_0000_0000 <= x < 0x8000_0000_0000_0000

  /** Dividing by zero raises the processor's divide exception. */
  datatype Outcome = DivideError | Done(quotient: u64, remainder: u64)

  function Combine(a: word, b: word): (r: word)
    requires b < B
    ensures a < B ==> r == a * B + b
  {
    Pow2Sixteen();
    HighHalf(a);
    OrDisjoint(Shl32(a, 16), b, 16);
    Or(Shl32(a, 16), b)
  }

  lemma HighHalf(a: word)
    ensures Shl32(a, 16) % B == 0 && Shl32(a, 16) <= W - B
    ensures a < B ==> Shl32(a, 16) == a * B
  {
    Pow2Sixteen();
    var k := (a * B) / W;
    assert Shl32(a, 16) == B * (a - B * k);
  }

  // shl

  /** The parts of a digit that stay and that move when it is shifted by sh. */
  lemma ShiftParts(x: digit, sh: nat)
    requires 0 < sh < 16
    ensures Pow2(sh) >= 1 && Pow2(16 - sh) >= 1 && Pow2(sh) * Pow2(16 - sh) == B
    ensures LHalf(Shl32(x, sh)) == (x % Pow2(16 - sh)) * Pow2(sh) <= B - Pow2(sh)
    ensures 0 <= x / Pow2(16 - sh) < Pow2(sh)
    ensures x * Pow2(sh) == (x / Pow2(16 - sh)) * B + LHalf(Shl32(x, sh))
  {
    var s, c := Pow2(sh), Pow2(16 - sh);
    Pow2Positive(sh);
    Pow2Positive(16 - sh);
    Pow2Add(sh, 16 - sh);
    Pow2Sixteen();
    ScaledParts(x, s, c, B);
    assert s <= B by { MulMono(1, c, s); }
    DivModUnique(x * s, B, x / c, (x % c) * s);
  }

  /** The digit that Shl stores: the bits of x that stay, and those coming in from y on the right. */
  ghost predicate IsShiftedDigit(d: digit, x: digit, y: digit, sh: nat)
    requires sh <= 16
  {
    Pow2Positive(16 - sh);
    x * Pow2(sh) == (x / Pow2(16 - sh)) * B + (d - y / Pow2(16 - sh))
  }

  method ShiftedDigit(x: digit, y: digit, sh: nat) returns (d: digit)
    requires 0 < sh < 16
    ensures IsShiftedDigit(d, x, y, sh)
  {
    ShiftParts(x, sh);
    ShiftParts(y, sh);
    DivModUnique(LHalf(Shl32(x, sh)), Pow2(sh), x % Pow2(16 - sh), 0);
    OrDisjoint(LHalf(Shl32(x, sh)), y / Pow2(16 - sh), sh);
    d := Or(LHalf(Shl32(x, sh)), Shr32(y, 16 - sh));
  }

  /**
   Shifts the len + 1 digits at p[off..] left by sh bits. What comes out on the
   left is accounted for: nothing is lost when the top digit has room.
   */
  method Shl(p: array<digit>, off: nat, len: nat, sh: nat)
    requires 0 < sh < 16 && off + len < p.Length
    modifies p
    ensures p[..off] == old(p[..off]) && p[off + len + 1..] == old(p[off + len + 1..])
    ensures Pow2(16 - sh) >= 1
    ensures Val(p[off..off + len + 1]) + (old(p[off]) / Pow2(16 - sh)) * Pow16(len + 1)
         == Val(old(p[off..off + len + 1])) * Pow2(sh)
  {
    Pow2Positive(16 - sh);
    ghost var pre, o, post := p[..off], p[off..off + len + 1], p[off + len + 1..];
    assert p[..] == pre + [] + o + post;
    hide Shifting, IsShiftedDigit, Val;
    ghost var r := ShlDigits(p, off, len, sh, pre, o, post);
    var x := ShiftedDigit(p[off + len], 0, sh);
    ShlLast(r, o, sh, x);
    ghost var before := p[..];
    p[off + len] := x;
    assert p[..] == before[off + len := x];
    OverwriteFirst(pre, r, [o[len]], post, x);
    assert p[..] == pre + (r + [x]) + post;
    assert p[off..off + len + 1] == r + [x];
  }

  method ShlDigits(p: array<digit>, off: nat, len: nat, sh: nat,
                   ghost pre: seq<digit>, ghost o: seq<digit>, ghost post: seq<digit>)
      returns (ghost r: seq<digit>)
    requires 0 < sh < 16 && |pre| == off && |o| == len + 1 && p[..] == pre + [] + o + post
    modifies p
    ensures |r| == len && p[..] == pre + r + [o[len]] + post && Shifting(r, o, len, sh)
  {
    r := [];
    Pow2Positive(16 - sh);
    assert o[0..] == o;
    assert Shifting(r, o, 0, sh) by { assert o[..0] == []; }
    hide Shifting, IsShiftedDigit, Val;
    var i := 0;
    while i < len
      invariant 0 <= i <= len && |r| == i
      invariant p[..] == pre + r + o[i..] + post
      invariant Shifting(r, o, i, sh)
    {
      assert p[off + i] == o[i] && p[off + i + 1] == o[i + 1];
      var x := ShiftedDigit(p[off + i], p[off + i + 1], sh);
      ShlStep(r, o, i, sh, x);
      ghost var before := p[..];
      p[off + i] := x;
      assert p[..] == before[off + i := x];
      OverwriteFirst(pre, r, o[i..], post, x);
      assert o[i..][1..] == o[i + 1..];
      i, r := i + 1, r + [x];
    }
    assert o[len..] == [o[len]];
  }

  /** done holds the first i digits of o shifted left by sh, with what is about to move into them. */
  ghost predicate Shifting(done: seq<digit>, o: seq<digit>, i: nat, sh: nat)
    requires i < |o| && sh <= 16
  {
    Pow2Positive(16 - sh);
    Val(done) + (o[0] / Pow2(16 - sh)) * Pow16(i) == Val(o[..i]) * Pow2(sh) + o[i] / Pow2(16 - sh)
  }

  lemma ShlStep(done: seq<digit>, o: seq<digit>, i: nat, sh: nat, d: digit)
    requires 0 < sh < 16 && i + 1 < |o| && Shifting(done, o, i, sh)
    requires IsShiftedDigit(d, o[i], o[i + 1], sh)
    ensures Shifting(done + [d], o, i + 1, sh)
  {
    Pow2Positive(16 - sh);
    var s, c := Pow2(sh), Pow2(16 - sh);
    ValSnoc(done, d);
    assert o[..i + 1] == o[..i] + [o[i]];
    ValSnoc(o[..i], o[i]);
    ShiftAlgebra(Val(done), o[0] / c, Pow16(i), Pow16(i + 1), Val(o[..i]), s, o[i], o[i] / c, d - o[i + 1] / c,
                 Val(o[..i + 1]));
  }

  lemma ShlLast(done: seq<digit>, o: seq<digit>, sh: nat, d: digit)
    requires 0 < sh < 16 && o != [] && Shifting(done, o, |o| - 1, sh)
    requires IsShiftedDigit(d, o[|o| - 1], 0, sh)
    ensures Pow2(16 - sh) >= 1
    ensures Val(done + [d]) + (o[0] / Pow2(16 - sh)) * Pow16(|o|) == Val(o) * Pow2(sh)
  {
    Pow2Positive(16 - sh);
    var i := |o| - 1;
    var s, c := Pow2(sh), Pow2(16 - sh);
    ValSnoc(done, d);
    ShiftAlgebra(Val(done), o[0] / c, Pow16(i), Pow16(|o|), Val(o[..i]), s, o[i], o[i] / c, d, Val(o));
  }

  lemma ShiftAlgebra(a: int, top: int, p: int, pp: int, v: int, s: int, x: int, q: int, r: int, vv: int)
    requires a + top * p == v * s + q && x * s == q * B + r && pp == B * p && vv == B * v + x
    ensures B * a + r + top * pp == vv * s
  {
    calc {
      B * a + r + top * pp;
      { assert top * (B * p) == B * (top * p); }
      B * (a + top * p) + r;
      B * (v * s) + q * B + r;
      { assert B * (v * s) == (B * v) * s; }
      (B * v) * s + x * s;
      vv * s;
    }
  }

  // D3: the trial quotient

  /** The quotient of three digits by two, capped at the largest digit. */
  ghost predicate IsTrialQuotient(qhat: int, u3: int, v2: int)
  {
    && 0 <= qhat < B
    && qhat * v2 <= u3
    && (qhat == B - 1 || u3 < (qhat + 1) * v2)
  }

  /** q and r account for the two leading digits u2. */
  ghost predicate Splits(q: int, r: int, u2: int, v1: int) { q * v1 + r == u2 }

  ghost predicate HighEnough(q: int, u3: int, d2: int) { q >= B - 1 || u3 < (q + 1) * d2 }

  ghost predicate TooHigh(q: int, u3: int, d2: int) { q == B || u3 < q * d2 }

  method Estimate(uj0: digit, uj1: digit, uj2: digit, v1: digit, v2: digit) returns (qhat: word)
    requires 1 <= v1 && uj0 <= v1
    ensures IsTrialQuotient(qhat, (uj0 * B + uj1) * B + uj2, v1 * B + v2)
  {
    var rhat: word;
    var tooBig: bool;
    ghost var u2 := uj0 * B + uj1;
    ghost var u3, d2 := u2 * B + uj2, v1 * B + v2;
    if uj0 == v1 {
      qhat, rhat, tooBig := B, uj1, true;
    } else {
      qhat, rhat := DivideWord(uj0, uj1, uj2, v1, v2);
      tooBig := Exceeds(u2, uj2, v1, v2, qhat, rhat);
    }
    assert Splits(qhat, rhat, u2, v1) && HighEnough(qhat, u3, d2);
    hide Splits, HighEnough, TooHigh, IsTrialQuotient;
    while tooBig
      invariant qhat <= B && rhat < B && Splits(qhat, rhat, u2, v1) && HighEnough(qhat, u3, d2)
      invariant if tooBig then TooHigh(qhat, u3, d2) else qhat < B && !TooHigh(qhat, u3, d2)
      decreases qhat
    {
      Decrement(qhat, rhat, u2, v1, d2, u3);
      qhat := qhat - 1;
      rhat := Add32(rhat, v1);
      if rhat >= B {
        LargeRemainder(u2, uj2, v1, v2, qhat, rhat);
        break;
      }
      tooBig := Exceeds(u2, uj2, v1, v2, qhat, rhat);
    }
    Settled(qhat, u3, d2);
  }

  lemma Settled(q: int, u3: int, d2: int)
    requires 0 <= q < B && HighEnough(q, u3, d2) && !TooHigh(q, u3, d2)
    ensures IsTrialQuotient(q, u3, d2)
  {
  }

  lemma Decrement(q: int, r: int, u2: int, v1: int, d2: int, u3: int)
    requires 0 <= q <= B && 0 <= u3 && TooHigh(q, u3, d2) && Splits(q, r, u2, v1)
    ensures q >= 1 && Splits(q - 1, r + v1, u2, v1) && HighEnough(q - 1, u3, d2)
  {
  }

  /** nn / v1 and nn % v1 for the two leading digits nn. */
  method DivideWord(uj0: digit, uj1: digit, uj2: digit, v1: digit, ghost v2: digit) returns (q: word, r: word)
    requires uj0 < v1
    ensures q < B && r < B && Splits(q, r, uj0 * B + uj1, v1)
    ensures HighEnough(q, (uj0 * B + uj1) * B + uj2, v1 * B + v2)
  {
    var nn := Combine(uj0, uj1);
    FirstGuess(nn, v1, nn / v1, nn % v1, uj0, uj1, uj2, v2);
    q, r := nn / v1, nn % v1;
  }

  /** The loop test of step D3, in 32-bit arithmetic, is the exact comparison. */
  method Exceeds(ghost u2: int, uj2: digit, ghost v1: digit, v2: digit, q: word, r: word) returns (b: bool)
    requires q < B && r < B && Splits(q, r, u2, v1)
    ensures b <==> TooHigh(q, u2 * B + uj2, v1 * B + v2)
  {
    ExactTest(u2, uj2, v1, v2, q, r);
    b := Mul32(v2, q) > Combine(r, uj2);
  }

  lemma FirstGuess(u2: int, v1: int, q: int, r: int, uj0: digit, uj1: digit, uj2: digit, v2: digit)
    requires v1 >= 1 && u2 == uj0 * B + uj1 && uj0 < v1 && q == u2 / v1 && r == u2 % v1
    ensures 0 <= q < B && 0 <= r < v1 && q * v1 + r == u2
    ensures u2 * B + uj2 < (q + 1) * (v1 * B + v2)
  {
    assert u2 == v1 * q + r;
    if q >= B { MulMono(B, q, v1); }
    assert (q + 1) * v1 == q * v1 + v1 >= u2 + 1;
    assert (q + 1) * (v1 * B + v2) == ((q + 1) * v1) * B + (q + 1) * v2;
    assert (q + 1) * v2 >= 0;
  }

  /** The comparison of step D3 is exact: the 32-bit words do not overflow. */
  lemma ExactTest(u2: int, uj2: digit, v1: digit, v2: digit, q: word, r: word)
    requires q < B && r < B && q * v1 + r == u2
    ensures Mul32(v2, q) == v2 * q
    ensures Mul32(v2, q) > Combine(r, uj2) <==> u2 * B + uj2 < q * (v1 * B + v2)
  {
    MulMono(v2, B - 1, q);
    assert q * (v1 * B + v2) == (q * v1) * B + q * v2;
  }

  lemma LargeRemainder(u2: int, uj2: digit, v1: digit, v2: digit, q: int, r: int)
    requires 0 <= q < B && r >= B && Splits(q, r, u2, v1)
    ensures !TooHigh(q, u2 * B + uj2, v1 * B + v2)
  {
    MulMono(v2, B - 1, q);
    assert q * (v1 * B + v2) == (q * v1) * B + q * v2;
  }

  /** The trial quotient is the true quotient digit, or one more. */
  lemma TrialQuotient(u: int, v: int, qhat: int, u3: int, v2: int, p: int, ur: int, vr: int)
    requires p >= 1 && 0 <= ur < p && 0 <= vr < p && u == u3 * p + ur && v == v2 * p + vr
    requires v2 >= B && u < B * v && IsTrialQuotient(qhat, u3, v2)
    ensures u < (qhat + 1) * v && (qhat - 1) * v <= u
  {
    TrialNotSmall(u, v, qhat, u3, v2, p, ur, vr);
    TrialNotLarge(u, v, qhat, u3, v2, p, ur, vr);
  }

  lemma TrialNotSmall(u: int, v: int, q: int, u3: int, v2: int, p: int, ur: int, vr: int)
    requires p >= 1 && ur < p && 0 <= vr && u == u3 * p + ur && v == v2 * p + vr && 0 <= q
    requires u < B * v && (q == B - 1 || u3 < (q + 1) * v2)
    ensures u < (q + 1) * v
  {
    if q != B - 1 {
      MulMono(u3 + 1, (q + 1) * v2, p);
      assert (u3 + 1) * p == u3 * p + p;
      assert (q + 1) * v == ((q + 1) * v2) * p + (q + 1) * vr;
      MulMono(0, q + 1, vr);
    }
  }

  lemma TrialNotLarge(u: int, v: int, q: int, u3: int, v2: int, p: int, ur: int, vr: int)
    requires p >= 1 && 0 <= ur && 0 <= vr < p && u == u3 * p + ur && v == v2 * p + vr
    requires v2 >= B && 0 <= q < B && q * v2 <= u3
    ensures (q - 1) * v <= u
  {
    MulMono(q * v2, u3, p);
    MulMono(q, B, vr);
    MulMono(vr, p, B);
    MulMono(B, v2, p);
    assert (q - 1) * v == (q * v2) * p + q * vr - v2 * p - vr;
  }

  // D4: multiply and subtract

  lemma BorrowWord(x: digit, z: word, t: digit)
    requires z <= (B - 1) * (B - 1)
    ensures var r := Sub32(Sub32(x, z), t);
            x - z - t == LHalf(r) - LHalf(Sub32(B, HHalf(r))) * B
  {
    assert Sub32(Sub32(x, z), t) == (x - z - t) % W;
  }

  /** One digit of the subtraction: what is stored, and the borrow that goes on. */
  method SubDigit(x: digit, y: digit, qhat: digit, t: digit) returns (x': digit, t': digit)
    ensures x - y * qhat - t == x' - t' * B
  {
    MulMono(y, B - 1, qhat);
    assert (B - 1) * qhat <= (B - 1) * (B - 1);
    BorrowWord(x, Mul32(y, qhat), t);
    var r := Sub32(Sub32(x, Mul32(y, qhat)), t);
    x', t' := LHalf(r), LHalf(Sub32(B, HHalf(r)));
  }

  /** The top digit takes the last borrow; HHalf of the word is non-zero exactly when it underflows. */
  method SubTop(x: digit, t: digit) returns (x': digit, borrow: bool)
    ensures x - t == x' - (if borrow then B else 0)
  {
    var r := Sub32(x, t);
    x', borrow := LHalf(r), HHalf(r) != 0;
  }

  ghost predicate Subtracted(w: seq<digit>, qhat: int, d: seq<digit>, r: seq<digit>, t: int)
  {
    |w| == |d| == |r| && Val(w) - qhat * Val(d) == Val(r) - t * Pow16(|w|)
  }

  /**
   Subtracts qhat times v[vo + 1..vo + n] from u[k..k + n]. The result is read
   modulo 2^16 to the n + 1; the flag says whether it went below zero.
   */
  method MulSub(u: array<digit>, k: nat, v: array<digit>, vo: nat, n: nat, qhat: digit) returns (borrow: bool)
    requires u != v && k + n < u.Length && vo + n < v.Length
    modifies u
    ensures u[..k] == old(u[..k]) && u[k + n + 1..] == old(u[k + n + 1..])
    ensures Val(u[k..k + n + 1]) - (if borrow then Pow16(n + 1) else 0)
         == Val(old(u[k..k + n + 1])) - qhat * Val(v[vo + 1..vo + n + 1])
  {
    ghost var pre, w, post := u[..k], u[k..k + n + 1], u[k + n + 1..];
    ghost var d := v[vo + 1..vo + n + 1];
    assert u[..] == pre + w + [] + post;
    hide Subtracted, Val;
    var t, r := SubDigits(u, k, v, vo, n, qhat, pre, w, post, d);
    var x, b := SubTop(u[k], t);
    borrow := b;
    ghost var before := u[..];
    u[k] := x;
    assert u[..] == before[k := x];
    OverwriteOne(pre, w[0], r, post, x);
    assert u[k..k + n + 1] == [x] + r;
    assert w == [w[0]] + w[1..];
    SubtractTop(w[0], t, x, b, w[1..], qhat, d, r);
  }

  method SubDigits(u: array<digit>, k: nat, v: array<digit>, vo: nat, n: nat, qhat: digit,
                   ghost pre: seq<digit>, ghost w: seq<digit>, ghost post: seq<digit>, ghost d: seq<digit>)
      returns (t: digit, ghost r: seq<digit>)
    requires u != v && vo + n < v.Length && d == v[vo + 1..vo + n + 1]
    requires |pre| == k && |w| == n + 1 && u[..] == pre + w + [] + post
    modifies u
    ensures |r| == n && u[..] == pre + [w[0]] + r + post
    ensures Subtracted(w[1..], qhat, d, r, t)
  {
    t, r := 0, [];
    assert Subtracted(w[n + 1..], qhat, d[n..], r, t);
    assert w[..n + 1] == w;
    hide Subtracted, Val;
    var i := n;
    while i > 0
      invariant 0 <= i <= n && |r| == n - i
      invariant u[..] == pre + w[..i + 1] + r + post
      invariant Subtracted(w[i + 1..], qhat, d[i..], r, t)
    {
      assert u[i + k] == w[i] && v[vo + i] == d[i - 1];
      var x, t' := SubDigit(u[i + k], v[vo + i], qhat, t);
      ghost var before := u[..];
      u[i + k] := x;
      assert u[..] == before[i + k := x];
      OverwriteLast(pre, w[..i + 1], r, post, x);
      assert w[..i + 1][..i] == w[..i];
      assert w[i..] == [w[i]] + w[i + 1..] && d[i - 1..] == [d[i - 1]] + d[i..];
      MulSubStep(w[i], d[i - 1], qhat, t, x, t', w[i + 1..], d[i..], r);
      r, t, i := [x] + r, t', i - 1;
    }
    assert w[..1] == [w[0]] && d[0..] == d;
  }

  lemma SubtractTop(x: digit, t: int, x': digit, b: bool, w: seq<digit>, qhat: int, d: seq<digit>, r: seq<digit>)
    requires x - t == x' - (if b then B else 0) && Subtracted(w, qhat, d, r, t)
    ensures Val([x'] + r) - (if b then Pow16(|w| + 1) else 0) == Val([x] + w) - qhat * Val(d)
  {
    ValHead(x, w);
    ValHead(x', r);
    BorrowOut(x, t, x', if b then B else 0, Pow16(|w|));
  }

  lemma BorrowOut(x: int, t: int, y: int, b: int, p: int)
    requires x - t == y - b
    ensures x * p - t * p == y * p - b * p
  {
    assert (x - t) * p == (y - b) * p;
  }

  lemma MulSubStep(x: digit, y: digit, qhat: int, t: int, x': digit, t': int,
                   w: seq<digit>, d: seq<digit>, rest: seq<digit>)
    requires x - y * qhat - t == x' - t' * B && Subtracted(w, qhat, d, rest, t)
    ensures Subtracted([x] + w, qhat, [y] + d, [x'] + rest, t')
  {
    ValHead(x, w);
    ValHead(y, d);
    ValHead(x', rest);
    SubAlgebra(x, y, qhat, t, x', t', Pow16(|w|), Pow16(|w| + 1), Val(w), Val(d), Val(rest),
               Val([x] + w), Val([y] + d), Val([x'] + rest));
  }

  lemma SubAlgebra(x: int, y: int, q: int, t: int, x': int, t': int, p: int, pp: int,
                   a: int, b: int, c: int, xa: int, yb: int, xc: int)
    requires x - y * q - t == x' - t' * B && a - q * b == c - t * p
    requires pp == B * p && xa == x * p + a && yb == y * p + b && xc == x' * p + c
    ensures xa - q * yb == xc - t' * pp
  {
    calc {
      q * yb;
      q * (y * p + b);
      (y * q) * p + q * b;
    }
    calc {
      x * p - (y * q) * p - t * p;
      (x - y * q - t) * p;
      (x' - t' * B) * p;
      x' * p - t' * (B * p);
    }
  }

  // D6: add back

  method AddDigit(x: digit, y: digit, t: word) returns (x': digit, t': word)
    requires t <= 1
    ensures x + y + t == x' + t' * B && t' <= 1
  {
    var r := Add32(t, Add32(x, y));
    x', t' := LHalf(r), HHalf(r);
  }

  ghost predicate Added(w: seq<digit>, d: seq<digit>, r: seq<digit>, t: int)
  {
    |w| == |d| == |r| && Val(w) + Val(d) == Val(r) + t * Pow16(|w|)
  }

  /** Adds v[vo + 1..vo + n] to u[k..k + n]; the carry out of the top digit is dropped. */
  method AddBack(u: array<digit>, k: nat, v: array<digit>, vo: nat, n: nat) returns (ghost carry: nat)
    requires u != v && k + n < u.Length && vo + n < v.Length
    modifies u
    ensures u[..k] == old(u[..k]) && u[k + n + 1..] == old(u[k + n + 1..])
    ensures carry <= 1
    ensures Val(u[k..k + n + 1]) + carry * Pow16(n + 1)
         == Val(old(u[k..k + n + 1])) + Val(v[vo + 1..vo + n + 1])
  {
    ghost var pre, w, post := u[..k], u[k..k + n + 1], u[k + n + 1..];
    ghost var d := v[vo + 1..vo + n + 1];
    assert u[..] == pre + w + [] + post;
    hide Added, Val;
    var t, r := AddDigits(u, k, v, vo, n, pre, w, post, d);
    var x, t' := AddDigit(u[k], 0, t);
    carry := t';
    ghost var before := u[..];
    u[k] := x;
    assert u[..] == before[k := x];
    OverwriteOne(pre, w[0], r, post, x);
    assert u[k..k + n + 1] == [x] + r;
    assert w == [w[0]] + w[1..];
    AddTop(w[0], t, x, t', w[1..], d, r);
  }

  method AddDigits(u: array<digit>, k: nat, v: array<digit>, vo: nat, n: nat,
                   ghost pre: seq<digit>, ghost w: seq<digit>, ghost post: seq<digit>, ghost d: seq<digit>)
      returns (t: word, ghost r: seq<digit>)
    requires u != v && vo + n < v.Length && d == v[vo + 1..vo + n + 1]
    requires |pre| == k && |w| == n + 1 && u[..] == pre + w + [] + post
    modifies u
    ensures |r| == n && t <= 1 && u[..] == pre + [w[0]] + r + post
    ensures Added(w[1..], d, r, t)
  {
    t, r := 0, [];
    assert Added(w[n + 1..], d[n..], r, t);
    assert w[..n + 1] == w;
    hide Added, Val;
    var i := n;
    while i > 0
      invariant 0 <= i <= n && |r| == n - i && t <= 1
      invariant u[..] == pre + w[..i + 1] + r + post
      invariant Added(w[i + 1..], d[i..], r, t)
    {
      assert u[i + k] == w[i] && v[vo + i] == d[i - 1];
      var x, t' := AddDigit(u[i + k], v[vo + i], t);
      ghost var before := u[..];
      u[i + k] := x;
      assert u[..] == before[i + k := x];
      OverwriteLast(pre, w[..i + 1], r, post, x);
      assert w[..i + 1][..i] == w[..i];
      assert w[i..] == [w[i]] + w[i + 1..] && d[i - 1..] == [d[i - 1]] + d[i..];
      AddStep(w[i], d[i - 1], t, x, t', w[i + 1..], d[i..], r);
      r, t, i := [x] + r, t', i - 1;
    }
    assert w[..1] == [w[0]] && d[0..] == d;
  }

  lemma AddTop(x: digit, t: int, x': digit, t': int, w: seq<digit>, d: seq<digit>, rest: seq<digit>)
    requires x + t == x' + t' * B && Added(w, d, rest, t)
    ensures Val([x'] + rest) + t' * Pow16(|w| + 1) == Val([x] + w) + Val(d)
  {
    ValHead(x, w);
    ValHead(x', rest);
    AddAlgebra(x, 0, t, x', t', Pow16(|w|));
  }

  lemma AddStep(x: digit, y: digit, t: int, x': digit, t': int, w: seq<digit>, d: seq<digit>, rest: seq<digit>)
    requires x + y + t == x' + t' * B && Added(w, d, rest, t)
    ensures Added([x] + w, [y] + d, [x'] + rest, t')
  {
    ValHead(x, w);
    ValHead(y, d);
    ValHead(x', rest);
    AddAlgebra(x, y, t, x', t', Pow16(|w|));
  }

  lemma AddAlgebra(x: int, y: int, t: int, x': int, t': int, p: int)
    requires x + y + t == x' + t' * B
    ensures x * p + y * p + t * p == x' * p + t' * (B * p)
  {
    calc {
      x * p + y * p + t * p;
      (x + y + t) * p;
      (x' + t' * B) * p;
      x' * p + t' * (B * p);
    }
  }

  // D3 to D6: one quotient digit

  /**
   Divides the n + 1 digits u[k..k + n] by the n digits v[vo + 1..vo + n] when the
   quotient is a single digit: the digit is returned and the remainder left in u.
   */
  method DivideStep(u: array<digit>, k: nat, v: array<digit>, vo: nat, n: nat) returns (qhat: digit)
    requires u != v && 2 <= n && k + n < u.Length && vo + n < v.Length && v[vo + 1] != 0
    requires Val(u[k..k + n + 1]) < B * Val(v[vo + 1..vo + n + 1])
    modifies u
    ensures u[..k] == old(u[..k]) && u[k + n + 1..] == old(u[k + n + 1..]) && u[k] == 0
    ensures Val(u[k + 1..k + n + 1]) == Val(old(u[k..k + n + 1])) - qhat * Val(v[vo + 1..vo + n + 1])
    ensures Val(u[k + 1..k + n + 1]) < Val(v[vo + 1..vo + n + 1])
  {
    hide Val, Pow16;
    ghost var w, d := u[k..k + n + 1], v[vo + 1..vo + n + 1];
    LeadingDigits(w, d);
    qhat := Guess(u[k], u[k + 1], u[k + 2], v[vo + 1], v[vo + 2], w, d);
    var borrow := MulSub(u, k, v, vo, n, qhat);
    ghost var r := u[k..k + n + 1];
    ValBound(r);
    ValBound(d);
    ValBound(w);
    if borrow {
      ghost var carry := AddBack(u, k, v, vo, n);
      ghost var r' := u[k..k + n + 1];
      ValBound(r');
      AddedBack(Val(w), Val(d), qhat, Val(r), Val(r'), Pow16(n + 1), carry);
      qhat := qhat - 1;
      r := r';
    } else {
      NoBorrow(Val(w), Val(d), qhat, Val(r));
    }
    TopDigitZero(r, d);
    assert r[1..] == u[k + 1..k + n + 1];
  }

  /** Step D3: a quotient digit that is right or one too large. */
  method Guess(uj0: digit, uj1: digit, uj2: digit, v1: digit, v2: digit, ghost w: seq<digit>, ghost d: seq<digit>)
      returns (qhat: digit)
    requires 2 <= |d| && |w| == |d| + 1 && w[..3] == [uj0, uj1, uj2] && d[..2] == [v1, v2]
    requires Val(w) < B * Val(d) && v1 != 0 && uj0 <= v1
    ensures Val(w) < (qhat + 1) * Val(d) && (qhat - 1) * Val(d) <= Val(w)
  {
    var guess := Estimate(uj0, uj1, uj2, v1, v2);
    assert w[0] == w[..3][0] && w[1] == w[..3][1] && w[2] == w[..3][2];
    assert d[0] == d[..2][0] && d[1] == d[..2][1];
    TrialDigit(w, d, guess);
    qhat := guess;
  }

  lemma NoBorrow(w: int, d: int, q: int, r: int)
    requires w < (q + 1) * d && r == w - q * d
    ensures r < d
  {
    assert (q + 1) * d == q * d + d;
  }

  /** The digit u[j] of step D3 never exceeds v[1]. */
  lemma LeadingDigits(w: seq<digit>, d: seq<digit>)
    requires 2 <= |d| && |w| == |d| + 1 && Val(w) < B * Val(d)
    ensures w[0] <= d[0]
  {
    var n := |d|;
    assert w == [w[0]] + w[1..] && d == [d[0]] + d[1..];
    ValHead(w[0], w[1..]);
    ValHead(d[0], d[1..]);
    ValBound(w[1..]);
    ValBound(d[1..]);
    LeadingAlgebra(w[0], d[0], Pow16(n - 1), Val(w[1..]), Val(d[1..]));
  }

  lemma LeadingAlgebra(x: int, y: int, p: int, a: int, b: int)
    requires x * (B * p) + a < B * (y * p + b) && 0 <= a && b < p && 0 <= p
    ensures x <= y
  {
    assert (y + 1) * (B * p) == B * (y * p + p);
    if x > y { MulMono(y + 1, x, B * p); }
  }

  lemma TrialDigit(w: seq<digit>, d: seq<digit>, qhat: int)
    requires 2 <= |d| && |w| == |d| + 1 && Val(w) < B * Val(d) && d[0] != 0
    requires IsTrialQuotient(qhat, (w[0] * B + w[1]) * B + w[2], d[0] * B + d[1])
    ensures Val(w) < (qhat + 1) * Val(d) && (qhat - 1) * Val(d) <= Val(w)
  {
    hide IsTrialQuotient, Val, Pow16;
    assert w == w[..3] + w[3..] && d == d[..2] + d[2..];
    ValConcat(w[..3], w[3..]);
    ValConcat(d[..2], d[2..]);
    ValBound(w[3..]);
    ValBound(d[2..]);
    ValTwo(d[..2]);
    assert w[..3] == w[..2] + [w[2]];
    ValSnoc(w[..2], w[2]);
    ValTwo(w[..2]);
    Pow16Positive(|d| - 2);
    TrialQuotient(Val(w), Val(d), qhat, Val(w[..3]), Val(d[..2]), Pow16(|d| - 2), Val(w[3..]), Val(d[2..]));
  }

  lemma ValTwo(s: seq<digit>)
    requires |s| == 2
    ensures Val(s) == s[0] * B + s[1]
  {
    assert s == [s[0]] + [s[1]];
    ValSnoc([s[0]], s[1]);
    ValSnoc([], s[0]);
    assert [] + [s[0]] == [s[0]];
  }

  /** Exactly one add-back is needed after a borrow, and it carries out of the top digit. */
  lemma AddedBack(w: int, d: int, q: int, r: int, r': int, p: int, carry: int)
    requires (q - 1) * d <= w && r - p == w - q * d && r' + carry * p == r + d
    requires 0 <= r < p && 0 <= r' < p && 0 <= d && 0 <= carry <= 1 && 0 <= w && 0 <= q
    ensures q >= 1 && r' == w - (q - 1) * d && r' < d
  {
    assert (q - 1) * d == q * d - d;
  }

  lemma TopDigitZero(r: seq<digit>, d: seq<digit>)
    requires |r| == |d| + 1 && Val(r) < Val(d)
    ensures r[0] == 0 && Val(r[1..]) == Val(r)
  {
    hide Val, Pow16;
    assert r == [r[0]] + r[1..];
    ValHead(r[0], r[1..]);
    ValBound(d);
    ValBound(r[1..]);
    TopZero(r[0], Pow16(|d|), Val(r[1..]), Val(r));
  }

  lemma TopZero(h: nat, p: int, rest: int, v: int)
    requires v == h * p + rest && rest >= 0 && 0 <= v < p
    ensures h == 0
  {
    if h > 0 { MulMono(1, h, p); }
  }

  // D2 to D7: all quotient digits

  /**
   Long division of the m + n + 1 digits u[uo..] by the n digits v[vo + 1..]: the
   m + 1 quotient digits go to q[qo..], the remainder to the last n digits of u.
   */
  method DivideDigits(u: array<digit>, uo: nat, v: array<digit>, vo: nat, q: array<digit>, qo: nat, m: nat, n: nat)
    requires u != v && u != q && v != q && 2 <= n
    requires u.Length == uo + m + n + 1 && vo + n < v.Length && q.Length == qo + m + 1
    requires v[vo + 1] != 0
    requires Val(u[uo..uo + n]) < Val(v[vo + 1..vo + n + 1])
    modifies u, q
    ensures u[..uo] == old(u[..uo]) && q[..qo] == old(q[..qo])
    ensures forall i :: uo <= i <= uo + m ==> u[i] == 0
    ensures Val(old(u[uo..])) == Val(q[qo..]) * Val(v[vo + 1..vo + n + 1]) + Val(u[uo + m + 1..])
    ensures Val(u[uo + m + 1..]) < Val(v[vo + 1..vo + n + 1])
  {
    ghost var o, d := u[uo..], v[vo + 1..vo + n + 1];
    ghost var pre, qpre := u[..uo], q[..qo];
    assert u[uo..uo + n] == o[..n];
    assert Divided(o[..n], [], d, o[..n]);
    hide Divided, Val;
    assert u[..] == pre + o[..n] + o[n..];
    ghost var done, qs, r := DivideLoop(u, uo, v, vo, q, qo, m, n, pre, o, d);
    DividedValues(o, qs, d, r);
    assert q[qo..] == qs && q[..qo] == qpre;
    assert u[uo + m + 1..] == r && u[..uo] == done[..uo];
  }

  method DivideLoop(u: array<digit>, uo: nat, v: array<digit>, vo: nat, q: array<digit>, qo: nat, m: nat, n: nat,
                    ghost pre: seq<digit>, ghost o: seq<digit>, ghost d: seq<digit>)
      returns (ghost done: seq<digit>, ghost qs: seq<digit>, ghost r: seq<digit>)
    requires u != v && u != q && v != q && 2 <= n
    requires vo + n < v.Length && q.Length == qo + m + 1 && v[vo + 1] != 0 && d == v[vo + 1..vo + n + 1]
    requires |pre| == uo && |o| == m + n + 1 && u[..] == pre + o[..n] + o[n..]
    requires Divided(o[..n], [], d, o[..n])
    modifies u, q
    ensures |done| == uo + m + 1 && |r| == n && |qs| == m + 1
    ensures u[..] == done + r && done[..uo] == pre && forall i :: uo <= i < |done| ==> done[i] == 0
    ensures q[..] == old(q[..qo]) + qs
    ensures Divided(o, qs, d, r)
  {
    hide Divided, Val;
    ghost var todo := o[n..];
    done, qs, r := pre, [], o[..n];
    var j := 0;
    while j <= m
      invariant 0 <= j <= m + 1 && |qs| == j && |r| == n && |done| == uo + j && done[..uo] == pre
      invariant u[..] == done + r + todo && todo == o[j + n..]
      invariant forall i :: uo <= i < |done| ==> done[i] == 0
      invariant q[..qo + j] == old(q[..qo]) + qs
      invariant Divided(o[..j + n], qs, d, r)
    {
      assert v[vo + 1..vo + n + 1] == d;
      var qhat := DivideWindow(u, uo + j, v, vo, n, done, r, todo, d, o[..j + n], qs);
      done, r := done + [0], u[uo + j + 1..uo + j + n + 1];
      assert o[..j + 1 + n] == o[..j + n] + [todo[0]];
      todo := todo[1..];
      q[qo + j] := qhat;
      assert q[..qo + j + 1] == old(q[..qo]) + (qs + [qhat]);
      qs, j := qs + [qhat], j + 1;
    }
    assert o[..m + 1 + n] == o && todo == [];
    assert q[..qo + m + 1] == q[..];
  }

  lemma DividedValues(o: seq<digit>, q: seq<digit>, d: seq<digit>, r: seq<digit>)
    requires Divided(o, q, d, r)
    ensures Val(o) == Val(q) * Val(d) + Val(r) && Val(r) < Val(d)
  {
  }

  /** One turn of the loop: u is pre + r + post, and the next digit of the dividend joins the remainder r. */
  method DivideWindow(u: array<digit>, k: nat, v: array<digit>, vo: nat, n: nat,
                      ghost pre: seq<digit>, ghost r: seq<digit>, ghost post: seq<digit>, ghost d: seq<digit>,
                      ghost o: seq<digit>, ghost qs: seq<digit>)
      returns (qhat: digit)
    requires u != v && 2 <= n && vo + n < v.Length && d == v[vo + 1..vo + n + 1] && v[vo + 1] != 0
    requires |pre| == k && |r| == n && post != [] && u[..] == pre + r + post
    requires Divided(o, qs, d, r)
    modifies u
    ensures k + n < u.Length
    ensures u[..] == pre + [0] + u[k + 1..k + n + 1] + post[1..]
    ensures Divided(o + [post[0]], qs + [qhat], d, u[k + 1..k + n + 1])
  {
    assert |u[..]| == u.Length == k + n + |post|;
    assert u[k..k + n + 1] == r + [post[0]];
    ValSnoc(r, post[0]);
    qhat := DivideStep(u, k, v, vo, n);
    assert u[..k] == pre && u[k + n + 1..] == post[1..];
    assert u[..] == u[..k] + [u[k]] + u[k + 1..k + n + 1] + u[k + n + 1..];
    NextDigit(o, qs, d, r, post[0], qhat, u[k + 1..k + n + 1]);
  }

  ghost predicate Divided(o: seq<digit>, q: seq<digit>, d: seq<digit>, r: seq<digit>)
  {
    Val(o) == Val(q) * Val(d) + Val(r) && Val(r) < Val(d)
  }

  lemma NextDigit(o: seq<digit>, q: seq<digit>, d: seq<digit>, r: seq<digit>, x: digit, qhat: digit, r': seq<digit>)
    requires Divided(o, q, d, r)
    requires Val(r') == Val(r + [x]) - qhat * Val(d) && Val(r') < Val(d)
    ensures Divided(o + [x], q + [qhat], d, r')
  {
    ValSnoc(o, x);
    ValSnoc(q, qhat);
    ValSnoc(r, x);
    NextAlgebra(Val(o), Val(q), Val(d), Val(r), qhat, Val(q + [qhat]));
  }

  lemma NextAlgebra(o: int, q: int, d: int, r: int, qhat: int, q': int)
    requires o == q * d + r && q' == B * q + qhat
    ensures B * o == q' * d - qhat * d + B * r
  {
    calc {
      q' * d;
      (B * q + qhat) * d;
      B * (q * d) + qhat * d;
    }
  }

  // D1: normalise

  /** Scales dividend and divisor by the power of two that brings the divisor's first digit to B / 2 or more. */
  method Normalise(u: array<digit>, uo: nat, v: array<digit>, vo: nat, n: nat) returns (d: nat)
    requires u != v && uo < u.Length && u[uo] == 0
    requires 1 <= n && vo + n + 1 == v.Length && v[vo + 1] != 0
    modifies u, v
    ensures d < 16 && v[vo + 1] >= B / 2
    ensures u[..uo] == old(u[..uo])
    ensures Val(u[uo..]) == Val(old(u[uo..])) * Pow2(d)
    ensures Val(v[vo + 1..]) == Val(old(v[vo + 1..])) * Pow2(d)
  {
    d := ShiftCount(v[vo + 1]);
    hide Val;
    if d == 0 {
      assert Pow2(0) == 1;
      return;
    }
    hide Pow2;
    ghost var vs := v[vo + 1..];
    assert v[vo + 1] == vs[0];
    ShlAll(u, uo, d);
    ShlAll(v, vo + 1, d);
    Pow2Positive(d);
    TopDigit(v[vo + 1..], vs, vs[0] * Pow2(d), Pow2(d));
  }

  /** Shl on all the digits from off, when the first has room for the bits moving into it. */
  method ShlAll(p: array<digit>, off: nat, sh: nat)
    requires 0 < sh < 16 && off < p.Length && p[off] * Pow2(sh) < B
    modifies p
    ensures p[..off] == old(p[..off])
    ensures Val(p[off..]) == Val(old(p[off..])) * Pow2(sh)
  {
    hide Val;
    ShiftFits(p[off], sh);
    assert p[off..p.Length] == p[off..];
    Shl(p, off, p.Length - off - 1, sh);
    assert p[off..p.Length] == p[off..];
  }

  method ShiftCount(v1: digit) returns (d: nat)
    requires 1 <= v1
    ensures d < 16 && B / 2 <= v1 * Pow2(d) < B
    ensures d == 0 ==> B / 2 <= v1
  {
    d := 0;
    var t: word := v1;
    while t < B / 2
      invariant d < 16 && t == v1 * Pow2(d) < B
      decreases B - t
    {
      NextShift(v1, d, t);
      d := d + 1;
      t := Shl32(t, 1);
    }
  }

  lemma NextShift(v1: digit, d: nat, t: word)
    requires 1 <= v1 && d < 16 && t == v1 * Pow2(d) < B / 2
    ensures d < 15 && v1 * Pow2(d + 1) == 2 * t == Shl32(t, 1)
  {
    Pow2Positive(d);
    MulMono(1, v1, Pow2(d));
    Pow2Sixteen();
    assert Pow2(16) == 2 * Pow2(15);
    assert Pow2(1) == 2;
  }

  /** Nothing falls out of the divisor's first digit. */
  lemma ShiftFits(v1: digit, d: nat)
    requires 0 < d < 16 && v1 * Pow2(d) < B
    ensures Pow2(16 - d) >= 1 && v1 / Pow2(16 - d) == 0
  {
    ShiftParts(v1, d);
  }

  lemma TopDigit(v: seq<digit>, old_v: seq<digit>, top: int, s: int)
    requires v != [] && |v| == |old_v| && Val(v) == Val(old_v) * s && top == old_v[0] * s && s >= 0
    ensures v[0] >= top
  {
    var p := Pow16(|v| - 1);
    assert v == [v[0]] + v[1..] && old_v == [old_v[0]] + old_v[1..];
    ValHead(v[0], v[1..]);
    ValHead(old_v[0], old_v[1..]);
    ValBound(v[1..]);
    ValBound(old_v[1..]);
    hide Val, Pow16;
    TopAlgebra(v[0], old_v[0], Val(v[1..]), Val(old_v[1..]), s, p, Val(v), Val(old_v));
  }

  lemma TopAlgebra(x: int, y: int, a: int, b: int, s: int, p: int, vx: int, vy: int)
    requires vx == x * p + a && vy == y * p + b && vx == vy * s && 0 <= a < p && 0 <= b && 0 <= s
    ensures x >= y * s
  {
    assert vy * s == (y * s) * p + b * s;
    assert b * s >= 0;
    assert (x + 1) * p == x * p + p;
    if x < y * s { MulMono(x + 1, y * s, p); }
  }

  // The remainder

  ghost predicate IsRightShifted(d: digit, x: digit, y: digit, sh: nat)
  {
    Pow2Positive(sh);
    Pow2(sh) * d + x % Pow2(sh) == x + (y % Pow2(sh)) * B
  }

  /** One digit of a right shift: the bits of x that stay, and those coming in from y on the left. */
  method RightShifted(x: digit, y: digit, sh: nat) returns (d: digit)
    requires 0 < sh < 16
    ensures IsRightShifted(d, x, y, sh)
  {
    var lo, hi := Shr32(x, sh), LHalf(Shl32(y, 16 - sh));
    ghost var s, c := Pow2(sh), Pow2(16 - sh);
    ShiftParts(y, 16 - sh);
    ScaledParts(x, c, s, B);
    DivModUnique(hi, c, y % s, 0);
    OrDisjoint(hi, lo, 16 - sh);
    OrCommutes(hi, lo);
    RightAlgebra(x, s, c, y % s, lo, hi);
    d := Or(lo, hi);
  }

  lemma RightAlgebra(x: int, s: int, c: int, yr: int, lo: int, hi: int)
    requires s >= 1 && lo == x / s && hi == yr * c && c * s == B
    ensures s * (hi + lo) + x % s == x + yr * B
  {
    assert x == s * (x / s) + x % s;
    assert s * (yr * c) == yr * (c * s);
  }

  /** r holds the last digits of w shifted right by sh. */
  ghost predicate RightShifting(r: seq<digit>, w: seq<digit>, i: nat, sh: nat)
    requires i < |w|
  {
    Pow2Positive(sh);
    Pow2(sh) * Val(r) + w[|w| - 1] % Pow2(sh) == Val(w[i + 1..]) + (w[i] % Pow2(sh)) * Pow16(|w| - 1 - i)
  }

  lemma RightShiftStep(r: seq<digit>, w: seq<digit>, i: nat, sh: nat, d: digit)
    requires 0 < i < |w| && |r| == |w| - 1 - i && RightShifting(r, w, i, sh)
    requires IsRightShifted(d, w[i], w[i - 1], sh)
    ensures RightShifting([d] + r, w, i - 1, sh)
  {
    Pow2Positive(sh);
    var s := Pow2(sh);
    assert w[i..] == [w[i]] + w[i + 1..];
    ValHead(w[i], w[i + 1..]);
    ValHead(d, r);
    RightShiftAlgebra(s, d, w[i], w[i] % s, w[i - 1] % s, Pow16(|r|), Pow16(|r| + 1), Val(r), Val(w[i + 1..]),
                      w[|w| - 1] % s, Val([d] + r), Val(w[i..]));
  }

  lemma RightShiftAlgebra(s: int, d: int, x: int, xr: int, yr: int, p: int, pp: int, a: int, b: int, e: int,
                          a': int, b': int)
    requires s * d + xr == x + yr * B && s * a + e == b + xr * p && pp == B * p
    requires a' == d * p + a && b' == x * p + b
    ensures s * a' + e == b' + yr * pp
  {
    calc {
      s * a' + e;
      s * (d * p + a) + e;
      { assert s * (d * p + a) == (s * d) * p + s * a; }
      (x + yr * B - xr) * p + b + xr * p;
      { assert (x + yr * B - xr) * p == x * p + yr * (B * p) - xr * p; }
      b' + yr * pp;
    }
  }

  method ShiftRight(u: array<digit>, lo: nat, sh: nat)
    requires lo < u.Length && u[lo] == 0 && 0 < sh < 16
    modifies u
    ensures u[..lo + 1] == old(u[..lo + 1])
    ensures Pow2(sh) >= 1 && Val(u[lo + 1..]) == Val(old(u[lo + 1..])) / Pow2(sh)
  {
    Pow2Positive(sh);
    ghost var pre, w := u[..lo], u[lo..];
    assert u[..] == pre + w + [] + [];
    hide RightShifting, IsRightShifted, Val;
    ghost var r := ShiftRightDigits(u, lo, sh, pre, w);
    u[lo] := 0;
    assert u[lo + 1..] == r;
    assert u[..lo + 1] == pre + [0] && old(u[..lo + 1]) == pre + [0];
    assert w[1..] == old(u[lo + 1..]);
    RightShiftDone(r, w, sh);
  }

  method ShiftRightDigits(u: array<digit>, lo: nat, sh: nat, ghost pre: seq<digit>, ghost w: seq<digit>)
      returns (ghost r: seq<digit>)
    requires 0 < sh < 16 && |pre| == lo && w != [] && u[..] == pre + w + [] + []
    modifies u
    ensures |r| == |w| - 1 && u[..] == pre + [w[0]] + r + [] && RightShifting(r, w, 0, sh)
  {
    r := [];
    assert |u[..]| == lo + |w|;
    var i := u.Length - lo - 1;
    Pow2Positive(sh);
    assert w[..i + 1] == w;
    assert RightShifting(r, w, i, sh) by { assert w[i + 1..] == []; }
    hide RightShifting, IsRightShifted, Val;
    while i > 0
      invariant 0 <= i < |w| && |r| == |w| - 1 - i
      invariant u[..] == pre + w[..i + 1] + r + []
      invariant RightShifting(r, w, i, sh)
    {
      assert u[lo + i] == w[i] && u[lo + i - 1] == w[i - 1];
      var x := RightShifted(u[lo + i], u[lo + i - 1], sh);
      RightShiftStep(r, w, i, sh, x);
      ghost var before := u[..];
      u[lo + i] := x;
      assert u[..] == before[lo + i := x];
      OverwriteLast(pre, w[..i + 1], r, [], x);
      assert w[..i + 1][..i] == w[..i];
      r, i := [x] + r, i - 1;
    }
    assert w[..1] == [w[0]];
  }

  lemma RightShiftDone(r: seq<digit>, w: seq<digit>, sh: nat)
    requires w != [] && w[0] == 0 && RightShifting(r, w, 0, sh)
    ensures Pow2(sh) >= 1 && Val(r) == Val(w[1..]) / Pow2(sh)
  {
    Pow2Positive(sh);
    hide Val;
    ExactShift(Val(w[1..]), Pow2(sh), Val(r), w[|w| - 1], Pow16(|w| - 1));
  }

  lemma ExactShift(a: int, s: int, q: int, x: int, p: int)
    requires s >= 1 && s * q + x % s == a + (0 % s) * p
    ensures a / s == q
  {
    DivModUnique(0, s, 0, 0);
    assert s * q == q * s;
    DivModUnique(a, s, q, x % s);
  }

  // __qdivrem

  lemma ValFour(s: seq<digit>)
    requires |s| == 4
    ensures Val(s) == (s[0] * B + s[1]) * W + (s[2] * B + s[3])
  {
    assert s == s[..2] + s[2..];
    ValConcat(s[..2], s[2..]);
    ValTwo(s[..2]);
    ValTwo(s[2..]);
    assert Pow16(2) == W;
  }

  /** Breaks a 64-bit number into the four digits a[1..4]. */
  method Load(x: u64, a: array<digit>)
    requires a.Length == 5
    modifies a
    ensures a[0] == old(a[0]) && Val(a[1..]) == x
  {
    var high: word, low: word := x / W, x % W;
    a[1], a[2], a[3], a[4] := HHalf(high), LHalf(high), HHalf(low), LHalf(low);
    ValFour(a[1..]);
  }

  method Store(a: array<digit>) returns (x: u64)
    requires a.Length == 5
    ensures x == Val(a[1..])
  {
    ValFour(a[1..]);
    var high, low := Combine(a[1], a[2]), Combine(a[3], a[4]);
    x := high * W + low;
  }

  /** Division by a single digit, one dividend digit at a time. */
  method DivideByDigit(u: array<digit>, t: digit) returns (r: Outcome)
    requires u.Length == 5 && t != 0
    ensures r.Done? && Val(u[1..]) == r.quotient * t + r.remainder && r.remainder < t
  {
    ValFour(u[1..]);
    var q1, r1 := ShortStep(0, u[1], t, 0, 0);
    var q2, r2 := ShortStep(r1, u[2], t, u[1], q1);
    var q3, r3 := ShortStep(r2, u[3], t, u[1] * B + u[2], q1 * B + q2);
    var q4, r4 := ShortStep(r3, u[4], t, (u[1] * B + u[2]) * B + u[3], (q1 * B + q2) * B + q3);
    var high, low := Combine(q1, q2), Combine(q3, q4);
    assert ((q1 * B + q2) * B + q3) * B + q4 == high * W + low;
    r := Done(high * W + low, r4);
  }

  /** Brings the next dividend digit x down; a and q are the dividend and quotient read so far. */
  method ShortStep(r: digit, x: digit, t: digit, ghost a: int, ghost q: int) returns (q': digit, r': digit)
    requires r < t && a == q * t + r
    ensures a * B + x == (q * B + q') * t + r' && r' < t
  {
    var rbj := Combine(r, x);
    ShortQuotient(r, x, t, a, q);
    q', r' := rbj / t, rbj % t;
  }

  lemma ShortQuotient(r: digit, x: digit, t: digit, a: int, q: int)
    requires r < t && a == q * t + r
    ensures 0 <= (r * B + x) / t < B && 0 <= (r * B + x) % t < t
    ensures a * B + x == (q * B + (r * B + x) / t) * t + (r * B + x) % t
  {
    QuotientBelow(r * B + x, t, B);
    ShortAlgebra(a, q, t, r, r * B + x, (r * B + x) / t, (r * B + x) % t);
  }

  lemma QuotientBelow(n: int, t: int, b: int)
    requires t >= 1 && 0 <= n < t * b
    ensures 0 <= n / t < b && 0 <= n % t < t && n == (n / t) * t + n % t
  {
    var y := n / t;
    assert n == t * y + n % t;
    if y >= b { MulMono(b, y, t); }
  }

  lemma ShortAlgebra(a: int, q: int, t: int, r: int, n: int, y: int, z: int)
    requires a == q * t + r && n == y * t + z
    ensures a * B + (n - r * B) == (q * B + y) * t + z
  {
    assert (q * B + y) * t == (q * t) * B + y * t;
  }

  lemma SingleDigit(x: digit)
    ensures Val([x]) == x
  {
    ValHead(x, []);
    assert [x] + [] == [x];
  }

  /** Leading zero digits of the dividend: it has at least as many digits left as the divisor. */
  method SkipZeros(u: array<digit>, n: nat, ghost v: int) returns (uo: nat)
    requires u.Length == 5 && 1 <= n <= 4 && u[0] == 0 && Pow16(n - 1) <= v <= Val(u[1..])
    ensures uo + n <= 4 && u[uo] == 0 && u[uo + 1] != 0 && Val(u[uo + 1..]) == Val(u[1..])
    ensures forall i :: 0 <= i <= uo ==> u[i] == 0
  {
    uo := 0;
    while u[uo + 1] == 0
      invariant uo + n <= 4 && Val(u[uo + 1..]) == Val(u[1..])
      invariant forall i :: 0 <= i <= uo ==> u[i] == 0
      decreases 4 - uo
    {
      assert u[uo + 1..] == [0] + u[uo + 2..];
      ValHead(0, u[uo + 2..]);
      ValBound(u[uo + 2..]);
      assert |u[uo + 2..]| == 3 - uo;
      uo := uo + 1;
    }
  }

  /** The first n digits of the scaled dividend are below the scaled divisor. */
  lemma PrefixBelow(us: seq<digit>, u: int, s: int, v: int, n: nat, m: nat)
    requires |us| == m + n + 1 && 1 <= n && s >= 1 && Val(us) == u * s && u < Pow16(m + n) && Pow16(n - 1) <= v
    ensures Val(us[..n]) < v * s
  {
    assert us == us[..n] + us[n..];
    ValConcat(us[..n], us[n..]);
    ValBound(us[n..]);
    Pow16Add(m + 1, n - 1);
    Pow16Positive(m + 1);
    hide Val, Pow16;
    PrefixAlgebra(Val(us[..n]), Pow16(m + 1), Val(us[n..]), u, s, Pow16(n - 1), v);
  }

  lemma PrefixAlgebra(x: int, p: int, r: int, u: int, s: int, k: int, v: int)
    requires p >= 1 && s >= 1 && r >= 0 && x * p + r == u * s && u < p * k && k <= v
    ensures x < v * s
  {
    assert u * s < (p * k) * s by { MulMono(u + 1, p * k, s); assert (u + 1) * s == u * s + s; }
    assert (p * k) * s == (k * s) * p;
    if x >= k * s { MulMono(k * s, x, p); }
    MulMono(k, v, s);
  }

  lemma Unscale(u: int, v: int, s: int, q: int, r: int)
    requires s >= 1 && v >= 1 && u * s == q * (v * s) + r && 0 <= r < v * s
    ensures u / v == q && u % v == r / s
  {
    var e := u - q * v;
    assert e * s == u * s - (q * v) * s;
    assert (q * v) * s == q * (v * s);
    assert r == e * s;
    if e < 0 { MulMono(e, -1, s); }
    if e >= v { MulMono(v, e, s); }
    DivModUnique(u, v, q, e);
    DivModUnique(r, s, e, 0);
  }

  /** Program D proper: u and v are loaded, and v[vo + 1] is the divisor's first non-zero digit. */
  method LongDivide(u: array<digit>, v: array<digit>, vo: nat, n: nat, uq: u64, vq: u64, wantRem: bool)
      returns (r: Outcome)
    requires u != v && u.Length == 5 && v.Length == 5 && 2 <= n <= 4 && vo + n == 4
    requires u[0] == 0 && Val(u[1..]) == uq && Val(v[vo + 1..]) == vq && v[vo + 1] != 0 && 1 <= vq <= uq
    modifies u, v
    ensures r.Done? && r.quotient == uq / vq && (wantRem ==> r.remainder == uq % vq)
  {
    hide Val, Pow16, Pow2;
    FirstDigit(v[vo + 1..]);
    var uo := SkipZeros(u, n, vq);
    var m := 4 - n - uo;
    var q := ZeroPrefix(4 - m);
    assert u[uo..] == [u[uo]] + u[uo + 1..];
    ValHead(u[uo], u[uo + 1..]);
    ValBound(u[uo + 1..]);
    ghost var pre := u[..uo];
    var d := Normalise(u, uo, v, vo, n);
    Pow2Positive(d);
    PrefixBelow(u[uo..], uq, Pow2(d), vq, n, m);
    forall i | 0 <= i < uo ensures u[i] == 0 { assert u[i] == u[..uo][i] == pre[i]; }
    r := DivideNormalised(u, uo, v, vo, q, m, n, d, uq, vq, wantRem);
  }

  method ZeroPrefix(k: nat) returns (q: array<digit>)
    requires k <= 5
    ensures fresh(q) && q.Length == 5 && forall j :: 0 <= j < k ==> q[j] == 0
  {
    q := new digit[5];
    var i := k;
    while i > 0
      invariant 0 <= i <= k
      invariant forall j :: i <= j < k ==> q[j] == 0
    {
      i := i - 1;
      q[i] := 0;
    }
  }

  method DivideNormalised(u: array<digit>, uo: nat, v: array<digit>, vo: nat, q: array<digit>, m: nat, n: nat, d: nat,
                          ghost uq: u64, ghost vq: u64, wantRem: bool)
      returns (r: Outcome)
    requires u != v && u != q && v != q && u.Length == v.Length == q.Length == 5
    requires 2 <= n && uo + m + n == 4 && vo + n == 4 && d < 16 && v[vo + 1] != 0 && 1 <= vq
    requires (forall i :: 0 <= i < uo ==> u[i] == 0) && forall i :: 0 <= i < 4 - m ==> q[i] == 0
    requires Val(u[uo..]) == uq * Pow2(d) && Val(v[vo + 1..]) == vq * Pow2(d) && Val(u[uo..][..n]) < vq * Pow2(d)
    modifies u, q
    ensures r.Done? && r.quotient == uq / vq && (wantRem ==> r.remainder == uq % vq)
  {
    hide Val, Pow16, Pow2;
    Pow2Positive(d);
    assert v[vo + 1..vo + n + 1] == v[vo + 1..];
    assert u[uo..][..n] == u[uo..uo + n];
    ghost var upre, qpre := u[..uo], q[..4 - m];
    DivideDigits(u, uo, v, vo, q, 4 - m, m, n);
    forall i | 0 <= i < uo ensures u[i] == 0 { assert u[i] == u[..uo][i] == upre[i]; }
    forall i | 0 <= i < 4 - m ensures q[i] == 0 { assert q[i] == q[..4 - m][i] == qpre[i]; }
    ghost var rest := u[uo + m + 1..];
    ValBound(rest);
    Unscale(uq, vq, Pow2(d), Val(q[4 - m..]), Val(rest));
    DropZeros(q[..], 4 - m);
    assert q[..][4 - m..] == q[4 - m..] && q[..][1..] == q[1..];
    var remainder: u64 := 0;
    if wantRem {
      remainder := Remainder(u, uo + m, d);
    }
    var quotient := Store(q);
    r := Done(quotient, remainder);
  }

  lemma FirstDigit(v: seq<digit>)
    requires v != [] && v[0] != 0
    ensures Pow16(|v| - 1) <= Val(v)
  {
    assert v == [v[0]] + v[1..];
    ValHead(v[0], v[1..]);
    ValBound(v[1..]);
    Pow16Positive(|v| - 1);
    MulMono(1, v[0], Pow16(|v| - 1));
  }

  lemma DropZeros(s: seq<digit>, k: nat)
    requires 1 <= k <= |s| && forall i :: 0 <= i < k ==> s[i] == 0
    ensures Val(s[1..]) == Val(s[k..])
  {
    assert s[1..] == s[1..k] + s[k..];
    ValConcat(s[1..k], s[k..]);
    ValZeros(s[1..k]);
  }

  /** The remainder is what is left in u, scaled back; the digits before it are zero. */
  method Remainder(u: array<digit>, lo: nat, d: nat) returns (x: u64)
    requires u.Length == 5 && lo < 5 && d < 16
    requires forall i :: 0 <= i <= lo ==> u[i] == 0
    modifies u
    ensures Pow2(d) >= 1 && x == Val(old(u[lo + 1..])) / Pow2(d)
  {
    Pow2Positive(d);
    if d > 0 {
      ShiftRight(u, lo, d);
      forall i | 0 <= i <= lo ensures u[i] == 0 { assert u[i] == u[..lo + 1][i] == old(u[..lo + 1])[i]; }
    }
    DropZeros(u[..], lo + 1);
    assert u[..][lo + 1..] == u[lo + 1..] && u[..][1..] == u[1..];
    x := Store(u);
  }

  /**
   __qdivrem: the quotient and, if asked for, the remainder of any two 64-bit
   numbers, using 32-bit words only.
   */
  method Qdivrem(uq: u64, vq: u64, wantRem: bool) returns (r: Outcome)
    ensures vq == 0 <==> r == DivideError
    ensures vq != 0 ==> r.quotient == uq / vq
    ensures vq != 0 && wantRem ==> r.remainder == uq % vq
  {
    hide Val;
    if vq == 0 {
      return DivideError;
    }
    if uq < vq {
      DivModUnique(uq, vq, 0, uq);
      return Done(0, uq);
    }
    var u, v := new digit[5], new digit[5];
    u[0] := 0;
    Load(uq, u);
    Load(vq, v);
    var n, vo := 4, 0;
    while v[vo + 1] == 0
      invariant vo <= 2 && n == 4 - vo
      invariant u[0] == 0 && Val(u[1..]) == uq && Val(v[vo + 1..]) == vq
      decreases n
    {
      assert v[vo + 1..] == [0] + v[vo + 2..];
      ValHead(0, v[vo + 2..]);
      n := n - 1;
      if n == 1 {
        assert v[vo + 2..] == [v[4]];
        SingleDigit(v[4]);
        r := DivideByDigit(u, v[vo + 2]);
        DivModUnique(uq, vq, r.quotient, r.remainder);
        return;
      }
      vo := vo + 1;
    }
    r := LongDivide(u, v, vo, n, uq, vq, wantRem);
  }

  // libgcc entry points

  method Udivdi3(a: u64, b: u64) returns (r: Outcome)
    ensures b == 0 <==> r == DivideError
    ensures b != 0 ==> r.quotient == a / b
  {
    r := Qdivrem(a, b, false);
  }

  method Umoddi3(a: u64, b: u64) returns (r: Outcome)
    ensures b == 0 <==> r == DivideError
    ensures b != 0 ==> r.remainder == a % b
  {
    r := Qdivrem(a, b, true);
  }

  datatype SignedOutcome = SignedDivideError | SignedDone(quotient: s64)

  /** The quotient C promises: the exact quotient with its fraction dropped. */
  ghost predicate TruncatedQuotient(a: int, b: int, q: int)
    requires b != 0
  {
    var r := a - q * b;
    && (if r < 0 then -r else r) < (if b < 0 then -b else b)
    && (r == 0 || (r < 0 <==> a < 0))
  }

  function Negate64(x: u64): u64 { if x == 0 then 0 else Q - x }

  function AsSigned(x: u64): s64 { if x < Q / 2 then x else x - Q }

  function AsUnsigned(x: s64): u64 { if x < 0 then x + Q else x }

  function Abs(x: int): int { if x < 0 then -x else x }

  /** __divdi3: the truncated quotient, except for the one pair whose quotient is not a 64-bit number. */
  method Divdi3(a: s64, b: s64) returns (r: SignedOutcome)
    ensures b == 0 <==> r == SignedDivideError
    ensures b != 0 ==> (TruncatedQuotient(a, b, r.quotient) <==> !(a == -Q / 2 && b == -1))
  {
    var ua, neg := AsUnsigned(a), false;
    if a < 0 {
      ua, neg := Negate64(AsUnsigned(a)), true;
    }
    var ub := AsUnsigned(b);
    if b < 0 {
      ub, neg := Negate64(AsUnsigned(b)), !neg;
    }
    assert ua == Abs(a) && ub == Abs(b);
    hide TruncatedQuotient;
    var uq := Qdivrem(ua, ub, false);
    if uq.DivideError? {
      return SignedDivideError;
    }
    SignedQuotient(a, b, uq.quotient);
    r := SignedDone(AsSigned(if neg then Negate64(uq.quotient) else uq.quotient));
    if a == -Q / 2 && b == -1 {
      assert ub == 1 && uq.quotient == Q / 2;
      NoQuotient();
    }
  }

  /** What the wrapped result would have to satisfy for the least number divided by -1. */
  lemma NoQuotient()
    ensures !TruncatedQuotient(-Q / 2, -1, -Q / 2)
  {
  }

  lemma SignedQuotient(a: int, b: int, q: int)
    requires -Q / 2 <= a < Q / 2 && b != 0 && q == Abs(a) / Abs(b)
    ensures 0 <= q <= Q / 2 && (q == Q / 2 ==> a == -Q / 2 && Abs(b) == 1)
    ensures TruncatedQuotient(a, b, if (a < 0) != (b < 0) then -q else q)
  {
    var x, y := Abs(a), Abs(b);
    DivBound(x, y);
    assert x == y * q + x % y;
    if q == Q / 2 && y > 1 { MulMono(2, y, q); }
    SignAlgebra(a, b, q, x % y);
  }

  lemma SignAlgebra(a: int, b: int, q: int, r: int)
    requires b != 0 && Abs(a) == Abs(b) * q + r && 0 <= r < Abs(b)
    ensures TruncatedQuotient(a, b, if (a < 0) != (b < 0) then -q else q)
  {
    if (a < 0) != (b < 0) {
      assert (-q) * b == -(b * q);
    } else {
      assert q * b == b * q;
    }
    if b < 0 { assert (-b) * q == -(b * q); }
  }
}
