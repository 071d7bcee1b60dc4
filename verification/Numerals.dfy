/**
 Numbers written and read in a base (kernel/util/printf.c): the digits that number()
 produces and simple_strtoull and simple_strtoll read back.
 */
module Numerals {

  const ULL: int := 0x1_0000_0000_0000_0000

  predicate IsDigit(c: char) { '0' <= c <= '9' }

  predicate IsXdigit(c: char) { IsDigit(c) || 'A' <= c <= 'F' || 'a' <= c <= 'f' }

  /** What a hexadecimal digit stands for. */
  function DigitValue(c: char): nat
    requires IsXdigit(c)
  {
    if IsDigit(c) then c as int - '0' as int
    else if 'a' <= c then c as int - 'a' as int + 10
    else c as int - 'A' as int + 10
  }

  /** An entry of the tables of digits in number(). */
  function DigitChar(d: nat, large: bool): char
    requires d < 36
  {
    if d < 10 then ('0' as int + d) as char else ((if large then 'A' else 'a') as int + d - 10) as char
  }

  /** c is a digit of the base. */
  predicate DigitIn(c: char, base: nat) { IsXdigit(c) && DigitValue(c) < base }

  lemma DigitBack(d: nat, large: bool, base: nat)
    requires d < base <= 16
    ensures DigitIn(DigitChar(d, large), base) && DigitValue(DigitChar(d, large)) == d
  {
  }

  /** The digits of a number, the first one the most significant. */
  function Digits(v: nat, base: nat, large: bool): (r: string)
    requires 2 <= base <= 36
    ensures r != []
  {
    if v < base then [DigitChar(v, large)]
    else
      DivMod(v, base);
      Digits(v / base, base, large) + [DigitChar(v % base, large)]
  }

  ghost predicate AllDigits(s: string, base: nat) { forall i :: 0 <= i < |s| ==> DigitIn(s[i], base) }

  /** One more digit. */
  function Shifted(x: nat, base: nat, d: nat): nat { x * base + d }

  lemma DivMod(v: nat, base: nat)
    requires base > 0
    ensures Shifted(v / base, base, v % base) == v && v % base < base
    ensures 1 < base <= v ==> v / base < v
  {
    var q, r := v / base, v % base;
    assert v == q * base + r;
    if 1 < base <= v { AtMostHalf(q, base, v); }
  }

  lemma AtMostHalf(q: nat, base: nat, v: nat)
    requires q * base <= v && base >= 2 && v > 0
    ensures q < v
  {
    assert q * base == q * 2 + q * (base - 2);
    assert q * (base - 2) >= 0;
  }

  /** The number that digits stand for. */
  function Value(s: string, base: nat): nat
    requires AllDigits(s, base)
  {
    if s == [] then 0 else Shifted(Value(s[..|s| - 1], base), base, DigitValue(s[|s| - 1]))
  }

  lemma {:induction false} DigitsValue(v: nat, base: nat, large: bool)
    requires 2 <= base <= 16
    ensures AllDigits(Digits(v, base, large), base) && Value(Digits(v, base, large), base) == v
  {
    hide DigitChar, DigitIn, DigitValue;
    if v < base {
      DigitBack(v, large, base);
      assert Digits(v, base, large)[..0] == [];
      assert Shifted(0, base, v) == v;
    } else {
      hide Shifted;
      DivMod(v, base);
      DigitsValue(v / base, base, large);
      DigitBack(v % base, large, base);
      var s := Digits(v, base, large);
      assert s[..|s| - 1] == Digits(v / base, base, large);
    }
  }

  function Repeat(c: char, n: int): (r: string)
    ensures |r| == if n > 0 then n else 0
    ensures forall i :: 0 <= i < |r| ==> r[i] == c
  {
    if n <= 0 then [] else Repeat(c, n - 1) + [c]
  }

  /** Zeros in front do not count. */
  lemma {:induction false} LeadingZeros(k: nat, s: string, base: nat)
    requires 2 <= base && AllDigits(s, base)
    ensures AllDigits(Repeat('0', k) + s, base) && Value(Repeat('0', k) + s, base) == Value(s, base)
  {
    var t := Repeat('0', k) + s;
    if s == [] {
      if k > 0 {
        LeadingZeros(k - 1, [], base);
        assert t[..|t| - 1] == Repeat('0', k - 1) + [];
      }
    } else {
      LeadingZeros(k, s[..|s| - 1], base);
      assert t[..|t| - 1] == Repeat('0', k) + s[..|s| - 1];
    }
  }

  // Reading

  /** A string's characters are followed by a NUL. */
  function At(s: string, i: nat): char { if i < |s| then s[i] else '\0' }

  /** The base and where the digits start, when the base is to be found out. */
  function Radix(cp: string, base: nat): (nat, nat)
  {
    if base != 0 then (base, 0)
    else if At(cp, 0) != '0' then (10, 0)
    else if At(cp, 1) == 'x' && IsXdigit(At(cp, 2)) then (16, 2)
    else (8, 1)
  }

  /** Where the digits end. */
  function DigitsEnd(cp: string, i: nat, base: nat): (r: nat)
    requires i <= |cp|
    ensures i <= r <= |cp| && AllDigits(cp[i..r], base) && !(r < |cp| && DigitIn(cp[r], base))
    decreases |cp| - i
  {
    if i < |cp| && DigitIn(cp[i], base) then
      var r := DigitsEnd(cp, i + 1, base);
      assert cp[i..r] == [cp[i]] + cp[i + 1..r];
      r
    else i
  }

  /** The number read, which wraps around, as simple_strtoull computes it. */
  function Read(cp: string, base: nat): (r: nat)
    ensures r < ULL
  {
    var (b, start) := Radix(cp, base);
    Wrapped(Value(cp[start..DigitsEnd(cp, start, b)], b))
  }

  /** In a 64-bit unsigned type. */
  function Wrapped(x: nat): (r: nat)
    ensures r < ULL && (x < ULL ==> r == x)
  {
    x % ULL
  }

  lemma ValueNext(cp: string, start: nat, i: nat, base: nat)
    requires start <= i < |cp| && AllDigits(cp[start..i], base) && DigitIn(cp[i], base)
    ensures AllDigits(cp[start..i + 1], base)
    ensures Value(cp[start..i + 1], base) == Shifted(Value(cp[start..i], base), base, DigitValue(cp[i]))
  {
    hide DigitValue, Shifted, DigitIn;
    var s := cp[start..i + 1];
    assert s[..|s| - 1] == cp[start..i];
  }

  lemma ValueNone(cp: string, i: nat, base: nat)
    requires i <= |cp|
    ensures AllDigits(cp[i..i], base) && Value(cp[i..i], base) == 0
  {
  }

  method Strtoull(cp: string, base: nat) returns (result: nat, endp: nat)
    ensures result == Read(cp, base) && endp == DigitsEnd(cp, Radix(cp, base).1, Radix(cp, base).0)
  {
    hide DigitValue, Shifted, DigitIn, AllDigits, Value, Wrapped;
    var b, i := base, 0;
    if b == 0 {
      b := 10;
      if At(cp, i) == '0' {
        b := 8;
        i := i + 1;
        if At(cp, i) == 'x' && IsXdigit(At(cp, i + 1)) {
          i := i + 1;
          b := 16;
        }
      }
    }
    ghost var start := i;
    result := 0;
    ValueNone(cp, start, b);
    while IsXdigit(At(cp, i)) && DigitValue(At(cp, i)) < b
      invariant start <= i <= |cp| && Radix(cp, base) == (b, start)
      invariant DigitsEnd(cp, start, b) == DigitsEnd(cp, i, b) && AllDigits(cp[start..i], b)
      invariant result == Wrapped(Value(cp[start..i], b))
      decreases |cp| - i
    {
      IsDigitIn(cp[i], b);
      ValueNext(cp, start, i, b);
      WrapStep(Value(cp[start..i], b), b, DigitValue(cp[i]));
      result := Wrapped(Shifted(result, b, DigitValue(At(cp, i))));
      i := i + 1;
    }
    endp := i;
    if i < |cp| { IsDigitIn(cp[i], b); }
  }

  lemma IsDigitIn(c: char, base: nat)
    ensures DigitIn(c, base) <==> IsXdigit(c) && DigitValue(c) < base
  {
  }

  lemma WrapStep(x: nat, b: nat, d: nat)
    ensures Wrapped(Shifted(Wrapped(x), b, d)) == Wrapped(Shifted(x, b, d))
  {
    var q := x / ULL;
    assert x == q * ULL + x % ULL;
    assert x * b + d == q * b * ULL + (x % ULL * b + d);
    Multiples(q * b, x % ULL * b + d);
  }

  lemma Multiples(k: nat, y: nat)
    ensures (k * ULL + y) % ULL == y % ULL
  {
    var q, r := y / ULL, y % ULL;
    assert k * ULL + y == (k + q) * ULL + r;
  }

  /** simple_strtoll, in a 64-bit signed type. */
  function AsSigned(x: nat): int
    requires x < ULL
  {
    if x < ULL / 2 then x else x - ULL
  }

  function ReadSigned(cp: string, base: nat): int
  {
    if At(cp, 0) == '-' then AsSigned((ULL - Read(cp[1..], base)) % ULL) else AsSigned(Read(cp, base))
  }

  method Strtoll(cp: string, base: nat) returns (result: int)
    ensures result == ReadSigned(cp, base)
  {
    if At(cp, 0) == '-' {
      var r, _ := Strtoull(cp[1..], base);
      return AsSigned((ULL - r) % ULL);
    }
    var r, _ := Strtoull(cp, base);
    return AsSigned(r);
  }

  // Reading back what was written

  lemma {:induction false} DigitsEndAt(cp: string, i: nat, j: nat, base: nat)
    requires i <= j <= |cp| && AllDigits(cp[i..j], base) && !(j < |cp| && DigitIn(cp[j], base))
    ensures DigitsEnd(cp, i, base) == j
    decreases j - i
  {
    hide DigitIn;
    if i < j {
      assert cp[i..j][0] == cp[i];
      var s, rest := cp[i..j], cp[i + 1..j];
      assert s == [cp[i]] + rest;
      forall k | 0 <= k < |rest| ensures DigitIn(rest[k], base) { assert s[k + 1] == rest[k]; }
      DigitsEndAt(cp, i + 1, j, base);
    }
  }

  /** What does not start with a digit reads as 0. */
  lemma ReadsNothing(cp: string, base: nat)
    requires cp != [] && !IsXdigit(cp[0])
    ensures Read(cp, base) == 0
  {
    ValueNone(cp, 0, Radix(cp, base).0);
  }

  /**
   Zeros and digits, after something that settles the base and before something that is no digit, read as the number.
   */
  lemma ReadBack(pre: string, k: nat, v: nat, base: nat, large: bool, tail: string, given: nat)
    requires 2 <= base <= 16 && v < ULL && (tail == [] || tail[0] == ' ')
    requires Radix(pre + (Repeat('0', k) + Digits(v, base, large)) + tail, given) == (base, |pre|)
    ensures Read(pre + (Repeat('0', k) + Digits(v, base, large)) + tail, given) == v
  {
    hide DigitValue, Shifted;
    var s := Repeat('0', k) + Digits(v, base, large);
    var cp, end := pre + s + tail, |pre| + |s|;
    DigitsValue(v, base, large);
    LeadingZeros(k, Digits(v, base, large), base);
    assert cp[|pre|..end] == s;
    DigitsEndAt(cp, |pre|, end, base);
  }

  lemma {:induction false} FirstNotZero(v: nat, base: nat, large: bool)
    requires 2 <= base <= 36 && v > 0
    ensures Digits(v, base, large)[0] != '0'
  {
    if v >= base {
      DivMod(v, base);
      FirstNotZero(v / base, base, large);
    }
  }

  /** Digits without a zero in front are decimal when the base is to be found out. */
  lemma DecimalDetected(v: nat, large: bool, tail: string)
    requires v < ULL && (tail == [] || tail[0] == ' ')
    ensures Read(Digits(v, 10, large) + tail, 0) == v
  {
    hide Digits, Read;
    var cp := Digits(v, 10, large) + tail;
    if v == 0 {
      ZeroRead(large, tail);
    } else {
      FirstNotZero(v, 10, large);
      assert "" + (Repeat('0', 0) + Digits(v, 10, large)) + tail == cp;
      ReadBack("", 0, v, 10, large, tail, 0);
    }
  }

  lemma ZeroRead(large: bool, tail: string)
    requires tail == [] || tail[0] == ' '
    ensures Read(Digits(0, 10, large) + tail, 0) == 0
  {
    var cp := Digits(0, 10, large) + tail;
    assert cp[0] == '0' && At(cp, 1) != 'x' && !(1 < |cp| && DigitIn(cp[1], 8));
    ValueNone(cp, 1, 8);
    DigitsEndAt(cp, 1, 1, 8);
  }
}
