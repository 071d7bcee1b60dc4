/**
 Formatted printing (kernel/util/printf.c): number() writes one number with its
 sign, prefix and padding, vsnprintf a whole format, both into a buffer of limited
 size. The arguments are the 32-bit words on the caller's stack; strings are found
 at the addresses there.
 */
module Printf {
  import opened Arith
  import opened Numerals
  import Division

  datatype Flags = Flags(zeropad: bool, sign: bool, plus: bool, space: bool, left: bool, special: bool, large: bool)

  type llong = x: int | -0x8000_0000_0000_0000 <= x < 0x8000_0000_0000_0000

  /** The number whose digits are written. */
  function Magnitude(num: llong, f: Flags): (r: nat)
    ensures r < ULL
  {
    var n: int := num;
    if n >= 0 then n else if f.sign then -n else n + ULL
  }

  function SignText(num: llong, f: Flags): string
  {
    if !f.sign then "" else if num < 0 then "-" else if f.plus then "+" else if f.space then " " else ""
  }

  function Prefix(base: nat, f: Flags): string
  {
    if f.special && base == 8 then "0" else if f.special && base == 16 then ['0', DigitChar(33, f.large)] else ""
  }

  /** How much narrower than the field the number is, given its number of digits. */
  function Room(num: llong, base: nat, size: int, digits: nat, f: Flags): int
  {
    size - |SignText(num, f)| - |Prefix(base, f)| - digits
  }

  function Max(x: int, y: int): int { if x > y then x else y }

  /**
   What number() writes: sign, prefix, digits with zeros in front up to the
   precision, and padding up to the field width: spaces before it all, zeros behind
   the prefix, or spaces behind it all.
   */
  function NumberText(num: llong, base: int, size: int, precision: int, f: Flags): string
  {
    if base < 2 || base > 36 then ""
    else
      var digits := Digits(Magnitude(num, f), base, f.large);
      var room := Room(num, base, size, Max(|digits|, precision), f);
      (if f.left || f.zeropad then "" else Repeat(' ', room))
      + SignText(num, f) + Prefix(base, f)
      + (if f.zeropad && !f.left then Repeat('0', room) else "")
      + Repeat('0', precision - |digits|) + digits
      + (if f.left then Repeat(' ', room) else "")
  }

  /** There are spaces in front: the field is wider than the number, and is filled on the left with spaces. */
  predicate Spaced(num: llong, base: nat, size: int, precision: int, f: Flags)
    requires 2 <= base <= 36
  {
    !f.left && !f.zeropad && Room(num, base, size, Max(|Digits(Magnitude(num, f), base, f.large)|, precision), f) > 0
  }

  lemma SpaceFirst(num: llong, base: nat, size: int, precision: int, f: Flags)
    requires 2 <= base <= 36 && Spaced(num, base, size, precision, f)
    ensures At(NumberText(num, base, size, precision, f), 0) == ' '
  {
    hide Digits, SignText, Prefix;
  }

  /** Apart from spaces in front: sign, prefix, zeros, digits and spaces at the end. */
  lemma NumberShape(num: llong, base: nat, size: int, precision: int, f: Flags) returns (k: nat, tail: string)
    requires 2 <= base <= 36 && !Spaced(num, base, size, precision, f)
    ensures tail == [] || tail[0] == ' '
    ensures NumberText(num, base, size, precision, f)
         == SignText(num, f) + (Prefix(base, f) + (Repeat('0', k) + Digits(Magnitude(num, f), base, f.large)) + tail)
  {
    hide Digits, SignText, Prefix;
    var digits := Digits(Magnitude(num, f), base, f.large);
    var room := Room(num, base, size, Max(|digits|, precision), f);
    var k1 := if f.zeropad && !f.left then Repeat('0', room) else "";
    var k2 := Repeat('0', precision - |digits|);
    k, tail := |k1| + |k2|, if f.left then Repeat(' ', room) else "";
    ZerosJoin(k1, k2);
    Regroup(SignText(num, f), Prefix(base, f), k1, k2, digits, tail);
  }

  lemma Regroup(sign: string, prefix: string, k1: string, k2: string, digits: string, tail: string)
    ensures "" + sign + prefix + k1 + k2 + digits + tail == sign + (prefix + ((k1 + k2) + digits) + tail)
  {
    assert "" + sign == sign;
    assert k1 + k2 + digits == (k1 + k2) + digits;
    var s, t := sign + prefix, k1 + k2 + digits;
    assert s + k1 + k2 + digits == s + t;
    assert s + t + tail == sign + (prefix + t + tail);
  }

  // The parts of what is written

  /** The number as it is written without a width. */
  function Natural(num: llong, base: int, precision: int, f: Flags): string
  {
    NumberText(num, base, 0, precision, f.(left := false, zeropad := false))
  }

  lemma NaturalParts(num: llong, base: nat, precision: int, f: Flags)
    requires 2 <= base <= 36
    ensures Natural(num, base, precision, f)
         == SignText(num, f) + Prefix(base, f) + Places(Digits(Magnitude(num, f), base, f.large), precision)
  {
    hide Digits, SignText, Prefix;
    SameNumber(num, base, f);
    var digits := Digits(Magnitude(num, f), base, f.large);
    assert Repeat(' ', Room(num, base, 0, Max(|digits|, precision), f)) == "";
    NumberGlue(SignText(num, f), Prefix(base, f), Repeat('0', precision - |digits|), digits, "", "", "");
    assert "" + (SignText(num, f) + Prefix(base, f)) + "" == SignText(num, f) + Prefix(base, f);
  }

  /** The digits, with zeros in front up to the precision. */
  function Places(digits: string, precision: int): (r: string)
    ensures |r| == Max(|digits|, precision)
  {
    Repeat('0', precision - |digits|) + digits
  }

  lemma SameNumber(num: llong, base: nat, f: Flags)
    ensures var f' := f.(left := false, zeropad := false);
            Magnitude(num, f') == Magnitude(num, f) && SignText(num, f') == SignText(num, f)
            && Prefix(base, f') == Prefix(base, f)
  {
  }

  /**
   The width: the text is as long as the longer of the two, and what it is longer than the number is spaces behind
   it, zeros before its digits, or spaces before it.
   */
  lemma NumberField(num: llong, base: nat, size: int, precision: int, f: Flags)
    requires 2 <= base <= 36
    ensures var text, plain := NumberText(num, base, size, precision, f), Natural(num, base, precision, f);
            var k := Max(|Digits(Magnitude(num, f), base, f.large)|, precision);
            && |text| == Max(size, |plain|) && 0 <= k <= |plain|
            && (f.left ==> text == plain + Repeat(' ', size - |plain|))
            && (!f.left && f.zeropad ==>
                  text == plain[..|plain| - k] + Repeat('0', size - |plain|) + plain[|plain| - k..])
            && (!f.left && !f.zeropad ==> text == Repeat(' ', size - |plain|) + plain)
  {
    hide Digits, SignText, Prefix, Natural, Places, NumberText;
    NaturalParts(num, base, precision, f);
    var places := Places(Digits(Magnitude(num, f), base, f.large), precision);
    var head, plain := SignText(num, f) + Prefix(base, f), Natural(num, base, precision, f);
    assert plain[..|plain| - |places|] == head && plain[|plain| - |places|..] == places;
    NumberParts(num, base, size, precision, f, size - |plain|);
    FieldCases(head, places, size - |plain|, f);
  }

  /** Padding goes before, between or behind. */
  function Padded(head: string, places: string, room: int, f: Flags): string
  {
    (if f.left || f.zeropad then "" else Repeat(' ', room)) + head
    + (if f.zeropad && !f.left then Repeat('0', room) else "") + places + (if f.left then Repeat(' ', room) else "")
  }

  lemma FieldCases(head: string, places: string, room: int, f: Flags)
    ensures f.left ==> Padded(head, places, room, f) == head + places + Repeat(' ', room)
    ensures !f.left && f.zeropad ==> Padded(head, places, room, f) == head + Repeat('0', room) + places
    ensures !f.left && !f.zeropad ==> Padded(head, places, room, f) == Repeat(' ', room) + (head + places)
  {
    assert "" + head + "" == head;
  }

  lemma NumberParts(num: llong, base: nat, size: int, precision: int, f: Flags, room: int)
    requires 2 <= base <= 36
    requires room == Room(num, base, size, Max(|Digits(Magnitude(num, f), base, f.large)|, precision), f)
    ensures NumberText(num, base, size, precision, f)
         == Padded(SignText(num, f) + Prefix(base, f), Places(Digits(Magnitude(num, f), base, f.large), precision),
                   room, f)
  {
    hide Digits, SignText, Prefix;
    var digits := Digits(Magnitude(num, f), base, f.large);
    NumberGlue(SignText(num, f), Prefix(base, f), Repeat('0', precision - |digits|), digits,
               if f.left || f.zeropad then "" else Repeat(' ', room),
               if f.zeropad && !f.left then Repeat('0', room) else "", if f.left then Repeat(' ', room) else "");
  }

  lemma NumberGlue(sign: string, prefix: string, zeros: string, digits: string, a: string, b: string, c: string)
    ensures a + sign + prefix + b + zeros + digits + c == a + (sign + prefix) + b + (zeros + digits) + c
  {
    assert a + sign + prefix == a + (sign + prefix);
    var t := a + (sign + prefix) + b;
    assert t + zeros + digits == t + (zeros + digits);
  }

  /** The sign comes first, then the prefix. */
  lemma NaturalFront(num: llong, base: nat, precision: int, f: Flags)
    requires 2 <= base <= 36
    ensures var plain := Natural(num, base, precision, f);
            var n := if f.sign && (num < 0 || f.plus || f.space) then 1 else 0;
            && n < |plain|
            && (n == 1 ==> plain[0] == if num < 0 then '-' else if f.plus then '+' else ' ')
            && (f.special && base == 8 ==> plain[n] == '0')
            && (f.special && base == 16 ==> n + 2 <= |plain| && plain[n..n + 2] == if f.large then "0X" else "0x")
  {
    hide Digits;
    NaturalParts(num, base, precision, f);
    assert DigitChar(33, true) == 'X' && DigitChar(33, false) == 'x';
  }

  /** Where sign, digits and padding are in the text. */
  ghost predicate LaidOut(text: string, plain: nat, sign: string, digits: string, left: bool, zeropad: bool)
  {
    && plain <= |text| && |digits| <= plain
    && (left ==> text[plain - |digits|..plain] == digits && forall i :: plain <= i < |text| ==> text[i] == ' ')
    && (!left ==> text[|text| - |digits|..] == digits)
    && (!left && !zeropad ==> forall i :: 0 <= i < |text| - plain ==> text[i] == ' ')
    && (left || zeropad || plain == |text| ==> |sign| <= |text| && text[..|sign|] == sign)
  }

  lemma NumberLaidOut(num: llong, base: nat, size: int, precision: int, f: Flags)
    requires 2 <= base <= 36
    ensures var digits := Digits(Magnitude(num, f), base, f.large);
            var plain := |SignText(num, f)| + |Prefix(base, f)| + Max(|digits|, precision);
            && |NumberText(num, base, size, precision, f)| == Max(size, plain)
            && LaidOut(NumberText(num, base, size, precision, f), plain, SignText(num, f), digits, f.left, f.zeropad)
  {
    hide Digits, SignText, Prefix, NumberText;
    var digits := Digits(Magnitude(num, f), base, f.large);
    var places := Places(digits, precision);
    var plain := |SignText(num, f)| + |Prefix(base, f)| + |places|;
    NumberParts(num, base, size, precision, f, size - plain);
    assert places[|places| - |digits|..] == digits;
    PaddedLaidOut(SignText(num, f), Prefix(base, f), places, digits, size - plain, f);
  }

  lemma PaddedLaidOut(sign: string, prefix: string, places: string, digits: string, room: int, f: Flags)
    requires |digits| <= |places| && places[|places| - |digits|..] == digits
    ensures var text := Padded(sign + prefix, places, room, f);
            var plain := |sign| + |prefix| + |places|;
            |text| == Max(plain + room, plain) && LaidOut(text, plain, sign, digits, f.left, f.zeropad)
  {
    hide Padded;
    var head := sign + prefix;
    FieldCases(head, places, room, f);
    assert (sign + prefix)[..|sign|] == sign;
    var text, plain := Padded(head, places, room, f), |head| + |places|;
    if f.left {
      assert text == head + places + Repeat(' ', room);
      assert text[plain - |digits|..plain] == digits;
      assert text[..|sign|] == head[..|sign|];
    } else {
      var front := if f.zeropad then head + Repeat('0', room) else Repeat(' ', room) + head;
      assert text == front + places;
      assert text[|text| - |digits|..] == places[|places| - |digits|..];
      if f.zeropad || room <= 0 { assert text[..|sign|] == head[..|sign|]; }
    }
  }

  lemma {:induction false} DigitsCase(v: nat, base: nat, large: bool)
    requires 2 <= base <= 36
    ensures forall i :: 0 <= i < |Digits(v, base, large)| ==> InCase(Digits(v, base, large)[i], large)
  {
    if v >= base {
      DivMod(v, base);
      DigitsCase(v / base, base, large);
    }
  }

  /** Not a letter of the other case. */
  predicate InCase(c: char, large: bool) { if large then !('a' <= c <= 'z') else !('A' <= c <= 'Z') }

  /** The letters are all large, or all small. */
  lemma NumberCase(num: llong, base: nat, size: int, precision: int, f: Flags)
    requires 2 <= base <= 36
    ensures var text := NumberText(num, base, size, precision, f);
            forall i :: 0 <= i < |text| ==> InCase(text[i], f.large)
  {
    hide Digits;
    DigitsCase(Magnitude(num, f), base, f.large);
  }

  /**
   An unsigned number reads back in its base, exactly if there are no spaces in front and no prefix for hexadecimal,
   or it is 0.
   */
  lemma UnsignedRoundTrip(num: llong, base: nat, size: int, precision: int, f: Flags)
    requires 2 <= base <= 16 && !f.sign
    ensures Read(NumberText(num, base, size, precision, f), base) == Magnitude(num, f)
       <==> (!Spaced(num, base, size, precision, f) && !(f.special && base == 16)) || num == 0
  {
    hide Digits, Read, NumberText, Spaced, Prefix;
    if Spaced(num, base, size, precision, f) {
      SpaceFirst(num, base, size, precision, f);
      ReadsNothing(NumberText(num, base, size, precision, f), base);
    } else {
      var k, tail := NumberShape(num, base, size, precision, f);
      var body := Prefix(base, f) + (Repeat('0', k) + Digits(Magnitude(num, f), base, f.large)) + tail;
      assert "" + body == body;
      PrefixedRead(k, Magnitude(num, f), base, tail, f);
    }
  }

  /** Read in its base, the prefix for octal is a zero more, and at that for hexadecimal reading stops. */
  lemma PrefixedRead(k: nat, v: nat, base: nat, tail: string, f: Flags)
    requires 2 <= base <= 16 && v < ULL && (tail == [] || tail[0] == ' ')
    ensures Read(Prefix(base, f) + (Repeat('0', k) + Digits(v, base, f.large)) + tail, base)
         == if f.special && base == 16 then 0 else v
  {
    var digits := Digits(v, base, f.large);
    var cp := Prefix(base, f) + (Repeat('0', k) + digits) + tail;
    if f.special && base == 16 {
      StopsAtX(cp);
    } else if f.special && base == 8 {
      ZerosJoin("0", Repeat('0', k));
      assert cp == "" + (Repeat('0', k + 1) + digits) + tail;
      ReadBack("", k + 1, v, base, f.large, tail, base);
    } else {
      ReadBack("", k, v, base, f.large, tail, base);
    }
  }

  lemma StopsAtX(cp: string)
    requires |cp| >= 2 && cp[0] == '0' && !IsXdigit(cp[1])
    ensures Read(cp, 16) == 0
  {
    assert cp[0..1] == "0";
    DigitsEndAt(cp, 0, 1, 16);
    assert "0"[..0] == "";
  }

  /**
   With the prefix for octal or hexadecimal the base is found out, exactly if there
   are no spaces in front and the prefix is not that with a large letter, or the
   number is 0.
   */
  lemma PrefixRoundTrip(num: llong, base: nat, size: int, precision: int, f: Flags)
    requires (base == 8 || base == 16) && !f.sign && f.special
    ensures Read(NumberText(num, base, size, precision, f), 0) == Magnitude(num, f)
       <==> (!Spaced(num, base, size, precision, f) && !(base == 16 && f.large)) || num == 0
  {
    hide Digits, Read, NumberText, Spaced, Prefix;
    if Spaced(num, base, size, precision, f) {
      SpaceFirst(num, base, size, precision, f);
      ReadsNothing(NumberText(num, base, size, precision, f), 0);
    } else {
      var k, tail := NumberShape(num, base, size, precision, f);
      var cp := Prefix(base, f) + (Repeat('0', k) + Digits(Magnitude(num, f), base, f.large)) + tail;
      assert "" + cp == cp;
      PrefixDetected(k, Magnitude(num, f), base, tail, f);
    }
  }

  /** The prefix tells the base, unless it has a large letter: then reading stops at that. */
  lemma PrefixDetected(k: nat, v: nat, base: nat, tail: string, f: Flags)
    requires (base == 8 || base == 16) && f.special && v < ULL && (tail == [] || tail[0] == ' ')
    ensures Read(Prefix(base, f) + (Repeat('0', k) + Digits(v, base, f.large)) + tail, 0)
         == if base == 16 && f.large then 0 else v
  {
    hide Digits, Read, Prefix;
    var pre, body := Prefix(base, f), Repeat('0', k) + Digits(v, base, f.large);
    if base == 16 && f.large {
      LargePrefix(f, body + tail);
      assert pre + body + tail == pre + (body + tail);
    } else {
      PrefixRadix(k, v, base, tail, f);
      ReadBack(pre, k, v, base, f.large, tail, 0);
    }
  }

  lemma LargePrefix(f: Flags, rest: string)
    requires f.special && f.large
    ensures Read(Prefix(16, f) + rest, 0) == 0
  {
    var cp := Prefix(16, f) + rest;
    assert cp[0] == '0' && cp[1] == 'X';
    ValueNone(cp, 1, 8);
  }

  lemma PrefixRadix(k: nat, v: nat, base: nat, tail: string, f: Flags)
    requires (base == 8 || (base == 16 && !f.large)) && f.special
    ensures Radix(Prefix(base, f) + (Repeat('0', k) + Digits(v, base, f.large)) + tail, 0) == (base, |Prefix(base, f)|)
  {
    hide Digits;
    var s := Repeat('0', k) + Digits(v, base, f.large);
    DigitsValue(v, base, f.large);
    LeadingZeros(k, Digits(v, base, f.large), base);
    assert DigitIn(s[0], base);
    var cp := Prefix(base, f) + s + tail;
    assert cp[|Prefix(base, f)|] == s[0];
  }

  /**
   A signed number reads back with its sign, exactly if there are no spaces in front, no plus or space for the sign
   and no prefix for hexadecimal, or it is 0.
   */
  lemma SignedRoundTrip(num: llong, base: nat, size: int, precision: int, f: Flags)
    requires 2 <= base <= 16 && f.sign
    ensures ReadSigned(NumberText(num, base, size, precision, f), base) == num
       <==> || num == 0
            || (&& !Spaced(num, base, size, precision, f) && (num < 0 || !(f.plus || f.space))
                && !(f.special && base == 16))
  {
    hide Digits, Read, NumberText, Spaced, Prefix;
    if Spaced(num, base, size, precision, f) {
      SpaceFirst(num, base, size, precision, f);
      ReadsNothing(NumberText(num, base, size, precision, f), base);
    } else {
      SignedText(num, base, size, precision, f);
    }
  }

  lemma SignedText(num: llong, base: nat, size: int, precision: int, f: Flags)
    requires 2 <= base <= 16 && f.sign && !Spaced(num, base, size, precision, f)
    ensures ReadSigned(NumberText(num, base, size, precision, f), base) == num
       <==> ((num < 0 || !(f.plus || f.space)) && !(f.special && base == 16)) || num == 0
  {
    hide Digits, Read, NumberText, Spaced, Prefix;
    var k, tail := NumberShape(num, base, size, precision, f);
    var v := Magnitude(num, f);
    var cp := Prefix(base, f) + (Repeat('0', k) + Digits(v, base, f.large)) + tail;
    PrefixedRead(k, v, base, tail, f);
    assert NumberText(num, base, size, precision, f) == SignText(num, f) + cp;
    if num < 0 {
      assert ("-" + cp)[1..] == cp;
    } else if f.plus || f.space {
      ReadsNothing(SignText(num, f) + cp, base);
    } else {
      assert "" + cp == cp;
      FirstDigit(k, v, base, tail, f);
    }
  }

  /**
   With a prefix a signed number reads back without being told the base, exactly if there are no spaces in front, no
   plus or space for the sign and no large letter in the prefix, or it is 0.
   */
  lemma SignedPrefixRoundTrip(num: llong, base: nat, size: int, precision: int, f: Flags)
    requires (base == 8 || base == 16) && f.sign && f.special
    ensures ReadSigned(NumberText(num, base, size, precision, f), 0) == num
       <==> || num == 0
            || (&& !Spaced(num, base, size, precision, f) && (num < 0 || !(f.plus || f.space))
                && !(base == 16 && f.large))
  {
    hide Digits, Read, NumberText, Spaced, Prefix;
    if Spaced(num, base, size, precision, f) {
      SpaceFirst(num, base, size, precision, f);
      ReadsNothing(NumberText(num, base, size, precision, f), 0);
      return;
    }
    var k, tail := NumberShape(num, base, size, precision, f);
    var v := Magnitude(num, f);
    var cp := Prefix(base, f) + (Repeat('0', k) + Digits(v, base, f.large)) + tail;
    PrefixDetected(k, v, base, tail, f);
    assert NumberText(num, base, size, precision, f) == SignText(num, f) + cp;
    if num < 0 {
      assert ("-" + cp)[1..] == cp;
    } else if f.plus || f.space {
      ReadsNothing(SignText(num, f) + cp, 0);
    } else {
      assert "" + cp == cp;
      FirstDigit(k, v, base, tail, f);
    }
  }

  lemma FirstDigit(k: nat, v: nat, base: nat, tail: string, f: Flags)
    requires 2 <= base <= 16
    ensures IsXdigit(At(Prefix(base, f) + (Repeat('0', k) + Digits(v, base, f.large)) + tail, 0))
  {
    hide Digits;
    DigitsValue(v, base, f.large);
    LeadingZeros(k, Digits(v, base, f.large), base);
    var s := Repeat('0', k) + Digits(v, base, f.large);
    assert DigitIn(s[0], base);
    assert Prefix(base, f) != "" ==> Prefix(base, f)[0] == '0';
  }

  lemma ZerosJoin(s: string, t: string)
    requires forall i :: 0 <= i < |s| ==> s[i] == '0'
    requires forall i :: 0 <= i < |t| ==> t[i] == '0'
    ensures s + t == Repeat('0', |s| + |t|)
  {
  }

  // Writing into a buffer

  /** str and end of the C code: characters past the end of the buffer are counted and not stored. */
  class Writer {
    const buf: array<char>
    const size: nat
    var str: nat
    ghost var text: string
    ghost const was: string

    ghost predicate Valid()
      reads this, buf
    {
      && size <= buf.Length == |was| && str == |text|
      && (forall i :: 0 <= i < |text| && i < size ==> buf[i] == text[i])
      && (forall i :: 0 <= i < buf.Length && (i >= |text| || i >= size) ==> buf[i] == was[i])
    }

    constructor (buffer: array<char>, n: nat)
      requires n <= buffer.Length
      ensures Valid() && buf == buffer && size == n && text == "" && was == buffer[..]
    {
      buf, size, str, text, was := buffer, n, 0, "", buffer[..];
    }

    method Put(c: char)
      requires Valid()
      modifies this, buf
      ensures Valid() && text == old(text) + [c]
    {
      if str <= size - 1 {
        buf[str] := c;
      }
      str := str + 1;
      text := text + [c];
    }

    /** while (n-- > 0) put c; gives back what n has become. */
    method PutWhile(n: int, c: char) returns (left: int)
      requires Valid()
      modifies this, buf
      ensures Valid() && text == old(text) + Repeat(c, n)
      ensures left == if n > 0 then -1 else n - 1
    {
      left := n;
      ghost var k := 0;
      while left > 0
        invariant Valid() && left == n - k && 0 <= k && (n <= 0 ==> k == 0) && (n > 0 ==> k <= n)
        invariant text == old(text) + Repeat(c, k)
      {
        left := left - 1;
        Put(c);
        k := k + 1;
      }
      left := left - 1;
    }

    /** The string's characters in turn. */
    method PutAll(s: string)
      requires Valid()
      modifies this, buf
      ensures Valid() && text == old(text) + s
    {
      var i := 0;
      while i < |s|
        invariant 0 <= i <= |s| && Valid() && text == old(text) + s[..i]
      {
        Put(s[i]);
        assert s[..i + 1] == s[..i] + [s[i]];
        i := i + 1;
      }
      assert s[..|s|] == s;
    }

    /** The digits kept in tmp, last one first. */
    method PutDigits(tmp: array<char>, n: nat)
      requires Valid() && n <= tmp.Length && tmp != buf
      modifies this, buf
      ensures Valid() && text == old(text) + Reversed(tmp[..n])
    {
      ghost var digits := tmp[..n];
      var i := n;
      while i > 0
        invariant 0 <= i <= n && Valid() && tmp[..n] == digits && text == old(text) + Reversed(digits[i..])
      {
        i := i - 1;
        assert digits[i..] == [digits[i]] + digits[i + 1..];
        ReversedFirst(digits[i], digits[i + 1..]);
        Put(tmp[i]);
      }
      assert digits[0..] == digits;
    }

    /** number(). */
    method Number(num: llong, base: int, size: int, precision: int, f: Flags)
      requires Valid()
      modifies this, buf
      ensures Valid() && text == old(text) + NumberText(num, base, size, precision, f)
    {
      hide *;
      if base < 2 || base > 36 {
        NoNumber(num, base, size, precision, f);
        assert text + "" == text;
        return;
      }
      var tmp, i := WriteDigits(Magnitude(num, f), base, f.large);
      var prec := if i > precision then i else precision;
      var width := size - |SignText(num, f)| - |Prefix(base, f)| - prec;
      ghost var room, t0 := width, text;
      width := Front(width, num, base, f);
      ghost var front := FrontText(num, base, room, f);
      ghost var zeros := Repeat('0', prec - i);
      var _ := PutWhile(prec - i, '0');
      Glue(t0, front, zeros);
      PutDigits(tmp, i);
      Glue(t0, front + zeros, Digits(Magnitude(num, f), base, f.large));
      Glue(t0, front + zeros + Digits(Magnitude(num, f), base, f.large), Repeat(' ', width));
      Pieces(num, base, size, precision, f, prec, i, room, width);
      width := PutWhile(width, ' ');
    }

    /** Everything before the zeros of the precision; gives back how much padding is left. */
    method Front(room: int, num: llong, base: nat, f: Flags) returns (width: int)
      requires Valid()
      modifies this, buf
      ensures Valid() && text == old(text) + FrontText(num, base, room, f)
      ensures if f.left then width == room else width <= 0
    {
      hide SignText, Prefix;
      var zeropad := f.zeropad && !f.left;
      ghost var t0, lead := text, "";
      width := room;
      assert t0 + "" == t0;
      if !zeropad && !f.left {
        lead := Repeat(' ', width);
        width := PutWhile(width, ' ');
      }
      PutAll(SignText(num, f));
      Glue(t0, lead, SignText(num, f));
      PutAll(Prefix(base, f));
      Glue(t0, lead + SignText(num, f), Prefix(base, f));
      ghost var mid := "";
      assert text + "" == text;
      if !f.left {
        mid := Repeat(if zeropad then '0' else ' ', width);
        width := PutWhile(width, if zeropad then '0' else ' ');
      }
      Glue(t0, lead + SignText(num, f) + Prefix(base, f), mid);
    }
  }

  lemma Glue(a: string, b: string, c: string)
    ensures a + b + c == a + (b + c)
  {
  }

  /** Padding in front, sign, prefix and padding with zeros. */
  function FrontText(num: llong, base: nat, room: int, f: Flags): string
  {
    (if f.left || f.zeropad then "" else Repeat(' ', room)) + SignText(num, f) + Prefix(base, f)
    + (if f.zeropad && !f.left then Repeat('0', room) else "")
  }

  lemma Pieces(num: llong, base: nat, size: int, precision: int, f: Flags, prec: int, n: nat, room: int, width: int)
    requires 2 <= base <= 36 && n == |Digits(Magnitude(num, f), base, f.large)|
    requires prec == (if n > precision then n else precision)
    requires room == size - |SignText(num, f)| - |Prefix(base, f)| - prec
    requires if f.left then width == room else width <= 0
    ensures NumberText(num, base, size, precision, f)
         == FrontText(num, base, room, f) + Repeat('0', prec - n)
            + Digits(Magnitude(num, f), base, f.large) + Repeat(' ', width)
  {
    hide Digits, SignText, Prefix;
  }

  lemma NoNumber(num: llong, base: int, size: int, precision: int, f: Flags)
    requires base < 2 || base > 36
    ensures NumberText(num, base, size, precision, f) == ""
  {
  }

  function Reversed(s: string): (r: string)
    ensures |r| == |s|
  {
    if s == [] then [] else Reversed(s[1..]) + [s[0]]
  }

  lemma ReversedFirst(c: char, s: string)
    ensures Reversed([c] + s) == Reversed(s) + [c]
  {
    assert ([c] + s)[1..] == s;
  }

  lemma {:induction false} ReversedLast(s: string, c: char)
    ensures Reversed(s + [c]) == [c] + Reversed(s)
  {
    if s == [] {
      assert [] + [c] == [c];
    } else {
      assert (s + [c])[1..] == s[1..] + [c];
      ReversedLast(s[1..], c);
    }
  }

  /** The digits of a number, last one first; they fit in 64 places. */
  method WriteDigits(num: nat, base: nat, large: bool) returns (tmp: array<char>, i: nat)
    requires num < ULL && 2 <= base <= 36
    ensures fresh(tmp) && i <= tmp.Length == 66 && Reversed(tmp[..i]) == Digits(num, base, large)
  {
    hide Digits, DigitChar;
    tmp := new char[66];
    i := 0;
    DigitsOfZero(base, large);
    if num == 0 {
      tmp[i] := '0';
      i := i + 1;
      assert tmp[..1] == "0";
      ReversedLast("", '0');
    } else {
      var num2: nat := num;
      ULLIsPow2();
      while num2 != 0
        invariant i <= 64 && num2 < Pow2(64 - i) && num2 < ULL
        invariant Digits(num, base, large) == (if num2 == 0 then "" else Digits(num2, base, large)) + Reversed(tmp[..i])
      {
        ghost var before, was := tmp[..i], num2;
        tmp[i], num2 := NextDigit(num2, base, large, 64 - i);
        assert tmp[..i + 1] == before + [tmp[i]];
        ReversedLast(before, tmp[i]);
        Glue(if num2 == 0 then "" else Digits(num2, base, large), [tmp[i]], Reversed(before));
        i := i + 1;
      }
      assert "" + Reversed(tmp[..i]) == Reversed(tmp[..i]);
    }
  }

  /** The last digit, and the number without it. */
  method NextDigit(num2: nat, base: nat, large: bool, ghost k: nat) returns (c: char, rest: nat)
    requires 0 < num2 < ULL && num2 < Pow2(k) && 2 <= base <= 36
    ensures Digits(num2, base, large) == (if rest == 0 then "" else Digits(rest, base, large)) + [c]
    ensures rest < num2 && k > 0 && rest < Pow2(k - 1)
  {
    hide Digits, DigitChar, Pow2;
    DigitsStep(num2, base, large);
    Shrinks(num2, base, k);
    var r := Division.Umoddi3(num2, base);
    c := DigitChar(r.remainder, large);
    var q := Division.Udivdi3(num2, base);
    rest := q.quotient;
  }

  lemma DigitsOfZero(base: nat, large: bool)
    requires 2 <= base <= 36
    ensures Digits(0, base, large) == "0"
  {
  }

  lemma DigitsStep(v: nat, base: nat, large: bool)
    requires 2 <= base <= 36 && v > 0
    ensures v % base < 36
    ensures Digits(v, base, large)
         == (if v / base == 0 then "" else Digits(v / base, base, large)) + [DigitChar(v % base, large)]
  {
    DivMod(v, base);
    if v < base { SmallDivMod(v, base); } else { BigDiv(v, base); }
  }

  lemma SmallDivMod(v: nat, base: nat)
    requires v < base
    ensures v / base == 0 && v % base == v
  {
  }

  lemma BigDiv(v: nat, base: nat)
    requires 0 < base <= v
    ensures v / base > 0
  {
    var q, r := v / base, v % base;
    assert v == q * base + r && r < base;
    assert q == 0 ==> q * base == 0;
  }

  /** Each digit at least halves what is left. */
  lemma Shrinks(v: nat, base: nat, k: nat)
    requires 0 < v < Pow2(k) && base >= 2
    ensures k > 0 && v / base < Pow2(k - 1) && v / base < v
  {
    var q := v / base;
    assert v == q * base + v % base;
    Doubled(q, base);
  }

  lemma Doubled(q: nat, base: nat)
    requires base >= 2
    ensures q * 2 <= q * base
  {
    assert q * base == q * 2 + q * (base - 2);
    assert q * (base - 2) >= 0;
  }

  lemma ULLIsPow2()
    ensures Pow2(64) == ULL
  {
    Pow2Add(8, 8);
    Pow2Add(16, 16);
    Pow2Add(32, 32);
  }
}
