/**
 vsnprintf (kernel/util/printf.c): a format is written with its arguments as far as
 the buffer goes. What would be written without a limit is a function of format and
 arguments alone; sizes and positions are not wrapped around.
 */
module Vsnprintf {
  import opened Bytes
  import opened Numerals
  import opened Options
  import opened Printf

  /** The arguments, word by word, and the strings in memory. */
  datatype Args = Args(words: nat -> word, strings: word -> string)

  /** What is written, and the positions stored for %n with the addresses to store them at. */
  datatype Output = Output(text: string, stores: seq<(word, nat)>)

  // The parts of a conversion

  predicate IsFlag(c: char) { c == '-' || c == '+' || c == ' ' || c == '#' || c == '0' }

  /** The flags that a string of flag characters sets. */
  function FlagsIn(s: string): Flags
  {
    Flags('0' in s, false, '+' in s, ' ' in s, '-' in s, '#' in s, false)
  }

  /** Where the flags end. */
  function FlagsEnd(fmt: string, i: nat): (j: nat)
    requires i <= |fmt|
    ensures i <= j <= |fmt| && !IsFlag(At(fmt, j)) && forall x :: i <= x < j ==> IsFlag(fmt[x])
    decreases |fmt| - i
  {
    if IsFlag(At(fmt, i)) then FlagsEnd(fmt, i + 1) else i
  }

  /** The decimal number at i, and where it ends. */
  function TakeNumber(fmt: string, i: nat): (r: (nat, nat))
    requires i <= |fmt|
    ensures i <= r.1 <= |fmt|
  {
    var j := DigitsEnd(fmt, i, 10);
    (Value(fmt[i..j], 10), j)
  }

  function Signed32(w: word): int { if w < 0x8000_0000 then w else w - 0x1_0000_0000 }

  /** A conversion up to its letter: where that is, and the next argument. */
  datatype Spec = Spec(flags: Flags, width: int, precision: int, qualifier: char, at: nat, pos: nat)

  function TakeWidth(fmt: string, s: Spec, args: Args): (r: Spec)
    requires s.at <= |fmt|
    ensures s.at <= r.at <= |fmt|
  {
    if IsDigit(At(fmt, s.at)) then
      var (n, i) := TakeNumber(fmt, s.at);
      s.(width := n, at := i)
    else if At(fmt, s.at) == '*' then
      var w := Signed32(args.words(s.pos));
      s.(at := s.at + 1, pos := s.pos + 1, width := if w < 0 then -w else w,
         flags := if w < 0 then s.flags.(left := true) else s.flags)
    else s.(width := -1)
  }

  function TakePrecision(fmt: string, s: Spec, args: Args): (r: Spec)
    requires s.at <= |fmt|
    ensures s.at <= r.at <= |fmt|
  {
    if At(fmt, s.at) != '.' then s.(precision := -1)
    else
      var i := s.at + 1;
      if IsDigit(At(fmt, i)) then
        var (n, j) := TakeNumber(fmt, i);
        s.(precision := n, at := j)
      else if At(fmt, i) == '*' then
        var p := Signed32(args.words(s.pos));
        s.(at := i + 1, pos := s.pos + 1, precision := if p < 0 then 0 else p)
      else s.(at := i, precision := 0)
  }

  function TakeQualifier(fmt: string, s: Spec): (r: Spec)
    requires s.at <= |fmt|
    ensures s.at <= r.at <= |fmt|
  {
    var c := At(fmt, s.at);
    var s1 :=
      if c == 'l' && At(fmt, s.at + 1) == 'l' then s.(qualifier := 'L', at := s.at + 2)
      else if c == 'h' || c == 'l' || c == 'L' || c == 'Z' then s.(qualifier := c, at := s.at + 1)
      else s.(qualifier := '\0');
    if At(fmt, s1.at) == 'q' then s1.(qualifier := 'L', at := s1.at + 1) else s1
  }

  function TakeSpec(fmt: string, i: nat, pos: nat, args: Args): (r: Spec)
    requires i <= |fmt|
    ensures i <= r.at <= |fmt|
  {
    var j := FlagsEnd(fmt, i);
    TakeQualifier(fmt, TakePrecision(fmt, TakeWidth(fmt, Spec(FlagsIn(fmt[i..j]), -1, -1, '\0', j, pos), args), args))
  }

  // Conversions as they are written

  /** A number, a star for the next argument, or nothing. */
  datatype Field = Fixed(digits: string) | Star | Absent

  /** The characters between the percent sign and the letter; last is a q, or nothing. */
  datatype Directive = Directive(flags: string, width: Field, precision: Option<Field>, qualifier: string, last: string)

  function WriteField(f: Field): string
  {
    match f
    case Fixed(digits) => digits
    case Star => "*"
    case Absent => ""
  }

  function WritePrecision(p: Option<Field>): string { if p.Some? then "." + WriteField(p.value) else "" }

  function Write(d: Directive): string
  {
    d.flags + (WriteField(d.width) + (WritePrecision(d.precision) + (d.qualifier + d.last)))
  }

  predicate AllFlags(s: string) { forall i :: 0 <= i < |s| ==> IsFlag(s[i]) }

  predicate GoodField(f: Field)
  {
    f.Fixed? ==> f.digits != "" && forall i :: 0 <= i < |f.digits| ==> IsDigit(f.digits[i])
  }

  /** A zero in front of the width would be a flag. */
  predicate GoodDirective(d: Directive)
  {
    && AllFlags(d.flags) && GoodField(d.width) && (d.width.Fixed? ==> d.width.digits[0] != '0')
    && (d.precision.Some? ==> GoodField(d.precision.value))
    && d.qualifier in {"", "h", "l", "ll", "L", "Z"} && d.last in {"", "q"}
  }

  /** What cannot be the next character of a directive. */
  predicate IsLetter(c: char)
  {
    !IsFlag(c) && !IsDigit(c) && c != '*' && c != '.' && c != 'h' && c != 'l' && c != 'L' && c != 'Z' && c != 'q'
  }

  function Words(f: Field): nat { if f.Star? then 1 else 0 }

  function Number(digits: string): nat
    requires forall i :: 0 <= i < |digits| ==> IsDigit(digits[i])
  {
    Value(digits, 10)
  }

  /** The width a field stands for, and whether it asks for padding on the right. */
  function WidthOf(f: Field, w: word): (int, bool)
    requires GoodField(f)
  {
    match f
    case Fixed(digits) => (Number(digits), false)
    case Star => (if Signed32(w) < 0 then -Signed32(w) else Signed32(w), Signed32(w) < 0)
    case Absent => (-1, false)
  }

  function PrecisionOf(p: Option<Field>, w: word): int
    requires p.Some? ==> GoodField(p.value)
  {
    if p.None? then -1
    else
      match p.value
      case Fixed(digits) => Number(digits)
      case Star => if Signed32(w) < 0 then 0 else Signed32(w)
      case Absent => 0
  }

  /** What a directive that ends at a position means, with its first argument at pos. */
  function Meaning(d: Directive, at: nat, pos: nat, args: Args): Spec
    requires GoodDirective(d)
  {
    var (width, left) := WidthOf(d.width, args.words(pos));
    var pos1 := pos + Words(d.width);
    var f := FlagsIn(d.flags);
    Spec(if left then f.(left := true) else f, width, PrecisionOf(d.precision, args.words(pos1)),
         if d.last == "q" || d.qualifier == "ll" then 'L' else if d.qualifier == "" then '\0' else d.qualifier[0],
         at, pos1 + if d.precision.Some? then Words(d.precision.value) else 0)
  }

  /** fmt has s at position i. */
  predicate HasAt(fmt: string, i: nat, s: string) { i + |s| <= |fmt| && fmt[i..i + |s|] == s }

  lemma {:induction false} FlagsRead(fmt: string, i: nat, flags: string)
    requires HasAt(fmt, i, flags) && AllFlags(flags) && !IsFlag(At(fmt, i + |flags|))
    ensures FlagsEnd(fmt, i) == i + |flags|
    decreases |flags|
  {
    if flags != "" {
      assert fmt[i] == flags[0];
      assert fmt[i + 1..i + |flags|] == flags[1..];
      FlagsRead(fmt, i + 1, flags[1..]);
    }
  }

  lemma NumberRead(fmt: string, i: nat, digits: string)
    requires HasAt(fmt, i, digits) && (forall x :: 0 <= x < |digits| ==> IsDigit(digits[x]))
    requires !IsDigit(At(fmt, i + |digits|))
    ensures TakeNumber(fmt, i) == (Number(digits), i + |digits|)
  {
    DigitsEndAt(fmt, i, i + |digits|, 10);
  }

  /** The part of the format from i on that is left when s has been read. */
  lemma Parts(fmt: string, i: nat, s: string, rest: string)
    requires HasAt(fmt, i, s + rest)
    ensures HasAt(fmt, i, s) && HasAt(fmt, i + |s|, rest)
  {
    assert fmt[i..i + |s|] == (s + rest)[..|s|];
    assert fmt[i + |s|..i + |s| + |rest|] == (s + rest)[|s|..];
  }

  lemma NextIs(fmt: string, i: nat, s: string)
    requires HasAt(fmt, i, s)
    ensures At(fmt, i) == if s == "" then At(fmt, i + |s|) else s[0]
  {
    if s != "" { assert fmt[i] == fmt[i..i + |s|][0]; }
  }

  /** A directive is read as what it means. */
  lemma SpecRoundTrip(fmt: string, i: nat, d: Directive, pos: nat, args: Args)
    requires GoodDirective(d) && HasAt(fmt, i, Write(d)) && IsLetter(At(fmt, i + |Write(d)|))
    ensures TakeSpec(fmt, i, pos, args) == Meaning(d, i + |Write(d)|, pos, args)
  {
    hide FlagsEnd, TakeWidth, TakePrecision, TakeQualifier, Meaning, FlagsIn, IsFlag, IsDigit, IsLetter, WriteField,
         WritePrecision, HasAt, TakeSpec, GoodDirective;
    var tail := d.qualifier + d.last;
    var prec := WritePrecision(d.precision) + tail;
    Parts(fmt, i, d.flags, WriteField(d.width) + prec);
    var j := i + |d.flags|;
    Parts(fmt, j, WriteField(d.width), prec);
    var k := j + |WriteField(d.width)|;
    Parts(fmt, k, WritePrecision(d.precision), tail);
    Starts(fmt, j, k, k + |WritePrecision(d.precision)|, d);
    PartsRead(fmt, i, j, k, d, pos, args);
  }

  lemma PartsRead(fmt: string, i: nat, j: nat, k: nat, d: Directive, pos: nat, args: Args)
    requires GoodDirective(d) && HasAt(fmt, i, d.flags) && j == i + |d.flags|
    requires HasAt(fmt, j, WriteField(d.width)) && k == j + |WriteField(d.width)|
    requires HasAt(fmt, k, WritePrecision(d.precision))
    requires var l := k + |WritePrecision(d.precision)|;
             && HasAt(fmt, l, d.qualifier + d.last) && IsLetter(At(fmt, l + |d.qualifier + d.last|))
             && !IsDigit(At(fmt, l)) && At(fmt, l) != '.' && At(fmt, l) != '*'
    requires !IsDigit(At(fmt, k)) && At(fmt, k) != '*' && !IsFlag(At(fmt, j))
    ensures i + |Write(d)| == k + |WritePrecision(d.precision)| + |d.qualifier + d.last|
    ensures TakeSpec(fmt, i, pos, args) == Meaning(d, i + |Write(d)|, pos, args)
  {
    hide FlagsEnd, TakeWidth, TakePrecision, TakeQualifier, WidthOf, PrecisionOf, FlagsIn, IsFlag, IsDigit, IsLetter,
         WriteField,
         WritePrecision, AllFlags, GoodField, HasAt;
    SliceIs(fmt, i, d.flags);
    SliceIs(fmt, j, WriteField(d.width));
    SliceIs(fmt, k, WritePrecision(d.precision));
    FlagsRead(fmt, i, d.flags);
    var s := Spec(FlagsIn(d.flags), -1, -1, '\0', j, pos);
    WidthRead(fmt, s, d.width, args);
    var s1 := TakeWidth(fmt, s, args);
    PrecisionRead(fmt, s1, d.precision, args);
    QualifierRead(fmt, TakePrecision(fmt, s1, args), d.qualifier, d.last);
  }

  lemma SliceIs(fmt: string, i: nat, s: string)
    requires HasAt(fmt, i, s)
    ensures i + |s| <= |fmt| && fmt[i..i + |s|] == s
  {
  }

  /** What the parts of a directive can start with. */
  lemma Starts(fmt: string, j: nat, k: nat, l: nat, d: Directive)
    requires GoodDirective(d) && HasAt(fmt, j, WriteField(d.width)) && k == j + |WriteField(d.width)|
    requires HasAt(fmt, k, WritePrecision(d.precision)) && l == k + |WritePrecision(d.precision)|
    requires HasAt(fmt, l, d.qualifier + d.last) && IsLetter(At(fmt, l + |d.qualifier + d.last|))
    ensures !IsFlag(At(fmt, l)) && !IsDigit(At(fmt, l)) && At(fmt, l) != '.' && At(fmt, l) != '*'
    ensures !IsFlag(At(fmt, k)) && !IsDigit(At(fmt, k)) && At(fmt, k) != '*'
    ensures (d.precision.None? ==> At(fmt, k) != '.')
    ensures !IsFlag(At(fmt, j))
  {
    NextIs(fmt, j, WriteField(d.width));
    NextIs(fmt, k, WritePrecision(d.precision));
    NextIs(fmt, l, d.qualifier + d.last);
  }

  lemma WidthRead(fmt: string, s: Spec, f: Field, args: Args)
    requires GoodField(f) && HasAt(fmt, s.at, WriteField(f)) && s.width == -1
    requires var c := At(fmt, s.at + |WriteField(f)|); !IsDigit(c) && c != '*'
    ensures var (width, left) := WidthOf(f, args.words(s.pos));
            TakeWidth(fmt, s, args) == s.(width := width, flags := if left then s.flags.(left := true) else s.flags,
                                          at := s.at + |WriteField(f)|, pos := s.pos + Words(f))
  {
    NextIs(fmt, s.at, WriteField(f));
    if f.Fixed? { NumberRead(fmt, s.at, f.digits); }
  }

  lemma PrecisionRead(fmt: string, s: Spec, p: Option<Field>, args: Args)
    requires (p.Some? ==> GoodField(p.value)) && HasAt(fmt, s.at, WritePrecision(p)) && s.precision == -1
    requires var c := At(fmt, s.at + |WritePrecision(p)|); !IsDigit(c) && c != '*' && c != '.'
    ensures TakePrecision(fmt, s, args)
         == s.(precision := PrecisionOf(p, args.words(s.pos)), at := s.at + |WritePrecision(p)|,
               pos := s.pos + if p.Some? then Words(p.value) else 0)
  {
    NextIs(fmt, s.at, WritePrecision(p));
    if p.Some? {
      Parts(fmt, s.at, ".", WriteField(p.value));
      NextIs(fmt, s.at + 1, WriteField(p.value));
      if p.value.Fixed? { NumberRead(fmt, s.at + 1, p.value.digits); }
    }
  }

  lemma QualifierRead(fmt: string, s: Spec, q: string, last: string)
    requires s.at <= |fmt| && q in {"", "h", "l", "ll", "L", "Z"} && last in {"", "q"} && s.qualifier == '\0'
    requires HasAt(fmt, s.at, q + last) && IsLetter(At(fmt, s.at + |q + last|))
    ensures TakeQualifier(fmt, s)
         == s.(qualifier := if last == "q" || q == "ll" then 'L' else if q == "" then '\0' else q[0],
               at := s.at + |q + last|)
  {
    Parts(fmt, s.at, q, last);
    NextIs(fmt, s.at, q);
    NextIs(fmt, s.at + |q|, last);
    if q == "ll" {
      Parts(fmt, s.at, "l", "l");
      NextIs(fmt, s.at + 1, "l");
    }
  }

  /** The characters at a place, as far as they are digits. */
  lemma DigitsThere(fmt: string, i: nat) returns (digits: string)
    requires i < |fmt| && IsDigit(fmt[i])
    ensures digits != "" && HasAt(fmt, i, digits) && digits[0] == fmt[i]
    ensures forall x :: 0 <= x < |digits| ==> IsDigit(digits[x])
    ensures TakeNumber(fmt, i) == (Number(digits), i + |digits|)
  {
    var j := DigitsEnd(fmt, i, 10);
    digits := fmt[i..j];
    assert DigitIn(fmt[i], 10);
    forall x | 0 <= x < |digits| ensures IsDigit(digits[x]) { assert DigitIn(digits[x], 10); }
  }

  lemma WidthWritten(fmt: string, s: Spec, args: Args) returns (f: Field)
    requires s.at <= |fmt| && s.width == -1
    ensures GoodField(f) && HasAt(fmt, s.at, WriteField(f)) && (f.Fixed? ==> f.digits[0] == At(fmt, s.at))
    ensures var (width, left) := WidthOf(f, args.words(s.pos));
            TakeWidth(fmt, s, args) == s.(width := width, flags := if left then s.flags.(left := true) else s.flags,
                                          at := s.at + |WriteField(f)|, pos := s.pos + Words(f))
  {
    hide TakeNumber, Number;
    f := Absent;
    if IsDigit(At(fmt, s.at)) {
      var digits := DigitsThere(fmt, s.at);
      f := Fixed(digits);
    } else if At(fmt, s.at) == '*' {
      f := Star;
    }
  }

  lemma PrecisionWritten(fmt: string, s: Spec, args: Args) returns (p: Option<Field>)
    requires s.at <= |fmt| && s.precision == -1
    ensures (p.Some? ==> GoodField(p.value)) && HasAt(fmt, s.at, WritePrecision(p))
    ensures TakePrecision(fmt, s, args)
         == s.(precision := PrecisionOf(p, args.words(s.pos)), at := s.at + |WritePrecision(p)|,
               pos := s.pos + if p.Some? then Words(p.value) else 0)
  {
    hide TakeNumber, Number, HasAt;
    if At(fmt, s.at) != '.' {
      NothingAt(fmt, s.at);
      return None;
    }
    CharAt(fmt, s.at);
    NothingAt(fmt, s.at + 1);
    var f := Absent;
    if IsDigit(At(fmt, s.at + 1)) {
      var digits := DigitsThere(fmt, s.at + 1);
      f := Fixed(digits);
    } else if At(fmt, s.at + 1) == '*' {
      CharAt(fmt, s.at + 1);
      f := Star;
    }
    Joined(fmt, s.at, ".", WriteField(f));
    p := Some(f);
  }

  lemma NothingAt(fmt: string, i: nat)
    requires i <= |fmt|
    ensures HasAt(fmt, i, "")
  {
  }

  lemma CharAt(fmt: string, i: nat)
    requires i < |fmt|
    ensures HasAt(fmt, i, [fmt[i]])
  {
  }

  lemma QualifierWritten(fmt: string, s: Spec) returns (q: string, last: string)
    requires s.at <= |fmt| && s.qualifier == '\0'
    ensures q in {"", "h", "l", "ll", "L", "Z"} && last in {"", "q"} && HasAt(fmt, s.at, q + last)
    ensures TakeQualifier(fmt, s)
         == s.(qualifier := if last == "q" || q == "ll" then 'L' else if q == "" then '\0' else q[0],
               at := s.at + |q + last|)
  {
    var c := At(fmt, s.at);
    q := if c == 'l' && At(fmt, s.at + 1) == 'l' then "ll"
         else if c == 'h' || c == 'l' || c == 'L' || c == 'Z' then [c] else "";
    last := if At(fmt, s.at + |q|) == 'q' then "q" else "";
  }

  lemma Joined(fmt: string, i: nat, s: string, rest: string)
    requires HasAt(fmt, i, s) && HasAt(fmt, i + |s|, rest)
    ensures HasAt(fmt, i, s + rest)
  {
    assert fmt[i..i + |s + rest|] == fmt[i..i + |s|] + fmt[i + |s|..i + |s| + |rest|];
  }

  lemma FlagsAt(fmt: string, i: nat, j: nat)
    requires i <= j <= |fmt| && forall x :: i <= x < j ==> IsFlag(fmt[x])
    ensures HasAt(fmt, i, fmt[i..j]) && AllFlags(fmt[i..j])
  {
  }

  /** Whatever is read, from any format, is a directive that stands there, with its meaning. */
  lemma SpecIsWritten(fmt: string, i: nat, pos: nat, args: Args) returns (d: Directive)
    requires i <= |fmt|
    ensures GoodDirective(d) && HasAt(fmt, i, Write(d))
    ensures TakeSpec(fmt, i, pos, args) == Meaning(d, i + |Write(d)|, pos, args)
  {
    hide FlagsEnd, TakeWidth, TakePrecision, TakeQualifier, WidthOf, PrecisionOf, FlagsIn, WriteField, WritePrecision,
         GoodField,
         HasAt, IsDigit;
    var j := FlagsEnd(fmt, i);
    FlagsAt(fmt, i, j);
    var s := Spec(FlagsIn(fmt[i..j]), -1, -1, '\0', j, pos);
    var f := WidthWritten(fmt, s, args);
    var s1 := TakeWidth(fmt, s, args);
    var p := PrecisionWritten(fmt, s1, args);
    var s2 := TakePrecision(fmt, s1, args);
    var q, last := QualifierWritten(fmt, s2);
    d := Directive(fmt[i..j], f, p, q, last);
    Joined(fmt, s1.at, WritePrecision(p), q + last);
    Joined(fmt, j, WriteField(f), WritePrecision(p) + (q + last));
    Joined(fmt, i, fmt[i..j], WriteField(f) + (WritePrecision(p) + (q + last)));
  }

  // What a conversion writes

  function CharText(c: char, s: Spec): string
  {
    if s.flags.left then [c] + Repeat(' ', s.width - 1) else Repeat(' ', s.width - 1) + [c]
  }

  /** As much of a string as the precision allows, in a field of the width. */
  function StringText(text: string, s: Spec): string
  {
    var shown := if 0 <= s.precision < |text| then text[..s.precision] else text;
    if s.flags.left then shown + Repeat(' ', s.width - |shown|) else Repeat(' ', s.width - |shown|) + shown
  }

  function LowByte(w: word): char { (w % 256) as char }

  /** The number for an integer conversion, in 64 bits, and how many words it takes. */
  function Integer(s: Spec, sign: bool, args: Args): (r: (llong, nat))
  {
    var w: int := args.words(s.pos);
    if s.qualifier == 'L' then
      var hi: int := args.words(s.pos + 1);
      var v := hi * 0x1_0000_0000 + w;
      (if v < 0x8000_0000_0000_0000 then v else v - ULL, 2)
    else if s.qualifier == 'Z' then (w, 1)
    else if s.qualifier == 'h' then
      var h := w % 0x1_0000;
      (if sign && h >= 0x8000 then h - 0x1_0000 else h, 1)
    else (if sign then Signed32(w) else w, 1)
  }

  function IntegerText(s: Spec, c: char, args: Args): string
  {
    var f := s.flags.(sign := c == 'd' || c == 'i', large := c == 'X');
    var base := if c == 'o' then 8 else if c == 'x' || c == 'X' then 16 else 10;
    NumberText(Integer(s, f.sign, args).0, base, s.width, s.precision, f)
  }

  function PointerText(s: Spec, args: Args): string
  {
    if s.width == -1 then NumberText(args.words(s.pos), 16, 8, s.precision, s.flags.(zeropad := true))
    else NumberText(args.words(s.pos), 16, s.width, s.precision, s.flags)
  }

  predicate IsInteger(c: char) { c == 'o' || c == 'x' || c == 'X' || c == 'd' || c == 'i' || c == 'u' }

  /** What conversion c writes, and how many argument words it takes. */
  function Conversion(s: Spec, c: char, args: Args): (string, nat)
  {
    if c == 'c' then (CharText(LowByte(args.words(s.pos)), s), 1)
    else if c == 's' then
      var p := args.words(s.pos);
      (StringText(if p == 0 then "<NULL>" else args.strings(p), s), 1)
    else if c == 'p' then (PointerText(s, args), 1)
    else if c == 'n' then ("", 1)
    else if c == '%' then ("%", 0)
    else if IsInteger(c) then (IntegerText(s, c, args), Integer(s, c == 'd' || c == 'i', args).1)
    else (if c == '\0' then "%" else "%" + [c], 0)
  }

  /** All that is written from position i of the format on, after out. */
  function Format(fmt: string, i: nat, pos: nat, args: Args, out: Output): Output
    requires i <= |fmt|
    decreases |fmt| - i
  {
    var c := At(fmt, i);
    if c == '\0' then out
    else if c != '%' then Format(fmt, i + 1, pos, args, out.(text := out.text + [c]))
    else
      var s := TakeSpec(fmt, i + 1, pos, args);
      var letter := At(fmt, s.at);
      var (t, n) := Conversion(s, letter, args);
      var stores := if letter == 'n' then out.stores + [(args.words(s.pos), |out.text|)] else out.stores;
      Format(fmt, if letter == '\0' then s.at else s.at + 1, s.pos + n, args, Output(out.text + t, stores))
  }

  /** What comes later does not depend on what has been written before. */
  lemma {:induction false} FormatAppends(fmt: string, i: nat, pos: nat, args: Args, out: Output)
    requires i <= |fmt|
    ensures Format(fmt, i, pos, args, out).text == out.text + Format(fmt, i, pos, args, Output("", [])).text
    decreases |fmt| - i
  {
    hide TakeSpec, Conversion;
    var c := At(fmt, i);
    if c == '\0' {
      assert out.text + "" == out.text;
    } else if c != '%' {
      FormatAppends(fmt, i + 1, pos, args, out.(text := out.text + [c]));
      FormatAppends(fmt, i + 1, pos, args, Output("" + [c], []));
      Glue(out.text, [c], Format(fmt, i + 1, pos, args, Output("", [])).text);
    } else {
      var s := TakeSpec(fmt, i + 1, pos, args);
      var letter := At(fmt, s.at);
      var (t, n) := Conversion(s, letter, args);
      var next := if letter == '\0' then s.at else s.at + 1;
      var stores := if letter == 'n' then out.stores + [(args.words(s.pos), |out.text|)] else out.stores;
      var stores0 := if letter == 'n' then [] + [(args.words(s.pos), 0)] else [];
      FormatAppends(fmt, next, s.pos + n, args, Output(out.text + t, stores));
      FormatAppends(fmt, next, s.pos + n, args, Output("" + t, stores0));
      Glue(out.text, t, Format(fmt, next, s.pos + n, args, Output("", [])).text);
      assert "" + t == t;
    }
  }

  /** Text without conversions is written as it is. */
  lemma {:induction false} PlainText(fmt: string, i: nat, args: Args, out: Output)
    requires i <= |fmt| && '%' !in fmt && '\0' !in fmt
    ensures Format(fmt, i, 0, args, out) == out.(text := out.text + fmt[i..])
    decreases |fmt| - i
  {
    if i == |fmt| {
      assert out.text + fmt[i..] == out.text;
    } else {
      assert fmt[i] in fmt;
      PlainText(fmt, i + 1, args, out.(text := out.text + [fmt[i]]));
      assert fmt[i..] == [fmt[i]] + fmt[i + 1..];
      Glue(out.text, [fmt[i]], fmt[i + 1..]);
    }
  }

  // The code

  /** The flags set are those whose characters stand before the first that is no flag. */
  method SkipFlags(fmt: string, i: nat) returns (f: Flags, j: nat)
    requires i <= |fmt|
    ensures i <= j <= |fmt| && AllFlags(fmt[i..j]) && !IsFlag(At(fmt, j)) && f == FlagsIn(fmt[i..j])
  {
    f, j := Flags(false, false, false, false, false, false, false), i;
    while IsFlag(At(fmt, j))
      invariant i <= j <= |fmt| && AllFlags(fmt[i..j]) && f == FlagsIn(fmt[i..j])
      decreases |fmt| - j
    {
      assert fmt[i..j + 1] == fmt[i..j] + [fmt[j]];
      match fmt[j] {
        case '-' => f := f.(left := true);
        case '+' => f := f.(plus := true);
        case ' ' => f := f.(space := true);
        case '#' => f := f.(special := true);
        case _ => f := f.(zeropad := true);
      }
      j := j + 1;
    }
  }

  /** skip_atoi: the value of the longest run of decimal digits. */
  method SkipAtoi(fmt: string, i: nat) returns (n: nat, j: nat)
    requires i <= |fmt|
    ensures j == DigitsEnd(fmt, i, 10) && n == Value(fmt[i..j], 10)
  {
    n, j := 0, i;
    while IsDigit(At(fmt, j))
      invariant i <= j <= |fmt| && DigitsEnd(fmt, j, 10) == DigitsEnd(fmt, i, 10)
      invariant AllDigits(fmt[i..j], 10) && n == Value(fmt[i..j], 10)
      decreases |fmt| - j
    {
      ValueNext(fmt, i, j, 10);
      n := n * 10 + (At(fmt, j) as int - '0' as int);
      j := j + 1;
    }
  }

  method ScanWidth(fmt: string, s0: Spec, args: Args) returns (s: Spec)
    requires s0.at <= |fmt| && s0.width == -1
    ensures s == TakeWidth(fmt, s0, args)
  {
    s := s0;
    if IsDigit(At(fmt, s.at)) {
      var n, k := SkipAtoi(fmt, s.at);
      s := s.(width := n, at := k);
    } else if At(fmt, s.at) == '*' {
      s := s.(at := s.at + 1, width := Signed32(args.words(s.pos)), pos := s.pos + 1);
      if s.width < 0 {
        s := s.(width := -s.width, flags := s.flags.(left := true));
      }
    }
  }

  method ScanPrecision(fmt: string, s0: Spec, args: Args) returns (s: Spec)
    requires s0.at <= |fmt| && s0.precision == -1
    ensures s == TakePrecision(fmt, s0, args)
  {
    s := s0;
    if At(fmt, s.at) == '.' {
      s := s.(at := s.at + 1);
      if IsDigit(At(fmt, s.at)) {
        var n, k := SkipAtoi(fmt, s.at);
        s := s.(precision := n, at := k);
      } else if At(fmt, s.at) == '*' {
        s := s.(at := s.at + 1, precision := Signed32(args.words(s.pos)), pos := s.pos + 1);
      }
      if s.precision < 0 {
        s := s.(precision := 0);
      }
    }
  }

  /**
   Flags, width, precision and qualifier: what is read is a directive that stands there, with its meaning, and if a
   directive is followed by a letter it is read as a whole.
   */
  method ScanSpec(fmt: string, i: nat, pos: nat, args: Args) returns (s: Spec)
    requires i <= |fmt|
    ensures s == TakeSpec(fmt, i, pos, args)
    ensures exists d :: GoodDirective(d) && HasAt(fmt, i, Write(d)) && s == Meaning(d, i + |Write(d)|, pos, args)
    ensures forall d :: GoodDirective(d) && HasAt(fmt, i, Write(d)) && IsLetter(At(fmt, i + |Write(d)|)) ==>
              s == Meaning(d, i + |Write(d)|, pos, args)
  {
    hide FlagsEnd, TakeWidth, TakePrecision, Meaning, Write, GoodDirective;
    var f, j := SkipFlags(fmt, i);
    FlagsRead(fmt, i, fmt[i..j]);
    ghost var written := SpecIsWritten(fmt, i, pos, args);
    forall d | GoodDirective(d) && HasAt(fmt, i, Write(d)) && IsLetter(At(fmt, i + |Write(d)|))
      ensures TakeSpec(fmt, i, pos, args) == Meaning(d, i + |Write(d)|, pos, args)
    {
      SpecRoundTrip(fmt, i, d, pos, args);
    }
    s := ScanWidth(fmt, Spec(f, -1, -1, '\0', j, pos), args);
    Untouched(fmt, Spec(f, -1, -1, '\0', j, pos), args);
    s := ScanPrecision(fmt, s, args);
    if At(fmt, s.at) == 'h' || At(fmt, s.at) == 'l' || At(fmt, s.at) == 'L' || At(fmt, s.at) == 'Z' {
      s := s.(qualifier := At(fmt, s.at), at := s.at + 1);
      if s.qualifier == 'l' && At(fmt, s.at) == 'l' {
        s := s.(qualifier := 'L', at := s.at + 1);
      }
    }
    if At(fmt, s.at) == 'q' {
      s := s.(qualifier := 'L', at := s.at + 1);
    }
  }

  lemma Untouched(fmt: string, s: Spec, args: Args)
    requires s.at <= |fmt| && s.qualifier == '\0'
    ensures TakeWidth(fmt, s, args).precision == s.precision
    ensures TakePrecision(fmt, TakeWidth(fmt, s, args), args).qualifier == '\0'
  {
  }

  /** The %c and %s cases: padding before, unless to the left, and after. */
  method PutField(w: Writer, text: string, s: Spec)
    requires w.Valid()
    modifies w, w.buf
    ensures w.Valid()
    ensures var pad := Repeat(' ', s.width - |text|);
            w.text == old(w.text) + if s.flags.left then text + pad else pad + text
  {
    ghost var t0 := w.text;
    var width := s.width - |text|;
    if !s.flags.left {
      width := w.PutWhile(width, ' ');
      w.PutAll(text);
      Glue(t0, Repeat(' ', s.width - |text|), text);
      var _ := w.PutWhile(width, ' ');
      assert w.text + "" == w.text;
    } else {
      w.PutAll(text);
      var _ := w.PutWhile(width, ' ');
      Glue(t0, text, Repeat(' ', s.width - |text|));
    }
  }

  /** The conversion's letter decides. */
  method Convert(w: Writer, s: Spec, c: char, args: Args) returns (n: nat)
    requires w.Valid()
    modifies w, w.buf
    ensures w.Valid() && w.text == old(w.text) + Conversion(s, c, args).0 && n == Conversion(s, c, args).1
  {
    hide NumberText;
    if c == 'c' {
      PutField(w, [LowByte(args.words(s.pos))], s);
      n := 1;
    } else if c == 's' {
      var p := args.words(s.pos);
      var text := if p == 0 then "<NULL>" else args.strings(p);
      var len := if 0 <= s.precision < |text| then s.precision else |text|;
      PutField(w, text[..len], s);
      assert text[..|text|] == text;
      n := 1;
    } else if c == 'p' {
      if s.width == -1 {
        w.Number(args.words(s.pos), 16, 8, s.precision, s.flags.(zeropad := true));
      } else {
        w.Number(args.words(s.pos), 16, s.width, s.precision, s.flags);
      }
      n := 1;
    } else if c == 'n' {
      n := 1;
    } else if c == '%' {
      w.Put('%');
      n := 0;
    } else if IsInteger(c) {
      var f := s.flags.(sign := c == 'd' || c == 'i', large := c == 'X');
      var base := if c == 'o' then 8 else if c == 'x' || c == 'X' then 16 else 10;
      var num := Integer(s, f.sign, args);
      w.Number(num.0, base, s.width, s.precision, f);
      n := num.1;
    } else {
      w.Put('%');
      if c != '\0' {
        w.Put(c);
      }
      n := 0;
    }
  }

  /** The first characters of the text, as many as fit before a NUL; nothing else is touched. */
  ghost predicate Truncated(was: string, now: string, size: nat, text: string)
    requires size <= |was| == |now|
  {
    size > 0 ==>
    var n := if |text| < size - 1 then |text| else size - 1;
    && (forall i :: 0 <= i < n ==> now[i] == text[i]) && now[n] == '\0'
    && (forall i :: n < i < |was| ==> now[i] == was[i])
  }

  /**
   vsnprintf: whatever the size, the value is the length of the whole output, and of that the buffer gets as much as
   fits, with a NUL behind it. With size 0 the buffer is not touched.
   */
  method Vsnprintf(buf: array<char>, size: nat, fmt: string, args: Args) returns (r: int, stores: seq<(word, nat)>)
    requires size <= buf.Length
    modifies buf
    ensures r == |Format(fmt, 0, 0, args, Output("", [])).text|
    ensures stores == Format(fmt, 0, 0, args, Output("", [])).stores
    ensures Truncated(old(buf[..]), buf[..], size, Format(fmt, 0, 0, args, Output("", [])).text)
    ensures size == 0 ==> buf[..] == old(buf[..])
  {
    hide Conversion, TakeSpec, Meaning, Write, GoodDirective, HasAt, IsLetter;
    var w := new Writer(buf, size);
    stores := [];
    var i: nat, pos: nat := 0, 0;
    while At(fmt, i) != '\0'
      invariant i <= |fmt| && w.Valid() && w.buf == buf && w.size == size && w.was == old(buf[..])
      invariant Format(fmt, i, pos, args, Output(w.text, stores)) == Format(fmt, 0, 0, args, Output("", []))
      decreases |fmt| - i
    {
      if fmt[i] != '%' {
        w.Put(fmt[i]);
        i := i + 1;
      } else {
        var s := ScanSpec(fmt, i + 1, pos, args);
        if At(fmt, s.at) == 'n' {
          stores := stores + [(args.words(s.pos), w.str)];
        }
        var n := Convert(w, s, At(fmt, s.at), args);
        i := if At(fmt, s.at) == '\0' then s.at else s.at + 1;
        pos := s.pos + n;
      }
    }
    if w.str <= size - 1 {
      buf[w.str] := '\0';
    } else if size > 0 {
      buf[size - 1] := '\0';
    }
    r := w.str;
  }
}
