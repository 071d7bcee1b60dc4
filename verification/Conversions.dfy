/**
 What the conversions of vsnprintf (kernel/util/printf.c) write, told from the
 characters of the conversion and the words of its arguments: each letter's base and
 sign, each qualifier's width in bits, and what the flags do.
 */
module Conversions {
  import opened Bytes
  import opened Numerals
  import opened Options
  import opened Printf
  import opened Vsnprintf

  // What a directive asks for

  /** Padding goes behind: because of a minus, or of a negative width among the arguments. */
  predicate Leftward(d: Directive, pos: nat, args: Args)
  {
    '-' in d.flags || (d.width.Star? && args.words(pos) >= 0x8000_0000)
  }

  function AskedWidth(d: Directive, pos: nat, args: Args): (r: nat)
    requires GoodDirective(d)
  {
    match d.width
    case Fixed(digits) => Number(digits)
    case Star => var w: int := args.words(pos); if w < 0x8000_0000 then w else 0x1_0000_0000 - w
    case Absent => 0
  }

  /** At least so many digits; a negative number among the arguments counts as none. */
  function AskedPrecision(d: Directive, pos: nat, args: Args): (r: nat)
    requires GoodDirective(d)
  {
    match d.precision
    case Some(Fixed(digits)) => Number(digits)
    case Some(Star) => var w: int := args.words(pos + Words(d.width)); if w < 0x8000_0000 then w else 0
    case _ => 0
  }

  /** Stars take their words before the conversion takes its own. */
  function ArgumentAt(d: Directive, pos: nat): nat
  {
    pos + (if d.width.Star? then 1 else 0) + (if d.precision == Some(Star) then 1 else 0)
  }

  predicate IsWide(d: Directive) { d.last == "q" || d.qualifier == "ll" || d.qualifier == "L" }

  predicate IsShort(d: Directive) { d.last == "" && d.qualifier == "h" }

  predicate IsSize(d: Directive) { d.last == "" && d.qualifier == "Z" }

  /** Two to the width of the argument in bits. */
  function Modulus(d: Directive): (r: int)
    ensures r > 0
  {
    if IsWide(d) then ULL else if IsShort(d) then 0x1_0000 else 0x1_0000_0000
  }

  /** The words of the argument as one number. */
  function Raw(d: Directive, pos: nat, args: Args): int
  {
    var w: int, hi: int := args.words(ArgumentAt(d, pos)), args.words(ArgumentAt(d, pos) + 1);
    w + if IsWide(d) then hi * 0x1_0000_0000 else 0
  }

  /** The argument, as a number of its width, signed or not, is v; a size is never signed. */
  ghost predicate IsArgument(d: Directive, pos: nat, args: Args, signed: bool, v: int)
  {
    && (v - Raw(d, pos, args)) % Modulus(d) == 0
    && if signed && !IsSize(d) then -Modulus(d) / 2 <= v < Modulus(d) / 2 else 0 <= v < Modulus(d)
  }

  function TextOf(d: Directive, letter: char, pos: nat, args: Args): string
    requires GoodDirective(d)
  {
    Conversion(Meaning(d, 0, pos, args), letter, args).0
  }

  function WordsOf(d: Directive, letter: char, pos: nat, args: Args): nat
    requires GoodDirective(d)
  {
    Conversion(Meaning(d, 0, pos, args), letter, args).1
  }

  lemma MeaningIs(d: Directive, pos: nat, args: Args)
    requires GoodDirective(d)
    ensures var s := Meaning(d, 0, pos, args);
            && s.flags == Flags('0' in d.flags, false, '+' in d.flags, ' ' in d.flags, Leftward(d, pos, args),
                                '#' in d.flags, false)
            && s.width == (if d.width.Absent? then -1 else AskedWidth(d, pos, args))
            && s.precision == (if d.precision.None? then -1 else AskedPrecision(d, pos, args))
            && (d.width.Absent? ==> AskedWidth(d, pos, args) == 0)
            && (d.precision.None? ==> AskedPrecision(d, pos, args) == 0)
            && s.pos == ArgumentAt(d, pos)
            && (s.qualifier == 'L' <==> IsWide(d)) && (s.qualifier == 'h' <==> IsShort(d))
            && (s.qualifier == 'Z' <==> IsSize(d))
  {
    hide Number;
  }

  // The argument

  lemma SmallMultiple(x: int, m: int)
    requires m > 0 && x % m == 0 && -m < x < m
    ensures x == 0
  {
    var q := x / m;
    assert x == q * m;
    Product(q, m);
  }

  lemma Product(q: int, m: int)
    requires m > 0
    ensures (q >= 1 ==> q * m >= m) && (q <= -1 ==> q * m <= -m)
  {
    if q >= 1 {
      assert q * m == m + (q - 1) * m && (q - 1) * m >= 0;
    } else if q <= -1 {
      assert q * m == -m + (q + 1) * m && (q + 1) * m <= 0;
    }
  }

  lemma SameClass(x: int, y: int, z: int, m: int)
    requires m > 0 && (x - z) % m == 0 && (y - z) % m == 0 && -m < x - y < m
    ensures x == y
  {
    var p, q := (x - z) / m, (y - z) / m;
    assert x - z == p * m && y - z == q * m;
    assert x - y == (p - q) * m;
    Multiple(p - q, m);
    SmallMultiple(x - y, m);
  }

  lemma Multiple(k: int, m: int)
    requires m > 0
    ensures (k * m) % m == 0
  {
    var q, r := (k * m) / m, (k * m) % m;
    assert k * m == q * m + r;
    assert r == (k - q) * m;
    Product(k - q, m);
  }

  /** The number printed, taken as unsigned or signed, is the argument. */
  lemma ArgumentIs(d: Directive, pos: nat, args: Args, signed: bool, v: int)
    requires GoodDirective(d) && IsArgument(d, pos, args, signed, v)
    ensures var (num, n) := Integer(Meaning(d, 0, pos, args), signed, args);
            && n == (if IsWide(d) then 2 else 1)
            && (if signed then num == v else v == if num < 0 then num + ULL else num)
  {
    hide Meaning;
    MeaningIs(d, pos, args);
    var s := Meaning(d, 0, pos, args);
    var num: int := Integer(s, signed, args).0;
    var w: int := args.words(s.pos);
    var u := if !signed && num < 0 then num + ULL else num;
    if IsWide(d) {
      WideClass(u, Raw(d, pos, args));
    } else if IsShort(d) {
      ShortClass(u, w);
    }
    SameClass(v, u, Raw(d, pos, args), Modulus(d));
  }

  lemma WideClass(u: int, raw: int)
    requires u == raw || u == raw - ULL
    ensures (u - raw) % ULL == 0
  {
  }

  lemma ShortClass(u: int, w: nat)
    requires u == w % 0x1_0000 || u == w % 0x1_0000 - 0x1_0000
    ensures (u - w) % 0x1_0000 == 0
  {
  }

  // Numbers

  function BaseOf(c: char): nat
  {
    match c
    case 'o' => 8
    case 'x' => 16
    case 'X' => 16
    case _ => 10
  }

  /** There are spaces in front, for which reading does not look. */
  predicate SpacesFirst(d: Directive, pos: nat, args: Args, plain: int)
    requires GoodDirective(d)
  {
    AskedWidth(d, pos, args) > plain && !Leftward(d, pos, args) && '0' !in d.flags
  }

  /** How long the number is without padding. */
  function UnsignedLength(d: Directive, c: char, pos: nat, args: Args, v: nat): nat
    requires GoodDirective(d)
  {
    PrefixLength(d, c) + Max(|Digits(v, BaseOf(c), c == 'X')|, AskedPrecision(d, pos, args))
  }

  function PrefixLength(d: Directive, c: char): nat
  {
    if '#' !in d.flags || c == 'u' then 0 else if c == 'o' then 1 else 2
  }

  /** The call of number() for an unsigned conversion. */
  lemma UnsignedCall(d: Directive, c: char, pos: nat, args: Args, v: nat) returns (num: llong, f: Flags)
    requires GoodDirective(d) && c in {'o', 'x', 'X', 'u'} && IsArgument(d, pos, args, false, v)
    ensures f == Flags('0' in d.flags, false, '+' in d.flags, ' ' in d.flags, Leftward(d, pos, args), '#' in d.flags,
                       c == 'X')
    ensures Magnitude(num, f) == v && WordsOf(d, c, pos, args) == (if IsWide(d) then 2 else 1)
    ensures TextOf(d, c, pos, args)
         == NumberText(num, BaseOf(c), if d.width.Absent? then -1 else AskedWidth(d, pos, args),
                       if d.precision.None? then -1 else AskedPrecision(d, pos, args), f)
    ensures d.width.Absent? ==> AskedWidth(d, pos, args) == 0
    ensures d.precision.None? ==> AskedPrecision(d, pos, args) == 0
  {
    hide Meaning, NumberText, AskedWidth, AskedPrecision, Leftward, IsArgument, Integer;
    MeaningIs(d, pos, args);
    ArgumentIs(d, pos, args, false, v);
    var s := Meaning(d, 0, pos, args);
    num, f := Integer(s, false, args).0, s.flags.(sign := false, large := c == 'X');
  }

  /**
   %o, %x, %X and %u write the argument as an unsigned number of the qualifier's width in base 8, 16, 16 and 10, with
   large letters for %X and small ones for %x.
   */
  lemma UnsignedConversion(d: Directive, c: char, pos: nat, args: Args, v: nat)
    requires GoodDirective(d) && c in {'o', 'x', 'X', 'u'} && IsArgument(d, pos, args, false, v)
    ensures var text, plain := TextOf(d, c, pos, args), UnsignedLength(d, c, pos, args, v);
            && WordsOf(d, c, pos, args) == (if IsWide(d) then 2 else 1)
            && |text| == Max(AskedWidth(d, pos, args), plain)
            && LaidOut(text, plain, "", Digits(v, BaseOf(c), c == 'X'), Leftward(d, pos, args), '0' in d.flags)
            && (forall i :: 0 <= i < |text| ==> InCase(text[i], c == 'X'))
  {
    hide Digits, NumberText, LaidOut, AskedWidth, AskedPrecision, Leftward, InCase, IsArgument, TextOf, WordsOf;
    var num, f := UnsignedCall(d, c, pos, args, v);
    var width := if d.width.Absent? then -1 else AskedWidth(d, pos, args);
    var precision := if d.precision.None? then -1 else AskedPrecision(d, pos, args);
    NumberLaidOut(num, BaseOf(c), width, precision, f);
    NumberCase(num, BaseOf(c), width, precision, f);
  }

  /**
   Reading the text back, in the base or with the prefix telling it, gives the argument, exactly if there are no
   spaces in front, nor a large X in the prefix, or it is 0.
   */
  lemma UnsignedReadBack(d: Directive, c: char, pos: nat, args: Args, v: nat)
    requires GoodDirective(d) && c in {'o', 'x', 'X', 'u'} && IsArgument(d, pos, args, false, v)
    ensures var text := TextOf(d, c, pos, args);
            var spaces := SpacesFirst(d, pos, args, UnsignedLength(d, c, pos, args, v));
            && (PrefixLength(d, c) != 2 ==> (Read(text, BaseOf(c)) == v <==> !spaces || v == 0))
            && (PrefixLength(d, c) != 0 ==> (Read(text, 0) == v <==> (!spaces && c != 'X') || v == 0))
  {
    hide Digits, NumberText, Read, AskedWidth, AskedPrecision, Leftward, IsArgument, TextOf, WordsOf;
    var num, f := UnsignedCall(d, c, pos, args, v);
    var width := if d.width.Absent? then -1 else AskedWidth(d, pos, args);
    var precision := if d.precision.None? then -1 else AskedPrecision(d, pos, args);
    UnsignedRoundTrip(num, BaseOf(c), width, precision, f);
    if f.special && c != 'u' { PrefixRoundTrip(num, BaseOf(c), width, precision, f); }
  }

  /**
   %d and %i write it as a signed number in base 10, with a minus, or the plus or space that is asked for, in front;
   reading the text back gives the argument unless there is such a plus or space.
   */
  lemma SignedConversion(d: Directive, c: char, pos: nat, args: Args, v: int)
    requires GoodDirective(d) && c in {'d', 'i'} && IsArgument(d, pos, args, true, v)
    ensures var text, digits := TextOf(d, c, pos, args), Digits(if v < 0 then -v else v, 10, false);
            var sign := if v < 0 then "-" else if '+' in d.flags then "+" else if ' ' in d.flags then " " else "";
            var plain := |sign| + Max(|digits|, AskedPrecision(d, pos, args));
            && WordsOf(d, c, pos, args) == (if IsWide(d) then 2 else 1)
            && |text| == Max(AskedWidth(d, pos, args), plain)
            && LaidOut(text, plain, sign, digits, Leftward(d, pos, args), '0' in d.flags)
            && (ReadSigned(text, 10) == v <==>
                  v == 0 || (!SpacesFirst(d, pos, args, plain) && (v < 0 || sign == "")))
  {
    hide Meaning, Digits, NumberText, ReadSigned, LaidOut, AskedWidth, AskedPrecision, Leftward, IsArgument, Integer;
    MeaningIs(d, pos, args);
    ArgumentIs(d, pos, args, true, v);
    var s := Meaning(d, 0, pos, args);
    var f := s.flags.(sign := true, large := false);
    var num := Integer(s, true, args).0;
    assert IntegerText(s, c, args) == NumberText(num, 10, s.width, s.precision, f);
    NumberLaidOut(num, 10, s.width, s.precision, f);
    SignedRoundTrip(num, 10, s.width, s.precision, f);
  }

  /** %p writes the word in base 16; without a width it is filled with zeros to the eight digits of an address. */
  lemma PointerConversion(d: Directive, pos: nat, args: Args)
    requires GoodDirective(d)
    ensures var text, v := TextOf(d, 'p', pos, args), args.words(ArgumentAt(d, pos));
            var digits, prefix := Digits(v, 16, false), if '#' in d.flags then 2 else 0;
            var plain := prefix + Max(|digits|, AskedPrecision(d, pos, args));
            var width := if d.width.Absent? then 8 else AskedWidth(d, pos, args);
            var zeros := d.width.Absent? || '0' in d.flags;
            var spaces := width > plain && !Leftward(d, pos, args) && !zeros;
            && WordsOf(d, 'p', pos, args) == 1 && |text| == Max(width, plain)
            && LaidOut(text, plain, "", digits, Leftward(d, pos, args), zeros)
            && (Read(text, if prefix == 0 then 16 else 0) == v <==> !spaces || v == 0)
  {
    hide Meaning, Digits, NumberText, Read, LaidOut, AskedWidth, AskedPrecision, Leftward;
    MeaningIs(d, pos, args);
    var s := Meaning(d, 0, pos, args);
    var v: llong := args.words(s.pos);
    var width, f := if s.width == -1 then 8 else s.width, if s.width == -1 then s.flags.(zeropad := true) else s.flags;
    assert PointerText(s, args) == NumberText(v, 16, width, s.precision, f);
    NumberLaidOut(v, 16, width, s.precision, f);
    if f.special {
      PrefixRoundTrip(v, 16, width, s.precision, f);
    } else {
      UnsignedRoundTrip(v, 16, width, s.precision, f);
    }
  }

  // Characters and strings

  /** In a field of the width: spaces before it, or behind it. */
  ghost predicate InField(text: string, shown: string, width: nat, left: bool)
  {
    && |text| == Max(width, |shown|)
    && (left ==> text[..|shown|] == shown && forall i :: |shown| <= i < |text| ==> text[i] == ' ')
    && (!left ==> text[|text| - |shown|..] == shown && forall i :: 0 <= i < |text| - |shown| ==> text[i] == ' ')
  }

  lemma FieldText(shown: string, width: int, asked: nat, left: bool)
    requires asked == if width == -1 then 0 else width
    ensures InField(if left then shown + Repeat(' ', width - |shown|) else Repeat(' ', width - |shown|) + shown, shown,
                    asked, left)
  {
  }

  /** %c writes the low byte of its word. */
  lemma CharConversion(d: Directive, pos: nat, args: Args)
    requires GoodDirective(d)
    ensures WordsOf(d, 'c', pos, args) == 1
    ensures InField(TextOf(d, 'c', pos, args), [(args.words(ArgumentAt(d, pos)) % 256) as char],
                    AskedWidth(d, pos, args), Leftward(d, pos, args))
  {
    hide Meaning, AskedWidth, AskedPrecision, Leftward, InField, Repeat;
    MeaningIs(d, pos, args);
    var s := Meaning(d, 0, pos, args);
    FieldText([LowByte(args.words(s.pos))], s.width, AskedWidth(d, pos, args), s.flags.left);
  }

  /** %s writes its string, or as much of it as the precision says; for the address 0 there is a text of its own. */
  lemma StringConversion(d: Directive, pos: nat, args: Args)
    requires GoodDirective(d)
    ensures var p := args.words(ArgumentAt(d, pos));
            var str := if p == 0 then "<NULL>" else args.strings(p);
            var n := AskedPrecision(d, pos, args);
            var shown := if d.precision.None? || |str| <= n then str else str[..n];
            && WordsOf(d, 's', pos, args) == 1
            && InField(TextOf(d, 's', pos, args), shown, AskedWidth(d, pos, args), Leftward(d, pos, args))
  {
    hide Meaning, AskedWidth, AskedPrecision, Leftward, InField, Repeat;
    MeaningIs(d, pos, args);
    var s, p := Meaning(d, 0, pos, args), args.words(ArgumentAt(d, pos));
    var str := if p == 0 then "<NULL>" else args.strings(p);
    assert str[..|str|] == str;
    var shown := if 0 <= s.precision < |str| then str[..s.precision] else str;
    FieldText(shown, s.width, AskedWidth(d, pos, args), s.flags.left);
  }

  /** A percent sign stands for itself, %n writes nothing, and what is no conversion is written as it is. */
  lemma OtherConversion(d: Directive, c: char, pos: nat, args: Args)
    requires c !in {'o', 'x', 'X', 'u', 'd', 'i', 'p', 'c', 's'} && GoodDirective(d)
    ensures WordsOf(d, c, pos, args) == if c == 'n' then 1 else 0
    ensures TextOf(d, c, pos, args) == if c == 'n' then "" else if c == '%' || c == '\0' then "%" else ['%', c]
  {
  }

  // Whole formats

  datatype Piece = Text(text: string) | Conv(d: Directive, letter: char)

  predicate GoodPiece(p: Piece)
  {
    match p
    case Text(t) => '%' !in t && '\0' !in t
    case Conv(d, c) => GoodDirective(d) && IsLetter(c) && c != '\0'
  }

  predicate GoodPieces(pieces: seq<Piece>, cut: Option<Directive>)
  {
    (forall i :: 0 <= i < |pieces| ==> GoodPiece(pieces[i])) && (cut.Some? ==> GoodDirective(cut.value))
  }

  function WritePiece(p: Piece): string
  {
    match p
    case Text(t) => t
    case Conv(d, c) => "%" + (Write(d) + [c])
  }

  /** The pieces in turn, and at the end perhaps a conversion without its letter. */
  function WriteFormat(pieces: seq<Piece>, cut: Option<Directive>): string
  {
    if pieces != [] then WritePiece(pieces[0]) + WriteFormat(pieces[1..], cut)
    else if cut.Some? then "%" + Write(cut.value) else ""
  }

  /**
   What the pieces stand for when n characters have been written: text for itself, a conversion for what it makes of
   its arguments, which follow each other, and %n for the number of characters before it.
   */
  ghost function Printed(pieces: seq<Piece>, cut: Option<Directive>, pos: nat, args: Args, n: nat): Output
    requires GoodPieces(pieces, cut)
  {
    if pieces == [] then Output(if cut.Some? then "%" else "", [])
    else
      match pieces[0]
      case Text(t) =>
        var rest := Printed(pieces[1..], cut, pos, args, n + |t|);
        rest.(text := t + rest.text)
      case Conv(d, c) =>
        assert GoodPiece(pieces[0]);
        var t, a := TextOf(d, c, pos, args), ArgumentAt(d, pos);
        var rest := Printed(pieces[1..], cut, a + WordsOf(d, c, pos, args), args, n + |t|);
        Output(t + rest.text, (if c == 'n' then [(args.words(a), n)] else []) + rest.stores)
  }

  /** Where a conversion stands does not matter. */
  lemma AnyPlace(d: Directive, at: nat, c: char, pos: nat, args: Args)
    requires GoodDirective(d)
    ensures Conversion(Meaning(d, at, pos, args), c, args) == (TextOf(d, c, pos, args), WordsOf(d, c, pos, args))
    ensures Meaning(d, at, pos, args).pos == ArgumentAt(d, pos) && Meaning(d, at, pos, args).at == at
  {
    hide NumberText, Number, Repeat;
    assert Meaning(d, at, pos, args) == Meaning(d, 0, pos, args).(at := at);
  }

  lemma {:induction false} TextWritten(fmt: string, i: nat, t: string, pos: nat, args: Args, out: Output)
    requires HasAt(fmt, i, t) && '%' !in t && '\0' !in t
    ensures Format(fmt, i, pos, args, out) == Format(fmt, i + |t|, pos, args, out.(text := out.text + t))
    decreases |t|
  {
    hide TakeSpec, Conversion;
    if t == "" {
      assert out.text + t == out.text;
    } else {
      assert fmt[i] == t[0];
      assert fmt[i + 1..i + |t|] == t[1..];
      TextWritten(fmt, i + 1, t[1..], pos, args, out.(text := out.text + [t[0]]));
      assert out.text + [t[0]] + t[1..] == out.text + t;
    }
  }

  lemma ConvWritten(fmt: string, i: nat, d: Directive, c: char, pos: nat, args: Args, out: Output)
    requires GoodDirective(d) && IsLetter(c) && c != '\0' && HasAt(fmt, i, "%" + (Write(d) + [c]))
    ensures Format(fmt, i, pos, args, out)
         == Format(fmt, i + |Write(d)| + 2, ArgumentAt(d, pos) + WordsOf(d, c, pos, args), args,
                   Output(out.text + TextOf(d, c, pos, args),
                          if c == 'n' then out.stores + [(args.words(ArgumentAt(d, pos)), |out.text|)]
                          else out.stores))
  {
    hide TakeSpec, Conversion, Meaning, Write, GoodDirective, IsLetter;
    Parts(fmt, i, "%", Write(d) + [c]);
    Parts(fmt, i + 1, Write(d), [c]);
    NextIs(fmt, i, "%");
    NextIs(fmt, i + 1 + |Write(d)|, [c]);
    SpecRoundTrip(fmt, i + 1, d, pos, args);
    AnyPlace(d, i + 1 + |Write(d)|, c, pos, args);
  }

  lemma CutWritten(fmt: string, i: nat, d: Directive, pos: nat, args: Args, out: Output)
    requires GoodDirective(d) && HasAt(fmt, i, "%" + Write(d)) && i + 1 + |Write(d)| == |fmt|
    ensures Format(fmt, i, pos, args, out) == out.(text := out.text + "%")
  {
    hide TakeSpec, Conversion, Meaning, Write, GoodDirective;
    Parts(fmt, i, "%", Write(d));
    NextIs(fmt, i, "%");
    SpecRoundTrip(fmt, i + 1, d, pos, args);
    AnyPlace(d, |fmt|, '\0', pos, args);
    OtherConversion(d, '\0', pos, args);
  }

  /** A format that is made of pieces is written as what they stand for, one after the other. */
  lemma {:induction false} FormatMeans(fmt: string, i: nat, pieces: seq<Piece>, cut: Option<Directive>, pos: nat,
                                       args: Args, out: Output)
    requires GoodPieces(pieces, cut) && HasAt(fmt, i, WriteFormat(pieces, cut))
    requires i + |WriteFormat(pieces, cut)| == |fmt|
    ensures var p := Printed(pieces, cut, pos, args, |out.text|);
            Format(fmt, i, pos, args, out) == Output(out.text + p.text, out.stores + p.stores)
    decreases |pieces|
  {
    hide Format, TextOf, WordsOf, ArgumentAt, GoodPiece, Write, WritePiece, HasAt;
    if pieces == [] {
      LastWritten(fmt, i, cut, pos, args, out);
    } else {
      var rest := pieces[1..];
      assert GoodPiece(pieces[0]) && forall x :: 0 <= x < |rest| ==> rest[x] == pieces[x + 1];
      Parts(fmt, i, WritePiece(pieces[0]), WriteFormat(rest, cut));
      var pos', out' := PieceWritten(fmt, i, pieces[0], pos, args, out);
      FormatMeans(fmt, i + |WritePiece(pieces[0])|, rest, cut, pos', args, out');
      PrintedFirst(pieces, cut, pos, args, out, pos', out');
    }
  }

  lemma LastWritten(fmt: string, i: nat, cut: Option<Directive>, pos: nat, args: Args, out: Output)
    requires GoodPieces([], cut) && HasAt(fmt, i, WriteFormat([], cut)) && i + |WriteFormat([], cut)| == |fmt|
    ensures Format(fmt, i, pos, args, out) == Output(out.text + (if cut.Some? then "%" else ""), out.stores + [])
  {
    hide Write, TakeSpec, Conversion;
    assert out.stores + [] == out.stores && out.text + "" == out.text;
    if cut.Some? { CutWritten(fmt, i, cut.value, pos, args, out); }
  }

  /** Where one piece leaves the arguments and the output. */
  ghost predicate Moves(p: Piece, pos: nat, args: Args, out: Output, pos': nat, out': Output)
    requires GoodPiece(p)
  {
    match p
    case Text(t) => pos' == pos && out' == out.(text := out.text + t)
    case Conv(d, c) =>
      var a := ArgumentAt(d, pos);
      && pos' == a + WordsOf(d, c, pos, args) && out'.text == out.text + TextOf(d, c, pos, args)
      && out'.stores == if c == 'n' then out.stores + [(args.words(a), |out.text|)] else out.stores
  }

  lemma PieceWritten(fmt: string, i: nat, p: Piece, pos: nat, args: Args, out: Output) returns (pos': nat, out': Output)
    requires GoodPiece(p) && HasAt(fmt, i, WritePiece(p))
    ensures Moves(p, pos, args, out, pos', out') && i + |WritePiece(p)| <= |fmt|
    ensures Format(fmt, i, pos, args, out) == Format(fmt, i + |WritePiece(p)|, pos', args, out')
  {
    hide Format, TextOf, WordsOf, ArgumentAt, Write;
    match p
    case Text(t) =>
      pos', out' := pos, out.(text := out.text + t);
      TextWritten(fmt, i, t, pos, args, out);
    case Conv(d, c) =>
      var a := ArgumentAt(d, pos);
      pos' := a + WordsOf(d, c, pos, args);
      out' := Output(out.text + TextOf(d, c, pos, args),
                     if c == 'n' then out.stores + [(args.words(a), |out.text|)] else out.stores);
      ConvWritten(fmt, i, d, c, pos, args, out);
  }

  lemma PrintedFirst(pieces: seq<Piece>, cut: Option<Directive>, pos: nat, args: Args, out: Output, pos': nat,
                     out': Output)
    requires GoodPieces(pieces, cut) && pieces != [] && GoodPiece(pieces[0]) && GoodPieces(pieces[1..], cut)
    requires Moves(pieces[0], pos, args, out, pos', out')
    ensures var p := Printed(pieces, cut, pos, args, |out.text|);
            var rest := Printed(pieces[1..], cut, pos', args, |out'.text|);
            out.text + p.text == out'.text + rest.text && out.stores + p.stores == out'.stores + rest.stores
  {
    hide TextOf, WordsOf, ArgumentAt;
    var rest := Printed(pieces[1..], cut, pos', args, |out'.text|);
    var t := match pieces[0] case Text(t) => t case Conv(d, c) => TextOf(d, c, pos, args);
    Glue(out.text, t, rest.text);
  }
}
