/**
 The regular expressions of ed (user/bin/ed.c): their syntax trees, the language
 of a tree, the byte code a tree compiles to and how a pattern is read.
 Characters are their codes; no line and no pattern contains the code 0.
 */
module Regex {

  const ESIZE: nat := 128
  const NBRA: nat := 5

  const EOF: int := -1
  const NEWLINE: int := 10
  const DOLLAR: int := 36
  const OPEN: int := 40
  const CLOSE: int := 41
  const TIMES: int := 42
  const DOT: int := 46
  const LBRACKET: int := 91
  const BACKSLASH: int := 92
  const RBRACKET: int := 93
  const CARET: int := 94

  // Byte codes; an odd code is the starred form of the one below it
  const CBRA: int := 1
  const CCHR: int := 2
  const CDOT: int := 4
  const CCL: int := 6
  const NCCL: int := 8
  const CDOL: int := 10
  const CEOF: int := 11
  const CKET: int := 12

  // Syntax trees

  datatype Atom =
    | Lit(c: int)
    | Any
    | Class(negated: bool, members: seq<int>)

  datatype Item =
    | One(atom: Atom)
    | Star(atom: Atom)
    | Bra(n: nat)
    | Ket(n: nat)
    | End

  // The language

  predicate Accepts(a: Atom, ch: int)
  {
    match a
    case Lit(c) => ch == c
    case Any => true
    case Class(negated, members) => (ch in members) != negated
  }

  /**
   The string w is in the language of the items; atEnd says whether w reaches the
   end of the line, which is what the end anchor asks.
   */
  ghost predicate InLanguage(items: seq<Item>, w: seq<int>, atEnd: bool)
    decreases |items|
  {
    if items == [] then w == []
    else
      match items[0]
      case One(a) => w != [] && Accepts(a, w[0]) && InLanguage(items[1..], w[1..], atEnd)
      case Star(a) => exists k :: 0 <= k <= |w| && AllAccepted(a, w[..k]) && InLanguage(items[1..], w[k..], atEnd)
      case Bra(_) => InLanguage(items[1..], w, atEnd)
      case Ket(_) => InLanguage(items[1..], w, atEnd)
      case End => w == [] && atEnd && InLanguage(items[1..], w, atEnd)
  }

  ghost predicate AllAccepted(a: Atom, w: seq<int>)
  {
    forall i :: 0 <= i < |w| ==> Accepts(a, w[i])
  }

  /** The text from i to j is in the language of the items. */
  ghost predicate MatchesTo(items: seq<Item>, text: seq<int>, i: int, j: int)
  {
    0 <= i <= j <= |text| && InLanguage(items, text[i..j], j == |text|)
  }

  /** Some prefix of the text from i on is in the language of the items. */
  ghost predicate MatchesAt(items: seq<Item>, text: seq<int>, i: int)
  {
    exists j :: MatchesTo(items, text, i, j)
  }

  // Byte code

  function EncodeAtom(a: Atom, star: int): seq<int>
  {
    match a
    case Lit(c) => [CCHR + star, c]
    case Any => [CDOT + star]
    case Class(negated, members) => [(if negated then NCCL else CCL) + star, |members| + 1] + members
  }

  function EncodeItem(it: Item): seq<int>
  {
    match it
    case One(a) => EncodeAtom(a, 0)
    case Star(a) => EncodeAtom(a, 1)
    case Bra(n) => [CBRA, n]
    case Ket(n) => [CKET, n]
    case End => [CDOL]
  }

  function Encode(items: seq<Item>): seq<int>
  {
    if items == [] then [] else Encode(items[..|items| - 1]) + EncodeItem(items[|items| - 1])
  }

  /** Literals are characters, and group numbers are in range. */
  predicate WellFormed(it: Item)
  {
    match it
    case One(a) => a.Lit? ==> a.c != 0
    case Star(a) => a.Lit? ==> a.c != 0
    case Bra(n) => n < NBRA
    case Ket(n) => n < NBRA
    case End => true
  }

  lemma EncodeLast(items: seq<Item>)
    requires items != []
    ensures Encode(items) == Encode(items[..|items| - 1]) + EncodeItem(items[|items| - 1])
  {
  }

  lemma {:induction false} EncodeConcat(a: seq<Item>, b: seq<Item>)
    ensures Encode(a + b) == Encode(a) + Encode(b)
    decreases |b|, 0
  {
    hide Encode;
    if b == [] {
      EncodeNone();
      assert a + b == a && Encode(a) + [] == Encode(a);
    } else {
      EncodeConcatLast(a, b[..|b| - 1], b[|b| - 1]);
      assert b == b[..|b| - 1] + [b[|b| - 1]];
    }
  }

  lemma EncodeNone()
    ensures Encode([]) == []
  {
  }

  lemma EncodeConcatLast(a: seq<Item>, b: seq<Item>, x: Item)
    ensures Encode(a + (b + [x])) == Encode(a) + Encode(b + [x])
    decreases |b|, 1
  {
    hide Encode, EncodeItem;
    var ab, bx := a + (b + [x]), b + [x];
    assert ab[..|ab| - 1] == a + b && bx[..|b|] == b;
    EncodeLast(ab);
    EncodeLast(bx);
    EncodeConcat(a, b);
    assert (Encode(a) + Encode(b)) + EncodeItem(x) == Encode(a) + (Encode(b) + EncodeItem(x));
  }

  lemma EncodeOne(it: Item)
    ensures Encode([it]) == EncodeItem(it)
  {
    hide EncodeItem;
    assert [it][..0] == [];
    assert [] + EncodeItem(it) == EncodeItem(it);
  }

  lemma EncodeCons(items: seq<Item>)
    requires items != []
    ensures Encode(items) == EncodeItem(items[0]) + Encode(items[1..])
  {
    assert items == [items[0]] + items[1..];
    EncodeConcat([items[0]], items[1..]);
    EncodeOne(items[0]);
  }

  /** Code does not start with a zero. */
  lemma EncodeFirst(items: seq<Item>)
    requires items != []
    ensures Encode(items) != [] && Encode(items)[0] != 0
  {
    EncodeCons(items);
  }

  lemma EncodeSnoc(items: seq<Item>, it: Item)
    ensures Encode(items + [it]) == Encode(items) + EncodeItem(it)
  {
    EncodeConcat(items, [it]);
    EncodeOne(it);
  }

  // Notation

  function Head(s: seq<int>): int { if s == [] then EOF else s[0] }

  function Tail(s: seq<int>): seq<int> { if s == [] then [] else s[1..] }

  datatype Parsed = Bad | Good(items: seq<Item>, rest: seq<int>)

  datatype ParsedClass = BadClass | GoodClass(members: seq<int>, rest: seq<int>)

  /** The members of a class up to its closing bracket; the first may itself be a bracket. */
  function ParseMembers(s: seq<int>, members: seq<int>, used: nat): (r: ParsedClass)
    ensures r.GoodClass? ==> |r.rest| < |s|
    decreases |s|, ESIZE - used
  {
    if Head(s) == NEWLINE then BadClass
    else
      var m := members + [Head(s)];
      if used + 1 >= ESIZE then BadClass
      else if Head(Tail(s)) == RBRACKET then GoodClass(m, Tail(Tail(s)))
      else ParseMembers(Tail(s), m, used + 1)
  }

  lemma MembersStep(s: seq<int>, members: seq<int>, used: nat)
    ensures ParseMembers(s, members, used)
         == if Head(s) == NEWLINE || used + 1 >= ESIZE then BadClass
            else if Head(Tail(s)) == RBRACKET then GoodClass(members + [Head(s)], Tail(Tail(s)))
            else ParseMembers(Tail(s), members + [Head(s)], used + 1)
  {
  }

  /**
   What has been read: the rest of the pattern, the items, the unclosed groups, the groups so far and the code size.
   */
  datatype Reading = Reading(s: seq<int>, items: seq<Item>, open: seq<nat>, nbra: nat, used: nat)

  datatype Step = Fail | Finish(rest: seq<int>) | More(next: Reading)

  predicate CanStar(items: seq<Item>)
  {
    items != [] && (items[|items| - 1].One? || items[|items| - 1].Star?)
  }

  function StarLast(items: seq<Item>): seq<Item>
    requires CanStar(items)
  {
    items[..|items| - 1] + [Star(items[|items| - 1].atom)]
  }

  /** One more element of the pattern. */
  function ReadOne(r: Reading, eof: int): (step: Step)
    requires eof != EOF
    ensures step.More? ==> r.used < ESIZE
    ensures step.More? ==> |step.next.s| < |r.s| || (|step.next.s| == |r.s| && step.next.used > r.used)
  {
    if r.used >= ESIZE then Fail
    else
      var c, t := Head(r.s), Tail(r.s);
      if c == eof then Finish(t)
      else if c == BACKSLASH then
        var d, u := Head(t), Tail(t);
        if d == OPEN then
          if r.nbra >= NBRA then Fail
          else More(Reading(u, r.items + [Bra(r.nbra)], r.open + [r.nbra], r.nbra + 1, r.used + 2))
        else if d == CLOSE then
          if r.open == [] then Fail
          else More(Reading(u, r.items + [Ket(r.open[|r.open| - 1])], r.open[..|r.open| - 1], r.nbra, r.used + 2))
        else if d == NEWLINE then Fail
        else More(r.(s := u, items := r.items + [One(Lit(d))], used := r.used + 2))
      else if c == DOT then More(r.(s := t, items := r.items + [One(Any)], used := r.used + 1))
      else if c == NEWLINE then Fail
      else if c == TIMES then
        if CanStar(r.items) then More(r.(s := t, items := StarLast(r.items))) else Fail
      else if c == DOLLAR && Head(t) == eof then More(r.(s := t, items := r.items + [End], used := r.used + 1))
      else if c == LBRACKET then
        var negated := Head(t) == CARET;
        var m := ParseMembers(if negated then Tail(t) else t, [], r.used + 2);
        if m.BadClass? then Fail
        else
          More(r.(s := m.rest, items := r.items + [One(Class(negated, m.members))], used := r.used + 2 + |m.members|))
      else More(r.(s := t, items := r.items + [One(Lit(c))], used := r.used + 2))
  }

  function Parse(r: Reading, eof: int): Parsed
    requires eof != EOF
    decreases |r.s|, ESIZE - r.used
  {
    match ReadOne(r, eof)
    case Fail => Bad
    case Finish(rest) => Good(r.items, rest)
    case More(next) => Parse(next, eof)
  }

  /** A whole pattern: an initial ^ anchors it, and it does not start with a star. */
  function ParsePattern(s: seq<int>, eof: int): Parsed
    requires eof != EOF
  {
    var t := if Head(s) == CARET then Tail(s) else s;
    if Head(t) == TIMES then Bad else Parse(Reading(t, [], [], 0, 0), eof)
  }

  /** Reading stops at a star after a group mark. */
  predicate BadStar(r: Reading, eof: int)
    requires eof != EOF
    decreases |r.s|, ESIZE - r.used
  {
    match ReadOne(r, eof)
    case Fail => r.used < ESIZE && Head(r.s) == TIMES
    case Finish(_) => false
    case More(next) => BadStar(next, eof)
  }

  predicate BadStarPattern(s: seq<int>, eof: int)
    requires eof != EOF
  {
    var t := if Head(s) == CARET then Tail(s) else s;
    Head(t) != TIMES && BadStar(Reading(t, [], [], 0, 0), eof)
  }
}
