/**
 The notation of ed's patterns (user/bin/ed.c), as a relation between a tree and
 the strings that stand for it, and that the reader reads exactly those strings.
 */
module Notation {
  import opened Regex

  // The relation

  /** Characters that stand for themselves without a backslash, before the character next. */
  predicate Plain(c: int, next: int, eof: int)
  {
    c !in {eof, BACKSLASH, DOT, NEWLINE, TIMES, LBRACKET} && !(c == DOLLAR && next == eof)
  }

  /** The string u stands for the atom, where the character next follows and eof delimits the pattern. */
  predicate SpellsAtom(a: Atom, u: seq<int>, next: int, eof: int)
  {
    match a
    case Lit(c) =>
      (u == [c] && Plain(c, next, eof)) || (u == [BACKSLASH, c] && eof != BACKSLASH && c !in {OPEN, CLOSE, NEWLINE})
    case Any => u == [DOT] && eof != DOT
    case Class(negated, ms) => u == WriteClass(negated, ms) && ClassMembers(negated, ms) && eof != LBRACKET
  }

  function WriteClass(negated: bool, ms: seq<int>): seq<int>
  {
    [LBRACKET] + (if negated then [CARET] else []) + ms + [RBRACKET]
  }

  /** A closing bracket can only be the first member, and a class that is not negated cannot start with a caret. */
  predicate ClassMembers(negated: bool, ms: seq<int>)
  {
    ms != [] && (negated || ms[0] != CARET) && NEWLINE !in ms && RBRACKET !in ms[1..]
  }

  ghost predicate SpellsItem(it: Item, u: seq<int>, next: int, eof: int)
  {
    match it
    case One(a) => SpellsAtom(a, u, next, eof)
    case Star(a) => eof != TIMES && exists k :: 0 < k < |u| && SpellsAtom(a, u[..k], TIMES, eof) && AllStars(u[k..])
    case Bra(_) => u == [BACKSLASH, OPEN] && eof != BACKSLASH
    case Ket(_) => u == [BACKSLASH, CLOSE] && eof != BACKSLASH
    case End => u == [DOLLAR] && next == eof != DOLLAR
  }

  predicate AllStars(u: seq<int>) { forall i :: 0 <= i < |u| ==> u[i] == TIMES }

  /** The string w, before the character next, stands for the items. */
  ghost predicate Spells(items: seq<Item>, w: seq<int>, next: int, eof: int)
    decreases |items|
  {
    if items == [] then w == []
    else exists k :: 0 < k <= |w| && SpellsItem(items[0], w[..k], Head(w[k..] + [next]), eof)
                                   && Spells(items[1..], w[k..], next, eof)
  }

  predicate GroupOk(it: Item, open: seq<nat>, nbra: nat)
  {
    (it.Bra? ==> it.n == nbra < NBRA) && (it.Ket? ==> open != [] && it.n == open[|open| - 1])
  }

  function OpenAfter(it: Item, open: seq<nat>): seq<nat>
  {
    if it.Bra? then open + [it.n] else if it.Ket? && open != [] then open[..|open| - 1] else open
  }

  function NbraAfter(it: Item, nbra: nat): nat { if it.Bra? then nbra + 1 else nbra }

  /** Groups are numbered in order and closed innermost first. */
  predicate Grouped(items: seq<Item>, open: seq<nat>, nbra: nat)
    decreases |items|
  {
    items == [] ||
    (GroupOk(items[0], open, nbra) && Grouped(items[1..], OpenAfter(items[0], open), NbraAfter(items[0], nbra)))
  }

  /** The text s is a pattern for the items up to its delimiter, and then comes rest. */
  ghost predicate IsPattern(s: seq<int>, eof: int, items: seq<Item>, rest: seq<int>)
  {
    && Grouped(items, [], 0) && |Encode(items)| < ESIZE
    && exists w :: Spells(items, w, eof, eof) && (w == [] ==> eof != TIMES) && s == Anchor(s) + w + [eof] + rest
  }

  /** What comes before the items: a caret in front is the anchor. */
  function Anchor(s: seq<int>): seq<int> { if Head(s) == CARET then [CARET] else [] }

  /** The text goes wrong with a star after a group mark. */
  ghost predicate IsBadStar(s: seq<int>, eof: int)
  {
    eof != TIMES && exists items, w, rest ::
      && Spells(items, w, TIMES, eof) && s == Anchor(s) + w + [TIMES] + rest
      && items != [] && !CanStar(items) && Grouped(items, [], 0) && |Encode(items)| < ESIZE
  }

  // Where reading stops

  function Stop(r: Reading, eof: int): (r': Reading)
    requires eof != EOF
    ensures |r'.s| <= |r.s| && !ReadOne(r', eof).More?
    decreases |r.s|, ESIZE - r.used
  {
    match ReadOne(r, eof)
    case More(next) => Stop(next, eof)
    case _ => r
  }

  lemma {:induction false} ParseStops(r: Reading, eof: int)
    requires eof != EOF
    ensures var r' := Stop(r, eof);
            && Parse(r, eof) == (if ReadOne(r', eof).Finish? then Good(r'.items, ReadOne(r', eof).rest) else Bad)
            && (BadStar(r, eof) <==> ReadOne(r', eof) == Fail && r'.used < ESIZE && Head(r'.s) == TIMES)
    decreases |r.s|, ESIZE - r.used
  {
    hide ReadOne;
    match ReadOne(r, eof)
    case More(next) =>
      ReadOneShrinks(r, eof);
      ParseStops(next, eof);
    case _ =>
  }

  lemma ReadOneShrinks(r: Reading, eof: int)
    requires eof != EOF && ReadOne(r, eof).More?
    ensures var next := ReadOne(r, eof).next;
            r.used < ESIZE && (|next.s| < |r.s| || (|next.s| == |r.s| && next.used > r.used))
  {
  }

  lemma StopMore(r: Reading, eof: int, next: Reading)
    requires eof != EOF && ReadOne(r, eof) == More(next)
    ensures Stop(r, eof) == Stop(next, eof)
  {
  }

  /** The reading after item it, with s left. */
  function After(r: Reading, it: Item, s: seq<int>): Reading
  {
    Reading(s, r.items + [it], OpenAfter(it, r.open), NbraAfter(it, r.nbra), r.used + |EncodeItem(it)|)
  }

  function AfterAll(r: Reading, items: seq<Item>, s: seq<int>): (r': Reading)
    ensures r'.s == s && r'.items == r.items + items
    decreases |items|
  {
    if items == [] then r.(s := s)
    else
      assert r.items + [items[0]] + items[1..] == r.items + items;
      AfterAll(After(r, items[0], s), items[1..], s)
  }

  // What is written is read

  lemma {:induction false} MembersRead(ms: seq<int>, i: nat, rest: seq<int>, used: nat)
    requires i < |ms| && used + |ms| - i < ESIZE && NEWLINE !in ms && RBRACKET !in ms[1..]
    ensures ParseMembers(ms[i..] + [RBRACKET] + rest, ms[..i], used) == GoodClass(ms, rest)
    decreases |ms| - i
  {
    var s := ms[i..] + [RBRACKET] + rest;
    assert Head(s) == ms[i] && Tail(s) == ms[i + 1..] + [RBRACKET] + rest;
    assert ms[..i] + [ms[i]] == ms[..i + 1];
    if i + 1 < |ms| {
      assert Head(Tail(s)) == ms[i + 1] == ms[1..][i];
      MembersRead(ms, i + 1, rest, used + 1);
    } else {
      assert ms[..i + 1] == ms;
      assert Tail(s) == [RBRACKET] + rest && Tail(Tail(s)) == rest;
    }
  }

  lemma ClassRead(negated: bool, ms: seq<int>, s: seq<int>, eof: int, r: Reading)
    requires ClassMembers(negated, ms) && eof !in {EOF, LBRACKET} && r.used + 2 + |ms| < ESIZE
    requires r.s == WriteClass(negated, ms) + s
    ensures ReadOne(r, eof) == More(r.(s := s, items := r.items + [One(Class(negated, ms))], used := r.used + 2 + |ms|))
  {
    hide ParseMembers;
    var t := ms[0..] + [RBRACKET] + s;
    MembersRead(ms, 0, s, r.used + 2);
    assert ms[..0] == [] && ms[0..] == ms;
    if negated {
      assert r.s == [LBRACKET, CARET] + t;
      assert Tail(r.s) == [CARET] + t && Tail(Tail(r.s)) == t;
    } else {
      assert r.s == [LBRACKET] + t;
      assert Tail(r.s) == t && Head(t) == ms[0];
    }
  }

  /** Reading it gives the reading with it read. */
  lemma AtomRead(a: Atom, u: seq<int>, s: seq<int>, eof: int, r: Reading)
    requires SpellsAtom(a, u, Head(s), eof) && eof != EOF && r.used + |EncodeAtom(a, 0)| < ESIZE && r.s == u + s
    ensures ReadOne(r, eof) == More(After(r, One(a), s))
  {
    match a
    case Lit(c) =>
      if u == [c] {
        assert Tail(r.s) == s;
      } else {
        assert Tail(r.s) == [c] + s && Tail(Tail(r.s)) == s;
      }
    case Any =>
      assert Tail(r.s) == s;
    case Class(negated, ms) =>
      ClassRead(negated, ms, s, eof, r);
  }

  lemma MarkRead(it: Item, u: seq<int>, s: seq<int>, eof: int, r: Reading)
    requires (it.Bra? || it.Ket? || it.End?) && SpellsItem(it, u, Head(s), eof) && GroupOk(it, r.open, r.nbra)
    requires eof != EOF && r.used < ESIZE && r.s == u + s
    ensures ReadOne(r, eof) == More(After(r, it, s))
  {
    hide ParseMembers;
    match it
    case Bra(n) => assert Tail(r.s) == [OPEN] + s && Tail(Tail(r.s)) == s;
    case Ket(n) => assert Tail(r.s) == [CLOSE] + s && Tail(Tail(r.s)) == s;
    case End => assert Tail(r.s) == s;
  }

  /** More stars after an item say the same again. */
  lemma {:induction false} StarsRead(a: Atom, items: seq<Item>, u: seq<int>, s: seq<int>, eof: int, r: Reading)
    requires AllStars(u) && eof !in {EOF, TIMES} && r.used < ESIZE && r.s == u + s && r.items == items + [Star(a)]
    ensures Stop(r, eof) == Stop(r.(s := s), eof)
    decreases |u|
  {
    hide ReadOne, Stop;
    if u == [] {
      assert u + s == s;
    } else {
      var t := u[1..] + s;
      assert r.s == [TIMES] + t;
      var next := r.(s := t);
      TimesRead(a, items, t, eof, r);
      StopMore(r, eof, next);
      StarsRead(a, items, u[1..], s, eof, next);
    }
  }

  lemma TimesRead(a: Atom, items: seq<Item>, s: seq<int>, eof: int, r: Reading)
    requires eof !in {EOF, TIMES} && r.used < ESIZE && r.s == [TIMES] + s
    requires r.items == items + [One(a)] || r.items == items + [Star(a)]
    ensures ReadOne(r, eof) == More(r.(s := s, items := items + [Star(a)]))
  {
    hide ParseMembers;
    assert r.items[..|r.items| - 1] == items && Tail(r.s) == s;
  }

  lemma StarRead(a: Atom, u: seq<int>, s: seq<int>, eof: int, r: Reading)
    requires SpellsItem(Star(a), u, Head(s), eof) && eof != EOF && r.used + |EncodeAtom(a, 1)| < ESIZE && r.s == u + s
    ensures Stop(r, eof) == Stop(After(r, Star(a), s), eof)
  {
    hide ReadOne, Stop, SpellsAtom, EncodeAtom;
    var k :| 0 < k < |u| && SpellsAtom(a, u[..k], TIMES, eof) && AllStars(u[k..]);
    assert u[k..] == [TIMES] + u[k + 1..] && AllStars(u[k + 1..]);
    assert r.s == u[..k] + ([TIMES] + (u[k + 1..] + s));
    StarParts(a, u[..k], u[k + 1..], s, eof, r);
  }

  lemma StarParts(a: Atom, x: seq<int>, stars: seq<int>, s: seq<int>, eof: int, r: Reading)
    requires SpellsAtom(a, x, TIMES, eof) && AllStars(stars) && eof !in {EOF, TIMES}
    requires r.used + |EncodeAtom(a, 1)| < ESIZE && r.s == x + ([TIMES] + (stars + s))
    ensures Stop(r, eof) == Stop(After(r, Star(a), s), eof)
  {
    hide ReadOne, Stop, SpellsAtom, EncodeAtom;
    var v := stars + s;
    StarSize(a);
    AtomRead(a, x, [TIMES] + v, eof, r);
    var r1 := After(r, One(a), [TIMES] + v);
    StopMore(r, eof, r1);
    TimesRead(a, r.items, v, eof, r1);
    StopMore(r1, eof, After(r, Star(a), v));
    StarsRead(a, r.items, stars, s, eof, After(r, Star(a), v));
  }

  lemma StarSize(a: Atom)
    ensures |EncodeAtom(a, 0)| == |EncodeAtom(a, 1)|
  {
  }

  lemma ItemRead(it: Item, u: seq<int>, s: seq<int>, eof: int, r: Reading)
    requires SpellsItem(it, u, Head(s), eof) && GroupOk(it, r.open, r.nbra)
    requires eof != EOF && r.used + |EncodeItem(it)| < ESIZE && r.s == u + s
    ensures Stop(r, eof) == Stop(After(r, it, s), eof)
  {
    hide ReadOne, Stop;
    match it
    case One(a) =>
      AtomRead(a, u, s, eof, r);
      StopMore(r, eof, After(r, it, s));
    case Star(a) => StarRead(a, u, s, eof, r);
    case _ =>
      MarkRead(it, u, s, eof, r);
      StopMore(r, eof, After(r, it, s));
  }

  /** Reading goes over whatever stands for the items and has the items. */
  lemma {:induction false} SpellsRead(items: seq<Item>, w: seq<int>, s: seq<int>, eof: int, r: Reading)
    requires Spells(items, w, Head(s), eof) && Grouped(items, r.open, r.nbra)
    requires eof != EOF && r.used + |Encode(items)| < ESIZE && r.s == w + s
    ensures Stop(r, eof) == Stop(AfterAll(r, items, s), eof) && AfterAll(r, items, s).used == r.used + |Encode(items)|
    decreases |items|
  {
    hide Stop, Encode, EncodeItem, SpellsItem;
    if items == [] {
      EncodeNone();
      assert w + s == s;
    } else {
      EncodeCons(items);
      var k :| 0 < k <= |w| && SpellsItem(items[0], w[..k], Head(w[k..] + [Head(s)]), eof)
               && Spells(items[1..], w[k..], Head(s), eof);
      var t := w[k..] + s;
      assert r.s == w[..k] + t && Head(t) == Head(w[k..] + [Head(s)]);
      ItemRead(items[0], w[..k], t, eof, r);
      SpellsRead(items[1..], w[k..], s, eof, After(r, items[0], t));
      AfterAnyway(r, items, t, s);
    }
  }

  lemma AfterAnyway(r: Reading, items: seq<Item>, t: seq<int>, s: seq<int>)
    requires items != []
    ensures AfterAll(After(r, items[0], t), items[1..], s) == AfterAll(r, items, s)
  {
    SameAfter(After(r, items[0], t), After(r, items[0], s), items[1..], s);
  }

  lemma {:induction false} SameAfter(r: Reading, r': Reading, items: seq<Item>, s: seq<int>)
    requires r' == r.(s := r'.s)
    ensures AfterAll(r, items, s) == AfterAll(r', items, s)
    decreases |items|
  {
    if items != [] { SameAfter(After(r, items[0], s), After(r', items[0], s), items[1..], s); }
  }

  // What is read is written so

  lemma {:induction false} MembersWritten(s: seq<int>, members: seq<int>, used: nat)
    requires ParseMembers(s, members, used).GoodClass?
    ensures var m := ParseMembers(s, members, used);
            && |members| < |m.members| && m.members[..|members|] == members && used + |m.members| - |members| < ESIZE
            && s == m.members[|members|..] + [RBRACKET] + m.rest
            && NEWLINE !in m.members[|members|..] && RBRACKET !in m.members[|members| + 1..]
    decreases |s|, ESIZE - used
  {
    hide ParseMembers;
    MembersStep(s, members, used);
    MembersShrink(s, members, used);
    var m := members + [Head(s)];
    assert s == [Head(s)] + Tail(s);
    if Head(Tail(s)) == RBRACKET {
      assert Tail(s) == [RBRACKET] + Tail(Tail(s));
      assert m[|members|..] == [Head(s)] && m[..|members|] == members;
    } else {
      MembersWritten(Tail(s), m, used + 1);
      var p := ParseMembers(s, members, used);
      MembersMore(members, Head(s), p.members, Tail(s), p.rest);
    }
  }

  lemma MembersShrink(s: seq<int>, members: seq<int>, used: nat)
    requires ParseMembers(s, members, used).GoodClass?
    ensures s != []
  {
  }

  lemma MembersMore(members: seq<int>, c: int, all: seq<int>, t: seq<int>, rest: seq<int>)
    requires |members| + 1 < |all| && all[..|members| + 1] == members + [c] && c != NEWLINE
    requires t == all[|members| + 1..] + [RBRACKET] + rest && Head(t) != RBRACKET
    requires NEWLINE !in all[|members| + 1..] && RBRACKET !in all[|members| + 2..]
    ensures all[..|members|] == members && [c] + t == all[|members|..] + [RBRACKET] + rest
    ensures NEWLINE !in all[|members|..] && RBRACKET !in all[|members| + 1..]
  {
    var n := |members|;
    assert all[..n] == all[..n + 1][..n];
    assert all[n] == all[..n + 1][n] && all[n..] == [c] + all[n + 1..];
    assert all[n + 1..] == [all[n + 1]] + all[n + 2..];
    assert Head(t) == all[n + 1];
  }

  lemma ClassStep(r: Reading, eof: int)
    requires eof != EOF && ReadOne(r, eof).More? && Head(r.s) == LBRACKET
    ensures var t := Tail(r.s);
            var negated := Head(t) == CARET;
            var m := ParseMembers(if negated then Tail(t) else t, [], r.used + 2);
            && m.GoodClass? && eof != LBRACKET
            && ReadOne(r, eof).next == r.(s := m.rest, items := r.items + [One(Class(negated, m.members))],
                                          used := r.used + 2 + |m.members|)
  {
    hide ParseMembers;
  }

  lemma ClassWritten(r: Reading, eof: int) returns (u: seq<int>, a: Atom)
    requires eof != EOF && ReadOne(r, eof).More? && Head(r.s) == LBRACKET
    ensures var next := ReadOne(r, eof).next;
            && u != [] && SpellsAtom(a, u, Head(next.s), eof) && r.s == u + next.s && next == After(r, One(a), next.s)
  {
    hide ParseMembers, ReadOne, WriteClass, ClassMembers;
    ClassStep(r, eof);
    var negated := Head(Tail(r.s)) == CARET;
    var v := if negated then Tail(Tail(r.s)) else Tail(r.s);
    MembersWritten(v, [], r.used + 2);
    var m := ParseMembers(v, [], r.used + 2);
    u, a := WriteClass(negated, m.members), Class(negated, m.members);
    ClassText(r.s, negated, m.members, m.rest);
  }

  lemma ClassText(s: seq<int>, negated: bool, ms: seq<int>, rest: seq<int>)
    requires Head(s) == LBRACKET && (negated <==> Head(Tail(s)) == CARET) && ms != []
    requires (if negated then Tail(Tail(s)) else Tail(s)) == ms[0..] + [RBRACKET] + rest
    requires NEWLINE !in ms[0..] && RBRACKET !in ms[1..]
    ensures WriteClass(negated, ms) != [] && s == WriteClass(negated, ms) + rest && ClassMembers(negated, ms)
  {
    assert ms[0..] == ms && s == [LBRACKET] + Tail(s);
    var caret := if negated then [CARET] else [];
    ClassGlue(caret, ms, rest);
    if negated {
      assert Tail(s) == caret + (ms + [RBRACKET] + rest);
    } else {
      assert Tail(s) == caret + (ms + [RBRACKET] + rest) && Head(Tail(s)) == ms[0];
    }
  }

  lemma ClassGlue(caret: seq<int>, ms: seq<int>, rest: seq<int>)
    ensures [LBRACKET] + caret + ms + [RBRACKET] + rest == [LBRACKET] + (caret + (ms + [RBRACKET] + rest))
  {
  }

  lemma EscapeWritten(r: Reading, eof: int) returns (it: Item)
    requires eof != EOF && ReadOne(r, eof).More? && Head(r.s) == BACKSLASH && ReadOne(r, eof).next.s != []
    ensures var next := ReadOne(r, eof).next;
            && |r.s| >= 2 && r.s == r.s[..2] + next.s && next == After(r, it, next.s) && !it.Star?
            && SpellsItem(it, r.s[..2], Head(next.s), eof) && GroupOk(it, r.open, r.nbra)
  {
    hide ParseMembers;
    it := ReadOne(r, eof).next.items[|r.items|];
    assert |r.s| >= 2 && r.s[..2] == [r.s[0], r.s[1]];
  }

  lemma OrdinaryWritten(r: Reading, eof: int) returns (it: Item)
    requires eof != EOF && ReadOne(r, eof).More? && Head(r.s) !in {BACKSLASH, LBRACKET, TIMES}
    requires ReadOne(r, eof).next.s != []
    ensures var next := ReadOne(r, eof).next;
            && |r.s| >= 1 && r.s == r.s[..1] + next.s && next == After(r, it, next.s) && !it.Star?
            && SpellsItem(it, r.s[..1], Head(next.s), eof) && GroupOk(it, r.open, r.nbra)
  {
    hide ParseMembers;
    it := ReadOne(r, eof).next.items[|r.items|];
    assert |r.s| >= 1 && r.s[..1] == [r.s[0]];
  }

  /** One step of reading reads something that stands for what it adds. */
  lemma StepWritten(r: Reading, eof: int) returns (u: seq<int>, it: Item)
    requires eof != EOF && ReadOne(r, eof).More? && Head(r.s) != TIMES && ReadOne(r, eof).next.s != []
    ensures var next := ReadOne(r, eof).next;
            && u != [] && r.s == u + next.s && next == After(r, it, next.s) && !it.Star?
            && SpellsItem(it, u, Head(next.s), eof) && GroupOk(it, r.open, r.nbra)
  {
    hide ReadOne, SpellsAtom;
    if Head(r.s) == LBRACKET {
      var a;
      u, a := ClassWritten(r, eof);
      it := One(a);
    } else if Head(r.s) == BACKSLASH {
      it := EscapeWritten(r, eof);
      u := r.s[..2];
    } else {
      it := OrdinaryWritten(r, eof);
      u := r.s[..1];
    }
  }

  /** The stars in front, if any, are for the item read last. */
  function Starred(items: seq<Item>, stars: seq<int>): seq<Item>
    requires stars == [] || CanStar(items)
  {
    if stars == [] then items else StarLast(items)
  }

  /** Between the readings r and r' the text stands for the items added, after stars for the item before. */
  ghost predicate Written(r: Reading, r': Reading, eof: int, stars: seq<int>, w: seq<int>, items: seq<Item>)
  {
    && r.s == stars + w + r'.s && AllStars(stars) && (stars != [] ==> CanStar(r.items) && eof != TIMES)
    && r'.items == Starred(r.items, stars) + items && r'.used == r.used + |Encode(items)|
    && Spells(items, w, Head(r'.s), eof) && Grouped(items, r.open, r.nbra)
  }

  /** Up to where reading stops the text stands for the items it adds. */
  lemma {:induction false} StopWritten(r: Reading, eof: int) returns (stars: seq<int>, w: seq<int>, items: seq<Item>)
    requires eof != EOF && Stop(r, eof).s != []
    ensures Written(r, Stop(r, eof), eof, stars, w, items)
    decreases |r.s|, ESIZE - r.used
  {
    hide ReadOne, Written;
    if !ReadOne(r, eof).More? {
      stars, w, items := [], [], [];
      NothingWritten(r, eof);
    } else {
      ReadOneShrinks(r, eof);
      var next := ReadOne(r, eof).next;
      StopMore(r, eof, next);
      stars, w, items := StopWritten(next, eof);
      if Head(r.s) == TIMES {
        StarWritten(r, Stop(r, eof), eof, stars, w, items);
        stars := [TIMES] + stars;
      } else {
        var u, it := StepWritten(r, eof);
        stars, w, items := ItemWritten(r, next, Stop(r, eof), eof, u, it, stars, w, items);
      }
    }
  }

  lemma NothingWritten(r: Reading, eof: int)
    ensures Written(r, r, eof, [], [], [])
  {
    assert r.items + [] == r.items;
  }

  lemma StarWritten(r: Reading, r': Reading, eof: int, stars: seq<int>, w: seq<int>, items: seq<Item>)
    requires eof != EOF && ReadOne(r, eof).More? && Head(r.s) == TIMES
    requires Written(ReadOne(r, eof).next, r', eof, stars, w, items)
    ensures Written(r, r', eof, [TIMES] + stars, w, items)
  {
    hide ReadOne, Spells, Encode, Grouped;
    StarStep(r, eof);
    assert StarLast(StarLast(r.items)) == StarLast(r.items);
    assert r.s == ([TIMES] + stars) + w + r'.s;
  }

  lemma StarStep(r: Reading, eof: int)
    requires eof != EOF && ReadOne(r, eof).More? && Head(r.s) == TIMES
    ensures r.s == [TIMES] + Tail(r.s) && eof != TIMES && CanStar(r.items)
    ensures ReadOne(r, eof).next == r.(s := Tail(r.s), items := StarLast(r.items))
  {
  }

  lemma ItemWritten(r: Reading, next: Reading, r': Reading, eof: int, u: seq<int>, it: Item, stars: seq<int>,
                    w: seq<int>, items: seq<Item>)
    returns (stars': seq<int>, w': seq<int>, items': seq<Item>)
    requires u != [] && r.s == u + next.s && next == After(r, it, next.s) && !it.Star?
    requires SpellsItem(it, u, Head(next.s), eof) && GroupOk(it, r.open, r.nbra)
    requires Written(next, r', eof, stars, w, items) && r'.s != []
    ensures Written(r, r', eof, stars', w', items')
  {
    hide Encode, EncodeItem, Spells, SpellsItem, Grouped;
    var it' := if stars == [] then it else Star(it.atom);
    var k := |u| + |stars|;
    stars', w', items' := [], u + stars + w, [it'] + items;
    assert items'[1..] == items && w'[..k] == u + stars && w'[k..] == w;
    SizeOf(it, it');
    EncodeCons(items');
    GroupedFirst(it, items', r.open, r.nbra);
    assert r.s == w' + r'.s;
    assert Starred(next.items, stars) == r.items + [it'];
    assert r.items + [it'] + items == r.items + items';
    StarsSpelt(it, u, stars, Head(next.s), Head(w + [Head(r'.s)]), eof);
    SpellsFirst(items', w', Head(r'.s), eof, k);
  }

  /** Stars after an item make it a repetition. */
  lemma StarsSpelt(it: Item, u: seq<int>, stars: seq<int>, next: int, next': int, eof: int)
    requires SpellsItem(it, u, next, eof) && AllStars(stars) && u != []
    requires if stars == [] then next' == next else it.One? && next == TIMES && eof != TIMES
    ensures SpellsItem(if stars == [] then it else Star(it.atom), u + stars, next', eof)
  {
    if stars == [] {
      assert u + stars == u;
    } else {
      assert (u + stars)[..|u|] == u && (u + stars)[|u|..] == stars;
    }
  }

  lemma GroupedFirst(it: Item, items: seq<Item>, open: seq<nat>, nbra: nat)
    requires items != [] && (items[0] == it || (it.One? && items[0] == Star(it.atom)))
    requires GroupOk(it, open, nbra) && Grouped(items[1..], OpenAfter(it, open), NbraAfter(it, nbra))
    ensures Grouped(items, open, nbra)
  {
  }

  lemma SpellsFirst(items: seq<Item>, w: seq<int>, next: int, eof: int, k: nat)
    requires items != [] && 0 < k <= |w| && SpellsItem(items[0], w[..k], Head(w[k..] + [next]), eof)
    requires Spells(items[1..], w[k..], next, eof)
    ensures Spells(items, w, next, eof)
  {
  }

  lemma SizeOf(it: Item, it': Item)
    requires it' == it || (it.One? && it' == Star(it.atom))
    ensures |EncodeItem(it')| == |EncodeItem(it)|
  {
  }

  // Whole patterns

  lemma FirstOfItem(it: Item, u: seq<int>, next: int, eof: int)
    requires SpellsItem(it, u, next, eof)
    ensures u != [] && u[0] != TIMES && u[0] != eof
  {
    if it.Star? {
      var k :| 0 < k < |u| && SpellsAtom(it.atom, u[..k], TIMES, eof) && AllStars(u[k..]);
      assert u[..k][0] == u[0];
    }
  }

  lemma FirstCharacter(items: seq<Item>, w: seq<int>, next: int, eof: int)
    requires items != [] && Spells(items, w, next, eof)
    ensures w != [] && w[0] != TIMES && w[0] != eof
  {
    hide SpellsItem;
    var k :| 0 < k <= |w| && SpellsItem(items[0], w[..k], Head(w[k..] + [next]), eof)
             && Spells(items[1..], w[k..], next, eof);
    FirstOfItem(items[0], w[..k], Head(w[k..] + [next]), eof);
    assert w[..k][0] == w[0];
  }

  lemma Finishes(r: Reading, eof: int, rest: seq<int>)
    requires eof != EOF
    ensures ReadOne(r, eof) == Finish(rest) <==> r.used < ESIZE && r.s == [eof] + rest
  {
    hide ParseMembers;
    if r.s != [] { assert r.s == [r.s[0]] + r.s[1..]; }
  }

  lemma FailsAtStar(r: Reading, eof: int)
    requires eof != EOF && r.used < ESIZE && Head(r.s) == TIMES
    ensures ReadOne(r, eof) == Fail <==> eof != TIMES && !CanStar(r.items)
  {
  }

  lemma StopsHere(r: Reading, eof: int)
    requires eof != EOF && !ReadOne(r, eof).More?
    ensures Stop(r, eof) == r
  {
  }

  function AfterAnchor(s: seq<int>): (t: seq<int>)
    ensures s == Anchor(s) + t
  {
    if Head(s) == CARET then Tail(s) else s
  }

  /** A text is read as a pattern exactly if it is one in the notation; then it is read as what it stands for. */
  lemma WrittenPattern(s: seq<int>, eof: int, items: seq<Item>, rest: seq<int>)
    requires eof != EOF
    ensures ParsePattern(s, eof) == Good(items, rest) <==> IsPattern(s, eof, items, rest)
  {
    hide ParsePattern, IsPattern;
    if ParsePattern(s, eof) == Good(items, rest) { ReadPattern(s, eof, items, rest); }
    if IsPattern(s, eof, items, rest) { PatternRead(s, eof, items, rest); }
  }

  lemma ReadPattern(s: seq<int>, eof: int, items: seq<Item>, rest: seq<int>)
    requires eof != EOF && ParsePattern(s, eof) == Good(items, rest)
    ensures IsPattern(s, eof, items, rest)
  {
    hide ReadOne, Parse, Stop, Spells, Grouped, Encode;
    var t := AfterAnchor(s);
    var r := Reading(t, [], [], 0, 0);
    ParseStops(r, eof);
    Finishes(Stop(r, eof), eof, rest);
    var stars, w, items' := StopWritten(r, eof);
    assert stars == [] && [] + items' == items';
    TextIs(s, t, stars, w, eof, [eof] + rest);
    assert Tail([eof] + rest) == rest;
  }

  lemma PatternRead(s: seq<int>, eof: int, items: seq<Item>, rest: seq<int>)
    requires eof != EOF && IsPattern(s, eof, items, rest)
    ensures ParsePattern(s, eof) == Good(items, rest)
  {
    hide Parse, Spells, Grouped, Encode;
    var w :| Spells(items, w, eof, eof) && (w == [] ==> eof != TIMES) && s == Anchor(s) + w + [eof] + rest;
    var t := AfterAnchor(s);
    assert t == w + ([eof] + rest);
    if items == [] { NothingSpelt(w, eof, eof); } else { FirstCharacter(items, w, eof, eof); }
    SpellsParse(items, w, eof, rest, t);
  }

  lemma SpellsParse(items: seq<Item>, w: seq<int>, eof: int, rest: seq<int>, t: seq<int>)
    requires Spells(items, w, eof, eof) && Grouped(items, [], 0) && |Encode(items)| < ESIZE && eof != EOF
    requires t == w + ([eof] + rest)
    ensures Parse(Reading(t, [], [], 0, 0), eof) == Good(items, rest)
  {
    hide ReadOne, Parse, Stop, Spells, Grouped, Encode, AfterAll;
    var r, end := Reading(t, [], [], 0, 0), [eof] + rest;
    ParseStops(r, eof);
    SpellsRead(items, w, end, eof, r);
    var r' := AfterAll(r, items, end);
    Finishes(r', eof, rest);
    StopsHere(r', eof);
    assert [] + items == items;
  }

  lemma NothingSpelt(w: seq<int>, next: int, eof: int)
    ensures Spells([], w, next, eof) <==> w == []
  {
  }

  /** Reading ends at a star after a group mark exactly if the text has one there. */
  lemma WrittenBadStar(s: seq<int>, eof: int)
    requires eof != EOF
    ensures BadStarPattern(s, eof) <==> IsBadStar(s, eof)
  {
    hide BadStarPattern, IsBadStar;
    if BadStarPattern(s, eof) { ReadBadStar(s, eof); }
    if IsBadStar(s, eof) { BadStarRead(s, eof); }
  }

  lemma ReadBadStar(s: seq<int>, eof: int)
    requires eof != EOF && BadStarPattern(s, eof)
    ensures IsBadStar(s, eof)
  {
    hide ReadOne, BadStar, Stop, Spells, Grouped, Encode;
    var t := AfterAnchor(s);
    var r := Reading(t, [], [], 0, 0);
    ParseStops(r, eof);
    var r' := Stop(r, eof);
    FailsAtStar(r', eof);
    var stars, w, items := StopWritten(r, eof);
    NothingSpelt(w, TIMES, eof);
    assert stars == [] && [] + items == items && r'.s == [TIMES] + Tail(r'.s);
    TextIs(s, t, stars, w, TIMES, r'.s);
  }

  lemma TextIs(s: seq<int>, t: seq<int>, stars: seq<int>, w: seq<int>, c: int, end: seq<int>)
    requires t == AfterAnchor(s) && t == stars + w + end && stars == [] && end != [] && end[0] == c
    ensures s == Anchor(s) + w + [c] + Tail(end)
  {
  }

  lemma BadStarRead(s: seq<int>, eof: int)
    requires eof != EOF && IsBadStar(s, eof)
    ensures BadStarPattern(s, eof)
  {
    hide BadStar, Spells, Grouped, Encode;
    var items, w, rest :| && Spells(items, w, TIMES, eof) && s == Anchor(s) + w + [TIMES] + rest
                          && items != [] && !CanStar(items) && Grouped(items, [], 0) && |Encode(items)| < ESIZE;
    var t := AfterAnchor(s);
    assert t == w + ([TIMES] + rest);
    FirstCharacter(items, w, TIMES, eof);
    SpellsBadStar(items, w, eof, rest, t);
  }

  lemma SpellsBadStar(items: seq<Item>, w: seq<int>, eof: int, rest: seq<int>, t: seq<int>)
    requires Spells(items, w, TIMES, eof) && Grouped(items, [], 0) && |Encode(items)| < ESIZE && eof !in {EOF, TIMES}
    requires t == w + ([TIMES] + rest) && !CanStar(items)
    ensures BadStar(Reading(t, [], [], 0, 0), eof)
  {
    hide ReadOne, BadStar, Stop, Spells, Grouped, Encode, AfterAll;
    var r, end := Reading(t, [], [], 0, 0), [TIMES] + rest;
    ParseStops(r, eof);
    SpellsRead(items, w, end, eof, r);
    var r' := AfterAll(r, items, end);
    assert [] + items == items;
    FailsAtStar(r', eof);
    StopsHere(r', eof);
  }

  // Every tree can be written

  predicate WritableAtom(a: Atom)
  {
    match a
    case Lit(c) => c != NEWLINE
    case Any => true
    case Class(negated, ms) => ClassMembers(negated, ms)
  }

  predicate Writable(items: seq<Item>)
  {
    forall i :: 0 <= i < |items| ==>
      match items[i]
      case One(a) => WritableAtom(a)
      case Star(a) => WritableAtom(a)
      case End => i == |items| - 1
      case _ => true
  }

  function WriteAtom(a: Atom): seq<int>
  {
    match a
    case Lit(c) => if c == OPEN || c == CLOSE then [c] else [BACKSLASH, c]
    case Any => [DOT]
    case Class(negated, ms) => WriteClass(negated, ms)
  }

  function WriteItem(it: Item): seq<int>
  {
    match it
    case One(a) => WriteAtom(a)
    case Star(a) => WriteAtom(a) + [TIMES]
    case Bra(_) => [BACKSLASH, OPEN]
    case Ket(_) => [BACKSLASH, CLOSE]
    case End => [DOLLAR]
  }

  function Write(items: seq<Item>): seq<int>
  {
    if items == [] then [] else WriteItem(items[0]) + Write(items[1..])
  }

  /** A delimiter that is not itself part of the notation. */
  predicate PlainDelimiter(eof: int)
  {
    eof !in {DOLLAR, OPEN, CLOSE, TIMES, DOT, LBRACKET, BACKSLASH}
  }

  lemma WriteItemSpells(it: Item, next: int, eof: int)
    requires PlainDelimiter(eof) && ((it.One? || it.Star?) ==> WritableAtom(it.atom)) && (it.End? ==> next == eof)
    ensures SpellsItem(it, WriteItem(it), next, eof)
  {
    if it.Star? {
      var x := WriteAtom(it.atom);
      assert (x + [TIMES])[..|x|] == x && (x + [TIMES])[|x|..] == [TIMES];
      assert SpellsAtom(it.atom, x, TIMES, eof);
    }
  }

  lemma {:induction false} WriteSpells(items: seq<Item>, eof: int)
    requires PlainDelimiter(eof) && Writable(items)
    ensures Spells(items, Write(items), eof, eof)
    decreases |items|
  {
    hide SpellsItem, WriteItem, WritableAtom;
    if items != [] {
      var u, v := WriteItem(items[0]), Write(items[1..]);
      forall i | 0 <= i < |items| - 1 ensures items[1..][i] == items[i + 1] {}
      WriteSpells(items[1..], eof);
      WriteItemSpells(items[0], Head(v + [eof]), eof);
      WrittenSome(items[0]);
      assert (u + v)[..|u|] == u && (u + v)[|u|..] == v;
      SpellsFirst(items, u + v, eof, eof, |u|);
    }
  }

  lemma WrittenSome(it: Item)
    ensures WriteItem(it) != []
  {
  }

  /** Every tree has a pattern, and reading the pattern gives the tree back. */
  lemma WriteParse(items: seq<Item>, rest: seq<int>, eof: int)
    requires items != [] && Writable(items) && Grouped(items, [], 0) && |Encode(items)| < ESIZE
    requires PlainDelimiter(eof) && eof != EOF
    ensures ParsePattern(Write(items) + [eof] + rest, eof) == Good(items, rest)
  {
    hide ParsePattern, Spells, Encode, Grouped;
    var s := Write(items) + [eof] + rest;
    WriteSpells(items, eof);
    FirstCharacter(items, Write(items), eof, eof);
    WriteFirst(items);
    assert Anchor(s) == [] && [] + Write(items) == Write(items);
    assert s == Anchor(s) + Write(items) + [eof] + rest;
    WrittenPattern(s, eof, items, rest);
  }

  lemma WriteFirst(items: seq<Item>)
    requires items != []
    ensures Write(items) != [] && Write(items)[0] != CARET
  {
    assert WriteItem(items[0])[0] in {OPEN, CLOSE, BACKSLASH, DOT, LBRACKET, DOLLAR};
  }

  // Words

  /** Letters that mean only themselves where they stand. */
  predicate PlainWord(w: seq<int>, eof: int)
  {
    && w != [] && w[0] != CARET && w[|w| - 1] != DOLLAR
    && forall i :: 0 <= i < |w| ==> w[i] !in {eof, BACKSLASH, DOT, NEWLINE, TIMES, LBRACKET}
  }

  function Letters(w: seq<int>): (items: seq<Item>)
    ensures |items| == |w|
  {
    if w == [] then [] else [One(Lit(w[0]))] + Letters(w[1..])
  }

  lemma {:induction false} LettersSpelt(w: seq<int>, eof: int)
    requires w == [] || w[|w| - 1] != DOLLAR
    requires forall i :: 0 <= i < |w| ==> w[i] !in {eof, BACKSLASH, DOT, NEWLINE, TIMES, LBRACKET}
    ensures Spells(Letters(w), w, eof, eof) && |Encode(Letters(w))| == 2 * |w|
    ensures forall open, nbra :: Grouped(Letters(w), open, nbra)
    decreases |w|
  {
    hide Encode;
    if w == [] {
      EncodeNone();
    } else {
      LettersSpelt(w[1..], eof);
      EncodeCons(Letters(w));
      assert w[..1] == [w[0]] && Letters(w)[1..] == Letters(w[1..]);
      SpellsFirst(Letters(w), w, eof, eof, 1);
    }
  }

  /** A word is a pattern for its letters. */
  lemma WordPattern(w: seq<int>, eof: int, rest: seq<int>)
    requires PlainWord(w, eof) && 2 * |w| < ESIZE && eof != EOF
    ensures ParsePattern(w + [eof] + rest, eof) == Good(Letters(w), rest)
  {
    hide ParsePattern, Spells, Encode, Grouped;
    LettersSpelt(w, eof);
    var s := w + [eof] + rest;
    assert s == Anchor(s) + w + [eof] + rest;
    WrittenPattern(s, eof, Letters(w), rest);
  }

  /** The language of a word's letters is the word. */
  lemma {:induction false} LettersLanguage(w: seq<int>, x: seq<int>, atEnd: bool)
    ensures InLanguage(Letters(w), x, atEnd) <==> x == w
    decreases |w|
  {
    hide InLanguage;
    if w == [] {
      NothingLanguage(x, atEnd);
    } else {
      LetterLanguage(w[0], Letters(w[1..]), x, atEnd);
      if x != [] {
        LettersLanguage(w[1..], x[1..], atEnd);
        assert x == [x[0]] + x[1..] && w == [w[0]] + w[1..];
      }
    }
  }

  lemma NothingLanguage(x: seq<int>, atEnd: bool)
    ensures InLanguage([], x, atEnd) <==> x == []
  {
  }

  lemma LetterLanguage(c: int, items: seq<Item>, x: seq<int>, atEnd: bool)
    ensures InLanguage([One(Lit(c))] + items, x, atEnd) <==> x != [] && x[0] == c && InLanguage(items, x[1..], atEnd)
  {
    assert ([One(Lit(c))] + items)[1..] == items;
  }

  lemma WordMatches(w: seq<int>, text: seq<int>, i: int, j: int)
    ensures MatchesTo(Letters(w), text, i, j) <==> 0 <= i && i + |w| == j <= |text| && text[i..j] == w
  {
    hide InLanguage;
    if 0 <= i <= j <= |text| { LettersLanguage(w, text[i..j], j == |text|); }
  }
}
