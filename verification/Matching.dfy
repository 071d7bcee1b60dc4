/**
 What it means for a line to match a pattern of ed, item by item, and which of
 several matches is the one to find.
 */
module Matching {
  import opened Regex

  // The language, one item at a time

  lemma OneItem(a: Atom, items: seq<Item>, text: seq<int>, i: nat, j: int)
    requires i <= |text|
    ensures MatchesTo([One(a)] + items, text, i, j)
       <==> i < |text| && Accepts(a, text[i]) && MatchesTo(items, text, i + 1, j)
  {
    var all := [One(a)] + items;
    assert all[1..] == items;
    if i < |text| && i + 1 <= j <= |text| {
      assert text[i..j][1..] == text[i + 1..j];
    }
  }

  lemma MarkItem(it: Item, items: seq<Item>, text: seq<int>, i: nat, j: int)
    requires it.Bra? || it.Ket?
    ensures MatchesTo([it] + items, text, i, j) <==> MatchesTo(items, text, i, j)
  {
    assert ([it] + items)[1..] == items;
  }

  lemma EndItem(items: seq<Item>, text: seq<int>, i: nat, j: int)
    requires i <= |text|
    ensures MatchesTo([End] + items, text, i, j) <==> i == |text| && MatchesTo(items, text, i, j)
  {
    assert ([End] + items)[1..] == items;
  }

  /** What an unstarred item asks of the text at i. */
  predicate Passes(it: Item, text: seq<int>, i: nat)
  {
    match it
    case One(a) => i < |text| && Accepts(a, text[i])
    case End => i == |text|
    case _ => true
  }

  lemma FirstItem(it: Item, items: seq<Item>, text: seq<int>, i: nat)
    requires i <= |text| && !it.Star?
    ensures forall j :: MatchesTo([it] + items, text, i, j)
              <==> Passes(it, text, i) && MatchesTo(items, text, if it.One? then i + 1 else i, j)
  {
    hide MatchesTo, Accepts;
    forall j
      ensures MatchesTo([it] + items, text, i, j)
         <==> Passes(it, text, i) && MatchesTo(items, text, if it.One? then i + 1 else i, j)
    {
      match it {
        case One(a) => OneItem(a, items, text, i, j);
        case End => EndItem(items, text, i, j);
        case _ => MarkItem(it, items, text, i, j);
      }
    }
  }

  lemma NoItems(text: seq<int>, i: nat, j: int)
    ensures MatchesTo([], text, i, j) <==> i <= |text| && i == j
  {
  }

  /** A star may take any number of accepted characters. */
  lemma StarItem(a: Atom, items: seq<Item>, text: seq<int>, i: nat, j: int)
    ensures MatchesTo([Star(a)] + items, text, i, j)
       <==> exists k :: i <= k <= j <= |text| && AllAccepted(a, text[i..k]) && MatchesTo(items, text, k, j)
  {
    var all := [Star(a)] + items;
    assert all[1..] == items;
    if MatchesTo(all, text, i, j) {
      var w := text[i..j];
      var n :| 0 <= n <= |w| && AllAccepted(a, w[..n]) && InLanguage(items, w[n..], j == |text|);
      assert w[..n] == text[i..i + n] && w[n..] == text[i + n..j];
      assert MatchesTo(items, text, i + n, j);
    }
    if k :| i <= k <= j <= |text| && AllAccepted(a, text[i..k]) && MatchesTo(items, text, k, j) {
      var w := text[i..j];
      assert w[..k - i] == text[i..k] && w[k - i..] == text[k..j];
    }
  }

  /** The run of characters a star takes first: p is the first position it does not accept. */
  ghost predicate IsRun(a: Atom, text: seq<int>, i: nat, p: nat)
  {
    i <= p <= |text| && AllAccepted(a, text[i..p]) && (p < |text| ==> !Accepts(a, text[p]))
  }

  /** Trying every end of the run, longest first, tries every way to match. */
  lemma StarRun(a: Atom, items: seq<Item>, text: seq<int>, i: nat, p: nat, j: int)
    requires IsRun(a, text, i, p)
    ensures MatchesTo([Star(a)] + items, text, i, j) <==> exists k :: i <= k <= p && MatchesTo(items, text, k, j)
  {
    StarItem(a, items, text, i, j);
    if k :| i <= k <= j <= |text| && AllAccepted(a, text[i..k]) && MatchesTo(items, text, k, j) {
      forall y | i <= y < k ensures Accepts(a, text[y]) { assert text[i..k][y - i] == text[y]; }
    }
    if k :| i <= k <= p && MatchesTo(items, text, k, j) {
      forall x | 0 <= x < k - i ensures Accepts(a, text[i..k][x]) { assert text[i..k][x] == text[i..p][x]; }
    }
  }

  lemma RunGrows(a: Atom, text: seq<int>, i: nat, p: nat)
    requires i <= p < |text| && AllAccepted(a, text[i..p]) && Accepts(a, text[p])
    ensures AllAccepted(a, text[i..p + 1])
  {
    assert text[i..p + 1] == text[i..p] + [text[p]];
  }

  // A match with its parts

  /** The item takes the text from i to j. */
  ghost predicate Takes(it: Item, text: seq<int>, i: nat, j: nat)
  {
    match it
    case One(a) => i < |text| && Accepts(a, text[i]) && j == i + 1
    case Star(a) => i <= j <= |text| && AllAccepted(a, text[i..j])
    case End => i == |text| && j == i
    case _ => i <= |text| && j == i
  }

  /** One way to match: item x takes the text from ps[x] to ps[x + 1]. */
  ghost predicate Splits(items: seq<Item>, text: seq<int>, ps: seq<nat>)
  {
    && |ps| == |items| + 1 && ps[0] <= |text|
    && forall x :: 0 <= x < |items| ==> Takes(items[x], text, ps[x], ps[x + 1])
  }

  predicate AtMost(qs: seq<nat>, ps: seq<nat>)
  {
    |qs| == |ps| && (qs == [] || qs[0] < ps[0] || (qs[0] == ps[0] && AtMost(qs[1..], ps[1..])))
  }

  /** Of all ways to match from the same place, the one whose first star takes most, then whose second does, and on. */
  ghost predicate Greedy(items: seq<Item>, text: seq<int>, ps: seq<nat>)
  {
    Splits(items, text, ps) && forall qs :: Splits(items, text, qs) && qs[0] == ps[0] ==> AtMost(qs, ps)
  }

  lemma SplitsCons(it: Item, items: seq<Item>, text: seq<int>, ps: seq<nat>)
    ensures Splits([it] + items, text, ps)
       <==> |ps| == |items| + 2 && Takes(it, text, ps[0], ps[1]) && Splits(items, text, ps[1..])
  {
    var all := [it] + items;
    if Splits(all, text, ps) {
      assert Takes(all[0], text, ps[0], ps[1]);
      forall x | 0 <= x < |items| ensures Takes(items[x], text, ps[1..][x], ps[1..][x + 1]) {
        assert Takes(all[x + 1], text, ps[x + 1], ps[x + 2]);
      }
    }
    if |ps| == |items| + 2 && Takes(it, text, ps[0], ps[1]) && Splits(items, text, ps[1..]) {
      forall x | 0 <= x < |all| ensures Takes(all[x], text, ps[x], ps[x + 1]) {
        if x > 0 { assert Takes(items[x - 1], text, ps[1..][x - 1], ps[1..][x]); }
      }
    }
  }

  lemma TakesFirst(it: Item, items: seq<Item>, text: seq<int>, i: nat, j: int)
    requires i <= |text|
    ensures MatchesTo([it] + items, text, i, j)
       <==> exists k: nat :: Takes(it, text, i, k) && MatchesTo(items, text, k, j)
  {
    hide MatchesTo, Accepts, AllAccepted;
    match it
    case Star(a) =>
      StarItem(a, items, text, i, j);
      MatchesWithin(items, text, j);
    case One(a) =>
      OneItem(a, items, text, i, j);
      assert i < |text| && Accepts(a, text[i]) ==> Takes(it, text, i, i + 1);
    case End =>
      EndItem(items, text, i, j);
      assert i == |text| ==> Takes(it, text, i, i);
    case _ =>
      MarkItem(it, items, text, i, j);
      assert Takes(it, text, i, i);
  }

  lemma MatchesWithin(items: seq<Item>, text: seq<int>, j: int)
    ensures forall k :: MatchesTo(items, text, k, j) ==> 0 <= k <= j <= |text|
  {
  }

  /** The text from i to j is in the language of the items exactly if the items can share it out. */
  lemma {:induction false} SplitsLanguage(items: seq<Item>, text: seq<int>, i: nat, j: int)
    ensures MatchesTo(items, text, i, j) <==> exists ps :: Splits(items, text, ps) && ps[0] == i && ps[|items|] == j
    decreases |items|
  {
    hide MatchesTo, Splits, Takes;
    if i > |text| {
      SplitsWithin(items, text);
      if MatchesTo(items, text, i, j) { MatchesWithin(items, text, j); }
    } else if items == [] {
      NoItems(text, i, j);
      SplitsNothing(text, [i]);
      forall ps | Splits(items, text, ps) ensures |ps| == 1 { SplitsNothing(text, ps); }
    } else {
      SplitsMore(items[0], items[1..], text, i, j);
      assert items == [items[0]] + items[1..];
    }
  }

  lemma SplitsWithin(items: seq<Item>, text: seq<int>)
    ensures forall ps :: Splits(items, text, ps) ==> |ps| == |items| + 1 && ps[0] <= |text|
  {
  }

  lemma SplitsNothing(text: seq<int>, ps: seq<nat>)
    ensures Splits([], text, ps) <==> |ps| == 1 && ps[0] <= |text|
  {
  }

  lemma SplitsMore(it: Item, items: seq<Item>, text: seq<int>, i: nat, j: int)
    requires i <= |text|
    ensures MatchesTo([it] + items, text, i, j)
       <==> exists ps :: Splits([it] + items, text, ps) && ps[0] == i && ps[|items| + 1] == j
    decreases |items| + 1, 0
  {
    hide MatchesTo, Splits, Takes;
    TakesFirst(it, items, text, i, j);
    SplitsWithin(items, text);
    SplitsWithin([it] + items, text);
    if MatchesTo([it] + items, text, i, j) {
      var k: nat :| Takes(it, text, i, k) && MatchesTo(items, text, k, j);
      SplitsLanguage(items, text, k, j);
      var qs :| Splits(items, text, qs) && qs[0] == k && qs[|items|] == j;
      var ps := [i] + qs;
      assert ps[1..] == qs;
      SplitsCons(it, items, text, ps);
    }
    if ps :| Splits([it] + items, text, ps) && ps[0] == i && ps[|items| + 1] == j {
      SplitsCons(it, items, text, ps);
      SplitsLanguage(items, text, ps[1], j);
    }
  }

  // The greedy match, one item at a time

  lemma GreedyNothing(text: seq<int>, i: nat)
    requires i <= |text|
    ensures Greedy([], text, [i])
  {
  }

  /** Where an item leaves only one choice, the rest decides. */
  lemma GreedyOne(it: Item, items: seq<Item>, text: seq<int>, i: nat, ps: seq<nat>)
    requires !it.Star? && Greedy(items, text, ps) && Takes(it, text, i, ps[0])
    ensures Greedy([it] + items, text, [i] + ps)
  {
    GreedyMost(it, items, text, i, ps);
  }

  /** A star takes as much as leaves the rest a match. */
  lemma GreedyStar(a: Atom, items: seq<Item>, text: seq<int>, i: nat, top: nat, ps: seq<nat>)
    requires IsRun(a, text, i, top) && Greedy(items, text, ps) && i <= ps[0] <= top
    requires forall k :: ps[0] < k <= top ==> !MatchesAt(items, text, k)
    ensures Greedy([Star(a)] + items, text, [i] + ps)
  {
    hide MatchesAt;
    forall x | 0 <= x < ps[0] - i ensures Accepts(a, text[i..ps[0]][x]) {
      assert text[i..ps[0]][x] == text[i..top][x];
    }
    forall k: nat | Takes(Star(a), text, i, k) && k > ps[0] ensures !MatchesAt(items, text, k) {
      forall y | i <= y < k ensures Accepts(a, text[y]) { assert text[i..k][y - i] == text[y]; }
    }
    GreedyMost(Star(a), items, text, i, ps);
  }

  lemma GreedyMost(it: Item, items: seq<Item>, text: seq<int>, i: nat, ps: seq<nat>)
    requires Greedy(items, text, ps) && Takes(it, text, i, ps[0])
    requires forall k: nat :: Takes(it, text, i, k) && k > ps[0] ==> !MatchesAt(items, text, k)
    ensures Greedy([it] + items, text, [i] + ps)
  {
    hide Takes, MatchesTo;
    var all := [i] + ps;
    assert all[1..] == ps;
    SplitsCons(it, items, text, all);
    forall qs | Splits([it] + items, text, qs) && qs[0] == i ensures AtMost(qs, all) {
      SplitsCons(it, items, text, qs);
      SplitsLanguage(items, text, qs[1], qs[|items| + 1]);
      assert Splits(items, text, qs[1..]) && qs[1..][0] == qs[1];
    }
  }

  // Groups

  /** Item x is the last of its kind; in a pattern that was compiled a group opens and closes once. */
  ghost predicate LastAt(items: seq<Item>, x: nat, it: Item)
  {
    x < |items| && items[x] == it && it !in items[x + 1..]
  }

  /** The groups of the first items start and end where the match ps has the marks. */
  ghost predicate Marked(items: seq<Item>, ps: seq<nat>, upto: nat, starts: seq<int>, ends: seq<int>)
    requires upto <= |items| && upto <= |ps| && |starts| == NBRA && |ends| == NBRA
  {
    && (forall x: nat, n: nat | x < upto && n < NBRA && LastAt(items, x, Bra(n)) :: starts[n] == ps[x])
    && (forall x: nat, n: nat | x < upto && n < NBRA && LastAt(items, x, Ket(n)) :: ends[n] == ps[x])
  }

  /** Groups of which the items have no mark are as they were. */
  ghost predicate Unmarked(items: seq<Item>, starts: seq<int>, ends: seq<int>, starts': seq<int>, ends': seq<int>)
    requires |starts| == |starts'| == NBRA && |ends| == |ends'| == NBRA
  {
    && (forall n: nat | n < NBRA && Bra(n) !in items :: starts'[n] == starts[n])
    && (forall n: nat | n < NBRA && Ket(n) !in items :: ends'[n] == ends[n])
  }

  lemma MarkNext(items: seq<Item>, ps: seq<nat>, i: nat, starts: seq<int>, ends: seq<int>, starts': seq<int>,
                 ends': seq<int>)
    requires |ps| < |items| && |starts| == |ends| == NBRA && Marked(items, ps, |ps|, starts, ends)
    requires WellFormed(items[|ps|])
    requires starts' == if items[|ps|].Bra? then starts[items[|ps|].n := i] else starts
    requires ends' == if items[|ps|].Ket? then ends[items[|ps|].n := i] else ends
    ensures Marked(items, ps + [i], |ps| + 1, starts', ends')
  {
    forall x: nat, n: nat | x < |ps| + 1 && n < NBRA && LastAt(items, x, Bra(n)) ensures starts'[n] == (ps + [i])[x] {
      if x < |ps| { assert items[x + 1..][|ps| - x - 1] == items[|ps|]; }
    }
    forall x: nat, n: nat | x < |ps| + 1 && n < NBRA && LastAt(items, x, Ket(n)) ensures ends'[n] == (ps + [i])[x] {
      if x < |ps| { assert items[x + 1..][|ps| - x - 1] == items[|ps|]; }
    }
  }

  lemma MarkRest(items: seq<Item>, pre: seq<nat>, rest: seq<Item>, ps: seq<nat>, starts: seq<int>, ends: seq<int>,
                 starts': seq<int>, ends': seq<int>)
    requires |pre| <= |items| && rest == items[|pre|..] && |ps| == |rest| + 1
    requires |starts| == |starts'| == NBRA && |ends| == |ends'| == NBRA
    requires Marked(items, pre, |pre|, starts, ends) && Marked(rest, ps, |rest|, starts', ends')
    requires Unmarked(rest, starts, ends, starts', ends')
    ensures Marked(items, pre + ps, |items|, starts', ends')
  {
    forall x: nat, n: nat | x < |items| && n < NBRA && LastAt(items, x, Bra(n)) ensures starts'[n] == (pre + ps)[x] {
      LastInRest(items, |pre|, x, Bra(n));
    }
    forall x: nat, n: nat | x < |items| && n < NBRA && LastAt(items, x, Ket(n)) ensures ends'[n] == (pre + ps)[x] {
      LastInRest(items, |pre|, x, Ket(n));
    }
  }

  lemma LastInRest(items: seq<Item>, k: nat, x: nat, it: Item)
    requires k <= |items| && LastAt(items, x, it)
    ensures if x < k then it !in items[k..] else LastAt(items[k..], x - k, it)
  {
    if x < k {
      assert items[k..] == items[x + 1..][k - x - 1..];
    } else {
      assert items[k..][x - k + 1..] == items[x + 1..];
    }
  }

  lemma MarkStar(items: seq<Item>, i: nat, ps: seq<nat>, starts: seq<int>, ends: seq<int>, starts': seq<int>,
                 ends': seq<int>)
    requires items != [] && items[0].Star? && |ps| == |items|
    requires |starts| == |starts'| == NBRA && |ends| == |ends'| == NBRA
    requires Marked(items[1..], ps, |items| - 1, starts', ends') && Unmarked(items[1..], starts, ends, starts', ends')
    ensures Marked(items, [i] + ps, |items|, starts', ends')
  {
    MarkRest(items, [i], items[1..], ps, starts, ends, starts', ends');
  }

  /** Going on greedily with the rest from i makes the whole a greedy match. */
  ghost predicate GoesOn(items: seq<Item>, text: seq<int>, from: nat, pre: seq<nat>, rest: seq<Item>, i: nat)
  {
    forall ps | Greedy(rest, text, ps) && ps[0] == i :: Greedy(items, text, pre + ps) && (pre + ps)[0] == from
  }

  /**
   Halfway through the items: what is left is to be matched from i on, and the groups have been marked so far
   from what was there before, starts0 and ends0.
   */
  ghost predicate Halfway(items: seq<Item>, text: seq<int>, from: nat, pre: seq<nat>, rest: seq<Item>, i: nat,
                          starts0: seq<int>, ends0: seq<int>, starts: seq<int>, ends: seq<int>)
  {
    && |starts| == |starts0| == NBRA && |ends| == |ends0| == NBRA && i <= |text|
    && |pre| <= |items| && rest == items[|pre|..] && GoesOn(items, text, from, pre, rest, i)
    && Marked(items, pre, |pre|, starts, ends) && Unmarked(items, starts0, ends0, starts, ends)
    && forall j :: MatchesTo(items, text, from, j) <==> MatchesTo(rest, text, i, j)
  }

  lemma StartHere(items: seq<Item>, text: seq<int>, from: nat, starts: seq<int>, ends: seq<int>)
    requires |starts| == |ends| == NBRA && from <= |text|
    ensures Halfway(items, text, from, [], items, from, starts, ends, starts, ends)
  {
    forall ps: seq<nat> ensures [] + ps == ps {}
  }

  /** An item that is no star marks at most its own group. */
  ghost predicate MarksOne(it: Item, i: nat, starts: seq<int>, ends: seq<int>, starts': seq<int>, ends': seq<int>)
    requires |starts| == |ends| == NBRA
  {
    && WellFormed(it)
    && starts' == (if it.Bra? then starts[it.n := i] else starts)
    && ends' == (if it.Ket? then ends[it.n := i] else ends)
  }

  lemma OneMarked(items: seq<Item>, text: seq<int>, from: nat, pre: seq<nat>, rest: seq<Item>, i: nat,
                  starts0: seq<int>, ends0: seq<int>, starts: seq<int>, ends: seq<int>, starts': seq<int>,
                  ends': seq<int>)
    requires Halfway(items, text, from, pre, rest, i, starts0, ends0, starts, ends)
    requires rest != [] && MarksOne(rest[0], i, starts, ends, starts', ends')
    ensures |starts'| == |starts0| == NBRA && |ends'| == |ends0| == NBRA
    ensures Unmarked(items, starts0, ends0, starts', ends')
    ensures Marked(items, pre + [i], |pre| + 1, starts', ends')
  {
    hide GoesOn, MatchesTo;
    assert items[|pre|] == rest[0];
    MarkNext(items, pre, i, starts, ends, starts', ends');
  }

  lemma OneTaken(items: seq<Item>, text: seq<int>, from: nat, pre: seq<nat>, rest: seq<Item>, i: nat, i': nat,
                 starts0: seq<int>, ends0: seq<int>, starts: seq<int>, ends: seq<int>, starts': seq<int>,
                 ends': seq<int>)
    requires Halfway(items, text, from, pre, rest, i, starts0, ends0, starts, ends)
    requires rest != [] && MarksOne(rest[0], i, starts, ends, starts', ends')
    requires !rest[0].Star? && Takes(rest[0], text, i, i')
    requires forall j :: MatchesTo(rest, text, i, j) <==> MatchesTo(rest[1..], text, i', j)
    ensures Halfway(items, text, from, pre + [i], rest[1..], i', starts0, ends0, starts', ends')
  {
    hide GoesOn, Marked, Unmarked, MatchesTo;
    OneMarked(items, text, from, pre, rest, i, starts0, ends0, starts, ends, starts', ends');
    StillGoesOn(items, text, from, pre, rest, i, i');
  }

  lemma StillGoesOn(items: seq<Item>, text: seq<int>, from: nat, pre: seq<nat>, rest: seq<Item>, i: nat, i': nat)
    requires GoesOn(items, text, from, pre, rest, i) && rest != [] && !rest[0].Star? && Takes(rest[0], text, i, i')
    ensures GoesOn(items, text, from, pre + [i], rest[1..], i')
  {
    hide Takes, Splits;
    SplitsWithin(rest[1..], text);
    forall ps | Greedy(rest[1..], text, ps) && ps[0] == i'
      ensures Greedy(items, text, pre + [i] + ps) && (pre + [i] + ps)[0] == from
    {
      GreedyOne(rest[0], rest[1..], text, i, ps);
      assert [rest[0]] + rest[1..] == rest && pre + ([i] + ps) == pre + [i] + ps;
    }
  }

  lemma AllTaken(items: seq<Item>, text: seq<int>, from: nat, pre: seq<nat>, i: nat, starts0: seq<int>,
                 ends0: seq<int>, starts: seq<int>, ends: seq<int>)
    requires Halfway(items, text, from, pre, [], i, starts0, ends0, starts, ends)
    ensures |pre| == |items| && Greedy(items, text, pre + [i]) && (pre + [i])[0] == from
    ensures Marked(items, pre + [i], |items|, starts, ends) && Unmarked(items, starts0, ends0, starts, ends)
    ensures MatchesTo(items, text, from, i) && MatchesAt(items, text, from)
  {
    hide MatchesTo;
    GreedyNothing(text, i);
    NoItems(text, i, i);
  }

  lemma RestTried(items: seq<Item>, text: seq<int>, from: nat, pre: seq<nat>, rest: seq<Item>, i: nat,
                  starts0: seq<int>, ends0: seq<int>, starts: seq<int>, ends: seq<int>, starts': seq<int>,
                  ends': seq<int>)
    requires Halfway(items, text, from, pre, rest, i, starts0, ends0, starts, ends)
    requires |starts'| == |ends'| == NBRA && Unmarked(rest, starts, ends, starts', ends')
    ensures Unmarked(items, starts0, ends0, starts', ends')
    ensures MatchesAt(items, text, from) <==> MatchesAt(rest, text, i)
    ensures forall j :: MatchesTo(items, text, from, j) <==> MatchesTo(rest, text, i, j)
  {
    hide MatchesTo;
  }

  lemma RestFails(items: seq<Item>, text: seq<int>, from: nat, pre: seq<nat>, rest: seq<Item>, i: nat,
                  starts0: seq<int>, ends0: seq<int>, starts: seq<int>, ends: seq<int>)
    requires Halfway(items, text, from, pre, rest, i, starts0, ends0, starts, ends)
    requires forall j :: !MatchesTo(rest, text, i, j)
    ensures !MatchesAt(items, text, from)
  {
    hide MatchesTo;
  }

  lemma RestTaken(items: seq<Item>, text: seq<int>, from: nat, pre: seq<nat>, rest: seq<Item>, i: nat,
                  starts0: seq<int>, ends0: seq<int>, starts: seq<int>, ends: seq<int>, starts': seq<int>,
                  ends': seq<int>, ps: seq<nat>)
    requires Halfway(items, text, from, pre, rest, i, starts0, ends0, starts, ends)
    requires |starts'| == |ends'| == NBRA && Unmarked(rest, starts, ends, starts', ends')
    requires Greedy(rest, text, ps) && ps[0] == i && Marked(rest, ps, |rest|, starts', ends')
    ensures |pre| + |ps| == |items| + 1 && Greedy(items, text, pre + ps)
    ensures (pre + ps)[0] == from && (pre + ps)[|items|] == ps[|rest|]
    ensures Marked(items, pre + ps, |items|, starts', ends')
  {
    MarkRest(items, pre, rest, ps, starts, ends, starts', ends');
  }
}
