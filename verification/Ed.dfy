/**
 ed's pattern compiler and backtracking matcher (user/bin/ed.c). A line is the
 sequence of its non-zero character codes; reading at its length gives the
 terminating zero.
 */
module Ed {
  import opened Matching
  import opened Notation
  import opened Regex

  ghost predicate IsLine(text: seq<int>) { forall i :: 0 <= i < |text| ==> text[i] != 0 }

  function At(text: seq<int>, p: nat): int
    requires p <= |text|
  {
    if p < |text| then text[p] else 0
  }

  lemma Slices(buf: seq<int>, ep: nat, a: seq<int>, b: seq<int>)
    requires ep + |a| + |b| <= |buf| && buf[ep..ep + |a| + |b|] == a + b
    ensures buf[ep..ep + |a|] == a && buf[ep + |a|..ep + |a| + |b|] == b
  {
    var s := buf[ep..ep + |a| + |b|];
    assert buf[ep..ep + |a|] == s[..|a|];
    assert buf[ep + |a|..ep + |a| + |b|] == s[|a|..];
  }

  class Editor {
    const expbuf: array<int>
    const braslist: array<int>
    const braelist: array<int>
    var circfl: bool
    var loc1: nat
    var loc2: nat

    ghost predicate Valid()
    {
      && expbuf.Length == ESIZE + 4 && braslist.Length == NBRA && braelist.Length == NBRA
      && expbuf != braslist && expbuf != braelist && braslist != braelist
    }

    constructor ()
      ensures Valid() && fresh(expbuf) && fresh(braslist) && fresh(braelist)
    {
      expbuf := new int[ESIZE + 4];
      braslist := new int[NBRA];
      braelist := new int[NBRA];
      circfl, loc1, loc2 := false, 0, 0;
    }

    /** The code of the items, and the end mark, start at ep. */
    ghost predicate CodeAt(ep: nat, items: seq<Item>)
      reads expbuf
    {
      && (forall i :: 0 <= i < |items| ==> WellFormed(items[i]))
      && ep + |Encode(items)| < expbuf.Length
      && expbuf[ep..ep + |Encode(items)| + 1] == Encode(items) + [CEOF]
    }

    lemma CodeCons(ep: nat, items: seq<Item>)
      requires CodeAt(ep, items) && items != []
      ensures ep + |EncodeItem(items[0])| < expbuf.Length
      ensures expbuf[ep..ep + |EncodeItem(items[0])|] == EncodeItem(items[0])
      ensures CodeAt(ep + |EncodeItem(items[0])|, items[1..])
    {
      hide Encode, EncodeItem, WellFormed;
      EncodeCons(items);
      var a, b := EncodeItem(items[0]), Encode(items[1..]) + [CEOF];
      assert Encode(items) + [CEOF] == a + b;
      Slices(expbuf[..], ep, a, b);
    }

    /** cclass: whether c is in the class whose size byte is at set. */
    method Cclass(set_: nat, c: int, af: bool, ghost members: seq<int>) returns (r: bool)
      requires set_ + |members| < expbuf.Length && expbuf[set_..set_ + |members| + 1] == [|members| + 1] + members
      ensures r == (c != 0 && ((c in members) == af))
    {
      if c == 0 {
        return false;
      }
      var p := set_;
      assert expbuf[p] == expbuf[set_..set_ + |members| + 1][0];
      var n := expbuf[p];
      p := p + 1;
      n := n - 1;
      while n != 0
        invariant 0 <= n <= |members| && p == set_ + 1 + |members| - n
        invariant c !in members[..|members| - n]
        decreases n
      {
        assert expbuf[p] == expbuf[set_..set_ + |members| + 1][p - set_] == members[|members| - n];
        if expbuf[p] == c {
          return af;
        }
        p := p + 1;
        n := n - 1;
      }
      assert members[..|members|] == members;
      return !af;
    }

    /** Skips a run of any characters; like the C loops, it stops one past the character that ends the run. */
    method RunAny(text: seq<int>, from: nat) returns (lp: nat)
      requires IsLine(text) && from <= |text|
      ensures lp > 0 && IsRun(Any, text, from, lp - 1)
    {
      lp := from;
      while At(text, lp) != 0
        invariant from <= lp <= |text|
        decreases |text| - lp
      {
        lp := lp + 1;
      }
      lp := lp + 1;
    }

    method RunLit(text: seq<int>, from: nat, ep: nat) returns (lp: nat)
      requires IsLine(text) && from <= |text| && ep < expbuf.Length && expbuf[ep] != 0
      ensures lp > 0 && IsRun(Lit(expbuf[ep]), text, from, lp - 1)
    {
      lp := from;
      while At(text, lp) == expbuf[ep]
        invariant from <= lp <= |text| && AllAccepted(Lit(expbuf[ep]), text[from..lp])
        decreases |text| - lp
      {
        RunGrows(Lit(expbuf[ep]), text, from, lp);
        lp := lp + 1;
      }
      lp := lp + 1;
    }

    method RunClass(text: seq<int>, from: nat, ep: nat, af: bool, ghost members: seq<int>) returns (lp: nat)
      requires IsLine(text) && from <= |text|
      requires ep + |members| < expbuf.Length && expbuf[ep..ep + |members| + 1] == [|members| + 1] + members
      ensures lp > 0 && IsRun(Class(!af, members), text, from, lp - 1)
    {
      lp := from;
      while true
        invariant from <= lp <= |text| && AllAccepted(Class(!af, members), text[from..lp])
        decreases |text| - lp
      {
        var b := Cclass(ep, At(text, lp), af, members);
        if b { RunGrows(Class(!af, members), text, from, lp); }
        lp := lp + 1;
        if !b {
          break;
        }
      }
    }

    lemma EmptyCode(ep: nat)
      requires CodeAt(ep, [])
      ensures ep < expbuf.Length && expbuf[ep] == CEOF
    {
      assert Encode([]) + [CEOF] == [CEOF];
      assert expbuf[ep] == expbuf[ep..ep + 1][0];
    }

    /** The first byte of an item's code tells what the item is. */
    lemma FirstByte(ep: nat, items: seq<Item>)
      requires CodeAt(ep, items) && items != []
      ensures ep < expbuf.Length && expbuf[ep] == EncodeItem(items[0])[0] != CEOF
      ensures items[0].Star? <==> expbuf[ep] % 2 == 1 && expbuf[ep] != CBRA
    {
      hide Encode;
      CodeCons(ep, items);
      assert expbuf[ep] == expbuf[ep..ep + |EncodeItem(items[0])|][0];
    }

    /** The bytes of a class after its code byte. */
    lemma ClassBytes(ep: nat, items: seq<Item>, ms: seq<int>)
      requires CodeAt(ep, items) && items != [] && (items[0].One? || items[0].Star?)
      requires items[0].atom.Class? && ms == items[0].atom.members
      ensures ep + 1 + |ms| < expbuf.Length && expbuf[ep + 1] == |ms| + 1
      ensures expbuf[ep + 1..ep + 1 + |ms| + 1] == [|ms| + 1] + ms
    {
      hide Encode;
      CodeCons(ep, items);
      var code := EncodeItem(items[0]);
      assert code == [code[0]] + ([|ms| + 1] + ms);
      Slices(expbuf[..], ep, [code[0]], [|ms| + 1] + ms);
      assert expbuf[ep + 1] == expbuf[ep + 1..ep + 1 + |ms| + 1][0];
    }

    lemma SecondByte(ep: nat, items: seq<Item>)
      requires CodeAt(ep, items) && items != [] && |EncodeItem(items[0])| >= 2
      ensures ep + 1 < expbuf.Length && expbuf[ep + 1] == EncodeItem(items[0])[1]
    {
      CodeCons(ep, items);
      assert expbuf[ep + 1] == expbuf[ep..ep + |EncodeItem(items[0])|][1];
    }

    /** An unstarred item: the text either goes on with it or does not match. */
    method AdvanceOne(text: seq<int>, lp: nat, ep0: nat, ghost items: seq<Item>) returns (go: bool, lp': nat, ep: nat)
      requires Valid() && IsLine(text) && lp <= |text| && CodeAt(ep0, items) && items != [] && !items[0].Star?
      modifies braslist, braelist
      ensures expbuf[..] == old(expbuf[..])
      ensures go ==> lp' <= |text| && ep == ep0 + |EncodeItem(items[0])|
      ensures go ==> Takes(items[0], text, lp, lp')
      ensures go ==> forall j :: MatchesTo(items, text, lp, j) <==> MatchesTo(items[1..], text, lp', j)
      ensures MarksOne(items[0], lp, old(braslist[..]), old(braelist[..]), braslist[..], braelist[..])
      ensures !go ==> forall j :: !MatchesTo(items, text, lp, j)
    {
      hide InLanguage, MatchesTo, Encode, AllAccepted;
      FirstByte(ep0, items);
      ghost var it, more := items[0], items[1..];
      assert items == [it] + more;
      if |EncodeItem(it)| >= 2 { SecondByte(ep0, items); }
      FirstItem(it, more, text, lp);
      ghost var code := expbuf[..];
      lp', ep := lp, ep0 + 1;
      match expbuf[ep0]
      case 2 =>
        go := expbuf[ep] == At(text, lp);
        ep, lp' := ep + 1, lp + 1;
      case 4 =>
        go := At(text, lp) != 0;
        lp' := lp + 1;
      case 10 =>
        go := At(text, lp) == 0;
      case 1 =>
        braslist[expbuf[ep]] := lp;
        ep, go := ep + 1, true;
      case 12 =>
        braelist[expbuf[ep]] := lp;
        ep, go := ep + 1, true;
      case _ =>
        ClassBytes(ep0, items, it.atom.members);
        go := Cclass(ep, At(text, lp), expbuf[ep0] == CCL, it.atom.members);
        ep, lp' := ep + expbuf[ep], lp + 1;
    }

    /** The match ps was found: loc2 is its end, and the groups are where it has their marks. */
    ghost predicate Kept(items: seq<Item>, text: seq<int>, ps: seq<nat>)
      requires Valid()
      reads this`loc2, braslist, braelist
    {
      && Greedy(items, text, ps) && |ps| == |items| + 1 && ps[|items|] == loc2
      && Marked(items, ps, |items|, braslist[..], braelist[..])
    }

    /** A starred item: the longest run first, then shorter ones. */
    method AdvanceStar(text: seq<int>, curlp: nat, ep0: nat, ghost items: seq<Item>)
      returns (r: bool, ghost ps: seq<nat>)
      requires Valid() && IsLine(text) && curlp <= |text| && CodeAt(ep0, items) && items != [] && items[0].Star?
      modifies this`loc2, braslist, braelist
      ensures r <==> MatchesAt(items, text, curlp)
      ensures r ==> MatchesTo(items, text, curlp, loc2)
      ensures r ==> Kept(items, text, ps) && ps[0] == curlp
      ensures Unmarked(items, old(braslist[..]), old(braelist[..]), braslist[..], braelist[..])
      decreases |items|, 0
    {
      hide InLanguage, MatchesTo, Encode, AllAccepted, Greedy, CodeAt, Marked;
      ghost var a, more := items[0].atom, items[1..];
      assert items == [Star(a)] + more;
      var lp, ep := RunStar(text, curlp, ep0, items);
      CodeCons(ep0, items);
      forall j { StarRun(a, more, text, curlp, lp - 1, j); }
      ghost var top := lp - 1;
      while true
        invariant curlp < lp <= top + 1 && top <= |text| && CodeAt(ep, more)
        invariant forall k :: lp <= k <= top ==> !MatchesAt(more, text, k)
        invariant Unmarked(more, old(braslist[..]), old(braelist[..]), braslist[..], braelist[..])
        decreases lp
      {
        lp := lp - 1;
        ghost var starts, ends := braslist[..], braelist[..];
        r, ps := Advance(text, lp, ep, more);
        if r {
          assert MatchesTo(items, text, curlp, loc2);
          GreedyStar(a, more, text, curlp, top, ps);
          MarkStar(items, curlp, ps, starts, ends, braslist[..], braelist[..]);
          ps := [curlp] + ps;
          return;
        }
        if lp <= curlp {
          break;
        }
      }
      forall k, j | curlp <= k <= top ensures !MatchesTo(more, text, k, j) { assert !MatchesAt(more, text, k); }
      return false, [];
    }

    /** The three loops that measure the run, and the code position after the item. */
    method RunStar(text: seq<int>, curlp: nat, ep0: nat, ghost items: seq<Item>) returns (lp: nat, ep: nat)
      requires Valid() && IsLine(text) && curlp <= |text| && CodeAt(ep0, items) && items != [] && items[0].Star?
      ensures lp > 0 && IsRun(items[0].atom, text, curlp, lp - 1) && ep == ep0 + |EncodeItem(items[0])|
    {
      hide IsRun, Encode;
      FirstByte(ep0, items);
      ghost var a := items[0].atom;
      if a.Lit? { SecondByte(ep0, items); }
      ep := ep0 + 1;
      match expbuf[ep0]
      case 5 =>
        lp := RunAny(text, curlp);
      case 3 =>
        lp := RunLit(text, curlp, ep);
        ep := ep + 1;
      case _ =>
        ClassBytes(ep0, items, a.members);
        lp := RunClass(text, curlp, ep, expbuf[ep0] == CCL + 1, a.members);
        ep := ep + expbuf[ep];
    }

    /**
     advance, with locs 0: whether some prefix of the text at alp is in the
     language of the code at aep. If so, loc2 is the end of the greedy match.
     */
    method Advance(text: seq<int>, alp: nat, aep: nat, ghost items: seq<Item>) returns (r: bool, ghost ps: seq<nat>)
      requires Valid() && IsLine(text) && alp <= |text| && CodeAt(aep, items)
      modifies this`loc2, braslist, braelist
      ensures r <==> MatchesAt(items, text, alp)
      ensures r ==> MatchesTo(items, text, alp, loc2)
      ensures r ==> Kept(items, text, ps) && ps[0] == alp
      ensures Unmarked(items, old(braslist[..]), old(braelist[..]), braslist[..], braelist[..])
      decreases |items|, 1
    {
      hide InLanguage, Encode, MatchesTo, MatchesAt, Greedy, Marked, Unmarked, CodeAt, Takes, WellFormed, Halfway,
           MarksOne;
      var lp: nat, ep: nat := alp, aep;
      ghost var starts0, ends0 := braslist[..], braelist[..];
      ghost var rest, pre := items, [];
      StartHere(items, text, alp, starts0, ends0);
      while true
        invariant lp <= |text| && CodeAt(ep, rest) && |rest| <= |items|
        invariant Halfway(items, text, alp, pre, rest, lp, starts0, ends0, braslist[..], braelist[..])
        decreases |rest|
      {
        if rest == [] { EmptyCode(ep); } else { CodeCons(ep, rest); FirstByte(ep, rest); }
        ghost var starts, ends, from := braslist[..], braelist[..], lp;
        if expbuf[ep] == CEOF {
          loc2 := lp;
          AllTaken(items, text, alp, pre, lp, starts0, ends0, starts, ends);
          return true, pre + [lp];
        }
        if expbuf[ep] % 2 == 1 && expbuf[ep] != CBRA {
          r, ps := AdvanceStar(text, lp, ep, rest);
          RestTried(items, text, alp, pre, rest, lp, starts0, ends0, starts, ends, braslist[..], braelist[..]);
          if r {
            RestTaken(items, text, alp, pre, rest, lp, starts0, ends0, starts, ends, braslist[..], braelist[..], ps);
            ps := pre + ps;
          }
          return;
        }
        var go;
        go, lp, ep := AdvanceOne(text, lp, ep, rest);
        OneMarked(items, text, alp, pre, rest, from, starts0, ends0, starts, ends, braslist[..], braelist[..]);
        if !go {
          RestFails(items, text, alp, pre, rest, from, starts0, ends0, starts, ends);
          return false, [];
        }
        OneTaken(items, text, alp, pre, rest, from, lp, starts0, ends0, starts, ends, braslist[..], braelist[..]);
        rest, pre := rest[1..], pre + [from];
      }
    }

    /** Where the pattern matches the line: anchored at its start, or anywhere. */
    ghost predicate Found(text: seq<int>, items: seq<Item>, i: nat)
      reads this`circfl
    {
      i <= |text| && (circfl ==> i == 0) && MatchesAt(items, text, i)
    }

    /**
     execute, for the first match on a line: loc1 is the leftmost place where the
     compiled pattern matches and loc2 the end of the greedy match there.
     */
    method Execute(lineZero: bool, text: seq<int>, ghost items: seq<Item>) returns (r: bool, ghost ps: seq<nat>)
      requires Valid() && IsLine(text) && CodeAt(0, items)
      modifies this`loc1, this`loc2, braslist, braelist
      ensures r <==> !lineZero && exists i: nat :: Found(text, items, i)
      ensures r ==> Found(text, items, loc1) && MatchesTo(items, text, loc1, loc2)
      ensures r ==> forall i: nat :: i < loc1 ==> !Found(text, items, i)
      ensures r ==> Kept(items, text, ps) && ps[0] == loc1
    {
      hide InLanguage, MatchesTo, Encode, MatchesAt, Greedy, Marked;
      if lineZero {
        return false, [];
      }
      if circfl {
        loc1 := 0;
        r, ps := Advance(text, 0, 0, items);
        assert r ==> Found(text, items, 0);
        return;
      }
      if items == [] { EmptyCode(0); } else { FirstByte(0, items); }
      var p1 := 0;
      if expbuf[0] == CCHR {
        SecondByte(0, items);
        var c := expbuf[1];
        while true
          invariant 0 <= p1 <= |text| && CodeAt(0, items) && expbuf[0] == CCHR && expbuf[1] == c
          invariant forall i: nat :: i < p1 ==> !Found(text, items, i)
          decreases |text| - p1
        {
          if At(text, p1) == c {
            r, ps := Advance(text, p1, 0, items);
            if r {
              loc1 := p1;
              assert Found(text, items, loc1);
              return;
            }
          } else {
            FastCheck(text, p1, items);
          }
          if At(text, p1) == 0 {
            break;
          }
          p1 := p1 + 1;
        }
        return false, [];
      }
      while true
        invariant 0 <= p1 <= |text| && CodeAt(0, items)
        invariant forall i: nat :: i < p1 ==> !Found(text, items, i)
        decreases |text| - p1
      {
        r, ps := Advance(text, p1, 0, items);
        if r {
          loc1 := p1;
          assert Found(text, items, loc1);
          return;
        }
        if At(text, p1) == 0 {
          break;
        }
        p1 := p1 + 1;
      }
      return false, [];
    }

    /** Where the first character differs there is no match, so skipping the place loses nothing. */
    lemma FastCheck(text: seq<int>, p: nat, items: seq<Item>)
      requires IsLine(text) && p <= |text| && CodeAt(0, items) && items != [] && expbuf[0] == CCHR
      requires expbuf[1] != At(text, p)
      ensures !MatchesAt(items, text, p)
    {
      FirstByte(0, items);
      SecondByte(0, items);
      assert items == [items[0]] + items[1..];
      forall j ensures !MatchesTo(items, text, p, j) { OneItem(items[0].atom, items[1..], text, p, j); }
    }

    // compile

    /** The code emitted so far is that of the items read; lastep is where the last one's code starts. */
    ghost predicate Emitted(rd: Reading, ep: nat, lastep: nat)
      reads this, expbuf
    {
      && expbuf.Length == ESIZE + 4 && ep == rd.used <= ESIZE + 3
      && expbuf[..ep] == Encode(rd.items)
      && (forall i :: 0 <= i < |rd.items| ==> WellFormed(rd.items[i]))
      && (forall i :: 0 <= i < |rd.s| ==> rd.s[i] != 0)
      && (rd.items != [] ==> lastep + |EncodeItem(rd.items[|rd.items| - 1])| == ep)
    }

    method Emit(ep: nat, x: int)
      requires ep < expbuf.Length
      modifies expbuf
      ensures expbuf[..ep + 1] == old(expbuf[..ep]) + [x]
    {
      expbuf[ep] := x;
    }

    method EmitTwo(ep: nat, x: int, y: int)
      requires ep + 1 < expbuf.Length
      modifies expbuf
      ensures expbuf[..ep + 2] == old(expbuf[..ep]) + [x, y]
    {
      expbuf[ep] := x;
      expbuf[ep + 1] := y;
      assert expbuf[..ep + 1] == old(expbuf[..ep]) + [x];
    }

    /** Code for one more item keeps the correspondence. */
    lemma Appended(rd: Reading, it: Item, next: Reading, ep: nat, code: seq<int>)
      requires expbuf.Length == ESIZE + 4 && |code| == ep == rd.used && code == Encode(rd.items)
      requires (forall i :: 0 <= i < |rd.items| ==> WellFormed(rd.items[i])) && WellFormed(it)
      requires forall i :: 0 <= i < |next.s| ==> next.s[i] != 0
      requires next.items == rd.items + [it] && next.used == ep + |EncodeItem(it)| <= ESIZE + 3
      requires expbuf[..next.used] == code + EncodeItem(it)
      ensures Emitted(next, next.used, ep)
    {
      hide Encode, EncodeItem, WellFormed;
      EncodeSnoc(rd.items, it);
    }

    /** The loop over the members of a class; cclcnt counts them, and one for the count itself. */
    method CompileMembers(s: seq<int>, ep0: nat) returns (ok: bool, rest: seq<int>, ep: nat, cclcnt: nat)
      requires expbuf.Length == ESIZE + 4 && ep0 < ESIZE + 2
      modifies expbuf
      ensures var m := ParseMembers(s, [], ep0);
              if ok then
                && m.GoodClass? && rest == m.rest && ep == ep0 + |m.members| <= ESIZE && cclcnt == 1 + |m.members|
                && expbuf[..ep] == old(expbuf[..ep0]) + m.members
              else m.BadClass?
    {
      hide ParseMembers;
      ghost var before := expbuf[..ep0];
      ghost var members: seq<int> := [];
      rest, ep, cclcnt := s, ep0, 1;
      while true
        invariant ep == ep0 + |members| && cclcnt == 1 + |members| && ep < ESIZE + 2
        invariant expbuf[..ep] == before + members
        invariant ParseMembers(rest, members, ep) == ParseMembers(s, [], ep0)
        decreases |rest|, ESIZE + 2 - ep
      {
        MembersStep(rest, members, ep);
        var c := Head(rest);
        if c == NEWLINE {
          return false, rest, ep, cclcnt;
        }
        rest := Tail(rest);
        Emit(ep, c);
        ep := ep + 1;
        cclcnt := cclcnt + 1;
        assert before + (members + [c]) == (before + members) + [c];
        members := members + [c];
        if ep >= ESIZE {
          return false, rest, ep, cclcnt;
        }
        if Head(rest) == RBRACKET {
          rest := Tail(rest);
          break;
        }
      }
      ok := true;
    }

    /** A class: s starts after the opening bracket. */
    method CompileClass(s: seq<int>, ep0: nat) returns (ok: bool, rest: seq<int>, ep: nat)
      requires expbuf.Length == ESIZE + 4 && ep0 < ESIZE
      modifies expbuf
      ensures var negated := Head(s) == CARET;
              var m := ParseMembers(if negated then Tail(s) else s, [], ep0 + 2);
              if ok then
                && m.GoodClass? && rest == m.rest && ep == ep0 + 2 + |m.members| <= ESIZE
                && expbuf[..ep] == old(expbuf[..ep0]) + EncodeAtom(Class(negated, m.members), 0)
              else m.BadClass?
    {
      hide ParseMembers;
      ghost var before := expbuf[..ep0];
      rest := s;
      EmitTwo(ep0, CCL, 0);
      ghost var op := CCL;
      if Head(rest) == CARET {
        rest := Tail(rest);
        expbuf[ep0] := NCCL;
        assert expbuf[..ep0 + 2] == before + [NCCL, 0];
        op := NCCL;
      }
      ghost var m := ParseMembers(rest, [], ep0 + 2);
      var cclcnt;
      ok, rest, ep, cclcnt := CompileMembers(rest, ep0 + 2);
      if ok {
        expbuf[ep0 + 1] := cclcnt;
        assert expbuf[..ep] == (before + [op, 0] + m.members)[ep0 + 1 := cclcnt];
        CountSet(before, op, cclcnt, m.members);
      }
    }

    lemma CountSet(before: seq<int>, op: int, count: int, members: seq<int>)
      ensures (before + [op, 0] + members)[|before| + 1 := count] == before + ([op, count] + members)
    {
    }

    /** The starred code of an atom differs from the plain one in its lowest bit. */
    lemma StarByte(it: Item)
      requires it.One? || it.Star?
      ensures var a := EncodeItem(it);
              && a != [] && a[0] != CBRA && a[0] != CKET
              && EncodeItem(Star(it.atom)) == a[0 := if a[0] % 2 == 0 then a[0] + 1 else a[0]]
    {
    }

    /** Setting the star bit of the last item's code. */
    lemma StarBit(rd: Reading, ep: nat, lastep: nat, code: seq<int>)
      requires CanStar(rd.items) && code == Encode(rd.items) && |code| == ep
      requires lastep + |EncodeItem(rd.items[|rd.items| - 1])| == ep
      ensures lastep < ep && code[lastep] != CBRA && code[lastep] != CKET
      ensures Encode(StarLast(rd.items))
           == code[lastep := if code[lastep] % 2 == 0 then code[lastep] + 1 else code[lastep]]
      ensures |EncodeItem(StarLast(rd.items)[|rd.items| - 1])| == |EncodeItem(rd.items[|rd.items| - 1])|
    {
      hide Encode, EncodeItem;
      var n := |rd.items| - 1;
      var front, it := rd.items[..n], rd.items[n];
      assert rd.items == front + [it];
      EncodeSnoc(front, it);
      EncodeSnoc(front, Star(it.atom));
      StarByte(it);
      var f, a := Encode(front), EncodeItem(it);
      assert code == f + a && |f| == lastep && code[lastep] == a[0];
      var y := if a[0] % 2 == 0 then a[0] + 1 else a[0];
      assert (f + a)[lastep := y] == f + a[0 := y];
    }

    lemma MarkByte(rd: Reading, ep: nat, lastep: nat)
      requires rd.items != [] && Emitted(rd, ep, lastep)
      ensures lastep < ep && expbuf[lastep] == EncodeItem(rd.items[|rd.items| - 1])[0]
    {
      hide Encode, EncodeItem, WellFormed;
      var n := |rd.items| - 1;
      assert rd.items == rd.items[..n] + [rd.items[n]];
      EncodeSnoc(rd.items[..n], rd.items[n]);
      GroupByte(rd.items[n]);
      assert expbuf[lastep] == expbuf[..ep][lastep];
    }

    /** The star: it applies to the last character or class, and not to a group mark. */
    method CompileStar(ghost rd: Reading, ep: nat, lastep: nat) returns (ok: bool)
      requires Emitted(rd, ep, lastep) && rd.items != [] && !rd.items[|rd.items| - 1].End?
      modifies expbuf
      ensures ok <==> CanStar(rd.items)
      ensures ok ==> Emitted(rd.(items := StarLast(rd.items)), ep, lastep)
      ensures !ok ==> expbuf[..] == old(expbuf[..])
    {
      hide Encode, EncodeItem;
      MarkByte(rd, ep, lastep);
      GroupByte(rd.items[|rd.items| - 1]);
      if expbuf[lastep] == CBRA || expbuf[lastep] == CKET {
        return false;
      }
      StarBit(rd, ep, lastep, expbuf[..ep]);
      ghost var before := expbuf[..ep];
      expbuf[lastep] := if expbuf[lastep] % 2 == 0 then expbuf[lastep] + 1 else expbuf[lastep];
      assert expbuf[..ep] == before[lastep := expbuf[lastep]];
      ok := true;
    }

    lemma GroupByte(it: Item)
      ensures |EncodeItem(it)| >= 1
      ensures EncodeItem(it)[0] == CBRA || EncodeItem(it)[0] == CKET <==> it.Bra? || it.Ket?
    {
    }

    lemma StartsNonZero(rd: Reading, ep: nat, lastep: nat)
      requires rd.items != [] && Emitted(rd, ep, lastep)
      ensures expbuf[0] != 0
    {
      EncodeFirst(rd.items);
      assert expbuf[0] == expbuf[..ep][0];
    }

    /** The loop invariant of compile. */
    ghost predicate Compiling(rd: Reading, eof: int, ep: nat, lastep: nat, bracket: array<int>, bracketp: nat,
                              nbra: nat)
      reads this, expbuf, bracket
    {
      && Emitted(rd, ep, lastep) && eof > 0
      && bracket != expbuf && bracket.Length == NBRA && bracketp <= nbra <= NBRA
      && rd.nbra == nbra && |rd.open| == bracketp
      && (forall i :: 0 <= i < bracketp ==> bracket[i] == rd.open[i] && rd.open[i] < NBRA)
      && (rd.items == [] ==> Head(rd.s) != TIMES)
      && (rd.items != [] && rd.items[|rd.items| - 1].End? ==> Head(rd.s) == eof)
    }

    /** An escaped character: a group mark, or the character itself. */
    method CompileEscape(ghost rd: Reading, eof: int, s: seq<int>, ep: nat, ghost lastep: nat, bracket: array<int>,
                         bracketp: nat, nbra: nat)
        returns (ok: bool, ghost next: Reading, s': seq<int>, bracketp': nat, nbra': nat)
      requires Compiling(rd, eof, ep, lastep, bracket, bracketp, nbra) && ep < ESIZE
      requires rd.s == [BACKSLASH] + s && eof != BACKSLASH
      modifies expbuf, bracket
      ensures if ok then
                && ReadOne(rd, eof) == More(next) && next.s == s'
                && Compiling(next, eof, ep + 2, ep, bracket, bracketp', nbra')
              else ReadOne(rd, eof) == Fail
    {
      hide Encode, ParseMembers;
      bracketp', nbra', next := bracketp, nbra, rd;
      var c := Head(s);
      s' := Tail(s);
      assert Tail(rd.s) == s;
      assert forall i :: 0 <= i < |s'| ==> s'[i] == rd.s[if s == [] then 0 else i + 2];
      ghost var code := expbuf[..ep];
      if c == OPEN {
        if nbra >= NBRA {
          return false, next, s', bracketp', nbra';
        }
        bracket[bracketp] := nbra;
        bracketp', nbra' := bracketp + 1, nbra + 1;
        EmitTwo(ep, CBRA, nbra);
        next := Reading(s', rd.items + [Bra(nbra)], rd.open + [nbra], nbra + 1, ep + 2);
        Appended(rd, Bra(nbra), next, ep, code);
      } else if c == CLOSE {
        if bracketp == 0 {
          return false, next, s', bracketp', nbra';
        }
        bracketp' := bracketp - 1;
        EmitTwo(ep, CKET, bracket[bracketp']);
        next := Reading(s', rd.items + [Ket(rd.open[bracketp'])], rd.open[..bracketp'], nbra, ep + 2);
        Appended(rd, Ket(rd.open[bracketp']), next, ep, code);
      } else {
        if c == NEWLINE {
          return false, next, s', bracketp', nbra';
        }
        EmitTwo(ep, CCHR, c);
        next := rd.(s := s', items := rd.items + [One(Lit(c))], used := ep + 2);
        Appended(rd, One(Lit(c)), next, ep, code);
      }
      ok := true;
    }

    /** A class in its place among the items. */
    method CompileSet(ghost rd: Reading, eof: int, s: seq<int>, ep: nat, ghost lastep: nat, ghost bracket: array<int>,
                      ghost bracketp: nat, ghost nbra: nat)
        returns (ok: bool, ghost next: Reading, s': seq<int>, ep': nat)
      requires Compiling(rd, eof, ep, lastep, bracket, bracketp, nbra) && ep < ESIZE
      requires rd.s == [LBRACKET] + s && eof != LBRACKET
      modifies expbuf
      ensures if ok then
                && ReadOne(rd, eof) == More(next) && next.s == s'
                && Compiling(next, eof, ep', ep, bracket, bracketp, nbra)
              else ReadOne(rd, eof) == Fail
    {
      hide Encode, EncodeItem, WellFormed, ParseMembers;
      next := rd;
      assert Tail(rd.s) == s;
      TailNonZero(rd.s);
      ghost var code := expbuf[..ep];
      ghost var negated := Head(s) == CARET;
      ghost var t := if negated then Tail(s) else s;
      ghost var m := ParseMembers(t, [], ep + 2);
      ok, s', ep' := CompileClass(s, ep);
      if ok {
        TailNonZero(s);
        RestNonZero(t, [], ep + 2);
        next := rd.(s := s', items := rd.items + [One(Class(negated, m.members))], used := ep');
        ClassCode(negated, m.members);
        Appended(rd, One(Class(negated, m.members)), next, ep, code);
      }
    }

    lemma ClassCode(negated: bool, members: seq<int>)
      ensures WellFormed(One(Class(negated, members)))
      ensures EncodeItem(One(Class(negated, members))) == EncodeAtom(Class(negated, members), 0)
      ensures |EncodeAtom(Class(negated, members), 0)| == 2 + |members|
    {
    }

    /** One turn of the loop of compile, after the size check and the test for the delimiter. */
    method CompileOne(ghost rd: Reading, eof: int, s: seq<int>, ep: nat, lastep: nat, bracket: array<int>,
                      bracketp: nat, nbra: nat)
        returns (ok: bool, ghost next: Reading, s': seq<int>, ep': nat, lastep': nat, bracketp': nat, nbra': nat)
      requires Compiling(rd, eof, ep, lastep, bracket, bracketp, nbra) && ep < ESIZE && rd.s == s && Head(s) != eof
      modifies expbuf, bracket
      ensures if ok then
                && ReadOne(rd, eof) == More(next) && next.s == s'
                && Compiling(next, eof, ep', lastep', bracket, bracketp', nbra')
              else ReadOne(rd, eof) == Fail
      ensures !ok && Head(s) == TIMES ==> expbuf[..] == old(expbuf[..])
    {
      hide Encode, ParseMembers;
      bracketp', nbra', next := bracketp, nbra, rd;
      var c := Head(s);
      s', ep', lastep' := Tail(s), ep, lastep;
      TailNonZero(s);
      ghost var code := expbuf[..ep];
      if c != TIMES {
        lastep' := ep;
      }
      if c == BACKSLASH {
        assert s == [BACKSLASH] + s';
        ok, next, s', bracketp', nbra' := CompileEscape(rd, eof, s', ep, lastep, bracket, bracketp, nbra);
        ep' := ep + 2;
      } else if c == DOT {
        Emit(ep, CDOT);
        ep', next := ep + 1, rd.(s := s', items := rd.items + [One(Any)], used := ep + 1);
        Appended(rd, One(Any), next, ep, code);
        ok := true;
      } else if c == NEWLINE {
        ok := false;
      } else if c == TIMES {
        ok := CompileStar(rd, ep, lastep);
        if ok { next := rd.(s := s', items := StarLast(rd.items)); }
      } else if c == DOLLAR && Head(s') == eof {
        Emit(ep, CDOL);
        ep', next := ep + 1, rd.(s := s', items := rd.items + [End], used := ep + 1);
        Appended(rd, End, next, ep, code);
        ok := true;
      } else if c == LBRACKET {
        assert s == [LBRACKET] + s';
        ok, next, s', ep' := CompileSet(rd, eof, s', ep, lastep, bracket, bracketp, nbra);
      } else {
        EmitTwo(ep, CCHR, c);
        ep', next := ep + 2, rd.(s := s', items := rd.items + [One(Lit(c))], used := ep + 2);
        Appended(rd, One(Lit(c)), next, ep, code);
        ok := true;
      }
    }

    lemma TailNonZero(s: seq<int>)
      requires forall i :: 0 <= i < |s| ==> s[i] != 0
      ensures Head(s) != 0 && forall i :: 0 <= i < |Tail(s)| ==> Tail(s)[i] != 0
    {
    }

    lemma {:induction false} RestNonZero(s: seq<int>, members: seq<int>, used: nat)
      requires ParseMembers(s, members, used).GoodClass? && forall i :: 0 <= i < |s| ==> s[i] != 0
      ensures var rest := ParseMembers(s, members, used).rest; forall i :: 0 <= i < |rest| ==> rest[i] != 0
      decreases |s|, ESIZE - used
    {
      MembersStep(s, members, used);
      TailNonZero(s);
      TailNonZero(Tail(s));
      if Head(Tail(s)) != RBRACKET { RestNonZero(Tail(s), members + [Head(s)], used + 1); }
    }

    /**
     What compile made of a pattern: the code of what it stands for, or nothing if it is no pattern; an empty one
     stands for the last one compiled.
     */
    ghost predicate CompiledTo(input: seq<int>, eof: int, r: Compilation, items: seq<Item>, rest: seq<int>)
      reads this`circfl, expbuf
    {
      match r
      case Reused => Head(input) == eof && rest == Tail(input)
      case Failed => Head(input) == eof || forall items', rest' :: !IsPattern(input, eof, items', rest')
      case Compiled =>
        && Head(input) != eof && IsPattern(input, eof, items, rest) && CodeAt(0, items)
        && circfl == (Head(input) == CARET)
    }

    /**
     compile: the pattern is read up to its delimiter and its code left in expbuf. After a pattern that is not one an
     empty pattern is an error, except where a star follows a group mark: then the code emitted so far, which has no
     end, stays and stands for the empty pattern.
     */
    method Compile(input: seq<int>, eof: int) returns (r: Compilation, rest: seq<int>, ghost items: seq<Item>)
      requires Valid() && eof > 0 && forall i :: 0 <= i < |input| ==> input[i] != 0
      modifies this`circfl, expbuf
      ensures CompiledTo(input, eof, r, items, rest)
      ensures r == Reused ==> expbuf[..] == old(expbuf[..]) && circfl == old(circfl) && expbuf[0] != 0
      ensures Head(input) == eof ==> (r == Failed <==> old(expbuf[0]) == 0)
      ensures Head(input) != eof && r == Failed ==> (expbuf[0] != 0 <==> IsBadStar(input, eof))
    {
      hide Encode, ReadOne, Parse, BadStar, IsPattern, IsBadStar;
      var c := Head(input);
      rest, items := Tail(input), [];
      if c == eof {
        r := if expbuf[0] == 0 then Failed else Reused;
        return;
      }
      forall items', rest' { WrittenPattern(input, eof, items', rest'); }
      WrittenBadStar(input, eof);
      circfl := false;
      rest := input;
      TailNonZero(input);
      if c == CARET {
        rest := Tail(input);
        circfl := true;
      }
      if Head(rest) == TIMES {
        expbuf[0] := 0;
        return Failed, rest, items;
      }
      ghost var p := ParsePattern(input, eof);
      var e;
      e, rest := CompileLoop(rest, eof);
      if e == Cerror {
        expbuf[0] := 0;
      }
      r := if e == Ended then Compiled else Failed;
      items := if p.Good? then p.items else [];
    }

    method CompileLoop(s0: seq<int>, eof: int) returns (e: Ending, rest: seq<int>)
      requires Valid() && eof > 0 && Head(s0) != TIMES && forall i :: 0 <= i < |s0| ==> s0[i] != 0
      modifies expbuf
      ensures var p := Parse(Reading(s0, [], [], 0, 0), eof);
              if e == Ended then p.Good? && rest == p.rest && CodeAt(0, p.items) else p == Bad
      ensures e != Ended ==> (e == Error <==> BadStar(Reading(s0, [], [], 0, 0), eof))
      ensures e == Error ==> expbuf[0] != 0
    {
      hide ReadOne, Parse, BadStar;
      var s := s0;
      var ep: nat, lastep: nat, bracketp: nat, nbra: nat := 0, 0, 0, 0;
      var bracket := new int[NBRA];
      ghost var rd := Reading(s0, [], [], 0, 0);
      while true
        invariant Compiling(rd, eof, ep, lastep, bracket, bracketp, nbra) && rd.s == s && fresh(bracket)
        invariant Parse(rd, eof) == Parse(Reading(s0, [], [], 0, 0), eof)
        invariant BadStar(rd, eof) == BadStar(Reading(s0, [], [], 0, 0), eof)
        decreases |s|, ESIZE + 3 - ep
      {
        if ep >= ESIZE {
          SizeFails(rd, eof);
          return Cerror, s;
        }
        if Head(s) == eof {
          DelimiterFinishes(rd, eof);
          Emit(ep, CEOF);
          return Ended, Tail(s);
        }
        var b;
        var c := Head(s);
        ghost var next;
        if c == TIMES { StartsNonZero(rd, ep, lastep); }
        b, next, s, ep, lastep, bracketp, nbra := CompileOne(rd, eof, s, ep, lastep, bracket, bracketp, nbra);
        if !b {
          ParseFails(rd, eof);
          return if c == TIMES then Error else Cerror, s;
        }
        ParseMore(rd, eof, next);
        Progress(rd, eof, next);
        rd := next;
      }
    }
  }

  datatype Compilation = Reused | Failed | Compiled

  /** How the loop of compile ends: at the delimiter, at the label that clears the code, or without clearing it. */
  datatype Ending = Ended | Cerror | Error

  lemma ParseMore(rd: Reading, eof: int, next: Reading)
    requires eof != EOF && ReadOne(rd, eof) == More(next)
    ensures Parse(rd, eof) == Parse(next, eof) && BadStar(rd, eof) == BadStar(next, eof)
  {
  }

  lemma SizeFails(rd: Reading, eof: int)
    requires eof != EOF && rd.used >= ESIZE
    ensures Parse(rd, eof) == Bad && !BadStar(rd, eof)
  {
  }

  lemma DelimiterFinishes(rd: Reading, eof: int)
    requires eof != EOF && rd.used < ESIZE && Head(rd.s) == eof
    ensures Parse(rd, eof) == Good(rd.items, Tail(rd.s))
  {
  }

  lemma ParseFails(rd: Reading, eof: int)
    requires eof != EOF && ReadOne(rd, eof) == Fail
    ensures Parse(rd, eof) == Bad && (BadStar(rd, eof) <==> rd.used < ESIZE && Head(rd.s) == TIMES)
  {
  }

  lemma Progress(rd: Reading, eof: int, next: Reading)
    requires eof != EOF && ReadOne(rd, eof) == More(next)
    ensures |next.s| < |rd.s| || (|next.s| == |rd.s| && next.used > rd.used)
  {
  }

  /** The word is in the line at i. */
  ghost predicate WordAt(w: seq<int>, text: seq<int>, i: nat) { i + |w| <= |text| && text[i..i + |w|] == w }

  /**
   A search for a word without notation in it, compiled and executed, succeeds exactly on the lines that contain the
   word, and finds the first place.
   */
  method SearchWord(ed: Editor, w: seq<int>, eof: int, rest: seq<int>, text: seq<int>) returns (found: bool)
    requires ed.Valid() && IsLine(text) && IsLine(w) && IsLine(rest)
    requires PlainWord(w, eof) && 2 * |w| < ESIZE && eof > 0
    modifies ed, ed.expbuf, ed.braslist, ed.braelist
    ensures found <==> exists i: nat :: WordAt(w, text, i)
    ensures found ==> WordAt(w, text, ed.loc1) && ed.loc2 == ed.loc1 + |w|
    ensures found ==> forall i: nat :: i < ed.loc1 ==> !WordAt(w, text, i)
  {
    hide MatchesTo, MatchesAt, Encode, Greedy, Marked, IsPattern;
    var c, after; ghost var items;
    c, after, items := ed.Compile(w + [eof] + rest, eof);
    WordIs(w, eof, rest);
    assert c == Compiled && items == Letters(w);
    ghost var ps;
    found, ps := ed.Execute(false, text, items);
    forall i: nat ensures ed.Found(text, items, i) <==> WordAt(w, text, i) { WordFound(w, text, i); }
    WordMatches(w, text, ed.loc1, ed.loc2);
  }

  lemma WordFound(w: seq<int>, text: seq<int>, i: nat)
    ensures MatchesAt(Letters(w), text, i) <==> WordAt(w, text, i)
  {
    hide MatchesTo;
    forall j { WordMatches(w, text, i, j); }
    assert WordAt(w, text, i) ==> MatchesTo(Letters(w), text, i, i + |w|);
  }

  lemma WordIs(w: seq<int>, eof: int, rest: seq<int>)
    requires PlainWord(w, eof) && 2 * |w| < ESIZE && eof != EOF
    ensures IsPattern(w + [eof] + rest, eof, Letters(w), rest)
    ensures forall items, rest' :: IsPattern(w + [eof] + rest, eof, items, rest') ==> items == Letters(w)
  {
    hide ParsePattern, IsPattern;
    WordPattern(w, eof, rest);
    forall items, rest' { WrittenPattern(w + [eof] + rest, eof, items, rest'); }
  }
}
