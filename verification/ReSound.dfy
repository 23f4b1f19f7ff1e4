/** What every pattern that can be read has in common; with it the matcher can rely on its code. */
module ReSound {
  import opened CString
  import opened Pattern
  import opened ReCode
  import opened ReParse
  import opened ReMatch

  /** Groups are numbered below NPAR and opened before they are closed, runs are not empty, and the
      branches of an alternation open and close the same groups. */
  predicate Made(items: seq<Item>)
    decreases Size(items)
  {
    if items == [] then true else
      (match items[0]
       case Str(cs, _) => cs != [] && 0 !in cs
       case One(a) => !a.Lit?
       case Star(a) => a.Lit? ==> a.c != 0
       case Open(n) => n < NPAR
       case Close(n) => n < NPAR && n !in OpenSet(items[1..])
       case Alt(bs) =>
         assert SizeItem(items[0]) == 1 + SizeBranches(bs);
         MadeB(bs, OpenSetB(bs), CloseSetB(bs)) && CloseSetB(bs) !! OpenSet(items[1..])
       case _ => true) && Made(items[1..])
  }

  predicate MadeB(bs: Branches, opens: set<nat>, closes: set<nat>)
    decreases SizeBranches(bs)
  {
    match bs
    case NoMore => true
    case Or(first, rest) => Made(first) && OpenSet(first) == opens && CloseSet(first) == closes && MadeB(rest, opens, closes)
  }

  /** No back-references, and counts that fit a signed byte. */
  predicate Modest(items: seq<Item>)
    decreases Size(items)
  {
    if items == [] then true else
      (match items[0]
       case Str(cs, _) => |cs| <= 127
       case One(a) => !a.Back?
       case Star(a) => !a.Back?
       case Alt(bs) => assert SizeItem(items[0]) == 1 + SizeBranches(bs); Count(bs) <= 127 && ModestB(bs)
       case _ => true) && Modest(items[1..])
  }

  predicate ModestB(bs: Branches)
    decreases SizeBranches(bs)
  {
    match bs
    case NoMore => true
    case Or(first, rest) => Modest(first) && ModestB(rest)
  }

  lemma {:induction false} MadeSound(items: seq<Item>)
    requires Made(items) && Modest(items) && |Code(items)| < 65536
    ensures Sound(items)
    decreases Size(items)
  {
    if items != [] {
      MadeSound(items[1..]);
      if items[0].Alt? {
        var bs := items[0].branches;
        assert SizeItem(items[0]) == 1 + SizeBranches(bs);
        MadeSoundB(bs, OpenSetB(bs), CloseSetB(bs));
      }
    }
  }

  lemma {:induction false} MadeSoundB(bs: Branches, opens: set<nat>, closes: set<nat>)
    requires MadeB(bs, opens, closes) && ModestB(bs) && |BranchesCode(bs)| < 65536
    ensures SoundB(bs, opens, closes)
    decreases SizeBranches(bs)
  {
    if bs.Or? {
      MadeSound(bs.first);
      MadeSoundB(bs.rest, opens, closes);
    }
  }

  lemma {:induction false} MadeAppend(a: seq<Item>, b: seq<Item>)
    ensures Made(a + b) <==> Made(a) && Made(b) && CloseSet(a) !! OpenSet(b)
    ensures OpenSet(a + b) == OpenSet(a) + OpenSet(b) && CloseSet(a + b) == CloseSet(a) + CloseSet(b)
    decreases |a|
  {
    if a == [] {
      assert a + b == b;
    } else {
      assert (a + b)[1..] == a[1..] + b && (a + b)[0] == a[0];
      MadeAppend(a[1..], b);
    }
  }

  lemma MadeOne(it: Item)
    ensures OpenSet([it]) == match it case Open(n) => {n} case Alt(bs) => OpenSetB(bs) case _ => {}
    ensures CloseSet([it]) == match it case Close(n) => {n} case Alt(bs) => CloseSetB(bs) case _ => {}
    ensures Made([it]) == match it
                          case Str(cs, _) => cs != [] && 0 !in cs
                          case One(a) => !a.Lit?
                          case Star(a) => a.Lit? ==> a.c != 0
                          case Open(n) => n < NPAR
                          case Close(n) => n < NPAR
                          case Alt(bs) => MadeB(bs, OpenSetB(bs), CloseSetB(bs))
                          case _ => true
  {
    assert [it][1..] == [];
    if it.Alt? { assert SizeItem([it][0]) == 1 + SizeBranches(it.branches); }
  }

  function Elems(s: seq<nat>): set<nat> { set x | x in s }

  /** The numbers from `lo` up to but not `hi`. */
  function Groups(lo: nat, hi: nat): (r: set<nat>)
    ensures forall x :: x in r <==> lo <= x < hi
    decreases hi - lo
  {
    if lo >= hi then {} else {lo} + Groups(lo + 1, hi)
  }

  /** The items `items` open the groups from `init` on, and close them but for `open`. */
  ghost predicate Balanced(items: seq<Item>, open: seq<nat>, init: nat, nparens: nat) {
    && Made(items) && init <= nparens <= NPAR && OpenSet(items) == Groups(init, nparens)
    && CloseSet(items) + Elems(open) == OpenSet(items)
  }

  /** Alternatives or branches that all open and close the same groups. */
  ghost predicate AllSame(bl: seq<seq<Item>>, groups: set<nat>) {
    forall k :: 0 <= k < |bl| ==> Made(bl[k]) && OpenSet(bl[k]) == CloseSet(bl[k]) == groups
  }

  /** What holds of every state of reading a level that started with group number `init`. */
  ghost predicate Inv(kind: Kind, st: St, init: nat) {
    && Balanced(st.items, st.open, init, st.nparens)
    && if kind.IN_CB? then st.done == [] && st.omax == -1
       else init == 0 && if st.done == [] then st.omax == -1 else st.omax >= 0 && AllSame(st.done, Groups(0, st.omax))
  }

  lemma AddKeeps(items: seq<Item>, it: Item, open: seq<nat>, init: nat, nparens: nat)
    requires Balanced(items, open, init, nparens) && Made([it]) && !it.Alt? && !it.Open? && !it.Close?
    ensures Balanced(items + [it], open, init, nparens)
  {
    MadeAppend(items, [it]);
    MadeOne(it);
  }

  /** The last item may be replaced by others that have nothing to do with groups. */
  lemma ReplaceKeeps(items: seq<Item>, more: seq<Item>, open: seq<nat>, init: nat, nparens: nat)
    requires Balanced(items, open, init, nparens) && items != [] && Made(more)
    requires OpenSet([items[|items| - 1]]) == CloseSet([items[|items| - 1]]) == OpenSet(more) == CloseSet(more) == {}
    ensures Balanced(items[..|items| - 1] + more, open, init, nparens)
    ensures Made([items[|items| - 1]])
  {
    var n := |items| - 1;
    assert items == items[..n] + [items[n]];
    MadeAppend(items[..n], [items[n]]);
    MadeAppend(items[..n], more);
  }

  lemma LastMade(items: seq<Item>)
    requires Made(items) && items != []
    ensures Made([items[|items| - 1]])
  {
    var n := |items| - 1;
    assert items == items[..n] + [items[n]];
    MadeAppend(items[..n], [items[n]]);
  }

  lemma LitKeeps(items: seq<Item>, c: Ch, folded: bool, open: seq<nat>, init: nat, nparens: nat)
    requires Balanced(items, open, init, nparens) && c != 0
    ensures Balanced(LitItems(items, c, folded), open, init, nparens)
  {
    hide Balanced;
    var n := |items| - 1;
    if items != [] && items[n].Str? {
      var it := Str(items[n].cs + [c], items[n].folded);
      assert Made(items) by { BalancedMade(items, open, init, nparens); }
      LastMade(items);
      MadeOne(items[n]);
      MadeOne(it);
      ReplaceKeeps(items, [it], open, init, nparens);
    } else {
      MadeOne(Str([c], folded));
      AddKeeps(items, Str([c], folded), open, init, nparens);
    }
  }

  lemma BalancedMade(items: seq<Item>, open: seq<nat>, init: nat, nparens: nat)
    requires Balanced(items, open, init, nparens)
    ensures Made(items)
  {}

  lemma StarKeeps(items: seq<Item>, folded: bool, open: seq<nat>, init: nat, nparens: nat)
    requires Balanced(items, open, init, nparens)
    ensures Balanced(StarItems(items, folded), open, init, nparens)
  {
    hide Balanced;
    var n := |items| - 1;
    if items == [] || !(items[n].One? || items[n].Str?) {
      LitKeeps(items, ASTERISK, folded, open, init, nparens);
    } else {
      assert Made(items) by { BalancedMade(items, open, init, nparens); }
      LastMade(items);
      MadeOne(items[n]);
      if items[n].One? {
        MadeOne(Star(items[n].a));
        ReplaceKeeps(items, [Star(items[n].a)], open, init, nparens);
      } else {
        var cs := items[n].cs;
        var star := Star(Lit(cs[|cs| - 1], items[n].folded));
        MadeOne(star);
        if LowByte(|cs|) == 1 {
          ReplaceKeeps(items, [star], open, init, nparens);
        } else {
          var run := Str(cs[..|cs| - 1], items[n].folded);
          MadeOne(run);
          assert 0 !in cs[..|cs| - 1];
          MadeAppend([run], [star]);
          assert [run] + [star] == [run, star];
          ReplaceKeeps(items, [run, star], open, init, nparens);
        }
      }
    }
  }

  lemma OpenKeeps(items: seq<Item>, open: seq<nat>, init: nat, n: nat)
    requires Balanced(items, open, init, n) && n < NPAR
    ensures Balanced(items + [Open(n)], open + [n], init, n + 1)
  {
    hide Made, OpenSet, CloseSet;
    MadeAppend(items, [Open(n)]);
    MadeOne(Open(n));
    assert Elems(open + [n]) == Elems(open) + {n};
    assert Groups(init, n + 1) == Groups(init, n) + {n};
  }

  lemma CloseKeeps(items: seq<Item>, open: seq<nat>, init: nat, nparens: nat)
    requires Balanced(items, open, init, nparens) && open != []
    ensures Balanced(items + [Close(open[|open| - 1])], open[..|open| - 1], init, nparens)
  {
    var k := |open| - 1;
    var n := open[k];
    MadeAppend(items, [Close(n)]);
    MadeOne(Close(n));
    assert n in Elems(open) && n in OpenSet(items);
    assert open == open[..k] + [n];
    assert Elems(open) == Elems(open[..k]) + {n};
  }

  lemma AltKeeps(items: seq<Item>, bs: Branches, open: seq<nat>, init: nat, n: nat, n': nat)
    requires Balanced(items, open, init, n) && n <= n' <= NPAR
    requires MadeB(bs, Groups(n, n'), Groups(n, n')) && OpenSetB(bs) == CloseSetB(bs) == Groups(n, n')
    ensures Balanced(items + [Alt(bs)], open, init, n')
  {
    MadeAppend(items, [Alt(bs)]);
    MadeOne(Alt(bs));
    assert Groups(init, n') == Groups(init, n) + Groups(n, n');
  }

  /** What the end of a level guarantees. */
  ghost predicate Ends(o: Outcome, kind: Kind, init: nat) {
    o.Parsed? ==>
      && init <= o.nparens <= NPAR && AllSame(o.alts, Groups(init, o.nparens)) && o.alts != []
      && (kind.IN_CB? ==> |o.alts| == 1)
  }

  lemma EndKeeps(st: St, kind: Kind, rest: seq<Ch>, closed: bool, eof: bool, init: nat)
    requires Inv(kind, st, init)
    ensures Ends(EndLevel(st, kind, rest, closed, eof), kind, init)
  {
    if !kind.IN_CB? && |st.open| == 1 {
      CloseKeeps(st.items, st.open, init, st.nparens);
    }
    if kind.IN_CB? && st.open == [] {
      assert [st.items][0] == st.items;
    }
  }

  lemma EscapeKeeps(s: seq<Ch>, kind: Kind, folded: bool, st: St, init: nat)
    requires Inv(kind, st, init) && 0 !in s
    ensures EscapeStep(s, kind, folded, st).Go? ==> Inv(kind, EscapeStep(s, kind, folded, st).st, init)
    ensures EscapeStep(s, kind, folded, st).Stop? ==> Ends(EscapeStep(s, kind, folded, st).o, kind, init)
    ensures EscapeStep(s, kind, folded, st).Curly? ==> EscapeStep(s, kind, folded, st).rest == s[1..]
    ensures EscapeStep(s, kind, folded, st).Go? ==> EscapeStep(s, kind, folded, st).rest == s[1..]
    ensures EscapeStep(s, kind, folded, st).Stop? && EscapeStep(s, kind, folded, st).o.Parsed? ==> EscapeStep(s, kind, folded, st).o.rest == s[1..]
  {
    hide Balanced;
    if s != [] {
      var d, t := s[0], s[1..];
      if d == LBRACE {
      } else if d == RBRACE {
        EndKeeps(st, kind, t, true, false, init);
      } else if d == LPAREN {
        if st.nparens < NPAR { OpenKeeps(st.items, st.open, init, st.nparens); }
      } else if d == RPAREN {
        if st.open != [] { CloseKeeps(st.items, st.open, init, st.nparens); }
      } else if d == BAR {
        EndKeeps(st, kind, t, false, false, init);
        if !kind.IN_CB? { NextKeeps(st, kind); }
      } else if DIGIT0 < d <= DIGIT0 + 9 {
        MadeOne(One(Back(d - DIGIT0)));
        AddKeeps(st.items, One(Back(d - DIGIT0)), st.open, init, st.nparens);
      } else if d == LESS {
        MadeOne(Bow);
        AddKeeps(st.items, Bow, st.open, init, st.nparens);
      } else if d == GREATER {
        MadeOne(Eow);
        AddKeeps(st.items, Eow, st.open, init, st.nparens);
      } else {
        LitKeeps(st.items, d, folded, st.open, init, st.nparens);
      }
    }
  }

  lemma NextKeeps(st: St, kind: Kind)
    requires !kind.IN_CB? && Inv(kind, st, 0)
    ensures NextAlternative(st).1 ==> Inv(kind, NextAlternative(st).2, 0)
  {
    if |st.open| == 1 {
      CloseKeeps(st.items, st.open, 0, st.nparens);
      StartKeeps(kind, 0);
    }
  }

  lemma StartKeeps(kind: Kind, init: nat)
    requires init <= NPAR && (!kind.IN_CB? ==> init == 0)
    ensures Inv(kind, Start(kind, init), init)
  {
    MadeOne(Open(0));
  }

  lemma StepKeeps(s: seq<Ch>, kind: Kind, folded: bool, st: St, init: nat)
    requires Inv(kind, st, init) && s != [] && 0 !in s
    ensures OneStep(s, kind, folded, st).Go? ==> Inv(kind, OneStep(s, kind, folded, st).st, init)
    ensures OneStep(s, kind, folded, st).Stop? ==> Ends(OneStep(s, kind, folded, st).o, kind, init)
    ensures OneStep(s, kind, folded, st).Go? || OneStep(s, kind, folded, st).Curly? ==> 0 !in OneStep(s, kind, folded, st).rest
    ensures OneStep(s, kind, folded, st).Stop? && OneStep(s, kind, folded, st).o.Parsed? ==> 0 !in OneStep(s, kind, folded, st).o.rest
  {
    hide Balanced, EscapeStep, Made, ReadSet, LitItems, StarItems, Ends;
    var c, t := s[0], s[1..];
    assert forall x :: x in t ==> x in s;
    EscapeKeeps(t, kind, folded, st, init);
    if c != BACKSLASH {
      LitKeeps(st.items, c, folded, st.open, init, st.nparens);
      StarKeeps(st.items, folded, st.open, init, st.nparens);
      BadEnds(kind, init);
      AddNew(st, init, Bol);
      AddNew(st, init, Eol);
      AddNew(st, init, One(Any));
      SetRest(t);
      var r := ReadSet(t);
      if r.SetOk? { AddNew(st, init, One(In(r.m, r.neg))); }
    }
  }

  lemma BadEnds(kind: Kind, init: nat)
    ensures Ends(Bad(MissingBracket), kind, init)
  {}

  lemma AddNew(st: St, init: nat, it: Item)
    requires Balanced(st.items, st.open, init, st.nparens) && (it.Bol? || it.Eol? || (it.One? && (it.a.Any? || it.a.In?)))
    ensures Balanced(AddItem(st, it).items, AddItem(st, it).open, init, AddItem(st, it).nparens)
  {
    MadeOne(it);
    AddKeeps(st.items, it, st.open, init, st.nparens);
  }

  lemma SetRest(s: seq<Ch>)
    ensures ReadSet(s).SetOk? ==> forall x :: x in ReadSet(s).rest ==> x in s
  {
    var (c, s1) := Next(s);
    MembersRest(false, c, s1, {});
    if c == CARET {
      var (d, s2) := Next(s1);
      MembersRest(true, d, s2, {});
    }
  }

  lemma {:induction false} MembersRest(neg: bool, c: int, s: seq<Ch>, m: set<Ch>)
    requires -1 <= c < 256
    ensures SetMembers(neg, c, s, m).SetOk? ==> forall x :: x in SetMembers(neg, c, s, m).rest ==> x in s
    decreases |s|, if c == -1 then 0 else 1
  {
    hide Range;
    var r := OneMember(c, s, m);
    if r.MemberOk? {
      MemberRest(c, s, m);
      if r.c != RBRACKET { MembersRest(neg, r.c, r.rest, r.m); }
    }
  }

  lemma MemberRest(c: int, s: seq<Ch>, m: set<Ch>)
    requires -1 <= c < 256
    ensures OneMember(c, s, m).MemberOk? ==> forall x :: x in OneMember(c, s, m).rest ==> x in s
  {
    hide Range;
  }

  /** Whatever can be read is made so. */
  lemma {:induction false} ParseMade(s: seq<Ch>, kind: Kind, folded: bool, st: St, init: nat)
    requires Inv(kind, st, init) && 0 !in s
    ensures Ends(ParseSeq(s, kind, folded, st), kind, init)
    ensures ParseSeq(s, kind, folded, st).Parsed? ==> 0 !in ParseSeq(s, kind, folded, st).rest
    decreases |s|, 0
  {
    hide Balanced, OneStep, Ends, Made, EndLevel;
    if s == [] {
      EndKeeps(st, kind, [], false, true, init);
      EndRest(st, kind, [], false, true);
    } else {
      StepKeeps(s, kind, folded, st, init);
      StepShrinks(s, kind, folded, st);
      var step := OneStep(s, kind, folded, st);
      if step.Go? {
        ParseMade(step.rest, kind, folded, step.st, init);
      } else if step.Curly? {
        InvParens(kind, st, init);
        BranchesMade(step.rest, folded, st.nparens, -1, []);
        var b := ParseBranches(step.rest, folded, st.nparens, -1, []);
        if b.BBad? {
          BadEndsAll(b.e, kind, init);
        } else {
          AltInv(kind, st, init, b);
          ParseMade(b.rest, kind, folded, AddItem(st, Alt(ToBranches(b.all))).(nparens := b.nparens), init);
        }
      }
    }
  }

  lemma EndRest(st: St, kind: Kind, rest: seq<Ch>, closed: bool, eof: bool)
    ensures EndLevel(st, kind, rest, closed, eof).Parsed? ==> EndLevel(st, kind, rest, closed, eof).rest == rest
  {}

  lemma StepShrinks(s: seq<Ch>, kind: Kind, folded: bool, st: St)
    requires s != []
    ensures !OneStep(s, kind, folded, st).Stop? ==> |OneStep(s, kind, folded, st).rest| < |s|
  {}

  lemma InvParens(kind: Kind, st: St, init: nat)
    requires Inv(kind, st, init)
    ensures st.nparens <= NPAR
  {}

  lemma BadEndsAll(e: Complaint, kind: Kind, init: nat)
    ensures Ends(Bad(e), kind, init)
  {}

  lemma AltInv(kind: Kind, st: St, init: nat, b: BOutcome)
    requires Inv(kind, st, init) && b.BParsed? && BranchesEnd(b, st.nparens)
    ensures Inv(kind, AddItem(st, Alt(ToBranches(b.all))).(nparens := b.nparens), init)
  {
    hide Balanced;
    ToBranchesMade(b.all, Groups(st.nparens, b.nparens));
    AltKeeps(st.items, ToBranches(b.all), st.open, init, st.nparens, b.nparens);
  }

  ghost predicate BranchesEnd(b: BOutcome, init: nat) {
    b.BParsed? ==> b.all != [] && init <= b.nparens <= NPAR && AllSame(b.all, Groups(init, b.nparens))
  }

  lemma {:induction false} ToBranchesMade(bl: seq<seq<Item>>, groups: set<nat>)
    requires AllSame(bl, groups)
    ensures MadeB(ToBranches(bl), groups, groups)
    ensures OpenSetB(ToBranches(bl)) == CloseSetB(ToBranches(bl)) == if bl == [] then {} else groups
    decreases |bl|
  {
    if bl != [] { ToBranchesMade(bl[1..], groups); }
  }

  lemma {:induction false} BranchesMade(s: seq<Ch>, folded: bool, init: nat, max: int, acc: seq<seq<Item>>)
    requires 0 !in s && init <= NPAR && (if max == -1 then acc == [] else max >= init && AllSame(acc, Groups(init, max)))
    ensures BranchesEnd(ParseBranches(s, folded, init, max, acc), init)
    ensures ParseBranches(s, folded, init, max, acc).BParsed? ==>
      0 !in ParseBranches(s, folded, init, max, acc).rest && |ParseBranches(s, folded, init, max, acc).rest| < |s|
    decreases |s|, 1
  {
    hide Balanced, Made, ParseSeq;
    StartKeeps(IN_CB, init);
    ParseMade(s, IN_CB, folded, Start(IN_CB, init), init);
    SeqShrinks(s, folded, Start(IN_CB, init));
    var o := ParseSeq(s, IN_CB, folded, Start(IN_CB, init));
    if o.Parsed? && (max == -1 || max == o.nparens) {
      assert AllSame(acc + o.alts, Groups(init, o.nparens));
      if !o.closed { BranchesMade(o.rest, folded, init, o.nparens, acc + o.alts); }
    }
  }

  lemma SeqShrinks(s: seq<Ch>, folded: bool, st: St)
    ensures ParseSeq(s, IN_CB, folded, st).Parsed? ==> |ParseSeq(s, IN_CB, folded, st).rest| < |s|
  {}

  /** The alternatives of a pattern all have the same groups, from 0 on. */
  lemma ParsedGroups(s: seq<Ch>, re: bool, folded: bool)
    requires 0 !in s && Parse(s, re, folded).Parsed?
    ensures var o := Parse(s, re, folded); o.alts != [] && o.nparens <= NPAR && AllSame(o.alts, Groups(0, o.nparens))
  {
    hide Balanced, Made, ParseSeq;
    var kind := if re then OKAY_RE else NORM;
    StartKeeps(kind, 0);
    ParseMade(s, kind, folded, Start(kind, 0), 0);
  }

  /** A pattern that can be read, whose alternatives are modest and whose code is not huge, is one
      that the matcher can rely on. */
  lemma ParsedSound(s: seq<Ch>, re: bool, folded: bool, k: nat)
    requires 0 !in s && Parse(s, re, folded).Parsed? && k < |Parse(s, re, folded).alts|
    requires var items := Parse(s, re, folded).alts[k]; Modest(items) && |Code(items)| < 65536
    ensures Sound(Parse(s, re, folded).alts[k])
  {
    hide Balanced, Made, Modest, Sound, ParseSeq;
    var kind := if re then OKAY_RE else NORM;
    ParsedGroups(s, re, folded);
    MadeSound(Parse(s, re, folded).alts[k]);
  }

  /** What a match notes lies between its ends. */
  ghost predicate Within(f: Found, i: nat) {
    f.Found? ==>
      && i <= f.end
      && (forall g :: g in f.opens ==> i <= f.opens[g] <= f.end) && (forall g :: g in f.closes ==> i <= f.closes[g] <= f.end)
  }

  /** The groups noted are these, and none ends before it starts. */
  ghost predicate Ordered(f: Found, opens: set<nat>, closes: set<nat>) {
    f.Found? ==>
      && f.opens.Keys == opens && f.closes.Keys == closes
      && forall g :: g in f.opens && g in f.closes ==> f.opens[g] <= f.closes[g]
  }

  lemma {:induction false} MatchGroups(t: Text, items: seq<Item>, i: nat)
    ensures Within(Match(t, items, i), i)
    ensures Made(items) ==> Ordered(Match(t, items, i), OpenSet(items), CloseSet(items))
    decreases Size(items), 1
  {
    if items != [] && Match(t, items, i).Found? {
      var tail := items[1..];
      if items[0].Open? {
        OpenGroups(t, items, i);
        MatchGroups(t, tail, i);
        hide *;
        OpenNote(Match(t, tail, i), items[0].n, i, OpenSet(tail), CloseSet(tail), Made(items));
      } else if items[0].Close? {
        CloseGroups(t, items, i);
        MatchGroups(t, tail, i);
        hide *;
        CloseNote(Match(t, tail, i), items[0].n, i, OpenSet(tail), CloseSet(tail), Made(items));
      } else if items[0].Alt? {
        CurlyGroups(t, items, i);
      } else {
        var w := PlainGroups(t, items, i);
        MatchGroups(t, tail, i + w);
        hide *;
        NoNotes(t, tail, i, i + w);
      }
    }
  }

  lemma OpenGroups(t: Text, items: seq<Item>, i: nat)
    requires items != [] && items[0].Open?
    ensures var n, tail := items[0].n, items[1..];
      && Match(t, items, i) == After(map[n := i], map[], Match(t, tail, i)) && Size(tail) < Size(items)
      && OpenSet(items) == {n} + OpenSet(tail) && CloseSet(items) == CloseSet(tail) && (Made(items) ==> Made(tail))
  {
    MatchHead(t, items, i);
    GroupsHead(items);
    hide *;
  }

  lemma CloseGroups(t: Text, items: seq<Item>, i: nat)
    requires items != [] && items[0].Close?
    ensures var n, tail := items[0].n, items[1..];
      && Match(t, items, i) == After(map[], map[n := i], Match(t, tail, i)) && Size(tail) < Size(items)
      && OpenSet(items) == OpenSet(tail) && CloseSet(items) == {n} + CloseSet(tail)
      && (Made(items) ==> Made(tail) && n !in OpenSet(tail))
  {
    MatchHead(t, items, i);
    GroupsHead(items);
    hide *;
  }

  /** An item without groups takes `w` characters. */
  lemma PlainGroups(t: Text, items: seq<Item>, i: nat) returns (w: nat)
    requires items != [] && !items[0].Open? && !items[0].Close? && !items[0].Alt? && Match(t, items, i).Found?
    ensures Match(t, items, i) == Match(t, items[1..], i + w) && Size(items[1..]) < Size(items)
    ensures OpenSet(items) == OpenSet(items[1..]) && CloseSet(items) == CloseSet(items[1..]) && (Made(items) ==> Made(items[1..]))
  {
    MatchHead(t, items, i);
    GroupsHead(items);
    hide Match, Made, OpenSet, CloseSet;
    w := match items[0] case Str(cs, _) => |cs| case One(_) => 1 case _ => 0;
    if items[0].Star? { w := StarSound(t, items[1..], i, Span(t, items[0].a, i)); }
  }

  lemma {:induction false} CurlyGroups(t: Text, items: seq<Item>, i: nat)
    requires items != [] && items[0].Alt? && Match(t, items, i).Found?
    ensures Within(Match(t, items, i), i)
    ensures Made(items) ==> Ordered(Match(t, items, i), OpenSet(items), CloseSet(items))
    decreases Size(items), 0
  {
    MatchHead(t, items, i);
    GroupsHead(items);
    hide Match, MatchFirst, Made, OpenSet, CloseSet, Within, Ordered;
    var tail, bs := items[1..], items[0].branches;
    var f := MatchFirst(t, bs, i);
    FirstGroups(t, bs, i, OpenSetB(bs), CloseSetB(bs));
    MatchGroups(t, tail, f.end);
    JoinNotes(f, Match(t, tail, f.end), i, OpenSetB(bs), CloseSetB(bs), OpenSet(tail), CloseSet(tail), Made(items));
  }

  lemma GroupsHead(items: seq<Item>)
    requires items != []
    ensures Size(items[1..]) < Size(items) && (items[0].Alt? ==> SizeBranches(items[0].branches) < Size(items))
    ensures OpenSet(items) == (match items[0] case Open(n) => {n} case Alt(bs) => OpenSetB(bs) case _ => {}) + OpenSet(items[1..])
    ensures CloseSet(items) == (match items[0] case Close(n) => {n} case Alt(bs) => CloseSetB(bs) case _ => {}) + CloseSet(items[1..])
    ensures Made(items) ==> Made(items[1..])
    ensures Made(items) && items[0].Close? ==> items[0].n !in OpenSet(items[1..])
    ensures Made(items) && items[0].Alt? ==>
      var bs := items[0].branches; MadeB(bs, OpenSetB(bs), CloseSetB(bs)) && CloseSetB(bs) !! OpenSet(items[1..])
  {
    if items[0].Alt? { assert SizeItem(items[0]) == 1 + SizeBranches(items[0].branches); }
  }

  lemma NoNotes(t: Text, items: seq<Item>, i: nat, j: nat)
    requires i <= j && Within(Match(t, items, j), j)
    ensures Within(Match(t, items, j), i)
  {
    hide Match;
  }

  lemma OpenNote(f: Found, n: nat, i: nat, opens: set<nat>, closes: set<nat>, made: bool)
    requires Within(f, i) && (made ==> Ordered(f, opens, closes))
    ensures Within(After(map[n := i], map[], f), i)
    ensures made ==> Ordered(After(map[n := i], map[], f), {n} + opens, closes)
  {}

  lemma CloseNote(f: Found, n: nat, i: nat, opens: set<nat>, closes: set<nat>, made: bool)
    requires Within(f, i) && (made ==> n !in opens && Ordered(f, opens, closes))
    ensures Within(After(map[], map[n := i], f), i)
    ensures made ==> Ordered(After(map[], map[n := i], f), opens, {n} + closes)
  {}

  lemma JoinNotes(f: Found, g: Found, i: nat, opens: set<nat>, closes: set<nat>, opens': set<nat>, closes': set<nat>, made: bool)
    requires f.Found? && Within(f, i) && Within(g, f.end)
    requires made ==> Ordered(f, opens, closes) && Ordered(g, opens', closes') && closes !! opens'
    ensures Within(After(f.opens, f.closes, g), i)
    ensures made ==> Ordered(After(f.opens, f.closes, g), opens + opens', closes + closes')
  {}

  lemma {:induction false} FirstGroups(t: Text, bs: Branches, i: nat, opens: set<nat>, closes: set<nat>)
    ensures Within(MatchFirst(t, bs, i), i)
    ensures MadeB(bs, opens, closes) ==> Ordered(MatchFirst(t, bs, i), opens, closes)
    decreases SizeBranches(bs), 0
  {
    if bs.Or? {
      MatchGroups(t, bs.first, i);
      FirstGroups(t, bs.rest, i, opens, closes);
    }
  }
}
