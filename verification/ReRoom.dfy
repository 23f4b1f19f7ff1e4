/** How much of a pattern the buffer for its code takes: how compiling ends, as a function of the pattern. */
module ReRoom {
  import opened CString
  import opened Pattern
  import opened ReCode
  import opened ReParse

  const COMPSIZE := 512

  /** Where the compiler starts to complain that a pattern is too long. */
  const COMPEND := COMPSIZE - 6

  /** How compiling ends.  `Overrun`: code would be written behind the end of the buffer. */
  datatype Status = Done | Complained(e: Complaint) | TooBig | Overrun

  /** The code of alternatives, each with the end of a pattern behind it. */
  function Total(alts: seq<seq<Item>>): nat {
    if alts == [] then 0 else Total(alts[..|alts| - 1]) + |Code(alts[|alts| - 1])| + 1
  }

  /** Where the code of a level that starts at `start` ends. */
  function Ptr(cur: St, start: nat): nat {
    start + Total(cur.done) + |Code(cur.items)|
  }

  function Verdict(o: Outcome): Status {
    if o.Bad? then Complained(o.e) else Done
  }

  /** There is no room for a set that starts at `ptr`. */
  predicate SetTooBig(s: seq<Ch>, kind: Kind, ptr: nat)
    requires s != []
  {
    s[0] == LBRACKET && !kind.NORM? && ptr + 1 + SETSIZE >= COMPEND
  }

  /** There is no room for another element. */
  predicate Cramped(s: seq<Ch>, kind: Kind, ptr: nat) {
    s != [] && (ptr > COMPEND || SetTooBig(s, kind, ptr))
  }

  /** How compiling the rest of a level ends. */
  function Fate(s: seq<Ch>, kind: Kind, folded: bool, cur: St, start: nat): Status
    decreases |s|, 0
  {
    var ptr := Ptr(cur, start);
    if s == [] then
      if !kind.IN_CB? && ptr + 3 > COMPSIZE then Overrun else Verdict(EndLevel(cur, kind, [], false, true))
    else if Cramped(s, kind, ptr) then TooBig
    else
      match OneStep(s, kind, folded, cur)
      case Stop(o) => Verdict(o)
      case Go(rest, cur1) => Fate(rest, kind, folded, cur1, start)
      case Curly(rest) =>
        var st := BranchesFate(rest, folded, cur.nparens, -1, ptr + 2);
        var b := ParseBranches(rest, folded, cur.nparens, -1, []);
        if st != Done then st
        else if b.BBad? then Complained(b.e)
        else Fate(b.rest, kind, folded, WithAlt(cur, b), start)
  }

  function BranchesFate(s: seq<Ch>, folded: bool, init: nat, max: int, ptr: nat): Status
    decreases |s|, 1
  {
    var st := Fate(s, IN_CB, folded, Start(IN_CB, init), ptr + ALT_LEN_LEN);
    var o := ParseSeq(s, IN_CB, folded, Start(IN_CB, init));
    if st != Done then st
    else if o.Bad? then Complained(o.e)
    else if max != -1 && max != o.nparens then Complained(UnequalParens)
    else if o.closed then Done
    else BranchesFate(o.rest, folded, init, o.nparens, ptr + ALT_LEN_LEN + Total(o.alts))
  }

  /** How compiling a whole pattern ends. */
  function PatternFate(s: seq<Ch>, re: bool, folded: bool): Status {
    var kind := if re then OKAY_RE else NORM;
    Fate(s, kind, folded, Start(kind, 0), 0)
  }

  /** One turn of Fate. */
  lemma FateStep(s: seq<Ch>, kind: Kind, folded: bool, cur: St, start: nat)
    ensures s == [] ==>
      Fate(s, kind, folded, cur, start) == if !kind.IN_CB? && Ptr(cur, start) + 3 > COMPSIZE then Overrun else Verdict(EndLevel(cur, kind, [], false, true))
    ensures Cramped(s, kind, Ptr(cur, start)) ==> Fate(s, kind, folded, cur, start) == TooBig
    ensures s != [] && !Cramped(s, kind, Ptr(cur, start)) ==>
      Fate(s, kind, folded, cur, start) == StepFate(OneStep(s, kind, folded, cur), kind, folded, cur, start)
    ensures s != [] && !OneStep(s, kind, folded, cur).Stop? ==> |OneStep(s, kind, folded, cur).rest| < |s|
  {}

  /** One turn of BranchesFate. */
  lemma BranchesFateStep(s: seq<Ch>, folded: bool, init: nat, max: int, ptr: nat)
    ensures var st := Fate(s, IN_CB, folded, Start(IN_CB, init), ptr + ALT_LEN_LEN);
      var o := ParseSeq(s, IN_CB, folded, Start(IN_CB, init));
      BranchesFate(s, folded, init, max, ptr) ==
        if st != Done then st
        else if o.Bad? then Complained(o.e)
        else if max != -1 && max != o.nparens then Complained(UnequalParens)
        else if o.closed then Done
        else BranchesFate(o.rest, folded, init, o.nparens, ptr + ALT_LEN_LEN + Total(o.alts))
  {
    hide Fate, ParseSeq, Total;
  }

  /** How compiling a level ends when `step` comes next. */
  function StepFate(step: Step, kind: Kind, folded: bool, cur: St, start: nat): Status {
    match step
    case Stop(o) => Verdict(o)
    case Go(rest, cur1) => Fate(rest, kind, folded, cur1, start)
    case Curly(rest) => CurlyFate(rest, kind, folded, cur, start)
  }

  /** The rest of a level from the branches of an alternation on. */
  function CurlyFate(s: seq<Ch>, kind: Kind, folded: bool, cur: St, start: nat): Status {
    var st := BranchesFate(s, folded, cur.nparens, -1, Ptr(cur, start) + 2);
    var b := ParseBranches(s, folded, cur.nparens, -1, []);
    if st != Done then st
    else if b.BBad? then Complained(b.e)
    else Fate(b.rest, kind, folded, WithAlt(cur, b), start)
  }

  /** What a level is when the branches of an alternation come next. */
  function AfterCurly(s: seq<Ch>, kind: Kind, folded: bool, st: St): Outcome {
    var b := ParseBranches(s, folded, st.nparens, -1, []);
    if b.BBad? then Bad(b.e) else ParseSeq(b.rest, kind, folded, WithAlt(st, b))
  }

  /** One turn of ParseSeq. */
  lemma ParseStep(s: seq<Ch>, kind: Kind, folded: bool, st: St)
    ensures s == [] ==> ParseSeq(s, kind, folded, st) == EndLevel(st, kind, [], false, true)
    ensures s != [] && s[0] == BACKSLASH ==> OneStep(s, kind, folded, st) == EscapeStep(s[1..], kind, folded, st)
    ensures s != [] && s[0] == BACKSLASH && |s| > 1 && s[1] == LBRACE ==> OneStep(s, kind, folded, st) == Step.Curly(s[2..])
    ensures s != [] && OneStep(s, kind, folded, st).Stop? ==> ParseSeq(s, kind, folded, st) == OneStep(s, kind, folded, st).o
    ensures s != [] && OneStep(s, kind, folded, st).Go? ==>
      ParseSeq(s, kind, folded, st) == ParseSeq(OneStep(s, kind, folded, st).rest, kind, folded, OneStep(s, kind, folded, st).st)
    ensures s != [] && OneStep(s, kind, folded, st).Curly? ==> ParseSeq(s, kind, folded, st) == AfterCurly(OneStep(s, kind, folded, st).rest, kind, folded, st)
    ensures s != [] && !OneStep(s, kind, folded, st).Stop? ==> |OneStep(s, kind, folded, st).rest| < |s|
    ensures s != [] && OneStep(s, kind, folded, st).Curly? ==>
      var b := ParseBranches(OneStep(s, kind, folded, st).rest, folded, st.nparens, -1, []);
      b.BParsed? ==> |b.rest| < |s|
    ensures ParseSeq(s, kind, folded, st).Parsed? ==> |ParseSeq(s, kind, folded, st).rest| <= |s|
  {}

  /** One turn of ParseBranches. */
  lemma BranchesStep(s: seq<Ch>, folded: bool, init: nat, max: int, acc: seq<seq<Item>>)
    ensures var o := ParseSeq(s, IN_CB, folded, Start(IN_CB, init));
      && ParseBranches(s, folded, init, max, acc) ==
           (if o.Bad? then BBad(o.e)
            else if max != -1 && max != o.nparens then BBad(UnequalParens)
            else if o.closed then BParsed(acc + o.alts, o.rest, o.nparens)
            else ParseBranches(o.rest, folded, init, o.nparens, acc + o.alts))
      && (o.Parsed? ==> |o.rest| < |s| && o.nparens >= init)
  {}

  /** The text that every overrun ends with. */
  const BARRED: seq<Ch> := [BACKSLASH, BAR]

  // --- reading with `\|` behind the text ---

  lemma MoreNext(s: seq<Ch>)
    ensures s != [] ==> s + BARRED != [] && (s + BARRED)[0] == s[0] && (s + BARRED)[1..] == s[1..] + BARRED
    ensures [] + BARRED == BARRED && BARRED[1..] == [BAR] && BARRED[1..][1..] == []
  {
    if s != [] {
      assert (s + BARRED)[1..] == s[1..] + BARRED;
    }
  }

  /** A character more to read makes no difference to what ended before it. */
  lemma MoreMember(c: int, s: seq<Ch>, m: set<Ch>)
    requires -1 <= c < 256
    ensures MoreRead(OneMember(c, s, m), OneMember(c, s + BARRED, m))
  {
    hide MemberFrom;
    MoreNext(s);
    if c != -1 {
      var (c1, s1) := Unescaped(c, s);
      if c1 != -1 { MoreFrom(c1, s1, m); }
    }
    if s == [] && c == BACKSLASH { assert Unescaped(c, s + BARRED) == (BACKSLASH as int, [BAR]); }
    FromSizes(BACKSLASH, [BAR], m);
  }

  /** `x` is what is read of a member, `y` what is with `\|` behind the text. */
  predicate MoreRead(x: MemberRead, y: MemberRead) {
    if x.MemberOk? && x.c != -1 then y == MemberOk(x.c, x.rest + BARRED, x.m) else y.MemberBad? || |y.rest| < 2
  }

  lemma FromSizes(c: Ch, s: seq<Ch>, m: set<Ch>)
    ensures MemberFrom(c, s, m).MemberOk? ==> |MemberFrom(c, s, m).rest| <= |s|
  {}

  lemma MoreFrom(c: Ch, s: seq<Ch>, m: set<Ch>)
    ensures MoreRead(MemberFrom(c, s, m), MemberFrom(c, s + BARRED, m))
  {
    hide Range;
    MoreNext(s);
    if s != [] {
      MoreNext(s[1..]);
      if |s| > 1 {
        MoreNext(s[1..][1..]);
        if |s| > 2 { MoreNext(s[1..][1..][1..]); }
      }
    }
  }

  lemma {:induction false} MoreMembers(neg: bool, c: int, s: seq<Ch>, m: set<Ch>)
    requires -1 <= c < 256
    ensures var x, y := SetMembers(neg, c, s, m), SetMembers(neg, c, s + BARRED, m);
      if x.SetOk? then y == SetOk(x.neg, x.m, x.rest + BARRED) else y.SetBad? || |y.rest| < 2
    decreases |s|, if c == -1 then 0 else 1
  {
    hide OneMember;
    MoreMember(c, s, m);
    var x := OneMember(c, s, m);
    if x.MemberOk? && x.c != -1 && x.c != RBRACKET {
      MoreMembers(neg, x.c, x.rest, x.m);
    } else if x.MemberOk? && x.c == -1 {
      assert OneMember(-1, x.rest, x.m).MemberBad? by { EndedMember(x.rest, x.m); }
    }
  }

  lemma EndedMember(s: seq<Ch>, m: set<Ch>)
    ensures OneMember(-1, s, m).MemberBad?
  {}

  lemma MoreSet(s: seq<Ch>)
    ensures var x, y := ReadSet(s), ReadSet(s + BARRED);
      if x.SetOk? then y == SetOk(x.neg, x.m, x.rest + BARRED) else y.SetBad? || |y.rest| < 2
  {
    hide SetMembers;
    MoreNext(s);
    EndedSet(false);
    EndedSet(true);
    if s == [] {
      assert ReadSet(s + BARRED) == SetMembers(false, BACKSLASH, [BAR], {});
    } else if s[0] != CARET {
      MoreMembers(false, s[0], s[1..], {});
    } else if |s| == 1 {
      assert s[1..] == [];
      assert ReadSet(s + BARRED) == SetMembers(true, BACKSLASH, [BAR], {});
    } else {
      MoreNext(s[1..]);
      MoreMembers(true, s[1..][0], s[1..][1..], {});
    }
  }

  lemma EndedSet(neg: bool)
    ensures SetMembers(neg, -1, [], {}).SetBad?
    ensures var r := SetMembers(neg, BACKSLASH, [BAR], {});
      r.SetOk? ==> |r.rest| < 2
    ensures var r := SetMembers(neg, BAR, [], {});
      r.SetOk? ==> |r.rest| < 2
  {}

  /** `x` is a step with `s` to read, `y` the one with `s` and `\|`. */
  predicate MoreStep(x: Step, y: Step) {
    match x
    case Go(rest, st) => y == Go(rest + BARRED, st)
    case Curly(rest) => y == Step.Curly(rest + BARRED)
    case Stop(Parsed(alts, rest, n, closed)) => y == Stop(Parsed(alts, rest + BARRED, n, closed))
    case Stop(Bad(_)) => y == x || (y.Go? && |y.rest| < 2)
  }

  lemma MoreEnd(st: St, kind: Kind, rest: seq<Ch>, closed: bool)
    ensures MoreStep(Stop(EndLevel(st, kind, rest, closed, false)), Stop(EndLevel(st, kind, rest + BARRED, closed, false)))
  {}

  lemma MoreEscape(s: seq<Ch>, kind: Kind, folded: bool, st: St)
    ensures MoreStep(EscapeStep(s, kind, folded, st), EscapeStep(s + BARRED, kind, folded, st))
  {
    hide EndLevel, NextAlternative, LitItems, AddItem, AddLit, MoreStep;
    MoreNext(s);
    MoreStepIs();
    if s != [] {
      var t := s[1..];
      MoreEnd(st, kind, t, true);
      MoreEnd(st, kind, t, false);
    }
  }

  lemma MoreStepIs()
    ensures forall rest, st :: MoreStep(Go(rest, st), Go(rest + BARRED, st))
    ensures forall rest :: MoreStep(Step.Curly(rest), Step.Curly(rest + BARRED))
    ensures forall e :: MoreStep(Stop(Bad(e)), Stop(Bad(e)))
    ensures forall e, rest, st :: |rest| < 2 ==> MoreStep(Stop(Bad(e)), Go(rest, st))
  {}

  lemma MoreOneStep(s: seq<Ch>, kind: Kind, folded: bool, st: St)
    requires s != []
    ensures MoreStep(OneStep(s, kind, folded, st), OneStep(s + BARRED, kind, folded, st))
  {
    hide EscapeStep, ReadSet, LitItems, StarItems, AddItem, AddLit, AddStar, MoreStep;
    MoreNext(s);
    MoreNext(s[1..]);
    MoreStepIs();
    MoreEscape(s[1..], kind, folded, st);
    MoreSet(s[1..]);
  }

  /** A branch: what is read with `\|` behind it is the same, or ends within the `\|`. */
  lemma {:induction false} MoreSeq(s: seq<Ch>, folded: bool, st: St)
    ensures var x, y := ParseSeq(s, IN_CB, folded, st), ParseSeq(s + BARRED, IN_CB, folded, st);
      if x.Parsed? then y == Parsed(x.alts, x.rest + BARRED, x.nparens, x.closed) else y.Bad? || |y.rest| < 2
    decreases |s|, 0
  {
    hide OneStep, EndLevel;
    ParseStep(s, IN_CB, folded, st);
    ParseStep(s + BARRED, IN_CB, folded, st);
    if s == [] {
      assert s + BARRED == BARRED;
      BarredEnds(folded, st);
      EndOfText(st);
    } else {
      MoreOneStep(s, IN_CB, folded, st);
      var step := OneStep(s, IN_CB, folded, st);
      match step {
        case Stop(_) =>
        case Go(rest, st1) => MoreSeq(rest, folded, st1);
        case Curly(rest) =>
          MoreBranches(rest, folded, st.nparens, -1, []);
          var b := ParseBranches(rest, folded, st.nparens, -1, []);
          if b.BParsed? { MoreSeq(b.rest, folded, WithAlt(st, b)); }
      }
    }
  }

  lemma {:induction false} MoreBranches(s: seq<Ch>, folded: bool, init: nat, max: int, acc: seq<seq<Item>>)
    ensures var x, y := ParseBranches(s, folded, init, max, acc), ParseBranches(s + BARRED, folded, init, max, acc);
      if x.BParsed? then y == BParsed(x.all, x.rest + BARRED, x.nparens) else y.BBad? || |y.rest| < 2
    decreases |s|, 1
  {
    hide ParseSeq;
    MoreSeq(s, folded, Start(IN_CB, init));
    BranchesStep(s, folded, init, max, acc);
    BranchesStep(s + BARRED, folded, init, max, acc);
    var o := ParseSeq(s, IN_CB, folded, Start(IN_CB, init));
    if o.Parsed? && !o.closed && (max == -1 || max == o.nparens) {
      MoreBranches(o.rest, folded, init, o.nparens, acc + o.alts);
    }
  }

  lemma BarredEnds(folded: bool, st: St)
    ensures OneStep(BARRED, IN_CB, folded, st) == Stop(EndLevel(st, IN_CB, [], false, false))
    ensures EndLevel(st, IN_CB, [], false, false).Parsed? ==> EndLevel(st, IN_CB, [], false, false).rest == []
  {}

  lemma EndOfText(st: St)
    ensures EndLevel(st, IN_CB, [], false, true).Bad?
  {}

  lemma {:induction false} MoreFate(s: seq<Ch>, folded: bool, st: St, start: nat)
    ensures var x, y := Fate(s, IN_CB, folded, st, start), Fate(s + BARRED, IN_CB, folded, st, start);
      var o := ParseSeq(s + BARRED, IN_CB, folded, st);
      if x == Done then y == Done else y == Done ==> o.Bad? || |o.rest| < 2
    decreases |s|, 0
  {
    hide OneStep, EndLevel, ParseSeq, ParseBranches, Fate, BranchesFate, Ptr;
    FateStep(s, IN_CB, folded, st, start);
    FateStep(s + BARRED, IN_CB, folded, st, start);
    ParseStep(s + BARRED, IN_CB, folded, st);
    if s == [] {
      assert s + BARRED == BARRED;
      BarredEnds(folded, st);
      EndOfText(st);
    } else if !Cramped(s, IN_CB, Ptr(st, start)) {
      MoreOneStep(s, IN_CB, folded, st);
      var step := OneStep(s, IN_CB, folded, st);
      match step {
        case Stop(Bad(_)) =>
          var step' := OneStep(s + BARRED, IN_CB, folded, st);
          if step' != step { ParseStep(step'.rest, IN_CB, folded, step'.st); }
        case Stop(Parsed(_, _, _, _)) =>
        case Go(rest, st1) => MoreFate(rest, folded, st1, start);
        case Curly(rest) =>
          MoreBranches(rest, folded, st.nparens, -1, []);
          MoreBranchesFate(rest, folded, st.nparens, -1, [], Ptr(st, start) + 2);
          var b, b' := ParseBranches(rest, folded, st.nparens, -1, []), ParseBranches(rest + BARRED, folded, st.nparens, -1, []);
          if b.BParsed? { MoreFate(b.rest, folded, WithAlt(st, b), start); }
          if b'.BParsed? { ParseStep(b'.rest, IN_CB, folded, WithAlt(st, b')); }
      }
    }
  }

  lemma {:induction false} MoreBranchesFate(s: seq<Ch>, folded: bool, init: nat, max: int, acc: seq<seq<Item>>, ptr: nat)
    ensures var x, y := BranchesFate(s, folded, init, max, ptr), BranchesFate(s + BARRED, folded, init, max, ptr);
      var b := ParseBranches(s + BARRED, folded, init, max, acc);
      if x == Done then y == Done else y == Done ==> b.BBad? || |b.rest| < 2
    decreases |s|, 1
  {
    hide ParseSeq, ParseBranches, Fate;
    var st := Start(IN_CB, init);
    MoreSeq(s, folded, st);
    MoreFate(s, folded, st, ptr + ALT_LEN_LEN);
    BranchesStep(s, folded, init, max, acc);
    BranchesStep(s + BARRED, folded, init, max, acc);
    var o, o' := ParseSeq(s, IN_CB, folded, st), ParseSeq(s + BARRED, IN_CB, folded, st);
    if o.Parsed? && !o.closed && (max == -1 || max == o.nparens) {
      MoreBranchesFate(o.rest, folded, init, o.nparens, acc + o.alts, ptr + ALT_LEN_LEN + Total(o.alts));
    } else if o'.Parsed? {
      BranchesStep(o'.rest, folded, init, o'.nparens, acc + o'.alts);
    }
  }

  // --- how much code one element adds ---

  lemma {:induction false} OneMoreBranch(acc: seq<seq<Item>>, x: seq<Item>)
    ensures BranchesCode(ToBranches(acc + [x])) == BranchesCode(ToBranches(acc)) + BranchCode(x)
    ensures Count(ToBranches(acc)) == |acc|
    decreases |acc|
  {
    hide BranchCode;
    if acc == [] {
      assert (acc + [x])[1..] == [];
    } else {
      assert (acc + [x])[1..] == acc[1..] + [x];
      OneMoreBranch(acc[1..], x);
    }
  }

  lemma CodeMore(items: seq<Item>, it: Item)
    ensures |Code(items + [it])| == |Code(items)| + |ItemCode(it)|
  {
    hide Code, ItemCode;
    CodeAppend(items, [it]);
    CodeOne(it);
  }

  lemma CodeLast(items: seq<Item>)
    requires items != []
    ensures |Code(items)| == |Code(items[..|items| - 1])| + |ItemCode(items[|items| - 1])|
  {
    hide *;
    var n := |items| - 1;
    assert items[..n] + [items[n]] == items;
    CodeMore(items[..n], items[n]);
  }

  lemma LitRoom(items: seq<Item>, c: Ch, folded: bool)
    ensures |Code(LitItems(items, c, folded))| <= |Code(items)| + 3
  {
    hide Code;
    var n := |items|;
    if n > 0 && items[n - 1].Str? {
      CodeLast(items);
      CodeMore(items[..n - 1], Str(items[n - 1].cs + [c], items[n - 1].folded));
    } else {
      CodeMore(items, Str([c], folded));
    }
  }

  lemma StarRoom(items: seq<Item>, folded: bool)
    ensures |Code(StarItems(items, folded))| <= |Code(items)| + 3
  {
    hide Code, LitItems, LowByte;
    var n := |items|;
    LitRoom(items, ASTERISK, folded);
    if n > 0 {
      CodeLast(items);
      match items[n - 1] {
        case One(a) => CodeMore(items[..n - 1], Star(a));
        case Str(cs, f) =>
          if |cs| > 0 {
            var star, run := Star(Lit(cs[|cs| - 1], f)), Str(cs[..|cs| - 1], f);
            CodeMore(items[..n - 1], star);
            CodeMore(items[..n - 1], run);
            CodeMore(items[..n - 1] + [run], star);
            assert items[..n - 1] + [run] + [star] == items[..n - 1] + [run, star];
          }
        case _ =>
      }
    }
  }

  lemma EscapeRoom(s: seq<Ch>, kind: Kind, folded: bool, st: St, start: nat)
    requires EscapeStep(s, kind, folded, st).Go?
    ensures var st1 := EscapeStep(s, kind, folded, st).st;
      (Ptr(st1, start) <= Ptr(st, start) + 3 && st1.done == st.done) || (!kind.IN_CB? && s[0] == BAR)
  {
    hide Code, LitItems, NextAlternative, EndLevel;
    var d := s[0];
    CodeMore(st.items, Open(st.nparens));
    if st.open != [] { CodeMore(st.items, Close(st.open[|st.open| - 1])); }
    CodeMore(st.items, Bow);
    CodeMore(st.items, Eow);
    if d > DIGIT0 { CodeMore(st.items, One(Back(d - DIGIT0))); }
    LitRoom(st.items, d, folded);
  }

  /** Only `\|` of the outer level adds more than the margin that is checked for. */
  lemma StepRoom(s: seq<Ch>, kind: Kind, folded: bool, st: St, start: nat)
    requires s != [] && !Cramped(s, kind, Ptr(st, start)) && OneStep(s, kind, folded, st).Go?
    ensures var st1 := OneStep(s, kind, folded, st).st;
      (Ptr(st1, start) <= COMPEND + 3 && st1.done == st.done) || (!kind.IN_CB? && |s| > 1 && s[..2] == BARRED)
  {
    hide Code, LitItems, StarItems, EscapeStep, ReadSet;
    var c := s[0];
    if c == BACKSLASH {
      EscapeRoom(s[1..], kind, folded, st, start);
      EscapeGoes(s[1..], kind, folded, st);
    } else if c == LBRACKET && !kind.NORM? {
      var r := ReadSet(s[1..]);
      CodeMore(st.items, One(In(r.m, r.neg)));
    } else {
      CodeMore(st.items, Bol);
      CodeMore(st.items, Eol);
      CodeMore(st.items, One(Any));
      LitRoom(st.items, c, folded);
      StarRoom(st.items, folded);
    }
  }

  lemma EscapeGoes(s: seq<Ch>, kind: Kind, folded: bool, st: St)
    requires EscapeStep(s, kind, folded, st).Go?
    ensures s != []
  {}

  /** A branch ends before the margin. */
  lemma {:induction false} FateRoom(s: seq<Ch>, folded: bool, st: St, start: nat)
    requires Fate(s, IN_CB, folded, st, start) == Done && ParseSeq(s, IN_CB, folded, st).Parsed? && st.done == []
    ensures |ParseSeq(s, IN_CB, folded, st).alts| == 1 && start + Total(ParseSeq(s, IN_CB, folded, st).alts) <= COMPEND + 1
    decreases |s|, 0
  {
    hide OneStep, ParseSeq, ParseBranches, Fate, BranchesFate, Code;
    FateStep(s, IN_CB, folded, st, start);
    ParseStep(s, IN_CB, folded, st);
    if s != [] {
      var step := OneStep(s, IN_CB, folded, st);
      match step {
        case Stop(_) => CbStops(s, folded, st);
        case Go(rest, st1) =>
          StepRoom(s, IN_CB, folded, st, start);
          FateRoom(rest, folded, st1, start);
        case Curly(rest) =>
          var b := ParseBranches(rest, folded, st.nparens, -1, []);
          FateRoom(b.rest, folded, WithAlt(st, b), start);
      }
    }
  }

  lemma CbStops(s: seq<Ch>, folded: bool, st: St)
    requires s != [] && OneStep(s, IN_CB, folded, st).Stop? && OneStep(s, IN_CB, folded, st).o.Parsed?
    ensures OneStep(s, IN_CB, folded, st).o.alts == st.done + [st.items]
  {}

  lemma {:induction false} BranchesRoom(s: seq<Ch>, folded: bool, init: nat, max: int, acc: seq<seq<Item>>, ptr: nat)
    requires BranchesFate(s, folded, init, max, ptr) == Done && ParseBranches(s, folded, init, max, acc).BParsed?
    ensures var all := ParseBranches(s, folded, init, max, acc).all;
      ptr + |BranchesCode(ToBranches(all))| - |BranchesCode(ToBranches(acc))| <= COMPEND + 1
    decreases |s|, 1
  {
    hide ParseSeq, ParseBranches, Fate, Code, BranchesCode;
    var st := Start(IN_CB, init);
    var o := ParseSeq(s, IN_CB, folded, st);
    BranchesStep(s, folded, init, max, acc);
    FateRoom(s, folded, st, ptr + ALT_LEN_LEN);
    assert o.alts == [o.alts[0]];
    OneMoreBranch(acc, o.alts[0]);
    if !o.closed {
      BranchesRoom(o.rest, folded, init, o.nparens, acc + o.alts, ptr + ALT_LEN_LEN + Total(o.alts));
    }
  }

  lemma AltRoom(s: seq<Ch>, folded: bool, st: St, start: nat)
    requires BranchesFate(s, folded, st.nparens, -1, Ptr(st, start) + 2) == Done && ParseBranches(s, folded, st.nparens, -1, []).BParsed?
    ensures Ptr(WithAlt(st, ParseBranches(s, folded, st.nparens, -1, [])), start) <= COMPEND + 1
  {
    hide BranchesFate, ParseBranches, Code;
    var b := ParseBranches(s, folded, st.nparens, -1, []);
    BranchesRoom(s, folded, st.nparens, -1, [], Ptr(st, start) + 2);
    CodeMore(st.items, Alt(ToBranches(b.all)));
    assert ItemCode(Alt(ToBranches(b.all))) == [CURLYB, LowByte(Count(ToBranches(b.all)))] + BranchesCode(ToBranches(b.all));
  }

  // --- what is left to read is the end of the text ---

  predicate Tail(r: seq<Ch>, s: seq<Ch>) {
    |r| <= |s| && r == s[|s| - |r|..]
  }

  lemma TailOf(r: seq<Ch>, s: seq<Ch>)
    requires s != [] && Tail(r, s[1..])
    ensures Tail(r, s)
  {
    assert s[|s| - |r|..] == s[1..][|s[1..]| - |r|..];
  }

  lemma TailTail(q: seq<Ch>, r: seq<Ch>, s: seq<Ch>)
    requires Tail(q, r) && Tail(r, s)
    ensures Tail(q, s)
  {
    assert s[|s| - |q|..] == s[|s| - |r|..][|r| - |q|..];
  }

  lemma MemberTail(c: int, s: seq<Ch>, m: set<Ch>)
    requires -1 <= c < 256 && OneMember(c, s, m).MemberOk?
    ensures Tail(OneMember(c, s, m).rest, s)
  {
    hide Range;
  }

  lemma {:induction false} MembersTail(neg: bool, c: int, s: seq<Ch>, m: set<Ch>)
    requires -1 <= c < 256 && SetMembers(neg, c, s, m).SetOk?
    ensures Tail(SetMembers(neg, c, s, m).rest, s)
    decreases |s|, if c == -1 then 0 else 1
  {
    hide OneMember, Tail;
    MemberTail(c, s, m);
    var x := OneMember(c, s, m);
    if x.c != RBRACKET {
      NotEnded(c, s, m);
      MembersTail(neg, x.c, x.rest, x.m);
      TailTail(SetMembers(neg, x.c, x.rest, x.m).rest, x.rest, s);
    }
  }

  lemma NotEnded(c: int, s: seq<Ch>, m: set<Ch>)
    requires -1 <= c < 256 && OneMember(c, s, m).MemberOk?
    ensures c != -1 && |OneMember(c, s, m).rest| <= |s| && (OneMember(c, s, m).c != -1 ==> |OneMember(c, s, m).rest| < |s|)
  {
    hide Range;
  }

  lemma SetTail(s: seq<Ch>)
    requires ReadSet(s).SetOk?
    ensures Tail(ReadSet(s).rest, s)
  {
    hide SetMembers, Tail;
    if s == [] {
      EndedSet(false);
    } else if s[0] != CARET {
      MembersTail(false, s[0], s[1..], {});
      TailOf(ReadSet(s).rest, s);
    } else {
      EndedSet(true);
      if s[1..] != [] {
        MembersTail(true, s[1..][0], s[1..][1..], {});
        TailOf(ReadSet(s).rest, s[1..]);
        TailOf(ReadSet(s).rest, s);
      }
    }
  }

  /** What a step leaves to read is the end of the text. */
  predicate LeavesTail(step: Step, s: seq<Ch>) {
    match step
    case Stop(Parsed(_, rest, _, _)) => Tail(rest, s)
    case Stop(Bad(_)) => true
    case Go(rest, _) => Tail(rest, s)
    case Curly(rest) => Tail(rest, s)
  }

  lemma EscapeTail(s: seq<Ch>, kind: Kind, folded: bool, st: St)
    ensures LeavesTail(EscapeStep(s, kind, folded, st), s)
  {
    hide LitItems, NextAlternative, AddItem, AddLit;
  }

  lemma StepTail(s: seq<Ch>, kind: Kind, folded: bool, st: St)
    requires s != []
    ensures LeavesTail(OneStep(s, kind, folded, st), s)
  {
    hide EscapeStep, ReadSet, LitItems, StarItems, AddItem, AddLit, AddStar, Tail;
    EscapeTail(s[1..], kind, folded, st);
    TailsOf(s);
    if ReadSet(s[1..]).SetOk? { SetTail(s[1..]); }
  }

  lemma TailsOf(s: seq<Ch>)
    requires s != []
    ensures forall r: seq<Ch> :: Tail(r, s[1..]) ==> Tail(r, s)
    ensures Tail(s[1..], s)
  {
    forall r: seq<Ch> | Tail(r, s[1..]) ensures Tail(r, s) { TailOf(r, s); }
  }

  lemma {:induction false} SeqTail(s: seq<Ch>, folded: bool, st: St)
    requires ParseSeq(s, IN_CB, folded, st).Parsed?
    ensures Tail(ParseSeq(s, IN_CB, folded, st).rest, s)
    decreases |s|, 0
  {
    hide OneStep, EndLevel, Tail, ParseSeq, ParseBranches;
    ParseStep(s, IN_CB, folded, st);
    if s == [] {
      EndOfText(st);
    } else {
      StepTail(s, IN_CB, folded, st);
      var step := OneStep(s, IN_CB, folded, st);
      match step {
        case Stop(_) =>
        case Go(rest, st1) =>
          SeqTail(rest, folded, st1);
          TailTail(ParseSeq(rest, IN_CB, folded, st1).rest, rest, s);
        case Curly(rest) =>
          BranchesTail(rest, folded, st.nparens, -1, []);
          var b := ParseBranches(rest, folded, st.nparens, -1, []);
          SeqTail(b.rest, folded, WithAlt(st, b));
          TailTail(b.rest, rest, s);
          TailTail(ParseSeq(b.rest, IN_CB, folded, WithAlt(st, b)).rest, b.rest, s);
      }
    }
  }

  lemma {:induction false} BranchesTail(s: seq<Ch>, folded: bool, init: nat, max: int, acc: seq<seq<Item>>)
    requires ParseBranches(s, folded, init, max, acc).BParsed?
    ensures Tail(ParseBranches(s, folded, init, max, acc).rest, s)
    decreases |s|, 1
  {
    hide Tail, ParseSeq, ParseBranches;
    var o := ParseSeq(s, IN_CB, folded, Start(IN_CB, init));
    BranchesStep(s, folded, init, max, acc);
    SeqTail(s, folded, Start(IN_CB, init));
    if !o.closed {
      BranchesTail(o.rest, folded, init, o.nparens, acc + o.alts);
      TailTail(ParseBranches(o.rest, folded, init, o.nparens, acc + o.alts).rest, o.rest, s);
    }
  }

  // --- the overrun ---

  lemma BranchesDoNotOverrun(s: seq<Ch>, folded: bool, init: nat, max: int, ptr: nat)
    ensures BranchesFate(s, folded, init, max, ptr) != Overrun
    decreases |s|, 1
  {
    hide ParseSeq, Fate;
    BranchesStep(s, folded, init, max, []);
    BranchDoesNotOverrun(s, folded, Start(IN_CB, init), ptr + ALT_LEN_LEN);
  }

  lemma {:induction false} BranchDoesNotOverrun(s: seq<Ch>, folded: bool, st: St, start: nat)
    ensures Fate(s, IN_CB, folded, st, start) != Overrun
    decreases |s|, 0
  {
    hide OneStep, EndLevel, ParseBranches, Fate, BranchesFate;
    FateStep(s, IN_CB, folded, st, start);
    if s != [] {
      var step := OneStep(s, IN_CB, folded, st);
      match step {
        case Stop(_) =>
        case Go(rest, st1) => BranchDoesNotOverrun(rest, folded, st1, start);
        case Curly(rest) =>
          ParseStep(s, IN_CB, folded, st);
          BranchesDoNotOverrun(rest, folded, st.nparens, -1, Ptr(st, start) + 2);
          var b := ParseBranches(rest, folded, st.nparens, -1, []);
          if b.BParsed? { BranchDoesNotOverrun(b.rest, folded, WithAlt(st, b), start); }
      }
    }
  }

  /** A pattern that overruns the buffer ends with `\|`. */
  lemma {:induction false} OverrunEnds(s: seq<Ch>, kind: Kind, folded: bool, st: St)
    requires Fate(s, kind, folded, st, 0) == Overrun && !kind.IN_CB? && Ptr(st, 0) + 3 <= COMPSIZE
    ensures |s| >= 2 && Tail(BARRED, s)
    decreases |s|
  {
    hide OneStep, ParseBranches, Fate, BranchesFate, Ptr, Tail, EndLevel;
    FateStep(s, kind, folded, st, 0);
    if s != [] {
      var step := OneStep(s, kind, folded, st);
      StepTail(s, kind, folded, st);
      match step {
        case Stop(_) =>
        case Go(rest, st1) =>
          StepRoom(s, kind, folded, st, 0);
          if Ptr(st1, 0) + 3 <= COMPSIZE {
            OverrunEnds(rest, kind, folded, st1);
            TailTail(BARRED, rest, s);
          } else {
            FateStep(rest, kind, folded, st1, 0);
            BarredGoes(s, kind, folded, st);
          }
        case Curly(rest) =>
          ParseStep(s, kind, folded, st);
          BranchesDoNotOverrun(rest, folded, st.nparens, -1, Ptr(st, 0) + 2);
          var b := ParseBranches(rest, folded, st.nparens, -1, []);
          AltRoom(rest, folded, st, 0);
          BranchesTail(rest, folded, st.nparens, -1, []);
          OverrunEnds(b.rest, kind, folded, WithAlt(st, b));
          TailTail(b.rest, rest, s);
          TailTail(BARRED, b.rest, s);
      }
    }
  }

  lemma BarredGoes(s: seq<Ch>, kind: Kind, folded: bool, st: St)
    requires |s| > 1 && s[..2] == BARRED && !kind.IN_CB? && OneStep(s, kind, folded, st).Go?
    ensures OneStep(s, kind, folded, st).rest == s[2..] && (s[2..] == [] ==> Tail(BARRED, s))
  {
    assert s[0] == s[..2][0] && s[1] == s[..2][1];
    assert s[1..][1..] == s[2..];
  }

  /** `s` is read without complaint, there may be one more alternative, and the code is almost as
      long as the buffer. */
  predicate Full(s: seq<Ch>, kind: Kind, folded: bool, st: St) {
    var o := ParseSeq(s, kind, folded, st);
    Fate(s, kind, folded, st, 0) == Done && o.Parsed? && |o.alts| < NALTS - 1 && COMPSIZE - 4 <= Total(o.alts) < COMPSIZE - 2
  }

  lemma BarredStep(kind: Kind, folded: bool, st: St)
    requires !kind.IN_CB?
    ensures var (e, ok, st1) := NextAlternative(st);
      OneStep(BARRED, kind, folded, st) == if ok then Go([], st1) else Stop(Bad(e))
  {
    assert BARRED[1..] == [BAR] && [BAR][1..] == [];
  }

  /** The end of a pattern and `\|` close an alternative alike. */
  lemma EndOrNext(kind: Kind, st: St)
    requires !kind.IN_CB?
    ensures var o := EndLevel(st, kind, [], false, true);
      var next := NextAlternative(st);
      && (next.1 <==> |st.done| + 1 < NALTS - 1 && o.Parsed?)
      && (o.Parsed? ==> |o.alts| == |st.done| + 1 && Total(o.alts) == Ptr(st, 0) + 3)
      && (next.1 ==> Total(next.2.done) == Ptr(st, 0) + 3 && Ptr(next.2, 0) == Ptr(st, 0) + 5)
  {
    hide Code;
    if |st.open| == 1 {
      var close := Close(st.open[0]);
      CodeMore(st.items, close);
      var all := st.done + [st.items + [close]];
      assert all[..|all| - 1] == st.done;
      CodeOne(Open(0));
    }
  }

  lemma OuterStops(s: seq<Ch>, kind: Kind, folded: bool, st: St)
    requires s != [] && !kind.IN_CB? && OneStep(s, kind, folded, st).Stop?
    ensures OneStep(s, kind, folded, st).o.Bad?
  {
    hide ReadSet, LitItems, StarItems, NextAlternative, EndLevel;
  }

  /** An element that is cut short by the end of the text takes part of the `\|`. */
  lemma CutShort(s: seq<Ch>, kind: Kind, folded: bool, st: St)
    requires s != [] && !kind.IN_CB? && !Cramped(s, kind, Ptr(st, 0)) && OneStep(s, kind, folded, st).Stop?
    ensures Fate(s + BARRED, kind, folded, st, 0) != Overrun
  {
    hide OneStep, NextAlternative, Fate, Ptr, EndLevel;
    FateStep(s + BARRED, kind, folded, st, 0);
    OuterStops(s, kind, folded, st);
    MoreOneStep(s, kind, folded, st);
    var step := OneStep(s + BARRED, kind, folded, st);
    if step.Go? && Fate(step.rest, kind, folded, step.st, 0) == Overrun {
      StepRoom(s + BARRED, kind, folded, st, 0);
      if (s + BARRED)[..2] == BARRED { BarredGoes(s + BARRED, kind, folded, st); }
      assert (s + BARRED)[..2][1] == (s + BARRED)[1];
      OverrunEnds(step.rest, kind, folded, step.st);
    }
  }

  lemma {:induction false} OverrunIffFrom(s: seq<Ch>, kind: Kind, folded: bool, st: St)
    requires !kind.IN_CB?
    ensures Fate(s + BARRED, kind, folded, st, 0) == Overrun <==> Full(s, kind, folded, st)
    decreases |s|, 1
  {
    hide OneStep, NextAlternative, ParseSeq, ParseBranches, Fate, BranchesFate, Ptr, EndLevel, Total;
    FateStep(s, kind, folded, st, 0);
    FateStep(s + BARRED, kind, folded, st, 0);
    ParseStep(s, kind, folded, st);
    if s == [] {
      assert s + BARRED == BARRED;
      BarredStep(kind, folded, st);
      EndOrNext(kind, st);
      FateStep([], kind, folded, NextAlternative(st).2, 0);
    } else if !Cramped(s, kind, Ptr(st, 0)) {
      MoreOneStep(s, kind, folded, st);
      var step := OneStep(s, kind, folded, st);
      match step {
        case Stop(_) =>
          OuterStops(s, kind, folded, st);
          CutShort(s, kind, folded, st);
        case Go(rest, st1) => OverrunIffFrom(rest, kind, folded, st1);
        case Curly(rest) => OverrunIffAfter(rest, kind, folded, st);
      }
    }
  }

  lemma {:induction false} OverrunIffAfter(s: seq<Ch>, kind: Kind, folded: bool, st: St)
    requires !kind.IN_CB?
    ensures CurlyFate(s + BARRED, kind, folded, st, 0) == Overrun <==>
      var o := AfterCurly(s, kind, folded, st);
      CurlyFate(s, kind, folded, st, 0) == Done && o.Parsed? && |o.alts| < NALTS - 1 && COMPSIZE - 4 <= Total(o.alts) < COMPSIZE - 2
    decreases |s|, 2
  {
    hide ParseSeq, ParseBranches, Fate, BranchesFate, Ptr, Total;
    MoreBranches(s, folded, st.nparens, -1, []);
    MoreBranchesFate(s, folded, st.nparens, -1, [], Ptr(st, 0) + 2);
    BranchesDoNotOverrun(s + BARRED, folded, st.nparens, -1, Ptr(st, 0) + 2);
    BranchesStep(s, folded, st.nparens, -1, []);
    var b, b' := ParseBranches(s, folded, st.nparens, -1, []), ParseBranches(s + BARRED, folded, st.nparens, -1, []);
    if b.BParsed? && BranchesFate(s, folded, st.nparens, -1, Ptr(st, 0) + 2) == Done {
      BranchesRest(s, folded, st.nparens, -1, []);
      OverrunIffFrom(b.rest, kind, folded, WithAlt(st, b));
    } else if b'.BParsed? && BranchesFate(s + BARRED, folded, st.nparens, -1, Ptr(st, 0) + 2) == Done {
      AltRoom(s + BARRED, folded, st, 0);
      if Fate(b'.rest, kind, folded, WithAlt(st, b'), 0) == Overrun { OverrunEnds(b'.rest, kind, folded, WithAlt(st, b')); }
    }
  }

  lemma BranchesRest(s: seq<Ch>, folded: bool, init: nat, max: int, acc: seq<seq<Item>>)
    requires ParseBranches(s, folded, init, max, acc).BParsed?
    ensures |ParseBranches(s, folded, init, max, acc).rest| < |s|
  {}

  /** A pattern overruns the buffer exactly when it is a pattern that compiles, with code that leaves
      the buffer three or four bytes, and a last `\|` behind it that begins one more alternative. */
  lemma OverrunIff(s: seq<Ch>, re: bool, folded: bool)
    ensures PatternFate(s, re, folded) == Overrun <==>
      && |s| >= 2 && s[|s| - 2..] == [BACKSLASH, BAR]
      && var p := s[..|s| - 2];
         var o := Parse(p, re, folded);
         PatternFate(p, re, folded) == Done && o.Parsed? && |o.alts| < NALTS - 1 && COMPSIZE - 4 <= Total(o.alts) < COMPSIZE - 2
  {
    hide Fate, ParseSeq, Ptr, Total;
    var kind := if re then OKAY_RE else NORM;
    StartPtr(kind);
    if PatternFate(s, re, folded) == Overrun { OverrunEnds(s, kind, folded, Start(kind, 0)); }
    if |s| >= 2 && s[|s| - 2..] == BARRED {
      assert s == s[..|s| - 2] + BARRED;
      OverrunIffFrom(s[..|s| - 2], kind, folded, Start(kind, 0));
    }
  }

  lemma StartPtr(kind: Kind)
    requires !kind.IN_CB?
    ensures Ptr(Start(kind, 0), 0) == 2
  {
    CodeOne(Open(0));
  }

  // --- a pattern that overruns the buffer ---

  function Dots(n: nat): seq<Ch> {
    seq(n, _ => DOT)
  }

  function Anys(n: nat): seq<Item> {
    [Open(0)] + seq(n, _ => One(Any))
  }

  lemma {:induction false} AnysCode(n: nat)
    ensures |Code(Anys(n))| == 2 + n
  {
    hide Code;
    if n == 0 {
      CodeOne(Open(0));
      assert Anys(0) == [Open(0)];
    } else {
      AnysCode(n - 1);
      CodeMore(Anys(n - 1), One(Any));
      assert Anys(n) == Anys(n - 1) + [One(Any)];
    }
  }

  lemma {:induction false} DotsFate(n: nat, k: nat, folded: bool)
    requires 2 + k + n <= COMPEND
    ensures var st := St([], Anys(k), [0], 1, -1);
      && Fate(Dots(n), OKAY_RE, folded, st, 0) == Done
      && ParseSeq(Dots(n), OKAY_RE, folded, st) == Parsed([Anys(k + n) + [Close(0)]], [], 1, false)
    decreases n
  {
    hide Code, Anys, ParseSeq, Fate;
    var st := St([], Anys(k), [0], 1, -1);
    AnysCode(k);
    FateStep(Dots(n), OKAY_RE, folded, st, 0);
    ParseStep(Dots(n), OKAY_RE, folded, st);
    if n > 0 {
      assert Dots(n)[0] == DOT && Dots(n)[1..] == Dots(n - 1);
      MoreAnys(k);
      DotsFate(n - 1, k + 1, folded);
    }
  }

  lemma MoreAnys(k: nat)
    ensures Anys(k) + [One(Any)] == Anys(k + 1)
  {}

  /** 503 dots and `\|`. */
  lemma DotsOverrun(folded: bool)
    ensures PatternFate(Dots(503) + BARRED, true, folded) == Overrun
  {
    hide Code, ParseSeq, Fate;
    var p := Dots(503);
    DotsFate(503, 0, folded);
    assert Anys(0) == [Open(0)];
    var all := [Anys(503) + [Close(0)]];
    AnysCode(503);
    CodeMore(Anys(503), Close(0));
    assert all[..0] == [];
    assert Total(all) == Total([]) + |Code(all[0])| + 1;
    assert (p + BARRED)[..|p + BARRED| - 2] == p && (p + BARRED)[|p + BARRED| - 2..] == BARRED;
    OverrunIff(p + BARRED, true, folded);
  }
}
