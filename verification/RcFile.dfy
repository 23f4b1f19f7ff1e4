/** Conditionals in startup files: three bit masks, and the nested blocks they stand for. */
module RcFile {

  type Word = bv32

  /** The nesting that a word has room for. */
  const WIDTH: nat := 32

  /** A condition holds, or not, or finding out fails with a complaint. */
  datatype Verdict = Yes | No | Failed

  /** A line of the file, comments aside.  `Odd` is one that looks like a conditional but is malformed. */
  datatype Line = Cmd(cmd: int) | Odd | If(cond: int) | Else | Endif

  datatype Error = Malformed | TooDeep | UnexpectedElse | UnexpectedEndif | MissingEndif

  /** What happens, in order.  Commands and conditions may depend on all that happened before. */
  datatype Event = Ran(cmd: int) | Asked(cond: int, v: Verdict) | Complained(e: Error)

  type Oracle = (seq<Event>, int) -> Verdict

  /** The loop's variables. */
  datatype State = State(finger: Word, skipping: Word, inelse: Word, trace: seq<Event>)

  function Deeper(finger: Word): Word { finger << 1 }
  function Shallower(finger: Word): Word { finger >> 1 }
  function Set(mask: Word, finger: Word): Word { mask | finger }
  function Flip(mask: Word, finger: Word): Word { mask ^ finger }
  function Clear(mask: Word, finger: Word): Word { mask & !finger }
  predicate Has(mask: Word, finger: Word) { mask & finger != 0 }

  /** One line. */
  function Step(s: State, l: Line, eval: Oracle): State {
    match l
    case Cmd(c) => if s.skipping == 0 then s.(trace := s.trace + [Ran(c)]) else s
    case Odd => s.(trace := s.trace + [Complained(Malformed)])
    case If(cond) =>
      var finger := Deeper(s.finger);
      if finger == 0 then s.(finger := finger, trace := s.trace + [Complained(TooDeep)])
      else if s.skipping == 0 then
        var v := eval(s.trace, cond);
        State(finger, if v == No then Set(s.skipping, finger) else s.skipping, s.inelse, s.trace + [Asked(cond, v)])
      else s.(finger := finger)
    case Else =>
      if s.finger == 1 || Has(s.inelse, s.finger) then s.(trace := s.trace + [Complained(UnexpectedElse)])
      else s.(inelse := Set(s.inelse, s.finger), skipping := Flip(s.skipping, s.finger))
    case Endif =>
      if s.finger == 1 then s.(trace := s.trace + [Complained(UnexpectedEndif)])
      else State(Shallower(s.finger), Clear(s.skipping, s.finger), Clear(s.inelse, s.finger), s.trace)
  }

  function Fold(s: State, lines: seq<Line>, eval: Oracle): State
    decreases |lines|
  {
    if lines == [] then s else Fold(Step(s, lines[0], eval), lines[1..], eval)
  }

  lemma FoldStep(s: State, lines: seq<Line>, k: nat, eval: Oracle)
    requires k < |lines|
    ensures Fold(s, lines[k..], eval) == Fold(Step(s, lines[k], eval), lines[k + 1..], eval)
  {
    assert lines[k..][0] == lines[k] && lines[k..][1..] == lines[k + 1..];
  }

  lemma FoldNone(s: State, lines: seq<Line>, eval: Oracle)
    requires lines == []
    ensures Fold(s, lines, eval) == s
  {}

  const START := State(1, 0, 0, [])

  /** The loop of joverc; a complaint ends the line, not the loop. */
  method joverc(lines: seq<Line>, eval: Oracle) returns (trace: seq<Event>)
    ensures var s := Fold(START, lines, eval);
      trace == if s.finger == 1 then s.trace else s.trace + [Complained(MissingEndif)]
  {
    hide Fold, Deeper, Shallower, Set, Flip, Clear, Has;
    var finger: Word, skipping: Word, inelse: Word := 1, 0, 0;
    trace := [];
    var lnum := 0;
    assert lines[0..] == lines;
    while lnum < |lines|
      invariant 0 <= lnum <= |lines|
      invariant Fold(START, lines, eval) == Fold(State(finger, skipping, inelse, trace), lines[lnum..], eval)
    {
      FoldStep(State(finger, skipping, inelse, trace), lines, lnum, eval);
      var l := lines[lnum];
      lnum := lnum + 1;
      match l {
        case Cmd(c) =>
          if skipping == 0 { trace := trace + [Ran(c)]; }
        case Odd =>
          trace := trace + [Complained(Malformed)];
        case If(cond) =>
          finger := Deeper(finger);
          if finger == 0 {
            trace := trace + [Complained(TooDeep)];
          } else if skipping == 0 {
            var v := eval(trace, cond);
            trace := trace + [Asked(cond, v)];
            if v == No { skipping := Set(skipping, finger); }
          }
        case Else =>
          if finger == 1 || Has(inelse, finger) {
            trace := trace + [Complained(UnexpectedElse)];
          } else {
            inelse := Set(inelse, finger);
            skipping := Flip(skipping, finger);
          }
        case Endif =>
          if finger == 1 {
            trace := trace + [Complained(UnexpectedEndif)];
          } else {
            inelse := Clear(inelse, finger);
            skipping := Clear(skipping, finger);
            finger := Shallower(finger);
          }
      }
    }
    FoldNone(State(finger, skipping, inelse, trace), lines[lnum..], eval);
    if finger != 1 { trace := trace + [Complained(MissingEndif)]; }
  }

  /** Nested blocks, and lines that run or complain. */
  datatype Stmt = Do(cmd: int) | Junk | Cond(cond: int, yes: Block, hasElse: bool, no: Block)

  datatype Block = Nil | Cons(head: Stmt, tail: Block)

  function Render(b: Block): seq<Line> {
    match b
    case Nil => []
    case Cons(Do(c), tail) => [Cmd(c)] + Render(tail)
    case Cons(Junk, tail) => [Odd] + Render(tail)
    case Cons(Cond(c, yes, hasElse, no), tail) =>
      [If(c)] + (Render(yes) + ((if hasElse then [Else] + Render(no) else []) + ([Endif] + Render(tail))))
  }

  function Max(a: nat, b: nat): nat { if a < b then b else a }

  function Depth(b: Block): nat {
    match b
    case Nil => 0
    case Cons(Cond(c, yes, hasElse, no), tail) => Max(1 + Max(Depth(yes), if hasElse then Depth(no) else 0), Depth(tail))
    case Cons(_, tail) => Depth(tail)
  }

  lemma DepthIs(b: Block)
    ensures b.Cons? ==> Depth(b) >= Depth(b.tail)
    ensures b.Cons? && b.head.Cond? ==> Depth(b) >= 1 + Depth(b.head.yes) && (b.head.hasElse ==> Depth(b) >= 1 + Depth(b.head.no))
  {}

  /** What a block does; with `skip` nothing of it runs.  A condition that fails counts as one that holds. */
  function Exec(b: Block, skip: bool, trace: seq<Event>, eval: Oracle): seq<Event> {
    match b
    case Nil => trace
    case Cons(Do(c), tail) => Exec(tail, skip, if skip then trace else trace + [Ran(c)], eval)
    case Cons(Junk, tail) => Exec(tail, skip, trace + [Complained(Malformed)], eval)
    case Cons(Cond(c, yes, hasElse, no), tail) =>
      var v := if skip then Yes else eval(trace, c);
      var t0 := if skip then trace else trace + [Asked(c, v)];
      var t1 := Exec(yes, skip || v == No, t0, eval);
      var t2 := if hasElse then Exec(no, skip || v != No, t1, eval) else t1;
      Exec(tail, skip, t2, eval)
  }

  /** The bit of nesting level `k`. */
  function Bit(k: nat): Word { if k == 0 then 1 else Bit(k - 1) << 1 }

  /** The mask of the levels, from 1 on, that are marked. */
  function Mask(marks: seq<bool>): Word {
    if marks == [] then 0
    else Marked(Mask(marks[..|marks| - 1]), Bit(|marks|), marks[|marks| - 1])
  }

  predicate Power(f: Word) { f != 0 && f & (f - 1) == 0 }

  lemma BitSteps()
    ensures Bit(31) == 0x8000_0000
  {
    assert Bit(4) == 0x10;
    assert Bit(8) == 0x100;
    assert Bit(12) == 0x1000;
    assert Bit(16) == 0x1_0000;
    assert Bit(20) == 0x10_0000;
    assert Bit(24) == 0x100_0000;
    assert Bit(28) == 0x1000_0000;
  }

  lemma {:induction false} BitNonzero(k: nat, n: nat)
    requires k <= n && Bit(n) != 0
    ensures Bit(k) != 0
    decreases n
  {
    if k < n { BitNonzero(k, n - 1); }
  }

  lemma {:induction false} BitPower(k: nat)
    requires k < WIDTH
    ensures Power(Bit(k)) && (k > 0 ==> Bit(k) != 1 && Bit(k) >> 1 == Bit(k - 1))
    decreases k
  {
    BitSteps();
    BitNonzero(k, 31);
    if k > 0 {
      BitPower(k - 1);
      Double(Bit(k - 1));
    }
  }

  lemma Double(f: Word)
    requires Power(f) && f << 1 != 0
    ensures Power(f << 1) && f << 1 != 1 && (f << 1) >> 1 == f
  {}

  /** A word with or without one bit above all of its own. */
  function Marked(m: Word, f: Word, b: bool): Word { if b then m | f else m }

  lemma Apart(m: Word, f: Word)
    requires Power(f) && m < f
    ensures m & f == 0
  {}

  lemma FlipMark(m: Word, f: Word, b: bool) requires m & f == 0 ensures Flip(Marked(m, f, b), f) == Marked(m, f, !b) {}
  lemma ClearMark(m: Word, f: Word, b: bool) requires m & f == 0 ensures Clear(Marked(m, f, b), f) == m {}
  lemma HasMark(m: Word, f: Word, b: bool) requires m & f == 0 && f != 0 ensures Has(Marked(m, f, b), f) <==> b {}

  lemma SetMark(m: Word, f: Word) ensures Set(m, f) == Marked(m, f, true) && Marked(m, f, false) == m {}

  lemma Wider(m: Word, f: Word, b: bool)
    requires Power(f) && m < f && f << 1 != 0
    ensures Marked(m, f, b) < f << 1
  {
    if b {
      SetWithin(m, f);
      TopBits(f);
    } else {
      NextPower(f);
    }
  }

  lemma SetWithin(m: Word, f: Word)
    requires m <= f - 1
    requires Power(f)
    ensures m | f <= f | (f - 1)
  {}

  lemma TopBits(f: Word)
    requires Power(f) && f << 1 != 0
    ensures f | (f - 1) < f << 1
  {}

  lemma NextPower(f: Word)
    requires Power(f) && f << 1 != 0
    ensures f < f << 1
  {}

  lemma ZeroMark(m: Word, f: Word, b: bool) requires f != 0 ensures Marked(m, f, b) == 0 <==> m == 0 && !b {}

  lemma MaskIs(marks: seq<bool>)
    requires marks != []
    ensures Mask(marks) == Marked(Mask(marks[..|marks| - 1]), Bit(|marks|), marks[|marks| - 1])
  {}

  lemma BitIs(k: nat)
    ensures Bit(k + 1) == Bit(k) << 1
  {}

  /** A mask has no bit beyond its levels. */
  lemma {:induction false} MaskBelow(marks: seq<bool>)
    requires |marks| + 1 < WIDTH
    ensures Mask(marks) < Bit(|marks| + 1)
    decreases |marks|
  {
    BitPower(|marks| + 1);
    if marks != [] {
      hide Bit, Mask, Power, Marked;
      var m, f := Mask(marks[..|marks| - 1]), Bit(|marks|);
      MaskIs(marks);
      BitIs(|marks|);
      MaskBelow(marks[..|marks| - 1]);
      BitPower(|marks|);
      BitPower(|marks| + 1);
      NonzeroPower(f << 1);
      Wider(m, f, marks[|marks| - 1]);
    }
  }

  lemma NonzeroPower(f: Word)
    requires Power(f)
    ensures f != 0
  {}

  predicate Any(marks: seq<bool>) {
    marks != [] && (Any(marks[..|marks| - 1]) || marks[|marks| - 1])
  }

  /** A mask is empty exactly when nothing is marked: the loop's test for skipping. */
  lemma {:induction false} MaskZero(marks: seq<bool>)
    requires |marks| < WIDTH
    ensures Mask(marks) == 0 <==> !Any(marks)
    decreases |marks|
  {
    if marks != [] {
      hide Mask, Bit, Power, Marked;
      MaskIs(marks);
      MaskZero(marks[..|marks| - 1]);
      BitPower(|marks|);
      NonzeroPower(Bit(|marks|));
      ZeroMark(Mask(marks[..|marks| - 1]), Bit(|marks|), marks[|marks| - 1]);
    }
  }

  /** What the word operations do to the topmost level. */
  lemma TopLevel(marks: seq<bool>, b: bool)
    requires |marks| + 1 < WIDTH
    ensures var f, m := Bit(|marks| + 1), Mask(marks + [b]);
      && f != 0 && f != 1 && Deeper(Bit(|marks|)) == f && Shallower(f) == Bit(|marks|)
      && Flip(m, f) == Mask(marks + [!b]) && Clear(m, f) == Mask(marks) && (Has(m, f) <==> b)
      && Set(Mask(marks), f) == Mask(marks + [true]) && Mask(marks + [false]) == Mask(marks)
    ensures Any(marks + [b]) <==> Any(marks) || b
  {
    hide Mask, Bit, Power, Flip, Clear, Has, Set, Deeper, Shallower, Marked, Any;
    var f, m := Bit(|marks| + 1), Mask(marks);
    BitFacts(|marks|);
    MaskBelow(marks);
    Apart(m, f);
    FlipMark(m, f, b);
    ClearMark(m, f, b);
    HasMark(m, f, b);
    SetMark(m, f);
    MaskPush(marks, b);
    MaskPush(marks, !b);
  }

  lemma BitFacts(k: nat)
    requires k + 1 < WIDTH
    ensures var f := Bit(k + 1); Power(f) && f != 0 && f != 1 && Deeper(Bit(k)) == f && Shallower(f) == Bit(k)
  {
    BitPower(k + 1);
    BitIs(k);
    hide Bit;
  }

  lemma MaskPush(marks: seq<bool>, b: bool)
    ensures Mask(marks + [b]) == Marked(Mask(marks), Bit(|marks| + 1), b)
    ensures Any(marks + [b]) <==> Any(marks) || b
  {
    assert (marks + [b])[..|marks|] == marks;
    MaskIs(marks + [b]);
    hide Mask, Marked, Bit;
  }

  /** The loop's variables when the levels `skips` are skipped and `elses` are behind their `else`. */
  function At(skips: seq<bool>, elses: seq<bool>, trace: seq<Event>): State {
    State(Bit(|skips|), Mask(skips), Mask(elses), trace)
  }

  lemma StepIf(skips: seq<bool>, elses: seq<bool>, trace: seq<Event>, c: int, eval: Oracle)
    requires |skips| == |elses| && |skips| + 1 < WIDTH
    ensures var v := if Any(skips) then Yes else eval(trace, c);
      var t := if Any(skips) then trace else trace + [Asked(c, v)];
      Step(At(skips, elses, trace), If(c), eval) == At(skips + [v == No], elses + [false], t)
  {
    hide Mask, Bit, Set, Flip, Clear, Has, Deeper, Shallower, Any;
    MaskZero(skips);
    TopLevel(skips, false);
    TopLevel(elses, false);
  }

  lemma StepElse(skips: seq<bool>, elses: seq<bool>, b: bool, trace: seq<Event>, eval: Oracle)
    requires |skips| == |elses| && |skips| + 1 < WIDTH
    ensures Step(At(skips + [b], elses + [false], trace), Else, eval) == At(skips + [!b], elses + [true], trace)
  {
    hide Mask, Bit, Set, Flip, Clear, Has, Deeper, Shallower, Any;
    TopLevel(skips, b);
    TopLevel(elses, false);
  }

  lemma StepEndif(skips: seq<bool>, elses: seq<bool>, b: bool, e: bool, trace: seq<Event>, eval: Oracle)
    requires |skips| == |elses| && |skips| + 1 < WIDTH
    ensures Step(At(skips + [b], elses + [e], trace), Endif, eval) == At(skips, elses, trace)
  {
    hide Mask, Bit, Set, Flip, Clear, Has, Deeper, Shallower, Any;
    TopLevel(skips, b);
    TopLevel(elses, e);
  }

  lemma FoldOne(s: State, l: Line, rest: seq<Line>, eval: Oracle)
    ensures Fold(s, [l] + rest, eval) == Fold(Step(s, l, eval), rest, eval)
  {
    assert ([l] + rest)[1..] == rest;
  }

  /** What follows `yes` in a conditional. */
  function ElsePart(hasElse: bool, no: Block): seq<Line> { if hasElse then [Else] + Render(no) else [] }

  lemma RenderCond(c: int, yes: Block, hasElse: bool, no: Block, tail: Block, rest: seq<Line>)
    ensures Render(Cons(Cond(c, yes, hasElse, no), tail)) + rest ==
            [If(c)] + (Render(yes) + (ElsePart(hasElse, no) + ([Endif] + (Render(tail) + rest))))
  {
    var e := ElsePart(hasElse, no);
    hide Render, ElsePart;
    var y, t := Render(yes), Render(tail);
    assert [If(c)] + (y + (e + ([Endif] + t))) + rest == [If(c)] + (y + (e + ([Endif] + (t + rest))));
    RenderIs(c, yes, hasElse, no, tail);
  }

  lemma RenderDo(c: int, tail: Block, rest: seq<Line>)
    ensures Render(Cons(Do(c), tail)) + rest == [Cmd(c)] + (Render(tail) + rest)
  {
    var t := Render(tail);
    assert ([Cmd(c)] + t) + rest == [Cmd(c)] + (t + rest);
  }

  lemma RenderJunk(tail: Block, rest: seq<Line>)
    ensures Render(Cons(Junk, tail)) + rest == [Odd] + (Render(tail) + rest)
  {
    var t := Render(tail);
    assert ([Odd] + t) + rest == [Odd] + (t + rest);
  }

  lemma RenderIs(c: int, yes: Block, hasElse: bool, no: Block, tail: Block)
    ensures Render(Cons(Cond(c, yes, hasElse, no), tail)) == [If(c)] + (Render(yes) + (ElsePart(hasElse, no) + ([Endif] + Render(tail))))
  {}

  /** The masks do what the blocks mean, at every level for which there is a bit. */
  lemma {:induction false} BlockRuns(b: Block, skips: seq<bool>, elses: seq<bool>, trace: seq<Event>, rest: seq<Line>, eval: Oracle)
    requires |skips| == |elses| && |skips| + Depth(b) < WIDTH
    ensures Fold(At(skips, elses, trace), Render(b) + rest, eval) == Fold(At(skips, elses, Exec(b, Any(skips), trace, eval)), rest, eval)
    decreases b
  {
    hide Fold, Step, Mask, Bit, At, Render, Any, Depth;
    DepthIs(b);
    match b
    case Nil => RenderNil(rest);
    case Cons(Cond(c, yes, hasElse, no), tail) =>
      var v := if Any(skips) then Yes else eval(trace, c);
      var t0 := if Any(skips) then trace else trace + [Asked(c, v)];
      var skips1, elses1, more := skips + [v == No], elses + [false], Render(tail) + rest;
      RenderCond(c, yes, hasElse, no, tail, rest);
      StepIf(skips, elses, trace, c, eval);
      FoldOne(At(skips, elses, trace), If(c), Render(yes) + (ElsePart(hasElse, no) + ([Endif] + more)), eval);
      TopLevel(skips, v == No);
      BlockRuns(yes, skips1, elses1, t0, ElsePart(hasElse, no) + ([Endif] + more), eval);
      var t1 := Exec(yes, Any(skips) || v == No, t0, eval);
      var t2 := t1;
      if hasElse {
        assert ElsePart(true, no) + ([Endif] + more) == [Else] + (Render(no) + ([Endif] + more));
        FoldOne(At(skips1, elses1, t1), Else, Render(no) + ([Endif] + more), eval);
        StepElse(skips, elses, v == No, t1, eval);
        TopLevel(skips, v != No);
        BlockRuns(no, skips + [v != No], elses + [true], t1, [Endif] + more, eval);
        t2 := Exec(no, Any(skips) || v != No, t1, eval);
        StepEndif(skips, elses, v != No, true, t2, eval);
        FoldOne(At(skips + [v != No], elses + [true], t2), Endif, more, eval);
      } else {
        assert ElsePart(false, no) + ([Endif] + more) == [Endif] + more;
        StepEndif(skips, elses, v == No, false, t2, eval);
        FoldOne(At(skips1, elses1, t2), Endif, more, eval);
      }
      BlockRuns(tail, skips, elses, t2, rest, eval);
    case Cons(Do(c), tail) =>
      RenderDo(c, tail, rest);
      FoldOne(At(skips, elses, trace), Cmd(c), Render(tail) + rest, eval);
      StepLine(skips, elses, trace, Cmd(c), eval);
      BlockRuns(tail, skips, elses, if Any(skips) then trace else trace + [Ran(c)], rest, eval);
    case Cons(Junk, tail) =>
      RenderJunk(tail, rest);
      FoldOne(At(skips, elses, trace), Odd, Render(tail) + rest, eval);
      StepLine(skips, elses, trace, Odd, eval);
      BlockRuns(tail, skips, elses, trace + [Complained(Malformed)], rest, eval);
  }

  lemma StepLine(skips: seq<bool>, elses: seq<bool>, trace: seq<Event>, l: Line, eval: Oracle)
    requires |skips| == |elses| < WIDTH && (l.Cmd? || l.Odd?)
    ensures Step(At(skips, elses, trace), l, eval) ==
            At(skips, elses, if l.Odd? then trace + [Complained(Malformed)] else if Any(skips) then trace else trace + [Ran(l.cmd)])
  {
    MaskZero(skips);
  }

  /** Nothing that happened is forgotten. */
  lemma {:induction false} FoldKeeps(s: State, lines: seq<Line>, eval: Oracle, e: Event)
    requires e in s.trace
    ensures e in Fold(s, lines, eval).trace
    decreases |lines|
  {
    if lines != [] {
      StepKeeps(s, lines[0], eval, e);
      hide Step;
      FoldKeeps(Step(s, lines[0], eval), lines[1..], eval, e);
    }
  }

  lemma StepKeeps(s: State, l: Line, eval: Oracle, e: Event)
    requires e in s.trace
    ensures e in Step(s, l, eval).trace
  {
    hide Set, Flip, Clear, Has, Deeper, Shallower;
    var k :| 0 <= k < |s.trace| && s.trace[k] == e;
    assert Step(s, l, eval).trace[k] == e;
  }

  lemma LastLevel()
    ensures Deeper(Bit(WIDTH - 1)) == 0
  {
    BitSteps();
  }

  /** The conditional for which there is no bit is complained of. */
  lemma StepTooDeep(skips: seq<bool>, elses: seq<bool>, trace: seq<Event>, c: int, rest: seq<Line>, eval: Oracle)
    requires |skips| == WIDTH - 1
    ensures Complained(TooDeep) in Fold(At(skips, elses, trace), [If(c)] + rest, eval).trace
  {
    hide Fold, Mask, Bit, Set, Deeper, Any;
    LastLevel();
    FoldOne(At(skips, elses, trace), If(c), rest, eval);
    var s := Step(At(skips, elses, trace), If(c), eval);
    assert s.trace[|trace|] == Complained(TooDeep);
    FoldKeeps(s, rest, eval, Complained(TooDeep));
  }

  lemma RenderHead(s: Stmt, tail: Block, rest: seq<Line>)
    ensures Render(Cons(s, tail)) + rest == Render(Cons(s, Nil)) + (Render(tail) + rest)
    ensures Depth(Cons(s, tail)) == Max(Depth(Cons(s, Nil)), Depth(tail)) && (Depth(Cons(s, Nil)) > 0 <==> s.Cond?)
  {
    match s
    case Cond(c, yes, hasElse, no) =>
      RenderCond(c, yes, hasElse, no, tail, rest);
      RenderCond(c, yes, hasElse, no, Nil, Render(tail) + rest);
      assert [] + (Render(tail) + rest) == Render(tail) + rest;
    case Do(c) =>
      RenderDo(c, tail, rest);
      assert Render(Cons(Do(c), Nil)) == [Cmd(c)];
    case Junk =>
      RenderJunk(tail, rest);
      assert Render(Cons(Junk, Nil)) == [Odd];
  }

  lemma {:induction false} BlockTooDeep(b: Block, skips: seq<bool>, elses: seq<bool>, trace: seq<Event>, rest: seq<Line>, eval: Oracle)
    requires |skips| == |elses| < WIDTH <= |skips| + Depth(b)
    ensures Complained(TooDeep) in Fold(At(skips, elses, trace), Render(b) + rest, eval).trace
    decreases b, 1
  {
    hide Fold, Mask, Bit, At, Any, Render, Exec;
    if b.Cons? {
      RenderHead(b.head, b.tail, rest);
      var first, more := Cons(b.head, Nil), Render(b.tail) + rest;
      if |skips| + Depth(first) < WIDTH {
        BlockRuns(first, skips, elses, trace, more, eval);
        BlockTooDeep(b.tail, skips, elses, Exec(first, Any(skips), trace, eval), rest, eval);
      } else {
        CondTooDeep(b.head, skips, elses, trace, more, eval);
      }
    }
  }

  lemma {:induction false} CondTooDeep(s: Stmt, skips: seq<bool>, elses: seq<bool>, trace: seq<Event>, rest: seq<Line>, eval: Oracle)
    requires |skips| == |elses| < WIDTH <= |skips| + Depth(Cons(s, Nil)) && s.Cond?
    ensures Complained(TooDeep) in Fold(At(skips, elses, trace), Render(Cons(s, Nil)) + rest, eval).trace
    decreases s, 0
  {
    hide Fold, Step, Mask, Bit, At, Any, Render, Exec;
    var Cond(c, yes, hasElse, no) := s;
    var rest1 := ElsePart(hasElse, no) + ([Endif] + rest);
    RenderCond(c, yes, hasElse, no, Nil, rest);
    RenderNil(rest);
    if |skips| + 1 == WIDTH {
      StepTooDeep(skips, elses, trace, c, Render(yes) + rest1, eval);
    } else {
      var v := if Any(skips) then Yes else eval(trace, c);
      var t0 := if Any(skips) then trace else trace + [Asked(c, v)];
      var skips1, elses1 := skips + [v == No], elses + [false];
      StepIf(skips, elses, trace, c, eval);
      FoldOne(At(skips, elses, trace), If(c), Render(yes) + rest1, eval);
      if |skips1| + Depth(yes) >= WIDTH {
        BlockTooDeep(yes, skips1, elses1, t0, rest1, eval);
      } else {
        BlockRuns(yes, skips1, elses1, t0, rest1, eval);
        var t1 := Exec(yes, Any(skips1), t0, eval);
        assert rest1 == [Else] + (Render(no) + ([Endif] + rest));
        FoldOne(At(skips1, elses1, t1), Else, Render(no) + ([Endif] + rest), eval);
        StepElse(skips, elses, v == No, t1, eval);
        BlockTooDeep(no, skips + [v != No], elses + [true], t1, [Endif] + rest, eval);
      }
    }
  }

  lemma RenderNil(rest: seq<Line>)
    ensures Render(Nil) + rest == rest
  {}

  /** Running blocks complains of malformed lines only. */
  lemma {:induction false} ExecComplains(b: Block, skip: bool, trace: seq<Event>, eval: Oracle, e: Error)
    requires e != Malformed && Complained(e) !in trace
    ensures Complained(e) !in Exec(b, skip, trace, eval)
    decreases b
  {
    match b
    case Nil =>
    case Cons(Do(c), tail) => ExecComplains(tail, skip, if skip then trace else trace + [Ran(c)], eval, e);
    case Cons(Junk, tail) => ExecComplains(tail, skip, trace + [Complained(Malformed)], eval, e);
    case Cons(Cond(c, yes, hasElse, no), tail) =>
      var v := if skip then Yes else eval(trace, c);
      var t0 := if skip then trace else trace + [Asked(c, v)];
      ExecComplains(yes, skip || v == No, t0, eval, e);
      var t1 := Exec(yes, skip || v == No, t0, eval);
      if hasElse { ExecComplains(no, skip || v != No, t1, eval, e); }
      ExecComplains(tail, skip, if hasElse then Exec(no, skip || v != No, t1, eval) else t1, eval, e);
  }

  /** What a file of nested blocks amounts to, and exactly when the masks are wide enough for it. */
  lemma FileRuns(b: Block, eval: Oracle)
    ensures Depth(b) < WIDTH ==> Fold(START, Render(b), eval) == START.(trace := Exec(b, false, [], eval))
    ensures Complained(TooDeep) in Fold(START, Render(b), eval).trace <==> Depth(b) >= WIDTH
  {
    assert At([], [], []) == START;
    assert Render(b) + [] == Render(b);
    if Depth(b) < WIDTH {
      BlockRuns(b, [], [], [], [], eval);
      FoldNone(At([], [], Exec(b, false, [], eval)), [], eval);
      ExecComplains(b, false, [], eval, TooDeep);
    } else {
      BlockTooDeep(b, [], [], [], [], eval);
    }
  }

  /**
   * Lines that match up, found by one pass: `open` has, for each open conditional, whether its `else` has been seen.
   */
  predicate Nested(lines: seq<Line>, open: seq<bool>)
    decreases |lines|
  {
    var n := |open| - 1;
    if lines == [] then open == []
    else match lines[0]
      case If(_) => Nested(lines[1..], open + [false])
      case Else => open != [] && !open[n] && Nested(lines[1..], open[..n] + [true])
      case Endif => open != [] && Nested(lines[1..], open[..n])
      case _ => Nested(lines[1..], open)
  }

  lemma NestedOne(l: Line, rest: seq<Line>, open: seq<bool>)
    ensures l.If? ==> (Nested([l] + rest, open) <==> Nested(rest, open + [false]))
    ensures l.Else? ==> (Nested([l] + rest, open + [false]) <==> Nested(rest, open + [true]))
    ensures l.Else? ==> !Nested([l] + rest, open + [true])
    ensures forall b: bool :: l.Endif? ==> (Nested([l] + rest, open + [b]) <==> Nested(rest, open))
    ensures l.Cmd? || l.Odd? ==> (Nested([l] + rest, open) <==> Nested(rest, open))
  {
    assert ([l] + rest)[1..] == rest;
    forall b: bool ensures (open + [b])[..|open|] == open {}
  }

  /** Blocks match up. */
  lemma {:induction false} RenderNested(b: Block, rest: seq<Line>, open: seq<bool>)
    ensures Nested(Render(b) + rest, open) <==> Nested(rest, open)
    decreases b
  {
    hide Nested, Render;
    match b
    case Nil => RenderNil(rest);
    case Cons(Do(c), tail) =>
      RenderDo(c, tail, rest);
      NestedOne(Cmd(c), Render(tail) + rest, open);
      RenderNested(tail, rest, open);
    case Cons(Junk, tail) =>
      RenderJunk(tail, rest);
      NestedOne(Odd, Render(tail) + rest, open);
      RenderNested(tail, rest, open);
    case Cons(Cond(c, yes, hasElse, no), tail) =>
      var more := Render(tail) + rest;
      var rest1 := ElsePart(hasElse, no) + ([Endif] + more);
      RenderCond(c, yes, hasElse, no, tail, rest);
      NestedOne(If(c), Render(yes) + rest1, open);
      RenderNested(yes, rest1, open + [false]);
      NestedOne(Endif, more, open);
      RenderNested(tail, rest, open);
      if hasElse {
        assert rest1 == [Else] + (Render(no) + ([Endif] + more));
        NestedOne(Else, Render(no) + ([Endif] + more), open);
        RenderNested(no, [Endif] + more, open + [true]);
      } else {
        assert rest1 == [Endif] + more;
      }
  }

  /** Lines that match up start with a block, which ends where the innermost open conditional goes on. */
  lemma {:induction false} FirstBlock(lines: seq<Line>, open: seq<bool>) returns (b: Block, rest: seq<Line>)
    requires Nested(lines, open)
    ensures lines == Render(b) + rest && Nested(rest, open)
    ensures if rest == [] then open == [] else open != [] && (rest[0] == Else || rest[0] == Endif)
    decreases |lines|, 1
  {
    if lines == [] {
      b, rest := Nil, [];
    } else if lines[0] == Else || lines[0] == Endif {
      b, rest := Nil, lines;
      assert [] + lines == lines;
    } else {
      assert lines == [lines[0]] + lines[1..];
      NestedOne(lines[0], lines[1..], open);
      hide Nested, Render;
      if lines[0].If? {
        b, rest := FirstCond(lines, open);
      } else {
        b, rest := FirstBlock(lines[1..], open);
        RenderLine(lines, b, rest);
        b := Cons(if lines[0].Odd? then Junk else Do(lines[0].cmd), b);
      }
    }
  }

  lemma RenderLine(lines: seq<Line>, b: Block, rest: seq<Line>)
    requires lines != [] && (lines[0].Odd? || lines[0].Cmd?) && lines[1..] == Render(b) + rest
    ensures lines == Render(Cons(if lines[0].Odd? then Junk else Do(lines[0].cmd), b)) + rest
  {
    assert lines == [lines[0]] + (Render(b) + rest);
    assert [lines[0]] + (Render(b) + rest) == ([lines[0]] + Render(b)) + rest;
  }

  /** The same for a conditional and what follows it. */
  lemma {:induction false} FirstCond(lines: seq<Line>, open: seq<bool>) returns (b: Block, rest: seq<Line>)
    requires lines != [] && lines[0].If? && Nested(lines[1..], open + [false])
    ensures lines == Render(b) + rest && Nested(rest, open)
    ensures if rest == [] then open == [] else open != [] && (rest[0] == Else || rest[0] == Endif)
    decreases |lines|, 0
  {
    hide Nested, Render, ElsePart;
    var yes, r1 := FirstBlock(lines[1..], open + [false]);
    assert r1 == [r1[0]] + r1[1..];
    NestedOne(r1[0], r1[1..], open);
    var r2, no := r1, Nil;
    if r1[0] == Else {
      no, r2 := FirstBlock(r1[1..], open + [true]);
      assert r2 == [r2[0]] + r2[1..];
      NestedOne(r2[0], r2[1..], open);
    }
    var tail, r3 := FirstBlock(r2[1..], open);
    RenderCond(lines[0].cond, yes, r1[0] == Else, no, tail, r3);
    JoinCond(lines, yes, r1, no, r2, tail, r3);
    b, rest := Cons(Cond(lines[0].cond, yes, r1[0] == Else, no), tail), r3;
  }

  lemma JoinCond(lines: seq<Line>, yes: Block, r1: seq<Line>, no: Block, r2: seq<Line>, b: Block, rest: seq<Line>)
    requires lines != [] && lines[0].If? && r1 != [] && r2 != [] && r2[0] == Endif
    requires lines[1..] == Render(yes) + r1 && r2[1..] == Render(b) + rest
    requires if r1[0] == Else then r1[1..] == Render(no) + r2 else r1 == r2
    ensures lines == [lines[0]] + (Render(yes) + (ElsePart(r1[0] == Else, no) + ([Endif] + (Render(b) + rest))))
  {
    hide Render;
    assert lines == [lines[0]] + lines[1..];
    assert r2 == [Endif] + r2[1..];
    if r1[0] == Else { assert r1 == [Else] + r1[1..] == [Else] + Render(no) + r2; } else { assert [] + r2 == r2; }
  }

  /** The files of nested blocks are exactly those whose lines match up. */
  lemma NestedIffBlocks(lines: seq<Line>)
    ensures Nested(lines, []) <==> exists b :: Render(b) == lines
  {
    if Nested(lines, []) {
      var b, rest := FirstBlock(lines, []);
      assert Render(b) + [] == Render(b);
    }
    forall b | Render(b) == lines ensures Nested(lines, []) {
      assert Render(b) + [] == Render(b);
      RenderNested(b, [], []);
    }
  }
}
