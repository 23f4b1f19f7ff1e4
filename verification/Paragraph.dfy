/** Which lines start a paragraph's text, and what that means for filling. */
module Paragraph {
  import opened CString
  import opened Pattern
  import opened Commit
  import opened ReCode
  import opened ReMatch
  import opened ReParse
  import opened ReSound
  import opened ReSearch
  import opened ReRoom
  import ReFind
  import Columns
  import Fill
  import FillWide

  /** A line that the paragraph delimiter pattern matches has no indentation. */
  const I_DELIM := -1

  /** The paragraph-delimiter-pattern as it is unless it has been set: `[ \t]*$\|\.\|\\`. */
  const ParaDelim: seq<Ch> := [LBRACKET, 32, 9, RBRACKET, ASTERISK, DOLLAR, BACKSLASH, BAR, BACKSLASH, DOT, BACKSLASH, BAR, BACKSLASH, BACKSLASH]

  /** get_indent: the column where the line's text starts, or that the line delimits paragraphs.  A line
      of TeX delimits only if the next one is one too. */
  ghost function Indentation(t: Text, delim: seq<seq<Item>>, next: seq<Ch>, term: Columns.Terminal): int {
    var f := FirstAlt(t.(crater := -1), delim, 0);
    if f.None? then Columns.Col(t.line, Fill.WhiteHead(t.line), term)
    else if t.At(0) == BACKSLASH && f.end == 1 && (next == [] || next[0] != BACKSLASH) then 0
    else I_DELIM
  }

  /** `next` is the line below, or empty at the end of the buffer. */
  method get_indent(t: Text, delim: seq<Ch>, folded: bool, next: seq<Ch>, term: Columns.Terminal) returns (st: Status, indent: int, bslash: bool)
    requires t.Ok() && 0 !in delim && ReFind.Fair(delim, true, folded)
    ensures st == PatternFate(delim, true, folded)
    ensures st == Done ==> Parse(delim, true, folded).Parsed? && indent == Indentation(t, Parse(delim, true, folded).alts, next, term)
  {
    hide Parse, PatternFate, FirstAlt, Fits, FitsCommitted, AllSettled, Columns.Col, Fill.WhiteHead;
    bslash, indent := false, I_DELIM;
    var found, end;
    st, found, end := ReFind.LookingAt(t, delim, folded, 0);
    if st != Done { return; }
    if found {
      if t.At(0) == BACKSLASH && end == 1 {
        bslash := true;
        if next == [] || next[0] != BACKSLASH { indent := 0; }
      }
    } else {
      var curchar := 0;
      curchar := ToIndent(t.line);
      indent := Columns.calc_pos(t.line, curchar, term);
    }
  }

  /** Point past the white space that starts a line. */
  method ToIndent(line: seq<Ch>) returns (n: nat)
    ensures n == Fill.WhiteHead(line)
  {
    n := 0;
    assert line[0..] == line;
    while n < |line| && Fill.White(line[n])
      invariant n <= |line| && Fill.WhiteHead(line) == n + Fill.WhiteHead(line[n..])
    {
      assert line[n..][1..] == line[n + 1..];
      n := n + 1;
    }
  }

  // --- the usual delimiter pattern ---

  lemma From(k: nat)
    requires k < |ParaDelim|
    ensures ParaDelim[k..] != [] && ParaDelim[k..][0] == ParaDelim[k] && ParaDelim[k..][1..] == ParaDelim[k + 1..]
  {}

  /** Spaces and tabs. */
  const WHITES: set<Ch> := {32, 9}

  lemma SetOfWhites()
    ensures ReadSet(ParaDelim[1..]) == SetOk(false, WHITES, ParaDelim[4..])
  {
    From(1);
    From(2);
    From(3);
    var one: set<Ch> := {} + {32};
    assert OneMember(32, ParaDelim[2..], {}) == MemberOk(9, ParaDelim[3..], one);
    assert OneMember(9, ParaDelim[3..], one) == MemberOk(RBRACKET as int, ParaDelim[4..], one + {9});
    assert one + {9} == WHITES;
    assert SetMembers(false, 9, ParaDelim[3..], one) == SetOk(false, WHITES, ParaDelim[4..]);
    assert SetMembers(false, 32, ParaDelim[2..], {}) == SetOk(false, WHITES, ParaDelim[4..]);
  }

  const WhiteLine: seq<Item> := [Open(0), Star(In(WHITES, false)), Eol]

  function Single(c: Ch, folded: bool): seq<Item> {
    [Open(0), Str([c], folded)]
  }

  /** Reading an alternative of the outer level, with no group but the implied one. */
  function Reading(done: seq<seq<Item>>, items: seq<Item>): St {
    St(done, items, [0], 1, if done == [] then -1 else 1)
  }

  /** The pattern's three alternatives. */
  function Alternatives(folded: bool): seq<seq<Item>> {
    [WhiteLine + [Close(0)], Single(DOT, folded) + [Close(0)], Single(BACKSLASH, folded) + [Close(0)]]
  }

  /** The steps of reading the first alternative, and of the others. */
  lemma StepSet(folded: bool)
    ensures OneStep(ParaDelim, OKAY_RE, folded, Reading([], [Open(0)])) == Go(ParaDelim[4..], Reading([], [Open(0), One(In(WHITES, false))]))
  {
    hide ReadSet, EscapeStep, LitItems, StarItems;
    assert ParaDelim[0..] == ParaDelim;
    From(0);
    SetOfWhites();
  }

  lemma StepStar(folded: bool)
    ensures OneStep(ParaDelim[4..], OKAY_RE, folded, Reading([], [Open(0), One(In(WHITES, false))])) == Go(ParaDelim[5..], Reading([], WhiteLine[..2]))
  {
    hide ReadSet, EscapeStep, LitItems;
    From(4);
  }

  lemma StepEol(folded: bool)
    ensures OneStep(ParaDelim[5..], OKAY_RE, folded, Reading([], WhiteLine[..2])) == Go(ParaDelim[6..], Reading([], WhiteLine))
  {
    hide ReadSet, EscapeStep, LitItems, StarItems;
    From(5);
    From(6);
  }

  lemma StepBar(k: nat, folded: bool, done: seq<seq<Item>>, items: seq<Item>)
    requires k == 6 || k == 10
    requires |done| < 2
    ensures OneStep(ParaDelim[k..], OKAY_RE, folded, Reading(done, items)) == Go(ParaDelim[k + 2..], Reading(done + [items + [Close(0)]], [Open(0)]))
  {
    From(k);
    From(k + 1);
  }

  lemma StepLiteral(k: nat, folded: bool, done: seq<seq<Item>>)
    requires k == 8 || k == 12
    ensures OneStep(ParaDelim[k..], OKAY_RE, folded, Reading(done, [Open(0)])) == Go(ParaDelim[k + 2..], Reading(done, Single(ParaDelim[k + 1], folded)))
  {
    From(k);
    From(k + 1);
  }

  /** The code of a few plain items is short. */
  lemma {:induction false} ShortCode(items: seq<Item>)
    requires forall k :: 0 <= k < |items| ==> !items[k].Alt? && (items[k].Str? ==> |items[k].cs| <= 1)
    ensures |Code(items)| <= 34 * |items|
  {
    if items != [] { ShortCode(items[1..]); }
  }

  /** What is read is what is read from `s'` and `st'` on. */
  predicate Leads(s: seq<Ch>, folded: bool, st: St, s': seq<Ch>, st': St) {
    && ParseSeq(s, OKAY_RE, folded, st) == ParseSeq(s', OKAY_RE, folded, st')
    && Fate(s, OKAY_RE, folded, st, 0) == Fate(s', OKAY_RE, folded, st', 0)
  }

  /** A step that goes on. */
  lemma GoesOn(s: seq<Ch>, folded: bool, st: St, s': seq<Ch>, st': St)
    requires s != [] && OneStep(s, OKAY_RE, folded, st) == Go(s', st') && Ptr(st, 0) + 1 + SETSIZE < COMPEND
    ensures Leads(s, folded, st, s', st')
  {
    hide OneStep, ParseSeq, Fate, Ptr;
    ParseStep(s, OKAY_RE, folded, st);
    FateStep(s, OKAY_RE, folded, st, 0);
  }

  /** The code of as many short alternatives fits. */
  lemma Room(done: seq<seq<Item>>, items: seq<Item>)
    requires |items| <= 3 && |done| <= 2 && forall k :: 0 <= k < |done| ==> |Code(done[k])| <= 4 * 34
    requires forall k :: 0 <= k < |items| ==> !items[k].Alt? && (items[k].Str? ==> |items[k].cs| <= 1)
    ensures Ptr(Reading(done, items), 0) + 1 + SETSIZE < COMPEND
  {
    hide Code;
    ShortCode(items);
    if |done| > 0 {
      var d := done[..|done| - 1];
      assert Total(done) == Total(d) + |Code(done[|done| - 1])| + 1;
      if |d| > 0 {
        assert d[0] == done[0] && d[..0] == [];
        assert Total(d) == Total(d[..0]) + |Code(d[0])| + 1;
      }
    }
  }

  lemma LeadsOn(s: seq<Ch>, folded: bool, st: St, s1: seq<Ch>, st1: St, s2: seq<Ch>, st2: St)
    requires Leads(s, folded, st, s1, st1) && Leads(s1, folded, st1, s2, st2)
    ensures Leads(s, folded, st, s2, st2)
  {
    hide ParseSeq, Fate;
  }

  lemma DelimWhite(folded: bool)
    ensures Leads(ParaDelim, folded, Start(OKAY_RE, 0), ParaDelim[6..], Reading([], WhiteLine))
  {
    hide OneStep, Leads, Ptr, Code;
    var a, b, c, d := Start(OKAY_RE, 0), Reading([], [Open(0), One(In(WHITES, false))]), Reading([], WhiteLine[..2]), Reading([], WhiteLine);
    StepSet(folded);
    StepStar(folded);
    StepEol(folded);
    Room([], [Open(0)]);
    GoesOn(ParaDelim, folded, a, ParaDelim[4..], b);
    Room([], b.items);
    GoesOn(ParaDelim[4..], folded, b, ParaDelim[5..], c);
    Room([], c.items);
    GoesOn(ParaDelim[5..], folded, c, ParaDelim[6..], d);
    LeadsOn(ParaDelim, folded, a, ParaDelim[4..], b, ParaDelim[5..], c);
    LeadsOn(ParaDelim, folded, a, ParaDelim[5..], c, ParaDelim[6..], d);
  }

  /** One more alternative, of one character. */
  lemma DelimMore(k: nat, folded: bool, done: seq<seq<Item>>, items: seq<Item>)
    requires (k == 6 || k == 10) && |done| < 2 && |items| <= 3 && forall j :: 0 <= j < |done| ==> |Code(done[j])| <= 4 * 34
    requires forall k :: 0 <= k < |items| ==> !items[k].Alt? && (items[k].Str? ==> |items[k].cs| <= 1)
    ensures |Code(items + [Close(0)])| <= 4 * 34
    ensures Leads(ParaDelim[k..], folded, Reading(done, items), ParaDelim[k + 4..], Reading(done + [items + [Close(0)]], Single(ParaDelim[k + 3], folded)))
  {
    hide OneStep, Leads, Ptr, Code;
    var more := done + [items + [Close(0)]];
    var a, b, c := Reading(done, items), Reading(more, [Open(0)]), Reading(more, Single(ParaDelim[k + 3], folded));
    ShortCode(items + [Close(0)]);
    Room(done, items);
    StepBar(k, folded, done, items);
    GoesOn(ParaDelim[k..], folded, a, ParaDelim[k + 2..], b);
    Room(more, [Open(0)]);
    StepLiteral(k + 2, folded, more);
    GoesOn(ParaDelim[k + 2..], folded, b, ParaDelim[k + 4..], c);
    LeadsOn(ParaDelim[k..], folded, a, ParaDelim[k + 2..], b, ParaDelim[k + 4..], c);
  }

  /** The usual pattern compiles. */
  lemma DelimParsed(folded: bool)
    ensures PatternFate(ParaDelim, true, folded) == Done
    ensures Parse(ParaDelim, true, folded) == Parsed(Alternatives(folded), [], 1, false)
  {
    hide ParseSeq, Fate, Ptr, Code;
    var alts := Alternatives(folded);
    var done1, done2 := [alts[0]], [alts[0], alts[1]];
    assert [] + [WhiteLine + [Close(0)]] == done1 && done1 + [alts[1]] == done2 && done2 + [alts[2]] == alts;
    DelimWhite(folded);
    DelimMore(6, folded, [], WhiteLine);
    DelimMore(10, folded, done1, Single(DOT, folded));
    var st := Reading(done2, Single(BACKSLASH, folded));
    assert ParaDelim[14..] == [];
    Room(done2, Single(BACKSLASH, folded));
    ParseStep([], OKAY_RE, folded, st);
    FateStep([], OKAY_RE, folded, st, 0);
  }

  lemma DelimFair(folded: bool)
    ensures ReFind.Fair(ParaDelim, true, folded)
  {
    hide Parse;
    DelimParsed(folded);
    ModestOne(Close(0));
    ModestThree(Open(0), Star(In(WHITES, false)), Eol);
    ModestMore(WhiteLine, Close(0));
    forall c: Ch ensures c != 0 ==> Modest(Single(c, folded) + [Close(0)]) {
      if c != 0 {
        assert Single(c, folded) + [Close(0)] == [Open(0), Str([c], folded), Close(0)];
        ModestThree(Open(0), Str([c], folded), Close(0));
      }
    }
  }

  lemma ModestOne(it: Item)
    requires !it.Alt? && !(it.One? && it.a.Back?) && !(it.Star? && it.a.Back?) && (it.Str? ==> |it.cs| <= 127)
    ensures Modest([it])
  {
    assert [it][1..] == [];
  }

  lemma ModestThree(a: Item, b: Item, c: Item)
    requires Modest([a]) && Modest([b]) && Modest([c])
    ensures Modest([a, b, c])
  {
    assert [a, b, c][1..] == [b, c] && [b, c][1..] == [c];
  }

  lemma {:induction false} ModestMore(items: seq<Item>, it: Item)
    requires Modest(items) && Modest([it])
    ensures Modest(items + [it])
  {
    if items == [] {
      assert items + [it] == [it];
    } else {
      assert (items + [it])[1..] == items[1..] + [it];
      ModestMore(items[1..], it);
    }
  }

  /** A line of white space delimits paragraphs. */
  lemma BlankDelimits(t: Text, folded: bool, next: seq<Ch>, term: Columns.Terminal)
    requires t.Ok() && Fill.AllWhite(t.line)
    ensures Indentation(t, Alternatives(folded), next, term) == I_DELIM
  {
    hide Match;
    var t0 := t.(crater := -1);
    var items := WhiteLine + [Close(0)];
    BlankMatches(t0, items);
    FlatSettled(items);
    SettledFound(t0, items, 0, [Times(0), Times(|t.line|), Times(0), Times(0)]);
  }

  lemma BlankMatches(t: Text, items: seq<Item>)
    requires t.Ok() && Fill.AllWhite(t.line) && items == [Open(0), Star(In(WHITES, false)), Eol, Close(0)]
    ensures Flat(items) && Path(t, items, [Times(0), Times(|t.line|), Times(0), Times(0)], 0).Found?
  {
    var n := |t.line|;
    var r1, r2, r3 := items[1..], items[2..], items[3..];
    assert r1[1..] == r2 && r2[1..] == r3 && r3[1..] == [];
    var c0: seq<Choice> := [Times(0), Times(n), Times(0), Times(0)];
    assert c0[1..] == [Times(n), Times(0), Times(0)] && c0[1..][1..] == [Times(0), Times(0)] && c0[1..][1..][1..] == [Times(0)];
    assert c0[1..][1..][1..][1..] == [];
    assert Path(t, r3, [Times(0)], n).Found?;
    assert Path(t, r2, [Times(0), Times(0)], n).Found?;
    forall m | 0 <= m < 0 + n ensures t.Accepts(In(WHITES, false), m) { assert t.At(m) == t.line[m]; }
    assert AcceptsRun(t, In(WHITES, false), 0, n);
    assert Path(t, r1, [Times(n), Times(0), Times(0)], 0).Found?;
  }

  /** DoJustify moves to the indentation of a line that has one; with the usual delimiter pattern it never
      starts on a line of white space then, and no line that it leaves is too wide unless it is one word. */
  lemma UsualFillIsNarrow(t: Text, rest: seq<seq<Ch>>, folded: bool, next: seq<Ch>, cfg: Fill.Config)
    requires t.Ok()
    ensures var toIndent := Indentation(t, Alternatives(folded), next, cfg.t) >= 0;
      var lines := Fill.Filled(t.line, rest, toIndent, cfg);
      forall i :: 0 <= i < |lines| ==> Fill.Narrow(lines[i], cfg.rmargin, cfg.t)
  {
    hide Alternatives, Indentation, Fill.Filled, Fill.Narrow, FillWide.Sticks, FillWide.Flow, Fill.AllWhite;
    var toIndent := Indentation(t, Alternatives(folded), next, cfg.t) >= 0;
    if Fill.AllWhite(t.line) { BlankDelimits(t, folded, next, cfg.t); }
    FillWide.NarrowIff(t.line, rest, toIndent, cfg);
  }
}
