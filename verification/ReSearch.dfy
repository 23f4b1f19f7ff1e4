/** Searching a line for a compiled pattern. */
module ReSearch {
  import opened CString
  import opened Pattern
  import opened Commit
  import opened ReCode
  import opened ReMatch

  /** The match of the first alternative that matches at `i`. */
  function FirstAlt(t: Text, alts: seq<seq<Item>>, i: nat): Found {
    if alts == [] then None
    else
      var f := Match(t, alts[0], i);
      if f.Found? then f else FirstAlt(t, alts[1..], i)
  }

  /** Some prefix of the text at `i` is in the language of an alternative. */
  ghost predicate Fits(t: Text, alts: seq<seq<Item>>, i: nat) {
    exists k :: 0 <= k < |alts| && InLanguage(t, alts[k], i)
  }

  /** It has a derivation that commits itself at every alternation in braces. */
  ghost predicate FitsCommitted(t: Text, alts: seq<seq<Item>>, i: nat) {
    exists k :: 0 <= k < |alts| && Reached(t, alts[k], i)
  }

  predicate AllSettled(alts: seq<seq<Item>>) {
    forall k | 0 <= k < |alts| :: Settled(alts[k])
  }

  /** A search finds exactly the texts with a committed derivation.  So it finds only texts of the
      pattern's language, and misses none if every alternation in braces is settled. */
  lemma {:induction false} FoundIffInLanguage(t: Text, alts: seq<seq<Item>>, i: nat)
    ensures FirstAlt(t, alts, i).Found? <==> FitsCommitted(t, alts, i)
    ensures FirstAlt(t, alts, i).Found? ==> Fits(t, alts, i)
    ensures AllSettled(alts) && Fits(t, alts, i) ==> FirstAlt(t, alts, i).Found?
    decreases |alts|
  {
    hide Match, InLanguage, Reached, Settled;
    if alts != [] {
      var f := FirstAlt(t, alts, i);
      MatchIffInLanguage(t, alts[0], i);
      MatchIffReached(t, alts[0], i);
      FoundIffInLanguage(t, alts[1..], i);
      if f.Found? && Match(t, alts[0], i).None? {
        var k :| 0 <= k < |alts[1..]| && InLanguage(t, alts[1..][k], i);
        assert InLanguage(t, alts[k + 1], i);
        var l :| 0 <= l < |alts[1..]| && Reached(t, alts[1..][l], i);
        assert Reached(t, alts[l + 1], i);
      }
      if k :| 0 < k < |alts| && InLanguage(t, alts[k], i) {
        assert InLanguage(t, alts[1..][k - 1], i);
      }
      if k :| 0 < k < |alts| && Reached(t, alts[k], i) {
        assert Reached(t, alts[1..][k - 1], i);
      }
    }
  }

  predicate Transparent(it: Item) {
    it.Open? || it.Close? || it.Bow? || it.Eow?
  }

  /** The place of the first item that a quick test could look at. */
  function Leading(items: seq<Item>): (k: nat)
    ensures k <= |items| && (k < |items| ==> !Transparent(items[k]))
  {
    if items == [] || !Transparent(items[0]) then 0 else 1 + Leading(items[1..])
  }

  predicate Anchored(items: seq<Item>) {
    var k := Leading(items); k < |items| && items[k].Bol?
  }

  /** The first character, folded, of every match; -1 if that is not known. */
  function FirstChar(up: Ch -> Ch, items: seq<Item>): int {
    var k := Leading(items);
    if k < |items| && items[k].Str? && items[k].cs != [] then up(items[k].cs[0]) else -1
  }

  lemma {:induction false} QuickTests(t: Text, items: seq<Item>, i: nat)
    requires t.Ok() && Match(t, items, i).Found?
    ensures Anchored(items) ==> i == 0 && i != t.crater
    ensures FirstChar(t.up, items) != -1 ==> t.up(t.At(i)) == FirstChar(t.up, items)
  {
    if items != [] {
      if Transparent(items[0]) {
        QuickTests(t, items[1..], i);
      } else if items[0].Str? && items[0].cs != [] {
        assert t.Accepts(Lit(items[0].cs[0], items[0].folded), i + 0);
      }
    }
  }

  /** Runs are not empty, and a single character is a run. */
  predicate Shaped(items: seq<Item>) {
    forall k | 0 <= k < |items| :: (items[k].Str? ==> items[k].cs != []) && (items[k].One? ==> !items[k].a.Lit?)
  }

  /** REcompile's last pass over the code of a pattern that is a single alternative. */
  method PostProcess(up: Ch -> Ch, code: seq<int>, start: nat, ghost items: seq<Item>) returns (anchored: bool, firstc: int)
    requires Compiled(code, start, items) && Shaped(items)
    ensures anchored == Anchored(items) && firstc == FirstChar(up, items)
  {
    hide Compiled, ItemCode, CodeAt;
    var p: nat := start;
    ghost var rest := items;
    anchored, firstc := false, -1;
    while true
      invariant Compiled(code, p, rest) && Shaped(rest)
      invariant Anchored(items) == Anchored(rest) && FirstChar(up, items) == FirstChar(up, rest)
      decreases |rest|
    {
      CompiledHead(code, p, rest);
      if rest != [] {
        ItemAt(code, p, rest[0]);
        OpAt(code, p, rest[0]);
        LeadingStep(up, rest);
      }
      var op := code[p];
      if op == OPENP || op == CLOSEP {
        p := p + 2;
      } else if op == AT_BOW || op == AT_EOW {
        p := p + 1;
      } else {
        if op == AT_BOL {
          anchored := true;
        } else if op == NORMC || op == CINDC {
          var c: Ch := code[p + 2];
          firstc := up(c);
        }
        break;
      }
      rest := rest[1..];
    }
  }

  lemma OpAt(code: seq<int>, at: nat, it: Item)
    requires CodeAt(code, at, ItemCode(it)) && at < |code| && (it.Str? ==> it.cs != []) && (it.One? ==> !it.a.Lit?)
    ensures code[at] == ItemCode(it)[0]
    ensures code[at] == NORMC || code[at] == CINDC ==> it.Str? && at + 2 < |code| && code[at + 2] == it.cs[0]
    ensures code[at] == AT_BOL <==> it.Bol?
    ensures code[at] == OPENP <==> it.Open?
    ensures code[at] == CLOSEP <==> it.Close?
    ensures code[at] == AT_BOW <==> it.Bow?
    ensures code[at] == AT_EOW <==> it.Eow?
    ensures it.Str? ==> code[at] == NORMC || code[at] == CINDC
  {
    CodeAtByte(code, at, ItemCode(it), 0);
    if it.Str? { CodeAtByte(code, at, ItemCode(it), 2); }
  }

  lemma LeadingStep(up: Ch -> Ch, items: seq<Item>)
    requires items != []
    ensures Transparent(items[0]) ==> Anchored(items) == Anchored(items[1..]) && FirstChar(up, items) == FirstChar(up, items[1..])
    ensures !Transparent(items[0]) ==> Anchored(items) == items[0].Bol?
    ensures !Transparent(items[0]) ==> FirstChar(up, items) == if items[0].Str? && items[0].cs != [] then up(items[0].cs[0]) else -1
  {}

  datatype Dir = Forward | Backward

  /** A compiled pattern: where each alternative starts in the code, and the two quick tests. */
  datatype Block = Block(code: seq<int>, starts: seq<nat>, anchored: bool, firstc: int, nparens: nat)

  ghost predicate Suits(b: Block, up: Ch -> Ch, alts: seq<seq<Item>>) {
    && |b.starts| == |alts| > 0
    && (forall k :: 0 <= k < |alts| ==> Compiled(b.code, b.starts[k], alts[k]) && Sound(alts[k]))
    && (|alts| > 1 ==> !b.anchored && b.firstc == -1)
    && (|alts| == 1 ==> b.anchored == Anchored(alts[0]) && b.firstc == FirstChar(up, alts[0]))
  }

  /** The places that a search looks at. */
  predicate InRange(t: Text, dir: Dir, offset: nat, p: nat) {
    if dir.Forward? then offset <= p <= |t.line| else p <= offset
  }

  /** The place a search must report: the first in its direction where some alternative matches. */
  ghost predicate IsFirst(t: Text, alts: seq<seq<Item>>, dir: Dir, offset: nat, p: nat) {
    && InRange(t, dir, offset, p) && FirstAlt(t, alts, p).Found?
    && forall q: nat :: InRange(t, dir, offset, q) && FirstAlt(t, alts, q).Found? ==> if dir.Forward? then p <= q else q <= p
  }

  ghost predicate Nowhere(t: Text, alts: seq<seq<Item>>, dir: Dir, offset: nat) {
    forall q: nat :: InRange(t, dir, offset, q) ==> FirstAlt(t, alts, q).None?
  }

  /** The alternatives tried in turn at `p`. */
  method TryAlts(m: Matcher, p: nat, starts: seq<nat>, ghost alts: seq<seq<Item>>) returns (ok: bool)
    requires m.Arrays() && m.t.Ok() && p <= |m.t.line| && |starts| == |alts|
    requires forall k :: 0 <= k < |alts| ==> Compiled(m.code, starts[k], alts[k]) && Sound(alts[k])
    modifies m, m.pstrtlst, m.pendlst
    ensures ok == FirstAlt(m.t, alts, p).Found? && (ok ==> m.Success(FirstAlt(m.t, alts, p)))
  {
    hide Match, Compiled, Sound;
    var k := 0;
    assert alts[0..] == alts;
    while k < |starts|
      invariant k <= |alts| && FirstAlt(m.t, alts, p) == FirstAlt(m.t, alts[k..], p)
    {
      assert alts[k..][1..] == alts[k + 1..];
      ok := m.REmatch(p, starts[k], alts[k]);
      if ok { return; }
      k := k + 1;
    }
    ok := false;
  }

  /** re_lindex, from an offset in the line (-1: its end).  After success `bom` and REeom are the ends
      of the match and its groups are noted. */
  method re_lindex(m: Matcher, b: Block, ghost alts: seq<seq<Item>>, offset0: int, dir: Dir) returns (ok: bool, bom: nat)
    requires m.Arrays() && m.t.Ok() && Suits(b, m.t.up, alts) && m.code == b.code && -1 <= offset0 <= |m.t.line|
    requires m.t.crater == -1 || 0 <= m.t.crater <= offset0
    modifies m, m.pstrtlst, m.pendlst
    ensures var offset := if offset0 == -1 then |m.t.line| else offset0;
      if ok then IsFirst(m.t, alts, dir, offset, bom) && m.Success(FirstAlt(m.t, alts, bom)) else Nowhere(m.t, alts, dir, offset)
  {
    hide Match, Compiled, Sound, FirstChar, Anchored;
    var t := m.t;
    ghost var off: nat := if offset0 == -1 then |t.line| else offset0;
    var offset := if offset0 == -1 then |t.line| else offset0;
    bom := 0;
    if b.anchored {
      AnchoredPlaces(t, alts);
      if dir.Forward? {
        if offset != 0 || t.crater != -1 { return false, 0; }
      } else {
        offset := 0;
      }
    }
    var p: nat := offset;
    while true
      invariant InRange(t, dir, off, p) && p <= |t.line| && (b.anchored ==> p == 0)
      invariant forall q: nat :: InRange(t, dir, off, q) && FirstAlt(t, alts, q).Found? ==> if dir.Forward? then p <= q else q <= p
      decreases if dir.Forward? then |t.line| - p else p
    {
      if b.firstc != -1 {
        FirstCharAt(t, alts, p);
      }
      if b.firstc == -1 || t.up(t.At(p)) == b.firstc {
        ok := TryAlts(m, p, b.starts, alts);
        if ok { return true, p; }
      }
      if b.firstc == -1 && b.anchored { return false, 0; }
      if dir.Forward? {
        if t.At(p) == 0 {
          assert p == |t.line|;
          return false, 0;
        }
        p := p + 1;
      } else {
        if p == 0 { return false, 0; }
        p := p - 1;
      }
    }
  }

  lemma AnchoredPlaces(t: Text, alts: seq<seq<Item>>)
    requires t.Ok() && |alts| == 1 && Anchored(alts[0])
    ensures forall q: nat :: FirstAlt(t, alts, q).Found? ==> q == 0 && q != t.crater
    ensures FirstChar(t.up, alts[0]) == -1
  {
    forall q: nat | FirstAlt(t, alts, q).Found? ensures q == 0 && q != t.crater {
      assert alts[1..] == [] && FirstAlt(t, [], q) == None;
      QuickTests(t, alts[0], q);
    }
  }

  lemma FirstCharAt(t: Text, alts: seq<seq<Item>>, p: nat)
    requires t.Ok() && |alts| == 1 && FirstChar(t.up, alts[0]) != -1
    ensures t.up(t.At(p)) != FirstChar(t.up, alts[0]) ==> FirstAlt(t, alts, p).None?
  {
    assert alts[1..] == [] && FirstAlt(t, [], p) == None;
    if Match(t, alts[0], p).Found? {
      QuickTests(t, alts[0], p);
    }
  }
}
