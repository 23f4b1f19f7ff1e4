/** Which derivations of a pattern the matcher can take: it commits itself at every alternation. */
module Commit {
  import opened CString
  import opened Pattern

  /** No alternation: then every use of the pattern is a vector of counts. */
  predicate Flat(items: seq<Item>) {
    forall k | 0 <= k < |items| :: !items[k].Alt?
  }

  /** `a` takes more than `b` at the first item where they differ, or they are the same. */
  predicate AtLeast(a: seq<Choice>, b: seq<Choice>) {
    if a == [] || b == [] then a == b
    else if a[0] == b[0] then AtLeast(a[1..], b[1..])
    else a[0].Times? && b[0].Times? && a[0].k > b[0].k
  }

  /** How far along the text a choice moves, in a pattern without alternations. */
  function Move(it: Item, c: Choice): nat {
    if it.Str? then |it.cs| else if it.One? then 1 else if c.Times? then c.k else 0
  }

  /** Where the first item of a derivation ends. */
  function StepEnd(t: Text, it: Item, c: Choice, i: nat): nat
    requires it.Alt? ==> c.Branch? && PathBranch(t, it.branches, c.j, c.sub, i).Found?
  {
    if it.Alt? then PathBranch(t, it.branches, c.j, c.sub, i).end else i + Move(it, c)
  }

  /** A derivation that takes, at each alternation, what the alternation gives when what follows it is left out of account. */
  ghost predicate Committed(t: Text, items: seq<Item>, ch: seq<Choice>, i: nat)
    requires Path(t, items, ch, i).Found?
    decreases Size(items), 0
  {
    if items == [] then true
    else
      assert items[0].Alt? ==> SizeItem(items[0]) == 1 + SizeBranches(items[0].branches);
      && (items[0].Alt? ==> CommittedTo(t, items[0].branches, ch[0].j, ch[0].sub, i))
      && Committed(t, items[1..], ch[1..], StepEnd(t, items[0], ch[0], i))
  }

  /** Branch `j` is the first with a committed derivation, and `sub` its preferred one. */
  ghost predicate CommittedTo(t: Text, bs: Branches, j: nat, sub: seq<Choice>, i: nat)
    requires PathBranch(t, bs, j, sub, i).Found?
    decreases SizeBranches(bs), 0
  {
    if j == 0 then Preferred(t, bs.first, sub, i)
    else (forall ch :: !Taken(t, bs.first, ch, i)) && CommittedTo(t, bs.rest, j - 1, sub, i)
  }

  /** A committed derivation. */
  ghost predicate Taken(t: Text, items: seq<Item>, ch: seq<Choice>, i: nat)
    decreases Size(items), 1
  {
    Path(t, items, ch, i).Found? && Committed(t, items, ch, i)
  }

  /** Of the committed derivations the one with the greatest counts. */
  ghost predicate Preferred(t: Text, items: seq<Item>, ch: seq<Choice>, i: nat)
    decreases Size(items), 2
  {
    Taken(t, items, ch, i) && forall ch' :: Taken(t, items, ch', i) ==> AtLeast(ch, ch')
  }

  /** Some prefix of the text at `i` has a committed derivation. */
  ghost predicate Reached(t: Text, items: seq<Item>, i: nat) {
    exists ch :: Taken(t, items, ch, i)
  }

  lemma {:induction false} AtLeastBoth(a: seq<Choice>, b: seq<Choice>)
    requires AtLeast(a, b) && AtLeast(b, a)
    ensures a == b
  {
    if a != [] && b != [] {
      AtLeastBoth(a[1..], b[1..]);
      assert a == [a[0]] + a[1..] && b == [b[0]] + b[1..];
    }
  }

  lemma SpanMost(t: Text, a: Atom, i: nat, k: nat)
    requires AcceptsRun(t, a, i, k)
    ensures k <= Span(t, a, i)
  {
    var s := Span(t, a, i);
    assert !t.Accepts(a, i + s);
  }

  lemma {:induction false} StarFinds(t: Text, rest: seq<Item>, i: nat, n: nat, k: nat)
    requires k <= n && Match(t, rest, i + k).Found?
    ensures MatchStar(t, rest, i, n).Found?
  {
    if k < n { StarFinds(t, rest, i, n - 1, k); }
  }

  /** Of a committed derivation nothing is missed. */
  lemma {:induction false} TakenFound(t: Text, items: seq<Item>, i: nat, ch: seq<Choice>)
    requires Taken(t, items, ch, i)
    ensures Match(t, items, i).Found?
    decreases Size(items), 0
  {
    if items != [] {
      var e := StepEnd(t, items[0], ch[0], i);
      match items[0] {
        case Alt(bs) =>
          assert SizeItem(items[0]) == 1 + SizeBranches(bs);
          CommittedFirst(t, bs, i, ch[0].j, ch[0].sub);
          TakenFound(t, items[1..], e, ch[1..]);
        case Star(a) =>
          TakenFound(t, items[1..], e, ch[1..]);
          SpanMost(t, a, i, ch[0].k);
          StarFinds(t, items[1..], i, Span(t, a, i), ch[0].k);
        case _ => TakenFound(t, items[1..], e, ch[1..]);
      }
    }
  }

  /** What an alternation commits itself to is the match of its first branch that matches. */
  lemma {:induction false} CommittedFirst(t: Text, bs: Branches, i: nat, j: nat, sub: seq<Choice>)
    requires PathBranch(t, bs, j, sub, i).Found? && CommittedTo(t, bs, j, sub, i)
    ensures MatchFirst(t, bs, i) == PathBranch(t, bs, j, sub, i)
    decreases SizeBranches(bs), 0
  {
    if j == 0 {
      TakenFound(t, bs.first, i, sub);
      var best := Best(t, bs.first, i);
      AtLeastBoth(sub, best);
    } else {
      if Match(t, bs.first, i).Found? {
        var best := Best(t, bs.first, i);
      }
      CommittedFirst(t, bs.rest, i, j - 1, sub);
    }
  }

  /** An alternation commits itself to one branch and one derivation of it. */
  lemma {:induction false} CommittedOnce(t: Text, bs: Branches, i: nat, j: nat, sub: seq<Choice>, j': nat, sub': seq<Choice>)
    requires PathBranch(t, bs, j, sub, i).Found? && CommittedTo(t, bs, j, sub, i)
    requires PathBranch(t, bs, j', sub', i).Found? && CommittedTo(t, bs, j', sub', i)
    ensures j == j' && sub == sub'
    decreases j
  {
    hide Taken, Path;
    if j == 0 && j' == 0 {
      AtLeastBoth(sub, sub');
    } else if j > 0 && j' > 0 {
      CommittedOnce(t, bs.rest, i, j - 1, sub, j' - 1, sub');
    }
  }

  /** What a derivation does with its first item. */
  lemma TakenStep(t: Text, items: seq<Item>, ch: seq<Choice>, i: nat)
    requires items != [] && Taken(t, items, ch, i)
    ensures ch != []
    ensures items[0].Alt? ==>
      ch[0].Branch? && PathBranch(t, items[0].branches, ch[0].j, ch[0].sub, i).Found? && CommittedTo(t, items[0].branches, ch[0].j, ch[0].sub, i)
    ensures items[0].Star? ==> ch[0].Times? && AcceptsRun(t, items[0].a, i, ch[0].k)
    ensures !items[0].Alt? && !items[0].Star? ==> ch[0] == Times(if items[0].Str? || items[0].One? then 1 else 0)
    ensures Taken(t, items[1..], ch[1..], StepEnd(t, items[0], ch[0], i))
  {}

  /** What is found is the preferred derivation, end, groups and all. */
  lemma {:induction false} Best(t: Text, items: seq<Item>, i: nat) returns (ch: seq<Choice>)
    requires Match(t, items, i).Found?
    ensures Path(t, items, ch, i) == Match(t, items, i) && Preferred(t, items, ch, i)
    decreases Size(items), 1
  {
    if items == [] {
      ch := [];
    } else {
      match items[0] {
        case Star(a) => ch := BestStar(t, items, i);
        case Alt(bs) => ch := BestAlt(t, items, i);
        case _ => ch := BestPlain(t, items, i);
      }
    }
  }

  lemma {:induction false} BestPlain(t: Text, items: seq<Item>, i: nat) returns (ch: seq<Choice>)
    requires items != [] && !items[0].Star? && !items[0].Alt? && Match(t, items, i).Found?
    ensures Path(t, items, ch, i) == Match(t, items, i) && Preferred(t, items, ch, i)
    decreases Size(items), 0
  {
    hide Path, Match, Committed, Taken, StepEnd, Move, Text.Spells, Text.Accepts, Text.Holds;
    var c0, e := Once(items[0]), i + Move(items[0], Once(items[0]));
    PlainOnward(t, items, i);
    var rest := Best(t, items[1..], e);
    ch := [c0] + rest;
    PlainCons(t, items, i, rest);
    forall ch': seq<Choice> | Taken(t, items, ch', i) ensures AtLeast(ch, ch') {
      PlainStep(t, items, ch', i);
      LeastCons(c0, rest, ch');
    }
  }

  lemma PlainOnward(t: Text, items: seq<Item>, i: nat)
    requires items != [] && !items[0].Star? && !items[0].Alt? && Match(t, items, i).Found?
    ensures Match(t, items[1..], i + Move(items[0], Once(items[0]))).Found? && Size(items[1..]) < Size(items)
  {}

  lemma PlainCons(t: Text, items: seq<Item>, i: nat, rest: seq<Choice>)
    requires items != [] && !items[0].Star? && !items[0].Alt? && Match(t, items, i).Found?
    requires var e := i + Move(items[0], Once(items[0])); Path(t, items[1..], rest, e) == Match(t, items[1..], e) && Taken(t, items[1..], rest, e)
    ensures Path(t, items, [Once(items[0])] + rest, i) == Match(t, items, i) && Taken(t, items, [Once(items[0])] + rest, i)
  {
    var ch := [Once(items[0])] + rest;
    assert ch[1..] == rest;
  }

  lemma PlainStep(t: Text, items: seq<Item>, ch: seq<Choice>, i: nat)
    requires items != [] && !items[0].Star? && !items[0].Alt? && Taken(t, items, ch, i)
    ensures ch != [] && ch[0] == Once(items[0]) && Taken(t, items[1..], ch[1..], i + Move(items[0], Once(items[0])))
  {
    hide Taken, Path, Committed;
    TakenStep(t, items, ch, i);
  }

  lemma LeastCons(c: Choice, rest: seq<Choice>, ch: seq<Choice>)
    requires ch != [] && ch[0] == c && AtLeast(rest, ch[1..])
    ensures AtLeast([c] + rest, ch)
  {
    assert ([c] + rest)[1..] == rest;
  }

  lemma {:induction false} BestStar(t: Text, items: seq<Item>, i: nat) returns (ch: seq<Choice>)
    requires items != [] && items[0].Star? && Match(t, items, i).Found?
    ensures Path(t, items, ch, i) == Match(t, items, i) && Preferred(t, items, ch, i)
    decreases Size(items), 0
  {
    hide Path, Match, MatchStar, Committed, Taken, StepEnd, AcceptsRun, Span;
    var a := items[0].a;
    StarOnward(t, items, i);
    var k := StarSound(t, items[1..], i, Span(t, a, i));
    var rest := Best(t, items[1..], i + k);
    ch := [Times(k)] + rest;
    StarCons(t, items, i, k, rest);
    forall ch': seq<Choice> | Taken(t, items, ch', i) ensures AtLeast(ch, ch') {
      StarStep(t, items, ch', i);
      SpanMost(t, a, i, ch'[0].k);
      TakenFound(t, items[1..], i + ch'[0].k, ch'[1..]);
      if ch'[0] == Times(k) { LeastCons(Times(k), rest, ch'); }
    }
  }

  lemma StarOnward(t: Text, items: seq<Item>, i: nat)
    requires items != [] && items[0].Star?
    ensures Match(t, items, i) == MatchStar(t, items[1..], i, Span(t, items[0].a, i)) && Size(items[1..]) < Size(items)
  {}

  lemma StarCons(t: Text, items: seq<Item>, i: nat, k: nat, rest: seq<Choice>)
    requires items != [] && items[0].Star? && k <= Span(t, items[0].a, i) && Taken(t, items[1..], rest, i + k)
    ensures Path(t, items, [Times(k)] + rest, i) == Path(t, items[1..], rest, i + k) && Taken(t, items, [Times(k)] + rest, i)
  {
    var ch := [Times(k)] + rest;
    assert ch[1..] == rest;
  }

  lemma StarStep(t: Text, items: seq<Item>, ch: seq<Choice>, i: nat)
    requires items != [] && items[0].Star? && Taken(t, items, ch, i)
    ensures ch != [] && ch[0].Times? && AcceptsRun(t, items[0].a, i, ch[0].k) && Taken(t, items[1..], ch[1..], i + ch[0].k)
  {
    hide Taken, Path, Committed, AcceptsRun;
    TakenStep(t, items, ch, i);
  }

  lemma {:induction false} BestAlt(t: Text, items: seq<Item>, i: nat) returns (ch: seq<Choice>)
    requires items != [] && items[0].Alt? && Match(t, items, i).Found?
    ensures Path(t, items, ch, i) == Match(t, items, i) && Preferred(t, items, ch, i)
    decreases Size(items), 0
  {
    var bs := items[0].branches;
    assert SizeItem(items[0]) == 1 + SizeBranches(bs);
    var j, sub := FirstBest(t, bs, i);
    var rest := Best(t, items[1..], MatchFirst(t, bs, i).end);
    ch := [Branch(j, sub)] + rest;
    assert ch[1..] == rest;
    forall ch': seq<Choice> | Taken(t, items, ch', i) ensures AtLeast(ch, ch') {
      TakenStep(t, items, ch', i);
      CommittedOnce(t, bs, i, j, sub, ch'[0].j, ch'[0].sub);
    }
  }

  lemma {:induction false} FirstBest(t: Text, bs: Branches, i: nat) returns (j: nat, sub: seq<Choice>)
    requires MatchFirst(t, bs, i).Found?
    ensures PathBranch(t, bs, j, sub, i) == MatchFirst(t, bs, i) && CommittedTo(t, bs, j, sub, i)
    decreases SizeBranches(bs), 0
  {
    if Match(t, bs.first, i).Found? {
      j := 0;
      sub := Best(t, bs.first, i);
    } else {
      forall ch: seq<Choice> ensures !Taken(t, bs.first, ch, i) {
        if Taken(t, bs.first, ch, i) { TakenFound(t, bs.first, i, ch); }
      }
      j, sub := FirstBest(t, bs.rest, i);
      j := j + 1;
    }
  }

  /** A match is found exactly when the text at `i` has a derivation that commits itself as the matcher does. */
  lemma MatchIffReached(t: Text, items: seq<Item>, i: nat)
    ensures Match(t, items, i).Found? <==> Reached(t, items, i)
  {
    if Match(t, items, i).Found? { var ch := Best(t, items, i); }
    if ch :| Taken(t, items, ch, i) { TakenFound(t, items, i, ch); }
  }

  /** In a pattern without alternations every derivation is committed. */
  lemma {:induction false} FlatTaken(t: Text, items: seq<Item>, ch: seq<Choice>, i: nat)
    requires Flat(items) && Path(t, items, ch, i).Found?
    ensures Taken(t, items, ch, i)
    decreases |items|
  {
    if items != [] { FlatTaken(t, items[1..], ch[1..], StepEnd(t, items[0], ch[0], i)); }
  }

  /** Without alternations, what is found is the greediest of all the ways to match: its counts
      are the greatest in the order of the items. */
  lemma MatchGreediest(t: Text, items: seq<Item>, i: nat) returns (ch: seq<Choice>)
    requires Flat(items) && Match(t, items, i).Found?
    ensures Path(t, items, ch, i) == Match(t, items, i)
    ensures forall ch' :: Path(t, items, ch', i).Found? ==> AtLeast(ch, ch')
  {
    hide Path, Match, Taken;
    ch := Best(t, items, i);
    forall ch': seq<Choice> | Path(t, items, ch', i).Found? ensures AtLeast(ch, ch') { FlatTaken(t, items, ch', i); }
  }

  // --- patterns of which nothing is missed ---

  /** How many characters every match takes; -1 if that is not fixed. */
  function FixedWidth(items: seq<Item>): int
    decreases Size(items)
  {
    if items == [] then 0
    else
      var w := match items[0]
        case Str(cs, _) => |cs|
        case One(_) => 1
        case Star(_) => -1
        case Alt(bs) => assert SizeItem(items[0]) == 1 + SizeBranches(bs); BranchesWidth(bs)
        case _ => 0;
      var r := FixedWidth(items[1..]);
      if w < 0 || r < 0 then -1 else w + r
  }

  function BranchesWidth(bs: Branches): int
    decreases SizeBranches(bs)
  {
    match bs
    case NoMore => -1
    case Or(first, NoMore) => FixedWidth(first)
    case Or(first, rest) => if FixedWidth(first) == BranchesWidth(rest) then FixedWidth(first) else -1
  }

  /** Matches everywhere. */
  predicate Unfailing(items: seq<Item>)
    decreases Size(items)
  {
    items == [] ||
    ((match items[0]
      case Open(_) => true
      case Close(_) => true
      case Star(_) => true
      case Alt(bs) => assert SizeItem(items[0]) == 1 + SizeBranches(bs); UnfailingBranch(bs)
      case _ => false) && Unfailing(items[1..]))
  }

  predicate UnfailingBranch(bs: Branches)
    decreases SizeBranches(bs)
  {
    match bs
    case NoMore => false
    case Or(first, rest) => Unfailing(first) || UnfailingBranch(rest)
  }

  /** At every alternation it does not matter what is committed to: all its branches take as many
      characters, or what follows it on its level matches everywhere. */
  predicate Settled(items: seq<Item>)
    decreases Size(items)
  {
    items == [] ||
    (Settled(items[1..]) &&
     (items[0].Alt? ==>
        assert SizeItem(items[0]) == 1 + SizeBranches(items[0].branches);
        SettledBranches(items[0].branches) && (BranchesWidth(items[0].branches) >= 0 || Unfailing(items[1..]))))
  }

  predicate SettledBranches(bs: Branches)
    decreases SizeBranches(bs)
  {
    match bs
    case NoMore => true
    case Or(first, rest) => Settled(first) && SettledBranches(rest)
  }

  lemma {:induction false} FlatSettled(items: seq<Item>)
    requires Flat(items)
    ensures Settled(items)
    decreases |items|
  {
    if items != [] { FlatSettled(items[1..]); }
  }

  lemma {:induction false} WidthOf(t: Text, items: seq<Item>, ch: seq<Choice>, i: nat)
    requires Path(t, items, ch, i).Found? && FixedWidth(items) >= 0
    ensures Path(t, items, ch, i).end == i + FixedWidth(items)
    decreases Size(items), 0
  {
    if items != [] {
      if items[0].Alt? {
        assert SizeItem(items[0]) == 1 + SizeBranches(items[0].branches);
        BranchWidth(t, items[0].branches, ch[0].j, ch[0].sub, i);
      }
      WidthOf(t, items[1..], ch[1..], StepEnd(t, items[0], ch[0], i));
    }
  }

  lemma {:induction false} BranchWidth(t: Text, bs: Branches, j: nat, sub: seq<Choice>, i: nat)
    requires PathBranch(t, bs, j, sub, i).Found? && BranchesWidth(bs) >= 0
    ensures PathBranch(t, bs, j, sub, i).end == i + BranchesWidth(bs)
    decreases SizeBranches(bs), 0
  {
    if j == 0 { WidthOf(t, bs.first, sub, i); } else { BranchWidth(t, bs.rest, j - 1, sub, i); }
  }

  lemma {:induction false} UnfailingMatches(t: Text, items: seq<Item>, i: nat)
    requires Unfailing(items)
    ensures Match(t, items, i).Found?
    decreases Size(items), 0
  {
    if items != [] {
      match items[0] {
        case Star(a) =>
          UnfailingMatches(t, items[1..], i + 0);
          StarFinds(t, items[1..], i, Span(t, a, i), 0);
        case Alt(bs) =>
          assert SizeItem(items[0]) == 1 + SizeBranches(bs);
          UnfailingFirst(t, bs, i);
          UnfailingMatches(t, items[1..], MatchFirst(t, bs, i).end);
        case Open(_) => UnfailingMatches(t, items[1..], i);
        case Close(_) => UnfailingMatches(t, items[1..], i);
        case _ =>
      }
    }
  }

  lemma {:induction false} UnfailingFirst(t: Text, bs: Branches, i: nat)
    requires UnfailingBranch(bs)
    ensures MatchFirst(t, bs, i).Found?
    decreases SizeBranches(bs), 0
  {
    if Unfailing(bs.first) { UnfailingMatches(t, bs.first, i); } else { UnfailingFirst(t, bs.rest, i); }
  }

  /** Of a settled pattern's language nothing is missed. */
  lemma {:induction false} SettledFound(t: Text, items: seq<Item>, i: nat, ch: seq<Choice>)
    requires Settled(items) && Path(t, items, ch, i).Found?
    ensures Match(t, items, i).Found?
    decreases Size(items), 0
  {
    if items != [] {
      var e := StepEnd(t, items[0], ch[0], i);
      match items[0] {
        case Alt(bs) =>
          assert SizeItem(items[0]) == 1 + SizeBranches(bs);
          SettledFirst(t, bs, i, ch[0].j, ch[0].sub);
          if BranchesWidth(bs) >= 0 {
            var j, sub := FirstSound(t, bs, i);
            BranchWidth(t, bs, j, sub, i);
            BranchWidth(t, bs, ch[0].j, ch[0].sub, i);
            SettledFound(t, items[1..], e, ch[1..]);
          } else {
            UnfailingMatches(t, items[1..], MatchFirst(t, bs, i).end);
          }
        case Star(a) =>
          SettledFound(t, items[1..], e, ch[1..]);
          SpanMost(t, a, i, ch[0].k);
          StarFinds(t, items[1..], i, Span(t, a, i), ch[0].k);
        case _ => SettledFound(t, items[1..], e, ch[1..]);
      }
    }
  }

  lemma {:induction false} SettledFirst(t: Text, bs: Branches, i: nat, j: nat, sub: seq<Choice>)
    requires SettledBranches(bs) && PathBranch(t, bs, j, sub, i).Found?
    ensures MatchFirst(t, bs, i).Found?
    decreases SizeBranches(bs), 0
  {
    if j == 0 { SettledFound(t, bs.first, i, sub); } else { SettledFirst(t, bs.rest, i, j - 1, sub); }
  }

  /** A settled pattern matches at `i` exactly when some prefix of the text there is in its language;
      any pattern, only then. */
  lemma MatchIffInLanguage(t: Text, items: seq<Item>, i: nat)
    ensures Match(t, items, i).Found? ==> InLanguage(t, items, i)
    ensures Settled(items) && InLanguage(t, items, i) ==> Match(t, items, i).Found?
  {
    if Match(t, items, i).Found? {
      var ch := MatchSound(t, items, i);
    }
    if Settled(items) && InLanguage(t, items, i) {
      var ch :| Path(t, items, ch, i).Found?;
      SettledFound(t, items, i, ch);
    }
  }

  /** A text of the language can be missed: `\{a\|ab\}c` does not match "abc". */
  lemma AlternationMisses(t: Text, bs: Branches, items: seq<Item>)
    requires t.line == [97, 98, 99] && bs == Or([Str([97], false)], Or([Str([97, 98], false)], NoMore))
    requires items == [Alt(bs), Str([99], false)]
    ensures InLanguage(t, items, 0) && Match(t, items, 0).None?
  {
    assert t.Spells([97], false, 0) && t.Spells([97, 98], false, 0) && t.Spells([99], false, 2);
    assert !t.Accepts(Lit([99][0], false), 1 + 0);
    MatchOne([97], t, 0);
    MatchOne([99], t, 1);
    assert items[1..] == [Str([99], false)];
    assert MatchFirst(t, bs, 0) == Match(t, [Str([97], false)], 0);
    PathOne([97, 98], t, 0);
    PathOne([99], t, 2);
    assert PathBranch(t, bs, 1, [Times(1)], 0) == PathBranch(t, bs.rest, 0, [Times(1)], 0);
    var ch := [Branch(1, [Times(1)]), Times(1)];
    assert ch[1..] == [Times(1)];
    assert Path(t, items, ch, 0).Found?;
  }

  lemma MatchOne(cs: seq<Ch>, t: Text, i: nat)
    ensures Match(t, [Str(cs, false)], i) == if t.Spells(cs, false, i) then Found(i + |cs|, map[], map[]) else None
  {
    assert [Str(cs, false)][1..] == [];
  }

  lemma PathOne(cs: seq<Ch>, t: Text, i: nat)
    requires t.Spells(cs, false, i)
    ensures Path(t, [Str(cs, false)], [Times(1)], i) == Found(i + |cs|, map[], map[])
  {
    assert [Str(cs, false)][1..] == [] && [Times(1)][1..] == [];
  }

  /** So can one be with a single branch, whose star keeps all it can take: `\{a*\}a` does not match "aa". */
  lemma AtomicMisses(t: Text, items: seq<Item>)
    requires t.line == [97, 97]
    requires items == [Alt(Or([Star(Lit(97, false))], NoMore)), Str([97], false)]
    ensures InLanguage(t, items, 0) && Match(t, items, 0).None?
  {
    var a, bs := Lit(97, false), items[0].branches;
    assert items[1..] == [Str([97], false)] && bs.first[1..] == [];
    assert t.Accepts(a, 0) && t.Accepts(a, 1) && !t.Accepts(a, 2);
    assert Span(t, a, 2) == 0;
    assert Span(t, a, 1) == 1;
    assert Span(t, a, 0) == 2;
    assert Match(t, bs.first, 0) == MatchStar(t, [], 0, 2) == Match(t, [], 2) == Found(2, map[], map[]);
    assert MatchFirst(t, bs, 0) == Found(2, map[], map[]);
    MatchOne([97], t, 2);
    assert !t.Accepts(Lit([97 as Ch][0], false), 2 + 0);
    PathOne([97], t, 1);
    var ch := [Branch(0, [Times(1)]), Times(1)];
    assert ch[1..] == [Times(1)] && [Times(1)][1..] == [];
    assert Path(t, bs.first, [Times(1)], 0) == Path(t, [], [], 1) == Found(1, map[], map[]);
    assert PathBranch(t, bs, 0, [Times(1)], 0) == Found(1, map[], map[]);
    assert Path(t, items, ch, 0).Found?;
  }
}
