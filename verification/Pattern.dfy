/** Regular expressions: what the pieces of a pattern match, and which match is the one wanted. */
module Pattern {
  import opened CString

  /** What matches one character, or (Back) the text of a group. */
  datatype Atom = Lit(c: Ch, folded: bool) | Any | In(m: set<Ch>, neg: bool) | Back(n: nat)

  datatype Item =
    | Str(cs: seq<Ch>, folded: bool)
    | One(a: Atom)
    | Star(a: Atom)
    | Bol | Eol | Bow | Eow
    | Open(n: nat)
    | Close(n: nat)
    | Alt(branches: Branches)

  datatype Branches = NoMore | Or(first: seq<Item>, rest: Branches)

  /** A line to match in, the place where the last substitution on it ended (or -1), and the
      character tables. */
  datatype Text = Text(line: seq<Ch>, crater: int, up: Ch -> Ch, ident: Ch -> bool)
  {
    ghost predicate Ok() {
      && 0 !in line
      && forall c: Ch :: up(c) == up(0) ==> c == 0
    }

    function At(i: nat): Ch { if i < |line| then line[i] else 0 }

    predicate Accepts(a: Atom, i: nat) {
      var c := At(i);
      c != 0 &&
      match a
      case Lit(x, folded) => if folded then up(x) == up(c) else x == c
      case Any => true
      case In(m, neg) => (c in m) != neg
      case Back(_) => false
    }

    predicate Spells(cs: seq<Ch>, folded: bool, i: nat) {
      forall k | 0 <= k < |cs| :: Accepts(Lit(cs[k], folded), i + k)
    }

    /** The items that match no characters. */
    predicate Holds(it: Item, i: nat) {
      match it
      case Bol => i == 0 && i != crater
      case Eol => i >= |line|
      case Bow => i != crater && ident(At(i)) && (i == 0 || !ident(At(i - 1)))
      case Eow => i != crater && (At(i) == 0 || !ident(At(i))) && i != 0 && ident(At(i - 1))
      case _ => true
    }
  }

  /** A match: where it ends, and where groups were opened and closed. */
  datatype Found = None | Found(end: nat, opens: map<nat, nat>, closes: map<nat, nat>)

  /** Groups noted before a match is found; a group noted again in the match is the match's. */
  function After(opens: map<nat, nat>, closes: map<nat, nat>, f: Found): Found {
    match f
    case None => None
    case Found(e, o, c) => Found(e, opens + o, closes + c)
  }

  /** How one item of a pattern is used: how often, or which branch and how that is used. */
  datatype Choice = Times(k: nat) | Branch(j: nat, sub: seq<Choice>)

  predicate AcceptsRun(t: Text, a: Atom, i: nat, k: nat) {
    forall m | i <= m < i + k :: t.Accepts(a, m)
  }

  /** How big a pattern is, nested branches included. */
  ghost function Size(items: seq<Item>): nat {
    if items == [] then 0 else 1 + SizeItem(items[0]) + Size(items[1..])
  }

  ghost function SizeItem(it: Item): nat {
    if it.Alt? then 1 + SizeBranches(it.branches) else 0
  }

  ghost function SizeBranches(bs: Branches): nat {
    match bs
    case NoMore => 0
    case Or(first, rest) => 1 + Size(first) + SizeBranches(rest)
  }

  /** The match of `items` at `i` that makes the choices `ch`. */
  function Path(t: Text, items: seq<Item>, ch: seq<Choice>, i: nat): Found
    decreases Size(items)
  {
    if items == [] then (if ch == [] then Found(i, map[], map[]) else None)
    else if ch == [] then None
    else
      match items[0]
      case Str(cs, folded) =>
        if ch[0] == Times(1) && t.Spells(cs, folded, i) then Path(t, items[1..], ch[1..], i + |cs|) else None
      case One(a) => if ch[0] == Times(1) && t.Accepts(a, i) then Path(t, items[1..], ch[1..], i + 1) else None
      case Star(a) =>
        if ch[0].Times? && AcceptsRun(t, a, i, ch[0].k) then Path(t, items[1..], ch[1..], i + ch[0].k) else None
      case Open(n) => if ch[0] == Times(0) then After(map[n := i], map[], Path(t, items[1..], ch[1..], i)) else None
      case Close(n) => if ch[0] == Times(0) then After(map[], map[n := i], Path(t, items[1..], ch[1..], i)) else None
      case Alt(bs) =>
        if ch[0].Branch? then
          assert SizeItem(items[0]) == 1 + SizeBranches(bs);
          var f := PathBranch(t, bs, ch[0].j, ch[0].sub, i);
          if f.None? then None else After(f.opens, f.closes, Path(t, items[1..], ch[1..], f.end))
        else None
      case _ => if ch[0] == Times(0) && t.Holds(items[0], i) then Path(t, items[1..], ch[1..], i) else None
  }

  function PathBranch(t: Text, bs: Branches, j: nat, sub: seq<Choice>, i: nat): Found
    decreases SizeBranches(bs)
  {
    match bs
    case NoMore => None
    case Or(first, rest) => if j == 0 then Path(t, first, sub, i) else PathBranch(t, rest, j - 1, sub, i)
  }

  /** Some prefix of the text at `i` is in the language of `items`. */
  ghost predicate InLanguage(t: Text, items: seq<Item>, i: nat) {
    exists ch :: Path(t, items, ch, i).Found?
  }

  /** How many characters from `i` on the atom accepts. */
  function Span(t: Text, a: Atom, i: nat): (k: nat)
    ensures AcceptsRun(t, a, i, k) && !t.Accepts(a, i + k)
    decreases |t.line| - i
  {
    if i < |t.line| && t.Accepts(a, i) then 1 + Span(t, a, i + 1) else 0
  }

  /** The match that is wanted: a starred item takes as much as lets the rest match; of the
      branches of an alternation the first that matches is kept. */
  function Match(t: Text, items: seq<Item>, i: nat): Found
    decreases Size(items), 0
  {
    if items == [] then Found(i, map[], map[])
    else
      match items[0]
      case Str(cs, folded) => if t.Spells(cs, folded, i) then Match(t, items[1..], i + |cs|) else None
      case One(a) => if t.Accepts(a, i) then Match(t, items[1..], i + 1) else None
      case Star(a) => MatchStar(t, items[1..], i, Span(t, a, i))
      case Open(n) => After(map[n := i], map[], Match(t, items[1..], i))
      case Close(n) => After(map[], map[n := i], Match(t, items[1..], i))
      case Alt(bs) =>
        assert SizeItem(items[0]) == 1 + SizeBranches(bs);
        var f := MatchFirst(t, bs, i);
        if f.None? then None else After(f.opens, f.closes, Match(t, items[1..], f.end))
      case _ => if t.Holds(items[0], i) then Match(t, items[1..], i) else None
  }

  /** `rest` after as many as `k` characters. */
  function MatchStar(t: Text, rest: seq<Item>, i: nat, k: nat): Found
    decreases Size(rest), 1 + k
  {
    var f := Match(t, rest, i + k);
    if f.Found? || k == 0 then f else MatchStar(t, rest, i, k - 1)
  }

  function MatchFirst(t: Text, bs: Branches, i: nat): Found
    decreases SizeBranches(bs), 0
  {
    match bs
    case NoMore => None
    case Or(first, rest) =>
      var f := Match(t, first, i);
      if f.Found? then f else MatchFirst(t, rest, i)
  }

  /** Whatever is found is in the language, groups and all. */
  lemma {:induction false} MatchSound(t: Text, items: seq<Item>, i: nat) returns (ch: seq<Choice>)
    requires Match(t, items, i).Found?
    ensures Path(t, items, ch, i) == Match(t, items, i)
    decreases Size(items), 0
  {
    if items == [] {
      ch := [];
    } else if items[0].Alt? {
      assert Size(items) == 2 + SizeBranches(items[0].branches) + Size(items[1..]);
      ch := AltSound(t, items, i);
    } else if items[0].Star? {
      var k := StarSound(t, items[1..], i, Span(t, items[0].a, i));
      var rest := MatchSound(t, items[1..], i + k);
      ch := [Times(k)] + rest;
      assert ch[1..] == rest;
    } else {
      PlainTail(t, items, i);
      var rest := MatchSound(t, items[1..], i + Width(items[0]));
      ch := [Once(items[0])] + rest;
      PlainPath(t, items, i, rest);
    }
  }

  /** How an item that is not starred and no alternation is used, and how many characters it takes. */
  function Once(it: Item): Choice { Times(if it.Str? || it.One? then 1 else 0) }

  function Width(it: Item): nat { if it.Str? then |it.cs| else if it.One? then 1 else 0 }

  lemma PlainTail(t: Text, items: seq<Item>, i: nat)
    requires items != [] && !items[0].Star? && !items[0].Alt? && Match(t, items, i).Found?
    ensures Match(t, items[1..], i + Width(items[0])).Found? && Size(items[1..]) < Size(items)
  {}

  lemma PlainPath(t: Text, items: seq<Item>, i: nat, rest: seq<Choice>)
    requires items != [] && !items[0].Star? && !items[0].Alt? && Match(t, items, i).Found?
    requires var e := i + Width(items[0]); Path(t, items[1..], rest, e) == Match(t, items[1..], e)
    ensures Path(t, items, [Once(items[0])] + rest, i) == Match(t, items, i)
  {
    var ch := [Once(items[0])] + rest;
    assert ch[1..] == rest;
  }

  lemma {:induction false} AltSound(t: Text, items: seq<Item>, i: nat) returns (ch: seq<Choice>)
    requires items != [] && items[0].Alt? && Match(t, items, i).Found?
    ensures Path(t, items, ch, i) == Match(t, items, i)
    decreases Size(items[1..]) + SizeBranches(items[0].branches), 1
  {
    var bs := items[0].branches;
    assert SizeItem(items[0]) == 1 + SizeBranches(bs);
    var j, sub := FirstSound(t, bs, i);
    var rest := MatchSound(t, items[1..], MatchFirst(t, bs, i).end);
    ch := [Branch(j, sub)] + rest;
    assert ch[1..] == rest;
  }

  lemma {:induction false} StarSound(t: Text, rest: seq<Item>, i: nat, n: nat) returns (k: nat)
    requires MatchStar(t, rest, i, n).Found?
    ensures k <= n && MatchStar(t, rest, i, n) == Match(t, rest, i + k)
    ensures forall e :: i + k < e <= i + n ==> Match(t, rest, e).None?
    decreases n
  {
    if Match(t, rest, i + n).Found? {
      k := n;
    } else {
      k := StarSound(t, rest, i, n - 1);
    }
  }

  lemma {:induction false} FirstSound(t: Text, bs: Branches, i: nat) returns (j: nat, sub: seq<Choice>)
    requires MatchFirst(t, bs, i).Found?
    ensures PathBranch(t, bs, j, sub, i) == MatchFirst(t, bs, i)
    decreases SizeBranches(bs), 0
  {
    if Match(t, bs.first, i).Found? {
      j := 0;
      sub := MatchSound(t, bs.first, i);
    } else {
      j, sub := FirstSound(t, bs.rest, i);
      j := j + 1;
    }
  }
}
