/** The matcher: a backtracking interpreter of pattern code that notes groups as it goes. */
module ReMatch {
  import opened CString
  import opened Pattern
  import opened ReCode

  /** `s` stands in `code` at `at`. */
  ghost predicate CodeAt(code: seq<int>, at: nat, s: seq<int>) {
    at + |s| <= |code| && code[at..at + |s|] == s
  }

  lemma CodeAtParts(code: seq<int>, at: nat, a: seq<int>, b: seq<int>)
    requires CodeAt(code, at, a + b)
    ensures CodeAt(code, at, a) && CodeAt(code, at + |a|, b)
  {
    assert code[at..at + |a + b|][..|a|] == code[at..at + |a|];
    assert code[at..at + |a + b|][|a|..] == code[at + |a|..at + |a| + |b|];
  }

  lemma CodeAtByte(code: seq<int>, at: nat, s: seq<int>, k: nat)
    requires CodeAt(code, at, s) && k < |s|
    ensures at + k < |code| && code[at + k] == s[k]
  {
    assert code[at..at + |s|][k] == s[k];
  }

  /** The code of `items`, closed by the end of a pattern, stands at `at`. */
  ghost predicate Compiled(code: seq<int>, at: nat, items: seq<Item>) {
    CodeAt(code, at, Code(items) + [EOP])
  }

  lemma CompiledHead(code: seq<int>, at: nat, items: seq<Item>)
    requires Compiled(code, at, items)
    ensures at < |code|
    ensures items == [] ==> code[at] == EOP
    ensures items != [] ==> CodeAt(code, at, ItemCode(items[0])) && code[at] == ItemCode(items[0])[0]
    ensures items != [] ==> Compiled(code, at + |ItemCode(items[0])|, items[1..])
  {
    CodeAtByte(code, at, Code(items) + [EOP], 0);
    if items != [] {
      var c, r := ItemCode(items[0]), Code(items[1..]);
      assert (c + r) + [EOP] == c + (r + [EOP]);
      CodeAtParts(code, at, c, r + [EOP]);
      CodeAtByte(code, at, c, 0);
    }
  }

  /** Nothing changed outside `except`. */
  ghost predicate Kept(before: seq<int>, after: seq<int>, except: set<nat>) {
    |before| == |after| && forall g :: 0 <= g < |before| && g !in except ==> after[g] == before[g]
  }

  ghost predicate Noted(m: map<nat, nat>, groups: seq<int>) {
    forall g :: g in m ==> g < |groups| && groups[g] == m[g]
  }

  /** `m` is noted, but for groups that are still to be noted. */
  ghost predicate NotedBut(m: map<nat, nat>, groups: seq<int>, later: set<nat>) {
    forall g :: g in m && g !in later ==> g < |groups| && groups[g] == m[g]
  }

  lemma AfterAfter(o: map<nat, nat>, c: map<nat, nat>, o': map<nat, nat>, c': map<nat, nat>, f: Found)
    ensures After(o, c, After(o', c', f)) == After(o + o', c + c', f)
  {
    if f.Found? {
      assert o + (o' + f.opens) == (o + o') + f.opens;
      assert c + (c' + f.closes) == (c + c') + f.closes;
    }
  }

  /** What one item contributes, case by case. */
  lemma MatchHead(t: Text, items: seq<Item>, i: nat)
    requires items != []
    ensures match items[0]
            case Str(cs, folded) =>
              Match(t, items, i) == if t.Spells(cs, folded, i) then Match(t, items[1..], i + |cs|) else None
            case One(a) => Match(t, items, i) == if t.Accepts(a, i) then Match(t, items[1..], i + 1) else None
            case Star(a) => Match(t, items, i) == MatchStar(t, items[1..], i, Span(t, a, i))
            case Open(n) => Match(t, items, i) == After(map[n := i], map[], Match(t, items[1..], i))
            case Close(n) => Match(t, items, i) == After(map[], map[n := i], Match(t, items[1..], i))
            case Alt(bs) =>
              Match(t, items, i) == (var f := MatchFirst(t, bs, i);
              if f.None? then None else After(f.opens, f.closes, Match(t, items[1..], f.end)))
            case _ => Match(t, items, i) == if t.Holds(items[0], i) then Match(t, items[1..], i) else None
  {}

  lemma SoundHead(items: seq<Item>)
    requires Sound(items) && items != []
    ensures Sound(items[1..]) && Size(items[1..]) < Size(items)
    ensures OpenSet(items) == (match items[0] case Open(n) => {n} case Alt(bs) => OpenSetB(bs) case _ => {}) + OpenSet(items[1..])
    ensures CloseSet(items) == (match items[0] case Close(n) => {n} case Alt(bs) => CloseSetB(bs) case _ => {}) + CloseSet(items[1..])
    ensures !items[0].Open? && !items[0].Alt? ==> OpenSet(items) == OpenSet(items[1..])
    ensures !items[0].Close? && !items[0].Alt? ==> CloseSet(items) == CloseSet(items[1..])
    ensures match items[0]
            case Str(cs, _) => 1 <= |cs| <= 127 && (forall k :: 0 <= k < |cs| ==> cs[k] != 0)
            case One(a) => a.Any? || a.In?
            case Star(a) => (a.Lit? && a.c != 0) || a.Any? || a.In?
            case Open(n) => n < NPAR
            case Close(n) => n < NPAR
            case Alt(bs) => Count(bs) <= 127 && SoundB(bs, OpenSetB(bs), CloseSetB(bs)) && SizeBranches(bs) < Size(items)
            case _ => true
  {
    if items[0].Alt? { assert SizeItem(items[0]) == 1 + SizeBranches(items[0].branches); }
  }

  /** When the next code is a literal run, its first character tells whether it can match. */
  lemma Lookahead(t: Text, code: seq<int>, at: nat, items: seq<Item>, i: nat)
    requires Compiled(code, at, items) && Sound(items) && at < |code| && code[at] == NORMC
    ensures at + 2 < |code|
    ensures t.At(i) != code[at + 2] ==> Match(t, items, i).None?
  {
    CompiledHead(code, at, items);
    if items != [] {
      SoundHead(items);
      MatchHead(t, items, i);
      var it := items[0];
      assert it.Str? && !it.folded;
      CodeAtByte(code, at, ItemCode(it), 2);
      assert code[at + 2] == it.cs[0];
      assert t.At(i) != it.cs[0] ==> !t.Accepts(Lit(it.cs[0], it.folded), i + 0);
    }
  }

  lemma MatchStarDown(t: Text, rest: seq<Item>, i: nat, k: nat)
    ensures Match(t, rest, i + k).Found? ==> MatchStar(t, rest, i, k) == Match(t, rest, i + k)
    ensures k == 0 ==> MatchStar(t, rest, i, k) == Match(t, rest, i)
    ensures k > 0 && Match(t, rest, i + k).None? ==> MatchStar(t, rest, i, k) == MatchStar(t, rest, i, k - 1)
  {}

  lemma KeptTwice(a: seq<int>, b: seq<int>, c: seq<int>, except: set<nat>, except': set<nat>)
    requires Kept(a, b, except) && Kept(b, c, except') && except' <= except
    ensures Kept(a, c, except)
  {}

  /** Earlier notes survive what only later groups are noted in. */
  lemma NotedStill(m: map<nat, nat>, a: seq<int>, b: seq<int>, later: set<nat>)
    requires NotedBut(m, a, later) && Kept(a, b, later)
    ensures NotedBut(m, b, later)
  {}

  class Matcher {
    const t: Text
    const code: seq<int>
    const pstrtlst: array<int>
    const pendlst: array<int>
    var loc2: nat
    var REeom: nat

    constructor (t: Text, code: seq<int>)
      ensures this.t == t && this.code == code
      ensures fresh(pstrtlst) && fresh(pendlst) && pstrtlst != pendlst && pstrtlst.Length == pendlst.Length == NPAR
    {
      this.t, this.code := t, code;
      pstrtlst := new int[NPAR](_ => -1);
      pendlst := new int[NPAR](_ => -1);
      loc2, REeom := 0, 0;
    }

    ghost predicate Arrays() {
      pstrtlst != pendlst && pstrtlst.Length == pendlst.Length == NPAR
    }

    /** `member` */
    method member(at: nat, i: nat, af: bool, ghost m: set<Ch>) returns (r: bool)
      requires CodeAt(code, at, Bits(m)) && i <= |t.line|
      ensures r == t.Accepts(In(m, !af), i)
    {
      var c := t.At(i);
      if c == 0 { return false; }
      CodeAtByte(code, at, Bits(m), c / 8);
      TestBits(m, c);
      var byte: nat := code[at + c / 8];
      r := if TestBit(byte, c % 8) then af else !af;
    }

    /** The comparison of a literal run: NORMC and CINDC. */
    method Compare(linep: nat, at: nat, ghost cs: seq<Ch>, folded: bool, n: nat) returns (ok: bool)
      requires t.Ok() && linep <= |t.line| && CodeAt(code, at, Widen(cs)) && n == |cs|
      requires forall k :: 0 <= k < |cs| ==> cs[k] != 0
      ensures ok == t.Spells(cs, folded, linep)
      ensures ok ==> linep + n <= |t.line|
    {
      var k := 0;
      while k < n
        invariant 0 <= k <= n && linep + k <= |t.line|
        invariant forall j :: 0 <= j < k ==> t.Accepts(Lit(cs[j], folded), linep + j)
      {
        CodeAtByte(code, at, Widen(cs), k);
        var x: Ch := code[at + k];
        var c := t.At(linep + k);
        if (if folded then t.up(x) != t.up(c) else x != c) {
          assert !t.Accepts(Lit(cs[k], folded), linep + k);
          return false;
        }
        k := k + 1;
      }
      ok := true;
    }

    /** The scan of a starred item: one past the first character that it does not match. */
    method Scan(linep: nat, at: nat, op: int, ghost a: Atom) returns (p: nat)
      requires t.Ok() && linep <= |t.line|
      requires match a
               case Any => op == ANYC + STAR
               case Lit(c, folded) => op == StrOp(folded) + STAR && c != 0 && CodeAt(code, at, [c])
               case In(m, neg) => op == SetOp(neg) + STAR && CodeAt(code, at, Bits(m))
               case Back(_) => false
      ensures p == linep + Span(t, a, linep) + 1 && linep + Span(t, a, linep) <= |t.line|
    {
      p := linep;
      while true
        invariant linep <= p <= |t.line| && linep + Span(t, a, linep) == p + Span(t, a, p)
        decreases |t.line| - p
      {
        var c := t.At(p);
        var more;
        if op == ANYC + STAR {
          more := c != 0;
        } else if op == NORMC + STAR || op == CINDC + STAR {
          CodeAtByte(code, at, [a.c], 0);
          var x: Ch := code[at];
          more := if op == NORMC + STAR then x == c else t.up(x) == t.up(c);
        } else {
          more := member(at, p, op == ONE_OF + STAR, a.m);
        }
        assert more == t.Accepts(a, p);
        p := p + 1;
        if !more { break; }
      }
    }

    /** The tests that match no characters. */
    function Here(op: int, i: nat): bool {
      if op == AT_BOL then i == 0 && i != t.crater
      else if op == AT_EOL then t.At(i) == 0
      else if op == AT_BOW then i != t.crater && t.ident(t.At(i)) && (i == 0 || !t.ident(t.At(i - 1)))
      else i != t.crater && (t.At(i) == 0 || !t.ident(t.At(i))) && i != 0 && t.ident(t.At(i - 1))
    }

    lemma HereHolds(op: int, it: Item, i: nat)
      requires t.Ok()
      requires (op == AT_BOL && it.Bol?) || (op == AT_EOL && it.Eol?) || (op == AT_BOW && it.Bow?) || (op == AT_EOW && it.Eow?)
      ensures Here(op, i) == t.Holds(it, i)
    {
      assert i < |t.line| ==> t.line[i] != 0;
    }

    /** A match has been found, and its groups are noted. */
    ghost predicate Success(f: Found)
      reads this, pstrtlst, pendlst
    {
      f.Found? && loc2 == REeom == f.end <= |t.line| && Noted(f.opens, pstrtlst[..]) && Noted(f.closes, pendlst[..])
    }

    /** The retreat of a starred item: `linep` is one past what it can take. */
    method StarRetreat(first_p: nat, linep0: nat, comp: nat, ghost rest: seq<Item>) returns (ok: bool)
      requires Arrays() && t.Ok() && first_p < linep0 && linep0 - 1 <= |t.line| && Compiled(code, comp, rest) && Sound(rest)
      modifies this`loc2, this`REeom, pstrtlst, pendlst
      ensures ok ==> Success(MatchStar(t, rest, first_p, linep0 - 1 - first_p))
      ensures !ok ==> MatchStar(t, rest, first_p, linep0 - 1 - first_p) == Match(t, rest, first_p)
      ensures Kept(old(pstrtlst[..]), pstrtlst[..], OpenSet(rest)) && Kept(old(pendlst[..]), pendlst[..], CloseSet(rest))
      decreases Size(rest), 2
    {
      hide Match, MatchStar, Compiled, Sound, OpenSet, CloseSet, Size;
      CompiledHead(code, comp, rest);
      ghost var n := linep0 - 1 - first_p;
      var linep := linep0 - 1;
      while linep > first_p
        invariant first_p <= linep <= |t.line|
        invariant MatchStar(t, rest, first_p, n) == MatchStar(t, rest, first_p, linep - first_p)
        invariant Kept(old(pstrtlst[..]), pstrtlst[..], OpenSet(rest)) && Kept(old(pendlst[..]), pendlst[..], CloseSet(rest))
      {
        MatchStarDown(t, rest, first_p, linep - first_p);
        if code[comp] == NORMC { Lookahead(t, code, comp, rest, linep); }
        if code[comp] != NORMC || t.At(linep) == code[comp + 2] {
          ok := REmatch(linep, comp, rest);
          if ok { return true; }
        }
        linep := linep - 1;
      }
      MatchStarDown(t, rest, first_p, 0);
      ok := false;
    }

    /** ANYC, ONE_OF and NONE_OF. */
    method OneItem(linep: nat, comp: nat, op: int, ghost a: Atom) returns (ok: bool)
      requires t.Ok() && linep <= |t.line|
      requires (a.Any? && op == ANYC) || (a.In? && op == SetOp(a.neg) && CodeAt(code, comp + 1, Bits(a.m)))
      ensures ok == t.Accepts(a, linep) && (ok ==> linep < |t.line|)
    {
      if op == ANYC {
        ok := t.At(linep) != 0;
      } else {
        ok := member(comp + 1, linep, op == ONE_OF, a.m);
      }
    }

    /** A starred item and what follows it: all of it is found, or it is left to match here. */
    method StarItem(linep: nat, comp: nat, op: int, ghost a: Atom, ghost rest: seq<Item>) returns (ok: bool, comp': nat)
      requires Arrays() && t.Ok() && linep <= |t.line| && Sound(rest)
      requires CodeAt(code, comp, ItemCode(Star(a))) && comp < |code| && code[comp] == op == ItemCode(Star(a))[0]
      requires (a.Lit? && a.c != 0) || a.Any? || a.In?
      requires Compiled(code, comp + |ItemCode(Star(a))|, rest)
      modifies this`loc2, this`REeom, pstrtlst, pendlst
      ensures comp' == comp + |ItemCode(Star(a))|
      ensures ok ==> var f := MatchStar(t, rest, linep, Span(t, a, linep));
        Success(f) && f.opens.Keys == OpenSet(rest) && f.closes.Keys == CloseSet(rest)
      ensures !ok ==> MatchStar(t, rest, linep, Span(t, a, linep)) == Match(t, rest, linep)
      ensures Kept(old(pstrtlst[..]), pstrtlst[..], OpenSet(rest)) && Kept(old(pendlst[..]), pendlst[..], CloseSet(rest))
      decreases Size(rest), 3
    {
      hide Match, MatchStar, Compiled, Sound, OpenSet, CloseSet, Size, ItemCode, Span;
      ItemAt(code, comp, Star(a));
      var p := Scan(linep, comp + 1, op, a);
      comp' := comp + (if op == ANYC + STAR then 1 else if op == NORMC + STAR || op == CINDC + STAR then 2 else 1 + SETSIZE);
      ok := StarRetreat(linep, p, comp', rest);
      if ok { StarNotes(t, rest, linep, p - 1 - linep); }
    }

    /** CURLYB: the branches in turn, until one matches. */
    method TryBranches(linep: nat, comp: nat, altcnt: int, ghost bs: Branches, ghost opens: set<nat>, ghost closes: set<nat>)
      returns (any: bool, comp': nat)
      requires Arrays() && t.Ok() && linep <= |t.line| && CodeAt(code, comp, BranchesCode(bs)) && altcnt == Count(bs)
      requires SoundB(bs, opens, closes)
      modifies this`loc2, this`REeom, pstrtlst, pendlst
      ensures comp' == comp + |BranchesCode(bs)|
      ensures any == MatchFirst(t, bs, linep).Found? && (any ==> Success(MatchFirst(t, bs, linep)))
      ensures Kept(old(pstrtlst[..]), pstrtlst[..], opens) && Kept(old(pendlst[..]), pendlst[..], closes)
      decreases SizeBranches(bs), 0
    {
      hide Match, Compiled, Sound, OpenSet, CloseSet, Size;
      var cnt := altcnt;
      any, comp' := false, comp;
      ghost var left := bs;
      while cnt > 0
        invariant CodeAt(code, comp', BranchesCode(left)) && cnt == Count(left) && SoundB(left, opens, closes)
        invariant SizeBranches(left) <= SizeBranches(bs) && comp' + |BranchesCode(left)| == comp + |BranchesCode(bs)|
        invariant any ==> Success(MatchFirst(t, bs, linep))
        invariant !any ==> MatchFirst(t, bs, linep) == MatchFirst(t, left, linep)
        invariant Kept(old(pstrtlst[..]), pstrtlst[..], opens) && Kept(old(pendlst[..]), pendlst[..], closes)
      {
        cnt := cnt - 1;
        BranchAt(code, comp', left);
        if !any {
          any := REmatch(linep, comp' + ALT_LEN_LEN, left.first);
        }
        comp' := comp' + (code[comp'] + 256 * code[comp' + 1]);
        left := left.rest;
      }
    }

    /** The opcodes of the items that match one way at most: runs, single characters, sets and tests. */
    predicate Fixed(op: int) {
      op == NORMC || op == CINDC || op == ANYC || op == ONE_OF || op == NONE_OF ||
      op == AT_BOL || op == AT_EOL || op == AT_BOW || op == AT_EOW
    }

    /** An item that matches one way at most, at the head of `rest`. */
    method FixedItem(linep: nat, comp: nat, op: int, ghost rest: seq<Item>) returns (same: bool, linep': nat, comp': nat)
      requires t.Ok() && linep <= |t.line| && rest != [] && Sound(rest) && Fixed(op)
      requires CodeAt(code, comp, ItemCode(rest[0])) && comp < |code| && code[comp] == op == ItemCode(rest[0])[0]
      ensures !rest[0].Open? && !rest[0].Close? && !rest[0].Alt?
      ensures Match(t, rest, linep) == if same then Match(t, rest[1..], linep') else None
      ensures same ==> linep' <= |t.line| && comp' == comp + |ItemCode(rest[0])|
    {
      hide Match, MatchStar, MatchFirst, Sound, SoundB, OpenSet, CloseSet, Size, ItemCode, CodeAt, Widen, Bits, BranchesCode, Span, Count,
        Text.At, Text.Accepts, Text.Holds, Text.Spells, Text.Ok, Matcher.Here;
      linep', comp' := linep, comp;
      SoundHead(rest);
      MatchHead(t, rest, linep);
      ItemAt(code, comp, rest[0]);
      ghost var it := rest[0];
      if op == NORMC || op == CINDC {
        var n := code[comp + 1];
        same := Compare(linep, comp + 2, it.cs, op == CINDC, n);
        linep', comp' := linep + n, comp + 2 + n;
      } else if op == ANYC || op == ONE_OF || op == NONE_OF {
        same := OneItem(linep, comp, op, it.a);
        linep', comp' := linep + 1, comp + (if op == ANYC then 1 else 1 + SETSIZE);
      } else {
        HereHolds(op, it, linep);
        same := Here(op, linep);
        comp' := comp + 1;
      }
    }

    /** The interpreter.  It finds a match exactly when `Match` does, and then leaves its end and
        its groups, whatever attempts were abandoned on the way. */
    method REmatch(linep0: nat, comp0: nat, ghost items: seq<Item>) returns (ok: bool)
      requires Arrays() && t.Ok() && linep0 <= |t.line| && Compiled(code, comp0, items) && Sound(items)
      modifies this`loc2, this`REeom, pstrtlst, pendlst
      ensures ok == Match(t, items, linep0).Found?
      ensures ok ==> Success(Match(t, items, linep0))
      ensures Kept(old(pstrtlst[..]), pstrtlst[..], OpenSet(items)) && Kept(old(pendlst[..]), pendlst[..], CloseSet(items))
      decreases Size(items), 1
    {
      hide Match, MatchStar, MatchFirst, Compiled, Sound, SoundB, OpenSet, CloseSet, OpenSetB, CloseSetB, Size, SizeBranches, ItemCode, Kept, Noted, NotedBut,
        CodeAt, BranchesCode, Span, After, Count, Text.At, Text.Accepts, Text.Holds, Text.Spells, Text.Ok, Matcher.Here;
      var linep: nat, comp: nat := linep0, comp0;
      ghost var rest := items;
      ghost var po: map<nat, nat>, pc: map<nat, nat> := map[], map[];
      ghost var strs, ends := pstrtlst[..], pendlst[..];
      Begin(Match(t, items, linep0), strs, ends, OpenSet(items), CloseSet(items));
      while true
        invariant linep <= |t.line| && Compiled(code, comp, rest) && Sound(rest) && Size(rest) <= Size(items)
        invariant Match(t, items, linep0) == After(po, pc, Match(t, rest, linep))
        invariant OpenSet(items) == po.Keys + OpenSet(rest) && CloseSet(items) == pc.Keys + CloseSet(rest)
        invariant NotedBut(po, pstrtlst[..], OpenSet(rest)) && NotedBut(pc, pendlst[..], CloseSet(rest))
        invariant Kept(strs, pstrtlst[..], OpenSet(items)) && Kept(ends, pendlst[..], CloseSet(items))
        decreases Size(rest)
      {
        CompiledHead(code, comp, rest);
        var op := code[comp];
        if rest != [] {
          SoundHead(rest);
          MatchHead(t, rest, linep);
          ItemAt(code, comp, rest[0]);
        }
        if op == EOP {
          assert rest == [];
          End(t, items, linep0, po, pc, linep, pstrtlst[..], pendlst[..]);
          loc2, REeom := linep, linep;
          return true;
        }
        ghost var it, tail := rest[0], rest[1..];
        AfterNone(po, pc);
        if Fixed(op) {
          var same;
          same, linep, comp := FixedItem(linep, comp, op, rest);
          if !same { return false; }
        } else if op == OPENP {
          var n: nat := code[comp + 1];
          NoteOpen(po, pc, n, linep, pstrtlst[..], OpenSet(tail), Match(t, tail, linep));
          Change(strs, pstrtlst[..], OpenSet(items), n, linep);
          pstrtlst[n] := linep;
          po := po + map[n := linep];
          comp := comp + 2;
        } else if op == CLOSEP {
          var n: nat := code[comp + 1];
          NoteClose(po, pc, n, linep, pendlst[..], CloseSet(tail), Match(t, tail, linep));
          Change(ends, pendlst[..], CloseSet(items), n, linep);
          pendlst[n] := linep;
          pc := pc + map[n := linep];
          comp := comp + 2;
        } else if op == CURLYB {
          ghost var s0, e0 := pstrtlst[..], pendlst[..];
          ghost var f := MatchFirst(t, it.branches, linep);
          var any, comp' := TryBranches(linep, comp + 2, code[comp + 1], it.branches, OpenSetB(it.branches), CloseSetB(it.branches));
          KeptTwice(strs, s0, pstrtlst[..], OpenSet(items), OpenSetB(it.branches));
          KeptTwice(ends, e0, pendlst[..], CloseSet(items), CloseSetB(it.branches));
          if !any { return false; }
          FirstNotes(t, it.branches, linep, OpenSetB(it.branches), CloseSetB(it.branches));
          JoinBoth(po, pc, f, s0, e0, pstrtlst[..], pendlst[..], OpenSet(tail), CloseSet(tail), Match(t, tail, f.end));
          po, pc := po + f.opens, pc + f.closes;
          linep, comp := loc2, comp';
        } else {
          ghost var s0, e0 := pstrtlst[..], pendlst[..];
          ok, comp := StarItem(linep, comp, op, it.a, tail);
          KeptTwice(strs, s0, pstrtlst[..], OpenSet(items), OpenSet(tail));
          KeptTwice(ends, e0, pendlst[..], CloseSet(items), CloseSet(tail));
          NotedStill(po, s0, pstrtlst[..], OpenSet(tail));
          NotedStill(pc, e0, pendlst[..], CloseSet(tail));
          if ok {
            Finish(po, pc, Match(t, rest, linep), pstrtlst[..], pendlst[..], OpenSet(tail), CloseSet(tail));
            return true;
          }
        }
        rest := tail;
      }
    }
  }

  lemma Begin(f: Found, strs: seq<int>, ends: seq<int>, opens: set<nat>, closes: set<nat>)
    ensures After(map[], map[], f) == f
    ensures NotedBut(map[], strs, opens) && NotedBut(map[], ends, closes)
    ensures Kept(strs, strs, opens) && Kept(ends, ends, closes)
  {
    if f.Found? {
      assert map[] + f.opens == f.opens && map[] + f.closes == f.closes;
    }
  }

  lemma AfterNone(o: map<nat, nat>, c: map<nat, nat>)
    ensures After(o, c, None) == None
  {}

  lemma End(t: Text, items: seq<Item>, i: nat, po: map<nat, nat>, pc: map<nat, nat>, e: nat, strs: seq<int>, ends: seq<int>)
    requires Match(t, items, i) == After(po, pc, Match(t, [], e))
    requires NotedBut(po, strs, OpenSet([])) && NotedBut(pc, ends, CloseSet([]))
    ensures Match(t, items, i) == Found(e, po, pc) && Noted(po, strs) && Noted(pc, ends)
  {
    assert po + map[] == po && pc + map[] == pc;
  }

  lemma NoteOpen(po: map<nat, nat>, pc: map<nat, nat>, n: nat, i: nat, groups: seq<int>, later: set<nat>, f: Found)
    requires n < |groups| && NotedBut(po, groups, {n} + later)
    ensures NotedBut(po + map[n := i], groups[n := i], later) && po.Keys + ({n} + later) == (po + map[n := i]).Keys + later
    ensures After(po, pc, After(map[n := i], map[], f)) == After(po + map[n := i], pc, f)
  {
    AfterAfter(po, pc, map[n := i], map[], f);
    hide After, NotedBut;
    assert pc + map[] == pc;
    NotedOne(po, n, i, groups, later);
  }

  lemma NoteClose(po: map<nat, nat>, pc: map<nat, nat>, n: nat, i: nat, groups: seq<int>, later: set<nat>, f: Found)
    requires n < |groups| && NotedBut(pc, groups, {n} + later)
    ensures NotedBut(pc + map[n := i], groups[n := i], later) && pc.Keys + ({n} + later) == (pc + map[n := i]).Keys + later
    ensures After(po, pc, After(map[], map[n := i], f)) == After(po, pc + map[n := i], f)
  {
    AfterAfter(po, pc, map[], map[n := i], f);
    hide After, NotedBut;
    assert po + map[] == po;
    NotedOne(pc, n, i, groups, later);
  }

  lemma NotedOne(m: map<nat, nat>, n: nat, i: nat, groups: seq<int>, later: set<nat>)
    requires n < |groups| && NotedBut(m, groups, {n} + later)
    ensures NotedBut(m + map[n := i], groups[n := i], later) && m.Keys + ({n} + later) == (m + map[n := i]).Keys + later
  {}

  lemma Change(a: seq<int>, b: seq<int>, except: set<nat>, n: nat, i: nat)
    requires Kept(a, b, except) && n in except && n < |b|
    ensures Kept(a, b[n := i], except)
  {}

  lemma NotedJoin(m: map<nat, nat>, m': map<nat, nat>, a: seq<int>, b: seq<int>, now: set<nat>, later: set<nat>)
    requires NotedBut(m, a, now + later) && Kept(a, b, now) && Noted(m', b) && m'.Keys == now
    ensures NotedBut(m + m', b, later)
  {}

  lemma JoinBoth(po: map<nat, nat>, pc: map<nat, nat>, f: Found, s0: seq<int>, e0: seq<int>, s1: seq<int>, e1: seq<int>,
                 opens: set<nat>, closes: set<nat>, g: Found)
    requires f.Found? && Noted(f.opens, s1) && Noted(f.closes, e1)
    requires NotedBut(po, s0, f.opens.Keys + opens) && Kept(s0, s1, f.opens.Keys)
    requires NotedBut(pc, e0, f.closes.Keys + closes) && Kept(e0, e1, f.closes.Keys)
    ensures NotedBut(po + f.opens, s1, opens) && po.Keys + (f.opens.Keys + opens) == (po + f.opens).Keys + opens
    ensures NotedBut(pc + f.closes, e1, closes) && pc.Keys + (f.closes.Keys + closes) == (pc + f.closes).Keys + closes
    ensures After(po, pc, After(f.opens, f.closes, g)) == After(po + f.opens, pc + f.closes, g)
  {
    NotedJoin(po, f.opens, s0, s1, f.opens.Keys, opens);
    NotedJoin(pc, f.closes, e0, e1, f.closes.Keys, closes);
    AfterAfter(po, pc, f.opens, f.closes, g);
  }

  lemma Finish(po: map<nat, nat>, pc: map<nat, nat>, f: Found, strs: seq<int>, ends: seq<int>, opens: set<nat>, closes: set<nat>)
    requires f.Found? && Noted(f.opens, strs) && Noted(f.closes, ends) && f.opens.Keys == opens && f.closes.Keys == closes
    requires NotedBut(po, strs, opens) && NotedBut(pc, ends, closes)
    ensures After(po, pc, f) == Found(f.end, po + f.opens, pc + f.closes)
    ensures Noted(po + f.opens, strs) && Noted(pc + f.closes, ends)
  {}

  lemma StarNotes(t: Text, rest: seq<Item>, i: nat, n: nat)
    requires Sound(rest) && MatchStar(t, rest, i, n).Found?
    ensures MatchStar(t, rest, i, n).opens.Keys == OpenSet(rest) && MatchStar(t, rest, i, n).closes.Keys == CloseSet(rest)
  {
    var k := StarSound(t, rest, i, n);
    MatchNotes(t, rest, i + k);
  }

  /** What stands in the code of an item. */
  lemma ItemAt(code: seq<int>, at: nat, it: Item)
    requires CodeAt(code, at, ItemCode(it)) && at < |code| && code[at] == ItemCode(it)[0]
    ensures match it
            case Str(cs, folded) =>
              (|cs| <= 127 ==> at + 1 < |code| && code[at] == StrOp(folded) && code[at + 1] == |cs| &&
                               CodeAt(code, at + 2, Widen(cs)) && |ItemCode(it)| == 2 + |cs|)
            case One(Any) => code[at] == ANYC && |ItemCode(it)| == 1
            case One(In(m, neg)) => code[at] == SetOp(neg) && CodeAt(code, at + 1, Bits(m)) && |ItemCode(it)| == 1 + SETSIZE
            case Star(Any) => code[at] == ANYC + STAR && |ItemCode(it)| == 1
            case Star(In(m, neg)) => code[at] == SetOp(neg) + STAR && CodeAt(code, at + 1, Bits(m)) && |ItemCode(it)| == 1 + SETSIZE
            case Star(Lit(c, folded)) => code[at] == StrOp(folded) + STAR && CodeAt(code, at + 1, [c]) && |ItemCode(it)| == 2
            case Bol => code[at] == AT_BOL && |ItemCode(it)| == 1
            case Eol => code[at] == AT_EOL && |ItemCode(it)| == 1
            case Bow => code[at] == AT_BOW && |ItemCode(it)| == 1
            case Eow => code[at] == AT_EOW && |ItemCode(it)| == 1
            case Open(n) => code[at] == OPENP && at + 1 < |code| && code[at + 1] == n && |ItemCode(it)| == 2
            case Close(n) => code[at] == CLOSEP && at + 1 < |code| && code[at + 1] == n && |ItemCode(it)| == 2
            case Alt(bs) =>
              code[at] == CURLYB && at + 1 < |code| && (Count(bs) <= 127 ==> code[at + 1] == Count(bs)) &&
              CodeAt(code, at + 2, BranchesCode(bs)) && |ItemCode(it)| == 2 + |BranchesCode(bs)|
            case _ => true
  {
    if |ItemCode(it)| > 1 {
      CodeAtByte(code, at, ItemCode(it), 1);
    }
    match it
    case Str(cs, folded) => CodeAtParts(code, at, [StrOp(folded), LowByte(|cs|)], Widen(cs));
    case One(a) => if a.In? { CodeAtParts(code, at, [SetOp(a.neg)], Bits(a.m)); }
    case Star(a) =>
      if a.In? { CodeAtParts(code, at, [SetOp(a.neg) + STAR], Bits(a.m)); }
      if a.Lit? {
        assert AtomCode(a, STAR) == [StrOp(a.folded) + STAR] + [a.c];
        CodeAtParts(code, at, [StrOp(a.folded) + STAR], [a.c]);
      }
    case Alt(bs) => CodeAtParts(code, at, [CURLYB, LowByte(Count(bs))], BranchesCode(bs));
    case _ =>
  }

  lemma BranchAt(code: seq<int>, at: nat, bs: Branches)
    requires bs.Or? && CodeAt(code, at, BranchesCode(bs)) && |BranchCode(bs.first)| < 65536
    ensures at + 1 < |code| && code[at] + 256 * code[at + 1] == |BranchCode(bs.first)|
    ensures Compiled(code, at + ALT_LEN_LEN, bs.first)
    ensures CodeAt(code, at + |BranchCode(bs.first)|, BranchesCode(bs.rest))
  {
    var rest := Code(bs.first) + [EOP];
    var len := ALT_LEN_LEN + |rest|;
    BranchIs(bs);
    CompiledIsCode(code, at + ALT_LEN_LEN, bs.first);
    TwoLow(len);
    hide *;
    TwoThenRest(code, at, LowByte(len), LowByte(len / 256), rest, BranchesCode(bs.rest));
  }

  lemma TwoThenRest(code: seq<int>, at: nat, x: int, y: int, rest: seq<int>, more: seq<int>)
    requires CodeAt(code, at, [x, y] + rest + more)
    ensures at + 1 < |code| && code[at] == x && code[at + 1] == y
    ensures CodeAt(code, at + 2, rest) && CodeAt(code, at + 2 + |rest|, more)
  {
    hide CodeAt;
    CodeAtParts(code, at, [x, y] + rest, more);
    CodeAtParts(code, at, [x, y], rest);
    CodeAtByte(code, at, [x, y], 0);
    CodeAtByte(code, at, [x, y], 1);
  }

  lemma BranchIs(bs: Branches)
    requires bs.Or?
    ensures var rest := Code(bs.first) + [EOP]; var len := ALT_LEN_LEN + |rest|;
      && BranchCode(bs.first) == [LowByte(len), LowByte(len / 256)] + rest && |BranchCode(bs.first)| == len
      && BranchesCode(bs) == BranchCode(bs.first) + BranchesCode(bs.rest)
  {
    hide Code;
    var code := Code(bs.first);
    assert |code + [EOP]| == |code| + 1;
    var len := ALT_LEN_LEN + |code| + 1;
    assert [LowByte(len), LowByte(len / 256)] + code + [EOP] == [LowByte(len), LowByte(len / 256)] + (code + [EOP]);
  }

  lemma CompiledIsCode(code: seq<int>, at: nat, items: seq<Item>)
    ensures Compiled(code, at, items) <==> CodeAt(code, at, Code(items) + [EOP])
  {}

  lemma TwoLow(len: nat)
    requires len < 65536
    ensures LowByte(len) + 256 * LowByte(len / 256) == len
  {}
}
