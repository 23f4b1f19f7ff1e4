/** Search and replace without questions: every line of a region, from left to right. */
module Substitute {
  import opened Pattern
  import opened CString
  import opened ReCode
  import opened ReMatch
  import opened ReParse
  import opened ReSound
  import opened ReSearch

  /** The text of a group. */
  function Group(t: Text, f: Found, n: nat): seq<Ch>
    requires f.Found?
  {
    if n in f.opens && n in f.closes && f.opens[n] <= f.closes[n] <= |t.line| then t.line[f.opens[n]..f.closes[n]] else []
  }

  /** The replacement for a match: `\n` is the text of group n, `\` before anything else is dropped. */
  function Expand(rep: seq<Ch>, nparens: nat, t: Text, f: Found): seq<Ch>
    requires f.Found?
    decreases |rep|
  {
    if rep == [] then []
    else if rep[0] != BACKSLASH then [rep[0]] + Expand(rep[1..], nparens, t, f)
    else if |rep| == 1 then [BACKSLASH]
    else if DIGIT0 <= rep[1] < nparens + DIGIT0 then Group(t, f, rep[1] - DIGIT0) + Expand(rep[2..], nparens, t, f)
    else [rep[1]] + Expand(rep[2..], nparens, t, f)
  }

  /** What is searched for and what replaces it; `size` is that of a line buffer. */
  datatype Job = Job(alts: seq<seq<Item>>, rep: seq<Ch>, nparens: nat, up: Ch -> Ch, ident: Ch -> bool, size: nat)
  {
    /** What compiling the pattern guarantees, and strings without NULs. */
    ghost predicate Ok() {
      && nparens <= NPAR && AllSame(alts, Groups(0, nparens)) && 0 !in rep && size > 0
      && forall c: Ch :: up(c) == up(0) ==> c == 0
    }

    function On(line: seq<Ch>, crater: int): Text { Text(line, crater, up, ident) }
  }

  /** The characters from `from` up to `to` of the line as it was have become `new'`. */
  datatype Edit = Edit(from: nat, to: nat, new': seq<Ch>)

  datatype Outcome = Fits(edits: seq<Edit>) | TooLong

  /** The line from `at` on, edited. */
  function Apply(line: seq<Ch>, edits: seq<Edit>, at: nat): seq<Ch> {
    if edits == [] then (if at <= |line| then line[at..] else [])
    else
      var e := edits[0];
      (if at <= e.from <= |line| then line[at..e.from] else []) + e.new' + Apply(line, edits[1..], e.to)
  }

  /** The first place from `p` on where some alternative matches; -1 if there is none. */
  function FirstFrom(t: Text, alts: seq<seq<Item>>, p: nat): (r: int)
    ensures -1 <= r && (r != -1 ==> p <= r <= |t.line| && FirstAlt(t, alts, r).Found?)
    ensures forall q: nat :: p <= q <= |t.line| && FirstAlt(t, alts, q).Found? ==> r != -1 && r <= q
    decreases |t.line| + 1 - p
  {
    if p > |t.line| then -1 else if FirstAlt(t, alts, p).Found? then p else FirstFrom(t, alts, p + 1)
  }

  lemma {:induction false} MatchEnds(t: Text, items: seq<Item>, i: nat)
    requires i <= |t.line|
    ensures Match(t, items, i).Found? ==> i <= Match(t, items, i).end <= |t.line|
    decreases Size(items), 0
  {
    hide MatchStar, MatchFirst, SizeBranches;
    if items != [] && Match(t, items, i).Found? {
      match items[0] {
        case Str(cs, folded) =>
          if cs != [] { assert t.Accepts(Lit(cs[|cs| - 1], folded), i + (|cs| - 1)); }
          MatchEnds(t, items[1..], i + |cs|);
        case One(_) => MatchEnds(t, items[1..], i + 1);
        case Star(a) =>
          var k := StarSound(t, items[1..], i, Span(t, a, i));
          if k > 0 { assert t.Accepts(a, i + k - 1); }
          MatchEnds(t, items[1..], i + k);
        case Alt(bs) =>
          assert SizeItem(items[0]) == 1 + SizeBranches(bs);
          FirstEnds(t, bs, i);
          MatchEnds(t, items[1..], MatchFirst(t, bs, i).end);
        case _ => MatchEnds(t, items[1..], i);
      }
    }
  }

  lemma {:induction false} FirstEnds(t: Text, bs: Branches, i: nat)
    requires i <= |t.line|
    ensures MatchFirst(t, bs, i).Found? ==> i <= MatchFirst(t, bs, i).end <= |t.line|
    decreases SizeBranches(bs), 0
  {
    if bs.Or? {
      MatchEnds(t, bs.first, i);
      FirstEnds(t, bs.rest, i);
    }
  }

  lemma {:induction false} AltEnds(t: Text, alts: seq<seq<Item>>, i: nat)
    requires i <= |t.line|
    ensures FirstAlt(t, alts, i).Found? ==> i <= FirstAlt(t, alts, i).end <= |t.line|
    decreases |alts|
  {
    if alts != [] {
      MatchEnds(t, alts[0], i);
      AltEnds(t, alts[1..], i);
    }
  }

  /** The next match in a line, at or behind its `offset`; what replaces it; and the line then. */
  datatype Next' = Nothing | Next'(from: nat, to: nat, new': seq<Ch>, line: seq<Ch>, offset: nat, over: bool)

  /** A match of nothing takes the next character along, or is the last of its line. */
  function NextEdit(j: Job, line: seq<Ch>, offset: nat, crater: int): (r: Next')
    requires offset <= |line|
    ensures r.Next'? ==>
      && offset <= r.from <= r.to <= |line| && r.offset <= |r.line| && r.line == line[..r.from] + r.new' + line[r.to..]
      && r.offset == r.from + |r.new'| + (if r.from == r.to < |line| then 1 else 0)
      && (r.over <==> r.from == r.to == |line|)
  {
    var t := j.On(line, crater);
    var p := FirstFrom(t, j.alts, offset);
    if p == -1 then Nothing
    else
      AltEnds(t, j.alts, p);
      var f := FirstAlt(t, j.alts, p);
      var new' := Expand(j.rep, j.nparens, t, f);
      Next'(p, f.end, new', line[..p] + new' + line[f.end..], p + |new'| + (if p == f.end < |line| then 1 else 0), p == f.end == |line|)
  }

  /** All the edits of a line, the part before `offset` being done: what is at `offset` was at `at`
      in the line as it was.  With a `limit` (or -1) no match may end behind it. */
  function Edits(j: Job, line: seq<Ch>, offset: nat, crater: int, at: nat, limit: int): (r: Outcome)
    requires offset <= |line|
    decreases |line| - offset
  {
    var n := NextEdit(j, line, offset, crater);
    if n.Nothing? || (limit != -1 && at + (n.to - offset) > limit) then Fits([])
    else if |n.line| >= j.size then TooLong
    else
      var e := Edit(at + (n.from - offset), at + (n.to - offset), n.new');
      if n.over then Fits([e])
      else
        var rest := Edits(j, n.line, n.offset, n.offset, e.to + (if n.from == n.to then 1 else 0), limit);
        if rest.TooLong? then rest else Fits([e] + rest.edits)
  }

  /** The edits come one behind the other, none beyond the end of the line or the limit. */
  ghost predicate InOrder(edits: seq<Edit>, at: nat, n: nat, limit: int) {
    && (forall k :: 0 <= k < |edits| ==> at <= edits[k].from <= edits[k].to <= n && (limit == -1 || edits[k].to <= limit))
    && (forall k, l :: 0 <= k < l < |edits| ==> edits[k].to <= edits[l].from && edits[k].from < edits[l].to)
  }

  lemma {:induction false} EditsInOrder(j: Job, line: seq<Ch>, offset: nat, crater: int, at: nat, limit: int)
    requires offset <= |line|
    ensures Edits(j, line, offset, crater, at, limit).Fits? ==> InOrder(Edits(j, line, offset, crater, at, limit).edits, at, at + |line| - offset, limit)
    decreases |line| - offset
  {
    hide NextEdit, FirstFrom, Expand, FirstAlt, InOrder;
    NextFacts(j, line, offset, crater);
    NoneInOrder(at, at + |line| - offset, limit);
    var n := NextEdit(j, line, offset, crater);
    if n.Next'? && (limit == -1 || at + (n.to - offset) <= limit) && |n.line| < j.size {
      var e := Edit(at + (n.from - offset), at + (n.to - offset), n.new');
      var mid, end := e.to + (if n.from == n.to then 1 else 0), at + |line| - offset;
      if n.over {
        NoneInOrder(mid, end, limit);
        OneMoreInOrder(e, [], at, mid, end, limit);
        assert [e] + [] == [e];
      } else {
        var rest := Edits(j, n.line, n.offset, n.offset, mid, limit);
        EditsInOrder(j, n.line, n.offset, n.offset, mid, limit);
        if rest.Fits? { OneMoreInOrder(e, rest.edits, at, mid, end, limit); }
      }
    }
  }

  lemma NoneInOrder(at: nat, n: nat, limit: int)
    ensures InOrder([], at, n, limit)
  {}

  lemma OneMoreInOrder(e: Edit, rest: seq<Edit>, at: nat, mid: nat, n: nat, limit: int)
    requires at <= e.from <= e.to <= n && (limit == -1 || e.to <= limit) && e.to <= mid && e.from < mid
    requires InOrder(rest, mid, n, limit)
    ensures InOrder([e] + rest, at, n, limit)
  {
    var all := [e] + rest;
    forall k | 0 <= k < |all| ensures at <= all[k].from <= all[k].to <= n && (limit == -1 || all[k].to <= limit) {
      if k > 0 { assert all[k] == rest[k - 1]; }
    }
    forall k, l | 0 <= k < l < |all| ensures all[k].to <= all[l].from && all[k].from < all[l].to {
      assert all[l] == rest[l - 1];
      if k > 0 { assert all[k] == rest[k - 1]; }
    }
  }

  lemma NextFacts(j: Job, line: seq<Ch>, offset: nat, crater: int)
    requires offset <= |line|
    ensures var r := NextEdit(j, line, offset, crater);
      r.Next'? ==>
        && offset <= r.from <= r.to <= |line| && r.offset <= |r.line| && r.line == line[..r.from] + r.new' + line[r.to..]
        && r.offset == r.from + |r.new'| + (if r.from == r.to < |line| then 1 else 0)
        && (r.over <==> r.from == r.to == |line|)
  {}

  /** A group's text is copied to `off` (-1: there is no room). */
  method insert(m: Matcher, n: nat, tobuf: array<Ch>, off: nat, ghost f: Found) returns (tp: int)
    requires m.Arrays() && m.Success(f) && Ordered(f, f.opens.Keys, f.closes.Keys) && n in f.opens && n in f.closes && f.closes[n] <= f.end
    requires off < tobuf.Length && n < NPAR
    modifies tobuf
    ensures tp == -1 <==> off + |Group(m.t, f, n)| >= tobuf.Length
    ensures tp != -1 ==> tp == off + |Group(m.t, f, n)| < tobuf.Length && tobuf[..tp] == old(tobuf[..off]) + Group(m.t, f, n)
  {
    var pp := m.pstrtlst[n];
    assert pp >= 0;  // the group has been noted: "\n not defined" is not complained about
    var len := m.pendlst[n] - pp;
    if off + len >= tobuf.Length { return -1; }
    ghost var g := Group(m.t, f, n);
    assert g == m.t.line[pp..pp + len];
    tp := off;
    while len > 0
      invariant 0 <= len <= |g| && tp == off + |g| - len && pp == f.opens[n] + |g| - len
      invariant tobuf[..tp] == old(tobuf[..off]) + g[..|g| - len]
    {
      tobuf[tp] := m.t.line[pp];
      tp, pp, len := tp + 1, pp + 1, len - 1;
    }
    assert g[..|g|] == g;
  }

  /** The replacement string is expanded to `off` (-1: there is no room). */
  method Replacement(m: Matcher, rep_str: seq<Ch>, nparens: nat, tobuf: array<Ch>, off: nat, ghost f: Found) returns (tp: int)
    requires m.Arrays() && m.Success(f) && off < tobuf.Length && 0 !in rep_str
    requires nparens <= NPAR && Ordered(f, Groups(0, nparens), Groups(0, nparens)) && Within(f, 0)
    modifies tobuf
    ensures tp == -1 <==> off + |Expand(rep_str, nparens, m.t, f)| >= tobuf.Length
    ensures tp != -1 ==> tp == off + |Expand(rep_str, nparens, m.t, f)| && tobuf[..tp] == old(tobuf[..off]) + Expand(rep_str, nparens, m.t, f)
  {
    hide Expand, Group;
    ghost var new', before := Expand(rep_str, nparens, m.t, f), tobuf[..off];
    var rp: nat := 0;
    tp := off;
    assert rep_str[0..] == rep_str;
    while rp < |rep_str|
      invariant rp <= |rep_str| && 0 <= tp < tobuf.Length
      invariant before + new' == tobuf[..tp] + Expand(rep_str[rp..], nparens, m.t, f)
    {
      ExpandStep(rep_str, rp, nparens, m.t, f);
      ghost var sofar := tobuf[..tp];
      var c := rep_str[rp];
      rp := rp + 1;
      if c == BACKSLASH {
        c := if rp < |rep_str| then rep_str[rp] else 0;
        rp := rp + 1;
        if DIGIT0 <= c < nparens + DIGIT0 {
          tp := insert(m, c - DIGIT0, tobuf, tp, f);
          JoinRest(before, new', sofar, Group(m.t, f, c - DIGIT0), Expand(rep_str[rp..], nparens, m.t, f));
          if tp == -1 { return; }
          continue;
        }
        if c == 0 {
          c := BACKSLASH;
          rp := rp - 1;
        }
      }
      tobuf[tp] := c;
      tp := tp + 1;
      assert tobuf[..tp] == sofar + [c];
      JoinRest(before, new', sofar, [c], Expand(rep_str[rp..], nparens, m.t, f));
      if tp >= tobuf.Length { return -1; }
    }
    assert rep_str[rp..] == [];
    ExpandNone(nparens, m.t, f);
  }

  /** re_dosub: the line with the match replaced is put in `tobuf`.  `REeom` is behind what was put in,
      and behind the next character too if nothing was matched. */
  method re_dosub(m: Matcher, loc1: nat, rep_str: seq<Ch>, nparens: nat, tobuf: array<Ch>, ghost f: Found)
    returns (ok: bool, REeom: nat, REdelta: int)
    requires m.Arrays() && m.Success(f) && loc1 <= f.end && |m.t.line| < tobuf.Length && 0 !in rep_str
    requires nparens <= NPAR && Ordered(f, Groups(0, nparens), Groups(0, nparens)) && Within(f, 0)
    modifies tobuf
    ensures var new' := Expand(rep_str, nparens, m.t, f);
      var line := m.t.line[..loc1] + new' + m.t.line[f.end..];
      && ok == (|line| < tobuf.Length)
      && (ok ==> Holds(tobuf[..], line) && REeom == loc1 + |new'| + (if loc1 == f.end < |m.t.line| then 1 else 0) && REdelta == |line| - |m.t.line|)
  {
    hide Expand, Within, Ordered, Holds;
    var tp: int := 0;
    while tp < loc1
      invariant 0 <= tp <= loc1 && tobuf[..tp] == m.t.line[..tp]
    {
      tobuf[tp] := m.t.line[tp];
      tp := tp + 1;
    }
    REeom, REdelta := 0, 0;
    tp := Replacement(m, rep_str, nparens, tobuf, tp, f);
    if tp == -1 { return false, 0, 0; }
    ghost var head := tobuf[..tp];
    var rp: nat := m.loc2;
    REdelta := tp - m.REeom;
    REeom := tp;
    if loc1 == rp && rp < |m.t.line| { REeom := REeom + 1; }
    ok := CopyRest(m.t.line, rp, tobuf, tp);
    assert m.t.line[..loc1] + Expand(rep_str, nparens, m.t, f) == head;
  }

  /** The rest of a line and its NUL are copied to `off`. */
  method CopyRest(line: seq<Ch>, rp0: nat, tobuf: array<Ch>, off: nat) returns (ok: bool)
    requires rp0 <= |line| && off < tobuf.Length
    modifies tobuf
    ensures ok == (off + |line| - rp0 < tobuf.Length)
    ensures ok ==> Holds(tobuf[..], old(tobuf[..off]) + line[rp0..])
  {
    var rp, tp := rp0, off;
    while rp < |line|
      invariant rp0 <= rp <= |line| && tp == off + rp - rp0 < tobuf.Length
      invariant tobuf[..tp] == old(tobuf[..off]) + line[rp0..rp]
    {
      tobuf[tp] := line[rp];
      tp, rp := tp + 1, rp + 1;
      if tp >= tobuf.Length { return false; }
    }
    tobuf[tp] := 0;
    assert line[rp0..rp] == line[rp0..];
    ok := true;
  }

  lemma JoinRest(before: seq<Ch>, new': seq<Ch>, sofar: seq<Ch>, g: seq<Ch>, rest: seq<Ch>)
    requires before + new' == sofar + (g + rest)
    ensures before + new' == sofar + g + rest && |before| + |new'| >= |sofar| + |g|
  {}

  lemma ExpandNone(nparens: nat, t: Text, f: Found)
    requires f.Found?
    ensures Expand([], nparens, t, f) == []
  {}

  lemma ExpandStep(rep: seq<Ch>, rp: nat, nparens: nat, t: Text, f: Found)
    requires f.Found? && rp < |rep|
    ensures rep[rp] != BACKSLASH ==> Expand(rep[rp..], nparens, t, f) == [rep[rp]] + Expand(rep[rp + 1..], nparens, t, f)
    ensures rep[rp] == BACKSLASH && rp + 1 == |rep| ==> Expand(rep[rp..], nparens, t, f) == [BACKSLASH] + Expand(rep[rp + 1..], nparens, t, f)
    ensures rep[rp] == BACKSLASH && rp + 1 < |rep| && DIGIT0 <= rep[rp + 1] < nparens + DIGIT0 ==>
      Expand(rep[rp..], nparens, t, f) == Group(t, f, rep[rp + 1] - DIGIT0) + Expand(rep[rp + 2..], nparens, t, f)
    ensures rep[rp] == BACKSLASH && rp + 1 < |rep| && !(DIGIT0 <= rep[rp + 1] < nparens + DIGIT0) ==>
      Expand(rep[rp..], nparens, t, f) == [rep[rp + 1]] + Expand(rep[rp + 2..], nparens, t, f)
  {
    assert rep[rp..][1..] == rep[rp + 1..];
    if rp + 1 < |rep| { assert rep[rp..][2..] == rep[rp + 2..]; }
  }

  lemma {:induction false} AltGroups(t: Text, alts: seq<seq<Item>>, i: nat, groups: set<nat>)
    requires AllSame(alts, groups)
    ensures Within(FirstAlt(t, alts, i), i) && Ordered(FirstAlt(t, alts, i), groups, groups)
    decreases |alts|
  {
    hide Match, Made, OpenSet, CloseSet, Within, Ordered;
    if alts != [] {
      MatchGroups(t, alts[0], i);
      AltGroups(t, alts[1..], i, groups);
    } else {
      NoGroups(i, groups);
    }
  }

  lemma NoGroups(i: nat, groups: set<nat>)
    ensures Within(None, i) && Ordered(None, groups, groups)
  {}

  lemma WithinAll(f: Found, i: nat)
    requires Within(f, i)
    ensures Within(f, 0) && (f.Found? ==> i <= f.end)
  {}

  /** What a search found is the next edit. */
  lemma FoundNext(j: Job, line: seq<Ch>, offset: nat, crater: int, p: nat)
    requires offset <= |line| && IsFirst(j.On(line, crater), j.alts, Forward, offset, p)
    ensures var t := j.On(line, crater);
      var f := FirstAlt(t, j.alts, p);
      var n := NextEdit(j, line, offset, crater);
      && f.Found? && p <= f.end <= |line|
      && n == Next'(p, f.end, Expand(j.rep, j.nparens, t, f), line[..p] + Expand(j.rep, j.nparens, t, f) + line[f.end..],
                    p + |Expand(j.rep, j.nparens, t, f)| + (if p == f.end < |line| then 1 else 0), p == f.end == |line|)
  {
    hide Expand, FirstAlt;
    var t := j.On(line, crater);
    assert InRange(t, Forward, offset, p);
    var r := FirstFrom(t, j.alts, offset);
    assert r == p by { assert InRange(t, Forward, offset, r); }
    AltEnds(t, j.alts, p);
  }

  lemma FoundNothing(j: Job, line: seq<Ch>, offset: nat, crater: int)
    requires offset <= |line| && Nowhere(j.On(line, crater), j.alts, Forward, offset)
    ensures NextEdit(j, line, offset, crater).Nothing?
  {
    hide FirstAlt;
    var t := j.On(line, crater);
    var r := FirstFrom(t, j.alts, offset);
    assert r != -1 ==> InRange(t, Forward, offset, r);
  }

  /** What is edited before `offset`, and what is still to be edited, is all of the result. */
  ghost predicate Halfway(whole: Outcome, n: nat, was: seq<Ch>, from: nat, rest: Outcome, line: seq<Ch>, offset: nat, at: nat) {
    && from <= |was| && offset <= |line| && at <= |was| && was[at..] == line[offset..]
    && (whole.TooLong? <==> rest.TooLong?)
    && (whole.Fits? ==> |whole.edits| == n + |rest.edits| &&
                        was[..from] + Apply(was, whole.edits, from) == line[..offset] + Apply(was, rest.edits, at))
  }

  lemma HalfwayStart(j: Job, was: seq<Ch>, from: nat, limit: int)
    requires from <= |was|
    ensures var e := Edits(j, was, from, -1, from, limit); Halfway(e, 0, was, from, e, was, from, from)
  {}

  lemma HalfwayEnd(whole: Outcome, n: nat, was: seq<Ch>, from: nat, line: seq<Ch>, offset: nat, at: nat)
    requires Halfway(whole, n, was, from, Fits([]), line, offset, at)
    ensures whole.Fits? && n == |whole.edits| && line == was[..from] + Apply(was, whole.edits, from)
  {
    assert line == line[..offset] + line[offset..];
  }

  /** What is left to be edited after the edit `x`. */
  function After'(j: Job, x: Next', at': nat, limit: int): Outcome
    requires x.Next'? && x.offset <= |x.line|
  {
    if |x.line| >= j.size then TooLong else if x.over then Fits([]) else Edits(j, x.line, x.offset, x.offset, at', limit)
  }

  function Skip(line: seq<Ch>, x: Next'): nat
    requires x.Next'?
  {
    if x.from == x.to < |line| then 1 else 0
  }

  /** One more edit. */
  lemma HalfwayStep(j: Job, whole: Outcome, n: nat, was: seq<Ch>, from: nat, line: seq<Ch>, offset: nat, crater: int, at: nat, limit: int, x: Next')
    requires offset <= |line| && Halfway(whole, n, was, from, Edits(j, line, offset, crater, at, limit), line, offset, at)
    requires x.Next'? && x == NextEdit(j, line, offset, crater) && (limit == -1 || at + (x.to - offset) <= limit)
    ensures offset <= x.to && Halfway(whole, n + 1, was, from, After'(j, x, at + (x.to - offset) + Skip(line, x), limit), x.line, x.offset, at + (x.to - offset) + Skip(line, x))
  {
    hide *;
    var all := Edits(j, line, offset, crater, at, limit);
    EditsStep(j, line, offset, crater, at, limit, x);
    HalfwayFacts(whole, n, was, from, all, line, offset, at);
    NextFacts(j, line, offset, crater);
    var e := Edit(at + (x.from - offset), at + (x.to - offset), x.new');
    var skip := Skip(line, x);
    var rest := After'(j, x, e.to + skip, limit);
    AfterBehind(j, x, e.to + skip, limit);
    SkipFacts(line, x);
    StepText(was, line, offset, at, x, e, if rest.Fits? then rest.edits else [], skip);
    HalfwayMove(whole, n, was, from, all, line, offset, at, rest, x.line, x.offset, e.to + skip);
  }

  /** The same for the loop: where `x` leads. */
  lemma NextHalf(j: Job, whole: Outcome, n: nat, was: seq<Ch>, from: nat, line: seq<Ch>, offset: nat, crater: int, at: nat, limit: int, x: Next')
    returns (at': nat, rest: Outcome)
    requires offset <= |line| && Halfway(whole, n, was, from, Edits(j, line, offset, crater, at, limit), line, offset, at)
    requires x.Next'? && x == NextEdit(j, line, offset, crater) && (limit == -1 || at + (x.to - offset) <= limit)
    ensures Halfway(whole, n + 1, was, from, rest, x.line, x.offset, at') && offset <= x.to <= |line| && x.offset <= |x.line|
    ensures at' == at - offset + x.offset - (|x.line| - |line|) && (whole.TooLong? <==> rest.TooLong?)
    ensures |x.line| >= j.size ==> rest.TooLong?
    ensures |x.line| < j.size ==> rest == if x.over then Fits([]) else Edits(j, x.line, x.offset, x.offset, at', limit)
    ensures !x.over ==> |x.line| - x.offset < |line| - offset
  {
    hide NextEdit, Edits, Halfway;
    NextFacts(j, line, offset, crater);
    HalfwayStep(j, whole, n, was, from, line, offset, crater, at, limit, x);
    at' := at + (x.to - offset) + Skip(line, x);
    rest := After'(j, x, at', limit);
    HalfwayFacts(whole, n + 1, was, from, rest, x.line, x.offset, at');
  }

  lemma SkipFacts(line: seq<Ch>, x: Next')
    requires x.Next'? && x.from <= x.to <= |line|
    ensures x.to + Skip(line, x) <= |line| && Skip(line, x) == if x.from == x.to < |line| then 1 else 0
  {}

  lemma AfterBehind(j: Job, x: Next', at': nat, limit: int)
    requires x.Next'? && x.offset <= |x.line|
    ensures var r := After'(j, x, at', limit); r.Fits? && r.edits != [] ==> at' <= r.edits[0].from <= at' + |x.line| - x.offset
  {
    RestBehind(j, x.line, x.offset, x.offset, at', limit);
  }

  lemma HalfwayFacts(whole: Outcome, n: nat, was: seq<Ch>, from: nat, rest: Outcome, line: seq<Ch>, offset: nat, at: nat)
    requires Halfway(whole, n, was, from, rest, line, offset, at)
    ensures offset <= |line| && at <= |was| && was[at..] == line[offset..] && (whole.TooLong? <==> rest.TooLong?)
  {}

  lemma HalfwayMove(whole: Outcome, n: nat, was: seq<Ch>, from: nat, rest: Outcome, line: seq<Ch>, offset: nat, at: nat,
                    rest': Outcome, line': seq<Ch>, offset': nat, at': nat)
    requires Halfway(whole, n, was, from, rest, line, offset, at)
    requires offset' <= |line'| && at' <= |was| && was[at'..] == line'[offset'..] && offset <= |line|
    requires rest.TooLong? <==> rest'.TooLong?
    requires rest.Fits? ==> |rest.edits| == 1 + |rest'.edits| && line[..offset] + Apply(was, rest.edits, at) == line'[..offset'] + Apply(was, rest'.edits, at')
    ensures Halfway(whole, n + 1, was, from, rest', line', offset', at')
  {}

  lemma EditsStep(j: Job, line: seq<Ch>, offset: nat, crater: int, at: nat, limit: int, x: Next')
    requires offset <= |line| && x == NextEdit(j, line, offset, crater)
    requires x.Next'? && (limit == -1 || at + (x.to - offset) <= limit)
    ensures offset <= x.from <= x.to && x.offset <= |x.line|
    ensures var e := Edit(at + (x.from - offset), at + (x.to - offset), x.new');
      var rest := After'(j, x, e.to + Skip(line, x), limit);
      Edits(j, line, offset, crater, at, limit) == if rest.TooLong? then TooLong else Fits([e] + rest.edits)
  {
    hide NextEdit;
    NextFacts(j, line, offset, crater);
  }

  lemma RestBehind(j: Job, line: seq<Ch>, offset: nat, crater: int, at: nat, limit: int)
    requires offset <= |line|
    ensures var r := Edits(j, line, offset, crater, at, limit);
      r.Fits? && r.edits != [] ==> at <= r.edits[0].from <= at + |line| - offset
  {
    hide Edits;
    EditsInOrder(j, line, offset, crater, at, limit);
  }

  lemma StepText(was: seq<Ch>, line: seq<Ch>, offset: nat, at: nat, x: Next', e: Edit, rest: seq<Edit>, skip: nat)
    requires offset <= |line| && at <= |was| && was[at..] == line[offset..]
    requires x.Next'? && offset <= x.from <= x.to <= x.to + skip <= |line| && x.line == line[..x.from] + x.new' + line[x.to..]
    requires x.offset == x.from + |x.new'| + skip && e == Edit(at + (x.from - offset), at + (x.to - offset), x.new')
    requires rest != [] ==> e.to + skip <= rest[0].from <= |was|
    ensures was[e.to + skip..] == x.line[x.offset..] && e.to + skip <= |was|
    ensures line[..offset] + Apply(was, [e] + rest, at) == x.line[..x.offset] + Apply(was, rest, e.to + skip)
  {
    hide *;
    var k, b, tail := line[offset..x.from], line[x.to..x.to + skip], Apply(was, rest, e.to + skip);
    assert was[e.to + skip..] == x.line[x.offset..] && e.to + skip <= |was| by {
      SliceSame(was, line, at, offset, x.to - offset + skip, |was| - at);
      NewOffset(line, x, skip);
    }
    assert Apply(was, rest, e.to) == b + tail by {
      ApplySkip(was, rest, e.to, skip);
      SliceSame(was, line, at, offset, x.to - offset, x.to - offset + skip);
    }
    assert Apply(was, [e] + rest, at) == k + x.new' + (b + tail) by {
      ApplyStep(was, e, rest, at);
      SliceSame(was, line, at, offset, 0, x.from - offset);
    }
    assert x.line[..x.offset] == line[..offset] + k + x.new' + b by {
      Split(line, offset, x.from);
      NewOffset(line, x, skip);
    }
    Regroup(line[..offset], k, x.new', b, tail);
  }

  lemma Split(s: seq<Ch>, a: nat, b: nat)
    requires a <= b <= |s|
    ensures s[..b] == s[..a] + s[a..b]
  {}

  lemma NewOffset(line: seq<Ch>, x: Next', skip: nat)
    requires x.Next'? && x.from <= x.to <= x.to + skip <= |line| && x.line == line[..x.from] + x.new' + line[x.to..]
    requires x.offset == x.from + |x.new'| + skip
    ensures x.line[..x.offset] == line[..x.from] + x.new' + line[x.to..x.to + skip] && x.line[x.offset..] == line[x.to + skip..]
  {}

  lemma Regroup(p: seq<Ch>, k: seq<Ch>, c: seq<Ch>, b: seq<Ch>, a: seq<Ch>)
    ensures p + (k + c + (b + a)) == ((p + k) + c + b) + a
  {}

  lemma ApplyStep(was: seq<Ch>, e: Edit, rest: seq<Edit>, at: nat)
    requires at <= e.from <= |was|
    ensures Apply(was, [e] + rest, at) == was[at..e.from] + e.new' + Apply(was, rest, e.to)
  {
    assert ([e] + rest)[1..] == rest;
  }

  lemma SliceSame(was: seq<Ch>, line: seq<Ch>, at: nat, offset: nat, a: nat, b: nat)
    requires at <= |was| && offset <= |line| && was[at..] == line[offset..] && a <= b <= |was| - at
    ensures |was| - at == |line| - offset && was[at + a..at + b] == line[offset + a..offset + b]
  {
    assert |was[at..]| == |line[offset..]|;
    assert was[at..][a..b] == was[at + a..at + b];
    assert line[offset..][a..b] == line[offset + a..offset + b];
  }

  lemma ApplySkip(was: seq<Ch>, rest: seq<Edit>, at: nat, skip: nat)
    requires at + skip <= |was| && (rest != [] ==> at + skip <= rest[0].from <= |was|)
    ensures Apply(was, rest, at) == was[at..at + skip] + Apply(was, rest, at + skip)
  {
    var more := was[at..at + skip];
    if rest == [] {
      assert was[at..] == more + was[at + skip..];
    } else {
      var e, tail := rest[0], Apply(was, rest[1..], rest[0].to);
      assert rest == [e] + rest[1..];
      ApplyStep(was, e, rest[1..], at);
      ApplyStep(was, e, rest[1..], at + skip);
      hide Apply;
      assert was[at..e.from] == more + was[at + skip..e.from];
      Regroup([], more, was[at + skip..e.from], e.new', tail);
    }
  }

  /** Nothing more is edited when nothing more is found, or only behind the limit. */
  lemma EditsStop(j: Job, line: seq<Ch>, offset: nat, crater: int, at: nat, limit: int)
    requires offset <= |line|
    requires var n := NextEdit(j, line, offset, crater); n.Nothing? || (limit != -1 && at + (n.to - offset) > limit)
    ensures Edits(j, line, offset, crater, at, limit) == Fits([])
  {
    hide NextEdit;
  }

  lemma {:induction false} ExpandNoNuls(rep: seq<Ch>, nparens: nat, t: Text, f: Found)
    requires f.Found? && 0 !in rep && 0 !in t.line
    ensures 0 !in Expand(rep, nparens, t, f)
    decreases |rep|
  {
    if rep != [] {
      ExpandNoNuls(rep[1..], nparens, t, f);
      if |rep| > 1 { ExpandNoNuls(rep[2..], nparens, t, f); }
    }
  }

  lemma EditNoNuls(j: Job, line: seq<Ch>, p: nat, crater: int, f: Found, line': seq<Ch>)
    requires j.Ok() && 0 !in line && f.Found? && p <= f.end <= |line|
    requires line' == line[..p] + Expand(j.rep, j.nparens, j.On(line, crater), f) + line[f.end..]
    ensures 0 !in line'
  {
    ExpandNoNuls(j.rep, j.nparens, j.On(line, crater), f);
  }

  /** A buffer's lines; the current one is in `linebuf`. */
  class Replacer {
    const job: Job
    const b: Block
    const linebuf: array<Ch>
    var lines: seq<seq<Ch>>
    var curline: nat
    var curchar: nat
    var dirty: bool
    ghost var text: seq<Ch>

    ghost predicate Valid()
      reads this, linebuf
    {
      && job.Ok() && Suits(b, job.up, job.alts) && b.nparens == job.nparens && linebuf.Length == job.size
      && curline < |lines| && (forall k :: 0 <= k < |lines| ==> 0 !in lines[k] && |lines[k]| < job.size)
      && Holds(linebuf[..], text) && 0 !in text && (!dirty ==> lines[curline] == text)
    }

    /** The text of the buffer. */
    ghost function Lines(): seq<seq<Ch>>
      requires curline < |lines|
      reads this
    {
      lines[curline := text]
    }

    /** What linebuf holds. */
    method Read() returns (s: seq<Ch>)
      requires Valid()
      ensures s == text
    {
      var n: nat := 0;
      while linebuf[n] != 0
        invariant n <= |text|
        decreases |text| - n
      {
        assert n < |text|;
        n := n + 1;
      }
      AtNul(linebuf[..], text, n);
      s := linebuf[..n];
    }

    method lsave()
      requires Valid()
      modifies this`lines, this`dirty
      ensures Valid() && !dirty && Lines() == old(Lines())
    {
      if dirty {
        var s := Read();
        lines := lines[curline := s];
        dirty := false;
      }
    }

    /** ltobuf */
    method ltobuf(lp: nat) returns (s: seq<Ch>)
      requires Valid() && lp < |lines|
      ensures s == Lines()[lp]
    {
      if lp == curline { s := Read(); } else { s := lines[lp]; }
    }

    method DotTo(lp: nat, c: nat)
      requires Valid() && lp < |lines|
      modifies this, linebuf
      ensures Valid() && Lines() == old(Lines()) && |lines| == old(|lines|) && curline == lp && curchar == c
    {
      if lp != curline {
        lsave();
        ghost var was := Lines();
        var s := lines[lp];
        for k := 0 to |s|
          invariant linebuf[..k] == s[..k]
          modifies linebuf
        {
          linebuf[k] := s[k];
        }
        linebuf[|s|] := 0;
        curline, text := lp, s;
        assert s[..|s|] == s;
        assert Lines() == was;
      }
      curchar := c;
    }

    /** The text of line `lp` after all its edits from `from` on. */
    static ghost function Edited(line: seq<Ch>, from: nat, o: Outcome): seq<Ch>
      requires from <= |line| && o.Fits?
    {
      line[..from] + Apply(line, o.edits, from)
    }

    /** One line, from `from` on; with `last`, no match may end behind `limit`. */
    method SubLine(lp: nat, from: nat, last: bool, limit: nat) returns (ok: bool, n: nat)
      requires Valid() && lp < |lines| && from <= |Lines()[lp]|
      modifies this, linebuf
      ensures var o := Edits(job, old(Lines())[lp], from, -1, from, if last then limit else -1);
        && |lines| == old(|lines|) && ok == o.Fits?
        && (ok ==> Valid() && n == |o.edits| && Lines() == old(Lines())[lp := Edited(old(Lines())[lp], from, o)])
    {
      hide Edits, NextEdit, Apply, Expand, Suits, Job.Ok, Halfway, FirstAlt, IsFirst, Holds, After', AllSame, Skip;
      var offset: nat, char2: int, crater, LineDone := from, limit, -1, false;
      ghost var was, lim := Lines()[lp], if last then limit as int else -1;
      ghost var whole := Edits(job, was, from, -1, from, lim);
      ghost var at: nat, rest := from, whole;
      n := 0;
      HalfwayStart(job, was, from, lim);
      assert Lines() == old(Lines())[lp := was];
      while !LineDone
        invariant Valid() && |lines| == old(|lines|) && offset <= |Lines()[lp]|
        invariant Lines() == old(Lines())[lp := Lines()[lp]]
        invariant crater == -1 || 0 <= crater <= offset
        invariant Halfway(whole, n, was, from, rest, Lines()[lp], offset, at)
        invariant rest == if LineDone then Fits([]) else Edits(job, Lines()[lp], offset, crater, at, lim)
        invariant last ==> char2 - offset == limit - at
        decreases !LineDone, |Lines()[lp]| - offset
      {
        ghost var line := Lines()[lp];
        var found, m, bom := Find(lp, offset, crater);
        ghost var x := NextEdit(job, line, offset, crater);
        if !found {
          EditsStop(job, line, offset, crater, at, lim);
          break;
        }
        if last && m.REeom > char2 {
          EditsStop(job, line, offset, crater, at, lim);
          break;
        }
        at, rest := NextHalf(job, whole, n, was, from, line, offset, crater, at, lim, x);
        var delta;
        ok, LineDone, offset, delta := OneSub(lp, m, bom, offset);
        if !ok { return; }
        if last { char2 := char2 + delta; }
        n := n + 1;
        crater := offset;
      }
      HalfwayEnd(whole, n, was, from, Lines()[lp], offset, at);
      ok := true;
    }

    /** The next match in line `lp`. */
    method Find(lp: nat, offset: nat, crater: int) returns (found: bool, m: Matcher, bom: nat)
      requires Valid() && lp < |lines| && offset <= |Lines()[lp]| && (crater == -1 || 0 <= crater <= offset)
      ensures m.Arrays() && m.t == job.On(Lines()[lp], crater)
      ensures var x := NextEdit(job, Lines()[lp], offset, crater);
        if found then x.Next'? && x.from == bom && x.to == m.REeom && IsFirst(m.t, job.alts, Forward, offset, bom) &&
                      m.Success(FirstAlt(m.t, job.alts, bom)) && bom <= FirstAlt(m.t, job.alts, bom).end
        else x.Nothing?
    {
      hide NextEdit, Expand, Suits, FirstAlt, IsFirst, Nowhere, Job.Ok;
      ghost var line := Lines()[lp];
      var lbuf := ltobuf(lp);
      m := new Matcher(job.On(lbuf, crater), b.code);
      OkText(job, lbuf, crater);
      found, bom := re_lindex(m, b, job.alts, offset, Forward);
      if found {
        FoundNext(job, line, offset, crater, bom);
      } else {
        FoundNothing(job, line, offset, crater);
      }
    }

    /** The match that `m` has found from `bom` on is replaced. */
    method OneSub(lp: nat, m: Matcher, bom: nat, ghost offset0: nat) returns (ok: bool, LineDone: bool, offset: nat, delta: int)
      requires Valid() && lp < |lines| && m.Arrays() && offset0 <= |Lines()[lp]|
      requires m.t == job.On(Lines()[lp], m.t.crater) && m.Success(FirstAlt(m.t, job.alts, bom)) && bom <= FirstAlt(m.t, job.alts, bom).end
      requires IsFirst(m.t, job.alts, Forward, offset0, bom)
      modifies this, linebuf
      ensures var x := NextEdit(job, old(Lines())[lp], offset0, m.t.crater);
        && x.Next'? && |lines| == old(|lines|) && ok == (|x.line| < job.size)
        && (ok ==> Valid() && Lines() == old(Lines())[lp := x.line] && LineDone == x.over && offset == x.offset && delta == |x.line| - |old(Lines())[lp]|)
    {
      hide NextEdit, Expand, Suits, FirstAlt, IsFirst, Within, Ordered;
      ghost var line := Lines()[lp];
      ghost var f := FirstAlt(m.t, job.alts, bom);
      FoundNext(job, line, offset0, m.t.crater, bom);
      ghost var x := NextEdit(job, line, offset0, m.t.crater);
      DotTo(lp, m.REeom);
      AtNul(linebuf[..], text, f.end);
      LineDone := bom == m.REeom && linebuf[m.REeom] == 0;
      AltGroups(m.t, job.alts, bom, Groups(0, job.nparens));
      WithinAll(f, bom);
      ok, offset, delta := re_dosub(m, bom, job.rep, b.nparens, linebuf, f);
      if ok {
        EditNoNuls(job, line, bom, m.t.crater, f, x.line);
        text := x.line;
        dirty := true;
        curchar := offset;
      }
    }

    /** substitute, without questions, from `char1` of line `l1` to `char2` of line `l2`. */
    method substitute(l1: nat, char1: nat, l2: nat, char2: nat) returns (ok: bool, numdone: nat)
      requires Valid() && l1 <= l2 < |lines| && char1 <= |Lines()[l1]|
      modifies this, linebuf
      ensures ok == forall k :: l1 <= k <= l2 ==> LineEdits(job, old(Lines())[k], k, l1, char1, l2, char2).Fits?
      ensures ok ==>
        && Valid() && |Lines()| == |old(Lines())|
        && (forall k :: 0 <= k < |Lines()| && !(l1 <= k <= l2) ==> Lines()[k] == old(Lines())[k])
        && (forall k :: l1 <= k <= l2 ==> Lines()[k] == Edited(old(Lines())[k], if k == l1 then char1 else 0, LineEdits(job, old(Lines())[k], k, l1, char1, l2, char2)))
        && numdone == Total(job, old(Lines()), l1, l1, char1, l2, char2)
    {
      hide Edits, Apply, Edited, Suits;
      numdone := 0;
      lsave();
      ghost var was := Lines();
      var lp, offset := l1, char1;
      while lp <= l2
        invariant Valid() && |Lines()| == |was| && l1 <= lp <= l2 + 1 && offset == (if lp == l1 then char1 else 0)
        invariant forall k :: l1 <= k < lp ==> LineEdits(job, was[k], k, l1, char1, l2, char2).Fits?
        invariant forall k :: 0 <= k < |was| && !(l1 <= k < lp) ==> Lines()[k] == was[k]
        invariant forall k :: l1 <= k < lp ==> Lines()[k] == Edited(was[k], if k == l1 then char1 else 0, LineEdits(job, was[k], k, l1, char1, l2, char2))
        invariant numdone + Total(job, was, lp, l1, char1, l2, char2) == Total(job, was, l1, l1, char1, l2, char2)
      {
        var n;
        ok, n := SubLine(lp, offset, lp == l2, char2);
        if !ok { return; }
        numdone := numdone + n;
        lp, offset := lp + 1, 0;
      }
      ok := true;
    }
  }

  /** The edits of line `k` when a region is substituted. */
  function LineEdits(j: Job, line: seq<Ch>, k: nat, l1: nat, char1: nat, l2: nat, char2: nat): Outcome {
    var from := if k == l1 then char1 else 0;
    if from > |line| then TooLong else Edits(j, line, from, -1, from, if k == l2 then char2 else -1)
  }

  /** How many edits there are in all. */
  function Total(j: Job, lines: seq<seq<Ch>>, k: nat, l1: nat, char1: nat, l2: nat, char2: nat): nat
    decreases l2 + 1 - k
  {
    if k > l2 || k >= |lines| then 0
    else
      var e := LineEdits(j, lines[k], k, l1, char1, l2, char2);
      (if e.Fits? then |e.edits| else 0) + Total(j, lines, k + 1, l1, char1, l2, char2)
  }

  lemma OkText(j: Job, line: seq<Ch>, crater: int)
    requires j.Ok() && 0 !in line
    ensures j.On(line, crater).Ok()
  {}
}
