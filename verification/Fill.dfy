/** Filling a stretch of lines: words are kept, lines are not too wide. */
module Fill {
  import opened CString
  import opened Columns

  type Text = seq<Ch>

  predicate White(c: Ch) { c == BLANK || c == TAB }

  predicate AllWhite(s: Text) { forall i :: 0 <= i < |s| ==> White(s[i]) }

  /** The end of the word that `s` starts with. */
  function WordEnd(s: Text): (n: nat)
    ensures n <= |s|
  {
    if s == [] || White(s[0]) then 0 else WordEnd(s[1..]) + 1
  }

  lemma {:induction false} WordEndFacts(s: Text)
    ensures var n := WordEnd(s); (forall i :: 0 <= i < n ==> !White(s[i])) && (n < |s| ==> White(s[n]))
  {
    if s != [] && !White(s[0]) {
      WordEndFacts(s[1..]);
      var n := WordEnd(s);
      forall i | 0 < i < n ensures !White(s[i]) { assert s[i] == s[1..][i - 1]; }
    }
  }

  /** The maximal runs of characters that are not white. */
  function Words(s: Text): seq<Text>
    decreases |s|
  {
    if s == [] then []
    else if White(s[0]) then Words(s[1..])
    else [s[..WordEnd(s)]] + Words(s[WordEnd(s)..])
  }

  function WordsOf(lines: seq<Text>): seq<Text> {
    if lines == [] then [] else Words(lines[0]) + WordsOf(lines[1..])
  }

  lemma {:induction false} WordEndJoin(a: Text, b: Text)
    requires b == [] || White(b[0]) || (exists i :: 0 <= i < |a| && White(a[i]))
    ensures WordEnd(a + b) == WordEnd(a)
  {
    if a == [] {
      assert a + b == b;
    } else if !White(a[0]) {
      assert (a + b)[1..] == a[1..] + b;
      if b != [] && !White(b[0]) {
        var i :| 0 <= i < |a| && White(a[i]);
        assert a[1..][i - 1] == a[i];
      }
      WordEndJoin(a[1..], b);
    }
  }

  /** Two texts whose seam is at white space, or of which one is empty, have their words together. */
  lemma {:induction false} WordsJoin(a: Text, b: Text)
    requires a == [] || b == [] || White(a[|a| - 1]) || White(b[0])
    ensures Words(a + b) == Words(a) + Words(b)
    decreases |a|
  {
    if a == [] {
      assert a + b == b;
      assert Words(a) + Words(b) == Words(b);
    } else if b == [] {
      assert a + b == a;
      assert Words(a) + Words(b) == Words(a);
    } else {
      hide Words, WordEnd, White;
      var n := if White(a[0]) then 1 else WordEnd(a);
      WordsStep(a);
      Drop(a, b, n);
      WordsJoin(a[n..], b);
      SeamStep(a, b, n);
    }
  }

  lemma SeamStep(a: Text, b: Text, n: nat)
    requires a != [] && b != [] && (White(a[|a| - 1]) || White(b[0])) && n == if White(a[0]) then 1 else WordEnd(a)
    requires n <= |a| && Words(a[n..] + b) == Words(a[n..]) + Words(b)
    ensures Words(a + b) == Words(a) + Words(b)
  {
    hide Words, WordEnd, White;
    WordsStep(a);
    WordsStep(a + b);
    SeamEnd(a, b);
    Drop(a, b, n);
    Together(a[..n], Words(a[n..]), Words(b));
  }

  lemma SeamEnd(a: Text, b: Text)
    requires a != [] && b != [] && (White(a[|a| - 1]) || White(b[0]))
    ensures WordEnd(a + b) == WordEnd(a)
  {
    WordEndJoin(a, b);
  }

  lemma Drop(a: Text, b: Text, n: nat)
    requires n <= |a|
    ensures (a + b)[n..] == a[n..] + b && (a + b)[..n] == a[..n] && (n < |a| ==> a[n..][|a[n..]| - 1] == a[|a| - 1])
    ensures a != [] ==> (a + b)[0] == a[0]
  {}

  lemma Together(w: Text, x: seq<Text>, y: seq<Text>)
    ensures [w] + (x + y) == ([w] + x) + y
  {}

  lemma WordsStep(s: Text)
    requires s != []
    ensures if White(s[0]) then Words(s) == Words(s[1..])
      else 0 < WordEnd(s) <= |s| && Words(s) == [s[..WordEnd(s)]] + Words(s[WordEnd(s)..])
  {}

  lemma {:induction false} NoWords(s: Text)
    ensures Words(s) == [] <==> AllWhite(s)
    decreases |s|
  {
    if s != [] && White(s[0]) {
      NoWords(s[1..]);
      assert forall i :: 1 <= i < |s| ==> s[i] == s[1..][i - 1];
    }
  }

  lemma OneWord(s: Text)
    requires s != [] && forall i :: 0 <= i < |s| ==> !White(s[i])
    ensures Words(s) == [s]
  {
    WordsStep(s);
    WordEndFacts(s);
    hide Words, WordEnd;
    assert WordEnd(s) == |s|;
    assert s[..|s|] == s && s[|s|..] == [];
    NoWords([]);
  }

  lemma {:induction false} WordsOfJoin(a: seq<Text>, b: seq<Text>)
    ensures WordsOf(a + b) == WordsOf(a) + WordsOf(b)
    decreases |a|
  {
    if a == [] {
      assert a + b == b;
    } else {
      WordsOfJoin(a[1..], b);
      hide Words;
      assert (a + b)[1..] == a[1..] + b;
      assert Words(a[0]) + (WordsOf(a[1..]) + WordsOf(b)) == (Words(a[0]) + WordsOf(a[1..])) + WordsOf(b);
    }
  }

  lemma WordsOfOne(s: Text)
    ensures WordsOf([s]) == Words(s)
  {
    assert [s][1..] == [];
  }

  /** The columns before a position depend on what is before it only. */
  lemma {:induction false} ColPrefix(s: Text, n: nat, t: Terminal)
    requires n <= |s|
    ensures Col(s, n, t) == Col(s[..n], n, t)
    decreases n
  {
    if n > 0 {
      ColPrefix(s, n - 1, t);
      ColPrefix(s[..n], n - 1, t);
      assert s[..n][..n - 1] == s[..n - 1];
    }
  }

  /** A line that is not too wide, or cannot be helped. */
  ghost predicate Narrow(s: Text, rmargin: int, t: Terminal) {
    Col(s, |s|, t) <= rmargin || |Words(s)| <= 1
  }

  /** A line that would be narrow but for the last word, which follows the word that ends at `k`. */
  ghost predicate OneTooMany(s: Text, k: nat, rmargin: int, t: Terminal) {
    k < |s| && |Words(s)| == |Words(s[..k])| + 1 && Narrow(s[..k], rmargin, t) && White(s[k]) && 0 < k && !White(s[k - 1])
  }

  function Blanks(n: nat): (s: Text)
    ensures |s| == n && AllWhite(s)
  {
    seq(n, _ => BLANK)
  }

  /** Where the white space that ends `s` starts. */
  function WhiteTail(s: Text): (n: nat)
    ensures n <= |s|
  {
    if s == [] || !White(s[|s| - 1]) then |s| else WhiteTail(s[..|s| - 1])
  }

  lemma {:induction false} WhiteTailFacts(s: Text)
    ensures var n := WhiteTail(s); AllWhite(s[n..]) && (n > 0 ==> !White(s[n - 1]))
    decreases |s|
  {
    if s != [] && White(s[|s| - 1]) {
      var t, n := s[..|s| - 1], WhiteTail(s);
      WhiteTailFacts(t);
      forall i | n <= i < |s| ensures White(s[i]) { if i < |t| { assert s[i] == t[n..][i - n]; } }
    }
  }

  /** Where the white space that starts `s` ends. */
  function WhiteHead(s: Text): (n: nat)
    ensures n <= |s|
  {
    if s == [] || !White(s[0]) then 0 else WhiteHead(s[1..]) + 1
  }

  lemma {:induction false} WhiteHeadFacts(s: Text)
    ensures var n := WhiteHead(s); AllWhite(s[..n]) && (n < |s| ==> !White(s[n]))
  {
    if s != [] && White(s[0]) {
      var t, n := s[1..], WhiteHead(s);
      WhiteHeadFacts(t);
      forall i | 0 <= i < n ensures White(s[i]) { if i > 0 { assert s[i] == t[..n - 1][i - 1]; } }
    }
  }

  predicate Closer(c: Ch) { c == 34 || c == 39 || c == 41 || c == 93 }
  predicate Ender(c: Ch) { c == 63 || c == 33 || c == 46 }
  const COLON: Ch := 58

  /** White space from one column to another, with tabs as far as they go. */
  function Indent(dotcol: nat, goal: nat, t: Terminal): (pad: Text)
    requires dotcol <= goal
    decreases goal - dotcol
  {
    if t.tabstop != 0 && dotcol + TabDist(t.tabstop, dotcol) <= goal then
      [TAB] + Indent(dotcol + TabDist(t.tabstop, dotcol), goal, t)
    else Blanks(goal - dotcol)
  }

  /** Back over closing quotes and brackets. */
  function Punct(line: Text, at: nat): (r: nat)
    requires at < |line|
    ensures r <= at
  {
    if at > 0 && Closer(line[at]) then Punct(line, at - 1) else at
  }

  /** How many blanks are left of the white space from `c1` to `e`. */
  function Separation(line: Text, c1: nat, e: nat, sent2: bool): (n: nat)
    requires c1 <= e <= |line|
    ensures n <= 2 && (n > 0 <==> 0 < c1 < e < |line|)
  {
    if c1 == e || c1 == 0 || e == |line| then 0
    else if e - c1 >= 2 && sent2 && Punct(line, c1 - 1) > 0 && (line[c1 - 1] == COLON || Ender(line[Punct(line, c1 - 1)])) then 2
    else 1
  }

  /** What do_space makes of a line, and where it leaves point. */
  function Spaced(line: Text, p: nat, sent2: bool): (r: (Text, nat))
    requires p <= |line|
    ensures r.1 <= |r.0|
  {
    var e := p + WhiteHead(line[p..]);
    var c1 := WhiteTail(line[..e]);
    var n := Separation(line, c1, e, sent2);
    (line[..c1] + Blanks(n) + line[e..], c1 + n)
  }

  /** The right margin, the indentation, whether sentences end in two blanks, and the terminal. */
  datatype Config = Config(rmargin: int, indent: nat, sent2: bool, t: Terminal)

  /** Where the loop may be: the last place that fits is where the line started, or only white space is behind it. */
  ghost predicate Ready(line: Text, cur: nat, okay: nat, start: nat) {
    && cur <= |line|
    && (okay == start || (okay <= cur && AllWhite(line[okay..cur]) && (okay < cur || okay == 0 || cur == |line|)))
    && (cur == 0 || cur == start || !White(line[cur - 1]) || (cur < |line| && !White(line[cur])))
  }

  /** Does the word at point stick out, and is it not the first on its line? */
  ghost predicate Breaks(line: Text, cur: nat, okay: nat, start: nat, cfg: Config)
    requires cur <= |line|
  {
    var we := cur + WordEnd(line[cur..]);
    we != cur && okay != start && Col(line, we, cfg.t) > cfg.rmargin
  }

  /** The line with the next one behind it, if point is at its end. */
  function Joined(line: Text, we: nat, rest: seq<Text>): Text
    requires we == |line| ==> rest != []
  {
    if we == |line| then line + [BLANK, BLANK] + rest[0] else line
  }

  /** From the end of a word on to the next one, be it on the next line. */
  function Onward(line: Text, we: nat, rest: seq<Text>, sent2: bool): (r: (Text, nat))
    requires we <= |line| && (we == |line| ==> rest != [])
    ensures r.1 <= |r.0|
  {
    Spaced(Joined(line, we, rest), if we == |line| then we + 2 else we, sent2)
  }

  function RestAfter(line: Text, we: nat, rest: seq<Text>): seq<Text>
    requires we == |line| ==> rest != []
  {
    if we == |line| then rest[1..] else rest
  }

  /** The lines that filling leaves, from the current line on; `rest` is the lines still to be joined. */
  ghost function Run(line: Text, cur: nat, okay: nat, start: nat, rest: seq<Text>, cfg: Config): (lines: seq<Text>)
    requires Ready(line, cur, okay, start)
    ensures lines != []
    decreases |rest|, |line| - cur, okay != start
  {
    var we := cur + WordEnd(line[cur..]);
    if Breaks(line, cur, okay, start, cfg) then
      BreakReady(line, cur, okay, start, cfg);
      var b := Broken(line, okay, cfg);
      [b.0] + Run(b.1, b.2, b.2, b.2, rest, cfg)
    else if we == |line| && rest == [] then [line]
    else
      var n := Onward(line, we, rest, cfg.sent2);
      OnwardReady(line, cur, okay, start, rest, cfg.sent2, we, n);
      Run(n.0, n.1, we, start, RestAfter(line, we, rest), cfg)
  }

  /** A line split at a place: what stays, what goes on, and where point is there. */
  function Broken(line: Text, okay: nat, cfg: Config): (r: (Text, Text, nat))
    requires okay <= |line|
    ensures r.2 <= |r.1|
  {
    var pad := Indent(0, cfg.indent, cfg.t);
    (line[..WhiteTail(line[..okay])], pad + line[okay + WhiteHead(line[okay..])..], |pad|)
  }

  lemma BreakReady(line: Text, cur: nat, okay: nat, start: nat, cfg: Config)
    requires Ready(line, cur, okay, start) && Breaks(line, cur, okay, start, cfg)
    ensures okay != start && okay <= cur < |line| && AllWhite(line[okay..cur]) && !White(line[cur])
    ensures var (done, next, at) := Broken(line, okay, cfg);
      Ready(next, at, at, at) && |next| - at == |line| - cur && next[at..] == line[cur..] && at < |next| && !White(next[at])
  {
    DarkWord(line, cur);
    BreakAt(line, cur, okay, cfg);
  }

  lemma BreakAt(line: Text, cur: nat, okay: nat, cfg: Config)
    requires okay <= cur < |line| && AllWhite(line[okay..cur]) && !White(line[cur])
    ensures var (done, next, at) := Broken(line, okay, cfg);
      Ready(next, at, at, at) && |next| - at == |line| - cur && next[at..] == line[cur..] && at < |next| && !White(next[at])
  {
    assert line[okay..][..cur - okay] == line[okay..cur];
    HeadIs(line[okay..], cur - okay);
    var pad := Indent(0, cfg.indent, cfg.t);
    assert (pad + line[cur..])[|pad|..] == line[cur..];
    assert (pad + line[cur..])[|pad|] == line[cur];
  }

  lemma OnwardReady(line: Text, cur: nat, okay: nat, start: nat, rest: seq<Text>, sent2: bool, we: nat, n: (Text, nat))
    requires Ready(line, cur, okay, start) && cur <= |line| && we == cur + WordEnd(line[cur..]) <= |line|
    requires (we == |line| ==> rest != []) && n == Onward(line, we, rest, sent2)
    ensures Ready(n.0, n.1, we, start) && (we < |line| ==> |n.0| - n.1 < |line| - cur)
  {
    hide Ready, Spaced, WordEnd, AllWhite, White, Joined;
    var joined, p := Joined(line, we, rest), if we == |line| then we + 2 else we;
    JoinedAt(line, we, rest);
    SpacedReady(line, cur, okay, start, we, joined, p, sent2);
  }

  lemma JoinedAt(line: Text, we: nat, rest: seq<Text>)
    requires we <= |line| && (we == |line| ==> rest != [])
    ensures var joined, p := Joined(line, we, rest), if we == |line| then we + 2 else we;
      we <= p <= |joined| && line[..we] == joined[..we] && AllWhite(joined[we..p]) && (we < |line| ==> joined == line)
  {
    var joined, p := Joined(line, we, rest), if we == |line| then we + 2 else we;
    if we == |line| { assert joined[we..p] == [BLANK, BLANK]; }
  }

  lemma SpacedReady(line: Text, cur: nat, okay: nat, start: nat, we: nat, joined: Text, p: nat, sent2: bool)
    requires Ready(line, cur, okay, start) && we == cur + WordEnd(line[cur..])
    requires p <= |joined| && we <= p && line[..we] == joined[..we] && AllWhite(joined[we..p])
    requires if we == |line| then p == we + 2 else p == we && joined == line
    ensures var (next, at) := Spaced(joined, p, sent2);
      Ready(next, at, we, start) && (we < |line| ==> |next| - at < |line| - cur)
  {
    hide *;
    DarkWord(line, cur);
    ReadyWord(line, cur, okay, start, we);
    SpacedIs(joined, p, sent2);
    HeadFacts(joined, p);
    var e := p + WhiteHead(joined[p..]);
    WhiteOn(joined, we, p, e);
    var c1 := WhiteTail(joined[..e]);
    if we != start {
      assert we > 0 ==> joined[..we][we - 1] == joined[we - 1] && line[..we][we - 1] == line[we - 1];
      assert joined[..e][we..] == joined[we..e] && (we > 0 ==> joined[..e][we - 1] == joined[we - 1]);
      TailIs(joined[..e], we);
    }
    SpacedShape(joined, c1, e, Separation(joined, c1, e, sent2), we);
    ReadyIs(Spaced(joined, p, sent2).0, Spaced(joined, p, sent2).1, we, start);
  }

  lemma ReadyIs(line: Text, cur: nat, okay: nat, start: nat)
    ensures Ready(line, cur, okay, start) <==>
      && cur <= |line|
      && (okay == start || (okay <= cur && AllWhite(line[okay..cur]) && (okay < cur || okay == 0 || cur == |line|)))
      && (cur == 0 || cur == start || !White(line[cur - 1]) || (cur < |line| && !White(line[cur])))
  {}

  /** What is left of a word is the end of a word, or the start of the line, or where the line's filling started. */
  lemma ReadyWord(line: Text, cur: nat, okay: nat, start: nat, we: nat)
    requires Ready(line, cur, okay, start) && we == cur + WordEnd(line[cur..])
    ensures we == 0 || we == start || !White(line[we - 1])
  {
    DarkWord(line, cur);
  }

  lemma HeadFacts(s: Text, p: nat)
    requires p <= |s|
    ensures var e := p + WhiteHead(s[p..]); e <= |s| && (e < |s| ==> !White(s[e])) && (p < |s| && White(s[p]) ==> e > p)
  {
    WhiteHeadFacts(s[p..]);
    var n := WhiteHead(s[p..]);
    if p + n < |s| { assert s[p..][n] == s[p + n]; }
    if p < |s| { assert s[p..][0] == s[p]; }
  }

  lemma SpacedShape(line: Text, c1: nat, e: nat, n: nat, we: nat)
    requires c1 <= e <= |line| && c1 == WhiteTail(line[..e]) && (e < |line| ==> !White(line[e])) && (n > 0 <==> 0 < c1 < e < |line|) && (c1 == we ==> we < e)
    ensures var next := line[..c1] + Blanks(n) + line[e..]; var at := c1 + n;
      && |next| - at == |line| - e && (c1 == we ==> AllWhite(next[we..at]) && (we < at || we == 0 || at == |next|))
      && (at == 0 || !White(next[at - 1]) || (at < |next| && !White(next[at])))
  {
    WhiteTailFacts(line[..e]);
    var next := line[..c1] + Blanks(n) + line[e..];
    if c1 > 0 { assert line[..e][c1 - 1] == line[c1 - 1] == next[c1 - 1]; }
    if e < |line| { assert next[c1 + n] == line[e]; }
    assert next[c1..c1 + n] == Blanks(n);
  }

  lemma WhiteOn(s: Text, a: nat, b: nat, e: nat)
    requires a <= b <= e <= |s| && AllWhite(s[a..b]) && e == b + WhiteHead(s[b..])
    ensures AllWhite(s[a..e])
  {
    WhiteHeadFacts(s[b..]);
    forall i | a <= i < e ensures White(s[i]) {
      if i < b { assert s[a..b][i - a] == s[i]; } else { assert s[b..][..e - b][i - b] == s[i]; }
    }
  }

  /** A word that is not empty starts and ends with a character that is not white. */
  lemma DarkWord(line: Text, cur: nat)
    requires cur <= |line|
    ensures var we := cur + WordEnd(line[cur..]);
      && we <= |line| && (we < |line| ==> White(line[we])) && (forall i :: cur <= i < we ==> !White(line[i]))
      && (we == cur <==> cur == |line| || White(line[cur]))
  {
    WordEndFacts(line[cur..]);
    var n := WordEnd(line[cur..]);
    forall i | cur <= i < cur + n ensures !White(line[i]) { assert line[cur..][i - cur] == line[i]; }
    if cur + n < |line| { assert line[cur..][n] == line[cur + n]; }
  }

  lemma {:induction false} HeadIs(s: Text, n: nat)
    requires n <= |s| && AllWhite(s[..n]) && (n < |s| ==> !White(s[n]))
    ensures WhiteHead(s) == n
  {
    if n > 0 {
      assert s[..n][0] == s[0];
      assert s[1..][..n - 1] == s[..n][1..];
      HeadIs(s[1..], n - 1);
    }
  }

  lemma {:induction false} TailIs(s: Text, n: nat)
    requires n <= |s| && AllWhite(s[n..]) && (n > 0 ==> !White(s[n - 1]))
    ensures WhiteTail(s) == n
    decreases |s|
  {
    if n < |s| {
      assert s[n..][|s| - 1 - n] == s[|s| - 1];
      assert s[..|s| - 1][n..] == s[n..][..|s| - 1 - n];
      TailIs(s[..|s| - 1], n);
    }
  }

  /** A buffer around the current line, which is in `linebuf`; a mark says where filling ends, `endBelow` lines further down. */
  class Filler {
    var above: seq<Text>
    var linebuf: Text
    var below: seq<Text>
    var curchar: nat
    var endBelow: nat
    var endChar: nat

    /** The mark is at the end of its line. */
    ghost predicate Valid()
      reads this
    {
      && curchar <= |linebuf| && endBelow <= |below|
      && endChar == if endBelow == 0 then |linebuf| else |below[endBelow - 1]|
    }

    method ins_str(s: Text)
      requires curchar <= |linebuf|
      modifies this`linebuf, this`curchar, this`endChar
      ensures linebuf == old(linebuf)[..old(curchar)] + s + old(linebuf)[old(curchar)..] && curchar == old(curchar) + |s|
      ensures endChar == if endBelow == 0 && old(endChar) > old(curchar) then old(endChar) + |s| else old(endChar)
    {
      if endBelow == 0 && endChar > curchar { endChar := endChar + |s|; }
      linebuf := linebuf[..curchar] + s + linebuf[curchar..];
      curchar := curchar + |s|;
    }

    /** Deletes characters right of point, on this line. */
    method del_char(n: nat)
      requires curchar + n <= |linebuf|
      modifies this`linebuf, this`endChar
      ensures linebuf == old(linebuf)[..curchar] + old(linebuf)[curchar + n..]
      ensures endChar == if endBelow != 0 || old(endChar) <= curchar then old(endChar)
        else if old(endChar) <= curchar + n then curchar else old(endChar) - n
    {
      linebuf := linebuf[..curchar] + linebuf[curchar + n..];
      if endBelow == 0 && endChar > curchar {
        endChar := if endChar <= curchar + n then curchar else endChar - n;
      }
    }

    /** Deletes the line separator at the end of the line. */
    method JoinNext()
      requires Valid() && curchar == |linebuf| && endBelow > 0
      modifies this`linebuf, this`below, this`endBelow, this`endChar
      ensures Valid() && linebuf == old(linebuf) + old(below)[0] && below == old(below)[1..] && endBelow == old(endBelow) - 1
    {
      if endBelow == 1 { endChar := |linebuf| + endChar; }
      linebuf, below, endBelow := linebuf + below[0], below[1..], endBelow - 1;
    }

    /** Splits the line at point; the mark must be further on. */
    method LineInsert()
      requires Valid() && (endBelow > 0 || endChar > curchar)
      modifies this`above, this`linebuf, this`curchar, this`endChar
      ensures Valid() && curchar == 0 && above == old(above) + [old(linebuf)[..old(curchar)]] && linebuf == old(linebuf)[old(curchar)..]
    {
      above := above + [linebuf[..curchar]];
      linebuf := linebuf[curchar..];
      if endBelow == 0 { endChar := endChar - curchar; }
      curchar := 0;
    }

    /** Back from the start of the line to the end of the one above. */
    method b_char()
      requires Valid() && curchar == 0 && above != []
      modifies this`above, this`linebuf, this`below, this`curchar, this`endBelow
      ensures Valid() && above == old(above)[..|old(above)| - 1] && linebuf == old(above)[|old(above)| - 1]
      ensures below == [old(linebuf)] + old(below) && endBelow == old(endBelow) + 1 && curchar == |linebuf|
    {
      below, endBelow := [linebuf] + below, endBelow + 1;
      linebuf, above := above[|above| - 1], above[..|above| - 1];
      curchar := |linebuf|;
    }

    /** On from the end of the line to the start of the next. */
    method f_char()
      requires Valid() && curchar == |linebuf| && endBelow > 0
      modifies this`above, this`linebuf, this`below, this`curchar, this`endBelow
      ensures Valid() && above == old(above) + [old(linebuf)] && linebuf == old(below)[0]
      ensures below == old(below)[1..] && endBelow == old(endBelow) - 1 && curchar == 0
    {
      above, linebuf, below, endBelow := above + [linebuf], below[0], below[1..], endBelow - 1;
      curchar := 0;
    }

    method skip_wht_space()
      requires curchar <= |linebuf|
      modifies this`curchar
      ensures curchar == old(curchar) + WhiteHead(linebuf[old(curchar)..])
    {
      ghost var rest := linebuf[curchar..];
      while curchar < |linebuf| && White(linebuf[curchar])
        invariant old(curchar) <= curchar <= |linebuf|
        invariant WhiteHead(rest) == curchar - old(curchar) + WhiteHead(linebuf[curchar..])
      {
        assert linebuf[curchar..][1..] == linebuf[curchar + 1..];
        curchar := curchar + 1;
      }
    }

    method WhiteBefore(n: nat) returns (c1: nat)
      requires n <= |linebuf|
      ensures c1 == WhiteTail(linebuf[..n])
    {
      c1 := n;
      while c1 > 0 && White(linebuf[c1 - 1])
        invariant 0 <= c1 <= n && WhiteTail(linebuf[..n]) == WhiteTail(linebuf[..c1])
      {
        assert linebuf[..c1][..c1 - 1] == linebuf[..c1 - 1];
        c1 := c1 - 1;
      }
    }

    /** Deletes the white space around point. */
    method DelWtSpace()
      requires Valid()
      modifies this`linebuf, this`curchar, this`endChar
      ensures Valid() && curchar == WhiteTail(old(linebuf)[..old(curchar)])
      ensures linebuf == old(linebuf)[..curchar] + old(linebuf)[old(curchar) + WhiteHead(old(linebuf)[old(curchar)..])..]
    {
      ghost var was, at := linebuf, curchar;
      var sp := WhiteBefore(curchar);
      skip_wht_space();
      var ep := curchar;
      curchar := sp;
      del_char(ep - sp);
    }

    /** Indents what follows. */
    method n_indent(goal: nat, t: Terminal)
      requires Valid() && curchar == 0 && linebuf != [] && !White(linebuf[0])
      modifies this`linebuf, this`curchar, this`endChar
      ensures Valid() && linebuf == Indent(0, goal, t) + old(linebuf) && curchar == |Indent(0, goal, t)|
    {
      StartsDark(linebuf);
      hide WhiteHead, WhiteTail, Blanks, Indent;
      DelWtSpace();
      ghost var rest, pad: Text := linebuf, [];
      var dotcol := calc_pos(linebuf, curchar, t);
      assert [] + rest == rest && [] + Indent(0, goal, t) == Indent(0, goal, t);
      if t.tabstop != 0 {
        while true
          invariant Valid() && curchar == |pad| && linebuf == pad + rest && dotcol <= goal
          invariant pad + Indent(dotcol, goal, t) == Indent(0, goal, t)
          decreases goal - dotcol
        {
          IndentStep(pad, dotcol, goal, t);
          var incrmt := TabDist(t.tabstop, dotcol);
          if dotcol + incrmt > goal { break; }
          PadWith([TAB], pad, rest);
          pad := pad + [TAB];
          dotcol := dotcol + incrmt;
        }
      }
      IndentStep(pad, dotcol, goal, t);
      if dotcol != goal {
        PadWith(Blanks(goal - dotcol), pad, rest);
      }
    }

    method PadWith(more: Text, ghost pad: Text, ghost rest: Text)
      requires Valid() && curchar == |pad| && linebuf == pad + rest && rest != []
      modifies this`linebuf, this`curchar, this`endChar
      ensures Valid() && linebuf == (pad + more) + rest && curchar == |pad + more|
    {
      assert (pad + rest)[..|pad|] + more + (pad + rest)[|pad|..] == (pad + more) + rest;
      ins_str(more);
    }

    /** Where the white space before point starts, and whether not all of it is blanks. */
    method SpaceBefore() returns (c1: nat, funny: bool)
      requires curchar <= |linebuf|
      ensures c1 == WhiteTail(linebuf[..curchar])
      ensures funny <==> exists i :: c1 <= i < curchar && linebuf[i] != BLANK
    {
      c1, funny := curchar, false;
      while c1 > 0 && White(linebuf[c1 - 1])
        invariant 0 <= c1 <= curchar && WhiteTail(linebuf[..curchar]) == WhiteTail(linebuf[..c1])
        invariant funny <==> exists i :: c1 <= i < curchar && linebuf[i] != BLANK
      {
        assert linebuf[..c1][..c1 - 1] == linebuf[..c1 - 1];
        c1 := c1 - 1;
        if linebuf[c1] != BLANK { funny := true; }
      }
    }

    method Separator(c1: nat, diff: nat, sent2: bool) returns (nspace: nat)
      requires c1 + diff == curchar <= |linebuf|
      ensures nspace == Separation(linebuf, c1, curchar, sent2)
    {
      nspace := 0;
      if diff != 0 {
        if c1 > 0 && curchar != |linebuf| {
          nspace := 1;
          if diff >= 2 {
            var topunct := c1 - 1;
            while topunct > 0 && Closer(linebuf[topunct])
              invariant 0 <= topunct < c1 && Punct(linebuf, c1 - 1) == Punct(linebuf, topunct)
            {
              topunct := topunct - 1;
            }
            if sent2 && topunct > 0 && (linebuf[c1 - 1] == COLON || Ender(linebuf[topunct])) { nspace := 2; }
          }
        }
      }
    }

    /** Moves past the white space at point, leaving of it what separates words, if anything. */
    method do_space(sent2: bool)
      requires Valid()
      modifies this`linebuf, this`curchar, this`endChar
      ensures Valid() && (linebuf, curchar) == Spaced(old(linebuf), old(curchar), sent2)
    {
      hide WhiteHead, WhiteTail, Separation, Spaced, Blanks;
      SpacedIs(linebuf, curchar, sent2);
      skip_wht_space();
      var c1, funny := SpaceBefore();
      var diff := curchar - c1;
      var nspace := Separator(c1, diff, sent2);
      if diff != 0 && (funny || diff > nspace) {
        Replace(c1, diff, nspace);
      } else {
        SpacedSame(linebuf, c1, curchar, nspace);
      }
    }

    method Replace(c1: nat, diff: nat, nspace: nat)
      requires Valid() && c1 + diff == curchar && diff > 0
      requires curchar == |linebuf| ==> nspace == 0
      modifies this`linebuf, this`curchar, this`endChar
      ensures Valid() && linebuf == old(linebuf)[..c1] + Blanks(nspace) + old(linebuf)[old(curchar)..] && curchar == c1 + nspace
    {
      curchar := curchar - diff;
      SpacedText(linebuf, c1, nspace, c1 + diff);
      ins_str(Blanks(nspace));
      del_char(diff);
    }

    /** Breaks the line at the last place that fits, taking the white space away on both sides. */
    method BreakLine(okay: nat, cfg: Config)
      requires Valid() && okay <= curchar < |linebuf| && AllWhite(linebuf[okay..curchar]) && !White(linebuf[curchar])
      modifies this`above, this`linebuf, this`below, this`curchar, this`endBelow, this`endChar
      ensures Valid() && below == old(below) && endBelow == old(endBelow)
      ensures var (done, next, at) := Broken(old(linebuf), okay, cfg); above == old(above) + [done] && linebuf == next && curchar == at
    {
      hide WhiteHead, WhiteTail, Broken, Indent, AllWhite, White;
      BrokenIs(linebuf, okay, curchar, cfg);
      SplitAt(okay);
      AtStart(linebuf);
      DelWtSpace();
      n_indent(cfg.indent, cfg.t);
    }

    method SplitAt(okay: nat)
      requires Valid() && okay < |linebuf|
      modifies this`above, this`linebuf, this`below, this`curchar, this`endBelow, this`endChar
      ensures Valid() && below == old(below) && endBelow == old(endBelow) && curchar == 0
      ensures above == old(above) + [old(linebuf)[..okay][..WhiteTail(old(linebuf)[..okay])]] && linebuf == old(linebuf)[okay..]
    {
      hide WhiteHead, WhiteTail;
      curchar := okay;
      LineInsert();
      b_char();
      AtEnd(linebuf);
      DelWtSpace();
      f_char();
    }

    /** Fills the lines from the current one to the mark; with `toIndent` the first line's indentation is kept. */
    method DoJustify(toIndent: bool, cfg: Config)
      requires Valid()
      modifies this`above, this`linebuf, this`below, this`curchar, this`endBelow, this`endChar
      ensures above + [linebuf] == old(above) + Filled(old(linebuf), old(below)[..old(endBelow)], toIndent, cfg)
      ensures below == old(below)[old(endBelow)..]
    {
      hide Ready, Run, Broken, Onward, WordEnd, AllWhite, White, Breaks, RestAfter;
      curchar := 0;
      if toIndent { skip_wht_space(); }
      assert linebuf[0..] == linebuf;
      var okay_char, start_char := curchar, curchar;
      RunStart(linebuf, curchar);
      ghost var A, rest := above, below[..endBelow];
      FilledIs(linebuf, rest, toIndent, cfg);
      ghost var all := Run(linebuf, curchar, okay_char, start_char, rest, cfg);
      while true
        invariant Valid() && rest == below[..endBelow] && below[endBelow..] == old(below)[old(endBelow)..]
        invariant Ready(linebuf, curchar, okay_char, start_char)
        invariant above + Run(linebuf, curchar, okay_char, start_char, rest, cfg) == A + all
        decreases endBelow, |linebuf| - curchar, okay_char != start_char
      {
        ghost var line, cur, okay := linebuf, curchar, okay_char;
        var breaks := SkipWord(okay_char, start_char, cfg);
        if breaks {
          RunBreak(line, cur, okay, start_char, rest, cfg);
          BreakLine(okay_char, cfg);
          okay_char, start_char := curchar, curchar;
        } else {
          okay_char := curchar;
          if endBelow == 0 && curchar >= endChar {
            RunEnd(line, cur, okay, start_char, cfg);
            break;
          }
          RunOn(line, cur, okay, start_char, rest, cfg, curchar, Onward(line, curchar, rest, cfg.sent2));
          Separate(cfg.sent2);
          rest := below[..endBelow];
        }
      }
    }

    /** A word separator: the line's end is replaced, white space is made up. */
    method Separate(sent2: bool)
      requires Valid() && (curchar == |linebuf| ==> endBelow > 0)
      modifies this`linebuf, this`below, this`curchar, this`endBelow, this`endChar
      ensures Valid()
      ensures var we, line := old(curchar), old(linebuf); var rest := old(below)[..old(endBelow)];
        && (linebuf, curchar) == Onward(line, we, rest, sent2) && below[..endBelow] == RestAfter(line, we, rest)
        && endBelow == (if we == |line| then old(endBelow) - 1 else old(endBelow))
        && below[endBelow..] == old(below)[old(endBelow)..]
    {
      hide Spaced;
      if curchar == |linebuf| && below != [] {
        ghost var line := linebuf;
        ins_str([BLANK, BLANK]);
        assert linebuf == line + [BLANK, BLANK];
        JoinNext();
      }
      do_space(sent2);
    }

    /** Point moves past a word; unless that is the first on the line, does it stick out? */
    method SkipWord(okay: nat, start: nat, cfg: Config) returns (breaks: bool)
      requires curchar <= |linebuf|
      modifies this`curchar
      ensures breaks <==> Breaks(linebuf, old(curchar), okay, start, cfg)
      ensures curchar == if breaks then old(curchar) else old(curchar) + WordEnd(linebuf[old(curchar)..])
    {
      hide Col;
      ghost var rest := linebuf[curchar..];
      var word_start := curchar;
      while curchar < |linebuf| && !White(linebuf[curchar])
        invariant word_start <= curchar <= |linebuf|
        invariant WordEnd(rest) == curchar - word_start + WordEnd(linebuf[curchar..])
      {
        assert linebuf[curchar..][1..] == linebuf[curchar + 1..];
        curchar := curchar + 1;
      }
      breaks := false;
      if word_start != curchar && okay != start {
        var pos := calc_pos(linebuf, curchar, cfg.t);
        breaks := pos > cfg.rmargin;
      }
      if breaks { curchar := word_start; }
    }
  }

  /** What filling leaves of a stretch of lines. */
  ghost function Filled(line: Text, rest: seq<Text>, toIndent: bool, cfg: Config): seq<Text> {
    var cur := if toIndent then WhiteHead(line) else 0;
    Run(line, cur, cur, cur, rest, cfg)
  }

  lemma RunStart(line: Text, cur: nat)
    requires cur <= |line|
    ensures Ready(line, cur, cur, cur)
  {}

  lemma FilledIs(line: Text, rest: seq<Text>, toIndent: bool, cfg: Config)
    ensures var cur := if toIndent then WhiteHead(line) else 0;
      Ready(line, cur, cur, cur) && Filled(line, rest, toIndent, cfg) == Run(line, cur, cur, cur, rest, cfg)
  {}

  /** One round of the loop: the line is broken, or it is the last one, or point goes on to the next word. */
  lemma RunBreak(line: Text, cur: nat, okay: nat, start: nat, rest: seq<Text>, cfg: Config)
    requires Ready(line, cur, okay, start) && Breaks(line, cur, okay, start, cfg)
    ensures okay != start && okay <= cur < |line| && AllWhite(line[okay..cur]) && !White(line[cur])
    ensures var b := Broken(line, okay, cfg);
      && Ready(b.1, b.2, b.2, b.2) && |b.1| - b.2 == |line| - cur && b.2 < |b.1| && !White(b.1[b.2]) && b.1[b.2..] == line[cur..]
      && Run(line, cur, okay, start, rest, cfg) == [b.0] + Run(b.1, b.2, b.2, b.2, rest, cfg)
  {
    hide Ready, Breaks, Broken, Onward, WordEnd, AllWhite, White;
    BreakReady(line, cur, okay, start, cfg);
  }

  lemma RunEnd(line: Text, cur: nat, okay: nat, start: nat, cfg: Config)
    requires Ready(line, cur, okay, start) && !Breaks(line, cur, okay, start, cfg) && cur + WordEnd(line[cur..]) == |line|
    ensures Run(line, cur, okay, start, [], cfg) == [line]
  {
    hide Ready, Breaks, Broken, Onward, WordEnd, AllWhite, White;
  }

  lemma RunOn(line: Text, cur: nat, okay: nat, start: nat, rest: seq<Text>, cfg: Config, we: nat, n: (Text, nat))
    requires Ready(line, cur, okay, start) && cur <= |line| && !Breaks(line, cur, okay, start, cfg)
    requires we == cur + WordEnd(line[cur..]) <= |line|
    requires (we == |line| ==> rest != []) && n == Onward(line, we, rest, cfg.sent2)
    ensures Ready(n.0, n.1, we, start) && (we < |line| ==> |n.0| - n.1 < |line| - cur)
    ensures Run(line, cur, okay, start, rest, cfg) == Run(n.0, n.1, we, start, RestAfter(line, we, rest), cfg)
  {
    hide Ready, Breaks, Broken, Onward, WordEnd, AllWhite, White, RestAfter;
    OnwardReady(line, cur, okay, start, rest, cfg.sent2, we, n);
  }

  lemma BrokenIs(line: Text, okay: nat, cur: nat, cfg: Config)
    requires okay <= cur < |line| && AllWhite(line[okay..cur]) && !White(line[cur])
    ensures var tail := line[okay..]; var w := WhiteHead(tail); var pad := Indent(0, cfg.indent, cfg.t); var sp := WhiteTail(line[..okay]);
      && w == cur - okay && tail[w..] != [] && !White(tail[w..][0]) && sp <= okay && line[..okay][..sp] == line[..sp]
      && Broken(line, okay, cfg) == (line[..sp], pad + tail[w..], |pad|)
  {
    BreakAt(line, cur, okay, cfg);
    assert line[okay..][..cur - okay] == line[okay..cur];
    HeadIs(line[okay..], cur - okay);
  }

  lemma AtEnd(s: Text)
    ensures s[..|s|] == s && WhiteHead(s[|s|..]) == 0 && forall n: nat :: n <= |s| ==> s[..n] + s[|s| + 0..] == s[..n]
  {}

  lemma AtStart(s: Text)
    ensures s[0..] == s && WhiteTail(s[..0]) == 0 && forall n: nat :: n <= |s| ==> s[..0] + s[0 + n..] == s[n..]
  {}

  lemma SpacedIs(line: Text, p: nat, sent2: bool)
    requires p <= |line|
    ensures var e := p + WhiteHead(line[p..]); var c1 := WhiteTail(line[..e]); var n := Separation(line, c1, e, sent2);
      && c1 <= e <= |line| && (n > 0 <==> 0 < c1 < e < |line|) && n <= e - c1
      && Spaced(line, p, sent2) == (line[..c1] + Blanks(n) + line[e..], c1 + n)
  {}

  lemma SpacedText(line: Text, c1: nat, n: nat, e: nat)
    requires c1 <= e <= |line|
    ensures var l := line[..c1] + Blanks(n) + line[c1..];
      l[..c1 + n] + l[c1 + n + (e - c1)..] == line[..c1] + Blanks(n) + line[e..]
  {}

  lemma SpacedSame(line: Text, c1: nat, e: nat, n: nat)
    requires c1 <= e <= |line| && n == e - c1
    ensures (forall i :: c1 <= i < e ==> line[i] == BLANK) ==> line == line[..c1] + Blanks(n) + line[e..]
  {}

  lemma StartsDark(s: Text)
    requires s != [] && !White(s[0])
    ensures WhiteHead(s[0..]) == 0 && WhiteTail(s[..0]) == 0 && s[..0] + s[0..] == s
  {}

  lemma IndentStep(pad: Text, dotcol: nat, goal: nat, t: Terminal)
    requires dotcol <= goal
    ensures var i := Indent(dotcol, goal, t);
      if t.tabstop != 0 && dotcol + TabDist(t.tabstop, dotcol) <= goal then
        pad + i == (pad + [TAB]) + Indent(dotcol + TabDist(t.tabstop, dotcol), goal, t)
      else i == Blanks(goal - dotcol) && (goal == dotcol ==> pad + i == pad)
  {}

  /** Making up white space between words, or taking it away at an end of the line, keeps the words. */
  lemma SqueezeWords(line: Text, c1: nat, e: nat, n: nat)
    requires c1 <= e <= |line| && AllWhite(line[c1..e]) && (n > 0 <==> 0 < c1 < e < |line|)
    ensures Words(line[..c1] + Blanks(n) + line[e..]) == Words(line)
  {
    hide Words, AllWhite;
    var a, w, b := line[..c1], line[c1..e], line[e..];
    assert line == a + w + b;
    if c1 == e {
      assert Blanks(n) == [] && w == [] && a + [] + b == line;
    } else {
      NoneWhite();
      assert [] + b == b;
      SeamWords(a, w, b, []);
      if n > 0 {
        SeamWords(a, Blanks(n), b, []);
      } else {
        assert Blanks(n) == [] && a + [] + b == a + b;
        WordsJoin(a, b);
      }
    }
  }

  lemma NoneWhite()
    ensures AllWhite([])
  {}

  lemma SpacedWords(line: Text, p: nat, sent2: bool)
    requires p <= |line|
    ensures Words(Spaced(line, p, sent2).0) == Words(line)
  {
    hide *;
    SpacedIs(line, p, sent2);
    HeadFacts(line, p);
    var e := p + WhiteHead(line[p..]);
    var c1 := WhiteTail(line[..e]);
    WhiteTailFacts(line[..e]);
    assert line[..e][c1..] == line[c1..e];
    SqueezeWords(line, c1, e, Separation(line, c1, e, sent2));
  }

  lemma TwoBlanks()
    ensures AllWhite([BLANK, BLANK])
  {}

  lemma OnwardWords(line: Text, we: nat, rest: seq<Text>, sent2: bool)
    requires we <= |line| && (we == |line| ==> rest != [])
    ensures Words(Onward(line, we, rest, sent2).0) + WordsOf(RestAfter(line, we, rest)) == Words(line) + WordsOf(rest)
  {
    hide Words, Spaced, White, Separation;
    JoinedAt(line, we, rest);
    SpacedWords(Joined(line, we, rest), if we == |line| then we + 2 else we, sent2);
    if we == |line| {
      assert (line + [BLANK, BLANK])[|line|..] == [BLANK, BLANK];
      assert AllWhite([BLANK, BLANK]) by { TwoBlanks(); }
      SeamWords(line, [BLANK, BLANK], rest[0], []);
      assert [] + rest[0] == rest[0];
      assert Words(line) + Words(rest[0]) + WordsOf(rest[1..]) == Words(line) + (Words(rest[0]) + WordsOf(rest[1..]));
    }
  }

  lemma BrokenWords(line: Text, okay: nat, cur: nat, cfg: Config)
    requires okay <= cur < |line| && AllWhite(line[okay..cur]) && !White(line[cur]) && (okay == 0 || okay < cur)
    ensures var b := Broken(line, okay, cfg); Words(b.0) + Words(b.1) == Words(line)
  {
    hide *;
    BrokenIs(line, okay, cur, cfg);
    IndentWhite(0, cfg.indent, cfg.t);
    var sp := WhiteTail(line[..okay]);
    BrokenGap(line, okay, cur);
    assert line[okay..][cur - okay..] == line[cur..];
    assert line[..sp] + line[sp..cur] + line[cur..] == line;
    SeamWords(line[..sp], line[sp..cur], line[cur..], Indent(0, cfg.indent, cfg.t));
  }

  lemma BrokenGap(line: Text, okay: nat, cur: nat)
    requires okay <= cur < |line| && AllWhite(line[okay..cur]) && (okay == 0 || okay < cur)
    ensures var sp := WhiteTail(line[..okay]); sp <= okay && AllWhite(line[sp..cur]) && (sp == 0 || sp < cur)
  {
    var sp := WhiteTail(line[..okay]);
    WhiteTailFacts(line[..okay]);
    hide WhiteTail;
    forall i | sp <= i < cur ensures White(line[i]) {
      if i < okay { assert line[..okay][sp..][i - sp] == line[i]; } else { assert line[okay..cur][i - okay] == line[i]; }
    }
  }

  /** White space at a seam, of whatever length, is no part of any word. */
  lemma SeamWords(a: Text, w: Text, b: Text, pad: Text)
    requires AllWhite(w) && AllWhite(pad) && (a == [] || w != [])
    ensures Words(a) + Words(pad + b) == Words(a + w + b)
  {
    hide Words;
    NoWords(w);
    NoWords(pad);
    if pad != [] { assert White(pad[|pad| - 1]); }
    WordsJoin(pad, b);
    if w != [] { assert (a + w)[|a + w| - 1] == w[|w| - 1] && White(w[|w| - 1]) && White(w[0]); } else { assert a + w == []; }
    WordsJoin(a + w, b);
    WordsJoin(a, w);
  }

  lemma {:induction false} IndentWhite(dotcol: nat, goal: nat, t: Terminal)
    requires dotcol <= goal
    ensures AllWhite(Indent(dotcol, goal, t))
    decreases goal - dotcol
  {
    if t.tabstop != 0 && dotcol + TabDist(t.tabstop, dotcol) <= goal { IndentWhite(dotcol + TabDist(t.tabstop, dotcol), goal, t); }
  }

  /** Filling keeps the words, in order. */
  lemma {:induction false} RunWords(line: Text, cur: nat, okay: nat, start: nat, rest: seq<Text>, cfg: Config)
    requires Ready(line, cur, okay, start)
    ensures WordsOf(Run(line, cur, okay, start, rest, cfg)) == Words(line) + WordsOf(rest)
    decreases |rest|, |line| - cur, okay != start
  {
    hide *;
    ReadyIs(line, cur, okay, start);
    DarkWord(line, cur);
    var we := cur + WordEnd(line[cur..]);
    if Breaks(line, cur, okay, start, cfg) {
      RunBreak(line, cur, okay, start, rest, cfg);
      BrokenWords(line, okay, cur, cfg);
      var b := Broken(line, okay, cfg);
      RunWords(b.1, b.2, b.2, b.2, rest, cfg);
      WordsOfOne(b.0);
      WordsOfJoin([b.0], Run(b.1, b.2, b.2, b.2, rest, cfg));
      assert Words(b.0) + (Words(b.1) + WordsOf(rest)) == (Words(b.0) + Words(b.1)) + WordsOf(rest);
    } else if we == |line| && rest == [] {
      RunEnd(line, cur, okay, start, cfg);
      WordsOfOne(line);
      WordsOfNone();
    } else {
      var n := Onward(line, we, rest, cfg.sent2);
      RunOn(line, cur, okay, start, rest, cfg, we, n);
      OnwardWords(line, we, rest, cfg.sent2);
      FewerLines(line, we, rest);
      RunWords(n.0, n.1, we, start, RestAfter(line, we, rest), cfg);
    }
  }

  lemma FewerLines(line: Text, we: nat, rest: seq<Text>)
    requires we == |line| ==> rest != []
    ensures if we == |line| then |RestAfter(line, we, rest)| < |rest| else RestAfter(line, we, rest) == rest
  {}

  lemma WordsOfNone()
    ensures WordsOf([]) == [] && forall w: seq<Text> :: w + [] == w
  {}

  /** No wider than allowed; on the line where filling started, if that was blank, one word too many may follow the word that ends at `start`. */
  ghost predicate Fine(s: Text, start: nat, blank: bool, cfg: Config) {
    Narrow(s, cfg.rmargin, cfg.t) || (blank && OneTooMany(s, start, cfg.rmargin, cfg.t))
  }

  /** Where the loop is, in terms of words: none has been placed on the line yet, or those up to `okay` have. */
  ghost predicate Placed(line: Text, cur: nat, okay: nat, start: nat, blank: bool, cfg: Config) {
    && cur <= |line|
    && if AllWhite(line[..cur]) then
         && (okay == start || okay == cur)
         && (if blank then cur == 0 || cur == start
             else okay == start == cur && (cur == 0 || (cur < |line| && !White(line[cur]))))
       else
         && 0 < okay <= cur && !White(line[okay - 1]) && AllWhite(line[okay..cur]) && (okay < cur || cur == |line|)
         && (if cur == |line| then okay == cur else !White(line[cur]))
         && (!blank ==> start < okay)
         && Fine(line[..okay], start, blank, cfg)
  }

  lemma AddWord(line: Text, okay: nat, ws: nat, we: nat)
    requires okay <= ws < we <= |line| && AllWhite(line[okay..ws]) && (okay == 0 || okay < ws)
    requires forall i :: ws <= i < we ==> !White(line[i])
    ensures |Words(line[..we])| == |Words(line[..okay])| + 1
  {
    var a, w, b := line[..okay], line[okay..ws], line[ws..we];
    hide Words;
    assert line[..we] == a + w + b;
    NoWords([]);
    SeamWords(a, w, b, []);
    assert [] + b == b;
    OneWord(b);
  }

  /** A word that does not stick out, or is taken for the first one. */
  lemma FineWord(line: Text, cur: nat, okay: nat, start: nat, blank: bool, cfg: Config, we: nat)
    requires Placed(line, cur, okay, start, blank, cfg) && we == cur + WordEnd(line[cur..]) && cur < we <= |line|
    requires !Breaks(line, cur, okay, start, cfg)
    ensures Fine(line[..we], start, blank, cfg)
  {
    DarkWord(line, cur);
    if AllWhite(line[..cur]) {
      hide Words;
      assert line[0..cur] == line[..cur];
      AddWord(line, 0, cur, we);
      NoWords(line[..0]);
    } else {
      hide Words, WordEnd;
      AddWord(line, okay, cur, we);
      ColPrefix(line, we, cfg.t);
      hide Col, AllWhite;
      if okay == start {
        assert line[..we][..okay] == line[..okay];
        assert White(line[okay]) by { WhiteAt(line, okay, cur); }
        assert line[..we][okay] == line[okay] && line[..we][okay - 1] == line[okay - 1];
      }
    }
  }

  lemma WhiteAt(line: Text, a: nat, b: nat)
    requires a < b <= |line| && AllWhite(line[a..b])
    ensures White(line[a])
  {
    assert line[a..b][0] == line[a];
  }

  /** Behind the last word that was placed there is a separator, or nothing. */
  lemma PlacedAfter(line: Text, we: nat, e: nat, n: nat, start: nat, blank: bool, cfg: Config)
    requires 0 < we < e <= |line| && !White(line[we - 1]) && (n > 0 <==> e < |line|) && (e < |line| ==> !White(line[e]))
    requires Fine(line[..we], start, blank, cfg) && (!blank ==> start < we)
    ensures Placed(line[..we] + Blanks(n) + line[e..], we + n, we, start, blank, cfg)
  {
    hide Fine;
    var next := line[..we] + Blanks(n) + line[e..];
    assert next[..we] == line[..we] && next[we..we + n] == Blanks(n) && next[we - 1] == line[we - 1];
    assert !AllWhite(next[..we + n]) by { assert next[..we + n][we - 1] == line[we - 1]; }
    if e < |line| { assert next[we + n] == line[e]; }
  }

  lemma WhiteBoth(s: Text, a: nat, e: nat)
    requires a <= e <= |s| && AllWhite(s[..a]) && AllWhite(s[a..e])
    ensures AllWhite(s[..e]) && s[..e][0..] == s[..e]
  {
    forall i | 0 <= i < e ensures White(s[i]) {
      if i < a { assert s[..a][i] == s[i]; } else { assert s[a..e][i - a] == s[i]; }
    }
  }

  /** Where the loop goes on to the next word from. */
  lemma FineSoFar(line: Text, cur: nat, okay: nat, start: nat, blank: bool, cfg: Config, we: nat)
    requires Placed(line, cur, okay, start, blank, cfg) && we == cur + WordEnd(line[cur..]) <= |line|
    requires !Breaks(line, cur, okay, start, cfg) && !(AllWhite(line[..cur]) && we == cur)
    ensures 0 < we && !White(line[we - 1]) && Fine(line[..we], start, blank, cfg) && (!blank ==> start < we)
  {
    DarkWord(line, cur);
    if cur < we { FineWord(line, cur, okay, start, blank, cfg, we); }
    hide Fine, Breaks, WordEnd;
  }

  /** Going on to the next word keeps the shape. */
  lemma PlacedOn(line: Text, cur: nat, okay: nat, start: nat, blank: bool, rest: seq<Text>, cfg: Config, we: nat, n: (Text, nat))
    requires Placed(line, cur, okay, start, blank, cfg) && !Breaks(line, cur, okay, start, cfg)
    requires we == cur + WordEnd(line[cur..]) <= |line| && (we == |line| ==> rest != []) && n == Onward(line, we, rest, cfg.sent2)
    ensures Placed(n.0, n.1, we, start, blank, cfg)
  {
    hide *;
    var joined, p := Joined(line, we, rest), if we == |line| then we + 2 else we;
    JoinedAt(line, we, rest);
    DarkWord(line, cur);
    OnwardIs(line, we, rest, cfg.sent2);
    SpacedIs(joined, p, cfg.sent2);
    HeadFacts(joined, p);
    var e := p + WhiteHead(joined[p..]);
    WhiteOn(joined, we, p, e);
    if AllWhite(line[..cur]) && we == cur {
      WhiteBoth(joined, we, e);
      TailIs(joined[..e], 0);
      PlacedStart(line, cur, okay, start, blank, cfg, n.0);
    } else {
      FineSoFar(line, cur, okay, start, blank, cfg, we);
      assert joined[..we][we - 1] == line[..we][we - 1];
      assert joined[..e][we..] == joined[we..e] && joined[..e][we - 1] == joined[we - 1];
      TailIs(joined[..e], we);
      PlacedAfter(joined, we, e, Separation(joined, we, e, cfg.sent2), start, blank, cfg);
    }
  }

  lemma OnwardIs(line: Text, we: nat, rest: seq<Text>, sent2: bool)
    requires we <= |line| && (we == |line| ==> rest != [])
    ensures var p := if we == |line| then we + 2 else we;
      p <= |Joined(line, we, rest)| && Onward(line, we, rest, sent2) == Spaced(Joined(line, we, rest), p, sent2)
  {}

  lemma PlacedStart(line: Text, cur: nat, okay: nat, start: nat, blank: bool, cfg: Config, next: Text)
    requires Placed(line, cur, okay, start, blank, cfg) && AllWhite(line[..cur]) && (cur == |line| || White(line[cur]))
    ensures Placed(next, 0, cur, start, blank, cfg)
  {
    assert next[..0] == [];
  }

  lemma PlacedBroken(line: Text, cur: nat, okay: nat, start: nat, blank: bool, cfg: Config)
    requires Placed(line, cur, okay, start, blank, cfg) && Ready(line, cur, okay, start) && Breaks(line, cur, okay, start, cfg)
    ensures var b := Broken(line, okay, cfg); Fine(b.0, start, blank, cfg) && Placed(b.1, b.2, b.2, b.2, false, cfg)
  {
    BreakReady(line, cur, okay, start, cfg);
    BrokenIs(line, okay, cur, cfg);
    IndentWhite(0, cfg.indent, cfg.t);
    var b, pad := Broken(line, okay, cfg), Indent(0, cfg.indent, cfg.t);
    hide Broken, Indent, Breaks, WordEnd;
    assert b.1[..|pad|] == pad;
    if AllWhite(line[..cur]) {
      assert okay == 0 && line[..okay] == [];
      NoWords(b.0);
    } else {
      assert line[..okay][okay..] == [] && line[..okay][okay - 1] == line[okay - 1];
      TailIs(line[..okay], okay);
      assert b.0 == line[..okay];
    }
  }

  lemma PlacedEnd(line: Text, cur: nat, okay: nat, start: nat, blank: bool, cfg: Config)
    requires Placed(line, cur, okay, start, blank, cfg) && !Breaks(line, cur, okay, start, cfg) && cur + WordEnd(line[cur..]) == |line|
    ensures Fine(line, start, blank, cfg)
  {
    assert line[..|line|] == line;
    if AllWhite(line[..cur]) && cur == |line| {
      NoWords(line);
    } else {
      FineSoFar(line, cur, okay, start, blank, cfg, |line|);
    }
  }

  /** Every line that filling leaves is fine, the first one perhaps only just. */
  ghost predicate AllFine(lines: seq<Text>, start: nat, blank: bool, cfg: Config) {
    lines != [] && Fine(lines[0], start, blank, cfg) && forall i :: 0 < i < |lines| ==> Narrow(lines[i], cfg.rmargin, cfg.t)
  }

  lemma AllFineCons(first: Text, lines: seq<Text>, start: nat, blank: bool, at: nat, cfg: Config)
    requires Fine(first, start, blank, cfg) && AllFine(lines, at, false, cfg)
    ensures AllFine([first] + lines, start, blank, cfg)
  {
    hide Narrow;
    forall i | 0 < i < |lines| + 1 ensures Narrow(([first] + lines)[i], cfg.rmargin, cfg.t) { assert ([first] + lines)[i] == lines[i - 1]; }
  }

  lemma {:induction false} RunFine(line: Text, cur: nat, okay: nat, start: nat, blank: bool, rest: seq<Text>, cfg: Config)
    requires Ready(line, cur, okay, start) && Placed(line, cur, okay, start, blank, cfg)
    ensures AllFine(Run(line, cur, okay, start, rest, cfg), start, blank, cfg)
    decreases |rest|, |line| - cur, okay != start
  {
    hide *;
    ReadyIs(line, cur, okay, start);
    DarkWord(line, cur);
    var we := cur + WordEnd(line[cur..]);
    if Breaks(line, cur, okay, start, cfg) {
      RunBreak(line, cur, okay, start, rest, cfg);
      PlacedBroken(line, cur, okay, start, blank, cfg);
      var b := Broken(line, okay, cfg);
      RunFine(b.1, b.2, b.2, b.2, false, rest, cfg);
      AllFineCons(b.0, Run(b.1, b.2, b.2, b.2, rest, cfg), start, blank, b.2, cfg);
    } else if we == |line| && rest == [] {
      RunEnd(line, cur, okay, start, cfg);
      PlacedEnd(line, cur, okay, start, blank, cfg);
      AllFineOne(line, start, blank, cfg);
    } else {
      var n := Onward(line, we, rest, cfg.sent2);
      RunOn(line, cur, okay, start, rest, cfg, we, n);
      PlacedOn(line, cur, okay, start, blank, rest, cfg, we, n);
      FewerLines(line, we, rest);
      RunFine(n.0, n.1, we, start, blank, RestAfter(line, we, rest), cfg);
    }
  }

  lemma AllFineOne(line: Text, start: nat, blank: bool, cfg: Config)
    requires Fine(line, start, blank, cfg)
    ensures AllFine([line], start, blank, cfg)
  {}

  /** Does filling start at the end of a line of white space? */
  predicate StartsBlank(line: Text, toIndent: bool) { toIndent && line != [] && AllWhite(line) }

  /**
   * Filling keeps the words, and leaves no line too wide unless it is one word; but if it starts at the end of a line of
   * white space, the first line may have one word too many.
   */
  lemma FilledWell(line: Text, rest: seq<Text>, toIndent: bool, cfg: Config)
    ensures var lines := Filled(line, rest, toIndent, cfg);
      && WordsOf(lines) == Words(line) + WordsOf(rest)
      && AllFine(lines, |line|, StartsBlank(line, toIndent), cfg)
      && (!StartsBlank(line, toIndent) ==> forall i :: 0 <= i < |lines| ==> Narrow(lines[i], cfg.rmargin, cfg.t))
  {
    var cur := if toIndent then WhiteHead(line) else 0;
    FilledIs(line, rest, toIndent, cfg);
    WhiteHeadFacts(line);
    RunWords(line, cur, cur, cur, rest, cfg);
    var blank := StartsBlank(line, toIndent);
    if blank {
      assert line[..|line|] == line;
      HeadIs(line, |line|);
    } else if toIndent && cur == |line| {
      assert line[..cur] == line;
    }
    hide Run, WhiteHead, Fine, Filled, WordsOf, Words;
    RunFine(line, cur, cur, cur, blank, rest, cfg);
    if !blank { AllFineNarrow(Filled(line, rest, toIndent, cfg), cur, cfg); }
  }

  lemma AllFineNarrow(lines: seq<Text>, start: nat, cfg: Config)
    requires AllFine(lines, start, false, cfg)
    ensures forall k :: AllFine(lines, k, false, cfg)
    ensures forall i :: 0 <= i < |lines| ==> Narrow(lines[i], cfg.rmargin, cfg.t)
  {}

  lemma EndIs(line: Text, cur: nat, we: nat)
    requires cur <= we <= |line| && (forall i :: cur <= i < we ==> !White(line[i])) && (we < |line| ==> White(line[we]))
    ensures cur + WordEnd(line[cur..]) == we
  {
    DarkWord(line, cur);
  }

  lemma SpacedAt(line: Text, p: nat, c1: nat, e: nat, sent2: bool)
    requires c1 <= p <= e <= |line| && AllWhite(line[c1..e]) && (e < |line| ==> !White(line[e])) && (c1 > 0 ==> !White(line[c1 - 1]))
    ensures var n := Separation(line, c1, e, sent2); Spaced(line, p, sent2) == (line[..c1] + Blanks(n) + line[e..], c1 + n)
  {
    var gap := line[p..][..e - p];
    forall i | 0 <= i < |gap| ensures White(gap[i]) { assert gap[i] == line[c1..e][p - c1 + i]; }
    HeadIs(line[p..], e - p);
    assert line[..e][c1..] == line[c1..e];
    TailIs(line[..e], c1);
  }

  const PLAIN: Terminal := Terminal(c => c >= BLANK, 8)

  /** It can happen: below a line of three blanks, with a margin of 4, `abc d` stays on a line of 5 columns. */
  lemma BlankStartTooWide()
    ensures var line: Text := [BLANK, BLANK, BLANK]; var next: Text := [97, 98, 99, BLANK, 100];
      Filled(line, [next], true, Config(4, 0, false, PLAIN)) == [next] && !Narrow(next, 4, PLAIN)
  {
    hide *;
    var line: Text := [BLANK, BLANK, BLANK];
    var next: Text := [97, 98, 99, BLANK, 100];
    var cfg := Config(4, 0, false, PLAIN);
    FilledIs(line, [next], true, cfg);
    // the blank line is joined with the next one, and the white space before point goes
    BlankJoined(line, next);
    FirstFits(line, 3, 3, cfg);
    FirstFits(next, 0, 3, cfg);
    FirstFits(next, 4, 3, cfg);
    RunOn(line, 3, 3, 3, [next], cfg, 3, (next, 0));
    // `abc` ends in column 3, which is where filling started
    RestIs(line, next);
    RunOn(next, 0, 3, 3, [], cfg, 3, (next, 4));
    // so `d` is taken for a first word
    RunEnd(next, 4, 3, 3, cfg);
    TooWide(next);
  }

  lemma BlankJoined(line: Text, next: Text)
    requires line == [BLANK, BLANK, BLANK] && next == [97, 98, 99, BLANK, 100]
    ensures Onward(line, 3, [next], false) == (next, 0) && Onward(next, 3, [], false) == (next, 4)
    ensures WhiteHead(line) == 3 && 3 + WordEnd(line[3..]) == 3 && 0 + WordEnd(next[0..]) == 3 && 4 + WordEnd(next[4..]) == 5
  {
    BlankEnds(line, next);
    var joined := line + [BLANK, BLANK] + next;
    FiveBlanks(joined, next);
    OneBlank(next);
    hide WhiteHead, WordEnd, Spaced;
  }

  lemma BlankEnds(line: Text, next: Text)
    requires line == [BLANK, BLANK, BLANK] && next == [97, 98, 99, BLANK, 100]
    ensures WhiteHead(line) == 3 && 3 + WordEnd(line[3..]) == 3 && 0 + WordEnd(next[0..]) == 3 && 4 + WordEnd(next[4..]) == 5
  {
    hide WordEnd, WhiteHead;
    assert line[..3] == line;
    HeadIs(line, 3);
    EndIs(line, 3, 3);
    EndIs(next, 0, 3);
    EndIs(next, 4, 5);
  }

  lemma FiveBlanks(joined: Text, next: Text)
    requires next != [] && !White(next[0]) && joined == [BLANK, BLANK, BLANK] + [BLANK, BLANK] + next
    ensures Spaced(joined, 5, false) == (next, 0)
  {
    hide WhiteHead, WhiteTail, Spaced;
    assert joined[0..5] == [BLANK, BLANK, BLANK, BLANK, BLANK] && joined[5..] == next;
    SpacedAt(joined, 5, 0, 5, false);
    assert joined[..0] + Blanks(0) + joined[5..] == next;
  }

  lemma OneBlank(s: Text)
    requires |s| == 5 && !White(s[2]) && s[3] == BLANK && !White(s[4])
    ensures Spaced(s, 3, false) == (s, 4)
  {
    hide WhiteHead, WhiteTail, Spaced;
    assert s[3..4] == [BLANK];
    SpacedAt(s, 3, 3, 4, false);
    assert s[..3] + Blanks(1) + s[4..] == s;
  }

  lemma RestIs(line: Text, next: Text)
    ensures RestAfter(line, |line|, [next]) == [] && (|next| != 3 ==> RestAfter(next, 3, []) == [])
  {}

  lemma FirstFits(line: Text, cur: nat, start: nat, cfg: Config)
    requires cur <= |line|
    ensures !Breaks(line, cur, start, start, cfg)
  {}

  lemma TooWide(s: Text)
    requires s == [97, 98, 99, BLANK, 100]
    ensures !Narrow(s, 4, PLAIN)
  {
    var t := PLAIN;
    assert Col(s, 1, t) == 1 && Col(s, 2, t) == 2;
    assert Col(s, 3, t) == 3 && Col(s, 4, t) == 4;
    assert Col(s, 5, t) == 5;
    assert s[..3] + [BLANK] + s[4..] == s;
    SeamWords(s[..3], [BLANK], s[4..], []);
    assert [] + s[4..] == s[4..];
    OneWord(s[..3]);
    OneWord(s[4..]);
  }
}
