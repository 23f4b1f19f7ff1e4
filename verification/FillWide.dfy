/** When filling leaves a line that is too wide. */
module FillWide {
  import opened CString
  import opened Columns
  import opened Fill

  /** The words from `line` on, with the separators that filling puts between them, as one line that is never broken. */
  function Flow(line: Text, cur: nat, rest: seq<Text>, sent2: bool): Text
    requires cur <= |line|
    decreases |rest|, |line| - cur
  {
    var we := cur + WordEnd(line[cur..]);
    if we == |line| && rest == [] then line
    else
      var n := Onward(line, we, rest, sent2);
      DarkWord(line, cur);
      OnwardDown(line, we, rest, sent2);
      Flow(n.0, n.1, RestAfter(line, we, rest), sent2)
  }

  lemma OnwardDown(line: Text, we: nat, rest: seq<Text>, sent2: bool)
    requires we <= |line| && (we == |line| ==> rest != []) && (we < |line| ==> White(line[we]))
    ensures var n := Onward(line, we, rest, sent2);
      if we == |line| then |RestAfter(line, we, rest)| < |rest| else RestAfter(line, we, rest) == rest && |n.0| - n.1 < |line| - we
  {
    hide *;
    FewerLines(line, we, rest);
    OnwardIs(line, we, rest, sent2);
    JoinedAt(line, we, rest);
    if we < |line| {
      SpacedIs(line, we, sent2);
      HeadFacts(line, we);
    }
  }

  lemma FlowEnd(line: Text, cur: nat, sent2: bool)
    requires cur <= |line| && cur + WordEnd(line[cur..]) == |line|
    ensures Flow(line, cur, [], sent2) == line
  {}

  lemma FlowOn(line: Text, cur: nat, rest: seq<Text>, sent2: bool, we: nat, n: (Text, nat))
    requires cur <= |line| && we == cur + WordEnd(line[cur..]) <= |line| && (we == |line| ==> rest != []) && n == Onward(line, we, rest, sent2)
    ensures Flow(line, cur, rest, sent2) == Flow(n.0, n.1, RestAfter(line, we, rest), sent2)
    ensures if we == |line| then |RestAfter(line, we, rest)| < |rest| else RestAfter(line, we, rest) == rest && |n.0| - n.1 < |line| - cur
  {
    hide Onward, WordEnd, White, RestAfter;
    DarkWord(line, cur);
    OnwardDown(line, we, rest, sent2);
  }

  /** What is behind the end of a word does not touch it. */
  lemma OnwardKeeps(line: Text, we: nat, rest: seq<Text>, sent2: bool)
    requires 0 < we <= |line| && !White(line[we - 1]) && (we == |line| ==> rest != []) && (we < |line| ==> White(line[we]))
    ensures var n := Onward(line, we, rest, sent2);
      && we <= n.1 && n.0[..we] == line[..we] && n.0[we - 1] == line[we - 1]
      && (if we < n.1 then n.1 < |n.0| && White(n.0[we]) && !White(n.0[n.1]) else n.1 == |n.0| == we)
      && AllWhite(n.0[we..n.1])
  {
    hide *;
    var joined, p := Joined(line, we, rest), if we == |line| then we + 2 else we;
    JoinedAt(line, we, rest);
    OnwardIs(line, we, rest, sent2);
    SpacedIs(joined, p, sent2);
    HeadFacts(joined, p);
    var e := p + WhiteHead(joined[p..]);
    WhiteOn(joined, we, p, e);
    assert joined[..we][we - 1] == line[..we][we - 1];
    assert joined[..e][we..] == joined[we..e] && joined[..e][we - 1] == joined[we - 1];
    TailIs(joined[..e], we);
    var n := Separation(joined, we, e, sent2);
    var next := joined[..we] + Blanks(n) + joined[e..];
    assert next[..we] == joined[..we] && next[we..we + n] == Blanks(n) && next[we - 1] == joined[we - 1];
    BlanksWhite(n);
    if e < |joined| {
      assert next[we + n] == joined[e];
      WhiteAt(next, we, we + n);
    }
  }

  lemma BlanksWhite(n: nat)
    ensures AllWhite(Blanks(n)) && |Blanks(n)| == n
  {}

  /** A word that has been placed is followed by white space, or nothing, in `s`. */
  predicate EndsWord(s: Text, k: nat) {
    0 < k <= |s| && !White(s[k - 1]) && (k < |s| ==> White(s[k]))
  }

  /** A word that has been placed stays as it is, and all before it. */
  lemma {:induction false} FlowKeeps(line: Text, cur: nat, rest: seq<Text>, sent2: bool, we: nat)
    requires cur <= |line| && we == cur + WordEnd(line[cur..]) && EndsWord(line, we)
    ensures var w := Flow(line, cur, rest, sent2); EndsWord(w, we) && w[..we] == line[..we]
    decreases |rest|, |line| - cur
  {
    hide *;
    EndsWordIs(line, we);
    if we == |line| && rest == [] {
      FlowEnd(line, cur, sent2);
    } else {
      var n := Onward(line, we, rest, sent2);
      FlowOn(line, cur, rest, sent2, we, n);
      OnwardKeeps(line, we, rest, sent2);
      DarkWord(n.0, n.1);
      var we' := n.1 + WordEnd(n.0[n.1..]);
      EndsWordIs(n.0, we');
      var rest' := RestAfter(line, we, rest);
      FlowKeeps(n.0, n.1, rest', sent2, we');
      var w := Flow(n.0, n.1, rest', sent2);
      EndsWordIs(w, we');
      EndsWordIs(w, we);
      SamePrefix(w, n.0, we', we);
    }
  }

  lemma EndsWordIs(s: Text, k: nat)
    ensures EndsWord(s, k) <==> 0 < k <= |s| && !White(s[k - 1]) && (k < |s| ==> White(s[k]))
  {}

  lemma SamePrefix(a: Text, b: Text, n: nat, k: nat)
    requires k <= n <= |a| && n <= |b| && a[..n] == b[..n]
    ensures a[..k] == b[..k] && forall i :: 0 <= i < n ==> a[i] == b[i]
  {
    assert a[..k] == a[..n][..k] && b[..k] == b[..n][..k];
    forall i | 0 <= i < n ensures a[i] == b[i] { assert a[..n][i] == b[..n][i]; }
  }

  /** The first line that filling leaves keeps the words that have been placed on it. */
  lemma {:induction false} RunKeeps(line: Text, cur: nat, okay: nat, start: nat, rest: seq<Text>, cfg: Config)
    requires Ready(line, cur, okay, start) && 0 < okay <= cur && !White(line[okay - 1]) && AllWhite(line[okay..cur])
    requires if okay < cur then cur < |line| && White(line[okay]) && !White(line[cur]) else cur == |line|
    ensures var s := Run(line, cur, okay, start, rest, cfg)[0]; EndsWord(s, okay) && s[..okay] == line[..okay]
    decreases |rest|, |line| - cur
  {
    hide *;
    var s := Run(line, cur, okay, start, rest, cfg)[0];
    ReadyIs(line, cur, okay, start);
    DarkWord(line, cur);
    var we := cur + WordEnd(line[cur..]);
    EndsWordIs(s, okay);
    if Breaks(line, cur, okay, start, cfg) {
      RunBreak(line, cur, okay, start, rest, cfg);
      BrokenIs(line, okay, cur, cfg);
      assert line[..okay][okay..] == [] && line[..okay][okay - 1] == line[okay - 1];
      NoneWhite();
      TailIs(line[..okay], okay);
      assert s == line[..okay];
    } else if we == |line| && rest == [] {
      RunEnd(line, cur, okay, start, cfg);
    } else {
      var n := Onward(line, we, rest, cfg.sent2);
      RunOn(line, cur, okay, start, rest, cfg, we, n);
      FewerLines(line, we, rest);
      OnwardKeeps(line, we, rest, cfg.sent2);
      RunKeeps(n.0, n.1, we, start, RestAfter(line, we, rest), cfg);
      EndsWordIs(s, we);
      SamePrefix(s, n.0, we, okay);
      SamePrefix(n.0, line, we, okay);
    }
  }

  /** The text up to `k` is within the margin, or it is a first word that is not asked. */
  ghost predicate FitsAt(s: Text, k: nat, lax: bool, cfg: Config)
    requires k <= |s|
  {
    Col(s, k, cfg.t) <= cfg.rmargin || (lax && |Words(s[..k])| <= 1)
  }

  /** Where the word behind `k` starts. */
  function NextStart(s: Text, k: nat): (r: nat)
    requires k <= |s|
    ensures k <= r <= |s|
  {
    k + WhiteHead(s[k..])
  }

  function NextEnd(s: Text, k: nat): (r: nat)
    requires k <= |s|
    ensures r <= |s|
  {
    NextStart(s, k) + WordEnd(s[NextStart(s, k)..])
  }

  /** A word that fits ends at `start`, and the next one sticks out. */
  ghost predicate Sticks(w: Text, start: nat, lax: bool, cfg: Config) {
    && start < |w| && EndsWord(w, start) && FitsAt(w, start, lax, cfg)
    && NextStart(w, start) < |w| && Col(w, NextEnd(w, start), cfg.t) > cfg.rmargin
  }

  lemma FitsSame(a: Text, b: Text, k: nat, lax: bool, cfg: Config)
    requires k <= |a| && k <= |b| && a[..k] == b[..k]
    ensures FitsAt(a, k, lax, cfg) == FitsAt(b, k, lax, cfg) && Col(a, k, cfg.t) == Col(b, k, cfg.t)
  {
    hide Words, Col;
    ColPrefix(a, k, cfg.t);
    ColPrefix(b, k, cfg.t);
  }

  lemma FitsNarrow(s: Text, k: nat, lax: bool, cfg: Config)
    requires k <= |s| && FitsAt(s, k, lax, cfg)
    ensures Narrow(s[..k], cfg.rmargin, cfg.t)
  {
    hide Words, Col;
    ColPrefix(s, k, cfg.t);
  }

  lemma MoreWords(s: Text, k: nat, m: nat)
    requires EndsWord(s, k) && k <= m <= |s|
    ensures |Words(s[..m])| >= |Words(s[..k])| > 0
    ensures k < m && !White(s[m - 1]) ==> |Words(s[..m])| > |Words(s[..k])|
  {
    hide Words;
    NoWords(s[..k]);
    assert s[..k][k - 1] == s[k - 1];
    if k < m {
      var gap := s[k..m];
      assert s[..m] == s[..k] + gap && gap[0] == s[k] && gap[m - k - 1] == s[m - 1];
      WordsJoin(s[..k], gap);
      NoWords(gap);
    }
  }

  /** Two words, and the second sticks out. */
  lemma NotNarrow(s: Text, k: nat, m: nat, cfg: Config)
    requires EndsWord(s, k) && k < m && EndsWord(s, m) && Col(s, m, cfg.t) > cfg.rmargin
    ensures !Narrow(s, cfg.rmargin, cfg.t)
  {
    hide Words, Col;
    MoreWords(s, k, m);
    MoreWords(s, m, |s|);
    assert s[..|s|] == s;
    if m < |s| { ColGrows(s, m, |s|, cfg.t); }
  }

  /** No word of `w` ends between the end of one word of `line` and that of the next. */
  lemma NotBetween(w: Text, line: Text, okay: nat, cur: nat, we: nat, start: nat)
    requires we <= |w| && we <= |line| && w[..we] == line[..we] && okay < start < we && okay <= cur <= we
    requires AllWhite(line[okay..cur]) && forall i :: cur <= i < we ==> !White(line[i])
    ensures !EndsWord(w, start)
  {
    SamePrefix(w, line, we, we);
    if start <= cur {
      assert line[okay..cur][start - 1 - okay] == line[start - 1];
    }
  }

  /** Where a second word sticks out, no later one fits. */
  lemma TooLate(w: Text, okay: nat, we: nat, start: nat, lax: bool, cfg: Config)
    requires EndsWord(w, we) && we <= start && Col(w, we, cfg.t) > cfg.rmargin
    requires !lax || (okay < we && EndsWord(w, okay))
    ensures !Sticks(w, start, lax, cfg)
  {
    hide Words, Col, WordEnd, WhiteHead;
    if start < |w| {
      if we < start { ColGrows(w, we, start, cfg.t); }
      if lax {
        MoreWords(w, okay, we);
        MoreWords(w, we, start);
      }
    }
  }

  lemma NextWord(w: Text, line: Text, okay: nat, cur: nat, we: nat)
    requires EndsWord(w, we) && we <= |line| && w[..we] == line[..we] && okay <= cur < we && AllWhite(line[okay..cur])
    requires forall i :: cur <= i < we ==> !White(line[i])
    ensures NextStart(w, okay) == cur && NextEnd(w, okay) == we
  {
    hide WordEnd, WhiteHead;
    SamePrefix(w, line, we, we);
    assert w[okay..][..cur - okay] == line[okay..cur];
    HeadIs(w[okay..], cur - okay);
    EndIs(w, cur, we);
  }

  lemma PlacedIs(line: Text, cur: nat, okay: nat, start: nat, cfg: Config)
    requires Placed(line, cur, okay, start, true, cfg) && !AllWhite(line[..cur])
    ensures 0 < okay <= cur <= |line| && !White(line[okay - 1]) && AllWhite(line[okay..cur]) && Fine(line[..okay], start, true, cfg)
    ensures if cur == |line| then okay == cur else okay < cur && White(line[okay]) && !White(line[cur])
  {
    if okay < cur { WhiteAt(line, okay, cur); }
  }

  /** Behind `start` filling goes on as it does elsewhere. */
  lemma Behind(line: Text, cur: nat, okay: nat, start: nat, rest: seq<Text>, cfg: Config)
    requires Ready(line, cur, okay, start) && Placed(line, cur, okay, start, true, cfg) && !AllWhite(line[..cur])
    requires start < okay && okay <= |line| && Narrow(line[..okay], cfg.rmargin, cfg.t)
    ensures Narrow(Run(line, cur, okay, start, rest, cfg)[0], cfg.rmargin, cfg.t)
  {
    hide Run, Narrow;
    assert Placed(line, cur, okay, start, false, cfg);
    RunFine(line, cur, okay, start, false, rest, cfg);
  }

  /** The word at point has been placed: what is known of the place to go on from. */
  lemma PlacedNext(line: Text, cur: nat, okay: nat, start: nat, rest: seq<Text>, cfg: Config, we: nat, n: (Text, nat))
    requires Ready(line, cur, okay, start) && Placed(line, cur, okay, start, true, cfg) && !Breaks(line, cur, okay, start, cfg)
    requires we == cur + WordEnd(line[cur..]) <= |line| && EndsWord(line, we) && (we == |line| ==> rest != []) && n == Onward(line, we, rest, cfg.sent2)
    ensures Ready(n.0, n.1, we, start) && Placed(n.0, n.1, we, start, true, cfg) && n.1 <= |n.0| && !AllWhite(n.0[..n.1])
    ensures we <= n.1 && n.0[..we] == line[..we]
    ensures Run(line, cur, okay, start, rest, cfg) == Run(n.0, n.1, we, start, RestAfter(line, we, rest), cfg)
    ensures Flow(line, cur, rest, cfg.sent2) == Flow(n.0, n.1, RestAfter(line, we, rest), cfg.sent2)
    ensures if we == |line| then |RestAfter(line, we, rest)| < |rest| else RestAfter(line, we, rest) == rest && |n.0| - n.1 < |line| - cur
  {
    hide *;
    EndsWordIs(line, we);
    RunOn(line, cur, okay, start, rest, cfg, we, n);
    FlowOn(line, cur, rest, cfg.sent2, we, n);
    PlacedOn(line, cur, okay, start, true, rest, cfg, we, n);
    OnwardKeeps(line, we, rest, cfg.sent2);
    NotAllWhite(n.0[..n.1], we - 1);
  }

  lemma NotAllWhite(s: Text, i: nat)
    requires i < |s| && !White(s[i])
    ensures !AllWhite(s)
  {}

  /** The first line is narrow unless a second word was not asked whether it fits. */
  ghost predicate Exactly(line: Text, cur: nat, okay: nat, start: nat, lax: bool, rest: seq<Text>, cfg: Config)
    requires Ready(line, cur, okay, start) && cur <= |line|
  {
    Narrow(Run(line, cur, okay, start, rest, cfg)[0], cfg.rmargin, cfg.t) <==> !Sticks(Flow(line, cur, rest, cfg.sent2), start, lax, cfg)
  }

  lemma ExactlyIs(line: Text, cur: nat, okay: nat, start: nat, lax: bool, rest: seq<Text>, cfg: Config, first: Text, w: Text)
    requires Ready(line, cur, okay, start) && cur <= |line|
    requires first == Run(line, cur, okay, start, rest, cfg)[0] && w == Flow(line, cur, rest, cfg.sent2)
    requires Narrow(first, cfg.rmargin, cfg.t) <==> !Sticks(w, start, lax, cfg)
    ensures Exactly(line, cur, okay, start, lax, rest, cfg)
  {}

  /** A later word sticks out before `start`: the line is broken. */
  lemma BrokenFirst(line: Text, cur: nat, okay: nat, start: nat, lax: bool, rest: seq<Text>, cfg: Config)
    requires Ready(line, cur, okay, start) && Placed(line, cur, okay, start, true, cfg) && !AllWhite(line[..cur])
    requires okay < start && FitsAt(line, okay, lax, cfg) && Breaks(line, cur, okay, start, cfg)
    ensures Exactly(line, cur, okay, start, lax, rest, cfg)
  {
    hide Ready, Placed, Run, Flow, Exactly, Narrow, Sticks, FitsAt, Words, Col, WordEnd, AllWhite, Broken, Fine;
    PlacedIs(line, cur, okay, start, cfg);
    DarkWord(line, cur);
    var we := cur + WordEnd(line[cur..]);
    RunBreak(line, cur, okay, start, rest, cfg);
    BrokenIs(line, okay, cur, cfg);
    assert line[..okay][okay..] == [] && line[..okay][okay - 1] == line[okay - 1];
    NoneWhite();
    TailIs(line[..okay], okay);
    FitsNarrow(line, okay, lax, cfg);
    var first := Run(line, cur, okay, start, rest, cfg)[0];
    assert first == line[..okay];
    var w := Flow(line, cur, rest, cfg.sent2);
    FlowKeeps(line, cur, rest, cfg.sent2, we);
    FitsSame(w, line, we, lax, cfg);
    SamePrefix(w, line, we, okay);
    if start < we {
      NotBetween(w, line, okay, cur, we, start);
      NotSticks(w, start, lax, cfg);
    } else {
      TooLate(w, okay, we, start, lax, cfg);
    }
    ExactlyIs(line, cur, okay, start, lax, rest, cfg, first, w);
  }

  lemma NotSticks(w: Text, start: nat, lax: bool, cfg: Config)
    ensures start >= |w| || !EndsWord(w, start) ==> !Sticks(w, start, lax, cfg)
    ensures start < |w| && NextStart(w, start) < |w| && Col(w, NextEnd(w, start), cfg.t) <= cfg.rmargin ==> !Sticks(w, start, lax, cfg)
  {}

  /** The word behind `start` is not asked whether it fits. */
  lemma Unasked(line: Text, cur: nat, start: nat, lax: bool, rest: seq<Text>, cfg: Config, we: nat)
    requires Ready(line, cur, start, start) && Placed(line, cur, start, start, true, cfg) && !AllWhite(line[..cur])
    requires FitsAt(line, start, lax, cfg) && we == cur + WordEnd(line[cur..]) && cur < we
    ensures Exactly(line, cur, start, start, lax, rest, cfg)
  {
    hide Ready, Placed, Run, Flow, Exactly, Sticks, FitsAt, Words, Col, WordEnd, WhiteHead, AllWhite, Fine, Narrow, NextStart, NextEnd, Onward, RestAfter;
    PlacedIs(line, cur, start, start, cfg);
    DarkWord(line, cur);
    var w := Flow(line, cur, rest, cfg.sent2);
    var first := Run(line, cur, start, start, rest, cfg)[0];
    FlowKeeps(line, cur, rest, cfg.sent2, we);
    NextWord(w, line, start, cur, we);
    FitsSame(w, line, we, lax, cfg);
    SamePrefix(w, line, we, start);
    FitsSame(w, line, start, lax, cfg);
    SticksIs(w, start, lax, cfg, cur, we);
    if Col(line, we, cfg.t) > cfg.rmargin {
      RunKeeps(line, cur, start, start, rest, cfg);
      KeepsNext(line, cur, start, rest, cfg, we);
      SamePrefix(first, line, we, start);
      FitsSame(first, line, we, lax, cfg);
      NotNarrow(first, start, we, cfg);
    } else {
      FitsByCol(line, we, lax, cfg);
      FitsNarrow(line, we, lax, cfg);
      if we == |line| && rest == [] {
        RunEnd(line, cur, start, start, cfg);
        assert line[..we] == line;
      } else {
        var n := Onward(line, we, rest, cfg.sent2);
        PlacedNext(line, cur, start, start, rest, cfg, we, n);
        Behind(n.0, n.1, we, start, RestAfter(line, we, rest), cfg);
      }
    }
    ExactlyIs(line, cur, start, start, lax, rest, cfg, first, w);
  }

  lemma FitsByCol(s: Text, k: nat, lax: bool, cfg: Config)
    requires k <= |s| && Col(s, k, cfg.t) <= cfg.rmargin
    ensures FitsAt(s, k, lax, cfg)
  {}

  lemma SticksIs(w: Text, start: nat, lax: bool, cfg: Config, cur: nat, we: nat)
    requires start < |w| && EndsWord(w, start) && FitsAt(w, start, lax, cfg) && cur == NextStart(w, start) < |w| && we == NextEnd(w, start)
    ensures Sticks(w, start, lax, cfg) <==> Col(w, we, cfg.t) > cfg.rmargin
  {}

  /** The word that is not asked stays on the first line. */
  lemma KeepsNext(line: Text, cur: nat, start: nat, rest: seq<Text>, cfg: Config, we: nat)
    requires Ready(line, cur, start, start) && Placed(line, cur, start, start, true, cfg) && !AllWhite(line[..cur])
    requires we == cur + WordEnd(line[cur..]) && cur < we
    ensures var s := Run(line, cur, start, start, rest, cfg)[0]; EndsWord(s, we) && s[..we] == line[..we]
  {
    hide Ready, Placed, Run, Flow, WordEnd, WhiteHead, AllWhite, Fine, Narrow, Onward, RestAfter, Words, Col;
    PlacedIs(line, cur, start, start, cfg);
    DarkWord(line, cur);
    FirstFits(line, cur, start, cfg);
    if we == |line| && rest == [] {
      RunEnd(line, cur, start, start, cfg);
    } else {
      var n := Onward(line, we, rest, cfg.sent2);
      PlacedNext(line, cur, start, start, rest, cfg, we, n);
      PlacedIs(n.0, n.1, we, start, cfg);
      RunKeeps(n.0, n.1, we, start, RestAfter(line, we, rest), cfg);
    }
  }

  lemma {:induction false} FirstLine(line: Text, cur: nat, okay: nat, start: nat, lax: bool, rest: seq<Text>, cfg: Config)
    requires Ready(line, cur, okay, start) && Placed(line, cur, okay, start, true, cfg) && !AllWhite(line[..cur])
    requires okay <= start && FitsAt(line, okay, lax, cfg)
    ensures Exactly(line, cur, okay, start, lax, rest, cfg)
    decreases |rest|, |line| - cur
  {
    hide *;
    PlacedIs(line, cur, okay, start, cfg);
    DarkWord(line, cur);
    var we := cur + WordEnd(line[cur..]);
    EndsWordIs(line, we);
    if Breaks(line, cur, okay, start, cfg) {
      RunBreak(line, cur, okay, start, rest, cfg);
      BrokenFirst(line, cur, okay, start, lax, rest, cfg);
    } else if okay == start && cur < we {
      Unasked(line, cur, start, lax, rest, cfg, we);
    } else {
      Asked(line, cur, okay, start, lax, rest, cfg, we);
      if (we < |line| || rest != []) && we <= start {
        var n := Onward(line, we, rest, cfg.sent2);
        PlacedNext(line, cur, okay, start, rest, cfg, we, n);
        FitsSame(n.0, line, we, lax, cfg);
        FirstLine(n.0, n.1, we, start, lax, RestAfter(line, we, rest), cfg);
        ExactlyNext(line, cur, okay, start, lax, rest, cfg, n.0, n.1, we, RestAfter(line, we, rest));
      }
    }
  }

  lemma ExactlyNext(line: Text, cur: nat, okay: nat, start: nat, lax: bool, rest: seq<Text>, cfg: Config, line': Text, cur': nat, okay': nat, rest': seq<Text>)
    requires Ready(line, cur, okay, start) && Ready(line', cur', okay', start) && cur <= |line| && cur' <= |line'|
    requires Run(line, cur, okay, start, rest, cfg) == Run(line', cur', okay', start, rest', cfg)
    requires Flow(line, cur, rest, cfg.sent2) == Flow(line', cur', rest', cfg.sent2)
    requires Exactly(line', cur', okay', start, lax, rest', cfg)
    ensures Exactly(line, cur, okay, start, lax, rest, cfg)
  {
    hide Run, Flow, Ready, Narrow, Sticks;
  }

  /** A word that fits: if it is the last, or `start` is within it, all is well. */
  lemma Asked(line: Text, cur: nat, okay: nat, start: nat, lax: bool, rest: seq<Text>, cfg: Config, we: nat)
    requires Ready(line, cur, okay, start) && Placed(line, cur, okay, start, true, cfg) && !AllWhite(line[..cur])
    requires okay <= start && FitsAt(line, okay, lax, cfg) && !Breaks(line, cur, okay, start, cfg)
    requires we == cur + WordEnd(line[cur..]) <= |line| && EndsWord(line, we) && !(okay == start && cur < we)
    ensures FitsAt(line, we, lax, cfg)
    ensures (we == |line| && rest == []) || we > start ==> Exactly(line, cur, okay, start, lax, rest, cfg)
  {
    hide Ready, Placed, Run, Flow, Exactly, Sticks, FitsAt, Words, Col, WordEnd, WhiteHead, AllWhite, Fine, Narrow, NextStart, NextEnd, Onward, RestAfter;
    PlacedIs(line, cur, okay, start, cfg);
    DarkWord(line, cur);
    if cur < we { FitsByCol(line, we, lax, cfg); }
    FitsNarrow(line, we, lax, cfg);
    var w := Flow(line, cur, rest, cfg.sent2);
    var first := Run(line, cur, okay, start, rest, cfg)[0];
    FlowKeeps(line, cur, rest, cfg.sent2, we);
    NotSticks(w, start, lax, cfg);
    if we > start {
      NotBetween(w, line, okay, cur, we, start);
    }
    if we == |line| && rest == [] {
      RunEnd(line, cur, okay, start, cfg);
      FlowEnd(line, cur, cfg.sent2);
      assert line[..we] == line;
      ExactlyIs(line, cur, okay, start, lax, rest, cfg, first, w);
    } else if we > start {
      var n := Onward(line, we, rest, cfg.sent2);
      PlacedNext(line, cur, okay, start, rest, cfg, we, n);
      Behind(n.0, n.1, we, start, RestAfter(line, we, rest), cfg);
      ExactlyIs(line, cur, okay, start, lax, rest, cfg, first, w);
    }
  }

  /** No word has been placed yet on the line where filling started. */
  ghost predicate Before(line: Text, okay: nat, start: nat, lax: bool) {
    && 0 < start && (okay == 0 || okay == start)
    && if line != [] && !White(line[0]) then lax <==> okay == start else !lax
  }

  lemma {:induction false} FirstWord(line: Text, okay: nat, start: nat, lax: bool, rest: seq<Text>, cfg: Config)
    requires Ready(line, 0, okay, start) && Placed(line, 0, okay, start, true, cfg) && Before(line, okay, start, lax)
    ensures Exactly(line, 0, okay, start, lax, rest, cfg)
    decreases |rest|, |line|
  {
    hide Ready, Placed, Run, Flow, Exactly, Sticks, FitsAt, Words, Col, WordEnd, WhiteHead, AllWhite, Fine, Narrow, NextStart, NextEnd, Onward, RestAfter;
    DarkWord(line, 0);
    var we := 0 + WordEnd(line[0..]);
    var w := Flow(line, 0, rest, cfg.sent2);
    var first := Run(line, 0, okay, start, rest, cfg)[0];
    if we > 0 {
      PlaceFirst(line, okay, start, lax, rest, cfg, we);
    } else if line == [] && rest == [] {
      RunEnd(line, 0, okay, start, cfg);
      FlowEnd(line, 0, cfg.sent2);
      NotSticks(w, start, lax, cfg);
      NarrowNone(cfg);
      ExactlyIs(line, 0, okay, start, lax, rest, cfg, first, w);
    } else {
      var n := Onward(line, 0, rest, cfg.sent2);
      RunOn(line, 0, okay, start, rest, cfg, 0, n);
      FlowOn(line, 0, rest, cfg.sent2, 0, n);
      PlacedOn(line, 0, okay, start, true, rest, cfg, 0, n);
      NoneYet(n.0, n.1, start, cfg);
      FirstWord(n.0, 0, start, false, RestAfter(line, 0, rest), cfg);
      ExactlyNext(line, 0, okay, start, lax, rest, cfg, n.0, n.1, 0, RestAfter(line, 0, rest));
    }
  }

  lemma NoneYet(line: Text, cur: nat, start: nat, cfg: Config)
    requires Placed(line, cur, 0, start, true, cfg) && start > 0
    ensures cur == 0 && (line != [] && !White(line[0]) ==> Before(line, 0, start, false)) && Before(line, 0, start, false)
  {}

  lemma NarrowNone(cfg: Config)
    ensures Narrow([], cfg.rmargin, cfg.t)
  {
    NoWords([]);
  }

  /** The first word, which starts the line. */
  lemma PlaceFirst(line: Text, okay: nat, start: nat, lax: bool, rest: seq<Text>, cfg: Config, we: nat)
    requires Ready(line, 0, okay, start) && Placed(line, 0, okay, start, true, cfg) && Before(line, okay, start, lax)
    requires we == 0 + WordEnd(line[0..]) && we > 0
    ensures Exactly(line, 0, okay, start, lax, rest, cfg)
  {
    hide Ready, Placed, Run, Flow, Exactly, Sticks, FitsAt, Words, Col, WordEnd, WhiteHead, AllWhite, Fine, Narrow, NextStart, NextEnd, Onward, RestAfter, Broken;
    DarkWord(line, 0);
    var w := Flow(line, 0, rest, cfg.sent2);
    var first := Run(line, 0, okay, start, rest, cfg)[0];
    FlowKeeps(line, 0, rest, cfg.sent2, we);
    FitsSame(w, line, we, lax, cfg);
    NotSticks(w, start, lax, cfg);
    NoneWhite();
    assert line[0..0] == [];
    if start < we { NotBetween(w, line, 0, 0, we, start); }
    if Breaks(line, 0, okay, start, cfg) {
      RunBreak(line, 0, okay, start, rest, cfg);
      BrokenIs(line, 0, 0, cfg);
      NarrowNone(cfg);
      assert first == [];
      if we <= start { TooLate(w, 0, we, start, lax, cfg); }
      ExactlyIs(line, 0, okay, start, lax, rest, cfg, first, w);
    } else {
      FirstFitsAt(line, okay, start, lax, cfg, we);
      if we == |line| && rest == [] {
        RunEnd(line, 0, okay, start, cfg);
        FlowEnd(line, 0, cfg.sent2);
        assert line[..we] == line;
        ExactlyIs(line, 0, okay, start, lax, rest, cfg, first, w);
      } else {
        var n := Onward(line, we, rest, cfg.sent2);
        var rest' := RestAfter(line, we, rest);
        PlacedNext(line, 0, okay, start, rest, cfg, we, n);
        FitsSame(n.0, line, we, lax, cfg);
        if we <= start {
          FirstLine(n.0, n.1, we, start, lax, rest', cfg);
          ExactlyNext(line, 0, okay, start, lax, rest, cfg, n.0, n.1, we, rest');
        } else {
          Behind(n.0, n.1, we, start, rest', cfg);
          ExactlyIs(line, 0, okay, start, lax, rest, cfg, first, w);
        }
      }
    }
  }

  lemma FirstFitsAt(line: Text, okay: nat, start: nat, lax: bool, cfg: Config, we: nat)
    requires 0 < we <= |line| && we == 0 + WordEnd(line[0..]) && (okay != start ==> !lax) && (okay == start ==> lax)
    requires !Breaks(line, 0, okay, start, cfg)
    ensures FitsAt(line, we, lax, cfg) && Narrow(line[..we], cfg.rmargin, cfg.t)
  {
    hide Words, Col;
    DarkWord(line, 0);
    assert line[0..0] == [] && line[..0] == [];
    NoneWhite();
    NoWords([]);
    AddWord(line, 0, 0, we);
  }

  /** The first word of a line that follows one of white space is not asked whether it fits. */
  predicate Lax(rest: seq<Text>) {
    rest != [] && !AllWhite(rest[0])
  }

  /** Filling starts on a line of white space; of the words to come one ends just where that line did, and the next sticks out. */
  ghost predicate SticksOut(line: Text, rest: seq<Text>, toIndent: bool, cfg: Config) {
    StartsBlank(line, toIndent) && Sticks(Flow(line, |line|, rest, cfg.sent2), |line|, Lax(rest), cfg)
  }

  /** Filling leaves no line too wide, unless it is one word, exactly when no word sticks out behind one that ends
      where the line of white space ended that filling started on. */
  lemma NarrowIff(line: Text, rest: seq<Text>, toIndent: bool, cfg: Config)
    ensures (forall i :: 0 <= i < |Filled(line, rest, toIndent, cfg)| ==> Narrow(Filled(line, rest, toIndent, cfg)[i], cfg.rmargin, cfg.t)) <==>
      !SticksOut(line, rest, toIndent, cfg)
  {
    hide Filled, Narrow, Sticks, Flow, WordsOf, Words, AllWhite;
    FilledWell(line, rest, toIndent, cfg);
    if StartsBlank(line, toIndent) { BlankStart(line, rest, cfg); }
  }

  lemma BlankStart(line: Text, rest: seq<Text>, cfg: Config)
    requires StartsBlank(line, true)
    ensures Narrow(Filled(line, rest, true, cfg)[0], cfg.rmargin, cfg.t) <==> !Sticks(Flow(line, |line|, rest, cfg.sent2), |line|, Lax(rest), cfg)
    ensures Filled(line, rest, true, cfg) != []
  {
    hide Ready, Placed, Run, Flow, Exactly, Sticks, FitsAt, Words, Col, WordEnd, WhiteHead, AllWhite, Fine, Narrow, NextStart, NextEnd, Onward, RestAfter, Filled;
    var start := |line|;
    FilledIs(line, rest, true, cfg);
    HeadOfBlank(line);
    EndIsHere(line);
    FirstFits(line, start, start, cfg);
    PlacedBlank(line, cfg);
    var w := Flow(line, start, rest, cfg.sent2);
    if rest == [] {
      RunEnd(line, start, start, start, cfg);
      FlowEnd(line, start, cfg.sent2);
      NotSticks(w, start, false, cfg);
      NarrowBlank(line, cfg);
    } else {
      var n := Onward(line, start, rest, cfg.sent2);
      RunOn(line, start, start, start, rest, cfg, start, n);
      FlowOn(line, start, rest, cfg.sent2, start, n);
      PlacedOn(line, start, start, start, true, rest, cfg, start, n);
      AfterBlank(line, rest, cfg.sent2, n);
      FirstWord(n.0, start, start, Lax(rest), RestAfter(line, start, rest), cfg);
      ExactlyMeans(n.0, 0, start, start, Lax(rest), RestAfter(line, start, rest), cfg);
    }
  }

  lemma ExactlyMeans(line: Text, cur: nat, okay: nat, start: nat, lax: bool, rest: seq<Text>, cfg: Config)
    requires Ready(line, cur, okay, start) && cur <= |line| && Exactly(line, cur, okay, start, lax, rest, cfg)
    ensures Narrow(Run(line, cur, okay, start, rest, cfg)[0], cfg.rmargin, cfg.t) <==> !Sticks(Flow(line, cur, rest, cfg.sent2), start, lax, cfg)
  {}

  lemma HeadOfBlank(line: Text)
    requires AllWhite(line)
    ensures WhiteHead(line) == |line|
  {
    assert line[..|line|] == line;
    HeadIs(line, |line|);
  }

  lemma EndIsHere(line: Text)
    ensures |line| + WordEnd(line[|line|..]) == |line|
  {}

  lemma PlacedBlank(line: Text, cfg: Config)
    requires AllWhite(line)
    ensures Placed(line, |line|, |line|, |line|, true, cfg)
  {
    assert line[..|line|] == line;
  }

  lemma NarrowBlank(line: Text, cfg: Config)
    requires AllWhite(line)
    ensures Narrow(line, cfg.rmargin, cfg.t)
  {
    NoWords(line);
  }

  /** The line of white space goes, and so does the white space that starts the next one. */
  lemma AfterBlank(line: Text, rest: seq<Text>, sent2: bool, n: (Text, nat))
    requires line != [] && AllWhite(line) && rest != [] && n == Onward(line, |line|, rest, sent2)
    ensures n.1 == 0 && Before(n.0, |line|, |line|, Lax(rest))
  {
    hide WhiteHead, WhiteTail, Spaced;
    var next := rest[0];
    var joined, p := Joined(line, |line|, rest), |line| + 2;
    assert joined[p..] == next;
    SpacedIs(joined, p, sent2);
    WhiteHeadFacts(next);
    var h := WhiteHead(next);
    var e := p + h;
    forall i | 0 <= i < e ensures White(joined[i]) {
      if i >= p { assert joined[i] == next[..h][i - p]; }
    }
    assert joined[..e][0..] == joined[..e];
    TailIs(joined[..e], 0);
    assert joined[..0] + Blanks(0) + joined[e..] == next[h..];
    if h == |next| { assert next[..h] == next; } else { assert next[h..][0] == next[h]; }
  }
}
