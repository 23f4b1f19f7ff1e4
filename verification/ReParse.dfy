/** What a pattern string means, read one character at a time. */
module ReParse {
  import opened CString
  import opened Pattern
  import opened ReCode

  const NALTS := 16

  const DOLLAR: Ch := 36
  const LPAREN: Ch := 40
  const RPAREN: Ch := 41
  const ASTERISK: Ch := 42
  const MINUS: Ch := 45
  const DOT: Ch := 46
  const DIGIT0: Ch := 48
  const LESS: Ch := 60
  const GREATER: Ch := 62
  const LBRACKET: Ch := 91
  const BACKSLASH: Ch := 92
  const RBRACKET: Ch := 93
  const CARET: Ch := 94
  const LBRACE: Ch := 123
  const BAR: Ch := 124
  const RBRACE: Ch := 125

  datatype Kind = NORM | OKAY_RE | IN_CB

  datatype Complaint =
    | TooManyOpen | PrematureEnd | UnequalParens | UnexpectedCb | TooManyClose
    | TooManyAlternates | UnmatchedOpen | MissingBracket | MissingCb

  /** Reading a set: what follows its opening bracket, up to and with its closing one. */
  datatype SetRead = SetBad | SetOk(neg: bool, m: set<Ch>, rest: seq<Ch>)

  function Next(s: seq<Ch>): (r: (int, seq<Ch>))
    ensures s == [] ==> r == (-1, [])
    ensures s != [] ==> r == (s[0], s[1..])
  {
    if s == [] then (-1, []) else (s[0], s[1..])
  }

  /** The characters from `lo` up to but not `hi`. */
  function Range(lo: int, hi: int): (r: set<Ch>)
    requires 0 <= lo && hi <= 256
    ensures forall x: Ch :: x in r <==> lo <= x < hi
    decreases hi - lo
  {
    if lo >= hi then {} else {lo as Ch} + Range(lo + 1, hi)
  }

  function ReadSet(s: seq<Ch>): SetRead {
    var (c, s1) := Next(s);
    if c == CARET then
      var (d, s2) := Next(s1);
      SetMembers(true, d, s2, {})
    else SetMembers(false, c, s1, {})
  }

  /** One element of a set, a character or a range: the next character read, what follows it, and
      the members so far. */
  datatype MemberRead = MemberBad | MemberOk(c: int, rest: seq<Ch>, m: set<Ch>)

  /** A backslash stands for the character behind it. */
  function Unescaped(c: Ch, s: seq<Ch>): (r: (int, seq<Ch>))
    ensures -1 <= r.0 < 256 && |r.1| <= |s|
  {
    if c == BACKSLASH then Next(s) else (c, s)
  }

  /** `c` has been read (-1: nothing was left), `s` follows, `m` are the members so far. */
  function OneMember(c: int, s: seq<Ch>, m: set<Ch>): (r: MemberRead)
    requires -1 <= c < 256
    ensures r.MemberOk? ==> -1 <= r.c < 256 && |r.rest| <= |s| && (r.c != -1 ==> |r.rest| < |s|)
  {
    if c == -1 then MemberBad
    else
      var (c1, s1) := Unescaped(c, s);
      if c1 == -1 then MemberBad else MemberFrom(c1, s1, m)
  }

  /** The member `c`, or possibly a range from `c` on. */
  function MemberFrom(c: Ch, s: seq<Ch>, m: set<Ch>): (r: MemberRead)
    ensures r.MemberOk? ==> -1 <= r.c < 256 && |r.rest| <= |s| && (r.c != -1 ==> |r.rest| < |s|)
  {
    if s != [] && s[0] == MINUS then
      var (hi, s2) := Next(s[1..]);
      if hi == -1 then MemberBad
      else if hi == RBRACKET then MemberOk(hi, s2, m + {c} + {MINUS})
      else
        var (hi1, s3) := Unescaped(hi, s2);
        if hi1 == -1 then MemberBad
        else
          var (c2, s4) := Next(s3);
          MemberOk(c2, s4, m + Range(c, hi1) + {hi1 as Ch})
    else
      var (c2, s2) := Next(s);
      MemberOk(c2, s2, m + {c})
  }

  function SetMembers(neg: bool, c: int, s: seq<Ch>, m: set<Ch>): (r: SetRead)
    requires -1 <= c < 256
    ensures r.SetOk? ==> |r.rest| <= |s|
    decreases |s|, if c == -1 then 0 else 1
  {
    match OneMember(c, s, m)
    case MemberBad => SetBad
    case MemberOk(c2, s2, m2) => if c2 == RBRACKET then SetOk(neg, m2, s2) else SetMembers(neg, c2, s2, m2)
  }

  /** The state of reading one level: the alternatives finished, the items of the one being read,
      the groups open in it, the number of the next group, and the number of groups that the first
      alternative had (-1: it is being read). */
  datatype St = St(done: seq<seq<Item>>, items: seq<Item>, open: seq<nat>, nparens: nat, omax: int)

  datatype Outcome = Bad(e: Complaint) | Parsed(alts: seq<seq<Item>>, rest: seq<Ch>, nparens: nat, closed: bool)

  datatype BOutcome = BBad(e: Complaint) | BParsed(all: seq<seq<Item>>, rest: seq<Ch>, nparens: nat)

  function ToBranches(bl: seq<seq<Item>>): Branches {
    if bl == [] then NoMore else Or(bl[0], ToBranches(bl[1..]))
  }

  function AddItem(st: St, it: Item): St {
    st.(items := st.items + [it])
  }

  /** A literal character joins the run before it. */
  function LitItems(items: seq<Item>, c: Ch, folded: bool): seq<Item> {
    var n := |items|;
    if n > 0 && items[n - 1].Str? then items[..n - 1] + [Str(items[n - 1].cs + [c], items[n - 1].folded)]
    else items + [Str([c], folded)]
  }

  /** Only a literal character, `.`, a set or a back-reference can be starred, and only once; the
      star binds to the last character of a run.  (The length of the run is looked up in the code,
      where it is one byte.) */
  function StarItems(items: seq<Item>, folded: bool): seq<Item> {
    var n := |items|;
    if n == 0 then LitItems(items, ASTERISK, folded)
    else
      match items[n - 1]
      case One(a) => items[..n - 1] + [Star(a)]
      case Str(cs, f) =>
        if |cs| == 0 then items
        else if LowByte(|cs|) == 1 then items[..n - 1] + [Star(Lit(cs[|cs| - 1], f))]
        else items[..n - 1] + [Str(cs[..|cs| - 1], f), Star(Lit(cs[|cs| - 1], f))]
      case _ => LitItems(items, ASTERISK, folded)
  }

  function AddLit(st: St, c: Ch, folded: bool): St { st.(items := LitItems(st.items, c, folded)) }

  function AddStar(st: St, folded: bool): St { st.(items := StarItems(st.items, folded)) }

  /** The start of an alternative: at the outer level it has an implied group 0. */
  function Base(kind: Kind): nat { if kind.IN_CB? then 0 else 1 }

  function Start(kind: Kind, nparens: nat): St {
    if kind.IN_CB? then St([], [], [], nparens, -1) else St([], [Open(nparens)], [nparens], nparens + 1, -1)
  }

  /** The end of an alternative of the outer level: the implied group is closed. */
  function CloseImplied(st: St): (r: (bool, St))
    ensures r.0 ==> r.1.open == [] && r.1.nparens == st.nparens
  {
    var n := |st.open|;
    if n != 1 then (false, st) else (true, AddItem(st, Close(st.open[0])).(open := []))
  }

  function EndLevel(st: St, kind: Kind, rest: seq<Ch>, closed: bool, eof: bool): Outcome {
    var (ok, st1) := if kind.IN_CB? then (st.open == [], st) else CloseImplied(st);
    if !ok then Bad(UnmatchedOpen)
    else if kind.IN_CB? && eof then Bad(MissingCb)
    else if st.omax != -1 && st.omax != st.nparens then Bad(UnequalParens)
    else Parsed(st.done + [st1.items], rest, st.nparens, closed)
  }

  /** `\|` at the outer level. */
  function NextAlternative(st: St): (r: (Complaint, bool, St))
  {
    if |st.done| + 1 >= NALTS - 1 then (TooManyAlternates, false, st)
    else
      var (ok, st1) := CloseImplied(st);
      if !ok then (UnmatchedOpen, false, st)
      else if st.omax != -1 && st.omax != st.nparens then (UnequalParens, false, st)
      else (UnmatchedOpen, true, St(st.done + [st1.items], [Open(0)], [0], 1, st.nparens))
  }

  /** What one more element of a pattern does: the level ends, reading goes on behind the element,
      or the branches of an alternation follow. */
  datatype Step = Stop(o: Outcome) | Go(rest: seq<Ch>, st: St) | Curly(rest: seq<Ch>)

  /** A backslash has been read. */
  function EscapeStep(s: seq<Ch>, kind: Kind, folded: bool, st: St): (r: Step)
    ensures r.Stop? && r.o.Parsed? ==> |r.o.rest| < |s| && r.o.nparens == st.nparens
    ensures !r.Stop? ==> |r.rest| < |s|
    ensures r.Go? && kind.IN_CB? ==> r.st.nparens >= st.nparens
  {
    if s == [] then Stop(Bad(PrematureEnd))
    else
      var d, t := s[0], s[1..];
      if d == LBRACE then Curly(t)
      else if d == RBRACE then Stop(if kind.IN_CB? then EndLevel(st, kind, t, true, false) else Bad(UnexpectedCb))
      else if d == LPAREN then
        if st.nparens >= NPAR then Stop(Bad(TooManyOpen))
        else Go(t, AddItem(st, Open(st.nparens)).(open := st.open + [st.nparens], nparens := st.nparens + 1))
      else if d == RPAREN then
        if st.open == [] then Stop(Bad(TooManyClose))
        else Go(t, AddItem(st, Close(st.open[|st.open| - 1])).(open := st.open[..|st.open| - 1]))
      else if d == BAR then
        if kind.IN_CB? then Stop(EndLevel(st, kind, t, false, false))
        else
          var (e, ok, st1) := NextAlternative(st);
          if ok then Go(t, st1) else Stop(Bad(e))
      else if DIGIT0 < d <= DIGIT0 + 9 then Go(t, AddItem(st, One(Back(d - DIGIT0))))
      else if d == LESS then Go(t, AddItem(st, Bow))
      else if d == GREATER then Go(t, AddItem(st, Eow))
      else Go(t, AddLit(st, d, folded))
  }

  function OneStep(s: seq<Ch>, kind: Kind, folded: bool, st: St): (r: Step)
    requires s != []
    ensures r.Stop? && r.o.Parsed? ==> |r.o.rest| < |s| && r.o.nparens == st.nparens
    ensures !r.Stop? ==> |r.rest| < |s|
    ensures r.Go? && kind.IN_CB? ==> r.st.nparens >= st.nparens
  {
    var c, t := s[0], s[1..];
    if c == BACKSLASH then EscapeStep(t, kind, folded, st)
    else if c == CARET then Go(t, if |st.items| == Base(kind) then AddItem(st, Bol) else AddLit(st, c, folded))
    else if c == DOLLAR then Go(t, if t == [] || t[0] == BACKSLASH then AddItem(st, Eol) else AddLit(st, c, folded))
    else if kind.NORM? then Go(t, AddLit(st, c, folded))
    else if c == DOT then Go(t, AddItem(st, One(Any)))
    else if c == LBRACKET then
      var r := ReadSet(t);
      if r.SetBad? then Stop(Bad(MissingBracket)) else Go(r.rest, AddItem(st, One(In(r.m, r.neg))))
    else if c == ASTERISK then Go(t, AddStar(st, folded))
    else Go(t, AddLit(st, c, folded))
  }

  /** The rest of one level. */
  function ParseSeq(s: seq<Ch>, kind: Kind, folded: bool, st: St): (r: Outcome)
    ensures r.Parsed? ==> |r.rest| <= |s| && (kind.IN_CB? ==> |r.rest| < |s| && r.nparens >= st.nparens)
    decreases |s|, 0
  {
    if s == [] then EndLevel(st, kind, [], false, true)
    else
      match OneStep(s, kind, folded, st)
      case Stop(o) => o
      case Go(rest, st1) => ParseSeq(rest, kind, folded, st1)
      case Curly(rest) =>
        var b := ParseBranches(rest, folded, st.nparens, -1, []);
        if b.BBad? then Bad(b.e) else ParseSeq(b.rest, kind, folded, WithAlt(st, b))
  }

  /** An alternation is one more item. */
  function WithAlt(st: St, b: BOutcome): St
    requires b.BParsed?
  {
    AddItem(st, Alt(ToBranches(b.all))).(nparens := b.nparens)
  }

  /** The branches between `\{` and `\}`; `max` is the number of groups after the first (-1: none yet). */
  function ParseBranches(s: seq<Ch>, folded: bool, init: nat, max: int, acc: seq<seq<Item>>): (r: BOutcome)
    ensures r.BParsed? ==> |r.rest| < |s| && r.nparens >= init
    decreases |s|, 1
  {
    var o := ParseSeq(s, IN_CB, folded, Start(IN_CB, init));
    if o.Bad? then BBad(o.e)
    else if max != -1 && max != o.nparens then BBad(UnequalParens)
    else if o.closed then BParsed(acc + o.alts, o.rest, o.nparens)
    else ParseBranches(o.rest, folded, init, o.nparens, acc + o.alts)
  }

  /** A whole pattern: its alternatives, each with group 0 around it. */
  function Parse(s: seq<Ch>, re: bool, folded: bool): Outcome {
    var kind := if re then OKAY_RE else NORM;
    ParseSeq(s, kind, folded, Start(kind, 0))
  }
}
