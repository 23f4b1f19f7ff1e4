/** The kill ring, and kills that are appended to one another. */
module KillRing {
  import opened CString
  import opened FlatText
  import opened EditBuffer
  import opened RowText

  const NUMKILLS: nat := 16

  /** A killed text: its lines, which are linked forward only, and their texts. */
  datatype Kill = Kill(lines: seq<Line>, texts: seq<Row>)

  ghost predicate Apart(a: seq<Line>, b: seq<Line>) {
    forall i :: 0 <= i < |a| ==> a[i] !in b
  }

  ghost predicate KillOk(k: Kill, size: nat)
    reads k.lines`l_next, k.lines`l_dline
  {
    Chain(k.lines, k.texts) && Clean(k.texts, size)
  }

  /** The line behind `k` of the list gets a successor. */
  method listput(after: Line, ghost kl: seq<Line>, ghost texts: seq<Row>, ghost r: nat) returns (newline: Line, ghost kl': seq<Line>)
    requires Chain(kl, texts) && r < |kl| && after == kl[r]
    modifies kl`l_next, kl`l_prev
    ensures fresh(newline) && kl' == Insert(kl, r + 1, newline) && Chain(kl', Insert(texts, r + 1, []))
  {
    hide Distinct, Insert;
    var texts' := Insert(texts, r + 1, []);
    newline := new Line();
    kl' := Insert(kl, r + 1, newline);
    DistinctInsert(kl, r + 1, newline);
    assert ChainAt(kl, texts, r);
    newline.l_prev := after;
    newline.l_next := after.l_next;
    after.l_next := newline;
    if newline.l_next != null {
      newline.l_next.l_prev := newline;
    }
    InsertAt(texts, r + 1, [], 0);
    InsertAt(kl, r + 1, newline, 0);
    forall j: nat | j < |kl'| ensures ChainAt(kl', texts', j) {
      InsertAt(kl, r + 1, newline, j);
      InsertAt(texts, r + 1, [], j);
      if j < |kl| { InsertAt(kl, r + 1, newline, j + 1); }
      ghost var i := if j <= r then j else j - 1;
      if j != r + 1 {
        assert old(ChainAt(kl, texts, i));
        if i != r { Different(kl, i, r); }
      }
    }
  }

  /** A line of the list is stored anew. */
  method Put(line: Line, s: Row, ghost kl: seq<Line>, ghost texts: seq<Row>, ghost r: nat)
    requires Chain(kl, texts) && r < |kl| && line == kl[r]
    modifies line`l_dline
    ensures Chain(kl, texts[r := s])
  {
    hide Distinct;
    line.l_dline := s;
    ghost var texts' := texts[r := s];
    forall j: nat | j < |kl| ensures ChainAt(kl, texts', j) {
      assert old(ChainAt(kl, texts, j));
      if j != r { Different(kl, j, r); }
    }
  }

  lemma ChainSome(kl: seq<Line>, texts: seq<Row>)
    requires Chain(kl, texts)
    ensures |texts| == |kl| > 0
  {}

  lemma ChainLine(kl: seq<Line>, texts: seq<Row>, r: nat)
    requires Chain(kl, texts) && r < |kl|
    ensures |texts| == |kl| && kl[r].l_dline == texts[r] && kl[r].l_next == Next(kl, r)
  {
    assert ChainAt(kl, texts, r);
  }

  method lastline(lp0: Line, ghost kl: seq<Line>, ghost texts: seq<Row>) returns (lp: Line)
    requires Chain(kl, texts) && lp0 == kl[0]
    ensures lp == kl[|kl| - 1] && lp.l_dline == texts[|kl| - 1]
  {
    hide Chain;
    ChainSome(kl, texts);
    ChainLine(kl, texts, 0);
    lp := lp0;
    ghost var k := 0;
    while lp.l_next != null
      invariant 0 <= k < |kl| == |texts| && lp == kl[k]
      decreases |kl| - k
    {
      ChainLine(kl, texts, k);
      lp := lp.l_next;
      k := k + 1;
    }
    ChainLine(kl, texts, k);
  }

  /** DoYank into a list that is no buffer: all of `sl` comes in at (`atline0`, `atchar0`). */
  method DoYank(fline: Line, tchar: nat, atline0: Line, atchar0: nat, size: nat, ghost sl: seq<Line>, ghost st: seq<Row>,
                ghost kl: seq<Line>, ghost kt: seq<Row>, ghost r: nat)
    returns (ok: bool, ghost kl': seq<Line>, ghost kt': seq<Row>)
    requires Chain(sl, st) && Clean(st, size) && fline == sl[0] && Chain(kl, kt) && Clean(kt, size) && Apart(sl, kl)
    requires tchar == |st[|st| - 1]| && r < |kl| && atline0 == kl[r] && atchar0 <= |kt[r]|
    modifies kl
    ensures ok ==> Chain(kl', kt') && Clean(kt', size) && kl'[0] == kl[0] && (forall i :: 0 <= i < |kl'| ==> kl'[i] in kl || fresh(kl'[i]))
    ensures ok ==> Replaced(kt, kt', Pos(r, atchar0), Pos(r, atchar0), st, [], [], EndOf(Pos(r, atchar0), st))
    ensures ok == (atchar0 + |st[0]| < size && EndOf(Pos(r, atchar0), st).col + |kt[r]| - atchar0 < size)
  {
    hide Chain, Clean, Replaced, EndOf, CutLast;
    ChainLine(kl, kt, r);
    ChainSome(sl, st);
    ChainLine(sl, st, 0);
    ghost var n := |st| - 1;
    CutNothing(st);
    YankFirst(Pos(r, atchar0), st);
    RowClean(st, size, 0);
    RowClean(st, size, n);
    RowClean(kt, size, r);
    FitsParts(kt[r], atchar0, st[0], 0, size);
    ok, kl', kt' := false, kl, kt;
    var save := atline0.l_dline[atchar0..];
    var buf := fline.l_dline;
    if atchar0 + |buf| >= size { return; }
    ghost var D := kt[r := kt[r][..atchar0] + st[0]];
    FitsJoin(kt[r], atchar0, st[0], size);
    Put(atline0, atline0.l_dline[..atchar0] + buf, kl, kt, r);
    CleanUpdate(kt, size, r, kt[r][..atchar0] + st[0]);
    var atline;
    atline, kl', kt' := YankLines(fline, atline0, size, sl, st, kl, D, r);
    var atchar := (if fline.l_next != null then 0 else atchar0) + tchar;
    ghost var e := EndOf(Pos(r, atchar0), st);
    ChainLine(kl', kt', r + n);
    YankRows(kt, Pos(r, atchar0), st, |st[n]|, D, kt');
    RowClean(kt', size, r + n);
    var genbuf := atline.l_dline;
    if atchar + |save| >= size { return; }
    FitsJoin(genbuf, atchar, save, size);
    Put(atline, genbuf[..atchar] + save, kl', kt', r + n);
    CleanUpdate(kt', size, r + n, genbuf[..atchar] + save);
    ghost var D' := kt';
    kt' := kt'[r + n := genbuf[..atchar] + save];
    YankWhole(kt, kt', Pos(r, atchar0), st, D, D');
    ok := true;
  }

  /** What all of the list makes of the rows. */
  lemma YankWhole(rows: seq<Row>, rows': seq<Row>, p: Pos, texts: seq<Row>, D: seq<Row>, D': seq<Row>)
    requires Inside(rows, p) && texts != [] && D == rows[p.row := rows[p.row][..p.col] + texts[0]]
    requires D' == D[..p.row + 1] + texts[1..] + D[p.row + 1..]
    requires var e := EndOf(p, texts);
      e.row < |D'| && e.col <= |D'[e.row]| && rows' == D'[e.row := D'[e.row][..e.col] + rows[p.row][p.col..]]
    ensures Replaced(rows, rows', p, p, texts, [], [], EndOf(p, texts))
  {
    hide Replaced;
    CutNothing(texts);
    YankDone(rows, rows', [], [], p, texts, |texts[|texts| - 1]|, D);
  }

  /** The loop of DoYank. */
  method YankLines(fline: Line, atline0: Line, size: nat, ghost sl: seq<Line>, ghost st: seq<Row>, ghost kl: seq<Line>, ghost D: seq<Row>, ghost r: nat)
    returns (atline: Line, ghost kl': seq<Line>, ghost kt': seq<Row>)
    requires Chain(sl, st) && Clean(st, size) && fline == sl[0] && Chain(kl, D) && Clean(D, size) && Apart(sl, kl)
    requires r < |kl| && atline0 == kl[r]
    modifies kl`l_next, kl`l_prev
    ensures Chain(kl', kt') && Clean(kt', size) && |kl'| > r + |sl| - 1 && atline == kl'[r + |sl| - 1] && kl'[0] == kl[0]
    ensures kt' == D[..r + 1] + st[1..] + D[r + 1..] && Apart(sl, kl') && Chain(sl, st)
    ensures forall i :: 0 <= i < |kl'| ==> kl'[i] in kl || fresh(kl'[i])
  {
    hide Chain, Clean, Insert, Fits;
    ChainSome(sl, st);
    ChainSome(kl, D);
    ChainLine(sl, st, 0);
    atline, kl', kt' := atline0, kl, D;
    var line := fline.l_next;
    ghost var j: nat := 1;
    SomeLines(D, st, [], r);
    while line != null
      invariant Chain(sl, st) && 1 <= j <= |sl| && line == Next(sl, j - 1)
      invariant Chain(kl', kt') && Clean(kt', size) && r + j - 1 < |kl'| && atline == kl'[r + j - 1] && kl'[0] == kl[0]
      invariant kt' == D[..r + 1] + st[1..j] + D[r + 1..] && Apart(sl, kl')
      invariant forall i :: 0 <= i < |kl'| ==> kl'[i] in kl || fresh(kl'[i])
      decreases |sl| - j
    {
      ChainLine(sl, st, j);
      OneMoreText(D, st, [], r, j);
      ChainSome(kl', kt');
      ghost var k1, t1, x := kl', kt', st[j];
      var newline;
      newline, kl' := listput(atline, kl', kt', r + j - 1);
      InsertAt(k1, r + j, newline, r + j);
      InsertAt(k1, r + j, newline, 0);
      forall i: nat | i < |kl'| ensures kl'[i] in k1 || kl'[i] == newline {
        InsertAt(k1, r + j, newline, i);
      }
      StillApart(sl, k1, kl', newline);
      InsertSet(t1, r + j, x);
      Put(newline, line.l_dline, kl', Insert(t1, r + j, []), r + j);
      kt' := Insert(t1, r + j, x);
      RowClean(st, size, j);
      CleanInsertRow(t1, size, r + j, x);
      line := line.l_next;
      atline := newline;
      j := j + 1;
    }
    assert st[1..j] == st[1..];
  }

  lemma StillApart(sl: seq<Line>, kl: seq<Line>, kl': seq<Line>, l: Line)
    requires Apart(sl, kl) && l !in sl && forall i :: 0 <= i < |kl'| ==> kl'[i] in kl || kl'[i] == l
    ensures Apart(sl, kl')
  {}

  lemma InsertSet(rows: seq<Row>, k: nat, x: Row)
    requires k <= |rows|
    ensures |Insert(rows, k, [])| == |rows| + 1 && Insert(rows, k, [])[k := x] == Insert(rows, k, x)
  {}

  lemma CleanInsertRow(rows: seq<Row>, size: nat, k: nat, x: Row)
    requires Clean(rows, size) && k <= |rows| && Fits(x, size)
    ensures Clean(Insert(rows, k, x), size)
  {}

  lemma CutNothing(st: seq<Row>)
    requires st != []
    ensures CutLast(st, |st[|st| - 1]|) == st
  {
    assert st[|st| - 1][..|st[|st| - 1]|] == st[|st| - 1];
  }

  lemma YankFirst(p: Pos, st: seq<Row>)
    requires st != []
    ensures EndOf(p, st).col == (if |st| == 1 then p.col + |st[0]| else |st[|st| - 1]|) && EndOf(p, st).row == p.row + |st| - 1
  {}

  /** Two texts join without the row in the middle getting too long. */
  predicate JoinFits(a: seq<Row>, b: seq<Row>, size: nat)
    requires a != [] && b != []
  {
    |a[|a| - 1]| + |b[0]| < size
  }

  /** A kill and the newest one, joined. */
  function Joined(kill: seq<Row>, newest: seq<Row>, backwards: bool): (r: seq<Row>)
    requires kill != [] && newest != []
    ensures r != []
  {
    if backwards then Join(kill, newest) else Join(newest, kill)
  }

  predicate JoinedFits(kill: seq<Row>, newest: seq<Row>, backwards: bool, size: nat)
    requires kill != [] && newest != []
  {
    if backwards then JoinFits(kill, newest, size) else JoinFits(newest, kill, size)
  }

  /** A kill is joined to the newest one: before it, or behind it. */
  method Append(nl: Line, backwards: bool, head: Line, size: nat, ghost kill: Kill, ghost newest: Kill) returns (ok: bool, ghost kill': Kill)
    requires KillOk(kill, size) && KillOk(newest, size) && Apart(kill.lines, newest.lines) && kill.texts != [] && newest.texts != []
    requires nl == kill.lines[0] && head == newest.lines[0]
    modifies newest.lines
    ensures ok == JoinedFits(kill.texts, newest.texts, backwards, size)
    ensures ok ==> KillOk(kill', size) && kill'.lines != [] && kill'.lines[0] == head
    ensures ok ==> forall i :: 0 <= i < |kill'.lines| ==> kill'.lines[i] in newest.lines || fresh(kill'.lines[i])
    ensures ok ==> kill'.texts == Joined(kill.texts, newest.texts, backwards)
  {
    hide Chain, Clean, Flat, Replaced, Join;
    ghost var kl, kt := newest.lines, newest.texts;
    ChainSome(kl, kt);
    ChainSome(kill.lines, kill.texts);
    var lastln := lastline(nl, kill.lines, kill.texts);
    var len := |lastln.l_dline|;
    ghost var kl', kt';
    ChainLine(kl, kt, 0);
    JoinRoom(kill.texts, kt, size);
    if backwards {
      ok, kl', kt' := DoYank(nl, len, head, 0, size, kill.lines, kill.texts, kl, kt, 0);
      if ok { JoinedFront(kt, kt', kill.texts); }
    } else {
      var olastln := lastline(head, kl, kt);
      ok, kl', kt' := DoYank(nl, len, olastln, |olastln.l_dline|, size, kill.lines, kill.texts, kl, kt, |kl| - 1);
      if ok { JoinedBack(kt, kt', kill.texts); }
    }
    kill' := Kill(kl', kt');
    if ok { ChainSome(kl', kt'); }
  }

  /** What DoYank asks for when it joins two kills comes down to the row in the middle. */
  lemma JoinRoom(st: seq<Row>, kt: seq<Row>, size: nat)
    requires st != [] && kt != [] && Clean(st, size) && Clean(kt, size)
    ensures var e := EndOf(Pos(0, 0), st); |st[0]| < size && (e.col + |kt[0]| < size <==> JoinFits(st, kt, size))
    ensures var n := |kt[|kt| - 1]|; var e := EndOf(Pos(|kt| - 1, n), st);
      n + |st[0]| < size && e.col + n - n < size <==> JoinFits(kt, st, size)
  {
    assert Fits(st[0], size) && Fits(st[|st| - 1], size);
  }

  lemma JoinedFront(kt: seq<Row>, kt': seq<Row>, st: seq<Row>)
    requires kt != [] && st != [] && Replaced(kt, kt', Pos(0, 0), Pos(0, 0), st, [], [], EndOf(Pos(0, 0), st))
    ensures kt' == Join(st, kt)
  {
    AroundJoin(kt, Pos(0, 0), Pos(0, 0), st);
    assert Upto(kt, Pos(0, 0)) == [[]];
    assert From(kt, Pos(0, 0)) == kt;
    hide Join;
    JoinNothing(st);
  }

  lemma JoinedBack(kt: seq<Row>, kt': seq<Row>, st: seq<Row>)
    requires kt != [] && st != []
    requires var p := Pos(|kt| - 1, |kt[|kt| - 1]|); Replaced(kt, kt', p, p, st, [], [], EndOf(p, st))
    ensures kt' == Join(kt, st)
  {
    var p := Pos(|kt| - 1, |kt[|kt| - 1]|);
    AroundJoin(kt, p, p, st);
    assert kt[p.row][..p.col] == kt[p.row] && kt[p.row][p.col..] == [];
    assert Upto(kt, p) == kt;
    assert From(kt, p) == [[]];
    var all := Join(kt, st);
    hide Join;
    JoinNothing(all);
  }

  lemma CleanBetween(rows: seq<Row>, size: nat, p: Pos, q: Pos)
    requires Clean(rows, size) && Inside(rows, p) && Inside(rows, q) && AtOrBefore(p, q)
    ensures Clean(Between(rows, p, q), size)
  {
    var cut := Between(rows, p, q);
    forall k | 0 <= k < |cut| ensures Fits(cut[k], size) {
      if p.row == q.row {
        assert Fits(rows[p.row], size);
      } else {
        assert Fits(rows[p.row + k], size);
      }
    }
  }

  /** What a kill of the rows `cut` does to the ring. */
  ghost predicate Killed(kills: seq<Kill>, kills': seq<Kill>, last_kill: bool, backwards: bool, cut: seq<Row>) {
    && kills' != [] && cut != []
    && if last_kill && kills != [] then
         kills'[1..] == kills[1..] && kills[0].texts != [] && kills'[0].texts == Joined(cut, kills[0].texts, backwards)
       else
         kills'[1..] == (if |kills| < NUMKILLS then kills else kills[..NUMKILLS - 1]) && kills'[0].texts == cut
  }

  lemma Joined'(kills: seq<Kill>, kills': seq<Kill>, backwards: bool, cut: seq<Row>)
    requires kills != [] && kills' != [] && kills'[1..] == kills[1..] && cut != [] && kills[0].texts != []
    requires kills'[0].texts == Joined(cut, kills[0].texts, backwards)
    ensures Killed(kills, kills', true, backwards, cut)
  {}

  lemma EndInside(rows: seq<Row>, rows': seq<Row>, p: Pos, new': seq<Row>, mp: seq<Pos>, mp': seq<Pos>)
    requires new' != [] && Replaced(rows, rows', p, p, new', mp, mp', EndOf(p, new'))
    ensures Inside(rows', EndOf(p, new'))
  {
    hide Flat, Start;
    EndRule(rows, p, p, new');
  }

  /** A kill takes from the text what it adds to the ring, in the same place. */
  lemma OneKill(rows: seq<Row>, rows': seq<Row>, p: Pos, q: Pos, mp: seq<Pos>, mp': seq<Pos>, dot: Pos,
                kills: seq<Kill>, kills': seq<Kill>, last_kill: bool, backwards: bool)
    requires Replaced(rows, rows', p, q, [[]], mp, mp', dot) && Inside(rows, p) && Inside(rows, q) && AtOrBefore(p, q)
    requires Killed(kills, kills', last_kill, backwards, Between(rows, p, q))
    ensures kills' != [] && kills'[0].texts != [] && dot == p && Inside(rows', p)
    ensures PutIn(rows', p, kills'[0].texts) ==
      if last_kill && kills != [] then PutIn(rows, if backwards then q else p, kills[0].texts) else rows
  {
    AroundJoin(rows, p, q, [[]]);
    JoinNothing(Upto(rows, p));
    hide Join, Upto, From, Between, PutIn;
    TakeOutPutIn(rows, p, q, if last_kill && kills != [] then kills[0].texts else [[]], backwards);
  }

  lemma Yanked(rows: seq<Row>, rows': seq<Row>, p: Pos, texts: seq<Row>, mp: seq<Pos>, mp': seq<Pos>, dot: Pos)
    requires Replaced(rows, rows', p, p, texts, mp, mp', dot)
    ensures rows' == PutIn(rows, p, texts)
  {
    AroundJoin(rows, p, p, texts);
  }

  /** Can `n` characters from `a` on, or back, be killed?  There must be some, what is left of the two rows must fit in
      one, and the kill must join the newest one, if it is to. */
  predicate Killable(rows: seq<Row>, a: Pos, n: int, last_kill: bool, newest: seq<Row>, size: nat)
    requires Inside(rows, a) && newest != []
  {
    var d := PosAt(rows, Clamped(Off(rows, a) + n, |Flat(rows)|));
    var p, q := if AtOrBefore(d, a) then d else a, if AtOrBefore(d, a) then a else d;
    && Inside(rows, d) && d != a && p.col + |rows[q.row]| - q.col < size
    && (last_kill ==> JoinedFits(Between(rows, p, q), newest, AtOrBefore(d, a), size))
  }

  /** Among `n` kills, the newest in slot `p`, slot `i` holds number `Slot(p, n, i)`, newest first;
      and number `i` is in slot `Slot(p, n, i)`. */
  function Slot(p: nat, n: nat, i: nat): int { if i <= p then p - i else n + p - i }

  ghost function AllLines(kills: seq<Kill>): set<Line> {
    set j: nat, i: nat | j < |kills| && i < |kills[j].lines| :: kills[j].lines[i]
  }

  /** All kills keep apart from each other and from the buffer's lines. */
  ghost predicate KillsOk(kills: seq<Kill>, ls: seq<Line>, size: nat)
    reads AllLines(kills)
  {
    KeepApart(kills, ls) && forall k :: 0 <= k < |kills| ==> KillOk(kills[k], size)
  }

  ghost predicate KeepApart(kills: seq<Kill>, ls: seq<Line>) {
    && (forall k :: 0 <= k < |kills| ==> Apart(kills[k].lines, ls))
    && forall j, k :: 0 <= j < |kills| && 0 <= k < |kills| && j != k ==> Apart(kills[j].lines, kills[k].lines)
  }

  /** `l` is a line of the newest kill, or nobody else's. */
  ghost predicate NewLine(l: Line, kills: seq<Kill>, ls: seq<Line>)
    requires kills != []
  {
    l in kills[0].lines || (l !in ls && forall k :: 0 <= k < |kills| ==> l !in kills[k].lines)
  }

  lemma NewestApart(kills: seq<Kill>, kill': Kill, ls: seq<Line>)
    requires kills != [] && KeepApart(kills, ls) && forall i :: 0 <= i < |kill'.lines| ==> NewLine(kill'.lines[i], kills, ls)
    ensures KeepApart(kills[0 := kill'], ls)
  {
    var kl := kills[0].lines;
    forall k | 0 < k < |kills| ensures Apart(kill'.lines, kills[k].lines) && Apart(kills[k].lines, kill'.lines) {
      assert Apart(kl, kills[k].lines);
    }
  }

  ghost predicate SlotsOk(buf: seq<Line?>, p: nat, kills: seq<Kill>) {
    && |kills| <= |buf| && (if kills == [] then p == 0 else p < |kills|)
    && (forall k :: 0 <= k < |kills| ==> kills[k].lines != [])
    && (forall i :: |kills| <= i < |buf| ==> buf[i] == null)
    && forall i :: 0 <= i < |kills| ==> SlotOk(buf, p, kills, i)
  }

  ghost predicate SlotOk(buf: seq<Line?>, p: nat, kills: seq<Kill>, i: nat)
    requires i < |kills| <= |buf| && p < |kills|
  {
    var k := Slot(p, |kills|, i);
    kills[k].lines != [] && buf[i] == kills[k].lines[0]
  }

  /** There is room: the newer half of the array moves up. */
  lemma AddRoom(was: seq<Line?>, buf: seq<Line?>, p: nat, kills: seq<Kill>, kill: Kill)
    requires SlotsOk(was, p, kills) && kill.lines != [] && 0 < |kills| < |was| == |buf|
    requires forall j :: 0 <= j <= p ==> buf[j] == was[j]
    requires forall j :: p + 1 < j < |buf| ==> buf[j] == was[j - 1]
    requires buf[p + 1] == kill.lines[0]
    ensures SlotsOk(buf, p + 1, [kill] + kills)
  {
    var kills', q := [kill] + kills, p + 1;
    forall i: nat | i < |kills'| ensures SlotOk(buf, q, kills', i) {
      if i <= p { assert SlotOk(was, p, kills, i); } else if i > p + 1 { assert SlotOk(was, p, kills, i - 1); }
    }
  }

  /** With room for one more, what is behind number `p` has moved up. */
  ghost predicate RoomMade(was: seq<Line?>, moved: seq<Line?>, p: nat, n: nat) {
    && |moved| == |was| == NUMKILLS && (n == 0 || n == NUMKILLS ==> moved == was)
    && (0 < n < NUMKILLS ==>
          && (forall j :: 0 <= j <= p < NUMKILLS - 1 ==> moved[j] == was[j])
          && (forall j :: p + 1 < j < NUMKILLS ==> moved[j] == was[j - 1]))
  }

  lemma Added(was: seq<Line?>, moved: seq<Line?>, p: nat, kills: seq<Kill>, kill: Kill)
    requires SlotsOk(was, p, kills) && kill.lines != [] && RoomMade(was, moved, p, |kills|)
    ensures var p' := if kills == [] then 0 else (p + 1) % NUMKILLS;
      SlotsOk(moved[p' := kill.lines[0]], p', [kill] + if |kills| < NUMKILLS then kills else kills[..NUMKILLS - 1])
  {
    if kills == [] {
      OnlyOne(was, moved[0 := kill.lines[0]], kill);
      assert [kill] + kills == [kill];
    } else if |kills| < NUMKILLS {
      AddRoom(was, moved[p + 1 := kill.lines[0]], p, kills, kill);
    } else {
      var p' := (p + 1) % NUMKILLS;
      AddFull(was, moved[p' := kill.lines[0]], p, p', kills, kill);
    }
  }

  /** There is none: the oldest is overwritten. */
  lemma AddFull(was: seq<Line?>, buf: seq<Line?>, p: nat, p': nat, kills: seq<Kill>, kill: Kill)
    requires SlotsOk(was, p, kills) && kill.lines != [] && |kills| == |was| > 0 && p' == (if p + 1 == |was| then 0 else p + 1)
    requires buf == was[p' := kill.lines[0]]
    ensures SlotsOk(buf, p', [kill] + kills[..|kills| - 1])
  {
    var kills' := [kill] + kills[..|kills| - 1];
    forall i: nat | i < |kills'| ensures SlotOk(buf, p', kills', i) {
      assert SlotOk(was, p, kills, i);
    }
  }

  /** The newest goes: what is behind it moves down. */
  lemma DelOk(was: seq<Line?>, buf: seq<Line?>, p: nat, p': nat, kills: seq<Kill>)
    requires SlotsOk(was, p, kills) && kills != [] && |buf| == |was|
    requires forall j :: 0 <= j < p ==> buf[j] == was[j]
    requires forall j :: p <= j < |buf| - 1 ==> buf[j] == was[j + 1]
    requires buf[|buf| - 1] == null
    requires p' == if p > 0 then p - 1 else if |kills| > 2 then |kills| - 2 else 0
    ensures SlotsOk(buf, p', kills[1..])
  {
    var kills' := kills[1..];
    forall i: nat | i < |kills'| ensures SlotOk(buf, p', kills', i) {
      if i < p { assert SlotOk(was, p, kills, i); } else { assert SlotOk(was, p, kills, i + 1); }
    }
  }

  lemma OlderOk(buf: seq<Line?>, p: nat, kills: seq<Kill>)
    requires SlotsOk(buf, p, kills) && kills != []
    ensures SlotsOk(buf, if p > 0 then p - 1 else |kills| - 1, kills[1..] + [kills[0]])
  {
    var kills', p' := kills[1..] + [kills[0]], if p > 0 then p - 1 else |kills| - 1;
    forall i: nat | i < |kills'| ensures SlotOk(buf, p', kills', i) {
      assert SlotOk(buf, p, kills, i);
    }
  }

  lemma NewerOk(buf: seq<Line?>, p: nat, kills: seq<Kill>)
    requires SlotsOk(buf, p, kills) && kills != []
    ensures SlotsOk(buf, if p + 1 < |kills| then p + 1 else 0, [kills[|kills| - 1]] + kills[..|kills| - 1])
  {
    var kills', p' := [kills[|kills| - 1]] + kills[..|kills| - 1], if p + 1 < |kills| then p + 1 else 0;
    forall i: nat | i < |kills'| ensures SlotOk(buf, p', kills', i) {
      assert SlotOk(buf, p, kills, i);
    }
  }

  lemma OnlyOne(was: seq<Line?>, buf: seq<Line?>, kill: Kill)
    requires SlotsOk(was, 0, []) && kill.lines != [] && 0 < |was| && buf == was[0 := kill.lines[0]]
    ensures SlotsOk(buf, 0, [kill])
  {
    assert SlotOk(buf, 0, [kill], 0);
  }

  lemma NoKills(buf: seq<Line?>)
    requires forall i :: 0 <= i < |buf| ==> buf[i] == null
    ensures SlotsOk(buf, 0, [])
  {}

  lemma SlotsSame(buf: seq<Line?>, p: nat, kills: seq<Kill>, kill': Kill)
    requires SlotsOk(buf, p, kills) && kills != [] && kill'.lines != [] && kill'.lines[0] == kills[0].lines[0]
    ensures SlotsOk(buf, p, kills[0 := kill'])
  {
    var kills' := kills[0 := kill'];
    forall i: nat | i < |kills'| ensures SlotOk(buf, p, kills', i) {
      assert SlotOk(buf, p, kills, i);
    }
  }

  lemma SlotsFacts(buf: seq<Line?>, p: nat, kills: seq<Kill>)
    requires SlotsOk(buf, p, kills)
    ensures |kills| <= |buf| && (if kills == [] then p == 0 else p < |kills|)
    ensures forall i :: 0 <= i < |buf| ==> (buf[i] == null <==> i >= |kills|)
    ensures kills != [] ==> kills[0].lines != [] && buf[p] == kills[0].lines[0]
  {
    forall i: nat | i < |kills| ensures buf[i] != null {
      assert SlotOk(buf, p, kills, i);
    }
    if kills != [] { assert SlotOk(buf, p, kills, p); }
  }

  class Ring {
    const killbuf: array<Line?>
    var killptr: nat
    ghost var kills: seq<Kill>

    constructor ()
      ensures Slots() && kills == [] && fresh(killbuf)
    {
      killbuf := new Line?[NUMKILLS](_ => null);
      killptr, kills := 0, [];
    }

    /** The array is the list `kills`, newest first, and what is behind them is empty. */
    ghost predicate Slots()
      reads this, killbuf
    {
      killbuf.Length == NUMKILLS && SlotsOk(killbuf[..], killptr, kills)
    }

    /** A kill becomes the newest; when there is no room the oldest goes. */
    method AddKillRing(text: Line, ghost kill: Kill)
      requires Slots() && kill.lines != [] && kill.lines[0] == text
      modifies this, killbuf
      ensures Slots() && kills == [kill] + (if |old(kills)| < NUMKILLS then old(kills) else old(kills)[..NUMKILLS - 1])
    {
      hide SlotsOk;
      SlotsFacts(killbuf[..], killptr, kills);
      ghost var n, p := |kills|, killptr;
      ghost var was := killbuf[..];
      MakeRoom(n);
      ghost var moved := killbuf[..];
      killbuf[killptr] := text;
      Added(was, moved, p, kills, kill);
      kills := [kill] + (if n < NUMKILLS then kills else kills[..NUMKILLS - 1]);
    }

    /** A place for one more kill: behind the newest, if the array is full in place of the oldest. */
    method MakeRoom(ghost n: nat)
      requires killbuf.Length == NUMKILLS && n <= NUMKILLS && (if n == 0 then killptr == 0 else killptr < n)
      requires forall i :: 0 <= i < NUMKILLS ==> (killbuf[i] == null <==> i >= n)
      modifies this`killptr, killbuf
      ensures killptr == if n == 0 then 0 else (old(killptr) + 1) % NUMKILLS
      ensures RoomMade(old(killbuf[..]), killbuf[..], old(killptr), n)
    {
      ghost var was := killbuf[..];
      if killbuf[killptr] != null {
        killptr := (killptr + 1) % NUMKILLS;
        if killbuf[NUMKILLS - 1] == null {
          var i := NUMKILLS - 1;
          while i != killptr
            invariant killptr <= i < NUMKILLS
            invariant forall j :: 0 <= j <= i ==> killbuf[j] == was[j]
            invariant forall j :: i < j < NUMKILLS ==> killbuf[j] == was[j - 1]
            decreases i - killptr
            modifies killbuf
          {
            killbuf[i] := killbuf[i - 1];
            i := i - 1;
          }
        }
      }
    }

    /** What is behind the newest moves down over it. */
    method CloseUp()
      requires killbuf.Length == NUMKILLS && killptr < NUMKILLS
      modifies killbuf
      ensures forall j :: 0 <= j < killptr ==> killbuf[j] == old(killbuf[j])
      ensures forall j :: killptr <= j < NUMKILLS - 1 ==> killbuf[j] == old(killbuf[j + 1])
      ensures killbuf[NUMKILLS - 1] == null
    {
      ghost var was := killbuf[..];
      var i := killptr;
      while i != NUMKILLS - 1
        invariant killptr <= i < NUMKILLS
        invariant forall j :: 0 <= j < killptr ==> killbuf[j] == was[j]
        invariant forall j :: killptr <= j < i ==> killbuf[j] == was[j + 1]
        invariant forall j :: i <= j < NUMKILLS ==> killbuf[j] == was[j]
        decreases NUMKILLS - i
      {
        killbuf[i] := killbuf[i + 1];
        i := i + 1;
      }
      killbuf[i] := null;
    }

    /** The newest kill goes. */
    method DelKillRing()
      requires Slots()
      modifies this, killbuf
      ensures Slots() && kills == if old(kills) == [] then [] else old(kills)[1..]
    {
      hide SlotsOk;
      SlotsFacts(killbuf[..], killptr, kills);
      ghost var n, p := |kills|, killptr;
      ghost var was := killbuf[..];
      CloseUp();
      assert n >= 2 && p == 0 ==> killbuf[n - 2] == was[n - 1];
      killptr := (killptr + NUMKILLS - 1) % NUMKILLS;
      while killbuf[killptr] == null && killptr != 0
        invariant killptr < NUMKILLS && (p > 0 ==> killptr == p - 1)
        invariant p == 0 ==> killptr >= n - 2
        decreases killptr
        modifies this`killptr
      {
        killptr := killptr - 1;
      }
      if n > 0 { DelOk(was, killbuf[..], p, killptr, kills); } else { NoKills(killbuf[..]); }
      kills := if n == 0 then [] else kills[1..];
    }

    /** YankPop turns the ring, one way or the other. */
    method Rotate(older: bool)
      requires Slots() && kills != []
      modifies this
      ensures Slots()
      ensures kills == if older then old(kills)[1..] + [old(kills)[0]] else [old(kills)[|old(kills)| - 1]] + old(kills)[..|old(kills)| - 1]
    {
      Turn(older);
      kills := if older then kills[1..] + [kills[0]] else [kills[|kills| - 1]] + kills[..|kills| - 1];
    }

    method Turn(older: bool)
      requires Slots() && kills != []
      modifies this`killptr
      ensures SlotsOk(killbuf[..], killptr, if older then kills[1..] + [kills[0]] else [kills[|kills| - 1]] + kills[..|kills| - 1])
    {
      hide SlotsOk;
      SlotsFacts(killbuf[..], killptr, kills);
      ghost var p := killptr;
      TurnPast(older, |kills|);
      if older { OlderOk(killbuf[..], p, kills); } else { NewerOk(killbuf[..], p, kills); }
    }

    /** The next place in the direction that is not empty, around the end of the array. */
    method TurnPast(older: bool, ghost n: nat)
      requires killbuf.Length == NUMKILLS && killptr < n <= NUMKILLS
      requires forall i :: 0 <= i < NUMKILLS ==> (killbuf[i] == null <==> i >= n)
      modifies this`killptr
      ensures killptr == if older then (if old(killptr) > 0 then old(killptr) - 1 else n - 1) else if old(killptr) + 1 < n then old(killptr) + 1 else 0
    {
      var dir := if older then NUMKILLS - 1 else 1;
      ghost var p := killptr;
      killptr := (killptr + dir) % NUMKILLS;
      while killbuf[killptr] == null
        invariant killptr < NUMKILLS
        invariant older ==> if p > 0 then killptr == p - 1 else n - 1 <= killptr
        invariant !older ==> if p + 1 < n then killptr == p + 1 else killptr == 0 || n <= killptr
        decreases if older then killptr else if killptr == 0 then 0 else NUMKILLS - killptr
      {
        killptr := (killptr + dir) % NUMKILLS;
      }
    }

    /** The lines of the newest kill. */
    ghost function Newest(): seq<Line>
      reads this`kills
    {
      if kills == [] then [] else kills[0].lines
    }

    /** The ring and the buffer together. */
    ghost predicate Valid(b: Buffer)
      reads this, killbuf, b, b.linebuf, b.ls, b.ms, AllLines(kills)
    {
      Slots() && b.Valid() && KillsOk(kills, b.ls, b.size)
    }

    /** The first half of reg_kill: the text leaves the buffer. */
    method Take(b: Buffer, l2: Line, c2: nat, dot_moved: bool, ghost other: Pos)
      returns (st: Deleted, nl: Line?, backwards: bool, ghost kill: Kill, ghost p: Pos, ghost q: Pos)
      requires Valid(b) && Inside(b.rows, other) && l2 == b.ls[other.row] && c2 == other.col
      modifies b, b.ls, b.ms, b.linebuf
      ensures st == Refused <==> old(b.Dot()) == other
      ensures var dot := old(b.Dot()); p == (if AtOrBefore(dot, other) then dot else other) && q == (if AtOrBefore(dot, other) then other else dot)
      ensures Inside(old(b.rows), p) && Inside(old(b.rows), q) && AtOrBefore(p, q)
      ensures st == NoRoom <==> old(b.Dot()) != other && p.col + |old(b.rows)[q.row]| - q.col >= b.size
      ensures st == Gone ==>
        var dot := old(b.Dot());
        && Valid(b) && backwards == (dot_moved == AtOrBefore(dot, other))
        && Replaced(old(b.rows), b.rows, p, q, [[]], old(b.mp), b.mp, b.Dot())
        && KillOk(kill, b.size) && kill.texts == Between(old(b.rows), p, q) && kill.lines != [] && nl == kill.lines[0] && Apart(kill.lines, b.ls)
        && b.ms == old(b.ms) && (forall i :: 0 <= i < |b.ls| ==> b.ls[i] in old(b.ls))
        && (forall i :: 0 <= i < |kill.lines| ==> kill.lines[i] in old(b.ls) || fresh(kill.lines[i]))
        && forall k :: 0 <= k < |kills| ==> Apart(kill.lines, kills[k].lines) && Apart(kills[k].lines, kill.lines)
    {
      hide Buffer.Core, Flat, Replaced, Between, Chain, Clean, SlotsOk;
      b.CoreFacts();
      b.InsideDot();
      b.AllClean();
      ghost var dot := b.Dot();
      var swapped, line1, char1, line2, char2;
      swapped, line1, char1, line2, char2, p, q := b.fixorder(b.curline, b.curchar, l2, c2, dot, other);
      backwards := !swapped;
      if !dot_moved { backwards := !backwards; }
      b.DotTo(line1, char1, p.row);
      b.CoreFacts();
      st, nl, kill := Cut(b, line1, char1, line2, char2, p, q);
    }

    /** The text between two places in order leaves the buffer; no kill is touched. */
    method Cut(b: Buffer, line1: Line, char1: nat, line2: Line, char2: nat, ghost p: Pos, ghost q: Pos)
      returns (st: Deleted, nl: Line?, ghost kill: Kill)
      requires Valid(b) && Inside(b.rows, p) && Inside(b.rows, q) && AtOrBefore(p, q)
      requires line1 == b.ls[p.row] && char1 == p.col && line2 == b.ls[q.row] && char2 == q.col
      modifies b, b.ls, b.ms, b.linebuf
      ensures st == Refused <==> p == q
      ensures st == NoRoom <==> p != q && p.col + |old(b.rows)[q.row]| - q.col >= b.size
      ensures st == Gone ==>
        && Valid(b) && Replaced(old(b.rows), b.rows, p, q, [[]], old(b.mp), b.mp, b.Dot())
        && KillOk(kill, b.size) && kill.texts == Between(old(b.rows), p, q) && kill.lines != [] && nl == kill.lines[0] && Apart(kill.lines, b.ls)
        && b.ms == old(b.ms) && (forall i :: 0 <= i < |b.ls| ==> b.ls[i] in old(b.ls))
        && (forall i :: 0 <= i < |kill.lines| ==> kill.lines[i] in old(b.ls) || fresh(kill.lines[i]))
        && forall k :: 0 <= k < |kills| ==> Apart(kill.lines, kills[k].lines) && Apart(kills[k].lines, kill.lines)
    {
      hide Buffer.Core, Flat, Replaced, Between, Chain, Clean, SlotsOk;
      b.AllClean();
      ghost var rows0 := b.rows;
      ghost var kl: seq<Line>, texts: seq<Row>, p', q';
      st, nl, kl, texts, p', q' := b.reg_delete(line1, char1, line2, char2, p, q);
      kill := Kill(kl, texts);
      if st != Gone { return; }
      CleanBetween(rows0, b.size, p, q);
      ChainSome(kl, texts);
      forall k | 0 <= k < |kills|
        ensures KillOk(kills[k], b.size) && Apart(kills[k].lines, b.ls) && Apart(kl, kills[k].lines) && Apart(kills[k].lines, kl)
      {
        assert old(KillOk(kills[k], b.size)) && Apart(kills[k].lines, old(b.ls));
      }
    }

    /** reg_kill: the text between the dot and another place goes to the ring; directly behind another kill
        it is joined to that one. */
    method reg_kill(b: Buffer, l2: Line, c2: nat, dot_moved: bool, last_kill: bool, ghost other: Pos)
      returns (st: Deleted, ghost p: Pos, ghost q: Pos)
      requires Valid(b) && (last_kill ==> kills != [])
      requires Inside(b.rows, other) && l2 == b.ls[other.row] && c2 == other.col
      modifies this, killbuf, b, b.ls, b.ms, b.linebuf, Newest()
      ensures var dot := old(b.Dot()); p == (if AtOrBefore(dot, other) then dot else other) && q == (if AtOrBefore(dot, other) then other else dot)
      ensures Inside(old(b.rows), p) && Inside(old(b.rows), q) && AtOrBefore(p, q)
      ensures st == Refused <==> old(b.Dot()) == other
      ensures last_kill ==> old(kills)[0].texts != []
      ensures st == Gone <==> (
        && old(b.Dot()) != other && p.col + |old(b.rows)[q.row]| - q.col < b.size
        && (last_kill ==> JoinedFits(Between(old(b.rows), p, q), old(kills)[0].texts, dot_moved == AtOrBefore(old(b.Dot()), other), b.size)))
      ensures st == Gone ==>
        && Valid(b) && Replaced(old(b.rows), b.rows, p, q, [[]], old(b.mp), b.mp, b.Dot())
        && Killed(old(kills), kills, last_kill, dot_moved == AtOrBefore(old(b.Dot()), other), Between(old(b.rows), p, q))
        && b.ms == old(b.ms) && (forall i :: 0 <= i < |b.ls| ==> b.ls[i] in old(b.ls))
        && (forall i :: 0 <= i < |Newest()| ==> Newest()[i] in old(b.ls) || Newest()[i] in old(Newest()) || fresh(Newest()[i]))
    {
      hide Buffer.Core, Flat, Replaced, Between, Chain, Clean, SlotsOk;
      var nl, backwards;
      ghost var kill;
      if last_kill { NewestTexts(b); }
      st, nl, backwards, kill, p, q := Take(b, l2, c2, dot_moved, other);
      if st != Gone { return; }
      if !last_kill {
        NewKill(b, nl, kill);
      } else {
        var ok := JoinNewest(b, nl, backwards, kill);
        if !ok { st := NoRoom; }
      }
    }

    /** A kill that is not joined to another. */
    method NewKill(b: Buffer, nl: Line, ghost kill: Kill)
      requires Valid(b) && KillOk(kill, b.size) && kill.lines != [] && nl == kill.lines[0] && Apart(kill.lines, b.ls)
      requires forall k :: 0 <= k < |kills| ==> Apart(kill.lines, kills[k].lines) && Apart(kills[k].lines, kill.lines)
      modifies this, killbuf
      ensures Valid(b) && Newest() == kill.lines
      ensures forall backwards :: Killed(old(kills), kills, false, backwards, kill.texts)
    {
      hide Buffer.Core, Buffer.Valid, SlotsOk, Chain, Clean, Apart;
      ChainSome(kill.lines, kill.texts);
      AddKillRing(nl, kill);
    }

    lemma NewestTexts(b: Buffer)
      requires Valid(b) && kills != []
      ensures kills[0].texts != []
    {
      assert KillOk(kills[0], b.size);
    }

    method JoinNewest(b: Buffer, nl: Line, backwards: bool, ghost kill: Kill) returns (ok: bool)
      requires Valid(b) && kills != [] && KillOk(kill, b.size) && kill.lines != [] && nl == kill.lines[0] && Apart(kill.lines, b.ls)
      requires forall k :: 0 <= k < |kills| ==> Apart(kill.lines, kills[k].lines)
      requires kill.texts != [] && kills[0].texts != []
      modifies this`kills, b`DOLsave, b.ls`l_dline, b.linebuf, Newest()
      ensures ok ==> forall i :: 0 <= i < |Newest()| ==> Newest()[i] in old(Newest()) || fresh(Newest()[i])
      ensures ok == JoinedFits(kill.texts, old(kills)[0].texts, backwards, b.size)
      ensures ok ==> Valid(b) && b.Dot() == old(b.Dot()) && Killed(old(kills), kills, true, backwards, kill.texts)
    {
      hide Buffer.Core, Buffer.Valid, Flat, SlotsOk, KillOk, KeepApart, Apart, Killed;
      Save(b, kill);
      ghost var kill', kills0 := kill, kills;
      ok, kill' := AppendNewest(b, nl, backwards, kill);
      if !ok { return; }
      NewestApart(kills0, kill', b.ls);
      SlotsSame(killbuf[..], killptr, kills, kill');
      b.Refreshed();
      kills := kills[0 := kill'];
      Joined'(kills0, kills, backwards, kill.texts);
    }

    /** The newest kill's lines become those of the joined kill; the other kills are not touched. */
    method AppendNewest(b: Buffer, nl: Line, backwards: bool, ghost kill: Kill) returns (ok: bool, ghost kill': Kill)
      requires Valid(b) && kills != [] && KillOk(kill, b.size) && kill.lines != [] && nl == kill.lines[0] && Apart(kill.lines, b.ls)
      requires forall k :: 0 <= k < |kills| ==> Apart(kill.lines, kills[k].lines)
      requires kill.texts != [] && kills[0].texts != []
      modifies Newest()
      ensures ok == JoinedFits(kill.texts, kills[0].texts, backwards, b.size)
      ensures ok ==> KillOk(kill', b.size) && kill'.lines != [] && kills[0].lines != [] && kill'.lines[0] == kills[0].lines[0]
      ensures ok ==> kill'.texts == Joined(kill.texts, kills[0].texts, backwards)
      ensures ok ==> forall i :: 0 <= i < |kill'.lines| ==>
        NewLine(kill'.lines[i], kills, b.ls) && (kill'.lines[i] in kills[0].lines || fresh(kill'.lines[i]))
      ensures ok ==> b.Valid() && (forall k :: 0 < k < |kills| ==> KillOk(kills[k], b.size)) && Apart(kills[0].lines, b.ls)
    {
      hide Buffer.Core, Buffer.Valid, Flat, SlotsOk, KillOk;
      SlotsFacts(killbuf[..], killptr, kills);
      ghost var kl := kills[0].lines;
      ok, kill' := Append(nl, backwards, killbuf[killptr], b.size, kill, kills[0]);
      if !ok { return; }
      forall k | 0 < k < |kills| ensures KillOk(kills[k], b.size) {
        assert old(KillOk(kills[k], b.size)) && Apart(kills[k].lines, kl);
      }
      forall i | 0 <= i < |kill'.lines| ensures NewLine(kill'.lines[i], kills, b.ls) {}
    }

    /** The current line is stored; no kill is touched. */
    method Save(b: Buffer, ghost kill: Kill)
      requires Valid(b) && KillOk(kill, b.size) && Apart(kill.lines, b.ls)
      modifies b`DOLsave, b.ls`l_dline
      ensures Valid(b) && !b.DOLsave && KillOk(kill, b.size)
    {
      hide Buffer.Core, Chain, Clean, SlotsOk;
      b.CoreFacts();
      b.lsave();
      assert KillOk(kill, b.size) by { assert old(KillOk(kill, b.size)) && Apart(kill.lines, b.ls); }
      forall k | 0 <= k < |kills| ensures KillOk(kills[k], b.size) {
        assert old(KillOk(kills[k], b.size)) && Apart(kills[k].lines, b.ls);
      }
    }

    /** Yank: the newest kill comes in at the dot, which goes behind it.  (The mark that is set is not
        part of this.) */
    method Yank(b: Buffer) returns (ok: bool)
      requires Valid(b)
      modifies b, b.ls, b.ms, b.linebuf
      ensures kills == [] ==> !ok && Valid(b) && b.rows == old(b.rows) && b.Dot() == old(b.Dot()) && b.mp == old(b.mp)
      ensures kills != [] ==> kills[0].texts != [] && Inside(old(b.rows), old(b.Dot()))
      ensures ok <==> kills != [] && RoomFor(old(b.rows), old(b.Dot()), kills[0].texts, b.size)
      ensures ok ==> Valid(b) && Replaced(old(b.rows), b.rows, old(b.Dot()), old(b.Dot()), kills[0].texts, old(b.mp), b.mp, b.Dot())
    {
      hide Buffer.Core, SlotsOk, Replaced, Chain, Clean, EndOf;
      SlotsFacts(killbuf[..], killptr, kills);
      if killbuf[killptr] == null { return false; }
      b.InsideDot();
      NewestTexts(b);
      b.CoreFacts();
      var line := killbuf[killptr];
      ghost var kl, kt := kills[0].lines, kills[0].texts;
      ChainSome(kl, kt);
      assert KillOk(kills[0], b.size) && Apart(kl, b.ls);
      var lp := lastline(line, kl, kt);
      var atline, atchar;
      ok, atline, atchar := Bring(b, line, lp, |lp.l_dline|);
      if !ok { return; }
      b.CoreFacts();
      assert b.curline == b.ls[b.at];
      CutNothing(kt);
      EndInside(old(b.rows), b.rows, old(b.Dot()), kt, old(b.mp), b.mp);
      b.DotTo(atline, atchar, EndOf(old(b.Dot()), kt).row);
      b.CoreFacts();
    }

    /** DoYank of the newest kill; the ring is not touched. */
    method Bring(b: Buffer, line: Line, lp: Line, len: nat) returns (ok: bool, atline: Line, atchar: nat)
      requires Valid(b) && kills != [] && line == kills[0].lines[0] && lp == kills[0].lines[|kills[0].lines| - 1]
      requires |kills[0].texts| == |kills[0].lines| && len == |kills[0].texts[|kills[0].lines| - 1]|
      requires kills[0].texts != [] && Inside(b.rows, b.Dot())
      modifies b, b.ls, b.ms, b.linebuf
      ensures ok == RoomFor(old(b.rows), old(b.Dot()), kills[0].texts, b.size)
      ensures ok ==>
        var p, new' := old(b.Dot()), CutLast(kills[0].texts, len);
        && b.Core() && KillsOk(kills, b.ls, b.size) && Replaced(old(b.rows), b.rows, p, p, new', old(b.mp), b.mp, EndOf(p, new'))
        && (forall k :: 0 <= k < |b.mp| ==> Inside(b.rows, b.mp[k]))
        && EndOf(p, new').row < |b.ls| && atline == b.ls[EndOf(p, new').row] && atchar == EndOf(p, new').col
        && (forall i :: 0 <= i < |b.ls| ==> b.ls[i] in old(b.ls) || fresh(b.ls[i]))
    {
      hide Buffer.Core, SlotsOk, Replaced, Chain, Clean, EndOf, CutLast;
      b.CoreFacts();
      ghost var kl, kt := kills[0].lines, kills[0].texts;
      assert KillOk(kills[0], b.size);
      ChainSome(kl, kt);
      assert KillOk(kills[0], b.size) && Apart(kl, b.ls);
      CutNothing(kt);
      ok, atline, atchar := b.DoYank(line, lp, len, b.curline, b.curchar, kl, kt, b.Dot());
      if !ok { return; }
      forall k | 0 <= k < |kills| ensures KillOk(kills[k], b.size) && Apart(kills[k].lines, b.ls) {
        assert old(KillOk(kills[k], b.size)) && Apart(kills[k].lines, old(b.ls));
      }
    }

    /** What the buffer would be if the newest kill had stayed at the dot. */
    ghost function Uncut(b: Buffer): seq<Row>
      requires kills != [] && kills[0].texts != [] && Inside(b.rows, b.Dot())
      reads this`kills, b
    {
      PutIn(b.rows, b.Dot(), kills[0].texts)
    }

    /** One command that kills `n` characters, forward or (negative) back: the dot moves, and what it passed is killed. */
    method KillChars(b: Buffer, n: int, last_kill: bool) returns (ok: bool)
      requires Valid(b) && (last_kill ==> kills != [])
      modifies this, killbuf, b, b.ls, b.ms, b.linebuf, Newest()
      ensures Inside(old(b.rows), old(b.Dot())) && (last_kill ==> old(kills)[0].texts != [])
      ensures ok <==> Killable(old(b.rows), old(b.Dot()), n, last_kill, if last_kill then old(kills)[0].texts else [[]], b.size)
      ensures ok ==>
        && Valid(b) && kills != [] && kills[0].texts != [] && Inside(b.rows, b.Dot())
        && Uncut(b) == if last_kill then old(Uncut(b)) else old(b.rows)
      ensures ok ==>
        && b.ms == old(b.ms) && (forall i :: 0 <= i < |b.ls| ==> b.ls[i] in old(b.ls))
        && (forall i :: 0 <= i < |Newest()| ==> Newest()[i] in old(b.ls) || Newest()[i] in old(Newest()) || fresh(Newest()[i]))
    {
      hide Buffer.Core, SlotsOk, Replaced, Flat, KillsOk, Between, PutIn, Off, PosAt, Killed, JoinedFits;
      b.CoreFacts();
      b.InsideDot();
      if last_kill { NewestTexts(b); }
      var line, col := b.curline, b.curchar;
      ghost var a, rows0, mp0, kills0 := b.Dot(), b.rows, b.mp, kills;
      Move(b, n);
      b.CoreFacts();
      b.InsideDot();
      PosAtIs(rows0, b.Dot());
      var st;
      ghost var p, q, d := a, a, b.Dot();
      st, p, q := reg_kill(b, line, col, true, last_kill, a);
      ok := st == Gone;
      if ok { OneKill(rows0, b.rows, p, q, mp0, b.mp, b.Dot(), kills0, kills, last_kill, AtOrBefore(d, a)); }
    }

    /** The dot moves; the ring is not touched. */
    method Move(b: Buffer, n: int)
      requires Valid(b)
      modifies b`DOLsave, b`curline, b`curchar, b`at, b.ls`l_dline, b.linebuf
      ensures Valid(b) && Inside(b.rows, old(b.Dot())) && Inside(b.rows, b.Dot())
      ensures Off(b.rows, b.Dot()) == Clamped(Off(b.rows, old(b.Dot())) + n, |Flat(b.rows)|)
    {
      hide Buffer.Core, SlotsOk, Flat, Chain, Clean, Off;
      b.InsideDot();
      b.CoreFacts();
      b.f_char(n);
      b.InsideDot();
      forall k | 0 <= k < |kills| ensures KillOk(kills[k], b.size) {
        assert old(KillOk(kills[k], b.size)) && Apart(kills[k].lines, b.ls);
      }
    }

    /**
     * Any run of kills, forward and back, and then a yank.  If all the kills are done so is the yank, and the rows are
     * what they were.  If not, `done` says how many were: the next could not be, in a state from which the rows so far
     * killed, put back, are still the same.
     */
    method KillRunThenYank(b: Buffer, steps: seq<int>)
      returns (done: nat, ok: bool, ghost rows1: seq<Row>, ghost dot1: Pos, ghost kill1: seq<Row>)
      requires Valid(b) && steps != []
      modifies this, killbuf, b, b.ls, b.ms, b.linebuf, Newest()
      ensures done <= |steps| && (ok <==> done == |steps|)
      ensures ok ==> Valid(b) && b.rows == old(b.rows)
      ensures kill1 != [] && Inside(rows1, dot1) && (if done > 0 then PutIn(rows1, dot1, kill1) == old(b.rows) else rows1 == old(b.rows) && dot1 == old(b.Dot()))
      ensures done < |steps| ==> !Killable(rows1, dot1, steps[done], done > 0, kill1, b.size)
    {
      hide Buffer.Core, SlotsOk, Replaced, Flat, KillsOk, PutIn, Killable, RoomFor;
      ghost var rows0 := b.rows;
      done, ok, kill1 := 0, false, [[]];
      RowsFit(b);
      b.InsideDot();
      rows1, dot1 := b.rows, b.Dot();
      while done < |steps|
        invariant done <= |steps| && Valid(b) && !ok && Inside(b.rows, b.Dot()) && rows1 == b.rows && dot1 == b.Dot()
        invariant kill1 != [] &&
          (if done > 0 then kills != [] && kills[0].texts == kill1 && PutIn(b.rows, b.Dot(), kill1) == rows0
           else b.rows == rows0 && b.Dot() == old(b.Dot()) && kill1 == [[]])
        invariant forall k :: 0 <= k < |b.ls| ==> b.ls[k] in old(b.ls)
        invariant forall k :: 0 <= k < |Newest()| ==> Newest()[k] in old(b.ls) || Newest()[k] in old(Newest()) || fresh(Newest()[k])
        invariant b.ms == old(b.ms)
      {
        var killed := KillChars(b, steps[done], done > 0);
        if !killed { return; }
        rows1, dot1, kill1 := b.rows, b.Dot(), kills[0].texts;
        done := done + 1;
      }
      ghost var mp0 := b.mp;
      RoomIf(rows1, dot1, kill1, b.size);
      ok := Yank(b);
      Yanked(rows1, b.rows, dot1, kill1, mp0, b.mp, b.Dot());
    }

    lemma RowsFit(b: Buffer)
      requires Valid(b)
      ensures forall k :: 0 <= k < |b.rows| ==> |b.rows[k]| < b.size
    {
      b.AllClean();
    }
  }
}
