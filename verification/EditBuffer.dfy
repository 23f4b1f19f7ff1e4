/** A buffer: lines in a doubly linked list, a line buffer for the current one, and marks. */
module EditBuffer {
  import opened CString
  import opened FlatText

  /** A line; `l_dline` stands for the text stored at that address, which never changes. */
  class Line {
    var l_prev: Line?
    var l_next: Line?
    var l_dline: Row

    /** nbufline */
    constructor ()
      ensures l_prev == null && l_next == null && l_dline == []
    {
      l_prev, l_next, l_dline := null, null, [];
    }
  }

  class Mark {
    var m_line: Line
    var m_char: nat
    var m_big_delete: bool
    var m_next: Mark?

    constructor (line: Line, column: nat, next: Mark?)
      ensures m_line == line && m_char == column && !m_big_delete && m_next == next
    {
      m_line, m_char, m_big_delete, m_next := line, column, false, next;
    }
  }


  ghost function Prev(ls: seq<Line>, k: nat): Line? { if 1 <= k <= |ls| then ls[k - 1] else null }

  ghost function Next(ls: seq<Line>, k: int): Line? { if 0 <= k + 1 < |ls| then ls[k + 1] else null }

  ghost function NextMark(ms: seq<Mark>, k: int): Mark? { if 0 <= k + 1 < |ms| then ms[k + 1] else null }

  ghost predicate Distinct<T>(s: seq<T>) {
    forall j, k :: 0 <= j < k < |s| ==> s[j] != s[k]
  }

  /** The lines `ls` are linked both ways. */
  ghost predicate Linked(ls: seq<Line>)
    reads ls`l_prev, ls`l_next
  {
    Distinct(ls) && forall k :: 0 <= k < |ls| ==> LinkedAt(ls, k)
  }

  ghost predicate LinkedAt(ls: seq<Line>, k: nat)
    requires k < |ls|
    reads ls`l_prev, ls`l_next
  {
    ls[k].l_prev == Prev(ls, k) && ls[k].l_next == Next(ls, k)
  }

  lemma Different<T>(s: seq<T>, j: nat, k: nat)
    requires Distinct(s) && j < |s| && k < |s| && j != k
    ensures s[j] != s[k]
  {}

  lemma InsertAt<T>(s: seq<T>, k: nat, x: T, j: nat)
    requires k <= |s| && j <= |s|
    ensures |Insert(s, k, x)| == |s| + 1 && Insert(s, k, x)[j] == if j < k then s[j] else if j == k then x else s[j - 1]
  {}

  lemma DistinctInsert<T>(s: seq<T>, k: nat, x: T)
    requires Distinct(s) && k <= |s| && x !in s
    ensures Distinct(Insert(s, k, x))
  {}

  /** The marks `ms` are linked, and are at the positions `mp` of the lines `ls`. */
  ghost predicate Marked(ms: seq<Mark>, mp: seq<Pos>, ls: seq<Line>)
    reads ms`m_next, ms`m_line, ms`m_char
  {
    Distinct(ms) && |mp| == |ms| && forall k :: 0 <= k < |ms| ==> MarkedAt(ms, mp, ls, k)
  }

  ghost predicate MarkedAt(ms: seq<Mark>, mp: seq<Pos>, ls: seq<Line>, k: nat)
    requires k < |ms| == |mp|
    reads ms`m_next, ms`m_line, ms`m_char
  {
    ms[k].m_next == NextMark(ms, k) && mp[k].row < |ls| && ms[k].m_line == ls[mp[k].row] && ms[k].m_char == mp[k].col
  }

  /** What is stored for the lines but for the current one. */
  ghost predicate Stored(ls: seq<Line>, rows: seq<Row>, at: nat)
    reads ls`l_dline
  {
    |ls| == |rows| && forall k :: 0 <= k < |ls| && k != at ==> ls[k].l_dline == rows[k]
  }

  /** `new'` has come in as number `k`. */
  function Insert<T>(s: seq<T>, k: nat, new': T): (r: seq<T>)
    requires k <= |s|
    ensures |r| == |s| + 1
  {
    s[..k] + [new'] + s[k..]
  }

  predicate Fits(s: Row, size: nat) { 0 !in s && |s| < size }

  ghost predicate Clean(rows: seq<Row>, size: nat) {
    forall k :: 0 <= k < |rows| ==> Fits(rows[k], size)
  }

  class Buffer {
    const size: nat
    const linebuf: array<Ch>
    var b_first: Line
    var b_last: Line
    var curline: Line
    var curchar: nat
    var b_marks: Mark?
    var DOLsave: bool
    ghost var ls: seq<Line>
    ghost var rows: seq<Row>
    ghost var at: nat
    ghost var ms: seq<Mark>
    ghost var mp: seq<Pos>

    /** The lists are well linked, and `rows` and `mp` are the texts and the marks' places. */
    ghost predicate Core()
      reads this`b_first, this`b_last, this`curline, this`b_marks, this`DOLsave, this`ls, this`rows, this`at, this`ms, this`mp
      reads linebuf, ls, ms
    {
      && linebuf.Length == size && Linked(ls) && at < |ls| == |rows| && |mp| == |ms| && Stored(ls, rows, at) && Clean(rows, size)
      && b_first == ls[0] && b_last == ls[|ls| - 1] && curline == ls[at]
      && Fits(ls[at].l_dline, size) && Holds(linebuf[..], rows[at]) && (!DOLsave ==> ls[at].l_dline == rows[at])
      && Marked(ms, mp, ls) && b_marks == (if ms == [] then null else ms[0])
    }

    /** What callers of the small steps need to know. */
    lemma CoreFacts()
      requires Core()
      ensures at < |ls| == |rows| && |mp| == |ms| && curline == ls[at] && |rows[at]| < size
    {
      CleanAt(rows, size, at);
    }

    ghost predicate Valid()
      reads this, linebuf, ls, ms
    {
      Core() && curchar <= |rows[at]| && forall k :: 0 <= k < |mp| ==> Inside(rows, mp[k])
    }

    /** An empty buffer: one empty line. */
    constructor (size: nat)
      requires size > 0
      ensures Valid() && rows == [[]] && Dot() == Pos(0, 0) && ms == [] && this.size == size && fresh(linebuf) && fresh(ls)
    {
      var line := new Line();
      this.size := size;
      linebuf := new Ch[size](_ => 0);
      b_first, b_last, curline, curchar, b_marks, DOLsave := line, line, line, 0, null, false;
      ls, rows, at, ms, mp := [line], [[]], 0, [], [];
    }

    ghost function Dot(): Pos
      reads this
    {
      Pos(at, curchar)
    }

    /** What linebuf holds from `from` on. */
    method Tail(from: nat) returns (s: Row)
      requires Core() && from <= |rows[at]|
      ensures s == rows[at][from..] && Fits(s, size)
    {
      var n: nat := from;
      ghost var row := rows[at];
      while linebuf[n] != 0
        invariant from <= n <= |row|
        decreases |row| - n
      {
        assert n < |row|;
        n := n + 1;
      }
      AtNul(linebuf[..], row, n);
      s := linebuf[from..n];
      assert s == linebuf[..n][from..];
    }

    /** A new line comes behind `after`, before all if that is null. */
    method listput(after: Line?, ghost k: nat) returns (newline: Line)
      requires Core() && k <= |ls| && after == Prev(ls, k)
      modifies this`b_first, this`b_last, this`ls, this`rows, this`mp, this`at, ls`l_prev, ls`l_next
      ensures Core() && fresh(newline) && ls == Insert(old(ls), k, newline) && rows == Insert(old(rows), k, [])
      ensures at == Bump(old(at), k)
      ensures mp == Shifted(old(mp), k)
    {
      hide Linked, Marked, Clean, Shifted, Insert, Stored, Holds, Prev, Bump, Fits;
      newline := new Line();
      HoldsPositive(linebuf[..], rows[at]);
      LinkIn(newline, after, k);
      MarkedInsert(ms, mp, ls, k, newline);
      CleanInsert(rows, size, k);
      InsertFacts(ls, k, newline, at);
      InsertFacts(rows, k, [], at);
      ghost var at' := Bump(at, k);
      ls, rows, mp, at := Insert(ls, k, newline), Insert(rows, k, []), Shifted(mp, k), at';
    }

    /** The pointers of listput, and what is stored. */
    method LinkIn(newline: Line, after: Line?, ghost k: nat)
      requires Linked(ls) && newline !in ls && k <= |ls| && after == Prev(ls, k)
      requires Stored(ls, rows, at) && at < |ls| && newline.l_dline == [] && b_first == ls[0] && b_last == ls[|ls| - 1]
      modifies this`b_first, this`b_last, ls`l_prev, ls`l_next, newline`l_prev, newline`l_next
      ensures Linked(Insert(ls, k, newline)) && b_first == Insert(ls, k, newline)[0] && b_last == Insert(ls, k, newline)[|ls|]
      ensures Stored(Insert(ls, k, newline), Insert(rows, k, []), Bump(at, k))
    {
      hide Linked, Insert;
      Link(newline, after, k);
      StoredInsert(ls, rows, at, k, newline);
    }

    /** The pointers of listput. */
    method Link(newline: Line, after: Line?, ghost k: nat)
      requires Linked(ls) && newline !in ls && k <= |ls| && after == Prev(ls, k) && ls != [] && b_first == ls[0] && b_last == ls[|ls| - 1]
      modifies this`b_first, this`b_last, ls`l_prev, ls`l_next, newline`l_prev, newline`l_next
      ensures Linked(Insert(ls, k, newline)) && b_first == Insert(ls, k, newline)[0] && b_last == Insert(ls, k, newline)[|ls|]
    {
      hide Distinct, Insert;
      ghost var ls' := Insert(ls, k, newline);
      DistinctInsert(ls, k, newline);
      assert k > 0 ==> LinkedAt(ls, k - 1);
      assert k < |ls| ==> LinkedAt(ls, k);
      newline.l_prev := after;
      if after == null {
        newline.l_next := b_first;
        b_first := newline;
      } else {
        newline.l_next := after.l_next;
        after.l_next := newline;
      }
      if newline.l_next != null {
        newline.l_next.l_prev := newline;
      } else {
        b_last := newline;
      }
      InsertAt(ls, k, newline, 0);
      InsertAt(ls, k, newline, |ls|);
      forall j: nat | j < |ls'| ensures LinkedAt(ls', j) {
        InsertAt(ls, k, newline, j);
        if j > 0 { InsertAt(ls, k, newline, j - 1); }
        if j < |ls| { InsertAt(ls, k, newline, j + 1); }
        ghost var i := if j < k then j else j - 1;
        if j != k {
          assert old(LinkedAt(ls, i));
          if k > 0 && i != k - 1 { Different(ls, i, k - 1); }
          if k < |ls| && i != k { Different(ls, i, k); }
        }
      }
    }

    /** strcpy(linebuf, s) */
    method SetLinebuf(s: Row)
      requires Core() && DOLsave && 0 !in s && |s| < size
      modifies linebuf, this`rows
      ensures Core() && rows == old(rows)[at := s]
    {
      hide Linked, Marked;
      for k := 0 to |s|
        invariant forall j :: 0 <= j < k ==> linebuf[j] == s[j]
        modifies linebuf
      {
        linebuf[k] := s[k];
      }
      linebuf[|s|] := 0;
      assert linebuf[..|s|] == s;
      rows := rows[at := s];
    }

    /** The current line is stored if it may have changed. */
    method lsave()
      requires Core()
      modifies this`DOLsave, curline`l_dline
      ensures Core() && !DOLsave
    {
      hide Marked, Linked;
      if DOLsave {
        var s := Tail(0);
        forall k: nat | k < |ls| && k != at ensures ls[k] != curline {
          SameIndex(ls, k, at);
        }
        curline.l_dline := s;
        DOLsave := false;
      }
    }

    method Modify()
      requires Core()
      modifies this`DOLsave
      ensures Core() && DOLsave
    {
      hide Linked, Marked, Stored, Clean, Holds;
      DOLsave := true;
    }

    /** getDOT: the stored text of the current line, number `k`, goes to linebuf. */
    method getDOT(ghost k: nat)
      requires linebuf.Length == size && k < |ls| && curline == ls[k] && 0 !in curline.l_dline && |curline.l_dline| < size
      modifies linebuf
      ensures Holds(linebuf[..], curline.l_dline)
    {
      var s := curline.l_dline;
      for j := 0 to |s|
        invariant forall i :: 0 <= i < j ==> linebuf[i] == s[i]
        modifies linebuf
      {
        linebuf[j] := s[j];
      }
      linebuf[|s|] := 0;
      assert linebuf[..|s|] == s;
    }

    /** The dot goes to `line`, which is number `k`; a column behind its end is cut back. */
    method DotTo(line: Line, c: nat, ghost k: nat)
      requires Core() && k < |ls| && line == ls[k]
      modifies this`DOLsave, this`curline, this`curchar, this`at, curline`l_dline, linebuf
      ensures Core() && curline == line && at == k && curchar == (if c <= |rows[k]| then c else |rows[k]|)
      ensures line == old(curline) ==> DOLsave == old(DOLsave)
    {
      hide Marked, Linked, Stored, Clean, Holds;
      if line != curline {
        lsave();
        SwitchTo(line, k);
      } else {
        SameIndex(ls, at, k);
      }
      curchar := c;
      var text := Tail(0);
      if curchar > |text| { curchar := |text|; }
    }

    /** Another line becomes the current one, nothing being unsaved. */
    method SwitchTo(line: Line, ghost k: nat)
      requires Core() && !DOLsave && k < |ls| && line == ls[k]
      modifies this`curline, this`at, linebuf
      ensures Core() && curline == line && at == k
    {
      hide Marked, Linked, Holds;
      ghost var stored := ls[k].l_dline;
      assert stored == rows[k];
      curline, at := line, k;
      getDOT(k);
    }

    /** The place of mark `m`, which is number `i`, changes. */
    method MoveMark(m: Mark, line: Line, c: nat, ghost i: nat, ghost k: nat)
      requires Core() && i < |ms| && m == ms[i] && k < |ls| && line == ls[k]
      modifies m`m_line, m`m_char, this`mp
      ensures Core() && mp == old(mp)[i := Pos(k, c)]
    {
      hide Linked, Stored, Clean, Holds, Distinct;
      ghost var mp' := mp[i := Pos(k, c)];
      assert MarkedAt(ms, mp, ls, i);
      mp := mp';
      m.m_line, m.m_char := line, c;
      forall j: nat | j < |ms| ensures MarkedAt(ms, mp', ls, j) {
        assert old(MarkedAt(ms, mp, ls, j));
        if j != i { Different(ms, i, j); }
      }
    }

    /** IFixMarks, the lines being numbers `r1` and `r2`. */
    method IFixMarks(line1: Line, char1: nat, line2: Line, char2: nat, ghost r1: nat, ghost r2: nat)
      requires Core() && r1 < |ls| && line1 == ls[r1] && r2 < |ls| && line2 == ls[r2]
      modifies this`mp, ms
      ensures Core() && |mp| == |ms| && forall i :: 0 <= i < |mp| ==> mp[i] == IFixed(old(mp)[i], Pos(r1, char1), Pos(r2, char2))
    {
      hide Stored, Clean, Holds, Marked, Linked;
      ghost var i := 0;
      var m := b_marks;
      MarkAt(ms, mp, ls, 0);
      while m != null
        invariant Core() && i <= |ms| == |mp| && m == NextMark(ms, i - 1)
        invariant forall j :: 0 <= j < i ==> mp[j] == IFixed(old(mp)[j], Pos(r1, char1), Pos(r2, char2))
        invariant forall j :: i <= j < |mp| ==> mp[j] == old(mp)[j]
        decreases |ms| - i
      {
        MarkAt(ms, mp, ls, i);
        if m.m_line == line1 && m.m_char > char1 {
          SameIndex(ls, r1, mp[i].row);
          MoveMark(m, line2, m.m_char + char2 - char1, i, r2);
        }
        m := m.m_next;
        i := i + 1;
      }
    }
    /** SavLine: `s` is stored for `line`, which is number `k`. */
    method SavLine(line: Line, s: Row, ghost k: nat)
      requires Core() && DOLsave && k < |ls| && line == ls[k] && Fits(s, size)
      modifies line`l_dline, this`rows
      ensures Core() && line.l_dline == s && rows == if k == at then old(rows) else old(rows)[k := s]
    {
      hide Linked, Marked, Holds;
      forall j: nat | j < |ls| && j != k ensures ls[j] != line {
        SameIndex(ls, j, k);
      }
      SameIndex(ls, k, at);
      line.l_dline := s;
      if k != at { rows := rows[k := s]; }
    }

    /** `linebuf[c] = '\0'` */
    method Cut(c: nat)
      requires Core() && DOLsave && c <= |rows[at]|
      modifies linebuf, this`rows
      ensures Core() && rows == old(rows)[at := old(rows)[at][..c]]
    {
      hide Linked, Marked;
      ghost var s := rows[at][..c];
      assert s == linebuf[..c];
      linebuf[c] := 0;
      assert linebuf[..c] == s;
      rows := rows[at := s];
    }

    /** `curline = line`: linebuf is now the text of that line, and the old one has what is stored. */
    method SetCurline(line: Line, ghost k: nat)
      requires Core() && DOLsave && k < |ls| && line == ls[k] && k != at
      modifies this`curline, this`at, this`rows
      ensures Core() && curline == line && at == k && rows == old(rows)[old(at) := old(curline.l_dline)][k := old(rows)[old(at)]]
    {
      hide Linked, Marked, Holds;
      rows := rows[at := curline.l_dline][k := rows[at]];
      curline, at := line, k;
    }

    /** `num` empty lines come in behind the current one. */
    method PutLines(num: nat) returns (newdot: Line)
      requires Core()
      modifies this`b_first, this`b_last, this`ls, this`rows, this`mp, this`at, ls
      ensures Core() && at == old(at) && at + num < |ls| && newdot == ls[at + num] && mp == Opened(old(mp), at, num)
      ensures rows == old(rows)[..at + 1] + Lines(num) + old(rows)[at + 1..]
      ensures forall i :: 0 <= i < |ls| ==> ls[i] in old(ls) || fresh(ls[i])
    {
      hide Linked, Marked, Clean, Stored, Holds, Shifted, Lines, Insert, Opened;
      newdot := curline;
      ghost var r, rows0, mp0 := at, rows, mp;
      NoLines(rows, mp, r);
      var n: nat := 0;
      while n < num
        invariant Core() && n <= num && at == r && r + n < |ls| && newdot == ls[r + n] && r < |rows0|
        invariant rows == rows0[..r + 1] + Lines(n) + rows0[r + 1..] && mp == Opened(mp0, r, n)
        invariant forall i :: 0 <= i < |ls| ==> ls[i] in old(ls) || fresh(ls[i])
      {
        ghost var ls1 := ls;
        var nl := listput(newdot, r + n + 1);
        InsertAt(ls1, r + n + 1, nl, r + n + 1);
        forall i: nat | i < |ls| ensures ls[i] in old(ls) || fresh(ls[i]) {
          InsertAt(ls1, r + n + 1, nl, i);
        }
        OneMoreLine(rows0, mp0, r, n);
        newdot := nl;
        n := n + 1;
      }
    }

    /** LineInsert: `num` newlines come in at the dot, which goes behind them. */
    method LineInsert(num: nat)
      requires Valid() && num >= 1
      modifies this`b_first, this`b_last, this`curline, this`curchar, this`DOLsave, this`ls, this`rows, this`at, this`mp, ls, ms, linebuf
      ensures Valid() && DOLsave
      ensures Replaced(old(rows), rows, old(Dot()), old(Dot()), Lines(num + 1), old(mp), mp, Dot())
      ensures forall i :: 0 <= i < |ls| ==> ls[i] in old(ls) || fresh(ls[i])
    {
      hide Core, Lines, Opened, Replaced;
      CoreFacts();
      var olddot, oldchar := curline, curchar;
      ghost var rows0, mp0, r := rows, mp, at;
      var newdot := PutLines(num);
      CoreFacts();
      assert rows[r] == rows0[r];
      Modify();
      Divide(newdot, r + num);
      curchar := 0;
      CoreFacts();
      IFixMarks(olddot, oldchar, curline, curchar, r, r + num);
      LineInsertDone(rows0, rows, mp0, mp, Pos(r, oldchar), num);
    }

    /** The text behind the dot goes to `newdot`, which becomes the current line. */
    method Divide(newdot: Line, ghost k: nat)
      requires Core() && DOLsave && curchar <= |rows[at]| && k < |ls| && newdot == ls[k] && k != at
      modifies this`curline, this`rows, this`at, curline`l_dline, newdot`l_dline, linebuf
      ensures Core() && curline == newdot && at == k
      ensures rows == old(rows)[old(at) := old(rows[at])[..curchar]][k := old(rows[at])[curchar..]]
    {
      hide Linked, Marked, Clean, Stored, Holds;
      ghost var r, was := at, rows;
      if curchar != 0 {
        var newline := Tail(curchar);
        Cut(curchar);
        var head := Tail(0);
        SavLine(curline, head, r);
        SetLinebuf(newline);
      } else {
        SavLine(newdot, curline.l_dline, k);
        SavLine(curline, [], r);
      }
      SetCurline(newdot, k);
      assert rows == was[r := was[r][..curchar]][k := was[r][curchar..]];
    }

    /** ins_c into linebuf. */
    method InsC(c: Ch, atchar: nat, num: int) returns (ok: bool)
      requires Core() && DOLsave && atchar <= |rows[at]| && c != 0
      modifies linebuf, this`rows
      ensures Core() && ok == (num <= 0 || |old(rows[at])| + num < size)
      ensures rows == if ok && num > 0 then old(rows)[at := old(rows[at])[..atchar] + Copies(c, num) + old(rows[at])[atchar..]] else old(rows)
    {
      hide Linked, Marked, Clean, Holds;
      CleanAt(rows, size, at);
      ok := ins_c(c, linebuf, atchar, num, size, rows[at]);
      if ok && num > 0 {
        ghost var s' := rows[at][..atchar] + Copies(c, num) + rows[at][atchar..];
        CleanUpdate(rows, size, at, s');
        rows := rows[at := s'];
      }
    }

    /** `n` times the character `c` comes in at the dot, which goes behind it. */
    method insert_c(c: Ch, n: int) returns (ok: bool)
      requires Valid() && c != 0
      modifies this`DOLsave, this`rows, this`mp, this`curchar, ms, linebuf
      ensures Valid() && ok == (n <= 0 || |old(rows[at])| + n < size)
      ensures ok && n > 0 ==> Replaced(old(rows), rows, old(Dot()), old(Dot()), [Copies(c, n)], old(mp), mp, Dot())
      ensures !ok || n <= 0 ==> rows == old(rows) && mp == old(mp) && Dot() == old(Dot())
    {
      hide Core, Copies, Replaced;
      CoreFacts();
      ok := true;
      if n > 0 {
        ghost var rows0, mp0, p := rows, mp, Dot();
        Modify();
        ok := InsC(c, curchar, n);
        if !ok { return; }
        CoreFacts();
        IFixMarks(curline, curchar, curline, curchar + n, at, at);
        InsertDone(rows0, rows, mp0, mp, p, Copies(c, n));
        CopiesLength(c, n);
        curchar := curchar + n;
      }
    }

    /** DFixMarks, of one mark and line `j`. */
    method FixMark(m: Mark, lp: Line, line1: Line, char1: nat, line2: Line, char2: nat, ghost i: nat, ghost j: nat, ghost r1: nat, ghost r2: nat)
      requires Core() && i < |ms| && m == ms[i] && i < |mp|
      requires r1 <= j <= r2 < |ls| && line1 == ls[r1] && line2 == ls[r2] && lp == ls[j] && (r1 == r2 ==> char1 <= char2)
      modifies this`mp, m
      ensures Core() && |mp| == |old(mp)|
      ensures mp == old(mp)[i := if old(mp)[i].row == j then DFixed(old(mp)[i], Pos(r1, char1), Pos(r2, char2)) else old(mp)[i]]
    {
      hide Stored, Clean, Holds, Marked, Linked;
      MarkAt(ms, mp, ls, i);
      SameIndex(ls, j, r1);
      SameIndex(ls, j, r2);
      SameIndex(ls, r1, r2);
      SameIndex(ls, j, mp[i].row);
      if m.m_line == lp && (lp != line1 || m.m_char > char1) {
        if lp == line2 && m.m_char > char2 {
          MoveMark(m, line1, m.m_char - char2 + char1, i, r1);
        } else {
          MoveMark(m, line1, char1, i, r1);
          if line1 != line2 { m.m_big_delete := true; }
        }
      }
    }

    /** The inner loop of DFixMarks: the marks on the line `lp`, number `j`. */
    method FixLine(lp: Line, line1: Line, char1: nat, line2: Line, char2: nat, ghost j: nat, ghost r1: nat, ghost r2: nat)
      requires Core() && r1 <= j <= r2 < |ls| && line1 == ls[r1] && line2 == ls[r2] && lp == ls[j] && (r1 == r2 ==> char1 <= char2)
      modifies this`mp, ms
      ensures Core() && |mp| == |ms|
      ensures forall i :: 0 <= i < |mp| ==> mp[i] == if old(mp)[i].row == j then DFixed(old(mp)[i], Pos(r1, char1), Pos(r2, char2)) else old(mp)[i]
    {
      hide Stored, Clean, Holds, Marked, Linked;
      ghost var i := 0;
      var m := b_marks;
      MarkAt(ms, mp, ls, 0);
      while m != null
        invariant Core() && i <= |ms| == |mp| && m == NextMark(ms, i - 1)
        invariant forall k :: 0 <= k < i ==> mp[k] == if old(mp)[k].row == j then DFixed(old(mp)[k], Pos(r1, char1), Pos(r2, char2)) else old(mp)[k]
        invariant forall k :: i <= k < |mp| ==> mp[k] == old(mp)[k]
        decreases |ms| - i
      {
        MarkAt(ms, mp, ls, i);
        FixMark(m, lp, line1, char1, line2, char2, i, j, r1, r2);
        MarkAt(ms, mp, ls, i);
        m := m.m_next;
        i := i + 1;
      }
    }

    /** DFixMarks, the lines being numbers `r1` and `r2`. */
    method DFixMarks(line1: Line, char1: nat, line2: Line, char2: nat, ghost r1: nat, ghost r2: nat)
      requires Core() && r1 <= r2 < |ls| && line1 == ls[r1] && line2 == ls[r2] && (r1 == r2 ==> char1 <= char2)
      modifies this`mp, ms
      ensures Core() && |mp| == |ms| && forall i :: 0 <= i < |mp| ==> mp[i] == DFixed(old(mp)[i], Pos(r1, char1), Pos(r2, char2))
    {
      hide Stored, Clean, Holds, Marked;
      if b_marks == null { return; }
      var lp: Line? := line1;
      ghost var j := r1;
      LineAt(ls, r2);
      NextOnce(ls, j - 1, r2);
      while lp != line2.l_next
        invariant Core() && r1 <= j <= r2 + 1 && lp == Next(ls, j - 1) && (lp == line2.l_next <==> j == r2 + 1)
        invariant |mp| == |ms|
        invariant forall i :: 0 <= i < |mp| ==> mp[i] == if old(mp)[i].row < j then DFixed(old(mp)[i], Pos(r1, char1), Pos(r2, char2)) else old(mp)[i]
        decreases r2 + 1 - j
      {
        LineAt(ls, j);
        FixLine(lp, line1, char1, line2, char2, j, r1, r2);
        LineAt(ls, r2);
        NextOnce(ls, j, r2);
        lp := lp.l_next;
        j := j + 1;
      }
    }

    /** linecopy: what is in linebuf from `atchar` on becomes `from`.  Nothing is promised when it does not fit. */
    method linecopy(atchar: nat, from: Row) returns (ok: bool)
      requires Core() && DOLsave && atchar <= |rows[at]| && 0 !in from
      modifies linebuf, this`rows
      ensures ok == (atchar + |from| < size)
      ensures ok ==> Core() && rows == old(rows)[at := old(rows[at])[..atchar] + from]
    {
      hide Linked, Marked, Clean, Fits;
      CleanAt(rows, size, at);
      ghost var s := rows[at];
      ok := CopyTo(linebuf, atchar, from);
      if ok {
        ghost var s' := s[..atchar] + from;
        HeadKept(old(linebuf[..]), linebuf[..], s, atchar, from);
        FitsJoin(s, atchar, from, size);
        CleanUpdate(rows, size, at, s');
        rows := rows[at := s'];
      }
    }

    /** The text behind (`line2`, `char2`) comes to (`line1`, `char1`), and marks with it. */
    method patchup(line1: Line, char1: nat, line2: Line, char2: nat, ghost r1: nat, ghost r2: nat) returns (ok: bool)
      requires Core() && r1 <= r2 < |ls| && line1 == ls[r1] && line2 == ls[r2] && (r1 == r2 ==> char1 <= char2)
      requires char1 <= |rows[r1]| && char2 <= |rows[r2]|
      modifies this`DOLsave, this`curline, this`curchar, this`at, this`rows, this`mp, curline`l_dline, line1`l_dline, linebuf, ms
      ensures ok == (char1 + |old(rows[r2])| - char2 < size)
      ensures ok ==>
        && Core() && DOLsave && curline == line1 && at == r1 && curchar == char1 && |mp| == |ms|
        && rows == old(rows)[r1 := old(rows[r1])[..char1] + old(rows[r2])[char2..]]
        && forall i :: 0 <= i < |mp| ==> mp[i] == DFixed(old(mp)[i], Pos(r1, char1), Pos(r2, char2))
    {
      hide Core;
      CoreFacts();
      RowFits(r1);
      RowFits(r2);
      ghost var was := rows;
      DotTo(line1, char1, r1);
      CoreFacts();
      Modify();
      // lcontents(line2): when that is linebuf itself the copy moves to the left within it
      var text2 := Contents(line2, r2);
      ok := linecopy(curchar, text2[char2..]);
      if !ok { return; }
      CoreFacts();
      SameLine(r1, r2);
      if line1 != line2 && char1 == 0 && char2 == 0 {
        StoreCopy(line1, line2, r2);
      }
      DFixMarks(line1, char1, line2, char2, r1, r2);
    }

    lemma RowFits(k: nat)
      requires Core() && k < |ls|
      ensures k < |rows| && Fits(rows[k], size)
    {
      CleanAt(rows, size, k);
    }

    lemma AllClean()
      requires Core()
      ensures Clean(rows, size)
    {}

    lemma InsideDot()
      requires Valid()
      ensures Inside(rows, Dot()) && Off(rows, Dot()) <= |Flat(rows)|
    {
      FlatAt(rows, Dot());
    }

    lemma SameLine(j: nat, k: nat)
      requires Core() && j < |ls| && k < |ls|
      ensures ls[j] == ls[k] <==> j == k
    {
      SameIndex(ls, j, k);
    }

    /** lcontents */
    method Contents(line: Line, ghost k: nat) returns (s: Row)
      requires Core() && k < |ls| && line == ls[k]
      ensures s == rows[k]
    {
      hide Marked, Clean, Holds;
      SameIndex(ls, k, at);
      if line == curline { s := Tail(0); } else { s := line.l_dline; }
    }

    /** The redisplay optimization of patchup: the text is the stored text of `line2`. */
    method StoreCopy(line1: Line, line2: Line, ghost k: nat)
      requires Core() && DOLsave && line1 == curline && k < |ls| && line2 == ls[k] && k != at
      modifies line1`l_dline
      ensures Core()
    {
      hide Marked, Holds, Linked;
      SameIndex(ls, k, at);
      forall j: nat | j < |ls| && j != at ensures ls[j] != curline {
        SameIndex(ls, j, at);
      }
      line1.l_dline := line2.l_dline;
    }

    /** The lines behind `line1` up to `line2` leave the list. */
    method Unlink(line1: Line, line2: Line, ghost r1: nat, ghost r2: nat)
      requires Core() && r1 < r2 < |ls| && line1 == ls[r1] && line2 == ls[r2] && at == r1
      requires forall i :: 0 <= i < |mp| ==> !(r1 < mp[i].row <= r2)
      modifies this`b_last, this`ls, this`rows, this`mp, ls`l_next, ls`l_prev
      ensures Core() && ls == Without(old(ls), r1, r2) && rows == Without(old(rows), r1, r2) && mp == Closed(old(mp), r1, r2)
      ensures forall k :: r1 < k < r2 ==> old(ls)[k].l_next == Next(old(ls), k)
      ensures forall k :: r1 < k <= r2 ==> old(ls)[k] !in ls
    {
      hide Clean, Holds, Marked, Stored, Linked, Closed, Without;
      GoneFrom(ls, r1, r2);
      ghost var ls' := Without(ls, r1, r2);
      UnlinkPointers(line1, line2, r1, r2);
      StoredWithout(ls, rows, at, r1, r2);
      MarkedWithout(ms, mp, ls, r1, r2);
      CleanWithout(rows, size, r1, r2);
      WithoutAt(ls, r1, r2, r1);
      WithoutAt(rows, r1, r2, r1);
      ls, rows, mp := ls', Without(rows, r1, r2), Closed(mp, r1, r2);
    }

    method UnlinkPointers(line1: Line, line2: Line, ghost r1: nat, ghost r2: nat)
      requires Linked(ls) && r1 < r2 < |ls| && line1 == ls[r1] && line2 == ls[r2] && b_first == ls[0] && b_last == ls[|ls| - 1]
      modifies this`b_last, ls`l_next, ls`l_prev
      ensures var ls' := Without(ls, r1, r2); Linked(ls') && |ls'| > 0 && b_first == ls'[0] && b_last == ls'[|ls'| - 1]
      ensures forall k :: r1 < k < r2 ==> ls[k].l_next == Next(ls, k)
    {
      hide Distinct, Without;
      ghost var ls', d := Without(ls, r1, r2), r2 - r1;
      DistinctWithout(ls, r1, r2);
      assert LinkedAt(ls, r2);
      line1.l_next := line2.l_next;
      if line1.l_next != null {
        line1.l_next.l_prev := line1;
      } else {
        b_last := line1;
      }
      WithoutAt(ls, r1, r2, 0);
      WithoutAt(ls, r1, r2, |ls| - 1 - d);
      forall j: nat | j < |ls'| ensures LinkedAt(ls', j) {
        WithoutAt(ls, r1, r2, j);
        if j > 0 { WithoutAt(ls, r1, r2, j - 1); }
        if j + 1 < |ls'| { WithoutAt(ls, r1, r2, j + 1); }
        ghost var i := if j <= r1 then j else j + d;
        assert old(LinkedAt(ls, i));
        if i != r1 { Different(ls, i, r1); }
        if r2 + 1 < |ls| && i != r2 + 1 { Different(ls, i, r2 + 1); }
      }
      forall k | r1 < k < r2 ensures ls[k].l_next == Next(ls, k) {
        assert old(LinkedAt(ls, k));
        Different(ls, k, r1);
      }
    }

    /** f_char: `n` characters forward, as far as there are any. */
    method f_char(n: int)
      requires Valid()
      modifies this`DOLsave, this`curline, this`curchar, this`at, ls`l_dline, linebuf
      ensures Valid() && Off(rows, Dot()) == Clamped(Off(rows, old(Dot())) + n, |Flat(rows)|)
      decreases if n < 0 then 1 else 0
    {
      hide Core, Flat, Start;
      CoreFacts();
      if n < 0 {
        b_char(-n);
        return;
      }
      var i := n;
      ghost var o := Off(rows, Dot());
      OffFits(Dot());
      while i > 0
        invariant Valid() && 0 <= i <= n && Inside(rows, Dot()) && Off(rows, Dot()) == Clamped(o + n - i, |Flat(rows)|) && o <= |Flat(rows)|
      {
        CoreFacts();
        RowEnd(rows, at);
        OffFits(Dot());
        var eolp := AtNulHere();
        if eolp {
          var next := curline.l_next;
          NextLine();
          if next == null { break; }
          DotTo(next, 0, at + 1);
        } else {
          curchar := curchar + 1;
        }
        CoreFacts();
        OffFits(Dot());
        i := i - 1;
      }
    }

    /** b_char: `n` characters back. */
    method b_char(n: int)
      requires Valid()
      modifies this`DOLsave, this`curline, this`curchar, this`at, ls`l_dline, linebuf
      ensures Valid() && Off(rows, Dot()) == Clamped(Off(rows, old(Dot())) - n, |Flat(rows)|)
      decreases if n < 0 then 1 else 0
    {
      hide Core, Flat, Start;
      CoreFacts();
      if n < 0 {
        f_char(-n);
        return;
      }
      var i := n;
      ghost var o := Off(rows, Dot());
      OffFits(Dot());
      StartZero(rows);
      while i > 0
        invariant Valid() && 0 <= i <= n && Inside(rows, Dot()) && Off(rows, Dot()) == Clamped(o - (n - i), |Flat(rows)|) && o <= |Flat(rows)|
      {
        CoreFacts();
        OffFits(Dot());
        if curchar == 0 {
          var prev := curline.l_prev;
          NextLine();
          if prev == null { break; }
          RowEnd(rows, at - 1);
          DotTo(prev, 0, at - 1);
          CoreFacts();
          var text := Tail(0);
          curchar := |text|;
          OffFits(Dot());
        } else {
          curchar := curchar - 1;
        }
        i := i - 1;
      }
    }

    lemma OffFits(p: Pos)
      requires Core() && Inside(rows, p)
      ensures Off(rows, p) <= |Flat(rows)|
    {
      FlatAt(rows, p);
    }

    lemma NextLine()
      requires Core()
      ensures curline.l_next == Next(ls, at) && curline.l_prev == Prev(ls, at)
    {
      LineAt(ls, at);
    }

    /** eolp */
    method AtNulHere() returns (r: bool)
      requires Valid()
      ensures r <==> curchar == |rows[at]|
    {
      hide Linked, Marked, Stored;
      CleanAt(rows, size, at);
      AtNul(linebuf[..], rows[at], curchar);
      r := linebuf[curchar] == 0;
    }

    /** inorder: the lines are looked for in both directions at once. */
    method inorder(nextp0: Line, char1: nat, endp: Line, char2: nat, ghost k: nat, ghost e: nat) returns (r: int)
      requires Core() && k < |ls| && e < |ls| && nextp0 == ls[k] && endp == ls[e]
      ensures r == if (if k == e then char1 < char2 else k < e) then 1 else 0
    {
      hide Marked, Stored, Clean, Holds;
      SameIndex(ls, k, e);
      if nextp0 == endp { return if char1 < char2 then 1 else 0; }
      var nextp: Line?, prevp: Line? := nextp0, nextp0;
      ghost var d: nat := 0;
      while nextp != null && prevp != null
        invariant nextp == Next(ls, k + d - 1) && prevp == Next(ls, k - d - 1) && !(k - d <= e <= k + d)
        decreases |ls| + 1 - d
      {
        Walk(ls, k + d, e);
        Walk(ls, k - d, e);
        nextp, prevp := nextp.l_next, prevp.l_prev;
        d := d + 1;
        if nextp == endp { return 1; }
        if prevp == endp { return 0; }
      }
      ghost var n := k + d;
      while nextp != null
        invariant nextp == Next(ls, n - 1) && n >= k + d && !(k - d <= e <= n)
        decreases |ls| - n
      {
        Walk(ls, n, e);
        nextp := nextp.l_next;
        n := n + 1;
        if nextp == endp { return 1; }
      }
      ghost var m := k - d;
      while prevp != null
        invariant prevp == Next(ls, m - 1) && m <= k - d && !(m <= e <= n) && n >= |ls|
        decreases m
      {
        Walk(ls, m, e);
        prevp := prevp.l_prev;
        m := m - 1;
        if prevp == endp { return 0; }
      }
      r := -1;
    }

    /** fixorder: true just when the places were exchanged. */
    method fixorder(line1: Line, char1: nat, line2: Line, char2: nat, ghost p: Pos, ghost q: Pos)
      returns (swapped: bool, line1': Line, char1': nat, line2': Line, char2': nat, ghost p': Pos, ghost q': Pos)
      requires Core() && p.row < |ls| && q.row < |ls| && line1 == ls[p.row] && line2 == ls[q.row] && char1 == p.col && char2 == q.col
      ensures p'.row < |ls| && q'.row < |ls| && line1' == ls[p'.row] && line2' == ls[q'.row] && char1' == p'.col && char2' == q'.col && AtOrBefore(p', q')
      ensures swapped <==> AtOrBefore(q, p)
      ensures if swapped then p' == q && q' == p else p' == p && q' == q
    {
      hide Core;
      line1', char1', line2', char2', p', q' := line1, char1, line2, char2, p, q;
      var r := inorder(line1, char1, line2, char2, p.row, q.row);
      swapped := r == 0;
      if swapped {
        line1', char1', line2', char2', p', q' := line2, char2, line1, char1, q, p;
      }
    }

    /** lremove: the lines behind `line1` up to `line2` go (to the line allocator). */
    method lremove(line1: Line, line2: Line, ghost r1: nat, ghost r2: nat)
      requires Core() && r1 <= r2 < |ls| && line1 == ls[r1] && line2 == ls[r2] && at == r1
      requires forall i :: 0 <= i < |mp| ==> !(r1 < mp[i].row <= r2)
      modifies this`b_last, this`ls, this`rows, this`mp, ls`l_next, ls`l_prev
      ensures Core() && rows == Without(old(rows), r1, r2) && mp == Closed(old(mp), r1, r2)
    {
      hide Core;
      SameLine(r1, r2);
      CoreFacts();
      if line1 == line2 {
        NoneGone(rows, mp, r1);
        return;
      }
      Unlink(line1, line2, r1, r2);
    }

    /** patchup and lremove: what is between `p` and `q` goes. */
    method Remove(line1: Line, char1: nat, line2: Line, char2: nat, ghost p: Pos, ghost q: Pos) returns (ok: bool)
      requires Valid() && Inside(rows, p) && Inside(rows, q) && AtOrBefore(p, q)
      requires line1 == ls[p.row] && char1 == p.col && line2 == ls[q.row] && char2 == q.col
      modifies this`b_last, this`curline, this`curchar, this`DOLsave, this`ls, this`rows, this`at, this`mp, ls, ms, linebuf
      ensures ok == (p.col + |old(rows)[q.row]| - q.col < size)
      ensures ok ==> Valid() && Replaced(old(rows), rows, p, q, [[]], old(mp), mp, Dot())
    {
      hide Core, Replaced, Closed, Without;
      CoreFacts();
      ghost var rows0, mp0 := rows, mp;
      ok := patchup(line1, char1, line2, char2, p.row, q.row);
      if !ok { return; }
      CoreFacts();
      DFixedOut(mp0, mp, p, q);
      ghost var rows1, mp1 := rows, mp;
      lremove(line1, line2, p.row, q.row);
      CoreFacts();
      DeleteDone(rows0, rows1, rows, mp0, mp1, mp, p, q);
    }

    /** del_char without killing: `num` characters in one direction go, from `p` to `q`.  `moved` is
        false when there is nothing to delete, `ok` when what remains does not fit in a line. */
    method del_char(forward: bool, num: int) returns (moved: bool, ok: bool, ghost p: Pos, ghost q: Pos)
      requires Valid()
      modifies this`b_last, this`curline, this`curchar, this`DOLsave, this`ls, this`rows, this`at, this`mp, ls, ms, linebuf
      ensures Inside(old(rows), p) && Inside(old(rows), q) && AtOrBefore(p, q)
      ensures var o, n := Off(old(rows), old(Dot())), |Flat(old(rows))|;
        var o' := Clamped(if forward then o + num else o - num, n);
        moved == (o' != o) && Off(old(rows), p) == (if o < o' then o else o') && Off(old(rows), q) == (if o < o' then o' else o)
      ensures !moved ==> Valid() && rows == old(rows) && mp == old(mp) && Dot() == old(Dot())
      ensures moved && ok ==> Valid() && Replaced(old(rows), rows, p, q, [[]], old(mp), mp, Dot())
      ensures ok == (!moved || p.col + |old(rows)[q.row]| - q.col < size)
    {
      hide Core, Flat, Start, Replaced;
      CoreFacts();
      ok := true;
      var beforeLine, beforeChar := curline, curchar;
      ghost var a := Dot();
      if forward { f_char(num); } else { b_char(num); }
      CoreFacts();
      ghost var b := Dot();
      SameLine(a.row, b.row);
      OffOrder(rows, a, b);
      OffOrder(rows, b, a);
      p, q := if AtOrBefore(a, b) then a else b, if AtOrBefore(a, b) then b else a;
      moved := !(beforeLine == curline && beforeChar == curchar);
      if !moved { return; }
      var swapped, line1, char1, line2, char2;
      swapped, line1, char1, line2, char2, p, q := fixorder(beforeLine, beforeChar, curline, curchar, a, b);
      ok := Remove(line1, char1, line2, char2, p, q);
    }

    /** reg_delete: the text between two places goes, and is returned as a list of lines linked forward. */
    method reg_delete(l1: Line, c1: nat, l2: Line?, c2: nat, ghost a: Pos, ghost b: Pos)
      returns (st: Deleted, retline: Line?, ghost kl: seq<Line>, ghost texts: seq<Row>, ghost p: Pos, ghost q: Pos)
      requires Valid() && Inside(rows, a) && l1 == ls[a.row] && c1 == a.col
      requires l2 != null ==> Inside(rows, b) && l2 == ls[b.row] && c2 == b.col
      modifies this`b_last, this`curline, this`curchar, this`DOLsave, this`ls, this`rows, this`at, this`mp, ls, ms, linebuf
      ensures st == Refused <==> l2 == null || a == b
      ensures st == Refused ==> Valid() && rows == old(rows) && mp == old(mp) && Dot() == old(Dot())
      ensures st != Refused ==> (if AtOrBefore(a, b) then p == a && q == b else p == b && q == a)
      ensures st == NoRoom <==> l2 != null && a != b && p.col + |old(rows)[q.row]| - q.col >= size
      ensures st == Gone ==>
        && Valid() && Replaced(old(rows), rows, p, q, [[]], old(mp), mp, Dot())
        && texts == Between(old(rows), p, q) && retline != null && Chain(kl, texts) && kl[0] == retline
        && (forall k :: 0 <= k < |kl| ==> kl[k] !in ls && (kl[k] in old(ls) || fresh(kl[k])))
        && (forall i :: 0 <= i < |ls| ==> ls[i] in old(ls))
    {
      hide Core, Flat, Start, Replaced, Between, Chain, Closed, Without, Fits;
      CoreFacts();
      st, retline, kl, texts, p, q := Refused, null, [], [], a, b;
      if l2 == null { return; }
      SameLine(a.row, b.row);
      if l1 == l2 && c1 == c2 { return; }
      var swapped, line1, char1, line2, char2;
      swapped, line1, char1, line2, char2, p, q := fixorder(l1, c1, l2, c2, a, b);
      var ok;
      ok, retline, kl, texts := CutOut(line1, char1, line2, char2, p, q);
      st := if ok then Gone else NoRoom;
    }

    /** reg_delete with the places in order. */
    method CutOut(line1: Line, char1: nat, line2: Line, char2: nat, ghost p: Pos, ghost q: Pos)
      returns (ok: bool, retline: Line?, ghost kl: seq<Line>, ghost texts: seq<Row>)
      requires Valid() && Inside(rows, p) && Inside(rows, q) && AtOrBefore(p, q)
      requires line1 == ls[p.row] && char1 == p.col && line2 == ls[q.row] && char2 == q.col
      modifies this`b_last, this`curline, this`curchar, this`DOLsave, this`ls, this`rows, this`at, this`mp, ls, ms, linebuf
      ensures ok == (p.col + |old(rows)[q.row]| - q.col < size)
      ensures ok ==>
        && Valid() && Replaced(old(rows), rows, p, q, [[]], old(mp), mp, Dot())
        && texts == Between(old(rows), p, q) && retline != null && Chain(kl, texts) && kl[0] == retline
        && (forall k :: 0 <= k < |kl| ==> kl[k] !in ls && (kl[k] in old(ls) || fresh(kl[k])))
        && (forall i :: 0 <= i < |ls| ==> ls[i] in old(ls))
    {
      hide Core, Flat, Start, Replaced, Between, Chain, Closed, Without, Fits;
      CoreFacts();
      retline, kl := null, [];
      ghost var rows0, mp0 := rows, mp;
      SameLine(p.row, q.row);
      var new' := new Line();
      var genbuf := Contents(line1, p.row);
      if line1 == line2 { genbuf := genbuf[..char2]; }
      new'.l_dline := genbuf[char1..];
      texts := Between(rows0, p, q);
      BetweenFirst(rows0, p, q);
      ok := patchup(line1, char1, line2, char2, p.row, q.row);
      if !ok { return; }
      CoreFacts();
      DFixedOut(mp0, mp, p, q);
      ghost var rows1, mp1 := rows, mp;
      kl := TakeOut(line1, line2, char2, new', rows0, p, q);
      DeleteDone(rows0, rows1, rows, mp0, mp1, mp, p, q);
      CoreFacts();
      retline := new';
    }

    /** Of the last killed line only what was killed is kept. */
    method ClipLast(line2: Line, char2: nat, ghost rows0: seq<Row>, ghost p: Pos, ghost q: Pos)
      requires Core() && DOLsave && at == p.row && Inside(rows0, q) && p.row < q.row < |ls| && char2 == q.col && line2 == ls[q.row]
      requires |rows0| == |rows| && (forall k :: 0 <= k < |rows| && k != at ==> rows[k] == rows0[k])
      modifies line2`l_dline, this`rows
      ensures Core() && |rows| == |old(rows)| && Without(rows, p.row, q.row) == Without(old(rows), p.row, q.row)
      ensures forall k :: p.row < k <= q.row ==> ls[k].l_dline == (if k == q.row then rows0[k][..char2] else rows0[k])
    {
      hide Core, Without, Fits;
      CoreFacts();
      var text2 := Contents(line2, q.row);
      RowFits(q.row);
      FitsCut(text2, char2, size);
      WithoutIgnores(rows, p.row, q.row, text2[..char2]);
      SavLine(line2, text2[..char2], q.row);
      CoreFacts();
      forall k | p.row < k <= q.row ensures ls[k].l_dline == (if k == q.row then rows0[k][..char2] else rows0[k]) {
        StoredAt(k);
      }
    }

    /** The end of reg_delete: the killed lines are linked behind `retline`, and leave the buffer. */
    method TakeOut(line1: Line, line2: Line, char2: nat, retline: Line, ghost rows0: seq<Row>, ghost p: Pos, ghost q: Pos)
      returns (ghost kl: seq<Line>)
      requires Core() && DOLsave && at == p.row && Inside(rows0, p) && Inside(rows0, q) && AtOrBefore(p, q) && char2 == q.col
      requires |rows0| == |rows| && (forall k :: 0 <= k < |rows| && k != at ==> rows[k] == rows0[k])
      requires line1 == ls[p.row] && line2 == ls[q.row] && retline !in ls && retline.l_dline == Between(rows0, p, q)[0] && retline.l_next == null
      requires forall i :: 0 <= i < |mp| ==> !(p.row < mp[i].row <= q.row)
      modifies this`b_last, this`ls, this`rows, this`mp, ls, retline`l_next
      ensures Core() && rows == Without(old(rows), p.row, q.row) && mp == Closed(old(mp), p.row, q.row)
      ensures Chain(kl, Between(rows0, p, q)) && kl[0] == retline
      ensures forall k :: 0 <= k < |kl| ==> kl[k] !in ls && (kl[k] in old(ls) || kl[k] == retline)
      ensures forall i :: 0 <= i < |ls| ==> ls[i] in old(ls)
    {
      hide Core, Closed, Without, Fits, Chain, Between, Distinct;
      CoreFacts();
      SameLine(p.row, q.row);
      if line1 == line2 {
        kl := [retline];
        NoneGone(rows, mp, p.row);
        OneChain(retline, rows0, p, q);
      } else {
        kl := CutLines(line1, line2, char2, retline, rows0, p, q);
      }
    }

    /** TakeOut, of more than one line. */
    method CutLines(line1: Line, line2: Line, char2: nat, retline: Line, ghost rows0: seq<Row>, ghost p: Pos, ghost q: Pos)
      returns (ghost kl: seq<Line>)
      requires Core() && DOLsave && at == p.row && Inside(rows0, p) && Inside(rows0, q) && p.row < q.row && char2 == q.col
      requires |rows0| == |rows| && (forall k :: 0 <= k < |rows| && k != at ==> rows[k] == rows0[k])
      requires line1 == ls[p.row] && line2 == ls[q.row] && retline !in ls && retline.l_dline == Between(rows0, p, q)[0]
      requires forall i :: 0 <= i < |mp| ==> !(p.row < mp[i].row <= q.row)
      modifies this`b_last, this`ls, this`rows, this`mp, ls, retline`l_next
      ensures Core() && rows == Without(old(rows), p.row, q.row) && mp == Closed(old(mp), p.row, q.row)
      ensures Chain(kl, Between(rows0, p, q)) && kl[0] == retline
      ensures forall k :: 0 <= k < |kl| ==> kl[k] !in ls && (kl[k] in old(ls) || kl[k] == retline)
      ensures forall i :: 0 <= i < |ls| ==> ls[i] in old(ls)
    {
      hide Core, Closed, Without, Fits, Chain, Between, Distinct, TakenAt;
      CoreFacts();
      ghost var ls0 := ls;
      AllDistinct();
      Detach(line1, line2, char2, retline, rows0, p, q);
      kl := CutChain(retline, ls0, rows0, p, q);
      NotWithin(ls0, p.row, q.row, retline);
      OnlyFrom(ls0, p.row, q.row);
      KilledApart(kl, ls0, ls, p.row, q.row, retline);
    }

    /** The lines behind `line1` up to `line2` leave the buffer. */
    method Detach(line1: Line, line2: Line, char2: nat, retline: Line, ghost rows0: seq<Row>, ghost p: Pos, ghost q: Pos)
      requires Core() && DOLsave && at == p.row && Inside(rows0, p) && Inside(rows0, q) && p.row < q.row && char2 == q.col
      requires |rows0| == |rows| && (forall k :: 0 <= k < |rows| && k != at ==> rows[k] == rows0[k])
      requires line1 == ls[p.row] && line2 == ls[q.row] && retline !in ls
      requires forall i :: 0 <= i < |mp| ==> !(p.row < mp[i].row <= q.row)
      modifies this`b_last, this`ls, this`rows, this`mp, ls, retline`l_next
      ensures Core() && ls == Without(old(ls), p.row, q.row) && rows == Without(old(rows), p.row, q.row) && mp == Closed(old(mp), p.row, q.row)
      ensures q.row < |old(ls)| && retline.l_next == old(ls)[p.row + 1]
      ensures forall k :: p.row < k <= q.row ==> TakenAt(old(ls), rows0, p, q, k) && old(ls)[k] !in ls
    {
      hide Core, Closed, Without, Fits, Distinct, TakenAt;
      CoreFacts();
      ghost var ls0 := ls;
      AllDistinct();
      NextOf(line1, p.row);
      LastDiffers(ls0, p.row, q.row);
      retline.l_next := line1.l_next;
      assert retline.l_next == ls0[p.row + 1] && retline != line2;
      ClipLast(line2, char2, rows0, p, q);
      Unlink(line1, line2, p.row, q.row);
      assert retline.l_next == ls0[p.row + 1];
      line2.l_next := null;
      TakenLines(ls0, rows0, p, q);
    }

    lemma AllDistinct()
      requires Core()
      ensures Distinct(ls)
    {}

    lemma StoredAt(k: nat)
      requires Core() && k < |ls| && k != at
      ensures ls[k].l_dline == rows[k]
    {}

    lemma NextOf(line: Line, k: nat)
      requires Core() && k < |ls| && line == ls[k]
      ensures line.l_next == Next(ls, k)
    {
      LineAt(ls, k);
    }

    /** `pend` has come in at column `c` of the current row, but the marks do not know yet; before, `done`
        had come in at offset `o`. */
    ghost predicate Pending(rows0: seq<Row>, mp0: seq<Pos>, o: nat, done: seq<Ch>, pend: Row, rows1: seq<Row>, c: nat)
      reads this
    {
      && at < |rows1| && c <= |rows1[at]| && curchar == c + |pend|
      && rows == rows1[at := rows1[at][..c] + pend + rows1[at][c..]]
      && (forall k :: 0 <= k < |mp| ==> Inside(rows1, mp[k])) && Spliced(rows0, mp0, o, done, rows1, mp, Pos(at, c))
    }

    /** The marks get to know. */
    method Flush(saveLine: Line, saveChar: nat, ghost rows0: seq<Row>, ghost mp0: seq<Pos>, ghost o: nat,
                 ghost done: seq<Ch>, ghost pend: Row, ghost rows1: seq<Row>)
      requires Core() && Pending(rows0, mp0, o, done, pend, rows1, saveChar) && saveLine == curline
      modifies this`mp, ms
      ensures Valid() && Spliced(rows0, mp0, o, done + pend, rows, mp, Dot())
    {
      hide Core, Flat, Start, Replaced, Spliced;
      CoreFacts();
      ghost var mp1, p := mp, Pos(at, saveChar);
      IFixMarks(saveLine, saveChar, curline, curchar, at, at);
      InsertDone(rows1, rows, mp1, mp, p, pend);
      SplicedMore(rows0, mp0, o, done, rows1, mp1, p, [pend], rows, mp, Dot());
      FlatOne(pend);
    }

    /** The current line is broken at the dot. */
    method Break(saveLine: Line, saveChar: nat, ghost rows0: seq<Row>, ghost mp0: seq<Pos>, ghost o: nat,
                 ghost done: seq<Ch>, ghost pend: Row, ghost rows1: seq<Row>)
      requires Core() && Pending(rows0, mp0, o, done, pend, rows1, saveChar) && saveLine == curline
      modifies this`b_first, this`b_last, this`curline, this`curchar, this`DOLsave, this`ls, this`rows, this`at, this`mp, ls, ms, linebuf
      ensures Valid() && DOLsave && Spliced(rows0, mp0, o, done + pend + [NEWLINE], rows, mp, Dot()) && curchar == 0
      ensures |rows[at]| == |rows1[old(at)]| - saveChar
      ensures forall k :: 0 <= k < |ls| ==> ls[k] in old(ls) || fresh(ls[k])
    {
      hide Core, Flat, Start, Replaced, Spliced;
      CoreFacts();
      Flush(saveLine, saveChar, rows0, mp0, o, done, pend, rows1);
      Modify();
      CoreFacts();
      ghost var rows2, mp2, p := rows, mp, Dot();
      LineInsert(1);
      SplicedMore(rows0, mp0, o, done + pend, rows2, mp2, p, Lines(2), rows, mp, Dot());
      TwoLines(rows2, rows, mp2, mp, p, Dot());
    }

    /** Nothing is pending. */
    lemma NothingPending(rows0: seq<Row>, mp0: seq<Pos>, o: nat, done: seq<Ch>)
      requires Valid() && Spliced(rows0, mp0, o, done, rows, mp, Dot())
      ensures at < |rows| && Pending(rows0, mp0, o, done, [], rows, curchar)
    {
      hide Core, Spliced;
      CoreFacts();
      assert rows[at][..curchar] + [] + rows[at][curchar..] == rows[at];
    }

    /** One more character is pending. */
    method PendChar(c: Ch, ghost rows0: seq<Row>, ghost mp0: seq<Pos>, ghost o: nat, ghost done: seq<Ch>, ghost pend: Row,
                    ghost rows1: seq<Row>, ghost saveChar: nat) returns (ok: bool)
      requires Core() && DOLsave && c != 0 && Pending(rows0, mp0, o, done, pend, rows1, saveChar)
      modifies linebuf, this`rows, this`curchar
      ensures ok == (|old(rows[at])| + 1 < size)
      ensures ok ==> Core() && Pending(rows0, mp0, o, done, pend + [c], rows1, saveChar) && |rows[at]| == |old(rows[at])| + 1
    {
      hide Core, Spliced;
      CoreFacts();
      ok := InsC(c, curchar, 1);
      if !ok { return; }
      OneCopy(c, rows1, at, saveChar, pend);
      curchar := curchar + 1;
    }

    /** One character of ins_str_wrap; with `brk` the line is broken first. */
    method WrapChar(c: Ch, brk: bool, saveLine: Line, saveChar: nat, llen: nat, ghost tail: nat, ghost rows0: seq<Row>, ghost mp0: seq<Pos>, ghost o: nat,
                    ghost done: seq<Ch>, ghost pend: Row, ghost rows1: seq<Row>)
      returns (ok: bool, saveLine': Line, saveChar': nat, llen': nat, ghost done': seq<Ch>, ghost pend': Row, ghost rows1': seq<Row>)
      requires Core() && DOLsave && saveLine == curline && c != 0 && (c == NEWLINE ==> brk)
      requires at < |rows| && at < |rows1| && Pending(rows0, mp0, o, done, pend, rows1, saveChar) && llen == |rows[at]| && |rows1[at]| - saveChar == tail
      modifies this`b_first, this`b_last, this`curline, this`curchar, this`DOLsave, this`ls, this`rows, this`at, this`mp, ls, ms, linebuf
      ensures ok == (c == NEWLINE || (if brk then tail else llen) + 1 < size)
      ensures ok ==>
        && Core() && DOLsave && saveLine' == curline && llen' == (if brk then tail else llen) + (if c == NEWLINE then 0 else 1)
        && at < |rows| && at < |rows1'| && Pending(rows0, mp0, o, done', pend', rows1', saveChar') && llen' == |rows[at]| && |rows1'[at]| - saveChar' == tail
        && done' + pend' == (var d := if brk then done + pend + [NEWLINE] else done + pend; if c == NEWLINE then d else d + [c])
      ensures forall k :: 0 <= k < |ls| ==> ls[k] in old(ls) || fresh(ls[k])
    {
      hide Core, Flat, Start, Replaced, Spliced, Pending;
      CoreFacts();
      ok, saveLine', saveChar', llen', done', pend', rows1' := true, saveLine, saveChar, llen, done, pend, rows1;
      if brk {
        Break(saveLine, saveChar, rows0, mp0, o, done, pend, rows1);
        CoreFacts();
        done', pend', rows1' := done + pend + [NEWLINE], [], rows;
        saveLine', saveChar' := curline, curchar;
        NothingPending(rows0, mp0, o, done');
        var text1 := Tail(0);
        llen' := |text1|;
        assert done' + pend' == done + pend + [NEWLINE];
      }
      if c != NEWLINE {
        ok := PendChar(c, rows0, mp0, o, done', pend', rows1', saveChar');
        if !ok { return; }
        llen' := llen' + 1;
        assert done' + (pend' + [c]) == done' + pend' + [c];
        pend' := pend' + [c];
        CoreFacts();
      }
    }

    /** ins_str: `str` comes in at the dot just as it is. */
    method ins_str(str: seq<Ch>) returns (ok: bool)
      requires Valid() && 0 !in str
      modifies this`b_first, this`b_last, this`curline, this`curchar, this`DOLsave, this`ls, this`rows, this`at, this`mp, ls, ms, linebuf
      ensures ok == Wrapped(str, |old(rows[at])|, |old(rows[at])| - old(curchar), false, size - 1, size).Room?
      ensures NEWLINE !in str ==> (ok <==> str == [] || |old(rows[at])| + |str| < size)
      ensures ok ==> Valid() && Spliced(old(rows), old(mp), Off(old(rows), old(Dot())), str, rows, mp, Dot())
    {
      hide Core, Flat, Start, Spliced, Wrapped;
      CoreFacts();
      WrappedPlain(str, |rows[at]|, |rows[at]| - curchar, size - 1, size);
      ok := ins_str_wrap(str, false, size - 1);
    }

    /** ins_str_wrap: `str` comes in at the dot.  A newline in it starts a line; with `ok_nl` so does a
        character that finds `wrap_off` characters in its line. */
    method ins_str_wrap(str: seq<Ch>, ok_nl: bool, wrap_off0: nat) returns (ok: bool)
      requires Valid() && 0 !in str
      modifies this`b_first, this`b_last, this`curline, this`curchar, this`DOLsave, this`ls, this`rows, this`at, this`mp, ls, ms, linebuf
      ensures var off := if wrap_off0 > size - 1 then size - 1 else wrap_off0;
        var w := Wrapped(str, |old(rows[at])|, |old(rows[at])| - old(curchar), ok_nl, off, size);
        && ok == w.Room?
        && (ok ==> Valid() && Spliced(old(rows), old(mp), Off(old(rows), old(Dot())), w.s, rows, mp, Dot()))
    {
      hide Core, Flat, Start, Replaced, Spliced, Wrapped, Pending, Prefixed;
      CoreFacts();
      SplicedNone(rows, mp, Dot());
      PrefixedStart();
      PrefixedNone([]);
      ok := true;
      ghost var rows0, mp0, o := rows, mp, Off(rows, Dot());
      var wrap_off := if wrap_off0 > size - 1 then size - 1 else wrap_off0;
      ghost var tail := |rows[at]| - curchar;
      ghost var w := Wrapped(str, |rows[at]|, tail, ok_nl, wrap_off, size);
      WrappedNone(|rows[at]|, tail, ok_nl, wrap_off, size);
      if str == [] { return; }
      Modify();
      var saveLine, saveChar := curline, curchar;
      var text := Tail(0);
      var llen := |text|;
      ghost var rows1, done: seq<Ch>, pend: Row := rows, [], [];
      var i: nat := 0;
      assert str[0..] == str && done + pend == [];
      NothingPending(rows0, mp0, o, done);
      while i < |str|
        invariant i <= |str| && Core() && DOLsave && saveLine == curline
        invariant at < |rows| && at < |rows1| && Pending(rows0, mp0, o, done, pend, rows1, saveChar) && llen == |rows[at]| && |rows1[at]| - saveChar == tail
        invariant w == Prefixed(done + pend, Wrapped(str[i..], llen, tail, ok_nl, wrap_off, size))
        invariant forall k :: 0 <= k < |ls| ==> ls[k] in old(ls) || fresh(ls[k])
      {
        WrappedStep(str, i, llen, tail, ok_nl, wrap_off, size, done + pend);
        var c := str[i];
        i := i + 1;
        ok, saveLine, saveChar, llen, done, pend, rows1 :=
          WrapChar(c, c == NEWLINE || (ok_nl && llen >= wrap_off), saveLine, saveChar, llen, tail, rows0, mp0, o, done, pend, rows1);
        if !ok { return; }
      }
      assert str[i..] == [];
      WrappedNone(llen, tail, ok_nl, wrap_off, size);
      PrefixedNone(done + pend);
      Flush(saveLine, saveChar, rows0, mp0, o, done, pend, rows1);
      Modify();
    }

    /** The stored texts of all lines. */
    ghost function Disk(): seq<Row>
      requires at < |ls| && at < |rows|
      reads this`rows, this`at, this`ls, ls`l_dline
    {
      rows[at := ls[at].l_dline]
    }

    /** A line is stored with the lines in the buffer being all that counts. */
    method Put(line: Line, s: Row, ghost k: nat)
      requires Core() && DOLsave && k < |ls| && line == ls[k] && Fits(s, size)
      modifies line`l_dline, this`rows
      ensures Core() && at < |ls| == |rows| && Disk() == old(Disk())[k := s]
    {
      hide Core;
      CoreFacts();
      SameLine(k, at);
      SavLine(line, s, k);
      CoreFacts();
      assert rows[at := ls[at].l_dline] == old(rows)[at := old(ls[at].l_dline)][k := s];
    }

    /** A new line with text `s` behind line number `k`. */
    method PutBehind(line: Line, s: Row, ghost k: nat) returns (newline: Line)
      requires Core() && DOLsave && k < |ls| && line == ls[k] && Fits(s, size)
      modifies this`b_first, this`b_last, this`ls, this`rows, this`mp, this`at, ls`l_prev, ls`l_next
      ensures Core() && fresh(newline) && k + 1 < |ls| && newline == ls[k + 1] && at < |ls| == |rows| && Disk() == Insert(old(Disk()), k + 1, s)
      ensures mp == Shifted(old(mp), k + 1) && forall i :: 0 <= i < |ls| ==> ls[i] in old(ls) || ls[i] == newline
      ensures forall i :: 0 <= i <= k ==> ls[i] == old(ls)[i]
    {
      hide Core, Insert, Shifted;
      CoreFacts();
      ghost var ls0, rows0, at0, text0 := ls, rows, at, ls[at].l_dline;
      newline := listput(line, k + 1);
      CoreFacts();
      InsertAt(ls0, k + 1, newline, k + 1);
      forall i: nat | i < |ls| ensures (ls[i] in ls0 || ls[i] == newline) && (i <= k ==> ls[i] == ls0[i]) {
        InsertAt(ls0, k + 1, newline, i);
      }
      InsertFacts(ls0, k + 1, newline, at0);
      DiskInsert(rows0, at0, text0, k + 1, s);
      Put(newline, s, k + 1);
    }

    /** getDOT after the current line has been stored behind linebuf's back. */
    method Reload()
      requires Core() && DOLsave
      modifies this`rows, linebuf
      ensures Core() && at < |ls| == |rows| && rows == old(Disk())
    {
      hide Linked, Marked;
      getDOT(at);
      rows := rows[at := ls[at].l_dline];
    }

    /** getDOT when nothing has changed. */
    method Refresh()
      requires Core() && !DOLsave
      modifies linebuf
      ensures Core()
    {
      hide Linked, Marked, Stored, Clean;
      getDOT(at);
    }

    method Refreshed()
      requires Valid() && !DOLsave
      modifies linebuf
      ensures Valid()
    {
      hide Core;
      Refresh();
    }

    /** The loop of DoYank: whole lines come in behind `atline`, number `r`. */
    method YankLines(fline: Line?, atline0: Line, ghost sl: seq<Line>, ghost texts: seq<Row>, ghost r: nat, ghost D: seq<Row>)
      returns (atline: Line)
      requires Core() && DOLsave && Chain(sl, texts) && fline == Next(sl, 0) && r < |ls| && atline0 == ls[r] && Clean(texts, size)
      requires at < |ls| == |rows| && D == Disk() && forall k :: 0 <= k < |sl| ==> sl[k] !in ls
      modifies this`b_first, this`b_last, this`ls, this`rows, this`mp, this`at, ls`l_prev, ls`l_next
      ensures Core() && r + |sl| - 1 < |ls| == |rows| && at < |ls| && atline == ls[r + |sl| - 1] && ls[r] == atline0
      ensures Disk() == D[..r + 1] + texts[1..] + D[r + 1..] && mp == Opened(old(mp), r, |sl| - 1)
      ensures forall i :: 0 <= i < |ls| ==> ls[i] in old(ls) || fresh(ls[i])
    {
      hide Core, Insert, Shifted, Opened, Clean, Fits;
      CoreFacts();
      var line := fline;
      atline := atline0;
      ghost var j: nat, mp0 := 1, mp;
      SomeLines(D, texts, mp0, r);
      while line != null
        invariant Core() && DOLsave && Chain(sl, texts) && 1 <= j <= |sl| && line == Next(sl, j - 1) && r + j - 1 < |ls| && atline == ls[r + j - 1]
        invariant at < |ls| == |rows| && Disk() == D[..r + 1] + texts[1..j] + D[r + 1..] && mp == Opened(mp0, r, j - 1)
        invariant ls[r] == atline0 && forall k :: 0 <= k < |sl| ==> sl[k] !in ls
        invariant forall i :: 0 <= i < |ls| ==> ls[i] in old(ls) || fresh(ls[i])
        decreases |sl| - j
      {
        assert ChainAt(sl, texts, j);
        RowClean(texts, size, j);
        OneMoreText(D, texts, mp0, r, j);
        ghost var ls1 := ls;
        var newline := PutBehind(atline, line.l_dline, r + j - 1);
        StillOut(sl, ls1, ls, newline);
        line := line.l_next;
        atline := newline;
        j := j + 1;
      }
      assert texts[1..j] == texts[1..];
    }

    lemma DiskAt(k: nat)
      requires Core() && k < |ls|
      ensures at < |ls| == |rows| && Disk()[k] == ls[k].l_dline && Fits(ls[k].l_dline, size)
      ensures !DOLsave ==> Disk() == rows
    {
      CleanAt(rows, size, k);
    }

    /** The stored text of line `k` is cut at `c`, and `s` comes behind it. */
    method Extend(line: Line, c: nat, s: Row, ghost k: nat) returns (ok: bool)
      requires Core() && DOLsave && k < |ls| && line == ls[k] && c <= |line.l_dline| && 0 !in s
      modifies line`l_dline, this`rows
      ensures ok == (c + |s| < size)
      ensures ok ==> Core() && at < |ls| == |rows| && Disk() == old(Disk())[k := old(line.l_dline)[..c] + s]
    {
      hide Core, Fits;
      CoreFacts();
      var genbuf := line.l_dline;
      ok := c + |s| < size;
      if !ok { return; }
      DiskAt(k);
      FitsJoin(genbuf, c, s, size);
      Put(line, genbuf[..c] + s, k);
    }

    /** DoYank into this buffer: the list `sl`, its last line up to `tchar`, comes in at (`atline0`, `atchar0`).
        The place of its end is returned; the dot is still to be set there. */
    method DoYank(fline: Line, tline: Line, tchar: nat, atline0: Line, atchar0: nat, ghost sl: seq<Line>, ghost texts: seq<Row>, ghost p: Pos)
      returns (ok: bool, atline: Line, atchar: nat)
      requires Valid() && Chain(sl, texts) && Clean(texts, size) && fline == sl[0] && tline == sl[|sl| - 1] && tchar <= |texts[|texts| - 1]|
      requires (forall k :: 0 <= k < |sl| ==> sl[k] !in ls) && Inside(rows, p) && atline0 == ls[p.row] && atchar0 == p.col
      modifies this`b_first, this`b_last, this`DOLsave, this`ls, this`rows, this`mp, this`at, ls, ms, linebuf
      ensures ok == (p.col + |CutLast(texts, tchar)[0]| < size && EndOf(p, CutLast(texts, tchar)).col + |old(rows)[p.row]| - p.col < size)
      ensures ok ==>
        var new' := CutLast(texts, tchar);
        && Core() && DOLsave && Replaced(old(rows), rows, p, p, new', old(mp), mp, EndOf(p, new'))
        && (forall k :: 0 <= k < |mp| ==> Inside(rows, mp[k]))
        && EndOf(p, new').row < |ls| && atline == ls[EndOf(p, new').row] && atchar == EndOf(p, new').col
        && (forall i :: 0 <= i < |ls| ==> ls[i] in old(ls) || fresh(ls[i]))
    {
      hide Core, Replaced, Clean, Chain, CutLast, EndOf;
      CoreFacts();
      ChainEnds(sl, texts);
      ghost var rows0, mp0 := rows, mp;
      atline, atchar := atline0, atchar0;
      var save;
      ok, save := YankHead(fline, tline, tchar, atline, atchar, sl, texts, p);
      if !ok { return; }
      ghost var D := Disk();
      ok, atline, atchar := YankTail(fline, tchar, atline, atchar, save, sl, texts, p, rows0, D);
      if ok { YankDone(rows0, rows, mp0, mp, p, texts, tchar, D); }
    }

    /** The first line of DoYank. */
    method YankHead(fline: Line, tline: Line, tchar: nat, atline: Line, atchar: nat, ghost sl: seq<Line>, ghost texts: seq<Row>, ghost p: Pos)
      returns (ok: bool, save: Row)
      requires Core() && Chain(sl, texts) && Clean(texts, size) && fline == sl[0] && tline == sl[|sl| - 1] && tchar <= |texts[|texts| - 1]|
      requires p.row < |ls| == |rows| && p.col <= |rows[p.row]| && atline == ls[p.row] && atchar == p.col && sl[0] !in ls
      modifies this`DOLsave, this`rows, ls`l_dline
      ensures ok == (p.col + |CutLast(texts, tchar)[0]| < size)
      ensures ok ==> Core() && DOLsave && save == old(rows)[p.row][p.col..] && 0 !in save
      ensures ok ==> at < |ls| == |rows| && Disk() == old(rows)[p.row := old(rows)[p.row][..p.col] + CutLast(texts, tchar)[0]]
    {
      hide Core, Clean, Fits, Chain, Distinct;
      CoreFacts();
      ChainEnds(sl, texts);
      ghost var r := p.row;
      assert curline in ls;
      lsave();
      DiskAt(r);
      Modify();
      CoreFacts();
      RowFits(r);
      var genbuf := Contents(atline, r);
      save := genbuf[atchar..];
      RowClean(texts, size, 0);
      FitsParts(rows[r], atchar, texts[0], tchar, size);
      var buf := fline.l_dline;
      if fline == tline { buf := buf[..tchar]; }
      DiskAt(r);
      ok := Extend(atline, atchar, buf, r);
    }

    /** The marks get to know, and the current line is read back. */
    method Settle(line1: Line, char1: nat, line2: Line, char2: nat, ghost r1: nat, ghost r2: nat)
      requires Core() && DOLsave && r1 < |ls| && line1 == ls[r1] && r2 < |ls| && line2 == ls[r2]
      modifies this`mp, this`rows, ms, linebuf
      ensures Core() && at < |ls| == |rows| && |mp| == |old(mp)| && rows == old(Disk())
      ensures forall i :: 0 <= i < |mp| ==> mp[i] == IFixed(old(mp)[i], Pos(r1, char1), Pos(r2, char2))
    {
      hide Core;
      CoreFacts();
      IFixMarks(line1, char1, line2, char2, r1, r2);
      Reload();
      CoreFacts();
    }

    /** The other lines of DoYank. */
    method YankTail(fline: Line, tchar: nat, atline0: Line, atchar0: nat, save: Row, ghost sl: seq<Line>, ghost texts: seq<Row>,
                    ghost p: Pos, ghost rows0: seq<Row>, ghost D: seq<Row>)
      returns (ok: bool, atline: Line, atchar: nat)
      requires Core() && DOLsave && Chain(sl, texts) && Clean(texts, size) && fline == sl[0] && tchar <= |texts[|texts| - 1]|
      requires at < |ls| == |rows| == |rows0| && D == Disk() && (forall k :: 0 <= k < |sl| ==> sl[k] !in ls)
      requires Inside(rows0, p) && atline0 == ls[p.row] && atchar0 == p.col && save == rows0[p.row][p.col..] && 0 !in save
      requires D == rows0[p.row := rows0[p.row][..p.col] + CutLast(texts, tchar)[0]]
      modifies this`b_first, this`b_last, this`ls, this`rows, this`mp, this`at, ls, ms, linebuf
      ensures var e := EndOf(p, CutLast(texts, tchar));
        && ok == (e.col + |save| < size)
        && (ok ==> Core() && DOLsave && e.row < |ls| && atline == ls[e.row] && atchar == e.col && |mp| == |old(mp)|
                   && (var D' := D[..p.row + 1] + texts[1..] + D[p.row + 1..];
                       e.row < |D'| && e.col <= |D'[e.row]| && rows == D'[e.row := D'[e.row][..e.col] + save])
                   && (forall i :: 0 <= i < |mp| ==> mp[i] == IFixed(Opened(old(mp), p.row, |texts| - 1)[i], p, e))
                   && (forall i :: 0 <= i < |ls| ==> ls[i] in old(ls) || fresh(ls[i])))
    {
      hide Core, Opened, Clean, Fits, Chain, CutLast, EndOf;
      ChainEnds(sl, texts);
      ghost var r, n := p.row, |sl| - 1;
      ghost var e := EndOf(p, CutLast(texts, tchar));
      ghost var ls0 := ls;
      atchar := atchar0;
      atline := YankLines(fline.l_next, atline0, sl, texts, r, D);
      if fline.l_next != null { atchar := 0; }
      atchar := atchar + tchar;
      DiskAt(r + n);
      YankRows(rows0, p, texts, tchar, D, Disk());
      ok := Extend(atline, atchar, save, e.row);
      if !ok { return; }
      Settle(atline0, atchar0, atline, atchar, r, e.row);
    }
  }

  /** The rows with the last one cut. */
  function CutLast(texts: seq<Row>, tchar: nat): (r: seq<Row>)
    requires texts != [] && tchar <= |texts[|texts| - 1]|
    ensures |r| == |texts|
  {
    texts[|texts| - 1 := texts[|texts| - 1][..tchar]]
  }

  lemma ChainEnds(sl: seq<Line>, texts: seq<Row>)
    requires Chain(sl, texts)
    ensures |sl| == |texts| > 0 && sl[0].l_dline == texts[0] && sl[0].l_next == Next(sl, 0)
    ensures sl[0] == sl[|sl| - 1] <==> |sl| == 1
  {
    assert ChainAt(sl, texts, 0);
  }

  lemma FitsParts(s: Row, c: nat, t: Row, tchar: nat, size: nat)
    requires Fits(s, size) && c <= |s| && Fits(t, size)
    ensures 0 !in s[c..] && 0 !in t && (tchar <= |t| ==> 0 !in t[..tchar])
  {}

  /** What the yanked lines' first row is, and what then the last one is cut back to. */
  lemma YankRows(rows: seq<Row>, p: Pos, texts: seq<Row>, tchar: nat, D: seq<Row>, D': seq<Row>)
    requires Inside(rows, p) && texts != [] && tchar <= |texts[|texts| - 1]|
    requires D == rows[p.row := rows[p.row][..p.col] + CutLast(texts, tchar)[0]] || (|texts| > 1 && D == rows[p.row := rows[p.row][..p.col] + texts[0]])
    requires D' == D[..p.row + 1] + texts[1..] + D[p.row + 1..]
    ensures var e := EndOf(p, CutLast(texts, tchar));
      && e.row == p.row + |texts| - 1 && e.col == (if |texts| == 1 then p.col + tchar else tchar)
      && e.col <= |D'[e.row]| && D'[e.row][..e.col] == (if |texts| == 1 then rows[p.row][..p.col] + texts[0][..tchar] else texts[|texts| - 1][..tchar])
  {}

  lemma YankDone(rows: seq<Row>, rows': seq<Row>, mp: seq<Pos>, mp': seq<Pos>, p: Pos, texts: seq<Row>, tchar: nat, D: seq<Row>)
    requires Inside(rows, p) && (forall i :: 0 <= i < |mp| ==> Inside(rows, mp[i])) && texts != [] && tchar <= |texts[|texts| - 1]|
    requires D == rows[p.row := rows[p.row][..p.col] + CutLast(texts, tchar)[0]]
    requires var D' := D[..p.row + 1] + texts[1..] + D[p.row + 1..];
      var e := EndOf(p, CutLast(texts, tchar));
      && e.row < |D'| && e.col <= |D'[e.row]| && rows' == D'[e.row := D'[e.row][..e.col] + rows[p.row][p.col..]]
    requires |mp'| == |mp| && forall i :: 0 <= i < |mp| ==> mp'[i] == IFixed(Opened(mp, p.row, |texts| - 1)[i], p, EndOf(p, CutLast(texts, tchar)))
    ensures Replaced(rows, rows', p, p, CutLast(texts, tchar), mp, mp', EndOf(p, CutLast(texts, tchar)))
    ensures forall i :: 0 <= i < |mp'| ==> Inside(rows', mp'[i])
  {
    var new', head, tail := CutLast(texts, tchar), rows[p.row][..p.col], rows[p.row][p.col..];
    var mid := Around(head, new', tail);
    YankRows(rows, p, texts, tchar, D, D[..p.row + 1] + texts[1..] + D[p.row + 1..]);
    assert rows' == rows[..p.row] + mid + rows[p.row + 1..];
    forall i | 0 <= i < |mp| ensures mp'[i] == MovedPos(mp[i], p, p, EndOf(p, new')) && Inside(rows', mp'[i]) {
      MovedRule(rows, p, p, new', mp[i]);
    }
  }

  lemma DiskInsert(rows: seq<Row>, at: nat, text: Row, k: nat, s: Row)
    requires at < |rows| && k <= |rows|
    ensures Bump(at, k) < |Insert(rows, k, [])| && Insert(rows, k, [])[Bump(at, k) := text][k := s] == Insert(rows[at := text], k, s)
  {}

  lemma RowClean(rows: seq<Row>, size: nat, k: nat)
    requires Clean(rows, size) && k < |rows|
    ensures Fits(rows[k], size)
  {}

  lemma SomeLines(D: seq<Row>, texts: seq<Row>, mp: seq<Pos>, r: nat)
    requires r < |D| && texts != []
    ensures D == D[..r + 1] + texts[1..1] + D[r + 1..] && mp == Opened(mp, r, 0)
  {}

  lemma OneMoreText(D: seq<Row>, texts: seq<Row>, mp: seq<Pos>, r: nat, j: nat)
    requires r < |D| && 1 <= j < |texts|
    ensures |D[..r + 1] + texts[1..j] + D[r + 1..]| >= r + j
    ensures Insert(D[..r + 1] + texts[1..j] + D[r + 1..], r + j, texts[j]) == D[..r + 1] + texts[1..j + 1] + D[r + 1..]
    ensures Shifted(Opened(mp, r, j - 1), r + j) == Opened(mp, r, j)
  {}

  lemma StillOut(sl: seq<Line>, ls: seq<Line>, ls': seq<Line>, l: Line)
    requires forall k :: 0 <= k < |sl| ==> sl[k] !in ls
    requires l !in sl && forall i :: 0 <= i < |ls'| ==> ls'[i] in ls || ls'[i] == l
    ensures forall k :: 0 <= k < |sl| ==> sl[k] !in ls'
  {}

  /** What ins_str_wrap puts in, if there is room for it. */
  datatype Wrap = Room(s: seq<Ch>) | Full

  function Prefixed(s: seq<Ch>, w: Wrap): Wrap { if w.Full? then Full else Room(s + w.s) }

  /** `llen` is the length of the line that is being put in, `tail` what stands behind the dot. */
  function Wrapped(str: seq<Ch>, llen: nat, tail: nat, ok_nl: bool, off: nat, size: nat): Wrap
    decreases |str|
  {
    if str == [] then Room([])
    else
      var c := str[0];
      var brk := c == NEWLINE || (ok_nl && llen >= off);
      var l := if brk then tail else llen;
      var nl := if brk then [NEWLINE] else [];
      if c == NEWLINE then Prefixed(nl, Wrapped(str[1..], l, tail, ok_nl, off, size))
      else if l + 1 >= size then Full
      else Prefixed(nl + [c], Wrapped(str[1..], l + 1, tail, ok_nl, off, size))
  }

  lemma WrappedNone(llen: nat, tail: nat, ok_nl: bool, off: nat, size: nat)
    ensures Wrapped([], llen, tail, ok_nl, off, size) == Room([])
  {}

  lemma WrappedStep(str: seq<Ch>, i: nat, llen: nat, tail: nat, ok_nl: bool, off: nat, size: nat, before: seq<Ch>)
    requires i < |str|
    ensures var c := str[i];
      var brk := c == NEWLINE || (ok_nl && llen >= off);
      var l := if brk then tail else llen;
      var w := Prefixed(before, Wrapped(str[i..], llen, tail, ok_nl, off, size));
      && (c == NEWLINE ==> w == Prefixed(before + [NEWLINE], Wrapped(str[i + 1..], l, tail, ok_nl, off, size)))
      && (c != NEWLINE && l + 1 >= size ==> w == Full)
      && (c != NEWLINE && l + 1 < size && brk ==> w == Prefixed(before + [NEWLINE] + [c], Wrapped(str[i + 1..], l + 1, tail, ok_nl, off, size)))
      && (c != NEWLINE && l + 1 < size && !brk ==> w == Prefixed(before + [c], Wrapped(str[i + 1..], l + 1, tail, ok_nl, off, size)))
  {
    hide Prefixed;
    PrefixedFull(before);
    assert str[i..][1..] == str[i + 1..];
    var l := if str[i] == NEWLINE || (ok_nl && llen >= off) then tail else llen;
    PrefixedTwice(before, [NEWLINE], Wrapped(str[i + 1..], l, tail, ok_nl, off, size));
    PrefixedTwice(before, [str[i]], Wrapped(str[i + 1..], l + 1, tail, ok_nl, off, size));
    PrefixedTwice(before, [NEWLINE] + [str[i]], Wrapped(str[i + 1..], l + 1, tail, ok_nl, off, size));
    assert before + [NEWLINE] + [str[i]] == before + ([NEWLINE] + [str[i]]);
    assert [] + [str[i]] == [str[i]];
  }

  lemma PrefixedStart()
    ensures forall w {:trigger Prefixed([], w)} :: Prefixed([], w) == w
    ensures forall a {:trigger Prefixed(a, Full)} :: Prefixed(a, Full) == Full
  {}

  lemma PrefixedNone(a: seq<Ch>)
    ensures Prefixed(a, Room([])) == Room(a)
  {}

  lemma PrefixedFull(a: seq<Ch>)
    ensures Prefixed(a, Full) == Full
  {}

  lemma PrefixedTwice(a: seq<Ch>, b: seq<Ch>, w: Wrap)
    ensures Prefixed(a, Prefixed(b, w)) == Prefixed(a + b, w)
  {
    if w.Room? { assert a + (b + w.s) == a + b + w.s; }
  }

  /** Without wrapping it is the string itself that comes in; without newlines it comes in if the line stays short enough. */
  lemma {:induction false} WrappedPlain(str: seq<Ch>, llen: nat, tail: nat, off: nat, size: nat)
    ensures var w := Wrapped(str, llen, tail, false, off, size);
      && (w.Room? ==> w.s == str)
      && (NEWLINE !in str ==> (w.Room? <==> str == [] || llen + |str| < size))
    decreases |str|
  {
    if str != [] {
      WrappedPlain(str[1..], if str[0] == NEWLINE then tail else llen + 1, tail, off, size);
    }
  }

  lemma OneCopy(c: Ch, rows: seq<Row>, at: nat, col: nat, pend: Row)
    requires at < |rows| && col <= |rows[at]|
    ensures var row := rows[at][..col] + pend + rows[at][col..];
      && col + |pend| <= |row|
      && row[..col + |pend|] + Copies(c, 1) + row[col + |pend|..] == rows[at][..col] + (pend + [c]) + rows[at][col..]
  {
    var row := rows[at][..col] + pend + rows[at][col..];
    assert Copies(c, 1) == [c];
    assert row[..col + |pend|] == rows[at][..col] + pend && row[col + |pend|..] == rows[at][col..];
  }

  /** Since the text was `rows`, `done` has come in at offset `o`, the dot is behind it, and the marks
      have moved as they should. */
  ghost predicate Spliced(rows: seq<Row>, mp: seq<Pos>, o: nat, done: seq<Ch>, rows': seq<Row>, mp': seq<Pos>, dot: Pos) {
    && o <= |Flat(rows)| && Flat(rows') == Splice(Flat(rows), o, o, done)
    && Inside(rows', dot) && Off(rows', dot) == o + |done|
    && |mp'| == |mp| && forall i :: 0 <= i < |mp| ==>
         Inside(rows, mp[i]) && Inside(rows', mp'[i]) && Off(rows', mp'[i]) == Moved(Off(rows, mp[i]), o, o, |done|)
  }

  lemma SplicedNone(rows: seq<Row>, mp: seq<Pos>, dot: Pos)
    requires Inside(rows, dot) && forall i :: 0 <= i < |mp| ==> Inside(rows, mp[i])
    ensures Spliced(rows, mp, Off(rows, dot), [], rows, mp, dot)
  {
    FlatAt(rows, dot);
  }

  lemma SplicedMore(rows0: seq<Row>, mp0: seq<Pos>, o: nat, done: seq<Ch>, rows1: seq<Row>, mp1: seq<Pos>, p: Pos,
                    new': seq<Row>, rows: seq<Row>, mp: seq<Pos>, dot: Pos)
    requires Spliced(rows0, mp0, o, done, rows1, mp1, p) && Replaced(rows1, rows, p, p, new', mp1, mp, dot)
    requires forall i :: 0 <= i < |mp1| ==> Inside(rows1, mp1[i])
    ensures Spliced(rows0, mp0, o, done + Flat(new'), rows, mp, dot)
  {
    hide Flat, Start, Replaced;
    ReplacedFlat(rows1, rows, p, p, new', mp1, mp, dot);
    var s0, s1, f := Flat(rows0), Flat(rows1), Flat(new');
    TwoSplices(s0, o, done, f);
  }

  lemma TwoSplices(s: seq<Ch>, o: nat, a: seq<Ch>, b: seq<Ch>)
    requires o <= |s|
    ensures Splice(Splice(s, o, o, a), o + |a|, o + |a|, b) == Splice(s, o, o, a + b)
  {
    var t := Splice(s, o, o, a);
    assert t[..o + |a|] == s[..o] + a && t[o + |a|..] == s[o..];
  }

  lemma TwoLines(rows: seq<Row>, rows': seq<Row>, mp: seq<Pos>, mp': seq<Pos>, p: Pos, dot: Pos)
    requires Replaced(rows, rows', p, p, Lines(2), mp, mp', dot)
    ensures Flat(Lines(2)) == [NEWLINE] && dot == Pos(p.row + 1, 0) && dot.row < |rows'| && |rows'[dot.row]| == |rows[p.row]| - p.col
  {
    assert Lines(2)[1..] == [[]];
    assert Flat(Lines(2)) == [] + [NEWLINE] + Flat([[]]);
  }

  lemma WithoutIgnores(rows: seq<Row>, r1: nat, r2: nat, x: Row)
    requires r1 < r2 < |rows|
    ensures Without(rows[r2 := x], r1, r2) == Without(rows, r1, r2)
  {}

  lemma GoneFrom(ls: seq<Line>, r1: nat, r2: nat)
    requires Linked(ls) && r1 < r2 < |ls|
    ensures forall k :: r1 < k <= r2 ==> ls[k] !in Without(ls, r1, r2)
  {
    forall k, j | r1 < k <= r2 && 0 <= j < |Without(ls, r1, r2)| ensures Without(ls, r1, r2)[j] != ls[k] {
      WithoutAt(ls, r1, r2, j);
      Different(ls, if j <= r1 then j else j + (r2 - r1), k);
    }
  }

  lemma NotWithin(ls: seq<Line>, r1: nat, r2: nat, l: Line)
    requires r1 <= r2 < |ls| && l !in ls
    ensures l !in Without(ls, r1, r2)
  {}

  lemma OnlyFrom(ls: seq<Line>, r1: nat, r2: nat)
    requires r1 <= r2 < |ls|
    ensures forall i :: 0 <= i < |Without(ls, r1, r2)| ==> Without(ls, r1, r2)[i] in ls
  {
    forall i: nat | i < |Without(ls, r1, r2)| ensures Without(ls, r1, r2)[i] in ls {
      WithoutAt(ls, r1, r2, i);
    }
  }

  lemma OneChain(l: Line, rows: seq<Row>, p: Pos, q: Pos)
    requires Inside(rows, p) && Inside(rows, q) && AtOrBefore(p, q) && p.row == q.row
    requires l.l_next == null && l.l_dline == Between(rows, p, q)[0]
    ensures Chain([l], Between(rows, p, q))
  {
    assert ChainAt([l], Between(rows, p, q), 0);
  }

  /** What is known of the lines behind `p` up to `q` when they have been taken out. */
  ghost predicate TakenAt(ls: seq<Line>, rows: seq<Row>, p: Pos, q: Pos, k: nat)
    requires Inside(rows, p) && Inside(rows, q) && p.row < k <= q.row < |ls|
    reads ls`l_next, ls`l_dline
  {
    && ls[k].l_next == (if k < q.row then Next(ls, k) else null)
    && ls[k].l_dline == (if k == q.row then rows[k][..q.col] else rows[k])
  }

  lemma LastDiffers(ls: seq<Line>, r1: nat, r2: nat)
    requires Distinct(ls) && r1 < r2 < |ls|
    ensures forall k :: r1 < k < r2 ==> ls[k] != ls[r2]
  {}

  lemma TakenLines(ls: seq<Line>, rows: seq<Row>, p: Pos, q: Pos)
    requires Inside(rows, p) && Inside(rows, q) && p.row < q.row < |ls|
    requires ls[q.row].l_next == null && forall k :: p.row < k < q.row ==> ls[k].l_next == Next(ls, k)
    requires forall k :: p.row < k <= q.row ==> ls[k].l_dline == (if k == q.row then rows[k][..q.col] else rows[k])
    ensures forall k :: p.row < k <= q.row ==> TakenAt(ls, rows, p, q, k)
  {}

  lemma KilledApart(kl: seq<Line>, ls0: seq<Line>, ls: seq<Line>, r1: nat, r2: nat, l: Line)
    requires r1 < r2 < |ls0| && |kl| == r2 - r1 + 1 && kl[0] == l && l !in ls
    requires forall k :: 0 < k < |kl| ==> kl[k] == ls0[r1 + k]
    requires forall k :: r1 < k <= r2 ==> ls0[k] !in ls
    ensures forall k :: 0 <= k < |kl| ==> kl[k] !in ls && (kl[k] in ls0 || kl[k] == l)
  {
    forall k | 0 <= k < |kl| ensures kl[k] !in ls && (kl[k] in ls0 || kl[k] == l) {
      if k > 0 { assert kl[k] == ls0[r1 + k]; }
    }
  }

  /** `l` and the lines behind `p` up to `q` are a list of what is between `p` and `q`. */
  lemma CutChain(l: Line, ls: seq<Line>, rows: seq<Row>, p: Pos, q: Pos) returns (kl: seq<Line>)
    requires Inside(rows, p) && Inside(rows, q) && p.row < q.row < |ls| && Distinct(ls) && l !in ls
    requires l.l_next == ls[p.row + 1] && l.l_dline == Between(rows, p, q)[0]
    requires forall k :: p.row < k <= q.row ==> TakenAt(ls, rows, p, q, k)
    ensures Chain(kl, Between(rows, p, q)) && kl[0] == l && |kl| == q.row - p.row + 1
    ensures forall k :: 0 < k < |kl| ==> kl[k] == ls[p.row + k]
  {
    hide Distinct, Between, TakenAt, ChainAt;
    kl := [l] + ls[p.row + 1..q.row + 1];
    BetweenAt(rows, p, q, 0);
    forall k: nat | k < |kl| ensures ChainAt(kl, Between(rows, p, q), k) {
      CutAt(l, ls, rows, p, q, kl, k);
    }
    CutDistinct(l, ls, p.row, q.row);
  }

  lemma CutAt(l: Line, ls: seq<Line>, rows: seq<Row>, p: Pos, q: Pos, kl: seq<Line>, k: nat)
    requires Inside(rows, p) && Inside(rows, q) && p.row < q.row < |ls| && kl == [l] + ls[p.row + 1..q.row + 1] && k < |kl|
    requires if k == 0 then l.l_next == ls[p.row + 1] && l.l_dline == Between(rows, p, q)[0] else TakenAt(ls, rows, p, q, p.row + k)
    ensures |Between(rows, p, q)| == |kl| && ChainAt(kl, Between(rows, p, q), k)
  {
    hide Between;
    BetweenAt(rows, p, q, k);
    var j := p.row + k;
    if k > 0 { assert kl[k] == ls[j]; }
    if k + 1 < |kl| { assert kl[k + 1] == ls[j + 1]; }
  }

  lemma BetweenAt(rows: seq<Row>, p: Pos, q: Pos, k: nat)
    requires Inside(rows, p) && Inside(rows, q) && p.row < q.row && k <= q.row - p.row
    ensures |Between(rows, p, q)| == q.row - p.row + 1
    ensures k > 0 ==> Between(rows, p, q)[k] == if p.row + k == q.row then rows[q.row][..q.col] else rows[p.row + k]
  {}

  lemma CutDistinct(l: Line, ls: seq<Line>, r1: nat, r2: nat)
    requires Distinct(ls) && l !in ls && r1 < r2 < |ls|
    ensures Distinct([l] + ls[r1 + 1..r2 + 1])
  {}

  lemma FitsCut(s: Row, n: nat, size: nat)
    requires Fits(s, size) && n <= |s|
    ensures Fits(s[..n], size)
  {}

  lemma BetweenFirst(rows: seq<Row>, p: Pos, q: Pos)
    requires Inside(rows, p) && Inside(rows, q) && AtOrBefore(p, q)
    ensures Between(rows, p, q)[0] == if p.row == q.row then rows[p.row][p.col..q.col] else rows[p.row][p.col..]
  {}

  datatype Deleted = Gone | Refused | NoRoom

  /** Lines linked forward, and their texts. */
  ghost predicate Chain(kl: seq<Line>, texts: seq<Row>)
    reads kl`l_next, kl`l_dline
  {
    kl != [] && |texts| == |kl| && Distinct(kl) && forall k :: 0 <= k < |kl| ==> ChainAt(kl, texts, k)
  }

  ghost predicate ChainAt(kl: seq<Line>, texts: seq<Row>, k: nat)
    requires k < |kl| == |texts|
    reads kl`l_next, kl`l_dline
  {
    kl[k].l_next == Next(kl, k) && kl[k].l_dline == texts[k]
  }

  lemma NoneGone(rows: seq<Row>, mp: seq<Pos>, r: nat)
    requires r < |rows|
    ensures Without(rows, r, r) == rows && Closed(mp, r, r) == mp
  {}

  lemma DFixedOut(mp: seq<Pos>, mp': seq<Pos>, p: Pos, q: Pos)
    requires |mp'| == |mp| && (forall i :: 0 <= i < |mp| ==> mp'[i] == DFixed(mp[i], p, q))
    ensures forall i :: 0 <= i < |mp'| ==> !(p.row < mp'[i].row <= q.row)
  {}

  /** patchup and the removal of the lines are a deletion. */
  lemma DeleteDone(rows: seq<Row>, rows1: seq<Row>, rows': seq<Row>, mp: seq<Pos>, mp1: seq<Pos>, mp': seq<Pos>, p: Pos, q: Pos)
    requires Inside(rows, p) && Inside(rows, q) && AtOrBefore(p, q) && (forall i :: 0 <= i < |mp| ==> Inside(rows, mp[i]))
    requires |rows1| == |rows| && rows1 == rows[p.row := rows[p.row][..p.col] + rows[q.row][q.col..]]
    requires |mp1| == |mp| && (forall i :: 0 <= i < |mp| ==> mp1[i] == DFixed(mp[i], p, q))
    requires rows' == Without(rows1, p.row, q.row) && mp' == Closed(mp1, p.row, q.row)
    ensures Inside(rows', p) && Replaced(rows, rows', p, q, [[]], mp, mp', p) && forall i :: 0 <= i < |mp'| ==> Inside(rows', mp'[i])
  {
    var head, tail := rows[p.row][..p.col], rows[q.row][q.col..];
    assert Around(head, [[]], tail) == [head + [] + tail] && head + [] + tail == head + tail;
    assert rows' == rows[..p.row] + [head + tail] + rows[q.row + 1..];
    forall i | 0 <= i < |mp| ensures mp'[i] == MovedPos(mp[i], p, q, p) && Inside(rows', mp'[i]) {
      if mp[i].row > q.row { assert rows'[mp'[i].row] == rows[mp[i].row]; }
    }
  }

  function Clamped(o: int, n: nat): nat { if o < 0 then 0 else if o > n then n else o }

  lemma StartZero(rows: seq<Row>)
    ensures Start(rows, 0) == 0
  {}

  /** The neighbours of line `k`, and whether they are line `e`. */
  lemma Walk(ls: seq<Line>, k: int, e: nat)
    requires Linked(ls) && 0 <= k < |ls| && e < |ls|
    ensures ls[k].l_next == Next(ls, k) && ls[k].l_prev == Next(ls, k - 2)
    ensures Next(ls, k) == ls[e] <==> e == k + 1
    ensures Next(ls, k - 2) == ls[e] <==> e == k - 1
  {
    LineAt(ls, k);
    if k + 1 < |ls| { SameIndex(ls, k + 1, e); }
    if k > 0 { SameIndex(ls, k - 1, e); }
  }

  /** `s` without what is behind `r1` up to `r2`. */
  function Without<T>(s: seq<T>, r1: nat, r2: nat): (r: seq<T>)
    requires r1 <= r2 < |s|
  {
    s[..r1 + 1] + s[r2 + 1..]
  }

  /** Positions when the rows behind `r1` up to `r2` have gone. */
  function Closed(mp: seq<Pos>, r1: nat, r2: nat): (m: seq<Pos>)
    requires r1 <= r2
    ensures |m| == |mp| && forall j :: 0 <= j < |mp| ==> m[j] == if mp[j].row > r2 then Pos(mp[j].row - (r2 - r1), mp[j].col) else mp[j]
  {
    seq(|mp|, j requires 0 <= j < |mp| => if mp[j].row > r2 then Pos(mp[j].row - (r2 - r1), mp[j].col) else mp[j])
  }

  lemma WithoutAt<T>(s: seq<T>, r1: nat, r2: nat, j: nat)
    requires r1 <= r2 < |s| && j < |s| - (r2 - r1)
    ensures |Without(s, r1, r2)| == |s| - (r2 - r1)
    ensures Without(s, r1, r2)[j] == if j <= r1 then s[j] else s[j + (r2 - r1)]
  {}

  lemma DistinctWithout<T>(s: seq<T>, r1: nat, r2: nat)
    requires Distinct(s) && r1 <= r2 < |s|
    ensures Distinct(Without(s, r1, r2))
  {}

  lemma StoredWithout(ls: seq<Line>, rows: seq<Row>, at: nat, r1: nat, r2: nat)
    requires Stored(ls, rows, at) && r1 <= r2 < |ls| && at == r1
    ensures |ls| == |rows| && Stored(Without(ls, r1, r2), Without(rows, r1, r2), at)
  {}

  lemma MarkedWithout(ms: seq<Mark>, mp: seq<Pos>, ls: seq<Line>, r1: nat, r2: nat)
    requires Marked(ms, mp, ls) && r1 <= r2 < |ls| && forall i :: 0 <= i < |mp| ==> !(r1 < mp[i].row <= r2)
    ensures Marked(ms, Closed(mp, r1, r2), Without(ls, r1, r2))
  {
    hide Distinct, Without;
    forall j: nat | j < |ms| ensures MarkedAt(ms, Closed(mp, r1, r2), Without(ls, r1, r2), j) {
      assert MarkedAt(ms, mp, ls, j);
      WithoutAt(ls, r1, r2, Closed(mp, r1, r2)[j].row);
    }
  }

  lemma CleanWithout(rows: seq<Row>, size: nat, r1: nat, r2: nat)
    requires Clean(rows, size) && r1 <= r2 < |rows|
    ensures Clean(Without(rows, r1, r2), size)
  {}

  lemma HeadKept(was: seq<Ch>, buf: seq<Ch>, s: Row, n: nat, from: Row)
    requires Holds(was, s) && n <= |s| && n + |from| < |buf| == |was| && buf[..n] == was[..n]
    requires buf[n..n + |from|] == from && buf[n + |from|] == 0
    ensures Holds(buf, s[..n] + from)
  {
    assert was[..n] == was[..|s|][..n];
    assert buf[..n + |from|] == buf[..n] + buf[n..n + |from|];
  }

  lemma FitsJoin(s: Row, n: nat, from: Row, size: nat)
    requires Fits(s, size) && n <= |s| && 0 !in from && n + |from| < size
    ensures Fits(s[..n] + from, size)
  {}

  /** The loop of linecopy. */
  method CopyTo(onto: array<Ch>, atchar: nat, from: Row) returns (ok: bool)
    requires atchar <= onto.Length
    modifies onto
    ensures ok == (atchar + |from| < onto.Length)
    ensures ok ==> onto[..atchar] == old(onto[..atchar]) && onto[atchar..atchar + |from|] == from && onto[atchar + |from|] == 0
  {
    var k := 0;
    while true
      invariant 0 <= k <= |from| && atchar + k <= onto.Length
      invariant onto[..atchar] == old(onto[..atchar]) && onto[atchar..atchar + k] == from[..k]
      decreases |from| - k
    {
      if atchar + k >= onto.Length { return false; }
      var c := if k < |from| then from[k] else 0;
      onto[atchar + k] := c;
      if c == 0 && k == |from| { break; }
      k := k + 1;
    }
    assert from[..k] == from;
    ok := true;
  }

  /** ins_c: `num` copies of `c` come in at `atchar`; everything is moved and filled from the right. */
  method ins_c(c: Ch, buf: array<Ch>, atchar: nat, num: int, max: nat, ghost s: Row) returns (ok: bool)
    requires Holds(buf[..], s) && 0 !in s && atchar <= |s| && c != 0 && max <= buf.Length
    modifies buf
    ensures ok == (num <= 0 || |s| + num < max)
    ensures ok && num > 0 ==> Holds(buf[..], s[..atchar] + Copies(c, num) + s[atchar..]) && 0 !in s[..atchar] + Copies(c, num) + s[atchar..]
    ensures !ok || num <= 0 ==> buf[..] == old(buf[..])
  {
    ok := true;
    if num <= 0 { return; }
    var n := StrLen(buf, atchar, s);
    var taillen := n + 1;  // with its NUL
    if atchar + taillen + num > max { return false; }
    ghost var was := buf[..];
    MoveRight(buf, atchar, taillen, num);
    Fill(buf, atchar, num, c);
    Inserted(was, buf[..], s, s[..atchar] + Copies(c, num) + s[atchar..], atchar, num, c);
  }

  /** The length of the string from `from` on. */
  method StrLen(buf: array<Ch>, from: nat, ghost s: Row) returns (n: nat)
    requires Holds(buf[..], s) && 0 !in s && from <= |s|
    ensures n == |s| - from
  {
    n := 0;
    while buf[from + n] != 0
      invariant n <= |s| - from
      decreases |s| - n
    {
      AtNul(buf[..], s, from + n);
      n := n + 1;
    }
    AtNul(buf[..], s, from + n);
  }

  /** The tail moves `num` places to the right, its last character first. */
  method MoveRight(buf: array<Ch>, atchar: nat, taillen0: nat, num: nat)
    requires atchar + taillen0 + num <= buf.Length
    modifies buf
    ensures forall j :: 0 <= j < atchar ==> buf[j] == old(buf[j])
    ensures forall j :: atchar <= j < atchar + taillen0 ==> buf[j + num] == old(buf[j])
  {
    var taillen := taillen0;
    while taillen > 0
      invariant 0 <= taillen <= taillen0
      invariant forall j :: 0 <= j < atchar + taillen ==> buf[j] == old(buf[j])
      invariant forall j :: atchar + taillen <= j < atchar + taillen0 ==> buf[j + num] == old(buf[j])
    {
      taillen := taillen - 1;
      buf[atchar + taillen + num] := buf[atchar + taillen];
    }
  }

  method Fill(buf: array<Ch>, atchar: nat, num: nat, c: Ch)
    requires atchar + num <= buf.Length
    modifies buf
    ensures forall j :: 0 <= j < buf.Length ==> buf[j] == if atchar <= j < atchar + num then c else old(buf[j])
  {
    var dst := atchar + num;
    while dst != atchar
      invariant atchar <= dst <= atchar + num
      invariant forall j :: 0 <= j < buf.Length ==> buf[j] == if dst <= j < atchar + num then c else old(buf[j])
      decreases dst - atchar
    {
      dst := dst - 1;
      buf[dst] := c;
    }
  }

  /** `n` times the character `c`. */
  function Copies(c: Ch, n: nat): (r: Row)
    ensures |r| == n && forall k :: 0 <= k < n ==> r[k] == c
  {
    seq(n, k => c)
  }

  lemma CopiesLength(c: Ch, n: nat)
    ensures |Copies(c, n)| == n
  {}

  lemma Inserted(was: seq<Ch>, buf: seq<Ch>, s: Row, s': Row, at: nat, num: nat, c: Ch)
    requires Holds(was, s) && |buf| == |was| && at <= |s| && |s| + num < |buf| && s' == s[..at] + Copies(c, num) + s[at..]
    requires forall j :: 0 <= j < at ==> buf[j] == was[j]
    requires forall j :: at <= j <= |s| ==> buf[j + num] == was[j]
    requires forall j :: at <= j < at + num ==> buf[j] == c
    requires 0 !in s && c != 0
    ensures Holds(buf, s') && 0 !in s'
  {
    forall j | 0 <= j < |s'| ensures buf[j] == s'[j] {
      if j < at {
        assert s[j] == was[j];
      } else if j >= at + num {
        assert s[j - num] == was[j - num] && buf[(j - num) + num] == was[j - num];
      }
    }
    assert buf[|s| + num] == was[|s|];
  }

  lemma CleanAt(rows: seq<Row>, size: nat, k: nat)
    requires Clean(rows, size) && k < |rows|
    ensures Fits(rows[k], size)
  {}

  lemma CleanUpdate(rows: seq<Row>, size: nat, k: nat, s: Row)
    requires Clean(rows, size) && k < |rows| && Fits(s, size)
    ensures Clean(rows[k := s], size)
  {}

  /** The rows `new'` have come in at `p` within one row. */
  lemma InsertDone(rows: seq<Row>, rows': seq<Row>, mp: seq<Pos>, mp': seq<Pos>, p: Pos, x: Row)
    requires Inside(rows, p) && (forall i :: 0 <= i < |mp| ==> Inside(rows, mp[i]))
    requires rows' == rows[p.row := rows[p.row][..p.col] + x + rows[p.row][p.col..]]
    requires |mp'| == |mp| && forall i :: 0 <= i < |mp| ==> mp'[i] == IFixed(mp[i], p, Pos(p.row, p.col + |x|))
    ensures Replaced(rows, rows', p, p, [x], mp, mp', Pos(p.row, p.col + |x|))
    ensures forall i :: 0 <= i < |mp'| ==> Inside(rows', mp'[i])
  {
    assert rows' == rows[..p.row] + Around(rows[p.row][..p.col], [x], rows[p.row][p.col..]) + rows[p.row + 1..];
  }

  /** `n` empty rows. */
  function Lines(n: nat): (r: seq<Row>)
    ensures |r| == n && forall k :: 0 <= k < n ==> r[k] == []
  {
    seq(n, k => [])
  }

  /** Positions when `n` rows have come in behind row `r`. */
  function Opened(mp: seq<Pos>, r: nat, n: nat): (m: seq<Pos>)
    ensures |m| == |mp| && forall j :: 0 <= j < |mp| ==> m[j] == if mp[j].row > r then Pos(mp[j].row + n, mp[j].col) else mp[j]
  {
    seq(|mp|, j requires 0 <= j < |mp| => if mp[j].row > r then Pos(mp[j].row + n, mp[j].col) else mp[j])
  }

  lemma NoLines(rows: seq<Row>, mp: seq<Pos>, r: nat)
    requires r < |rows|
    ensures rows == rows[..r + 1] + Lines(0) + rows[r + 1..] && mp == Opened(mp, r, 0)
  {}

  lemma OneMoreLine(rows: seq<Row>, mp: seq<Pos>, r: nat, n: nat)
    requires r < |rows|
    ensures Insert(rows[..r + 1] + Lines(n) + rows[r + 1..], r + n + 1, []) == rows[..r + 1] + Lines(n + 1) + rows[r + 1..]
    ensures Shifted(Opened(mp, r, n), r + n + 1) == Opened(mp, r, n + 1)
  {}

  /** What is between `p` and `q` has been replaced by the rows `new'`, the marks have moved as they
      should, and the dot is behind what has come in. */
  ghost predicate Replaced(rows: seq<Row>, rows': seq<Row>, p: Pos, q: Pos, new': seq<Row>, mp: seq<Pos>, mp': seq<Pos>, dot: Pos) {
    && Inside(rows, p) && Inside(rows, q) && AtOrBefore(p, q) && new' != [] && dot == EndOf(p, new')
    && rows' == rows[..p.row] + Around(rows[p.row][..p.col], new', rows[q.row][q.col..]) + rows[q.row + 1..]
    && |mp'| == |mp| && forall i :: 0 <= i < |mp| ==> mp'[i] == MovedPos(mp[i], p, q, dot)
  }

  lemma LineInsertDone(rows: seq<Row>, rows': seq<Row>, mp: seq<Pos>, mp': seq<Pos>, p: Pos, num: nat)
    requires Inside(rows, p) && num >= 1 && (forall i :: 0 <= i < |mp| ==> Inside(rows, mp[i]))
    requires rows' == (rows[..p.row + 1] + Lines(num) + rows[p.row + 1..])[p.row := rows[p.row][..p.col]][p.row + num := rows[p.row][p.col..]]
    requires |mp'| == |mp| && forall i :: 0 <= i < |mp| ==> mp'[i] == IFixed(Opened(mp, p.row, num)[i], p, Pos(p.row + num, 0))
    ensures Replaced(rows, rows', p, p, Lines(num + 1), mp, mp', Pos(p.row + num, 0))
    ensures forall i :: 0 <= i < |mp'| ==> Inside(rows', mp'[i])
  {
    var head, tail := rows[p.row][..p.col], rows[p.row][p.col..];
    var mid := Around(head, Lines(num + 1), tail);
    assert head + Lines(num + 1)[0] == head && Lines(num + 1)[num] + tail == tail;
    assert rows' == rows[..p.row] + mid + rows[p.row + 1..];
  }

  /** Where a mark goes in DFixMarks. */
  function DFixed(m: Pos, p: Pos, q: Pos): Pos {
    if m.row < p.row || m.row > q.row || AtOrBefore(m, p) then m
    else if m.row == q.row && m.col > q.col then Pos(p.row, m.col - q.col + p.col)
    else p
  }

  lemma NextOnce(ls: seq<Line>, a: int, b: nat)
    requires Linked(ls) && -1 <= a < |ls| && b < |ls|
    ensures Next(ls, a) == Next(ls, b) <==> a == b
  {
    if 0 <= a + 1 < |ls| && b + 1 < |ls| { SameIndex(ls, a + 1, b + 1); }
  }

  lemma LineAt(ls: seq<Line>, k: nat)
    requires Linked(ls) && k < |ls|
    ensures ls[k].l_next == Next(ls, k) && ls[k].l_prev == Prev(ls, k)
  {
    assert LinkedAt(ls, k);
  }

  /** Where a mark goes in IFixMarks. */
  function IFixed(m: Pos, p: Pos, q: Pos): Pos {
    if m.row == p.row && m.col > p.col then Pos(q.row, m.col - p.col + q.col) else m
  }

  lemma SameIndex(ls: seq<Line>, j: nat, k: nat)
    requires Linked(ls) && j < |ls| && k < |ls|
    ensures ls[j] == ls[k] <==> j == k
  {}

  lemma MarkAt(ms: seq<Mark>, mp: seq<Pos>, ls: seq<Line>, i: nat)
    requires Marked(ms, mp, ls)
    ensures |mp| == |ms|
    ensures i < |ms| ==> ms[i].m_next == NextMark(ms, i) && mp[i].row < |ls| && ms[i].m_line == ls[mp[i].row] && ms[i].m_char == mp[i].col
  {
    if i < |ms| { assert MarkedAt(ms, mp, ls, i); }
  }

  lemma HoldsPositive(buf: seq<Ch>, s: seq<Ch>)
    requires Holds(buf, s)
    ensures |buf| > 0
  {}

  /** The number of what was number `at`, when something comes in as number `k`. */
  function Bump(at: nat, k: nat): nat { if at >= k then at + 1 else at }

  lemma InsertFacts<T>(s: seq<T>, k: nat, x: T, at: nat)
    requires k <= |s| && at < |s|
    ensures |Insert(s, k, x)| == |s| + 1 && Bump(at, k) <= |s| && Insert(s, k, x)[Bump(at, k)] == s[at]
  {}

  lemma StoredInsert(ls: seq<Line>, rows: seq<Row>, at: nat, k: nat, l: Line)
    requires Stored(ls, rows, at) && k <= |ls| && l.l_dline == []
    ensures Stored(Insert(ls, k, l), Insert(rows, k, []), Bump(at, k))
  {}

  lemma MarkedInsert(ms: seq<Mark>, mp: seq<Pos>, ls: seq<Line>, k: nat, l: Line)
    requires Marked(ms, mp, ls) && k <= |ls|
    ensures Marked(ms, Shifted(mp, k), Insert(ls, k, l))
  {
    hide Distinct, Insert;
    forall j: nat | j < |ms| ensures MarkedAt(ms, Shifted(mp, k), Insert(ls, k, l), j) {
      assert MarkedAt(ms, mp, ls, j);
      InsertAt(ls, k, l, Shifted(mp, k)[j].row);
    }
  }

  lemma CleanInsert(rows: seq<Row>, size: nat, k: nat)
    requires Clean(rows, size) && k <= |rows| && size > 0
    ensures Clean(Insert(rows, k, []), size)
  {}

  /** Positions when a row has come in as number `k`. */
  function Shifted(mp: seq<Pos>, k: nat): (r: seq<Pos>)
    ensures |r| == |mp| && forall j :: 0 <= j < |mp| ==> r[j] == if mp[j].row >= k then Pos(mp[j].row + 1, mp[j].col) else mp[j]
  {
    seq(|mp|, j requires 0 <= j < |mp| => if mp[j].row >= k then Pos(mp[j].row + 1, mp[j].col) else mp[j])
  }

  /** The same as one string: the text is spliced, and every mark moves by the one rule. */
  lemma ReplacedFlat(rows: seq<Row>, rows': seq<Row>, p: Pos, q: Pos, new': seq<Row>, mp: seq<Pos>, mp': seq<Pos>, dot: Pos)
    requires Replaced(rows, rows', p, q, new', mp, mp', dot) && forall i :: 0 <= i < |mp| ==> Inside(rows, mp[i])
    ensures Off(rows, p) <= Off(rows, q) <= |Flat(rows)|
    ensures Flat(rows') == Splice(Flat(rows), Off(rows, p), Off(rows, q), Flat(new'))
    ensures Inside(rows', dot) && Off(rows', dot) == Off(rows, p) + |Flat(new')|
    ensures |mp'| == |mp| && forall i :: 0 <= i < |mp| ==>
      Inside(rows', mp'[i]) && Off(rows', mp'[i]) == Moved(Off(rows, mp[i]), Off(rows, p), Off(rows, q), |Flat(new')|)
  {
    hide Flat, Start, Around;
    SpliceRows(rows, p, q, Around(rows[p.row][..p.col], new', rows[q.row][q.col..]), new');
    forall i | 0 <= i < |mp|
      ensures Inside(rows', mp'[i]) && Off(rows', mp'[i]) == Moved(Off(rows, mp[i]), Off(rows, p), Off(rows, q), |Flat(new')|) {
      MovedRule(rows, p, q, new', mp[i]);
    }
    EndRule(rows, p, q, new');
  }
}
