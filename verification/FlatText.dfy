/** A buffer's text as rows and as one string, and how positions move when it is edited. */
module FlatText {
  import opened CString

  const NEWLINE: Ch := 10

  type Row = seq<Ch>

  /** A place in the text: between the characters of a row. */
  datatype Pos = Pos(row: nat, col: nat)

  /** The rows as one string, a newline between one row and the next. */
  function Flat(rows: seq<Row>): seq<Ch> {
    if rows == [] then []
    else if |rows| == 1 then rows[0]
    else rows[0] + [NEWLINE] + Flat(rows[1..])
  }

  /** Where row `k` starts. */
  function Start(rows: seq<Row>, k: nat): nat
    requires k <= |rows|
    decreases k
  {
    if k == 0 then 0 else Start(rows, k - 1) + |rows[k - 1]| + 1
  }

  predicate Inside(rows: seq<Row>, p: Pos) { p.row < |rows| && p.col <= |rows[p.row]| }

  function Off(rows: seq<Row>, p: Pos): nat
    requires Inside(rows, p)
  {
    Start(rows, p.row) + p.col
  }

  predicate AtOrBefore(p: Pos, q: Pos) { p.row < q.row || (p.row == q.row && p.col <= q.col) }

  /** The characters from `p` up to `q` are replaced by `new'`. */
  function Splice(s: seq<Ch>, p: nat, q: nat, new': seq<Ch>): seq<Ch>
    requires p <= q <= |s|
  {
    s[..p] + new' + s[q..]
  }

  /** Where a mark goes then: up to `p` it stays, within what is replaced it falls back to `p`,
      and beyond it moves with the text. */
  function Moved(off: nat, p: nat, q: nat, n: nat): nat
    requires p <= q
  {
    if off <= p then off else if p < q && off <= q then p else off - q + p + n
  }

  lemma {:induction false} FlatAppend(a: seq<Row>, b: seq<Row>)
    requires a != [] && b != []
    ensures Flat(a + b) == Flat(a) + [NEWLINE] + Flat(b)
    decreases |a|
  {
    if |a| == 1 {
      assert (a + b)[1..] == b;
    } else {
      assert (a + b)[1..] == a[1..] + b;
      FlatAppend(a[1..], b);
    }
  }

  lemma {:induction false} StartPrefix(a: seq<Row>, b: seq<Row>, k: nat)
    requires k <= |a| && k <= |b| && a[..k] == b[..k]
    ensures Start(a, k) == Start(b, k)
    decreases k
  {
    if k > 0 {
      assert a[..k - 1] == a[..k][..k - 1] && b[..k - 1] == b[..k][..k - 1];
      assert a[k - 1] == a[..k][k - 1] && b[k - 1] == b[..k][k - 1];
      StartPrefix(a, b, k - 1);
    }
  }

  lemma {:induction false} StartAppend(a: seq<Row>, b: seq<Row>, k: nat)
    requires k <= |b|
    ensures Start(a + b, |a| + k) == Start(a, |a|) + Start(b, k)
    decreases k
  {
    if k == 0 {
      assert (a + b)[..|a|] == a[..|a|];
      StartPrefix(a + b, a, |a|);
    } else {
      StartAppend(a, b, k - 1);
      assert (a + b)[|a| + k - 1] == b[k - 1];
    }
  }

  lemma {:induction false} FlatLength(rows: seq<Row>)
    requires rows != []
    ensures |Flat(rows)| + 1 == Start(rows, |rows|)
    decreases |rows|
  {
    if |rows| == 1 {
      assert Start(rows, 1) == Start(rows, 0) + |rows[0]| + 1;
    } else {
      FlatLength(rows[1..]);
      StartAppend([rows[0]], rows[1..], |rows[1..]|);
      assert [rows[0]] + rows[1..] == rows;
      assert Start([rows[0]], 1) == Start([rows[0]], 0) + |rows[0]| + 1;
    }
  }

  /** The string, cut at a row. */
  lemma FlatCut(rows: seq<Row>, k: nat)
    requires k < |rows|
    ensures Start(rows, k) <= |Flat(rows)| && |Flat(rows[k..])| == |Flat(rows)| - Start(rows, k)
    ensures Flat(rows)[Start(rows, k)..] == Flat(rows[k..])
    ensures Flat(rows)[..Start(rows, k)] == if k == 0 then [] else Flat(rows[..k]) + [NEWLINE]
  {
    assert rows[..k] + rows[k..] == rows;
    if k == 0 {
      assert rows[0..] == rows;
    } else {
      FlatAppend(rows[..k], rows[k..]);
      FlatLength(rows[..k]);
      StartPrefix(rows, rows[..k], k);
    }
  }

  /** The text before a position, and the text behind it. */
  lemma FlatAt(rows: seq<Row>, p: Pos)
    requires Inside(rows, p)
    ensures Off(rows, p) <= |Flat(rows)|
    ensures Flat(rows)[Off(rows, p)..] == Flat([rows[p.row][p.col..]] + rows[p.row + 1..])
    ensures Flat(rows)[..Off(rows, p)] == Flat(rows[..p.row] + [rows[p.row][..p.col]])
  {
    FlatAtRow(rows[..p.row], rows[p.row], rows[p.row + 1..], p.col, Start(rows, p.row), Flat(rows)) by {
      assert rows[p.row..] == [rows[p.row]] + rows[p.row + 1..];
      FlatCut(rows, p.row);
    }
  }

  lemma FlatAtRow(above: seq<Row>, r: Row, below: seq<Row>, c: nat, o: nat, s: seq<Ch>)
    requires c <= |r| && o <= |s| && s[o..] == Flat([r] + below) && s[..o] == if |above| == 0 then [] else Flat(above) + [NEWLINE]
    ensures o + c <= |s| && s[o + c..] == Flat([r[c..]] + below) && s[..o + c] == Flat(above + [r[..c]])
  {
    hide *;
    FlatFirst(r, below, c);
    CutTwice(s, o, c, Flat([r] + below));
    HeadFlat(above, r[..c]);
  }

  lemma HeadFlat(a: seq<Row>, head: Row)
    ensures Flat(a + [head]) == (if |a| == 0 then [] else Flat(a) + [NEWLINE]) + head
  {
    FlatOne(head);
    hide Flat;
    if a == [] {
      assert a + [head] == [head] && [] + head == head;
    } else {
      FlatAppend(a, [head]);
    }
  }

  lemma FlatOne(r: Row)
    ensures Flat([r]) == r
  {}

  lemma CutTwice(s: seq<Ch>, o: nat, c: nat, tail: seq<Ch>)
    requires o <= |s| && s[o..] == tail && c <= |tail|
    ensures o + c <= |s| && s[o + c..] == tail[c..] && s[..o + c] == s[..o] + tail[..c]
  {}

  lemma FlatFirst(r: Row, b: seq<Row>, c: nat)
    requires c <= |r|
    ensures c <= |Flat([r] + b)| && Flat([r] + b)[c..] == Flat([r[c..]] + b) && Flat([r] + b)[..c] == r[..c]
  {
    assert ([r] + b)[1..] == b && ([r[c..]] + b)[1..] == b;
  }

  /** Rows `p.row` to `q.row` become `mid`, which keeps what is before `p` and behind `q`. */
  lemma SpliceRows(rows: seq<Row>, p: Pos, q: Pos, mid: seq<Row>, new': seq<Row>)
    requires Inside(rows, p) && Inside(rows, q) && AtOrBefore(p, q) && new' != [] && |mid| == |new'|
    requires mid == Around(rows[p.row][..p.col], new', rows[q.row][q.col..])
    ensures Off(rows, p) <= Off(rows, q) <= |Flat(rows)|
    ensures Flat(rows[..p.row] + mid + rows[q.row + 1..]) == Splice(Flat(rows), Off(rows, p), Off(rows, q), Flat(new'))
  {
    OffOrder(rows, p, q);
    FlatAt(rows, p);
    FlatAt(rows, q);
    var a, b := rows[..p.row], rows[q.row + 1..];
    var head, tail := rows[p.row][..p.col], rows[q.row][q.col..];
    AroundFlat(a, head, new', tail, b);
  }

  lemma OffOrder(rows: seq<Row>, p: Pos, q: Pos)
    requires Inside(rows, p) && Inside(rows, q)
    ensures AtOrBefore(p, q) <==> Off(rows, p) <= Off(rows, q)
  {
    if p.row < q.row { StartMono(rows, p.row + 1, q.row); }
    if q.row < p.row { StartMono(rows, q.row + 1, p.row); }
  }

  lemma {:induction false} StartMono(rows: seq<Row>, j: nat, k: nat)
    requires j <= k <= |rows|
    ensures Start(rows, j) <= Start(rows, k)
    decreases k
  {
    if j < k { StartMono(rows, j, k - 1); }
  }

  /** `new'` with `head` before its first row and `tail` behind its last. */
  function Around(head: Row, new': seq<Row>, tail: Row): (r: seq<Row>)
    requires new' != []
    ensures |r| == |new'|
  {
    if |new'| == 1 then [head + new'[0] + tail] else [head + new'[0]] + new'[1..|new'| - 1] + [new'[|new'| - 1] + tail]
  }

  /** A row is its two parts, whatever stands around it. */
  lemma Glue(a: seq<Row>, x: Row, y: Row, b: seq<Row>)
    ensures Flat(a + [x + y] + b) == Flat(a + [x]) + Flat([y] + b)
  {
    var rows := a + [x + y] + b;
    var p := Pos(|a|, |x|);
    FlatAt(rows, p);
    assert rows[p.row] == x + y && (x + y)[|x|..] == y && (x + y)[..|x|] == x;
    assert rows[..p.row] == a && rows[p.row + 1..] == b;
  }

  lemma AroundFlat(a: seq<Row>, head: Row, new': seq<Row>, tail: Row, b: seq<Row>)
    requires new' != []
    ensures Flat(a + Around(head, new', tail) + b) == Flat(a + [head]) + Flat(new') + Flat([tail] + b)
  {
    hide Flat;
    var n := |new'|;
    if n == 1 {
      var x := new'[0];
      assert head + x + tail == head + (x + tail);
      Glue(a, head, x + tail, b);
      Glue([], x, tail, b);
      assert [] + [x + tail] + b == [x + tail] + b && [] + [x] == new';
    } else {
      var x, mid, last := new'[0], new'[1..n - 1], new'[n - 1];
      var rest := mid + [last + tail] + b;
      assert a + Around(head, new', tail) + b == a + [head + x] + rest;
      Glue(a, head, x, rest);
      Glue([x] + mid, last, tail, b);
      assert [x] + rest == [x] + mid + [last + tail] + b;
      assert [x] + mid + [last] == new';
    }
  }

  /** Where the end of what is put in at `p` is. */
  function EndOf(p: Pos, new': seq<Row>): Pos
    requires new' != []
  {
    if |new'| == 1 then Pos(p.row, p.col + |new'[0]|) else Pos(p.row + |new'| - 1, |new'[|new'| - 1]|)
  }

  /** Where a position goes when `p` to `q` is replaced: the rule of `Moved`, in rows and columns. */
  function MovedPos(m: Pos, p: Pos, q: Pos, end: Pos): Pos
    requires AtOrBefore(p, q)
  {
    if AtOrBefore(m, p) then m
    else if p != q && AtOrBefore(m, q) then p
    else if m.row > q.row then Pos(m.row - q.row + end.row, m.col)
    else if m.col >= q.col then Pos(end.row, m.col - q.col + end.col)
    else m
  }

  /** The two rules are one. */
  lemma MovedRule(rows: seq<Row>, p: Pos, q: Pos, new': seq<Row>, m: Pos)
    requires Inside(rows, p) && Inside(rows, q) && Inside(rows, m) && AtOrBefore(p, q) && new' != []
    ensures var rows' := rows[..p.row] + Around(rows[p.row][..p.col], new', rows[q.row][q.col..]) + rows[q.row + 1..];
      var m' := MovedPos(m, p, q, EndOf(p, new'));
      && Off(rows, p) <= Off(rows, q) && Inside(rows', m')
      && Off(rows', m') == Moved(Off(rows, m), Off(rows, p), Off(rows, q), |Flat(new')|)
  {
    var mid := Around(rows[p.row][..p.col], new', rows[q.row][q.col..]);
    var rows' := rows[..p.row] + mid + rows[q.row + 1..];
    OffOrder(rows, p, q);
    OffOrder(rows, m, p);
    OffOrder(rows, m, q);
    if AtOrBefore(m, p) {
      assert rows'[..m.row] == rows[..m.row];
      StartPrefix(rows', rows, m.row);
    } else if p != q && AtOrBefore(m, q) {
      assert rows'[..p.row] == rows[..p.row];
      StartPrefix(rows', rows, p.row);
    } else {
      MovedBehind(rows, p, q, new', m);
    }
  }

  /** A position at or behind `q`: as much text is behind it as before. */
  lemma MovedBehind(rows: seq<Row>, p: Pos, q: Pos, new': seq<Row>, m: Pos)
    requires Inside(rows, p) && Inside(rows, q) && Inside(rows, m) && AtOrBefore(p, q) && AtOrBefore(q, m) && new' != []
    requires !AtOrBefore(m, p)
    requires !(p != q && AtOrBefore(m, q))
    ensures var rows' := rows[..p.row] + Around(rows[p.row][..p.col], new', rows[q.row][q.col..]) + rows[q.row + 1..];
      var m' := MovedPos(m, p, q, EndOf(p, new'));
      Inside(rows', m') && Off(rows, p) <= Off(rows, q) <= Off(rows, m) && Off(rows', m') == Off(rows, m) - Off(rows, q) + Off(rows, p) + |Flat(new')|
  {
    var head, tail := rows[p.row][..p.col], rows[q.row][q.col..];
    var mid := Around(head, new', tail);
    var rows' := rows[..p.row] + mid + rows[q.row + 1..];
    var m' := MovedPos(m, p, q, EndOf(p, new'));
    hide Flat, Start, Around, MovedPos, EndOf;
    OffOrder(rows, p, q);
    OffOrder(rows, q, m);
    SpliceRows(rows, p, q, mid, new');
    assert Inside(rows', m') && rows'[m'.row][m'.col..] == rows[m.row][m.col..] && rows'[m'.row + 1..] == rows[m.row + 1..] by {
      SameTail(rows, p, q, new', m);
    }
    FlatAt(rows, m);
    FlatAt(rows', m');
  }

  lemma SameTail(rows: seq<Row>, p: Pos, q: Pos, new': seq<Row>, m: Pos)
    requires Inside(rows, p) && Inside(rows, q) && Inside(rows, m) && AtOrBefore(p, q) && AtOrBefore(q, m) && new' != []
    requires !AtOrBefore(m, p) && !(p != q && AtOrBefore(m, q))
    ensures var rows' := rows[..p.row] + Around(rows[p.row][..p.col], new', rows[q.row][q.col..]) + rows[q.row + 1..];
      var m' := MovedPos(m, p, q, EndOf(p, new'));
      Inside(rows', m') && rows'[m'.row][m'.col..] == rows[m.row][m.col..] && rows'[m'.row + 1..] == rows[m.row + 1..]
  {
    var head, tail := rows[p.row][..p.col], rows[q.row][q.col..];
    var mid := Around(head, new', tail);
    var rows' := rows[..p.row] + mid + rows[q.row + 1..];
    var m' := MovedPos(m, p, q, EndOf(p, new'));
    if m.row > q.row {
      assert rows'[m'.row] == rows[q.row + 1..][m.row - q.row - 1] == rows[m.row];
    } else {
      var last := mid[|mid| - 1];
      assert rows'[m'.row] == last;
      assert last[EndOf(p, new').col..] == tail;
      assert tail[m.col - q.col..] == rows[m.row][m.col..];
      assert last[m'.col..] == last[EndOf(p, new').col..][m.col - q.col..];
    }
  }

  /** Where what has been put in ends. */
  lemma EndRule(rows: seq<Row>, p: Pos, q: Pos, new': seq<Row>)
    requires Inside(rows, p) && Inside(rows, q) && AtOrBefore(p, q) && new' != []
    ensures var rows' := rows[..p.row] + Around(rows[p.row][..p.col], new', rows[q.row][q.col..]) + rows[q.row + 1..];
      Inside(rows', EndOf(p, new')) && Off(rows', EndOf(p, new')) == Off(rows, p) + |Flat(new')|
  {
    var head, tail := rows[p.row][..p.col], rows[q.row][q.col..];
    var mid := Around(head, new', tail);
    var rows' := rows[..p.row] + mid + rows[q.row + 1..];
    var e := EndOf(p, new');
    assert rows'[e.row] == mid[|mid| - 1] && rows'[e.row][e.col..] == tail && rows'[e.row + 1..] == rows[q.row + 1..];
    OffOrder(rows, p, q);
    SpliceRows(rows, p, q, mid, new');
    FlatAt(rows, q);
    FlatAt(rows', e);
  }

  /** A row's end is one character before the next row, and the last row's end is that of the text. */
  lemma RowEnd(rows: seq<Row>, k: nat)
    requires k < |rows|
    ensures k + 1 < |rows| ==> Off(rows, Pos(k + 1, 0)) == Off(rows, Pos(k, |rows[k]|)) + 1
    ensures k + 1 == |rows| ==> Off(rows, Pos(k, |rows[k]|)) == |Flat(rows)|
  {
    FlatLength(rows);
    assert Start(rows, k + 1) == Start(rows, k) + |rows[k]| + 1;
  }

  /** What is between two positions, as rows. */
  function Between(rows: seq<Row>, p: Pos, q: Pos): (r: seq<Row>)
    requires Inside(rows, p) && Inside(rows, q) && AtOrBefore(p, q)
    ensures r != []
  {
    if p.row == q.row then [rows[p.row][p.col..q.col]]
    else [rows[p.row][p.col..]] + rows[p.row + 1..q.row] + [rows[q.row][..q.col]]
  }

  lemma BetweenFlat(rows: seq<Row>, p: Pos, q: Pos)
    requires Inside(rows, p) && Inside(rows, q) && AtOrBefore(p, q)
    ensures Off(rows, p) <= Off(rows, q) <= |Flat(rows)|
    ensures Flat(Between(rows, p, q)) == Flat(rows)[Off(rows, p)..Off(rows, q)]
  {
    hide Flat, Start;
    OffOrder(rows, p, q);
    FlatAt(rows, p);
    FlatAt(rows, q);
    var a, cut, b := rows[..p.row], Between(rows, p, q), rows[q.row + 1..];
    var head, tail := rows[p.row][..p.col], rows[q.row][q.col..];
    AroundBetween(rows, p, q);
    AroundFlat(a, head, cut, tail, b);
    Middle(Flat(rows), Off(rows, p), Off(rows, q), Flat(cut));
  }

  lemma Middle(s: seq<Ch>, p: nat, q: nat, m: seq<Ch>)
    requires p <= q <= |s| && s == s[..p] + m + s[q..]
    ensures m == s[p..q]
  {
    assert |m| == q - p;
    assert (s[..p] + m + s[q..])[p..q] == m;
  }

  /** Putting it back. */
  lemma AroundBetween(rows: seq<Row>, p: Pos, q: Pos)
    requires Inside(rows, p) && Inside(rows, q) && AtOrBefore(p, q)
    ensures rows == rows[..p.row] + Around(rows[p.row][..p.col], Between(rows, p, q), rows[q.row][q.col..]) + rows[q.row + 1..]
    ensures EndOf(p, Between(rows, p, q)) == q
  {
    var head, tail, cut := rows[p.row][..p.col], rows[q.row][q.col..], Between(rows, p, q);
    if p.row == q.row {
      assert head + cut[0] + tail == rows[p.row];
      assert Around(head, cut, tail) == [rows[p.row]];
      Refold(rows, p.row, q.row, []);
    } else {
      var mid := rows[p.row + 1..q.row];
      assert cut[0] == rows[p.row][p.col..] && cut[|cut| - 1] == rows[q.row][..q.col] && cut[1..|cut| - 1] == mid;
      assert head + cut[0] == rows[p.row] && cut[|cut| - 1] + tail == rows[q.row];
      assert Around(head, cut, tail) == [rows[p.row]] + mid + [rows[q.row]];
      Refold(rows, p.row, q.row, mid);
    }
  }

  lemma Refold(rows: seq<Row>, j: nat, k: nat, mid: seq<Row>)
    requires j <= k < |rows| && mid == if j == k then [] else rows[j + 1..k]
    ensures rows == rows[..j] + (if j == k then [rows[j]] else [rows[j]] + mid + [rows[k]]) + rows[k + 1..]
  {}
}
