/** Texts as lists of rows: how they join, and how a text falls apart at a position. */
module RowText {
  import opened CString
  import opened FlatText

  /** One text behind another: the last row of the one runs on into the first row of the other. */
  function Join(a: seq<Row>, b: seq<Row>): (r: seq<Row>)
    requires a != [] && b != []
    ensures |r| == |a| + |b| - 1
  {
    a[..|a| - 1] + [a[|a| - 1] + b[0]] + b[1..]
  }

  lemma JoinAssoc(a: seq<Row>, b: seq<Row>, c: seq<Row>)
    requires a != [] && b != [] && c != []
    ensures Join(Join(a, b), c) == Join(a, Join(b, c))
  {
    var x, y, n := Join(Join(a, b), c), Join(a, Join(b, c)), |a| - 1;
    if |b| == 1 {
      assert a[n] + b[0] + c[0] == a[n] + (b[0] + c[0]);
      assert x == a[..n] + [a[n] + b[0] + c[0]] + c[1..] == y;
    } else {
      var m := b[1..|b| - 1];
      assert Join(a, b) == (a[..n] + [a[n] + b[0]] + m) + [b[|b| - 1]];
      assert Join(b, c) == [b[0]] + (m + [b[|b| - 1] + c[0]] + c[1..]);
      assert x == a[..n] + [a[n] + b[0]] + m + [b[|b| - 1] + c[0]] + c[1..];
      assert y == a[..n] + [a[n] + b[0]] + (m + [b[|b| - 1] + c[0]] + c[1..]);
    }
  }

  /** As strings, one just stands behind the other. */
  lemma FlatJoin(a: seq<Row>, b: seq<Row>)
    requires a != [] && b != []
    ensures Flat(Join(a, b)) == Flat(a) + Flat(b)
  {
    var n := |a| - 1;
    Glue(a[..n], a[n], b[0], b[1..]);
    assert a[..n] + [a[n]] == a && [b[0]] + b[1..] == b;
  }

  lemma JoinNothing(a: seq<Row>)
    requires a != []
    ensures Join(a, [[]]) == a && Join([[]], a) == a
  {
    assert a[|a| - 1] + [] == a[|a| - 1] && [] + a[0] == a[0];
  }

  /** The text up to a position, and from it on. */
  function Upto(rows: seq<Row>, p: Pos): (r: seq<Row>)
    requires Inside(rows, p)
    ensures |r| == p.row + 1
  {
    rows[..p.row] + [rows[p.row][..p.col]]
  }

  function From(rows: seq<Row>, p: Pos): (r: seq<Row>)
    requires Inside(rows, p)
    ensures r != []
  {
    [rows[p.row][p.col..]] + rows[p.row + 1..]
  }

  /** What an edit makes of the rows. */
  lemma AroundJoin(rows: seq<Row>, p: Pos, q: Pos, new': seq<Row>)
    requires Inside(rows, p) && Inside(rows, q) && new' != []
    ensures rows[..p.row] + Around(rows[p.row][..p.col], new', rows[q.row][q.col..]) + rows[q.row + 1..]
      == Join(Join(Upto(rows, p), new'), From(rows, q))
  {
    AroundIs(rows[..p.row], rows[p.row][..p.col], new', rows[q.row][q.col..], rows[q.row + 1..]);
  }

  lemma AroundIs(a: seq<Row>, head: Row, new': seq<Row>, tail: Row, b: seq<Row>)
    requires new' != []
    ensures a + Around(head, new', tail) + b == Join(Join(a + [head], new'), [tail] + b)
  {
    var n := |new'|;
    if n == 1 {
      JoinSeam(a, head, new'[0], []);
      assert new' == [new'[0]] + [] && a + [head + new'[0]] + [] == a + [head + new'[0]];
      JoinSeam(a, head + new'[0], tail, b);
    } else {
      var first, mid, last := new'[0], new'[1..n - 1], new'[n - 1];
      JoinSeam(a, head, first, mid + [last]);
      assert new' == [first] + (mid + [last]);
      var x := a + [head + first] + mid;
      assert a + [head + first] + (mid + [last]) == x + [last];
      JoinSeam(x, last, tail, b);
      assert Around(head, new', tail) == [head + first] + mid + [last + tail];
      assert a + ([head + first] + mid + [last + tail]) == x + [last + tail];
    }
  }

  lemma JoinSeam(a: seq<Row>, x: Row, y: Row, b: seq<Row>)
    ensures Join(a + [x], [y] + b) == a + [x + y] + b
  {}

  lemma Whole(rows: seq<Row>, p: Pos)
    requires Inside(rows, p)
    ensures Join(Upto(rows, p), From(rows, p)) == rows
  {
    assert rows[p.row][..p.col] + rows[p.row][p.col..] == rows[p.row];
  }

  lemma BetweenJoin(rows: seq<Row>, p: Pos, q: Pos)
    requires Inside(rows, p) && Inside(rows, q) && AtOrBefore(p, q)
    ensures Upto(rows, q) == Join(Upto(rows, p), Between(rows, p, q))
    ensures From(rows, p) == Join(Between(rows, p, q), From(rows, q))
  {
    var x := rows[p.row];
    if p.row == q.row {
      assert x[..p.col] + x[p.col..q.col] == x[..q.col] && x[p.col..q.col] + x[q.col..] == x[p.col..];
    } else {
      var y := rows[q.row];
      assert x[..p.col] + x[p.col..] == x && y[..q.col] + y[q.col..] == y;
      assert rows[..q.row] == rows[..p.row] + [x] + rows[p.row + 1..q.row];
      assert rows[p.row + 1..] == rows[p.row + 1..q.row] + [y] + rows[q.row + 1..];
    }
  }

  /** Two halves fall apart again where they were joined. */
  lemma CutJoin(a: seq<Row>, b: seq<Row>)
    requires a != [] && b != []
    ensures var p := Pos(|a| - 1, |a[|a| - 1]|); var rows := Join(a, b);
      Inside(rows, p) && Upto(rows, p) == a && From(rows, p) == b
  {
    var n := |a| - 1;
    var rows := Join(a, b);
    assert rows[n] == a[n] + b[0];
    assert rows[n][..|a[n]|] == a[n] && rows[n][|a[n]|..] == b[0];
  }

  /** The text with a piece put in at a position. */
  function PutIn(rows: seq<Row>, p: Pos, piece: seq<Row>): (r: seq<Row>)
    requires Inside(rows, p) && piece != []
    ensures r != []
  {
    Join(Join(Upto(rows, p), piece), From(rows, p))
  }

  /** A piece from `p` to `q` goes from the text; it is put in front of, or behind, a piece taken out before. */
  lemma TakeOutPutIn(rows: seq<Row>, p: Pos, q: Pos, kill: seq<Row>, backwards: bool)
    requires Inside(rows, p) && Inside(rows, q) && AtOrBefore(p, q) && kill != []
    ensures var cut, left := Between(rows, p, q), Join(Upto(rows, p), From(rows, q));
      && Inside(left, p) && PutIn(left, p, cut) == rows
      && PutIn(left, p, if backwards then Join(cut, kill) else Join(kill, cut)) == PutIn(rows, if backwards then q else p, kill)
  {
    hide *;
    RowTextFacts(rows, p, q);
    var a, c, b := Upto(rows, p), Between(rows, p, q), From(rows, q);
    CutJoin(a, b);
    UptoEnd(rows, p);
    BetweenJoin(rows, p, q);
    PutInIs(Join(a, b), p, c);
    JoinAssoc(a, c, b);
    Whole(rows, p);
    if backwards {
      PutInIs(Join(a, b), p, Join(c, kill));
      PutInIs(rows, q, kill);
      JoinAssoc(a, c, kill);
    } else {
      PutInIs(Join(a, b), p, Join(kill, c));
      PutInIs(rows, p, kill);
      JoinAssoc(a, kill, c);
      JoinAssoc(Join(a, kill), c, b);
    }
  }

  lemma RowTextFacts(rows: seq<Row>, p: Pos, q: Pos)
    requires Inside(rows, p) && Inside(rows, q) && AtOrBefore(p, q)
    ensures Upto(rows, p) != [] && From(rows, q) != [] && From(rows, p) != [] && Between(rows, p, q) != []
    ensures forall a: seq<Row>, b: seq<Row> :: a != [] && b != [] ==> Join(a, b) != []
  {}

  lemma UptoEnd(rows: seq<Row>, p: Pos)
    requires Inside(rows, p)
    ensures var a := Upto(rows, p); a != [] && Pos(|a| - 1, |a[|a| - 1]|) == p
  {}

  lemma PutInIs(rows: seq<Row>, p: Pos, piece: seq<Row>)
    requires Inside(rows, p) && piece != []
    ensures PutIn(rows, p, piece) == Join(Join(Upto(rows, p), piece), From(rows, p))
  {}

  /** A piece comes in without any row getting too long. */
  predicate RoomFor(rows: seq<Row>, p: Pos, piece: seq<Row>, size: nat)
    requires Inside(rows, p) && piece != []
  {
    p.col + |piece[0]| < size && EndOf(p, piece).col + |rows[p.row]| - p.col < size
  }

  lemma RoomIf(rows: seq<Row>, p: Pos, piece: seq<Row>, size: nat)
    requires Inside(rows, p) && piece != [] && forall k :: 0 <= k < |PutIn(rows, p, piece)| ==> |PutIn(rows, p, piece)[k]| < size
    ensures RoomFor(rows, p, piece, size)
  {
    AroundJoin(rows, p, p, piece);
    var all := PutIn(rows, p, piece);
    assert |all[p.row]| < size;
    assert |all[p.row + |piece| - 1]| < size;
  }

  /** The place at an offset. */
  function PosAt(rows: seq<Row>, o: nat): (p: Pos)
    requires rows != []
  {
    if o <= |rows[0]| || |rows| == 1 then Pos(0, o) else var p := PosAt(rows[1..], o - |rows[0]| - 1); Pos(p.row + 1, p.col)
  }

  lemma {:induction false} PosAtIs(rows: seq<Row>, p: Pos)
    requires Inside(rows, p)
    ensures PosAt(rows, Off(rows, p)) == p
    decreases |rows|
  {
    if p.row > 0 {
      StartTail(rows, p.row);
      PosAtIs(rows[1..], Pos(p.row - 1, p.col));
    }
  }

  lemma {:induction false} StartTail(rows: seq<Row>, k: nat)
    requires 0 < k <= |rows|
    ensures Start(rows, k) == |rows[0]| + 1 + Start(rows[1..], k - 1)
    decreases k
  {
    if k > 1 { StartTail(rows, k - 1); }
  }
}
