/** How characters are displayed: the three routines that must agree on it. */
module Columns {
  import opened CString

  const TAB: Ch := 9
  const BLANK: Ch := 32
  const DEL: Ch := 127
  const CARET: Ch := 94
  const QUESTION: Ch := 63
  const BACKSLASH: Ch := 92
  const GREATER: Ch := 62
  const UNDERSCORE: Ch := 95
  const BANG: Ch := 33
  const ZERO: Ch := 48
  const PPWIDTH: nat := 5

  /** Which characters print as themselves, and how far apart tab stops are. */
  datatype Terminal = Terminal(prints: Ch -> bool, tabstop: nat)

  function TabDist(tabstop: nat, pos: nat): (r: nat)
    requires tabstop != 0
    ensures 1 <= r <= tabstop
  {
    tabstop - pos % tabstop
  }

  /** How PPchar shows a character. */
  function PPchar(c: Ch, prints: Ch -> bool): (s: seq<Ch>)
    ensures 1 <= |s| < PPWIDTH && (c != 0 ==> 0 !in s)
  {
    if prints(c) then [c]
    else if c < DEL then [CARET, c + 64]
    else if c == DEL then [CARET, QUESTION]
    else [BACKSLASH, ZERO + c / 64, ZERO + c / 8 % 8, ZERO + c % 8]
  }

  /** The columns that a character takes when it starts at `pos`. */
  function Width(c: Ch, pos: nat, t: Terminal): (w: nat)
    ensures w >= 1
  {
    if c == TAB && t.tabstop != 0 then TabDist(t.tabstop, pos)
    else if t.prints(c) then 1
    else if c <= DEL then 2
    else 4
  }

  /** The column where character `n` starts. */
  function Col(line: seq<Ch>, n: nat, t: Terminal): nat
    requires n <= |line|
  {
    if n == 0 then 0 else var pos := Col(line, n - 1, t); pos + Width(line[n - 1], pos, t)
  }

  lemma {:induction false} ColGrows(line: seq<Ch>, i: nat, j: nat, t: Terminal)
    requires i < j <= |line|
    ensures Col(line, i, t) < Col(line, j, t)
    decreases j
  {
    if i < j - 1 { ColGrows(line, i, j - 1, t); }
  }

  /** The screen column of a character; past the end it is that of the end. */
  method calc_pos(line: seq<Ch>, c_char: int, t: Terminal) returns (pos: nat)
    ensures pos == Col(line, if c_char < 0 then 0 else if c_char < |line| then c_char else |line|, t)
  {
    pos := 0;
    var left, lp := c_char - 1, 0;
    while left >= 0 && lp < |line|
      invariant 0 <= lp <= |line| && left == c_char - 1 - lp && (if c_char < 0 then lp == 0 else left >= -1)
      invariant pos == Col(line, lp, t)
      decreases |line| - lp
    {
      var c := line[lp];
      lp := lp + 1;
      if c == TAB && t.tabstop != 0 {
        pos := pos + TabDist(t.tabstop, pos);
      } else if t.prints(c) {
        pos := pos + 1;
      } else if c <= DEL {
        pos := pos + 2;
      } else {
        pos := pos + 4;
      }
      left := left - 1;
    }
  }

  /** The last character that starts at or before a column. */
  ghost predicate LastBy(line: seq<Ch>, col: int, n: nat, t: Terminal) {
    && n <= |line|
    && (n == 0 || Col(line, n, t) <= col)
    && (forall k :: n < k <= |line| ==> col < Col(line, k, t))
  }

  method how_far(line: seq<Ch>, col: int, t: Terminal) returns (n: nat)
    requires 0 !in line
    ensures LastBy(line, col, n, t)
  {
    var lp, pos := 0, 0;
    while true
      invariant 0 <= lp <= |line| && pos == Col(line, lp, t) && (lp == 0 || pos <= col)
      decreases |line| - lp
    {
      var c := if lp < |line| then line[lp] else 0;
      ghost var here := pos;
      if c == TAB && t.tabstop != 0 {
        pos := pos + TabDist(t.tabstop, pos);
      } else if t.prints(c) {
        pos := pos + 1;
      } else if c <= DEL {
        pos := pos + 2;
      } else {
        pos := pos + 4;
      }
      lp := lp + 1;
      if !(pos <= col && c != 0) { break; }
    }
    n := lp - 1;
    forall k | n < k <= |line| ensures col < Col(line, k, t) {
      if n + 1 < k { ColGrows(line, n + 1, k, t); }
    }
  }

  /** how_far undoes calc_pos. */
  lemma HowFarOfColumn(line: seq<Ch>, c: nat, n: nat, t: Terminal)
    requires c <= |line| && LastBy(line, Col(line, c, t), n, t)
    ensures n == c
  {
    if c < n { ColGrows(line, c, n, t); }
  }

  /** The cells of a character that starts at `pos`. */
  function Cells(c: Ch, pos: nat, visspace: bool, t: Terminal): seq<Ch> {
    if c == TAB && t.tabstop != 0 then
      [if visspace then GREATER else BLANK] + seq(TabDist(t.tabstop, pos) - 1, _ => BLANK)
    else if c == BLANK && t.prints(c) && visspace then [UNDERSCORE]
    else PPchar(c, t.prints)
  }

  /** The line as cells. */
  function Expand(line: seq<Ch>, n: nat, visspace: bool, t: Terminal): seq<Ch>
    requires n <= |line|
  {
    if n == 0 then []
    else var before := Expand(line, n - 1, visspace, t); before + Cells(line[n - 1], |before|, visspace, t)
  }

  /** DeTab's cells are the columns that calc_pos counts. */
  lemma {:induction false} ExpandCols(line: seq<Ch>, n: nat, visspace: bool, t: Terminal)
    requires n <= |line|
    ensures |Expand(line, n, visspace, t)| == Col(line, n, t)
  {
    if n > 0 { ExpandCols(line, n - 1, visspace, t); }
  }

  lemma {:induction false} ExpandPrefix(line: seq<Ch>, i: nat, n: nat, visspace: bool, t: Terminal)
    requires i <= n <= |line|
    ensures Expand(line, i, visspace, t) <= Expand(line, n, visspace, t)
    decreases n
  {
    if i < n { ExpandPrefix(line, i, n - 1, visspace, t); }
  }

  /** What is right of the scroll offset. */
  function Scrolled(cells: seq<Ch>, start: nat): seq<Ch> {
    if |cells| <= start then [] else cells[start..]
  }

  /** What fits in `room` cells, the last of them flagging that something is missing. */
  function Fitted(cells: seq<Ch>, room: nat): (r: seq<Ch>)
    requires room > 0
    ensures |r| <= room
  {
    if |cells| < room then cells else cells[..room - 1] + [BANG]
  }

  /** While DeTab works: `out` has been produced, and what of it is right of the offset is in `dst`. */
  ghost predicate Produced(dst: seq<Ch>, start: nat, n: int, out: seq<Ch>) {
    && n == |Scrolled(out, start)| <= |dst|
    && dst[..n] == Scrolled(out, start)
  }

  /** The macro addc: one more cell, written only if it is right of the offset. */
  lemma Added(dst: seq<Ch>, dst': seq<Ch>, start: nat, n: nat, out: seq<Ch>, c: Ch)
    requires Produced(dst, start, n, out) && |dst| == |dst'|
    requires |out| < start ==> dst' == dst
    requires |out| >= start ==> n < |dst| && dst' == dst[n := c]
    ensures Produced(dst', start, if |out| < start then n else n + 1, out + [c])
  {
    if |out| >= start {
      assert (out + [c])[start..] == out[start..] + [c];
      assert dst'[..n + 1] == dst[..n] + [c];
    } else {
      assert Scrolled(out + [c], start) == [];
    }
  }

  lemma NoneYet(dst: seq<Ch>, start: nat, n: int, out: seq<Ch>)
    requires Produced(dst, start, n, out)
    ensures |out| <= start ==> n == 0
  {}

  lemma FirstCells(cells: seq<Ch>, out: seq<Ch>, start: nat, dst: seq<Ch>, n: nat, room: nat)
    requires out <= cells && Produced(dst, start, n, out) && 0 < room <= n
    ensures |Scrolled(cells, start)| >= room && Scrolled(cells, start)[..room - 1] == dst[..room - 1]
  {
    assert forall k :: 0 <= k < |out| ==> out[k] == cells[k];
    var s := Scrolled(cells, start);
    forall k | 0 <= k < room - 1 ensures s[k] == dst[k] {
      assert dst[k] == dst[..n][k] == out[start + k] == cells[start + k];
    }
  }

  lemma CellsIs(c: Ch, pos: nat, visspace: bool, t: Terminal)
    ensures c == TAB && t.tabstop != 0 ==>
      Cells(c, pos, visspace, t) == [if visspace then GREATER else BLANK] + seq(TabDist(t.tabstop, pos) - 1, _ => BLANK)
    ensures (c != TAB || t.tabstop == 0) && t.prints(c) ==> Cells(c, pos, visspace, t) == [if visspace && c == BLANK then UNDERSCORE else c]
    ensures (c != TAB || t.tabstop == 0) && !t.prints(c) ==> Cells(c, pos, visspace, t) == PPchar(c, t.prints)
  {}

  lemma ExpandIs(src: seq<Ch>, i: nat, visspace: bool, t: Terminal)
    requires i < |src|
    ensures Expand(src, i + 1, visspace, t) ==
            Expand(src, i, visspace, t) + Cells(src[i], |Expand(src, i, visspace, t)|, visspace, t)
  {}

  lemma DeTabStart(src: seq<Ch>, visspace: bool, t: Terminal, dst: seq<Ch>, start: nat)
    ensures Expand(src, 0, visspace, t) == [] && Produced(dst, start, 0, [])
  {}

  lemma DeTabCut(cells: seq<Ch>, dst: seq<Ch>, room: nat)
    requires 0 < room < |dst| && |cells| >= room && dst[..room - 1] == cells[..room - 1] && dst[room - 1] == BANG && dst[room] == 0
    ensures Holds(dst, Fitted(cells, room))
  {}

  lemma DeTabEnd(cells: seq<Ch>, was: seq<Ch>, dst: seq<Ch>, start: nat, n: nat, room: nat)
    requires Produced(was, start, n, cells) && n < room && n < |was| && dst == was[n := 0]
    ensures Holds(dst, Fitted(Scrolled(cells, start), room))
  {}

  /** All of a tab's cells but the last, as long as there is room. */
  method TabCells(dst: array<Ch>, start: nat, offset0: int, n0: nat, limit: nat, visspace: bool, width: nat, ghost out0: seq<Ch>)
    returns (offset: int, n: nat, c: Ch, ghost out: seq<Ch>)
    requires width >= 1 && n0 < limit < dst.Length && offset0 == start - |out0| && Produced(dst[..], start, n0, out0)
    modifies dst
    ensures offset == start - |out| && n <= limit && Produced(dst[..], start, n, out)
    ensures forall k :: limit <= k < dst.Length ==> dst[k] == old(dst[k])
    ensures var cells := [if visspace then GREATER else BLANK] + seq(width - 1, _ => BLANK);
      out0 <= out && out + [c] <= out0 + cells && (n < limit ==> out + [c] == out0 + cells)
  {
    ghost var cells := [if visspace then GREATER else BLANK] + seq(width - 1, _ => BLANK);
    offset, n, out := offset0, n0, out0;
    c := if visspace then GREATER else BLANK;
    var nchars := width - 1;
    while nchars > 0 && n < limit
      invariant 0 <= nchars < width && n <= limit && offset == start - |out| && Produced(dst[..], start, n, out)
      invariant out == out0 + cells[..width - 1 - nchars] && c == cells[width - 1 - nchars]
      invariant forall k :: limit <= k < dst.Length ==> dst[k] == old(dst[k])
      decreases nchars
    {
      ghost var was := dst[..];
      ghost var n' := n;
      offset := offset - 1;
      if offset < 0 {
        dst[n] := c;
        n := n + 1;
      }
      Added(was, dst[..], start, n', out, c);
      assert cells[..width - nchars] == cells[..width - 1 - nchars] + [c];
      out := out + [c];
      c := BLANK;
      nchars := nchars - 1;
    }
    ghost var k := width - 1 - nchars;
    assert cells[..k + 1] == cells[..k] + [c];
    assert out + [c] == out0 + cells[..k + 1];
    if nchars == 0 { assert cells[..k + 1] == cells; }
  }

  /** All the cells but the last that PPchar makes of a character. */
  method PPcells(dst: array<Ch>, start: nat, offset0: int, n0: nat, buf: seq<Ch>, ghost out0: seq<Ch>)
    returns (offset: int, n: nat, c: Ch, ghost out: seq<Ch>)
    requires 1 <= |buf| < PPWIDTH && n0 + PPWIDTH <= dst.Length && offset0 == start - |out0| && Produced(dst[..], start, n0, out0)
    modifies dst
    ensures offset == start - |out| && n0 <= n < n0 + |buf| && Produced(dst[..], start, n, out)
    ensures forall k :: n0 + |buf| - 1 <= k < dst.Length ==> dst[k] == old(dst[k])
    ensures out + [c] == out0 + buf
  {
    offset, n, out := offset0, n0, out0;
    var p := 0;
    c := buf[p];
    p := p + 1;
    while p < |buf|
      invariant 1 <= p <= |buf| && c == buf[p - 1] && n0 <= n < n0 + p && offset == start - |out| && Produced(dst[..], start, n, out)
      invariant out == out0 + buf[..p - 1]
      invariant forall k :: n0 + |buf| - 1 <= k < dst.Length ==> dst[k] == old(dst[k])
    {
      ghost var was := dst[..];
      ghost var n' := n;
      offset := offset - 1;
      if offset < 0 {
        dst[n] := c;
        n := n + 1;
      }
      Added(was, dst[..], start, n', out, c);
      assert buf[..p] == buf[..p - 1] + [c];
      out := out + [c];
      c := buf[p];
      p := p + 1;
    }
    assert buf == buf[..p - 1] + [c];
  }

  /** All the cells but the last of a character. */
  method Leading(dst: array<Ch>, start: nat, offset0: int, n0: nat, limit: nat, visspace: bool, t: Terminal, c0: Ch, ghost out0: seq<Ch>)
    returns (offset: int, n: nat, c: Ch, ghost out: seq<Ch>)
    requires n0 < limit && limit + PPWIDTH <= dst.Length && offset0 == start - |out0| && Produced(dst[..], start, n0, out0)
    modifies dst
    ensures offset == start - |out| && n + 1 < limit + PPWIDTH && Produced(dst[..], start, n, out)
    ensures forall k :: limit + PPWIDTH - 2 <= k < dst.Length ==> dst[k] == old(dst[k])
    ensures var cells := Cells(c0, |out0|, visspace, t);
      out + [c] <= out0 + cells && (n < limit ==> out + [c] == out0 + cells)
  {
    CellsIs(c0, |out0|, visspace, t);
    hide Produced, Cells, Scrolled, PPchar;
    offset, n, c, out := offset0, n0, c0, out0;
    if c == TAB && t.tabstop != 0 {
      offset, n, c, out := TabCells(dst, start, offset, n, limit, visspace, TabDist(t.tabstop, start - offset), out);
    } else if t.prints(c) {
      if visspace && c == BLANK { c := UNDERSCORE; }
    } else {
      var buf := PPchar(c, t.prints);
      PPcharLength(c, t.prints);
      offset, n, c, out := PPcells(dst, start, offset, n, buf, out);
    }
  }

  lemma PPcharLength(c: Ch, prints: Ch -> bool)
    ensures 1 <= |PPchar(c, prints)| < PPWIDTH
  {}

  /**
   * Fills `dst` with the cells of a line right of an offset.  It may write fewer than PPWIDTH cells past the limit,
   * but what it leaves fits, with a mark if there was more (or just as much).
   */
  method DeTab(src: seq<Ch>, start_offset: nat, dst: array<Ch>, limit: nat, visspace: bool, t: Terminal)
    requires 0 !in src && 0 < limit && limit + PPWIDTH <= dst.Length
    modifies dst
    ensures Holds(dst[..], Fitted(Scrolled(Expand(src, |src|, visspace, t), start_offset), limit))
    ensures forall k :: limit + PPWIDTH - 1 <= k < dst.Length ==> dst[k] == old(dst[k])
  {
    hide Produced, Cells, Expand, Scrolled, Fitted, Holds;
    ghost var all := Expand(src, |src|, visspace, t);
    var offset: int := start_offset;
    var n, i := 0, 0;
    ghost var out: seq<Ch> := [];
    DeTabStart(src, visspace, t, dst[..], start_offset);
    while i < |src|
      invariant 0 <= i <= |src| && 0 <= n < limit && offset == start_offset - |out|
      invariant out == Expand(src, i, visspace, t) && Produced(dst[..], start_offset, n, out)
      invariant forall k :: limit + PPWIDTH - 1 <= k < dst.Length ==> dst[k] == old(dst[k])
    {
      ExpandIs(src, i, visspace, t);
      ExpandPrefix(src, i + 1, |src|, visspace, t);
      var c;
      offset, n, c, out := Leading(dst, start_offset, offset, n, limit, visspace, t, src[i], out);
      i := i + 1;
      assert out + [c] <= all;
      ghost var was := dst[..];
      ghost var n' := n;
      offset := offset - 1;
      if offset < 0 {
        dst[n] := c;
        n := n + 1;
      }
      Added(was, dst[..], start_offset, n', out, c);
      out := out + [c];
      NoneYet(dst[..], start_offset, n, out);
      if offset < 0 && n >= limit {
        FirstCells(all, out, start_offset, dst[..], n, limit);
        dst[limit - 1] := BANG;
        dst[limit] := 0;
        DeTabCut(Scrolled(all, start_offset), dst[..], limit);
        return;
      }
    }
    ghost var was := dst[..];
    dst[n] := 0;
    DeTabEnd(all, was, dst[..], start_offset, n, limit);
  }

  /** Where calc_pos says a character is, there DeTab puts its cells, unless they are scrolled away or cut off. */
  lemma ShownAtColumn(line: seq<Ch>, c: nat, k: nat, start: nat, room: nat, visspace: bool, t: Terminal)
    requires c < |line| && 0 < room
    requires var pos := Col(line, c, t); k < Width(line[c], pos, t) && start <= pos + k && pos + k - start < room - 1
    ensures var pos := Col(line, c, t);
      var shown := Fitted(Scrolled(Expand(line, |line|, visspace, t), start), room);
      && |Cells(line[c], pos, visspace, t)| == Width(line[c], pos, t)
      && pos + k - start < |shown| && shown[pos + k - start] == Cells(line[c], pos, visspace, t)[k]
  {
    var pos := Col(line, c, t);
    var upto, all := Expand(line, c + 1, visspace, t), Expand(line, |line|, visspace, t);
    ExpandCols(line, c, visspace, t);
    ExpandPrefix(line, c + 1, |line|, visspace, t);
    var before, cells := Expand(line, c, visspace, t), Cells(line[c], pos, visspace, t);
    assert upto == before + cells && |before| == pos;
    assert |cells| == Width(line[c], pos, t);
    hide Col, Expand, Cells, Width;
    assert upto[pos + k] == cells[k];
    assert all[..|upto|] == upto;
    assert all[pos + k] == upto[pos + k];
    assert Scrolled(all, start)[pos + k - start] == all[pos + k];
  }

  /** The mark is there exactly when the line's end is beyond the room. */
  lemma CutIff(line: seq<Ch>, start: nat, room: nat, visspace: bool, t: Terminal)
    requires 0 < room
    ensures var cells := Scrolled(Expand(line, |line|, visspace, t), start);
      Fitted(cells, room) == cells <==> (Col(line, |line|, t) < start + room || (|cells| == room && cells[room - 1] == BANG))
  {
    ExpandCols(line, |line|, visspace, t);
    var cells := Scrolled(Expand(line, |line|, visspace, t), start);
    if |cells| == room { assert cells == cells[..room - 1] + [cells[room - 1]]; }
  }
}
