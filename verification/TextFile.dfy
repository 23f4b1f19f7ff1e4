/** Files read into a buffer and buffers written to a file. */
module TextFile {
  import opened Geometry
  import opened BlockCache
  import opened LineStore
  import opened StdFile

  /** f_getputl's critical section: the half-read line moves to the start of the next block.
      Both blocks are in the cache while it is copied. */
  method Relocate(t: TmpFile, bp: int, base: nat, ghost done: string, nbytes: nat) returns (ok: bool, newbp: int)
    requires Filling(t, bp, base, done) && nbytes == |done| && t.cache.lastb == bp
    modifies t`DFree, t.cache, t.cache.b_cache, t.cache.bht
    ensures t.Valid() && old(t.DFree) <= t.DFree && old(t.cache.hist) <= t.cache.hist
    ensures ok ==> Filling(t, newbp, 0, done) && t.cache.nleft == t.cache.g.BlockSize() && t.cache.lastb == newbp
    ensures !ok ==> t.cache.g.BlockNo(t.DFree) >= t.cache.g.maxBlocks - 1
  {
    hide *;
    FillingFacts(t, bp, base, done);
    ghost var from := t.cache.b_cache[bp].buf;
    t.NextFreeBlock();
    FreeFacts(t);
    var off;
    ok, newbp, off := t.GetBlock(t.DFree, true);
    if !ok { return; }
    FreeFacts(t);
    assert bp != newbp && t.cache.b_cache[bp].buf == from;
    var i := 0;
    FillingIs(t, newbp, 0, done[..0]);
    while i < nbytes
      invariant i <= nbytes && Filling(t, newbp, 0, done[..i])
      invariant bp < t.cache.b_cache.Length && t.cache.b_cache[bp].buf == from
      invariant t.cache.lastb == newbp && t.cache.nleft == t.cache.g.BlockSize()
      invariant t.DFree >= old(t.DFree) && old(t.cache.hist) <= t.cache.hist
    {
      assert from[base..base + nbytes][i] == from[base + i];
      assert done[..i + 1] == done[..i] + [done[i]];
      PutNext(t, newbp, 0, done[..i], i, t.cache.b_cache[bp].buf[base + i]);
      i := i + 1;
    }
    assert done[..i] == done;
    FillingFacts(t, newbp, 0, done);
  }

  lemma Prepend(r: LineRead, q: LineRead, done: string, c: char)
    requires r == q.(line := done + ([c] + q.line))
    ensures r == q.(line := (done + [c]) + q.line)
  {
    assert done + ([c] + q.line) == (done + [c]) + q.line;
  }

  /** Reads a line of the file straight into the free end of the temporary file. */
  method f_getputl(t: TmpFile, fp: InFile) returns (ok: bool, yes: bool, l_dline: nat, ghost r: LineRead)
    requires t.Valid() && fp.Valid()
    modifies t`DFree, t`lines, t.cache, t.cache.b_cache, t.cache.bht
    modifies fp`pos, fp`f_cnt, fp`f_ptr, fp`f_eof, fp.f_base
    requires {fp as object, fp.f_base} !! {t as object, t.cache, t.cache.b_cache, t.cache.bht}
    ensures t.Valid() && fp.Valid()
    ensures r == ReadLine(old(fp.Rest()), t.cache.g.BlockSize() - 1)
    ensures ok ==> fp.Rest() == r.rest && yes == !r.ended.ByNewline?
    ensures ok ==> l_dline !in old(t.lines) && t.lines == old(t.lines)[l_dline := r.line]
    ensures !ok ==> t.lines == old(t.lines) && t.cache.g.BlockNo(t.DFree) >= t.cache.g.maxBlocks - 1
    ensures old(t.cache.hist) <= t.cache.hist
  {
    hide *;
    FreeFacts(t);
    SizeFacts(t.cache.g);
    r := ReadLine(fp.Rest(), t.cache.g.BlockSize() - 1);
    var bp: int, base: nat;
    ok, bp, base := t.GetBlock(t.DFree, true);
    if !ok { return false, true, 0, r; }
    FreeFacts(t);
    var nl, room := t.cache.nleft, t.cache.g.BlockSize() - 1;
    var at: nat := base;
    ghost var done := "";
    FillingIs(t, bp, base, done);
    var ended := ByNewline;
    while true
      invariant Filling(t, bp, base, done) && fp.Valid() && t.cache.lastb == bp && t.lines == old(t.lines)
      invariant old(t.cache.hist) <= t.cache.hist
      invariant at == base + |done| && room == t.cache.g.BlockSize() - 1 - |done| >= 0
      invariant base > 0 ==> nl == t.cache.g.BlockSize() - at > 0
      invariant base == 0 ==> nl >= t.cache.g.BlockSize() - |done|
      invariant NUL !in done
      invariant r == (var q := ReadLine(fp.Rest(), room); q.(line := done + q.line))
      decreases |fp.Rest()|
    {
      ghost var was := fp.Rest();
      var eof, c := fp.f_getc();
      assert !eof ==> was[0] == c && was[1..] == fp.Rest();
      ReadLineStep(was, room);
      if eof { ended := ByEof; break; }
      if c == NUL { continue; }
      if c == EOL { break; }
      if room == 0 { ended := TooLong; break; }
      room := room - 1;
      nl := nl - 1;
      if nl == 0 {
        ok, bp := Relocate(t, bp, base, done, at - base);
        if !ok { return false, true, 0, r; }
        nl, base, at := t.cache.nleft, 0, at - base;
      }
      Prepend(r, ReadLine(fp.Rest(), room), done, c);
      PutNext(t, bp, base, done, at, c);
      done := done + [c];
      at := at + 1;
    }
    assert r.line == done + [] == done && r.rest == fp.Rest() && r.ended == ended;
    l_dline := CloseLine(t, bp, base, done, at);
    return true, !ended.ByNewline?, l_dline, r;
  }

  lemma SizeFacts(g: Sizes)
    requires g.Ok()
    ensures g.BlockSize() >= 2
  {
    MulStrict(0, g.chunkChars, g.blockChunks);
  }

  /** The lines of a file: `room` for each line, `room0` for the first. */
  function ReadLines(src: string, room0: nat, room: nat): (r: (seq<string>, Ended))
    ensures |r.0| > 0
    decreases |src|
  {
    var l := ReadLine(src, room0);
    RestShorter(src, room0);
    if l.ended.ByNewline? then
      var q := ReadLines(l.rest, room, room);
      ([l.line] + q.0, q.1)
    else ([l.line], l.ended)
  }

  lemma {:induction false} RestShorter(src: string, room: nat)
    ensures src != [] ==> |ReadLine(src, room).rest| < |src|
    ensures src == [] ==> !ReadLine(src, room).ended.ByNewline?
  {
    if src != [] && src[0] != EOL {
      if src[0] == NUL { RestShorter(src[1..], room); }
      else if room > 0 { RestShorter(src[1..], room - 1); }
    }
  }

  function Join(lines: seq<string>): string
    requires |lines| > 0
  {
    if |lines| == 1 then lines[0] else lines[0] + [EOL] + Join(lines[1..])
  }

  function NoNuls(s: string): (r: string)
    ensures NUL !in r
  {
    if s == [] then [] else if s[0] == NUL then NoNuls(s[1..]) else [s[0]] + NoNuls(s[1..])
  }

  /** The lines `ins` between the two halves of a line cut in two. */
  function Wrap(pre: string, ins: seq<string>, post: string): (r: seq<string>)
    requires |ins| > 0
    ensures |r| == |ins|
  {
    if |ins| == 1 then [pre + ins[0] + post] else [pre + ins[0]] + ins[1..|ins| - 1] + [ins[|ins| - 1] + post]
  }

  lemma {:induction false} ReadLineClean(src: string, room: nat)
    ensures var r := ReadLine(src, room); NUL !in r.line && EOL !in r.line && |r.line| <= room
  {
    if src != [] && src[0] != EOL {
      if src[0] == NUL { ReadLineClean(src[1..], room); }
      else if room > 0 { ReadLineClean(src[1..], room - 1); }
    }
  }

  /** No stretch without a newline is longer than `room`. */
  ghost predicate LinesFit(s: string, room: nat) {
    forall i, j :: 0 <= i <= j <= |s| && EOL !in s[i..j] ==> j - i <= room
  }

  ghost function TextOf(stored: map<nat, string>, lines: seq<nat>, dot: nat, linebuf: string): (r: seq<string>)
    requires forall i :: 0 <= i < |lines| ==> lines[i] in stored
    ensures |r| == |lines|
    ensures forall i :: 0 <= i < |lines| ==> r[i] == if i == dot then linebuf else stored[lines[i]]
  {
    seq(|lines|, i requires 0 <= i < |lines| => if i == dot then linebuf else stored[lines[i]])
  }

  class Buffer {
    const tmp: TmpFile
    // the line list: l_dline of each line, first to last
    var lines: seq<nat>
    var dot: nat
    var curchar: nat
    var linebuf: string
    var DOLsave: bool

    /** An empty buffer: one line, stored empty. */
    constructor (t: TmpFile, addr: nat)
      requires t.Valid() && addr in t.lines && t.lines[addr] == ""
      ensures Valid() && tmp == t && Text() == [""] && curchar == 0
    {
      hide TmpFile.Valid;
      FreeFacts(t);
      tmp := t;
      lines, dot, curchar, linebuf, DOLsave := [addr], 0, 0, "", false;
      new;
      SizeFacts(t.cache.g);
    }

    ghost predicate Valid()
      reads this, tmp, tmp.cache, tmp.cache.b_cache, tmp.cache.bht
    {
      && tmp.Valid() && Consistent(tmp.lines)
    }

    ghost predicate Consistent(stored: map<nat, string>)
      reads this
    {
      && dot < |lines|
      && (forall i :: 0 <= i < |lines| ==> lines[i] in stored)
      && curchar <= |linebuf| < tmp.cache.g.BlockSize()
      && NUL !in linebuf && EOL !in linebuf
      && (!DOLsave ==> linebuf == stored[lines[dot]])
    }

    /** The text: the current line is in linebuf, any other in the temporary file. */
    ghost function Text(): (r: seq<string>)
      reads this, tmp
      requires Consistent(tmp.lines)
      ensures |r| == |lines|
    {
      TextOf(tmp.lines, lines, dot, linebuf)
    }

    /** Puts the current line into the temporary file if it may differ from what is there. */
    method lsave() returns (ok: bool)
      requires Valid()
      modifies this`lines, this`DOLsave, tmp`DFree, tmp`lines, tmp.cache, tmp.cache.b_cache, tmp.cache.bht
      ensures Valid() && Text() == old(Text()) && |lines| == old(|lines|)
      ensures ok ==> !DOLsave && tmp.lines[lines[dot]] == linebuf
      ensures Extends(old(tmp.lines), tmp.lines) && old(tmp.cache.hist) <= tmp.cache.hist
    {
      hide TmpFile.Valid;
      if !DOLsave { return true; }
      ok := true;
      var on_disk := tmp.jgetline(lines[dot]);
      if on_disk != linebuf {
        var addr;
        ok, addr := tmp.jputline(linebuf);
        if !ok { return false; }
        UpToNewlineIs(linebuf, |linebuf|);
        lines := lines[dot := addr];
      }
      DOLsave := false;
    }
  }

  datatype ReadStatus = Done | FileFull | JoinTooLong

  /** What a read makes of the text: the lines of the file between the two halves of the line that
      the point was in. */
  ghost function AfterRead(text: seq<string>, dot: nat, curchar: nat, ins: seq<string>): seq<string>
    requires dot < |text| && curchar <= |text[dot]| && |ins| > 0
  {
    text[..dot] + Wrap(text[dot][..curchar], ins, text[dot][curchar..]) + text[dot + 1..]
  }

  /** The stretch of the line list that a read has built so far. */
  ghost predicate Built(stored: map<nat, string>, made: seq<nat>, pre: string, got: seq<string>) {
    && |made| == |got| > 0
    && (forall i :: 0 <= i < |made| ==> made[i] in stored)
    && (forall i :: 0 <= i < |made| ==> stored[made[i]] == if i == 0 then pre + got[0] else got[i])
  }

  ghost predicate Apart(b: Buffer, fp: InFile)
    reads {}
  {
    {fp as object, fp.f_base} !! {b as object, b.tmp, b.tmp.cache, b.tmp.cache.b_cache, b.tmp.cache.bht}
  }

  /** dofread's loop: a new line of the list for each further line of the file. */
  method ReadRest(b: Buffer, fp: InFile, ghost above: seq<nat>, ghost made0: seq<nat>, ghost below: seq<nat>,
                  ghost pre: string, ghost got0: seq<string>)
    returns (ok: bool, ghost made: seq<nat>, ghost q: (seq<string>, Ended))
    requires b.tmp.Valid() && fp.Valid() && Apart(b, fp)
    requires b.lines == above + made0 + below && b.dot == |above| + |made0| - 1 && Built(b.tmp.lines, made0, pre, got0)
    modifies b`lines, b`dot, b.tmp`DFree, b.tmp`lines, b.tmp.cache, b.tmp.cache.b_cache, b.tmp.cache.bht
    modifies fp`pos, fp`f_cnt, fp`f_ptr, fp`f_eof, fp.f_base
    ensures b.tmp.Valid() && fp.Valid() && Extends(old(b.tmp.lines), b.tmp.lines)
    ensures q == (var room := b.tmp.cache.g.BlockSize() - 1; ReadLines(old(fp.Rest()), room, room))
    ensures ok ==> b.lines == above + made + below && b.dot == |above| + |made| - 1
    ensures ok ==> Built(b.tmp.lines, made, pre, got0 + q.0)
    ensures !ok ==> b.tmp.cache.g.BlockNo(b.tmp.DFree) >= b.tmp.cache.g.maxBlocks - 1
  {
    hide *;
    var t := b.tmp;
    FreeFacts(t);
    SizeFacts(t.cache.g);
    ghost var room, src := t.cache.g.BlockSize() - 1, fp.Rest();
    q := ReadLines(src, room, room);
    made := made0;
    ghost var got := [];
    ghost var rest := q;
    ok := true;
    ExtendsSame(t.lines);
    assert got0 + [] == got0 && [] + q.0 == q.0;
    while true
      invariant t.Valid() && fp.Valid() && Extends(old(b.tmp.lines), t.lines)
      invariant b.lines == above + made + below && b.dot == |above| + |made| - 1 >= 0
      invariant Built(t.lines, made, pre, got0 + got)
      invariant rest == ReadLines(fp.Rest(), room, room) && q == (got + rest.0, rest.1)
      decreases |fp.Rest()|
    {
      ghost var was, stored, list := fp.Rest(), t.lines, b.lines;
      ReadLinesStep(was, room, room);
      RestShorter(was, room);
      b.dot := b.dot + 1;
      var yes, addr;
      ghost var r;
      ok, yes, addr, r := f_getputl(t, fp);
      if !ok { ExtendsSame(t.lines); return; }
      BuiltMore(stored, t.lines, made, pre, got0 + got, addr, r.line);
      ExtendsMore(old(b.tmp.lines), stored, t.lines, addr, r.line);
      Listput(list, above, made, below, addr);
      b.lines := b.lines[..b.dot] + [addr] + b.lines[b.dot..];
      assert (got0 + got) + [r.line] == got0 + (got + [r.line]);
      made, got := made + [addr], got + [r.line];
      if yes {
        assert q.0 == got;
        return;
      }
      rest := ReadLines(fp.Rest(), room, room);
      assert (got[..|got| - 1] + [r.line]) + rest.0 == got[..|got| - 1] + ([r.line] + rest.0);
      assert got[..|got| - 1] + [r.line] == got;
    }
  }

  lemma Listput(list: seq<nat>, above: seq<nat>, made: seq<nat>, below: seq<nat>, addr: nat)
    requires list == above + made + below
    ensures var d := |above| + |made|; list[..d] + [addr] + list[d..] == above + (made + [addr]) + below
  {}

  lemma ExtendsMore(m: map<nat, string>, m': map<nat, string>, m'': map<nat, string>, a: nat, s: string)
    requires Extends(m, m') && a !in m' && m'' == m'[a := s]
    ensures Extends(m, m'')
  {}

  lemma BuiltMore(stored: map<nat, string>, stored': map<nat, string>, made: seq<nat>, pre: string, got: seq<string>,
                  a: nat, s: string)
    requires Built(stored, made, pre, got) && a !in stored && stored' == stored[a := s]
    ensures Built(stored', made + [a], pre, got + [s])
  {}

  lemma ReadLinesStep(src: string, room0: nat, room: nat)
    ensures var l := ReadLine(src, room0);
      ReadLines(src, room0, room) ==
      if l.ended.ByNewline? then (var q := ReadLines(l.rest, room, room); ([l.line] + q.0, q.1)) else ([l.line], l.ended)
  {}

  /** dofread's end: the last line read is fetched, and the text that followed the point joins it. */
  method Rejoin(b: Buffer, end: string, ghost above: seq<nat>, ghost made: seq<nat>, ghost below: seq<nat>,
                ghost pre: string, ghost got: seq<string>) returns (st: ReadStatus)
    requires b.tmp.Valid() && Built(b.tmp.lines, made, pre, got)
    requires b.lines == above + made + below && b.dot == |above| + |made| - 1
    requires forall i :: 0 <= i < |above| ==> above[i] in b.tmp.lines
    requires forall i :: 0 <= i < |below| ==> below[i] in b.tmp.lines
    requires NUL !in end && EOL !in end && EOL !in pre && EOL !in got[|got| - 1]
    modifies b, b.tmp`DFree, b.tmp`lines, b.tmp.cache, b.tmp.cache.b_cache, b.tmp.cache.bht
    ensures b.tmp.Valid() && Extends(old(b.tmp.lines), b.tmp.lines)
    ensures st.Done? ==> b.Valid() && b.dot == |above| + |made| - 1
    ensures st.Done? ==> b.lines == above + made[..|made| - 1] + [b.lines[b.dot]] + below
    ensures st.Done? ==> b.linebuf == b.tmp.lines[b.lines[b.dot]] == old(b.tmp.lines[made[|made| - 1]]) + end
    ensures st.FileFull? ==> b.tmp.cache.g.BlockNo(b.tmp.DFree) >= b.tmp.cache.g.maxBlocks - 1
    ensures st.Done? || st.FileFull? || st.JoinTooLong?
    ensures st.JoinTooLong? <==> |old(b.tmp.lines[made[|made| - 1]]) + end| >= b.tmp.cache.g.BlockSize()
  {
    hide TmpFile.Valid, Sizes.BlockSize, Sizes.BlockNo, Sizes.Ok;
    var t := b.tmp;
    ghost var stored := t.lines;
    assert b.lines[b.dot] == made[|made| - 1];
    b.linebuf := t.jgetline(b.lines[b.dot]);
    b.curchar := |b.linebuf|;
    if |b.linebuf| + |end| >= t.cache.g.BlockSize() { return JoinTooLong; }
    NoNulStored(t, made[|made| - 1]);
    b.linebuf := b.linebuf + end;
    var ok, addr := t.jputline(b.linebuf);
    if !ok { return FileFull; }
    UpToNewlineIs(b.linebuf, |b.linebuf|);
    b.lines := b.lines[b.dot := addr];
    b.DOLsave := false;
    return Done;
  }

  lemma NoNulStored(t: TmpFile, a: nat)
    requires t.Valid() && a in t.lines
    ensures NUL !in t.lines[a]
  {
    assert LineIn(t.cache.g, t.cache.view, a, t.lines[a], t.DFree);
  }

  /** dofread's beginning: the first line of the file goes after the text before the point. */
  method ReadFirst(b: Buffer, fp: InFile, pre: string) returns (ok: bool, yes: bool, addr: nat, out: string, ended: Ended)
    requires b.Valid() && fp.Valid() && !fp.f_eof && Apart(b, fp) && pre == b.linebuf[..b.curchar]
    modifies b`lines, b.tmp`DFree, b.tmp`lines, b.tmp.cache, b.tmp.cache.b_cache, b.tmp.cache.bht
    modifies fp`pos, fp`f_cnt, fp`f_ptr, fp`f_eof, fp.f_base
    ensures b.tmp.Valid() && fp.Valid() && Extends(old(b.tmp.lines), b.tmp.lines)
    ensures LineRead(out, fp.Rest(), ended) == ReadLine(old(fp.Rest()), b.tmp.cache.g.BlockSize() - b.curchar - 1)
    ensures yes == !ended.ByNewline?
    ensures ok ==> b.lines == old(b.lines)[b.dot := addr]
    ensures ok ==> Built(b.tmp.lines, [addr], pre, [out])
    ensures !ok ==> b.tmp.cache.g.BlockNo(b.tmp.DFree) >= b.tmp.cache.g.maxBlocks - 1
  {
    hide TmpFile.Valid, InFile.Valid, InFile.Rest, Sizes.BlockSize, Sizes.BlockNo, Sizes.Ok, ReadLine;
    var size := b.tmp.cache.g.BlockSize();
    ReadLineClean(fp.Rest(), size - b.curchar - 1);
    ok, addr := true, 0;
    yes, out, ended := fp.f_gets("", size - b.curchar);
    ok, addr := b.tmp.jputline(pre + out);
    if ok {
      UpToNewlineIs(pre + out, |pre + out|);
      b.lines := b.lines[b.dot := addr];
    }
  }

  method dofread(b: Buffer, fp: InFile) returns (st: ReadStatus, ghost read: (seq<string>, Ended))
    requires b.Valid() && fp.Valid() && !fp.f_eof && Apart(b, fp)
    modifies b, b.tmp`DFree, b.tmp`lines, b.tmp.cache, b.tmp.cache.b_cache, b.tmp.cache.bht
    modifies fp`pos, fp`f_cnt, fp`f_ptr, fp`f_eof, fp.f_base
    ensures b.tmp.Valid() && Extends(old(b.tmp.lines), b.tmp.lines)
    ensures read == (var size := b.tmp.cache.g.BlockSize(); ReadLines(old(fp.Rest()), size - old(b.curchar) - 1, size - 1))
    ensures st.Done? ==> b.Valid() && b.Text() == AfterRead(old(b.Text()), old(b.dot), old(b.curchar), read.0)
    ensures st.Done? ==> b.dot == old(b.dot) + |read.0| - 1
    ensures st.FileFull? ==> b.tmp.cache.g.BlockNo(b.tmp.DFree) >= b.tmp.cache.g.maxBlocks - 1
    ensures st.JoinTooLong? <==> (
      var last := read.0[|read.0| - 1]; var pre := if |read.0| == 1 then old(b.linebuf[..b.curchar]) else "";
      !st.FileFull? && |pre + last| + |old(b.linebuf[b.curchar..])| >= b.tmp.cache.g.BlockSize())
  {
    hide TmpFile.Valid, InFile.Valid, InFile.Rest, Sizes.BlockSize, Sizes.BlockNo, Sizes.Ok, ReadLine, ReadLines, Wrap, AfterRead;
    var t := b.tmp;
    var pre, end := b.linebuf[..b.curchar], b.linebuf[b.curchar..];
    ghost var src, above, below := fp.Rest(), b.lines[..b.dot], b.lines[b.dot + 1..];
    ghost var room0, room := t.cache.g.BlockSize() - b.curchar - 1, t.cache.g.BlockSize() - 1;
    ghost var stored, list, d, text := t.lines, b.lines, b.dot, b.Text();
    read := ReadLines(src, room0, room);
    ReadLinesStep(src, room0, room);
    var ok, yes, addr, out, ended := ReadFirst(b, fp, pre);
    if !ok { return FileFull, read; }
    ghost var made := [addr];
    ghost var q;
    assert b.lines == above + made + below;
    if !yes {
      ok, made, q := ReadRest(b, fp, above, made, below, pre, [out]);
      if !ok { return FileFull, read; }
    }
    ReadLinesClean(src, room0, room);
    ghost var stored1 := t.lines;
    assert EOL !in read.0[|read.0| - 1];
    st := Rejoin(b, end, above, made, below, pre, read.0);
    if st.Done? {
      RebuiltText(stored, stored1, t.lines, list, d, made, text, read.0, |pre|, b.lines, b.dot, b.linebuf);
    }
  }

  lemma RebuiltText(stored0: map<nat, string>, stored1: map<nat, string>, stored2: map<nat, string>, list: seq<nat>, d: nat,
                    made: seq<nat>, text: seq<string>, got: seq<string>, c: nat, list': seq<nat>, d': nat, linebuf: string)
    requires Extends(stored0, stored1) && Extends(stored1, stored2) && d < |list|
    requires (forall i :: 0 <= i < |list| ==> list[i] in stored0) && |text| == |list| && c <= |text[d]|
    requires forall i :: 0 <= i < |list| && i != d ==> text[i] == stored0[list[i]]
    requires Built(stored1, made, text[d][..c], got) && d' == d + |made| - 1
    requires d' < |list'| && list' == list[..d] + made[..|made| - 1] + [list'[d']] + list[d + 1..]
    requires linebuf == stored1[made[|made| - 1]] + text[d][c..]
    requires forall i :: 0 <= i < |list'| ==> list'[i] in stored2
    ensures TextOf(stored2, list', d', linebuf) == AfterRead(text, d, c, got)
  {
    var text' := TextOf(stored2, list', d', linebuf);
    var w := Wrap(text[d][..c], got, text[d][c..]);
    var r := AfterRead(text, d, c, got);
    WrapAt(text[d][..c], got, text[d][c..]);
    forall i | 0 <= i < |text'| ensures text'[i] == r[i] {
      if i < d {
        assert list'[i] == list[i];
      } else if i < d' {
        assert list'[i] == made[i - d] && r[i] == w[i - d];
      } else if i == d' {
        assert r[i] == w[|got| - 1];
      } else {
        assert list'[i] == list[i - |made| + 1];
      }
    }
  }

  lemma WrapAt(pre: string, ins: seq<string>, post: string)
    requires |ins| > 0
    ensures forall i :: 0 <= i < |ins| - 1 ==> Wrap(pre, ins, post)[i] == if i == 0 then pre + ins[0] else ins[i]
    ensures Wrap(pre, ins, post)[|ins| - 1] == (if |ins| == 1 then pre + ins[0] else ins[|ins| - 1]) + post
  {}

  lemma {:induction false} ReadLinesClean(src: string, room0: nat, room: nat)
    ensures forall i :: 0 <= i < |ReadLines(src, room0, room).0| ==>
      EOL !in ReadLines(src, room0, room).0[i] && NUL !in ReadLines(src, room0, room).0[i]
    decreases |src|
  {
    ReadLineClean(src, room0);
    RestShorter(src, room0);
    if ReadLine(src, room0).ended.ByNewline? {
      ReadLinesClean(ReadLine(src, room0).rest, room, room);
    }
  }

  /** The characters of a region, lines separated by newlines. */
  function Region(text: seq<string>, l1: nat, c1: nat, l2: nat, c2: nat): string
    requires l1 <= l2 < |text| && c1 <= |text[l1]| && c2 <= |text[l2]| && (l1 == l2 ==> c1 <= c2)
    decreases l2 - l1
  {
    if l1 == l2 then text[l1][c1..c2] else text[l1][c1..] + [EOL] + Region(text, l1 + 1, 0, l2, c2)
  }

  ghost predicate OutApart(b: Buffer, fp: OutFile)
    reads {}
  {
    {fp as object, fp.f_base} !! {b as object, b.tmp, b.tmp.cache, b.tmp.cache.b_cache, b.tmp.cache.bht}
  }

  /** Writes the line of the list from place `c1`: up to its NUL, or `n` characters of it. */
  method PutLine(b: Buffer, fp: OutFile, line: nat, c1: nat, whole: bool, n: nat)
    requires b.Valid() && fp.Valid() && OutApart(b, fp) && line < |b.lines| && c1 <= |b.Text()[line]|
    requires whole || c1 + n <= |b.Text()[line]|
    modifies b.tmp.cache, b.tmp.cache.b_cache, b.tmp.cache.bht
    modifies fp`file, fp`pos, fp`f_cnt, fp`f_ptr, fp.f_base
    ensures b.Valid() && fp.Valid() && b.Text() == old(b.Text())
    ensures var s := if whole then b.Text()[line][c1..] else b.Text()[line][c1..c1 + n];
      fp.At() == old(fp.At()) + |s| && old(fp.At()) <= |old(fp.Contents())| &&
      fp.Contents() == WriteAt(old(fp.Contents()), old(fp.At()), s)
  {
    hide TmpFile.Valid, OutFile.Contents, OutFile.At, OutFile.Shape, WriteAt, HoldsAt;
    ghost var s := b.Text()[line];
    var bp, off := -1, 0;
    if line != b.dot {
      NoNulStored(b.tmp, b.lines[line]);
      bp, off := b.tmp.lbptr(b.lines[line]);
    }
    assert NUL !in s;
    ghost var contents, at := fp.Contents(), fp.At();
    var i := c1;
    WriteNothing(fp);
    while true
      invariant b.Valid() && fp.Valid() && c1 <= i <= |s| && (whole || i <= c1 + n)
      invariant b.lines == old(b.lines) && b.dot == old(b.dot) && b.linebuf == old(b.linebuf)
      invariant if bp == -1 then b.linebuf == s else
                0 <= bp < b.tmp.cache.b_cache.Length && HoldsAt(b.tmp.cache.b_cache[bp].buf, off, s)
      invariant fp.At() == at + (i - c1) && at <= |contents|
      invariant fp.Contents() == WriteAt(contents, at, s[c1..i])
      modifies fp`file, fp`pos, fp`f_cnt, fp`f_ptr, fp.f_base
      decreases |s| - i
    {
      if !whole && i == c1 + n { break; }
      if bp != -1 { HeldChar(b.tmp.cache.b_cache[bp].buf, off, s, i); }
      var c := if bp != -1 then b.tmp.cache.b_cache[bp].buf[off + i] else if i < |b.linebuf| then b.linebuf[i] else NUL;
      assert c == if i < |s| then s[i] else NUL;
      if c == NUL { break; }
      fp.f_putc(c);
      WriteTwice(contents, at, s[c1..i], [c]);
      SliceMore(s, c1, i);
      i := i + 1;
    }
    assert whole ==> i == |s|;
    assert s[c1..|s|] == s[c1..];
  }

  lemma SliceMore(s: string, i: nat, j: nat)
    requires i <= j < |s|
    ensures s[i..j + 1] == s[i..j] + [s[j]]
  {}

  lemma HeldChar(buf: seq<char>, off: nat, s: string, i: nat)
    requires HoldsAt(buf, off, s) && i <= |s|
    ensures off + i < |buf| && buf[off + i] == if i < |s| then s[i] else NUL
  {
    assert i < |s| ==> buf[off..off + |s|][i] == s[i];
  }

  lemma WriteNothing(fp: OutFile)
    requires fp.Valid()
    ensures fp.At() <= |fp.Contents()| && WriteAt(fp.Contents(), fp.At(), "") == fp.Contents()
  {}

  /** Writes a region of the buffer. */
  method putreg(b: Buffer, fp: OutFile, l1: nat, c1: nat, l2: nat, c2: nat)
    requires b.Valid() && fp.Valid() && OutApart(b, fp) && l1 <= l2 < |b.lines|
    requires c1 <= |b.Text()[l1]| && c2 <= |b.Text()[l2]| && (l1 == l2 ==> c1 <= c2)
    modifies b.tmp.cache, b.tmp.cache.b_cache, b.tmp.cache.bht
    modifies fp`file, fp`pos, fp`f_cnt, fp`f_ptr, fp.f_base
    ensures b.Valid() && fp.Valid() && b.Text() == old(b.Text())
    ensures old(fp.At()) <= |old(fp.Contents())|
    ensures fp.file == fp.Contents() == WriteAt(old(fp.Contents()), old(fp.At()), Region(b.Text(), l1, c1, l2, c2))
  {
    hide TmpFile.Valid, OutFile.Contents, OutFile.At, OutFile.Shape, WriteAt, Buffer.Text;
    ghost var contents, at, text := fp.Contents(), fp.At(), b.Text();
    ghost var done := "";
    WriteNothing(fp);
    var line: nat, c: nat := l1, c1;
    while line <= l2
      invariant b.Valid() && fp.Valid() && b.Text() == text && l1 <= line <= l2 + 1
      invariant line <= l2 ==> c <= |text[line]| && (line == l2 ==> c <= c2)
      invariant line <= l2 ==> done + Region(text, line, c, l2, c2) == Region(text, l1, c1, l2, c2)
      invariant line == l2 + 1 ==> done == Region(text, l1, c1, l2, c2)
      invariant at <= |contents| && fp.At() == at + |done| && fp.Contents() == WriteAt(contents, at, done)
    {
      ghost var done0, part := done, if line == l2 then text[line][c..c2] else text[line][c..];
      PutLine(b, fp, line, c, line != l2, if line == l2 then c2 - c else 0);
      WriteTwice(contents, at, done, part);
      done := done + part;
      if line != l2 {
        fp.f_putc(EOL);
        WriteTwice(contents, at, done, [EOL]);
        done := done + [EOL];
      }
      RegionStep(text, line, c, l2, c2, done0, done);
      line, c := line + 1, 0;
    }
    fp.flushout();
  }

  lemma RegionStep(text: seq<string>, line: nat, c: nat, l2: nat, c2: nat, done: string, done': string)
    requires line <= l2 < |text| && c <= |text[line]| && c2 <= |text[l2]| && (line == l2 ==> c <= c2)
    requires done' == if line == l2 then done + text[line][c..c2] else (done + text[line][c..]) + [EOL]
    ensures line == l2 ==> done' == done + Region(text, line, c, l2, c2)
    ensures line < l2 ==> done' + Region(text, line + 1, 0, l2, c2) == done + Region(text, line, c, l2, c2)
  {
    if line < l2 {
      var r := Region(text, line + 1, 0, l2, c2);
      assert ((done + text[line][c..]) + [EOL]) + r == done + (text[line][c..] + [EOL] + r);
    }
  }

  lemma {:induction false} ReadLineText(src: string, room: nat)
    ensures var r := ReadLine(src, room); var t := NoNuls(src);
      match r.ended
      case ByNewline => t == r.line + [EOL] + NoNuls(r.rest)
      case ByEof => t == r.line
      case TooLong => |r.line| == room < |t| && t[..room] == r.line && t[room] != EOL
  {
    if src != [] && src[0] != EOL {
      if src[0] == NUL { ReadLineText(src[1..], room); }
      else if room > 0 {
        ReadLineText(src[1..], room - 1);
        var q := ReadLine(src[1..], room - 1);
        assert ([src[0]] + q.line) + [EOL] + NoNuls(q.rest) == [src[0]] + (q.line + [EOL] + NoNuls(q.rest));
        if q.ended.TooLong? {
          assert NoNuls(src)[..room] == [src[0]] + NoNuls(src[1..])[..room - 1];
        }
      }
    }
  }

  /** What was read to the end of the file joins up to the file, less its NULs. */
  lemma {:induction false} JoinReadLines(src: string, room0: nat, room: nat)
    requires ReadLines(src, room0, room).1.ByEof?
    ensures Join(ReadLines(src, room0, room).0) == NoNuls(src)
    decreases |src|
  {
    ReadLineText(src, room0);
    RestShorter(src, room0);
    var l := ReadLine(src, room0);
    if l.ended.ByNewline? {
      JoinReadLines(l.rest, room, room);
      var q := ReadLines(l.rest, room, room);
      assert ([l.line] + q.0)[1..] == q.0;
    }
  }

  /** Where a line is cut, the rest of the file is missing. */
  lemma {:induction false} CutShorter(src: string, room0: nat, room: nat)
    requires ReadLines(src, room0, room).1.TooLong?
    ensures |Join(ReadLines(src, room0, room).0)| < |NoNuls(src)|
    decreases |src|
  {
    ReadLineText(src, room0);
    RestShorter(src, room0);
    var l := ReadLine(src, room0);
    if l.ended.ByNewline? {
      CutShorter(l.rest, room, room);
      var q := ReadLines(l.rest, room, room);
      assert ([l.line] + q.0)[1..] == q.0;
    }
  }

  lemma {:induction false} JoinClean(lines: seq<string>)
    requires lines != [] && forall i :: 0 <= i < |lines| ==> NUL !in lines[i]
    ensures NUL !in Join(lines)
  {
    if |lines| > 1 { JoinClean(lines[1..]); }
  }

  /** The file comes back exactly when none of its lines is too long, NULs apart. */
  lemma WholeIff(src: string, room: nat)
    ensures Join(ReadLines(src, room, room).0) == NoNuls(src) <==> LinesFit(NoNuls(src), room)
    ensures Join(ReadLines(src, room, room).0) == src <==> NUL !in src && LinesFit(src, room)
  {
    hide Join, NoNuls, LinesFit, ReadLines;
    var read := ReadLines(src, room, room);
    ReadsToEnd(src, room);
    EndsOr(src, room);
    if read.1.ByEof? { JoinReadLines(src, room, room); } else { CutShorter(src, room, room); }
    ReadLinesClean(src, room, room);
    JoinClean(read.0);
    if NUL !in src { NoNulsSame(src); }
  }

  lemma {:induction false} EndsOr(src: string, room: nat)
    ensures var e := ReadLines(src, room, room).1; e.ByEof? || e.TooLong?
    decreases |src|
  {
    RestShorter(src, room);
    if ReadLine(src, room).ended.ByNewline? { EndsOr(ReadLine(src, room).rest, room); }
  }

  lemma LinesFitCons(line: string, rest: string, room: nat)
    requires EOL !in line
    ensures LinesFit(line + [EOL] + rest, room) <==> |line| <= room && LinesFit(rest, room)
  {
    var s := line + [EOL] + rest;
    var n := |line| + 1;
    if LinesFit(s, room) {
      assert s[0..|line|] == line;
      forall i, j | 0 <= i <= j <= |rest| && EOL !in rest[i..j] ensures j - i <= room {
        assert s[n + i..n + j] == rest[i..j];
      }
    }
    if |line| <= room && LinesFit(rest, room) {
      forall i, j | 0 <= i <= j <= |s| ensures EOL in s[i..j] || j - i <= room {
        if i < n && j >= n {
          assert s[i..j][n - 1 - i] == EOL;
        } else if i >= n {
          assert s[n..] == rest;
          assert s[i..j] == s[n..][i - n..j - n];
          assert EOL !in rest[i - n..j - n] ==> (j - n) - (i - n) <= room;
        }
      }
    }
  }

  /** The whole file is read exactly when, its NULs apart, no line is longer than the room. */
  lemma {:induction false} ReadsToEnd(src: string, room: nat)
    ensures ReadLines(src, room, room).1.ByEof? <==> LinesFit(NoNuls(src), room)
    decreases |src|
  {
    var l, t := ReadLine(src, room), NoNuls(src);
    ReadLineText(src, room);
    ReadLineClean(src, room);
    RestShorter(src, room);
    match l.ended
    case ByNewline =>
      ReadsToEnd(l.rest, room);
      LinesFitCons(l.line, NoNuls(l.rest), room);
    case ByEof =>
    case TooLong =>
      assert t[0..room + 1] == l.line + [t[room]];
      assert EOL !in t[0..room + 1];
  }

  lemma {:induction false} NoNulsSame(s: string)
    requires NUL !in s
    ensures NoNuls(s) == s
  {
    if s != [] {
      NoNulsSame(s[1..]);
    }
  }

  lemma {:induction false} RegionWhole(text: seq<string>, l1: nat)
    requires l1 < |text|
    ensures Region(text, l1, 0, |text| - 1, |text[|text| - 1]|) == Join(text[l1..])
    decreases |text| - l1
  {
    if l1 < |text| - 1 {
      RegionWhole(text, l1 + 1);
      assert text[l1..][1..] == text[l1 + 1..];
    }
  }

  method ReadIntoEmpty(b: Buffer, contents: string, insize: nat) returns (st: ReadStatus)
    requires b.Valid() && b.Text() == [""] && insize > 0
    modifies b, b.tmp`DFree, b.tmp`lines, b.tmp.cache, b.tmp.cache.b_cache, b.tmp.cache.bht
    ensures st.FileFull? ==> b.tmp.cache.g.BlockNo(b.tmp.DFree) >= b.tmp.cache.g.maxBlocks - 1
    ensures st.Done? ==> b.Valid()
    ensures b.tmp.cache.g.BlockSize() >= 1 && (!st.FileFull? ==> st.Done?)
    ensures st.Done? ==> b.Text() == ReadLines(contents, b.tmp.cache.g.BlockSize() - 1, b.tmp.cache.g.BlockSize() - 1).0
  {
    hide TmpFile.Valid, InFile.Valid, InFile.Rest, Sizes.BlockSize, Sizes.BlockNo, Sizes.Ok, ReadLine, ReadLines,
      Wrap, AfterRead, LinesFit, Join, NoNuls;
    ghost var room := b.tmp.cache.g.BlockSize() - 1;
    assert b.linebuf == b.Text()[b.dot] == "";
    var fp := new InFile(contents, insize);
    ghost var read;
    st, read := dofread(b, fp);
    ReadLinesRoom(contents, room, room);
    if st.Done? { AfterReadEmpty(read.0); }
  }

  method WriteWhole(b: Buffer, outsize: nat) returns (out: OutFile)
    requires b.Valid() && outsize > 0
    modifies b.tmp.cache, b.tmp.cache.b_cache, b.tmp.cache.bht
    ensures b.Valid() && b.Text() == old(b.Text()) && out.file == Join(b.Text())
  {
    hide TmpFile.Valid, OutFile.Contents, OutFile.At, OutFile.Shape, Buffer.Text, Region, Join, WriteAt;
    out := new OutFile("", outsize);
    ghost var text := b.Text();
    var last := |b.lines| - 1;
    var n := LineLength(b, last);
    putreg(b, out, 0, 0, last, n);
    RegionWhole(text, 0);
    assert text[0..] == text;
    WriteNew(Join(text));
  }

  lemma WriteNew(s: string)
    ensures WriteAt("", 0, s) == s
  {}

  /** A file is read into an empty buffer and the whole buffer is written to a new file: the same
      bytes come out, less any NULs, exactly when each line fits. */
  method ReadThenWrite(b: Buffer, contents: string, insize: nat, outsize: nat) returns (st: ReadStatus, out: OutFile?)
    requires b.Valid() && b.Text() == [""] && insize > 0 && outsize > 0
    modifies b, b.tmp`DFree, b.tmp`lines, b.tmp.cache, b.tmp.cache.b_cache, b.tmp.cache.bht
    ensures st.FileFull? ==> b.tmp.cache.g.BlockNo(b.tmp.DFree) >= b.tmp.cache.g.maxBlocks - 1
    ensures !st.FileFull? ==> st.Done? && out != null
    ensures b.tmp.cache.g.BlockSize() >= 1
    ensures st.Done? ==> (out.file == NoNuls(contents) <==> LinesFit(NoNuls(contents), b.tmp.cache.g.BlockSize() - 1))
    ensures st.Done? ==> (out.file == contents <==> NUL !in contents && LinesFit(contents, b.tmp.cache.g.BlockSize() - 1))
  {
    hide *;
    out := null;
    st := ReadIntoEmpty(b, contents, insize);
    if st.Done? {
      WholeIff(contents, b.tmp.cache.g.BlockSize() - 1);
      out := WriteWhole(b, outsize);
    }
  }

  /** strlen(lcontents(line)) */
  method LineLength(b: Buffer, line: nat) returns (n: nat)
    requires b.Valid() && line < |b.lines|
    modifies b.tmp.cache, b.tmp.cache.b_cache, b.tmp.cache.bht
    ensures b.Valid() && b.Text() == old(b.Text()) && n == |b.Text()[line]|
  {
    hide TmpFile.Valid;
    if line == b.dot { return |b.linebuf|; }
    var s := b.tmp.jgetline(b.lines[line]);
    return |s|;
  }

  lemma WrapEmpty(ins: seq<string>)
    requires |ins| > 0
    ensures Wrap("", ins, "") == ins
  {
    WrapAt("", ins, "");
    assert forall x: string :: "" + x == x && x + "" == x;
  }

  lemma AfterReadEmpty(ins: seq<string>)
    requires |ins| > 0
    ensures AfterRead([""], 0, 0, ins) == ins
  {
    WrapEmpty(ins);
    assert [""][..0] + Wrap("", ins, "") + [""][1..] == Wrap("", ins, "");
  }

  lemma {:induction false} ReadLinesRoom(src: string, room0: nat, room: nat)
    requires room0 <= room
    ensures forall i :: 0 <= i < |ReadLines(src, room0, room).0| ==> |ReadLines(src, room0, room).0[i]| <= room
    decreases |src|
  {
    ReadLineClean(src, room0);
    RestShorter(src, room0);
    if ReadLine(src, room0).ended.ByNewline? {
      ReadLinesRoom(ReadLine(src, room0).rest, room, room);
    }
  }
}
