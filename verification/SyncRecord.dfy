/** SyncRec: the modified buffers are put where a crash cannot touch them. */
module SyncRecord {
  import opened Geometry
  import opened BlockCache
  import opened LineStore
  import opened StdFile
  import opened RecordFile

  /** A buffer as SyncRec sees it: its line list, first to last, and its point. */
  datatype Buf = Buf(name: string, fname: string, scratch: bool, modified: bool, lines: seq<LineDesc>, dot: nat, dotchar: nat)
  {
    predicate Wanted() { !scratch && modified }
  }

  function Entry(w: Widths, b: Buf): RecEntry
    requires w.Ok()
  {
    RecEntry(if |b.name| < w.name then b.name else b.name[..w.name - 1], b.fname, |b.lines|, b.dot, b.dotchar)
  }

  function Wanted(world: seq<Buf>): (r: seq<Buf>)
    ensures forall i :: 0 <= i < |r| ==> r[i] in world
  {
    if world == [] then [] else
      (if world[0].Wanted() then [world[0]] else []) + Wanted(world[1..])
  }

  function Entries(w: Widths, bs: seq<Buf>): string
    requires w.Ok()
  {
    if bs == [] then [] else EncodeEntry(w, Entry(w, bs[0])) + Entries(w, bs[1..])
  }

  function Pointers(w: Widths, ls: seq<LineDesc>): string
    requires w.Ok()
  {
    if ls == [] then [] else EncodeAddr(w, ls[0]) + Pointers(w, ls[1..])
  }

  function AllPointers(w: Widths, bs: seq<Buf>): string
    requires w.Ok()
  {
    if bs == [] then [] else Pointers(w, bs[0].lines) + AllPointers(w, bs[1..])
  }

  /** What the recovery file starts with. */
  function Image(w: Widths, h: RecHead, bs: seq<Buf>): string
    requires w.Ok()
  {
    EncodeHead(w, h) + Entries(w, bs) + AllPointers(w, bs)
  }

  lemma {:induction false} EntriesAppend(w: Widths, bs: seq<Buf>, b: Buf)
    requires w.Ok()
    ensures Entries(w, bs + [b]) == Entries(w, bs) + EncodeEntry(w, Entry(w, b))
  {
    if bs != [] {
      assert (bs + [b])[1..] == bs[1..] + [b];
      EntriesAppend(w, bs[1..], b);
    }
  }

  lemma {:induction false} PointersAppend(w: Widths, ls: seq<LineDesc>, l: LineDesc)
    requires w.Ok()
    ensures Pointers(w, ls + [l]) == Pointers(w, ls) + EncodeAddr(w, l)
  {
    if ls != [] {
      assert (ls + [l])[1..] == ls[1..] + [l];
      PointersAppend(w, ls[1..], l);
    }
  }

  lemma {:induction false} AllPointersAppend(w: Widths, bs: seq<Buf>, b: Buf)
    requires w.Ok()
    ensures AllPointers(w, bs + [b]) == AllPointers(w, bs) + Pointers(w, b.lines)
  {
    if bs != [] {
      assert (bs + [b])[1..] == bs[1..] + [b];
      AllPointersAppend(w, bs[1..], b);
    }
  }

  lemma {:induction false} WantedAppend(world: seq<Buf>, b: Buf)
    ensures Wanted(world + [b]) == Wanted(world) + (if b.Wanted() then [b] else [])
  {
    if world == [] {
      assert world + [b] == [b];
    } else {
      assert (world + [b])[1..] == world[1..] + [b];
      WantedAppend(world[1..], b);
    }
  }

  /** The same buffers, but for the addresses of their lines. */
  ghost predicate SameLines(a: seq<Buf>, b: seq<Buf>) {
    && |a| == |b|
    && forall k :: 0 <= k < |a| ==> |b[k].lines| == |a[k].lines| && b[k] == a[k].(lines := b[k].lines)
  }

  lemma {:induction false} WantedCount(a: seq<Buf>, b: seq<Buf>)
    requires SameLines(a, b)
    ensures |Wanted(a)| == |Wanted(b)|
  {
    if a != [] {
      assert SameLines(a[1..], b[1..]);
      WantedCount(a[1..], b[1..]);
    }
  }

  ghost predicate BufOk(b: Buf, stored: map<nat, string>) {
    && b.dot < |b.lines|
    && forall i :: 0 <= i < |b.lines| ==> b.lines[i].addr in stored
  }

  /** The text of a buffer; if it is the current one, its current line is in linebuf. */
  ghost function BufText(b: Buf, current: bool, linebuf: string, stored: map<nat, string>): (r: seq<string>)
    requires BufOk(b, stored)
    ensures |r| == |b.lines|
    ensures forall i :: 0 <= i < |b.lines| ==> r[i] == if current && i == b.dot then linebuf else stored[b.lines[i].addr]
  {
    seq(|b.lines|, i requires 0 <= i < |b.lines| => if current && i == b.dot then linebuf else stored[b.lines[i].addr])
  }

  ghost function TextsOf(world: seq<Buf>, curbuf: nat, linebuf: string, stored: map<nat, string>): (r: seq<seq<string>>)
    requires forall k :: 0 <= k < |world| ==> BufOk(world[k], stored)
    ensures |r| == |world|
    ensures forall k :: 0 <= k < |world| ==> r[k] == BufText(world[k], k == curbuf, linebuf, stored)
  {
    seq(|world|, k requires 0 <= k < |world| => BufText(world[k], k == curbuf, linebuf, stored))
  }

  lemma BufFacts(b: Buf, stored: map<nat, string>)
    requires BufOk(b, stored)
    ensures b.dot < |b.lines| && b.lines[b.dot].addr in stored
  {}

  lemma SameLinesSame(a: seq<Buf>)
    ensures SameLines(a, a)
  {}

  /** Another address for the current line changes no text. */
  lemma MovedLine(a: seq<Buf>, curbuf: nat, linebuf: string, stored: map<nat, string>, stored': map<nat, string>, l: LineDesc)
    requires Extends(stored, stored') && curbuf < |a| && a[curbuf].dot < |a[curbuf].lines| && l.addr in stored'
    requires forall k :: 0 <= k < |a| ==> BufOk(a[k], stored)
    ensures var b := a[curbuf := a[curbuf].(lines := a[curbuf].lines[a[curbuf].dot := l])];
      SameLines(a, b) && (forall k :: 0 <= k < |b| ==> BufOk(b[k], stored')) &&
      TextsOf(b, curbuf, linebuf, stored') == TextsOf(a, curbuf, linebuf, stored)
  {
    var b := a[curbuf := a[curbuf].(lines := a[curbuf].lines[a[curbuf].dot := l])];
    forall k | 0 <= k < |b| ensures BufOk(b[k], stored') {
      assert BufOk(a[k], stored);
    }
    forall k | 0 <= k < |b|
      ensures BufText(b[k], k == curbuf, linebuf, stored') == BufText(a[k], k == curbuf, linebuf, stored)
    {}
  }

  class Editor {
    const tmp: TmpFile
    const w: Widths
    const bufsize: nat
    var world: seq<Buf>
    var curbuf: nat
    var linebuf: string
    var DOLsave: bool
    var rec_out: OutFile?
    var Header: RecHead

    constructor (tmp: TmpFile, w: Widths, bufsize: nat, world: seq<Buf>, curbuf: nat, linebuf: string, head: RecHead)
      requires tmp.Valid() && w.Ok() && bufsize > 0 && curbuf < |world|
      requires forall i :: 0 <= i < |world| ==> BufOk(world[i], tmp.lines)
      requires |linebuf| < tmp.cache.g.BlockSize() && NUL !in linebuf && EOL !in linebuf
      ensures Valid() && this.tmp == tmp && this.w == w && this.world == world && this.linebuf == linebuf && this.curbuf == curbuf
    {
      this.tmp, this.w, this.bufsize, this.world, this.curbuf, this.linebuf, this.Header := tmp, w, bufsize, world, curbuf, linebuf, head;
      DOLsave, rec_out := true, null;
    }

    ghost predicate Shape()
      reads this, tmp
    {
      && w.Ok() && bufsize > 0 && curbuf < |world|
      && (forall i :: 0 <= i < |world| ==> BufOk(world[i], tmp.lines))
      && |linebuf| < tmp.cache.g.BlockSize() && NUL !in linebuf && EOL !in linebuf
      && (!DOLsave ==> linebuf == tmp.lines[CurLine()])
    }

    function CurLine(): nat
      reads this
      requires curbuf < |world| && world[curbuf].dot < |world[curbuf].lines|
    {
      world[curbuf].lines[world[curbuf].dot].addr
    }

    ghost predicate Valid()
      reads this, tmp, tmp.cache, tmp.cache.b_cache, tmp.cache.bht, rec_out, if rec_out == null then {} else {rec_out.f_base}
    {
      && tmp.Valid() && Shape()
      && (rec_out != null ==> rec_out.Valid() &&
                              {rec_out as object, rec_out.f_base} !! {this as object, tmp, tmp.cache, tmp.cache.b_cache, tmp.cache.bht})
    }

    /** The text of every buffer. */
    ghost function Texts(): seq<seq<string>>
      reads this, tmp
      requires Shape()
    {
      TextsOf(world, curbuf, linebuf, tmp.lines)
    }

    method lsave() returns (ok: bool)
      requires Valid()
      modifies this`world, this`DOLsave, tmp`DFree, tmp`lines, tmp.cache, tmp.cache.b_cache, tmp.cache.bht
      ensures Valid() && |world| == |old(world)|
      ensures ok ==> !DOLsave
      ensures SameLines(old(world), world)
      ensures Texts() == old(Texts())
      ensures Extends(old(tmp.lines), tmp.lines) && old(tmp.cache.hist) <= tmp.cache.hist
      ensures !ok ==> tmp.cache.g.BlockNo(tmp.DFree) >= tmp.cache.g.maxBlocks - 1
    {
      hide TmpFile.Valid, Sizes.BlockNo, Sizes.BlockSize, OutFile.Valid, TextsOf, BufOk, SameLines;
      SameLinesSame(world);
      ExtendsSame(tmp.lines);
      if !DOLsave { return true; }
      ok := true;
      assert world[curbuf].dot < |world[curbuf].lines| && CurLine() in tmp.lines by { BufFacts(world[curbuf], tmp.lines); }
      var stored := tmp.jgetline(CurLine());
      if stored != linebuf {
        ghost var lines := tmp.lines;
        var addr;
        ok, addr := tmp.jputline(linebuf);
        if !ok { return false; }
        UpToNewlineIs(linebuf, |linebuf|);
        MovedLine(world, curbuf, linebuf, lines, tmp.lines, LineDesc(addr, false));
        var b := world[curbuf];
        world := world[curbuf := b.(lines := b.lines[b.dot := LineDesc(addr, false)])];
      }
      DOLsave := false;
    }

    /** Writes the record of a buffer. */
    method dmp_buf_header(b: Buf, ghost contents: string, ghost done: string)
      requires w.Ok() && rec_out != null && rec_out.Valid() && b.dot <= |b.lines|
      requires rec_out.At() == |done| && rec_out.Contents() == WriteAt(contents, 0, done)
      modifies rec_out, rec_out.f_base
      ensures rec_out.Valid()
      ensures var done' := done + EncodeEntry(w, Entry(w, b));
        rec_out.At() == |done'| && rec_out.Contents() == WriteAt(contents, 0, done')
    {
      hide OutFile.Shape, OutFile.Contents, OutFile.At, WriteAt, Pointers, EncodeAddr, EncodeEntry, Entry;
      var r_dotline := b.dot;
      var r_nlines := r_dotline + (|b.lines| - b.dot);
      var r_bname := if |b.name| < w.name then b.name else b.name[..w.name - 1];
      var record := RecEntry(r_bname, b.fname, r_nlines, r_dotline, b.dotchar);
      EntryIs(w, b, record);
      rec_out.fputnchar(EncodeEntry(w, record));
      WriteTwice(contents, 0, done, EncodeEntry(w, record));
    }

    /** Writes the line addresses of a buffer. */
    method dmppntrs(b: Buf, ghost contents: string, ghost done: string)
      requires w.Ok() && rec_out != null && rec_out.Valid()
      requires rec_out.At() == |done| && rec_out.Contents() == WriteAt(contents, 0, done)
      modifies rec_out, rec_out.f_base
      ensures rec_out.Valid()
      ensures var done' := done + Pointers(w, b.lines);
        rec_out.At() == |done'| && rec_out.Contents() == WriteAt(contents, 0, done')
    {
      hide OutFile.Shape, OutFile.Contents, OutFile.At, WriteAt, Pointers, EncodeAddr, EncodeEntry, Entry;
      var i := 0;
      ghost var so_far := done;
      PointersNone(w);
      assert done + "" == done;
      while i < |b.lines|
        invariant rec_out != null && rec_out.Valid() && i <= |b.lines| && so_far == done + Pointers(w, b.lines[..i])
        invariant rec_out.At() == |so_far| && rec_out.Contents() == WriteAt(contents, 0, so_far)
      {
        var l := EncodeAddr(w, b.lines[i]);
        rec_out.fputnchar(l);
        WriteTwice(contents, 0, so_far, l);
        assert b.lines[..i + 1] == b.lines[..i] + [b.lines[i]];
        PointersAppend(w, b.lines[..i], b.lines[i]);
        assert (done + Pointers(w, b.lines[..i])) + l == done + (Pointers(w, b.lines[..i]) + l);
        so_far := so_far + l;
        i := i + 1;
      }
      assert b.lines[..i] == b.lines;
    }

    method CountWanted() returns (n: nat)
      ensures n == |Wanted(world)|
    {
      var i := 0;
      n := 0;
      while i < |world|
        invariant i <= |world| && n == |Wanted(world[..i])|
      {
        assert world[..i + 1] == world[..i] + [world[i]];
        WantedAppend(world[..i], world[i]);
        if world[i].Wanted() { n := n + 1; }
        i := i + 1;
      }
      assert world[..i] == world;
    }

    /** Puts the modified buffers on record.  `bs` is what was recorded. */
    method SyncRec(now: nat) returns (ok: bool, ghost bs: seq<Buf>)
      requires Valid()
      modifies this, tmp`DFree, tmp`lines, tmp`synced, tmp`mark, tmp.cache, tmp.cache.b_cache, tmp.cache.bht
      modifies rec_out, if rec_out == null then {} else {rec_out.f_base}
      ensures Valid() && bs == Wanted(world) && |world| == |old(world)|
      ensures SameLines(old(world), world)
      ensures Texts() == old(Texts())
      ensures Extends(old(tmp.lines), tmp.lines) && old(tmp.cache.hist) <= tmp.cache.hist
      ensures !ok ==> tmp.cache.g.BlockNo(tmp.DFree) >= tmp.cache.g.maxBlocks - 1
      ensures ok && bs != [] ==> !DOLsave && rec_out != null && Header.Nbuffers == |bs|
      ensures ok && bs != [] ==> Image(w, Header, bs) <= rec_out.file
      ensures ok && bs != [] ==> tmp.synced == tmp.lines && tmp.mark == |tmp.cache.hist| - 1
    {
      hide TmpFile.Valid, OutFile.Valid, Sizes.BlockNo, Sizes.BlockSize, Wanted, Image, Stored;
      bs := Wanted(world);
      var n := CountWanted();
      Header := Header.(Nbuffers := n);
      if n == 0 { return true, bs; }
      ok := Settle();
      bs := Wanted(world);
      if !ok { return; }
      WantedCount(old(world), world);
      WriteImage(now, bs);
    }

    /** The lines are put where the file alone holds them. */
    method Settle() returns (ok: bool)
      requires Valid()
      modifies this`world, this`DOLsave, tmp`DFree, tmp`lines, tmp`synced, tmp`mark
      modifies tmp.cache, tmp.cache.b_cache, tmp.cache.bht
      ensures Valid() && SameLines(old(world), world)
      ensures Texts() == old(Texts())
      ensures Extends(old(tmp.lines), tmp.lines) && old(tmp.cache.hist) <= tmp.cache.hist
      ensures !ok ==> tmp.cache.g.BlockNo(tmp.DFree) >= tmp.cache.g.maxBlocks - 1
      ensures ok ==> !DOLsave && tmp.synced == tmp.lines && tmp.mark == |tmp.cache.hist| - 1
    {
      hide TmpFile.Valid, OutFile.Valid, Sizes.BlockNo, Sizes.BlockSize, Stored;
      ok := lsave();
      if ok {
        tmp.SyncTmp();
        tmp.Snapshot();
      }
    }

    method WriteImage(now: nat, ghost bs: seq<Buf>)
      requires Valid() && bs == Wanted(world) && Header.Nbuffers == |bs|
      modifies this`rec_out, this`Header, rec_out, if rec_out == null then {} else {rec_out.f_base}
      ensures Valid() && rec_out != null && Header.Nbuffers == |bs|
      ensures Image(w, Header, bs) <= rec_out.file
    {
      hide TmpFile.Valid, OutFile.Shape, OutFile.Contents, OutFile.At, Sizes.BlockNo, Sizes.BlockSize, Wanted, Image, Stored;
      if rec_out == null {
        rec_out := new OutFile("", bufsize);
      }
      rec_out.f_seek(0);
      Header := Header.(UpdTime := now, FreePtr := tmp.DFree);
      assert forall k :: 0 <= k < |world| ==> BufOk(world[k], tmp.lines);
      WriteRecords(bs);
    }

    /** The part of SyncRec that writes. */
    method WriteRecords(ghost bs: seq<Buf>)
      requires w.Ok() && rec_out != null && rec_out.Valid() && rec_out.At() == 0 && bs == Wanted(world)
      requires forall k :: 0 <= k < |world| ==> world[k].dot < |world[k].lines|
      requires this !in {rec_out as object, rec_out.f_base}
      modifies rec_out, rec_out.f_base
      ensures rec_out.Valid() && Image(w, Header, bs) <= rec_out.file
    {
      hide OutFile.Shape, OutFile.Contents, OutFile.At, WriteAt, Pointers, EncodeAddr, EncodeEntry, Entry, EncodeHead, Wanted, Entries, AllPointers;
      ghost var contents := rec_out.Contents();
      ghost var done := EncodeHead(w, Header);
      PointersNone(w);
      rec_out.fputnchar(EncodeHead(w, Header));
      var i := 0;
      assert done + "" == done;
      while i < |world|
        invariant i <= |world| && rec_out != null && rec_out.Valid()
        invariant done == EncodeHead(w, Header) + Entries(w, Wanted(world[..i]))
        invariant rec_out.At() == |done| && rec_out.Contents() == WriteAt(contents, 0, done)
      {
        assert world[..i + 1] == world[..i] + [world[i]];
        WantedAppend(world[..i], world[i]);
        EntriesAppend(w, Wanted(world[..i]), world[i]);
        assert Wanted(world[..i]) + [] == Wanted(world[..i]);
        Assoc(EncodeHead(w, Header), Entries(w, Wanted(world[..i])), EncodeEntry(w, Entry(w, world[i])));
        if world[i].Wanted() {
          dmp_buf_header(world[i], contents, done);
          done := done + EncodeEntry(w, Entry(w, world[i]));
        }
        i := i + 1;
      }
      assert world[..i] == world;
      ghost var half := done;
      assert half + "" == half;
      i := 0;
      while i < |world|
        invariant i <= |world| && rec_out != null && rec_out.Valid()
        invariant done == half + AllPointers(w, Wanted(world[..i]))
        invariant rec_out.At() == |done| && rec_out.Contents() == WriteAt(contents, 0, done)
      {
        assert world[..i + 1] == world[..i] + [world[i]];
        WantedAppend(world[..i], world[i]);
        AllPointersAppend(w, Wanted(world[..i]), world[i]);
        assert Wanted(world[..i]) + [] == Wanted(world[..i]);
        Assoc(half, AllPointers(w, Wanted(world[..i])), Pointers(w, world[i].lines));
        if world[i].Wanted() {
          dmppntrs(world[i], contents, done);
          done := done + Pointers(w, world[i].lines);
        }
        i := i + 1;
      }
      assert world[..i] == world;
      rec_out.flushout();
      WritePrefix(contents, done);
    }
  }

  lemma Assoc(a: string, b: string, c: string)
    ensures (a + b) + c == a + (b + c)
  {}

  lemma WritePrefix(contents: string, s: string)
    ensures s <= WriteAt(contents, 0, s)
  {}

  lemma PointersNone(w: Widths)
    requires w.Ok()
    ensures Pointers(w, []) == "" && Entries(w, []) == "" && AllPointers(w, []) == "" && Wanted([]) == []
  {}

  lemma EntryIs(w: Widths, b: Buf, e: RecEntry)
    requires w.Ok() && e == RecEntry(if |b.name| < w.name then b.name else b.name[..w.name - 1], b.fname, |b.lines|, b.dot, b.dotchar)
    ensures Entry(w, b) == e
  {}
}
