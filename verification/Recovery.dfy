/** The recovery program: from the two files a crash leaves, each saved buffer again. */
module Recovery {
  import opened Geometry
  import opened BlockCache
  import opened LineStore
  import opened RecordFile
  import opened SyncRecord

  /** A buffer's lines as the recovery program puts them out. */
  function Dumped(lines: seq<string>): string {
    if lines == [] then "" else if |lines| == 1 then lines[0] else lines[0] + [EOL] + Dumped(lines[1..])
  }

  function Times(a: nat, b: nat): (r: nat)
    ensures r == a * b
  {
    MulMono(0, a, b);
    a * b
  }

  /** Where the line addresses of buffer `which` start. */
  ghost function Start(w: Widths, bs: seq<Buf>, which: nat): nat
    requires which <= |bs|
  {
    w.HeadSize() + Times(|bs|, w.EntrySize()) + Bytes(w, bs, which)
  }

  ghost function Bytes(w: Widths, bs: seq<Buf>, k: nat): nat
    requires k <= |bs|
  {
    if k == 0 then 0 else Bytes(w, bs, k - 1) + Times(|bs[k - 1].lines|, w.daddr)
  }

  class Recover {
    const w: Widths
    const g: Sizes
    const ptrs: string
    const data: Disk
    var fpos: nat
    var Nbuffers: nat
    // buflist[0] is entry 1
    var buflist: seq<RecEntry>
    var curblock: int
    var blk_buf: seq<char>
    var nleft: nat
    var nshort: nat

    constructor (w: Widths, g: Sizes, ptrs: string, data: Disk)
      requires w.Ok() && g.Ok() && FullBlocks(data, g.BlockSize())
      ensures Valid() && this.w == w && this.g == g && this.ptrs == ptrs && this.data == data
    {
      this.w, this.g, this.ptrs, this.data := w, g, ptrs, data;
      fpos, Nbuffers, buflist, curblock, nleft, nshort := 0, 0, [], -1, 0, 0;
      blk_buf := seq(g.BlockSize(), _ => NUL);
    }

    ghost predicate Valid()
      reads this
    {
      && w.Ok() && g.Ok() && FullBlocks(data, g.BlockSize())
      && |blk_buf| == g.BlockSize()
      && (curblock >= 0 ==> blk_buf == Block(curblock))
    }

    /** What read() finds at a block of the data file. */
    function Block(b: nat): seq<char> {
      if b in data then data[b] else seq(g.BlockSize(), _ => NUL)
    }

    method getblock(atl: nat) returns (off: nat)
      requires Valid()
      modifies this`curblock, this`blk_buf, this`nleft, this`nshort
      ensures Valid() && off == g.Offset(atl) < g.BlockSize()
      ensures g.BlockNo(atl) in data ==> blk_buf == data[g.BlockNo(atl)] && nleft == g.BlockSize() - off
      ensures 0 < nleft <= g.BlockSize() - off
    {
      OffsetInBlock(g, atl);
      var bno := g.BlockNo(atl);
      off := g.Offset(atl);
      nleft := g.BlockSize() - off;
      if bno as int != curblock {
        // a block never written is a hole, or it is past the end of the file
        var hole: bool := *;
        if bno in data || hole {
          blk_buf := Block(bno);
          curblock := bno;
        } else {
          // a short read, of nothing
          nshort := nshort + 1;
          blk_buf := blk_buf[off := NUL];
          nleft := 1;
          curblock := -1;
        }
      }
    }

    method jgetline(tl: nat) returns (buf: string)
      requires Valid()
      modifies this`curblock, this`blk_buf, this`nleft, this`nshort
      ensures Valid()
      ensures forall s :: LineOn(g, data, tl, s) ==> buf == s
    {
      hide FullBlocks, Sizes.BlockSize, Sizes.BlockNo, Sizes.Offset, Sizes.Ok;
      var bp := getblock(tl);
      var nl := nleft;
      ghost var blk, n := blk_buf, nleft;
      buf := [];
      while blk_buf[bp + |buf|] != NUL
        invariant Valid() && blk_buf == blk && nleft == n && nl == n - |buf| > 0
        invariant buf == blk[bp..bp + |buf|] && NUL !in buf
        decreases nl
      {
        buf := buf + [blk_buf[bp + |buf|]];
        nl := nl - 1;
        // a line that does not end in its block is cut there
        if nl == 0 { break; }
      }
    }

    /** fread of one record. */
    method read_rec() returns (e: RecEntry)
      requires Valid()
      modifies this`fpos
      ensures Valid()
      ensures old(fpos) + w.EntrySize() <= |ptrs| ==>
        fpos == old(fpos) + w.EntrySize() && e == DecodeEntry(w, ptrs[old(fpos)..fpos])
    {
      var n := w.EntrySize();
      if fpos + n <= |ptrs| {
        e := DecodeEntry(w, ptrs[fpos..fpos + n]);
        fpos := fpos + n;
      } else {
        // the record stays as it was: anything
        e := *;
      }
    }

    method ReadHeader() returns (ok: bool)
      requires Valid()
      modifies this`Nbuffers, this`fpos
      ensures Valid() && ok == (w.HeadSize() <= |ptrs|)
      ensures ok ==> Nbuffers == DecodeNbuffers(w, ptrs[..w.HeadSize()])
    {
      ok := w.HeadSize() <= |ptrs|;
      if ok {
        Nbuffers := DecodeNbuffers(w, ptrs[..w.HeadSize()]);
        fpos := w.HeadSize();
      }
    }

    method makblist(ghost h: RecHead, ghost bs: seq<Buf>)
      requires Valid() && Nbuffers == |bs| && Image(w, h, bs) <= ptrs
      requires forall b :: b in bs ==> EntryFits(w, Entry(w, b))
      modifies this`fpos, this`buflist
      ensures Valid() && |buflist| == |bs|
      ensures forall k :: 0 <= k < |bs| ==> buflist[k] == Entry(w, bs[k])
    {
      hide Image, Entries, EncodeHead, DecodeEntry, EncodeEntry, Entry, FullBlocks;
      fpos := w.HeadSize();
      buflist := [];
      var i := 1;
      while i <= Nbuffers
        invariant Valid() && 1 <= i <= |bs| + 1 && |buflist| == i - 1
        invariant i <= |bs| ==> fpos == w.HeadSize() + Times(i - 1, w.EntrySize())
        invariant forall k :: 0 <= k < i - 1 ==> buflist[k] == Entry(w, bs[k])
      {
        EntryAt(w, h, bs, i - 1);
        DecodeEncodeEntry(w, Entry(w, bs[i - 1]));
        ghost var at := fpos;
        SlicePrefix(Image(w, h, bs), ptrs, at, EncodeEntry(w, Entry(w, bs[i - 1])));
        var e := read_rec();
        MulAdd(i - 1, 1, w.EntrySize());
        buflist := buflist + [e];
        i := i + 1;
      }
    }

    method seekto(which: nat, ghost bs: seq<Buf>)
      requires Valid() && 1 <= which <= Nbuffers == |bs| == |buflist|
      requires forall k :: 0 <= k < |bs| ==> buflist[k] == Entry(w, bs[k])
      modifies this`fpos
      ensures Valid() && fpos == Start(w, bs, which - 1)
    {
      var offset := w.HeadSize() + Nbuffers * w.EntrySize();
      var i := 1;
      while i < which
        invariant 1 <= i <= which && offset == Start(w, bs, i - 1)
      {
        offset := offset + buflist[i - 1].r_nlines * w.daddr;
        i := i + 1;
      }
      fpos := offset;
    }

    method getaddr() returns (addr: nat)
      requires Valid()
      modifies this`fpos
      ensures Valid()
      ensures old(fpos) + w.daddr <= |ptrs| ==>
        fpos == old(fpos) + w.daddr && addr == DecodeAddr(w, ptrs[old(fpos)..fpos])
    {
      ghost var at := fpos;
      var nchars: int, s := w.daddr, "";
      while nchars > 0
        invariant 0 <= nchars <= w.daddr && |s| == w.daddr - nchars && Valid()
        invariant at + w.daddr <= |ptrs| ==> fpos == at + |s| && s == ptrs[at..fpos]
      {
        nchars := nchars - 1;
        // getc at the end of the file gives -1
        s := s + [if fpos < |ptrs| then ptrs[fpos] else 255 as char];
        fpos := if fpos < |ptrs| then fpos + 1 else fpos;
      }
      addr := DecodeAddr(w, s);
    }

    /** Puts out one saved buffer.  `texts[k]` is what was on the screen for line `k` of it. */
    method dump_file(which: nat, ghost h: RecHead, ghost bs: seq<Buf>, ghost texts: seq<string>) returns (out: string)
      requires Valid() && 1 <= which <= Nbuffers == |bs| == |buflist| && Image(w, h, bs) <= ptrs
      requires forall k :: 0 <= k < |bs| ==> buflist[k] == Entry(w, bs[k])
      requires |texts| == |bs[which - 1].lines|
      requires forall k :: 0 <= k < |texts| ==> bs[which - 1].lines[k].addr < w.Dirty() && LineOn(g, data, bs[which - 1].lines[k].addr, texts[k])
      modifies this`fpos, this`curblock, this`blk_buf, this`nleft, this`nshort
      ensures Valid() && out == Dumped(texts)
    {
      hide Image, EncodeAddr, DecodeAddr, FullBlocks, LineOn, Widths.Dirty;
      seekto(which, bs);
      ghost var b := bs[which - 1];
      var nlines: int := buflist[which - 1].r_nlines;
      out := "";
      ghost var k, start := 0, fpos;
      while nlines > 0
        invariant Valid() && 0 <= nlines == |b.lines| - k
        invariant k < |b.lines| ==> fpos == start + Times(k, w.daddr)
        invariant out + Dumped(texts[k..]) == Dumped(texts)
      {
        nlines := nlines - 1;
        PointerAt(w, h, bs, which - 1, k);
        DecodeEncodeAddr(w, b.lines[k]);
        ghost var at := fpos;
        SlicePrefix(Image(w, h, bs), ptrs, at, EncodeAddr(w, b.lines[k]));
        var addr := getaddr();
        var buf := jgetline(addr);
        MulAdd(k, 1, w.daddr);
        ghost var was := out;
        out := out + buf;
        if nlines > 0 {
          out := out + [EOL];
        }
        assert texts[k..][1..] == texts[k + 1..];
        assert out + Dumped(texts[k + 1..]) == was + Dumped(texts[k..]);
        k := k + 1;
      }
      assert texts[k..] == [];
    }
  }

  ghost predicate SliceIs(s: string, at: nat, t: string) {
    at + |t| <= |s| && s[at..at + |t|] == t
  }

  lemma SliceLater(a: string, b: string, at: nat, t: string)
    requires SliceIs(b, at, t)
    ensures SliceIs(a + b, |a| + at, t)
  {}

  lemma SliceSooner(a: string, b: string, at: nat, t: string)
    requires SliceIs(a, at, t)
    ensures SliceIs(a + b, at, t)
  {}

  lemma SlicePrefix(a: string, b: string, at: nat, t: string)
    requires SliceIs(a, at, t) && a <= b
    ensures SliceIs(b, at, t)
  {
    assert b[at..at + |t|] == b[..|a|][at..at + |t|];
  }

  lemma SliceOfSlice(a: string, at: nat, b: string, at': nat, t: string)
    requires SliceIs(a, at, b) && SliceIs(b, at', t)
    ensures SliceIs(a, at + at', t)
  {
    var n := |t|;
    forall i | 0 <= i < n ensures a[at + at'..at + at' + n][i] == t[i] {
      assert t[i] == b[at'..at' + n][i] == b[at' + i] == a[at..at + |b|][at' + i];
    }
  }

  lemma {:induction false} EntriesSize(w: Widths, bs: seq<Buf>)
    requires w.Ok()
    ensures |Entries(w, bs)| == Times(|bs|, w.EntrySize())
  {
    if bs != [] {
      EntriesSize(w, bs[1..]);
      MulAdd(|bs| - 1, 1, w.EntrySize());
    }
  }

  lemma {:induction false} EntriesAt(w: Widths, bs: seq<Buf>, k: nat)
    requires w.Ok() && k < |bs|
    ensures SliceIs(Entries(w, bs), Times(k, w.EntrySize()), EncodeEntry(w, Entry(w, bs[k])))
  {
    hide Widths.EntrySize, EncodeEntry, Entry;
    var e, r := EncodeEntry(w, Entry(w, bs[0])), Entries(w, bs[1..]);
    if k > 0 {
      EntriesAt(w, bs[1..], k - 1);
      MulAdd(k - 1, 1, w.EntrySize());
      SliceLater(e, r, Times(k - 1, w.EntrySize()), EncodeEntry(w, Entry(w, bs[k])));
    } else {
      SliceSooner(e, r, 0, e);
    }
  }

  lemma EntryAt(w: Widths, h: RecHead, bs: seq<Buf>, k: nat)
    requires w.Ok() && k < |bs|
    ensures SliceIs(Image(w, h, bs), w.HeadSize() + Times(k, w.EntrySize()), EncodeEntry(w, Entry(w, bs[k])))
  {
    hide Widths.EntrySize, Widths.HeadSize, EncodeEntry, EncodeHead, Entry;
    EntriesAt(w, bs, k);
    var at, t := Times(k, w.EntrySize()), EncodeEntry(w, Entry(w, bs[k]));
    SliceLater(EncodeHead(w, h), Entries(w, bs), at, t);
    SliceSooner(EncodeHead(w, h) + Entries(w, bs), AllPointers(w, bs), |EncodeHead(w, h)| + at, t);
  }

  lemma {:induction false} PointersSize(w: Widths, ls: seq<LineDesc>)
    requires w.Ok()
    ensures |Pointers(w, ls)| == Times(|ls|, w.daddr)
  {
    if ls != [] {
      PointersSize(w, ls[1..]);
      MulAdd(|ls| - 1, 1, w.daddr);
    }
  }

  lemma {:induction false} PointersAt(w: Widths, ls: seq<LineDesc>, k: nat)
    requires w.Ok() && k < |ls|
    ensures SliceIs(Pointers(w, ls), k * w.daddr, EncodeAddr(w, ls[k]))
  {
    hide EncodeAddr;
    var e, r := EncodeAddr(w, ls[0]), Pointers(w, ls[1..]);
    if k > 0 {
      PointersAt(w, ls[1..], k - 1);
      MulAdd(k - 1, 1, w.daddr);
      SliceLater(e, r, Times(k - 1, w.daddr), EncodeAddr(w, ls[k]));
    } else {
      SliceSooner(e, r, 0, e);
    }
  }

  /** The addresses of buffer `k` start where those of the buffers before it end. */
  lemma {:induction false} AllPointersAt(w: Widths, bs: seq<Buf>, k: nat)
    requires w.Ok() && k < |bs|
    ensures SliceIs(AllPointers(w, bs), Bytes(w, bs, k), Pointers(w, bs[k].lines))
  {
    hide Pointers;
    var a, r := Pointers(w, bs[0].lines), AllPointers(w, bs[1..]);
    if k > 0 {
      AllPointersAt(w, bs[1..], k - 1);
      BytesShift(w, bs, k);
      PointersSize(w, bs[0].lines);
      SliceLater(a, r, Bytes(w, bs[1..], k - 1), Pointers(w, bs[k].lines));
    } else {
      SliceSooner(a, r, 0, a);
    }
  }

  lemma {:induction false} BytesShift(w: Widths, bs: seq<Buf>, k: nat)
    requires 0 < k <= |bs|
    ensures Bytes(w, bs, k) == Times(|bs[0].lines|, w.daddr) + Bytes(w, bs[1..], k - 1)
  {
    if k > 1 {
      BytesShift(w, bs, k - 1);
    }
  }

  lemma PointerAt(w: Widths, h: RecHead, bs: seq<Buf>, which: nat, k: nat)
    requires w.Ok() && which < |bs| && k < |bs[which].lines|
    ensures SliceIs(Image(w, h, bs), Start(w, bs, which) + Times(k, w.daddr), EncodeAddr(w, bs[which].lines[k]))
  {
    hide Widths.EntrySize, Widths.HeadSize, EncodeHead, EncodeAddr, Pointers, AllPointers, Entries, Bytes, SliceIs;
    EntriesSize(w, bs);
    assert Start(w, bs, which) == |EncodeHead(w, h) + Entries(w, bs)| + Bytes(w, bs, which);
    AllPointersAt(w, bs, which);
    PointersAt(w, bs[which].lines, k);
    var at, p, t := Bytes(w, bs, which), Pointers(w, bs[which].lines), EncodeAddr(w, bs[which].lines[k]);
    SliceOfSlice(AllPointers(w, bs), at, p, Times(k, w.daddr), t);
    SliceLater(EncodeHead(w, h) + Entries(w, bs), AllPointers(w, bs), at + Times(k, w.daddr), t);
  }
}
