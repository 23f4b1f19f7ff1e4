/** From SyncRec, through any run of the line store cut short anywhere, to the recovery program. */
module Crash {
  import opened Geometry
  import opened BlockCache
  import opened LineStore
  import opened StdFile
  import opened TextFile
  import opened RecordFile
  import opened SyncRecord
  import opened Recovery

  /** What can happen to the line store between two SyncRecs. */
  datatype Op =
    | StoreLine(s: string)
    | FetchLine(i: nat)
    | PointAtLine(i: nat)
    | ReadFileLine(contents: string)
    | SyncFile

  /** One step; `known` are the addresses handed out so far. */
  method Step(t: TmpFile, known: seq<nat>, op: Op) returns (known': seq<nat>)
    requires t.Valid() && forall k :: 0 <= k < |known| ==> known[k] in t.lines
    modifies t`DFree, t`lines, t.cache, t.cache.b_cache, t.cache.bht
    ensures t.Valid() && forall k :: 0 <= k < |known'| ==> known'[k] in t.lines
    ensures Extends(old(t.lines), t.lines) && old(t.cache.hist) <= t.cache.hist
  {
    hide TmpFile.Valid, InFile.Valid, Sizes.BlockSize, ReadLine;
    known' := known;
    match op
    case StoreLine(s) =>
      if NUL !in s && |s| < t.cache.g.BlockSize() {
        var ok, a := t.jputline(s);
        if ok { known' := known + [a]; }
      }
    case FetchLine(i) =>
      if known != [] { var s := t.jgetline(known[i % |known|]); }
    case PointAtLine(i) =>
      if known != [] { var bp, off := t.lbptr(known[i % |known|]); }
    case ReadFileLine(contents) =>
      var fp := new InFile(contents, 1);
      var ok, yes, a;
      ghost var r;
      ok, yes, a, r := f_getputl(t, fp);
      if ok { known' := known + [a]; }
    case SyncFile =>
      t.SyncTmp();
  }

  /** Any run: every line stored stays readable, and so does every line synced. */
  method Run(t: TmpFile, known0: seq<nat>, ops: seq<Op>) returns (known: seq<nat>)
    requires t.Valid() && forall k :: 0 <= k < |known0| ==> known0[k] in t.lines
    modifies t`DFree, t`lines, t.cache, t.cache.b_cache, t.cache.bht
    ensures t.Valid() && forall k :: 0 <= k < |known| ==> known[k] in t.lines
    ensures Extends(old(t.lines), t.lines) && old(t.cache.hist) <= t.cache.hist
  {
    hide TmpFile.Valid;
    known := known0;
    ExtendsSame(t.lines);
    for i := 0 to |ops|
      invariant t.Valid() && forall k :: 0 <= k < |known| ==> known[k] in t.lines
      invariant Extends(old(t.lines), t.lines) && old(t.cache.hist) <= t.cache.hist
    {
      known := Step(t, known, ops[i]);
    }
  }

  /** The texts of the buffers that are worth saving. */
  function WantedTexts(world: seq<Buf>, texts: seq<seq<string>>): (r: seq<seq<string>>)
    requires |world| == |texts|
    ensures |r| == |Wanted(world)|
  {
    if world == [] then [] else
      (if world[0].Wanted() then [texts[0]] else []) + WantedTexts(world[1..], texts[1..])
  }

  lemma {:induction false} WantedTextsSame(a: seq<Buf>, b: seq<Buf>, texts: seq<seq<string>>)
    requires SameLines(a, b) && |a| == |texts|
    ensures WantedTexts(a, texts) == WantedTexts(b, texts)
  {
    if a != [] {
      assert SameLines(a[1..], b[1..]);
      WantedTextsSame(a[1..], b[1..], texts[1..]);
    }
  }

  lemma {:induction false} WantedIndex(world: seq<Buf>, texts: seq<seq<string>>, j: nat) returns (k: nat)
    requires |world| == |texts| && j < |Wanted(world)|
    ensures k < |world| && world[k] == Wanted(world)[j] && texts[k] == WantedTexts(world, texts)[j]
  {
    WantedStep(world, texts);
    hide Wanted, WantedTexts;
    if world[0].Wanted() && j == 0 {
      k := 0;
    } else {
      k := WantedIndex(world[1..], texts[1..], if world[0].Wanted() then j - 1 else j);
      k := k + 1;
    }
  }

  lemma WantedStep(world: seq<Buf>, texts: seq<seq<string>>)
    requires |world| == |texts|
    ensures if world == [] then Wanted(world) == []
      else Wanted(world) == (if world[0].Wanted() then [world[0]] else []) + Wanted(world[1..])
    ensures world != [] ==> WantedTexts(world, texts) == (if world[0].Wanted() then [texts[0]] else []) + WantedTexts(world[1..], texts[1..])
    ensures |WantedTexts(world, texts)| == |Wanted(world)| && (world != [] ==> |WantedTexts(world[1..], texts[1..])| == |Wanted(world[1..])|)
  {}

  /** The widths suit the sizes, and the buffers suit the widths. */
  ghost predicate Suits(w: Widths, g: Sizes, world: seq<Buf>) {
    && w.Ok() && g.Ok()
    && g.maxBlocks * g.blockChunks <= w.Dirty()
    && |world| < Pow(256, w.long)
    && forall k :: 0 <= k < |world| ==> EntryFits(w, Entry(w, world[k]))
  }

  lemma AddressFits(t: TmpFile, w: Widths, a: nat)
    requires t.Valid() && a in t.lines && w.Ok() && t.cache.g.maxBlocks * t.cache.g.blockChunks <= w.Dirty()
    ensures a < w.Dirty()
  {
    hide Sizes.BlockNo, TmpFile.Valid;
    StoredBelow(t, a);
    AddressBelow(t.cache.g, a, t.cache.g.maxBlocks);
  }

  lemma StoredBelow(t: TmpFile, a: nat)
    requires t.Valid() && a in t.lines
    ensures t.cache.g.Ok() && t.cache.g.BlockNo(a) < t.cache.g.maxBlocks
  {
    assert LineIn(t.cache.g, t.cache.view, a, t.lines[a], t.DFree);
  }

  /** What a saved buffer's record says about its text. */
  ghost predicate Recorded(w: Widths, g: Sizes, disk: Disk, b: Buf, texts: seq<string>)
    requires w.Ok() && g.Ok()
  {
    && |texts| == |b.lines|
    && forall i :: 0 <= i < |texts| ==> b.lines[i].addr < w.Dirty() && LineOn(g, disk, b.lines[i].addr, texts[i])
  }

  lemma AllRecorded(e: Editor, disk: Disk, synced: map<nat, string>, k: nat)
    requires e.Valid() && !e.DOLsave && e.tmp.lines == synced && k < |e.world|
    requires Suits(e.w, e.tmp.cache.g, e.world) && Stored(e.tmp.cache.g, disk, synced)
    ensures Recorded(e.w, e.tmp.cache.g, disk, e.world[k], e.Texts()[k])
  {
    var b, texts := e.world[k], e.Texts()[k];
    assert BufOk(b, e.tmp.lines);
    forall i | 0 <= i < |texts|
      ensures b.lines[i].addr < e.w.Dirty() && LineOn(e.tmp.cache.g, disk, b.lines[i].addr, texts[i])
    {
      AddressFits(e.tmp, e.w, b.lines[i].addr);
    }
  }

  /** Recovery from what a crash left. */
  method Recovered(w: Widths, g: Sizes, rec: string, disk: Disk, which: nat, ghost h: RecHead, ghost bs: seq<Buf>,
                   ghost texts: seq<string>) returns (out: string)
    requires w.Ok() && g.Ok() && FullBlocks(disk, g.BlockSize())
    requires Image(w, h, bs) <= rec && h.Nbuffers == |bs| < Pow(256, w.long)
    requires forall b :: b in bs ==> EntryFits(w, Entry(w, b))
    requires 1 <= which <= |bs| && Recorded(w, g, disk, bs[which - 1], texts)
    ensures out == Dumped(texts)
  {
    hide Entries, Pointers, AllPointers, EncodeHead, Encode, Decode, DecodeNbuffers, FullBlocks, Recover.Valid, Entry;
    HeadCount(w, h);
    assert rec[..w.HeadSize()] == EncodeHead(w, h);
    var r := new Recover(w, g, rec, disk);
    var ok := r.ReadHeader();
    assert r.Nbuffers == |bs|;
    r.makblist(h, bs);
    out := r.dump_file(which, h, bs, texts);
  }

  /** SyncRec; then any run; then a crash after any block write (`cut`); then recovery of any saved
      buffer: its text at the time of the SyncRec comes out. */
  method CrashConsistency(e: Editor, now: nat, known: seq<nat>, ops: seq<Op>, cut: nat, which: nat)
    returns (ok: bool, out: string)
    requires e.Valid() && Suits(e.w, e.tmp.cache.g, e.world)
    requires forall k :: 0 <= k < |known| ==> known[k] in e.tmp.lines
    requires 1 <= which <= |Wanted(e.world)|
    modifies e, e.tmp, e.tmp.cache, e.tmp.cache.b_cache, e.tmp.cache.bht
    modifies e.rec_out, if e.rec_out == null then {} else {e.rec_out.f_base}
    ensures ok ==> out == Dumped(WantedTexts(old(e.world), old(e.Texts()))[which - 1])
    // the record fails only for want of file
    ensures !ok ==> e.tmp.cache.g.BlockNo(e.tmp.DFree) >= e.tmp.cache.g.maxBlocks - 1
  {
    hide TmpFile.Valid, OutFile.Valid, Stored, StoredSince, Image, Wanted, WantedTexts, FullBlocks, Sizes.BlockNo, Sizes.Ok;
    ghost var world, texts := e.world, e.Texts();
    ghost var bs;
    ok, bs := e.SyncRec(now);
    if !ok { return false, ""; }
    WantedCount(world, e.world);
    WantedTextsSame(world, e.world, texts);
    ghost var k := WantedIndex(e.world, texts, which - 1);
    ghost var head, g, w := e.Header, e.tmp.cache.g, e.w;
    SuitsSame(w, g, world, e.world);
    var rec, from := e.rec_out.file, |e.tmp.cache.hist| - 1;
    ghost var synced := e.tmp.lines;
    forall disk | Stored(g, disk, synced) ensures Recorded(w, g, disk, e.world[k], texts[k]) {
      AllRecorded(e, disk, synced, k);
    }
    var known' := Run(e.tmp, known, ops);
    var crash := from + cut % (|e.tmp.cache.hist| - from);
    StillSynced(e.tmp, crash);
    out := Recovered(e.w, e.tmp.cache.g, rec, e.tmp.cache.hist[crash], which, head, bs, texts[k]);
  }

  lemma StillSynced(t: TmpFile, k: nat)
    requires t.Valid() && t.mark <= k < |t.cache.hist|
    ensures t.cache.g.Ok() && Stored(t.cache.g, t.cache.hist[k], t.synced) && FullBlocks(t.cache.hist[k], t.cache.g.BlockSize())
  {}

  lemma SuitsSame(w: Widths, g: Sizes, a: seq<Buf>, b: seq<Buf>)
    requires Suits(w, g, a) && SameLines(a, b)
    ensures Suits(w, g, b) && |Wanted(b)| < Pow(256, w.long) && forall x :: x in Wanted(b) ==> EntryFits(w, Entry(w, x))
  {
    forall k | 0 <= k < |b| ensures EntryFits(w, Entry(w, b[k])) {
      assert Entry(w, b[k]) == Entry(w, a[k]);
    }
    WantedFew(b);
  }

  lemma {:induction false} WantedFew(a: seq<Buf>)
    ensures |Wanted(a)| <= |a|
  {
    if a != [] { WantedFew(a[1..]); }
  }
}
