/** Lines in the temporary file: stored once at the free end, read back for ever. */
module LineStore {
  import opened Geometry
  import opened BlockCache

  /** `s` stands at place `at` of a block, closed by a NUL. */
  ghost predicate HoldsAt(blk: seq<char>, at: nat, s: string) {
    && NUL !in s
    && at + |s| < |blk|
    && blk[at..at + |s|] == s
    && blk[at + |s|] == NUL
  }

  ghost predicate LineIn(g: Sizes, view: seq<seq<char>>, a: nat, s: string, free: nat)
    requires g.Ok()
  {
    && 1 <= a
    && g.Offset(a) + |s| + 1 <= g.BlockSize()
    && a + g.ReqChunks(|s| + 1) <= free
    && g.BlockNo(a) < |view| && HoldsAt(view[g.BlockNo(a)], g.Offset(a), s)
  }

  /** Every line of `lines` stands in the flat file below the free end, and no two overlap. */
  ghost predicate Kept(g: Sizes, view: seq<seq<char>>, lines: map<nat, string>, free: nat)
    requires g.Ok()
  {
    && (forall a :: a in lines ==> LineIn(g, view, a, lines[a], free))
    && (forall a, b :: a in lines && b in lines && a < b ==> a + g.ReqChunks(|lines[a]| + 1) <= b)
  }

  ghost predicate LineOn(g: Sizes, disk: Disk, a: nat, s: string)
    requires g.Ok()
  {
    g.BlockNo(a) in disk && HoldsAt(disk[g.BlockNo(a)], g.Offset(a), s)
  }

  /** Every line of `lines` can be read from this state of the file alone. */
  ghost predicate Stored(g: Sizes, disk: Disk, lines: map<nat, string>)
    requires g.Ok()
  {
    forall a :: a in lines ==> LineOn(g, disk, a, lines[a])
  }

  ghost predicate StoredSince(g: Sizes, hist: seq<Disk>, from: nat, lines: map<nat, string>)
    requires g.Ok()
  {
    forall k :: from <= k < |hist| ==> Stored(g, hist[k], lines)
  }

  ghost predicate Extends(m: map<nat, string>, m': map<nat, string>) {
    forall a :: a in m ==> a in m' && m'[a] == m[a]
  }

  lemma ExtendsSame(m: map<nat, string>)
    ensures Extends(m, m)
  {}

  lemma KeptStore(g: Sizes, view: seq<seq<char>>, lines: map<nat, string>, free: nat, at: nat, ch: char)
    requires g.Ok() && Kept(g, view, lines, free)
    requires g.BlockNo(free) < |view| && g.Offset(free) <= at < |view[g.BlockNo(free)]|
    ensures Kept(g, view[g.BlockNo(free) := view[g.BlockNo(free)][at := ch]], lines, free)
  {
    var b := g.BlockNo(free);
    var view' := view[b := view[b][at := ch]];
    forall a | a in lines ensures LineIn(g, view', a, lines[a], free) {
      assert LineIn(g, view, a, lines[a], free);
      if g.BlockNo(a) == b {
        LaterInSameBlock(g, a, |lines[a]| + 1, free);
        var o := g.Offset(a);
        assert view'[b][o..o + |lines[a]|] == view[b][o..o + |lines[a]|];
      }
    }
  }

  lemma KeptGrow(g: Sizes, view: seq<seq<char>>, blk: seq<char>, lines: map<nat, string>, free: nat)
    requires g.Ok() && Kept(g, view, lines, free)
    ensures Kept(g, view + [blk], lines, free)
  {
    forall a | a in lines ensures LineIn(g, view + [blk], a, lines[a], free) {
      assert LineIn(g, view, a, lines[a], free);
    }
  }

  lemma KeptMove(g: Sizes, view: seq<seq<char>>, lines: map<nat, string>, free: nat, free': nat)
    requires g.Ok() && Kept(g, view, lines, free) && free <= free'
    ensures Kept(g, view, lines, free')
  {
    forall a | a in lines ensures LineIn(g, view, a, lines[a], free') {
      assert LineIn(g, view, a, lines[a], free);
    }
  }

  lemma KeptAdd(g: Sizes, view: seq<seq<char>>, lines: map<nat, string>, free: nat, s: string)
    requires g.Ok() && Kept(g, view, lines, free) && 1 <= free
    requires g.BlockNo(free) < |view| && HoldsAt(view[g.BlockNo(free)], g.Offset(free), s)
    requires g.Offset(free) + |s| + 1 <= g.BlockSize()
    ensures free !in lines
    ensures Kept(g, view, lines[free := s], free + g.ReqChunks(|s| + 1))
  {
    var free' := free + g.ReqChunks(|s| + 1);
    var lines' := lines[free := s];
    RoomFacts(g, free, |s| + 1);
    forall a | a in lines ensures a < free {
      assert LineIn(g, view, a, lines[a], free);
      RoomFacts(g, a, |lines[a]| + 1);
    }
    forall a | a in lines' ensures LineIn(g, view, a, lines'[a], free') {
      assert a in lines ==> LineIn(g, view, a, lines[a], free);
    }
    forall a, b | a in lines' && b in lines' && a < b ensures a + g.ReqChunks(|lines'[a]| + 1) <= b {
      assert LineIn(g, view, a, lines[a], free);
    }
  }

  /** Block writes that put down nothing but the view leave stored lines stored. */
  lemma StillStored(g: Sizes, disk: Disk, view: seq<seq<char>>, later: Disk, lines: map<nat, string>,
                    synced: map<nat, string>, free: nat)
    requires g.Ok() && Kept(g, view, lines, free) && Extends(synced, lines)
    requires Stored(g, disk, synced) && Between(disk, view, later)
    ensures Stored(g, later, synced)
  {
    forall a | a in synced ensures LineOn(g, later, a, synced[a]) {
      assert LineIn(g, view, a, lines[a], free);
      assert LineOn(g, disk, a, synced[a]);
    }
  }

  lemma StillStoredSince(g: Sizes, hist: seq<Disk>, hist': seq<Disk>, view: seq<seq<char>>, from: nat,
                         lines: map<nat, string>, synced: map<nat, string>, free: nat)
    requires g.Ok() && Kept(g, view, lines, free) && Extends(synced, lines)
    requires |hist| > 0 && from < |hist| && StoredSince(g, hist, from, synced)
    requires hist <= hist' && HistoryBetween(hist[|hist| - 1], view, hist', |hist|)
    ensures StoredSince(g, hist', from, synced)
  {
    forall k | from <= k < |hist'| ensures Stored(g, hist'[k], synced) {
      if k < |hist| {
        assert hist'[k] == hist[k];
      } else {
        StillStored(g, hist[|hist| - 1], view, hist'[k], lines, synced, free);
      }
    }
  }

  /** When every block is on disk, every line is stored. */
  lemma AllStored(g: Sizes, disk: Disk, view: seq<seq<char>>, lines: map<nat, string>, free: nat)
    requires g.Ok() && Kept(g, view, lines, free)
    requires forall b :: 0 <= b < |view| ==> OnDisk(disk, view, b)
    ensures Stored(g, disk, lines)
  {
    forall a | a in lines ensures LineOn(g, disk, a, lines[a]) {
      assert LineIn(g, view, a, lines[a], free);
      assert OnDisk(disk, view, g.BlockNo(a));
    }
  }

  lemma KeptAt(g: Sizes, view: seq<seq<char>>, lines: map<nat, string>, free: nat, a: nat)
    requires g.Ok() && Kept(g, view, lines, free) && a in lines
    ensures LineIn(g, view, a, lines[a], free)
  {}

  /** What jputline keeps of a string: it stops at a newline. */
  function UpToNewline(s: string): (r: string)
    ensures EOL !in r && r <= s && (r == s || s[|r|] == EOL)
  {
    if s == [] || s[0] == EOL then [] else
      var t := UpToNewline(s[1..]);
      assert s[1..][|t|..] == s[1 + |t|..];
      [s[0]] + t
  }

  lemma {:induction false} UpToNewlineIs(s: string, n: nat)
    requires n <= |s| && EOL !in s[..n] && (n == |s| || s[n] == EOL)
    ensures UpToNewline(s) == s[..n]
  {
    if n > 0 {
      assert s[0] == s[..n][0];
      assert s[1..][..n - 1] == s[..n][1..];
      UpToNewlineIs(s[1..], n - 1);
    }
  }

  lemma FreeFacts(t: TmpFile)
    requires t.Valid()
    ensures t.cache.g.Ok() && t.cache.g.BlockNo(t.DFree) <= t.cache.next_bno == |t.cache.view|
    ensures t.cache.b_cache.Length == t.cache.g.nbuf
  {}

  class TmpFile {
    const cache: Cache
    var DFree: nat
    // every line ever stored, by address
    ghost var lines: map<nat, string>
    // the lines at the last completed SyncTmp, and the state of the file at that moment
    ghost var synced: map<nat, string>
    ghost var mark: nat

    ghost predicate Valid()
      reads this, cache, cache.b_cache, cache.bht
    {
      && cache.Valid()
      && |cache.view| <= cache.g.maxBlocks - 1
      && 1 <= DFree && cache.g.BlockNo(DFree) <= |cache.view|
      && Kept(cache.g, cache.view, lines, DFree)
      && Extends(synced, lines)
      && mark < |cache.hist| && StoredSince(cache.g, cache.hist, mark, synced)
    }

    constructor (g: Sizes)
      requires g.Ok()
      ensures Valid() && lines == map[] && synced == map[] && DFree == 1 && cache.g == g
      ensures fresh(cache) && fresh(cache.b_cache) && fresh(cache.bht)
    {
      cache := new Cache(g);
      DFree := 1;
      lines, synced, mark := map[], map[], 0;
      new;
      DivModUnique(1, g.blockChunks, 0, 1);
    }

    /** getblock through the line store: what is kept and what is stored stay so. */
    method GetBlock(atl: nat, IsWrite: bool) returns (ok: bool, bp: int, off: nat)
      requires Valid()
      requires cache.g.BlockNo(atl) < cache.next_bno || (cache.g.BlockNo(atl) == cache.next_bno && IsWrite)
      modifies cache, cache.b_cache, cache.bht
      ensures Valid()
      ensures ok == (cache.g.BlockNo(atl) < cache.g.maxBlocks - 1)
      ensures ok ==> 0 <= bp < cache.g.nbuf && cache.lastb == bp
      ensures ok ==> cache.b_cache[bp].bno == cache.g.BlockNo(atl) < cache.next_bno
      ensures ok ==> off == cache.g.Offset(atl) < cache.g.BlockSize() && cache.nleft == cache.g.BlockSize() - off
      ensures ok && IsWrite ==> cache.b_cache[bp].dirty
      ensures ok ==> cache.b_cache[bp].buf == cache.view[cache.g.BlockNo(atl)] && |cache.b_cache[bp].buf| == cache.g.BlockSize()
      ensures old(cache.view) <= cache.view && old(cache.hist) <= cache.hist
      ensures forall i :: 0 <= i < cache.g.nbuf && i != bp ==>
        cache.b_cache[i].bno == old(cache.b_cache[i].bno) && cache.b_cache[i].buf == old(cache.b_cache[i].buf)
      ensures ok && old(cache.lastb) == bp ==> old(cache.b_cache[bp].bno) == cache.g.BlockNo(atl)
    {
      hide Kept, StoredSince, HistoryBetween, Coherent;
      ghost var view := cache.view;
      ok, bp, off := cache.getblock(atl, IsWrite);
      StillStoredSince(cache.g, old(cache.hist), cache.hist, view, mark, lines, synced, DFree);
      if cache.view != view {
        KeptGrow(cache.g, view, cache.b_cache[bp].buf, lines, DFree);
      }
      if ok {
        CoherentSlot(cache.b_cache[..], cache.disk, cache.view, cache.g.BlockSize(), bp);
      }
    }

    /** Stores a character at or after the free end. */
    method Put(bp: int, at: nat, ch: char)
      requires Valid() && 0 <= bp < cache.g.nbuf && at < cache.g.BlockSize()
      requires cache.b_cache[bp].bno == cache.g.BlockNo(DFree) < cache.next_bno && cache.b_cache[bp].dirty
      requires cache.g.Offset(DFree) <= at
      modifies cache`view, cache.b_cache
      ensures Valid() && |cache.view| == |old(cache.view)|
      ensures forall i :: 0 <= i < cache.g.nbuf ==>
        cache.b_cache[i] == old(cache.b_cache[i]).(buf := cache.b_cache[i].buf) && |cache.b_cache[i].buf| == |old(cache.b_cache[i].buf)|
      ensures forall i :: 0 <= i < cache.g.nbuf && i != bp ==> cache.b_cache[i] == old(cache.b_cache[i])
      ensures cache.b_cache[bp].buf == old(cache.b_cache[bp].buf)[at := ch]
      ensures cache.view[cache.g.BlockNo(DFree)] == cache.b_cache[bp].buf
    {
      hide Kept, StoredSince, Coherent, HashTable, LruList;
      CoherentSlot(cache.b_cache[..], cache.disk, cache.view, cache.g.BlockSize(), bp);
      KeptStore(cache.g, cache.view, lines, DFree, at, ch);
      cache.Poke(bp, at, ch);
    }

    /** Moves the free end to the start of the next block. */
    method NextFreeBlock()
      requires Valid() && cache.g.BlockNo(DFree) < cache.next_bno
      modifies this`DFree
      ensures Valid() && DFree == cache.g.NextBlock(old(DFree))
      ensures cache.g.BlockNo(DFree) == cache.g.BlockNo(old(DFree)) + 1 && cache.g.Offset(DFree) == 0
      ensures DFree > old(DFree)
    {
      hide Kept, StoredSince;
      NextBlockFacts(cache.g, DFree);
      KeptMove(cache.g, cache.view, lines, DFree, cache.g.NextBlock(DFree));
      DFree := cache.g.NextBlock(DFree);
    }

    /** Enters the finished line at the free end, which moves past it. */
    method Finish(ghost s: string, chars: nat) returns (addr: nat)
      requires chars == |s| + 1
      requires Valid() && cache.g.BlockNo(DFree) < cache.next_bno
      requires HoldsAt(cache.view[cache.g.BlockNo(DFree)], cache.g.Offset(DFree), s)
      modifies this`DFree, this`lines
      ensures Valid() && addr == old(DFree) < DFree && addr !in old(lines)
      ensures DFree == addr + cache.g.ReqChunks(|s| + 1)
      ensures lines == old(lines)[addr := s]
    {
      hide Kept, StoredSince, Coherent;
      CoherentView(cache.b_cache[..], cache.disk, cache.view, cache.g.BlockSize(), cache.g.BlockNo(DFree));
      KeptAdd(cache.g, cache.view, lines, DFree, s);
      RoomFacts(cache.g, DFree, |s| + 1);
      BlockNoStep(cache.g, DFree, DFree + cache.g.ReqChunks(|s| + 1));
      addr := DFree;
      DFree := DFree + cache.g.ReqChunks(chars);
      lines := lines[addr := s];
    }

    /** The block of the free end is full: the line is begun again in the next one. */
    method NextBlock(bp0: int, base0: nat, ghost done: string) returns (ok: bool, bp: int, base: nat)
      requires Filling(this, bp0, base0, done)
      modifies this`DFree, cache, cache.b_cache, cache.bht
      ensures Valid() && old(DFree) < DFree && old(cache.hist) <= cache.hist
      ensures cache.g.Offset(DFree) == 0
      ensures ok ==> Filling(this, bp, base, done[..0]) && base == 0 && cache.nleft == cache.g.BlockSize() > 0
      ensures !ok ==> cache.g.BlockNo(DFree) >= cache.g.maxBlocks - 1
    {
      hide *;
      FillingFacts(this, bp0, base0, done);
      NextFreeBlock();
      FreeFacts(this);
      ok, bp, base := GetBlock(DFree, true);
      if !ok { return; }
      FreeFacts(this);
      FillingIs(this, bp, base, done[..0]);
    }

    /** Stores a line at the free end; if it does not fit in the block it starts over in the next. */
    method jputline(buf: string) returns (ok: bool, line_daddr: nat)
      requires Valid() && NUL !in buf && |buf| < cache.g.BlockSize()
      modifies this`DFree, this`lines, cache, cache.b_cache, cache.bht
      ensures Valid()
      ensures ok ==> old(DFree) <= line_daddr < DFree && line_daddr !in old(lines)
      ensures ok ==> lines == old(lines)[line_daddr := UpToNewline(buf)]
      ensures !ok ==> lines == old(lines)
      // it fails only for want of file
      ensures !ok ==> cache.g.BlockNo(DFree) >= cache.g.maxBlocks - 1
      ensures old(cache.hist) <= cache.hist
    {
      hide *;
      FreeFacts(this);
      var bp: int, base: nat;
      ok, bp, base := GetBlock(DFree, true);
      if !ok { return false, 0; }
      FreeFacts(this);
      var nl, lp: nat, at: nat := cache.nleft, 0, base;
      FillingIs(this, bp, base, buf[..0]);
      while true
        invariant lp <= |buf| && Filling(this, bp, base, buf[..lp])
        invariant lines == old(lines) && old(DFree) <= DFree && old(cache.hist) <= cache.hist
        invariant at == base + lp && nl == cache.g.BlockSize() - at > 0
        invariant EOL !in buf[..lp]
        decreases base, |buf| - lp
      {
        var c := if lp < |buf| then buf[lp] else NUL;
        PutNext(this, bp, base, buf[..lp], at, c);
        lp := lp + 1;
        if c == NUL {
          FillingPrefix(this, bp, base, buf[..lp - 1], c);
          break;
        }
        assert buf[..lp] == buf[..lp - 1] + [c];
        at := at + 1;
        if c == EOL {
          at := at - 1;
          FillingPrefix(this, bp, base, buf[..lp - 1], c);
          break;
        }
        nl := nl - 1;
        if nl == 0 {
          ok, bp, base := NextBlock(bp, base, buf[..lp]);
          if !ok { return false, 0; }
          lp, at, nl := 0, base, cache.nleft;
        }
      }
      UpToNewlineIs(buf, lp - 1);
      line_daddr := CloseLine(this, bp, base, buf[..lp - 1], at);
      return true, line_daddr;
    }

    /** A pointer to the stored line: slot `bp` of the cache, place `off`.  Reading never fails. */
    method lbptr(addr: nat) returns (bp: int, off: nat)
      requires Valid() && addr in lines
      modifies cache, cache.b_cache, cache.bht
      ensures Valid() && old(cache.hist) <= cache.hist
      ensures 0 <= bp < cache.b_cache.Length && HoldsAt(cache.b_cache[bp].buf, off, lines[addr])
    {
      hide Kept, StoredSince, Coherent, HashTable, LruList, HistoryBetween, HoldsAt;
      KeptAt(cache.g, cache.view, lines, DFree, addr);
      var ok;
      ok, bp, off := GetBlock(addr, false);
      KeptAt(cache.g, cache.view, lines, DFree, addr);
      assert ok;
    }

    /** Reads back the line at `addr`; `buf` is the C string that the caller's buffer holds after. */
    method jgetline(addr: nat) returns (buf: string)
      requires Valid() && addr in lines
      modifies cache, cache.b_cache, cache.bht
      ensures Valid() && old(cache.hist) <= cache.hist
      ensures buf == lines[addr]
    {
      hide TmpFile.Valid;
      ghost var s := lines[addr];
      var bp, off := lbptr(addr);
      buf := [];
      var c := cache.b_cache[bp].buf[off];
      while c != NUL
        invariant |buf| <= |s| && buf == s[..|buf|]
        invariant c == cache.b_cache[bp].buf[off + |buf|]
        decreases |s| - |buf|
      {
        assert |buf| < |s|;
        assert cache.b_cache[bp].buf[off..off + |s|][|buf|] == c;
        buf := buf + [c];
        c := cache.b_cache[bp].buf[off + |buf|];
      }
    }

    /** Every line stored so far is on disk afterwards. */
    method SyncTmp()
      requires Valid()
      modifies cache`disk, cache`hist, cache.b_cache
      ensures Valid() && Stored(cache.g, cache.disk, lines)
      ensures old(cache.hist) <= cache.hist
    {
      hide Kept, StoredSince, Coherent, HashTable, LruList, HistoryBetween, OnDisk;
      cache.SyncTmp();
      StillStoredSince(cache.g, old(cache.hist), cache.hist, cache.view, mark, lines, synced, DFree);
      AllStored(cache.g, cache.disk, cache.view, lines, DFree);
    }

    /** Takes the present lines and the present state of the file as what must survive. */
    ghost method Snapshot()
      requires Valid() && Stored(cache.g, cache.disk, lines)
      modifies this`synced, this`mark
      ensures Valid() && synced == lines && mark == |cache.hist| - 1
    {
      synced, mark := lines, |cache.hist| - 1;
    }
  }

  /** A place being filled with a line: slot `bp`, from `start`, `done` so far. */
  ghost predicate Filling(t: TmpFile, bp: int, start: nat, done: string)
    reads t, t.cache, t.cache.b_cache, t.cache.bht
  {
    && t.Valid()
    && 0 <= bp < t.cache.b_cache.Length == t.cache.g.nbuf
    && t.cache.next_bno == |t.cache.view|
    && t.cache.g.Ok()
    && t.cache.b_cache[bp].dirty
    && t.cache.b_cache[bp].bno == t.cache.g.BlockNo(t.DFree) < t.cache.next_bno
    && t.cache.b_cache[bp].buf == t.cache.view[t.cache.g.BlockNo(t.DFree)]
    && |t.cache.b_cache[bp].buf| == t.cache.g.BlockSize()
    && start == t.cache.g.Offset(t.DFree)
    && start + |done| <= t.cache.g.BlockSize()
    && t.cache.b_cache[bp].buf[start..start + |done|] == done
  }

  method PutNext(t: TmpFile, bp: int, ghost start: nat, ghost done: string, at: nat, c: char)
    requires Filling(t, bp, start, done) && at == start + |done| < t.cache.g.BlockSize()
    modifies t.cache`view, t.cache.b_cache
    ensures Filling(t, bp, start, done + [c])
    ensures forall i :: 0 <= i < t.cache.b_cache.Length && i != bp ==> t.cache.b_cache[i] == old(t.cache.b_cache[i])
  {
    hide *;
    FillingFacts(t, bp, start, done);
    ghost var buf := t.cache.b_cache[bp].buf;
    t.Put(bp, at, c);
    FreeFacts(t);
    AppendAt(buf, start, done, c);
    FillingIs(t, bp, start, done + [c]);
  }

  lemma FillingPrefix(t: TmpFile, bp: int, start: nat, done: string, c: char)
    requires Filling(t, bp, start, done + [c])
    ensures Filling(t, bp, start, done)
  {
    var buf := t.cache.b_cache[bp].buf;
    assert buf[start..start + |done|] == buf[start..start + |done + [c]|][..|done|];
  }

  lemma AppendAt(buf: seq<char>, start: nat, done: string, c: char)
    requires start + |done| < |buf| && buf[start..start + |done|] == done
    ensures buf[start + |done| := c][start..start + |done + [c]|] == done + [c]
  {}

  lemma FillingFacts(t: TmpFile, bp: int, start: nat, done: string)
    requires Filling(t, bp, start, done)
    ensures t.Valid() && 0 <= bp < t.cache.b_cache.Length == t.cache.g.nbuf
    ensures t.cache.g.Ok() && t.cache.next_bno == |t.cache.view|
    ensures t.cache.b_cache[bp].dirty && t.cache.b_cache[bp].bno == t.cache.g.BlockNo(t.DFree) < t.cache.next_bno
    ensures t.cache.b_cache[bp].buf == t.cache.view[t.cache.g.BlockNo(t.DFree)]
    ensures |t.cache.b_cache[bp].buf| == t.cache.g.BlockSize() && start == t.cache.g.Offset(t.DFree)
    ensures start + |done| <= t.cache.g.BlockSize() && t.cache.b_cache[bp].buf[start..start + |done|] == done
  {}

  lemma FillingIs(t: TmpFile, bp: int, start: nat, done: string)
    requires t.Valid() && 0 <= bp < t.cache.b_cache.Length == t.cache.g.nbuf
    requires t.cache.g.Ok() && t.cache.next_bno == |t.cache.view|
    requires t.cache.b_cache[bp].dirty && t.cache.b_cache[bp].bno == t.cache.g.BlockNo(t.DFree) < t.cache.next_bno
    requires t.cache.b_cache[bp].buf == t.cache.view[t.cache.g.BlockNo(t.DFree)]
    requires |t.cache.b_cache[bp].buf| == t.cache.g.BlockSize() && start == t.cache.g.Offset(t.DFree)
    requires start + |done| <= t.cache.g.BlockSize() && t.cache.b_cache[bp].buf[start..start + |done|] == done
    ensures Filling(t, bp, start, done)
  {}

  method CloseLine(t: TmpFile, bp: int, base: nat, ghost done: string, at: nat) returns (l_dline: nat)
    requires Filling(t, bp, base, done) && at == base + |done| < t.cache.g.BlockSize() && NUL !in done
    modifies t`DFree, t`lines, t.cache`view, t.cache.b_cache
    ensures t.Valid() && l_dline == old(t.DFree) < t.DFree
    ensures l_dline !in old(t.lines) && t.lines == old(t.lines)[l_dline := done]
  {
    hide *;
    PutNext(t, bp, base, done, at, NUL);
    FillingFacts(t, bp, base, done + [NUL]);
    HoldsClosed(t.cache.b_cache[bp].buf, base, done);
    l_dline := t.Finish(done, at + 1 - base);
  }

  lemma HoldsClosed(buf: seq<char>, at: nat, s: string)
    requires NUL !in s && at + |s + [NUL]| <= |buf| && buf[at..at + |s + [NUL]|] == s + [NUL]
    ensures HoldsAt(buf, at, s)
  {
    assert buf[at..at + |s|] == buf[at..at + |s + [NUL]|][..|s|];
    assert buf[at + |s|] == buf[at..at + |s + [NUL]|][|s|];
  }
}
