/** Where lines come from: chunks of them, an available list, a freed list, and a collector of unused chunks. */
module LineAlloc {
  import opened CString
  import opened FlatText
  import opened EditBuffer

  const CHUNKSIZE: nat := 300

  /** How often newchunk asks for memory at most: twice for a full chunk, then for ever smaller ones. */
  const REQUESTS: nat := 10

  /** No address: no text that is stored holds a NUL. */
  const NULL_DADDR: Row := [0]

  class Chunk {
    const c_block: seq<Line>
    var c_nextchunk: Chunk?

    constructor (block: seq<Line>, next: Chunk?)
      ensures c_block == block && c_nextchunk == next
    {
      c_block, c_nextchunk := block, next;
    }
  }

  ghost function First(ls: seq<Line>): Line? { if ls == [] then null else ls[0] }

  ghost function FirstChunk(cs: seq<Chunk>, k: nat): Chunk? { if k < |cs| then cs[k] else null }

  /** The chunks `cs` are linked, from number `k` on. */
  ghost predicate ChunksAt(cs: seq<Chunk>, k: nat)
    requires k < |cs|
    reads cs`c_nextchunk
  {
    cs[k].c_nextchunk == FirstChunk(cs, k + 1)
  }

  /** `s` without number `k`. */
  function Remove<T>(s: seq<T>, k: nat): (r: seq<T>)
    requires k < |s|
  {
    s[..k] + s[k + 1..]
  }

  lemma RemoveAt<T>(s: seq<T>, k: nat, j: nat)
    requires k < |s| && j < |s| - 1
    ensures |Remove(s, k)| == |s| - 1 && Remove(s, k)[j] == if j < k then s[j] else s[j + 1]
  {}

  lemma RemoveDistinct<T>(s: seq<T>, k: nat)
    requires Distinct(s) && k < |s|
    ensures Distinct(Remove(s, k)) && s[k] !in Remove(s, k)
    ensures forall x :: x in Remove(s, k) <==> x in s && x != s[k]
  {
    forall x | x in s && x != s[k] ensures x in Remove(s, k) {
      var j :| 0 <= j < |s| && s[j] == x;
      assert j != k && Remove(s, k)[if j < k then j else j - 1] == x;
    }
  }

  lemma RemoveIn<T>(s: seq<T>, k: nat, x: T)
    requires Distinct(s) && k < |s| && x in Remove(s, k)
    ensures x in s && x != s[k]
  {
    var j :| 0 <= j < |Remove(s, k)| && Remove(s, k)[j] == x;
    assert x == s[if j < k then j else j + 1];
  }

  lemma RemoveParts<T>(s: seq<T>, k: nat)
    requires k < |s|
    ensures |Remove(s, k)| == |s| - 1 && Remove(s, k)[..k] == s[..k] && Remove(s, k)[k..] == s[k + 1..] == s[k..][1..]
    ensures k < |s| - 1 ==> Remove(s, k)[k] == s[k + 1]
    ensures k > 0 ==> k - 1 < |s| - 1 && Remove(s, k)[k - 1] == s[k - 1]
  {}

  lemma RemoveFrom<T>(s: seq<T>, k: nat)
    requires k < |s|
    ensures forall j :: 0 <= j < |Remove(s, k)| ==> Remove(s, k)[j] in s
  {}

  ghost function OneOf(l: Line?): set<Line> { if l == null then {} else {l} }

  /** A line is put at the head of a list. */
  method Push(line: Line, first: Line?, ghost ls: seq<Line>)
    requires Linked(ls) && first == First(ls) && line !in ls
    modifies line`l_next, line`l_prev, OneOf(first)`l_prev
    ensures Linked([line] + ls)
  {
    hide Distinct;
    ghost var ls' := [line] + ls;
    line.l_next := first;
    if first != null {
      first.l_prev := line;
    }
    line.l_prev := null;
    PushDistinct(line, ls);
    forall j: nat | j < |ls'| ensures LinkedAt(ls', j) {
      if j > 0 {
        assert old(LinkedAt(ls, j - 1)) && ls'[j] == ls[j - 1];
        if j > 1 { Different(ls, j - 1, 0); }
      }
    }
  }

  lemma PushDistinct(line: Line, ls: seq<Line>)
    requires Distinct(ls) && line !in ls
    ensures Distinct([line] + ls)
  {}

  /** The head of a list is taken off; the new head is returned. */
  method PopHead(line: Line, ghost ls: seq<Line>) returns (first: Line?)
    requires Linked(ls) && ls != [] && line == ls[0]
    modifies ls`l_prev
    ensures Linked(ls[1..]) && first == First(ls[1..])
  {
    hide Distinct;
    assert LinkedAt(ls, 0);
    first := line.l_next;
    if first != null {
      first.l_prev := null;
    }
    HeadOut(ls);
    ghost var ls' := ls[1..];
    forall j: nat | j < |ls'| ensures LinkedAt(ls', j) {
      assert old(LinkedAt(ls, j + 1)) && ls'[j] == ls[j + 1];
      if j > 0 { Different(ls, j + 1, 1); }
    }
  }

  lemma HeadOut(ls: seq<Line>)
    requires Distinct(ls) && ls != []
    ensures Distinct(ls[1..]) && ls[0] !in ls[1..]
    ensures forall l :: l in ls <==> l in ls[1..] || l == ls[0]
  {
    assert ls == [ls[0]] + ls[1..];
  }

  /** A line leaves a list; the first one is returned. */
  method Pull(line: Line, first: Line?, ghost ls: seq<Line>, ghost k: nat) returns (first': Line?)
    requires Linked(ls) && first == First(ls) && k < |ls| && line == ls[k]
    modifies ls`l_next, ls`l_prev
    ensures Linked(Remove(ls, k)) && first' == First(Remove(ls, k))
  {
    hide Distinct, Remove;
    ghost var ls' := Remove(ls, k);
    RemoveDistinct(ls, k);
    if |ls| > 1 { RemoveAt(ls, k, 0); }
    RemoveSize(ls, k);
    assert LinkedAt(ls, k);
    first' := first;
    if line.l_prev == null {
      first' := line.l_next;
    } else {
      line.l_prev.l_next := line.l_next;
    }
    if line.l_next != null {
      line.l_next.l_prev := line.l_prev;
    }
    forall j: nat | j < |ls'| ensures LinkedAt(ls', j) {
      ghost var i := if j < k then j else j + 1;
      RemoveAt(ls, k, j);
      if j > 0 { RemoveAt(ls, k, j - 1); }
      if j + 1 < |ls'| { RemoveAt(ls, k, j + 1); }
      assert old(LinkedAt(ls, i));
      if k > 0 && i != k - 1 { Different(ls, i, k - 1); }
      if k + 1 < |ls| && i != k + 1 { Different(ls, i, k + 1); }
    }
  }

  lemma RemoveSize<T>(s: seq<T>, k: nat)
    requires k < |s|
    ensures |Remove(s, k)| == |s| - 1
  {}

  method lastline(lp0: Line, ghost ls: seq<Line>) returns (lp: Line)
    requires Linked(ls) && ls != [] && lp0 == ls[0]
    ensures lp == ls[|ls| - 1]
  {
    hide Linked;
    lp := lp0;
    ghost var k := 0;
    LineAt(ls, 0);
    while lp.l_next != null
      invariant 0 <= k < |ls| && lp == ls[k]
      decreases |ls| - k
    {
      LineAt(ls, k);
      lp := lp.l_next;
      k := k + 1;
    }
    LineAt(ls, k);
  }

  /** One list is put behind another. */
  method Concat(laline: Line, ffline: Line, ghost a: seq<Line>, ghost f: seq<Line>)
    requires Linked(a) && Linked(f) && a != [] && f != [] && laline == a[|a| - 1] && ffline == f[0] && forall i :: 0 <= i < |f| ==> f[i] !in a
    modifies laline`l_next, ffline`l_prev
    ensures Linked(a + f)
  {
    hide Distinct;
    laline.l_next := ffline;
    ffline.l_prev := laline;
    ConcatDistinct(a, f);
    ghost var ls' := a + f;
    forall j: nat | j < |ls'| ensures LinkedAt(ls', j) {
      if j < |a| {
        assert old(LinkedAt(a, j)) && ls'[j] == a[j];
        if j + 1 < |a| { Different(a, j, |a| - 1); }
      } else {
        ghost var i := j - |a|;
        assert old(LinkedAt(f, i)) && ls'[j] == f[i];
        if i > 0 { Different(f, i, 0); }
      }
    }
  }

  lemma ConcatDistinct(a: seq<Line>, f: seq<Line>)
    requires Distinct(a) && Distinct(f) && forall i :: 0 <= i < |f| ==> f[i] !in a
    ensures Distinct(a + f)
  {}

  /** The chunk list, and where every line lives: each line of each chunk, and no other. */
  ghost predicate Housed(chunks: seq<Chunk>, home: map<Line, Chunk>) {
    && Distinct(chunks)
    && (forall c :: c in chunks ==> Lives(c, home))
    && forall l :: l in home ==> home[l] in chunks && l in home[l].c_block
  }

  /** The lines of a chunk are its own. */
  ghost predicate Lives(c: Chunk, home: map<Line, Chunk>) {
    Distinct(c.c_block) && forall i :: 0 <= i < |c.c_block| ==> c.c_block[i] in home && home[c.c_block[i]] == c
  }

  ghost predicate ChunkList(chunks: seq<Chunk>)
    reads chunks`c_nextchunk
  {
    forall k: nat :: k < |chunks| ==> ChunksAt(chunks, k)
  }

  ghost predicate Null(ls: seq<Line>)
    reads ls`l_dline
  {
    forall i :: 0 <= i < |ls| ==> ls[i].l_dline == NULL_DADDR
  }

  ghost predicate Within(ls: seq<Line>, home: map<Line, Chunk>) {
    forall i :: 0 <= i < |ls| ==> ls[i] in home
  }

  ghost predicate Apart(a: seq<Line>, b: seq<Line>) {
    forall i :: 0 <= i < |a| ==> a[i] !in b
  }

  /** The chunks that have a line in `used`. */
  ghost function Busy(chunks: seq<Chunk>, used: set<Line>): seq<Chunk> {
    if chunks == [] then []
    else (if exists l :: l in chunks[0].c_block && l in used then [chunks[0]] else []) + Busy(chunks[1..], used)
  }

  /** The lines that are in no list. */
  ghost function Used(avail: seq<Line>, freed: seq<Line>, home: map<Line, Chunk>): set<Line> {
    set l | l in home && l !in avail && l !in freed
  }

  /** The first available line comes into use. */
  lemma Popped(avail: seq<Line>, freed: seq<Line>, home: map<Line, Chunk>)
    requires avail != [] && Linked(avail) && Null(avail) && Within(avail, home) && Apart(freed, avail)
    ensures Null(avail[1..]) && Within(avail[1..], home) && Apart(freed, avail[1..]) && avail[0].l_dline == NULL_DADDR
    ensures avail[0] !in Used(avail, freed, home) && Used(avail[1..], freed, home) == Used(avail, freed, home) + {avail[0]}
  {
    hide LinkedAt;
    HeadOut(avail);
    assert avail[0] in avail;
  }

  /** A line in use is freed. */
  lemma FreedNext(line: Line, avail: seq<Line>, freed: seq<Line>, home: map<Line, Chunk>)
    requires line in Used(avail, freed, home) && Within(freed, home)
    ensures line !in avail && line !in freed && Within([line] + freed, home)
    ensures Used(avail, [line] + freed, home) == Used(avail, freed, home) - {line}
  {}

  lemma NextIs(kl: seq<Line>, k: nat)
    requires k < |kl|
    ensures Next(kl, k) == if k + 1 < |kl| then kl[k + 1] else null
  {}

  lemma NullNext(line: Line, freed: seq<Line>)
    requires Null(freed) && line.l_dline == NULL_DADDR
    ensures Null([line] + freed)
  {}

  /** Freed lines become available. */
  lemma Recycled(avail: seq<Line>, freed: seq<Line>, home: map<Line, Chunk>)
    requires Null(avail) && Null(freed) && Within(avail, home) && Within(freed, home)
    ensures Null(avail + freed) && Null([]) && Within(avail + freed, home) && Within([], home) && Apart([], avail + freed)
    ensures Used(avail + freed, [], home) == Used(avail, freed, home)
  {}

  class Alloc {
    var fchunk: Chunk?
    var ffline: Line?
    var faline: Line?
    ghost var avail: seq<Line>
    ghost var freed: seq<Line>
    ghost var chunks: seq<Chunk>
    ghost var home: map<Line, Chunk>

    constructor ()
      ensures Valid() && InUse() == {} && chunks == []
    {
      fchunk, ffline, faline := null, null, null;
      avail, freed, chunks, home := [], [], [], map[];
    }

    /** Every line of every chunk is available, or freed, or in use; the first two are well linked lists. */
    ghost predicate Valid()
      reads this, avail, freed, chunks
    {
      && Linked(avail) && Linked(freed) && faline == First(avail) && ffline == First(freed)
      && Null(avail) && Null(freed) && Apart(freed, avail)
      && ChunkList(chunks) && fchunk == FirstChunk(chunks, 0) && Housed(chunks, home)
      && Within(avail, home) && Within(freed, home)
    }

    ghost function InUse(): set<Line>
      reads this`home, this`avail, this`freed
    {
      Used(avail, freed, home)
    }

    /** Lines in use have an address. */
    ghost predicate Addressed()
      reads this, home.Keys
    {
      forall l :: l in home && l !in avail && l !in freed ==> l.l_dline != NULL_DADDR
    }

    method freeline(line: Line)
      requires Valid() && line in InUse()
      modifies this`ffline, this`freed, line, OneOf(ffline)`l_prev
      ensures Valid() && ffline == line && freed == [line] + old(freed) && InUse() == old(InUse()) - {line}
    {
      hide Linked, Housed, ChunkList, Distinct, Null, Within, Used;
      FreedNext(line, avail, freed, home);
      line.l_dline := NULL_DADDR;
      NullNext(line, freed);
      Push(line, ffline, freed);
      ffline := line;
      freed := [line] + freed;
    }

    /** The freed lines go to the end of the available ones. */
    method RecycleLines()
      requires Valid()
      modifies this`ffline, this`faline, this`avail, this`freed, avail`l_next, freed`l_prev
      ensures Valid() && avail == old(avail) + old(freed) && freed == [] && InUse() == old(InUse())
    {
      hide Linked, Housed, ChunkList, Distinct, Null, Within, Used;
      Recycled(avail, freed, home);
      if ffline == null {
        assert freed == [] && avail + freed == avail;
        return;
      }
      if faline == null {
        faline := ffline;
        assert avail + freed == freed;
      } else {
        var laline := lastline(faline, avail);
        Concat(laline, ffline, avail, freed);
      }
      ffline := null;
      avail, freed := avail + freed, [];
      NoneLinked();
    }

    /** lfreereg: the lines of a list that is linked forward are freed, one after the other. */
    method lfreereg(line1: Line, line2: Line, ghost kl: seq<Line>)
      requires Valid() && kl != [] && line1 == kl[0] && line2 == kl[|kl| - 1] && Distinct(kl)
      requires forall k :: 0 <= k < |kl| ==> kl[k] in InUse()
      requires forall k: nat :: k + 1 < |kl| ==> kl[k].l_next == Next(kl, k)
      requires line2.l_next !in kl
      modifies this`ffline, this`freed, kl, OneOf(ffline)`l_prev
      ensures Valid() && InUse() == old(InUse()) - Set(kl) && freed == Reversed(kl) + old(freed)
    {
      hide Valid, Distinct, InUse, Set, Reversed, Next;
      SetNone(kl);
      var last := line2.l_next;
      var line: Line? := line1;
      ghost var k: nat, inUse, freed0 := 0, InUse(), freed;
      while line != last
        invariant Valid() && k <= |kl| && line == (if k < |kl| then kl[k] else last) && (k < |kl| ==> line2.l_next == last)
        invariant forall j: nat :: k <= j && j + 1 < |kl| ==> kl[j].l_next == Next(kl, j)
        invariant freed == Reversed(kl[..k]) + freed0 && InUse() == inUse - Set(kl[..k])
        invariant ffline == (if k == 0 then old(ffline) else kl[k - 1])
        decreases |kl| - k
      {
        var next := line.l_next;
        forall j: nat | j < |kl| && j != k ensures kl[j] != kl[k] { Different(kl, j, k); }
        ReversedMore(kl, k);
        SetMore(kl, k);
        NextIs(kl, k);
        freeline(line);
        line := next;
        k := k + 1;
      }
      assert kl[..k] == kl;
    }

    /** The lines of a chunk, all available, leave the available list. */
    method remfreelines(c: Chunk)
      requires Linked(avail) && faline == First(avail) && Distinct(c.c_block) && forall l :: l in c.c_block ==> l in avail
      modifies this`faline, this`avail, avail`l_next, avail`l_prev
      ensures Linked(avail) && faline == First(avail)
      ensures forall l :: l in avail <==> l in old(avail) && l !in c.c_block
    {
      hide Linked, Distinct, Remove;
      var i := 0;
      while i < |c.c_block|
        invariant 0 <= i <= |c.c_block| && Linked(avail) && faline == First(avail)
        invariant forall l :: l in avail <==> l in old(avail) && l !in c.c_block[..i]
        invariant forall j :: 0 <= j < |avail| ==> avail[j] in old(avail)
      {
        var lp := c.c_block[i];
        forall j | 0 <= j < i ensures c.c_block[j] != lp { Different(c.c_block, j, i); }
        assert lp !in c.c_block[..i];
        ghost var k :| 0 <= k < |avail| && avail[k] == lp;
        IsDistinct(avail);
        RemoveDistinct(avail, k);
        faline := Pull(lp, faline, avail, k);
        RemoveFrom(avail, k);
        avail := Remove(avail, k);
        assert c.c_block[..i + 1] == c.c_block[..i] + [lp];
        i := i + 1;
      }
      assert c.c_block[..i] == c.c_block;
    }

    /** Whether no line of a chunk has an address. */
    method Empty(cp: Chunk) returns (r: bool)
      ensures r <==> forall l :: l in cp.c_block ==> l.l_dline == NULL_DADDR
    {
      var i := 0;
      while i < |cp.c_block|
        invariant 0 <= i <= |cp.c_block| && forall j :: 0 <= j < i ==> cp.c_block[j].l_dline == NULL_DADDR
      {
        if cp.c_block[i].l_dline != NULL_DADDR { return false; }
        i := i + 1;
      }
      r := true;
    }

    /** An empty chunk is unlinked and released, and its lines with it. */
    method Release(cp: Chunk, prev: Chunk?, ghost k: nat)
      requires Valid() && k < |chunks| && cp == chunks[k] && prev == (if k == 0 then null else chunks[k - 1])
      requires forall l :: l in cp.c_block ==> l in avail
      modifies this`fchunk, this`faline, this`avail, this`chunks, this`home, avail`l_next, avail`l_prev, chunks`c_nextchunk
      ensures Valid() && chunks == Remove(old(chunks), k) && freed == old(freed) && InUse() == old(InUse())
      ensures forall l :: l in avail <==> l in old(avail) && l !in cp.c_block
      ensures home == old(home) - Set(cp.c_block) && cp.c_nextchunk == old(cp.c_nextchunk)
    {
      hide Linked, Distinct, Remove, Housed, ChunkList, Null, Within, Apart, Set, First, FirstChunk, InUse, Used;
      ghost var chunks', home', used := Remove(chunks, k), home - Set(cp.c_block), InUse();
      ReleaseChunk(cp, prev, k);
      assert ChunkList(chunks');
      ReleaseLines(cp, k);
      assert ChunkList(chunks');
      HousedWithout(chunks, home, k);
      chunks, home := chunks', home';
      assert ChunkList(chunks) && fchunk == FirstChunk(chunks, 0) && Housed(chunks, home);
      assert Null(freed) && Within(avail, home) && Within(freed, home);
      UsedIs();
    }

    method ReleaseChunk(cp: Chunk, prev: Chunk?, ghost k: nat)
      requires ChunkList(chunks) && Housed(chunks, home) && fchunk == FirstChunk(chunks, 0)
      requires k < |chunks| && cp == chunks[k] && prev == (if k == 0 then null else chunks[k - 1])
      modifies this`fchunk, chunks`c_nextchunk
      ensures ChunkList(Remove(chunks, k)) && fchunk == FirstChunk(Remove(chunks, k), 0) && cp.c_nextchunk == old(cp.c_nextchunk)
    {
      hide Distinct, Remove, Lives;
      UnlinkChunk(cp, prev, chunks, k);
      if prev == null { fchunk := cp.c_nextchunk; }
    }

    method ReleaseLines(cp: Chunk, ghost k: nat)
      requires Linked(avail) && faline == First(avail) && Null(avail) && Within(avail, home) && Within(freed, home) && Apart(freed, avail)
      requires Housed(chunks, home) && k < |chunks| && cp == chunks[k] && Linked(freed) && forall l :: l in cp.c_block ==> l in avail
      modifies this`faline, this`avail, avail`l_next, avail`l_prev
      ensures var home' := home - Set(cp.c_block);
        && Linked(avail) && Linked(freed) && faline == First(avail) && Null(avail) && Within(avail, home') && Within(freed, home') && Apart(freed, avail)
        && (forall l :: l in avail <==> l in old(avail) && l !in cp.c_block)
        && Used(avail, freed, home') == old(InUse())
    {
      hide Linked, Distinct, Housed, Null, Within;
      ghost var avail0, used := avail, InUse();
      ChunkAt(chunks, home, k);
      remfreelines(cp);
      Smaller(avail0, avail, freed, home, cp.c_block);
      SameSet(Used(avail, freed, home - Set(cp.c_block)), used);
    }

    lemma UsedIs()
      ensures InUse() == Used(avail, freed, home)
    {}

    /** GCchunks: every chunk none of whose lines is in use is released, and no other. */
    method GCchunks()
      requires Valid() && Addressed()
      modifies this, avail, freed, chunks
      ensures Valid() && Addressed() && freed == [] && InUse() == old(InUse()) && chunks == Busy(old(chunks), InUse())
      ensures forall l :: l in home <==> l in old(home) && old(home)[l] in chunks
      ensures forall l :: l in home ==> home[l] == old(home)[l]
      ensures forall l :: l in avail <==> (l in old(avail) || l in old(freed)) && old(home)[l] in chunks
      ensures forall j :: 0 <= j < |avail| ==> avail[j] in old(avail) || avail[j] in old(freed)
    {
      hide Valid, Busy, Distinct, Left, InUse, Addressed, Scanned;
      ghost var cs, used, home0, all := chunks, InUse(), home, avail + freed;
      HomeFacts();
      RecycleLines();
      StillAddressed(used);
      ListHead(0);
      var cp, prev: Chunk? := fchunk, null;
      ghost var k: nat, i: nat := 0, 0;
      ScanStart(used);
      LeftStart(home0, all, cs);
      while cp != null
        invariant Valid() && Addressed() && freed == [] && InUse() == used
        invariant Scanned(cp, prev, k, i, cs, used) && Left(home, avail, chunks, home0, all)
        invariant (forall j :: 0 <= j < |chunks| ==> chunks[j] in cs) && forall j :: 0 <= j < |avail| ==> avail[j] in all
        decreases |cs| - i
      {
        ScanEnd(cp, prev, k, i, cs, used);
        cp, prev, k := GCchunk(cp, prev, k, i, cs, used, home0, all);
        i := i + 1;
      }
      ScanEnd(cp, prev, k, i, cs, used);
      LeftEnd(home, avail, chunks, home0, all);
    }

    /** Of the chunks `cs` the first `i` have been looked at, and the first `k` of those that are left
        are the busy ones among them. */
    ghost predicate Scanned(cp: Chunk?, prev: Chunk?, k: nat, i: nat, cs: seq<Chunk>, used: set<Line>)
      reads this`chunks
    {
      && k <= |chunks| && i <= |cs| && chunks[..k] == Busy(cs[..i], used) && chunks[k..] == cs[i..]
      && cp == FirstChunk(chunks, k) && prev == (if k == 0 then null else chunks[k - 1])
    }

    lemma ScanStart(used: set<Line>)
      requires fchunk == FirstChunk(chunks, 0)
      ensures Scanned(fchunk, null, 0, 0, chunks, used)
    {
      BusyStart(chunks, used);
      assert chunks[..0] == [];
    }

    lemma ScanEnd(cp: Chunk?, prev: Chunk?, k: nat, i: nat, cs: seq<Chunk>, used: set<Line>)
      requires Scanned(cp, prev, k, i, cs, used)
      ensures if cp == null then chunks == Busy(cs, used) else i < |cs|
    {
      assert |chunks[k..]| == |cs[i..]|;
      if cp == null { assert chunks[..k] == chunks && cs[..i] == cs; }
    }

    /** One turn of the collector. */
    method GCchunk(cp: Chunk, prev: Chunk?, ghost k: nat, ghost i: nat, ghost cs: seq<Chunk>, ghost used: set<Line>,
                   ghost home0: map<Line, Chunk>, ghost all: seq<Line>)
      returns (cp': Chunk?, prev': Chunk?, ghost k': nat)
      requires Valid() && Addressed() && freed == [] && InUse() == used && i < |cs|
      requires Scanned(cp, prev, k, i, cs, used) && Left(home, avail, chunks, home0, all)
      modifies this`fchunk, this`faline, this`avail, this`chunks, this`home, avail`l_next, avail`l_prev, chunks`c_nextchunk
      ensures Valid() && Addressed() && freed == [] && InUse() == used
      ensures Scanned(cp', prev', k', i + 1, cs, used) && Left(home, avail, chunks, home0, all)
      ensures (forall j :: 0 <= j < |chunks| ==> chunks[j] in old(chunks)) && forall j :: 0 <= j < |avail| ==> avail[j] in old(avail)
    {
      hide Valid, Busy, Remove, Set, Distinct, Left, InUse, Addressed;
      assert |chunks[k..]| == |cs[i..]| && chunks[k..][0] == cs[i..][0] && chunks[k..][1..] == cs[i..][1..];
      ListHead(k);
      cp', prev', k' := cp.c_nextchunk, prev, k;
      BusyMore(cs, i, used);
      ghost var chunks1, home1, avail1 := chunks, home, avail;
      HomeFacts();
      RemoveParts(chunks, k);
      RemoveFrom(chunks, k);
      var empty := Collect(cp, prev, k);
      if empty {
        LeftStep(home1, avail1, chunks1, home0, all, k, avail);
      } else {
        assert chunks[..k + 1] == chunks[..k] + [cp];
        prev' := cp;
        k' := k + 1;
      }
    }

    /** One chunk of the collection. */
    method Collect(cp: Chunk, prev: Chunk?, ghost k: nat) returns (empty: bool)
      requires Valid() && Addressed() && freed == [] && k < |chunks| && cp == chunks[k] && prev == (if k == 0 then null else chunks[k - 1])
      modifies this`fchunk, this`faline, this`avail, this`chunks, this`home, avail`l_next, avail`l_prev, chunks`c_nextchunk
      ensures Valid() && Addressed() && freed == [] && InUse() == old(InUse()) && cp.c_nextchunk == old(cp.c_nextchunk)
      ensures empty <==> forall l :: l in cp.c_block ==> l !in InUse()
      ensures !empty ==> chunks == old(chunks) && home == old(home) && avail == old(avail)
      ensures empty ==> chunks == Remove(old(chunks), k) && home == old(home) - Set(cp.c_block)
      ensures empty ==> forall l :: l in avail <==> l in old(avail) && l !in cp.c_block
      ensures forall j :: 0 <= j < |avail| ==> avail[j] in old(avail)
      ensures empty ==> forall l :: l in old(home) ==> (old(home)[l] == cp <==> l in Set(cp.c_block))
    {
      hide Valid, Remove, Set, Distinct, InUse, Addressed;
      ghost var used, avail0 := InUse(), avail;
      empty := Empty(cp);
      UnusedIs(cp, k);
      OwnLines(cp, k);
      if empty {
        Release(cp, prev, k);
        StillAddressed(used);
        forall j | 0 <= j < |avail| ensures avail[j] in avail0 { assert avail[j] in avail; }
      }
    }

    /** Addresses are not touched. */
    twostate lemma StillAddressed(used: set<Line>)
      requires old(Addressed()) && InUse() == used == old(InUse())
      requires forall l :: l in used ==> l.l_dline == old(l.l_dline)
      ensures Addressed()
    {
      forall l | l in home && l !in avail && l !in freed ensures l.l_dline != NULL_DADDR {
        assert l in InUse();
      }
    }

    /** The lines of a new chunk go to the head of the available list, one by one. */
    method Carve(nlines: nat) returns (block: seq<Line>)
      requires Linked(avail) && faline == First(avail) && Null(avail)
      modifies this`faline, this`avail, OneOf(faline)`l_prev
      ensures |block| == nlines && Distinct(block) && fresh(block)
      ensures Linked(avail) && faline == First(avail) && Null(avail) && avail == Reversed(block) + old(avail)
    {
      hide Linked, Distinct, Reversed, Null;
      block := [];
      NoneDistinct();
      assert Reversed(block) + avail == avail by { ReversedNone(block); }
      var i := 0;
      while i < nlines
        invariant 0 <= i <= nlines && |block| == i && Distinct(block) && fresh(block)
        invariant Linked(avail) && faline == First(avail) && Null(avail) && avail == Reversed(block) + old(avail)
        invariant i > 0 ==> faline in block
        invariant i == 0 ==> faline == old(faline)
      {
        var newline := new Line();
        newline.l_dline := NULL_DADDR;
        NotReversed(newline, block, old(avail));
        Push(newline, faline, avail);
        NullMore(newline, avail);
        faline := newline;
        avail := [newline] + avail;
        BlockMore(block, newline);
        block := block + [newline];
        i := i + 1;
      }
    }

    /** A new chunk, its lines available. */
    method NewBlock(nlines: nat)
      requires Valid() && Addressed()
      modifies this`fchunk, this`faline, this`avail, this`chunks, this`home, OneOf(faline)`l_prev
      ensures Valid() && Addressed() && InUse() == old(InUse()) && freed == old(freed)
      ensures |chunks| == |old(chunks)| + 1 && chunks[1..] == old(chunks) && |chunks[0].c_block| == nlines && fresh(chunks[0].c_block)
      ensures avail == Reversed(chunks[0].c_block) + old(avail)
    {
      hide Linked, Distinct, Reversed, Housed, Null, Within, Apart, ChunkList, OneOf, First, Addressed, Set, Lives, InUse;
      ghost var avail0, used := avail, InUse();
      HeadApart(avail, freed);
      UsedIs();
      var block := Carve(nlines);
      assert Linked(freed) && Null(freed);
      assert forall i :: 0 <= i < |freed| ==> freed[i] !in block;
      Adopt(block, avail0, used);
      StillAddressed(used);
    }

    /** A chunk of new lines, which are available already, joins the others. */
    method Adopt(block: seq<Line>, ghost avail0: seq<Line>, ghost used: set<Line>)
      requires Linked(avail) && Linked(freed) && faline == First(avail) && ffline == First(freed) && Null(avail) && Null(freed)
      requires ChunkList(chunks) && fchunk == FirstChunk(chunks, 0) && Housed(chunks, home) && Distinct(block)
      requires avail == Reversed(block) + avail0 && Within(avail0, home) && Within(freed, home) && Apart(freed, avail0)
      requires (forall i :: 0 <= i < |freed| ==> freed[i] !in block) && forall l :: l in block ==> l !in home
      requires used == Used(avail0, freed, home)
      modifies this`fchunk, this`chunks, this`home
      ensures Valid() && InUse() == used && |chunks| == |old(chunks)| + 1 && chunks[1..] == old(chunks) && chunks[0].c_block == block
    {
      hide Linked, Distinct, Reversed, Housed, Null, Within, Apart, ChunkList, First;
      var f := new Chunk(block, fchunk);
      ghost var home' := home + map l | l in block :: f;
      ReversedApart(block, avail0, freed);
      HousedMore(chunks, home, f);
      NewList(f, chunks);
      WithinMore(avail0, freed, home, block, home');
      UsedSame(avail0, freed, home, block, f, used);
      fchunk := f;
      chunks, home := [f] + chunks, home';
    }

    /** newchunk: smaller and smaller chunks are asked for; the collector is tried once.  `grant` tells
        which of the requests malloc meets. */
    method newchunk(grant: nat -> bool) returns (ok: bool)
      requires Valid() && Addressed()
      modifies this, avail, freed, chunks
      ensures Valid() && Addressed() && InUse() == old(InUse())
      ensures ok <==> exists a :: 0 <= a < REQUESTS && grant(a)
      ensures ok ==> avail != [] && forall j :: 0 <= j < |avail| ==> avail[j] in old(avail) || avail[j] in old(freed) || fresh(avail[j])
    {
      hide Valid, InUse, Addressed, Reversed;
      var nlines, done_gc, a: nat := CHUNKSIZE, false, 0;
      while true
        invariant Valid() && Addressed() && InUse() == old(InUse())
        invariant a < REQUESTS && nlines == SizeAt(a) && nlines > 0 && (done_gc <==> a >= 1) && forall b :: 0 <= b < a ==> !grant(b)
        invariant !done_gc ==> avail == old(avail) && freed == old(freed) && chunks == old(chunks)
        invariant forall j :: 0 <= j < |avail| ==> avail[j] in old(avail) || avail[j] in old(freed)
        decreases REQUESTS - a
      {
        if grant(a) { break; }
        a := a + 1;
        if !done_gc {
          GCchunks();
          done_gc := true;
        } else {
          nlines := nlines / 2;
          SizesEnd();
          if nlines <= 0 { return false; }
        }
      }
      Grow(nlines);
      ok := true;
    }

    /** A new chunk of at least one line. */
    method Grow(nlines: nat)
      requires Valid() && Addressed() && nlines > 0
      modifies this, avail
      ensures Valid() && Addressed() && InUse() == old(InUse())
      ensures avail != [] && forall j :: 0 <= j < |avail| ==> avail[j] in old(avail) || fresh(avail[j])
    {
      hide Valid, InUse, Addressed, Reversed;
      HeadIn();
      ghost var avail0 := avail;
      NewBlock(nlines);
      ReversedLength(chunks[0].c_block);
      forall j | 0 <= j < |avail| ensures avail[j] in avail0 || avail[j] in chunks[0].c_block {
        ReversedIn(chunks[0].c_block, avail[j]);
      }
    }

    /** nbufline: a line that was not in use; null (and a complaint) only when nothing is free and no
        request for memory is met. */
    method nbufline(grant: nat -> bool) returns (newline: Line?)
      requires Valid() && Addressed()
      modifies this, avail, freed, chunks
      ensures Valid()
      ensures newline == null <==> old(avail) == [] && old(freed) == [] && forall a :: 0 <= a < REQUESTS ==> !grant(a)
      ensures newline == null ==> InUse() == old(InUse())
      ensures newline != null ==> newline !in old(InUse()) && InUse() == old(InUse()) + {newline} && newline.l_dline == NULL_DADDR
      ensures forall l :: l in old(InUse()) ==> l.l_dline == old(l.l_dline)
    {
      hide Valid, Addressed;
      ghost var used := InUse();
      HeadIn();
      if faline == null {
        RecycleLines();
        StillAddressed(used);
        HeadIn();
        if faline == null {
          var ok := newchunk(grant);
          HeadIn();
          if !ok { return null; }
        }
      }
      newline := Pop();
    }

    /** The first available line is taken. */
    method Pop() returns (newline: Line)
      requires Valid() && avail != []
      modifies this`faline, this`avail, avail`l_prev
      ensures Valid() && newline == old(avail)[0] && avail == old(avail)[1..] && newline.l_dline == NULL_DADDR
      ensures newline !in old(InUse()) && InUse() == old(InUse()) + {newline}
    {
      hide Housed, ChunkList, Linked, Null, Within, Used;
      ghost var was := avail;
      Popped(was, freed, home);
      newline := faline;
      faline := PopHead(newline, avail);
      avail := avail[1..];
    }

    lemma HeadIn()
      requires Valid()
      ensures faline == First(avail)
    {}

    /** What the list says of chunk `k` and its neighbours. */
    lemma ListHead(k: nat)
      requires Valid() && k <= |chunks|
      ensures fchunk == FirstChunk(chunks, 0) && (k < |chunks| ==> chunks[k].c_nextchunk == FirstChunk(chunks, k + 1))
    {
      if k < |chunks| { assert ChunksAt(chunks, k); }
    }

    lemma HomeFacts()
      requires Valid()
      ensures Distinct(chunks) && forall l :: l in home ==> home[l] in chunks
      ensures forall l :: l in avail || l in freed ==> l in home
    {}

    lemma OwnLines(cp: Chunk, k: nat)
      requires Valid() && k < |chunks| && cp == chunks[k]
      ensures Distinct(chunks) && forall l :: l in home ==> (home[l] == cp <==> l in Set(cp.c_block))
    {
      assert Lives(cp, home);
    }

    /** A chunk without addresses is one without lines in use, and its lines are available. */
    lemma UnusedIs(cp: Chunk, k: nat)
      requires Valid() && Addressed() && freed == [] && k < |chunks| && cp == chunks[k]
      ensures (forall l :: l in cp.c_block ==> l.l_dline == NULL_DADDR) <==> forall l :: l in cp.c_block ==> l !in InUse()
      ensures (forall l :: l in cp.c_block ==> l !in InUse()) ==> forall l :: l in cp.c_block ==> l in avail
    {
      assert Lives(cp, home);
      forall l | l in cp.c_block ensures l in home && (l in avail ==> l.l_dline == NULL_DADDR) {
        var j :| 0 <= j < |cp.c_block| && cp.c_block[j] == l;
        if l in avail { var m :| 0 <= m < |avail| && avail[m] == l; }
      }
    }
  }

  /** What is left is what belongs to the chunks that are left. */
  ghost predicate Left(home: map<Line, Chunk>, avail: seq<Line>, chunks: seq<Chunk>, home0: map<Line, Chunk>, all: seq<Line>) {
    && (forall l :: l in home ==> l in home0 && home0[l] in chunks && home[l] == home0[l])
    && (forall l :: l in home0 ==> home0[l] in chunks ==> l in home)
    && (forall l :: l in all ==> l in home0)
    && (forall l :: l in avail ==> l in all && home0[l] in chunks) && (forall l :: l in all ==> home0[l] in chunks ==> l in avail)
  }

  lemma LeftStart(home: map<Line, Chunk>, all: seq<Line>, chunks: seq<Chunk>)
    requires (forall l :: l in home ==> home[l] in chunks) && forall l :: l in all ==> l in home
    ensures Left(home, all, chunks, home, all)
  {}

  lemma LeftStep(home: map<Line, Chunk>, avail: seq<Line>, chunks: seq<Chunk>, home0: map<Line, Chunk>, all: seq<Line>, k: nat, avail': seq<Line>)
    requires Left(home, avail, chunks, home0, all) && k < |chunks| && Distinct(chunks)
    requires forall l :: l in home ==> (home[l] == chunks[k] <==> l in Set(chunks[k].c_block))
    requires forall l :: l in avail' <==> l in avail && l !in chunks[k].c_block
    ensures Left(home - Set(chunks[k].c_block), avail', Remove(chunks, k), home0, all)
  {
    RemoveDistinct(chunks, k);
  }

  lemma LeftEnd(home: map<Line, Chunk>, avail: seq<Line>, chunks: seq<Chunk>, home0: map<Line, Chunk>, all: seq<Line>)
    requires Left(home, avail, chunks, home0, all)
    ensures (forall l :: l in home <==> l in home0 && home0[l] in chunks) && (forall l :: l in home ==> home[l] == home0[l])
    ensures (forall l :: l in all ==> l in home0) && forall l :: l in avail <==> l in all && home0[l] in chunks
  {}

  lemma BusyStart(cs: seq<Chunk>, used: set<Line>)
    ensures Busy(cs[..0], used) == []
  {}

  lemma {:induction false} BusyMore(cs: seq<Chunk>, i: nat, used: set<Line>)
    requires i < |cs|
    ensures Busy(cs[..i + 1], used) == Busy(cs[..i], used) + (if exists l :: l in cs[i].c_block && l in used then [cs[i]] else [])
    decreases i
  {
    if i == 0 {
      assert cs[..1][1..] == [];
    } else {
      assert cs[..i + 1][1..] == cs[1..][..i] && cs[..i][1..] == cs[1..][..i - 1];
      BusyMore(cs[1..], i - 1, used);
    }
  }

  ghost function Set(s: seq<Line>): set<Line> { set l | l in s }

  /** How many lines are asked for the `a`th time. */
  function SizeAt(a: nat): nat { if a <= 1 then CHUNKSIZE else SizeAt(a - 1) / 2 }

  lemma SizesEnd()
    ensures SizeAt(REQUESTS - 1) == 1 && SizeAt(REQUESTS) == 0
    ensures forall a :: 1 < a < REQUESTS ==> SizeAt(a) > 0
  {
    assert SizeAt(4) == 37;
    assert SizeAt(6) == 9;
    assert SizeAt(8) == 2;
  }

  lemma {:induction false} ReversedLength(s: seq<Line>)
    ensures |Reversed(s)| == |s|
    decreases |s|
  {
    if s != [] { ReversedLength(s[1..]); }
  }

  /** New lines are no old ones. */
  lemma ReversedApart(block: seq<Line>, avail: seq<Line>, freed: seq<Line>)
    requires Apart(freed, avail) && forall i :: 0 <= i < |freed| ==> freed[i] !in block
    ensures Apart(freed, Reversed(block) + avail)
  {
    hide Reversed;
    forall i | 0 <= i < |freed| ensures freed[i] !in Reversed(block) + avail {
      ReversedIn(block, freed[i]);
    }
  }

  lemma HeadApart(avail: seq<Line>, freed: seq<Line>)
    requires Apart(freed, avail)
    ensures forall i :: 0 <= i < |freed| ==> freed[i] !in OneOf(First(avail))
  {}

  lemma HousedMore(chunks: seq<Chunk>, home: map<Line, Chunk>, f: Chunk)
    requires Housed(chunks, home) && Distinct(f.c_block) && f !in chunks && forall l :: l in f.c_block ==> l !in home
    ensures Housed([f] + chunks, home + map l | l in f.c_block :: f)
  {
    var home' := home + map l | l in f.c_block :: f;
    forall c | c in [f] + chunks ensures Lives(c, home') {
      if c != f {
        assert Lives(c, home);
      }
    }
    assert forall l :: l in home' ==> home'[l] in [f] + chunks && l in home'[l].c_block;
  }

  lemma NewList(f: Chunk, chunks: seq<Chunk>)
    requires ChunkList(chunks) && f.c_nextchunk == FirstChunk(chunks, 0)
    ensures ChunkList([f] + chunks)
  {
    var cs := [f] + chunks;
    forall k: nat | k < |cs| ensures ChunksAt(cs, k) {
      if k > 0 { assert ChunksAt(chunks, k - 1); }
    }
  }

  lemma UsedSame(avail: seq<Line>, freed: seq<Line>, home: map<Line, Chunk>, block: seq<Line>, f: Chunk, used: set<Line>)
    requires used == Used(avail, freed, home) && forall l :: l in block ==> l !in home
    ensures var home' := home + map l | l in block :: f;
      used == Used(Reversed(block) + avail, freed, home')
  {
    hide Reversed;
    var home', all := home + (map l | l in block :: f), Reversed(block) + avail;
    forall l | l in home' ensures l in all <==> l in block || l in avail {
      ReversedIn(block, l);
    }
    assert forall l :: l in home' <==> l in home || l in block;
    var now := Used(all, freed, home');
    assert forall l :: l in now <==> l in used;
  }

  lemma WithinMore(avail: seq<Line>, freed: seq<Line>, home: map<Line, Chunk>, block: seq<Line>, home': map<Line, Chunk>)
    requires Within(avail, home) && Within(freed, home) && (forall l :: l in home ==> l in home') && forall l :: l in block ==> l in home'
    ensures Within(Reversed(block) + avail, home') && Within(freed, home')
  {
    hide Reversed;
    var all := Reversed(block) + avail;
    forall i | 0 <= i < |all| ensures all[i] in home' {
      ReversedIn(block, all[i]);
      assert i < |Reversed(block)| ==> all[i] in Reversed(block);
    }
  }

  lemma NullMore(l: Line, ls: seq<Line>)
    requires Null(ls) && l.l_dline == NULL_DADDR
    ensures Null([l] + ls)
  {}

  lemma NoneDistinct()
    ensures Distinct<Line>([])
  {}

  lemma ReversedNone(s: seq<Line>)
    requires s == []
    ensures Reversed(s) == []
  {}

  lemma {:induction false} ReversedIn(s: seq<Line>, l: Line)
    ensures l in Reversed(s) <==> l in s
    decreases |s|
  {
    if s != [] {
      ReversedIn(s[1..], l);
      assert s == [s[0]] + s[1..];
    }
  }

  lemma NotReversed(l: Line, s: seq<Line>, rest: seq<Line>)
    requires l !in s && l !in rest
    ensures l !in Reversed(s) + rest
  {
    ReversedIn(s, l);
  }

  lemma {:induction false} BlockMore(s: seq<Line>, l: Line)
    requires Distinct(s) && l !in s
    ensures Distinct(s + [l]) && Reversed(s + [l]) == [l] + Reversed(s)
  {
    var t := s + [l];
    assert t[..|s|] == s && t[..|s| + 1] == t;
    ReversedMore(t, |s|);
  }

  lemma SetNone(s: seq<Line>)
    ensures Set(s[..0]) == {} && Reversed(s[..0]) == []
  {}

  lemma SetMore(s: seq<Line>, k: nat)
    requires k < |s| && forall j :: 0 <= j < k ==> s[j] != s[k]
    ensures Set(s[..k + 1]) == Set(s[..k]) + {s[k]} && s[k] !in Set(s[..k])
  {
    assert s[..k + 1] == s[..k] + [s[k]];
  }

  function Reversed<T>(s: seq<T>): (r: seq<T>) { if s == [] then [] else Reversed(s[1..]) + [s[0]] }

  lemma {:induction false} ReversedMore<T>(s: seq<T>, k: nat)
    requires k < |s|
    ensures Reversed(s[..k + 1]) == [s[k]] + Reversed(s[..k])
    decreases k
  {
    if k > 0 {
      ReversedMore(s[1..], k - 1);
      assert s[..k + 1][1..] == s[1..][..k] && s[..k][1..] == s[1..][..k - 1];
    }
  }

  /** A chunk leaves the list of chunks. */
  method UnlinkChunk(cp: Chunk, prev: Chunk?, ghost cs: seq<Chunk>, ghost k: nat)
    requires ChunkList(cs) && Distinct(cs) && k < |cs| && cp == cs[k] && prev == (if k == 0 then null else cs[k - 1])
    modifies cs`c_nextchunk
    ensures ChunkList(Remove(cs, k)) && FirstChunk(Remove(cs, k), 0) == (if k == 0 then old(cp.c_nextchunk) else FirstChunk(cs, 0))
    ensures cp.c_nextchunk == old(cp.c_nextchunk)
  {
    hide Distinct, Remove;
    ghost var cs' := Remove(cs, k);
    assert ChunksAt(cs, k);
    RemoveSize(cs, k);
    if |cs| > 1 { RemoveAt(cs, k, 0); }
    if prev != null {
      Different(cs, k - 1, k);
      prev.c_nextchunk := cp.c_nextchunk;
    }
    forall j: nat | j < |cs'| ensures ChunksAt(cs', j) {
      ghost var i := if j < k then j else j + 1;
      RemoveAt(cs, k, j);
      if j + 1 < |cs'| { RemoveAt(cs, k, j + 1); }
      assert old(ChunksAt(cs, i));
      if k > 0 && i != k - 1 { Different(cs, i, k - 1); }
    }
  }

  lemma HousedWithout(chunks: seq<Chunk>, home: map<Line, Chunk>, k: nat)
    requires Housed(chunks, home) && k < |chunks|
    ensures Housed(Remove(chunks, k), home - Set(chunks[k].c_block))
  {
    var chunks', home', gone := Remove(chunks, k), home - Set(chunks[k].c_block), chunks[k];
    forall c | c in chunks' ensures c != gone && c in chunks && Lives(c, home') {
      RemoveIn(chunks, k, c);
      StillLives(c, gone, home);
    }
    RemoveDistinct(chunks, k);
    forall l | l in home' ensures home'[l] in chunks' && l in home'[l].c_block {
      assert home[l] != gone;
    }
  }

  lemma StillLives(c: Chunk, gone: Chunk, home: map<Line, Chunk>)
    requires Lives(c, home) && Lives(gone, home) && c != gone
    ensures Lives(c, home - Set(gone.c_block))
  {
    forall i, j | 0 <= i < |c.c_block| && 0 <= j < |gone.c_block| ensures c.c_block[i] != gone.c_block[j] {
      assert home[c.c_block[i]] == c && home[gone.c_block[j]] == gone;
    }
  }

  lemma ChunkAt(chunks: seq<Chunk>, home: map<Line, Chunk>, k: nat)
    requires Housed(chunks, home) && k < |chunks|
    ensures Distinct(chunks) && Distinct(chunks[k].c_block)
  {
    assert chunks[k] in chunks;
  }

  /** What the available lines are when those of an empty chunk have gone. */
  lemma Smaller(avail: seq<Line>, avail': seq<Line>, freed: seq<Line>, home: map<Line, Chunk>, block: seq<Line>)
    requires Null(avail) && Within(avail, home) && Within(freed, home) && Apart(freed, avail)
    requires (forall l :: l in block ==> l in avail) && forall l :: l in avail' <==> l in avail && l !in block
    ensures Null(avail') && Within(avail', home - Set(block)) && Within(freed, home - Set(block)) && Apart(freed, avail')
    ensures forall l :: l in home - Set(block) && l !in avail' && l !in freed <==> l in home && l !in avail && l !in freed
  {
    forall i | 0 <= i < |avail'| ensures avail'[i] in avail && avail'[i] in home && avail'[i] !in block {
      assert avail'[i] in avail';
      var j :| 0 <= j < |avail| && avail[j] == avail'[i];
    }
    forall i | 0 <= i < |freed| ensures freed[i] in home && freed[i] !in block {}
  }

  lemma SameSet(a: set<Line>, b: set<Line>)
    requires forall l :: l in a <==> l in b
    ensures a == b
  {}

  lemma IsDistinct(ls: seq<Line>)
    requires Linked(ls)
    ensures Distinct(ls)
  {}

  lemma NoneLinked()
    ensures Linked([])
  {}
}
