/** The block cache over the temporary file: a fixed table of blocks that is threaded by an LRU
    list and by hash chains, with delayed writes.  Links are indices into the table. */
module BlockCache {
  import opened Geometry

  const HASHSIZE := 7
  const NULL := -1

  datatype Block = Block(dirty: bool, bno: nat, buf: seq<char>, LRUnext: int, LRUprev: int, HASHnext: int)

  ghost function First(ids: seq<int>): int { if ids == [] then NULL else ids[0] }

  ghost function Last(ids: seq<int>): int { if ids == [] then NULL else ids[|ids| - 1] }

  ghost predicate Indices(ids: seq<int>, n: nat) {
    && (forall k :: 0 <= k < |ids| ==> 0 <= ids[k] < n)
    && (forall j, k :: 0 <= j < k < |ids| ==> ids[j] != ids[k])
  }

  /** `ids` with element `k` left out. */
  ghost function Without(ids: seq<int>, k: nat): (r: seq<int>)
    requires k < |ids|
    ensures |r| == |ids| - 1
    ensures forall j :: 0 <= j < |r| ==> r[j] == ids[if j < k then j else j + 1]
  {
    ids[..k] + ids[k + 1..]
  }

  lemma WithoutIndices(ids: seq<int>, k: nat, n: nat)
    requires Indices(ids, n) && k < |ids|
    ensures Indices(Without(ids, k), n) && ids[k] !in Without(ids, k)
    ensures forall x :: x in ids && x != ids[k] ==> x in Without(ids, k)
    ensures forall x :: x in Without(ids, k) ==> x in ids
  {
    var r := Without(ids, k);
    forall x | x in ids && x != ids[k] ensures x in r {
      var j :| 0 <= j < |ids| && ids[j] == x;
      assert r[if j < k then j else j - 1] == x;
    }
  }

  lemma LruEnds(ids: seq<int>, k: nat, n: nat)
    requires Indices(ids, n) && k < |ids|
    ensures First(Without(ids, k)) == if k > 0 then First(ids) else if 1 < |ids| then ids[1] else NULL
    ensures Last(Without(ids, k)) == if k + 1 < |ids| then Last(ids) else if k > 0 then ids[k - 1] else NULL
  {}

  /** Neighbours in `Without(ids, k)` are neighbours in `ids`, or those of element `k`. */
  lemma WithoutNeighbours(ids: seq<int>, k: nat, i: nat)
    requires k < |ids| && i + 2 < |ids|
    ensures var r := Without(ids, k);
      if i + 1 < k then r[i] == ids[i] && r[i + 1] == ids[i + 1]
      else if i + 1 == k then r[i] == ids[k - 1] && r[i + 1] == ids[k + 1]
      else r[i] == ids[i + 1] && r[i + 1] == ids[i + 2]
  {}

  /** `ids` lists the blocks from `f` to `l`, least recently used first. */
  ghost predicate LruList(c: seq<Block>, f: int, l: int, ids: seq<int>) {
    && Indices(ids, |c|)
    && f == First(ids) && l == Last(ids)
    && (forall j, k :: 0 <= j && j + 1 == k && k < |ids| ==>
          c[ids[j]].LRUnext == ids[k] && c[ids[k]].LRUprev == ids[j])
    && (ids != [] ==> c[f].LRUprev == NULL && c[l].LRUnext == NULL)
  }

  /** `ids` lists chain number `h` from `head`; no block of `out` is on it. */
  ghost predicate HashChain(c: seq<Block>, head: int, ids: seq<int>, h: nat, out: set<int>) {
    && Indices(ids, |c|)
    && head == First(ids)
    && (forall j, k :: 0 <= j && j + 1 == k && k < |ids| ==> c[ids[j]].HASHnext == ids[k])
    && (ids != [] ==> c[ids[|ids| - 1]].HASHnext == NULL)
    && (forall k :: 0 <= k < |ids| ==> ids[k] !in out && c[ids[k]].bno % HASHSIZE == h)
  }

  ghost predicate Chained(c: seq<Block>, chains: seq<seq<int>>, i: int)
    requires 0 <= i < |c| && |chains| == HASHSIZE
  {
    i in chains[c[i].bno % HASHSIZE]
  }

  /** Every block not in `out` is in the chain its number hashes to, and in no other. */
  ghost predicate HashTable(c: seq<Block>, bht: seq<int>, chains: seq<seq<int>>, out: set<int>) {
    && |bht| == |chains| == HASHSIZE
    && (forall h :: 0 <= h < HASHSIZE ==> HashChain(c, bht[h], chains[h], h, out))
    && (forall i :: 0 <= i < |c| && i !in out ==> Chained(c, chains, i))
  }

  ghost predicate Cached(c: seq<Block>, b: nat) {
    exists i :: 0 <= i < |c| && c[i].bno == b
  }

  ghost predicate OnDisk(disk: Disk, view: seq<seq<char>>, b: nat)
    requires b < |view|
  {
    b in disk && disk[b] == view[b]
  }

  /** The cache and the file together hold `view`, a flat sequence of blocks: a cached block is
      its view; a block that is clean or not cached has its view on disk. */
  ghost predicate Coherent(c: seq<Block>, disk: Disk, view: seq<seq<char>>, size: nat) {
    && (forall i :: 0 <= i < |c| ==> |c[i].buf| == size)
    && (forall b :: 0 <= b < |view| ==> |view[b]| == size)
    && (forall i, j :: 0 <= i < j < |c| ==> c[i].bno != c[j].bno)
    && (forall i :: 0 <= i < |c| && c[i].bno < |view| ==>
          c[i].buf == view[c[i].bno] && (c[i].dirty || OnDisk(disk, view, c[i].bno)))
    && (forall b :: 0 <= b < |view| && !Cached(c, b) ==> OnDisk(disk, view, b))
  }

  /** Same blocks, whatever the links that thread them. */
  ghost predicate SameButLRU(c: seq<Block>, d: seq<Block>) {
    && |c| == |d|
    && forall i :: 0 <= i < |c| ==> d[i] == c[i].(LRUnext := d[i].LRUnext, LRUprev := d[i].LRUprev)
  }

  ghost predicate SameButDirty(c: seq<Block>, d: seq<Block>) {
    && |c| == |d|
    && forall i :: 0 <= i < |c| ==> d[i] == c[i].(dirty := d[i].dirty)
  }

  ghost predicate SameButHash(c: seq<Block>, d: seq<Block>) {
    && |c| == |d|
    && forall i :: 0 <= i < |c| ==> d[i] == c[i].(HASHnext := d[i].HASHnext)
  }

  /** A disk image that can follow `disk` while the blocks are `view`: nothing is lost, and what
      changed among the blocks of `view` changed to the view. */
  ghost predicate Between(disk: Disk, view: seq<seq<char>>, later: Disk) {
    && disk.Keys <= later.Keys
    && forall b :: 0 <= b < |view| && b in later ==>
         later[b] == view[b] || (b in disk && later[b] == disk[b])
  }

  ghost predicate HistoryBetween(disk: Disk, view: seq<seq<char>>, hist: seq<Disk>, from: nat) {
    forall k :: from <= k < |hist| ==> Between(disk, view, hist[k])
  }

  lemma LruIndices(c: seq<Block>, f: int, l: int, ids: seq<int>)
    requires LruList(c, f, l, ids)
    ensures Indices(ids, |c|) && f == First(ids) && l == Last(ids)
  {}

  lemma LruAt(c: seq<Block>, f: int, l: int, ids: seq<int>, k: nat)
    requires LruList(c, f, l, ids) && k < |ids|
    ensures 0 <= ids[k] < |c|
    ensures c[ids[k]].LRUnext == if k + 1 < |ids| then ids[k + 1] else NULL
    ensures c[ids[k]].LRUprev == if k > 0 then ids[k - 1] else NULL
  {
    assert k > 0 ==> c[ids[k - 1]].LRUnext == ids[k] && c[ids[k]].LRUprev == ids[k - 1];
    assert k + 1 < |ids| ==> c[ids[k]].LRUnext == ids[k + 1] && c[ids[k + 1]].LRUprev == ids[k];
  }

  lemma ChainAt(c: seq<Block>, head: int, ids: seq<int>, h: nat, out: set<int>, k: nat)
    requires HashChain(c, head, ids, h, out) && k < |ids|
    ensures 0 <= ids[k] < |c| && head == ids[0]
    ensures c[ids[k]].HASHnext == if k + 1 < |ids| then ids[k + 1] else NULL
  {
    assert k + 1 < |ids| ==> c[ids[k]].HASHnext == ids[k + 1];
  }

  lemma ChainFirst(c: seq<Block>, head: int, ids: seq<int>, h: nat, out: set<int>, k: nat)
    requires HashChain(c, head, ids, h, out) && k < |ids|
    ensures First(Without(ids, k)) == if k > 0 then head else c[ids[0]].HASHnext
  {
    assert 1 < |ids| ==> c[ids[0]].HASHnext == ids[1];
  }

  lemma LruFrame(c: seq<Block>, d: seq<Block>, f: int, l: int, ids: seq<int>)
    requires LruList(c, f, l, ids) && |d| == |c|
    requires forall i :: 0 <= i < |c| ==> d[i].LRUnext == c[i].LRUnext && d[i].LRUprev == c[i].LRUprev
    ensures LruList(d, f, l, ids)
  {}

  /** Putting block `x` at the front of the LRU list. */
  lemma LruPush(c: seq<Block>, d: seq<Block>, f: int, l: int, ids: seq<int>, x: int)
    requires LruList(c, f, l, ids) && 0 <= x < |c| == |d| && x !in ids
    requires d[x].LRUnext == f && d[x].LRUprev == NULL
    requires forall i :: 0 <= i < |c| && i != x ==> d[i].LRUnext == c[i].LRUnext
    requires forall i :: 0 <= i < |c| && i != x ==> d[i].LRUprev == if i == f then x else c[i].LRUprev
    ensures LruList(d, x, if l == NULL then x else l, [x] + ids)
  {
    assert forall k :: 1 <= k < |ids| + 1 ==> ([x] + ids)[k] == ids[k - 1];
  }

  lemma LruAppended(c: seq<Block>, d: seq<Block>, f: int, l: int, ids: seq<int>, x: int)
    requires LruList(c, f, l, ids) && 0 <= x < |c| == |d| && x !in ids
    requires d[x].LRUnext == NULL && d[x].LRUprev == l
    requires forall i :: 0 <= i < |c| && i != x ==> d[i].LRUprev == c[i].LRUprev
    requires forall i :: 0 <= i < |c| && i != x ==> d[i].LRUnext == if i == l then x else c[i].LRUnext
    ensures LruList(d, if l == NULL then x else f, x, ids + [x])
  {}

  /** Taking element `k` out of the LRU list, its neighbours linked to each other. */
  lemma LruRemove(c: seq<Block>, d: seq<Block>, f: int, l: int, ids: seq<int>, k: nat)
    requires LruList(c, f, l, ids) && k < |ids| && |d| == |c|
    requires forall i :: 0 <= i < |c| ==>
      d[i].LRUnext == if k > 0 && i == ids[k - 1] then c[ids[k]].LRUnext else c[i].LRUnext
    requires forall i :: 0 <= i < |c| ==>
      d[i].LRUprev == if k + 1 < |ids| && i == ids[k + 1] then c[ids[k]].LRUprev else c[i].LRUprev
    ensures var r := Without(ids, k); LruList(d, First(r), Last(r), r)
  {
    var r := Without(ids, k);
    WithoutIndices(ids, k, |c|);
    forall i, j | 0 <= i && i + 1 == j && j < |r|
      ensures d[r[i]].LRUnext == r[j] && d[r[j]].LRUprev == r[i]
    {
      WithoutNeighbours(ids, k, i);
      if i + 1 == k {
        assert c[ids[i]].LRUnext == ids[k] && c[ids[k]].LRUprev == ids[i];
        assert c[ids[k]].LRUnext == ids[k + 1] && c[ids[k + 1]].LRUprev == ids[k];
      }
    }
  }

  lemma TableSize(c: seq<Block>, bht: seq<int>, chains: seq<seq<int>>, out: set<int>)
    requires HashTable(c, bht, chains, out)
    ensures |bht| == |chains| == HASHSIZE
  {}

  lemma TableAt(c: seq<Block>, bht: seq<int>, chains: seq<seq<int>>, i: int)
    requires HashTable(c, bht, chains, {}) && 0 <= i < |c|
    ensures |bht| == |chains| == HASHSIZE && Chained(c, chains, i)
    ensures var h := c[i].bno % HASHSIZE; HashChain(c, bht[h], chains[h], h, {}) && Indices(chains[h], |c|)
  {}

  lemma EmptyTable(c: seq<Block>, bht: seq<int>, chains: seq<seq<int>>, out: set<int>)
    requires |bht| == |chains| == HASHSIZE
    requires forall h :: 0 <= h < HASHSIZE ==> bht[h] == NULL && chains[h] == []
    requires forall i :: 0 <= i < |c| ==> i in out
    ensures HashTable(c, bht, chains, out) && LruList(c, NULL, NULL, [])
  {}

  lemma ChainFrame(c: seq<Block>, d: seq<Block>, head: int, ids: seq<int>, h: nat, out: set<int>)
    requires HashChain(c, head, ids, h, out) && |d| == |c|
    requires forall i :: 0 <= i < |c| && i !in out ==> d[i].HASHnext == c[i].HASHnext && d[i].bno == c[i].bno
    ensures HashChain(d, head, ids, h, out)
  {}

  lemma ChainFewerOut(c: seq<Block>, head: int, ids: seq<int>, h: nat, out: set<int>, out': set<int>)
    requires HashChain(c, head, ids, h, out) && out' <= out
    ensures HashChain(c, head, ids, h, out')
  {}

  lemma ChainPush(c: seq<Block>, head: int, ids: seq<int>, h: nat, out: set<int>, x: int)
    requires HashChain(c, head, ids, h, out) && 0 <= x < |c| && x in out
    requires c[x].HASHnext == head && c[x].bno % HASHSIZE == h
    ensures HashChain(c, x, [x] + ids, h, out - {x})
  {
    assert forall k :: 1 <= k < |ids| + 1 ==> ([x] + ids)[k] == ids[k - 1];
  }

  lemma HashFrame(c: seq<Block>, d: seq<Block>, bht: seq<int>, chains: seq<seq<int>>, out: set<int>)
    requires HashTable(c, bht, chains, out) && |d| == |c|
    requires forall i :: 0 <= i < |c| && i !in out ==> d[i].HASHnext == c[i].HASHnext && d[i].bno == c[i].bno
    ensures HashTable(d, bht, chains, out)
  {
    forall h | 0 <= h < HASHSIZE ensures HashChain(d, bht[h], chains[h], h, out) {
      ChainFrame(c, d, bht[h], chains[h], h, out);
    }
    forall i | 0 <= i < |d| && i !in out ensures Chained(d, chains, i) {
      assert Chained(c, chains, i);
    }
  }

  /** Taking element `k` out of a chain. */
  lemma ChainRemove(c: seq<Block>, d: seq<Block>, head: int, ids: seq<int>, h: nat, out: set<int>, k: nat)
    requires HashChain(c, head, ids, h, out) && |d| == |c| && k < |ids|
    requires forall i :: 0 <= i < |c| ==> d[i].bno == c[i].bno
    requires forall i :: 0 <= i < |c| ==>
      d[i].HASHnext == if k > 0 && i == ids[k - 1] then c[ids[k]].HASHnext else c[i].HASHnext
    ensures var r := Without(ids, k); HashChain(d, First(r), r, h, out + {ids[k]})
  {
    var r := Without(ids, k);
    WithoutIndices(ids, k, |c|);
    forall i, j | 0 <= i && i + 1 == j && j < |r| ensures d[r[i]].HASHnext == r[j] {
      WithoutNeighbours(ids, k, i);
      if i + 1 == k {
        assert c[ids[i]].HASHnext == ids[k] && c[ids[k]].HASHnext == ids[k + 1];
      }
    }
    if r != [] && k == |ids| - 1 {
      assert c[ids[k - 1]].HASHnext == ids[k];
    }
  }

  /** Taking the block at place `k` of chain `h` out of the table. */
  lemma HashRemove(c: seq<Block>, d: seq<Block>, bht: seq<int>, chains: seq<seq<int>>, h: nat, k: nat)
    requires HashTable(c, bht, chains, {}) && h < HASHSIZE && k < |chains[h]| && |d| == |c|
    requires forall i :: 0 <= i < |c| ==> d[i].bno == c[i].bno
    requires forall i :: 0 <= i < |c| ==>
      d[i].HASHnext == if k > 0 && i == chains[h][k - 1] then c[chains[h][k]].HASHnext else c[i].HASHnext
    ensures var r := Without(chains[h], k);
      HashTable(d, bht[h := First(r)], chains[h := r], {chains[h][k]})
  {
    hide Without, Indices;
    var r, x := Without(chains[h], k), chains[h][k];
    var bht', chains' := bht[h := First(r)], chains[h := r];
    assert HashChain(c, bht[h], chains[h], h, {});
    WithoutIndices(chains[h], k, |c|);
    forall n | 0 <= n < HASHSIZE ensures HashChain(d, bht'[n], chains'[n], n, {x}) {
      assert HashChain(c, bht[n], chains[n], n, {});
      if n == h {
        ChainRemove(c, d, bht[h], chains[h], h, {}, k);
        assert {} + {x} == {x};
      } else {
        OtherChain(c, d, bht[n], chains[n], n, x, chains[h], k);
      }
    }
    forall i | 0 <= i < |d| && i !in {x} ensures Chained(d, chains', i) {
      assert Chained(c, chains, i);
    }
  }

  lemma OtherChain(c: seq<Block>, d: seq<Block>, head: int, ids: seq<int>, n: nat, x: int, ids': seq<int>, k: nat)
    requires HashChain(c, head, ids, n, {}) && |d| == |c| && Indices(ids', |c|) && k < |ids'| && ids'[k] == x
    requires forall j :: 0 <= j < |ids'| ==> c[ids'[j]].bno % HASHSIZE != n
    requires forall i :: 0 <= i < |c| ==> d[i].bno == c[i].bno
    requires forall i :: 0 <= i < |c| && !(k > 0 && i == ids'[k - 1]) ==> d[i].HASHnext == c[i].HASHnext
    ensures HashChain(d, head, ids, n, {x})
  {}

  /** Putting block `x` at the front of its chain. */
  lemma HashPush(c: seq<Block>, bht: seq<int>, chains: seq<seq<int>>, out: set<int>, x: int)
    requires HashTable(c, bht, chains, out) && 0 <= x < |c| && x in out
    requires c[x].HASHnext == bht[c[x].bno % HASHSIZE]
    ensures var h := c[x].bno % HASHSIZE;
      HashTable(c, bht[h := x], chains[h := [x] + chains[h]], out - {x})
  {
    var h := c[x].bno % HASHSIZE;
    var bht', chains' := bht[h := x], chains[h := [x] + chains[h]];
    forall g | 0 <= g < HASHSIZE ensures HashChain(c, bht'[g], chains'[g], g, out - {x}) {
      assert HashChain(c, bht[g], chains[g], g, out);
      if g == h {
        ChainPush(c, bht[h], chains[h], h, out, x);
        assert bht'[g] == x && chains'[g] == [x] + chains[h];
      } else {
        assert bht'[g] == bht[g] && chains'[g] == chains[g];
        ChainFewerOut(c, bht[g], chains[g], g, out, out - {x});
      }
    }
    forall i | 0 <= i < |c| && i !in out - {x} ensures Chained(c, chains', i) {
      if i != x {
        assert Chained(c, chains, i);
      }
    }
  }

  lemma CachedFrame(c: seq<Block>, d: seq<Block>, n: nat)
    requires |c| == |d| && forall i :: 0 <= i < |c| ==> d[i].bno == c[i].bno
    ensures Cached(c, n) <==> Cached(d, n)
  {
    assert forall i :: 0 <= i < |c| && c[i].bno == n ==> d[i].bno == n;
    assert forall i :: 0 <= i < |c| && d[i].bno == n ==> c[i].bno == n;
  }

  lemma BetweenSame(disk: Disk, view: seq<seq<char>>)
    ensures Between(disk, view, disk)
  {}

  lemma BetweenWrite(disk0: Disk, view: seq<seq<char>>, disk: Disk, disk': Disk, x: Block)
    requires Between(disk0, view, disk) && disk' == disk[x.bno := x.buf]
    requires x.bno < |view| ==> x.buf == view[x.bno]
    ensures Between(disk0, view, disk')
  {}

  lemma AllClean(c: seq<Block>, ids: seq<int>, disk: Disk, view: seq<seq<char>>, size: nat)
    requires Coherent(c, disk, view, size) && Indices(ids, |c|)
    requires forall i :: 0 <= i < |c| ==> i in ids
    requires forall k :: 0 <= k < |ids| ==> !c[ids[k]].dirty
    ensures forall i :: 0 <= i < |c| ==> !c[i].dirty
    ensures forall b :: 0 <= b < |view| ==> OnDisk(disk, view, b)
  {
    forall i | 0 <= i < |c| ensures !c[i].dirty {
      assert i in ids;
    }
    forall n | 0 <= n < |view| ensures OnDisk(disk, view, n) {
      if Cached(c, n) {
        var i :| 0 <= i < |c| && c[i].bno == n;
      }
    }
  }

  lemma CoherentFrame(c: seq<Block>, d: seq<Block>, disk: Disk, view: seq<seq<char>>, size: nat)
    requires Coherent(c, disk, view, size) && |c| == |d|
    requires forall i :: 0 <= i < |c| ==> d[i].bno == c[i].bno && d[i].buf == c[i].buf && d[i].dirty == c[i].dirty
    ensures Coherent(d, disk, view, size)
  {
    forall n | 0 <= n < |view| && !Cached(d, n) ensures OnDisk(disk, view, n) {
      CachedFrame(c, d, n);
    }
  }

  lemma CoherentSlot(c: seq<Block>, disk: Disk, view: seq<seq<char>>, size: nat, i: nat)
    requires Coherent(c, disk, view, size) && i < |c|
    ensures |c[i].buf| == size && (c[i].bno < |view| ==> c[i].buf == view[c[i].bno])
  {}

  lemma CoherentView(c: seq<Block>, disk: Disk, view: seq<seq<char>>, size: nat, b: nat)
    requires Coherent(c, disk, view, size) && b < |view|
    ensures |view[b]| == size
  {}

  lemma CoherentUncached(c: seq<Block>, disk: Disk, view: seq<seq<char>>, size: nat, n: nat)
    requires Coherent(c, disk, view, size) && n < |view| && !Cached(c, n)
    ensures OnDisk(disk, view, n) && |view[n]| == size
  {}

  /** A clean block is given to a number that is not cached: with its contents if the file has
      them, with anything if the number is past the view. */
  lemma CoherentReuse(c: seq<Block>, disk: Disk, view: seq<seq<char>>, size: nat, x: nat, b: Block)
    requires Coherent(c, disk, view, size) && x < |c| && !c[x].dirty && !Cached(c, b.bno)
    requires b.bno < |view| ==> OnDisk(disk, view, b.bno) && b.buf == disk[b.bno]
    requires b.bno >= |view| ==> b.buf == c[x].buf
    ensures Coherent(c[x := b], disk, view, size)
  {
    var d := c[x := b];
    forall n | 0 <= n < |view| ensures Cached(d, n) || OnDisk(disk, view, n) {
      if Cached(c, n) {
        var i :| 0 <= i < |c| && c[i].bno == n;
        assert i == x || d[i].bno == n;
      }
    }
    assert forall i :: 0 <= i < |c| ==> c[i].bno != b.bno;
  }

  /** The block just past the view becomes part of it when its write is pending. */
  lemma CoherentStart(c: seq<Block>, disk: Disk, view: seq<seq<char>>, size: nat, x: nat)
    requires Coherent(c, disk, view, size) && x < |c| && c[x].bno == |view|
    ensures Coherent(c[x := c[x].(dirty := true)], disk, view + [c[x].buf], size)
  {
    var d, view' := c[x := c[x].(dirty := true)], view + [c[x].buf];
    forall n | 0 <= n < |view'| && !Cached(d, n) ensures OnDisk(disk, view', n) {
      CachedFrame(c, d, n);
      assert d[x].bno == |view|;
    }
    forall i | 0 <= i < |d| && d[i].bno < |view'|
      ensures d[i].buf == view'[d[i].bno] && (d[i].dirty || OnDisk(disk, view', d[i].bno))
    {
      assert c[i].bno == d[i].bno;
    }
  }

  lemma CoherentDirty(c: seq<Block>, disk: Disk, view: seq<seq<char>>, size: nat, x: nat)
    requires Coherent(c, disk, view, size) && x < |c|
    ensures Coherent(c[x := c[x].(dirty := true)], disk, view, size)
  {
    var d := c[x := c[x].(dirty := true)];
    forall n | 0 <= n < |view| && !Cached(d, n) ensures OnDisk(disk, view, n) {
      CachedFrame(c, d, n);
    }
    assert forall i :: 0 <= i < |d| ==> d[i].bno == c[i].bno && d[i].buf == c[i].buf;
  }

  lemma CoherentStore(c: seq<Block>, disk: Disk, view: seq<seq<char>>, size: nat, x: nat, buf: seq<char>)
    requires Coherent(c, disk, view, size) && x < |c| && c[x].bno < |view| && c[x].dirty && |buf| == size
    ensures Coherent(c[x := c[x].(buf := buf)], disk, view[c[x].bno := buf], size)
  {
    var d, view' := c[x := c[x].(buf := buf)], view[c[x].bno := buf];
    forall n | 0 <= n < |view'| && !Cached(d, n) ensures OnDisk(disk, view', n) {
      CachedFrame(c, d, n);
      assert d[x].bno == c[x].bno;
    }
    forall i | 0 <= i < |d| && d[i].bno < |view'|
      ensures d[i].buf == view'[d[i].bno] && (d[i].dirty || OnDisk(disk, view', d[i].bno))
    {
      assert c[i].bno == d[i].bno;
    }
  }

  lemma CoherentWrite(c: seq<Block>, disk: Disk, view: seq<seq<char>>, size: nat, b: nat)
    requires Coherent(c, disk, view, size) && b < |c|
    ensures Coherent(c[b := c[b].(dirty := false)], disk[c[b].bno := c[b].buf], view, size)
  {
    var d := c[b := c[b].(dirty := false)];
    var disk' := disk[c[b].bno := c[b].buf];
    forall n | 0 <= n < |view| && !Cached(d, n) ensures OnDisk(disk', view, n) {
      CachedFrame(c, d, n);
      assert d[b].bno == c[b].bno;
    }
    forall i | 0 <= i < |d| && d[i].bno < |view|
      ensures d[i].buf == view[d[i].bno] && (d[i].dirty || OnDisk(disk', view, d[i].bno))
    {
      assert c[i].bno == d[i].bno;
    }
  }

  ghost function From(p: nat, n: nat): (r: set<int>)
    ensures forall i :: i in r <==> p <= i < n
    decreases n - p
  {
    if p < n then {p} + From(p + 1, n) else {}
  }

  ghost predicate FullBlocks(disk: Disk, size: nat) {
    forall b :: b in disk ==> |disk[b]| == size
  }

  class Cache {
    const g: Sizes
    const b_cache: array<Block>
    const bht: array<int>
    var f_block: int
    var l_block: int
    var lastb: int
    var next_bno: nat
    var nleft: nat
    var disk: Disk
    ghost var lru: seq<int>
    ghost var chains: seq<seq<int>>
    ghost var view: seq<seq<char>>
    // every state the file has been in, oldest first
    var hist: seq<Disk>

    ghost predicate Lists()
      reads this, b_cache, bht
    {
      && g.Ok() && b_cache.Length == g.nbuf && bht.Length == HASHSIZE
      && |lru| == g.nbuf && (forall i :: 0 <= i < g.nbuf ==> i in lru)
      && LruList(b_cache[..], f_block, l_block, lru)
      && HashTable(b_cache[..], bht[..], chains, {})
    }

    ghost predicate Data()
      reads this, b_cache
    {
      && g.Ok() && b_cache.Length == g.nbuf
      && Coherent(b_cache[..], disk, view, g.BlockSize())
      && |view| == next_bno
      && |hist| > 0 && hist[|hist| - 1] == disk
      && (forall k :: 0 <= k < |hist| ==> FullBlocks(hist[k], g.BlockSize()))
    }

    ghost predicate Valid()
      reads this, b_cache, bht
    {
      && Lists() && Data()
      && (lastb == NULL || (0 <= lastb < g.nbuf && lastb == l_block && b_cache[lastb].bno < next_bno))
    }

    /** d_cache_init; the file is empty. */
    constructor (g: Sizes)
      requires g.Ok()
      ensures Valid() && this.g == g && next_bno == 0 && hist == [map[]] && lastb == NULL
      ensures fresh(b_cache) && fresh(bht)
    {
      this.g := g;
      var c := new Block[g.nbuf](i => Block(false, i, seq(g.BlockSize(), _ => NUL), NULL, NULL, NULL));
      var t := new int[HASHSIZE](i => NULL);
      b_cache, bht := c, t;
      f_block, l_block, lastb := NULL, NULL, NULL;
      next_bno, nleft := 0, 0;
      disk := map[];
      lru, chains, view, hist := [], seq(HASHSIZE, _ => []), [], [map[]];
      new;
      InitLists();
    }

    method InitLists()
      requires g.Ok() && b_cache.Length == g.nbuf && bht.Length == HASHSIZE
      requires f_block == l_block == NULL && lru == [] && |chains| == HASHSIZE
      requires forall h :: 0 <= h < HASHSIZE ==> bht[h] == NULL && chains[h] == []
      modifies this`f_block, this`l_block, this`lru, this`chains, b_cache, bht
      ensures Lists()
      ensures forall i :: 0 <= i < g.nbuf ==>
        b_cache[i].bno == g.nbuf - 1 - i && b_cache[i].buf == old(b_cache[i].buf)
    {
      var p, bno := 0, g.nbuf;
      hide HashTable, LruList;
      EmptyTable(b_cache[..], bht[..], chains, From(0, g.nbuf));
      while bno > 0
        invariant p + bno == g.nbuf && |lru| == p
        invariant forall i :: 0 <= i < g.nbuf ==> (i in lru <==> i < p)
        invariant forall i :: 0 <= i < p ==> b_cache[i].bno == g.nbuf - 1 - i
        invariant forall i :: 0 <= i < g.nbuf ==> b_cache[i].buf == old(b_cache[i].buf)
        invariant LruList(b_cache[..], f_block, l_block, lru)
        invariant HashTable(b_cache[..], bht[..], chains, From(p, g.nbuf))
      {
        bno := bno - 1;
        InitBlock(p, bno);
        p := p + 1;
      }
    }

    method InitBlock(p: nat, bno: nat)
      requires b_cache.Length == g.nbuf && p < g.nbuf && p !in lru && bht.Length == HASHSIZE
      requires LruList(b_cache[..], f_block, l_block, lru)
      requires HashTable(b_cache[..], bht[..], chains, From(p, g.nbuf))
      modifies this`f_block, this`l_block, this`lru, this`chains, b_cache, bht
      ensures |lru| == |old(lru)| + 1 && forall i :: i in lru <==> i == p || i in old(lru)
      ensures b_cache[p].bno == bno && !b_cache[p].dirty && b_cache[p].buf == old(b_cache[p].buf)
      ensures forall i :: 0 <= i < g.nbuf && i != p ==>
        b_cache[i] == old(b_cache[i]).(LRUprev := b_cache[i].LRUprev)
      ensures LruList(b_cache[..], f_block, l_block, lru)
      ensures HashTable(b_cache[..], bht[..], chains, From(p + 1, g.nbuf))
    {
      hide LruList, HashTable, HashChain;
      ghost var out := From(p, g.nbuf);
      assert |chains| == HASHSIZE by { TableSize(b_cache[..], bht[..], chains, out); }
      LruIndices(b_cache[..], f_block, l_block, lru);
      ghost var c, t, f, l := b_cache[..], bht[..], f_block, l_block;
      b_cache[p] := b_cache[p].(dirty := false, bno := bno);
      if l_block == NULL {
        l_block := p;
      }
      b_cache[p] := b_cache[p].(LRUprev := NULL, LRUnext := f_block);
      if f_block != NULL {
        b_cache[f_block] := b_cache[f_block].(LRUprev := p);
      }
      f_block := p;
      var hp := bno % HASHSIZE;
      b_cache[p] := b_cache[p].(HASHnext := bht[hp]);
      bht[hp] := p;
      lru := [p] + lru;
      ghost var d := b_cache[..];
      assert forall i :: 0 <= i < g.nbuf && i != p ==> d[i] == c[i].(LRUprev := if i == f then p else c[i].LRUprev);
      LruPush(c, d, f, l, old(lru), p);
      HashFrame(c, d, t, chains, out);
      HashPush(d, t, chains, out, p);
      assert bht[..] == t[hp := p];
      assert out - {p} == From(p + 1, g.nbuf);
      chains := chains[hp := [p] + chains[hp]];
    }

    method lookup_block(bno: nat) returns (bp: int)
      requires Lists()
      ensures bp == NULL ==> !Cached(b_cache[..], bno)
      ensures bp != NULL ==> 0 <= bp < g.nbuf && b_cache[bp].bno == bno
    {
      ghost var h := bno % HASHSIZE;
      ghost var ids := chains[h];
      assert HashChain(b_cache[..], bht[h], ids, h, {});
      ghost var k := 0;
      bp := bht[bno % HASHSIZE];
      while bp != NULL
        invariant 0 <= k <= |ids| && bp == if k < |ids| then ids[k] else NULL
        invariant forall j :: 0 <= j < k ==> b_cache[ids[j]].bno != bno
        decreases |ids| - k
      {
        if b_cache[bp].bno == bno {
          return;
        }
        assert k + 1 < |ids| ==> b_cache[ids[k]].HASHnext == ids[k + 1];
        bp := b_cache[bp].HASHnext;
        k := k + 1;
      }
      forall i | 0 <= i < g.nbuf ensures b_cache[i].bno != bno {
        assert Chained(b_cache[..], chains, i);
      }
    }

    method LRUunlink(b: int, ghost k: nat)
      requires b_cache.Length == g.nbuf && LruList(b_cache[..], f_block, l_block, lru)
      requires k < |lru| && lru[k] == b
      modifies this`f_block, this`l_block, this`lru, b_cache
      ensures lru == Without(old(lru), k)
      ensures LruList(b_cache[..], f_block, l_block, lru)
      ensures SameButLRU(old(b_cache[..]), b_cache[..])
    {
      hide LruList, Indices;
      ghost var c := b_cache[..];
      LruIndices(c, f_block, l_block, lru);
      LruAt(c, f_block, l_block, lru, k);
      if k > 0 { LruAt(c, f_block, l_block, lru, k - 1); }
      if k + 1 < |lru| { LruAt(c, f_block, l_block, lru, k + 1); }
      LruEnds(lru, k, g.nbuf);
      var next, prev := b_cache[b].LRUnext, b_cache[b].LRUprev;
      if prev == NULL {
        f_block := next;
      } else {
        b_cache[prev] := b_cache[prev].(LRUnext := next);
      }
      if next == NULL {
        l_block := prev;
      } else {
        b_cache[next] := b_cache[next].(LRUprev := prev);
      }
      LruRemove(c, b_cache[..], old(f_block), old(l_block), lru, k);
      lru := Without(lru, k);
    }

    /** Links block `b` in as the most recently used. */
    method LRUappend(b: int)
      requires b_cache.Length == g.nbuf && LruList(b_cache[..], f_block, l_block, lru)
      requires 0 <= b < g.nbuf && b !in lru
      modifies this`f_block, this`l_block, this`lru, b_cache
      ensures lru == old(lru) + [b] && l_block == b
      ensures LruList(b_cache[..], f_block, l_block, lru)
      ensures SameButLRU(old(b_cache[..]), b_cache[..])
    {
      ghost var c := b_cache[..];
      if l_block == NULL {
        f_block := b;
      } else {
        b_cache[l_block] := b_cache[l_block].(LRUnext := b);
      }
      b_cache[b] := b_cache[b].(LRUprev := l_block);
      l_block := b;
      b_cache[b] := b_cache[b].(LRUnext := NULL);
      LruAppended(c, b_cache[..], old(f_block), old(l_block), lru, b);
      lru := lru + [b];
    }

    /** blkio with `write`. */
    method WriteBlock(b: nat)
      requires Data() && b < g.nbuf
      modifies this`disk, this`hist, b_cache
      ensures Data()
      ensures b_cache[..] == old(b_cache[..])[b := old(b_cache[b]).(dirty := false)]
      ensures hist == old(hist) + [disk]
      ensures disk == old(disk)[b_cache[b].bno := b_cache[b].buf]
      ensures b_cache[b].bno < |view| ==> b_cache[b].buf == view[b_cache[b].bno]
    {
      ghost var c := b_cache[..];
      CoherentWrite(c, disk, view, g.BlockSize(), b);
      disk := disk[b_cache[b].bno := b_cache[b].buf];
      hist := hist + [disk];
      assert FullBlocks(disk, g.BlockSize()) by { CoherentSlot(c, old(disk), view, g.BlockSize(), b); }
      b_cache[b] := b_cache[b].(dirty := false);
      ghost var d := b_cache[..];
      assert d == c[b := c[b].(dirty := false)];
    }

    /** The body of SyncTmp's loop. */
    method Flush(b: nat, ghost disk0: Disk, ghost from: nat)
      requires Lists() && Data() && b < g.nbuf && from <= |hist|
      requires HistoryBetween(disk0, view, hist, from) && Between(disk0, view, disk)
      modifies this`disk, this`hist, b_cache
      ensures Lists() && Data()
      ensures b_cache[..] == old(b_cache[..])[b := old(b_cache[b]).(dirty := false)]
      ensures old(hist) <= hist && HistoryBetween(disk0, view, hist, from) && Between(disk0, view, disk)
    {
      hide Coherent, HashTable, LruList, Between;
      if b_cache[b].dirty {
        ghost var disk1, hist1, c := disk, hist, b_cache[..];
        WriteBlock(b);
        LruFrame(c, b_cache[..], f_block, l_block, lru);
        HashFrame(c, b_cache[..], bht[..], chains, {});
        BetweenWrite(disk0, view, disk1, disk, b_cache[b]);
      }
    }

    method SyncTmp()
      requires Lists() && Data()
      modifies this`disk, this`hist, b_cache
      ensures Lists() && Data() && (old(Valid()) ==> Valid())
      ensures SameButDirty(old(b_cache[..]), b_cache[..])
      ensures forall i :: 0 <= i < g.nbuf ==> !b_cache[i].dirty
      ensures forall b :: 0 <= b < |view| ==> OnDisk(disk, view, b)
      ensures old(hist) <= hist && HistoryBetween(old(disk), view, hist, |old(hist)|)
      ensures Between(old(disk), view, disk)
    {
      hide Coherent, HashTable, LruList, Between;
      ghost var k := 0;
      ghost var c := b_cache[..];
      LruIndices(c, f_block, l_block, lru);
      BetweenSame(disk, view);
      var b := f_block;
      while b != NULL
        invariant Lists() && Data()
        invariant 0 <= k <= |lru| && b == if k < |lru| then lru[k] else NULL
        invariant forall j :: 0 <= j < k ==> !b_cache[lru[j]].dirty
        invariant SameButDirty(c, b_cache[..])
        invariant old(hist) <= hist && HistoryBetween(old(disk), view, hist, |old(hist)|)
        invariant Between(old(disk), view, disk)
        decreases |lru| - k
      {
        assert 0 <= b < g.nbuf;
        Flush(b, old(disk), |old(hist)|);
        LruAt(b_cache[..], f_block, l_block, lru, k);
        b := b_cache[b].LRUnext;
        k := k + 1;
      }
      AllClean(b_cache[..], lru, disk, view, g.BlockSize());
    }

    /** b_unlink's walk along the hash chain to the block before `bp`; that `bp` is on the chain is
        an invariant, so the walk never falls off its end. */
    method BeforeInChain(bp: int) returns (prev: int, ghost n: nat)
      requires b_cache.Length == g.nbuf && bht.Length == HASHSIZE && 0 <= bp < g.nbuf
      requires HashTable(b_cache[..], bht[..], chains, {})
      ensures |chains| == HASHSIZE
      ensures var ids := chains[b_cache[bp].bno % HASHSIZE];
        n < |ids| && ids[n] == bp && prev == (if n > 0 then ids[n - 1] else NULL) &&
        b_cache[bp].HASHnext == (if n + 1 < |ids| then ids[n + 1] else NULL) &&
        Indices(ids, g.nbuf)
    {
      hide HashTable, HashChain;
      ghost var c, t := b_cache[..], bht[..];
      TableAt(c, t, chains, bp);
      ghost var h := c[bp].bno % HASHSIZE;
      ghost var ids := chains[h];
      if ids != [] { ChainAt(c, t[h], ids, h, {}, 0); }
      n := 0;
      var hp;
      hp, prev := bht[b_cache[bp].bno % HASHSIZE], NULL;
      while hp != NULL && hp != bp
        invariant 0 <= n <= |ids| && hp == if n < |ids| then ids[n] else NULL
        invariant prev == if n > 0 then ids[n - 1] else NULL
        invariant forall j :: 0 <= j < n ==> ids[j] != bp
        decreases |ids| - n
      {
        ChainAt(c, t[h], ids, h, {}, n);
        prev, hp := hp, b_cache[hp].HASHnext;
        n := n + 1;
      }
      assert hp == bp == ids[n];
      ChainAt(c, t[h], ids, h, {}, n);
    }

    method HashUnlink(bp: int)
      requires b_cache.Length == g.nbuf && bht.Length == HASHSIZE && 0 <= bp < g.nbuf
      requires HashTable(b_cache[..], bht[..], chains, {})
      modifies this`chains, b_cache, bht
      ensures HashTable(b_cache[..], bht[..], chains, {bp})
      ensures SameButHash(old(b_cache[..]), b_cache[..])
    {
      hide HashTable, HashChain;
      ghost var c, t := b_cache[..], bht[..];
      var prev, n := BeforeInChain(bp);
      var h := b_cache[bp].bno % HASHSIZE;
      if prev != NULL {
        b_cache[prev] := b_cache[prev].(HASHnext := b_cache[bp].HASHnext);
      } else {
        bht[h] := b_cache[bp].HASHnext;
      }
      ghost var d := b_cache[..];
      assert forall i :: 0 <= i < g.nbuf ==> d[i] == c[i].(HASHnext := if i == prev then c[bp].HASHnext else c[i].HASHnext);
      TableAt(c, t, chains, bp);
      HashRemove(c, d, t, chains, h, n);
      chains := chains[h := Without(chains[h], n)];
      assert bht[..] == t[h := First(chains[h])] by { ChainFirst(c, t[h], old(chains)[h], h, {}, n); }
    }

    /** Takes block `bp` out of the LRU list and out of its hash chain. */
    method b_unlink(bp: int, ghost k: nat)
      requires Lists() && Data() && k < |lru| && lru[k] == bp
      modifies this`f_block, this`l_block, this`lru, this`chains, this`disk, this`hist, b_cache, bht
      ensures Data()
      ensures LruList(b_cache[..], f_block, l_block, lru)
      ensures HashTable(b_cache[..], bht[..], chains, {bp})
      ensures lru == Without(old(lru), k)
      ensures forall i :: 0 <= i < g.nbuf ==>
        b_cache[i].bno == old(b_cache[i].bno) && b_cache[i].buf == old(b_cache[i].buf) &&
        b_cache[i].dirty == (i != bp && old(b_cache[i].dirty))
      ensures old(b_cache[bp].dirty) || (disk == old(disk) && hist == old(hist))
    {
      hide Coherent, HashTable, LruList;
      ghost var c := b_cache[..];
      assert Indices(lru, |c|) && lru[k] < |c| by { LruIndices(c, f_block, l_block, lru); }
      LRUunlink(bp, k);
      HashFrame(c, b_cache[..], bht[..], chains, {});
      ghost var d := b_cache[..];
      HashUnlink(bp);
      LruFrame(d, b_cache[..], f_block, l_block, lru);
      CoherentFrame(c, b_cache[..], disk, view, g.BlockSize());
      if b_cache[bp].dirty {
        ghost var e := b_cache[..];
        WriteBlock(bp);
        LruFrame(e, b_cache[..], f_block, l_block, lru);
        HashFrame(e, b_cache[..], bht[..], chains, {bp});
      }
    }

    /** Makes a cached block the most recently used. */
    method Touch(bp: int)
      requires Lists() && Data() && 0 <= bp < g.nbuf
      modifies this`f_block, this`l_block, this`lru, b_cache
      ensures Lists() && Data() && l_block == bp
      ensures SameButLRU(old(b_cache[..]), b_cache[..])
    {
      hide Coherent, HashTable, LruList;
      if bp != l_block {
        ghost var c := b_cache[..];
        LruIndices(c, f_block, l_block, lru);
        assert bp in lru;
        ghost var k :| 0 <= k < |lru| && lru[k] == bp;
        WithoutIndices(lru, k, g.nbuf);
        LRUunlink(bp, k);
        LRUappend(bp);
        HashFrame(c, b_cache[..], bht[..], chains, {});
        CoherentFrame(c, b_cache[..], disk, view, g.BlockSize());
      }
    }

    /** Takes the least recently used block, after writing what is pending, and makes it the most
        recently used; it is on no hash chain. */
    method Oldest() returns (bp: int)
      requires Lists() && Data() && (lastb == NULL || lastb == l_block)
      modifies this`f_block, this`l_block, this`disk, this`lru, this`chains, this`hist, b_cache, bht
      ensures Data() && 0 <= bp < g.nbuf && l_block == bp && bp != lastb
      ensures |lru| == g.nbuf && (forall i :: 0 <= i < g.nbuf ==> i in lru)
      ensures LruList(b_cache[..], f_block, l_block, lru)
      ensures HashTable(b_cache[..], bht[..], chains, {bp})
      ensures forall i :: 0 <= i < g.nbuf ==>
        b_cache[i].bno == old(b_cache[i].bno) && b_cache[i].buf == old(b_cache[i].buf)
      ensures !b_cache[bp].dirty
      ensures old(hist) <= hist && HistoryBetween(old(disk), view, hist, |old(hist)|)
    {
      hide Coherent, HashTable, LruList;
      LruIndices(b_cache[..], f_block, l_block, lru);
      assert lru[0] != lru[|lru| - 1];
      bp := f_block;
      if b_cache[bp].dirty {
        SyncTmp();
      }
      b_unlink(bp, 0);
      ghost var c := b_cache[..];
      WithoutIndices(old(lru), 0, g.nbuf);
      LRUappend(bp);
      HashFrame(c, b_cache[..], bht[..], chains, {bp});
      CoherentFrame(c, b_cache[..], disk, view, g.BlockSize());
    }

    /** Gives the least recently used block to block number `bno`; its contents are read back if
        the file has them. */
    method Evict(bno: nat) returns (bp: int)
      requires Lists() && Data() && !Cached(b_cache[..], bno) && bno <= next_bno
      requires lastb == NULL || lastb == l_block
      modifies this`f_block, this`l_block, this`disk, this`lru, this`chains, this`hist, b_cache, bht
      ensures Lists() && Data() && 0 <= bp < g.nbuf && l_block == bp && b_cache[bp].bno == bno
      ensures bp != lastb
      ensures forall i :: 0 <= i < g.nbuf && i != bp ==>
        b_cache[i].bno == old(b_cache[i].bno) && b_cache[i].buf == old(b_cache[i].buf)
      ensures old(hist) <= hist && HistoryBetween(old(disk), view, hist, |old(hist)|)
    {
      hide Coherent, HashTable, LruList;
      bp := Oldest();
      ghost var c, t := b_cache[..], bht[..];
      CachedFrame(old(b_cache[..]), c, bno);
      assert bht.Length == HASHSIZE by { TableSize(c, t, chains, {bp}); }
      var h := bno % HASHSIZE;
      b_cache[bp] := b_cache[bp].(dirty := false, bno := bno, HASHnext := bht[h]);
      bht[h] := bp;
      if bno < next_bno {
        CoherentUncached(c, disk, view, g.BlockSize(), bno);
        b_cache[bp] := b_cache[bp].(buf := disk[bno]);
      }
      ghost var d := b_cache[..];
      assert d == c[bp := d[bp]];
      CoherentReuse(c, disk, view, g.BlockSize(), bp, d[bp]);
      LruFrame(c, d, f_block, l_block, lru);
      HashFrame(c, d, t, chains, {bp});
      TableSize(c, t, chains, {bp});
      HashPush(d, t, chains, {bp}, bp);
      chains := chains[h := [bp] + chains[h]];
      assert bht[..] == t[h := bp] && {bp} - {bp} == {};
    }

    /** The block, found in the cache or brought in, becomes the most recently used. */
    method Fetch(bno: nat) returns (bp: int)
      requires Lists() && Data() && bno <= next_bno && (lastb == NULL || lastb == l_block)
      modifies this`f_block, this`l_block, this`disk, this`lru, this`chains, this`hist, b_cache, bht
      ensures Lists() && Data() && 0 <= bp < g.nbuf && l_block == bp && b_cache[bp].bno == bno
      ensures lastb == bp ==> old(b_cache[bp].bno) == bno
      ensures forall i :: 0 <= i < g.nbuf && i != bp ==>
        b_cache[i].bno == old(b_cache[i].bno) && b_cache[i].buf == old(b_cache[i].buf)
      ensures old(hist) <= hist && HistoryBetween(old(disk), view, hist, |old(hist)|)
    {
      hide Coherent, HashTable, LruList, Between, FullBlocks, Cached;
      bp := lookup_block(bno);
      if bp != NULL {
        Touch(bp);
      } else {
        bp := Evict(bno);
      }
    }

    /** Finds the block that holds address `atl`, reading it in or starting it when it is not
        cached; it becomes the most recently used.  `bp` is its slot, `off` the place in it. */
    method getblock(atl: nat, IsWrite: bool) returns (ok: bool, bp: int, off: nat)
      requires Valid()
      requires g.BlockNo(atl) < next_bno || (g.BlockNo(atl) == next_bno && IsWrite)
      modifies this`f_block, this`l_block, this`lastb, this`next_bno, this`nleft, this`disk
      modifies this`lru, this`chains, this`view, this`hist, b_cache, bht
      ensures Valid()
      ensures ok == (g.BlockNo(atl) < g.maxBlocks - 1)
      ensures !ok ==> b_cache[..] == old(b_cache[..]) && hist == old(hist) && view == old(view)
      ensures ok ==> 0 <= bp < g.nbuf && lastb == bp && b_cache[bp].bno == g.BlockNo(atl)
      ensures ok ==> off == g.Offset(atl) < g.BlockSize() && nleft == g.BlockSize() - off
      ensures ok && IsWrite ==> b_cache[bp].dirty
      ensures ok ==> view == if g.BlockNo(atl) < |old(view)| then old(view) else old(view) + [b_cache[bp].buf]
      // only the slot handed out can come to hold another block, and it is not the last one handed out
      ensures forall i :: 0 <= i < g.nbuf && i != bp ==>
        b_cache[i].bno == old(b_cache[i].bno) && b_cache[i].buf == old(b_cache[i].buf)
      ensures ok && old(lastb) == bp ==> old(b_cache[bp].bno) == g.BlockNo(atl)
      ensures old(hist) <= hist && HistoryBetween(old(disk), old(view), hist, |old(hist)|)
    {
      hide Coherent, HashTable, LruList, Between, FullBlocks, Sizes.BlockNo, Sizes.BlockSize, Cached;
      var bno := g.BlockNo(atl);
      bp, off := NULL, g.Offset(atl);
      OffsetInBlock(g, atl);
      if bno >= g.maxBlocks - 1 {
        return false, NULL, off;
      }
      ok := true;
      nleft := g.BlockSize() - off;
      if lastb != NULL && b_cache[lastb].bno == bno {
        bp := lastb;
        LruIndices(b_cache[..], f_block, l_block, lru);
      } else {
        bp := Fetch(bno);
        if bno >= next_bno {
          next_bno := bno + 1;
        }
      }
      lastb := bp;
      MarkDirty(bp, IsWrite);
    }

    /** Sets the delayed-write flag of a block that is handed out for writing; a block just past
        the view joins it. */
    method MarkDirty(bp: int, IsWrite: bool)
      requires Lists() && 0 <= bp < g.nbuf && g.Ok()
      requires Coherent(b_cache[..], disk, view, g.BlockSize())
      requires b_cache[bp].bno < |view| || (b_cache[bp].bno == |view| && IsWrite)
      modifies this`view, b_cache
      ensures Lists() && Coherent(b_cache[..], disk, view, g.BlockSize())
      ensures view == if b_cache[bp].bno < |old(view)| then old(view) else old(view) + [b_cache[bp].buf]
      ensures forall i :: 0 <= i < g.nbuf ==>
        b_cache[i] == old(b_cache[i]).(dirty := old(b_cache[i].dirty) || (i == bp && IsWrite))
    {
      hide Coherent, HashTable, LruList;
      ghost var c := b_cache[..];
      b_cache[bp] := b_cache[bp].(dirty := b_cache[bp].dirty || IsWrite);
      ghost var d := b_cache[..];
      assert d == c[bp := d[bp]];
      LruFrame(c, d, f_block, l_block, lru);
      HashFrame(c, d, bht[..], chains, {});
      if b_cache[bp].bno == |view| {
        CoherentStart(c, disk, view, g.BlockSize(), bp);
        view := view + [b_cache[bp].buf];
      } else if IsWrite {
        CoherentDirty(c, disk, view, g.BlockSize(), bp);
      } else {
        assert d == c;
      }
    }

    /** Stores one character through the pointer that getblock handed out. */
    method Poke(bp: int, at: nat, ch: char)
      requires Valid() && 0 <= bp < g.nbuf && at < g.BlockSize()
      requires b_cache[bp].bno < next_bno && b_cache[bp].dirty
      modifies this`view, b_cache
      ensures Valid()
      ensures forall i :: 0 <= i < g.nbuf ==>
        b_cache[i] == old(b_cache[i]).(buf := if i == bp then old(b_cache[i].buf)[at := ch] else old(b_cache[i].buf))
      ensures view == old(view)[b_cache[bp].bno := b_cache[bp].buf]
    {
      hide HashTable, LruList;
      ghost var c := b_cache[..];
      b_cache[bp] := b_cache[bp].(buf := b_cache[bp].buf[at := ch]);
      ghost var d := b_cache[..];
      assert d == c[bp := d[bp]];
      LruFrame(c, d, f_block, l_block, lru);
      HashFrame(c, d, bht[..], chains, {});
      CoherentStore(c, disk, view, g.BlockSize(), bp, d[bp].buf);
      view := view[b_cache[bp].bno := b_cache[bp].buf];
    }
  }
}
