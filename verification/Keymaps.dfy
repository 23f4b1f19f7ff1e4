/** Keymaps: sorted arrays that turn into full tables, trees of them, and the dispatch of key strokes. */
module Keymaps {

  const NCHARS: nat := 256
  const KEYMAP_QUANTUM: nat := 8
  const SPARSE_LIMIT: nat := NCHARS / 3 - KEYMAP_QUANTUM

  type Key = k: nat | k < NCHARS witness 0

  /** What a key is bound to.  A macro counts as a command. */
  datatype Obj = Null | Command(id: nat) | Submap(km: Keymap)

  datatype Binding = Binding(key: Key, value: Obj)

  /** The bindings in use: keys ascending, none of them bound to nothing. */
  ghost predicate Sorted(bs: seq<Binding>) {
    && (forall i, j :: 0 <= i < j < |bs| ==> bs[i].key < bs[j].key)
    && (forall i :: 0 <= i < |bs| ==> bs[i].value != Null)
  }

  /** The binding of a key. */
  ghost function Bound(bs: seq<Binding>, key: Key): Obj {
    if exists j :: 0 <= j < |bs| && bs[j].key == key then (var j :| 0 <= j < |bs| && bs[j].key == key; bs[j].value)
    else Null
  }

  ghost function Spread(bs: seq<Binding>): (t: seq<Obj>)
    ensures |t| == NCHARS
  {
    seq(NCHARS, k requires 0 <= k < NCHARS => Bound(bs, k))
  }

  lemma BoundAt(bs: seq<Binding>, j: nat)
    requires Sorted(bs) && j < |bs|
    ensures Spread(bs)[bs[j].key] == bs[j].value
  {
    var key := bs[j].key;
    assert Spread(bs)[key] == Bound(bs, key);
    forall i | 0 <= i < |bs| && bs[i].key == key ensures i == j {
      assert !(i < j) && !(j < i);
    }
  }

  lemma Unbound(bs: seq<Binding>, key: Key)
    requires forall j :: 0 <= j < |bs| ==> bs[j].key != key
    ensures Spread(bs)[key] == Null
  {
    assert Spread(bs)[key] == Bound(bs, key);
  }

  /** A table with the bindings' values at their keys, and nothing elsewhere, is the table of the bindings. */
  lemma SpreadIs(bs: seq<Binding>, t: seq<Obj>)
    requires Sorted(bs) && |t| == NCHARS
    requires forall j :: 0 <= j < |bs| ==> t[bs[j].key] == bs[j].value
    requires forall k: Key :: t[k] == Null || exists j :: 0 <= j < |bs| && bs[j].key == k
    ensures Spread(bs) == t
  {
    hide Spread, Sorted;
    forall k: nat | k < NCHARS ensures Spread(bs)[k] == t[k] {
      if j :| 0 <= j < |bs| && bs[j].key == k {
        BoundAt(bs, j);
      } else {
        Unbound(bs, k);
        var key: Key := k;
        assert t[key] == Null;
      }
    }
  }

  /** `pos` is where `key` is, or where it would go. */
  ghost predicate Place(bs: seq<Binding>, key: nat, pos: nat) {
    && pos <= |bs|
    && (forall j :: 0 <= j < pos ==> bs[j].key < key)
    && (forall j :: pos <= j < |bs| ==> key <= bs[j].key)
  }

  lemma PlaceIs(bs: seq<Binding>, key: Key, pos: nat)
    requires Sorted(bs) && Place(bs, key, pos)
    ensures Spread(bs)[key] == if pos < |bs| && bs[pos].key == key then bs[pos].value else Null
    ensures pos < |bs| && bs[pos].key != key ==> key < bs[pos].key
  {
    hide Spread;
    if pos < |bs| && bs[pos].key == key {
      BoundAt(bs, pos);
    } else {
      forall j | 0 <= j < |bs| ensures bs[j].key != key {
        if pos < j { assert bs[pos].key < bs[j].key; }
      }
      Unbound(bs, key);
    }
  }

  lemma Overwritten(bs: seq<Binding>, key: Key, pos: nat, d: Obj)
    requires Sorted(bs) && pos < |bs| && bs[pos].key == key && d != Null
    ensures Sorted(bs[pos := Binding(key, d)]) && Spread(bs[pos := Binding(key, d)]) == Spread(bs)[key := d]
  {
    hide Spread;
    var bs' := bs[pos := Binding(key, d)];
    var t := Spread(bs)[key := d];
    forall j | 0 <= j < |bs'| ensures t[bs'[j].key] == bs'[j].value {
      BoundAt(bs, j);
      assert j < pos || j > pos || bs'[j].key == key;
    }
    assert bs'[pos] == Binding(key, d);
    forall j | 0 <= j < |bs| && bs[j].key != key ensures bs[j] in bs' {
      assert bs'[j] == bs[j];
    }
    Elsewhere(bs, bs', key, d, t);
    SpreadIs(bs', t);
  }

  /** Keys not among the bindings stay unbound. */
  /** The bindings from number `n` on are in the table, and nothing else. */
  ghost predicate Filled(t: seq<Obj>, bs: seq<Binding>, n: nat) {
    && |t| == NCHARS && (forall j :: n <= j < |bs| ==> t[bs[j].key] == bs[j].value)
    && forall k: Key :: t[k] == Null || exists j :: n <= j < |bs| && bs[j].key == k
  }

  lemma FilledNone(t: seq<Obj>, bs: seq<Binding>)
    requires |t| == NCHARS && forall k :: 0 <= k < NCHARS ==> t[k] == Null
    ensures Filled(t, bs, |bs|)
  {}

  lemma FilledMore(t: seq<Obj>, bs: seq<Binding>, n: nat)
    requires Filled(t, bs, n + 1) && n < |bs| && Sorted(bs)
    ensures Filled(t[bs[n].key := bs[n].value], bs, n)
  {
    hide Sorted;
    var t' := t[bs[n].key := bs[n].value];
    forall j | n <= j < |bs| ensures t'[bs[j].key] == bs[j].value {
      if j > n { OtherKey(bs, n, j); }
    }
    forall k: Key | t'[k] != Null ensures exists j :: n <= j < |bs| && bs[j].key == k {
      if k != bs[n].key { assert t[k] != Null; }
    }
  }

  lemma FilledAll(t: seq<Obj>, bs: seq<Binding>)
    requires Filled(t, bs, 0) && Sorted(bs)
    ensures t == Spread(bs)
  {
    hide Spread, Sorted;
    SpreadIs(bs, t);
  }

  lemma Elsewhere(bs: seq<Binding>, bs': seq<Binding>, key: Key, d: Obj, t: seq<Obj>)
    requires Sorted(bs) && t == Spread(bs)[key := d]
    requires d == Null || Binding(key, d) in bs'
    requires forall j :: 0 <= j < |bs| && bs[j].key != key ==> bs[j] in bs'
    ensures forall k: Key :: t[k] == Null || exists j :: 0 <= j < |bs'| && bs'[j].key == k
  {
    hide Spread;
    forall k: Key | t[k] != Null ensures exists j :: 0 <= j < |bs'| && bs'[j].key == k {
      if k == key {
        var j :| 0 <= j < |bs'| && bs'[j] == Binding(key, d);
      } else if i :| 0 <= i < |bs| && bs[i].key == k {
        var j :| 0 <= j < |bs'| && bs'[j] == bs[i];
      } else {
        Unbound(bs, k);
      }
    }
  }

  lemma Inserted(bs: seq<Binding>, key: Key, pos: nat, d: Obj)
    requires Sorted(bs) && Place(bs, key, pos) && d != Null && (pos < |bs| ==> bs[pos].key != key)
    ensures var bs' := bs[..pos] + [Binding(key, d)] + bs[pos..]; Sorted(bs') && Spread(bs') == Spread(bs)[key := d]
  {
    var bs' := bs[..pos] + [Binding(key, d)] + bs[pos..];
    var t := Spread(bs)[key := d];
    InsertedSorted(bs, key, pos, d);
    hide Spread;
    forall j | 0 <= j < |bs'| ensures t[bs'[j].key] == bs'[j].value {
      var i := if j < pos then j else j - 1;
      if j != pos {
        BoundAt(bs, i);
        assert bs'[j] == bs[i];
        assert bs'[pos].key == key && (j < pos || pos < j);
      }
    }
    assert bs'[pos] == Binding(key, d);
    forall j | 0 <= j < |bs| ensures bs[j] in bs' {
      assert bs[j] == bs'[if j < pos then j else j + 1];
    }
    Elsewhere(bs, bs', key, d, t);
    SpreadIs(bs', t);
  }

  lemma InsertedSorted(bs: seq<Binding>, key: Key, pos: nat, d: Obj)
    requires Sorted(bs) && Place(bs, key, pos) && d != Null && (pos < |bs| ==> bs[pos].key != key)
    ensures Sorted(bs[..pos] + [Binding(key, d)] + bs[pos..])
  {
    var bs' := bs[..pos] + [Binding(key, d)] + bs[pos..];
    forall j | 0 <= j < |bs'| ensures (j < pos ==> bs'[j] == bs[j]) && (j == pos ==> bs'[j] == Binding(key, d)) && (j > pos ==> bs'[j] == bs[j - 1]) {}
    forall j | pos <= j < |bs| ensures key < bs[j].key {
      assert bs[pos].key <= bs[j].key;
    }
  }

  lemma Deleted(bs: seq<Binding>, key: Key, pos: nat)
    requires Sorted(bs) && pos < |bs| && bs[pos].key == key
    ensures var bs' := bs[..pos] + bs[pos + 1..]; Sorted(bs') && Spread(bs') == Spread(bs)[key := Null]
  {
    hide Spread, Sorted;
    var bs' := bs[..pos] + bs[pos + 1..];
    var t := Spread(bs)[key := Null];
    SortedWithout(bs, pos);
    forall j | 0 <= j < |bs'| ensures t[bs'[j].key] == bs'[j].value {
      var i := if j < pos then j else j + 1;
      OtherKey(bs, pos, i);
      BoundAt(bs, i);
    }
    forall j | 0 <= j < |bs| && bs[j].key != key ensures bs[j] in bs' {
      assert bs[j] == bs'[if j < pos then j else j - 1];
    }
    Elsewhere(bs, bs', key, Null, t);
    SpreadIs(bs', t);
  }

  lemma SortedWithout(bs: seq<Binding>, pos: nat)
    requires Sorted(bs) && pos < |bs|
    ensures Sorted(bs[..pos] + bs[pos + 1..])
  {}

  lemma OtherKey(bs: seq<Binding>, i: nat, j: nat)
    requires Sorted(bs) && i < |bs| && j < |bs| && i != j
    ensures bs[i].key != bs[j].key
  {
    assert i < j || j < i;
  }

  /** The first key from `key` on that is bound; NCHARS if there is none. */
  ghost predicate NextBound(t: seq<Obj>, key: nat, next: nat) {
    && |t| == NCHARS && key <= next <= NCHARS
    && (forall k :: key <= k < next ==> t[k] == Null)
    && (next < NCHARS ==> t[next] != Null)
  }

  lemma PlaceNext(bs: seq<Binding>, key: nat, pos: nat)
    requires Sorted(bs) && key <= NCHARS && Place(bs, key, pos)
    ensures NextBound(Spread(bs), key, if pos == |bs| then NCHARS else bs[pos].key)
  {
    hide Spread;
    var next := if pos == |bs| then NCHARS else bs[pos].key;
    forall k | key <= k < next ensures Spread(bs)[k] == Null {
      forall j | 0 <= j < |bs| ensures bs[j].key != k {
        if pos < j { assert bs[pos].key < bs[j].key; }
      }
      Unbound(bs, k);
    }
    if pos < |bs| { BoundAt(bs, pos); }
  }

  function Next(bs: seq<Binding>, j: nat): Binding
    requires j + 1 < |bs|
  {
    bs[j + 1]
  }

  class Keymap {
    var isFull: bool
    var full: array<Obj>
    var bindings: array<Binding>
    var nused: nat

    ghost predicate Valid()
      reads this, full, bindings
    {
      if isFull then full.Length == NCHARS
      else nused <= bindings.Length && Sorted(bindings[..nused])
    }

    /** The map from keys to objects that either form stands for. */
    ghost function Table(): (t: seq<Obj>)
      requires Valid()
      reads this, full, bindings
      ensures |t| == NCHARS
    {
      if isFull then full[..] else Spread(bindings[..nused])
    }

    constructor Sparse()
      ensures Valid() && fresh(full) && fresh(bindings)
      ensures Table() == seq(NCHARS, _ => Null)
    {
      isFull, nused := false, 0;
      full, bindings := new Obj[0], new Binding[0];
      new;
      SpreadIs([], seq(NCHARS, _ => Null));
      assert bindings[..nused] == [];
    }

    constructor Full(keys: seq<Obj>)
      requires |keys| == NCHARS
      ensures Valid() && fresh(full) && fresh(bindings)
      ensures Table() == keys
    {
      isFull, nused := true, 0;
      full, bindings := new Obj[NCHARS](i requires 0 <= i < |keys| => keys[i]), new Binding[0];
      new;
      assert full[..] == keys;
    }

    /** The object bound to `key`, and for a sparse map where its binding is or would go. */
    method km_getkey(key: nat) returns (o: Obj, sparsepos: nat)
      requires Valid() && (isFull ==> key < NCHARS) && key <= NCHARS
      ensures o == if key < NCHARS then Table()[key] else Null
      ensures !isFull ==> Place(bindings[..nused], key, sparsepos)
      ensures !isFull ==> (o != Null <==> sparsepos < nused && bindings[sparsepos].key == key)
    {
      if isFull { return full[key], 0; }
      ghost var bs := bindings[..nused];
      var lwb, upb := 0, nused;
      while true
        invariant 0 <= lwb <= upb <= nused && (lwb == upb ==> nused == 0)
        invariant lwb == 0 || bs[lwb].key <= key
        invariant forall j :: upb <= j < nused ==> key < bs[j].key
        decreases upb - lwb
      {
        var mid := (lwb + upb) / 2;
        if mid == lwb { break; }
        if bindings[mid].key <= key {
          lwb := mid;
        } else {
          forall j | mid <= j < nused ensures key < bs[j].key {
            assert j == mid || bs[mid].key < bs[j].key;
          }
          upb := mid;
        }
      }
      if lwb != upb {
        forall j | 0 <= j < lwb ensures bs[j].key < key {
          assert bs[j].key < bs[lwb].key;
        }
        if bindings[lwb].key == key {
          sparsepos, o := lwb, bindings[lwb].value;
          assert Place(bs, key, sparsepos);
          PlaceIs(bs, key, sparsepos);
          return;
        }
        if bindings[lwb].key > key { upb := lwb; }
      }
      sparsepos, o := upb, Null;
      assert Place(bs, key, sparsepos);
      if key < NCHARS { PlaceIs(bs, key, sparsepos); }
    }

    /** The next key that is bound. */
    method km_nextkey(key: nat) returns (next: nat)
      requires Valid() && key <= NCHARS
      ensures NextBound(Table(), key, next)
    {
      if isFull {
        next := key;
        while next != NCHARS && full[next] == Null
          invariant key <= next <= NCHARS
          invariant forall k :: key <= k < next ==> full[k] == Null
          decreases NCHARS - next
        {
          next := next + 1;
        }
      } else {
        var _, pos := km_getkey(key);
        PlaceNext(bindings[..nused], key, pos);
        next := if pos == nused then NCHARS else bindings[pos].key;
      }
    }

    /** Binds `key` to `d`, and no other key to anything else. */
    method km_setkey(key: Key, d: Obj)
      requires Valid()
      modifies this, full, bindings
      ensures Valid()
      ensures Table() == old(Table())[key := d]
      ensures full == old(full) || fresh(full)
      ensures bindings == old(bindings) || fresh(bindings)
    {
      if isFull {
        full[key] := d;
        return;
      }
      var o, pos := km_getkey(key);
      PlaceIs(bindings[..nused], key, pos);
      if o != Null {
        if d == Null { Delete(key, pos); } else { Overwrite(key, pos, d); }
      } else if d != Null {
        if nused == bindings.Length {
          if nused >= SPARSE_LIMIT {
            Convert();
            full[key] := d;
            return;
          }
          Grow();
        }
        Insert(key, pos, d);
      } else {
        assert Table()[key := Null] == Table();
      }
    }

    method Overwrite(key: Key, pos: nat, d: Obj)
      requires Valid() && !isFull && pos < nused && bindings[pos].key == key && d != Null
      modifies bindings
      ensures Valid() && Table() == old(Table())[key := d]
    {
      Overwritten(bindings[..nused], key, pos, d);
      bindings[pos] := Binding(bindings[pos].key, d);
      assert bindings[..nused] == old(bindings[..nused])[pos := Binding(key, d)];
    }

    /** Overwriting with nothing closes the gap. */
    method Delete(key: Key, pos: nat)
      requires Valid() && !isFull && pos < nused && bindings[pos].key == key
      modifies this`nused, bindings
      ensures Valid() && Table() == old(Table())[key := Null]
    {
      ghost var bs := bindings[..nused];
      Deleted(bs, key, pos);
      hide Sorted, Spread;
      var i := pos + 1;
      while i < nused
        invariant pos < i <= nused == |bs| <= bindings.Length
        invariant forall j :: 0 <= j < pos || i <= j < nused ==> bindings[j] == bs[j]
        invariant forall j :: pos <= j < i - 1 ==> bindings[j] == Next(bs, j)
      {
        bindings[i - 1] := bindings[i];
        i := i + 1;
      }
      nused := nused - 1;
      forall j | 0 <= j < nused ensures bindings[j] == (bs[..pos] + bs[pos + 1..])[j] {}
      assert bindings[..nused] == bs[..pos] + bs[pos + 1..];
    }

    /** Moves the bindings from the place on up by one. */
    method Insert(key: Key, pos: nat, d: Obj)
      requires Valid() && !isFull && nused < bindings.Length && d != Null
      requires Place(bindings[..nused], key, pos) && (pos < nused ==> bindings[pos].key != key)
      modifies this`nused, bindings
      ensures Valid() && Table() == old(Table())[key := d]
    {
      ghost var bs := bindings[..nused];
      Inserted(bs, key, pos, d);
      hide Sorted, Spread;
      var n := nused;
      nused := nused + 1;
      while n > pos
        invariant pos <= n < nused == |bs| + 1 <= bindings.Length
        invariant forall j :: 0 <= j < n ==> bindings[j] == bs[j]
        invariant forall j :: n < j < nused ==> bindings[j] == bs[j - 1]
      {
        bindings[n] := bindings[n - 1];
        n := n - 1;
      }
      bindings[pos] := Binding(key, d);
      assert bindings[..nused] == bs[..pos] + [Binding(key, d)] + bs[pos..];
    }

    method Grow()
      requires Valid() && !isFull
      modifies this`bindings
      ensures Valid() && Table() == old(Table()) && fresh(bindings)
      ensures bindings[..nused] == old(bindings[..nused]) && nused < bindings.Length
    {
      var b := new Binding[bindings.Length + KEYMAP_QUANTUM](_ => Binding(0, Null));
      var was := bindings;
      var i := 0;
      while i < nused
        invariant 0 <= i <= nused
        invariant bindings == was && fresh(b) && b[..i] == was[..i]
        invariant was[..] == old(bindings[..])
      {
        b[i] := was[i];
        i := i + 1;
      }
      bindings := b;
    }

    /** Turns the sorted array into a full table, in place. */
    method Convert()
      requires Valid() && !isFull
      modifies this
      ensures Valid() && isFull && Table() == old(Table()) && fresh(full) && fresh(bindings)
    {
      ghost var bs := bindings[..nused];
      assert Sorted(bs) && Table() == Spread(bs);
      hide Sorted, Spread, Filled;
      var b, n := bindings, nused;
      isFull, nused := true, 0;
      full, bindings := new Obj[NCHARS](_ => Null), new Binding[0];
      FilledNone(full[..], bs);
      while n != 0
        invariant 0 <= n <= |bs| <= b.Length && b[..|bs|] == bs && isFull && fresh(full) && full.Length == NCHARS && fresh(bindings)
        invariant Filled(full[..], bs, n)
      {
        n := n - 1;
        assert b[n] == bs[n];
        FilledMore(full[..], bs, n);
        full[b[n].key] := b[n].value;
      }
      FilledAll(full[..], bs);
    }
  }

  type Path = seq<Key>

  /** The tables of a set of keymaps. */
  type Store = map<Keymap, seq<Obj>>

  ghost predicate Closed(st: Store) {
    && (forall m :: m in st ==> |st[m]| == NCHARS)
    && (forall m, k: Key :: m in st && st[m][k].Submap? ==> st[m][k].km in st)
  }

  ghost predicate Known(st: Store, o: Obj) { o.Submap? ==> o.km in st }

  /** What a sequence of keys is bound to, starting from `o`. */
  ghost function Lookup(st: Store, o: Obj, path: Path): (r: Obj)
    requires Closed(st) && Known(st, o)
    ensures Known(st, r)
    decreases |path|
  {
    if path == [] then o
    else if !o.Submap? then Null
    else Lookup(st, st[o.km][path[0]], path[1..])
  }

  lemma {:induction false} LookupJoin(st: Store, o: Obj, p: Path, q: Path)
    requires Closed(st) && Known(st, o)
    ensures Lookup(st, o, p + q) == Lookup(st, Lookup(st, o, p), q)
    decreases |p|
  {
    if p == [] {
      assert p + q == q;
    } else {
      assert (p + q)[1..] == p[1..] + q;
      if o.Submap? { LookupJoin(st, st[o.km][p[0]], p[1..], q); } else { NothingBelow(st, Null, q); }
    }
  }

  lemma NothingBelow(st: Store, o: Obj, q: Path)
    requires Closed(st) && Known(st, o)
    ensures o == Null ==> Lookup(st, o, q) == Null
    ensures !o.Submap? && q != [] ==> Lookup(st, o, q) == Null
  {}

  /** One level further down. */
  lemma LookupNext(st: Store, o: Obj, p: Path, k: Key)
    requires Closed(st) && Known(st, o)
    ensures var r := Lookup(st, o, p); Lookup(st, o, p + [k]) == if r.Submap? then st[r.km][k] else Null
  {
    LookupJoin(st, o, p, [k]);
    var r := Lookup(st, o, p);
    if r.Submap? { assert [k][1..] == []; }
  }

  /** Every keymap hangs at one place: `at` names the path that leads there. */
  ghost predicate Tree(st: Store, at: map<Keymap, Path>)
    requires Closed(st)
  {
    && at.Keys == st.Keys
    && (forall m, k: Key :: m in st && st[m][k].Submap? ==> at[st[m][k].km] == at[m] + [k])
  }

  /** `st'` differs from `st` in one entry, and in keymaps that `st` does not know. */
  ghost predicate OneChange(st: Store, st': Store, m: Keymap, key: Key, d: Obj) {
    && m in st && |st[m]| == NCHARS && st.Keys <= st'.Keys
    && (forall x :: x in st && x != m ==> st'[x] == st[x])
    && st'[m] == st[m][key := d]
  }

  /** In a tree, a changed entry is seen only by the sequences that lead through it. */
  lemma {:induction false} Unaffected(st: Store, st': Store, at: map<Keymap, Path>, m: Keymap, key: Key, d: Obj, o: Obj, p: Path)
    requires Closed(st) && Closed(st') && Tree(st, at) && OneChange(st, st', m, key, d) && Known(st, o)
    requires o.Submap? ==> !PrefixOf(at[m] + [key], at[o.km] + p)
    ensures Lookup(st', o, p) == Lookup(st, o, p)
    decreases |p|
  {
    if p != [] && o.Submap? {
      var n := o.km;
      assert p == [p[0]] + p[1..];
      var deeper := at[n] + [p[0]];
      assert at[n] + p == deeper + p[1..];
      assert PrefixOf(deeper, deeper + p[1..]);
      if n != m || p[0] != key {
        var next := st[n][p[0]];
        assert st'[n][p[0]] == next;
        if next.Submap? {
          assert at[next.km] + p[1..] == at[n] + p;
        }
        Unaffected(st, st', at, m, key, d, next, p[1..]);
      }
    }
  }

  predicate PrefixOf(p: Path, q: Path) { p <= q }

  lemma PrefixNext(p: Path, keys: Path, i: nat)
    requires i < |keys|
    ensures PrefixOf(p, keys[..i + 1]) <==> PrefixOf(p, keys[..i]) || p == keys[..i + 1]
  {
    if |p| <= i { assert keys[..i + 1][..|p|] == keys[..i][..|p|]; }
  }

  /** Binding `keys` below `root` as far as `i`: the way there is made of keymaps, and nothing else has changed. */
  ghost predicate Opened(st: Store, st': Store, root: Obj, keys: Path, i: nat)
    requires Closed(st) && Closed(st') && Known(st, root) && Known(st', root) && i <= |keys|
  {
    && (forall p: Path :: !PrefixOf(p, keys[..i]) ==> Lookup(st', root, p) == Lookup(st, root, p))
    && (forall p: Path :: PrefixOf(p, keys[..i]) ==>
          Lookup(st', root, p).Submap? && (Lookup(st, root, p).Submap? ==> Lookup(st', root, p) == Lookup(st, root, p)))
  }

  /** `keys` leads to `obj`, the way there is made of keymaps, and no other sequence has changed. */
  ghost predicate Rebound(st: Store, st': Store, root: Obj, keys: Path, obj: Obj)
    requires Closed(st) && Closed(st') && Known(st, root) && Known(st', root) && Known(st', obj)
  {
    && (forall p: Path :: !PrefixOf(p, keys) && !PrefixOf(keys, p) ==> Lookup(st', root, p) == Lookup(st, root, p))
    && (forall p: Path :: PrefixOf(p, keys) && p != keys ==>
          Lookup(st', root, p).Submap? && (Lookup(st, root, p).Submap? ==> Lookup(st', root, p) == Lookup(st, root, p)))
    && (forall p: Path :: PrefixOf(keys, p) ==> Lookup(st', root, p) == Lookup(st', obj, p[|keys|..]))
  }

  const EMPTY: seq<Obj> := seq(NCHARS, _ => Null)

  lemma StepDown(st: Store, st': Store, root: Obj, keys: Path, i: nat, m: Keymap)
    requires Closed(st) && Closed(st') && Known(st, root) && Known(st', root) && i < |keys|
    requires Opened(st, st', root, keys, i) && Lookup(st', root, keys[..i]) == Submap(m)
    requires st'[m][keys[i]].Submap?
    ensures Lookup(st', root, keys[..i + 1]) == st'[m][keys[i]]
    ensures Opened(st, st', root, keys, i + 1)
  {
    hide Lookup, PrefixOf, Closed;
    LookupNext(st', root, keys[..i], keys[i]);
    assert keys[..i] + [keys[i]] == keys[..i + 1];
    forall p: Path ensures PrefixOf(p, keys[..i + 1]) <==> PrefixOf(p, keys[..i]) || p == keys[..i + 1] { PrefixNext(p, keys, i); }
  }

  /** Hanging a new, empty keymap where there was none. */
  lemma NewLevel(st0: Store, st: Store, st': Store, at: map<Keymap, Path>, root: Obj, keys: Path, i: nat, m: Keymap, sub: Keymap)
    requires Closed(st0) && Closed(st) && Closed(st') && Known(st0, root) && Known(st, root) && Known(st', root) && i < |keys|
    requires root.Submap? && Tree(st, at) && at[root.km] == [] && m in st && at[m] == keys[..i]
    requires Opened(st0, st, root, keys, i) && Lookup(st, root, keys[..i]) == Submap(m)
    requires !st[m][keys[i]].Submap? && sub !in st
    requires OneChange(st, st', m, keys[i], Submap(sub)) && sub in st' && st'[sub] == EMPTY
    ensures Lookup(st', root, keys[..i + 1]) == Submap(sub)
    ensures Opened(st0, st', root, keys, i + 1)
  {
    var way := keys[..i + 1];
    assert way == keys[..i] + [keys[i]];
    Unaffected(st, st', at, m, keys[i], Submap(sub), root, keys[..i]);
    LookupNext(st', root, keys[..i], keys[i]);
    LookupNext(st, root, keys[..i], keys[i]);
    hide Lookup, Closed, Tree, OneChange;
    forall p: Path | !PrefixOf(p, way) ensures Lookup(st', root, p) == Lookup(st0, root, p) {
      PrefixNext(p, keys, i);
      if PrefixOf(way, p) {
        Beyond(st, st', root, way, p, sub);
      } else {
        assert at[root.km] + p == p;
        Unaffected(st, st', at, m, keys[i], Submap(sub), root, p);
      }
    }
    forall p: Path | PrefixOf(p, way)
      ensures Lookup(st', root, p).Submap? && (Lookup(st0, root, p).Submap? ==> Lookup(st', root, p) == Lookup(st0, root, p))
    {
      PrefixNext(p, keys, i);
      if p != way {
        assert at[root.km] + p == p;
        assert !PrefixOf(way, p);
        Unaffected(st, st', at, m, keys[i], Submap(sub), root, p);
      }
    }
  }

  /** Below an empty keymap there is nothing, as there was nothing below what it replaces. */
  lemma Beyond(st: Store, st': Store, root: Obj, way: Path, p: Path, sub: Keymap)
    requires Closed(st) && Closed(st') && Known(st, root) && Known(st', root) && PrefixOf(way, p) && p != way
    requires Lookup(st', root, way) == Submap(sub) && sub in st' && st'[sub] == EMPTY && !Lookup(st, root, way).Submap?
    ensures Lookup(st', root, p) == Null == Lookup(st, root, p)
  {
    var q := p[|way|..];
    assert p == way + q && q != [];
    LookupJoin(st, root, way, q);
    LookupJoin(st', root, way, q);
    NothingBelow(st, Lookup(st, root, way), q);
    NothingBelow(st', Null, q[1..]);
  }

  /** The last step: the entry for the last key. */
  lemma LastKey(st0: Store, st: Store, st': Store, at: map<Keymap, Path>, root: Obj, keys: Path, m: Keymap, obj: Obj)
    requires Closed(st0) && Closed(st) && Closed(st') && Known(st0, root) && Known(st, root) && Known(st', root) && Known(st', obj)
    requires keys != [] && m in st && root.Submap? && Tree(st, at) && at[root.km] == []
    requires var i := |keys| - 1; at[m] == keys[..i] && Opened(st0, st, root, keys, i) && Lookup(st, root, keys[..i]) == Submap(m)
    requires OneChange(st, st', m, keys[|keys| - 1], obj)
    ensures Rebound(st0, st', root, keys, obj)
  {
    var i := |keys| - 1;
    assert keys == keys[..i] + [keys[i]];
    Unaffected(st, st', at, m, keys[i], obj, root, keys[..i]);
    LookupNext(st', root, keys[..i], keys[i]);
    hide Lookup, Closed, Tree, OneChange;
    assert Lookup(st', root, keys) == obj;
    forall p: Path | PrefixOf(keys, p) ensures Lookup(st', root, p) == Lookup(st', obj, p[|keys|..]) {
      assert p == keys + p[|keys|..];
      LookupJoin(st', root, keys, p[|keys|..]);
    }
    forall p: Path | !PrefixOf(keys, p) ensures Lookup(st', root, p) == Lookup(st, root, p) {
      assert at[root.km] + p == p;
      Unaffected(st, st', at, m, keys[i], obj, root, p);
    }
    assert keys[..i + 1] == keys;
    forall p: Path ensures PrefixOf(p, keys) <==> PrefixOf(p, keys[..i]) || p == keys { PrefixNext(p, keys, i); }
    forall p: Path | PrefixOf(keys, p) ensures !PrefixOf(p, keys[..i]) {}
  }

  /** Keymaps in order, no two of which share an array. */
  ghost predicate Apart(ms: set<Keymap>)
    reads ms, set m | m in ms :: m.full, set m | m in ms :: m.bindings
  {
    && (forall m :: m in ms ==> m.Valid())
    && (forall m, n :: m in ms && n in ms && m != n ==> m.full != n.full && m.bindings != n.bindings)
  }

  ghost function Snapshot(ms: set<Keymap>): (st: Store)
    requires Apart(ms)
    reads ms, set m | m in ms :: m.full, set m | m in ms :: m.bindings
    ensures st.Keys == ms
  {
    map m | m in ms :: m.Table()
  }

  /** All the keymaps: a world of them, each with its place below `root`. */
  ghost predicate World(ms: set<Keymap>, at: map<Keymap, Path>, root: Keymap)
    reads ms, set m | m in ms :: m.full, set m | m in ms :: m.bindings
  {
    && Apart(ms) && root in ms && Closed(Snapshot(ms)) && Tree(Snapshot(ms), at) && at[root] == []
  }

  /** The keymap bound to a key, if that is what it is bound to. */
  method GetKeymap(m: Keymap, key: Key) returns (sub: Keymap?)
    requires m.Valid()
    ensures var o := m.Table()[key]; if o.Submap? then sub == o.km else sub == null
  {
    var val, _ := m.km_getkey(key);
    sub := match val case Submap(km) => km case _ => null;
  }

  /** `repr` holds the keymaps and their arrays. */
  ghost predicate Owns(ms: set<Keymap>, repr: set<object>)
    reads ms
  {
    forall m :: m in ms ==> m in repr && m.full in repr && m.bindings in repr
  }

  /** Sets a key of one keymap among many. */
  method SetAmong(m: Keymap, key: Key, d: Obj, ghost ms: set<Keymap>, ghost repr: set<object>)
    requires Apart(ms) && m in ms && Owns(ms, repr)
    modifies m, m.full, m.bindings
    ensures Apart(ms)
    ensures Snapshot(ms) == old(Snapshot(ms))[m := old(Snapshot(ms))[m][key := d]]
    ensures m.full == old(m.full) || fresh(m.full)
    ensures m.bindings == old(m.bindings) || fresh(m.bindings)
    ensures Owns(ms, repr + {m.full, m.bindings})
  {
    m.km_setkey(key, d);
  }

  /** A new keymap beside the others. */
  method NewAmong(ghost ms: set<Keymap>, ghost repr: set<object>) returns (sub: Keymap)
    requires Apart(ms) && Owns(ms, repr)
    ensures fresh(sub) && fresh(sub.full) && fresh(sub.bindings)
    ensures Apart(ms + {sub}) && Snapshot(ms + {sub}) == Snapshot(ms)[sub := EMPTY]
    ensures Owns(ms + {sub}, repr + {sub, sub.full, sub.bindings})
  {
    sub := new Keymap.Sparse();
  }

  lemma ClosedNew(st: Store, st': Store, at: map<Keymap, Path>, m: Keymap, key: Key, sub: Keymap)
    requires Closed(st) && Tree(st, at) && m in st && sub !in st && !st[m][key].Submap?
    requires st' == st[sub := EMPTY][m := st[m][key := Submap(sub)]]
    ensures Closed(st') && OneChange(st, st', m, key, Submap(sub)) && st'[sub] == EMPTY
    ensures Tree(st', at[sub := at[m] + [key]])
  {
  }

  lemma ClosedSet(st: Store, st': Store, at: map<Keymap, Path>, m: Keymap, key: Key, d: Obj)
    requires Closed(st) && Tree(st, at) && m in st && Known(st, d)
    requires st' == st[m := st[m][key := d]]
    ensures Closed(st') && OneChange(st, st', m, key, d)
    ensures !d.Submap? ==> Tree(st', at)
  {
  }

  lemma OpenedNone(st: Store, root: Keymap, keys: Path)
    requires Closed(st) && root in st
    ensures Lookup(st, Submap(root), keys[..0]) == Submap(root) && Opened(st, st, Submap(root), keys, 0)
  {
    forall p: Path | PrefixOf(p, keys[..0]) ensures p == [] {}
  }

  /** How far BindSequence has come: `m` is where the first `i` keys lead. */
  ghost predicate Arrived(st0: Store, ms: set<Keymap>, at: map<Keymap, Path>, root: Keymap, keys: Path, i: nat, m: Keymap)
    reads ms, set m | m in ms :: m.full, set m | m in ms :: m.bindings
  {
    && World(ms, at, root) && m in ms && i < |keys| && at[m] == keys[..i] && Closed(st0) && root in st0
    && Opened(st0, Snapshot(ms), Submap(root), keys, i)
    && Lookup(Snapshot(ms), Submap(root), keys[..i]) == Submap(m)
  }

  /** One level down, to a new keymap if there is none. */
  method Descend(root: Keymap, keys: Path, i: nat, m: Keymap, ghost st0: Store,
      ghost ms: set<Keymap>, ghost at: map<Keymap, Path>, ghost repr: set<object>)
    returns (next: Keymap, ghost ms': set<Keymap>, ghost at': map<Keymap, Path>, ghost repr': set<object>)
    requires Arrived(st0, ms, at, root, keys, i, m) && i + 1 < |keys| && Owns(ms, repr)
    modifies m, m.full, m.bindings
    ensures Arrived(st0, ms', at', root, keys, i + 1, next) && Owns(ms', repr')
    ensures ms <= ms' && fresh(ms' - ms) && repr <= repr' && fresh(repr' - repr)
  {
    hide Lookup, Closed, Tree, OneChange, Opened, Apart, Snapshot, Owns;
    SnapshotOf(ms, m, repr);
    var submap := GetKeymap(m, keys[i]);
    if submap == null {
      next, ms', at', repr' := NewSubmap(root, keys, i, m, st0, ms, at, repr);
    } else {
      assert keys[..i + 1] == keys[..i] + [keys[i]];
      TreeChild(Snapshot(ms), at, m, keys[i]);
      StepDown(st0, Snapshot(ms), Submap(root), keys, i, m);
      ms', at', next, repr' := ms, at, submap, repr;
    }
  }

  /** A new keymap at a key of another. */
  method Hang(m: Keymap, key: Key, ghost ms: set<Keymap>, ghost repr: set<object>)
    returns (sub: Keymap, ghost ms': set<Keymap>, ghost repr': set<object>)
    requires Apart(ms) && m in ms && Owns(ms, repr)
    modifies m, m.full, m.bindings
    ensures fresh(sub) && ms' == ms + {sub} && repr <= repr' && fresh(repr' - repr)
    ensures Apart(ms') && Owns(ms', repr')
    ensures Snapshot(ms') == old(Snapshot(ms))[sub := EMPTY][m := old(Snapshot(ms))[m][key := Submap(sub)]]
  {
    hide Apart, Snapshot, Owns;
    SnapshotOf(ms, m, repr);
    ghost var st := Snapshot(ms);
    sub := NewAmong(ms, repr);
    ms' := ms + {sub};
    ghost var new': set<object> := {sub, sub.full, sub.bindings};
    ghost var st1 := Snapshot(ms');
    assert st1[m] == st[m];
    SetAmong(m, key, Submap(sub), ms', repr + new');
    assert Snapshot(ms') == st1[m := st[m][key := Submap(sub)]];
    ghost var set': set<object> := {m.full, m.bindings};
    repr' := repr + new' + set';
    Grown(repr, new', set');
    assert fresh(new') && fresh(set' - repr);
  }

  lemma Grown<T>(a: set<T>, b: set<T>, c: set<T>)
    ensures a + b + c - a <= b + (c - a)
  {}

  method NewSubmap(root: Keymap, keys: Path, i: nat, m: Keymap, ghost st0: Store,
      ghost ms: set<Keymap>, ghost at: map<Keymap, Path>, ghost repr: set<object>)
    returns (sub: Keymap, ghost ms': set<Keymap>, ghost at': map<Keymap, Path>, ghost repr': set<object>)
    requires Arrived(st0, ms, at, root, keys, i, m) && i + 1 < |keys| && Owns(ms, repr)
    requires m.Valid() && !m.Table()[keys[i]].Submap?
    modifies m, m.full, m.bindings
    ensures Arrived(st0, ms', at', root, keys, i + 1, sub) && Owns(ms', repr')
    ensures ms <= ms' && fresh(ms' - ms) && repr <= repr' && fresh(repr' - repr)
  {
    hide Lookup, Closed, Tree, OneChange, Opened, Apart, Snapshot, PrefixOf, Owns;
    SnapshotOf(ms, m, repr);
    ArrivedAt(st0, ms, at, root, keys, i, m, repr);
    ghost var st := Snapshot(ms);
    sub, ms', repr' := Hang(m, keys[i], ms, repr);
    at' := at[sub := at[m] + [keys[i]]];
    assert at'[sub] == keys[..i + 1];
    assert sub !in ms;
    ClosedNew(st, Snapshot(ms'), at, m, keys[i], sub);
    NewLevel(st0, st, Snapshot(ms'), at, Submap(root), keys, i, m, sub);
  }

  lemma SnapshotOf(ms: set<Keymap>, m: Keymap, repr: set<object>)
    requires Apart(ms) && m in ms && Owns(ms, repr)
    ensures m.Valid() && Snapshot(ms)[m] == m.Table() && m in repr && m.full in repr && m.bindings in repr
  {}

  lemma TreeChild(st: Store, at: map<Keymap, Path>, m: Keymap, key: Key)
    requires Closed(st) && Tree(st, at) && m in st && st[m][key].Submap?
    ensures st[m][key].km in st && at[st[m][key].km] == at[m] + [key]
  {}

  /** Binds a sequence of keys, making keymaps on the way where there are none. */
  method BindSequence(root: Keymap, keys: Path, obj: Obj, ghost ms: set<Keymap>, ghost at: map<Keymap, Path>, ghost repr: set<object>)
    returns (ok: bool, ghost ms': set<Keymap>, ghost at': map<Keymap, Path>)
    requires World(ms, at, root) && (obj.Submap? ==> obj.km in ms) && Owns(ms, repr)
    modifies repr
    ensures ok <==> keys != []
    ensures Apart(ms') && ms <= ms' && fresh(ms' - ms) && Closed(Snapshot(ms'))
    ensures !ok ==> ms' == ms && Snapshot(ms) == old(Snapshot(ms))
    ensures ok ==> Rebound(old(Snapshot(ms)), Snapshot(ms'), Submap(root), keys, obj)
    ensures !obj.Submap? ==> World(ms', at', root)
  {
    hide Lookup, Closed, Tree, OneChange, Opened, Rebound, Arrived, Apart, Snapshot, World, Owns, PrefixOf;
    WorldFacts(ms, at, root);
    ms', at' := ms, at;
    if keys == [] { return false, ms', at'; }
    ghost var st0 := Snapshot(ms);
    var m := root;
    var i := 0;
    ghost var repr' := repr;
    ArrivedFirst(ms, at, root, keys);
    while i < |keys| - 1
      invariant 0 <= i < |keys| && ms <= ms' && fresh(ms' - ms)
      invariant Arrived(st0, ms', at', root, keys, i, m)
      invariant Owns(ms', repr') && fresh(repr' - repr)
    {
      ArrivedAt(st0, ms', at', root, keys, i, m, repr');
      m, ms', at', repr' := Descend(root, keys, i, m, st0, ms', at', repr');
      i := i + 1;
    }
    ArrivedAt(st0, ms', at', root, keys, i, m, repr');
    Finish(root, keys, m, obj, st0, ms', at', repr');
    ok := true;
  }

  lemma WorldFacts(ms: set<Keymap>, at: map<Keymap, Path>, root: Keymap)
    requires World(ms, at, root)
    ensures Apart(ms) && Closed(Snapshot(ms)) && root in ms
  {}

  lemma ArrivedFirst(ms: set<Keymap>, at: map<Keymap, Path>, root: Keymap, keys: Path)
    requires World(ms, at, root) && keys != []
    ensures Arrived(Snapshot(ms), ms, at, root, keys, 0, root)
  {
    OpenedNone(Snapshot(ms), root, keys);
  }

  lemma ArrivedAt(st0: Store, ms: set<Keymap>, at: map<Keymap, Path>, root: Keymap, keys: Path, i: nat, m: Keymap, repr: set<object>)
    requires Arrived(st0, ms, at, root, keys, i, m) && Owns(ms, repr)
    ensures m in ms && m in repr && m.full in repr && m.bindings in repr && m in at && at[m] == keys[..i]
  {}

  /** The last key. */
  method Finish(root: Keymap, keys: Path, m: Keymap, obj: Obj, ghost st0: Store,
      ghost ms: set<Keymap>, ghost at: map<Keymap, Path>, ghost repr: set<object>)
    requires Owns(ms, repr)
    requires keys != [] && Arrived(st0, ms, at, root, keys, |keys| - 1, m) && (obj.Submap? ==> obj.km in ms)
    modifies m, m.full, m.bindings
    ensures Apart(ms) && Closed(Snapshot(ms)) && Closed(st0) && root in st0 && root in ms
    ensures Rebound(st0, Snapshot(ms), Submap(root), keys, obj)
    ensures !obj.Submap? ==> World(ms, at, root)
  {
    hide Lookup, Closed, Tree, OneChange, Opened, Rebound;
    ghost var st := Snapshot(ms);
    var key := keys[|keys| - 1];
    SetAmong(m, key, obj, ms, repr);
    ghost var st' := Snapshot(ms);
    ClosedSet(st, st', at, m, key, obj);
    LastKey(st0, st, st', at, Submap(root), keys, m, obj);
  }

  const MAX_KEYMAPS: nat := 3

  /** The active keymaps, the most specific one first. */
  function Active(bmap: Keymap?, process: bool, procsmap: Keymap, mainmap: Keymap): seq<Keymap> {
    (if bmap != null then [bmap as Keymap] else []) + (if process then [procsmap] else []) + [mainmap]
  }

  method get_keymaps(bmap: Keymap?, process: bool, procsmap: Keymap, mainmap: Keymap) returns (buf: seq<Keymap?>)
    ensures buf == Active(bmap, process, procsmap, mainmap) && |buf| <= MAX_KEYMAPS
  {
    buf := [];
    if bmap != null { buf := buf + [bmap]; }
    if process { buf := buf + [procsmap]; }
    buf := buf + [mainmap];
  }

  /** What became of the key strokes: `used` of them were read. */
  datatype Outcome = Run(id: nat, used: nat) | NotBound(used: nat) | Aborted(used: nat) | Waiting

  ghost predicate Within(maps: seq<Keymap>, ms: set<Keymap>) { forall m :: m in maps ==> m in ms }

  /** What the maps bind a sequence to, in order. */
  ghost function Answers(st: Store, maps: seq<Keymap>, p: Path): (os: seq<Obj>)
    requires Closed(st) && Within(maps, st.Keys)
    ensures |os| == |maps|
  {
    seq(|maps|, i requires 0 <= i < |maps| => Lookup(st, Submap(maps[i]), p))
  }

  /** The command of the first map that has one. */
  function First(os: seq<Obj>): (o: Obj)
    ensures !o.Submap?
    ensures o == Null <==> forall i :: 0 <= i < |os| ==> !os[i].Command?
  {
    if os == [] then Null else if os[0].Command? then os[0] else First(os[1..])
  }

  /** Some map has longer sequences that start like this. */
  ghost predicate Hope(os: seq<Obj>) { exists i :: 0 <= i < |os| && os[i].Submap? }

  /** After the first `n` strokes nothing is decided: no map binds them to a command, one has more, and none was an abort. */
  ghost predicate Undecided(st: Store, maps: seq<Keymap>, keys: Path, stop: nat, n: nat)
    requires Closed(st) && Within(maps, st.Keys) && n <= |keys|
  {
    && (forall k :: 1 <= k <= n ==> First(Answers(st, maps, keys[..k])) == Null && Hope(Answers(st, maps, keys[..k])))
    && (forall j :: 1 <= j < n ==> keys[j] != stop)
  }

  ghost predicate Dispatched(st: Store, maps: seq<Keymap>, keys: Path, stop: nat, r: Outcome)
    requires Closed(st) && Within(maps, st.Keys)
  {
    match r
    case Run(id, n) =>
      1 <= n <= |keys| && Undecided(st, maps, keys, stop, n - 1) && (n > 1 ==> keys[n - 1] != stop)
      && First(Answers(st, maps, keys[..n])) == Command(id)
    case NotBound(n) =>
      1 <= n <= |keys| && Undecided(st, maps, keys, stop, n - 1) && (n > 1 ==> keys[n - 1] != stop)
      && First(Answers(st, maps, keys[..n])) == Null && !Hope(Answers(st, maps, keys[..n]))
    case Aborted(n) => 1 < n <= |keys| && Undecided(st, maps, keys, stop, n - 1) && keys[n - 1] == stop
    case Waiting => Undecided(st, maps, keys, stop, |keys|)
  }

  /** What `maps` holds while dispatching: the keymaps that the strokes so far lead to. */
  ghost predicate Follow(st: Store, maps: seq<Keymap?>, os: seq<Obj>) {
    |maps| == |os| && forall i :: 0 <= i < |os| ==> Known(st, os[i]) && Follows(maps[i], os[i])
  }

  ghost predicate Follows(m: Keymap?, o: Obj) { if o.Submap? then m == o.km else m == null }

  /** The answers one stroke later. */
  ghost function Deeper(st: Store, os: seq<Obj>, c: Key): (next: seq<Obj>)
    requires Closed(st) && forall i :: 0 <= i < |os| ==> Known(st, os[i])
    ensures |next| == |os| && forall i :: 0 <= i < |next| ==> Known(st, next[i])
  {
    seq(|os|, i requires 0 <= i < |os| => Below(st, os[i], c))
  }

  ghost function Below(st: Store, o: Obj, c: Key): (r: Obj)
    requires Closed(st) && Known(st, o)
    ensures Known(st, r)
  {
    if o.Submap? then st[o.km][c] else Null
  }

  lemma AnswersNext(st: Store, maps: seq<Keymap>, keys: Path, n: nat)
    requires Closed(st) && Within(maps, st.Keys) && n < |keys|
    ensures Answers(st, maps, keys[..n + 1]) == Deeper(st, Answers(st, maps, keys[..n]), keys[n])
  {
    var a, b := Answers(st, maps, keys[..n + 1]), Deeper(st, Answers(st, maps, keys[..n]), keys[n]);
    forall i | 0 <= i < |maps| ensures a[i] == b[i] {
      assert keys[..n + 1] == keys[..n] + [keys[n]];
      LookupNext(st, Submap(maps[i]), keys[..n], keys[n]);
    }
  }

  /** One stroke in every map; stops at the first command. */
  method Stroke(maps0: seq<Keymap?>, c: Key, ghost ms: set<Keymap>, ghost os: seq<Obj>)
    returns (cmd: Obj, hope: bool, maps: seq<Keymap?>, ghost next: seq<Obj>)
    requires Apart(ms) && Closed(Snapshot(ms)) && Follow(Snapshot(ms), maps0, os)
    ensures (forall i :: 0 <= i < |os| ==> Known(Snapshot(ms), os[i])) && next == Deeper(Snapshot(ms), os, c)
    ensures cmd == First(next)
    ensures cmd == Null ==> (hope <==> Hope(next)) && Follow(Snapshot(ms), maps, next)
  {
    hide Apart, Snapshot, Closed, Deeper, First;
    ghost var st := Snapshot(ms);
    next := Deeper(st, os, c);
    maps, hope := maps0, false;
    var i := 0;
    assert next[0..] == next;
    while i < |maps|
      invariant 0 <= i <= |maps| == |maps0|
      invariant First(next) == First(next[i..])
      invariant forall j :: 0 <= j < i ==> !next[j].Command? && Follows(maps[j], next[j])
      invariant maps[i..] == maps0[i..]
      invariant hope <==> exists j :: 0 <= j < i && next[j].Submap?
    {
      assert next[i..][0] == next[i] && next[i..][1..] == next[i + 1..];
      assert maps[i..][0] == maps0[i..][0] == maps[i] == maps0[i];
      assert Follows(maps[i], os[i]) && Known(st, os[i]);
      DeeperAt(st, os, c, i);
      FirstOf(next[i..]);
      var m := maps[i];
      if m != null {
        var cp := Fetch(m, c, ms);
        if cp != Null {
          if !cp.Submap? { return cp, hope, maps, next; }
          hope := true;
        }
        maps := maps[i := match cp case Submap(km) => km case _ => null];
      }
      i := i + 1;
    }
    cmd := Null;
    FirstOf(next[i..]);
  }

  lemma FirstOf(os: seq<Obj>)
    ensures First(os) == if os == [] then Null else if os[0].Command? then os[0] else First(os[1..])
  {}

  lemma DeeperAt(st: Store, os: seq<Obj>, c: Key, i: nat)
    requires Closed(st) && (forall i :: 0 <= i < |os| ==> Known(st, os[i])) && i < |os|
    ensures var next := Deeper(st, os, c);
      |next| == |os| && Known(st, next[i]) && next[i] == if os[i].Submap? then st[os[i].km][c] else Null
  {}

  /** A key of one keymap among many. */
  method Fetch(m: Keymap, key: Key, ghost ms: set<Keymap>) returns (o: Obj)
    requires Apart(ms) && m in ms
    ensures o == Snapshot(ms)[m][key]
  {
    var pos;
    o, pos := m.km_getkey(key);
  }

  lemma ActiveKnown(bmap: Keymap?, process: bool, procsmap: Keymap, mainmap: Keymap, ms: set<Keymap>)
    requires procsmap in ms && mainmap in ms && (bmap != null ==> bmap in ms)
    ensures Within(Active(bmap, process, procsmap, mainmap), ms)
  {}

  lemma DispatchStart(st: Store, maps: seq<Keymap>, keys: Path, stop: nat, os: seq<Obj>)
    requires Closed(st) && Within(maps, st.Keys) && os == Answers(st, maps, keys[..0])
    ensures |os| == |maps| && Undecided(st, maps, keys, stop, 0)
    ensures Follow(st, maps, os)
  {}

  lemma UndecidedNext(st: Store, maps: seq<Keymap>, keys: Path, stop: nat, n: nat)
    requires Closed(st) && Within(maps, st.Keys) && n < |keys| && Undecided(st, maps, keys, stop, n)
    requires n > 0 ==> keys[n] != stop
    ensures var os := Answers(st, maps, keys[..n + 1]);
      && (First(os) != Null ==> First(os).Command? && Dispatched(st, maps, keys, stop, Run(First(os).id, n + 1)))
      && (First(os) == Null && !Hope(os) ==> Dispatched(st, maps, keys, stop, NotBound(n + 1)))
      && (First(os) == Null && Hope(os) ==>
            && Undecided(st, maps, keys, stop, n + 1)
            && (n + 1 == |keys| ==> Dispatched(st, maps, keys, stop, Waiting))
            && (n + 1 < |keys| && keys[n + 1] == stop ==> Dispatched(st, maps, keys, stop, Aborted(n + 2))))
  {}

  /** Dispatches the first key stroke, reading more of `keys` as long as some map has longer sequences. */
  method dispatch(keys: Path, stop: nat, bmap: Keymap?, process: bool, procsmap: Keymap, mainmap: Keymap, ghost ms: set<Keymap>)
    returns (r: Outcome)
    requires keys != [] && Apart(ms) && Closed(Snapshot(ms))
    requires procsmap in ms && mainmap in ms && (bmap != null ==> bmap in ms)
    ensures Dispatched(Snapshot(ms), Active(bmap, process, procsmap, mainmap), keys, stop, r)
  {
    hide Lookup, First, Hope, Closed, Apart, Snapshot, Deeper, Answers, Undecided, Active, Known, Within, Follow, Dispatched;
    ghost var st, active := Snapshot(ms), Active(bmap, process, procsmap, mainmap);
    var maps := get_keymaps(bmap, process, procsmap, mainmap);
    var n := 0;
    ActiveKnown(bmap, process, procsmap, mainmap, ms);
    ghost var os := Answers(st, active, keys[..0]);
    DispatchStart(st, active, keys, stop, os);
    while true
      invariant 0 <= n < |keys| && os == Answers(st, active, keys[..n]) && Follow(st, maps, os)
      invariant Undecided(st, active, keys, stop, n) && (n > 0 ==> keys[n] != stop)
      decreases |keys| - n
    {
      var cmd, hope;
      AnswersNext(st, active, keys, n);
      UndecidedNext(st, active, keys, stop, n);
      cmd, hope, maps, os := Stroke(maps, keys[n], ms, os);
      n := n + 1;
      if cmd != Null { return Run(cmd.id, n); }
      if !hope { return NotBound(n); }
      if n == |keys| { return Waiting; }
      if keys[n] == stop { return Aborted(n + 1); }
    }
  }

  /** A sequence that some map binds is on the way in that map before. */
  lemma OnTheWay(st: Store, maps: seq<Keymap>, keys: Path, k: nat, n: nat)
    requires Closed(st) && Within(maps, st.Keys) && k < n <= |keys|
    requires First(Answers(st, maps, keys[..n])) != Null
    ensures Hope(Answers(st, maps, keys[..k]))
  {
    var os := Answers(st, maps, keys[..n]);
    var i :| 0 <= i < |os| && os[i].Command?;
    var o := Lookup(st, Submap(maps[i]), keys[..k]);
    assert keys[..n] == keys[..k] + keys[k..n];
    LookupJoin(st, Submap(maps[i]), keys[..k], keys[k..n]);
    assert Answers(st, maps, keys[..k])[i] == o;
  }

  /** What runs is the shortest sequence that any active map binds, in the most specific map that binds it; and only that. */
  lemma ShortestRuns(st: Store, maps: seq<Keymap>, keys: Path, stop: nat, r: Outcome, id: nat, n: nat)
    requires Closed(st) && Within(maps, st.Keys) && Dispatched(st, maps, keys, stop, r) && 1 <= n <= |keys|
    ensures r == Run(id, n) <==>
      && First(Answers(st, maps, keys[..n])) == Command(id)
      && (forall k :: 1 <= k < n ==> First(Answers(st, maps, keys[..k])) == Null)
      && (forall j :: 1 <= j < n ==> keys[j] != stop)
  {
    hide Answers, First, Hope, Lookup, Closed;
    if
      && First(Answers(st, maps, keys[..n])) == Command(id)
      && (forall k :: 1 <= k < n ==> First(Answers(st, maps, keys[..k])) == Null)
      && (forall j :: 1 <= j < n ==> keys[j] != stop)
    {
      forall k | 1 <= k < n ensures Hope(Answers(st, maps, keys[..k])) { OnTheWay(st, maps, keys, k, n); }
      match r
      case Run(_, m) => assert m == n;
      case NotBound(m) =>
      case Aborted(m) =>
      case Waiting =>
    }
  }
}
