/** Running macros: an explicit stack of threads, and what it stands for. */
module Macros {

  type Key = nat

  /** What the commands do with the keys delivered so far: run a macro, or not. */
  datatype Call = NoCall | Call(m: nat, count: int)

  /** The macros' bodies, which do not change while macros run, and the commands that the keys run. */
  datatype World = World(bodies: seq<seq<Key>>, command: seq<Key> -> Call)
  {
    predicate Has(m: nat) { m < |bodies| }
  }

  /** The keys delivered so far, and whether no macro was refused. */
  datatype Outcome = Outcome(keys: seq<Key>, ok: bool)

  /** A macro that is running: how far it is in its body, and how often it runs, this time included. */
  datatype Frame = Frame(m: nat, offset: nat, count: nat)
  {
    predicate Ok(w: World) { w.Has(m) && offset <= |w.bodies[m]| && count >= 1 }
  }

  function Below(n: nat): (r: set<nat>)
    ensures forall x: nat :: x in r <==> x < n
    ensures |r| == n
  {
    if n == 0 then {} else {n - 1} + Below(n - 1)
  }

  /** How many macros are not running. */
  function Idle(w: World, active: set<nat>): nat { |Below(|w.bodies|) - active| }

  lemma IdleLess(w: World, active: set<nat>, m: nat)
    requires w.Has(m) && m !in active
    ensures Idle(w, active + {m}) < Idle(w, active)
  {
    var a := Below(|w.bodies|);
    assert a - (active + {m}) == (a - active) - {m};
  }

  /** A macro that is asked for is refused when it is running, or when it is to run less than once. */
  predicate Refused(w: World, c: Call, active: set<nat>) {
    c.Call? && (c.m in active || c.count <= 0 || !w.Has(c.m))
  }

  /** The recursive meaning of macros: the keys that the rest of `f` delivers behind `keys`, those of the
      macros it runs on the way included.  `active` are the macros that are running. */
  function Run(w: World, f: Frame, active: set<nat>, keys: seq<Key>): (r: Outcome)
    requires f.Ok(w)
    ensures keys <= r.keys
    decreases Idle(w, active), f.count, |w.bodies[f.m]| - f.offset
  {
    var body := w.bodies[f.m];
    if f.offset == |body| then
      if f.count == 1 then Outcome(keys, true) else Run(w, Frame(f.m, 0, f.count - 1), active, keys)
    else
      var keys1 := keys + [body[f.offset]];
      var next := Frame(f.m, f.offset + 1, f.count);
      var c := w.command(keys1);
      if c.NoCall? then Run(w, next, active, keys1)
      else if Refused(w, c, active) then Outcome(keys1, false)
      else
        IdleLess(w, active, c.m);
        var r := Run(w, Frame(c.m, 0, c.count), active + {c.m}, keys1);
        if !r.ok then r else Run(w, next, active, r.keys)
  }

  function Actives(st: seq<Frame>): set<nat> { if st == [] then {} else {st[0].m} + Actives(st[1..]) }

  predicate FramesOk(w: World, st: seq<Frame>) {
    st == [] || (st[0].Ok(w) && st[0].m !in Actives(st[1..]) && FramesOk(w, st[1..]))
  }

  /** What a stack of frames stands for, the innermost first. */
  function RunAll(w: World, st: seq<Frame>, keys: seq<Key>): (r: Outcome)
    requires FramesOk(w, st)
    ensures keys <= r.keys
    decreases |st|
  {
    if st == [] then Outcome(keys, true)
    else
      var r := Run(w, st[0], Actives(st), keys);
      if !r.ok then r else RunAll(w, st[1..], r.keys)
  }

  /** Without nested macros a macro delivers its body `count` times. */
  function Times(s: seq<Key>, n: nat): seq<Key> { if n == 0 then [] else s + Times(s, n - 1) }

  lemma {:induction false} RunPlain(w: World, f: Frame, active: set<nat>, keys: seq<Key>)
    requires f.Ok(w) && forall k :: w.command(k) == NoCall
    ensures Run(w, f, active, keys) == Outcome(keys + w.bodies[f.m][f.offset..] + Times(w.bodies[f.m], f.count - 1), true)
    decreases f.count, |w.bodies[f.m]| - f.offset
  {
    var body := w.bodies[f.m];
    if f.offset == |body| {
      if f.count > 1 {
        RunPlain(w, Frame(f.m, 0, f.count - 1), active, keys);
        assert body[0..] == body && body[f.offset..] == [];
        assert keys + body + Times(body, f.count - 2) == keys + [] + (body + Times(body, f.count - 2));
      } else {
        assert keys + [] + [] == keys;
      }
    } else {
      RunPlain(w, Frame(f.m, f.offset + 1, f.count), active, keys + [body[f.offset]]);
      assert body[f.offset..] == [body[f.offset]] + body[f.offset + 1..];
      assert keys + [body[f.offset]] + body[f.offset + 1..] == keys + body[f.offset..];
    }
  }

  /** Reading one key of a stack: the key (-1: nothing is running any more), and the stack then. */
  function GetC(w: World, st: seq<Frame>): (r: (int, seq<Frame>))
    requires FramesOk(w, st)
    ensures FramesOk(w, r.1) && (r.0 == -1 <==> r.1 == []) && r.0 >= -1
    decreases |st|, if st == [] then 0 else st[0].count
  {
    if st == [] then (-1, [])
    else
      var f := st[0];
      var body := w.bodies[f.m];
      if f.offset < |body| then (body[f.offset], [Frame(f.m, f.offset + 1, f.count)] + st[1..])
      else if f.count == 1 then GetC(w, st[1..])
      else GetC(w, [Frame(f.m, 0, f.count - 1)] + st[1..])
  }

  /** What follows when a key has been delivered. */
  function Deliver(w: World, st: seq<Frame>, keys: seq<Key>): Outcome
    requires FramesOk(w, st)
  {
    var c := w.command(keys);
    if c.NoCall? then RunAll(w, st, keys)
    else if Refused(w, c, Actives(st)) then Outcome(keys, false)
    else
      Started(w, st, c.m, c.count);
      RunAll(w, [Frame(c.m, 0, c.count)] + st, keys)
  }

  lemma Started(w: World, st: seq<Frame>, m: nat, count: int)
    requires FramesOk(w, st) && !Refused(w, Call(m, count), Actives(st))
    ensures FramesOk(w, [Frame(m, 0, count)] + st)
    ensures Actives([Frame(m, 0, count)] + st) == Actives(st) + {m}
  {
    assert ([Frame(m, 0, count)] + st)[1..] == st;
  }

  /** Only the offset or the count of the innermost frame differs. */
  lemma SameActives(st: seq<Frame>, f: Frame)
    requires st != [] && f.m == st[0].m
    ensures Actives([f] + st[1..]) == Actives(st)
  {
    assert ([f] + st[1..])[1..] == st[1..];
  }

  /** The stack delivers what it stands for, key by key. */
  lemma {:induction false} GetCRuns(w: World, st: seq<Frame>, keys: seq<Key>)
    requires FramesOk(w, st)
    ensures var (c, st') := GetC(w, st);
      RunAll(w, st, keys) == if c == -1 then Outcome(keys, true) else Deliver(w, st', keys + [c])
    decreases |st|, if st == [] then 0 else st[0].count
  {
    if st != [] {
      var f := st[0];
      var body := w.bodies[f.m];
      if f.offset < |body| {
        var g := Frame(f.m, f.offset + 1, f.count);
        var st' := [g] + st[1..];
        var keys1 := keys + [body[f.offset]];
        SameActives(st, g);
        assert st'[1..] == st[1..];
        var c := w.command(keys1);
        var r := Run(w, f, Actives(st), keys);
        if c.NoCall? {
          assert r == Run(w, g, Actives(st), keys1);
        } else if !Refused(w, c, Actives(st)) {
          Started(w, st', c.m, c.count);
          assert ([Frame(c.m, 0, c.count)] + st')[1..] == st';
          var nested := Run(w, Frame(c.m, 0, c.count), Actives(st) + {c.m}, keys1);
          assert !nested.ok ==> r == nested;
          assert nested.ok ==> r == Run(w, g, Actives(st), nested.keys);
          var st2 := [Frame(c.m, 0, c.count)] + st';
          assert Actives(st2) == Actives(st) + {c.m};
          assert RunAll(w, st2, keys1) == if !nested.ok then nested else RunAll(w, st', nested.keys);
          assert nested.ok ==> RunAll(w, st', nested.keys) == if !r.ok then r else RunAll(w, st[1..], r.keys);
        } else {
          assert r == Outcome(keys1, false) && Deliver(w, st', keys1) == Outcome(keys1, false);
        }
      } else if f.count == 1 {
        GetCRuns(w, st[1..], keys);
      } else {
        var g := Frame(f.m, 0, f.count - 1);
        SameActives(st, g);
        assert ([g] + st[1..])[1..] == st[1..];
        GetCRuns(w, [g] + st[1..], keys);
      }
    }
  }

  class Thread {
    const mt_prev: Thread?
    const mt_mp: nat
    var mt_offset: nat
    var mt_count: nat

    constructor (prev: Thread?, m: nat, count: nat)
      ensures mt_prev == prev && mt_mp == m && mt_offset == 0 && mt_count == count
    {
      mt_prev, mt_mp, mt_offset, mt_count := prev, m, 0, count;
    }

    function Value(): Frame
      reads this
    {
      Frame(mt_mp, mt_offset, mt_count)
    }
  }

  /** The threads `ts`, innermost first, hold the frames `st`. */
  ghost predicate Threads(ts: seq<Thread>, st: seq<Frame>)
    reads ts
  {
    |ts| == |st| && forall k :: 0 <= k < |ts| ==> ts[k].mt_prev == Behind(ts, k) && ts[k].Value() == st[k]
  }

  ghost function Behind(ts: seq<Thread>, k: nat): Thread? { if k + 1 < |ts| then ts[k + 1] else null }

  lemma {:induction false} ActiveAt(w: World, st: seq<Frame>, k: nat)
    requires FramesOk(w, st) && k < |st|
    ensures st[k].m in Actives(st) && (k > 0 ==> st[k].m != st[0].m) && st[k].Ok(w)
    decreases |st|
  {
    if k > 0 {
      ActiveAt(w, st[1..], k - 1);
    }
  }

  lemma FramesTop(w: World, st: seq<Frame>, f: Frame)
    requires FramesOk(w, st) && st != [] && f.m == st[0].m
    ensures FramesOk(w, st[1..]) && (f.Ok(w) ==> FramesOk(w, [f] + st[1..]))
  {
    assert ([f] + st[1..])[1..] == st[1..];
  }

  class Stack {
    const w: World
    var mac_stack: Thread?
    ghost var ts: seq<Thread>
    ghost var st: seq<Frame>

    constructor (w: World)
      ensures Valid() && st == [] && this.w == w
    {
      this.w := w;
      mac_stack, ts, st := null, [], [];
    }

    /** The threads are linked, and no macro is among them twice. */
    ghost predicate Valid()
      reads this, ts
    {
      mac_stack == (if ts == [] then null else ts[0]) && Threads(ts, st) && FramesOk(w, st)
    }

    method pop_macro_stack()
      requires mac_stack == (if ts == [] then null else ts[0]) && Threads(ts, st) && (st != [] ==> FramesOk(w, st[1..]))
      modifies this
      ensures Valid() && st == (if old(st) == [] then [] else old(st)[1..]) && ts == if old(ts) == [] then [] else old(ts)[1..]
    {
      if mac_stack == null { return; }
      mac_stack := mac_stack.mt_prev;
      ts, st := ts[1..], st[1..];
    }

    /** A macro starts, unless it is running or is to run less than once. */
    method push_macro_stack(m: nat, count: int) returns (ok: bool)
      requires Valid() && w.Has(m)
      modifies this
      ensures Valid() && ok == !Refused(w, Call(m, count), Actives(old(st)))
      ensures st == (if ok then [Frame(m, 0, count)] else []) + old(st)
      ensures forall k :: 0 <= k < |ts| ==> ts[k] in old(ts) || fresh(ts[k])
    {
      var running := Running(m);
      if running { return false; }
      if count <= 0 { return false; }
      Started(w, st, m, count);
      var new' := new Thread(mac_stack, m, count);
      mac_stack := new';
      ts, st := [new'] + ts, [Frame(m, 0, count)] + st;
      ok := true;
    }

    method Running(m: nat) returns (r: bool)
      requires Valid()
      ensures r <==> m in Actives(st)
    {
      var t := mac_stack;
      ghost var k := 0;
      while t != null
        invariant 0 <= k <= |ts| && t == (if k < |ts| then ts[k] else null)
        invariant m in Actives(st) <==> m in Actives(st[k..])
        decreases |ts| - k
      {
        assert ts[k].Value() == st[k] && st[k..][0] == st[k] && st[k..][1..] == st[k + 1..];
        if t.mt_mp == m { return true; }
        t := t.mt_prev;
        k := k + 1;
      }
      r := false;
    }

    /** The next key; -1 when no macro is running any more. */
    method mac_getc() returns (c: int)
      requires Valid()
      modifies this, ts
      ensures Valid() && (c, st) == GetC(w, old(st))
      ensures forall k :: 0 <= k < |ts| ==> ts[k] in old(ts)
      decreases |st|, if st == [] then 0 else st[0].count
    {
      hide FramesOk, Threads, Run, RunAll, Actives;
      TopIs();
      if mac_stack == null { return -1; }
      var mthread := mac_stack;
      var body := w.bodies[mthread.mt_mp];
      if mthread.mt_offset == |body| {
        NextRound();
        c := mac_getc();
        return;
      }
      c := body[mthread.mt_offset];
      Advance();
    }

    lemma TopIs()
      requires Valid()
      ensures |ts| == |st| && (st != [] ==> ts[0].Value() == st[0] && st[0].Ok(w))
    {}

    /** The body has been read to its end: it starts again, or the macro is done. */
    method NextRound()
      requires Valid() && st != [] && st[0].offset == |w.bodies[st[0].m]|
      modifies this, ts
      ensures Valid() && forall k :: 0 <= k < |ts| ==> ts[k] in old(ts)
      ensures st == if old(st)[0].count == 1 then old(st)[1..] else [Frame(old(st)[0].m, 0, old(st)[0].count - 1)] + old(st)[1..]
    {
      hide Run, RunAll, FramesOk, Actives, Threads;
      TopIs();
      ghost var was := st;
      var mthread := mac_stack;
      FramesTop(w, was, Frame(was[0].m, 0, was[0].count - 1));
      SetTop(0, mthread.mt_count - 1);
      assert st[1..] == was[1..];
      if mthread.mt_count == 0 {
        pop_macro_stack();
      }
    }

    method Advance()
      requires Valid() && st != [] && st[0].offset < |w.bodies[st[0].m]|
      modifies this, ts
      ensures Valid() && st == [Frame(old(st)[0].m, old(st)[0].offset + 1, old(st)[0].count)] + old(st)[1..] && ts == old(ts)
    {
      hide Run, RunAll, FramesOk, Actives, Threads;
      TopIs();
      FramesTop(w, st, Frame(st[0].m, st[0].offset + 1, st[0].count));
      SetTop(mac_stack.mt_offset + 1, mac_stack.mt_count);
    }

    /** The offset and the count of the innermost thread change. */
    method SetTop(offset: nat, count: nat)
      requires Valid() && st != []
      modifies mac_stack, this`st
      ensures Threads(ts, st) && st == [Frame(old(st)[0].m, offset, count)] + old(st)[1..]
      ensures mac_stack.mt_offset == offset && mac_stack.mt_count == count && mac_stack.mt_mp == old(st)[0].m
    {
      assert ts[0].Value() == st[0];
      forall k: nat | 0 < k < |ts| ensures ts[k].mt_mp != ts[0].mt_mp {
        assert ts[k].Value() == st[k];
        ActiveAt(w, st, k);
      }
      mac_stack.mt_offset, mac_stack.mt_count := offset, count;
      st := [Frame(st[0].m, offset, count)] + st[1..];
      forall k: nat | k < |ts| ensures ts[k].mt_prev == Behind(ts, k) && ts[k].Value() == st[k] {
        if k > 0 { assert old(ts[k].Value()) == old(st)[k]; }
      }
    }

    /** The commands are run with the keys of a macro until no macro is running, or one is refused. */
    method RunMacro(m: nat, count: int) returns (keys: seq<Key>, ok: bool)
      requires Valid() && st == [] && w.Has(m)
      requires forall k, c :: c == w.command(k) && c.Call? ==> w.Has(c.m)
      modifies this, ts
      ensures Valid()
      ensures count <= 0 ==> !ok && keys == []
      ensures count > 0 ==> Outcome(keys, ok) == Run(w, Frame(m, 0, count), {m}, []) && (ok ==> st == [])
    {
      keys := [];
      ok := push_macro_stack(m, count);
      if !ok { return; }
      ghost var all := RunAll(w, st, keys);
      assert st[1..] == [] && Actives(st) == {m};
      while true
        invariant Valid() && all == RunAll(w, st, keys)
        invariant forall k :: 0 <= k < |ts| ==> fresh(ts[k])
        decreases |all.keys| - |keys|
      {
        GetCRuns(w, st, keys);
        var c := mac_getc();
        if c == -1 { return keys, true; }
        keys := keys + [c];
        var call := w.command(keys);
        if call.Call? {
          ok := push_macro_stack(call.m, call.count);
          if !ok { return keys, false; }
        }
      }
    }
  }
}
