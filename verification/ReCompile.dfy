/** The pattern compiler: one pass over the pattern that writes code in place and patches it. */
module ReCompile {
  import opened CString
  import opened Pattern
  import opened ReCode
  import opened ReMatch
  import opened ReParse
  import opened ReRoom
  import opened ReSound
  import opened ReSearch

  /** What the compiler does after an element: read on, leave the level, or fail. */
  datatype Went = On | Left(closed: bool) | Failed(s: Status)

  predicate Plain(it: Item) { it.Str? || it.One? || it.Star? }

  /** The code of `items` fills the buffer from `base` to `ptr`. */
  ghost predicate Emitted(buf: seq<int>, base: nat, ptr: nat, items: seq<Item>) {
    CodeAt(buf, base, Code(items)) && ptr == base + |Code(items)|
  }

  /** `v` is where the last verb stands (-1: there is none), as far as that matters to what follows. */
  ghost predicate Verb(buf: seq<int>, v: int, ptr: nat, items: seq<Item>) {
    && -1 <= v < ptr <= |buf|
    && if items != [] && Plain(items[|items| - 1]) then v == ptr - |ItemCode(items[|items| - 1])| else v == -1 || buf[v] <= NOSTR
  }

  lemma CodeTwo(a: Item, b: Item)
    ensures Code([a, b]) == ItemCode(a) + ItemCode(b)
  {
    assert [a, b][1..] == [b];
    CodeOne(b);
  }

  lemma CodeAtSame(buf: seq<int>, buf': seq<int>, at: nat, s: seq<int>, n: nat)
    requires CodeAt(buf, at, s) && at + |s| <= n <= |buf| && n <= |buf'| && buf[..n] == buf'[..n]
    ensures CodeAt(buf', at, s)
  {
    assert buf[at..at + |s|] == buf[..n][at..at + |s|];
    assert buf'[at..at + |s|] == buf'[..n][at..at + |s|];
  }

  lemma CodeAtJoin(buf: seq<int>, at: nat, a: seq<int>, b: seq<int>)
    requires CodeAt(buf, at, a) && CodeAt(buf, at + |a|, b)
    ensures CodeAt(buf, at, a + b)
  {
    assert buf[at..at + |a + b|] == buf[at..at + |a|] + buf[at + |a|..at + |a| + |b|];
  }

  /** The code of `new` takes the place of what stood from `v` on. */
  lemma Emit(buf: seq<int>, buf': seq<int>, base: nat, v: nat, pre: seq<Item>, new': seq<Item>)
    requires Emitted(buf, base, v, pre) && |buf'| == |buf| && buf'[..v] == buf[..v] && CodeAt(buf', v, Code(new'))
    ensures Emitted(buf', base, v + |Code(new')|, pre + new')
    ensures base <= v && buf'[..base] == buf[..base]
  {
    CodeAppend(pre, new');
    CodeAtSame(buf, buf', base, Code(pre), v);
    CodeAtJoin(buf', base, Code(pre), Code(new'));
    assert buf'[..base] == buf'[..v][..base] && buf[..base] == buf[..v][..base];
  }

  lemma LastAt(buf: seq<int>, base: nat, ptr: nat, items: seq<Item>)
    requires Emitted(buf, base, ptr, items) && items != []
    ensures var n := |items| - 1;
      var v := ptr - |ItemCode(items[n])|;
      base <= v && Emitted(buf, base, v, items[..n]) && CodeAt(buf, v, ItemCode(items[n]))
  {
    var n := |items| - 1;
    assert items == items[..n] + [items[n]];
    CodeAppend(items[..n], [items[n]]);
    CodeOne(items[n]);
    CodeAtParts(buf, base, Code(items[..n]), ItemCode(items[n]));
  }

  /** What the code of the last verb tells. */
  lemma VerbAt(buf: seq<int>, v: int, base: nat, ptr: nat, items: seq<Item>)
    requires Verb(buf, v, ptr, items) && Emitted(buf, base, ptr, items) && Shaped(items)
    ensures v != -1 && buf[v] > NOSTR ==> items != [] && Plain(items[|items| - 1])
    ensures items != [] && Plain(items[|items| - 1]) ==>
      var it := items[|items| - 1];
      && base <= v < ptr && CodeAt(buf, v, ItemCode(it)) && Emitted(buf, base, v, items[..|items| - 1]) && buf[v] > NOSTR
      && (it.Star? <==> buf[v] % 2 == 1)
      && (it.Str? <==> buf[v] == NORMC || buf[v] == CINDC)
      && (it.Str? ==> buf[v] == StrOp(it.folded) && buf[v + 1] == LowByte(|it.cs|) && ptr == v + 2 + |it.cs| && buf[ptr - 1] == it.cs[|it.cs| - 1])
  {
    hide Code, CodeAt, Emitted, ItemCode;
    if items != [] && Plain(items[|items| - 1]) {
      var it := items[|items| - 1];
      LastAt(buf, base, ptr, items);
      PlainCode(it);
      CodeAtByte(buf, v, ItemCode(it), 0);
      if it.Str? {
        CodeAtByte(buf, v, ItemCode(it), 1);
        CodeAtByte(buf, v, ItemCode(it), |ItemCode(it)| - 1);
      }
    }
  }

  /** What the code of a plain item shows. */
  lemma PlainCode(it: Item)
    requires Plain(it) && (it.Str? ==> it.cs != []) && (it.One? ==> !it.a.Lit?)
    ensures var s := ItemCode(it);
      && s != [] && s[0] > NOSTR && (it.Star? <==> s[0] % 2 == 1) && (it.Str? <==> s[0] == NORMC || s[0] == CINDC)
      && (it.Str? ==> |s| == 2 + |it.cs| && s[0] == StrOp(it.folded) && s[1] == LowByte(|it.cs|) && s[|s| - 1] == it.cs[|it.cs| - 1])
  {
    hide AtomCode, Bits, LowByte, StrOp;
    match it {
      case Str(cs, folded) => StrVerb(folded);
      case One(a) => AtomVerb(a, 0);
      case Star(a) => AtomVerb(a, STAR);
    }
  }

  lemma StrVerb(folded: bool)
    ensures StrOp(folded) > NOSTR && StrOp(folded) % 2 == 0 && (StrOp(folded) == NORMC || StrOp(folded) == CINDC)
  {}

  /** The verb of an atom is odd if it is starred, and only that of a literal is a string's. */
  lemma AtomVerb(a: Atom, star: int)
    requires star == 0 || star == STAR
    ensures var s := AtomCode(a, star);
      s != [] && s[0] > NOSTR && s[0] % 2 == star && (star == STAR || !a.Lit? ==> s[0] != NORMC && s[0] != CINDC)
  {
    hide Bits;
    var v := match a case Lit(_, folded) => StrOp(folded) case Any => ANYC case In(_, neg) => SetOp(neg) case Back(_) => BACKREF;
    assert AtomCode(a, star)[0] == v + star;
  }

  class Compiler {
    const pattern: seq<Ch>
    const folded: bool
    var REptr: nat
    var REpeekc: int
    const compbuf: array<int>
    var comp_ptr: nat
    var nparens: nat
    const alternates: array<int>
    var alt_p: nat

    /** CaseIgnore is fixed while a pattern is compiled. */
    constructor (pattern: seq<Ch>, folded: bool)
      requires 0 !in pattern
      ensures Valid() && fresh(compbuf) && fresh(alternates)
      ensures this.pattern == pattern && this.folded == folded
    {
      this.pattern, this.folded := pattern, folded;
      REptr, REpeekc, comp_ptr, nparens, alt_p := 0, -1, 0, 0, 0;
      compbuf := new int[COMPSIZE];
      alternates := new int[NALTS];
      new;
    }

    ghost predicate Reading()
      reads this`REptr, this`REpeekc
    {
      0 !in pattern && REptr <= |pattern| && (REpeekc == -1 || (REptr >= 1 && REpeekc == pattern[REptr - 1]))
    }

    ghost function Pos(): nat
      requires Reading()
      reads this`REptr, this`REpeekc
    {
      if REpeekc == -1 then REptr else REptr - 1
    }

    /** What is still to be read. */
    ghost function Unread(): seq<Ch>
      requires Reading()
      reads this`REptr, this`REpeekc
    {
      pattern[Pos()..]
    }

    ghost predicate Sized()
      reads this`comp_ptr, this`alt_p
    {
      compbuf.Length == COMPSIZE && alternates.Length == NALTS && compbuf != alternates && comp_ptr <= COMPSIZE && alt_p <= NALTS
    }

    ghost predicate Valid()
      reads this`REptr, this`REpeekc, this`comp_ptr, this`alt_p
    {
      Reading() && Sized()
    }

    method REgetc() returns (c: int)
      requires Reading()
      modifies this`REptr, this`REpeekc
      ensures Reading() && REpeekc == -1 && -1 <= c < 256
      ensures (c, Unread()) == Next(old(Unread()))
      ensures c == -1 ==> Pos() == old(Pos())
      ensures c != -1 ==> c != 0 && Pos() == old(Pos()) + 1 && pattern[old(Pos())] == c && LastRead(c)
    {
      if REpeekc != -1 {
        c := REpeekc;
        REpeekc := -1;
      } else if REptr < |pattern| {
        c := pattern[REptr];
        REptr := REptr + 1;
      } else {
        c := -1;
      }
    }

    ghost predicate LastRead(c: int)
      reads this`REptr, this`REpeekc
    {
      1 <= REptr <= |pattern| && pattern[REptr - 1] == c
    }

    /** `REpeekc = REgetc()` */
    method Peek() returns (c: int)
      requires Reading() && REpeekc == -1
      modifies this`REptr, this`REpeekc
      ensures Reading() && c == Next(old(Unread())).0 && Unread() == old(Unread()) && Pos() == old(Pos()) && REpeekc == c
    {
      c := REgetc();
      REpeekc := c;
    }

    /** `REpeekc = EOF` */
    method Discard()
      requires Reading() && REpeekc != -1
      modifies this`REpeekc
      ensures Reading() && old(Unread()) != [] && Unread() == old(Unread())[1..] && REpeekc == -1 && Pos() == old(Pos()) + 1
    {
      REpeekc := -1;
    }

    /** `REpeekc = c` for the character read last */
    method Unget(c: Ch)
      requires Reading() && REpeekc == -1 && LastRead(c)
      modifies this`REpeekc
      ensures Reading() && Unread() == [c] + old(Unread())
    {
      REpeekc := c;
    }

    method Put(c: int)
      requires Valid() && comp_ptr < COMPSIZE
      modifies compbuf, this`comp_ptr
      ensures Valid() && comp_ptr == old(comp_ptr) + 1
      ensures compbuf[..] == old(compbuf[..])[old(comp_ptr) := c]
    {
      compbuf[comp_ptr] := c;
      comp_ptr := comp_ptr + 1;
    }

    /** A literal character: it joins the run before it, or starts one. */
    method PutLit(prev: int, c: Ch, ghost base: nat, ghost items: seq<Item>) returns (this_verb: nat)
      requires Valid() && comp_ptr <= COMPEND && Shaped(items)
      requires Emitted(compbuf[..], base, comp_ptr, items) && Verb(compbuf[..], prev, comp_ptr, items)
      modifies compbuf, this`comp_ptr
      ensures Valid() && base <= comp_ptr <= old(comp_ptr) + 3 && Shaped(LitItems(items, c, folded))
      ensures compbuf[..base] == old(compbuf[..base])
      ensures Emitted(compbuf[..], base, comp_ptr, LitItems(items, c, folded))
      ensures Verb(compbuf[..], this_verb, comp_ptr, LitItems(items, c, folded))
    {
      hide Code, CodeAt, Emitted, ItemCode, LitItems, Shaped, Verb;
      ghost var was, at := compbuf[..], comp_ptr;
      VerbAt(was, prev, base, comp_ptr, items);
      VerbRange(was, prev, comp_ptr, items);
      ShapedLit(items, c, folded);
      if prev == -1 || !(compbuf[prev] == NORMC || compbuf[prev] == CINDC) {
        this_verb := comp_ptr;
        Put(StrOp(folded));
        Put(0);
      } else {
        this_verb := prev;
      }
      compbuf[this_verb + 1] := (compbuf[this_verb + 1] + 1) % 256;
      Put(c);
      if this_verb == prev {
        RunEmitted(was, compbuf[..], base, at, prev, items, c, folded);
      } else {
        NewEmitted(was, compbuf[..], base, at, items, c, folded);
      }
    }

    /** A star: it is a literal, or turns the last verb into its starred form. */
    method PutStar(prev: int, ghost base: nat, ghost items: seq<Item>) returns (this_verb: nat)
      requires Valid() && comp_ptr <= COMPEND && Shaped(items)
      requires Emitted(compbuf[..], base, comp_ptr, items) && Verb(compbuf[..], prev, comp_ptr, items)
      modifies compbuf, this`comp_ptr
      ensures Valid() && base <= comp_ptr <= old(comp_ptr) + 3 && Shaped(StarItems(items, folded))
      ensures compbuf[..base] == old(compbuf[..base])
      ensures Emitted(compbuf[..], base, comp_ptr, StarItems(items, folded))
      ensures Verb(compbuf[..], this_verb, comp_ptr, StarItems(items, folded))
    {
      hide Code, CodeAt, Emitted, ItemCode;
      ghost var was := compbuf[..];
      VerbAt(was, prev, base, comp_ptr, items);
      if prev == -1 || compbuf[prev] <= NOSTR || compbuf[prev] % 2 == 1 {
        this_verb := PutLit(prev, ASTERISK, base, items);
        return;
      }
      ghost var n := |items| - 1;
      ghost var it := items[n];
      if compbuf[prev] == NORMC || compbuf[prev] == CINDC {
        this_verb := StarLast(prev, base, items);
      } else {
        this_verb := prev;
        compbuf[this_verb] := compbuf[this_verb] + STAR;
        CodeOne(Star(it.a));
        StarOf(was, compbuf[..], prev, it.a);
        Emit(was, compbuf[..], base, prev, items[..n], [Star(it.a)]);
      }
    }

    /** The star takes the last character off the run before it. */
    method StarLast(prev: nat, ghost base: nat, ghost items: seq<Item>) returns (this_verb: nat)
      requires Valid() && comp_ptr <= COMPEND && Shaped(items)
      requires Emitted(compbuf[..], base, comp_ptr, items) && Verb(compbuf[..], prev, comp_ptr, items)
      requires items != [] && items[|items| - 1].Str?
      modifies compbuf, this`comp_ptr
      ensures Valid() && base <= comp_ptr <= old(comp_ptr) + 1 && Shaped(StarItems(items, folded))
      ensures compbuf[..base] == old(compbuf[..base])
      ensures Emitted(compbuf[..], base, comp_ptr, StarItems(items, folded))
      ensures Verb(compbuf[..], this_verb, comp_ptr, StarItems(items, folded))
    {
      hide Code, CodeAt, Emitted, ItemCode, StarItems, Shaped, Verb, LowByte;
      ghost var was := compbuf[..];
      VerbAt(was, prev, base, comp_ptr, items);
      ShapedStar(items, folded);
      var lastc := compbuf[comp_ptr - 1];
      if compbuf[prev + 1] == 1 {
        this_verb := prev;
      } else {
        compbuf[prev + 1] := (compbuf[prev + 1] - 1) % 256;
        this_verb := comp_ptr - 1;
        compbuf[this_verb] := compbuf[prev];
      }
      comp_ptr := this_verb + 1;
      Put(lastc);
      compbuf[this_verb] := compbuf[this_verb] + STAR;
      StarLastEmitted(was, compbuf[..], base, prev, items, this_verb, folded);
    }

    /** One verb of one byte. */
    method Put1(c: int, ghost it: Item, ghost base: nat, ghost items: seq<Item>)
      requires Valid() && comp_ptr < COMPSIZE && Emitted(compbuf[..], base, comp_ptr, items) && ItemCode(it) == [c]
      requires Plain(it) || c <= NOSTR
      modifies compbuf, this`comp_ptr
      ensures Valid() && comp_ptr == old(comp_ptr) + 1 && compbuf[..base] == old(compbuf[..base])
      ensures Emitted(compbuf[..], base, comp_ptr, items + [it]) && Verb(compbuf[..], old(comp_ptr), comp_ptr, items + [it])
    {
      hide Code;
      ghost var was, at := compbuf[..], comp_ptr;
      Put(c);
      CodeOne(it);
      assert compbuf[at..at + 1] == [c];
      Emit(was, compbuf[..], base, at, items, [it]);
    }

    /** One verb and its operand. */
    method Put2(c: int, d: int, ghost it: Item, ghost base: nat, ghost items: seq<Item>)
      requires Valid() && comp_ptr + 1 < COMPSIZE && Emitted(compbuf[..], base, comp_ptr, items) && ItemCode(it) == [c, d]
      requires Plain(it) || c <= NOSTR
      modifies compbuf, this`comp_ptr
      ensures Valid() && comp_ptr == old(comp_ptr) + 2 && compbuf[..base] == old(compbuf[..base])
      ensures Emitted(compbuf[..], base, comp_ptr, items + [it]) && Verb(compbuf[..], old(comp_ptr), comp_ptr, items + [it])
    {
      hide Code;
      ghost var was, at := compbuf[..], comp_ptr;
      Put(c);
      Put(d);
      CodeOne(it);
      assert compbuf[at..at + 2] == [c, d];
      Emit(was, compbuf[..], base, at, items, [it]);
    }

    method AddMember(c: Ch, ghost m: set<Ch>)
      requires Valid() && CodeAt(compbuf[..], comp_ptr, Bits(m))
      modifies compbuf
      ensures CodeAt(compbuf[..], comp_ptr, Bits(m + {c})) && compbuf[..comp_ptr] == old(compbuf[..comp_ptr])
    {
      hide Bits, SetBit;
      ghost var was := compbuf[..];
      SetBits(m, c);
      CodeAtByte(was, comp_ptr, Bits(m), c / 8);
      compbuf[comp_ptr + c / 8] := SetBit(compbuf[comp_ptr + c / 8], c % 8);
      assert compbuf[comp_ptr..comp_ptr + SETSIZE] == was[comp_ptr..comp_ptr + SETSIZE][c / 8 := SetBit(Bits(m)[c / 8], c % 8)];
    }

    /** The characters from `c` up to but not `hi`. */
    method AddRange(c: Ch, hi: Ch, ghost m: set<Ch>)
      requires Valid() && CodeAt(compbuf[..], comp_ptr, Bits(m))
      modifies compbuf
      ensures CodeAt(compbuf[..], comp_ptr, Bits(m + Range(c, hi))) && compbuf[..comp_ptr] == old(compbuf[..comp_ptr])
    {
      hide Bits, CodeAt;
      var i: int := c;
      ghost var m1 := m;
      while i < hi
        invariant c <= i && (i <= hi || i == c)
        invariant forall x: Ch :: x in m1 <==> x in m || c <= x < i
        invariant CodeAt(compbuf[..], comp_ptr, Bits(m1)) && compbuf[..comp_ptr] == old(compbuf[..comp_ptr])
      {
        AddMember(i, m1);
        m1 := m1 + {i as Ch};
        i := i + 1;
      }
      assert m1 == m + Range(c, hi);
    }

    /** What follows `[`. */
    method PutSet(ghost base: nat, ghost items: seq<Item>) returns (s: Status)
      requires Valid() && comp_ptr <= COMPEND && Emitted(compbuf[..], base, comp_ptr, items)
      modifies compbuf, this`comp_ptr, this`REptr, this`REpeekc
      ensures Valid()
      ensures s == if old(comp_ptr) + 1 + SETSIZE >= COMPEND then TooBig else if ReadSet(old(Unread())).SetBad? then Complained(MissingBracket) else Done
      ensures var r := ReadSet(old(Unread()));
        s == Done ==> r.SetOk? && Unread() == r.rest && base <= comp_ptr <= COMPEND && compbuf[..base] == old(compbuf[..base]) &&
                      Emitted(compbuf[..], base, comp_ptr, items + [One(In(r.m, r.neg))]) &&
                      Verb(compbuf[..], old(comp_ptr), comp_ptr, items + [One(In(r.m, r.neg))])
    {
      assert base <= comp_ptr;
      hide Code, Bits, CodeAt, Emitted, Verb, Reading, Pos, Unread, LastRead, SetMembers, ReadSet, ItemCode;
      ghost var was, at: nat, r := compbuf[..], comp_ptr, ReadSet(Unread());
      var fits, neg, c := SetHead();
      if !fits { return TooBig; }
      ghost var head := compbuf[..at + 1];
      s := Members(neg, c);
      if s == Done {
        comp_ptr := comp_ptr + SETSIZE;
        Prefixes(was, head, compbuf[..], at);
        SetEmitted(was, compbuf[..], base, at, items, r.m, neg);
      }
    }

    /** The verb of a set and an empty bit vector.  A `^` negates the set; the first character of the
        set is read too. */
    method SetHead() returns (fits: bool, neg: bool, c: int)
      requires Valid() && comp_ptr <= COMPEND
      modifies compbuf, this`comp_ptr, this`REptr, this`REpeekc
      ensures Valid() && comp_ptr == old(comp_ptr) + 1
      ensures fits <==> comp_ptr + SETSIZE < COMPEND
      ensures fits ==>
        && REpeekc == -1 && -1 <= c < 256 && ReadSet(old(Unread())) == SetMembers(neg, c, Unread(), {})
        && compbuf[..comp_ptr - 1] == old(compbuf[..comp_ptr])
        && compbuf[comp_ptr - 1] == SetOp(neg) && CodeAt(compbuf[..], comp_ptr, Bits({}))
    {
      hide Bits, CodeAt, SetMembers;
      neg, c := false, -1;
      Put(ONE_OF);
      fits := comp_ptr + SETSIZE < COMPEND;
      if !fits { return; }
      ghost var b0 := compbuf[..comp_ptr];
      ZeroSet();
      assert compbuf[..comp_ptr - 1] == b0[..comp_ptr - 1] && compbuf[comp_ptr - 1] == b0[comp_ptr - 1];
      ghost var b1 := compbuf[..];
      c := REgetc();
      if c == CARET {
        compbuf[comp_ptr - 1] := NONE_OF;
        neg := true;
        c := REgetc();
        CodeAtAfter(b1, compbuf[..], comp_ptr, Bits({}));
      }
    }

    /** byte_zero */
    method ZeroSet()
      requires Valid() && comp_ptr + SETSIZE <= COMPSIZE
      modifies compbuf
      ensures CodeAt(compbuf[..], comp_ptr, Bits({})) && compbuf[..comp_ptr] == old(compbuf[..comp_ptr])
    {
      hide Bits;
      for j := 0 to SETSIZE
        invariant forall k :: comp_ptr <= k < comp_ptr + j ==> compbuf[k] == 0
        invariant compbuf[..comp_ptr] == old(compbuf[..comp_ptr])
      {
        compbuf[comp_ptr + j] := 0;
      }
      BitsNone();
      assert compbuf[comp_ptr..comp_ptr + SETSIZE] == Bits({});
    }

    /** The members of a set; `c0` is the first character read. */
    method Members(neg: bool, c0: int) returns (s: Status)
      requires Valid() && -1 <= c0 < 256 && CodeAt(compbuf[..], comp_ptr, Bits({})) && REpeekc == -1
      modifies compbuf, this`REptr, this`REpeekc
      ensures Valid() && compbuf[..comp_ptr] == old(compbuf[..comp_ptr])
      ensures var r := SetMembers(neg, c0, old(Unread()), {});
        if r.SetBad? then s == Complained(MissingBracket)
        else s == Done && r.neg == neg && Unread() == r.rest && CodeAt(compbuf[..], comp_ptr, Bits(r.m))
    {
      hide Bits, CodeAt, OneMember;
      ghost var r := SetMembers(neg, c0, Unread(), {});
      var c := c0;
      ghost var m: set<Ch> := {};
      while true
        invariant Valid() && -1 <= c < 256 && REpeekc == -1 && r == SetMembers(neg, c, Unread(), m)
        invariant CodeAt(compbuf[..], comp_ptr, Bits(m)) && compbuf[..comp_ptr] == old(compbuf[..comp_ptr])
        decreases |Unread()|, if c == -1 then 0 else 1
      {
        ghost var step := OneMember(c, Unread(), m);
        var ok, c' := Member(c, m);
        if !ok { return Complained(MissingBracket); }
        m := step.m;
        c := c';
        if c == RBRACKET { return Done; }
      }
    }

    /** One element of a set. */
    method Member(c0: int, ghost m: set<Ch>) returns (ok: bool, c: int)
      requires Valid() && -1 <= c0 < 256 && CodeAt(compbuf[..], comp_ptr, Bits(m)) && REpeekc == -1
      modifies compbuf, this`REptr, this`REpeekc
      ensures Valid() && compbuf[..comp_ptr] == old(compbuf[..comp_ptr]) && (ok ==> c0 != -1)
      ensures var r := OneMember(c0, old(Unread()), m);
        if !ok then r.MemberBad?
        else r.MemberOk? && REpeekc == -1 && c == r.c && Unread() == r.rest && CodeAt(compbuf[..], comp_ptr, Bits(r.m)) &&
             -1 <= c < 256 && |r.rest| <= |old(Unread())| && (c != -1 ==> |r.rest| < |old(Unread())|)
    {
      hide Bits, CodeAt, Reading, Pos, Unread, LastRead, MemberFrom;
      c := c0;
      ok := false;
      if c == -1 { return; }
      c := Escaped(c);
      if c == -1 { return; }
      ok, c := MemberOrRange(c, m);
    }

    /** The member `c0`, or a range from `c0` on. */
    method MemberOrRange(c0: Ch, ghost m: set<Ch>) returns (ok: bool, c: int)
      requires Valid() && CodeAt(compbuf[..], comp_ptr, Bits(m)) && REpeekc == -1
      modifies compbuf, this`REptr, this`REpeekc
      ensures Valid() && compbuf[..comp_ptr] == old(compbuf[..comp_ptr])
      ensures var r := MemberFrom(c0, old(Unread()), m);
        if !ok then r.MemberBad?
        else r.MemberOk? && REpeekc == -1 && c == r.c && Unread() == r.rest && CodeAt(compbuf[..], comp_ptr, Bits(r.m)) &&
             -1 <= c < 256 && |r.rest| <= |old(Unread())| && (c != -1 ==> |r.rest| < |old(Unread())|)
    {
      hide Bits, CodeAt, Range, Reading, Pos, Unread, LastRead, Unescaped;
      c := c0;
      ghost var m1 := m;
      var d := Peek();
      if d == MINUS {
        Discard();
        c := REgetc();
        if c == -1 { return false, c; }
        if c == RBRACKET {
          Unget(c);
          c := MINUS;
          AddMember(c0, m1);
          m1 := m1 + {c0};
        } else {
          c := Escaped(c);
          if c == -1 { return false, c; }
          AddRange(c0, c, m1);
          m1 := m1 + Range(c0, c);
        }
      }
      AddMember(c, m1);
      c := REgetc();
      ok := true;
    }

    /** A backslash in a set stands for the character behind it. */
    method Escaped(c0: int) returns (c: int)
      requires Reading() && 0 <= c0 < 256 && REpeekc == -1
      modifies this`REptr, this`REpeekc
      ensures Reading() && REpeekc == -1 && -1 <= c < 256
      ensures (c, Unread()) == Unescaped(c0, old(Unread())) && |Unread()| <= |old(Unread())|
    {
      c := c0;
      if c == BACKSLASH { c := REgetc(); }
    }

    /** Where the alternatives of the outer level start; the last one is being written. */
    ghost predicate Outer(kind: Kind, cur: St, base: nat)
      requires Sized() && base <= COMPSIZE
      reads this`comp_ptr, this`alt_p, compbuf, alternates
    {
      if kind.IN_CB? then cur.done == []
      else
        && cur.items != [] && cur.items[0] == Open(0) && base == Total(cur.done)
        && alt_p == |cur.done| + 1 < NALTS && alternates[|cur.done|] == base
        && forall k :: 0 <= k < |cur.done| ==> alternates[k] >= 0 && Compiled(compbuf[..base], alternates[k], cur.done[k])
    }

    /** The compiler's variables agree with the state `cur` of reading a level. */
    ghost predicate State(kind: Kind, parens: seq<nat>, omax: int, cur: St, base: nat)
      reads this`comp_ptr, this`nparens, this`alt_p, compbuf, alternates
    {
      && Sized() && parens == cur.open && nparens == cur.nparens && omax == cur.omax && |parens| <= nparens <= NPAR
      && Shaped(cur.items) && base <= comp_ptr && Emitted(compbuf[..], base, comp_ptr, cur.items) && Outer(kind, cur, base)
    }

    /** `c` has been read behind a backslash; `s` was the text from it on. */
    method Escape(kind: Kind, prev: int, parens: seq<nat>, omax: int, c: int, ghost s: seq<Ch>, ghost base: nat, ghost cur: St)
      returns (w: Went, this_verb: int, parens': seq<nat>, omax': int, ghost base': nat, ghost cur': St)
      requires Valid() && State(kind, parens, omax, cur, base) && Verb(compbuf[..], prev, comp_ptr, cur.items) && comp_ptr <= COMPEND
      requires -1 <= c < 256 && c != LBRACE && (c, Unread()) == Next(s)
      modifies compbuf, alternates, this`comp_ptr, this`nparens, this`alt_p
      ensures w.On? ==>
        && EscapeStep(s, kind, folded, cur) == Go(Unread(), cur') && State(kind, parens', omax', cur', base')
        && Verb(compbuf[..], this_verb, comp_ptr, cur'.items) && base <= base' && compbuf[..base] == old(compbuf[..base])
        && (comp_ptr <= old(comp_ptr) + 3 || (c == BAR && comp_ptr <= old(comp_ptr) + 5))
        && (if c == BAR then !kind.IN_CB? && comp_ptr == base' + 2 else base' == base)
      ensures w.Left? ==>
        && kind.IN_CB? && EscapeStep(s, kind, folded, cur) == Stop(EndLevel(cur, kind, Unread(), w.closed, false))
        && State(kind, parens, omax, cur, base) && compbuf[..] == old(compbuf[..]) && comp_ptr == old(comp_ptr)
        && parens' == parens && omax' == omax && base' == base && cur' == cur
      ensures kind.IN_CB? ==> alternates[..] == old(alternates[..]) && alt_p == old(alt_p)
      ensures Valid()
      ensures w.Failed? ==> w.s.Complained? && EscapeStep(s, kind, folded, cur) == Stop(Bad(w.s.e))
    {
      hide Code, Emitted, CodeAt, Verb, Compiled, Reading, Pos, Unread, ItemCode, LitItems, StarItems;
      w, this_verb, parens', omax', base', cur' := On, comp_ptr, parens, omax, base, cur;
      if c == -1 {
        w := Failed(Complained(PrematureEnd));
      } else if c == RBRACE {
        w := if kind.IN_CB? then Left(true) else Failed(Complained(UnexpectedCb));
      } else if c == BAR {
        if kind.IN_CB? {
          w := Left(false);
        } else {
          w, parens', omax', base', cur' := Alternative(kind, parens, omax, base, cur);
        }
      } else {
        w, this_verb, parens', cur' := EscapeItem(kind, prev, parens, omax, c, s, base, cur);
      }
    }

    /** A parenthesis, opened or closed. */
    method Paren(ghost kind: Kind, parens: seq<nat>, ghost omax: int, c: int, ghost s: seq<Ch>, ghost base: nat, ghost cur: St)
      returns (w: Went, this_verb: int, parens': seq<nat>, ghost cur': St)
      requires Valid() && State(kind, parens, omax, cur, base) && comp_ptr <= COMPEND
      requires (c == LPAREN || c == RPAREN) && (c, Unread()) == Next(s)
      modifies compbuf, this`comp_ptr, this`nparens
      ensures w.On? ==>
        && EscapeStep(s, kind, folded, cur) == Go(Unread(), cur') && State(kind, parens', omax, cur', base)
        && Verb(compbuf[..], this_verb, comp_ptr, cur'.items) && compbuf[..base] == old(compbuf[..base])
        && comp_ptr <= old(comp_ptr) + 3
      ensures !w.Left?
      ensures Valid()
      ensures w.Failed? ==> w.s.Complained? && EscapeStep(s, kind, folded, cur) == Stop(Bad(w.s.e))
    {
      hide Code, Emitted, CodeAt, Verb, Compiled, Reading, Pos, Unread, ItemCode, LitItems, StarItems, Shaped, Total;
      w, this_verb, parens', cur' := On, comp_ptr, parens, cur;
      ShapedMore(cur.items);
      if c == LPAREN {
        if nparens >= NPAR { return Failed(Complained(TooManyOpen)), this_verb, parens', cur'; }
        Put2Codes(Open(nparens));
        Put2(OPENP, nparens, Open(nparens), base, cur.items);
        parens' := parens + [nparens];
        cur' := AddItem(cur, Open(nparens)).(open := cur.open + [nparens], nparens := nparens + 1);
        nparens := nparens + 1;
      } else {
        if |parens| == 0 { return Failed(Complained(TooManyClose)), this_verb, parens', cur'; }
        var top := parens[|parens| - 1];
        Put2Codes(Close(top));
        Put2(CLOSEP, top, Close(top), base, cur.items);
        parens' := parens[..|parens| - 1];
        cur' := AddItem(cur, Close(top)).(open := parens');
      }
    }

    /** An escaped character that adds an item. */
    method EscapeItem(ghost kind: Kind, prev: int, parens: seq<nat>, ghost omax: int, c: int, ghost s: seq<Ch>, ghost base: nat, ghost cur: St)
      returns (w: Went, this_verb: int, parens': seq<nat>, ghost cur': St)
      requires Valid() && State(kind, parens, omax, cur, base) && Verb(compbuf[..], prev, comp_ptr, cur.items) && comp_ptr <= COMPEND
      requires 0 <= c < 256 && c != LBRACE && c != RBRACE && c != BAR && (c, Unread()) == Next(s)
      modifies compbuf, this`comp_ptr, this`nparens
      ensures w.On? ==>
        && EscapeStep(s, kind, folded, cur) == Go(Unread(), cur') && State(kind, parens', omax, cur', base)
        && Verb(compbuf[..], this_verb, comp_ptr, cur'.items) && compbuf[..base] == old(compbuf[..base])
        && comp_ptr <= old(comp_ptr) + 3
      ensures !w.Left?
      ensures Valid()
      ensures w.Failed? ==> w.s.Complained? && EscapeStep(s, kind, folded, cur) == Stop(Bad(w.s.e))
    {
      hide Code, Emitted, CodeAt, Verb, Compiled, Reading, Pos, Unread, ItemCode, LitItems, StarItems, Shaped, Total;
      w, this_verb, parens', cur' := On, comp_ptr, parens, cur;
      ShapedMore(cur.items);
      if c == LPAREN || c == RPAREN {
        w, this_verb, parens', cur' := Paren(kind, parens, omax, c, s, base, cur);
      } else if DIGIT0 < c <= DIGIT0 + 9 {
        Put2Codes(One(Back(c - DIGIT0)));
        Put2(BACKREF, c - DIGIT0, One(Back(c - DIGIT0)), base, cur.items);
        cur' := AddItem(cur, One(Back(c - DIGIT0)));
      } else if c == LESS {
        Put1Codes(Bow);
        Put1(AT_BOW, Bow, base, cur.items);
        cur' := AddItem(cur, Bow);
      } else if c == GREATER {
        Put1Codes(Eow);
        Put1(AT_EOW, Eow, base, cur.items);
        cur' := AddItem(cur, Eow);
      } else {
        LitKeepsFirst(cur.items, c, folded);
        this_verb := PutLit(prev, c, base, cur.items);
        cur' := AddLit(cur, c, folded);
      }
    }

    /** `\|` at the outer level: the alternative is closed, and the next one is begun. */
    method Alternative(ghost kind: Kind, parens: seq<nat>, omax: int, ghost base: nat, ghost cur: St)
      returns (w: Went, parens': seq<nat>, omax': int, ghost base': nat, ghost cur': St)
      requires !kind.IN_CB? && Valid() && State(kind, parens, omax, cur, base) && comp_ptr <= COMPEND
      modifies compbuf, alternates, this`comp_ptr, this`nparens, this`alt_p
      ensures w.On? ==>
        && NextAlternative(cur).1 && cur' == NextAlternative(cur).2
        && State(kind, parens', omax', cur', base') && base <= base'
        && compbuf[..base] == old(compbuf[..base]) && comp_ptr == base' + 2 <= old(comp_ptr) + 5
        && Verb(compbuf[..], old(comp_ptr), comp_ptr, cur'.items)
      ensures Valid()
      ensures w.On? || (w.Failed? && w.s.Complained? && !NextAlternative(cur).1 && w.s.e == NextAlternative(cur).0)
    {
      hide Code, Emitted, CodeAt, Compiled, Reading, ItemCode, Total, Ptr;
      w, parens', omax', base', cur' := On, parens, omax, base, cur;
      PtrIs(kind, parens, omax, cur, base);
      EndOrNext(kind, cur);
      if alt_p >= NALTS - 1 { return Failed(Complained(TooManyAlternates)), parens, omax, base, cur; }
      ghost var was, at: nat := compbuf[..], comp_ptr;
      var top := CloseAlternative(parens, base, cur.items);
      if |parens| != 1 { return Failed(Complained(UnmatchedOpen)), parens, omax, base, cur; }
      if omax == -1 { omax' := nparens; }
      if omax' != nparens { return Failed(Complained(UnequalParens)), parens, omax, base, cur; }
      ghost var closed := compbuf[..comp_ptr];
      DoneStill(was, closed, base, alternates[..], cur.done);
      alternates[alt_p] := comp_ptr;
      alt_p := alt_p + 1;
      base' := comp_ptr;
      cur' := NextAlternative(cur).2;
      parens' := BeginNext(kind, omax', cur');
      assert compbuf[..base] == compbuf[..base'][..base] == closed[..base];
      assert compbuf[at] == compbuf[..base'][at] == closed[at];
    }

    /** The implied parenthesis around the next alternative; its start has been noted. */
    method BeginNext(ghost kind: Kind, ghost omax: int, ghost cur: St) returns (parens: seq<nat>)
      requires Valid() && comp_ptr + 2 <= COMPSIZE && !kind.IN_CB?
      requires cur == St(cur.done, [Open(0)], [0], 1, omax) && comp_ptr == Total(cur.done)
      requires alt_p == |cur.done| + 1 < NALTS && alternates[|cur.done|] == comp_ptr
      requires forall k :: 0 <= k < |cur.done| ==> alternates[k] >= 0 && Compiled(compbuf[..comp_ptr], alternates[k], cur.done[k])
      modifies compbuf, this`comp_ptr, this`nparens
      ensures Valid() && State(kind, parens, omax, cur, old(comp_ptr)) && comp_ptr == old(comp_ptr) + 2
      ensures compbuf[..old(comp_ptr)] == old(compbuf[..comp_ptr]) && Verb(compbuf[..], old(comp_ptr), comp_ptr, cur.items)
    {
      hide Code, Emitted, CodeAt, Compiled, Reading, ItemCode, Total;
      ghost var base := comp_ptr;
      nparens := 0;
      EmitNone(compbuf[..], base);
      Put2Codes(Open(0));
      Put2(OPENP, nparens, Open(nparens), base, []);
      nparens := nparens + 1;
      parens := [0];
      assert [] + [Open(0)] == [Open(0)];
    }

    /** The implied group is closed, and the pattern ended. */
    method CloseAlternative(parens: seq<nat>, ghost base: nat, ghost items: seq<Item>) returns (top: nat)
      requires Valid() && comp_ptr + 3 <= COMPSIZE && Emitted(compbuf[..], base, comp_ptr, items)
      modifies compbuf, this`comp_ptr
      ensures Valid() && comp_ptr == old(comp_ptr) + 3 && base <= old(comp_ptr)
      ensures Compiled(compbuf[..comp_ptr], base, items + [Close(top)]) && compbuf[old(comp_ptr)] <= NOSTR
      ensures compbuf[..comp_ptr][..base] == old(compbuf[..base])
      ensures parens != [] ==> top == parens[|parens| - 1]
    {
      hide Code, Emitted, CodeAt, Compiled;
      ghost var was, at: nat := compbuf[..], comp_ptr;
      // with no group open this is the word before the stack; a complaint follows then
      top := if |parens| > 0 then parens[|parens| - 1] else 0;
      Put(CLOSEP);
      Put(top);
      Put(EOP);
      ThreePut(was, compbuf[..], at, CLOSEP, top, EOP);
      AltClosed(was, compbuf[..], base, at, items, top);
    }

    /** `.`, a set or a star; `s` was the text from it on. */
    method Special(ghost kind: Kind, prev: int, c: Ch, ghost parens: seq<nat>, ghost omax: int, ghost s: seq<Ch>, ghost base: nat, ghost cur: St)
      returns (st: Status, this_verb: int, ghost cur': St)
      requires Valid() && State(kind, parens, omax, cur, base) && Verb(compbuf[..], prev, comp_ptr, cur.items) && comp_ptr <= COMPEND
      requires !kind.NORM? && (c == DOT || c == LBRACKET || c == ASTERISK) && s == [c] + Unread() && REpeekc == -1
      modifies compbuf, this`comp_ptr, this`REptr, this`REpeekc
      ensures Valid()
      ensures st == Done ==>
        && State(kind, parens, omax, cur', base) && OneStep(s, kind, folded, cur) == Go(Unread(), cur')
        && Verb(compbuf[..], this_verb, comp_ptr, cur'.items) && compbuf[..base] == old(compbuf[..base])
        && comp_ptr <= COMPEND + 3
      ensures st.Complained? ==> OneStep(s, kind, folded, cur) == Stop(Bad(st.e))
      ensures st == TooBig <==> SetTooBig(s, kind, old(comp_ptr))
      ensures st != Overrun
    {
      hide Code, Emitted, CodeAt, Verb, Compiled, Reading, Pos, Unread, LastRead, ItemCode, LitItems, StarItems, ReadSet, Shaped, EscapeStep, Total;
      st, this_verb, cur' := Done, comp_ptr, cur;
      ShapedMore(cur.items);
      assert s[0] == c && s[1..] == Unread();
      if c == DOT {
        Put1Codes(One(Any));
        Put1(ANYC, One(Any), base, cur.items);
        cur' := AddItem(cur, One(Any));
      } else if c == LBRACKET {
        ghost var r := ReadSet(Unread());
        st := PutSet(base, cur.items);
        if st == Done { cur' := AddItem(cur, One(In(r.m, r.neg))); }
      } else {
        StarKeepsFirst(cur.items, folded);
        this_verb := PutStar(prev, base, cur.items);
        cur' := AddStar(cur, folded);
      }
    }

    /** An element that does not start with a backslash; `s` was the text from it on. */
    method Element(kind: Kind, prev: int, c: Ch, start_p: nat, ghost parens: seq<nat>, ghost omax: int, ghost s: seq<Ch>, ghost base: nat, ghost cur: St)
      returns (st: Status, this_verb: int, ghost cur': St)
      requires Valid() && State(kind, parens, omax, cur, base) && Verb(compbuf[..], prev, comp_ptr, cur.items) && comp_ptr <= COMPEND
      requires c != BACKSLASH && s == [c] + Unread() && start_p == base + StartCode(kind) && REpeekc == -1
      modifies compbuf, this`comp_ptr, this`REptr, this`REpeekc
      ensures Valid()
      ensures st == Done ==>
        && State(kind, parens, omax, cur', base) && OneStep(s, kind, folded, cur) == Go(Unread(), cur')
        && Verb(compbuf[..], this_verb, comp_ptr, cur'.items) && compbuf[..base] == old(compbuf[..base])
        && comp_ptr <= COMPEND + 3
      ensures st.Complained? ==> OneStep(s, kind, folded, cur) == Stop(Bad(st.e))
      ensures st == TooBig <==> SetTooBig(s, kind, old(comp_ptr))
      ensures st != Overrun
    {
      hide Code, Emitted, CodeAt, Verb, Compiled, Reading, Pos, Unread, LastRead, ItemCode, LitItems, StarItems, ReadSet, Shaped,
        EscapeStep, Range, Made, Balanced, Total;
      st, this_verb, cur' := Done, comp_ptr, cur;
      ShapedLit(cur.items, c, folded);
      ShapedMore(cur.items);
      LitKeepsFirst(cur.items, c, folded);
      assert s[0] == c && s[1..] == Unread();
      var defchar := false;
      if kind.NORM? && c != CARET && c != DOLLAR {
        defchar := true;
      } else if c == CARET {
        AtStart(compbuf[..], base, comp_ptr, cur.items, kind);
        if comp_ptr == start_p {
          Put1Codes(Bol);
          Put1(AT_BOL, Bol, base, cur.items);
          cur' := AddItem(cur, Bol);
        } else {
          defchar := true;
        }
      } else if c == DOLLAR {
        var d := Peek();
        if d != -1 && d != BACKSLASH {
          defchar := true;
        } else {
          Put1Codes(Eol);
          Put1(AT_EOL, Eol, base, cur.items);
          cur' := AddItem(cur, Eol);
        }
      } else if c == DOT || c == LBRACKET || c == ASTERISK {
        st, this_verb, cur' := Special(kind, prev, c, parens, omax, s, base, cur);
      } else {
        defchar := true;
      }
      if defchar {
        this_verb := PutLit(prev, c, base, cur.items);
        cur' := AddLit(cur, c, folded);
      }
    }

    /** The code of a level, for the caller: one alternative within `\{ \}`, or all of them. */
    ghost predicate Level(kind: Kind, o: Outcome, start: nat)
      requires Valid()
      reads this, compbuf, alternates
    {
      && o.Parsed? && nparens == o.nparens <= NPAR && start <= comp_ptr
      && if kind.IN_CB? then |o.alts| == 1 && Compiled(compbuf[..comp_ptr], start, o.alts[0]) && comp_ptr == start + |Code(o.alts[0])| + 1 <= COMPEND + 1
         else |o.alts| == alt_p < NALTS && forall k :: 0 <= k < alt_p ==> alternates[k] >= 0 && Compiled(compbuf[..comp_ptr], alternates[k], o.alts[k])
    }

    /** The end of an alternative within `\{ \}`. */
    method EndCb(parens: seq<nat>, omax: int, closed: bool, eof: bool, ghost base: nat, ghost cur: St) returns (st: Status, ghost o: Outcome)
      requires Valid() && State(IN_CB, parens, omax, cur, base) && (eof || comp_ptr <= COMPEND)
      modifies compbuf, this`comp_ptr
      ensures Valid() && o == EndLevel(cur, IN_CB, Unread(), closed, eof) && st == Verdict(o)
      ensures st == Done ==> Level(IN_CB, o, base) && o.closed == closed && o.rest == Unread() && compbuf[..base] == old(compbuf[..base])
    {
      hide Code, Reading, Pos, Unread;
      o := EndLevel(cur, IN_CB, Unread(), closed, eof);
      if parens != [] { return Complained(UnmatchedOpen), o; }
      if eof { return Complained(MissingCb), o; }
      ghost var was, at := compbuf[..], comp_ptr;
      Put(EOP);
      Ended(was, compbuf[..], base, at, cur.items);
      if omax != -1 && omax != nparens { return Complained(UnequalParens), o; }
      st := Done;
    }

    /** The end of the last alternative of the outer level. */
    method EndOuter(kind: Kind, parens: seq<nat>, omax: int, ghost base: nat, ghost cur: St) returns (st: Status, ghost o: Outcome)
      requires !kind.IN_CB? && Valid() && State(kind, parens, omax, cur, base)
      modifies compbuf, this`comp_ptr
      ensures Valid() && o == EndLevel(cur, kind, [], false, true)
      ensures st == if old(comp_ptr) + 3 > COMPSIZE then Overrun else Verdict(o)
      ensures st == Done ==> Level(kind, o, 0) && !o.closed && o.rest == []
    {
      hide Code, Reading, Pos, Unread, Compiled, Emitted, CodeAt;
      o := EndLevel(cur, kind, [], false, true);
      if comp_ptr + 3 > COMPSIZE { return Overrun, o; }
      ghost var was := compbuf[..];
      var top := CloseAlternative(parens, base, cur.items);
      if |parens| != 1 { return Complained(UnmatchedOpen), o; }
      if omax != -1 && omax != nparens { return Complained(UnequalParens), o; }
      DoneStill(was, compbuf[..comp_ptr], base, alternates[..], cur.done);
      st := Done;
    }

    /** do_comp; at the outer level the alternatives' table must be ready for the first. */
    method do_comp(kind: Kind) returns (st: Status, done_cb: bool, ghost o: Outcome)
      requires Valid() && nparens <= NPAR
      requires if kind.IN_CB? then comp_ptr <= COMPSIZE - 2 else comp_ptr == 0 && nparens == 0 && alt_p == 1 && alternates[0] == 0
      modifies this`REptr, this`REpeekc, this`comp_ptr, this`nparens, this`alt_p, compbuf, alternates
      ensures Valid() && o == ParseSeq(old(Unread()), kind, folded, Start(kind, old(nparens)))
      ensures st == Done ==>
        && Level(kind, o, old(comp_ptr)) && done_cb == o.closed && Unread() == o.rest
        && compbuf[..old(comp_ptr)] == old(compbuf[..comp_ptr])
      ensures st.Complained? ==> o == Bad(st.e)
      ensures st == Fate(old(Unread()), kind, folded, Start(kind, old(nparens)), old(comp_ptr))
      ensures kind.IN_CB? ==> alternates[..] == old(alternates[..]) && alt_p == old(alt_p)
      decreases |Unread()|, 0
    {
      hide Code, Emitted, CodeAt, Verb, Compiled, Pos, Unread, LastRead, ItemCode, Shaped, OneStep, EscapeStep, EndLevel,
        ParseSeq, ParseBranches, Fate, Ptr, State, Level, Outer;
      ghost var s0, base0: nat := Unread(), comp_ptr;
      ghost var base: nat, cur := comp_ptr, Start(kind, nparens);
      var parens: seq<nat>, omax, this_verb := [], -1, -1;
      parens := Begin(kind);
      var start_p := comp_ptr;
      o := ParseSeq(s0, kind, folded, cur);
      ghost var fate := Fate(s0, kind, folded, cur, base0);
      done_cb := false;
      while true
        invariant Valid() && State(kind, parens, omax, cur, base) && Verb(compbuf[..], this_verb, comp_ptr, cur.items)
        invariant o == ParseSeq(Unread(), kind, folded, cur) && fate == Fate(Unread(), kind, folded, cur, base0)
        invariant start_p == base + StartCode(kind)
        invariant base0 <= base && compbuf[..base0] == old(compbuf[..comp_ptr])
        invariant kind.IN_CB? ==> base == base0 && alternates[..] == old(alternates[..]) && alt_p == old(alt_p)
        invariant !kind.IN_CB? ==> base0 == 0
        decreases |Unread()|
      {
        ghost var s := Unread();
        ParseStep(s, kind, folded, cur);
        FateStep(s, kind, folded, cur, base0);
        PtrIs(kind, parens, omax, cur, base);
        var c := REgetc();
        if c == -1 {
          if kind.IN_CB? {
            st, o := EndCb(parens, omax, false, true, base, cur);
          } else {
            st, o := EndOuter(kind, parens, omax, base, cur);
          }
          return;
        }
        var w: Went;
        w, this_verb, parens, omax, start_p, base, cur := Turn(kind, this_verb, parens, omax, c, start_p, s, base, cur);
        match w {
          case On =>
          case Left(closed) =>
            st, o := EndCb(parens, omax, closed, false, base, cur);
            done_cb := closed;
            return;
          case Failed(s) => return s, false, o;
        }
      }
    }

    /** Where a level starts whose last alternative starts at `base`. */
    ghost function StartOf(kind: Kind, base: nat): nat { if kind.IN_CB? then base else 0 }

    lemma PtrIs(kind: Kind, parens: seq<nat>, omax: int, cur: St, base: nat)
      requires Valid() && State(kind, parens, omax, cur, base)
      ensures Ptr(cur, StartOf(kind, base)) == comp_ptr
    {
      hide Code, CodeAt, Compiled, Reading, Shaped;
    }

    /** One element of a pattern; `c` has been read, and `s` was the text from it on. */
    method Turn(kind: Kind, prev: int, parens: seq<nat>, omax: int, c: Ch, start_p: nat, ghost s: seq<Ch>, ghost base: nat, ghost cur: St)
      returns (w: Went, this_verb: int, parens': seq<nat>, omax': int, start_p': nat, ghost base': nat, ghost cur': St)
      requires Valid() && State(kind, parens, omax, cur, base) && Verb(compbuf[..], prev, comp_ptr, cur.items)
      requires s == [c] + Unread() && start_p == base + StartCode(kind) && REpeekc == -1 && Pos() >= 1 && pattern[Pos() - 1] == c
      modifies this`REptr, this`REpeekc, this`comp_ptr, this`nparens, this`alt_p, compbuf, alternates
      ensures Valid()
      ensures w.On? ==>
        && |Unread()| < |s|
        && ParseSeq(s, kind, folded, cur) == ParseSeq(Unread(), kind, folded, cur') && State(kind, parens', omax', cur', base')
        && Verb(compbuf[..], this_verb, comp_ptr, cur'.items) && base <= base' && compbuf[..base] == old(compbuf[..base])
        && start_p' == base' + StartCode(kind) && (kind.IN_CB? ==> base' == base)
        && Fate(s, kind, folded, cur, StartOf(kind, base)) == Fate(Unread(), kind, folded, cur', StartOf(kind, base))
      ensures w.Left? ==>
        && kind.IN_CB? && ParseSeq(s, kind, folded, cur) == EndLevel(cur', kind, Unread(), w.closed, false)
        && Fate(s, kind, folded, cur, StartOf(kind, base)) == Verdict(EndLevel(cur', kind, Unread(), w.closed, false))
        && State(kind, parens', omax', cur', base') && base' == base && compbuf[..base] == old(compbuf[..base]) && comp_ptr <= COMPEND
      ensures w.Failed? ==> w.s == Fate(s, kind, folded, cur, StartOf(kind, base)) && w.s != Done
      ensures w.Failed? && w.s.Complained? ==> ParseSeq(s, kind, folded, cur) == Bad(w.s.e)
      ensures kind.IN_CB? ==> alternates[..] == old(alternates[..]) && alt_p == old(alt_p)
      decreases |Unread()|, 4
    {
      hide Code, Emitted, CodeAt, Verb, Compiled, Unread, LastRead, ItemCode, Shaped, OneStep, EscapeStep, EndLevel,
        ParseSeq, ParseBranches, Fate, BranchesFate, Ptr, WithAlt, Outer;
      w, this_verb, parens', omax', start_p', base', cur' := On, prev, parens, omax, start_p, base, cur;
      assert s[0] == c && s[1..] == Unread();
      ParseStep(s, kind, folded, cur);
      FateStep(s, kind, folded, cur, StartOf(kind, base));
      PtrIs(kind, parens, omax, cur, base);
      if comp_ptr > COMPEND { return Failed(TooBig), prev, parens, omax, start_p, base, cur; }
      var st;
      if c == BACKSLASH {
        var d := REgetc();
        if d == LBRACE {
          assert s[2..] == s[1..][1..];
          ghost var b;
          st, this_verb, b, cur' := Curly(kind, parens, omax, base, cur);
          w := if st == Done then On else Failed(st);
        } else {
          w, this_verb, parens', omax', base', cur' := Escape(kind, prev, parens, omax, d, s[1..], base, cur);
          if d == BAR { start_p' := comp_ptr; }
        }
      } else {
        st, this_verb, cur' := Element(kind, prev, c, start_p, parens, omax, s, base, cur);
        w := if st == Done then On else Failed(st);
      }
    }

    /** The implied parenthesis around an alternative of the outer level. */
    method Begin(kind: Kind) returns (parens: seq<nat>)
      requires Valid() && nparens <= NPAR
      requires if kind.IN_CB? then comp_ptr <= COMPSIZE - 2 else comp_ptr == 0 && nparens == 0 && alt_p == 1 && alternates[0] == 0
      modifies compbuf, this`comp_ptr, this`nparens
      ensures Valid() && State(kind, parens, -1, Start(kind, old(nparens)), old(comp_ptr))
      ensures Verb(compbuf[..], -1, comp_ptr, Start(kind, old(nparens)).items)
      ensures compbuf[..old(comp_ptr)] == old(compbuf[..comp_ptr]) && comp_ptr == old(comp_ptr) + StartCode(kind)
    {
      hide Code, Emitted, CodeAt;
      parens := [];
      EmitNone(compbuf[..], comp_ptr);
      if !kind.IN_CB? {
        Put2Codes(Open(nparens));
        Put2(OPENP, nparens, Open(nparens), 0, []);
        parens := [nparens];
        nparens := nparens + 1;
        assert [] + [Open(0)] == [Open(0)];
      }
    }

    /** `\{`: the verb, and then the branches. */
    method Curly(ghost kind: Kind, ghost parens: seq<nat>, ghost omax: int, ghost base: nat, ghost cur: St)
      returns (st: Status, this_verb: int, ghost b: BOutcome, ghost cur': St)
      requires Valid() && State(kind, parens, omax, cur, base) && comp_ptr <= COMPEND
      modifies this`REptr, this`REpeekc, this`comp_ptr, this`nparens, this`alt_p, compbuf, alternates
      ensures Valid() && b == ParseBranches(old(Unread()), folded, cur.nparens, -1, [])
      ensures st == Done ==>
        && b.BParsed? && Unread() == b.rest
        && cur' == WithAlt(cur, b) && State(kind, parens, omax, cur', base)
        && Verb(compbuf[..], this_verb, comp_ptr, cur'.items) && compbuf[..base] == old(compbuf[..base]) && comp_ptr <= COMPEND + 3
      ensures st.Complained? ==> b == BBad(st.e)
      ensures st == BranchesFate(old(Unread()), folded, cur.nparens, -1, old(comp_ptr) + 2)
      ensures alternates[..] == old(alternates[..]) && alt_p == old(alt_p)
      decreases |Unread()|, 3
    {
      hide Code, Emitted, CodeAt, Compiled, Pos, Unread, ItemCode, Shaped, ParseBranches, BranchesFate;
      ghost var was, at := compbuf[..], comp_ptr;
      this_verb := comp_ptr;
      st, b := DoBranches();
      cur' := cur;
      if st == Done {
        ghost var it := Alt(ToBranches(b.all));
        cur' := WithAlt(cur, b);
        ShapedMore(cur.items);
        AltEmitted(was, compbuf[..], base, at, cur.items, it);
      }
    }

    method DoBranches() returns (st: Status, ghost b: BOutcome)
      requires Valid() && comp_ptr <= COMPEND && nparens <= NPAR
      modifies this`REptr, this`REpeekc, this`comp_ptr, this`nparens, this`alt_p, compbuf, alternates
      ensures Valid() && b == ParseBranches(old(Unread()), folded, old(nparens), -1, [])
      ensures st == Done ==>
        && b.BParsed? && Unread() == b.rest && old(nparens) <= nparens == b.nparens <= NPAR
        && compbuf[..old(comp_ptr)] == old(compbuf[..comp_ptr]) && comp_ptr <= COMPEND + 1
        && CodeAt(compbuf[..], old(comp_ptr), ItemCode(Alt(ToBranches(b.all)))) && comp_ptr == old(comp_ptr) + |ItemCode(Alt(ToBranches(b.all)))|
      ensures st.Complained? ==> b == BBad(st.e)
      ensures st == BranchesFate(old(Unread()), folded, old(nparens), -1, old(comp_ptr) + 2)
      ensures alternates[..] == old(alternates[..]) && alt_p == old(alt_p)
      decreases |Unread()|, 2
    {
      hide Code, CodeAt, Compiled, Reading, Pos, Unread, ParseSeq, ParseBranches, BranchesAt, ItemCode, Fate, BranchesFate, Total;
      ghost var s0, v, was := Unread(), comp_ptr, compbuf[..];
      Put(CURLYB);
      var altcntp := comp_ptr;
      Put(0);
      var init, max := nparens, -1;
      ghost var acc: seq<seq<Item>> := [];
      NoBranches(compbuf[..], v);
      b := ParseBranches(s0, folded, init, -1, []);
      ghost var fate := BranchesFate(s0, folded, init, -1, comp_ptr);
      while true
        invariant Valid() && comp_ptr <= COMPSIZE - 4 && -1 <= max <= NPAR && |Unread()| <= |s0|
        invariant b == ParseBranches(Unread(), folded, init, max, acc) && fate == BranchesFate(Unread(), folded, init, max, comp_ptr)
        invariant BranchesAt(compbuf[..], v, comp_ptr, acc)
        invariant compbuf[..v] == was[..v] && alternates[..] == old(alternates[..]) && alt_p == old(alt_p)
        decreases |Unread()|
      {
        BranchesStep(Unread(), folded, init, max, acc);
        BranchesFateStep(Unread(), folded, init, max, comp_ptr);
        var done: bool;
        ghost var o: Outcome;
        st, done, max, o := Branch(altcntp, init, max, acc);
        if st != Done { return; }
        acc := acc + [o.alts[0]];
        assert o.alts == [o.alts[0]];
        if done {
          AltDone(compbuf[..], v, comp_ptr, acc);
          return;
        }
      }
    }

    /** One branch: room for its length, its code, and then its length and the count are patched. */
    method Branch(altcntp: nat, init: nat, max0: int, ghost acc: seq<seq<Item>>)
      returns (st: Status, done: bool, max: int, ghost o: Outcome)
      requires Valid() && altcntp >= 1 && BranchesAt(compbuf[..], altcntp - 1, comp_ptr, acc) && comp_ptr <= COMPSIZE - 4
      requires init <= NPAR && -1 <= max0 <= NPAR
      modifies this`REptr, this`REpeekc, this`comp_ptr, this`nparens, this`alt_p, compbuf, alternates
      ensures Valid() && o == ParseSeq(old(Unread()), IN_CB, folded, Start(IN_CB, init))
      ensures st == Done ==>
        && o.Parsed? && |o.alts| == 1 && (max0 == -1 || max0 == o.nparens) && done == o.closed && Unread() == o.rest
        && max == nparens == o.nparens <= NPAR && comp_ptr <= COMPEND + 1
        && BranchesAt(compbuf[..], altcntp - 1, comp_ptr, acc + [o.alts[0]]) && compbuf[..altcntp - 1] == old(compbuf[..altcntp - 1])
        && comp_ptr == old(comp_ptr) + ALT_LEN_LEN + Total(o.alts)
      ensures st.Complained? ==> if o.Bad? then st.e == o.e else max0 != -1 && max0 != o.nparens && st.e == UnequalParens
      ensures var f := Fate(old(Unread()), IN_CB, folded, Start(IN_CB, init), old(comp_ptr) + ALT_LEN_LEN);
        (f == Done ==> o.Parsed?) && st == if f == Done && max0 != -1 && max0 != o.nparens then Complained(UnequalParens) else f
      ensures alternates[..] == old(alternates[..]) && alt_p == old(alt_p)
      decreases |Unread()|, 1
    {
      hide Code, CodeAt, Compiled, Reading, Pos, Unread, ParseSeq, BranchesAt, Fate;
      max := max0;
      var comp_len := comp_ptr;
      ghost var before := compbuf[..];
      BranchesFit(before, altcntp - 1, comp_ptr, acc);
      comp_ptr := comp_ptr + ALT_LEN_LEN;
      nparens := init;
      st, done, o := do_comp(IN_CB);
      if st != Done { return; }
      if max == -1 { max := nparens; }
      if max != nparens { return Complained(UnequalParens), done, max, o; }
      var len := comp_ptr - comp_len;
      ghost var filled := compbuf[..];
      compbuf[comp_len] := len % 256;
      compbuf[comp_len + 1] := len / 256 % 256;
      compbuf[altcntp] := (compbuf[altcntp] + 1) % 256;
      BranchAdded(before, filled, compbuf[..], altcntp - 1, comp_len, comp_ptr, acc, o.alts[0]);
    }

    /** REcompile.  What it makes of a pattern is what `Parse` reads in it; `b` is what a search uses. */
    method REcompile(up: Ch -> Ch, re: bool) returns (st: Status, b: Block, ghost o: Outcome)
      requires Valid()
      modifies this, compbuf, alternates
      ensures Valid() && o == Parse(pattern, re, folded)
      ensures st == Done ==> o.Parsed? && b.nparens == o.nparens && |b.starts| == |o.alts| > 0
      ensures st == Done ==> AllSame(o.alts, Groups(0, o.nparens)) && o.nparens <= NPAR
      ensures st == Done ==> forall k :: 0 <= k < |o.alts| ==> Compiled(b.code, b.starts[k], o.alts[k])
      ensures st == Done && (forall k :: 0 <= k < |o.alts| ==> Modest(o.alts[k])) ==> Suits(b, up, o.alts)
      ensures st.Complained? ==> o == Bad(st.e)
      ensures st == PatternFate(pattern, re, folded)
    {
      hide Code, CodeAt, Compiled, Made, Modest, Sound, Shaped, ParseSeq, Fate, FirstChar, Anchored, Suits, OpenSet, CloseSet;
      REptr, REpeekc, comp_ptr, alt_p := 0, -1, 0, 0;
      alternates[alt_p] := comp_ptr;
      alt_p := alt_p + 1;
      nparens := 0;
      b := Block([], [], false, -1, 0);
      assert pattern[0..] == pattern;
      var done_cb;
      st, done_cb, o := do_comp(if re then OKAY_RE else NORM);
      if st == Done {
        ParsedGroups(pattern, re, folded);
        b := PostPass(up, re, o);
        if forall k :: 0 <= k < |o.alts| ==> Modest(o.alts[k]) {
          AllSuit(pattern, re, folded, b, up);
        }
      }
    }

    /** The table is closed; a pattern of a single alternative gets its quick tests. */
    method PostPass(up: Ch -> Ch, re: bool, ghost o: Outcome) returns (b: Block)
      requires Valid() && alt_p >= 1 && Level(if re then OKAY_RE else NORM, o, 0) && o == Parse(pattern, re, folded)
      modifies alternates
      ensures b.nparens == o.nparens && |b.starts| == |o.alts| > 0 && |b.code| <= COMPSIZE
      ensures forall k :: 0 <= k < |o.alts| ==> Compiled(b.code, b.starts[k], o.alts[k])
      ensures if |o.alts| == 1 then b.anchored == Anchored(o.alts[0]) && b.firstc == FirstChar(up, o.alts[0]) else !b.anchored && b.firstc == -1
    {
      hide Compiled, Shaped, Parse, FirstChar, Anchored;
      b := Block(compbuf[..comp_ptr], Starts(), false, -1, nparens);
      ghost var starts := alternates[..alt_p];
      alternates[alt_p] := -1;
      if alternates[1] == -1 {
        assert alternates[..alt_p] == starts;
        ParsedShaped(pattern, re, folded, 0);
        var anchored, firstc := PostProcess(up, b.code, b.starts[0], o.alts[0]);
        b := b.(anchored := anchored, firstc := firstc);
      }
    }

    /** The table of the alternatives. */
    function Starts(): (r: seq<nat>)
      requires Valid() && alt_p >= 1 && forall k :: 0 <= k < alt_p ==> alternates[k] >= 0
      reads this, compbuf, alternates
      ensures |r| == alt_p && forall k :: 0 <= k < alt_p ==> r[k] == alternates[k]
    {
      seq(alt_p, k requires 0 <= k < alt_p reads this, alternates requires alt_p <= alternates.Length && alternates[k] >= 0 => alternates[k] as nat)
    }
  }

  lemma AllSuit(s: seq<Ch>, re: bool, folded: bool, b: Block, up: Ch -> Ch)
    requires 0 !in s && Parse(s, re, folded).Parsed?
    requires var o := Parse(s, re, folded);
      && |b.starts| == |o.alts| > 0 && |b.code| <= COMPSIZE
      && (forall k :: 0 <= k < |o.alts| ==> Compiled(b.code, b.starts[k], o.alts[k]) && Modest(o.alts[k]))
      && if |o.alts| == 1 then b.anchored == Anchored(o.alts[0]) && b.firstc == FirstChar(up, o.alts[0]) else !b.anchored && b.firstc == -1
    ensures Suits(b, up, Parse(s, re, folded).alts)
  {
    hide Compiled, Modest, Sound, Parse, FirstChar, Anchored, Code;
    var o := Parse(s, re, folded);
    forall k | 0 <= k < |o.alts| ensures Sound(o.alts[k]) {
      CompiledLength(b.code, b.starts[k], o.alts[k]);
      ParsedSound(s, re, folded, k);
    }
  }

  lemma CompiledLength(code: seq<int>, at: nat, items: seq<Item>)
    requires Compiled(code, at, items)
    ensures |Code(items)| < |code|
  {}

  lemma ParsedShaped(s: seq<Ch>, re: bool, folded: bool, k: nat)
    requires 0 !in s && Parse(s, re, folded).Parsed? && k < |Parse(s, re, folded).alts|
    ensures Shaped(Parse(s, re, folded).alts[k])
  {
    hide Made, Parse, Shaped;
    ParsedGroups(s, re, folded);
    MadeShaped(Parse(s, re, folded).alts[k]);
  }

  lemma {:induction false} MadeShaped(items: seq<Item>)
    requires Made(items)
    ensures Shaped(items)
    decreases |items|
  {
    if items != [] {
      MadeShaped(items[1..]);
      forall k | 0 < k < |items| ensures items[k] == items[1..][k - 1] {}
    }
  }

  lemma Ended(was: seq<int>, buf: seq<int>, base: nat, at: nat, items: seq<Item>)
    requires Emitted(was, base, at, items) && at < |was| && buf == was[at := EOP]
    ensures base <= at && buf[..base] == was[..base]
    ensures Compiled(buf[..at + 1], base, items) && at + 1 == base + |Code(items)| + 1
  {
    hide Code;
    CodeAtSame(was, buf, base, Code(items), at);
    assert buf[at..at + 1] == [EOP];
    CodeAtJoin(buf, base, Code(items), [EOP]);
    CodeAtSame(buf, buf[..at + 1], base, Code(items) + [EOP], at + 1);
  }

  lemma AltEmitted(was: seq<int>, buf: seq<int>, base: nat, at: nat, items: seq<Item>, it: Item)
    requires Emitted(was, base, at, items) && |was| == |buf| && at < |buf| && buf[..at] == was[..at] && it.Alt?
    requires CodeAt(buf, at, ItemCode(it))
    ensures base <= at && buf[..base] == was[..base] && Emitted(buf, base, at + |ItemCode(it)|, items + [it])
    ensures Verb(buf, at, at + |ItemCode(it)|, items + [it])
  {
    hide Code;
    CodeOne(it);
    Emit(was, buf, base, at, items, [it]);
    CodeAtByte(buf, at, ItemCode(it), 0);
  }

  /** The verb at `v`, the number of branches so far and their code, up to `ptr`. */
  ghost predicate BranchesAt(buf: seq<int>, v: nat, ptr: nat, acc: seq<seq<Item>>) {
    var code := BranchesCode(ToBranches(acc));
    CodeAt(buf, v, [CURLYB, LowByte(|acc|)] + code) && ptr == v + 2 + |code|
  }

  lemma NoBranches(buf: seq<int>, v: nat)
    requires v + 2 <= |buf| && buf[v] == CURLYB && buf[v + 1] == 0
    ensures BranchesAt(buf, v, v + 2, [])
  {
    assert buf[v..v + 2] == [CURLYB, 0];
  }

  lemma BranchAdded(before: seq<int>, filled: seq<int>, buf: seq<int>, v: nat, at: nat, ptr: nat, acc: seq<seq<Item>>, x: seq<Item>)
    requires BranchesAt(before, v, at, acc) && v + 2 <= at && at + 2 <= ptr <= |before| == |filled| && filled[..at + 2] == before[..at + 2]
    requires Compiled(filled[..ptr], at + 2, x) && ptr == at + 2 + |Code(x)| + 1
    requires buf == filled[at := (ptr - at) % 256][at + 1 := (ptr - at) / 256 % 256][v + 1 := (filled[v + 1] + 1) % 256]
    ensures BranchesAt(buf, v, ptr, acc + [x]) && buf[..v] == before[..v]
  {
    hide *;
    var code := BranchesCode(ToBranches(acc));
    BranchesIs(before, v, at, acc);
    OneMoreBranch(acc, x);
    CountPatched(before, filled, buf, v, at, ptr, |acc|, code);
    BranchPatched(filled, buf, v, at, ptr, x);
    CodeAtJoin(buf, v, [CURLYB, LowByte(|acc| + 1)] + code, BranchCode(x));
    assert [CURLYB, LowByte(|acc| + 1)] + code + BranchCode(x) == [CURLYB, LowByte(|acc| + 1)] + (code + BranchCode(x));
    BranchesIs(buf, v, ptr, acc + [x]);
    assert buf[..v] == filled[..at + 2][..v];
  }

  lemma BranchesFit(buf: seq<int>, v: nat, ptr: nat, acc: seq<seq<Item>>)
    requires BranchesAt(buf, v, ptr, acc)
    ensures v + 2 <= ptr <= |buf|
  {}

  lemma BranchesIs(buf: seq<int>, v: nat, ptr: nat, acc: seq<seq<Item>>)
    ensures BranchesAt(buf, v, ptr, acc) <==>
      CodeAt(buf, v, [CURLYB, LowByte(|acc|)] + BranchesCode(ToBranches(acc))) && ptr == v + 2 + |BranchesCode(ToBranches(acc))|
  {}

  lemma CountPatched(before: seq<int>, filled: seq<int>, buf: seq<int>, v: nat, at: nat, ptr: nat, n: nat, code: seq<int>)
    requires CodeAt(before, v, [CURLYB, LowByte(n)] + code) && at == v + 2 + |code|
    requires at + 2 <= ptr <= |before| == |filled| && filled[..at + 2] == before[..at + 2]
    requires buf == filled[at := (ptr - at) % 256][at + 1 := (ptr - at) / 256 % 256][v + 1 := (filled[v + 1] + 1) % 256]
    ensures CodeAt(buf, v, [CURLYB, LowByte(n + 1)] + code)
  {
    var s := [CURLYB, LowByte(n)] + code;
    CodeAtSame(before, filled, v, s, at + 2);
    CodeAtByte(filled, v, s, 1);
    assert filled[v..at] == s;
    assert buf[v..at] == s[1 := (s[1] + 1) % 256];
    assert s[1 := (s[1] + 1) % 256] == [CURLYB, LowByte(n + 1)] + code;
  }

  lemma BranchPatched(filled: seq<int>, buf: seq<int>, v: nat, at: nat, ptr: nat, x: seq<Item>)
    requires v + 2 <= at && at + 2 <= ptr <= |filled|
    requires Compiled(filled[..ptr], at + 2, x) && ptr == at + 2 + |Code(x)| + 1
    requires buf == filled[at := (ptr - at) % 256][at + 1 := (ptr - at) / 256 % 256][v + 1 := (filled[v + 1] + 1) % 256]
    ensures CodeAt(buf, at, BranchCode(x)) && ptr == at + |BranchCode(x)|
  {
    hide Code, Compiled;
    CompiledIs(filled, ptr, at + 2, x);
    var len := ptr - at;
    assert buf[at..at + 2] == [LowByte(len), LowByte(len / 256)];
    assert buf[at + 2..ptr] == filled[at + 2..ptr];
    assert buf[at..ptr] == buf[at..at + 2] + buf[at + 2..ptr];
    assert BranchCode(x) == [LowByte(len), LowByte(len / 256)] + (Code(x) + [EOP]);
  }

  lemma CompiledIs(buf: seq<int>, ptr: nat, at: nat, x: seq<Item>)
    requires ptr <= |buf| && Compiled(buf[..ptr], at, x) && ptr == at + |Code(x)| + 1
    ensures buf[at..ptr] == Code(x) + [EOP]
  {
    assert buf[..ptr][at..ptr] == buf[at..ptr];
  }

  lemma AltDone(buf: seq<int>, v: nat, ptr: nat, acc: seq<seq<Item>>)
    requires BranchesAt(buf, v, ptr, acc)
    ensures CodeAt(buf, v, ItemCode(Alt(ToBranches(acc)))) && ptr == v + |ItemCode(Alt(ToBranches(acc)))|
  {
    hide BranchCode;
    OneMoreBranch(acc, []);
  }

  /** How much code a level starts with. */
  function StartCode(kind: Kind): nat { if kind.IN_CB? then 0 else 2 }

  lemma AtStart(buf: seq<int>, base: nat, ptr: nat, items: seq<Item>, kind: Kind)
    requires Emitted(buf, base, ptr, items) && (!kind.IN_CB? ==> items != [] && items[0].Open?)
    ensures ptr == base + StartCode(kind) <==> |items| == Base(kind)
  {
    var rest := if kind.IN_CB? then items else items[1..];
    if !kind.IN_CB? {
      Put2Codes(items[0]);
      assert Code(items) == ItemCode(items[0]) + Code(rest) && |ItemCode(items[0])| == 2;
    }
    if rest != [] {
      assert Code(rest) == ItemCode(rest[0]) + Code(rest[1..]);
    }
  }

  lemma ShapedMore(items: seq<Item>)
    requires Shaped(items)
    ensures forall it: Item :: !it.Str? && !it.One? ==> Shaped(items + [it])
    ensures forall a: Atom :: !a.Lit? ==> Shaped(items + [One(a)])
  {}

  lemma StarKeepsFirst(items: seq<Item>, folded: bool)
    ensures items != [] && items[0].Open? ==> StarItems(items, folded) != [] && StarItems(items, folded)[0] == items[0]
  {}

  lemma EmitNone(buf: seq<int>, base: nat)
    requires base <= |buf|
    ensures Emitted(buf, base, base, [])
  {}

  lemma AltClosed(was: seq<int>, buf: seq<int>, base: nat, at: nat, items: seq<Item>, top: nat)
    requires Emitted(was, base, at, items) && |was| == |buf| && at + 3 <= |buf| && buf[..at] == was[..at] && buf[at..at + 3] == [CLOSEP, top, EOP]
    ensures Compiled(buf[..at + 3], base, items + [Close(top)])
    ensures base <= at && buf[..at + 3][..base] == was[..base] && buf[at] <= NOSTR
  {
    hide *;
    var code := Code(items + [Close(top)]);
    ClosedCode(top);
    CompiledAs(buf[..at + 3], base, items + [Close(top)]);
    EmittedAs(was, base, at, items);
    EmittedAs(buf, base, at + 2, items + [Close(top)]);
    assert buf[at..at + 2] == buf[at..at + 3][..2] == [CLOSEP, top];
    assert buf[at + 2..at + 3] == buf[at..at + 3][2..] == [EOP];
    assert buf[at] == buf[at..at + 3][0];
    CodeAtIs(buf, at, [CLOSEP, top]);
    CodeAtIs(buf, at + 2, [EOP]);
    Emit(was, buf, base, at, items, [Close(top)]);
    CodeAtJoin(buf, base, code, [EOP]);
    CodeAtSame(buf, buf[..at + 3], base, code + [EOP], at + 3);
    assert buf[..at + 3][..base] == buf[..base];
  }

  lemma ClosedCode(top: nat)
    ensures Code([Close(top)]) == [CLOSEP, top] && CLOSEP <= NOSTR
  {
    CodeOne(Close(top));
    Put2Codes(Close(top));
  }

  lemma ThreePut(was: seq<int>, buf: seq<int>, at: nat, a: int, b: int, c: int)
    requires at + 3 <= |was| && buf == was[at := a][at + 1 := b][at + 2 := c]
    ensures |buf| == |was| && buf[..at] == was[..at] && buf[at..at + 3] == [a, b, c]
  {}

  lemma CompiledAs(buf: seq<int>, at: nat, items: seq<Item>)
    ensures Compiled(buf, at, items) <==> CodeAt(buf, at, Code(items) + [EOP])
  {}

  lemma EmittedAs(buf: seq<int>, base: nat, ptr: nat, items: seq<Item>)
    ensures Emitted(buf, base, ptr, items) <==> CodeAt(buf, base, Code(items)) && ptr == base + |Code(items)|
  {}

  lemma DoneStill(was: seq<int>, closed: seq<int>, base: nat, starts: seq<int>, done: seq<seq<Item>>)
    requires base <= |was| && base <= |closed| && closed[..base] == was[..base] && |done| <= |starts|
    requires forall k :: 0 <= k < |done| ==> starts[k] >= 0 && Compiled(was[..base], starts[k], done[k])
    ensures forall k :: 0 <= k < |done| ==> Compiled(closed, starts[k], done[k])
  {
    hide Code;
    forall k | 0 <= k < |done| ensures Compiled(closed, starts[k], done[k]) {
      var s := Code(done[k]) + [EOP];
      assert CodeAt(was[..base], starts[k], s);
      CodeAtSame(was[..base], closed, starts[k], s, base);
    }
  }

  lemma Put1Codes(it: Item)
    requires it.Bol? || it.Eol? || it.Bow? || it.Eow? || it == One(Any)
    ensures ItemCode(it) == [match it case Bol => AT_BOL case Eol => AT_EOL case Bow => AT_BOW case Eow => AT_EOW case _ => ANYC]
  {}

  lemma Put2Codes(it: Item)
    requires it.Open? || it.Close? || (it.One? && it.a.Back?)
    ensures ItemCode(it) == match it case Open(n) => [OPENP, n] case Close(n) => [CLOSEP, n] case One(a) => [BACKREF, a.n] case _ => []
  {}

  lemma LitKeepsFirst(items: seq<Item>, c: Ch, folded: bool)
    ensures items != [] && items[0].Open? ==> LitItems(items, c, folded) != [] && LitItems(items, c, folded)[0] == items[0]
  {}

  lemma CodeAtAfter(buf: seq<int>, buf': seq<int>, at: nat, s: seq<int>)
    requires CodeAt(buf, at, s) && |buf| == |buf'| && forall k :: at <= k < |buf| ==> buf'[k] == buf[k]
    ensures CodeAt(buf', at, s)
  {
    assert buf'[at..at + |s|] == buf[at..at + |s|];
  }

  lemma {:induction false} BitsFromNone(c: int, n: nat)
    ensures BitsFrom({}, c, n) == 0
    decreases n
  {
    if n > 0 { BitsFromNone(c + 1, n - 1); }
  }

  lemma BitsNone()
    ensures forall k :: 0 <= k < SETSIZE ==> Bits({})[k] == 0
  {
    forall k | 0 <= k < SETSIZE ensures Bits({})[k] == 0 {
      BitsFromNone(8 * k, 8);
    }
  }

  lemma Prefixes(was: seq<int>, head: seq<int>, buf: seq<int>, at: nat)
    requires at < |was| == |buf| && |head| == at + 1 && head[..at] == was[..at] && buf[..at + 1] == head
    ensures was[..at] == buf[..at] && buf[at] == head[at]
  {
    assert buf[..at] == buf[..at + 1][..at];
  }

  lemma SetEmitted(was: seq<int>, buf: seq<int>, base: nat, at: nat, items: seq<Item>, m: set<Ch>, neg: bool)
    requires Emitted(was, base, at, items) && |was| == |buf| && at < |buf| && was[..at] == buf[..at]
    requires buf[at] == SetOp(neg) && CodeAt(buf, at + 1, Bits(m))
    ensures Emitted(buf, base, at + 1 + SETSIZE, items + [One(In(m, neg))])
    ensures Verb(buf, at, at + 1 + SETSIZE, items + [One(In(m, neg))])
    ensures buf[..base] == was[..base]
  {
    hide Bits, Code;
    var it := One(In(m, neg));
    CodeOne(it);
    assert ItemCode(it) == [SetOp(neg)] + Bits(m);
    assert CodeAt(buf, at, [SetOp(neg)]) by { assert buf[at..at + 1] == [SetOp(neg)]; }
    CodeAtJoin(buf, at, [SetOp(neg)], Bits(m));
    Emit(was, buf, base, at, items, [it]);
  }

  lemma ShapedStar(items: seq<Item>, folded: bool)
    requires Shaped(items)
    ensures Shaped(StarItems(items, folded))
    ensures items != [] && items[|items| - 1].Str? ==> items[|items| - 1].cs != []
  {}

  lemma VerbRange(buf: seq<int>, v: int, ptr: nat, items: seq<Item>)
    requires Verb(buf, v, ptr, items)
    ensures -1 <= v < ptr
  {}

  lemma ShapedLit(items: seq<Item>, c: Ch, folded: bool)
    requires Shaped(items)
    ensures Shaped(LitItems(items, c, folded))
  {}

  lemma NewEmitted(was: seq<int>, buf: seq<int>, base: nat, at: nat, items: seq<Item>, c: Ch, folded: bool)
    requires Emitted(was, base, at, items) && at + 3 <= |was| && buf == was[at := StrOp(folded)][at + 1 := 0][at + 1 := 1][at + 2 := c]
    requires items == [] || !items[|items| - 1].Str?
    ensures base <= at && buf[..base] == was[..base] && Emitted(buf, base, at + 3, LitItems(items, c, folded))
    ensures Verb(buf, at, at + 3, LitItems(items, c, folded))
  {
    hide Code, CodeAt, Emitted, ItemCode;
    CodeOne(Str([c], folded));
    NewRun(buf, at, folded, c);
    assert buf[..at] == was[..at];
    Emit(was, buf, base, at, items, [Str([c], folded)]);
  }

  lemma RunEmitted(was: seq<int>, buf: seq<int>, base: nat, at: nat, prev: nat, items: seq<Item>, c: Ch, folded: bool)
    requires items != [] && items[|items| - 1].Str? && Emitted(was, base, prev, items[..|items| - 1])
    requires var it := items[|items| - 1];
      CodeAt(was, prev, ItemCode(it)) && at == prev + 2 + |it.cs| < |was| && buf == was[prev + 1 := (was[prev + 1] + 1) % 256][at := c]
    ensures base <= at && buf[..base] == was[..base] && Emitted(buf, base, at + 1, LitItems(items, c, folded))
    ensures Verb(buf, prev, at + 1, LitItems(items, c, folded))
  {
    hide Code, CodeAt, Emitted, ItemCode;
    var n := |items| - 1;
    var it := Str(items[n].cs + [c], items[n].folded);
    CodeOne(it);
    LongerRun(was, buf, prev, items[n].cs, items[n].folded, c);
    assert buf[..prev] == was[..prev];
    Emit(was, buf, base, prev, items[..n], [it]);
  }

  lemma StarLastEmitted(was: seq<int>, buf: seq<int>, base: nat, prev: nat, items: seq<Item>, v: nat, folded: bool)
    requires items != [] && items[|items| - 1].Str? && items[|items| - 1].cs != []
    requires var it := items[|items| - 1];
      && Emitted(was, base, prev, items[..|items| - 1]) && CodeAt(was, prev, ItemCode(it))
      && |was| == |buf| && prev + 2 + |it.cs| <= |buf|
      && v == (if LowByte(|it.cs|) == 1 then prev else prev + 1 + |it.cs|) && v + 2 <= |buf|
      && buf[v] == StrOp(it.folded) + STAR && buf[v + 1] == it.cs[|it.cs| - 1]
      && buf[..v] == was[prev + 1 := if v == prev then was[prev + 1] else (was[prev + 1] - 1) % 256][..v]
    ensures base <= v && buf[..base] == was[..base] && Emitted(buf, base, v + 2, StarItems(items, folded))
    ensures Verb(buf, v, v + 2, StarItems(items, folded))
  {
    hide Code, CodeAt, Emitted, ItemCode;
    var n := |items| - 1;
    var it := items[n];
    var star := Star(Lit(it.cs[|it.cs| - 1], it.folded));
    NewStar(buf, v, it.folded, it.cs[|it.cs| - 1]);
    if v == prev {
      CodeOne(star);
      Emit(was, buf, base, prev, items[..n], [star]);
    } else {
      var run := Str(it.cs[..|it.cs| - 1], it.folded);
      ShorterRun(was, buf, prev, it.cs, it.folded);
      CodeTwo(run, star);
      CodeAtJoin(buf, prev, ItemCode(run), ItemCode(star));
      assert buf[..prev] == buf[..v][..prev];
      Emit(was, buf, base, prev, items[..n], [run, star]);
    }
  }

  lemma NewRun(buf: seq<int>, v: nat, folded: bool, c: Ch)
    requires v + 3 <= |buf| && buf[v] == StrOp(folded) && buf[v + 1] == 1 && buf[v + 2] == c
    ensures CodeAt(buf, v, ItemCode(Str([c], folded))) && |ItemCode(Str([c], folded))| == 3
  {
    assert buf[v..v + 3] == [StrOp(folded), 1, c];
    assert Widen([c]) == [c as int];
  }

  lemma LongerRun(buf: seq<int>, buf': seq<int>, v: nat, cs: seq<Ch>, folded: bool, c: Ch)
    requires CodeAt(buf, v, ItemCode(Str(cs, folded)))
    requires v + 3 + |cs| <= |buf'| == |buf| && buf' == buf[v + 1 := (buf[v + 1] + 1) % 256][v + 2 + |cs| := c]
    ensures CodeAt(buf', v, ItemCode(Str(cs + [c], folded))) && |ItemCode(Str(cs + [c], folded))| == 3 + |cs|
  {
    var head, head' := [StrOp(folded), LowByte(|cs|)], [StrOp(folded), LowByte(|cs| + 1)];
    RunCode(cs, folded);
    RunCode(cs + [c], folded);
    hide *;
    CodeAtParts(buf, v, head, Widen(cs));
    CodeAtIs(buf, v, head);
    CodeAtIs(buf, v + 2, Widen(cs));
    LowNext(|cs|);
    assert buf'[v..v + 2] == head';
    assert buf'[v + 2..v + 3 + |cs|] == buf[v + 2..v + 2 + |cs|] + [c as int];
    CodeAtIs(buf', v, head');
    CodeAtIs(buf', v + 2, Widen(cs) + [c as int]);
    CodeAtJoin(buf', v, head', Widen(cs) + [c as int]);
    WidenMore(cs, c);
  }

  lemma RunCode(cs: seq<Ch>, folded: bool)
    ensures ItemCode(Str(cs, folded)) == [StrOp(folded), LowByte(|cs|)] + Widen(cs)
    ensures |Widen(cs)| == |cs|
  {}

  lemma WidenMore(cs: seq<Ch>, c: Ch)
    ensures Widen(cs + [c]) == Widen(cs) + [c as int]
  {}

  lemma LowNext(n: nat)
    ensures (LowByte(n) + 1) % 256 == LowByte(n + 1)
    ensures n > 0 ==> (LowByte(n) - 1) % 256 == LowByte(n - 1)
  {
    var q, r := n / 256, n % 256;
    if r == 255 { ModIs(n + 1, q + 1, 0); } else { ModIs(n + 1, q, r + 1); }
    if r == 0 {
      if n > 0 { ModIs(n - 1, q - 1, 255); }
    } else {
      ModIs(n - 1, q, r - 1);
    }
  }

  lemma ModIs(n: nat, q: nat, r: nat)
    requires n == 256 * q + r && r < 256
    ensures n % 256 == r
  {}

  lemma CodeAtIs(buf: seq<int>, at: nat, s: seq<int>)
    ensures CodeAt(buf, at, s) <==> at + |s| <= |buf| && buf[at..at + |s|] == s
  {}

  lemma CountChanged(buf: seq<int>, buf': seq<int>, v: nat, e: nat, x: int)
    requires v + 2 <= e <= |buf| && e <= |buf'| && buf'[..e] == buf[v + 1 := x][..e]
    ensures buf'[v..v + 2] == [buf[v], x] && buf'[v + 2..e] == buf[v + 2..e]
  {
    assert buf'[v..v + 2] == buf'[..e][v..v + 2];
    assert buf'[v + 2..e] == buf'[..e][v + 2..];
  }

  lemma ShorterRun(buf: seq<int>, buf': seq<int>, v: nat, cs: seq<Ch>, folded: bool)
    requires CodeAt(buf, v, ItemCode(Str(cs, folded))) && cs != [] && v + 1 + |cs| <= |buf'|
    requires buf'[..v + 1 + |cs|] == buf[v + 1 := (buf[v + 1] - 1) % 256][..v + 1 + |cs|]
    ensures CodeAt(buf', v, ItemCode(Str(cs[..|cs| - 1], folded))) && |ItemCode(Str(cs[..|cs| - 1], folded))| == 1 + |cs|
  {
    var n := |cs| - 1;
    var pre, last := cs[..n], cs[n];
    assert cs == pre + [last];
    RunCode(cs, folded);
    RunCode(pre, folded);
    WidenMore(pre, last);
    LowNext(|cs|);
    var w, op, count, count' := Widen(pre), StrOp(folded), LowByte(|cs|), LowByte(n);
    hide *;
    CodeAtParts(buf, v, [op, count], w + [last as int]);
    CodeAtIs(buf, v, [op, count]);
    CodeAtIs(buf, v + 2, w + [last as int]);
    var e := v + 2 + n;
    TwoBytes(buf, v, op, count);
    CountChanged(buf, buf', v, e, (buf[v + 1] - 1) % 256);
    SliceShort(buf, v + 2, e, w, last);
    CodeAtIs(buf', v, [op, count']);
    CodeAtIs(buf', v + 2, w);
    CodeAtJoin(buf', v, [op, count'], w);
  }

  lemma TwoBytes(buf: seq<int>, v: nat, a: int, b: int)
    requires v + 2 <= |buf| && buf[v..v + 2] == [a, b]
    ensures buf[v] == a && buf[v + 1] == b
  {
    assert buf[v] == buf[v..v + 2][0] && buf[v + 1] == buf[v..v + 2][1];
  }

  lemma SliceShort(buf: seq<int>, a: nat, b: nat, w: seq<int>, x: int)
    requires a <= b < |buf| && buf[a..b + 1] == w + [x]
    ensures buf[a..b] == w
  {
    assert buf[a..b] == buf[a..b + 1][..b - a];
  }

  lemma NewStar(buf: seq<int>, v: nat, folded: bool, c: Ch)
    requires v + 2 <= |buf| && buf[v] == StrOp(folded) + STAR && buf[v + 1] == c
    ensures CodeAt(buf, v, ItemCode(Star(Lit(c, folded)))) && |ItemCode(Star(Lit(c, folded)))| == 2
  {
    assert AtomCode(Lit(c, folded), STAR) == [StrOp(folded) + STAR, c];
    assert buf[v..v + 2] == [StrOp(folded) + STAR, c];
  }

  lemma StarOf(buf: seq<int>, buf': seq<int>, v: nat, a: Atom)
    requires !a.Lit? && CodeAt(buf, v, ItemCode(One(a))) && v < |buf| && buf' == buf[v := buf[v] + STAR]
    ensures CodeAt(buf', v, ItemCode(Star(a))) && |ItemCode(Star(a))| == |ItemCode(One(a))|
  {
    var s := ItemCode(One(a));
    CodeAtByte(buf, v, s, 0);
    assert buf'[v..v + |s|] == s[0 := s[0] + STAR];
    assert ItemCode(Star(a)) == s[0 := s[0] + STAR];
  }
}
