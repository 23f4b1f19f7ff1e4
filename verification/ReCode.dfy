/** The internal code of a pattern. */
module ReCode {
  import opened CString
  import opened Pattern

  const STAR := 1
  const AT_BOL := 2
  const AT_EOL := 4
  const AT_BOW := 6
  const AT_EOW := 8
  const OPENP := 10
  const CLOSEP := 12
  const CURLYB := 14
  const NOSTR := 14
  const ANYC := NOSTR + 2
  const NORMC := ANYC + 2
  const CINDC := NORMC + 2
  const ONE_OF := CINDC + 2
  const NONE_OF := ONE_OF + 2
  const BACKREF := NONE_OF + 2
  const EOP := BACKREF + 2

  const SETSIZE := 32
  const NPAR := 10
  const ALT_LEN_LEN := 2

  function Bit(m: set<Ch>, c: int): (b: int)
    ensures b == 0 || b == 1
  {
    if 0 <= c < 256 && c in m then 1 else 0
  }

  /** The members of a set from `c` on as an `n`-bit number, lowest first. */
  function BitsFrom(m: set<Ch>, c: int, n: nat): nat
    decreases n
  {
    if n == 0 then 0 else Bit(m, c) + 2 * BitsFrom(m, c + 1, n - 1)
  }

  /** The bit vector of a set. */
  function Bits(m: set<Ch>): (r: seq<int>)
    ensures |r| == SETSIZE && forall j :: 0 <= j < SETSIZE ==> r[j] >= 0
  {
    seq(SETSIZE, j requires 0 <= j < SETSIZE => BitsFrom(m, 8 * j, 8))
  }

  /** `byte & SETBIT(k)` */
  predicate TestBit(byte: nat, k: nat) {
    if k == 0 then byte % 2 == 1 else TestBit(byte / 2, k - 1)
  }

  /** `byte | SETBIT(k)` */
  function SetBit(byte: nat, k: nat): nat {
    if k == 0 then byte - byte % 2 + 1 else byte % 2 + 2 * SetBit(byte / 2, k - 1)
  }

  lemma {:induction false} TestBitsFrom(m: set<Ch>, c: int, n: nat, k: nat)
    requires k < n
    ensures TestBit(BitsFrom(m, c, n), k) <==> Bit(m, c + k) == 1
    decreases n
  {
    if k > 0 { TestBitsFrom(m, c + 1, n - 1, k - 1); }
  }

  lemma {:induction false} SetBitsFrom(m: set<Ch>, c: int, n: nat, x: Ch)
    requires c <= x < c + n
    ensures SetBit(BitsFrom(m, c, n), x - c) == BitsFrom(m + {x}, c, n)
    decreases n
  {
    hide TestBit;
    var rest := BitsFrom(m, c + 1, n - 1);
    if x > c {
      SetBitsFrom(m, c + 1, n - 1, x);
      assert Bit(m + {x}, c) == Bit(m, c);
      assert BitsFrom(m, c, n) / 2 == rest && BitsFrom(m, c, n) % 2 == Bit(m, c);
    } else {
      BitsFromSame(m, m + {x}, c + 1, n - 1);
    }
  }

  lemma {:induction false} BitsFromSame(m: set<Ch>, m': set<Ch>, c: int, n: nat)
    requires forall x: Ch :: c <= x < c + n ==> (x in m <==> x in m')
    ensures BitsFrom(m, c, n) == BitsFrom(m', c, n)
    decreases n
  {
    if n > 0 {
      BitsFromSame(m, m', c + 1, n - 1);
    }
  }

  lemma TestBits(m: set<Ch>, c: Ch)
    ensures TestBit(Bits(m)[c / 8], c % 8) <==> c in m
  {
    hide TestBit, BitsFrom;
    var q: nat, r: nat := c / 8, c % 8;
    assert 8 * q + r == c && q < SETSIZE;
    TestBitsFrom(m, 8 * q, 8, r);
  }

  lemma SetBits(m: set<Ch>, c: Ch)
    ensures Bits(m)[c / 8 := SetBit(Bits(m)[c / 8], c % 8)] == Bits(m + {c})
  {
    hide SetBit, BitsFrom;
    var q: nat, r: nat := c / 8, c % 8;
    assert 8 * q + r == c && q < SETSIZE;
    SetBitsFrom(m, 8 * q, 8, c);
    forall j | 0 <= j < SETSIZE && j != c / 8 ensures BitsFrom(m, 8 * j, 8) == BitsFrom(m + {c}, 8 * j, 8) {
      BitsFromSame(m, m + {c}, 8 * j, 8);
    }
  }

  function StrOp(folded: bool): int { if folded then CINDC else NORMC }

  function SetOp(neg: bool): int { if neg then NONE_OF else ONE_OF }

  function AtomCode(a: Atom, star: int): seq<int> {
    match a
    case Lit(c, folded) => [StrOp(folded) + star] + (if star == 0 then [1] else []) + [c]
    case Any => [ANYC + star]
    case In(m, neg) => [SetOp(neg) + star] + Bits(m)
    case Back(n) => [BACKREF + star, n]
  }

  /** A count or a number as it fits in a byte. */
  function LowByte(n: nat): int { n % 256 }

  function ItemCode(it: Item): (r: seq<int>)
    ensures r != []
    decreases SizeItem(it), 0
  {
    match it
    case Str(cs, folded) => [StrOp(folded), LowByte(|cs|)] + Widen(cs)
    case One(a) => AtomCode(a, 0)
    case Star(a) => AtomCode(a, STAR)
    case Bol => [AT_BOL]
    case Eol => [AT_EOL]
    case Bow => [AT_BOW]
    case Eow => [AT_EOW]
    case Open(n) => [OPENP, n]
    case Close(n) => [CLOSEP, n]
    case Alt(bs) => [CURLYB, LowByte(Count(bs))] + BranchesCode(bs)
  }

  function Widen(cs: seq<Ch>): (r: seq<int>)
    ensures |r| == |cs| && forall k :: 0 <= k < |cs| ==> r[k] == cs[k]
  {
    seq(|cs|, k requires 0 <= k < |cs| => cs[k] as int)
  }

  function Code(items: seq<Item>): seq<int>
    decreases Size(items), 1
  {
    if items == [] then [] else ItemCode(items[0]) + Code(items[1..])
  }

  function Count(bs: Branches): nat {
    if bs.NoMore? then 0 else 1 + Count(bs.rest)
  }

  /** A branch: its length in two bytes, its code, and the end of a pattern. */
  function BranchCode(items: seq<Item>): (r: seq<int>)
    decreases Size(items), 2
  {
    var len := ALT_LEN_LEN + |Code(items)| + 1;
    [LowByte(len), LowByte(len / 256)] + Code(items) + [EOP]
  }

  function BranchesCode(bs: Branches): seq<int>
    decreases SizeBranches(bs), 0
  {
    match bs
    case NoMore => []
    case Or(first, rest) => BranchCode(first) + BranchesCode(rest)
  }

  lemma {:induction false} CodeAppend(a: seq<Item>, b: seq<Item>)
    ensures Code(a + b) == Code(a) + Code(b)
    decreases |a|
  {
    if a == [] {
      assert a + b == b;
    } else {
      assert (a + b)[1..] == a[1..] + b;
      CodeAppend(a[1..], b);
    }
  }

  lemma CodeOne(it: Item)
    ensures Code([it]) == ItemCode(it)
  {
    assert [it][1..] == [];
    assert Code([it]) == ItemCode(it) + Code([]);
  }

  /** The groups that a pattern opens, and those it closes. */
  function OpenSet(items: seq<Item>): set<nat>
    decreases Size(items)
  {
    if items == [] then {} else
      (match items[0]
       case Open(n) => {n}
       case Alt(bs) => assert SizeItem(items[0]) == 1 + SizeBranches(bs); OpenSetB(bs)
       case _ => {}) + OpenSet(items[1..])
  }

  function OpenSetB(bs: Branches): set<nat>
    decreases SizeBranches(bs)
  {
    match bs
    case NoMore => {}
    case Or(first, rest) => OpenSet(first) + OpenSetB(rest)
  }

  function CloseSet(items: seq<Item>): set<nat>
    decreases Size(items)
  {
    if items == [] then {} else
      (match items[0]
       case Close(n) => {n}
       case Alt(bs) => assert SizeItem(items[0]) == 1 + SizeBranches(bs); CloseSetB(bs)
       case _ => {}) + CloseSet(items[1..])
  }

  function CloseSetB(bs: Branches): set<nat>
    decreases SizeBranches(bs)
  {
    match bs
    case NoMore => {}
    case Or(first, rest) => CloseSet(first) + CloseSetB(rest)
  }

  /** What the matcher relies on: no back-references; literal runs, branch counts and branch
      lengths that fit their bytes; and branches of an alternation that note the same groups. */
  predicate Sound(items: seq<Item>)
    decreases Size(items)
  {
    if items == [] then true else
      (match items[0]
       case Str(cs, _) => 1 <= |cs| <= 127 && (forall k | 0 <= k < |cs| :: cs[k] != 0)
       case One(a) => a.Any? || a.In?
       case Star(a) => (a.Lit? && a.c != 0) || a.Any? || a.In?
       case Open(n) => n < NPAR
       case Close(n) => n < NPAR
       case Alt(bs) =>
         assert SizeItem(items[0]) == 1 + SizeBranches(bs);
         Count(bs) <= 127 && SoundB(bs, OpenSetB(bs), CloseSetB(bs))
       case _ => true) && Sound(items[1..])
  }

  predicate SoundB(bs: Branches, opens: set<nat>, closes: set<nat>)
    decreases SizeBranches(bs)
  {
    match bs
    case NoMore => true
    case Or(first, rest) =>
      Sound(first) && OpenSet(first) == opens && CloseSet(first) == closes &&
      |BranchCode(first)| < 65536 && SoundB(rest, opens, closes)
  }

  /** A match notes every group of the pattern, whichever branches it takes. */
  lemma {:induction false} MatchNotes(t: Text, items: seq<Item>, i: nat)
    requires Sound(items) && Match(t, items, i).Found?
    ensures Match(t, items, i).opens.Keys == OpenSet(items) && Match(t, items, i).closes.Keys == CloseSet(items)
    decreases Size(items), 0
  {
    if items != [] {
      var e := i;
      match items[0] {
        case Str(cs, _) => e := i + |cs|;
        case One(_) => e := i + 1;
        case Star(a) =>
          var k := StarSound(t, items[1..], i, Span(t, a, i));
          e := i + k;
        case Alt(bs) =>
          assert SizeItem(items[0]) == 1 + SizeBranches(bs);
          FirstNotes(t, bs, i, OpenSetB(bs), CloseSetB(bs));
          e := MatchFirst(t, bs, i).end;
        case _ =>
      }
      MatchNotes(t, items[1..], e);
    }
  }

  lemma {:induction false} FirstNotes(t: Text, bs: Branches, i: nat, opens: set<nat>, closes: set<nat>)
    requires SoundB(bs, opens, closes) && MatchFirst(t, bs, i).Found?
    ensures MatchFirst(t, bs, i).opens.Keys == opens && MatchFirst(t, bs, i).closes.Keys == closes
    decreases SizeBranches(bs), 0
  {
    if Match(t, bs.first, i).Found? {
      MatchNotes(t, bs.first, i);
    } else {
      FirstNotes(t, bs.rest, i, opens, closes);
    }
  }
}
