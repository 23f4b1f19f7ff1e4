/** Addresses in the temporary file: blocks, chunks and how a line lies in a block. */
module Geometry {

  const NUL: char := '\0'
  const EOL: char := '\n'

  type Disk = map<nat, seq<char>>

  /** The sizes fixed when the editor is built.  A block is `blockChunks` chunks of
      `chunkChars` characters.  An address counts chunks from the start of the file. */
  datatype Sizes = Sizes(chunkChars: nat, blockChunks: nat, nbuf: nat, maxBlocks: nat)
  {
    ghost predicate Ok() {
      chunkChars >= 1 && blockChunks >= 2 && nbuf >= 2 && maxBlocks >= 2
    }

    function BlockSize(): nat { chunkChars * blockChunks }

    function BlockNo(addr: nat): nat
      requires blockChunks > 0
    { addr / blockChunks }

    function Offset(addr: nat): nat
      requires blockChunks > 0
    { (addr % blockChunks) * chunkChars }

    /** The address of the block after the one that holds `addr`. */
    function NextBlock(addr: nat): nat
      requires blockChunks > 0
    { addr - addr % blockChunks + blockChunks }

    function ReqChunks(chars: nat): nat
      requires chunkChars > 0
    { (chars + (chunkChars - 1)) / chunkChars }
  }

  lemma MulStrict(a: int, b: int, c: nat)
    requires a < b
    ensures a * c + c <= b * c
  {
    var d: nat := b - a - 1;
    MulAdd(a + 1, d, c);
    MulAdd(a, 1, c);
    assert b == (a + 1) + d;
    NotNegative(d, c);
  }

  lemma NotNegative(d: nat, c: nat)
    ensures d * c >= 0
  {}

  lemma MulMono(a: int, b: int, c: nat)
    requires a <= b
    ensures a * c <= b * c
  {
    var d: nat := b - a;
    MulAdd(a, d, c);
    NotNegative(d, c);
  }

  lemma MulAdd(a: int, b: int, c: int)
    ensures (a + b) * c == a * c + b * c
  {}

  lemma DivModUnique(n: nat, d: nat, q: nat, r: nat)
    requires d > 0 && n == q * d + r && r < d
    ensures n / d == q && n % d == r
  {
    var k := n / d;
    assert n == k * d + n % d;
    if k < q {
      MulStrict(k, q, d);
    } else if k > q {
      MulStrict(q, k, d);
    }
  }

  lemma OffsetInBlock(g: Sizes, addr: nat)
    requires g.Ok()
    ensures g.Offset(addr) + g.chunkChars <= g.BlockSize()
  {
    MulStrict(addr % g.blockChunks, g.blockChunks, g.chunkChars);
  }

  lemma NextBlockFacts(g: Sizes, addr: nat)
    requires g.Ok()
    ensures g.BlockNo(g.NextBlock(addr)) == g.BlockNo(addr) + 1
    ensures g.Offset(g.NextBlock(addr)) == 0
    ensures g.NextBlock(addr) > addr
  {
    var b := g.blockChunks;
    var q := addr / b;
    assert addr == q * b + addr % b;
    MulAdd(q, 1, b);
    DivModUnique(g.NextBlock(addr), b, q + 1, 0);
  }

  lemma ReqChunksFacts(g: Sizes, n: nat)
    requires g.Ok()
    ensures n <= g.ReqChunks(n) * g.chunkChars < n + g.chunkChars
  {
    var c := g.chunkChars;
    var m := n + (c - 1);
    assert m == (m / c) * c + m % c;
  }

  /** `n` characters put down at `addr` without leaving its block stop at or before the start
      of the next block, and the address after them counts chunks past their last character. */
  lemma RoomFacts(g: Sizes, addr: nat, n: nat)
    requires g.Ok() && n > 0 && g.Offset(addr) + n <= g.BlockSize()
    ensures addr < addr + g.ReqChunks(n) <= g.NextBlock(addr)
  {
    var r := addr % g.blockChunks;
    var c := g.chunkChars;
    var k := g.ReqChunks(n);
    ReqChunksFacts(g, n);
    MulAdd(r, k, c);
    if k == 0 {
    } else if r + k > g.blockChunks {
      MulStrict(g.blockChunks, r + k, c);
    }
  }

  /** Two addresses in one block: the later one starts at or after the end of what was put
      down at the earlier one. */
  lemma LaterInSameBlock(g: Sizes, a: nat, n: nat, b: nat)
    requires g.Ok() && a + g.ReqChunks(n) <= b && g.BlockNo(a) == g.BlockNo(b)
    ensures g.Offset(a) + n <= g.Offset(b)
  {
    var bc, c, k := g.blockChunks, g.chunkChars, g.ReqChunks(n);
    ReqChunksFacts(g, n);
    assert a % bc + k <= b % bc by {
      assert a == (a / bc) * bc + a % bc;
      assert b == (b / bc) * bc + b % bc;
    }
    MulMono(a % bc + k, b % bc, c);
    MulAdd(a % bc, k, c);
  }

  lemma BlockNoMono(g: Sizes, a: nat, b: nat)
    requires g.Ok() && a <= b
    ensures g.BlockNo(a) <= g.BlockNo(b)
  {
    var d := g.blockChunks;
    var p, q := a / d, b / d;
    assert a == p * d + a % d;
    assert b == q * d + b % d;
    if p > q {
      MulStrict(q, p, d);
    }
  }

  /** An address that does not pass the start of the next block is in this block or that one. */
  lemma BlockNoStep(g: Sizes, a: nat, b: nat)
    requires g.Ok() && a <= b <= g.NextBlock(a)
    ensures g.BlockNo(a) <= g.BlockNo(b) <= g.BlockNo(a) + 1
    ensures g.BlockNo(b) == g.BlockNo(a) + 1 ==> b == g.NextBlock(a)
  {
    var d := g.blockChunks;
    NextBlockFacts(g, a);
    BlockNoMono(g, a, b);
    BlockNoMono(g, b, g.NextBlock(a));
    var p, q := a / d, b / d;
    assert a == p * d + a % d;
    assert b == q * d + b % d;
    MulAdd(p, 1, d);
  }

  lemma AddressBelow(g: Sizes, a: nat, n: nat)
    requires g.Ok() && g.BlockNo(a) < n
    ensures a < n * g.blockChunks
  {
    var d := g.blockChunks;
    var q := a / d;
    assert a == q * d + a % d;
    MulStrict(q, n, d);
  }
}
