/** The layout of the recovery file: a header, an entry for each buffer, the line addresses. */
module RecordFile {
  import opened Geometry

  function Pow(b: nat, w: nat): nat { if w == 0 then 1 else b * Pow(b, w - 1) }

  lemma {:induction false} PowPos(b: nat, w: nat)
    requires b > 0
    ensures Pow(b, w) > 0
  {
    if w > 0 {
      PowPos(b, w - 1);
      MulStrict(0, b, Pow(b, w - 1));
    }
  }

  /** A number in `w` bytes, low byte first. */
  function Encode(n: nat, w: nat): (r: string)
    ensures |r| == w
  {
    if w == 0 then [] else [(n % 256) as char] + Encode(n / 256, w - 1)
  }

  function Decode(s: string): nat {
    if s == [] then 0 else s[0] as nat + 256 * Decode(s[1..])
  }

  lemma {:induction false} DecodeEncode(n: nat, w: nat)
    requires n < Pow(256, w)
    ensures Decode(Encode(n, w)) == n
  {
    if w > 0 {
      DecodeEncode(n / 256, w - 1);
      assert Encode(n, w)[1..] == Encode(n / 256, w - 1);
    }
  }

  /** The sizes of the machine's types, and of a file name in a record. */
  datatype Widths = Widths(long: nat, daddr: nat, name: nat)
  {
    ghost predicate Ok() { long > 0 && daddr > 0 && name > 0 }

    /** DDIRTY, the top bit of an address. */
    function Dirty(): nat
      requires daddr > 0
    { 128 * Pow(256, daddr - 1) }

    function HeadSize(): nat { 5 * long + daddr + name }

    function EntrySize(): nat { 2 * name + 3 * long }
  }

  /** A line address with its redisplay mark, as it stands in a line descriptor. */
  datatype LineDesc = LineDesc(addr: nat, dirty: bool)

  function EncodeAddr(w: Widths, l: LineDesc): (r: string)
    requires w.Ok()
    ensures |r| == w.daddr
  {
    Encode(l.addr + if l.dirty then w.Dirty() else 0, w.daddr)
  }

  /** getaddr: the mark is stripped. */
  function DecodeAddr(w: Widths, s: string): nat
    requires w.Ok()
  {
    PowPos(256, w.daddr - 1);
    Decode(s) % w.Dirty()
  }

  lemma DecodeEncodeAddr(w: Widths, l: LineDesc)
    requires w.Ok() && l.addr < w.Dirty()
    ensures DecodeAddr(w, EncodeAddr(w, l)) == l.addr
  {
    var d := w.Dirty();
    assert Pow(256, w.daddr) == 256 * Pow(256, w.daddr - 1) == d + d;
    DecodeEncode(l.addr + if l.dirty then d else 0, w.daddr);
    if l.dirty {
      DivModUnique(l.addr + d, d, 1, l.addr);
    } else {
      DivModUnique(l.addr, d, 0, l.addr);
    }
  }

  /** A name in a field of `n` bytes, NUL-filled; a longer one is cut (null_ncpy). */
  function EncodeName(s: string, n: nat): (r: string)
    requires n > 0
    ensures |r| == n
  {
    var t := if |s| < n then s else s[..n - 1];
    t + seq(n - |t|, _ => NUL)
  }

  function CString(s: string): string {
    if s == [] || s[0] == NUL then [] else [s[0]] + CString(s[1..])
  }

  lemma {:induction false} CStringOf(s: string, t: string)
    requires NUL !in s
    ensures CString(s + [NUL] + t) == s
  {
    if s != [] {
      assert (s + [NUL] + t)[1..] == s[1..] + [NUL] + t;
      CStringOf(s[1..], t);
    }
  }

  lemma DecodeEncodeName(s: string, n: nat)
    requires n > 0 && NUL !in s
    ensures CString(EncodeName(s, n)) == if |s| < n then s else s[..n - 1]
  {
    var t := if |s| < n then s else s[..n - 1];
    assert EncodeName(s, n) == t + [NUL] + seq(n - |t| - 1, _ => NUL);
    CStringOf(t, seq(n - |t| - 1, _ => NUL));
  }

  datatype RecHead = RecHead(RecMagic: nat, Uid: nat, Pid: nat, UpdTime: nat, Nbuffers: nat, FreePtr: nat, TmpFileName: string)

  datatype RecEntry = RecEntry(r_bname: string, r_fname: string, r_nlines: nat, r_dotline: nat, r_dotchar: nat)

  function EncodeHead(w: Widths, h: RecHead): (r: string)
    requires w.Ok()
    ensures |r| == w.HeadSize()
  {
    Encode(h.RecMagic, w.long) + Encode(h.Uid, w.long) + Encode(h.Pid, w.long) + Encode(h.UpdTime, w.long) +
    Encode(h.Nbuffers, w.long) + Encode(h.FreePtr, w.daddr) + EncodeName(h.TmpFileName, w.name)
  }

  /** The one field of the header that recovery works from. */
  function DecodeNbuffers(w: Widths, s: string): nat
    requires |s| == w.HeadSize()
  {
    Decode(s[4 * w.long..5 * w.long])
  }

  lemma HeadCount(w: Widths, h: RecHead)
    requires w.Ok() && h.Nbuffers < Pow(256, w.long)
    ensures DecodeNbuffers(w, EncodeHead(w, h)) == h.Nbuffers
  {
    var a := Encode(h.RecMagic, w.long) + Encode(h.Uid, w.long) + Encode(h.Pid, w.long) + Encode(h.UpdTime, w.long);
    var b := Encode(h.FreePtr, w.daddr) + EncodeName(h.TmpFileName, w.name);
    assert EncodeHead(w, h) == a + Encode(h.Nbuffers, w.long) + b;
    DecodeEncode(h.Nbuffers, w.long);
  }

  function EncodeEntry(w: Widths, e: RecEntry): (r: string)
    requires w.Ok()
    ensures |r| == w.EntrySize()
  {
    EncodeName(e.r_bname, w.name) + EncodeName(e.r_fname, w.name) +
    Encode(e.r_nlines, w.long) + Encode(e.r_dotline, w.long) + Encode(e.r_dotchar, w.long)
  }

  function DecodeEntry(w: Widths, s: string): RecEntry
    requires |s| == w.EntrySize()
  {
    var n, l := w.name, w.long;
    RecEntry(CString(s[..n]), CString(s[n..2 * n]), Decode(s[2 * n..2 * n + l]),
             Decode(s[2 * n + l..2 * n + 2 * l]), Decode(s[2 * n + 2 * l..]))
  }

  ghost predicate EntryFits(w: Widths, e: RecEntry) {
    && w.Ok()
    && NUL !in e.r_bname && NUL !in e.r_fname && |e.r_bname| < w.name && |e.r_fname| < w.name
    && e.r_nlines < Pow(256, w.long) && e.r_dotline < Pow(256, w.long) && e.r_dotchar < Pow(256, w.long)
  }

  lemma DecodeEncodeEntry(w: Widths, e: RecEntry)
    requires EntryFits(w, e)
    ensures DecodeEntry(w, EncodeEntry(w, e)) == e
  {
    hide Encode, EncodeName, CString, Decode, Pow;
    var n, l, s := w.name, w.long, EncodeEntry(w, e);
    DecodeEncodeName(e.r_bname, n);
    DecodeEncodeName(e.r_fname, n);
    DecodeEncode(e.r_nlines, l);
    DecodeEncode(e.r_dotline, l);
    DecodeEncode(e.r_dotchar, l);
    assert s[..n] == EncodeName(e.r_bname, n);
    assert s[n..2 * n] == EncodeName(e.r_fname, n);
    assert s[2 * n..2 * n + l] == Encode(e.r_nlines, l);
    assert s[2 * n + l..2 * n + 2 * l] == Encode(e.r_dotline, l);
    assert s[2 * n + 2 * l..] == Encode(e.r_dotchar, l);
  }
}
