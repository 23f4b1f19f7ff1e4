/** Buffered file input and output.  The kernel may deliver and accept bytes in any portions. */
module StdFile {
  import opened Geometry

  datatype Ended = ByNewline | ByEof | TooLong

  datatype LineRead = LineRead(line: string, rest: string, ended: Ended)

  /** One line of input into `room` characters: NULs are dropped; the character that does not fit
      is lost. */
  function ReadLine(src: string, room: nat): LineRead {
    if src == [] then LineRead([], [], ByEof)
    else if src[0] == NUL then ReadLine(src[1..], room)
    else if src[0] == EOL then LineRead([], src[1..], ByNewline)
    else if room == 0 then LineRead([], src[1..], TooLong)
    else
      var r := ReadLine(src[1..], room - 1);
      r.(line := [src[0]] + r.line)
  }

  lemma ReadLineStep(src: string, room: nat)
    ensures var r := ReadLine(src, room);
      if src == [] then r == LineRead([], [], ByEof)
      else if src[0] == NUL then r == ReadLine(src[1..], room)
      else if src[0] == EOL then r == LineRead([], src[1..], ByNewline)
      else if room == 0 then r == LineRead([], src[1..], TooLong)
      else var q := ReadLine(src[1..], room - 1); r == q.(line := [src[0]] + q.line)
  {}

  /** What follows the first line. */
  function AfterLine(src: string): string {
    if src == [] then [] else if src[0] == EOL then src[1..] else AfterLine(src[1..])
  }

  lemma AfterLineCons(c: char, rest: string)
    ensures AfterLine([c] + rest) == if c == EOL then rest else AfterLine(rest)
    ensures EOL in [c] + rest <==> c == EOL || EOL in rest
  {
    assert ([c] + rest)[1..] == rest;
  }

  /** A line of which `out` has been read already. */
  function Onto(out: string, r: LineRead): LineRead { r.(line := out + r.line) }

  lemma BufferedIs(a: string, b: string, rest: string)
    requires a != [] && rest == (if |a| > 1 then a[1..] else []) + b
    ensures a + b == [a[0]] + rest
  {}

  lemma OntoNothing(r: LineRead)
    ensures Onto([], r) == r
  {
    assert [] + r.line == r.line;
  }

  lemma OntoEmpty(out: string, rest: string, ended: Ended)
    ensures Onto(out, LineRead([], rest, ended)) == LineRead(out, rest, ended)
  {
    assert out + [] == out;
  }

  lemma ReadLineNone(room: nat)
    ensures ReadLine([], room) == LineRead([], [], ByEof)
  {}

  lemma ReadLineCons(c: char, rest: string, room: nat)
    ensures var r := ReadLine([c] + rest, room);
      if c == NUL then r == ReadLine(rest, room)
      else if c == EOL then r == LineRead([], rest, ByNewline)
      else if room == 0 then r == LineRead([], rest, TooLong)
      else var q := ReadLine(rest, room - 1); r == q.(line := [c] + q.line)
  {
    assert ([c] + rest)[1..] == rest;
  }

  lemma OntoOne(out: string, c: char, r: LineRead)
    ensures Onto(out, r.(line := [c] + r.line)) == Onto(out + [c], r)
  {
    assert out + ([c] + r.line) == (out + [c]) + r.line;
  }

  class InFile {
    const contents: string
    const f_base: array<char>
    var pos: nat
    var f_cnt: int
    var f_ptr: nat
    var f_eof: bool

    ghost predicate Valid()
      reads this, f_base
    {
      && f_base.Length > 0
      && pos <= |contents|
      && (f_cnt > 0 ==> f_ptr + f_cnt <= f_base.Length)
      && (f_eof ==> f_cnt <= 0)
    }

    /** What is still to be read; at end of file nothing is, wherever one seeks. */
    ghost function Rest(): string
      reads this, f_base
      requires Valid()
    {
      if f_eof then []
      else (if f_cnt > 0 then f_base[f_ptr..f_ptr + f_cnt] else []) + contents[pos..]
    }

    constructor (contents: string, bufsize: nat)
      requires bufsize > 0
      ensures Valid() && this.contents == contents && Rest() == contents && !f_eof && fresh(f_base)
    {
      this.contents := contents;
      f_base := new char[bufsize](_ => NUL);
      pos, f_cnt, f_ptr, f_eof := 0, 0, 0, false;
    }

    method f_filbuf() returns (eof: bool, c: char)
      requires Valid() && f_cnt < 0
      modifies this`pos, this`f_cnt, this`f_ptr, this`f_eof, f_base
      ensures Valid()
      ensures eof == (old(Rest()) == []) && (eof ==> f_eof && Rest() == [])
      ensures !eof ==> old(Rest()) == [c] + Rest() && f_eof == old(f_eof)
    {
      if f_eof { return true, NUL; }
      f_ptr := 0;
      if pos == |contents| {
        f_cnt := 0;
        f_eof := true;
        return true, NUL;
      }
      c := Refill();
      eof := false;
    }

    /** The buffer is filled, and its first character taken. */
    method Refill() returns (c: char)
      requires Valid() && f_cnt < 0 && !f_eof && pos < |contents|
      modifies this`pos, this`f_cnt, this`f_ptr, f_base
      ensures Valid() && old(Rest()) == [c] + Rest()
    {
      assert Rest() == [] + contents[pos..] == contents[pos..];
      var n := Read();
      ghost var got := f_base[..n];
      c := f_base[0];
      f_cnt, f_ptr := n - 1, 1;
      assert f_base[1..n] == got[1..];
      BufferedIs(got, contents[pos..], Rest());
    }

    /** read() delivers some of what is asked for. */
    method Read() returns (n: nat)
      requires f_base.Length > 0 && pos < |contents|
      modifies this`pos, f_base
      ensures 0 < n <= f_base.Length && pos <= |contents| && old(contents[pos..]) == f_base[..n] + contents[pos..]
    {
      n :| 0 < n <= f_base.Length && n <= |contents| - pos;
      ghost var rest := contents[pos..];
      forall i | 0 <= i < n { f_base[i] := contents[pos + i]; }
      pos := pos + n;
      assert f_base[..n] == rest[..n] && contents[pos..] == rest[n..];
    }

    method f_getc() returns (eof: bool, c: char)
      requires Valid()
      modifies this`pos, this`f_cnt, this`f_ptr, this`f_eof, f_base
      ensures Valid()
      ensures eof == (old(Rest()) == []) && (eof ==> f_eof && Rest() == [])
      ensures !eof ==> old(Rest()) == [c] + Rest() && f_eof == old(f_eof)
    {
      f_cnt := f_cnt - 1;
      if f_cnt < 0 {
        eof, c := f_filbuf();
      } else {
        ghost var got := f_base[f_ptr..f_ptr + f_cnt + 1];
        eof, c := false, f_base[f_ptr];
        f_ptr := f_ptr + 1;
        assert f_base[f_ptr..f_ptr + f_cnt] == got[1..];
        BufferedIs(got, contents[pos..], Rest());
      }
    }

    /** Reads a line into a buffer of `max` characters that held `buf`; `yes` says that there is
        nothing more to be had.  After a line too long the buffer is not closed by a NUL: `out` is
        then only what was put in it. */
    method f_gets(buf: string, max: nat) returns (yes: bool, out: string, ended: Ended)
      requires Valid() && max > 0
      modifies this`pos, this`f_cnt, this`f_ptr, this`f_eof, f_base
      ensures Valid()
      ensures old(f_eof) ==> yes && out == buf && Rest() == old(Rest()) && ended == ByEof
      ensures !old(f_eof) ==> LineRead(out, Rest(), ended) == ReadLine(old(Rest()), max - 1)
      ensures yes == !ended.ByNewline? && (ended.ByNewline? ==> f_eof == old(f_eof))
    {
      hide Valid, Rest, ReadLine, Onto;
      if f_eof { return true, buf, ByEof; }
      yes, out, ended := GetLine(max);
    }

    method GetLine(max: nat) returns (yes: bool, out: string, ended: Ended)
      requires Valid() && max > 0 && !f_eof
      modifies this`pos, this`f_cnt, this`f_ptr, this`f_eof, f_base
      ensures Valid()
      ensures LineRead(out, Rest(), ended) == ReadLine(old(Rest()), max - 1)
      ensures yes == !ended.ByNewline? && (ended.ByNewline? ==> f_eof == old(f_eof))
    {
      hide Valid, Rest, ReadLine, Onto;
      out := [];
      ghost var src := Rest();
      OntoNothing(ReadLine(src, max - 1));
      while true
        invariant Valid() && |out| <= max - 1 && !f_eof
        invariant ReadLine(src, max - 1) == Onto(out, ReadLine(Rest(), max - 1 - |out|))
        decreases |Rest()|
      {
        ghost var room := max - 1 - |out|;
        var eof, c := f_getc();
        OntoEmpty(out, Rest(), if eof then ByEof else if c == EOL then ByNewline else TooLong);
        if eof {
          ReadLineNone(room);
          return true, out, ByEof;
        }
        ReadLineCons(c, Rest(), room);
        if c == EOL { return false, out, ByNewline; }
        if c == NUL { continue; }
        if |out| >= max - 1 { return true, out, TooLong; }
        OntoOne(out, c, ReadLine(Rest(), max - 2 - |out|));
        out := out + [c];
      }
    }

    /** Moves to an offset; the end of file, once met, is not forgotten.  Beyond the end there is nothing
        to read, just as at the end. */
    method f_seek(offset: nat)
      requires Valid()
      modifies this`pos, this`f_cnt
      ensures Valid() && Rest() == if f_eof || offset > |contents| then [] else contents[offset..]
    {
      f_cnt := 0;
      pos := if offset <= |contents| then offset else |contents|;
    }

    /** Moves to the start of the next line. */
    method f_toNL()
      requires Valid()
      modifies this`pos, this`f_cnt, this`f_ptr, this`f_eof, f_base
      ensures Valid() && Rest() == AfterLine(old(Rest())) && (EOL in old(Rest()) ==> f_eof == old(f_eof))
    {
      if f_eof { return; }
      hide Valid, Rest, AfterLine;
      ghost var src := Rest();
      while true
        invariant Valid() && AfterLine(Rest()) == AfterLine(src) && f_eof == old(f_eof) && (EOL in src ==> EOL in Rest())
        decreases |Rest()|
      {
        var eof, c := f_getc();
        if eof { return; }
        AfterLineCons(c, Rest());
        if c == EOL { return; }
      }
    }
  }

  /** A file's bytes after `s` is written at offset `at`. */
  function WriteAt(file: string, at: nat, s: string): (r: string)
    requires at <= |file|
    ensures |r| >= at + |s|
  {
    file[..at] + s + (if at + |s| <= |file| then file[at + |s|..] else [])
  }

  lemma WriteTwice(file: string, at: nat, s: string, t: string)
    requires at <= |file|
    ensures WriteAt(WriteAt(file, at, s), at + |s|, t) == WriteAt(file, at, s + t)
  {}

  lemma WriteNothing(file: string, at: nat)
    requires at <= |file|
    ensures WriteAt(file, at, []) == file
  {}

  lemma AtWithin(file: string, at: nat, s: string)
    requires at <= |file|
    ensures at + |s| <= |WriteAt(file, at, s)|
  {}

  class OutFile {
    const f_base: array<char>
    var file: string
    var pos: nat
    var f_cnt: int
    var f_ptr: nat

    ghost predicate Shape()
      reads this`file, this`pos, this`f_ptr, f_base
    {
      f_base.Length > 0 && pos <= |file| && f_ptr <= f_base.Length
    }

    ghost predicate Valid()
      reads this, f_base
    {
      Shape() && 0 <= f_cnt && f_ptr + f_cnt <= f_base.Length
    }

    /** The file as it will be once the buffer is written out, and where writing goes on. */
    ghost function Contents(): string
      reads this`file, this`pos, this`f_ptr, f_base
      requires Shape()
    {
      WriteAt(file, pos, f_base[..f_ptr])
    }

    ghost function At(): nat
      reads this`file, this`pos, this`f_ptr, f_base
      requires Shape()
    {
      pos + f_ptr
    }

    constructor (file: string, bufsize: nat)
      requires bufsize > 0
      ensures Valid() && Contents() == file && At() == 0 && fresh(f_base)
    {
      f_base := new char[bufsize](_ => NUL);
      this.file, pos, f_cnt, f_ptr := file, 0, 0, 0;
    }

    method flushout()
      requires Shape()
      modifies this`file, this`pos, this`f_cnt, this`f_ptr
      ensures Valid() && file == Contents() == old(Contents()) && At() == old(At())
      ensures f_ptr == 0 && f_cnt == f_base.Length
    {
      hide WriteAt;
      var p := 0;
      WriteNothing(file, pos);
      while f_ptr - p > 0
        invariant 0 <= p <= f_ptr == old(f_ptr) <= f_base.Length
        invariant pos == old(pos) + p <= |file|
        invariant file == WriteAt(old(file), old(pos), f_base[..p])
      {
        // write() takes some of what it is given
        var wr :| 0 < wr <= f_ptr - p;
        WriteTwice(old(file), old(pos), f_base[..p], f_base[p..p + wr]);
        assert f_base[..p] + f_base[p..p + wr] == f_base[..p + wr];
        AtWithin(file, pos, f_base[p..p + wr]);
        file := WriteAt(file, pos, f_base[p..p + wr]);
        pos := pos + wr;
        p := p + wr;
      }
      WriteNothing(file, pos);
      f_cnt := f_base.Length;
      f_ptr := 0;
    }

    method f_putc(c: char)
      requires Valid()
      modifies this`file, this`pos, this`f_cnt, this`f_ptr, f_base
      ensures Valid() && At() == old(At()) + 1
      ensures old(At()) <= |old(Contents())| && Contents() == WriteAt(old(Contents()), old(At()), [c])
    {
      hide WriteAt, Contents;
      f_cnt := f_cnt - 1;
      while f_cnt < 0
        invariant Shape() && f_cnt >= -1 && f_ptr + f_cnt + 1 <= f_base.Length
        invariant Contents() == old(Contents()) && At() == old(At())
        decreases f_cnt < 0
      {
        flushout();
        f_cnt := f_cnt - 1;
      }
      Store(c);
    }

    method Store(c: char)
      requires Shape() && f_ptr < f_base.Length
      modifies this`f_ptr, f_base
      ensures Shape() && f_ptr == old(f_ptr) + 1
      ensures old(At()) <= |old(Contents())| && Contents() == WriteAt(old(Contents()), old(At()), [c])
    {
      ghost var was := f_base[..f_ptr];
      WriteTwice(file, pos, was, [c]);
      AtWithin(file, pos, was);
      hide WriteAt;
      f_base[f_ptr] := c;
      assert f_base[..f_ptr + 1] == was + [c];
      f_ptr := f_ptr + 1;
    }

    lemma Here()
      requires Shape()
      ensures At() <= |Contents()|
    {
      AtWithin(file, pos, f_base[..f_ptr]);
    }

    method fputnchar(s: string)
      requires Valid()
      modifies this`file, this`pos, this`f_cnt, this`f_ptr, f_base
      ensures Valid() && At() == old(At()) + |s|
      ensures old(At()) <= |old(Contents())| && Contents() == WriteAt(old(Contents()), old(At()), s)
    {
      hide WriteAt, Contents;
      Here();
      ghost var file0, at0 := Contents(), At();
      WriteNothing(file0, at0);
      var i := 0;
      while i < |s|
        invariant Valid() && i <= |s| && At() == at0 + i
        invariant Contents() == WriteAt(file0, at0, s[..i])
      {
        f_putc(s[i]);
        WriteTwice(file0, at0, s[..i], [s[i]]);
        assert s[..i + 1] == s[..i] + [s[i]];
        i := i + 1;
      }
      assert s[..|s|] == s;
    }

    method f_seek(offset: nat)
      requires Valid() && offset <= |Contents()|
      modifies this`file, this`pos, this`f_cnt, this`f_ptr
      ensures Valid() && Contents() == old(Contents()) && At() == offset
    {
      flushout();
      f_cnt := 0;
      pos := offset;
    }
  }
}
