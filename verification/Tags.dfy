/** Looking a tag up in a sorted tags file by byte offset. */
module Tags {
  import opened Geometry
  import opened StdFile

  /** The bytes of a file of newline-terminated lines. */
  function Join(lines: seq<string>): string {
    if lines == [] then [] else lines[0] + [EOL] + Join(lines[1..])
  }

  /** Where line `k` starts. */
  function StartOf(lines: seq<string>, k: nat): nat
    requires k <= |lines|
  {
    if k == 0 then 0 else |lines[0]| + 1 + StartOf(lines[1..], k - 1)
  }

  /** The sign of strncmp(line, tag, strlen(tag)): 0 if the line starts with the tag. */
  function Cmp(line: string, tag: string): (r: int)
    ensures -1 <= r <= 1 && (r == 0 <==> tag <= line)
  {
    if tag == [] then 0
    else if line == [] || line[0] < tag[0] then -1
    else if line[0] > tag[0] then 1
    else
      assert [tag[0]] + tag[1..] == tag && [line[0]] + line[1..] == line;
      Cmp(line[1..], tag[1..])
  }

  /** Byte order. */
  predicate NotAfter(a: string, b: string) {
    if a == [] then true
    else if b == [] then false
    else if a[0] != b[0] then a[0] < b[0]
    else NotAfter(a[1..], b[1..])
  }

  lemma {:induction false} CmpMonotone(a: string, b: string, tag: string)
    requires NotAfter(a, b)
    ensures Cmp(a, tag) <= Cmp(b, tag)
  {
    if tag != [] && a != [] && b != [] && a[0] == b[0] == tag[0] { CmpMonotone(a[1..], b[1..], tag[1..]); }
  }

  ghost predicate InOrder(lines: seq<string>) {
    forall i, j :: 0 <= i <= j < |lines| ==> NotAfter(lines[i], lines[j])
  }

  /** Lines with neither newlines nor NULs, and with their newline shorter than half a block. */
  ghost predicate Proper(lines: seq<string>, blockSize: nat) {
    forall k :: 0 <= k < |lines| ==> EOL !in lines[k] && NUL !in lines[k] && 2 * (|lines[k]| + 1) < blockSize
  }

  /** What the sequential scan from the top finds: the first line that starts with the tag, unless a line beyond the tag comes first. */
  function Scan(lines: seq<string>, tag: string): (k: int)
    ensures -1 <= k < |lines| && (k >= 0 ==> tag <= lines[k])
  {
    if lines == [] || Cmp(lines[0], tag) > 0 then -1
    else if Cmp(lines[0], tag) == 0 then 0
    else var k := Scan(lines[1..], tag); if k < 0 then -1 else k + 1
  }

  lemma {:induction false} ScanFinds(lines: seq<string>, tag: string, k: nat)
    requires InOrder(lines) && k < |lines| && tag <= lines[k]
    ensures 0 <= Scan(lines, tag) <= k
  {
    CmpMonotone(lines[0], lines[k], tag);
    if k > 0 && Cmp(lines[0], tag) != 0 { ScanFinds(lines[1..], tag, k - 1); }
  }

  /** Skipping lines before the tag changes nothing. */
  lemma {:induction false} ScanSkips(lines: seq<string>, tag: string, k: nat)
    requires k <= |lines| && forall j :: 0 <= j < k ==> Cmp(lines[j], tag) < 0
    ensures Scan(lines, tag) == (var r := Scan(lines[k..], tag); if r < 0 then -1 else r + k)
  {
    if k > 0 {
      ScanSkips(lines[1..], tag, k - 1);
      assert lines[1..][k - 1..] == lines[k..];
    }
  }

  lemma {:induction false} JoinAt(lines: seq<string>, k: nat)
    requires k <= |lines|
    ensures StartOf(lines, k) <= |Join(lines)| && Join(lines)[StartOf(lines, k)..] == Join(lines[k..])
    ensures k < |lines| ==> StartOf(lines, k + 1) == StartOf(lines, k) + |lines[k]| + 1 <= |Join(lines)|
    ensures StartOf(lines, |lines|) == |Join(lines)|
  {
    if lines != [] {
      var first := lines[0] + [EOL];
      if k > 0 {
        JoinAt(lines[1..], k - 1);
        var at := StartOf(lines[1..], k - 1);
        assert (first + Join(lines[1..]))[|first| + at..] == Join(lines[1..])[at..];
        assert lines[1..][k - 1..] == lines[k..];
      } else {
        JoinAt(lines[1..], 0);
      }
    }
  }

  /** The line that an offset falls into. */
  lemma {:induction false} LineAt(lines: seq<string>, pos: nat) returns (k: nat)
    requires pos < |Join(lines)|
    ensures k < |lines| && StartOf(lines, k) <= pos < StartOf(lines, k + 1)
  {
    if pos <= |lines[0]| {
      k := 0;
    } else {
      k := LineAt(lines[1..], pos - |lines[0]| - 1);
      k := k + 1;
    }
  }

  lemma {:induction false} AfterIs(part: string, rest: string)
    requires EOL !in part
    ensures AfterLine(part + [EOL] + rest) == rest && EOL in part + [EOL] + rest
  {
    if part == [] {
      assert ([] + [EOL] + rest)[1..] == rest;
    } else {
      AfterIs(part[1..], rest);
      assert (part + [EOL] + rest)[1..] == part[1..] + [EOL] + rest;
      assert part[0] in part;
    }
  }

  /** From the middle of a line, the next line is the one after it. */
  lemma NextLine(lines: seq<string>, k: nat, pos: nat)
    requires k < |lines| && EOL !in lines[k] && StartOf(lines, k) <= pos < StartOf(lines, k + 1)
    ensures pos < |Join(lines)| && EOL in Join(lines)[pos..] && AfterLine(Join(lines)[pos..]) == Join(lines[k + 1..])
  {
    JoinAt(lines, k);
    JoinAt(lines, k + 1);
    var off := pos - StartOf(lines, k);
    var all := Join(lines);
    assert all[pos..] == all[StartOf(lines, k)..][off..];
    var rest := Join(lines[k + 1..]);
    assert lines[k..][0] == lines[k] && lines[k..][1..] == lines[k + 1..];
    assert Join(lines[k..]) == lines[k] + [EOL] + rest;
    assert (lines[k] + [EOL] + rest)[off..] == lines[k][off..] + [EOL] + rest;
    AfterIs(lines[k][off..], rest);
  }

  lemma {:induction false} ReadIs(line: string, rest: string, room: nat)
    requires EOL !in line && NUL !in line && |line| <= room
    ensures ReadLine(line + [EOL] + rest, room) == LineRead(line, rest, ByNewline)
  {
    if line == [] {
      assert [] + [EOL] + rest == [EOL] + rest;
      ReadLineCons(EOL, rest, room);
    } else {
      assert line + [EOL] + rest == [line[0]] + (line[1..] + [EOL] + rest);
      ReadLineCons(line[0], line[1..] + [EOL] + rest, room);
      ReadIs(line[1..], rest, room - 1);
      assert line[0] in line && [line[0]] + line[1..] == line;
    }
  }

  /** How many characters agree. */
  function NumComp(a: string, b: string): (n: nat)
    ensures n <= |a| && n <= |b| && a[..n] == b[..n]
  {
    if a == [] || b == [] || a[0] != b[0] then 0
    else
      var n := NumComp(a[1..], b[1..]);
      assert a == [a[0]] + a[1..] && b == [b[0]] + b[1..];
      assert a[..n + 1] == [a[0]] + a[1..][..n];
      assert b[..n + 1] == [b[0]] + b[1..][..n];
      n + 1
  }

  /** A character of a string, as C sees it. */
  function CharAt(s: string, n: nat): char
    requires n <= |s|
  {
    if n < |s| then s[n] else NUL
  }

  method numcomp(s1: string, s2: string) returns (count: nat)
    requires NUL !in s1 && NUL !in s2
    ensures count == NumComp(s1, s2)
  {
    count := 0;
    while CharAt(s1, count) != NUL && CharAt(s1, count) == CharAt(s2, count)
      invariant count <= |s1| && count <= |s2| && NumComp(s1, s2) == count + NumComp(s1[count..], s2[count..])
      decreases |s1| - count
    {
      assert s1[count..][1..] == s1[count + 1..] && s2[count..][1..] == s2[count + 1..];
      count := count + 1;
    }
    if count < |s1| && count < |s2| { assert s1[count] in s1; }
  }

  /** The characters after the agreement order a line and a tag. */
  lemma {:induction false} NumCompOrders(line: string, tag: string)
    requires NUL !in line && NUL !in tag
    ensures var n := NumComp(line, tag);
      && (n == |tag| <==> Cmp(line, tag) == 0)
      && (CharAt(line, n) < CharAt(tag, n) <==> Cmp(line, tag) < 0)
  {
    if line != [] { assert line[0] in line; }
    if tag != [] { assert tag[0] in tag; }
    if line != [] && tag != [] && line[0] == tag[0] {
      NumCompOrders(line[1..], tag[1..]);
    }
  }

  predicate jiswhite(c: char) { c == ' ' || c == '\t' }

  /** The first line that starts at or after `pos`, or at the top the first line. */
  ghost predicate FirstFrom(lines: seq<string>, pos: nat, k: nat) {
    && k <= |lines|
    && (if pos == 0 then k == 0 else 0 < k && StartOf(lines, k - 1) <= pos < StartOf(lines, k))
  }

  /** Reads the first whole line after an offset well within a file: there is one. */
  method Probe(fp: InFile, mid: nat, upper: nat, blockSize: nat, ghost lines: seq<string>)
    returns (bail: bool, line: string, ghost k: nat)
    requires fp.Valid() && !fp.f_eof && fp.contents == Join(lines) && Proper(lines, blockSize)
    requires 0 < mid < upper <= |fp.contents| && 2 * (upper - mid) >= blockSize
    modifies fp, fp.f_base
    ensures fp.Valid() && !fp.f_eof && !bail && 0 < k < |lines| && line == lines[k] && FirstFrom(lines, mid, k)
  {
    hide InFile.Valid, InFile.Rest, Join, ReadLine, AfterLine, StartOf, Cmp, NumComp;
    ghost var at := LineAt(lines, mid);
    k := at + 1;
    NextLine(lines, at, mid);
    JoinAt(lines, at);
    JoinAt(lines, k);
    assert k < |lines| by { JoinAt(lines, |lines|); }
    fp.f_seek(mid);
    fp.f_toNL();
    assert lines[k..][0] == lines[k] && lines[k..][1..] == lines[k + 1..];
    JoinIs(lines[k..]);
    ReadIs(lines[k], Join(lines[k + 1..]), blockSize - 1);
    var ended;
    bail, line, ended := fp.f_gets([], blockSize);
  }

  lemma JoinIs(lines: seq<string>)
    ensures Join(lines) == if lines == [] then [] else lines[0] + [EOL] + Join(lines[1..])
  {}

  /** The sequential search over what is left of the file. */
  method SearchOn(fp: InFile, tag: string, blockSize: nat, ghost lines: seq<string>) returns (found: bool, line: string)
    requires fp.Valid() && !fp.f_eof && fp.Rest() == Join(lines) && Proper(lines, blockSize) && blockSize > 0 && tag != []
    modifies fp, fp.f_base
    ensures var k := Scan(lines, tag); if found then k >= 0 && line == lines[k] else k < 0
  {
    hide InFile.Valid, InFile.Rest, Join, ReadLine, Scan;
    ghost var rest := lines;
    ghost var k := 0;
    assert lines[0..] == lines;
    while true
      invariant fp.Valid() && !fp.f_eof && k <= |lines| && rest == lines[k..] && fp.Rest() == Join(rest) && Proper(rest, blockSize)
      invariant Scan(lines, tag) == (var r := Scan(rest, tag); if r < 0 then -1 else r + k)
      decreases |lines| - k
    {
      JoinIs(rest);
      ScanIs(rest, tag);
      ReadLineNone(blockSize - 1);
      if rest != [] { ReadIs(rest[0], Join(rest[1..]), blockSize - 1); }
      var yes, ended;
      yes, line, ended := fp.f_gets([], blockSize);
      if yes { return false, []; }
      var cmp: int := CharAt(line, 0) as int - tag[0] as int;
      FirstCharacter(line, tag);
      if cmp == 0 {
        cmp := Cmp(line, tag);
        if cmp == 0 { return true, line; }
      }
      if cmp > 0 { return false, []; }
      k, rest := k + 1, rest[1..];
    }
  }

  lemma ScanIs(lines: seq<string>, tag: string)
    ensures Scan(lines, tag) ==
      if lines == [] || Cmp(lines[0], tag) > 0 then -1
      else if Cmp(lines[0], tag) == 0 then 0
      else var k := Scan(lines[1..], tag); if k < 0 then -1 else k + 1
  {}

  /** A first look at the first characters tells as much as strncmp would. */
  lemma FirstCharacter(line: string, tag: string)
    requires tag != []
    ensures CharAt(line, 0) < tag[0] ==> Cmp(line, tag) < 0
    ensures CharAt(line, 0) > tag[0] ==> Cmp(line, tag) > 0
  {}

  /**
   * Finds a line that starts with the tag exactly when the scan from the top does.  The binary search never runs into
   * the end of the file (`bailed`).
   */
  method lookup_tag(contents: string, bufsize: nat, blockSize: nat, tag: string, ghost lines: seq<string>)
    returns (found: bool, line: string, bailed: bool)
    requires contents == Join(lines) && InOrder(lines) && Proper(lines, blockSize) && blockSize >= 2 && bufsize > 0
    requires tag != [] && NUL !in tag
    ensures !bailed
    ensures found <==> Scan(lines, tag) >= 0
    ensures found ==> tag <= line && line in lines
  {
    hide InFile.Valid, InFile.Rest, Join, ReadLine, Scan, StartOf, Cmp, NumComp, InOrder;
    var fp := new InFile(contents, bufsize);
    bailed := false;
    var lower, upper := 0, |contents|;
    ghost var k := 0;
    ghost var hit := false;
    while true
      invariant fp.Valid() && !fp.f_eof && fp.contents == contents && fresh(fp) && fresh(fp.f_base) && !bailed
      invariant 0 <= lower <= upper <= |contents| && FirstFrom(lines, lower, k) && !hit
      invariant forall j :: 0 <= j < k ==> Cmp(lines[j], tag) < 0
      decreases upper - lower
    {
      if upper - lower < blockSize { break; }
      var mid := (lower + upper) / 2;
      ghost var k';
      var bail;
      bail, line, k' := Probe(fp, mid, upper, blockSize, lines);
      if bail {
        bailed := true;
        break;
      }
      var chars_eq := numcomp(line, tag);
      NumCompOrders(line, tag);
      if chars_eq == |tag| && jiswhite(CharAt(line, chars_eq)) {
        lower, k, hit := mid, k', true;
        break;
      }
      if CharAt(line, chars_eq) < CharAt(tag, chars_eq) {
        forall j | 0 <= j < k' ensures Cmp(lines[j], tag) < 0 { Ordered(lines, j, k', tag); }
        lower, k := mid, k';
      } else {
        upper := mid;
      }
    }
    fp.f_seek(lower);
    ToLine(lines, lower, k);
    if lower > 0 { fp.f_toNL(); }
    found, line := SearchOn(fp, tag, blockSize, lines[k..]);
    if hit {
      ScanHit(lines, k, tag);
    } else {
      ScanSkips(lines, tag, k);
    }
    ScanLine(lines[k..], tag);
  }

  lemma Ordered(lines: seq<string>, j: nat, k: nat, tag: string)
    requires InOrder(lines) && j <= k < |lines|
    ensures Cmp(lines[j], tag) <= Cmp(lines[k], tag)
  {
    CmpMonotone(lines[j], lines[k], tag);
  }

  lemma ToLine(lines: seq<string>, pos: nat, k: nat)
    requires FirstFrom(lines, pos, k) && pos <= |Join(lines)| && forall j :: 0 <= j < |lines| ==> EOL !in lines[j]
    ensures pos > 0 ==> EOL in Join(lines)[pos..] && AfterLine(Join(lines)[pos..]) == Join(lines[k..])
    ensures pos == 0 ==> Join(lines)[pos..] == Join(lines[k..])
  {
    if pos > 0 { NextLine(lines, k - 1, pos); } else { assert lines[0..] == lines; }
  }

  lemma ScanHit(lines: seq<string>, k: nat, tag: string)
    requires InOrder(lines) && k < |lines| && Cmp(lines[k], tag) == 0
    ensures Scan(lines, tag) >= 0 && Scan(lines[k..], tag) == 0
  {
    ScanFinds(lines, tag, k);
    assert lines[k..][0] == lines[k];
  }

  lemma ScanLine(lines: seq<string>, tag: string)
    ensures var k := Scan(lines, tag); k >= 0 ==> tag <= lines[k]
  {}

  /** In a sorted file the scan from the top misses no line that starts with the tag. */
  lemma ScanComplete(lines: seq<string>, tag: string)
    requires InOrder(lines)
    ensures Scan(lines, tag) >= 0 <==> exists k :: 0 <= k < |lines| && tag <= lines[k]
    ensures forall k :: 0 <= k < |lines| && tag <= lines[k] ==> Scan(lines, tag) <= k
  {
    forall k | 0 <= k < |lines| && tag <= lines[k] ensures 0 <= Scan(lines, tag) <= k { ScanFinds(lines, tag, k); }
  }
}
