/** From a pattern's text to what is found in a line: compiling and matching together. */
module ReFind {
  import opened CString
  import opened Pattern
  import opened ReCode
  import opened ReMatch
  import opened ReParse
  import opened ReSound
  import opened ReSearch
  import opened ReRoom
  import opened ReCompile

  /** The pattern's counts fit their bytes, and it has no back-references. */
  ghost predicate Fair(pattern: seq<Ch>, re: bool, folded: bool) {
    var o := Parse(pattern, re, folded);
    o.Parsed? ==> forall k :: 0 <= k < |o.alts| ==> Modest(o.alts[k])
  }

  /** LookingAt: does the pattern match at `offset`?  Nothing has been substituted in the line. */
  method LookingAt(t0: Text, pattern: seq<Ch>, folded: bool, offset: nat) returns (st: Status, ok: bool, end: nat)
    requires t0.Ok() && 0 !in pattern && offset <= |t0.line| && Fair(pattern, true, folded)
    ensures st == PatternFate(pattern, true, folded)
    ensures st.Complained? ==> Parse(pattern, true, folded) == Bad(st.e)
    ensures var t, o := t0.(crater := -1), Parse(pattern, true, folded);
      st == Done ==>
        && o.Parsed? && (ok <==> FirstAlt(t, o.alts, offset).Found?) && (ok ==> FirstAlt(t, o.alts, offset).end == end)
        && (ok <==> FitsCommitted(t, o.alts, offset)) && (ok ==> Fits(t, o.alts, offset))
        && (AllSettled(o.alts) ==> (ok <==> Fits(t, o.alts, offset)))
  {
    hide Parse, PatternFate, Fits, FitsCommitted, AllSettled, FirstAlt, Match, Compiled, Sound, Modest;
    var t := t0.(crater := -1);
    ok, end := false, 0;
    var c := new Compiler(pattern, folded);
    var b;
    ghost var o;
    st, b, o := c.REcompile(t.up, true);
    if st == Done {
      var m := new Matcher(t, b.code);
      ok := TryAlts(m, offset, b.starts, o.alts);
      end := m.REeom;
      FoundIffInLanguage(t, o.alts, offset);
    }
  }

  /** A search within a line: the pattern is compiled, and the first place in the direction `dir`
      where it fits is found. */
  method FindInLine(t: Text, pattern: seq<Ch>, re: bool, folded: bool, offset0: int, dir: Dir) returns (st: Status, ok: bool, bom: nat, eom: nat)
    requires t.Ok() && 0 !in pattern && -1 <= offset0 <= |t.line| && Fair(pattern, re, folded)
    requires t.crater == -1 || 0 <= t.crater <= offset0
    ensures st == PatternFate(pattern, re, folded)
    ensures st.Complained? ==> Parse(pattern, re, folded) == Bad(st.e)
    ensures var o := Parse(pattern, re, folded);
      var offset := if offset0 == -1 then |t.line| else offset0;
      st == Done ==>
        && o.Parsed?
        && (ok ==> InRange(t, dir, offset, bom) && FitsCommitted(t, o.alts, bom) && Fits(t, o.alts, bom) && FirstAlt(t, o.alts, bom).Found? && FirstAlt(t, o.alts, bom).end == eom)
        && (forall q: nat :: InRange(t, dir, offset, q) && FitsCommitted(t, o.alts, q) ==> ok && if dir.Forward? then bom <= q else q <= bom)
        && (AllSettled(o.alts) ==>
              forall q: nat :: InRange(t, dir, offset, q) && Fits(t, o.alts, q) ==> ok && if dir.Forward? then bom <= q else q <= bom)
  {
    hide Parse, PatternFate, Fits, FitsCommitted, AllSettled, FirstAlt, Match, Compiled, Sound, Modest, InRange;
    ok, bom, eom := false, 0, 0;
    var c := new Compiler(pattern, folded);
    var b;
    ghost var o;
    st, b, o := c.REcompile(t.up, re);
    if st == Done {
      var m := new Matcher(t, b.code);
      ok, bom := re_lindex(m, b, o.alts, offset0, dir);
      eom := m.REeom;
      forall q: nat
        ensures FirstAlt(t, o.alts, q).Found? <==> FitsCommitted(t, o.alts, q)
        ensures FirstAlt(t, o.alts, q).Found? ==> Fits(t, o.alts, q)
        ensures AllSettled(o.alts) && Fits(t, o.alts, q) ==> FirstAlt(t, o.alts, q).Found?
      {
        FoundIffInLanguage(t, o.alts, q);
      }
    }
  }
}
