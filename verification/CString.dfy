/** Characters and strings as C has them. */
module CString {

  /** A character, widened without sign; 0 closes every string. */
  type Ch = c: int | 0 <= c < 256

  /** A line buffer holds `s`, closed by a NUL. */
  ghost predicate Holds(buf: seq<Ch>, s: seq<Ch>) {
    |s| < |buf| && buf[..|s|] == s && buf[|s|] == 0
  }

  lemma AtNul(buf: seq<Ch>, s: seq<Ch>, n: nat)
    requires Holds(buf, s) && 0 !in s && n <= |s|
    ensures buf[n] == 0 <==> n == |s|
  {
    assert forall k :: 0 <= k < |s| ==> s[k] == buf[k] && s[k] in s;
  }
}
