/** `String.prototype.trim` from ECMAScript. */
module JsText {

  /** ECMAScript WhiteSpace (including every Zs space separator) and LineTerminator code points. */
  predicate IsTrimmable(c: char) {
    || c == '\t' || c == '\U{000B}' || c == '\U{000C}' || c == ' ' || c == '\U{00A0}' || c == '\U{FEFF}'
    || c == '\U{1680}' || ('\U{2000}' <= c <= '\U{200A}') || c == '\U{202F}' || c == '\U{205F}' || c == '\U{3000}'
    || c == '\n' || c == '\r' || c == '\U{2028}' || c == '\U{2029}'
  }

  predicate AllTrimmable(s: string) {
    forall i :: 0 <= i < |s| ==> IsTrimmable(s[i])
  }

  /** The first position at or after `i` that holds a character trim keeps, or |s|. */
  function FirstKept(s: string, i: nat): (a: nat)
    requires i <= |s|
    ensures i <= a <= |s|
    ensures forall k :: i <= k < a ==> IsTrimmable(s[k])
    ensures a == |s| || !IsTrimmable(s[a])
    decreases |s| - i
  {
    if i < |s| && IsTrimmable(s[i]) then FirstKept(s, i + 1) else i
  }

  /** The position just after the last character in s[lo..hi) that trim keeps, or lo. */
  function EndKept(s: string, lo: nat, hi: nat): (b: nat)
    requires lo <= hi <= |s|
    ensures lo <= b <= hi
    ensures forall k :: b <= k < hi ==> IsTrimmable(s[k])
    ensures b == lo || !IsTrimmable(s[b - 1])
    decreases hi
  {
    if lo < hi && IsTrimmable(s[hi - 1]) then EndKept(s, lo, hi - 1) else hi
  }

  /** `s.trim()`: the longest part of `s` that starts and ends with a character trim keeps. */
  function Trim(s: string): (r: string)
    ensures exists a, b :: 0 <= a <= b <= |s| && r == s[a..b]
                           && AllTrimmable(s[..a]) && AllTrimmable(s[b..])
    ensures r == [] || (!IsTrimmable(r[0]) && !IsTrimmable(r[|r| - 1]))
  {
    var a := FirstKept(s, 0);
    var b := EndKept(s, a, |s|);
    assert AllTrimmable(s[..a]) && AllTrimmable(s[b..]);
    s[a..b]
  }

  /** A string that starts and ends with a kept character is its own trim. */
  lemma TrimKeeps(s: string)
    requires s == [] || (!IsTrimmable(s[0]) && !IsTrimmable(s[|s| - 1]))
    ensures Trim(s) == s
  {
    if s != [] {
      assert FirstKept(s, 0) == 0;
      assert EndKept(s, 0, |s|) == |s|;
      assert s[0..|s|] == s;
    }
  }

  /** Trimming twice is trimming once. */
  lemma TrimIdempotent(s: string)
    ensures Trim(Trim(s)) == Trim(s)
  {
    TrimKeeps(Trim(s));
  }
}
