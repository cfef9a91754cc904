/** Python string operations the planner relies on: str.strip() and str.startswith(). */
module Text {

  /** Python's str.isspace() for one character: the Unicode whitespace code points. */
  predicate IsSpace(c: char) {
    var n := c as int;
    || n == 0x20 || 0x09 <= n <= 0x0D || 0x1C <= n <= 0x1F
    || n == 0x85 || n == 0xA0 || n == 0x1680 || 0x2000 <= n <= 0x200A
    || n == 0x2028 || n == 0x2029 || n == 0x202F || n == 0x205F || n == 0x3000
  }

  /** Every character of s from position lo up to (not including) hi is whitespace. */
  predicate SpacesIn(s: string, lo: nat, hi: nat)
    requires hi <= |s|
  {
    forall i :: lo <= i < hi ==> IsSpace(s[i])
  }

  predicate AllSpace(s: string) {
    SpacesIn(s, 0, |s|)
  }

  /** The position of the first non-whitespace character at or after lo, or |s| if none. */
  function FirstNonSpace(s: string, lo: nat): (k: nat)
    requires lo <= |s|
    ensures lo <= k <= |s| && SpacesIn(s, lo, k)
    ensures k < |s| ==> !IsSpace(s[k])
    decreases |s| - lo
  {
    if lo < |s| && IsSpace(s[lo]) then FirstNonSpace(s, lo + 1) else lo
  }

  /** The position just after the last non-whitespace character before hi and at or after lo,
      or lo if there is none. */
  function LastNonSpace(s: string, lo: nat, hi: nat): (k: nat)
    requires lo <= hi <= |s|
    ensures lo <= k <= hi && SpacesIn(s, k, hi)
    ensures lo < k ==> !IsSpace(s[k - 1])
  {
    if lo < hi && IsSpace(s[hi - 1]) then LastNonSpace(s, lo, hi - 1) else hi
  }

  /** Python's str.strip() with no argument: the leading whitespace is cut off, then the
      trailing whitespace of what is left. The result is empty exactly when s is all whitespace,
      and otherwise it neither starts nor ends with whitespace. */
  function Trim(s: string): (r: string)
    ensures r == [] <==> AllSpace(s)
    ensures r != [] ==> !IsSpace(r[0]) && !IsSpace(r[|r| - 1])
  {
    var lo := FirstNonSpace(s, 0);
    s[lo..LastNonSpace(s, lo, |s|)]
  }

  /** Trim keeps a contiguous piece of s and drops only whitespace around it: the piece starts
      at the first non-whitespace character, and everything before and after it is whitespace. */
  lemma TrimIsInfix(s: string)
    ensures var lo := FirstNonSpace(s, 0); var hi := lo + |Trim(s)|;
            && hi <= |s| && Trim(s) == s[lo..hi]
            && SpacesIn(s, 0, lo) && SpacesIn(s, hi, |s|)
  {
  }

  /** Python's str.startswith(p). */
  predicate HasPrefix(s: string, p: string) {
    |p| <= |s| && s[..|p|] == p
  }
}
