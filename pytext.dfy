/**
 * The few Python string primitives the program relies on: `str.isspace`,
 * `str.strip()`, `str.lower()` and the substring test `w in s`.
 */
module PyText {

  /** Python 3's `str.isspace` on one character: the 29 code points it accepts. */
  predicate IsSpace(c: char) {
    var n := c as int;
    (9 <= n <= 13) || (28 <= n <= 32) || n == 0x85 || n == 0xA0 || n == 0x1680
    || (0x2000 <= n <= 0x200A) || n == 0x2028 || n == 0x2029 || n == 0x202F
    || n == 0x205F || n == 0x3000
  }

  predicate AllSpace(s: string) {
    forall i :: 0 <= i < |s| ==> IsSpace(s[i])
  }

  /** `w` occurs in `s` starting at position `p`. */
  predicate OccursAt(s: string, w: string, p: int) {
    0 <= p && p + |w| <= |s| && s[p..p + |w|] == w
  }

  /** Python's `w in s` for strings. */
  predicate Contains(s: string, w: string) {
    exists p :: 0 <= p <= |s| - |w| && OccursAt(s, w, p)
  }

  /** Drops leading whitespace: what is dropped is all space, what is kept does not start with space. */
  function StripLeft(s: string): (r: string)
    ensures |r| <= |s| && r == s[|s| - |r|..]
    ensures AllSpace(s[..|s| - |r|])
    ensures r == [] || !IsSpace(r[0])
  {
    if s != [] && IsSpace(s[0]) then StripLeft(s[1..]) else s
  }

  /** Drops trailing whitespace: what is dropped is all space, what is kept does not end with space. */
  function StripRight(s: string): (r: string)
    ensures |r| <= |s| && r == s[..|r|]
    ensures AllSpace(s[|r|..])
    ensures r == [] || !IsSpace(r[|r| - 1])
  {
    if s != [] && IsSpace(s[|s| - 1]) then StripRight(s[..|s| - 1]) else s
  }

  /** Python's `s.strip()`: the result neither starts nor ends with whitespace. */
  function Strip(s: string): (r: string)
    ensures |r| <= |s|
    ensures r == [] || (!IsSpace(r[0]) && !IsSpace(r[|r| - 1]))
  {
    StripRight(StripLeft(s))
  }

  /** `Strip` removes only whitespace, and only at the two ends. */
  lemma StripParts(s: string) returns (lead: string, trail: string)
    ensures s == lead + Strip(s) + trail
    ensures AllSpace(lead) && AllSpace(trail)
  {
    var l := StripLeft(s);
    var m := StripRight(l);
    lead := s[..|s| - |l|];
    trail := l[|m|..];
    SuffixThenPrefix(s, l, m);
  }

  /** Cutting a prefix of a suffix splits `s` into three consecutive pieces. */
  lemma SuffixThenPrefix(s: string, l: string, m: string)
    requires |l| <= |s| && l == s[|s| - |l|..]
    requires |m| <= |l| && m == l[..|m|]
    ensures s == s[..|s| - |l|] + m + l[|m|..]
  {
    assert s == s[..|s| - |l|] + l;
    assert l == m + l[|m|..];
  }

  /** Python's `str.lower` on one character, for the ASCII letters. */
  function LowerChar(c: char): char {
    if 'A' <= c <= 'Z' then (c as int - 'A' as int + 'a' as int) as char else c
  }

  /** Python's `s.lower()`: every character mapped by `LowerChar`, nothing added or removed. */
  function Lower(s: string): (r: string)
    ensures |r| == |s|
    ensures forall i :: 0 <= i < |s| ==> r[i] == LowerChar(s[i])
  {
    if s == [] then [] else [LowerChar(s[0])] + Lower(s[1..])
  }
}
