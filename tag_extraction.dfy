/**
 * The tails of `process_essay` and `check_response`:
 * `re.findall(r'<T>(.*?)</T>', output)[0]`, the content of the leftmost
 * `<T>...</T>` pair whose content is as short as possible and holds no newline
 * (Python's `.` does not match `\n`). An empty `findall` makes `[0]` raise
 * `IndexError`; here that is `None`.
 */
module TagExtraction {
  import opened Wrappers
  import opened PyText

  function OpenTag(tag: string): string { "<" + tag + ">" }

  function CloseTag(tag: string): string { "</" + tag + ">" }

  /** Between `from` and `to` no character is a newline and no closing tag begins. */
  ghost predicate Clean(s: string, close: string, from: int, to: int) {
    forall k :: from <= k < to ==> 0 <= k < |s| && s[k] != '\n' && !OccursAt(s, close, k)
  }

  /**
   * The pattern matches at `i` with a content of `n` characters: the opening tag
   * at `i`, the closing tag right after the content, and the lazy `.*?` could not
   * have stopped earlier nor crossed a newline.
   */
  ghost predicate IsMatchAt(s: string, open: string, close: string, i: int, n: int) {
    0 <= n && OccursAt(s, open, i) && OccursAt(s, close, i + |open| + n)
    && Clean(s, close, i + |open|, i + |open| + n)
  }

  ghost predicate HasMatchAt(s: string, open: string, close: string, i: int) {
    exists n :: IsMatchAt(s, open, close, i, n)
  }

  /** `v` is the content of the pattern's match at `i`, and no match starts before `i`. */
  ghost predicate LeftmostMatch(s: string, tag: string, i: int, v: string) {
    IsMatchAt(s, OpenTag(tag), CloseTag(tag), i, |v|)
    && s[i + |OpenTag(tag)|..i + |OpenTag(tag)| + |v|] == v
    && forall j :: 0 <= j < i ==> !HasMatchAt(s, OpenTag(tag), CloseTag(tag), j)
  }

  /** The lazy `(.*?)` followed by the closing tag, scanning from `j`: where the closing tag is found. */
  function CloseFrom(s: string, close: string, j: nat): (r: Option<nat>)
    requires j <= |s|
    decreases |s| - j
    ensures r.Some? ==> j <= r.value && OccursAt(s, close, r.value) && Clean(s, close, j, r.value)
    ensures r.None? ==> forall m :: j <= m && OccursAt(s, close, m) ==> !Clean(s, close, j, m)
  {
    if OccursAt(s, close, j) then Some(j)
    else if j == |s| || s[j] == '\n' then None
    else CloseFrom(s, close, j + 1)
  }

  /** One attempt of the pattern at position `i`: where its content ends. */
  function MatchEnd(s: string, open: string, close: string, i: nat): (r: Option<nat>)
    requires i <= |s|
    ensures r.Some? ==> IsMatchAt(s, open, close, i, r.value - i - |open|)
    ensures r.None? ==> !HasMatchAt(s, open, close, i)
  {
    if OccursAt(s, open, i) then CloseFrom(s, close, i + |open|) else None
  }

  /** The search from `p` onwards: the start of the first match and its content length. */
  function FirstMatch(s: string, open: string, close: string, p: nat): (r: Option<(nat, nat)>)
    requires p <= |s|
    decreases |s| - p
    ensures r.Some? ==> p <= r.value.0 && IsMatchAt(s, open, close, r.value.0, r.value.1)
    ensures r.Some? ==> forall j :: p <= j < r.value.0 ==> !HasMatchAt(s, open, close, j)
    ensures r.None? ==> forall j :: p <= j ==> !HasMatchAt(s, open, close, j)
  {
    match MatchEnd(s, open, close, p)
    case Some(e) => Some((p, e - p - |open|))
    case None => if p == |s| then None else FirstMatch(s, open, close, p + 1)
  }

  /**
   * `re.findall('<tag>(.*?)</tag>', s)[0]`: `None` exactly when the pattern
   * matches nowhere, otherwise the content of the leftmost match.
   */
  function Extract(s: string, tag: string): (r: Option<string>)
    ensures r.None? <==> forall i :: !HasMatchAt(s, OpenTag(tag), CloseTag(tag), i)
    ensures r.Some? ==> exists i :: LeftmostMatch(s, tag, i, r.value)
  {
    match FirstMatch(s, OpenTag(tag), CloseTag(tag), 0)
    case None => None
    case Some((i, n)) =>
      var c := i + |OpenTag(tag)|;
      var v := s[c..c + n];
      assert LeftmostMatch(s, tag, i, v);
      assert HasMatchAt(s, OpenTag(tag), CloseTag(tag), i);
      Some(v)
  }

  /** At a given start the lazy match has only one possible content length. */
  lemma MatchUnique(s: string, open: string, close: string, i: int, n1: int, n2: int)
    requires IsMatchAt(s, open, close, i, n1) && IsMatchAt(s, open, close, i, n2)
    ensures n1 == n2
  {
    var b := i + |open|;
    assert n1 < n2 ==> !OccursAt(s, close, b + n1);
    assert n2 < n1 ==> !OccursAt(s, close, b + n2);
  }

  /** There is only one leftmost match. */
  lemma LeftmostUnique(s: string, tag: string, i: int, v: string, i': int, v': string)
    requires LeftmostMatch(s, tag, i, v) && LeftmostMatch(s, tag, i', v')
    ensures i == i' && v == v'
  {
    var o, c := OpenTag(tag), CloseTag(tag);
    assert HasMatchAt(s, o, c, i) && HasMatchAt(s, o, c, i');
    assert i' < i ==> !HasMatchAt(s, o, c, i');
    assert i < i' ==> !HasMatchAt(s, o, c, i);
    MatchUnique(s, o, c, i, |v|, |v'|);
  }

  /** Conversely to `Extract`'s contract: the content of the leftmost match is what `Extract` returns. */
  lemma ExtractIsLeftmostMatch(s: string, tag: string, i: int, v: string)
    requires LeftmostMatch(s, tag, i, v)
    ensures Extract(s, tag) == Some(v)
  {
    assert HasMatchAt(s, OpenTag(tag), CloseTag(tag), i);
    var r := Extract(s, tag);
    var i' :| LeftmostMatch(s, tag, i', r.value);
    LeftmostUnique(s, tag, i, v, i', r.value);
  }

  /**
   * What an extracted value looks like: `<tag>` + value + `</tag>` occurs in the
   * input, and the value holds neither a newline nor the closing tag.
   */
  lemma ExtractContent(s: string, tag: string, v: string)
    requires Extract(s, tag) == Some(v)
    ensures forall k :: 0 <= k < |v| ==> v[k] != '\n'
    ensures !Contains(v, CloseTag(tag))
    ensures Contains(s, OpenTag(tag) + v + CloseTag(tag))
  {
    var i :| LeftmostMatch(s, tag, i, v);
    LeftmostContent(s, tag, i, v);
  }

  lemma LeftmostContent(s: string, tag: string, i: int, v: string)
    requires LeftmostMatch(s, tag, i, v)
    ensures forall k :: 0 <= k < |v| ==> v[k] != '\n'
    ensures !Contains(v, CloseTag(tag))
    ensures Contains(s, OpenTag(tag) + v + CloseTag(tag))
  {
    var o, c := OpenTag(tag), CloseTag(tag);
    assert |c| > 0;
    MatchContent(s, o, c, i, v);
  }

  lemma MatchContent(s: string, open: string, close: string, i: int, v: string)
    requires |close| > 0 && IsMatchAt(s, open, close, i, |v|)
    requires s[i + |open|..i + |open| + |v|] == v
    ensures forall k :: 0 <= k < |v| ==> v[k] != '\n'
    ensures !Contains(v, close)
    ensures Contains(s, open + v + close)
  {
    ContentClean(s, close, i + |open|, v);
    MatchOccurs(s, open, close, i, v);
  }

  /** A stretch of `s` that is clean holds no newline and no closing tag of its own. */
  lemma ContentClean(s: string, close: string, b: int, v: string)
    requires |close| > 0 && 0 <= b && b + |v| <= |s| && s[b..b + |v|] == v
    requires Clean(s, close, b, b + |v|)
    ensures forall k :: 0 <= k < |v| ==> v[k] != '\n'
    ensures !Contains(v, close)
  {
    forall k | 0 <= k < |v| ensures v[k] == s[b + k] && v[k] != '\n' {
      assert v[k] == s[b..b + |v|][k];
    }
    forall p | 0 <= p <= |v| - |close| ensures !OccursAt(v, close, p) {
      SliceInside(s, v, b, p, |close|);
      assert !OccursAt(s, close, b + p);
    }
  }

  /** The whole match, tags included, occurs in `s` at `i`. */
  lemma MatchOccurs(s: string, open: string, close: string, i: int, v: string)
    requires 0 <= i && OccursAt(s, open, i) && OccursAt(s, close, i + |open| + |v|)
    requires s[i + |open|..i + |open| + |v|] == v
    ensures Contains(s, open + v + close)
  {
    var b := i + |open|;
    var e := b + |v|;
    assert s[i..e + |close|] == s[i..b] + s[b..e] + s[e..e + |close|];
    assert OccursAt(s, open + v + close, i);
  }

  /** A slice of `v` is the matching slice of `s` when `v` sits in `s` at `b`. */
  lemma SliceInside(s: string, v: string, b: int, p: int, n: int)
    requires 0 <= b && b + |v| <= |s| && s[b..b + |v|] == v
    requires 0 <= p && 0 <= n && p + n <= |v|
    ensures s[b + p..b + p + n] == v[p..p + n]
  {
    forall j | p <= j < p + n ensures s[b + j] == v[j] {
      assert v[j] == s[b..b + |v|][j];
    }
    assert s[b + p..b + p + n] == v[p..p + n];
  }

  /** A tag starts with `<` and ends with `>`, so whitespace next to it never belongs to it. */
  lemma OccursShift(lead: string, t: string, trail: string, w: string, p: int)
    requires AllSpace(lead) && AllSpace(trail)
    requires |w| > 0 && !IsSpace(w[0]) && !IsSpace(w[|w| - 1])
    ensures OccursAt(lead + t + trail, w, p) <==> p >= |lead| && OccursAt(t, w, p - |lead|)
  {
    var s, a := lead + t + trail, |lead|;
    if OccursAt(s, w, p) {
      assert s[p] == w[0];
      assert s[p + |w| - 1] == w[|w| - 1];
      assert p >= a && p + |w| <= a + |t|;
      forall k | 0 <= k < |w| ensures t[p - a + k] == w[k] {
        assert s[p + k] == w[k];
      }
      assert t[p - a..p - a + |w|] == w;
    }
    if p >= a && OccursAt(t, w, p - a) {
      forall k | 0 <= k < |w| ensures s[p + k] == w[k] {
        assert t[p - a + k] == w[k];
      }
      assert s[p..p + |w|] == w;
    }
  }

  /** Matches in `lead + t + trail` are exactly the matches in `t`, shifted by `|lead|`. */
  lemma MatchShift(lead: string, t: string, trail: string, open: string, close: string, i: int, n: int)
    requires AllSpace(lead) && AllSpace(trail)
    requires |open| > 0 && !IsSpace(open[0]) && !IsSpace(open[|open| - 1])
    requires |close| > 0 && !IsSpace(close[0]) && !IsSpace(close[|close| - 1])
    ensures IsMatchAt(lead + t + trail, open, close, i, n)
        <==> i >= |lead| && IsMatchAt(t, open, close, i - |lead|, n)
  {
    var a := |lead|;
    OccursShift(lead, t, trail, open, i);
    OccursShift(lead, t, trail, close, i + |open| + n);
    if 0 <= n && i >= a && OccursAt(t, close, i - a + |open| + n) {
      CleanShift(lead, t, trail, close, i - a + |open|, i - a + |open| + n);
    }
  }

  /** Below the end of `t`, the newline-free, closing-tag-free stretches shift with `|lead|`. */
  lemma CleanShift(lead: string, t: string, trail: string, close: string, from: int, to: int)
    requires AllSpace(lead) && AllSpace(trail)
    requires |close| > 0 && !IsSpace(close[0]) && !IsSpace(close[|close| - 1])
    requires 0 <= from <= to <= |t|
    ensures Clean(lead + t + trail, close, from + |lead|, to + |lead|) <==> Clean(t, close, from, to)
  {
    var s, a := lead + t + trail, |lead|;
    forall k | from <= k < to
      ensures s[k + a] == t[k]
      ensures OccursAt(s, close, k + a) <==> OccursAt(t, close, k)
    {
      OccursShift(lead, t, trail, close, k + a);
    }
    assert Clean(s, close, from + a, to + a) ==> Clean(t, close, from, to) by {
      if Clean(s, close, from + a, to + a) {
        forall k | from <= k < to ensures 0 <= k < |t| && t[k] != '\n' && !OccursAt(t, close, k) {
          assert s[k + a] != '\n' && !OccursAt(s, close, k + a);
        }
      }
    }
    assert Clean(t, close, from, to) ==> Clean(s, close, from + a, to + a) by {
      if Clean(t, close, from, to) {
        forall k | from + a <= k < to + a ensures 0 <= k < |s| && s[k] != '\n' && !OccursAt(s, close, k) {
          assert t[k - a] != '\n' && !OccursAt(t, close, k - a);
        }
      }
    }
  }

  /** Whitespace around the input never changes what `Extract` finds. */
  lemma ExtractIgnoresSurroundingSpace(lead: string, t: string, trail: string, tag: string)
    requires AllSpace(lead) && AllSpace(trail)
    ensures Extract(lead + t + trail, tag) == Extract(t, tag)
  {
    var o, c := OpenTag(tag), CloseTag(tag);
    assert o[0] == '<' && o[|o| - 1] == '>' && c[0] == '<' && c[|c| - 1] == '>';
    match Extract(t, tag)
    case None =>
      NoMatchShift(lead, t, trail, o, c);
    case Some(v) =>
      var i :| LeftmostMatch(t, tag, i, v);
      LeftmostMatchShift(lead, t, trail, tag, i, v);
  }

  lemma LeftmostMatchShift(lead: string, t: string, trail: string, tag: string, i: int, v: string)
    requires AllSpace(lead) && AllSpace(trail)
    requires LeftmostMatch(t, tag, i, v)
    ensures Extract(lead + t + trail, tag) == Some(v)
  {
    var s, o, c := lead + t + trail, OpenTag(tag), CloseTag(tag);
    assert o[0] == '<' && o[|o| - 1] == '>' && c[0] == '<' && c[|c| - 1] == '>';
    LeftmostShift(lead, t, trail, o, c, i, |v|);
    assert LeftmostMatch(s, tag, i + |lead|, v);
    ExtractIsLeftmostMatch(s, tag, i + |lead|, v);
  }

  /** No match in `t` means no match in `lead + t + trail`. */
  lemma NoMatchShift(lead: string, t: string, trail: string, open: string, close: string)
    requires AllSpace(lead) && AllSpace(trail)
    requires |open| > 0 && !IsSpace(open[0]) && !IsSpace(open[|open| - 1])
    requires |close| > 0 && !IsSpace(close[0]) && !IsSpace(close[|close| - 1])
    requires forall i :: !HasMatchAt(t, open, close, i)
    ensures forall j :: !HasMatchAt(lead + t + trail, open, close, j)
  {
    var s := lead + t + trail;
    forall j, n ensures !IsMatchAt(s, open, close, j, n) {
      MatchShift(lead, t, trail, open, close, j, n);
      assert !HasMatchAt(t, open, close, j - |lead|);
    }
  }

  /** The leftmost match in `t` is, shifted by `|lead|`, the leftmost match in `lead + t + trail`. */
  lemma LeftmostShift(lead: string, t: string, trail: string, open: string, close: string, i: int, n: int)
    requires AllSpace(lead) && AllSpace(trail)
    requires |open| > 0 && !IsSpace(open[0]) && !IsSpace(open[|open| - 1])
    requires |close| > 0 && !IsSpace(close[0]) && !IsSpace(close[|close| - 1])
    requires IsMatchAt(t, open, close, i, n)
    requires forall j :: 0 <= j < i ==> !HasMatchAt(t, open, close, j)
    ensures IsMatchAt(lead + t + trail, open, close, i + |lead|, n)
    ensures forall j :: 0 <= j < i + |lead| ==> !HasMatchAt(lead + t + trail, open, close, j)
    ensures (lead + t + trail)[i + |lead| + |open|..i + |lead| + |open| + n] == t[i + |open|..i + |open| + n]
  {
    var s, a := lead + t + trail, |lead|;
    MatchShift(lead, t, trail, open, close, i + a, n);
    forall j, m | 0 <= j < i + a ensures !IsMatchAt(s, open, close, j, m) {
      MatchShift(lead, t, trail, open, close, j, m);
      assert j >= a ==> !HasMatchAt(t, open, close, j - a);
    }
    SliceShift(lead, t, trail, i + |open|, n);
  }

  lemma SliceShift(lead: string, t: string, trail: string, b: int, n: int)
    requires 0 <= b && 0 <= n && b + n <= |t|
    ensures (lead + t + trail)[b + |lead|..b + |lead| + n] == t[b..b + n]
  {
    var s, a := lead + t + trail, |lead|;
    forall k | a + b <= k < a + b + n ensures s[k] == t[k - a] {
    }
  }

  /** `re.findall` on `output.strip()` finds what it finds on `output`. */
  lemma ExtractIgnoresStrip(s: string, tag: string)
    ensures Extract(Strip(s), tag) == Extract(s, tag)
  {
    var lead, trail := StripParts(s);
    ExtractIgnoresSurroundingSpace(lead, Strip(s), trail, tag);
  }
}
