/**
 * How the program reads the two completions it asks for: `process_essay` keeps
 * the text between `<JSON_out>` tags, `check_response` the text between
 * `<response>` tags, and `main` counts an attempt as correct when that text,
 * stripped and lower-cased, contains "yes".
 */
module Verdict {
  import opened Wrappers
  import opened PyText
  import opened TagExtraction

  /**
   * The common tail of `process_essay` and `check_response`: the content of the
   * first `<tag>...</tag>` in the stripped completion; stripping changes nothing.
   */
  function StrippedTag(completion: string, tag: string): (r: Option<string>)
    ensures r == Extract(completion, tag)
  {
    ExtractIgnoresStrip(completion, tag);
    Extract(Strip(completion), tag)
  }

  /** The tail of `process_essay`. */
  function ProcessEssay(completion: string): Option<string> {
    StrippedTag(completion, "JSON_out")
  }

  /** The tail of `check_response`. */
  function CheckResponse(completion: string): Option<string> {
    StrippedTag(completion, "response")
  }

  /** "yes" in any mix of upper and lower case starts at `i`. */
  ghost predicate YesAt(s: string, i: int) {
    0 <= i && i + 3 <= |s|
    && (s[i] == 'y' || s[i] == 'Y')
    && (s[i + 1] == 'e' || s[i + 1] == 'E')
    && (s[i + 2] == 's' || s[i + 2] == 'S')
  }

  /**
   * The verdict is a case-insensitive substring test for "yes" on the raw
   * response: stripping never changes the outcome.
   */
  lemma VerdictMeansYes(response: string)
    ensures Contains(Lower(Strip(response)), "yes") <==> exists i :: YesAt(response, i)
  {
    var lead, trail := StripParts(response);
    LowerContainsYes(Strip(response));
    YesIgnoresSurroundingSpace(lead, Strip(response), trail);
  }

  lemma LowerContainsYes(m: string)
    ensures Contains(Lower(m), "yes") <==> exists i :: YesAt(m, i)
  {
    var l := Lower(m);
    forall p | 0 <= p && p + 3 <= |m| ensures OccursAt(l, "yes", p) <==> YesAt(m, p) {
      assert l[p..p + 3] == [l[p], l[p + 1], l[p + 2]];
    }
    if i :| YesAt(m, i) {
      assert OccursAt(l, "yes", i);
    }
  }

  lemma YesIgnoresSurroundingSpace(lead: string, m: string, trail: string)
    requires AllSpace(lead) && AllSpace(trail)
    ensures (exists i :: YesAt(lead + m + trail, i)) <==> exists i :: YesAt(m, i)
  {
    var s, a := lead + m + trail, |lead|;
    if q :| YesAt(s, q) {
      assert !IsSpace(s[q]) && !IsSpace(s[q + 2]);
      assert YesAt(m, q - a);
    }
    if i :| YesAt(m, i) {
      assert YesAt(s, i + a);
    }
  }

  /** The test `'yes' in correct_response.strip().lower()`: "yes" in any case, anywhere in the response. */
  predicate IsCorrect(response: string): (r: bool)
    ensures r <==> exists i :: YesAt(response, i)
  {
    VerdictMeansYes(response);
    Contains(Lower(Strip(response)), "yes")
  }

  /** One attempt's judgement from the verdict completion: `None` where `check_response` raises `IndexError`. */
  function Judgement(completion: string): (r: Option<bool>)
    ensures r.None? <==> Extract(completion, "response").None?
    ensures r.Some? ==> (r.value <==> exists i :: YesAt(Extract(completion, "response").value, i))
  {
    match CheckResponse(completion)
    case None => None
    case Some(response) => Some(IsCorrect(response))
  }
}
