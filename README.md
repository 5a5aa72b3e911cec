# Corregram feedback core, in Dafny

Corregram (`gec_streamlit.py`) is a small Streamlit app for learners of
Spanish. It sends an essay to a language model and reads back a list of error
records. It then walks the learner through the errors one by one. For each
error it shows a header and allows two correction attempts. A language model
judges each attempt "yes" or "no". After two misses the app reveals the
original sentence, the correction and the explanation.

This project models the three pieces of that program whose behaviour is fixed
by the code itself:

- **The feedback loop of `main`** (module `Feedback`). `RunFeedback` is a
  method with the source's two nested loops, its `break` and its
  `for ... else`. It takes the error records and the stream of attempt
  verdicts, and returns every message shown (with the Streamlit call that
  shows it) together with the number of verdicts used. It is proved equal to
  the specification function `Session`. Lemmas about `Session` state the
  attempt rules, the order of the headers, the number of messages and
  verdicts, and that no verdict beyond the ones counted is ever read.
- **The verdict test** `'yes' in response.strip().lower()` (module
  `Verdict`, on top of the string primitives in `PyText`). It is proved to be
  a case-insensitive search for "yes" in the raw response. Stripping never
  changes the answer.
- **Tag extraction** `re.findall(r'<T>(.*?)</T>', s)[0]` (module
  `TagExtraction`). It is modelled as `Extract(s, tag)`, which returns `None`
  where Python raises `IndexError`. It is proved to return the content of the
  leftmost match. That content holds no newline and no closing tag. The full
  tagged span occurs in the input. Surrounding whitespace, and therefore
  `strip()`, never changes the result. `process_essay` and `check_response`
  use it with the tags `JSON_out` and `response`.

The code has no final-practice attempt after two misses, no phase in which the
learner rewrites the essay, and no explicit session-state machine. After two
misses it shows the original sentence, the correction and the explanation and
moves on to the next error (`gec_streamlit.py:118-121`). The button after the
loop only clears `st.session_state` (`gec_streamlit.py:124-125`). The model has
none of these phases either.

## Model

| member | source | states |
|---|---|---|
| Feedback.RunFeedback | gec_streamlit.py:98-121 | The loop over the errors shows exactly what `Session` specifies. Errors come in input order. Each error reads its verdicts right after those of the error before it. The result is `None` exactly when the verdicts run out. |
| Feedback.ShowError | gec_streamlit.py:99-121 | One error: the outcome is the one `Judge` gives on the verdicts from `start`. The messages are the header, the success text of the first "yes" or the failure text of each "no" ("Try again!" after the first only), and the reveal after two "no"s. |
| Feedback.AttemptRules | gec_streamlit.py:104-121 | A "yes" on attempt 1 shows `response_1_correct` right after the header, uses one verdict and ends the error. A "no" shows `response_1_incorrect` and "Try again!", then attempt 2's success or failure text, and uses two verdicts. The reveal (sentence, correction, explanation, in order) appears if and only if both verdicts are "no". Nothing after the second attempt's text is a warning. |
| Feedback.SessionConsumption | gec_streamlit.py:104-111 | Every error uses one or two verdicts, so a run uses between n and 2n. With 2n verdicts the loop always finishes. |
| Feedback.OutcomesBounds | gec_streamlit.py:104-111 | The same bounds, for the outcomes of any number of errors. |
| Feedback.SessionReadsOnlyConsumed | gec_streamlit.py:104-108 | Verdicts are read strictly in order, and none is read beyond `consumed`. Any continuation of the used verdicts gives the same run. |
| Feedback.SessionHeadersInOrder | gec_streamlit.py:98-101 | The header messages of a run are exactly "Error identified: " + `line_1` of each error, once each, in input order. |
| Feedback.HeadersOfBlock | gec_streamlit.py:101-121 | One error's messages hold exactly one header, its own, because none of the other texts starts like a header. |
| Feedback.SessionErrorAt | gec_streamlit.py:98-121 | Error `i` is judged afresh, starting at attempt 1, on the verdicts that follow those of the errors before it. Its messages sit, whole and unchanged, right after theirs. |
| Feedback.SessionCounts | gec_streamlit.py:100-121 | A run shows 2 messages per error solved on attempt 1, 4 per error solved on attempt 2 and 7 per revealed error. It uses 1, 2 and 2 verdicts for them. |
| Feedback.Judge | gec_streamlit.py:104-108 | How one error's attempts end, from the verdicts still to come: no outcome exactly when they run out first (none left, or a single "no"); otherwise at most the verdicts available are used, and the error is solved on attempt 1 exactly when the first verdict is "yes". |
| Feedback.Block | gec_streamlit.py:100-121 | The messages shown for one error with a given outcome: they start with its header and number 2, 4 or 7 (`Size`). |
| Feedback.Outcomes | gec_streamlit.py:98-107 | The outcomes of the errors in turn, each read from the verdicts after those of the errors before it: one outcome per error, using no more verdicts than exist. |
| Feedback.Session | gec_streamlit.py:98-121 | A whole run: the blocks of the errors in order and the verdicts used, never more than were given. |
| Verdict.IsCorrect | gec_streamlit.py:108 | The test itself, `'yes' in r.strip().lower()`. Its contract states it holds if and only if "yes" in any mix of cases occurs in the raw response. |
| Verdict.VerdictMeansYes | gec_streamlit.py:108 | `'yes' in r.strip().lower()` holds if and only if "yes", in any mix of cases, occurs in the raw response; stripping never changes the verdict. |
| Verdict.Judgement | gec_streamlit.py:107-108 | The judgement of one attempt from the verdict completion: none exactly where `check_response` raises, and otherwise "yes" exactly when the tagged response contains "yes" in any case. |
| Verdict.StrippedTag | gec_streamlit.py:53-56 | The shared tail of `process_essay` (tag `JSON_out`, lines 53-56) and `check_response` (tag `response`, lines 82-85): extraction from the stripped completion equals extraction from the raw completion. `ProcessEssay` and `CheckResponse` are its two uses. |
| TagExtraction.Extract | gec_streamlit.py:55-56 | `None` if and only if `<T>(.*?)</T>` matches nowhere. Otherwise the result is the content of a match at a start position before which no match begins. |
| TagExtraction.ExtractIsLeftmostMatch | gec_streamlit.py:55-56 | Conversely, the content of the leftmost match is what `Extract` returns, so the leftmost match and its content are unique. |
| TagExtraction.ExtractContent | gec_streamlit.py:84-85 | A returned value has no newline and no closing tag, and `<T>` + value + `</T>` occurs in the input. |
| TagExtraction.ExtractIgnoresSurroundingSpace | gec_streamlit.py:53-55 | Whitespace before and after the text never changes what is found. |
| TagExtraction.ExtractIgnoresStrip | gec_streamlit.py:82-84 | `re.findall` on `output.strip()` finds what it finds on `output`. |
| TagExtraction.FirstMatch | gec_streamlit.py:55 | The regex search from a position: the first start at which the pattern matches, with no match before it, or none at all. |
| TagExtraction.CloseFrom | gec_streamlit.py:55 | The lazy `(.*?)`: the first closing tag reachable without crossing a newline, or none when a newline or the end of the text comes first. |
| PyText.Strip | gec_streamlit.py:53 | `str.strip()`: the result neither starts nor ends with whitespace. |
| PyText.StripParts | gec_streamlit.py:82 | `str.strip()` removes only whitespace, and only at the two ends. |
| PyText.Lower | gec_streamlit.py:108 | `str.lower()` keeps the length and maps each character on its own. |

## Left out

- The OpenAI completion calls and their prompts (`process_essay` and `check_response` up to their last lines). They are network calls with unpredictable answers. The completions are inputs to `ProcessEssay`, `CheckResponse` and `Judgement`, and the verdicts are an input sequence of booleans to `RunFeedback`.
- Streamlit rendering and widgets (`st.title`, `text_area`, `button`, `text_input`). Every `st.write`, `st.success` and `st.warning` becomes one message appended to the output, tagged with its style. The text typed into `text_input` is not modelled, because it reaches the program only through the verdict.
- `st.session_state`. The `attempts` counter is written and never read, and `clear()` only resets the page.
- The API key assignment. It is configuration.
- Decoding of the analysis into records. The program does none: it iterates the string `process_essay` returns as if it were a list of records. `RunFeedback` takes the records already structured, and `Verdict.ProcessEssay` returns the raw tagged string as the program does.
- General regular expressions. Only the fixed pattern `<T>(.*?)</T>` is modelled, with the tag taken literally. Tags used here contain no regex metacharacters.
- Feedback.RunFeedback: running out of verdicts before the last error is done gives `None`. This has no counterpart in the program, which never runs out of verdicts: each attempt either gets one or raises.
- PyText.Lower: lower-cases ASCII letters only. Python's `str.lower()` also maps other letters and can lengthen the text. No such mapping produces an ASCII "y", "e" or "s" from anything other than "Y", "E" or "S", but that is not proved here.
- Verdict.Judgement: a verdict completion with no `<response>` tag makes `check_response` raise `IndexError` and stop the page. The model returns `None` and does not model the page stopping.
