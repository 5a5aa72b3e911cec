/**
 * The feedback loop of `main`: for every error record, in order, a header, then
 * at most two attempts, each judged by one verdict; a "yes" shows that attempt's
 * success text and ends the error, a "no" shows its failure text ("Try again!"
 * after the first only); two "no"s show the original sentence, the correction
 * and the explanation. Every `st.write`, `st.success` and `st.warning` call
 * becomes one `Message` appended to the output.
 */
module Feedback {
  import opened Wrappers

  /** Which Streamlit call shows a message. */
  datatype Style = Write | Success | Warning

  datatype Message = Message(style: Style, text: string)

  /** One error of the analysis, with the keys `main` reads. */
  datatype ErrorRecord = ErrorRecord(
    errorOrig: string,
    errorCorrected: string,
    line1: string,
    response1Correct: string,
    response1Incorrect: string,
    response2Correct: string,
    response2Incorrect: string,
    explanation: string)

  /** How the attempts on one error ended: "yes" on attempt 1, "yes" on attempt 2, or two "no"s. */
  datatype Outcome = FirstTry | SecondTry | Revealed

  /** Everything shown, and how many verdicts were used. */
  datatype Run = Run(messages: seq<Message>, consumed: nat)

  const HeaderPrefix: string := "Error identified: "

  const TryAgain: Message := Message(Warning, "Try again!")

  const SentencePrefix: string := "Your sentence: "

  const CorrectionPrefix: string := "Correct version: "

  const ExplanationPrefix: string := "Explanation: "

  function Header(e: ErrorRecord): Message {
    Message(Write, HeaderPrefix + e.line1)
  }

  /** `error[f'response_{index}_correct']` */
  function CorrectResponse(e: ErrorRecord, index: int): string
    requires index == 1 || index == 2
  {
    if index == 1 then e.response1Correct else e.response2Correct
  }

  /** `error[f'response_{index}_incorrect']` */
  function IncorrectResponse(e: ErrorRecord, index: int): string
    requires index == 1 || index == 2
  {
    if index == 1 then e.response1Incorrect else e.response2Incorrect
  }

  /** The `else` branch of the attempt loop, after two failed attempts. */
  function ShowAnswer(e: ErrorRecord): seq<Message> {
    [ Message(Write, SentencePrefix + e.errorOrig),
      Message(Write, CorrectionPrefix + e.errorCorrected),
      Message(Write, ExplanationPrefix + e.explanation) ]
  }

  /** Verdicts one error uses. */
  function Cost(o: Outcome): nat {
    if o == FirstTry then 1 else 2
  }

  /** The outcome of one error's attempts from the verdicts still to come; `None` if they run out. */
  function Judge(vs: seq<bool>): (r: Option<Outcome>)
    ensures r.None? <==> |vs| == 0 || (|vs| == 1 && !vs[0])
    ensures r.Some? ==> Cost(r.value) <= |vs| && (r.value == FirstTry <==> vs[0])
  {
    if |vs| == 0 then None
    else if vs[0] then Some(FirstTry)
    else if |vs| == 1 then None
    else if vs[1] then Some(SecondTry)
    else Some(Revealed)
  }

  /** Everything shown for one error with the given outcome. */
  function Block(e: ErrorRecord, o: Outcome): (r: seq<Message>)
    ensures |r| == Size(o) && r[0] == Header(e)
  {
    match o
    case FirstTry => [Header(e), Message(Success, e.response1Correct)]
    case SecondTry =>
      [Header(e), Message(Warning, e.response1Incorrect), TryAgain, Message(Success, e.response2Correct)]
    case Revealed =>
      [Header(e), Message(Warning, e.response1Incorrect), TryAgain, Message(Warning, e.response2Incorrect)]
      + ShowAnswer(e)
  }

  function TotalCost(os: seq<Outcome>): nat {
    if os == [] then 0 else Cost(os[0]) + TotalCost(os[1..])
  }

  /** The outcomes of `n` errors in turn, each reading its verdicts after those of the errors before it. */
  function Outcomes(vs: seq<bool>, n: nat): (r: Option<seq<Outcome>>)
    ensures r.Some? ==> |r.value| == n && TotalCost(r.value) <= |vs|
    decreases n
  {
    if n == 0 then Some([])
    else
      match Judge(vs)
      case None => None
      case Some(o) =>
        match Outcomes(vs[Cost(o)..], n - 1)
        case None => None
        case Some(rest) =>
          assert ([o] + rest)[1..] == rest;
          Some([o] + rest)
  }

  function Blocks(errors: seq<ErrorRecord>, os: seq<Outcome>): seq<Message>
    requires |errors| == |os|
  {
    if errors == [] then [] else Block(errors[0], os[0]) + Blocks(errors[1..], os[1..])
  }

  /** The whole loop over `errors`: `None` when the verdicts run out before the last error is done. */
  function Session(errors: seq<ErrorRecord>, vs: seq<bool>): (r: Option<Run>)
    ensures r.Some? ==> r.value.consumed <= |vs|
  {
    match Outcomes(vs, |errors|)
    case None => None
    case Some(os) => Some(Run(Blocks(errors, os), TotalCost(os)))
  }

  /**
   * The `for error in error_feedback` loop of `main`: each error in turn, its
   * verdicts read right after those of the error before it.
   */
  method RunFeedback(errors: seq<ErrorRecord>, verdicts: seq<bool>) returns (result: Option<Run>)
    ensures result == Session(errors, verdicts)
  {
    var messages: seq<Message> := [];
    var next: nat := 0;
    ghost var outcomes: seq<Outcome> := [];
    for k := 0 to |errors|
      invariant Outcomes(verdicts, k) == Some(outcomes)
      invariant next == TotalCost(outcomes) <= |verdicts|
      invariant messages == Blocks(errors[..k], outcomes)
    {
      var shown, outcome := ShowError(errors[k], verdicts, next);
      OutcomesSnoc(verdicts, k, outcomes);
      if outcome.None? {
        OutcomesStayNone(verdicts, k + 1, |errors|);
        return None;
      }
      BlocksSnoc(errors[..k], outcomes, errors[k], outcome.value);
      TotalCostSnoc(outcomes, outcome.value);
      TakeSnoc(errors, k);
      messages := messages + shown;
      next := next + Cost(outcome.value);
      outcomes := outcomes + [outcome.value];
    }
    assert errors[..|errors|] == errors;
    result := Some(Run(messages, next));
  }

  /**
   * The body of that loop for one error: the header, then the
   * `for i in range(2)` attempts with their `break` and `for ... else`,
   * reading verdicts from position `start`.
   */
  method ShowError(error: ErrorRecord, verdicts: seq<bool>, start: nat)
    returns (shown: seq<Message>, outcome: Option<Outcome>)
    requires start <= |verdicts|
    ensures outcome == Judge(verdicts[start..])
    ensures outcome.Some? ==> shown == Block(error, outcome.value)
  {
    shown := [Header(error)];
    var next := start;
    var solved := false;
    for i := 0 to 2
      invariant !solved
      invariant next == start + i <= |verdicts|
      invariant forall j :: start <= j < next ==> !verdicts[j]
      invariant i == 0 ==> shown == [Header(error)]
      invariant i == 1 ==> shown == [Header(error), Message(Warning, error.response1Incorrect), TryAgain]
      invariant i == 2 ==> shown == Block(error, Revealed)[..4]
    {
      var index := i + 1;
      if next == |verdicts| {
        return shown, None;
      }
      var correct := verdicts[next];
      next := next + 1;
      if correct {
        shown := shown + [Message(Success, CorrectResponse(error, index))];
        solved := true;
        break;
      }
      shown := shown + [Message(Warning, IncorrectResponse(error, index))];
      if index == 1 {
        shown := shown + [TryAgain];
      }
    }
    if solved {
      outcome := Some(if next == start + 1 then FirstTry else SecondTry);
    } else {
      shown := shown + ShowAnswer(error);
      outcome := Some(Revealed);
    }
  }

  /** The outcome of the next error is read right after the verdicts of the errors before it. */
  lemma {:induction false} OutcomesSnoc(vs: seq<bool>, k: nat, os: seq<Outcome>)
    requires Outcomes(vs, k) == Some(os)
    ensures TotalCost(os) <= |vs|
    ensures Outcomes(vs, k + 1) ==
      match Judge(vs[TotalCost(os)..])
      case None => None
      case Some(o) => Some(os + [o])
    decreases k
  {
    if k == 0 {
      assert vs[TotalCost(os)..] == vs;
      match Judge(vs)
      case None =>
      case Some(o) =>
        assert [o] + [] == os + [o];
    } else {
      var o := Judge(vs).value;
      var rest := Outcomes(vs[Cost(o)..], k - 1).value;
      assert os == [o] + rest;
      TotalCostCons(o, rest);
      OutcomesSnoc(vs[Cost(o)..], k - 1, rest);
      DropDrop(vs, Cost(o), TotalCost(rest));
      match Judge(vs[TotalCost(os)..])
      case None =>
      case Some(o') =>
        ConsSnoc(o, rest, o', os);
    }
  }

  lemma TotalCostCons(o: Outcome, rest: seq<Outcome>)
    ensures TotalCost([o] + rest) == Cost(o) + TotalCost(rest)
  {
    assert ([o] + rest)[1..] == rest;
  }

  lemma TakeSnoc<T>(s: seq<T>, k: nat)
    requires k < |s|
    ensures s[..k + 1] == s[..k] + [s[k]]
  {
  }

  lemma DropDrop<T>(s: seq<T>, a: nat, b: nat)
    requires a + b <= |s|
    ensures s[a..][b..] == s[a + b..]
  {
  }

  lemma ConsSnoc<T>(x: T, s: seq<T>, y: T, xs: seq<T>)
    requires xs == [x] + s
    ensures [x] + (s + [y]) == xs + [y]
  {
  }

  /** Once the verdicts have run out, they stay run out for every later error. */
  lemma {:induction false} OutcomesStayNone(vs: seq<bool>, k: nat, n: nat)
    requires Outcomes(vs, k) == None && k <= n
    ensures Outcomes(vs, n) == None
    decreases k
  {
    match Judge(vs)
    case None =>
    case Some(o) =>
      OutcomesStayNone(vs[Cost(o)..], k - 1, n - 1);
  }

  lemma {:induction false} BlocksSnoc(errors: seq<ErrorRecord>, os: seq<Outcome>, e: ErrorRecord, o: Outcome)
    requires |errors| == |os|
    ensures Blocks(errors + [e], os + [o]) == Blocks(errors, os) + Block(e, o)
    decreases |errors|
  {
    if errors == [] {
      assert Blocks([e], [o]) == Block(e, o) + Blocks([], []);
    } else {
      assert (errors + [e])[1..] == errors[1..] + [e];
      assert (os + [o])[1..] == os[1..] + [o];
      BlocksSnoc(errors[1..], os[1..], e, o);
    }
  }

  lemma {:induction false} TotalCostSnoc(os: seq<Outcome>, o: Outcome)
    ensures TotalCost(os + [o]) == TotalCost(os) + Cost(o)
    decreases |os|
  {
    if os == [] {
      assert TotalCost([o]) == Cost(o) + TotalCost([]);
    } else {
      assert (os + [o])[1..] == os[1..] + [o];
      TotalCostSnoc(os[1..], o);
    }
  }

  // ---------------------------------------------------------------------------
  // One error: what each verdict leads to
  // ---------------------------------------------------------------------------

  /** Messages shown for one error with this outcome. */
  function Size(o: Outcome): nat {
    match o
    case FirstTry => 2
    case SecondTry => 4
    case Revealed => 7
  }

  /**
   * The attempt rules for one error: a "yes" on attempt 1 shows
   * `response_1_correct` and uses one verdict; a "no" shows
   * `response_1_incorrect`, then "Try again!", then attempt 2's success or
   * failure text; the answer is shown exactly when both verdicts were "no",
   * and nothing after the second attempt's text is a warning.
   */
  lemma AttemptRules(e: ErrorRecord, vs: seq<bool>)
    requires Judge(vs).Some?
    ensures Block(e, Judge(vs).value)[0] == Header(e)
    ensures |Block(e, Judge(vs).value)| == Size(Judge(vs).value)
    ensures vs[0] <==> Judge(vs).value == FirstTry
    ensures vs[0] ==> (
      && Cost(Judge(vs).value) == 1
      && Block(e, Judge(vs).value) == [Header(e), Message(Success, e.response1Correct)])
    ensures !vs[0] ==> (
      && Cost(Judge(vs).value) == 2
      && Block(e, Judge(vs).value)[1..4] == [
        Message(Warning, e.response1Incorrect),
        TryAgain,
        if vs[1] then Message(Success, e.response2Correct) else Message(Warning, e.response2Incorrect)])
    ensures Judge(vs).value == Revealed <==> !vs[0] && !vs[1]
    ensures Judge(vs).value == Revealed ==> Block(e, Judge(vs).value)[4..] == ShowAnswer(e)
    ensures forall k :: 4 <= k < |Block(e, Judge(vs).value)| ==> Block(e, Judge(vs).value)[k].style == Write
  {
  }

  // ---------------------------------------------------------------------------
  // The whole loop
  // ---------------------------------------------------------------------------

  /** Every error uses one or two verdicts, and enough verdicts always finish the loop. */
  lemma {:induction false} OutcomesBounds(vs: seq<bool>, n: nat)
    ensures Outcomes(vs, n).Some? ==> n <= TotalCost(Outcomes(vs, n).value) <= 2 * n
    ensures |vs| >= 2 * n ==> Outcomes(vs, n).Some?
    decreases n
  {
    if n > 0 {
      match Judge(vs)
      case None =>
      case Some(o) =>
        OutcomesBounds(vs[Cost(o)..], n - 1);
        match Outcomes(vs[Cost(o)..], n - 1)
        case None =>
        case Some(rest) =>
          TotalCostCons(o, rest);
    }
  }

  /** The loop uses between one and two verdicts per error, and never lacks one when there are two per error. */
  lemma SessionConsumption(errors: seq<ErrorRecord>, vs: seq<bool>)
    ensures Session(errors, vs).Some? ==> |errors| <= Session(errors, vs).value.consumed <= 2 * |errors|
    ensures |vs| >= 2 * |errors| ==> Session(errors, vs).Some?
  {
    OutcomesBounds(vs, |errors|);
  }

  /** The outcomes depend only on the verdicts they use. */
  lemma {:induction false} OutcomesPrefix(vs: seq<bool>, n: nat, more: seq<bool>)
    requires Outcomes(vs, n).Some?
    ensures TotalCost(Outcomes(vs, n).value) <= |vs|
    ensures Outcomes(vs[..TotalCost(Outcomes(vs, n).value)] + more, n) == Outcomes(vs, n)
    decreases n
  {
    if n > 0 {
      var os := Outcomes(vs, n).value;
      var o := Judge(vs).value;
      var rest := Outcomes(vs[Cost(o)..], n - 1).value;
      assert os == [o] + rest;
      TotalCostCons(o, rest);
      var w := vs[..TotalCost(os)] + more;
      PrefixAppend(vs, Cost(o), TotalCost(rest), more);
      JudgeReadsCost(vs, w);
      OutcomesPrefix(vs[Cost(o)..], n - 1, more);
      assert Outcomes(w[Cost(o)..], n - 1) == Some(rest);
    }
  }

  /** `Judge` reads no verdict beyond the ones it uses. */
  lemma JudgeReadsCost(vs: seq<bool>, w: seq<bool>)
    requires Judge(vs).Some?
    requires |w| >= Cost(Judge(vs).value) && w[..Cost(Judge(vs).value)] == vs[..Cost(Judge(vs).value)]
    ensures Judge(w) == Judge(vs)
  {
    assert w[0] == w[..Cost(Judge(vs).value)][0];
    if !vs[0] {
      assert w[1] == w[..2][1];
    }
  }

  lemma PrefixAppend<T>(s: seq<T>, c: nat, t: nat, more: seq<T>)
    requires c + t <= |s|
    ensures (s[..c + t] + more)[..c] == s[..c]
    ensures (s[..c + t] + more)[c..] == s[c..][..t] + more
  {
  }

  /**
   * Verdicts are read strictly in order and none beyond those counted in
   * `consumed`: any continuation of the used verdicts gives the same run.
   */
  lemma SessionReadsOnlyConsumed(errors: seq<ErrorRecord>, vs: seq<bool>, more: seq<bool>)
    requires Session(errors, vs).Some?
    ensures Session(errors, vs[..Session(errors, vs).value.consumed] + more) == Session(errors, vs)
  {
    OutcomesPrefix(vs, |errors|, more);
  }

  /** A message written by `st.write(f"Error identified: {this_error}")`. */
  predicate IsHeader(m: Message) {
    m.style == Write && |HeaderPrefix| <= |m.text| && m.text[..|HeaderPrefix|] == HeaderPrefix
  }

  /** The header messages among `ms`, in order. */
  function Headers(ms: seq<Message>): seq<Message> {
    if ms == [] then [] else (if IsHeader(ms[0]) then [ms[0]] else []) + Headers(ms[1..])
  }

  lemma {:induction false} HeadersAppend(a: seq<Message>, b: seq<Message>)
    ensures Headers(a + b) == Headers(a) + Headers(b)
    decreases |a|
  {
    if a == [] {
      assert a + b == b;
    } else {
      var first := if IsHeader(a[0]) then [a[0]] else [];
      assert (a + b)[0] == a[0];
      assert (a + b)[1..] == a[1..] + b;
      HeadersAppend(a[1..], b);
      calc {
        Headers(a + b);
        first + Headers(a[1..] + b);
        first + (Headers(a[1..]) + Headers(b));
        (first + Headers(a[1..])) + Headers(b);
        Headers(a) + Headers(b);
      }
    }
  }

  /** One error's messages hold exactly one header, its own. */
  lemma HeadersOfBlock(e: ErrorRecord, o: Outcome)
    ensures Headers(Block(e, o)) == [Header(e)]
  {
    var b := Block(e, o);
    assert IsHeader(b[0]) by {
      assert (HeaderPrefix + e.line1)[..|HeaderPrefix|] == HeaderPrefix;
    }
    forall k | 1 <= k < |b| ensures !IsHeader(b[k]) {
      if b[k].style == Write && |HeaderPrefix| <= |b[k].text| {
        assert k >= 4 && o == Revealed;
        assert b[k].text[1] != HeaderPrefix[1];
      }
    }
    NoHeaders(b[1..]);
  }

  lemma {:induction false} NoHeaders(ms: seq<Message>)
    requires forall k :: 0 <= k < |ms| ==> !IsHeader(ms[k])
    ensures Headers(ms) == []
    decreases |ms|
  {
    if ms != [] {
      NoHeaders(ms[1..]);
    }
  }

  lemma {:induction false} BlocksHeaders(errors: seq<ErrorRecord>, os: seq<Outcome>)
    requires |errors| == |os|
    ensures Headers(Blocks(errors, os)) == seq(|errors|, i requires 0 <= i < |errors| => Header(errors[i]))
    decreases |errors|
  {
    if errors != [] {
      var rest := errors[1..];
      assert Blocks(errors, os) == Block(errors[0], os[0]) + Blocks(rest, os[1..]);
      HeadersAppend(Block(errors[0], os[0]), Blocks(rest, os[1..]));
      HeadersOfBlock(errors[0], os[0]);
      BlocksHeaders(rest, os[1..]);
      HeaderSeqCons(errors);
    }
  }

  lemma HeaderSeqCons(errors: seq<ErrorRecord>)
    requires errors != []
    ensures seq(|errors|, i requires 0 <= i < |errors| => Header(errors[i]))
      == [Header(errors[0])] + seq(|errors| - 1, i requires 0 <= i < |errors| - 1 => Header(errors[1..][i]))
  {
  }

  /** Every error gets exactly one header, and the headers appear in the order of the errors. */
  lemma SessionHeadersInOrder(errors: seq<ErrorRecord>, vs: seq<bool>)
    requires Session(errors, vs).Some?
    ensures Headers(Session(errors, vs).value.messages)
      == seq(|errors|, i requires 0 <= i < |errors| => Header(errors[i]))
  {
    BlocksHeaders(errors, Outcomes(vs, |errors|).value);
  }

  function TotalSize(os: seq<Outcome>): nat {
    if os == [] then 0 else Size(os[0]) + TotalSize(os[1..])
  }

  lemma {:induction false} BlocksSize(errors: seq<ErrorRecord>, os: seq<Outcome>)
    requires |errors| == |os|
    ensures |Blocks(errors, os)| == TotalSize(os)
    decreases |os|
  {
    if os != [] {
      BlocksSize(errors[1..], os[1..]);
    }
  }

  /** The messages of two runs of errors, one after the other. */
  lemma {:induction false} BlocksAppend(e1: seq<ErrorRecord>, o1: seq<Outcome>, e2: seq<ErrorRecord>, o2: seq<Outcome>)
    requires |e1| == |o1| && |e2| == |o2|
    ensures Blocks(e1 + e2, o1 + o2) == Blocks(e1, o1) + Blocks(e2, o2)
    decreases |e1|
  {
    if e1 == [] {
      assert e1 + e2 == e2 && o1 + o2 == o2;
    } else {
      assert (e1 + e2)[1..] == e1[1..] + e2;
      assert (o1 + o2)[1..] == o1[1..] + o2;
      BlocksAppend(e1[1..], o1[1..], e2, o2);
    }
  }

  /** Error `i`'s messages sit, whole and unchanged, after those of the errors before it. */
  lemma BlocksAt(errors: seq<ErrorRecord>, os: seq<Outcome>, i: nat)
    requires |errors| == |os| && i < |os|
    ensures TotalSize(os[..i]) + Size(os[i]) <= |Blocks(errors, os)|
    ensures Blocks(errors, os)[TotalSize(os[..i])..TotalSize(os[..i]) + Size(os[i])] == Block(errors[i], os[i])
  {
    BlocksSplit(errors, os, i);
    BlocksSize(errors[..i], os[..i]);
    SliceMiddle(Blocks(errors, os), Blocks(errors[..i], os[..i]), Block(errors[i], os[i]),
      Blocks(errors[i + 1..], os[i + 1..]), TotalSize(os[..i]), Size(os[i]));
  }

  lemma BlocksSplit(errors: seq<ErrorRecord>, os: seq<Outcome>, i: nat)
    requires |errors| == |os| && i < |os|
    ensures Blocks(errors, os)
      == Blocks(errors[..i], os[..i]) + (Block(errors[i], os[i]) + Blocks(errors[i + 1..], os[i + 1..]))
  {
    TakeDrop(errors, i);
    TakeDrop(os, i);
    BlocksAppend(errors[..i], os[..i], errors[i..], os[i..]);
    DropNext(errors, i);
    DropNext(os, i);
    assert Blocks(errors[i..], os[i..]) == Block(errors[i], os[i]) + Blocks(errors[i + 1..], os[i + 1..]);
  }

  lemma TakeDrop<T>(s: seq<T>, i: nat)
    requires i <= |s|
    ensures s[..i] + s[i..] == s
  {
  }

  lemma DropNext<T>(s: seq<T>, i: nat)
    requires i < |s|
    ensures s[i..] != [] && s[i..][0] == s[i] && s[i..][1..] == s[i + 1..]
  {
  }

  lemma SliceMiddle<T>(whole: seq<T>, a: seq<T>, b: seq<T>, c: seq<T>, p: nat, n: nat)
    requires whole == a + (b + c) && p == |a| && n == |b|
    ensures p + n <= |whole| && whole[p..p + n] == b
  {
    assert whole[p..p + n] == (b + c)[..n];
  }

  lemma {:induction false} OutcomesAt(vs: seq<bool>, n: nat, i: nat)
    requires Outcomes(vs, n).Some? && i < n
    ensures TotalCost(Outcomes(vs, n).value[..i]) <= |vs|
    ensures Judge(vs[TotalCost(Outcomes(vs, n).value[..i])..]) == Some(Outcomes(vs, n).value[i])
    decreases i
  {
    var os := Outcomes(vs, n).value;
    var o := Judge(vs).value;
    var rest := Outcomes(vs[Cost(o)..], n - 1).value;
    assert os == [o] + rest;
    if i == 0 {
      assert os[..0] == [];
    } else {
      OutcomesAt(vs[Cost(o)..], n - 1, i - 1);
      assert os[..i] == [o] + rest[..i - 1];
      assert ([o] + rest[..i - 1])[1..] == rest[..i - 1];
      assert vs[Cost(o)..][TotalCost(rest[..i - 1])..] == vs[TotalCost(os[..i])..];
    }
  }

  /**
   * The run is the errors' blocks in input order: error `i` is judged afresh
   * on the verdicts that follow those of the errors before it, starting again
   * at attempt 1, and its messages follow those of the errors before it.
   */
  lemma SessionErrorAt(errors: seq<ErrorRecord>, vs: seq<bool>, i: nat)
    returns (os: seq<Outcome>, from: nat, at: nat)
    requires Session(errors, vs).Some? && i < |errors|
    ensures Outcomes(vs, |errors|) == Some(os)
    ensures from == TotalCost(os[..i]) && from <= |vs| && Judge(vs[from..]) == Some(os[i])
    ensures at == TotalSize(os[..i]) && at + Size(os[i]) <= |Session(errors, vs).value.messages|
    ensures Session(errors, vs).value.messages[at..at + Size(os[i])] == Block(errors[i], os[i])
  {
    os := Outcomes(vs, |errors|).value;
    OutcomesAt(vs, |errors|, i);
    BlocksAt(errors, os, i);
    from := TotalCost(os[..i]);
    at := TotalSize(os[..i]);
  }

  lemma {:induction false} OutcomeCounts(os: seq<Outcome>)
    ensures TotalSize(os) == 2 * multiset(os)[FirstTry] + 4 * multiset(os)[SecondTry] + 7 * multiset(os)[Revealed]
    ensures TotalCost(os) == multiset(os)[FirstTry] + 2 * (multiset(os)[SecondTry] + multiset(os)[Revealed])
    decreases |os|
  {
    if os != [] {
      MultisetCons(os);
      OutcomeCounts(os[1..]);
    }
  }

  lemma MultisetCons<T>(s: seq<T>)
    requires s != []
    ensures multiset(s) == multiset{s[0]} + multiset(s[1..])
  {
    assert s == [s[0]] + s[1..];
  }

  /**
   * Two messages for each error solved on attempt 1, four for each solved on
   * attempt 2, seven for each given away; one verdict for the first kind, two
   * for the others.
   */
  lemma SessionCounts(errors: seq<ErrorRecord>, vs: seq<bool>) returns (os: seq<Outcome>)
    requires Session(errors, vs).Some?
    ensures Outcomes(vs, |errors|) == Some(os)
    ensures |Session(errors, vs).value.messages|
      == 2 * multiset(os)[FirstTry] + 4 * multiset(os)[SecondTry] + 7 * multiset(os)[Revealed]
    ensures Session(errors, vs).value.consumed
      == multiset(os)[FirstTry] + 2 * (multiset(os)[SecondTry] + multiset(os)[Revealed])
  {
    os := Outcomes(vs, |errors|).value;
    BlocksSize(errors, os);
    OutcomeCounts(os);
  }
}
