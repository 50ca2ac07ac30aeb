/**
 * Question generation with a language model: the request is retried with
 * exponential back-off, the reply must be a JSON array of questions (or an
 * object holding one under "questions"), and the user reviews every generated
 * question, saving, editing or discarding it.  Call outcomes, parsed replies
 * and typed answers are inputs.
 */
module AiQuestionGenerator {
  import opened Wrappers
  import opened Text

  // ---------------------------------------------------------------------
  // Retrying with back-off

  /** What `retryAPIRequest` ends with: the call's value, the last error thrown
      again, or undefined when no call was allowed at all. */
  datatype Retry<T> = Returned(value: T) | Thrown(error: string) | NoCall

  function Pow2(n: nat): (p: nat)
    ensures p >= 1
  {
    if n == 0 then 1 else 2 * Pow2(n - 1)
  }

  /** The waits, in milliseconds, after the first m failed calls: 2^k seconds after the k-th. */
  function Backoff(m: nat): (delays: seq<nat>)
    ensures |delays| == m
    ensures forall k :: 0 <= k < m ==> delays[k] == Pow2(k + 1) * 1000
  {
    seq(m, k requires 0 <= k < m => Pow2(k + 1) * 1000)
  }

  /** The first successful call among the first n, if any. */
  function FirstSuccess<T>(attempts: seq<Result<T, string>>, n: nat): (r: Option<nat>)
    requires n <= |attempts|
    ensures r.Some? ==> r.value < n && attempts[r.value].Ok? &&
                        forall k :: 0 <= k < r.value ==> attempts[k].Err?
    ensures r.None? ==> forall k :: 0 <= k < n ==> attempts[k].Err?
  {
    if n == 0 then None
    else match FirstSuccess(attempts, n - 1)
      case Some(j) => Some(j)
      case None => if attempts[n - 1].Ok? then Some(n - 1) else None
  }

  /** `attempts[k]` is what the k-th call returns or throws. */
  method RetryAPIRequest<T>(attempts: seq<Result<T, string>>, maxRetries: int)
    returns (outcome: Retry<T>, calls: nat, delays: seq<nat>)
    requires maxRetries <= |attempts|
    ensures maxRetries <= 0 ==> outcome == NoCall && calls == 0 && delays == []
    ensures maxRetries > 0 ==>
              match FirstSuccess(attempts, maxRetries)
              case Some(j) => outcome == Returned(attempts[j].value) && calls == j + 1
              case None => outcome == Thrown(attempts[maxRetries - 1].error) && calls == maxRetries
    ensures calls > 0 ==> delays == Backoff(calls - 1)
  {
    var retries := 0;
    calls := 0;
    delays := [];
    while retries < maxRetries
      invariant retries == 0 || retries < maxRetries
      invariant calls == retries
      invariant forall k :: 0 <= k < retries ==> attempts[k].Err?
      invariant delays == Backoff(retries)
    {
      calls := calls + 1;
      var attempt := attempts[retries];
      if attempt.Ok? {
        assert FirstSuccess(attempts, retries + 1) == Some(retries) by {
          NoEarlierSuccess(attempts, retries);
        }
        SuccessStays(attempts, retries + 1, maxRetries);
        outcome := Returned(attempt.value);
        return;
      }
      retries := retries + 1;
      if retries == maxRetries {
        NoEarlierSuccess(attempts, retries);
        outcome := Thrown(attempt.error);
        return;
      }
      delays := delays + [Pow2(retries) * 1000];
    }
    outcome := NoCall;
  }

  lemma {:induction false} NoEarlierSuccess<T>(attempts: seq<Result<T, string>>, n: nat)
    requires n <= |attempts| && forall k :: 0 <= k < n ==> attempts[k].Err?
    ensures FirstSuccess(attempts, n) == None
  {
    if n > 0 {
      NoEarlierSuccess(attempts, n - 1);
    }
  }

  lemma {:induction false} SuccessStays<T>(attempts: seq<Result<T, string>>, n: nat, m: nat)
    requires n <= m <= |attempts| && FirstSuccess(attempts, n).Some?
    ensures FirstSuccess(attempts, m) == FirstSuccess(attempts, n)
    decreases m - n
  {
    if n < m {
      SuccessStays(attempts, n, m - 1);
    }
  }

  /** The outcome as a function of the call results, for reasoning about it. */
  function RetryOutcome<T>(attempts: seq<Result<T, string>>, maxRetries: int): Retry<T>
    requires maxRetries <= |attempts|
  {
    if maxRetries <= 0 then NoCall
    else match FirstSuccess(attempts, maxRetries)
      case Some(j) => Returned(attempts[j].value)
      case None => Thrown(attempts[maxRetries - 1].error)
  }

  /** Each wait doubles the previous one, starting at two seconds. */
  lemma BackoffDoubles(m: nat, k: nat)
    requires k + 1 < m
    ensures Backoff(m)[0] == 2000
    ensures Backoff(m)[k + 1] == 2 * Backoff(m)[k]
  {
  }

  /** A value is returned only when some allowed call succeeded, and then it is
      the first success; an error is thrown only when all allowed calls failed. */
  lemma RetryOutcomeMeaning<T>(attempts: seq<Result<T, string>>, maxRetries: int)
    requires 0 < maxRetries <= |attempts|
    ensures RetryOutcome(attempts, maxRetries).Returned? <==>
              exists k :: 0 <= k < maxRetries && attempts[k].Ok?
    ensures RetryOutcome(attempts, maxRetries).Thrown? ==>
              RetryOutcome(attempts, maxRetries).error == attempts[maxRetries - 1].error
  {
    if FirstSuccess(attempts, maxRetries).Some? {
      var j := FirstSuccess(attempts, maxRetries).value;
      assert 0 <= j < maxRetries && attempts[j].Ok?;
    }
  }

  // ---------------------------------------------------------------------
  // The generation request and the reply

  /** A parsed JSON value. */
  datatype Json = JNull | JBool(b: bool) | JNumber(n: real) | JString(s: string)
                | JArray(items: seq<Json>) | JObject(fields: map<string, Json>)

  const ParseFailure: string := "Failed to parse generated questions"
  const DefaultRetries: int := 3

  /** The shape check on the parsed reply; None is a reply `JSON.parse` rejects.
      Every failure, including a null reply, ends in the same error. */
  function AcceptReply(parsed: Option<Json>): Result<seq<Json>, string>
  {
    match parsed
    case Some(JArray(items)) => Ok(items)
    case Some(JObject(fields)) =>
      if "questions" in fields && fields["questions"].JArray? then Ok(fields["questions"].items)
      else Err(ParseFailure)
    case _ => Err(ParseFailure)
  }

  /** Acceptance exactly for an array, or an object with an array under "questions". */
  lemma AcceptReplyMeaning(parsed: Option<Json>)
    ensures AcceptReply(parsed).Ok? <==>
              (parsed.Some? && (parsed.value.JArray? ||
                 (parsed.value.JObject? && "questions" in parsed.value.fields &&
                  parsed.value.fields["questions"].JArray?)))
    ensures AcceptReply(parsed).Err? ==> AcceptReply(parsed).error == ParseFailure
    ensures parsed.Some? && parsed.value.JArray? ==> AcceptReply(parsed) == Ok(parsed.value.items)
  {
  }

  /** `q[k]` rendered into a template: "undefined" when the row is too short. */
  function Cell(q: seq<string>, k: nat): string
  {
    if k < |q| then q[k] else "undefined"
  }

  /** `q[k]` as an element of `join`: the empty string when the row is too short. */
  function JoinedCell(q: seq<string>, k: nat): string
  {
    if k < |q| then q[k] else ""
  }

  function Min(a: int, b: int): int
  {
    if a < b then a else b
  }

  /** `existingQuestions.slice(0, Math.min(5, existingQuestions.length))` */
  function Samples(existing: seq<seq<string>>): (samples: seq<seq<string>>)
    ensures |samples| == Min(5, |existing|)
    ensures samples == existing[..|samples|]
  {
    existing[..Min(5, |existing|)]
  }

  /** One sample in the request. */
  function SampleText(q: seq<string>): string
  {
    "Question: " + Cell(q, 0) + "\nCorrect Answer: " + Cell(q, 1) + "\nWrong Answers: "
    + Cell(q, 2) + ", " + Cell(q, 3) + ", " + Cell(q, 4)
  }

  /** The question texts the model is told to avoid: the first field of every
      existing question, and nothing for a question without one, as `join`
      renders an undefined element. */
  function ExistingTexts(existing: seq<seq<string>>): (texts: seq<string>)
    ensures |texts| == |existing|
    ensures forall i :: 0 <= i < |existing| && existing[i] != [] ==> texts[i] == existing[i][0]
    ensures forall i :: 0 <= i < |existing| && existing[i] == [] ==> texts[i] == ""
  {
    seq(|existing|, i requires 0 <= i < |existing| => JoinedCell(existing[i], 0))
  }

  /** The style samples and the list of questions to avoid, as they go into the request. */
  function SampleSection(existing: seq<seq<string>>): string
  {
    var samples := Samples(existing);
    Join(seq(|samples|, i requires 0 <= i < |samples| => SampleText(samples[i])), "\n\n")
  }

  function AvoidList(existing: seq<seq<string>>): string
  {
    Join(ExistingTexts(existing), "\n")
  }

  /** Read line by line, the list to avoid names every existing question once,
      in order, when no question text holds a line break. */
  lemma AvoidListNamesEveryQuestion(existing: seq<seq<string>>)
    requires existing != []
    requires forall i :: 0 <= i < |existing| ==> Lacks(JoinedCell(existing[i], 0), '\n')
    ensures Split(AvoidList(existing), "\n") == ExistingTexts(existing)
  {
    SplitJoinLines(ExistingTexts(existing));
  }

  lemma {:induction false} SplitJoinLines(parts: seq<string>)
    requires parts != [] && forall k :: 0 <= k < |parts| ==> Lacks(parts[k], '\n')
    ensures Split(Join(parts, "\n"), "\n") == parts
  {
    if |parts| == 1 {
      LacksFirstChar(parts[0], "\n");
      SplitWhole(parts[0], "\n");
    } else {
      var rest := Join(parts[1..], "\n");
      SepNotInside(parts[0], "\n", rest);
      SplitAfter(parts[0], "\n", rest);
      SplitJoinLines(parts[1..]);
    }
  }

  /** `generateQuestionsWithAI`: `attempts[k]` is the parsed content of the k-th
      call's reply (None when it is not JSON) or the error it throws. */
  method GenerateQuestionsWithAI(attempts: seq<Result<Option<Json>, string>>)
    returns (result: Result<seq<Json>, string>, calls: nat, delays: seq<nat>)
    requires |attempts| >= DefaultRetries
    ensures match RetryOutcome(attempts, DefaultRetries)
            case Returned(parsed) => result == AcceptReply(parsed)
            case Thrown(e) => result == Err(e)
            case NoCall => result == Err(ParseFailure)
    ensures 1 <= calls <= DefaultRetries && delays == Backoff(calls - 1)
  {
    var outcome;
    outcome, calls, delays := RetryAPIRequest(attempts, DefaultRetries);
    match outcome
    case Returned(parsed) =>
      result := AcceptReply(parsed);
    case Thrown(e) =>
      result := Err(e);
    case NoCall =>
      result := Err(ParseFailure);
  }

  // ---------------------------------------------------------------------
  // Reviewing the generated questions

  /** What the user types for one question: the choice (y/n/edit), the five
      edit prompts and the confirmation, the last two used only for "edit". */
  datatype ReviewReply = ReviewReply(choice: string, edits: seq<string>, confirm: string)

  /** `(await prompt(...)) || q[k]`: an empty answer keeps the old field. */
  function EditedField(typed: string, previous: string): string
  {
    if typed == "" then previous else typed
  }

  /** The edited copy: the first five fields replaced by non-empty answers. */
  function Edited(q: seq<string>, typed: seq<string>): (e: seq<string>)
    requires |q| >= 5 && |typed| >= 5
    ensures |e| == |q|
    ensures forall k :: 0 <= k < 5 ==> e[k] == EditedField(typed[k], q[k])
    ensures e[5..] == q[5..]
  {
    seq(|q|, k requires 0 <= k < |q| => if k < 5 then EditedField(typed[k], q[k]) else q[k])
  }

  /** The row saved for one question, if any. */
  function Reviewed(q: seq<string>, reply: ReviewReply): Option<seq<string>>
    requires |q| >= 5 && |reply.edits| >= 5
  {
    if ToLower(reply.choice) == "y" then Some(q)
    else if ToLower(reply.choice) == "edit" then
      if ToLower(reply.confirm) == "y" then Some(Edited(q, reply.edits)) else None
    else None
  }

  ghost predicate Reviewable(generated: seq<seq<string>>, replies: seq<ReviewReply>)
  {
    |replies| >= |generated| &&
    (forall i :: 0 <= i < |generated| ==> |generated[i]| >= 5) &&
    (forall i :: 0 <= i < |replies| ==> |replies[i].edits| >= 5)
  }

  /** The saved rows, in the order of the generated questions. */
  function Selection(generated: seq<seq<string>>, replies: seq<ReviewReply>): (selected: seq<seq<string>>)
    requires Reviewable(generated, replies)
    ensures |selected| <= |generated|
  {
    if generated == [] then []
    else
      var n := |generated| - 1;
      var before := Selection(generated[..n], replies);
      match Reviewed(generated[n], replies[n])
      case Some(row) => before + [row]
      case None => before
  }

  method ReviewGeneratedQuestions(generated: seq<seq<string>>, replies: seq<ReviewReply>)
    returns (selected: seq<seq<string>>)
    requires Reviewable(generated, replies)
    ensures selected == Selection(generated, replies)
  {
    selected := [];
    for i := 0 to |generated|
      invariant selected == Selection(generated[..i], replies)
    {
      assert generated[..i + 1][..i] == generated[..i];
      var kept := ReviewQuestion(generated[i], replies[i]);
      if kept.Some? {
        selected := selected + [kept.value];
      }
    }
    assert generated[..|generated|] == generated;
  }

  /** The dialogue for one question; an edit works on a copy of the row. */
  method ReviewQuestion(q: seq<string>, reply: ReviewReply) returns (kept: Option<seq<string>>)
    requires |q| >= 5 && |reply.edits| >= 5
    ensures kept == Reviewed(q, reply)
  {
    kept := None;
    if ToLower(reply.choice) == "y" {
      kept := Some(q);
    } else if ToLower(reply.choice) == "edit" {
      var editedQuestion := new string[|q|](k requires 0 <= k < |q| => q[k]);
      for k := 0 to 5
        invariant forall j :: 0 <= j < |q| ==>
                    editedQuestion[j] == if j < k then EditedField(reply.edits[j], q[j]) else q[j]
      {
        editedQuestion[k] := EditedField(reply.edits[k], q[k]);
      }
      assert editedQuestion[..] == Edited(q, reply.edits);
      if ToLower(reply.confirm) == "y" {
        kept := Some(editedQuestion[..]);
      }
    }
  }

  /** Saying "y" (in any letter case) to everything saves every question unchanged. */
  lemma {:induction false} AcceptAllKeepsAll(generated: seq<seq<string>>, replies: seq<ReviewReply>)
    requires Reviewable(generated, replies)
    requires forall i :: 0 <= i < |generated| ==> ToLower(replies[i].choice) == "y"
    ensures Selection(generated, replies) == generated
  {
    if generated != [] {
      var n := |generated| - 1;
      AcceptAllKeepsAll(generated[..n], replies);
      assert generated[..n] + [generated[n]] == generated;
    }
  }

  /** Answers other than "y" and "edit" save nothing. */
  lemma {:induction false} RejectAllKeepsNone(generated: seq<seq<string>>, replies: seq<ReviewReply>)
    requires Reviewable(generated, replies)
    requires forall i :: 0 <= i < |generated| ==>
               ToLower(replies[i].choice) != "y" && ToLower(replies[i].choice) != "edit"
    ensures Selection(generated, replies) == []
  {
    if generated != [] {
      RejectAllKeepsNone(generated[..|generated| - 1], replies);
    }
  }

  /** Editing with empty answers changes nothing, and a non-empty answer, even
      one of spaces only, replaces its field. */
  lemma EditFields(q: seq<string>, typed: seq<string>)
    requires |q| >= 5 && |typed| >= 5
    ensures (forall k :: 0 <= k < 5 ==> typed[k] == "") ==> Edited(q, typed) == q
    ensures forall k :: 0 <= k < 5 && typed[k] != "" ==> Edited(q, typed)[k] == typed[k]
  {
  }
}
