/**
 * AI chat mode: the questions come from one model reply, one per line; each
 * answer is graded by another model reply of the form
 * "Status: ...\nPercentage: ...\nFeedback: ...", whose percentages are summed
 * and averaged into a closing verdict.  The model replies and the typed answers
 * are inputs.
 */
module AiChat {
  import opened Wrappers
  import opened Text
  import opened Numbers

  // ---------------------------------------------------------------------
  // Questions

  /** `.filter((q) => q)`: empty strings are dropped, everything else is kept in order. */
  function NonEmpty(lines: seq<string>): (r: seq<string>)
    ensures |r| <= |lines|
    ensures forall k :: 0 <= k < |r| ==> r[k] != ""
  {
    if lines == [] then []
    else (if lines[0] == "" then [] else [lines[0]]) + NonEmpty(lines[1..])
  }

  /** Exactly the non-empty lines survive the filter. */
  lemma {:induction false} NonEmptyMembers(lines: seq<string>, q: string)
    ensures q in NonEmpty(lines) <==> q in lines && q != ""
  {
    if lines != [] {
      NonEmptyMembers(lines[1..], q);
      assert lines == [lines[0]] + lines[1..];
    }
  }

  /** A list without empty strings passes the filter unchanged. */
  lemma {:induction false} NonEmptyKeeps(lines: seq<string>)
    requires forall k :: 0 <= k < |lines| ==> lines[k] != ""
    ensures NonEmpty(lines) == lines
  {
    if lines != [] {
      NonEmptyKeeps(lines[1..]);
    }
  }

  /** `content.trim().split("\n").filter((q) => q)` on the generation reply. */
  function GenerateQuestions(reply: string): (qs: seq<string>)
    ensures forall k :: 0 <= k < |qs| ==> qs[k] != "" && Absent(qs[k], "\n")
  {
    var lines := Split(Trim(reply), "\n");
    var qs := NonEmpty(lines);
    assert forall k :: 0 <= k < |qs| ==> qs[k] in lines by {
      forall k | 0 <= k < |qs| ensures qs[k] in lines {
        NonEmptyMembers(lines, qs[k]);
      }
    }
    qs
  }

  /** A question is a non-empty line of the trimmed reply, and every such line is
      a question. */
  lemma QuestionsAreReplyLines(reply: string, q: string)
    ensures q in GenerateQuestions(reply) <==> q in Split(Trim(reply), "\n") && q != ""
  {
    NonEmptyMembers(Split(Trim(reply), "\n"), q);
  }

  /** Splitting a join whose parts do not contain the separator's first character
      gives the parts back. */
  lemma {:induction false} SplitJoin(parts: seq<string>, sep: string)
    requires sep != [] && parts != []
    requires forall k :: 0 <= k < |parts| ==> Lacks(parts[k], sep[0])
    ensures Split(Join(parts, sep), sep) == parts
  {
    if |parts| == 1 {
      LacksFirstChar(parts[0], sep);
      SplitWhole(parts[0], sep);
    } else {
      var rest := Join(parts[1..], sep);
      assert Join(parts, sep) == parts[0] + sep + rest;
      SepNotInside(parts[0], sep, rest);
      SplitAfter(parts[0], sep, rest);
      SplitJoin(parts[1..], sep);
    }
  }

  /** Questions written one per line come back as they were, as long as the
      reply does not start or end with whitespace. */
  lemma GenerateFromLines(qs: seq<string>)
    requires qs != []
    requires forall k :: 0 <= k < |qs| ==> qs[k] != "" && Lacks(qs[k], '\n')
    requires !IsWhitespace(qs[0][0]) && !IsWhitespace(qs[|qs| - 1][|qs[|qs| - 1]| - 1])
    ensures GenerateQuestions(Join(qs, "\n")) == qs
  {
    var text := Join(qs, "\n");
    JoinEnds(qs, "\n");
    TrimUnchanged(text);
    SplitJoin(qs, "\n");
    NonEmptyKeeps(qs);
  }

  /** A join of non-empty parts starts with the first part's first character and
      ends with the last part's last character. */
  lemma {:induction false} JoinEnds(parts: seq<string>, sep: string)
    requires parts != [] && forall k :: 0 <= k < |parts| ==> parts[k] != []
    ensures Join(parts, sep) != []
    ensures Join(parts, sep)[0] == parts[0][0]
    ensures Join(parts, sep)[|Join(parts, sep)| - 1] == parts[|parts| - 1][|parts[|parts| - 1]| - 1]
  {
    if |parts| > 1 {
      JoinEnds(parts[1..], sep);
    }
  }

  /** A line holding only spaces is not empty, so it is asked as a question. */
  lemma BlankLineIsAsked()
    ensures GenerateQuestions("Q1\n \nQ2") == ["Q1", " ", "Q2"]
  {
    var qs := ["Q1", " ", "Q2"];
    assert Join(qs, "\n") == "Q1\n \nQ2" by {
      assert Join(qs[1..], "\n") == " \nQ2" by {
        assert qs[1..][1..] == ["Q2"];
      }
    }
    GenerateFromLines(qs);
  }

  // ---------------------------------------------------------------------
  // Evaluation

  /** The destructured evaluation: status and feedback may be undefined, the
      percentage is `parseFloat` of its field. */
  datatype Evaluation = Evaluation(status: Option<string>, percentage: Num, feedback: Option<string>)

  /** `line.split(": ")[1]` of line k, undefined when there is no such line. */
  function Field(lines: seq<string>, k: nat): Option<string>
  {
    if k < |lines| then SecondPiece(lines[k], ": ") else None
  }

  /** Grading one answer: the model's reply, trimmed and split into lines, is
      read as status, percentage and feedback. */
  function EvaluateAnswer(reply: string): Evaluation
  {
    var lines := Split(Trim(reply), "\n");
    Evaluation(Field(lines, 0), ParseFloatOf(Field(lines, 1)), Field(lines, 2))
  }

  /** A line "name: value". */
  function Line(name: string, value: string): string
  {
    name + ": " + value
  }

  /** The reply in the requested form "Status: ...\nPercentage: ...\nFeedback: ...". */
  function ReplyText(status: string, percentage: string, feedback: string): string
  {
    Line("Status", status) + "\n" + Line("Percentage", percentage) + "\n" + Line("Feedback", feedback)
  }

  /** A label without ':' followed by ": " and a value without ": " gives that value. */
  lemma LabelValue(name: string, value: string)
    requires Lacks(name, ':')
    requires Absent(value, ": ")
    ensures SecondPiece(Line(name, value), ": ") == Some(value)
  {
    SepNotInside(name, ": ", value);
    SplitAfter(name, ": ", value);
    SplitWhole(value, ": ");
  }

  /** A value holding ": " is cut at it: only the text up to the second
      separator is kept. */
  lemma LabelValueCut(name: string, v1: string, v2: string)
    requires Lacks(name, ':')
    requires Absent(v1, ": ")
    ensures SecondPiece(Line(name, v1 + ": " + v2), ": ") == Some(v1)
  {
    var rest := v1 + ": " + v2;
    assert Split(Line(name, rest), ": ") == [name] + Split(rest, ": ") by {
      SepNotInside(name, ": ", rest);
      SplitAfter(name, ": ", rest);
    }
    assert Split(rest, ": ") == [v1] + Split(v2, ": ") by {
      NoEarlierSeparator(v1, v2);
      SplitAfter(v1, ": ", v2);
    }
  }

  /** ": " does not start inside `v1 + ": " + v2` when `v1` does not contain it. */
  lemma NoEarlierSeparator(v1: string, v2: string)
    requires Absent(v1, ": ")
    ensures forall j :: 0 <= j < |v1| ==> !IsAt(v1 + ": " + v2, ": ", j)
  {
    var rest := v1 + ": " + v2;
    forall j | 0 <= j < |v1| ensures !IsAt(rest, ": ", j) {
      if j + 2 <= |v1| {
        assert !IsAt(v1, ": ", j);
        assert rest[j..j + 2] == v1[j..j + 2];
      } else {
        assert rest[j + 1] == ':';
      }
    }
  }

  /** A line without ": " has no second piece: its field is undefined. */
  lemma LineWithoutSeparatorIsUndefined(line: string)
    requires Absent(line, ": ")
    ensures SecondPiece(line, ": ") == None
  {
    SplitWhole(line, ": ");
  }

  /** Three lines joined by newlines split back into the three lines. */
  lemma ThreeLines(l1: string, l2: string, l3: string)
    requires Lacks(l1, '\n') && Lacks(l2, '\n') && Lacks(l3, '\n')
    ensures Split(l1 + "\n" + l2 + "\n" + l3, "\n") == [l1, l2, l3]
  {
    var rest := l2 + "\n" + l3;
    assert l1 + "\n" + l2 + "\n" + l3 == l1 + "\n" + rest;
    SepNotInside(l1, "\n", rest);
    SplitAfter(l1, "\n", rest);
    SepNotInside(l2, "\n", l3);
    SplitAfter(l2, "\n", l3);
    LacksFirstChar(l3, "\n");
    SplitWhole(l3, "\n");
  }

  /** A line whose label and value lack a character other than ':' and ' ' lacks it too. */
  lemma LineLacks(name: string, value: string, c: char)
    requires Lacks(name, c) && Lacks(value, c) && c != ':' && c != ' '
    ensures Lacks(Line(name, value), c)
  {
  }

  /** The three labels contain neither ':' nor a newline. */
  lemma LabelsArePlain()
    ensures Lacks("Status", ':') && Lacks("Percentage", ':') && Lacks("Feedback", ':')
    ensures Lacks("Status", '\n') && Lacks("Percentage", '\n') && Lacks("Feedback", '\n')
  {
  }

  /** A well-formed reply is read back field by field. */
  lemma ReadsWellFormedReply(status: string, percentage: string, feedback: string)
    requires Lacks(status, '\n') && Lacks(percentage, '\n') && Lacks(feedback, '\n')
    requires Absent(status, ": ") && Absent(percentage, ": ") && Absent(feedback, ": ")
    requires feedback != [] && !IsWhitespace(feedback[|feedback| - 1])
    ensures EvaluateAnswer(ReplyText(status, percentage, feedback))
            == Evaluation(Some(status), ParseFloat(percentage), Some(feedback))
  {
    var reply := ReplyText(status, percentage, feedback);
    var lines := [Line("Status", status), Line("Percentage", percentage), Line("Feedback", feedback)];
    assert EvaluateAnswer(reply) == Evaluation(Field(lines, 0), ParseFloatOf(Field(lines, 1)), Field(lines, 2)) by {
      ReplyLines(status, percentage, feedback);
    }
    assert Field(lines, 0) == Some(status) && Field(lines, 1) == Some(percentage) &&
           Field(lines, 2) == Some(feedback) by {
      LabelsArePlain();
      LabelValue("Status", status);
      LabelValue("Percentage", percentage);
      LabelValue("Feedback", feedback);
    }
  }

  /** The trimmed reply splits into its three lines. */
  lemma ReplyLines(status: string, percentage: string, feedback: string)
    requires Lacks(status, '\n') && Lacks(percentage, '\n') && Lacks(feedback, '\n')
    requires feedback != [] && !IsWhitespace(feedback[|feedback| - 1])
    ensures Split(Trim(ReplyText(status, percentage, feedback)), "\n")
            == [Line("Status", status), Line("Percentage", percentage), Line("Feedback", feedback)]
  {
    var l1 := Line("Status", status);
    var l2 := Line("Percentage", percentage);
    var l3 := Line("Feedback", feedback);
    ReplyTrimmed(status, percentage, feedback);
    LabelsArePlain();
    LineLacks("Status", status, '\n');
    LineLacks("Percentage", percentage, '\n');
    LineLacks("Feedback", feedback, '\n');
    ThreeLines(l1, l2, l3);
  }

  /** The reply starts with 'S' and ends with the feedback's last character,
      so trimming leaves it as it is. */
  lemma ReplyTrimmed(status: string, percentage: string, feedback: string)
    requires feedback != [] && !IsWhitespace(feedback[|feedback| - 1])
    ensures Trim(ReplyText(status, percentage, feedback)) == ReplyText(status, percentage, feedback)
  {
    var reply := ReplyText(status, percentage, feedback);
    assert reply[0] == 'S';
    assert reply[|reply| - 1] == feedback[|feedback| - 1];
    TrimUnchanged(reply);
  }

  /** A reply that stops after the status line has no percentage and no
      feedback: the score is NaN. */
  lemma StatusOnlyReplyScoresNaN(reply: string)
    requires Absent(Trim(reply), "\n")
    ensures EvaluateAnswer(reply).percentage.NaN?
    ensures EvaluateAnswer(reply).feedback.None?
  {
    SplitWhole(Trim(reply), "\n");
  }

  // ---------------------------------------------------------------------
  // The session

  /** One question as it went. */
  datatype Exchange = Exchange(number: nat, question: string, answer: string, evaluation: Evaluation)

  function Percentages(exchanges: seq<Exchange>): (ps: seq<Num>)
    ensures |ps| == |exchanges|
    ensures forall i :: 0 <= i < |exchanges| ==> ps[i] == exchanges[i].evaluation.percentage
  {
    seq(|exchanges|, i requires 0 <= i < |exchanges| => exchanges[i].evaluation.percentage)
  }

  lemma PercentagesAppend(exchanges: seq<Exchange>, e: Exchange)
    ensures Sum(Percentages(exchanges + [e])) == Add(Sum(Percentages(exchanges)), e.evaluation.percentage)
  {
    assert Percentages(exchanges + [e])[..|exchanges|] == Percentages(exchanges);
  }

  lemma PrefixGrows<T>(s: seq<T>, i: nat)
    requires i < |s|
    ensures s[..i + 1] == s[..i] + [s[i]]
  {
  }

  /** The exchanges of a session, as the question loop produces them. */
  function Transcript(questions: seq<string>, answers: seq<string>, evaluationReplies: seq<string>)
    : (t: seq<Exchange>)
    requires |answers| >= |questions| && |evaluationReplies| >= |questions|
    ensures |t| == |questions|
  {
    seq(|questions|, i requires 0 <= i < |questions| =>
      Exchange(i + 1, questions[i], answers[i], EvaluateAnswer(evaluationReplies[i])))
  }

  /** The question loop: ask each question in order, have the answer graded and
      add up the percentages. */
  method Converse(questions: seq<string>, answers: seq<string>, evaluationReplies: seq<string>)
    returns (exchanges: seq<Exchange>, score: Num)
    requires |answers| >= |questions| && |evaluationReplies| >= |questions|
    ensures exchanges == Transcript(questions, answers, evaluationReplies)
    ensures score == Sum(Percentages(exchanges))
  {
    ghost var all := Transcript(questions, answers, evaluationReplies);
    score := Finite(0.0);
    exchanges := [];
    for i := 0 to |questions|
      invariant exchanges == all[..i]
      invariant score == Sum(Percentages(exchanges))
    {
      var question := questions[i];
      var userAnswer := answers[i];
      var evaluation := EvaluateAnswer(evaluationReplies[i]);
      var exchange := Exchange(i + 1, question, userAnswer, evaluation);
      assert exchanges + [exchange] == all[..i + 1] by {
        assert all[i] == exchange;
        PrefixGrows(all, i);
      }
      PercentagesAppend(exchanges, exchange);
      score := Add(score, evaluation.percentage);
      exchanges := exchanges + [exchange];
    }
    assert all[..|questions|] == all;
  }

  /** The whole session: generate the questions, converse, then average the
      score and pick the closing message. */
  method AIChatMode(generationReply: string, answers: seq<string>, evaluationReplies: seq<string>)
    returns (exchanges: seq<Exchange>, score: Num, average: Num, closing: Tier)
    requires |answers| >= |GenerateQuestions(generationReply)|
    requires |evaluationReplies| >= |GenerateQuestions(generationReply)|
    ensures exchanges == Transcript(GenerateQuestions(generationReply), answers, evaluationReplies)
    ensures score == Sum(Percentages(exchanges))
    ensures average == Mean(score, |exchanges|)
    ensures closing == TierOf(average)
  {
    var questions := GenerateQuestions(generationReply);
    exchanges, score := Converse(questions, answers, evaluationReplies);
    average := Mean(score, |questions|);
    closing := TierOf(average);
  }

  /** One unreadable percentage makes the average NaN, and the closing verdict
      is "Keep studying". */
  lemma NaNMeansKeepStudying(ps: seq<Num>, k: int)
    requires 0 <= k < |ps| && ps[k].NaN?
    ensures Mean(Sum(ps), |ps|).NaN?
    ensures TierOf(Mean(Sum(ps), |ps|)) == NeedsWork
  {
    SumFinite(ps);
  }

  /** A session without questions averages 0 / 0 and closes with "Keep studying". */
  lemma EmptySessionKeepsStudying()
    ensures TierOf(Mean(Sum([]), 0)) == NeedsWork
  {
  }

  /** With readable percentages between 0 and 100 the average is a percentage too. */
  lemma AverageIsPercentage(ps: seq<Num>)
    requires ps != []
    requires forall k :: 0 <= k < |ps| ==> ps[k].Finite? && 0.0 <= ps[k].value <= 100.0
    ensures Mean(Sum(ps), |ps|).Finite?
    ensures 0.0 <= Mean(Sum(ps), |ps|).value <= 100.0
  {
    SumBounds(ps);
    MeanOfPercentages(Sum(ps), |ps|);
  }

  lemma {:induction false} SumBounds(ps: seq<Num>)
    requires forall k :: 0 <= k < |ps| ==> ps[k].Finite? && 0.0 <= ps[k].value <= 100.0
    ensures Sum(ps).Finite? && 0.0 <= Sum(ps).value <= 100.0 * |ps| as real
  {
    if ps != [] {
      SumBounds(ps[..|ps| - 1]);
    }
  }
}
