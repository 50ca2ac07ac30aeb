/**
 * Gap-text mode: each row is [text with a "[___]" gap, solution].  Rows are
 * asked in shuffled order, the answer is put into the first gap, and it counts
 * as correct when it equals the solution up to letter case.
 */
module GapText {
  import opened Wrappers
  import opened Text
  import opened Numbers
  import opened Shuffle

  /** A gap-text row: field 0 is the text, field 1 the solution. */
  datatype Row = Row(text: string, solution: string)

  const Gap: string := "[___]"

  /** The text shown after answering: `text.replace("[___]", answer)`. */
  function FillGap(text: string, answer: string): (shown: string)
    ensures Absent(text, Gap) ==> shown == text
    ensures forall i :: FirstAt(text, Gap, i) ==> shown == text[..i] + answer + text[i + |Gap|..]
  {
    ReplaceFirst(text, Gap, answer)
  }

  /** `answer.toLowerCase() === solution.toLowerCase()` */
  predicate IsRightAnswer(answer: string, solution: string)
  {
    EqualIgnoringCase(answer, solution)
  }

  /** One question as it went: the row asked, the answer typed, the text
      shown with the answer filled in, and the verdict. */
  datatype Turn = Turn(row: nat, answer: string, shown: string, correct: bool)

  /** The body of the question loop: row r asked and answered.  The verdict
      does not depend on the letter case the answer is typed in, and a text
      without a gap is shown as it is. */
  function Play(gaptexts: seq<Row>, r: nat, answer: string): (t: Turn)
    requires r < |gaptexts|
    ensures t.row == r && t.answer == answer
    ensures t.correct == IsRightAnswer(ToUpper(answer), gaptexts[r].solution)
    ensures t.correct == IsRightAnswer(ToLower(answer), gaptexts[r].solution)
    ensures Absent(gaptexts[r].text, Gap) ==> t.shown == gaptexts[r].text
  {
    CaseDoesNotMatter(answer, gaptexts[r].solution);
    Turn(r, answer, FillGap(gaptexts[r].text, answer), IsRightAnswer(answer, gaptexts[r].solution))
  }

  /** A turn answered correctly. */
  predicate Succeeded(t: Turn)
  {
    t.correct
  }

  /** The mode: `answers[i]` is what the user types for the i-th question asked.
      Returns the turns, the success count and the success rate it prints. */
  method GapTextMode(gaptexts: seq<Row>, coins: seq<bool>, answers: seq<string>)
    returns (turns: seq<Turn>, success: nat, rate: Num)
    requires |answers| >= |gaptexts|
    ensures |turns| == |gaptexts|
    ensures forall i :: 0 <= i < |gaptexts| ==>
              turns[i] == Play(gaptexts, Shuffled(0, |gaptexts|, coins)[i], answers[i])
    ensures success == Count(turns, Succeeded)
    ensures rate == Percentage(success, |gaptexts|)
  {
    var idx := ShuffleIndices(0, |gaptexts|, coins);
    success := 0;
    turns := [];
    for i := 0 to |gaptexts|
      invariant |turns| == i
      invariant forall k :: 0 <= k < i ==> turns[k] == Play(gaptexts, idx[k], answers[k])
      invariant success == Count(turns, Succeeded)
    {
      var turn := Play(gaptexts, idx[i], answers[i]);
      if turn.correct {
        success := success + 1;
      }
      CountGrows(turns, turn);
      forall k | 0 <= k < i + 1
        ensures (turns + [turn])[k] == Play(gaptexts, idx[k], answers[k])
      {
        if k < i {
          assert (turns + [turn])[k] == turns[k];
        }
      }
      turns := turns + [turn];
    }
    rate := Percentage(success, |gaptexts|);
  }

  lemma CountGrows(turns: seq<Turn>, turn: Turn)
    ensures Count(turns + [turn], Succeeded) == Count(turns, Succeeded) + if turn.correct then 1 else 0
  {
    assert (turns + [turn])[..|turns|] == turns;
  }

  /** Only the first gap is filled; the text after it, later gaps included,
      is shown unchanged. */
  lemma {:induction false} FillsFirstGapOnly(before: string, after: string, answer: string)
    requires IndexOf(before, Gap).None?
    ensures FillGap(before + Gap + after, answer) == before + answer + after
  {
    var s := before + Gap + after;
    assert IsAt(s, Gap, |before|) by {
      assert s[|before|..|before| + |Gap|] == Gap;
    }
    forall j | 0 <= j < |before| ensures !IsAt(s, Gap, j) {
      if j + |Gap| <= |before| {
        assert s[j..j + |Gap|] == before[j..j + |Gap|];
        assert !IsAt(before, Gap, j);
      } else {
        var m := |before| - j;
        assert s[|before|] == '[';
        assert Gap[m] != '[';
      }
    }
    assert s[..|before|] == before;
    assert s[|before| + |Gap|..] == after;
  }

  /** A text without a gap is shown as it is. */
  lemma NoGapUnchanged(text: string, answer: string)
    requires IndexOf(text, Gap).None?
    ensures FillGap(text, answer) == text
  {
  }

  /** Changing the letter case of the answer never changes the verdict. */
  lemma CaseDoesNotMatter(answer: string, solution: string)
    ensures IsRightAnswer(ToUpper(answer), solution) <==> IsRightAnswer(answer, solution)
    ensures IsRightAnswer(ToLower(answer), solution) <==> IsRightAnswer(answer, solution)
  {
    LowerOfUpper(answer);
    LowerIdempotent(answer);
  }

  /** The solution itself, typed in any letter case, is accepted. */
  lemma SolutionAccepted(solution: string)
    ensures IsRightAnswer(solution, solution)
    ensures IsRightAnswer(ToUpper(solution), solution)
  {
    CaseDoesNotMatter(solution, solution);
  }
}
