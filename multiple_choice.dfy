/**
 * Multiple-choice mode: each row is [question, correct answer, wrong answers...].
 * Rows are asked in shuffled order; the answers of each row are shuffled too, the
 * menu result is checked against answer number 1, and the correct answers are
 * counted.  Menu results arrive as a sequence of already chosen indices.
 */
module MultipleChoice {
  import opened Shuffle
  import opened Numbers
  import SelectionMenu

  type Row = seq<string>

  /** The menu options: the row's answers in the shuffled order `ans`. */
  function Options(row: Row, ans: seq<int>): (options: seq<string>)
    requires forall j :: 0 <= j < |ans| ==> 0 <= ans[j] < |row|
    ensures |options| == |ans|
    ensures forall j :: 0 <= j < |ans| ==> options[j] == row[ans[j]]
  {
    seq(|ans|, j requires 0 <= j < |ans| => row[ans[j]])
  }

  /** `ans[selectedAnswer] === 1`: the chosen option is the row's answer number 1. */
  predicate IsCorrect(ans: seq<int>, selected: int)
  {
    0 <= selected < |ans| && ans[selected] == 1
  }

  /** The feedback line of an option: a tick for the correct answer, a cross for
      a wrong chosen one, nothing otherwise. */
  datatype Mark = Tick | Cross | Plain

  function MarkOf(ans: seq<int>, selected: int, j: int): Mark
    requires 0 <= j < |ans|
  {
    if ans[j] == 1 then Tick else if j == selected then Cross else Plain
  }

  /** One question as it went: the row asked, its answer order and options, the
      menu result, the feedback marks (none when skipped) and the verdict. */
  datatype Turn = Turn(row: nat, order: seq<int>, options: seq<string>, selected: int,
                       marks: seq<Mark>, correct: bool)

  /** The statistics object the mode returns. */
  datatype Stats = Stats(totalQuestions: nat, correctAnswers: nat, averageScore: Num)

  /** What asking row `r` with answer coins `coins` and menu result `selected` does. */
  function Play(questions: seq<Row>, r: nat, coins: seq<bool>, selected: int): Turn
    requires r < |questions|
  {
    var row := questions[r];
    var ans := Shuffled(1, |row|, coins);
    if selected == -1 then
      Turn(r, ans, Options(row, ans), selected, [], false)
    else
      Turn(r, ans, Options(row, ans), selected,
           seq(|ans|, j requires 0 <= j < |ans| => MarkOf(ans, selected, j)),
           IsCorrect(ans, selected))
  }

  /** A turn answered correctly. */
  predicate Succeeded(t: Turn)
  {
    t.correct
  }

  /** The body of the question loop: shuffle the answers, build the options,
      and on an answer build the feedback marks and the verdict. */
  method AskQuestion(questions: seq<Row>, r: nat, coins: seq<bool>, selected: int)
    returns (turn: Turn)
    requires r < |questions|
    ensures turn == Play(questions, r, coins, selected)
  {
    var row := questions[r];
    var ans := ShuffleIndices(1, |row|, coins);
    var options := [];
    var j := 1;
    while j < |row|
      invariant 1 <= j && |options| == j - 1 <= |ans|
      invariant forall k :: 0 <= k < j - 1 ==> options[k] == row[ans[k]]
    {
      options := options + [row[ans[j - 1]]];
      j := j + 1;
    }
    assert options == Options(row, ans);
    if selected == -1 {
      turn := Turn(r, ans, options, selected, [], false);
    } else {
      var marks := [];
      for j := 0 to |options|
        invariant |marks| == j
        invariant forall k :: 0 <= k < j ==> marks[k] == MarkOf(ans, selected, k)
      {
        if ans[j] == 1 {
          marks := marks + [Tick];
        } else if j == selected {
          marks := marks + [Cross];
        } else {
          marks := marks + [Plain];
        }
      }
      assert marks == seq(|ans|, j requires 0 <= j < |ans| => MarkOf(ans, selected, j));
      var correct := 0 <= selected < |ans| && ans[selected] == 1;
      turn := Turn(r, ans, options, selected, marks, correct);
    }
  }

  method MultipleChoiceMode(questions: seq<Row>, orderCoins: seq<bool>,
                            answerCoins: seq<seq<bool>>, selections: seq<int>)
    returns (stats: Stats, turns: seq<Turn>)
    requires |answerCoins| >= |questions| && |selections| >= |questions|
    ensures |turns| == |questions|
    ensures forall i :: 0 <= i < |questions| ==>
              turns[i] == Play(questions, Shuffled(0, |questions|, orderCoins)[i],
                               answerCoins[i], selections[i])
    ensures stats == Stats(|questions|, Count(turns, Succeeded),
                           Percentage(Count(turns, Succeeded), |questions|))
  {
    var idx := ShuffleIndices(0, |questions|, orderCoins);
    var success := 0;
    turns := [];
    for i := 0 to |questions|
      invariant Played(questions, idx, answerCoins, selections, turns) && |turns| == i
      invariant success == Count(turns, Succeeded)
    {
      var turn := AskQuestion(questions, idx[i], answerCoins[i], selections[i]);
      if turn.correct {
        success := success + 1;
      }
      PlayedGrows(questions, idx, answerCoins, selections, turns, turn);
      turns := turns + [turn];
    }
    stats := Stats(|questions|, success, Percentage(success, |questions|));
  }

  /** `turns` are the first questions of the shuffled order `idx`, as played. */
  predicate Played(questions: seq<Row>, idx: seq<int>, answerCoins: seq<seq<bool>>, selections: seq<int>,
                   turns: seq<Turn>)
  {
    |turns| <= |idx| && |turns| <= |answerCoins| && |turns| <= |selections| &&
    forall k :: 0 <= k < |turns| ==>
      0 <= idx[k] < |questions| && turns[k] == Play(questions, idx[k], answerCoins[k], selections[k])
  }

  /** Playing the next question extends the turns and the count of correct ones. */
  lemma PlayedGrows(questions: seq<Row>, idx: seq<int>, answerCoins: seq<seq<bool>>, selections: seq<int>,
                    turns: seq<Turn>, turn: Turn)
    requires Played(questions, idx, answerCoins, selections, turns)
    requires |turns| < |idx| && |turns| < |answerCoins| && |turns| < |selections|
    requires 0 <= idx[|turns|] < |questions|
    requires turn == Play(questions, idx[|turns|], answerCoins[|turns|], selections[|turns|])
    ensures Played(questions, idx, answerCoins, selections, turns + [turn])
    ensures Count(turns + [turn], Succeeded) == Count(turns, Succeeded) + if turn.correct then 1 else 0
  {
    var n := |turns|;
    var longer := turns + [turn];
    forall k | 0 <= k < n + 1
      ensures 0 <= idx[k] < |questions| && longer[k] == Play(questions, idx[k], answerCoins[k], selections[k])
    {
      if k < n {
        assert longer[k] == turns[k];
      }
    }
    assert longer[..n] == turns;
  }

  /** The answers of a row: everything after the question. */
  function Answers(row: Row): seq<string>
  {
    if row == [] then [] else row[1..]
  }

  /** The options are the row's answers, each exactly once. */
  lemma OptionsArePermutation(row: Row, coins: seq<bool>)
    ensures multiset(Options(row, Shuffled(1, |row|, coins))) == multiset(Answers(row))
  {
    if row != [] {
      OptionsOfShuffled(row, |row|, coins);
      assert row[1..|row|] == Answers(row);
    }
  }

  lemma {:induction false} OptionsOfShuffled(row: Row, hi: int, coins: seq<bool>)
    requires 1 <= hi <= |row|
    ensures multiset(Options(row, Shuffled(1, hi, coins))) == multiset(row[1..hi])
    decreases hi
  {
    if hi > 1 {
      OptionsOfShuffled(row, hi - 1, coins);
      var prev := Shuffled(1, hi - 1, coins);
      var last := [hi - 1];
      assert row[1..hi] == row[1..hi - 1] + [row[hi - 1]];
      assert Options(row, last) == [row[hi - 1]];
      if Coin(coins, hi - 2) {
        assert Shuffled(1, hi, coins) == prev + last;
        OptionsConcat(row, prev, last);
      } else {
        assert Shuffled(1, hi, coins) == last + prev;
        OptionsConcat(row, last, prev);
      }
    }
  }

  /** The options of a concatenated order are the concatenated options. */
  lemma OptionsConcat(row: Row, a: seq<int>, b: seq<int>)
    requires forall j :: 0 <= j < |a| ==> 0 <= a[j] < |row|
    requires forall j :: 0 <= j < |b| ==> 0 <= b[j] < |row|
    ensures Options(row, a + b) == Options(row, a) + Options(row, b)
  {
    assert forall j :: 0 <= j < |a + b| ==> 0 <= (a + b)[j] < |row|;
  }

  /** A row with a correct answer shows exactly one tick, next to that answer. */
  lemma OneTick(questions: seq<Row>, r: nat, coins: seq<bool>, selected: int)
    requires r < |questions| && |questions[r]| >= 2 && selected != -1
    ensures var t := Play(questions, r, coins, selected);
            exists j :: 0 <= j < |t.marks| && t.marks[j] == Tick && t.options[j] == questions[r][1]
    ensures var t := Play(questions, r, coins, selected);
            forall a, b :: 0 <= a < b < |t.marks| ==> !(t.marks[a] == Tick && t.marks[b] == Tick)
  {
    var row := questions[r];
    var ans := Shuffled(1, |row|, coins);
    var t := Play(questions, r, coins, selected);
    ShuffledCovers(1, |row|, coins, 1);
    var j :| 0 <= j < |ans| && ans[j] == 1;
    assert t.marks[j] == Tick;
    forall a, b | 0 <= a < b < |t.marks| ensures !(t.marks[a] == Tick && t.marks[b] == Tick) {
      ShuffledDistinct(1, |row|, coins, a, b);
    }
  }

  /** The verdict is "correct" exactly when the chosen option is the row's answer
      number 1, and then no option is crossed out. */
  lemma VerdictIsChoiceOfAnswerOne(questions: seq<Row>, r: nat, coins: seq<bool>, selected: int)
    requires r < |questions|
    ensures var t := Play(questions, r, coins, selected);
            t.correct <==> (0 <= selected < |t.options| && t.order[selected] == 1)
    ensures var t := Play(questions, r, coins, selected);
            t.correct ==> forall j :: 0 <= j < |t.marks| ==> t.marks[j] != Cross
    ensures var t := Play(questions, r, coins, selected);
            !t.correct && 0 <= selected < |t.marks| ==> t.marks[selected] == Cross
  {
  }

  /** A skip (the menu answering -1) is only possible for a row without answers:
      the menu starts on option 0 and stays within the options. */
  lemma SkipNeedsNoAnswers(row: Row, coins: seq<bool>, keys: seq<SelectionMenu.Key>)
    requires SelectionMenu.Navigate(|Options(row, Shuffled(1, |row|, coins))|, 0, keys)
             == SelectionMenu.Chosen(-1)
    ensures |row| <= 1
  {
    if |row| > 1 {
      SelectionMenu.StartAtZeroNeverCancels(|row| - 1, keys);
    }
  }

  /** The returned score is a percentage, and NaN only for an empty question set. */
  lemma ScoreIsPercentage(stats: Stats, turns: seq<Turn>)
    requires stats == Stats(|turns|, Count(turns, Succeeded),
                            Percentage(Count(turns, Succeeded), |turns|))
    ensures stats.correctAnswers <= stats.totalQuestions
    ensures stats.averageScore.NaN? <==> stats.totalQuestions == 0
    ensures stats.averageScore.Finite? ==> 0.0 <= stats.averageScore.value <= 100.0
  {
  }
}
