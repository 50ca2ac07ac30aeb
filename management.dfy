/**
 * Management mode: the menu layers for modes, topics, topic actions, questions
 * and question fields, topic creation, renaming and deletion, adding a
 * question, and editing one question in place.  Menu answers, typed text and
 * the success or failure of each database call are inputs; the database calls
 * made are outputs.
 */
module Management {
  import opened Wrappers
  import opened Text
  import SelectionMenu
  import MultipleChoice

  // ---------------------------------------------------------------------
  // Menu layers: every menu here starts at -1, so an immediate Enter gives -1

  datatype ModeAction = ExitManagement | ManageMode(mode: string)

  function ModeOptions(modes: seq<string>): (options: seq<string>)
    ensures |options| == |modes| + 1 && options[1..] == modes
  {
    ["Exit Management Mode"] + modes
  }

  /** -1 and 0 leave; i >= 1 manages mode i - 1. */
  function ModeActionOf(modes: seq<string>, idx: int): ModeAction
    requires -1 <= idx <= |modes|
  {
    if idx == -1 || idx == 0 then ExitManagement else ManageMode(modes[idx - 1])
  }

  /** The mode menu answers within its options, and a chosen mode is the option
      that was highlighted. */
  lemma ModeMenuSelectsShownMode(modes: seq<string>, keys: seq<SelectionMenu.Key>)
    ensures var m := SelectionMenu.Navigate(|ModeOptions(modes)|, -1, keys);
            m.Chosen? ==>
              -1 <= m.index <= |modes| &&
              (m.index >= 1 ==> ModeActionOf(modes, m.index) == ManageMode(ModeOptions(modes)[m.index]))
  {
    SelectionMenu.ChosenRange(|ModeOptions(modes)|, -1, keys);
  }

  datatype TopicAction = BackToModes | CreateTopic | ManageTopic(topic: string)

  function TopicOptions(topics: seq<string>): (options: seq<string>)
    ensures |options| == |topics| + 2 && options[2..] == topics
  {
    ["Go back to mode selection", "Create new topic"] + topics
  }

  /** -1 and 0 go back, 1 creates a topic, i >= 2 manages topic i - 2. */
  function TopicActionOf(topics: seq<string>, idx: int): TopicAction
    requires -1 <= idx <= |topics| + 1
  {
    if idx == -1 || idx == 0 then BackToModes
    else if idx == 1 then CreateTopic
    else ManageTopic(topics[idx - 2])
  }

  lemma TopicMenuSelectsShownTopic(topics: seq<string>, keys: seq<SelectionMenu.Key>)
    ensures var m := SelectionMenu.Navigate(|TopicOptions(topics)|, -1, keys);
            m.Chosen? ==>
              -1 <= m.index <= |topics| + 1 &&
              (m.index >= 2 ==> TopicActionOf(topics, m.index) == ManageTopic(TopicOptions(topics)[m.index]))
  {
    SelectionMenu.ChosenRange(|TopicOptions(topics)|, -1, keys);
  }

  /** The five topic actions, in menu order after "Go back". */
  datatype Action = BackToTopics | EditQuestions | AddQuestion | RenameTopic | DeleteTopic

  /** The `switch` on the menu answer: -1 and 0 go back, 1 to 4 are the
      actions, and any other number matches no case and changes nothing. */
  function ActionOf(idx: int): (a: Option<Action>)
    ensures a == Some(BackToTopics) <==> idx == -1 || idx == 0
    ensures a.None? <==> idx < -1 || idx > 4
  {
    if idx == -1 || idx == 0 then Some(BackToTopics)
    else if idx == 1 then Some(EditQuestions)
    else if idx == 2 then Some(AddQuestion)
    else if idx == 3 then Some(RenameTopic)
    else if idx == 4 then Some(DeleteTopic)
    else None
  }

  /** The question list: "Go back", then each question's five fields joined by commas. */
  function QuestionOptions(questions: seq<seq<string>>): (options: seq<string>)
    requires forall i :: 0 <= i < |questions| ==> |questions[i]| >= 5
    ensures |options| == |questions| + 1 && options[0] == "Go back to topic management"
    ensures forall i :: 0 <= i < |questions| ==> options[i + 1] == Join(questions[i][..5], ",")
  {
    ["Go back to topic management"] +
    seq(|questions|, i requires 0 <= i < |questions| => Join(questions[i][..5], ","))
  }

  /** The question edited for a menu answer; None goes back. */
  function QuestionOf(count: nat, idx: int): (r: Option<nat>)
    requires -1 <= idx <= count
    ensures r.Some? ==> r.value < count && r.value == idx - 1
    ensures r.None? <==> idx <= 0
  {
    if idx == -1 || idx == 0 then None else Some(idx - 1)
  }

  // ---------------------------------------------------------------------
  // Creating, renaming and deleting topics; adding questions

  /** `db.saveQuestions(questions, topic, mode)` */
  datatype SaveCall = SaveCall(questions: seq<seq<string>>, topic: string, mode: string)

  const Placeholder: seq<string> := ["(Placeholder question)", "(Answer)", "(Wrong 1)", "(Wrong 2)", "(Wrong 3)"]

  /** A new topic is a topic holding one placeholder question. */
  function NewTopicCall(name: string, mode: string): Option<SaveCall>
  {
    if IsBlank(name) then None else Some(SaveCall([Placeholder], name, mode))
  }

  /** A topic is created exactly for a name with a non-whitespace character,
      and it is created with exactly one question of five fields. */
  lemma NewTopicNeedsVisibleName(name: string, mode: string)
    ensures NewTopicCall(name, mode).Some? <==> Trim(name) != ""
    ensures NewTopicCall(name, mode).Some? <==> exists k :: 0 <= k < |name| && !IsWhitespace(name[k])
    ensures NewTopicCall(name, mode).Some? ==>
              var call := NewTopicCall(name, mode).value;
              call.topic == name && call.mode == mode && |call.questions| == 1 && |call.questions[0]| == 5
  {
    BlankIffTrimEmpty(name);
  }

  /** `addQuestion`: empty text and "cancel" in any case abort; anything else,
      even text of spaces only, is saved as one five-field row. */
  function AddQuestionCall(question: string, correct: string, wrong1: string, wrong2: string,
                           wrong3: string, topic: string, mode: string): (r: Option<SaveCall>)
    ensures r.None? <==> question == "" || ToLower(question) == "cancel"
    ensures r.Some? ==> r.value.topic == topic && r.value.mode == mode
    ensures r.Some? ==> r.value.questions == [[question, correct, wrong1, wrong2, wrong3]]
  {
    if question == "" || ToLower(question) == "cancel" then None
    else Some(SaveCall([[question, correct, wrong1, wrong2, wrong3]], topic, mode))
  }

  /** An added question plays in multiple-choice mode with its correct answer
      as the one ticked option. */
  lemma AddedQuestionPlaysCorrectly(question: string, correct: string, wrong1: string, wrong2: string,
                                    wrong3: string, topic: string, mode: string,
                                    coins: seq<bool>, selected: int)
    requires AddQuestionCall(question, correct, wrong1, wrong2, wrong3, topic, mode).Some?
    requires selected != -1
    ensures var rows := AddQuestionCall(question, correct, wrong1, wrong2, wrong3, topic, mode).value.questions;
            var t := MultipleChoice.Play(rows, 0, coins, selected);
            rows[0][0] == question && |t.options| == 4 &&
            exists j :: 0 <= j < |t.marks| && t.marks[j] == MultipleChoice.Tick && t.options[j] == correct
  {
    var rows := AddQuestionCall(question, correct, wrong1, wrong2, wrong3, topic, mode).value.questions;
    MultipleChoice.OneTick(rows, 0, coins, selected);
  }

  /** `addQuestion` only tests for empty text, unlike topic creation, which trims. */
  lemma SpacesAreAQuestionButNotATopic()
    ensures AddQuestionCall(" ", "a", "b", "c", "d", "t", "m").Some?
    ensures NewTopicCall(" ", "m").None?
  {
    assert ToLower(" ") == " ";
    assert IsBlank(" ") by {
      assert " "[0] == ' ';
    }
  }

  /** `deleteTopic` asks for exactly "y": unlike question deletion, "Y" refuses. */
  predicate TopicDeletionConfirmed(answer: string)
  {
    answer == "y"
  }

  /** One step of `manageQuestions`: the action chosen, the text typed for it
      (a new name, or the deletion answer) and whether renaming fails.
      Editing and adding run their own dialogues and leave `topic` alone. */
  datatype ActionStep = ActionStep(choice: int, typed: string, renameFails: bool)

  /** How `manageQuestions` ends: going back, or returning "DELETE" after the
      deletion dialogue, confirmed or not. */
  datatype ManageEnd = WentBack | DeleteRequested(confirmed: bool) | StillManaging

  datatype Manage = Manage(end: ManageEnd, topic: string, renames: seq<(string, string)>, deleted: seq<string>)

  /** The rename a step records, if any. */
  function RenameOf(topic: string, s: ActionStep): seq<(string, string)>
  {
    if s.choice == 3 && !IsBlank(s.typed) then [(topic, s.typed)] else []
  }

  /** The topic after a step that does not end the session. */
  function TopicAfter(topic: string, s: ActionStep): string
  {
    if s.choice == 3 && !IsBlank(s.typed) && !s.renameFails then s.typed else topic
  }

  /** `manageQuestions` on a sequence of steps: it runs until going back or
      deleting, and with steps left over it is still asking. */
  function ManageSession(topic: string, steps: seq<ActionStep>): (m: Manage)
    ensures |m.deleted| <= 1
    decreases |steps|
  {
    if steps == [] then Manage(StillManaging, topic, [], [])
    else
      var s := steps[0];
      var action := ActionOf(s.choice);
      if action == Some(BackToTopics) then Manage(WentBack, topic, [], [])
      else if action == Some(DeleteTopic) then
        var yes := TopicDeletionConfirmed(s.typed);
        Manage(DeleteRequested(yes), topic, [], if yes then [topic] else [])
      else
        var rest := ManageSession(TopicAfter(topic, s), steps[1..]);
        Manage(rest.end, rest.topic, RenameOf(topic, s) + rest.renames, rest.deleted)
  }

  /** The while-loop of `manageQuestions`. */
  method ManageQuestions(topic: string, steps: seq<ActionStep>) returns (m: Manage)
    ensures m == ManageSession(topic, steps)
  {
    ghost var whole := ManageSession(topic, steps);
    var current := topic;
    var renames: seq<(string, string)> := [];
    var i := 0;
    assert steps[0..] == steps && renames + whole.renames == whole.renames;
    while i < |steps|
      invariant 0 <= i <= |steps|
      invariant Resumes(whole, current, renames, steps[i..])
    {
      var s := steps[i];
      var action := ActionOf(s.choice);
      assert steps[i..][0] == s;
      if action == Some(BackToTopics) || action == Some(DeleteTopic) {
        assert renames + [] == renames;
        if action == Some(BackToTopics) {
          m := Manage(WentBack, current, renames, []);
        } else {
          var yes := TopicDeletionConfirmed(s.typed);
          m := Manage(DeleteRequested(yes), current, renames, if yes then [current] else []);
        }
        return;
      }
      ghost var previous, recorded := current, renames;
      if action == Some(RenameTopic) && !IsBlank(s.typed) {
        renames := renames + [(current, s.typed)];
        if !s.renameFails {
          current := s.typed;
        }
      } else {
        assert recorded + RenameOf(previous, s) == recorded;
      }
      assert current == TopicAfter(previous, s) && renames == recorded + RenameOf(previous, s);
      assert Resumes(whole, current, renames, steps[i + 1..]) by {
        ResumeStep(whole, previous, recorded, steps[i..]);
        assert steps[i..][1..] == steps[i + 1..];
      }
      i := i + 1;
    }
    assert steps[i..] == [] && renames + [] == renames;
    m := Manage(StillManaging, current, renames, []);
  }

  /** Session `whole` is what is left of it from topic `current` on `rest`,
      after the renames already recorded. */
  ghost predicate Resumes(whole: Manage, current: string, renames: seq<(string, string)>, rest: seq<ActionStep>)
  {
    var r := ManageSession(current, rest);
    whole == Manage(r.end, r.topic, renames + r.renames, r.deleted)
  }

  /** A step that does not end the session moves the resumption point on. */
  lemma ResumeStep(whole: Manage, current: string, renames: seq<(string, string)>, rest: seq<ActionStep>)
    requires rest != [] && Resumes(whole, current, renames, rest)
    requires ActionOf(rest[0].choice) != Some(BackToTopics) && ActionOf(rest[0].choice) != Some(DeleteTopic)
    ensures Resumes(whole, TopicAfter(current, rest[0]), renames + RenameOf(current, rest[0]), rest[1..])
  {
    var r := ManageSession(TopicAfter(current, rest[0]), rest[1..]);
    var added := RenameOf(current, rest[0]);
    assert renames + (added + r.renames) == (renames + added) + r.renames;
  }

  /** The topic list is re-read after the deletion dialogue whatever the answer. */
  predicate ReloadsTopics(end: ManageEnd)
  {
    end.DeleteRequested?
  }

  /** Choosing "Delete this topic" ends the session and triggers a reload
      whatever the answer; only exactly "y" deletes, and it deletes the topic's
      current name. */
  lemma DeleteAlwaysReloads(topic: string, steps: seq<ActionStep>)
    requires steps != [] && steps[0].choice == 4
    ensures var m := ManageSession(topic, steps);
            ReloadsTopics(m.end) && m.topic == topic &&
            m.deleted == (if steps[0].typed == "y" then [topic] else [])
  {
  }

  /** After a successful rename, the session works on the new name. */
  lemma RenameThenDelete(topic: string, name: string)
    requires !IsBlank(name)
    ensures var m := ManageSession(topic, [ActionStep(3, name, false), ActionStep(4, "y", false)]);
            m.end == DeleteRequested(true) && m.topic == name && m.deleted == [name] &&
            m.renames == [(topic, name)]
  {
    var rename, delete := ActionStep(3, name, false), ActionStep(4, "y", false);
    var steps := [rename, delete];
    assert steps[0] == rename && steps[1..] == [delete];
    assert ManageSession(name, [delete]) == Manage(DeleteRequested(true), name, [], [name]) by {
      assert [delete][0] == delete && ActionOf(delete.choice) == Some(DeleteTopic);
    }
    assert RenameOf(topic, rename) == [(topic, name)] && TopicAfter(topic, rename) == name;
    assert [(topic, name)] + [] == [(topic, name)];
    assert ManageSession(topic, steps) == Manage(DeleteRequested(true), name, [(topic, name)], [name]) by {
      assert ActionOf(rename.choice) == Some(RenameTopic);
    }
  }

  /** A failed rename keeps the old name, and a capital "Y" deletes nothing. */
  lemma FailedRenameAndCapitalY(topic: string, name: string)
    requires !IsBlank(name)
    ensures var m := ManageSession(topic, [ActionStep(3, name, true), ActionStep(4, "Y", false)]);
            m.end == DeleteRequested(false) && m.topic == topic && m.deleted == []
  {
    var rename, delete := ActionStep(3, name, true), ActionStep(4, "Y", false);
    var steps := [rename, delete];
    assert steps[0] == rename && steps[1..] == [delete];
    assert !TopicDeletionConfirmed("Y") by {
      assert "Y"[0] != "y"[0];
    }
    assert ManageSession(topic, [delete]) == Manage(DeleteRequested(false), topic, [], []) by {
      assert [delete][0] == delete && ActionOf(delete.choice) == Some(DeleteTopic);
    }
    assert TopicAfter(topic, rename) == topic;
    assert ManageSession(topic, steps).deleted == [] by {
      assert ActionOf(rename.choice) == Some(RenameTopic);
    }
  }

  /** When every rename fails, the session ends on the topic it started with. */
  lemma {:induction false} FailedRenamesKeepTopic(topic: string, steps: seq<ActionStep>)
    requires forall k :: 0 <= k < |steps| ==> steps[k].renameFails
    ensures ManageSession(topic, steps).topic == topic
    decreases |steps|
  {
    if steps != [] {
      FailedRenamesKeepTopic(topic, steps[1..]);
    }
  }

  // ---------------------------------------------------------------------
  // Editing one question

  const DeletedMarker: string := "DELETED - "

  /** One round of `editSingleQuestion`: the menu answer (0 back, 1-5 a field,
      6 delete), the text typed (the new value, or the deletion answer) and
      whether `db.editQuestion` fails. */
  datatype EditStep = EditStep(choice: int, typed: string, dbFails: bool)

  /** `db.editQuestion(oldQuestion, question)`, with the rows as they were at the call. */
  datatype EditCall = EditCall(before: seq<string>, after: seq<string>)

  datatype EditRound = EditRound(question: seq<string>, calls: seq<EditCall>, done: bool)

  function EditRoundOf(q: seq<string>, s: EditStep): (r: EditRound)
    requires |q| >= 5
    ensures |r.question| == |q| && |r.calls| <= 1
  {
    if s.choice == -1 || s.choice == 0 then EditRound(q, [], true)
    else if s.choice == 6 then
      if ToLower(s.typed) == "y" then
        var marked := q[0 := DeletedMarker + q[0]];
        EditRound(marked, [EditCall(q, marked)], !s.dbFails)
      else EditRound(q, [], false)
    else if 1 <= s.choice <= 5 && !IsBlank(s.typed) then
      var edited := q[s.choice - 1 := s.typed];
      EditRound(if s.dbFails then q else edited, [EditCall(q, edited)], false)
    else EditRound(q, [], false)
  }

  /** The whole dialogue: the question at the end, the calls made, and whether
      it returned (going back, or a deletion that went through). */
  function EditSession(q: seq<string>, steps: seq<EditStep>): (r: EditRound)
    requires |q| >= 5
    ensures |r.question| == |q|
    decreases |steps|
  {
    if steps == [] then EditRound(q, [], false)
    else
      var first := EditRoundOf(q, steps[0]);
      if first.done then first
      else
        var rest := EditSession(first.question, steps[1..]);
        EditRound(rest.question, first.calls + rest.calls, rest.done)
  }

  /** The body of the loop, on the question array itself. */
  method EditRoundInPlace(question: array<string>, s: EditStep) returns (calls: seq<EditCall>, done: bool)
    requires question.Length >= 5
    modifies question
    ensures EditRound(question[..], calls, done) == EditRoundOf(old(question[..]), s)
  {
    calls := [];
    done := false;
    if s.choice == -1 || s.choice == 0 {
      done := true;
    } else if s.choice == 6 {
      calls, done := DeleteRound(question, s);
    } else if 1 <= s.choice <= 5 {
      calls := FieldRound(question, s);
    }
  }

  /** Deletion: on "y" the question text gets the marker and the rows go to
      the database; the dialogue returns unless that call fails. */
  method DeleteRound(question: array<string>, s: EditStep) returns (calls: seq<EditCall>, done: bool)
    requires question.Length >= 5 && s.choice == 6
    modifies question
    ensures EditRound(question[..], calls, done) == EditRoundOf(old(question[..]), s)
  {
    calls := [];
    done := false;
    if ToLower(s.typed) == "y" {
      var oldQuestion := question[..];
      question[0] := DeletedMarker + question[0];
      calls := [EditCall(oldQuestion, question[..])];
      assert question[..] == oldQuestion[0 := DeletedMarker + oldQuestion[0]];
      done := !s.dbFails;
    }
  }

  /** A field edit with non-blank text, put back when the database call fails. */
  method FieldRound(question: array<string>, s: EditStep) returns (calls: seq<EditCall>)
    requires question.Length >= 5 && 1 <= s.choice <= 5
    modifies question
    ensures EditRound(question[..], calls, false) == EditRoundOf(old(question[..]), s)
  {
    ghost var q := question[..];
    calls := [];
    if !IsBlank(s.typed) {
      var fieldIdx := s.choice - 1;
      var oldQuestion := question[..];
      var oldValue := question[fieldIdx];
      question[fieldIdx] := s.typed;
      calls := [EditCall(oldQuestion, question[..])];
      assert question[..] == q[fieldIdx := s.typed];
      if s.dbFails {
        question[fieldIdx] := oldValue;
        assert question[..] == q;
      }
    }
    assert EditRound(question[..], calls, false) == EditRoundOf(q, s) by {
      FieldRoundOf(q, s);
    }
  }

  /** What a field edit round amounts to. */
  lemma FieldRoundOf(q: seq<string>, s: EditStep)
    requires |q| >= 5 && 1 <= s.choice <= 5
    ensures IsBlank(s.typed) ==> EditRoundOf(q, s) == EditRound(q, [], false)
    ensures !IsBlank(s.typed) ==>
              var edited := q[s.choice - 1 := s.typed];
              EditRoundOf(q, s) == EditRound(if s.dbFails then q else edited, [EditCall(q, edited)], false)
  {
  }

  /** `editSingleQuestion` over the rounds typed. */
  method EditSingleQuestion(question: array<string>, steps: seq<EditStep>)
    returns (calls: seq<EditCall>, finished: bool)
    requires question.Length >= 5
    modifies question
    ensures EditRound(question[..], calls, finished) == EditSession(old(question[..]), steps)
  {
    ghost var whole := EditSession(question[..], steps);
    calls := [];
    finished := false;
    var i := 0;
    while i < |steps|
      invariant 0 <= i <= |steps|
      invariant Continues(whole, calls, EditSession(question[..], steps[i..]))
    {
      ghost var before := question[..];
      var made, done := EditRoundInPlace(question, steps[i]);
      ContinuesStep(whole, calls, before, steps[i..], question[..], made, done);
      assert steps[i..][1..] == steps[i + 1..];
      calls := calls + made;
      if done {
        finished := true;
        return;
      }
      i := i + 1;
    }
  }

  /** `whole` is the calls made so far followed by the run still to come. */
  predicate Continues(whole: EditRound, calls: seq<EditCall>, rest: EditRound)
  {
    whole == EditRound(rest.question, calls + rest.calls, rest.done)
  }

  lemma ContinuesStep(whole: EditRound, calls: seq<EditCall>, before: seq<string>, steps: seq<EditStep>,
                      after: seq<string>, made: seq<EditCall>, done: bool)
    requires |before| >= 5 && steps != []
    requires Continues(whole, calls, EditSession(before, steps))
    requires EditRound(after, made, done) == EditRoundOf(before, steps[0])
    ensures done ==> whole == EditRound(after, calls + made, true)
    ensures !done ==> Continues(whole, calls + made, EditSession(after, steps[1..]))
  {
  }

  /** A saved field edit changes exactly the chosen field and sends the old and
      new rows to the database. */
  lemma FieldEditChangesOneField(q: seq<string>, s: EditStep)
    requires |q| >= 5 && 1 <= s.choice <= 5 && !IsBlank(s.typed) && !s.dbFails
    ensures var r := EditRoundOf(q, s);
            r.question[s.choice - 1] == s.typed && !r.done &&
            (forall k :: 0 <= k < |q| && k != s.choice - 1 ==> r.question[k] == q[k]) &&
            r.calls == [EditCall(q, r.question)]
  {
  }

  /** A failed update is reverted: the question equals its pre-edit value. A blank
      input changes nothing and calls nothing. */
  lemma FailedOrBlankEditKeepsQuestion(q: seq<string>, s: EditStep)
    requires |q| >= 5 && 1 <= s.choice <= 5
    ensures s.dbFails || IsBlank(s.typed) ==> EditRoundOf(q, s).question == q
    ensures IsBlank(s.typed) ==> EditRoundOf(q, s).calls == []
  {
  }

  /** A confirmed deletion ("y" in any case) prefixes the question text and
      leaves the other fields alone; the dialogue ends only if the call succeeds. */
  lemma DeletionMarksQuestion(q: seq<string>, s: EditStep)
    requires |q| >= 5 && s.choice == 6 && ToLower(s.typed) == "y"
    ensures var r := EditRoundOf(q, s);
            r.question[0] == DeletedMarker + q[0] && r.question[1..] == q[1..] && r.done == !s.dbFails
  {
  }

  /** Any other answer to the deletion question, "n", "yes" or an empty line,
      leaves the question as it was, calls nothing and stays in the dialogue. */
  lemma RefusedDeletionKeepsQuestion(q: seq<string>, s: EditStep)
    requires |q| >= 5 && s.choice == 6 && ToLower(s.typed) != "y"
    ensures EditRoundOf(q, s) == EditRound(q, [], false)
  {
  }

  /** A dialogue of refused deletions only: the question is unchanged, no call
      is made, and the dialogue is still open afterwards. */
  lemma {:induction false} RefusedDeletionsKeepQuestion(q: seq<string>, steps: seq<EditStep>)
    requires |q| >= 5
    requires forall k :: 0 <= k < |steps| ==> steps[k].choice == 6 && ToLower(steps[k].typed) != "y"
    ensures EditSession(q, steps) == EditRound(q, [], false)
    decreases |steps|
  {
    if steps != [] {
      RefusedDeletionKeepsQuestion(q, steps[0]);
      RefusedDeletionsKeepQuestion(q, steps[1..]);
    }
  }

  /** A failed deletion is not reverted: a second attempt marks the text twice,
      and asks the database to change a row that no longer has the stored text. */
  lemma FailedDeletionIsNotReverted(q: seq<string>)
    requires |q| >= 5
    ensures var r := EditSession(q, [EditStep(6, "y", true), EditStep(6, "Y", false)]);
            r.done && r.question[0] == DeletedMarker + DeletedMarker + q[0] &&
            |r.calls| == 2 && r.calls[0].before == q && r.calls[1].before != q
  {
    var steps := [EditStep(6, "y", true), EditStep(6, "Y", false)];
    assert steps[1..] == [EditStep(6, "Y", false)];
    assert ToLower("Y") == "y";
    var marked := q[0 := DeletedMarker + q[0]];
    assert |marked[0]| > |q[0]|;
  }

  /** Edits that all fail, and no deletions, leave the question as it was. */
  lemma {:induction false} FailingEditsKeepQuestion(q: seq<string>, steps: seq<EditStep>)
    requires |q| >= 5
    requires forall k :: 0 <= k < |steps| ==> steps[k].dbFails && steps[k].choice != 6
    ensures EditSession(q, steps).question == q
    decreases |steps|
  {
    if steps != [] {
      FailingEditsKeepQuestion(q, steps[1..]);
    }
  }
}
