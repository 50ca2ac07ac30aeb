# Learning platform quiz core, modelled in Dafny

The learning platform is a terminal quiz application. A user picks or creates a
profile and then studies in one of several modes:

- multiple choice;
- gap text;
- flashcards;
- an AI chat, whose questions and grades come from a language model.

The user can also look at a statistics sheet, or enter management mode to
create, rename and delete topics and to add, edit and mark questions for
deletion. Every choice goes through one arrow-key selection menu.

This project models that core as Dafny modules, one per source file, plus four
helper modules:

- `Wrappers`: Option and Result.
- `Text`: the JavaScript string operations the code uses.
- `Numbers`: JavaScript numbers with NaN, and `parseFloat` for decimal numerals.
- `Shuffle`: the push/unshift index shuffle that all three quiz modes share.

Anything the program gets from outside becomes an input to the model:

- key presses are a sequence of `Key` values;
- typed lines are strings;
- `Math.random()` draws are a sequence of coins;
- language-model replies are strings or parsed JSON values;
- each database call's success or failure is a flag.

What the program draws or sends out is returned as a result: screens, turns,
pages and database calls.

The form of each module follows its source:

- The menu updates its state in place, so it is a `class` with `modifies`
  clauses.
- The in-place question edit works on an `array`.
- Each loop is a `method` with a `while` or `for` loop. It is proved equal to
  a specification function, and the properties are lemmas about that
  function.

## Model

| member | source | states |
|---|---|---|
| SelectionMenu.Menu.constructor | displaySelectionMenu.js:55-77 | the menu starts at the default selection and draws it once, unless the default is the -999 sentinel |
| SelectionMenu.Menu.Render | displaySelectionMenu.js:59-75 | a redraw happens exactly when the selection differs from the last one drawn, and afterwards the two agree |
| SelectionMenu.Menu.HandleKey | displaySelectionMenu.js:80-96 | up and down move with wrap-around and redraw on a change; Enter resolves with the current selection; Ctrl-C exits; other keys do nothing |
| SelectionMenu.Menu.HandleKeys | displaySelectionMenu.js:79-98 | the listener over a key stream settles as the reference `Navigate` does, and draws exactly the `Renders` screens |
| SelectionMenu.DisplaySelectionMenu | displaySelectionMenu.js:41-99 | the resolved index and every screen drawn, both as functions of the options, the default and the keys |
| SelectionMenu.Navigate | displaySelectionMenu.js:79-98 | the reference run of the listener: arrows move with wrap-around, Enter resolves with the selection, Ctrl-C exits, other keys are ignored, and without more keys it is still waiting |
| SelectionMenu.Renders | displaySelectionMenu.js:59-98 | the screens the listener draws: one for each key that moves the selection, none for a key that leaves it where it was |
| SelectionMenu.ArrowLandsInRange | displaySelectionMenu.js:83-90 | from any selection in [-1, n), one arrow key lands inside [0, n) |
| SelectionMenu.UpDownRoundTrip | displaySelectionMenu.js:83-90 | up then down, and down then up, return to the same in-range selection |
| SelectionMenu.EnterReturnsSelection | displaySelectionMenu.js:91-95 | Enter resolves with the selection reached by the keys before it |
| SelectionMenu.ChosenRange | displaySelectionMenu.js:83-95 | with a default in [-1, n), every answer is in [-1, n); after any arrow key it is in [0, n); -1 needs a default of -1 and no arrow key |
| SelectionMenu.StartAtZeroNeverCancels | displaySelectionMenu.js:83-95 | a menu over a non-empty list that starts at 0 never answers -1 |
| SelectionMenu.EmptyListUpCancels | displaySelectionMenu.js:84-85 | over an empty list, up gives `options.length - 1`, which is -1 |
| SelectionMenu.ScreenMarksSelection | displaySelectionMenu.js:62-71 | a screen is the prompt followed by one line per option, and only the selected option carries the "> " mark |
| Shuffle.Shuffled | multipleChoice.js:23-25 | the shuffled order has hi - lo entries, all inside [lo, hi) |
| Shuffle.ShuffleIndices | multipleChoice.js:23-25 | the push/unshift loop computes `Shuffled` |
| Shuffle.ShuffledCounts | multipleChoice.js:23-25 | whatever the coins, each index of [lo, hi) occurs exactly once and nothing else occurs; with the mode methods' ensures, every row is asked exactly once in multiple choice, gap text and flashcards |
| Shuffle.ShuffledIsPermutation | multipleChoice.js:23-25 | the order is a permutation of lo, ..., hi - 1 |
| Shuffle.ShuffledDistinct | gapTextMode.js:22-24 | no index occurs twice |
| Shuffle.ShuffledCovers | flashcardMode.js:21-23 | every index of [lo, hi) occurs |
| Numbers.Count | multipleChoice.js:76-82 | the number of turns answered correctly, never more than the turns; multiple choice and gap text both count with it |
| MultipleChoice.Options | multipleChoice.js:39-43 | option j is the row's answer number `ans[j]` |
| MultipleChoice.Play | multipleChoice.js:28-82 | one question: the answers shuffled into options; no marks and no credit on a skip; otherwise a tick on answer 1, a cross on a wrong choice, and the verdict (OneTick, VerdictIsChoiceOfAnswerOne and OptionsArePermutation state its properties) |
| MultipleChoice.AskQuestion | multipleChoice.js:28-83 | one question, as the reference `Play`: shuffled answers, options, feedback marks and verdict |
| MultipleChoice.MultipleChoiceMode | multipleChoice.js:18-104 | question i asked is row `Shuffled(0, n)[i]`, played with its own coins and menu answer; the statistics hold n, the correct count and its percentage |
| MultipleChoice.OptionsArePermutation | multipleChoice.js:28-43 | the options are exactly the row's answers, each once |
| MultipleChoice.OneTick | multipleChoice.js:62-74 | for a row with a correct answer, exactly one option is ticked, and it is answer number 1 |
| MultipleChoice.VerdictIsChoiceOfAnswerOne | multipleChoice.js:62-82 | the verdict is correct exactly when the chosen option is answer 1; then nothing is crossed, and otherwise the chosen option is crossed |
| MultipleChoice.SkipNeedsNoAnswers | multipleChoice.js:46-55 | the skip branch (answer -1) is reachable only for a row without answers |
| MultipleChoice.ScoreIsPercentage | multipleChoice.js:88-103 | the score is NaN exactly for an empty question set, and otherwise lies between 0 and 100 |
| GapText.FillGap | gapTextMode.js:44 | a text without "[___]" is shown as it is; otherwise the first "[___]" is replaced by the answer and the rest of the text kept |
| GapText.IsRightAnswer | gapTextMode.js:48 | the answer and the solution are equal once both are lower-cased (CaseDoesNotMatter and SolutionAccepted state what that means) |
| GapText.Play | gapTextMode.js:29-58 | one question: row r asked with the typed answer; the verdict is the same whatever letter case the answer is typed in, and a text without a gap is shown unchanged |
| GapText.GapTextMode | gapTextMode.js:17-70 | question i is row `Shuffled(0, n)[i]` with answer i; the success count and rate are those of the turns |
| GapText.FillsFirstGapOnly | gapTextMode.js:44 | only the first "[___]" is replaced; later gaps are shown as typed |
| GapText.NoGapUnchanged | gapTextMode.js:44 | a text without a gap is shown unchanged |
| GapText.CaseDoesNotMatter | gapTextMode.js:48 | upper- or lower-casing the answer never changes the verdict |
| GapText.SolutionAccepted | gapTextMode.js:48 | the solution, in its own case or upper case, is accepted |
| Flashcard.FlashcardMode | flashcardMode.js:17-54 | card i shown is row `Shuffled(0, n)[i]`, with counter i + 1 of n and the next-or-finish prompt; the views are exactly `Session`, which the property lemmas are about |
| Flashcard.Session | flashcardMode.js:31-54 | the view sequence as a function of the rows and the coins, one view per card |
| Flashcard.EachCardShownOnce | flashcardMode.js:21-37 | no card is shown twice |
| Flashcard.EveryCardShown | flashcardMode.js:21-37 | every card is shown |
| Flashcard.FrontAndBackMatch | flashcardMode.js:34-47 | the back shown belongs to the same row as the front, and the counter runs 1..n of n |
| Flashcard.OnlyLastCardFinishes | flashcardMode.js:49-53 | the prompt asks to finish exactly on the last card |
| AiChat.NonEmpty | aiChatMode.js:143 | the filter keeps no empty string and never lengthens the list |
| AiChat.GenerateQuestions | aiChatMode.js:140-143 | every question is non-empty and holds no line break |
| AiChat.QuestionsAreReplyLines | aiChatMode.js:140-143 | a question is exactly a non-empty line of the trimmed reply |
| AiChat.GenerateFromLines | aiChatMode.js:140-143 | questions sent one per line, with no whitespace at either end of the reply, come back unchanged |
| AiChat.BlankLineIsAsked | aiChatMode.js:143 | a line of spaces survives the filter and is asked |
| AiChat.EvaluateAnswer | aiChatMode.js:165-174 | the reply is trimmed and split into lines; lines 1 to 3, each after its first ": ", are status, `parseFloat` of the percentage and feedback, undefined where missing (ReadsWellFormedReply and StatusOnlyReplyScoresNaN state its meaning) |
| AiChat.LabelValue | aiChatMode.js:168 | `split(": ")[1]` of "Label: value" is the value when neither part contains the separator |
| AiChat.LabelValueCut | aiChatMode.js:168 | a value that holds a further ": " is cut there: only the text up to it is kept |
| AiChat.LineWithoutSeparatorIsUndefined | aiChatMode.js:168 | a line without ": " yields undefined |
| AiChat.ReadsWellFormedReply | aiChatMode.js:165-174 | a reply in the requested three-line form is read back as status, `parseFloat` of the percentage, and feedback |
| AiChat.StatusOnlyReplyScoresNaN | aiChatMode.js:165-173 | a one-line reply has no percentage, so the score is NaN, and no feedback |
| AiChat.Percentages | aiChatMode.js:75 | the percentages added up are those of the exchanges, in order |
| AiChat.PercentagesAppend | aiChatMode.js:75 | one more exchange adds its percentage to the running score |
| AiChat.Transcript | aiChatMode.js:35-78 | one exchange per generated question |
| AiChat.Converse | aiChatMode.js:35-78 | the loop produces the transcript, and the score is the left-to-right sum of its percentages |
| AiChat.AIChatMode | aiChatMode.js:23-119 | a session: questions from the reply, the transcript, the score, the average `score / count`, and the closing verdict at 90, 75 and 60 |
| AiChat.NaNMeansKeepStudying | aiChatMode.js:80-115 | one unreadable percentage makes the average NaN, and the verdict is "Keep studying" |
| AiChat.EmptySessionKeepsStudying | aiChatMode.js:80-115 | no questions gives 0 / 0 = NaN and "Keep studying" |
| AiChat.AverageIsPercentage | aiChatMode.js:75-80 | readable percentages between 0 and 100 average to a value between 0 and 100 |
| AiChat.SumBounds | aiChatMode.js:75 | a sum of n percentages lies between 0 and 100n |
| Numbers.SumFinite | aiChatMode.js:75 | a sum is finite exactly when every term is finite |
| Numbers.Percentage | multipleChoice.js:88 | `part / whole * 100` is NaN exactly for `whole = 0`, and otherwise lies between 0 and 100, scaled from part/whole |
| Numbers.Mean | aiChatMode.js:80 | `total / count` is NaN exactly for a zero count or a NaN total, and otherwise multiplies back to the total |
| Numbers.MeanOfPercentages | aiChatMode.js:80 | a positive count and a total between 0 and 100 times the count give a mean between 0 and 100 |
| Numbers.TierOf | aiChatMode.js:87-115 | each verdict holds exactly on its interval at 90, 75 and 60; NaN falls to the last |
| Numbers.TierMonotone | statSheet.js:112-132 | a higher rate never gets a lower verdict |
| Numbers.BandOf | statSheet.js:168-180 | green from 80, yellow from 60, red below 60, and red for NaN |
| Numbers.ParseFloat | aiChatMode.js:172 | `parseFloat`: leading whitespace is skipped, then an optional sign, digits and an optional fraction are read and the rest ignored; NaN without a digit (ParseDigits to NotANumber state what it reads) |
| Numbers.ParseDigits | aiChatMode.js:172 | `parseFloat` reads digits followed by a non-numeral as the number they denote ("85%") |
| Numbers.ParseWholeNumber | aiChatMode.js:172 | a rendered whole number reads back as itself |
| Numbers.ParseDigitsWithFraction | aiChatMode.js:172 | "d.f" reads as the whole part plus the fraction |
| Numbers.ParseFraction | aiChatMode.js:172 | a rendered number with a fraction reads back as that value |
| Numbers.NotANumber | aiChatMode.js:172 | text that does not start like a numeral is NaN |
| Text.ToLower | gapTextMode.js:48 | lower-casing keeps the length and maps each ASCII letter |
| Text.LowerOfUpper | gapTextMode.js:48 | upper-casing never changes what a string lower-cases to |
| Text.LowerIdempotent | gapTextMode.js:48 | lower-casing twice is lower-casing once |
| Text.Trim | ManagmentMode.js:103 | the trim is the slice of the string between its leading and trailing whitespace |
| Text.BlankIffTrimEmpty | ManagmentMode.js:103 | `s.trim() !== ""` holds exactly when `s` has a non-whitespace character |
| Text.Split | aiChatMode.js:142 | the pieces are at least one, and none contains the separator |
| Text.JoinSplit | aiChatMode.js:142 | joining the pieces with the separator gives the string back |
| Text.ReplaceFirst | gapTextMode.js:44 | only the first occurrence is replaced; without one the text is unchanged |
| Text.PadEnd | statSheet.js:183-185 | padding keeps the text as a prefix and fills up to the width with spaces |
| Text.Take | statSheet.js:183 | `substring(0, n)` is the prefix of length min(n, length) |
| ProfileManager.CreateUser | profileManager.js:138 | a successful call appends the user with the next id and returns that id; a failure writes nothing |
| ProfileManager.FindByName | profileManager.js:48 | the first user whose name is exactly equal, or none |
| ProfileManager.FindById | statSheet.js:26 | a user with that id, or none when no user has it |
| ProfileManager.DefaultFindOrCreate | profileManager.js:47-55 | an existing "Default" is reused with no write; otherwise exactly that user is added; a second fallback then finds it |
| ProfileManager.DefaultIsNamedDefault | profileManager.js:47-55 | a successful fallback returns the id of a user named exactly "Default" in the table after it |
| ProfileManager.Judge | profileManager.js:86-134 | one typed name, checked in the source's order: "exit" in any case, then length 3 to 20, then letters and digits, then uniqueness up to case |
| ProfileManager.Register | profileManager.js:72-161 | the reference run of profile creation over the typed names: cancelled to "Default", registered through `createUser`, fallen back to "Default" when that fails, or still asking |
| ProfileManager.Decisive | profileManager.js:80-135 | the first typed name that leaves the loop ("exit", or an acceptable name), with none before it |
| ProfileManager.CreateNewProfile | profileManager.js:72-161 | the loop computes the reference `Register`: registered, cancelled to "Default", failed and fell back to "Default", or still asking |
| ProfileManager.RegisteredNameIsValid | profileManager.js:107-138 | a registered name was typed, has 3 to 20 ASCII letters and digits, is not "exit" in any case, clashes with no name in any case, and is appended with the next id |
| ProfileManager.RegistrationKeepsNamesUnique | profileManager.js:122-138 | registration keeps usernames unique up to letter case |
| ProfileManager.ExitCancels | profileManager.js:87-105 | "exit" in any case, before any acceptable name, cancels to the "Default" fallback |
| ProfileManager.FailedCreationFallsBack | profileManager.js:144-159 | when `createUser` fails nothing is registered; the loop ends in the "Default" fallback, whose id belongs to a user named "Default" |
| ProfileManager.DefaultLookupIsCaseSensitive | profileManager.js:124-126 | the uniqueness check here ignores case, but the fallback looks "Default" up exactly: next to a user "default" it creates "Default", and names are then no longer unique up to case |
| ProfileManager.ProfileOptions | profileManager.js:26-31 | "Create New Profile", then every username in order |
| ProfileManager.SelectUserProfile | profileManager.js:17-65 | the profile chosen is a function of the menu's answer: the ESC fallback, creation, or user i - 1 |
| ProfileManager.AfterMenu | profileManager.js:41-64 | what the profile menu's answer leads to: the "Default" fallback for -1, the creation loop's result for 0, user i - 1 for option i, and nothing while the menu or the creation loop has not settled |
| ProfileManager.EscapeUnreachable | profileManager.js:33-42 | the menu starts at 0, so the ESC branch is unreachable and every answer is an option's index |
| ProfileManager.ChosenUserMatchesOption | profileManager.js:63-64 | option i shows user i - 1's name and selects that user's id, with no write |
| Management.ModeOptions | ManagmentMode.js:41 | "Exit Management Mode", then the modes |
| Management.ModeActionOf | ManagmentMode.js:49-54 | -1 and 0 leave management mode; answer i manages mode i - 1 |
| Management.ModeMenuSelectsShownMode | ManagmentMode.js:43-55 | the mode menu answers in [-1, modes], and a mode chosen is the option shown |
| Management.TopicOptions | ManagmentMode.js:84-88 | the two navigation options, then the topics |
| Management.TopicActionOf | ManagmentMode.js:96-125 | -1 and 0 go back to the modes, 1 creates a topic, answer i manages topic i - 2 |
| Management.TopicMenuSelectsShownTopic | ManagmentMode.js:90-126 | the topic menu answers in range, and a topic chosen is the option shown |
| Management.ActionOf | ManagmentMode.js:161-194 | -1 and 0 go back, 1 to 4 are the actions, and other numbers match no case |
| Management.QuestionOptions | ManagmentMode.js:231-234 | "Go back", then each question's five fields joined by commas |
| Management.QuestionOf | ManagmentMode.js:245-250 | answers -1 and 0 go back; answer i edits question i - 1 |
| Management.NewTopicCall | ManagmentMode.js:102-113 | a name with a non-whitespace character saves the five-field placeholder under that name and mode; a blank name saves nothing |
| Management.NewTopicNeedsVisibleName | ManagmentMode.js:102-113 | a topic is created exactly for a name with a non-whitespace character, under that name and mode, with one five-field placeholder |
| Management.AddQuestionCall | ManagmentMode.js:379-401 | empty text or "cancel" in any case aborts; otherwise the single row `[question, correct, wrong1, wrong2, wrong3]` is saved under the topic and mode |
| Management.AddedQuestionPlaysCorrectly | ManagmentMode.js:392-401 | an added question plays in multiple choice with four options, its correct answer the one ticked |
| Management.SpacesAreAQuestionButNotATopic | ManagmentMode.js:383 | " " is accepted as question text but refused as a topic name |
| Management.TopicDeletionConfirmed | ManagmentMode.js:424 | only the exact answer "y" deletes a topic |
| Management.RenameOf | ManagmentMode.js:174-187 | a non-blank new name sends one `renameCategory` call; a blank one sends none |
| Management.TopicAfter | ManagmentMode.js:174-187 | the current topic becomes the new name only when the rename call succeeds |
| Management.ManageSession | ManagmentMode.js:141-196 | at most one topic is deleted per session |
| Management.ManageQuestions | ManagmentMode.js:141-196 | the action loop computes the reference `ManageSession` |
| Management.DeleteAlwaysReloads | ManagmentMode.js:190-192 | the delete action ends the session and reloads the topics whatever the answer; only exactly "y" deletes the current topic |
| Management.RenameThenDelete | ManagmentMode.js:174-192 | after a successful rename, the session works on, and deletes, the new name |
| Management.FailedRenameAndCapitalY | ManagmentMode.js:177-185 | a failed rename keeps the old name, and "Y" deletes nothing |
| Management.FailedRenamesKeepTopic | ManagmentMode.js:176-185 | when every rename fails, the session ends on the topic it started with |
| Management.EditRoundOf | ManagmentMode.js:303-359 | one round leaves the question's length alone and makes at most one database call |
| Management.EditSession | ManagmentMode.js:280-361 | the dialogue's rounds, in order; the question's length never changes |
| Management.EditRoundInPlace | ManagmentMode.js:303-359 | one round on the question array has the effect `EditRoundOf` describes |
| Management.DeleteRound | ManagmentMode.js:307-327 | on "y" in any case the text gets the "DELETED - " prefix and the call is recorded; the dialogue returns unless the call fails |
| Management.FieldRound | ManagmentMode.js:331-359 | a non-blank value is written and sent, and put back when the call fails |
| Management.EditSingleQuestion | ManagmentMode.js:280-361 | the dialogue loop takes the question and the call list to what `EditSession` describes |
| Management.FieldEditChangesOneField | ManagmentMode.js:345-352 | a saved edit changes only the chosen field and sends the old and new rows |
| Management.FailedOrBlankEditKeepsQuestion | ManagmentMode.js:345-357 | a failed edit is reverted; a blank value changes nothing and calls nothing |
| Management.DeletionMarksQuestion | ManagmentMode.js:312-321 | a confirmed deletion prefixes only the text, and returns exactly when the call succeeds |
| Management.RefusedDeletionKeepsQuestion | ManagmentMode.js:307-327 | any answer to the deletion question other than "y" in any case leaves the question unchanged, makes no `editQuestion` call and stays in the dialogue |
| Management.RefusedDeletionsKeepQuestion | ManagmentMode.js:280-327 | a dialogue of refused deletions only ends with the question unchanged, no call made and the dialogue still open |
| Management.FailedDeletionIsNotReverted | ManagmentMode.js:313-325 | a failed deletion stays marked, so a second one marks twice and sends a stale old row |
| Management.FailingEditsKeepQuestion | ManagmentMode.js:350-357 | field edits that all fail leave the question as it was |
| AiQuestionGenerator.Backoff | aiQuestionGenerator.js:33 | the wait after the k-th failure is 2^k seconds |
| AiQuestionGenerator.FirstSuccess | aiQuestionGenerator.js:26-31 | the first successful call among the first n, with every earlier call failed |
| AiQuestionGenerator.RetryAPIRequest | aiQuestionGenerator.js:24-40 | returns the first success within maxRetries calls, or rethrows the last error; waits `Backoff` between calls; with maxRetries <= 0 makes no call |
| AiQuestionGenerator.BackoffDoubles | aiQuestionGenerator.js:33 | the first wait is 2000 ms and each wait doubles the previous one |
| AiQuestionGenerator.RetryOutcomeMeaning | aiQuestionGenerator.js:24-40 | a value comes back exactly when some allowed call succeeded; an error thrown is the last call's |
| AiQuestionGenerator.AcceptReply | aiQuestionGenerator.js:124-147 | an array is the questions; an object with an array under "questions" gives that array; anything else, unparsable text included, is the one parse error |
| AiQuestionGenerator.AcceptReplyMeaning | aiQuestionGenerator.js:124-147 | accepted exactly for an array, or an object with an array under "questions"; every other reply fails with the same error |
| AiQuestionGenerator.Samples | aiQuestionGenerator.js:61-66 | the first min(5, n) existing questions |
| AiQuestionGenerator.ExistingTexts | aiQuestionGenerator.js:57 | the first field of every existing question, in order, and the empty string that `join` writes for a question without one |
| AiQuestionGenerator.SampleSection | aiQuestionGenerator.js:59-73 | the sample questions, each as question, correct answer and the three wrong answers, separated by blank lines |
| AiQuestionGenerator.AvoidList | aiQuestionGenerator.js:99-104 | the existing question texts joined by line breaks |
| AiQuestionGenerator.AvoidListNamesEveryQuestion | aiQuestionGenerator.js:99-104 | read line by line, the list to avoid is exactly the existing question texts |
| AiQuestionGenerator.SplitJoinLines | aiQuestionGenerator.js:100-102 | lines without line breaks, joined by "\n", split back into themselves |
| AiQuestionGenerator.GenerateQuestionsWithAI | aiQuestionGenerator.js:50-154 | generation is the accepted reply after retries, or the error thrown; one to three calls with back-off waits |
| AiQuestionGenerator.Edited | aiQuestionGenerator.js:187-198 | the edited copy replaces each of the five fields by a non-empty answer and keeps the rest |
| AiQuestionGenerator.Selection | aiQuestionGenerator.js:161-215 | never more rows are saved than were generated |
| AiQuestionGenerator.ReviewGeneratedQuestions | aiQuestionGenerator.js:161-215 | the review loop computes the reference `Selection` |
| AiQuestionGenerator.ReviewQuestion | aiQuestionGenerator.js:179-209 | "y" keeps the question; "edit" plus "y" keeps the edited copy; anything else discards it |
| AiQuestionGenerator.Reviewed | aiQuestionGenerator.js:179-209 | what one review answer keeps: the question for "y" in any case, the edited copy for "edit" confirmed by "y", nothing otherwise |
| AiQuestionGenerator.AcceptAllKeepsAll | aiQuestionGenerator.js:181-183 | "y" in any case to every question saves every question unchanged, in order |
| AiQuestionGenerator.RejectAllKeepsNone | aiQuestionGenerator.js:207-209 | answers other than "y" and "edit" save nothing |
| AiQuestionGenerator.EditFields | aiQuestionGenerator.js:190-198 | empty answers keep the question; a non-empty answer, even spaces, replaces its field |
| StatSheet.OverallViewOf | statSheet.js:98-101 | "no statistics" exactly when the record is missing or nothing was attempted |
| StatSheet.OverallAssessment | statSheet.js:101-135 | with attempts, exactly one assessment applies, by the rate against 90, 75 and 60 |
| StatSheet.CellShape | statSheet.js:183 | a cell is exactly `width` long: the first `keep` characters, then spaces |
| StatSheet.RateBand | statSheet.js:168-180 | green from 80, yellow from 60 up to 80, red below 60 |
| StatSheet.RowColumns | statSheet.js:182-187 | the name fills the first 20 columns with at most 18 characters, and the attempted count follows |
| StatSheet.AnalysisOf | statSheet.js:191-212 | the strongest/weakest analysis appears exactly for two or more topics |
| StatSheet.StrongestAndWeakest | statSheet.js:191-193 | with topics ordered by rate, the strongest has the highest rate and the weakest the lowest |
| StatSheet.SortByAttempted | statSheet.js:272-274 | the sorted copy is a permutation of the modes, ordered by attempted count, highest first |
| StatSheet.SortKeepsTies | statSheet.js:272-274 | the sort is stable: modes with the same attempted count keep their input order |
| StatSheet.FirstMostUsed | statSheet.js:272-274 | the earliest entry with the largest attempted count |
| StatSheet.SortedHeadIsFirstMostUsed | statSheet.js:272-274 | the head of the stable sort is the earliest most-used mode |
| StatSheet.InsightsOf | statSheet.js:269-288 | the insights appear exactly for two or more modes |
| StatSheet.MostUsedMode | statSheet.js:269-287 | the most-used mode is used most, ties going to the earliest; sorting a copy leaves the first entry as the best |
| StatSheet.Recent | statSheet.js:321 | the first min(10, n) sessions |
| StatSheet.SessionRow | statSheet.js:339-346 | a history row: topic and mode cut to 13 characters in 15 columns, then the attempted and correct counts in 10 columns each |
| StatSheet.DateText | statSheet.js:326-328 | the date as year, then month + 1 and day, each two digits wide |
| StatSheet.TotalAttempted | statSheet.js:356-359 | the sum of the attempted counts of all sessions |
| StatSheet.TotalCoversAll | statSheet.js:356-359 | the attempted total covers the listed sessions and the rest |
| StatSheet.EstimatedMinutes | statSheet.js:360 | `Math.round(t * 1.5)` lies within one half of 1.5t |
| StatSheet.HoursAndMinutes | statSheet.js:362-364 | 60 * hours + minutes is the estimate, with minutes below 60 |
| StatSheet.TwoDigitsReadBack | statSheet.js:326-328 | months and days are two digits wide and read back as their values |
| StatSheet.HistorySummary | statSheet.js:303-365 | at most ten rows, the first sessions; the combination count and the time estimate cover every session |
| StatSheet.PageOf | statSheet.js:65-78 | answers 1 to 4 show the overall, topic, mode and history pages |
| StatSheet.Pages | statSheet.js:40-79 | the reference run of the statistics menu: one page per visit that answers 1 to 4, until an answer of 0 or -1 or a visit whose keys end without an answer |
| StatSheet.ShowStatSheet | statSheet.js:18-87 | an unknown user gets nothing; otherwise the pages shown are those the menu visits select |
| StatSheet.StatMenuNeverCancels | statSheet.js:49-58 | the menu starts at 0, so -1 never comes back, and every answer is one of the five options |

## Left out

- Terminal I/O is not modelled. This covers `console.log`, `console.clear`,
  `styleText` colours, readline and raw mode. The model returns screens, bands
  and pages instead of printing them.
- `process.exit` on Ctrl-C is modelled as the `Exited` outcome.
- Waiting for more input is not modelled. When the keys or typed lines run out,
  the menu answers `Waiting` and a dialogue ends as still asking.
- Building the language-model requests is not modelled: model names, prompt
  wording, token limits and temperature. The replies are inputs. The avoid list
  and the sample questions that go into the generation request are modelled.
- `JSON.parse` is not modelled. The generation reply arrives already parsed,
  as an `Option<Json>`.
- The `setTimeout` waits between retries are not modelled. The waits are
  returned as delays.
- Floating point rounding is not modelled: `toFixed` in every table and
  message, and the binary representation of rates. Rates are exact reals.
- `parseFloat` is not modelled for exponents ("1e3") or "Infinity". The model
  stops before the exponent, and reads "Infinity" as NaN.
- `Date` parsing of `last_played` is not modelled. The year, month and day
  are inputs.
- `toLowerCase` is modelled for ASCII letters only.
- The "$" patterns of `String.prototype.replace` are not modelled.
- The database is not modelled. This covers `database.js`, its SQL, the
  `getStatistics` queries and the ordering they promise.
  - Users are a `Store` value.
  - Every other call is a success or failure flag, or a recorded call.
  - Topic deletion is recorded only as the deleted name. The calls to
    `getTopicByName`, `deleteQuestionByTopcID` and `deleteTopicByName` are
    not modelled. Their names differ from the methods `database.js` defines,
    and the model does not reconcile them.
- `LearningMode.js`, `main.js` and `testdata.js` are not part of this model.
  They hold the main menu, the mode dispatch and the static question data.
- GapText.GapTextMode does not model the missing `await`. The gap-text,
  flashcard and AI-chat modes call `prompt` without `await`. The model treats
  each such prompt as returning the typed line.
- The loops back into the menus are not modelled:
  - the outer `while (true)` loops of `selectMode` and `selectTopic`;
  - the topic reload after "DELETE";
  - the refresh of the question list in `editQuestions`.
  Each menu layer is modelled on its own.
- AiQuestionGenerator.ReviewGeneratedQuestions requires every generated row to
  have at least five fields, and every reply to give five edit answers. The
  source reads `q[0]`..`q[4]` and, for "edit", prompts five times.
- Management.EditSingleQuestion, the edit rounds and Management.QuestionOptions
  require every question to have at least five fields. This is the shape every
  stored question has.
- Shuffle.Shuffled takes a coin sequence. A draw beyond the end of the
  sequence counts as true, that is, as a push.
- ProfileManager.CreateNewProfile returns `StillAsking` when the typed names
  run out before one is accepted. The source would wait for more input.
