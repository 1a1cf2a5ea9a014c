# Flashcard console, modelled in Dafny

A model of the interactive flashcard console (`php artisan flashcard:interactive`):
- A user gives a name.
- A main menu then offers to create flashcards, list them, practise them, show statistics, reset one's own progress, delete a flashcard, or exit.
- Practising shows a progress table and asks for a card id and an answer. The answer is compared case-insensitively. The verdict is stored as the user's progress on that card: one record per (flashcard, username).

The project has these modules:

- `Ascii`: `strtolower` on ASCII text, and case-insensitive comparison.
- `EnumTrait`: `getLabel`, which title-cases an `UPPER_SNAKE` case name and replaces `_` with a space, and `toArray`, which builds the `value => label` table.
- `FlashcardStatus`, `MainMenu`: the two backed enums.
- `Models`: the `Flashcard` and `FlashcardProgress` rows, their relations, and `userStatus` along both of its paths (loaded relation or query).
- `Store`: the two tables, with the migration's unique index, foreign key, cascade and auto-increment ids as an invariant. Also the operations the console performs on them, as functions on a `Db` value and as methods of the `FlashcardStore` class that change its fields in place.
- `SessionSpec`: what every part of the command does, as functions of the database, the username and the remaining input lines. Each returns the database afterwards, the unread input, the messages written and how the run ended.
- `Session`: the command itself, the class `FlashcardInteractive`. It holds the store, the username, its input and its output. Every method, including the three loops (the main menu, practising and `askRequired`), is proved to do exactly what the matching `SessionSpec` function says.

Input is a sequence of lines: `Typed(text)` or `Enter` for an empty line. Output is a sequence of message values, not rendered text. When the input runs out at a question, the question helper falls back to the question's default, if it has one, and asks every later question without input. In `app/Console/Commands/FlashcardInteractive.php`, the main menu (line 58) then chooses Exit, the practice id prompt (line 138) gives 0 and leaves the loop, and the reset confirmation (line 256) declines. A question without a default, namely `askRequired`'s (line 292) and the delete prompt's (line 273), rethrows the missing-input exception and the console aborts; such a run ends with outcome `OutOfInput`. Evaluating an enum case the enum does not declare ends with `Crashed(name)`.

Two behaviours of the code shape the model:
- `app/Enums/MainMenu.php` declares no `DELETE_FLASHCARD` case, yet the switch at `app/Console/Commands/FlashcardInteractive.php:76` evaluates it, so every choice that gets that far fails (see Findings).
- `askRequired` (`app/Console/Commands/FlashcardInteractive.php:289-304`) writes an error and asks again on an empty or overlong answer; it never gives up while input remains.

## Model

| member | source | states |
|---|---|---|
| Ascii.Lower | app/Console/Commands/FlashcardInteractive.php:49 | strtolower keeps the length of its input |
| Ascii.LowerHasNoUpper | app/Console/Commands/FlashcardInteractive.php:48-49 | no upper-case letter is left in a lower-cased string |
| Ascii.LowerIdempotent | app/Console/Commands/FlashcardInteractive.php:48-49 | lower-casing a lower-cased name changes nothing |
| Ascii.LowerEqualIff | app/Console/Commands/FlashcardInteractive.php:162-163 | comparing lower-cased strings is exactly comparing them ignoring case, in both directions |
| EnumTrait.LabelIsTitleCaseThenReplace | app/Enums/Concerns/EnumTrait.php:13-16 | the per-character label equals title-casing the name, then replacing every `_` by a space |
| EnumTrait.Label | app/Enums/Concerns/EnumTrait.php:13-16 | getLabel: one character per character of the name, title-cased after every `_`, with `_` replaced by a space (stated by EnumTrait.LabelIsTitleCaseThenReplace) |
| EnumTrait.LabelHasNoUnderscore | app/Enums/Concerns/EnumTrait.php:15 | a label never contains `_` |
| EnumTrait.LabelJoin | app/Enums/Concerns/EnumTrait.php:15 | the label of `A_B` is the label of A, a space, and the label of B |
| EnumTrait.TestValueLabel | tests/Unit/Enums/Concerns/EnumTraitTest.php:10-13 | TEST_VALUE_1 is labelled "Test Value 1" |
| EnumTrait.Table | app/Enums/Concerns/EnumTrait.php:21-30 | the table has one entry per case, in declaration order, holding the case's value and label |
| EnumTrait.LabelFor | app/Enums/Concerns/EnumTrait.php:26 | a key has a label exactly when some entry is filed under it, and the label found is that entry's |
| EnumTrait.TableKeys | app/Enums/Concerns/EnumTrait.php:21-30 | with distinct case values, the table's keys are distinct and are exactly the case values |
| EnumTrait.LabelForCase | app/Enums/Concerns/EnumTrait.php:26 | looking up a case's value in its enum's table gives that case's label |
| EnumTrait.ToArray | app/Enums/Concerns/EnumTrait.php:21-30 | the loop builds the table of the given cases, and its keys are distinct |
| FlashcardStatus.From | app/Models/FlashcardProgress.php:30-32 | the cast from the stored integer gives a status exactly for 0, 1 and 2, and that status has the stored value |
| FlashcardStatus.ValueRoundTrip | app/Enums/FlashcardStatus.php:7-16 | storing a status and casting it back gives the same status; the three values are distinct |
| FlashcardStatus.CasesDeclareEveryStatus | app/Enums/FlashcardStatus.php:11-15 | there are exactly three cases, with distinct values, and every status is one of them |
| FlashcardStatus.Labels | app/Enums/FlashcardStatus.php:11-15 | the labels are "Not Answered", "Correct" and "Incorrect", and they are all different |
| MainMenu.CaseLabels | app/Enums/MainMenu.php:11-21 | the labels of the seven case names are "Create Flashcard", "List All Flashcards", "Practice", "Stats", "Reset", "Delete Flashcard" and "Exit" |
| MainMenu.DeclaredValues | app/Enums/MainMenu.php:7-23 | the declared cases have the values 1 to 6 in order; both case lists have distinct values |
| MainMenu.DefaultIsExit | app/Console/Commands/FlashcardInteractive.php:58 | the default choice 6 is labelled "Exit" in the declared menu and in the completed one |
| MainMenu.ToArrayAsWritten | app/Enums/Concerns/EnumTrait.php:25 | toArray as written returns MainMenu's table whatever enum calls it |
| MainMenu.ToArrayAsWrittenMisses | tests/Unit/Enums/Concerns/EnumTraitTest.php:15-22 | the table toArray as written returns differs from the one the three-case test enum expects |
| Models.FindCard | app/Console/Commands/FlashcardInteractive.php:144 | find returns a card of the table with that id, and returns nothing exactly when no card has the id |
| Models.FindCardIsUnique | app/Console/Commands/FlashcardInteractive.php:275 | with distinct ids, find returns the very card that has the id |
| Models.ProgressOf | app/Models/Flashcard.php:27-30 | a card's progress relation holds exactly the records with its id |
| Models.RelationsAreInverse | app/Models/FlashcardProgress.php:37-40 | a record is in a card's progress exactly when its flashcard relation is that card |
| Models.NameMatches | app/Models/Flashcard.php:41 | a record's username matches exactly, or, for the loaded relation's loose `==`, when both are digit strings of the same number no greater than PHP_INT_MAX; above it PHP 8 compares the two strings as text |
| Models.OverflowComparesAsText | app/Models/Flashcard.php:41 | user "9999999999999999999" does not read the Correct record of user "09999999999999999999" through the loaded relation, although both strings denote the same number: both overflow PHP_INT_MAX, so the loose `==` compares them as text |
| Models.FirstWhere | app/Models/Flashcard.php:38-41 | firstWhere returns the first record of the relation, in relation order, whose username matches, and returns nothing exactly when none matches |
| Models.StatusIn | app/Models/Flashcard.php:37-43 | the status read through a relation is that of the first matching record in relation order, and NOT_ANSWERED when none matches |
| Models.LooseIsStrictForNames | app/Models/Flashcard.php:38-41 | for a username that is not a digit string, the loose and the exact comparison find the same record |
| Models.FirstIndex | app/Models/Flashcard.php:39-41 | the query returns the first record for the (card, user) pair, and returns nothing exactly when there is no record for it |
| Models.UserStatus | app/Models/Flashcard.php:39-43 | the query path: the status of the first record for the (card, user) pair, compared exactly, or NOT_ANSWERED (stated by Store.UserStatusOfRecord and Store.StatusIsRecorded) |
| Models.PathsAgree | app/Models/Flashcard.php:35-44 | with the exact comparison, userStatus is the same whether the relation was loaded first or queried; with the source's loose one, it is for every username that is not a digit string |
| Models.LoadedPathDiffers | app/Models/Flashcard.php:37-41 | with only user "01"'s Correct record on a card, user "1" reads Correct through the loaded relation but NOT_ANSWERED through the query |
| Models.NoRecordIsNotAnswered | app/Models/Flashcard.php:43 | a user with no record on a card has status NOT_ANSWERED |
| Store.UserStatusOfRecord | database/migrations/2023_06_16_132239_create_flashcard_progress_table.php:24 | with the unique index, a record's status is the user's status on its card |
| Store.Inv | database/migrations/2023_06_16_132239_create_flashcard_progress_table.php:17-24 | ids are positive, increasing and below the next id; at most one record per (flashcard_id, username); every record names an existing card |
| Store.StatusIsRecorded | app/Models/Flashcard.php:35-44 | a user's status on a card is Correct or Incorrect exactly when the matching record exists |
| Store.Upsert | app/Console/Commands/FlashcardInteractive.php:166-169 | updateOrCreate stores the pair's record with the new status, changes no other record, adds a row only when the pair had none, and keeps the unique index |
| Store.UpsertTwice | app/Console/Commands/FlashcardInteractive.php:166-169 | two upserts of one pair leave what the second alone would |
| Store.UpsertStatus | app/Console/Commands/FlashcardInteractive.php:166-169 | after an upsert the pair's status is the new one, and every other pair's status is unchanged |
| Store.CreateCard | app/Console/Commands/FlashcardInteractive.php:92-95 | create keeps the invariant, files the new card under the next id and keeps every old card and record |
| Store.UpsertProgress | app/Console/Commands/FlashcardInteractive.php:166-169 | the progress write keeps the invariant and the cards, and sets the user's status |
| Store.DeleteCard | database/migrations/2023_06_16_132239_create_flashcard_progress_table.php:17-19 | delete removes exactly the card with the id and, by the cascade, exactly its records; it keeps the invariant |
| Store.DeleteCascades | app/Console/Commands/FlashcardInteractive.php:283 | after the delete no card has the id, and every user's status on it is NOT_ANSWERED |
| Store.ResetUser | app/Console/Commands/FlashcardInteractive.php:257 | whereUsername(u)->delete() removes exactly u's records and keeps the invariant |
| Store.ResetStatus | app/Console/Commands/FlashcardInteractive.php:254-261 | after a reset the user has answered nothing, and every other user's status is unchanged |
| Store.FlashcardStore.constructor | database/migrations/2023_06_16_132239_create_flashcard_progress_table.php:15-25 | the empty tables satisfy the invariant and the first id is 1 |
| Store.FlashcardStore.Create | app/Console/Commands/FlashcardInteractive.php:92-95 | the tables become CreateCard of the old ones; the new card's id is the next id and is not 0 |
| Store.FlashcardStore.UpdateOrCreate | app/Console/Commands/FlashcardInteractive.php:166-169 | the tables become UpsertProgress of the old ones, with the invariant kept |
| Store.FlashcardStore.Delete | app/Console/Commands/FlashcardInteractive.php:283 | the tables become DeleteCard of the old ones, with the invariant kept |
| Store.FlashcardStore.DeleteWhereUsername | app/Console/Commands/FlashcardInteractive.php:257 | the tables become ResetUser of the old ones, with the invariant kept |
| SessionSpec.AskRequired | app/Console/Commands/FlashcardInteractive.php:289-304 | an answer is non-empty, at most 255 characters long, and consumes input; without one, all input is consumed |
| SessionSpec.AskRequiredReturnsFirstValid | app/Console/Commands/FlashcardInteractive.php:289-304 | the answer is the first acceptable line as the question helper returns it, after one error per rejected line; there is none only when no line is acceptable |
| SessionSpec.AskRequiredReports | app/Console/Commands/FlashcardInteractive.php:294-298 | askRequired writes only its empty-field and too-long errors |
| SessionSpec.AskRequiredAcceptsFirst | app/Console/Commands/FlashcardInteractive.php:298-299 | an acceptable first line is the answer, with no error written |
| SessionSpec.UsernameIsNormalised | app/Console/Commands/FlashcardInteractive.php:46-50 | the username is the lower-case form of the name typed, and is its own lower-case form |
| SessionSpec.UsernameCaseInsensitive | app/Console/Commands/FlashcardInteractive.php:48-49 | names that differ only in case give the same username |
| SessionSpec.AskUsername | app/Console/Commands/FlashcardInteractive.php:46-50 | askRequired, then strtolower of the name (stated by SessionSpec.UsernameIsNormalised) |
| SessionSpec.IdOf | app/Console/Commands/FlashcardInteractive.php:138-144 | an empty line gives the prompt's default, a digit string its number, and other text no id |
| SessionSpec.Confirmed | app/Console/Commands/FlashcardInteractive.php:256 | confirm is yes exactly when the answer starts with y or Y; an empty line is no |
| SessionSpec.Switch | app/Console/Commands/FlashcardInteractive.php:60-83 | arms are tried in order: the first arm naming an undeclared case ends the switch with that case's name, otherwise the first arm labelled as the choice is taken, and none reaches the error arm (stated by SwitchFinds, SwitchStops and SwitchFallsThrough) |
| SessionSpec.SwitchFinds | app/Console/Commands/FlashcardInteractive.php:60-83 | when the arms before the k-th are declared and labelled otherwise, and the k-th is declared and labelled as the choice, the switch takes the k-th arm |
| SessionSpec.SwitchStops | app/Console/Commands/FlashcardInteractive.php:60-83 | when the arms before the k-th are declared and labelled otherwise and the k-th names an undeclared case, the switch fails on that case |
| SessionSpec.SwitchFallsThrough | app/Console/Commands/FlashcardInteractive.php:81-82 | when every arm is declared and none is labelled as the choice, the default arm is reached |
| SessionSpec.ArmLabelsDiffer | app/Console/Commands/FlashcardInteractive.php:61-79 | the seven arms' labels are pairwise different |
| SessionSpec.Choice | app/Console/Commands/FlashcardInteractive.php:58 | an accepted choice is one of the table's labels, and a typed label is taken as it is |
| SessionSpec.CompletedMenuDispatch | app/Console/Commands/FlashcardInteractive.php:60-83 | with the completed enum, each arm's label selects that arm, and any other text reaches the error arm |
| SessionSpec.DeclaredMenuDispatch | app/Console/Commands/FlashcardInteractive.php:60-83 | with the enum as declared, the first five labels select their arms, and every other choice fails on DELETE_FLASHCARD |
| SessionSpec.CompletedChoiceDispatches | app/Console/Commands/FlashcardInteractive.php:58-83 | every choice the completed menu accepts reaches its own arm, never the error arm |
| SessionSpec.MenuDefaultIsExit | app/Console/Commands/FlashcardInteractive.php:58 | an empty line at the menu chooses "Exit" |
| SessionSpec.DeclaredExitByKey | app/Console/Commands/FlashcardInteractive.php:58 | typing 6 chooses "Exit" |
| SessionSpec.DeclaredExitByLabel | app/Console/Commands/FlashcardInteractive.php:58 | typing "Exit" chooses "Exit" |
| SessionSpec.DeclaredExitFails | app/Console/Commands/FlashcardInteractive.php:76-80 | with the enum as declared, the choice "Exit" fails on DELETE_FLASHCARD before the exit arm is reached |
| SessionSpec.CountsAgree | app/Console/Commands/FlashcardInteractive.php:195-200 | counting cards that have a matching record equals counting cards by their userStatus |
| SessionSpec.CorrectAmongAnswered | app/Console/Commands/FlashcardInteractive.php:218-230 | no more cards are answered correctly than are answered |
| SessionSpec.PercentageRounds | app/Console/Commands/FlashcardInteractive.php:309-313 | getPercentage is 0 when first is 0, and otherwise first/second as a percentage, rounded half up to the nearest hundredth |
| SessionSpec.PercentageBounds | app/Console/Commands/FlashcardInteractive.php:309-313 | a share is at most 100%, never shrinks as first grows, and is exactly 100% for all of it |
| SessionSpec.PercentageExamples | app/Console/Commands/FlashcardInteractive.php:309-313 | 0 of 0 gives 0, 1 of 4 gives 25%, 2 of 4 gives 50%, 1 of 3 gives 33.33% and 2 of 3 gives 66.67% |
| SessionSpec.Percentage | app/Console/Commands/FlashcardInteractive.php:309-313 | getPercentage in hundredths of a percent (stated by SessionSpec.PercentageRounds and SessionSpec.PercentageBounds) |
| SessionSpec.ListView | app/Console/Commands/FlashcardInteractive.php:103-120 | the list of (question, answer) or the no-flashcards message (stated by SessionSpec.ListViewShowsCards) |
| SessionSpec.ListViewShowsCards | app/Console/Commands/FlashcardInteractive.php:103-120 | the no-flashcards message exactly for an empty deck; otherwise one (question, answer) row per card, in order |
| SessionSpec.ProgressView | app/Console/Commands/FlashcardInteractive.php:182-209 | the progress rows read through the loaded relations and the correct share from the query (stated by SessionSpec.ProgressViewAgrees) |
| SessionSpec.StatsView | app/Console/Commands/FlashcardInteractive.php:214-249 | the card count and the answered and correct shares (stated by SessionSpec.StatsConsistent and SessionSpec.StatsExample) |
| SessionSpec.DeletionView | app/Console/Commands/FlashcardInteractive.php:267-271 | the delete prompt's table as written: the card ids alone, in order |
| SessionSpec.DeletionChoices | app/Console/Commands/FlashcardInteractive.php:267-271 | the table as intended: each card's id beside its question |
| SessionSpec.DeletionChoicesOfferCards | app/Console/Commands/FlashcardInteractive.php:267-275 | every card is offered with its question, every row names the card with that id, and the ids are those the table as written shows, in order |
| SessionSpec.DeletionViewOmitsQuestions | app/Console/Commands/FlashcardInteractive.php:269 | for a deck with the card "2+2?", the table as written shows only the id 1, while the intended one shows (1, "2+2?") |
| SessionSpec.ProgressViewAgrees | app/Console/Commands/FlashcardInteractive.php:182-209 | the progress table has one row per card, holding its id, its question and, for a username that is not a digit string, its userStatus; and the correct share counts the cards userStatus calls correct |
| SessionSpec.ProgressViewMisreads | app/Console/Commands/FlashcardInteractive.php:188-200 | with only user "01"'s Correct record, user "1" sees the card as Correct while the correct share is 0 and userStatus by query is NOT_ANSWERED |
| SessionSpec.StatsConsistent | app/Console/Commands/FlashcardInteractive.php:214-249 | the stats show the card count, the correct share is at most the answered share, both are at most 100%, and both are 0 without cards |
| SessionSpec.StatsExample | tests/Feature/Console/Commands/FlashcardInteractiveTest.php:240-274 | four cards, one answered correctly and one incorrectly by the user and one only by another user: 4 questions, 50% answered, 25% correct |
| SessionSpec.RightAnswerIgnoresCase | app/Console/Commands/FlashcardInteractive.php:162-163 | an answer is right exactly when it equals the card's answer ignoring case |
| SessionSpec.PracticeTurnWrites | app/Console/Commands/FlashcardInteractive.php:138-175 | a practice pass writes only not-found, already-correct, prompt-error and verdict messages |
| SessionSpec.PracticeTurn | app/Console/Commands/FlashcardInteractive.php:138-175 | one pass (stated by SessionSpec.PracticeAnswers, PracticeUnknownId, PracticeAlreadyCorrect, PracticeLeaves and PracticeTurnWrites) |
| SessionSpec.PracticeLoop | app/Console/Commands/FlashcardInteractive.php:133-177 | the progress table before every pass; at the end of input the id question's default 0 leaves the loop (stated by PracticeLoopEnds, PracticeLoopConsumes and PracticeLoopEffects) |
| SessionSpec.PracticeLoopEnds | app/Console/Commands/FlashcardInteractive.php:138-142 | at the end of input the loop shows the table and is left normally, exactly as on an empty line |
| SessionSpec.Practice | app/Console/Commands/FlashcardInteractive.php:125-177 | practiceFlashcards (stated by SessionSpec.PracticeWithoutCards and SessionSpec.PracticeConsumes) |
| SessionSpec.PracticeWithoutCards | app/Console/Commands/FlashcardInteractive.php:127-131 | with no cards, practising writes only its message and returns to the menu without asking for an id or reading input |
| SessionSpec.PracticeUnknownId | app/Console/Commands/FlashcardInteractive.php:144-149 | an id no card has, or text that is not a number, reports not found and leaves the store as it was |
| SessionSpec.PracticeAlreadyCorrect | app/Console/Commands/FlashcardInteractive.php:152-157 | a card the user has answered correctly is not asked again; the store stays as it was |
| SessionSpec.PracticeAnswers | app/Console/Commands/FlashcardInteractive.php:138-175 | an existing id, for a card not yet answered correctly, and an acceptable answer store the verdict for (card, user) and report it |
| SessionSpec.PracticeLeaves | app/Console/Commands/FlashcardInteractive.php:138-142 | 0 or an empty line leaves the loop at once, after the table |
| SessionSpec.PracticeRetry | app/Console/Commands/FlashcardInteractive.php:152-169 | a wrong answer, then the right one for the same card: the retry is allowed and the record ends Correct |
| SessionSpec.PracticeLoopEffects | app/Console/Commands/FlashcardInteractive.php:133-177 | practising keeps the cards and the invariant, changes no other user's status, and keeps a Correct status Correct |
| SessionSpec.PracticeLoopKeepsOthers | app/Console/Commands/FlashcardInteractive.php:166-169 | practising neither creates nor changes another user's record |
| SessionSpec.PracticeLoopConsumes | app/Console/Commands/FlashcardInteractive.php:133-177 | the practice loop only consumes input, and ends normally or for lack of input |
| SessionSpec.PracticeLoopQuiet | app/Console/Commands/FlashcardInteractive.php:133-177 | the practice loop never writes the menu's invalid-choice error |
| SessionSpec.PracticeConsumes | app/Console/Commands/FlashcardInteractive.php:125-177 | practiceFlashcards consumes input only, never fails, and never writes the invalid-choice error |
| SessionSpec.Step | app/Console/Commands/FlashcardInteractive.php:61-80 | every command a menu arm runs consumes input only, never fails, and never writes the invalid-choice error |
| SessionSpec.CreateStep | app/Console/Commands/FlashcardInteractive.php:90-98 | createFlashcard (stated by SessionSpec.CreateStepAdds) |
| SessionSpec.ResetStep | app/Console/Commands/FlashcardInteractive.php:254-261 | resetProgress; at the end of input the confirmation's default, no (stated by ResetStepEffect and ResetStepAtEnd) |
| SessionSpec.DeleteStep | app/Console/Commands/FlashcardInteractive.php:263-284 | deleteFlashcard (stated by SessionSpec.DeleteStepEffect) |
| SessionSpec.CreateStepAdds | app/Console/Commands/FlashcardInteractive.php:90-98 | creation succeeds exactly when both answers are given; the new card holds them under the next id and the progress is unchanged |
| SessionSpec.DeleteStepEffect | app/Console/Commands/FlashcardInteractive.php:263-284 | an existing id deletes that card and its progress; any other id writes the error and changes nothing |
| SessionSpec.ResetStepEffect | app/Console/Commands/FlashcardInteractive.php:254-261 | when confirmed, the user has answered nothing and the reset is reported; other users are unchanged; when declined, nothing changes |
| SessionSpec.ResetStepAtEnd | app/Console/Commands/FlashcardInteractive.php:256 | at the end of input the reset is declined and nothing changes, exactly as on an empty line |
| SessionSpec.MenuPass | app/Console/Commands/FlashcardInteractive.php:58-83 | one menu pass; a pass that goes on reads input (stated by MenuRejectsChoice, MenuDefaultArm, MenuRunsAction, MenuExits and MenuFails) |
| SessionSpec.MenuLoop | app/Console/Commands/FlashcardInteractive.php:55-85 | displayMainMenu; at the end of input the default choice (stated by MenuNeverFails, MenuEffects, CompletedMenuAtEnd and DeclaredMenuAtEnd) |
| SessionSpec.MenuAtEnd | app/Console/Commands/FlashcardInteractive.php:58 | the menu question at the end of input: the store, no input and no output, with the outcome of the default's arm |
| SessionSpec.MenuAtEndDispatches | app/Console/Commands/FlashcardInteractive.php:58-83 | at the end of input, a default that selects Exit ends the menu normally, and one that reaches an undeclared case fails on it |
| SessionSpec.Command | app/Console/Commands/FlashcardInteractive.php:36-41 | handle: the username, then the main menu |
| SessionSpec.MenuRejectsChoice | app/Console/Commands/FlashcardInteractive.php:58 | a choice the question rejects writes the error and shows the menu again, with the store as it was |
| SessionSpec.MenuRejectsUnknownText | app/Console/Commands/FlashcardInteractive.php:58 | "nope" at the completed menu is rejected, and the store stays as it was |
| SessionSpec.MenuDefaultArm | app/Console/Commands/FlashcardInteractive.php:81-82 | a label no arm handles writes the invalid-choice error and shows the menu again, with the store as it was |
| SessionSpec.MenuRunsAction | app/Console/Commands/FlashcardInteractive.php:60-78 | any arm other than Exit runs its command once and, when the command ends normally, the menu comes back |
| SessionSpec.MenuPassNeverFails | app/Console/Commands/FlashcardInteractive.php:58-83 | a pass of a menu that dispatches every accepted choice neither fails nor writes the invalid-choice error |
| SessionSpec.MenuNeverFails | app/Console/Commands/FlashcardInteractive.php:55-85 | such a menu never fails on an enum case and never writes the invalid-choice error |
| SessionSpec.CompletedMenuNeverFails | app/Console/Commands/FlashcardInteractive.php:55-85 | the menu of the completed enum never fails and never writes the invalid-choice error |
| SessionSpec.StepEffects | app/Console/Commands/FlashcardInteractive.php:61-78 | every command keeps the invariant and never adds or changes another user's record |
| SessionSpec.MenuPassEffects | app/Console/Commands/FlashcardInteractive.php:57-84 | a menu pass keeps the invariant and never adds or changes another user's record |
| SessionSpec.MenuEffects | app/Console/Commands/FlashcardInteractive.php:55-85 | the whole menu keeps the invariant and never adds or changes another user's record |
| SessionSpec.MenuExits | app/Console/Commands/FlashcardInteractive.php:79-80 | a choice that selects the Exit arm ends the menu with the store as it was |
| SessionSpec.MenuFails | app/Console/Commands/FlashcardInteractive.php:60-83 | a choice that reaches an undeclared case ends the command with that error |
| SessionSpec.CompletedMenuExits | app/Console/Commands/FlashcardInteractive.php:58-80 | with the completed enum, an empty line exits and leaves the store as it was |
| SessionSpec.CompletedMenuAtEnd | app/Console/Commands/FlashcardInteractive.php:58-80 | with the completed enum, the end of input exits normally and leaves the store as it was, like an empty line |
| SessionSpec.ExitDispatch | app/Console/Commands/FlashcardInteractive.php:79-80 | with the completed enum, "Exit" selects the Exit arm |
| SessionSpec.DeclaredMenuFailsOnExit | app/Console/Commands/FlashcardInteractive.php:76 | with the enum as declared, an empty line, which means Exit, fails on DELETE_FLASHCARD |
| SessionSpec.DeclaredMenuAtEnd | app/Console/Commands/FlashcardInteractive.php:58-76 | with the enum as declared, the end of input chooses Exit and fails on DELETE_FLASHCARD, like an empty line |
| Session.FlashcardInteractive.constructor | app/Console/Commands/FlashcardInteractive.php:12-31 | the command starts valid, with the given store, enum and input, and an empty output |
| Session.FlashcardInteractive.AskRequired | app/Console/Commands/FlashcardInteractive.php:289-304 | the loop returns AskRequired's answer, consumes its input and writes its errors |
| Session.FlashcardInteractive.AskUsername | app/Console/Commands/FlashcardInteractive.php:46-50 | the username becomes the lower-cased name, and is unchanged when no name comes |
| Session.FlashcardInteractive.CreateFlashcard | app/Console/Commands/FlashcardInteractive.php:90-98 | the store, input and output become those of CreateStep |
| Session.FlashcardInteractive.ListFlashcards | app/Console/Commands/FlashcardInteractive.php:103-120 | writes the list of (question, answer), or the no-flashcards message |
| Session.FlashcardInteractive.DisplayProgress | app/Console/Commands/FlashcardInteractive.php:182-209 | writes the progress table of the current store and user |
| Session.FlashcardInteractive.PracticePass | app/Console/Commands/FlashcardInteractive.php:138-175 | one pass changes the store, input and output as PracticeTurn says, and stops exactly on leaving or giving up |
| Session.FlashcardInteractive.PracticeStep | app/Console/Commands/FlashcardInteractive.php:134-175 | the table and one pass write a prefix of PracticeLoop's output, and the rest of the loop runs from the new state |
| Session.FlashcardInteractive.PracticeUntilLeft | app/Console/Commands/FlashcardInteractive.php:133-176 | the loop leaves the store, input and output that PracticeLoop gives |
| Session.FlashcardInteractive.PracticeFlashcards | app/Console/Commands/FlashcardInteractive.php:125-177 | the store, input and output become those of Practice |
| Session.FlashcardInteractive.DisplayStats | app/Console/Commands/FlashcardInteractive.php:214-249 | writes the stats of the current store and user |
| Session.FlashcardInteractive.ResetProgress | app/Console/Commands/FlashcardInteractive.php:254-261 | the store, input and output become those of ResetStep |
| Session.FlashcardInteractive.DeleteFlashcard | app/Console/Commands/FlashcardInteractive.php:263-284 | the store, input and output become those of DeleteStep |
| Session.FlashcardInteractive.Perform | app/Console/Commands/FlashcardInteractive.php:61-80 | each arm's command changes the state as Step says |
| Session.FlashcardInteractive.MenuOnce | app/Console/Commands/FlashcardInteractive.php:58-83 | one menu pass changes the state as MenuPass says, and stops exactly when the pass ends the menu |
| Session.FlashcardInteractive.MenuStep | app/Console/Commands/FlashcardInteractive.php:57-84 | a pass writes a prefix of MenuLoop's output, or ends the menu with MenuLoop's result |
| Session.FlashcardInteractive.DisplayMainMenu | app/Console/Commands/FlashcardInteractive.php:55-85 | the loop leaves the store, input and output that MenuLoop gives |
| Session.FlashcardInteractive.Handle | app/Console/Commands/FlashcardInteractive.php:36-41 | the command leaves the store, input and output that Command gives |

## Left out

- Rendering: tables, colours and the exact text of messages. Output is a sequence of message values. A progress row carries the user's `Status`, which the console shows as `FlashcardStatus.Label`.
- The blank lines the command writes (`line('')` and `info('')`), because they carry no information.
- SessionSpec.Percentage: PHP computes a float and rounds it with `round(..., 2)`. The model gives exact hundredths of a percent, rounded half up, and so does not reproduce binary floating-point error.
- Strings are sequences of characters, and `strtolower` is modelled on ASCII letters only. `strlen` counts bytes, while the model counts characters, so a multi-byte answer of at most 255 characters but more than 255 bytes is accepted by the model and rejected by the source.
- PHP's loose comparison: the id prompt (`$flashcardId == 0`, `Flashcard::find`) is modelled for an empty line and for strings of digits only. Any other text is taken to name no card and to differ from 0, so it is reported as not found. This matches PHP 8's `==` for non-numeric strings; text that PHP 8 reads as a number is not modelled: `1x` and `1e0` are not taken as 1, and `0.0`, `-0` and `0e1`, which equal 0 and leave the practice loop in PHP, are reported as not found.
- Database collation: usernames are compared as exact strings. The console lower-cases them before every use.
- SessionSpec.IdOf: reads only digit strings as numbers, as the line above describes, so a practice or delete id written with a sign, a decimal point or an exponent is not modelled.
- Models.FirstWhere: the loose comparison of the loaded relation is modelled for digit strings only (as integers up to PHP_INT_MAX of a 64-bit build, as text above it); usernames such as `1e2` and `100`, `1.0` and `1`, or `+1` and `1`, which PHP 8 also takes as equal numbers, are compared exactly.
- Models.PathsAgree: promises equal paths under the loose comparison only for usernames that are not digit strings; Models.LoadedPathDiffers shows why.
- Session.FlashcardInteractive.DisplayProgress: writes the table of SessionSpec.ProgressView, whose rows read the loaded relation loosely, as far as Models.FirstWhere models that comparison.
- `Typed(text)` is the line after the question helper's trim of surrounding white space; the trim itself is not modelled.
- Timestamps, factories and the primary key of the progress table, which no behaviour of the console depends on.
- Symfony's question helper is modelled only as far as the console uses it: an empty line gives the default; `confirm` accepts an answer that starts with `y` or `Y`; `choice` accepts a label or a canonical integer key and otherwise asks again. The helper also rejects an answer equal to two labels as ambiguous; the menu's labels are all different (SessionSpec.ArmLabelsDiffer), so this never arises.
- `MissingInputException`, raised when the input ends at a question without a default, is modelled as the outcome `OutOfInput`, with no text.
- SessionSpec.MenuAtEnd: a menu whose default choice selects a command other than Exit would run that command without input; this is not modelled, and the run ends with `OutOfInput`. Both menus of the model default to Exit.
- An undefined enum constant is modelled as the outcome `Crashed` with the case's name. PHP raises an `Error` there.

## Findings

| source | as written | input that shows it | evidently intended | confidence | as-written member | corrected member |
|---|---|---|---|---|---|---|
| app/Enums/Concerns/EnumTrait.php:25 | `toArray` iterates `MainMenu::cases()` whatever enum uses the trait | `TestEnum::toArray()` for the three-case test enum returns MainMenu's six entries instead of `[1 => 'Test Value 1', 2 => 'Test Value 2', 3 => 'Test Value 3']` | iterate `static::cases()`, the calling enum's own cases | high (not executed) | MainMenu.ToArrayAsWrittenMisses | EnumTrait.ToArray |
| app/Console/Commands/FlashcardInteractive.php:76 | the switch evaluates `MainMenu::DELETE_FLASHCARD`, which the enum does not declare | at the main menu, an empty line or the end of input (the default, Exit), or any choice other than the first five labels | the enum declares `DELETE_FLASHCARD`; the model gives it the unused value 7 and places it before EXIT, so that the delete arm is reachable and Exit ends the menu | high (not executed) | SessionSpec.DeclaredMenuFailsOnExit | SessionSpec.CompletedMenuNeverFails |
| app/Models/Flashcard.php:38-41 | on the loaded relation, `firstWhere('username', $username)` compares with PHP's loose `==`, so numeric usernames that denote the same number match, while the query path compares exactly | user "1" practising a card on which only user "01" has a Correct record: the progress table shows Correct, yet the correct share counts nothing and practising asks for an answer | compare usernames exactly on both paths, e.g. `firstWhere('username', '===', $username)` | high (not executed) | Models.LoadedPathDiffers | Models.PathsAgree |
| app/Console/Commands/FlashcardInteractive.php:269 | `Flashcard::get('id', 'question')` passes `'question'` as a second argument that `get` ignores, so only the ids are selected and the Question column is empty | any deck, e.g. the single card "2+2?" with id 1: the table shows 1 and no question | `Flashcard::get(['id', 'question'])` | high (not executed) | SessionSpec.DeletionViewOmitsQuestions | SessionSpec.DeletionChoicesOfferCards |
