# Quiz front end: list and record logic

A model of the deterministic logic inside the React pages of a quiz application. The
host edits games and questions, starts sessions and reads session results. A player
answers questions and sees their own results. The network calls (`fetch`), browser storage
(`localStorage`), navigation and timers are cut away. Each handler becomes an operation on
plain data: the fetched value is an input, and the list the page would PUT, the new page
state or the rendered rows are the output.

The modules follow the pages:

- `Wrappers`: `Option` and `Result`.
- `Text`: the JavaScript string built-ins the pages use: `trim`, `includes`, `indexOf`,
  `split`, `join`, and the decimal text of a number.
- `Catalog`: the stored records (games, questions, options). A JSON field that may not be an
  array is written `Listish` (`Items(seq)` or `NotArray`). A falsy number or string is an
  `Option` read through `NumOr` and `StrOr`, which stand for `||`. It also holds the total
  time sum and the `findIndex` by id.
- `EditQuestion`: save-time validation and its error order, defaults filled in on save,
  append or replace by index, the option handlers, the type switch and the YouTube URL
  rewriting.
- `PlayGame`: answer selection per question type and the guard that blocks it, the answer
  payload, the countdown, the bounded retry of the question fetch, the reveal, and the
  selection reset when the position changes. The last position seen is a `PositionRef` class.
- `Session`: flat scoring, the stable top-five leaderboard, and the accuracy and average time
  charts. Chart values are exact fractions.
- `GameResult`: the per-answer rows of a player's result page.
- `EditGame`: loading a game with its locally cached questions, renaming it, deleting a
  question (a `splice` with JavaScript's index rules), and the statistics.
- `Dashboard`: normalising the fetched games, deleting a game, creating a game, and the cards.

Imperative handlers are methods, each proved equal to a specification function:

- `EditQuestion.HandleOptionChange` walks a copied option array.
- `EditQuestion.PlaceQuestion` and `EditQuestion.HandleSave` do a push or an index assignment.
- `PlayGame.HandleSelect` does a push or a filter.
- `EditGame.DeleteQuestion` shifts the elements of an array down.
- `PlayGame.OnStatus` updates the position ref.

Two facts about the code that the model keeps:

- Accuracy and average response time divide by the number of all players. A player with
  no answer, or with a missing timestamp, adds 0 to the sum and still counts in the
  divisor. `Session.NonRespondersCountAsZero` and `Session.AverageOverAllPlayers` state
  this, and `Session.NonResponderScenario` works through an example: 23/3 s where leaving
  out the non-responder would give 11.5 s.
- Scoring is 100 points per correct answer, whatever a question's `points` says.

## Model

| member | source | states |
|---|---|---|
| Text.TrimStart | frontend/src/pages/EditQuestion.jsx:103 | the result is a suffix of the input, everything removed is white space, and the result does not start with white space |
| Text.TrimEnd | frontend/src/pages/EditQuestion.jsx:103 | the result is a prefix of the input, everything removed is white space, and the result does not end with white space |
| Text.TrimEmptyIffBlank | frontend/src/pages/EditQuestion.jsx:103 | `!s.trim()` holds exactly when every character of `s` is white space |
| Text.IndexOf | frontend/src/pages/EditQuestion.jsx:272 | the result is the first position where the pattern occurs, and it is absent exactly when the pattern occurs nowhere |
| Text.Split | frontend/src/pages/EditQuestion.jsx:276-277 | splitting always yields at least one piece |
| Text.JoinSplit | frontend/src/pages/EditQuestion.jsx:276-277 | joining the pieces of a split with the separator gives back the string |
| Text.SplitPiecesFree | frontend/src/pages/EditQuestion.jsx:276-277 | no piece of a split contains the separator |
| Text.SplitAtFirst | frontend/src/pages/EditQuestion.jsx:276-277 | piece 0 is the text before the first separator, and piece 1 is the first piece of the text after it |
| Text.Decimal | frontend/src/pages/Dashboard.jsx:283 | a number's text is a non-empty run of digits without a leading zero |
| Text.ParseDecimalInverse | frontend/src/pages/Session.jsx:156 | reading the decimal text back gives the number, so distinct numbers have distinct texts |
| Text.DecimalInjective | frontend/src/pages/Session.jsx:156 | distinct numbers have distinct decimal texts (as for the `Date.now()` ids at Dashboard.jsx:283), so the `Q{i+1}` labels differ |
| Catalog.TotalTimeAppend | frontend/src/pages/EditGame.jsx:300 | the summed time limits of a concatenation are the sum of the two totals |
| Catalog.TotalTimeBounds | frontend/src/pages/Dashboard.jsx:206 | missing limits add nothing; with every set limit between lo and hi, the total lies between lo and hi times the number of set limits, and at most hi times the count |
| Catalog.FindIndex | frontend/src/pages/EditQuestion.jsx:141 | the result is the first index whose id matches, and it is absent exactly when no id matches |
| EditQuestion.CorrectCountPositive | frontend/src/pages/EditQuestion.jsx:113 | the count of correct options is positive exactly when some option is correct |
| EditQuestion.Validate | frontend/src/pages/EditQuestion.jsx:102-121 | the save goes ahead exactly when the text is non-blank, there are at least 2 options, one is correct and none has blank text |
| EditQuestion.ValidateFirstFailure | frontend/src/pages/EditQuestion.jsx:102-121 | each error message is given exactly when its check fails and all earlier checks pass |
| EditQuestion.Prepare | frontend/src/pages/EditQuestion.jsx:153-162 | a falsy type becomes 'single', a falsy time limit 30 and falsy points 1; set fields, prompt, media and options are kept |
| EditQuestion.PrepareIdempotent | frontend/src/pages/EditQuestion.jsx:153-162 | filling in defaults twice equals doing it once, and it does not change the validation result |
| EditQuestion.PlaceQuestion | frontend/src/pages/EditQuestion.jsx:164-173 | a new question is appended; an in-range index replaces exactly that position; any other index gives "Question index out of bounds" |
| EditQuestion.HandleSave | frontend/src/pages/EditQuestion.jsx:102-175 | a failed check returns its message and writes nothing; a non-array list or a missing game is an error; an index out of range gives "Question index out of bounds"; on success only the found game changes, taking the placed question, and the cached game is that game |
| EditQuestion.LoadQuestionAsWritten | frontend/src/pages/EditQuestion.jsx:72-90 | as written: an index outside the list gives "Question not found", but a NaN index gives the TypeError |
| EditQuestion.NaNIndexPassesCheck | frontend/src/pages/EditQuestion.jsx:77-82 | a non-numeric question id passes the bounds check and reaches the TypeError, not "Question not found" |
| EditQuestion.LoadQuestion | frontend/src/pages/EditQuestion.jsx:72-90 | a question loads exactly when the game exists and the index is a number inside the list; the loaded question is the stored one with its type defaulted to 'single' |
| EditQuestion.LoadersAgreeOnNumbers | frontend/src/pages/EditQuestion.jsx:77-82 | the corrected loader and the code as written agree on every numeric index |
| EditQuestion.TypeChanged | frontend/src/pages/EditQuestion.jsx:202-212 | switching to 'single' clears every correct flag and any other type keeps them; count and texts are unchanged |
| EditQuestion.SingleCorrectExclusive | frontend/src/pages/EditQuestion.jsx:218-222 | for a single-choice question the chosen option takes the value, all others become false, and at most one option is correct |
| EditQuestion.OtherEditsAreLocal | frontend/src/pages/EditQuestion.jsx:223-225 | otherwise only the edited field of `options[index]` changes |
| EditQuestion.HandleOptionChange | frontend/src/pages/EditQuestion.jsx:214-232 | the in-place loop over the copied options produces the question `OptionChanged` specifies |
| EditQuestion.RemoveAt | frontend/src/pages/EditQuestion.jsx:246 | an index inside the list removes exactly that element and keeps the order of the rest; any other index changes nothing |
| EditQuestion.AddOption | frontend/src/pages/EditQuestion.jsx:234-240 | at six options nothing changes; otherwise one empty, unchecked option is appended |
| EditQuestion.RemoveOption | frontend/src/pages/EditQuestion.jsx:242-248 | at two options or fewer nothing changes; otherwise position `index` is removed |
| EditQuestion.NewDraftSatisfiesInvariant | frontend/src/pages/EditQuestion.jsx:36-47 | the initial editor state has 2 options, a type, and no correct option |
| EditQuestion.AddRemovePreserveInvariant | frontend/src/pages/EditQuestion.jsx:234-248 | adding and removing keep the option count within 2..6 and single-choice exclusivity |
| EditQuestion.EditsPreserveInvariant | frontend/src/pages/EditQuestion.jsx:202-232 | the type switch and option edits keep the editor invariant |
| EditQuestion.SavedSingleHasOneCorrect | frontend/src/pages/EditQuestion.jsx:113-162 | a valid single-choice question saved from an editor keeping the invariant has exactly one correct option and 2..6 options |
| EditQuestion.MediaFromUrl | frontend/src/pages/EditQuestion.jsx:265-289 | an empty answer changes nothing; a URL mentioning neither domain is kept as an image; a YouTube URL becomes the embed URL of its id, or stays as it is when no id is found |
| EditQuestion.MediaUrlChanged | frontend/src/pages/EditQuestion.jsx:284-288 | the question takes the computed media and type, and nothing else changes |
| EditQuestion.ShortLinkEmbeds | frontend/src/pages/EditQuestion.jsx:275-281 | `https://youtu.be/ID` becomes `https://www.youtube.com/embed/ID` with type 'youtube' |
| EditQuestion.WatchLinkEmbeds | frontend/src/pages/EditQuestion.jsx:275-281 | `https://www.youtube.com/watch?v=ID`, optionally followed by `&...`, becomes the embed URL of ID |
| EditQuestion.YouTubeWithoutIdKept | frontend/src/pages/EditQuestion.jsx:272-281 | a YouTube URL with no extractable id keeps the original URL, with type 'youtube' |
| PlayGame.Without | frontend/src/pages/PlayGame.jsx:121 | the filtered selection holds exactly the other indexes and is no longer |
| PlayGame.WithoutAppend | frontend/src/pages/PlayGame.jsx:121 | the filter distributes over concatenation, so the other indexes keep their order and multiplicity |
| PlayGame.WithoutOnce | frontend/src/pages/PlayGame.jsx:121 | removing an index chosen once deletes exactly its position and keeps the rest in order |
| PlayGame.WithoutKeepsNoDuplicates | frontend/src/pages/PlayGame.jsx:121 | removing an index keeps a duplicate-free selection duplicate-free |
| PlayGame.ToggleFlipsOne | frontend/src/pages/PlayGame.jsx:119-124 | toggling flips the membership of exactly that index and keeps the selection duplicate-free |
| PlayGame.ToggleTwice | frontend/src/pages/PlayGame.jsx:119-124 | toggling an unselected index twice restores the selection exactly; any double toggle restores the set of choices |
| PlayGame.ToggleTwiceReorders | frontend/src/pages/PlayGame.jsx:119-124 | toggling a chosen index off and on again moves it to the end ([1,2] becomes [2,1]) |
| PlayGame.HandleSelect | frontend/src/pages/PlayGame.jsx:111-131 | blocked input changes nothing and sends nothing; 'multiple' toggles the index; every other type selects exactly `[index]`; the result is submitted |
| PlayGame.AnswerTexts | frontend/src/pages/PlayGame.jsx:85-87 | the payload exists exactly when every index is valid; it has one text per selected index, in selection order |
| PlayGame.SelectionAlwaysSendable | frontend/src/pages/PlayGame.jsx:87 | choosing a rendered option from valid selections always produces a payload |
| PlayGame.CountdownStep | frontend/src/pages/PlayGame.jsx:74-80 | with prev <= 1 the timer stops and shows 0; otherwise it shows prev - 1 |
| PlayGame.CountdownRunShape | frontend/src/pages/PlayGame.jsx:73-82 | from start d the display runs d-1 down to 0 over max(d,1) ticks and is never negative |
| PlayGame.FetchQuestion | frontend/src/pages/PlayGame.jsx:47-68 | at most 6 requests; every request before the last found no question; the outcome is loaded exactly when the last request had one, with the duration defaulting to 30 |
| PlayGame.NeverReadyGivesUpAfterSix | frontend/src/pages/PlayGame.jsx:59-63 | a question that never becomes ready is requested 6 times, then the page gives up |
| PlayGame.QuestionLoaded | frontend/src/pages/PlayGame.jsx:52-57 | the countdown starts at the duration, or 30 when it is falsy, and input is disabled |
| PlayGame.RevealAsWritten | frontend/src/pages/PlayGame.jsx:133-148 | with the null status of the mount render, the answer is shown and input is blocked, but reading `status.atQuestion` throws, the error is logged, and the player is never sent to the result page |
| PlayGame.Reveal | frontend/src/pages/PlayGame.jsx:133-148 | reading the current status, the answer is shown, input is blocked, nothing is logged, and the player is sent to the result page exactly at the last question |
| PlayGame.RevealsAgreeOnView | frontend/src/pages/PlayGame.jsx:138-139 | both readings leave the same view, the given one with the answer shown; they differ only in navigation and the logged error |
| PlayGame.StaleStatusNeverNavigates | frontend/src/pages/PlayGame.jsx:23-44 | at the last question the intended reading navigates to the result page and the code as written does not |
| PlayGame.RevealAfterCountdown | frontend/src/pages/PlayGame.jsx:74-78 | when the countdown reaches its last tick the view is blocked, and the revealed view shows 0 and stays blocked |
| PlayGame.NoInputAfterTimeOrReveal | frontend/src/pages/PlayGame.jsx:73-112 | at each tick of the countdown, the guard of handleSelect blocks a selection exactly at the last tick (when the countdown shows 0), or when the view is disabled or the answer is shown |
| PlayGame.PositionRef.constructor | frontend/src/pages/PlayGame.jsx:20 | the last position starts as null |
| PlayGame.OnStatus | frontend/src/pages/PlayGame.jsx:29-34 | a new position clears the selection, hides the answer, refetches and records the position; the same position changes nothing |
| Session.CorrectCount | frontend/src/pages/Session.jsx:152 | the number of correct answers is at most the number of answers |
| Session.Score | frontend/src/pages/Session.jsx:150-152 | a score is a multiple of 100 between 0 and 100 times the answer count |
| Session.Standings | frontend/src/pages/Session.jsx:150-152 | one standing per player, with that player's name and score |
| Session.SortByScoreCorrect | frontend/src/pages/Session.jsx:153 | the sort orders scores non-increasingly and is a permutation of its input |
| Session.SortByScoreStable | frontend/src/pages/Session.jsx:153 | players with equal scores keep their relative order |
| Session.Take | frontend/src/pages/Session.jsx:153 | `slice(0, n)` is the prefix of length min(n, length) |
| Session.TopUsersCorrect | frontend/src/pages/Session.jsx:150-153 | the leaderboard has min(5, players) entries, is ordered by score, is drawn from the standings, and nobody left out scores above its last entry |
| Session.TopUsersFromResults | frontend/src/pages/Session.jsx:150-153 | every leaderboard row is some player's name and score |
| Session.TopUsersShape | frontend/src/pages/Session.jsx:153 | the leaderboard has min(5, players) rows, is ordered by score, and is part of the standings without repetition |
| Session.TopUsersCutOff | frontend/src/pages/Session.jsx:153 | a standing left off the leaderboard scores no more than its last row |
| Session.TopUsersStable | frontend/src/pages/Session.jsx:153 | the leaderboard is a prefix of the stable sort, so ties keep their result order |
| Session.CorrectPlayers | frontend/src/pages/Session.jsx:160 | the number of players correct at a question is at most the number of players |
| Session.CorrectPlayersAppend | frontend/src/pages/Session.jsx:160 | the count over two groups of players is the sum of the two counts |
| Session.CorrectPlayersCounts | frontend/src/pages/Session.jsx:160 | a single player counts 1 exactly when `answers[i]?.correct`; the count is 0 exactly when nobody is correct and all players exactly when everybody is |
| Session.Accuracy | frontend/src/pages/Session.jsx:159-162 | one value per question: 100 times the players correct there, over the number of all players (those without an answer included), lying in 0..100 percent |
| Session.AverageTime | frontend/src/pages/Session.jsx:171-177 | one value per question, and the divisor is 1000 ms times the number of all players |
| Session.RespondersMembers | frontend/src/pages/Session.jsx:174-175 | the responders are exactly the players whose answer has both timestamps |
| Session.NonRespondersCountAsZero | frontend/src/pages/Session.jsx:172-177 | a player without the answer or a timestamp contributes 0, so the summed time equals the responders' sum |
| Session.AverageOverAllPlayers | frontend/src/pages/Session.jsx:172-179 | each chart point is the responders' summed time over 1000 times the number of all players |
| Session.Labels | frontend/src/pages/Session.jsx:156 | one label `Q{i+1}` per question, in order |
| Session.LabelInjective | frontend/src/pages/Session.jsx:156 | distinct question positions get distinct `Q{i+1}` labels |
| Session.LabelsDistinct | frontend/src/pages/Session.jsx:156 | no two questions share a label |
| Session.DisplayedChartsDefined | frontend/src/pages/Session.jsx:197 | when the statistics are shown, every divisor is positive and every accuracy lies in 0..100 percent |
| Session.NonResponderScenario | frontend/src/pages/Session.jsx:159-177 | players at 5 s, 18 s and no answer: accuracy 200/3 percent, average 23/3 s, 2 responders |
| GameResult.RoundToSeconds | frontend/src/pages/GameResult.jsx:53 | `Math.round(ms/1000)` is the whole second within half a second of the time, halves rounding up |
| GameResult.TimeTaken | frontend/src/pages/GameResult.jsx:52-54 | the time is shown exactly when both timestamps are present, and it is their difference rounded to the second |
| GameResult.Rows | frontend/src/pages/GameResult.jsx:49-63 | one row per answer |
| GameResult.RowShape | frontend/src/pages/GameResult.jsx:49-58 | row i is labelled `Q{i+1}`, scores 100 exactly when its answer is correct and 0 otherwise, and shows '-' exactly when a timestamp is missing |
| GameResult.RowLabelsDistinct | frontend/src/pages/GameResult.jsx:58 | no two rows share a label |
| GameResult.RowsSumToScore | frontend/src/pages/GameResult.jsx:51 | the row scores add up to the player's leaderboard score in the session results |
| EditGame.CachedQuestions | frontend/src/pages/EditGame.jsx:57-58 | a missing cache entry gives the empty list; otherwise the cached value is taken |
| EditGame.FetchGame | frontend/src/pages/EditGame.jsx:48-60 | a non-array list or a missing game is an error; otherwise the first matching game shows the cached questions, and the same object inside all games carries them too |
| EditGame.DisplayedQuestionsFromCache | frontend/src/pages/EditGame.jsx:57-58 | the displayed questions are the cached ones (empty when nothing is cached), whatever the store holds |
| EditGame.UpdateDetails | frontend/src/pages/EditGame.jsx:84-93 | the new list has as many games as the old |
| EditGame.UpdateDetailsLocal | frontend/src/pages/EditGame.jsx:84-93 | games with the edited id change only in name and thumbnail; every other game is unchanged |
| EditGame.HandleUpdateGame | frontend/src/pages/EditGame.jsx:80-93 | without a game list the error "No games data available"; otherwise the mapped list |
| EditGame.UpdateDetailsIdempotent | frontend/src/pages/EditGame.jsx:84-93 | saving the same details twice equals saving them once |
| EditGame.SaveDetailsAfterLoad | frontend/src/pages/EditGame.jsx:57-93 | after loading, a rename writes the cached questions of the edited game into the store together with the new name and thumbnail |
| EditGame.RenameWithoutCacheClearsQuestions | frontend/src/pages/EditGame.jsx:57-93 | renaming a game with no cached questions writes an empty question list for it |
| EditGame.SpliceStart | frontend/src/pages/EditGame.jsx:135 | `splice`'s start: a negative index counts from the end, and the result is clamped to 0..length |
| EditGame.SpliceOneRemoves | frontend/src/pages/EditGame.jsx:135 | an in-range index removes exactly that element and keeps the others in order; an index past the end changes nothing; a negative index counts from the end |
| EditGame.SpliceOnePermutes | frontend/src/pages/EditGame.jsx:135 | an in-range delete loses exactly the element at that index and nothing else |
| EditGame.DeleteQuestion | frontend/src/pages/EditGame.jsx:133-135 | the array shift on the copied list produces the list `SpliceOne` specifies |
| EditGame.ReplaceQuestions | frontend/src/pages/EditGame.jsx:137-145 | the new list has as many games as the old |
| EditGame.ReplaceQuestionsLocal | frontend/src/pages/EditGame.jsx:137-145 | only games with the edited id receive the new question list; every other game is unchanged |
| EditGame.DetailsAndQuestionsCommute | frontend/src/pages/EditGame.jsx:84-145 | renaming and replacing questions commute |
| EditGame.HandleDeleteQuestion | frontend/src/pages/EditGame.jsx:119-164 | no game gives "Game data not available"; no list gives "No games data available"; otherwise the list and the cache both get the game's questions minus the deleted one |
| EditGame.QuestionCount | frontend/src/pages/EditGame.jsx:298 | the count is the list length, 0 when the questions are not an array |
| EditGame.ShownTotalTime | frontend/src/pages/EditGame.jsx:300 | a total is shown exactly when the questions are an array, and it is their summed time limits; a non-array (never null after `?? []`) makes the render throw "game.questions?.reduce is not a function" |
| EditGame.DeleteUpdatesStatistics | frontend/src/pages/EditGame.jsx:298-300 | deleting question i lowers the count by one and the total time by that question's limit |
| Dashboard.SafeGames | frontend/src/pages/Dashboard.jsx:53-57 | one game per stored game (none when not an array), each with its questions normalised |
| Dashboard.SafeGamesNormalises | frontend/src/pages/Dashboard.jsx:53-57 | every game then has an array of questions, other fields are preserved, games already normal are unchanged, and normalising is idempotent |
| Dashboard.WithoutMembers | frontend/src/pages/Dashboard.jsx:85 | a game survives the delete exactly when it was listed and its id differs from the target |
| Dashboard.WithoutAppend | frontend/src/pages/Dashboard.jsx:85 | the delete filter distributes over concatenation, so kept games stay in order |
| Dashboard.WithoutAbsent | frontend/src/pages/Dashboard.jsx:85 | deleting an id no game has changes nothing |
| Dashboard.WithoutTwice | frontend/src/pages/Dashboard.jsx:85 | deleting twice equals deleting once |
| Dashboard.HandleDeleteGame | frontend/src/pages/Dashboard.jsx:81-85 | a non-array list gives "Games data is not an array"; otherwise the filtered list |
| Dashboard.CreateGame | frontend/src/pages/Dashboard.jsx:264-290 | a blank name gives "Game name cannot be empty"; otherwise exactly one game with no questions is appended and the existing games are unchanged |
| Dashboard.BlankNameRejected | frontend/src/pages/Dashboard.jsx:264-267 | creation is refused exactly when the name is all white space |
| Dashboard.CreateThenDelete | frontend/src/pages/Dashboard.jsx:282-290 | deleting the newly created game by its fresh id gives back the stored games |
| Dashboard.CardOf | frontend/src/pages/Dashboard.jsx:192-221 | a card shows the question count and total time, the placeholder for an empty thumbnail, the active state, and links Edit to its game |
| Dashboard.Cards | frontend/src/pages/Dashboard.jsx:190-215 | one card, with one Edit button, per game, in order |
| Dashboard.EditTargetsFollowIds | frontend/src/pages/Dashboard.jsx:215 | two cards have the same Edit target exactly when their games have the same id |
| Dashboard.TwoGamesTwoCards | frontend/src/__test__/Dashboard.test.jsx:7-50 | two stored games give two cards, with 2 and 1 questions and 50 and 15 seconds |

## Left out

- All `fetch` calls, `localStorage` reads and writes, and `navigate` are left out. Fetched data is a parameter, and what would be PUT, cached or shown is the result. HTTP failures and the messages the server returns are not modelled.
- Polling and timers (`setInterval`, `setTimeout`) are left out. The countdown and the retry are stepped by explicit calls, and the 300 ms enabling delay is not modelled.
- `FileReader` uploads of media and thumbnails are left out.
- The server-side session lifecycle is not part of these files; it is reached only through `fetch`.
- Session: the lookup of the game for a session (`String(g.active) === String(sessionId)`, falling back to the stored last game) and the Advance and Stop buttons are network plumbing and are not modelled.
- Session.AverageTime: the `Math.round(avg * 10) / 10` display rounding and all floating point are not modelled; values are exact fractions.
- `Date` parsing is not modelled: timestamps are integer milliseconds, and a missing or falsy timestamp is `None`.
- The loose `==` comparison of game ids is modelled as string equality.
- A non-array value that still has a `length` (a string, or an object with a `length` field) counts as `NotArray`. The model therefore takes its length as 0, not its actual `length`.
- EditQuestion: a question is modelled without extra option fields or a non-boolean `correct`. The `!!opt.correct` step is then the identity on the model's booleans.
- EditQuestion: the default pair of blank options, given when a stored question's `options` is not an array, is not modelled. Stored questions always hold an option sequence.
- EditQuestion.HandleOptionChange: the handler mutates option objects that the previous state shares (aliasing). The model has value semantics, so the previous state is not changed.
- PlayGame: stale state inside the interval callbacks is not modelled in general. The one stale read that changes behaviour, the null `status` in getCorrectAnswer, is `PlayGame.RevealAsWritten` (see "## Findings"), and the other callbacks read only refs, updater arguments and `playerId`.
- PlayGame.HandleSelect: `question` is taken to be loaded; a selection made before any question arrives (which would throw) is not modelled.
- GameResult: a null `result`, left when the fetch fails, would make the page throw; it is not modelled.
- Dashboard.CreateGame: the new id is `Date.now().toString()`, taken as a parameter. Nothing makes it distinct from existing ids, so `Dashboard.CreateThenDelete` assumes it is.
- EditGame.QuestionCount: for non-array cached questions it gives 0 and ignores any `length` the value has. On such a value the render throws at the total anyway (`EditGame.ShownTotalTime` returns the error), so the count is never shown.
- EditGame: the question cards rendered by `game.questions?.map` are not modelled. On non-array questions they throw in the same way as the total.
- The login, register, join and waiting pages, the logout button and the routing are thin form and network wrappers; they are not part of this model.

## Findings

| source | as written | input that shows it | evidently intended | confidence | as-written member | corrected member |
|---|---|---|---|---|---|---|
| frontend/src/pages/EditQuestion.jsx:77-82 | `qIndex < 0 \|\| qIndex >= length` is false when `parseInt` gives NaN, so the check lets the index through and reading `.type` of `questions[NaN]` throws a TypeError | the route `/game/{id}/question/abc` for an existing game: the page shows "Cannot read properties of undefined (reading 'type')" | a non-numeric id is rejected with "Question not found", as `handleSave` at lines 167-171 rejects it | not executed | EditQuestion.NaNIndexPassesCheck | EditQuestion.LoadQuestion |
| frontend/src/pages/PlayGame.jsx:140 | the status poll's interval is created once by the mount effect (lines 23-44) and starts that render's fetchQuestion, startCountdown and getCorrectAnswer, which read the initial `status` of `null`; `status.atQuestion` then throws, the catch logs it, and `navigate` at line 141 is never reached | any game: when the countdown of the last question ends, the answer is shown and the player stays on the question page | at the last question the player is sent to `/play/{playerId}/result` | not executed | PlayGame.StaleStatusNeverNavigates | PlayGame.Reveal |
