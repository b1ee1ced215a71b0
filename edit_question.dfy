/** The question editor page: validation and normalisation of a question on save, its
    placement in the game's question list, and the option-list and media handlers. */
module EditQuestion {
  import opened Wrappers
  import opened Text
  import opened Catalog

  /** Which question the page edits: the route's `questionId` is "new" or is parsed with
      `parseInt`; `AtIndex(None)` stands for a `parseInt` that gave NaN. */
  datatype Target = NewQuestion | AtIndex(index: Option<int>)

  /** What a successful save writes: the full game list sent with PUT, and the edited game
      that is also cached locally under `game-{gameId}`. */
  datatype SaveOutput = SaveOutput(games: seq<Game>, cached: Game)

  /** One change of an option field: its text, or its `correct` checkbox. */
  datatype OptionEdit = SetText(text: string) | SetCorrect(value: bool)

  const QuestionTextRequired := "Question text is required"
  const TwoOptionsRequired := "At least 2 options are required"
  const CorrectAnswerRequired := "At least one correct answer is required"
  const OptionTextRequired := "All options must have text"
  const GamesNotArray := "Games data is not an array"
  const GameNotFound := "Game not found"
  const GameNotFoundOnSave := "Game not found when saving question"
  const QuestionNotFound := "Question not found"
  const IndexOutOfBounds := "Question index out of bounds"
  /** The message of the TypeError thrown when reading `.type` of an undefined question. */
  const UndefinedQuestionType := "Cannot read properties of undefined (reading 'type')"

  const MaxOptions := 6
  const MinOptions := 2
  const EmbedPrefix := "https://www.youtube.com/embed/"

  const BlankChoice := Choice("", false)

  /** The editor's initial state, kept for a new question. */
  const NewDraft := Question(Some("single"), "", Some(30), Some(1), None, None, [BlankChoice, BlankChoice])

  function CorrectCount(opts: seq<Choice>): (n: nat)
    ensures n <= |opts|
    decreases |opts|
  {
    if opts == [] then 0 else (if opts[0].correct then 1 else 0) + CorrectCount(opts[1..])
  }

  /** A choice list has a correct option exactly when its count of correct options is positive. */
  lemma {:induction false} CorrectCountPositive(opts: seq<Choice>)
    ensures CorrectCount(opts) > 0 <==> exists i :: 0 <= i < |opts| && opts[i].correct
    decreases |opts|
  {
    if opts != [] {
      CorrectCountPositive(opts[1..]);
      if CorrectCount(opts[1..]) > 0 {
        var i :| 0 <= i < |opts[1..]| && opts[1..][i].correct;
        assert opts[i + 1].correct;
      }
      if exists i :: 0 <= i < |opts| && opts[i].correct {
        var i :| 0 <= i < |opts| && opts[i].correct;
        if i > 0 { assert opts[1..][i - 1].correct; }
      }
    }
  }

  /** Counting the correct options of a list in which only position `k` may be correct. */
  lemma {:induction false} CorrectCountOnlyAt(opts: seq<Choice>, k: int)
    requires forall i :: 0 <= i < |opts| && i != k ==> !opts[i].correct
    ensures CorrectCount(opts) == if 0 <= k < |opts| && opts[k].correct then 1 else 0
    decreases |opts|
  {
    if opts != [] {
      CorrectCountOnlyAt(opts[1..], k - 1);
    }
  }

  /** Counting over concatenation. */
  lemma {:induction false} CorrectCountAppend(a: seq<Choice>, b: seq<Choice>)
    ensures CorrectCount(a + b) == CorrectCount(a) + CorrectCount(b)
    decreases |a|
  {
    if a == [] {
      assert a + b == b;
    } else {
      assert (a + b)[1..] == a[1..] + b;
      CorrectCountAppend(a[1..], b);
    }
  }

  /** The four save-time conditions, stated declaratively. */
  predicate Savable(q: Question) {
    && !IsBlank(q.prompt)
    && |q.options| >= MinOptions
    && (exists i :: 0 <= i < |q.options| && q.options[i].correct)
    && (forall i :: 0 <= i < |q.options| ==> !IsBlank(q.options[i].text))
  }

  /** The four checks at the top of handleSave, one per error message. */
  datatype Check = BlankPrompt | TooFewOptions | NoCorrectOption | BlankOption

  function Message(c: Check): string {
    match c
    case BlankPrompt => QuestionTextRequired
    case TooFewOptions => TwoOptionsRequired
    case NoCorrectOption => CorrectAnswerRequired
    case BlankOption => OptionTextRequired
  }

  /** The checks at the top of handleSave, in their order; `None` means the save goes ahead,
      which happens exactly when the question meets all four conditions. */
  function Validate(q: Question): (r: Option<Check>)
    ensures r.None? <==> Savable(q)
  {
    CorrectCountPositive(q.options);
    if IsBlank(q.prompt) then Some(BlankPrompt)
    else if |q.options| < 2 then Some(TooFewOptions)
    else if !(exists i :: 0 <= i < |q.options| && q.options[i].correct) then Some(NoCorrectOption)
    else if exists i :: 0 <= i < |q.options| && IsBlank(q.options[i].text) then Some(BlankOption)
    else None
  }

  /** The first failing check, in the order prompt, option count, a correct option, option
      texts, decides the message: each is reported exactly when the earlier ones pass. */
  lemma ValidateFirstFailure(q: Question)
    ensures Validate(q) == Some(BlankPrompt) <==> IsBlank(q.prompt)
    ensures Validate(q) == Some(TooFewOptions) <==> !IsBlank(q.prompt) && |q.options| < MinOptions
    ensures Validate(q) == Some(NoCorrectOption) <==>
      !IsBlank(q.prompt) && |q.options| >= MinOptions && CorrectCount(q.options) == 0
    ensures Validate(q) == Some(BlankOption) <==>
      && !IsBlank(q.prompt) && |q.options| >= MinOptions && CorrectCount(q.options) > 0
      && exists i :: 0 <= i < |q.options| && IsBlank(q.options[i].text)
  {
    CorrectCountPositive(q.options);
  }

  /** The defaults filled in before a question is written: type 'single', a 30 second time
      limit and 1 point when the field is falsy; each option keeps its text and a boolean flag. */
  function Prepare(q: Question): (r: Question)
    ensures r.qtype.Some? && r.qtype.value != ""
    ensures r.timeLimit.Some? && r.timeLimit.value != 0
    ensures r.points.Some? && r.points.value != 0
    ensures q.qtype.Some? && q.qtype.value != "" ==> r.qtype == q.qtype
    ensures q.qtype.None? || q.qtype.value == "" ==> r.qtype == Some("single")
    ensures q.timeLimit.Some? && q.timeLimit.value != 0 ==> r.timeLimit == q.timeLimit
    ensures q.timeLimit.None? || q.timeLimit.value == 0 ==> r.timeLimit == Some(30)
    ensures q.points.Some? && q.points.value != 0 ==> r.points == q.points
    ensures q.points.None? || q.points.value == 0 ==> r.points == Some(1)
    ensures r.prompt == q.prompt && r.media == q.media && r.mediaType == q.mediaType
    ensures r.options == q.options
  {
    q.(qtype := Some(StrOr(q.qtype, "single")),
       timeLimit := Some(NumOr(q.timeLimit, 30)),
       points := Some(NumOr(q.points, 1)),
       options := seq(|q.options|, i requires 0 <= i < |q.options| =>
         Choice(q.options[i].text, q.options[i].correct)))
  }

  /** Preparing twice is preparing once, and preparing does not change what validation says. */
  lemma PrepareIdempotent(q: Question)
    ensures Prepare(Prepare(q)) == Prepare(q)
    ensures Validate(Prepare(q)) == Validate(q)
  {
  }

  /** Appends a new question, or replaces the edited one in place, as handleSave does on the
      copied question array (`push`, or an index assignment after a bounds check). */
  method PlaceQuestion(questions: seq<Question>, target: Target, prepared: Question)
    returns (r: Result<seq<Question>>)
    ensures target.NewQuestion? ==> r == Ok(questions + [prepared])
    ensures target.AtIndex? && target.index.Some? && 0 <= target.index.value < |questions| ==>
      r == Ok(questions[target.index.value := prepared])
    ensures target.AtIndex? && !(target.index.Some? && 0 <= target.index.value < |questions|) ==>
      r == Err(IndexOutOfBounds)
  {
    var qs := questions;
    if target.NewQuestion? {
      qs := qs + [prepared];
    } else {
      var qIndex := target.index;
      if qIndex.Some? && qIndex.value >= 0 && qIndex.value < |qs| {
        qs := qs[qIndex.value := prepared];
      } else {
        return Err(IndexOutOfBounds);
      }
    }
    r := Ok(qs);
  }

  /** handleSave once the network read of the game list has returned `games`: validation
      first (nothing is written when it fails), then the lookup of the game, then the
      placement of the prepared question in that game only. */
  method HandleSave(draft: Question, games: Listish<Game>, gameId: string, target: Target)
    returns (r: Result<SaveOutput>)
    ensures Validate(draft).Some? ==> r == Err(Message(Validate(draft).value))
    ensures Validate(draft).None? && games.NotArray? ==> r == Err(GamesNotArray)
    ensures Validate(draft).None? && games.Items? && FindIndex(games.items, gameId).None? ==>
      r == Err(GameNotFoundOnSave)
    ensures r.Ok? ==> Validate(draft).None? && games.Items? && FindIndex(games.items, gameId).Some?
    ensures r.Ok? ==>
      var all := games.items;
      var gi := FindIndex(all, gameId).value;
      var before := AsArray(all[gi].questions);
      && r.value.games == all[gi := r.value.cached]
      && r.value.cached == all[gi].(questions := r.value.cached.questions)
      && r.value.cached.questions.Items?
      && var after := r.value.cached.questions.items;
      && (target.NewQuestion? ==> (after == before + [Prepare(draft)]))
      && (target.AtIndex? ==>
            target.index.Some? && 0 <= target.index.value < |before|
            && after == before[target.index.value := Prepare(draft)])
    ensures
      && Validate(draft).None? && games.Items? && FindIndex(games.items, gameId).Some?
      && target.AtIndex?
      ==>
      var before := AsArray(games.items[FindIndex(games.items, gameId).value].questions);
      (r.Err? <==> !(target.index.Some? && 0 <= target.index.value < |before|))
      && (r.Err? ==> r == Err(IndexOutOfBounds))
  {
    var invalid := Validate(draft);
    if invalid.Some? {
      return Err(Message(invalid.value));
    }
    if games.NotArray? {
      return Err(GamesNotArray);
    }
    var gameIndex := FindIndex(games.items, gameId);
    if gameIndex.None? {
      return Err(GameNotFoundOnSave);
    }
    var updatedGames := games.items;
    var currentGame := updatedGames[gameIndex.value];
    var questions := AsArray(currentGame.questions);
    var prepared := Prepare(draft);
    var placed := PlaceQuestion(questions, target, prepared);
    if placed.Err? {
      return Err(placed.message);
    }
    currentGame := currentGame.(questions := Items(placed.value));
    updatedGames := updatedGames[gameIndex.value := currentGame];
    r := Ok(SaveOutput(updatedGames, currentGame));
  }

  /** fetchQuestion as written: the check `qIndex < 0 || qIndex >= length` lets a NaN index
      through, and reading `.type` of the undefined element then throws. */
  function LoadQuestionAsWritten(games: Listish<Game>, gameId: string, target: Target): (r: Result<Question>)
    ensures target.NewQuestion? ==> r == Ok(NewDraft)
    ensures target.AtIndex? && games.Items? && FindIndex(games.items, gameId).Some? ==>
      var questions := AsArray(games.items[FindIndex(games.items, gameId).value].questions);
      && (r == Err(QuestionNotFound) <==> target.index.Some? && !(0 <= target.index.value < |questions|))
      && (r == Err(UndefinedQuestionType) <==> target.index.None?)
  {
    if target.NewQuestion? then Ok(NewDraft)
    else if games.NotArray? then Err(GamesNotArray)
    else match FindIndex(games.items, gameId)
      case None => Err(GameNotFound)
      case Some(gi) =>
        var questions := AsArray(games.items[gi].questions);
        if target.index.Some? && (target.index.value < 0 || target.index.value >= |questions|) then
          Err(QuestionNotFound)
        else if target.index.None? then Err(UndefinedQuestionType)
        else
          var q := questions[target.index.value];
          Ok(q.(qtype := Some(StrOr(q.qtype, "single"))))
  }

  /** A non-numeric question id in the route reaches the TypeError instead of "Question not found". */
  lemma NaNIndexPassesCheck(g: Game)
    ensures LoadQuestionAsWritten(Items([g]), g.id, AtIndex(None)) == Err(UndefinedQuestionType)
    ensures LoadQuestionAsWritten(Items([g]), g.id, AtIndex(None)) != Err(QuestionNotFound)
  {
  }

  /** fetchQuestion with the bounds check rejecting every index it cannot use: a question is
      loaded exactly when the game exists and the index is a number within the list, and it is
      that stored question with its type defaulted to 'single'. */
  function LoadQuestion(games: Listish<Game>, gameId: string, target: Target): (r: Result<Question>)
    ensures target.NewQuestion? ==> r == Ok(NewDraft)
    ensures target.AtIndex? ==>
      (r.Ok? <==>
         && games.Items? && FindIndex(games.items, gameId).Some? && target.index.Some?
         && 0 <= target.index.value < |AsArray(games.items[FindIndex(games.items, gameId).value].questions)|)
    ensures target.AtIndex? && r.Ok? ==>
      var q := AsArray(games.items[FindIndex(games.items, gameId).value].questions)[target.index.value];
      r.value == q.(qtype := Some(StrOr(q.qtype, "single")))
    ensures target.AtIndex? && games.Items? && FindIndex(games.items, gameId).Some? && r.Err? ==>
      r == Err(QuestionNotFound)
  {
    if target.NewQuestion? then Ok(NewDraft)
    else if games.NotArray? then Err(GamesNotArray)
    else match FindIndex(games.items, gameId)
      case None => Err(GameNotFound)
      case Some(gi) =>
        var questions := AsArray(games.items[gi].questions);
        if target.index.None? || target.index.value < 0 || target.index.value >= |questions| then
          Err(QuestionNotFound)
        else
          var q := questions[target.index.value];
          Ok(q.(qtype := Some(StrOr(q.qtype, "single"))))
  }

  /** Both loaders agree whenever the index is a number. */
  lemma LoadersAgreeOnNumbers(games: Listish<Game>, gameId: string, target: Target)
    requires target.NewQuestion? || target.index.Some?
    ensures LoadQuestion(games, gameId, target) == LoadQuestionAsWritten(games, gameId, target)
  {
  }

  /** handleTypeChange: switching to 'single' clears every correct flag, any other type keeps them. */
  function TypeChanged(q: Question, newType: string): (r: Question)
    ensures r.qtype == Some(newType)
    ensures r == q.(qtype := r.qtype, options := r.options)
    ensures |r.options| == |q.options|
    ensures forall i :: 0 <= i < |q.options| ==> r.options[i].text == q.options[i].text
    ensures newType == "single" ==> CorrectCount(r.options) == 0
    ensures newType != "single" ==> r.options == q.options
  {
    var opts := seq(|q.options|, i requires 0 <= i < |q.options| =>
      q.options[i].(correct := if newType == "single" then false else q.options[i].correct));
    if newType == "single" then
      CorrectCountOnlyAt(opts, -1);
      q.(qtype := Some(newType), options := opts)
    else
      q.(qtype := Some(newType), options := opts)
  }

  /** The single-choice branch of handleOptionChange: the chosen option takes `value` and every
      other option becomes unchecked. */
  predicate IsSingleCorrectEdit(q: Question, edit: OptionEdit) {
    edit.SetCorrect? && q.qtype == Some("single")
  }

  /** The new question handleOptionChange returns. The single-choice branch accepts any index
      (an index outside the list unchecks everything); the other branch writes `options[index]`. */
  function OptionChanged(q: Question, index: int, edit: OptionEdit): Question
    requires IsSingleCorrectEdit(q, edit) || 0 <= index < |q.options|
  {
    if IsSingleCorrectEdit(q, edit) then
      q.(options := seq(|q.options|, i requires 0 <= i < |q.options| =>
        q.options[i].(correct := i == index && edit.value)))
    else
      match edit
      case SetText(t) => q.(options := q.options[index := q.options[index].(text := t)])
      case SetCorrect(v) => q.(options := q.options[index := q.options[index].(correct := v)])
  }

  /** For a single-choice question, setting a flag leaves at most one option correct: the chosen
      one carries the supplied value, all others are false, and texts and count are kept. */
  lemma SingleCorrectExclusive(q: Question, index: int, value: bool)
    requires q.qtype == Some("single")
    ensures var r := OptionChanged(q, index, SetCorrect(value));
      && r == q.(options := r.options)
      && |r.options| == |q.options|
      && (forall i :: 0 <= i < |q.options| ==> r.options[i].text == q.options[i].text)
      && (forall i :: 0 <= i < |q.options| && i != index ==> !r.options[i].correct)
      && (0 <= index < |q.options| ==> r.options[index].correct == value)
      && CorrectCount(r.options) <= 1
      && (CorrectCount(r.options) == 1 <==> value && 0 <= index < |q.options|)
  {
    var r := OptionChanged(q, index, SetCorrect(value));
    CorrectCountOnlyAt(r.options, index);
  }

  /** In every other case exactly the one field of `options[index]` changes. */
  lemma OtherEditsAreLocal(q: Question, index: int, edit: OptionEdit)
    requires !IsSingleCorrectEdit(q, edit) && 0 <= index < |q.options|
    ensures var r := OptionChanged(q, index, edit);
      && r == q.(options := r.options)
      && |r.options| == |q.options|
      && (forall i :: 0 <= i < |q.options| && i != index ==> r.options[i] == q.options[i])
      && (edit.SetText? ==> r.options[index] == q.options[index].(text := edit.text))
      && (edit.SetCorrect? ==> r.options[index] == q.options[index].(correct := edit.value))
  {
  }

  /** handleOptionChange: the single-choice branch walks the copied option list and sets each
      flag in place (`forEach`); the other branch assigns one field of one option. */
  method HandleOptionChange(q: Question, index: int, edit: OptionEdit) returns (r: Question)
    requires IsSingleCorrectEdit(q, edit) || 0 <= index < |q.options|
    ensures r == OptionChanged(q, index, edit)
  {
    var newOptions := new Choice[|q.options|](i requires 0 <= i < |q.options| => q.options[i]);
    if IsSingleCorrectEdit(q, edit) {
      var i := 0;
      while i < newOptions.Length
        invariant 0 <= i <= newOptions.Length
        invariant forall k :: 0 <= k < i ==> newOptions[k] == q.options[k].(correct := k == index && edit.value)
        invariant forall k :: i <= k < newOptions.Length ==> newOptions[k] == q.options[k]
      {
        newOptions[i] := newOptions[i].(correct := if i == index then edit.value else false);
        i := i + 1;
      }
    } else {
      match edit
      case SetText(t) => newOptions[index] := newOptions[index].(text := t);
      case SetCorrect(v) => newOptions[index] := newOptions[index].(correct := v);
    }
    r := q.(options := newOptions[..]);
  }

  /** `filter((_, i) => i !== index)`: drops position `index`, if there is one. */
  function RemoveAt<T>(s: seq<T>, index: int): (r: seq<T>)
    ensures 0 <= index < |s| ==>
      && |r| == |s| - 1
      && (forall k :: 0 <= k < index ==> r[k] == s[k])
      && (forall k :: index <= k < |r| ==> r[k] == s[k + 1])
    ensures !(0 <= index < |s|) ==> r == s
  {
    if 0 <= index < |s| then s[..index] + s[index + 1..] else s
  }

  /** addOption: does nothing at six options, otherwise appends an empty, unchecked option. */
  function AddOption(q: Question): (r: Question)
    ensures |q.options| >= MaxOptions ==> r == q
    ensures |q.options| < MaxOptions ==> r == q.(options := q.options + [BlankChoice])
  {
    if |q.options| >= MaxOptions then q else q.(options := q.options + [BlankChoice])
  }

  /** removeOption: does nothing at two options or fewer, otherwise removes position `index`. */
  function RemoveOption(q: Question, index: int): (r: Question)
    ensures |q.options| <= MinOptions ==> r == q
    ensures |q.options| > MinOptions ==> r == q.(options := RemoveAt(q.options, index))
  {
    if |q.options| <= MinOptions then q else q.(options := RemoveAt(q.options, index))
  }

  /** The option count stays between two and six. */
  predicate CountInRange(q: Question) {
    MinOptions <= |q.options| <= MaxOptions
  }

  /** A single-choice question has at most one correct option. */
  predicate SingleIsExclusive(q: Question) {
    q.qtype == Some("single") ==> CorrectCount(q.options) <= 1
  }

  /** The types the editor's type selector offers. */
  const QuestionTypes := {"single", "multiple", "judgement"}

  /** The editor's invariant: what every handler keeps once it holds. The type is always set,
      since a loaded question has its type defaulted and the selector offers only real types. */
  predicate EditorInvariant(q: Question) {
    CountInRange(q) && q.qtype.Some? && q.qtype.value != "" && SingleIsExclusive(q)
  }

  lemma NewDraftSatisfiesInvariant()
    ensures EditorInvariant(NewDraft)
  {
    assert CorrectCount(NewDraft.options) == 0 by {
      CorrectCountOnlyAt(NewDraft.options, -1);
    }
  }

  lemma RemoveAtCorrectCount(s: seq<Choice>, index: int)
    ensures CorrectCount(RemoveAt(s, index)) <= CorrectCount(s)
  {
    if 0 <= index < |s| {
      assert s == s[..index] + [s[index]] + s[index + 1..];
      CorrectCountAppend(s[..index] + [s[index]], s[index + 1..]);
      CorrectCountAppend(s[..index], [s[index]]);
      CorrectCountAppend(s[..index], s[index + 1..]);
    }
  }

  /** addOption and removeOption keep the count in range and never add a correct option. */
  lemma AddRemovePreserveInvariant(q: Question, index: int)
    requires EditorInvariant(q)
    ensures EditorInvariant(AddOption(q)) && EditorInvariant(RemoveOption(q, index))
    ensures |q.options| < MaxOptions ==> |AddOption(q).options| == |q.options| + 1
    ensures |q.options| > MinOptions && 0 <= index < |q.options| ==>
      |RemoveOption(q, index).options| == |q.options| - 1
  {
    CorrectCountAppend(q.options, [BlankChoice]);
    assert CorrectCount([BlankChoice]) == 0;
    RemoveAtCorrectCount(q.options, index);
  }

  /** handleTypeChange and handleOptionChange keep the invariant too. */
  lemma EditsPreserveInvariant(q: Question, newType: string, index: int, edit: OptionEdit)
    requires EditorInvariant(q) && newType in QuestionTypes
    requires IsSingleCorrectEdit(q, edit) || 0 <= index < |q.options|
    ensures EditorInvariant(TypeChanged(q, newType))
    ensures EditorInvariant(OptionChanged(q, index, edit))
  {
    if IsSingleCorrectEdit(q, edit) {
      SingleCorrectExclusive(q, index, edit.value);
    } else if edit.SetText? {
      var r := OptionChanged(q, index, edit);
      CorrectCountText(q.options, index, edit.text);
    } else {
      assert q.qtype != Some("single");
    }
  }

  lemma {:induction false} CorrectCountText(s: seq<Choice>, index: int, t: string)
    requires 0 <= index < |s|
    ensures CorrectCount(s[index := s[index].(text := t)]) == CorrectCount(s)
    decreases |s|
  {
    if index > 0 {
      assert s[index := s[index].(text := t)][1..] == s[1..][index - 1 := s[index].(text := t)];
      CorrectCountText(s[1..], index - 1, t);
    } else {
      assert s[index := s[index].(text := t)][1..] == s[1..];
    }
  }

  /** A single-choice question saved from an editor state that keeps the invariant has
      exactly one correct option, the shape a session expects of a single-choice question. */
  lemma SavedSingleHasOneCorrect(q: Question)
    requires EditorInvariant(q) && Validate(q).None?
    requires q.qtype == Some("single")
    ensures CorrectCount(Prepare(q).options) == 1
    ensures 2 <= |Prepare(q).options| <= 6
  {
    CorrectCountPositive(q.options);
  }

  /** The video id handleMediaURL extracts: the piece after `youtu.be/` if the URL has one,
      otherwise the piece after the first `v=` cut at the first `&`. `None` is undefined. */
  function VideoId(url: string): Option<string> {
    if Includes(url, "youtu.be/") then
      var parts := Split(url, "youtu.be/");
      if |parts| >= 2 then Some(parts[1]) else None
    else
      var parts := Split(url, "v=");
      if |parts| >= 2 then Some(Split(parts[1], "&")[0]) else None
  }

  /** The media reference and kind handleMediaURL stores, or `None` when the prompt gave an
      empty answer (or was cancelled) and nothing changes. */
  function MediaFromUrl(url: string): (r: Option<(string, string)>)
    ensures url == "" <==> r.None?
    ensures r.Some? && !Includes(url, "youtube.com") && !Includes(url, "youtu.be") ==> r.value == (url, "image")
    ensures r.Some? && (Includes(url, "youtube.com") || Includes(url, "youtu.be")) ==>
      r.value.1 == "youtube"
      && (VideoId(url).Some? && VideoId(url).value != "" ==> r.value.0 == EmbedPrefix + VideoId(url).value)
      && (VideoId(url).None? || VideoId(url).value == "" ==> r.value.0 == url)
  {
    if url == "" then None
    else if Includes(url, "youtube.com") || Includes(url, "youtu.be") then
      var id := VideoId(url);
      Some((if id.Some? && id.value != "" then EmbedPrefix + id.value else url, "youtube"))
    else Some((url, "image"))
  }

  /** handleMediaURL applied to the question. */
  function MediaUrlChanged(q: Question, url: string): (r: Question)
    ensures url == "" ==> r == q
    ensures url != "" ==> r == q.(media := Some(MediaFromUrl(url).value.0), mediaType := Some(MediaFromUrl(url).value.1))
  {
    match MediaFromUrl(url)
    case None => q
    case Some((m, t)) => q.(media := Some(m), mediaType := Some(t))
  }

  const ShortLinkPrefix := "https://youtu.be/"
  const WatchPrefix := "https://www.youtube.com/watch?v="

  /** A short link `https://youtu.be/ID` becomes the embed URL of ID. */
  lemma ShortLinkEmbeds(id: string)
    requires id != "" && !Includes(id, "youtu.be/")
    ensures MediaFromUrl(ShortLinkPrefix + id) == Some((EmbedPrefix + id, "youtube"))
  {
    var url := ShortLinkPrefix + id;
    assert url[..17] == ShortLinkPrefix;
    assert url[8..17] == ShortLinkPrefix[8..17] == "youtu.be/";
    assert url[8..16] == ShortLinkPrefix[8..16] == "youtu.be";
    assert OccursAt(url, "youtu.be", 8) && OccursAt(url, "youtu.be/", 8);
    forall k: nat | k < 8 ensures !OccursAt(url, "youtu.be/", k) {
      assert url[k] == ShortLinkPrefix[k];
    }
    assert IndexOf(url, "youtu.be/") == Some(8);
    SplitAtFirst(url, "youtu.be/", 8);
    assert url[8 + 9..] == id;
    SplitAbsent(id, "youtu.be/");
  }

  /** The first `v=` of a watch URL is the one that ends its fixed prefix. */
  lemma WatchPrefixParts(tail: string)
    ensures Includes(WatchPrefix + tail, "youtube.com")
    ensures IndexOf(WatchPrefix + tail, "v=") == Some(30)
    ensures (WatchPrefix + tail)[32..] == tail
  {
    var url := WatchPrefix + tail;
    assert url[..32] == WatchPrefix;
    assert url[12..23] == WatchPrefix[12..23] == "youtube.com";
    assert url[30..32] == WatchPrefix[30..32] == "v=";
    assert OccursAt(url, "youtube.com", 12);
    assert OccursAt(url, "v=", 30);
    var head := WatchPrefix[..30];
    assert head == "https://www.youtube.com/watch?";
    assert 'v' !in head;
    NoMatchInHead(url, head);
  }

  /** `v=` cannot start inside a prefix free of the letter v. */
  lemma NoMatchInHead(url: string, head: string)
    requires |head| <= |url| && url[..|head|] == head && 'v' !in head
    ensures forall k: nat :: k < |head| ==> !OccursAt(url, "v=", k)
  {
    forall k: nat | k < |head| ensures !OccursAt(url, "v=", k) {
      assert url[k] == head[k] && head[k] in head;
      assert k + 2 <= |url| ==> url[k..k + 2][0] == url[k];
    }
  }

  /** The piece of `id + rest` before its first `v=` is `id`, possibly followed by `&...`. */
  lemma FirstPieceKeepsId(id: string, rest: string)
    requires !Includes(id, "v=") && (rest == "" || rest[0] == '&')
    ensures var seg := Split(id + rest, "v=")[0];
      |seg| >= |id| && seg[..|id|] == id && (|seg| == |id| || seg[|id|] == '&')
  {
    var t := id + rest;
    forall k: nat | k < |id| ensures !OccursAt(t, "v=", k) {
      if k + 2 <= |id| {
        assert t[k..k + 2] == id[k..k + 2];
        assert !OccursAt(id, "v=", k);
      } else if k + 2 <= |t| {
        assert k + 1 == |id| && rest != [];
        assert t[k + 1] == rest[0] == '&';
        assert t[k..k + 2][1] == t[k + 1];
      }
    }
    match IndexOf(t, "v=")
    case None =>
      SplitAbsent(t, "v=");
    case Some(j) =>
      SplitAtFirst(t, "v=", j);
  }

  /** Cutting `id + "&..."` (or `id` alone) at its first `&` gives `id` when `id` has no `&`. */
  lemma CutAtAmpersand(id: string, seg: string)
    requires !Includes(id, "&")
    requires |seg| >= |id| && seg[..|id|] == id && (|seg| == |id| || seg[|id|] == '&')
    ensures Split(seg, "&")[0] == id
  {
    forall k: nat | k < |id| ensures !OccursAt(seg, "&", k) {
      assert seg[k..k + 1] == id[k..k + 1];
      assert !OccursAt(id, "&", k);
    }
    if |seg| == |id| {
      assert seg == id;
      SplitAbsent(seg, "&");
    } else {
      assert OccursAt(seg, "&", |id|);
      SplitAtFirst(seg, "&", |id|);
    }
  }

  /** A watch URL `https://www.youtube.com/watch?v=ID` followed by nothing or by further
      `&` parameters becomes the embed URL of ID. */
  lemma WatchLinkEmbeds(id: string, rest: string)
    requires id != "" && !Includes(id, "&") && !Includes(id, "v=")
    requires rest == "" || rest[0] == '&'
    requires !Includes(WatchPrefix + (id + rest), "youtu.be/")
    ensures MediaFromUrl(WatchPrefix + (id + rest)) == Some((EmbedPrefix + id, "youtube"))
  {
    var url := WatchPrefix + (id + rest);
    WatchPrefixParts(id + rest);
    SplitAtFirst(url, "v=", 30);
    FirstPieceKeepsId(id, rest);
    CutAtAmpersand(id, Split(id + rest, "v=")[0]);
    assert VideoId(url) == Some(id);
  }

  /** A URL that mentions YouTube but has no video id keeps the URL itself. */
  lemma YouTubeWithoutIdKept(url: string)
    requires url != "" && Includes(url, "youtube.com") && !Includes(url, "youtu.be/") && !Includes(url, "v=")
    ensures MediaFromUrl(url) == Some((url, "youtube"))
  {
    SplitAbsent(url, "v=");
  }
}
