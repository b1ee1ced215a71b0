/** The game editor page: loading a game with its locally cached questions, renaming it or
    changing its thumbnail, deleting a question, and its statistics. */
module EditGame {
  import opened Wrappers
  import opened Catalog

  const GamesNotArray := "Games data is not an array"
  const GameNotFound := "Game not found"
  const NoGamesData := "No games data available"
  const GameNotAvailable := "Game data not available"
  const ReduceNotAFunction := "game.questions?.reduce is not a function"

  /** What loading the page keeps: every game from the store and the game being edited. */
  datatype Loaded = Loaded(allGames: seq<Game>, game: Game)

  /** `localGameData?.questions ?? []`: a missing cache entry, or one without questions,
      gives the empty list; anything else stored there is taken as it is. */
  function CachedQuestions(cached: Option<Listish<Question>>): (r: Listish<Question>)
    ensures cached.None? ==> r == Items([])
    ensures cached.Some? ==> r == cached.value
  {
    match cached
    case None => Items([])
    case Some(v) => v
  }

  /** `fetchGame`: the store's games must be an array and hold the game. The questions shown
      come from the local cache, never from the store. The found game object is also an
      element of `allGames`, so the assignment changes that element too. */
  function FetchGame(stored: Listish<Game>, gameId: string, cached: Option<Listish<Question>>): (r: Result<Loaded>)
    ensures stored.NotArray? ==> r == Err(GamesNotArray)
    ensures stored.Items? && FindIndex(stored.items, gameId).None? ==> r == Err(GameNotFound)
    ensures r.Ok? ==> stored.Items? && FindIndex(stored.items, gameId).Some?
    ensures r.Ok? ==> var gi := FindIndex(stored.items, gameId).value;
      && r.value.game == stored.items[gi].(questions := CachedQuestions(cached))
      && r.value.allGames == stored.items[gi := r.value.game]
  {
    match stored
    case NotArray => Err(GamesNotArray)
    case Items(games) =>
      match FindIndex(games, gameId)
      case None => Err(GameNotFound)
      case Some(gi) =>
        var game := games[gi].(questions := CachedQuestions(cached));
        Ok(Loaded(games[gi := game], game))
  }

  /** The questions listed on the page are the cached ones, the empty list when nothing is
      cached, whatever the store holds for the game. */
  lemma DisplayedQuestionsFromCache(stored: Listish<Game>, gameId: string, cached: Option<Listish<Question>>,
                                    other: Listish<Question>)
    requires FetchGame(stored, gameId, cached).Ok?
    ensures FetchGame(stored, gameId, cached).value.game.questions == CachedQuestions(cached)
    ensures cached.None? ==> FetchGame(stored, gameId, cached).value.game.questions == Items([])
    ensures var gi := FindIndex(stored.items, gameId).value;
      FetchGame(Items(stored.items[gi := stored.items[gi].(questions := other)]), gameId, cached)
        == FetchGame(stored, gameId, cached)
  {
    var gi := FindIndex(stored.items, gameId).value;
    var games := stored.items;
    var games' := games[gi := games[gi].(questions := other)];
    assert forall k :: 0 <= k < |games| ==> games'[k].id == games[k].id;
    assert FindIndex(games', gameId) == Some(gi) by {
      FindIndexSameIds(games, games', gameId);
    }
    assert games'[gi := games'[gi].(questions := CachedQuestions(cached))]
        == games[gi := games[gi].(questions := CachedQuestions(cached))];
  }

  /** `findIndex` depends only on the ids. */
  lemma {:induction false} FindIndexSameIds(a: seq<Game>, b: seq<Game>, id: string)
    requires |a| == |b| && forall k :: 0 <= k < |a| ==> a[k].id == b[k].id
    ensures FindIndex(a, id) == FindIndex(b, id)
    decreases |a|
  {
    if a != [] && a[0].id != id {
      FindIndexSameIds(a[1..], b[1..], id);
    }
  }

  /** `allGames.map(g => g.id == gameId ? {...g, name, thumbnail} : g)`. */
  function UpdateDetails(games: seq<Game>, gameId: string, name: string, thumbnail: string): (r: seq<Game>)
    ensures |r| == |games|
    decreases |games|
  {
    if games == [] then []
    else
      var g := if games[0].id == gameId then games[0].(name := name, thumbnail := thumbnail) else games[0];
      [g] + UpdateDetails(games[1..], gameId, name, thumbnail)
  }

  /** Only the games with the edited id change, and only in name and thumbnail. */
  lemma {:induction false} UpdateDetailsLocal(games: seq<Game>, gameId: string, name: string, thumbnail: string)
    ensures var r := UpdateDetails(games, gameId, name, thumbnail);
      && |r| == |games|
      && (forall k :: 0 <= k < |games| && games[k].id == gameId ==>
            r[k] == games[k].(name := name, thumbnail := thumbnail))
      && (forall k :: 0 <= k < |games| && games[k].id != gameId ==> r[k] == games[k])
    decreases |games|
  {
    if games != [] {
      UpdateDetailsLocal(games[1..], gameId, name, thumbnail);
    }
  }

  /** `handleUpdateGame`: the list to PUT, or the error when the page holds no game list. */
  function HandleUpdateGame(allGames: Listish<Game>, gameId: string, name: string, thumbnail: string): (r: Result<seq<Game>>)
    ensures allGames.NotArray? <==> r == Err(NoGamesData)
    ensures r.Ok? ==> r.value == UpdateDetails(allGames.items, gameId, name, thumbnail)
  {
    match allGames
    case NotArray => Err(NoGamesData)
    case Items(games) => Ok(UpdateDetails(games, gameId, name, thumbnail))
  }

  /** Saving the same details twice is the same as saving them once. */
  lemma {:induction false} UpdateDetailsIdempotent(games: seq<Game>, gameId: string, name: string, thumbnail: string)
    ensures UpdateDetails(UpdateDetails(games, gameId, name, thumbnail), gameId, name, thumbnail)
      == UpdateDetails(games, gameId, name, thumbnail)
    decreases |games|
  {
    if games != [] {
      UpdateDetailsIdempotent(games[1..], gameId, name, thumbnail);
      var r := UpdateDetails(games, gameId, name, thumbnail);
      assert r[1..] == UpdateDetails(games[1..], gameId, name, thumbnail);
    }
  }

  /** After loading, saving the details keeps the cached questions of the edited game: they
      are written to the store with the new name and thumbnail. */
  lemma SaveDetailsAfterLoad(stored: Listish<Game>, gameId: string, cached: Option<Listish<Question>>,
                             name: string, thumbnail: string)
    requires FetchGame(stored, gameId, cached).Ok?
    ensures var l := FetchGame(stored, gameId, cached).value;
      var gi := FindIndex(stored.items, gameId).value;
      UpdateDetails(l.allGames, gameId, name, thumbnail)[gi]
        == stored.items[gi].(name := name, thumbnail := thumbnail, questions := CachedQuestions(cached))
  {
    var l := FetchGame(stored, gameId, cached).value;
    UpdateDetailsLocal(l.allGames, gameId, name, thumbnail);
  }

  /** Renaming a game whose questions are not cached locally writes an empty question list
      for it, whatever the store held. */
  lemma RenameWithoutCacheClearsQuestions(q: Question)
    ensures var stored := Items([Game("1", "Quiz", None, "", None, Items([q]))]);
      var l := FetchGame(stored, "1", None).value;
      && UpdateDetails(l.allGames, "1", "Renamed", "")
         == [Game("1", "Renamed", None, "", None, Items([]))]
  {
    var stored := Items([Game("1", "Quiz", None, "", None, Items([q]))]);
    var l := FetchGame(stored, "1", None).value;
    assert l.allGames == [Game("1", "Quiz", None, "", None, Items([]))];
    assert l.allGames[1..] == [];
  }

  /** The start index `splice(start, 1)` uses: a negative start counts from the end, and
      the result is clamped to the list. */
  function SpliceStart(n: nat, start: int): (k: nat)
    ensures k <= n
    ensures 0 <= start <= n ==> k == start
    ensures start > n ==> k == n
    ensures start < 0 ==> k == if n + start < 0 then 0 else n + start
  {
    if start < 0 then (if n + start < 0 then 0 else n + start)
    else if start > n then n
    else start
  }

  /** The list `splice(start, 1)` leaves: the element at the start index is removed, if
      there is one. */
  function SpliceOne<T>(s: seq<T>, start: int): seq<T> {
    var k := SpliceStart(|s|, start);
    if k < |s| then s[..k] + s[k + 1..] else s
  }

  /** Deleting an index inside the list removes exactly that element and keeps the others
      in order; an index at or past the end leaves the list as it is; a negative index
      counts from the end. */
  lemma SpliceOneRemoves<T>(s: seq<T>, i: int)
    ensures 0 <= i < |s| ==> var r := SpliceOne(s, i);
      && |r| == |s| - 1
      && (forall j :: 0 <= j < i ==> r[j] == s[j])
      && (forall j :: i <= j < |r| ==> r[j] == s[j + 1])
    ensures i >= |s| ==> SpliceOne(s, i) == s
    ensures -|s| <= i < 0 ==> SpliceOne(s, i) == SpliceOne(s, |s| + i)
  {
    if 0 <= i < |s| {
      assert SpliceStart(|s|, i) == i;
      assert SpliceOne(s, i) == s[..i] + s[i + 1..];
    } else if -|s| <= i < 0 {
      assert SpliceStart(|s|, i) == SpliceStart(|s|, |s| + i);
    }
  }

  /** Deleting an index inside the list loses exactly that element. */
  lemma SpliceOnePermutes<T>(s: seq<T>, i: int)
    requires 0 <= i < |s|
    ensures multiset(SpliceOne(s, i)) + multiset{s[i]} == multiset(s)
  {
    assert SpliceStart(|s|, i) == i;
    assert s == s[..i] + [s[i]] + s[i + 1..];
  }

  /** A list whose elements from `k` on are those of `s` moved down by one, cut to one
      element shorter, is `s` without position `k`. */
  lemma ShiftedDown<T>(s: seq<T>, b: seq<T>, k: nat)
    requires k < |s| == |b|
    requires forall m :: 0 <= m < k ==> b[m] == s[m]
    requires forall m :: k <= m < |s| - 1 ==> b[m] == s[m + 1]
    ensures b[..|s| - 1] == s[..k] + s[k + 1..]
  {
    var spec := s[..k] + s[k + 1..];
    forall m | 0 <= m < |spec| ensures b[..|s| - 1][m] == spec[m] {
      if m < k { assert spec[m] == s[m]; } else { assert spec[m] == s[m + 1]; }
    }
  }

  /** `questions.splice(index, 1)` on a copy of the list: the elements after the removed one
      move down by one. */
  method DeleteQuestion(questions: seq<Question>, index: int) returns (r: seq<Question>)
    ensures r == SpliceOne(questions, index)
  {
    var n := |questions|;
    var k := SpliceStart(n, index);
    if k == n {
      return questions;
    }
    var a := new Question[n](i requires 0 <= i < n => questions[i]);
    var j := k;
    while j < n - 1
      invariant k <= j <= n - 1
      invariant forall m :: 0 <= m < k ==> a[m] == questions[m]
      invariant forall m :: k <= m < j ==> a[m] == questions[m + 1]
      invariant forall m :: j <= m < n ==> a[m] == questions[m]
    {
      a[j] := a[j + 1];
      j := j + 1;
    }
    ShiftedDown(questions, a[..], k);
    r := a[..n - 1];
  }

  /** `allGames.map(g => g.id == gameId ? {...g, questions} : g)`. */
  function ReplaceQuestions(games: seq<Game>, gameId: string, questions: seq<Question>): (r: seq<Game>)
    ensures |r| == |games|
    decreases |games|
  {
    if games == [] then []
    else
      var g := if games[0].id == gameId then games[0].(questions := Items(questions)) else games[0];
      [g] + ReplaceQuestions(games[1..], gameId, questions)
  }

  /** Only the games with the edited id receive the new list; every other game is unchanged. */
  lemma {:induction false} ReplaceQuestionsLocal(games: seq<Game>, gameId: string, questions: seq<Question>)
    ensures var r := ReplaceQuestions(games, gameId, questions);
      && |r| == |games|
      && (forall k :: 0 <= k < |games| && games[k].id == gameId ==>
            r[k] == games[k].(questions := Items(questions)))
      && (forall k :: 0 <= k < |games| && games[k].id != gameId ==> r[k] == games[k])
    decreases |games|
  {
    if games != [] {
      ReplaceQuestionsLocal(games[1..], gameId, questions);
    }
  }

  /** Renaming and replacing the questions touch different fields, so their order does not
      matter. */
  lemma {:induction false} DetailsAndQuestionsCommute(games: seq<Game>, gameId: string, name: string,
                                                      thumbnail: string, questions: seq<Question>)
    ensures UpdateDetails(ReplaceQuestions(games, gameId, questions), gameId, name, thumbnail)
      == ReplaceQuestions(UpdateDetails(games, gameId, name, thumbnail), gameId, questions)
    decreases |games|
  {
    if games != [] {
      DetailsAndQuestionsCommute(games[1..], gameId, name, thumbnail, questions);
      var a := ReplaceQuestions(games, gameId, questions);
      var b := UpdateDetails(games, gameId, name, thumbnail);
      assert a[1..] == ReplaceQuestions(games[1..], gameId, questions);
      assert b[1..] == UpdateDetails(games[1..], gameId, name, thumbnail);
    }
  }

  /** What deleting a question writes: the list PUT to the store and the entry cached for
      the game. */
  datatype DeleteOutput = DeleteOutput(games: seq<Game>, cached: Game)

  /** `handleDeleteQuestion`: the page must hold the game and the game list; the game's
      questions (none when they are not an array) lose the deleted one, and that list goes
      to every game with the edited id and to the local cache. */
  method HandleDeleteQuestion(game: Option<Game>, allGames: Listish<Game>, gameId: string, index: int)
    returns (r: Result<DeleteOutput>)
    ensures game.None? ==> r == Err(GameNotAvailable)
    ensures game.Some? && allGames.NotArray? ==> r == Err(NoGamesData)
    ensures game.Some? && allGames.Items? ==> r.Ok?
    ensures r.Ok? ==> var questions := SpliceOne(AsArray(game.value.questions), index);
      && r.value.games == ReplaceQuestions(allGames.items, gameId, questions)
      && r.value.cached == game.value.(questions := Items(questions))
  {
    if game.None? {
      return Err(GameNotAvailable);
    }
    if allGames.NotArray? {
      return Err(NoGamesData);
    }
    var questions := DeleteQuestion(AsArray(game.value.questions), index);
    r := Ok(DeleteOutput(ReplaceQuestions(allGames.items, gameId, questions),
                         game.value.(questions := Items(questions))));
  }

  /** `game.questions?.length || 0`. */
  function QuestionCount(questions: Listish<Question>): (n: nat)
    ensures questions.Items? ==> n == |questions.items|
    ensures questions.NotArray? ==> n == 0
  {
    |AsArray(questions)|
  }

  /** `game.questions?.reduce(...)`: the summed time limits. The cached questions can only be
      a non-array that is not null (`?? []` replaced null), and `?.` does not guard against
      that, so the render throws; `?.map` over the question cards throws the same way. */
  function ShownTotalTime(questions: Listish<Question>): (r: Result<int>)
    ensures questions.Items? <==> r.Ok?
    ensures questions.NotArray? ==> r == Err(ReduceNotAFunction)
    ensures r.Ok? ==> r.value == TotalTime(questions.items)
  {
    match questions
    case Items(qs) => Ok(TotalTime(qs))
    case NotArray => Err(ReduceNotAFunction)
  }

  /** The total time, split around position `i`. */
  lemma TotalTimeAround(qs: seq<Question>, i: nat)
    requires i < |qs|
    ensures TotalTime(qs) == TotalTime(qs[..i]) + NumOr(qs[i].timeLimit, 0) + TotalTime(qs[i + 1..])
  {
    var tail := qs[i..];
    assert qs == qs[..i] + tail;
    TotalTimeAppend(qs[..i], tail);
    assert tail[1..] == qs[i + 1..];
  }

  /** Deleting a question lowers the count by one and the total time by that question's
      time limit. */
  lemma DeleteUpdatesStatistics(questions: seq<Question>, i: nat)
    requires i < |questions|
    ensures QuestionCount(Items(SpliceOne(questions, i))) == |questions| - 1
    ensures ShownTotalTime(Items(SpliceOne(questions, i))).value
      == TotalTime(questions) - NumOr(questions[i].timeLimit, 0)
  {
    var front, back := questions[..i], questions[i + 1..];
    var after := SpliceOne(questions, i);
    SpliceAtIndex(questions, i);
    assert |after| == |questions| - 1;
    TotalTimeAround(questions, i);
    TotalTimeAppend(front, back);
    assert TotalTime(after) == TotalTime(questions) - NumOr(questions[i].timeLimit, 0);
    assert ShownTotalTime(Items(after)) == Ok(TotalTime(after));
  }

  /** With a start inside the list, `splice(i, 1)` leaves the parts before and after `i`. */
  lemma SpliceAtIndex<T>(s: seq<T>, i: nat)
    requires i < |s|
    ensures SpliceOne(s, i) == s[..i] + s[i + 1..]
  {
    assert SpliceStart(|s|, i) == i;
  }
}
