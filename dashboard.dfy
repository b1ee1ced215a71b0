/** The dashboard: the list of games as cards, deleting a game and creating one. */
module Dashboard {
  import opened Wrappers
  import opened Text
  import opened Catalog

  const GamesNotArray := "Games data is not an array"
  const NameRequired := "Game name cannot be empty"
  const PlaceholderThumbnail := "https://placehold.co/300x140?text=No+Image"

  /** `fetchGames`: a non-array game list becomes the empty list and every game's
      non-array questions become the empty list. */
  function SafeGames(stored: Listish<Game>): (r: seq<Game>)
    ensures |r| == |AsArray(stored)|
    ensures forall k :: 0 <= k < |r| ==> r[k] == AsArray(stored)[k].(questions := Items(AsArray(AsArray(stored)[k].questions)))
  {
    var games := AsArray(stored);
    seq(|games|, k requires 0 <= k < |games| => games[k].(questions := Items(AsArray(games[k].questions))))
  }

  /** After normalisation every game holds an array of questions, a game whose questions
      were already an array is kept as it was, and normalising again changes nothing. */
  lemma SafeGamesNormalises(stored: Listish<Game>)
    ensures forall k :: 0 <= k < |SafeGames(stored)| ==> SafeGames(stored)[k].questions.Items?
    ensures forall k :: 0 <= k < |SafeGames(stored)| && AsArray(stored)[k].questions.Items? ==>
      SafeGames(stored)[k] == AsArray(stored)[k]
    ensures forall k :: 0 <= k < |SafeGames(stored)| ==>
      var g, h := SafeGames(stored)[k], AsArray(stored)[k];
      g.id == h.id && g.name == h.name && g.owner == h.owner && g.thumbnail == h.thumbnail && g.active == h.active
    ensures SafeGames(Items(SafeGames(stored))) == SafeGames(stored)
    ensures stored.NotArray? ==> SafeGames(stored) == []
  {
  }

  /** `games.filter(game => game.id != id)`. */
  function Without(games: seq<Game>, id: string): seq<Game>
    decreases |games|
  {
    if games == [] then []
    else (if games[0].id != id then [games[0]] else []) + Without(games[1..], id)
  }

  /** A game survives the delete exactly when it was in the list and its id differs. */
  lemma {:induction false} WithoutMembers(games: seq<Game>, id: string, g: Game)
    ensures g in Without(games, id) <==> g in games && g.id != id
    decreases |games|
  {
    if games != [] {
      WithoutMembers(games[1..], id, g);
      assert games == [games[0]] + games[1..];
    }
  }

  /** The filter works element by element, so the kept games stay in their order. */
  lemma {:induction false} WithoutAppend(a: seq<Game>, b: seq<Game>, id: string)
    ensures Without(a + b, id) == Without(a, id) + Without(b, id)
    decreases |a|
  {
    if a == [] {
      assert a + b == b;
    } else {
      assert (a + b)[1..] == a[1..] + b;
      WithoutAppend(a[1..], b, id);
    }
  }

  /** Deleting an id no game has leaves the list as it is. */
  lemma {:induction false} WithoutAbsent(games: seq<Game>, id: string)
    requires forall k :: 0 <= k < |games| ==> games[k].id != id
    ensures Without(games, id) == games
    decreases |games|
  {
    if games != [] {
      assert forall k :: 0 <= k < |games[1..]| ==> games[1..][k].id == games[k + 1].id;
      WithoutAbsent(games[1..], id);
      assert games == [games[0]] + games[1..];
    }
  }

  /** Deleting the same id twice is deleting it once. */
  lemma {:induction false} WithoutTwice(games: seq<Game>, id: string)
    ensures Without(Without(games, id), id) == Without(games, id)
    decreases |games|
  {
    if games != [] {
      WithoutTwice(games[1..], id);
      var rest := Without(games[1..], id);
      if games[0].id != id {
        var w := [games[0]] + rest;
        assert w[0] == games[0] && w[1..] == rest;
        assert Without(games, id) == w;
        assert Without(w, id) == [games[0]] + Without(rest, id);
      } else {
        assert Without(games, id) == [] + rest;
        assert [] + rest == rest;
      }
    }
  }

  /** `handleDeleteGame`: the list to PUT back. */
  function HandleDeleteGame(stored: Listish<Game>, id: string): (r: Result<seq<Game>>)
    ensures stored.NotArray? <==> r == Err(GamesNotArray)
    ensures r.Ok? ==> r.value == Without(stored.items, id)
  {
    match stored
    case NotArray => Err(GamesNotArray)
    case Items(games) => Ok(Without(games, id))
  }

  /** The create dialog: a blank name is rejected before anything is fetched; otherwise a
      game without questions, its id the creation time's decimal digits, is appended to the
      stored games (none when they are not an array). */
  function CreateGame(name: string, thumbnail: string, owner: Option<string>, now: nat, stored: Listish<Game>)
    : (r: Result<seq<Game>>)
    ensures IsBlank(name) <==> r == Err(NameRequired)
    ensures r.Ok? ==> var existing := AsArray(stored);
      && |r.value| == |existing| + 1
      && r.value[..|existing|] == existing
      && r.value[|existing|] == Game(Decimal(now), name, owner, thumbnail, None, Items([]))
  {
    if IsBlank(name) then Err(NameRequired)
    else Ok(AsArray(stored) + [Game(Decimal(now), name, owner, thumbnail, None, Items([]))])
  }

  /** A whitespace-only name is refused, and any other name creates a game. */
  lemma BlankNameRejected(name: string, thumbnail: string, owner: Option<string>, now: nat, stored: Listish<Game>)
    ensures CreateGame(name, thumbnail, owner, now, stored).Err? <==> AllSpace(name)
  {
    TrimEmptyIffBlank(name);
  }

  /** Creating a game then deleting it by its new id gives back the stored games, when no
      stored game had that id. */
  lemma CreateThenDelete(name: string, thumbnail: string, owner: Option<string>, now: nat, games: seq<Game>)
    requires !IsBlank(name)
    requires forall k :: 0 <= k < |games| ==> games[k].id != Decimal(now)
    ensures HandleDeleteGame(Items(CreateGame(name, thumbnail, owner, now, Items(games)).value), Decimal(now))
      == Ok(games)
  {
    var g := Game(Decimal(now), name, owner, thumbnail, None, Items([]));
    assert CreateGame(name, thumbnail, owner, now, Items(games)).value == games + [g];
    WithoutAppend(games, [g], Decimal(now));
    WithoutAbsent(games, Decimal(now));
    assert Without([g], Decimal(now)) == [];
    assert games + [] == games;
  }

  /** What a game's card shows and links to. */
  datatype Card = Card(
    name: string,
    image: string,
    questionCount: nat,
    totalTime: int,
    active: bool,
    editTarget: string)

  /** A session id of 0 or none is falsy: the card then offers Start rather than Stop. */
  predicate IsActive(g: Game) {
    NumOr(g.active, 0) != 0
  }

  /** The card of one game, after normalisation. */
  function CardOf(g: Game): (c: Card)
    ensures c.editTarget == "/game/" + g.id
    ensures c.questionCount == |AsArray(g.questions)| && c.totalTime == TotalTime(AsArray(g.questions))
    ensures c.image == (if g.thumbnail == "" then PlaceholderThumbnail else g.thumbnail)
    ensures c.active <==> g.active.Some? && g.active.value != 0
  {
    Card(g.name, if g.thumbnail == "" then PlaceholderThumbnail else g.thumbnail,
         |AsArray(g.questions)|, TotalTime(AsArray(g.questions)), IsActive(g), "/game/" + g.id)
  }

  /** `games.map(game => <Card ...>)`: one card, with one Edit button, per game. */
  function Cards(games: seq<Game>): (r: seq<Card>)
    ensures |r| == |games|
    ensures forall k :: 0 <= k < |games| ==> r[k] == CardOf(games[k])
  {
    seq(|games|, k requires 0 <= k < |games| => CardOf(games[k]))
  }

  /** Each card's Edit button opens its own game, so distinct games have distinct targets. */
  lemma EditTargetsFollowIds(games: seq<Game>, i: nat, j: nat)
    requires i < |games| && j < |games|
    ensures Cards(games)[i].editTarget == Cards(games)[j].editTarget <==> games[i].id == games[j].id
  {
    var p := "/game/";
    if Cards(games)[i].editTarget == Cards(games)[j].editTarget {
      assert (p + games[i].id)[|p|..] == games[i].id;
      assert (p + games[j].id)[|p|..] == games[j].id;
    }
  }

  /** The dashboard on two stored games with time limits 30 + 20 and 15 shows two cards,
      with two and one questions and 50 and 15 seconds. */
  lemma TwoGamesTwoCards()
    ensures var q := (t: int) => Question(None, "", Some(t), None, None, None, []);
      var stored := Items([Game("1", "Sample Game 1", None, "", None, Items([q(30), q(20)])),
                           Game("2", "Sample Game 2", None, "", None, Items([q(15)]))]);
      var cards := Cards(SafeGames(stored));
      && |cards| == 2
      && cards[0].questionCount == 2 && cards[0].totalTime == 50
      && cards[1].questionCount == 1 && cards[1].totalTime == 15
  {
    var q := (t: int) => Question(None, "", Some(t), None, None, None, []);
    assert [q(30), q(20)][1..] == [q(20)];
    assert TotalTime([q(20)]) == 20;
    assert TotalTime([q(15)]) == 15;
  }
}
