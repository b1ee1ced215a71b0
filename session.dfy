/** The host's session results page: each player's score, the top-five leaderboard, and the
    per-question accuracy and average response time charts. */
module Session {
  import opened Wrappers
  import opened Text

  /** A player's answer to one question, as the results endpoint returns it. Timestamps are
      in milliseconds; `None` is a missing or falsy timestamp. */
  datatype Answer = Answer(correct: bool, questionStartedAt: Option<int>, answeredAt: Option<int>)

  /** One player's results. A question the player has no answer for lies past the end of `answers`. */
  datatype PlayerResult = PlayerResult(name: string, answers: seq<Answer>)

  /** A leaderboard row. */
  datatype Standing = Standing(name: string, score: int)

  /** A chart value `num / den`; the page divides by `den`, so it is defined only when `den > 0`. */
  datatype Fraction = Fraction(num: int, den: nat)

  const PointsPerCorrect := 100
  const Percent := 100
  const LeaderboardSize := 5

  /** `answers.filter(a => a.correct).length`. */
  function CorrectCount(answers: seq<Answer>): (n: nat)
    ensures n <= |answers|
    decreases |answers|
  {
    if answers == [] then 0 else (if answers[0].correct then 1 else 0) + CorrectCount(answers[1..])
  }

  /** Flat scoring: 100 points per answer flagged correct, whatever the question's points. */
  function Score(p: PlayerResult): (s: int)
    ensures 0 <= s <= PointsPerCorrect * |p.answers| && s % PointsPerCorrect == 0
  {
    CorrectCount(p.answers) * PointsPerCorrect
  }

  /** `results.map(p => ({name, score}))`. */
  function Standings(results: seq<PlayerResult>): (r: seq<Standing>)
    ensures |r| == |results|
    ensures forall k :: 0 <= k < |results| ==> r[k] == Standing(results[k].name, Score(results[k]))
  {
    seq(|results|, k requires 0 <= k < |results| => Standing(results[k].name, Score(results[k])))
  }

  predicate SortedByScore(s: seq<Standing>) {
    forall i, j :: 0 <= i < j < |s| ==> s[i].score >= s[j].score
  }

  /** Inserts `x` before the first standing whose score is not above its own. */
  function Insert(x: Standing, t: seq<Standing>): seq<Standing>
    decreases |t|
  {
    if t == [] || x.score >= t[0].score then [x] + t else [t[0]] + Insert(x, t[1..])
  }

  /** `sort((a, b) => b.score - a.score)`: a stable sort by score, highest first. */
  function SortByScore(s: seq<Standing>): seq<Standing>
    decreases |s|
  {
    if s == [] then [] else Insert(s[0], SortByScore(s[1..]))
  }

  lemma SortedTail(t: seq<Standing>)
    requires t != [] && SortedByScore(t)
    ensures SortedByScore(t[1..])
  {
    forall i, j | 0 <= i < j < |t[1..]| ensures t[1..][i].score >= t[1..][j].score {
      assert t[1..][i] == t[i + 1] && t[1..][j] == t[j + 1];
    }
  }

  lemma SortedCons(h: Standing, u: seq<Standing>)
    requires SortedByScore(u) && (u != [] ==> h.score >= u[0].score)
    ensures SortedByScore([h] + u)
  {
    forall i, j | 0 <= i < j < |[h] + u| ensures ([h] + u)[i].score >= ([h] + u)[j].score {
      if i == 0 && j > 1 { assert u[0].score >= u[j - 1].score; }
    }
  }

  lemma {:induction false} InsertSorted(x: Standing, t: seq<Standing>)
    requires SortedByScore(t)
    ensures SortedByScore(Insert(x, t))
    ensures Insert(x, t) != [] && (Insert(x, t)[0] == x || (t != [] && Insert(x, t)[0] == t[0]))
    decreases |t|
  {
    if t != [] && x.score < t[0].score {
      SortedTail(t);
      InsertSorted(x, t[1..]);
      var u := Insert(x, t[1..]);
      assert u[0] == x || u[0] == t[1];
      SortedCons(t[0], u);
    } else {
      SortedCons(x, t);
    }
  }

  lemma {:induction false} InsertPermutes(x: Standing, t: seq<Standing>)
    ensures multiset(Insert(x, t)) == multiset(t) + multiset{x}
    ensures |Insert(x, t)| == |t| + 1
    decreases |t|
  {
    if t != [] && x.score < t[0].score {
      InsertPermutes(x, t[1..]);
      assert t == [t[0]] + t[1..];
    }
  }

  /** The sort orders by score, highest first, and is a permutation of its input. */
  lemma {:induction false} SortByScoreCorrect(s: seq<Standing>)
    ensures SortedByScore(SortByScore(s))
    ensures multiset(SortByScore(s)) == multiset(s)
    ensures |SortByScore(s)| == |s|
    decreases |s|
  {
    if s != [] {
      SortByScoreCorrect(s[1..]);
      InsertSorted(s[0], SortByScore(s[1..]));
      InsertPermutes(s[0], SortByScore(s[1..]));
      assert s == [s[0]] + s[1..];
    }
  }

  /** The standings with score `v`, in their order. */
  function WithScore(s: seq<Standing>, v: int): seq<Standing>
    decreases |s|
  {
    if s == [] then [] else (if s[0].score == v then [s[0]] else []) + WithScore(s[1..], v)
  }

  lemma WithScoreCons(h: Standing, u: seq<Standing>, v: int)
    ensures WithScore([h] + u, v) == (if h.score == v then [h] else []) + WithScore(u, v)
  {
    assert ([h] + u)[0] == h && ([h] + u)[1..] == u;
  }

  lemma {:induction false} InsertStable(x: Standing, t: seq<Standing>, v: int)
    ensures WithScore(Insert(x, t), v) == (if x.score == v then [x] else []) + WithScore(t, v)
    decreases |t|
  {
    if t != [] && x.score < t[0].score {
      var u := Insert(x, t[1..]);
      InsertStable(x, t[1..], v);
      WithScoreCons(t[0], u, v);
      WithScoreCons(t[0], t[1..], v);
      assert [t[0]] + t[1..] == t;
    } else {
      WithScoreCons(x, t, v);
    }
  }

  /** Stability: players with equal scores keep their order in the results. */
  lemma {:induction false} SortByScoreStable(s: seq<Standing>, v: int)
    ensures WithScore(SortByScore(s), v) == WithScore(s, v)
    decreases |s|
  {
    if s != [] {
      SortByScoreStable(s[1..], v);
      InsertStable(s[0], SortByScore(s[1..]), v);
    }
  }

  /** `slice(0, 5)`. */
  function Take<T>(s: seq<T>, n: nat): (r: seq<T>)
    ensures |r| == if |s| < n then |s| else n
    ensures r == s[..|r|]
  {
    if |s| < n then s else s[..n]
  }

  /** The leaderboard: players by score, highest first, at most five. */
  function TopUsers(results: seq<PlayerResult>): seq<Standing> {
    Take(SortByScore(Standings(results)), LeaderboardSize)
  }

  lemma PrefixPart<T>(s: seq<T>, n: nat)
    requires n <= |s|
    ensures multiset(s) == multiset(s[..n]) + multiset(s[n..])
  {
    assert s == s[..n] + s[n..];
  }

  /** Every leaderboard row is the standing of some player. */
  lemma TopUsersFromResults(results: seq<PlayerResult>, k: nat)
    requires k < |TopUsers(results)|
    ensures exists j :: 0 <= j < |results| && TopUsers(results)[k] == Standing(results[j].name, Score(results[j]))
  {
    var all := Standings(results);
    SortByScoreCorrect(all);
    var sorted := SortByScore(all);
    assert TopUsers(results)[k] == sorted[k];
    assert sorted[k] in multiset(all);
    var j :| 0 <= j < |all| && all[j] == sorted[k];
  }

  /** The leaderboard has min(5, players) rows, ordered by score and drawn from the
      standings without repetition. */
  lemma TopUsersShape(results: seq<PlayerResult>)
    ensures var top := TopUsers(results);
      && |top| == (if |results| < LeaderboardSize then |results| else LeaderboardSize)
      && SortedByScore(top)
      && multiset(top) <= multiset(Standings(results))
  {
    var sorted := SortByScore(Standings(results));
    SortByScoreCorrect(Standings(results));
    var top := TopUsers(results);
    PrefixPart(sorted, |top|);
    assert top == sorted[..|top|];
  }

  /** Nobody left off the leaderboard scores more than its last row. */
  lemma TopUsersCutOff(results: seq<PlayerResult>, e: Standing)
    requires e in multiset(Standings(results)) - multiset(TopUsers(results))
    ensures e.score <= TopUsers(results)[|TopUsers(results)| - 1].score
  {
    var sorted := SortByScore(Standings(results));
    SortByScoreCorrect(Standings(results));
    var top := TopUsers(results);
    var n := |top|;
    PrefixPart(sorted, n);
    assert top == sorted[..n];
    assert multiset(Standings(results)) == multiset(top) + multiset(sorted[n..]);
    assert e in multiset(sorted[n..]);
    var m :| 0 <= m < |sorted[n..]| && sorted[n..][m] == e;
    assert sorted[n + m] == e;
    assert sorted[n - 1] == top[n - 1];
  }

  /** The leaderboard has min(5, players) rows ordered by score, drawn from the standings
      without repetition, and nobody left out scores more than its last row. */
  lemma TopUsersCorrect(results: seq<PlayerResult>)
    ensures var top := TopUsers(results);
      && |top| == (if |results| < LeaderboardSize then |results| else LeaderboardSize)
      && SortedByScore(top)
      && multiset(top) <= multiset(Standings(results))
      && (forall e :: e in multiset(Standings(results)) - multiset(top) ==> e.score <= top[|top| - 1].score)
  {
    TopUsersShape(results);
    forall e: Standing | e in multiset(Standings(results)) - multiset(TopUsers(results))
      ensures e.score <= TopUsers(results)[|TopUsers(results)| - 1].score
    {
      TopUsersCutOff(results, e);
    }
  }

  /** Equal scores on the leaderboard appear in the players' result order. */
  lemma TopUsersStable(results: seq<PlayerResult>, v: int)
    ensures var all := SortByScore(Standings(results));
      WithScore(all, v) == WithScore(Standings(results), v) && TopUsers(results) == all[..|TopUsers(results)|]
  {
    SortByScoreStable(Standings(results), v);
  }

  /** `p.answers[i]?.correct`: the player has an answer at `i` and it is correct. */
  predicate CorrectAt(p: PlayerResult, i: nat) {
    i < |p.answers| && p.answers[i].correct
  }

  /** `results.filter(p => p.answers[i]?.correct).length`. */
  function CorrectPlayers(results: seq<PlayerResult>, i: nat): (n: nat)
    ensures n <= |results|
    decreases |results|
  {
    if results == [] then 0
    else (if CorrectAt(results[0], i) then 1 else 0) + CorrectPlayers(results[1..], i)
  }

  /** The count over two groups of players is the sum of their counts. */
  lemma {:induction false} CorrectPlayersAppend(a: seq<PlayerResult>, b: seq<PlayerResult>, i: nat)
    ensures CorrectPlayers(a + b, i) == CorrectPlayers(a, i) + CorrectPlayers(b, i)
    decreases |a|
  {
    if a == [] {
      assert a + b == b;
    } else {
      assert (a + b)[1..] == a[1..] + b;
      CorrectPlayersAppend(a[1..], b, i);
    }
  }

  /** One player counts exactly when their answer at `i` exists and is correct; the count is
      0 exactly when nobody is correct there and all players exactly when everybody is. */
  lemma {:induction false} CorrectPlayersCounts(results: seq<PlayerResult>, i: nat)
    ensures |results| == 1 ==> CorrectPlayers(results, i) == if CorrectAt(results[0], i) then 1 else 0
    ensures CorrectPlayers(results, i) == 0 <==> forall k :: 0 <= k < |results| ==> !CorrectAt(results[k], i)
    ensures CorrectPlayers(results, i) == |results| <==> forall k :: 0 <= k < |results| ==> CorrectAt(results[k], i)
    decreases |results|
  {
    if results != [] {
      var tail := results[1..];
      CorrectPlayersCounts(tail, i);
      assert CorrectPlayers(results, i) == (if CorrectAt(results[0], i) then 1 else 0) + CorrectPlayers(tail, i);
      assert forall k :: 1 <= k < |results| ==> results[k] == tail[k - 1];
      if |results| == 1 {
        assert tail == [];
      }
    }
  }

  /** The accuracy chart: for each question, 100 times the players correct there, over the
      number of all players, including those with no answer at that question. */
  function Accuracy(results: seq<PlayerResult>, questionCount: nat): (r: seq<Fraction>)
    ensures |r| == questionCount
    ensures forall i :: 0 <= i < questionCount ==>
      r[i] == Fraction(Percent * CorrectPlayers(results, i), |results|)
    ensures forall i :: 0 <= i < questionCount ==> 0 <= r[i].num <= Percent * r[i].den
  {
    seq(questionCount, i requires 0 <= i < questionCount =>
      Fraction(Percent * CorrectPlayers(results, i), |results|))
  }

  /** Player `p` has an answer at question `i` carrying both timestamps. */
  predicate Timed(p: PlayerResult, i: nat) {
    i < |p.answers| && p.answers[i].questionStartedAt.Some? && p.answers[i].answeredAt.Some?
  }

  /** A player's response time at question `i` in milliseconds: 0 when the answer or either
      timestamp is missing. */
  function ResponseTime(p: PlayerResult, i: nat): int {
    if Timed(p, i) then p.answers[i].answeredAt.value - p.answers[i].questionStartedAt.value
    else 0
  }

  function TotalResponseTime(results: seq<PlayerResult>, i: nat): int
    decreases |results|
  {
    if results == [] then 0 else ResponseTime(results[0], i) + TotalResponseTime(results[1..], i)
  }

  /** Players with an answer and both timestamps at question `i`, in order. */
  function Responders(results: seq<PlayerResult>, i: nat): (r: seq<PlayerResult>)
    ensures |r| <= |results|
    decreases |results|
  {
    if results == [] then []
    else (if Timed(results[0], i) then [results[0]] else []) + Responders(results[1..], i)
  }

  /** The average-time chart in seconds: the summed times over 1000 times the number of all
      players (the display rounding to one decimal is not modelled). */
  function AverageTime(results: seq<PlayerResult>, questionCount: nat): (r: seq<Fraction>)
    ensures |r| == questionCount
    ensures forall i :: 0 <= i < questionCount ==> r[i].den == 1000 * |results|
  {
    seq(questionCount, i requires 0 <= i < questionCount =>
      Fraction(TotalResponseTime(results, i), 1000 * |results|))
  }

  /** The responders are exactly the players with both timestamps. */
  lemma {:induction false} RespondersMembers(results: seq<PlayerResult>, i: nat)
    ensures forall p :: p in Responders(results, i) <==> p in results && Timed(p, i)
    decreases |results|
  {
    if results != [] {
      RespondersMembers(results[1..], i);
      assert results == [results[0]] + results[1..];
      assert forall p :: p in results <==> p == results[0] || p in results[1..];
    }
  }

  /** Players without an answer or a timestamp add 0 to the sum while still counting in the
      divisor: the sum is the responders' sum, the divisor covers everybody. */
  lemma {:induction false} NonRespondersCountAsZero(results: seq<PlayerResult>, i: nat)
    ensures forall p :: !Timed(p, i) ==> ResponseTime(p, i) == 0
    ensures TotalResponseTime(results, i) == TotalResponseTime(Responders(results, i), i)
    decreases |results|
  {
    if results != [] {
      NonRespondersCountAsZero(results[1..], i);
      var rest := Responders(results[1..], i);
      if Timed(results[0], i) {
        assert ([results[0]] + rest)[1..] == rest;
      } else {
        assert Responders(results, i) == rest;
      }
    }
  }

  /** Each point of the average-time chart is the responders' summed time over 1000 times
      the number of all players, responders or not. */
  lemma AverageOverAllPlayers(results: seq<PlayerResult>, questionCount: nat, i: nat)
    requires i < questionCount
    ensures AverageTime(results, questionCount)[i]
      == Fraction(TotalResponseTime(Responders(results, i), i), 1000 * |results|)
  {
    NonRespondersCountAsZero(results, i);
  }

  /** The label of the question at position `i`: `Q{i+1}`. */
  function Label(i: nat): string {
    "Q" + Decimal(i + 1)
  }

  /** Distinct positions have distinct labels. */
  lemma LabelInjective(i: nat, j: nat)
    requires i != j
    ensures Label(i) != Label(j)
  {
    var a, b := Decimal(i + 1), Decimal(j + 1);
    DecimalInjective(i + 1, j + 1);
    assert ("Q" + a)[1..] == a && ("Q" + b)[1..] == b;
  }

  /** The chart labels Q1, Q2, ...: one per question, in order. */
  function Labels(questionCount: nat): (r: seq<string>)
    ensures |r| == questionCount
    ensures forall i :: 0 <= i < questionCount ==> r[i] == Label(i)
  {
    seq(questionCount, i requires 0 <= i < questionCount => Label(i))
  }

  /** No two questions share a label. */
  lemma LabelsDistinct(questionCount: nat, i: nat, j: nat)
    requires i < j < questionCount
    ensures Labels(questionCount)[i] != Labels(questionCount)[j]
  {
    LabelInjective(i, j);
  }

  /** The statistics are rendered only for an inactive session with at least one result. */
  predicate ShowStatistics(active: bool, results: seq<PlayerResult>) {
    !active && |results| > 0
  }

  /** When the statistics are shown every chart value is defined, and each accuracy lies
      between 0 and 100 percent. */
  lemma DisplayedChartsDefined(active: bool, results: seq<PlayerResult>, questionCount: nat)
    requires ShowStatistics(active, results)
    ensures forall i :: 0 <= i < questionCount ==>
      Accuracy(results, questionCount)[i].den > 0 && AverageTime(results, questionCount)[i].den > 0
    ensures forall i :: 0 <= i < questionCount ==>
      0 <= Accuracy(results, questionCount)[i].num <= 100 * Accuracy(results, questionCount)[i].den
  {
  }

  /** Three players on one question: A correct after 5 s, B correct after 18 s, C without an
      answer. The accuracy is 200/3 percent and the average time is 23/3 s, not the 11.5 s
      that averaging over responders only would give. */
  lemma NonResponderScenario()
    ensures var a := PlayerResult("A", [Answer(true, Some(0), Some(5000))]);
      var b := PlayerResult("B", [Answer(true, Some(0), Some(18000))]);
      var c := PlayerResult("C", []);
      && Accuracy([a, b, c], 1) == [Fraction(200, 3)]
      && AverageTime([a, b, c], 1) == [Fraction(23000, 3000)]
      && |Responders([a, b, c], 0)| == 2
  {
    var a := PlayerResult("A", [Answer(true, Some(0), Some(5000))]);
    var b := PlayerResult("B", [Answer(true, Some(0), Some(18000))]);
    var c := PlayerResult("C", []);
    var rs := [a, b, c];
    assert rs[1..] == [b, c] && rs[1..][1..] == [c] && rs[1..][1..][1..] == [];
    assert CorrectPlayers([c], 0) == 0;
    assert CorrectPlayers([b, c], 0) == 1;
    assert CorrectPlayers(rs, 0) == 2;
    assert TotalResponseTime([c], 0) == 0;
    assert TotalResponseTime([b, c], 0) == 18000;
    assert TotalResponseTime(rs, 0) == 23000;
    assert Responders([c], 0) == [];
    assert Responders([b, c], 0) == [b];
  }
}
