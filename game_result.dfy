/** A player's own results page: one row per answer with its score and time taken. */
module GameResult {
  import opened Wrappers
  import Session

  /** A table row. `timeTaken` is `None` for the '-' shown when a timestamp is missing. */
  datatype Row = Row(heading: string, correct: bool, score: int, timeTaken: Option<int>)

  /** `Math.round(ms / 1000)`: the nearest whole second, halves rounded up. */
  function RoundToSeconds(ms: int): (s: int)
    ensures s * 1000 - 500 <= ms < s * 1000 + 500
  {
    (ms + 500) / 1000
  }

  /** The time taken for one answer, when both timestamps are present and not falsy. */
  function TimeTaken(a: Session.Answer): (r: Option<int>)
    ensures r.Some? <==> a.answeredAt.Some? && a.questionStartedAt.Some?
    ensures r.Some? ==> var ms := a.answeredAt.value - a.questionStartedAt.value;
      r.value * 1000 - 500 <= ms < r.value * 1000 + 500
  {
    if a.answeredAt.Some? && a.questionStartedAt.Some? then
      Some(RoundToSeconds(a.answeredAt.value - a.questionStartedAt.value))
    else None
  }

  /** `result.answers.map((answer, index) => ...)`. */
  function Rows(answers: seq<Session.Answer>): (r: seq<Row>)
    ensures |r| == |answers|
  {
    seq(|answers|, i requires 0 <= i < |answers| =>
      Row(Session.Label(i), answers[i].correct,
          if answers[i].correct then Session.PointsPerCorrect else 0, TimeTaken(answers[i])))
  }

  /** Row `i` is labelled Q{i+1} and scores 100 exactly when the answer is correct, else 0. */
  lemma RowShape(answers: seq<Session.Answer>, i: nat)
    requires i < |answers|
    ensures var row := Rows(answers)[i];
      && row.heading == Session.Label(i)
      && row.correct == answers[i].correct
      && (row.score == 100 <==> answers[i].correct)
      && (row.score == 0 <==> !answers[i].correct)
      && (row.timeTaken.None? <==> answers[i].answeredAt.None? || answers[i].questionStartedAt.None?)
  {
  }

  /** No two rows share a label, so rows follow answers one to one, in order. */
  lemma RowLabelsDistinct(answers: seq<Session.Answer>, i: nat, j: nat)
    requires i < j < |answers|
    ensures Rows(answers)[i].heading != Rows(answers)[j].heading
  {
    Session.LabelInjective(i, j);
  }

  function SumScores(rows: seq<Row>): int
    decreases |rows|
  {
    if rows == [] then 0 else rows[0].score + SumScores(rows[1..])
  }

  /** The rows of a player's page add up to the score the host's leaderboard gives them. */
  lemma {:induction false} RowsSumToScore(p: Session.PlayerResult)
    ensures SumScores(Rows(p.answers)) == Session.Score(p)
  {
    RowsSumToCount(p.answers);
  }

  lemma {:induction false} RowsSumToCount(answers: seq<Session.Answer>)
    ensures SumScores(Rows(answers)) == Session.PointsPerCorrect * Session.CorrectCount(answers)
    decreases |answers|
  {
    if answers != [] {
      RowsSumToCount(answers[1..]);
      var r, t := Rows(answers), Rows(answers[1..]);
      assert r[1..] == RowsShifted(answers);
      ShiftedScores(answers);
    }
  }

  /** The rows after the first, as `Rows` would build them for the remaining answers but
      labelled from Q2 on. */
  function RowsShifted(answers: seq<Session.Answer>): seq<Row>
    requires answers != []
  {
    seq(|answers| - 1, i requires 0 <= i < |answers| - 1 =>
      Row(Session.Label(i + 1), answers[i + 1].correct,
          if answers[i + 1].correct then Session.PointsPerCorrect else 0, TimeTaken(answers[i + 1])))
  }

  lemma {:induction false} ShiftedScores(answers: seq<Session.Answer>)
    requires answers != []
    ensures SumScores(RowsShifted(answers)) == SumScores(Rows(answers[1..]))
  {
    SameScoresSameSum(RowsShifted(answers), Rows(answers[1..]));
  }

  lemma {:induction false} SameScoresSameSum(a: seq<Row>, b: seq<Row>)
    requires |a| == |b| && forall i :: 0 <= i < |a| ==> a[i].score == b[i].score
    ensures SumScores(a) == SumScores(b)
    decreases |a|
  {
    if a != [] {
      SameScoresSameSum(a[1..], b[1..]);
    }
  }
}
