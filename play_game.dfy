/** The player's question screen: choosing answers, the payload sent for them, the
    countdown, the bounded retry when the question is not ready, the reveal, and the reset
    of the selection when the session moves to another question. */
module PlayGame {
  import opened Wrappers
  import opened Catalog

  /** The page state the answer handlers read and write. */
  datatype AnswerView = AnswerView(
    answerEnabled: bool,
    countdown: int,
    showAnswer: bool,
    selected: seq<int>,
    correctAnswers: seq<string>)

  /** The guard at the top of handleSelect. */
  predicate InputBlocked(v: AnswerView) {
    !v.answerEnabled || v.countdown <= 0 || v.showAnswer
  }

  /** `s.filter(i => i !== x)`. */
  function Without(s: seq<int>, x: int): (r: seq<int>)
    ensures forall y :: y in r <==> y in s && y != x
    ensures x !in s ==> r == s
    ensures |r| <= |s|
    decreases |s|
  {
    if s == [] then []
    else if s[0] == x then Without(s[1..], x)
    else [s[0]] + Without(s[1..], x)
  }

  /** The filter distributes over concatenation, so it keeps the other indexes in order and
      with their multiplicity. */
  lemma {:induction false} WithoutAppend(a: seq<int>, b: seq<int>, x: int)
    ensures Without(a + b, x) == Without(a, x) + Without(b, x)
    decreases |a|
  {
    if a == [] {
      assert a + b == b;
    } else {
      assert (a + b)[1..] == a[1..] + b;
      WithoutAppend(a[1..], b, x);
    }
  }

  /** Removing an index chosen once deletes exactly that position of the selection and keeps
      the indexes before and after it in order. */
  lemma WithoutOnce(front: seq<int>, x: int, back: seq<int>)
    requires x !in front && x !in back
    ensures Without(front + [x] + back, x) == front + back
  {
    WithoutHead(x, back);
    WithoutAppend(front, [x] + back, x);
    assert front + [x] + back == front + ([x] + back);
  }

  /** Removing `x` from a selection that starts with it and has no other `x` leaves the rest. */
  lemma WithoutHead(x: int, back: seq<int>)
    requires x !in back
    ensures Without([x] + back, x) == back
  {
    assert ([x] + back)[1..] == back;
  }

  /** The multiple-choice step of handleSelect: an index already chosen is removed, a new one
      is appended. */
  function Toggled(s: seq<int>, x: int): seq<int> {
    if x in s then Without(s, x) else s + [x]
  }

  predicate NoDuplicates(s: seq<int>) {
    forall i, j :: 0 <= i < j < |s| ==> s[i] != s[j]
  }

  lemma {:induction false} WithoutKeepsNoDuplicates(s: seq<int>, x: int)
    requires NoDuplicates(s)
    ensures NoDuplicates(Without(s, x))
    decreases |s|
  {
    if s != [] {
      assert NoDuplicates(s[1..]) by {
        forall i, j | 0 <= i < j < |s[1..]| ensures s[1..][i] != s[1..][j] {
          assert s[1..][i] == s[i + 1] && s[1..][j] == s[j + 1];
        }
      }
      WithoutKeepsNoDuplicates(s[1..], x);
      if s[0] != x {
        var w := Without(s[1..], x);
        assert s[0] !in s[1..];
        assert s[0] !in w;
        forall i, j | 0 <= i < j < |[s[0]] + w| ensures ([s[0]] + w)[i] != ([s[0]] + w)[j] {
          if i == 0 {
            assert ([s[0]] + w)[j] == w[j - 1];
            assert w[j - 1] in w;
          }
        }
      }
    }
  }

  /** Toggling flips exactly the membership of `x` and keeps a duplicate-free selection
      duplicate-free. */
  lemma ToggleFlipsOne(s: seq<int>, x: int)
    ensures x in Toggled(s, x) <==> x !in s
    ensures forall y :: y != x ==> (y in Toggled(s, x) <==> y in s)
    ensures NoDuplicates(s) ==> NoDuplicates(Toggled(s, x))
  {
    if NoDuplicates(s) {
      if x in s {
        WithoutKeepsNoDuplicates(s, x);
      } else {
        forall i, j | 0 <= i < j < |s + [x]| ensures (s + [x])[i] != (s + [x])[j] {
          if j == |s| { assert (s + [x])[i] == s[i]; assert s[i] in s; }
        }
      }
    }
  }

  /** Toggling an index that was not chosen, and then toggling it again, restores the
      selection exactly; from any duplicate-free selection it restores the set of choices. */
  lemma ToggleTwice(s: seq<int>, x: int)
    ensures x !in s ==> Toggled(Toggled(s, x), x) == s
    ensures forall y :: y in Toggled(Toggled(s, x), x) <==> y in s
  {
    var t := Toggled(s, x);
    ToggleFlipsOne(s, x);
    ToggleFlipsOne(t, x);
    if x !in s {
      assert x in t;
      assert Without(s + [x], x) == s by {
        WithoutAppend(s, [x], x);
        assert [x][1..] == [];
        assert s + [] == s;
      }
    }
  }

  /** Toggling a chosen index off and on again moves it to the end: the order in which the
      answer texts are submitted can change while the set of choices does not. */
  lemma ToggleTwiceReorders()
    ensures Toggled(Toggled([1, 2], 1), 1) == [2, 1]
  {
    assert Without([1, 2], 1) == [2] by {
      assert [1, 2][1..] == [2];
      assert [2][1..] == [];
    }
    assert Toggled([1, 2], 1) == [2];
  }

  /** handleSelect: nothing changes and nothing is sent while input is blocked; otherwise a
      multiple-choice question toggles the index and every other type (judgement, single, or
      anything else) selects exactly that index, and the new selection is submitted. */
  method HandleSelect(view: AnswerView, qtype: Option<string>, index: int)
    returns (selected: seq<int>, submitted: bool)
    ensures InputBlocked(view) ==> selected == view.selected && !submitted
    ensures !InputBlocked(view) ==> submitted
    ensures !InputBlocked(view) && qtype != Some("multiple") ==> selected == [index]
    ensures !InputBlocked(view) && qtype == Some("multiple") ==>
      selected == Toggled(view.selected, index)
  {
    if InputBlocked(view) {
      return view.selected, false;
    }
    var updated := view.selected;
    var isMultiple := qtype == Some("multiple");
    if qtype == Some("judgement") {
      updated := [index];
    } else if isMultiple {
      if index in updated {
        updated := Without(updated, index);
      } else {
        updated := updated + [index];
      }
    } else {
      updated := [index];
    }
    return updated, true;
  }

  /** The answer payload of submitAnswer: the text of each selected option, in selection
      order. An index outside the option list makes the mapping throw; the error is caught
      and nothing is sent, which is `None`. */
  function AnswerTexts(options: seq<Choice>, selected: seq<int>): (r: Option<seq<string>>)
    ensures r.Some? <==> forall k :: 0 <= k < |selected| ==> 0 <= selected[k] < |options|
    ensures r.Some? ==>
      && |r.value| == |selected|
      && forall k :: 0 <= k < |selected| ==> r.value[k] == options[selected[k]].text
    decreases |selected|
  {
    if selected == [] then Some([])
    else if !(0 <= selected[0] < |options|) then None
    else match AnswerTexts(options, selected[1..])
      case None => None
      case Some(rest) => Some([options[selected[0]].text] + rest)
  }

  /** Selecting a rendered option from a selection of rendered options always yields a
      payload, one text per selected option. */
  lemma SelectionAlwaysSendable(view: AnswerView, qtype: Option<string>, options: seq<Choice>, index: int)
    requires 0 <= index < |options|
    requires forall k :: 0 <= k < |view.selected| ==> 0 <= view.selected[k] < |options|
    ensures qtype == Some("multiple") ==> AnswerTexts(options, Toggled(view.selected, index)).Some?
    ensures AnswerTexts(options, [index]) == Some([options[index].text])
  {
    assert [index][1..] == [];
    assert AnswerTexts(options, [index][1..]) == Some([]);
    assert [options[index].text] + [] == [options[index].text];
    var t := Toggled(view.selected, index);
    ToggleFlipsOne(view.selected, index);
    forall k | 0 <= k < |t| ensures 0 <= t[k] < |options| {
      assert t[k] in t;
      if t[k] != index {
        assert t[k] in view.selected;
        var j :| 0 <= j < |view.selected| && view.selected[j] == t[k];
      }
    }
  }

  /** One step of the countdown interval: with `prev <= 1` the timer is cleared, the correct
      answer is fetched (`stop`) and the display shows 0; otherwise it shows `prev - 1`. */
  datatype Tick = Tick(next: int, stop: bool)

  function CountdownStep(prev: int): (t: Tick)
    ensures t.stop <==> prev <= 1
    ensures t.next == if prev <= 1 then 0 else prev - 1
  {
    if prev <= 1 then Tick(0, true) else Tick(prev - 1, false)
  }

  /** The values the countdown shows, second by second, from `prev` until the timer stops. */
  function CountdownRun(prev: int): (r: seq<int>)
    ensures |r| >= 1
    decreases if prev > 1 then prev else 0
  {
    var t := CountdownStep(prev);
    if t.stop then [t.next] else [t.next] + CountdownRun(t.next)
  }

  /** From a start of `d` the countdown shows d-1, d-2, ..., 0, never a negative value, and
      stops (fetching the correct answer once) after max(d, 1) ticks. */
  lemma {:induction false} CountdownRunShape(d: int)
    ensures |CountdownRun(d)| == if d > 1 then d else 1
    ensures forall k :: 0 <= k < |CountdownRun(d)| ==>
      CountdownRun(d)[k] == if d - 1 - k > 0 then d - 1 - k else 0
    ensures forall k :: 0 <= k < |CountdownRun(d)| ==> CountdownRun(d)[k] >= 0
    ensures CountdownRun(d)[|CountdownRun(d)| - 1] == 0
    decreases if d > 1 then d else 0
  {
    if d > 1 {
      CountdownRunShape(d - 1);
      var r := CountdownRun(d);
      assert r == [d - 1] + CountdownRun(d - 1);
      forall k | 0 <= k < |r| ensures r[k] == if d - 1 - k > 0 then d - 1 - k else 0 {
        if k > 0 { assert r[k] == CountdownRun(d - 1)[k - 1]; }
      }
    }
  }

  /** One poll answer from `/play/{playerId}/question`: the question with its duration, no
      question yet, or a fetch that threw. */
  datatype Response = Ready(question: Question, duration: Option<int>) | NotReady | Threw

  /** The end of fetchQuestion's retries: a loaded question with the countdown it starts, or
      giving up; either way after `attempts` requests. */
  datatype FetchOutcome = Loaded(question: Question, countdown: int, attempts: nat) | GaveUp(attempts: nat)

  const MaxRetries := 5

  /** fetchQuestion(retryCount): `respond(k)` is the answer to request number k. A request
      that finds no question is retried while the retry count is below five. */
  function FetchQuestion(respond: nat -> Response, retryCount: nat): (r: FetchOutcome)
    requires retryCount <= MaxRetries
    ensures retryCount < r.attempts <= MaxRetries + 1
    ensures forall k :: retryCount <= k < r.attempts - 1 ==> respond(k).NotReady?
    ensures r.Loaded? <==> respond(r.attempts - 1).Ready?
    ensures r.Loaded? ==>
      && r.question == respond(r.attempts - 1).question
      && r.countdown == NumOr(respond(r.attempts - 1).duration, 30)
    ensures r.GaveUp? ==> respond(r.attempts - 1).Threw? || r.attempts == MaxRetries + 1
    decreases MaxRetries - retryCount
  {
    match respond(retryCount)
    case Ready(q, d) => Loaded(q, NumOr(d, 30), retryCount + 1)
    case Threw => GaveUp(retryCount + 1)
    case NotReady =>
      if retryCount < MaxRetries then FetchQuestion(respond, retryCount + 1)
      else GaveUp(retryCount + 1)
  }

  /** A player whose question never becomes ready makes six requests in all and then stops. */
  lemma NeverReadyGivesUpAfterSix(respond: nat -> Response)
    requires forall k :: respond(k) == NotReady
    ensures FetchQuestion(respond, 0) == GaveUp(6)
  {
  }

  /** The state set when a question arrives: the countdown starts at the duration, or at 30
      seconds when the duration is missing or zero, with input off until it is enabled. */
  function QuestionLoaded(view: AnswerView, duration: Option<int>): (r: AnswerView)
    ensures r == view.(countdown := r.countdown, answerEnabled := false)
    ensures duration.Some? && duration.value != 0 ==> r.countdown == duration.value
    ensures duration.None? || duration.value == 0 ==> r.countdown == 30
  {
    view.(countdown := NumOr(duration, 30), answerEnabled := false)
  }

  /** The session status the poll stores with `setStatus`: the current question position
      and the number of questions (`status.questions.length`). */
  datatype Status = Status(atQuestion: int, questionCount: nat)

  /** The message of the TypeError thrown by reading `atQuestion` of a null status. */
  const NullStatusRead := "Cannot read properties of null (reading 'atQuestion')"

  /** What getCorrectAnswer leaves once the answer has arrived: the view, whether the player
      is sent to the result page, and the error logged by its catch. */
  datatype RevealOutcome = RevealOutcome(view: AnswerView, toResult: bool, logged: Option<string>)

  /** getCorrectAnswer reading `status`: the answer is shown first; then a null status throws
      when `atQuestion` is read, which the catch logs, and otherwise the player is sent to the
      result page when the session is at its last question. */
  function GetCorrectAnswer(view: AnswerView, answer: seq<string>, status: Option<Status>): RevealOutcome {
    var shown := view.(showAnswer := true, correctAnswers := answer);
    match status
    case None => RevealOutcome(shown, false, Some(NullStatusRead))
    case Some(s) => RevealOutcome(shown, s.atQuestion == s.questionCount - 1, None)
  }

  /** The `status` getCorrectAnswer sees. The poll's interval is created once, by the mount
      effect, and it starts fetchQuestion, startCountdown and getCorrectAnswer of the mount
      render, whose `status` is the initial `null`; later `setStatus` calls do not reach
      those closures. */
  const MountStatus: Option<Status> := None

  /** getCorrectAnswer as written: the answer is shown and input is blocked, but the stale
      null status throws before the navigation, so the player is never sent to the result
      page and the error is logged. */
  function RevealAsWritten(view: AnswerView, answer: seq<string>): (r: RevealOutcome)
    ensures r.view.showAnswer && r.view.correctAnswers == answer && InputBlocked(r.view)
    ensures !r.toResult
    ensures r.logged == Some(NullStatusRead)
  {
    GetCorrectAnswer(view, answer, MountStatus)
  }

  /** getCorrectAnswer reading the current status: the answer is shown, input is blocked,
      nothing is logged, and the player is sent to the result page exactly at the last
      question. */
  function Reveal(view: AnswerView, answer: seq<string>, status: Status): (r: RevealOutcome)
    ensures r.view.showAnswer && r.view.correctAnswers == answer && InputBlocked(r.view)
    ensures r.toResult <==> status.atQuestion == status.questionCount - 1
    ensures r.logged.None?
  {
    GetCorrectAnswer(view, answer, Some(status))
  }

  /** Both readings leave the same view, and apart from the shown answer it is the view
      they were given; they differ only in the navigation and the logged error. */
  lemma RevealsAgreeOnView(view: AnswerView, answer: seq<string>, status: Status)
    ensures RevealAsWritten(view, answer).view == Reveal(view, answer, status).view
    ensures Reveal(view, answer, status).view == view.(showAnswer := true, correctAnswers := answer)
  {
  }

  /** At the last question the intended reading sends the player to the result page, while
      the code as written keeps the player on the question. */
  lemma StaleStatusNeverNavigates(view: AnswerView, answer: seq<string>, status: Status)
    requires status.atQuestion == status.questionCount - 1
    ensures Reveal(view, answer, status).toResult
    ensures !RevealAsWritten(view, answer).toResult
  {
  }

  /** After the last tick of the countdown the answer is revealed, and the revealed view
      blocks every selection until the next question resets it. */
  lemma RevealAfterCountdown(view: AnswerView, d: int, answer: seq<string>, status: Status)
    requires view.countdown == CountdownRun(d)[|CountdownRun(d)| - 1]
    ensures InputBlocked(view)
    ensures InputBlocked(Reveal(view, answer, status).view)
    ensures Reveal(view, answer, status).view.countdown == 0
  {
    CountdownRunShape(d);
  }

  /** While the countdown runs, the time alone blocks a selection exactly at its last tick,
      when it shows 0; before that only a disabled view or a shown answer blocks it. */
  lemma NoInputAfterTimeOrReveal(view: AnswerView, d: int, k: nat)
    requires k < |CountdownRun(d)|
    ensures InputBlocked(view.(countdown := CountdownRun(d)[k]))
      <==> k == |CountdownRun(d)| - 1 || !view.answerEnabled || view.showAnswer
  {
    CountdownRunShape(d);
  }

  /** `lastPositionRef`: the last question position the status poll saw (`null` at first). */
  class PositionRef {
    var current: Option<int>

    constructor ()
      ensures current == None
    {
      current := None;
    }
  }

  /** The status poll: a position different from the last one seen refetches the question,
      hides the answer, clears the selection and records the position; the same position
      leaves all of these alone. */
  method OnStatus(last: PositionRef, view: AnswerView, position: int)
    returns (r: AnswerView, refetch: bool)
    modifies last
    ensures old(last.current) != Some(position) ==>
      r == view.(showAnswer := false, selected := []) && refetch && last.current == Some(position)
    ensures old(last.current) == Some(position) ==>
      r == view && !refetch && last.current == old(last.current)
  {
    r, refetch := view, false;
    if last.current != Some(position) {
      refetch := true;
      r := r.(showAnswer := false);
      r := r.(selected := []);
      last.current := Some(position);
    }
  }
}
