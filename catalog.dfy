/** The records the quiz pages read from and write back to the game store (`/admin/games`). */
module Catalog {
  import opened Wrappers

  /** A JSON field that the pages expect to hold an array. Any other value (null, undefined,
      an object, a string) is `NotArray`; `Array.isArray` tells the two apart. */
  datatype Listish<T> = Items(items: seq<T>) | NotArray

  /** `Array.isArray(v) ? v : []`. */
  function AsArray<T>(v: Listish<T>): seq<T> {
    match v
    case Items(s) => s
    case NotArray => []
  }

  /** One answer option of a question. */
  datatype Choice = Choice(text: string, correct: bool)

  /** A question as the editor holds it and as the store keeps it. Numeric and string
      fields that may be missing are `Option`s; `Some(0)` and `Some("")` are falsy. */
  datatype Question = Question(
    qtype: Option<string>,
    prompt: string,
    timeLimit: Option<int>,
    points: Option<int>,
    media: Option<string>,
    mediaType: Option<string>,
    options: seq<Choice>)

  /** A game of the store. `active` is the running session's id, or null. */
  datatype Game = Game(
    id: string,
    name: string,
    owner: Option<string>,
    thumbnail: string,
    active: Option<int>,
    questions: Listish<Question>)

  /** `v || d` for a number that may be missing: 0 and a missing value are falsy. */
  function NumOr(v: Option<int>, d: int): int {
    if v.Some? && v.value != 0 then v.value else d
  }

  /** `v || d` for a string that may be missing: "" and a missing value are falsy. */
  function StrOr(v: Option<string>, d: string): string {
    if v.Some? && v.value != "" then v.value else d
  }

  /** `questions.reduce((sum, q) => sum + (q.timeLimit || 0), 0)`. */
  function TotalTime(qs: seq<Question>): int
    decreases |qs|
  {
    if qs == [] then 0 else NumOr(qs[0].timeLimit, 0) + TotalTime(qs[1..])
  }

  /** The total time is additive over concatenation, so appending a question adds its limit. */
  lemma {:induction false} TotalTimeAppend(a: seq<Question>, b: seq<Question>)
    ensures TotalTime(a + b) == TotalTime(a) + TotalTime(b)
    decreases |a|
  {
    if a == [] {
      assert a + b == b;
    } else {
      assert (a + b)[1..] == a[1..] + b;
      TotalTimeAppend(a[1..], b);
    }
  }

  /** The number of questions whose time limit is set (not missing and not 0). */
  function SetLimits(qs: seq<Question>): (n: nat)
    ensures n <= |qs|
    decreases |qs|
  {
    if qs == [] then 0 else (if NumOr(qs[0].timeLimit, 0) != 0 then 1 else 0) + SetLimits(qs[1..])
  }

  /** Questions whose limits are missing contribute nothing; with every set limit between
      `lo` and `hi`, the total lies between `lo` and `hi` times the number of set limits. */
  lemma {:induction false} TotalTimeBounds(qs: seq<Question>, lo: int, hi: int)
    requires 0 <= lo <= hi
    requires forall i :: 0 <= i < |qs| ==> NumOr(qs[i].timeLimit, 0) == 0 || lo <= qs[i].timeLimit.value <= hi
    ensures lo * SetLimits(qs) <= TotalTime(qs) <= hi * SetLimits(qs)
    ensures 0 <= TotalTime(qs) <= hi * |qs|
    decreases |qs|
  {
    if qs != [] {
      TotalTimeBounds(qs[1..], lo, hi);
      var v, n := NumOr(qs[0].timeLimit, 0), SetLimits(qs[1..]);
      if v != 0 {
        assert lo <= qs[0].timeLimit.value <= hi;
        AddBounded(lo, hi, n, v, TotalTime(qs[1..]));
      }
      ScaleMonotone(hi, SetLimits(qs), |qs|);
    }
  }

  lemma AddBounded(lo: int, hi: int, n: nat, v: int, t: int)
    requires lo * n <= t <= hi * n && lo <= v <= hi
    ensures lo * (n + 1) <= v + t <= hi * (n + 1)
  {
    assert lo * (n + 1) == lo * n + lo;
    assert hi * (n + 1) == hi * n + hi;
  }

  lemma ScaleMonotone(c: int, a: nat, b: nat)
    requires 0 <= c && a <= b
    ensures c * a <= c * b
  {
    assert c * b - c * a == c * (b - a);
  }

  /** `games.findIndex(g => g.id == id)`, with `None` for -1. */
  function FindIndex(games: seq<Game>, id: string): (r: Option<nat>)
    ensures r.Some? ==> r.value < |games| && games[r.value].id == id
    ensures r.Some? ==> forall k :: 0 <= k < r.value ==> games[k].id != id
    ensures r.None? ==> forall k :: 0 <= k < |games| ==> games[k].id != id
    decreases |games|
  {
    if games == [] then None
    else if games[0].id == id then Some(0)
    else match FindIndex(games[1..], id)
      case None => None
      case Some(k) => Some(k + 1)
  }
}
