/**
 * ScoreManager: the session score counts completed patterns; the high score is
 * raised to the score when a game ends with a better result, and persisted.
 * The persisted value is an input when loading and an emitted event when saving.
 */
module Score {
  import opened CSharp

  /** Both counters are C# `int`s. */
  datatype ScoreManager = ScoreManager(score: int, highscore: int)

  datatype ScoreEvent =
    | ScoreChanged(value: int)
    | HighScoreLoaded(value: int)
    | HighScoreChanged(value: int)
    | HighScoreSaved(value: int)

  datatype Update = Update(next: ScoreManager, events: seq<ScoreEvent>)

  predicate Valid(m: ScoreManager) {
    IsInt32(m.score) && IsInt32(m.highscore)
  }

  /** `Awake`: load the stored high score (0 when nothing was stored). */
  function Awake(stored: Option<int>): (u: Update)
    requires stored.Some? ==> IsInt32(stored.value)
    ensures Valid(u.next) && u.next.score == 0
    ensures u.next.highscore == (if stored.Some? then stored.value else 0)
    ensures u.events == [HighScoreLoaded(u.next.highscore)]
  {
    var h := match stored case Some(v) => v case None => 0;
    Update(ScoreManager(0, h), [HighScoreLoaded(h)])
  }

  /** The private `SetScore`: store the value and announce it. */
  function SetScore(m: ScoreManager, value: int): Update {
    Update(m.(score := value), [ScoreChanged(value)])
  }

  /** `ResetScore`, called when a game starts. */
  function ResetScore(m: ScoreManager): (u: Update)
    ensures u.next == m.(score := 0)
    ensures u.events == [ScoreChanged(0)]
  {
    SetScore(m, 0)
  }

  /** `PatternRepeated`: one more completed pattern, with C#'s unchecked 32-bit addition. */
  function PatternRepeated(m: ScoreManager): (u: Update)
    requires Valid(m)
    ensures Valid(u.next) && u.next.highscore == m.highscore
    ensures m.score < IntMax ==> u.next.score == m.score + 1
    ensures m.score == IntMax ==> u.next.score == IntMin
    ensures u.events == [ScoreChanged(u.next.score)]
  {
    SetScore(m, Wrap32(m.score + 1))
  }

  /** `OnGameEnd`: a better score becomes the high score, announced once and saved. */
  function OnGameEnd(m: ScoreManager): (u: Update)
    ensures m.score > m.highscore ==>
      u.next == m.(highscore := m.score) && u.events == [HighScoreChanged(m.score), HighScoreSaved(m.score)]
    ensures m.score <= m.highscore ==> u == Update(m, [])
    ensures u.next.highscore >= m.highscore && u.next.highscore >= u.next.score
    ensures u.next.score == m.score
  {
    if m.score > m.highscore then
      Update(m.(highscore := m.score), [HighScoreChanged(m.score), HighScoreSaved(m.score)])
    else Update(m, [])
  }

  /** The three callbacks the game loop drives. */
  datatype Call = Reset | Repeated | GameEnded

  function Apply(m: ScoreManager, c: Call): Update
    requires Valid(m)
  {
    match c
    case Reset => ResetScore(m)
    case Repeated => PatternRepeated(m)
    case GameEnded => OnGameEnd(m)
  }

  function Run(m: ScoreManager, calls: seq<Call>): (r: Update)
    requires Valid(m)
    ensures Valid(r.next)
    decreases |calls|
  {
    if |calls| == 0 then Update(m, [])
    else
      var first := Apply(m, calls[0]);
      var rest := Run(first.next, calls[1..]);
      Update(rest.next, first.events + rest.events)
  }

  /** Whatever the callbacks, the high score never decreases. */
  lemma {:induction false} HighScoreMonotone(m: ScoreManager, calls: seq<Call>)
    requires Valid(m)
    ensures Run(m, calls).next.highscore >= m.highscore
    decreases |calls|
  {
    if |calls| > 0 {
      HighScoreMonotone(Apply(m, calls[0]).next, calls[1..]);
    }
  }

  /**
   * A game scoring `k` patterns against a lower high score `h`: a reset, `k`
   * repeats and the end of the game leave both the score and the high score at `k`.
   */
  lemma SessionRecordsScore(h: int, k: nat)
    requires 0 <= h < k <= IntMax
    ensures Run(ScoreManager(h, h), [Reset] + Repeats(k) + [GameEnded]).next == ScoreManager(k, k)
  {
    var m0 := ScoreManager(h, h);
    var calls := [Reset] + Repeats(k) + [GameEnded];
    var m1 := ResetScore(m0).next;
    assert calls[1..] == Repeats(k) + [GameEnded];
    RepeatsCount(m1, k, [GameEnded]);
  }

  function Repeats(k: nat): (cs: seq<Call>)
    ensures |cs| == k && forall i :: 0 <= i < k ==> cs[i] == Repeated
  {
    seq(k, _ => Repeated)
  }

  lemma {:induction false} RepeatsCount(m: ScoreManager, k: nat, tail: seq<Call>)
    requires Valid(m) && 0 <= m.score && m.score + k <= IntMax
    ensures Run(m, Repeats(k) + tail).next == Run(m.(score := m.score + k), tail).next
    decreases k
  {
    if k > 0 {
      var calls := Repeats(k) + tail;
      assert calls[0] == Repeated;
      assert calls[1..] == Repeats(k - 1) + tail;
      var m' := PatternRepeated(m).next;
      RepeatsCount(m', k - 1, tail);
    } else {
      assert Repeats(k) + tail == tail;
    }
  }
}
