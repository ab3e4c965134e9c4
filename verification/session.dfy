/**
 * The game loop and the score manager together, as the scene connects them:
 * onGameStart resets the score, onPatternRepeated counts a completed pattern,
 * and onGameEnd offers the score as a new high score.
 */
module Session {
  import opened CSharp
  import opened GameLoop
  import Score

  /**
   * The score manager's callback for a notification it listens to. The scene
   * makes these connections; a completed pattern is the one event that can
   * count toward the score, so `PatternRepeated` listens to onPatternRepeated.
   */
  function CallFor(n: Note): Option<Score.Call> {
    match n
    case GameStart => Some(Score.Reset)
    case PatternRepeated => Some(Score.Repeated)
    case GameEnd => Some(Score.GameEnded)
    case _ => None
  }

  /** The score callbacks a list of notifications causes, in order. */
  function CallsOf(ns: seq<Note>): seq<Score.Call> {
    if |ns| == 0 then []
    else (match CallFor(ns[0]) case Some(c) => [c] case None => []) + CallsOf(ns[1..])
  }

  datatype World = World(game: Game, score: Score.ScoreManager)

  predicate Valid(w: World) {
    GameLoop.Valid(w.game) && Score.Valid(w.score)
  }

  /** One input to the game; the score manager hears the notifications it caused. */
  function Step(w: World, e: Input): (w': World)
    requires Valid(w)
    ensures Valid(w')
    ensures w'.game == GameLoop.Step(w.game, e).next
    ensures w'.score.highscore >= w.score.highscore
  {
    var o := GameLoop.Step(w.game, e);
    var calls := CallsOf(Notifications(o.notes));
    Score.HighScoreMonotone(w.score, calls);
    World(o.next, Score.Run(w.score, calls).next)
  }

  /** The score counts the completed patterns of the current session. */
  predicate Tracks(w: World) {
    !w.game.phase.Idle? ==> w.score.score == |w.game.pattern| - 1
  }

  lemma CallsOfSingle(n: Note)
    ensures CallsOf([n]) == match CallFor(n) case Some(c) => [c] case None => []
  {
    assert [n][1..] == [];
  }

  lemma RunSingle(m: Score.ScoreManager, c: Score.Call)
    requires Score.Valid(m)
    ensures Score.Run(m, [c]).next == Score.Apply(m, c).next
  {
    assert [c][1..] == [];
  }

  /**
   * While the pattern is short enough for the score not to overflow, every
   * step keeps the score equal to the number of completed patterns: a start
   * sets it to 0 with a one-button pattern, and each completed pattern adds
   * one to both.
   */
  lemma StepTracks(w: World, e: Input)
    requires Valid(w) && Tracks(w)
    requires |w.game.pattern| <= IntMax
    ensures Tracks(Step(w, e))
  {
    var g := w.game;
    if !InputOk(g, e) {
      assert GameLoop.Step(g, e) == Outcome(g, []);
    } else {
      match e
      case StartGame(activeNow, pick) =>
        if !g.inPlay {
          CallsOfSingle(GameStart);
          RunSingle(w.score, Score.Reset);
        }
      case Tick(pick) => TickTracks(w, pick);
      case Pointer(_, _) =>
      case StaleEnd =>
        if g.staleEnds > 0 {
          assert Notifications([GameEnd]) == [GameEnd];
          CallsOfSingle(GameEnd);
          RunSingle(w.score, Score.GameEnded);
        }
    }
  }

  lemma TickTracks(w: World, pick: nat)
    requires Valid(w) && Tracks(w) && InputOk(w.game, Tick(pick))
    requires |w.game.pattern| <= IntMax
    ensures Tracks(Step(w, Tick(pick)))
  {
    var g := w.game;
    var o := TickStep(g, pick);
    assert GameLoop.Step(g, Tick(pick)) == o;
    match g.phase
    case Idle =>
    case StartPause =>
    case RoundPause =>
      assert Notifications(o.notes) == [PatternReplay];
      CallsOfSingle(PatternReplay);
    case Replaying(_, _) =>
      assert Notifications(o.notes) == [];
    case RepeatPause =>
      CallsOfSingle(PatternRepeat);
    case Awaiting(_) => AwaitTracks(w, pick);
    case FinalPause =>
  }

  lemma AwaitTracks(w: World, pick: nat)
    requires Valid(w) && Tracks(w) && w.game.phase.Awaiting? && pick < |w.game.active|
    requires |w.game.pattern| <= IntMax
    ensures Tracks(Step(w, Tick(pick)))
  {
    var g := w.game;
    var i := g.phase.index;
    if g.lastClicked.Some? && g.lastClicked != Some(g.pattern[i]) {
      FailTracks(w, pick);
    } else if g.lastClicked.Some? && i + 1 == |g.pattern| {
      GrowTracks(w, pick);
    } else {
      assert GameLoop.Step(g, Tick(pick)).notes == [];
    }
  }

  lemma FailTracks(w: World, pick: nat)
    requires Valid(w) && Tracks(w) && w.game.phase.Awaiting? && pick < |w.game.active|
    requires w.game.lastClicked.Some? && w.game.lastClicked != Some(w.game.pattern[w.game.phase.index])
    ensures Tracks(Step(w, Tick(pick)))
  {
    assert GameLoop.Step(w.game, Tick(pick)) == Failed(w.game);
    StepOneNote(w, Tick(pick), PatternFail);
  }

  lemma GrowTracks(w: World, pick: nat)
    requires Valid(w) && Tracks(w) && w.game.phase.Awaiting? && pick < |w.game.active|
    requires w.game.lastClicked == Some(w.game.pattern[w.game.phase.index])
    requires w.game.phase.index + 1 == |w.game.pattern| <= IntMax
    ensures Tracks(Step(w, Tick(pick)))
  {
    assert GameLoop.Step(w.game, Tick(pick)) == Grown(w.game, pick);
    StepOneNote(w, Tick(pick), PatternRepeated);
  }

  /** A step with one notification makes the score manager's call for it, if any. */
  lemma StepOneNote(w: World, e: Input, n: Note)
    requires Valid(w) && Notifications(GameLoop.Step(w.game, e).notes) == [n]
    ensures CallFor(n).None? ==> Step(w, e).score == w.score
    ensures CallFor(n).Some? ==> Step(w, e).score == Score.Apply(w.score, CallFor(n).value).next
  {
    CallsOfSingle(n);
    if CallFor(n).Some? {
      RunSingle(w.score, CallFor(n).value);
    }
  }

  /**
   * The end of a session's final pause offers its score: the high score
   * becomes the larger of the old high score and the number of completed
   * patterns.
   */
  lemma GameEndRecordsScore(w: World, pick: nat)
    requires Valid(w) && Tracks(w) && w.game.phase.FinalPause? && pick < |w.game.active|
    ensures Step(w, Tick(pick)).score.highscore
         == if |w.game.pattern| - 1 > w.score.highscore then |w.game.pattern| - 1 else w.score.highscore
    ensures Step(w, Tick(pick)).game.phase.Idle?
  {
    assert GameLoop.Step(w.game, Tick(pick)).notes == [GameEnd];
    assert Notifications([GameEnd]) == [GameEnd];
    CallsOfSingle(GameEnd);
    RunSingle(w.score, Score.GameEnded);
  }

  lemma RestartNotes(g: Game, activeNow: seq<ButtonId>, pick: nat)
    requires GameLoop.Valid(g) && g.phase.FinalPause?
    requires IdsIn(activeNow, |g.buttons|) && pick < |activeNow|
    ensures Notifications(GameLoop.Step(g, StartGame(activeNow, pick)).notes) == [GameStart]
    ensures GameLoop.Step(g, StartGame(activeNow, pick)).next.staleEnds > 0
  {
    assert GameLoop.Step(g, StartGame(activeNow, pick)) == Start(g, activeNow, pick);
  }

  /**
   * A new game started during the final pause of the previous one resets the
   * score before the previous session's onGameEnd arrives, so that session's
   * score is never offered as a high score.
   */
  lemma RestartInFinalPauseDropsScore(w: World, activeNow: seq<ButtonId>, pick: nat)
    requires Valid(w) && Tracks(w) && w.game.phase.FinalPause?
    requires IdsIn(activeNow, |w.game.buttons|) && pick < |activeNow|
    ensures var w2 := Step(Step(w, StartGame(activeNow, pick)), StaleEnd);
      w2.score.highscore == (if w.score.highscore < 0 then 0 else w.score.highscore)
  {
    var e := StartGame(activeNow, pick);
    var w1 := Step(w, e);
    RestartNotes(w.game, activeNow, pick);
    StepOneNote(w, e, GameStart);
    assert w1.game.staleEnds > 0;
    assert Notifications(GameLoop.Step(w1.game, StaleEnd).notes) == [GameEnd];
    StepOneNote(w1, StaleEnd, GameEnd);
  }
}
