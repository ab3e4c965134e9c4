/**
 * Properties of the Simon Says session over whole runs of inputs: how the
 * pattern grows, what the replay shows, where clicks can come from, and how
 * every failed game is followed by exactly one onGameEnd.
 */
module GameProperties {
  import opened CSharp
  import opened DisplayStates
  import B = ButtonController
  import opened GameLoop

  /** How often `n` occurs in a note list. */
  function Count(ns: seq<Note>, n: Note): nat {
    if |ns| == 0 then 0 else (if ns[0] == n then 1 else 0) + Count(ns[1..], n)
  }

  lemma CountAppend(a: seq<Note>, b: seq<Note>, n: Note)
    ensures Count(a + b, n) == Count(a, n) + Count(b, n)
  {
    if |a| == 0 {
      assert a + b == b;
    } else {
      assert (a + b)[1..] == a[1..] + b;
      CountAppend(a[1..], b, n);
    }
  }

  /** The notifications of a run are those of its first step followed by those of the rest. */
  lemma RunNotifications(g: Game, es: seq<Input>)
    requires Valid(g) && |es| > 0
    ensures Notifications(Run(g, es).notes)
         == Notifications(Step(g, es[0]).notes) + Notifications(Run(Step(g, es[0]).next, es[1..]).notes)
  {
    NotificationsAppend(Step(g, es[0]).notes, Run(Step(g, es[0]).next, es[1..]).notes);
  }

  /**
   * Outside a restart, a step keeps the pattern as a prefix and lengthens it
   * by one exactly when it announces onPatternRepeated.
   */
  lemma StepPattern(g: Game, e: Input)
    requires Valid(g)
    requires GameStart !in Notifications(Step(g, e).notes)
    ensures g.pattern <= Step(g, e).next.pattern
    ensures |Step(g, e).next.pattern| == |g.pattern| + Count(Notifications(Step(g, e).notes), PatternRepeated)
  {
    if InputOk(g, e) && e.Tick? {
      assert Step(g, e) == TickStep(g, e.pick);
      TickPattern(g, e.pick);
    }
  }

  lemma TickPattern(g: Game, pick: nat)
    requires Valid(g) && (!g.phase.Idle? ==> pick < |g.active|)
    ensures g.pattern <= TickStep(g, pick).next.pattern
    ensures |TickStep(g, pick).next.pattern| == |g.pattern| + Count(Notifications(TickStep(g, pick).notes), PatternRepeated)
  {
    var o := TickStep(g, pick);
    match g.phase
    case Idle =>
    case StartPause =>
    case RoundPause => CountSingle(PatternReplay, PatternRepeated);
    case Replaying(_, _) =>
    case RepeatPause => CountSingle(PatternRepeat, PatternRepeated);
    case Awaiting(i) =>
      if g.lastClicked.Some? && g.lastClicked != Some(g.pattern[i]) {
        CountSingle(PatternFail, PatternRepeated);
      } else if g.lastClicked.Some? && i + 1 == |g.pattern| {
        CountSingle(PatternRepeated, PatternRepeated);
      }
    case FinalPause => CountSingle(GameEnd, PatternRepeated);
  }

  /**
   * Between two starts the pattern only grows: the pattern at the start of a
   * run is a prefix of the pattern at its end, which is longer by the number
   * of onPatternRepeated notifications.
   */
  lemma {:induction false} PatternGrows(g: Game, es: seq<Input>)
    requires Valid(g)
    requires GameStart !in Notifications(Run(g, es).notes)
    ensures g.pattern <= Run(g, es).next.pattern
    ensures |Run(g, es).next.pattern| == |g.pattern| + Count(Notifications(Run(g, es).notes), PatternRepeated)
    decreases |es|
  {
    if |es| > 0 {
      var first := Step(g, es[0]);
      var rest := Run(first.next, es[1..]);
      RunNotifications(g, es);
      CountAppend(Notifications(first.notes), Notifications(rest.notes), PatternRepeated);
      StepPattern(g, es[0]);
      PatternGrows(first.next, es[1..]);
    }
  }

  /**
   * A session's pattern: seeded with the drawn active button, it then holds
   * one button more than the number of onPatternRepeated notifications, for as
   * long as no new session is started.
   */
  lemma SessionPattern(g: Game, activeNow: seq<ButtonId>, pick: nat, es: seq<Input>)
    requires Valid(g) && !g.inPlay && IdsIn(activeNow, |g.buttons|) && pick < |activeNow|
    requires GameStart !in Notifications(Run(Start(g, activeNow, pick).next, es).notes)
    ensures var r := Run(Start(g, activeNow, pick).next, es);
      && |r.next.pattern| == 1 + Count(Notifications(r.notes), PatternRepeated)
      && r.next.pattern[0] == activeNow[pick]
      && forall x :: x in r.next.pattern ==> x in r.next.active
  {
    PatternGrows(Start(g, activeNow, pick).next, es);
  }

  /** `n` ticks, each with the same random draw. */
  function Ticks(n: nat): (es: seq<Input>)
    ensures |es| == n && forall i :: 0 <= i < n ==> es[i] == Tick(0)
  {
    seq(n, _ => Tick(0))
  }

  /** What the replay of a pattern shows: each button lit, then dimmed, in pattern order. */
  function ReplayNotes(p: seq<ButtonId>): seq<Note> {
    if |p| == 0 then [] else [Forced(p[0], Replay), Forced(p[0], Default)] + ReplayNotes(p[1..])
  }

  /** The phases of the replay: the pause at the top of the round and the replay proper. */
  predicate InReplay(p: Phase) {
    p.RoundPause? || p.Replaying?
  }

  /** The ticks the replay still takes before it reaches the half-second pause. */
  function ReplayLeft(g: Game): nat
    requires Valid(g)
  {
    match g.phase
    case RoundPause => 1 + 2 * |g.pattern|
    case Replaying(k, lit) => 2 * (|g.pattern| - k) - (if lit then 1 else 0)
    case _ => 0
  }

  /** Up to `n` waits of the replay, stopping once it is over. */
  function Replays(g: Game, n: nat): (o: Outcome)
    requires Valid(g)
    ensures Valid(o.next)
    decreases n
  {
    if n == 0 || !InReplay(g.phase) then Outcome(g, [])
    else
      var first := ReplayStep(g);
      var rest := Replays(first.next, n - 1);
      Outcome(rest.next, first.notes + rest.notes)
  }

  /** A replay step takes one of the ticks that are left. */
  lemma ReplayStepLeft(g: Game)
    requires Valid(g) && InReplay(g.phase)
    ensures ReplayLeft(g) > 0 && ReplayLeft(ReplayStep(g).next) == ReplayLeft(g) - 1
    ensures ReplayLeft(ReplayStep(g).next) > 0 ==> InReplay(ReplayStep(g).next.phase)
  {
  }

  /** During the replay a tick is a replay step. */
  lemma TickInReplay(g: Game)
    requires Valid(g) && InReplay(g.phase)
    ensures Step(g, Tick(0)) == ReplayStep(g)
  {
    assert Step(g, Tick(0)) == TickStep(g, 0);
  }

  /** While the replay lasts, the game's ticks are exactly the replay's steps. */
  lemma {:induction false} TicksAreReplay(g: Game, n: nat)
    requires Valid(g) && n <= ReplayLeft(g)
    ensures Run(g, Ticks(n)) == Replays(g, n)
    decreases n
  {
    if n > 0 {
      TickInReplay(g);
      ReplayStepLeft(g);
      RunTick(g, n);
      TicksAreReplay(ReplayStep(g).next, n - 1);
    }
  }

  /** A run of ticks is one tick followed by the others. */
  lemma RunTick(g: Game, n: nat)
    requires Valid(g) && n > 0
    ensures Run(g, Ticks(n)).notes == Step(g, Tick(0)).notes + Run(Step(g, Tick(0)).next, Ticks(n - 1)).notes
    ensures Run(g, Ticks(n)).next == Run(Step(g, Tick(0)).next, Ticks(n - 1)).next
  {
    assert Ticks(n)[0] == Tick(0) && Ticks(n)[1..] == Ticks(n - 1);
  }

  /**
   * From the wait before lighting `pattern[k]`, the remaining replay takes two
   * steps per button, forces the rest of the pattern into Replay and back to
   * Default in order, and ends in the half-second pause.
   */
  lemma {:induction false} ReplayFrom(g: Game, k: nat)
    requires Valid(g) && g.phase == Replaying(k, false)
    ensures Replays(g, 2 * (|g.pattern| - k)).notes == ReplayNotes(g.pattern[k..])
    ensures Replays(g, 2 * (|g.pattern| - k)).next.phase == RepeatPause
    ensures Replays(g, 2 * (|g.pattern| - k)).next.pattern == g.pattern
    decreases |g.pattern| - k
  {
    var m := |g.pattern| - k;
    var g2 := LightAndDim(g);
    ReplayTwo(g, 2 * m);
    ReplayNotesCons(g.pattern, k);
    if k + 1 < |g.pattern| {
      ReplayFrom(g2, k + 1);
    } else {
      assert g.pattern[k + 1..] == [];
    }
  }

  /** The state after lighting and dimming the next button of the replay. */
  function LightAndDim(g: Game): (g2: Game)
    requires Valid(g) && g.phase.Replaying? && !g.phase.lit
    ensures Valid(g2) && g2.pattern == g.pattern
    ensures g2.phase == AfterLight(g, g.phase.k)
  {
    ReplayStep(ReplayStep(g).next).next
  }

  /** Two steps of the replay light and dim one button. */
  lemma ReplayTwo(g: Game, n: nat)
    requires Valid(g) && g.phase.Replaying? && !g.phase.lit && n >= 2
    ensures Replays(g, n).notes
         == [Forced(g.pattern[g.phase.k], Replay), Forced(g.pattern[g.phase.k], Default)]
            + Replays(LightAndDim(g), n - 2).notes
    ensures Replays(g, n).next == Replays(LightAndDim(g), n - 2).next
  {
    var o1 := ReplayStep(g);
    var o2 := ReplayStep(o1.next);
    var rest := Replays(o2.next, n - 2);
    assert Replays(o1.next, n - 1) == Outcome(rest.next, o2.notes + rest.notes);
    assert o1.notes + (o2.notes + rest.notes) == (o1.notes + o2.notes) + rest.notes;
  }

  lemma ReplayNotesCons(p: seq<ButtonId>, k: nat)
    requires k < |p|
    ensures ReplayNotes(p[k..]) == [Forced(p[k], Replay), Forced(p[k], Default)] + ReplayNotes(p[k + 1..])
  {
    assert p[k..][1..] == p[k + 1..];
  }

  /**
   * The whole replay: after the pause at the top of a round, `1 + 2 * |pattern|`
   * ticks announce onPatternReplay, show the whole pattern in order, and reach
   * the half-second pause before the player's turn.
   */
  lemma RoundReplay(g: Game)
    requires Valid(g) && g.phase.RoundPause?
    ensures Run(g, Ticks(1 + 2 * |g.pattern|)).notes == [PatternReplay] + ReplayNotes(g.pattern)
    ensures Run(g, Ticks(1 + 2 * |g.pattern|)).next.phase == RepeatPause
    ensures Run(g, Ticks(1 + 2 * |g.pattern|)).next.pattern == g.pattern
  {
    TicksAreReplay(g, 1 + 2 * |g.pattern|);
    var o1 := ReplayStep(g);
    ReplayFrom(o1.next, 0);
    assert g.pattern[0..] == g.pattern;
  }

  /**
   * A press is recorded as the player's click exactly when the player is
   * repeating the pattern, the button is one of the session's active buttons,
   * and the trigger releases a press on it.
   */
  lemma ClickRecordedOnlyFromActive(g: Game, b: ButtonId, t: B.Trigger)
    requires Valid(g) && b < |g.buttons|
    ensures (B.Fires(g.buttons[b], t) && g.subscriptions > 0)
        <==> (g.phase.Awaiting? && b in g.active && t == B.Up && g.buttons[b].down)
  {
  }

  /** The onGameEnd notifications still owed: the running session's, if it is in its final pause, and the stale ones. */
  function Pending(g: Game): nat {
    g.staleEnds + (if g.phase.FinalPause? then 1 else 0)
  }

  lemma CountSingle(n: Note, m: Note)
    ensures Count([n], m) == if n == m then 1 else 0
  {
    assert [n][1..] == [];
  }

  /** One step: every onPatternFail adds one owed onGameEnd, every onGameEnd pays one. */
  lemma StepEnds(g: Game, e: Input)
    requires Valid(g)
    ensures Count(Notifications(Step(g, e).notes), GameEnd) + Pending(Step(g, e).next)
         == Pending(g) + Count(Notifications(Step(g, e).notes), PatternFail)
  {
    var o := Step(g, e);
    if !InputOk(g, e) {
      assert o == Outcome(g, []);
    } else {
      match e
      case StartGame(activeNow, pick) =>
        if !g.inPlay {
          CountSingle(GameStart, GameEnd);
          CountSingle(GameStart, PatternFail);
        }
      case Tick(pick) => TickEnds(g, pick);
      case Pointer(b, t) =>
      case StaleEnd =>
        if g.staleEnds > 0 {
          assert Notifications(o.notes) == [GameEnd];
          CountSingle(GameEnd, GameEnd);
          CountSingle(GameEnd, PatternFail);
        }
    }
  }

  lemma TickEnds(g: Game, pick: nat)
    requires Valid(g) && (!g.phase.Idle? ==> pick < |g.active|)
    ensures Count(Notifications(TickStep(g, pick).notes), GameEnd) + Pending(TickStep(g, pick).next)
         == Pending(g) + Count(Notifications(TickStep(g, pick).notes), PatternFail)
  {
    var o := TickStep(g, pick);
    match g.phase
    case Idle =>
    case StartPause =>
    case RoundPause =>
      assert Notifications(o.notes) == [PatternReplay];
      CountSingle(PatternReplay, GameEnd);
      CountSingle(PatternReplay, PatternFail);
    case Replaying(_, _) =>
      assert Notifications(o.notes) == [];
    case RepeatPause =>
      CountSingle(PatternRepeat, GameEnd);
      CountSingle(PatternRepeat, PatternFail);
    case Awaiting(i) =>
      if g.lastClicked.Some? && g.lastClicked != Some(g.pattern[i]) {
        CountSingle(PatternFail, GameEnd);
        CountSingle(PatternFail, PatternFail);
      } else if g.lastClicked.Some? && i + 1 == |g.pattern| {
        CountSingle(PatternRepeated, GameEnd);
        CountSingle(PatternRepeated, PatternFail);
      }
    case FinalPause =>
      assert Notifications(o.notes) == [GameEnd];
      CountSingle(GameEnd, GameEnd);
      CountSingle(GameEnd, PatternFail);
  }

  /**
   * Over any run, onGameEnd is announced once per onPatternFail: the ends
   * announced plus those still owed equal the ends owed at the start plus the
   * failures announced. A restart during the final pause does not lose the
   * owed end; it only delays it.
   */
  lemma {:induction false} EndsMatchFails(g: Game, es: seq<Input>)
    requires Valid(g)
    ensures Count(Notifications(Run(g, es).notes), GameEnd) + Pending(Run(g, es).next)
         == Pending(g) + Count(Notifications(Run(g, es).notes), PatternFail)
    decreases |es|
  {
    if |es| > 0 {
      var first := Step(g, es[0]);
      var rest := Run(first.next, es[1..]);
      RunNotifications(g, es);
      CountAppend(Notifications(first.notes), Notifications(rest.notes), GameEnd);
      CountAppend(Notifications(first.notes), Notifications(rest.notes), PatternFail);
      StepEnds(g, es[0]);
      EndsMatchFails(first.next, es[1..]);
    }
  }

  /** From the scene's start, no onGameEnd is ever announced without a failure before it. */
  lemma EndsFollowFails(buttons: seq<B.Controller>, es: seq<Input>)
    ensures var o := Run(Init(buttons).next, es);
      Count(Notifications(o.notes), GameEnd) <= Count(Notifications(o.notes), PatternFail)
  {
    EndsMatchFails(Init(buttons).next, es);
  }
}
