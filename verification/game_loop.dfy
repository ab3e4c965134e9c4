/**
 * GameManager: the Simon Says session. A session seeds a pattern with one
 * button drawn from the active buttons, then repeats rounds: replay the pattern
 * by forcing each button into Replay and back to Default, let the player repeat
 * it, and either grow the pattern by one button or end the game on the first
 * wrong press.
 *
 * The game loop is a coroutine; here each of its suspension points is a phase
 * and every input is one step. `Tick` stands for "the pending wait is over"
 * (fixed pauses, replay delays, and the frame on which `WaitUntil` looks at the
 * last clicked button). The random draw is the index `pick` into the active
 * buttons. The controllers are part of the state so that a click can only come
 * from a controller that is interactable.
 */
module GameLoop {
  import opened CSharp
  import opened DisplayStates
  import B = ButtonController

  /** A button controller, identified by its position among all controllers. */
  type ButtonId = nat

  datatype Phase =
    | Idle                            // no session coroutine is running
    | StartPause                      // the pause right after the game started
    | RoundPause                      // the pause at the top of each round
    | Replaying(k: nat, lit: bool)    // before lighting pattern[k] (lit false) or before dimming it (lit true)
    | RepeatPause                     // the half-second pause before the player repeats
    | Awaiting(index: nat)            // waiting for the press matching pattern[index]
    | FinalPause                      // the pause between onPatternFail and onGameEnd

  datatype Game = Game(
    buttons: seq<B.Controller>,   // allButtons
    active: seq<ButtonId>,        // activeButtons, taken when the session starts
    pattern: seq<ButtonId>,
    inPlay: bool,
    lastClicked: Option<ButtonId>,
    subscriptions: nat,           // how often the click handler is registered on OnTriggered
    phase: Phase,
    staleEnds: nat)               // earlier sessions still in their final pause

  /** What the coordinator does, in order: its UnityEvents and its commands to the controllers. */
  datatype Note =
    | GameInit | GameStart | PatternReplay | PatternRepeat | PatternRepeated | PatternFail | GameEnd
    | Forced(button: ButtonId, state: DisplayState)
    | Interactable(button: ButtonId, flag: bool)
    | Triggered(button: ButtonId)  // a controller raised OnTriggered

  datatype Outcome = Outcome(next: Game, notes: seq<Note>)

  datatype Input =
    | StartGame(activeNow: seq<ButtonId>, pick: nat)
    | Tick(pick: nat)
    | Pointer(button: ButtonId, trigger: B.Trigger)
    | StaleEnd

  /** The phases during which `inPlay` is set. */
  predicate InSession(p: Phase) {
    !(p.Idle? || p.FinalPause?)
  }

  /** Which controllers the coordinator leaves interactable in each phase. */
  predicate Expected(g: Game, b: ButtonId) {
    match g.phase
    case Idle => true
    case FinalPause => true
    case Awaiting(_) => b in g.active
    case _ => false
  }

  predicate IdsIn(ids: seq<ButtonId>, n: nat) {
    forall x :: x in ids ==> x < n
  }

  predicate Valid(g: Game) {
    && IdsIn(g.active, |g.buttons|)
    && (forall x :: x in g.pattern ==> x in g.active)
    && (!g.phase.Idle? ==> |g.active| > 0 && |g.pattern| > 0)
    && (g.inPlay <==> InSession(g.phase))
    && (g.phase.Replaying? ==> g.phase.k < |g.pattern|)
    && (g.phase.Awaiting? ==> g.phase.index < |g.pattern|)
    && g.subscriptions == (if g.phase.Awaiting? then 1 else 0)
    && InteractableAsExpected(g)
  }

  predicate InteractableAsExpected(g: Game) {
    forall b :: 0 <= b < |g.buttons| ==> g.buttons[b].interactable == Expected(g, b)
  }

  /** The game-level notifications of a note list, in order. */
  function Notifications(ns: seq<Note>): seq<Note> {
    if |ns| == 0 then []
    else (if IsNotification(ns[0]) then [ns[0]] else []) + Notifications(ns[1..])
  }

  predicate IsNotification(n: Note) {
    !(n.Forced? || n.Interactable? || n.Triggered?)
  }

  lemma {:induction false} NotificationsAppend(a: seq<Note>, b: seq<Note>)
    ensures Notifications(a + b) == Notifications(a) + Notifications(b)
  {
    if |a| == 0 {
      assert a + b == b;
    } else {
      var c := a + b;
      assert c[0] == a[0];
      assert c[1..] == a[1..] + b;
      NotificationsAppend(a[1..], b);
      var x := if IsNotification(a[0]) then [a[0]] else [];
      var y, z := Notifications(a[1..]), Notifications(b);
      assert Notifications(c) == x + (y + z);
      assert x + (y + z) == (x + y) + z;
    }
  }

  function AllIds(n: nat): (ids: seq<ButtonId>)
    ensures |ids| == n && IdsIn(ids, n)
    ensures forall i :: 0 <= i < n ==> ids[i] == i
  {
    seq(n, i requires 0 <= i => i)
  }

  lemma InAllIds(n: nat, b: ButtonId)
    requires b < n
    ensures b in AllIds(n)
  {
    assert AllIds(n)[b] == b;
  }

  /** One controller forced to Default and then given the interactable flag. */
  function Reset(c: B.Controller, flag: bool): (c': B.Controller)
    ensures c'.interactable == flag
  {
    B.SetInteractable(B.ForceState(c, Default).next, flag).next
  }

  /**
   * `SetButtonsInteractable`: every listed controller is forced to Default and
   * then given the flag; the other controllers are untouched.
   */
  function SetButtonsInteractable(bs: seq<B.Controller>, ids: seq<ButtonId>, flag: bool): (r: seq<B.Controller>)
    requires IdsIn(ids, |bs|)
    ensures |r| == |bs|
    ensures forall b :: 0 <= b < |bs| ==> r[b].interactable == (if b in ids then flag else bs[b].interactable)
    ensures forall b :: 0 <= b < |bs| && b !in ids ==> r[b] == bs[b]
    decreases |ids|
  {
    if |ids| == 0 then bs
    else
      var b := ids[0];
      assert b in ids;
      var bs' := bs[b := Reset(bs[b], flag)];
      assert forall x :: x in ids[1..] ==> x in ids;
      var r := SetButtonsInteractable(bs', ids[1..], flag);
      assert forall x :: x in ids <==> x == b || x in ids[1..];
      r
  }

  /** The commands `SetButtonsInteractable` gives, in order. */
  function Commands(ids: seq<ButtonId>, flag: bool): (ns: seq<Note>)
    ensures Notifications(ns) == []
    ensures |ns| == 2 * |ids|
    decreases |ids|
  {
    if |ids| == 0 then []
    else
      var head := [Forced(ids[0], Default), Interactable(ids[0], flag)];
      NotificationsAppend(head, Commands(ids[1..], flag));
      head + Commands(ids[1..], flag)
  }

  /** Controller commands followed by one notification. */
  function Announce(cmds: seq<Note>, n: Note): (ns: seq<Note>)
    requires Notifications(cmds) == [] && IsNotification(n)
    ensures |ns| > 0 && ns[|ns| - 1] == n
    ensures Notifications(ns) == [n]
  {
    NotificationsAppend(cmds, [n]);
    cmds + [n]
  }

  /** `Start`: every controller interactable, then onGameInit. */
  function Init(buttons: seq<B.Controller>): (o: Outcome)
    ensures Valid(o.next) && o.next.phase == Idle && !o.next.inPlay
    ensures |o.next.buttons| == |buttons|
    ensures forall b :: 0 <= b < |buttons| ==> o.next.buttons[b].interactable
    ensures Notifications(o.notes) == [GameInit]
  {
    Outcome(Game(SetAll(buttons, true), [], [], false, None, 0, Idle, 0),
            Announce(Commands(AllIds(|buttons|), true), GameInit))
  }

  /** `SetButtonsInteractable` over every controller. */
  function SetAll(bs: seq<B.Controller>, flag: bool): (r: seq<B.Controller>)
    ensures |r| == |bs|
    ensures forall b :: 0 <= b < |bs| ==> r[b].interactable == flag
  {
    AllInteractable(bs, AllIds(|bs|), flag);
    SetButtonsInteractable(bs, AllIds(|bs|), flag)
  }

  /** Setting the flag on every id gives every controller that flag. */
  lemma AllInteractable(bs: seq<B.Controller>, ids: seq<ButtonId>, flag: bool)
    requires ids == AllIds(|bs|)
    ensures forall b :: 0 <= b < |bs| ==> SetButtonsInteractable(bs, ids, flag)[b].interactable == flag
  {
    forall b | 0 <= b < |bs|
      ensures SetButtonsInteractable(bs, ids, flag)[b].interactable == flag
    {
      InAllIds(|bs|, b);
    }
  }

  /** `StartGame` and the part of the coroutine that runs before its first pause. */
  function Start(g: Game, activeNow: seq<ButtonId>, pick: nat): (o: Outcome)
    requires Valid(g) && IdsIn(activeNow, |g.buttons|) && pick < |activeNow|
    ensures Valid(o.next)
    ensures |o.next.buttons| == |g.buttons|
    ensures g.inPlay ==> o == Outcome(g, [])
    ensures !g.inPlay ==>
      && o.next.pattern == [activeNow[pick]]
      && o.next.active == activeNow
      && o.next.inPlay && o.next.phase == StartPause
      && (forall b :: 0 <= b < |g.buttons| ==> !o.next.buttons[b].interactable)
      && Notifications(o.notes) == [GameStart]
      && o.notes[|o.notes| - 1] == GameStart
      && o.next.staleEnds == g.staleEnds + (if g.phase.FinalPause? then 1 else 0)
  {
    if g.inPlay then Outcome(g, [])
    else
      var all := SetAll(g.buttons, false);
      var stale := g.staleEnds + (if g.phase.FinalPause? then 1 else 0);
      var g' := Game(all, activeNow, [activeNow[pick]], true, g.lastClicked, 0, StartPause, stale);
      assert activeNow[pick] in activeNow;
      Outcome(g', Announce(Commands(AllIds(|g.buttons|), false), GameStart))
  }

  /** The end of the replay: the coordinator goes on to the half-second pause. */
  function AfterLight(g: Game, k: nat): Phase {
    if k + 1 < |g.pattern| then Replaying(k + 1, false) else RepeatPause
  }

  /** Force one controller into a state. */
  function Force(g: Game, b: ButtonId, s: DisplayState): (bs: seq<B.Controller>)
    requires b < |g.buttons|
    ensures |bs| == |g.buttons|
    ensures forall i :: 0 <= i < |bs| ==> bs[i].interactable == g.buttons[i].interactable
  {
    g.buttons[b := B.ForceState(g.buttons[b], s).next]
  }

  /** The replay of the pattern, one wait at a time. */
  function ReplayStep(g: Game): (o: Outcome)
    requires Valid(g) && (g.phase.RoundPause? || g.phase.Replaying?)
    ensures Valid(o.next)
    ensures |o.next.buttons| == |g.buttons|
    ensures o.next.pattern == g.pattern && o.next.active == g.active && o.next.inPlay
    ensures o.next.staleEnds == g.staleEnds
    ensures g.phase.RoundPause? ==> o.notes == [PatternReplay] && o.next.phase == Replaying(0, false)
    ensures g.phase.Replaying? && !g.phase.lit ==>
      o.notes == [Forced(g.pattern[g.phase.k], Replay)] && o.next.phase == Replaying(g.phase.k, true)
    ensures g.phase.Replaying? && g.phase.lit ==>
      o.notes == [Forced(g.pattern[g.phase.k], Default)] && o.next.phase == AfterLight(g, g.phase.k)
  {
    match g.phase
    case RoundPause => Outcome(g.(phase := Replaying(0, false)), [PatternReplay])
    case Replaying(k, lit) =>
      var b := g.pattern[k];
      assert b in g.pattern;
      if !lit then
        Outcome(g.(buttons := Force(g, b, Replay), phase := Replaying(k, true)), [Forced(b, Replay)])
      else
        Outcome(g.(buttons := Force(g, b, Default), phase := AfterLight(g, k)), [Forced(b, Default)])
  }

  /** The start of `InteractivePatternRepeat`: clear the click, register the handler once, enable the active buttons. */
  function BeginRepeat(g: Game): (o: Outcome)
    requires Valid(g) && g.phase.RepeatPause?
    ensures Valid(o.next)
    ensures |o.next.buttons| == |g.buttons|
    ensures o.next.phase == Awaiting(0) && o.next.lastClicked == None && o.next.subscriptions == 1
    ensures o.next.pattern == g.pattern && o.next.active == g.active && o.next.staleEnds == g.staleEnds
    ensures forall b :: 0 <= b < |g.buttons| ==> (o.next.buttons[b].interactable <==> b in g.active)
    ensures Notifications(o.notes) == [PatternRepeat]
  {
    var en := SetButtonsInteractable(g.buttons, g.active, true);
    NotificationsAppend([PatternRepeat], Commands(g.active, true));
    // `OnTriggered -= handler; OnTriggered += handler;`
    var subs := (if g.subscriptions > 0 then g.subscriptions - 1 else 0) + 1;
    var g' := g.(buttons := en, lastClicked := None, subscriptions := subs, phase := Awaiting(0));
    assert InteractableAsExpected(g');
    Outcome(g', [PatternRepeat] + Commands(g.active, true))
  }

  /** The end of `InteractivePatternRepeat`: disable the active buttons; every controller is then non-interactable. */
  function EndRepeat(g: Game): (bs: seq<B.Controller>)
    requires Valid(g) && g.phase.Awaiting?
    ensures |bs| == |g.buttons|
    ensures forall b :: 0 <= b < |g.buttons| ==> !bs[b].interactable
  {
    SetButtonsInteractable(g.buttons, g.active, false)
  }

  /** The pattern grew: back to the top of the round with every controller disabled. */
  function Grown(g: Game, pick: nat): (o: Outcome)
    requires Valid(g) && g.phase.Awaiting? && pick < |g.active|
    ensures Valid(o.next)
    ensures |o.next.buttons| == |g.buttons|
    ensures o.next.pattern == g.pattern + [g.active[pick]]
    ensures o.next.inPlay && o.next.phase == RoundPause && o.next.lastClicked == None
    ensures Notifications(o.notes) == [PatternRepeated]
    ensures o.next.active == g.active && o.next.staleEnds == g.staleEnds
  {
    var off := EndRepeat(g);
    var g' := g.(buttons := off, lastClicked := None, subscriptions := 0,
                 pattern := g.pattern + [g.active[pick]], phase := RoundPause);
    assert g.active[pick] in g.active;
    assert forall x :: x in g'.pattern ==> x in g.pattern || x == g.active[pick];
    Outcome(g', Announce(Commands(g.active, false), PatternRepeated))
  }

  /** A wrong press: disable the active buttons, enable them all, and go to the final pause. */
  function Failed(g: Game): (o: Outcome)
    requires Valid(g) && g.phase.Awaiting?
    ensures Valid(o.next)
    ensures |o.next.buttons| == |g.buttons|
    ensures !o.next.inPlay && o.next.phase == FinalPause && o.next.pattern == g.pattern
    ensures forall b :: 0 <= b < |g.buttons| ==> o.next.buttons[b].interactable
    ensures Notifications(o.notes) == [PatternFail]
    ensures o.notes[|o.notes| - 1] == PatternFail
    ensures o.next.active == g.active && o.next.staleEnds == g.staleEnds
  {
    var g' := g.(buttons := SetAll(EndRepeat(g), true), inPlay := false, subscriptions := 0, phase := FinalPause);
    assert InteractableAsExpected(g');
    Outcome(g', FailNotes(g))
  }

  /** What a wrong press makes the coordinator do: disable the active buttons, enable them all, announce onPatternFail. */
  function FailNotes(g: Game): (ns: seq<Note>)
    ensures Notifications(ns) == [PatternFail]
    ensures |ns| > 0 && ns[|ns| - 1] == PatternFail
  {
    var ids := AllIds(|g.buttons|);
    NotificationsAppend(Commands(g.active, false), Commands(ids, true));
    Announce(Commands(g.active, false) + Commands(ids, true), PatternFail)
  }

  /** One look at the last clicked button while the player repeats the pattern. */
  function CheckClick(g: Game, pick: nat): (o: Outcome)
    requires Valid(g) && g.phase.Awaiting? && pick < |g.active|
    ensures Valid(o.next)
    ensures |o.next.buttons| == |g.buttons|
    // no click yet: keep waiting
    ensures g.lastClicked.None? ==> o == Outcome(g, [])
    // the expected button: advance by one and clear the click
    ensures g.lastClicked == Some(g.pattern[g.phase.index]) && g.phase.index + 1 < |g.pattern| ==>
      o == Outcome(g.(lastClicked := None, phase := Awaiting(g.phase.index + 1)), [])
    // the last expected button: the pattern grows by one active button
    ensures g.lastClicked == Some(g.pattern[g.phase.index]) && g.phase.index + 1 == |g.pattern| ==>
      o == Grown(g, pick)
    // any other button: the game is over
    ensures g.lastClicked.Some? && g.lastClicked != Some(g.pattern[g.phase.index]) ==>
      o == Failed(g)
    ensures o.next.active == g.active && o.next.staleEnds == g.staleEnds
  {
    var i := g.phase.index;
    match g.lastClicked
    case None => Outcome(g, [])
    case Some(b) =>
      if b == g.pattern[i] && i + 1 < |g.pattern| then
        Outcome(g.(lastClicked := None, phase := Awaiting(i + 1)), [])
      else if b == g.pattern[i] then Grown(g, pick)
      else Failed(g)
  }

  /** The pending wait of the running session is over. */
  function TickStep(g: Game, pick: nat): (o: Outcome)
    requires Valid(g) && (!g.phase.Idle? ==> pick < |g.active|)
    ensures Valid(o.next)
    ensures |o.next.buttons| == |g.buttons| && o.next.active == g.active
    ensures g.phase.Idle? ==> o == Outcome(g, [])
    ensures g.phase.StartPause? ==> o == Outcome(g.(phase := RoundPause), [])
    ensures g.phase.RoundPause? || g.phase.Replaying? ==> o == ReplayStep(g)
    ensures g.phase.RepeatPause? ==> o == BeginRepeat(g)
    ensures g.phase.Awaiting? ==> o == CheckClick(g, pick)
    ensures g.phase.FinalPause? ==> o == Outcome(g.(phase := Idle), [GameEnd])
  {
    match g.phase
    case Idle => Outcome(g, [])
    case StartPause => Outcome(g.(phase := RoundPause), [])
    case RoundPause => ReplayStep(g)
    case Replaying(_, _) => ReplayStep(g)
    case RepeatPause => BeginRepeat(g)
    case Awaiting(_) => CheckClick(g, pick)
    case FinalPause => Outcome(g.(phase := Idle), [GameEnd])
  }

  /** A trigger delivered to a controller; a resulting OnTriggered reaches the handler if it is registered. */
  function PointerStep(g: Game, b: ButtonId, t: B.Trigger): (o: Outcome)
    requires Valid(g) && b < |g.buttons|
    ensures Valid(o.next)
    ensures o.next == g.(buttons := o.next.buttons, lastClicked := o.next.lastClicked)
    ensures |o.next.buttons| == |g.buttons|
    ensures Notifications(o.notes) == []
    ensures Triggered(b) in o.notes <==> B.Fires(g.buttons[b], t)
    ensures B.Fires(g.buttons[b], t) ==> g.buttons[b].interactable
    ensures o.next.lastClicked == (if B.Fires(g.buttons[b], t) && g.subscriptions > 0 then Some(b) else g.lastClicked)
  {
    var fired := B.Fires(g.buttons[b], t);
    var r := B.ProcessTrigger(g.buttons[b], t);
    var clicked := if fired && g.subscriptions > 0 then Some(b) else g.lastClicked;
    Outcome(g.(buttons := g.buttons[b := r.next], lastClicked := clicked), if fired then [Triggered(b)] else [])
  }

  /** An earlier session's final pause is over: its onGameEnd fires now. */
  function StaleEndStep(g: Game): (o: Outcome)
    requires Valid(g)
    ensures Valid(o.next)
    ensures g.staleEnds > 0 ==> o == Outcome(g.(staleEnds := g.staleEnds - 1), [GameEnd])
    ensures g.staleEnds == 0 ==> o == Outcome(g, [])
  {
    if g.staleEnds > 0 then Outcome(g.(staleEnds := g.staleEnds - 1), [GameEnd]) else Outcome(g, [])
  }

  /** Whether the environment can produce an input in this state. */
  predicate InputOk(g: Game, e: Input) {
    match e
    case StartGame(activeNow, pick) => IdsIn(activeNow, |g.buttons|) && pick < |activeNow|
    case Tick(pick) => g.phase.Idle? || pick < |g.active|
    case Pointer(b, _) => b < |g.buttons|
    case StaleEnd => true
  }

  function Step(g: Game, e: Input): (o: Outcome)
    requires Valid(g)
    ensures Valid(o.next)
    ensures |o.next.buttons| == |g.buttons|
  {
    if !InputOk(g, e) then Outcome(g, [])
    else match e
      case StartGame(activeNow, pick) => Start(g, activeNow, pick)
      case Tick(pick) => TickStep(g, pick)
      case Pointer(b, t) => PointerStep(g, b, t)
      case StaleEnd => StaleEndStep(g)
  }

  function Run(g: Game, es: seq<Input>): (o: Outcome)
    requires Valid(g)
    ensures Valid(o.next)
    decreases |es|
  {
    if |es| == 0 then Outcome(g, [])
    else
      var first := Step(g, es[0]);
      var rest := Run(first.next, es[1..]);
      Outcome(rest.next, first.notes + rest.notes)
  }
}
