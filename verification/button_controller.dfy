/**
 * SimonSaysButtonController: turns the Enter/Exit/Down/Up triggers of the
 * pointer into `over`/`down` flags, derives a display state from them while
 * the button is interactable, forwards state changes to the view elements of
 * the installed view, and raises the global "triggered" notification when a
 * press is released on an interactable button.
 */
module ButtonController {
  import opened CSharp
  import opened DisplayStates

  /** The messages the pointer sends to an interactable object. */
  datatype Trigger = Enter | Exit | Down | Up

  /**
   * The controller's fields. `views` is the array of view elements of the
   * installed view: `Null` until a view is installed, otherwise the number of
   * elements. `activeSelf` is whether the controller's own game object is active.
   */
  datatype Controller = Controller(
    over: bool,
    down: bool,
    interactable: bool,
    lastState: DisplayState,
    views: Nullable<nat>,
    activeSelf: bool)

  /** What a controller call emits, in order. */
  datatype Notice =
    | Triggered                                      // the static OnTriggered event, carrying this controller
    | ViewState(element: nat, state: DisplayState)   // ChangeDisplayState on one view element
    | ViewIndex(element: nat, index: int)            // SetButtonIndex on one view element

  datatype Reaction = Reaction(next: Controller, notices: seq<Notice>)

  /** The controller as the scene creates it. */
  function Initial(): (c: Controller)
    ensures !c.over && !c.down && c.interactable && c.lastState == Default
    ensures c.views == Null && c.activeSelf
  {
    Controller(false, false, true, Default, Null, true)
  }

  /** The display state the flags call for: a press wins over hovering. */
  function Derived(over: bool, down: bool): (s: DisplayState)
    ensures s == Activated <==> down
    ensures s == Hover <==> !down && over
    ensures s == Default <==> !down && !over
  {
    if down then Activated else if over then Hover else Default
  }

  /** Whether a state change would reach the views at all. */
  predicate CanNotify(c: Controller) {
    c.views.NonNull? && c.activeSelf
  }

  /** The same state sent to every view element, in element order. */
  function Broadcast(elements: nat, s: DisplayState): (ns: seq<Notice>)
    ensures |ns| == elements
    ensures forall i :: 0 <= i < elements ==> ns[i] == ViewState(i, s)
  {
    seq(elements, i requires 0 <= i => ViewState(i, s))
  }

  /** The private `UpdateViewState(state)`: notify only a real change of state. */
  function Show(c: Controller, s: DisplayState): (r: Reaction)
    // only the remembered state can change, and with views it becomes `s`
    ensures r.next == c.(lastState := r.next.lastState)
    ensures CanNotify(c) ==> r.next.lastState == s
    ensures !CanNotify(c) ==> r.next.lastState == c.lastState
    // the views hear only a real change, and then every element hears it once, in order
    ensures r.notices != [] <==> CanNotify(c) && s != c.lastState && c.views.value > 0
    ensures r.notices != [] ==> |r.notices| == c.views.value
    ensures forall i :: 0 <= i < |r.notices| ==> r.notices[i] == ViewState(i, s)
  {
    if !CanNotify(c) || s == c.lastState then Reaction(c, [])
    else Reaction(c.(lastState := s), Broadcast(c.views.value, s))
  }

  /** The parameterless `UpdateViewState()`: re-derive the state, but only while interactable. */
  function Refresh(c: Controller): (r: Reaction)
    ensures !c.interactable ==> r == Reaction(c, [])
    ensures r.next == c.(lastState := r.next.lastState)
    ensures c.interactable && CanNotify(c) ==> r.next.lastState == Derived(c.over, c.down)
    ensures !CanNotify(c) ==> r.next == c && r.notices == []
    ensures forall i :: 0 <= i < |r.notices| ==> r.notices[i] == ViewState(i, Derived(c.over, c.down))
    ensures Triggered !in r.notices
  {
    if c.interactable then Show(c, Derived(c.over, c.down)) else Reaction(c, [])
  }

  /** The flags a trigger leaves behind: Enter/Exit set/clear `over`, Down sets and Up clears `down`. */
  function Flags(c: Controller, t: Trigger): (c': Controller)
    ensures c'.over == (if t == Enter then true else if t == Exit then false else c.over)
    ensures c'.down == (if t == Down then true else if t == Up then false else c.down)
    ensures c'.interactable == c.interactable && c'.lastState == c.lastState
    ensures c'.views == c.views && c'.activeSelf == c.activeSelf
  {
    match t
    case Enter => c.(over := true)
    case Exit => c.(over := false)
    case Down => c.(down := true)
    case Up => c.(down := false)
  }

  /** Whether processing `t` raises OnTriggered: a release of a press on an interactable button. */
  predicate Fires(c: Controller, t: Trigger) {
    t == Up && c.down && c.interactable
  }

  /** `ProcessTrigger`: update the flags (firing OnTriggered first on a qualifying Up), then refresh. */
  function ProcessTrigger(c: Controller, t: Trigger): (r: Reaction)
    ensures r.next.over == (if t == Enter then true else if t == Exit then false else c.over)
    ensures r.next.down == (if t == Down then true else if t == Up then false else c.down)
    ensures r.next.interactable == c.interactable
    ensures r.next.views == c.views && r.next.activeSelf == c.activeSelf
    ensures (Triggered in r.notices) <==> t == Up && c.down && c.interactable
    ensures Fires(c, t) ==> |r.notices| > 0 && r.notices[0] == Triggered
    ensures !c.interactable ==> r.next.lastState == c.lastState
    ensures c.interactable && CanNotify(c) ==> r.next.lastState == Derived(r.next.over, r.next.down)
  {
    var fired: seq<Notice> := if Fires(c, t) then [Triggered] else [];
    var after := Refresh(Flags(c, t));
    Reaction(after.next, fired + after.notices)
  }

  /** `ForceState`: show a state whatever the interactable flag says. */
  function ForceState(c: Controller, s: DisplayState): (r: Reaction)
    ensures CanNotify(c) ==> r.next.lastState == s
    ensures !CanNotify(c) ==> r.next == c && r.notices == []
    ensures r.next == c.(lastState := r.next.lastState)
    ensures Triggered !in r.notices
  {
    Show(c, s)
  }

  /** `SetInteractable`: store the flag, then re-derive the state from the current flags. */
  function SetInteractable(c: Controller, flag: bool): (r: Reaction)
    ensures r.next.interactable == flag
    ensures r.next.over == c.over && r.next.down == c.down
    ensures r.next.views == c.views && r.next.activeSelf == c.activeSelf
    ensures flag && CanNotify(c) ==> r.next.lastState == Derived(c.over, c.down)
    ensures !flag ==> r.next.lastState == c.lastState && r.notices == []
    ensures Triggered !in r.notices
  {
    Refresh(c.(interactable := flag))
  }

  /**
   * `InitializeNewView`: replace the installed view by one with `elements`
   * view elements, each told the button's index. The last state is kept.
   */
  function InitializeNewView(c: Controller, elements: nat, index: int): (r: Reaction)
    ensures r.next == c.(views := NonNull(elements))
    ensures |r.notices| == elements
    ensures forall i :: 0 <= i < elements ==> r.notices[i] == ViewIndex(i, index)
  {
    Reaction(c.(views := NonNull(elements)), seq(elements, i requires 0 <= i => ViewIndex(i, index)))
  }

  /**
   * Once a view is installed on an active controller, every element of it,
   * and nothing else, hears the next change of state, and hears it after
   * being told the button index.
   */
  lemma NewViewHearsChanges(c: Controller, elements: nat, index: int, s: DisplayState)
    requires c.activeSelf && s != c.lastState && elements > 0
    ensures var v := InitializeNewView(c, elements, index);
      var shown := Show(v.next, s);
      && |shown.notices| == elements
      && (forall i :: 0 <= i < elements ==> v.notices[i] == ViewIndex(i, index) && shown.notices[i] == ViewState(i, s))
      && shown.next.lastState == s && shown.next.views == NonNull(elements)
  {
  }

  /** Two identical states in a row reach the views once. */
  lemma NoRepeatedNotification(c: Controller, s: DisplayState)
    ensures Show(Show(c, s).next, s).notices == []
  {
  }

  /** Whatever the views last received is the controller's last state. */
  lemma ViewsSeeLastState(c: Controller, s: DisplayState, i: nat)
    requires i < |Show(c, s).notices|
    ensures Show(c, s).notices[i] == ViewState(i, Show(c, s).next.lastState)
  {
  }

  /** Run a sequence of triggers through a controller, collecting everything it emits. */
  function Run(c: Controller, ts: seq<Trigger>): Reaction
    decreases |ts|
  {
    if |ts| == 0 then Reaction(c, [])
    else
      var first := ProcessTrigger(c, ts[0]);
      var rest := Run(first.next, ts[1..]);
      Reaction(rest.next, first.notices + rest.notices)
  }

  function CountTriggered(ns: seq<Notice>): nat {
    if |ns| == 0 then 0 else (if ns[0] == Triggered then 1 else 0) + CountTriggered(ns[1..])
  }

  function CountDowns(ts: seq<Trigger>): nat {
    if |ts| == 0 then 0 else (if ts[0] == Down then 1 else 0) + CountDowns(ts[1..])
  }

  lemma CountTriggeredAppend(a: seq<Notice>, b: seq<Notice>)
    ensures CountTriggered(a + b) == CountTriggered(a) + CountTriggered(b)
  {
    if |a| > 0 {
      assert (a + b)[1..] == a[1..] + b;
      CountTriggeredAppend(a[1..], b);
    } else {
      assert a + b == b;
    }
  }

  lemma CountTriggeredOfProcess(c: Controller, t: Trigger)
    ensures CountTriggered(ProcessTrigger(c, t).notices) == if Fires(c, t) then 1 else 0
  {
    var after := Refresh(Flags(c, t));
    var fired: seq<Notice> := if Fires(c, t) then [Triggered] else [];
    CountTriggeredAppend(fired, after.notices);
    assert Triggered !in after.notices;
    NoTriggeredCountsZero(after.notices);
  }

  lemma NoTriggeredCountsZero(ns: seq<Notice>)
    requires Triggered !in ns
    ensures CountTriggered(ns) == 0
  {
    if |ns| > 0 {
      assert ns[0] in ns;
      assert forall n :: n in ns[1..] ==> n in ns;
      NoTriggeredCountsZero(ns[1..]);
    }
  }

  /**
   * Each OnTriggered is paid for by a press: over any trigger sequence the
   * number of notifications is at most the number of Down triggers, plus one
   * for a press already held at the start.
   */
  lemma {:induction false} TriggeredNeedsPress(c: Controller, ts: seq<Trigger>)
    ensures CountTriggered(Run(c, ts).notices) <= CountDowns(ts) + (if c.down then 1 else 0)
    decreases |ts|
  {
    if |ts| > 0 {
      var first := ProcessTrigger(c, ts[0]);
      var rest := Run(first.next, ts[1..]);
      CountTriggeredAppend(first.notices, rest.notices);
      CountTriggeredOfProcess(c, ts[0]);
      TriggeredNeedsPress(first.next, ts[1..]);
    }
  }
}
