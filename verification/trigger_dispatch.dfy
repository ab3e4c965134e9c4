/**
 * TriggerManager.UpdateRay: once per frame the pointer's hit target (the
 * raycast, abstracted to an optional target) and whether the primary action is
 * held are turned into Enter/Exit/Down/Up messages for the interactables.
 */
module TriggerDispatch {
  import opened CSharp
  import ButtonController

  type Trigger = ButtonController.Trigger

  /** An interactable the ray can hit. */
  type TargetId = nat

  datatype Dispatcher = Dispatcher(lastInteractable: Option<TargetId>, lastRayActive: bool)

  /** One message: the target and the trigger it receives. */
  datatype Message = Message(target: TargetId, trigger: Trigger)

  datatype Dispatch = Dispatch(next: Dispatcher, messages: seq<Message>)

  function Initial(): Dispatcher {
    Dispatcher(None, false)
  }

  /** The hover messages for a change of target: Exit to the old one, then Enter to the new one. */
  function HoverMessages(previous: Option<TargetId>, current: Option<TargetId>, supportHover: bool): seq<Message> {
    (if previous.Some? && supportHover then [Message(previous.value, ButtonController.Exit)] else [])
    + (if current.Some? && supportHover then [Message(current.value, ButtonController.Enter)] else [])
  }

  /** `UpdateRay(ray, rayActive)` with the raycast replaced by its result `hit`. */
  function UpdateRay(d: Dispatcher, supportHover: bool, hit: Option<TargetId>, rayActive: bool): (r: Dispatch)
    // nothing changed: nothing happens
    ensures hit == d.lastInteractable && rayActive == d.lastRayActive ==> r == Dispatch(d, [])
    // the press state always follows the input
    ensures r.next.lastRayActive == rayActive
    // the tracked target follows the ray only while nothing is pressed
    ensures r.next.lastInteractable == (if d.lastRayActive then d.lastInteractable else hit)
    // without hover support only Down and Up are ever sent
    ensures !supportHover ==> forall m :: m in r.messages ==> m.trigger == ButtonController.Down || m.trigger == ButtonController.Up
    // while pressed, the only possible message is the release to the pressed target
    ensures d.lastRayActive ==> r.messages == (if !rayActive && d.lastInteractable.Some? then [Message(d.lastInteractable.value, ButtonController.Up)] else [])
    // released, on a new target: Exit/Enter first, then a Down to the new target on a press
    ensures !d.lastRayActive && hit != d.lastInteractable ==>
      r.messages == HoverMessages(d.lastInteractable, hit, supportHover)
        + (if rayActive && hit.Some? then [Message(hit.value, ButtonController.Down)] else [])
    // released, same target: only a press can produce a message
    ensures !d.lastRayActive && hit == d.lastInteractable ==>
      r.messages == (if rayActive && hit.Some? then [Message(hit.value, ButtonController.Down)] else [])
  {
    if hit == d.lastInteractable && rayActive == d.lastRayActive then Dispatch(d, [])
    else
      var hover := if !d.lastRayActive && hit != d.lastInteractable
        then HoverMessages(d.lastInteractable, hit, supportHover) else [];
      var target := if !d.lastRayActive && hit != d.lastInteractable then hit else d.lastInteractable;
      var press := if d.lastRayActive != rayActive && target.Some?
        then [Message(target.value, if rayActive then ButtonController.Down else ButtonController.Up)] else [];
      Dispatch(Dispatcher(target, rayActive), hover + press)
  }

  /** One frame of pointer input. */
  datatype Frame = Frame(hit: Option<TargetId>, rayActive: bool)

  function Run(d: Dispatcher, supportHover: bool, frames: seq<Frame>): Dispatch
    decreases |frames|
  {
    if |frames| == 0 then Dispatch(d, [])
    else
      var first := UpdateRay(d, supportHover, frames[0].hit, frames[0].rayActive);
      var rest := Run(first.next, supportHover, frames[1..]);
      Dispatch(rest.next, first.messages + rest.messages)
  }

  predicate IsPress(m: Message) {
    m.trigger == ButtonController.Down || m.trigger == ButtonController.Up
  }

  /** The Down and Up messages of a message list, in order. */
  function Presses(ms: seq<Message>): seq<Message> {
    if |ms| == 0 then []
    else (if IsPress(ms[0]) then [ms[0]] else []) + Presses(ms[1..])
  }

  /**
   * Well-paired presses: starting with `held` (the target of a press not yet
   * released), every Down is followed by an Up to the same target before the
   * next Down, and no Up arrives without a pending Down.
   */
  predicate Paired(held: Option<TargetId>, ps: seq<Message>)
    decreases |ps|
  {
    if |ps| == 0 then true
    else match held
      case Some(t) => ps[0] == Message(t, ButtonController.Up) && Paired(None, ps[1..])
      case None => ps[0].trigger == ButtonController.Down && Paired(Some(ps[0].target), ps[1..])
  }

  /** The target holding an unreleased Down, if any. */
  function Held(d: Dispatcher): Option<TargetId> {
    if d.lastRayActive then d.lastInteractable else None
  }

  lemma {:induction false} PressesAppend(a: seq<Message>, b: seq<Message>)
    ensures Presses(a + b) == Presses(a) + Presses(b)
  {
    if |a| == 0 {
      assert a + b == b;
    } else {
      var c := a + b;
      assert c[0] == a[0];
      assert c[1..] == a[1..] + b;
      PressesAppend(a[1..], b);
      var x := if IsPress(a[0]) then [a[0]] else [];
      var y, z := Presses(a[1..]), Presses(b);
      assert Presses(c) == x + (y + z);
      assert x + (y + z) == (x + y) + z;
    }
  }

  lemma PairedAppend(held: Option<TargetId>, a: seq<Message>, mid: Option<TargetId>, b: seq<Message>)
    requires PairedTo(held, a, mid) && Paired(mid, b)
    ensures Paired(held, a + b)
    decreases |a|
  {
    if |a| == 0 {
      assert a + b == b;
    } else {
      assert (a + b)[1..] == a[1..] + b;
      var h' := if held.Some? then None else Some(a[0].target);
      PairedAppend(h', a[1..], mid, b);
    }
  }

  /** Like `Paired`, and additionally ending with `mid` held. */
  predicate PairedTo(held: Option<TargetId>, ps: seq<Message>, mid: Option<TargetId>)
    decreases |ps|
  {
    if |ps| == 0 then held == mid
    else match held
      case Some(t) => ps[0] == Message(t, ButtonController.Up) && PairedTo(None, ps[1..], mid)
      case None => ps[0].trigger == ButtonController.Down && PairedTo(Some(ps[0].target), ps[1..], mid)
  }

  /** One frame's presses continue a well-paired history. */
  lemma StepPaired(d: Dispatcher, supportHover: bool, f: Frame)
    ensures PairedTo(Held(d), Presses(UpdateRay(d, supportHover, f.hit, f.rayActive).messages),
                     Held(UpdateRay(d, supportHover, f.hit, f.rayActive).next))
  {
    var r := UpdateRay(d, supportHover, f.hit, f.rayActive);
    if d.lastRayActive {
      if !f.rayActive && d.lastInteractable.Some? {
        PressesSingle(Message(d.lastInteractable.value, ButtonController.Up));
      }
    } else {
      var press: seq<Message> := if f.rayActive && f.hit.Some? then [Message(f.hit.value, ButtonController.Down)] else [];
      if |press| > 0 {
        PressesSingle(press[0]);
      }
      if f.hit != d.lastInteractable {
        var hover := HoverMessages(d.lastInteractable, f.hit, supportHover);
        PressesAppend(hover, press);
        HoverNoPresses(d.lastInteractable, f.hit, supportHover);
        assert r.messages == hover + press;
      } else {
        assert r.messages == press;
      }
      assert Presses(r.messages) == press;
    }
  }

  lemma PressesSingle(m: Message)
    ensures Presses([m]) == if IsPress(m) then [m] else []
  {
    assert [m][1..] == [];
  }

  /** Hover messages are neither Downs nor Ups. */
  lemma HoverNoPresses(previous: Option<TargetId>, current: Option<TargetId>, supportHover: bool)
    ensures Presses(HoverMessages(previous, current, supportHover)) == []
  {
    var exit: seq<Message> := if previous.Some? && supportHover then [Message(previous.value, ButtonController.Exit)] else [];
    var enter: seq<Message> := if current.Some? && supportHover then [Message(current.value, ButtonController.Enter)] else [];
    PressesAppend(exit, enter);
    if |exit| > 0 { PressesSingle(exit[0]); }
    if |enter| > 0 { PressesSingle(enter[0]); }
  }

  /**
   * Over any sequence of frames, every Up goes to the target that received
   * the Down before it, and Downs and Ups alternate.
   */
  lemma {:induction false} RunPaired(d: Dispatcher, supportHover: bool, frames: seq<Frame>)
    ensures Paired(Held(d), Presses(Run(d, supportHover, frames).messages))
    decreases |frames|
  {
    if |frames| > 0 {
      var first := UpdateRay(d, supportHover, frames[0].hit, frames[0].rayActive);
      var rest := Run(first.next, supportHover, frames[1..]);
      PressesAppend(first.messages, rest.messages);
      StepPaired(d, supportHover, frames[0]);
      RunPaired(first.next, supportHover, frames[1..]);
      PairedAppend(Held(d), Presses(first.messages), Held(first.next), Presses(rest.messages));
    }
  }
}
