/**
 * ButtonAmountController: how many button pivots are active. A requested
 * amount is clamped to [2, number of pivots]; a change hides the surplus
 * pivots (when shrinking), rotates the first `n` pivots to an even layout, and
 * shows the missing ones (when growing), then announces the new amount.
 *
 * Each wait of the coroutine is a stage, and `Advance` is the end of that
 * wait: the hide sequence completing, the one frame before the rotation, and
 * the show sequence completing.
 */
module AmountController {
  import opened CSharp

  /**
   * One pivot: whether its game object is active, whether its button is at
   * full scale (otherwise at scale 0), and the rotation it was last sent to.
   */
  datatype Pivot = Pivot(active: bool, shown: bool, angle: Option<int>)

  /** The wait the running change is in. */
  datatype Stage = Hiding | Rotating | Showing

  datatype Job = Job(amount: int, stage: Stage)

  datatype Controller = Controller(pivots: seq<Pivot>, last: int, busy: bool, job: Option<Job>)

  datatype Event = ChangingStart(amount: int) | ChangingEnd(amount: int)

  datatype Update = Update(next: Controller, events: seq<Event>)

  /** Exactly the first `k` pivots are active and at full scale. */
  predicate ActiveExactly(ps: seq<Pivot>, k: int) {
    forall i :: 0 <= i < |ps| ==> ps[i].active == (i < k) && ps[i].shown == (i < k)
  }

  /** The first `k` pivots were sent to the layout for `k` buttons. */
  predicate LaidOut(ps: seq<Pivot>, k: int)
    requires k > 0
  {
    forall i :: 0 <= i < k && i < |ps| ==> ps[i].angle == Some(Angle(k, i))
  }

  /** At rest with `k` buttons: the first `k` pivots visible and laid out for `k`, the rest hidden. */
  predicate Settled(ps: seq<Pivot>, k: int) {
    ActiveExactly(ps, k) && (k > 0 ==> LaidOut(ps, k))
  }

  predicate Valid(c: Controller) {
    && 0 <= c.last <= |c.pivots|
    && (!c.busy ==> c.job.None? && Settled(c.pivots, c.last))
    && (c.job.Some? ==> c.busy && c.job.value.amount != c.last && c.job.value.amount > 0 && JobValid(c))
  }

  /** What each stage of a running change can rely on. */
  predicate JobValid(c: Controller)
    requires c.job.Some?
  {
    var n := c.job.value.amount;
    match c.job.value.stage
    case Hiding => n < c.last && Settled(c.pivots, c.last)
    case Rotating => ActiveExactly(c.pivots, if n < c.last then n else c.last)
    case Showing =>
      && c.last < n <= |c.pivots|
      && (forall i :: 0 <= i < |c.pivots| ==> c.pivots[i].active == (i < n) && c.pivots[i].shown == (i < c.last))
      && n > 0 && LaidOut(c.pivots, n)
  }

  /**
   * The layout for `n` buttons: pivot `i` is rotated to `angle * i - start`,
   * where `angle` is `360 / n` in integer division and the start offset
   * `90 - angle` for an odd `n`, 0 for an even one.
   */
  function Angle(n: int, i: int): (a: int)
    requires n > 0
  {
    var step := 360 / n;
    step * i - (if n % 2 == 1 then 90 - step else 0)
  }

  /** `Start`: every pivot inactive with its button at scale 0; no buttons are shown. */
  function Start(pivots: seq<Pivot>): (c: Controller)
    ensures Valid(c) && c.last == 0 && !c.busy
    ensures |c.pivots| == |pivots|
    ensures forall i :: 0 <= i < |pivots| ==> !c.pivots[i].active && c.pivots[i].angle == pivots[i].angle
  {
    Controller(seq(|pivots|, i requires 0 <= i < |pivots| => pivots[i].(active := false, shown := false)), 0, false, None)
  }

  /** `UpdateButtonAmount`: clamp, ignore a repeat or a request while busy, otherwise start the change. */
  function UpdateButtonAmount(c: Controller, requested: int): (u: Update)
    requires Valid(c)
    ensures Valid(u.next)
    ensures var n := ClampInt(requested, 2, |c.pivots|);
      && (n == c.last || c.busy ==> u == Update(c, []))
      && (n != c.last && !c.busy ==>
            && u.next == c.(busy := true, job := Some(Job(n, if n < c.last then Hiding else Rotating)))
            && u.events == [ChangingStart(n)])
  {
    var n := ClampInt(requested, 2, |c.pivots|);
    if n == c.last || c.busy then Update(c, [])
    else Update(c.(busy := true, job := Some(Job(n, if n < c.last then Hiding else Rotating))), [ChangingStart(n)])
  }

  /** Deactivate the pivots from `n` on, their buttons at scale 0. */
  function Hide(ps: seq<Pivot>, n: int): (r: seq<Pivot>)
    ensures |r| == |ps|
    // a pivot stays active and shown only if it was and lies below `n`; rotations are kept
    ensures forall i :: 0 <= i < |ps| ==>
      && (r[i].active <==> ps[i].active && i < n)
      && (r[i].shown <==> ps[i].shown && i < n)
      && r[i].angle == ps[i].angle
    // shrinking a settled row of `k` leaves exactly the first `n`
    ensures forall k :: 0 <= n <= k && ActiveExactly(ps, k) ==> ActiveExactly(r, n)
  {
    seq(|ps|, i requires 0 <= i < |ps| => if i >= n then ps[i].(active := false, shown := false) else ps[i])
  }

  /**
   * Send pivots 0 .. n-1 to the layout for `n`, in index order. Indexing past
   * the last pivot throws after the earlier pivots have been sent; the flag
   * says whether the loop ran to the end.
   */
  function Rotate(ps: seq<Pivot>, n: int): (r: (seq<Pivot>, bool))
    requires n > 0
    ensures r.1 <==> n <= |ps|
    ensures |r.0| == |ps|
    // the first `n` pivots (as far as they exist) take the layout for `n`
    ensures LaidOut(r.0, n)
    // only rotations change, and only below `n`
    ensures forall i :: 0 <= i < |ps| ==> r.0[i] == ps[i].(angle := r.0[i].angle)
    ensures forall i :: n <= i < |ps| ==> r.0[i] == ps[i]
  {
    (seq(|ps|, i requires 0 <= i < |ps| => if i < n then ps[i].(angle := Some(Angle(n, i))) else ps[i]), n <= |ps|)
  }

  /** Activate pivots `from` .. n-1, their buttons set to scale 0 before they scale in. */
  function Activate(ps: seq<Pivot>, from: int, n: int): (r: seq<Pivot>)
    ensures |r| == |ps|
    // rotations are kept, and nothing outside `from .. n-1` changes
    ensures forall i :: 0 <= i < |ps| ==> r[i] == ps[i].(active := r[i].active, shown := r[i].shown)
    ensures forall i :: 0 <= i < |ps| && !(from <= i < n) ==> r[i] == ps[i]
    // growing a settled row of `from`: the first `n` pivots are active, the old ones still shown, the new ones not yet
    ensures 0 <= from <= n && ActiveExactly(ps, from) ==>
      forall i :: 0 <= i < |ps| ==> r[i].active == (i < n) && r[i].shown == (i < from)
  {
    seq(|ps|, i requires 0 <= i < |ps| => if from <= i < n then ps[i].(active := true, shown := false) else ps[i])
  }

  /** The show sequence has completed: the new buttons are at full scale. */
  function ScaleIn(ps: seq<Pivot>, from: int, n: int): (r: seq<Pivot>)
    ensures |r| == |ps|
    // only the scale of `from .. n-1` changes
    ensures forall i :: 0 <= i < |ps| ==> r[i] == ps[i].(shown := r[i].shown)
    ensures forall i :: 0 <= i < |ps| && !(from <= i < n) ==> r[i] == ps[i]
    // once the new pivots have scaled in, exactly the first `n` are active and shown
    ensures 0 <= from <= n && (forall i :: 0 <= i < |ps| ==> ps[i].active == (i < n) && ps[i].shown == (i < from)) ==>
      ActiveExactly(r, n)
  {
    seq(|ps|, i requires 0 <= i < |ps| => if from <= i < n then ps[i].(shown := true) else ps[i])
  }

  /** The end of `UpdateButtonAmountInternal`. */
  function Finish(c: Controller, pivots: seq<Pivot>, n: int): Update {
    Update(Controller(pivots, n, false, None), [ChangingEnd(n)])
  }

  /** The end of the wait the running change is in, and what the coroutine does until its next wait. */
  function Advance(c: Controller): (u: Update)
    requires Valid(c) && c.job.Some?
    ensures Valid(u.next)
    ensures |u.next.pivots| == |c.pivots|
    // a completed change settles on the new amount and announces it
    ensures !u.next.busy ==> u.next.last == c.job.value.amount && u.events == [ChangingEnd(c.job.value.amount)]
    ensures u.next.busy ==> u.events == [] && u.next.last == c.last
    // the only way to get stuck: more buttons requested than there are pivots
    ensures u.next.busy && u.next.job.None? <==> c.job.value.stage == Rotating && c.job.value.amount > |c.pivots|
  {
    var n := c.job.value.amount;
    match c.job.value.stage
    case Hiding =>
      Update(c.(pivots := Hide(c.pivots, n), job := Some(Job(n, Rotating))), [])
    case Rotating =>
      var (ps, ok) := Rotate(c.pivots, n);
      if !ok then Update(c.(pivots := ps, job := None), [])
      else if n > c.last then
        Update(c.(pivots := Activate(ps, c.last, n), job := Some(Job(n, Showing))), [])
      else
        Finish(c, ps, n)
    case Showing =>
      Finish(c, ScaleIn(c.pivots, c.last, n), n)
  }

  /** Up to `k` ends of waits of the running change; it stops early once no change is running. */
  function Advances(c: Controller, k: nat): (u: Update)
    requires Valid(c)
    ensures Valid(u.next) && |u.next.pivots| == |c.pivots|
    decreases k
  {
    if k == 0 || c.job.None? then Update(c, [])
    else
      var first := Advance(c);
      var rest := Advances(first.next, k - 1);
      Update(rest.next, first.events + rest.events)
  }

  /**
   * With at least two pivots, a change from rest completes after two waits:
   * exactly the first `n` pivots are active, shown and laid out for `n`,
   * where `n` is the clamped request, and the start and end events carry `n`.
   */
  lemma ChangeCompletes(c: Controller, requested: int)
    requires Valid(c) && !c.busy && |c.pivots| >= 2
    requires ClampInt(requested, 2, |c.pivots|) != c.last
    ensures var n := ClampInt(requested, 2, |c.pivots|);
      var u := UpdateButtonAmount(c, requested);
      var done := Advances(u.next, 2);
      && 2 <= n <= |c.pivots|
      && Settled(done.next.pivots, n) && done.next.last == n && !done.next.busy
      && u.events + done.events == [ChangingStart(n), ChangingEnd(n)]
  {
    var n := ClampInt(requested, 2, |c.pivots|);
    var u := UpdateButtonAmount(c, requested);
    var a1 := Advance(u.next);
    var a2 := Advance(a1.next);
    assert Advances(a1.next, 1) == Update(a2.next, a2.events + []);
    assert a2.next.job.None?;
    if n < c.last {
      assert a1.next.job == Some(Job(n, Rotating));
    } else {
      assert a1.next.job == Some(Job(n, Showing));
    }
  }

  /**
   * With fewer than two pivots the clamp can ask for more buttons than there
   * are: the rotation throws and the controller stays busy, ignoring every
   * later request.
   */
  lemma TooFewPivotsWedge(c: Controller, requested: int, later: int)
    requires Valid(c) && !c.busy
    requires ClampInt(requested, 2, |c.pivots|) != c.last && ClampInt(requested, 2, |c.pivots|) > |c.pivots|
    ensures var stuck := Advance(UpdateButtonAmount(c, requested).next).next;
      && stuck.busy && stuck.job.None? && stuck.last == c.last
      && UpdateButtonAmount(stuck, later) == Update(stuck, [])
  {
  }

  /**
   * Consecutive pivots are `360 / n` degrees apart, so `n` steps cover
   * `360 - 360 % n` degrees: the layout closes into an even circle exactly when
   * `n` divides 360.
   */
  lemma LayoutSpacing(n: int, i: int)
    requires n > 0
    ensures Angle(n, i + 1) - Angle(n, i) == 360 / n
    ensures Angle(n, i + n) - Angle(n, i) == 360 - 360 % n
  {
    var step := 360 / n;
    assert (i + n) * step - i * step == n * step;
    assert n * step == 360 - 360 % n;
  }
}
