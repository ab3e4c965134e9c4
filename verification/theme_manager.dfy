/**
 * ButtonThemeManager: installs the view prefab of the selected theme on every
 * button controller. The first install happens at once; later ones run as a
 * staggered tween sequence whose callbacks install one controller at a time,
 * in controller order. While a change is running, further requests are ignored.
 *
 * The tween sequence is modelled by `Advance`, one step per callback and one
 * final step for its completion.
 *
 * Assumption: assertions are compiled in and set to log rather than throw
 * (`Assert.raiseExceptions` off). Under that setting a failed assertion is a
 * logged event and the request carries on past it, which is what `AssertLog`
 * and the invalid-index branch of `UpdateTheme` describe.
 */
module ThemeManager {
  import opened CSharp
  import opened ButtonTheme

  /** What a controller was last asked to install: a prefab and the button index given with it. */
  datatype Install = Install(prefab: PrefabId, index: int)

  /** The animated install in progress: controllers before `next` have had their callback. */
  datatype Job = Job(themeIndex: nat, next: nat)

  datatype Manager = Manager(
    themes: seq<Theme>,
    slots: seq<Option<Install>>,  // one per button controller
    lastThemeIndex: int,
    busy: bool,
    job: Option<Job>)

  datatype Event =
    | ThemesEmpty                   // the "Themes cannot be empty" assertion failed
    | InvalidIndex                  // the "Invalid index provided" assertion failed
    | ChangingStart(themeIndex: nat)
    | ChangingEnd(themeIndex: nat)

  datatype Update = Update(next: Manager, events: seq<Event>)

  /** The manager after `Awake`, with one empty slot per controller. */
  function Initial(themes: seq<Theme>, controllers: nat): (m: Manager)
    ensures Valid(m) && |m.slots| == controllers && !m.busy && m.lastThemeIndex == -1
    ensures forall i :: 0 <= i < controllers ==> m.slots[i].None?
  {
    Manager(themes, seq(controllers, _ => None), -1, false, None)
  }

  predicate Valid(m: Manager) {
    && (m.lastThemeIndex == -1 || 0 <= m.lastThemeIndex < |m.themes|)
    && (m.job.Some? ==>
          && m.busy && m.lastThemeIndex != -1
          && m.job.value.themeIndex < |m.themes| && m.job.value.next <= |m.slots|)
  }

  /** Busy with no install running: nothing will ever clear `busy` again. */
  predicate Wedged(m: Manager) {
    m.busy && m.job.None?
  }

  predicate ValidIndex(m: Manager, index: int) {
    index > -1 && index < |m.themes|
  }

  /** The assertions of `UpdateTheme` that fail, in order. */
  function AssertLog(m: Manager, index: int): (log: seq<Event>)
    ensures log == [] <==> ValidIndex(m, index)
  {
    (if |m.themes| == 0 then [ThemesEmpty] else [])
    + (if !ValidIndex(m, index) then [InvalidIndex] else [])
  }

  /** `InitializeView(theme, i)`: controller `i` gets the theme's prefab for index `i`, if the lookup succeeds. */
  function InstallSlot(slots: seq<Option<Install>>, t: Theme, i: nat): (r: Result<seq<Option<Install>>>)
    requires i < |slots|
    ensures r.Ok? <==> GetViewPrefab(t, i).Ok?
    ensures r.Ok? ==> r.value == slots[i := Some(Install(GetViewPrefab(t, i).value, i))]
  {
    match GetViewPrefab(t, i)
    case Ok(p) => Ok(slots[i := Some(Install(p, i))])
    case Throws(f) => Throws(f)
  }

  /** Every controller from `i` on has the theme installed for its own index. */
  predicate InstalledFrom(slots: seq<Option<Install>>, t: Theme, i: nat) {
    forall j :: i <= j < |slots| ==>
      GetViewPrefab(t, j).Ok? && slots[j] == Some(Install(GetViewPrefab(t, j).value, j))
  }

  /**
   * The first-time loop over the controllers from `i` on. A lookup that throws
   * ends the loop (and with it the coroutine); the result says whether the loop
   * ran to the end.
   */
  function InstallAll(slots: seq<Option<Install>>, t: Theme, i: nat): (r: (seq<Option<Install>>, bool))
    requires i <= |slots|
    ensures |r.0| == |slots|
    ensures forall j :: 0 <= j < i ==> r.0[j] == slots[j]
    ensures r.1 <==> forall j :: i <= j < |slots| ==> GetViewPrefab(t, j).Ok?
    ensures r.1 ==> InstalledFrom(r.0, t, i)
    decreases |slots| - i
  {
    if i == |slots| then (slots, true)
    else match InstallSlot(slots, t, i)
      case Throws(_) => (slots, false)
      case Ok(slots') =>
        var r := InstallAll(slots', t, i + 1);
        assert r.0[i] == slots'[i];
        r
  }

  /** `UpdateTheme(index)` together with the part of `UpdateThemeInternal` before its first wait. */
  function UpdateTheme(m: Manager, index: int): (u: Update)
    requires Valid(m)
    ensures Valid(u.next)
    // a repeated index or a running change: only the assertions are logged
    ensures index == m.lastThemeIndex || m.busy ==> u == Update(m, AssertLog(m, index))
    // an invalid index gets past the guard: the coroutine throws right after setting busy
    ensures index != m.lastThemeIndex && !m.busy && !ValidIndex(m, index) ==>
      u == Update(m.(busy := true), AssertLog(m, index)) && Wedged(u.next)
    // the first install: every controller at once, without any wait
    ensures index != m.lastThemeIndex && !m.busy && ValidIndex(m, index) && m.lastThemeIndex == -1 ==>
      var t := m.themes[index];
      && |u.events| > 0 && u.events[0] == ChangingStart(index)
      && |u.next.slots| == |m.slots|
      && ((forall j :: 0 <= j < |m.slots| ==> GetViewPrefab(t, j).Ok?) ==>
            && InstalledFrom(u.next.slots, t, 0)
            && u.next.lastThemeIndex == index && !u.next.busy
            && u.events == [ChangingStart(index), ChangingEnd(index)])
      && (!(forall j :: 0 <= j < |m.slots| ==> GetViewPrefab(t, j).Ok?) ==>
            Wedged(u.next) && u.events == [ChangingStart(index)])
    // a later install: start the animated sequence
    ensures index != m.lastThemeIndex && !m.busy && ValidIndex(m, index) && m.lastThemeIndex != -1 ==>
      u == Update(m.(busy := true, job := Some(Job(index, 0))), [ChangingStart(index)])
  {
    var log := AssertLog(m, index);
    if index == m.lastThemeIndex || m.busy then Update(m, log)
    else if !ValidIndex(m, index) then Update(m.(busy := true), log)
    else if m.lastThemeIndex == -1 then
      var r := InstallAll(m.slots, m.themes[index], 0);
      if r.1 then
        Update(m.(slots := r.0, lastThemeIndex := index), [ChangingStart(index), ChangingEnd(index)])
      else
        Update(m.(slots := r.0, busy := true), [ChangingStart(index)])
    else Update(m.(busy := true, job := Some(Job(index, 0))), [ChangingStart(index)])
  }

  /**
   * The next event of the running tween sequence: the install callback of the
   * next controller, or, after the last one, the sequence's completion. A
   * callback whose lookup throws leaves its controller as it was; the tween
   * library logs the exception and the sequence goes on.
   */
  function Advance(m: Manager): (u: Update)
    requires Valid(m) && m.job.Some?
    ensures Valid(u.next)
    ensures |u.next.slots| == |m.slots|
    ensures m.job.value.next < |m.slots| ==>
      && u.next.job == Some(Job(m.job.value.themeIndex, m.job.value.next + 1))
      && u.events == [] && u.next.busy
      && (forall j :: 0 <= j < |m.slots| && j != m.job.value.next ==> u.next.slots[j] == m.slots[j])
      && (GetViewPrefab(m.themes[m.job.value.themeIndex], m.job.value.next).Ok? ==>
            u.next.slots[m.job.value.next]
              == Some(Install(GetViewPrefab(m.themes[m.job.value.themeIndex], m.job.value.next).value, m.job.value.next)))
    ensures m.job.value.next == |m.slots| ==>
      u == Update(m.(lastThemeIndex := m.job.value.themeIndex, busy := false, job := None),
                  [ChangingEnd(m.job.value.themeIndex)])
  {
    var Job(index, i) := m.job.value;
    if i < |m.slots| then
      var slots := match InstallSlot(m.slots, m.themes[index], i) case Ok(s) => s case Throws(_) => m.slots;
      Update(m.(slots := slots, job := Some(Job(index, i + 1))), [])
    else
      Update(m.(lastThemeIndex := index, busy := false, job := None), [ChangingEnd(index)])
  }

  /** Up to `n` events of the running sequence; it stops early once no install is running. */
  function Advances(m: Manager, n: nat): (u: Update)
    requires Valid(m)
    ensures Valid(u.next) && |u.next.slots| == |m.slots|
    decreases n
  {
    if n == 0 || m.job.None? then Update(m, [])
    else
      var first := Advance(m);
      var rest := Advances(first.next, n - 1);
      Update(rest.next, first.events + rest.events)
  }

  /**
   * An animated install that has reached controller `k` of a theme with
   * prefabs runs to completion in `|slots| - k + 1` events: every later
   * controller gets the theme's prefab for its index, the earlier ones keep
   * theirs, the theme becomes the current one, and the end event fires last.
   */
  lemma {:induction false} AnimatedInstallCompletes(m: Manager, k: nat)
    requires Valid(m) && m.job.Some? && m.job.value.next == k
    requires |m.themes[m.job.value.themeIndex].prefabs| > 0
    ensures var u := Advances(m, |m.slots| - k + 1);
      && InstalledFrom(u.next.slots, m.themes[m.job.value.themeIndex], k)
      && (forall j :: 0 <= j < k ==> u.next.slots[j] == m.slots[j])
      && u.next.lastThemeIndex == m.job.value.themeIndex && !u.next.busy && u.next.job.None?
      && u.events == [ChangingEnd(m.job.value.themeIndex)]
    decreases |m.slots| - k
  {
    var t := m.themes[m.job.value.themeIndex];
    var first := Advance(m);
    if k < |m.slots| {
      assert GetViewPrefab(t, k).Ok?;
      AnimatedInstallCompletes(first.next, k + 1);
      var u := Advances(first.next, |m.slots| - (k + 1) + 1);
      assert u.next.slots[k] == first.next.slots[k];
      assert first.events + u.events == u.events;
    } else {
      assert Advances(first.next, 0) == Update(first.next, []);
    }
  }

  /** A later theme change, from request to completion, installs the theme on every controller. */
  lemma ThemeChangeInstallsAll(m: Manager, index: int)
    requires Valid(m) && !m.busy && m.lastThemeIndex != -1 && index != m.lastThemeIndex && ValidIndex(m, index)
    requires |m.themes[index].prefabs| > 0
    ensures var u := UpdateTheme(m, index);
      var done := Advances(u.next, |m.slots| + 1);
      && InstalledFrom(done.next.slots, m.themes[index], 0)
      && done.next.lastThemeIndex == index && !done.next.busy
      && u.events + done.events == [ChangingStart(index), ChangingEnd(index)]
  {
    AnimatedInstallCompletes(UpdateTheme(m, index).next, 0);
  }

  /** Requests made one after another, with no tween event in between. */
  function Requests(m: Manager, indices: seq<int>): (u: Update)
    requires Valid(m)
    ensures Valid(u.next)
    decreases |indices|
  {
    if |indices| == 0 then Update(m, [])
    else
      var first := UpdateTheme(m, indices[0]);
      var rest := Requests(first.next, indices[1..]);
      Update(rest.next, first.events + rest.events)
  }

  /**
   * Once wedged by an invalid index, the manager ignores every later request:
   * nothing but assertion messages is ever produced again.
   */
  lemma {:induction false} WedgedIgnoresRequests(m: Manager, indices: seq<int>)
    requires Valid(m) && Wedged(m)
    ensures Requests(m, indices).next == m
    ensures forall e :: e in Requests(m, indices).events ==> e == ThemesEmpty || e == InvalidIndex
    decreases |indices|
  {
    if |indices| > 0 {
      WedgedIgnoresRequests(m, indices[1..]);
    }
  }
}
