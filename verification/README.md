# Simon Says — a Dafny model of the game's core

The game shows a growing pattern of buttons and asks the player to repeat it.
This project models the scripts that make the game work and proves properties of them:

- **The session coordinator (`GameManager`).** It starts a session with a one-button pattern
  drawn from the active buttons. It replays the pattern by forcing each button into
  the Replay display state and back to Default. It lets the player repeat the
  pattern. The pattern then grows by one active button, or the game ends at the
  first wrong press.
- **The button controller (`SimonSaysButtonController`).** It turns pointer triggers
  into display states for its views. It raises the global "triggered" event.
- **The pointer dispatcher (`TriggerManager.UpdateRay`).**
- **The score keeper (`ScoreManager`).**
- **The theme installer (`ButtonThemeManager`).**
- **The button-count controller (`ButtonAmountController`).** It lays the active
  buttons out in a circle.
- **The settings (`FloatSetting`) and their linear remapping (`FloatSettingValueMapper`).**
- **The lookup tables (`ButtonTheme`, `ColorPalette`).**
- **The `[Flags]` display-state enum and the `LightSwitch` view that matches against it.**

## How the model is built

- Every script is a datatype of its fields plus pure functions.
- Each function returns the next state together with the observable effects, in
  order. The effects are the UnityEvents fired, the commands sent to the buttons,
  and the values written to the player preferences.
- Coroutines become explicit phases. `GameLoop.Phase` holds the suspension points of
  `GameLoopCoroutine`. `ThemeManager.Job` holds the staggered install sequence.
  `AmountController.Stage` holds the hide, rotate and show waits.
- An input `Tick` means "the pending wait is over".
- A random draw becomes an index into the active buttons, given as a parameter.
- The raycast becomes its result: an optional target.
- Stored player preferences become an input when loaded and an event when saved.

C# semantics are written out in module `CSharp`:

- the truncating `%`;
- the `(int)` cast of a float;
- `Mathf.Clamp` testing the lower bound first;
- unchecked 32-bit `int` addition;
- the exceptions an array access raises: null reference, divide by zero,
  index out of range.

Floats are exact reals. The one NaN the core can produce is modelled: the
mapper's `0 / 0` when a setting's bounds are equal.

The modules follow the scripts:

- `DisplayStates`;
- `ColorPalette` and `ButtonTheme`;
- `LightSwitch`;
- `ButtonController`;
- `TriggerDispatch`;
- `Score`;
- `GameLoop`, with the run-level properties in `GameProperties` and the game loop
  wired to the score in `Session`;
- `ThemeManager`;
- `AmountController`;
- `FloatSettings` and `ValueMapper`.

### Behaviour of the code worth knowing

- **The active buttons are snapshotted.** The game loop reads the active buttons
  once, when a session starts (`GameManager.cs:120`), and every draw of that
  session uses this snapshot. The snapshot is `Game.active`. A change of the
  button amount during a session does not reach it.
- **Only the session's active buttons can answer.** A button that is not
  interactable never raises OnTriggered. While the player repeats the pattern,
  exactly the session's active buttons are interactable, so a press on any other
  button is ignored. See `GameProperties.ClickRecordedOnlyFromActive`.
- **A restart during the final pause loses the old score.** Such a restart is
  accepted, because `inPlay` is already false. The old coroutine keeps running.
  Its onGameEnd arrives after the new session has reset the score, so the old
  session's score is never offered as a high score. See
  `Session.RestartInFinalPauseDropsScore`. The onGameEnd itself is only delayed,
  not lost. See `GameProperties.EndsMatchFails`.

## Model

All source paths are under `Assets/Scripts/`.

| member | source | states |
|---|---|---|
| DisplayStates.Flag | Assets/Scripts/Enums/SimonSaysButtonDisplayState.cs:12-13 | every display state's enum value is a single non-zero bit |
| DisplayStates.FlagsDistinct | Assets/Scripts/Enums/SimonSaysButtonDisplayState.cs:12-13 | distinct states have disjoint flags, equal flags mean equal states, and each flag is `1 << ` its bit position |
| DisplayStates.HasFlagIsBitTest | Assets/Scripts/Enums/SimonSaysButtonDisplayState.cs:12-13 | `HasFlag` on a mask is exactly the test of that state's own bit |
| DisplayStates.MaskRoundTrip | Assets/Scripts/Enums/SimonSaysButtonDisplayState.cs:12-13 | a mask built by or-ing a set of states contains exactly those states (set → mask → set round trip) |
| DisplayStates.CombinedMaskMatchesComponents | Assets/Scripts/Enums/SimonSaysButtonDisplayState.cs:12-13 | a mask of two states matches each of them and nothing else |
| DisplayStates.EmptyMaskMatchesNothing | Assets/Scripts/Enums/SimonSaysButtonDisplayState.cs:12-13 | the zero mask matches no state |
| CSharp.WrapAt | Assets/Scripts/ScriptableObjects/ColorPalette.cs:20 | `a[i % a.Length]`: an empty array divides by zero; a non-negative index reads element `i mod n`; a negative index reads only when its remainder is zero and is otherwise out of range |
| ColorPalette.At | Assets/Scripts/ScriptableObjects/ColorPalette.cs:19-20 | a null array throws a null reference; an index inside the array reads its own colour; any non-negative index reads colour `i mod ColorCount` |
| ColorPalette.CountGovernsLookup | Assets/Scripts/ScriptableObjects/ColorPalette.cs:19-20 | a non-negative index can be read exactly when `ColorCount` is positive |
| ColorPalette.AtPeriodic | Assets/Scripts/ScriptableObjects/ColorPalette.cs:20 | with fewer colours than buttons, colours are reused: indices `ColorCount` apart read the same colour |
| ButtonTheme.GetViewPrefab | Assets/Scripts/ScriptableObjects/ButtonTheme.cs:19-22 | an empty theme divides by zero; an index inside the array gets its own prefab; any non-negative index gets prefab `i mod count` |
| ButtonTheme.GetViewPrefabPeriodic | Assets/Scripts/ScriptableObjects/ButtonTheme.cs:19-22 | button indices one theme length apart get the same prefab |
| ButtonTheme.SinglePrefabServesAll | Assets/Scripts/ScriptableObjects/ButtonTheme.cs:19-22 | a theme with one prefab serves every button index, negative ones included |
| LightSwitch.FirstMatch | Assets/Scripts/Buttons/Views/Generic/LightSwitch.cs:33-48 | the result is a matching entry with no match before it, and none exactly when no entry's mask contains the state |
| LightSwitch.FirstMatchIsLeast | Assets/Scripts/Buttons/Views/Generic/LightSwitch.cs:33-48 | a matching entry with no match before it is the first match (uniqueness of the first match) |
| LightSwitch.ChangeDisplayState | Assets/Scripts/Buttons/Views/Generic/LightSwitch.cs:33-48 | the light is on iff some entry's mask contains the state, with the intensity of the first such entry; with no match it is off and keeps its intensity; colour and configuration are untouched |
| LightSwitch.SetButtonIndex | Assets/Scripts/Buttons/Views/Generic/LightSwitch.cs:26-31 | succeeds iff the palette can be read at the index, and then the light takes the palette colour and is switched off; a failed read changes nothing and raises the palette's fault |
| ButtonController.Initial | Assets/Scripts/Buttons/SimonSaysButtonController.cs:30-34 | a new controller is interactable, neither hovered nor pressed, in Default, with no view installed |
| ButtonController.Derived | Assets/Scripts/Buttons/SimonSaysButtonController.cs:110-118 | Activated iff pressed, Hover iff hovered and not pressed, Default iff neither |
| ButtonController.Show | Assets/Scripts/Buttons/SimonSaysButtonController.cs:123-128 | only the remembered state can change, and with a view installed on an active object it becomes the requested state; the views hear something iff that is a real change, and then each element hears it exactly once, in element order |
| ButtonController.Refresh | Assets/Scripts/Buttons/SimonSaysButtonController.cs:110-118 | a non-interactable button changes nothing; an interactable one with views ends in the state its flags call for; views only ever hear that state, and OnTriggered is never raised |
| ButtonController.Flags | Assets/Scripts/Buttons/SimonSaysButtonController.cs:63-86 | Enter and Exit set and clear hovering, Down and Up set and clear pressing; nothing else changes |
| ButtonController.ProcessTrigger | Assets/Scripts/Buttons/SimonSaysButtonController.cs:63-86 | OnTriggered is raised iff an Up releases a press on an interactable button, and it comes first; a non-interactable button keeps its last state; an interactable one with views ends in the state its new flags call for |
| ButtonController.ForceState | Assets/Scripts/Buttons/SimonSaysButtonController.cs:91-94 | the forced state is shown whatever the interactable flag is; only the last state can change; never raises OnTriggered |
| ButtonController.SetInteractable | Assets/Scripts/Buttons/SimonSaysButtonController.cs:99-103 | the flag is stored and the pointer flags kept; enabling shows the state the flags call for, disabling leaves the display untouched |
| ButtonController.NewViewHearsChanges | Assets/Scripts/Buttons/SimonSaysButtonController.cs:42-61 | after a new view is installed on an active controller, each of its elements is told the button index, and the next change of state reaches exactly those elements |
| ButtonController.NoRepeatedNotification | Assets/Scripts/Buttons/SimonSaysButtonController.cs:123-128 | showing the same state twice in a row reaches the views at most once |
| ButtonController.ViewsSeeLastState | Assets/Scripts/Buttons/SimonSaysButtonController.cs:123-128 | whatever a view element receives is the controller's new last state |
| ButtonController.TriggeredNeedsPress | Assets/Scripts/Buttons/SimonSaysButtonController.cs:63-86 | over any trigger sequence, OnTriggered fires at most once per Down, plus one for a press already held |
| TriggerDispatch.UpdateRay | Assets/Scripts/Interactables/TriggerManager.cs:21-50 | an unchanged frame sends nothing; the hit target is tracked only while released; while pressed the only message is the release to the pressed target; on a new target Exit goes to the old and Enter to the new before any Down; without hover support only Down and Up are sent |
| TriggerDispatch.StepPaired | Assets/Scripts/Interactables/TriggerManager.cs:21-50 | one frame's Downs and Ups continue a well-paired history from the target held before to the one held after |
| TriggerDispatch.RunPaired | Assets/Scripts/Interactables/TriggerManager.cs:21-50 | over any sequence of frames Downs and Ups alternate, and every Up goes to the target that received the preceding Down |
| Score.Awake | Assets/Scripts/ScoreManager.cs:20-23 | the score starts at 0 and the high score at the stored value, 0 when none is stored, and the loaded value is announced |
| Score.ResetScore | Assets/Scripts/ScoreManager.cs:26-29 | the score becomes 0 and is announced; the high score is kept |
| Score.PatternRepeated | Assets/Scripts/ScoreManager.cs:32-35 | one more completed pattern: the score goes up by one, wrapping from `int.MaxValue` to `int.MinValue`, and is announced |
| Score.OnGameEnd | Assets/Scripts/ScoreManager.cs:38-46 | a score above the high score becomes the high score, announced and then saved; otherwise nothing happens; the high score never falls below the score or its old value |
| Score.HighScoreMonotone | Assets/Scripts/ScoreManager.cs:26-46 | whatever the sequence of callbacks, the high score never decreases |
| Score.SessionRecordsScore | Assets/Scripts/ScoreManager.cs:26-46 | a reset, `k` completed patterns and a game end leave both the score and the high score at `k` when the old high score was lower |
| Score.RepeatsCount | Assets/Scripts/ScoreManager.cs:32-35 | `k` completed patterns without overflow add exactly `k` to the score |
| GameLoop.Init | Assets/Scripts/GameManager.cs:79-90 | at scene start every button is interactable, no session runs, and onGameInit is the one notification |
| GameLoop.SetButtonsInteractable | Assets/Scripts/GameManager.cs:92-99 | exactly the listed buttons get the flag; every other button is left as it was |
| GameLoop.Start | Assets/Scripts/GameManager.cs:102-127 | a start while in play is ignored entirely; otherwise the session has a one-button pattern drawn from the active buttons, every button is disabled, and onGameStart is announced last |
| GameLoop.ReplayStep | Assets/Scripts/GameManager.cs:153-165 | the replay announces onPatternReplay, then forces each pattern button to Replay and back to Default, pattern unchanged, then moves to the pause before the player's turn |
| GameLoop.BeginRepeat | Assets/Scripts/GameManager.cs:167-175 | the player's turn starts at the first pattern element with no click recorded and the handler registered exactly once; exactly the active buttons are interactable; onPatternRepeat is announced |
| GameLoop.EndRepeat | Assets/Scripts/GameManager.cs:199-200 | disabling the active buttons at the end of the player's turn leaves no button interactable |
| GameLoop.CheckClick | Assets/Scripts/GameManager.cs:182-196 | no click keeps waiting; the expected button advances by one; the last expected button grows the pattern; any other button fails the game |
| GameLoop.Grown | Assets/Scripts/GameManager.cs:138-143 | the pattern gains exactly one active button at its end, onPatternRepeated is the one notification, and the next round starts with the buttons disabled |
| GameLoop.Failed | Assets/Scripts/GameManager.cs:146-150 | after a wrong press the game is no longer in play, every button is interactable, the pattern is kept, and onPatternFail is the one notification, announced last |
| GameLoop.PointerStep | Assets/Scripts/GameManager.cs:208-211 | a press counts as a click iff the button fires and the handler is registered; a firing button is interactable; only that button and the recorded click change |
| GameLoop.StaleEndStep | Assets/Scripts/GameManager.cs:146-150 | an earlier session still in its final pause announces its onGameEnd, once |
| GameLoop.Step | Assets/Scripts/GameManager.cs:113-151 | every input keeps the coordinator consistent: in play iff in a session phase, the pattern drawn from the snapshot, the handler registered exactly while the player repeats, and buttons interactable exactly when expected |
| GameProperties.PatternGrows | Assets/Scripts/GameManager.cs:131-144 | without a restart, the pattern only grows: the old pattern is a prefix of the new one, longer by the number of onPatternRepeated notifications |
| GameProperties.SessionPattern | Assets/Scripts/GameManager.cs:115-144 | a session's pattern starts with the drawn button, has one element more than there were onPatternRepeated notifications, and holds only active buttons |
| GameProperties.TicksAreReplay | Assets/Scripts/GameManager.cs:153-165 | while the replay lasts, the game's ticks are exactly the replay's steps |
| GameProperties.ReplayFrom | Assets/Scripts/GameManager.cs:155-164 | from button `k` on, the replay lights and dims the rest of the pattern in order, two waits per button, then reaches the pause before the player's turn |
| GameProperties.RoundReplay | Assets/Scripts/GameManager.cs:153-165 | a whole replay is onPatternReplay followed by every pattern button, in order, forced to Replay then Default; the pattern is unchanged |
| GameProperties.ClickRecordedOnlyFromActive | Assets/Scripts/GameManager.cs:208-211 | a click is recorded iff the player is repeating the pattern and a press is released on one of the session's active buttons |
| GameProperties.EndsMatchFails | Assets/Scripts/GameManager.cs:146-150 | over any run, onGameEnd notifications plus those still owed equal those owed before plus onPatternFail notifications |
| GameProperties.EndsFollowFails | Assets/Scripts/GameManager.cs:146-150 | from the scene's start, there are never more onGameEnd than onPatternFail notifications |
| Session.Step | Assets/Scripts/ScoreManager.cs:38-46 | with the score keeper listening to the coordinator, the high score never decreases |
| Session.StepTracks | Assets/Scripts/ScoreManager.cs:26-35 | during a session, the score always equals the number of completed patterns, one less than the pattern length |
| Session.StepOneNote | Assets/Scripts/ScoreManager.cs:26-46 | a step that announces one notification makes exactly the score keeper's callback for it |
| Session.GameEndRecordsScore | Assets/Scripts/ScoreManager.cs:38-46 | the end of a session's final pause makes the high score the larger of the old high score and the patterns completed |
| Session.RestartInFinalPauseDropsScore | Assets/Scripts/GameManager.cs:102-111 | a restart during the final pause resets the score before the old session's onGameEnd arrives; that session's score is never offered as a high score |
| ThemeManager.Initial | Assets/Scripts/ButtonThemeManager.cs:37-38 | no theme is installed yet: every controller slot is empty, the last index is -1, and the manager is not busy |
| ThemeManager.AssertLog | Assets/Scripts/ButtonThemeManager.cs:60-62 | an assertion message is logged iff the index is outside the themes |
| ThemeManager.InstallSlot | Assets/Scripts/ButtonThemeManager.cs:112-119 | a controller gets the theme's prefab for its own index iff the theme lookup succeeds |
| ThemeManager.InstallAll | Assets/Scripts/ButtonThemeManager.cs:75-84 | the first install reaches every controller iff every lookup succeeds; earlier controllers are untouched |
| ThemeManager.UpdateTheme | Assets/Scripts/ButtonThemeManager.cs:57-110 | a repeated index or a busy manager only logs; an invalid new index leaves the manager busy forever; the first install is immediate and complete; a later one starts the animated sequence |
| ThemeManager.Advance | Assets/Scripts/ButtonThemeManager.cs:88-109 | each callback installs the next controller and leaves the others alone; the completion makes the theme current and announces the end |
| ThemeManager.AnimatedInstallCompletes | Assets/Scripts/ButtonThemeManager.cs:88-109 | a running sequence over a non-empty theme installs it on every remaining controller, keeps the earlier ones, and ends with only the end announcement |
| ThemeManager.ThemeChangeInstallsAll | Assets/Scripts/ButtonThemeManager.cs:57-109 | a valid later theme change installs the theme on every controller, announced by start then end |
| ThemeManager.WedgedIgnoresRequests | Assets/Scripts/ButtonThemeManager.cs:57-67 | once an invalid index has left the manager busy, every later request changes nothing and only logs assertions |
| AmountController.Start | Assets/Scripts/ButtonAmountController.cs:52-63 | at start every pivot is inactive and no button is shown |
| AmountController.UpdateButtonAmount | Assets/Scripts/ButtonAmountController.cs:65-84 | the request is clamped to [2, pivots]; the current amount or a busy controller ignores it; otherwise a change to the clamped amount starts, hiding first when shrinking, and is announced |
| AmountController.Hide | Assets/Scripts/ButtonAmountController.cs:98-115 | a pivot stays active and shown only if it was and lies below the new amount, rotations are kept, and shrinking a settled row leaves exactly the first `n` pivots active and shown |
| AmountController.Rotate | Assets/Scripts/ButtonAmountController.cs:117-138 | afterwards the first `n` pivots are laid out for `n`; only rotations below `n` change; the loop completes iff there are at least `n` pivots |
| AmountController.Activate | Assets/Scripts/ButtonAmountController.cs:143-159 | only the pivots from the old amount up to the new one change, and only in activity and scale; from a settled row the first `n` pivots are active with only the old ones shown |
| AmountController.ScaleIn | Assets/Scripts/ButtonAmountController.cs:143-159 | only the scale of the new pivots changes, and once they have scaled in exactly the first `n` pivots are active and shown |
| AmountController.Advance | Assets/Scripts/ButtonAmountController.cs:86-96 | a completed change settles on the new amount and announces it; the controller gets stuck only when rotating more buttons than there are pivots |
| AmountController.ChangeCompletes | Assets/Scripts/ButtonAmountController.cs:65-96 | with two or more pivots a change completes after two waits with exactly the first `n` pivots shown and laid out, announced by start then end |
| AmountController.TooFewPivotsWedge | Assets/Scripts/ButtonAmountController.cs:65-138 | with fewer pivots than the clamp's minimum, the rotation throws and every later request is ignored |
| AmountController.LayoutSpacing | Assets/Scripts/ButtonAmountController.cs:123-132 | neighbouring pivots are `360 / n` degrees apart in integer division, so `n` of them cover `360 - 360 % n` degrees |
| FloatSettings.Loaded | Assets/Scripts/ScriptableObjects/FloatSetting.cs:74-83 | a loaded setting has seen the lowest float and the lowest int, so the first check announces |
| FloatSettings.IntValue | Assets/Scripts/ScriptableObjects/FloatSetting.cs:41-52 | the int view is the float value truncated toward zero |
| FloatSettings.CheckDispatch | Assets/Scripts/ScriptableObjects/FloatSetting.cs:54-72 | the float is announced iff it changed, first; the int also iff both changed; WebGL also stores a changed value; both values are remembered |
| FloatSettings.SetFloat | Assets/Scripts/ScriptableObjects/FloatSetting.cs:27-39 | the stored value is the clamped one, within ordered bounds; it is announced iff it differs from the last value seen |
| FloatSettings.OnEnable | Assets/Scripts/ScriptableObjects/FloatSetting.cs:85-95 | the value comes from the default when reset on load, otherwise from the store, falling back to the default, and passes through the clamping setter |
| FloatSettings.StoreRestoreRoundTrip | Assets/Scripts/ScriptableObjects/FloatSetting.cs:85-110 | disabling stores the value and nothing else; enabling again without reset-on-load restores exactly that value when it lies within the bounds |
| FloatSettings.OnValidate | Assets/Scripts/ScriptableObjects/FloatSetting.cs:112-119 | afterwards min ≤ default ≤ max and min ≤ value ≤ max; ordered bounds are kept; a minimum above the maximum is lowered to it |
| FloatSettings.ForceDispatch | Assets/Scripts/ScriptableObjects/FloatSetting.cs:121-126 | both values are announced whatever they were, and nothing is remembered |
| FloatSettings.SetTwiceDispatchesOnce | Assets/Scripts/ScriptableObjects/FloatSetting.cs:27-72 | setting the same value twice announces nothing the second time and changes nothing |
| FloatSettings.FirstSetDispatches | Assets/Scripts/ScriptableObjects/FloatSetting.cs:54-83 | the first set after loading always announces the float, and the int unless it truncates to the lowest int |
| FloatSettings.SetFloatAnnounces | Assets/Scripts/ScriptableObjects/FloatSetting.cs:27-72 | one set announces at most the new value, and only if it differs from the last one seen |
| FloatSettings.NoRepeatedAnnouncements | Assets/Scripts/ScriptableObjects/FloatSetting.cs:27-72 | over any run of sets, onFloatChanged never announces the same value twice in a row, and the last value seen is the last announced |
| ValueMapper.GetValue | Assets/Scripts/Util/FloatSettingValueMapper.cs:14-19 | the result is NaN exactly when the setting's bounds are equal |
| ValueMapper.Fraction | Assets/Scripts/Util/FloatSettingValueMapper.cs:16-17 | the clamped input lies between 0 and 1 of the way through its range, at 0 or 1 outside it |
| ValueMapper.AsFraction | Assets/Scripts/Util/FloatSettingValueMapper.cs:14-19 | the result is that fraction of the way from the output minimum to the output maximum |
| ValueMapper.EndpointsMap | Assets/Scripts/Util/FloatSettingValueMapper.cs:14-19 | input at or below its minimum maps to the output minimum, at or above its maximum to the output maximum |
| ValueMapper.ResultInRange | Assets/Scripts/Util/FloatSettingValueMapper.cs:14-19 | with ordered input bounds, the result lies between the output bounds, in either order |
| ValueMapper.Monotone | Assets/Scripts/Util/FloatSettingValueMapper.cs:14-19 | with an ascending output range, a larger input never maps to a smaller output |

## Left out

- Timing is not modelled: the pauses, replay delays, tween durations and
  `WaitForSeconds`. Only the order of events is modelled: a wait is over when a
  `Tick` (or an `Advance`) arrives.
- The raycast, UI occlusion and the pointer device are replaced by the hit target
  they produce.
- `PlayerPrefs` persistence is left out. A stored value is an input, and a save is
  an event.
- Floating-point rounding, infinities and out-of-range float-to-int casts are not
  modelled; floats are exact reals. The one NaN kept is the mapper's `0 / 0`.
- GameLoop.Start: `GetRandomElement` is not part of this model. The draw is an index
  that must lie inside the active buttons, so starting with no active buttons is
  not modelled.
- Session.StepTracks: the score is shown to equal the completed patterns only
  while the pattern length fits in an `int`. `Score.PatternRepeated` does model the
  wrap-around itself.
- Requests that reach `ButtonAmountController` before its `Start` are not modelled.
- The pivot instantiation in `ButtonAmountController.Awake`, and the
  instantiation and destruction of view prefabs, are not modelled. A view is its
  number of view elements, and a prefab is an identifier.
- A null `themes` array and null entries in a theme are not modelled.
- ThemeManager.Advance assumes the tween library runs in safe mode. A sequence
  callback that throws is logged and skipped, and the sequence goes on.
- `OnEnable`/`OnDisable` event subscription is modelled only where the game loop
  registers its click handler; other listener bookkeeping is left out.
- `Debug.Log` output is not modelled.
- ThemeManager.UpdateTheme: assumes assertions are compiled in and only log on
  failure. Two other builds are not modelled. In one, `Assert.raiseExceptions` is
  set: a failed check then throws at `ButtonThemeManager.cs:61-62` before `busy` is
  set, so an invalid index changes nothing and does not wedge the manager. In the
  other, assertions are compiled out: the wedge then happens with nothing logged.
- Session.CallFor: which score callback listens to which game event is set in the
  scene, which is not part of this model. The model connects onGameStart to
  `ResetScore`, onPatternRepeated to `PatternRepeated`, and onGameEnd to `OnGameEnd`.
  The comment at `ScoreManager.cs:31` names `GameManager.OnPatternRepeat`. The score
  counts completed patterns (`ScoreManager.cs:6`), and only onPatternRepeated marks
  a completed pattern (the tooltip at `GameManager.cs:38`). So `PatternRepeated` is
  taken to listen to onPatternRepeated. `Session.StepTracks`,
  `Session.GameEndRecordsScore` and `Session.RestartInFinalPauseDropsScore` rest on
  this choice.
