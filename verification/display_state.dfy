/**
 * The button display states. The source declares them as a `[Flags]` enum
 * (Default = 1, Hover = 2, Activated = 4, Replay = 8) so that views can match
 * a state against a mask combining several states with `HasFlag`.
 */
module DisplayStates {

  /** A value of the enum's underlying `int`, seen as its 32 bits. */
  type Mask = bv32

  datatype DisplayState = Default | Hover | Activated | Replay

  /** The enum value of each state: one distinct bit per state. */
  function Flag(s: DisplayState): (m: Mask)
    ensures m != 0 && m & (m - 1) == 0
  {
    match s
    case Default => 1
    case Hover => 2
    case Activated => 4
    case Replay => 8
  }

  /** The bit position of each state's flag. */
  function BitIndex(s: DisplayState): (k: nat)
    ensures k < 4
  {
    match s
    case Default => 0
    case Hover => 1
    case Activated => 2
    case Replay => 3
  }

  /** `Enum.HasFlag`: every bit of the flag is also set in the mask. */
  predicate HasFlag(mask: Mask, s: DisplayState) {
    mask & Flag(s) == Flag(s)
  }

  /** The mask that combines exactly the given states with `|`. */
  function MaskOf(states: set<DisplayState>): (m: Mask)
    ensures m & 0xFFFF_FFF0 == 0
  {
    (if Default in states then 1 else 0)
    | (if Hover in states then 2 else 0)
    | (if Activated in states then 4 else 0)
    | (if Replay in states then 8 else 0)
  }

  /** The states a mask contains. */
  function StatesOf(mask: Mask): set<DisplayState> {
    set s: DisplayState | HasFlag(mask, s)
  }

  /** Distinct states have distinct, non-overlapping flags. */
  lemma FlagsDistinct(a: DisplayState, b: DisplayState)
    ensures a != b ==> Flag(a) & Flag(b) == 0
    ensures Flag(a) == Flag(b) <==> a == b
    ensures Flag(a) == 1 << BitIndex(a)
  {
  }

  /** `HasFlag` tests exactly the state's own bit of the mask. */
  lemma HasFlagIsBitTest(mask: Mask, s: DisplayState)
    ensures HasFlag(mask, s) <==> (mask >> BitIndex(s)) & 1 == 1
  {
    match s
    case Default =>
    case Hover =>
    case Activated =>
    case Replay =>
  }

  /** A mask built from a set of states contains exactly those states. */
  lemma MaskRoundTrip(states: set<DisplayState>)
    ensures StatesOf(MaskOf(states)) == states
  {
    forall s: DisplayState
      ensures HasFlag(MaskOf(states), s) <==> s in states
    {
      match s
      case Default =>
      case Hover =>
      case Activated =>
      case Replay =>
    }
  }

  /** Every state matches its own flag, and a combined mask matches each component. */
  lemma CombinedMaskMatchesComponents(a: DisplayState, b: DisplayState)
    ensures HasFlag(Flag(a), a)
    ensures HasFlag(Flag(a) | Flag(b), a) && HasFlag(Flag(a) | Flag(b), b)
    ensures StatesOf(Flag(a) | Flag(b)) == {a, b}
  {
    assert Flag(a) | Flag(b) == MaskOf({a, b}) by {
      match a
      case Default =>
      case Hover =>
      case Activated =>
      case Replay =>
    }
    MaskRoundTrip({a, b});
  }

  /** The empty mask matches no display state. */
  lemma EmptyMaskMatchesNothing(s: DisplayState)
    ensures !HasFlag(0, s)
  {
  }
}
