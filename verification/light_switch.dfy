/**
 * LightSwitch: a button view that colours a light from a palette by button
 * index, and on every display state turns the light on with the intensity of
 * the first configured entry whose mask contains that state, or off when no
 * entry matches.
 */
module LightSwitch {
  import opened CSharp
  import opened DisplayStates
  import opened ColorPalette

  /** One configured entry: a mask of display states and the intensity to use for them. */
  datatype LightState = LightState(displayState: Mask, intensity: real)

  /** The controlled light component. */
  datatype Light = Light(color: Color, enabled: bool, intensity: real)

  datatype Switch = Switch(palette: Palette, lightStates: seq<LightState>, baseColor: Color, light: Light)

  predicate Matches(e: LightState, s: DisplayState) {
    HasFlag(e.displayState, s)
  }

  /** The position of the first entry whose mask contains `s`, if any. */
  function FirstMatch(entries: seq<LightState>, s: DisplayState): (r: Option<nat>)
    ensures r.Some? ==> r.value < |entries| && Matches(entries[r.value], s)
    ensures r.Some? ==> forall j :: 0 <= j < r.value ==> !Matches(entries[j], s)
    ensures r.None? ==> forall j :: 0 <= j < |entries| ==> !Matches(entries[j], s)
  {
    if |entries| == 0 then None
    else if Matches(entries[0], s) then Some(0)
    else match FirstMatch(entries[1..], s)
      case None => None
      case Some(k) => Some(k + 1)
  }

  /**
   * `SetButtonIndex`: the base colour is read from the palette and given to
   * the light, which is switched off. A failing palette read throws before
   * anything changes.
   */
  function SetButtonIndex(w: Switch, index: int): (r: Result<Switch>)
    ensures r.Ok? <==> At(w.palette, index).Ok?
    ensures r.Throws? ==> r.fault == At(w.palette, index).fault
    ensures r.Ok? ==> var c := At(w.palette, index).value;
      && r.value.baseColor == c
      && r.value.light == Light(c, false, w.light.intensity)
      && r.value.palette == w.palette && r.value.lightStates == w.lightStates
  {
    match At(w.palette, index)
    case Throws(f) => Throws(f)
    case Ok(c) => Ok(w.(baseColor := c, light := w.light.(color := c, enabled := false)))
  }

  /**
   * `ChangeDisplayState`: scans the entries in order and stops at the first
   * whose mask contains the new state.
   */
  method ChangeDisplayState(w: Switch, s: DisplayState) returns (w': Switch)
    ensures w'.light.enabled <==> exists k :: 0 <= k < |w.lightStates| && Matches(w.lightStates[k], s)
    ensures FirstMatch(w.lightStates, s).Some? ==>
      w'.light.intensity == w.lightStates[FirstMatch(w.lightStates, s).value].intensity
    ensures FirstMatch(w.lightStates, s).None? ==> w'.light.intensity == w.light.intensity
    ensures w'.light.color == w.light.color
    ensures w' == w.(light := w'.light)
  {
    var i := 0;
    while i < |w.lightStates| && !Matches(w.lightStates[i], s)
      invariant 0 <= i <= |w.lightStates|
      invariant forall j :: 0 <= j < i ==> !Matches(w.lightStates[j], s)
    {
      i := i + 1;
    }
    if i < |w.lightStates| {
      FirstMatchIsLeast(w.lightStates, s, i);
      w' := w.(light := w.light.(enabled := true, intensity := w.lightStates[i].intensity));
    } else {
      w' := w.(light := w.light.(enabled := false));
    }
  }

  /** An entry that matches, with no match before it, is the first match. */
  lemma FirstMatchIsLeast(entries: seq<LightState>, s: DisplayState, i: nat)
    requires i < |entries| && Matches(entries[i], s)
    requires forall j :: 0 <= j < i ==> !Matches(entries[j], s)
    ensures FirstMatch(entries, s) == Some(i)
  {
    var r := FirstMatch(entries, s);
    if r.Some? {
      assert r.value <= i;
    }
  }
}
