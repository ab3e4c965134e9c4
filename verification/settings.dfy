/**
 * FloatSetting: a bounded float value that announces its changes, with an
 * integer view that truncates. Floats are modelled as reals: rounding, NaN
 * and infinities are not modelled, and `float.MinValue` is the exact real.
 */
module FloatSettings {
  import opened CSharp

  datatype Setting = Setting(
    value: real,          // _value
    resetOnLoad: bool,
    defaultValue: real,
    minValue: real,
    maxValue: real,
    lastFloat: real,      // the value the last dispatch check saw
    lastInt: int)         // the int value the last dispatch check saw

  datatype SettingEvent =
    | FloatChanged(f: real)   // onFloatChanged
    | IntChanged(i: int)      // onIntChanged
    | Stored(s: real)         // the value written to the player preferences

  datatype Update = Update(next: Setting, events: seq<SettingEvent>)

  /** A setting as loaded from its asset: the dispatch check has seen nothing yet. */
  function Loaded(value: real, resetOnLoad: bool, defaultValue: real, minValue: real, maxValue: real): (s: Setting)
    ensures s.lastFloat == FloatMin && s.lastInt == IntMin
  {
    Setting(value, resetOnLoad, defaultValue, minValue, maxValue, FloatMin, IntMin)
  }

  /** The `intValue` getter: the value truncated toward zero. */
  function IntValue(s: Setting): (i: int)
    ensures s.value >= 0.0 ==> i as real <= s.value < i as real + 1.0
    ensures s.value < 0.0 ==> i as real - 1.0 < s.value <= i as real
  {
    Truncate(s.value)
  }

  /**
   * `checkDispatch`: announce the float value if it differs from the last one
   * seen, and the int value as well if that differs too; on WebGL also store
   * a changed value. Either way, remember both values.
   */
  function CheckDispatch(s: Setting, webGL: bool): (u: Update)
    ensures u.next == s.(lastFloat := s.value, lastInt := IntValue(s))
    ensures FloatChanged(s.value) in u.events <==> s.lastFloat != s.value
    ensures s.lastFloat == s.value ==> u.events == []
    ensures IntChanged(IntValue(s)) in u.events <==> s.lastFloat != s.value && s.lastInt != IntValue(s)
    ensures |u.events| > 0 ==> u.events[0] == FloatChanged(s.value)
    ensures Stored(s.value) in u.events <==> webGL && s.lastFloat != s.value
  {
    var events :=
      if s.lastFloat != s.value then
        [FloatChanged(s.value)]
        + (if s.lastInt != IntValue(s) then [IntChanged(IntValue(s))] else [])
        + (if webGL then [Stored(s.value)] else [])
      else [];
    Update(s.(lastFloat := s.value, lastInt := IntValue(s)), events)
  }

  /** The `floatValue` setter: store the value clamped to the bounds, then check for a dispatch. */
  function SetFloat(s: Setting, v: real, webGL: bool): (u: Update)
    ensures u.next.value == ClampReal(v, s.minValue, s.maxValue)
    ensures s.minValue <= s.maxValue ==> s.minValue <= u.next.value <= s.maxValue
    ensures u.next.lastFloat == u.next.value && u.next.lastInt == Truncate(u.next.value)
    ensures u.next == s.(value := u.next.value, lastFloat := u.next.lastFloat, lastInt := u.next.lastInt)
    ensures FloatChanged(u.next.value) in u.events <==> s.lastFloat != u.next.value
  {
    CheckDispatch(s.(value := ClampReal(v, s.minValue, s.maxValue)), webGL)
  }

  /** The `intValue` setter, which goes through the clamping float setter. */
  function SetInt(s: Setting, v: int, webGL: bool): (u: Update)
    ensures u == SetFloat(s, v as real, webGL)
  {
    SetFloat(s, v as real, webGL)
  }

  /** `OnEnable`: the default value, or the stored one (falling back to the default) when not reset on load. */
  function OnEnable(s: Setting, stored: Option<real>, webGL: bool): (u: Update)
    ensures s.resetOnLoad ==> u == SetFloat(s, s.defaultValue, webGL)
    ensures !s.resetOnLoad && stored.Some? ==> u == SetFloat(s, stored.value, webGL)
    ensures !s.resetOnLoad && stored.None? ==> u == SetFloat(s, s.defaultValue, webGL)
  {
    if s.resetOnLoad then SetFloat(s, s.defaultValue, webGL)
    else SetFloat(s, match stored case Some(x) => x case None => s.defaultValue, webGL)
  }

  /** `OnDisable`: store the value. */
  function OnDisable(s: Setting): (u: Update)
    ensures u == Update(s, [Stored(s.value)])
  {
    Update(s, [Stored(s.value)])
  }

  /**
   * `OnValidate`: lower the minimum to the maximum if it is above it, clamp
   * the default into the bounds, and pass the value through the setter.
   */
  function OnValidate(s: Setting, webGL: bool): (u: Update)
    ensures u.next.minValue <= u.next.maxValue
    ensures u.next.minValue <= u.next.defaultValue <= u.next.maxValue
    ensures u.next.minValue <= u.next.value <= u.next.maxValue
    ensures s.minValue <= s.maxValue ==> u.next.minValue == s.minValue && u.next.maxValue == s.maxValue
    ensures s.minValue > s.maxValue ==> u.next.minValue == s.maxValue && u.next.maxValue == s.maxValue
  {
    var lo := MinReal(s.minValue, s.maxValue);
    var hi := MaxReal(lo, s.maxValue);
    var d := ClampReal(s.defaultValue, lo, hi);
    SetFloat(s.(minValue := lo, maxValue := hi, defaultValue := d), s.value, webGL)
  }

  /** `ForceDispatch`: announce both values unconditionally; nothing is remembered. */
  function ForceDispatch(s: Setting): (u: Update)
    ensures u.next == s
    ensures u.events == [FloatChanged(s.value), IntChanged(Truncate(s.value))]
  {
    Update(s, [FloatChanged(s.value), IntChanged(IntValue(s))])
  }

  /**
   * Storing on disable and restoring on the next enable is a round trip: a
   * setting that is not reset on load comes back with the value it stored, as
   * long as that value lies within its bounds.
   */
  lemma StoreRestoreRoundTrip(s: Setting, webGL: bool)
    requires !s.resetOnLoad && s.minValue <= s.value <= s.maxValue
    ensures |OnDisable(s).events| == 1 && OnDisable(s).events[0].Stored?
    ensures OnEnable(OnDisable(s).next, Some(OnDisable(s).events[0].s), webGL).next.value == s.value
  {
  }

  /** Setting the same value twice in a row dispatches nothing the second time. */
  lemma SetTwiceDispatchesOnce(s: Setting, v: real, webGL: bool)
    ensures SetFloat(SetFloat(s, v, webGL).next, v, webGL).events == []
    ensures SetFloat(SetFloat(s, v, webGL).next, v, webGL).next == SetFloat(s, v, webGL).next
  {
  }

  /**
   * The first set after loading always announces the float value, because the
   * sentinel is the lowest float; the int value is announced as well unless it
   * truncates to the lowest int.
   */
  lemma FirstSetDispatches(s: Setting, v: real, webGL: bool)
    requires s.lastFloat == FloatMin && s.lastInt == IntMin
    requires s.minValue > FloatMin && s.maxValue > FloatMin
    ensures FloatChanged(SetFloat(s, v, webGL).next.value) in SetFloat(s, v, webGL).events
    ensures Truncate(SetFloat(s, v, webGL).next.value) != IntMin ==>
      IntChanged(Truncate(SetFloat(s, v, webGL).next.value)) in SetFloat(s, v, webGL).events
  {
  }

  /** The float values a list of events announces, in order. */
  function FloatsOf(es: seq<SettingEvent>): seq<real> {
    if |es| == 0 then [] else FloatOf(es[0]) + FloatsOf(es[1..])
  }

  function FloatOf(e: SettingEvent): seq<real> {
    match e
    case FloatChanged(f) => [f]
    case _ => []
  }

  lemma {:induction false} FloatsOfAppend(a: seq<SettingEvent>, b: seq<SettingEvent>)
    ensures FloatsOf(a + b) == FloatsOf(a) + FloatsOf(b)
  {
    if |a| == 0 {
      assert a + b == b;
    } else {
      var c := a + b;
      assert c[0] == a[0];
      assert c[1..] == a[1..] + b;
      FloatsOfAppend(a[1..], b);
      var x, y, z := FloatOf(a[0]), FloatsOf(a[1..]), FloatsOf(b);
      assert FloatsOf(c) == x + (y + z);
      assert FloatsOf(a) == x + y;
      assert x + (y + z) == (x + y) + z;
    }
  }

  /** Every announced value differs from the one before it, the first from `last`. */
  predicate NoRepeats(last: real, fs: seq<real>) {
    && (|fs| > 0 ==> fs[0] != last)
    && forall i :: 0 < i < |fs| ==> fs[i] != fs[i - 1]
  }

  /** The float setter applied to each value in turn. */
  function SetAll(s: Setting, vs: seq<real>, webGL: bool): (u: Update)
    ensures |vs| > 0 ==> u.next.lastFloat == u.next.value
    ensures |vs| == 0 ==> u.next == s
    decreases |vs|
  {
    if |vs| == 0 then Update(s, [])
    else
      var first := SetFloat(s, vs[0], webGL);
      var rest := SetAll(first.next, vs[1..], webGL);
      Update(rest.next, first.events + rest.events)
  }

  /** The events of one set announce at most the new value, and only if it changed. */
  lemma SetFloatAnnounces(s: Setting, v: real, webGL: bool)
    ensures var u := SetFloat(s, v, webGL);
      FloatsOf(u.events) == (if s.lastFloat != u.next.value then [u.next.value] else [])
  {
    var u := SetFloat(s, v, webGL);
    var t := s.(value := u.next.value);
    if s.lastFloat != u.next.value {
      var ints: seq<SettingEvent> := if t.lastInt != IntValue(t) then [IntChanged(IntValue(t))] else [];
      var stores: seq<SettingEvent> := if webGL then [Stored(t.value)] else [];
      FloatsOfAppend([FloatChanged(t.value)] + ints, stores);
      FloatsOfAppend([FloatChanged(t.value)], ints);
      assert FloatsOf(ints) == [] by {
        if |ints| > 0 { assert ints[1..] == []; }
      }
      assert FloatsOf(stores) == [] by {
        if |stores| > 0 { assert stores[1..] == []; }
      }
      assert [FloatChanged(t.value)][1..] == [];
    }
  }

  /** The last value of `fs`, or `last` when there is none. */
  function LastOr(last: real, fs: seq<real>): real {
    if |fs| == 0 then last else fs[|fs| - 1]
  }

  /**
   * Over any run of sets, onFloatChanged never announces the same value twice
   * in a row, its first announcement differs from the last value seen before
   * the run, and the last value seen afterwards is the last one announced.
   */
  lemma {:induction false} NoRepeatedAnnouncements(s: Setting, vs: seq<real>, webGL: bool)
    ensures NoRepeats(s.lastFloat, FloatsOf(SetAll(s, vs, webGL).events))
    ensures LastOr(s.lastFloat, FloatsOf(SetAll(s, vs, webGL).events)) == SetAll(s, vs, webGL).next.lastFloat
    decreases |vs|
  {
    if |vs| > 0 {
      var first := SetFloat(s, vs[0], webGL);
      var rest := SetAll(first.next, vs[1..], webGL);
      FloatsOfAppend(first.events, rest.events);
      SetFloatAnnounces(s, vs[0], webGL);
      NoRepeatedAnnouncements(first.next, vs[1..], webGL);
      var a := FloatsOf(first.events);
      var b := FloatsOf(rest.events);
      assert LastOr(s.lastFloat, a) == first.next.lastFloat;
      JoinNoRepeats(s.lastFloat, a, b);
    }
  }

  /** Two runs without repeats join into one when the second starts from where the first ended. */
  lemma JoinNoRepeats(last: real, a: seq<real>, b: seq<real>)
    requires |a| <= 1 && NoRepeats(last, a) && NoRepeats(LastOr(last, a), b)
    ensures NoRepeats(last, a + b)
    ensures LastOr(last, a + b) == LastOr(LastOr(last, a), b)
  {
    if |a| == 0 {
      assert a + b == b;
    } else {
      assert (a + b)[0] == a[0];
      forall i | 0 < i < |a + b|
        ensures (a + b)[i] != (a + b)[i - 1]
      {
        assert (a + b)[i] == b[i - 1];
        if i > 1 {
          assert (a + b)[i - 1] == b[i - 2];
        }
      }
    }
  }
}

/**
 * FloatSettingValueMapper: reads a setting's value, clamps it into the
 * setting's bounds, and maps it linearly onto an output range.
 */
module ValueMapper {
  import opened CSharp
  import opened FloatSettings

  /** A float result: a real number, or the NaN that `0 / 0` gives. */
  datatype FloatValue = Finite(x: real) | NaN

  datatype Mapper = Mapper(input: Setting, outMin: real, outMax: real)

  /**
   * Real multiplication and division, named so that the lemmas below can
   * state facts about products and quotients that the mapping lemmas then use
   * as they are.
   */
  function Mul(a: real, b: real): real {
    a * b
  }

  function Div(a: real, d: real): real
    requires d != 0.0
  {
    a / d
  }

  /** `GetValue`. With equal input bounds the division is `0 / 0`, which is NaN for floats. */
  function GetValue(m: Mapper): (r: FloatValue)
    ensures m.input.minValue == m.input.maxValue <==> r == NaN
  {
    var lo := m.input.minValue;
    var hi := m.input.maxValue;
    if hi == lo then NaN
    else Finite(Div(Mul(Clamped(m) - lo, m.outMax - m.outMin), hi - lo) + m.outMin)
  }

  /** The setting's value clamped into its bounds: the lower bound applied to the upper-bounded value. */
  function Clamped(m: Mapper): real {
    MaxReal(m.input.minValue, MinReal(m.input.value, m.input.maxValue))
  }

  /** Where the clamped value lies in the input range, from 0 at the lower bound to 1 at the upper. */
  function Fraction(m: Mapper): (t: real)
    requires m.input.minValue < m.input.maxValue
    ensures 0.0 <= t <= 1.0
    ensures m.input.value <= m.input.minValue ==> t == 0.0
    ensures m.input.value >= m.input.maxValue ==> t == 1.0
  {
    var d := m.input.maxValue - m.input.minValue;
    DivUnit(Clamped(m) - m.input.minValue, d);
    Div(Clamped(m) - m.input.minValue, d)
  }

  /** The mapping is that fraction of the way from the output's minimum to its maximum. */
  lemma AsFraction(m: Mapper)
    requires m.input.minValue < m.input.maxValue
    ensures GetValue(m) == Finite(Mul(Fraction(m), m.outMax - m.outMin) + m.outMin)
  {
    MulDiv(Clamped(m) - m.input.minValue, m.outMax - m.outMin, m.input.maxValue - m.input.minValue);
  }

  lemma MulDiv(a: real, x: real, d: real)
    requires d != 0.0
    ensures Div(Mul(a, x), d) == Mul(Div(a, d), x)
  {
    var q := a / d;
    assert q * d == a;
    assert a * x == (q * x) * d;
  }

  lemma DivUnit(p: real, d: real)
    requires 0.0 <= p <= d && d > 0.0
    ensures 0.0 <= Div(p, d) <= 1.0
    ensures p == 0.0 ==> Div(p, d) == 0.0
    ensures p == d ==> Div(p, d) == 1.0
  {
    var q := p / d;
    assert q * d == p;
  }

  /** `t` of the way from `a` to `b`, for `t` between 0 and 1, lies between `a` and `b`. */
  lemma ScaleBetween(t: real, a: real, b: real)
    requires 0.0 <= t <= 1.0
    ensures a <= b ==> a <= Mul(t, b - a) + a <= b
    ensures b <= a ==> b <= Mul(t, b - a) + a <= a
    ensures t == 0.0 ==> Mul(t, b - a) + a == a
    ensures t == 1.0 ==> Mul(t, b - a) + a == b
  {
    if a <= b {
      MulNonneg(t, b - a);
      MulNonneg(1.0 - t, b - a);
      assert (1.0 - t) * (b - a) == (b - a) - t * (b - a);
    } else {
      MulNonneg(t, a - b);
      MulNonneg(1.0 - t, a - b);
      assert t * (a - b) == -(t * (b - a));
      assert (1.0 - t) * (a - b) == (a - b) + t * (b - a);
    }
  }

  lemma MulNonneg(x: real, y: real)
    requires 0.0 <= x && 0.0 <= y
    ensures 0.0 <= x * y
  {
  }

  lemma ScaleMonotone(t1: real, t2: real, a: real, b: real)
    requires t1 <= t2 && a <= b
    ensures Mul(t1, b - a) + a <= Mul(t2, b - a) + a
  {
    assert t2 * (b - a) - t1 * (b - a) == (t2 - t1) * (b - a);
  }

  lemma DivMonotone(p1: real, p2: real, d: real)
    requires p1 <= p2 && d > 0.0
    ensures Div(p1, d) <= Div(p2, d)
  {
    assert p2 / d - p1 / d == (p2 - p1) / d;
  }

  /** The input's endpoints map onto the output's endpoints. */
  lemma EndpointsMap(m: Mapper)
    requires m.input.minValue < m.input.maxValue
    ensures m.input.value <= m.input.minValue ==> GetValue(m) == Finite(m.outMin)
    ensures m.input.value >= m.input.maxValue ==> GetValue(m) == Finite(m.outMax)
  {
    AsFraction(m);
    ScaleBetween(Fraction(m), m.outMin, m.outMax);
  }

  /** With ordered input bounds, the result lies between the output bounds, in whichever order those are. */
  lemma ResultInRange(m: Mapper)
    requires m.input.minValue < m.input.maxValue
    ensures GetValue(m).Finite?
    ensures m.outMin <= m.outMax ==> m.outMin <= GetValue(m).x <= m.outMax
    ensures m.outMax <= m.outMin ==> m.outMax <= GetValue(m).x <= m.outMin
  {
    AsFraction(m);
    ScaleBetween(Fraction(m), m.outMin, m.outMax);
  }

  /** A larger input value never maps to a smaller output when the output range is ascending. */
  lemma Monotone(m: Mapper, v1: real, v2: real)
    requires m.input.minValue < m.input.maxValue && m.outMin <= m.outMax && v1 <= v2
    ensures GetValue(m.(input := m.input.(value := v1))).x <= GetValue(m.(input := m.input.(value := v2))).x
  {
    var m1 := m.(input := m.input.(value := v1));
    var m2 := m.(input := m.input.(value := v2));
    AsFraction(m1);
    AsFraction(m2);
    assert Clamped(m1) <= Clamped(m2);
    DivMonotone(Clamped(m1) - m.input.minValue, Clamped(m2) - m.input.minValue, m.input.maxValue - m.input.minValue);
    ScaleMonotone(Fraction(m1), Fraction(m2), m.outMin, m.outMax);
  }
}
