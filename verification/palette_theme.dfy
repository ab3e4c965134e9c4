/**
 * ColorPalette: an array of colours read with a wrap-around index, so that a
 * palette with fewer colours than buttons reuses its colours.
 */
module ColorPalette {
  import opened CSharp

  datatype Color = Color(r: real, g: real, b: real, a: real)

  /** The serialized `colors` array, which may be null. */
  datatype Palette = Palette(colors: Nullable<seq<Color>>)

  /** `ColorCount`: zero for a null array, its length otherwise. */
  function ColorCount(p: Palette): nat {
    match p.colors
    case Null => 0
    case NonNull(cs) => |cs|
  }

  /** The indexer `palette[i]`, which reads `colors[i % colors.Length]`. */
  function At(p: Palette, i: int): (r: Result<Color>)
    ensures p.colors.Null? ==> r == Throws(NullReference)
    ensures p.colors.NonNull? && 0 <= i < ColorCount(p) ==> r == Ok(p.colors.value[i])
    ensures p.colors.NonNull? && ColorCount(p) > 0 && i >= 0 ==> r == Ok(p.colors.value[i % ColorCount(p)])
  {
    match p.colors
    case Null => Throws(NullReference)
    case NonNull(cs) =>
      if 0 <= i < |cs| then WrapAtInRange(cs, i); WrapAt(cs, i)
      else WrapAt(cs, i)
  }

  /**
   * `ColorCount` decides which non-negative indices can be read: all of them
   * when it is positive, none when it is zero.
   */
  lemma CountGovernsLookup(p: Palette, i: int)
    requires i >= 0
    ensures At(p, i).Ok? <==> ColorCount(p) > 0
  {
  }

  /** Non-negative indices one palette length apart give the same colour. */
  lemma AtPeriodic(p: Palette, i: int)
    requires ColorCount(p) > 0 && i >= 0
    ensures At(p, i + ColorCount(p)) == At(p, i)
  {
    WrapAtPeriodic(p.colors.value, i);
  }
}

/**
 * ButtonTheme: a catalogue of view prefabs indexed by button with wrap-around,
 * so that a theme with a single prefab serves every button.
 */
module ButtonTheme {
  import opened CSharp

  /** An identifier standing for one view prefab asset. */
  type PrefabId = nat

  datatype Theme = Theme(prefabs: seq<PrefabId>)

  /** `GetViewPrefab(i)`, which reads `buttonViewPrefabs[i % buttonViewPrefabs.Length]`. */
  function GetViewPrefab(t: Theme, i: int): (r: Result<PrefabId>)
    ensures |t.prefabs| == 0 ==> r == Throws(DivideByZero)
    ensures 0 <= i < |t.prefabs| ==> r == Ok(t.prefabs[i])
    ensures |t.prefabs| > 0 && i >= 0 ==> r == Ok(t.prefabs[i % |t.prefabs|])
  {
    if 0 <= i < |t.prefabs| then WrapAtInRange(t.prefabs, i); WrapAt(t.prefabs, i)
    else WrapAt(t.prefabs, i)
  }

  /** Non-negative indices one theme length apart give the same prefab. */
  lemma GetViewPrefabPeriodic(t: Theme, i: int)
    requires |t.prefabs| > 0 && i >= 0
    ensures GetViewPrefab(t, i + |t.prefabs|) == GetViewPrefab(t, i)
  {
    WrapAtPeriodic(t.prefabs, i);
  }

  /** A single-prefab theme returns that prefab for every index. */
  lemma SinglePrefabServesAll(p: PrefabId, i: int)
    ensures GetViewPrefab(Theme([p]), i) == Ok(p)
  {
    WrapAtSingleton(p, i);
  }
}
