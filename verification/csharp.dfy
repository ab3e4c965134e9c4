/**
 * The few C# and Unity primitives whose semantics the game's scripts depend on:
 * truncating remainder, the (int) cast of a float, Mathf's clamp/min/max,
 * 32-bit wrap-around of `int`, and the runtime faults an array access can raise.
 * Floats are modelled as exact reals.
 */
module CSharp {

  /** The runtime exceptions the modelled scripts can raise. */
  datatype Fault = NullReference | DivideByZero | IndexOutOfRange

  /** A value, or the exception that prevented it from being computed. */
  datatype Result<+T> = Ok(value: T) | Throws(fault: Fault)

  datatype Option<+T> = None | Some(value: T)

  /** A reference-typed field that may hold `null`. */
  datatype Nullable<+T> = Null | NonNull(value: T)

  const IntMin: int := -0x8000_0000
  const IntMax: int := 0x7FFF_FFFF

  /** `float.MinValue`, the most negative finite single-precision float. */
  const FloatMin: real := -340282346638528859811704183484516925440.0

  predicate IsInt32(x: int) {
    IntMin <= x <= IntMax
  }

  /** C#'s `%` for a positive divisor: the remainder takes the sign of the dividend. */
  function Rem(a: int, b: int): (r: int)
    requires b > 0
    ensures a >= 0 ==> r == a % b
    ensures a < 0 ==> -b < r <= 0
    ensures r >= 0 <==> a >= 0 || (-a) % b == 0
  {
    if a >= 0 then a % b else -((-a) % b)
  }

  function Abs(x: int): nat {
    if x < 0 then -x else x
  }

  /** The `(int)` cast of a float: truncation toward zero. */
  function Truncate(x: real): (r: int)
    ensures x >= 0.0 ==> 0 <= r && r as real <= x < r as real + 1.0
    ensures x < 0.0 ==> r <= 0 && r as real - 1.0 < x <= r as real
  {
    if x >= 0.0 then x.Floor else -((-x).Floor)
  }

  /** `Mathf.Clamp(value, min, max)` for floats: the lower bound is tested first. */
  function ClampReal(value: real, min: real, max: real): (r: real)
    ensures min <= max ==> min <= r <= max
    ensures min <= value <= max ==> r == value
    ensures value < min ==> r == min
    ensures min <= value && max < value ==> r == max
  {
    if value < min then min else if value > max then max else value
  }

  /** `Mathf.Clamp(value, min, max)` for ints, with the same test order. */
  function ClampInt(value: int, min: int, max: int): (r: int)
    ensures min <= max ==> min <= r <= max
    ensures min <= value <= max ==> r == value
    ensures r == min || r == max || r == value
  {
    if value < min then min else if value > max then max else value
  }

  function MinReal(a: real, b: real): (r: real)
    ensures r <= a && r <= b && (r == a || r == b)
  {
    if a < b then a else b
  }

  function MaxReal(a: real, b: real): (r: real)
    ensures r >= a && r >= b && (r == a || r == b)
  {
    if a > b then a else b
  }

  /** Unchecked 32-bit arithmetic: the value of `x` after wrap-around into `int`. */
  function Wrap32(x: int): (r: int)
    ensures IsInt32(r)
    ensures IsInt32(x) ==> r == x
    ensures (r - x) % 0x1_0000_0000 == 0
  {
    (x - IntMin) % 0x1_0000_0000 + IntMin
  }

  /** Array indexing `a[i]`, with the bounds check the runtime performs. */
  function ArrayAt<T>(a: seq<T>, i: int): (r: Result<T>)
    ensures r.Ok? <==> 0 <= i < |a|
    ensures r.Ok? ==> r.value == a[i]
    ensures r.Throws? ==> r.fault == IndexOutOfRange
  {
    if 0 <= i < |a| then Ok(a[i]) else Throws(IndexOutOfRange)
  }

  /**
   * The wrap-around lookup `a[i % a.Length]` used by the palettes and themes:
   * an empty array divides by zero, and a negative index whose remainder is
   * not zero indexes below the array.
   */
  function WrapAt<T>(a: seq<T>, i: int): (r: Result<T>)
    ensures |a| == 0 ==> r == Throws(DivideByZero)
    ensures |a| > 0 && i >= 0 ==> r == Ok(a[i % |a|])
    ensures |a| > 0 ==> (r.Ok? <==> i >= 0 || (-i) % |a| == 0)
    ensures |a| > 0 && r.Throws? ==> r.fault == IndexOutOfRange
  {
    if |a| == 0 then Throws(DivideByZero) else ArrayAt(a, Rem(i, |a|))
  }

  /** Any index inside the array reads its own element. */
  lemma WrapAtInRange<T>(a: seq<T>, i: int)
    requires 0 <= i < |a|
    ensures WrapAt(a, i) == Ok(a[i])
  {
    ModUnique(i, 0, i, |a|);
  }

  /** Non-negative indices one array length apart read the same element. */
  lemma WrapAtPeriodic<T>(a: seq<T>, i: int)
    requires |a| > 0 && i >= 0
    ensures WrapAt(a, i + |a|) == WrapAt(a, i)
  {
    var n := |a|;
    var q, r := i / n, i % n;
    assert i + n == (q + 1) * n + r;
    ModUnique(i + n, q + 1, r, n);
  }

  /** Euclidean remainder is fixed by any quotient/remainder decomposition. */
  lemma ModUnique(a: int, q: int, r: int, n: int)
    requires n > 0 && 0 <= r < n && a == q * n + r
    ensures a % n == r
  {
    var q', r' := a / n, a % n;
    assert (q' - q) * n == r - r';
    MulBound(q' - q, n);
  }

  /** A multiple of `n` strictly inside (-n, n) is zero. */
  lemma MulBound(d: int, n: int)
    requires n > 0 && -n < d * n < n
    ensures d == 0
  {
  }

  /** A one-element array answers every index, negative ones included. */
  lemma WrapAtSingleton<T>(x: T, i: int)
    ensures WrapAt([x], i) == Ok(x)
  {
  }
}
