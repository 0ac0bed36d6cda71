/**
 * The part of JavaScript's number semantics that the weather core relies on.
 * A JS number is a mathematical real or NaN; reading past the end of an array
 * yields `undefined`, which every operation and comparison used by the core
 * treats exactly like NaN, so it is represented by NaN as well.
 */
module JsNumber {

  datatype Number = Finite(value: real) | NaN

  /** Reading `s[i]` of a JS array of numbers: out of range gives undefined. */
  function At(s: seq<real>, i: int): (r: Number)
    ensures r.Finite? <==> 0 <= i < |s|
    ensures r.Finite? ==> r.value == s[i]
  {
    if 0 <= i < |s| then Finite(s[i]) else NaN
  }

  function Add(x: Number, y: real): Number {
    if x.NaN? then NaN else Finite(x.value + y)
  }

  function Sub(x: Number, y: real): Number {
    if x.NaN? then NaN else Finite(x.value - y)
  }

  function Div(x: Number, y: real): (r: Number)
    ensures r.Finite? <==> x.Finite? && y != 0.0
    ensures r.Finite? ==> r.value * y == x.value
  {
    if x.NaN? || y == 0.0 then NaN else Finite(x.value / y)
  }

  /** Truncation toward zero, the quotient JS uses for `%`. */
  function Trunc(x: real): (t: int)
    ensures 0.0 <= x ==> t as real <= x < t as real + 1.0
    ensures x < 0.0 ==> t as real - 1.0 < x <= t as real
  {
    if x >= 0.0 then x.Floor else -((-x).Floor)
  }

  /** One full turn in degrees, the only divisor the core applies `%` to. */
  const Turn: real := 360.0

  /**
   * JS `x % 360`: the remainder of truncating division, which takes the sign
   * of the dividend (unlike a Euclidean remainder).
   */
  function RemTurn(x: Number): (r: Number)
    ensures r.Finite? <==> x.Finite?
    ensures r.Finite? && x.value >= 0.0 ==> 0.0 <= r.value < Turn
    ensures r.Finite? && x.value < 0.0 ==> -Turn < r.value <= 0.0
    ensures r.Finite? ==> (x.value - r.value) / Turn == Trunc(x.value / Turn) as real
  {
    if x.NaN? then NaN else Finite(x.value - Turn * Trunc(x.value / Turn) as real)
  }

  /** JS `Math.round`: nearest integer, halves rounded toward +infinity. */
  function Round(x: Number): (r: Number)
    ensures r.Finite? <==> x.Finite?
    ensures r.Finite? ==> r.value == r.value.Floor as real
    ensures r.Finite? ==> x.value - 0.5 < r.value <= x.value + 0.5
  {
    if x.NaN? then NaN else Finite((x.value + 0.5).Floor as real)
  }

  /** The JS comparisons `x > c`, `x >= c`, `x < c`: false whenever x is NaN. */
  predicate Greater(x: Number, c: real) {
    x.Finite? && x.value > c
  }

  predicate AtLeast(x: Number, c: real) {
    x.Finite? && x.value >= c
  }

  predicate Less(x: Number, c: real) {
    x.Finite? && x.value < c
  }

  /** Euclidean remainder on reals: the representative of x modulo 360 in [0, 360). */
  function ModTurn(x: real): (r: real)
    ensures 0.0 <= r < Turn
    ensures (x - r) / Turn == ((x - r) / Turn).Floor as real
  {
    x - Turn * (x / Turn).Floor as real
  }

  /** ModTurn picks the one representative in [0, 360): any shift by whole turns into that range is it. */
  lemma ModTurnUnique(x: real, k: int)
    requires 0.0 <= x - k as real * Turn < Turn
    ensures ModTurn(x) == x - k as real * Turn
  {
    assert k as real <= x / Turn < k as real + 1.0;
    assert (x / Turn).Floor == k;
  }

  /** Adding whole turns does not change the representative. */
  lemma ModTurnPeriodic(x: real, n: int)
    ensures ModTurn(x + n as real * Turn) == ModTurn(x)
  {
    var k := (x / Turn).Floor;
    ModTurnUnique(x + n as real * Turn, k + n);
  }

  /** For a non-negative dividend, JS `% 360` is the Euclidean remainder. */
  lemma RemTurnOfNonNegative(x: real)
    requires x >= 0.0
    ensures RemTurn(Finite(x)) == Finite(ModTurn(x))
  {
  }
}
