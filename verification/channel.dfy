/** Number-to-byte arithmetic shared by every pixel filter.

    Pixel data lives in a Uint8ClampedArray, so every store converts a
    JavaScript number to a byte with ToUint8Clamp (section 7.1.12 of
    ECMA-262): clamp to [0, 255], then round to the nearest integer with
    ties to even. Numbers are modelled as exact reals.
 */
module Channel {

  predicate IsByte(x: int) {
    0 <= x <= 255
  }

  /** ToUint8Clamp: the conversion performed by every store into pixel data. */
  function ToUint8Clamp(x: real): (b: int)
    ensures IsByte(b)
    ensures x <= 0.0 ==> b == 0
    ensures x >= 255.0 ==> b == 255
    ensures 0.0 < x < 255.0 ==> -0.5 <= x - b as real <= 0.5
    ensures 0.0 < x < 255.0 && (x - b as real == 0.5 || b as real - x == 0.5) ==> b % 2 == 0
  {
    if x <= 0.0 then 0
    else if x >= 255.0 then 255
    else
      var f := x.Floor;
      if f as real + 0.5 < x then f + 1
      else if x < f as real + 0.5 then f
      else if f % 2 == 0 then f
      else f + 1
  }

  /** A byte stored back unchanged is read back unchanged. */
  lemma ToUint8ClampOfByte(n: int)
    requires IsByte(n)
    ensures ToUint8Clamp(n as real) == n
  {
  }

  /** Storing is monotone: a larger number never becomes a smaller byte. */
  lemma ToUint8ClampMonotone(x: real, y: real)
    requires x <= y
    ensures ToUint8Clamp(x) <= ToUint8Clamp(y)
  {
    if 0.0 < x && y < 255.0 && x.Floor == y.Floor {
      var f := x.Floor;
      if ToUint8Clamp(x) == f + 1 {
        assert f as real + 0.5 <= x;
        assert ToUint8Clamp(y) == f + 1;
      }
    } else if 0.0 < x && y < 255.0 {
      assert x.Floor < y.Floor;
    }
  }

  /** `Math.min(255, x)`, written by the filters before each store. */
  function Min255(x: real): (m: real)
    ensures m <= 255.0 && m <= x
    ensures m == x || m == 255.0
  {
    if x < 255.0 then x else 255.0
  }

  /** The `Math.min(255, …)` guard in front of a store is redundant: the
      store clamps on its own. */
  lemma Min255Redundant(x: real)
    ensures ToUint8Clamp(Min255(x)) == ToUint8Clamp(x)
  {
  }

  /** `Math.min(255, x)` followed by the store, the shape of every channel
      write in the filters. */
  function StoreMin(x: real): (b: int)
    ensures IsByte(b)
    ensures b == ToUint8Clamp(x)
  {
    Min255Redundant(x);
    ToUint8Clamp(Min255(x))
  }

  lemma MulNonneg(a: real, b: real)
    requires a >= 0.0 && b >= 0.0
    ensures a * b >= 0.0
  {
  }

  /** Multiplication distributes over addition. */
  lemma MulDistrib(a: real, b: real, c: real)
    ensures a * (b + c) == a * b + a * c
  {
  }

  /** Multiplication distributes over subtraction. */
  lemma MulSub(a: real, b: real, c: real)
    ensures (a - b) * c == a * c - b * c
  {
  }

  /** Multiplying by a non-negative number keeps an ordering. */
  lemma MulLe(a: real, b: real, c: real)
    requires a <= b && c >= 0.0
    ensures a * c <= b * c
  {
    MulNonneg(b - a, c);
    MulSub(b, a, c);
  }

  /** `Math.round`: the nearest integer, ties towards positive infinity. */
  function MathRound(x: real): (n: int)
    ensures x - 0.5 < n as real <= x + 0.5
  {
    (x + 0.5).Floor
  }

  lemma MathRoundOfInt(n: int)
    ensures MathRound(n as real) == n
  {
  }

  /** Truncation towards zero of a number. */
  function Trunc(x: real): (n: int)
    ensures x >= 0.0 ==> n as real <= x < n as real + 1.0
    ensures x < 0.0 ==> n as real - 1.0 < x <= n as real
  {
    if x >= 0.0 then x.Floor else -((-x).Floor)
  }

  /** `x % 360` on numbers: the remainder keeps the sign of the dividend
      (Number::remainder in ECMA-262), unlike Dafny's `%`. */
  function Rem360(x: real): (r: real)
    ensures x >= 0.0 ==> 0.0 <= r < 360.0
    ensures x < 0.0 ==> -360.0 < r <= 0.0
    ensures 0.0 <= x < 360.0 ==> r == x
    ensures exists k: int :: x - r == Turns(k)
  {
    var k := Trunc(x / 360.0);
    assert x - (x - Turns(k)) == Turns(k);
    x - Turns(k)
  }

  /** A whole number of turns, in degrees. */
  function Turns(k: int): real {
    360.0 * k as real
  }

  /** Whole turns added to a number in [0, 360) are removed by `% 360`. */
  lemma {:induction false} Rem360Periodic(y: real, turns: nat)
    requires 0.0 <= y < 360.0
    ensures Rem360(y + 360.0 * turns as real) == y
  {
    var x := y + 360.0 * turns as real;
    assert x / 360.0 == y / 360.0 + turns as real;
    assert Trunc(x / 360.0) == turns;
  }
}
