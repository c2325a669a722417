/** Facts about `.Floor` on exact reals (the model's stand-in for Go's math.Floor). */
module RealFloor {

  /** x is a whole number: math.Floor(x) == x. */
  predicate IsInteger(x: real) {
    x.Floor as real == x
  }

  /** The floor is the one integer k with k <= x < k + 1. */
  lemma FloorUnique(x: real, k: int)
    requires k as real <= x < k as real + 1.0
    ensures x.Floor == k
  {
    var f := x.Floor;
    assert f as real <= x < f as real + 1.0;
    assert f - 1 < k < f + 1;
  }

  /** x - floor(x), the offset of x inside its cell, lies in [0, 1). */
  lemma FracBounds(x: real)
    ensures 0.0 <= x - x.Floor as real < 1.0
  {
  }

  /** x is whole exactly when -x is. */
  lemma IntegerNegate(x: real)
    ensures IsInteger(x) <==> IsInteger(-x)
  {
    if IsInteger(x) {
      FloorUnique(-x, -x.Floor);
    }
    if IsInteger(-x) {
      FloorUnique(x, -(-x).Floor);
    }
  }

  /** Shifting by a whole number shifts the floor by the same amount. */
  lemma FloorShift(x: real, n: int)
    ensures (x + n as real).Floor == x.Floor + n
  {
    FloorUnique(x + n as real, x.Floor + n);
  }

  /** Mirroring a value that is not whole: floor(-x) == -floor(x) - 1. */
  lemma FloorNegate(x: real)
    requires !IsInteger(x)
    ensures (-x).Floor == -x.Floor - 1
  {
    assert x.Floor as real < x;
    FloorUnique(-x, -x.Floor - 1);
  }

  /** n / s lies in (0, 1 / s] when n is in (0, 1] and s is positive. */
  lemma QuotientBounds(n: real, s: real)
    requires 0.0 < n <= 1.0 && s > 0.0
    ensures 0.0 < n / s <= 1.0 / s
    ensures n < 1.0 ==> n / s < 1.0 / s
  {
    assert n / s == n * (1.0 / s);
  }

  /** Division undoes multiplication by a non-zero value. */
  lemma DivExact(x: real, y: real, d: real)
    requires d != 0.0 && x == y * d
    ensures x / d == y
  {
  }

  /** A value in [0, 1) has floor 0. */
  lemma FloorOfFraction(x: real)
    requires 0.0 <= x < 1.0
    ensures x.Floor == 0
  {
    FloorUnique(x, 0);
  }
}
