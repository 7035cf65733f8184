/**
 The control law of FLOPSYNC2 as its comment states it, over real numbers and without rounding: the error converges
 to zero, where the integer controller stays within a band.
 */
module Unquantized {

  /** After a frame: the last two corrections, and the last three errors, that of the frame included. */
  datatype Loop = Loop(u: real, uo: real, e: real, eo: real, eoo: real)

  /** The next frame, after a drift of d. */
  function After(l: Loop, d: real): Loop {
    var e := l.e + d - l.u;
    Loop(2.0 * l.u - l.uo + 1.875 * e - 2.578125 * l.e + 0.947265625 * l.eo, l.u, e, l.e, l.eo)
  }

  ghost function At(l: Loop, d: nat -> real, k: nat): Loop {
    if k == 0 then l else After(At(l, d, k - 1), d(k - 1))
  }

  ghost function Error(l: Loop, d: nat -> real, k: nat): real {
    At(l, d, k).e
  }

  function Abs(x: real): real {
    if x >= 0.0 then x else -x
  }

  /** Constant, or a ramp, from `from` on. */
  ghost predicate Ramp(d: nat -> real, from: nat) {
    forall k: nat :: k >= from ==> d(k + 2) - 2.0 * d(k + 1) + d(k) == 0.0
  }

  lemma Recurrence(l0: Loop, d0: real, d1: real, d2: real)
    requires d2 - 2.0 * d1 + d0 == 0.0
    ensures var l1 := After(l0, d0);
            var l2 := After(l1, d1);
            512.0 * After(l2, d2).e == 576.0 * l2.e - 216.0 * l1.e + 27.0 * l0.e
  {
  }

  /** A sequence, and then j times over what it has on top of 3/8 of its last value, eight times. */
  ghost function Lag(z: nat -> real, j: nat, k: nat): real
    decreases j
  {
    if j == 0 then z(k) else 8.0 * Lag(z, j - 1, k + 1) - 3.0 * Lag(z, j - 1, k)
  }

  ghost predicate Within(z: nat -> real, j: nat, from: nat, band: real) {
    forall k: nat :: k >= from ==> Abs(Lag(z, j, k)) <= band
  }

  lemma LagAt(z: nat -> real, j: nat, from: nat, f: real, k: nat)
    requires Within(z, j + 1, from, f) && k >= from
    ensures Abs(8.0 * Lag(z, j, k + 1) - 3.0 * Lag(z, j, k)) <= f
  {
    hide Abs;
    assert Abs(Lag(z, j + 1, k)) <= f;
  }

  lemma LagThrice(z: nat -> real, k: nat)
    ensures Lag(z, 3, k) == 512.0 * z(k + 3) - 576.0 * z(k + 2) + 216.0 * z(k + 1) - 27.0 * z(k)
  {
    assert Lag(z, 1, k + 2) == 8.0 * z(k + 3) - 3.0 * z(k + 2);
    assert Lag(z, 1, k + 1) == 8.0 * z(k + 2) - 3.0 * z(k + 1);
    assert Lag(z, 1, k) == 8.0 * z(k + 1) - 3.0 * z(k);
  }

  /** After i steps the excess over a fifth of the disturbance is at most an (i + 1)-th of where it began. */
  lemma {:induction false} Shrinks(z: nat -> real, j: nat, from: nat, f: real, i: nat)
    requires Within(z, j + 1, from, f)
    ensures (i + 1) as real * (Abs(Lag(z, j, from + i)) - f / 5.0) <= Abs(Lag(z, j, from)) + Abs(f)
    decreases i
  {
    hide Lag, Within;
    var w := Abs(Lag(z, j, from)) + Abs(f);
    if i == 0 {
      assert (i + 1) as real == 1.0;
    } else {
      Shrinks(z, j, from, f, i - 1);
      assert (i + 1) as real == i as real + 1.0;
      LagAt(z, j, from, f, from + i - 1);
      var a, b := Lag(z, j, from + i - 1), Lag(z, j, from + i);
      OneStep(a, b, f);
      ShrinkStep(Abs(a) - f / 5.0, Abs(b) - f / 5.0, i as real, w);
    }
  }

  lemma OneStep(a: real, b: real, f: real)
    requires Abs(8.0 * b - 3.0 * a) <= f
    ensures 8.0 * (Abs(b) - f / 5.0) <= 3.0 * (Abs(a) - f / 5.0)
  {
  }

  lemma ShrinkStep(a: real, b: real, j: real, w: real)
    requires 8.0 * b <= 3.0 * a && j >= 1.0 && j * a <= w && w >= 0.0
    ensures (j + 1.0) * b <= w
  {
    if b > 0.0 {
      Product(j, 3.0 * a - 8.0 * b);
      Product(j - 1.0, b);
      assert j * (3.0 * a - 8.0 * b) == 3.0 * (j * a) - 8.0 * (j * b);
      assert (j - 1.0) * b == j * b - b && (j + 1.0) * b == j * b + b;
    } else {
      Product(j + 1.0, -b);
      assert (j + 1.0) * -b == -((j + 1.0) * b);
    }
  }

  lemma Product(x: real, y: real)
    requires x >= 0.0 && y >= 0.0
    ensures x * y >= 0.0 && (x > 0.0 && y > 0.0 ==> x * y > 0.0)
  {
  }

  lemma NegativeProduct(x: real, y: real)
    requires x < 0.0 < y
    ensures x * y < 0.0
  {
    Product(-x, y);
    assert -x * y == -(x * y);
  }

  /** With a bounded disturbance a sequence comes as close as one likes to a fifth of it, and stays there. */
  lemma FirstOrder(z: nat -> real, j: nat, from: nat, f: real, delta: real) returns (n: nat)
    requires Within(z, j + 1, from, f) && delta > 0.0
    ensures n >= from && Within(z, j, n, f / 5.0 + delta)
  {
    hide Lag;
    var w := Abs(Lag(z, j, from)) + Abs(f);
    Enough(w, delta);
    n := from + (w / delta).Floor + 1;
    Shrunk(z, j, from, f, n, delta);
  }

  lemma Shrunk(z: nat -> real, j: nat, from: nat, f: real, n: nat, delta: real)
    requires Within(z, j + 1, from, f) && delta > 0.0 && n > from
    requires Abs(Lag(z, j, from)) + Abs(f) <= (n - from) as real * delta
    ensures Within(z, j, n, f / 5.0 + delta)
  {
    hide Lag, Abs;
    forall k: nat | k >= n ensures Abs(Lag(z, j, k)) <= f / 5.0 + delta {
      Shrinks(z, j, from, f, k - from);
      Close(Abs(Lag(z, j, k)) - f / 5.0, (k - from + 1) as real, (n - from) as real, delta,
            Abs(Lag(z, j, from)) + Abs(f));
    }
  }

  lemma Enough(w: real, delta: real)
    requires delta > 0.0 && w >= 0.0
    ensures (w / delta).Floor >= 0 && ((w / delta).Floor + 1) as real * delta >= w
  {
    var q := w / delta;
    assert q * delta == w;
    if q < 0.0 {
      NegativeProduct(q, delta);
    }
    var steps := (q.Floor + 1) as real;
    Product(steps - q, delta);
    assert (steps - q) * delta == steps * delta - q * delta;
  }

  lemma Close(x: real, j: real, steps: real, delta: real, w: real)
    requires j * x <= w <= steps * delta && j >= steps > 0.0 && delta > 0.0
    ensures x <= delta
  {
    assert j * (x - delta) == j * x - j * delta;
    assert (j - steps) * delta == j * delta - steps * delta;
    Product(j - steps, delta);
    if x > delta {
      Product(j, x - delta);
    }
  }

  lemma RecurrenceAt(l: Loop, d: nat -> real, k: nat)
    requires d(k + 2) - 2.0 * d(k + 1) + d(k) == 0.0
    ensures 512.0 * Error(l, d, k + 3)
            == 576.0 * Error(l, d, k + 2) - 216.0 * Error(l, d, k + 1) + 27.0 * Error(l, d, k)
  {
    hide After;
    Recurrence(At(l, d, k), d(k), d(k + 1), d(k + 2));
  }

  ghost function Errors(l: Loop, d: nat -> real): nat -> real {
    (k: nat) => Error(l, d, k)
  }

  /** Without rounding, and for a skew that is constant or a ramp from some point on, the error converges to zero from
      any state. */
  lemma Converges(l: Loop, d: nat -> real, from: nat, epsilon: real)
    requires Ramp(d, from) && epsilon > 0.0
    ensures exists n: nat :: Settled(l, d, n, epsilon)
  {
    hide Error;
    var e := Errors(l, d);
    forall k: nat | k >= from ensures Abs(Lag(e, 3, k)) <= 0.0 {
      LagThrice(e, k);
      RecurrenceAt(l, d, k);
    }
    var half := epsilon / 2.0;
    var n := FirstOrder(e, 2, from, 0.0, half);
    n := FirstOrder(e, 1, n, 0.0 / 5.0 + half, half);
    n := FirstOrder(e, 0, n, (0.0 / 5.0 + half) / 5.0 + half, half);
    WithinSettled(l, d, n, ((0.0 / 5.0 + half) / 5.0 + half) / 5.0 + half, epsilon);
  }

  /** From frame n on the error is within epsilon. */
  ghost predicate Settled(l: Loop, d: nat -> real, n: nat, epsilon: real) {
    forall k: nat :: k >= n ==> Abs(Error(l, d, k)) <= epsilon
  }

  lemma WithinSettled(l: Loop, d: nat -> real, n: nat, band: real, epsilon: real)
    requires Within(Errors(l, d), 0, n, band) && band <= epsilon
    ensures Settled(l, d, n, epsilon)
  {
    hide Error, Abs;
    var e := Errors(l, d);
    forall k: nat | k >= n ensures Abs(Error(l, d, k)) <= epsilon {
      assert Abs(Lag(e, 0, k)) <= band;
    }
  }
}
