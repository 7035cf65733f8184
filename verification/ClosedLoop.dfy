/**
 The controllers in closed loop with the clock they correct: frame after frame, the error grows by the drift of
 the local clock over one period and shrinks by the correction applied.
 */
module ClosedLoop {
  import opened CArith
  import opened SyncSpec
  import opened NodeSpec

  /** The controller after a frame, and how late that frame came. */
  datatype Loop = Loop(control: Control, e: int)

  /** The next frame: `d` is the drift over the period, and the frame may be lost. */
  function After(scheme: Scheme, l: Loop, d: int, heard: bool): Loop {
    var e := l.e + d - Correction(scheme, l.control);
    Loop(if heard then Receive(scheme, l.control, e) else Settle(scheme, l.control), e)
  }

  ghost function LoopAt(scheme: Scheme, l: Loop, d: nat -> int, heard: nat -> bool, k: nat): Loop {
    if k == 0 then l else After(scheme, LoopAt(scheme, l, d, heard, k - 1), d(k - 1), heard(k - 1))
  }

  ghost function Error(scheme: Scheme, l: Loop, d: nat -> int, k: nat): int {
    LoopAt(scheme, l, d, Always, k).e
  }

  function Always(k: nat): bool {
    true
  }

  /** Fits the 16 bit field the controller keeps it in, as the errors of frames that are heard do. */
  predicate Fits(e: int) {
    -0x8000 <= e < 0x8000
  }

  function Abs(x: int): nat {
    if x >= 0 then x else -x
  }

  /** How much the quantized output is above the state it is computed from. */
  function Residue(scheme: Scheme, c: Control): int {
    scheme.Scale() * Correction(scheme, c) - c.uo
  }

  // ---------------------------------------------------------------- the recurrence of the error

  /** A controller that is past its start and has heard the last frame. */
  predicate Tracking(l: Loop) {
    l.control.init == 2 && l.control.eo == l.e
  }

  lemma TrackingStep(scheme: Scheme, l: Loop, d: int)
    requires scheme != Adaptive && Tracking(l) && Fits(After(scheme, l, d, true).e)
    ensures Tracking(After(scheme, l, d, true))
  {
  }

  lemma ErrorStep(scheme: Scheme, l: Loop, d: int)
    requires scheme != Adaptive && Tracking(l)
    ensures var m, l1 := scheme.Scale(), After(scheme, l, d, true);
            m * l1.e == m * l.e + m * d - l.control.uo - Residue(scheme, l.control)
    ensures 2 * Abs(Residue(scheme, l.control)) <= scheme.Scale()
  {
  }

  /** Three frames on, the error obeys a linear recurrence in which the only disturbances are the second
      difference of the drift and that of the rounding. */
  lemma Recurrence(scheme: Scheme, l0: Loop, d0: int, d1: int, d2: int, l1: Loop, l2: Loop, l3: Loop)
    requires scheme != Adaptive && Tracking(l0)
    requires l1 == After(scheme, l0, d0, true) && l2 == After(scheme, l1, d1, true) && l3 == After(scheme, l2, d2, true)
    requires Fits(l1.e) && Fits(l2.e)
    ensures var D2d := d2 - 2 * d1 + d0;
            var D2r := Residue(scheme, l2.control) - 2 * Residue(scheme, l1.control) + Residue(scheme, l0.control);
            && (scheme == Flopsync2
                ==> Abs(D2r) <= 1024 && 512 * l3.e == 576 * l2.e - 216 * l1.e + 27 * l0.e + 512 * D2d - D2r)
            && (scheme == OptimizedRamp ==> Abs(D2r) <= 128 && 64 * l3.e == 48 * l2.e - 9 * l1.e + 64 * D2d - D2r)
  {
    TrackingStep(scheme, l0, d0);
    TrackingStep(scheme, l1, d1);
    ErrorStep(scheme, l0, d0);
    ErrorStep(scheme, l1, d1);
    ErrorStep(scheme, l2, d2);
    hide Correction, RoundDiv, ToShort, Residue;
    Tracks(scheme, l0, d0);
    Tracks(scheme, l1, d1);
  }

  /** What a frame that is heard does to the state of a controller past its start. */
  lemma Tracks(scheme: Scheme, l: Loop, d: int)
    requires scheme != Adaptive && Tracking(l) && Fits(After(scheme, l, d, true).e)
    ensures var l1 := After(scheme, l, d, true);
            var (a, b, g) := scheme.Gains();
            && l1.control.uo == 2 * l.control.uo - l.control.uoo + a * l1.e + b * l.e + g * l.control.eoo
            && l1.control.uoo == l.control.uo && l1.control.eo == l1.e && l1.control.eoo == l.e
  {
  }

  // ---------------------------------------------------------------- convergence

  /** A sequence, and then j times over what it has on top of 3/8 of its last value, eight times. */
  ghost function Lag(z: nat -> int, j: nat, k: nat): int
    decreases j
  {
    if j == 0 then z(k) else 8 * Lag(z, j - 1, k + 1) - 3 * Lag(z, j - 1, k)
  }

  ghost predicate Within(z: nat -> int, j: nat, from: nat, to: nat, band: nat) {
    forall k: nat :: from <= k < to ==> Abs(Lag(z, j, k)) <= band
  }

  lemma LagAt(z: nat -> int, j: nat, from: nat, to: nat, f: nat, k: nat)
    requires Within(z, j + 1, from, to, f) && from <= k < to
    ensures Abs(8 * Lag(z, j, k + 1) - 3 * Lag(z, j, k)) <= f
  {
    hide Abs;
    assert Abs(Lag(z, j + 1, k)) <= f;
  }

  lemma LagWithin(z: nat -> int, j: nat, from: nat, to: nat, band: nat)
    requires Within(z, j, from, to + 1, band)
    ensures Within(z, j + 1, from, to, 11 * band)
  {
    var i := j + 1;
    forall k: nat | from <= k < to ensures Abs(Lag(z, i, k)) <= 11 * band {
      assert Abs(Lag(z, j, k)) <= band && Abs(Lag(z, j, k + 1)) <= band;
    }
  }

  lemma LagTwice(z: nat -> int, k: nat)
    ensures Lag(z, 2, k) == 64 * z(k + 2) - 48 * z(k + 1) + 9 * z(k)
  {
    assert Lag(z, 1, k + 1) == 8 * z(k + 2) - 3 * z(k + 1);
    assert Lag(z, 1, k) == 8 * z(k + 1) - 3 * z(k);
  }

  lemma LagThrice(z: nat -> int, k: nat)
    ensures Lag(z, 3, k) == 512 * z(k + 3) - 576 * z(k + 2) + 216 * z(k + 1) - 27 * z(k)
  {
    LagTwice(z, k);
    LagTwice(z, k + 1);
  }

  function Pow2(j: nat): (p: nat)
    ensures p >= 1
  {
    if j == 0 then 1 else 2 * Pow2(j - 1)
  }

  /** What is above a fifth of the disturbance is at least halved. */
  lemma OneStep(a: int, b: int, f: nat, p: nat)
    requires Abs(8 * b - 3 * a) <= f
    ensures Abs(a) <= f / 5 ==> Abs(b) <= f / 5
    ensures Abs(a) < f / 5 + 2 * p && p >= 1 ==> Abs(b) < f / 5 + p
  {
  }

  /** A sequence whose next value is 3/8 of this one, up to a bounded disturbance, comes below a fifth of the
      disturbance and stays there; it takes at most n frames from less than 2^n above it. */
  lemma {:induction false} FirstOrder(z: nat -> int, j: nat, from: nat, to: nat, f: nat, n: nat)
    requires Within(z, j + 1, from, to, f) && Abs(Lag(z, j, from)) < f / 5 + Pow2(n)
    ensures Within(z, j, from + n, to + 1, f / 5)
    decreases n
  {
    hide Abs;
    if n == 0 {
      forall k: nat | from <= k < to + 1 ensures Abs(Lag(z, j, k)) <= f / 5 {
        Stays(z, j, from, to, f, k);
      }
    } else if from < to {
      LagAt(z, j, from, to, f, from);
      OneStep(Lag(z, j, from), Lag(z, j, from + 1), f, Pow2(n - 1));
      FirstOrder(z, j, from + 1, to, f, n - 1);
    }
  }

  lemma {:induction false} Stays(z: nat -> int, j: nat, from: nat, to: nat, f: nat, k: nat)
    requires Within(z, j + 1, from, to, f)
    requires Abs(Lag(z, j, from)) <= f / 5 && from <= k <= to
    ensures Abs(Lag(z, j, k)) <= f / 5
    decreases k
  {
    hide Within, Abs;
    if k > from {
      Stays(z, j, from, to, f, k - 1);
      LagAt(z, j, from, to, f, k - 1);
      OneStep(Lag(z, j, k - 1), Lag(z, j, k), f, 1);
    }
  }

  /** A triple pole at 3/8, from values of 16 bits. */
  lemma TriplePole(z: nat -> int, from: nat, to: nat)
    requires Within(z, 0, from, to + 2, 0x8000) && Within(z, 3, from, to, 1024)
    ensures Within(z, 0, from + 56, to + 3, 8)
  {
    if from + 56 < to + 3 {
      hide Abs;
      Powers();
      LagWithin(z, 0, from, to + 1, 0x8000);
      LagWithin(z, 1, from, to, 11 * 0x8000);
      FirstOrder(z, 2, from, to, 1024, 22);
      FirstOrder(z, 1, from + 22, to + 1, 204, 19);
      FirstOrder(z, 0, from + 41, to + 2, 40, 15);
    }
  }

  /** A double pole at 3/8, from values of 16 bits. */
  lemma DoublePole(z: nat -> int, from: nat, to: nat)
    requires Within(z, 0, from, to + 1, 0x8000) && Within(z, 2, from, to, 128)
    ensures Within(z, 0, from + 34, to + 2, 5)
  {
    if from + 34 < to + 2 {
      hide Abs;
      Powers();
      LagWithin(z, 0, from, to, 0x8000);
      FirstOrder(z, 1, from, to, 128, 19);
      FirstOrder(z, 0, from + 19, to + 1, 25, 15);
    }
  }

  lemma Powers()
    ensures Pow2(15) == 0x8000 && Pow2(19) == 0x8_0000 && Pow2(22) == 0x40_0000
  {
    assert Pow2(4) == 16;
    assert Pow2(8) == 256;
    assert Pow2(12) == 4096;
    assert Pow2(15) == 0x8000;
    assert Pow2(19) == 0x8_0000;
  }

  /** From `from` on the drift is constant or a ramp. */
  ghost predicate Ramp(d: nat -> int, from: nat) {
    forall k: nat :: k >= from ==> d(k + 2) - 2 * d(k + 1) + d(k) == 0
  }

  /** The errors before frame n fit the field the controller keeps them in. */
  ghost predicate FitBefore(scheme: Scheme, l: Loop, d: nat -> int, n: nat) {
    forall k: nat :: k < n ==> Fits(Error(scheme, l, d, k))
  }

  lemma {:induction false} TrackingAt(scheme: Scheme, l: Loop, d: nat -> int, k: nat)
    requires scheme != Adaptive && Tracking(l) && FitBefore(scheme, l, d, k + 1)
    ensures Tracking(LoopAt(scheme, l, d, Always, k))
  {
    if k > 0 {
      TrackingAt(scheme, l, d, k - 1);
      assert Fits(Error(scheme, l, d, k));
      TrackingStep(scheme, LoopAt(scheme, l, d, Always, k - 1), d(k - 1));
    }
  }

  /** The recurrence along a whole run, for a drift that is constant or a ramp. */
  lemma RecurrenceAt(scheme: Scheme, l: Loop, d: nat -> int, k: nat)
    requires scheme != Adaptive && Tracking(l) && FitBefore(scheme, l, d, k + 3)
    requires d(k + 2) - 2 * d(k + 1) + d(k) == 0
    ensures var e0, e1 := Error(scheme, l, d, k), Error(scheme, l, d, k + 1);
            var e2, e3 := Error(scheme, l, d, k + 2), Error(scheme, l, d, k + 3);
            && (scheme == Flopsync2 ==> Abs(512 * e3 - 576 * e2 + 216 * e1 - 27 * e0) <= 1024)
            && (scheme == OptimizedRamp ==> Abs(64 * e3 - 48 * e2 + 9 * e1) <= 128)
  {
    hide After, Residue, Tracking, Fits;
    TrackingAt(scheme, l, d, k);
    assert Fits(Error(scheme, l, d, k + 1)) && Fits(Error(scheme, l, d, k + 2));
    Recurrence(scheme, LoopAt(scheme, l, d, Always, k), d(k), d(k + 1), d(k + 2),
               LoopAt(scheme, l, d, Always, k + 1), LoopAt(scheme, l, d, Always, k + 2),
               LoopAt(scheme, l, d, Always, k + 3));
  }

  /** From frame n on the error is within `band` ticks. */
  ghost predicate Settled(scheme: Scheme, l: Loop, d: nat -> int, n: nat, band: nat) {
    forall k: nat :: k >= n ==> Abs(Error(scheme, l, d, k)) <= band
  }

  /** When the drift is constant or a ramp and no frame is lost, the error of FLOPSYNC2 is within 8 ticks after 56
      frames, wherever it starts, and stays there. */
  lemma Flopsync2Settles(l: Loop, d: nat -> int, from: nat)
    requires Tracking(l) && Ramp(d, from) && FitBefore(Flopsync2, l, d, from + 56)
    ensures Settled(Flopsync2, l, d, from + 56, 8)
  {
    hide Error, Tracking, Ramp, FitBefore;
    forall k: nat | k >= from + 56 ensures Abs(Error(Flopsync2, l, d, k)) <= 8 {
      Flopsync2UpTo(l, d, from, k);
    }
  }

  lemma {:induction false} Flopsync2UpTo(l: Loop, d: nat -> int, from: nat, n: nat)
    requires Tracking(l) && Ramp(d, from) && FitBefore(Flopsync2, l, d, from + 56) && n >= from + 56
    ensures FitBefore(Flopsync2, l, d, n + 1) && Abs(Error(Flopsync2, l, d, n)) <= 8
    decreases n
  {
    if n > from + 56 {
      Flopsync2UpTo(l, d, from, n - 1);
    }
    Flopsync2Next(l, d, from, n);
    hide Error;
  }

  lemma Flopsync2Next(l: Loop, d: nat -> int, from: nat, to: nat)
    requires Tracking(l) && Ramp(d, from) && FitBefore(Flopsync2, l, d, to) && to >= from + 56
    ensures Abs(Error(Flopsync2, l, d, to)) <= 8
  {
    hide Error, Tracking, Fits;
    var e := Errors(Flopsync2, l, d, 0);
    forall k: nat | from <= k < to - 2 ensures Abs(Lag(e, 3, k)) <= 1024 {
      LagThrice(e, k);
      RecurrenceAt(Flopsync2, l, d, k);
    }
    FitsWithin(Flopsync2, l, d, 0, from, to);
    TriplePole(e, from, to - 2);
    WithinError(Flopsync2, l, d, 0, from + 56, to, 8);
  }

  /** The error of OptimizedRampFlopsync is within 5 ticks after 35. */
  lemma OptimizedRampSettles(l: Loop, d: nat -> int, from: nat)
    requires Tracking(l) && Ramp(d, from) && FitBefore(OptimizedRamp, l, d, from + 35)
    ensures Settled(OptimizedRamp, l, d, from + 35, 5)
  {
    hide Error, Tracking, Ramp, FitBefore;
    forall k: nat | k >= from + 35 ensures Abs(Error(OptimizedRamp, l, d, k)) <= 5 {
      OptimizedRampUpTo(l, d, from, k);
    }
  }

  lemma {:induction false} OptimizedRampUpTo(l: Loop, d: nat -> int, from: nat, n: nat)
    requires Tracking(l) && Ramp(d, from) && FitBefore(OptimizedRamp, l, d, from + 35) && n >= from + 35
    ensures FitBefore(OptimizedRamp, l, d, n + 1) && Abs(Error(OptimizedRamp, l, d, n)) <= 5
    decreases n
  {
    if n > from + 35 {
      OptimizedRampUpTo(l, d, from, n - 1);
    }
    OptimizedRampNext(l, d, from, n);
    hide Error;
  }

  lemma OptimizedRampNext(l: Loop, d: nat -> int, from: nat, to: nat)
    requires Tracking(l) && Ramp(d, from) && FitBefore(OptimizedRamp, l, d, to) && to >= from + 35
    ensures Abs(Error(OptimizedRamp, l, d, to)) <= 5
  {
    hide Error, Tracking, Fits;
    var e := Errors(OptimizedRamp, l, d, 1);
    forall k: nat | from <= k < to - 2 ensures Abs(Lag(e, 2, k)) <= 128 {
      LagTwice(e, k);
      RecurrenceAt(OptimizedRamp, l, d, k);
    }
    FitsWithin(OptimizedRamp, l, d, 1, from, to);
    DoublePole(e, from, to - 2);
    WithinError(OptimizedRamp, l, d, 1, from + 34, to, 5);
  }

  ghost function Errors(scheme: Scheme, l: Loop, d: nat -> int, shift: nat): nat -> int {
    (k: nat) => Error(scheme, l, d, k + shift)
  }

  lemma FitsWithin(scheme: Scheme, l: Loop, d: nat -> int, shift: nat, from: nat, to: nat)
    requires FitBefore(scheme, l, d, to) && shift <= to
    ensures Within(Errors(scheme, l, d, shift), 0, from, to - shift, 0x8000)
  {
    hide Error;
    var e := Errors(scheme, l, d, shift);
    forall k: nat | k < to - shift ensures Abs(Lag(e, 0, k)) <= 0x8000 {
      assert Fits(Error(scheme, l, d, k + shift));
    }
  }

  lemma WithinError(scheme: Scheme, l: Loop, d: nat -> int, shift: nat, from: nat, to: nat, band: nat)
    requires from + shift <= to && Within(Errors(scheme, l, d, shift), 0, from, to - shift + 1, band)
    ensures Abs(Error(scheme, l, d, to)) <= band
  {
    hide Error, Abs;
    var i: nat := to - shift;
    assert Abs(Lag(Errors(scheme, l, d, shift), 0, i)) <= band;
  }

  // ---------------------------------------------------------------- the controller with a quantized state

  /** A state ControllerFlopsync keeps after a frame it heard. */
  predicate Kept(l: Loop) {
    l.control.eo == l.e && (l.e == 0 ==> Residue(Adaptive, l.control) == 0)
  }

  /** How the error and the part of the state below a tick change under a constant skew. */
  ghost predicate Moves(e: int, s: int, e': int, s': int) {
    exists t :: MovesBy(e, s, t, e', s')
  }

  /** t is that part before the state is quantized. */
  predicate MovesBy(e: int, s: int, t: int, e': int, s': int) {
    -4 <= t <= 4 && (t - s - 3 * e) % 8 == 0 && 8 * e' == 5 * e + t - s && s' == if e == 0 then 0 else t
  }

  lemma KeptStep(l: Loop, d: int)
    requires Kept(l) && Fits(After(Adaptive, l, d, true).e)
    ensures Kept(After(Adaptive, l, d, true)) && Abs(Residue(Adaptive, l.control)) <= 4
  {
  }

  lemma AdaptiveMoves(l0: Loop, d: int, l1: Loop, l2: Loop)
    requires Kept(l0) && Fits(l1.e)
    requires l1 == After(Adaptive, l0, d, true) && l2 == After(Adaptive, l1, d, true)
    ensures Moves(l1.e, -Residue(Adaptive, l0.control), l2.e, -Residue(Adaptive, l1.control))
  {
    hide Correction, ToShort, Kept, Fits, After, Residue;
    var s := -Residue(Adaptive, l0.control);
    var t, q := Output(l0, d, l1);
    KeptError(l0, d, l1);
    KeptError(l1, d, l2);
    assert t - s - 3 * l1.e == 8 * (l1.e - l0.e - q + Correction(Adaptive, l0.control));
    assert MovesBy(l1.e, s, t, l2.e, -Residue(Adaptive, l1.control));
  }

  lemma KeptError(l: Loop, d: int, l1: Loop)
    requires l1 == After(Adaptive, l, d, true)
    ensures l1.e == l.e + d - Correction(Adaptive, l.control)
    ensures Residue(Adaptive, l.control) == 8 * Correction(Adaptive, l.control) - l.control.uo
  {
  }

  /** The new state is t more than 8 q, and t is dropped when the error is zero. */
  lemma Output(l0: Loop, d: int, l1: Loop) returns (t: int, q: int)
    requires Kept(l0) && Fits(l1.e) && l1 == After(Adaptive, l0, d, true)
    ensures -4 <= t <= 4 && 8 * q + t == l0.control.uo + 11 * l1.e - 8 * l0.e
    ensures Correction(Adaptive, l1.control) == q && -Residue(Adaptive, l1.control) == if l1.e == 0 then 0 else t
  {
    var u := l0.control.uo + 11 * l1.e - 8 * l0.e;
    q := RoundDiv(u, 8);
    t := u - 8 * q;
    RoundExact(q, 8);
    RoundError(u, 8);
    hide RoundDiv, ToShort;
    assert l1.control.uo == if l1.e == 0 then 8 * q else u;
  }

  /** Rounds left until the error is zero for good, by error from -2 to 2 and state from -4 to 4. */
  const ROUNDS_LEFT: seq<seq<nat>> := [
      [3, 6, 4, 4, 7, 5, 5, 7, 5],
      [2, 2, 2, 5, 3, 3, 6, 4, 4],
      [4, 1, 1, 1, 0, 1, 1, 1, 4],
      [4, 4, 6, 3, 3, 5, 2, 2, 2],
      [5, 7, 5, 5, 7, 4, 4, 6, 3]]

  function RoundsLeft(e: int, s: int): nat
    requires -4 <= s <= 4
  {
    if -2 <= e <= 2 then ROUNDS_LEFT[e + 2][s + 4] else Abs(e) + 5
  }

  lemma MovesDown(e: int, s: int, e': int, s': int)
    requires -4 <= s <= 4 && Moves(e, s, e', s')
    ensures -4 <= s' <= 4
    ensures if e == 0 && s == 0 then e' == 0 && s' == 0 else RoundsLeft(e', s') < RoundsLeft(e, s)
  {
    var t :| MovesBy(e, s, t, e', s');
    if -2 <= e <= 2 {
      Table(e, s, t, e', s');
    }
  }

  lemma Table(e: int, s: int, t: int, e': int, s': int)
    requires -4 <= s <= 4 && -2 <= e <= 2 && MovesBy(e, s, t, e', s')
    ensures if e == 0 && s == 0 then e' == 0 && s' == 0 else -2 <= e' <= 2 && RoundsLeft(e', s') < RoundsLeft(e, s)
  {
  }

  lemma {:induction false} KeptAt(l: Loop, d: nat -> int, k: nat)
    requires Kept(l) && forall k: nat :: Fits(Error(Adaptive, l, d, k))
    ensures Kept(LoopAt(Adaptive, l, d, Always, k))
  {
    hide Kept, Fits;
    if k > 0 {
      KeptAt(l, d, k - 1);
      assert Fits(Error(Adaptive, l, d, k));
      KeptStep(LoopAt(Adaptive, l, d, Always, k - 1), d(k - 1));
    }
  }

  /** The part of the state below a tick after frame k. */
  ghost function Below(l: Loop, d: nat -> int, k: nat): int {
    -Residue(Adaptive, LoopAt(Adaptive, l, d, Always, k).control)
  }

  lemma MovesAt(l: Loop, d: nat -> int, k: nat)
    requires Kept(l) && forall k: nat :: Fits(Error(Adaptive, l, d, k))
    requires d(k + 1) == d(k)
    ensures -4 <= Below(l, d, k) <= 4
    ensures Moves(Error(Adaptive, l, d, k + 1), Below(l, d, k), Error(Adaptive, l, d, k + 2), Below(l, d, k + 1))
  {
    hide Kept, Fits, After, Residue, Moves;
    KeptAt(l, d, k);
    assert Fits(Error(Adaptive, l, d, k + 1));
    KeptStep(LoopAt(Adaptive, l, d, Always, k), d(k));
    AdaptiveMoves(LoopAt(Adaptive, l, d, Always, k), d(k),
                  LoopAt(Adaptive, l, d, Always, k + 1), LoopAt(Adaptive, l, d, Always, k + 2));
  }

  /** Frames before ControllerFlopsync is at rest, once the skew is constant from frame k on. */
  ghost function Frames(l: Loop, d: nat -> int, k: nat): nat {
    var s := Below(l, d, k);
    if -4 <= s <= 4 then RoundsLeft(Error(Adaptive, l, d, k + 1), s) else 0
  }

  lemma {:induction false} AtRest(l: Loop, d: nat -> int, from: nat, k: nat)
    requires Kept(l) && forall k: nat :: Fits(Error(Adaptive, l, d, k))
    requires forall k: nat :: k >= from ==> d(k) == d(from)
    requires k >= from
    ensures Frames(l, d, k) <= Max(0, Frames(l, d, from) - (k - from))
    decreases k
  {
    hide Kept, Fits, Error, Below, RoundsLeft, Moves;
    if k > from {
      AtRest(l, d, from, k - 1);
      MovesAt(l, d, k - 1);
      assert d(k - 1 + 1) == d(k - 1);
      MovesDown(Error(Adaptive, l, d, k), Below(l, d, k - 1), Error(Adaptive, l, d, k + 1), Below(l, d, k));
      NoneLeft(Error(Adaptive, l, d, k), Below(l, d, k - 1));
      NoneLeft(Error(Adaptive, l, d, k + 1), Below(l, d, k));
    }
  }

  lemma NoneLeft(e: int, s: int)
    requires -4 <= s <= 4
    ensures RoundsLeft(e, s) == 0 <==> e == 0 && s == 0
    ensures RoundsLeft(e, s) <= Abs(e) + 7
  {
  }

  /** Under a constant skew, and with no frame lost, the error of ControllerFlopsync becomes exactly zero and stays
      zero: seven frames after it is within two ticks, and one more for each tick it is away at first. */
  lemma AdaptiveSettles(l: Loop, d: nat -> int, from: nat)
    requires Kept(l) && forall k: nat :: Fits(Error(Adaptive, l, d, k))
    requires forall k: nat :: k >= from ==> d(k) == d(from)
    ensures Settled(Adaptive, l, d, from + Abs(Error(Adaptive, l, d, from + 1)) + 8, 0)
  {
    hide Kept, Fits, Error, Below, RoundsLeft, Moves;
    MovesAt(l, d, from);
    NoneLeft(Error(Adaptive, l, d, from + 1), Below(l, d, from));
    forall k: nat | k >= from + Abs(Error(Adaptive, l, d, from + 1)) + 8 ensures Abs(Error(Adaptive, l, d, k)) <= 0 {
      AtRest(l, d, from, k - 1);
      MovesAt(l, d, k - 1);
      NoneLeft(Error(Adaptive, l, d, k), Below(l, d, k - 1));
    }
  }
}
