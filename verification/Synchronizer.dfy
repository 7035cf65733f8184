/**
 The controller objects: class FLOPSYNC2, class OptimizedRampFlopsync and class ControllerFlopsync, told apart by
 `scheme`, behind the interface of class Synchronizer.
 */
module Synchronizer {
  import opened CArith
  import opened SyncSpec

  class Synchronizer {
    const p: Params
    const scheme: Scheme

    var uo: int
    var uoo: int
    var eo: int
    var eoo: int
    var init: nat
    var sum: int
    var squareSum: int
    var count: nat
    var dw: int
    /** The errors since the window was last computed. */
    ghost var samples: seq<int>

    ghost function Value(): Sync
      reads this
    {
      Sync(Control(uo, uoo, eo, eoo, init), samples, dw)
    }

    /** The accumulators are those of the samples, and the state is one the controllers reach. */
    ghost predicate Consistent()
      reads this
    {
      && p.Ok() && Valid(p, scheme, Value())
      && count == |samples| && sum == 64 * Sum(samples) && squareSum == 64 * SumSquares(samples)
    }

    constructor (p: Params, scheme: Scheme)
      requires p.Ok()
      ensures Consistent() && Value() == Fresh(p) && this.p == p && this.scheme == scheme
    {
      this.p, this.scheme := p, scheme;
      uo, uoo, eo, eoo, sum, squareSum, count := 0, 0, 0, 0, 0, 0, 0;
      dw := p.w;
      init := 0;
      samples := [];
    }

    method Reset()
      requires p.Ok()
      modifies this
      ensures Consistent() && Value() == Fresh(p)
    {
      uo, uoo, eo, eoo, sum, squareSum, count := 0, 0, 0, 0, 0, 0, 0;
      dw := p.w;
      init := 0;
      samples := [];
    }

    method GetClockCorrection() returns (u: int)
      requires Consistent()
      ensures u == Correction(scheme, Value().control)
    {
      var sign := if uo >= 0 then 1 else -1;
      match scheme
      case Flopsync2 => u := Quot(uo + 256 * sign, 512);
      case OptimizedRamp => u := Quot(uo + 32 * sign, 64);
      case Adaptive => u := Quot(uo + 4 * sign, 8);
    }

    method ComputeCorrection(e: int) returns (u: int, window: int)
      requires Consistent()
      modifies this
      ensures Consistent() && Value() == OnPacket(p, scheme, old(Value()), e)
      ensures u == Correction(scheme, Value().control) && window == dw
    {
      hide RoundDiv, ToShort, WindowFor, Sum, SumSquares, Settle, Track;
      WindowBounded(p, scheme, Value(), e);
      if scheme == Adaptive {
        u := ControllerFlopsync(e);
      } else if init == 0 {
        u := FirstPacket(e);
        return u, p.w;
      } else {
        SettleState();
        if scheme == Flopsync2 {
          u := FLOPSYNC2(e);
        } else {
          u := OptimizedRampFlopsync(e);
        }
      }
      UpdateWindow(e);
      window := dw;
    }

    /** Also once a packet was lost: the correction stays, the window grows. */
    method LostPacket() returns (u: int, window: int)
      requires Consistent()
      modifies this
      ensures Consistent() && Value() == OnLoss(p, scheme, old(Value()))
      ensures u == Correction(scheme, Value().control) && window == dw
    {
      WindowBounded(p, scheme, Value(), 0);
      if scheme != Adaptive {
        SettleState();
      }
      dw := Min(if scheme == Flopsync2 then 4 * dw else 2 * dw, p.w);
      u := GetClockCorrection();
      window := dw;
    }

    /** "case 0" of the controllers' start: a step of a deadbeat controller. */
    method FirstPacket(e: int) returns (u: int)
      requires scheme != Adaptive && init == 0
      modifies this`init, this`eo, this`uo, this`uoo
      ensures Value().control == Receive(scheme, old(Value().control), e)
      ensures u == Correction(scheme, Value().control)
    {
      hide RoundDiv, ToShort;
      var m := if scheme == Flopsync2 then 512 else 64;
      init := 1;
      eo := ToShort(e);
      uo := 2 * m * e;
      uoo := m * e;
      RoundExact(2 * e, scheme.Scale());
      u := 2 * e;
    }

    /** "case 1" of the controllers' start. */
    method SettleState()
      requires scheme != Adaptive
      modifies this`init, this`eo, this`uo
      ensures Value().control == Settle(scheme, old(Value().control))
    {
      if init == 1 {
        init := 2;
        eo := 0;
        uo := Quot(uo, 2);
      }
    }

    method FLOPSYNC2(e: int) returns (uquant: int)
      requires scheme == Flopsync2
      modifies this`uo, this`uoo, this`eo, this`eoo
      ensures Value().control == Track(scheme, old(Value().control), e)
      ensures uquant == Correction(scheme, Value().control)
    {
      var u := 2 * uo - uoo + 960 * e - 1320 * eo + 485 * eoo;
      uoo := uo;
      uo := u;
      eoo := eo;
      eo := ToShort(e);
      var sign := if u >= 0 then 1 else -1;
      uquant := Quot(u + 256 * sign, 512);
    }

    method OptimizedRampFlopsync(e: int) returns (uquant: int)
      requires scheme == OptimizedRamp
      modifies this`uo, this`uoo, this`eo, this`eoo
      ensures Value().control == Track(scheme, old(Value().control), e)
      ensures uquant == Correction(scheme, Value().control)
    {
      var u := 2 * uo - uoo + 144 * e - 183 * eo + 64 * eoo;
      uoo := uo;
      uo := u;
      eoo := eo;
      eo := ToShort(e);
      var sign := if u >= 0 then 1 else -1;
      uquant := Quot(u + 32 * sign, 64);
    }

    /** The state is quantized too when the error is zero. */
    method ControllerFlopsync(e: int) returns (uquant: int)
      requires scheme == Adaptive
      modifies this`uo, this`eo
      ensures Value().control == Receive(scheme, old(Value().control), e)
      ensures uquant == Correction(scheme, Value().control)
    {
      var u := uo + 11 * e - 8 * eo;
      var sign := if u >= 0 then 1 else -1;
      uquant := Quot(u + 4 * sign, 8);
      RoundExact(uquant, 8);
      uo := if e == 0 then 8 * uquant else u;
      eo := ToShort(e);
    }

    /** Eight errors give a new window. */
    method UpdateWindow(e: int)
      requires p.Ok() && |samples| < NUM_SAMPLES && count == |samples|
      requires sum == 64 * Sum(samples) && squareSum == 64 * SumSquares(samples)
      modifies this`sum, this`squareSum, this`count, this`dw, this`samples
      ensures if old(|samples|) + 1 >= NUM_SAMPLES then samples == [] && dw == WindowFor(p, old(samples) + [e])
              else samples == old(samples) + [e] && dw == old(dw)
      ensures count == |samples| && sum == 64 * Sum(samples) && squareSum == 64 * SumSquares(samples)
    {
      samples := samples + [e];
      assert samples[..|samples| - 1] == old(samples);
      sum := sum + e * 64;
      squareSum := squareSum + e * e * 64;
      count := count + 1;
      if count >= NUM_SAMPLES {
        dw := WindowSize();
        sum, squareSum, count, samples := 0, 0, 0, [];
      }
    }

    method WindowSize() returns (window: int)
      requires p.Ok() && |samples| == NUM_SAMPLES && sum == 64 * Sum(samples) && squareSum == 64 * SumSquares(samples)
      ensures window == WindowFor(p, samples)
    {
      hide Spread, Sum, SumSquares;
      SpreadIs(samples);
      var average := Quot(sum, NUM_SAMPLES);
      assert average == 8 * Sum(samples);
      assert average * average == 64 * (Sum(samples) * Sum(samples));
      var variance := Quot(squareSum, NUM_SAMPLES) - Quot(average * average, 64);
      var stddev := SquareRoot(variance);
      window := Max(Min(stddev * 3 / 64, p.w), p.minw);
    }

    /** The square root of 64 times the variance, no lower than its integer part where the variance is not tiny. */
    static method SquareRoot(variance: nat) returns (stddev: nat)
      ensures stddev == Root(variance)
      ensures variance >= 7 ==> (stddev + 1) * (stddev + 1) > 64 * variance
    {
      stddev := variance / 7;
      for j := 0 to 3
        invariant stddev == Improved(variance, j)
        invariant variance >= 7 ==> stddev > 0
        invariant variance >= 7 && j > 0 ==> (stddev + 1) * (stddev + 1) > 64 * variance
      {
        if stddev > 0 {
          ImproveAbove(variance, stddev);
          stddev := (stddev + variance * 64 / stddev) / 2;
        }
      }
    }
  }
}
