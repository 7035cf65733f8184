/**
 The regression based scheme of ftsp.cpp: the last eight time stamps in a ring, a line fitted to them, and the
 conversion from root to local time.  Floating point numbers are real numbers here.
 */
module Ftsp {
  import opened CArith
  import opened SyncSpec

  const REGRESSION_ENTRIES := 8

  /** The local time of a packet, and how much it is ahead of the root's. */
  datatype Sample = Sample(local: int, offset: int)

  // ---------------------------------------------------------------- the samples that are kept

  /** The last eight of all samples since the last reset. */
  function Retained(all: seq<Sample>): seq<Sample> {
    if |all| <= REGRESSION_ENTRIES then all else all[|all| - REGRESSION_ENTRIES..]
  }

  /** A ring filled from index 0 on, in which index `dex` is written next. */
  predicate Holds(ring: seq<Sample>, dex: nat, filling: bool, all: seq<Sample>) {
    && |ring| == REGRESSION_ENTRIES && dex < REGRESSION_ENTRIES
    && (if filling then dex == |all| && ring[..dex] == all
        else |all| >= REGRESSION_ENTRIES && ring[dex..] + ring[..dex] == Retained(all))
  }

  /** Writing the next sample where the oldest one was keeps the last eight. */
  lemma HoldsNext(ring: seq<Sample>, dex: nat, filling: bool, all: seq<Sample>, s: Sample)
    requires Holds(ring, dex, filling, all)
    ensures var last := dex + 1 >= REGRESSION_ENTRIES;
            Holds(ring[dex := s], if last then 0 else dex + 1, filling && !last, all + [s])
  {
    RingNext(ring, dex, s);
    if filling {
      if dex + 1 == REGRESSION_ENTRIES {
        assert ring[dex := s] == ring[..dex] + [s];
        assert ring[dex := s][0..] + ring[dex := s][..0] == all + [s];
      }
    } else {
      RetainedNext(all, s);
    }
  }

  /** Oldest first, the ring loses its first sample and gains the new one. */
  lemma RingNext(ring: seq<Sample>, dex: nat, s: Sample)
    requires dex < |ring|
    ensures ring[dex := s][..dex + 1] == ring[..dex] + [s]
    ensures var next, after := ring[dex := s], if dex + 1 < |ring| then dex + 1 else 0;
            next[after..] + next[..after] == (ring[dex..] + ring[..dex])[1..] + [s]
  {
  }

  lemma RetainedNext(all: seq<Sample>, s: Sample)
    requires |all| >= REGRESSION_ENTRIES
    ensures |Retained(all)| == REGRESSION_ENTRIES && Retained(all + [s]) == Retained(all)[1..] + [s]
  {
  }

  // ---------------------------------------------------------------- the line

  /** The local times from `base` on. */
  function Times(xs: seq<Sample>, base: int): seq<int> {
    seq(|xs|, i requires 0 <= i < |xs| => xs[i].local - base)
  }

  function SumOffsets(xs: seq<Sample>): int {
    if xs == [] then 0 else SumOffsets(xs[..|xs| - 1]) + xs[|xs| - 1].offset
  }

  function SumProducts(xs: seq<Sample>, base: int): int {
    if xs == [] then 0 else
      SumProducts(xs[..|xs| - 1], base) + xs[|xs| - 1].offset * (xs[|xs| - 1].local - base)
  }

  function Denominator(xs: seq<Sample>, base: int): int {
    |xs| * SumSquares(Times(xs, base)) - Sum(Times(xs, base)) * Sum(Times(xs, base))
  }

  /** The fitted line: offset = a + b * (local - base). */
  function Slope(xs: seq<Sample>, base: int): real
    requires Denominator(xs, base) != 0
  {
    (|xs| * SumProducts(xs, base) - SumOffsets(xs) * Sum(Times(xs, base))) as real / Denominator(xs, base) as real
  }

  function Intercept(xs: seq<Sample>, base: int, b: real): real
    requires xs != []
  {
    (SumOffsets(xs) as real - b * Sum(Times(xs, base)) as real) / |xs| as real
  }

  /** All samples lie on the clock that is ahead by a + b t at local time t. */
  ghost predicate OnClock(xs: seq<Sample>, a: real, b: real) {
    forall x :: x in xs ==> x.offset as real == a + b * x.local as real
  }

  ghost predicate Constant(xs: seq<int>) {
    forall i, j :: 0 <= i < |xs| && 0 <= j < |xs| ==> xs[i] == xs[j]
  }

  /** Equal samples have no spread, and only they. */
  lemma {:induction false} SpreadZeroIff(xs: seq<int>)
    ensures Spread(xs) == 0 <==> Constant(xs)
  {
    if xs != [] {
      var f, y := xs[..|xs| - 1], xs[|xs| - 1];
      SpreadZeroIff(f);
      ApartZeroIff(f, y);
      assert forall i :: 0 <= i < |f| ==> f[i] == xs[i];
    }
  }

  lemma {:induction false} ApartZeroIff(xs: seq<int>, x: int)
    ensures Apart(xs, x) == 0 <==> forall i :: 0 <= i < |xs| ==> xs[i] == x
  {
    if xs != [] {
      var f, y := xs[..|xs| - 1], xs[|xs| - 1];
      ApartZeroIff(f, x);
      SquareZeroIff(y - x);
      assert forall i :: 0 <= i < |f| ==> f[i] == xs[i];
    }
  }

  lemma SquareZeroIff(x: int)
    ensures x * x >= 0 && (x * x == 0 <==> x == 0)
  {
  }

  /** All samples were taken at the same local time. */
  ghost predicate SameTime(xs: seq<Sample>) {
    forall x, y :: x in xs && y in xs ==> x.local == y.local
  }

  /** The division is safe exactly when there are two distinct local times, whatever the base. */
  lemma DenominatorIff(xs: seq<Sample>, base: int)
    ensures Denominator(xs, base) >= 0
    ensures Denominator(xs, base) > 0 <==> !SameTime(xs)
  {
    var ts := Times(xs, base);
    SpreadIs(ts);
    SpreadZeroIff(ts);
    hide Spread, Sum, SumSquares;
    assert forall i :: 0 <= i < |xs| ==> ts[i] == xs[i].local - base;
    if SameTime(xs) {
      assert forall i, j :: 0 <= i < |xs| && 0 <= j < |xs| ==> xs[i] in xs && xs[j] in xs;
      assert Constant(ts);
    } else {
      var x, y :| x in xs && y in xs && x.local != y.local;
      var i, j :| 0 <= i < |xs| && xs[i] == x && 0 <= j < |xs| && xs[j] == y;
      assert ts[i] != ts[j];
    }
  }

  /** The sum of n offsets that lie on the line c + b t, and that of their products with the times. */
  predicate OffsetsAre(sum: int, n: int, times: int, c: real, b: real) {
    sum as real == n as real * c + b * times as real
  }

  predicate ProductsAre(sum: int, times: int, squares: int, c: real, b: real) {
    sum as real == c * times as real + b * squares as real
  }

  /** The sums of samples on a clock. */
  lemma {:induction false} SumsOnClock(xs: seq<Sample>, base: int, a: real, b: real, c: real)
    requires OnClock(xs, a, b) && c == a + b * base as real
    ensures OffsetsAre(SumOffsets(xs), |xs|, Sum(Times(xs, base)), c, b)
    ensures ProductsAre(SumProducts(xs, base), Sum(Times(xs, base)), SumSquares(Times(xs, base)), c, b)
  {
    hide OnClock, OffsetsAre, ProductsAre;
    if xs == [] {
      NoSums(c, b);
    } else {
      var f, x := xs[..|xs| - 1], xs[|xs| - 1];
      OnClockLast(xs, a, b);
      SumsOnClock(f, base, a, b, c);
      TimesLast(xs, base);
      var ts, t := Times(f, base), x.local - base;
      hide Times, Sum, SumSquares;
      LineAt(x.offset, x.local, base, a, b, c);
      SumStep(SumOffsets(f), x.offset, |f|, Sum(ts), t, c, b);
      ProductStep(SumProducts(f, base), x.offset, Sum(ts), SumSquares(ts), t, c, b);
    }
  }

  lemma NoSums(c: real, b: real)
    ensures OffsetsAre(0, 0, 0, c, b) && ProductsAre(0, 0, 0, c, b)
  {
  }

  lemma LineAt(o: int, local: int, base: int, a: real, b: real, c: real)
    requires o as real == a + b * local as real && c == a + b * base as real
    ensures o as real == c + b * (local - base) as real
  {
  }

  lemma OnClockLast(xs: seq<Sample>, a: real, b: real)
    requires OnClock(xs, a, b) && xs != []
    ensures xs[|xs| - 1].offset as real == a + b * xs[|xs| - 1].local as real && OnClock(xs[..|xs| - 1], a, b)
  {
  }

  lemma TimesLast(xs: seq<Sample>, base: int)
    requires xs != []
    ensures var f, t := Times(xs[..|xs| - 1], base), xs[|xs| - 1].local - base;
            Sum(Times(xs, base)) == Sum(f) + t && SumSquares(Times(xs, base)) == SumSquares(f) + t * t
  {
    var ts := Times(xs, base);
    assert Times(xs[..|xs| - 1], base) == ts[..|ts| - 1];
  }

  lemma SumStep(so: int, o: int, n: int, st: int, t: int, c: real, b: real)
    requires OffsetsAre(so, n, st, c, b) && o as real == c + b * t as real
    ensures OffsetsAre(so + o, n + 1, st + t, c, b)
  {
  }

  lemma ProductStep(sot: int, o: int, st: int, st2: int, t: int, c: real, b: real)
    requires ProductsAre(sot, st, st2, c, b) && o as real == c + b * t as real
    ensures ProductsAre(sot + o * t, st + t, st2 + t * t, c, b)
  {
  }

  /** The regression recovers the skew of the clock exactly, whatever base the times are taken from. */
  lemma RegressionExact(xs: seq<Sample>, base: int, a: real, b: real)
    requires OnClock(xs, a, b) && Denominator(xs, base) != 0
    ensures Slope(xs, base) == b
    ensures xs != [] && Intercept(xs, base, b) == a + b * base as real
  {
    hide OnClock, OffsetsAre, ProductsAre, Sum, SumSquares, SumOffsets, SumProducts;
    var ts, c := Times(xs, base), a + b * base as real;
    SumsOnClock(xs, base, a, b, c);
    if xs == [] {
      assert ts == [];
      DenominatorIff(xs, base);
    }
    SlopeIs(|xs|, SumOffsets(xs), Sum(ts), SumProducts(xs, base), SumSquares(ts), c, b);
    InterceptIs(xs, base, c, b);
  }

  lemma SlopeIs(n: int, so: int, st: int, sot: int, st2: int, c: real, b: real)
    requires n * st2 - st * st != 0
    requires OffsetsAre(so, n, st, c, b) && ProductsAre(sot, st, st2, c, b)
    ensures (n * sot - so * st) as real / (n * st2 - st * st) as real == b
  {
  }

  lemma InterceptIs(xs: seq<Sample>, base: int, c: real, b: real)
    requires xs != [] && OffsetsAre(SumOffsets(xs), |xs|, Sum(Times(xs, base)), c, b)
    ensures Intercept(xs, base, b) == c
  {
    hide SumOffsets, Sum, Times;
    var top, n := SumOffsets(xs) as real - b * Sum(Times(xs, base)) as real, |xs| as real;
    assert top == n * c;
    DivideBack(c, n);
    assert top / n == c;
  }

  lemma DivideBack(b: real, d: real)
    requires d != 0.0
    ensures (b * d) / d == b && (d * b) / d == b
  {
  }

  // ---------------------------------------------------------------- from root time to local time

  /** rootFrame2localAbsolute before its result is cut to an integer. */
  function ToLocal(globalTime: int, localTime: int, b: real, time: int): real
    requires b != 1.0
  {
    var global := (globalTime + time) as real;
    var lastOffset := localTime as real - globalTime as real;
    (global + lastOffset - b * localTime as real) / (1.0 - b)
  }

  /** On a clock that is ahead by a + b t, with the last packet on it, the conversion inverts the clock: the local
      time computed for a root time is the one at which the root's clock shows it, and no other local time is. */
  lemma ToLocalInverts(globalTime: int, localTime: int, a: real, b: real, time: int, t: real)
    requires b != 1.0 && localTime as real - globalTime as real == a + b * localTime as real
    ensures t == ToLocal(globalTime, localTime, b, time) <==> t - (a + b * t) == (globalTime + time) as real
  {
    var g, l := (globalTime + time) as real, localTime as real;
    assert g + (l - globalTime as real) - b * l == g + a;
    if t - (a + b * t) == g {
      assert t * (1.0 - b) == g + a;
      DivideBack(t, 1.0 - b);
    }
    if t == (g + a) / (1.0 - b) {
      assert t * (1.0 - b) == g + a;
    }
  }

  /** What the node measures before it takes up a packet: how much later it came than predicted.  When the last packet
      is on the clock a + b t, the prediction is exact precisely if this one is on it too, and then the measure is 0;
      otherwise it is off by less than a tick from the true lateness. */
  lemma OffsetIff(globalTime: int, localTime: int, a: real, b: real, global: int, local: int, t: real)
    requires b != 1.0 && localTime as real - globalTime as real == a + b * localTime as real
    requires t - (a + b * t) == global as real
    ensures ToLocal(globalTime, localTime, b, global - globalTime) == t
    ensures var late := local - t.Floor;
            && late as real - 1.0 < local as real - t <= late as real
            && (t == local as real <==> local as real - global as real == a + b * local as real)
            && (t == local as real ==> late == 0)
  {
    ToLocalInverts(globalTime, localTime, a, b, global - globalTime, t);
    ToLocalInverts(globalTime, localTime, a, b, global - globalTime, local as real);
  }

  // ---------------------------------------------------------------- the object

  /** The samples in use are those retained, in some order. */
  lemma RingUsed(ring: seq<Sample>, dex: nat, filling: bool, all: seq<Sample>, a: real, b: real)
    requires Holds(ring, dex, filling, all)
    ensures var used := ring[..|Retained(all)|];
            && (OnClock(Retained(all), a, b) <==> OnClock(used, a, b))
            && (SameTime(Retained(all)) <==> SameTime(used))
            && multiset(used) == multiset(Retained(all))
  {
    if !filling {
      RetainedLength(all);
      Rotation(ring, dex, a, b);
      assert ring[..|Retained(all)|] == ring;
    } else {
      assert Retained(all) == all;
    }
  }

  lemma RetainedLength(all: seq<Sample>)
    requires |all| >= REGRESSION_ENTRIES
    ensures |Retained(all)| == REGRESSION_ENTRIES
  {
  }

  lemma Rotation(xs: seq<Sample>, k: nat, a: real, b: real)
    requires k <= |xs|
    ensures var ys := xs[k..] + xs[..k];
            && (OnClock(ys, a, b) <==> OnClock(xs, a, b))
            && (SameTime(ys) <==> SameTime(xs))
            && multiset(ys) == multiset(xs)
  {
    SameElements(xs, k);
    var ys := xs[k..] + xs[..k];
  }

  lemma SameElements(xs: seq<Sample>, k: nat)
    requires k <= |xs|
    ensures var ys := xs[k..] + xs[..k]; (forall x :: x in ys <==> x in xs) && multiset(ys) == multiset(xs)
  {
    assert xs == xs[..k] + xs[k..];
  }

  /** When the samples retained lie on one clock and were not all taken at the same time, the line fitted to the ring
      is that clock. */
  lemma RingExact(ring: seq<Sample>, dex: nat, filling: bool, all: seq<Sample>, base: int, a: real, b: real)
    requires Holds(ring, dex, filling, all) && OnClock(Retained(all), a, b) && !SameTime(Retained(all))
    ensures var xs := ring[..|Retained(all)|];
            Denominator(xs, base) > 0 && Slope(xs, base) == b && xs != []
              && Intercept(xs, base, b) == a + b * base as real
  {
    RingUsed(ring, dex, filling, all, a, b);
    DenominatorIff(ring[..|Retained(all)|], base);
    RegressionExact(ring[..|Retained(all)|], base, a, b);
  }

  class FTSP {
    const regLocalRtcs: array<int>
    const regRtcOffs: array<int>
    var dex: nat
    var numRegData: nat
    var filling: bool
    var localRtcBase: int
    var globalTime: int
    var localTime: int
    var a: real
    var b: real
    var offset: int
    /** Every sample since the last reset. */
    ghost var all: seq<Sample>

    ghost function Ring(): seq<Sample>
      reads regLocalRtcs, regRtcOffs
      requires regLocalRtcs.Length == regRtcOffs.Length == REGRESSION_ENTRIES
    {
      seq(REGRESSION_ENTRIES, i requires 0 <= i < REGRESSION_ENTRIES reads regLocalRtcs, regRtcOffs =>
        Sample(regLocalRtcs[i], regRtcOffs[i]))
    }

    ghost predicate Valid()
      reads this`dex, this`numRegData, this`filling, this`globalTime, this`localTime, this`all, regLocalRtcs, regRtcOffs
    {
      && regLocalRtcs.Length == regRtcOffs.Length == REGRESSION_ENTRIES && regLocalRtcs != regRtcOffs
      && Holds(Ring(), dex, filling, all) && numRegData <= REGRESSION_ENTRIES
      && (all != [] ==> numRegData == |Retained(all)| && Sample(localTime, localTime - globalTime) == all[|all| - 1])
    }

    constructor ()
      ensures Valid() && all == [] && fresh(regLocalRtcs) && fresh(regRtcOffs)
    {
      regLocalRtcs := new int[REGRESSION_ENTRIES](i => 0);
      regRtcOffs := new int[REGRESSION_ENTRIES](i => 0);
      dex, numRegData, filling, localRtcBase, globalTime, localTime := 0, 0, true, 0, 0, 0;
      a, b, offset := 0.0, 0.0, 0;
      all := [];
    }

    /** Measures how late the packet came, and adds a sample; the oldest of eight is lost.  With a skew of 1 the
        prediction is a division by zero, and the measure anything. */
    method Timestamps(globalTime: int, localTime: int)
      requires Valid()
      modifies this, regLocalRtcs, regRtcOffs
      ensures Valid() && all == old(all) + [Sample(localTime, localTime - globalTime)]
      ensures numRegData < 2 ==> b == 0.0 && a == (localTime - globalTime) as real
      ensures old(all) == [] ==> offset == old(offset)
      ensures old(all) != [] && old(b) != 1.0 ==>
                var predicted := old(ToLocal(this.globalTime, this.localTime, b, globalTime - this.globalTime));
                offset == ToInt(localTime - predicted.Floor)
    {
      hide Holds, Retained, Ring, ToLocal, ToInt;
      Measure(globalTime, localTime);
      this.globalTime := globalTime;
      this.localTime := localTime;
      Store(localTime, localTime - globalTime);
      if numRegData < 2 {
        a := localTime as real - globalTime as real;
        b := 0.0;
      }
    }

    method Measure(globalTime: int, localTime: int)
      requires Valid()
      modifies this`offset
      ensures all == [] ==> offset == old(offset)
      ensures all != [] && b != 1.0 ==>
                var predicted := ToLocal(this.globalTime, this.localTime, b, globalTime - this.globalTime);
                offset == ToInt(localTime - predicted.Floor)
    {
      hide Ring, ToLocal, ToInt;
      assert all == [] <==> filling && dex == 0;
      if !filling || dex > 0 {
        if b == 1.0 {
          offset := *;
        } else {
          var predicted := ToLocal(this.globalTime, this.localTime, b, globalTime - this.globalTime);
          offset := ToInt(localTime - predicted.Floor);
        }
      }
    }

    /** The update of the ring. */
    method Store(local: int, offset: int)
      requires regLocalRtcs.Length == regRtcOffs.Length == REGRESSION_ENTRIES && regLocalRtcs != regRtcOffs
      requires Holds(Ring(), dex, filling, all)
      modifies this`dex, this`numRegData, this`filling, this`localRtcBase, this`all, regLocalRtcs, regRtcOffs
      ensures Holds(Ring(), dex, filling, all) && all == old(all) + [Sample(local, offset)]
              && numRegData == |Retained(all)| <= REGRESSION_ENTRIES
    {
      HoldsNext(Ring(), dex, filling, all, Sample(local, offset));
      NumUsed(Ring(), dex, filling, all, Sample(local, offset));
      hide Holds, Retained;
      var oldest := regLocalRtcs[dex];
      regLocalRtcs[dex] := local;
      regRtcOffs[dex] := offset;
      assert Ring() == old(Ring())[dex := Sample(local, offset)];
      hide Ring;
      if filling && dex == 0 {
        localRtcBase := local;
      }
      if !filling {
        localRtcBase := oldest;
      }
      numRegData := if filling then dex + 1 else REGRESSION_ENTRIES;
      dex := dex + 1;
      if filling && dex >= REGRESSION_ENTRIES {
        filling := false;
      }
      if dex >= REGRESSION_ENTRIES {
        dex := 0;
      }
      all := all + [Sample(local, offset)];
    }

    static lemma NumUsed(ring: seq<Sample>, dex: nat, filling: bool, all: seq<Sample>, s: Sample)
      requires Holds(ring, dex, filling, all)
      ensures dex < |ring| == REGRESSION_ENTRIES
              && |Retained(all + [s])| == if filling then dex + 1 else REGRESSION_ENTRIES
    {
    }

    /** Fits the line to the samples in use; RingExact says what it finds.  When they were all taken at the same time
        the slope is a quotient by zero, and it and the intercept are anything. */
    method ComputeCorrection()
      requires Valid()
      modifies this`a, this`b
      ensures Valid() && (numRegData < 2 ==> a == old(a) && b == old(b))
      ensures var xs := Ring()[..numRegData];
              && (numRegData >= 2 && Denominator(xs, localRtcBase) > 0 ==>
                    b == Slope(xs, localRtcBase) && a == Intercept(xs, localRtcBase, b))
              && (all != [] ==> (Denominator(xs, localRtcBase) > 0 <==> !SameTime(Retained(all))))
    {
      hide *;
      InUse();
      if numRegData >= 2 {
        var st, so, sot, st2 := Sums();
        DenominatorIs(st, st2);
        if numRegData * st2 - st * st == 0 {
          b, a := *, *;
        } else {
          var slope, intercept := Fit(st, so, sot, st2, Ring()[..numRegData]);
          b := slope;
          a := intercept;
        }
      }
    }

    lemma InUse()
      requires Valid()
      ensures regLocalRtcs.Length == regRtcOffs.Length == REGRESSION_ENTRIES
              && numRegData <= REGRESSION_ENTRIES == |Ring()|
      ensures all != [] ==> (Denominator(Ring()[..numRegData], localRtcBase) > 0 <==> !SameTime(Retained(all)))
    {
      if all != [] {
        RingUsed(Ring(), dex, filling, all, 0.0, 0.0);
        DenominatorIff(Ring()[..numRegData], localRtcBase);
      }
      hide Denominator, SameTime, OnClock;
    }

    lemma DenominatorIs(st: int, st2: int)
      requires regLocalRtcs.Length == regRtcOffs.Length == REGRESSION_ENTRIES && numRegData <= REGRESSION_ENTRIES
      requires var ts := Times(Ring()[..numRegData], localRtcBase); st == Sum(ts) && st2 == SumSquares(ts)
      ensures Denominator(Ring()[..numRegData], localRtcBase) == numRegData * st2 - st * st >= 0
    {
      DenominatorIff(Ring()[..numRegData], localRtcBase);
      hide Sum, SumSquares, Times, SameTime;
    }

    method Sums() returns (st: int, so: int, sot: int, st2: int)
      requires regLocalRtcs.Length == regRtcOffs.Length == REGRESSION_ENTRIES && numRegData <= REGRESSION_ENTRIES
      ensures var xs := Ring()[..numRegData];
              && st == Sum(Times(xs, localRtcBase)) && st2 == SumSquares(Times(xs, localRtcBase))
              && so == SumOffsets(xs) && sot == SumProducts(xs, localRtcBase)
    {
      st, so, sot, st2 := 0, 0, 0, 0;
      for i := 0 to numRegData
        invariant var xs := Ring()[..i];
                  && st == Sum(Times(xs, localRtcBase)) && st2 == SumSquares(Times(xs, localRtcBase))
                  && so == SumOffsets(xs) && sot == SumProducts(xs, localRtcBase)
      {
        var t := regLocalRtcs[i] - localRtcBase;
        var o := regRtcOffs[i];
        st := st + t;
        so := so + o;
        sot := sot + o * t;
        st2 := st2 + t * t;
        ghost var xs := Ring()[..i + 1];
        assert xs[..i] == Ring()[..i];
        TimesLast(xs, localRtcBase);
      }
    }

    method Fit(st: int, so: int, sot: int, st2: int, ghost xs: seq<Sample>) returns (b: real, a: real)
      requires |xs| == numRegData > 0 && Denominator(xs, localRtcBase) > 0
      requires st == Sum(Times(xs, localRtcBase)) && st2 == SumSquares(Times(xs, localRtcBase))
      requires so == SumOffsets(xs) && sot == SumProducts(xs, localRtcBase)
      ensures b == Slope(xs, localRtcBase) && a == Intercept(xs, localRtcBase, b)
    {
      hide Times, Sum, SumSquares, SumOffsets, SumProducts;
      var n := numRegData;
      b := (n * sot - so * st) as real / (n * st2 - st * st) as real;
      a := (so as real - b * st as real) / n as real;
    }

    method Reset()
      requires Valid()
      modifies this, regLocalRtcs, regRtcOffs
      ensures Valid() && all == [] && offset == 0
    {
      dex, offset := 0, 0;
      filling := true;
      forall i | 0 <= i < REGRESSION_ENTRIES {
        regLocalRtcs[i] := 0;
      }
      forall i | 0 <= i < REGRESSION_ENTRIES {
        regRtcOffs[i] := 0;
      }
      all := [];
    }
  }
}
