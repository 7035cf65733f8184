/**
 The controllers that estimate the skew of the local clock, on values: what a synchronization packet and a lost
 one do to the controller state and to the receiver window, and what always holds of the window.
 */
module SyncSpec {
  import opened CArith
  import opened Wrappers

  /** Times are in clock ticks.  `hopDelay` is how much later than the root's frame the frame heard is sent,
      `guard` how long before its window the receiver may already be on. */
  datatype Params = Params(period: int, w: int, minw: int, hopDelay: int, guard: int) {

    predicate Ok() {
      0 < minw <= w <= 255 && period > 0 && 0 <= hopDelay && 0 <= guard && w + guard < 0x8000
    }
  }

  /** The three controllers: class FLOPSYNC2, class OptimizedRampFlopsync, class ControllerFlopsync. */
  datatype Scheme = Flopsync2 | OptimizedRamp | Adaptive {

    /** The state is the correction times this. */
    function Scale(): (m: int)
      ensures m > 0
    {
      match this
      case Flopsync2 => 512
      case OptimizedRamp => 64
      case Adaptive => 8
    }

    /** Gains on e(k), e(k-1) and e(k-2). */
    function Gains(): (int, int, int) {
      match this
      case Flopsync2 => (960, -1320, 485)
      case OptimizedRamp => (144, -183, 64)
      case Adaptive => (11, -8, 0)
    }
  }

  /** Past outputs and errors.  init is 0 before the first packet, 1 after it, then 2. */
  datatype Control = Control(uo: int, uoo: int, eo: int, eoo: int, init: nat)

  datatype Sync = Sync(control: Control, samples: seq<int>, dw: int)

  const NUM_SAMPLES := 8

  // ---------------------------------------------------------------- the controllers

  function Fresh(p: Params): Sync {
    Sync(Control(0, 0, 0, 0, 0), [], p.w)
  }

  /** The clock correction a state stands for. */
  function Correction(scheme: Scheme, c: Control): int {
    RoundDiv(c.uo, scheme.Scale())
  }

  /** The first round after the first packet drops the error that packet had and halves its output. */
  function Settle(scheme: Scheme, c: Control): Control {
    if scheme != Adaptive && c.init == 1 then c.(init := 2, eo := 0, uo := Quot(c.uo, 2)) else c
  }

  /** The control law for a packet that is not the first one. */
  function Track(scheme: Scheme, c: Control, e: int): Control {
    var (a, b, g) := scheme.Gains();
    match scheme
    case Adaptive =>
      var u := c.uo + a * e + b * c.eo;
      c.(uo := if e == 0 then 8 * RoundDiv(u, 8) else u, eo := ToShort(e))
    case _ =>
      var u := 2 * c.uo - c.uoo + a * e + b * c.eo + g * c.eoo;
      c.(uo := u, uoo := c.uo, eo := ToShort(e), eoo := c.eo)
  }

  function Receive(scheme: Scheme, c: Control, e: int): Control {
    var m := scheme.Scale();
    if scheme != Adaptive && c.init == 0 then Control(2 * m * e, m * e, ToShort(e), c.eoo, 1)
    else Track(scheme, Settle(scheme, c), e)
  }

  function OnPacket(p: Params, scheme: Scheme, s: Sync, e: int): Sync
    requires p.Ok()
  {
    var c := Receive(scheme, s.control, e);
    if scheme != Adaptive && s.control.init == 0 then s.(control := c)
    else if |s.samples| + 1 >= NUM_SAMPLES then Sync(c, [], WindowFor(p, s.samples + [e]))
    else Sync(c, s.samples + [e], s.dw)
  }

  function OnLoss(p: Params, scheme: Scheme, s: Sync): Sync {
    var wider := if scheme == Flopsync2 then 4 * s.dw else 2 * s.dw;
    s.(control := Settle(scheme, s.control), dw := Min(wider, p.w))
  }

  /** Holds of every state the controllers reach. */
  predicate Valid(p: Params, scheme: Scheme, s: Sync) {
    && p.minw <= s.dw <= p.w
    && |s.samples| < NUM_SAMPLES
    && s.control.init <= 2
    && (scheme != Adaptive && s.control.init == 0 ==> s == Fresh(p))
  }

  /** Whatever is received or lost, the window stays between its bounds, which fit the byte it is kept in. */
  lemma WindowBounded(p: Params, scheme: Scheme, s: Sync, e: int)
    requires p.Ok() && Valid(p, scheme, s)
    ensures Valid(p, scheme, Fresh(p)) && Valid(p, scheme, OnPacket(p, scheme, s, e))
            && Valid(p, scheme, OnLoss(p, scheme, s))
    ensures 0 <= OnPacket(p, scheme, s, e).dw <= 255 && 0 <= OnLoss(p, scheme, s).dw <= 255
    ensures OnLoss(p, scheme, s).dw >= s.dw
  {
  }

  // ---------------------------------------------------------------- lost packets

  /** How many times wider than after the last packet the window is after n losses in a row: 4 times for each of
      them with class FLOPSYNC2, twice with the other two. */
  function Wider(scheme: Scheme, n: nat): (k: nat)
    ensures k > 0
  {
    if n == 0 then 1 else (if scheme == Flopsync2 then 4 else 2) * Wider(scheme, n - 1)
  }

  function Losses(p: Params, scheme: Scheme, s: Sync, n: nat): Sync {
    if n == 0 then s else OnLoss(p, scheme, Losses(p, scheme, s, n - 1))
  }

  /** Losses widen the window until it is the largest one; they are no samples of it, and after the first of them
      they leave the state of the controller. */
  lemma {:induction false} LossesWiden(p: Params, scheme: Scheme, s: Sync, n: nat)
    requires p.Ok() && Valid(p, scheme, s)
    ensures var l := Losses(p, scheme, s, n);
            && Valid(p, scheme, l) && l.samples == s.samples
            && l.dw == Min(Wider(scheme, n) * s.dw, p.w)
            && (n > 0 ==> l.control == OnLoss(p, scheme, s).control)
            && (scheme == Adaptive || s.control.init != 1 ==> l.control == s.control)
  {
    if n > 0 {
      hide Min;
      LossesWiden(p, scheme, s, n - 1);
      LossWidens(p, scheme, Losses(p, scheme, s, n - 1), Wider(scheme, n - 1), s.dw);
    }
  }

  lemma LossWidens(p: Params, scheme: Scheme, l: Sync, wider: nat, dw: nat)
    requires p.Ok() && Valid(p, scheme, l) && l.dw == Min(wider * dw, p.w)
    ensures var k, o := if scheme == Flopsync2 then 4 else 2, OnLoss(p, scheme, l);
            && Valid(p, scheme, o) && o.samples == l.samples && o.dw == Min(k * wider * dw, p.w)
            && (scheme == Adaptive || l.control.init != 1 ==> o.control == l.control)
            && (scheme != Adaptive ==> o.control.init != 1)
  {
    var k := if scheme == Flopsync2 then 4 else 2;
    MinTimes(k, wider * dw, p.w);
    assert k * wider * dw == k * (wider * dw);
  }

  lemma MinTimes(k: int, x: int, w: int)
    requires k >= 1 && w >= 0
    ensures Min(k * Min(x, w), w) == Min(k * x, w)
  {
    if x > w {
      assert k * x >= k * w >= w;
    }
  }

  // ---------------------------------------------------------------- the window

  function Sum(xs: seq<int>): int {
    if xs == [] then 0 else Sum(xs[..|xs| - 1]) + xs[|xs| - 1]
  }

  function SumSquares(xs: seq<int>): int {
    if xs == [] then 0 else SumSquares(xs[..|xs| - 1]) + xs[|xs| - 1] * xs[|xs| - 1]
  }

  /** How far the samples are from x: the sum of the squared differences. */
  function Apart(xs: seq<int>, x: int): (d: nat) {
    if xs == [] then 0 else
      var y := xs[|xs| - 1] - x;
      assert y * y >= 0;
      Apart(xs[..|xs| - 1], x) + y * y
  }

  /** The squared differences of all pairs of samples: the number of samples squared, times their variance. */
  function Spread(xs: seq<int>): nat {
    if xs == [] then 0 else Spread(xs[..|xs| - 1]) + Apart(xs[..|xs| - 1], xs[|xs| - 1])
  }

  lemma {:induction false} ApartIs(xs: seq<int>, x: int)
    ensures Apart(xs, x) == SumSquares(xs) - 2 * x * Sum(xs) + |xs| * x * x
  {
    if xs != [] {
      var f, y := xs[..|xs| - 1], xs[|xs| - 1];
      ApartIs(f, x);
      ApartStep(SumSquares(f), Sum(f), |f|, x, y);
    }
  }

  lemma ApartStep(q: int, t: int, n: int, x: int, y: int)
    ensures (q - 2 * x * t + n * x * x) + (y - x) * (y - x) == (q + y * y) - 2 * x * (t + y) + (n + 1) * x * x
  {
  }

  /** The two accumulators give the spread, so the variance computed from them is never negative. */
  lemma {:induction false} SpreadIs(xs: seq<int>)
    ensures |xs| * SumSquares(xs) - Sum(xs) * Sum(xs) == Spread(xs)
  {
    if xs != [] {
      var f, y := xs[..|xs| - 1], xs[|xs| - 1];
      SpreadIs(f);
      ApartIs(f, y);
      var n, q, t := |f|, SumSquares(f), Sum(f);
      SpreadStep(n, q, t, y);
    }
  }

  lemma SpreadStep(n: int, q: int, t: int, y: int)
    ensures (n + 1) * (q + y * y) - (t + y) * (t + y) == (n * q - t * t) + (q - 2 * y * t + n * y * y)
  {
  }

  /** One step of the Babylonian method for the square root of 64 v. */
  function Improve(v: nat, s: nat): nat {
    if s > 0 then (s + 64 * v / s) / 2 else s
  }

  /** A seventh of v, improved n times. */
  function Improved(v: nat, n: nat): nat {
    if n == 0 then v / 7 else Improve(v, Improved(v, n - 1))
  }

  /** Eight times the standard deviation, in 1/8: the code's approximation of the square root of 64 v. */
  function Root(v: nat): nat {
    Improved(v, 3)
  }

  /** The receiver window after eight samples: three standard deviations, between the two bounds. */
  function WindowFor(p: Params, xs: seq<int>): (dw: int)
    requires p.Ok()
    ensures p.minw <= dw <= p.w
  {
    Max(Min(Root(Spread(xs)) * 3 / 64, p.w), p.minw)
  }

  /** A step never lands below the integer square root. */
  lemma ImproveAbove(v: nat, s: nat)
    requires s > 0
    ensures var t := Improve(v, s); (t + 1) * (t + 1) > 64 * v
    ensures v >= 7 ==> Improve(v, s) > 0
  {
    var q := 64 * v / s;
    assert 64 * v < s * (q + 1) by {
      assert 64 * v == s * q + 64 * v % s;
    }
    MeanSquare(s, q + 1, Improve(v, s) + 1);
  }

  lemma MeanSquare(a: nat, b: nat, m: nat)
    requires a + b <= 2 * m
    ensures a * b <= m * m
  {
  }

  lemma SquareMonotone(a: nat, b: nat)
    ensures a <= b ==> a * a <= b * b
    ensures a < b ==> a * a < b * b
  {
  }

  /** From v / 7 no step ever divides by zero, and each one ends at or above every r with r * r <= 64 v. */
  lemma {:induction false} ImprovedAbove(v: nat, n: nat, r: nat)
    requires v >= 7 && r * r <= 64 * v
    ensures Improved(v, n) > 0
    ensures n > 0 ==> Improved(v, n) >= r
  {
    hide Improve;
    if n > 0 {
      ImprovedAbove(v, n - 1, r);
      ImproveAbove(v, Improved(v, n - 1));
      SquareMonotone(Improved(v, n) + 1, r);
    }
  }

  /** After eight samples with variance v / 64 the window is no smaller than three standard deviations
      (rounded down) or the largest window; with almost no variance it is the smallest one. */
  lemma WindowCovers(p: Params, xs: seq<int>, r: nat)
    requires p.Ok() && r * r <= 64 * Spread(xs)
    ensures Spread(xs) >= 7 ==> WindowFor(p, xs) >= Min(p.w, 3 * r / 64)
    ensures Spread(xs) < 7 ==> WindowFor(p, xs) == p.minw
  {
    hide Improved, Spread;
    if Spread(xs) >= 7 {
      ImprovedAbove(Spread(xs), 3, r);
      DivMonotone(3 * r, 3 * Root(Spread(xs)), 64);
    } else {
      RootSmall(Spread(xs));
    }
  }

  /** A step from above the root, or just below it, covers half of the way to it: r is the root rounded up. */
  lemma ImproveBelow(v: nat, s: nat, r: nat)
    requires v >= 7 && s > 0 && r <= s + 1 && 64 * v <= r * r
    ensures 2 * Improve(v, s) <= s + r + 1
  {
    if r <= s {
      SquareBelow(r, s);
      QuotientBelow(64 * v, s, r);
    } else {
      assert r * r == s * (s + 2) + 1;
      QuotientBelow(64 * v, s, s + 2);
    }
  }

  lemma SquareBelow(r: nat, s: nat)
    requires r <= s
    ensures r * r <= s * r
  {
  }

  lemma QuotientBelow(a: nat, s: nat, q: nat)
    requires s > 0 && a <= s * q + 1 && (s == 1 ==> a <= s * q)
    ensures a / s <= q
  {
    var k := a / s - q;
    assert a == s * (a / s) + a % s;
    assert s * (a / s) == s * q + s * k;
    Multiple(s, k);
  }

  /** The first step leaves at most half of the start and a constant: the start is a seventh. */
  lemma FirstStep(v: nat)
    requires v >= 7
    ensures v / 7 > 0 && 2 * Improve(v, v / 7) <= v / 7 + 832
  {
    var s := v / 7;
    assert v <= 7 * s + 6 && s >= 1;
    assert 64 * v <= s * 832;
    QuotientBelow(64 * v, s, 832);
  }

  lemma ImproveHalves(v: nat, s: nat)
    ensures 2 * Improve(v, s) + 1 >= s
  {
    if s > 0 {
      assert 64 * v / s >= 0;
    }
  }

  /** How good three steps are: the result is no smaller than the root, r when rounded up, less one, and its distance
      to the root is an eighth of that of the start, or bounded by a constant; nor is it less than an eighth of the
      start, as it would be after a fourth step from far above. */
  lemma RootWithin(v: nat, r: nat)
    requires v >= 7 && r > 0 && (r - 1) * (r - 1) < 64 * v <= r * r
    ensures r - 1 <= Root(v) && v / 7 - 7 <= 8 * Root(v) <= v / 7 + 6 * r + 838
  {
    hide Improve;
    var a, b, c, d := Improved(v, 0), Improved(v, 1), Improved(v, 2), Improved(v, 3);
    assert b == Improve(v, a) && c == Improve(v, b) && d == Improve(v, c);
    FirstStep(v);
    AtLeast(v, a, r);
    ImproveBelow(v, b, r);
    AtLeast(v, b, r);
    ImproveBelow(v, c, r);
    AtLeast(v, c, r);
    ImproveHalves(v, a);
    ImproveHalves(v, b);
    ImproveHalves(v, c);
  }

  lemma AtLeast(v: nat, s: nat, r: nat)
    requires v >= 7 && s > 0 && r > 0 && (r - 1) * (r - 1) < 64 * v
    ensures Improve(v, s) + 1 >= r && Improve(v, s) > 0
  {
    hide Improve;
    ImproveAbove(v, s);
    SquareMonotone(Improve(v, s) + 1, r - 1);
  }

  /** So the window is not far above three standard deviations either. */
  lemma WindowFits(p: Params, xs: seq<int>, r: nat)
    requires p.Ok() && Spread(xs) >= 7 && r > 0 && (r - 1) * (r - 1) < 64 * Spread(xs) <= r * r
    ensures WindowFor(p, xs) <= Max(3 * ((Spread(xs) / 7 + 6 * r + 838) / 8) / 64, p.minw)
  {
    hide Improved, Spread;
    RootWithin(Spread(xs), r);
    DivMonotone(3 * Root(Spread(xs)), 3 * ((Spread(xs) / 7 + 6 * r + 838) / 8), 64);
  }

  lemma RootSmall(v: nat)
    requires v < 7
    ensures Root(v) == 0
  {
    assert Improved(v, 0) == Improved(v, 1) == Improved(v, 2) == 0;
  }

  // ---------------------------------------------------------------- runs of a controller

  /** A controller since it was made or reset: packets, with their errors, and losses. */
  function Since(p: Params, scheme: Scheme, rounds: seq<Option<int>>): Sync
    requires p.Ok()
  {
    if rounds == [] then Fresh(p)
    else
      var s := Since(p, scheme, rounds[..|rounds| - 1]);
      match rounds[|rounds| - 1]
      case Some(e) => OnPacket(p, scheme, s, e)
      case None => OnLoss(p, scheme, s)
  }

  /** The errors of the packets received. */
  function Errors(rounds: seq<Option<int>>): seq<int> {
    if rounds == [] then []
    else Errors(rounds[..|rounds| - 1]) + if rounds[|rounds| - 1].Some? then [rounds[|rounds| - 1].value] else []
  }

  /** Those the window is computed from: with a first step of its own, a controller does not count the first one. */
  function Counted(scheme: Scheme, rounds: seq<Option<int>>): seq<int> {
    var es := Errors(rounds);
    if scheme == Adaptive || es == [] then es else es[1..]
  }

  /** The errors after the last group of eight. */
  function Pending(es: seq<int>): seq<int> {
    es[|es| - |es| % 8..]
  }

  /** The window starts at its largest; each eighth packet counted sets it to fit the last eight errors, and no other
      packet changes it. */
  lemma {:induction false} WindowSince(p: Params, scheme: Scheme, rounds: seq<Option<int>>)
    requires p.Ok()
    ensures var s, es := Since(p, scheme, rounds), Counted(scheme, rounds);
            && Valid(p, scheme, s) && s.samples == Pending(es)
            && (scheme != Adaptive ==> (s.control.init == 0 <==> Errors(rounds) == []))
            && if rounds == [] then s.dw == p.w
               else if rounds[|rounds| - 1] == None then true
               else if es != [] && Pending(es) == [] then |es| >= 8 && s.dw == WindowFor(p, es[|es| - 8..])
               else s.dw == Since(p, scheme, rounds[..|rounds| - 1]).dw
  {
    hide OnPacket, OnLoss, WindowFor, Valid, Pending, Fresh, Counted, Errors, Since;
    if rounds == [] {
      FreshValid(p, scheme);
    } else {
      var front, last := rounds[..|rounds| - 1], rounds[|rounds| - 1];
      WindowSince(p, scheme, front);
      var s := Since(p, scheme, front);
      SinceStep(p, scheme, rounds);
      assert rounds == front + [last];
      if last == None {
        LossStep(p, scheme, s);
        CountedStep(scheme, front, 0);
      } else {
        WindowStep(p, scheme, s, front, last.value);
      }
    }
  }

  lemma WindowStep(p: Params, scheme: Scheme, s: Sync, rounds: seq<Option<int>>, e: int)
    requires p.Ok() && Valid(p, scheme, s) && s.samples == Pending(Counted(scheme, rounds))
    requires scheme != Adaptive ==> (s.control.init == 0 <==> Errors(rounds) == [])
    ensures var o, es := OnPacket(p, scheme, s, e), Counted(scheme, rounds + [Some(e)]);
            && Valid(p, scheme, o) && o.samples == Pending(es)
            && (scheme != Adaptive ==> o.control.init != 0) && Errors(rounds + [Some(e)]) != []
            && if es != [] && Pending(es) == [] then |es| >= 8 && o.dw == WindowFor(p, es[|es| - 8..]) else o.dw == s.dw
  {
    hide OnPacket, WindowFor, Valid, Pending, Counted, Errors;
    PacketStep(p, scheme, s, e);
    CountedStep(scheme, rounds, e);
    SamplesStep(Counted(scheme, rounds), e);
  }

  lemma SinceStep(p: Params, scheme: Scheme, rounds: seq<Option<int>>)
    requires p.Ok() && rounds != []
    ensures var s, last := Since(p, scheme, rounds[..|rounds| - 1]), rounds[|rounds| - 1];
            Since(p, scheme, rounds) == if last.Some? then OnPacket(p, scheme, s, last.value) else OnLoss(p, scheme, s)
  {
    hide OnPacket, OnLoss;
  }

  lemma FreshValid(p: Params, scheme: Scheme)
    requires p.Ok()
    ensures Valid(p, scheme, Fresh(p)) && Fresh(p) == Since(p, scheme, []) && Fresh(p).control.init == 0
    ensures Fresh(p).samples == [] && Fresh(p).dw == p.w && Errors([]) == Counted(scheme, []) == [] == Pending([])
  {
  }

  lemma LossStep(p: Params, scheme: Scheme, s: Sync)
    requires p.Ok() && Valid(p, scheme, s)
    ensures var o := OnLoss(p, scheme, s);
            Valid(p, scheme, o) && o.samples == s.samples && (o.control.init == 0 <==> s.control.init == 0)
  {
  }

  lemma PacketStep(p: Params, scheme: Scheme, s: Sync, e: int)
    requires p.Ok() && Valid(p, scheme, s)
    ensures var o := OnPacket(p, scheme, s, e);
            && Valid(p, scheme, o) && (scheme != Adaptive ==> o.control.init != 0)
            && if scheme != Adaptive && s.control.init == 0 then o.samples == s.samples && o.dw == s.dw
               else if |s.samples| == 7 then o.samples == [] && o.dw == WindowFor(p, s.samples + [e])
               else o.samples == s.samples + [e] && o.dw == s.dw
  {
    hide WindowFor;
  }

  lemma CountedStep(scheme: Scheme, rounds: seq<Option<int>>, e: int)
    ensures var more := rounds + [Some(e)];
            && Errors(more) == Errors(rounds) + [e]
            && Counted(scheme, more) == if scheme != Adaptive && Errors(rounds) == [] then []
                                        else Counted(scheme, rounds) + [e]
    ensures Errors(rounds) == [] ==> Counted(scheme, rounds) == []
    ensures Errors(rounds + [None]) == Errors(rounds) && Counted(scheme, rounds + [None]) == Counted(scheme, rounds)
  {
    assert (rounds + [Some(e)])[..|rounds|] == rounds == (rounds + [None])[..|rounds|];
  }

  lemma SamplesStep(es: seq<int>, e: int)
    ensures |Pending(es)| < 8
    ensures if |Pending(es)| == 7 then Pending(es + [e]) == [] && |es| >= 7
            && (es + [e])[|es| + 1 - 8..] == Pending(es) + [e]
            else Pending(es + [e]) == Pending(es) + [e]
  {
  }

  /** The first packet after a reset is corrected for by twice its error, or by eleven eighths with the older
      controller; nothing of what came before the reset has any influence. */
  lemma FirstCorrection(p: Params, scheme: Scheme, e: int)
    requires p.Ok()
    ensures var c := Correction(scheme, Since(p, scheme, [Some(e)]).control);
            if scheme == Adaptive then 8 * c - 4 <= 11 * e <= 8 * c + 4 else c == 2 * e
  {
    assert [Some(e)][..0] == [];
    assert Since(p, scheme, [Some(e)]) == OnPacket(p, scheme, Fresh(p), e);
    if scheme == Adaptive {
      AdaptiveFirst(e);
    } else {
      RoundExact(2 * e, scheme.Scale());
    }
  }

  lemma AdaptiveFirst(e: int)
    ensures var c := RoundDiv(if e == 0 then 8 * RoundDiv(11 * e, 8) else 11 * e, 8);
            8 * c - 4 <= 11 * e <= 8 * c + 4
  {
    RoundError(11 * e, 8);
  }
}
