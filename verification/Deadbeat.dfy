/**
 A whole node under a clock drift: the frames of the root arrive one period and one drift apart, and some are lost.
 After a resynchronization under a constant skew the error is gone one frame after the first one heard.
 */
module Deadbeat {
  import opened CArith
  import opened SyncSpec
  import opened NodeSpec
  import opened ClosedLoop

  /** When the k-th frame after the one at `start` arrives. */
  ghost function Arrival(p: Params, start: int, d: nat -> int, k: nat): int {
    if k == 0 then start else Arrival(p, start, d, k - 1) + p.period + d(k - 1)
  }

  function Heard(arrival: int, heard: bool): seq<Frame> {
    if heard then [Frame(arrival, true)] else []
  }

  /** The node after k rounds. */
  ghost function NodeAt(p: Params, scheme: Scheme, start: int, d: nat -> int, heard: nat -> bool, k: nat): Node
    requires p.Ok()
  {
    if k == 0 then Resynced(p, start)
    else Round(p, scheme, NodeAt(p, scheme, start, d, heard, k - 1), Heard(Arrival(p, start, d, k), heard(k - 1)), 0)
  }

  /** How late the k-th frame comes. */
  ghost function Lateness(p: Params, scheme: Scheme, start: int, d: nat -> int, heard: nat -> bool, k: nat): int
    requires p.Ok()
  {
    Arrival(p, start, d, k) - NodeAt(p, scheme, start, d, heard, k).computed
  }

  /** A node and a loop in the same state. */
  predicate Follows(scheme: Scheme, n: Node, e: int, l: Loop) {
    n.sync.control == l.control && n.correction == Correction(scheme, l.control) && e == l.e
  }

  /** One round of a node that stays in sync is one step of the loop, whether the frame is lost or heard; a frame
      that comes later than the window is lost. */
  lemma RoundFollows(p: Params, scheme: Scheme, n: Node, arrival: int, l: Loop, d: int, heard: bool)
    requires p.Ok() && Follows(scheme, n, arrival - n.computed, l) && InSync(n)
    requires Fits(After(scheme, l, d, true).e)
    ensures var n' := Round(p, scheme, n, Heard(arrival + p.period + d, heard), 0);
            var e := After(scheme, l, d, true).e;
            InSync(n') ==>
              Follows(scheme, n', arrival + p.period + d - n'.computed, After(scheme, l, d, heard && e <= n.window))
  {
    hide Correction, Receive, Settle, WindowFor;
    var frames := Heard(arrival + p.period + d, heard);
    if heard {
      assert frames[0] == Frame(arrival + p.period + d, true);
    }
  }

  /** What is heard in time. */
  ghost function InTime(p: Params, scheme: Scheme, start: int, d: nat -> int, heard: nat -> bool): nat -> bool
    requires p.Ok()
  {
    (k: nat) => heard(k)
      && Arrival(p, start, d, k + 1)
         <= Expected(p, NodeAt(p, scheme, start, d, heard, k)) + NodeAt(p, scheme, start, d, heard, k).window
  }

  /** The rounds of a node are the loop the convergence results are about. */
  lemma {:induction false} NodeFollows(p: Params, scheme: Scheme, start: int, d: nat -> int, heard: nat -> bool, k: nat)
    requires p.Ok()
    requires forall j: nat :: j <= k ==> InSync(NodeAt(p, scheme, start, d, heard, j))
    requires forall j: nat :: j < k ==>
                 Fits(Arrival(p, start, d, j + 1) - Expected(p, NodeAt(p, scheme, start, d, heard, j)))
    ensures var l := LoopAt(scheme, Loop(Fresh(p).control, 0), d, InTime(p, scheme, start, d, heard), k);
            Follows(scheme, NodeAt(p, scheme, start, d, heard, k), Lateness(p, scheme, start, d, heard, k), l)
  {
    hide Correction, Receive, Settle, WindowFor, Round, Fits, After, InSync;
    if k == 0 {
      FreshCorrection(p, scheme);
    } else {
      NodeFollows(p, scheme, start, d, heard, k - 1);
      FollowStep(p, scheme, start, d, heard, k - 1);
    }
  }

  lemma FollowStep(p: Params, scheme: Scheme, start: int, d: nat -> int, heard: nat -> bool, k: nat)
    requires p.Ok()
    requires InSync(NodeAt(p, scheme, start, d, heard, k)) && InSync(NodeAt(p, scheme, start, d, heard, k + 1))
    requires Fits(Arrival(p, start, d, k + 1) - Expected(p, NodeAt(p, scheme, start, d, heard, k)))
    requires Follows(scheme, NodeAt(p, scheme, start, d, heard, k), Lateness(p, scheme, start, d, heard, k),
                     LoopAt(scheme, Loop(Fresh(p).control, 0), d, InTime(p, scheme, start, d, heard), k))
    ensures Follows(scheme, NodeAt(p, scheme, start, d, heard, k + 1), Lateness(p, scheme, start, d, heard, k + 1),
                    LoopAt(scheme, Loop(Fresh(p).control, 0), d, InTime(p, scheme, start, d, heard), k + 1))
  {
    hide Correction, Receive, Settle, WindowFor, Round, Fits, InSync;
    var n := NodeAt(p, scheme, start, d, heard, k);
    var l := LoopAt(scheme, Loop(Fresh(p).control, 0), d, InTime(p, scheme, start, d, heard), k);
    RoundFollows(p, scheme, n, Arrival(p, start, d, k), l, d(k), heard(k));
    assert NodeAt(p, scheme, start, d, heard, k + 1)
           == Round(p, scheme, n, Heard(Arrival(p, start, d, k + 1), heard(k)), 0);
    assert InTime(p, scheme, start, d, heard)(k) == (heard(k) && After(scheme, l, d(k), true).e <= n.window);
  }

  // ---------------------------------------------------------------- convergence of a node

  lemma {:induction false} SameLoop(scheme: Scheme, l: Loop, d: nat -> int, heard: nat -> bool, k: nat)
    requires forall j: nat :: j < k ==> heard(j)
    ensures LoopAt(scheme, l, d, heard, k) == LoopAt(scheme, l, d, Always, k)
  {
    hide After;
    if k > 0 {
      SameLoop(scheme, l, d, heard, k - 1);
    }
  }

  function Later(d: nat -> int, j: nat): nat -> int {
    (k: nat) => d(k + j)
  }

  lemma {:induction false} Shifted(scheme: Scheme, l: Loop, d: nat -> int, j: nat, k: nat)
    ensures LoopAt(scheme, LoopAt(scheme, l, d, Always, j), Later(d, j), Always, k)
            == LoopAt(scheme, l, d, Always, k + j)
  {
    hide After;
    if k > 0 {
      Shifted(scheme, l, d, j, k - 1);
    }
  }

  /** Two frames after a resynchronization the controller is past its start. */
  lemma StartTracks(p: Params, d: nat -> int)
    requires Fits(LoopAt(Flopsync2, Loop(Fresh(p).control, 0), d, Always, 2).e)
    ensures Tracking(LoopAt(Flopsync2, Loop(Fresh(p).control, 0), d, Always, 2))
  {
  }

  /** From the n-th frame on, frames come within `band` ticks of when they are expected. */
  ghost predicate ExpectsWithin(p: Params, start: int, d: nat -> int, heard: nat -> bool, n: nat, band: nat)
    requires p.Ok()
  {
    forall k: nat :: k >= n ==> Abs(Lateness(p, Flopsync2, start, d, heard, k)) <= band
  }

  /** Before round n every frame was heard in time, and its error fits its field. */
  ghost predicate InTimeBefore(p: Params, start: int, d: nat -> int, heard: nat -> bool, n: nat)
    requires p.Ok()
  {
    forall k: nat :: k < n ==>
      && InTime(p, Flopsync2, start, d, heard)(k)
      && Fits(Arrival(p, start, d, k + 1) - Expected(p, NodeAt(p, Flopsync2, start, d, heard, k)))
  }

  /** From a resynchronization on, when every frame is heard in time and the skew becomes constant or a ramp at some
      point, a node with FLOPSYNC2 expects every frame to within 8 ticks from 58 rounds later on, as long as frames are
      heard.  If the smallest window is as large as that, no later frame comes too late. */
  lemma NodeSettles(p: Params, start: int, d: nat -> int, heard: nat -> bool, from: nat)
    requires p.Ok() && Ramp(d, from) && InTimeBefore(p, start, d, heard, from + 58)
    ensures forall k: nat :: k >= from + 58 && InTimeBefore(p, start, d, heard, k) ==>
              Abs(Lateness(p, Flopsync2, start, d, heard, k)) <= 8
    ensures p.minw >= 8 && (forall k: nat :: heard(k)) ==>
              && ExpectsWithin(p, start, d, heard, from + 58, 8)
              && forall k: nat :: InTime(p, Flopsync2, start, d, heard)(k)
  {
    hide InTimeBefore, Tracking, Lateness, NodeAt, LoopAt, Expected, InTime, Arrival, Error;
    LoopSettles(p, start, d, heard, from);
    forall k: nat | k >= from + 58 && InTimeBefore(p, start, d, heard, k)
      ensures Abs(Lateness(p, Flopsync2, start, d, heard, k)) <= 8
    {
      HeardFollows(p, start, d, heard, k);
    }
    if p.minw >= 8 && forall k: nat :: heard(k) {
      forall k: nat ensures InTimeBefore(p, start, d, heard, k) {
        StaysInTime(p, start, d, heard, from + 58, k);
      }
      forall k: nat ensures InTime(p, Flopsync2, start, d, heard)(k) {
        InTimeAt(p, start, d, heard, k + 1, k);
      }
    }
  }

  lemma InTimeAt(p: Params, start: int, d: nat -> int, heard: nat -> bool, n: nat, k: nat)
    requires p.Ok() && InTimeBefore(p, start, d, heard, n) && k < n
    ensures InTime(p, Flopsync2, start, d, heard)(k)
    ensures Fits(Arrival(p, start, d, k + 1) - Expected(p, NodeAt(p, Flopsync2, start, d, heard, k)))
  {
  }

  /** The loop a node is from the second frame on settles. */
  lemma LoopSettles(p: Params, start: int, d: nat -> int, heard: nat -> bool, from: nat)
    requires p.Ok() && Ramp(d, from) && InTimeBefore(p, start, d, heard, from + 58)
    ensures Settled(Flopsync2, Loop(Fresh(p).control, 0), d, from + 58, 8)
  {
    hide Fits, Tracking, LoopAt, InTimeBefore;
    var l := Loop(Fresh(p).control, 0);
    var l2, d2 := LoopAt(Flopsync2, l, d, Always, 2), Later(d, 2);
    forall k: nat ensures Error(Flopsync2, l2, d2, k) == Error(Flopsync2, l, d, k + 2) {
      Shifted(Flopsync2, l, d, 2, k);
    }
    forall k: nat | k < from + 56 ensures Fits(Error(Flopsync2, l2, d2, k)) {
      LoopErrorFits(p, start, d, heard, from + 58, k + 1);
    }
    assert Fits(Error(Flopsync2, l, d, 2)) by { LoopErrorFits(p, start, d, heard, from + 58, 1); }
    StartTracks(p, d);
    Flopsync2Settles(l2, d2, from);
    forall k: nat | k >= from + 58 ensures Abs(Error(Flopsync2, l, d, k)) <= 8 {
      var j: nat := k - 2;
      assert Error(Flopsync2, l2, d2, j) == Error(Flopsync2, l, d, k);
    }
  }

  lemma LoopErrorFits(p: Params, start: int, d: nat -> int, heard: nat -> bool, n: nat, k: nat)
    requires p.Ok() && InTimeBefore(p, start, d, heard, n) && k < n
    ensures Fits(Error(Flopsync2, Loop(Fresh(p).control, 0), d, k + 1))
  {
    hide Fits, InTimeBefore;
    Before(p, start, d, heard, n, k);
    HeardFollows(p, start, d, heard, k);
    NextError(p, start, d, heard, k);
    InTimeAt(p, start, d, heard, n, k);
  }

  lemma Before(p: Params, start: int, d: nat -> int, heard: nat -> bool, n: nat, k: nat)
    requires p.Ok() && InTimeBefore(p, start, d, heard, n) && k <= n
    ensures InTimeBefore(p, start, d, heard, k)
  {
    hide InTime, Fits, Arrival, Expected, NodeAt;
  }

  /** A node that heard every frame so far is in sync, and in the state of the loop. */
  ghost predicate IsLoop(p: Params, start: int, d: nat -> int, heard: nat -> bool, k: nat)
    requires p.Ok()
  {
    var n, l := NodeAt(p, Flopsync2, start, d, heard, k), LoopAt(Flopsync2, Loop(Fresh(p).control, 0), d, Always, k);
    Follows(Flopsync2, n, Lateness(p, Flopsync2, start, d, heard, k), l) && InSync(n) && Agrees(p, Flopsync2, n)
  }

  lemma {:induction false} HeardFollows(p: Params, start: int, d: nat -> int, heard: nat -> bool, k: nat)
    requires p.Ok() && InTimeBefore(p, start, d, heard, k)
    ensures IsLoop(p, start, d, heard, k)
    ensures Lateness(p, Flopsync2, start, d, heard, k) == Error(Flopsync2, Loop(Fresh(p).control, 0), d, k)
  {
    hide Correction, Fits, After, InTime, Expected, Agrees, InTimeBefore, Round;
    forall j: nat | j <= k
      ensures var n := NodeAt(p, Flopsync2, start, d, heard, j); InSync(n) && Agrees(p, Flopsync2, n)
    {
      Before(p, start, d, heard, k, j);
      HeardInSync(p, start, d, heard, j);
    }
    forall j: nat | j < k
      ensures InTime(p, Flopsync2, start, d, heard)(j)
      ensures Fits(Arrival(p, start, d, j + 1) - Expected(p, NodeAt(p, Flopsync2, start, d, heard, j)))
    {
      InTimeAt(p, start, d, heard, k, j);
    }
    hide NodeAt, InSync, LoopAt;
    NodeFollows(p, Flopsync2, start, d, heard, k);
    SameLoop(Flopsync2, Loop(Fresh(p).control, 0), d, InTime(p, Flopsync2, start, d, heard), k);
  }

  lemma {:induction false} HeardInSync(p: Params, start: int, d: nat -> int, heard: nat -> bool, k: nat)
    requires p.Ok() && InTimeBefore(p, start, d, heard, k)
    ensures var n := NodeAt(p, Flopsync2, start, d, heard, k); InSync(n) && Agrees(p, Flopsync2, n)
  {
    hide OnPacket, Correction, Agrees, Fits, InTimeBefore, Round, InSync, Arrival;
    if k == 0 {
      ResyncedOk(p, start);
    } else {
      var n, arrival := NodeAt(p, Flopsync2, start, d, heard, k - 1), Arrival(p, start, d, k);
      Before(p, start, d, heard, k, k - 1);
      HeardInSync(p, start, d, heard, k - 1);
      InTimeAt(p, start, d, heard, k, k - 1);
      RoundHears(p, n, arrival);
      RoundAgrees(p, n, [Frame(arrival, true)]);
    }
  }

  lemma ResyncedOk(p: Params, start: int)
    requires p.Ok()
    ensures InSync(Resynced(p, start)) && Agrees(p, Flopsync2, Resynced(p, start))
  {
    FreshCorrection(p, Flopsync2);
  }

  lemma RoundHears(p: Params, n: Node, arrival: int)
    requires p.Ok() && InSync(n) && arrival <= Expected(p, n) + n.window
    ensures InSync(Round(p, Flopsync2, n, [Frame(arrival, true)], 0))
  {
    hide OnPacket, Correction;
  }

  lemma RoundAgrees(p: Params, n: Node, frames: seq<Frame>)
    requires p.Ok() && Agrees(p, Flopsync2, n)
    ensures Agrees(p, Flopsync2, Round(p, Flopsync2, n, frames, 0))
  {
    NextAgrees(p, Flopsync2, n, Event.Synchronize(frames, 0));
  }

  /** The next frame is off the time it is expected at by the next error of the loop, heard or not. */
  lemma NextError(p: Params, start: int, d: nat -> int, heard: nat -> bool, k: nat)
    requires p.Ok() && IsLoop(p, start, d, heard, k)
    ensures Arrival(p, start, d, k + 1) - Expected(p, NodeAt(p, Flopsync2, start, d, heard, k)) ==
            Error(Flopsync2, Loop(Fresh(p).control, 0), d, k + 1)
  {
    hide Correction, Receive, Settle, NodeAt, InSync, Agrees;
  }

  /** Once the loop has settled the window covers every frame. */
  lemma {:induction false} StaysInTime(p: Params, start: int, d: nat -> int, heard: nat -> bool, n: nat, k: nat)
    requires p.Ok() && p.minw >= 8 && forall k: nat :: heard(k)
    requires InTimeBefore(p, start, d, heard, n) && Settled(Flopsync2, Loop(Fresh(p).control, 0), d, n, 8)
    ensures InTimeBefore(p, start, d, heard, k)
    decreases k
  {
    hide InTimeBefore, Settled, Error, InTime, NodeAt, IsLoop, Arrival, Expected;
    if k <= n {
      Before(p, start, d, heard, n, k);
    } else {
      StaysInTime(p, start, d, heard, n, k - 1);
      HeardFollows(p, start, d, heard, k - 1);
      NextError(p, start, d, heard, k - 1);
      SettledAt(Flopsync2, Loop(Fresh(p).control, 0), d, n, 8, k);
      WindowCovers8(p, start, d, heard, k - 1);
      OneMore(p, start, d, heard, k);
    }
  }

  lemma SettledAt(scheme: Scheme, l: Loop, d: nat -> int, n: nat, band: nat, k: nat)
    requires Settled(scheme, l, d, n, band) && k >= n
    ensures Abs(Error(scheme, l, d, k)) <= band
  {
    hide Error, Abs;
  }

  lemma WindowCovers8(p: Params, start: int, d: nat -> int, heard: nat -> bool, k: nat)
    requires p.Ok() && p.minw >= 8 && heard(k) && IsLoop(p, start, d, heard, k)
    requires Abs(Arrival(p, start, d, k + 1) - Expected(p, NodeAt(p, Flopsync2, start, d, heard, k))) <= 8
    ensures InTime(p, Flopsync2, start, d, heard)(k)
    ensures Fits(Arrival(p, start, d, k + 1) - Expected(p, NodeAt(p, Flopsync2, start, d, heard, k)))
  {
    hide Correction, Receive, Settle, LoopAt, NodeAt, Arrival, Expected, Lateness;
  }

  lemma OneMore(p: Params, start: int, d: nat -> int, heard: nat -> bool, k: nat)
    requires p.Ok() && k > 0 && InTimeBefore(p, start, d, heard, k - 1) && InTime(p, Flopsync2, start, d, heard)(k - 1)
    requires Fits(Arrival(p, start, d, k) - Expected(p, NodeAt(p, Flopsync2, start, d, heard, k - 1)))
    ensures InTimeBefore(p, start, d, heard, k)
  {
    hide InTime, Fits, Arrival, Expected, NodeAt;
  }

  // ---------------------------------------------------------------- deadbeat start

  function Skew(d: int): nat -> int {
    (k: nat) => d
  }

  /** The state that repeats the skew for ever. */
  function Rest(scheme: Scheme, d: int): Control {
    Control(scheme.Scale() * d, scheme.Scale() * d, 0, 0, 2)
  }

  /** At rest nothing changes, heard or not. */
  lemma RestStays(scheme: Scheme, d: int, heard: bool)
    requires scheme != Adaptive
    ensures After(scheme, Loop(Rest(scheme, d), 0), d, heard) == Loop(Rest(scheme, d), 0)
  {
  }

  /** The first frame heard, with error e, is corrected for by twice e; the next one starts from there. */
  lemma FirstHeard(p: Params, scheme: Scheme, l: Loop, d: int, heard: bool)
    requires scheme != Adaptive && l.control == Fresh(p).control
    ensures var l1 := After(scheme, l, d, true);
            var l2 := After(scheme, l1, d, heard);
            && l1.e == l.e + d
            && l2.e == d - l1.e
            && (l.e == 0 ==> l2 == Loop(Rest(scheme, d), 0))
  {
    var m, e := scheme.Scale(), l.e + d;
    RoundExact(0, m);
    assert m * (2 * e) == 2 * m * e;
    RoundExact(2 * e, m);
    hide RoundDiv, ToShort;
    assert Quot(2 * m * e, 2) == m * e by {
      assert 2 * m * e == 2 * (m * e);
    }
  }

  /** While nothing was heard the error grows with the skew. */
  lemma {:induction false} Unheard(p: Params, scheme: Scheme, d: int, heard: nat -> bool, n: nat)
    requires scheme != Adaptive && forall j: nat :: j < n ==> !heard(j)
    ensures LoopAt(scheme, Loop(Fresh(p).control, 0), Skew(d), heard, n) == Loop(Fresh(p).control, n * d)
  {
    if n > 0 {
      Unheard(p, scheme, d, heard, n - 1);
      RoundExact(0, scheme.Scale());
      hide RoundDiv;
      assert (n - 1) * d + d == n * d;
    }
  }

  /** The start is deadbeat, whatever is lost later, exactly when the first frame is heard: if the first n were
      lost the first error is (n + 1) d and the second one -n d. */
  lemma DeadbeatIff(p: Params, scheme: Scheme, d: int, heard: nat -> bool, n: nat)
    requires scheme != Adaptive && (forall j: nat :: j < n ==> !heard(j)) && heard(n)
    ensures var l := Loop(Fresh(p).control, 0);
            && LoopAt(scheme, l, Skew(d), heard, n + 1).e == (n + 1) * d
            && LoopAt(scheme, l, Skew(d), heard, n + 2).e == -(n * d)
            && ((forall k: nat :: k >= n + 2 ==> LoopAt(scheme, l, Skew(d), heard, k).e == 0) <==> n == 0 || d == 0)
  {
    hide After;
    var l := Loop(Fresh(p).control, 0);
    Unheard(p, scheme, d, heard, n);
    FirstHeard(p, scheme, Loop(Fresh(p).control, n * d), d, heard(n + 1));
    assert n * d + d == (n + 1) * d && d - (n + 1) * d == -(n * d);
    assert LoopAt(scheme, l, Skew(d), heard, n + 2)
           == After(scheme, LoopAt(scheme, l, Skew(d), heard, n + 1), d, heard(n + 1));
    if n == 0 || d == 0 {
      assert n * d == 0;
      forall k: nat | k >= n + 2 ensures LoopAt(scheme, l, Skew(d), heard, k).e == 0 {
        RestAt(scheme, l, d, heard, n + 2, k);
      }
    } else {
      assert n * d != 0;
    }
  }

  lemma {:induction false} RestAt(scheme: Scheme, l: Loop, d: int, heard: nat -> bool, from: nat, k: nat)
    requires scheme != Adaptive && k >= from && LoopAt(scheme, l, Skew(d), heard, from) == Loop(Rest(scheme, d), 0)
    ensures LoopAt(scheme, l, Skew(d), heard, k) == Loop(Rest(scheme, d), 0)
    decreases k
  {
    if k > from {
      RestAt(scheme, l, d, heard, from, k - 1);
      RestStays(scheme, d, heard(k - 1));
    }
  }

  /** The error of the frame a node in sync waits for, under a constant skew within the window. */
  lemma {:induction false} DeadbeatNext(p: Params, scheme: Scheme, start: int, d: int, heard: nat -> bool, k: nat)
    requires p.Ok() && scheme != Adaptive && heard(0) && Abs(d) <= p.w
    requires forall j: nat :: j <= k ==> InSync(NodeAt(p, scheme, start, Skew(d), heard, j))
    ensures Follows(scheme, NodeAt(p, scheme, start, Skew(d), heard, k), Lateness(p, scheme, start, Skew(d), heard, k),
                    LoopAt(scheme, Loop(Fresh(p).control, 0), Skew(d), InTime(p, scheme, start, Skew(d), heard), k))
    ensures Arrival(p, start, Skew(d), k + 1) - Expected(p, NodeAt(p, scheme, start, Skew(d), heard, k)) ==
            if k == 0 then d else 0
    decreases k
  {
    hide RoundDiv, Round, InSync, After;
    forall j: nat | j < k
      ensures Fits(Arrival(p, start, Skew(d), j + 1) - Expected(p, NodeAt(p, scheme, start, Skew(d), heard, j)))
    {
      DeadbeatNext(p, scheme, start, d, heard, j);
    }
    NodeFollows(p, scheme, start, Skew(d), heard, k);
    var inTime := InTime(p, scheme, start, Skew(d), heard);
    if k == 0 {
      assert Expected(p, NodeAt(p, scheme, start, Skew(d), heard, 0)) == start + p.period;
    } else {
      DeadbeatNext(p, scheme, start, d, heard, 0);
      assert inTime(0);
      LoopRest(p, scheme, d, inTime, k);
    }
  }

  lemma LoopRest(p: Params, scheme: Scheme, d: int, heard: nat -> bool, k: nat)
    requires scheme != Adaptive && heard(0) && k >= 1
    ensures var l := LoopAt(scheme, Loop(Fresh(p).control, 0), Skew(d), heard, k);
            l.e + d - Correction(scheme, l.control) == 0
            && l.e == (if k == 1 then d else 0) && (k >= 2 ==> Correction(scheme, l.control) == d)
  {
    hide RoundDiv, Receive, Settle;
    var l := Loop(Fresh(p).control, 0);
    FirstHeard(p, scheme, l, d, heard(1));
    var l1 := LoopAt(scheme, l, Skew(d), heard, 1);
    assert l1 == After(scheme, l, d, true) && LoopAt(scheme, l, Skew(d), heard, 2) == After(scheme, l1, d, heard(1));
    if k >= 2 {
      RestAt(scheme, l, d, heard, 2, k);
      RoundExact(d, scheme.Scale());
    }
  }

  /** How many frames in a row were lost when the k-th one has passed. */
  ghost function LostInARow(heard: nat -> bool, k: nat): nat {
    if k == 0 || heard(k - 1) then 0 else LostInARow(heard, k - 1) + 1
  }

  ghost predicate FewLost(heard: nat -> bool, k: nat) {
    forall j: nat :: j <= k ==> LostInARow(heard, j) <= MAX_MISS_PACKETS
  }

  ghost predicate InSyncUpTo(p: Params, scheme: Scheme, start: int, d: nat -> int, heard: nat -> bool, k: nat)
    requires p.Ok()
  {
    forall j: nat :: j <= k ==> InSync(NodeAt(p, scheme, start, d, heard, j))
  }

  lemma FewLostStep(heard: nat -> bool, k: nat)
    requires k > 0
    ensures FewLost(heard, k) <==> FewLost(heard, k - 1) && LostInARow(heard, k) <= MAX_MISS_PACKETS
  {
  }

  lemma InSyncStep(p: Params, scheme: Scheme, start: int, d: nat -> int, heard: nat -> bool, k: nat)
    requires p.Ok() && k > 0
    ensures InSyncUpTo(p, scheme, start, d, heard, k) <==>
              InSyncUpTo(p, scheme, start, d, heard, k - 1) && InSync(NodeAt(p, scheme, start, d, heard, k))
  {
  }

  /** Such a node falls out of sync exactly when more than three frames in a row are lost. */
  lemma {:induction false} DeadbeatInSyncIff(p: Params, scheme: Scheme, start: int, d: int, heard: nat -> bool, k: nat)
    requires p.Ok() && scheme != Adaptive && heard(0) && Abs(d) <= p.w
    ensures InSyncUpTo(p, scheme, start, Skew(d), heard, k) <==> FewLost(heard, k)
    ensures FewLost(heard, k) ==> NodeAt(p, scheme, start, Skew(d), heard, k).miss == LostInARow(heard, k)
    decreases k
  {
    hide RoundDiv, Round, After, Expected, Arrival;
    if k > 0 {
      hide InSyncUpTo, FewLost, NodeAt;
      FewLostStep(heard, k);
      InSyncStep(p, scheme, start, Skew(d), heard, k);
      DeadbeatInSyncIff(p, scheme, start, d, heard, k - 1);
      if FewLost(heard, k - 1) {
        InSyncNext(p, scheme, start, d, heard, k - 1);
      }
    }
  }

  lemma InSyncNext(p: Params, scheme: Scheme, start: int, d: int, heard: nat -> bool, k: nat)
    requires p.Ok() && scheme != Adaptive && heard(0) && Abs(d) <= p.w
    requires InSyncUpTo(p, scheme, start, Skew(d), heard, k)
    ensures NodeAt(p, scheme, start, Skew(d), heard, k + 1).miss ==
              if heard(k) then 0 else NodeAt(p, scheme, start, Skew(d), heard, k).miss + 1
  {
    hide NodeAt;
    DeadbeatNext(p, scheme, start, d, heard, k);
    SyncKept(p, scheme, start, d, heard, k);
  }

  lemma SyncKept(p: Params, scheme: Scheme, start: int, d: int, heard: nat -> bool, k: nat)
    requires p.Ok() && scheme != Adaptive && heard(0) && Abs(d) <= p.w
    requires InSync(NodeAt(p, scheme, start, Skew(d), heard, k))
    requires Arrival(p, start, Skew(d), k + 1) - Expected(p, NodeAt(p, scheme, start, Skew(d), heard, k)) ==
             if k == 0 then d else 0
    ensures NodeAt(p, scheme, start, Skew(d), heard, k + 1).miss ==
              if heard(k) then 0 else NodeAt(p, scheme, start, Skew(d), heard, k).miss + 1
  {
    hide RoundDiv, OnPacket, OnLoss, Correction;
    var n := NodeAt(p, scheme, start, Skew(d), heard, k);
    WindowKept(p, scheme, start, Skew(d), heard, k);
    var frames := Heard(Arrival(p, start, Skew(d), k + 1), heard(k));
    if heard(k) {
      assert frames[0] == Frame(Arrival(p, start, Skew(d), k + 1), true);
    }
    assert NodeAt(p, scheme, start, Skew(d), heard, k + 1) == Round(p, scheme, n, frames, 0);
  }

  lemma {:induction false} WindowKept(p: Params, scheme: Scheme, start: int, d: nat -> int, heard: nat -> bool, k: nat)
    requires p.Ok()
    ensures Agrees(p, scheme, NodeAt(p, scheme, start, d, heard, k))
    ensures NodeAt(p, scheme, start, d, heard, k).window >= 0
    ensures k == 0 ==> NodeAt(p, scheme, start, d, heard, k).window == p.w
  {
    hide Round, Correction;
    if k == 0 {
      FreshCorrection(p, scheme);
    } else {
      WindowKept(p, scheme, start, d, heard, k - 1);
      var n := NodeAt(p, scheme, start, d, heard, k - 1);
      var frames := Heard(Arrival(p, start, d, k), heard(k - 1));
      NextAgrees(p, scheme, n, Synchronize(frames, 0));
      assert NodeAt(p, scheme, start, d, heard, k) == Next(p, scheme, n, Synchronize(frames, 0));
    }
  }

  /** A node resynchronized at the arrival of a frame, whose clock has a constant skew within the window, and that
      hears the next frame: that one has the skew as error, every later one comes exactly when expected as long as
      no four in a row are lost, and the correction is the skew from the second frame on. */
  lemma DeadbeatNode(p: Params, scheme: Scheme, start: int, d: int, heard: nat -> bool, k: nat)
    requires p.Ok() && scheme != Adaptive && heard(0) && Abs(d) <= p.w && FewLost(heard, k)
    ensures k == 1 ==> Lateness(p, scheme, start, Skew(d), heard, k) == d
    ensures k >= 2 ==> Lateness(p, scheme, start, Skew(d), heard, k) == 0
                       && NodeAt(p, scheme, start, Skew(d), heard, k).correction == d
  {
    hide RoundDiv, Round, InSync, After, FewLost, Expected, Arrival, NodeAt;
    DeadbeatInSyncIff(p, scheme, start, d, heard, k);
    if k >= 1 {
      DeadbeatNext(p, scheme, start, d, heard, k);
      FirstInTime(p, scheme, start, d, heard);
      LoopRest(p, scheme, d, InTime(p, scheme, start, Skew(d), heard), k);
    }
  }

  lemma FirstInTime(p: Params, scheme: Scheme, start: int, d: int, heard: nat -> bool)
    requires p.Ok() && heard(0) && Abs(d) <= p.w
    ensures InTime(p, scheme, start, Skew(d), heard)(0)
  {
    assert Arrival(p, start, Skew(d), 1) == start + p.period + d;
    assert NodeAt(p, scheme, start, Skew(d), heard, 0) == Resynced(p, start);
  }
}
