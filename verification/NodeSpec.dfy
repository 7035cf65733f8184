/**
 A synchronized node on values, round by round, and the clock it offers: the conversion from the root's time
 within a frame to local time.
 */
module NodeSpec {
  import opened CArith
  import opened SyncSpec
  import opened Wrappers

  /** A frame the radio signalled: when it started, and whether it could be read and comes from the right hop. */
  datatype Frame = Frame(start: int, good: bool)

  /** What a node keeps from one round to the next. */
  datatype Node = Node(sync: Sync, computed: int, measured: int, correction: int, window: int, miss: nat)

  const MAX_MISS_PACKETS := 3

  // ---------------------------------------------------------------- rounds

  /** The frames are looked at in the order they arrive until one is good; one that is late ends the wait. */
  function FirstGood(frames: seq<Frame>, limit: int): Option<int> {
    if frames == [] || frames[0].start > limit then None
    else if frames[0].good then Some(frames[0].start)
    else FirstGood(frames[1..], limit)
  }

  /** The start computed from the radio's time stamp register when the wait ends; `register` is what it gives
      when no frame arrives. */
  function LastSeen(frames: seq<Frame>, limit: int, register: int): int {
    if frames == [] then register
    else if frames[0].start > limit || frames[0].good then frames[0].start
    else LastSeen(frames[1..], limit, frames[0].start)
  }

  /** The frame accepted is the first good one, and nothing before it was late. */
  lemma {:induction false} FirstGoodIff(frames: seq<Frame>, limit: int, t: int)
    ensures FirstGood(frames, limit) == Some(t) <==>
              exists i :: 0 <= i < |frames| && frames[i] == Frame(t, true)
                && forall j :: 0 <= j <= i ==> frames[j].start <= limit && (j < i ==> !frames[j].good)
  {
    if frames != [] && frames[0].start <= limit && !frames[0].good {
      FirstGoodIff(frames[1..], limit, t);
      if i :| 0 <= i < |frames[1..]| && frames[1..][i] == Frame(t, true)
              && forall j :: 0 <= j <= i ==> frames[1..][j].start <= limit && (j < i ==> !frames[1..][j].good) {
        assert frames[i + 1] == Frame(t, true);
        assert forall j :: 1 <= j <= i + 1 ==> frames[j] == frames[1..][j - 1];
      }
      if i :| 0 <= i < |frames| && frames[i] == Frame(t, true)
              && forall j :: 0 <= j <= i ==> frames[j].start <= limit && (j < i ==> !frames[j].good) {
        assert frames[1..][i - 1] == Frame(t, true);
      }
    }
  }

  /** When the next synchronization frame is expected. */
  function Expected(p: Params, n: Node): int {
    n.computed + p.period + n.correction
  }

  function Received(p: Params, scheme: Scheme, n: Node, start: int): Node
    requires p.Ok()
  {
    var c := Expected(p, n);
    var s := OnPacket(p, scheme, n.sync, ToInt(start - c));
    Node(s, c, start - p.hopDelay, Correction(scheme, s.control), s.dw, 0)
  }

  /** `stale` is where the last frame looked at started. */
  function Missed(p: Params, scheme: Scheme, n: Node, stale: int): Node {
    var c := Expected(p, n);
    if n.miss + 1 > MAX_MISS_PACKETS then n.(computed := c, measured := stale, miss := n.miss + 1)
    else
      var s := OnLoss(p, scheme, n.sync);
      Node(s, c, c - p.hopDelay, Correction(scheme, s.control), s.dw, n.miss + 1)
  }

  predicate InSync(n: Node) {
    n.miss <= MAX_MISS_PACKETS
  }

  /** One call of synchronize; the node is in sync after it unless it was lost, before or now. */
  function Round(p: Params, scheme: Scheme, n: Node, frames: seq<Frame>, register: int): Node
    requires p.Ok()
  {
    if !InSync(n) then n
    else
      var limit := Expected(p, n) + n.window;
      match FirstGood(frames, limit)
      case None => Missed(p, scheme, n, LastSeen(frames, limit, register))
      case Some(start) => Received(p, scheme, n, start)
  }

  function Resynced(p: Params, start: int): Node {
    Node(Fresh(p), start, start - p.hopDelay, 0, p.w, 0)
  }

  function Booted(p: Params): Node {
    Node(Fresh(p), 0, 0, 0, p.w, MAX_MISS_PACKETS + 1)
  }

  /** Holds of a node at every moment between calls: the correction it applies to its next frame is the one its
      controller reports to the clock, and so is the window. */
  predicate Agrees(p: Params, scheme: Scheme, n: Node) {
    && Valid(p, scheme, n.sync)
    && n.correction == Correction(scheme, n.sync.control)
    && n.window == n.sync.dw
    && n.miss <= MAX_MISS_PACKETS + 1
  }

  datatype Event = Synchronize(frames: seq<Frame>, register: int) | Resynchronize(start: int)

  function Next(p: Params, scheme: Scheme, n: Node, e: Event): Node
    requires p.Ok()
  {
    match e
    case Synchronize(frames, register) => Round(p, scheme, n, frames, register)
    case Resynchronize(start) => Resynced(p, start)
  }

  function Run(p: Params, scheme: Scheme, n: Node, events: seq<Event>): Node
    requires p.Ok()
  {
    if events == [] then n else Next(p, scheme, Run(p, scheme, n, events[..|events| - 1]), events[|events| - 1])
  }

  lemma NextAgrees(p: Params, scheme: Scheme, n: Node, e: Event)
    requires p.Ok() && Agrees(p, scheme, n)
    ensures Agrees(p, scheme, Next(p, scheme, n, e))
  {
  }

  lemma FreshCorrection(p: Params, scheme: Scheme)
    ensures Correction(scheme, Fresh(p).control) == 0
  {
  }

  /** In every run of every controller: what the node applies is what its clock is told. */
  lemma {:induction false} RunAgrees(p: Params, scheme: Scheme, events: seq<Event>)
    requires p.Ok()
    ensures Agrees(p, scheme, Run(p, scheme, Booted(p), events))
  {
    if events == [] {
      FreshCorrection(p, scheme);
    } else {
      RunAgrees(p, scheme, events[..|events| - 1]);
      NextAgrees(p, scheme, Run(p, scheme, Booted(p), events[..|events| - 1]), events[|events| - 1]);
    }
  }

  // ---------------------------------------------------------------- lost frames

  /** A good frame is heard if nothing up to it is late and nothing before it is good; it is the one the node then
      goes by. */
  lemma RoundHears(p: Params, scheme: Scheme, n: Node, frames: seq<Frame>, register: int, i: nat)
    requires p.Ok() && InSync(n) && i < |frames| && frames[i].good
    requires forall j :: 0 <= j < i ==> !frames[j].good && frames[j].start <= frames[i].start
    ensures var r := Round(p, scheme, n, frames, register);
            && r.computed == Expected(p, n)
            && (r.miss == 0 <==> frames[i].start <= Expected(p, n) + n.window)
            && (r.miss == 0 ==> r.measured == frames[i].start - p.hopDelay
                                && r.sync == OnPacket(p, scheme, n.sync, ToInt(frames[i].start - Expected(p, n))))
            && (r.miss != 0 ==> r.miss == n.miss + 1)
  {
    hide OnPacket, OnLoss, Correction, ToInt;
    var limit, t := Expected(p, n) + n.window, frames[i].start;
    FirstGoodIff(frames, limit, t);
    if t <= limit {
      assert frames[i] == Frame(t, true);
    } else if FirstGood(frames, limit).Some? {
      FirstGoodIff(frames, limit, FirstGood(frames, limit).value);
    }
  }

  /** A node that was never synchronized does nothing. */
  lemma {:induction false} BootedWaits(p: Params, scheme: Scheme, events: seq<Event>)
    requires p.Ok() && forall i :: 0 <= i < |events| ==> events[i].Synchronize?
    ensures var n := Run(p, scheme, Booted(p), events);
            !InSync(n) && n == Booted(p) && n.computed == n.measured == 0
  {
    if events != [] {
      BootedWaits(p, scheme, events[..|events| - 1]);
    }
  }

  /** Whatever happened before, after a resynchronization the next frame is expected one period later, up to the largest
      window; once it is heard, twice its error is the correction, or eleven eighths of it with the older
      controller. */
  lemma ResyncStarts(p: Params, scheme: Scheme, n: Node, start: int, frames: seq<Frame>, register: int, i: nat)
    requires p.Ok() && i < |frames| && frames[i].good
    requires forall j :: 0 <= j < i ==> !frames[j].good && frames[j].start <= frames[i].start
    ensures var m := Next(p, scheme, n, Resynchronize(start));
            var r, e := Next(p, scheme, m, Synchronize(frames, register)), frames[i].start - (start + p.period);
            && m.miss == 0 && m.measured == start - p.hopDelay && m.correction == 0
            && r.computed == start + p.period && (r.miss == 0 <==> e <= p.w)
            && (r.miss == 0 ==> if scheme == Adaptive then 8 * r.correction - 4 <= 11 * ToInt(e) <= 8 * r.correction + 4
                                else r.correction == 2 * ToInt(e))
  {
    var m := Next(p, scheme, n, Resynchronize(start));
    RoundHears(p, scheme, m, frames, register, i);
    FirstCorrection(p, scheme, ToInt(frames[i].start - Expected(p, m)));
    FirstIs(p, scheme, ToInt(frames[i].start - Expected(p, m)));
    FreshCorrection(p, scheme);
    NextAgrees(p, scheme, m, Synchronize(frames, register));
    hide Correction, OnPacket, OnLoss, Since, FirstGood, ToInt;
  }

  lemma FirstIs(p: Params, scheme: Scheme, e: int)
    requires p.Ok()
    ensures Since(p, scheme, [Some(e)]) == OnPacket(p, scheme, Fresh(p), e)
    ensures Valid(p, scheme, Fresh(p))
  {
    hide OnPacket;
    assert [Some(e)][..0] == [];
  }

  /** No good frame comes in time. */
  predicate Silent(p: Params, n: Node, e: Event) {
    e.Synchronize? && FirstGood(e.frames, Expected(p, n) + n.window) == None
  }

  ghost predicate SilentRun(p: Params, scheme: Scheme, n: Node, events: seq<Event>)
    requires p.Ok()
  {
    forall i :: 0 <= i < |events| ==> Silent(p, Run(p, scheme, n, events[..i]), events[i])
  }

  /** A round without a good frame. */
  lemma RoundLoses(p: Params, scheme: Scheme, n: Node, e: Event)
    requires p.Ok() && Agrees(p, scheme, n) && InSync(n) && Silent(p, n, e)
    ensures var r := Next(p, scheme, n, e);
            && r.miss == n.miss + 1 && r.computed == n.computed + p.period + n.correction
            && (InSync(r) ==> r.sync == OnLoss(p, scheme, n.sync) && r.measured == r.computed - p.hopDelay)
            && (!InSync(r) ==> r.sync == n.sync && r.window == n.window)
  {
  }

  /** The call that gives up leaves the start of the last frame the receiver looked at: the late one that ended the
      wait, or the last of all. */
  lemma GivesUp(p: Params, scheme: Scheme, n: Node, frames: seq<Frame>, register: int, k: nat)
    requires p.Ok() && n.miss == MAX_MISS_PACKETS && k < |frames| && !frames[k].good
    requires forall j :: 0 <= j < k ==> !frames[j].good && frames[j].start <= Expected(p, n) + n.window
    requires frames[k].start > Expected(p, n) + n.window || k == |frames| - 1
    ensures var r := Round(p, scheme, n, frames, register);
            && !InSync(r) && r.measured == frames[k].start && r.computed == Expected(p, n)
            && r.correction == n.correction && r.window == n.window
    ensures Round(p, scheme, n, [], register).measured == register
  {
    hide OnPacket, OnLoss, Correction;
    NoneGood(frames, Expected(p, n) + n.window, register, k);
  }

  lemma {:induction false} NoneGood(frames: seq<Frame>, limit: int, register: int, k: nat)
    requires k < |frames| && !frames[k].good && (frames[k].start > limit || k == |frames| - 1)
    requires forall j :: 0 <= j < k ==> !frames[j].good && frames[j].start <= limit
    ensures FirstGood(frames, limit) == None && LastSeen(frames, limit, register) == frames[k].start
  {
    if k > 0 {
      NoneGood(frames[1..], limit, frames[0].start, k - 1);
    }
  }

  /** Rounds without a good frame, however many: each of the first ones, up to as many as a node stays in sync for,
      widens the window, until it is the largest one; the node counts on with the correction it had. */
  lemma {:induction false} LossesInARow(p: Params, scheme: Scheme, n: Node, events: seq<Event>)
    requires p.Ok() && Agrees(p, scheme, n) && InSync(n) && SilentRun(p, scheme, n, events)
    ensures var m, lost := Run(p, scheme, n, events), Min(|events|, MAX_MISS_PACKETS - n.miss);
            && Agrees(p, scheme, m) && m.sync == Losses(p, scheme, n.sync, lost)
            && m.miss == Min(n.miss + |events|, MAX_MISS_PACKETS + 1)
            && m.window == Min(Wider(scheme, lost) * n.window, p.w)
            && (m.window == p.w <==> Wider(scheme, lost) * n.window >= p.w)
  {
    hide Next, Losses, Wider, Silent, Correction, Valid;
    LossesWiden(p, scheme, n.sync, Min(|events|, MAX_MISS_PACKETS - n.miss));
    if events == [] {
      assert Losses(p, scheme, n.sync, 0) == n.sync by { Unlost(p, scheme, n.sync); }
    } else {
      var front, last := events[..|events| - 1], events[|events| - 1];
      assert forall i :: 0 <= i < |front| ==> front[..i] == events[..i];
      LossesInARow(p, scheme, n, front);
      var m := Run(p, scheme, n, front);
      assert Silent(p, m, last);
      NextAgrees(p, scheme, m, last);
      OneMore(p, scheme, n, m, last, Min(|front|, MAX_MISS_PACKETS - n.miss));
    }
  }

  lemma Unlost(p: Params, scheme: Scheme, s: Sync)
    ensures Losses(p, scheme, s, 0) == s
  {
  }

  lemma OneMore(p: Params, scheme: Scheme, n: Node, m: Node, e: Event, lost: nat)
    requires p.Ok() && Agrees(p, scheme, m) && m.sync == Losses(p, scheme, n.sync, lost) && Silent(p, m, e)
    ensures var r := Next(p, scheme, m, e);
            && r.miss == (if InSync(m) then m.miss + 1 else m.miss)
            && r.sync == if m.miss < MAX_MISS_PACKETS then Losses(p, scheme, n.sync, lost + 1) else m.sync
  {
    hide Round, OnLoss;
    if InSync(m) {
      RoundLoses(p, scheme, m, e);
    } else {
      Idle(p, scheme, m, e);
    }
  }

  lemma Idle(p: Params, scheme: Scheme, n: Node, e: Event)
    requires p.Ok() && !InSync(n) && e.Synchronize?
    ensures Next(p, scheme, n, e) == n
  {
  }

  /** Once the controller is past its first packet, the starts computed while nothing is heard are as far apart as
      before. */
  lemma {:induction false} CountsOn(p: Params, scheme: Scheme, n: Node, events: seq<Event>)
    requires p.Ok() && Agrees(p, scheme, n) && SilentRun(p, scheme, n, events)
    requires n.miss + |events| <= MAX_MISS_PACKETS && (scheme == Adaptive || n.sync.control.init != 1)
    ensures var m := Run(p, scheme, n, events);
            && m.computed == n.computed + |events| * (p.period + n.correction) && m.correction == n.correction
            && (events != [] ==> m.measured == m.computed - p.hopDelay)
  {
    hide OnLoss, OnPacket, FirstGood, Correction;
    if events != [] {
      var front, last := events[..|events| - 1], events[|events| - 1];
      assert forall i :: 0 <= i < |front| ==> front[..i] == events[..i];
      CountsOn(p, scheme, n, front);
      LossesInARow(p, scheme, n, front);
      LossesInARow(p, scheme, n, events);
      LossesWiden(p, scheme, n.sync, |events|);
      var m := Run(p, scheme, n, front);
      assert Silent(p, m, last);
      RoundLoses(p, scheme, m, last);
      Times(|events|, p.period + n.correction);
    }
  }

  lemma Times(k: int, x: int)
    ensures k * x == (k - 1) * x + x
  {
  }

  /** After losses in a row the first good frame is heard if and only if it comes no later than the window, widened
      once for each of them, after it is expected. */
  lemma HeardAfterLossesIff(p: Params, scheme: Scheme, n: Node, events: seq<Event>, frames: seq<Frame>,
                            register: int, i: nat)
    requires p.Ok() && Agrees(p, scheme, n) && SilentRun(p, scheme, n, events)
    requires n.miss + |events| <= MAX_MISS_PACKETS && i < |frames| && frames[i].good
    requires forall j :: 0 <= j < i ==> !frames[j].good && frames[j].start <= frames[i].start
    ensures var m := Run(p, scheme, n, events);
            var r := Next(p, scheme, m, Synchronize(frames, register));
            && (r.miss == 0 <==> frames[i].start - Expected(p, m) <= Min(Wider(scheme, |events|) * n.window, p.w))
            && (r.miss == 0 ==> r.measured == frames[i].start - p.hopDelay)
  {
    hide Round, Run, OnPacket, Agrees;
    LossesInARow(p, scheme, n, events);
    RoundHears(p, scheme, Run(p, scheme, n, events), frames, register, i);
  }

  /** The error of a frame heard while the receiver was on, and not late, fits the field that keeps it. */
  lemma ErrorFits(p: Params, scheme: Scheme, n: Node, frames: seq<Frame>)
    requires p.Ok() && Agrees(p, scheme, n)
    requires forall i :: 0 <= i < |frames| ==> frames[i].start >= Expected(p, n) - n.window - p.guard
    ensures match FirstGood(frames, Expected(p, n) + n.window)
            case None => true
            case Some(t) => var e := t - Expected(p, n);
              -n.window - p.guard <= e <= n.window && ToInt(e) == e && ToShort(e) == e
  {
  }

  // ---------------------------------------------------------------- the clock

  /** MonotonicClock::localTime, for a frame that starts at `start` locally and a correction u. */
  function LocalTime(p: Params, start: int, u: int, slot: nat): int
    requires p.Ok()
  {
    start + Max(0, slot + RoundDiv(slot * u, p.period))
  }

  /** The clock as a node's callers see it. */
  function NodeTime(p: Params, scheme: Scheme, n: Node, slot: nat): int
    requires p.Ok()
  {
    LocalTime(p, n.computed - p.hopDelay, Correction(scheme, n.sync.control), slot)
  }

  lemma SlotStep(p: Params, u: int, slot: nat)
    requires p.Ok()
    ensures var f, g := slot + RoundDiv(slot * u, p.period), slot + 1 + RoundDiv((slot + 1) * u, p.period);
            (u >= -p.period ==> f <= g) && (u < -p.period ==> g <= f)
  {
    var T := p.period;
    assert (slot + 1) * u == slot * u + u;
    if u >= 0 {
      RoundMonotone(slot * u, slot * u + u, T);
    } else {
      assert slot * u <= 0;
      RoundShift(slot * u, T);
      if u >= -T {
        RoundMonotone(slot * u - T, slot * u + u, T);
      } else {
        RoundMonotone(slot * u + u, slot * u - T, T);
      }
    }
  }

  /** Within a frame local time never goes back, whatever the correction: below minus one period it stands still. */
  lemma {:induction false} FrameMonotone(p: Params, start: int, u: int, slot: nat, later: nat)
    requires p.Ok() && slot <= later
    ensures LocalTime(p, start, u, slot) <= LocalTime(p, start, u, later)
    ensures u >= -p.period ==> LocalTime(p, start, u, slot) == start + slot + RoundDiv(slot * u, p.period)
    ensures u < -p.period ==> LocalTime(p, start, u, slot) == start
    decreases later
  {
    hide RoundDiv;
    Raised(p, u, slot);
    if slot < later {
      FrameMonotone(p, start, u, slot, later - 1);
      SlotStep(p, u, later - 1);
    }
  }

  /** Whether the clamp at the start of the frame is ever needed. */
  lemma {:induction false} Raised(p: Params, u: int, slot: nat)
    requires p.Ok()
    ensures var f := slot + RoundDiv(slot * u, p.period); (u >= -p.period ==> f >= 0) && (u < -p.period ==> f <= 0)
  {
    hide RoundDiv;
    if slot == 0 {
      RoundExact(0, p.period);
      assert 0 * u == 0 == p.period * 0;
    } else {
      Raised(p, u, slot - 1);
      SlotStep(p, u, slot - 1);
    }
  }

  /** The end of a frame is the start of the next one exactly when the correction is not below minus one period. */
  lemma FrameEndIff(p: Params, start: int, u: int)
    requires p.Ok()
    ensures LocalTime(p, start, u, p.period) == start + p.period + u <==> u >= -p.period
  {
    RoundExact(u, p.period);
  }

  /** The nodes after 0, 1, 2, ... calls of synchronize. */
  ghost predicate Frames(p: Params, scheme: Scheme, nodes: seq<Node>)
    requires p.Ok()
  {
    && (forall i :: 0 <= i < |nodes| ==> Agrees(p, scheme, nodes[i]))
    && forall i {:trigger nodes[i].computed} :: 0 <= i < |nodes| - 1 ==>
         InSync(nodes[i]) && nodes[i + 1].computed == Expected(p, nodes[i])
  }

  /** A call of synchronize moves to the next frame. */
  lemma RoundIsFrame(p: Params, scheme: Scheme, nodes: seq<Node>, frames: seq<Frame>, register: int)
    requires p.Ok() && Frames(p, scheme, nodes) && nodes != [] && InSync(nodes[|nodes| - 1])
    ensures Frames(p, scheme, nodes + [Round(p, scheme, nodes[|nodes| - 1], frames, register)])
  {
  }

  /** Local time never goes back over a stretch of frames. */
  ghost predicate Monotone(p: Params, scheme: Scheme, nodes: seq<Node>)
    requires p.Ok()
  {
    forall i: nat, j: nat, s: nat, t: nat :: i <= j < |nodes| && s < p.period && t < p.period && (i < j || s <= t) ==>
      NodeTime(p, scheme, nodes[i], s) <= NodeTime(p, scheme, nodes[j], t)
  }

  ghost predicate NoneBelowPeriod(p: Params, scheme: Scheme, nodes: seq<Node>) {
    forall i :: 0 <= i < |nodes| - 1 ==> nodes[i].correction >= -p.period
  }

  /** The time at the start of a later frame is not before any time of an earlier one. */
  lemma {:induction false} LaterFrame(p: Params, scheme: Scheme, nodes: seq<Node>, i: nat, j: nat, s: nat)
    requires p.Ok() && Frames(p, scheme, nodes) && NoneBelowPeriod(p, scheme, nodes)
    requires i < j < |nodes| && s < p.period
    ensures NodeTime(p, scheme, nodes[i], s) <= nodes[j].computed - p.hopDelay
    decreases j - i
  {
    hide LocalTime, Correction;
    if i + 1 < j {
      LaterFrame(p, scheme, nodes, i, j - 1, s);
      assert nodes[j].computed == Expected(p, nodes[j - 1]);
    } else {
      var n := nodes[i];
      FrameMonotone(p, n.computed - p.hopDelay, n.correction, s, p.period);
      FrameEndIff(p, n.computed - p.hopDelay, n.correction);
      assert nodes[i + 1].computed == Expected(p, nodes[i]);
    }
  }

  /** The clock is monotonic over a whole run between two resynchronizations if and only if no correction is
      below minus one period. */
  lemma ClockMonotoneIff(p: Params, scheme: Scheme, nodes: seq<Node>)
    requires p.Ok() && Frames(p, scheme, nodes)
    ensures Monotone(p, scheme, nodes) <==> NoneBelowPeriod(p, scheme, nodes)
  {
    if NoneBelowPeriod(p, scheme, nodes) {
      forall i: nat, j: nat, s: nat, t: nat | i <= j < |nodes| && s < p.period && t < p.period && (i < j || s <= t)
        ensures NodeTime(p, scheme, nodes[i], s) <= NodeTime(p, scheme, nodes[j], t)
      {
        TimesOrdered(p, scheme, nodes, i, j, s, t);
      }
    }
    if Monotone(p, scheme, nodes) {
      forall i | 0 <= i < |nodes| - 1 ensures nodes[i].correction >= -p.period {
        StartsOrdered(p, scheme, nodes, i);
      }
    }
  }

  lemma TimesOrdered(p: Params, scheme: Scheme, nodes: seq<Node>, i: nat, j: nat, s: nat, t: nat)
    requires p.Ok() && Frames(p, scheme, nodes) && NoneBelowPeriod(p, scheme, nodes)
    requires i <= j < |nodes| && s < p.period && t < p.period && (i < j || s <= t)
    ensures NodeTime(p, scheme, nodes[i], s) <= NodeTime(p, scheme, nodes[j], t)
  {
    hide LocalTime, Correction, Valid;
    var n := nodes[j];
    var start, u := n.computed - p.hopDelay, Correction(scheme, n.sync.control);
    if i < j {
      LaterFrame(p, scheme, nodes, i, j, s);
      FrameStart(p, scheme, n);
      FrameMonotone(p, start, u, 0, t);
    } else {
      FrameMonotone(p, start, u, s, t);
    }
  }

  lemma StartsOrdered(p: Params, scheme: Scheme, nodes: seq<Node>, i: nat)
    requires p.Ok() && Frames(p, scheme, nodes) && Monotone(p, scheme, nodes) && i < |nodes| - 1
    ensures nodes[i].correction >= -p.period
  {
    hide NodeTime, Correction, Valid;
    FrameStart(p, scheme, nodes[i]);
    FrameStart(p, scheme, nodes[i + 1]);
    assert NodeTime(p, scheme, nodes[i], 0) <= NodeTime(p, scheme, nodes[i + 1], 0);
    assert nodes[i + 1].computed == Expected(p, nodes[i]);
  }

  lemma FrameStart(p: Params, scheme: Scheme, n: Node)
    requires p.Ok()
    ensures NodeTime(p, scheme, n, 0) == n.computed - p.hopDelay
  {
  }
}
