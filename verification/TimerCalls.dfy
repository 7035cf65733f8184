/**
 Whole calls of the timer: what a synchronization and the ones that follow it do, when an event ends a wait, and that
 a call leaves the timer as it found it.
 */
module TimerCalls {
  import opened TimerSpec

  // ---------------------------------------------------------------- the handler

  /** The handler finds an edge of the low frequency clock it is to synchronize to. */
  predicate Serves(v: Vht) {
    v.rtcCapture.pending && v.rtcCapture.enabled
  }

  lemma HandleSync(r: Rates, v: Vht)
    requires r.Ok()
    ensures var h := Handle(r, v);
            && h.offset == v.offset && h.period == v.period && h.rtcCapture.enabled == v.rtcCapture.enabled
            && (!Serves(v) ==> h.rtcCapture == v.rtcCapture && h.base == v.base && h.syncPoint == v.syncPoint
                               && h.syncRtc == v.syncRtc && h.flags.sync == v.flags.sync
                                  && h.flags.flag == v.flags.flag)
            && (Serves(v) ==> !h.rtcCapture.pending && h.base == ToVht(r, v.syncRtc)
                              && h.syncRtc == v.syncRtc + v.period && !h.flags.flag
                              && h.flags.sync == (v.flags.sync || v.flags.flag))
  {
    RestKeeps(SyncPart(r, v));
    hide Moved, Moves, SoonAfter, Reconstruct, ToVht;
  }

  /** The parts of the handler behind the first one leave synchronization alone. */
  lemma RestKeeps(w: Vht)
    ensures var h := OverflowPart(TriggerPart(EventPart(WaitPart(w))));
            && h.offset == w.offset && h.period == w.period && h.rtcCapture == w.rtcCapture && h.base == w.base
            && h.syncPoint == w.syncPoint && h.syncRtc == w.syncRtc
            && h.flags.sync == w.flags.sync && h.flags.flag == w.flags.flag
  {
    hide Reconstruct, Remaining, TurnOf, Virtual, Cnt;
  }

  lemma HandleEvent(r: Rates, v: Vht)
    requires r.Ok()
    ensures var h, c := Handle(r, v), v.eventCapture;
            && h.eventCapture == c.(pending := c.pending && !c.enabled)
            && h.flags.event == (v.flags.event || (c.pending && c.enabled))
            && ((c.pending && c.enabled) || h.timestamp == v.timestamp)
  {
    hide Moved, Moves, SoonAfter, Reconstruct, Remaining, TurnOf, ToVht, Virtual, Cnt;
  }

  /** A wait ends only by its own flag, and no channel is enabled by the handler. */
  lemma HandleWait(r: Rates, v: Vht)
    requires r.Ok()
    ensures var h := Handle(r, v);
            && h.compare.enabled == v.compare.enabled && (h.output.enabled ==> v.output.enabled)
            && (!v.compare.enabled ==> h.flags.wait == v.flags.wait)
            && (!v.output.enabled ==> h.flags.trigger == v.flags.trigger)
            && !h.uif
  {
    hide Moved, Moves, SoonAfter, Reconstruct, Remaining, TurnOf, ToVht, Virtual, Cnt;
  }

  // ---------------------------------------------------------------- edges

  /** An edge came since the last interrupt, or was pending at the beginning. */
  predicate Pending(before: bool, steps: seq<Step>, edge: Step) {
    if steps == [] then before
    else
      var last := steps[|steps| - 1];
      last == edge || (last != Interrupt && Pending(before, steps[..|steps| - 1], edge))
  }

  /** How many interrupts found an edge. */
  function Found(before: bool, steps: seq<Step>, edge: Step): nat {
    if steps == [] then 0
    else
      var front := steps[..|steps| - 1];
      Found(before, front, edge) + if steps[|steps| - 1] == Interrupt && Pending(before, front, edge) then 1 else 0
  }

  // ---------------------------------------------------------------- synchronization

  /** The RTC time k periods after another one. */
  function After(t: nat, k: nat, period: nat): nat {
    if k == 0 then t else After(t, k - 1, period) + period
  }

  lemma {:induction false} AfterAfter(t: nat, n: nat, m: nat, period: nat)
    ensures After(After(t, n, period), m, period) == After(t, n + m, period)
  {
    if m > 0 {
      AfterAfter(t, n, m - 1, period);
    }
  }

  /** No new synchronization, and the automatic one not ended. */
  predicate Synchronizing(steps: seq<Step>) {
    forall i :: 0 <= i < |steps| ==> !steps[i].Sync? && steps[i] != Synced(false)
  }

  predicate NoSynced(steps: seq<Step>) {
    forall i :: 0 <= i < |steps| ==> !steps[i].Synced?
  }

  /** What a step does to synchronization. */
  lemma SyncStep(r: Rates, v: Vht, s: Step)
    requires r.Ok() && !s.Sync? && s != Synced(false)
    ensures var n, served := Next(r, v, s), s == Interrupt && Serves(v);
            && n.rtcCapture.enabled == v.rtcCapture.enabled && n.period == v.period
            && (v.rtcCapture.enabled ==>
                  n.rtcCapture.pending == (s == EdgeOfRtc || (v.rtcCapture.pending && s != Interrupt)))
            && n.syncRtc == (if served then v.syncRtc + v.period else v.syncRtc)
            && n.base == (if served then ToVht(r, v.syncRtc) else v.base)
            && n.flags.flag == (v.flags.flag && !served)
            && n.flags.sync == ((v.flags.sync || (v.flags.flag && served)) && !s.Synced?)
            && (!served ==> n.syncPoint == v.syncPoint)
  {
    if s == Interrupt {
      HandleSync(r, v);
    } else {
      hide ToVht, Handle;
    }
  }

  /** While the timer is kept synchronized, each edge found by the handler is taken for one a period after the last
      one; the first of them raises the flag the thread waits for, if it does. */
  lemma {:induction false} SyncSeries(r: Rates, v: Vht, steps: seq<Step>)
    requires r.Ok() && v.rtcCapture.enabled && Synchronizing(steps)
    ensures var e, n := Run(r, v, steps), Found(v.rtcCapture.pending, steps, EdgeOfRtc);
            && e.rtcCapture.enabled && e.rtcCapture.pending == Pending(v.rtcCapture.pending, steps, EdgeOfRtc)
            && e.period == v.period && e.syncRtc == After(v.syncRtc, n, v.period)
            && (n > 0 ==> e.base == ToVht(r, After(v.syncRtc, n - 1, v.period)))
            && (n == 0 ==> e.base == v.base && e.syncPoint == v.syncPoint)
            && e.flags.flag == (v.flags.flag && n == 0)
            && (NoSynced(steps) ==> e.flags.sync == (v.flags.sync || (v.flags.flag && n > 0)))
            && (!v.flags.sync && !v.flags.flag ==> !e.flags.sync)
  {
    hide Next, ToVht;
    if steps != [] {
      var front := steps[..|steps| - 1];
      SyncSeries(r, v, front);
      SyncStep(r, Run(r, v, front), steps[|steps| - 1]);
    }
  }

  /** Without synchronization the timer runs on as it is. */
  lemma {:induction false} Unsynchronized(r: Rates, v: Vht, steps: seq<Step>)
    requires r.Ok() && !v.rtcCapture.enabled && forall i :: 0 <= i < |steps| ==> !steps[i].Sync?
    ensures var e := Run(r, v, steps);
            && !e.rtcCapture.enabled && e.base == v.base && e.syncPoint == v.syncPoint && e.syncRtc == v.syncRtc
            && e.flags.flag == v.flags.flag && (e.flags.sync ==> v.flags.sync)
  {
    hide Next, ToVht;
    if steps != [] {
      var front, last := steps[..|steps| - 1], steps[|steps| - 1];
      Unsynchronized(r, v, front);
      if last == Synced(false) {
        LastSynced(r, Run(r, v, front), false);
      } else {
        SyncStep(r, Run(r, v, front), last);
      }
    }
  }

  lemma LastSynced(r: Rates, v: Vht, autoSync: bool)
    requires r.Ok()
    ensures var n := Next(r, v, Synced(autoSync));
            && n.rtcCapture == v.rtcCapture.(enabled := v.rtcCapture.enabled && autoSync) && !n.flags.sync
            && n.flags.flag == v.flags.flag && n.base == v.base && n.syncPoint == v.syncPoint
            && n.syncRtc == v.syncRtc && n.period == v.period
  {
  }

  /** syncWithRtc, called at RTC time rtc: it returns after the first edge found, which is taken for rtc + 2; from then
      on, with automatic synchronization, each edge found is taken for one period later than the one before, and
      without it the timer stays synchronized to that edge. */
  lemma SyncCall(r: Rates, v: Vht, rtc: nat, steps: seq<Step>, autoSync: bool, later: seq<Step>)
    requires r.Ok() && Synchronizing(steps) && NoSynced(steps) && Synchronizing(later)
    ensures var e, n := Run(r, StartSync(v, rtc), steps), Found(false, steps, EdgeOfRtc);
            var m := if autoSync then Found(Pending(false, steps, EdgeOfRtc), later, EdgeOfRtc) else 0;
            var l := Run(r, Next(r, e, Synced(autoSync)), later);
            && (e.flags.sync <==> n > 0) && (n == 0 ==> e.base == v.base && e.syncPoint == v.syncPoint)
            && (n > 0 ==> !l.flags.sync && l.rtcCapture.enabled == autoSync
                          && l.syncRtc == After(rtc + 2, n + m, v.period)
                          && l.base == ToVht(r, After(rtc + 2, n + m - 1, v.period))
                          && (m == 0 ==> l.syncPoint == e.syncPoint))
  {
    hide Next, ToVht, Run, StartSync, Found, Pending;
    Starts(r, v, rtc);
    SyncSeries(r, StartSync(v, rtc), steps);
    var e, n := Run(r, StartSync(v, rtc), steps), Found(false, steps, EdgeOfRtc);
    if n > 0 {
      AfterSync(r, e, autoSync, later);
      var m := if autoSync then Found(Pending(false, steps, EdgeOfRtc), later, EdgeOfRtc) else 0;
      AfterAfter(rtc + 2, n, m, v.period);
      if m > 0 {
        AfterAfter(rtc + 2, n, m - 1, v.period);
      }
    }
  }

  lemma Starts(r: Rates, v: Vht, rtc: nat)
    requires r.Ok()
    ensures var b := StartSync(v, rtc);
            && b.rtcCapture.enabled && !b.rtcCapture.pending && b.syncRtc == rtc + 2 && b.period == v.period
            && b.base == v.base && b.syncPoint == v.syncPoint && b.flags.flag && !b.flags.sync
  {
  }

  lemma AfterSync(r: Rates, e: Vht, autoSync: bool, later: seq<Step>)
    requires r.Ok() && e.rtcCapture.enabled && !e.flags.flag && Synchronizing(later)
    ensures var l := Run(r, Next(r, e, Synced(autoSync)), later);
            var m := if autoSync then Found(e.rtcCapture.pending, later, EdgeOfRtc) else 0;
            && !l.flags.sync && l.rtcCapture.enabled == autoSync && l.syncRtc == After(e.syncRtc, m, e.period)
            && (m > 0 ==> l.base == ToVht(r, After(e.syncRtc, m - 1, e.period)))
            && (m == 0 ==> l.base == e.base && l.syncPoint == e.syncPoint)
  {
    hide Next, ToVht, Run, Found, Pending;
    LastSynced(r, e, autoSync);
    if autoSync {
      SyncSeries(r, Next(r, e, Synced(autoSync)), later);
    } else {
      Unsynchronized(r, Next(r, e, Synced(autoSync)), later);
    }
  }

  /** Neither interrupts nor edges of that clock, and nobody begins or ends a synchronization. */
  predicate Quiet(steps: seq<Step>) {
    forall i :: 0 <= i < |steps| ==>
      !steps[i].Sync? && !steps[i].Synced? && steps[i] != Interrupt && steps[i] != EdgeOfRtc
  }

  lemma {:induction false} EdgeKept(r: Rates, v: Vht, steps: seq<Step>)
    requires r.Ok() && Timed(v) && PromptRun(r, v, steps) && NotMissed(v) && Quiet(steps)
    ensures var e := Run(r, v, steps);
            Timed(e) && e.rtcCapture == v.rtcCapture && e.syncRtc == v.syncRtc && e.now >= v.now
  {
    RunTimed(r, v, steps);
    hide Timed, NotMissed, Prompt, Next;
    if steps != [] {
      PrefixRuns(r, v, steps);
      EdgeKept(r, v, steps[..|steps| - 1]);
      QuietStep(r, Run(r, v, steps[..|steps| - 1]), steps[|steps| - 1]);
    }
  }

  lemma QuietStep(r: Rates, v: Vht, s: Step)
    requires r.Ok() && s != Interrupt
    ensures var n := Next(r, v, s);
            && n.now >= v.now
            && (!s.Sync? && !s.Synced? && s != EdgeOfRtc ==> n.rtcCapture == v.rtcCapture && n.syncRtc == v.syncRtc)
            && (!s.Wait? && !s.Done? && s != EdgeOfEvent ==> n.eventCapture == v.eventCapture)
  {
    hide Virtual, Signed, TurnOf, Target, Waits;
  }

  lemma EdgesCaptured(v: Vht)
    requires Timed(v) && NotMissed(v)
    ensures var b := RtcEdge(v);
            && Timed(b) && NotMissed(b) && b.rtcCapture == Capture(true, v.rtcCapture.enabled, Cnt(v), v.now)
            && b.now == v.now && b.syncRtc == v.syncRtc
    ensures var b := ExtEdge(v);
            && Timed(b) && NotMissed(b) && b.eventCapture == Capture(true, v.eventCapture.enabled, Cnt(v), v.now)
            && b.now == v.now
  {
  }

  /** An edge at which the timer is synchronized: once the handler ran, the timer shows the RTC time of the edge,
      converted, at that edge, if and only if the handler came less than one turn of the counter later. */
  lemma SyncedToEdgeIff(r: Rates, v: Vht, steps: seq<Step>)
    requires r.Ok() && Timed(v) && NotMissed(v) && v.rtcCapture.enabled
    requires PromptRun(r, RtcEdge(v), steps) && Quiet(steps)
    ensures var e := Run(r, RtcEdge(v), steps);
            Virtual(Handle(r, e), v.now) == Unsigned(ToVht(r, v.syncRtc) + e.offset) <==> e.now - v.now < TURN
  {
    hide *;
    EdgesCaptured(v);
    EdgeKept(r, RtcEdge(v), steps);
    SyncExactIff(r, Run(r, RtcEdge(v), steps));
  }

  // ---------------------------------------------------------------- events

  /** The wait is not over, and nobody else waits. */
  predicate Waiting(steps: seq<Step>) {
    forall i :: 0 <= i < |steps| ==>
      !steps[i].Wait? && !steps[i].Done? && !steps[i].Trigger? && !steps[i].Triggered?
  }

  lemma EventStep(r: Rates, v: Vht, s: Step)
    requires r.Ok() && !s.Wait? && !s.Done?
    ensures var n, c := Next(r, v, s), v.eventCapture;
            && n.eventCapture.enabled == c.enabled
            && (c.enabled ==> n.eventCapture.pending == (s == EdgeOfEvent || (c.pending && s != Interrupt)))
            && n.flags.event == (v.flags.event || (s == Interrupt && c.pending && c.enabled))
            && ((s == Interrupt && c.pending && c.enabled) || n.timestamp == v.timestamp)
  {
    if s == Interrupt {
      HandleEvent(r, v);
    } else {
      hide ToVht, Handle;
    }
  }

  /** The flag for an event is raised by the first interrupt after an edge of it, and by nothing else. */
  lemma {:induction false} EventSeries(r: Rates, v: Vht, steps: seq<Step>)
    requires r.Ok() && Waiting(steps)
    ensures var e, n := Run(r, v, steps), Found(v.eventCapture.pending, steps, EdgeOfEvent);
            && e.eventCapture.enabled == v.eventCapture.enabled
            && (v.eventCapture.enabled ==>
                  e.eventCapture.pending == Pending(v.eventCapture.pending, steps, EdgeOfEvent))
            && e.flags.event == (v.flags.event || (v.eventCapture.enabled && n > 0))
            && (n == 0 || !v.eventCapture.enabled ==> e.timestamp == v.timestamp)
  {
    hide Next;
    if steps != [] {
      EventSeries(r, v, steps[..|steps| - 1]);
      EventStep(r, Run(r, v, steps[..|steps| - 1]), steps[|steps| - 1]);
    }
  }

  /** The thread waits: its time is still to come, or it waits for an event alone. */
  predicate Blocks(v: Vht, value: nat, orEvent: bool) {
    Waits(v, value) || (orEvent && value == 0)
  }

  /** A wait for a time or an event sees exactly the events whose edge comes after it began; a wait for a time sees
      none. */
  lemma EventSeenIff(r: Rates, v: Vht, value: nat, orEvent: bool, steps: seq<Step>)
    requires r.Ok() && Waiting(steps) && Blocks(v, value, orEvent)
    requires !orEvent ==> !v.eventCapture.enabled && !v.flags.event
    ensures var e := Run(r, Arm(v, value, orEvent), steps);
            e.flags.event <==> orEvent && Found(false, steps, EdgeOfEvent) > 0
  {
    hide Run, Found;
    EventSeries(r, Arm(v, value, orEvent), steps);
  }

  /** Neither interrupts nor edges of the event, and the wait goes on. */
  predicate QuietForEvent(steps: seq<Step>) {
    Waiting(steps) && forall i :: 0 <= i < |steps| ==> steps[i] != Interrupt && steps[i] != EdgeOfEvent
  }

  lemma {:induction false} EventKept(r: Rates, v: Vht, steps: seq<Step>)
    requires r.Ok() && Timed(v) && PromptRun(r, v, steps) && NotMissed(v) && QuietForEvent(steps)
    ensures var e := Run(r, v, steps); Timed(e) && e.eventCapture == v.eventCapture && e.now >= v.now
  {
    RunTimed(r, v, steps);
    hide Timed, NotMissed, Prompt, Next;
    if steps != [] {
      PrefixRuns(r, v, steps);
      EventKept(r, v, steps[..|steps| - 1]);
      QuietStep(r, Run(r, v, steps[..|steps| - 1]), steps[|steps| - 1]);
    }
  }

  /** The time stamp of an event that is waited for is the timer's value at its edge if and only if the handler came
      less than one turn of the counter after it. */
  lemma EventStampedIff(r: Rates, v: Vht, steps: seq<Step>)
    requires r.Ok() && Timed(v) && NotMissed(v) && v.eventCapture.enabled
    requires PromptRun(r, ExtEdge(v), steps) && QuietForEvent(steps)
    ensures var e := Run(r, ExtEdge(v), steps);
            var h := Handle(r, e);
            h.flags.event && (h.timestamp == Virtual(h, v.now) <==> e.now - v.now < TURN)
  {
    hide *;
    EdgesCaptured(v);
    EventKept(r, ExtEdge(v), steps);
    EventExactIff(r, Run(r, ExtEdge(v), steps));
  }

  /** A wait for a time or an event that an event comes to is not taken for one that ran out if the timer showed no
      later time at the event's edge than the one waited for, and otherwise if and only if the time came too. */
  lemma EventOrTime(r: Rates, v: Vht, steps: seq<Step>, later: seq<Step>, value: nat)
    requires r.Ok() && Timed(v) && NotMissed(v) && v.eventCapture.enabled && value > 0
    requires PromptRun(r, ExtEdge(v), steps) && QuietForEvent(steps) && Run(r, ExtEdge(v), steps).now - v.now < TURN
    requires Waiting(later) && EdgeOfEvent !in later
    ensures var h := Handle(r, Run(r, ExtEdge(v), steps));
            var l := Run(r, h, later);
            TimedOut(l, value) <==> l.flags.wait && Virtual(h, v.now) > value
  {
    hide Timed, NotMissed, Virtual, Handle, ExtEdge, PromptRun, QuietForEvent, Run, Found, Pending;
    var e := Run(r, ExtEdge(v), steps);
    EventStampedIff(r, v, steps);
    EdgeServed(r, v, steps);
    EventSeries(r, Handle(r, e), later);
    NoneFound(later, EdgeOfEvent);
  }

  lemma EdgeServed(r: Rates, v: Vht, steps: seq<Step>)
    requires r.Ok() && Timed(v) && NotMissed(v) && v.eventCapture.enabled
    requires PromptRun(r, ExtEdge(v), steps) && QuietForEvent(steps)
    ensures var h := Handle(r, Run(r, ExtEdge(v), steps)); h.eventCapture.enabled && !h.eventCapture.pending
  {
    hide *;
    EdgesCaptured(v);
    EventKept(r, ExtEdge(v), steps);
    HandleEvent(r, Run(r, ExtEdge(v), steps));
  }

  lemma {:induction false} NoneFound(steps: seq<Step>, edge: Step)
    requires edge !in steps && edge != Interrupt
    ensures Found(false, steps, edge) == 0 && !Pending(false, steps, edge)
  {
    if steps != [] {
      NoneFound(steps[..|steps| - 1], edge);
    }
  }

  // ---------------------------------------------------------------- what a call leaves

  /** No call waits: no channel that ends one is enabled, and none of their flags is up. */
  predicate Idle(v: Vht) {
    && !v.compare.enabled && !v.eventCapture.enabled && !v.output.enabled
    && !v.flags.wait && !v.flags.event && !v.flags.trigger
  }

  lemma WaitStep(r: Rates, v: Vht, s: Step)
    requires r.Ok() && !s.Wait? && !s.Done? && !s.Trigger? && !s.Triggered?
    ensures var n := Next(r, v, s);
            && n.compare.enabled == v.compare.enabled && (n.output.enabled ==> v.output.enabled)
            && (!v.compare.enabled ==> n.flags.wait == v.flags.wait)
            && (!v.output.enabled ==> n.flags.trigger == v.flags.trigger)
  {
    if s == Interrupt {
      HandleWait(r, v);
    } else {
      hide ToVht, Handle;
    }
  }

  lemma {:induction false} WaitSeries(r: Rates, v: Vht, steps: seq<Step>)
    requires r.Ok() && Waiting(steps)
    ensures var e := Run(r, v, steps);
            && e.compare.enabled == v.compare.enabled && (e.output.enabled ==> v.output.enabled)
            && (!v.compare.enabled ==> e.flags.wait == v.flags.wait)
            && (!v.output.enabled ==> e.flags.trigger == v.flags.trigger)
  {
    hide Next;
    if steps != [] {
      WaitSeries(r, v, steps[..|steps| - 1]);
      WaitStep(r, Run(r, v, steps[..|steps| - 1]), steps[|steps| - 1]);
    }
  }

  /** A wait leaves the timer idle, whatever happens during it, and at once if it does not wait. */
  lemma WaitLeavesIdle(r: Rates, v: Vht, value: nat, orEvent: bool, steps: seq<Step>)
    requires r.Ok() && Idle(v) && Waiting(steps)
    ensures Blocks(v, value, orEvent) ==> Idle(Disarm(Run(r, Arm(v, value, orEvent), steps), orEvent))
    ensures !Blocks(v, value, orEvent) ==> Idle(Arm(v, value, orEvent))
  {
    hide Run, Waits;
    EventSeries(r, Arm(v, value, orEvent), steps);
    WaitSeries(r, Arm(v, value, orEvent), steps);
  }

  /** A wait for a time leaves the event channel as it was, and its flag to whom it is for. */
  lemma TimeOnly(r: Rates, v: Vht, value: nat, steps: seq<Step>)
    requires r.Ok() && Waiting(steps)
    ensures var e := Disarm(Run(r, Arm(v, value, false), steps), false);
            && e.eventCapture.enabled == v.eventCapture.enabled
            && e.flags.event ==
               (v.flags.event || (v.eventCapture.enabled && Found(v.eventCapture.pending, steps, EdgeOfEvent) > 0))
  {
    hide Run, Waits, Found;
    EventSeries(r, Arm(v, value, false), steps);
  }

  /** So does a call that waits for the pin, once its channel is disabled. */
  lemma FireLeavesIdle(r: Rates, v: Vht, value: nat, steps: seq<Step>)
    requires r.Ok() && Idle(v) && Waiting(steps) && !Run(r, Fire(v, value), steps).output.enabled
    ensures Idle(EndFire(Run(r, Fire(v, value), steps)))
  {
    hide Run, Signed, SoonAfter;
    EventSeries(r, Fire(v, value), steps);
    WaitSeries(r, Fire(v, value), steps);
  }

  /** A timer that was just started shows 0, is not synchronized, and nobody waits. */
  lemma StartedIdle(period: nat)
    ensures var v := Started(period);
            Idle(v) && GetValue(v) == 0 && !v.rtcCapture.enabled && !v.flags.sync && !v.flags.flag && v.period == period
  {
  }

  /** One interrupt in every turn of the counter is enough: after it a whole turn of increments is prompt. */
  lemma TurnPrompt(r: Rates, v: Vht, steps: seq<Step>)
    requires r.Ok() && forall i :: 0 <= i < |steps| ==> steps[i] == Increment
    requires |steps| <= TURN && v.now + TURN < U64 / 2
    ensures PromptRun(r, Handle(r, v), steps) && Run(r, Handle(r, v), steps).now == v.now + |steps|
  {
    HandleWait(r, v);
    HandleNow(r, v);
    hide Handle, PromptRun, Run;
    Increments(r, Handle(r, v), steps);
  }

  lemma HandleNow(r: Rates, v: Vht)
    requires r.Ok()
    ensures Handle(r, v).now == v.now
  {
    hide Moved, Moves, SoonAfter, Reconstruct, Remaining, TurnOf, ToVht, Virtual, Cnt;
  }

  lemma {:induction false} Increments(r: Rates, h: Vht, steps: seq<Step>)
    requires r.Ok() && forall i :: 0 <= i < |steps| ==> steps[i] == Increment
    requires |steps| <= TURN && h.now + TURN < U64 / 2 && !h.uif
    ensures var e := Run(r, h, steps);
            PromptRun(r, h, steps) && e.now == h.now + |steps| && (e.uif ==> Cnt(e) < |steps|)
  {
    if steps != [] {
      var n := |steps| - 1;
      var front := steps[..n];
      Increments(r, h, front);
      OneIncrement(r, Run(r, h, front), n);
      hide Next, Cnt;
      assert forall i :: 0 <= i < n ==> front[..i] == steps[..i];
    }
  }

  lemma OneIncrement(r: Rates, e: Vht, n: nat)
    requires r.Ok() && n < TURN && (e.uif ==> Cnt(e) < n)
    ensures var t := Next(r, e, Increment);
            Prompt(e, Increment) && t.now == e.now + 1 && (t.uif ==> Cnt(t) < n + 1)
  {
  }
}
