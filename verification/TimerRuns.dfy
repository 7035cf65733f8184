/**
 Runs of the timer of the boards from its start.  The constructor synchronizes it before anybody can call it; 20 ticks
 of the low frequency clock are 29296 or 29297 increments.
 */
module TimerRuns {
  import opened TimerSpec
  import opened TimerPin
  import opened Wrappers

  const BOARD := Rates(24_000_000, 16_384)

  // ---------------------------------------------------------------- runs in pieces

  /** A run in which interrupts are prompt, and where it leads. */
  ghost predicate RunsTo(v: Vht, steps: seq<Step>, w: Vht) {
    PromptRun(BOARD, v, steps) && Run(BOARD, v, steps) == w
  }

  lemma {:induction false} RunConcat(v: Vht, a: seq<Step>, b: seq<Step>)
    ensures Run(BOARD, v, a + b) == Run(BOARD, Run(BOARD, v, a), b)
  {
    hide Next;
    if b == [] {
      assert a + b == a;
    } else {
      var n := |b| - 1;
      assert (a + b)[..|a| + n] == a + b[..n];
      RunConcat(v, a, b[..n]);
    }
  }

  lemma PromptAt(v: Vht, steps: seq<Step>, i: nat)
    requires PromptRun(BOARD, v, steps) && i < |steps|
    ensures Prompt(Run(BOARD, v, steps[..i]), steps[i]) && Run(BOARD, v, steps[..i]).now < U64 / 2
  {
    hide Run, Prompt;
  }

  lemma PromptConcatAt(v: Vht, a: seq<Step>, b: seq<Step>, i: nat)
    requires PromptRun(BOARD, v, a) && PromptRun(BOARD, Run(BOARD, v, a), b) && i < |a + b|
    ensures Prompt(Run(BOARD, v, (a + b)[..i]), (a + b)[i]) && Run(BOARD, v, (a + b)[..i]).now < U64 / 2
  {
    hide Run, Prompt, PromptRun;
    if i < |a| {
      assert (a + b)[..i] == a[..i];
      PromptAt(v, a, i);
    } else {
      var j := i - |a|;
      assert (a + b)[..i] == a + b[..j];
      RunConcat(v, a, b[..j]);
      PromptAt(Run(BOARD, v, a), b, j);
    }
  }

  lemma RunsOn(v: Vht, a: seq<Step>, w: Vht, b: seq<Step>, x: Vht)
    requires RunsTo(v, a, w) && RunsTo(w, b, x)
    ensures RunsTo(v, a + b, x)
  {
    hide Run, Prompt;
    RunConcat(v, a, b);
    forall i | 0 <= i < |a + b|
      ensures Prompt(Run(BOARD, v, (a + b)[..i]), (a + b)[i]) && Run(BOARD, v, (a + b)[..i]).now < U64 / 2
    {
      PromptConcatAt(v, a, b, i);
    }
  }

  lemma RunsOne(v: Vht, s: Step)
    requires Prompt(v, s) && v.now < U64 / 2
    ensures RunsTo(v, [s], Next(BOARD, v, s))
  {
    hide Next;
    assert [s][..0] == [];
    assert Run(BOARD, v, []) == v;
  }

  function Increments(n: nat): (steps: seq<Step>)
    ensures |steps| == n
  {
    seq(n, _ => Increment)
  }

  /** The counter n increments later in the same turn: it passes each of the compare registers at most once. */
  function Counted(v: Vht, n: nat): Vht {
    var turn := TurnOf(v.now);
    v.(now := v.now + n,
       compare := if Cnt(v) < v.compare.ccr <= Cnt(v) + n
                  then v.compare.(pending := true, match_ := turn + v.compare.ccr) else v.compare,
       output := if Cnt(v) < v.output.ccr <= Cnt(v) + n then Match(v.output, turn + v.output.ccr) else v.output)
  }

  lemma TickCounted(v: Vht, n: nat)
    requires Cnt(v) + n + 1 < TURN
    ensures Tick(Counted(v, n)) == Counted(v, n + 1) && (Counted(v, n).now + 1) % TURN != 0
  {
    assert (v.now + n + 1) % TURN == Cnt(v) + n + 1;
  }

  lemma {:induction false} RunsCount(v: Vht, n: nat)
    requires Cnt(v) + n < TURN && v.now + n < U64 / 2
    ensures RunsTo(v, Increments(n), Counted(v, n))
  {
    if n == 0 {
      assert Counted(v, 0) == v;
    } else {
      hide RunsTo, Counted, Tick;
      assert Increments(n) == Increments(n - 1) + [Increment];
      RunsCount(v, n - 1);
      TickCounted(v, n - 1);
      CountedNow(v, n - 1);
      RunsOne(Counted(v, n - 1), Increment);
      RunsOn(v, Increments(n - 1), Counted(v, n - 1), [Increment], Counted(v, n));
    }
  }

  lemma CountedNow(v: Vht, n: nat)
    ensures Counted(v, n).now == v.now + n
  {
  }

  /** A run goes on with increments in the same turn. */
  lemma ThenCount(v: Vht, steps: seq<Step>, w: Vht, n: nat)
    requires RunsTo(v, steps, w) && Cnt(w) + n < TURN && w.now + n < U64 / 2
    ensures RunsTo(v, steps + Increments(n), Counted(w, n))
  {
    hide RunsTo, Counted;
    RunsCount(w, n);
    RunsOn(v, steps, w, Increments(n), Counted(w, n));
  }

  lemma ThenDo(v: Vht, steps: seq<Step>, w: Vht, s: Step)
    requires RunsTo(v, steps, w) && Prompt(w, s) && w.now < U64 / 2
    ensures RunsTo(v, steps + [s], Next(BOARD, w, s))
  {
    hide RunsTo, Next, Prompt;
    RunsOne(w, s);
    RunsOn(v, steps, w, [s], Next(BOARD, w, s));
  }

  // ---------------------------------------------------------------- the first synchronization

  /** The constructor calls syncWithRtc, which ends at the edge two ticks of the low frequency clock later. */
  function FirstSync(before: nat, rtc: nat, between: nat, autoSync: bool): seq<Step> {
    Increments(before) + [Sync(rtc)] + Increments(between) + [EdgeOfRtc] + [Interrupt] + [Synced(autoSync)]
  }

  function Synchronized(t: nat, rtc: nat, autoSync: bool): Vht {
    Started(20).(now := t, rtcCapture := Capture(false, autoSync, t, t),
                 base := ToVht(BOARD, rtc + 2), syncPoint := t, syncRtc := rtc + 22)
  }

  lemma FirstSyncIs(before: nat, rtc: nat, between: nat, autoSync: bool)
    requires before + between < TURN
    ensures RunsTo(Started(20), FirstSync(before, rtc, between, autoSync),
                   Synchronized(before + between, rtc, autoSync))
  {
    hide RunsTo, ToVht;
    var v, t := Started(20), before + between;
    var s := Increments(before);
    RunsCount(v, before);
    var w := v.(now := before);
    ThenDo(v, s, w, Sync(rtc));
    s, w := s + [Sync(rtc)], StartSync(w, rtc);
    ThenCount(v, s, w, between);
    s, w := s + Increments(between), w.(now := t);
    ThenDo(v, s, w, EdgeOfRtc);
    s, w := s + [EdgeOfRtc], RtcEdge(w);
    ThenDo(v, s, w, Interrupt);
    ThenDo(v, s + [Interrupt], Handle(BOARD, w), Synced(autoSync));
    FirstHandled(w);
  }

  lemma FirstHandled(w: Vht)
    requires w.now < TURN && w == Started(20).(now := w.now, rtcCapture := Capture(true, true, w.now, w.now),
                                               syncRtc := w.syncRtc, flags := Flags(false, false, false, true, false))
    ensures Handle(BOARD, w) ==
            Started(20).(now := w.now, rtcCapture := Capture(false, true, w.now, w.now),
                         base := ToVht(BOARD, w.syncRtc), syncPoint := w.now, syncRtc := w.syncRtc + 20,
                         flags := Flags(false, false, true, false, false))
  {
    hide ToVht;
  }

  // ---------------------------------------------------------------- a synchronization that ends a call early

  /** After a synchronization at 36243 a call begins; the overflow at 65536 is served, the next edge comes at 65538, two
      increments early, and the handler runs at 65540. */
  function ToSecondEdge(begin: Step): seq<Step> {
    FirstSync(34_000, 23, 2_243, true) + [begin] + Increments(29_292) + [Increment] + [Interrupt] + Increments(2)
    + [EdgeOfRtc] + Increments(2)
  }

  /** What becomes of the state a in which the call waits, when the low bits of its deadline are at most 1. */
  function AtSecondEdge(a: Vht): Vht {
    a.(now := 65_540, overflows := TURN, rtcCapture := Capture(true, true, 2, 65_538),
       compare := a.compare.(pending := true, match_ := TURN + a.compare.ccr),
       output := Match(a.output, TURN + a.output.ccr))
  }

  lemma ToSecondEdgeIs(begin: Step, a: Vht)
    requires Prompt(Synchronized(36_243, 23, true), begin) && a == Next(BOARD, Synchronized(36_243, 23, true), begin)
    requires begin.Wait? || begin.Trigger?
    requires a.compare.ccr <= 1 && (a.compare.enabled ==> a.compare.ccr == 1 && !a.compare.pending)
    requires a.output.ccr <= 1 && (a.output.enabled ==> a.output.ccr == 1 && !a.output.pending) && !a.output.onMatch
    ensures RunsTo(Started(20), ToSecondEdge(begin), AtSecondEdge(a))
  {
    hide RunsTo, ToVht, Next, Prompt, FirstSync;
    var v, s := Started(20), FirstSync(34_000, 23, 2_243, true);
    BeginKeeps(Synchronized(36_243, 23, true), begin);
    FirstSyncIs(34_000, 23, 2_243, true);
    ThenDo(v, s, Synchronized(36_243, 23, true), begin);
    OverEdge(v, s + [begin], a);
  }

  lemma BeginKeeps(v: Vht, begin: Step)
    requires begin.Wait? || begin.Trigger?
    ensures var a := Next(BOARD, v, begin);
            && a.now == v.now && a.uif == v.uif && a.overflows == v.overflows && a.rtcCapture == v.rtcCapture
            && (a.eventCapture.pending ==> v.eventCapture.pending)
  {
    hide Signed, Unsigned, SoonAfter;
  }

  lemma OverEdge(v: Vht, steps: seq<Step>, a: Vht)
    requires RunsTo(v, steps, a) && a.now == 36_243 && !a.uif && a.overflows == 0
    requires a.rtcCapture == Capture(false, true, 36_243, 36_243)
    requires a.compare.ccr <= 1 && (a.compare.enabled ==> a.compare.ccr == 1 && !a.compare.pending)
    requires a.output.ccr <= 1 && (a.output.enabled ==> a.output.ccr == 1 && !a.output.pending) && !a.output.onMatch
    requires !(a.eventCapture.pending && a.eventCapture.enabled)
    ensures RunsTo(v, steps + Increments(29_292) + [Increment] + [Interrupt] + Increments(2) + [EdgeOfRtc]
                      + Increments(2), AtSecondEdge(a))
  {
    hide RunsTo, Tick, Counted, Quiet, OverflowPart;
    PassedLow(a);
    var s, w := steps, a;
    ThenCount(v, s, w, 29_292);
    s, w := s + Increments(29_292), CountedTo(w, 65_535);
    ThenTurn(v, s, w);
    s, w := s + [Increment] + [Interrupt], OverflowPart(Tick(w));
    ThenCount(v, s, w, 2);
    s, w := s + Increments(2), Counted(w, 2);
    ThenDo(v, s, w, EdgeOfRtc);
    NextEdge(w);
    s, w := s + [EdgeOfRtc], RtcEdge(w);
    ThenCount(v, s, w, 2);
  }

  lemma PassedLow(a: Vht)
    requires a.now == 36_243 && !a.uif && a.overflows == 0 && a.rtcCapture == Capture(false, true, 36_243, 36_243)
    requires a.compare.ccr <= 1 && (a.compare.enabled ==> a.compare.ccr == 1 && !a.compare.pending)
    requires a.output.ccr <= 1 && (a.output.enabled ==> a.output.ccr == 1 && !a.output.pending) && !a.output.onMatch
    requires !(a.eventCapture.pending && a.eventCapture.enabled)
    ensures Counted(a, 29_292) == CountedTo(a, 65_535) && Quiet(Tick(CountedTo(a, 65_535)))
    ensures var u := OverflowPart(Tick(CountedTo(a, 65_535)));
            var w := Counted(u, 2);
            u.now == 65_536 && w.now == 65_538 && Counted(RtcEdge(w), 2) == AtSecondEdge(a)
  {
  }

  function CountedTo(v: Vht, now: nat): Vht {
    v.(now := now)
  }

  lemma NextEdge(v: Vht)
    ensures Next(BOARD, v, EdgeOfRtc) == RtcEdge(v)
  {
  }

  /** No interrupt but that of an overflow is to be served. */
  predicate Quiet(v: Vht) {
    && !(v.rtcCapture.pending && v.rtcCapture.enabled) && !(v.eventCapture.pending && v.eventCapture.enabled)
    && !(v.compare.pending && v.compare.enabled) && !(v.output.pending && v.output.enabled)
  }

  lemma QuietHandle(v: Vht)
    requires Quiet(v)
    ensures Handle(BOARD, v) == OverflowPart(v)
  {
    hide ToVht;
  }

  /** A run goes on with the overflow, which is served at once. */
  lemma ThenTurn(v: Vht, steps: seq<Step>, w: Vht)
    requires RunsTo(v, steps, w) && !w.uif && w.now < U64 / 4 && Quiet(Tick(w))
    ensures RunsTo(v, steps + [Increment] + [Interrupt], OverflowPart(Tick(w)))
  {
    hide RunsTo, Handle, Quiet, OverflowPart;
    ThenDo(v, steps, w, Increment);
    assert Next(BOARD, w, Increment) == Tick(w);
    ThenDo(v, steps + [Increment], Tick(w), Interrupt);
    QuietHandle(Tick(w));
  }

  /** A wait that ends 65531 increments early: its deadline is 131073, the match of its low bits at 65537 is pending,
      the synchronization brings the deadline back to 131071, into this turn, and the same interrupt ends the wait. */
  lemma EarlyExample()
    ensures var steps := ToSecondEdge(Wait(131_451, false)) + [Interrupt];
            var h := Run(BOARD, Started(20), steps);
            && PromptRun(BOARD, Started(20), steps)
            && h.flags.wait && h.now == 65_540 && h.wakeup == 131_071
            && !NeverEarly(BOARD, Started(20), steps) && !NeverBroughtBack(BOARD, Started(20), steps)
  {
    hide RunsTo, Next, Prompt, Timed, NotMissed, NeverBroughtBack, PromptRun, Run, ToSecondEdge;
    var v, steps := Started(20), ToSecondEdge(Wait(131_451, false)) + [Interrupt];
    var h := EarlyRun();
    RunsToIs(v, steps, h);
    assert steps[..|steps|] == steps;
    StartedOk(20);
    NeverEarlyIff(BOARD, v, steps);
  }

  lemma EarlyRun() returns (h: Vht)
    ensures RunsTo(Started(20), ToSecondEdge(Wait(131_451, false)) + [Interrupt], h)
    ensures h.flags.wait && h.now == 65_540 && h.wakeup == 131_071
  {
    hide RunsTo, Handle, Next, ToSecondEdge, Arm, AtSecondEdge;
    var a := Arm(Synchronized(36_243, 23, true), 131_451, false);
    EarlyArmed();
    ToSecondEdgeIs(Wait(131_451, false), a);
    EarlyServed(AtSecondEdge(a));
    ThenInterrupt(Started(20), ToSecondEdge(Wait(131_451, false)), AtSecondEdge(a));
    h := Handle(BOARD, AtSecondEdge(a));
  }

  lemma RunsToIs(v: Vht, steps: seq<Step>, w: Vht)
    requires RunsTo(v, steps, w)
    ensures PromptRun(BOARD, v, steps) && Run(BOARD, v, steps) == w
  {
    hide PromptRun, Run;
  }

  lemma ThenInterrupt(v: Vht, steps: seq<Step>, w: Vht)
    requires RunsTo(v, steps, w) && w.now < U64 / 2
    ensures RunsTo(v, steps + [Interrupt], Handle(BOARD, w))
  {
    hide RunsTo, Handle;
    ThenDo(v, steps, w, Interrupt);
  }

  lemma EarlyArmed()
    ensures var v := Synchronized(36_243, 23, true);
            Arm(v, 131_451, false) ==
            v.(wakeup := 131_073, compare := Compare(false, true, 1, 0))
    ensures Next(BOARD, Synchronized(36_243, 23, true), Wait(131_451, false)) ==
            Arm(Synchronized(36_243, 23, true), 131_451, false)
  {
    assert ToVht(BOARD, 25) == 36_621;
  }

  lemma EarlyServed(w: Vht)
    requires w == AtSecondEdge(Synchronized(36_243, 23, true).(
                                 wakeup := 131_073, compare := Compare(false, true, 1, 0)))
    ensures var h := Handle(BOARD, w); h.flags.wait && h.now == 65_540 && h.wakeup == 131_071
    ensures w.now == 65_540
  {
    assert ToVht(BOARD, 25) == 36_621 && ToVht(BOARD, 45) == 65_918;
    assert SyncPart(BOARD, w).wakeup == 131_071;
  }

  /** With the pin in place of the wait the call ends there as well, and the pin never rises. */
  lemma SpoiledExample()
    ensures var steps := ToSecondEdge(Trigger(131_456));
            var u, h := Run(BOARD, Started(20), steps), Run(BOARD, Started(20), steps + [Interrupt]);
            && PromptRun(BOARD, Started(20), steps + [Interrupt])
            && Changes(BOARD, u) && !Rises(BOARD, u)
            && h.flags.trigger && h.now == 65_540 && h.wakeup == 131_071 && h.output.rose == None
  {
    var v, begin := Started(20), Trigger(131_456);
    var a := Fire(Synchronized(36_243, 23, true), 131_456);
    SpoiledFired();
    ToSecondEdgeIs(begin, a);
    var w := AtSecondEdge(a);
    SpoiledServed(w);
    hide RunsTo, Handle, Next, PromptRun, Run, ToSecondEdge, Fire, AtSecondEdge, Changes, Rises;
    ThenInterrupt(v, ToSecondEdge(begin), w);
    RunsToIs(v, ToSecondEdge(begin), w);
    RunsToIs(v, ToSecondEdge(begin) + [Interrupt], Handle(BOARD, w));
  }

  lemma SpoiledFired()
    ensures var v := Synchronized(36_243, 23, true);
            Fire(v, 131_456) == v.(wakeup := 131_073, output := Output(false, true, 1, 0, false, false, None))
    ensures Next(BOARD, Synchronized(36_243, 23, true), Trigger(131_456)) ==
            Fire(Synchronized(36_243, 23, true), 131_456)
  {
    assert ToVht(BOARD, 25) == 36_621;
  }

  lemma SpoiledServed(w: Vht)
    requires w == AtSecondEdge(Synchronized(36_243, 23, true).(
                                 wakeup := 131_073, output := Output(false, true, 1, 0, false, false, None)))
    ensures Changes(BOARD, w) && !Rises(BOARD, w) && w.now == 65_540
    ensures var h := Handle(BOARD, w);
            h.flags.trigger && h.now == 65_540 && h.wakeup == 131_071 && h.output.rose == None
  {
    assert ToVht(BOARD, 25) == 36_621 && ToVht(BOARD, 45) == 65_918;
    var u := SyncPart(BOARD, w);
    assert u.wakeup == 131_071;
    assert Remaining(u) == 0;
  }

  // ---------------------------------------------------------------- a wait for a time that has passed

  /** After a synchronization at 2050 the timer shows 5859, but the deadline for 100 would have been before the counter
      was started; in 64 bits it lies far ahead, and the call waits for it. */
  lemma WaitsExample()
    ensures var v := Run(BOARD, Started(20), FirstSync(500, 2, 1_550, true));
            && PromptRun(BOARD, Started(20), FirstSync(500, 2, 1_550, true))
            && GetValue(v) == 5_859 && Waits(v, 100) && Target(v, 100) == U64 - 3_709
  {
    hide RunsTo, FirstSync, Run, PromptRun;
    FirstSyncIs(500, 2, 1_550, true);
    RunsToIs(Started(20), FirstSync(500, 2, 1_550, true), Synchronized(2_050, 2, true));
    assert ToVht(BOARD, 4) == 5_859;
  }

  // ---------------------------------------------------------------- deadlines one turn ahead

  /** A call at 2050 for a deadline at 67586, one turn later. */
  function OneTurnCall(autoSync: bool): seq<Step> {
    FirstSync(500, 2, 1_550, autoSync) + [Trigger(71_400)]
  }

  function OneTurnFired(autoSync: bool): Vht {
    Synchronized(2_050, 2, autoSync).(wakeup := 67_586, output := Output(false, true, 2_050, 0, false, false, None))
  }

  lemma OneTurnCallIs(autoSync: bool)
    ensures RunsTo(Started(20), OneTurnCall(autoSync), OneTurnFired(autoSync))
  {
    hide RunsTo, FirstSync, Next;
    FirstSyncIs(500, 2, 1_550, autoSync);
    ThenDo(Started(20), FirstSync(500, 2, 1_550, autoSync), Synchronized(2_050, 2, autoSync), Trigger(71_400));
    OneTurnStart(autoSync);
  }

  lemma OneTurnStart(autoSync: bool)
    ensures Next(BOARD, Synchronized(2_050, 2, autoSync), Trigger(71_400)) == OneTurnFired(autoSync)
  {
    assert ToVht(BOARD, 4) == 5_859;
  }

  /** The rest of a turn, the overflow, and 2050 increments of the next turn. */
  lemma ToDeadlineIs(v: Vht, steps: seq<Step>, w: Vht)
    requires RunsTo(v, steps, w) && 2_050 <= w.now < TURN && Calling(w)
    ensures RunsTo(v, steps + Increments(65_535 - w.now) + [Increment] + [Interrupt] + Increments(2_050), AtDeadline(w))
  {
    hide RunsTo, Tick, Counted, Quiet, OverflowPart, Calling;
    PassedTurn(w);
    var s, n := steps, 65_535 - w.now;
    ThenCount(v, s, w, n);
    s := s + Increments(n);
    ThenTurn(v, s, CountedTo(w, 65_535));
    ThenCount(v, s + [Increment] + [Interrupt], OverflowPart(Tick(CountedTo(w, 65_535))), 2_050);
  }

  /** A thread waits for the pin at 67586. */
  predicate Calling(w: Vht) {
    && !w.uif && w.overflows == 0 && w.compare.ccr in {0, 2_050} && !w.compare.enabled && w.wakeup == 67_586
    && w.output == Output(false, true, 2_050, 0, w.output.onMatch, false, None)
    && !(w.rtcCapture.pending && w.rtcCapture.enabled) && !(w.eventCapture.pending && w.eventCapture.enabled)
    && !w.flags.flag
  }

  function AtDeadline(w: Vht): Vht {
    w.(now := 67_586, overflows := TURN, compare := w.compare.(pending := true, match_ := TURN + w.compare.ccr),
       output := Match(w.output, 67_586))
  }

  lemma PassedTurn(w: Vht)
    requires 2_050 <= w.now < TURN && Calling(w)
    ensures Counted(w, 65_535 - w.now) == CountedTo(w, 65_535) && Quiet(Tick(CountedTo(w, 65_535)))
    ensures var u := OverflowPart(Tick(CountedTo(w, 65_535))); u.now == 65_536 && Counted(u, 2_050) == AtDeadline(w)
    ensures !w.uif
  {
  }

  lemma AtDeadlineServed(w: Vht)
    requires Calling(w)
    ensures var h := Handle(BOARD, AtDeadline(w));
            && h.flags.trigger && h.now == h.wakeup == 67_586
            && h.output.rose == if w.output.onMatch then Some(67_586) else None
  {
    hide ToVht;
    assert Remaining(AtDeadline(w)) == 0;
  }

  /** Without automatic synchronization the call ends at the deadline, and the pin never rises. */
  lemma OneTurnExample()
    ensures var steps := OneTurnCall(false) + Increments(63_485) + [Increment] + [Interrupt] + Increments(2_050)
                         + [Interrupt];
            var h := Run(BOARD, Started(20), steps);
            && PromptRun(BOARD, Started(20), steps)
            && h.flags.trigger && h.now == h.wakeup == 67_586 && h.output.rose == None
  {
    hide RunsTo, Handle, Run, PromptRun, OneTurnCall, AtDeadline;
    var v, w := Started(20), OneTurnFired(false);
    OneTurnCallIs(false);
    ToDeadlineIs(v, OneTurnCall(false), w);
    var steps := OneTurnCall(false) + Increments(63_485) + [Increment] + [Interrupt] + Increments(2_050);
    AtDeadlineServed(w);
    assert AtDeadline(w).now == 67_586 by { AtDeadlineNow(w); }
    ThenInterrupt(v, steps, AtDeadline(w));
    RunsToIs(v, steps + [Interrupt], Handle(BOARD, AtDeadline(w)));
  }

  lemma AtDeadlineNow(w: Vht)
    ensures AtDeadline(w).now == 67_586
  {
  }

  /** With automatic synchronization the same call works: at the next edge the deadline is less than a turn ahead, and
      the synchronization, which moves nothing, sets the pin to rise. */
  lemma RepairedExample()
    ensures !InReach(Synchronized(2_050, 2, true), 71_400)
    ensures var steps := TwoResyncs() + Increments(4_891) + [Increment] + [Interrupt] + Increments(2_050) + [Interrupt];
            var h := Run(BOARD, Started(20), steps);
            && PromptRun(BOARD, Started(20), steps)
            && h.flags.trigger && h.now == h.wakeup == 67_586 && h.output.rose == Some(67_586)
  {
    NotInReach();
    hide RunsTo, Handle, Run, PromptRun, TwoResyncs, AtDeadline, InReach, Resync;
    var v, w := Started(20), Resync(Resync(OneTurnFired(true)));
    TwoResyncsAre();
    ToDeadlineIs(v, TwoResyncs(), w);
    var s := TwoResyncs() + Increments(4_891) + [Increment] + [Interrupt] + Increments(2_050);
    AtDeadlineServed(w);
    AtDeadlineNow(w);
    ThenInterrupt(v, s, AtDeadline(w));
    RunsToIs(v, s + [Interrupt], Handle(BOARD, AtDeadline(w)));
  }

  lemma NotInReach()
    ensures !InReach(Synchronized(2_050, 2, true), 71_400)
  {
    assert ToVht(BOARD, 4) == 5_859;
  }

  /** That call and the next two automatic synchronizations. */
  function TwoResyncs(): seq<Step> {
    OneTurnCall(true) + Increments(29_297) + [EdgeOfRtc] + [Interrupt] + Increments(29_297) + [EdgeOfRtc] + [Interrupt]
  }

  lemma TwoResyncsAre()
    ensures var w := Resync(Resync(OneTurnFired(true)));
            RunsTo(Started(20), TwoResyncs(), w) && Calling(w) && w.now == 60_644 && w.output.onMatch
  {
    hide RunsTo, OneTurnCall;
    var v, s, w := Started(20), OneTurnCall(true), OneTurnFired(true);
    OneTurnCallIs(true);
    Conversions();
    hide ToVht;
    ThenResync(v, s, w);
    ThenResync(v, s + Increments(29_297) + [EdgeOfRtc] + [Interrupt], Resync(w));
  }

  /** The next automatic synchronization, exactly 29297 increments later. */
  function Resync(w: Vht): Vht {
    var t := w.now + 29_297;
    w.(now := t, rtcCapture := Capture(false, true, t, t), base := ToVht(BOARD, w.syncRtc), syncPoint := t,
       syncRtc := w.syncRtc + 20, compare := w.compare.(ccr := 2_050), output := w.output.(onMatch := true))
  }

  lemma ThenResync(v: Vht, steps: seq<Step>, w: Vht)
    requires RunsTo(v, steps, w) && 2_050 <= w.now && w.now + 29_297 < TURN && Calling(w)
    requires w.rtcCapture.enabled && w.period == 20 && ToVht(BOARD, w.syncRtc) == w.base + 29_297
    requires w.syncPoint == w.now
    ensures RunsTo(v, steps + Increments(29_297) + [EdgeOfRtc] + [Interrupt], Resync(w))
  {
    hide RunsTo, Handle, ToVht;
    ThenCount(v, steps, w, 29_297);
    var s, u := steps + Increments(29_297), CountedTo(w, w.now + 29_297);
    assert Counted(w, 29_297) == u;
    ThenDo(v, s, u, EdgeOfRtc);
    NextEdge(u);
    ThenInterrupt(v, s + [EdgeOfRtc], RtcEdge(u));
    ResyncHandled(w);
  }

  lemma ResyncHandled(w: Vht)
    requires 2_050 <= w.now && w.now + 29_297 < TURN && Calling(w)
    requires w.rtcCapture.enabled && w.period == 20 && ToVht(BOARD, w.syncRtc) == w.base + 29_297
    requires w.syncPoint == w.now
    ensures Handle(BOARD, RtcEdge(CountedTo(w, w.now + 29_297))) == Resync(w)
  {
    hide ToVht;
  }

  lemma Conversions()
    ensures ToVht(BOARD, 4) == 5_859 && ToVht(BOARD, 24) == 5_859 + 29_297 && ToVht(BOARD, 44) == 35_156 + 29_297
  {
  }
}
