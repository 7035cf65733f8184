/**
 The virtual high resolution timer on values: a 16 bit counter with its flags, what the interrupt handler makes of
 them, and how the low frequency clock is used to correct it.
 */
module TimerSpec {
  import opened CArith
  import opened Wrappers

  /** One turn of the 16 bit counter. */
  const TURN := 0x1_0000

  const U64 := 0x1_0000_0000_0000_0000

  /** What unsigned 64 bit arithmetic keeps of a value, and that value as a signed one. */
  function Unsigned(x: int): nat {
    x % U64
  }

  function Signed(x: int): int {
    var u := Unsigned(x);
    if u >= U64 / 2 then u - U64 else u
  }

  /** Clock frequencies: the fast one is measured in ticks of the slow one. */
  datatype Rates = Rates(vht: int, rtc: int) {

    predicate Ok() {
      0 < rtc < vht
    }
  }

  /** An input capture channel; `edge` is when the edge really came. */
  datatype Capture = Capture(pending: bool, enabled: bool, ccr: nat, edge: nat)

  /** An output compare channel; `match` is when the counter last was equal to ccr. */
  datatype Compare = Compare(pending: bool, enabled: bool, ccr: nat, match_: nat)

  /** The output compare channel of the pin that starts a transmission.  `onMatch` says that the pin rises when the
      counter is equal to ccr; `rose` is when it did since the channel was armed. */
  datatype Output = Output(
    pending: bool, enabled: bool, ccr: nat, match_: nat, onMatch: bool, pin: bool, rose: Option<nat>)

  datatype Flags = Flags(wait: bool, event: bool, sync: bool, flag: bool, trigger: bool)

  /** `now` is how often the counter was incremented.  The counter shows it modulo one turn, and uif says that it
      overflowed since the handler last ran. */
  datatype Vht = Vht(
    now: nat, uif: bool,
    rtcCapture: Capture, compare: Compare, eventCapture: Capture, output: Output,
    overflows: nat, base: int, offset: int, syncPoint: int, syncRtc: nat, period: nat,
    timestamp: int, wakeup: nat, flags: Flags)

  function Cnt(v: Vht): nat {
    v.now % TURN
  }

  /** When the current turn, or the one a time is in, began. */
  function TurnOf(t: nat): nat {
    t - t % TURN
  }

  /** The timer's value at the instant t. */
  function Virtual(v: Vht, t: int): nat {
    Unsigned(t - v.syncPoint + v.base + v.offset)
  }

  /** The value the pending deadline stands for. */
  function Deadline(v: Vht): nat {
    Virtual(v, v.wakeup)
  }

  // ---------------------------------------------------------------- the handler, part by part

  /** The number of increments the code reads off the registers. */
  function ReadTime(v: Vht): nat {
    v.overflows + (if v.uif then TURN else 0) + Cnt(v)
  }

  /** The time reconstructed for a value captured or matched. */
  function Reconstruct(v: Vht, ccr: nat): nat {
    v.overflows + ccr + if v.uif && ccr <= Cnt(v) then TURN else 0
  }

  /** Where the deadline is moved by a new synchronization point. */
  function Moved(v: Vht, base: int, syncPoint: int): nat {
    Unsigned(v.wakeup + v.base - v.syncPoint - base + syncPoint)
  }

  /** A deadline is moved only when it is, before and after, more than 100 ticks away. */
  predicate FarEnough(wakeup: nat, moved: nat, time: nat) {
    Signed(wakeup - time) > 100 && Signed(moved - time) > 100
  }

  predicate Moves(v: Vht, moved: nat) {
    FarEnough(v.wakeup, moved, ReadTime(v))
  }

  /** Less than a turn ahead, as the code tells. */
  predicate SoonAfter(time: nat, wakeup: nat) {
    0 < Signed(wakeup - time) <= 0xFFFF
  }

  /** A deadline one waits for is moved, if it is far enough. */
  function Moving(v: Vht, moved: nat): Vht {
    if !((v.compare.enabled || v.output.enabled) && Moves(v, moved)) then v else
      v.(wakeup := moved,
         compare := v.compare.(ccr := moved % TURN),
         output := if v.output.enabled
                   then v.output.(ccr := moved % TURN, onMatch := v.output.onMatch || SoonAfter(ReadTime(v), moved))
                   else v.output)
  }

  lemma MovingElsewhere(v: Vht, c: Capture, syncPoint: int, base: int, flags: Flags, moved: nat)
    ensures Moving(v.(rtcCapture := c, syncPoint := syncPoint, base := base, flags := flags), moved) ==
            Moving(v, moved).(rtcCapture := c, syncPoint := syncPoint, base := base, flags := flags)
    ensures !v.compare.enabled && !v.output.enabled ==> Moving(v, moved) == v
  {
    hide SoonAfter, FarEnough;
  }

  function SyncPart(r: Rates, v: Vht): Vht
    requires r.Ok()
  {
    if !v.rtcCapture.pending || !v.rtcCapture.enabled then v else
      var syncPoint := Reconstruct(v, v.rtcCapture.ccr);
      var base := ToVht(r, v.syncRtc);
      Moving(v, Moved(v, base, syncPoint)).(
         rtcCapture := v.rtcCapture.(pending := false),
         syncPoint := syncPoint, base := base, syncRtc := v.syncRtc + v.period,
         flags := if v.flags.flag then v.flags.(sync := true, flag := false) else v.flags)
  }

  function WaitPart(v: Vht): Vht {
    if !v.compare.pending || !v.compare.enabled then v else
      var reached := v.overflows + if v.uif && v.compare.ccr <= Cnt(v) then TURN else 0;
      v.(compare := v.compare.(pending := false),
         flags := v.flags.(wait := v.flags.wait || TurnOf(v.wakeup) <= reached))
  }

  function EventPart(v: Vht): Vht {
    if !v.eventCapture.pending || !v.eventCapture.enabled then v else
      v.(eventCapture := v.eventCapture.(pending := false),
         timestamp := Virtual(v, Reconstruct(v, v.eventCapture.ccr)),
         flags := v.flags.(event := true))
  }

  /** The turns of the counter left to the deadline, as the handler counts them. */
  function Remaining(v: Vht): int {
    Signed(v.wakeup - (v.overflows + if v.uif && v.output.ccr <= Cnt(v) then TURN else 0)) / TURN
  }

  function TriggerPart(v: Vht): Vht {
    if !v.output.pending || !v.output.enabled then v else
      if Remaining(v) <= 0 then
        v.(output := v.output.(pending := false, enabled := false, onMatch := false, pin := false),
           flags := v.flags.(trigger := true))
      else v.(output := v.output.(pending := false, onMatch := v.output.onMatch || Remaining(v) == 1))
  }

  function OverflowPart(v: Vht): Vht {
    if v.uif then v.(uif := false, overflows := v.overflows + TURN) else v
  }

  function Handle(r: Rates, v: Vht): Vht
    requires r.Ok()
  {
    OverflowPart(TriggerPart(EventPart(WaitPart(SyncPart(r, v)))))
  }

  // ---------------------------------------------------------------- the rest of the machine

  /** The counter is incremented. */
  function Tick(v: Vht): Vht {
    var t := v.now + 1;
    v.(now := t, uif := v.uif || t % TURN == 0,
       compare := if t % TURN == v.compare.ccr then v.compare.(pending := true, match_ := t) else v.compare,
       output := if t % TURN == v.output.ccr then Match(v.output, t) else v.output)
  }

  function Match(o: Output, t: nat): Output {
    var rises := o.onMatch && !o.pin;
    o.(pending := true, match_ := t, pin := o.pin || o.onMatch, rose := if rises then Some(t) else o.rose)
  }

  function RtcEdge(v: Vht): Vht {
    v.(rtcCapture := v.rtcCapture.(pending := true, ccr := Cnt(v), edge := v.now))
  }

  function ExtEdge(v: Vht): Vht {
    v.(eventCapture := v.eventCapture.(pending := true, ccr := Cnt(v), edge := v.now))
  }

  /** The deadline for `value` on the counter, as the code computes it. */
  function Target(v: Vht, value: int): nat {
    Unsigned(value - v.base + v.syncPoint - v.offset)
  }

  /** absoluteWait, or absoluteWaitTimeoutOrEvent with `orEvent`, up to where the thread waits.  It waits only if the
      deadline is not in the past; otherwise the call is over.  With `orEvent` the value 0 is no time: the thread waits
      for the event alone. */
  function Arm(v: Vht, value: nat, orEvent: bool): Vht {
    if orEvent && value == 0 then ArmEvent(v)
    else
      var wakeup := Target(v, value);
      var armed := v.(wakeup := wakeup,
                      compare := v.compare.(pending := false, enabled := true, ccr := wakeup % TURN),
                      eventCapture := if orEvent then v.eventCapture.(pending := false, enabled := true)
                                      else v.eventCapture);
      if !Waits(v, value) then Disarm(armed, orEvent)
      else armed.(flags := v.flags.(wait := false, event := if orEvent then false else v.flags.event))
  }

  function ArmEvent(v: Vht): Vht {
    v.(eventCapture := v.eventCapture.(pending := false, enabled := true), flags := v.flags.(event := false))
  }

  predicate Waits(v: Vht, value: nat) {
    Target(v, value) > ReadTime(v)
  }

  /** The end of a wait. */
  function Disarm(v: Vht, orEvent: bool): Vht {
    v.(compare := v.compare.(enabled := false),
       eventCapture := if orEvent then v.eventCapture.(enabled := false) else v.eventCapture,
       flags := v.flags.(wait := false, event := if orEvent then false else v.flags.event))
  }

  /** What absoluteWaitTimeoutOrEvent returns after a wait: whether it was ended by the time, and not by an event that
      came no later. */
  predicate TimedOut(v: Vht, value: nat) {
    value > 0 && v.flags.wait && (v.flags.event ==> v.timestamp > value)
  }

  /** How long after the match the pin's edge gets out. */
  const DELAY := 5

  /** absoluteWaitTrigger up to where the thread waits for the pin to rise; it does not wait if it is too late. */
  function Fire(v: Vht, value: nat): Vht {
    var wakeup := Target(v, value - DELAY);
    var ahead := Signed(wakeup - ReadTime(v)) > 0;
    v.(wakeup := wakeup,
       output := v.output.(pending := false, enabled := ahead, ccr := wakeup % TURN, rose := None,
                           onMatch := ahead && (SoonAfter(ReadTime(v), wakeup) || v.output.onMatch)),
       flags := v.flags.(trigger := !ahead))
  }

  /** The end of that call. */
  function EndFire(v: Vht): Vht {
    v.(output := v.output.(enabled := false), flags := v.flags.(trigger := false))
  }

  /** The start of syncWithRtc, two ticks of the low frequency clock before the edge. */
  function StartSync(v: Vht, rtc: nat): Vht {
    v.(rtcCapture := v.rtcCapture.(pending := false, enabled := true), syncRtc := rtc + 2,
       flags := v.flags.(sync := false, flag := true))
  }

  function EndSync(v: Vht, autoSync: bool): Vht {
    v.(rtcCapture := v.rtcCapture.(enabled := v.rtcCapture.enabled && autoSync), flags := v.flags.(sync := false))
  }

  function GetValue(v: Vht): nat {
    Virtual(v, ReadTime(v))
  }

  function SetValue(v: Vht, value: nat): Vht {
    v.(offset := Signed(v.offset + value - GetValue(v)))
  }

  // ---------------------------------------------------------------- what always holds

  /** A pending capture that is enabled has seen no overflow serviced since its edge. */
  predicate CaptureOk(v: Vht, c: Capture) {
    c.pending ==> c.edge <= v.now && c.ccr == c.edge % TURN && (c.enabled ==> v.overflows <= TurnOf(c.edge))
  }

  /** The same for a match, and the compare register holds the deadline. */
  predicate CompareOk(v: Vht) {
    && v.compare.ccr < TURN
    && (v.compare.enabled ==> v.compare.ccr == v.wakeup % TURN)
    && (v.compare.pending && v.compare.enabled ==>
          v.compare.match_ <= v.now && v.compare.ccr == v.compare.match_ % TURN
          && v.overflows <= TurnOf(v.compare.match_))
  }

  /** The output channel: the pin is low between calls. */
  predicate OutputOk(v: Vht) {
    var o := v.output;
    && o.ccr < TURN
    && (if o.enabled then o.ccr == v.wakeup % TURN && !v.flags.trigger else !o.onMatch && !o.pin)
    && (o.pending && o.enabled ==> o.match_ <= v.now && o.ccr == o.match_ % TURN && v.overflows <= TurnOf(o.match_))
  }

  /** At most one overflow is not serviced, so the registers tell the time. */
  predicate Timed(v: Vht) {
    && v.overflows + (if v.uif then TURN else 0) == TurnOf(v.now)
    && CaptureOk(v, v.rtcCapture) && CaptureOk(v, v.eventCapture) && CompareOk(v) && OutputOk(v)
    && v.wakeup < U64
  }

  datatype Step = Increment | EdgeOfRtc | EdgeOfEvent | Interrupt
    | Wait(value: nat, orEvent: bool) | Done(orEvent: bool) | Sync(rtc: nat) | Synced(autoSync: bool) | Set(value: nat)
    | Trigger(value: nat) | Triggered

  function Next(r: Rates, v: Vht, s: Step): Vht
    requires r.Ok()
  {
    match s
    case Increment => Tick(v)
    case EdgeOfRtc => RtcEdge(v)
    case EdgeOfEvent => ExtEdge(v)
    case Interrupt => Handle(r, v)
    case Wait(value, orEvent) => Arm(v, value, orEvent)
    case Done(orEvent) => Disarm(v, orEvent)
    case Sync(rtc) => StartSync(v, rtc)
    case Synced(autoSync) => EndSync(v, autoSync)
    case Set(value) => SetValue(v, value)
    case Trigger(value) => Fire(v, value)
    case Triggered => EndFire(v)
  }

  /** No second overflow before the first one is serviced; and threads wait for one deadline at a time, since there is
      only one variable for it. */
  predicate Prompt(v: Vht, s: Step) {
    match s
    case Increment => !(v.uif && (v.now + 1) % TURN == 0)
    case Wait(_, _) => !v.output.enabled && !v.flags.trigger
    case Trigger(_) => !v.output.enabled && !v.compare.enabled && !v.flags.wait
    case Triggered => !v.output.enabled
    case _ => true
  }

  // ---------------------------------------------------------------- time stamps

  /** Every step keeps the invariant, and so the registers always tell the time. */
  lemma NextTimed(r: Rates, v: Vht, s: Step)
    requires r.Ok() && Timed(v) && Prompt(v, s)
    ensures Timed(Next(r, v, s)) && ReadTime(v) == v.now
  {
    ReadsTime(v);
    match s
    case Increment => TickTimed(v);
    case Interrupt => HandleTimed(r, v);
    case Wait(value, orEvent) => ArmTimed(v, value, orEvent);
    case Trigger(value) => FireTimed(v, value);
    case _ => hide ToVht, TurnOf, Virtual, Signed, Unsigned;
  }

  lemma ArmTimed(v: Vht, value: nat, orEvent: bool)
    requires Timed(v) && !v.output.enabled
    ensures Timed(Arm(v, value, orEvent))
  {
    hide TurnOf;
  }

  lemma TimedIdle(v: Vht)
    requires Timed(v)
    ensures v.wakeup < U64 && (!v.output.enabled ==> !v.output.onMatch)
  {
  }

  lemma FireTimed(v: Vht, value: nat)
    requires Timed(v) && !v.output.enabled && !v.compare.enabled
    ensures Timed(Fire(v, value))
  {
    hide TurnOf, Signed;
  }

  lemma ReadsTime(v: Vht)
    requires Timed(v)
    ensures ReadTime(v) == v.now
  {
  }

  lemma TickTimed(v: Vht)
    requires Timed(v) && !(v.uif && (v.now + 1) % TURN == 0)
    ensures Timed(Tick(v))
  {
    NextTurn(v.now);
    hide TurnOf;
  }

  lemma NextTurn(now: nat)
    ensures TurnOf(now + 1) == if (now + 1) % TURN == 0 then TurnOf(now) + TURN else TurnOf(now)
  {
  }

  lemma HandleTimed(r: Rates, v: Vht)
    requires r.Ok() && Timed(v)
    ensures Timed(Handle(r, v))
  {
    HandleOutput(r, v);
    HandleWakeup(r, v);
    HandleRest(r, v);
    hide Handle, OutputOk;
  }

  lemma HandleRest(r: Rates, v: Vht)
    requires r.Ok() && Timed(v)
    ensures var h := Handle(r, v);
            && h.overflows + (if h.uif then TURN else 0) == TurnOf(h.now) && CompareOk(h)
            && CaptureOk(h, h.rtcCapture) && CaptureOk(h, h.eventCapture)
  {
    hide ToVht, TurnOf, Moves, Virtual, SoonAfter, OutputOk, Unsigned, TriggerPart;
    var u := EventPart(WaitPart(SyncPart(r, v)));
    var w := TriggerPart(u);
    TriggerKeeps(u);
    assert w.compare.enabled ==> w.compare.ccr == w.wakeup % TURN && !w.compare.pending;
  }

  lemma TriggerKeeps(v: Vht)
    ensures var w := TriggerPart(v);
            w == v.(output := w.output, flags := w.flags) && w.flags == v.flags.(trigger := w.flags.trigger)
  {
    hide Remaining;
  }

  lemma HandleWakeup(r: Rates, v: Vht)
    requires r.Ok() && v.wakeup < U64
    ensures Handle(r, v).wakeup < U64
  {
    hide ToVht, Moves, SoonAfter, TriggerPart, Reconstruct;
    TriggerKeeps(EventPart(WaitPart(SyncPart(r, v))));
  }

  lemma HandleOutput(r: Rates, v: Vht)
    requires r.Ok() && OutputOk(v)
    ensures OutputOk(Handle(r, v))
  {
    hide SyncPart, WaitPart, EventPart, OverflowPart, Remaining, TurnOf;
    SyncDeadline(r, v);
    TriggerLast(SyncPart(r, v));
  }

  lemma SyncDeadline(r: Rates, v: Vht)
    requires r.Ok() && OutputOk(v)
    ensures var w := SyncPart(r, v);
            && w.output.ccr < TURN && w.flags.trigger == v.flags.trigger && w.output.enabled == v.output.enabled
            && if w.output.enabled then w.output.ccr == w.wakeup % TURN else !w.output.onMatch && !w.output.pin
  {
    hide ToVht, TurnOf, Moves, SoonAfter, Unsigned, Reconstruct;
  }

  /** A capture handled less than one turn after its edge gives the time of the edge; one handled later gives a time
      one turn after it. */
  lemma CaptureExactIff(v: Vht, c: Capture)
    requires Timed(v) && CaptureOk(v, c) && c.pending && c.enabled
    ensures Reconstruct(v, c.ccr) == c.edge <==> v.now - c.edge < TURN
    ensures Reconstruct(v, c.ccr) == if v.now - c.edge < TURN then c.edge else c.edge + TURN
  {
  }

  /** The time stamp of an event is the value the timer had at its edge, exactly when the handler is in time. */
  lemma EventExactIff(r: Rates, v: Vht)
    requires r.Ok() && Timed(v) && v.eventCapture.pending && v.eventCapture.enabled
    ensures var h := Handle(r, v);
            h.timestamp == Virtual(h, v.eventCapture.edge) <==> v.now - v.eventCapture.edge < TURN
    ensures Handle(r, v).flags.event
  {
    hide ToVht, Handle, Virtual, Reconstruct, TurnOf, CompareOk, OutputOk;
    CaptureExactIff(v, v.eventCapture);
    EventStamp(r, v);
    VirtualShift(Handle(r, v), v.eventCapture.edge);
  }

  lemma EventStamp(r: Rates, v: Vht)
    requires r.Ok() && v.eventCapture.pending && v.eventCapture.enabled
    ensures var h := Handle(r, v);
            h.flags.event && h.timestamp == Virtual(h, Reconstruct(v, v.eventCapture.ccr))
  {
    hide ToVht, Remaining, Moving, Unsigned, Moved;
    var w := WaitPart(SyncPart(r, v));
    SyncElsewhere(r, v);
    TriggerKeeps(EventPart(w));
    hide SyncPart;
  }

  /** A synchronization leaves the counter and the event channel alone. */
  lemma SyncElsewhere(r: Rates, v: Vht)
    requires r.Ok()
    ensures var w := SyncPart(r, v);
            w.eventCapture == v.eventCapture && w.uif == v.uif && w.now == v.now && w.overflows == v.overflows
  {
    hide ToVht, Moves, Unsigned, SoonAfter;
  }

  lemma VirtualShift(v: Vht, t: nat)
    ensures Virtual(v, t + TURN) != Virtual(v, t)
  {
  }

  /** After a synchronization the timer's value at the edge of the low frequency clock is the time of that clock,
      converted, exactly when the handler is in time. */
  lemma SyncExactIff(r: Rates, v: Vht)
    requires r.Ok() && Timed(v) && v.rtcCapture.pending && v.rtcCapture.enabled
    ensures Virtual(Handle(r, v), v.rtcCapture.edge) == Unsigned(ToVht(r, v.syncRtc) + v.offset)
            <==> v.now - v.rtcCapture.edge < TURN
  {
    CaptureExactIff(v, v.rtcCapture);
    hide ToVht, Timed, CaptureOk, Reconstruct, Handle, TurnOf, Unsigned;
    var h, e := Handle(r, v), v.rtcCapture.edge;
    SyncPoint(r, v);
    assert Virtual(h, e) == Unsigned(e - h.syncPoint + h.base + h.offset);
    WrapTurn(h.base + h.offset);
  }

  lemma SyncPoint(r: Rates, v: Vht)
    requires r.Ok() && v.rtcCapture.pending && v.rtcCapture.enabled
    ensures var h := Handle(r, v);
            h.syncPoint == Reconstruct(v, v.rtcCapture.ccr) && h.base == ToVht(r, v.syncRtc) && h.offset == v.offset
  {
  }

  lemma WrapTurn(x: int)
    ensures Unsigned(x - TURN) != Unsigned(x)
  {
  }

  /** Reading the timer gives its value now; setting it makes the next reading the value set. */
  lemma ValueSet(v: Vht, value: nat)
    requires Timed(v) && value < U64
    ensures GetValue(v) == Virtual(v, v.now)
    ensures GetValue(SetValue(v, value)) == value
  {
  }

  // ---------------------------------------------------------------- deadlines

  /** A synchronization keeps the value a pending deadline stands for if and only if the deadline is moved, or need
      not be. */
  lemma DeadlineKeptIff(r: Rates, v: Vht)
    requires r.Ok() && Timed(v) && v.rtcCapture.pending && v.rtcCapture.enabled
    requires v.compare.enabled || v.output.enabled
    ensures var w := SyncPart(r, v);
            var moved := Moved(v, w.base, w.syncPoint);
            Deadline(w) == Deadline(v) <==> Moves(v, moved) || moved == v.wakeup
  {
    hide ToVht, CaptureOk, CompareOk, Reconstruct, Moves, TurnOf, ReadTime;
    var w := SyncPart(r, v);
    var moved := Moved(v, w.base, w.syncPoint);
    var shift := v.base - v.syncPoint - w.base + w.syncPoint;
    MovedSame(v.wakeup, shift, v.base - v.syncPoint + v.offset);
    assert v.wakeup + shift == v.wakeup + v.base - v.syncPoint - w.base + w.syncPoint;
  }

  /** Where nothing wraps, a deadline is moved exactly when it is more than 100 increments ahead, and stays so. */
  lemma MovesIff(v: Vht, moved: nat)
    requires Timed(v) && v.now < U64 / 2 && moved < U64
    requires v.wakeup - v.now < U64 / 2 && moved - v.now < U64 / 2
    ensures Moves(v, moved) <==> v.wakeup > v.now + 100 && moved > v.now + 100
  {
    ReadsTime(v);
    hide Timed, ReadTime;
  }

  lemma MovedSame(wakeup: nat, shift: int, map0: int)
    requires wakeup < U64
    ensures Unsigned(Unsigned(wakeup + shift) - shift + map0) == Unsigned(wakeup + map0)
    ensures Unsigned(wakeup - shift + map0) == Unsigned(wakeup + map0) <==> Unsigned(wakeup + shift) == wakeup
  {
  }

  /** When the handler finds a match pending it raises the wait flag if the deadline has come, or if the deadline is
      still to come in this turn of the counter and no overflow is pending. */
  lemma RaisedIff(v: Vht)
    requires v.overflows + (if v.uif then TURN else 0) == TurnOf(v.now) && v.compare.ccr == v.wakeup % TURN
    requires v.compare.pending && v.compare.enabled && !v.flags.wait
    ensures WaitPart(v).flags.wait <==> v.wakeup <= v.now || (!v.uif && TurnOf(v.wakeup) == TurnOf(v.now))
  {
  }

  /** The deadline is brought back into the current turn by a synchronization while a match is pending. */
  predicate BroughtBack(r: Rates, v: Vht)
    requires r.Ok()
  {
    var w := SyncPart(r, v);
    && v.compare.pending && v.compare.enabled && !v.uif
    && w.wakeup != v.wakeup && w.wakeup > v.now && TurnOf(w.wakeup) == TurnOf(v.now)
  }

  /** The wait flag is only up once the deadline has come. */
  predicate NotEarly(v: Vht) {
    v.flags.wait ==> v.wakeup <= v.now
  }

  /** A deadline that has come is not forgotten: until the flag is up its interrupt is pending. */
  predicate NotMissed(v: Vht) {
    v.compare.enabled && v.wakeup <= v.now ==> v.flags.wait || v.compare.pending
  }

  /** Only a handler that brings the deadline back raises the flag early. */
  lemma NotEarlyIff(r: Rates, v: Vht, s: Step)
    requires r.Ok() && Timed(v) && Prompt(v, s) && NotEarly(v) && v.now < U64 / 2
    ensures NotEarly(Next(r, v, s)) <==> !(s == Interrupt && BroughtBack(r, v))
  {
    hide ToVht;
    if s == Interrupt {
      HandleNotEarly(r, v);
    } else {
      hide TurnOf, Moves, CaptureOk, CompareOk;
      ReadsTime(v);
    }
  }

  lemma HandleNotEarly(r: Rates, v: Vht)
    requires r.Ok() && Timed(v) && NotEarly(v) && v.now < U64 / 2
    ensures NotEarly(Handle(r, v)) <==> !BroughtBack(r, v)
  {
    var w := SyncPart(r, v);
    SyncKeeps(r, v);
    SyncTimed(r, v);
    PendingPassed(v);
    hide ToVht, CaptureOk, SyncPart, Timed, Reconstruct;
    assert Handle(r, v).wakeup == w.wakeup && Handle(r, v).now == v.now
           && Handle(r, v).flags.wait == WaitPart(w).flags.wait by {
      HandleParts(w);
    }
    if w.compare.pending && w.compare.enabled && !w.flags.wait {
      RaisedIff(w);
    }
  }

  lemma HandleParts(w: Vht)
    ensures var h := OverflowPart(TriggerPart(EventPart(WaitPart(w))));
            h.wakeup == w.wakeup && h.now == w.now && h.flags.wait == WaitPart(w).flags.wait
            && h.compare == WaitPart(w).compare
  {
  }

  /** A deadline that is moved was, and is, still to come. */
  lemma SyncKeeps(r: Rates, v: Vht)
    requires r.Ok() && Timed(v) && v.now < U64 / 2
    ensures var w := SyncPart(r, v);
            && w.now == v.now && w.uif == v.uif && w.overflows == v.overflows && w.flags.wait == v.flags.wait
            && w.compare.pending == v.compare.pending && w.compare.enabled == v.compare.enabled
            && w.compare.match_ == v.compare.match_
            && (w.wakeup != v.wakeup ==> v.wakeup > v.now && w.wakeup > v.now)
            && (w.wakeup == v.wakeup && v.compare.enabled ==> w.compare.ccr == v.compare.ccr)
  {
    ReadsTime(v);
    hide ToVht, TurnOf, CaptureOk, ReadTime, Reconstruct, Signed, Moves, Unsigned, Timed;
    MovesAhead(v, Moved(v, ToVht(r, v.syncRtc), Reconstruct(v, v.rtcCapture.ccr)));
  }

  lemma MovesAhead(v: Vht, moved: nat)
    requires ReadTime(v) == v.now < U64 / 2 && moved < U64 && Timed(v)
    ensures Moves(v, moved) ==> v.wakeup > v.now && moved > v.now
  {
  }

  /** A synchronization leaves everything the wait part needs. */
  lemma SyncTimed(r: Rates, v: Vht)
    requires r.Ok() && Timed(v)
    ensures var w := SyncPart(r, v);
            && w.overflows + (if w.uif then TURN else 0) == TurnOf(w.now)
            && w.wakeup < U64 && w.compare.ccr < TURN
            && (w.compare.enabled ==> w.compare.ccr == w.wakeup % TURN)
  {
  }

  /** A pending match without a pending overflow happened in this turn. */
  lemma PendingPassed(v: Vht)
    requires Timed(v)
    ensures v.compare.pending && v.compare.enabled && !v.uif ==> v.compare.ccr <= Cnt(v)
  {
  }

  /** No step forgets a deadline. */
  lemma NotMissedStep(r: Rates, v: Vht, s: Step)
    requires r.Ok() && Timed(v) && Prompt(v, s) && NotMissed(v) && v.now < U64 / 2
    ensures NotMissed(Next(r, v, s))
  {
    hide ToVht;
    match s
    case Interrupt => HandleNotMissed(r, v);
    case Increment =>
    case _ =>
      hide TurnOf, CaptureOk, Moves;
      ReadsTime(v);
  }

  lemma HandleNotMissed(r: Rates, v: Vht)
    requires r.Ok() && Timed(v) && NotMissed(v) && v.now < U64 / 2
    ensures NotMissed(Handle(r, v))
  {
    var w := SyncPart(r, v);
    SyncKeeps(r, v);
    SyncTimed(r, v);
    HandleParts(w);
    hide ToVht, CaptureOk, SyncPart, Timed, Reconstruct;
    if w.compare.pending && w.compare.enabled && !w.flags.wait {
      RaisedIff(w);
    }
  }

  /** A wait for a time that has passed returns at once only if that time is not before the counter was started:
      otherwise the unsigned deadline wraps and lies far ahead. */
  lemma WaitsIff(v: Vht, value: nat)
    requires Timed(v)
    ensures var raw := value - v.base + v.syncPoint - v.offset;
            -(U64 / 2) <= raw < U64 && v.now < U64 / 2 ==> (Waits(v, value) <==> raw > v.now || raw < 0)
  {
  }

  lemma TriggerLast(w: Vht)
    ensures var h, t := OverflowPart(TriggerPart(EventPart(WaitPart(w)))), TriggerPart(w);
            && h.wakeup == t.wakeup && h.now == t.now && h.output == t.output && h.flags.trigger == t.flags.trigger
            && h.compare.enabled == w.compare.enabled
  {
    hide Reconstruct, TurnOf;
  }

  // ---------------------------------------------------------------- runs

  function Run(r: Rates, v: Vht, steps: seq<Step>): Vht
    requires r.Ok()
  {
    if steps == [] then v else Next(r, Run(r, v, steps[..|steps| - 1]), steps[|steps| - 1])
  }

  /** A run from v in which every overflow is serviced before the next one. */
  ghost predicate PromptRun(r: Rates, v: Vht, steps: seq<Step>)
    requires r.Ok()
  {
    forall i :: 0 <= i < |steps| ==> Prompt(Run(r, v, steps[..i]), steps[i]) && Run(r, v, steps[..i]).now < U64 / 2
  }

  /** A timer that was just started. */
  function Started(period: nat): Vht {
    var off := Capture(false, false, 0, 0);
    Vht(0, false, off, Compare(false, false, 0, 0), off, Output(false, false, 0, 0, false, false, None),
        0, 0, 0, 0, 0, period, 0, 0, Flags(false, false, false, false, false))
  }

  lemma {:induction false} RunTimed(r: Rates, v: Vht, steps: seq<Step>)
    requires r.Ok() && Timed(v) && NotMissed(v) && PromptRun(r, v, steps)
    ensures Timed(Run(r, v, steps)) && NotMissed(Run(r, v, steps))
  {
    if steps != [] {
      var front := steps[..|steps| - 1];
      assert forall i :: 0 <= i < |front| ==> front[..i] == steps[..i];
      RunTimed(r, v, front);
      NextTimed(r, Run(r, v, front), steps[|front|]);
      NotMissedStep(r, Run(r, v, front), steps[|front|]);
    }
  }

  ghost predicate NeverEarly(r: Rates, v: Vht, steps: seq<Step>)
    requires r.Ok()
  {
    forall i :: 0 <= i <= |steps| ==> NotEarly(Run(r, v, steps[..i]))
  }

  ghost predicate NeverBroughtBack(r: Rates, v: Vht, steps: seq<Step>)
    requires r.Ok()
  {
    forall i :: 0 <= i < |steps| && steps[i] == Interrupt ==> !BroughtBack(r, Run(r, v, steps[..i]))
  }

  /** Over a whole run no wait ends before its deadline if and only if no interrupt brings a deadline back into the
      current turn while a match is pending. */
  lemma {:induction false} NeverEarlyIff(r: Rates, v: Vht, steps: seq<Step>)
    requires r.Ok() && Timed(v) && NotMissed(v) && NotEarly(v) && PromptRun(r, v, steps)
    ensures NeverEarly(r, v, steps) <==> NeverBroughtBack(r, v, steps)
  {
    if steps == [] {
      assert steps[..0] == [];
    } else {
      var n := |steps| - 1;
      var front := steps[..n];
      PrefixRuns(r, v, steps);
      NeverEarlyIff(r, v, front);
      RunTimed(r, v, front);
      if NeverEarly(r, v, front) {
        assert front[..n] == front;
        NotEarlyIff(r, Run(r, v, front), steps[n]);
      }
      LastEarly(r, v, steps);
      LastBroughtBack(r, v, steps);
    }
  }

  lemma PrefixRuns(r: Rates, v: Vht, steps: seq<Step>)
    requires r.Ok() && steps != [] && PromptRun(r, v, steps)
    ensures PromptRun(r, v, steps[..|steps| - 1])
  {
    var front := steps[..|steps| - 1];
    assert forall i :: 0 <= i < |front| ==> front[..i] == steps[..i];
  }

  lemma LastEarly(r: Rates, v: Vht, steps: seq<Step>)
    requires r.Ok() && steps != []
    ensures NeverEarly(r, v, steps) <==> NeverEarly(r, v, steps[..|steps| - 1]) && NotEarly(Run(r, v, steps))
  {
    hide Run, NotEarly;
    var n := |steps| - 1;
    assert forall i :: 0 <= i <= n ==> steps[..n][..i] == steps[..i];
    assert steps[..|steps|] == steps;
  }

  lemma LastBroughtBack(r: Rates, v: Vht, steps: seq<Step>)
    requires r.Ok() && steps != []
    ensures var n := |steps| - 1;
            NeverBroughtBack(r, v, steps) <==>
              NeverBroughtBack(r, v, steps[..n]) && (steps[n] == Interrupt ==> !BroughtBack(r, Run(r, v, steps[..n])))
  {
    hide Run, BroughtBack;
    var n := |steps| - 1;
    assert forall i :: 0 <= i < n ==> steps[..n][..i] == steps[..i] && steps[..n][i] == steps[i];
  }

  lemma StartedOk(period: nat)
    ensures Timed(Started(period)) && NotMissed(Started(period)) && NotEarly(Started(period))
  {
  }

  // ---------------------------------------------------------------- conversions between the clocks

  function ToVht(r: Rates, t: nat): int
    requires r.Ok()
  {
    (t * r.vht + r.rtc / 2) / r.rtc
  }

  function ToRtc(r: Rates, t: nat): int
    requires r.Ok()
  {
    (t * r.rtc + r.vht / 2) / r.vht
  }

  /** Times of the low frequency clock survive the conversion to the fast one and back. */
  lemma ConvertBack(r: Rates, t: nat)
    requires r.Ok()
    ensures ToVht(r, t) >= 0 && ToRtc(r, ToVht(r, t)) == t
  {
    var n, b := t * r.vht, ToVht(r, t);
    Nonnegative(t, r.vht);
    ConvertRounds(r, t);
    hide RoundDiv, ToRtc;
    RoundNonnegative(n, r.rtc);
    ConvertRounds(r, b);
    BackAgain(r.vht, r.rtc, t, b);
  }

  lemma Nonnegative(x: int, y: int)
    requires x >= 0 && y >= 0
    ensures x * y >= 0
  {
  }

  lemma RoundNonnegative(n: int, m: int)
    requires n >= 0 && m > 0
    ensures RoundDiv(n, m) >= 0
  {
    DivMonotone(0, n + m / 2, m);
    assert 0 / m == 0;
  }

  lemma BackAgain(vht: int, rtc: int, t: int, b: int)
    requires 0 < rtc < vht && b == RoundDiv(t * vht, rtc)
    ensures RoundDiv(b * rtc, vht) == t
  {
    hide RoundDiv;
    var n, x := t * vht, b * rtc;
    RoundError(n, rtc);
    assert rtc * b == x && vht * t == n;
    RoundUnique(x, vht, t);
  }

  lemma ConvertRounds(r: Rates, t: nat)
    requires r.Ok()
    ensures ToVht(r, t) == RoundDiv(t * r.vht, r.rtc) && ToRtc(r, t) == RoundDiv(t * r.rtc, r.vht)
  {
  }

  /** The time the processor sleeps to is within half a tick of the slow clock of the time asked for. */
  lemma SleepError(r: Rates, t: nat)
    requires r.Ok()
    ensures -r.vht <= 2 * (r.vht * ToRtc(r, t) - r.rtc * t) <= r.vht
  {
  }
}
