/**
 The pin that starts a transmission: absoluteWaitTrigger, channel 4 of the timer, and the synchronizations that move the
 deadline during a call.
 */
module TimerPin {
  import opened TimerSpec
  import opened Wrappers

  // ---------------------------------------------------------------- during a call

  /** A call waits for the pin, or is over.  Until the handler has served the deadline its match is pending; the pin is
      low until a match raises it, and then stays high. */
  predicate Awaiting(v: Vht) {
    var o := v.output;
    && !v.compare.enabled
    && if !o.enabled then v.flags.trigger
       else
         && (o.pending ==> v.now < o.match_ + TURN && v.wakeup < o.match_ + U64 / 2)
         && (if v.now < v.wakeup then v.wakeup < v.now + U64 / 2 else o.pending && o.match_ == v.wakeup)
         && if o.pin then o.onMatch && o.rose.Some? && o.rose.value <= v.now
            else o.rose == None && (o.onMatch ==> !o.pending)
  }

  /** The pin rose at the deadline; or, while it is low and nothing moves the deadline, it will: it is set to rise at
      the next match and that is the deadline, or the handler still serves a match before the deadline. */
  predicate OnTime(v: Vht) {
    var o := v.output;
    if !o.enabled || o.pin then o.rose == Some(v.wakeup)
    else if o.onMatch then v.wakeup <= v.now + TURN
    else v.now < v.wakeup && (o.pending || v.wakeup > v.now + TURN)
  }

  /** A call can make the pin rise in time exactly when the deadline is ahead, and not by just one turn of the
      counter. */
  lemma FireOnTimeIff(r: Rates, v: Vht, value: nat)
    requires r.Ok() && Timed(v) && Prompt(v, Trigger(value)) && v.now < U64 / 2
    ensures Timed(Fire(v, value)) && Awaiting(Fire(v, value))
    ensures OnTime(Fire(v, value)) <==> InReach(v, value)
  {
    ReadsTime(v);
    FireTimed(v, value);
  }

  predicate InReach(v: Vht, value: nat) {
    var ahead := Signed(Target(v, value - DELAY) - v.now);
    ahead > 0 && ahead != TURN
  }

  /** The pin rises DELAY ticks before the timer shows the value asked for. */
  lemma FireValue(v: Vht, value: nat)
    requires value < U64
    ensures Virtual(Fire(v, value), Fire(v, value).wakeup + DELAY) == value
  {
  }

  /** A synchronization moves the deadline of a call, or sets the pin to rise at the next match. */
  predicate Changes(r: Rates, v: Vht)
    requires r.Ok()
  {
    v.output.enabled && (SyncPart(r, v).wakeup != v.wakeup || SyncPart(r, v).output != v.output)
  }

  /** After that the pin will rise at the deadline: it is low, and if a match is pending the handler counts two turns or
      more to the deadline, or one when the next match is the deadline; if none is, the pin is set to rise exactly when
      the next match is the deadline. */
  predicate Rises(r: Rates, v: Vht)
    requires r.Ok()
  {
    var w := SyncPart(r, v);
    && !v.output.pin
    && if v.output.pending then Remaining(w) >= 2 || (Remaining(w) == 1 && w.wakeup <= v.now + TURN)
       else w.output.onMatch == (w.wakeup <= v.now + TURN)
  }

  /** What happens while a thread waits for the pin; other threads may read and set the timer. */
  predicate DuringCall(s: Step) {
    !s.Wait? && !s.Done? && !s.Trigger? && !s.Triggered?
  }

  /** The handler runs between one match of the channel and the next. */
  predicate PromptMatch(v: Vht, s: Step) {
    s == Increment && v.output.enabled && v.output.pending ==> (v.now + 1) % TURN != v.output.ccr
  }

  /** Only a handler with such a synchronization changes whether the pin is on time, for better or for worse. */
  lemma OnTimeIff(r: Rates, v: Vht, s: Step)
    requires r.Ok() && Timed(v) && Awaiting(v) && v.now < U64 / 2
    requires DuringCall(s) && Prompt(v, s) && PromptMatch(v, s)
    ensures Awaiting(Next(r, v, s))
    ensures OnTime(Next(r, v, s)) <==> if s == Interrupt && Changes(r, v) then Rises(r, v) else OnTime(v)
  {
    hide ToVht;
    match s
    case Interrupt => HandleOnTime(r, v);
    case Increment => TickOnTime(v);
    case _ => hide Awaiting;
  }

  lemma TickOnTime(v: Vht)
    requires Timed(v) && Awaiting(v) && PromptMatch(v, Increment)
    ensures Awaiting(Tick(v)) && (OnTime(Tick(v)) <==> OnTime(v))
  {
    hide CaptureOk, CompareOk, TurnOf;
  }

  lemma HandleOnTime(r: Rates, v: Vht)
    requires r.Ok() && Timed(v) && Awaiting(v) && v.now < U64 / 2
    ensures Awaiting(Handle(r, v))
    ensures OnTime(Handle(r, v)) <==> if Changes(r, v) then Rises(r, v) else OnTime(v)
  {
    var w := SyncPart(r, v);
    SyncOutput(r, v);
    TriggerLast(w);
    hide ToVht, SyncPart, Handle, CaptureOk, CompareOk;
    ServedOnTime(v, w);
  }

  /** What a synchronization does to the output channel. */
  ghost predicate SyncedOutput(v: Vht, w: Vht) {
    && w.now == v.now && w.uif == v.uif && w.overflows == v.overflows && w.flags.trigger == v.flags.trigger
    && w.compare.enabled == v.compare.enabled && w.wakeup < U64
    && if !v.output.enabled then w.output == v.output && (v.compare.enabled || w.wakeup == v.wakeup)
       else if w.wakeup == v.wakeup
       then
         && w.output == v.output.(onMatch := w.output.onMatch) && (v.output.onMatch ==> w.output.onMatch)
         && (w.output.onMatch ==> v.output.onMatch || SoonAfter(v.now, v.wakeup))
       else
         && w.output == v.output.(ccr := w.wakeup % TURN, onMatch := v.output.onMatch || SoonAfter(v.now, w.wakeup))
         && Signed(v.wakeup - v.now) > 100 && Signed(w.wakeup - v.now) > 100
  }

  lemma SyncOutput(r: Rates, v: Vht)
    requires r.Ok() && Timed(v) && v.now < U64 / 2
    ensures SyncedOutput(v, SyncPart(r, v))
  {
    ReadsTime(v);
    hide ToVht, Reconstruct, Signed, CaptureOk, CompareOk, TurnOf;
  }

  lemma ServedOnTime(v: Vht, w: Vht)
    requires Timed(v) && Awaiting(v) && v.now < U64 / 2 && SyncedOutput(v, w)
    ensures Awaiting(TriggerPart(w))
    ensures OnTime(TriggerPart(w)) <==>
              if v.output.enabled && (w.wakeup != v.wakeup || w.output != v.output) then
                && !v.output.pin
                && if v.output.pending then Remaining(w) >= 2 || (Remaining(w) == 1 && w.wakeup <= v.now + TURN)
                   else w.output.onMatch == (w.wakeup <= v.now + TURN)
              else OnTime(v)
  {
    hide Remaining, Signed, CaptureOk, CompareOk, TurnOf;
    if v.output.enabled {
      Ahead(v.wakeup, v.now);
      Ahead(w.wakeup, v.now);
      if w.wakeup != v.wakeup {
        CountsMoved(v, w);
      } else if v.output.pending {
        CountsMatch(v, w);
      }
    }
  }

  lemma Ahead(wakeup: nat, now: nat)
    requires wakeup < U64 && now < U64 / 2
    ensures Signed(wakeup - now) > 0 ==> Signed(wakeup - now) == wakeup - now < U64 / 2
  {
  }

  /** The handler counts the turns from the match it serves to a deadline with the same low bits. */
  lemma CountsMatch(v: Vht, w: Vht)
    requires Timed(v) && Awaiting(v) && v.now < U64 / 2 && v.output.enabled && v.output.pending
    requires SyncedOutput(v, w) && w.wakeup == v.wakeup
    ensures v.wakeup - v.output.match_ == TURN * Remaining(w)
  {
    hide Signed, TurnOf;
    MatchTurn(v);
    WholeTurns(v.wakeup, v.output.match_);
  }

  lemma MatchTurn(v: Vht)
    requires Timed(v) && v.output.enabled && v.output.pending && v.now < v.output.match_ + TURN
    ensures v.overflows + (if v.uif && v.output.ccr <= Cnt(v) then TURN else 0) == TurnOf(v.output.match_)
  {
    hide CaptureOk, CompareOk;
  }

  lemma WholeTurns(x: nat, m: nat)
    requires x % TURN == m % TURN && m <= x < m + U64 / 2
    ensures x - m == TURN * (Signed(x - TurnOf(m)) / TURN)
  {
    var n := x / TURN - m / TURN;
    assert x - m == TURN * n;
    assert x - TurnOf(m) == TURN * n + m % TURN < U64 / 2;
  }

  lemma CountsMoved(v: Vht, w: Vht)
    requires Timed(v) && v.now < U64 / 2 && v.output.enabled
    requires SyncedOutput(v, w) && w.wakeup != v.wakeup
    ensures Remaining(w) >= 2 ==> w.wakeup > v.now + TURN
  {
    hide CaptureOk, CompareOk, TurnOf, Signed, Unsigned;
    var reached := w.overflows + if w.uif && w.output.ccr <= Cnt(w) then TURN else 0;
    TurnBounds(v.now);
    Ahead(w.wakeup, reached);
    if Remaining(w) >= 2 && reached != TurnOf(v.now) {
      LowBits(w.wakeup, v.now);
    }
  }

  lemma TurnBounds(now: nat)
    ensures TurnOf(now) <= now < TurnOf(now) + TURN
  {
  }

  lemma LowBits(x: nat, now: nat)
    requires x >= TurnOf(now) + TURN && x % TURN > now % TURN
    ensures x > now + TURN
  {
  }

  // ---------------------------------------------------------------- whole calls

  /** The steps while a thread waits for the pin, each interrupt served before the next of its kind. */
  ghost predicate CallRun(r: Rates, v: Vht, steps: seq<Step>)
    requires r.Ok()
  {
    && PromptRun(r, v, steps)
    && forall i :: 0 <= i < |steps| ==> DuringCall(steps[i]) && PromptMatch(Run(r, v, steps[..i]), steps[i])
  }

  lemma CallPrefix(r: Rates, v: Vht, steps: seq<Step>)
    requires r.Ok() && steps != [] && CallRun(r, v, steps)
    ensures var n := |steps| - 1;
            && CallRun(r, v, steps[..n]) && DuringCall(steps[n]) && Prompt(Run(r, v, steps[..n]), steps[n])
            && PromptMatch(Run(r, v, steps[..n]), steps[n]) && Run(r, v, steps[..n]).now < U64 / 2
  {
    hide Run, DuringCall, Prompt, PromptMatch;
    var front := steps[..|steps| - 1];
    assert forall i :: 0 <= i < |front| ==> front[..i] == steps[..i] && front[i] == steps[i];
  }

  /** The last synchronization that changed the deadline or the channel lets the pin rise at the deadline; if there was
      none, the call did. */
  ghost predicate WillRise(r: Rates, v: Vht, value: nat, steps: seq<Step>)
    requires r.Ok()
  {
    if steps == [] then InReach(v, value)
    else
      var n := |steps| - 1;
      var u := Run(r, Fire(v, value), steps[..n]);
      if steps[n] == Interrupt && Changes(r, u) then Rises(r, u) else WillRise(r, v, value, steps[..n])
  }

  lemma {:induction false} CallOnTimeIff(r: Rates, v: Vht, value: nat, steps: seq<Step>)
    requires r.Ok() && Timed(v) && Prompt(v, Trigger(value)) && v.now < U64 / 2 && CallRun(r, Fire(v, value), steps)
    ensures var e := Run(r, Fire(v, value), steps);
            Timed(e) && Awaiting(e) && (OnTime(e) <==> WillRise(r, v, value, steps))
  {
    if steps == [] {
      FireOnTimeIff(r, v, value);
    } else {
      hide OnTime, Awaiting, Changes, Rises, Timed, Next, Fire, InReach;
      var n := |steps| - 1;
      var u := Run(r, Fire(v, value), steps[..n]);
      CallPrefix(r, Fire(v, value), steps);
      CallOnTimeIff(r, v, value, steps[..n]);
      NextTimed(r, u, steps[n]);
      OnTimeIff(r, u, steps[n]);
    }
  }

  /** When a call that waits for the pin ends, the pin rose exactly at the deadline if and only if the last
      synchronization that changed the deadline or the channel during the call left it in reach; if there was none, if
      and only if the deadline was ahead when the call began, and not by just one turn of the counter. */
  lemma TriggerExactIff(r: Rates, v: Vht, value: nat, steps: seq<Step>)
    requires r.Ok() && Timed(v) && Prompt(v, Trigger(value)) && v.now < U64 / 2 && CallRun(r, Fire(v, value), steps)
    requires Run(r, Fire(v, value), steps).flags.trigger
    ensures var e := Run(r, Fire(v, value), steps); e.output.rose == Some(e.wakeup) <==> WillRise(r, v, value, steps)
  {
    CallOnTimeIff(r, v, value, steps);
    hide WillRise, Run, CallRun, Fire, Awaiting;
  }

  /** No synchronization changes the deadline or the channel. */
  ghost predicate NeverChanged(r: Rates, v: Vht, steps: seq<Step>)
    requires r.Ok()
  {
    steps == [] ||
    var n := |steps| - 1;
    NeverChanged(r, v, steps[..n]) && (steps[n] == Interrupt ==> !Changes(r, Run(r, v, steps[..n])))
  }

  /** The pin is low and not set to rise, and the deadline is the next match or has come. */
  predicate Missing(v: Vht) {
    Awaiting(v) && !OnTime(v) && v.output.rose == None && !v.output.onMatch
  }

  lemma MissingStep(r: Rates, v: Vht, s: Step)
    requires r.Ok() && Timed(v) && Missing(v) && v.now < U64 / 2
    requires DuringCall(s) && Prompt(v, s) && PromptMatch(v, s) && (s == Interrupt ==> !Changes(r, v))
    ensures Missing(Next(r, v, s))
  {
    OnTimeIff(r, v, s);
    hide ToVht, CaptureOk, CompareOk, Signed;
    match s
    case Interrupt => HandleMissing(r, v);
    case _ => hide Moves;
  }

  lemma HandleMissing(r: Rates, v: Vht)
    requires r.Ok() && Timed(v) && Missing(v) && v.now < U64 / 2 && !Changes(r, v)
    ensures Handle(r, v).output.rose == None && !Handle(r, v).output.onMatch
  {
    var w := SyncPart(r, v);
    SyncOutput(r, v);
    TriggerLast(w);
    hide ToVht, SyncPart, Handle, CaptureOk, CompareOk, Signed, TurnOf, Remaining;
    if v.output.enabled && v.output.pending {
      CountsMatch(v, w);
    }
  }

  /** With a deadline just one turn ahead the pin never rises, unless a synchronization changes the deadline or the
      channel. */
  lemma {:induction false} OneTurnMissed(r: Rates, v: Vht, value: nat, steps: seq<Step>)
    requires r.Ok() && Timed(v) && Prompt(v, Trigger(value)) && v.now < U64 / 2
    requires CallRun(r, Fire(v, value), steps) && NeverChanged(r, Fire(v, value), steps)
    requires Signed(Target(v, value - DELAY) - v.now) == TURN
    ensures var e := Run(r, Fire(v, value), steps); Timed(e) && Missing(e) && e.output.rose == None
  {
    if steps == [] {
      FireOnTimeIff(r, v, value);
    } else {
      hide Timed, Awaiting, OnTime, Next, DuringCall, PromptMatch, Prompt, Changes, Fire, Target, Signed;
      var n := |steps| - 1;
      var u := Run(r, Fire(v, value), steps[..n]);
      CallPrefix(r, Fire(v, value), steps);
      OneTurnMissed(r, v, value, steps[..n]);
      NextTimed(r, u, steps[n]);
      MissingStep(r, u, steps[n]);
    }
  }
}
