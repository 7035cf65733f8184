/**
 What absoluteWait is for, in values of the timer: a wait for a value ends when the timer shows it, or later.
 */
module TimerWait {
  import opened TimerSpec

  /** The deadline a call arms stands for the value asked for, whatever the timer was set and synchronized to. */
  lemma ArmDeadline(v: Vht, value: nat, orEvent: bool)
    requires value < U64 && (orEvent ==> value > 0)
    ensures Deadline(Arm(v, value, orEvent)) == value
    ensures Arm(v, value, orEvent).compare.enabled <==> Waits(v, value)
  {
    hide ReadTime;
  }

  /** What happens while a thread waits: nobody sets the timer or begins another wait, and the wait is not over. */
  predicate DuringWait(s: Step) {
    !s.Wait? && !s.Trigger? && !s.Set? && !s.Done?
  }

  /** If the handler finds a synchronization, it moves the deadline to where it stands for the same value, or the
      deadline is there already. */
  predicate Keeps(r: Rates, v: Vht)
    requires r.Ok()
  {
    v.rtcCapture.pending && v.rtcCapture.enabled ==>
      var moved := Moved(v, ToVht(r, v.syncRtc), Reconstruct(v, v.rtcCapture.ccr));
      Moves(v, moved) || moved == v.wakeup
  }

  ghost predicate WaitRun(r: Rates, v: Vht, steps: seq<Step>)
    requires r.Ok()
  {
    PromptRun(r, v, steps) && forall i :: 0 <= i < |steps| ==> DuringWait(steps[i])
  }

  ghost predicate AlwaysKeeps(r: Rates, v: Vht, steps: seq<Step>)
    requires r.Ok()
  {
    forall i :: 0 <= i < |steps| && steps[i] == Interrupt ==> Keeps(r, Run(r, v, steps[..i]))
  }

  /** The deadline stands for the value at every moment of the run. */
  ghost predicate Stands(r: Rates, v: Vht, value: nat, steps: seq<Step>)
    requires r.Ok()
  {
    forall i :: 0 <= i <= |steps| ==> Deadline(Run(r, v, steps[..i])) == value
  }

  /** Only a handler that neither moves the deadline nor need not changes the value it stands for. */
  lemma StepKeepsIff(r: Rates, v: Vht, s: Step)
    requires r.Ok() && Timed(v) && DuringWait(s) && v.compare.enabled
    ensures Next(r, v, s).compare.enabled
    ensures Deadline(Next(r, v, s)) == Deadline(v) <==> (s == Interrupt ==> Keeps(r, v))
  {
    if s == Interrupt {
      HandleDeadline(r, v);
    }
  }

  lemma HandleDeadline(r: Rates, v: Vht)
    requires r.Ok() && Timed(v) && v.compare.enabled
    ensures Handle(r, v).compare.enabled && (Deadline(Handle(r, v)) == Deadline(v) <==> Keeps(r, v))
  {
    hide ToVht, Timed, Reconstruct, Moves, Unsigned;
    SyncOnly(r, v);
    if v.rtcCapture.pending && v.rtcCapture.enabled {
      DeadlineKeptIff(r, v);
    }
  }

  /** The rest of the handler leaves the deadline and what it stands for. */
  lemma SyncOnly(r: Rates, v: Vht)
    requires r.Ok()
    ensures var h, w := Handle(r, v), SyncPart(r, v);
            h.wakeup == w.wakeup && h.base == w.base && h.offset == w.offset && h.syncPoint == w.syncPoint
            && h.compare.enabled == w.compare.enabled
  {
    hide SyncPart, Remaining, TurnOf, Reconstruct;
  }

  /** A wait is for the same value as long as no handler fails to move its deadline, and no longer. */
  lemma {:induction false} StandsIff(r: Rates, v: Vht, value: nat, steps: seq<Step>)
    requires r.Ok() && Timed(v) && NotMissed(v) && v.compare.enabled && Deadline(v) == value && WaitRun(r, v, steps)
    ensures Run(r, v, steps).compare.enabled
    ensures Stands(r, v, value, steps) <==> AlwaysKeeps(r, v, steps)
  {
    hide Next, Deadline, Keeps, Timed, NotMissed, Prompt;
    if steps == [] {
      assert steps[..0] == [];
    } else {
      var n := |steps| - 1;
      var front := steps[..n];
      assert forall i :: 0 <= i <= n ==> front[..i] == steps[..i];
      assert steps[..|steps|] == steps && front[..n] == front;
      PrefixRuns(r, v, steps);
      StandsIff(r, v, value, front);
      RunTimed(r, v, front);
      StepKeepsIff(r, Run(r, v, front), steps[n]);
    }
  }

  /** A wait for a value that ends by its flag does not end before the timer shows that value, if no handler brought
      its deadline back or failed to move it: what the timer shows is then the value asked for and the time since the
      deadline. */
  lemma WaitEndsInTime(r: Rates, v: Vht, value: nat, orEvent: bool, steps: seq<Step>)
    requires r.Ok() && Timed(v) && Prompt(v, Wait(value, orEvent)) && value < U64 && Waits(v, value)
    requires orEvent ==> value > 0
    requires WaitRun(r, Arm(v, value, orEvent), steps)
    requires NeverBroughtBack(r, Arm(v, value, orEvent), steps) && AlwaysKeeps(r, Arm(v, value, orEvent), steps)
    ensures var e := Run(r, Arm(v, value, orEvent), steps);
            && Deadline(e) == value
            && (e.flags.wait ==> e.wakeup <= e.now && GetValue(e) == Unsigned(value + (e.now - e.wakeup))
                                 && (value + (e.now - e.wakeup) < U64 ==> GetValue(e) >= value))
  {
    hide *;
    var a := Arm(v, value, orEvent);
    ArmBegins(v, value, orEvent);
    RunEndsInTime(r, a, value, steps);
  }

  lemma RunEndsInTime(r: Rates, a: Vht, value: nat, steps: seq<Step>)
    requires r.Ok() && Timed(a) && NotMissed(a) && NotEarly(a) && a.compare.enabled && Deadline(a) == value
    requires WaitRun(r, a, steps) && NeverBroughtBack(r, a, steps) && AlwaysKeeps(r, a, steps)
    ensures var e := Run(r, a, steps);
            && Deadline(e) == value
            && (e.flags.wait ==> e.wakeup <= e.now && GetValue(e) == Unsigned(value + (e.now - e.wakeup))
                                 && (value + (e.now - e.wakeup) < U64 ==> GetValue(e) >= value))
  {
    hide Run, Timed, NotMissed, Deadline, GetValue, NeverBroughtBack, AlwaysKeeps, PromptRun, DuringWait;
    StandsIff(r, a, value, steps);
    NeverEarlyIff(r, a, steps);
    RunTimed(r, a, steps);
    assert steps[..|steps|] == steps;
    ShowsLate(Run(r, a, steps));
  }

  lemma ArmBegins(v: Vht, value: nat, orEvent: bool)
    requires Timed(v) && Prompt(v, Wait(value, orEvent)) && value < U64 && Waits(v, value) && (orEvent ==> value > 0)
    ensures var a := Arm(v, value, orEvent);
            Timed(a) && NotMissed(a) && NotEarly(a) && a.compare.enabled && Deadline(a) == value
  {
    ArmDeadline(v, value, orEvent);
    ArmTimed(v, value, orEvent);
    ReadsTime(v);
    hide Timed, Deadline;
  }

  lemma ShowsLate(e: Vht)
    requires Timed(e)
    ensures GetValue(e) == Unsigned(Deadline(e) + (e.now - e.wakeup))
  {
    ReadsTime(e);
    hide Timed, ReadTime;
  }
}
