/**
 Runs of the fast mutex and its condition variable: after how many signals a thread that waits is woken, after how many
 releases a thread that asks has the mutex, and how many unlocks a release takes.
 */
module FastMutexRuns {
  import opened FastMutexSpec
  import opened Wrappers

  lemma Prefix(s: State, steps: seq<Step>)
    requires Inv(s) && steps != [] && Run(s, steps).Some?
    ensures var front, last := steps[..|steps| - 1], steps[|steps| - 1];
            && Run(s, front).Some? && Inv(Run(s, front).value) && Enabled(Run(s, front).value, last)
            && Run(s, steps) == Some(Next(Run(s, front).value, last)) && Inv(Run(s, steps).value)
  {
    RunInv(s, steps[..|steps| - 1]);
    RunInv(s, steps);
  }

  // ---------------------------------------------------------------- signals

  function Signals(steps: seq<Step>): nat {
    if steps == [] then 0
    else Signals(steps[..|steps| - 1]) + if steps[|steps| - 1] == Signal then 1 else 0
  }

  /** A broadcast, or more signals than there are threads to be signalled before. */
  predicate Reached(steps: seq<Step>, ahead: nat) {
    Broadcast in steps || Signals(steps) > ahead
  }

  /** A signal wakes exactly one thread whenever one waits, the one that began to wait first; a broadcast all of them.
      Nothing else wakes anybody. */
  lemma StepWakes(s: State, step: Step)
    requires Inv(s) && Enabled(s, step)
    ensures var n := Next(s, step);
            && n.waited == (if step.Wait? then s.waited + [step.t] else s.waited)
            && n.woken == match step
                          case Signal => if |s.woken| < |s.waited| then s.waited[..|s.woken| + 1] else s.waited
                          case Broadcast => s.waited
                          case _ => s.woken
  {
    NextInv(s, step);
    assert s.woken == s.waited[..|s.woken|];
  }

  /** In every interleaving the threads woken are the first of those that began to wait, in that order, and the others
      are those still to be signalled. */
  lemma FifoWakeup(recursive: bool, steps: seq<Step>)
    requires Run(Start(recursive), steps).Some?
    ensures var s := Run(Start(recursive), steps).value;
            && s.woken <= s.waited && s.waited[|s.woken|..] == s.cond
            && forall t: Tid :: t in s.condFlag <==> t in s.waited[|s.woken|..]
  {
    RunInv(Start(recursive), steps);
  }

  /** Behind k threads that are still to be signalled, a wait is ended by signal k + 1 or by the first broadcast, and by
      nothing before. */
  lemma {:induction false} WokenIff(s: State, t: Tid, steps: seq<Step>)
    requires Inv(s) && Enabled(s, Wait(t)) && Run(Next(s, Wait(t)), steps).Some?
    ensures var n := Run(Next(s, Wait(t)), steps).value;
            && |n.waited| > |s.waited| && n.waited[|s.waited|] == t
            && (|n.woken| > |s.waited| <==> Reached(steps, |s.cond|))
            && (!Reached(steps, |s.cond|) ==> |n.woken| == |s.woken| + Signals(steps))
  {
    hide Next, Inv, Enabled;
    NextInv(s, Wait(t));
    StepWakes(s, Wait(t));
    assert |s.waited| == |s.woken| + |s.cond| by { Lengths(s); }
    if steps != [] {
      var front, last := steps[..|steps| - 1], steps[|steps| - 1];
      Prefix(Next(s, Wait(t)), steps);
      WokenIff(s, t, front);
      var r := Run(Next(s, Wait(t)), front).value;
      StepWakes(r, last);
      Lengths(r);
      assert steps == front + [last];
    }
  }

  lemma Lengths(s: State)
    requires Inv(s)
    ensures |s.waited| == |s.woken| + |s.cond| && |s.arrivals| == |s.grants| + |s.queue|
    ensures s.woken <= s.waited && s.grants <= s.arrivals
  {
  }

  /** A thread in wait does not begin to wait again. */
  lemma {:induction false} WaitsOnce(s: State, t: Tid, steps: seq<Step>)
    requires Inv(s) && Enabled(s, Wait(t)) && Run(Next(s, Wait(t)), steps).Some?
    requires forall i :: 0 <= i < |steps| ==> Inside(Run(Next(s, Wait(t)), steps[..i]), t)
    ensures var n := Run(Next(s, Wait(t)), steps).value;
            |n.waited| > |s.waited| && t !in n.waited[|s.waited| + 1..]
  {
    hide Next, Inv;
    NextInv(s, Wait(t));
    StepWakes(s, Wait(t));
    if steps != [] {
      var front, last := steps[..|steps| - 1], steps[|steps| - 1];
      assert forall i :: 0 <= i < |front| ==> front[..i] == steps[..i];
      Prefix(Next(s, Wait(t)), steps);
      WaitsOnce(s, t, front);
      assert steps[..|front|] == front;
      StepWakes(Run(Next(s, Wait(t)), front).value, last);
    }
  }

  /** A thread that began to wait behind k others is kept from running until signal k + 1 or the first broadcast, and
      from then on it runs, to ask for the mutex again. */
  lemma SignalledIff(s: State, t: Tid, steps: seq<Step>)
    requires Inv(s) && Enabled(s, Wait(t)) && Run(Next(s, Wait(t)), steps).Some?
    requires forall i :: 0 <= i < |steps| ==> Inside(Run(Next(s, Wait(t)), steps[..i]), t)
    ensures var n := Run(Next(s, Wait(t)), steps).value;
            && (t !in n.condFlag <==> Reached(steps, |s.cond|))
            && (t in n.condFlag ==> At(n, t) == Waiting(s.depth))
            && (At(n, t).Waiting? ==> (Runs(n, t) <==> Reached(steps, |s.cond|)))
  {
    hide Next, Reached;
    NextInv(s, Wait(t));
    RunInv(Next(s, Wait(t)), steps);
    WokenIff(s, t, steps);
    WaitsOnce(s, t, steps);
    WaitReturnsAtDepth(s, t, steps);
    var n, i := Run(Next(s, Wait(t)), steps).value, |s.waited|;
    if |n.woken| > i {
      assert n.cond == n.waited[i + 1..][|n.woken| - i - 1..];
    } else {
      assert n.cond[i - |n.woken|] == t;
    }
  }

  // ---------------------------------------------------------------- releases

  /** The steps in which the owner gives the mutex up: the unlock of the last level, and wait at any level. */
  predicate Releases(s: State, step: Step) {
    step.Wait? || (step.Unlock? && s.depth == 0)
  }

  /** How often the mutex is given up in a run. */
  function ReleaseCount(s: State, steps: seq<Step>): nat
    requires Run(s, steps).Some?
    decreases |steps|
  {
    if steps == [] then 0
    else
      var front := steps[..|steps| - 1];
      ReleaseCount(s, front) + if Releases(Run(s, front).value, steps[|steps| - 1]) then 1 else 0
  }

  /** A thread asks for the mutex, in lock or to lock again after wait. */
  predicate Asks(s: State, step: Step, t: Tid) {
    (step == Lock(t) || step == Relock(t)) && s.owner != Some(t)
  }

  /** The mutex changes hands when it is given up, and when it is free and asked for; it is then the turn of the thread
      that asked first of all that still wait for it, if any.  It is one level deep then, unless it is taken again
      after wait. */
  lemma StepGrants(s: State, step: Step)
    requires Inv(s) && Enabled(s, step)
    ensures var n := Next(s, step);
            && n.arrivals == (if (step.Lock? || step.Relock?) && s.owner != Some(step.t) then s.arrivals + [step.t]
                              else s.arrivals)
            && n.grants == (if (s.owner == None || Releases(s, step)) && |s.grants| < |n.arrivals|
                            then n.arrivals[..|s.grants| + 1] else s.grants)
            && n.owner == if s.owner.Some? && !Releases(s, step) then s.owner
                          else if |s.grants| < |n.arrivals| then Some(n.arrivals[|s.grants|]) else None
    ensures Next(s, step).owner != s.owner && !step.Relock? ==> Next(s, step).depth == 0
  {
    NextInv(s, step);
    Lengths(s);
    if s.owner == None {
      assert s.grants == s.arrivals;
    }
  }

  /** A thread that asks for a mutex while another one owns it and k more are queued has it after the mutex was given up
      k + 1 times, and not before. */
  lemma {:induction false} GrantedIff(s: State, step: Step, t: Tid, steps: seq<Step>)
    requires Inv(s) && Enabled(s, step) && Asks(s, step, t) && s.owner.Some? && Run(Next(s, step), steps).Some?
    ensures var n := Run(Next(s, step), steps).value;
            && |n.arrivals| > |s.arrivals| && n.arrivals[|s.arrivals|] == t
            && (|n.grants| > |s.arrivals| <==> ReleaseCount(Next(s, step), steps) > |s.queue|)
            && (ReleaseCount(Next(s, step), steps) <= |s.queue| ==>
                  |n.grants| == |s.grants| + ReleaseCount(Next(s, step), steps) && n.owner.Some?)
  {
    hide Next, Inv, Enabled;
    NextInv(s, step);
    StepGrants(s, step);
    Lengths(s);
    if steps != [] {
      var front, last := steps[..|steps| - 1], steps[|steps| - 1];
      Prefix(Next(s, step), steps);
      GrantedIff(s, step, t, front);
      var r := Run(Next(s, step), front).value;
      StepGrants(r, last);
      Lengths(r);
    }
  }

  /** A thread that asked is in lock until it has the mutex, and does not ask again. */
  lemma {:induction false} AsksOnce(s: State, step: Step, t: Tid, steps: seq<Step>)
    requires Inv(s) && Enabled(s, step) && Asks(s, step, t) && s.owner.Some? && Run(Next(s, step), steps).Some?
    requires forall i :: 0 <= i < |steps| ==> Inside(Run(Next(s, step), steps[..i]), t)
    ensures var n := Run(Next(s, step), steps).value;
            |n.arrivals| > |s.arrivals| && t !in n.arrivals[|s.arrivals| + 1..] && !At(n, t).Waiting?
  {
    hide Inv;
    NextInv(s, step);
    StepGrants(s, step);
    if steps != [] {
      var front, last := steps[..|steps| - 1], steps[|steps| - 1];
      assert forall i :: 0 <= i < |front| ==> front[..i] == steps[..i];
      Prefix(Next(s, step), steps);
      AsksOnce(s, step, t, front);
      assert steps[..|front|] == front;
      var r := Run(Next(s, step), front).value;
      StepGrants(r, last);
      PlaceKept(r, last, t);
    }
  }

  /** Such a thread owns the mutex, and can run, from the release of the last thread ahead of it until lock returns. */
  lemma LockedIff(s: State, step: Step, t: Tid, steps: seq<Step>)
    requires Inv(s) && Enabled(s, step) && Asks(s, step, t) && s.owner.Some? && Run(Next(s, step), steps).Some?
    requires forall i :: 0 <= i < |steps| ==> Inside(Run(Next(s, step), steps[..i]), t)
    ensures var n, count := Run(Next(s, step), steps).value, ReleaseCount(Next(s, step), steps);
            && (t in n.queue <==> count <= |s.queue|)
            && (At(n, t).Locking? ==> (n.owner == Some(t) <==> count > |s.queue|))
            && (count > |s.queue| ==> Runs(n, t))
  {
    hide Next, ReleaseCount;
    NextInv(s, step);
    RunInv(Next(s, step), steps);
    GrantedIff(s, step, t, steps);
    AsksOnce(s, step, t, steps);
    var n, i := Run(Next(s, step), steps).value, |s.arrivals|;
    if |n.grants| > i {
      assert n.queue == n.arrivals[i + 1..][|n.grants| - i - 1..];
    } else {
      assert n.queue[i - |n.grants|] == t;
    }
  }

  /** The thread has gone to sleep since the scheduler last woke it. */
  predicate Slept(steps: seq<Step>, t: Tid) {
    steps != []
    && match steps[|steps| - 1]
       case Wakeup(u) => u != t && Slept(steps[..|steps| - 1], t)
       case Lock(u) => u == t || Slept(steps[..|steps| - 1], t)
       case Relock(u) => u == t || Slept(steps[..|steps| - 1], t)
       case Resume(u) => u == t || Slept(steps[..|steps| - 1], t)
       case _ => Slept(steps[..|steps| - 1], t)
  }

  /** Woken for no reason, a thread in the queue goes back to sleep when it sees that the mutex is not its own; it does
      not run otherwise. */
  lemma {:induction false} SleepsIff(recursive: bool, steps: seq<Step>, t: Tid)
    requires Run(Start(recursive), steps).Some?
    ensures var s := Run(Start(recursive), steps).value; t in s.queue ==> (t in s.waitFlag <==> Slept(steps, t))
  {
    if steps != [] {
      Prefix(Start(recursive), steps);
      SleepsIff(recursive, steps[..|steps| - 1], t);
    }
  }

  // ---------------------------------------------------------------- levels

  /** How many levels deeper the thread has locked, or less deep if negative. */
  function Deeper(steps: seq<Step>, t: Tid): int {
    if steps == [] then 0
    else
      var last := steps[|steps| - 1];
      Deeper(steps[..|steps| - 1], t) + if last == Lock(t) then 1 else if last == Unlock(t) then -1 else 0
  }

  /** The owner keeps the mutex as long as it has made no more unlocks than locks and does not wait, and is as deep in
      it as their difference says. */
  lemma {:induction false} KeptWhileDeep(s: State, t: Tid, steps: seq<Step>)
    requires Inv(s) && s.owner == Some(t) && At(s, t) == Outside && Run(s, steps).Some? && Wait(t) !in steps
    requires forall i :: 0 <= i <= |steps| ==> s.depth + Deeper(steps[..i], t) >= 0
    ensures var n := Run(s, steps).value;
            n.owner == Some(t) && At(n, t) == Outside && n.depth == s.depth + Deeper(steps, t)
  {
    if steps != [] {
      var front, last := steps[..|steps| - 1], steps[|steps| - 1];
      assert forall i :: 0 <= i <= |front| ==> front[..i] == steps[..i];
      assert steps[..|steps|] == steps;
      Prefix(s, steps);
      KeptWhileDeep(s, t, front);
    }
  }

  /** A thread just granted the mutex needs one unlock to give it up, and n + 1 if it locks it n times more; the unlock
      that does gives it to the thread that asked first. */
  lemma UnlockReleasesIff(s: State, t: Tid, steps: seq<Step>)
    requires Inv(s) && s.owner == Some(t) && At(s, t) == Outside && Wait(t) !in steps
    requires forall i :: 0 <= i <= |steps| ==> s.depth + Deeper(steps[..i], t) >= 0
    requires Run(s, steps).Some? && Enabled(Run(s, steps).value, Unlock(t))
    ensures var n := Run(s, steps).value;
            var u := Next(n, Unlock(t));
            if s.depth + Deeper(steps, t) > 0 then u.owner == Some(t)
            else if |n.grants| < |n.arrivals|
              then u.owner == Some(n.arrivals[|n.grants|]) && u.depth == 0 && u.owner.value in n.queue
              else u.owner == None
  {
    KeptWhileDeep(s, t, steps);
    RunInv(s, steps);
    StepGrants(Run(s, steps).value, Unlock(t));
  }
}
