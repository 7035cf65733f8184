/**
 A fast mutex and a condition variable used with it, as a machine: one step for each stretch of code a thread runs
 with interrupts disabled, and for what other threads can do to it in between.
 */
module FastMutexSpec {
  import opened Wrappers

  type Tid = nat

  /** Where a thread is: outside the calls; queued in lock, or in lock to a depth; or in wait, to lock again to a
      depth once it was signalled. */
  datatype Place = Outside | Locking(target: Option<nat>) | Waiting(depth: nat)

  /** The mutex (owner, recursion depth, queue), the list of the condition variable, the flags the scheduler looks at,
      where each thread is, who asked for the mutex and who got it, and who waited and who was woken, in order. */
  datatype State = State(
    recursive: bool, owner: Option<Tid>, depth: nat, queue: seq<Tid>,
    cond: seq<Tid>, waitFlag: set<Tid>, condFlag: set<Tid>,
    places: map<Tid, Place>, arrivals: seq<Tid>, grants: seq<Tid>, waited: seq<Tid>, woken: seq<Tid>)

  function At(s: State, t: Tid): Place {
    if t in s.places then s.places[t] else Outside
  }

  /** Neither flag keeps the thread from running. */
  predicate Runs(s: State, t: Tid) {
    t !in s.waitFlag && t !in s.condFlag
  }

  datatype Step =
    | Lock(t: Tid) | Resume(t: Tid) | Unlock(t: Tid)
    | Wait(t: Tid) | Relock(t: Tid) | Signal | Broadcast
    | Wakeup(t: Tid)

  /** Who can take a step: threads that run, where they are in their calls; only owners unlock and wait. */
  predicate Enabled(s: State, step: Step) {
    match step
    case Lock(t) => Runs(s, t) && At(s, t) == Outside && (s.owner == Some(t) ==> s.recursive)
    case Resume(t) => Runs(s, t) && At(s, t).Locking?
    case Unlock(t) => Runs(s, t) && At(s, t) == Outside && s.owner == Some(t)
    case Wait(t) => Runs(s, t) && At(s, t) == Outside && s.owner == Some(t)
    case Relock(t) => Runs(s, t) && At(s, t).Waiting?
    case Signal => true
    case Broadcast => true
    case Wakeup(t) => true
  }

  /** The mutex goes to the first thread in the queue, which is woken, or becomes free. */
  function HandOver(s: State): State {
    if s.queue != [] then
      s.(owner := Some(s.queue[0]), queue := s.queue[1..], waitFlag := s.waitFlag - {s.queue[0]},
         grants := s.grants + [s.queue[0]])
    else s.(owner := None)
  }

  /** A thread that does not own the mutex asks for it; depth is what lock to a depth will set. */
  function Ask(s: State, t: Tid, target: Option<nat>): State {
    if s.owner == None then
      s.(owner := Some(t), arrivals := s.arrivals + [t], grants := s.grants + [t], places := s.places[t := Outside],
         depth := if target.Some? && s.recursive then target.value else s.depth)
    else
      s.(queue := s.queue + [t], waitFlag := s.waitFlag + {t}, arrivals := s.arrivals + [t],
         places := s.places[t := Locking(target)])
  }

  function Next(s: State, step: Step): State
    requires Enabled(s, step)
  {
    match step
    case Lock(t) => if s.owner == Some(t) then s.(depth := s.depth + 1) else Ask(s, t, None)
    case Resume(t) =>
      if s.owner != Some(t) then s.(waitFlag := s.waitFlag + {t})
      else
        var target := s.places[t].target;
        s.(places := s.places[t := Outside], depth := if target.Some? && s.recursive then target.value else s.depth)
    case Unlock(t) => if s.depth > 0 then s.(depth := s.depth - 1) else HandOver(s)
    case Wait(t) =>
      HandOver(s.(cond := s.cond + [t], condFlag := s.condFlag + {t}, waited := s.waited + [t],
                  places := s.places[t := Waiting(s.depth)])).(depth := 0)
    case Relock(t) =>
      var depth := s.places[t].depth;
      if s.owner == Some(t) then s.(depth := if s.recursive then depth else s.depth) else Ask(s, t, Some(depth))
    case Signal =>
      if s.cond == [] then s
      else s.(cond := s.cond[1..], condFlag := s.condFlag - {s.cond[0]}, woken := s.woken + [s.cond[0]])
    case Broadcast => s.(cond := [], condFlag := s.condFlag - Elements(s.cond), woken := s.woken + s.cond)
    case Wakeup(t) => s.(waitFlag := s.waitFlag - {t})
  }

  function Elements(xs: seq<Tid>): set<Tid> {
    set x | x in xs
  }

  ghost predicate Distinct(xs: seq<Tid>) {
    forall i, j :: 0 <= i < j < |xs| ==> xs[i] != xs[j]
  }

  /** A free mutex has no queue; a mutex that is not recursive is one level deep; the owner is not in wait, and if it
      has not returned from lock yet it is one level deep. */
  predicate MutexOk(s: State) {
    && (s.owner == None ==> s.queue == [] && s.depth == 0)
    && (!s.recursive ==> s.depth == 0)
    && (s.owner.Some? ==> !At(s, s.owner.value).Waiting? && (At(s, s.owner.value).Locking? ==> s.depth == 0))
  }

  /** The queue holds, once each, the threads in lock that do not own the mutex; only they can have the wait flag. */
  ghost predicate QueueOk(s: State) {
    && Distinct(s.queue)
    && (forall t :: t in s.queue ==> At(s, t).Locking? && s.owner != Some(t))
    && (forall t: Tid :: At(s, t).Locking? ==> t in s.queue || s.owner == Some(t))
    && (forall t :: t in s.waitFlag ==> t in s.queue)
  }

  /** The list of the condition variable holds, once each, the threads that are to be signalled; they are in wait. */
  ghost predicate CondOk(s: State) {
    && Distinct(s.cond)
    && (forall t: Tid :: t in s.cond <==> t in s.condFlag)
    && (forall t :: t in s.cond ==> At(s, t).Waiting?)
  }

  /** The mutex is granted in the order it was asked for, and threads are woken in the order they began to wait. */
  ghost predicate InOrder(s: State) {
    s.grants + s.queue == s.arrivals && s.woken + s.cond == s.waited
  }

  /** Holds between all steps. */
  ghost predicate Inv(s: State) {
    MutexOk(s) && QueueOk(s) && CondOk(s) && InOrder(s)
  }

  lemma AskInv(s: State, t: Tid, target: Option<nat>)
    requires Inv(s) && s.owner != Some(t) && !At(s, t).Locking? && Runs(s, t)
    ensures Inv(Ask(s, t, target))
  {
  }

  lemma HandOverInv(s: State)
    requires QueueOk(s) && CondOk(s) && InOrder(s) && s.depth == 0
    requires s.owner.Some? && !At(s, s.owner.value).Locking?
    ensures Inv(HandOver(s))
  {
    var n := HandOver(s);
    assert forall u: Tid :: At(n, u) == At(s, u);
    if s.queue != [] {
      assert s.queue[0] in s.queue;
      assert s.queue == [s.queue[0]] + s.queue[1..];
      assert s.grants + [s.queue[0]] + s.queue[1..] == s.grants + s.queue;
      assert s.queue[0] !in s.queue[1..];
    }
  }

  /** Every step keeps the invariant. */
  lemma NextInv(s: State, step: Step)
    requires Inv(s) && Enabled(s, step)
    ensures Inv(Next(s, step))
  {
    var n := Next(s, step);
    match step
    case Lock(t) => LockInv(s, t);
    case Resume(t) => assert forall u: Tid :: u != t ==> At(n, u) == At(s, u);
    case Unlock(t) => if s.depth == 0 { HandOverInv(s); }
    case Wait(t) => WaitInv(s, t);
    case Relock(t) => AskInv(s, t, Some(s.places[t].depth));
    case Signal => SignalInv(s);
    case Broadcast => assert forall u: Tid :: At(n, u) == At(s, u);
    case Wakeup(t) => assert forall u: Tid :: At(n, u) == At(s, u);
  }

  lemma LockInv(s: State, t: Tid)
    requires Inv(s) && Enabled(s, Lock(t))
    ensures Inv(Next(s, Lock(t)))
  {
  }

  lemma WaitInv(s: State, t: Tid)
    requires Inv(s) && Enabled(s, Wait(t))
    ensures Inv(Next(s, Wait(t)))
  {
    var w := s.(cond := s.cond + [t], condFlag := s.condFlag + {t}, waited := s.waited + [t],
                places := s.places[t := Waiting(s.depth)], depth := 0);
    assert forall u: Tid :: u != t ==> At(w, u) == At(s, u);
    assert t !in s.cond && t !in s.queue;
    HandOverInv(w);
    assert Next(s, Wait(t)) == HandOver(w);
  }

  lemma SignalInv(s: State)
    requires Inv(s)
    ensures Inv(Next(s, Signal))
  {
  }

  // ---------------------------------------------------------------- whole runs

  function Run(s: State, steps: seq<Step>): Option<State>
  {
    if steps == [] then Some(s)
    else
      match Run(s, steps[..|steps| - 1])
      case None => None
      case Some(r) => if Enabled(r, steps[|steps| - 1]) then Some(Next(r, steps[|steps| - 1])) else None
  }

  function Start(recursive: bool): State {
    State(recursive, None, 0, [], [], {}, {}, map[], [], [], [], [])
  }

  lemma {:induction false} RunInv(s: State, steps: seq<Step>)
    requires Inv(s) && Run(s, steps).Some?
    ensures Inv(Run(s, steps).value)
  {
    if steps != [] {
      RunInv(s, steps[..|steps| - 1]);
      NextInv(Run(s, steps[..|steps| - 1]).value, steps[|steps| - 1]);
    }
  }

  /** In every run, however the steps of the threads interleave: a free mutex has an empty queue, the owner is not
      queued and runs as far as the mutex is concerned, nobody is queued twice, and the mutex is granted in the order
      asked. */
  lemma FifoHandOver(recursive: bool, steps: seq<Step>)
    requires Run(Start(recursive), steps).Some?
    ensures var s := Run(Start(recursive), steps).value;
            && (s.owner == None ==> s.queue == [])
            && (s.owner.Some? ==> s.owner.value !in s.queue && s.owner.value !in s.waitFlag)
            && Distinct(s.queue)
            && s.grants <= s.arrivals && s.arrivals[|s.grants|..] == s.queue
  {
    RunInv(Start(recursive), steps);
  }

  /** Nobody else changes where a thread is. */
  lemma PlaceKept(s: State, step: Step, t: Tid)
    requires Inv(s) && Enabled(s, step) && At(s, t) != Outside
    ensures var n := Next(s, step);
            || At(n, t) == At(s, t)
            || (At(s, t).Waiting? && At(n, t) == Locking(Some(At(s, t).depth)))
            || (At(n, t) == Outside && n.owner == Some(t)
                && (At(s, t).Waiting? ==> n.depth == if n.recursive then At(s, t).depth else 0)
                && (At(s, t) == Locking(None) ==> n.depth == 0)
                && (At(s, t).Locking? && At(s, t).target.Some?
                    ==> n.depth == if n.recursive then At(s, t).target.value else 0))
    ensures Next(s, step).recursive == s.recursive
  {
  }

  /** A thread that is still in the wait it began at this depth. */
  predicate InWait(s: State, t: Tid, depth: nat) {
    At(s, t) == Waiting(depth) || At(s, t) == Locking(Some(depth))
  }

  /** The thread has not returned yet. */
  predicate Inside(s: Option<State>, t: Tid) {
    s.Some? && At(s.value, t) != Outside
  }

  /** A thread that waits on the condition variable owns the mutex again when wait returns, at the depth it had it
      locked at before, whatever happened in between. */
  lemma {:induction false} WaitReturnsAtDepth(s: State, t: Tid, steps: seq<Step>)
    requires Inv(s) && Enabled(s, Wait(t)) && Run(Next(s, Wait(t)), steps).Some?
    requires forall i :: 0 <= i < |steps| ==> Inside(Run(Next(s, Wait(t)), steps[..i]), t)
    ensures var n := Run(Next(s, Wait(t)), steps).value;
            && n.recursive == s.recursive
            && if At(n, t) == Outside then n.owner == Some(t) && n.depth == s.depth else InWait(n, t, s.depth)
  {
    var w := Next(s, Wait(t));
    NextInv(s, Wait(t));
    if steps == [] {
      WaitBegins(s, t);
    } else {
      var front, last := steps[..|steps| - 1], steps[|steps| - 1];
      assert forall i :: 0 <= i < |front| ==> front[..i] == steps[..i];
      WaitReturnsAtDepth(s, t, front);
      RunInv(w, front);
      NextInv(Run(w, front).value, last);
      PlaceKept(Run(w, front).value, last, t);
    }
  }

  lemma WaitBegins(s: State, t: Tid)
    requires Inv(s) && Enabled(s, Wait(t))
    ensures At(Next(s, Wait(t)), t) == Waiting(s.depth) && Next(s, Wait(t)).recursive == s.recursive
  {
  }
}
