/**
 Sleeping threads, in a list sorted by when they are to be woken, and the tick that wakes them.
 */
module SleepingList {

  type Tid = nat

  datatype Sleeper = Sleeper(thread: Tid, wakeup: int)

  /** The system tick, and the list. */
  datatype State = State(tick: int, list: seq<Sleeper>)

  predicate Sorted(list: seq<Sleeper>) {
    forall i, j :: 0 <= i < j < |list| ==> list[i].wakeup <= list[j].wakeup
  }

  /** The list is sorted, everything in it is still to come, and no thread is in it twice. */
  predicate Ok(s: State) {
    && Sorted(s.list)
    && (forall i :: 0 <= i < |s.list| ==> s.list[i].wakeup > s.tick)
    && Apart(s.list)
  }

  predicate Asleep(s: State, t: Tid) {
    exists i :: 0 <= i < |s.list| && s.list[i].thread == t
  }

  /** In front of the first sleeper that is not woken before it. */
  function Insert(list: seq<Sleeper>, x: Sleeper): seq<Sleeper> {
    if list == [] || x.wakeup <= list[0].wakeup then [x] + list else [list[0]] + Insert(list[1..], x)
  }

  /** The sleepers at the front whose time is exactly this tick are dropped. */
  function Due(list: seq<Sleeper>, tick: int): (k: nat)
    ensures k <= |list|
  {
    if list != [] && list[0].wakeup == tick then Due(list[1..], tick) + 1 else 0
  }

  function Tick(s: State): State {
    State(s.tick + 1, s.list[Due(s.list, s.tick + 1)..])
  }

  const U32 := 0x1_0000_0000

  /** How many ticks a sleep of ms milliseconds takes, in 32 bit arithmetic; at least one. */
  function Ticks(ms: nat, freq: nat): nat {
    var n := ms * freq % U32 / 1000;
    if n > 0 then n else 1
  }

  datatype Step = Ticking | Sleep(t: Tid, ms: nat) | SleepUntil(t: Tid, absolute: int)

  /** Only threads that are not asleep can call sleep. */
  predicate Enabled(s: State, step: Step) {
    step != Ticking ==> !Asleep(s, step.t)
  }

  function Next(freq: nat, s: State, step: Step): State {
    match step
    case Ticking => Tick(s)
    case Sleep(t, ms) => if ms == 0 then s else s.(list := Insert(s.list, Sleeper(t, s.tick + Ticks(ms, freq))))
    case SleepUntil(t, absolute) => if absolute <= s.tick then s else s.(list := Insert(s.list, Sleeper(t, absolute)))
  }

  // ---------------------------------------------------------------- one step

  /** Where the new sleeper goes: behind all that are woken before it. */
  function Place(list: seq<Sleeper>, x: Sleeper): (k: nat)
    ensures k <= |list|
    ensures forall i :: 0 <= i < k ==> list[i].wakeup < x.wakeup
    ensures k < |list| ==> x.wakeup <= list[k].wakeup
  {
    if list == [] || x.wakeup <= list[0].wakeup then 0
    else
      var k := Place(list[1..], x);
      assert forall i :: 1 <= i < k + 1 ==> list[i] == list[1..][i - 1];
      k + 1
  }

  lemma PlaceIs(list: seq<Sleeper>, x: Sleeper)
    ensures var k := Place(list, x);
            k <= |list| && (forall i :: 0 <= i < k ==> list[i].wakeup < x.wakeup)
              && (k < |list| ==> x.wakeup <= list[k].wakeup)
  {
  }

  /** Inserting adds one sleeper and keeps the order of all others. */
  lemma {:induction false} InsertIs(list: seq<Sleeper>, x: Sleeper)
    ensures Insert(list, x) == Spliced(list, Place(list, x), x)
  {
    if list != [] && x.wakeup > list[0].wakeup {
      InsertIs(list[1..], x);
      var k := Place(list[1..], x);
      assert [list[0]] + (list[1..][..k] + [x] + list[1..][k..]) == list[..k + 1] + [x] + list[k + 1..];
    }
  }

  /** x between the first k elements and the others. */
  function Spliced(list: seq<Sleeper>, k: nat, x: Sleeper): seq<Sleeper>
    requires k <= |list|
  {
    list[..k] + [x] + list[k..]
  }

  predicate Apart(list: seq<Sleeper>) {
    forall i, j :: 0 <= i < j < |list| ==> list[i].thread != list[j].thread
  }

  lemma SpliceSorted(list: seq<Sleeper>, k: nat, x: Sleeper)
    requires Sorted(list) && k <= |list|
    requires (forall i :: 0 <= i < k ==> list[i].wakeup < x.wakeup) && (k < |list| ==> x.wakeup <= list[k].wakeup)
    ensures Sorted(Spliced(list, k, x))
  {
  }

  lemma SpliceApart(list: seq<Sleeper>, k: nat, x: Sleeper)
    requires Apart(list) && k <= |list| && forall i :: 0 <= i < |list| ==> list[i].thread != x.thread
    ensures Apart(Spliced(list, k, x))
  {
  }

  lemma SpliceElements(list: seq<Sleeper>, k: nat, x: Sleeper)
    requires k <= |list|
    ensures forall y :: y in Spliced(list, k, x) <==> y == x || y in list
  {
  }

  lemma InsertOk(s: State, x: Sleeper)
    requires Ok(s) && x.wakeup > s.tick && !Asleep(s, x.thread)
    ensures Ok(s.(list := Insert(s.list, x)))
    ensures forall y :: y in Insert(s.list, x) <==> y == x || y in s.list
  {
    InsertIs(s.list, x);
    PlaceIs(s.list, x);
    SpliceSorted(s.list, Place(s.list, x), x);
    SpliceApart(s.list, Place(s.list, x), x);
    SpliceElements(s.list, Place(s.list, x), x);
    AllLater(s, Insert(s.list, x), x);
  }

  lemma AllLater(s: State, list: seq<Sleeper>, x: Sleeper)
    requires Ok(s) && x.wakeup > s.tick && forall y :: y in list <==> y == x || y in s.list
    ensures forall i :: 0 <= i < |list| ==> list[i].wakeup > s.tick
  {
    forall i | 0 <= i < |list| ensures list[i].wakeup > s.tick {
      assert list[i] in list;
    }
  }

  /** In a sorted list of sleepers whose time has not passed, those that are due are exactly those at the front. */
  lemma {:induction false} DueIs(list: seq<Sleeper>, tick: int)
    requires Sorted(list) && forall i :: 0 <= i < |list| ==> list[i].wakeup >= tick
    ensures forall i :: 0 <= i < |list| ==> (i < Due(list, tick) <==> list[i].wakeup == tick)
  {
    if list != [] && list[0].wakeup == tick {
      DueIs(list[1..], tick);
      assert forall i :: 1 <= i < |list| ==> list[i] == list[1..][i - 1];
    }
  }

  lemma TickOk(s: State)
    requires Ok(s)
    ensures Ok(Tick(s))
    ensures forall y :: y in Tick(s).list <==> y in s.list && y.wakeup != s.tick + 1
  {
    DueIs(s.list, s.tick + 1);
    DropFront(s.list, Due(s.list, s.tick + 1), s.tick + 1);
  }

  /** Dropping all that are due leaves the others, which come later. */
  lemma DropFront(list: seq<Sleeper>, k: nat, tick: int)
    requires Sorted(list) && Apart(list) && k <= |list|
    requires forall i :: 0 <= i < |list| ==> list[i].wakeup >= tick && (i < k <==> list[i].wakeup == tick)
    ensures Sorted(list[k..]) && Apart(list[k..]) && forall i :: 0 <= i < |list[k..]| ==> list[k..][i].wakeup > tick
    ensures forall y :: y in list[k..] <==> y in list && y.wakeup != tick
  {
  }

  lemma NextOk(freq: nat, s: State, step: Step)
    requires Ok(s) && Enabled(s, step)
    ensures Ok(Next(freq, s, step)) && Next(freq, s, step).tick >= s.tick
    ensures forall y :: y in s.list && y.wakeup > Next(freq, s, step).tick ==> y in Next(freq, s, step).list
  {
    match step
    case Ticking => TickOk(s);
    case Sleep(t, ms) => if ms > 0 { InsertOk(s, Sleeper(t, s.tick + Ticks(ms, freq))); }
    case SleepUntil(t, absolute) => if absolute > s.tick { InsertOk(s, Sleeper(t, absolute)); }
  }

  // ---------------------------------------------------------------- whole runs

  /** All the steps can be taken, one after the other. */
  predicate CanRun(freq: nat, s: State, steps: seq<Step>) {
    steps == []
      || (CanRun(freq, s, steps[..|steps| - 1]) && Enabled(Run(freq, s, steps[..|steps| - 1]), steps[|steps| - 1]))
  }

  function Run(freq: nat, s: State, steps: seq<Step>): State {
    if steps == [] then s else Next(freq, Run(freq, s, steps[..|steps| - 1]), steps[|steps| - 1])
  }

  /** A sleeper is in the list until the tick equal to its time, and from that tick on it is not: no tick is missed
      and no thread is woken early. */
  lemma {:induction false} WokenExactly(freq: nat, s: State, steps: seq<Step>, x: Sleeper)
    requires Ok(s) && x in s.list && CanRun(freq, s, steps)
    ensures var r := Run(freq, s, steps); Ok(r) && r.tick >= s.tick && (x in r.list <==> r.tick < x.wakeup)
  {
    if steps != [] {
      WokenExactly(freq, s, steps[..|steps| - 1], x);
      NextOk(freq, Run(freq, s, steps[..|steps| - 1]), steps[|steps| - 1]);
    }
  }

  function TickCount(steps: seq<Step>): nat {
    if steps == [] then 0
    else TickCount(steps[..|steps| - 1]) + if steps[|steps| - 1] == Ticking then 1 else 0
  }

  /** Steps of the tick and of other threads. */
  predicate NotBy(steps: seq<Step>, t: Tid) {
    forall i :: 0 <= i < |steps| ==> steps[i] == Ticking || steps[i].t != t
  }

  /** A thread that makes no call is asleep at the end of a run if it was before, and its time has not come. */
  lemma {:induction false} StillAsleepIff(freq: nat, s: State, steps: seq<Step>, t: Tid, wakeup: int)
    requires Ok(s) && CanRun(freq, s, steps) && NotBy(steps, t)
    requires Asleep(s, t) ==> Sleeper(t, wakeup) in s.list
    ensures var r := Run(freq, s, steps);
            && Ok(r) && r.tick == s.tick + TickCount(steps)
            && (Asleep(r, t) <==> Asleep(s, t) && r.tick < wakeup)
            && (Asleep(r, t) ==> Sleeper(t, wakeup) in r.list)
  {
    hide Ok, Next, Asleep;
    if steps == [] {
      OneTime(s, t, wakeup);
    } else {
      var front, last := steps[..|steps| - 1], steps[|steps| - 1];
      StillAsleepIff(freq, s, front, t, wakeup);
      OnlyAsleep(freq, Run(freq, s, front), last, t, wakeup);
    }
  }

  lemma OneTime(s: State, t: Tid, wakeup: int)
    requires Ok(s) && (Asleep(s, t) ==> Sleeper(t, wakeup) in s.list)
    ensures Asleep(s, t) ==> wakeup > s.tick
  {
  }

  lemma OnlyAsleep(freq: nat, s: State, step: Step, t: Tid, wakeup: int)
    requires Ok(s) && Enabled(s, step) && (step == Ticking || step.t != t)
    requires Asleep(s, t) ==> Sleeper(t, wakeup) in s.list
    ensures var n := Next(freq, s, step);
            && Ok(n) && n.tick == s.tick + (if step == Ticking then 1 else 0)
            && (Asleep(n, t) <==> Asleep(s, t) && wakeup > n.tick)
            && (Asleep(n, t) ==> Sleeper(t, wakeup) in n.list)
  {
    NextOk(freq, s, step);
    ElsewhereKept(freq, s, step, t);
    var n := Next(freq, s, step);
    if Asleep(s, t) {
      assert forall y :: y in s.list && y.thread == t ==> y == Sleeper(t, wakeup);
    }
    if i :| 0 <= i < |n.list| && n.list[i].thread == t {
      assert n.list[i] in s.list;
    }
  }

  /** The sleepers of a thread that makes no call. */
  lemma ElsewhereKept(freq: nat, s: State, step: Step, t: Tid)
    requires Ok(s) && Enabled(s, step) && (step == Ticking || step.t != t)
    ensures var n := Next(freq, s, step);
            n.tick == s.tick + (if step == Ticking then 1 else 0)
            && forall y: Sleeper :: y.thread == t ==> (y in n.list <==> y in s.list && y.wakeup > n.tick)
  {
    match step
    case Ticking => TickOk(s);
    case Sleep(u, ms) => if ms > 0 { InsertOk(s, Sleeper(u, s.tick + Ticks(ms, freq))); }
    case SleepUntil(u, absolute) => if absolute > s.tick { InsertOk(s, Sleeper(u, absolute)); }
  }

  /** A thread that calls sleepUntil is asleep until the tick is the time asked for, and not at all if that has come. */
  lemma SleepsUntil(freq: nat, s: State, t: Tid, absolute: int, steps: seq<Step>)
    requires Ok(s) && !Asleep(s, t) && NotBy(steps, t) && CanRun(freq, Next(freq, s, SleepUntil(t, absolute)), steps)
    ensures Asleep(Run(freq, Next(freq, s, SleepUntil(t, absolute)), steps), t)
            <==> s.tick + TickCount(steps) < absolute
  {
    var n := Next(freq, s, SleepUntil(t, absolute));
    EntersUntil(freq, s, SleepUntil(t, absolute), absolute);
    StillAsleepIff(freq, n, steps, t, absolute);
  }

  /** A thread that calls sleep is asleep until the tick has advanced by as many ticks as there are in the time asked
      for, in 32 bit arithmetic, and by at least one; a sleep of no time returns at once. */
  lemma SleepsFor(freq: nat, s: State, t: Tid, ms: nat, steps: seq<Step>)
    requires Ok(s) && !Asleep(s, t) && NotBy(steps, t) && CanRun(freq, Next(freq, s, Sleep(t, ms)), steps)
    ensures Asleep(Run(freq, Next(freq, s, Sleep(t, ms)), steps), t)
            <==> ms > 0 && (TickCount(steps) == 0 || TickCount(steps) < ms * freq % 0x1_0000_0000 / 1000)
  {
    var n := Next(freq, s, Sleep(t, ms));
    EntersUntil(freq, s, Sleep(t, ms), s.tick + if ms == 0 then 0 else Ticks(ms, freq));
    StillAsleepIff(freq, n, steps, t, s.tick + Ticks(ms, freq));
    assert ms * freq >= 0;
  }

  /** A call puts the thread in the list with its time, if that is still to come. */
  lemma EntersUntil(freq: nat, s: State, step: Step, wakeup: int)
    requires Ok(s) && Enabled(s, step) && step != Ticking
    requires wakeup == match step
                       case Sleep(_, ms) => s.tick + (if ms == 0 then 0 else Ticks(ms, freq))
                       case SleepUntil(_, absolute) => absolute
                       case Ticking => 0
    ensures var n := Next(freq, s, step);
            && Ok(n) && n.tick == s.tick
            && (Asleep(n, step.t) <==> wakeup > s.tick) && (Asleep(n, step.t) ==> Sleeper(step.t, wakeup) in n.list)
  {
    var n, x := Next(freq, s, step), Sleeper(step.t, wakeup);
    if wakeup > s.tick {
      InsertOk(s, x);
      assert x in n.list;
    }
  }

  /** A sleep lasts as long as asked, to the tick, exactly when the product fits 32 bits. */
  lemma SleepLengthIff(ms: nat, freq: nat)
    requires freq > 0
    ensures Ticks(ms, freq) == (if ms * freq / 1000 > 0 then ms * freq / 1000 else 1) <==> ms * freq < U32
  {
    var n := ms * freq;
    assert n >= 0;
    hide *;
    TicksOf(n);
  }

  lemma TicksOf(n: nat)
    ensures var t := n % U32 / 1000; (if t > 0 then t else 1) == (if n / 1000 > 0 then n / 1000 else 1) <==> n < U32
  {
  }

  // ---------------------------------------------------------------- the code

  /** An element of the list, on the stack of the thread that sleeps. */
  class SleepData {
    const p: Tid
    const wakeup: int
    var next: SleepData?

    constructor (p: Tid, wakeup: int)
      ensures this.p == p && this.wakeup == wakeup && fresh(this)
    {
      this.p, this.wakeup, next := p, wakeup, null;
    }
  }

  ghost predicate Linked(nodes: seq<SleepData>, first: SleepData?)
    reads nodes
  {
    && (forall i, j :: 0 <= i < j < |nodes| ==> nodes[i] != nodes[j])
    && first == (if nodes == [] then null else nodes[0])
    && forall i {:trigger nodes[i].next} :: 0 <= i < |nodes| ==>
           nodes[i].next == if i + 1 < |nodes| then nodes[i + 1] else null
  }

  ghost function Sleepers(nodes: seq<SleepData>): (r: seq<Sleeper>)
    ensures |r| == |nodes|
  {
    seq(|nodes|, i requires 0 <= i < |nodes| => Sleeper(nodes[i].p, nodes[i].wakeup))
  }

  class Kernel {
    var tick: int
    var sleepingList: SleepData?
    /** The threads that have the sleep flag. */
    var sleepFlag: set<Tid>
    ghost var nodes: seq<SleepData>

    ghost predicate Valid()
      reads this, nodes
    {
      Linked(nodes, sleepingList) && Ok(Value()) && forall t: Tid :: t in sleepFlag <==> Asleep(Value(), t)
    }

    ghost function Value(): State
      reads this
    {
      State(tick, Sleepers(nodes))
    }

    /** IRQaddToSleepingList. */
    method AddToSleepingList(x: SleepData)
      requires Linked(nodes, sleepingList) && x !in nodes
      modifies this`sleepingList, this`nodes, nodes, x`next
      ensures Linked(nodes, sleepingList) && Sleepers(nodes) == Insert(old(Sleepers(nodes)), Sleeper(x.p, x.wakeup))
    {
      ghost var list, s := Sleepers(nodes), Sleeper(x.p, x.wakeup);
      InsertIs(list, s);
      PlaceIs(list, s);
      if sleepingList == null || x.wakeup <= sleepingList.wakeup {
        x.next := sleepingList;
        sleepingList := x;
        nodes := [x] + nodes;
        assert Sleepers(nodes) == [s] + list;
      } else {
        var cur := Before(x);
        LinkAfter(cur, x, Place(list, s));
      }
    }

    /** The last element that is woken before x. */
    method Before(x: SleepData) returns (cur: SleepData)
      requires Linked(nodes, sleepingList) && nodes != [] && x.wakeup > nodes[0].wakeup
      ensures var k := Place(Sleepers(nodes), Sleeper(x.p, x.wakeup)); k > 0 && cur == nodes[k - 1]
    {
      ghost var list, s := Sleepers(nodes), Sleeper(x.p, x.wakeup);
      PlaceIs(list, s);
      cur := sleepingList;
      ghost var i := 0;
      while cur.next != null && x.wakeup > cur.next.wakeup
        invariant 0 <= i < |nodes| && cur == nodes[i] && i < Place(list, s)
        decreases |nodes| - i
      {
        assert cur.next == nodes[i + 1] && list[i + 1].wakeup == nodes[i + 1].wakeup;
        cur := cur.next;
        i := i + 1;
      }
      if i + 1 < |nodes| {
        assert cur.next == nodes[i + 1] && list[i + 1].wakeup == nodes[i + 1].wakeup;
      }
    }

    method LinkAfter(cur: SleepData, x: SleepData, ghost k: nat)
      requires Linked(nodes, sleepingList) && x !in nodes && 0 < k <= |nodes| && cur == nodes[k - 1]
      modifies this`nodes, cur`next, x`next
      ensures Linked(nodes, sleepingList) && nodes == old(nodes)[..k] + [x] + old(nodes)[k..]
      ensures Sleepers(nodes) == Spliced(old(Sleepers(nodes)), k, Sleeper(x.p, x.wakeup))
    {
      x.next := cur.next;
      cur.next := x;
      nodes := nodes[..k] + [x] + nodes[k..];
    }

    /** IRQwakeThreads: whether a thread was woken. */
    method WakeThreads() returns (result: bool)
      requires Valid()
      modifies this
      ensures Valid() && Value() == Tick(old(Value())) && (result <==> Due(old(Value().list), tick) > 0)
    {
      hide Asleep, Sorted;
      ghost var s := Value();
      TickOk(s);
      SameSleepers(s, State(tick + 1, s.list));
      tick := tick + 1;
      result := WakeDue(s.list);
    }

    /** All sleepers at the front that are due leave the list. */
    method WakeDue(ghost list: seq<Sleeper>) returns (result: bool)
      requires Linked(nodes, sleepingList) && Sleepers(nodes) == list && Apart(list)
      requires forall t: Tid :: t in sleepFlag <==> Asleep(State(tick, list), t)
      modifies this`sleepFlag, this`sleepingList, this`nodes
      ensures Linked(nodes, sleepingList) && Sleepers(nodes) == list[Due(list, tick)..]
              && (result <==> Due(list, tick) > 0)
      ensures forall t: Tid :: t in sleepFlag <==> Asleep(State(tick, list[Due(list, tick)..]), t)
      ensures forall n :: n in nodes ==> n in old(nodes)
    {
      hide Asleep;
      result := false;
      ghost var k := 0;
      assert list[0..] == list;
      while sleepingList != null && tick == sleepingList.wakeup
        invariant k <= |list| && Linked(nodes, sleepingList) && Sleepers(nodes) == list[k..]
        invariant Due(list, tick) == k + Due(list[k..], tick) && (result <==> k > 0)
        invariant forall t: Tid :: t in sleepFlag <==> Asleep(State(tick, list[k..]), t)
        invariant forall n :: n in nodes ==> n in old(nodes)
        decreases |list| - k
      {
        WakeFirst(list, k, tick);
        assert Sleepers(nodes)[0] == list[k..][0] == list[k];
        ghost var before, now, rest := sleepFlag, State(tick, list[k..]), State(tick, list[k + 1..]);
        WakeOne();
        forall t: Tid ensures t in sleepFlag <==> Asleep(rest, t) {
          assert t in before <==> Asleep(now, t);
          assert t in sleepFlag <==> t in before && t != list[k].thread;
        }
        k := k + 1;
        result := true;
      }
    }

    /** The first sleeping thread is woken and leaves the list. */
    method WakeOne()
      requires Linked(nodes, sleepingList) && sleepingList != null
      modifies this`sleepFlag, this`sleepingList, this`nodes
      ensures nodes == old(nodes)[1..] && Linked(nodes, sleepingList) && Sleepers(nodes) == old(Sleepers(nodes))[1..]
      ensures sleepFlag == old(sleepFlag) - {old(Sleepers(nodes))[0].thread}
    {
      sleepFlag := sleepFlag - {sleepingList.p};
      sleepingList := sleepingList.next;
      nodes := nodes[1..];
    }

    static lemma SameSleepers(s: State, r: State)
      requires s.list == r.list
      ensures forall t: Tid :: Asleep(s, t) <==> Asleep(r, t)
    {
    }

    /** Without its first element the list is the list from the next one on, and only that thread is gone. */
    static lemma WakeFirst(list: seq<Sleeper>, k: nat, tick: int)
      requires k < |list| && Apart(list)
      ensures list[k..][1..] == list[k + 1..]
      ensures forall t: Tid :: Asleep(State(tick, list[k + 1..]), t) <==>
                  Asleep(State(tick, list[k..]), t) && t != list[k].thread
    {
    }

    /** Thread::sleep, until the thread gives up the processor. */
    method Sleep(ms: nat, freq: nat, current: Tid)
      requires Valid() && Enabled(Value(), Step.Sleep(current, ms))
      modifies this, nodes
      ensures Valid() && Value() == Next(freq, old(Value()), Step.Sleep(current, ms))
    {
      if ms == 0 {
        return;
      }
      var n := ms * freq % U32 / 1000;
      var d := new SleepData(current, tick + if n > 0 then n else 1);
      InsertOk(Value(), Sleeper(d.p, d.wakeup));
      FlagFor(d);
    }

    /** Thread::sleepUntil, until the thread gives up the processor. */
    method SleepUntil(absoluteTime: int, current: Tid)
      requires Valid() && Enabled(Value(), Step.SleepUntil(current, absoluteTime))
      modifies this, nodes
      ensures Valid() && Value() == Next(0, old(Value()), Step.SleepUntil(current, absoluteTime))
    {
      if absoluteTime <= tick {
        return;
      }
      var d := new SleepData(current, absoluteTime);
      InsertOk(Value(), Sleeper(d.p, d.wakeup));
      FlagFor(d);
    }

    method FlagFor(d: SleepData)
      requires Valid() && d !in nodes && Ok(Value().(list := Insert(Value().list, Sleeper(d.p, d.wakeup))))
      requires forall y :: y in Insert(Value().list, Sleeper(d.p, d.wakeup)) <==>
                   y == Sleeper(d.p, d.wakeup) || y in Value().list
      modifies this, nodes, d`next
      ensures Valid() && Value() == old(Value()).(list := Insert(old(Value().list), Sleeper(d.p, d.wakeup)))
    {
      ghost var s, x := Value(), Sleeper(d.p, d.wakeup);
      sleepFlag := sleepFlag + {d.p};
      AddToSleepingList(d);
      forall t: Tid ensures Asleep(Value(), t) <==> t == d.p || Asleep(s, t) {
        AsleepIn(Value(), t);
        AsleepIn(s, t);
      }
    }
  }

  /** Asleep, by elements. */
  lemma AsleepIn(s: State, t: Tid)
    ensures Asleep(s, t) <==> exists y :: y in s.list && y.thread == t
  {
  }
}
