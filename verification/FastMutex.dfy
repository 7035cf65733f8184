/**
 The code of pthread_private.h and of ConditionVariable: waiting threads in linked lists whose elements are on their
 stacks.  Every method is one stretch run with interrupts disabled, and refines one step of the machine.
 */
module FastMutex {
  import opened FastMutexSpec
  import opened Wrappers

  /** An element of a waiting list, on the stack of the thread that waits. */
  class WaitingList {
    const thread: Tid
    var next: WaitingList?

    constructor (thread: Tid)
      ensures this.thread == thread && next == null
    {
      this.thread, next := thread, null;
    }
  }

  /** A list threaded through its elements, from `first` to `last`; `last` means nothing when it is empty. */
  ghost predicate Linked(nodes: seq<WaitingList>, first: WaitingList?, last: WaitingList?)
    reads nodes
  {
    && (forall i, j :: 0 <= i < j < |nodes| ==> nodes[i] != nodes[j])
    && (if nodes == [] then first == null else first == nodes[0] && last == nodes[|nodes| - 1])
    && forall i {:trigger nodes[i].next} :: 0 <= i < |nodes| ==>
           nodes[i].next == if i + 1 < |nodes| then nodes[i + 1] else null
  }

  ghost function Threads(nodes: seq<WaitingList>): seq<Tid> {
    seq(|nodes|, i requires 0 <= i < |nodes| => nodes[i].thread)
  }

  /** The flags the scheduler looks at, of all threads. */
  class Flags {
    var wait: set<Tid>
    var cond: set<Tid>
  }

  datatype LockResult = Locked | Waits | Deadlock

  class PthreadMutex {
    var owner: Option<Tid>
    /** Depth minus one, or negative for a mutex that is not recursive. */
    var recursive: int
    var first: WaitingList?
    var last: WaitingList?
    const flags: Flags
    ghost var nodes: seq<WaitingList>

    /** The mutex is in the state s. */
    ghost predicate Shows(s: State)
      reads this, flags, nodes
    {
      && Linked(nodes, first, last) && Threads(nodes) == s.queue
      && owner == s.owner && flags.wait == s.waitFlag
      && (if s.recursive then recursive == s.depth else recursive < 0)
    }

    constructor (isRecursive: bool, flags: Flags)
      requires flags.wait == {}
      ensures Shows(Start(isRecursive)) && this.flags == flags && nodes == []
    {
      owner, first, last, nodes := None, null, null, [];
      recursive := if isRecursive then 0 else -1;
      this.flags := flags;
    }

    /** Adds the calling thread at the end. */
    method Enqueue(p: Tid)
      requires Linked(nodes, first, last)
      modifies this`first, this`last, this`nodes, nodes
      ensures Linked(nodes, first, last) && Threads(nodes) == old(Threads(nodes)) + [p]
      ensures |nodes| == |old(nodes)| + 1 && nodes[..|old(nodes)|] == old(nodes) && fresh(nodes[|old(nodes)|])
    {
      var waiting := new WaitingList(p);
      if first == null {
        first := waiting;
        last := waiting;
      } else {
        last.next := waiting;
        last := waiting;
      }
      nodes := nodes + [waiting];
    }

    /** IRQdoMutexLock until the thread waits.  An owner that locks a mutex that is not recursive again is reported to
        errorHandler. */
    method Lock(p: Tid, ghost s: State) returns (r: LockResult)
      requires Shows(s) && Runs(s, p) && At(s, p) == Outside && MutexOk(s)
      modifies this, flags, nodes
      ensures r == Deadlock <==> s.owner == Some(p) && !s.recursive
      ensures if r == Deadlock then Shows(s)
              else Enabled(s, Step.Lock(p)) && Shows(Next(s, Step.Lock(p)))
                   && (r == Locked <==> At(Next(s, Step.Lock(p)), p) == Outside)
    {
      if owner == None {
        owner := Some(p);
        return Locked;
      }
      if owner == Some(p) {
        if recursive >= 0 {
          recursive := recursive + 1;
          return Locked;
        }
        return Deadlock;
      }
      Enqueue(p);
      flags.wait := flags.wait + {p};
      r := Waits;
    }

    /** A turn of the loop in which a thread waits for the mutex. */
    method Resume(p: Tid, target: Option<nat>, ghost s: State) returns (waits: bool)
      requires Shows(s) && Enabled(s, Step.Resume(p)) && At(s, p) == Locking(target) && MutexOk(s)
      modifies this, flags
      ensures Shows(Next(s, Step.Resume(p))) && waits == (At(Next(s, Step.Resume(p)), p) != Outside)
    {
      if owner != Some(p) {
        flags.wait := flags.wait + {p};
        return true;
      }
      if target.Some? && recursive >= 0 {
        recursive := target.value;
      }
      return false;
    }

    /** IRQdoMutexUnlock, when the thread that unlocks owns the mutex. */
    method Unlock(ghost s: State, ghost p: Tid)
      requires Shows(s) && Enabled(s, Step.Unlock(p)) && MutexOk(s)
      modifies this, flags
      ensures Shows(Next(s, Step.Unlock(p)))
    {
      if recursive > 0 {
        recursive := recursive - 1;
        return;
      }
      GiveToFirst(s);
    }

    /** The mutex goes to the first waiting thread, or becomes free. */
    method GiveToFirst(ghost s: State)
      requires Linked(nodes, first, last) && Threads(nodes) == s.queue && flags.wait == s.waitFlag
      modifies this`owner, this`first, this`nodes, flags`wait
      ensures var n := HandOver(s);
              Linked(nodes, first, last) && Threads(nodes) == n.queue && owner == n.owner && flags.wait == n.waitFlag
    {
      if first != null {
        var t := first.thread;
        flags.wait := flags.wait - {t};
        owner := Some(t);
        first := first.next;
        nodes := nodes[1..];
      } else {
        owner := None;
      }
    }

    /** IRQdoMutexUnlockAllDepthLevels: how deep the mutex was locked. */
    method UnlockAllDepthLevels(ghost s: State) returns (depth: nat)
      requires Linked(nodes, first, last) && Threads(nodes) == s.queue && flags.wait == s.waitFlag
      requires (!s.recursive ==> s.depth == 0) && if s.recursive then recursive == s.depth else recursive < 0
      modifies this`owner, this`first, this`nodes, this`recursive, flags`wait
      ensures Shows(HandOver(s).(depth := 0)) && depth == s.depth
    {
      GiveToFirst(s);
      if recursive < 0 {
        return 0;
      }
      depth := recursive;
      recursive := 0;
    }

    /** IRQdoMutexLockToDepth until the thread waits. */
    method LockToDepth(p: Tid, depth: nat, ghost s: State) returns (waits: bool)
      requires Shows(s) && Enabled(s, Step.Relock(p)) && At(s, p) == Waiting(depth)
      modifies this, flags, nodes
      ensures Shows(Next(s, Step.Relock(p)))
              && (s.owner != Some(p) ==> waits == (At(Next(s, Step.Relock(p)), p) != Outside))
    {
      waits := false;
      if owner == None {
        owner := Some(p);
        if recursive >= 0 {
          recursive := depth;
        }
        return;
      }
      if owner == Some(p) {
        if recursive >= 0 {
          recursive := depth;
        }
        return;
      }
      Enqueue(p);
      flags.wait := flags.wait + {p};
      waits := true;
    }
  }

  class ConditionVariable {
    var first: WaitingList?
    var last: WaitingList?
    const flags: Flags
    ghost var nodes: seq<WaitingList>

    ghost predicate Shows(s: State)
      reads this, flags`cond, nodes
    {
      Linked(nodes, first, last) && Threads(nodes) == s.cond && flags.cond == s.condFlag
    }

    constructor (flags: Flags)
      requires flags.cond == {}
      ensures Shows(Start(true)) && Shows(Start(false)) && this.flags == flags && nodes == []
    {
      first, last, nodes := null, null, [];
      this.flags := flags;
    }

    /** ConditionVariable::wait up to where the thread stops. */
    method Wait(m: PthreadMutex, p: Tid, ghost s: State) returns (depth: nat)
      requires Shows(s) && m.Shows(s) && flags == m.flags && Enabled(s, Step.Wait(p)) && MutexOk(s)
      requires forall i, j :: 0 <= i < |nodes| && 0 <= j < |m.nodes| ==> nodes[i] != m.nodes[j]
      modifies this, nodes, m, flags
      ensures Shows(Next(s, Step.Wait(p))) && m.Shows(Next(s, Step.Wait(p))) && depth == s.depth
    {
      Enqueue(p);
      flags.cond := flags.cond + {p};
      depth := m.UnlockAllDepthLevels(s.(cond := s.cond + [p], condFlag := s.condFlag + {p}, waited := s.waited + [p],
                                         places := s.places[p := Waiting(s.depth)]));
    }

    method Enqueue(p: Tid)
      requires Linked(nodes, first, last)
      modifies this`first, this`last, this`nodes, nodes
      ensures Linked(nodes, first, last) && Threads(nodes) == old(Threads(nodes)) + [p]
      ensures |nodes| == |old(nodes)| + 1 && nodes[..|old(nodes)|] == old(nodes) && fresh(nodes[|old(nodes)|])
    {
      var w := new WaitingList(p);
      if first == null {
        first := w;
        last := w;
      } else {
        last.next := w;
        last := w;
      }
      nodes := nodes + [w];
    }

    method SignalOne(ghost s: State)
      requires Shows(s)
      modifies this`first, this`nodes, flags`cond
      ensures Shows(Next(s, Step.Signal))
    {
      if first == null {
        return;
      }
      flags.cond := flags.cond - {first.thread};
      first := first.next;
      nodes := nodes[1..];
    }

    method BroadcastAll(ghost s: State)
      requires Shows(s)
      modifies this`first, this`nodes, flags`cond
      ensures Shows(Next(s, Step.Broadcast))
    {
      var woken: set<Tid> := {};
      while first != null
        invariant Linked(nodes, first, last) && woken + Elements(Threads(nodes)) == Elements(s.cond)
        invariant flags.cond == s.condFlag - woken
        decreases |nodes|
      {
        var t := first.thread;
        assert Threads(nodes) == [t] + Threads(nodes[1..]);
        flags.cond := flags.cond - {t};
        woken := woken + {t};
        first := first.next;
        nodes := nodes[1..];
      }
    }
  }
}
