/**
 The kernel's priority-inheritance mutex: threads and mutexes as objects, the intrusive list of the
 mutexes a thread holds, the vector of waiters kept as a binary heap, and the walk along the owners.

 Each method is proved against the step of module PriorityInheritance that it implements.
 */
module KernelMutex {
  import opened PI = PriorityInheritance

  // ---------------------------------------------------------------- the heap of waiters

  function Parent(j: int): (i: int)
    ensures j > 0 ==> 0 <= i < j
  {
    (j - 1) / 2
  }

  ghost predicate NotAboveParent(s: seq<Thread>, j: int)
    requires 0 < j < |s|
    reads s`priority
  {
    s[j].priority <= s[Parent(j)].priority
  }

  /** The parent of every position from `lo` on is not below it, the children of `hole` left out. */
  ghost predicate HeapFrom(s: seq<Thread>, lo: nat, hole: int)
    reads s`priority
  {
    forall j :: 0 < j < |s| && lo <= Parent(j) != hole ==> NotAboveParent(s, j)
  }

  /** The parent of `hole` is not below its grandchildren. */
  ghost predicate BelowGrandparent(s: seq<Thread>, lo: nat, hole: int)
    requires 0 <= hole < |s|
    reads s`priority
  {
    forall j :: 0 < j < |s| && lo <= Parent(hole) < hole == Parent(j) ==> s[j].priority <= s[Parent(hole)].priority
  }

  /** The vector of waiters is a binary heap, highest priority first. */
  ghost predicate IsHeap(s: seq<Thread>)
    reads s`priority
  {
    HeapFrom(s, 0, -1)
  }

  /** The front of a heap has the highest priority. */
  lemma {:induction false} HeapFront(s: seq<Thread>, i: nat)
    requires IsHeap(s) && i < |s|
    ensures s[i].priority <= s[0].priority
  {
    if i > 0 {
      assert NotAboveParent(s, i);
      HeapFront(s, Parent(i));
    }
  }

  function Swap<T>(s: seq<T>, i: int, j: int): (r: seq<T>)
    requires 0 <= i < |s| && 0 <= j < |s|
    ensures |r| == |s| && multiset(r) == multiset(s)
    ensures forall k :: 0 <= k < |s| ==> r[k] == if k == i then s[j] else if k == j then s[i] else s[k]
  {
    s[i := s[j]][j := s[i]]
  }

  /** push_heap: the last element is sifted up into a heap of the others. */
  method PushHeap(s: seq<Thread>) returns (r: seq<Thread>)
    requires |s| > 0 && IsHeap(s[..|s| - 1])
    ensures IsHeap(r) && multiset(r) == multiset(s)
  {
    r := s;
    var i := |s| - 1;
    assert HeapButFor(r, i) by {
      forall j | 0 < j < |s| && j != i ensures NotAboveParent(r, j) {
        assert NotAboveParent(s[..|s| - 1], j);
      }
    }
    while i > 0 && r[Parent(i)].priority < r[i].priority
      invariant 0 <= i < |r|
      invariant multiset(r) == multiset(s)
      invariant HeapButFor(r, i) && BelowGrandparent(r, 0, i)
    {
      SiftUpStep(r, i);
      r := Swap(r, i, Parent(i));
      i := Parent(i);
    }
  }

  /** Only the element at `hole` may be above its parent. */
  ghost predicate HeapButFor(s: seq<Thread>, hole: int)
    reads s`priority
  {
    forall j :: 0 < j < |s| && j != hole ==> NotAboveParent(s, j)
  }

  lemma SiftUpStep(s: seq<Thread>, i: nat)
    requires 0 < i < |s| && HeapButFor(s, i) && BelowGrandparent(s, 0, i)
    requires s[Parent(i)].priority < s[i].priority
    ensures HeapButFor(Swap(s, i, Parent(i)), Parent(i)) && BelowGrandparent(Swap(s, i, Parent(i)), 0, Parent(i))
  {
    var up := Parent(i);
    var r := Swap(s, i, up);
    forall j | 0 < j < |r| && j != up ensures NotAboveParent(r, j) {
      if j != i {
        assert NotAboveParent(s, j);
      }
    }
    forall j | 0 < j < |r| && up > 0 && Parent(j) == up ensures r[j].priority <= r[Parent(up)].priority {
      assert NotAboveParent(s, up);
      if j != i {
        assert NotAboveParent(s, j);
      }
    }
  }

  /** Sifts position `lo` down into the heaps below it. */
  method SiftDown(s: seq<Thread>, lo: nat) returns (r: seq<Thread>)
    requires HeapFrom(s, lo + 1, -1)
    ensures HeapFrom(r, lo, -1) && multiset(r) == multiset(s) && |r| == |s|
  {
    r := s;
    var i := lo;
    while 2 * i + 1 < |r|
      invariant lo <= i && |r| == |s|
      invariant multiset(r) == multiset(s)
      invariant HeapFrom(r, lo, i)
      invariant i < |r| ==> BelowGrandparent(r, lo, i)
      decreases |r| - i
    {
      var c := 2 * i + 1;
      if c + 1 < |r| && r[c].priority < r[c + 1].priority {
        c := c + 1;
      }
      assert forall j :: 0 < j < |r| && Parent(j) == i ==> r[j].priority <= r[c].priority;
      if r[i].priority >= r[c].priority {
        return;
      }
      SiftDownStep(r, lo, i, c);
      r := Swap(r, i, c);
      i := c;
    }
  }

  lemma SiftDownStep(s: seq<Thread>, lo: nat, i: nat, c: nat)
    requires lo <= i < c < |s| && Parent(c) == i && HeapFrom(s, lo, i) && BelowGrandparent(s, lo, i)
    requires s[i].priority < s[c].priority
    requires forall j :: 0 < j < |s| && Parent(j) == i ==> s[j].priority <= s[c].priority
    ensures HeapFrom(Swap(s, i, c), lo, c) && BelowGrandparent(Swap(s, i, c), lo, c)
  {
  }

  /** make_heap: the positions are sifted down from the last to the first. */
  method MakeHeap(s: seq<Thread>) returns (r: seq<Thread>)
    ensures IsHeap(r) && multiset(r) == multiset(s)
  {
    r := s;
    var i := |s|;
    while i > 0
      invariant 0 <= i <= |r|
      invariant HeapFrom(r, i, -1) && multiset(r) == multiset(s)
    {
      i := i - 1;
      r := SiftDown(r, i);
    }
  }

  /** pop_heap and pop_back: the front is removed and the last element sifted down from its place. */
  method PopHeap(s: seq<Thread>) returns (r: seq<Thread>)
    requires |s| > 0 && IsHeap(s)
    ensures IsHeap(r) && multiset(r) == multiset(s) - multiset{s[0]}
  {
    var n := |s| - 1;
    r := Swap(s, 0, n)[..n];
    PopMultiset(Swap(s, 0, n), s[0]);
    forall j | 0 < j < |r| && 1 <= Parent(j) ensures NotAboveParent(r, j) {
      assert NotAboveParent(s, j);
    }
    r := SiftDown(r, 0);
  }

  lemma PopMultiset<T>(s: seq<T>, x: T)
    requires |s| > 0 && s[|s| - 1] == x
    ensures multiset(s[..|s| - 1]) == multiset(s) - multiset{x}
  {
    assert s == s[..|s| - 1] + [x];
  }

  // ---------------------------------------------------------------- objects

  class Thread {
    var priority: int
    var savedPriority: int
    var mutexLocked: Mutex?     // first of the mutexes this thread holds
    var mutexWaiting: Mutex?    // the mutex this thread waits for
    ghost var held: seq<Mutex>  // the list that starts at mutexLocked

    constructor (pr: int)
      ensures priority == pr && mutexLocked == null && mutexWaiting == null && held == []
    {
      priority, savedPriority, mutexLocked, mutexWaiting, held := pr, pr, null, null, [];
    }

    /** Scheduler::PKsetPriority; only the vector this thread waits in may stop being a heap. */
    method PKsetPriority(v: int, ghost k: Kernel, ghost out: set<Mutex>, ghost s: State<Thread, Mutex>)
      requires this in k.threads && k.Linked(out) && k.Heaps(null) && s == k.Abs()
      modifies this`priority
      ensures priority == v
      ensures k.Linked(out) && k.Heaps(mutexWaiting) && k.Abs() == s.(pri := s.pri[this := v])
    {
      hide Kernel.Linked, Kernel.Heaps;
      k.OncePerQueue(this, out);
      priority := v;
      k.HeapsWithout(this);
      assert k.Priorities() == s.pri[this := v];
    }

    method SetSaved(v: int, ghost k: Kernel, ghost out: set<Mutex>, ghost s: State<Thread, Mutex>)
      requires this in k.threads && k.Linked(out) && k.Heaps(null) && s == k.Abs()
      modifies this`savedPriority
      ensures k.Linked(out) && k.Heaps(null) && k.Abs() == s.(saved := s.saved[this := v])
    {
      hide Kernel.Linked, Kernel.Heaps;
      savedPriority := v;
      k.SavedAfter(this);
    }

    /** Thread::setPriority, called by a thread on itself. */
    method SetPriority(pr: int, ghost k: Kernel)
      requires k.Valid() && this in k.threads && mutexWaiting == null
      modifies this`priority, this`savedPriority
      ensures k.Valid()
      ensures SetChoice(old(k.Abs()), this, pr, priority)
      ensures k.Abs() == PI.SetPriority(old(k.Abs()), this, pr, priority)
    {
      hide Kernel.Linked, Kernel.Heaps, Kernel.Abs, Acyclic, Inherits, Holds;
      ghost var s := k.Abs();
      k.Entry(this, {});
      var v := pr;
      if mutexLocked != null {
        if savedPriority == pr {
          return;
        }
        SetSaved(pr, k, {}, s);
        v := InheritedPriority(k, {}, s.(saved := s.saved[this := pr]));
      }
      SetPriorityKeeps(s, this, pr, v);
      if v != priority {
        PKsetPriority(v, k, {}, k.Abs());
      } else {
        k.Entry(this, {});
        assert k.Abs().pri[this := v] == k.Abs().pri;
      }
    }

    /** The maximum of the saved priority and of the fronts of the heaps of the mutexes held. */
    method InheritedPriority(ghost k: Kernel, ghost out: set<Mutex>, ghost s: State<Thread, Mutex>) returns (pr: int)
      requires k.Linked(out) && k.Heaps(null) && s == k.Abs() && Closed(s) && this in k.threads
      ensures Inherits(s, this, out, pr)
    {
      hide Closed, Inherits, Kernel.Abs, Kernel.Queues;
      pr := savedPriority;
      var walk := mutexLocked;
      ghost var i := 0;
      while walk != null
        invariant 0 <= i <= |held| && walk == if i < |held| then held[i] else null
        invariant k.MaxOfFirst(this, i, pr)
        decreases |held| - i
      {
        if walk.waiting != [] {
          pr := if pr < walk.waiting[0].priority then walk.waiting[0].priority else pr;
        }
        walk := walk.next;
        i := i + 1;
      }
      k.MaxIsInherited(this, out, pr);
    }

    /** The boosting walk: this thread and the owners further up its chain get priority v. */
    method BoostOwners(v: int, ghost k: Kernel, ghost n: nat, ghost s: State<Thread, Mutex>)
      requires this in k.threads && k.Linked({}) && k.Heaps(null) && s == k.Abs()
      requires Closed(s) && Reaches(s, this, n)
      modifies k.threads`priority, k.mutexes`waiting
      ensures k.Linked({}) && k.Heaps(null) && k.Abs() == Boost(s, this, n, v)
    {
      hide Kernel.Linked, Kernel.Heaps, Kernel.Abs, Closed, Reaches, Boost;
      var walk := this;
      ghost var left, now := n, s;
      k.Entry(this, {});
      while true
        invariant walk in k.threads && k.Linked({}) && k.Heaps(null) && now == k.Abs()
        invariant Closed(now) && walk in now.pri && this in s.pri && Reaches(now, walk, left)
        invariant Boost(now, walk, left, v) == Boost(s, this, n, v)
        decreases left
      {
        k.Entry(walk, {});
        ghost var s1 := now.(pri := now.pri[walk := v]);
        walk.PKsetPriority(v, k, {}, now);
        if walk.mutexWaiting == null {
          BoostLast(now, walk, left, v);
          break;
        }
        BoostStep(now, walk, left, v);
        k.OwnerOfAwaited(walk);
        walk.mutexWaiting.Reheap(k, s1);
        walk := walk.mutexWaiting.owner;
        now, left := s1, left - 1;
      }
    }
  }

  datatype LockOutcome = Locked | Waiting | Deadlock

  class Mutex {
    var owner: Thread?
    var next: Mutex?            // next of the mutexes held by the owner
    var waiting: seq<Thread>    // a heap
    var recursiveDepth: int     // -1 when not recursive

    constructor (recursive: bool)
      ensures owner == null && waiting == [] && recursiveDepth == if recursive then 0 else -1
    {
      owner, next, waiting, recursiveDepth := null, null, [], if recursive then 0 else -1;
    }

    method Reheap(ghost k: Kernel, ghost s: State<Thread, Mutex>)
      requires this in k.mutexes && k.Linked({}) && k.Heaps(this) && s == k.Abs()
      modifies this`waiting
      ensures k.Linked({}) && k.Heaps(null) && k.Abs() == s
    {
      hide Kernel.Lists, Kernel.List,
           Kernel.SavedPriorities, Kernel.Owners, Kernel.Priorities, Kernel.WaitedFor, Kernel.Depths;
      ghost var before := waiting;
      waiting := MakeHeap(waiting);
      assert forall w <- waiting :: w in multiset(before);
    }

    /** p becomes the owner; its list does not have this mutex yet. */
    method SetOwner(p: Thread?, ghost k: Kernel, ghost out: set<Mutex>, ghost s: State<Thread, Mutex>)
      requires this in k.mutexes && (p == null || p in k.threads) && k.Linked(out) && k.Heaps(null) && s == k.Abs()
      requires if owner == null then out == {} else out == {this}
      modifies this`owner
      ensures owner == p && k.Linked(if p == null then {} else {this}) && k.Heaps(null)
      ensures k.Abs() == s.(owner := if p == null then s.owner - {this} else s.owner[this := p])
    {
      hide Kernel.Queues, Kernel.Heaps, Kernel.List,
           Kernel.SavedPriorities, Kernel.Owners, Kernel.Priorities, Kernel.WaitedFor, Kernel.Depths;
      owner := p;
      k.OwnersAfter(this);
    }

    /** This mutex is put in front of the list of its owner p. */
    method PushOnList(p: Thread, ghost k: Kernel, ghost s: State<Thread, Mutex>)
      requires this in k.mutexes && p in k.threads && owner == p && k.Linked({this}) && k.Heaps(null) && s == k.Abs()
      modifies this`next, p`mutexLocked, p`held
      ensures k.Linked({}) && k.Heaps(null) && k.Abs() == s
    {
      hide Kernel.Queues, Kernel.Heaps, Kernel.Lists, Kernel.List, Kernel.Abs;
      next := p.mutexLocked;
      p.held := [this] + p.held;
      p.mutexLocked := this;
      k.ListsAfterPush((p, this));
    }

    /** p becomes the owner: the code shared by lock, tryLock and the hand-over of unlock. */
    method TakeBy(p: Thread, ghost k: Kernel, ghost out: set<Mutex>, ghost s: State<Thread, Mutex>)
      requires this in k.mutexes && p in k.threads && k.Linked(out) && k.Heaps(null) && s == k.Abs()
      requires if owner == null then out == {} else out == {this}
      modifies this`owner, this`next, p`savedPriority, p`mutexLocked, p`held
      ensures owner == p && k.Linked({}) && k.Heaps(null)
      ensures k.Abs() == Acquire(s.(owner := s.owner - {this}), p, this)
    {
      hide Kernel.Linked, Kernel.Heaps, Kernel.Abs, Holds;
      k.Entry(p, out);
      k.EmptyListIff(p, out, this);
      SetOwner(p, k, out, s);
      assert (s.owner - {this})[this := p] == s.owner[this := p];
      ghost var s1 := s.(owner := s.owner[this := p]);
      if p.mutexLocked == null {
        p.SetSaved(p.priority, k, {this}, s1);
        s1 := s1.(saved := s.saved[p := s.pri[p]]);
      }
      PushOnList(p, k, s1);
    }

    /** p enters the vector of waiters. */
    method Enqueue(p: Thread, ghost k: Kernel, ghost s: State<Thread, Mutex>)
      requires this in k.mutexes && p in k.threads && p.mutexWaiting == null
      requires k.Linked({}) && k.Heaps(null) && s == k.Abs()
      modifies this`waiting, p`mutexWaiting
      ensures k.Linked({}) && k.Heaps(null) && k.Abs() == s.(waitOn := s.waitOn[p := this])
    {
      hide Kernel.Queues, Kernel.Heaps, Kernel.Lists, IsHeap,
           Kernel.SavedPriorities, Kernel.Owners, Kernel.Priorities, Kernel.WaitedFor, Kernel.Depths;
      k.VectorOf(this);
      assert (waiting + [p])[..|waiting|] == waiting;
      waiting := PushHeap(waiting + [p]);
      p.mutexWaiting := this;
      k.QueuesAfterJoin((p, this));
      k.HeapsAfterChange(this);
      k.WaitsAfter(p);
    }

    /** The waiter with the highest priority leaves the vector. */
    method Dequeue(ghost k: Kernel, ghost out: set<Mutex>, ghost s: State<Thread, Mutex>) returns (q: Thread)
      requires this in k.mutexes && |waiting| > 0 && k.Linked(out) && k.Heaps(null) && s == k.Abs()
      modifies this`waiting, k.threads`mutexWaiting
      ensures q in k.threads && q == old(waiting[0]) && q.mutexWaiting == null
      ensures k.Linked(out) && k.Heaps(null) && k.Abs() == s.(waitOn := s.waitOn - {q})
    {
      hide Kernel.Queues, Kernel.Heaps, Kernel.Lists, IsHeap,
           Kernel.SavedPriorities, Kernel.Owners, Kernel.Priorities, Kernel.WaitedFor, Kernel.Depths;
      k.VectorOf(this);
      k.FrontWaits(this, out);
      q := waiting[0];
      waiting := PopHeap(waiting);
      q.mutexWaiting := null;
      k.QueuesAfterLeave((q, this));
      k.HeapsAfterChange(this);
      k.WaitsAfter(q);
    }

    /** Mutex::PKlock up to the point where the thread either has the mutex or has to wait for it.  When the chain
        of owners leads back to p, p waits for ever, and if p lends its priority the boosting walk does not end. */
    method PKlock(p: Thread, ghost k: Kernel) returns (r: LockOutcome, ghost n: nat)
      requires k.Valid() && p in k.threads && p.mutexWaiting == null && this in k.mutexes
      requires k.LeadsTo(this, p) ==> p.priority <= owner.priority
      modifies k.threads, k.mutexes
      ensures if old(k.LeadsTo(this, p)) then k.Deadlocked(old(k.Abs()), p, this) else k.Valid()
      ensures r == if old(owner) == null || (old(owner) == p && old(recursiveDepth) >= 0) then Locked
                   else if old(owner) == p then Deadlock else Waiting
      ensures old(owner) == null ==> k.Did(old(k.Abs()), Take(p, this))
      ensures old(owner) == p && r == Locked ==> k.Did(old(k.Abs()), Again(p, this))
      ensures r == Deadlock ==> k.Abs() == old(k.Abs())
      ensures r == Waiting && !old(k.LeadsTo(this, p)) ==> k.Did(old(k.Abs()), Queue(p, this, n))
    {
      hide Kernel.Linked, Kernel.Heaps, Kernel.Abs, WellFormed, Enabled, Apply, Kernel.ChainTo, Kernel.Deadlocked;
      n := 0;
      ghost var s := k.Abs();
      if owner == null {
        Acquire1(p, k, s);
        return Locked, n;
      }
      if owner == p {
        if recursiveDepth >= 0 {
          LockAgain(p, k, s);
          return Locked, n;
        }
        return Deadlock, n;
      }
      n := QueueOn(p, k, s);
      r := Waiting;
    }

    method Acquire1(p: Thread, ghost k: Kernel, ghost s: State<Thread, Mutex>)
      requires k.Valid() && p in k.threads && p.mutexWaiting == null && this in k.mutexes && s == k.Abs()
      requires owner == null
      modifies this`owner, this`next, p`savedPriority, p`mutexLocked, p`held
      ensures k.Valid() && owner == p && k.Did(s, Take(p, this))
    {
      hide Kernel.Linked, Kernel.Heaps, Kernel.Abs, Acyclic, Holds;
      k.Entry(p, {});
      k.OwnerEntry(this);
      TakeBy(p, k, {}, s);
      assert s.owner - {this} == s.owner;
      AcquireKeeps(s, p, this);
    }

    method LockAgain(p: Thread, ghost k: Kernel, ghost s: State<Thread, Mutex>)
      requires k.Valid() && this in k.mutexes && s == k.Abs() && owner == p && recursiveDepth >= 0
      modifies this`recursiveDepth
      ensures k.Valid() && k.Did(s, Again(p, this))
    {
      hide Kernel.Linked, Kernel.Heaps, WellFormed, Closed, Apply,
           Kernel.SavedPriorities, Kernel.Owners, Kernel.Priorities, Kernel.WaitedFor, Kernel.Depths;
      k.OwnerEntry(this);
      recursiveDepth := recursiveDepth + 1;
      k.DepthsAfter(this);
      DepthStep(s, Again(p, this));
    }

    method SetDepth(d: nat, p: Thread, ghost k: Kernel, ghost s: State<Thread, Mutex>)
      requires k.Valid() && this in k.mutexes && s == k.Abs() && owner == p && recursiveDepth >= 0
      modifies this`recursiveDepth
      ensures k.Valid() && recursiveDepth == d && k.Did(s, Deepen(p, this, d))
    {
      hide Kernel.Linked, Kernel.Heaps, WellFormed, Closed, Apply,
           Kernel.SavedPriorities, Kernel.Owners, Kernel.Priorities, Kernel.WaitedFor, Kernel.Depths;
      k.OwnerEntry(this);
      recursiveDepth := d;
      k.DepthsAfter(this);
      DepthStep(s, Deepen(p, this, d));
    }

    method QueueOn(p: Thread, ghost k: Kernel, ghost s: State<Thread, Mutex>) returns (ghost n: nat)
      requires k.Valid() && p in k.threads && p.mutexWaiting == null && this in k.mutexes && s == k.Abs()
      requires owner != null && owner != p && (k.LeadsTo(this, p) ==> p.priority <= owner.priority)
      modifies this`waiting, p`mutexWaiting, k.threads`priority, k.mutexes`waiting
      ensures if old(k.LeadsTo(this, p)) then k.Deadlocked(s, p, this) else k.Valid() && k.Did(s, Queue(p, this, n))
    {
      hide Kernel.Linked, Kernel.Heaps, Kernel.Abs, Acyclic, Boost, Reaches, OnChain, Kernel.ChainTo;
      ghost var dead := k.LeadsTo(this, p);
      k.Entry(p, {});
      k.OwnerEntry(this);
      k.Entry(owner, {});
      n := k.ChainLength(this, p);
      if dead {
        k.CycleCloses(this, p);
      } else {
        BlockKeepsWellFormed(s, p, this, n);
      }
      EnqueueAndLend(p, k, s, n);
    }

    /** p enters the vector of waiters and, if it is above the owner, lends its priority. */
    method EnqueueAndLend(p: Thread, ghost k: Kernel, ghost s: State<Thread, Mutex>, ghost n: nat)
      requires k.Linked({}) && k.Heaps(null) && s == k.Abs() && Closed(s)
      requires p in k.threads && p.mutexWaiting == null && this in k.mutexes && owner != null && owner in k.threads
      requires p in s.pri && p !in s.waitOn && this in s.owner && s.owner[this] == owner && Reaches(s, owner, n)
      requires p.priority > owner.priority ==> !OnChain(s, owner, n, p)
      modifies this`waiting, p`mutexWaiting, k.threads`priority, k.mutexes`waiting
      ensures k.Linked({}) && k.Heaps(null)
      ensures k.Abs() ==
              if old(p.priority > owner.priority) then Block(s, p, this, n) else s.(waitOn := s.waitOn[p := this])
    {
      hide Kernel.Linked, Kernel.Heaps, Kernel.Abs, Acyclic, Boost, Reaches, OnChain;
      k.Entry(p, {});
      k.Entry(owner, {});
      Enqueue(p, k, s);
      if p.priority > owner.priority {
        ReachesAfterQueueing(s, p, this, owner, n);
        owner.BoostOwners(p.priority, k, n, s.(waitOn := s.waitOn[p := this]));
      }
    }

    /** Mutex::PKlockToDepth up to the point where the thread has the mutex or has to wait for it. */
    method PKlockToDepth(p: Thread, ghost k: Kernel, depth: nat) returns (r: LockOutcome, ghost n: nat)
      requires k.Valid() && p in k.threads && p.mutexWaiting == null && this in k.mutexes
      requires k.LeadsTo(this, p) ==> p.priority <= owner.priority
      modifies k.threads, k.mutexes
      ensures if old(k.LeadsTo(this, p)) then k.Deadlocked(old(k.Abs()), p, this) else k.Valid()
      ensures r == if old(owner) == null || (old(owner) == p && old(recursiveDepth) >= 0) then Locked
                   else if old(owner) == p then Deadlock else Waiting
      ensures r == Locked
              ==> owner == p && recursiveDepth == if old(recursiveDepth) >= 0 then depth else old(recursiveDepth)
      ensures old(owner) == null && old(recursiveDepth) < 0 ==> k.Did(old(k.Abs()), Take(p, this))
      ensures old(owner) == null && old(recursiveDepth) >= 0
              ==> k.Did2(old(k.Abs()), Take(p, this), Deepen(p, this, depth))
      ensures old(owner) == p && r == Locked ==> k.Did(old(k.Abs()), Deepen(p, this, depth))
      ensures r == Deadlock ==> k.Abs() == old(k.Abs())
      ensures r == Waiting && !old(k.LeadsTo(this, p)) ==> k.Did(old(k.Abs()), Queue(p, this, n))
    {
      hide Kernel.Linked, Kernel.Heaps, Kernel.Abs, WellFormed, Enabled, Apply, Kernel.ChainTo, Kernel.Deadlocked;
      n := 0;
      ghost var s := k.Abs();
      if owner == null {
        Acquire1(p, k, s);
        ghost var s1 := k.Abs();
        if recursiveDepth >= 0 {
          SetDepth(depth, p, k, s1);
        }
        return Locked, n;
      }
      if owner == p {
        if recursiveDepth >= 0 {
          SetDepth(depth, p, k, s);
          return Locked, n;
        }
        return Deadlock, n;
      }
      n := QueueOn(p, k, s);
      r := Waiting;
    }

    /** What PKlockToDepth does when the wait is over: p has been made the owner by an unlock. */
    method ResumeAtDepth(p: Thread, ghost k: Kernel, depth: nat)
      requires k.Valid() && this in k.mutexes && owner == p
      modifies this`recursiveDepth
      ensures k.Valid()
      ensures recursiveDepth == if old(recursiveDepth) >= 0 then depth else old(recursiveDepth)
      ensures if old(recursiveDepth) >= 0 then k.Did(old(k.Abs()), Deepen(p, this, depth)) else k.Abs() == old(k.Abs())
    {
      if recursiveDepth >= 0 {
        SetDepth(depth, p, k, k.Abs());
      }
    }

    /** Mutex::PKtryLock never waits. */
    method PKtryLock(p: Thread, ghost k: Kernel) returns (r: bool)
      requires k.Valid() && p in k.threads && p.mutexWaiting == null && this in k.mutexes
      modifies k.threads, k.mutexes
      ensures k.Valid()
      ensures r <==> old(owner) == null || (old(owner) == p && old(recursiveDepth) >= 0)
      ensures old(owner) == null ==> k.Did(old(k.Abs()), Take(p, this))
      ensures old(owner) == p && r ==> k.Did(old(k.Abs()), Again(p, this))
      ensures !r ==> k.Abs() == old(k.Abs())
    {
      hide Kernel.Linked, Kernel.Heaps, Kernel.Abs, WellFormed, Enabled, Apply;
      ghost var s := k.Abs();
      if owner == null {
        Acquire1(p, k, s);
        return true;
      }
      if owner == p && recursiveDepth >= 0 {
        LockAgain(p, k, s);
        return true;
      }
      return false;
    }

    /** Takes this mutex out of the list of its owner. */
    method Unlink(p: Thread, ghost k: Kernel, ghost s: State<Thread, Mutex>)
      requires this in k.mutexes && p in k.threads && owner == p && k.Linked({}) && k.Heaps(null) && s == k.Abs()
      modifies p`mutexLocked, p`held, k.mutexes`next
      ensures k.Linked({this}) && k.Heaps(null) && k.Abs() == s
    {
      hide Kernel.Queues, Kernel.Heaps, Kernel.Abs;
      assert k.List(p) && this in p.held;
      ghost var i := CutOut(p, k);
      k.ListsAfterUnlink((p, this, i));
    }

    method CutOut(p: Thread, ghost k: Kernel) returns (ghost i: nat)
      requires this in k.mutexes && p in k.threads && k.List(p) && this in p.held
      modifies p`mutexLocked, p`held, k.mutexes`next
      ensures k.Unlinked((p, this, i))
    {
      i := 0;
      if p.mutexLocked == this {
        p.mutexLocked := p.mutexLocked.next;
      } else {
        var walk := p.mutexLocked;
        assert p.held[0].next == After(p.held, 0);
        while walk.next != this
          invariant i + 1 < |p.held| && walk == p.held[i] && walk.next == After(p.held, i)
          invariant this !in p.held[..i + 1]
          decreases |p.held| - i
        {
          walk := walk.next;
          i := i + 1;
          assert p.held[i].next == After(p.held, i);
        }
        walk.next := walk.next.next;
        i := i + 1;
      }
      p.held := Without(p.held, i);
    }

    /** The priority p is still due without this mutex. */
    method DropPriority(p: Thread, ghost k: Kernel, ghost s: State<Thread, Mutex>)
      requires p in k.threads && p.mutexWaiting == null
      requires k.Linked({this}) && k.Heaps(null) && s == k.Abs() && Closed(s)
      modifies p`priority
      ensures k.Linked({this}) && k.Heaps(null)
      ensures p in s.pri && Inherits(s, p, {this}, p.priority) && k.Abs() == s.(pri := s.pri[p := p.priority])
    {
      hide Kernel.Linked, Kernel.Heaps, Kernel.Abs, Closed, Inherits;
      k.Entry(p, {this});
      assert s.pri[p := p.priority] == s.pri;
      if p.mutexLocked == null {
        k.NothingInherited(p, {this});
        if p.savedPriority != p.priority {
          p.PKsetPriority(p.savedPriority, k, {this}, s);
        }
      } else {
        var pr := p.InheritedPriority(k, {this}, s);
        if pr != p.priority {
          p.PKsetPriority(pr, k, {this}, s);
        }
      }
    }

    /** The mutex, given up by its owner, goes to the front of the heap of waiters, or becomes free. */
    method HandOver(ghost k: Kernel, ghost s: State<Thread, Mutex>)
      requires this in k.mutexes && owner != null && k.Linked({this}) && k.Heaps(null) && s == k.Abs() && Closed(s)
      modifies this`owner, this`waiting, this`next, k.threads`mutexWaiting, k.threads`savedPriority,
               k.threads`mutexLocked, k.threads`held
      ensures k.Linked({}) && k.Heaps(null)
      ensures owner == null <==> !Awaited(s, this)
      ensures owner == null ==> k.Abs() == s.(owner := s.owner - {this})
      ensures owner != null ==> owner in k.threads && owner in s.pri && HighestWaiter(s, this, owner)
      ensures owner != null
              ==> k.Abs() == Acquire(s.(owner := s.owner - {this}, waitOn := s.waitOn - {owner}), owner, this)
    {
      hide Kernel.Linked, Kernel.Heaps, Kernel.Abs, Holds, Closed;
      k.AwaitedIff(this, {this});
      if |waiting| > 0 {
        k.FrontIsHighest(this, {this});
        var q := Dequeue(k, {this}, s);
        TakeBy(q, k, {this}, s.(waitOn := s.waitOn - {q}));
        if |waiting| > 0 {
          k.FrontWaits(this, {});
          k.Entry(waiting[0], {});
          k.Entry(q, {});
          // The boost of the new owner never happens.
          if waiting[0].priority > q.priority {
            assert false;
          }
        }
      } else {
        SetOwner(null, k, {this}, s);
      }
    }

    /** The part PKunlock and PKunlockAllDepthLevels share: the lock is given up. */
    method GiveUp(p: Thread, ghost k: Kernel, ghost s: State<Thread, Mutex>)
      requires k.Valid() && this in k.mutexes && p in k.threads && owner == p && p.mutexWaiting == null && s == k.Abs()
      modifies k.mutexes`owner, k.mutexes`waiting, k.mutexes`next, k.threads
      ensures k.Linked({}) && k.Heaps(null) && Closed(s)
      ensures p in s.pri && Heir(p) in s.pri && ReleaseChoice(s, p, this, p.priority, Heir(p)) && this in s.depth
      ensures k.Abs() == Release(s, p, this, p.priority, Heir(p)).(depth := s.depth)
    {
      hide Kernel.Linked, Kernel.Heaps, Kernel.Abs, Holds, Inherits, Acyclic, Awaited, HighestWaiter;
      k.Entry(p, {});
      k.OwnerEntry(this);
      Unlink(p, k, s);
      DropPriority(p, k, s);
      ghost var v := p.priority;
      HandOver(k, s.(pri := s.pri[p := v]));
      OthersWait(s, p, v, this, Heir(p));
      k.Entry(p, {});
      ReleaseShape(s, p, this, v, Heir(p));
    }

    /** The owner, or p if nobody owns the mutex. */
    ghost function Heir(p: Thread): Thread
      reads this`owner
    {
      if owner == null then p else owner
    }

    /** Mutex::PKunlock. */
    method PKunlock(p: Thread, ghost k: Kernel) returns (higher: bool)
      requires k.Valid() && p in k.threads && p.mutexWaiting == null && this in k.mutexes
      modifies k.threads, k.mutexes
      ensures k.Valid()
      ensures old(owner) != p ==> k.Abs() == old(k.Abs())
      ensures old(owner) == p && old(recursiveDepth) > 0 ==> k.Did(old(k.Abs()), Rise(p, this))
      ensures old(owner) == p && old(recursiveDepth) <= 0 ==> k.Did(old(k.Abs()), Free(p, this, p.priority, Heir(p)))
      ensures higher <==> old(owner) == p && old(recursiveDepth) <= 0 && owner != null && owner.priority > p.priority
    {
      hide Kernel.Linked, Kernel.Heaps, Kernel.Abs, Acyclic, Holds, Inherits;
      ghost var s := k.Abs();
      if owner != p {
        return false;
      }
      k.OwnerEntry(this);
      if recursiveDepth > 0 {
        LowerDepth(p, k, s);
        return false;
      }
      GiveUp(p, k, s);
      assert s.depth[this := s.depth[this]] == s.depth;
      k.DidFree(p, this, p.priority, Heir(p), s);
      higher := owner != null && owner.priority > p.priority;
    }

    method LowerDepth(p: Thread, ghost k: Kernel, ghost s: State<Thread, Mutex>)
      requires k.Valid() && this in k.mutexes && s == k.Abs() && owner == p && recursiveDepth > 0
      modifies this`recursiveDepth
      ensures k.Valid() && k.Did(s, Rise(p, this))
    {
      hide Kernel.Linked, Kernel.Heaps, WellFormed, Closed, Apply,
           Kernel.SavedPriorities, Kernel.Owners, Kernel.Priorities, Kernel.WaitedFor, Kernel.Depths;
      k.OwnerEntry(this);
      recursiveDepth := recursiveDepth - 1;
      k.DepthsAfter(this);
      DepthStep(s, Rise(p, this));
    }

    /** Mutex::PKunlockAllDepthLevels. */
    method PKunlockAllDepthLevels(p: Thread, ghost k: Kernel) returns (depth: nat)
      requires k.Valid() && p in k.threads && p.mutexWaiting == null && this in k.mutexes
      modifies k.threads, k.mutexes
      ensures k.Valid()
      ensures old(owner) != p ==> depth == 0 && k.Abs() == old(k.Abs())
      ensures old(owner) == p ==> k.Did(old(k.Abs()), Free(p, this, p.priority, Heir(p)))
      ensures old(owner) == p ==> depth == if old(recursiveDepth) < 0 then 0 else old(recursiveDepth)
    {
      hide Kernel.Linked, Kernel.Heaps, Kernel.Abs, Acyclic, Holds, Inherits;
      ghost var s := k.Abs();
      if owner != p {
        return 0;
      }
      k.OwnerEntry(this);
      GiveUp(p, k, s);
      k.OwnerEntry(this);
      depth := ResetDepth(k, Release(s, p, this, p.priority, Heir(p)).(depth := s.depth));
      k.DidFree(p, this, p.priority, Heir(p), s);
    }

    method ResetDepth(ghost k: Kernel, ghost s: State<Thread, Mutex>) returns (depth: nat)
      requires k.Linked({}) && k.Heaps(null) && this in k.mutexes && s == k.Abs() && this in s.depth
      modifies this`recursiveDepth
      ensures k.Linked({}) && k.Heaps(null)
      ensures k.Abs() == s.(depth := s.depth[this := if s.depth[this] > 0 then 0 else s.depth[this]])
      ensures depth == if old(recursiveDepth) < 0 then 0 else old(recursiveDepth)
    {
      hide Kernel.Linked, Kernel.Heaps,
           Kernel.SavedPriorities, Kernel.Owners, Kernel.Priorities, Kernel.WaitedFor, Kernel.Depths;
      k.OwnerEntry(this);
      k.DepthsAfter(this);
      if recursiveDepth < 0 {
        return 0;
      }
      depth := recursiveDepth;
      recursiveDepth := 0;
      k.DepthsAfter(this);
    }
  }

  /** The threads and mutexes of the system. */
  class Kernel {
    ghost const threads: set<Thread>
    ghost const mutexes: set<Mutex>

    /** A system in which no mutex was locked yet. */
    ghost constructor (threads: set<Thread>, mutexes: set<Mutex>)
      requires forall t <- threads :: t.held == [] && t.mutexLocked == null && t.mutexWaiting == null
      requires forall m <- mutexes :: m.owner == null && m.waiting == [] && -1 <= m.recursiveDepth <= 0
      ensures this.threads == threads && this.mutexes == mutexes
      ensures Valid() && Unlocked(Abs()) && Exact(Abs())
    {
      this.threads, this.mutexes := threads, mutexes;
      new;
      StartOk(Abs());
    }

    /** The protocol state the objects represent. */
    ghost function Abs(): State<Thread, Mutex>
      reads threads`priority, threads`savedPriority, threads`mutexWaiting, mutexes`owner, mutexes`recursiveDepth
    {
      State<Thread, Mutex>.State(Priorities(), SavedPriorities(), WaitedFor(), Owners(), Depths())
    }

    ghost function Priorities(): map<Thread, int>
      reads threads`priority
    {
      map t <- threads :: t.priority
    }

    ghost function SavedPriorities(): map<Thread, int>
      reads threads`savedPriority
    {
      map t <- threads :: t.savedPriority
    }

    ghost function WaitedFor(): map<Thread, Mutex>
      reads threads`mutexWaiting
    {
      map t <- threads | t.mutexWaiting != null :: t.mutexWaiting as Mutex
    }

    ghost function Owners(): map<Mutex, Thread>
      reads mutexes`owner
    {
      map m <- mutexes | m.owner != null :: m.owner as Thread
    }

    ghost function Depths(): map<Mutex, int>
      reads mutexes`recursiveDepth
    {
      map m <- mutexes :: m.recursiveDepth
    }

    /** The lists and the vectors say the same as the owners and the threads' mutexWaiting; the mutexes in
        `out` are in no list. */
    ghost predicate Linked(out: set<Mutex>)
      reads threads`mutexLocked, threads`held, threads`mutexWaiting, mutexes`next, mutexes`owner, mutexes`waiting
    {
      Lists(out) && Queues()
    }

    /** The list of a thread has exactly the mutexes it owns. */
    ghost predicate Lists(out: set<Mutex>)
      reads threads`mutexLocked, threads`held, mutexes`next, mutexes`owner
    {
      && (forall m <- mutexes :: m.owner != null ==> m.owner in threads)
      && (forall t <- threads :: List(t))
      && (forall t <- threads, m <- t.held :: m.owner == t && m !in out)
      && forall m <- mutexes :: m.owner != null && m !in out ==> m in m.owner.held
    }

    /** The vector of a mutex has every thread that waits for it once, and nothing else. */
    ghost predicate Queues()
      reads threads`mutexWaiting, mutexes`waiting
    {
      && (forall t <- threads :: t.mutexWaiting != null ==> t.mutexWaiting in mutexes)
      && (forall m <- mutexes, w <- m.waiting :: w in threads)
      && forall m <- mutexes, t <- threads :: multiset(m.waiting)[t] == if t.mutexWaiting == m then 1 else 0
    }

    ghost predicate List(t: Thread)
      reads t`mutexLocked, t`held, mutexes`next
    {
      && (forall m <- t.held :: m in mutexes)
      && (forall i, j :: 0 <= i < j < |t.held| ==> t.held[i] != t.held[j])
      && t.mutexLocked == (if t.held == [] then null else t.held[0])
      && forall i {:trigger t.held[i].next} :: 0 <= i < |t.held| ==> t.held[i].next == After(t.held, i)
    }

    /** Every vector of waiters, except that of `but`, is a heap. */
    ghost predicate Heaps(but: Mutex?)
      reads threads`priority, mutexes`waiting
    {
      forall m <- mutexes :: m != but ==> (forall w <- m.waiting :: w in threads) && IsHeap(m.waiting)
    }

    ghost predicate Valid()
      reads threads, mutexes
    {
      Linked({}) && Heaps(null) && WellFormed(Abs())
    }

    lemma Entry(t: Thread, out: set<Mutex>)
      requires Linked(out) && t in threads
      ensures t in Abs().pri && Abs().pri[t] == t.priority && t in Abs().saved && Abs().saved[t] == t.savedPriority
      ensures t.mutexWaiting == null <==> t !in Abs().waitOn
      ensures t.mutexWaiting != null ==> t.mutexWaiting in mutexes && Abs().waitOn[t] == t.mutexWaiting
      ensures out == {} ==> (Holds(Abs(), t) <==> t.mutexLocked != null)
    {
      if t.held != [] {
        assert t.held[0] in t.held;
        assert Abs().owner[t.held[0]] == t;
      }
      if out == {} && Holds(Abs(), t) {
        var m :| m in Abs().owner && Abs().owner[m] == t;
        assert m in t.held;
      }
    }

    /** Another thread owns m, and the chain of owners that starts at it passes through p. */
    ghost predicate LeadsTo(m: Mutex, p: Thread)
      reads threads, mutexes, m
    {
      m.owner != null && m.owner != p && ChainTo(m, p)
    }

    ghost predicate ChainTo(m: Mutex, p: Thread)
      reads threads, mutexes
    {
      var s := Abs();
      Closed(s) && m in s.owner && exists n: nat :: Reaches(s, s.owner[m], n) && OnChain(s, s.owner[m], n, p)
    }

    lemma ChainLength(m: Mutex, p: Thread) returns (n: nat)
      requires WellFormed(Abs()) && m in Abs().owner && m.owner != null && m.owner != p
      ensures Reaches(Abs(), Abs().owner[m], n) && (LeadsTo(m, p) <==> OnChain(Abs(), Abs().owner[m], n, p))
    {
      var s := Abs();
      assert s.owner[m] in s.pri;
      n :| Reaches(s, s.owner[m], n);
      if j: nat :| Reaches(s, s.owner[m], j) && OnChain(s, s.owner[m], j, p) {
        ReachesUnique(s, s.owner[m], n, j);
      }
    }

    /** p waits for m in a circle: the objects agree with each other, but no chain through p ends. */
    ghost predicate Deadlocked(s: State<Thread, Mutex>, p: Thread, m: Mutex)
      reads threads, mutexes
    {
      Linked({}) && Heaps(null) && Abs() == s.(waitOn := s.waitOn[p := m]) && Closed(Abs()) && !Acyclic(Abs())
    }

    lemma CycleCloses(m: Mutex, p: Thread)
      requires WellFormed(Abs()) && m in Abs().owner && p in Abs().pri && p !in Abs().waitOn && LeadsTo(m, p)
      ensures var s1 := Abs().(waitOn := Abs().waitOn[p := m]); Closed(s1) && !Acyclic(s1)
    {
      var s := Abs();
      var n: nat :| Reaches(s, s.owner[m], n) && OnChain(s, s.owner[m], n, p);
      RootIffOnChain(s, s.owner[m], n, p);
      DeadlockIff(s, p, m, n);
    }

    /** The state is what op makes of s. */
    ghost predicate Did(s: State<Thread, Mutex>, op: Op<Thread, Mutex>)
      reads threads, mutexes
    {
      Closed(s) && Enabled(s, op) && Abs() == Apply(s, op)
    }

    /** A state that is the release of a well-formed one is a step from it. */
    lemma DidFree(p: Thread, m: Mutex, v: int, q: Thread, s: State<Thread, Mutex>)
      requires Linked({}) && Heaps(null) && WellFormed(s) && p in s.pri && q in s.pri && m in s.depth
      requires ReleaseChoice(s, p, m, v, q) && Abs() == Release(s, p, m, v, q)
      ensures Valid() && Did(s, Free(p, m, v, q))
    {
      hide Linked, Heaps, Abs, Acyclic, Holds, Inherits;
      ReleaseKeepsWellFormed(s, p, m, v, q);
    }

    ghost predicate Did2(s: State<Thread, Mutex>, op: Op<Thread, Mutex>, op2: Op<Thread, Mutex>)
      reads threads, mutexes
    {
      Closed(s) && Enabled(s, op) && Did(Apply(s, op), op2)
    }

    lemma OwnerEntry(m: Mutex)
      requires m in mutexes
      ensures m in Abs().depth && Abs().depth[m] == m.recursiveDepth
      ensures if m.owner == null then m !in Abs().owner else m in Abs().owner && Abs().owner[m] == m.owner
      ensures forall out :: Linked(out) && m.owner != null ==> m.owner in threads
    {
    }

    lemma OncePerQueue(t: Thread, out: set<Mutex>)
      requires Linked(out) && t in threads
      ensures forall m <- mutexes :: multiset(m.waiting)[t] == if t.mutexWaiting == m then 1 else 0
    {
    }

    /** A thread that waits, waits for a mutex that is owned. */
    lemma OwnerOfAwaited(t: Thread)
      requires Linked({}) && t in threads && t.mutexWaiting != null && Closed(Abs())
      ensures t.mutexWaiting in mutexes && t in Abs().waitOn && Abs().waitOn[t] == t.mutexWaiting
      ensures t.mutexWaiting.owner != null && t.mutexWaiting.owner in threads && Next(Abs(), t) == t.mutexWaiting.owner
    {
    }

    /** pr is the maximum of t's saved priority and the fronts of the first i mutexes it holds. */
    ghost predicate MaxOfFirst(t: Thread, i: nat, pr: int)
      reads threads, mutexes
      requires t in threads && List(t) && Heaps(null) && i <= |t.held|
    {
      && t.savedPriority <= pr
      && (forall j :: 0 <= j < i && |t.held[j].waiting| > 0 ==> t.held[j].waiting[0].priority <= pr)
      && (pr == t.savedPriority
          || exists j :: 0 <= j < i && |t.held[j].waiting| > 0 && t.held[j].waiting[0].priority == pr)
    }

    lemma MaxIsInherited(t: Thread, out: set<Mutex>, pr: int)
      requires Linked(out) && Heaps(null) && Closed(Abs()) && t in threads && MaxOfFirst(t, |t.held|, pr)
      ensures Inherits(Abs(), t, out, pr)
    {
      var s := Abs();
      forall w <- s.waitOn | s.waitOn[w] !in out && Next(s, w) == t ensures s.pri[w] <= pr {
        FrontOfQueue(w, out);
        assert w.mutexWaiting in t.held;
      }
      if pr != t.savedPriority {
        var j :| 0 <= j < |t.held| && |t.held[j].waiting| > 0 && t.held[j].waiting[0].priority == pr;
        FrontWaits(t.held[j], out);
        var w := t.held[j].waiting[0];
        assert w in s.waitOn && s.waitOn[w] == t.held[j] && Next(s, w) == t && s.pri[w] == pr;
      }
    }

    /** The front of a vector waits for its mutex. */
    lemma FrontWaits(m: Mutex, out: set<Mutex>)
      requires Linked(out) && m in mutexes && |m.waiting| > 0
      ensures m.waiting[0] in threads && m.waiting[0].mutexWaiting == m
    {
    }

    /** The front of the heap is the waiter that a release prefers. */
    lemma FrontIsHighest(m: Mutex, out: set<Mutex>)
      requires Linked(out) && Heaps(null) && m in mutexes && |m.waiting| > 0 && Closed(Abs())
      ensures m.waiting[0] in Abs().pri && HighestWaiter(Abs(), m, m.waiting[0])
    {
      FrontWaits(m, out);
      var s := Abs();
      forall w <- s.waitOn | s.waitOn[w] == m ensures s.pri[w] <= s.pri[m.waiting[0]] {
        FrontOfQueue(w, out);
      }
    }

    lemma AwaitedIff(m: Mutex, out: set<Mutex>)
      requires Linked(out) && m in mutexes
      ensures Awaited(Abs(), m) <==> |m.waiting| > 0
    {
      var s := Abs();
      if |m.waiting| > 0 {
        FrontWaits(m, out);
        assert m.waiting[0] in s.waitOn;
      }
      if Awaited(s, m) {
        var w :| w in s.waitOn && s.waitOn[w] == m;
        assert multiset(m.waiting)[w] == 1;
      }
    }

    lemma NothingInherited(t: Thread, out: set<Mutex>)
      requires Linked(out) && Heaps(null) && Closed(Abs()) && t in threads && t.mutexLocked == null
      ensures t in Abs().pri && Inherits(Abs(), t, out, t.savedPriority)
    {
    }

    /** A thread has no mutex in its list exactly when it holds none but, possibly, the one given up. */
    lemma EmptyListIff(t: Thread, out: set<Mutex>, m: Mutex)
      requires Linked(out) && t in threads && if m.owner == null then out == {} else out == {m}
      ensures t.mutexLocked == null <==> !Holds(Abs().(owner := Abs().owner - {m}), t)
    {
      var s := Abs().(owner := Abs().owner - {m});
      if t.held != [] {
        assert t.held[0] in t.held;
        assert s.owner[t.held[0]] == t;
      }
      if Holds(s, t) {
        var x :| x in s.owner && s.owner[x] == t;
        assert x in t.held;
      }
    }

    /** A thread that waits is in the vector of its mutex, and not above its front. */
    lemma FrontOfQueue(w: Thread, out: set<Mutex>)
      requires Linked(out) && Heaps(null) && w in threads && w.mutexWaiting != null
      ensures |w.mutexWaiting.waiting| > 0 && w.priority <= w.mutexWaiting.waiting[0].priority
    {
      assert multiset(w.mutexWaiting.waiting)[w] == 1;
      var x :| 0 <= x < |w.mutexWaiting.waiting| && w.mutexWaiting.waiting[x] == w;
      HeapFront(w.mutexWaiting.waiting, x);
    }

    /** Changing the priority of a thread disturbs no heap but the one it waits in. */
    twostate lemma HeapsWithout(t: Thread)
      requires t in threads && old(Heaps(null))
      requires forall m <- mutexes :: multiset(m.waiting)[t] == if t.mutexWaiting == m then 1 else 0
      requires forall x <- threads :: x != t ==> x.priority == old(x.priority)
      requires forall m <- mutexes :: m.waiting == old(m.waiting)
      ensures Heaps(t.mutexWaiting)
    {
      forall m <- mutexes | m != t.mutexWaiting ensures IsHeap(m.waiting) {
        forall j | 0 < j < |m.waiting| ensures NotAboveParent(m.waiting, j) {
          assert old(NotAboveParent(m.waiting, j));
          assert m.waiting[j] in multiset(m.waiting) && m.waiting[Parent(j)] in multiset(m.waiting);
        }
      }
    }

    // ------------------------------------------------------------ what an update of one object changes

    lemma VectorOf(m: Mutex)
      requires Heaps(null) && m in mutexes
      ensures IsHeap(m.waiting)
    {
    }

    twostate lemma OwnersAfter(m: Mutex)
      requires m in mutexes && forall x <- mutexes :: x != m ==> x.owner == old(x.owner)
      ensures Owners() == if m.owner == null then old(Owners()) - {m} else old(Owners())[m := m.owner]
    {
    }

    twostate lemma SavedAfter(t: Thread)
      requires t in threads && forall x <- threads :: x != t ==> x.savedPriority == old(x.savedPriority)
      ensures SavedPriorities() == old(SavedPriorities())[t := t.savedPriority]
    {
    }

    twostate lemma WaitsAfter(t: Thread)
      requires t in threads && forall x <- threads :: x != t ==> x.mutexWaiting == old(x.mutexWaiting)
      ensures WaitedFor() ==
              if t.mutexWaiting == null then old(WaitedFor()) - {t} else old(WaitedFor())[t := t.mutexWaiting]
    {
    }

    twostate lemma DepthsAfter(m: Mutex)
      requires m in mutexes && forall x <- mutexes :: x != m ==> x.recursiveDepth == old(x.recursiveDepth)
      ensures Depths() == old(Depths())[m := m.recursiveDepth]
    {
    }

    /** Only the vector of m changed, and it still is a heap. */
    twostate lemma HeapsAfterChange(m: Mutex)
      requires m in mutexes && old(Heaps(null)) && IsHeap(m.waiting) && forall w <- m.waiting :: w in threads
      requires forall x <- mutexes :: x != m ==> x.waiting == old(x.waiting)
      requires forall t <- threads :: t.priority == old(t.priority)
      ensures Heaps(null)
    {
      forall x <- mutexes | x != m ensures IsHeap(x.waiting) {
        forall j | 0 < j < |x.waiting| ensures NotAboveParent(x.waiting, j) {
          assert old(NotAboveParent(x.waiting, j));
        }
      }
    }

    /** A thread that did not wait entered the vector of tm.1. */
    twostate lemma QueuesAfterJoin(tm: (Thread, Mutex))
      requires tm.0 in threads && tm.1 in mutexes && old(Queues()) && old(tm.0.mutexWaiting) == null
      requires tm.0.mutexWaiting == tm.1 && forall x <- threads :: x != tm.0 ==> x.mutexWaiting == old(x.mutexWaiting)
      requires multiset(tm.1.waiting) == multiset(old(tm.1.waiting) + [tm.0])
      requires forall x <- mutexes :: x != tm.1 ==> x.waiting == old(x.waiting)
      ensures Queues() && forall w <- tm.1.waiting :: w in threads
    {
      forall w <- tm.1.waiting ensures w in threads {
        assert w in multiset(old(tm.1.waiting) + [tm.0]);
      }
    }

    /** A thread that waited left the vector of tm.1. */
    twostate lemma QueuesAfterLeave(tm: (Thread, Mutex))
      requires tm.0 in threads && tm.1 in mutexes && old(Queues()) && old(tm.0.mutexWaiting) == tm.1
      requires tm.0.mutexWaiting == null && forall x <- threads :: x != tm.0 ==> x.mutexWaiting == old(x.mutexWaiting)
      requires multiset(tm.1.waiting) == old(multiset(tm.1.waiting)) - multiset{tm.0}
      requires forall x <- mutexes :: x != tm.1 ==> x.waiting == old(x.waiting)
      ensures Queues() && forall w <- tm.1.waiting :: w in threads
    {
      forall w <- tm.1.waiting ensures w in threads {
        assert w in multiset(tm.1.waiting);
        assert w in old(multiset(tm.1.waiting));
      }
    }

    /** A list none of whose mutexes was relinked. */
    twostate lemma ListKept(t: Thread)
      requires old(List(t)) && t.held == old(t.held) && t.mutexLocked == old(t.mutexLocked)
      requires forall x <- t.held :: x.next == old(x.next)
      ensures List(t)
    {
      forall i | 0 <= i < |t.held| ensures t.held[i].next == After(t.held, i) {
        assert old(t.held[i].next == After(t.held, i));
      }
    }

    /** tm.1 was put in front of the list of tm.0. */
    twostate predicate Pushed(tm: (Thread, Mutex))
      reads threads, mutexes, tm.0, tm.1
    {
      && tm.0 in threads && tm.1 in mutexes
      && tm.1.next == old(tm.0.mutexLocked) && tm.0.mutexLocked == tm.1 && tm.0.held == [tm.1] + old(tm.0.held)
      && forall x <- mutexes :: x != tm.1 ==> x.next == old(x.next)
    }

    twostate lemma ListPushed(tm: (Thread, Mutex))
      requires Pushed(tm) && old(List(tm.0)) && tm.1 !in old(tm.0.held)
      ensures List(tm.0)
    {
      var t := tm.0;
      forall i | 0 <= i < |t.held| ensures t.held[i].next == After(t.held, i) {
        if i > 0 {
          assert old(t.held[i - 1].next == After(t.held, i - 1));
        }
      }
    }

    twostate lemma ListsAfterPush(tm: (Thread, Mutex))
      requires Pushed(tm) && old(Lists({tm.1}))
      requires tm.1.owner == tm.0 && forall x <- mutexes :: x.owner == old(x.owner)
      requires forall x <- threads :: x != tm.0 ==> x.held == old(x.held) && x.mutexLocked == old(x.mutexLocked)
      ensures Lists({})
    {
      forall t <- threads ensures List(t) {
        assert old(List(t)) && tm.1 !in old(t.held);
        if t == tm.0 {
          ListPushed(tm);
        } else {
          ListKept(t);
        }
      }
    }

    /** tmi.1 was at position tmi.2 of the list of tmi.0 and was unlinked. */
    twostate predicate Unlinked(tmi: (Thread, Mutex, nat))
      reads threads, mutexes, tmi.0, tmi.1
    {
      && tmi.0 in threads && tmi.1 in mutexes
      && tmi.2 < |old(tmi.0.held)| && old(tmi.0.held)[tmi.2] == tmi.1
      && tmi.0.held == Without(old(tmi.0.held), tmi.2)
      && tmi.0.mutexLocked == (if tmi.2 == 0 then old(tmi.1.next) else old(tmi.0.mutexLocked))
      && forall x <- mutexes ::
           x.next == if tmi.2 > 0 && x == old(tmi.0.held)[tmi.2 - 1] then old(tmi.1.next) else old(x.next)
    }

    twostate lemma ListUnlinked(tmi: (Thread, Mutex, nat))
      requires Unlinked(tmi) && old(List(tmi.0))
      ensures List(tmi.0)
    {
      var t, n := tmi.0, tmi.2;
      WithoutFacts(old(t.held), n);
      assert old(t.held[n].next == After(t.held, n));
      forall i | 0 <= i < |t.held| ensures t.held[i].next == After(t.held, i) {
        var j := if i < n then i else i + 1;
        assert t.held[i] == old(t.held)[j];
        assert old(t.held[j].next == After(t.held, j));
      }
    }

    twostate lemma ListsAfterUnlink(tmi: (Thread, Mutex, nat))
      requires Unlinked(tmi) && tmi.1.owner == tmi.0 && old(Lists({}))
      requires forall x <- mutexes :: x.owner == old(x.owner)
      requires forall x <- threads :: x != tmi.0 ==> x.held == old(x.held) && x.mutexLocked == old(x.mutexLocked)
      ensures Lists({tmi.1})
    {
      assert old(List(tmi.0));
      WithoutFacts(old(tmi.0.held), tmi.2);
      ListUnlinked(tmi);
      assert tmi.2 == 0 || (old(tmi.0.held)[tmi.2 - 1] in old(tmi.0.held) && old(tmi.0.held)[tmi.2 - 1].owner == tmi.0);
      forall t <- threads | t != tmi.0 ensures List(t) {
        assert old(List(t));
        forall x <- t.held ensures x.next == old(x.next) {
          assert x.owner == t;
        }
        ListKept(t);
      }
    }
  }

  // ---------------------------------------------------------------- lists as sequences

  function After(held: seq<Mutex>, i: nat): Mutex? {
    if i + 1 < |held| then held[i + 1] else null
  }

  function Without(held: seq<Mutex>, n: nat): seq<Mutex>
    requires n < |held|
  {
    held[..n] + held[n + 1..]
  }

  lemma WithoutFacts(held: seq<Mutex>, n: nat)
    requires n < |held| && forall i, j :: 0 <= i < j < |held| ==> held[i] != held[j]
    ensures forall i :: 0 <= i < |held| - 1 ==> Without(held, n)[i] == held[if i < n then i else i + 1]
    ensures forall x :: x in Without(held, n) <==> x in held && x != held[n]
  {
  }
}
