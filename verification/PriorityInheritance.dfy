/**
 The priority-inheritance protocol as a state machine over threads and mutexes.

 A state records who owns which mutex, who waits for which mutex, and the current and saved
 priority of every thread.  The intrusive lists and the waiter vectors of the kernel are a
 representation of such a state (module KernelMutex); what the protocol promises is stated here.
 */
module PriorityInheritance {

  datatype State<T(==), M(==)> = State(
    pri: map<T, int>,     // current priority, of every thread
    saved: map<T, int>,   // savedPriority, of every thread
    waitOn: map<T, M>,    // mutexWaiting, of the threads that wait
    owner: map<M, T>,     // owner, of the mutexes that are locked
    depth: map<M, int>)   // recursiveDepth, of every mutex

  ghost predicate Closed<T, M>(s: State<T, M>) {
    && s.saved.Keys == s.pri.Keys
    && s.owner.Keys <= s.depth.Keys
    && (forall t <- s.waitOn :: t in s.pri && s.waitOn[t] in s.owner)
    && (forall m <- s.owner :: s.owner[m] in s.pri)
  }

  ghost predicate Holds<T, M>(s: State<T, M>, t: T) {
    exists m <- s.owner :: s.owner[m] == t
  }

  /** The owner of the mutex that t waits for. */
  ghost function Next<T, M>(s: State<T, M>, t: T): (o: T)
    requires Closed(s) && t in s.waitOn
    ensures o in s.pri
  {
    s.owner[s.waitOn[t]]
  }

  /** Following owners from t reaches a thread that does not wait after exactly n steps. */
  ghost predicate Reaches<T, M>(s: State<T, M>, t: T, n: nat)
    requires Closed(s)
    decreases n
  {
    if n == 0 then t !in s.waitOn else t in s.waitOn && Reaches(s, Next(s, t), n - 1)
  }

  ghost predicate Acyclic<T, M>(s: State<T, M>)
    requires Closed(s)
  {
    forall t <- s.pri :: exists n: nat :: Reaches(s, t, n)
  }

  /** The thread at the end of the chain of owners that starts at t. */
  ghost function Root<T, M>(s: State<T, M>, t: T, n: nat): T
    requires Closed(s) && Reaches(s, t, n)
    decreases n
  {
    if n == 0 then t else Root(s, Next(s, t), n - 1)
  }

  ghost predicate OnChain<T, M>(s: State<T, M>, t: T, n: nat, u: T)
    requires Closed(s) && Reaches(s, t, n)
    decreases n
  {
    u == t || (n > 0 && OnChain(s, Next(s, t), n - 1, u))
  }

  /** What every reachable state satisfies, whatever the priorities are. */
  ghost predicate WellFormed<T, M>(s: State<T, M>) {
    && Closed(s)
    && Acyclic(s)
    && (forall m <- s.depth :: s.depth[m] >= -1)
    && (forall m <- s.depth :: m !in s.owner ==> s.depth[m] <= 0)
  }

  /** v is the maximum of t's saved priority and the priorities of the threads waiting for the
      mutexes t holds, those on `except` left out. */
  ghost predicate Inherits<T, M>(s: State<T, M>, t: T, except: set<M>, v: int)
    requires Closed(s) && t in s.pri
  {
    && s.saved[t] <= v
    && (forall w <- s.waitOn :: s.waitOn[w] !in except && Next(s, w) == t ==> s.pri[w] <= v)
    && (v == s.saved[t] || exists w <- s.waitOn :: s.waitOn[w] !in except && Next(s, w) == t && s.pri[w] == v)
  }

  /** The inheritance invariant: a thread that holds a mutex runs at exactly the maximum of its
      saved priority and the priorities of the threads it keeps waiting. */
  ghost predicate Exact<T, M>(s: State<T, M>) {
    Closed(s) && forall m <- s.owner :: Inherits(s, s.owner[m], {}, s.pri[s.owner[m]])
  }

  /** The priority a thread has when nobody boosts it. */
  ghost function Base<T, M>(s: State<T, M>, t: T): int
    requires Closed(s) && t in s.pri
  {
    if Holds(s, t) then s.saved[t] else s.pri[t]
  }

  // ---------------------------------------------------------------- operations

  /** A thread that takes its first mutex remembers its priority. */
  ghost function Acquire<T, M>(s: State<T, M>, p: T, m: M): State<T, M>
    requires p in s.pri
  {
    s.(saved := if Holds(s, p) then s.saved else s.saved[p := s.pri[p]],
       owner := s.owner[m := p])
  }

  /** The boosting walk: t and every owner further up its chain get priority v. */
  ghost function Boost<T, M>(s: State<T, M>, t: T, n: nat, v: int): State<T, M>
    requires Closed(s) && t in s.pri && Reaches(s, t, n)
    decreases n
  {
    var s1 := s.(pri := s.pri[t := v]);
    if n == 0 then s1 else
      assert Next(s1, t) == Next(s, t);
      ReachesSameGraph(s, s1, Next(s, t), n - 1);
      Boost(s1, Next(s1, t), n - 1, v)
  }

  /** p queues on m, owned by a thread whose chain has n steps, and lends it its priority. */
  ghost function Block<T, M>(s: State<T, M>, p: T, m: M, n: nat): State<T, M>
    requires Closed(s) && p in s.pri && m in s.owner && Reaches(s, s.owner[m], n)
    requires p !in s.waitOn && !OnChain(s, s.owner[m], n, p)
  {
    var s1 := s.(waitOn := s.waitOn[p := m]);
    if s.pri[p] > s.pri[s.owner[m]] then
      ReachesAfterQueueing(s, p, m, s.owner[m], n);
      Boost(s1, s.owner[m], n, s.pri[p])
    else s1
  }

  /** p gives up m; v is its recomputed priority and q the waiter that takes over, if any waits. */
  ghost predicate ReleaseChoice<T, M>(s: State<T, M>, p: T, m: M, v: int, q: T)
    requires Closed(s)
  {
    && m in s.owner && s.owner[m] == p && p !in s.waitOn
    && Inherits(s, p, {m}, v)
    && (Awaited(s, m) ==> HighestWaiter(s, m, q))
  }

  ghost predicate Awaited<T, M>(s: State<T, M>, m: M) {
    exists w <- s.waitOn :: s.waitOn[w] == m
  }

  ghost predicate HighestWaiter<T, M>(s: State<T, M>, m: M, q: T) {
    && q in s.waitOn && s.waitOn[q] == m && q in s.pri
    && forall w <- s.waitOn :: s.waitOn[w] == m ==> w in s.pri && s.pri[w] <= s.pri[q]
  }

  /** The priority of a thread that does not wait is nothing to the waiters. */
  lemma OthersWait<T, M>(s: State<T, M>, p: T, v: int, m: M, q: T)
    requires p !in s.waitOn
    ensures var s1 := s.(pri := s.pri[p := v]);
            (Awaited(s1, m) <==> Awaited(s, m)) && (p in s.pri && HighestWaiter(s1, m, q) ==> HighestWaiter(s, m, q))
  {
  }

  /** The effect of the release; the nesting depth of a recursive mutex restarts from 0. */
  ghost function Release<T, M>(s: State<T, M>, p: T, m: M, v: int, q: T): State<T, M>
    requires p in s.pri && q in s.pri && m in s.depth
  {
    var s1 := s.(pri := s.pri[p := v], owner := s.owner - {m},
                 depth := s.depth[m := if s.depth[m] > 0 then 0 else s.depth[m]]);
    if Awaited(s, m)
    then Acquire(s1.(waitOn := s.waitOn - {q}), q, m)
    else s1
  }

  /** A thread sets its own priority; v is what it runs at if it holds a mutex.  Setting the saved
      priority it already has changes nothing. */
  ghost function SetPriority<T, M>(s: State<T, M>, p: T, pr: int, v: int): State<T, M>
    requires p in s.saved
  {
    if !Holds(s, p) then s.(pri := s.pri[p := pr])
    else if s.saved[p] == pr then s
    else s.(saved := s.saved[p := pr], pri := s.pri[p := v])
  }

  ghost predicate SetChoice<T, M>(s: State<T, M>, p: T, pr: int, v: int)
    requires Closed(s)
  {
    && p in s.pri && p !in s.waitOn
    && (Holds(s, p) && s.saved[p] != pr ==> Inherits(s.(saved := s.saved[p := pr]), p, {}, v))
  }

  // ---------------------------------------------------------------- chains

  lemma {:induction false} ReachesSameGraph<T, M>(s: State<T, M>, s1: State<T, M>, t: T, n: nat)
    requires Closed(s) && Closed(s1) && s.waitOn == s1.waitOn && s.owner == s1.owner
    requires Reaches(s, t, n)
    ensures Reaches(s1, t, n)
    ensures Root(s1, t, n) == Root(s, t, n)
    ensures forall u :: OnChain(s1, t, n, u) <==> OnChain(s, t, n, u)
    decreases n
  {
    if n > 0 {
      ReachesSameGraph(s, s1, Next(s, t), n - 1);
    }
  }

  /** The length of a chain is determined by where it starts. */
  lemma {:induction false} ReachesUnique<T, M>(s: State<T, M>, t: T, n: nat, k: nat)
    requires Closed(s) && Reaches(s, t, n) && Reaches(s, t, k)
    ensures n == k
    decreases n
  {
    if n > 0 && k > 0 {
      ReachesUnique(s, Next(s, t), n - 1, k - 1);
    }
  }

  /** What is on a chain has a chain of its own, with the same root. */
  lemma {:induction false} OnChainReaches<T, M>(s: State<T, M>, t: T, n: nat, u: T) returns (k: nat)
    requires Closed(s) && Reaches(s, t, n) && OnChain(s, t, n, u)
    ensures k <= n && Reaches(s, u, k) && Root(s, u, k) == Root(s, t, n)
    ensures u == t <==> k == n
    ensures t in s.pri ==> u in s.pri
    decreases n
  {
    if u == t {
      k := n;
    } else {
      k := OnChainReaches(s, Next(s, t), n - 1, u);
      if k == n {
        assert false;
      }
    }
  }

  /** No two threads of one chain are equally far from its root. */
  lemma {:induction false} ChainInjective<T, M>(s: State<T, M>, t: T, n: nat, u: T, v: T, k: nat)
    requires Closed(s) && Reaches(s, t, n) && OnChain(s, t, n, u) && OnChain(s, t, n, v)
    requires Reaches(s, u, k) && Reaches(s, v, k)
    ensures u == v
    decreases n
  {
    var ku := OnChainReaches(s, t, n, u);
    var kv := OnChainReaches(s, t, n, v);
    ReachesUnique(s, u, k, ku);
    ReachesUnique(s, v, k, kv);
    if u != t && v != t {
      ChainInjective(s, Next(s, t), n - 1, u, v, k);
    }
  }

  /** A thread that waits is followed on the chain by the thread it waits for. */
  lemma {:induction false} NextOnChain<T, M>(s: State<T, M>, t: T, n: nat, u: T)
    requires Closed(s) && Reaches(s, t, n) && OnChain(s, t, n, u) && u in s.waitOn
    ensures OnChain(s, t, n, Next(s, u))
    decreases n
  {
    if u != t {
      NextOnChain(s, Next(s, t), n - 1, u);
    }
  }

  /** A chain ends at p exactly when p, which does not wait, is on it. */
  lemma {:induction false} RootIffOnChain<T, M>(s: State<T, M>, t: T, n: nat, p: T)
    requires Closed(s) && Reaches(s, t, n) && p !in s.waitOn
    ensures OnChain(s, t, n, p) <==> Root(s, t, n) == p
    decreases n
  {
    if n > 0 {
      RootIffOnChain(s, Next(s, t), n - 1, p);
    }
  }

  /** Queueing p on m leaves alone every chain that p is not on. */
  lemma {:induction false} ReachesAfterQueueing<T, M>(s: State<T, M>, p: T, m: M, t: T, n: nat)
    requires Closed(s) && p in s.pri && m in s.owner && p !in s.waitOn
    requires Reaches(s, t, n) && !OnChain(s, t, n, p)
    ensures var s1 := s.(waitOn := s.waitOn[p := m]);
            Reaches(s1, t, n) && Root(s1, t, n) == Root(s, t, n)
            && forall u :: OnChain(s1, t, n, u) <==> OnChain(s, t, n, u)
    decreases n
  {
    if n > 0 {
      ReachesAfterQueueing(s, p, m, Next(s, t), n - 1);
    }
  }

  /** Queueing p on m makes the chains that ended at p run on through the owner of m. */
  lemma {:induction false} ReachesThrough<T, M>(s: State<T, M>, p: T, m: M, n: nat, t: T, k: nat)
    requires Closed(s) && p in s.pri && m in s.owner && p !in s.waitOn
    requires Reaches(s, s.owner[m], n) && !OnChain(s, s.owner[m], n, p)
    requires Reaches(s, t, k) && Root(s, t, k) == p
    ensures Reaches(s.(waitOn := s.waitOn[p := m]), t, k + 1 + n)
    decreases k
  {
    var s1 := s.(waitOn := s.waitOn[p := m]);
    if k == 0 {
      ReachesAfterQueueing(s, p, m, s.owner[m], n);
      assert Next(s1, t) == s.owner[m];
    } else {
      ReachesThrough(s, p, m, n, Next(s, t), k - 1);
      assert Next(s1, t) == Next(s, t);
    }
  }

  /** After queueing, a chain that used to end at p still passes through p. */
  lemma {:induction false} StillPasses<T, M>(s: State<T, M>, p: T, m: M, t: T, n: nat, j: nat)
    requires Closed(s) && p in s.pri && m in s.owner && p !in s.waitOn
    requires Reaches(s, t, n) && Root(s, t, n) == p
    requires Reaches(s.(waitOn := s.waitOn[p := m]), t, j)
    ensures n <= j && Reaches(s.(waitOn := s.waitOn[p := m]), p, j - n)
    decreases n
  {
    if n > 0 {
      StillPasses(s, p, m, Next(s, t), n - 1, j - 1);
    }
  }

  // ---------------------------------------------------------------- deadlock

  /** Queueing p on m keeps every chain finite, so that the boosting walk ends, exactly when the chain
      from the owner of m does not already end at p. */
  lemma DeadlockIff<T, M>(s: State<T, M>, p: T, m: M, n: nat)
    requires WellFormed(s) && p in s.pri && p !in s.waitOn && m in s.owner
    requires Reaches(s, s.owner[m], n)
    ensures Acyclic(s.(waitOn := s.waitOn[p := m])) <==> Root(s, s.owner[m], n) != p
  {
    var s1 := s.(waitOn := s.waitOn[p := m]);
    RootIffOnChain(s, s.owner[m], n, p);
    if Root(s, s.owner[m], n) != p {
      forall t <- s1.pri ensures exists j: nat :: Reaches(s1, t, j) {
        var k: nat :| Reaches(s, t, k);
        if Root(s, t, k) == p {
          ReachesThrough(s, p, m, n, t, k);
        } else {
          RootIffOnChain(s, t, k, p);
          ReachesAfterQueueing(s, p, m, t, k);
        }
      }
    } else if exists j: nat :: Reaches(s1, p, j) {
      var j: nat :| Reaches(s1, p, j);
      assert Next(s1, p) == s.owner[m];
      StillPasses(s, p, m, s.owner[m], n, j - 1);
      ReachesUnique(s1, p, j, j - 1 - n);
    }
  }

  /** A walk along the owners from t is still at a thread that waits after k steps. */
  ghost predicate WalksOn<T, M>(s: State<T, M>, t: T, k: nat)
    requires Closed(s)
    decreases k
  {
    t in s.waitOn && (k > 0 ==> WalksOn(s, Next(s, t), k - 1))
  }

  /** A walk that stops, stops where a chain ends. */
  lemma {:induction false} WalkStops<T, M>(s: State<T, M>, t: T, k: nat) returns (n: nat)
    requires Closed(s) && !WalksOn(s, t, k)
    ensures n <= k && Reaches(s, t, n)
    decreases k
  {
    if t !in s.waitOn {
      n := 0;
    } else {
      n := WalkStops(s, Next(s, t), k - 1);
      n := n + 1;
    }
  }

  /** When the chain from the owner of m ends at p, and p queues on m all the same, the boosting walk never ends. */
  lemma WalkEndless<T, M>(s: State<T, M>, p: T, m: M, n: nat, k: nat)
    requires WellFormed(s) && p in s.pri && p !in s.waitOn && m in s.owner
    requires Reaches(s, s.owner[m], n) && Root(s, s.owner[m], n) == p
    ensures WalksOn(s.(waitOn := s.waitOn[p := m]), s.owner[m], k)
  {
    var s1 := s.(waitOn := s.waitOn[p := m]);
    forall i: nat ensures !Reaches(s1, s.owner[m], i) {
      if Reaches(s1, s.owner[m], i) {
        StillPasses(s, p, m, s.owner[m], n, i);
        assert Next(s1, p) == s.owner[m];
        ReachesUnique(s1, s.owner[m], i, i - n - 1);
      }
    }
    if !WalksOn(s1, s.owner[m], k) {
      var i := WalkStops(s1, s.owner[m], k);
    }
  }

  // ---------------------------------------------------------------- the walk

  /** The walk changes nothing but priorities: threads on the chain get v, the others keep theirs. */
  lemma {:induction false} BoostSets<T, M>(s: State<T, M>, t: T, n: nat, v: int)
    requires Closed(s) && t in s.pri && Reaches(s, t, n)
    ensures var s2 := Boost(s, t, n, v);
            s2 == s.(pri := s2.pri) && s2.pri.Keys == s.pri.Keys
            && forall u <- s.pri :: s2.pri[u] == if OnChain(s, t, n, u) then v else s.pri[u]
    decreases n
  {
    if n > 0 {
      var s1 := s.(pri := s.pri[t := v]);
      ReachesSameGraph(s, s1, Next(s, t), n - 1);
      BoostSets(s1, Next(s1, t), n - 1, v);
    }
  }

  lemma BoostStep<T, M>(s: State<T, M>, t: T, n: nat, v: int)
    requires Closed(s) && t in s.waitOn && Reaches(s, t, n)
    ensures var s1 := s.(pri := s.pri[t := v]);
            n > 0 && Closed(s1) && Reaches(s1, Next(s, t), n - 1)
              && Boost(s, t, n, v) == Boost(s1, Next(s, t), n - 1, v)
  {
    ReachesSameGraph(s, s.(pri := s.pri[t := v]), Next(s, t), n - 1);
  }

  lemma BoostLast<T, M>(s: State<T, M>, t: T, n: nat, v: int)
    requires Closed(s) && t in s.pri && t !in s.waitOn && Reaches(s, t, n)
    ensures Boost(s, t, n, v) == s.(pri := s.pri[t := v])
  {
  }

  lemma NextNotLower<T, M>(s: State<T, M>, t: T)
    requires Exact(s) && t in s.waitOn
    ensures s.pri[t] <= s.pri[Next(s, t)]
  {
  }

  /** In an exact state priorities do not decrease along a chain. */
  lemma {:induction false} ChainMonotone<T, M>(s: State<T, M>, t: T, n: nat)
    requires Exact(s) && t in s.pri && Reaches(s, t, n)
    ensures Closed(s) && Root(s, t, n) in s.pri
    ensures forall u <- s.pri :: OnChain(s, t, n, u) ==> s.pri[t] <= s.pri[u] <= s.pri[Root(s, t, n)]
    decreases n
  {
    hide Inherits;
    if n > 0 {
      NextNotLower(s, t);
      ChainMonotone(s, Next(s, t), n - 1);
    }
  }

  // ---------------------------------------------------------------- locking

  /** s2 is s with p queued on m, and with v as the priority of the threads on the chain if `walked`. */
  ghost predicate Queued<T, M>(s: State<T, M>, s2: State<T, M>, p: T, m: M, n: nat, walked: bool)
    requires Closed(s) && p in s.pri && m in s.owner && Reaches(s, s.owner[m], n)
  {
    && s2 == s.(pri := s2.pri, waitOn := s.waitOn[p := m])
    && s2.pri.Keys == s.pri.Keys
    && forall u <- s.pri :: s2.pri[u] == if walked && OnChain(s, s.owner[m], n, u) then s.pri[p] else s.pri[u]
  }

  /** What queueing does to each priority. */
  lemma BlockSets<T, M>(s: State<T, M>, p: T, m: M, n: nat)
    requires Closed(s) && p in s.pri && m in s.owner && Reaches(s, s.owner[m], n)
    requires p !in s.waitOn && !OnChain(s, s.owner[m], n, p)
    ensures Queued(s, Block(s, p, m, n), p, m, n, s.pri[p] > s.pri[s.owner[m]])
  {
    ReachesAfterQueueing(s, p, m, s.owner[m], n);
    BoostSets(s.(waitOn := s.waitOn[p := m]), s.owner[m], n, s.pri[p]);
  }

  lemma BlockKeepsWellFormed<T, M>(s: State<T, M>, p: T, m: M, n: nat)
    requires WellFormed(s) && p in s.pri && m in s.owner && Reaches(s, s.owner[m], n)
    requires p !in s.waitOn && !OnChain(s, s.owner[m], n, p)
    ensures WellFormed(Block(s, p, m, n))
  {
    BlockSets(s, p, m, n);
    RootIffOnChain(s, s.owner[m], n, p);
    DeadlockIff(s, p, m, n);
    var s1 := s.(waitOn := s.waitOn[p := m]);
    var s2 := Block(s, p, m, n);
    forall t <- s2.pri ensures exists j: nat :: Reaches(s2, t, j) {
      var j: nat :| Reaches(s1, t, j);
      ReachesSameGraph(s1, s2, t, j);
    }
  }

  /** The condition under which queueing keeps the inheritance invariant: the walk is not needed,
      or nobody it overwrites runs above the thread that queues. */
  ghost predicate NobodyLowered<T, M>(s: State<T, M>, p: T, m: M, n: nat)
    requires Closed(s) && p in s.pri && m in s.owner && Reaches(s, s.owner[m], n)
  {
    s.pri[p] <= s.pri[s.owner[m]] || (Root(s, s.owner[m], n) in s.pri && s.pri[Root(s, s.owner[m], n)] <= s.pri[p])
  }

  /** After a walk that lowers nobody, the waiters of o are still not above o. */
  lemma QueuedBound<T, M>(s: State<T, M>, s2: State<T, M>, p: T, m: M, n: nat, o: T, w: T)
    requires Exact(s) && p in s.pri && m in s.owner && Reaches(s, s.owner[m], n) && p !in s.waitOn
    requires !OnChain(s, s.owner[m], n, p) && NobodyLowered(s, p, m, n)
    requires Queued(s, s2, p, m, n, s.pri[p] > s.pri[s.owner[m]]) && Closed(s2)
    requires w in s2.waitOn && Next(s2, w) == o
    ensures s2.pri[w] <= s2.pri[o]
  {
    ChainMonotone(s, s.owner[m], n);
    if w != p {
      assert Next(s, w) == o;
      assert Inherits(s, o, {}, s.pri[o]);
      if OnChain(s, s.owner[m], n, w) {
        NextOnChain(s, s.owner[m], n, w);
      }
    }
  }

  /** After a walk that lowers nobody, the priority of o is its saved one or that of one of its waiters. */
  lemma QueuedWitness<T, M>(s: State<T, M>, s2: State<T, M>, p: T, m: M, n: nat, o: T)
    requires Exact(s) && p in s.pri && m in s.owner && Reaches(s, s.owner[m], n) && p !in s.waitOn
    requires !OnChain(s, s.owner[m], n, p) && NobodyLowered(s, p, m, n)
    requires Queued(s, s2, p, m, n, s.pri[p] > s.pri[s.owner[m]]) && Closed(s2)
    requires o in s.pri && Inherits(s, o, {}, s.pri[o])
    ensures s2.pri[o] == s.saved[o] || exists w <- s2.waitOn :: Next(s2, w) == o && s2.pri[w] >= s2.pri[o]
  {
    hide Exact;
    if s2.pri[o] == s.pri[o] {
      if s.pri[o] != s.saved[o] {
        var w :| w in s.waitOn && Next(s, w) == o && s.pri[w] == s.pri[o];
        QueuedRaises(s, s2, p, m, n, w);
        assert w in s2.waitOn && Next(s2, w) == o;
      }
    } else if o == s.owner[m] {
      assert p in s2.waitOn && Next(s2, p) == o;
    } else {
      var w := PredecessorOnChain(s, s.owner[m], n, o);
      assert w in s2.waitOn && Next(s2, w) == o;
    }
  }

  lemma QueuedInherits<T, M>(s: State<T, M>, s2: State<T, M>, p: T, m: M, n: nat, x: M)
    requires Exact(s) && p in s.pri && m in s.owner && Reaches(s, s.owner[m], n) && p !in s.waitOn
    requires !OnChain(s, s.owner[m], n, p) && NobodyLowered(s, p, m, n)
    requires Queued(s, s2, p, m, n, s.pri[p] > s.pri[s.owner[m]]) && Closed(s2)
    requires x in s.owner
    ensures Inherits(s2, s2.owner[x], {}, s2.pri[s2.owner[x]])
  {
    hide OnChain, Reaches, Root;
    var o := s.owner[x];
    assert Inherits(s, o, {}, s.pri[o]);
    QueuedRaises(s, s2, p, m, n, o);
    forall w <- s2.waitOn | Next(s2, w) == o ensures s2.pri[w] <= s2.pri[o] {
      QueuedBound(s, s2, p, m, n, o, w);
    }
    QueuedWitness(s, s2, p, m, n, o);
  }

  lemma QueuedRaises<T, M>(s: State<T, M>, s2: State<T, M>, p: T, m: M, n: nat, u: T)
    requires Exact(s) && p in s.pri && m in s.owner && Reaches(s, s.owner[m], n) && p !in s.waitOn
    requires NobodyLowered(s, p, m, n) && Queued(s, s2, p, m, n, s.pri[p] > s.pri[s.owner[m]])
    requires u in s.pri
    ensures s.pri[u] <= s2.pri[u]
  {
    ChainMonotone(s, s.owner[m], n);
  }

  /** When the walk lowers somebody, the invariant is lost: the first owner above the thread that queues
      ends up below its saved priority or below a waiter that is not on the chain. */
  lemma QueuedLosesExact<T, M>(s: State<T, M>, s2: State<T, M>, p: T, m: M, n: nat)
    requires Exact(s) && p in s.pri && m in s.owner && Reaches(s, s.owner[m], n) && p !in s.waitOn
    requires !NobodyLowered(s, p, m, n) && Queued(s, s2, p, m, n, true) && Closed(s2)
    ensures !Exact(s2)
  {
    ChainMonotone(s, s.owner[m], n);
    var x := Crossing(s, s.owner[m], n, s.pri[p]);
    var o := Next(s, x);
    NextOnChain(s, s.owner[m], n, x);
    assert s2.pri[o] == s.pri[p] < s.pri[o];
    assert Inherits(s, o, {}, s.pri[o]);
    if s.saved[o] != s.pri[o] {
      var w :| w in s.waitOn && Next(s, w) == o && s.pri[w] == s.pri[o];
      SamePlace(s, s.owner[m], n, w, x);
      assert w in s2.waitOn && Next(s2, w) == o && s2.pri[w] > s2.pri[o];
    }
    assert !Inherits(s2, s2.owner[s.waitOn[x]], {}, s2.pri[o]);
  }

  /** Two threads of one chain that wait for the same thread are the same. */
  lemma SamePlace<T, M>(s: State<T, M>, t: T, n: nat, w: T, x: T)
    requires Closed(s) && Reaches(s, t, n) && OnChain(s, t, n, x)
    requires w in s.waitOn && x in s.waitOn && Next(s, w) == Next(s, x)
    ensures OnChain(s, t, n, w) ==> w == x
  {
    if OnChain(s, t, n, w) {
      var k := OnChainReaches(s, t, n, w);
      var j := OnChainReaches(s, t, n, x);
      ReachesUnique(s, Next(s, x), k - 1, j - 1);
      ChainInjective(s, t, n, w, x, k);
    }
  }

  lemma {:induction false} PredecessorOnChain<T, M>(s: State<T, M>, t: T, n: nat, u: T) returns (w: T)
    requires Closed(s) && Reaches(s, t, n) && OnChain(s, t, n, u) && u != t
    ensures w in s.waitOn && Next(s, w) == u && OnChain(s, t, n, w)
    decreases n
  {
    if Next(s, t) == u {
      w := t;
    } else {
      w := PredecessorOnChain(s, Next(s, t), n - 1, u);
    }
  }

  /** Where a chain first rises above v. */
  lemma {:induction false} Crossing<T, M>(s: State<T, M>, t: T, n: nat, v: int) returns (w: T)
    requires Closed(s) && t in s.pri && Reaches(s, t, n) && s.pri[t] <= v
    requires Root(s, t, n) in s.pri && s.pri[Root(s, t, n)] > v
    ensures w in s.waitOn && OnChain(s, t, n, w) && w in s.pri && s.pri[w] <= v < s.pri[Next(s, w)]
    decreases n
  {
    if s.pri[Next(s, t)] > v {
      w := t;
    } else {
      w := Crossing(s, Next(s, t), n - 1, v);
    }
  }

  /** Queueing keeps the inheritance invariant exactly when the condition above holds. */
  lemma BlockExactIff<T, M>(s: State<T, M>, p: T, m: M, n: nat)
    requires WellFormed(s) && Exact(s) && p in s.pri && m in s.owner && Reaches(s, s.owner[m], n)
    requires p !in s.waitOn && !OnChain(s, s.owner[m], n, p)
    ensures Exact(Block(s, p, m, n)) <==> NobodyLowered(s, p, m, n)
  {
    BlockSets(s, p, m, n);
    var s2 := Block(s, p, m, n);
    if NobodyLowered(s, p, m, n) {
      forall x <- s2.owner ensures Inherits(s2, s2.owner[x], {}, s2.pri[s2.owner[x]]) {
        QueuedInherits(s, s2, p, m, n, x);
      }
    } else {
      ChainMonotone(s, s.owner[m], n);
      QueuedLosesExact(s, s2, p, m, n);
    }
  }

  /** Taking a free mutex keeps the invariants and everybody's base priority. */
  lemma AcquireKeeps<T, M>(s: State<T, M>, p: T, m: M)
    requires WellFormed(s) && p in s.pri && m in s.depth && m !in s.owner
    ensures WellFormed(Acquire(s, p, m))
    ensures Exact(s) ==> Exact(Acquire(s, p, m))
    ensures forall t <- s.pri :: Base(Acquire(s, p, m), t) == Base(s, t)
  {
    var s1 := Acquire(s, p, m);
    SameWaits(s, s1);
    HoldsAfterAcquire(s, p, m);
    if Exact(s) {
      forall x <- s1.owner ensures Inherits(s1, s1.owner[x], {}, s1.pri[s1.owner[x]]) {
        if Holds(s, s1.owner[x]) {
          var y :| y in s.owner && s.owner[y] == s1.owner[x];
          assert Inherits(s, s.owner[y], {}, s.pri[s.owner[y]]);
          InheritsSame(s, s1, s.owner[y], s.pri[s.owner[y]]);
        } else {
          NoWaiters(s, p);
          assert forall w <- s1.waitOn :: Next(s1, w) == Next(s, w);
        }
      }
    }
  }

  /** Nobody waits for a thread that holds nothing. */
  lemma NoWaiters<T, M>(s: State<T, M>, p: T)
    requires Closed(s) && !Holds(s, p)
    ensures forall w <- s.waitOn :: Next(s, w) != p
  {
  }

  lemma HoldsAfterAcquire<T, M>(s: State<T, M>, p: T, m: M)
    requires p in s.pri && m !in s.owner
    ensures forall t :: Holds(Acquire(s, p, m), t) <==> Holds(s, t) || t == p
  {
    var s1 := Acquire(s, p, m);
    assert s1.owner[m] == p;
    forall t | Holds(s, t) ensures Holds(s1, t) {
      var y :| y in s.owner && s.owner[y] == t;
      assert s1.owner[y] == t;
    }
    forall t | Holds(s1, t) && t != p ensures Holds(s, t) {
      var y :| y in s1.owner && s1.owner[y] == t;
      assert s.owner[y] == t;
    }
  }

  /** The threads that wait for t, and their priorities, are the same in both states. */
  ghost predicate SameWaiters<T, M>(s: State<T, M>, s1: State<T, M>, t: T)
    requires Closed(s) && Closed(s1)
  {
    && (forall w <- s.waitOn :: Next(s, w) == t ==> w in s1.waitOn && Next(s1, w) == t && s1.pri[w] == s.pri[w])
    && (forall w <- s1.waitOn :: Next(s1, w) == t ==> w in s.waitOn && Next(s, w) == t)
  }

  lemma InheritsSame<T, M>(s: State<T, M>, s1: State<T, M>, t: T, v: int)
    requires Closed(s) && Closed(s1) && t in s.pri && t in s1.pri && s1.saved[t] == s.saved[t]
    requires SameWaiters(s, s1, t)
    ensures Inherits(s, t, {}, v) ==> Inherits(s1, t, {}, v)
  {
  }

  /** Chains depend only on who waits for whom. */
  lemma {:induction false} ReachesSameNext<T, M>(s: State<T, M>, s1: State<T, M>, t: T, n: nat)
    requires Closed(s) && Closed(s1) && s1.waitOn.Keys == s.waitOn.Keys
    requires forall w <- s.waitOn :: Next(s1, w) == Next(s, w)
    requires Reaches(s, t, n)
    ensures Reaches(s1, t, n)
    decreases n
  {
    if n > 0 {
      ReachesSameNext(s, s1, Next(s, t), n - 1);
    }
  }

  lemma SameWaits<T, M>(s: State<T, M>, s1: State<T, M>)
    requires Closed(s) && Closed(s1) && Acyclic(s) && s1.pri.Keys == s.pri.Keys && s1.waitOn.Keys == s.waitOn.Keys
    requires forall w <- s.waitOn :: Next(s1, w) == Next(s, w)
    ensures Acyclic(s1)
  {
    forall t <- s1.pri ensures exists n: nat :: Reaches(s1, t, n) {
      var n: nat :| Reaches(s, t, n);
      ReachesSameNext(s, s1, t, n);
    }
  }

  // ---------------------------------------------------------------- unlocking

  /** s2 is s after p gave up m, taken over by q if anybody waits for it. */
  ghost predicate Released<T, M>(s: State<T, M>, s2: State<T, M>, p: T, m: M, v: int, q: T)
    requires Closed(s) && p in s.pri && q in s.pri && ReleaseChoice(s, p, m, v, q)
  {
    && Closed(s2) && s2.pri == s.pri[p := v]
    && s2.waitOn == (if Awaited(s, m) then s.waitOn - {q} else s.waitOn)
    && s2.owner == (if Awaited(s, m) then s.owner[m := q] else s.owner - {m})
    && (Awaited(s, m) ==> q in s.waitOn && Next(s, q) == p && q != p)
    && (forall w <- s2.waitOn :: Next(s2, w) == if s.waitOn[w] == m then q else Next(s, w))
    && forall t <- s.pri :: s2.saved[t] == if Awaited(s, m) && t == q && !Holds(s, q) then s.pri[q] else s.saved[t]
  }

  lemma ReleaseGraph<T, M>(s: State<T, M>, p: T, m: M, v: int, q: T)
    requires WellFormed(s) && p in s.pri && q in s.pri && ReleaseChoice(s, p, m, v, q)
    ensures Released(s, Release(s, p, m, v, q), p, m, v, q)
  {
    hide Acyclic, Inherits;
    if Awaited(s, m) {
      HeirNotReleaser(s, p, m, v, q);
      HeirHeld(s, p, m, v, q);
      hide Holds, Awaited;
      assert s.owner - {m} + map[m := q] == s.owner[m := q];
    }
  }

  /** The heir waits for the releaser, which does not wait. */
  lemma HeirNotReleaser<T, M>(s: State<T, M>, p: T, m: M, v: int, q: T)
    requires Closed(s) && p in s.pri && q in s.pri && ReleaseChoice(s, p, m, v, q) && Awaited(s, m)
    ensures q in s.waitOn && s.waitOn[q] == m && Next(s, q) == p && q != p
  {
  }

  lemma HeirHeld<T, M>(s: State<T, M>, p: T, m: M, v: int, q: T)
    requires Closed(s) && p in s.pri && q in s.pri && ReleaseChoice(s, p, m, v, q) && Awaited(s, m)
    ensures Holds(s.(pri := s.pri[p := v], owner := s.owner - {m}, waitOn := s.waitOn - {q}), q) <==> Holds(s, q)
  {
    var s1 := s.(pri := s.pri[p := v], owner := s.owner - {m}, waitOn := s.waitOn - {q});
    if Holds(s, q) {
      var x :| x in s.owner && s.owner[x] == q;
      assert s1.owner[x] == q;
    }
  }

  lemma ReleaseShape<T, M>(s: State<T, M>, p: T, m: M, v: int, q: T)
    requires p in s.pri && q in s.pri && m in s.depth
    ensures var s1 := s.(pri := s.pri[p := v], owner := s.owner - {m});
            Release(s, p, m, v, q).(depth := s.depth) ==
            if Awaited(s, m) then Acquire(s1.(waitOn := s.waitOn - {q}), q, m) else s1
  {
  }

  lemma {:induction false} ReleaseShortens<T, M>(s: State<T, M>, p: T, m: M, v: int, q: T, t: T, n: nat)
    returns (k: nat)
    requires WellFormed(s) && p in s.pri && q in s.pri && ReleaseChoice(s, p, m, v, q)
    requires Reaches(s, t, n)
    ensures Closed(Release(s, p, m, v, q)) && k <= n && Reaches(Release(s, p, m, v, q), t, k)
    decreases n
  {
    ReleaseGraph(s, p, m, v, q);
    if n == 0 || (t == q && Awaited(s, m)) {
      k := 0;
    } else if s.waitOn[t] == m {
      k := 1;
      assert Reaches(Release(s, p, m, v, q), q, 0);
    } else {
      var j := ReleaseShortens(s, p, m, v, q, Next(s, t), n - 1);
      k := j + 1;
    }
  }

  lemma ReleaseKeepsWellFormed<T, M>(s: State<T, M>, p: T, m: M, v: int, q: T)
    requires WellFormed(s) && p in s.pri && q in s.pri && ReleaseChoice(s, p, m, v, q)
    ensures WellFormed(Release(s, p, m, v, q))
  {
    ReleaseGraph(s, p, m, v, q);
    var s2 := Release(s, p, m, v, q);
    forall t <- s2.pri ensures exists j: nat :: Reaches(s2, t, j) {
      var n: nat :| Reaches(s, t, n);
      var k := ReleaseShortens(s, p, m, v, q, t, n);
    }
  }

  /** The release leaves the waiters of the threads that keep other mutexes as they were. */
  lemma ReleasedInherits<T, M>(s: State<T, M>, s2: State<T, M>, p: T, m: M, v: int, q: T, x: M)
    requires Exact(s) && p in s.pri && q in s.pri && ReleaseChoice(s, p, m, v, q)
    requires Released(s, s2, p, m, v, q)
    requires x in s.owner && x != m && s.owner[x] != p && (Awaited(s, m) ==> s.owner[x] != q)
    ensures Inherits(s2, s.owner[x], {}, s2.pri[s.owner[x]])
  {
    hide Inherits, Holds;
    var o := s.owner[x];
    assert Inherits(s, o, {}, s.pri[o]);
    InheritsSame(s, s2, o, s.pri[o]);
  }

  lemma ReleasedInheritsReleaser<T, M>(s: State<T, M>, s2: State<T, M>, p: T, m: M, v: int, q: T)
    requires Closed(s) && p in s.pri && q in s.pri && ReleaseChoice(s, p, m, v, q)
    requires Released(s, s2, p, m, v, q)
    ensures Inherits(s2, p, {}, s2.pri[p])
  {
  }

  lemma ReleasedInheritsHeir<T, M>(s: State<T, M>, s2: State<T, M>, p: T, m: M, v: int, q: T)
    requires Exact(s) && p in s.pri && q in s.pri && ReleaseChoice(s, p, m, v, q)
    requires Released(s, s2, p, m, v, q) && Awaited(s, m)
    ensures Inherits(s2, q, {}, s2.pri[q])
  {
    if Holds(s, q) {
      var x :| x in s.owner && s.owner[x] == q;
      assert Inherits(s, s.owner[x], {}, s.pri[s.owner[x]]);
      HeirHolds(s, s2, p, m, v, q);
    } else {
      NoWaiters(s, q);
      HeirIsNew(s, s2, p, m, v, q);
    }
  }

  /** The heir held no mutex before: all that waits for it now waits for this one. */
  lemma HeirIsNew<T, M>(s: State<T, M>, s2: State<T, M>, p: T, m: M, v: int, q: T)
    requires Closed(s) && p in s.pri && q in s.pri && ReleaseChoice(s, p, m, v, q)
    requires Released(s, s2, p, m, v, q) && Awaited(s, m) && !Holds(s, q)
    requires forall w <- s.waitOn :: Next(s, w) != q
    ensures Inherits(s2, q, {}, s2.pri[q])
  {
  }

  /** The heir held a mutex before: what it inherited is still due, and the waiters it takes over are not above it. */
  lemma HeirHolds<T, M>(s: State<T, M>, s2: State<T, M>, p: T, m: M, v: int, q: T)
    requires Closed(s) && p in s.pri && q in s.pri && ReleaseChoice(s, p, m, v, q)
    requires Released(s, s2, p, m, v, q) && Awaited(s, m) && Holds(s, q) && Inherits(s, q, {}, s.pri[q])
    ensures Inherits(s2, q, {}, s2.pri[q])
  {
    if s.pri[q] != s.saved[q] {
      var w :| w in s.waitOn && Next(s, w) == q && s.pri[w] == s.pri[q];
      assert w in s2.waitOn && Next(s2, w) == q;
    }
  }

  /** Releasing a mutex keeps the inheritance invariant: the thread that releases goes back to exactly
      what it is still due, and the highest-priority waiter takes over without a boost of its own. */
  lemma ReleaseKeepsExact<T, M>(s: State<T, M>, p: T, m: M, v: int, q: T)
    requires WellFormed(s) && Exact(s) && p in s.pri && q in s.pri && ReleaseChoice(s, p, m, v, q)
    ensures Exact(Release(s, p, m, v, q))
  {
    ReleaseGraph(s, p, m, v, q);
    forall x <- Release(s, p, m, v, q).owner
      ensures var s2 := Release(s, p, m, v, q); Inherits(s2, s2.owner[x], {}, s2.pri[s2.owner[x]])
    {
      var s2 := Release(s, p, m, v, q);
      if s2.owner[x] == p {
        ReleasedInheritsReleaser(s, s2, p, m, v, q);
      } else if Awaited(s, m) && s2.owner[x] == q {
        ReleasedInheritsHeir(s, s2, p, m, v, q);
      } else {
        ReleasedInherits(s, s2, p, m, v, q, x);
      }
    }
  }

  lemma HoldsAfterRelease<T, M>(s: State<T, M>, p: T, m: M, v: int, q: T, t: T)
    requires WellFormed(s) && p in s.pri && q in s.pri && ReleaseChoice(s, p, m, v, q)
    ensures Holds(Release(s, p, m, v, q), t) <==>
              (t == q && Awaited(s, m)) || exists x <- s.owner :: x != m && s.owner[x] == t
  {
    ReleaseGraph(s, p, m, v, q);
    var s2 := Release(s, p, m, v, q);
    if x :| x in s.owner && x != m && s.owner[x] == t {
      assert s2.owner[x] == t;
    }
    if t == q && Awaited(s, m) {
      assert s2.owner[m] == q;
    }
    if Holds(s2, t) {
      var x :| x in s2.owner && s2.owner[x] == t;
      assert x == m || (x in s.owner && s.owner[x] == t);
    }
  }

  /** A release leaves every base priority as it was; a thread that releases its last mutex is back at it. */
  lemma ReleaseKeepsBase<T, M>(s: State<T, M>, p: T, m: M, v: int, q: T, t: T)
    requires WellFormed(s) && p in s.pri && q in s.pri && ReleaseChoice(s, p, m, v, q) && t in s.pri
    ensures Closed(Release(s, p, m, v, q)) && Base(Release(s, p, m, v, q), t) == Base(s, t)
  {
    ReleaseGraph(s, p, m, v, q);
    HoldsAfterRelease(s, p, m, v, q, t);
    var s2 := Release(s, p, m, v, q);
    if t == p {
      ReleasedInheritsReleaser(s, s2, p, m, v, q);
      if !Holds(s2, p) {
        NoWaiters(s2, p);
      }
    } else if Holds(s, t) {
      var x :| x in s.owner && s.owner[x] == t;
      assert x != m;
    }
  }

  // ---------------------------------------------------------------- setting a priority

  /** Setting a priority keeps the invariants and changes the base priority of the caller, and of nobody else. */
  lemma SetPriorityKeeps<T, M>(s: State<T, M>, p: T, pr: int, v: int)
    requires WellFormed(s) && SetChoice(s, p, pr, v)
    ensures WellFormed(SetPriority(s, p, pr, v)) && SetPriority(s, p, pr, v).pri.Keys == s.pri.Keys
    ensures Exact(s) ==> Exact(SetPriority(s, p, pr, v))
    ensures forall t <- s.pri :: Base(SetPriority(s, p, pr, v), t) == if t == p then pr else Base(s, t)
  {
    hide Acyclic, Reaches, Inherits;
    var s2 := SetPriority(s, p, pr, v);
    assert Closed(s2);
    SameWaits(s, s2);
    if Exact(s) {
      SetKeepsExact(s, p, pr, v);
    }
    forall t <- s.pri ensures Base(s2, t) == if t == p then pr else Base(s, t) {
      SetBase(s, p, pr, v, t);
    }
  }

  lemma SetBase<T, M>(s: State<T, M>, p: T, pr: int, v: int, t: T)
    requires Closed(s) && SetChoice(s, p, pr, v) && t in s.pri && Closed(SetPriority(s, p, pr, v))
    ensures Base(SetPriority(s, p, pr, v), t) == if t == p then pr else Base(s, t)
  {
  }

  lemma SetKeepsExact<T, M>(s: State<T, M>, p: T, pr: int, v: int)
    requires Exact(s) && SetChoice(s, p, pr, v) && Closed(SetPriority(s, p, pr, v))
    ensures Exact(SetPriority(s, p, pr, v))
  {
    hide Inherits, Holds;
    var s2 := SetPriority(s, p, pr, v);
    forall x <- s2.owner ensures Inherits(s2, s2.owner[x], {}, s2.pri[s2.owner[x]]) {
      var o := s.owner[x];
      OwnerHolds(s, x);
      if o != p {
        InheritsSame(s, s2, o, s.pri[o]);
      } else if s.saved[p] != pr {
        SetInherits(s, p, pr, v);
      }
    }
  }

  lemma OwnerHolds<T, M>(s: State<T, M>, m: M)
    requires m in s.owner
    ensures Holds(s, s.owner[m])
  {
  }

  lemma SetInherits<T, M>(s: State<T, M>, p: T, pr: int, v: int)
    requires Closed(s) && SetChoice(s, p, pr, v) && Holds(s, p) && s.saved[p] != pr
    ensures var s2 := SetPriority(s, p, pr, v); Inherits(s2, p, {}, v)
  {
    var s1 := s.(saved := s.saved[p := pr]);
    if v != pr {
      var w :| w in s1.waitOn && Next(s1, w) == p && s1.pri[w] == v;
      assert Next(SetPriority(s, p, pr, v), w) == p;
    }
  }

  // ---------------------------------------------------------------- base priorities and inversion

  /** Queueing, with or without a walk, leaves every base priority as it was: all it overwrites is
      the current priority of threads that hold a mutex. */
  lemma BlockKeepsBase<T, M>(s: State<T, M>, p: T, m: M, n: nat, t: T)
    requires WellFormed(s) && p in s.pri && m in s.owner && Reaches(s, s.owner[m], n) && t in s.pri
    requires p !in s.waitOn && !OnChain(s, s.owner[m], n, p)
    ensures Closed(Block(s, p, m, n)) && t in Block(s, p, m, n).pri
    ensures Base(Block(s, p, m, n), t) == Base(s, t)
  {
    BlockSets(s, p, m, n);
    assert Holds(Block(s, p, m, n), t) <==> Holds(s, t);
    if OnChain(s, s.owner[m], n, t) {
      OnChainHolds(s, m, n, t);
    }
  }

  lemma OnChainHolds<T, M>(s: State<T, M>, m: M, n: nat, t: T)
    requires Closed(s) && m in s.owner && Reaches(s, s.owner[m], n) && OnChain(s, s.owner[m], n, t)
    ensures Holds(s, t)
  {
    if t != s.owner[m] {
      var w := PredecessorOnChain(s, s.owner[m], n, t);
      assert s.owner[s.waitOn[w]] == t;
    }
  }

  /** No priority inversion: in an exact state whoever is at the end of a chain runs at least at the
      priority, and at least at the base priority, of every thread on it. */
  lemma NoInversion<T, M>(s: State<T, M>, t: T, n: nat, u: T)
    requires WellFormed(s) && Exact(s) && t in s.pri && Reaches(s, t, n) && OnChain(s, t, n, u)
    ensures u in s.pri && Root(s, t, n) in s.pri
    ensures Base(s, u) <= s.pri[u] <= s.pri[Root(s, t, n)]
  {
    hide Acyclic;
    ChainMonotone(s, t, n);
    var k := OnChainReaches(s, t, n, u);
    if Holds(s, u) {
      var x :| x in s.owner && s.owner[x] == u;
      assert Inherits(s, s.owner[x], {}, s.pri[s.owner[x]]);
    }
  }

  // ---------------------------------------------------------------- runs

  datatype Op<T(==), M(==)> =
    | Take(p: T, m: M)                          // lock or tryLock on a free mutex
    | Again(p: T, m: M)                         // lock or tryLock on a recursive mutex by its owner
    | Deepen(p: T, m: M, d: nat)                // lock to a depth, by the owner of a recursive mutex
    | Queue(p: T, m: M, n: nat)                 // lock on a mutex owned by another thread
    | Rise(p: T, m: M)                          // unlock on a recursive mutex locked more than once
    | Free(p: T, m: M, v: int, q: T)            // the last unlock, or unlock of all levels
    | SetTo(p: T, pr: int, v: int)              // setPriority

  ghost predicate Enabled<T, M>(s: State<T, M>, op: Op<T, M>)
    requires Closed(s)
  {
    match op
    case Take(p, m) => p in s.pri && p !in s.waitOn && m in s.depth && m !in s.owner
    case Again(p, m) => m in s.owner && s.owner[m] == p && s.depth[m] >= 0
    case Deepen(p, m, d) => m in s.owner && s.owner[m] == p && s.depth[m] >= 0
    case Queue(p, m, n) =>
      p in s.pri && p !in s.waitOn && m in s.owner && Reaches(s, s.owner[m], n) && !OnChain(s, s.owner[m], n, p)
    case Rise(p, m) => m in s.owner && s.owner[m] == p && s.depth[m] > 0
    case Free(p, m, v, q) => p in s.pri && q in s.pri && ReleaseChoice(s, p, m, v, q)
    case SetTo(p, pr, v) => SetChoice(s, p, pr, v)
  }

  ghost function Apply<T, M>(s: State<T, M>, op: Op<T, M>): State<T, M>
    requires Closed(s) && Enabled(s, op)
  {
    match op
    case Take(p, m) => Acquire(s, p, m)
    case Again(p, m) => s.(depth := s.depth[m := s.depth[m] + 1])
    case Deepen(p, m, d) => s.(depth := s.depth[m := d])
    case Queue(p, m, n) => Block(s, p, m, n)
    case Rise(p, m) => s.(depth := s.depth[m := s.depth[m] - 1])
    case Free(p, m, v, q) => Release(s, p, m, v, q)
    case SetTo(p, pr, v) => SetPriority(s, p, pr, v)
  }

  ghost predicate Lowers<T, M>(s: State<T, M>, op: Op<T, M>)
    requires Closed(s) && Enabled(s, op)
  {
    op.Queue? && !NobodyLowered(s, op.p, op.m, op.n)
  }

  /** The base priority a step leaves t with. */
  ghost function BaseAfter<T, M>(op: Op<T, M>, t: T, base: int): int {
    if op.SetTo? && op.p == t then op.pr else base
  }

  lemma StepKeeps<T, M>(s: State<T, M>, op: Op<T, M>)
    requires WellFormed(s) && Enabled(s, op)
    ensures WellFormed(Apply(s, op)) && Apply(s, op).pri.Keys == s.pri.Keys
    ensures Exact(s) ==> (Exact(Apply(s, op)) <==> !Lowers(s, op))
  {
    hide Acyclic, Reaches, OnChain, Inherits, Holds, Exact, Base;
    match op
    case Take(p, m) => AcquireKeeps(s, p, m);
    case Again(p, m) => SameWaits(s, Apply(s, op)); ExactIgnoresDepth(s, Apply(s, op));
    case Deepen(p, m, d) => SameWaits(s, Apply(s, op)); ExactIgnoresDepth(s, Apply(s, op));
    case Queue(p, m, n) =>
      BlockKeepsWellFormed(s, p, m, n);
      BlockSets(s, p, m, n);
      if Exact(s) { BlockExactIff(s, p, m, n); }
    case Rise(p, m) => SameWaits(s, Apply(s, op)); ExactIgnoresDepth(s, Apply(s, op));
    case Free(p, m, v, q) =>
      ReleaseKeepsWellFormed(s, p, m, v, q);
      ReleaseGraph(s, p, m, v, q);
      if Exact(s) { ReleaseKeepsExact(s, p, m, v, q); }
    case SetTo(p, pr, v) => SetPriorityKeeps(s, p, pr, v);
  }

  lemma DepthStep<T, M>(s: State<T, M>, op: Op<T, M>)
    requires WellFormed(s) && Enabled(s, op) && (op.Again? || op.Deepen? || op.Rise?)
    ensures Closed(s) && WellFormed(Apply(s, op)) && op.m in s.depth
    ensures Apply(s, op) ==
            s.(depth := s.depth[op.m := if op.Deepen? then op.d else if op.Again? then s.depth[op.m] + 1
                                else s.depth[op.m] - 1])
  {
    StepKeeps(s, op);
  }

  lemma ExactIgnoresDepth<T, M>(s: State<T, M>, s1: State<T, M>)
    requires Closed(s) && Closed(s1) && s1 == s.(depth := s1.depth)
    ensures Exact(s) <==> Exact(s1)
  {
  }

  lemma StepBase<T, M>(s: State<T, M>, op: Op<T, M>, t: T)
    requires WellFormed(s) && Enabled(s, op) && t in s.pri
    ensures Closed(Apply(s, op)) && t in Apply(s, op).pri && Base(Apply(s, op), t) == BaseAfter(op, t, Base(s, t))
  {
    StepKeeps(s, op);
    match op
    case Take(p, m) => AcquireKeeps(s, p, m);
    case Again(p, m) => assert Holds(Apply(s, op), t) <==> Holds(s, t);
    case Deepen(p, m, d) => assert Holds(Apply(s, op), t) <==> Holds(s, t);
    case Queue(p, m, n) => BlockKeepsBase(s, p, m, n, t);
    case Rise(p, m) => assert Holds(Apply(s, op), t) <==> Holds(s, t);
    case Free(p, m, v, q) => ReleaseKeepsBase(s, p, m, v, q, t);
    case SetTo(p, pr, v) => SetPriorityKeeps(s, p, pr, v);
  }

  ghost predicate IsRun<T, M>(states: seq<State<T, M>>, ops: seq<Op<T, M>>) {
    && |states| == |ops| + 1
    && WellFormed(states[0])
    && forall i :: 0 <= i < |ops| ==>
           Closed(states[i]) && Enabled(states[i], ops[i]) && states[i + 1] == Apply(states[i], ops[i])
  }

  ghost function BaseAfterAll<T, M>(ops: seq<Op<T, M>>, t: T, base: int): int {
    if ops == [] then base else BaseAfter(ops[|ops| - 1], t, BaseAfterAll(ops[..|ops| - 1], t, base))
  }

  /** Over every run of lock, unlock and setPriority steps: ownership and waiting stay consistent and
      acyclic, and the base priority of a thread is what it last set itself, whatever was lent to it. */
  lemma {:induction false} RunKeepsStructure<T, M>(states: seq<State<T, M>>, ops: seq<Op<T, M>>, t: T, i: nat)
    requires IsRun(states, ops) && t in states[0].pri && i < |states|
    ensures WellFormed(states[i]) && t in states[i].pri
    ensures Base(states[i], t) == BaseAfterAll(ops[..i], t, Base(states[0], t))
  {
    if i > 0 {
      RunKeepsStructure(states, ops, t, i - 1);
      assert states[i - 1 + 1] == Apply(states[i - 1], ops[i - 1]);
      StepKeeps(states[i - 1], ops[i - 1]);
      StepBase(states[i - 1], ops[i - 1], t);
      assert ops[..i][..i - 1] == ops[..i - 1];
    }
  }

  lemma {:induction false} RunExactUpTo<T, M>(states: seq<State<T, M>>, ops: seq<Op<T, M>>, i: nat)
    requires IsRun(states, ops) && Exact(states[0]) && i < |states|
    requires forall j :: 0 <= j < i ==> !Lowers(states[j], ops[j])
    ensures WellFormed(states[i]) && Exact(states[i])
  {
    if i > 0 {
      RunExactUpTo(states, ops, i - 1);
      assert states[i - 1 + 1] == Apply(states[i - 1], ops[i - 1]);
      StepKeeps(states[i - 1], ops[i - 1]);
    }
  }

  ghost predicate NeverLowers<T, M>(states: seq<State<T, M>>, ops: seq<Op<T, M>>)
    requires IsRun(states, ops)
  {
    forall j :: 0 <= j < |ops| ==> !Lowers(states[j], ops[j])
  }

  /** A run that starts exact stays exact throughout if and only if no queueing step lowers anybody. */
  lemma RunExactIff<T, M>(states: seq<State<T, M>>, ops: seq<Op<T, M>>)
    requires IsRun(states, ops) && Exact(states[0])
    ensures (forall i :: 0 <= i < |states| ==> Exact(states[i])) <==> NeverLowers(states, ops)
  {
    if NeverLowers(states, ops) {
      forall i | 0 <= i < |states| ensures Exact(states[i]) {
        RunExactUpTo(states, ops, i);
      }
    } else {
      var j := FirstLowering(states, ops);
      RunExactUpTo(states, ops, j);
      StepKeeps(states[j], ops[j]);
      assert !Exact(states[j + 1]);
    }
  }

  lemma FirstLowering<T, M>(states: seq<State<T, M>>, ops: seq<Op<T, M>>) returns (j: nat)
    requires IsRun(states, ops) && !NeverLowers(states, ops)
    ensures j < |ops| && Lowers(states[j], ops[j])
    ensures forall i :: 0 <= i < j ==> !Lowers(states[i], ops[i])
  {
    j := 0;
    while !Lowers(states[j], ops[j])
      invariant j < |ops|
      invariant forall i :: 0 <= i < j ==> !Lowers(states[i], ops[i])
      decreases |ops| - j
    {
      j := j + 1;
    }
  }

  // ---------------------------------------------------------------- what even a lowering walk keeps

  /** t does not run above both its saved priority and every thread it keeps waiting. */
  ghost predicate NotAbove<T, M>(s: State<T, M>, t: T)
    requires Closed(s) && t in s.pri
  {
    s.pri[t] <= s.saved[t] || exists w <- s.waitOn :: Next(s, w) == t && s.pri[w] >= s.pri[t]
  }

  /** No thread that holds a mutex keeps a priority nobody lends it any more. */
  ghost predicate NothingKept<T, M>(s: State<T, M>) {
    Closed(s) && forall m <- s.owner :: NotAbove(s, s.owner[m])
  }

  lemma NotAboveQueued<T, M>(s: State<T, M>, s2: State<T, M>, p: T, m: M, n: nat, o: T)
    requires Closed(s) && p in s.pri && m in s.owner && Reaches(s, s.owner[m], n) && p !in s.waitOn
    requires Queued(s, s2, p, m, n, s.pri[p] > s.pri[s.owner[m]]) && !OnChain(s, s.owner[m], n, p) && Closed(s2)
    requires o in s.pri && NotAbove(s, o)
    ensures NotAbove(s2, o)
  {
    if OnChain(s, s.owner[m], n, o) && s.pri[p] > s.pri[s.owner[m]] {
      var w := p;
      if o != s.owner[m] {
        w := PredecessorOnChain(s, s.owner[m], n, o);
      }
      assert w in s2.waitOn && Next(s2, w) == o;
    } else if w :| w in s.waitOn && Next(s, w) == o && s.pri[w] >= s.pri[o] {
      if OnChain(s, s.owner[m], n, w) {
        NextOnChain(s, s.owner[m], n, w);
      }
      assert w in s2.waitOn && Next(s2, w) == o;
    }
  }

  /** A thread that is not touched itself, and whose waiters are not. */
  lemma NotAboveSame<T, M>(s: State<T, M>, s1: State<T, M>, t: T)
    requires Closed(s) && Closed(s1) && t in s.pri && t in s1.pri && NotAbove(s, t)
    requires s1.pri[t] == s.pri[t] && s1.saved[t] == s.saved[t]
    requires forall w <- s.waitOn :: Next(s, w) == t ==> w in s1.waitOn && Next(s1, w) == t && s1.pri[w] == s.pri[w]
    ensures NotAbove(s1, t)
  {
    if w :| w in s.waitOn && Next(s, w) == t && s.pri[w] >= s.pri[t] {
      assert w in s1.waitOn && Next(s1, w) == t;
    }
  }

  lemma TakeKeepsNothing<T, M>(s: State<T, M>, p: T, m: M)
    requires NothingKept(s) && p in s.pri && m in s.depth && m !in s.owner && Closed(Acquire(s, p, m))
    ensures NothingKept(Acquire(s, p, m))
  {
    var s1 := Acquire(s, p, m);
    forall x <- s1.owner ensures NotAbove(s1, s1.owner[x]) {
      if Holds(s, s1.owner[x]) {
        var y :| y in s.owner && s.owner[y] == s1.owner[x];
        assert NotAbove(s, s.owner[y]);
        NotAboveSame(s, s1, s.owner[y]);
      }
    }
  }

  lemma FreeKeepsNothing<T, M>(s: State<T, M>, p: T, m: M, v: int, q: T)
    requires WellFormed(s) && NothingKept(s) && p in s.pri && q in s.pri && ReleaseChoice(s, p, m, v, q)
    ensures NothingKept(Release(s, p, m, v, q))
  {
    ReleaseGraph(s, p, m, v, q);
    var s2 := Release(s, p, m, v, q);
    forall x <- s2.owner ensures NotAbove(s2, s2.owner[x]) {
      var o := s2.owner[x];
      if o == p {
        ReleasedInheritsReleaser(s, s2, p, m, v, q);
      } else if Holds(s, o) {
        var y :| y in s.owner && s.owner[y] == o;
        assert NotAbove(s, s.owner[y]);
        NotAboveSame(s, s2, o);
      }
    }
  }

  lemma SetKeepsNothing<T, M>(s: State<T, M>, p: T, pr: int, v: int)
    requires NothingKept(s) && SetChoice(s, p, pr, v) && Closed(SetPriority(s, p, pr, v))
    ensures NothingKept(SetPriority(s, p, pr, v))
  {
    var s2 := SetPriority(s, p, pr, v);
    forall x <- s2.owner ensures NotAbove(s2, s2.owner[x]) {
      assert NotAbove(s, s.owner[x]);
      if s.owner[x] != p {
        NotAboveSame(s, s2, s.owner[x]);
      }
    }
  }

  lemma StepKeepsNothing<T, M>(s: State<T, M>, op: Op<T, M>)
    requires WellFormed(s) && NothingKept(s) && Enabled(s, op)
    ensures NothingKept(Apply(s, op))
  {
    StepKeeps(s, op);
    hide Acyclic, Reaches, OnChain, Inherits, Holds, Exact, NotAbove;
    var s1 := Apply(s, op);
    match op
    case Take(p, m) => TakeKeepsNothing(s, p, m);
    case Again(p, m) =>
      forall x <- s1.owner ensures NotAbove(s1, s1.owner[x]) {
        NotAboveSame(s, s1, s1.owner[x]);
      }
    case Deepen(p, m, d) =>
      forall x <- s1.owner ensures NotAbove(s1, s1.owner[x]) {
        NotAboveSame(s, s1, s1.owner[x]);
      }
    case Queue(p, m, n) =>
      BlockSets(s, p, m, n);
      forall x <- s1.owner ensures NotAbove(s1, s1.owner[x]) {
        NotAboveQueued(s, s1, p, m, n, s1.owner[x]);
      }
    case Rise(p, m) =>
      forall x <- s1.owner ensures NotAbove(s1, s1.owner[x]) {
        NotAboveSame(s, s1, s1.owner[x]);
      }
    case Free(p, m, v, q) => FreeKeepsNothing(s, p, m, v, q);
    case SetTo(p, pr, v) => SetKeepsNothing(s, p, pr, v);
  }

  /** Over every run, whether or not walks lower anybody: a holder never runs above both its saved priority and its
      waiters. */
  lemma {:induction false} RunKeepsNothing<T, M>(states: seq<State<T, M>>, ops: seq<Op<T, M>>, i: nat)
    requires IsRun(states, ops) && NothingKept(states[0]) && i < |states|
    ensures WellFormed(states[i]) && NothingKept(states[i])
  {
    if i > 0 {
      RunKeepsNothing(states, ops, i - 1);
      assert states[i - 1 + 1] == Apply(states[i - 1], ops[i - 1]);
      StepKeeps(states[i - 1], ops[i - 1]);
      StepKeepsNothing(states[i - 1], ops[i - 1]);
    }
  }

  // ---------------------------------------------------------------- how deep a mutex is locked

  /** How often the owner of m has locked it since it got it, less how often it has unlocked it, after one more
      operation: whoever gets the mutex has it locked once, and locking to a depth counts for that many locks. */
  ghost function LevelsAfter<T, M>(op: Op<T, M>, m: M, levels: int): int {
    match op
    case Take(_, x) => if x == m then 1 else levels
    case Again(_, x) => if x == m then levels + 1 else levels
    case Deepen(_, x, d) => if x == m then d + 1 else levels
    case Rise(_, x) => if x == m then levels - 1 else levels
    case Free(_, x, _, _) => if x == m then 1 else levels
    case _ => levels
  }

  ghost function Levels<T, M>(ops: seq<Op<T, M>>, m: M): int {
    if ops == [] then 1 else LevelsAfter(ops[|ops| - 1], m, Levels(ops[..|ops| - 1], m))
  }

  /** Whether a mutex is recursive does not change, nobody is given a mutex that is locked more than once, and each
      operation changes the depth of its own mutex by one level, or to the one asked for. */
  lemma StepDepth<T, M>(s: State<T, M>, op: Op<T, M>, m: M)
    requires WellFormed(s) && Enabled(s, op) && m in s.depth
    ensures s.depth[m] >= -1 && m in Apply(s, op).depth && (Apply(s, op).depth[m] == -1 <==> s.depth[m] == -1)
    ensures s.depth[m] >= 0 ==> Apply(s, op).depth[m] + 1 == LevelsAfter(op, m, s.depth[m] + 1)
  {
    hide Acyclic, Inherits, HighestWaiter, Holds;
    if op.Queue? {
      BlockSets(s, op.p, op.m, op.n);
    }
  }

  /** Over every run: whether a mutex is recursive does not change, and a recursive one is locked as often as the locks
      its owner has made since it got it exceed the unlocks. */
  lemma {:induction false} RunDepth<T, M>(states: seq<State<T, M>>, ops: seq<Op<T, M>>, m: M, i: nat)
    requires IsRun(states, ops) && m in states[0].depth && states[0].depth[m] <= 0 && i < |states|
    ensures WellFormed(states[i]) && m in states[i].depth
    ensures states[i].depth[m] == -1 <==> states[0].depth[m] == -1
    ensures states[0].depth[m] == 0 ==> states[i].depth[m] + 1 == Levels(ops[..i], m)
  {
    hide Apply, Enabled, WellFormed, LevelsAfter, Levels, Exact, Lowers, Closed;
    LevelsStep(ops, m, i);
    if i > 0 {
      RunDepth(states, ops, m, i - 1);
      assert states[i - 1 + 1] == Apply(states[i - 1], ops[i - 1]);
      StepKeeps(states[i - 1], ops[i - 1]);
      StepDepth(states[i - 1], ops[i - 1], m);
    }
  }

  lemma LevelsStep<T, M>(ops: seq<Op<T, M>>, m: M, i: nat)
    requires i <= |ops|
    ensures Levels(ops[..i], m) == if i == 0 then 1 else LevelsAfter(ops[i - 1], m, Levels(ops[..i - 1], m))
  {
    hide LevelsAfter;
    if i > 0 {
      assert ops[..i][..i - 1] == ops[..i - 1];
    }
  }

  /** So an unlock gives a recursive mutex up exactly when it balances the locks, and a mutex just taken or handed over
      takes one unlock. */
  lemma UnlockBalances<T, M>(states: seq<State<T, M>>, ops: seq<Op<T, M>>, m: M, i: nat)
    requires IsRun(states, ops) && m in states[0].depth && states[0].depth[m] == 0 && i < |states|
    requires m in states[i].owner
    ensures Closed(states[i]) && (Enabled(states[i], Rise(states[i].owner[m], m)) <==> Levels(ops[..i], m) > 1)
    ensures i > 0 && (ops[i - 1].Take? || ops[i - 1].Free?) && ops[i - 1].m == m ==> states[i].depth[m] == 0
  {
    RunDepth(states, ops, m, i);
    if i > 0 {
      assert ops[..i][..i - 1] == ops[..i - 1];
    }
  }

  /** Where runs begin: no mutex is locked. */
  ghost predicate Unlocked<T, M>(s: State<T, M>) {
    && s.saved.Keys == s.pri.Keys && s.waitOn == map[] && s.owner == map[]
    && forall m <- s.depth :: -1 <= s.depth[m] <= 0
  }

  lemma StartOk<T, M>(s: State<T, M>)
    requires Unlocked(s)
    ensures WellFormed(s) && Exact(s) && NothingKept(s)
    ensures forall t <- s.pri :: Base(s, t) == s.pri[t]
  {
    forall t <- s.pri ensures exists n: nat :: Reaches(s, t, n) {
      assert Reaches(s, t, 0);
    }
  }

  /** The walk can lower a thread: 1 (priority 5) queues on mutex 0, held by 2 (priority 1), which waits
      for mutex 1, held by 3, whose own priority is 10.  Afterwards 3 runs at 5. */
  lemma WalkLowersExample(s: State<int, int>)
    requires s.pri == map[1 := 5, 2 := 1, 3 := 10] == s.saved
    requires s.waitOn == map[2 := 1] && s.owner == map[0 := 2, 1 := 3] && s.depth == map[0 := -1, 1 := -1]
    ensures WellFormed(s) && Exact(s) && Enabled(s, Queue(1, 0, 1))
    ensures Apply(s, Queue(1, 0, 1)).pri == map[1 := 5, 2 := 5, 3 := 5]
  {
    assert Closed(s);
    assert Reaches(s, 1, 0) && Reaches(s, 3, 0) && Next(s, 2) == 3;
    assert Reaches(s, 2, 1);
    ExampleExact(s);
    BlockSets(s, 1, 0, 1);
    assert OnChain(s, 2, 1, 3);
  }

  lemma ExampleExact(s: State<int, int>)
    requires s.pri == map[1 := 5, 2 := 1, 3 := 10] == s.saved && Closed(s)
    requires s.waitOn == map[2 := 1] && s.owner == map[0 := 2, 1 := 3]
    ensures Exact(s)
  {
    assert Inherits(s, 2, {}, 1) && Inherits(s, 3, {}, 10);
  }
}
