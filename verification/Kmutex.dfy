/**
 Mutexes (kernel/proc/kmutex.c) on top of the scheduler's machine: whatever else
 the threads do, at most one of them is between locking and unlocking a mutex, and
 the waiting threads get it in the order in which they came.
 */
module Kmutex {
  import opened Options
  import opened Sched
  import opened SchedOps

  datatype Mutex = Mutex(waitq: nat, holder: Option<nat>)

  /**
   locking: threads that have called lock and not come back, with the mutex they
   want. inside: for each mutex, the threads that have come back from lock and not
   called unlock.
   */
  datatype World = World(sched: State, mutexes: map<nat, Mutex>, locking: map<nat, nat>, inside: map<nat, set<nat>>)

  ghost function Waiters(w: World, m: nat): seq<nat>
    requires m in w.mutexes && w.mutexes[m].waitq in w.sched.queues
  {
    w.sched.queues[w.mutexes[m].waitq].list
  }

  // The invariant

  ghost predicate WaitQueues(w: World)
  {
    && w.inside.Keys == w.mutexes.Keys
    && (forall m :: m in w.mutexes ==> w.mutexes[m].waitq in w.sched.queues && w.mutexes[m].waitq != RUNQ)
    && (forall m, m' :: m in w.mutexes && m' in w.mutexes && w.mutexes[m].waitq == w.mutexes[m'].waitq ==> m == m')
  }

  /** Those who wait for m want m, and their sleep cannot be cancelled. */
  ghost predicate Waiting(w: World, m: nat)
    requires WaitQueues(w) && m in w.mutexes
  {
    forall t :: t in Waiters(w, m) ==>
      t in w.locking && w.locking[t] == m && t in w.sched.threads && w.sched.threads[t].state == Sleep
  }

  /** Only the holder is inside; without a holder nobody waits. */
  ghost predicate Held(w: World, m: nat)
    requires WaitQueues(w) && m in w.mutexes
  {
    match w.mutexes[m].holder
    case None => Waiters(w, m) == [] && w.inside[m] == {}
    case Some(t) => w.inside[m] <= {t}
  }

  /** A thread in lock waits, or has been given the mutex and is about to come back. */
  ghost predicate Locking(w: World, t: nat)
    requires WaitQueues(w) && t in w.locking
  {
    && w.locking[t] in w.mutexes && t !in w.inside[w.locking[t]] && !Executing(w.sched, t)
    && (t in Waiters(w, w.locking[t]) || w.mutexes[w.locking[t]].holder == Some(t))
  }

  ghost predicate WorldInv(w: World)
  {
    && Inv(w.sched) && WaitQueues(w)
    && (forall m :: m in w.mutexes ==> Waiting(w, m))
    && (forall m :: m in w.mutexes ==> Held(w, m))
    && (forall t :: t in w.locking ==> Locking(w, t))
  }

  // Steps

  datatype MutexStep = Init(m: nat, q: nat) | Lock(m: nat) | Unlock(m: nat) | Other(step: Step)

  ghost predicate IsWaitq(w: World, q: nat) { exists m :: m in w.mutexes && w.mutexes[m].waitq == q }

  /** A mutex's queue is used by lock and unlock alone; lock and unlock assert who calls them. */
  ghost predicate CanStep(w: World, step: MutexStep)
    requires WorldInv(w)
  {
    match step
    case Init(m, q) => m !in w.mutexes && q !in w.sched.queues
    case Lock(m) => m in w.mutexes && w.sched.active && w.mutexes[m].holder != Some(w.sched.cur)
    case Unlock(m) => m in w.mutexes && w.sched.active && w.mutexes[m].holder == Some(w.sched.cur)
    case Other(s) =>
      && Enabled(w.sched, s)
      && (s.Block? || s.Wakeup? || s.Broadcast? ==> !IsWaitq(w, s.q))
  }

  /** A thread that is chosen comes back from lock if it was there. */
  function Returned(w: World, sched: State): World
  {
    var t := sched.cur;
    if t in w.locking && w.locking[t] in w.inside then
      w.(sched := sched, locking := w.locking - {t}, inside := w.inside[w.locking[t] := w.inside[w.locking[t]] + {t}])
    else w.(sched := sched)
  }

  ghost function NextWorld(w: World, step: MutexStep): World
    requires WorldInv(w) && CanStep(w, step)
  {
    match step
    case Init(m, q) =>
      w.(sched := Next(w.sched, NewQueue(q)), mutexes := w.mutexes[m := Mutex(q, None)], inside := w.inside[m := {}])
    case Lock(m) =>
      if w.mutexes[m].holder.Some? then
        w.(sched := Next(w.sched, Block(w.mutexes[m].waitq, false)), locking := w.locking[w.sched.cur := m])
      else
        w.(mutexes := w.mutexes[m := w.mutexes[m].(holder := Some(w.sched.cur))],
           inside := w.inside[m := w.inside[m] + {w.sched.cur}])
    case Unlock(m) =>
      var list := Waiters(w, m);
      var w' := w.(inside := w.inside[m := w.inside[m] - {w.sched.cur}]);
      if list != [] then
        w'.(sched := Next(w.sched, Wakeup(w.mutexes[m].waitq)),
            mutexes := w.mutexes[m := w.mutexes[m].(holder := Some(Last(list)))])
      else w'.(mutexes := w.mutexes[m := w.mutexes[m].(holder := None)])
    case Other(s) =>
      if s.Dispatch? then Returned(w, Next(w.sched, s)) else w.(sched := Next(w.sched, s))
  }

  // What the scheduler does to a queue it is not asked about

  /** The queue q is not touched by this step. */
  ghost predicate Spared(s: State, step: Step, q: nat)
  {
    && q in s.queues && q != RUNQ
    && (step.Block? || step.Wakeup? || step.Broadcast? ==> step.q != q)
    && forall t :: t in s.queues[q].list ==> t in s.threads && s.threads[t].state == Sleep
  }

  lemma SparedQueue(s: State, step: Step, q: nat)
    requires Inv(s) && Enabled(s, step) && Spared(s, step, q)
    ensures q in Next(s, step).queues && Next(s, step).queues[q].list == s.queues[q].list
    ensures forall t :: t in s.queues[q].list ==> t in Next(s, step).threads && Next(s, step).threads[t].state == Sleep
  {
    hide Queues;
    QueueIds(s);
    forall t | t in s.queues[q].list ensures t in Next(s, step).threads && Next(s, step).threads[t].state == Sleep {
      SparedThread(s, step, q, t);
    }
    if step.Broadcast? { BroadcastSpares(s, step.q, q); }
    if step.Cancel? { assert Placed(s, step.t); CancelSpares(s, step.t, q); }
  }

  lemma SparedThread(s: State, step: Step, q: nat, t: nat)
    requires Inv(s) && Enabled(s, step) && Spared(s, step, q) && t in s.queues[q].list
    ensures t in Next(s, step).threads && Next(s, step).threads[t].state == Sleep
  {
    hide Queues, AllAwake;
    OnQueue(s, q, t);
    QueueIds(s);
    assert Placed(s, t);
    if step.Broadcast? {
      AllAwakeInOrder(s, step.q);
      OnQueueOnly(s, step.q, q, t);
    } else if step.Wakeup? && s.queues[step.q].list != [] {
      DequeueQueues(s, step.q);
    } else if step.Dispatch? {
      DequeueQueues(s, RUNQ);
    }
  }

  lemma OnQueue(s: State, q: nat, t: nat)
    requires Queues(s) && q in s.queues && t in s.queues[q].list
    ensures t in s.threads && s.threads[t].wchan == Some(q)
  {
  }

  lemma OnQueueOnly(s: State, p: nat, q: nat, t: nat)
    requires Queues(s) && p in s.queues && q in s.queues && p != q && t in s.queues[q].list
    ensures t !in s.queues[p].list
  {
    assert s.threads[t].wchan == Some(q);
  }

  lemma CancelSpares(s: State, t: nat, q: nat)
    requires Inv(s) && t in s.threads && q in s.queues && q != RUNQ
    requires forall u :: u in s.queues[q].list ==> u in s.threads && s.threads[u].state == Sleep
    ensures q in Next(s, Cancel(t)).queues && Next(s, Cancel(t)).queues[q].list == s.queues[q].list
  {
    assert Placed(s, t);
  }

  lemma {:induction false} BroadcastSpares(s: State, p: nat, q: nat)
    requires Inv(s) && p in s.queues && p != RUNQ && q in s.queues && q != RUNQ && q != p
    ensures q in AllAwake(s, p).queues && AllAwake(s, p).queues[q].list == s.queues[q].list
    decreases |s.queues[p].list|
  {
    hide Inv;
    HasRunQueue(s);
    if s.queues[p].list != [] {
      AwakeEffect(s, p);
      BroadcastSpares(Awake(s, p), p, q);
    }
  }

  lemma NobodyStarts(s: State, step: Step, t: nat)
    requires Inv(s) && Enabled(s, step) && !step.Dispatch? && !Executing(s, t)
    ensures !Executing(Next(s, step), t)
  {
    hide Queues, AllAwake;
    if step.Broadcast? { AllAwakeInOrder(s, step.q); }
    QueueIds(s);
  }

  // Each step keeps the invariant

  /** A scheduler step spares the mutexes' queues. */
  lemma AllSpared(w: World, step: Step, m: nat)
    requires WorldInv(w) && Enabled(w.sched, step) && m in w.mutexes
    requires step.Block? || step.Wakeup? || step.Broadcast? ==> step.q != w.mutexes[m].waitq
    ensures var q, s' := w.mutexes[m].waitq, Next(w.sched, step);
            && q in s'.queues && s'.queues[q].list == Waiters(w, m)
            && forall t :: t in Waiters(w, m) ==> t in s'.threads && s'.threads[t].state == Sleep
  {
    hide Inv;
    assert Waiting(w, m);
    SparedQueue(w.sched, step, w.mutexes[m].waitq);
  }

  lemma OtherInv(w: World, step: Step)
    requires WorldInv(w) && CanStep(w, Other(step)) && !step.Dispatch?
    ensures WorldInv(NextWorld(w, Other(step)))
  {
    hide Inv, Next;
    var w' := NextWorld(w, Other(step));
    StepInv(w.sched, step);
    forall m | m in w.mutexes
      ensures w.mutexes[m].waitq in w'.sched.queues && w'.sched.queues[w.mutexes[m].waitq].list == Waiters(w, m)
      ensures forall t :: t in Waiters(w, m) ==> t in w'.sched.threads && w'.sched.threads[t].state == Sleep
    {
      AllSpared(w, step, m);
    }
    forall m | m in w'.mutexes ensures Waiting(w', m) && Held(w', m) { assert Waiting(w, m) && Held(w, m); }
    forall t | t in w'.locking ensures Locking(w', t) {
      assert Locking(w, t);
      NobodyStarts(w.sched, step, t);
    }
  }

  /** Coming back from lock: it is the holder who does. */
  lemma DispatchReturns(w: World)
    requires WorldInv(w) && Enabled(w.sched, Dispatch)
    ensures var t := Next(w.sched, Dispatch).cur;
            && (t in w.locking ==> w.locking[t] in w.mutexes && w.mutexes[w.locking[t]].holder == Some(t))
            && Executing(Next(w.sched, Dispatch), t)
  {
    DequeueQueues(w.sched, RUNQ);
    var t := Next(w.sched, Dispatch).cur;
    if t in w.locking {
      assert Locking(w, t);
      assert t !in Waiters(w, w.locking[t]);
    }
  }

  lemma DispatchWorld(w: World)
    requires WorldInv(w) && CanStep(w, Other(Dispatch))
    ensures WorldInv(NextWorld(w, Other(Dispatch)))
  {
    hide Inv, Next, Waiting, Held, Locking;
    var w' := NextWorld(w, Other(Dispatch));
    StepInv(w.sched, Dispatch);
    DispatchReturns(w);
    forall m | m in w.mutexes
      ensures w.mutexes[m].waitq in w'.sched.queues && w'.sched.queues[w.mutexes[m].waitq].list == Waiters(w, m)
    {
      AllSpared(w, Dispatch, m);
    }
    forall m | m in w'.mutexes ensures Waiting(w', m) && Held(w', m) { DispatchMutex(w, m); }
    forall u | u in w'.locking ensures Locking(w', u) { DispatchLocking(w, u); }
  }

  lemma DispatchMutex(w: World, m: nat)
    requires WorldInv(w) && CanStep(w, Other(Dispatch)) && m in w.mutexes && WaitQueues(NextWorld(w, Other(Dispatch)))
    ensures Waiting(NextWorld(w, Other(Dispatch)), m) && Held(NextWorld(w, Other(Dispatch)), m)
  {
    hide Inv, Next, Locking;
    assert Waiting(w, m) && Held(w, m);
    DispatchReturns(w);
    AllSpared(w, Dispatch, m);
    ChosenNotWaiting(w, m);
  }

  lemma DispatchLocking(w: World, u: nat)
    requires WorldInv(w) && CanStep(w, Other(Dispatch)) && u in NextWorld(w, Other(Dispatch)).locking
    requires WaitQueues(NextWorld(w, Other(Dispatch)))
    ensures Locking(NextWorld(w, Other(Dispatch)), u)
  {
    hide Inv, Next, Waiting, Held;
    assert Locking(w, u);
    DispatchReturns(w);
    AllSpared(w, Dispatch, w.locking[u]);
  }

  lemma ChosenNotWaiting(w: World, m: nat)
    requires WorldInv(w) && m in w.mutexes && Enabled(w.sched, Dispatch)
    ensures Next(w.sched, Dispatch).cur !in Waiters(w, m)
  {
    DequeueQueues(w.sched, RUNQ);
  }

  lemma InitWorld(w: World, m: nat, q: nat)
    requires WorldInv(w) && CanStep(w, Init(m, q))
    ensures WorldInv(NextWorld(w, Init(m, q)))
  {
    hide Inv, Next;
    var w' := NextWorld(w, Init(m, q));
    StepInv(w.sched, NewQueue(q));
    NewQueueEmpty(w.sched, q);
    forall p | p in w.mutexes
      ensures w.mutexes[p].waitq in w'.sched.queues && w'.sched.queues[w.mutexes[p].waitq].list == Waiters(w, p)
      ensures forall t :: t in Waiters(w, p) ==> t in w'.sched.threads && w'.sched.threads[t].state == Sleep
    {
      AllSpared(w, NewQueue(q), p);
    }
    forall p | p in w'.mutexes ensures Waiting(w', p) && Held(w', p) {
      if p != m { assert Waiting(w, p) && Held(w, p); }
    }
    forall t | t in w'.locking ensures Locking(w', t) {
      assert Locking(w, t);
      NobodyStarts(w.sched, NewQueue(q), t);
    }
  }

  lemma NewQueueEmpty(s: State, q: nat)
    requires Inv(s) && q !in s.queues
    ensures var s' := Next(s, NewQueue(q)); q in s'.queues && s'.queues[q].list == [] && q != RUNQ
  {
  }

  /** Lock, when the mutex is free. */
  lemma TakeWorld(w: World, m: nat)
    requires WorldInv(w) && CanStep(w, Lock(m)) && w.mutexes[m].holder == None
    ensures WorldInv(NextWorld(w, Lock(m))) && w.sched.cur in NextWorld(w, Lock(m)).inside[m]
  {
    hide Inv, Waiting, Held, Locking;
    var w' := NextWorld(w, Lock(m));
    forall p | p in w'.mutexes ensures Waiting(w', p) && Held(w', p) { TakeMutex(w, m, p); }
    forall t | t in w'.locking ensures Locking(w', t) { TakeLocking(w, m, t); }
  }

  lemma TakeMutex(w: World, m: nat, p: nat)
    requires WorldInv(w) && CanStep(w, Lock(m)) && w.mutexes[m].holder == None && p in w.mutexes
    ensures WaitQueues(NextWorld(w, Lock(m))) && Waiting(NextWorld(w, Lock(m)), p) && Held(NextWorld(w, Lock(m)), p)
  {
    hide Inv, Locking;
    assert Held(w, m);
    assert Waiting(w, p) && Held(w, p);
  }

  lemma TakeLocking(w: World, m: nat, t: nat)
    requires WorldInv(w) && CanStep(w, Lock(m)) && w.mutexes[m].holder == None && t in w.locking
    ensures WaitQueues(NextWorld(w, Lock(m))) && Locking(NextWorld(w, Lock(m)), t)
  {
    hide Inv, Waiting;
    assert Held(w, m);
    assert Locking(w, t);
  }

  lemma BlockEffect(s: State, q: nat)
    requires Inv(s) && Enabled(s, Block(q, false))
    ensures var s' := Next(s, Block(q, false));
            && q in s'.queues && s'.queues[q].list == [s.cur] + s.queues[q].list && !s'.active && s.cur in s'.threads
            && s'.threads[s.cur].state == Sleep
            && (forall t :: t in s.threads && t != s.cur ==> t in s'.threads && s'.threads[t] == s.threads[t])
  {
  }

  /** Lock, when it is not. */
  lemma WaitWorld(w: World, m: nat)
    requires WorldInv(w) && CanStep(w, Lock(m)) && w.mutexes[m].holder.Some?
    ensures WorldInv(NextWorld(w, Lock(m)))
    ensures Waiters(NextWorld(w, Lock(m)), m) == [w.sched.cur] + Waiters(w, m)
  {
    hide Inv, Next, Waiting, Held, Locking;
    var q, w' := w.mutexes[m].waitq, NextWorld(w, Lock(m));
    StepInv(w.sched, Block(q, false));
    BlockEffect(w.sched, q);
    forall p | p in w.mutexes && p != m ensures w.mutexes[p].waitq in w'.sched.queues {
      AllSpared(w, Block(q, false), p);
    }
    forall p | p in w'.mutexes ensures Waiting(w', p) && Held(w', p) { WaitMutex(w, m, p); }
    forall t | t in w'.locking ensures Locking(w', t) { WaitLocking(w, m, t); }
  }

  lemma ExecutingNotLocking(w: World)
    requires WorldInv(w) && w.sched.active
    ensures w.sched.cur !in w.locking
  {
    hide Inv, Waiting, Held;
    forall t | t in w.locking ensures t != w.sched.cur { assert Locking(w, t); }
  }

  lemma WaitMutex(w: World, m: nat, p: nat)
    requires WorldInv(w) && CanStep(w, Lock(m)) && w.mutexes[m].holder.Some? && p in w.mutexes
    requires WaitQueues(NextWorld(w, Lock(m)))
    ensures Waiting(NextWorld(w, Lock(m)), p) && Held(NextWorld(w, Lock(m)), p)
  {
    hide Inv, Next, Locking;
    var step := Block(w.mutexes[m].waitq, false);
    assert Waiting(w, p) && Held(w, p);
    ExecutingNotLocking(w);
    BlockEffect(w.sched, w.mutexes[m].waitq);
    if p != m { AllSpared(w, step, p); }
  }

  lemma WaitLocking(w: World, m: nat, t: nat)
    requires WorldInv(w) && CanStep(w, Lock(m)) && w.mutexes[m].holder.Some? && WaitQueues(NextWorld(w, Lock(m)))
    requires t in NextWorld(w, Lock(m)).locking
    ensures Locking(NextWorld(w, Lock(m)), t)
  {
    hide Inv, Next, Waiting;
    assert Held(w, m);
    BlockEffect(w.sched, w.mutexes[m].waitq);
    if t != w.sched.cur {
      assert Locking(w, t);
      if w.locking[t] != m { AllSpared(w, Block(w.mutexes[m].waitq, false), w.locking[t]); }
    }
  }

  lemma WakeEffect(s: State, q: nat)
    requires Inv(s) && q in s.queues && q != RUNQ && s.queues[q].list != []
    ensures var s', list := Next(s, Wakeup(q)), s.queues[q].list;
            && q in s'.queues && s'.queues[q].list == list[..|list| - 1] && Last(list) !in list[..|list| - 1]
            && list == list[..|list| - 1] + [Last(list)] && s'.cur == s.cur && s'.active == s.active
            && Last(list) in s.threads && s'.threads == s.threads[Last(list) := s'.threads[Last(list)]]
  {
    AwakeEffect(s, q);
  }

  /** Unlock hands the mutex to the thread that has waited longest. */
  lemma UnlockWorld(w: World, m: nat)
    requires WorldInv(w) && CanStep(w, Unlock(m))
    ensures WorldInv(NextWorld(w, Unlock(m))) && NextWorld(w, Unlock(m)).mutexes[m].holder != Some(w.sched.cur)
    ensures Waiters(w, m) == [] ==> Waiters(NextWorld(w, Unlock(m)), m) == []
    ensures Waiters(w, m) != [] ==> Waiters(NextWorld(w, Unlock(m)), m) == Waiters(w, m)[..|Waiters(w, m)| - 1]
  {
    hide Inv, Next, Waiting, Held, Locking;
    var q, w' := w.mutexes[m].waitq, NextWorld(w, Unlock(m));
    if Waiters(w, m) != [] {
      WakeEffect(w.sched, q);
      StepInv(w.sched, Wakeup(q));
      NewHolder(w, m);
      forall p | p in w.mutexes && p != m ensures w.mutexes[p].waitq in w'.sched.queues { AllSpared(w, Wakeup(q), p); }
    }
    forall p | p in w'.mutexes ensures Waiting(w', p) && Held(w', p) { UnlockMutex(w, m, p); }
    forall t | t in w'.locking ensures Locking(w', t) { UnlockLocking(w, m, t); }
  }

  lemma NewHolder(w: World, m: nat)
    requires WorldInv(w) && CanStep(w, Unlock(m)) && Waiters(w, m) != []
    ensures var t := Last(Waiters(w, m));
            t in w.locking && w.locking[t] == m && !Executing(w.sched, t) && t != w.sched.cur
  {
    hide Inv, Held;
    assert Waiting(w, m);
    var t := Last(Waiters(w, m));
    assert t in Waiters(w, m);
    assert Locking(w, t);
  }

  lemma UnlockMutex(w: World, m: nat, p: nat)
    requires WorldInv(w) && CanStep(w, Unlock(m)) && p in w.mutexes && WaitQueues(NextWorld(w, Unlock(m)))
    ensures Waiting(NextWorld(w, Unlock(m)), p) && Held(NextWorld(w, Unlock(m)), p)
  {
    hide Inv, Next, Locking, Waiting, Held;
    if p == m { UnlockSelf(w, m); } else { UnlockOther(w, m, p); }
  }

  lemma UnlockSelf(w: World, m: nat)
    requires WorldInv(w) && CanStep(w, Unlock(m)) && WaitQueues(NextWorld(w, Unlock(m)))
    ensures Waiting(NextWorld(w, Unlock(m)), m) && Held(NextWorld(w, Unlock(m)), m)
  {
    hide Inv, Next, Locking;
    assert Waiting(w, m) && Held(w, m);
    if Waiters(w, m) != [] { WakeEffect(w.sched, w.mutexes[m].waitq); }
  }

  lemma UnlockOther(w: World, m: nat, p: nat)
    requires WorldInv(w) && CanStep(w, Unlock(m)) && p in w.mutexes && p != m && WaitQueues(NextWorld(w, Unlock(m)))
    ensures Waiting(NextWorld(w, Unlock(m)), p) && Held(NextWorld(w, Unlock(m)), p)
  {
    hide Inv, Next, Locking;
    assert Waiting(w, p) && Held(w, p);
    if Waiters(w, m) != [] { AllSpared(w, Wakeup(w.mutexes[m].waitq), p); }
  }

  lemma UnlockLocking(w: World, m: nat, t: nat)
    requires WorldInv(w) && CanStep(w, Unlock(m)) && t in w.locking && WaitQueues(NextWorld(w, Unlock(m)))
    ensures Locking(NextWorld(w, Unlock(m)), t)
  {
    hide Inv, Next, Waiting, Held;
    assert Locking(w, t);
    if Waiters(w, m) != [] {
      WakeEffect(w.sched, w.mutexes[m].waitq);
      if w.locking[t] != m { AllSpared(w, Wakeup(w.mutexes[m].waitq), w.locking[t]); }
    }
  }

  lemma WorldStep(w: World, step: MutexStep)
    requires WorldInv(w) && CanStep(w, step)
    ensures WorldInv(NextWorld(w, step))
  {
    hide WorldInv, NextWorld, CanStep;
    match step {
      case Init(m, q) => InitWorld(w, m, q);
      case Lock(m) => LockWorld(w, m);
      case Unlock(m) => UnlockWorld(w, m);
      case Other(s) => if s.Dispatch? { DispatchWorld(w); } else { OtherInv(w, s); }
    }
  }

  lemma LockWorld(w: World, m: nat)
    requires WorldInv(w) && CanStep(w, Lock(m))
    ensures WorldInv(NextWorld(w, Lock(m)))
  {
    if w.mutexes[m].holder.Some? { WaitWorld(w, m); } else { TakeWorld(w, m); }
  }

  // Runs

  ghost predicate IsWorldRun(w: World, steps: seq<MutexStep>)
    requires WorldInv(w)
    decreases |steps|
  {
    steps == [] || (CanStep(w, steps[0]) && (WorldStep(w, steps[0]); IsWorldRun(NextWorld(w, steps[0]), steps[1..])))
  }

  ghost function WorldAfter(w: World, steps: seq<MutexStep>): World
    requires WorldInv(w) && IsWorldRun(w, steps)
    decreases |steps|
  {
    if steps == [] then w else (WorldStep(w, steps[0]); WorldAfter(NextWorld(w, steps[0]), steps[1..]))
  }

  lemma {:induction false} EveryWorldRun(w: World, steps: seq<MutexStep>)
    requires WorldInv(w) && IsWorldRun(w, steps)
    ensures WorldInv(WorldAfter(w, steps)) && w.mutexes.Keys <= WorldAfter(w, steps).mutexes.Keys
    decreases |steps|
  {
    hide WorldInv, NextWorld, CanStep;
    if steps != [] {
      WorldStep(w, steps[0]);
      MutexesStay(w, steps[0]);
      EveryWorldRun(NextWorld(w, steps[0]), steps[1..]);
    }
  }

  lemma MutexesStay(w: World, step: MutexStep)
    requires WorldInv(w) && CanStep(w, step)
    ensures w.mutexes.Keys <= NextWorld(w, step).mutexes.Keys
  {
    hide Inv, Next, Waiting, Held, Locking;
  }

  /**
   After every run, at most one thread is past lock and not past unlock, it is the recorded holder, and a free mutex
   has no waiters.
   */
  lemma MutualExclusion(w: World, steps: seq<MutexStep>, m: nat, t: nat, u: nat)
    requires WorldInv(w) && IsWorldRun(w, steps) && m in w.mutexes
    ensures var w' := WorldAfter(w, steps);
            && WorldInv(w') && m in w'.mutexes
            && (t in w'.inside[m] && u in w'.inside[m] ==> t == u)
            && (t in w'.inside[m] ==> w'.mutexes[m].holder == Some(t))
            && (w'.mutexes[m].holder == None ==> Waiters(w', m) == [])
  {
    hide Inv, Next, Locking, Waiting, CanStep, NextWorld;
    EveryWorldRun(w, steps);
    assert Held(WorldAfter(w, steps), m);
  }

  ghost function Unlocks(steps: seq<MutexStep>, m: nat): nat
  {
    if steps == [] then 0 else (if steps[0] == Unlock(m) then 1 else 0) + Unlocks(steps[1..], m)
  }

  /** t waits for m, and k - 1 threads have waited longer. */
  ghost predicate WaitsAt(w: World, m: nat, t: nat, k: nat)
    requires WorldInv(w)
  {
    m in w.mutexes && 1 <= k <= |Waiters(w, m)| && Waiters(w, m)[|Waiters(w, m)| - k] == t
  }

  /** No step lets anybody overtake; only unlocking moves the line. */
  lemma InLine(w: World, step: MutexStep, m: nat, t: nat, k: nat)
    requires WorldInv(w) && CanStep(w, step) && WaitsAt(w, m, t, k)
    ensures WorldInv(NextWorld(w, step))
    ensures step != Unlock(m) ==> WaitsAt(NextWorld(w, step), m, t, k)
    ensures step == Unlock(m) && k > 1 ==> WaitsAt(NextWorld(w, step), m, t, k - 1)
    ensures step == Unlock(m) && k == 1 ==> NextWorld(w, step).mutexes[m].holder == Some(t)
  {
    hide Inv, Next, Waiting, Held, Locking;
    WorldStep(w, step);
    match step {
      case Init(p, q) => AllSpared(w, NewQueue(q), m);
      case Lock(p) =>
        if w.mutexes[p].holder.Some? {
          if p == m { WaitWorld(w, m); } else { AllSpared(w, Block(w.mutexes[p].waitq, false), m); }
        }
      case Unlock(p) =>
        if p == m { UnlockWorld(w, m); }
        else if Waiters(w, p) != [] { AllSpared(w, Wakeup(w.mutexes[p].waitq), m); }
      case Other(s) => AllSpared(w, s, m);
    }
  }

  /** The k-th in line gets the mutex with the k-th unlock from now, and is still in line before that. */
  lemma {:induction false} KthWaiter(w: World, steps: seq<MutexStep>, m: nat, t: nat, k: nat)
    requires WorldInv(w) && IsWorldRun(w, steps) && WaitsAt(w, m, t, k)
    ensures WorldInv(WorldAfter(w, steps)) && m in WorldAfter(w, steps).mutexes
    ensures Unlocks(steps, m) < k ==> WaitsAt(WorldAfter(w, steps), m, t, k - Unlocks(steps, m))
    ensures Unlocks(steps, m) == k && steps[|steps| - 1] == Unlock(m) ==>
             WorldAfter(w, steps).mutexes[m].holder == Some(t)
    decreases |steps|
  {
    hide WorldInv, NextWorld, CanStep, WaitsAt;
    InSomeLine(w, m, t, k);
    if steps != [] {
      var w', rest := NextWorld(w, steps[0]), steps[1..];
      InLine(w, steps[0], m, t, k);
      if steps[0] == Unlock(m) && k == 1 {
        MutexesStay(w, steps[0]);
        EveryWorldRun(w', rest);
        if rest != [] && rest[|rest| - 1] == Unlock(m) { UnlocksLast(rest, m); }
      } else {
        KthWaiter(w', rest, m, t, if steps[0] == Unlock(m) then k - 1 else k);
      }
    }
  }

  lemma InSomeLine(w: World, m: nat, t: nat, k: nat)
    requires WorldInv(w) && WaitsAt(w, m, t, k)
    ensures m in w.mutexes && k >= 1
  {
  }

  lemma {:induction false} UnlocksLast(steps: seq<MutexStep>, m: nat)
    requires steps != [] && steps[|steps| - 1] == Unlock(m)
    ensures Unlocks(steps, m) > 0
  {
    if |steps| > 1 { UnlocksLast(steps[1..], m); }
  }
}
