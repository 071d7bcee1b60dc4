/**
 The scheduler (kernel/proc/sched.c) as a machine that moves in steps: what the
 current thread does, what interrupts do, and the switch to the next runnable
 thread. Threads and queues are named by numbers; queue RUNQ is the run queue.
 */
module Sched {
  import opened Lists
  import opened Options

  const RUNQ: nat := 0

  datatype ThreadState = NoState | Run | Sleep | SleepCancellable | Exited

  datatype Thread = Thread(state: ThreadState, wchan: Option<nat>, cancelled: bool)

  /** Threads enter at the front and leave at the back. */
  datatype Queue = Queue(list: seq<nat>, size: int)

  /**
   active: the current thread is executing; otherwise it has given up the processor
   and the next thread is still to be chosen. unstarted: threads that have been
   created and never made runnable.
   */
  datatype State =
    State(threads: map<nat, Thread>, queues: map<nat, Queue>, cur: nat, active: bool, unstarted: set<nat>)

  // What the operations do

  function Marked(s: State, t: nat, state: ThreadState): State
    requires t in s.threads
  {
    s.(threads := s.threads[t := s.threads[t].(state := state)])
  }

  /** ktqueue_enqueue. */
  function Enqueued(s: State, q: nat, t: nat): State
    requires q in s.queues && t in s.threads
  {
    s.(queues := s.queues[q := Queue([t] + s.queues[q].list, s.queues[q].size + 1)],
       threads := s.threads[t := s.threads[t].(wchan := Some(q))])
  }

  function Last(s: seq<nat>): nat
    requires s != []
  {
    s[|s| - 1]
  }

  /** ktqueue_dequeue. */
  function Dequeued(s: State, q: nat): State
    requires q in s.queues && s.queues[q].list != [] && Last(s.queues[q].list) in s.threads
  {
    var list := s.queues[q].list;
    var t := Last(list);
    s.(queues := s.queues[q := Queue(list[..|list| - 1], s.queues[q].size - 1)],
       threads := s.threads[t := s.threads[t].(wchan := None)])
  }

  /** ktqueue_remove. */
  function Removed(s: State, q: nat, t: nat): State
    requires q in s.queues && t in s.threads
  {
    s.(queues := s.queues[q := Queue(Without(s.queues[q].list, t), s.queues[q].size - 1)],
       threads := s.threads[t := s.threads[t].(wchan := None)])
  }

  /** sched_make_runnable. */
  function Runnable(s: State, t: nat): State
    requires RUNQ in s.queues && t in s.threads
  {
    Enqueued(Marked(s, t, Run), RUNQ, t)
  }

  function Awake(s: State, q: nat): State
    requires RUNQ in s.queues && q in s.queues && s.queues[q].list != [] && Last(s.queues[q].list) in s.threads
  {
    Runnable(Dequeued(s, q), Last(s.queues[q].list))
  }

  // The invariant

  /** Queues and kt_wchan agree, and tq_size is the length. */
  ghost predicate Queues(s: State)
  {
    && RUNQ in s.queues
    && (forall q :: q in s.queues ==> NoDup(s.queues[q].list) && s.queues[q].size == |s.queues[q].list|)
    && (forall q, t :: q in s.queues ==> (t in s.queues[q].list <==> t in s.threads && s.threads[t].wchan == Some(q)))
    && (forall t :: t in s.threads && s.threads[t].wchan.Some? ==> s.threads[t].wchan.value in s.queues)
  }

  ghost predicate Executing(s: State, t: nat) { s.active && t == s.cur }

  /** kt_state says where the thread is. */
  ghost predicate Placed(s: State, t: nat)
    requires t in s.threads
  {
    var th := s.threads[t];
    if t in s.unstarted then (th.state == NoState || th.state == Run) && th.wchan == None && !Executing(s, t)
    else match th.state
      case NoState => false
      case Run => if Executing(s, t) then th.wchan == None else th.wchan == Some(RUNQ)
      case Exited => th.wchan == None && !Executing(s, t)
      case _ => th.wchan.Some? && th.wchan != Some(RUNQ) && !Executing(s, t)
  }

  ghost predicate Inv(s: State)
  {
    && Queues(s)
    && s.cur in s.threads && s.unstarted <= s.threads.Keys
    && forall t :: t in s.threads ==> Placed(s, t)
  }

  /** Where a thread can be. */
  datatype Place = Current | On(queue: nat) | Unstarted | Gone

  ghost predicate IsAt(s: State, t: nat, p: Place)
  {
    match p
    case Current => Executing(s, t)
    case On(q) => q in s.queues && t in s.queues[q].list
    case Unstarted => t in s.unstarted
    case Gone => t in s.threads && s.threads[t].state == Exited
  }

  /** Each thread is in one place, and in that once; kt_wchan names the queue it is on. */
  lemma OnePlace(s: State, t: nat)
    requires Inv(s) && t in s.threads
    ensures exists p :: IsAt(s, t, p)
    ensures forall p, p' :: IsAt(s, t, p) && IsAt(s, t, p') ==> p == p'
    ensures forall q :: q in s.queues ==>
             (multiset(s.queues[q].list)[t] == if s.threads[t].wchan == Some(q) then 1 else 0)
  {
    assert Placed(s, t);
    var p := if Executing(s, t) then Current else if t in s.unstarted then Unstarted
             else if s.threads[t].state == Exited then Gone else On(s.threads[t].wchan.value);
    assert IsAt(s, t, p);
    forall q | q in s.queues ensures multiset(s.queues[q].list)[t] == if s.threads[t].wchan == Some(q) then 1 else 0 {
      OnceListed(s.queues[q].list, t);
    }
  }

  lemma {:induction false} OnceListed(l: seq<nat>, t: nat)
    requires NoDup(l)
    ensures multiset(l)[t] == if t in l then 1 else 0
  {
    if l != [] {
      assert l == [l[0]] + l[1..];
      OnceListed(l[1..], t);
    }
  }

  // Each change keeps it

  /** A thread on no queue can be put on one, whatever its state becomes. */
  lemma EnqueueQueues(s: State, q: nat, t: nat, state: ThreadState)
    requires Queues(s) && q in s.queues && t in s.threads && s.threads[t].wchan == None
    ensures Queues(Enqueued(Marked(s, t, state), q, t))
  {
    var s' := Enqueued(Marked(s, t, state), q, t);
    assert t !in s.queues[q].list;
    forall p, u | p in s'.queues
      ensures u in s'.queues[p].list <==> u in s'.threads && s'.threads[u].wchan == Some(p)
    {
      assert u in s.queues[p].list <==> u in s.threads && s.threads[u].wchan == Some(p);
    }
  }

  lemma DequeueQueues(s: State, q: nat)
    requires Queues(s) && q in s.queues && s.queues[q].list != []
    ensures Last(s.queues[q].list) in s.threads && s.threads[Last(s.queues[q].list)].wchan == Some(q)
    ensures Queues(Dequeued(s, q)) && Dequeued(s, q).threads[Last(s.queues[q].list)].wchan == None
  {
    var list := s.queues[q].list;
    var t := Last(list);
    assert t in list;
    var s' := Dequeued(s, q);
    forall p, u | p in s'.queues
      ensures u in s'.queues[p].list <==> u in s'.threads && s'.threads[u].wchan == Some(p)
    {
      assert u in s.queues[p].list <==> u in s.threads && s.threads[u].wchan == Some(p);
      assert list == list[..|list| - 1] + [t];
    }
  }

  lemma RemoveQueues(s: State, q: nat, t: nat)
    requires Queues(s) && q in s.queues && t in s.threads && s.threads[t].wchan == Some(q)
    ensures Queues(Removed(s, q, t)) && Removed(s, q, t).threads[t].wchan == None
  {
    var s' := Removed(s, q, t);
    assert t in s.queues[q].list;
    forall p, u | p in s'.queues
      ensures u in s'.queues[p].list <==> u in s'.threads && s'.threads[u].wchan == Some(p)
    {
      assert u in s.queues[p].list <==> u in s.threads && s.threads[u].wchan == Some(p);
    }
  }

  /** Only t moved, and its new place is right. */
  lemma Replaced(s: State, s': State, t: nat)
    requires Inv(s) && Queues(s') && t in s.threads && s'.threads.Keys == s.threads.Keys
    requires forall u :: u in s.threads && u != t ==> s'.threads[u] == s.threads[u]
    requires s'.cur in s.threads && s'.unstarted <= s.unstarted + {t}
    requires forall u :: u in s.threads && u != t ==>
              (Executing(s', u) <==> Executing(s, u)) && (u in s'.unstarted <==> u in s.unstarted)
    requires Placed(s', t)
    ensures Inv(s')
  {
    forall u | u in s'.threads ensures Placed(s', u) {
      if u != t { assert Placed(s, u); }
    }
  }

  lemma AwakeInv(s: State, q: nat)
    requires Inv(s) && q in s.queues && q != RUNQ && s.queues[q].list != []
    ensures var t := Last(s.queues[q].list);
            && t in s.threads && (s.threads[t].state == Sleep || s.threads[t].state == SleepCancellable)
            && Dequeued(s, q).threads[t].wchan == None && Inv(Awake(s, q))
  {
    hide Queues;
    var t := Last(s.queues[q].list);
    DequeueQueues(s, q);
    assert Placed(s, t);
    QueueIds(s);
    EnqueueQueues(Dequeued(s, q), RUNQ, t, Run);
    Replaced(s, Awake(s, q), t);
  }

  lemma QueueIds(s: State)
    requires Queues(s)
    ensures RUNQ in s.queues
    ensures forall t :: t in s.threads && s.threads[t].wchan.Some? ==> s.threads[t].wchan.value in s.queues
  {
  }

  /** sched_broadcast_on: all threads on the queue, the one that has waited longest first. */
  ghost function AllAwake(s: State, q: nat): (s': State)
    requires Inv(s) && q in s.queues && q != RUNQ
    ensures Inv(s') && s'.threads.Keys == s.threads.Keys && q in s'.queues
    decreases |s.queues[q].list|
  {
    if s.queues[q].list == [] then s
    else
      AwakeInv(s, q);
      AllAwake(Awake(s, q), q)
  }

  lemma AwakeEffect(s: State, q: nat)
    requires Inv(s) && q in s.queues && q != RUNQ && s.queues[q].list != []
    ensures var list, s' := s.queues[q].list, Awake(s, q);
            var rest, t := list[..|list| - 1], Last(list);
            && Inv(s') && q in s'.queues && s'.queues[q].list == rest && t !in rest && list == rest + [t]
            && RUNQ in s.queues && RUNQ in s'.queues && s'.queues[RUNQ].list == [t] + s.queues[RUNQ].list
            && t in s.threads && s'.threads == s.threads[t := s'.threads[t]]
            && s'.threads[t] == Thread(Run, Some(RUNQ), s.threads[t].cancelled)
            && s'.cur == s.cur && s'.active == s.active && s'.unstarted == s.unstarted
  {
    AwakeInv(s, q);
    var list := s.queues[q].list;
    assert list == list[..|list| - 1] + [Last(list)];
  }

  /** They join the run queue behind the threads there, in the order in which they waited. */
  lemma {:induction false} AllAwakeInOrder(s: State, q: nat)
    requires Inv(s) && q in s.queues && q != RUNQ
    ensures var s' := AllAwake(s, q);
            && RUNQ in s.queues && RUNQ in s'.queues
            && s'.queues[q].list == [] && s'.queues[RUNQ].list == s.queues[q].list + s.queues[RUNQ].list
            && (forall t :: t in s.queues[q].list ==>
                  t in s.threads && s'.threads[t] == Thread(Run, Some(RUNQ), s.threads[t].cancelled))
            && (forall t :: t in s.threads && t !in s.queues[q].list ==> s'.threads[t] == s.threads[t])
            && s'.cur == s.cur && s'.active == s.active && s'.unstarted == s.unstarted
    decreases |s.queues[q].list|
  {
    hide Inv, Awake;
    var list := s.queues[q].list;
    if list == [] {
      HasRunQueue(s);
      assert list + s.queues[RUNQ].list == s.queues[RUNQ].list;
    } else {
      AwakeEffect(s, q);
      AllAwakeInOrder(Awake(s, q), q);
      var rest, t := list[..|list| - 1], Last(list);
      assert rest + ([t] + s.queues[RUNQ].list) == list + s.queues[RUNQ].list;
    }
  }

  lemma HasRunQueue(s: State)
    requires Inv(s)
    ensures RUNQ in s.queues
  {
  }

  // Steps and runs

  datatype Step =
    | Create(t: nat, clone: bool)
    | NewQueue(q: nat)
    | Start(t: nat)
    | Yield
    | Block(q: nat, cancellable: bool)
    | Exit
    | Dispatch
    | Wakeup(q: nat)
    | Broadcast(q: nat)
    | Cancel(t: nat)

  /**
   What the callers of the operations see to; a thread that gives up the processor does nothing more until it is
   chosen again.
   */
  ghost predicate Enabled(s: State, step: Step)
  {
    match step
    case Create(t, clone) => t !in s.threads && (clone ==> s.active)
    case NewQueue(q) => q !in s.queues
    case Start(t) => t in s.unstarted
    case Yield => s.active
    case Block(q, _) => s.active && q in s.queues && q != RUNQ
    case Exit => s.active
    case Dispatch => !s.active && RUNQ in s.queues && s.queues[RUNQ].list != []
    case Wakeup(q) => q in s.queues && q != RUNQ
    case Broadcast(q) => q in s.queues && q != RUNQ
    case Cancel(t) => t in s.threads
  }

  ghost function Cancelled(s: State, t: nat): State
    requires Inv(s) && t in s.threads
  {
    var s1 := s.(threads := s.threads[t := s.threads[t].(cancelled := true)]);
    if s.threads[t].state == SleepCancellable then
      assert Placed(s, t);
      Runnable(Removed(s1, s.threads[t].wchan.value, t), t)
    else s1
  }

  ghost function Next(s: State, step: Step): State
    requires Inv(s) && Enabled(s, step)
  {
    match step
    case Create(t, clone) =>
      var th := Thread(if clone then Run else NoState, None, clone && s.threads[s.cur].cancelled);
      s.(threads := s.threads[t := th], unstarted := s.unstarted + {t})
    case NewQueue(q) => s.(queues := s.queues[q := Queue([], 0)])
    case Start(t) => Runnable(s, t).(unstarted := s.unstarted - {t})
    case Yield => Runnable(s, s.cur).(active := false)
    case Block(q, cancellable) =>
      if cancellable && s.threads[s.cur].cancelled then s
      else Enqueued(Marked(s, s.cur, if cancellable then SleepCancellable else Sleep), q, s.cur).(active := false)
    case Exit => Marked(s, s.cur, Exited).(active := false)
    case Dispatch =>
      DequeueQueues(s, RUNQ);
      Dequeued(s, RUNQ).(cur := Last(s.queues[RUNQ].list), active := true)
    case Wakeup(q) => if s.queues[q].list == [] then s else (AwakeInv(s, q); Awake(s, q))
    case Broadcast(q) => AllAwake(s, q)
    case Cancel(t) => Cancelled(s, t)
  }

  lemma CreateInv(s: State, t: nat, clone: bool)
    requires Inv(s) && t !in s.threads && (clone ==> s.active)
    ensures Inv(Next(s, Create(t, clone)))
  {
    var s' := Next(s, Create(t, clone));
    forall u | u in s'.threads ensures Placed(s', u) {
      if u != t { assert Placed(s, u); }
    }
    forall q, u | q in s'.queues ensures u in s'.queues[q].list <==> u in s'.threads && s'.threads[u].wchan == Some(q) {
    }
  }

  lemma NewQueueInv(s: State, q: nat)
    requires Inv(s) && q !in s.queues
    ensures Inv(Next(s, NewQueue(q)))
  {
    var s' := Next(s, NewQueue(q));
    forall u | u in s'.threads ensures Placed(s', u) { assert Placed(s, u); }
  }

  lemma StartInv(s: State, t: nat)
    requires Inv(s) && t in s.unstarted
    ensures s.threads[t].wchan == None && Inv(Next(s, Start(t)))
  {
    hide Queues;
    QueueIds(s);
    assert Placed(s, t);
    EnqueueQueues(s, RUNQ, t, Run);
    QueuesOnly(Runnable(s, t), Next(s, Start(t)));
    Replaced(s, Next(s, Start(t)), t);
  }

  lemma QueuesOnly(s: State, s': State)
    requires Queues(s) && s'.queues == s.queues && s'.threads.Keys == s.threads.Keys
    requires forall t :: t in s.threads ==> s'.threads[t].wchan == s.threads[t].wchan
    ensures Queues(s')
  {
  }

  lemma LeaveInv(s: State, step: Step)
    requires Inv(s) && Enabled(s, step) && (step.Yield? || step.Block?)
    ensures s.threads[s.cur].wchan == None && Inv(Next(s, step))
  {
    hide Queues;
    QueueIds(s);
    assert Placed(s, s.cur);
    var q := if step.Yield? then RUNQ else step.q;
    var state := if step.Yield? then Run else if step.cancellable then SleepCancellable else Sleep;
    EnqueueQueues(s, q, s.cur, state);
    var s' := Next(s, step);
    if s' != s {
      QueuesOnly(Enqueued(Marked(s, s.cur, state), q, s.cur), s');
      Replaced(s, s', s.cur);
    }
  }

  lemma ExitInv(s: State)
    requires Inv(s) && s.active
    ensures s.threads[s.cur].wchan == None && Inv(Next(s, Exit))
  {
    hide Queues;
    assert Placed(s, s.cur);
    QueuesOnly(s, Next(s, Exit));
    Replaced(s, Next(s, Exit), s.cur);
  }

  lemma DispatchInv(s: State)
    requires Inv(s) && Enabled(s, Dispatch)
    ensures Inv(Next(s, Dispatch))
  {
    hide Queues;
    QueueIds(s);
    DequeueQueues(s, RUNQ);
    var t, s' := Last(s.queues[RUNQ].list), Next(s, Dispatch);
    assert Placed(s, t);
    QueuesOnly(Dequeued(s, RUNQ), s');
    Replaced(s, s', t);
  }

  lemma CancelInv(s: State, t: nat)
    requires Inv(s) && t in s.threads
    ensures Inv(Next(s, Cancel(t)))
  {
    hide Queues;
    QueueIds(s);
    assert Placed(s, t);
    var s1 := s.(threads := s.threads[t := s.threads[t].(cancelled := true)]);
    QueuesOnly(s, s1);
    if s.threads[t].state == SleepCancellable {
      var q := s.threads[t].wchan.value;
      RemoveQueues(s1, q, t);
      EnqueueQueues(Removed(s1, q, t), RUNQ, t, Run);
    }
    Replaced(s, Next(s, Cancel(t)), t);
  }

  /** Whatever happens next, the invariant holds. */
  lemma StepInv(s: State, step: Step)
    requires Inv(s) && Enabled(s, step)
    ensures Inv(Next(s, step)) && s.threads.Keys <= Next(s, step).threads.Keys
  {
    hide Inv;
    match step {
      case Create(t, clone) => CreateInv(s, t, clone);
      case NewQueue(q) => NewQueueInv(s, q);
      case Start(t) => StartInv(s, t);
      case Yield => LeaveInv(s, step);
      case Block(_, _) => LeaveInv(s, step);
      case Exit => ExitInv(s);
      case Dispatch => DispatchInv(s);
      case Wakeup(q) => if s.queues[q].list != [] { AwakeInv(s, q); }
      case Broadcast(q) =>
      case Cancel(t) => CancelInv(s, t);
    }
  }

  /** A run: every step is one that can be taken. */
  ghost predicate IsRun(s: State, steps: seq<Step>)
    requires Inv(s)
    decreases |steps|
  {
    steps == [] || (Enabled(s, steps[0]) && (StepInv(s, steps[0]); IsRun(Next(s, steps[0]), steps[1..])))
  }

  ghost function After(s: State, steps: seq<Step>): State
    requires Inv(s) && IsRun(s, steps)
    decreases |steps|
  {
    if steps == [] then s else (StepInv(s, steps[0]); After(Next(s, steps[0]), steps[1..]))
  }

  /** The state when the first thread is started by hand: it alone exists and executes. */
  function Boot(t: nat): State
  {
    State(map[t := Thread(Run, None, false)], map[RUNQ := Queue([], 0)], t, true, {})
  }

  /** In every run from there, no thread is lost or in two places. */
  lemma {:induction false} EveryRun(s: State, steps: seq<Step>, t: nat)
    requires Inv(s) && IsRun(s, steps) && t in s.threads
    ensures Inv(After(s, steps)) && t in After(s, steps).threads
    ensures exists p :: IsAt(After(s, steps), t, p)
    ensures forall p, p' :: IsAt(After(s, steps), t, p) && IsAt(After(s, steps), t, p') ==> p == p'
    decreases |steps|
  {
    if steps == [] {
      OnePlace(s, t);
    } else {
      StepInv(s, steps[0]);
      EveryRun(Next(s, steps[0]), steps[1..], t);
    }
  }

  lemma BootInv(t: nat)
    ensures Inv(Boot(t))
  {
  }

  // Who is next

  /** Thread t is the k-th in line on q, counting from the one that has been there longest. */
  ghost predicate InLineAt(s: State, q: nat, t: nat, k: nat)
  {
    q in s.queues && 1 <= k <= |s.queues[q].list| && s.queues[q].list[|s.queues[q].list| - k] == t
  }

  /** Threads only ever join the run queue in front, and only Dispatch takes one away. */
  lemma RunQueueGrows(s: State, step: Step) returns (front: seq<nat>)
    requires Inv(s) && Enabled(s, step)
    ensures RUNQ in s.queues && RUNQ in Next(s, step).queues
    ensures step != Dispatch ==> Next(s, step).queues[RUNQ].list == front + s.queues[RUNQ].list
    ensures step == Dispatch ==> Next(s, step).queues[RUNQ].list + [Next(s, step).cur] == s.queues[RUNQ].list
  {
    hide Queues, Placed;
    HasRunQueue(s);
    front := [];
    var list := s.queues[RUNQ].list;
    match step {
      case Create(_, _) =>
      case NewQueue(_) =>
      case Start(t) => front := [t];
      case Yield => front := [s.cur];
      case Block(_, _) =>
      case Exit =>
      case Dispatch => assert list == list[..|list| - 1] + [Last(list)];
      case Wakeup(q) =>
        if s.queues[q].list != [] {
          AwakeEffect(s, q);
          front := [Last(s.queues[q].list)];
        }
      case Broadcast(q) =>
        AllAwakeInOrder(s, q);
        front := s.queues[q].list;
      case Cancel(t) =>
        if s.threads[t].state == SleepCancellable {
          CancelWakes(s, t);
          front := [t];
        }
    }
  }

  /**
   sched_cancel: the flag is set; a thread in a cancellable sleep leaves its queue, the others there keep their order,
   and it becomes the last in line for the processor; nothing else changes.
   */
  lemma CancelWakes(s: State, t: nat)
    requires Inv(s) && t in s.threads
    ensures var s' := Next(s, Cancel(t));
            && t in s'.threads && s'.threads[t].cancelled && s'.threads == s.threads[t := s'.threads[t]]
            && s'.cur == s.cur && s'.active == s.active && s'.unstarted == s.unstarted
            && (s.threads[t].state != SleepCancellable ==>
                  s'.queues == s.queues && s'.threads[t] == s.threads[t].(cancelled := true))
            && (s.threads[t].state == SleepCancellable ==>
                  && s'.threads[t] == Thread(Run, Some(RUNQ), true)
                  && s.threads[t].wchan.Some? && s.threads[t].wchan.value in s.queues
                  && s.threads[t].wchan != Some(RUNQ)
                  && RUNQ in s.queues
                  && s'.queues == s.queues[s.threads[t].wchan.value := s'.queues[s.threads[t].wchan.value]]
                                          [RUNQ := s'.queues[RUNQ]]
                  && s'.queues[s.threads[t].wchan.value].list == Without(s.queues[s.threads[t].wchan.value].list, t)
                  && s'.queues[RUNQ].list == [t] + s.queues[RUNQ].list)
  {
    hide Queues;
    HasRunQueue(s);
    QueueIds(s);
    assert Placed(s, t);
  }

  /** No step lets anybody overtake on the run queue, and only Dispatch moves the line. */
  lemma InRunLine(s: State, step: Step, t: nat, k: nat)
    requires Inv(s) && Enabled(s, step) && InLineAt(s, RUNQ, t, k)
    ensures Inv(Next(s, step))
    ensures step != Dispatch ==> InLineAt(Next(s, step), RUNQ, t, k)
    ensures step == Dispatch && k > 1 ==> InLineAt(Next(s, step), RUNQ, t, k - 1)
    ensures step == Dispatch && k == 1 ==> Next(s, step).cur == t && Next(s, step).active
  {
    hide Inv, AllAwake;
    StepInv(s, step);
    var front := RunQueueGrows(s, step);
  }

  /** Whoever becomes runnable is behind all that were runnable: who yields, is started, is woken or is cancelled. */
  lemma JoinsBehind(s: State, step: Step, t: nat, k: nat)
    requires Inv(s) && Enabled(s, step) && InLineAt(Next(s, step), RUNQ, t, k)
    ensures RUNQ in s.queues && (t !in s.queues[RUNQ].list ==> k > |s.queues[RUNQ].list|)
    ensures step == Yield ==> InLineAt(Next(s, step), RUNQ, s.cur, |s.queues[RUNQ].list| + 1)
  {
    hide Inv, AllAwake;
    var front := RunQueueGrows(s, step);
    var was, now := s.queues[RUNQ].list, Next(s, step).queues[RUNQ].list;
    if step != Dispatch && k <= |was| { assert now[|now| - k] == was[|was| - k]; }
    if step == Dispatch { assert now[|now| - k] == was[|now| - k]; }
  }

  ghost function Dispatches(steps: seq<Step>): nat
  {
    if steps == [] then 0 else (if steps[0] == Dispatch then 1 else 0) + Dispatches(steps[1..])
  }

  lemma {:induction false} DispatchesLast(steps: seq<Step>)
    requires steps != [] && steps[|steps| - 1] == Dispatch
    ensures Dispatches(steps) > 0
  {
    if |steps| > 1 { DispatchesLast(steps[1..]); }
  }

  /** The k-th in line runs after the k-th switch from now, whatever happens, and keeps its place until then. */
  lemma {:induction false} KthRunnable(s: State, steps: seq<Step>, t: nat, k: nat)
    requires Inv(s) && IsRun(s, steps) && InLineAt(s, RUNQ, t, k)
    ensures Dispatches(steps) < k ==> InLineAt(After(s, steps), RUNQ, t, k - Dispatches(steps))
    ensures Dispatches(steps) == k && steps[|steps| - 1] == Dispatch ==>
             After(s, steps).cur == t && After(s, steps).active
    decreases |steps|
  {
    hide Inv, Next, Enabled;
    if steps != [] {
      var rest := steps[1..];
      InRunLine(s, steps[0], t, k);
      if steps[0] == Dispatch && k == 1 {
        if rest != [] && rest[|rest| - 1] == Dispatch { DispatchesLast(rest); }
      } else {
        KthRunnable(Next(s, steps[0]), rest, t, if steps[0] == Dispatch then k - 1 else k);
      }
    }
  }

  /** sched_wakeup_on takes the one that has waited longest, puts it last in line to run, and moves the others up. */
  lemma WakesLongest(s: State, q: nat, t: nat, k: nat)
    requires Inv(s) && Enabled(s, Wakeup(q)) && InLineAt(s, q, t, k)
    ensures var s' := Next(s, Wakeup(q));
            && (k > 1 ==> InLineAt(s', q, t, k - 1))
            && RUNQ in s.queues
            && (k == 1 ==> InLineAt(s', RUNQ, t, |s.queues[RUNQ].list| + 1) && t in s'.threads
                           && s'.threads[t].state == Run && t !in s'.queues[q].list)
  {
    hide Inv, Awake;
    HasRunQueue(s);
    AwakeEffect(s, q);
  }

  /** Who goes to sleep is behind all that sleep there. */
  lemma SleepsBehind(s: State, q: nat, cancellable: bool, t: nat, k: nat)
    requires Inv(s) && Enabled(s, Block(q, cancellable)) && !(cancellable && s.threads[s.cur].cancelled)
    ensures var s' := Next(s, Block(q, cancellable));
            && InLineAt(s', q, s.cur, |s.queues[q].list| + 1)
            && (InLineAt(s, q, t, k) ==> InLineAt(s', q, t, k))
  {
    var s' := Next(s, Block(q, cancellable));
    assert s'.queues[q].list == [s.cur] + s.queues[q].list;
  }

  // What becomes of a thread

  lemma FlagKept(s: State, step: Step, t: nat)
    requires Inv(s) && Enabled(s, step) && t in s.threads
    ensures t in Next(s, step).threads
    ensures Next(s, step).threads[t].cancelled <==> s.threads[t].cancelled || step == Cancel(t)
  {
    hide Queues, Placed;
    HasRunQueue(s);
    match step {
      case Wakeup(q) => if s.queues[q].list != [] { AwakeEffect(s, q); }
      case Broadcast(q) => AllAwakeInOrder(s, q);
      case Cancel(u) => CancelWakes(s, u);
      case _ =>
    }
  }

  /** In every run a thread is cancelled exactly if it was before or somebody cancels it. */
  lemma {:induction false} CancelledFlag(s: State, steps: seq<Step>, t: nat)
    requires Inv(s) && IsRun(s, steps) && t in s.threads
    ensures t in After(s, steps).threads
    ensures After(s, steps).threads[t].cancelled <==> s.threads[t].cancelled || Cancel(t) in steps
    decreases |steps|
  {
    hide Inv, Next, Enabled;
    if steps != [] {
      StepInv(s, steps[0]);
      FlagKept(s, steps[0], t);
      CancelledFlag(Next(s, steps[0]), steps[1..], t);
      assert steps == [steps[0]] + steps[1..];
    }
  }

  lemma ExitedKept(s: State, step: Step, t: nat)
    requires Inv(s) && Enabled(s, step) && IsAt(s, t, Gone)
    ensures IsAt(Next(s, step), t, Gone)
  {
    hide Queues;
    HasRunQueue(s);
    assert Placed(s, t);
    match step {
      case Wakeup(q) =>
        if s.queues[q].list != [] {
          AwakeEffect(s, q);
          AwakeInv(s, q);
        }
      case Broadcast(q) =>
        AllAwakeInOrder(s, q);
        NotQueued(s, q, t);
      case Cancel(u) => CancelWakes(s, u);
      case Dispatch => NotQueued(s, RUNQ, t);
      case _ =>
    }
  }

  lemma NotQueued(s: State, q: nat, t: nat)
    requires Inv(s) && IsAt(s, t, Gone) && q in s.queues
    ensures t !in s.queues[q].list
  {
    assert Placed(s, t);
  }

  /** A thread that has exited never runs, sleeps or waits again. */
  lemma {:induction false} ExitedForGood(s: State, steps: seq<Step>, t: nat)
    requires Inv(s) && IsRun(s, steps) && IsAt(s, t, Gone)
    ensures IsAt(After(s, steps), t, Gone)
    decreases |steps|
  {
    hide Inv, Next, Enabled, IsAt;
    if steps != [] {
      StepInv(s, steps[0]);
      ExitedKept(s, steps[0], t);
      ExitedForGood(Next(s, steps[0]), steps[1..], t);
    }
  }
}
