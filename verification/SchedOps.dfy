/**
 The operations of kernel/proc/sched.c, each of them the step, or the run of steps,
 that the machine of Sched takes. Interrupts come in between operations, and while
 a thread that gave up the processor finds the run queue empty; there they are a
 parameter.
 */
module SchedOps {
  import opened Lists
  import opened Options
  import opened Sched

  /** What interrupt handlers do. */
  predicate IsInterrupt(step: Step) { step.Wakeup? || step.Broadcast? }

  lemma {:induction false} RunThen(s: State, steps: seq<Step>, step: Step)
    requires Inv(s) && IsRun(s, steps)
    ensures Inv(After(s, steps))
    ensures IsRun(s, steps + [step]) <==> Enabled(After(s, steps), step)
    ensures Enabled(After(s, steps), step) ==> After(s, steps + [step]) == Next(After(s, steps), step)
    decreases |steps|
  {
    hide Inv, Next, Enabled;
    if steps == [] {
      assert [] + [step] == [step] && [step][1..] == [];
      if Enabled(s, step) { StepInv(s, step); }
    } else {
      StepInv(s, steps[0]);
      assert (steps + [step])[1..] == steps[1..] + [step];
      RunThen(Next(s, steps[0]), steps[1..], step);
    }
  }

  /** Interrupts need no more than the queue they wake threads on. */
  lemma InterruptKeeps(s: State, step: Step)
    requires Inv(s) && IsInterrupt(step) && Enabled(s, step)
    ensures Next(s, step).queues.Keys == s.queues.Keys && Next(s, step).active == s.active
  {
    if step.Broadcast? { BroadcastKeeps(s, step.q); } else { HasRunQueue(s); }
  }

  lemma {:induction false} BroadcastKeeps(s: State, q: nat)
    requires Inv(s) && q in s.queues && q != RUNQ
    ensures AllAwake(s, q).queues.Keys == s.queues.Keys && AllAwake(s, q).active == s.active
    decreases |s.queues[q].list|
  {
    hide Inv;
    HasRunQueue(s);
    if s.queues[q].list != [] {
      AwakeEffect(s, q);
      BroadcastKeeps(Awake(s, q), q);
    }
  }

  lemma RunQueueReady(s: State, q: nat)
    requires Inv(s) && q in s.queues && s.queues[q].list != []
    ensures Last(s.queues[q].list) in s.threads && s.threads[Last(s.queues[q].list)].wchan == Some(q)
  {
    DequeueQueues(s, q);
  }

  lemma SizeIsLength(s: State, q: nat)
    requires Inv(s) && q in s.queues
    ensures s.queues[q].size == |s.queues[q].list|
  {
  }

  lemma SleeperQueued(s: State, t: nat)
    requires Inv(s) && t in s.threads && s.threads[t].state == SleepCancellable
    ensures s.threads[t].wchan.Some? && s.threads[t].wchan.value in s.queues && RUNQ in s.queues
  {
    assert Placed(s, t);
  }

  /** The first in line for the processor is now the current thread, and everybody else has moved up. */
  ghost predicate LineMoves(s: State, s': State)
  {
    forall t, k: nat | InLineAt(s, RUNQ, t, k) ::
      if k == 1 then s'.cur == t && s'.active else InLineAt(s', RUNQ, t, k - 1)
  }

  lemma DispatchMoves(s: State)
    requires Inv(s) && Enabled(s, Dispatch)
    ensures LineMoves(s, Next(s, Dispatch))
  {
    forall t, k: nat | InLineAt(s, RUNQ, t, k)
      ensures if k == 1 then Next(s, Dispatch).cur == t && Next(s, Dispatch).active
              else InLineAt(Next(s, Dispatch), RUNQ, t, k - 1)
    {
      InRunLine(s, Dispatch, t, k);
    }
  }

  class Scheduler {
    var threads: map<nat, Thread>
    var queues: map<nat, Queue>
    var cur: nat
    ghost var active: bool
    ghost var unstarted: set<nat>

    ghost function Now(): State
      reads this
    {
      State(threads, queues, cur, active, unstarted)
    }

    /** The first thread executes. */
    constructor (first: nat)
      ensures Now() == Boot(first) && Inv(Now())
    {
      threads, queues := map[first := Thread(Run, None, false)], map[RUNQ := Queue([], 0)];
      cur, active, unstarted := first, true, {};
      new;
      BootInv(first);
    }

    method KtqueueEnqueue(q: nat, thr: nat)
      requires q in queues && thr in threads && threads[thr].wchan == None
      modifies this`threads, this`queues
      ensures Now() == Enqueued(old(Now()), q, thr)
    {
      queues := queues[q := queues[q].(list := [thr] + queues[q].list)];
      threads := threads[thr := threads[thr].(wchan := Some(q))];
      queues := queues[q := queues[q].(size := queues[q].size + 1)];
      assert queues == old(queues)[q := queues[q]];
    }

    method KtqueueDequeue(q: nat) returns (r: Option<nat>)
      requires q in queues && (queues[q].list != [] ==> Last(queues[q].list) in threads)
      modifies this`threads, this`queues
      ensures r == if old(queues)[q].list == [] then None else Some(Last(old(queues)[q].list))
      ensures Now() == if r.None? then old(Now()) else Dequeued(old(Now()), q)
    {
      if queues[q].list == [] {
        return None;
      }
      var list := queues[q].list;
      var thr := list[|list| - 1];
      queues := queues[q := queues[q].(list := list[..|list| - 1])];
      threads := threads[thr := threads[thr].(wchan := None)];
      queues := queues[q := queues[q].(size := queues[q].size - 1)];
      assert queues == old(queues)[q := queues[q]];
      return Some(thr);
    }

    method KtqueueRemove(q: nat, thr: nat)
      requires q in queues && thr in threads && thr in queues[q].list
      modifies this`threads, this`queues
      ensures Now() == Removed(old(Now()), q, thr)
    {
      queues := queues[q := queues[q].(list := Without(queues[q].list, thr))];
      threads := threads[thr := threads[thr].(wchan := None)];
      queues := queues[q := queues[q].(size := queues[q].size - 1)];
      assert queues == old(queues)[q := queues[q]];
    }

    /** sched_queue_init. */
    method QueueInit(q: nat)
      requires Inv(Now()) && q !in queues
      modifies this`queues
      ensures Now() == Next(old(Now()), NewQueue(q)) && Inv(Now())
    {
      NewQueueInv(Now(), q);
      queues := queues[q := Queue([], 0)];
    }

    /** sched_make_runnable: the assertions are that the thread is on no queue. */
    method MakeRunnable(thr: nat)
      requires RUNQ in queues && thr in threads && threads[thr].wchan == None
      modifies this`threads, this`queues
      ensures Now() == Runnable(old(Now()), thr)
    {
      threads := threads[thr := threads[thr].(state := Run)];
      KtqueueEnqueue(RUNQ, thr);
    }

    /** sched_wakeup_on: the thread that has waited longest. Its assertion on the state holds. */
    method WakeupOn(q: nat) returns (r: Option<nat>)
      requires Inv(Now()) && q in queues && q != RUNQ
      modifies this`threads, this`queues
      ensures Now() == Next(old(Now()), Wakeup(q)) && Inv(Now())
      ensures r == if old(queues)[q].list == [] then None else Some(Last(old(queues)[q].list))
    {
      hide Inv;
      r := None;
      if queues[q].list != [] {
        AwakeInv(Now(), q);
        HasRunQueue(Now());
        r := KtqueueDequeue(q);
        assert threads[r.value].state == Sleep || threads[r.value].state == SleepCancellable;
        MakeRunnable(r.value);
      }
    }

    /** sched_broadcast_on. */
    method BroadcastOn(q: nat)
      requires Inv(Now()) && q in queues && q != RUNQ
      modifies this`threads, this`queues
      ensures Now() == Next(old(Now()), Broadcast(q)) && Inv(Now())
    {
      hide Inv;
      while queues[q].list != []
        invariant q in queues && Inv(Now()) && AllAwake(Now(), q) == AllAwake(old(Now()), q)
        decreases |queues[q].list|
      {
        AwakeInv(Now(), q);
        AwakeEffect(Now(), q);
        var thr := KtqueueDequeue(q);
        MakeRunnable(thr.value);
      }
    }

    /** sched_cancel. */
    method Cancel(kthr: nat)
      requires Inv(Now()) && kthr in threads
      modifies this`threads, this`queues
      ensures Now() == Next(old(Now()), Step.Cancel(kthr)) && Inv(Now())
    {
      CancelInv(Now(), kthr);
      threads := threads[kthr := threads[kthr].(cancelled := true)];
      if threads[kthr].state == SleepCancellable {
        SleeperQueued(old(Now()), kthr);
        assert kthr in queues[threads[kthr].wchan.value].list;
        KtqueueRemove(threads[kthr].wchan.value, kthr);
        MakeRunnable(kthr);
      }
    }

    /** What an interrupt handler asks for. */
    method Interrupt(step: Step)
      requires Inv(Now()) && IsInterrupt(step) && Enabled(Now(), step)
      modifies this`threads, this`queues
      ensures Now() == Next(old(Now()), step) && Inv(Now())
    {
      hide Inv;
      if step.Wakeup? {
        var _ := WakeupOn(step.q);
      } else {
        BroadcastOn(step.q);
      }
    }

    /**
     sched_switch, for a thread that is on a queue or has exited: interrupts are taken while no thread is runnable,
     and the thread that has been so longest becomes the current one. If interrupts end first, the processor
     still waits.
     */
    method Switch(interrupts: seq<Step>) returns (chosen: bool, ghost steps: seq<Step>)
      requires Inv(Now()) && !active
      requires forall i :: 0 <= i < |interrupts| ==> IsInterrupt(interrupts[i]) && Enabled(Now(), interrupts[i])
      modifies this
      ensures IsRun(old(Now()), steps) && Now() == After(old(Now()), steps) && Inv(Now())
      ensures chosen ==> active && exists n: nat :: n <= |interrupts| && steps == interrupts[..n] + [Dispatch]
      ensures !chosen ==> !active && steps == interrupts && RUNQ in queues && queues[RUNQ].list == []
      ensures RUNQ in old(queues) && old(queues)[RUNQ].list != [] ==>
                chosen && steps == [Dispatch] && LineMoves(old(Now()), Now())
    {
      hide Inv, Next, LineMoves;
      HasRunQueue(Now());
      ghost var s := Now();
      var i := 0;
      assert interrupts[..0] == [];
      while queues[RUNQ].list == [] && i < |interrupts|
        invariant 0 <= i <= |interrupts| && Inv(Now()) && !active && queues.Keys == s.queues.Keys
        invariant IsRun(s, interrupts[..i]) && Now() == After(s, interrupts[..i])
        invariant s.queues[RUNQ].list != [] ==> i == 0
      {
        assert interrupts[..i + 1] == interrupts[..i] + [interrupts[i]];
        RunThen(s, interrupts[..i], interrupts[i]);
        InterruptKeeps(Now(), interrupts[i]);
        Interrupt(interrupts[i]);
        i := i + 1;
      }
      steps := interrupts[..i];
      chosen := queues[RUNQ].list != [];
      if chosen {
        RunThen(s, steps, Dispatch);
        steps := interrupts[..i] + [Dispatch];
        ChooseNext();
      } else {
        assert steps == interrupts;
      }
    }

    method ChooseNext()
      requires Inv(Now()) && !active && RUNQ in queues && queues[RUNQ].list != []
      modifies this
      ensures Now() == Next(old(Now()), Dispatch) && Inv(Now()) && active && LineMoves(old(Now()), Now())
    {
      DispatchMoves(Now());
      RunQueueReady(Now(), RUNQ);
      DispatchInv(Now());
      var thread2 := KtqueueDequeue(RUNQ);
      cur := thread2.value;
      active := true;
    }

    /** The current thread goes to sleep on a queue; the assertion that it is on none holds. */
    method GoToSleep(q: nat, cancellable: bool, interrupts: seq<Step>) returns (chosen: bool, ghost steps: seq<Step>)
      requires Inv(Now()) && active && q in queues && q != RUNQ && !(cancellable && threads[cur].cancelled)
      requires forall i :: 0 <= i < |interrupts| ==> IsInterrupt(interrupts[i]) && Enabled(Now(), interrupts[i])
      modifies this
      ensures Slept(old(Now()), Now(), q, cancellable, interrupts, chosen, steps)
    {
      hide Inv;
      CurrentExists(Now());
      LeaveInv(Now(), Block(q, cancellable));
      threads := threads[cur := threads[cur].(state := if cancellable then SleepCancellable else Sleep)];
      KtqueueEnqueue(q, cur);
      active := false;
      assert Now() == Next(old(Now()), Block(q, cancellable));
      chosen, steps := Switch(interrupts);
      ghost var rest := steps;
      steps := [Block(q, cancellable)] + rest;
      assert steps[1..] == rest;
    }

    /** sched_sleep_on. */
    method SleepOn(q: nat, interrupts: seq<Step>) returns (chosen: bool, ghost steps: seq<Step>)
      requires Inv(Now()) && active && q in queues && q != RUNQ
      requires forall i :: 0 <= i < |interrupts| ==> IsInterrupt(interrupts[i]) && Enabled(Now(), interrupts[i])
      modifies this
      ensures Slept(old(Now()), Now(), q, false, interrupts, chosen, steps)
    {
      chosen, steps := GoToSleep(q, false, interrupts);
    }

    /** sched_cancellable_sleep_on: a thread already cancelled does not sleep and gets an error. */
    method CancellableSleepOn(q: nat, interrupts: seq<Step>) returns (r: int, chosen: bool, ghost steps: seq<Step>)
      requires Inv(Now()) && active && q in queues && q != RUNQ
      requires forall i :: 0 <= i < |interrupts| ==> IsInterrupt(interrupts[i]) && Enabled(Now(), interrupts[i])
      modifies this
      ensures old(cur) in old(threads) && r == if old(threads)[old(cur)].cancelled then -EINTR else 0
      ensures r != 0 ==> Now() == old(Now())
      ensures r == 0 ==> Slept(old(Now()), Now(), q, true, interrupts, chosen, steps)
    {
      CurrentExists(Now());
      if threads[cur].cancelled {
        return -EINTR, true, [];
      }
      chosen, steps := GoToSleep(q, true, interrupts);
      r := 0;
    }
  }

  const EINTR: int := 4

  /** Some thread was chosen after some of the interrupts, or all came and none was. */
  ghost predicate Slept(s: State, s': State, q: nat, cancellable: bool, interrupts: seq<Step>, chosen: bool,
                        steps: seq<Step>)
    requires Inv(s)
  {
    && IsRun(s, steps) && s' == After(s, steps) && Inv(s') && s'.active == chosen
    && steps != [] && steps[0] == Block(q, cancellable)
    && (chosen ==> exists n: nat :: n <= |interrupts| && steps[1..] == interrupts[..n] + [Dispatch])
    && (!chosen ==> steps[1..] == interrupts && RUNQ in s'.queues && s'.queues[RUNQ].list == [])
  }

  lemma CurrentExists(s: State)
    requires Inv(s)
    ensures s.cur in s.threads
  {
  }
}
