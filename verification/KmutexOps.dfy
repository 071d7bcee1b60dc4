/** The operations of kernel/proc/kmutex.c, each of them a run of the machine of Kmutex. */
module KmutexOps {
  import opened Kmutex
  import opened Options
  import opened Sched
  import opened SchedOps

  ghost function Lifted(steps: seq<Step>): seq<MutexStep>
  {
    seq(|steps|, i requires 0 <= i < |steps| => Other(steps[i]))
  }

  ghost predicate Unrelated(w: World, step: Step)
  {
    step.Dispatch? || (IsInterrupt(step) && !IsWaitq(w, step.q))
  }

  /** What happens meanwhile is a run of the whole. */
  lemma {:induction false} LiftRun(w: World, steps: seq<Step>)
    requires WorldInv(w) && IsRun(w.sched, steps) && forall i :: 0 <= i < |steps| ==> Unrelated(w, steps[i])
    ensures IsWorldRun(w, Lifted(steps))
    ensures var w' := WorldAfter(w, Lifted(steps));
            WorldInv(w') && w'.sched == After(w.sched, steps) && w'.mutexes == w.mutexes
    decreases |steps|
  {
    hide Inv, Next, Waiting, Held, Locking, Enabled;
    if steps != [] {
      assert Unrelated(w, steps[0]);
      var w1 := NextWorld(w, Other(steps[0]));
      WorldStep(w, Other(steps[0]));
      StepInv(w.sched, steps[0]);
      assert Lifted(steps)[1..] == Lifted(steps[1..]);
      LiftRun(w1, steps[1..]);
    }
  }

  /** Sleeping in lock, and what happens until some thread is chosen. */
  lemma LockRun(w: World, m: nat, interrupts: seq<Step>, chosen: bool, s': State, steps: seq<Step>)
    requires WorldInv(w) && CanStep(w, Lock(m)) && w.mutexes[m].holder.Some?
    requires forall i :: 0 <= i < |interrupts| ==> IsInterrupt(interrupts[i]) && !IsWaitq(w, interrupts[i].q)
    requires Slept(w.sched, s', w.mutexes[m].waitq, false, interrupts, chosen, steps)
    ensures var all := [Lock(m)] + Lifted(steps[1..]);
            && IsWorldRun(w, all) && WorldInv(WorldAfter(w, all))
            && WorldAfter(w, all).sched == s' && WorldAfter(w, all).mutexes == w.mutexes
  {
    hide Inv, Next, Waiting, Held, Locking, Enabled;
    var rest := steps[1..];
    var w1 := NextWorld(w, Lock(m));
    WorldStep(w, Lock(m));
    forall i | 0 <= i < |rest| ensures Unrelated(w1, rest[i]) {
      if chosen {
        var n: nat :| n <= |interrupts| && rest == interrupts[..n] + [Dispatch];
        assert rest[i] == Dispatch || rest[i] == interrupts[i];
      }
    }
    LiftRun(w1, rest);
    assert ([Lock(m)] + Lifted(rest))[1..] == Lifted(rest);
  }

  class Mutexes {
    const sched: Scheduler
    var mutexes: map<nat, Mutex>
    ghost var locking: map<nat, nat>
    ghost var inside: map<nat, set<nat>>

    ghost function Now(): World
      reads this, sched
    {
      World(sched.Now(), mutexes, locking, inside)
    }

    constructor (s: Scheduler)
      requires Inv(s.Now())
      ensures sched == s && Now() == World(s.Now(), map[], map[], map[]) && WorldInv(Now())
    {
      sched, mutexes, locking, inside := s, map[], map[], map[];
    }

    /** kmutex_init. */
    method Init(mtx: nat, waitq: nat)
      requires WorldInv(Now()) && CanStep(Now(), MutexStep.Init(mtx, waitq))
      modifies this, sched
      ensures Now() == NextWorld(old(Now()), MutexStep.Init(mtx, waitq)) && WorldInv(Now())
    {
      hide Inv, Next, Waiting, Held, Locking;
      WorldStep(Now(), MutexStep.Init(mtx, waitq));
      sched.QueueInit(waitq);
      mutexes := mutexes[mtx := Mutex(waitq, None)];
      inside := inside[mtx := {}];
    }

    /** kmutex_lock: takes a free mutex; otherwise sleeps, while interrupts come and some other thread is chosen. */
    method Lock(mtx: nat, interrupts: seq<Step>) returns (ghost steps: seq<MutexStep>)
      requires WorldInv(Now()) && CanStep(Now(), MutexStep.Lock(mtx))
      requires forall i :: 0 <= i < |interrupts| ==>
                 IsInterrupt(interrupts[i]) && Enabled(sched.Now(), interrupts[i]) && !IsWaitq(Now(), interrupts[i].q)
      modifies this, sched
      ensures IsWorldRun(old(Now()), steps) && Now() == WorldAfter(old(Now()), steps) && WorldInv(Now())
      ensures steps != [] && steps[0] == MutexStep.Lock(mtx)
      ensures old(mutexes)[mtx].holder == None ==>
               steps == [MutexStep.Lock(mtx)] && mtx in inside && old(sched.cur) in inside[mtx]
    {
      hide Inv, Next, Waiting, Held, Locking;
      ghost var w := Now();
      WorldStep(w, MutexStep.Lock(mtx));
      if mutexes[mtx].holder != None {
        var chosen;
        ghost var ss;
        chosen, ss := sched.SleepOn(mutexes[mtx].waitq, interrupts);
        LockRun(w, mtx, interrupts, chosen, sched.Now(), ss);
        steps := [MutexStep.Lock(mtx)] + Lifted(ss[1..]);
        locking, inside := WorldAfter(w, steps).locking, WorldAfter(w, steps).inside;
      } else {
        mutexes := mutexes[mtx := mutexes[mtx].(holder := Some(sched.cur))];
        inside := inside[mtx := inside[mtx] + {sched.cur}];
        steps := [MutexStep.Lock(mtx)];
        assert steps[1..] == [];
      }
    }

    /**
     kmutex_unlock: the longest waiter becomes the holder. Its last assertion, that the caller no longer is, holds.
     */
    method Unlock(mtx: nat)
      requires WorldInv(Now()) && CanStep(Now(), MutexStep.Unlock(mtx))
      modifies this, sched
      ensures Now() == NextWorld(old(Now()), MutexStep.Unlock(mtx)) && WorldInv(Now())
      ensures mtx in mutexes && mutexes[mtx].holder != Some(sched.cur)
    {
      hide Inv, Next, Waiting, Held, Locking;
      UnlockWorld(Now(), mtx);
      SizeIsLength(sched.Now(), mutexes[mtx].waitq);
      if sched.queues[mutexes[mtx].waitq].size != 0 {
        var next := sched.WakeupOn(mutexes[mtx].waitq);
        mutexes := mutexes[mtx := mutexes[mtx].(holder := next)];
      } else {
        mutexes := mutexes[mtx := mutexes[mtx].(holder := None)];
      }
      inside := inside[mtx := inside[mtx] - {old(sched.cur)}];
    }
  }
}
