/** EdnThreadPool as an object: the workers' positions change in an array, the queue and the flag in place. Every method
is one step of PoolSpec, but for RunToExit, the whole loop of a worker that is alone with a stopped pool. */
module ThreadPools {
  import opened PoolSpec

  class EdnThreadPool {
    const workers: array<Worker>
    var tasks: seq<nat>
    var stop: bool
    var told: bool
    var pending: nat
    ghost var accepted: seq<nat>
    ghost var started: seq<nat>
    ghost var finished: seq<nat>

    ghost function State(): Pool
      reads this, workers
    {
      Pool(workers[..], tasks, stop, told, pending, accepted, started, finished)
    }

    constructor (numThreads: nat)
      ensures State() == Init(numThreads) && fresh(workers)
    {
      workers := new Worker[numThreads](i => Checking);
      tasks, stop, told, pending := [], false, false, 0;
      accepted, started, finished := [], [], [];
    }

    /** enqueue up to the notification; false stands for the exception. */
    method Submit(task: nat) returns (ok: bool)
      modifies this
      ensures State() == Enqueue(old(State()), task) && ok == !old(stop)
      ensures tasks == old(tasks) + (if ok then [task] else []) && pending == old(pending) + if ok then 1 else 0
    {
      if stop {
        return false;
      }
      tasks := tasks + [task];
      accepted := accepted + [task];
      pending := pending + 1;
      return true;
    }

    /** notify_one, waking w if it is blocked. */
    method Notify(w: nat)
      requires pending > 0
      modifies this`pending, workers
      ensures State() == NotifyOne(old(State()), w)
    {
      pending := pending - 1;
      if w < workers.Length && workers[w] == Blocked {
        workers[w] := Checking;
      }
    }

    /** A worker with the mutex. */
    method Look(w: nat)
      requires w < workers.Length
      modifies this, workers
      ensures State() == Check(old(State()), w)
    {
      if !stop && tasks == [] {
        workers[w] := Deciding;
      } else if stop && tasks == [] {
        workers[w] := Exited;
      } else {
        workers[w] := Running(tasks[0]);
        started := started + [tasks[0]];
        tasks := tasks[1..];
      }
    }

    /** The wait blocks, or returns. */
    method Place(w: nat, x: Worker)
      requires w < workers.Length
      modifies workers
      ensures State() == Move(old(State()), w, x)
    {
      workers[w] := x;
    }

    /** task() has returned. */
    method Complete(w: nat)
      requires w < workers.Length && workers[w].Running?
      modifies this`finished, workers
      ensures State() == Finish(old(State()), w)
    {
      finished := finished + [workers[w].task];
      workers[w] := Checking;
    }

    /** The destructor: the flag, and then notify_all. */
    method RequestStop()
      modifies this`stop
      ensures State() == old(State()).(stop := true)
    {
      stop := true;
    }

    method NotifyEveryone()
      modifies this`told, workers
      ensures State() == NotifyAll(old(State()))
    {
      hide Woken;
      for i := 0 to workers.Length
        invariant told == old(told)
        invariant forall k :: 0 <= k < i ==> workers[k] == Woken(old(workers[..]))[k]
        invariant forall k :: i <= k < workers.Length ==> workers[k] == old(workers[k])
      {
        if workers[i] == Blocked {
          workers[i] := Checking;
        }
      }
      told := true;
      assert workers[..] == Woken(old(workers[..]));
    }

    // ---------- a whole run ----------

    method Possible(op: Op, locked: bool) returns (b: bool)
      ensures b == Enabled(locked, State(), op)
    {
      match op {
        case OpEnqueue(_) => return Deciding !in workers[..];
        case OpNotifyOne(w) =>
          return pending > 0 && (Blocked in workers[..] ==> w < workers.Length && workers[w] == Blocked);
        case OpCheck(w) => return w < workers.Length && workers[w] == Checking && Deciding !in workers[..];
        case OpBlock(w) => return w < workers.Length && workers[w] == Deciding;
        case OpSpurious(w) => return w < workers.Length && workers[w] == Blocked;
        case OpFinish(w) => return w < workers.Length && workers[w].Running?;
        case OpStop => return !stop && (locked ==> Deciding !in workers[..]);
        case OpNotifyAll => return stop && !told;
      }
    }

    method Perform(op: Op, ghost locked: bool)
      requires Enabled(locked, State(), op)
      modifies this, workers
      ensures State() == Step(locked, old(State()), op)
    {
      hide Enqueue, Check, Finish, NotifyOne, NotifyAll, Move;
      match op {
        case OpEnqueue(task) => var ok := Submit(task);
        case OpNotifyOne(w) => Notify(w);
        case OpCheck(w) => Look(w);
        case OpBlock(w) => Place(w, Blocked);
        case OpSpurious(w) => Place(w, Checking);
        case OpFinish(w) => Complete(w);
        case OpStop => RequestStop();
        case OpNotifyAll => NotifyEveryone();
      }
    }

    /** Any interleaving of enqueues, workers and the destructor. */
    method Serve(locked: bool, ops: seq<Op>)
      requires State() == Init(workers.Length)
      modifies this, workers
      ensures State() == Run(locked, Init(workers.Length), ops)
      ensures Enqueued(locked, workers.Length, ops) == started + tasks
      ensures multiset(started) == multiset(finished) + InFlight(workers[..])
      ensures locked ==> forall w: nat :: !Overslept(State(), w)
    {
      hide Step, Enabled, Init;
      for i := 0 to |ops|
        invariant State() == Run(locked, Init(workers.Length), ops[..i])
      {
        RunSnoc(locked, Init(workers.Length), ops[..i], ops[i]);
        assert ops[..i + 1] == ops[..i] + [ops[i]];
        DisabledStep(locked, State(), ops[i]);
        var b := Possible(ops[i], locked);
        if b {
          Perform(ops[i], locked);
        }
      }
      assert ops[..|ops|] == ops;
      RunFacts(locked, workers.Length, ops);
    }

    /** One worker alone empties a stopped pool, oldest task first, and leaves. */
    method RunToExit(w: nat)
      requires stop && w < workers.Length && workers[w] == Checking
      modifies this, workers
      ensures State() == Move(AfterTasks(old(State()), old(|tasks|)), w, Exited)
      ensures tasks == []
    {
      hide Check, Finish, AfterTasks;
      ghost var p, k := State(), 0;
      NoneDone(p);
      while true
        invariant k <= |p.tasks| && State() == AfterTasks(p, k)
        decreases |p.tasks| - k
      {
        NextTask(p, w, k);
        Look(w);
        if workers[w] == Exited {
          return;
        }
        Complete(w);
        k := k + 1;
      }
    }
  }

  lemma DisabledStep(locked: bool, p: Pool, op: Op)
    ensures !Enabled(locked, p, op) ==> Step(locked, p, op) == p
  {
  }

  lemma RunFacts(locked: bool, n: nat, ops: seq<Op>)
    ensures var p := Run(locked, Init(n), ops);
            && Enqueued(locked, n, ops) == p.started + p.tasks
            && multiset(p.started) == multiset(p.finished) + InFlight(p.workers)
            && (locked ==> forall w: nat :: !Overslept(p, w))
  {
    hide Step, Init, Overslept, Enqueued, InFlight;
    TasksAreConserved(locked, n, ops);
    AcceptedIsEnqueued(locked, n, ops);
    NeverOversleptIffLocked(locked);
    forall w: nat
      ensures locked ==> !Overslept(Run(locked, Init(n), ops), w)
    {
      assert locked ==> !Oversleeps(locked, n, ops, w);
    }
  }

  /** A pool with its first k tasks done. */
  function AfterTasks(p: Pool, k: nat): Pool
    requires k <= |p.tasks|
  {
    p.(tasks := p.tasks[k..], started := p.started + p.tasks[..k], finished := p.finished + p.tasks[..k])
  }

  lemma NoneDone(p: Pool)
    ensures AfterTasks(p, 0) == p
  {
  }

  lemma NextTask(p: Pool, w: nat, k: nat)
    requires p.stop && At(p, w, Checking) && k <= |p.tasks|
    ensures var p1 := Check(AfterTasks(p, k), w);
            if k < |p.tasks| then
              p1.workers[w].Running? && Finish(p1, w) == AfterTasks(p, k + 1)
            else p1 == Move(AfterTasks(p, k), w, Exited) && p1.tasks == []
  {
    var p0 := AfterTasks(p, k);
    assert p0.workers == p.workers;
    if k < |p.tasks| {
      var p1 := Check(p0, w);
      assert p.tasks[..k] + [p.tasks[k]] == p.tasks[..k + 1];
      assert p0.tasks[1..] == p.tasks[k + 1..];
      assert p1.workers[w := Checking] == p.workers;
      assert p.started + p.tasks[..k] + [p.tasks[k]] == p.started + p.tasks[..k + 1];
      assert p.finished + p.tasks[..k] + [p.tasks[k]] == p.finished + p.tasks[..k + 1];
    }
  }
}
