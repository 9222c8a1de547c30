/** EdnThreadPool as a state machine over the steps of its workers, of enqueue and of the destructor.

The predicate of condition.wait is evaluated under queue_mutex, which is given up only when the worker blocks: nobody
else gets the mutex in between. The destructor does not take it. `locked` is the repair in which it does. */
module PoolSpec {

  /** Where a worker is: about to take the mutex and look, having seen nothing to do and not yet blocked, blocked on
      the condition, running a task, out of its loop. */
  datatype Worker = Checking | Deciding | Blocked | Running(task: nat) | Exited

  datatype Pool = Pool(
    workers: seq<Worker>,
    tasks: seq<nat>,       // the queue
    stop: bool,
    told: bool,            // the destructor's notify_all is done
    pending: nat,          // notify_one calls still to come, one for each accepted task
    accepted: seq<nat>,    // the past: tasks accepted, started and finished, in order
    started: seq<nat>,
    finished: seq<nat>
  )

  function Init(n: nat): Pool {
    Pool(seq(n, i => Checking), [], false, false, 0, [], [], [])
  }

  datatype Op =
    | OpEnqueue(task: nat)
    | OpNotifyOne(w: nat)
    | OpCheck(w: nat)
    | OpBlock(w: nat)
    | OpSpurious(w: nat)
    | OpFinish(w: nat)
    | OpStop
    | OpNotifyAll

  predicate MutexFree(p: Pool) {
    Deciding !in p.workers
  }

  predicate At(p: Pool, w: nat, x: Worker) {
    w < |p.workers| && p.workers[w] == x
  }

  /** notify_one wakes a blocked worker, any of them, and does nothing only if there is none. */
  predicate Enabled(locked: bool, p: Pool, op: Op) {
    match op
    case OpEnqueue(_) => MutexFree(p)
    case OpNotifyOne(w) => p.pending > 0 && (Blocked in p.workers ==> At(p, w, Blocked))
    case OpCheck(w) => At(p, w, Checking) && MutexFree(p)
    case OpBlock(w) => At(p, w, Deciding)
    case OpSpurious(w) => At(p, w, Blocked)
    case OpFinish(w) => w < |p.workers| && p.workers[w].Running?
    case OpStop => !p.stop && (locked ==> MutexFree(p))
    case OpNotifyAll => p.stop && !p.told
  }

  /** enqueue: nothing is accepted after the stop. */
  function Enqueue(p: Pool, task: nat): Pool {
    if p.stop then p
    else p.(tasks := p.tasks + [task], accepted := p.accepted + [task], pending := p.pending + 1)
  }

  function NotifyOne(p: Pool, w: nat): Pool
    requires p.pending > 0
  {
    p.(workers := if At(p, w, Blocked) then p.workers[w := Checking] else p.workers, pending := p.pending - 1)
  }

  /** A worker with the mutex: nothing to do, time to leave, or the oldest task. */
  function Check(p: Pool, w: nat): Pool
    requires w < |p.workers|
  {
    if p.tasks == [] then p.(workers := p.workers[w := if p.stop then Exited else Deciding])
    else p.(workers := p.workers[w := Running(p.tasks[0])], tasks := p.tasks[1..], started := p.started + [p.tasks[0]])
  }

  function Finish(p: Pool, w: nat): Pool
    requires w < |p.workers| && p.workers[w].Running?
  {
    p.(workers := p.workers[w := Checking], finished := p.finished + [p.workers[w].task])
  }

  function Woken(ws: seq<Worker>): (r: seq<Worker>)
    ensures |r| == |ws|
    ensures forall i :: 0 <= i < |ws| ==> r[i] == if ws[i] == Blocked then Checking else ws[i]
  {
    if ws == [] then [] else [if ws[0] == Blocked then Checking else ws[0]] + Woken(ws[1..])
  }

  function NotifyAll(p: Pool): Pool {
    p.(workers := Woken(p.workers), told := true)
  }

  function Move(p: Pool, w: nat, x: Worker): Pool
    requires w < |p.workers|
  {
    p.(workers := p.workers[w := x])
  }

  function Step(locked: bool, p: Pool, op: Op): Pool {
    if !Enabled(locked, p, op) then p
    else match op
      case OpEnqueue(task) => Enqueue(p, task)
      case OpNotifyOne(w) => NotifyOne(p, w)
      case OpCheck(w) => Check(p, w)
      case OpBlock(w) => Move(p, w, Blocked)
      case OpSpurious(w) => Move(p, w, Checking)
      case OpFinish(w) => Finish(p, w)
      case OpStop => p.(stop := true)
      case OpNotifyAll => NotifyAll(p)
  }

  function Run(locked: bool, p: Pool, ops: seq<Op>): Pool
    decreases |ops|
  {
    if ops == [] then p else Run(locked, Step(locked, p, ops[0]), ops[1..])
  }

  lemma {:induction false} RunSnoc(locked: bool, p: Pool, ops: seq<Op>, op: Op)
    ensures Run(locked, p, ops + [op]) == Step(locked, Run(locked, p, ops), op)
    decreases |ops|
  {
    hide Step;
    if ops == [] {
      assert [op][1..] == [] && ops + [op] == [op];
    } else {
      assert (ops + [op])[1..] == ops[1..] + [op];
      RunSnoc(locked, Step(locked, p, ops[0]), ops[1..], op);
    }
  }

  // ---------- counting workers ----------

  function Sum(ws: seq<Worker>, f: Worker -> nat): nat {
    if ws == [] then 0 else f(ws[0]) + Sum(ws[1..], f)
  }

  lemma {:induction false} SumUpdate(ws: seq<Worker>, w: nat, x: Worker, f: Worker -> nat)
    requires w < |ws|
    ensures Sum(ws[w := x], f) + f(ws[w]) == Sum(ws, f) + f(x)
    decreases |ws|
  {
    if w == 0 {
      assert ws[w := x][1..] == ws[1..];
    } else {
      assert ws[w := x][1..] == ws[1..][w - 1 := x];
      SumUpdate(ws[1..], w - 1, x, f);
    }
  }

  const AWAKE: Worker -> nat := (x: Worker) => if x == Checking then 1 else 0

  /** The task a worker runs, and the tasks being run. */
  function Carried(x: Worker): multiset<nat> {
    if x.Running? then multiset{x.task} else multiset{}
  }

  function InFlight(ws: seq<Worker>): multiset<nat> {
    if ws == [] then multiset{} else Carried(ws[0]) + InFlight(ws[1..])
  }

  lemma {:induction false} InFlightUpdate(ws: seq<Worker>, w: nat, x: Worker)
    requires w < |ws|
    ensures InFlight(ws[w := x]) + Carried(ws[w]) == InFlight(ws) + Carried(x)
    decreases |ws|
  {
    hide Carried;
    if w == 0 {
      assert ws[w := x][1..] == ws[1..];
      assert Carried(x) + InFlight(ws[1..]) + Carried(ws[0]) == Carried(ws[0]) + InFlight(ws[1..]) + Carried(x);
    } else {
      var rest := InFlight(ws[1..][w - 1 := x]);
      assert ws[w := x][1..] == ws[1..][w - 1 := x];
      InFlightUpdate(ws[1..], w - 1, x);
      assert Carried(ws[0]) + rest + Carried(ws[w]) == Carried(ws[0]) + (rest + Carried(ws[w]));
      assert Carried(ws[0]) + (InFlight(ws[1..]) + Carried(x)) == Carried(ws[0]) + InFlight(ws[1..]) + Carried(x);
    }
  }

  lemma {:induction false} NoneInFlight(ws: seq<Worker>)
    requires forall i :: 0 <= i < |ws| ==> !ws[i].Running?
    ensures InFlight(ws) == multiset{}
    decreases |ws|
  {
    if ws != [] {
      NoneInFlight(ws[1..]);
    }
  }

  lemma {:induction false} WokenInFlight(ws: seq<Worker>)
    ensures InFlight(Woken(ws)) == InFlight(ws)
    decreases |ws|
  {
    if ws != [] {
      assert Woken(ws)[1..] == Woken(ws[1..]);
      WokenInFlight(ws[1..]);
    }
  }

  // ---------- what every step keeps ----------

  /** Tasks start in the order in which they were accepted, none twice; those started are finished or being run. */
  ghost predicate Conserved(p: Pool) {
    && p.accepted == p.started + p.tasks
    && multiset(p.started) == multiset(p.finished) + InFlight(p.workers)
  }

  /** A worker leaves only a stopped and empty pool; a worker that saw nothing to do is right about the queue as long
      as it holds the mutex. */
  ghost predicate Exact(p: Pool) {
    && (Exited in p.workers ==> p.stop && p.tasks == [])
    && (Deciding in p.workers ==> p.tasks == [])
    && (p.told ==> p.stop)
  }

  /** No lost wake-up: while a worker sleeps, every queued task has a notification to come or a worker about to look. */
  ghost predicate Attended(p: Pool) {
    Blocked in p.workers ==> |p.tasks| <= p.pending + Sum(p.workers, AWAKE)
  }

  ghost predicate Inv(p: Pool) {
    Conserved(p) && Exact(p) && Attended(p)
  }

  lemma InitInv(n: nat)
    ensures Inv(Init(n))
  {
    NoneInFlight(Init(n).workers);
  }

  /** What a move of one worker does to the sums. */
  lemma MoveSums(ws: seq<Worker>, w: nat, x: Worker)
    requires w < |ws|
    ensures Sum(ws[w := x], AWAKE) + AWAKE(ws[w]) == Sum(ws, AWAKE) + AWAKE(x)
    ensures forall y :: y in ws[w := x] ==> y == x || y in ws
  {
    SumUpdate(ws, w, x, AWAKE);
  }

  /** The multisets when a worker takes up or puts down a task. */
  lemma MoveCarries(p: Pool, w: nat, x: Worker, started: seq<nat>, finished: seq<nat>)
    requires Conserved(p) && w < |p.workers|
    requires multiset(started) + Carried(p.workers[w]) + multiset(p.finished) ==
             multiset(p.started) + Carried(x) + multiset(finished)
    ensures multiset(started) == multiset(finished) + InFlight(p.workers[w := x])
  {
    hide Carried, InFlight;
    InFlightUpdate(p.workers, w, x);
    var old', new' := InFlight(p.workers), InFlight(p.workers[w := x]);
    forall t
      ensures multiset(started)[t] == (multiset(finished) + new')[t]
    {
      assert (new' + Carried(p.workers[w]))[t] == (old' + Carried(x))[t];
      assert multiset(p.started)[t] == (multiset(p.finished) + old')[t];
      assert (multiset(started) + Carried(p.workers[w]) + multiset(p.finished))[t] ==
             (multiset(p.started) + Carried(x) + multiset(finished))[t];
    }
  }

  lemma IdleKeepsInv(p: Pool, w: nat)
    requires Inv(p) && At(p, w, Checking) && MutexFree(p) && p.tasks == []
    ensures Inv(Check(p, w))
  {
    var x := if p.stop then Exited else Deciding;
    MoveSums(p.workers, w, x);
    MoveCarries(p, w, x, p.started, p.finished);
  }

  lemma TakeKeepsInv(p: Pool, w: nat)
    requires Inv(p) && At(p, w, Checking) && MutexFree(p) && p.tasks != []
    ensures Inv(Check(p, w))
  {
    hide Sum, InFlight;
    var t := p.tasks[0];
    MoveSums(p.workers, w, Running(t));
    assert multiset(p.started + [t]) == multiset(p.started) + multiset{t};
    MoveCarries(p, w, Running(t), p.started + [t], p.finished);
    assert p.started + ([t] + p.tasks[1..]) == p.started + [t] + p.tasks[1..];
    assert p.tasks == [t] + p.tasks[1..];
    assert Conserved(Check(p, w));
    assert Exact(Check(p, w));
  }

  lemma CheckKeepsInv(p: Pool, w: nat)
    requires Inv(p) && At(p, w, Checking) && MutexFree(p)
    ensures Inv(Check(p, w))
  {
    if p.tasks == [] {
      IdleKeepsInv(p, w);
    } else {
      TakeKeepsInv(p, w);
    }
  }

  lemma MoveKeepsInv(p: Pool, w: nat, x: Worker)
    requires Inv(p) && w < |p.workers|
    requires (p.workers[w] == Deciding && x == Blocked) || (p.workers[w] == Blocked && x == Checking)
    ensures Inv(Move(p, w, x))
  {
    MoveSums(p.workers, w, x);
    MoveCarries(p, w, x, p.started, p.finished);
  }

  lemma FinishKeepsInv(p: Pool, w: nat)
    requires Inv(p) && w < |p.workers| && p.workers[w].Running?
    ensures Inv(Finish(p, w))
  {
    MoveSums(p.workers, w, Checking);
    MoveCarries(p, w, Checking, p.started, p.finished + [p.workers[w].task]);
  }

  lemma NotifyOneKeepsInv(p: Pool, w: nat)
    requires Inv(p) && p.pending > 0 && (Blocked in p.workers ==> At(p, w, Blocked))
    ensures Inv(NotifyOne(p, w))
  {
    if At(p, w, Blocked) {
      MoveSums(p.workers, w, Checking);
      MoveCarries(p, w, Checking, p.started, p.finished);
    }
  }

  lemma NotifyAllKeepsInv(p: Pool)
    requires Inv(p) && p.stop
    ensures Inv(NotifyAll(p))
  {
    WokenInFlight(p.workers);
    forall x | x in Woken(p.workers)
      ensures x != Blocked && (x in p.workers || x == Checking)
    {
    }
  }

  lemma EnqueueKeepsInv(p: Pool, task: nat)
    requires Inv(p) && MutexFree(p)
    ensures Inv(Enqueue(p, task))
  {
    assert p.started + (p.tasks + [task]) == p.started + p.tasks + [task];
  }

  lemma StepKeepsInv(locked: bool, p: Pool, op: Op)
    requires Inv(p)
    ensures Inv(Step(locked, p, op))
  {
    hide Check, Finish, NotifyOne, NotifyAll, Enqueue;
    if Enabled(locked, p, op) {
      match op
      case OpEnqueue(task) => EnqueueKeepsInv(p, task);
      case OpNotifyOne(w) => NotifyOneKeepsInv(p, w);
      case OpCheck(w) => CheckKeepsInv(p, w);
      case OpBlock(w) => MoveKeepsInv(p, w, Blocked);
      case OpSpurious(w) => MoveKeepsInv(p, w, Checking);
      case OpFinish(w) => FinishKeepsInv(p, w);
      case OpStop =>
      case OpNotifyAll => NotifyAllKeepsInv(p);
    }
  }

  lemma {:induction false} RunKeepsInv(locked: bool, p: Pool, ops: seq<Op>)
    requires Inv(p)
    ensures Inv(Run(locked, p, ops))
    decreases |ops|
  {
    if ops != [] {
      StepKeepsInv(locked, p, ops[0]);
      RunKeepsInv(locked, Step(locked, p, ops[0]), ops[1..]);
    }
  }

  // ---------- over every run ----------

  /** Accepted is started, in order, plus queued; started is finished plus being run. */
  lemma TasksAreConserved(locked: bool, n: nat, ops: seq<Op>)
    ensures var p := Run(locked, Init(n), ops);
            p.accepted == p.started + p.tasks && multiset(p.started) == multiset(p.finished) + InFlight(p.workers)
  {
    InitInv(n);
    RunKeepsInv(locked, Init(n), ops);
  }

  /** The stop flag has been set by one of these steps. */
  ghost predicate StopTaken(locked: bool, n: nat, ops: seq<Op>) {
    exists i :: StopsAt(locked, n, ops, i)
  }

  predicate StopsAt(locked: bool, n: nat, ops: seq<Op>, i: nat) {
    i < |ops| && ops[i] == OpStop && (locked ==> MutexFree(Run(locked, Init(n), ops[..i])))
  }

  /** The reference: the tasks of the enqueues that got the mutex before the stop, in order. */
  ghost function Enqueued(locked: bool, n: nat, ops: seq<Op>): seq<nat> {
    if ops == [] then []
    else
      var before, op := ops[..|ops| - 1], ops[|ops| - 1];
      var took := op.OpEnqueue? && MutexFree(Run(locked, Init(n), before)) && !StopTaken(locked, n, before);
      Enqueued(locked, n, before) + if took then [op.task] else []
  }

  lemma Snoc(locked: bool, n: nat, ops: seq<Op>)
    requires ops != []
    ensures Run(locked, Init(n), ops) == Step(locked, Run(locked, Init(n), ops[..|ops| - 1]), ops[|ops| - 1])
  {
    hide Step, Init;
    assert ops == ops[..|ops| - 1] + [ops[|ops| - 1]];
    RunSnoc(locked, Init(n), ops[..|ops| - 1], ops[|ops| - 1]);
  }

  lemma {:induction false} StoppedIff(locked: bool, n: nat, ops: seq<Op>)
    ensures Run(locked, Init(n), ops).stop <==> StopTaken(locked, n, ops)
    decreases |ops|
  {
    if ops != [] {
      var last := |ops| - 1;
      var before := ops[..last];
      Snoc(locked, n, ops);
      StoppedIff(locked, n, before);
      hide Run;
      forall i: nat | i < last
        ensures StopsAt(locked, n, ops, i) <==> StopsAt(locked, n, before, i)
      {
        assert ops[..i] == before[..i];
      }
      assert StopsAt(locked, n, ops, last) <==>
        ops[last] == OpStop && (locked ==> MutexFree(Run(locked, Init(n), before)));
    }
  }

  /** What the pool accepts is what was enqueued before the stop, all of it and in that order. */
  lemma {:induction false} AcceptedIsEnqueued(locked: bool, n: nat, ops: seq<Op>)
    ensures Run(locked, Init(n), ops).accepted == Enqueued(locked, n, ops)
    decreases |ops|
  {
    if ops != [] {
      var before := ops[..|ops| - 1];
      Snoc(locked, n, ops);
      StoppedIff(locked, n, before);
      AcceptedIsEnqueued(locked, n, before);
      hide Run, StopTaken, MutexFree;
      AcceptedStep(locked, Run(locked, Init(n), before), ops[|ops| - 1]);
    }
  }

  lemma AcceptedStep(locked: bool, p: Pool, op: Op)
    ensures Step(locked, p, op).accepted ==
            p.accepted + if op.OpEnqueue? && MutexFree(p) && !p.stop then [op.task] else []
    ensures p.accepted <= Step(locked, p, op).accepted
  {
    hide MutexFree;
  }

  /** So at every moment the tasks enqueued are, in that order, those started and those queued; and each as often as it
      was enqueued it is queued, being run, or finished. */
  lemma EnqueuedIsKept(locked: bool, n: nat, ops: seq<Op>)
    ensures var p := Run(locked, Init(n), ops);
            && Enqueued(locked, n, ops) == p.started + p.tasks
            && multiset(Enqueued(locked, n, ops)) == multiset(p.tasks) + InFlight(p.workers) + multiset(p.finished)
  {
    hide Run, Enqueued, InFlight;
    AcceptedIsEnqueued(locked, n, ops);
    TasksAreConserved(locked, n, ops);
    var p := Run(locked, Init(n), ops);
    assert multiset(p.started + p.tasks) == multiset(p.started) + multiset(p.tasks);
  }

  lemma {:induction false} AcceptedGrows(locked: bool, p: Pool, ops: seq<Op>)
    ensures p.accepted <= Run(locked, p, ops).accepted
    decreases |ops|
  {
    hide Step;
    if ops != [] {
      AcceptedStep(locked, p, ops[0]);
      AcceptedGrows(locked, Step(locked, p, ops[0]), ops[1..]);
    }
  }

  lemma {:induction false} RunJoins(locked: bool, p: Pool, xs: seq<Op>, ys: seq<Op>)
    ensures Run(locked, p, xs + ys) == Run(locked, Run(locked, p, xs), ys)
    decreases |xs|
  {
    hide Step;
    if xs == [] {
      assert xs + ys == ys;
    } else {
      assert (xs + ys)[1..] == xs[1..] + ys;
      RunJoins(locked, Step(locked, p, xs[0]), xs[1..], ys);
    }
  }

  /** A task that was taken by an enqueue is queued, being run, or finished from then on. */
  lemma TakenIsNeverLost(locked: bool, n: nat, ops: seq<Op>, task: nat, more: seq<Op>)
    requires MutexFree(Run(locked, Init(n), ops)) && !StopTaken(locked, n, ops)
    ensures var p := Run(locked, Init(n), ops + [OpEnqueue(task)] + more);
            task in p.tasks || task in InFlight(p.workers) || task in p.finished
  {
    hide Run, Enqueued, InFlight, StopTaken, MutexFree;
    var now := ops + [OpEnqueue(task)];
    assert now[..|now| - 1] == ops && now[|now| - 1] == OpEnqueue(task);
    StoppedIff(locked, n, ops);
    Snoc(locked, n, now);
    AcceptedStep(locked, Run(locked, Init(n), ops), OpEnqueue(task));
    RunJoins(locked, Init(n), now, more);
    AcceptedGrows(locked, Run(locked, Init(n), now), more);
    AcceptedIsEnqueued(locked, n, now + more);
    EnqueuedIsKept(locked, n, now + more);
    var p := Run(locked, Init(n), now + more);
    assert task in Run(locked, Init(n), now).accepted;
    assert task in p.accepted;
    assert task in multiset(p.accepted);
  }

  /** How often notify_one has been called. */
  function Notified(locked: bool, n: nat, ops: seq<Op>): nat {
    if ops == [] then 0
    else
      var before, op := ops[..|ops| - 1], ops[|ops| - 1];
      Notified(locked, n, before) +
      if op.OpNotifyOne? && Enabled(locked, Run(locked, Init(n), before), op) then 1 else 0
  }

  /** Each task enqueued is notified once: by now, or by a call still to come. */
  lemma {:induction false} NotifiedOnceEach(locked: bool, n: nat, ops: seq<Op>)
    ensures |Enqueued(locked, n, ops)| == Notified(locked, n, ops) + Run(locked, Init(n), ops).pending
    decreases |ops|
  {
    AcceptedIsEnqueued(locked, n, ops);
    if ops != [] {
      var before := ops[..|ops| - 1];
      Snoc(locked, n, ops);
      NotifiedOnceEach(locked, n, before);
      AcceptedIsEnqueued(locked, n, before);
      hide Run, Enqueued, MutexFree;
      PendingStep(locked, Run(locked, Init(n), before), ops[|ops| - 1]);
    }
  }

  lemma PendingStep(locked: bool, p: Pool, op: Op)
    ensures var p1 := Step(locked, p, op);
            p1.pending + (if op.OpNotifyOne? && Enabled(locked, p, op) then 1 else 0) - p.pending ==
            |p1.accepted| - |p.accepted|
  {
    hide MutexFree;
  }

  lemma {:induction false} WorkersStay(locked: bool, p: Pool, ops: seq<Op>)
    ensures |Run(locked, p, ops).workers| == |p.workers|
    decreases |ops|
  {
    if ops != [] {
      WorkersStay(locked, Step(locked, p, ops[0]), ops[1..]);
    }
  }

  /** When all workers have left, and there were any, every task accepted has finished. */
  lemma DrainedWhenJoined(locked: bool, n: nat, ops: seq<Op>)
    requires n > 0
    requires forall w :: 0 <= w < n ==> At(Run(locked, Init(n), ops), w, Exited)
    ensures var p := Run(locked, Init(n), ops);
            p.tasks == [] && multiset(p.finished) == multiset(p.accepted)
  {
    InitInv(n);
    RunKeepsInv(locked, Init(n), ops);
    WorkersStay(locked, Init(n), ops);
    var p := Run(locked, Init(n), ops);
    assert At(p, 0, Exited);
    forall w | 0 <= w < n
      ensures p.workers[w] == Exited
    {
      assert At(p, w, Exited);
    }
    NoneInFlight(p.workers);
  }

  /** No worker sleeps beside work that nobody is going to look at. */
  lemma NoTaskIsForgotten(locked: bool, n: nat, ops: seq<Op>)
    ensures var p := Run(locked, Init(n), ops);
            Blocked in p.workers && p.tasks != [] ==> p.pending > 0 || Checking in p.workers
    ensures var p := Run(locked, Init(n), ops);
            Blocked in p.workers ==> |p.tasks| <= p.pending + Sum(p.workers, AWAKE)
  {
    InitInv(n);
    RunKeepsInv(locked, Init(n), ops);
    NoneAwake(Run(locked, Init(n), ops).workers);
  }

  lemma {:induction false} NoneAwake(ws: seq<Worker>)
    ensures Checking !in ws ==> Sum(ws, AWAKE) == 0
    decreases |ws|
  {
    if ws != [] {
      NoneAwake(ws[1..]);
    }
  }

  // ---------- the stop ----------

  /** A worker sleeps although notify_all has been and no notification is to come: the join waits for it. */
  predicate Overslept(p: Pool, w: nat) {
    p.told && p.pending == 0 && At(p, w, Blocked)
  }

  lemma OversleptStep(locked: bool, p: Pool, w: nat, op: Op)
    requires p.stop && Overslept(p, w) && op != OpSpurious(w)
    ensures Step(locked, p, op).stop && Overslept(Step(locked, p, op), w)
  {
  }

  /** Only a spurious wake-up of that very worker could help. */
  lemma {:induction false} OversleptForGood(locked: bool, p: Pool, w: nat, ops: seq<Op>)
    requires p.stop && Overslept(p, w) && OpSpurious(w) !in ops
    ensures Overslept(Run(locked, p, ops), w)
    decreases |ops|
  {
    hide Step, Overslept;
    if ops != [] {
      OversleptStep(locked, p, w, ops[0]);
      OversleptForGood(locked, Step(locked, p, ops[0]), w, ops[1..]);
    }
  }

  lemma {:induction false} StaysUp(locked: bool, p: Pool, w: nat, ops: seq<Op>)
    requires p.stop && w < |p.workers| && p.workers[w] !in {Deciding, Blocked}
    ensures |Run(locked, p, ops).workers| == |p.workers| && Run(locked, p, ops).workers[w] !in {Deciding, Blocked}
    decreases |ops|
  {
    if ops != [] {
      StaysUp(locked, Step(locked, p, ops[0]), w, ops[1..]);
    }
  }

  predicate ComesTo(locked: bool, p: Pool, ops: seq<Op>, w: nat) {
    At(Run(locked, p, ops), w, Blocked)
  }

  /** A worker can be found blocked after notify_all exactly if it had seen nothing to do, and not yet blocked, when
      notify_all came. */
  lemma BlocksAfterStopIffDeciding(locked: bool, p: Pool, w: nat)
    requires Inv(p) && Enabled(locked, p, OpNotifyAll) && w < |p.workers|
    ensures (exists ops :: ComesTo(locked, NotifyAll(p), ops, w)) <==> p.workers[w] == Deciding
  {
    var p1 := NotifyAll(p);
    if p.workers[w] == Deciding {
      var ops := [OpBlock(w)];
      assert Run(locked, p1, ops) == Run(locked, Step(locked, p1, ops[0]), ops[1..]) == Step(locked, p1, ops[0]);
      assert ComesTo(locked, p1, ops, w);
    } else {
      forall ops
        ensures !ComesTo(locked, p1, ops, w)
      {
        StaysUp(locked, p1, w, ops);
      }
    }
  }

  /** What holds when the destructor sets the flag under the mutex. */
  ghost predicate StopsClean(p: Pool) {
    (p.stop ==> MutexFree(p)) && (p.told ==> p.stop && Blocked !in p.workers)
  }

  lemma {:induction false} LockedStopsClean(p: Pool, ops: seq<Op>)
    requires StopsClean(p)
    ensures StopsClean(Run(true, p, ops))
    decreases |ops|
  {
    if ops != [] {
      LockedStep(p, ops[0]);
      LockedStopsClean(Step(true, p, ops[0]), ops[1..]);
    }
  }

  lemma LockedStep(p: Pool, op: Op)
    requires StopsClean(p)
    ensures StopsClean(Step(true, p, op))
  {
    if Enabled(true, p, op) {
      forall x | x in Step(true, p, op).workers
        ensures x == Deciding ==> x in p.workers || !p.stop
        ensures x == Blocked ==> !op.OpNotifyAll? && (x in p.workers || (op.OpBlock? && Deciding in p.workers))
      {
      }
    }
  }

  predicate Oversleeps(locked: bool, n: nat, ops: seq<Op>, w: nat) {
    Overslept(Run(locked, Init(n), ops), w)
  }

  /** No worker ever oversleeps exactly if the flag is set under the mutex. */
  lemma NeverOversleptIffLocked(locked: bool)
    ensures (forall n: nat, ops, w: nat :: !Oversleeps(locked, n, ops, w)) <==> locked
  {
    if locked {
      forall n: nat, ops, w: nat
        ensures !Oversleeps(locked, n, ops, w)
      {
        LockedStopsClean(Init(n), ops);
      }
    } else {
      OversleepHappens();
      assert Oversleeps(false, 1, OVERSLEEPING, 0);
    }
  }

  const OVERSLEEPING := [OpCheck(0), OpStop, OpNotifyAll, OpBlock(0)]

  lemma OversleepHappens()
    ensures Overslept(Run(false, Init(1), OVERSLEEPING), 0)
  {
    var p0 := Init(1);
    var p1 := Step(false, p0, OpCheck(0));
    var p2 := Step(false, p1, OpStop);
    var p3 := Step(false, p2, OpNotifyAll);
    var p4 := Step(false, p3, OpBlock(0));
    assert Overslept(p4, 0);
    var ops := OVERSLEEPING;
    assert ops[1..][1..] == ops[2..] && ops[2..][1..] == ops[3..] && ops[3..][1..] == [];
    assert Run(false, p0, ops) == Run(false, p1, ops[1..]) == Run(false, p2, ops[2..]) == Run(false, p3, ops[3..]);
    assert Run(false, p3, ops[3..]) == Run(false, p4, []);
  }

  // ---------- shutdown ends ----------

  const LOAD: Worker -> nat :=
    (x: Worker) => match x case Exited => 0 case Checking => 1 case Running(_) => 2 case Blocked => 2 case Deciding => 3

  /** An upper bound on the steps left after notify_all. */
  function Left(p: Pool): nat {
    2 * |p.tasks| + Sum(p.workers, LOAD) + p.pending
  }

  /** Steps that take place, none of them a refused enqueue. */
  ghost predicate Effective(locked: bool, p: Pool, ops: seq<Op>)
    decreases |ops|
  {
    ops == [] ||
    (Enabled(locked, p, ops[0]) && !ops[0].OpEnqueue? && Effective(locked, Step(locked, p, ops[0]), ops[1..]))
  }

  lemma StepUsesUp(locked: bool, p: Pool, op: Op)
    requires p.stop && p.told && Enabled(locked, p, op) && !op.OpEnqueue?
    ensures Left(Step(locked, p, op)) < Left(p)
  {
    match op
    case OpNotifyOne(w) => if At(p, w, Blocked) { SumUpdate(p.workers, w, Checking, LOAD); }
    case OpCheck(w) => SumUpdate(p.workers, w, Check(p, w).workers[w], LOAD);
    case OpBlock(w) => SumUpdate(p.workers, w, Blocked, LOAD);
    case OpSpurious(w) => SumUpdate(p.workers, w, Checking, LOAD);
    case OpFinish(w) => SumUpdate(p.workers, w, Checking, LOAD);
    case _ =>
  }

  lemma {:induction false} ShutdownEnds(locked: bool, p: Pool, ops: seq<Op>)
    requires p.stop && p.told && Effective(locked, p, ops)
    ensures |ops| <= Left(p)
    decreases |ops|
  {
    if ops != [] {
      StepUsesUp(locked, p, ops[0]);
      ShutdownEnds(locked, Step(locked, p, ops[0]), ops[1..]);
    }
  }

  /** Where it ends each worker has left or has overslept, and with the flag set under the mutex all have left. */
  lemma ShutdownJoins(locked: bool, p: Pool)
    requires Inv(p) && p.told
    requires forall op :: Enabled(locked, p, op) ==> op.OpEnqueue? || op.OpSpurious?
    ensures forall w :: 0 <= w < |p.workers| ==> At(p, w, Exited) || Overslept(p, w)
    ensures StopsClean(p) ==> forall w :: 0 <= w < |p.workers| ==> At(p, w, Exited)
  {
    forall w | 0 <= w < |p.workers|
      ensures At(p, w, Exited) || Overslept(p, w)
    {
      if p.pending > 0 {
        var v: nat := if Blocked in p.workers then Place(p.workers, Blocked) else 0;
        assert Enabled(locked, p, OpNotifyOne(v));
      }
      if Deciding in p.workers {
        assert Enabled(locked, p, OpBlock(Place(p.workers, Deciding)));
      }
      assert !Enabled(locked, p, OpCheck(w)) && !Enabled(locked, p, OpFinish(w));
    }
  }

  ghost function Place(ws: seq<Worker>, x: Worker): (i: nat)
    requires x in ws
    ensures i < |ws| && ws[i] == x
  {
    var i :| 0 <= i < |ws| && ws[i] == x;
    i
  }
}
