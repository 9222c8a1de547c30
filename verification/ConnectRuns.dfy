/** A connection over whole runs, against references that look at the operations alone: what is read, what is sent, what
the last delivery says, and when it is closed. */
module ConnectRuns {
  import opened EdnDefine
  import opened ConnectSpec

  // ---------- reading ----------

  /** READ is wanted, or a read callback is running or to come, for as long as the connection is open. */
  predicate Listening(s: Conn) {
    s.closed || s.events.read || Readers(s) > 0
  }

  lemma StepKeepsListening(restore: bool, s: Conn, op: Op)
    requires Listening(s)
    ensures Listening(Step(restore, s, op))
  {
    hide Interest, Deliverable;
    match op
    case OpDeliver(ready) => DeliveryKeepsListening(restore, s, ready);
    case OpHandler =>
    case OpWrite(k, failed) => WriteKeepsListening(restore, s, k, failed);
    case _ => OthersKeepListening(restore, s, op);
  }

  lemma DeliveryKeepsListening(restore: bool, s: Conn, ready: Ready)
    requires Listening(s)
    ensures Listening(Step(restore, s, OpDeliver(ready)))
  {
    hide Deliverable;
  }

  lemma WriteKeepsListening(restore: bool, s: Conn, k: nat, failed: bool)
    requires Listening(s)
    ensures Listening(Step(restore, s, OpWrite(k, failed)))
  {
    hide Interest;
  }

  lemma OthersKeepListening(restore: bool, s: Conn, op: Op)
    requires Listening(s) && !op.OpDeliver? && !op.OpHandler? && !op.OpWrite?
    ensures Listening(Step(restore, s, op))
  {
    hide Interest;
  }

  lemma {:induction false} RunKeepsListening(restore: bool, s: Conn, ops: seq<Op>)
    requires Listening(s)
    ensures Listening(Run(restore, s, ops))
    decreases |ops|
  {
    hide Step, Listening;
    if ops != [] {
      StepKeepsListening(restore, s, ops[0]);
      RunKeepsListening(restore, Step(restore, s, ops[0]), ops[1..]);
    }
  }

  /** Over every run, an open connection reads, is about to, or wants to; with nothing outstanding the kernel is asked
      for bytes and for the peer's shutdown, once each, and can report anything, writability if that is wanted. */
  lemma NeverDeaf(restore: bool, ops: seq<Op>)
    ensures var s := Run(restore, Init(), ops);
            && Listening(s)
            && (!s.closed && Quiet(s) ==>
                  && s.mask == Some(Mask(true, s.events.write, true, true, true))
                  && forall ready :: Deliverable(s, ready) <==>
                       ready != Ready(false, false, false, false, false) && (ready.wr ==> s.events.write))
  {
    InitInv();
    RunKeepsInv(restore, Init(), ops);
    RunKeepsListening(restore, Init(), ops);
    var s := Run(restore, Init(), ops);
    QuietIsAsked(s);
  }

  lemma QuietIsAsked(s: Conn)
    requires Inv(s) && Listening(s)
    ensures !s.closed && Quiet(s) ==>
              && s.mask == Some(Mask(true, s.events.write, true, true, true))
              && forall ready :: Deliverable(s, ready) <==>
                   ready != Ready(false, false, false, false, false) && (ready.wr ==> s.events.write)
  {
  }

  /** Whatever is asked for comes with the peer's shutdown, edge-triggered, and once. */
  predicate Watched(s: Conn) {
    s.mask.Some? && (s.mask.value.rd || s.mask.value.wr) ==>
      s.mask.value.rdhup && s.mask.value.oneshot && s.mask.value.edge
  }

  lemma {:induction false} ArmedIsWatched(restore: bool, s: Conn, ops: seq<Op>)
    requires Inv(s) && Watched(s)
    ensures Watched(Run(restore, s, ops))
    decreases |ops|
  {
    if ops != [] {
      StepKeepsInv(restore, s, ops[0]);
      StepKeepsWatched(restore, s, ops[0]);
      hide Step, Inv, Watched;
      ArmedIsWatched(restore, Step(restore, s, ops[0]), ops[1..]);
    }
  }

  lemma StepKeepsWatched(restore: bool, s: Conn, op: Op)
    requires Inv(s) && Watched(s)
    ensures Watched(Step(restore, s, op))
  {
    hide Deliverable;
    EdgeIsWanted(s);
    hide Inv;
    match op
    case OpDeliver(ready) =>
    case OpWrite(k, failed) => WriteKeepsWatched(restore, s, k, failed);
    case OpSend(n, room) => SendKeepsWatched(restore, s, n, room);
    case _ =>
  }

  lemma WriteKeepsWatched(restore: bool, s: Conn, k: nat, failed: bool)
    requires s.events.et && !s.events.signal && Watched(s)
    ensures Watched(Step(restore, s, OpWrite(k, failed)))
  {
    hide Add, OnWrite, Watched;
    if s.writeTasks > 0 {
      var s1 := s.(writeTasks := s.writeTasks - 1);
      SameMaskWatched(s, s1);
      OnWriteKeepsWatched(s1, k, failed, restore);
      AddIsWatched(OnWrite(s1, k, failed, restore));
    }
  }

  lemma SameMaskWatched(s: Conn, t: Conn)
    requires Watched(s) && t.mask == s.mask
    ensures Watched(t)
  {
  }

  lemma OnWriteKeepsWatched(s: Conn, k: nat, failed: bool, restore: bool)
    requires Watched(s)
    ensures var t := OnWrite(s, k, failed, restore);
            Watched(t) && t.events.et == s.events.et && t.events.signal == s.events.signal
  {
  }

  lemma AddIsWatched(s: Conn)
    requires s.events.et && !s.events.signal && Watched(s)
    ensures Watched(Add(s))
  {
  }

  lemma SendKeepsWatched(restore: bool, s: Conn, n: nat, room: bool)
    requires s.events.et && !s.events.signal && Watched(s)
    ensures Watched(Step(restore, s, OpSend(n, room)))
  {
  }

  lemma EdgeIsWanted(s: Conn)
    requires Inv(s)
    ensures s.events.et && !s.events.signal
  {
  }

  /** After a delivery to an armed connection nothing is delivered before it is registered anew. */
  lemma DeliveryDisarms(s: Conn, ready: Ready, again: Ready)
    requires Watched(s) && Deliverable(s, ready) && (s.mask.value.rd || s.mask.value.wr)
    ensures !Deliverable(Deliver(s, ready), again)
  {
  }

  // ---------- the last delivery ----------

  /** What was delivered last; the reference looks only at which deliveries took place. */
  function LastDelivered(restore: bool, ops: seq<Op>): Option<Ready> {
    if ops == [] then None
    else
      var before, op := ops[..|ops| - 1], ops[|ops| - 1];
      if op.OpDeliver? && Enabled(Run(restore, Init(), before), op) then Some(op.ready)
      else LastDelivered(restore, before)
  }

  lemma Snoc(restore: bool, ops: seq<Op>)
    requires ops != []
    ensures var before, op := ops[..|ops| - 1], ops[|ops| - 1];
            Run(restore, Init(), ops) == Step(restore, Run(restore, Init(), before), op)
  {
    hide Step, Init;
    var before, op := ops[..|ops| - 1], ops[|ops| - 1];
    assert ops == before + [op];
    RunSnoc(restore, Init(), before, op);
  }

  /** The status of a connection says what was delivered last: an error, else a hang-up, else bytes, else space. */
  lemma {:induction false} StatusIsLastDelivered(restore: bool, ops: seq<Op>)
    ensures var s, last := Run(restore, Init(), ops), LastDelivered(restore, ops);
            if last.None? then s.status == Connecting
            else
              && last.value != Ready(false, false, false, false, false)
              && (s.status == Failed <==> last.value.err)
              && (s.status == Closing <==> !last.value.err && (last.value.hup || last.value.rdhup))
              && (s.status == Reading <==> !last.value.err && !last.value.hup && !last.value.rdhup && last.value.rd)
              && s.status in {Failed, Closing, Reading, Writing}
    decreases |ops|
  {
    if ops != [] {
      var before, op := ops[..|ops| - 1], ops[|ops| - 1];
      Snoc(restore, ops);
      StatusIsLastDelivered(restore, before);
      if !op.OpDeliver? {
        NoConnectOther(restore, Run(restore, Init(), before), op);
      }
    }
  }

  /** The peer is there as far as the last delivery tells. */
  predicate Usable(last: Option<Ready>) {
    last.Some? && !last.value.err && !last.value.hup && !last.value.rdhup
  }

  /** SendData takes the bytes exactly if there are some, the buffer has room, and the last delivery was of bytes or of
      space; whether or not WRITE is wanted already. Otherwise it changes nothing. */
  lemma SendTakesIff(restore: bool, ops: seq<Op>, n: nat, room: bool)
    ensures var s := Run(restore, Init(), ops);
            var t := SendData(s, n, room);
            if n > 0 && room && Usable(LastDelivered(restore, ops)) then t.out == s.out + n && t.events.write
            else t == s
  {
    hide Run, LastDelivered, SendData;
    StatusIsLastDelivered(restore, ops);
    SendTakes(Run(restore, Init(), ops), n, room);
  }

  lemma SendTakes(s: Conn, n: nat, room: bool)
    ensures var t := SendData(s, n, room);
            if n > 0 && room && s.status in {Connected, Reading, Writing} then t.out == s.out + n && t.events.write
            else t == s
  {
    hide Add;
    AddKeepsOut(s);
  }

  lemma AddKeepsOut(s: Conn)
    ensures forall out: nat, events :: var s1 := s.(out := out).(events := events);
              Add(s1).out == out && Add(s1).events == events
  {
  }

  // ---------- output bytes ----------

  /** Bytes that SendData took, and bytes that the socket took, over a run. */
  function Accepted(restore: bool, ops: seq<Op>): nat {
    if ops == [] then 0
    else
      var before, op := ops[..|ops| - 1], ops[|ops| - 1];
      Accepted(restore, before) +
      if op.OpSend? && !Run(restore, Init(), before).fault && op.room && Usable(LastDelivered(restore, before))
      then op.n else 0
  }

  function Sent(restore: bool, ops: seq<Op>): nat {
    if ops == [] then 0
    else
      var before, op := ops[..|ops| - 1], ops[|ops| - 1];
      var s := Run(restore, Init(), before);
      Sent(restore, before) +
      if op.OpWrite? && !op.failed && Enabled(s, op) then (if op.k < s.out then op.k else s.out) else 0
  }

  /** No byte is lost or made up between SendData and the socket. */
  lemma {:induction false} OutputIsCounted(restore: bool, ops: seq<Op>)
    ensures Run(restore, Init(), ops).out + Sent(restore, ops) == Accepted(restore, ops)
    decreases |ops|
  {
    hide Step, LastDelivered, Run;
    if ops == [] {
      NothingOut(restore);
    } else {
      var before, op := ops[..|ops| - 1], ops[|ops| - 1];
      Snoc(restore, ops);
      OutputIsCounted(restore, before);
      SendTakesIff(restore, before, if op.OpSend? then op.n else 0, op.OpSend? && op.room);
      OutStep(restore, Run(restore, Init(), before), op);
    }
  }

  lemma NothingOut(restore: bool)
    ensures Run(restore, Init(), []).out == 0
  {
  }

  lemma OutStep(restore: bool, s: Conn, op: Op)
    ensures Step(restore, s, op).out ==
            if !Enabled(s, op) then s.out
            else match op
              case OpSend(n, room) => SendData(s, n, room).out
              case OpWrite(k, failed) => if failed || s.out <= 0 then s.out else if k < s.out then s.out - k else 0
              case _ => s.out
  {
    hide Deliverable, Interest;
  }

  /** WRITE is wanted only while there are bytes to send. */
  predicate WantsForBytes(s: Conn) {
    s.events.write ==> s.out > 0
  }

  lemma WantsStep(restore: bool, s: Conn, op: Op)
    requires WantsForBytes(s)
    ensures WantsForBytes(Step(restore, s, op))
  {
    hide Step;
    match op
    case OpDeliver(ready) => WantsDelivered(restore, s, ready);
    case OpWrite(k, failed) => WantsWritten(restore, s, k, failed);
    case _ => WantsOther(restore, s, op);
  }

  lemma WantsDelivered(restore: bool, s: Conn, ready: Ready)
    requires WantsForBytes(s)
    ensures WantsForBytes(Step(restore, s, OpDeliver(ready)))
  {
    hide Deliverable;
  }

  lemma WantsWritten(restore: bool, s: Conn, k: nat, failed: bool)
    requires WantsForBytes(s)
    ensures WantsForBytes(Step(restore, s, OpWrite(k, failed)))
  {
    hide Interest;
  }

  lemma WantsOther(restore: bool, s: Conn, op: Op)
    requires WantsForBytes(s) && !op.OpDeliver? && !op.OpWrite?
    ensures WantsForBytes(Step(restore, s, op))
  {
    hide Interest;
  }

  lemma {:induction false} WantsRun(restore: bool, s: Conn, ops: seq<Op>)
    requires WantsForBytes(s)
    ensures WantsForBytes(Run(restore, s, ops))
    decreases |ops|
  {
    hide Step, WantsForBytes;
    if ops != [] {
      WantsStep(restore, s, ops[0]);
      WantsRun(restore, Step(restore, s, ops[0]), ops[1..]);
    }
  }

  /** From the first time that it was writable on, an open connection asks for WRITE only while bytes are waiting; so
      with none and nothing outstanding the kernel is not asked for it. */
  lemma WriteIsWantedForBytes(restore: bool, s: Conn, ready: Ready, ops: seq<Op>)
    requires Inv(s) && Enabled(s, OpDeliver(ready)) && ready.wr && !ready.err && !ready.hup && !ready.rdhup
    ensures var t := Run(restore, Step(restore, s, OpDeliver(ready)), ops);
            && WantsForBytes(t)
            && (!t.closed && Quiet(t) && t.out == 0 ==> t.mask.Some? && !t.mask.value.wr)
  {
    StepKeepsInv(restore, s, OpDeliver(ready));
    RunKeepsInv(restore, Deliver(s, ready), ops);
    WantsRun(restore, Deliver(s, ready), ops);
    RegisteredAsWanted(Run(restore, Deliver(s, ready), ops));
  }

  lemma RegisteredAsWanted(s: Conn)
    requires Inv(s)
    ensures !s.closed && Quiet(s) ==> s.mask.Some? && (s.mask.value.wr <==> s.events.write)
  {
  }

  // ---------- closing ----------

  /** The steps that close: the close and error callbacks, edn_close, the timeout, and a send that fails. */
  predicate Closes(s: Conn, op: Op) {
    Enabled(s, op) &&
    (op.OpClose? || op.OpError? || op.OpUserClose? || op.OpTimeout? || (op.OpWrite? && op.failed && s.out > 0))
  }

  predicate ClosedAt(restore: bool, ops: seq<Op>, i: nat) {
    i < |ops| && Closes(Run(restore, Init(), ops[..i]), ops[i])
  }

  lemma ClosingStep(restore: bool, s: Conn, op: Op)
    ensures Step(restore, s, op).closed <==> s.closed || Closes(s, op)
  {
    hide Step;
    match op
    case OpDeliver(ready) => DeliveryClosesNothing(restore, s, ready);
    case OpWrite(k, failed) => WriteCloses(restore, s, k, failed);
    case _ => OthersClose(restore, s, op);
  }

  lemma DeliveryClosesNothing(restore: bool, s: Conn, ready: Ready)
    ensures Step(restore, s, OpDeliver(ready)).closed == s.closed
  {
    hide Deliverable;
  }

  lemma WriteCloses(restore: bool, s: Conn, k: nat, failed: bool)
    ensures Step(restore, s, OpWrite(k, failed)).closed <==> s.closed || Closes(s, OpWrite(k, failed))
  {
    hide Interest;
  }

  lemma OthersClose(restore: bool, s: Conn, op: Op)
    requires !op.OpDeliver? && !op.OpWrite?
    ensures Step(restore, s, op).closed <==> s.closed || Closes(s, op)
  {
    hide Interest;
  }

  /** A connection is closed exactly if one of these steps has taken place. */
  lemma {:induction false} ClosedIff(restore: bool, ops: seq<Op>)
    ensures Run(restore, Init(), ops).closed <==> exists i :: ClosedAt(restore, ops, i)
    decreases |ops|
  {
    hide Step, Closes, Run;
    if ops == [] {
      OpenAtFirst(restore);
    } else {
      var last := |ops| - 1;
      var before := ops[..last];
      Snoc(restore, ops);
      ClosedIff(restore, before);
      ClosingStep(restore, Run(restore, Init(), before), ops[last]);
      forall i: nat | i < last
        ensures ClosedAt(restore, ops, i) <==> ClosedAt(restore, before, i)
      {
        assert ops[..i] == before[..i];
      }
      assert ClosedAt(restore, ops, last) <==> Closes(Run(restore, Init(), before), ops[last]);
    }
  }

  lemma OpenAtFirst(restore: bool)
    ensures !Run(restore, Init(), []).closed
  {
  }

  /** A hang-up is noted, its callback queued, or the connection closed. */
  predicate HangUpOwed(s: Conn) {
    s.closed || s.noted.close || s.closeTasks > 0
  }

  predicate ErrorOwed(s: Conn) {
    s.closed || s.noted.error || s.errorTasks > 0
  }

  lemma OwedStep(restore: bool, s: Conn, op: Op)
    ensures HangUpOwed(s) ==> HangUpOwed(Step(restore, s, op))
    ensures ErrorOwed(s) ==> ErrorOwed(Step(restore, s, op))
  {
    hide Step;
    match op
    case OpDeliver(ready) => OwedDelivered(restore, s, ready);
    case OpWrite(k, failed) => OwedWritten(restore, s, k, failed);
    case _ => OwedOther(restore, s, op);
  }

  lemma OwedDelivered(restore: bool, s: Conn, ready: Ready)
    ensures HangUpOwed(s) ==> HangUpOwed(Step(restore, s, OpDeliver(ready)))
    ensures ErrorOwed(s) ==> ErrorOwed(Step(restore, s, OpDeliver(ready)))
  {
    hide Deliverable;
  }

  lemma OwedWritten(restore: bool, s: Conn, k: nat, failed: bool)
    ensures HangUpOwed(s) ==> HangUpOwed(Step(restore, s, OpWrite(k, failed)))
    ensures ErrorOwed(s) ==> ErrorOwed(Step(restore, s, OpWrite(k, failed)))
  {
    hide Interest;
  }

  lemma OwedOther(restore: bool, s: Conn, op: Op)
    requires !op.OpDeliver? && !op.OpWrite?
    ensures HangUpOwed(s) ==> HangUpOwed(Step(restore, s, op))
    ensures ErrorOwed(s) ==> ErrorOwed(Step(restore, s, op))
  {
    hide Interest;
  }

  lemma {:induction false} OwedRun(restore: bool, s: Conn, ops: seq<Op>)
    ensures HangUpOwed(s) ==> HangUpOwed(Run(restore, s, ops))
    ensures ErrorOwed(s) ==> ErrorOwed(Run(restore, s, ops))
    decreases |ops|
  {
    hide Step, HangUpOwed, ErrorOwed;
    if ops != [] {
      OwedStep(restore, s, ops[0]);
      OwedRun(restore, Step(restore, s, ops[0]), ops[1..]);
    }
  }

  /** An error or a hang-up once delivered is never forgotten: over every continuation, wherever nothing is outstanding
      the connection is closed. */
  lemma EndIsNeverForgotten(restore: bool, s: Conn, ready: Ready, ops: seq<Op>)
    requires Enabled(s, OpDeliver(ready)) && (ready.err || ready.hup || ready.rdhup)
    ensures var t := Run(restore, Step(restore, s, OpDeliver(ready)), ops);
            && (if ready.err then ErrorOwed(t) else HangUpOwed(t))
            && (Quiet(t) ==> t.closed)
  {
    OwedRun(restore, Deliver(s, ready), ops);
  }

  // ---------- the connect callback ----------

  /** Once CONNECT has been emitted its callback is noted or queued until it has run or the connection is closed. */
  predicate ConnectOwed(s: Conn) {
    s.connects > 0 && s.hasTimer ==> Connecters(s) > 0
  }

  lemma ConnectOwedStep(restore: bool, s: Conn, op: Op)
    requires ConnectOwed(s)
    ensures ConnectOwed(Step(restore, s, op))
  {
    hide Deliverable, Interest;
  }

  lemma {:induction false} ConnectIsServed(restore: bool, s: Conn, ops: seq<Op>)
    requires ConnectOwed(s)
    ensures ConnectOwed(Run(restore, s, ops))
    decreases |ops|
  {
    hide Step, ConnectOwed;
    if ops != [] {
      ConnectOwedStep(restore, s, ops[0]);
      ConnectIsServed(restore, Step(restore, s, ops[0]), ops[1..]);
    }
  }

  // ---------- one callback for each event ----------

  /** handler(), and the callbacks that it spawns tasks for. */
  datatype Callback = HandlerCb | ConnectCb | ReadCb | WriteCb | CloseCb | ErrorCb

  /** What a delivery calls for; `first` says that none came before it. */
  predicate CallsFor(ready: Ready, first: bool, c: Callback) {
    match c
    case HandlerCb => true
    case ErrorCb => ready.err
    case CloseCb => !ready.err && (ready.hup || ready.rdhup)
    case ReadCb => Usable(Some(ready)) && ready.rd
    case WriteCb => Usable(Some(ready)) && ready.wr
    case ConnectCb => Usable(Some(ready)) && ready.wr && first
  }

  predicate RunsIt(op: Op, c: Callback) {
    match c
    case HandlerCb => op.OpHandler?
    case ErrorCb => op.OpError?
    case CloseCb => op.OpClose?
    case ReadCb => op.OpRead?
    case WriteCb => op.OpWrite?
    case ConnectCb => op.OpConn?
  }

  /** Whether it is noted and not yet queued; a further event then is not told apart from the one noted. */
  predicate NotedFor(s: Conn, c: Callback) {
    match c
    case HandlerCb => false
    case ErrorCb => s.noted.error
    case CloseCb => s.noted.close
    case ReadCb => s.noted.read
    case WriteCb => s.noted.write
    case ConnectCb => s.noted.connect
  }

  /** Calls of it that are noted or queued. */
  function Waiting(s: Conn, c: Callback): nat {
    match c
    case HandlerCb => s.handlers
    case ErrorCb => s.errorTasks + One(s.noted.error)
    case CloseCb => s.closeTasks + One(s.noted.close)
    case ReadCb => Readers(s)
    case WriteCb => Writers(s)
    case ConnectCb => Connecters(s)
  }

  /** How many deliveries of a run called for it while it was not noted already, and how often it has run to its end. */
  function Called(restore: bool, ops: seq<Op>, c: Callback): nat {
    if ops == [] then 0
    else
      var before, op := ops[..|ops| - 1], ops[|ops| - 1];
      var s := Run(restore, Init(), before);
      Called(restore, before, c) +
      One(op.OpDeliver? && Enabled(s, op) && !NotedFor(s, c) &&
          CallsFor(op.ready, LastDelivered(restore, before).None?, c))
  }

  function Ran(restore: bool, ops: seq<Op>, c: Callback): nat {
    if ops == [] then 0
    else
      var before, op := ops[..|ops| - 1], ops[|ops| - 1];
      var s := Run(restore, Init(), before);
      Ran(restore, before, c) + One(RunsIt(op, c) && Enabled(s, op) && !Step(restore, s, op).fault)
  }

  /** Over every run, each callback runs exactly once for each delivery that called for it: none is lost, and none runs
      without. Those that ran and those that wait are the deliveries. */
  lemma {:induction false} CallbacksAreCalledFor(restore: bool, ops: seq<Op>, c: Callback)
    ensures Ran(restore, ops, c) + Waiting(Run(restore, Init(), ops), c) == Called(restore, ops, c)
    decreases |ops|
  {
    hide Run, LastDelivered, Waiting, CallsFor, RunsIt, NotedFor, Step, Enabled;
    if ops == [] {
      NothingWaits(restore, c);
    } else {
      var before, op := ops[..|ops| - 1], ops[|ops| - 1];
      Snoc(restore, ops);
      CallbacksAreCalledFor(restore, before, c);
      StatusIsLastDelivered(restore, before);
      WaitingStep(restore, Run(restore, Init(), before), op, LastDelivered(restore, before).None?, c);
    }
  }

  lemma NothingWaits(restore: bool, c: Callback)
    ensures Waiting(Run(restore, Init(), []), c) == 0
  {
  }

  lemma WaitingStep(restore: bool, s: Conn, op: Op, first: bool, c: Callback)
    requires s.status == Connecting <==> first
    ensures Waiting(Step(restore, s, op), c) + One(RunsIt(op, c) && Enabled(s, op) && !Step(restore, s, op).fault) ==
            Waiting(s, c) + One(op.OpDeliver? && Enabled(s, op) && !NotedFor(s, c) && CallsFor(op.ready, first, c))
  {
    hide Step, Waiting;
    match op
    case OpDeliver(ready) => WaitingDelivered(restore, s, ready, first, c);
    case OpHandler => WaitingSpawned(restore, s, c);
    case OpWrite(k, failed) => WaitingWritten(restore, s, k, failed, c);
    case OpSend(n, room) => WaitingSent(restore, s, n, room, c);
    case _ => WaitingOther(restore, s, op, c);
  }

  lemma WaitingDelivered(restore: bool, s: Conn, ready: Ready, first: bool, c: Callback)
    requires s.status == Connecting <==> first
    ensures Waiting(Step(restore, s, OpDeliver(ready)), c) ==
            Waiting(s, c) + One(Enabled(s, OpDeliver(ready)) && !NotedFor(s, c) && CallsFor(ready, first, c))
  {
    hide Deliverable;
  }

  lemma WaitingSpawned(restore: bool, s: Conn, c: Callback)
    ensures Waiting(Step(restore, s, OpHandler), c) + One(c == HandlerCb && Enabled(s, OpHandler)) == Waiting(s, c)
    ensures Enabled(s, OpHandler) ==> !Step(restore, s, OpHandler).fault
  {
  }

  lemma WaitingWritten(restore: bool, s: Conn, k: nat, failed: bool, c: Callback)
    ensures Waiting(Step(restore, s, OpWrite(k, failed)), c) +
            One(c == WriteCb && Enabled(s, OpWrite(k, failed)) && !Step(restore, s, OpWrite(k, failed)).fault) ==
            Waiting(s, c)
  {
    hide WriteTask;
    if s.writeTasks > 0 {
      WriteTaskRuns(s, k, failed, restore);
    }
  }

  lemma WriteTaskRuns(s: Conn, k: nat, failed: bool, restore: bool)
    requires s.writeTasks > 0
    ensures var t := WriteTask(s, k, failed, restore);
            && t.noted == s.noted && t.writeTasks == s.writeTasks - 1 && t.connTasks == s.connTasks
            && t.readTasks == s.readTasks && t.closeTasks == s.closeTasks && t.errorTasks == s.errorTasks
            && t.handlers == s.handlers && t.fault == s.fault && t.connects == s.connects
  {
    hide Interest;
  }

  lemma WaitingSent(restore: bool, s: Conn, n: nat, room: bool, c: Callback)
    ensures Waiting(Step(restore, s, OpSend(n, room)), c) == Waiting(s, c)
  {
    hide Interest;
  }

  lemma WaitingOther(restore: bool, s: Conn, op: Op, c: Callback)
    requires !op.OpDeliver? && !op.OpHandler? && !op.OpWrite? && !op.OpSend?
    ensures Waiting(Step(restore, s, op), c) + One(RunsIt(op, c) && Enabled(s, op) && !Step(restore, s, op).fault) ==
            Waiting(s, c)
  {
    hide Interest;
  }

  /** What the pool does for a connection: handlers and the five callbacks. */
  predicate InPool(op: Op) {
    op.OpHandler? || op.OpConn? || op.OpRead? || op.OpWrite? || op.OpClose? || op.OpError?
  }

  /** The pool at work for the connection, each operation possible when its turn comes. */
  predicate Working(restore: bool, s: Conn, ops: seq<Op>)
    decreases |ops|
  {
    ops == [] || (InPool(ops[0]) && Enabled(s, ops[0]) && Working(restore, Step(restore, s, ops[0]), ops[1..]))
  }

  function Tasks(s: Conn): nat {
    s.connTasks + s.readTasks + s.writeTasks + s.closeTasks + s.errorTasks
  }

  /** What there is to do: handlers, tasks, and twice what is noted, which takes a handler to become a task. */
  function Work(s: Conn): nat {
    s.handlers + Tasks(s) + One(!s.fault) +
    2 * (One(s.noted.connect) + One(s.noted.read) + One(s.noted.write) + One(s.noted.close) + One(s.noted.error))
  }

  lemma StepIsWork(restore: bool, s: Conn, op: Op)
    requires InPool(op) && Enabled(s, op)
    ensures Work(Step(restore, s, op)) < Work(s)
  {
    hide Interest, Deliverable, WriteTask;
    if op.OpWrite? {
      WriteTaskRuns(s, op.k, op.failed, restore);
    }
  }

  /** Left to itself a connection comes to rest: the pool has a bounded number of steps to make, in whatever order; and
      when there is none left the connection is quiet, or was closed under its connect task. */
  lemma {:induction false} SettlesAtLast(restore: bool, s: Conn, ops: seq<Op>)
    requires Inv(s) && Working(restore, s, ops)
    ensures var t := Run(restore, s, ops);
            && |ops| + Work(t) <= Work(s)
            && ((forall op :: InPool(op) ==> !Enabled(t, op)) ==> t.fault || Quiet(t))
    decreases |ops|
  {
    hide Step, Enabled, InPool, Work, Quiet, Inv;
    if ops == [] {
      NothingToDoIsQuiet(s);
    } else {
      StepIsWork(restore, s, ops[0]);
      StepKeepsInv(restore, s, ops[0]);
      SettlesAtLast(restore, Step(restore, s, ops[0]), ops[1..]);
    }
  }

  lemma NothingToDoIsQuiet(s: Conn)
    requires Inv(s)
    ensures (forall op :: InPool(op) ==> !Enabled(s, op)) ==> s.fault || Quiet(s)
  {
    if !s.fault && forall op :: InPool(op) ==> !Enabled(s, op) {
      assert !Enabled(s, OpHandler) && !Enabled(s, OpConn) && !Enabled(s, OpRead);
      assert !Enabled(s, OpWrite(0, false)) && !Enabled(s, OpClose) && !Enabled(s, OpError);
    }
  }

  /** The timeout has run at most once, and not at all unless the timer fired. */
  function TimeoutsRun(restore: bool, ops: seq<Op>): nat {
    if ops == [] then 0
    else
      var before, op := ops[..|ops| - 1], ops[|ops| - 1];
      TimeoutsRun(restore, before) + One(op.OpTimeout? && Enabled(Run(restore, Init(), before), op))
  }

  lemma {:induction false} TimeoutRunsOnce(restore: bool, ops: seq<Op>)
    ensures TimeoutsRun(restore, ops) == One(Run(restore, Init(), ops).timer == Timer.Ran)
    decreases |ops|
  {
    hide Run, Step, Enabled;
    if ops == [] {
      TimerIsArmedFirst(restore);
    } else {
      var before, op := ops[..|ops| - 1], ops[|ops| - 1];
      Snoc(restore, ops);
      TimeoutRunsOnce(restore, before);
      TimerStep(restore, Run(restore, Init(), before), op);
    }
  }

  /** A timer that has fired keeps its callback queued until that runs, whatever else happens: neither the connect task
      nor closing takes it back. */
  lemma {:induction false} FiredRunsAtLast(restore: bool, s: Conn, ops: seq<Op>)
    requires s.timer == Fired
    ensures Run(restore, s, ops).timer in {Fired, Timer.Ran}
    ensures OpTimeout !in ops ==> Run(restore, s, ops).timer == Fired
    decreases |ops|
  {
    hide Step;
    if ops != [] {
      FiredStep(restore, s, ops[0]);
      if Step(restore, s, ops[0]).timer == Fired {
        FiredRunsAtLast(restore, Step(restore, s, ops[0]), ops[1..]);
      } else {
        RanStays(restore, Step(restore, s, ops[0]), ops[1..]);
      }
    }
  }

  lemma FiredStep(restore: bool, s: Conn, op: Op)
    requires s.timer == Fired
    ensures Step(restore, s, op).timer == if op.OpTimeout? && !s.fault then Timer.Ran else Fired
  {
    hide Step;
    match op
    case OpDeliver(ready) => DeliveryKeepsTimer(restore, s, ready);
    case OpWrite(k, failed) => WriteKeepsFired(restore, s, k, failed);
    case _ => FiredOther(restore, s, op);
  }

  lemma WriteKeepsFired(restore: bool, s: Conn, k: nat, failed: bool)
    requires s.timer == Fired
    ensures Step(restore, s, OpWrite(k, failed)).timer == Fired
  {
    hide Interest;
  }

  lemma FiredOther(restore: bool, s: Conn, op: Op)
    requires s.timer == Fired && !op.OpDeliver? && !op.OpWrite?
    ensures Step(restore, s, op).timer == if op.OpTimeout? && !s.fault then Timer.Ran else Fired
  {
    hide Interest;
  }

  lemma {:induction false} RanStays(restore: bool, s: Conn, ops: seq<Op>)
    requires s.timer == Timer.Ran
    ensures Run(restore, s, ops).timer == Timer.Ran
    decreases |ops|
  {
    hide Step, Enabled;
    if ops != [] {
      TimerStep(restore, s, ops[0]);
      RanStays(restore, Step(restore, s, ops[0]), ops[1..]);
    }
  }

  lemma TimerIsArmedFirst(restore: bool)
    ensures Run(restore, Init(), []).timer == Armed
  {
  }

  lemma TimerStep(restore: bool, s: Conn, op: Op)
    ensures One(Step(restore, s, op).timer == Timer.Ran) ==
            One(s.timer == Timer.Ran) + One(op.OpTimeout? && Enabled(s, op))
  {
    hide Step;
    match op
    case OpDeliver(ready) => DeliveryKeepsTimer(restore, s, ready);
    case OpWrite(k, failed) => WriteKeepsRan(restore, s, k, failed);
    case _ => TimerOther(restore, s, op);
  }

  lemma DeliveryKeepsTimer(restore: bool, s: Conn, ready: Ready)
    ensures Step(restore, s, OpDeliver(ready)).timer == s.timer
  {
    hide Deliverable;
  }

  lemma WriteKeepsRan(restore: bool, s: Conn, k: nat, failed: bool)
    ensures Step(restore, s, OpWrite(k, failed)).timer == Timer.Ran <==> s.timer == Timer.Ran
  {
    hide Interest;
  }

  lemma TimerOther(restore: bool, s: Conn, op: Op)
    requires !op.OpDeliver? && !op.OpWrite?
    ensures One(Step(restore, s, op).timer == Timer.Ran) ==
            One(s.timer == Timer.Ran) + One(op.OpTimeout? && Enabled(s, op))
  {
    hide Interest;
  }
}
