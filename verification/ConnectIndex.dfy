/** A connection together with its entry in the event index. Its close and error callbacks, its timeout callback and
edn_close all close it and take it out of the index; only edn_close looks first whether it is still there. */
module ConnectIndex {
  import opened EdnDefine
  import C = ConnectSpec
  import X = ContextSpec

  datatype Both = Both(conn: C.Conn, index: X.Index)

  /** A step of the connection, or one that the rest of the program takes in the index under other keys. */
  datatype Op = OfConn(op: C.Op) | OfOthers(other: X.Op)

  /** The connection as an event: persistent, under its descriptor. */
  function Me(fd: nat): X.Event {
    X.Event(0, X.Io(fd), true)
  }

  predicate OtherKey(fd: nat, op: X.Op) {
    match op
    case OpAdd(e) => e.GetFd() != fd
    case OpDel(e) => e.GetFd() != fd
    case OpActive(key) => key != fd
  }

  predicate Removes(op: C.Op) {
    op.OpClose? || op.OpError? || op.OpTimeout? || op.OpUserClose?
  }

  /** Whether a step of the connection takes place; edn_close and edn_send_data do nothing for one that is not
      indexed. */
  predicate Happens(fd: nat, s: Both, op: C.Op) {
    C.Enabled(s.conn, op) && (op.OpUserClose? || op.OpSend? ==> fd in s.index.table)
  }

  /** The steps of the others are taken as defined. */
  function Step(restore: bool, fd: nat, sigFd: int, s: Both, op: Op): Both {
    if s.index.fault then s
    else match op
      case OfOthers(o) =>
        var x := X.Step(true, sigFd, s.index, o);
        if OtherKey(fd, o) && !x.fault then s.(index := x) else s
      case OfConn(o) =>
        if !Happens(fd, s, o) then s
        else Both(C.Step(restore, s.conn, o), if Removes(o) then X.DelEvent(s.index, Me(fd)) else s.index)
  }

  function Run(restore: bool, fd: nat, sigFd: int, s: Both, ops: seq<Op>): Both
    decreases |ops|
  {
    if ops == [] then s else Run(restore, fd, sigFd, Step(restore, fd, sigFd, s, ops[0]), ops[1..])
  }

  /** How many removals a run makes, up to and with the one that goes wrong. */
  function Removals(restore: bool, fd: nat, sigFd: int, s: Both, ops: seq<Op>): nat
    decreases |ops|
  {
    if ops == [] then 0
    else
      var here := if !s.index.fault && ops[0].OfConn? && Removes(ops[0].op) && Happens(fd, s, ops[0].op) then 1 else 0;
      here + Removals(restore, fd, sigFd, Step(restore, fd, sigFd, s, ops[0]), ops[1..])
  }

  lemma OthersKeepEntry(fd: nat, sigFd: int, x: X.Index, op: X.Op)
    requires X.Sound(x) && !x.fault && OtherKey(fd, op) && !X.Step(true, sigFd, x, op).fault
    ensures var x' := X.Step(true, sigFd, x, op);
            X.Sound(x') && (fd in x'.table <==> fd in x.table)
  {
    match op
    case OpAdd(e) => X.AddRefinesMap(x, e, fd);
    case OpDel(e) => X.DelRefinesMap(x, e, fd);
    case OpActive(key) =>
      X.ActiveRefinesMap(true, sigFd, x, key, fd);
      EntryIsFound(x, fd);
      EntryIsFound(X.Step(true, sigFd, x, op), fd);
  }

  lemma EntryIsFound(x: X.Index, key: int)
    requires X.Sound(x)
    ensures X.GetEvent(x, key).Some? <==> key in x.table
  {
  }

  lemma RemovalStep(fd: nat, x: X.Index)
    requires X.Sound(x) && !x.fault
    ensures var x' := X.DelEvent(x, Me(fd));
            && X.Sound(x') && (x'.fault <==> fd !in x.table)
            && (!x'.fault ==> fd !in x'.table)
  {
    X.DelRefinesMap(x, Me(fd), fd);
    EntryIsFound(X.DelEvent(x, Me(fd)), fd);
  }

  lemma {:induction false} FaultStays(restore: bool, fd: nat, sigFd: int, s: Both, ops: seq<Op>)
    requires s.index.fault
    ensures Run(restore, fd, sigFd, s, ops) == s && Removals(restore, fd, sigFd, s, ops) == 0
    decreases |ops|
  {
    if ops != [] {
      FaultStays(restore, fd, sigFd, s, ops[1..]);
    }
  }

  /** The index is driven into undefined behaviour exactly by the second removal of a connection. */
  lemma {:induction false} FaultsIffRemovedTwice(restore: bool, fd: nat, sigFd: int, s: Both, ops: seq<Op>)
    requires X.Sound(s.index) && !s.index.fault
    ensures Run(restore, fd, sigFd, s, ops).index.fault <==>
            Removals(restore, fd, sigFd, s, ops) >= if fd in s.index.table then 2 else 1
    ensures Removals(restore, fd, sigFd, s, ops) <= if fd in s.index.table then 2 else 1
    decreases |ops|
  {
    hide C.Step, C.Enabled, X.Step, X.DelEvent, X.Sound;
    if ops != [] {
      var s1 := Step(restore, fd, sigFd, s, ops[0]);
      match ops[0]
      case OfOthers(o) =>
        if OtherKey(fd, o) && !X.Step(true, sigFd, s.index, o).fault {
          OthersKeepEntry(fd, sigFd, s.index, o);
        }
        FaultsIffRemovedTwice(restore, fd, sigFd, s1, ops[1..]);
      case OfConn(o) =>
        RemovalStep(fd, s.index);
        if s1.index.fault {
          FaultStays(restore, fd, sigFd, s1, ops[1..]);
        } else {
          FaultsIffRemovedTwice(restore, fd, sigFd, s1, ops[1..]);
        }
    }
  }

  // ---------- when a second removal can come ----------

  /** A callback that removes is noted, queued, or will be when the timer runs. */
  predicate Pending(c: C.Conn) {
    c.closeTasks > 0 || c.errorTasks > 0 || c.noted.close || c.noted.error || c.timer == C.Fired
  }

  /** Closed, and nothing that removes is pending. */
  ghost predicate Over(s: Both) {
    C.Inv(s.conn) && s.conn.closed && !Pending(s.conn) && !s.index.fault
  }

  lemma OverStep(restore: bool, s: C.Conn, op: C.Op)
    requires C.Inv(s) && s.closed && !Pending(s) && C.Enabled(s, op)
    ensures !op.OpClose? && !op.OpError? && !op.OpTimeout?
    ensures var s1 := C.Step(restore, s, op);
            C.Inv(s1) && s1.closed && !Pending(s1)
  {
    C.StepKeepsInv(restore, s, op);
    TimerIsGone(s);
    hide C.Inv, C.Step, Pending;
    NothingPends(s, op);
    match op
    case OpHandler => HandlerLeavesNone(s);
    case OpWrite(k, failed) => WriteLeavesNone(restore, s, k, failed);
    case _ => OthersLeaveNone(restore, s, op);
  }

  lemma NothingPends(s: C.Conn, op: C.Op)
    requires s.closed && !Pending(s) && C.Enabled(s, op) && s.timer != C.Armed
    ensures !op.OpClose? && !op.OpError? && !op.OpTimeout? && !op.OpDeliver? && !op.OpTimer?
  {
  }

  lemma HandlerLeavesNone(s: C.Conn)
    requires s.closed && !Pending(s) && s.handlers > 0 && !s.fault
    ensures C.Step(true, s, C.OpHandler) == C.Step(false, s, C.OpHandler) == C.Handler(s)
    ensures C.Handler(s).closed && !Pending(C.Handler(s))
  {
  }

  lemma WriteLeavesNone(restore: bool, s: C.Conn, k: nat, failed: bool)
    requires s.closed && !Pending(s)
    ensures var s1 := C.Step(restore, s, C.OpWrite(k, failed));
            s1.closed && !Pending(s1)
  {
  }

  lemma OthersLeaveNone(restore: bool, s: C.Conn, op: C.Op)
    requires s.closed && !Pending(s)
    requires op.OpConn? || op.OpRead? || op.OpSend? || op.OpUserClose?
    ensures var s1 := C.Step(restore, s, op);
            s1.closed && !Pending(s1)
  {
  }

  lemma TimerIsGone(s: C.Conn)
    requires C.Inv(s) && s.closed
    ensures s.timer != C.Armed
  {
  }

  lemma OverStepBoth(restore: bool, fd: nat, sigFd: int, s: Both, op: Op)
    requires Over(s) && X.Sound(s.index) && fd !in s.index.table
    ensures var s1 := Step(restore, fd, sigFd, s, op);
            Over(s1) && X.Sound(s1.index) && fd !in s1.index.table
  {
    hide C.Step, C.Enabled, C.Inv, X.Step, X.DelEvent, X.Sound, Pending;
    match op
    case OfOthers(o) =>
      if OtherKey(fd, o) && !X.Step(true, sigFd, s.index, o).fault {
        OthersKeepEntry(fd, sigFd, s.index, o);
      }
    case OfConn(o) =>
      if Happens(fd, s, o) {
        OverStep(restore, s.conn, o);
      }
  }

  lemma {:induction false} OverForGood(restore: bool, fd: nat, sigFd: int, s: Both, ops: seq<Op>)
    requires Over(s) && X.Sound(s.index) && fd !in s.index.table
    ensures !Run(restore, fd, sigFd, s, ops).index.fault
    decreases |ops|
  {
    if ops != [] {
      OverStepBoth(restore, fd, sigFd, s, ops[0]);
      hide Step, X.Sound;
      OverForGood(restore, fd, sigFd, Step(restore, fd, sigFd, s, ops[0]), ops[1..]);
    }
  }

  ghost predicate CanFault(restore: bool, fd: nat, sigFd: int, s: Both) {
    exists ops :: Faults(restore, fd, sigFd, s, ops)
  }

  predicate Faults(restore: bool, fd: nat, sigFd: int, s: Both, ops: seq<Op>) {
    Run(restore, fd, sigFd, s, ops).index.fault
  }

  /** Some continuation drives the index into undefined behaviour, once a connection is removed and closed, exactly if
      its close or error callback is noted or queued, or its timeout callback is queued. */
  lemma CanFaultIffPending(restore: bool, fd: nat, sigFd: int, s: Both)
    requires C.Inv(s.conn) && s.conn.closed && !s.conn.fault
    requires X.Sound(s.index) && !s.index.fault && fd !in s.index.table
    ensures CanFault(restore, fd, sigFd, s) <==> Pending(s.conn)
  {
    if Pending(s.conn) {
      var c := s.conn;
      if c.closeTasks > 0 {
        LastStepFaults(restore, fd, sigFd, s, C.OpClose);
      } else if c.errorTasks > 0 {
        LastStepFaults(restore, fd, sigFd, s, C.OpError);
      } else if c.timer == C.Fired {
        LastStepFaults(restore, fd, sigFd, s, C.OpTimeout);
      } else {
        HandlerFirst(restore, fd, sigFd, s);
      }
    } else {
      forall ops
        ensures !Faults(restore, fd, sigFd, s, ops)
      {
        OverForGood(restore, fd, sigFd, s, ops);
      }
    }
  }

  lemma LastStepFaults(restore: bool, fd: nat, sigFd: int, s: Both, op: C.Op)
    requires X.Sound(s.index) && !s.index.fault && fd !in s.index.table
    requires C.Enabled(s.conn, op) && Removes(op) && !op.OpUserClose?
    ensures Faults(restore, fd, sigFd, s, [OfConn(op)])
  {
    hide C.Step, C.Enabled;
    RemovalStep(fd, s.index);
    var ops := [OfConn(op)];
    assert ops[1..] == [];
    assert Run(restore, fd, sigFd, s, ops) == Run(restore, fd, sigFd, Step(restore, fd, sigFd, s, ops[0]), []);
  }

  lemma HandlerFirst(restore: bool, fd: nat, sigFd: int, s: Both)
    requires C.Inv(s.conn) && !s.conn.fault && (s.conn.noted.close || s.conn.noted.error)
    requires X.Sound(s.index) && !s.index.fault && fd !in s.index.table
    ensures CanFault(restore, fd, sigFd, s)
  {
    NotedHasHandler(restore, s.conn);
    var op := if s.conn.noted.close then C.OpClose else C.OpError;
    var s1 := Both(C.Handler(s.conn), s.index);
    LastStepFaults(restore, fd, sigFd, s1, op);
    hide C.Step, C.Enabled, C.Handler, C.Inv, X.Sound;
    var ops := [OfConn(C.OpHandler), OfConn(op)];
    assert ops[1..] == [OfConn(op)];
    assert Step(restore, fd, sigFd, s, ops[0]) == s1;
    assert Faults(restore, fd, sigFd, s, ops);
  }

  lemma NotedHasHandler(restore: bool, c: C.Conn)
    requires C.Inv(c) && !c.fault && (c.noted.close || c.noted.error)
    ensures C.Enabled(c, C.OpHandler) && C.Step(restore, c, C.OpHandler) == C.Handler(c)
    ensures var c1 := C.Handler(c);
            !c1.fault && (c.noted.close ==> c1.closeTasks > 0) && (c.noted.error ==> c1.errorTasks > 0)
  {
  }

  /** edn_close of an indexed connection: what can go wrong afterwards is what was pending before. */
  lemma UserCloseIsSafeIff(restore: bool, fd: nat, sigFd: int, s: Both)
    requires C.Inv(s.conn) && !s.conn.fault && X.Sound(s.index) && !s.index.fault && fd in s.index.table
    ensures var s1 := Step(restore, fd, sigFd, s, OfConn(C.OpUserClose));
            && !s1.index.fault && fd !in s1.index.table && s1.conn.closed
            && (CanFault(restore, fd, sigFd, s1) <==> Pending(s.conn))
  {
    RemovalStep(fd, s.index);
    C.StepKeepsInv(restore, s.conn, C.OpUserClose);
    UserCloseKeepsPending(restore, s.conn);
    hide C.Inv, C.Step, C.Enabled, X.Sound, X.DelEvent, Pending, CanFault;
    CanFaultIffPending(restore, fd, sigFd, Step(restore, fd, sigFd, s, OfConn(C.OpUserClose)));
  }

  lemma UserCloseKeepsPending(restore: bool, c: C.Conn)
    requires !c.fault
    ensures C.Enabled(c, C.OpUserClose)
    ensures var c1 := C.Step(restore, c, C.OpUserClose);
            c1.closed && !c1.fault && (Pending(c1) <==> Pending(c))
  {
  }

  /** A connection that has been taken out of the index gets no more data to send, over every continuation: its output
      only shrinks. */
  lemma {:induction false} RemovedTakesNoData(restore: bool, fd: nat, sigFd: int, s: Both, ops: seq<Op>)
    requires X.Sound(s.index) && !s.index.fault && fd !in s.index.table
    ensures Run(restore, fd, sigFd, s, ops).conn.out <= s.conn.out
    decreases |ops|
  {
    hide C.Step, C.Enabled, X.Step, X.DelEvent, X.Sound;
    if ops != [] {
      var s1 := Step(restore, fd, sigFd, s, ops[0]);
      match ops[0]
      case OfOthers(o) =>
        if OtherKey(fd, o) && !X.Step(true, sigFd, s.index, o).fault {
          OthersKeepEntry(fd, sigFd, s.index, o);
        }
        RemovedTakesNoData(restore, fd, sigFd, s1, ops[1..]);
      case OfConn(o) =>
        if !o.OpSend? {
          OutShrinks(restore, s.conn, o);
        }
        RemovalStep(fd, s.index);
        if s1.index.fault {
          FaultStays(restore, fd, sigFd, s1, ops[1..]);
        } else {
          RemovedTakesNoData(restore, fd, sigFd, s1, ops[1..]);
        }
    }
  }

  lemma OutShrinks(restore: bool, c: C.Conn, op: C.Op)
    requires !op.OpSend?
    ensures C.Step(restore, c, op).out <= c.out
  {
  }

  const HANG_UP := C.Ready(false, false, false, true, false)

  /** The peer hangs up, and edn_close comes before the close callback. */
  const REMOVING_TWICE :=
    [OfConn(C.OpDeliver(HANG_UP)), OfConn(C.OpHandler), OfConn(C.OpUserClose), OfConn(C.OpClose)]

  /** What holds after i steps of that run. */
  ghost predicate RemovingAt(fd: nat, s: Both, i: nat) {
    && X.Sound(s.index) && !s.conn.fault && s.index.fault == (i == 4)
    && (i <= 2 ==> fd in s.index.table) && (i == 3 ==> fd !in s.index.table)
    && (i == 0 ==> s.conn == C.Init())
    && (i == 1 ==> s.conn.handlers == 1 && s.conn.noted.close)
    && (i == 2 || i == 3 ==> s.conn.closeTasks > 0)
  }

  lemma RemovingStep(restore: bool, fd: nat, sigFd: int, s: Both, i: nat)
    requires i < 4 && RemovingAt(fd, s, i)
    ensures RemovingAt(fd, Step(restore, fd, sigFd, s, REMOVING_TWICE[i]), i + 1)
  {
    hide X.Sound, X.DelEvent;
    RemovalStep(fd, s.index);
    if i == 0 {
      HangUpDelivered(restore);
    }
    hide C.Deliver, C.Deliverable, C.Init;
  }

  lemma HangUpDelivered(restore: bool)
    ensures C.Enabled(C.Init(), C.OpDeliver(HANG_UP))
    ensures var c := C.Step(restore, C.Init(), C.OpDeliver(HANG_UP));
            c.handlers == 1 && c.noted.close && !c.fault
  {
  }

  lemma {:induction false} RemovingRun(restore: bool, fd: nat, sigFd: int, s: Both, i: nat)
    requires i <= 4 && RemovingAt(fd, s, i)
    ensures RemovingAt(fd, Run(restore, fd, sigFd, s, REMOVING_TWICE[i..]), 4)
    decreases 4 - i
  {
    hide RemovingAt, Step;
    if i < 4 {
      assert REMOVING_TWICE[i..][1..] == REMOVING_TWICE[i + 1..];
      RemovingStep(restore, fd, sigFd, s, i);
      RemovingRun(restore, fd, sigFd, Step(restore, fd, sigFd, s, REMOVING_TWICE[i]), i + 1);
    }
  }

  lemma RemovedTwice(restore: bool, fd: nat, sigFd: int)
    ensures Faults(restore, fd, sigFd, Both(C.Init(), X.AddEvent(X.EMPTY, Me(fd))), REMOVING_TWICE)
  {
    var s := Both(C.Init(), X.AddEvent(X.EMPTY, Me(fd)));
    X.AddRefinesMap(X.EMPTY, Me(fd), fd);
    RemovingRun(restore, fd, sigFd, s, 0);
    assert REMOVING_TWICE[0..] == REMOVING_TWICE;
  }

  /** Where another event has taken over the descriptor in the meantime, the second removal takes that one instead. */
  lemma StaleRemovalTakesAnother(fd: nat, x: X.Index, other: X.Event)
    requires X.Sound(x) && !x.fault && X.GetEvent(x, fd) == Some(other)
    ensures !X.DelEvent(x, Me(fd)).fault && X.GetEvent(X.DelEvent(x, Me(fd)), fd) == None
  {
    EntryIsFound(x, fd);
    X.DelRefinesMap(x, Me(fd), fd);
  }
}
