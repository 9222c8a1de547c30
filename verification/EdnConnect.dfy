/** EdnEpoll and EdnConnect as objects. Every method is proved to do what its function in ConnectSpec says. */
module EdnConnects {
  import opened EdnDefine
  import opened ConnectSpec
  import opened ConnectRuns

  const ENOENT := 2
  const EBADF := 9
  const EEXIST := 17

  datatype CtlOp = CtlAdd | CtlMod

  /** The kernel's registration of one fd. */
  class EdnEpoll {
    var mask: Option<Mask>
    var fdClosed: bool

    constructor ()
      ensures mask == None && !fdClosed
    {
      mask, fdClosed := None, false;
    }

    /** epoll_ctl for the one fd: errno, or 0. */
    method Ctl(op: CtlOp, want: Mask) returns (errno: int)
      modifies this`mask
      ensures fdClosed ==> errno == EBADF
      ensures !fdClosed && op == CtlAdd ==> errno == if old(mask).Some? then EEXIST else 0
      ensures !fdClosed && op == CtlMod ==> errno == if old(mask).None? then ENOENT else 0
      ensures mask == if errno == 0 then Some(want) else old(mask)
    {
      if fdClosed {
        return EBADF;
      }
      if op == CtlAdd && mask.Some? {
        return EEXIST;
      }
      if op == CtlMod && mask.None? {
        return ENOENT;
      }
      mask := Some(want);
      return 0;
    }

    /** EdnEpoll::add: EPOLL_CTL_ADD, and EPOLL_CTL_MOD for an fd that is there already. */
    method Add(events: Bits) returns (r: int)
      modifies this`mask
      ensures r == if fdClosed then EDN_ERR_SYS_ERROR else EDN_OK
      ensures mask == if fdClosed then old(mask) else Some(Interest(events))
    {
      var errno := Ctl(CtlAdd, Interest(events));
      if errno == EEXIST {
        errno := Ctl(CtlMod, Interest(events));
      }
      r := if errno != 0 then EDN_ERR_SYS_ERROR else EDN_OK;
    }

    /** close() takes the fd out of the kernel. */
    method CloseFd()
      modifies this
      ensures fdClosed && mask == None
    {
      fdClosed, mask := true, None;
    }

    /** epoll_wait reporting the fd: a one-shot registration is disarmed. */
    method Report()
      modifies this`mask
      ensures mask == if old(mask).Some? && old(mask).value.oneshot then Some(NO_MASK) else old(mask)
    {
      if mask.Some? && mask.value.oneshot {
        mask := Some(NO_MASK);
      }
    }
  }

  class EdnConnect {
    const epoll: EdnEpoll
    var events: Bits
    var status: Status
    var noted: Bits
    // what the thread pool holds of this connection
    var handlers: nat
    var connTasks: nat
    var readTasks: nat
    var writeTasks: nat
    var closeTasks: nat
    var errorTasks: nat
    var out: nat
    var hasTimer: bool
    var timer: Timer
    var fault: bool
    ghost var connects: nat

    ghost function State(): Conn
      reads this, epoll
    {
      Conn(events, epoll.mask, status, noted, handlers, connTasks, readTasks, writeTasks, closeTasks, errorTasks, out,
           hasTimer, timer, epoll.fdClosed, connects, fault)
    }

    /** edn_connect up to its return: registered, with the timer in the group. */
    constructor ()
      ensures State() == Init() && fresh(epoll)
    {
      var poll := new EdnEpoll();
      var r := poll.Add(INITIAL_EVENTS);
      epoll := poll;
      events, status, noted := INITIAL_EVENTS, Connecting, NO_BITS;
      handlers, connTasks, readTasks, writeTasks, closeTasks, errorTasks := 0, 0, 0, 0, 0, 0;
      out, hasTimer, timer, fault := 0, true, Armed, false;
      connects := 0;
    }

    /** EdnIOEvent::ConvertEvents. */
    method ConvertEvents(ready: Ready) returns (ev: Bits)
      modifies this`events, this`status, this`connects
      ensures (ev, State()) == Convert(old(State()), ready)
    {
      ev := NO_BITS;
      if ready.err {
        ev := ev.(error := true);
        status := Failed;
        return;
      }
      if ready.hup || ready.rdhup {
        ev := ev.(close := true);
        status := Closing;
        return;
      }
      ev := ConvertReady(ready);
    }

    /** The rest of ConvertEvents, when there is neither an error nor a hang-up. */
    method ConvertReady(ready: Ready) returns (ev: Bits)
      requires !ready.err && !ready.hup && !ready.rdhup
      modifies this`events, this`status, this`connects
      ensures (ev, State()) == Convert(old(State()), ready)
    {
      ev := NO_BITS;
      if ready.wr && status == Connecting {
        ev := ev.(connect := true);
        status := Connected;
        connects := connects + 1;
      }
      if ready.wr {
        ev := ev.(write := true);
        status := Writing;
        events := events.(write := false);
      }
      if ready.rd {
        ev := ev.(read := true);
        status := Reading;
        events := events.(read := false);
      }
    }

    /** EdnContext::ActiveEvent on a connection: convert, note, queue handler(). */
    method Activate(ready: Ready)
      requires Deliverable(State(), ready)
      modifies this, epoll
      ensures State() == Deliver(old(State()), ready)
    {
      hide Convert, Union, Deliverable;
      ghost var s := State();
      epoll.Report();
      ConvertSkipsMask(s, ready, epoll.mask);
      var ev := ConvertEvents(ready);
      noted := Union(noted, ev);
      handlers := handlers + 1;
    }

    /** EdnIOEvent::handler: one task for each event noted. */
    method Handle()
      requires handlers > 0
      modifies this
      ensures State() == Handler(old(State()))
    {
      SpawnIo();
      SpawnEnds();
      noted := NO_BITS;
      handlers := handlers - 1;
    }

    /** The tasks of handler() that run the connect, read and write callbacks. */
    method SpawnIo()
      modifies this`connTasks, this`readTasks, this`writeTasks
      ensures connTasks == old(connTasks) + One(noted.connect)
      ensures readTasks == old(readTasks) + One(noted.read)
      ensures writeTasks == old(writeTasks) + One(noted.write)
    {
      if noted.connect {
        connTasks := connTasks + 1;
      }
      if noted.read {
        readTasks := readTasks + 1;
      }
      if noted.write {
        writeTasks := writeTasks + 1;
      }
    }

    /** The tasks that run the close and error callbacks. */
    method SpawnEnds()
      modifies this`closeTasks, this`errorTasks
      ensures closeTasks == old(closeTasks) + One(noted.close)
      ensures errorTasks == old(errorTasks) + One(noted.error)
    {
      if noted.close {
        closeTasks := closeTasks + 1;
      }
      if noted.error {
        errorTasks := errorTasks + 1;
      }
    }

    /** EdnConnect::Close. */
    method Close()
      modifies this`timer, this`hasTimer, epoll
      ensures State() == CloseFd(old(State()))
    {
      if hasTimer {
        if timer == Armed {
          timer := Deleted;
        }
        hasTimer := false;
      }
      epoll.CloseFd();
    }

    /** The connect task: on_conn, then READ again and re-registration. */
    method RunConnTask()
      requires connTasks > 0
      modifies this, epoll
      ensures State() == ConnTask(old(State()))
    {
      if !hasTimer {
        fault := true;
        return;
      }
      if timer == Armed {
        timer := Deleted;
      }
      hasTimer := false;
      connTasks := connTasks - 1;
      events := events.(read := true);
      var r := epoll.Add(events);
    }

    /** The read task: on_read, then READ again and re-registration. */
    method RunReadTask()
      requires readTasks > 0
      modifies this, epoll
      ensures State() == ReadTask(old(State()))
      ensures events == old(events).(read := true) && readTasks == old(readTasks) - 1
      ensures !epoll.fdClosed ==> epoll.mask.Some? && epoll.mask.value.rd && epoll.mask.value.oneshot
    {
      readTasks := readTasks - 1;
      events := events.(read := true);
      var r := epoll.Add(events);
    }

    /** The write task: on_write, then re-registration. */
    method RunWriteTask(k: nat, failed: bool, restore: bool)
      requires writeTasks > 0
      modifies this, epoll
      ensures State() == WriteTask(old(State()), k, failed, restore)
    {
      writeTasks := writeTasks - 1;
      WriteOut(k, failed, restore);
      var r := epoll.Add(events);
    }

    /** on_write. */
    method WriteOut(k: nat, failed: bool, restore: bool)
      modifies this, epoll
      ensures State() == OnWrite(old(State()), k, failed, restore)
    {
      if out > 0 {
        if failed {
          Close();
          return;
        }
        out := if k < out then out - k else 0;
      }
      if out == 0 {
        events := events.(write := false);
      } else if restore {
        events := events.(write := true);
      }
    }

    /** EdnConnect::SendData; `room` says whether the output buffer takes the n bytes. */
    method Send(n: nat, room: bool) returns (r: int)
      modifies this, epoll
      ensures State() == SendData(old(State()), n, room)
      ensures r == if n == 0 then EDN_ERR_PARAMS_INVALID
                   else if old(status) !in {Connected, Reading, Writing} then EDN_ERROR_CONNECT_UNAVAILABLE
                   else if !room then EDN_ERR_BUFFER_NOT_ENOUGH
                   else if old(events).write || !old(epoll.fdClosed) then EDN_OK
                   else EDN_ERR_SYS_ERROR
    {
      if n == 0 {
        return EDN_ERR_PARAMS_INVALID;
      }
      if status.Rank() < Connected.Rank() || status.Rank() > Writing.Rank() {
        return EDN_ERROR_CONNECT_UNAVAILABLE;
      }
      if !room {
        return EDN_ERR_BUFFER_NOT_ENOUGH;
      }
      out := out + n;
      if events.write {
        return EDN_OK;
      }
      events := events.(write := true);
      r := epoll.Add(events);
    }

    // ---------- a whole run ----------

    method Possible(op: Op) returns (b: bool)
      ensures b == Enabled(State(), op)
    {
      if fault {
        return false;
      }
      match op {
        case OpDeliver(ready) =>
          return !epoll.fdClosed && epoll.mask.Some? && epoll.mask.value != NO_MASK
            && ready != Ready(false, false, false, false, false)
            && (ready.rd ==> epoll.mask.value.rd) && (ready.wr ==> epoll.mask.value.wr)
            && (ready.rdhup ==> epoll.mask.value.rdhup);
        case OpHandler => return handlers > 0;
        case OpConn => return connTasks > 0;
        case OpRead => return readTasks > 0;
        case OpWrite(_, _) => return writeTasks > 0;
        case OpClose => return closeTasks > 0;
        case OpError => return errorTasks > 0;
        case OpTimer => return timer == Armed;
        case OpTimeout => return timer == Fired;
        case _ => return true;
      }
    }

    /** The close and error callbacks, edn_close and the timer. */
    method PerformEnd(op: Op, ghost restore: bool)
      requires Enabled(State(), op) && (op.OpClose? || op.OpError? || op.OpUserClose? || op.OpTimer? || op.OpTimeout?)
      modifies this, epoll
      ensures State() == Step(restore, old(State()), op)
    {
      hide CloseFd;
      if op.OpTimer? {
        timer := Fired;
        return;
      }
      if op.OpClose? {
        closeTasks := closeTasks - 1;
      } else if op.OpError? {
        errorTasks := errorTasks - 1;
      } else if op.OpTimeout? {
        timer := Ran;
      }
      Close();
    }

    method Perform(op: Op, restore: bool)
      requires Enabled(State(), op)
      modifies this, epoll
      ensures State() == Step(restore, old(State()), op)
    {
      hide Deliver, Deliverable, Handler, ConnTask, ReadTask, WriteTask, SendData, CloseFd;
      match op {
        case OpDeliver(ready) => Activate(ready);
        case OpHandler => Handle();
        case OpConn => RunConnTask();
        case OpRead => RunReadTask();
        case OpWrite(k, failed) => RunWriteTask(k, failed, restore);
        case OpSend(n, room) => var r := Send(n, room);
        case _ => PerformEnd(op, restore);
      }
    }

    /** The life of a connection from edn_connect on: whatever comes in whatever order, it is never worse off than the
        theorems about runs allow. */
    method Serve(restore: bool, ops: seq<Op>)
      requires State() == Init()
      modifies this, epoll
      ensures State() == Run(restore, Init(), ops)
      ensures restore ==> !Stranded(State())
      ensures Listening(State()) && readTasks <= 2 && connects <= 1
      ensures !epoll.fdClosed && Quiet(State()) ==> epoll.mask == Some(Mask(true, events.write, true, true, true))
      ensures out + Sent(restore, ops) == Accepted(restore, ops)
    {
      hide Step, Enabled, Init;
      for i := 0 to |ops|
        invariant State() == Run(restore, Init(), ops[..i])
      {
        RunSnoc(restore, Init(), ops[..i], ops[i]);
        assert ops[..i + 1] == ops[..i] + [ops[i]];
        DisabledStep(restore, State(), ops[i]);
        var b := Possible(ops[i]);
        if b {
          Perform(ops[i], restore);
        }
      }
      assert ops[..|ops|] == ops;
      RunFacts(restore, ops);
    }
  }

  lemma DisabledStep(restore: bool, s: Conn, op: Op)
    ensures !Enabled(s, op) ==> Step(restore, s, op) == s
  {
  }

  lemma RunFacts(restore: bool, ops: seq<Op>)
    ensures var s := Run(restore, Init(), ops);
            && (restore ==> !Stranded(s))
            && (!s.closed && Quiet(s) ==> s.mask == Some(Mask(true, s.events.write, true, true, true)))
            && Listening(s) && s.readTasks <= 2 && s.connects <= 1
            && s.out + Sent(restore, ops) == Accepted(restore, ops)
  {
    hide Step, Init, Sent, Accepted;
    NeverStrandedIffRestored(restore);
    NeverDeaf(restore, ops);
    OutputIsCounted(restore, ops);
    TwoReadersAtMost(restore, ops);
    ConnectOnce(restore, ops, WRITABLE);
  }

  /** ConvertEvents neither reads nor changes the kernel's registration. */
  lemma ConvertSkipsMask(s: Conn, ready: Ready, mask: Option<Mask>)
    ensures Convert(s.(mask := mask), ready) ==
            (Convert(s, ready).0, Convert(s, ready).1.(mask := mask))
    ensures Convert(s, ready).1 == s.(status := Convert(s, ready).1.status, events := Convert(s, ready).1.events,
                                      connects := Convert(s, ready).1.connects)
  {
  }
}
