/** One connection between the kernel, the event loop and the thread pool, as a state machine.

A step is atomic: a delivery with its conversion, the handler that spawns tasks, one task with its callback and the
re-registration at its end, one call of the API, the firing of the connect timer. */
module ConnectSpec {
  import opened EdnDefine

  /** EdnEventType, bit by bit; TIMEOUT belongs to timers only. */
  datatype Bits = Bits(write: bool, read: bool, persist: bool, signal: bool, error: bool, close: bool, connect: bool,
                       et: bool)

  const NO_BITS := Bits(false, false, false, false, false, false, false, false)

  /** The bits of the kernel interface, asked for (Mask) and reported (Ready). */
  datatype Mask = Mask(rd: bool, wr: bool, rdhup: bool, oneshot: bool, edge: bool)

  const NO_MASK := Mask(false, false, false, false, false)

  datatype Ready = Ready(rd: bool, wr: bool, err: bool, hup: bool, rdhup: bool)

  /** ConnectStatus; the order of the values matters to SendData. */
  datatype Status = NoStatus | Connecting | Connected | Reading | Writing | Failed | Closing {
    function Rank(): nat {
      match this
      case NoStatus => 0
      case Connecting => 1
      case Connected => 2
      case Reading => 3
      case Writing => 4
      case Failed => 5
      case Closing => 6
    }
  }

  /** The connect timer: in the timer group, deleted from it, fired with its callback queued, callback run. */
  datatype Timer = Armed | Deleted | Fired | Ran

  datatype Conn = Conn(
    events: Bits,                 // events_, the interest
    mask: Option<Mask>,           // what the kernel has for the fd; empty once a one-shot has fired
    status: Status,               // connect_status_
    noted: Bits,                  // real_events_
    handlers: nat,                // queued or running in the pool: handler(), and the five callbacks
    connTasks: nat,
    readTasks: nat,
    writeTasks: nat,
    closeTasks: nat,
    errorTasks: nat,
    out: nat,                     // bytes in output_buffer_
    hasTimer: bool,               // timer_ != nullptr
    timer: Timer,
    closed: bool,                 // the fd has been closed
    connects: nat,                // how often CONNECT was emitted
    fault: bool                   // a null pointer was used
  )

  /** EdnEpoll::convert_events. */
  function Interest(events: Bits): Mask {
    var io := events.read || events.write;
    Mask(events.read || events.signal, events.write, io, io, events.et)
  }

  /** edn_connect: the connection is registered and its timer is in the group. */
  const INITIAL_EVENTS := Bits(true, true, true, false, true, true, true, true)

  function Init(): Conn {
    Conn(INITIAL_EVENTS, Some(Interest(INITIAL_EVENTS)), Connecting, NO_BITS,
         0, 0, 0, 0, 0, 0, 0, true, Armed, false, 0, false)
  }

  /** EdnEpoll::add, with EPOLL_CTL_MOD when the fd is known; it fails, without effect, on a closed fd. */
  function Add(s: Conn): Conn {
    if s.closed then s else s.(mask := Some(Interest(s.events)))
  }

  /** EdnIOEvent::ConvertEvents: the events emitted and the new state. */
  function Convert(s: Conn, ready: Ready): (Bits, Conn) {
    if ready.err then (NO_BITS.(error := true), s.(status := Failed))
    else if ready.hup || ready.rdhup then (NO_BITS.(close := true), s.(status := Closing))
    else
      var conn := ready.wr && s.status == Connecting;
      var status := if ready.rd then Reading else if ready.wr then Writing else s.status;
      var events := s.events.(write := s.events.write && !ready.wr, read := s.events.read && !ready.rd);
      (NO_BITS.(connect := conn, write := ready.wr, read := ready.rd),
       s.(status := status, events := events, connects := s.connects + if conn then 1 else 0))
  }

  /** What epoll_wait may report: of reading, writing and the peer's shutdown what was asked for, errors and hang-ups
      unasked; nothing at all once a one-shot has fired. */
  predicate Deliverable(s: Conn, ready: Ready) {
    && !s.closed && s.mask.Some? && s.mask.value != NO_MASK && ready != Ready(false, false, false, false, false)
    && (ready.rd ==> s.mask.value.rd) && (ready.wr ==> s.mask.value.wr) && (ready.rdhup ==> s.mask.value.rdhup)
  }

  function Union(a: Bits, b: Bits): Bits {
    Bits(a.write || b.write, a.read || b.read, a.persist || b.persist, a.signal || b.signal, a.error || b.error,
         a.close || b.close, a.connect || b.connect, a.et || b.et)
  }

  /** A delivery: a one-shot registration is disarmed, the events are converted and noted, handler() is queued. */
  function Deliver(s: Conn, ready: Ready): Conn {
    var (ev, s1) := Convert(s, ready);
    s1.(mask := if s.mask.Some? && s.mask.value.oneshot then Some(NO_MASK) else s.mask,
        noted := Union(s.noted, ev), handlers := s.handlers + 1)
  }

  function One(b: bool): nat {
    if b then 1 else 0
  }

  /** EdnIOEvent::handler. */
  function Handler(s: Conn): Conn
    requires s.handlers > 0
  {
    Conn(s.events, s.mask, s.status, NO_BITS, s.handlers - 1, s.connTasks + One(s.noted.connect),
         s.readTasks + One(s.noted.read), s.writeTasks + One(s.noted.write), s.closeTasks + One(s.noted.close),
         s.errorTasks + One(s.noted.error), s.out, s.hasTimer, s.timer, s.closed, s.connects, s.fault)
  }

  /** EdnConnect::Close. */
  function CloseFd(s: Conn): Conn {
    s.(timer := if s.hasTimer && s.timer == Armed then Deleted else s.timer, hasTimer := false,
       closed := true, mask := None)
  }

  /** The connect task: on_conn uses timer_ unchecked. */
  function ConnTask(s: Conn): Conn
    requires s.connTasks > 0
  {
    if !s.hasTimer then s.(fault := true)
    else
      Add(s.(connTasks := s.connTasks - 1, timer := if s.timer == Armed then Deleted else s.timer, hasTimer := false,
             events := s.events.(read := true)))
  }

  function ReadTask(s: Conn): Conn
    requires s.readTasks > 0
  {
    Add(s.(readTasks := s.readTasks - 1, events := s.events.(read := true)))
  }

  /** on_write, with k the bytes SendAtMost gets rid of or a failure of it. `restore` is the repair: ask for WRITE
      again when bytes are left. */
  function OnWrite(s: Conn, k: nat, failed: bool, restore: bool): Conn {
    if s.out > 0 && failed then CloseFd(s)
    else
      var left := if k < s.out then s.out - k else 0;
      if left == 0 then s.(out := 0, events := s.events.(write := false))
      else s.(out := left, events := if restore then s.events.(write := true) else s.events)
  }

  function WriteTask(s: Conn, k: nat, failed: bool, restore: bool): Conn
    requires s.writeTasks > 0
  {
    Add(OnWrite(s.(writeTasks := s.writeTasks - 1), k, failed, restore))
  }

  /** EdnConnect::SendData of n bytes; `room` says whether the output buffer takes them. */
  function SendData(s: Conn, n: nat, room: bool): Conn {
    if n == 0 || s.status.Rank() < 2 || s.status.Rank() > 4 || !room then s
    else
      var s1 := s.(out := s.out + n);
      if s.events.write then s1 else Add(s1.(events := s.events.(write := true)))
  }

  datatype Op =
    | OpDeliver(ready: Ready)
    | OpHandler
    | OpConn
    | OpRead
    | OpWrite(k: nat, failed: bool)
    | OpClose
    | OpError
    | OpSend(n: nat, room: bool)
    | OpUserClose
    | OpTimer
    | OpTimeout

  predicate Enabled(s: Conn, op: Op) {
    !s.fault &&
    match op
    case OpDeliver(ready) => Deliverable(s, ready)
    case OpHandler => s.handlers > 0
    case OpConn => s.connTasks > 0
    case OpRead => s.readTasks > 0
    case OpWrite(_, _) => s.writeTasks > 0
    case OpClose => s.closeTasks > 0
    case OpError => s.errorTasks > 0
    case OpSend(_, _) => true
    case OpUserClose => true
    case OpTimer => s.timer == Armed
    case OpTimeout => s.timer == Fired
  }

  /** One step; an operation that is not possible now changes nothing. */
  function Step(restore: bool, s: Conn, op: Op): Conn {
    if !Enabled(s, op) then s
    else match op
      case OpDeliver(ready) => Deliver(s, ready)
      case OpHandler => Handler(s)
      case OpConn => ConnTask(s)
      case OpRead => ReadTask(s)
      case OpWrite(k, failed) => WriteTask(s, k, failed, restore)
      case OpClose => CloseFd(s.(closeTasks := s.closeTasks - 1))
      case OpError => CloseFd(s.(errorTasks := s.errorTasks - 1))
      case OpSend(n, room) => SendData(s, n, room)
      case OpUserClose => CloseFd(s)
      case OpTimer => s.(timer := Fired)
      case OpTimeout => CloseFd(s.(timer := Ran))
  }

  function Run(restore: bool, s: Conn, ops: seq<Op>): Conn
    decreases |ops|
  {
    if ops == [] then s else Run(restore, Step(restore, s, ops[0]), ops[1..])
  }

  lemma {:induction false} RunSnoc(restore: bool, s: Conn, ops: seq<Op>, op: Op)
    ensures Run(restore, s, ops + [op]) == Step(restore, Run(restore, s, ops), op)
    decreases |ops|
  {
    hide Step;
    if ops == [] {
      assert [op][1..] == [] && ops + [op] == [op];
    } else {
      assert (ops + [op])[1..] == ops[1..] + [op];
      RunSnoc(restore, Step(restore, s, ops[0]), ops[1..], op);
    }
  }

  /** edn_connect with a timeout that has passed when the timer is added: its callback is in the pool at once. What
      comes of that is a run from the usual start, so that whatever is proved of all runs covers it. */
  lemma ExpiredConnectIsARun(restore: bool, ops: seq<Op>)
    ensures Run(restore, Init().(timer := Fired), ops) == Run(restore, Init(), [OpTimer] + ops)
  {
    var all := [OpTimer] + ops;
    assert all[0] == OpTimer && all[1..] == ops;
  }

  // ---------- what every step keeps ----------

  /** Read callbacks running, queued, or about to be queued. */
  function Readers(s: Conn): nat {
    s.readTasks + One(s.noted.read)
  }

  function Writers(s: Conn): nat {
    s.writeTasks + One(s.noted.write)
  }

  /** Connect callbacks still to be run. */
  function Connecters(s: Conn): nat {
    s.connTasks + One(s.noted.connect)
  }

  /** Nothing of this connection is noted or in the pool, but for handlers that will find nothing to do. */
  predicate Quiet(s: Conn) {
    && s.noted == NO_BITS && s.connTasks == 0 && s.readTasks == 0 && s.writeTasks == 0
    && s.closeTasks == 0 && s.errorTasks == 0
  }

  /** The kernel and the interest. */
  ghost predicate Registered(s: Conn) {
    // noted events wait for a handler
    && (s.noted != NO_BITS ==> s.handlers > 0)
    && !s.noted.persist && !s.noted.signal && !s.noted.et && !s.events.signal && s.events.et
    // a closed fd is out of the kernel; an open one is registered
    && (s.closed <==> s.mask.None?)
    // armed directions are wanted directions, and one-shot
    && (s.mask.Some? && s.mask.value.rd ==> s.events.read)
    && (s.mask.Some? && s.mask.value.wr ==> s.events.write)
    && (s.mask.Some? && (s.mask.value.rd || s.mask.value.wr || s.mask.value.rdhup) ==> s.mask.value.oneshot)
    // no lost re-arm: the kernel has the interest whenever nothing is outstanding
    && (!s.closed && Quiet(s) ==> s.mask == Some(Interest(s.events)))
  }

  /** CONNECT and the readers. */
  ghost predicate Counted(s: Conn) {
    && s.connects <= 1 && (s.status == Connecting ==> s.connects == 0)
    && Connecters(s) <= s.connects
    && Readers(s) + One(s.events.read) + Connecters(s) + One(s.status == Connecting) <= 2
  }

  /** timer_ is there until the connect task or Close, and the timer is deleted no later. */
  ghost predicate Timed(s: Conn) {
    && (s.hasTimer ==> !s.closed)
    && (!s.closed && !s.hasTimer ==> Connecters(s) == 0 && s.connects == 1)
    && (s.timer == Ran ==> s.closed)
    && (s.timer == Armed ==> s.hasTimer)
  }

  ghost predicate Inv(s: Conn) {
    Registered(s) && Counted(s) && Timed(s)
  }

  lemma InitInv()
    ensures Inv(Init())
  {
    assert Registered(Init());
    assert Counted(Init());
  }

  lemma DeliverKeepsInv(s: Conn, ready: Ready)
    requires Inv(s) && Deliverable(s, ready)
    ensures Inv(Deliver(s, ready))
  {
    assert Registered(Deliver(s, ready));
    assert Counted(Deliver(s, ready));
  }

  lemma HandlerKeepsInv(s: Conn)
    requires Inv(s) && s.handlers > 0
    ensures Inv(Handler(s))
  {
    assert Registered(Handler(s));
    assert Counted(Handler(s));
  }

  lemma ConnTaskKeepsInv(s: Conn)
    requires Inv(s) && s.connTasks > 0
    ensures Inv(ConnTask(s))
  {
    assert Registered(ConnTask(s));
    assert Counted(ConnTask(s));
  }

  lemma ReadTaskKeepsInv(s: Conn)
    requires Inv(s) && s.readTasks > 0
    ensures Inv(ReadTask(s))
  {
    assert Registered(ReadTask(s));
    assert Counted(ReadTask(s));
  }

  lemma WriteTaskKeepsInv(s: Conn, k: nat, failed: bool, restore: bool)
    requires Inv(s) && s.writeTasks > 0
    ensures Inv(WriteTask(s, k, failed, restore))
  {
    hide Inv, Interest, Add, CloseFd;
    var s1 := s.(writeTasks := s.writeTasks - 1);
    var left := if k < s.out then s.out - k else 0;
    if s.out > 0 && failed {
      FailedWriteKeepsInv(s);
    } else if left == 0 {
      RearmKeepsInv(s, 0, s1.events.(write := false));
    } else {
      RearmKeepsInv(s, left, if restore then s1.events.(write := true) else s1.events);
    }
  }

  lemma FailedWriteKeepsInv(s: Conn)
    requires Inv(s) && s.writeTasks > 0
    ensures Inv(Add(CloseFd(s.(writeTasks := s.writeTasks - 1))))
  {
  }

  lemma RearmKeepsInv(s: Conn, out: nat, events: Bits)
    requires Inv(s) && s.writeTasks > 0 && events == s.events.(write := events.write)
    ensures Inv(Add(s.(writeTasks := s.writeTasks - 1).(out := out, events := events)))
  {
    var s1 := Add(s.(writeTasks := s.writeTasks - 1).(out := out, events := events));
    assert Registered(s1);
    assert Counted(s1);
  }

  lemma SendKeepsInv(s: Conn, n: nat, room: bool)
    requires Inv(s)
    ensures Inv(SendData(s, n, room))
  {
    hide Inv, Interest, Add;
    MoreOutKeepsInv(s, s.out + n);
    AskWriteKeepsInv(s, s.out + n);
  }

  lemma MoreOutKeepsInv(s: Conn, out: nat)
    requires Inv(s)
    ensures Inv(s.(out := out))
  {
    assert Registered(s.(out := out));
    assert Counted(s.(out := out));
  }

  lemma AskWriteKeepsInv(s: Conn, out: nat)
    requires Inv(s)
    ensures Inv(Add(s.(out := out).(events := s.events.(write := true))))
  {
    var s1 := Add(s.(out := out).(events := s.events.(write := true)));
    assert Registered(s1);
    assert Counted(s1);
  }

  /** Closing, whoever asks for it. */
  lemma CloseKeepsInv(s: Conn, closeTasks: nat, errorTasks: nat, timer: Timer)
    requires Inv(s) && (timer == s.timer || timer == Ran)
    ensures Inv(CloseFd(s.(closeTasks := closeTasks, errorTasks := errorTasks, timer := timer)))
  {
  }

  lemma StepKeepsInv(restore: bool, s: Conn, op: Op)
    requires Inv(s)
    ensures Inv(Step(restore, s, op))
  {
    hide Inv, Deliver, Handler, ConnTask, ReadTask, WriteTask, SendData, CloseFd, Deliverable;
    if Enabled(s, op) {
      match op
      case OpDeliver(ready) => DeliverKeepsInv(s, ready);
      case OpHandler => HandlerKeepsInv(s);
      case OpConn => ConnTaskKeepsInv(s);
      case OpRead => ReadTaskKeepsInv(s);
      case OpWrite(k, failed) => WriteTaskKeepsInv(s, k, failed, restore);
      case OpClose => CloseKeepsInv(s, s.closeTasks - 1, s.errorTasks, s.timer);
      case OpError => CloseKeepsInv(s, s.closeTasks, s.errorTasks - 1, s.timer);
      case OpSend(n, room) => SendKeepsInv(s, n, room);
      case OpUserClose => CloseKeepsInv(s, s.closeTasks, s.errorTasks, s.timer);
      case OpTimer => TimerKeepsInv(s);
      case OpTimeout => CloseKeepsInv(s, s.closeTasks, s.errorTasks, Ran);
    }
  }

  lemma TimerKeepsInv(s: Conn)
    requires Inv(s)
    ensures Inv(s.(timer := Fired))
  {
  }

  lemma {:induction false} RunKeepsInv(restore: bool, s: Conn, ops: seq<Op>)
    requires Inv(s)
    ensures Inv(Run(restore, s, ops))
    decreases |ops|
  {
    if ops != [] {
      StepKeepsInv(restore, s, ops[0]);
      RunKeepsInv(restore, Step(restore, s, ops[0]), ops[1..]);
    }
  }

  // ---------- no lost re-arm ----------

  /** In every reachable state of an open connection with nothing outstanding the kernel has exactly the interest; so
      SendData may leave the registration alone when WRITE is already wanted. */
  lemma NoLostRearm(restore: bool, ops: seq<Op>)
    ensures var s := Run(restore, Init(), ops);
            !s.closed && Quiet(s) ==> s.mask == Some(Interest(s.events))
  {
    InitInv();
    RunKeepsInv(restore, Init(), ops);
  }

  // ---------- readers ----------

  /** Two read callbacks at most, over every run. */
  lemma TwoReadersAtMost(restore: bool, ops: seq<Op>)
    ensures Run(restore, Init(), ops).readTasks <= 2
  {
    InitInv();
    RunKeepsInv(restore, Init(), ops);
  }

  const BOTH := Ready(true, true, false, false, false)
  const READABLE := Ready(true, false, false, false, false)
  const WRITABLE := Ready(false, true, false, false, false)

  /** Bytes arrive with the connection, and again after the connect task asked for READ. */
  const TWO_READERS := [OpDeliver(BOTH), OpHandler, OpConn, OpDeliver(READABLE), OpHandler]

  /** What holds after i steps of that run. */
  ghost predicate TwoReadersAt(s: Conn, i: nat) {
    && !s.closed && !s.fault && s.hasTimer == (i <= 2)
    && (s.status == Connecting <==> i == 0)
    && s.handlers == One(i == 1 || i == 4) && s.connTasks == One(i == 2)
    && s.readTasks == (if i <= 1 then 0 else if i <= 4 then 1 else 2)
    && s.noted.connect == (i == 1) && s.noted.read == (i == 1 || i == 4)
    && (i == 0 || i == 3 ==> s.events.read && s.mask == Some(Interest(s.events)))
    && (i == 0 ==> s.events.write)
  }

  lemma TwoReadersStep(restore: bool, s: Conn, i: nat)
    requires i < 5 && TwoReadersAt(s, i)
    ensures TwoReadersAt(Step(restore, s, TWO_READERS[i]), i + 1)
  {
  }

  lemma {:induction false} TwoReadersRun(restore: bool, s: Conn, i: nat)
    requires i <= 5 && TwoReadersAt(s, i)
    ensures TwoReadersAt(Run(restore, s, TWO_READERS[i..]), 5)
    decreases 5 - i
  {
    hide TwoReadersAt, Step;
    if i < 5 {
      assert TWO_READERS[i..][1..] == TWO_READERS[i + 1..];
      TwoReadersStep(restore, s, i);
      TwoReadersRun(restore, Step(restore, s, TWO_READERS[i]), i + 1);
    }
  }

  /** And two do happen. */
  lemma TwoReadersHappen(restore: bool)
    ensures Run(restore, Init(), TWO_READERS).readTasks == 2
  {
    TwoReadersRun(restore, Init(), 0);
    assert TWO_READERS[0..] == TWO_READERS;
  }

  /** Connecting is over, and at most one read is going on or wanted. */
  ghost predicate OneReader(s: Conn) {
    Inv(s) && s.status != Connecting && Connecters(s) == 0 && Readers(s) + One(s.events.read) <= 1
  }

  lemma StepKeepsOneReader(restore: bool, s: Conn, op: Op)
    requires OneReader(s)
    ensures OneReader(Step(restore, s, op))
  {
    StepKeepsInv(restore, s, op);
    ReadingIsWanted(s);
    hide Inv, Interest;
    if Enabled(s, op) {
      match op
      case OpDeliver(ready) => DeliverKeepsReaders(s, ready);
      case OpHandler => HandlerKeepsReaders(s);
      case OpConn =>
      case OpRead =>
      case OpWrite(k, failed) => WriteTaskKeepsReaders(s, k, failed, restore);
      case _ =>
    }
  }

  lemma DeliverKeepsReaders(s: Conn, ready: Ready)
    requires Registered(s) && Deliverable(s, ready) && s.status != Connecting
    ensures var s1 := Deliver(s, ready);
            && s1.status != Connecting && Connecters(s1) == Connecters(s)
            && Readers(s1) + One(s1.events.read) <= Readers(s) + One(s.events.read)
  {
  }

  lemma HandlerKeepsReaders(s: Conn)
    requires s.handlers > 0
    ensures var s1 := Handler(s);
            && s1.status == s.status && Connecters(s1) == Connecters(s)
            && Readers(s1) == Readers(s) && s1.events == s.events
  {
  }

  lemma WriteTaskKeepsReaders(s: Conn, k: nat, failed: bool, restore: bool)
    requires s.writeTasks > 0
    ensures var s1 := WriteTask(s, k, failed, restore);
            && s1.status == s.status && Connecters(s1) == Connecters(s)
            && Readers(s1) == Readers(s) && s1.events.read == s.events.read
  {
  }

  lemma ReadingIsWanted(s: Conn)
    requires Inv(s)
    ensures Registered(s)
  {
  }

  lemma {:induction false} RunKeepsOneReader(restore: bool, s: Conn, ops: seq<Op>)
    requires OneReader(s)
    ensures OneReader(Run(restore, s, ops))
    decreases |ops|
  {
    if ops != [] {
      StepKeepsOneReader(restore, s, ops[0]);
      RunKeepsOneReader(restore, Step(restore, s, ops[0]), ops[1..]);
    }
  }

  /** Reader exclusivity: after the connect task, no run ever has two read callbacks at once exactly if none was
      outstanding when it ended. */
  lemma ExclusiveIffConnectedIdle(restore: bool, s: Conn)
    requires Inv(s) && !s.fault && !s.closed && s.connTasks > 0
    ensures (forall ops :: Readers(Run(restore, Step(restore, s, OpConn), ops)) <= 1) <==> Readers(s) == 0
  {
    var s1 := Step(restore, s, OpConn);
    StepKeepsInv(restore, s, OpConn);
    assert s1 == ConnTask(s) && !s1.fault;
    if Readers(s) == 0 {
      forall ops
        ensures Readers(Run(restore, s1, ops)) <= 1
      {
        RunKeepsOneReader(restore, s1, ops);
      }
    } else {
      ConnectedReaderIsJoined(restore, s1);
    }
  }

  /** With a reader outstanding and READ registered, the next bytes call in a second one. */
  lemma ConnectedReaderIsJoined(restore: bool, s: Conn)
    requires Inv(s) && !s.fault && !s.closed && Readers(s) == 1 && s.events.read
    requires s.mask == Some(Interest(s.events))
    ensures Readers(Run(restore, s, [OpHandler, OpDeliver(READABLE)])) == 2
  {
    var ops := [OpHandler, OpDeliver(READABLE)];
    var s1 := Step(restore, s, ops[0]);
    assert s1.readTasks == 1 && !s1.noted.read && s1.mask == s.mask && !s1.closed && !s1.fault && s1.events == s.events;
    assert Deliverable(s1, READABLE);
    assert ops[1..] == [ops[1]] && ops[1..][1..] == [];
    assert Run(restore, s, ops) == Run(restore, s1, ops[1..]) == Step(restore, s1, ops[1]);
  }

  // ---------- what atomic re-registration hides ----------

  /** A read task whose add() is cut in two, by a SendData between reading the interest and handing it to the kernel. */
  function StaleAdd(s: Conn, n: nat): Conn
    requires s.readTasks > 0
  {
    var s1 := s.(readTasks := s.readTasks - 1, events := s.events.(read := true));
    var s2 := SendData(s1, n, true);
    if s2.closed then s2 else s2.(mask := Some(Interest(s1.events)))
  }

  /** The kernel then misses the interest exactly if that SendData began to want WRITE, and no later SendData helps,
      because it finds WRITE wanted already. */
  lemma StaleAddLosesWrite(s: Conn, n: nat, m: nat, room: bool)
    requires !s.closed && s.readTasks > 0
    ensures var s' := StaleAdd(s, n);
            && (s'.mask != Some(Interest(s'.events)) <==> s'.events.write && !s.events.write)
            && (s'.events.write && !s.events.write ==>
                  s'.out > 0 && !s'.mask.value.wr && SendData(s', m, room).mask == s'.mask)
  {
  }

  // ---------- output ----------

  /** Bytes are waiting and nobody will ever be told: no write callback is coming, and WRITE is not wanted. */
  predicate Stranded(s: Conn) {
    !s.closed && s.out > 0 && !s.events.write && Writers(s) == 0
  }

  /** The one way in: the last write callback leaves bytes behind and, as written, does not ask for WRITE again. */
  lemma StrandedIffPartialWrite(restore: bool, s: Conn, op: Op)
    requires Inv(s) && !s.fault && !Stranded(s)
    ensures Stranded(Step(restore, s, op)) <==>
            && op.OpWrite? && !op.failed && !restore && !s.closed
            && op.k < s.out && !s.events.write && s.writeTasks == 1 && !s.noted.write
  {
    hide Inv, Step, Stranded;
    ReadingIsWanted(s);
    match op
    case OpWrite(k, failed) => WriteTaskStrands(restore, s, k, failed);
    case OpDeliver(ready) => DeliveryStrandsNothing(restore, s, ready);
    case OpHandler => HandlerStrandsNothing(restore, s);
    case OpSend(n, room) => SendStrandsNothing(restore, s, n, room);
    case _ => OthersStrandNothing(restore, s, op);
  }

  lemma DeliveryStrandsNothing(restore: bool, s: Conn, ready: Ready)
    requires Registered(s) && !Stranded(s)
    ensures !Stranded(Step(restore, s, OpDeliver(ready)))
  {
  }

  lemma HandlerStrandsNothing(restore: bool, s: Conn)
    requires !Stranded(s)
    ensures !Stranded(Step(restore, s, OpHandler))
  {
  }

  lemma SendStrandsNothing(restore: bool, s: Conn, n: nat, room: bool)
    requires !Stranded(s)
    ensures !Stranded(Step(restore, s, OpSend(n, room)))
  {
  }

  lemma OthersStrandNothing(restore: bool, s: Conn, op: Op)
    requires !Stranded(s) && !op.OpDeliver? && !op.OpHandler? && !op.OpWrite? && !op.OpSend?
    ensures !Stranded(Step(restore, s, op))
  {
  }

  lemma WriteTaskStrands(restore: bool, s: Conn, k: nat, failed: bool)
    requires !s.fault && !Stranded(s)
    ensures Stranded(Step(restore, s, OpWrite(k, failed))) <==>
            && !failed && !restore && !s.closed
            && k < s.out && !s.events.write && s.writeTasks == 1 && !s.noted.write
  {
  }

  /** The way out: new output, or the end of the connection. Everything else leaves stranded bytes where they are. */
  lemma StrandedUntilSend(restore: bool, s: Conn, op: Op)
    requires Inv(s) && Stranded(s) && !op.OpSend?
    ensures Stranded(Step(restore, s, op)) || Step(restore, s, op).closed
    ensures Step(restore, s, op).out == s.out
  {
    hide Inv, Step, Stranded;
    ReadingIsWanted(s);
    match op
    case OpDeliver(ready) => StrandedThroughDelivery(restore, s, ready);
    case OpHandler => StrandedThroughHandler(restore, s);
    case _ => StrandedThrough(restore, s, op);
  }

  lemma StrandedThroughDelivery(restore: bool, s: Conn, ready: Ready)
    requires Registered(s) && Stranded(s)
    ensures Stranded(Step(restore, s, OpDeliver(ready))) && Step(restore, s, OpDeliver(ready)).out == s.out
  {
    assert !ready.wr || !Deliverable(s, ready);
  }

  lemma StrandedThroughHandler(restore: bool, s: Conn)
    requires Stranded(s)
    ensures Stranded(Step(restore, s, OpHandler)) && Step(restore, s, OpHandler).out == s.out
  {
  }

  lemma StrandedThrough(restore: bool, s: Conn, op: Op)
    requires Stranded(s) && !op.OpSend? && !op.OpDeliver? && !op.OpHandler?
    ensures Stranded(Step(restore, s, op)) || Step(restore, s, op).closed
    ensures Step(restore, s, op).out == s.out
  {
  }

  lemma {:induction false} NeverStrandedFrom(s: Conn, ops: seq<Op>)
    requires Inv(s) && !Stranded(s)
    ensures !Stranded(Run(true, s, ops))
    decreases |ops|
  {
    if ops != [] {
      StepKeepsInv(true, s, ops[0]);
      if s.fault {
        assert Step(true, s, ops[0]) == s;
      } else {
        StrandedIffPartialWrite(true, s, ops[0]);
      }
      NeverStrandedFrom(Step(true, s, ops[0]), ops[1..]);
    }
  }

  /** Output is never stranded, over every run, exactly if the write task restores WRITE after a partial send. */
  lemma NeverStrandedIffRestored(restore: bool)
    ensures (forall ops :: !Stranded(Run(restore, Init(), ops))) <==> restore
  {
    if restore {
      forall ops
        ensures !Stranded(Run(restore, Init(), ops))
      {
        InitInv();
        NeverStrandedFrom(Init(), ops);
      }
    } else {
      StrandedHappens();
    }
  }

  /** The connection opens, ten bytes are sent, the socket takes four of them. */
  const STRANDING := [OpDeliver(WRITABLE), OpHandler, OpConn, OpWrite(0, false), OpSend(10, true), OpDeliver(WRITABLE),
                      OpHandler, OpWrite(4, false)]

  /** What holds after i steps of that run. */
  ghost predicate StrandingAt(s: Conn, i: nat) {
    && !s.closed && !s.fault && s.hasTimer == (i <= 2)
    && s.status == (if i == 0 then Connecting else Writing)
    && s.handlers == One(i == 1 || i == 6) && s.connTasks == One(i == 2)
    && s.writeTasks == One(i == 2 || i == 3 || i == 7)
    && s.noted.connect == (i == 1) && s.noted.write == (i == 1 || i == 6)
    && s.events.write == (i == 0 || i == 5)
    && (i == 0 || i == 5 ==> s.mask == Some(Interest(s.events)))
    && s.out == if i < 5 then 0 else if i < 8 then 10 else 6
  }

  lemma StrandingStep(s: Conn, i: nat)
    requires i < 8 && StrandingAt(s, i)
    ensures StrandingAt(Step(false, s, STRANDING[i]), i + 1)
  {
  }

  lemma {:induction false} StrandingRun(s: Conn, i: nat)
    requires i <= 8 && StrandingAt(s, i)
    ensures StrandingAt(Run(false, s, STRANDING[i..]), 8)
    decreases 8 - i
  {
    hide StrandingAt, Step;
    if i < 8 {
      assert STRANDING[i..][1..] == STRANDING[i + 1..];
      StrandingStep(s, i);
      StrandingRun(Step(false, s, STRANDING[i]), i + 1);
    }
  }

  lemma StrandedHappens()
    ensures Stranded(Run(false, Init(), STRANDING)) && Run(false, Init(), STRANDING).out == 6
  {
    StrandingRun(Init(), 0);
    assert STRANDING[0..] == STRANDING;
  }

  // ---------- connecting and its timeout ----------

  /** CONNECT is emitted at most once over every run, and only together with WRITE. */
  lemma ConnectOnce(restore: bool, ops: seq<Op>, ready: Ready)
    ensures Run(restore, Init(), ops).connects <= 1
    ensures var s := Run(restore, Init(), ops);
            Convert(s, ready).0.connect ==> Convert(s, ready).0.write && s.connects == 0
  {
    InitInv();
    RunKeepsInv(restore, Init(), ops);
  }

  lemma NoConnectStep(restore: bool, s: Conn, op: Op)
    requires s.status != Connecting
    ensures Step(restore, s, op).status != Connecting && Step(restore, s, op).connects == s.connects
  {
    hide Deliverable, Add, Interest, CloseFd;
    match op
    case OpDeliver(ready) => NoConnectDelivered(restore, s, ready);
    case _ => NoConnectOther(restore, s, op);
  }

  lemma NoConnectDelivered(restore: bool, s: Conn, ready: Ready)
    requires s.status != Connecting
    ensures var s1 := Step(restore, s, OpDeliver(ready));
            s1.status != Connecting && s1.connects == s.connects
  {
    hide Deliverable;
  }

  lemma NoConnectOther(restore: bool, s: Conn, op: Op)
    requires !op.OpDeliver?
    ensures Step(restore, s, op).status == s.status && Step(restore, s, op).connects == s.connects
  {
  }

  lemma {:induction false} NoConnectLater(restore: bool, s: Conn, ops: seq<Op>)
    requires s.status != Connecting
    ensures Run(restore, s, ops).connects == s.connects
    decreases |ops|
  {
    hide Step;
    if ops != [] {
      NoConnectStep(restore, s, ops[0]);
      NoConnectLater(restore, Step(restore, s, ops[0]), ops[1..]);
    }
  }

  /** The first delivery decides for good whether the connect task ever runs: it does exactly if that delivery says
      writable and neither error nor hang-up. Bytes that arrive first, on their own, already rule it out. */
  lemma FirstDeliveryDecides(restore: bool, ready: Ready, ops: seq<Op>)
    requires Deliverable(Init(), ready)
    ensures Run(restore, Step(restore, Init(), OpDeliver(ready)), ops).connects ==
            One(ready.wr && !ready.err && !ready.hup && !ready.rdhup)
  {
    NoConnectLater(restore, Deliver(Init(), ready), ops);
  }

  /** A timer deleted before it fires never runs its callback. */
  lemma {:induction false} DeletedTimerNeverRuns(restore: bool, s: Conn, ops: seq<Op>)
    requires s.timer == Deleted
    ensures Run(restore, s, ops).timer == Deleted
    decreases |ops|
  {
    hide Step;
    if ops != [] {
      TimerStaysDeleted(restore, s, ops[0]);
      DeletedTimerNeverRuns(restore, Step(restore, s, ops[0]), ops[1..]);
    }
  }

  lemma TimerStaysDeleted(restore: bool, s: Conn, op: Op)
    requires s.timer == Deleted
    ensures Step(restore, s, op).timer == Deleted
  {
  }

  /** Connect handling that comes before the timer fires rules the timeout out. */
  lemma ConnectBeatsTimeout(restore: bool, s: Conn, ops: seq<Op>)
    requires Inv(s) && !s.fault && !s.closed && s.connTasks > 0 && s.timer == Armed
    ensures Run(restore, Step(restore, s, OpConn), ops).timer == Deleted
  {
    DeletedTimerNeverRuns(restore, Step(restore, s, OpConn), ops);
  }

  /** The connect task uses a null timer exactly if the connection was closed before it ran. */
  lemma ConnTaskFaultsIffClosed(restore: bool, s: Conn)
    requires Inv(s) && !s.fault && s.connTasks > 0
    ensures Step(restore, s, OpConn).fault <==> s.closed
  {
  }

  /** The connection opens, and the timeout runs before the connect task does. */
  const LATE_CONNECT := [OpDeliver(WRITABLE), OpHandler, OpTimer, OpTimeout, OpConn]

  ghost predicate LateConnectAt(s: Conn, i: nat) {
    && Inv(s) && s.fault == (i == 5) && s.closed == (i >= 4)
    && (i == 0 ==> s == Init())
    && s.handlers == One(i == 1) && s.noted.connect == (i == 1) && s.connTasks == One(i >= 2)
    && s.timer == if i <= 2 then Armed else if i == 3 then Fired else Ran
  }

  lemma LateConnectStep(restore: bool, s: Conn, i: nat)
    requires i < 5 && LateConnectAt(s, i)
    ensures LateConnectAt(Step(restore, s, LATE_CONNECT[i]), i + 1)
  {
    hide LateConnectAt, Step;
    if i == 0 {
      LateConnectDelivered(restore, s);
    } else if i < 4 {
      LateConnectTimesOut(restore, s, i);
    } else {
      LateConnectFaults(restore, s);
    }
  }

  lemma LateConnectDelivered(restore: bool, s: Conn)
    requires LateConnectAt(s, 0)
    ensures LateConnectAt(Step(restore, s, LATE_CONNECT[0]), 1)
  {
    hide Inv, Add, SendData, OnWrite, CloseFd;
    StepKeepsInv(restore, s, LATE_CONNECT[0]);
  }

  lemma LateConnectTimesOut(restore: bool, s: Conn, i: nat)
    requires 0 < i < 4 && LateConnectAt(s, i)
    ensures LateConnectAt(Step(restore, s, LATE_CONNECT[i]), i + 1)
  {
    hide Inv, Add, SendData, OnWrite, Deliver;
    StepKeepsInv(restore, s, LATE_CONNECT[i]);
  }

  lemma LateConnectFaults(restore: bool, s: Conn)
    requires LateConnectAt(s, 4)
    ensures LateConnectAt(Step(restore, s, LATE_CONNECT[4]), 5)
  {
    StepKeepsInv(restore, s, LATE_CONNECT[4]);
    ConnTaskFaultsIffClosed(restore, s);
    hide Inv, Add, SendData, OnWrite, Deliver, Convert, CloseFd;
  }

  lemma {:induction false} LateConnectRun(restore: bool, s: Conn, i: nat)
    requires i <= 5 && LateConnectAt(s, i)
    ensures LateConnectAt(Run(restore, s, LATE_CONNECT[i..]), 5)
    decreases 5 - i
  {
    hide LateConnectAt, Step;
    if i < 5 {
      assert LATE_CONNECT[i..][1..] == LATE_CONNECT[i + 1..];
      LateConnectStep(restore, s, i);
      LateConnectRun(restore, Step(restore, s, LATE_CONNECT[i]), i + 1);
    }
  }

  lemma FaultHappens(restore: bool)
    ensures Run(restore, Init(), LATE_CONNECT).fault
  {
    InitInv();
    LateConnectRun(restore, Init(), 0);
    assert LATE_CONNECT[0..] == LATE_CONNECT;
  }
}
