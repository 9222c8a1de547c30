/** How a call of RecvAtMost ends, against what the socket offered: calls that mistake a full node for a closed peer,
calls that leave complete messages behind, and input that is stuck. */
module RecvEnds {
  import opened EdnDefine
  import opened Arena
  import opened BufferSpec
  import opened Framing
  import opened RecvSpec
  import opened BufferRuns

  /** What the socket delivers before it first answers otherwise than with bytes or an interruption. */
  function Offered(script: seq<RecvOutcome>): seq<byte> {
    if script == [] then []
    else match script[0]
      case Deliver(d) => if d == [] then [] else d + Offered(script[1..])
      case Interrupted => Offered(script[1..])
      case _ => []
  }

  /** And what it answers then. recv() answers a delivery of no bytes like a closed peer. */
  function Ending(script: seq<RecvOutcome>): RecvEnd {
    if script == [] then Drained
    else match script[0]
      case Deliver(d) => if d == [] then Closed else Ending(script[1..])
      case Interrupted => Ending(script[1..])
      case WouldBlock => Drained
      case PeerClosed => Closed
      case RecvFailed => SysError
  }

  lemma DeliveryOffers(d: seq<byte>, rest: seq<RecvOutcome>)
    requires d != []
    ensures Offered([Deliver(d)] + rest) == d + Offered(rest)
    ensures Ending([Deliver(d)] + rest) == Ending(rest)
  {
    var script := [Deliver(d)] + rest;
    assert script[0] == Deliver(d) && script[1..] == rest;
    hide Offered, Ending;
    OffersFirst(script);
  }

  lemma OffersFirst(script: seq<RecvOutcome>)
    requires script != [] && script[0].Deliver? && script[0].data != []
    ensures Offered(script) == script[0].data + Offered(script[1..])
    ensures Ending(script) == Ending(script[1..])
  {
  }

  lemma RemainingOffers(script: seq<RecvOutcome>, k: nat)
    requires script != [] && script[0].Deliver? && 0 < k <= |script[0].data|
    ensures Offered(Remaining(script, k)) == Offered(script)[k..]
    ensures Offered(script)[..k] == script[0].data[..k] && k <= |Offered(script)|
    ensures Ending(Remaining(script, k)) == Ending(script)
  {
    hide Offered, Ending;
    var d, rest := script[0].data, script[1..];
    OffersFirst(script);
    SplitInFirst(d, Offered(rest), k);
    if k < |d| {
      DeliveryOffers(d[k..], rest);
    } else {
      assert d[k..] + Offered(rest) == Offered(rest);
    }
  }

  // ---------- as written ----------

  /** How a call that starts at node n ends when `offered` bytes are there: a node that has lost bytes from its front
      never looks full, and a receive into no space looks like a closed peer. */
  function SourceEnd(n: Node, offered: nat, ending: RecvEnd): RecvEnd {
    var room := n.RemainSpace();
    if offered > room && (n.off > 0 || room == 0) then Closed
    else if n.off == 0 && 0 < room <= offered then NoRoom
    else ending
  }

  lemma {:induction false} SourceFillEnds(cfg: Config, b: Buf, nodeLen: nat, script: seq<RecvOutcome>)
    requires !cfg.fixed && Valid(cfg, b) && b.nodes != [] && HEADER <= nodeLen
    ensures var r, n, all := FillTail(cfg, b, nodeLen, script), b.nodes[0], Offered(script);
            && r.end == SourceEnd(n, |all|, Ending(script))
            && r.received == all[..Min(n.RemainSpace(), |all|)]
            && r.b.nodes == [n.(len := n.len + |r.received|)]
            && (n.RemainSpace() == 0 ==> r.b == b)
    decreases ScriptSize(script)
  {
    hide PutTail, Bytes, Layout;
    var n := b.nodes[0];
    assert b.nodes == [n];
    if script != [] {
      match script[0]
      case Interrupted => SourceFillEnds(cfg, b, nodeLen, script[1..]);
      case Deliver(d) =>
        if d != [] {
          SourceDelivery(cfg, b, nodeLen, script);
        }
      case _ =>
    }
  }

  /** The turn of the loop that takes bytes in. */
  lemma {:induction false} SourceDelivery(cfg: Config, b: Buf, nodeLen: nat, script: seq<RecvOutcome>)
    requires !cfg.fixed && Valid(cfg, b) && b.nodes != [] && HEADER <= nodeLen
    requires script != [] && script[0].Deliver? && script[0].data != []
    ensures var r, n, all := FillTail(cfg, b, nodeLen, script), b.nodes[0], Offered(script);
            && r.end == SourceEnd(n, |all|, Ending(script))
            && r.received == all[..Min(n.RemainSpace(), |all|)]
            && r.b.nodes == [n.(len := n.len + |r.received|)]
            && (n.RemainSpace() == 0 ==> r.b == b)
    decreases ScriptSize(script), 0
  {
    hide Bytes, Layout, TakeIn, Grow, Valid, Remaining, Offered, Ending, FillTail;
    var n, d := b.nodes[0], script[0].data;
    OneNode(cfg, b);
    OffersFirst(script);
    var k := Min(n.RemainSpace(), |d|);
    if k == 0 {
      NoSpaceFills(cfg, b, nodeLen, script);
    } else {
      RemainingOffers(script, k);
      FillDelivers(cfg, b, nodeLen, script, k);
      SourceTakesIn(cfg, b, nodeLen, d[..k]);
      var b1 := TakeIn(cfg, b, d[..k]);
      var n1 := n.(len := n.len + k);
      if n1.len != n1.cap {
        SourceFillEnds(cfg, b1, nodeLen, Remaining(script, k));
        TakeMore(Offered(script), k, Min(n1.RemainSpace(), |Offered(script)| - k));
      }
    }
  }

  lemma OneNode(cfg: Config, b: Buf)
    requires !cfg.fixed && Valid(cfg, b) && b.nodes != []
    ensures b.nodes == [b.nodes[0]] && b.nodes[0].RemainSpace() >= 0 && b.nodes[0].Ok()
  {
  }

  lemma SourceTakesIn(cfg: Config, b: Buf, nodeLen: nat, data: seq<byte>)
    requires !cfg.fixed && Valid(cfg, b) && b.nodes != [] && HEADER <= nodeLen
    requires |data| <= b.nodes[|b.nodes| - 1].RemainSpace()
    ensures var b1, n := TakeIn(cfg, b, data), b.nodes[0];
            && Valid(cfg, b1) && b1.nodes == [n.(len := n.len + |data|)]
            && Grow(cfg, b1, nodeLen) == if n.len + |data| == n.cap then None else Some(b1)
  {
    hide Bytes, Overlay;
    TakeInAppends(cfg, b, data);
    OneNode(cfg, b);
    SourceNeverExtendsOneNode(TakeIn(cfg, b, data).nodes[0], nodeLen, cfg.capacity);
  }

  lemma TakeMore(all: seq<byte>, k: nat, m: nat)
    requires k + m <= |all|
    ensures all[..k] + all[k..][..m] == all[..k + m]
  {
  }

  /** The node that a call of RecvAtMost, as written, receives into. */
  function FirstNode(cfg: Config, b: Buf, readable: nat): Node {
    if b.nodes == [] then Node(0, RecvNodeLen(cfg, readable) - HEADER, 0, 0) else b.nodes[0]
  }

  /** Whether a call gets as far as the receive loop. */
  predicate Starts(cfg: Config, b: Buf, readable: nat) {
    var nodeLen := RecvNodeLen(cfg, readable);
    !RecvRefused(cfg, b, nodeLen) && (b.nodes == [] ==> nodeLen <= cfg.capacity)
  }

  lemma NotRefused(cfg: Config, b: Buf, readable: nat)
    ensures Starts(cfg, b, readable) ==> !RecvRefused(cfg, b, RecvNodeLen(cfg, readable))
  {
  }

  lemma OpenKeeps(cfg: Config, b: Buf, nodeLen: nat)
    requires Valid(cfg, b) && b.nodes == [] && HEADER <= nodeLen <= cfg.capacity
    ensures var b1 := OpenFirst(cfg, b, nodeLen);
            Valid(cfg, b1) && b1.nodes == [Node(0, nodeLen - HEADER, 0, 0)]
  {
    PushNodeValid(cfg, b, nodeLen);
  }

  lemma SourceFill(cfg: Config, b: Buf, readable: nat, script: seq<RecvOutcome>)
    requires !cfg.fixed && Valid(cfg, b) && Starts(cfg, b, readable)
    ensures var f := Fill(cfg, b, RecvNodeLen(cfg, readable), script);
            var n, all := FirstNode(cfg, b, readable), Offered(script);
            && Valid(cfg, f.b) && n.RemainSpace() >= 0
            && f.end == SourceEnd(n, |all|, Ending(script))
            && f.received == all[..Min(n.RemainSpace(), |all|)]
            && f.b.nodes == [n.(len := n.len + |f.received|)]
            && (b.nodes != [] && n.RemainSpace() == 0 ==> f.b == b)
  {
    hide Bytes, Layout, Offered, Ending;
    var nodeLen := RecvNodeLen(cfg, readable);
    FillAppends(cfg, b, nodeLen, script);
    if b.nodes == [] {
      OpenKeeps(cfg, b, nodeLen);
      SourceFillEnds(cfg, OpenFirst(cfg, b, nodeLen), nodeLen, script);
    } else {
      SourceFillEnds(cfg, b, nodeLen, script);
    }
  }

  // ---------- running over the array ----------

  /** Both forms: a call runs over the array exactly if it opens a node that is longer than the array, and the space
      check, with what the two counters say, lets that pass. */
  lemma OverrunsIff(cfg: Config, b: Buf, readable: nat, script: seq<RecvOutcome>, cb: Callbacks, log: seq<Call>)
    requires Valid(cfg, b) && WellBehaved(cb)
    ensures Recv(cfg, b, readable, script, cb, log).end == OutOfArena <==>
            && b.nodes == []
            && cfg.capacity < RecvNodeLen(cfg, readable) <= Wrap(cfg.capacity - b.size - HEADER * b.num)
  {
    hide Wrap, Fill, Walk, Layout;
    FillOverruns(cfg, b, RecvNodeLen(cfg, readable), script);
    FillAppends(cfg, b, RecvNodeLen(cfg, readable), script);
  }

  ghost predicate CanOverrun(cfg: Config, b: Buf, cb: Callbacks, log: seq<Call>)
    requires Valid(cfg, b) && WellBehaved(cb)
  {
    exists readable: nat, script :: Recv(cfg, b, readable, script, cb, log).end == OutOfArena
  }

  /** So there is such a call exactly if the chain is empty and the space computed is more than the array has, and
      enough for the smallest node. */
  lemma CanOverrunIff(cfg: Config, b: Buf, cb: Callbacks, log: seq<Call>)
    requires Valid(cfg, b) && WellBehaved(cb)
    ensures CanOverrun(cfg, b, cb, log) <==>
            && b.nodes == []
            && Max(cfg.capacity + 1, RecvNodeLen(cfg, 0)) <= Wrap(cfg.capacity - b.size - HEADER * b.num)
  {
    hide Recv, Wrap;
    forall readable: nat, script
      ensures Recv(cfg, b, readable, script, cb, log).end == OutOfArena <==>
              && b.nodes == []
              && cfg.capacity < RecvNodeLen(cfg, readable) <= Wrap(cfg.capacity - b.size - HEADER * b.num)
    {
      OverrunsIff(cfg, b, readable, script, cb, log);
    }
    var space := Wrap(cfg.capacity - b.size - HEADER * b.num);
    if space >= RecvNodeLen(cfg, 0) {
      assert Recv(cfg, b, space - HEADER, [], cb, log).end == OutOfArena <==>
             b.nodes == [] && cfg.capacity < RecvNodeLen(cfg, space - HEADER) <= space;
    }
  }

  /** Both forms: a call is refused before anything is read, whatever the socket has, exactly if what it asks for is
      more than the space computed from the two counters. */
  lemma RefusedIff(cfg: Config, b: Buf, readable: nat, cb: Callbacks, log: seq<Call>)
    requires Valid(cfg, b) && WellBehaved(cb)
    ensures (forall script :: Recv(cfg, b, readable, script, cb, log) == RecvResult(b, [], NoRoom, log)) <==>
            Max(readable + HEADER, cfg.minNode) > Wrap(cfg.capacity - b.size - HEADER * b.num)
  {
    hide Fill, Walk, Wrap;
    if RecvRefused(cfg, b, RecvNodeLen(cfg, readable)) {
      forall script
        ensures Recv(cfg, b, readable, script, cb, log) == RecvResult(b, [], NoRoom, log)
      {
        RefusedCall(cfg, b, readable, script, cb, log);
      }
    } else {
      RecvOfFill(cfg, b, readable, [], cb, log);
      DryFill(cfg, b, RecvNodeLen(cfg, readable));
    }
  }

  lemma DryFill(cfg: Config, b: Buf, nodeLen: nat)
    requires Valid(cfg, b) && HEADER <= nodeLen
    ensures Fill(cfg, b, nodeLen, []).end != NoRoom
  {
  }

  /** With the default callbacks a call that ends in "would block" leaves nothing buffered. Both forms. */
  lemma DefaultLeavesNothing(cfg: Config, b: Buf, readable: nat, script: seq<RecvOutcome>, log: seq<Call>)
    requires Valid(cfg, b)
    ensures WellBehaved(DEFAULT_CALLBACKS)
    ensures var r := Recv(cfg, b, readable, script, DEFAULT_CALLBACKS, log);
            Valid(cfg, r.b) && (r.end == Drained ==> Bytes(r.b.nodes, r.b.mem) == [])
  {
    hide Fill, Walk, Layout, Bytes;
    DefaultTakesAll([], log);
    RecvValid(cfg, b, readable, script, DEFAULT_CALLBACKS, log);
    var nodeLen := RecvNodeLen(cfg, readable);
    if !RecvRefused(cfg, b, nodeLen) {
      RecvOfFill(cfg, b, readable, script, DEFAULT_CALLBACKS, log);
      var f := Fill(cfg, b, nodeLen, script);
      if f.end == Drained {
        StartWalking(cfg, f.b);
        WalkIsFeed(cfg, f.b, DEFAULT_CALLBACKS, f.b.nodes, [], log);
        DefaultKeepsNothing(Chunks(f.b.nodes, f.b.mem), log);
      }
    }
  }

  // ---------- how a call ends ----------

  /** As written: the answer and the bytes received, from the counters, the node, what is offered and how the socket
      ends. */
  lemma SourceRecvEnds(cfg: Config, b: Buf, readable: nat, script: seq<RecvOutcome>, cb: Callbacks, log: seq<Call>)
    requires !cfg.fixed && Valid(cfg, b) && WellBehaved(cb)
    ensures var r, n, all := Recv(cfg, b, readable, script, cb, log), FirstNode(cfg, b, readable), Offered(script);
            && n.RemainSpace() >= 0
            && if RecvRefused(cfg, b, RecvNodeLen(cfg, readable)) then r.end == NoRoom && r.received == []
               else if !Starts(cfg, b, readable) then r.end == OutOfArena
               else
                 && r.end == SourceEnd(n, |all|, Ending(script))
                 && r.received == all[..Min(n.RemainSpace(), |all|)]
  {
    hide Fill, SourceEnd, Walk, Layout;
    var nodeLen := RecvNodeLen(cfg, readable);
    FillOverruns(cfg, b, nodeLen, script);
    if b.nodes != [] {
      OneNode(cfg, b);
    }
    if Starts(cfg, b, readable) {
      SourceFill(cfg, b, readable, script);
      RecvOfFill(cfg, b, readable, script, cb, log);
    } else {
      FillAppends(cfg, b, nodeLen, script);
    }
  }

  /** As written, with the peer still there, a call answers "peer closed" exactly if it gets as far as receiving, more
      is offered than the node has space for, and the node has lost bytes from its front or has no space at all. */
  lemma SourceMisreadsFullIff(cfg: Config, b: Buf, readable: nat, script: seq<RecvOutcome>, cb: Callbacks,
                              log: seq<Call>)
    requires !cfg.fixed && Valid(cfg, b) && WellBehaved(cb) && Ending(script) != Closed
    ensures Recv(cfg, b, readable, script, cb, log).end == Closed <==>
            var n := FirstNode(cfg, b, readable);
            Starts(cfg, b, readable) && |Offered(script)| > n.RemainSpace() && (n.off > 0 || n.RemainSpace() == 0)
  {
    SourceRecvEnds(cfg, b, readable, script, cb, log);
    hide Recv;
  }

  /** As written, a full node keeps every call that finds bytes from doing anything, until one finds none. */
  lemma SourceStuckUntilDry(cfg: Config, b: Buf, readable: nat, script: seq<RecvOutcome>, cb: Callbacks, log: seq<Call>)
    requires !cfg.fixed && Valid(cfg, b) && WellBehaved(cb)
    requires b.nodes != [] && b.nodes[0].RemainSpace() == 0 && Offered(script) != []
    ensures var r := Recv(cfg, b, readable, script, cb, log);
            r.b == b && r.log == log && r.received == [] && r.end in {Closed, NoRoom}
  {
    hide Fill, Walk;
    if !RecvRefused(cfg, b, RecvNodeLen(cfg, readable)) {
      SourceFill(cfg, b, readable, script);
      RecvOfFill(cfg, b, readable, script, cb, log);
    }
  }

  // ---------- repaired ----------

  /** The next node of the given length has a place. */
  predicate HasPlace(cfg: Config, b: Buf, nodeLen: nat) {
    Next(cfg.fixed, b.nodes, nodeLen, cfg.capacity).Some?
  }

  /** The node that the repaired allocator puts behind the chain. */
  function Behind(ns: seq<Node>, nodeLen: nat, capacity: nat): Node
    requires HEADER <= nodeLen && Next(true, ns, nodeLen, capacity).Some?
  {
    Node(Next(true, ns, nodeLen, capacity).value, nodeLen - HEADER, 0, 0)
  }

  lemma BehindFits(ns: seq<Node>, nodeLen: nat, capacity: nat)
    requires Layout(ns, capacity) && ns != [] && HEADER <= nodeLen && Next(true, ns, nodeLen, capacity).Some?
    ensures Layout(ns + [Behind(ns, nodeLen, capacity)], capacity) && |ns| < capacity
  {
    if |ns| == 1 {
      assert ns == [ns[0]];
    }
    NextIsSafe(ns, nodeLen, capacity);
    SpaceNeverUnderflows(ns + [Behind(ns, nodeLen, capacity)], capacity);
  }

  /** The space of all the nodes of the given length that the repaired allocator can still put behind the chain. */
  ghost function Beyond(ns: seq<Node>, nodeLen: nat, capacity: nat): nat
    requires Layout(ns, capacity) && ns != [] && HEADER <= nodeLen
    decreases capacity - |ns|
  {
    if Next(true, ns, nodeLen, capacity).None? then 0
    else
      BehindFits(ns, nodeLen, capacity);
      nodeLen - HEADER + Beyond(ns + [Behind(ns, nodeLen, capacity)], nodeLen, capacity)
  }

  /** The space that the repaired receive loop has, from the tail on. */
  ghost function RoomFrom(ns: seq<Node>, nodeLen: nat, capacity: nat): nat
    requires Layout(ns, capacity) && ns != [] && HEADER <= nodeLen
  {
    assert ns[|ns| - 1].Ok();
    ns[|ns| - 1].RemainSpace() + Beyond(ns, nodeLen, capacity)
  }

  /** The same nodes, with other bytes in them. */
  ghost predicate SameExtents(ns: seq<Node>, ms: seq<Node>) {
    |ns| == |ms| && forall i :: 0 <= i < |ns| ==> ns[i].pos == ms[i].pos && ns[i].cap == ms[i].cap
  }

  lemma {:induction false} BeyondSame(ns: seq<Node>, ms: seq<Node>, nodeLen: nat, capacity: nat)
    requires Layout(ns, capacity) && Layout(ms, capacity) && ns != [] && SameExtents(ns, ms) && HEADER <= nodeLen
    ensures Beyond(ns, nodeLen, capacity) == Beyond(ms, nodeLen, capacity)
    decreases capacity - |ns|
  {
    hide Layout;
    assert Next(true, ns, nodeLen, capacity) == Next(true, ms, nodeLen, capacity);
    if Next(true, ns, nodeLen, capacity).Some? {
      BehindFits(ns, nodeLen, capacity);
      BehindFits(ms, nodeLen, capacity);
      var added := Behind(ns, nodeLen, capacity);
      assert added == Behind(ms, nodeLen, capacity);
      BeyondSame(ns + [added], ms + [added], nodeLen, capacity);
    }
  }

  /** The repaired receive loop gets everything offered, short of the room there is; where that runs out it ends in
      "not enough". */
  ghost predicate FillsRoom(r: FillResult, room: nat, all: seq<byte>, ending: RecvEnd) {
    && r.end == (if |all| >= room then NoRoom else ending)
    && r.received == all[..Min(room, |all|)]
  }

  lemma {:induction false} RepairedFillEnds(cfg: Config, b: Buf, nodeLen: nat, script: seq<RecvOutcome>)
    requires cfg.fixed && Valid(cfg, b) && b.nodes != [] && HEADER < nodeLen
    requires b.nodes[|b.nodes| - 1].RemainSpace() > 0
    ensures FillsRoom(FillTail(cfg, b, nodeLen, script), RoomFrom(b.nodes, nodeLen, cfg.capacity), Offered(script),
                      Ending(script))
    decreases ScriptSize(script)
  {
    hide PutTail, Bytes, Layout, Next, Beyond;
    if script != [] {
      match script[0]
      case Interrupted => RepairedFillEnds(cfg, b, nodeLen, script[1..]);
      case Deliver(d) =>
        if d != [] {
          RepairedDelivery(cfg, b, nodeLen, script);
        }
      case _ =>
    }
  }

  lemma {:induction false} RepairedDelivery(cfg: Config, b: Buf, nodeLen: nat, script: seq<RecvOutcome>)
    requires cfg.fixed && Valid(cfg, b) && b.nodes != [] && HEADER < nodeLen
    requires b.nodes[|b.nodes| - 1].RemainSpace() > 0
    requires script != [] && script[0].Deliver? && script[0].data != []
    ensures FillsRoom(FillTail(cfg, b, nodeLen, script), RoomFrom(b.nodes, nodeLen, cfg.capacity), Offered(script),
                      Ending(script))
    decreases ScriptSize(script), 0
  {
    hide Bytes, Layout, Next, TakeIn, Grow, Remaining, Offered, Ending, FillTail, RoomFrom;
    var d, all := script[0].data, Offered(script);
    var k := Min(b.nodes[|b.nodes| - 1].RemainSpace(), |d|);
    RemainingOffers(script, k);
    FillDelivers(cfg, b, nodeLen, script, k);
    RepairedTakesIn(cfg, b, nodeLen, d[..k]);
    var room := RoomFrom(b.nodes, nodeLen, cfg.capacity);
    var grown := Grow(cfg, TakeIn(cfg, b, d[..k]), nodeLen);
    if grown.Some? {
      RepairedFillEnds(cfg, grown.value, nodeLen, Remaining(script, k));
      TakeMore(all, k, Min(room - k, |all| - k));
    }
  }

  /** A delivery uses room up, and the next node is room that was counted before. */
  lemma RepairedTakesIn(cfg: Config, b: Buf, nodeLen: nat, data: seq<byte>)
    requires cfg.fixed && Valid(cfg, b) && b.nodes != [] && HEADER < nodeLen
    requires 0 < |data| <= b.nodes[|b.nodes| - 1].RemainSpace()
    ensures var grown, room := Grow(cfg, TakeIn(cfg, b, data), nodeLen), RoomFrom(b.nodes, nodeLen, cfg.capacity);
            if grown.None? then room == |data|
            else
              && Valid(cfg, grown.value) && grown.value.nodes != []
              && grown.value.nodes[|grown.value.nodes| - 1].RemainSpace() > 0
              && RoomFrom(grown.value.nodes, nodeLen, cfg.capacity) == room - |data|
  {
    hide Bytes, Overlay, Layout, Next, Beyond;
    TakeInAppends(cfg, b, data);
    var b1, last := TakeIn(cfg, b, data), |b.nodes| - 1;
    assert b1.nodes[last] == b.nodes[last].(len := b.nodes[last].len + |data|);
    BeyondSame(b.nodes, b1.nodes, nodeLen, cfg.capacity);
    TailIsOk(cfg, b1);
    GrowKeepsRoom(cfg, b1, nodeLen);
  }

  lemma GrowKeepsRoom(cfg: Config, b: Buf, nodeLen: nat)
    requires cfg.fixed && Valid(cfg, b) && b.nodes != [] && HEADER < nodeLen
    requires b.nodes[|b.nodes| - 1].RemainSpace() == 0 ==> b.nodes[|b.nodes| - 1].len > 0
    ensures var grown, room := Grow(cfg, b, nodeLen), RoomFrom(b.nodes, nodeLen, cfg.capacity);
            if grown.None? then room == 0
            else
              && Valid(cfg, grown.value) && grown.value.nodes != []
              && grown.value.nodes[|grown.value.nodes| - 1].RemainSpace() > 0
              && RoomFrom(grown.value.nodes, nodeLen, cfg.capacity) == room
  {
    hide Bytes, Layout, Next;
    TailIsOk(cfg, b);
    if Grow(cfg, b, nodeLen).Some? {
      GrowKeeps(cfg, b, nodeLen);
    }
    if Full(cfg, b.nodes[|b.nodes| - 1]) && Next(true, b.nodes, nodeLen, cfg.capacity).Some? {
      assert Grow(cfg, b, nodeLen).value.nodes == b.nodes + [Behind(b.nodes, nodeLen, cfg.capacity)];
    }
  }

  lemma TailIsOk(cfg: Config, b: Buf)
    requires Valid(cfg, b) && b.nodes != []
    ensures b.nodes[|b.nodes| - 1].RemainSpace() >= 0
  {
  }

  /** The room that a call which starts has: as written in its one node, repaired in the tail and all the nodes that
      can follow it. */
  ghost function Room(cfg: Config, b: Buf, readable: nat): nat
    requires Valid(cfg, b) && Starts(cfg, b, readable)
  {
    var nodeLen := RecvNodeLen(cfg, readable);
    if b.nodes == [] then
      OpenKeeps(cfg, b, nodeLen);
      if cfg.fixed then RoomFrom([FirstNode(cfg, b, readable)], nodeLen, cfg.capacity) else nodeLen - HEADER
    else if cfg.fixed then RoomFrom(b.nodes, nodeLen, cfg.capacity)
    else
      OneNode(cfg, b);
      b.nodes[0].RemainSpace()
  }

  /** How a call ends, from what is there before it. */
  ghost function CallEnd(cfg: Config, b: Buf, readable: nat, script: seq<RecvOutcome>): RecvEnd
    requires Valid(cfg, b)
  {
    if RecvRefused(cfg, b, RecvNodeLen(cfg, readable)) then NoRoom
    else if !Starts(cfg, b, readable) then OutOfArena
    else if !cfg.fixed then SourceEnd(FirstNode(cfg, b, readable), |Offered(script)|, Ending(script))
    else if Room(cfg, b, readable) == 0 then Drained
    else if |Offered(script)| >= Room(cfg, b, readable) then NoRoom
    else Ending(script)
  }

  /** What it receives. */
  ghost function CallTakes(cfg: Config, b: Buf, readable: nat, script: seq<RecvOutcome>): seq<byte>
    requires Valid(cfg, b)
  {
    if !Starts(cfg, b, readable) then [] else Offered(script)[..Min(Room(cfg, b, readable), |Offered(script)|)]
  }

  /** What the repaired form asks of the chain and of the call: nodes have space when they hold nothing, and the node
      asked for is longer than its header. */
  ghost predicate Roomy(cfg: Config, b: Buf, readable: nat) {
    cfg.fixed ==> Spacious(b.nodes) && HEADER < RecvNodeLen(cfg, readable)
  }

  /** Repaired: a call that starts receives everything offered and answers as the socket, unless that is as much as
      there is room for: then it receives what there is room for and ends in "not enough". Without any room nothing is
      received and what is complete is handed over. So "peer closed" is never answered but for the peer. */
  lemma RepairedRecvEnds(cfg: Config, b: Buf, readable: nat, script: seq<RecvOutcome>, cb: Callbacks, log: seq<Call>)
    requires cfg.fixed && Valid(cfg, b) && WellBehaved(cb) && Starts(cfg, b, readable) && Roomy(cfg, b, readable)
    ensures var r, all, room := Recv(cfg, b, readable, script, cb, log), Offered(script), Room(cfg, b, readable);
            && r.received == all[..Min(room, |all|)]
            && r.end == (if room == 0 then Drained else if |all| >= room then NoRoom else Ending(script))
            && (r.end == Closed ==> Ending(script) == Closed)
  {
    hide Walk, Next, Layout, Bytes, Recv, RoomFrom, FillTail, Grow;
    var nodeLen := RecvNodeLen(cfg, readable);
    RecvOfFill(cfg, b, readable, script, cb, log);
    if b.nodes == [] {
      OpenKeeps(cfg, b, nodeLen);
      RepairedFillEnds(cfg, OpenFirst(cfg, b, nodeLen), nodeLen, script);
      RoomIsThere([FirstNode(cfg, b, readable)], nodeLen, cfg.capacity);
    } else {
      TailIsOk(cfg, b);
      GrowKeepsRoom(cfg, b, nodeLen);
      if MakeRoom(cfg, b, nodeLen).Some? {
        RepairedFillEnds(cfg, MakeRoom(cfg, b, nodeLen).value, nodeLen, script);
        RoomIsThere(MakeRoom(cfg, b, nodeLen).value.nodes, nodeLen, cfg.capacity);
      }
    }
    EndingEnds(script);
  }

  lemma RoomIsThere(ns: seq<Node>, nodeLen: nat, capacity: nat)
    requires Layout(ns, capacity) && ns != [] && HEADER <= nodeLen
    ensures RoomFrom(ns, nodeLen, capacity) >= ns[|ns| - 1].RemainSpace()
  {
  }

  /** Both forms: answer and bytes received follow from what is there before the call. */
  lemma RecvEndsAs(cfg: Config, b: Buf, readable: nat, script: seq<RecvOutcome>, cb: Callbacks, log: seq<Call>)
    requires Valid(cfg, b) && WellBehaved(cb) && Roomy(cfg, b, readable)
    ensures var r := Recv(cfg, b, readable, script, cb, log);
            && r.end == CallEnd(cfg, b, readable, script)
            && (r.end != OutOfArena ==> r.received == CallTakes(cfg, b, readable, script))
  {
    hide Walk, Layout, Recv, Offered, Ending, SourceEnd, RoomFrom, Roomy;
    if !cfg.fixed {
      SourceRecvEnds(cfg, b, readable, script, cb, log);
    } else if Starts(cfg, b, readable) {
      RepairedRecvEnds(cfg, b, readable, script, cb, log);
    } else if RecvRefused(cfg, b, RecvNodeLen(cfg, readable)) {
      RefusedCall(cfg, b, readable, script, cb, log);
    } else {
      OverrunsIff(cfg, b, readable, script, cb, log);
    }
  }

  lemma {:induction false} EndingEnds(script: seq<RecvOutcome>)
    ensures Ending(script) in {Drained, Closed, SysError}
    decreases |script|
  {
    if script != [] && (script[0].Interrupted? || script[0].Deliver?) {
      EndingEnds(script[1..]);
    }
  }

  /** Over every run of the repaired form, with nodes longer than their header, "peer closed" is never answered but for
      the peer, whatever the counters say. */
  lemma {:induction false} RepairedNeverMisreads(cfg: Config, s: InRun, calls: seq<InCall>, last: InCall, cb: Callbacks)
    requires cfg.fixed && cfg.minNode > HEADER && WellBehaved(cb) && Valid(cfg, s.b) && Spacious(s.b.nodes)
    ensures var t := RunIn(cfg, s, calls, cb);
            && Valid(cfg, t.b)
            && (!t.overrun && Recv(cfg, t.b, last.readable, last.script, cb, t.log).end == Closed ==>
                  Ending(last.script) == Closed)
    decreases |calls|
  {
    hide Recv, Spacious, Ending;
    if calls == [] {
      RepairedClosed(cfg, s.b, last.readable, last.script, cb, s.log);
    } else {
      var c := calls[0];
      InStepValid(cfg, s, c, cb);
      RecvCounts(cfg, s.b, c.readable, c.script, cb, s.log);
      var s1 := InStep(cfg, s, c, cb);
      if s1.overrun {
        InStepValid(cfg, s, c, cb);
        OverrunEnds(cfg, s1, calls[1..], cb);
      } else {
        RepairedNeverMisreads(cfg, s1, calls[1..], last, cb);
      }
    }
  }

  lemma RepairedClosed(cfg: Config, b: Buf, readable: nat, script: seq<RecvOutcome>, cb: Callbacks, log: seq<Call>)
    requires cfg.fixed && cfg.minNode > HEADER && Valid(cfg, b) && WellBehaved(cb) && Spacious(b.nodes)
    ensures Recv(cfg, b, readable, script, cb, log).end == Closed ==> Ending(script) == Closed
  {
    hide Walk;
    if Starts(cfg, b, readable) {
      RepairedRecvEnds(cfg, b, readable, script, cb, log);
    }
  }

  /** What a call that ends in "would block" answers, the number of bytes received, is what was consumed and buffered
      more than before. */
  lemma AnswerIsGain(cfg: Config, b: Buf, readable: nat, script: seq<RecvOutcome>, cb: Callbacks, log: seq<Call>)
    requires Valid(cfg, b) && WellBehaved(cb) && Fair(log)
    ensures var r := Recv(cfg, b, readable, script, cb, log);
            && Valid(cfg, r.b)
            && (r.end != OutOfArena ==>
                  && Fair(r.log)
                  && |Consumed(r.log)| + |Bytes(r.b.nodes, r.b.mem)| ==
                     |Consumed(log)| + |Bytes(b.nodes, b.mem)| + |r.received|)
  {
    hide Recv, Layout, Bytes, Consumed;
    RecvConserves(cfg, b, readable, script, cb, log);
  }

  /** A call that opens a node, or once repaired has a place for one more, gets all that is there as long as that is no
      more than it was told of beforehand. As written it nevertheless ends in "not enough", and hands nothing over,
      exactly if it gets as much as it was told of and that is more than the smallest node has space for. */
  lemma AnnouncedIsReceived(cfg: Config, b: Buf, readable: nat, script: seq<RecvOutcome>, cb: Callbacks, log: seq<Call>)
    requires Valid(cfg, b) && WellBehaved(cb) && Starts(cfg, b, readable) && Roomy(cfg, b, readable)
    requires b.nodes == [] || (cfg.fixed && HasPlace(cfg, b, RecvNodeLen(cfg, readable)))
    requires |Offered(script)| <= readable
    ensures var r := Recv(cfg, b, readable, script, cb, log);
            && r.received == Offered(script)
            && (!cfg.fixed ==>
                  if 0 < |Offered(script)| == readable && readable + HEADER >= cfg.minNode then r.end == NoRoom
                  else r.end == Ending(script))
  {
    hide Recv, Layout, Offered, Ending, Roomy, Next;
    var nodeLen := RecvNodeLen(cfg, readable);
    assert Offered(script)[..|Offered(script)|] == Offered(script);
    if !cfg.fixed {
      SourceRecvEnds(cfg, b, readable, script, cb, log);
    } else {
      RepairedRecvEnds(cfg, b, readable, script, cb, log);
      if b.nodes == [] {
        OpenKeeps(cfg, b, nodeLen);
        RoomIsThere([FirstNode(cfg, b, readable)], nodeLen, cfg.capacity);
      } else {
        assert b.nodes[|b.nodes| - 1].Ok();
      }
    }
  }

  // ---------- messages left behind ----------

  /** A call leaves a complete message behind exactly if it ends otherwise than in "would block" and there is one in
      what is buffered and it receives; all of it read off what is there before the call. Both forms. */
  lemma LeavesMessageIff(cfg: Config, b: Buf, readable: nat, script: seq<RecvOutcome>, cb: Callbacks, log: seq<Call>)
    requires Valid(cfg, b) && WellBehaved(cb) && Stable(cb.end) && Roomy(cfg, b, readable)
    requires CallEnd(cfg, b, readable, script) != OutOfArena
    ensures var r := Recv(cfg, b, readable, script, cb, log);
            && Valid(cfg, r.b)
            && (cb.end(Bytes(r.b.nodes, r.b.mem)) > 0 <==>
                  && CallEnd(cfg, b, readable, script) != Drained
                  && cb.end(Bytes(b.nodes, b.mem) + CallTakes(cfg, b, readable, script)) > 0)
  {
    hide Recv, Layout, Bytes, CallEnd, CallTakes, Roomy;
    RecvEndsAs(cfg, b, readable, script, cb, log);
    NothingHandedOver(cfg, b, readable, script, cb, log);
    var r := Recv(cfg, b, readable, script, cb, log);
    if r.end == Drained {
      RecvIsParse(cfg, b, readable, script, cb, log);
      ParseEndsDry(cb, Bytes(b.nodes, b.mem) + r.received, log);
    }
  }

  /** Both forms, default sizes and callbacks: three bytes arrive and the peer closes; they are complete, and nobody
      gets them. */
  lemma PeerCloseDropsMessages(fixed: bool, mem: seq<byte>)
    requires |mem| == 81920
    ensures var cfg := Config(81920, 4096, fixed);
            var b := Buf([], mem, 0, 0);
            Valid(cfg, b) &&
            var r := Recv(cfg, b, 3, THREE_AND_CLOSED, DEFAULT_CALLBACKS, []);
            && Valid(cfg, r.b) && Bytes(r.b.nodes, r.b.mem) == [1, 2, 3]
            && DEFAULT_CALLBACKS.end([1, 2, 3]) == 3 && r.log == [] && r.end == Closed
  {
    hide Recv, Offered, Ending, Layout, Bytes;
    var cfg, b := Config(81920, 4096, fixed), Buf([], mem, 0, 0);
    EmptyStarts(cfg, b);
    ThreeAndClosed();
    var three: seq<byte> := [1, 2, 3];
    assert three[..3] == three;
    var received := Recv(cfg, b, 3, THREE_AND_CLOSED, DEFAULT_CALLBACKS, []).received;
    if fixed {
      RepairedRecvEnds(cfg, b, 3, THREE_AND_CLOSED, DEFAULT_CALLBACKS, []);
      assert received == three;
    } else {
      SourceRecvEnds(cfg, b, 3, THREE_AND_CLOSED, DEFAULT_CALLBACKS, []);
      assert received == Offered(THREE_AND_CLOSED)[..3];
      assert received == three;
    }
    NothingHandedOver(cfg, b, 3, THREE_AND_CLOSED, DEFAULT_CALLBACKS, []);
    assert Bytes(b.nodes, b.mem) + received == three;
  }

  const THREE_AND_CLOSED := [Deliver([1, 2, 3]), PeerClosed]

  lemma ThreeAndClosed()
    ensures Offered(THREE_AND_CLOSED) == [1, 2, 3] && Ending(THREE_AND_CLOSED) == Closed
  {
    assert THREE_AND_CLOSED[1..] == [PeerClosed];
    assert Offered(THREE_AND_CLOSED) == [1, 2, 3] + Offered([PeerClosed]) == [1, 2, 3];
  }

  lemma EmptyStarts(cfg: Config, b: Buf)
    requires cfg.capacity == 81920 && cfg.minNode == 4096 && |b.mem| == 81920
    requires b.nodes == [] && b.size == 0 && b.num == 0
    ensures Valid(cfg, b) && Starts(cfg, b, 3) && Spacious(b.nodes) && RecvNodeLen(cfg, 3) == 4096
    ensures Bytes(b.nodes, b.mem) == []
    ensures FirstNode(cfg, b, 3).RemainSpace() == 4048 && FirstNode(cfg, b, 3).off == 0
  {
  }

  // ---------- stuck input ----------

  /** The tail has no space, and no node that a call asks for has a place. */
  predicate NoWayOn(cfg: Config, b: Buf) {
    && b.nodes != [] && b.nodes[|b.nodes| - 1].RemainSpace() == 0
    && !HasPlace(cfg, b, RecvNodeLen(cfg, 0))
  }

  lemma LongerHasNoPlace(cfg: Config, b: Buf, short: nat, long: nat)
    requires Valid(cfg, b) && b.nodes != [] && short <= long && !HasPlace(cfg, b, short)
    ensures !HasPlace(cfg, b, long)
  {
    if !cfg.fixed {
      OneNode(cfg, b);
      SourceNeverExtendsOneNode(b.nodes[0], long, cfg.capacity);
    }
  }

  lemma {:induction false} NoSpaceFills(cfg: Config, b: Buf, nodeLen: nat, script: seq<RecvOutcome>)
    requires Valid(cfg, b) && b.nodes != [] && HEADER <= nodeLen && b.nodes[|b.nodes| - 1].RemainSpace() == 0
    ensures var r := FillTail(cfg, b, nodeLen, script);
            && r.b == b && r.received == [] && (script == [] ==> r.end == Drained)
            && (script != [] && script[0].Deliver? ==> r.end == Closed)
    decreases ScriptSize(script)
  {
    if script != [] && script[0].Interrupted? {
      NoSpaceFills(cfg, b, nodeLen, script[1..]);
    }
  }

  lemma StuckFill(cfg: Config, b: Buf, readable: nat, script: seq<RecvOutcome>)
    requires Valid(cfg, b) && NoWayOn(cfg, b)
    ensures var f := Fill(cfg, b, RecvNodeLen(cfg, readable), script);
            f.b == b && f.received == [] && (script == [] ==> f.end == Drained)
  {
    hide Layout, Next, Bytes;
    LongerHasNoPlace(cfg, b, RecvNodeLen(cfg, 0), RecvNodeLen(cfg, readable));
    NoSpaceFills(cfg, b, RecvNodeLen(cfg, readable), script);
    hide FillTail;
  }

  /** Where nothing is complete the consumption loop changes nothing. */
  lemma {:induction false} IdleWalk(cfg: Config, b: Buf, cb: Callbacks, rest: seq<Node>, window: seq<byte>,
                                    log: seq<Call>)
    requires WellBehaved(cb) && Stable(cb.end) && Walking(cfg, b, rest, window)
    requires cb.end(window + Bytes(rest, b.mem)) == 0
    ensures var w := Walk(cfg, b, cb, rest, window, log);
            w.b == b && w.log == log
    decreases |rest|
  {
    hide Layout;
    if rest != [] {
      StepWalks(cfg, b, rest, window);
      var window1 := window + Live(rest[0], b.mem);
      Associative(window, Live(rest[0], b.mem), Bytes(rest[1..], b.mem));
      assert cb.end(window1 + Bytes(rest[1..], b.mem)) == 0;
      assert cb.end(window1) == 0;
      IdleWalk(cfg, b, cb, rest[1..], window1, log);
    }
  }

  lemma StuckCall(cfg: Config, b: Buf, readable: nat, script: seq<RecvOutcome>, cb: Callbacks, log: seq<Call>)
    requires Valid(cfg, b) && WellBehaved(cb) && Stable(cb.end) && NoWayOn(cfg, b)
    requires cb.end(Bytes(b.nodes, b.mem)) == 0 || RecvRefused(cfg, b, RecvNodeLen(cfg, 0))
    ensures var r := Recv(cfg, b, readable, script, cb, log);
            r.b == b && r.log == log && r.received == []
  {
    hide Fill, Walk, Layout, Bytes, NoWayOn, Valid, RecvRefused, Recv;
    if RecvRefused(cfg, b, RecvNodeLen(cfg, readable)) {
      RefusedCall(cfg, b, readable, script, cb, log);
    } else {
      if RecvRefused(cfg, b, RecvNodeLen(cfg, 0)) {
        RefusesLonger(cfg, b, readable);
      }
      StuckFill(cfg, b, readable, script);
      RecvOfFill(cfg, b, readable, script, cb, log);
      IdleChain(cfg, b, cb, log);
    }
  }

  lemma RefusedCall(cfg: Config, b: Buf, readable: nat, script: seq<RecvOutcome>, cb: Callbacks, log: seq<Call>)
    requires Valid(cfg, b) && WellBehaved(cb) && RecvRefused(cfg, b, RecvNodeLen(cfg, readable))
    ensures Recv(cfg, b, readable, script, cb, log) == RecvResult(b, [], NoRoom, log)
  {
  }

  /** Refusing the smallest node means refusing every node. */
  lemma RefusesLonger(cfg: Config, b: Buf, readable: nat)
    requires RecvRefused(cfg, b, RecvNodeLen(cfg, 0))
    ensures RecvRefused(cfg, b, RecvNodeLen(cfg, readable))
  {
  }

  lemma IdleChain(cfg: Config, b: Buf, cb: Callbacks, log: seq<Call>)
    requires Valid(cfg, b) && WellBehaved(cb) && Stable(cb.end) && cb.end(Bytes(b.nodes, b.mem)) == 0
    ensures Walking(cfg, b, b.nodes, [])
    ensures var w := Walk(cfg, b, cb, b.nodes, [], log);
            w.b == b && w.log == log
  {
    hide Walk, Layout, Bytes;
    assert [] + Bytes(b.nodes, b.mem) == Bytes(b.nodes, b.mem);
    StartWalking(cfg, b);
    IdleWalk(cfg, b, cb, b.nodes, [], log);
  }

  ghost predicate Unmoved(cfg: Config, s: InRun, calls: seq<InCall>, cb: Callbacks)
    requires Valid(cfg, s.b) && WellBehaved(cb)
  {
    var t := RunIn(cfg, s, calls, cb);
    t.b == s.b && t.log == s.log && t.overrun == s.overrun
  }

  lemma {:induction false} StuckRun(cfg: Config, s: InRun, calls: seq<InCall>, cb: Callbacks)
    requires Valid(cfg, s.b) && WellBehaved(cb) && Stable(cb.end) && NoWayOn(cfg, s.b)
    requires cb.end(Bytes(s.b.nodes, s.b.mem)) == 0 || RecvRefused(cfg, s.b, RecvNodeLen(cfg, 0))
    ensures Unmoved(cfg, s, calls, cb)
    decreases |calls|
  {
    if calls != [] {
      var c := calls[0];
      StuckCall(cfg, s.b, c.readable, c.script, cb, s.log);
      hide Recv;
      StuckRun(cfg, InStep(cfg, s, c, cb), calls[1..], cb);
    }
  }

  /** Both forms: with a full tail and no place for another node, no run ever receives or hands over anything more
      exactly if nothing buffered is complete, or the first space check refuses even the smallest node. */
  lemma StuckForGoodIff(cfg: Config, s: InRun, cb: Callbacks)
    requires Valid(cfg, s.b) && !s.overrun && WellBehaved(cb) && Stable(cb.end) && NoWayOn(cfg, s.b)
    ensures (forall calls :: Unmoved(cfg, s, calls, cb)) <==>
            cb.end(Bytes(s.b.nodes, s.b.mem)) == 0 || RecvRefused(cfg, s.b, RecvNodeLen(cfg, 0))
  {
    if cb.end(Bytes(s.b.nodes, s.b.mem)) == 0 || RecvRefused(cfg, s.b, RecvNodeLen(cfg, 0)) {
      forall calls
        ensures Unmoved(cfg, s, calls, cb)
      {
        StuckRun(cfg, s, calls, cb);
      }
    } else {
      DryCallMoves(cfg, s, cb);
    }
  }

  /** A call that finds no bytes hands over what is complete. */
  lemma DryCallMoves(cfg: Config, s: InRun, cb: Callbacks)
    requires Valid(cfg, s.b) && !s.overrun && WellBehaved(cb) && Stable(cb.end) && NoWayOn(cfg, s.b)
    requires cb.end(Bytes(s.b.nodes, s.b.mem)) > 0 && !RecvRefused(cfg, s.b, RecvNodeLen(cfg, 0))
    ensures !Unmoved(cfg, s, [InCall(0, [])], cb)
  {
    hide Fill, Walk, Layout, Bytes;
    var calls := [InCall(0, [])];
    var all := Bytes(s.b.nodes, s.b.mem);
    StuckFill(cfg, s.b, 0, []);
    RecvOfFill(cfg, s.b, 0, [], cb, s.log);
    hide Recv;
    RecvIsParse(cfg, s.b, 0, [], cb, s.log);
    assert all + [] == all;
    ParseCalls(cb, all, s.log);
    InStepValid(cfg, s, calls[0], cb);
    assert calls[1..] == [] && RunIn(cfg, s, calls, cb) == RunIn(cfg, InStep(cfg, s, calls[0], cb), calls[1..], cb);
  }

  lemma ParseCalls(cb: Callbacks, s: seq<byte>, log: seq<Call>)
    requires WellBehaved(cb) && cb.end(s) > 0
    ensures |Parse(cb, s, log).log| > |log|
  {
    var k := cb.handle(log, s[..cb.end(s)]);
    ParseEndsDry(cb, s[k..], log + [Call(s[..cb.end(s)], k)]);
  }
}
