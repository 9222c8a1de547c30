/** EdnBuffer::RecvAtMost on values: filling nodes from a socket, then handing complete messages to the handler. */
module RecvSpec {
  import opened EdnDefine
  import opened Arena
  import opened BufferSpec
  import opened Framing

  /** What recv() answers. `Deliver(d)` has the bytes d ready; a call takes as many as it has room for and the rest
      stays for the next one. A socket whose script is used up would block. */
  datatype RecvOutcome = Deliver(data: seq<byte>) | WouldBlock | Interrupted | PeerClosed | RecvFailed

  /** How the receive loop ended: `Drained` is "would block", after which the messages are handed over. `OutOfArena`
      is a first node that reaches past the array, into which recv() then writes: of what comes after it nothing is
      known, and nothing here is claimed. */
  datatype RecvEnd = Drained | Closed | SysError | NoRoom | OutOfArena

  datatype FillResult = FillResult(b: Buf, received: seq<byte>, end: RecvEnd)

  function ScriptSize(script: seq<RecvOutcome>): nat {
    if script == [] then 0
    else 1 + (if script[0].Deliver? then |script[0].data| else 0) + ScriptSize(script[1..])
  }

  /** The space check before anything is read; `readable` is what GetReadableBytes answered. */
  function RecvNodeLen(cfg: Config, readable: nat): (r: nat)
    ensures r >= HEADER
  {
    Max(readable + HEADER, cfg.minNode)
  }

  predicate RecvRefused(cfg: Config, b: Buf, nodeLen: nat) {
    nodeLen > Wrap(cfg.capacity - b.size - HEADER * b.num)
  }

  /** The node at the start of the array. Repair: count it. */
  function OpenFirst(cfg: Config, b: Buf, nodeLen: nat): Buf
    requires HEADER <= nodeLen
  {
    PushNode(b, 0, nodeLen).(num := if cfg.fixed then 1 else b.num)
  }

  /** recv() copies behind the live bytes, as written and as repaired. */
  function TakeIn(cfg: Config, b: Buf, data: seq<byte>): (r: Buf)
    requires Valid(cfg, b) && b.nodes != []
    requires |data| <= b.nodes[|b.nodes| - 1].RemainSpace()
    ensures |r.nodes| == |b.nodes| && |r.mem| == |b.mem|
  {
    PutTail(cfg.(fixed := true), b, data).(size := Wrap(b.size + |data|))
  }

  /** Whether the tail counts as full. Repair: it holds bytes and has no space left, rather than as many live bytes as
      its capacity. */
  predicate Full(cfg: Config, n: Node) {
    if cfg.fixed then n.len > 0 && n.RemainSpace() == 0 else n.len == n.cap
  }

  lemma TakeInAppends(cfg: Config, b: Buf, data: seq<byte>)
    requires Valid(cfg, b) && b.nodes != []
    requires |data| <= b.nodes[|b.nodes| - 1].RemainSpace()
    ensures Valid(cfg, TakeIn(cfg, b, data))
    ensures Bytes(TakeIn(cfg, b, data).nodes, TakeIn(cfg, b, data).mem) == Bytes(b.nodes, b.mem) + data
  {
    PutTailAppends(cfg.(fixed := true), b, data);
  }

  /** The receive loop, from the moment the first node is there. */
  function FillTail(cfg: Config, b: Buf, nodeLen: nat, script: seq<RecvOutcome>): (r: FillResult)
    requires Valid(cfg, b) && b.nodes != [] && HEADER <= nodeLen
    ensures r.end != OutOfArena
    decreases ScriptSize(script)
  {
    if script == [] then FillResult(b, [], Drained)
    else match script[0]
      case WouldBlock => FillResult(b, [], Drained)
      case PeerClosed => FillResult(b, [], Closed)
      case RecvFailed => FillResult(b, [], SysError)
      case Interrupted => FillTail(cfg, b, nodeLen, script[1..])
      case Deliver(d) =>
        var k := Min(b.nodes[|b.nodes| - 1].RemainSpace(), |d|);
        if k == 0 then FillResult(b, [], Closed)
        else
          TakeInAppends(cfg, b, d[..k]);
          var b1 := TakeIn(cfg, b, d[..k]);
          var grown := Grow(cfg, b1, nodeLen);
          if grown.None? then FillResult(b1, d[..k], NoRoom)
          else
            GrowKeeps(cfg, b1, nodeLen);
            var r := FillTail(cfg, grown.value, nodeLen, Remaining(script, k));
            r.(received := d[..k] + r.received)
  }

  /** A full tail calls for one more node. */
  function Grow(cfg: Config, b: Buf, nodeLen: nat): Option<Buf>
    requires b.nodes != [] && HEADER <= nodeLen
  {
    if !Full(cfg, b.nodes[|b.nodes| - 1]) then Some(b)
    else
      var place := Next(cfg.fixed, b.nodes, nodeLen, cfg.capacity);
      if place.None? then None else Some(PushNode(b, place.value, nodeLen).(num := b.num + 1))
  }

  lemma GrowKeeps(cfg: Config, b: Buf, nodeLen: nat)
    requires Valid(cfg, b) && b.nodes != [] && HEADER <= nodeLen && Grow(cfg, b, nodeLen).Some?
    ensures var b' := Grow(cfg, b, nodeLen).value;
            && Valid(cfg, b') && b'.nodes != [] && b'.mem == b.mem && b'.size == b.size
            && Bytes(b'.nodes, b'.mem) == Bytes(b.nodes, b.mem)
            && b'.num - |b'.nodes| == b.num - |b.nodes|
  {
    if Full(cfg, b.nodes[|b.nodes| - 1]) {
      NextFits(cfg, b, nodeLen);
      PushNodeValid(cfg, b, nodeLen);
      PushNodeBytes(cfg, b, Next(cfg.fixed, b.nodes, nodeLen, cfg.capacity).value, nodeLen);
    }
  }

  function MakeRoom(cfg: Config, b: Buf, nodeLen: nat): Option<Buf>
    requires b.nodes != [] && HEADER <= nodeLen
  {
    if cfg.fixed then Grow(cfg, b, nodeLen) else Some(b)
  }

  lemma MakeRoomKeeps(cfg: Config, b: Buf, nodeLen: nat)
    requires Valid(cfg, b) && b.nodes != [] && HEADER <= nodeLen && MakeRoom(cfg, b, nodeLen).Some?
    ensures var b' := MakeRoom(cfg, b, nodeLen).value;
            && Valid(cfg, b') && b'.nodes != [] && b'.mem == b.mem && b'.size == b.size
            && Bytes(b'.nodes, b'.mem) == Bytes(b.nodes, b.mem)
            && b'.num - |b'.nodes| == b.num - |b.nodes|
  {
    if cfg.fixed {
      GrowKeeps(cfg, b, nodeLen);
    }
  }

  /** `full` is what the loop will have done in the end, seen from a turn at which it stands at b, has taken in
      `received` and faces `todo`. */
  ghost predicate FillRest(cfg: Config, b: Buf, nodeLen: nat, todo: seq<RecvOutcome>, received: seq<byte>,
                           full: FillResult) {
    && Valid(cfg, b) && b.nodes != [] && HEADER <= nodeLen
    && var r := FillTail(cfg, b, nodeLen, todo);
       full == FillResult(r.b, received + r.received, r.end)
  }

  lemma FillRestEnds(cfg: Config, b: Buf, nodeLen: nat, received: seq<byte>, full: FillResult)
    requires Valid(cfg, b) && b.nodes != [] && HEADER <= nodeLen
    ensures FillRest(cfg, b, nodeLen, [], received, full) ==> full == FillResult(b, received, Drained)
  {
  }

  lemma FillRestStarts(cfg: Config, b: Buf, nodeLen: nat, script: seq<RecvOutcome>)
    requires Valid(cfg, b) && b.nodes != [] && HEADER <= nodeLen
    ensures FillRest(cfg, b, nodeLen, script, [], FillTail(cfg, b, nodeLen, script))
  {
    var r := FillTail(cfg, b, nodeLen, script);
    assert [] + r.received == r.received;
  }

  /** One turn of the receive loop. */
  lemma FillStep(cfg: Config, b: Buf, nodeLen: nat, todo: seq<RecvOutcome>, received: seq<byte>, full: FillResult)
    requires FillRest(cfg, b, nodeLen, todo, received, full) && todo != []
    ensures match todo[0]
            case WouldBlock => full == FillResult(b, received, Drained)
            case PeerClosed => full == FillResult(b, received, Closed)
            case RecvFailed => full == FillResult(b, received, SysError)
            case Interrupted => FillRest(cfg, b, nodeLen, todo[1..], received, full)
            case Deliver(d) =>
              var k := Min(b.nodes[|b.nodes| - 1].RemainSpace(), |d|);
              if k == 0 then full == FillResult(b, received, Closed)
              else
                var b1 := TakeIn(cfg, b, d[..k]);
                match Grow(cfg, b1, nodeLen)
                case None => full == FillResult(b1, received + d[..k], NoRoom)
                case Some(b2) => FillRest(cfg, b2, nodeLen, Remaining(todo, k), received + d[..k], full)
  {
    hide Layout, PutTail;
    if todo[0].Deliver? {
      var d := todo[0].data;
      var k := Min(b.nodes[|b.nodes| - 1].RemainSpace(), |d|);
      if k != 0 {
        TakeInAppends(cfg, b, d[..k]);
        var grown := Grow(cfg, TakeIn(cfg, b, d[..k]), nodeLen);
        if grown.Some? {
          GrowKeeps(cfg, TakeIn(cfg, b, d[..k]), nodeLen);
          Associative(received, d[..k], FillTail(cfg, grown.value, nodeLen, Remaining(todo, k)).received);
        }
      }
    }
  }

  /** What the socket still has after giving up the first k bytes of its first delivery. */
  function Remaining(script: seq<RecvOutcome>, k: nat): (r: seq<RecvOutcome>)
    requires script != [] && script[0].Deliver? && 0 < k <= |script[0].data|
    ensures ScriptSize(r) < ScriptSize(script)
  {
    if k == |script[0].data| then script[1..]
    else
      var r := [Deliver(script[0].data[k..])] + script[1..];
      assert r[1..] == script[1..];
      r
  }

  /** One turn of the receive loop that takes bytes in. */
  lemma FillDelivers(cfg: Config, b: Buf, nodeLen: nat, script: seq<RecvOutcome>, k: nat)
    requires Valid(cfg, b) && b.nodes != [] && HEADER <= nodeLen && script != [] && script[0].Deliver?
    requires 0 < k == Min(b.nodes[|b.nodes| - 1].RemainSpace(), |script[0].data|)
    ensures var b1 := TakeIn(cfg, b, script[0].data[..k]);
            var grown := Grow(cfg, b1, nodeLen);
            Valid(cfg, b1) &&
            if grown.None? then FillTail(cfg, b, nodeLen, script) == FillResult(b1, script[0].data[..k], NoRoom)
            else
              && Valid(cfg, grown.value) && grown.value.nodes != []
              && var r := FillTail(cfg, grown.value, nodeLen, Remaining(script, k));
                 FillTail(cfg, b, nodeLen, script) == r.(received := script[0].data[..k] + r.received)
  {
    hide TakeIn, Grow, Layout, Bytes, Remaining;
    var d := script[0].data;
    TakeInAppends(cfg, b, d[..k]);
    if Grow(cfg, TakeIn(cfg, b, d[..k]), nodeLen).Some? {
      GrowKeeps(cfg, TakeIn(cfg, b, d[..k]), nodeLen);
    }
  }

  /** One delivery: k bytes of it taken in, and then one more node if that filled the tail; `ok` if there was place. */
  ghost predicate Delivered(cfg: Config, nodeLen: nat, b: Buf, data: seq<byte>, b': Buf, k: nat, ok: bool) {
    && Valid(cfg, b) && b.nodes != [] && HEADER <= nodeLen
    && k == Min(b.nodes[|b.nodes| - 1].RemainSpace(), |data|)
    && if k == 0 then ok && b' == b
       else
         var b1 := TakeIn(cfg, b, data[..k]);
         && Valid(cfg, b1)
         && var g := Grow(cfg, b1, nodeLen);
            ok == g.Some? && b' == if ok then g.value else b1
  }

  /** The whole receive loop. Repair: a tail that is full at the start gets a successor first; where there is no place
      for one, nothing is received and what is complete is handed over. */
  function Fill(cfg: Config, b: Buf, nodeLen: nat, script: seq<RecvOutcome>): FillResult
    requires Valid(cfg, b) && HEADER <= nodeLen
  {
    if b.nodes != [] then
      var ready := MakeRoom(cfg, b, nodeLen);
      if ready.None? then FillResult(b, [], Drained)
      else
        MakeRoomKeeps(cfg, b, nodeLen);
        FillTail(cfg, ready.value, nodeLen, script)
    else if nodeLen > cfg.capacity then FillResult(b, [], OutOfArena)
    else
      PushNodeValid(cfg, b, nodeLen);
      FillTail(cfg, OpenFirst(cfg, b, nodeLen), nodeLen, script)
  }

  /** Receiving appends exactly what the socket handed over, across nodes, and however it ends. */
  lemma {:induction false} FillTailAppends(cfg: Config, b: Buf, nodeLen: nat, script: seq<RecvOutcome>)
    requires Valid(cfg, b) && b.nodes != [] && HEADER <= nodeLen
    ensures var r := FillTail(cfg, b, nodeLen, script);
            && Valid(cfg, r.b)
            && Bytes(r.b.nodes, r.b.mem) == Bytes(b.nodes, b.mem) + r.received
    decreases ScriptSize(script)
  {
    hide PutTail, TakeIn, Grow;
    if script != [] {
      match script[0]
      case Interrupted => FillTailAppends(cfg, b, nodeLen, script[1..]);
      case Deliver(d) =>
        var k := Min(b.nodes[|b.nodes| - 1].RemainSpace(), |d|);
        if k != 0 {
          TakeInAppends(cfg, b, d[..k]);
          var b1 := TakeIn(cfg, b, d[..k]);
          var grown := Grow(cfg, b1, nodeLen);
          if grown.Some? {
            GrowKeeps(cfg, b1, nodeLen);
            FillTailAppends(cfg, grown.value, nodeLen, Remaining(script, k));
            var r := FillTail(cfg, grown.value, nodeLen, Remaining(script, k));
            Associative(Bytes(b.nodes, b.mem), d[..k], r.received);
          }
        }
      case _ =>
    }
  }

  // ---------- handing messages over ----------

  /** EdnBuffer::__PopData. Repair: subtract before zeroing, so that bytes taken from the front of a node leave
      size_ too. */
  function Pop(cfg: Config, b: Buf, len: nat): (r: Buf)
    requires len <= Total(b.nodes)
    ensures r.mem == b.mem
    decreases |b.nodes|
  {
    if len == 0 then b
    else
      var n := b.nodes[0];
      if n.len > len then
        b.(nodes := b.nodes[0 := n.(off := n.off + len, len := n.len - len)],
           size := if cfg.fixed then Wrap(b.size - len) else b.size)
      else
        Pop(cfg, Buf(b.nodes[1..], b.mem, Wrap(b.size - n.len), b.num - 1), len - n.len)
  }

  /** `full` is what __PopData will have done in the end, seen from a turn that has `left` bytes to go. */
  ghost predicate PopRest(cfg: Config, b: Buf, left: nat, full: Buf) {
    left <= Total(b.nodes) && Pop(cfg, b, left) == full
  }

  /** One turn of the loop of __PopData. */
  lemma PopStep(cfg: Config, b: Buf, left: nat, full: Buf)
    requires Valid(cfg, b) && PopRest(cfg, b, left, full) && left != 0
    ensures b.nodes != []
    ensures var n := b.nodes[0];
            if n.len > left then
              var b' := b.(nodes := b.nodes[0 := n.(off := n.off + left, len := n.len - left)],
                           size := if cfg.fixed then Wrap(b.size - left) else b.size);
              Valid(cfg, b') && PopRest(cfg, b', 0, full)
            else
              var b' := b.(nodes := b.nodes[1..], size := Wrap(b.size - n.len), num := b.num - 1);
              Valid(cfg, b') && PopRest(cfg, b', left - n.len, full)
  {
    hide Layout;
    AdvanceValid(cfg, b, Min(left, b.nodes[0].len));
  }

  lemma PopRestStarts(cfg: Config, b: Buf, len: nat)
    requires len <= Total(b.nodes)
    ensures PopRest(cfg, b, len, Pop(cfg, b, len))
  {
  }

  lemma PopRestEnds(cfg: Config, b: Buf, full: Buf)
    ensures PopRest(cfg, b, 0, full) ==> b == full
  {
  }

  lemma DropTwice(s: seq<byte>, i: nat, j: nat)
    requires i + j <= |s|
    ensures s[i..][j..] == s[i + j..]
  {
  }

  /** The first node of a pop: trimmed, or gone as a whole. */
  lemma PopFirst(cfg: Config, b: Buf, len: nat)
    requires Valid(cfg, b) && 0 < len <= Total(b.nodes)
    ensures var n, all := b.nodes[0], Bytes(b.nodes, b.mem);
            if n.len > len then
              Valid(cfg, Pop(cfg, b, len)) && Bytes(Pop(cfg, b, len).nodes, b.mem) == all[len..]
            else
              var b1 := Buf(b.nodes[1..], b.mem, Wrap(b.size - n.len), b.num - 1);
              && Valid(cfg, b1) && len - n.len <= Total(b1.nodes) && n.len <= |all|
              && Pop(cfg, b, len) == Pop(cfg, b1, len - n.len) && Bytes(b1.nodes, b.mem) == all[n.len..]
  {
    hide Layout, Live, Bytes;
    AdvanceSplits(cfg, b, Min(len, b.nodes[0].len));
  }

  /** Popping removes exactly that prefix of the contents, over as many nodes as it spans. */
  lemma {:induction false} PopSplits(cfg: Config, b: Buf, len: nat)
    requires Valid(cfg, b) && len <= Total(b.nodes)
    ensures Valid(cfg, Pop(cfg, b, len))
    ensures Bytes(Pop(cfg, b, len).nodes, b.mem) == Bytes(b.nodes, b.mem)[len..]
    decreases |b.nodes|
  {
    hide Layout, Bytes;
    if len != 0 {
      PopFirst(cfg, b, len);
      hide Pop;
      var n := b.nodes[0];
      if n.len <= len {
        PopSplits(cfg, Buf(b.nodes[1..], b.mem, Wrap(b.size - n.len), b.num - 1), len - n.len);
        DropTwice(Bytes(b.nodes, b.mem), n.len, len - n.len);
      }
    }
  }

  /** A pop that fits into the first nodes leaves the rest of the chain as it is. */
  lemma {:induction false} PopKeepsSuffix(cfg: Config, b: Buf, len: nat, pre: seq<Node>, post: seq<Node>)
    requires b.nodes == pre + post && len <= Total(pre) && Total(pre) <= Total(b.nodes)
    ensures |post| <= |Pop(cfg, b, len).nodes|
    ensures Pop(cfg, b, len).nodes[|Pop(cfg, b, len).nodes| - |post|..] == post
    decreases |pre|
  {
    if len == 0 {
    } else if b.nodes[0].len <= len {
      var n := b.nodes[0];
      var b1 := Buf(b.nodes[1..], b.mem, Wrap(b.size - n.len), b.num - 1);
      assert b1.nodes == pre[1..] + post;
      PopKeepsSuffix(cfg, b1, len - n.len, pre[1..], post);
      assert Pop(cfg, b, len) == Pop(cfg, b1, len - n.len);
    } else {
      assert |Pop(cfg, b, len).nodes| == |b.nodes|;
    }
  }

  /** Where __PopData stops inside a node. */
  ghost predicate AtNodeBoundary(ns: seq<Node>, len: nat) {
    exists k :: 0 <= k <= |ns| && Total(ns[..k]) == len
  }

  lemma TotalTake(ns: seq<Node>, k: nat)
    requires 0 < k <= |ns|
    ensures Total(ns[..k]) == ns[0].len + Total(ns[1..][..k - 1])
  {
    assert ns[..k][1..] == ns[1..][..k - 1];
  }

  lemma BoundaryTail(ns: seq<Node>, len: nat)
    requires ns != [] && 0 < len
    ensures ns[0].len <= len ==> (AtNodeBoundary(ns, len) <==> AtNodeBoundary(ns[1..], len - ns[0].len))
    ensures ns[0].len > len ==> !AtNodeBoundary(ns, len)
  {
    forall k | 0 < k <= |ns|
      ensures Total(ns[..k]) == ns[0].len + Total(ns[1..][..k - 1])
    {
      TotalTake(ns, k);
    }
    if ns[0].len <= len && AtNodeBoundary(ns[1..], len - ns[0].len) {
      var k :| 0 <= k <= |ns[1..]| && Total(ns[1..][..k]) == len - ns[0].len;
      assert Total(ns[..k + 1]) == len;
    }
    if AtNodeBoundary(ns, len) {
      var k :| 0 <= k <= |ns| && Total(ns[..k]) == len;
      assert Total(ns[1..][..k - 1]) == len - ns[0].len;
    }
  }

  /** As written, popping keeps size_ right exactly when it stops between two nodes: bytes taken from the front of a
      node stay counted for good. */
  lemma {:induction false} SourcePopKeepsSizeIffBoundary(cfg: Config, b: Buf, len: nat)
    requires !cfg.fixed && len <= Total(b.nodes) && b.size < WORD
    requires Total(b.nodes) <= b.size
    ensures var b' := Pop(cfg, b, len);
            && b'.size - Total(b'.nodes) >= b.size - Total(b.nodes)
            && (b'.size - Total(b'.nodes) == b.size - Total(b.nodes) <==> AtNodeBoundary(b.nodes, len))
    decreases |b.nodes|
  {
    if len == 0 {
      assert Total(b.nodes[..0]) == 0;
    } else {
      var n := b.nodes[0];
      BoundaryTail(b.nodes, len);
      if n.len > len {
        assert b.nodes[0 := n.(off := n.off + len, len := n.len - len)][1..] == b.nodes[1..];
      } else {
        SourcePopKeepsSizeIffBoundary(cfg, Buf(b.nodes[1..], b.mem, Wrap(b.size - n.len), b.num - 1), len - n.len);
      }
    }
  }

  /** Once repaired, popping keeps size_ in step with the chain. */
  lemma {:induction false} PopKeepsBooks(cfg: Config, b: Buf, len: nat)
    requires cfg.fixed && len <= Total(b.nodes) <= b.size < WORD
    ensures var b' := Pop(cfg, b, len);
            b'.size - Total(b'.nodes) == b.size - Total(b.nodes)
    decreases |b.nodes|
  {
    if len != 0 {
      var n := b.nodes[0];
      if n.len > len {
        assert b.nodes[0 := n.(off := n.off + len, len := n.len - len)][1..] == b.nodes[1..];
      } else {
        PopKeepsBooks(cfg, Buf(b.nodes[1..], b.mem, Wrap(b.size - n.len), b.num - 1), len - n.len);
      }
    }
  }

  /** The state of the consumption loop: the window is tmp_buf[offset..offset+len]. */
  datatype Walked = Walked(b: Buf, window: seq<byte>, log: seq<Call>)

  /** The inner loop: as Parse, popping what was taken. */
  function Drain(cfg: Config, b: Buf, cb: Callbacks, window: seq<byte>, log: seq<Call>): Walked
    requires WellBehaved(cb) && |window| <= Total(b.nodes) && Valid(cfg, b)
    decreases |window|
  {
    var m := cb.end(window);
    if m == 0 then Walked(b, window, log)
    else
      var k := cb.handle(log, window[..m]);
      PopSplits(cfg, b, k);
      assert |Bytes(Pop(cfg, b, k).nodes, b.mem)| == Total(b.nodes) - k;
      Drain(cfg, Pop(cfg, b, k), cb, window[k..], log + [Call(window[..m], k)])
  }

  /** Where the loop stands: `rest` are the nodes not yet copied, and the chain holds the window followed by them. */
  ghost predicate Walking(cfg: Config, b: Buf, rest: seq<Node>, window: seq<byte>) {
    && Valid(cfg, b)
    && |rest| <= |b.nodes|
    && b.nodes[|b.nodes| - |rest|..] == rest
    && InMem(rest, b.mem)
    && Bytes(b.nodes, b.mem) == window + Bytes(rest, b.mem)
  }

  lemma {:induction false} DrainIsParse(cfg: Config, b: Buf, cb: Callbacks, window: seq<byte>, log: seq<Call>)
    requires WellBehaved(cb) && Valid(cfg, b) && |window| <= Total(b.nodes)
    ensures var d, p := Drain(cfg, b, cb, window, log), Parse(cb, window, log);
            d.b.mem == b.mem && d.window == p.rest && d.log == p.log
    decreases |window|
  {
    var m := cb.end(window);
    if m != 0 {
      var k := cb.handle(log, window[..m]);
      PopSplits(cfg, b, k);
      assert |Bytes(Pop(cfg, b, k).nodes, b.mem)| == Total(b.nodes) - k;
      DrainIsParse(cfg, Pop(cfg, b, k), cb, window[k..], log + [Call(window[..m], k)]);
    }
  }

  lemma {:induction false} DrainWalks(cfg: Config, b: Buf, cb: Callbacks, post: seq<Node>, window: seq<byte>,
                                      log: seq<Call>)
    requires WellBehaved(cb) && Walking(cfg, b, post, window) && |window| <= Total(b.nodes)
    ensures Walking(cfg, Drain(cfg, b, cb, window, log).b, post, Drain(cfg, b, cb, window, log).window)
    decreases |window|
  {
    var m := cb.end(window);
    if m != 0 {
      var k := cb.handle(log, window[..m]);
      PopWhileWalking(cfg, b, k, post, window);
      var log1 := log + [Call(window[..m], k)];
      DrainWalks(cfg, Pop(cfg, b, k), cb, post, window[k..], log1);
      assert Drain(cfg, b, cb, window, log) == Drain(cfg, Pop(cfg, b, k), cb, window[k..], log1);
    }
  }

  /** The chain is popped while it is being walked: what the loop has not reached yet is not touched. */
  lemma PopWhileWalking(cfg: Config, b: Buf, k: nat, post: seq<Node>, window: seq<byte>)
    requires Walking(cfg, b, post, window) && k <= |window| <= Total(b.nodes)
    ensures Walking(cfg, Pop(cfg, b, k), post, window[k..])
    ensures |window[k..]| <= Total(Pop(cfg, b, k).nodes)
  {
    var pre := b.nodes[..|b.nodes| - |post|];
    assert b.nodes == pre + post;
    assert InMem(pre, b.mem);
    BytesConcat(pre, post, b.mem);
    assert |Bytes(pre, b.mem)| == |window|;
    PopSplits(cfg, b, k);
    PopKeepsSuffix(cfg, b, k, pre, post);
    SplitInFirst(window, Bytes(post, b.mem), k);
    assert |Bytes(Pop(cfg, b, k).nodes, b.mem)| == Total(b.nodes) - k;
  }

  /** The outer loop: copy the next node behind the window, then drain. */
  function Walk(cfg: Config, b: Buf, cb: Callbacks, rest: seq<Node>, window: seq<byte>, log: seq<Call>): Walked
    requires WellBehaved(cb) && Walking(cfg, b, rest, window)
    decreases |rest|
  {
    if rest == [] then Walked(b, window, log)
    else
      StepWalks(cfg, b, rest, window);
      var window1 := window + Live(rest[0], b.mem);
      DrainWalks(cfg, b, cb, rest[1..], window1, log);
      DrainIsParse(cfg, b, cb, window1, log);
      var d := Drain(cfg, b, cb, window1, log);
      Walk(cfg, d.b, cb, rest[1..], d.window, d.log)
  }

  lemma StepWalks(cfg: Config, b: Buf, rest: seq<Node>, window: seq<byte>)
    requires Walking(cfg, b, rest, window) && rest != []
    ensures Walking(cfg, b, rest[1..], window + Live(rest[0], b.mem))
    ensures |window| + rest[0].len <= Total(b.nodes)
  {
    hide Layout, Live, Valid;
    SuffixShrinks(b.nodes, rest);
    FirstBytes(rest, b.mem);
    Associative(window, Live(rest[0], b.mem), Bytes(rest[1..], b.mem));
  }

  lemma SuffixShrinks(ns: seq<Node>, rest: seq<Node>)
    requires 0 < |rest| <= |ns| && ns[|ns| - |rest|..] == rest
    ensures ns[|ns| - |rest[1..]|..] == rest[1..]
  {
  }

  lemma FirstBytes(ns: seq<Node>, mem: seq<byte>)
    requires InMem(ns, mem) && ns != []
    ensures InMem(ns[1..], mem) && ns[0].Ok() && ns[0].End() <= |mem|
    ensures Bytes(ns, mem) == Live(ns[0], mem) + Bytes(ns[1..], mem)
    ensures Total(ns) == ns[0].len + Total(ns[1..])
  {
  }

  function Chunks(ns: seq<Node>, mem: seq<byte>): seq<seq<byte>>
    requires InMem(ns, mem)
  {
    if ns == [] then [] else [Live(ns[0], mem)] + Chunks(ns[1..], mem)
  }

  lemma {:induction false} ChunksConcat(ns: seq<Node>, mem: seq<byte>)
    requires InMem(ns, mem)
    ensures Concat(Chunks(ns, mem)) == Bytes(ns, mem)
  {
    if ns != [] {
      ChunksConcat(ns[1..], mem);
      assert Chunks(ns, mem)[1..] == Chunks(ns[1..], mem);
    }
  }

  /** The whole consumption loop parses the node contents as they come, and leaves in the chain exactly what the
      window still holds. */
  lemma {:induction false} WalkIsFeed(cfg: Config, b: Buf, cb: Callbacks, rest: seq<Node>, window: seq<byte>,
                                      log: seq<Call>)
    requires WellBehaved(cb) && Walking(cfg, b, rest, window)
    ensures var w, p := Walk(cfg, b, cb, rest, window, log), Feed(cb, Chunks(rest, b.mem), window, log);
            && w.window == p.rest && w.log == p.log
            && w.b.mem == b.mem && Valid(cfg, w.b) && Bytes(w.b.nodes, w.b.mem) == w.window
    decreases |rest|
  {
    if rest == [] {
      assert window + Bytes(rest, b.mem) == window;
    } else {
      StepWalks(cfg, b, rest, window);
      var window1 := window + Live(rest[0], b.mem);
      DrainWalks(cfg, b, cb, rest[1..], window1, log);
      DrainIsParse(cfg, b, cb, window1, log);
      var d := Drain(cfg, b, cb, window1, log);
      WalkIsFeed(cfg, d.b, cb, rest[1..], d.window, d.log);
      assert Chunks(rest, b.mem)[1..] == Chunks(rest[1..], b.mem);
    }
  }

  /** `full` is what the consumption loop will have done in the end, seen from a turn that stands at `rest`. */
  ghost predicate WalkRest(cfg: Config, b: Buf, cb: Callbacks, rest: seq<Node>, window: seq<byte>, log: seq<Call>,
                           full: Walked) {
    WellBehaved(cb) && Walking(cfg, b, rest, window) && Walk(cfg, b, cb, rest, window, log) == full
  }

  lemma WalkRestStarts(cfg: Config, b: Buf, cb: Callbacks, log: seq<Call>)
    requires WellBehaved(cb) && Valid(cfg, b)
    ensures Walking(cfg, b, b.nodes, [])
    ensures WalkRest(cfg, b, cb, b.nodes, [], log, Walk(cfg, b, cb, b.nodes, [], log))
  {
  }

  /** The same inside the inner loop, with `post` still to be copied. */
  ghost predicate DrainRest(cfg: Config, b: Buf, cb: Callbacks, post: seq<Node>, window: seq<byte>, log: seq<Call>,
                            full: Walked) {
    && WellBehaved(cb) && Walking(cfg, b, post, window) && |window| <= Total(b.nodes)
    && (DrainWalks(cfg, b, cb, post, window, log);
        var d := Drain(cfg, b, cb, window, log);
        Walk(cfg, d.b, cb, post, d.window, d.log) == full)
  }

  lemma WalkStep(cfg: Config, b: Buf, cb: Callbacks, rest: seq<Node>, window: seq<byte>, log: seq<Call>, full: Walked)
    requires WalkRest(cfg, b, cb, rest, window, log, full)
    ensures rest == [] ==> full == Walked(b, window, log)
    ensures rest != [] ==> rest[0].Ok() && rest[0].End() <= |b.mem| && Valid(cfg, b) &&
                           DrainRest(cfg, b, cb, rest[1..], window + Live(rest[0], b.mem), log, full)
  {
    hide Layout;
    if rest != [] {
      StepWalks(cfg, b, rest, window);
      DrainIsParse(cfg, b, cb, window + Live(rest[0], b.mem), log);
      DrainWalks(cfg, b, cb, rest[1..], window + Live(rest[0], b.mem), log);
    }
  }

  lemma DrainStep(cfg: Config, b: Buf, cb: Callbacks, post: seq<Node>, window: seq<byte>, log: seq<Call>, full: Walked)
    requires DrainRest(cfg, b, cb, post, window, log, full)
    ensures cb.end(window) <= |window|
    ensures cb.end(window) == 0 ==> WalkRest(cfg, b, cb, post, window, log, full)
    ensures cb.end(window) > 0 ==>
              var msg := window[..cb.end(window)];
              var k := cb.handle(log, msg);
              && k <= |window| && 0 < k <= Total(b.nodes)
              && Valid(cfg, Pop(cfg, b, k)) && |post| <= |Pop(cfg, b, k).nodes|
              && Pop(cfg, b, k).nodes[|Pop(cfg, b, k).nodes| - |post|..] == post
              && DrainRest(cfg, Pop(cfg, b, k), cb, post, window[k..], log + [Call(msg, k)], full)
  {
    hide Layout, Pop, Walk;
    if cb.end(window) > 0 {
      PopWhileWalking(cfg, b, cb.handle(log, window[..cb.end(window)]), post, window);
    }
  }

  // ---------- RecvAtMost ----------

  datatype RecvResult = RecvResult(b: Buf, received: seq<byte>, end: RecvEnd, log: seq<Call>)

  /** EdnBuffer::RecvAtMost. `log` lists the calls of the handler so far. */
  function Recv(cfg: Config, b: Buf, readable: nat, script: seq<RecvOutcome>, cb: Callbacks, log: seq<Call>): RecvResult
    requires Valid(cfg, b) && WellBehaved(cb)
  {
    var nodeLen := RecvNodeLen(cfg, readable);
    if RecvRefused(cfg, b, nodeLen) then RecvResult(b, [], NoRoom, log)
    else
      var f := Fill(cfg, b, nodeLen, script);
      if f.end != Drained then RecvResult(f.b, f.received, f.end, log)
      else
        FillAppends(cfg, b, nodeLen, script);
        StartWalking(cfg, f.b);
        var w := Walk(cfg, f.b, cb, f.b.nodes, [], log);
        RecvResult(w.b, f.received, Drained, w.log)
  }

  lemma StartWalking(cfg: Config, b: Buf)
    requires Valid(cfg, b)
    ensures Walking(cfg, b, b.nodes, [])
  {
  }

  /** The consumption loop from its start: nothing is copied, and no node left out. */
  function Consumption(cfg: Config, b: Buf, cb: Callbacks, log: seq<Call>): Walked
    requires Valid(cfg, b) && WellBehaved(cb)
  {
    StartWalking(cfg, b);
    Walk(cfg, b, cb, b.nodes, [], log)
  }

  lemma FillAppends(cfg: Config, b: Buf, nodeLen: nat, script: seq<RecvOutcome>)
    requires Valid(cfg, b) && HEADER <= nodeLen
    ensures var r := Fill(cfg, b, nodeLen, script);
            && Valid(cfg, r.b)
            && Bytes(r.b.nodes, r.b.mem) == Bytes(b.nodes, b.mem) + r.received
  {
    if b.nodes != [] {
      if MakeRoom(cfg, b, nodeLen).Some? {
        MakeRoomKeeps(cfg, b, nodeLen);
        FillTailAppends(cfg, MakeRoom(cfg, b, nodeLen).value, nodeLen, script);
      } else {
        assert Bytes(b.nodes, b.mem) + [] == Bytes(b.nodes, b.mem);
      }
    } else if nodeLen <= cfg.capacity {
      PushNodeValid(cfg, b, nodeLen);
      PushNodeBytes(cfg, b, 0, nodeLen);
      FillTailAppends(cfg, OpenFirst(cfg, b, nodeLen), nodeLen, script);
    }
  }

  lemma RecvValid(cfg: Config, b: Buf, readable: nat, script: seq<RecvOutcome>, cb: Callbacks, log: seq<Call>)
    requires Valid(cfg, b) && WellBehaved(cb)
    ensures Valid(cfg, Recv(cfg, b, readable, script, cb, log).b)
  {
    var nodeLen := RecvNodeLen(cfg, readable);
    FillAppends(cfg, b, nodeLen, script);
    var f := Fill(cfg, b, nodeLen, script);
    if f.end == Drained {
      StartWalking(cfg, f.b);
      WalkIsFeed(cfg, f.b, cb, f.b.nodes, [], log);
    }
  }

  /** As written there is one node at most, so a call that ends in "would block" parses once. */
  lemma SourceRecvIsOneParse(cfg: Config, b: Buf, readable: nat, script: seq<RecvOutcome>, cb: Callbacks,
                             log: seq<Call>)
    requires !cfg.fixed && Valid(cfg, b) && WellBehaved(cb)
    requires Recv(cfg, b, readable, script, cb, log).end == Drained
    ensures var r := Recv(cfg, b, readable, script, cb, log);
            && Valid(cfg, r.b)
            && Parsed(r.log, Bytes(r.b.nodes, r.b.mem)) == Parse(cb, Bytes(b.nodes, b.mem) + r.received, log)
  {
    var nodeLen := RecvNodeLen(cfg, readable);
    var f := Fill(cfg, b, nodeLen, script);
    FillAppends(cfg, b, nodeLen, script);
    FillNotEmpty(cfg, b, nodeLen, script);
    StartWalking(cfg, f.b);
    WalkIsFeed(cfg, f.b, cb, f.b.nodes, [], log);
    var n := f.b.nodes[0];
    assert f.b.nodes == [n];
    BytesOne(n, f.b.mem);
    var chunks := Chunks([n], f.b.mem);
    assert [n][1..] == [] && chunks == [Live(n, f.b.mem)] && chunks[1..] == [];
    assert [] + Live(n, f.b.mem) == Live(n, f.b.mem);
    var p := Parse(cb, Live(n, f.b.mem), log);
    assert Feed(cb, chunks, [], log) == Feed(cb, chunks[1..], p.rest, p.log) == p;
  }

  lemma {:induction false} FillTailNotEmpty(cfg: Config, b: Buf, nodeLen: nat, script: seq<RecvOutcome>)
    requires Valid(cfg, b) && b.nodes != [] && HEADER <= nodeLen
    ensures FillTail(cfg, b, nodeLen, script).b.nodes != []
    decreases ScriptSize(script)
  {
    hide PutTail, Bytes, TakeIn, Grow, Layout, Remaining;
    if script != [] {
      match script[0]
      case Interrupted => FillTailNotEmpty(cfg, b, nodeLen, script[1..]);
      case Deliver(d) =>
        var k := Min(b.nodes[|b.nodes| - 1].RemainSpace(), |d|);
        if k != 0 {
          FillDelivers(cfg, b, nodeLen, script, k);
          var grown := Grow(cfg, TakeIn(cfg, b, d[..k]), nodeLen);
          if grown.Some? {
            hide FillTail;
            FillTailNotEmpty(cfg, grown.value, nodeLen, Remaining(script, k));
          }
        }
      case _ =>
    }
  }

  lemma FillNotEmpty(cfg: Config, b: Buf, nodeLen: nat, script: seq<RecvOutcome>)
    requires Valid(cfg, b) && HEADER <= nodeLen && Fill(cfg, b, nodeLen, script).end == Drained
    ensures Fill(cfg, b, nodeLen, script).b.nodes != []
  {
    if b.nodes != [] {
      if MakeRoom(cfg, b, nodeLen).Some? {
        MakeRoomKeeps(cfg, b, nodeLen);
        FillTailNotEmpty(cfg, MakeRoom(cfg, b, nodeLen).value, nodeLen, script);
      }
    } else {
      PushNodeValid(cfg, b, nodeLen);
      FillTailNotEmpty(cfg, OpenFirst(cfg, b, nodeLen), nodeLen, script);
    }
  }

  /** Input conservation, as written and as repaired, for every end callback and every handler, unless the call runs
      over the array: what the handler took in it followed by what stays buffered is what was buffered followed by what
      was received. */
  lemma RecvConserves(cfg: Config, b: Buf, readable: nat, script: seq<RecvOutcome>, cb: Callbacks, log: seq<Call>)
    requires Valid(cfg, b) && WellBehaved(cb) && Fair(log)
    ensures var r := Recv(cfg, b, readable, script, cb, log);
            && Valid(cfg, r.b)
            && (r.end != OutOfArena ==>
                  && Fair(r.log) && log <= r.log
                  && Consumed(r.log) + Bytes(r.b.nodes, r.b.mem) ==
                     Consumed(log) + (Bytes(b.nodes, b.mem) + r.received))
  {
    var nodeLen := RecvNodeLen(cfg, readable);
    if RecvRefused(cfg, b, nodeLen) {
      assert Bytes(b.nodes, b.mem) + [] == Bytes(b.nodes, b.mem);
    } else {
      var f := Fill(cfg, b, nodeLen, script);
      FillAppends(cfg, b, nodeLen, script);
      if f.end == Drained {
        StartWalking(cfg, f.b);
        WalkIsFeed(cfg, f.b, cb, f.b.nodes, [], log);
        FeedConserves(cb, Chunks(f.b.nodes, f.b.mem), [], log);
        ChunksConcat(f.b.nodes, f.b.mem);
        assert [] + Bytes(f.b.nodes, f.b.mem) == Bytes(f.b.nodes, f.b.mem);
      }
    }
  }

  /** One call that ends in "would block" is one parse of everything buffered and received, for a stable end
      callback. */
  lemma RecvIsParse(cfg: Config, b: Buf, readable: nat, script: seq<RecvOutcome>, cb: Callbacks, log: seq<Call>)
    requires Valid(cfg, b) && WellBehaved(cb) && Stable(cb.end)
    requires Recv(cfg, b, readable, script, cb, log).end == Drained
    ensures var r := Recv(cfg, b, readable, script, cb, log);
            && Valid(cfg, r.b)
            && Parsed(r.log, Bytes(r.b.nodes, r.b.mem)) == Parse(cb, Bytes(b.nodes, b.mem) + r.received, log)
  {
    var nodeLen := RecvNodeLen(cfg, readable);
    var f := Fill(cfg, b, nodeLen, script);
    FillAppends(cfg, b, nodeLen, script);
    StartWalking(cfg, f.b);
    WalkIsFeed(cfg, f.b, cb, f.b.nodes, [], log);
    var none: seq<byte> := [];
    assert cb.end(none) <= |none|;
    FeedIsParse(cb, Chunks(f.b.nodes, f.b.mem), [], log);
    ChunksConcat(f.b.nodes, f.b.mem);
    assert [] + Bytes(f.b.nodes, f.b.mem) == Bytes(f.b.nodes, f.b.mem);
  }

  /** What a call that starts makes of the receive loop. */
  lemma RecvOfFill(cfg: Config, b: Buf, readable: nat, script: seq<RecvOutcome>, cb: Callbacks, log: seq<Call>)
    requires Valid(cfg, b) && WellBehaved(cb) && !RecvRefused(cfg, b, RecvNodeLen(cfg, readable))
    ensures var r, f := Recv(cfg, b, readable, script, cb, log), Fill(cfg, b, RecvNodeLen(cfg, readable), script);
            && r.end == f.end && r.received == f.received
            && (r.end != Drained ==> r.b == f.b && r.log == log)
            && Valid(cfg, f.b)
            && (r.end == Drained ==>
                  var w := Walk(cfg, f.b, cb, f.b.nodes, [], log);
                  r.b == w.b && r.log == w.log)
  {
    hide Fill, Walk, Layout, Bytes;
    FillAppends(cfg, b, RecvNodeLen(cfg, readable), script);
  }

  /** A call hands messages over only if it ends in "would block". */
  lemma NothingHandedOver(cfg: Config, b: Buf, readable: nat, script: seq<RecvOutcome>, cb: Callbacks, log: seq<Call>)
    requires Valid(cfg, b) && WellBehaved(cb)
    ensures var r := Recv(cfg, b, readable, script, cb, log);
            && Valid(cfg, r.b)
            && (r.end !in {Drained, OutOfArena} ==>
                  r.log == log && Bytes(r.b.nodes, r.b.mem) == Bytes(b.nodes, b.mem) + r.received)
  {
    hide Fill, Walk, Layout;
    RecvValid(cfg, b, readable, script, cb, log);
    FillAppends(cfg, b, RecvNodeLen(cfg, readable), script);
    if RecvRefused(cfg, b, RecvNodeLen(cfg, readable)) {
      assert Bytes(b.nodes, b.mem) + [] == Bytes(b.nodes, b.mem);
    } else {
      RecvOfFill(cfg, b, readable, script, cb, log);
    }
  }

  // ---------- the two counters ----------

  /** size_ minus the bytes in the chain: nothing when the books are right. */
  function Drift(b: Buf): int {
    b.size - Total(b.nodes)
  }

  /** How far buffer_node_num_ is off. */
  function Miscount(b: Buf): int {
    b.num - |b.nodes|
  }

  /** Only the tail may hold no bytes. */
  ghost predicate EmptyOnlyAtTail(ns: seq<Node>) {
    forall i :: 0 <= i < |ns| - 1 ==> ns[i].len > 0
  }

  /** Every node without bytes has space. */
  ghost predicate Spacious(ns: seq<Node>) {
    forall i :: 0 <= i < |ns| ==> ns[i].len == 0 ==> ns[i].RemainSpace() > 0
  }

  /** The node count stays as far off as it is, empty nodes stay at the tail, and `spaced` is kept. */
  ghost predicate SameShape(b: Buf, b': Buf, spaced: bool) {
    && Miscount(b') == Miscount(b)
    && (EmptyOnlyAtTail(b.nodes) ==> EmptyOnlyAtTail(b'.nodes))
    && (spaced && Spacious(b.nodes) ==> Spacious(b'.nodes))
  }

  /** size_ counts at least what the chain holds, and is far from wrapping round. */
  ghost predicate Covered(cfg: Config, b: Buf) {
    0 <= Drift(b) && Drift(b) + cfg.capacity < WORD
  }

  lemma TakeInKeepsDrift(cfg: Config, b: Buf, data: seq<byte>)
    requires Valid(cfg, b) && b.nodes != [] && Covered(cfg, b)
    requires |data| <= b.nodes[|b.nodes| - 1].RemainSpace()
    ensures Drift(TakeIn(cfg, b, data)) == Drift(b)
  {
    TakeInAppends(cfg, b, data);
    var b1 := TakeIn(cfg, b, data);
    assert |Bytes(b1.nodes, b1.mem)| == Total(b.nodes) + |data|;
    SpaceNeverUnderflows(b1.nodes, cfg.capacity);
  }

  lemma {:induction false} FillTailKeepsDrift(cfg: Config, b: Buf, nodeLen: nat, script: seq<RecvOutcome>)
    requires Valid(cfg, b) && b.nodes != [] && HEADER <= nodeLen && Covered(cfg, b)
    ensures var r := FillTail(cfg, b, nodeLen, script);
            Drift(r.b) == Drift(b)
    decreases ScriptSize(script)
  {
    hide PutTail, TakeIn, Grow;
    if script != [] {
      match script[0]
      case Interrupted => FillTailKeepsDrift(cfg, b, nodeLen, script[1..]);
      case Deliver(d) =>
        var k := Min(b.nodes[|b.nodes| - 1].RemainSpace(), |d|);
        if k != 0 {
          TakeInAppends(cfg, b, d[..k]);
          TakeInKeepsDrift(cfg, b, d[..k]);
          var b1 := TakeIn(cfg, b, d[..k]);
          var grown := Grow(cfg, b1, nodeLen);
          if grown.Some? {
            GrowKeeps(cfg, b1, nodeLen);
            assert Total(grown.value.nodes) == |Bytes(grown.value.nodes, b1.mem)|;
            FillTailKeepsDrift(cfg, grown.value, nodeLen, Remaining(script, k));
          }
        }
      case _ =>
    }
  }

  lemma {:induction false} DrainKeepsDrift(cfg: Config, b: Buf, cb: Callbacks, window: seq<byte>, log: seq<Call>)
    requires WellBehaved(cb) && |window| <= Total(b.nodes) <= b.size < WORD && Valid(cfg, b)
    ensures var d := Drain(cfg, b, cb, window, log);
            && Drift(d.b) >= Drift(b) && (cfg.fixed ==> Drift(d.b) == Drift(b)) && d.b.size < WORD
    decreases |window|
  {
    var m := cb.end(window);
    if m != 0 {
      var k := cb.handle(log, window[..m]);
      PopSplits(cfg, b, k);
      assert |Bytes(Pop(cfg, b, k).nodes, b.mem)| == Total(b.nodes) - k;
      if cfg.fixed {
        PopKeepsBooks(cfg, b, k);
      } else {
        SourcePopKeepsSizeIffBoundary(cfg, b, k);
      }
      PopBounded(cfg, b, k);
      DrainKeepsDrift(cfg, Pop(cfg, b, k), cb, window[k..], log + [Call(window[..m], k)]);
    }
  }

  lemma {:induction false} PopBounded(cfg: Config, b: Buf, len: nat)
    requires len <= Total(b.nodes) && b.size < WORD
    ensures Pop(cfg, b, len).size < WORD
    decreases |b.nodes|
  {
    if len != 0 && b.nodes[0].len <= len {
      PopBounded(cfg, Buf(b.nodes[1..], b.mem, Wrap(b.size - b.nodes[0].len), b.num - 1), len - b.nodes[0].len);
    }
  }

  lemma {:induction false} WalkKeepsDrift(cfg: Config, b: Buf, cb: Callbacks, rest: seq<Node>, window: seq<byte>,
                                          log: seq<Call>)
    requires WellBehaved(cb) && Walking(cfg, b, rest, window) && Total(b.nodes) <= b.size < WORD
    ensures var w := Walk(cfg, b, cb, rest, window, log);
            && Drift(w.b) >= Drift(b) && (cfg.fixed ==> Drift(w.b) == Drift(b))
    decreases |rest|
  {
    if rest != [] {
      StepWalks(cfg, b, rest, window);
      var window1 := window + Live(rest[0], b.mem);
      DrainWalks(cfg, b, cb, rest[1..], window1, log);
      DrainIsParse(cfg, b, cb, window1, log);
      DrainKeepsDrift(cfg, b, cb, window1, log);
      var d := Drain(cfg, b, cb, window1, log);
      WalkKeepsDrift(cfg, d.b, cb, rest[1..], d.window, d.log);
    }
  }

  /** Whether this call opens the first node of the chain. */
  predicate Opens(cfg: Config, b: Buf, readable: nat) {
    var nodeLen := RecvNodeLen(cfg, readable);
    !RecvRefused(cfg, b, nodeLen) && b.nodes == [] && nodeLen <= cfg.capacity
  }

  lemma {:induction false} PopKeepsShape(cfg: Config, b: Buf, len: nat)
    requires len <= Total(b.nodes)
    ensures SameShape(b, Pop(cfg, b, len), true)
    decreases |b.nodes|
  {
    if len != 0 && b.nodes[0].len <= len {
      PopKeepsShape(cfg, Buf(b.nodes[1..], b.mem, Wrap(b.size - b.nodes[0].len), b.num - 1), len - b.nodes[0].len);
    }
  }

  lemma TakeInKeepsShape(cfg: Config, b: Buf, data: seq<byte>)
    requires Valid(cfg, b) && b.nodes != []
    requires |data| <= b.nodes[|b.nodes| - 1].RemainSpace()
    ensures SameShape(b, TakeIn(cfg, b, data), true)
    ensures data != [] && EmptyOnlyAtTail(b.nodes) ==> AllLive(TakeIn(cfg, b, data).nodes)
  {
  }

  lemma GrowKeepsShape(cfg: Config, b: Buf, nodeLen: nat)
    requires b.nodes != [] && HEADER <= nodeLen && Grow(cfg, b, nodeLen).Some?
    ensures AllLive(b.nodes) ==> EmptyOnlyAtTail(Grow(cfg, b, nodeLen).value.nodes)
    ensures nodeLen > HEADER && Spacious(b.nodes) ==> Spacious(Grow(cfg, b, nodeLen).value.nodes)
  {
  }

  lemma MakeRoomKeepsShape(cfg: Config, b: Buf, nodeLen: nat)
    requires b.nodes != [] && HEADER <= nodeLen && MakeRoom(cfg, b, nodeLen).Some?
    ensures EmptyOnlyAtTail(b.nodes) ==> EmptyOnlyAtTail(MakeRoom(cfg, b, nodeLen).value.nodes)
    ensures nodeLen > HEADER && Spacious(b.nodes) ==> Spacious(MakeRoom(cfg, b, nodeLen).value.nodes)
  {
  }

  lemma {:induction false} FillTailKeepsShape(cfg: Config, b: Buf, nodeLen: nat, script: seq<RecvOutcome>)
    requires Valid(cfg, b) && b.nodes != [] && HEADER <= nodeLen
    ensures SameShape(b, FillTail(cfg, b, nodeLen, script).b, nodeLen > HEADER)
    decreases ScriptSize(script)
  {
    hide Bytes, Grow, TakeIn, PutTail;
    if script != [] {
      match script[0]
      case Interrupted => FillTailKeepsShape(cfg, b, nodeLen, script[1..]);
      case Deliver(d) =>
        var k := Min(b.nodes[|b.nodes| - 1].RemainSpace(), |d|);
        if k != 0 {
          TakeInAppends(cfg, b, d[..k]);
          TakeInKeepsShape(cfg, b, d[..k]);
          var b1 := TakeIn(cfg, b, d[..k]);
          var grown := Grow(cfg, b1, nodeLen);
          if grown.Some? {
            GrowKeeps(cfg, b1, nodeLen);
            GrowKeepsShape(cfg, b1, nodeLen);
            FillTailKeepsShape(cfg, grown.value, nodeLen, Remaining(script, k));
          }
        }
      case _ =>
    }
  }

  lemma {:induction false} DrainKeepsShape(cfg: Config, b: Buf, cb: Callbacks, window: seq<byte>, log: seq<Call>)
    requires WellBehaved(cb) && |window| <= Total(b.nodes) && Valid(cfg, b)
    ensures SameShape(b, Drain(cfg, b, cb, window, log).b, true)
    decreases |window|
  {
    var m := cb.end(window);
    if m != 0 {
      var k := cb.handle(log, window[..m]);
      PopSplits(cfg, b, k);
      assert |Bytes(Pop(cfg, b, k).nodes, b.mem)| == Total(b.nodes) - k;
      PopKeepsShape(cfg, b, k);
      DrainKeepsShape(cfg, Pop(cfg, b, k), cb, window[k..], log + [Call(window[..m], k)]);
    }
  }

  lemma {:induction false} WalkKeepsShape(cfg: Config, b: Buf, cb: Callbacks, rest: seq<Node>, window: seq<byte>,
                                          log: seq<Call>)
    requires WellBehaved(cb) && Walking(cfg, b, rest, window)
    ensures SameShape(b, Walk(cfg, b, cb, rest, window, log).b, true)
    decreases |rest|
  {
    if rest != [] {
      StepWalks(cfg, b, rest, window);
      var window1 := window + Live(rest[0], b.mem);
      DrainWalks(cfg, b, cb, rest[1..], window1, log);
      DrainIsParse(cfg, b, cb, window1, log);
      DrainKeepsShape(cfg, b, cb, window1, log);
      var d := Drain(cfg, b, cb, window1, log);
      WalkKeepsShape(cfg, d.b, cb, rest[1..], d.window, d.log);
    }
  }

  lemma FillKeepsShape(cfg: Config, b: Buf, nodeLen: nat, script: seq<RecvOutcome>)
    requires Valid(cfg, b) && HEADER <= nodeLen && (b.nodes == [] ==> nodeLen <= cfg.capacity)
    ensures var f := Fill(cfg, b, nodeLen, script);
            && (EmptyOnlyAtTail(b.nodes) ==> EmptyOnlyAtTail(f.b.nodes))
            && (nodeLen > HEADER && Spacious(b.nodes) ==> Spacious(f.b.nodes))
            && Miscount(f.b) == if b.nodes != [] then Miscount(b) else if cfg.fixed then 0 else Miscount(b) - 1
  {
    hide FillTail, Grow, Bytes;
    if b.nodes == [] {
      PushNodeValid(cfg, b, nodeLen);
      FillTailKeepsShape(cfg, OpenFirst(cfg, b, nodeLen), nodeLen, script);
    } else if MakeRoom(cfg, b, nodeLen).Some? {
      MakeRoomKeeps(cfg, b, nodeLen);
      MakeRoomKeepsShape(cfg, b, nodeLen);
      FillTailKeepsShape(cfg, MakeRoom(cfg, b, nodeLen).value, nodeLen, script);
    }
  }

  /** Receiving and the chain, for every state, every callback and every call that does not run over the array: only
      the tail can be empty; a call that opens the chain counts its first node once repaired and not as written, and
      every other call keeps the count in step. */
  lemma RecvCounts(cfg: Config, b: Buf, readable: nat, script: seq<RecvOutcome>, cb: Callbacks, log: seq<Call>)
    requires Valid(cfg, b) && WellBehaved(cb)
    ensures var r := Recv(cfg, b, readable, script, cb, log);
            r.end != OutOfArena ==>
              && Miscount(r.b) == (if !Opens(cfg, b, readable) then Miscount(b)
                                   else if cfg.fixed then 0 else Miscount(b) - 1)
              && (EmptyOnlyAtTail(b.nodes) ==> EmptyOnlyAtTail(r.b.nodes))
              && (RecvNodeLen(cfg, readable) > HEADER && Spacious(b.nodes) ==> Spacious(r.b.nodes))
  {
    var nodeLen := RecvNodeLen(cfg, readable);
    if Opens(cfg, b, readable) || (!RecvRefused(cfg, b, nodeLen) && b.nodes != []) {
      FillKeepsShape(cfg, b, nodeLen, script);
      FillAppends(cfg, b, nodeLen, script);
      hide Fill, Walk, EmptyOnlyAtTail, Spacious;
      var f := Fill(cfg, b, nodeLen, script);
      if f.end == Drained {
        StartWalking(cfg, f.b);
        WalkKeepsShape(cfg, f.b, cb, f.b.nodes, [], log);
      }
    }
  }

  /** Receiving and size_. Repaired: it stays right, and so do the books. As written: it never falls below what the
      chain holds, so the copy made of the chain always fits its size_ bytes. */
  lemma RecvBooks(cfg: Config, b: Buf, readable: nat, script: seq<RecvOutcome>, cb: Callbacks, log: seq<Call>)
    requires Valid(cfg, b) && WellBehaved(cb) && Covered(cfg, b) && (cfg.fixed ==> Booked(b))
    ensures var r := Recv(cfg, b, readable, script, cb, log);
            && (r.end != OutOfArena ==> Drift(r.b) >= Drift(b))
            && (cfg.fixed ==> Booked(r.b) && r.end != OutOfArena)
  {
    hide Recv, Opens, Layout, Total;
    RecvCounts(cfg, b, readable, script, cb, log);
    RecvKeepsDrift(cfg, b, readable, script, cb, log);
    if cfg.fixed {
      BookedNeverOverruns(cfg, b, readable, script, cb, log);
    }
  }

  lemma BookedNeverOverruns(cfg: Config, b: Buf, readable: nat, script: seq<RecvOutcome>, cb: Callbacks, log: seq<Call>)
    requires Valid(cfg, b) && WellBehaved(cb) && Booked(b) && cfg.capacity < WORD
    ensures Recv(cfg, b, readable, script, cb, log).end != OutOfArena
  {
    hide Walk, FillTail;
    SpaceNeverUnderflows(b.nodes, cfg.capacity);
  }

  lemma RecvKeepsDrift(cfg: Config, b: Buf, readable: nat, script: seq<RecvOutcome>, cb: Callbacks, log: seq<Call>)
    requires Valid(cfg, b) && WellBehaved(cb) && Covered(cfg, b)
    ensures var r := Recv(cfg, b, readable, script, cb, log);
            r.end != OutOfArena ==> Drift(r.b) >= Drift(b) && (cfg.fixed ==> Drift(r.b) == Drift(b))
  {
    hide Fill, Layout, Total;
    var nodeLen := RecvNodeLen(cfg, readable);
    if !RecvRefused(cfg, b, nodeLen) {
      var f := Fill(cfg, b, nodeLen, script);
      FillAppends(cfg, b, nodeLen, script);
      FillOverruns(cfg, b, nodeLen, script);
      if f.end != OutOfArena {
        FillKeepsDrift(cfg, b, nodeLen, script);
        SpaceNeverUnderflows(f.b.nodes, cfg.capacity);
        if f.end == Drained {
          StartWalking(cfg, f.b);
          WalkKeepsDrift(cfg, f.b, cb, f.b.nodes, [], log);
        }
      }
    }
  }

  lemma FillOverruns(cfg: Config, b: Buf, nodeLen: nat, script: seq<RecvOutcome>)
    requires Valid(cfg, b) && HEADER <= nodeLen
    ensures Fill(cfg, b, nodeLen, script).end == OutOfArena <==> b.nodes == [] && nodeLen > cfg.capacity
  {
  }

  lemma FillKeepsDrift(cfg: Config, b: Buf, nodeLen: nat, script: seq<RecvOutcome>)
    requires Valid(cfg, b) && HEADER <= nodeLen && Covered(cfg, b) && (b.nodes == [] ==> nodeLen <= cfg.capacity)
    ensures var r := Fill(cfg, b, nodeLen, script);
            Drift(r.b) == Drift(b)
  {
    hide Layout, FillTail, Grow;
    if b.nodes != [] {
      if MakeRoom(cfg, b, nodeLen).Some? {
        MakeRoomKeeps(cfg, b, nodeLen);
        var b1 := MakeRoom(cfg, b, nodeLen).value;
        assert Total(b1.nodes) == |Bytes(b1.nodes, b1.mem)|;
        FillTailKeepsDrift(cfg, b1, nodeLen, script);
      }
    } else {
      PushNodeValid(cfg, b, nodeLen);
      PushNodeBytes(cfg, b, 0, nodeLen);
      var b1 := OpenFirst(cfg, b, nodeLen);
      assert |Bytes(b1.nodes, b.mem)| == 0;
      FillTailKeepsDrift(cfg, b1, nodeLen, script);
    }
  }

  /** The copy of size_ bytes that is made of the chain after receiving is large enough. */
  lemma RecvCovers(cfg: Config, b: Buf, nodeLen: nat, script: seq<RecvOutcome>)
    requires Valid(cfg, b) && HEADER <= nodeLen && Covered(cfg, b)
    ensures var f := Fill(cfg, b, nodeLen, script);
            Valid(cfg, f.b) && Total(f.b.nodes) <= f.b.size
  {
    FillAppends(cfg, b, nodeLen, script);
    if b.nodes != [] || nodeLen <= cfg.capacity {
      FillKeepsDrift(cfg, b, nodeLen, script);
    }
  }
}
