/** Receiving with the code as written: what becomes of the one node and of size_ over a run, and what that does to the
calls that follow. */
module SourceInput {
  import opened EdnDefine
  import opened Arena
  import opened BufferSpec
  import opened Framing
  import opened RecvSpec
  import opened BufferRuns
  import opened RecvEnds

  // ---------- the node ----------

  /** What is left of node n when all but the last `left` of its bytes are gone. */
  function Cut(n: Node, left: nat): Node
    requires left <= n.len
  {
    n.(off := n.off + n.len - left, len := left)
  }

  /** What the consumption loop makes of a buffer with one node. */
  ghost predicate Drained1(b: Buf, n: Node, log: seq<Call>, d: Walked) {
    && |d.window| <= n.len && log <= d.log
    && if d.window != [] then d.b == b.(nodes := [Cut(n, |d.window|)])
       else if n.len == 0 then d.b == b && d.log == log
       else
         && |d.log| > |log| && 0 < d.log[|d.log| - 1].taken <= n.len
         && d.b == Buf([], b.mem, Wrap(b.size - d.log[|d.log| - 1].taken), b.num - 1)
  }

  lemma SourcePop(cfg: Config, b: Buf, n: Node, k: nat)
    requires !cfg.fixed && Valid(cfg, b) && b.nodes == [n] && 0 < k <= n.len
    ensures k <= Total(b.nodes) == n.len
    ensures var b1 := Pop(cfg, b, k);
            && Valid(cfg, b1)
            && b1 == if k < n.len then b.(nodes := [Cut(n, n.len - k)]) else Buf([], b.mem, Wrap(b.size - k), b.num - 1)
  {
    TotalOne(n);
    PopSplits(cfg, b, k);
    if k == n.len {
      assert Pop(cfg, b, k) == Pop(cfg, Buf([], b.mem, Wrap(b.size - k), b.num - 1), 0);
    }
  }

  /** One turn of the consumption loop. */
  lemma DrainOnce(cfg: Config, b: Buf, cb: Callbacks, window: seq<byte>, log: seq<Call>)
    requires WellBehaved(cb) && Valid(cfg, b) && |window| <= Total(b.nodes) && cb.end(window) > 0
    ensures var msg := window[..cb.end(window)];
            var k := cb.handle(log, msg);
            && 0 < k <= |msg| && Valid(cfg, Pop(cfg, b, k)) && |window[k..]| <= Total(Pop(cfg, b, k).nodes)
            && Drain(cfg, b, cb, window, log) == Drain(cfg, Pop(cfg, b, k), cb, window[k..], log + [Call(msg, k)])
  {
    hide Layout, Pop, Bytes, Total;
    var k := cb.handle(log, window[..cb.end(window)]);
    PopSplits(cfg, b, k);
    assert |Bytes(Pop(cfg, b, k).nodes, b.mem)| == Total(b.nodes) - k;
  }

  /** The consumption loop over one node. */
  lemma {:induction false} SourceDrain(cfg: Config, b: Buf, cb: Callbacks, n: Node, window: seq<byte>, log: seq<Call>)
    requires !cfg.fixed && WellBehaved(cb) && Valid(cfg, b) && b.nodes == [n] && |window| == n.len
    ensures |window| <= Total(b.nodes)
    ensures Drained1(b, n, log, Drain(cfg, b, cb, window, log))
    decreases |window|
  {
    hide Layout, Pop, Bytes, Wrap, Valid, Total;
    TotalOne(n);
    if cb.end(window) > 0 {
      DrainOnce(cfg, b, cb, window, log);
      hide Drain;
      var msg := window[..cb.end(window)];
      var k := cb.handle(log, msg);
      SourcePop(cfg, b, n, k);
      var b1, log1 := Pop(cfg, b, k), log + [Call(msg, k)];
      if k < n.len {
        SourceDrain(cfg, b1, cb, Cut(n, n.len - k), window[k..], log1);
      } else {
        assert window[k..] == [];
        NothingToDrain(cfg, b1, cb, log1);
      }
    }
  }

  lemma NothingToDrain(cfg: Config, b: Buf, cb: Callbacks, log: seq<Call>)
    requires WellBehaved(cb) && Valid(cfg, b)
    ensures Drain(cfg, b, cb, [], log) == Walked(b, [], log) && Parse(cb, [], log) == Parsed(log, [])
  {
    var none: seq<byte> := [];
    assert cb.end(none) <= |none|;
  }

  lemma SourceWalk(cfg: Config, b: Buf, cb: Callbacks, n: Node, log: seq<Call>)
    requires !cfg.fixed && WellBehaved(cb) && Valid(cfg, b) && b.nodes == [n] && Walking(cfg, b, b.nodes, [])
    ensures var live := Live(n, b.mem);
            |live| <= Total(b.nodes) && Walk(cfg, b, cb, b.nodes, [], log) == Drain(cfg, b, cb, live, log)
  {
    var live := Live(n, b.mem);
    assert [] + live == live && b.nodes[1..] == [];
    StepWalks(cfg, b, b.nodes, []);
    DrainWalks(cfg, b, cb, b.nodes[1..], live, log);
    DrainIsParse(cfg, b, cb, live, log);
  }

  // ---------- size_ ----------

  lemma {:induction false} SourceFillOff(cfg: Config, b: Buf, nodeLen: nat, script: seq<RecvOutcome>, d: int)
    requires !cfg.fixed && Valid(cfg, b) && b.nodes != [] && HEADER <= nodeLen && Off(b, d)
    ensures Off(FillTail(cfg, b, nodeLen, script).b, d)
    decreases ScriptSize(script)
  {
    hide PutTail, Bytes, Layout, Grow, TakeIn, Wrap, Off, Total;
    if script != [] {
      match script[0]
      case Interrupted => SourceFillOff(cfg, b, nodeLen, script[1..], d);
      case Deliver(data) =>
        OneNode(cfg, b);
        var k := Min(b.nodes[|b.nodes| - 1].RemainSpace(), |data|);
        if k != 0 {
          SourceTakesIn(cfg, b, nodeLen, data[..k]);
          TakeInOff(cfg, b, data[..k], d);
          var b1 := TakeIn(cfg, b, data[..k]);
          if Grow(cfg, b1, nodeLen).Some? {
            SourceFillOff(cfg, b1, nodeLen, Remaining(script, k), d);
          }
        }
      case _ =>
    }
  }

  lemma TakeInOff(cfg: Config, b: Buf, data: seq<byte>, d: int)
    requires !cfg.fixed && Valid(cfg, b) && b.nodes != [] && Off(b, d)
    requires |data| <= b.nodes[|b.nodes| - 1].RemainSpace()
    ensures Off(TakeIn(cfg, b, data), d)
  {
    hide Wrap, Layout;
    OneNode(cfg, b);
    var n := b.nodes[0];
    assert TakeIn(cfg, b, data).nodes == [n.(len := n.len + |data|)];
    TotalOne(n);
    TotalOne(n.(len := n.len + |data|));
    WrapShift(n.len + d, |data|);
  }

  /** The bytes that one call takes out of the chain without taking them off size_: all that the handler took, but for
      the piece that emptied the chain. */
  function Leak(cfg: Config, b: Buf, r: RecvResult, log: seq<Call>): (leak: int)
    requires |log| <= |r.log|
  {
    if r.end != Drained || |r.log| == |log| then 0
    else
      var taken := Total(b.nodes) + |r.received| - Total(r.b.nodes);
      if Total(r.b.nodes) > 0 then taken else taken - r.log[|r.log| - 1].taken
  }

  function Gone(n: Node, log: seq<Call>, w: Walked): int
    requires |log| <= |w.log|
  {
    var gone := n.len - Total(w.b.nodes);
    if |w.log| == |log| then 0 else if Total(w.b.nodes) > 0 then gone else gone - w.log[|w.log| - 1].taken
  }

  lemma SourceDrainOff(cfg: Config, b: Buf, cb: Callbacks, n: Node, log: seq<Call>, d: int)
    requires !cfg.fixed && WellBehaved(cb) && Valid(cfg, b) && b.nodes == [n] && Walking(cfg, b, b.nodes, [])
    ensures var w := Walk(cfg, b, cb, b.nodes, [], log);
            && log <= w.log && 0 <= Gone(n, log, w)
            && (Off(b, d) ==> Off(w.b, d + Gone(n, log, w)))
  {
    hide Layout, Wrap, Parse, Total;
    SourceWalk(cfg, b, cb, n, log);
    SourceDrain(cfg, b, cb, n, Live(n, b.mem), log);
    TotalOne(n);
    var w := Drain(cfg, b, cb, Live(n, b.mem), log);
    hide Drain, Walk, Walking;
    if w.window != [] {
      TotalOne(Cut(n, |w.window|));
      SourceNoCall(cfg, b, cb, n, log);
    } else if n.len > 0 {
      var taken: int := w.log[|w.log| - 1].taken;
      WrapShift(n.len + d, -taken);
      NoNodes(w.b);
    }
  }

  /** Without a call of the handler nothing is popped. */
  lemma SourceNoCall(cfg: Config, b: Buf, cb: Callbacks, n: Node, log: seq<Call>)
    requires !cfg.fixed && WellBehaved(cb) && Valid(cfg, b) && b.nodes == [n]
    requires |Live(n, b.mem)| <= Total(b.nodes)
    ensures var d := Drain(cfg, b, cb, Live(n, b.mem), log);
            |d.log| == |log| ==> |d.window| == n.len
  {
    var live := Live(n, b.mem);
    DrainIsParse(cfg, b, cb, live, log);
    if cb.end(live) > 0 {
      ParseCalls(cb, live, log);
    }
  }

  /** One call that does not run over the array: size_ drifts by what it leaks, modulo 2^64, whatever the state and the
      callbacks. */
  lemma SourceRecvDrifts(cfg: Config, b: Buf, readable: nat, script: seq<RecvOutcome>, cb: Callbacks, log: seq<Call>,
                         d: int)
    requires !cfg.fixed && Valid(cfg, b) && WellBehaved(cb)
    ensures var r := Recv(cfg, b, readable, script, cb, log);
            && |log| <= |r.log| && Leak(cfg, b, r, log) >= 0
            && (r.end != OutOfArena && Off(b, d) ==> Off(r.b, d + Leak(cfg, b, r, log)))
  {
    hide Recv, Off, Leak, Starts, Valid;
    if !Starts(cfg, b, readable) {
      DoesNotStart(cfg, b, readable, script, cb, log);
      NoLeak(cfg, b, Recv(cfg, b, readable, script, cb, log), log);
    } else {
      StartedDrifts(cfg, b, readable, script, cb, log, d);
    }
  }

  lemma NoLeak(cfg: Config, b: Buf, r: RecvResult, log: seq<Call>)
    requires |log| <= |r.log| && (r.end != Drained || |r.log| == |log|)
    ensures Leak(cfg, b, r, log) == 0
  {
  }

  lemma StartedDrifts(cfg: Config, b: Buf, readable: nat, script: seq<RecvOutcome>, cb: Callbacks, log: seq<Call>,
                      d: int)
    requires !cfg.fixed && Valid(cfg, b) && WellBehaved(cb) && Starts(cfg, b, readable)
    ensures var r := Recv(cfg, b, readable, script, cb, log);
            && |log| <= |r.log| && Leak(cfg, b, r, log) >= 0
            && (Off(b, d) ==> Off(r.b, d + Leak(cfg, b, r, log)))
  {
    hide Recv, Fill, Walk, Layout, Off, Starts, Bytes, Valid, Leak;
    NotRefused(cfg, b, readable);
    RecvOfFill(cfg, b, readable, script, cb, log);
    if Off(b, d) {
      SourceFillDrifts(cfg, b, readable, script, d);
    }
    var f, r := Fill(cfg, b, RecvNodeLen(cfg, readable), script), Recv(cfg, b, readable, script, cb, log);
    if f.end == Drained {
      FilledOneNode(cfg, b, readable, script);
      StartWalking(cfg, f.b);
      var w := Walk(cfg, f.b, cb, f.b.nodes, [], log);
      SourceDrainOff(cfg, f.b, cb, f.b.nodes[0], log, d);
      LeakIsGone(cfg, b, r, log, f.b.nodes[0], w);
    } else {
      NoLeak(cfg, b, r, log);
    }
  }

  /** What is there when the receive loop is done: one node, with what was buffered and what was received. */
  lemma FilledOneNode(cfg: Config, b: Buf, readable: nat, script: seq<RecvOutcome>)
    requires !cfg.fixed && Valid(cfg, b) && Starts(cfg, b, readable)
    ensures var f := Fill(cfg, b, RecvNodeLen(cfg, readable), script);
            && Valid(cfg, f.b) && f.b.nodes != [] && f.b.nodes == [f.b.nodes[0]]
            && f.b.nodes[0].len == Total(b.nodes) + |f.received|
            && InMem(f.b.nodes, f.b.mem) && InMem(b.nodes, b.mem)
            && Live(f.b.nodes[0], f.b.mem) == Bytes(b.nodes, b.mem) + f.received
  {
    hide Fill, Layout, Starts, Bytes, Live, Offered, Ending, SourceEnd;
    SourceFill(cfg, b, readable, script);
    TotalFirst(cfg, b, readable);
    FillAppends(cfg, b, RecvNodeLen(cfg, readable), script);
    var f := Fill(cfg, b, RecvNodeLen(cfg, readable), script);
    BytesOne(f.b.nodes[0], f.b.mem);
  }

  lemma TotalFirst(cfg: Config, b: Buf, readable: nat)
    requires !cfg.fixed && Valid(cfg, b)
    ensures Total(b.nodes) == FirstNode(cfg, b, readable).len
  {
    if b.nodes != [] {
      OneNode(cfg, b);
      TotalOne(b.nodes[0]);
    }
  }

  lemma LeakIsGone(cfg: Config, b: Buf, r: RecvResult, log: seq<Call>, n: Node, w: Walked)
    requires |log| <= |w.log| && r.end == Drained && r.b == w.b && r.log == w.log
    requires n.len == Total(b.nodes) + |r.received|
    ensures Leak(cfg, b, r, log) == Gone(n, log, w)
  {
  }

  lemma DoesNotStart(cfg: Config, b: Buf, readable: nat, script: seq<RecvOutcome>, cb: Callbacks, log: seq<Call>)
    requires Valid(cfg, b) && WellBehaved(cb) && !Starts(cfg, b, readable)
    ensures var r := Recv(cfg, b, readable, script, cb, log);
            r.b == b && r.received == [] && r.log == log && r.end != Drained
  {
  }

  lemma SourceFillDrifts(cfg: Config, b: Buf, readable: nat, script: seq<RecvOutcome>, d: int)
    requires !cfg.fixed && Valid(cfg, b) && Starts(cfg, b, readable) && Off(b, d)
    ensures Off(Fill(cfg, b, RecvNodeLen(cfg, readable), script).b, d)
  {
    hide FillTail, Layout, Wrap;
    var nodeLen := RecvNodeLen(cfg, readable);
    if b.nodes == [] {
      OpenKeeps(cfg, b, nodeLen);
      TotalOne(Node(0, nodeLen - HEADER, 0, 0));
      SourceFillOff(cfg, OpenFirst(cfg, b, nodeLen), nodeLen, script, d);
    } else {
      SourceFillOff(cfg, b, nodeLen, script, d);
    }
  }

  /** What a run leaks. */
  ghost function Leaks(cfg: Config, s: InRun, calls: seq<InCall>, cb: Callbacks): nat
    requires !cfg.fixed && Valid(cfg, s.b) && WellBehaved(cb)
    decreases |calls|
  {
    if calls == [] || s.overrun then 0
    else
      var c := calls[0];
      InStepValid(cfg, s, c, cb);
      SourceRecvDrifts(cfg, s.b, c.readable, c.script, cb, s.log, 0);
      Leak(cfg, s.b, Recv(cfg, s.b, c.readable, c.script, cb, s.log), s.log)
        + Leaks(cfg, InStep(cfg, s, c, cb), calls[1..], cb)
  }

  /** As written, over every run short of an overrun, size_ is off by exactly what the calls leaked, modulo 2^64. */
  lemma {:induction false} SourceSizeDrifts(cfg: Config, s: InRun, calls: seq<InCall>, cb: Callbacks, d: int)
    requires !cfg.fixed && Valid(cfg, s.b) && WellBehaved(cb) && Off(s.b, d)
    ensures !RunIn(cfg, s, calls, cb).overrun ==> Off(RunIn(cfg, s, calls, cb).b, d + Leaks(cfg, s, calls, cb))
    decreases |calls|
  {
    hide Recv, Off, Leak;
    if s.overrun {
      OverrunEnds(cfg, s, calls, cb);
    } else if calls != [] {
      var c := calls[0];
      SourceRecvDrifts(cfg, s.b, c.readable, c.script, cb, s.log, d);
      InStepValid(cfg, s, c, cb);
      var s1 := InStep(cfg, s, c, cb);
      if s1.overrun {
        OverrunEnds(cfg, s1, calls[1..], cb);
      } else {
        SourceSizeDrifts(cfg, s1, calls[1..], cb,
                         d + Leak(cfg, s.b, Recv(cfg, s.b, c.readable, c.script, cb, s.log), s.log));
      }
    }
  }

  /** A call leaks nothing exactly if it hands nothing over, or hands over all it has in one piece: the condition is
      about the buffer, the socket and the callbacks as they are before it. */
  ghost predicate TakesWhole(cfg: Config, b: Buf, readable: nat, script: seq<RecvOutcome>, cb: Callbacks,
                             log: seq<Call>)
    requires Valid(cfg, b) && WellBehaved(cb)
  {
    CallEnd(cfg, b, readable, script) == Drained ==>
      var all := Bytes(b.nodes, b.mem) + CallTakes(cfg, b, readable, script);
      cb.end(all) == 0 || cb.handle(log, all[..cb.end(all)]) == |all|
  }

  lemma GoneIffNotWhole(cfg: Config, b: Buf, cb: Callbacks, n: Node, log: seq<Call>)
    requires !cfg.fixed && WellBehaved(cb) && Valid(cfg, b) && b.nodes == [n] && Walking(cfg, b, b.nodes, [])
    ensures var live, w := Live(n, b.mem), Walk(cfg, b, cb, b.nodes, [], log);
            && |log| <= |w.log|
            && (Gone(n, log, w) == 0 <==> cb.end(live) == 0 || cb.handle(log, live[..cb.end(live)]) == n.len)
  {
    hide Layout, Wrap, Pop, Bytes, Total, Live, Walking, Walk;
    var live := Live(n, b.mem);
    SourceWalk(cfg, b, cb, n, log);
    TotalOne(n);
    SourceDrain(cfg, b, cb, n, live, log);
    var m := cb.end(live);
    if m != 0 {
      var k := cb.handle(log, live[..m]);
      SourcePop(cfg, b, n, k);
      var b1, log1 := Pop(cfg, b, k), log + [Call(live[..m], k)];
      if k == n.len {
        assert live[k..] == [];
        NothingToDrain(cfg, b1, cb, log1);
        NoNodes(b1);
      } else {
        TotalOne(Cut(n, n.len - k));
        SourceDrain(cfg, b1, cb, Cut(n, n.len - k), live[k..], log1);
        hide Valid;
        GoneAtLeast(b1, Cut(n, n.len - k), log, log1, Drain(cfg, b1, cb, live[k..], log1), n, k);
      }
    }
  }

  /** What the first call has taken from the front is gone for good. */
  lemma GoneAtLeast(b: Buf, rest: Node, log0: seq<Call>, log: seq<Call>, w: Walked, n: Node, k: nat)
    requires Drained1(b, rest, log, w) && rest.len + k == n.len && rest.len > 0 && |log| == |log0| + 1
    ensures |log0| < |w.log| && Gone(n, log0, w) >= k
  {
    if w.window != [] {
      TotalOne(Cut(rest, |w.window|));
    } else {
      NoNodes(w.b);
    }
  }

  lemma LeaksNothingIff(cfg: Config, b: Buf, readable: nat, script: seq<RecvOutcome>, cb: Callbacks, log: seq<Call>)
    requires !cfg.fixed && Valid(cfg, b) && WellBehaved(cb)
    ensures var r := Recv(cfg, b, readable, script, cb, log);
            |log| <= |r.log| && (Leak(cfg, b, r, log) == 0 <==> TakesWhole(cfg, b, readable, script, cb, log))
  {
    hide Recv, Fill, Walk, Layout, Starts, Bytes, Live, CallEnd, CallTakes, Leak;
    RecvEndsAs(cfg, b, readable, script, cb, log);
    SourceRecvDrifts(cfg, b, readable, script, cb, log, 0);
    var r := Recv(cfg, b, readable, script, cb, log);
    if r.end != Drained {
      NoLeak(cfg, b, r, log);
    } else {
      DrainedStarts(cfg, b, readable, script, cb, log);
      StartedLeaksNothingIff(cfg, b, readable, script, cb, log);
    }
  }

  lemma DrainedStarts(cfg: Config, b: Buf, readable: nat, script: seq<RecvOutcome>, cb: Callbacks, log: seq<Call>)
    requires Valid(cfg, b) && WellBehaved(cb) && Recv(cfg, b, readable, script, cb, log).end == Drained
    ensures Starts(cfg, b, readable)
  {
    hide Recv;
    if !Starts(cfg, b, readable) {
      DoesNotStart(cfg, b, readable, script, cb, log);
    }
  }

  lemma StartedLeaksNothingIff(cfg: Config, b: Buf, readable: nat, script: seq<RecvOutcome>, cb: Callbacks,
                               log: seq<Call>)
    requires !cfg.fixed && Valid(cfg, b) && WellBehaved(cb) && Starts(cfg, b, readable)
    requires Recv(cfg, b, readable, script, cb, log).end == Drained
    ensures var r := Recv(cfg, b, readable, script, cb, log);
            var all := Bytes(b.nodes, b.mem) + r.received;
            && |log| <= |r.log|
            && (Leak(cfg, b, r, log) == 0 <==> cb.end(all) == 0 || cb.handle(log, all[..cb.end(all)]) == |all|)
  {
    hide Recv, Fill, Walk, Layout, Starts, Bytes, Live, Walking, Valid, Leak, Gone;
    NotRefused(cfg, b, readable);
    RecvOfFill(cfg, b, readable, script, cb, log);
    FilledOneNode(cfg, b, readable, script);
    var f := Fill(cfg, b, RecvNodeLen(cfg, readable), script);
    StartWalking(cfg, f.b);
    GoneIffNotWhole(cfg, f.b, cb, f.b.nodes[0], log);
    LeakIsGone(cfg, b, Recv(cfg, b, readable, script, cb, log), log, f.b.nodes[0],
               Walk(cfg, f.b, cb, f.b.nodes, [], log));
  }

  /** Every call of a run, up to an overrun, hands nothing over or all it has in one piece. */
  ghost predicate AllWhole(cfg: Config, s: InRun, calls: seq<InCall>, cb: Callbacks)
    requires Valid(cfg, s.b) && WellBehaved(cb)
    decreases |calls|
  {
    calls == [] || s.overrun ||
    (InStepValid(cfg, s, calls[0], cb);
     && TakesWhole(cfg, s.b, calls[0].readable, calls[0].script, cb, s.log)
     && AllWhole(cfg, InStep(cfg, s, calls[0], cb), calls[1..], cb))
  }

  lemma {:induction false} LeaksIffNotWhole(cfg: Config, s: InRun, calls: seq<InCall>, cb: Callbacks)
    requires !cfg.fixed && Valid(cfg, s.b) && WellBehaved(cb)
    ensures Leaks(cfg, s, calls, cb) == 0 <==> AllWhole(cfg, s, calls, cb)
    decreases |calls|
  {
    hide Recv, TakesWhole, Leak;
    if calls != [] && !s.overrun {
      var c := calls[0];
      InStepValid(cfg, s, c, cb);
      SourceRecvDrifts(cfg, s.b, c.readable, c.script, cb, s.log, 0);
      LeaksNothingIff(cfg, s.b, c.readable, c.script, cb, s.log);
      LeaksIffNotWhole(cfg, InStep(cfg, s, c, cb), calls[1..], cb);
    }
  }

  /** So after a run that did not run over the array size_ is right exactly if every call found, before it, that it
      would hand over nothing or all it had in one piece; short of 2^64 bytes. */
  lemma SourceSizeIsRightIff(cfg: Config, s: InRun, calls: seq<InCall>, cb: Callbacks)
    requires !cfg.fixed && Valid(cfg, s.b) && WellBehaved(cb) && Off(s.b, 0)
    requires Leaks(cfg, s, calls, cb) < WORD - cfg.capacity
    ensures var t := RunIn(cfg, s, calls, cb);
            !t.overrun ==> (t.b.size == Total(t.b.nodes) <==> AllWhole(cfg, s, calls, cb))
  {
    hide Recv, Leaks, AllWhole;
    SourceSizeDrifts(cfg, s, calls, cb, 0);
    LeaksIffNotWhole(cfg, s, calls, cb);
    var t := RunIn(cfg, s, calls, cb);
    RunInValid(cfg, s, calls, cb);
    SpaceNeverUnderflows(t.b.nodes, cfg.capacity);
  }

  lemma {:induction false} RunInValid(cfg: Config, s: InRun, calls: seq<InCall>, cb: Callbacks)
    requires Valid(cfg, s.b) && WellBehaved(cb)
    ensures Valid(cfg, RunIn(cfg, s, calls, cb).b)
    decreases |calls|
  {
    hide Recv, Valid;
    if calls != [] {
      InStepValid(cfg, s, calls[0], cb);
      RunInValid(cfg, InStep(cfg, s, calls[0], cb), calls[1..], cb);
    }
  }

  // ---------- refused for good ----------

  ghost predicate AlwaysRefused(cfg: Config, b: Buf, cb: Callbacks, log: seq<Call>)
    requires Valid(cfg, b) && WellBehaved(cb)
  {
    forall readable: nat, script ::
      Recv(cfg, b, readable, script, cb, log) == RecvResult(b, [], NoRoom, log)
  }

  /** Both forms: every call is refused and changes nothing, so that every later one is, exactly if the first space
      check refuses the smallest node. */
  lemma RefusedForGoodIff(cfg: Config, b: Buf, cb: Callbacks, log: seq<Call>)
    requires Valid(cfg, b) && WellBehaved(cb)
    ensures AlwaysRefused(cfg, b, cb, log) <==>
            Max(HEADER, cfg.minNode) > Wrap(cfg.capacity - b.size - HEADER * b.num)
  {
    hide Fill, Walk, Wrap;
    if RecvRefused(cfg, b, RecvNodeLen(cfg, 0)) {
      forall readable: nat, script
        ensures Recv(cfg, b, readable, script, cb, log) == RecvResult(b, [], NoRoom, log)
      {
        RefusesLonger(cfg, b, readable);
        RefusedCall(cfg, b, readable, script, cb, log);
      }
    } else {
      RecvOfFill(cfg, b, 0, [], cb, log);
      DryFill(cfg, b, RecvNodeLen(cfg, 0));
    }
  }

  lemma {:induction false} RefusedRun(cfg: Config, s: InRun, calls: seq<InCall>, cb: Callbacks)
    requires Valid(cfg, s.b) && WellBehaved(cb) && RecvRefused(cfg, s.b, RecvNodeLen(cfg, 0))
    ensures Unmoved(cfg, s, calls, cb)
    decreases |calls|
  {
    hide Recv, Wrap;
    if calls != [] {
      RefusedForGoodIff(cfg, s.b, cb, s.log);
      var c := calls[0];
      assert Recv(cfg, s.b, c.readable, c.script, cb, s.log) == RecvResult(s.b, [], NoRoom, s.log);
      RefusedRun(cfg, InStep(cfg, s, c, cb), calls[1..], cb);
    }
  }

  // ---------- two runs with the default sizes ----------

  /** Messages of n bytes each, which the handler takes whole. */
  function Sized(n: nat): Callbacks {
    Callbacks((s: seq<byte>) => if |s| >= n then n else 0, (log: seq<Call>, msg: seq<byte>) => |msg|)
  }

  lemma SizedBehaves(n: nat)
    ensures WellBehaved(Sized(n)) && (n > 0 ==> Stable(Sized(n).end))
  {
  }

  function Left(x: nat, n: nat): (left: nat)
    requires n > 0
    ensures left < n && left <= x
  {
    if x < n then x else Left(x - n, n)
  }

  lemma {:induction false} SizedParse(n: nat, s: seq<byte>, log: seq<Call>)
    requires n > 0 && WellBehaved(Sized(n))
    ensures var p := Parse(Sized(n), s, log);
            && |p.rest| == Left(|s|, n) && |log| <= |p.log|
            && (|p.log| > |log| <==> |s| >= n) && (|s| >= n ==> p.log[|p.log| - 1].taken == n)
    decreases |s|
  {
    if |s| >= n {
      SizedParse(n, s[n..], log + [Call(s[..n], n)]);
    }
  }

  const DEFAULT := Config(81920, 4096, false)

  function Zeros(n: nat): seq<byte> {
    seq(n, _ => 0)
  }

  function Burst(n: nat): InCall {
    InCall(n, [Deliver(Zeros(n))])
  }

  lemma BurstOffers(n: nat)
    requires n > 0
    ensures Offered(Burst(n).script) == Zeros(n) && Ending(Burst(n).script) == Drained
  {
    assert Burst(n).script[1..] == [];
    assert Zeros(n) + [] == Zeros(n);
  }

  lemma BurstFill(b: Buf, t: nat)
    requires Valid(DEFAULT, b) && b.nodes == [] && 0 < t < 4048 && Starts(DEFAULT, b, t) && b.size < WORD - t
    ensures var f := Fill(DEFAULT, b, RecvNodeLen(DEFAULT, t), Burst(t).script);
            && Valid(DEFAULT, f.b) && f.end == Drained
            && f.b.nodes == [Node(0, 4048, 0, t)] && f.b.size == b.size + t
  {
    hide Fill, Layout, Offered, Ending;
    BurstOffers(t);
    SourceFill(DEFAULT, b, t, Burst(t).script);
    SourceFillDrifts(DEFAULT, b, t, Burst(t).script, b.size);
    TotalOne(Node(0, 4048, 0, t));
  }

  /** A burst of t bytes into an empty chain, cut into messages of n. */
  lemma BurstIntoEmpty(b: Buf, n: nat, t: nat, log: seq<Call>)
    requires Valid(DEFAULT, b) && b.nodes == [] && 0 < n <= t < 4048 && Starts(DEFAULT, b, t)
    requires WellBehaved(Sized(n)) && b.size < WORD - t
    ensures var r := Recv(DEFAULT, b, t, Burst(t).script, Sized(n), log);
            && Valid(DEFAULT, r.b) && |r.log| > |log| && r.end == Drained && r.b.num == b.num - 1 + |r.b.nodes|
            && var left := Left(t, n);
               && r.b.nodes == (if left == 0 then [] else [Node(0, 4048, t - left, left)])
               && r.b.size == b.size + if left == 0 then t - n else t
  {
    hide Recv, Fill, Walk, Drain, Parse, Layout, Starts, Bytes, Live;
    var cb, f := Sized(n), Fill(DEFAULT, b, RecvNodeLen(DEFAULT, t), Burst(t).script);
    BurstFill(b, t);
    NotRefused(DEFAULT, b, t);
    RecvOfFill(DEFAULT, b, t, Burst(t).script, cb, log);
    RecvValid(DEFAULT, b, t, Burst(t).script, cb, log);
    StartWalking(DEFAULT, f.b);
    BurstWalk(f.b, n, t, log);
    BurstCounts(b, n, t, log);
  }

  lemma BurstWalk(b: Buf, n: nat, t: nat, log: seq<Call>)
    requires Valid(DEFAULT, b) && 0 < n <= t && b.nodes == [Node(0, 4048, 0, t)] && WellBehaved(Sized(n))
    requires t <= b.size < WORD && Walking(DEFAULT, b, b.nodes, [])
    ensures var w, left := Walk(DEFAULT, b, Sized(n), b.nodes, [], log), Left(t, n);
            && |w.log| > |log|
            && w.b.nodes == (if left == 0 then [] else [Node(0, 4048, t - left, left)])
            && w.b.size == if left == 0 then b.size - n else b.size
  {
    hide Walk, Drain, Parse, Layout, Walking, Bytes, Live;
    var n1 := Node(0, 4048, 0, t);
    var live := Live(n1, b.mem);
    TotalOne(n1);
    SourceWalk(DEFAULT, b, Sized(n), n1, log);
    SourceDrain(DEFAULT, b, Sized(n), n1, live, log);
    DrainIsParse(DEFAULT, b, Sized(n), live, log);
    SizedParse(n, live, log);
  }

  lemma BurstCounts(b: Buf, n: nat, t: nat, log: seq<Call>)
    requires Valid(DEFAULT, b) && b.nodes == [] && 0 < n <= t < 4048 && Starts(DEFAULT, b, t)
    requires WellBehaved(Sized(n)) && b.size < WORD - t
    ensures var r := Recv(DEFAULT, b, t, Burst(t).script, Sized(n), log);
            r.b.num == b.num - 1 + |r.b.nodes|
  {
    hide Recv, Valid;
    OverrunsIff(DEFAULT, b, t, Burst(t).script, Sized(n), log);
    RecvCounts(DEFAULT, b, t, Burst(t).script, Sized(n), log);
  }

  /** Messages of 3000 bytes: the first call leaves 1000 bytes at the end of the node, the second fills the node up and
      takes that for a closed peer. No later call ever gets further, whatever arrives. */
  lemma StuckHappens(mem: seq<byte>)
    requires |mem| == 81920
    ensures WellBehaved(Sized(3000)) && Stable(Sized(3000).end)
    ensures var b0 := Buf([], mem, 0, 0);
            Valid(DEFAULT, b0) &&
            var r1 := Recv(DEFAULT, b0, 4000, Burst(4000).script, Sized(3000), []);
            Valid(DEFAULT, r1.b) &&
            var r2 := Recv(DEFAULT, r1.b, 100, Burst(100).script, Sized(3000), r1.log);
            && Ending(Burst(100).script) == Drained && r2.end == Closed && |r2.received| == 48
            && Valid(DEFAULT, r2.b) && Total(r2.b.nodes) == 1048
            && forall calls :: Unmoved(DEFAULT, InRun(r2.b, r2.log, [], true, false), calls, Sized(3000))
  {
    hide Recv, Fill, Walk, Layout, Bytes;
    SizedBehaves(3000);
    var b0, cb := Buf([], mem, 0, 0), Sized(3000);
    assert Valid(DEFAULT, b0) by { EmptyIsValid(mem); }
    BurstIntoEmpty(b0, 3000, 4000, []);
    var r1 := Recv(DEFAULT, b0, 4000, Burst(4000).script, cb, []);
    assert Left(4000, 3000) == 1000;
    BurstIntoRest(r1.b, r1.log);
    StuckForGoodIff(DEFAULT, InRun(Recv(DEFAULT, r1.b, 100, Burst(100).script, cb, r1.log).b,
                                   Recv(DEFAULT, r1.b, 100, Burst(100).script, cb, r1.log).log, [], true, false), cb);
  }

  /** As written, default sizes: 5000 bytes come, as many as announced. They are received, the answer is "not enough",
      none of the five messages is handed over; and so it stays for every next call that finds more bytes. */
  lemma LongBurstIsHeldBack(mem: seq<byte>, readable: nat, script: seq<RecvOutcome>)
    requires |mem| == 81920 && Offered(script) != []
    ensures WellBehaved(Sized(1000)) && Valid(DEFAULT, Buf([], mem, 0, 0))
    ensures var r := Recv(DEFAULT, Buf([], mem, 0, 0), 5000, Burst(5000).script, Sized(1000), []);
            && r.end == NoRoom && |r.received| == 5000 && r.log == []
            && Valid(DEFAULT, r.b) && Sized(1000).end(Bytes(r.b.nodes, r.b.mem)) == 1000
            && var r2 := Recv(DEFAULT, r.b, readable, script, Sized(1000), []);
               r2.b == r.b && r2.log == []
  {
    hide Recv, Layout, Offered, Bytes, Valid, Left;
    SizedBehaves(1000);
    EmptyIsValid(mem);
    LongBurst(Buf([], mem, 0, 0));
    var r := Recv(DEFAULT, Buf([], mem, 0, 0), 5000, Burst(5000).script, Sized(1000), []);
    SourceStuckUntilDry(DEFAULT, r.b, readable, script, Sized(1000), []);
  }

  lemma LongBurst(b: Buf)
    requires Valid(DEFAULT, b) && b.nodes == [] && b.size == 0 && b.num == 0 && WellBehaved(Sized(1000))
    ensures var r := Recv(DEFAULT, b, 5000, Burst(5000).script, Sized(1000), []);
            && r.end == NoRoom && |r.received| == 5000 && r.log == []
            && Valid(DEFAULT, r.b) && r.b.nodes == [Node(0, 5000, 0, 5000)]
            && Sized(1000).end(Bytes(r.b.nodes, r.b.mem)) == 1000
  {
    hide Recv, Fill, Layout, Offered, Ending, Bytes, SourceEnd;
    WrapSmall(81920);
    BurstOffers(5000);
    AnnouncedIsReceived(DEFAULT, b, 5000, Burst(5000).script, Sized(1000), []);
    SourceFill(DEFAULT, b, 5000, Burst(5000).script);
    RecvOfFill(DEFAULT, b, 5000, Burst(5000).script, Sized(1000), []);
    TotalOne(Node(0, 5000, 0, 5000));
  }

  lemma EmptyIsValid(mem: seq<byte>)
    requires |mem| == 81920
    ensures Valid(DEFAULT, Buf([], mem, 0, 0))
  {
  }

  lemma BurstIntoRest(b: Buf, log: seq<Call>)
    requires Valid(DEFAULT, b) && b.nodes == [Node(0, 4048, 3000, 1000)] && b.size == 4000 && b.num == 0
    requires WellBehaved(Sized(3000))
    ensures var r := Recv(DEFAULT, b, 100, Burst(100).script, Sized(3000), log);
            && Ending(Burst(100).script) == Drained && r.end == Closed && |r.received| == 48
            && Valid(DEFAULT, r.b) && Total(r.b.nodes) == 1048 && NoWayOn(DEFAULT, r.b)
            && Sized(3000).end(Bytes(r.b.nodes, r.b.mem)) == 0
  {
    hide Recv, Fill, Walk, Layout, Offered, Ending, Live;
    BurstOffers(100);
    SourceFill(DEFAULT, b, 100, Burst(100).script);
    RecvOfFill(DEFAULT, b, 100, Burst(100).script, Sized(3000), log);
    var n := Node(0, 4048, 3000, 1048);
    TotalOne(n);
    SourceNeverExtendsOneNode(n, RecvNodeLen(DEFAULT, 0), 81920);
  }

  /** Bursts of two messages of 1000 bytes: each call leaks the first. After 82 of them size_ is 82000, nothing is
      buffered, and every later call is refused. */
  lemma DriftStopsInput(mem: seq<byte>)
    requires |mem| == 81920
    ensures WellBehaved(Sized(1000)) && Valid(DEFAULT, Buf([], mem, 0, 0))
    ensures var s := InRun(Buf([], mem, 0, 0), [], [], true, false);
            var t := RunIn(DEFAULT, s, Bursts(82), Sized(1000));
            && Valid(DEFAULT, t.b) && !t.overrun && t.b.nodes == [] && t.b.size == 82000
            && AlwaysRefused(DEFAULT, t.b, Sized(1000), t.log)
  {
    hide Recv, Valid;
    SizedBehaves(1000);
    EmptyIsValid(mem);
    var s := InRun(Buf([], mem, 0, 0), [], [], true, false);
    DriftRun(s, 0, 82);
    var t := RunIn(DEFAULT, s, Bursts(82), Sized(1000));
    RefusedForGoodIff(DEFAULT, t.b, Sized(1000), t.log);
  }

  function Bursts(k: nat): seq<InCall> {
    seq(k, _ => Burst(2000))
  }

  ghost predicate DriftedTo(b: Buf, j: nat) {
    Valid(DEFAULT, b) && b.nodes == [] && b.size == 1000 * j && b.num + j == 0
  }

  lemma {:induction false} DriftRun(s: InRun, j: nat, k: nat)
    requires WellBehaved(Sized(1000)) && DriftedTo(s.b, j) && !s.overrun && j + k <= 82
    ensures var t := RunIn(DEFAULT, s, Bursts(k), Sized(1000));
            DriftedTo(t.b, j + k) && !t.overrun
    decreases k
  {
    hide Recv, Valid;
    if k > 0 {
      DriftCall(s.b, j, s.log);
      assert Bursts(k)[0] == Burst(2000) && Bursts(k)[1..] == Bursts(k - 1);
      InStepValid(DEFAULT, s, Burst(2000), Sized(1000));
      DriftRun(InStep(DEFAULT, s, Burst(2000), Sized(1000)), j + 1, k - 1);
    }
  }

  lemma DriftCall(b: Buf, j: nat, log: seq<Call>)
    requires WellBehaved(Sized(1000)) && DriftedTo(b, j) && j < 82
    ensures var r := Recv(DEFAULT, b, 2000, Burst(2000).script, Sized(1000), log);
            DriftedTo(r.b, j + 1) && r.end == Drained
  {
    hide Recv, Layout;
    assert Left(2000, 1000) == Left(1000, 1000) == 0;
    BurstIntoEmpty(b, 1000, 2000, log);
  }

  // ---------- over the array ----------

  lemma {:induction false} WrapMinus(x: int, y: int)
    ensures Wrap(x - Wrap(y)) == Wrap(x - y)
    decreases if y < 0 then WORD - y else y
  {
    if y < 0 {
      WrapMinus(x, y + WORD);
      WrapPeriod(x - y - WORD);
    } else if y >= WORD {
      WrapMinus(x, y - WORD);
      WrapPeriod(x - y);
    }
  }

  /** As written, after every run from an empty buffer: some next call runs over the array exactly if the chain is
      empty and the space computed from what leaked and what was not counted is more than the array has. */
  lemma SourceRunCanOverrunIff(cfg: Config, s: InRun, calls: seq<InCall>, cb: Callbacks)
    requires !cfg.fixed && Valid(cfg, s.b) && WellBehaved(cb)
    requires s.b.nodes == [] && s.b.size == 0 && s.b.num == 0
    ensures var t := RunIn(cfg, s, calls, cb);
            var space := Wrap(cfg.capacity - Leaks(cfg, s, calls, cb) + HEADER * Openings(cfg, s, calls, cb));
            && Valid(cfg, t.b)
            && (!t.overrun ==>
                  (CanOverrun(cfg, t.b, cb, t.log) <==>
                     t.b.nodes == [] && Max(cfg.capacity + 1, RecvNodeLen(cfg, 0)) <= space))
  {
    hide Recv, Leaks, Openings, Wrap, Valid, CanOverrun;
    RunInValid(cfg, s, calls, cb);
    WrapSmall(0);
    NoNodes(s.b);
    SourceSizeDrifts(cfg, s, calls, cb, 0);
    SourceCountIsRightIffNeverOpened(cfg, s, calls, cb);
    var t := RunIn(cfg, s, calls, cb);
    CanOverrunIff(cfg, t.b, cb, t.log);
    NoNodes(t.b);
    WrapMinus(cfg.capacity - HEADER * t.b.num, Leaks(cfg, s, calls, cb));
  }

  /** So, where nothing wraps round: exactly if the chain is empty and less has leaked than the headers of the nodes
      that were opened and not counted. */
  lemma SourceOverrunsIffLeaksLess(cfg: Config, s: InRun, calls: seq<InCall>, cb: Callbacks)
    requires !cfg.fixed && Valid(cfg, s.b) && WellBehaved(cb)
    requires s.b.nodes == [] && s.b.size == 0 && s.b.num == 0
    requires cfg.minNode <= cfg.capacity && Leaks(cfg, s, calls, cb) <= cfg.capacity
    requires cfg.capacity + HEADER * Openings(cfg, s, calls, cb) < WORD
    ensures var t := RunIn(cfg, s, calls, cb);
            && Valid(cfg, t.b)
            && (!t.overrun ==>
                  (CanOverrun(cfg, t.b, cb, t.log) <==>
                     t.b.nodes == [] && Leaks(cfg, s, calls, cb) < HEADER * Openings(cfg, s, calls, cb)))
  {
    hide Recv, Leaks, Openings, Wrap, Valid, CanOverrun, RunIn;
    SourceRunCanOverrunIff(cfg, s, calls, cb);
    WrapSmall(cfg.capacity - Leaks(cfg, s, calls, cb) + HEADER * Openings(cfg, s, calls, cb));
  }

  /** With the default sizes: a message of 1000 bytes comes and is taken whole; the next call, with 81920 bytes ready,
      opens a node of 81968 bytes in the array of 81920. */
  lemma OverrunHappens(mem: seq<byte>, script: seq<RecvOutcome>)
    requires |mem| == 81920
    ensures WellBehaved(Sized(1000)) && Valid(DEFAULT, Buf([], mem, 0, 0))
    ensures var s := InRun(Buf([], mem, 0, 0), [], [], true, false);
            var t := RunIn(DEFAULT, s, [Burst(1000)], Sized(1000));
            && Valid(DEFAULT, t.b) && !t.overrun && t.b.nodes == [] && t.b.size == 0 && t.b.num == -1
            && Recv(DEFAULT, t.b, 81920, script, Sized(1000), t.log).end == OutOfArena
            && RunIn(DEFAULT, t, [InCall(81920, script)], Sized(1000)).overrun
  {
    hide Recv, Valid;
    SizedBehaves(1000);
    EmptyIsValid(mem);
    var s, calls := InRun(Buf([], mem, 0, 0), [], [], true, false), [Burst(1000)];
    assert Left(1000, 1000) == 0;
    BurstIntoEmpty(s.b, 1000, 1000, []);
    RunInOne(DEFAULT, s, Burst(1000), Sized(1000));
    var t := RunIn(DEFAULT, s, calls, Sized(1000));
    WrapSmall(81920 + 48);
    OverrunsIff(DEFAULT, t.b, 81920, script, Sized(1000), t.log);
    RunInOne(DEFAULT, t, InCall(81920, script), Sized(1000));
  }

  lemma RunInOne(cfg: Config, s: InRun, c: InCall, cb: Callbacks)
    requires Valid(cfg, s.b) && WellBehaved(cb)
    ensures RunIn(cfg, s, [c], cb) == InStep(cfg, s, c, cb)
    ensures Valid(cfg, InStep(cfg, s, c, cb).b)
  {
    hide Recv, Valid, InStep;
    InStepValid(cfg, s, c, cb);
    var calls := [c];
    assert calls[0] == c && calls[1..] == [];
  }

  // ---------- how far size_ can move ----------

  /** A call takes no more from the chain than the chain can hold. */
  lemma LeakIsSmall(cfg: Config, b: Buf, readable: nat, script: seq<RecvOutcome>, cb: Callbacks, log: seq<Call>)
    requires !cfg.fixed && Valid(cfg, b) && WellBehaved(cb)
    ensures var r := Recv(cfg, b, readable, script, cb, log);
            |log| <= |r.log| && Total(r.b.nodes) + Leak(cfg, b, r, log) <= cfg.capacity
  {
    hide Recv, Fill, Walk, Total, Layout, Starts;
    SourceRecvDrifts(cfg, b, readable, script, cb, log, 0);
    RecvValid(cfg, b, readable, script, cb, log);
    var r := Recv(cfg, b, readable, script, cb, log);
    SpaceNeverUnderflows(r.b.nodes, cfg.capacity);
    if r.end == Drained {
      DrainedStarts(cfg, b, readable, script, cb, log);
      NotRefused(cfg, b, readable);
      RecvOfFill(cfg, b, readable, script, cb, log);
      FillAppends(cfg, b, RecvNodeLen(cfg, readable), script);
      var f := Fill(cfg, b, RecvNodeLen(cfg, readable), script);
      SpaceNeverUnderflows(f.b.nodes, cfg.capacity);
      assert |Bytes(f.b.nodes, f.b.mem)| == Total(b.nodes) + |r.received|;
    }
  }

  /** Both forms: a call that does not run over the array leaves size_ at least as far above the chain as it was, and
      not more than the capacity further. As written by exactly what it leaks. */
  lemma RecvDriftsBy(cfg: Config, b: Buf, readable: nat, script: seq<RecvOutcome>, cb: Callbacks, log: seq<Call>)
    requires Valid(cfg, b) && WellBehaved(cb) && Covered(cfg, b) && (cfg.fixed ==> Booked(b))
    ensures var r := Recv(cfg, b, readable, script, cb, log);
            r.end != OutOfArena ==>
              && Drift(b) <= Drift(r.b) <= Drift(b) + cfg.capacity
              && (cfg.fixed ==> Booked(r.b))
              && (!cfg.fixed ==> |log| <= |r.log| && Drift(r.b) == Drift(b) + Leak(cfg, b, r, log))
  {
    hide Recv, Leak, Total, Valid, Wrap;
    RecvBooks(cfg, b, readable, script, cb, log);
    if !cfg.fixed {
      LeakIsSmall(cfg, b, readable, script, cb, log);
      CoveredIsSmall(cfg, b);
      WrapSmall(Total(b.nodes) + Drift(b));
      SourceRecvDrifts(cfg, b, readable, script, cb, log, Drift(b));
      var r := Recv(cfg, b, readable, script, cb, log);
      WrapSmall(Total(r.b.nodes) + Drift(b) + Leak(cfg, b, r, log));
    }
  }

  lemma CoveredIsSmall(cfg: Config, b: Buf)
    requires Valid(cfg, b) && Covered(cfg, b)
    ensures Total(b.nodes) + Drift(b) == b.size < WORD
  {
    SpaceNeverUnderflows(b.nodes, cfg.capacity);
  }

  /** Enough of size_ is left for `calls` more calls: repaired always, as written short of 2^64 bytes. */
  ghost predicate CoveredFor(cfg: Config, b: Buf, calls: nat) {
    if cfg.fixed then Booked(b) && cfg.capacity < WORD
    else 0 <= Drift(b) && Drift(b) + cfg.capacity * (calls + 1) < WORD
  }

  /** One call of them. */
  lemma StaysCovered(cfg: Config, b: Buf, readable: nat, script: seq<RecvOutcome>, cb: Callbacks, log: seq<Call>,
                     calls: nat)
    requires Valid(cfg, b) && WellBehaved(cb) && CoveredFor(cfg, b, calls) && calls > 0
    ensures Covered(cfg, b)
    ensures var r := Recv(cfg, b, readable, script, cb, log);
            && (cfg.fixed ==> r.end != OutOfArena)
            && (r.end != OutOfArena ==> CoveredFor(cfg, r.b, calls - 1))
  {
    hide Recv, Valid, Leak;
    assert cfg.capacity * (calls + 1) == cfg.capacity * calls + cfg.capacity;
    assert cfg.capacity * calls >= 0;
    RecvDriftsBy(cfg, b, readable, script, cb, log);
    RecvBooks(cfg, b, readable, script, cb, log);
  }
}
