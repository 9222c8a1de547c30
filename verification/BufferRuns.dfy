/** Whole runs of the two buffers of a connection. */
module BufferRuns {
  import opened Arena
  import opened BufferSpec
  import opened Framing
  import opened RecvSpec

  // ---------- output: Write and SendAtMost interleaved ----------

  datatype OutOp = DoWrite(data: seq<byte>) | DoSend(script: seq<SendOutcome>)

  /** `accepted` is the concatenation of the writes that answered EDN_OK, `sent` what went to the socket. `overrun`
      says that a write ran over the array: the run ends there, with the buffer as it was before, and no promise
      reaches beyond. */
  datatype OutRun = OutRun(b: Buf, accepted: seq<byte>, sent: seq<byte>, overrun: bool)

  ghost predicate OutReady(cfg: Config, b: Buf) {
    Valid(cfg, b) && AllLive(b.nodes) && (cfg.fixed ==> Booked(b) && cfg.capacity < WORD)
  }

  ghost function OutStep(cfg: Config, s: OutRun, op: OutOp): OutRun
    requires OutReady(cfg, s.b)
    requires op.DoWrite? ==> op.data != []
  {
    if s.overrun then s
    else match op
      case DoWrite(data) =>
        var r := Write(cfg, s.b, data);
        OutRun(r.b, if r.code == Ok then s.accepted + data else s.accepted, s.sent, r.code == Overrun)
      case DoSend(script) =>
        var r := Send(cfg, s.b, script);
        OutRun(r.b, s.accepted, s.sent + r.sent, false)
  }

  ghost predicate Writes(ops: seq<OutOp>) {
    forall i :: 0 <= i < |ops| && ops[i].DoWrite? ==> ops[i].data != []
  }

  ghost function RunOut(cfg: Config, s: OutRun, ops: seq<OutOp>): OutRun
    requires OutReady(cfg, s.b) && Writes(ops)
    decreases |ops|
  {
    if ops == [] then s
    else
      OutStepReady(cfg, s, ops[0]);
      RunOut(cfg, OutStep(cfg, s, ops[0]), ops[1..])
  }

  lemma OutStepReady(cfg: Config, s: OutRun, op: OutOp)
    requires OutReady(cfg, s.b)
    requires op.DoWrite? ==> op.data != []
    ensures OutReady(cfg, OutStep(cfg, s, op).b)
  {
    match op
    case DoWrite(data) =>
      WriteKeepsValid(cfg, s.b, data);
      if cfg.fixed {
        WriteIsAllOrNothing(cfg, s.b, data);
      }
    case DoSend(script) =>
      SendTakesPrefix(cfg, s.b, script);
      if cfg.fixed {
        SendKeepsBooks(cfg, s.b, script);
      }
  }

  ghost predicate Fifo(cfg: Config, s: OutRun) {
    Valid(cfg, s.b) && !s.overrun && s.sent + Bytes(s.b.nodes, s.b.mem) == s.accepted
  }

  /** Sends keep the output law whatever the edition of the code. */
  lemma SendKeepsFifo(cfg: Config, s: OutRun, script: seq<SendOutcome>)
    requires OutReady(cfg, s.b) && Fifo(cfg, s)
    ensures Fifo(cfg, OutStep(cfg, s, DoSend(script)))
  {
    SendTakesPrefix(cfg, s.b, script);
    var r := Send(cfg, s.b, script);
    Associative(s.sent, r.sent, Bytes(r.b.nodes, r.b.mem));
  }

  /** Output FIFO, repaired: over every interleaving of writes and sends, with every kind of partial send, what was
      sent followed by what is still chained is the concatenation of the successful writes. */
  lemma {:induction false} OutputIsFifo(cfg: Config, s: OutRun, ops: seq<OutOp>)
    requires cfg.fixed && OutReady(cfg, s.b) && Writes(ops) && Fifo(cfg, s)
    ensures Fifo(cfg, RunOut(cfg, s, ops))
    ensures Booked(RunOut(cfg, s, ops).b)
    decreases |ops|
  {
    if ops != [] {
      OutStepReady(cfg, s, ops[0]);
      match ops[0] {
        case DoWrite(data) =>
          WriteIsAllOrNothing(cfg, s.b, data);
          Associative(s.sent, Bytes(s.b.nodes, s.b.mem), data);
        case DoSend(script) =>
          SendKeepsFifo(cfg, s, script);
      }
      OutputIsFifo(cfg, OutStep(cfg, s, ops[0]), ops[1..]);
    }
  }

  lemma {:induction false} OutOverrunEnds(cfg: Config, s: OutRun, ops: seq<OutOp>)
    requires OutReady(cfg, s.b) && Writes(ops) && s.overrun
    ensures RunOut(cfg, s, ops) == s
    decreases |ops|
  {
    if ops != [] {
      OutOverrunEnds(cfg, s, ops[1..]);
    }
  }

  /** `full` is what a run will have come to, seen from a point where it stands at s with `todo` to go. */
  ghost predicate OutRest(cfg: Config, s: OutRun, todo: seq<OutOp>, full: OutRun) {
    OutReady(cfg, s.b) && Writes(todo) && RunOut(cfg, s, todo) == full
  }

  lemma OutRestStep(cfg: Config, s: OutRun, todo: seq<OutOp>, full: OutRun)
    requires OutRest(cfg, s, todo, full) && todo != []
    ensures OutReady(cfg, s.b) && (todo[0].DoWrite? ==> todo[0].data != [])
    ensures OutRest(cfg, OutStep(cfg, s, todo[0]), todo[1..], full)
  {
    hide OutStep;
    OutStepReady(cfg, s, todo[0]);
  }

  lemma OutRestEnds(cfg: Config, s: OutRun, todo: seq<OutOp>, full: OutRun)
    requires OutRest(cfg, s, todo, full) && (todo == [] || s.overrun)
    ensures s == full
  {
    if s.overrun {
      OutOverrunEnds(cfg, s, todo);
    }
  }

  // ---------- input: calls of RecvAtMost ----------

  datatype InCall = InCall(readable: nat, script: seq<RecvOutcome>)

  /** `chunks` lists what each call received; `drained` says that every call so far ended in "would block"; `overrun`
      that a call ran over the array. The run ends there, with the buffer as it was before, and no promise reaches
      beyond. */
  datatype InRun = InRun(b: Buf, log: seq<Call>, chunks: seq<seq<byte>>, drained: bool, overrun: bool)

  ghost function InStep(cfg: Config, s: InRun, call: InCall, cb: Callbacks): InRun
    requires Valid(cfg, s.b) && WellBehaved(cb)
  {
    if s.overrun then s
    else
      var r := Recv(cfg, s.b, call.readable, call.script, cb, s.log);
      InRun(r.b, r.log, s.chunks + [r.received], s.drained && r.end == Drained, r.end == OutOfArena)
  }

  ghost function RunIn(cfg: Config, s: InRun, calls: seq<InCall>, cb: Callbacks): InRun
    requires Valid(cfg, s.b) && WellBehaved(cb)
    decreases |calls|
  {
    if calls == [] then s
    else
      InStepValid(cfg, s, calls[0], cb);
      RunIn(cfg, InStep(cfg, s, calls[0], cb), calls[1..], cb)
  }

  lemma InStepValid(cfg: Config, s: InRun, call: InCall, cb: Callbacks)
    requires Valid(cfg, s.b) && WellBehaved(cb)
    ensures Valid(cfg, InStep(cfg, s, call, cb).b)
  {
    RecvValid(cfg, s.b, call.readable, call.script, cb, s.log);
  }

  lemma {:induction false} OverrunEnds(cfg: Config, s: InRun, calls: seq<InCall>, cb: Callbacks)
    requires Valid(cfg, s.b) && WellBehaved(cb) && s.overrun
    ensures RunIn(cfg, s, calls, cb) == s
    decreases |calls|
  {
    hide Recv;
    if calls != [] {
      OverrunEnds(cfg, s, calls[1..], cb);
    }
  }

  /** `full` is what a run will have come to, seen from a point where it stands at s with `todo` to go. */
  ghost predicate InRest(cfg: Config, s: InRun, todo: seq<InCall>, cb: Callbacks, full: InRun) {
    Valid(cfg, s.b) && WellBehaved(cb) && RunIn(cfg, s, todo, cb) == full
  }

  lemma InRestStep(cfg: Config, s: InRun, todo: seq<InCall>, cb: Callbacks, full: InRun)
    requires InRest(cfg, s, todo, cb, full) && todo != []
    ensures Valid(cfg, s.b) && WellBehaved(cb)
    ensures InRest(cfg, InStep(cfg, s, todo[0], cb), todo[1..], cb, full)
  {
    hide InStep;
    InStepValid(cfg, s, todo[0], cb);
  }

  lemma InRestEnds(cfg: Config, s: InRun, todo: seq<InCall>, cb: Callbacks, full: InRun)
    requires InRest(cfg, s, todo, cb, full) && (todo == [] || s.overrun)
    ensures s == full
  {
    if s.overrun {
      OverrunEnds(cfg, s, todo, cb);
    }
  }

  lemma {:induction false} ConcatAppend(chunks: seq<seq<byte>>, c: seq<byte>)
    ensures Concat(chunks + [c]) == Concat(chunks) + c
  {
    if chunks == [] {
      assert [c][1..] == [] && chunks + [c] == [c];
    } else {
      assert (chunks + [c])[1..] == chunks[1..] + [c];
      ConcatAppend(chunks[1..], c);
      Associative(chunks[0], Concat(chunks[1..]), c);
    }
  }

  lemma {:induction false} FeedAppend(cb: Callbacks, chunks: seq<seq<byte>>, c: seq<byte>, rest: seq<byte>,
                                      log: seq<Call>)
    requires WellBehaved(cb)
    ensures var p := Feed(cb, chunks, rest, log);
            Feed(cb, chunks + [c], rest, log) == Parse(cb, p.rest + c, p.log)
    decreases |chunks|
  {
    if chunks == [] {
      assert chunks + [c] == [c] && [c][1..] == [];
    } else {
      assert (chunks + [c])[1..] == chunks[1..] + [c];
      var p := Parse(cb, rest + chunks[0], log);
      FeedAppend(cb, chunks[1..], c, p.rest, p.log);
    }
  }

  /** Where a run stands against the stream it received. */
  ghost predicate InConserves(cfg: Config, s: InRun) {
    && Valid(cfg, s.b)
    && (!s.overrun ==> Fair(s.log) && Consumed(s.log) + Bytes(s.b.nodes, s.b.mem) == Concat(s.chunks))
  }

  /** Input conservation over whole runs, as written and as repaired, however each call ends, short of an overrun:
      consumed followed by buffered is exactly what was received. */
  lemma {:induction false} InputConserves(cfg: Config, s: InRun, calls: seq<InCall>, cb: Callbacks)
    requires WellBehaved(cb) && InConserves(cfg, s)
    ensures InConserves(cfg, RunIn(cfg, s, calls, cb))
    ensures !RunIn(cfg, s, calls, cb).overrun ==> s.log <= RunIn(cfg, s, calls, cb).log
    decreases |calls|
  {
    hide InStep, InConserves;
    ConservesIsValid(cfg, s);
    if calls != [] {
      InStepConserves(cfg, s, calls[0], cb);
      InStepValid(cfg, s, calls[0], cb);
      var s1 := InStep(cfg, s, calls[0], cb);
      InputConserves(cfg, s1, calls[1..], cb);
      if s1.overrun {
        OverrunEnds(cfg, s1, calls[1..], cb);
      }
    }
  }

  lemma ConservesIsValid(cfg: Config, s: InRun)
    requires InConserves(cfg, s)
    ensures Valid(cfg, s.b)
  {
  }

  lemma InStepConserves(cfg: Config, s: InRun, c: InCall, cb: Callbacks)
    requires WellBehaved(cb) && InConserves(cfg, s)
    ensures InConserves(cfg, InStep(cfg, s, c, cb))
    ensures !InStep(cfg, s, c, cb).overrun ==> s.log <= InStep(cfg, s, c, cb).log
  {
    hide Recv, Bytes, Consumed;
    if !s.overrun {
      var r := Recv(cfg, s.b, c.readable, c.script, cb, s.log);
      RecvConserves(cfg, s.b, c.readable, c.script, cb, s.log);
      Associative(Consumed(s.log), Bytes(s.b.nodes, s.b.mem), r.received);
      ConcatAppend(s.chunks, r.received);
    }
  }

  /** Parsing what is buffered, behind the calls so far, is parsing the whole stream. */
  ghost predicate InParsesOn(cfg: Config, s: InRun, cb: Callbacks)
    requires WellBehaved(cb)
  {
    Valid(cfg, s.b) && (!s.overrun ==> Parse(cb, Bytes(s.b.nodes, s.b.mem), s.log) == Parse(cb, Concat(s.chunks), []))
  }

  ghost predicate InParses(cfg: Config, s: InRun, cb: Callbacks)
    requires WellBehaved(cb)
  {
    Valid(cfg, s.b) && (!s.overrun ==> Parsed(s.log, Bytes(s.b.nodes, s.b.mem)) == Parse(cb, Concat(s.chunks), []))
  }

  /** A call puts what it received behind what is buffered, or parses that, or runs over the array. */
  lemma RecvParsesOn(cfg: Config, b: Buf, readable: nat, script: seq<RecvOutcome>, cb: Callbacks, log: seq<Call>)
    requires Valid(cfg, b) && WellBehaved(cb) && Stable(cb.end)
    ensures var r := Recv(cfg, b, readable, script, cb, log);
            && Valid(cfg, r.b)
            && (r.end != OutOfArena ==>
                  Parse(cb, Bytes(r.b.nodes, r.b.mem), r.log) == Parse(cb, Bytes(b.nodes, b.mem) + r.received, log))
  {
    hide Recv, Bytes, Layout;
    NothingHandedOver(cfg, b, readable, script, cb, log);
    var r, all := Recv(cfg, b, readable, script, cb, log), Bytes(b.nodes, b.mem);
    if r.end == Drained {
      RecvIsParse(cfg, b, readable, script, cb, log);
      ParseSplit(cb, all + r.received, [], log);
      assert all + r.received + [] == all + r.received && Bytes(r.b.nodes, r.b.mem) + [] == Bytes(r.b.nodes, r.b.mem);
    }
  }

  lemma InStepParsesOn(cfg: Config, s: InRun, c: InCall, cb: Callbacks)
    requires WellBehaved(cb) && Stable(cb.end) && InParsesOn(cfg, s, cb)
    ensures InParsesOn(cfg, InStep(cfg, s, c, cb), cb)
  {
    hide Recv, Bytes, Layout, Parse;
    if !s.overrun {
      RecvParsesOn(cfg, s.b, c.readable, c.script, cb, s.log);
      var r, all := Recv(cfg, s.b, c.readable, c.script, cb, s.log), Bytes(s.b.nodes, s.b.mem);
      ConcatAppend(s.chunks, r.received);
      ParseSplit(cb, all, r.received, s.log);
      ParseSplit(cb, Concat(s.chunks), r.received, []);
    }
  }

  /** Over every run, however its calls end, short of an overrun: parsing what is still buffered completes the parse of
      the whole stream. */
  lemma {:induction false} StreamIsParsedOn(cfg: Config, s: InRun, calls: seq<InCall>, cb: Callbacks)
    requires WellBehaved(cb) && Stable(cb.end) && InParsesOn(cfg, s, cb)
    ensures InParsesOn(cfg, RunIn(cfg, s, calls, cb), cb)
    decreases |calls|
  {
    hide InParsesOn, Recv;
    if calls != [] {
      ParsesOnIsValid(cfg, s, cb);
      InStepParsesOn(cfg, s, calls[0], cb);
      InStepValid(cfg, s, calls[0], cb);
      StreamIsParsedOn(cfg, InStep(cfg, s, calls[0], cb), calls[1..], cb);
    }
  }

  lemma ParsesOnIsValid(cfg: Config, s: InRun, cb: Callbacks)
    requires WellBehaved(cb) && InParsesOn(cfg, s, cb)
    ensures Valid(cfg, s.b)
  {
  }

  /** So wherever nothing complete is buffered the calls of the handler are the greedy parse of the whole stream. */
  lemma ParsedWhereNothingIsLeft(cfg: Config, s: InRun, cb: Callbacks)
    requires WellBehaved(cb) && InParsesOn(cfg, s, cb)
    ensures cb.end(Bytes(s.b.nodes, s.b.mem)) == 0 ==> InParses(cfg, s, cb)
  {
  }

  /** Framing is independent of segmentation: over any run whose last call ends in "would block", however the earlier
      ones ended, the calls of the handler are the greedy parse of the whole stream received, and what stays buffered
      is what that parse leaves, which holds no complete message; however the bytes fell on calls, on recv()s and on
      nodes. */
  lemma FramingIgnoresSegmentation(cfg: Config, s: InRun, calls: seq<InCall>, last: InCall, cb: Callbacks)
    requires WellBehaved(cb) && Stable(cb.end) && InParsesOn(cfg, s, cb)
    ensures var t := RunIn(cfg, s, calls, cb);
            && Valid(cfg, t.b)
            && (!t.overrun && Recv(cfg, t.b, last.readable, last.script, cb, t.log).end == Drained ==>
                  var u := InStep(cfg, t, last, cb);
                  InParses(cfg, u, cb) && cb.end(Bytes(u.b.nodes, u.b.mem)) == 0)
  {
    hide Recv, Bytes, Layout;
    StreamIsParsedOn(cfg, s, calls, cb);
    var t := RunIn(cfg, s, calls, cb);
    if !t.overrun && Recv(cfg, t.b, last.readable, last.script, cb, t.log).end == Drained {
      InStepParsesOn(cfg, t, last, cb);
      RecvIsParse(cfg, t.b, last.readable, last.script, cb, t.log);
      ParseEndsDry(cb, Bytes(t.b.nodes, t.b.mem) + InStep(cfg, t, last, cb).chunks[|t.chunks|], t.log);
    }
  }

  lemma {:induction false} DrainedEarlier(cfg: Config, s: InRun, calls: seq<InCall>, cb: Callbacks)
    requires WellBehaved(cb) && Valid(cfg, s.b) && RunIn(cfg, s, calls, cb).drained
    ensures s.drained
    decreases |calls|
  {
    if calls != [] {
      InStepValid(cfg, s, calls[0], cb);
      DrainedEarlier(cfg, InStep(cfg, s, calls[0], cb), calls[1..], cb);
    }
  }

  ghost predicate InFeeds(cfg: Config, s: InRun, cb: Callbacks)
    requires WellBehaved(cb)
  {
    Valid(cfg, s.b) && !s.overrun && Parsed(s.log, Bytes(s.b.nodes, s.b.mem)) == Feed(cb, s.chunks, [], [])
  }

  /** As written and with no assumption on the end callback: the handler sees exactly one parse per call. With
      Framing.SegmentationFreeIffStable this makes stability of the end callback the exact condition under which the
      calls do not depend on how the stream was cut. */
  lemma {:induction false} SourceRunIsFeed(cfg: Config, s: InRun, calls: seq<InCall>, cb: Callbacks)
    requires !cfg.fixed && WellBehaved(cb) && InFeeds(cfg, s, cb)
    requires RunIn(cfg, s, calls, cb).drained
    ensures InFeeds(cfg, RunIn(cfg, s, calls, cb), cb)
    decreases |calls|
  {
    if calls != [] {
      var c := calls[0];
      InStepValid(cfg, s, c, cb);
      var s1 := InStep(cfg, s, c, cb);
      DrainedEarlier(cfg, s1, calls[1..], cb);
      SourceRecvIsOneParse(cfg, s.b, c.readable, c.script, cb, s.log);
      FeedAppend(cb, s.chunks, Recv(cfg, s.b, c.readable, c.script, cb, s.log).received, [], []);
      SourceRunIsFeed(cfg, s1, calls[1..], cb);
    }
  }

  ghost predicate InBooked(cfg: Config, s: InRun) {
    Valid(cfg, s.b) && !s.overrun && Booked(s.b) && EmptyOnlyAtTail(s.b.nodes)
  }

  /** Once repaired, no call runs over the array, both counters are right after every run, and only the tail can be
      empty. */
  lemma {:induction false} InputKeepsBooks(cfg: Config, s: InRun, calls: seq<InCall>, cb: Callbacks)
    requires cfg.fixed && cfg.capacity < WORD && WellBehaved(cb) && InBooked(cfg, s)
    ensures InBooked(cfg, RunIn(cfg, s, calls, cb))
    decreases |calls|
  {
    if calls != [] {
      var c := calls[0];
      InStepValid(cfg, s, c, cb);
      RecvBooks(cfg, s.b, c.readable, c.script, cb, s.log);
      RecvCounts(cfg, s.b, c.readable, c.script, cb, s.log);
      InputKeepsBooks(cfg, InStep(cfg, s, c, cb), calls[1..], cb);
    }
  }

  /** How many calls of a run open the chain. */
  ghost function Openings(cfg: Config, s: InRun, calls: seq<InCall>, cb: Callbacks): nat
    requires Valid(cfg, s.b) && WellBehaved(cb)
    decreases |calls|
  {
    if calls == [] || s.overrun then 0
    else
      InStepValid(cfg, s, calls[0], cb);
      var here := if Opens(cfg, s.b, calls[0].readable) then 1 else 0;
      here + Openings(cfg, InStep(cfg, s, calls[0], cb), calls[1..], cb)
  }

  /** As written, buffer_node_num_ falls behind by one for every call that opens the chain; so after a run short of an
      overrun it is right exactly if no call did. */
  lemma {:induction false} SourceCountIsRightIffNeverOpened(cfg: Config, s: InRun, calls: seq<InCall>, cb: Callbacks)
    requires !cfg.fixed && Valid(cfg, s.b) && WellBehaved(cb)
    ensures var t := RunIn(cfg, s, calls, cb);
            !t.overrun ==>
              && Miscount(t.b) == Miscount(s.b) - Openings(cfg, s, calls, cb)
              && (Miscount(s.b) == 0 ==> (Miscount(t.b) == 0 <==> Openings(cfg, s, calls, cb) == 0))
    decreases |calls|
  {
    hide Recv, Opens;
    if s.overrun {
      OverrunEnds(cfg, s, calls, cb);
    } else if calls != [] {
      var c := calls[0];
      InStepValid(cfg, s, c, cb);
      RecvCounts(cfg, s.b, c.readable, c.script, cb, s.log);
      var s1 := InStep(cfg, s, c, cb);
      SourceCountIsRightIffNeverOpened(cfg, s1, calls[1..], cb);
      if s1.overrun {
        OverrunEnds(cfg, s1, calls[1..], cb);
      }
    }
  }
}
