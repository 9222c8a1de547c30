/** The output law and the code as written: when it holds, and what breaks it. */
module SourceOutput {
  import opened Arena
  import opened BufferSpec
  import opened BufferRuns

  /** A write of n bytes that goes into an empty chain and fits the array, or is refused before it touches anything. */
  predicate CleanWrite(cfg: Config, b: Buf, n: nat) {
    || NodeLen(cfg, n) > Wrap(cfg.capacity - b.size)
    || (if b.nodes == [] then NodeLen(cfg, n) <= cfg.capacity else b.nodes[|b.nodes| - 1].RemainSpace() == 0)
  }

  predicate CleanOp(cfg: Config, b: Buf, op: OutOp) {
    op.DoWrite? ==> CleanWrite(cfg, b, |op.data|)
  }

  ghost predicate AllClean(cfg: Config, s: OutRun, ops: seq<OutOp>)
    requires OutReady(cfg, s.b) && Writes(ops)
    decreases |ops|
  {
    ops == [] ||
    (OutStepReady(cfg, s, ops[0]);
     CleanOp(cfg, s.b, ops[0]) && AllClean(cfg, OutStep(cfg, s, ops[0]), ops[1..]))
  }

  lemma CleanKeepsFifo(cfg: Config, s: OutRun, op: OutOp)
    requires !cfg.fixed && OutReady(cfg, s.b) && Fifo(cfg, s) && CleanOp(cfg, s.b, op)
    requires op.DoWrite? ==> op.data != []
    ensures OutReady(cfg, OutStep(cfg, s, op).b) && Fifo(cfg, OutStep(cfg, s, op))
  {
    OutStepReady(cfg, s, op);
    match op
    case DoWrite(data) =>
      if Write(cfg, s.b, data).code == Ok {
        SourceWriteIntoEmpty(cfg, s.b, data);
        Associative(s.sent, Bytes(s.b.nodes, s.b.mem), data);
      }
    case DoSend(script) =>
      SendKeepsFifo(cfg, s, script);
  }

  lemma {:induction false} CleanRunIsFifo(cfg: Config, s: OutRun, ops: seq<OutOp>)
    requires !cfg.fixed && OutReady(cfg, s.b) && Writes(ops) && Fifo(cfg, s) && AllClean(cfg, s, ops)
    ensures Fifo(cfg, RunOut(cfg, s, ops))
    decreases |ops|
  {
    if ops != [] {
      CleanKeepsFifo(cfg, s, ops[0]);
      CleanRunIsFifo(cfg, OutStep(cfg, s, ops[0]), ops[1..]);
    }
  }

  /** The same operations, with strings of the same lengths. */
  ghost predicate Alike(xs: seq<OutOp>, ys: seq<OutOp>) {
    |xs| == |ys| && forall i :: 0 <= i < |xs| ==> OpsAlike(xs[i], ys[i])
  }

  predicate OpsAlike(x: OutOp, y: OutOp) {
    if x.DoWrite? then y.DoWrite? && |y.data| == |x.data| else x == y
  }

  ghost predicate BufsAlike(a: Buf, b: Buf) {
    a.nodes == b.nodes && a.size == b.size && a.num == b.num
  }

  /** What is chained where depends on the lengths only. */
  lemma {:induction false} SendsAlike(cfg: Config, a: Buf, b: Buf, script: seq<SendOutcome>)
    requires Valid(cfg, a) && Valid(cfg, b) && AllLive(a.nodes) && BufsAlike(a, b)
    ensures BufsAlike(Send(cfg, a, script).b, Send(cfg, b, script).b)
    decreases |script|
  {
    if a.nodes != [] && script != [] {
      match script[0]
      case SendInterrupted => SendsAlike(cfg, a, b, script[1..]);
      case Accept(k) =>
        var taken := Min(k, a.nodes[0].len);
        AdvanceValid(cfg, a, taken);
        AdvanceValid(cfg, b, taken);
        SendsAlike(cfg, Advance(a, taken), Advance(b, taken), script[1..]);
      case _ =>
    }
  }

  lemma StepsAlike(cfg: Config, s: OutRun, t: OutRun, x: OutOp, y: OutOp)
    requires !cfg.fixed && OutReady(cfg, s.b) && OutReady(cfg, t.b) && BufsAlike(s.b, t.b) && OpsAlike(x, y)
    requires (x.DoWrite? ==> x.data != []) && s.overrun == t.overrun
    ensures BufsAlike(OutStep(cfg, s, x).b, OutStep(cfg, t, y).b)
    ensures OutStep(cfg, s, x).overrun == OutStep(cfg, t, y).overrun
  {
    if x.DoSend? {
      SendsAlike(cfg, s.b, t.b, x.script);
    }
  }

  lemma {:induction false} CleanAlike(cfg: Config, s: OutRun, t: OutRun, xs: seq<OutOp>, ys: seq<OutOp>)
    requires !cfg.fixed && OutReady(cfg, s.b) && OutReady(cfg, t.b) && BufsAlike(s.b, t.b) && s.overrun == t.overrun
    requires Alike(xs, ys) && Writes(xs) && Writes(ys) && AllClean(cfg, s, xs)
    ensures AllClean(cfg, t, ys)
    decreases |xs|
  {
    if xs != [] {
      OutStepReady(cfg, s, xs[0]);
      OutStepReady(cfg, t, ys[0]);
      StepsAlike(cfg, s, t, xs[0], ys[0]);
      CleanAlike(cfg, OutStep(cfg, s, xs[0]), OutStep(cfg, t, ys[0]), xs[1..], ys[1..]);
    }
  }

  // ---------- how the law breaks ----------

  function Paint(n: nat, v: byte): seq<byte> {
    seq(n, _ => v)
  }

  /** Every string written is made up of v. */
  ghost predicate Painted(ops: seq<OutOp>, v: byte) {
    forall i :: 0 <= i < |ops| && ops[i].DoWrite? ==> ops[i].data == Paint(|ops[i].data|, v)
  }

  function PaintAll(ops: seq<OutOp>, v: byte): (r: seq<OutOp>)
    ensures Alike(ops, r) && Painted(r, v)
  {
    if ops == [] then []
    else [if ops[0].DoWrite? then DoWrite(Paint(|ops[0].data|, v)) else ops[0]] + PaintAll(ops[1..], v)
  }

  function Contents(s: OutRun): seq<byte>
    requires InMem(s.b.nodes, s.b.mem)
  {
    s.sent + Bytes(s.b.nodes, s.b.mem)
  }

  /** There are more bytes than were accepted, or a byte v where another one was accepted. */
  ghost predicate Broken(accepted: seq<byte>, contents: seq<byte>, v: byte) {
    || |contents| > |accepted|
    || exists p :: 0 <= p < |accepted| && p < |contents| && accepted[p] != v && contents[p] == v
  }

  /** More bytes are behind, and any that changed became v. */
  ghost predicate Overlaid(contents: seq<byte>, contents': seq<byte>, v: byte) {
    |contents| <= |contents'| && forall q :: 0 <= q < |contents| ==> contents'[q] == contents[q] || contents'[q] == v
  }

  lemma BrokenStays(accepted: seq<byte>, contents: seq<byte>, accepted': seq<byte>, contents': seq<byte>, v: byte)
    requires Broken(accepted, contents, v) && accepted <= accepted' && Overlaid(contents, contents', v)
    requires |contents'| - |contents| >= |accepted'| - |accepted|
    ensures Broken(accepted', contents', v)
  {
    if |contents| <= |accepted| {
      var p :| 0 <= p < |accepted| && p < |contents| && accepted[p] != v && contents[p] == v;
      assert accepted'[p] == accepted[p] && contents'[p] == v;
    }
  }

  /** BufferNode::Write as written, with a painted string. */
  lemma PaintTail(cfg: Config, b: Buf, n: nat, v: byte)
    requires !cfg.fixed && Valid(cfg, b) && AllLive(b.nodes) && b.nodes != []
    requires 0 < n <= b.nodes[|b.nodes| - 1].RemainSpace()
    ensures var b' := PutTail(cfg, b, Paint(n, v));
            && Valid(cfg, b') && Overlaid(Bytes(b.nodes, b.mem), Bytes(b'.nodes, b'.mem), v)
            && |Bytes(b'.nodes, b'.mem)| == |Bytes(b.nodes, b.mem)| + n
            && |Bytes(b.nodes, b.mem)| > 0 && Bytes(b'.nodes, b'.mem)[0] == v
  {
    hide Layout, Overlay, Bytes;
    var t, b' := b.nodes[0], PutTail(cfg, b, Paint(n, v));
    PutTailValid(cfg, b, Paint(n, v));
    assert b.nodes == [t] && b'.nodes == [t.(len := t.len + n)] && b'.mem == Overlay(b.mem, t.Start(), Paint(n, v));
    BytesOne(t, b.mem);
    BytesOne(b'.nodes[0], b'.mem);
    hide PutTail;
    PaintLive(b.mem, t, n, v);
  }

  lemma PaintLive(mem: seq<byte>, t: Node, n: nat, v: byte)
    requires t.Ok() && t.End() <= |mem| && 0 < t.len && 0 < n <= t.RemainSpace()
    ensures var mem', t' := Overlay(mem, t.Start(), Paint(n, v)), t.(len := t.len + n);
            && Overlaid(Live(t, mem), Live(t', mem'), v)
            && Live(t', mem')[0] == v
  {
    hide Overlay;
    PaintOverlay(mem, t.Start(), n, v);
  }

  lemma PaintOverlay(mem: seq<byte>, at: nat, n: nat, v: byte)
    requires at + n <= |mem|
    ensures forall i :: 0 <= i < |mem| ==> Overlay(mem, at, Paint(n, v))[i] == if at <= i < at + n then v else mem[i]
  {
  }

  lemma OverlaidBehind(sent: seq<byte>, x: seq<byte>, y: seq<byte>, v: byte)
    requires Overlaid(x, y, v)
    ensures Overlaid(sent + x, sent + y, v)
  {
  }

  /** A write that is not clean runs over the array or fills the tail, as far as it goes. */
  lemma DirtyWrite(cfg: Config, b: Buf, n: nat, v: byte)
    requires !cfg.fixed && Valid(cfg, b) && AllLive(b.nodes) && n > 0 && !CleanWrite(cfg, b, n)
    ensures b.nodes == [] ==> Write(cfg, b, Paint(n, v)) == WriteResult(b, Overrun)
    ensures b.nodes != [] ==>
             var r, k := Write(cfg, b, Paint(n, v)), Min(n, b.nodes[|b.nodes| - 1].RemainSpace());
            && k > 0 && r.b.nodes == PutTail(cfg, b, Paint(k, v)).nodes && r.b.mem == PutTail(cfg, b, Paint(k, v)).mem
            && r.code == if k == n then Ok else NotEnough
  {
    if b.nodes != [] {
      var room := b.nodes[|b.nodes| - 1].RemainSpace();
      if room < n {
        assert Paint(n, v)[..room] == Paint(room, v);
      }
    }
  }

  /** One operation that writes nothing but v, whatever the state. */
  lemma PaintedStep(cfg: Config, s: OutRun, op: OutOp, v: byte)
    requires !cfg.fixed && OutReady(cfg, s.b)
    requires op.DoWrite? ==> op.data != [] && op.data == Paint(|op.data|, v)
    ensures var s' := OutStep(cfg, s, op);
            && OutReady(cfg, s'.b) && s.accepted <= s'.accepted && Overlaid(Contents(s), Contents(s'), v)
            && |Contents(s')| - |Contents(s)| >= |s'.accepted| - |s.accepted|
  {
    OutStepReady(cfg, s, op);
    hide Write, Send, Bytes, Overlaid, CleanWrite, OutReady, PutTail;
    if s.overrun {
      OverlaidItself(Contents(s), v);
    } else {
      match op
      case DoSend(script) => PaintedSend(cfg, s, script, v);
      case DoWrite(data) =>
        if CleanWrite(cfg, s.b, |data|) {
          PaintedClean(cfg, s, data, v);
        } else {
          PaintedDirty(cfg, s, |data|, v);
        }
    }
  }

  lemma OverlaidItself(x: seq<byte>, v: byte)
    ensures Overlaid(x, x, v)
  {
  }

  lemma PaintedSend(cfg: Config, s: OutRun, script: seq<SendOutcome>, v: byte)
    requires OutReady(cfg, s.b) && !s.overrun
    ensures var s' := OutStep(cfg, s, DoSend(script));
            OutReady(cfg, s'.b) && s'.accepted == s.accepted && Contents(s') == Contents(s)
    ensures Overlaid(Contents(s), Contents(s), v)
  {
    OutStepReady(cfg, s, DoSend(script));
    SendTakesPrefix(cfg, s.b, script);
    var r := Send(cfg, s.b, script);
    Associative(s.sent, r.sent, Bytes(r.b.nodes, r.b.mem));
  }

  lemma PaintedClean(cfg: Config, s: OutRun, data: seq<byte>, v: byte)
    requires !cfg.fixed && OutReady(cfg, s.b) && !s.overrun && data != [] && CleanWrite(cfg, s.b, |data|)
    ensures var s' := OutStep(cfg, s, DoWrite(data));
            && OutReady(cfg, s'.b) && s.accepted <= s'.accepted && Overlaid(Contents(s), Contents(s'), v)
            && |Contents(s')| - |Contents(s)| == |s'.accepted| - |s.accepted|
  {
    hide Bytes, Wrap, Layout, PutTail;
    OutStepReady(cfg, s, DoWrite(data));
    if Write(cfg, s.b, data).code == Ok {
      SourceWriteIntoEmpty(cfg, s.b, data);
      OverlaidBehind(s.sent, Bytes(s.b.nodes, s.b.mem), Bytes(s.b.nodes, s.b.mem) + data, v);
    }
  }

  lemma PaintedDirty(cfg: Config, s: OutRun, n: nat, v: byte)
    requires !cfg.fixed && OutReady(cfg, s.b) && !s.overrun && n > 0 && !CleanWrite(cfg, s.b, n)
    ensures var s' := OutStep(cfg, s, DoWrite(Paint(n, v)));
            && OutReady(cfg, s'.b) && s.accepted <= s'.accepted && Overlaid(Contents(s), Contents(s'), v)
            && |Contents(s')| - |Contents(s)| >= |s'.accepted| - |s.accepted|
  {
    hide Write, Bytes, PutTail, Overlaid, CleanWrite, Layout;
    OutStepReady(cfg, s, DoWrite(Paint(n, v)));
    DirtyWrite(cfg, s.b, n, v);
    if s.b.nodes == [] {
      OverlaidItself(Contents(s), v);
    } else {
      DirtyTail(cfg, s.b, n, v);
      var b' := Write(cfg, s.b, Paint(n, v)).b;
      OverlaidBehind(s.sent, Bytes(s.b.nodes, s.b.mem), Bytes(b'.nodes, b'.mem), v);
    }
  }

  /** What such a write makes of the tail. */
  lemma DirtyTail(cfg: Config, b: Buf, n: nat, v: byte)
    requires !cfg.fixed && Valid(cfg, b) && AllLive(b.nodes) && n > 0 && !CleanWrite(cfg, b, n) && b.nodes != []
    ensures var r := Write(cfg, b, Paint(n, v));
            && Valid(cfg, r.b) && r.code in {Ok, NotEnough}
            && Overlaid(Bytes(b.nodes, b.mem), Bytes(r.b.nodes, r.b.mem), v)
            && |Bytes(r.b.nodes, r.b.mem)| >= |Bytes(b.nodes, b.mem)| + (if r.code == Ok then n else 0)
  {
    hide Write, Bytes, PutTail, Overlaid, Layout;
    DirtyWrite(cfg, b, n, v);
    PaintTail(cfg, b, Min(n, b.nodes[|b.nodes| - 1].RemainSpace()), v);
  }

  /** The run has overrun the array, or its output is broken. */
  ghost predicate Spoilt(s: OutRun, v: byte)
    requires InMem(s.b.nodes, s.b.mem)
  {
    s.overrun || Broken(s.accepted, Contents(s), v)
  }

  lemma {:induction false} BrokenForGood(cfg: Config, s: OutRun, ops: seq<OutOp>, v: byte)
    requires !cfg.fixed && OutReady(cfg, s.b) && Writes(ops) && Painted(ops, v)
    requires Spoilt(s, v)
    ensures !Fifo(cfg, RunOut(cfg, s, ops))
    decreases |ops|
  {
    if ops != [] {
      var s1 := OutStep(cfg, s, ops[0]);
      PaintedStep(cfg, s, ops[0], v);
      if !s.overrun {
        BrokenStays(s.accepted, Contents(s), s1.accepted, Contents(s1), v);
      }
      BrokenForGood(cfg, s1, ops[1..], v);
    }
  }

  /** The oldest byte of the chain is not v, and a write that is not clean puts v there, or bytes that do not count, or
      runs over the array. */
  lemma DirtyBreaks(cfg: Config, s: OutRun, n: nat, v: byte)
    requires !cfg.fixed && OutReady(cfg, s.b) && Fifo(cfg, s) && n > 0 && !CleanWrite(cfg, s.b, n)
    requires s.b.nodes != [] ==> v != Bytes(s.b.nodes, s.b.mem)[0]
    ensures var s' := OutStep(cfg, s, DoWrite(Paint(n, v)));
            OutReady(cfg, s'.b) && Spoilt(s', v)
  {
    OutStepReady(cfg, s, DoWrite(Paint(n, v)));
    DirtyWrite(cfg, s.b, n, v);
    if s.b.nodes != [] {
      DirtyTailBreaks(cfg, s, n, v);
    }
  }

  lemma DirtyTailBreaks(cfg: Config, s: OutRun, n: nat, v: byte)
    requires !cfg.fixed && OutReady(cfg, s.b) && Fifo(cfg, s) && n > 0 && !CleanWrite(cfg, s.b, n)
    requires s.b.nodes != [] && v != Bytes(s.b.nodes, s.b.mem)[0]
    ensures var s' := OutStep(cfg, s, DoWrite(Paint(n, v)));
            OutReady(cfg, s'.b) && Broken(s'.accepted, Contents(s'), v)
  {
    OutStepReady(cfg, s, DoWrite(Paint(n, v)));
    DirtyWrite(cfg, s.b, n, v);
    var k := Min(n, s.b.nodes[|s.b.nodes| - 1].RemainSpace());
    PaintTail(cfg, s.b, k, v);
    hide Write, PutTail, Layout;
    var s' := OutStep(cfg, s, DoWrite(Paint(n, v)));
    if k == n {
      var p := |s.sent|;
      assert s'.accepted[p] == s.accepted[p] == Contents(s)[p] == Bytes(s.b.nodes, s.b.mem)[0];
      assert Contents(s')[p] == v;
    }
  }

  /** Where not all writes are clean there are strings of the same lengths for which the law fails. */
  lemma {:induction false} SomeStringsBreak(cfg: Config, s: OutRun, ops: seq<OutOp>) returns (ops': seq<OutOp>)
    requires !cfg.fixed && OutReady(cfg, s.b) && Writes(ops) && Fifo(cfg, s) && !AllClean(cfg, s, ops)
    ensures Alike(ops, ops') && Writes(ops') && !Fifo(cfg, RunOut(cfg, s, ops'))
    decreases |ops|
  {
    OutStepReady(cfg, s, ops[0]);
    if CleanOp(cfg, s.b, ops[0]) {
      CleanKeepsFifo(cfg, s, ops[0]);
      var rest := SomeStringsBreak(cfg, OutStep(cfg, s, ops[0]), ops[1..]);
      ops' := [ops[0]] + rest;
      assert ops'[1..] == rest;
    } else {
      ops' := DirtyFirst(cfg, s, ops);
    }
  }

  lemma DirtyFirst(cfg: Config, s: OutRun, ops: seq<OutOp>) returns (ops': seq<OutOp>)
    requires !cfg.fixed && OutReady(cfg, s.b) && Writes(ops) && Fifo(cfg, s)
    requires ops != [] && !CleanOp(cfg, s.b, ops[0])
    ensures Alike(ops, ops') && Writes(ops') && !Fifo(cfg, RunOut(cfg, s, ops'))
  {
    hide OutStep, CleanWrite;
    var all := Bytes(s.b.nodes, s.b.mem);
    var v: byte := if all != [] && all[0] == 0 then 1 else 0;
    ops' := PaintAll(ops, v);
    DirtyBreaks(cfg, s, |ops[0].data|, v);
    hide Bytes, Fifo, OutReady;
    BrokenForGood(cfg, OutStep(cfg, s, ops'[0]), ops'[1..], v);
  }

  ghost predicate FifoWith(cfg: Config, s: OutRun, ops: seq<OutOp>) {
    OutReady(cfg, s.b) && Writes(ops) && Fifo(cfg, RunOut(cfg, s, ops))
  }

  /** As written, a run keeps the output law and stays inside the array, whatever the strings are, exactly if each of
      its writes finds the chain empty and fits, or is refused before it touches anything. */
  lemma SourceOutputIsFifoIffClean(cfg: Config, s: OutRun, ops: seq<OutOp>)
    requires !cfg.fixed && OutReady(cfg, s.b) && Writes(ops) && Fifo(cfg, s)
    ensures (forall ops' :: Alike(ops, ops') && Writes(ops') ==> FifoWith(cfg, s, ops')) <==> AllClean(cfg, s, ops)
  {
    if AllClean(cfg, s, ops) {
      forall ops' | Alike(ops, ops') && Writes(ops')
        ensures FifoWith(cfg, s, ops')
      {
        CleanAlike(cfg, s, s, ops, ops');
        CleanRunIsFifo(cfg, s, ops');
      }
    } else {
      var ops' := SomeStringsBreak(cfg, s, ops);
      assert !FifoWith(cfg, s, ops');
    }
  }

  /** With the default sizes two short writes in a row already break it. */
  lemma SourceOutputIsNotFifo(mem: seq<byte>)
    requires |mem| == 81920
    ensures var cfg, s := Config(81920, 4096, false), OutRun(Buf([], mem, 0, 0), [], [], false);
            && OutReady(cfg, s.b) && Fifo(cfg, s)
            && !FifoWith(cfg, s, [DoWrite([1, 2]), DoWrite([3, 3])])
  {
    var cfg, s := Config(81920, 4096, false), OutRun(Buf([], mem, 0, 0), [], [], false);
    var ops := [DoWrite([1, 2]), DoWrite([3, 3])];
    CleanKeepsFifo(cfg, s, ops[0]);
    FirstWriteOpens(cfg, s.b, [1, 2]);
    hide Write, Send, Bytes, Fifo;
    SecondWriteBreaks(cfg, OutStep(cfg, s, ops[0]));
    assert ops[1..] == [ops[1]];
  }

  lemma FirstWriteOpens(cfg: Config, b: Buf, data: seq<byte>)
    requires cfg == Config(81920, 4096, false) && |data| == 2
    requires Valid(cfg, b) && b.nodes == [] && b.size == 0
    ensures var r := Write(cfg, b, data);
            r.code == Ok && r.b.nodes == [Node(0, 4048, 0, 2)] && r.b.size == 2
  {
  }

  lemma SecondWriteBreaks(cfg: Config, s: OutRun)
    requires cfg == Config(81920, 4096, false) && OutReady(cfg, s.b) && Fifo(cfg, s)
    requires s.b.nodes == [Node(0, 4048, 0, 2)] && s.b.size == 2 && s.sent == [] && s.accepted == [1, 2]
    ensures !Fifo(cfg, RunOut(cfg, s, [DoWrite([3, 3])]))
  {
    hide Write, Send, RunOut;
    var ops := [DoWrite([3, 3])];
    assert Paint(2, 3) == [3, 3] && [] + Bytes(s.b.nodes, s.b.mem) == Bytes(s.b.nodes, s.b.mem);
    DirtyBreaks(cfg, s, 2, 3);
    var s1 := OutStep(cfg, s, ops[0]);
    BrokenForGood(cfg, s1, [], 3);
    RunOfOne(cfg, s, ops[0]);
  }

  lemma RunOfOne(cfg: Config, s: OutRun, op: OutOp)
    requires OutReady(cfg, s.b) && (op.DoWrite? ==> op.data != [])
    ensures OutReady(cfg, OutStep(cfg, s, op).b)
    ensures RunOut(cfg, s, [op]) == RunOut(cfg, OutStep(cfg, s, op), [])
  {
    var ops := [op];
    assert ops[0] == op && ops[1..] == [];
    OutStepReady(cfg, s, ops[0]);
  }

  // ---------- the answers of Write ----------

  /** As written, Write fails its assertion exactly if the space check passes and the tail has no space left. */
  lemma SourceAbortsIffTailFull(cfg: Config, b: Buf, data: seq<byte>)
    requires !cfg.fixed && Valid(cfg, b) && data != []
    ensures Write(cfg, b, data).code == Aborted <==>
            && NodeLen(cfg, |data|) <= Wrap(cfg.capacity - b.size)
            && b.nodes != [] && b.nodes[|b.nodes| - 1].RemainSpace() == 0
  {
    hide Wrap;
  }

  /** With the default sizes: a string that fills the first node to its end, and one more byte. */
  lemma AbortHappens(mem: seq<byte>, data: seq<byte>)
    requires |mem| == 81920 && |data| == 4048
    ensures var cfg, b := Config(81920, 4096, false), Buf([], mem, 0, 0);
            Valid(cfg, b) &&
            var r := Write(cfg, b, data);
            r.code == Ok && Valid(cfg, r.b) && Write(cfg, r.b, [7]).code == Aborted
  {
    var cfg, b := Config(81920, 4096, false), Buf([], mem, 0, 0);
    WriteKeepsValid(cfg, b, data);
    FullFirstNode(cfg, b, data);
    hide Write, Layout;
    SourceAbortsIffTailFull(cfg, Write(cfg, b, data).b, [7]);
  }

  lemma FullFirstNode(cfg: Config, b: Buf, data: seq<byte>)
    requires cfg == Config(81920, 4096, false) && |data| == 4048
    requires Valid(cfg, b) && b.nodes == [] && b.size == 0
    ensures var r := Write(cfg, b, data);
            r.code == Ok && r.b.nodes == [Node(0, 4048, 0, 4048)] && r.b.size == 4048
  {
  }

  ghost predicate SomeWriteOverruns(cfg: Config, b: Buf)
    requires Valid(cfg, b)
  {
    exists data: seq<byte> :: data != [] && Write(cfg, b, data).code == Overrun
  }

  /** As written, some string makes the first node run over the array exactly if size_ has wrapped past zero or stands
      above the capacity; never while size_ is right. */
  lemma SourceOverrunsIff(cfg: Config, b: Buf)
    requires !cfg.fixed && Valid(cfg, b) && HEADER < cfg.capacity < WORD
    ensures SomeWriteOverruns(cfg, b) <==>
            b.nodes == [] && Wrap(cfg.capacity - b.size) > cfg.capacity && Wrap(cfg.capacity - b.size) >= cfg.minNode
  {
    hide Wrap;
    var space := Wrap(cfg.capacity - b.size);
    if b.nodes == [] && space > cfg.capacity && space >= cfg.minNode {
      var data := Paint(space - HEADER, 0);
      assert NodeLen(cfg, |data|) == space;
      assert Write(cfg, b, data).code == Overrun;
    }
  }

  // ---------- size_ as written ----------

  /** The bytes that a write puts into the tail without counting them. */
  function Uncounted(cfg: Config, b: Buf, op: OutOp): nat
    requires Valid(cfg, b) && AllLive(b.nodes) && (op.DoWrite? ==> op.data != [])
  {
    if op.DoWrite? && !CleanWrite(cfg, b, |op.data|) && b.nodes != [] &&
       b.nodes[|b.nodes| - 1].RemainSpace() < |op.data|
    then b.nodes[|b.nodes| - 1].RemainSpace() else 0
  }

  lemma {:induction false} SendOff(cfg: Config, b: Buf, script: seq<SendOutcome>, d: int)
    requires Valid(cfg, b) && AllLive(b.nodes) && Off(b, d)
    ensures Off(Send(cfg, b, script).b, d)
    decreases |script|
  {
    hide Layout, Bytes, Wrap, Off;
    if b.nodes != [] && script != [] {
      match script[0]
      case SendInterrupted => SendOff(cfg, b, script[1..], d);
      case Accept(k) =>
        var taken := Min(k, b.nodes[0].len);
        AdvanceSplits(cfg, b, taken);
        AdvanceOff(b, taken, d);
        SendOff(cfg, Advance(b, taken), script[1..], d);
      case _ =>
    }
  }

  lemma AdvanceOff(b: Buf, k: nat, d: int)
    requires b.nodes != [] && k <= b.nodes[0].len && Off(b, d)
    ensures Off(Advance(b, k), d)
  {
    hide Wrap;
    WrapShift(Total(b.nodes) + d, -(k as int));
    if k < b.nodes[0].len {
      assert Advance(b, k).nodes[1..] == b.nodes[1..];
    }
  }

  lemma WriteOff(cfg: Config, b: Buf, data: seq<byte>, d: int)
    requires !cfg.fixed && Valid(cfg, b) && AllLive(b.nodes) && data != [] && Off(b, d)
    ensures Off(Write(cfg, b, data).b, d - Uncounted(cfg, b, DoWrite(data)))
  {
    hide Wrap, Layout, Overlay;
    WrapShift(Total(b.nodes) + d, |data|);
    if b.nodes != [] {
      var t := b.nodes[0];
      assert b.nodes == [t];
      TotalOne(t);
      var n := Min(|data|, t.RemainSpace());
      TotalOne(t.(len := t.len + n));
    } else {
      NoNodes(b);
      var first := Node(0, NodeLen(cfg, |data|) - HEADER, 0, |data|);
      TotalOne(first);
      assert Write(cfg, b, data).code == Ok ==> Write(cfg, b, data).b.nodes == [first];
    }
  }

  lemma OutStepOff(cfg: Config, s: OutRun, op: OutOp, d: int)
    requires !cfg.fixed && OutReady(cfg, s.b) && !s.overrun && (op.DoWrite? ==> op.data != []) && Off(s.b, d)
    ensures Off(OutStep(cfg, s, op).b, d - Uncounted(cfg, s.b, op))
  {
    hide Write, Send, Off, Uncounted, Layout;
    match op
    case DoWrite(data) => WriteOff(cfg, s.b, data, d);
    case DoSend(script) =>
      SendOff(cfg, s.b, script, d);
      SendsCount(cfg, s.b, script);
  }

  lemma SendsCount(cfg: Config, b: Buf, script: seq<SendOutcome>)
    requires Valid(cfg, b) && AllLive(b.nodes)
    ensures Uncounted(cfg, b, DoSend(script)) == 0
  {
  }

  ghost function AllUncounted(cfg: Config, s: OutRun, ops: seq<OutOp>): nat
    requires OutReady(cfg, s.b) && Writes(ops)
    decreases |ops|
  {
    if ops == [] || s.overrun then 0
    else
      OutStepReady(cfg, s, ops[0]);
      Uncounted(cfg, s.b, ops[0]) + AllUncounted(cfg, OutStep(cfg, s, ops[0]), ops[1..])
  }

  /** As written, over every run short of an overrun, size_ falls short by exactly the bytes of refused writes, modulo
      2^64. */
  lemma {:induction false} SourceOutputSizeDrifts(cfg: Config, s: OutRun, ops: seq<OutOp>, d: int)
    requires !cfg.fixed && OutReady(cfg, s.b) && Writes(ops) && Off(s.b, d)
    ensures !RunOut(cfg, s, ops).overrun ==> Off(RunOut(cfg, s, ops).b, d - AllUncounted(cfg, s, ops))
    ensures OutReady(cfg, RunOut(cfg, s, ops).b)
    decreases |ops|
  {
    hide Write, Send, Off, Uncounted, OutStep;
    if s.overrun {
      OutOverrunEnds(cfg, s, ops);
    } else if ops != [] {
      OutStepReady(cfg, s, ops[0]);
      OutStepOff(cfg, s, ops[0], d);
      SourceOutputSizeDrifts(cfg, OutStep(cfg, s, ops[0]), ops[1..], d - Uncounted(cfg, s.b, ops[0]));
    }
  }

  /** GetSize: size_ as an int of 32 bits. */
  function GetSize(size: nat): int {
    var low := size % 0x1_0000_0000;
    if low < 0x8000_0000 then low else low - 0x1_0000_0000
  }

  /** So it is right after a run exactly if no write was refused late; and once everything is sent GetSize() answers
      minus the bytes left uncounted, for which on_write has no case. */
  lemma SourceOutputSizeIsRightIff(cfg: Config, s: OutRun, ops: seq<OutOp>)
    requires !cfg.fixed && OutReady(cfg, s.b) && Writes(ops) && Off(s.b, 0)
    requires AllUncounted(cfg, s, ops) <= 0x8000_0000 && cfg.capacity < 0x8000_0000
    ensures var t := RunOut(cfg, s, ops);
            !t.overrun ==>
              && (t.b.size == Total(t.b.nodes) <==> AllUncounted(cfg, s, ops) == 0)
              && (t.b.nodes == [] ==> GetSize(t.b.size) == 0 - AllUncounted(cfg, s, ops))
  {
    hide Write, Send, RunOut, AllUncounted;
    SourceOutputSizeDrifts(cfg, s, ops, 0);
    var t, u := RunOut(cfg, s, ops), AllUncounted(cfg, s, ops);
    SpaceNeverUnderflows(t.b.nodes, cfg.capacity);
    WrapSmall(Total(t.b.nodes) - u);
    hide Wrap;
    if t.b.nodes == [] {
      NoNodes(t.b);
      if u > 0 {
        assert WORD - u == 0x1_0000_0000 * 0xFFFF_FFFF + (0x1_0000_0000 - u);
      }
    }
  }

  /** With the default sizes: 4000 bytes are written, 100 more are refused, everything is sent. */
  lemma OutputSizeWraps(mem: seq<byte>, first: seq<byte>, second: seq<byte>)
    requires |mem| == 81920 && |first| == 4000 && |second| == 100
    ensures var cfg, s := Config(81920, 4096, false), OutRun(Buf([], mem, 0, 0), [], [], false);
            var ops := [DoWrite(first), DoWrite(second), DoSend([Accept(9999)])];
            && OutReady(cfg, s.b) && Writes(ops)
            && var t := RunOut(cfg, s, ops);
               !t.overrun && t.b.nodes == [] && t.b.size == WORD - 48 && GetSize(t.b.size) == -48
  {
    var cfg, s := Config(81920, 4096, false), OutRun(Buf([], mem, 0, 0), [], [], false);
    var ops := [DoWrite(first), DoWrite(second), DoSend([Accept(9999)])];
    OutStepReady(cfg, s, ops[0]);
    FirstOfTwo(cfg, s, first);
    var s1 := OutStep(cfg, s, ops[0]);
    OutStepReady(cfg, s1, ops[1]);
    RefusedSecond(cfg, s1, second);
    var s2 := OutStep(cfg, s1, ops[1]);
    AllSent(cfg, s2);
    hide Write, Send, Layout, OutStep;
    assert ops[1..] == [ops[1], ops[2]] && ops[1..][1..] == [ops[2]];
    RunOfOne(cfg, s2, ops[2]);
    assert RunOut(cfg, s, ops) == RunOut(cfg, s1, ops[1..]) == RunOut(cfg, s2, [ops[2]]);
  }

  lemma FirstOfTwo(cfg: Config, s: OutRun, data: seq<byte>)
    requires cfg == Config(81920, 4096, false) && |data| == 4000
    requires OutReady(cfg, s.b) && !s.overrun && s.b.nodes == [] && s.b.size == 0
    ensures var t := OutStep(cfg, s, DoWrite(data));
            t.b.nodes == [Node(0, 4048, 0, 4000)] && t.b.size == 4000 && !t.overrun
  {
  }

  lemma RefusedSecond(cfg: Config, s: OutRun, data: seq<byte>)
    requires cfg == Config(81920, 4096, false) && |data| == 100
    requires OutReady(cfg, s.b) && !s.overrun && s.b.nodes == [Node(0, 4048, 0, 4000)] && s.b.size == 4000
    ensures var t := OutStep(cfg, s, DoWrite(data));
            t.b.nodes == [Node(0, 4048, 0, 4048)] && t.b.size == 4000 && !t.overrun
  {
  }

  lemma AllSent(cfg: Config, s: OutRun)
    requires cfg == Config(81920, 4096, false) && OutReady(cfg, s.b) && !s.overrun
    requires s.b.nodes == [Node(0, 4048, 0, 4048)] && s.b.size == 4000
    ensures var t := OutStep(cfg, s, DoSend([Accept(9999)]));
            t.b.nodes == [] && t.b.size == WORD - 48 && GetSize(t.b.size) == -48 && !t.overrun
  {
    var script := [Accept(9999)];
    AdvanceSplits(cfg, s.b, 4048);
    assert script[1..] == [];
    assert Send(cfg, s.b, script).b == Send(cfg, Advance(s.b, 4048), script[1..]).b == Advance(s.b, 4048);
    WrapSmall(4000 - 4048);
    assert WORD - 48 == 0x1_0000_0000 * 0xFFFF_FFFF + (0x1_0000_0000 - 48);
  }

  // ---------- over the array ----------

  /** As written, after every run from right counters: some next write runs over the array exactly if the chain is
      empty and bytes were left uncounted; short of 2^64. */
  lemma SourceRunOverrunsIff(cfg: Config, s: OutRun, ops: seq<OutOp>)
    requires !cfg.fixed && OutReady(cfg, s.b) && Writes(ops) && Off(s.b, 0)
    requires HEADER < cfg.capacity && cfg.minNode <= cfg.capacity
    requires cfg.capacity + AllUncounted(cfg, s, ops) < WORD
    ensures var t := RunOut(cfg, s, ops);
            && Valid(cfg, t.b)
            && (!t.overrun ==> (SomeWriteOverruns(cfg, t.b) <==> t.b.nodes == [] && AllUncounted(cfg, s, ops) > 0))
  {
    hide Write, Send, RunOut, AllUncounted, Wrap, Layout;
    SourceOutputSizeDrifts(cfg, s, ops, 0);
    var t, u := RunOut(cfg, s, ops), AllUncounted(cfg, s, ops);
    SourceOverrunsIff(cfg, t.b);
    if t.b.nodes == [] {
      NoNodes(t.b);
      WrapSmall(Total(t.b.nodes) - u);
      WrapSmall(cfg.capacity + u);
      WrapSmall(cfg.capacity + u - WORD);
    }
  }

  /** With the default sizes: behind the three operations before, a write of 81920 bytes passes the space check and its
      node reaches past the array. */
  lemma OutputOverruns(mem: seq<byte>, first: seq<byte>, second: seq<byte>, third: seq<byte>)
    requires |mem| == 81920 && |first| == 4000 && |second| == 100 && |third| == 81920
    ensures var cfg, s := Config(81920, 4096, false), OutRun(Buf([], mem, 0, 0), [], [], false);
            var ops := [DoWrite(first), DoWrite(second), DoSend([Accept(9999)])];
            && OutReady(cfg, s.b) && Writes(ops)
            && var t := RunOut(cfg, s, ops);
               OutReady(cfg, t.b) && !t.overrun && RunOut(cfg, t, [DoWrite(third)]).overrun
  {
    hide Write, Send, Layout, OutStep;
    var cfg, s := Config(81920, 4096, false), OutRun(Buf([], mem, 0, 0), [], [], false);
    var ops := [DoWrite(first), DoWrite(second), DoSend([Accept(9999)])];
    OutputSizeWraps(mem, first, second);
    RunOutReady(cfg, s, ops);
    var t := RunOut(cfg, s, ops);
    hide RunOut;
    WritePastArray(cfg, t, third);
    RunOfOne(cfg, t, DoWrite(third));
    RunOutEmpty(cfg, OutStep(cfg, t, DoWrite(third)));
  }

  lemma RunOutEmpty(cfg: Config, s: OutRun)
    requires OutReady(cfg, s.b)
    ensures RunOut(cfg, s, []) == s
  {
  }

  lemma WritePastArray(cfg: Config, t: OutRun, data: seq<byte>)
    requires cfg == Config(81920, 4096, false) && |data| == 81920 && OutReady(cfg, t.b) && !t.overrun
    requires t.b.nodes == [] && t.b.size == WORD - 48
    ensures OutStep(cfg, t, DoWrite(data)).overrun
  {
    WrapSmall(81920 - (WORD - 48));
  }

  lemma {:induction false} RunOutReady(cfg: Config, s: OutRun, ops: seq<OutOp>)
    requires OutReady(cfg, s.b) && Writes(ops)
    ensures OutReady(cfg, RunOut(cfg, s, ops).b)
    decreases |ops|
  {
    hide Write, Send, OutStep, OutReady;
    if ops != [] {
      OutStepReady(cfg, s, ops[0]);
      RunOutReady(cfg, OutStep(cfg, s, ops[0]), ops[1..]);
    }
  }

  /** Both forms: the runs that keep the output law. */
  lemma ServedInOrder(cfg: Config, s: OutRun, ops: seq<OutOp>)
    requires OutReady(cfg, s.b) && Writes(ops) && Fifo(cfg, s)
    ensures cfg.fixed || AllClean(cfg, s, ops) ==> Fifo(cfg, RunOut(cfg, s, ops))
  {
    if cfg.fixed {
      OutputIsFifo(cfg, s, ops);
    } else if AllClean(cfg, s, ops) {
      CleanRunIsFifo(cfg, s, ops);
    }
  }
}
