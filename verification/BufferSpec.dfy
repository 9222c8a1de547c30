/** EdnBuffer on values: what each operation makes of the chain, the array and the two counters.

`cfg.fixed` is false for the code as written and true for its repaired form; every departure is marked "repair". */
module BufferSpec {
  import opened EdnDefine
  import opened Arena

  /** size_t arithmetic is taken modulo 2^64. */
  const WORD: nat := 0x1_0000_0000_0000_0000

  function Wrap(x: int): (r: nat)
    ensures r < WORD
    decreases if x < 0 then WORD - x else x
  {
    if x < 0 then Wrap(x + WORD) else if x < WORD then x else Wrap(x - WORD)
  }

  datatype Config = Config(capacity: nat, minNode: nat, fixed: bool)

  /** `size` is size_, `num` is buffer_node_num_; `mem` is the whole array, `nodes` the chain from head_ to tail_. */
  datatype Buf = Buf(nodes: seq<Node>, mem: seq<byte>, size: nat, num: int)

  function Max(a: nat, b: nat): nat {
    if a < b then b else a
  }

  function Min(a: nat, b: nat): nat {
    if a < b then a else b
  }

  function NodeLen(cfg: Config, len: nat): (r: nat)
    ensures r >= HEADER + len
  {
    Max(len + HEADER, cfg.minNode)
  }

  // ---------- the abstract contents ----------

  function Live(n: Node, mem: seq<byte>): (r: seq<byte>)
    requires n.Ok() && n.End() <= |mem|
    ensures |r| == n.len
  {
    mem[n.Start()..n.Start() + n.len]
  }

  ghost predicate InMem(ns: seq<Node>, mem: seq<byte>) {
    forall i :: 0 <= i < |ns| ==> ns[i].Ok() && ns[i].End() <= |mem|
  }

  /** The bytes held by a chain, in order: the byte FIFO that the buffer stands for. */
  function Bytes(ns: seq<Node>, mem: seq<byte>): (r: seq<byte>)
    requires InMem(ns, mem)
    ensures |r| == Total(ns)
  {
    if ns == [] then [] else Live(ns[0], mem) + Bytes(ns[1..], mem)
  }

  ghost predicate ValidChain(cfg: Config, ns: seq<Node>, mem: seq<byte>)
    ensures ValidChain(cfg, ns, mem) ==> InMem(ns, mem)
  {
    && |mem| == cfg.capacity
    && Layout(ns, cfg.capacity)
    && (!cfg.fixed ==> |ns| <= 1 && (ns != [] ==> ns[0].pos == 0))
  }

  ghost predicate Valid(cfg: Config, b: Buf) {
    ValidChain(cfg, b.nodes, b.mem)
  }

  /** The two counters say what the chain says. */
  ghost predicate Booked(b: Buf) {
    b.size == Total(b.nodes) && b.num == |b.nodes|
  }

  ghost predicate AllLive(ns: seq<Node>) {
    forall i :: 0 <= i < |ns| ==> ns[i].len > 0
  }

  lemma {:induction false} BytesConcat(xs: seq<Node>, ys: seq<Node>, mem: seq<byte>)
    requires InMem(xs, mem) && InMem(ys, mem)
    ensures InMem(xs + ys, mem)
    ensures Bytes(xs + ys, mem) == Bytes(xs, mem) + Bytes(ys, mem)
  {
    if xs == [] {
      assert xs + ys == ys;
    } else {
      assert (xs + ys)[1..] == xs[1..] + ys;
      BytesConcat(xs[1..], ys, mem);
      Associative(Live(xs[0], mem), Bytes(xs[1..], mem), Bytes(ys, mem));
      assert InMem(xs + ys, mem);
      assert Bytes(xs + ys, mem) == Live(xs[0], mem) + Bytes(xs[1..] + ys, mem);
    }
  }

  lemma BytesOne(n: Node, mem: seq<byte>)
    requires InMem([n], mem)
    ensures [n][0] == n && Bytes([n], mem) == Live(n, mem)
  {
    assert [n][1..] == [];
  }

  /** A change of the array outside the live bytes of the chain does not show. */
  lemma {:induction false} BytesFrame(ns: seq<Node>, mem: seq<byte>, mem': seq<byte>)
    requires |mem| == |mem'| && InMem(ns, mem)
    requires forall i :: 0 <= i < |ns| ==> Live(ns[i], mem) == Live(ns[i], mem')
    ensures Bytes(ns, mem) == Bytes(ns, mem')
  {
    if ns != [] {
      forall i | 0 <= i < |ns[1..]|
        ensures Live(ns[1..][i], mem) == Live(ns[1..][i], mem')
      {
        assert ns[1..][i] == ns[i + 1];
      }
      BytesFrame(ns[1..], mem, mem');
    }
  }

  // ---------- Write ----------

  /** memcpy into the array. */
  function Overlay(mem: seq<byte>, at: nat, data: seq<byte>): (r: seq<byte>)
    requires at + |data| <= |mem|
    ensures |r| == |mem|
  {
    mem[..at] + data + mem[at + |data|..]
  }

  /** Where BufferNode::Write copies to. Repair: behind the live bytes instead of onto the first of them. */
  function WriteAt(fixed: bool, n: Node): nat {
    if fixed then n.Start() + n.len else n.Start()
  }

  datatype Code = Ok | NotEnough | Aborted | Overrun

  datatype WriteResult = WriteResult(b: Buf, code: Code)

  /** BufferNode::Write on the tail: copy, then count. */
  function PutTail(cfg: Config, b: Buf, data: seq<byte>): (r: Buf)
    requires Valid(cfg, b) && b.nodes != []
    requires |data| <= b.nodes[|b.nodes| - 1].RemainSpace()
    ensures |r.nodes| == |b.nodes| && |r.mem| == |b.mem|
  {
    var k := |b.nodes| - 1;
    var t := b.nodes[k];
    Buf(b.nodes[k := t.(len := t.len + |data|)], Overlay(b.mem, WriteAt(cfg.fixed, t), data), b.size, b.num)
  }

  /** Init of a node and its link at the end of the chain. */
  function PushNode(b: Buf, pos: nat, nodeLen: nat): Buf
    requires HEADER <= nodeLen
  {
    b.(nodes := b.nodes + [Node(pos, nodeLen - HEADER, 0, 0)])
  }

  lemma PutTailValid(cfg: Config, b: Buf, data: seq<byte>)
    requires Valid(cfg, b) && b.nodes != []
    requires |data| <= b.nodes[|b.nodes| - 1].RemainSpace()
    ensures Valid(cfg, PutTail(cfg, b, data))
  {
    var k := |b.nodes| - 1;
    LayoutUpdate(b.nodes, cfg.capacity, k, PutTail(cfg, b, data).nodes[k]);
  }

  lemma PushNodeValid(cfg: Config, b: Buf, nodeLen: nat)
    requires Valid(cfg, b) && HEADER <= nodeLen <= cfg.capacity
    requires b.nodes == [] || cfg.fixed
    requires Next(cfg.fixed, b.nodes, nodeLen, cfg.capacity).Some?
    ensures Valid(cfg, PushNode(b, Next(cfg.fixed, b.nodes, nodeLen, cfg.capacity).value, nodeLen))
  {
    if cfg.fixed {
      NextIsSafe(b.nodes, nodeLen, cfg.capacity);
    }
  }

  lemma NextFits(cfg: Config, b: Buf, nodeLen: nat)
    requires Valid(cfg, b) && b.nodes != []
    ensures Next(cfg.fixed, b.nodes, nodeLen, cfg.capacity).Some? ==> cfg.fixed && nodeLen <= cfg.capacity
  {
    if |b.nodes| == 1 {
      assert b.nodes == [b.nodes[0]];
    }
  }

  /** EdnBuffer::Write. `Aborted` is a failed assert of BufferNode::Write, `Overrun` a first node that does not fit
      the array (neither happens once repaired). */
  function Write(cfg: Config, b: Buf, data: seq<byte>): (r: WriteResult)
    requires Valid(cfg, b) && data != []
  {
    if NodeLen(cfg, |data|) > Wrap(cfg.capacity - b.size) then
      WriteResult(b, NotEnough)
    else if b.nodes == [] then
      WriteFirst(cfg, b, data)
    else if b.nodes[|b.nodes| - 1].RemainSpace() >= |data| then
      WriteResult(PutTail(cfg, b, data).(size := Wrap(b.size + |data|)), Ok)
    else
      WriteMore(cfg, b, data)
  }

  /** The first node goes to the start of the array. */
  function WriteFirst(cfg: Config, b: Buf, data: seq<byte>): WriteResult
    requires Valid(cfg, b) && b.nodes == []
  {
    var nodeLen := NodeLen(cfg, |data|);
    if nodeLen > cfg.capacity then WriteResult(b, Overrun)
    else
      PushNodeValid(cfg, b, nodeLen);
      var b1 := PutTail(cfg, PushNode(b, 0, nodeLen), data);
      WriteResult(b1.(size := Wrap(b.size + |data|), num := 1), Ok)
  }

  /** The tail takes what it can and a second node the rest. Repairs: look for the second node before touching the
      tail, size that node for what is left over, and let a full tail take nothing. */
  function WriteMore(cfg: Config, b: Buf, data: seq<byte>): WriteResult
    requires Valid(cfg, b) && b.nodes != []
    requires b.nodes[|b.nodes| - 1].RemainSpace() < |data|
  {
    var room := b.nodes[|b.nodes| - 1].RemainSpace();
    if !cfg.fixed then
      if room == 0 then WriteResult(b, Aborted)
      else WriteResult(PutTail(cfg, b, data[..room]), NotEnough)
    else
      var restLen := NodeLen(cfg, |data| - room);
      var place := Next(true, b.nodes, restLen, cfg.capacity);
      if place.None? then WriteResult(b, NotEnough)
      else
        var b1 := PutTail(cfg, b, data[..room]);
        WriteResult(WriteOver(cfg, b, place.value, restLen, data[..room], data[room..]), Ok)
  }

  function WriteOver(cfg: Config, b: Buf, pos: nat, nodeLen: nat, front: seq<byte>, rest: seq<byte>): Buf
    requires cfg.fixed && Valid(cfg, b) && b.nodes != []
    requires |front| <= b.nodes[|b.nodes| - 1].RemainSpace()
    requires HEADER + |rest| <= nodeLen && Next(true, b.nodes, nodeLen, cfg.capacity) == Some(pos)
  {
    Spread(cfg, b, pos, nodeLen, front, rest).(size := Wrap(b.size + |front| + |rest|), num := b.num + 1)
  }

  /** The tail takes `front`, a new node at `pos` takes `rest`; nothing is counted yet. */
  function Spread(cfg: Config, b: Buf, pos: nat, nodeLen: nat, front: seq<byte>, rest: seq<byte>): (r: Buf)
    requires cfg.fixed && Valid(cfg, b) && b.nodes != []
    requires |front| <= b.nodes[|b.nodes| - 1].RemainSpace()
    requires HEADER + |rest| <= nodeLen && Next(true, b.nodes, nodeLen, cfg.capacity) == Some(pos)
    ensures r.size == b.size && r.num == b.num
  {
    PutTailPlace(cfg, b, front, nodeLen);
    PutTail(cfg, PushNode(PutTail(cfg, b, front), pos, nodeLen), rest)
  }

  /** Filling the tail moves no node, so the place found beforehand is still the right one. */
  lemma PutTailPlace(cfg: Config, b: Buf, data: seq<byte>, nodeLen: nat)
    requires cfg.fixed && Valid(cfg, b) && b.nodes != [] && HEADER <= nodeLen
    requires |data| <= b.nodes[|b.nodes| - 1].RemainSpace()
    requires Next(true, b.nodes, nodeLen, cfg.capacity).Some?
    ensures var b1 := PutTail(cfg, b, data);
            && Valid(cfg, b1)
            && Valid(cfg, PushNode(b1, Next(true, b.nodes, nodeLen, cfg.capacity).value, nodeLen))
  {
    var b1 := PutTail(cfg, b, data);
    PutTailValid(cfg, b, data);
    assert Next(true, b1.nodes, nodeLen, cfg.capacity) == Next(true, b.nodes, nodeLen, cfg.capacity);
    NextFits(cfg, b1, nodeLen);
    PushNodeValid(cfg, b1, nodeLen);
  }

  // ---------- Write: what it keeps and what it appends ----------

  lemma OverlayOutside(mem: seq<byte>, at: nat, data: seq<byte>, lo: nat, hi: nat)
    requires at + |data| <= |mem| && lo <= hi <= |mem|
    requires hi <= at || at + |data| <= lo
    ensures Overlay(mem, at, data)[lo..hi] == mem[lo..hi]
  {
  }

  lemma OverlayExtends(mem: seq<byte>, lo: nat, at: nat, data: seq<byte>)
    requires lo <= at && at + |data| <= |mem|
    ensures Overlay(mem, at, data)[lo..at + |data|] == mem[lo..at] + data
  {
  }

  lemma PutTailKeepsOthers(cfg: Config, b: Buf, data: seq<byte>)
    requires Valid(cfg, b) && b.nodes != []
    requires |data| <= b.nodes[|b.nodes| - 1].RemainSpace()
    ensures var front, mem' := b.nodes[..|b.nodes| - 1], PutTail(cfg, b, data).mem;
            InMem(front, b.mem) && InMem(front, mem') && Bytes(front, mem') == Bytes(front, b.mem)
  {
    var k := |b.nodes| - 1;
    var front, t, mem' := b.nodes[..k], b.nodes[k], PutTail(cfg, b, data).mem;
    forall i | 0 <= i < |front|
      ensures Live(front[i], b.mem) == Live(front[i], mem')
    {
      LayoutIsDisjoint(b.nodes, cfg.capacity, i, k);
      OverlayOutside(b.mem, WriteAt(cfg.fixed, t), data, front[i].Start(), front[i].Start() + front[i].len);
    }
    BytesFrame(front, b.mem, mem');
  }

  lemma PutTailLive(cfg: Config, b: Buf, data: seq<byte>)
    requires cfg.fixed && Valid(cfg, b) && b.nodes != []
    requires |data| <= b.nodes[|b.nodes| - 1].RemainSpace()
    ensures var k, b' := |b.nodes| - 1, PutTail(cfg, b, data);
            b'.nodes[k].Ok() && b'.nodes[k].End() <= |b'.mem| &&
            Live(b'.nodes[k], b'.mem) == Live(b.nodes[k], b.mem) + data
  {
    var t := b.nodes[|b.nodes| - 1];
    OverlayExtends(b.mem, t.Start(), t.Start() + t.len, data);
  }

  /** Appending to the tail, as repaired. */
  lemma PutTailAppends(cfg: Config, b: Buf, data: seq<byte>)
    requires cfg.fixed && Valid(cfg, b) && b.nodes != []
    requires |data| <= b.nodes[|b.nodes| - 1].RemainSpace()
    ensures Valid(cfg, PutTail(cfg, b, data))
    ensures Bytes(PutTail(cfg, b, data).nodes, PutTail(cfg, b, data).mem) == Bytes(b.nodes, b.mem) + data
  {
    var k, b' := |b.nodes| - 1, PutTail(cfg, b, data);
    PutTailValid(cfg, b, data);
    PutTailKeepsOthers(cfg, b, data);
    PutTailLive(cfg, b, data);
    LastNode(cfg, b);
    LastNode(cfg, b');
    assert b'.nodes[..k] == b.nodes[..k];
    Associative(Bytes(b.nodes[..k], b.mem), Live(b.nodes[k], b.mem), data);
  }

  lemma LastNode(cfg: Config, b: Buf)
    requires Valid(cfg, b) && b.nodes != []
    ensures var k := |b.nodes| - 1;
            InMem(b.nodes[..k], b.mem) &&
            Bytes(b.nodes, b.mem) == Bytes(b.nodes[..k], b.mem) + Live(b.nodes[k], b.mem)
  {
    var k := |b.nodes| - 1;
    assert b.nodes == b.nodes[..k] + [b.nodes[k]];
    BytesConcat(b.nodes[..k], [b.nodes[k]], b.mem);
    BytesOne(b.nodes[k], b.mem);
  }

  lemma PushNodeBytes(cfg: Config, b: Buf, pos: nat, nodeLen: nat)
    requires Valid(cfg, b) && HEADER <= nodeLen && Valid(cfg, PushNode(b, pos, nodeLen))
    ensures Bytes(PushNode(b, pos, nodeLen).nodes, b.mem) == Bytes(b.nodes, b.mem)
  {
    var n := Node(pos, nodeLen - HEADER, 0, 0);
    assert (b.nodes + [n])[|b.nodes|] == n;
    BytesConcat(b.nodes, [n], b.mem);
    BytesOne(n, b.mem);
  }

  lemma FreshNodeAppends(cfg: Config, b: Buf, pos: nat, nodeLen: nat, data: seq<byte>)
    requires cfg.fixed && Valid(cfg, b) && HEADER + |data| <= nodeLen && Valid(cfg, PushNode(b, pos, nodeLen))
    ensures var b' := PutTail(cfg, PushNode(b, pos, nodeLen), data);
            Valid(cfg, b') && Bytes(b'.nodes, b'.mem) == Bytes(b.nodes, b.mem) + data
  {
    PushNodeBytes(cfg, b, pos, nodeLen);
    PutTailAppends(cfg, PushNode(b, pos, nodeLen), data);
  }

  /** Appended as a whole and laid out, or untouched. */
  ghost predicate AllOrNothing(cfg: Config, b: Buf, data: seq<byte>, r: WriteResult)
    requires Valid(cfg, b)
  {
    && Valid(cfg, r.b)
    && r.code in {Ok, NotEnough}
    && (r.code == NotEnough ==> r.b == b)
    && (r.code == Ok ==>
          && Bytes(r.b.nodes, r.b.mem) == Bytes(b.nodes, b.mem) + data
          && r.b.size == Wrap(b.size + |data|)
          && r.b.num == b.num + |r.b.nodes| - |b.nodes|)
  }

  lemma WriteSplits(cfg: Config, b: Buf, data: seq<byte>)
    requires cfg.fixed && Valid(cfg, b) && b.nodes != []
    requires b.nodes[|b.nodes| - 1].RemainSpace() < |data|
    ensures AllOrNothing(cfg, b, data, WriteMore(cfg, b, data))
  {
    hide Bytes, Layout, Next, WriteOver, AllOrNothing;
    RefusalIsNothing(cfg, b, data);
    var room := b.nodes[|b.nodes| - 1].RemainSpace();
    var restLen := NodeLen(cfg, |data| - room);
    var place := Next(true, b.nodes, restLen, cfg.capacity);
    if place.Some? {
      WriteOverAppends(cfg, b, place.value, restLen, data[..room], data[room..]);
      assert data[..room] + data[room..] == data;
    }
  }

  lemma RefusalIsNothing(cfg: Config, b: Buf, data: seq<byte>)
    requires Valid(cfg, b)
    ensures AllOrNothing(cfg, b, data, WriteResult(b, NotEnough))
  {
  }

  /** The two copies of a split write, one after the other. */
  lemma SpreadAppends(cfg: Config, b: Buf, pos: nat, nodeLen: nat, front: seq<byte>, rest: seq<byte>)
    requires cfg.fixed && Valid(cfg, b) && b.nodes != []
    requires |front| <= b.nodes[|b.nodes| - 1].RemainSpace()
    requires HEADER + |rest| <= nodeLen && Next(true, b.nodes, nodeLen, cfg.capacity) == Some(pos)
    ensures var r := Spread(cfg, b, pos, nodeLen, front, rest);
            && Valid(cfg, r) && |r.nodes| == |b.nodes| + 1
            && Bytes(r.nodes, r.mem) == Bytes(b.nodes, b.mem) + (front + rest)
  {
    PutTailPlace(cfg, b, front, nodeLen);
    PutTailAppends(cfg, b, front);
    hide Layout, Next, Bytes, PutTail;
    FreshNodeAppends(cfg, PutTail(cfg, b, front), pos, nodeLen, rest);
    Associative(Bytes(b.nodes, b.mem), front, rest);
  }

  lemma WriteOverAppends(cfg: Config, b: Buf, pos: nat, nodeLen: nat, front: seq<byte>, rest: seq<byte>)
    requires cfg.fixed && Valid(cfg, b) && b.nodes != []
    requires |front| <= b.nodes[|b.nodes| - 1].RemainSpace()
    requires HEADER + |rest| <= nodeLen && Next(true, b.nodes, nodeLen, cfg.capacity) == Some(pos)
    ensures AllOrNothing(cfg, b, front + rest, WriteResult(WriteOver(cfg, b, pos, nodeLen, front, rest), Ok))
  {
    hide Spread, Layout, Next, Bytes, Wrap;
    SpreadAppends(cfg, b, pos, nodeLen, front, rest);
  }

  lemma WriteFirstAppends(cfg: Config, b: Buf, data: seq<byte>)
    requires cfg.fixed && Valid(cfg, b) && b.nodes == [] && b.num == 0
    requires NodeLen(cfg, |data|) <= cfg.capacity
    ensures AllOrNothing(cfg, b, data, WriteFirst(cfg, b, data))
  {
    var nodeLen := NodeLen(cfg, |data|);
    PushNodeValid(cfg, b, nodeLen);
    FreshNodeAppends(cfg, b, 0, nodeLen, data);
    var r, b1 := WriteFirst(cfg, b, data), PutTail(cfg, PushNode(b, 0, nodeLen), data);
    assert r.code == Ok && r.b.nodes == b1.nodes && r.b.mem == b1.mem;
    assert Bytes(r.b.nodes, r.b.mem) == Bytes(b.nodes, b.mem) + data;
  }

  lemma WriteInTailAppends(cfg: Config, b: Buf, data: seq<byte>)
    requires cfg.fixed && Valid(cfg, b) && b.nodes != []
    requires |data| <= b.nodes[|b.nodes| - 1].RemainSpace()
    ensures AllOrNothing(cfg, b, data, WriteResult(PutTail(cfg, b, data).(size := Wrap(b.size + |data|)), Ok))
  {
    PutTailAppends(cfg, b, data);
    var b' := PutTail(cfg, b, data).(size := Wrap(b.size + |data|));
    assert Bytes(b'.nodes, b'.mem) == Bytes(b.nodes, b.mem) + data;
  }

  /** All or nothing, once repaired: the whole string joins the contents, split over two nodes or not, or nothing at
      all changes; and both counters stay right. */
  lemma WriteIsAllOrNothing(cfg: Config, b: Buf, data: seq<byte>)
    requires cfg.fixed && Valid(cfg, b) && Booked(b) && data != [] && cfg.capacity < WORD
    ensures AllOrNothing(cfg, b, data, Write(cfg, b, data)) && Booked(Write(cfg, b, data).b)
  {
    SpaceNeverUnderflows(b.nodes, cfg.capacity);
    if NodeLen(cfg, |data|) <= Wrap(cfg.capacity - b.size) {
      if b.nodes == [] {
        WriteFirstAppends(cfg, b, data);
      } else if b.nodes[|b.nodes| - 1].RemainSpace() >= |data| {
        WriteInTailAppends(cfg, b, data);
      } else {
        WriteSplits(cfg, b, data);
      }
      var r := Write(cfg, b, data);
      SpaceNeverUnderflows(r.b.nodes, cfg.capacity);
      assert r.code == Ok ==> |Bytes(r.b.nodes, r.b.mem)| == Total(b.nodes) + |data|;
    }
  }

  // ---------- Write as written ----------

  /** As written, a write that succeeds appends its bytes, whatever they are, exactly when the chain is empty:
      into a node that holds bytes it copies onto the first of them. */
  lemma SourceAppendsIffEmpty(cfg: Config, b: Buf, n: nat)
    requires !cfg.fixed && Valid(cfg, b) && AllLive(b.nodes) && n > 0
    requires forall data: seq<byte> :: |data| == n ==> Write(cfg, b, data).code == Ok
    ensures (forall data: seq<byte> :: |data| == n ==>
               var b' := Write(cfg, b, data).b;
               Valid(cfg, b') && Bytes(b'.nodes, b'.mem) == Bytes(b.nodes, b.mem) + data)
            <==> b.nodes == []
  {
    if b.nodes == [] {
      forall data: seq<byte> | |data| == n
        ensures var b' := Write(cfg, b, data).b;
                Valid(cfg, b') && Bytes(b'.nodes, b'.mem) == Bytes(b.nodes, b.mem) + data
      {
        SourceWriteIntoEmpty(cfg, b, data);
      }
    } else {
      var t := b.nodes[0];
      var other: byte := if b.mem[t.Start()] == 0 then 1 else 0;
      SourceOverlaysFirst(cfg, b, seq(n, _ => other));
    }
  }

  /** A write into a chain that holds bytes changes the first of them to its own first. */
  lemma SourceOverlaysFirst(cfg: Config, b: Buf, data: seq<byte>)
    requires !cfg.fixed && Valid(cfg, b) && AllLive(b.nodes) && b.nodes != [] && data != []
    requires Write(cfg, b, data).code == Ok
    ensures Bytes(b.nodes, b.mem) != [] && Bytes(b.nodes, b.mem)[0] == b.mem[b.nodes[0].Start()]
    ensures var b' := Write(cfg, b, data).b;
            Valid(cfg, b') && Bytes(b'.nodes, b'.mem) != [] && Bytes(b'.nodes, b'.mem)[0] == data[0]
  {
    hide Bytes, Layout, Overlay;
    var t, b' := b.nodes[0], PutTail(cfg, b, data);
    assert b.nodes == [t];
    PutTailValid(cfg, b, data);
    assert b'.nodes == [t.(len := t.len + |data|)];
    BytesOne(t, b.mem);
    BytesOne(b'.nodes[0], b'.mem);
    OverlayFirst(b.mem, t.Start(), data);
  }

  lemma OverlayFirst(mem: seq<byte>, at: nat, data: seq<byte>)
    requires at + |data| <= |mem| && data != []
    ensures Overlay(mem, at, data)[at] == data[0]
  {
  }

  lemma SourceWriteIntoEmpty(cfg: Config, b: Buf, data: seq<byte>)
    requires !cfg.fixed && Valid(cfg, b) && b.nodes == [] && data != []
    requires Write(cfg, b, data).code == Ok
    ensures var b' := Write(cfg, b, data).b;
            && Valid(cfg, b') && Bytes(b'.nodes, b'.mem) == Bytes(b.nodes, b.mem) + data
            && b'.num == 1 && b'.size == Wrap(b.size + |data|)
  {
    hide Wrap, Write;
    SourceFirstWrite(cfg, b, data);
  }

  /** The node at the start of the array, with the string in it. */
  lemma OpenedBytes(cfg: Config, b: Buf, nodeLen: nat, data: seq<byte>)
    requires !cfg.fixed && Valid(cfg, b) && b.nodes == [] && data != [] && HEADER + |data| <= nodeLen <= cfg.capacity
    ensures var b0 := PushNode(b, 0, nodeLen);
            && Valid(cfg, b0) && b0.nodes != [] && |data| <= b0.nodes[|b0.nodes| - 1].RemainSpace()
            && var b1 := PutTail(cfg, b0, data);
               && Valid(cfg, b1) && b1.nodes == [Node(0, nodeLen - HEADER, 0, |data|)]
               && Bytes(b1.nodes, b1.mem) == Bytes(b.nodes, b.mem) + data
  {
    hide Layout, Overlay;
    PushNodeValid(cfg, b, nodeLen);
    var b0 := PushNode(b, 0, nodeLen);
    assert b0.nodes == [Node(0, nodeLen - HEADER, 0, 0)];
    hide PutTail, Bytes, Valid;
    OverlaidBytes(cfg, b0, data);
    OverlayAt(b.mem, HEADER, data, 0);
    NoBytes(cfg, b, data);
  }

  lemma NoBytes(cfg: Config, b: Buf, data: seq<byte>)
    requires Valid(cfg, b) && b.nodes == []
    ensures Bytes(b.nodes, b.mem) + data == data
    ensures forall i :: 0 <= i <= |b.mem| ==> data + b.mem[i..i] == data
  {
  }

  /** As written, what a write into an empty chain does: refused by the space check and nothing changed, over the array,
      or all of it in the one node, counted. */
  lemma SourceFirstWrite(cfg: Config, b: Buf, data: seq<byte>)
    requires !cfg.fixed && Valid(cfg, b) && b.nodes == [] && data != []
    ensures var r := Write(cfg, b, data);
            if NodeLen(cfg, |data|) > Wrap(cfg.capacity - b.size) then r == WriteResult(b, NotEnough)
            else if NodeLen(cfg, |data|) > cfg.capacity then r.code == Overrun
            else
              && r.code == Ok && Valid(cfg, r.b) && Bytes(r.b.nodes, r.b.mem) == Bytes(b.nodes, b.mem) + data
              && r.b.nodes == [Node(0, NodeLen(cfg, |data|) - HEADER, 0, |data|)]
              && r.b.num == 1 && r.b.size == Wrap(b.size + |data|)
  {
    hide Wrap, Bytes, Layout, PutTail, PushNode;
    if NodeLen(cfg, |data|) <= cfg.capacity {
      OpenedBytes(cfg, b, NodeLen(cfg, |data|), data);
    }
  }

  /** As written, a refused write leaves the buffer alone exactly when the first space check refused it: the later
      refusal has already put bytes into the tail, and has not counted them. */
  lemma SourceRefusalIsCleanIffChecked(cfg: Config, b: Buf, data: seq<byte>)
    requires !cfg.fixed && Valid(cfg, b) && data != []
    requires Write(cfg, b, data).code == NotEnough
    ensures Valid(cfg, Write(cfg, b, data).b)
    ensures Write(cfg, b, data).b == b <==> NodeLen(cfg, |data|) > Wrap(cfg.capacity - b.size)
    ensures Booked(b) ==> (Booked(Write(cfg, b, data).b) <==> Write(cfg, b, data).b == b)
  {
    if NodeLen(cfg, |data|) <= Wrap(cfg.capacity - b.size) {
      var room := b.nodes[|b.nodes| - 1].RemainSpace();
      var b' := Write(cfg, b, data).b;
      PutTailValid(cfg, b, data[..room]);
      var t, t' := b.nodes[|b.nodes| - 1], b'.nodes[|b.nodes| - 1];
      assert t'.len == t.len + room;
      TotalUpdateLast(b.nodes, t');
    }
  }

  lemma TotalUpdateLast(ns: seq<Node>, n: Node)
    requires ns != []
    ensures Total(ns[|ns| - 1 := n]) == Total(ns) - ns[|ns| - 1].len + n.len
  {
    var k := |ns| - 1;
    assert ns == ns[..k] + [ns[k]] && ns[k := n] == ns[..k] + [n];
    TotalAppend(ns[..k], ns[k]);
    TotalAppend(ns[..k], n);
  }

  /** As written, a write that passes the space check and reaches a tail with space, accepted or refused late: of the
      string the first n bytes, as many as there is space for, go over the oldest live bytes and what is behind them;
      the rest of the array stays, and so does what is not counted. So the next n bytes on the wire are these. */
  lemma SourceWriteOverlays(cfg: Config, b: Buf, data: seq<byte>)
    requires !cfg.fixed && Valid(cfg, b) && b.nodes != [] && data != []
    requires NodeLen(cfg, |data|) <= Wrap(cfg.capacity - b.size) && b.nodes[0].RemainSpace() > 0
    ensures var t, r := b.nodes[0], Write(cfg, b, data);
            var n := Min(|data|, t.RemainSpace());
            && r.code == (if n == |data| then Ok else NotEnough)
            && r.b.nodes == [t.(len := t.len + n)] && |r.b.mem| == |b.mem|
            && (forall i :: 0 <= i < n ==> r.b.mem[t.Start() + i] == data[i])
            && (forall i :: 0 <= i < |b.mem| && !(t.Start() <= i < t.Start() + n) ==> r.b.mem[i] == b.mem[i])
            && r.b.size == (if n == |data| then Wrap(b.size + |data|) else b.size) && r.b.num == b.num
    ensures var t, r := b.nodes[0], Write(cfg, b, data);
            var n := Min(|data|, t.RemainSpace());
            && Valid(cfg, r.b)
            && Bytes(r.b.nodes, r.b.mem) == data[..n] + b.mem[t.Start() + n..t.Start() + n + t.len]
  {
    hide Write, Wrap, Valid, Bytes, Overlay, PutTail;
    var t := b.nodes[0];
    var n := Min(|data|, t.RemainSpace());
    OneAtMost(cfg, b);
    WritesFront(cfg, b, data, n);
    OverlayAt(b.mem, t.Start(), data[..n], t.len);
    OverlaidBytes(cfg, b, data[..n]);
    RecountedValid(cfg, PutTail(cfg, b, data[..n]), Write(cfg, b, data).b.size);
  }

  lemma RecountedValid(cfg: Config, b: Buf, size: nat)
    requires Valid(cfg, b)
    ensures Valid(cfg, b.(size := size))
  {
  }

  lemma OneAtMost(cfg: Config, b: Buf)
    requires !cfg.fixed && Valid(cfg, b) && b.nodes != []
    ensures b.nodes == [b.nodes[0]] && b.nodes[0].Ok() && b.nodes[0].End() <= |b.mem|
  {
  }

  /** That is, the front of the string is copied to the start of the tail. */
  lemma WritesFront(cfg: Config, b: Buf, data: seq<byte>, n: nat)
    requires !cfg.fixed && Valid(cfg, b) && b.nodes != [] && data != []
    requires NodeLen(cfg, |data|) <= Wrap(cfg.capacity - b.size) && b.nodes[0].RemainSpace() > 0
    requires n == Min(|data|, b.nodes[0].RemainSpace())
    ensures var r := Write(cfg, b, data);
            && r.b == PutTail(cfg, b, data[..n]).(size := if n == |data| then Wrap(b.size + |data|) else b.size)
            && r.code == if n == |data| then Ok else NotEnough
  {
    hide Wrap, Valid, PutTail, WriteMore, WriteFirst, NodeLen;
    OneAtMost(cfg, b);
    assert b.nodes[|b.nodes| - 1] == b.nodes[0];
    if n == |data| {
      assert data[..n] == data;
    } else {
      SpillsFront(cfg, b, data);
    }
  }

  lemma SpillsFront(cfg: Config, b: Buf, data: seq<byte>)
    requires !cfg.fixed && Valid(cfg, b) && b.nodes != [] && 0 < b.nodes[|b.nodes| - 1].RemainSpace() < |data|
    ensures var n := b.nodes[|b.nodes| - 1].RemainSpace();
            WriteMore(cfg, b, data) == WriteResult(PutTail(cfg, b, data[..n]).(size := b.size), NotEnough)
  {
    hide Valid, Overlay;
  }

  lemma OverlaidBytes(cfg: Config, b: Buf, data: seq<byte>)
    requires !cfg.fixed && Valid(cfg, b) && b.nodes != [] && |data| <= b.nodes[0].RemainSpace()
    ensures var t, b' := b.nodes[0], PutTail(cfg, b, data);
            && Valid(cfg, b') && b'.nodes == [t.(len := t.len + |data|)]
            && b'.mem == Overlay(b.mem, t.Start(), data) && b'.num == b.num
            && Bytes(b'.nodes, b'.mem) == Overlay(b.mem, t.Start(), data)[t.Start()..t.Start() + t.len + |data|]
  {
    hide Layout, Bytes, Overlay;
    OneAtMost(cfg, b);
    PutTailValid(cfg, b, data);
    var b' := PutTail(cfg, b, data);
    assert b'.nodes == [b.nodes[0].(len := b.nodes[0].len + |data|)];
    BytesOne(b'.nodes[0], b'.mem);
  }

  lemma OverlayAt(mem: seq<byte>, at: nat, data: seq<byte>, more: nat)
    requires at + |data| + more <= |mem|
    ensures forall i :: 0 <= i < |data| ==> Overlay(mem, at, data)[at + i] == data[i]
    ensures forall i :: 0 <= i < |mem| && !(at <= i < at + |data|) ==> Overlay(mem, at, data)[i] == mem[i]
    ensures Overlay(mem, at, data)[at..at + more + |data|] == data + mem[at + |data|..at + |data| + more]
  {
  }

  /** Repaired, with the counters right: a write is refused exactly if its node is longer than what neither bytes nor
      headers take up, less the headers, or the tail has too little space and there is no place for the rest. */
  lemma RepairedRefusesIff(cfg: Config, b: Buf, data: seq<byte>)
    requires cfg.fixed && Valid(cfg, b) && Booked(b) && data != [] && cfg.capacity < WORD
    ensures Write(cfg, b, data).code == NotEnough <==>
            || NodeLen(cfg, |data|) > cfg.capacity - Total(b.nodes)
            || (b.nodes != [] && b.nodes[|b.nodes| - 1].RemainSpace() < |data| &&
                Next(true, b.nodes, NodeLen(cfg, |data| - b.nodes[|b.nodes| - 1].RemainSpace()), cfg.capacity).None?)
  {
    hide Layout, Next, WriteOver, PutTail;
    SpaceNeverUnderflows(b.nodes, cfg.capacity);
    WrapSmall(cfg.capacity - b.size);
    hide Wrap;
    if b.nodes != [] {
      assert b.nodes[|b.nodes| - 1].Ok();
    }
  }

  /** Arena safety of writing: the chain stays laid out in ring order, and as written at one node, at the start of the
      array; no node without bytes appears. */
  lemma WriteKeepsValid(cfg: Config, b: Buf, data: seq<byte>)
    requires Valid(cfg, b) && data != []
    ensures Valid(cfg, Write(cfg, b, data).b)
    ensures AllLive(b.nodes) ==> AllLive(Write(cfg, b, data).b.nodes)
  {
    if NodeLen(cfg, |data|) <= Wrap(cfg.capacity - b.size) {
      if b.nodes == [] {
        if NodeLen(cfg, |data|) <= cfg.capacity {
          PushNodeValid(cfg, b, NodeLen(cfg, |data|));
          PutTailValid(cfg, PushNode(b, 0, NodeLen(cfg, |data|)), data);
        }
      } else {
        var room := b.nodes[|b.nodes| - 1].RemainSpace();
        if room >= |data| {
          PutTailValid(cfg, b, data);
        } else if !cfg.fixed {
          PutTailValid(cfg, b, data[..room]);
        } else {
          WriteMoreKeepsValid(cfg, b, data);
        }
      }
    }
  }

  lemma WriteMoreKeepsValid(cfg: Config, b: Buf, data: seq<byte>)
    requires cfg.fixed && Valid(cfg, b) && b.nodes != []
    requires b.nodes[|b.nodes| - 1].RemainSpace() < |data|
    ensures Valid(cfg, WriteMore(cfg, b, data).b)
    ensures AllLive(b.nodes) ==> AllLive(WriteMore(cfg, b, data).b.nodes)
  {
    var room := b.nodes[|b.nodes| - 1].RemainSpace();
    var restLen := NodeLen(cfg, |data| - room);
    var place := Next(true, b.nodes, restLen, cfg.capacity);
    if place.Some? {
      PutTailPlace(cfg, b, data[..room], restLen);
      PutTailValid(cfg, PushNode(PutTail(cfg, b, data[..room]), place.value, restLen), data[room..]);
    }
  }

  // ---------- SendAtMost ----------

  /** What send() answers: `Accept(k)` takes at most k of the bytes offered. */
  datatype SendOutcome = Accept(k: nat) | SendWouldBlock | SendInterrupted | SendFailed

  datatype SendResult = SendResult(b: Buf, sent: seq<byte>, failed: bool)

  /** The head gives up its first k live bytes, and leaves the chain when it holds no more. */
  function Advance(b: Buf, k: nat): Buf
    requires b.nodes != [] && k <= b.nodes[0].len
  {
    var n := b.nodes[0];
    var n' := n.(off := n.off + k, len := n.len - k);
    if n'.len == 0 then
      Buf(b.nodes[1..], b.mem, Wrap(b.size - k), b.num - 1)
    else
      Buf(b.nodes[0 := n'], b.mem, Wrap(b.size - k), b.num)
  }

  lemma SplitInFirst(x: seq<byte>, y: seq<byte>, k: nat)
    requires k <= |x|
    ensures (x + y)[..k] == x[..k] && (x + y)[k..] == x[k..] + y
  {
  }

  lemma AdvanceValid(cfg: Config, b: Buf, k: nat)
    requires Valid(cfg, b) && b.nodes != [] && k <= b.nodes[0].len
    ensures Valid(cfg, Advance(b, k))
    ensures AllLive(b.nodes) ==> AllLive(Advance(b, k).nodes)
  {
    if k == b.nodes[0].len {
      LayoutTail(b.nodes, cfg.capacity);
    } else {
      LayoutUpdate(b.nodes, cfg.capacity, 0, Advance(b, k).nodes[0]);
    }
  }

  lemma AdvanceSplits(cfg: Config, b: Buf, k: nat)
    requires Valid(cfg, b) && b.nodes != [] && k <= b.nodes[0].len
    ensures Valid(cfg, Advance(b, k)) && k <= Total(b.nodes)
    ensures AllLive(b.nodes) ==> AllLive(Advance(b, k).nodes)
    ensures Bytes(b.nodes, b.mem)[..k] == Live(b.nodes[0], b.mem)[..k]
    ensures Bytes(Advance(b, k).nodes, b.mem) == Bytes(b.nodes, b.mem)[k..]
  {
    AdvanceValid(cfg, b, k);
    var n, ns' := b.nodes[0], Advance(b, k).nodes;
    SplitInFirst(Live(n, b.mem), Bytes(b.nodes[1..], b.mem), k);
    if k < n.len {
      assert ns'[1..] == b.nodes[1..];
      assert Live(ns'[0], b.mem) == Live(n, b.mem)[k..];
    }
  }

  /** EdnBuffer::SendAtMost against a socket that answers `script` and then would block. */
  function Send(cfg: Config, b: Buf, script: seq<SendOutcome>): SendResult
    requires Valid(cfg, b) && AllLive(b.nodes)
    decreases |script|
  {
    if b.nodes == [] || script == [] then SendResult(b, [], false)
    else match script[0]
      case SendWouldBlock => SendResult(b, [], false)
      case SendFailed => SendResult(b, [], true)
      case SendInterrupted => Send(cfg, b, script[1..])
      case Accept(k) =>
        var taken := Min(k, b.nodes[0].len);
        AdvanceSplits(cfg, b, taken);
        var r := Send(cfg, Advance(b, taken), script[1..]);
        r.(sent := Live(b.nodes[0], b.mem)[..taken] + r.sent)
  }

  /** `full` is what the loop will have done in the end, seen from a turn at which it stands at b, has sent `sent` and
      faces `todo`. */
  ghost predicate SendRest(cfg: Config, b: Buf, todo: seq<SendOutcome>, sent: seq<byte>, full: SendResult) {
    && Valid(cfg, b) && AllLive(b.nodes)
    && var r := Send(cfg, b, todo);
       full == SendResult(r.b, sent + r.sent, r.failed)
  }

  /** One turn of the loop of SendAtMost. */
  lemma SendStep(cfg: Config, b: Buf, todo: seq<SendOutcome>, sent: seq<byte>, full: SendResult)
    requires SendRest(cfg, b, todo, sent, full) && b.nodes != [] && todo != []
    ensures match todo[0]
            case SendWouldBlock => full == SendResult(b, sent, false)
            case SendFailed => full == SendResult(b, sent, true)
            case SendInterrupted => SendRest(cfg, b, todo[1..], sent, full)
            case Accept(k) =>
              var taken := Min(k, b.nodes[0].len);
              SendRest(cfg, Advance(b, taken), todo[1..], sent + Live(b.nodes[0], b.mem)[..taken], full)
  {
    hide Layout;
    if todo[0].Accept? {
      var taken := Min(todo[0].k, b.nodes[0].len);
      AdvanceSplits(cfg, b, taken);
      Associative(sent, Live(b.nodes[0], b.mem)[..taken], Send(cfg, Advance(b, taken), todo[1..]).sent);
    }
  }

  /** Sending takes a prefix of the contents and nothing else, however the socket behaves, for every chain. */
  lemma {:induction false} SendTakesPrefix(cfg: Config, b: Buf, script: seq<SendOutcome>)
    requires Valid(cfg, b) && AllLive(b.nodes)
    ensures var r := Send(cfg, b, script);
            && Valid(cfg, r.b) && AllLive(r.b.nodes)
            && r.sent + Bytes(r.b.nodes, r.b.mem) == Bytes(b.nodes, b.mem)
    decreases |script|
  {
    hide Layout, Bytes;
    if b.nodes != [] && script != [] {
      match script[0]
      case SendInterrupted => SendTakesPrefix(cfg, b, script[1..]);
      case Accept(k) =>
        var taken := Min(k, b.nodes[0].len);
        AdvanceSplits(cfg, b, taken);
        var b1 := Advance(b, taken);
        SendTakesPrefix(cfg, b1, script[1..]);
        var r := Send(cfg, b1, script[1..]);
        Rejoin(Bytes(b.nodes, b.mem), taken, r.sent, Bytes(r.b.nodes, r.b.mem));
      case _ =>
    }
  }

  lemma Rejoin(all: seq<byte>, k: nat, sent: seq<byte>, rest: seq<byte>)
    requires k <= |all| && sent + rest == all[k..]
    ensures all[..k] + sent + rest == all
  {
    Associative(all[..k], sent, rest);
  }

  /** A socket that only takes bytes takes as many as it wants of the first node, and no more at a time. */
  lemma SendOnce(cfg: Config, b: Buf, k: nat)
    requires Valid(cfg, b) && AllLive(b.nodes) && b.nodes != []
    ensures var r, n := Send(cfg, b, [Accept(k)]), Min(k, b.nodes[0].len);
            && n <= Total(b.nodes) && r.sent == Bytes(b.nodes, b.mem)[..n] && !r.failed
            && Valid(cfg, r.b) && Bytes(r.b.nodes, r.b.mem) == Bytes(b.nodes, b.mem)[n..]
  {
    hide Layout, Live, Bytes;
    var script := [Accept(k)];
    var taken := Min(k, b.nodes[0].len);
    AdvanceSplits(cfg, b, taken);
    assert script[1..] == [] && Live(b.nodes[0], b.mem)[..taken] + [] == Live(b.nodes[0], b.mem)[..taken];
    assert Send(cfg, Advance(b, taken), script[1..]) == SendResult(Advance(b, taken), [], false);
  }

  /** The socket goes on: it neither would block nor fails. */
  predicate GoesOn(script: seq<SendOutcome>) {
    forall j :: 0 <= j < |script| ==> script[j] != SendWouldBlock && script[j] != SendFailed
  }

  /** One turn of the loop at which the socket takes bytes. */
  lemma SendTakes(cfg: Config, b: Buf, script: seq<SendOutcome>)
    requires Valid(cfg, b) && AllLive(b.nodes) && b.nodes != [] && script != [] && script[0].Accept?
    ensures var taken := Min(script[0].k, b.nodes[0].len);
            && Valid(cfg, Advance(b, taken)) && AllLive(Advance(b, taken).nodes) && taken <= Total(b.nodes)
            && InMem(b.nodes, b.mem)
            && var r := Send(cfg, Advance(b, taken), script[1..]);
               Send(cfg, b, script) == r.(sent := Bytes(b.nodes, b.mem)[..taken] + r.sent)
  {
    hide Layout, Live, Bytes, Advance;
    AdvanceSplits(cfg, b, Min(script[0].k, b.nodes[0].len));
  }

  /** While the socket goes on, what it does next is done to what is left. */
  lemma {:induction false} SendJoins(cfg: Config, b: Buf, xs: seq<SendOutcome>, ys: seq<SendOutcome>)
    requires Valid(cfg, b) && AllLive(b.nodes) && GoesOn(xs)
    ensures var r := Send(cfg, b, xs);
            && Valid(cfg, r.b) && AllLive(r.b.nodes) && !r.failed
            && var s := Send(cfg, r.b, ys);
               Send(cfg, b, xs + ys) == SendResult(s.b, r.sent + s.sent, s.failed)
    decreases |xs|
  {
    hide Layout, Bytes, Live, Advance, Valid;
    SendTakesPrefix(cfg, b, xs);
    if b.nodes == [] {
      assert Send(cfg, b, xs) == Send(cfg, b, ys) == Send(cfg, b, xs + ys) == SendResult(b, [], false);
    } else if xs == [] {
      assert xs + ys == ys && [] + Send(cfg, b, ys).sent == Send(cfg, b, ys).sent;
    } else {
      assert (xs + ys)[1..] == xs[1..] + ys;
      if xs[0].SendInterrupted? {
        SendJoins(cfg, b, xs[1..], ys);
      } else {
        var taken := Min(xs[0].k, b.nodes[0].len);
        SendTakes(cfg, b, xs);
        SendTakes(cfg, b, xs + ys);
        hide Send;
        SendJoins(cfg, Advance(b, taken), xs[1..], ys);
        var r := Send(cfg, Advance(b, taken), xs[1..]);
        Associative(Bytes(b.nodes, b.mem)[..taken], r.sent, Send(cfg, r.b, ys).sent);
      }
    }
  }

  /** The socket fails at i, has neither failed nor blocked before, and has not taken all by then. */
  ghost predicate FailsAt(cfg: Config, b: Buf, script: seq<SendOutcome>, i: nat)
    requires Valid(cfg, b) && AllLive(b.nodes)
  {
    && i < |script| && script[i] == SendFailed && GoesOn(script[..i])
    && |Send(cfg, b, script[..i]).sent| < Total(b.nodes)
  }

  ghost predicate FailsMidway(cfg: Config, b: Buf, script: seq<SendOutcome>)
    requires Valid(cfg, b) && AllLive(b.nodes)
  {
    exists i :: FailsAt(cfg, b, script, i)
  }

  /** SendAtMost fails exactly if the socket does so while there are bytes left and before it would block; otherwise it
      has sent what is gone from the chain. */
  lemma SendFailsIff(cfg: Config, b: Buf, script: seq<SendOutcome>)
    requires Valid(cfg, b) && AllLive(b.nodes)
    ensures var r := Send(cfg, b, script);
            && Valid(cfg, r.b) && |r.sent| == |Bytes(b.nodes, b.mem)| - |Bytes(r.b.nodes, r.b.mem)|
            && (r.failed <==> FailsMidway(cfg, b, script))
  {
    hide Send, Bytes, Layout, Total, Valid;
    SendTakesPrefix(cfg, b, script);
    forall i: nat | FailsAt(cfg, b, script, i)
      ensures Send(cfg, b, script).failed
    {
      SendStopsAt(cfg, b, script, i);
    }
    if !GoesOn(script) {
      var i := FirstStop(script);
      SendStopsAt(cfg, b, script, i);
      assert FailsAt(cfg, b, script, i) <==> Send(cfg, b, script).failed;
    } else {
      SendJoins(cfg, b, script, []);
      assert script + [] == script;
      SendNothing(cfg, Send(cfg, b, script).b);
    }
  }

  lemma SendNothing(cfg: Config, b: Buf)
    requires Valid(cfg, b) && AllLive(b.nodes)
    ensures Send(cfg, b, []) == SendResult(b, [], false)
  {
  }

  /** Where the socket blocks or fails first. */
  lemma FirstStop(script: seq<SendOutcome>) returns (i: nat)
    requires !GoesOn(script)
    ensures i < |script| && script[i] in {SendWouldBlock, SendFailed} && GoesOn(script[..i])
    decreases |script|
  {
    if script[0] in {SendWouldBlock, SendFailed} {
      i := 0;
    } else {
      i := FirstStop(script[1..]);
      i := i + 1;
      assert forall j :: 0 <= j < i ==> script[..i][j] == if j == 0 then script[0] else script[1..][..i - 1][j - 1];
    }
  }

  lemma WentOn(script: seq<SendOutcome>, i: nat, j: nat)
    requires j < i <= |script| && GoesOn(script[..i])
    ensures script[j] != SendWouldBlock && script[j] != SendFailed
  {
    assert script[..i][j] == script[j];
  }

  lemma SendStopsAt(cfg: Config, b: Buf, script: seq<SendOutcome>, i: nat)
    requires Valid(cfg, b) && AllLive(b.nodes)
    requires i < |script| && script[i] in {SendWouldBlock, SendFailed} && GoesOn(script[..i])
    ensures Send(cfg, b, script).failed <==>
            script[i] == SendFailed && |Send(cfg, b, script[..i]).sent| < Total(b.nodes)
    ensures forall j :: FailsAt(cfg, b, script, j) ==> j == i
  {
    hide Bytes, Layout;
    var xs, ys := script[..i], script[i..];
    assert script == xs + ys && ys[0] == script[i];
    SendJoins(cfg, b, xs, ys);
    SendTakesPrefix(cfg, b, xs);
    var r := Send(cfg, b, xs);
    assert |Bytes(r.b.nodes, r.b.mem)| == Total(r.b.nodes);
    assert r.b.nodes != [] ==> Total(r.b.nodes) >= r.b.nodes[0].len > 0;
    hide Send;
    forall j: nat | FailsAt(cfg, b, script, j)
      ensures j == i
    {
      if j < i {
        WentOn(script, i, j);
      } else if i < j {
        WentOn(script, j, i);
      }
    }
  }

  /** The bytes a script asks for. */
  function Asked(script: seq<SendOutcome>): nat {
    if script == [] then 0 else (if script[0].Accept? then script[0].k else 0) + Asked(script[1..])
  }

  /** With one node at most, as the code as written has it, a socket that goes on takes what it asks for as far as it is
      there; so there failing midway means that it asked for less than there was. */
  lemma {:induction false} SentOfOneNode(cfg: Config, b: Buf, script: seq<SendOutcome>)
    requires Valid(cfg, b) && AllLive(b.nodes) && |b.nodes| <= 1 && GoesOn(script)
    ensures |Send(cfg, b, script).sent| == Min(Asked(script), Total(b.nodes))
    decreases |script|
  {
    hide Layout, Bytes, Live;
    if b.nodes != [] {
      TotalOne(b.nodes[0]);
      assert b.nodes == [b.nodes[0]];
    }
    if script != [] && b.nodes != [] {
      if script[0].SendInterrupted? {
        SentOfOneNode(cfg, b, script[1..]);
      } else {
        var taken := Min(script[0].k, b.nodes[0].len);
        AdvanceSplits(cfg, b, taken);
        var b1 := Advance(b, taken);
        if b1.nodes != [] {
          TotalOne(b1.nodes[0]);
        }
        SentOfOneNode(cfg, b1, script[1..]);
      }
    }
  }

  /** Sending keeps both counters right. */
  lemma {:induction false} SendKeepsBooks(cfg: Config, b: Buf, script: seq<SendOutcome>)
    requires Valid(cfg, b) && AllLive(b.nodes) && Booked(b) && cfg.capacity < WORD
    ensures Booked(Send(cfg, b, script).b)
    decreases |script|
  {
    hide Layout, InMem;
    if b.nodes != [] && script != [] {
      match script[0]
      case SendInterrupted => SendKeepsBooks(cfg, b, script[1..]);
      case Accept(k) =>
        var taken := Min(k, b.nodes[0].len);
        AdvanceSplits(cfg, b, taken);
        SpaceNeverUnderflows(b.nodes, cfg.capacity);
        assert |Bytes(Advance(b, taken).nodes, b.mem)| == Total(b.nodes) - taken;
        SendKeepsBooks(cfg, Advance(b, taken), script[1..]);
      case _ =>
    }
  }

  // ---------- size_ modulo 2^64 ----------

  lemma WrapSmall(x: int)
    requires 0 <= x + WORD && x < WORD
    ensures Wrap(x) == if x < 0 then x + WORD else x
  {
    if x < 0 {
      assert Wrap(x) == Wrap(x + WORD);
    }
  }

  lemma {:induction false} WrapPeriod(x: int)
    ensures Wrap(x + WORD) == Wrap(x)
  {
  }

  lemma {:induction false} WrapShift(x: int, k: int)
    ensures Wrap(Wrap(x) + k) == Wrap(x + k)
    decreases if x < 0 then WORD - x else x
  {
    if x < 0 {
      WrapShift(x + WORD, k);
      WrapPeriod(x + k);
    } else if x >= WORD {
      WrapShift(x - WORD, k);
      WrapPeriod(x + k - WORD);
    }
  }

  /** size_ is off by d from the bytes in the chain. */
  ghost predicate Off(b: Buf, d: int) {
    b.size == Wrap(Total(b.nodes) + d)
  }

  lemma NoNodes(b: Buf)
    ensures b.nodes == [] ==> Total(b.nodes) == 0
  {
  }

  lemma TotalOne(n: Node)
    ensures Total([n]) == n.len
  {
    assert [n][1..] == [];
  }
}
