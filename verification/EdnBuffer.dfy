/** EdnBuffer itself: nodes linked through next and prev over one byte array, changed in place. Every method is proved
to do what its function in BufferSpec or RecvSpec says. */
module EdnBuffers {
  import opened EdnDefine
  import opened Arena
  import opened BufferSpec
  import opened Framing
  import opened RecvSpec
  import opened BufferRuns
  import opened RecvEnds
  import opened SourceInput
  import SourceOutput

  class BufferNode {
    const pos: nat
    var capacity: nat
    var len: nat
    var offset: nat
    var next: BufferNode?
    var prev: BufferNode?

    function View(): Node
      reads this
    {
      Node(pos, capacity, offset, len)
    }

    /** BufferNode::Init at address `pos`. The original leaves next and prev as it finds them; here they are null, in
        the form as written too. */
    constructor Init(pos: nat, nodeLen: nat)
      requires HEADER <= nodeLen
      ensures View() == Node(pos, nodeLen - HEADER, 0, 0) && next == null && prev == null
    {
      this.pos := pos;
      capacity, len, offset := nodeLen - HEADER, 0, 0;
      next, prev := null, null;
    }
  }

  /** memcpy of `data` to offset `at` of the array. */
  method CopyTo(a: array<byte>, at: nat, data: seq<byte>)
    requires at + |data| <= a.Length
    modifies a
    ensures a[..] == Overlay(old(a[..]), at, data)
  {
    for i := 0 to |data|
      invariant forall j :: 0 <= j < i ==> a[at + j] == data[j]
      invariant forall j :: 0 <= j < a.Length && !(at <= j < at + i) ==> a[j] == old(a[j])
    {
      a[at + i] := data[i];
    }
  }

  ghost function Views(c: seq<BufferNode>): seq<Node>
    reads c
  {
    seq(|c|, i requires 0 <= i < |c| reads c => c[i].View())
  }

  ghost function After(c: seq<BufferNode>, i: nat): BufferNode? {
    if i + 1 < |c| then c[i + 1] else null
  }

  ghost function Before(c: seq<BufferNode>, i: nat): BufferNode? {
    if 0 < i <= |c| then c[i - 1] else null
  }

  /** The links run from head to tail and back, and no node is linked twice. */
  ghost predicate Linked(c: seq<BufferNode>, head: BufferNode?, tail: BufferNode?)
    reads c
  {
    && (if c == [] then head == null && tail == null else head == c[0] && tail == c[|c| - 1])
    && (forall i :: 0 <= i < |c| ==> c[i].next == After(c, i) && c[i].prev == Before(c, i))
    && (forall i, j :: 0 <= i < j < |c| ==> c[i] != c[j])
  }

  lemma ViewsTail(c: seq<BufferNode>)
    requires c != []
    ensures Views(c) != [] && Views(c)[0] == c[0].View() && Views(c[1..]) == Views(c)[1..]
    ensures Total(Views(c)) == c[0].len + Total(Views(c[1..]))
  {
  }

  twostate lemma ViewsKept(c: seq<BufferNode>)
    requires forall n :: n in c ==> n.View() == old(n.View())
    ensures Views(c) == old(Views(c))
  {
    forall i | 0 <= i < |c|
      ensures Views(c)[i] == old(Views(c))[i]
    {
      assert c[i] in c;
    }
  }

  /** Each node's next is the one behind it. */
  ghost predicate Forward(c: seq<BufferNode>)
    reads c`next
  {
    forall i :: 0 <= i < |c| ==> c[i].next == After(c, i)
  }

  lemma ForwardStep(c: seq<BufferNode>)
    requires Forward(c) && c != []
    ensures c[0].next == First(c[1..]) && Forward(c[1..])
  {
    assert c[0].next == After(c, 0);
    forall i | 0 <= i < |c[1..]|
      ensures c[1..][i].next == After(c[1..], i)
    {
      assert c[1..][i] == c[i + 1] && c[i + 1].next == After(c, i + 1);
    }
  }

  ghost function First(c: seq<BufferNode>): BufferNode? {
    if c == [] then null else c[0]
  }

  ghost predicate IsSuffix(c: seq<BufferNode>, whole: seq<BufferNode>) {
    |c| <= |whole| && c == whole[|whole| - |c|..]
  }

  lemma SuffixOfSuffix(c: seq<BufferNode>, d: seq<BufferNode>, whole: seq<BufferNode>)
    requires IsSuffix(c, whole) && IsSuffix(d, whole) && |c| <= |d|
    ensures IsSuffix(c, d)
  {
  }

  lemma SuffixTrans(c: seq<BufferNode>, d: seq<BufferNode>, whole: seq<BufferNode>)
    requires IsSuffix(c, d) && IsSuffix(d, whole)
    ensures IsSuffix(c, whole)
  {
  }

  lemma SuffixViews(c: seq<BufferNode>, whole: seq<BufferNode>)
    requires IsSuffix(c, whole)
    ensures |Views(c)| == |c| && |Views(whole)| == |whole| && Views(c) == Views(whole)[|whole| - |c|..]
  {
  }

  lemma SuffixStep(c: seq<BufferNode>, whole: seq<BufferNode>)
    requires IsSuffix(c, whole) && c != []
    ensures IsSuffix(c[1..], whole)
    ensures forall n :: n in c ==> n in whole
  {
  }

  lemma ViewsAppend(c: seq<BufferNode>, n: BufferNode)
    ensures Views(c + [n]) == Views(c) + [n.View()]
  {
  }

  lemma SecondNode(c: seq<BufferNode>, head: BufferNode?, tail: BufferNode?)
    requires Linked(c, head, tail) && c != []
    ensures head == c[0] && c[0].next == (if |c| > 1 then c[1] else null) && tail == c[|c| - 1]
  {
    assert c[0].next == After(c, 0);
  }

  lemma AppendLinks(c: seq<BufferNode>, n: BufferNode, i: nat)
    requires i <= |c|
    ensures After(c + [n], i) == if i + 1 < |c| then After(c, i) else if i + 1 == |c| then n else null
    ensures Before(c + [n], i) == if i < |c| then Before(c, i) else if c == [] then null else c[|c| - 1]
  {
  }

  lemma TailLinks(c: seq<BufferNode>, i: nat)
    requires i + 1 < |c|
    ensures c[1..][i] == c[i + 1]
    ensures After(c[1..], i) == After(c, i + 1)
    ensures Before(c[1..], i) == if i == 0 then null else Before(c, i + 1)
  {
  }

  /** A chain that is laid out for the code as written is laid out for the repaired one. */
  lemma AnyForm(cfg: Config, fixed: bool, b: Buf)
    requires Valid(cfg, b) && (cfg.fixed ==> fixed)
    ensures Valid(cfg.(fixed := fixed), b)
    ensures b.nodes != [] ==> b.nodes[|b.nodes| - 1].Ok() && b.nodes[|b.nodes| - 1].End() <= |b.mem|
  {
  }

  class EdnBuffer {
    const cfg: Config
    const buffer: array<byte>
    var size: nat
    var num: int
    var head: BufferNode?
    var tail: BufferNode?
    /** The calls of the data handler so far. */
    var log: seq<Call>
    ghost var chain: seq<BufferNode>

    ghost function State(): Buf
      reads this, chain, buffer
    {
      Buf(Views(chain), buffer[..], size, num)
    }

    ghost predicate Ready()
      reads this, chain, buffer
    {
      Linked(chain, head, tail) && buffer.Length == cfg.capacity && Valid(cfg, State())
    }

    constructor (cfg: Config)
      ensures Ready() && Booked(State()) && State().nodes == [] && log == []
      ensures this.cfg == cfg && fresh(buffer)
    {
      this.cfg := cfg;
      buffer := new byte[cfg.capacity];
      size, num := 0, 0;
      head, tail := null, null;
      log := [];
      chain := [];
    }

    /** BufferNode::Write on the tail: behind its live bytes, or onto them. */
    method WriteTail(behind: bool, data: seq<byte>)
      requires Ready() && chain != [] && (cfg.fixed ==> behind)
      requires |data| <= tail.View().RemainSpace()
      modifies buffer, tail`len
      ensures chain == old(chain) && Linked(chain, head, tail)
      ensures Valid(cfg.(fixed := behind), old(State())) && old(State()).nodes[|chain| - 1] == old(tail.View())
      ensures State() == PutTail(cfg.(fixed := behind), old(State()), data)
      ensures cfg.fixed == behind ==> State() == PutTail(cfg, old(State()), data)
    {
      hide Layout, Linked, Views, Valid, Overlay;
      AtTail();
      AnyForm(cfg, behind, State());
      CopyTo(buffer, WriteAt(behind, tail.View()), data);
      AtTail();
      AddToTail(|data|);
      assert cfg.fixed == behind ==> cfg.(fixed := behind) == cfg;
    }

    /** The tail counts n more bytes. */
    method AddToTail(n: nat)
      requires Linked(chain, head, tail) && chain != []
      modifies tail`len
      ensures chain == old(chain) && Linked(chain, head, tail)
      ensures |old(Views(chain))| == |chain|
      ensures Views(chain) == old(Views(chain))[|chain| - 1 := old(tail.View()).(len := old(tail.len) + n)]
    {
      ghost var k, views := |chain| - 1, Views(chain);
      tail.len := tail.len + n;
      assert forall i {:trigger chain[i]} :: 0 <= i <= k ==>
        chain[i].next == old(chain[i].next) && chain[i].prev == old(chain[i].prev);
      assert Views(chain) == views[k := views[k].(len := views[k].len + n)];
    }

    /** Init of a node at `pos` and its link behind the tail. */
    method Link(pos: nat, nodeLen: nat)
      requires Linked(chain, head, tail) && HEADER <= nodeLen
      modifies this`head, this`tail, this`chain, tail
      ensures Linked(chain, head, tail) && |chain| == |old(chain)| + 1
      ensures tail != null && fresh(tail) && forall n :: n in chain ==> n in old(chain) || fresh(n)
      ensures State() == PushNode(old(State()), pos, nodeLen)
    {
      hide After, Before, Views;
      ghost var was := chain;
      var node := new BufferNode.Init(pos, nodeLen);
      if tail == null {
        head := node;
      } else {
        tail.next := node;
        node.prev := tail;
      }
      tail := node;
      chain := chain + [node];
      ViewsKept(was);
      ViewsAppend(was, node);
      forall i | 0 <= i < |chain|
        ensures chain[i].next == After(chain, i) && chain[i].prev == Before(chain, i)
      {
        AppendLinks(was, node, i);
        if i < |was| {
          assert chain[i] == was[i] && was[i] != node;
        }
      }
    }

    /** EdnBuffer::__GetNextBufferNode. */
    method GetNextBufferNode(len: nat) returns (place: Option<nat>)
      requires Linked(chain, head, tail)
      ensures place == Next(cfg.fixed, State().nodes, len, cfg.capacity)
    {
      if tail == null {
        return Some(0);
      }
      assert Views(chain)[0] == head.View() && Views(chain)[|chain| - 1] == tail.View();
      var linear := head.pos < tail.pos || (cfg.fixed && head.pos == tail.pos);
      var behind := if cfg.fixed then tail.View().End() else tail.pos + HEADER;
      if linear && tail.View().End() + len <= cfg.capacity {
        place := Some(behind);
      } else if linear && len < head.pos {
        place := Some(0);
      } else if tail.pos < head.pos && tail.View().End() + len <= head.pos {
        place := Some(behind);
      } else {
        place := None;
      }
    }

    /** size_ and buffer_node_num_ alone. */
    method Count(size': nat, num': int)
      requires Linked(chain, head, tail)
      modifies this`size, this`num
      ensures Linked(chain, head, tail)
      ensures State() == old(State()).(size := size', num := num')
    {
      size, num := size', num';
    }

    /** A new node at `pos`, with its first bytes. */
    method WriteNew(pos: nat, nodeLen: nat, data: seq<byte>)
      requires Ready() && HEADER + |data| <= nodeLen && Valid(cfg, PushNode(State(), pos, nodeLen))
      modifies this`head, this`tail, this`chain, tail, buffer
      ensures Linked(chain, head, tail) && |chain| == |old(chain)| + 1
      ensures forall n :: n in chain ==> n in old(chain) || fresh(n)
      ensures State() == PutTail(cfg, PushNode(old(State()), pos, nodeLen), data)
    {
      Link(pos, nodeLen);
      assert State().nodes[|chain| - 1] == tail.View();
      WriteTail(cfg.fixed, data);
    }

    /** The tail takes `front`, a new node behind it `rest`; nothing is counted yet. */
    method Spread(pos: nat, nodeLen: nat, front: seq<byte>, rest: seq<byte>)
      requires Ready() && cfg.fixed && chain != [] && tail.View() == State().nodes[|State().nodes| - 1]
      requires |front| <= tail.View().RemainSpace()
      requires HEADER + |rest| <= nodeLen && Next(true, State().nodes, nodeLen, cfg.capacity) == Some(pos)
      modifies this`head, this`tail, this`chain, tail, buffer
      ensures Linked(chain, head, tail)
      ensures State() == BufferSpec.Spread(cfg, old(State()), pos, nodeLen, front, rest)
      ensures forall n :: n in chain ==> n in old(chain) || fresh(n)
    {
      PutTailPlace(cfg, State(), front, nodeLen);
      WriteTail(true, front);
      WriteNew(pos, nodeLen, rest);
    }

    method WriteOver(pos: nat, nodeLen: nat, front: seq<byte>, rest: seq<byte>)
      requires Ready() && cfg.fixed && chain != [] && tail.View() == State().nodes[|State().nodes| - 1]
      requires |front| <= tail.View().RemainSpace()
      requires HEADER + |rest| <= nodeLen && Next(true, State().nodes, nodeLen, cfg.capacity) == Some(pos)
      modifies this, tail, buffer
      ensures Linked(chain, head, tail) && log == old(log)
      ensures State() == BufferSpec.WriteOver(cfg, old(State()), pos, nodeLen, front, rest)
      ensures forall n :: n in chain ==> n in old(chain) || fresh(n)
    {
      hide PutTail, Valid, Linked, Layout;
      Spread(pos, nodeLen, front, rest);
      Count(Wrap(size + |front| + |rest|), num + 1);
    }

    /** EdnBuffer::Write. Behind an overrun of the array nothing is promised, so that nothing more can be called. */
    method Write(data: seq<byte>) returns (code: Code)
      requires Ready() && data != []
      modifies this, buffer, chain
      ensures code == BufferSpec.Write(cfg, old(State()), data).code
      ensures code != Overrun ==>
                && Ready() && log == old(log)
                && State() == BufferSpec.Write(cfg, old(State()), data).b
                && forall n :: n in chain ==> n in old(chain) || fresh(n)
    {
      hide State, Views, Linked, Valid, PutTail, BufferSpec.WriteMore, BufferSpec.WriteFirst;
      AtTail();
      ghost var before := State();
      WriteKeepsValid(cfg, before, data);
      var nodeLen := NodeLen(cfg, |data|);
      if nodeLen > Wrap(cfg.capacity - size) {
        code := NotEnough;
      } else if tail == null {
        code := WriteFirst(data);
      } else {
        if tail.View().RemainSpace() >= |data| {
          code := WriteInTail(data);
        } else {
          code := WriteMore(data);
        }
      }
    }

    /** The first branch of EdnBuffer::Write. */
    method WriteFirst(data: seq<byte>) returns (code: Code)
      requires Ready() && chain == []
      modifies this, buffer, chain
      ensures Linked(chain, head, tail) && log == old(log)
      ensures WriteResult(State(), code) == BufferSpec.WriteFirst(cfg, old(State()), data)
      ensures forall n :: n in chain ==> n in old(chain) || fresh(n)
    {
      var nodeLen := NodeLen(cfg, |data|);
      if nodeLen > cfg.capacity {
        return Overrun;
      }
      PushNodeValid(cfg, State(), nodeLen);
      WriteNew(0, nodeLen, data);
      Count(Wrap(size + |data|), 1);
      code := Ok;
    }

    /** The second branch: the tail has room. */
    method WriteInTail(data: seq<byte>) returns (code: Code)
      requires Ready() && chain != [] && tail.View() == State().nodes[|State().nodes| - 1]
      requires |data| <= tail.View().RemainSpace()
      modifies this, buffer, chain
      ensures Linked(chain, head, tail) && log == old(log) && chain == old(chain)
      ensures code == Ok && State() == PutTail(cfg, old(State()), data).(size := Wrap(old(size) + |data|))
    {
      WriteTail(cfg.fixed, data);
      Count(Wrap(size + |data|), num);
      code := Ok;
    }

    /** The last branch as written: the tail is filled first, and the second node is never found. */
    method SpillAsWritten(data: seq<byte>, room: nat) returns (code: Code)
      requires Ready() && !cfg.fixed && chain != [] && tail.View() == State().nodes[|State().nodes| - 1]
      requires room == tail.View().RemainSpace() < |data|
      modifies this, buffer, chain
      ensures Linked(chain, head, tail) && log == old(log) && chain == old(chain)
      ensures WriteResult(State(), code) == BufferSpec.WriteMore(cfg, old(State()), data)
    {
      if room == 0 {
        code := Aborted;
      } else {
        WriteTail(false, data[..room]);
        code := NotEnough;
      }
    }

    /** The last branch: the tail and one more node. */
    method WriteMore(data: seq<byte>) returns (code: Code)
      requires Ready() && chain != [] && tail.View() == State().nodes[|State().nodes| - 1]
      requires tail.View().RemainSpace() < |data|
      modifies this, buffer, chain
      ensures Linked(chain, head, tail) && log == old(log)
      ensures WriteResult(State(), code) == BufferSpec.WriteMore(cfg, old(State()), data)
      ensures forall n :: n in chain ==> n in old(chain) || fresh(n)
    {
      hide State, Views, Linked, PutTail, BufferSpec.WriteOver;
      AtTail();
      var room: nat := tail.View().RemainSpace();
      if !cfg.fixed {
        code := SpillAsWritten(data, room);
        return;
      }
      var restLen := NodeLen(cfg, |data| - room);
      var place := GetNextBufferNode(restLen);
      if place.None? {
        return NotEnough;
      }
      WriteOver(place.value, restLen, data[..room], data[room..]);
      code := Ok;
    }

    // ---------- leaving the chain ----------

    lemma AtTail()
      requires Linked(chain, head, tail)
      ensures (tail == null <==> chain == []) && |State().nodes| == |chain|
      ensures chain != [] ==> tail == chain[|chain| - 1] && State().nodes[|chain| - 1] == tail.View()
      ensures State().size == size && State().num == num
    {
    }

    lemma AtHead()
      requires Linked(chain, head, tail)
      ensures (head == null <==> chain == []) && (State().nodes == [] <==> chain == [])
      ensures chain != [] ==> head == chain[0] && State().nodes[0] == head.View()
      ensures State().size == size && State().num == num
    {
    }

    /** The head leaves the chain; its own links stay as they were. */
    method DropHead()
      requires Linked(chain, head, tail) && chain != []
      modifies this`head, this`tail, this`num, this`chain, chain`prev
      ensures Linked(chain, head, tail) && chain == old(chain)[1..]
      ensures State() == old(State()).(nodes := old(State()).nodes[1..], num := old(State()).num - 1)
    {
      hide Layout, Views, Before, After;
      ghost var was := chain;
      SecondNode(was, head, tail);
      head := head.next;
      if head != null {
        head.prev := null;
      } else {
        tail := null;
      }
      num := num - 1;
      chain := chain[1..];
      ViewsKept(was);
      ViewsTail(was);
      forall i | 0 <= i < |chain|
        ensures chain[i].next == After(chain, i) && chain[i].prev == Before(chain, i)
      {
        TailLinks(was, i);
        assert was[i + 1].next == After(was, i + 1);
        if i > 0 {
          assert was[i + 1] != was[1] == head;
          assert was[i + 1].prev == Before(was, i + 1);
        }
      }
    }

    /** The head gives up its first k live bytes but keeps some. */
    method TrimHead(k: nat)
      requires Linked(chain, head, tail) && chain != [] && k <= head.len
      modifies head`offset, head`len
      ensures Linked(chain, head, tail) && old(State()).nodes[0] == old(head.View())
      ensures var n := old(State()).nodes[0];
              State() == old(State()).(nodes := old(State()).nodes[0 := n.(off := n.off + k, len := n.len - k)])
    {
      hide After, Before;
      ghost var nodes := Views(chain);
      assert nodes[0] == head.View();
      head.offset, head.len := head.offset + k, head.len - k;
      assert forall i {:trigger chain[i]} :: 0 <= i < |chain| ==>
        chain[i].next == old(chain[i].next) && chain[i].prev == old(chain[i].prev);
      assert Views(chain) == nodes[0 := nodes[0].(off := nodes[0].off + k, len := nodes[0].len - k)];
    }

    /** One accepted send: move on in the head, and drop it once it is used up. */
    method AdvanceHead(k: nat)
      requires Ready() && chain != [] && k <= head.len
      modifies this, chain`prev, chain`offset, chain`len
      ensures Linked(chain, head, tail) && log == old(log) && (chain == old(chain) || chain == old(chain)[1..])
      ensures old(State()).nodes[0] == old(head.View())
      ensures State() == Advance(old(State()), k)
    {
      hide State, Views, Linked, Valid;
      AtHead();
      if head.len == k {
        Count(Wrap(size - k), num);
        DropHead();
      } else {
        TrimHead(k);
        Count(Wrap(size - k), num);
      }
    }

    /** send() on the head's live bytes, of which the socket takes at most k. */
    method SendSome(k: nat) returns (piece: seq<byte>)
      requires Ready() && AllLive(State().nodes) && chain != []
      modifies this, chain`prev, chain`offset, chain`len
      ensures Ready() && AllLive(State().nodes) && log == old(log)
      ensures chain == old(chain) || chain == old(chain)[1..]
      ensures var b := old(State());
              var taken := Min(k, b.nodes[0].len);
              piece == Live(b.nodes[0], b.mem)[..taken] && State() == Advance(b, taken)
    {
      ghost var before := State();
      assert before.nodes[0] == head.View();
      var taken := Min(k, head.len);
      AdvanceSplits(cfg, before, taken);
      var start := head.View().Start();
      piece := buffer[start..start + taken];
      assert piece == Live(before.nodes[0], before.mem)[..taken];
      AdvanceHead(taken);
    }

    /** The loop of EdnBuffer::SendAtMost. Every node holds bytes here, so the guard on node->len is always met. */
    method SendChain(script: seq<SendOutcome>) returns (failed: bool, sent: seq<byte>)
      requires Ready() && AllLive(State().nodes)
      modifies this, chain`prev, chain`offset, chain`len
      ensures Ready() && log == old(log) && IsSuffix(chain, old(chain))
      ensures SendResult(State(), sent, failed) == Send(cfg, old(State()), script)
    {
      ghost var full, chain0 := Send(cfg, State(), script), chain;
      var todo := script;
      failed, sent := false, [];
      while head != null && todo != []
        invariant Ready() && AllLive(State().nodes) && log == old(log)
        invariant IsSuffix(chain, chain0)
        invariant SendRest(cfg, State(), todo, sent, full)
        decreases |todo|
      {
        assert State().nodes != [];
        SuffixStep(chain, chain0);
        SendStep(cfg, State(), todo, sent, full);
        hide Layout, Linked, Advance, Live, State, Send, IsSuffix, SendRest;
        match todo[0] {
          case SendWouldBlock => return false, sent;
          case SendFailed => return true, sent;
          case SendInterrupted =>
          case Accept(k) =>
            var piece := SendSome(k);
            sent := sent + piece;
        }
        todo := todo[1..];
      }
      assert head == null ==> State().nodes == [];
    }

    /** EdnBuffer::SendAtMost. `sent` is what the socket took; the answer is its length or the error code. */
    method SendAtMost(script: seq<SendOutcome>) returns (ret: int, sent: seq<byte>)
      requires Ready() && AllLive(State().nodes)
      modifies this, chain`prev, chain`offset, chain`len
      ensures Ready() && log == old(log) && IsSuffix(chain, old(chain))
      ensures var r := Send(cfg, old(State()), script);
              State() == r.b && sent == r.sent
      ensures ret == if FailsMidway(cfg, old(State()), script) then EDN_ERR_SYS_ERROR
                     else |old(Bytes(State().nodes, State().mem))| - |Bytes(State().nodes, State().mem)|
    {
      hide State, Views, Linked, Valid, Send, Bytes, FailsMidway, IsSuffix;
      SendFailsIff(cfg, State(), script);
      var failed;
      failed, sent := SendChain(script);
      ret := if failed then EDN_ERR_SYS_ERROR else |sent|;
    }

    /** __PopData inside one node. */
    method PopInside(left: nat)
      requires Linked(chain, head, tail) && chain != [] && left < head.len
      modifies this, head`offset, head`len
      ensures Linked(chain, head, tail) && log == old(log) && chain == old(chain) && head == old(head)
      ensures old(State()).nodes[0] == old(head.View())
      ensures var b := old(State());
              var n := b.nodes[0];
              State() == b.(nodes := b.nodes[0 := n.(off := n.off + left, len := n.len - left)],
                            size := if cfg.fixed then Wrap(b.size - left) else b.size)
    {
      hide State, Views, Linked;
      AtHead();
      TrimHead(left);
      AtHead();
      Count(if cfg.fixed then Wrap(size - left) else size, num);
    }

    /** __PopData taking a whole node. */
    method PopNode()
      requires Linked(chain, head, tail) && chain != []
      modifies this, chain`prev, chain`offset, chain`len
      ensures Linked(chain, head, tail) && log == old(log) && chain == old(chain)[1..]
      ensures old(State()).nodes[0] == old(head.View())
      ensures var b := old(State());
              State() == b.(nodes := b.nodes[1..], size := Wrap(b.size - b.nodes[0].len), num := b.num - 1)
    {
      hide State, Views, Linked;
      AtHead();
      Count(Wrap(size - head.len), num);
      DropHead();
    }

    /** EdnBuffer::__PopData. */
    method PopData(len: nat)
      requires Ready() && len <= Total(State().nodes)
      modifies this, chain`prev, chain`offset, chain`len
      ensures Ready() && log == old(log) && State() == Pop(cfg, old(State()), len)
      ensures IsSuffix(chain, old(chain))
    {
      hide State, Views, Linked, Valid, Total, Pop, PopRest;
      ghost var full, chain0 := Pop(cfg, State(), len), chain;
      var left: nat := len;
      PopRestStarts(cfg, State(), len);
      while left != 0
        invariant Ready() && log == old(log)
        invariant IsSuffix(chain, chain0) && PopRest(cfg, State(), left, full)
        decreases left + |chain|
      {
        left := PopOnce(left, full);
      }
      PopRestEnds(cfg, State(), full);
    }

    /** One turn of that loop. */
    method PopOnce(left: nat, ghost full: Buf) returns (left': nat)
      requires Ready() && PopRest(cfg, State(), left, full) && left != 0
      modifies this, chain`prev, chain`offset, chain`len
      ensures Ready() && log == old(log)
      ensures PopRest(cfg, State(), left', full)
      ensures old(chain) != [] && (chain == old(chain) || chain == old(chain)[1..])
      ensures left' + |chain| < left + |old(chain)|
    {
      hide State, Views, Linked, Total, Pop, PopRest, Valid;
      PopStep(cfg, State(), left, full);
      AtHead();
      if head.len > left {
        PopInside(left);
        left' := 0;
      } else {
        left' := left - head.len;
        PopNode();
      }
    }

    // ---------- receiving ----------

    /** recv() into the tail. */
    method TakeIntoTail(data: seq<byte>)
      requires Ready() && chain != [] && |data| <= tail.View().RemainSpace()
      modifies this, buffer, tail
      ensures Ready() && chain == old(chain) && log == old(log)
      ensures old(State()).nodes[|chain| - 1] == old(tail.View())
      ensures State() == TakeIn(cfg, old(State()), data)
    {
      hide State, Views, Linked, Layout;
      AtTail();
      ghost var before := State();
      TakeInAppends(cfg, before, data);
      hide Valid;
      WriteTail(true, data);
      AtTail();
      Count(Wrap(size + |data|), num);
    }

    /** One more node, counted. */
    method AddNode(pos: nat, nodeLen: nat)
      requires Ready() && chain != [] && HEADER <= nodeLen
      modifies this, tail
      ensures Linked(chain, head, tail) && log == old(log) && chain != []
      ensures forall n :: n in chain ==> n in old(chain) || fresh(n)
      ensures State() == PushNode(old(State()), pos, nodeLen).(num := old(State()).num + 1)
    {
      hide Layout, PushNode;
      ghost var num0 := State().num;
      Link(pos, nodeLen);
      Count(size, num + 1);
    }

    /** One more node when the tail is full. */
    method GrowChain(nodeLen: nat) returns (ok: bool)
      requires Ready() && chain != [] && HEADER <= nodeLen
      modifies this, chain
      ensures Ready() && log == old(log) && chain != []
      ensures forall n :: n in chain ==> n in old(chain) || fresh(n)
      ensures var g := Grow(cfg, old(State()), nodeLen);
              ok == g.Some? && State() == if ok then g.value else old(State())
    {
      hide Layout, Linked, State, Views, Valid, Next;
      AtTail();
      ok := true;
      if Full(cfg, tail.View()) {
        var place := GetNextBufferNode(nodeLen);
        ok := place.Some?;
        if ok {
          GrowKeeps(cfg, State(), nodeLen);
          AddNode(place.value, nodeLen);
        }
      }
    }

    /** The node at the start of the array. */
    method OpenHead(nodeLen: nat)
      requires Ready() && chain == [] && HEADER <= nodeLen <= cfg.capacity
      modifies this
      ensures Ready() && log == old(log) && chain != []
      ensures forall n :: n in chain ==> fresh(n)
      ensures State() == OpenFirst(cfg, old(State()), nodeLen)
    {
      PushNodeValid(cfg, State(), nodeLen);
      Link(0, nodeLen);
      Count(size, if cfg.fixed then 1 else num);
    }

    /** One delivery of the socket: as much as the tail has room for, then a new node if that filled it. */
    method TakeDelivery(nodeLen: nat, data: seq<byte>) returns (k: nat, ok: bool)
      requires Ready() && chain != [] && HEADER <= nodeLen
      modifies this, buffer, chain
      ensures Ready() && log == old(log) && chain != []
      ensures forall n :: n in chain ==> n in old(chain) || fresh(n)
      ensures Delivered(cfg, nodeLen, old(State()), data, State(), k, ok)
    {
      hide Layout, Linked, State, Views, Valid, TakeIn, Grow;
      AtTail();
      AnyForm(cfg, true, State());
      k, ok := Min(tail.View().RemainSpace(), |data|), true;
      ghost var b := State();
      if k > 0 {
        TakeIntoTail(data[..k]);
        ok := GrowChain(nodeLen);
      }
      assert Delivered(cfg, nodeLen, b, data, State(), k, ok);
    }

    /** A turn of the receive loop at which the socket delivers. */
    method DeliverTurn(nodeLen: nat, data: seq<byte>, ghost todo: seq<RecvOutcome>, ghost received: seq<byte>,
                       ghost full: FillResult)
      returns (k: nat, ok: bool)
      requires Ready() && chain != [] && HEADER <= nodeLen && todo != [] && todo[0] == Deliver(data)
      requires FillRest(cfg, State(), nodeLen, todo, received, full)
      modifies this, buffer, chain
      ensures Ready() && log == old(log) && chain != [] && k <= |data|
      ensures if k == 0 then full == FillResult(State(), received, Closed)
              else if !ok then full == FillResult(State(), received + data[..k], NoRoom)
              else FillRest(cfg, State(), nodeLen, Remaining(todo, k), received + data[..k], full)
      ensures forall n :: n in chain ==> n in old(chain) || fresh(n)
    {
      hide Layout, Linked, State, Views, FillTail, FillRest, TakeIn, Grow, Live, Valid, Remaining;
      FillStep(cfg, State(), nodeLen, todo, received, full);
      k, ok := TakeDelivery(nodeLen, data);
    }

    /** The receive loop, once there is a node. */
    method FillChain(nodeLen: nat, script: seq<RecvOutcome>) returns (received: seq<byte>, end: RecvEnd)
      requires Ready() && chain != [] && HEADER <= nodeLen
      modifies this, buffer, chain
      ensures Ready() && log == old(log)
      ensures forall n :: n in chain ==> n in old(chain) || fresh(n)
      ensures FillResult(State(), received, end) == FillTail(cfg, old(State()), nodeLen, script)
    {
      ghost var full, chain0 := FillTail(cfg, State(), nodeLen, script), chain;
      received, end := [], Drained;
      FillRestStarts(cfg, State(), nodeLen, script);
      assert State().nodes != [];
      hide Layout, Linked, State, FillTail, FillRest, TakeIn, Grow, Live, Valid;
      var todo := script;
      while todo != []
        invariant Ready() && log == old(log) && chain != []
        invariant forall n :: n in chain ==> n in chain0 || fresh(n)
        invariant FillRest(cfg, State(), nodeLen, todo, received, full)
        decreases ScriptSize(todo)
      {
        if !todo[0].Deliver? {
          FillStep(cfg, State(), nodeLen, todo, received, full);
        }
        match todo[0] {
          case WouldBlock => return received, Drained;
          case PeerClosed => return received, Closed;
          case RecvFailed => return received, SysError;
          case Interrupted => todo := todo[1..];
          case Deliver(d) =>
            assert forall i {:trigger chain[i]} :: 0 <= i < |chain| ==> chain[i] in chain;
            var k, ok := DeliverTurn(nodeLen, d, todo, received, full);
            if k == 0 {
              return received, Closed;
            }
            received := received + d[..k];
            if !ok {
              return received, NoRoom;
            }
            todo := Remaining(todo, k);
        }
      }
      AtTail();
      FillRestEnds(cfg, State(), nodeLen, received, full);
    }

    // ---------- handing messages over ----------

    /** __PopData while the nodes `post` are still to be copied: it does not reach them. */
    method PopBefore(len: nat, ghost post: seq<BufferNode>)
      requires Ready() && len <= Total(State().nodes) && IsSuffix(post, chain)
      requires var b := Pop(cfg, State(), len);
               |post| <= |b.nodes| && b.nodes[|b.nodes| - |post|..] == Views(post)
      modifies this, chain`prev, chain`offset, chain`len
      ensures Ready() && log == old(log) && State() == Pop(cfg, old(State()), len)
      ensures IsSuffix(post, chain) && IsSuffix(chain, old(chain)) && Views(post) == old(Views(post))
    {
      hide Linked, Valid, Pop, Total, Layout;
      ghost var chain0 := chain;
      PopData(len);
      SuffixOfSuffix(post, chain, chain0);
      SuffixViews(post, chain);
    }

    /** A call of the data handler has happened. */
    method Record(call: Call, ghost post: seq<BufferNode>)
      requires Linked(chain, head, tail)
      modifies this`log
      ensures Linked(chain, head, tail) && Views(post) == old(Views(post))
      ensures log == old(log) + [call] && State() == old(State())
    {
      log := log + [call];
    }

    /** One message: hand it over and pop what was taken. */
    method DeliverMessage(cb: Callbacks, window: seq<byte>, ghost post: seq<BufferNode>, ghost full: Walked)
      returns (k: nat)
      requires Ready() && IsSuffix(post, chain) && WellBehaved(cb) && cb.end(window) > 0
      requires DrainRest(cfg, State(), cb, Views(post), window, log, full)
      modifies this, chain`prev, chain`offset, chain`len
      ensures Ready() && IsSuffix(post, chain) && IsSuffix(chain, old(chain)) && Views(post) == old(Views(post))
      ensures 0 < k <= |window|
      ensures DrainRest(cfg, State(), cb, Views(post), window[k..], log, full)
    {
      hide State, Linked, Views, DrainRest, Valid, Pop, Total;
      DrainStep(cfg, State(), cb, Views(post), window, log, full);
      var msg := window[..cb.end(window)];
      k := cb.handle(log, msg);
      SuffixViews(post, chain);
      PopBefore(k, post);
      Record(Call(msg, k), post);
    }

    /** The inner consumption loop on the window tmp_buf[offset..offset+len]; it answers how many bytes were taken.
        `post` are the nodes not copied yet. */
    method HandOver(cb: Callbacks, window0: seq<byte>, ghost post: seq<BufferNode>, ghost full: Walked)
      returns (taken: nat)
      requires Ready() && IsSuffix(post, chain) && WellBehaved(cb)
      requires DrainRest(cfg, State(), cb, Views(post), window0, log, full)
      modifies this, chain`prev, chain`offset, chain`len
      ensures Ready() && IsSuffix(post, chain) && IsSuffix(chain, old(chain)) && Views(post) == old(Views(post))
      ensures taken <= |window0|
      ensures WalkRest(cfg, State(), cb, Views(post), window0[taken..], log, full)
    {
      hide State, Linked, Views, DrainRest, WalkRest, Valid;
      ghost var chain0, views := chain, Views(post);
      var window := window0;
      taken := 0;
      while cb.end(window) > 0
        invariant Ready() && IsSuffix(post, chain) && IsSuffix(chain, chain0) && Views(post) == views
        invariant taken <= |window0| && window == window0[taken..]
        invariant DrainRest(cfg, State(), cb, views, window, log, full)
        decreases |window|
      {
        ghost var chain1 := chain;
        var k := DeliverMessage(cb, window, post, full);
        SuffixTrans(chain, chain1, chain0);
        DropTwice(window0, taken, k);
        window, taken := window[k..], taken + k;
      }
      DrainStep(cfg, State(), cb, views, window, log, full);
    }

    /** Copy a node's live bytes behind the window tmp[offset..offset + len]. */
    method CopyNode(tmp: array<byte>, offset: nat, len: nat, node: BufferNode)
      requires Ready() && tmp != buffer && node.View().Ok() && node.View().End() <= buffer.Length
      requires offset + len + node.len <= tmp.Length
      modifies tmp
      ensures tmp[offset..offset + (len + node.len)] ==
              old(tmp[offset..offset + len]) + Live(node.View(), State().mem)
    {
      hide Linked, Views, Valid;
      ghost var window := tmp[offset..offset + len];
      var start := node.View().Start();
      var live := buffer[start..start + node.len];
      CopyTo(tmp, offset + len, live);
      assert tmp[offset..offset + (len + node.len)] == window + live;
    }

    /** The outer loop stands before the nodes `rest`: tmp[offset..offset + len] is the window, and there is space
        behind it for all of them. */
    ghost predicate Stands(cb: Callbacks, tmp: array<byte>, offset: nat, len: nat, rest: seq<BufferNode>, full: Walked)
      reads this, chain, buffer, tmp, rest
    {
      && WellBehaved(cb) && Ready() && tmp != buffer && IsSuffix(rest, chain)
      && offset + len + Total(Views(rest)) <= tmp.Length
      && WalkRest(cfg, State(), cb, Views(rest), tmp[offset..offset + len], log, full)
    }

    lemma StandsAtNode(cb: Callbacks, tmp: array<byte>, offset: nat, len: nat, rest: seq<BufferNode>, full: Walked)
      requires Stands(cb, tmp, offset, len, rest, full) && rest != []
      ensures WellBehaved(cb) && Ready() && tmp != buffer && IsSuffix(rest[1..], chain)
      ensures rest[0].View().Ok() && rest[0].View().End() <= |State().mem| == buffer.Length
      ensures offset + len + rest[0].len + Total(Views(rest[1..])) <= tmp.Length
      ensures DrainRest(cfg, State(), cb, Views(rest[1..]),
                        tmp[offset..offset + len] + Live(rest[0].View(), State().mem), log, full)
    {
      hide State, Linked, Views, DrainRest, Valid, Total, Live, WalkRest;
      AtArray();
      ViewsTail(rest);
      SuffixStep(rest, chain);
      WalkStep(cfg, State(), cb, Views(rest), tmp[offset..offset + len], log, full);
    }

    /** One node of the outer loop: copy it behind the window, then hand messages over. */
    method Turn(cb: Callbacks, tmp: array<byte>, offset0: nat, len0: nat, node: BufferNode,
                ghost rest: seq<BufferNode>, ghost full: Walked)
      returns (offset: nat, len: nat)
      requires Stands(cb, tmp, offset0, len0, rest, full) && rest != [] && node == rest[0]
      modifies this, chain`prev, chain`offset, chain`len, tmp
      ensures Stands(cb, tmp, offset, len, rest[1..], full) && IsSuffix(chain, old(chain))
    {
      hide State, Linked, Views, WalkRest, DrainRest, Valid, Total, Live, Stands, IsSuffix;
      StandsAtNode(cb, tmp, offset0, len0, rest, full);
      CopyNode(tmp, offset0, len0, node);
      offset, len := MoveWindow(cb, tmp, offset0, len0 + node.len, rest[1..], full);
    }

    /** The window gives up from its front what the handler takes. */
    method MoveWindow(cb: Callbacks, tmp: array<byte>, offset0: nat, len0: nat, ghost post: seq<BufferNode>,
                      ghost full: Walked)
      returns (offset: nat, len: nat)
      requires Ready() && IsSuffix(post, chain) && WellBehaved(cb) && tmp != buffer
      requires offset0 + len0 + Total(Views(post)) <= tmp.Length
      requires DrainRest(cfg, State(), cb, Views(post), tmp[offset0..offset0 + len0], log, full)
      modifies this, chain`prev, chain`offset, chain`len
      ensures Stands(cb, tmp, offset, len, post, full) && IsSuffix(chain, old(chain))
    {
      hide State, Linked, Views, WalkRest, DrainRest, Valid, Total, Stands, IsSuffix;
      var taken := HandOver(cb, tmp[offset0..offset0 + len0], post, full);
      offset, len := offset0 + taken, len0 - taken;
      WindowMoves(tmp, offset0, len0, taken);
      StandsAgain(cb, tmp, offset, len, post, full);
    }

    lemma WindowMoves(tmp: array<byte>, offset: nat, len: nat, taken: nat)
      requires offset + len <= tmp.Length && taken <= len
      ensures tmp[offset..offset + len][taken..] == tmp[offset + taken..(offset + taken) + (len - taken)]
    {
    }

    lemma StandsAgain(cb: Callbacks, tmp: array<byte>, offset: nat, len: nat, rest: seq<BufferNode>, full: Walked)
      requires WellBehaved(cb) && Ready() && tmp != buffer && IsSuffix(rest, chain)
      requires offset + len + Total(Views(rest)) <= tmp.Length
      requires WalkRest(cfg, State(), cb, Views(rest), tmp[offset..offset + len], log, full)
      ensures Stands(cb, tmp, offset, len, rest, full)
    {
    }

    lemma AtArray()
      ensures State().mem == buffer[..]
    {
    }

    /** The consumption loop of EdnBuffer::RecvAtMost: node after node, while the chain is being popped. The copy has
        size_ bytes. */
    method Consume(cb: Callbacks)
      requires Ready() && WellBehaved(cb) && Total(State().nodes) <= size
      modifies this, chain`prev, chain`offset, chain`len
      ensures Ready()
      ensures var w := Consumption(cfg, old(State()), cb, old(log));
              State() == w.b && log == w.log
      ensures IsSuffix(chain, old(chain))
    {
      hide State, Linked, Views, WalkRest, Walk, Walking, Valid, Total, Forward, Stands;
      WalkRestStarts(cfg, State(), cb, log);
      ChainFacts();
      ghost var full := Walk(cfg, State(), cb, Views(chain), [], log);
      ghost var chain0, rest := chain, chain;
      var tmp := new byte[size];
      var offset: nat, len: nat := 0, 0;
      var node := head;
      assert tmp[0..0] == [];
      StandsAgain(cb, tmp, offset, len, rest, full);
      while node != null
        invariant Stands(cb, tmp, offset, len, rest, full) && IsSuffix(chain, chain0)
        invariant node == First(rest) && Forward(rest) && fresh(tmp)
        decreases |rest|
      {
        ghost var chain1 := chain;
        offset, len := Turn(cb, tmp, offset, len, node, rest, full);
        ForwardStep(rest);
        SuffixTrans(chain, chain1, chain0);
        node := node.next;
        rest := rest[1..];
      }
      StandsAtEnd(cb, tmp, offset, len, full);
    }

    lemma StandsAtEnd(cb: Callbacks, tmp: array<byte>, offset: nat, len: nat, full: Walked)
      requires Stands(cb, tmp, offset, len, [], full)
      ensures Ready() && State() == full.b && log == full.log
    {
      hide State, Linked, Valid, Walk, Walking;
      SuffixViews([], []);
      WalkStep(cfg, State(), cb, Views([]), tmp[offset..offset + len], log, full);
    }

    lemma ChainFacts()
      requires Linked(chain, head, tail)
      ensures State().nodes == Views(chain)
      ensures head == First(chain) && Forward(chain)
    {
    }

    /** The receive loop when there is a tail. Repair: a successor first, if the tail is full. */
    method FillOpen(nodeLen: nat, script: seq<RecvOutcome>) returns (received: seq<byte>, end: RecvEnd)
      requires Ready() && chain != [] && State().nodes != [] && HEADER <= nodeLen
      modifies this, buffer, chain
      ensures Ready() && log == old(log)
      ensures forall n :: n in chain ==> n in old(chain) || fresh(n)
      ensures FillResult(State(), received, end) == Fill(cfg, old(State()), nodeLen, script)
    {
      hide State, Views, Linked, Valid, FillTail, Grow;
      if cfg.fixed {
        var ok := GrowChain(nodeLen);
        if !ok {
          return [], Drained;
        }
        assert forall i {:trigger chain[i]} :: 0 <= i < |chain| ==> chain[i] in chain;
      }
      received, end := FillChain(nodeLen, script);
    }

    /** The receive loop of EdnBuffer::RecvAtMost. */
    method FillNodes(nodeLen: nat, script: seq<RecvOutcome>) returns (received: seq<byte>, end: RecvEnd)
      requires Ready() && HEADER <= nodeLen
      modifies this, buffer, chain
      ensures Ready() && log == old(log)
      ensures forall n :: n in chain ==> n in old(chain) || fresh(n)
      ensures FillResult(State(), received, end) == Fill(cfg, old(State()), nodeLen, script)
    {
      hide State, Views, Linked, Valid, FillTail, Grow;
      AtTail();
      if tail != null {
        received, end := FillOpen(nodeLen, script);
      } else if nodeLen > cfg.capacity {
        received, end := [], OutOfArena;
      } else {
        OpenHead(nodeLen);
        assert forall i {:trigger chain[i]} :: 0 <= i < |chain| ==> chain[i] in chain;
        received, end := FillChain(nodeLen, script);
      }
    }

    /** The body of RecvAtMost: space check, receive loop, consumption loop. */
    method RecvAndConsume(readable: nat, script: seq<RecvOutcome>, cb: Callbacks) returns (ret: int, end: RecvEnd)
      requires Ready() && WellBehaved(cb) && Covered(cfg, State())
      modifies this, buffer, chain
      ensures var r := Recv(cfg, old(State()), readable, script, cb, old(log));
              && end == r.end && (end != OutOfArena ==> Ready() && State() == r.b && log == r.log)
              && (end == Drained ==> ret == |r.received|) && (end == Closed ==> ret == 0)
              && (end == SysError ==> ret == EDN_ERR_SYS_ERROR) && (end == NoRoom ==> ret == EDN_ERR_BUFFER_NOT_ENOUGH)
      ensures end != OutOfArena ==> forall n :: n in chain ==> n in old(chain) || fresh(n)
    {
      hide State, Views, Linked, Valid, Fill, Walk;
      AtTail();
      var nodeLen := RecvNodeLen(cfg, readable);
      if nodeLen > Wrap(cfg.capacity - size - HEADER * num) {
        return EDN_ERR_BUFFER_NOT_ENOUGH, NoRoom;
      }
      RecvCovers(cfg, State(), nodeLen, script);
      var received;
      received, end := FillNodes(nodeLen, script);
      AtTail();
      match end {
        case Drained =>
          assert forall i {:trigger chain[i]} :: 0 <= i < |chain| ==> chain[i] in chain;
          Consume(cb);
          ret := |received|;
        case Closed => ret := 0;
        case SysError => ret := EDN_ERR_SYS_ERROR;
        case _ => ret := EDN_ERR_BUFFER_NOT_ENOUGH;
      }
    }

    /** EdnBuffer::RecvAtMost. The answer is the number of bytes received, 0 for a closed peer, or an error code. Behind
        an overrun of the array nothing is promised, so that nothing more can be called. */
    method RecvAtMost(readable: nat, script: seq<RecvOutcome>, cb: Callbacks) returns (ret: int, end: RecvEnd)
      requires Ready() && WellBehaved(cb) && Covered(cfg, State())
      modifies this, buffer, chain
      ensures var r := Recv(cfg, old(State()), readable, script, cb, old(log));
              && end == r.end && (end != OutOfArena ==> Ready() && State() == r.b && log == r.log)
      ensures end == Drained && Fair(old(log)) ==>
                && Fair(log)
                && |Consumed(log)| + |Bytes(State().nodes, State().mem)| ==
                   |Consumed(old(log))| + |old(Bytes(State().nodes, State().mem))| + ret
      ensures Roomy(cfg, old(State()), readable) ==>
                match CallEnd(cfg, old(State()), readable, script)
                case Drained => ret == |CallTakes(cfg, old(State()), readable, script)|
                case Closed => ret == 0
                case SysError => ret == EDN_ERR_SYS_ERROR
                case NoRoom => ret == EDN_ERR_BUFFER_NOT_ENOUGH
                case OutOfArena => end == OutOfArena
      ensures end != OutOfArena ==> forall n :: n in chain ==> n in old(chain) || fresh(n)
    {
      hide State, Views, Linked, Valid, Recv, CallEnd, CallTakes, Roomy, Fair, Consumed, Bytes;
      if Fair(log) {
        AnswerIsGain(cfg, State(), readable, script, cb, log);
      }
      if Roomy(cfg, State(), readable) {
        RecvEndsAs(cfg, State(), readable, script, cb, log);
      }
      ret, end := RecvAndConsume(readable, script, cb);
    }

    // ---------- whole runs ----------

    /** One operation of a run on the output side. */
    method Perform(op: OutOp, ghost s: OutRun) returns (sent: seq<byte>, overrun: bool)
      requires Ready() && OutReady(cfg, State()) && s.b == State() && !s.overrun && (op.DoWrite? ==> op.data != [])
      modifies this, buffer, chain
      ensures var t := OutStep(cfg, s, op);
              && overrun == t.overrun && t.sent == s.sent + sent
              && (!overrun ==> Ready() && State() == t.b && log == old(log))
      ensures !overrun ==> forall n :: n in chain ==> n in old(chain) || fresh(n)
    {
      hide State, Views, Linked, Valid, AllLive, BufferSpec.Write, Send;
      sent, overrun := [], false;
      match op {
        case DoWrite(data) =>
          var code := Write(data);
          overrun := code == Overrun;
        case DoSend(script) =>
          var ret;
          ret, sent := SendAtMost(script);
      }
    }

    /** The output side of a connection: writes and sends one after the other, until one runs over the array. What is
        proved of runs holds of this object and of the bytes that leave it. */
    method ServeOutput(ops: seq<OutOp>, ghost s: OutRun) returns (sent: seq<byte>, overrun: bool)
      requires Ready() && OutReady(cfg, State()) && Writes(ops) && s.b == State() && !s.overrun
      modifies this, buffer, chain
      ensures var t := RunOut(cfg, s, ops);
              && overrun == t.overrun && t.sent == s.sent + sent
              && (!overrun ==> Ready() && State() == t.b && log == old(log))
      ensures var t := RunOut(cfg, s, ops);
              Fifo(cfg, s) ==>
                && (cfg.fixed ==> !overrun && s.sent + sent + Bytes(State().nodes, State().mem) == t.accepted)
                && (!cfg.fixed && SourceOutput.AllClean(cfg, s, ops) ==>
                      !overrun && s.sent + sent + Bytes(State().nodes, State().mem) == t.accepted)
    {
      hide State, Views, Linked, RunOut, OutStep, OutReady, Bytes, Valid;
      ghost var full, chain0, t := RunOut(cfg, s, ops), chain, s;
      sent, overrun := [], false;
      var todo := ops;
      assert s.sent + [] == s.sent;
      while todo != [] && !overrun
        invariant OutRest(cfg, t, todo, full) && overrun == t.overrun && t.sent == s.sent + sent
        invariant !overrun ==> Ready() && State() == t.b && log == old(log)
        invariant !overrun ==> forall n :: n in chain ==> n in chain0 || fresh(n)
        decreases |todo|
      {
        OutRestStep(cfg, t, todo, full);
        assert forall i {:trigger chain[i]} :: 0 <= i < |chain| ==> chain[i] in chain;
        var piece;
        piece, overrun := Perform(todo[0], t);
        Associative(s.sent, sent, piece);
        sent, t, todo := sent + piece, OutStep(cfg, t, todo[0]), todo[1..];
      }
      OutRestEnds(cfg, t, todo, full);
      if Fifo(cfg, s) {
        SourceOutput.ServedInOrder(cfg, s, ops);
      }
    }

    /** One call of a run on the input side, with `left` calls to go. */
    method ServeCall(call: InCall, cb: Callbacks, ghost s: InRun, ghost left: nat) returns (overrun: bool)
      requires Ready() && WellBehaved(cb) && s.b == State() && s.log == log && !s.overrun
      requires left > 0 && CoveredFor(cfg, State(), left)
      modifies this, buffer, chain
      ensures Valid(cfg, s.b)
      ensures var t := InStep(cfg, s, call, cb);
              && overrun == t.overrun && (cfg.fixed ==> !overrun)
              && (!overrun ==> Ready() && State() == t.b && log == t.log && CoveredFor(cfg, t.b, left - 1))
      ensures !overrun ==> forall n :: n in chain ==> n in old(chain) || fresh(n)
    {
      hide State, Views, Linked, Valid, CoveredFor, Recv;
      StaysCovered(cfg, s.b, call.readable, call.script, cb, s.log, left);
      var ret, end := RecvAtMost(call.readable, call.script, cb);
      overrun := end == OutOfArena;
    }

    /** The input side: calls of RecvAtMost one after the other, until one runs over the array. */
    method ServeInput(calls: seq<InCall>, cb: Callbacks, ghost s: InRun) returns (overrun: bool)
      requires Ready() && WellBehaved(cb) && s.b == State() && s.log == log && !s.overrun
      requires CoveredFor(cfg, State(), |calls|)
      modifies this, buffer, chain
      ensures var t := RunIn(cfg, s, calls, cb);
              && overrun == t.overrun && (!overrun ==> Ready() && State() == t.b && log == t.log)
              && (cfg.fixed ==> !overrun)
              && (!overrun && InConserves(cfg, s) ==>
                    Fair(log) && Consumed(log) + Bytes(State().nodes, State().mem) == Concat(t.chunks))
              && (!overrun && Stable(cb.end) && InParsesOn(cfg, s, cb) ==>
                    Parse(cb, Bytes(State().nodes, State().mem), log) == Parse(cb, Concat(t.chunks), []))
    {
      hide State, Views, Linked, RunIn, InStep, Bytes, Valid, CoveredFor, Recv;
      ghost var full, chain0, t := RunIn(cfg, s, calls, cb), chain, s;
      overrun := false;
      var todo := calls;
      while todo != [] && !overrun
        invariant InRest(cfg, t, todo, cb, full) && overrun == t.overrun
        invariant !overrun ==> Ready() && State() == t.b && log == t.log && CoveredFor(cfg, t.b, |todo|)
        invariant !overrun ==> forall n :: n in chain ==> n in chain0 || fresh(n)
        invariant cfg.fixed ==> !overrun
        decreases |todo|
      {
        InRestStep(cfg, t, todo, cb, full);
        assert forall i {:trigger chain[i]} :: 0 <= i < |chain| ==> chain[i] in chain;
        overrun := ServeCall(todo[0], cb, t, |todo|);
        t, todo := InStep(cfg, t, todo[0], cb), todo[1..];
      }
      InRestEnds(cfg, t, todo, cb, full);
      if InConserves(cfg, s) {
        InputConserves(cfg, s, calls, cb);
      }
      if Stable(cb.end) && InParsesOn(cfg, s, cb) {
        StreamIsParsedOn(cfg, s, calls, cb);
      }
    }
  }
}
