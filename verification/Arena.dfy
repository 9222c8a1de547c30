/** The arena of EdnBuffer: nodes cut out of one byte array, and the allocator that places the next one.

Addresses are offsets from the start of the array. A node is a header of HEADER bytes followed by its data area.
The flag `fixed` selects between the allocator as the source has it (false) and its repaired form (true). */
module Arena {
  import opened EdnDefine

  newtype byte = x: int | 0 <= x < 256

  /** sizeof(BufferNode) with 8-byte words: two links, three sizes and the data pointer. */
  const HEADER: nat := 48

  datatype Node = Node(pos: nat, cap: nat, off: nat, len: nat) {
    function End(): nat {
      pos + HEADER + cap
    }

    /** Address of the first live byte. */
    function Start(): nat {
      pos + HEADER + off
    }

    function RemainSpace(): int {
      cap - len - off
    }

    predicate Ok() {
      off + len <= cap
    }
  }

  predicate Disjoint(a: Node, b: Node) {
    a.End() <= b.pos || b.End() <= a.pos
  }

  /** In the ring that starts at `h`, `a` comes before `b`: both behind `h`, or `b` wrapped to the front. */
  predicate InRing(h: Node, a: Node, b: Node) {
    if h.pos <= b.pos then
      h.pos <= a.pos && a.End() <= b.pos
    else
      b.End() <= h.pos && (a.pos < h.pos ==> a.End() <= b.pos)
  }

  /** The chain lies in ring order inside an array of `capacity` bytes. */
  ghost predicate Layout(ns: seq<Node>, capacity: nat) {
    && (forall i :: 0 <= i < |ns| ==> ns[i].Ok() && ns[i].End() <= capacity)
    && (forall i, j {:trigger InRing(ns[0], ns[i], ns[j])} :: 0 <= i < j < |ns| ==> InRing(ns[0], ns[i], ns[j]))
  }

  /** EdnBuffer::__GetNextBufferNode. As written it compares head and tail strictly, so one node is no case at all,
      and it answers the address just behind the tail's header; the repaired form counts one node as the linear case
      and answers the end of the tail's data area. */
  function Next(fixed: bool, ns: seq<Node>, len: nat, capacity: nat): Option<nat> {
    if ns == [] then
      Some(0)
    else
      var head, tail := ns[0], ns[|ns| - 1];
      var linear := head.pos < tail.pos || (fixed && head.pos == tail.pos);
      var behind := if fixed then tail.End() else tail.pos + HEADER;
      if linear && tail.End() + len <= capacity then Some(behind)
      else if linear && len < head.pos then Some(0)
      else if tail.pos < head.pos && tail.End() + len <= head.pos then Some(behind)
      else None
  }

  /** Arena safety, the layout half: the bytes of different nodes, headers included, never meet. */
  lemma LayoutIsDisjoint(ns: seq<Node>, capacity: nat, i: nat, j: nat)
    requires Layout(ns, capacity)
    requires i < |ns| && j < |ns| && i != j
    ensures Disjoint(ns[i], ns[j])
  {
    if i < j {
      assert InRing(ns[0], ns[i], ns[j]);
    } else {
      assert InRing(ns[0], ns[j], ns[i]);
    }
  }

  /** Arena safety, the allocator half: the repaired allocator answers a place that is inside the array, away from
      every node of the chain, and next in ring order. */
  lemma NextIsSafe(ns: seq<Node>, len: nat, capacity: nat)
    requires Layout(ns, capacity)
    requires HEADER <= len <= capacity
    requires Next(true, ns, len, capacity).Some?
    ensures var added := Node(Next(true, ns, len, capacity).value, len - HEADER, 0, 0);
            && Layout(ns + [added], capacity)
            && forall i :: 0 <= i < |ns| ==> Disjoint(ns[i], added)
  {
    var added := Node(Next(true, ns, len, capacity).value, len - HEADER, 0, 0);
    var all := ns + [added];
    if ns != [] {
      var last := |ns| - 1;
      forall i | 0 <= i < |ns|
        ensures InRing(ns[0], ns[i], added)
      {
        if i < last {
          assert InRing(ns[0], ns[i], ns[last]);
        }
      }
    }
    forall i, j | 0 <= i < j < |all|
      ensures InRing(all[0], all[i], all[j])
    {
      if j < |ns| {
        assert InRing(ns[0], ns[i], ns[j]);
      }
    }
    forall i | 0 <= i < |ns|
      ensures Disjoint(ns[i], added)
    {
      assert InRing(all[0], all[i], all[|ns|]);
    }
  }

  /** A node of `len` bytes, header included, at `pos` comes next in ring order. */
  ghost predicate FitsAt(ns: seq<Node>, pos: nat, len: nat, capacity: nat)
    requires HEADER <= len
  {
    Layout(ns + [Node(pos, len - HEADER, 0, 0)], capacity)
  }

  /** The repaired allocator refuses exactly if no place fits, or the one place that does is the whole stretch in front
      of the head, which the source leaves unused because it compares strictly. */
  lemma NextRefusesIffFull(ns: seq<Node>, len: nat, capacity: nat)
    requires Layout(ns, capacity) && ns != [] && HEADER <= len <= capacity
    ensures Next(true, ns, len, capacity).None? <==>
            forall pos: nat :: FitsAt(ns, pos, len, capacity) ==> pos == 0 && len == ns[0].pos <= ns[|ns| - 1].pos
  {
    if Next(true, ns, len, capacity).None? {
      forall pos: nat | FitsAt(ns, pos, len, capacity)
        ensures pos == 0 && len == ns[0].pos <= ns[|ns| - 1].pos
      {
        var all := ns + [Node(pos, len - HEADER, 0, 0)];
        assert all[0] == ns[0] && all[|ns| - 1] == ns[|ns| - 1] && all[|ns|] == Node(pos, len - HEADER, 0, 0);
        assert InRing(all[0], all[|ns| - 1], all[|ns|]);
      }
    } else {
      var pos := Next(true, ns, len, capacity).value;
      NextIsSafe(ns, len, capacity);
      assert FitsAt(ns, pos, len, capacity);
      assert ns[|ns| - 1].End() > 0;
    }
  }

  /** The allocator as written refuses whenever the chain has exactly one node. */
  lemma SourceNeverExtendsOneNode(n: Node, len: nat, capacity: nat)
    ensures Next(false, [n], len, capacity) == None
  {
  }

  /** Were there two or more nodes, the address the allocator as written answers behind the tail would be usable
      exactly when the tail had no data area. */
  lemma SourcePlaceMeetsTail(ns: seq<Node>, len: nat, capacity: nat)
    requires Layout(ns, capacity) && 2 <= |ns| && HEADER <= len
    requires Next(false, ns, len, capacity).Some?
    requires ns[0].pos > ns[|ns| - 1].pos || ns[|ns| - 1].End() + len <= capacity
    ensures var added := Node(Next(false, ns, len, capacity).value, len - HEADER, 0, 0);
            Disjoint(ns[|ns| - 1], added) <==> ns[|ns| - 1].cap == 0
  {
    assert InRing(ns[0], ns[0], ns[|ns| - 1]);
  }

  /** Dropping the head leaves the rest in ring order. */
  lemma LayoutTail(ns: seq<Node>, capacity: nat)
    requires Layout(ns, capacity) && ns != []
    ensures Layout(ns[1..], capacity)
  {
    var rest := ns[1..];
    forall i, j | 0 <= i < j < |rest|
      ensures InRing(rest[0], rest[i], rest[j])
    {
      assert InRing(ns[0], ns[i + 1], ns[j + 1]);
      assert InRing(ns[0], ns[1], ns[j + 1]);
      if i > 0 {
        assert InRing(ns[0], ns[1], ns[i + 1]);
      }
    }
  }

  /** Moving the live bytes of one node inside its data area keeps the layout. */
  lemma LayoutUpdate(ns: seq<Node>, capacity: nat, k: nat, n: Node)
    requires Layout(ns, capacity) && k < |ns|
    requires n.Ok() && n.pos == ns[k].pos && n.cap == ns[k].cap
    ensures Layout(ns[k := n], capacity)
  {
    var us := ns[k := n];
    forall i, j | 0 <= i < j < |us|
      ensures InRing(us[0], us[i], us[j])
    {
      assert InRing(ns[0], ns[i], ns[j]);
    }
  }

  function Total(ns: seq<Node>): nat {
    if ns == [] then 0 else ns[0].len + Total(ns[1..])
  }

  lemma {:induction false} TotalAppend(ns: seq<Node>, n: Node)
    ensures Total(ns + [n]) == Total(ns) + n.len
  {
    if ns == [] {
      assert [n][1..] == [];
    } else {
      assert (ns + [n])[1..] == ns[1..] + [n];
      TotalAppend(ns[1..], n);
    }
  }

  /** What the extents leave behind the tail, or up to the head once the chain has wrapped. */
  lemma {:induction false} ExtentsFit(ns: seq<Node>, capacity: nat)
    requires Layout(ns, capacity) && ns != []
    ensures var head, tail := ns[0], ns[|ns| - 1];
            Total(ns) + HEADER * |ns| <=
              (if head.pos <= tail.pos then tail.End() - head.pos else capacity - head.pos + tail.End())
  {
    var front, tail := ns[..|ns| - 1], ns[|ns| - 1];
    assert ns == front + [tail];
    TotalAppend(front, tail);
    if front == [] {
      assert Total(front) == 0;
    } else {
      ExtentsFit(front, capacity);
      assert InRing(ns[0], ns[|ns| - 2], tail);
      assert InRing(ns[0], ns[0], tail);
    }
  }

  /** The unsigned subtractions in both space checks cannot go below zero while the chain is laid out. */
  lemma SpaceNeverUnderflows(ns: seq<Node>, capacity: nat)
    requires Layout(ns, capacity)
    ensures Total(ns) + HEADER * |ns| <= capacity
  {
    if ns != [] {
      ExtentsFit(ns, capacity);
      if |ns| > 1 {
        assert InRing(ns[0], ns[0], ns[|ns| - 1]);
      }
    }
  }

  lemma Associative<T>(x: seq<T>, y: seq<T>, z: seq<T>)
    ensures (x + y) + z == x + (y + z)
  {
  }
}
