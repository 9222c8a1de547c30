/** EdnTimer and EdnTimerGroup as objects: timers change in place while the queue and the table share them. Every method
is proved to do what its function in TimerSpec says. */
module TimerGroups {
  import opened EdnDefine
  import opened TimerSpec

  class EdnTimer {
    const uuid: nat
    const persist: bool
    var timeout: int
    var expire: int
    var enabled: bool

    function View(): Entry
      reads this
    {
      Entry(uuid, expire, timeout, persist, enabled)
    }

    constructor (uuid: nat, timeout: int, persist: bool, now: int)
      ensures View() == Entry(uuid, now + timeout, timeout, persist, true)
    {
      this.uuid, this.timeout, this.persist := uuid, timeout, persist;
      expire, enabled := now + timeout, true;
    }
  }

  function Views(q: seq<EdnTimer>): (r: seq<Entry>)
    reads q
    ensures |r| == |q|
    ensures forall i :: 0 <= i < |q| ==> r[i] == q[i].View()
  {
    if q == [] then [] else [q[0].View()] + Views(q[1..])
  }

  ghost predicate Linked(queue: seq<EdnTimer>, table: map<nat, EdnTimer>) {
    forall id :: id in table ==> table[id] in queue && table[id].uuid == id
  }

  lemma ViewsWithout(q: seq<EdnTimer>, i: nat)
    requires i < |q|
    ensures Views(q[..i] + q[i + 1..]) == Without(Views(q), i)
  {
    hide Views, Without;
    var rest := q[..i] + q[i + 1..];
    forall k | 0 <= k < |rest|
      ensures Views(rest)[k] == Without(Views(q), i)[k]
    {
      WithoutAt(Views(q), i, k);
      assert rest[k] == if k < i then q[k] else q[k + 1];
    }
  }

  lemma ViewsAppend(q: seq<EdnTimer>, t: EdnTimer)
    ensures Views(q + [t]) == Views(q) + [t.View()]
  {
    hide Views;
    forall k | 0 <= k < |q + [t]|
      ensures Views(q + [t])[k] == (Views(q) + [t.View()])[k]
    {
    }
  }

  /** Taking a timer out of the queue and its UUID out of the table, if it is there at all. */
  lemma StillLinked(q: seq<EdnTimer>, table: map<nat, EdnTimer>, i: nat)
    requires Linked(q, table) && i < |q|
    ensures Linked(q[..i] + q[i + 1..], table - {q[i].uuid})
    ensures q[i].uuid !in table ==> table - {q[i].uuid} == table
  {
    var rest := q[..i] + q[i + 1..];
    forall id | id in table - {q[i].uuid}
      ensures table[id] in rest
    {
      var k :| 0 <= k < |q| && q[k] == table[id];
      assert rest[if k < i then k else k - 1] == table[id];
    }
  }

  lemma Relinked(q: seq<EdnTimer>, table: map<nat, EdnTimer>, t: EdnTimer)
    requires Linked(q, table - {t.uuid})
    requires t.uuid in table ==> table[t.uuid] == t
    ensures Linked(q + [t], table)
  {
    forall id | id in table
      ensures table[id] in q + [t] && table[id].uuid == id
    {
      if id != t.uuid {
        assert (table - {t.uuid})[id] == table[id];
      }
    }
  }

  lemma Unlinked(q: seq<EdnTimer>, table: map<nat, EdnTimer>, id: nat)
    requires Linked(q, table)
    ensures Linked(q, table - {id})
    ensures id in table ==> table[id] in q && table[id].uuid == id
  {
  }

  /** Two places of the queue hold two timers. */
  lemma Distinguished(q: seq<EdnTimer>, i: nat, j: nat)
    requires Distinct(Views(q)) && i < |q| && j < |q| && i != j
    ensures q[i].uuid != q[j].uuid
  {
    hide Views;
    var r := Views(q);
    assert r[i].id != r[j].id;
    assert r[i] == q[i].View() && r[j] == q[j].View();
  }

  lemma NotInRest<T>(q: seq<T>, i: nat)
    requires i < |q| && forall k :: 0 <= k < |q| && k != i ==> q[k] != q[i]
    ensures q[i] !in q[..i] + q[i + 1..]
  {
  }

  lemma QueuedOnce(q: seq<EdnTimer>, i: nat)
    requires Distinct(Views(q)) && i < |q|
    ensures q[i] !in q[..i] + q[i + 1..]
  {
    hide Views, Distinct;
    forall k | 0 <= k < |q| && k != i
      ensures q[k] != q[i]
    {
      Distinguished(q, i, k);
    }
    NotInRest(q, i);
  }

  lemma SameUuid(q: seq<EdnTimer>, t: EdnTimer, i: nat)
    requires Distinct(Views(q)) && t in q && i < |q|
    ensures q[i].uuid == t.uuid <==> q[i] == t
  {
    hide Views, Distinct;
    var k :| 0 <= k < |q| && q[k] == t;
    if i != k {
      Distinguished(q, i, k);
    }
  }

  lemma TopFacts(g: Group, i: nat, now: int)
    requires Inv(g) && IsTop(g.queue, i)
    ensures Distinct(g.queue) && (g.queue[i].enabled <==> g.queue[i].id in g.table)
    ensures Inv(Turn(g, i, now).0)
  {
    TurnRefinesSet(g, i, now);
  }

  /** A live timer that is queued is the one in the table. */
  lemma LiveTop(q: seq<EdnTimer>, table: map<nat, EdnTimer>, i: nat)
    requires Distinct(Views(q)) && Linked(q, table) && i < |q| && q[i].uuid in table
    ensures table[q[i].uuid] == q[i]
  {
    hide Distinct, Views;
    SameUuid(q, table[q[i].uuid], i);
  }

  lemma DelFacts(g: Group, id: nat, i: nat)
    requires Inv(g) && id in g.table && IsTop(g.queue, i)
    ensures Inv(TimerSpec.DelTimer(g, id, i)) && Distinct(g.queue)
  {
    DelRefinesSet(g, id, i);
  }

  lemma Unknown(g: Group, id: nat)
    requires id !in g.table
    ensures TimerSpec.DelTimer(g, id, 0) == g
  {
  }

  /** Appending a turn to the turns taken. */
  lemma {:induction false} TurnsAppend(g: Group, ts: seq<TurnAt>, t: TurnAt)
    requires CanTurn(g, ts)
    requires var g1 := Turns(g, ts).0; IsTop(g1.queue, t.top) && !Stops(g1.queue, t.top, t.now)
    ensures CanTurn(g, ts + [t])
    ensures var (g1, fired) := Turns(g, ts);
            var (g2, more) := Turn(g1, t.top, t.now);
            Turns(g, ts + [t]) == (g2, fired + more)
    decreases |ts|
  {
    if ts == [] {
      var (g2, more) := Turn(g, t.top, t.now);
      assert [t][1..] == [] && more + [] == more && [] + more == more;
      assert ts + [t] == [t];
    } else {
      var (g1, first) := Turn(g, ts[0].top, ts[0].now);
      assert (ts + [t])[1..] == ts[1..] + [t];
      TurnsAppend(g1, ts[1..], t);
      var (g2, rest) := Turns(g1, ts[1..]);
      var (_, more) := Turn(g2, t.top, t.now);
      assert first + (rest + more) == (first + rest) + more;
    }
  }

  /** The turns `ts` lead from g to g' and fire `fired`. */
  ghost predicate Turned(g: Group, ts: seq<TurnAt>, g': Group, fired: seq<Fire>) {
    CanTurn(g, ts) && Turns(g, ts) == (g', fired)
  }

  /** Every turn looks at one of the clock readings up to the n-th. */
  ghost predicate ReadBy(ts: seq<TurnAt>, clock: nat -> int, n: nat) {
    forall k :: 0 <= k < |ts| ==> Reading(ts[k].now, clock, n)
  }

  ghost predicate Reading(now: int, clock: nat -> int, n: nat) {
    exists m: nat :: m <= n && now == clock(m)
  }

  lemma NoTurns(g: Group, clock: nat -> int)
    ensures Turned(g, [], g, []) && ReadBy([], clock, 0)
  {
  }

  lemma OneMoreTurn(g0: Group, ts: seq<TurnAt>, g: Group, fired: seq<Fire>, i: nat, clock: nat -> int, n: nat)
    requires Turned(g0, ts, g, fired) && ReadBy(ts, clock, n)
    requires IsTop(g.queue, i) && !Stops(g.queue, i, clock(n))
    ensures var (g', more) := Turn(g, i, clock(n));
            Turned(g0, ts + [TurnAt(i, clock(n))], g', fired + more)
    ensures ReadBy(ts + [TurnAt(i, clock(n))], clock, n) && ReadBy(ts + [TurnAt(i, clock(n))], clock, n + 1)
  {
    TurnsAppend(g0, ts, TurnAt(i, clock(n)));
    var ts' := ts + [TurnAt(i, clock(n))];
    forall k | 0 <= k < |ts'|
      ensures Reading(ts'[k].now, clock, n)
    {
      if k < |ts| {
        assert ts'[k] == ts[k];
      }
    }
    LaterReading(ts', clock, n);
  }

  lemma LaterReading(ts: seq<TurnAt>, clock: nat -> int, n: nat)
    requires ReadBy(ts, clock, n)
    ensures ReadBy(ts, clock, n + 1)
  {
    forall k | 0 <= k < |ts|
      ensures Reading(ts[k].now, clock, n + 1)
    {
      assert Reading(ts[k].now, clock, n);
    }
  }

  /** With a clock that stands still, what Dispatch ensures is what TimerSpec.DispatchIsExact asks for. */
  lemma StandingClockIsExact(g: Group, ts: seq<TurnAt>, g': Group, fired: seq<Fire>, clock: nat -> int, n: nat,
                             now: int)
    requires Inv(g) && TimeoutsPositive(g.queue) && Turned(g, ts, g', fired) && ReadBy(ts, clock, n)
    requires Done(g', clock(n)) && forall m: nat :: clock(m) == now
    ensures FiresExactly(fired, Due(g.queue, now), now) && SortedByExpiry(fired)
    ensures Live(g'.queue) == Live(g.queue) - Due(g.queue, now) + Rearmed(Due(g.queue, now), now)
    ensures Due(g'.queue, now) == {}
  {
    forall k | 0 <= k < |ts|
      ensures ts[k].now == now
    {
      assert Reading(ts[k].now, clock, n);
    }
    DispatchIsExact(g, ts, now);
  }

  /** With a clock that does not go back, and readings up to the n-th, it makes Dispatch fire all that is due at the
      first reading and nothing that is not due at the n-th. */
  lemma MovingClockIsExact(g: Group, ts: seq<TurnAt>, g': Group, fired: seq<Fire>, clock: nat -> int, n: nat)
    requires Inv(g) && TimeoutsPositive(g.queue) && Turned(g, ts, g', fired) && ReadBy(ts, clock, n)
    requires Done(g', clock(n)) && forall i: nat, j: nat :: i <= j ==> clock(i) <= clock(j)
    ensures forall e :: e in Due(g.queue, clock(0)) ==> exists f :: f in fired && f.timer == e
    ensures forall f :: f in fired ==> f.timer.expire <= f.now <= clock(n)
    ensures SortedByExpiry(fired) && Due(g'.queue, clock(n)) == {}
  {
    forall k | 0 <= k < |ts|
      ensures ts[k].now <= clock(n)
    {
      assert Reading(ts[k].now, clock, n);
    }
    DispatchBetween(g, ts, clock(0), clock(n), clock(n));
  }

  class EdnTimerGroup {
    var queue: seq<EdnTimer>
    var table: map<nat, EdnTimer>

    ghost function State(): Group
      reads this, queue
    {
      Group(Views(queue), table.Keys)
    }

    /** The table's timers are queued under their own UUID, and the values satisfy the invariant of TimerSpec. */
    ghost predicate Valid()
      reads this, queue
    {
      Inv(State()) && Linked(queue, table)
    }

    constructor ()
      ensures Valid() && State() == Group([], {})
    {
      queue, table := [], map[];
    }

    /** A timer with the earliest expiry; which of several the heap has on top is left open. */
    method Top() returns (i: nat)
      requires queue != []
      ensures i < |queue| && IsTop(Views(queue), i)
    {
      TopExists(Views(queue));
      i :| i < |queue| && IsTop(Views(queue), i);
    }

    method Pop(i: nat)
      requires i < |queue|
      modifies this`queue
      ensures queue == old(queue[..i] + queue[i + 1..]) && Views(queue) == Without(old(Views(queue)), i)
      ensures forall k :: 0 <= k < |queue| ==> queue[k] in old(queue)
    {
      hide Views, Without;
      queue := queue[..i] + queue[i + 1..];
      ViewsWithout(old(queue), i);
    }

    method AddTimer(timer: EdnTimer) returns (r: int)
      requires Valid() && timer.enabled && !InQueue(State().queue, timer.uuid)
      modifies this
      ensures Valid() && State() == TimerSpec.AddTimer(old(State()), timer.View()) && r == EDN_OK
    {
      hide Views, Inv, InQueue, Live;
      AddRefinesSet(State(), timer.View());
      ViewsAppend(queue, timer);
      queue := queue + [timer];
      table := table[timer.uuid := timer];
      assert table.Keys == old(table.Keys) + {timer.uuid};
      return EDN_OK;
    }

    /** `top` is the entry the heap had on top. */
    method DelTimer(timer: EdnTimer) returns (r: int, ghost top: nat)
      requires Valid()
      modifies this, queue`enabled
      ensures timer.uuid in old(table) ==> IsTop(old(Views(queue)), top)
      ensures Valid() && State() == TimerSpec.DelTimer(old(State()), timer.uuid, top)
      ensures r == if timer.uuid in old(table) then EDN_OK else EDN_ERR_PARAMS_INVALID
    {
      hide Inv, Views, Linked, IsTop, TimerSpec.DelTimer;
      top := 0;
      if timer.uuid !in table {
        Unknown(State(), timer.uuid);
        return EDN_ERR_PARAMS_INVALID, top;
      }
      Unlinked(queue, table, timer.uuid);
      var i := Top();
      top := i;
      Forget(timer.uuid, i);
      return EDN_OK, top;
    }

    /** The timer known under this UUID, with entry i on top of the heap: it leaves at once if it is that entry, and is
        disabled otherwise. */
    method Forget(id: nat, i: nat)
      requires Valid() && id in table && i < |queue| && IsTop(Views(queue), i)
      modifies this, queue`enabled
      ensures Valid() && State() == TimerSpec.DelTimer(old(State()), id, i)
    {
      hide Inv, Without, Views, Disable, Live, Distinct, Linked, IsTop;
      Unlinked(queue, table, id);
      DelFacts(State(), id, i);
      StillLinked(queue, table, i);
      var found := table[id];
      SameUuid(queue, found, i);
      if found == queue[i] {
        Pop(i);
      } else {
        DisableTimer(found);
      }
      table := table - {id};
    }

    method DisableTimer(timer: EdnTimer)
      requires timer in queue && Distinct(Views(queue))
      modifies timer`enabled
      ensures Views(queue) == Disable(old(Views(queue)), timer.uuid)
    {
      hide Distinct, Views, Disable;
      forall k | 0 <= k < |queue|
        ensures queue[k].uuid == timer.uuid <==> queue[k] == timer
      {
        SameUuid(queue, timer, k);
      }
      timer.enabled := false;
      assert forall k :: 0 <= k < |queue| ==> Views(queue)[k] == Disable(old(Views(queue)), timer.uuid)[k];
    }

    /** The body of the loop of Dispatch, with entry i on top and `now` the clock where it is read. */
    method TakeTurn(i: nat, now: int) returns (fired: seq<Fire>)
      requires Valid() && i < |queue| && IsTop(Views(queue), i) && !Stops(Views(queue), i, now)
      modifies this, queue`expire
      ensures Valid() && (State(), fired) == Turn(old(State()), i, now)
      ensures forall k :: 0 <= k < |queue| ==> queue[k] in old(queue)
    {
      hide Inv, Turn, Views, Linked, IsTop;
      TopFacts(State(), i, now);
      if queue[i].enabled {
        fired := FireTop(i, now);
      } else {
        DropTop(i, now);
        fired := [];
      }
    }

    method DropTop(i: nat, ghost now: int)
      requires i < |queue| && IsTop(Views(queue), i) && Linked(queue, table)
      requires !queue[i].enabled && queue[i].uuid !in table
      modifies this`queue
      ensures (State(), []) == Turn(old(State()), i, now) && Linked(queue, table)
      ensures forall k :: 0 <= k < |queue| ==> queue[k] in old(queue)
    {
      hide Without, Views, Linked, IsTop;
      StillLinked(queue, table, i);
      Pop(i);
    }

    method FireTop(i: nat, now: int) returns (fired: seq<Fire>)
      requires i < |queue| && IsTop(Views(queue), i) && Linked(queue, table) && Distinct(Views(queue))
      requires queue[i].enabled && queue[i].expire <= now && queue[i].uuid in table
      modifies this, queue`expire
      ensures (State(), fired) == Turn(old(State()), i, now) && Linked(queue, table)
      ensures forall k :: 0 <= k < |queue| ==> queue[k] in old(queue)
    {
      hide Without, Views, Distinct, Linked, IsTop;
      StillLinked(queue, table, i);
      QueuedOnce(queue, i);
      LiveTop(queue, table, i);
      var timer := queue[i];
      fired := [Fire(timer.View(), now)];
      Pop(i);
      if timer.persist {
        Relinked(queue, table, timer);
        Requeue(timer, now + timer.timeout);
      } else {
        table := table - {timer.uuid};
      }
    }

    /** A timer that is not queued gets its next expiry, and only then goes back. */
    method Requeue(timer: EdnTimer, expire: int)
      requires timer !in queue
      modifies this`queue, timer`expire
      ensures queue == old(queue) + [timer]
      ensures Views(queue) == old(Views(queue)) + [old(timer.View()).(expire := expire)]
    {
      hide Views;
      timer.expire := expire;
      assert Views(queue) == old(Views(queue));
      ViewsAppend(queue, timer);
      queue := queue + [timer];
    }

    /** The loop of Dispatch. The n-th reading of the clock is clock(n), and no reading is past `limit`: the loop ends,
        its turns are those of the specification, and it stops at the last reading with nothing left to do. */
    method FireDue(clock: nat -> int, ghost limit: int) returns (fired: seq<Fire>, n: nat, ghost ts: seq<TurnAt>)
      requires Valid() && TimeoutsPositive(State().queue)
      requires forall n: nat :: clock(n) <= limit
      modifies this, queue
      ensures Valid() && Turned(old(State()), ts, State(), fired) && ReadBy(ts, clock, n)
      ensures Done(State(), clock(n))
    {
      hide Inv, Without, Turn, Turned, ReadBy, Linked, Work, TimeoutsPositive, Views, Live;
      fired, n, ts := [], 0, [];
      NoTurns(State(), clock);
      while queue != []
        invariant Valid() && TimeoutsPositive(Views(queue))
        invariant forall k :: 0 <= k < |queue| ==> queue[k] in old(queue)
        invariant Turned(old(State()), ts, State(), fired) && ReadBy(ts, clock, n)
        decreases Work(Views(queue), limit)
      {
        var i := Top();
        var now := clock(n);
        if queue[i].enabled && now < queue[i].expire {
          assert Stops(Views(queue), i, now);
          break;
        }
        ghost var g := State();
        TurnWorks(g, i, now, limit);
        TurnKeepsPositive(g, i, now);
        OneMoreTurn(old(State()), ts, g, fired, i, clock, n);
        var enabled := queue[i].enabled;
        var more := TakeTurn(i, now);
        fired := fired + more;
        ts := ts + [TurnAt(i, now)];
        if enabled {
          n := n + 1;
        }
      }
    }

    /** The answer is taken from what is left, at one more reading. */
    method Dispatch(clock: nat -> int, ghost limit: int) returns (r: int, fired: seq<Fire>, n: nat,
                                                                  ghost ts: seq<TurnAt>)
      requires Valid() && TimeoutsPositive(State().queue)
      requires forall n: nat :: clock(n) <= limit
      modifies this, queue
      ensures Valid() && Turned(old(State()), ts, State(), fired) && ReadBy(ts, clock, n)
      ensures Done(State(), clock(n))
      ensures EarliestLive(State().queue, clock(n + 1), r)
    {
      hide Inv, Turned, ReadBy, Linked, TimeoutsPositive, Views, Done, EarliestLive;
      fired, n, ts := FireDue(clock, limit);
      ghost var top;
      r, top := GetMinTimeout(clock(n + 1));
      AnswerIsEarliestLive(State(), top, clock(n), clock(n + 1));
    }

    method GetMinTimeout(now: int) returns (r: int, ghost top: nat)
      ensures queue != [] ==> IsTop(Views(queue), top)
      ensures r == Answer(Views(queue), top, now)
      ensures queue != [] ==> exists i :: 0 <= i < |queue| && r == queue[i].expire - now
      ensures if queue == [] then r == -1 else forall i :: 0 <= i < |queue| ==> r <= queue[i].expire - now
    {
      if queue == [] {
        return -1, 0;
      }
      var i := Top();
      return queue[i].expire - now, i;
    }
  }

  /** EdnEpoll::add of a timer, with `now` the reading of the clock: an expired one goes to the pool instead. */
  method EpollAdd(group: EdnTimerGroup, timer: EdnTimer, now: int) returns (r: int, fired: seq<Fire>)
    requires group.Valid() && (now < timer.expire ==> timer.enabled && !InQueue(group.State().queue, timer.uuid))
    modifies group
    ensures group.Valid() && r == EDN_OK
    ensures (group.State(), fired) == TimerSpec.EpollAdd(old(group.State()), timer.View(), now)
  {
    if timer.expire <= now {
      return EDN_OK, [Fire(timer.View(), now)];
    }
    fired := [];
    r := group.AddTimer(timer);
  }
}
