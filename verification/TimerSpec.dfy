/** EdnTimerGroup on values: a priority queue that forgets lazily, beside a table of the live timers.

The queue is a bag in which any entry with the earliest expiry may come out on top; which one is an argument. */
module TimerSpec {

  /** A timer in the queue: its UUID, expiry, timeout, PERSIST bit and enabled_ flag. */
  datatype Entry = Entry(id: nat, expire: int, timeout: int, persist: bool, enabled: bool)

  /** `queue` is timer_queue_, `table` the keys of timer_map_. */
  datatype Group = Group(queue: seq<Entry>, table: set<nat>)

  /** One firing: the timer as it was, and the clock reading. */
  datatype Fire = Fire(timer: Entry, now: int)

  predicate IsTop(q: seq<Entry>, i: nat) {
    i < |q| && forall j :: 0 <= j < |q| ==> q[i].expire <= q[j].expire
  }

  function Without(q: seq<Entry>, i: nat): (r: seq<Entry>)
    requires i < |q|
    ensures |r| == |q| - 1
  {
    q[..i] + q[i + 1..]
  }

  /** AddTimer. */
  function AddTimer(g: Group, e: Entry): Group {
    Group(g.queue + [e], g.table + {e.id})
  }

  /** EdnEpoll::add of a timer: one that has expired already goes straight to the pool, which counts as its firing, and
      never into the group. */
  function EpollAdd(g: Group, e: Entry, now: int): (Group, seq<Fire>) {
    if e.expire <= now then (g, [Fire(e, now)]) else (AddTimer(g, e), [])
  }

  /** DelTimer, with entry i on top: a timer on top leaves at once, any other is only disabled. */
  function DelTimer(g: Group, id: nat, i: nat): Group
    requires id in g.table ==> IsTop(g.queue, i)
  {
    if id !in g.table then g
    else if g.queue[i].id == id then Group(Without(g.queue, i), g.table - {id})
    else Group(Disable(g.queue, id), g.table - {id})
  }

  function Disable(q: seq<Entry>, id: nat): (r: seq<Entry>)
    ensures |r| == |q|
    ensures forall j :: 0 <= j < |q| ==> r[j] == if q[j].id == id then q[j].(enabled := false) else q[j]
  {
    if q == [] then []
    else [if q[0].id == id then q[0].(enabled := false) else q[0]] + Disable(q[1..], id)
  }

  /** Whether the loop of Dispatch stops with entry i on top. */
  predicate Stops(q: seq<Entry>, i: nat, now: int)
    requires IsTop(q, i)
  {
    q[i].enabled && now < q[i].expire
  }

  /** One turn of the loop of Dispatch, with entry i on top. */
  function Turn(g: Group, i: nat, now: int): (Group, seq<Fire>)
    requires IsTop(g.queue, i)
  {
    var e := g.queue[i];
    if !e.enabled then (g.(queue := Without(g.queue, i)), [])
    else if now < e.expire then (g, [])
    else if e.persist then (g.(queue := Without(g.queue, i) + [e.(expire := now + e.timeout)]), [Fire(e, now)])
    else (Group(Without(g.queue, i), g.table - {e.id}), [Fire(e, now)])
  }

  // ---------- lazy deletion refines a plain set ----------

  ghost predicate Distinct(q: seq<Entry>) {
    forall i, j :: 0 <= i < j < |q| ==> q[i].id != q[j].id
  }

  /** The queue holds each timer once; the enabled ones are exactly those of the table. */
  ghost predicate Inv(g: Group) {
    && Distinct(g.queue)
    && (forall i :: 0 <= i < |g.queue| ==> (g.queue[i].enabled <==> g.queue[i].id in g.table))
    && (forall id :: id in g.table ==> InQueue(g.queue, id))
  }

  ghost predicate InQueue(q: seq<Entry>, id: nat) {
    exists i :: 0 <= i < |q| && q[i].id == id
  }

  /** The plain set: the live timers as they stand. */
  function Live(q: seq<Entry>): set<Entry> {
    set i | 0 <= i < |q| && q[i].enabled :: q[i]
  }

  lemma WithoutAt(q: seq<Entry>, i: nat, k: nat)
    requires i < |q| && k < |q| - 1
    ensures Without(q, i)[k] == if k < i then q[k] else q[k + 1]
  {
  }

  /** Taking out entry i leaves every other one, and nothing else. */
  lemma WithoutElements(q: seq<Entry>, i: nat)
    requires i < |q|
    ensures forall k :: 0 <= k < |q| && k != i ==> q[k] in Without(q, i)
    ensures forall k :: 0 <= k < |Without(q, i)| ==> Without(q, i)[k] in q
    ensures Distinct(q) ==> Distinct(Without(q, i)) && !InQueue(Without(q, i), q[i].id)
  {
    hide Without, Distinct;
    var r := Without(q, i);
    forall k | 0 <= k < |q| && k != i
      ensures q[k] in r
    {
      WithoutAt(q, i, if k < i then k else k - 1);
    }
    forall k | 0 <= k < |r|
      ensures r[k] in q
    {
      WithoutAt(q, i, k);
    }
    WithoutDistinct(q, i);
  }

  lemma WithoutDistinct(q: seq<Entry>, i: nat)
    requires i < |q|
    ensures Distinct(q) ==> Distinct(Without(q, i)) && !InQueue(Without(q, i), q[i].id)
  {
    hide Without;
    var r := Without(q, i);
    if Distinct(q) {
      forall j, k | 0 <= j < k < |r|
        ensures r[j].id != r[k].id
      {
        WithoutAt(q, i, j);
        WithoutAt(q, i, k);
      }
      forall k | 0 <= k < |r|
        ensures r[k].id != q[i].id
      {
        WithoutAt(q, i, k);
      }
    }
  }

  lemma WithoutLive(q: seq<Entry>, i: nat)
    requires i < |q| && Distinct(q)
    ensures Live(Without(q, i)) == if q[i].enabled then Live(q) - {q[i]} else Live(q)
  {
    WithoutElements(q, i);
    var r := Without(q, i);
    forall e
      ensures e in Live(r) <==> e in Live(q) && (q[i].enabled ==> e != q[i])
    {
      if e in Live(r) {
        assert e in r;
      }
      if e in Live(q) && e != q[i] {
        assert e in r;
      }
    }
  }

  lemma WithoutInv(g: Group, i: nat, table: set<nat>)
    requires Inv(g) && i < |g.queue| && table == g.table - {g.queue[i].id}
    ensures Inv(Group(Without(g.queue, i), table))
  {
    WithoutElements(g.queue, i);
    var r := Without(g.queue, i);
    forall id | id in table
      ensures InQueue(r, id)
    {
      var k :| 0 <= k < |g.queue| && g.queue[k].id == id;
      assert g.queue[k] in r;
    }
  }

  /** Adding a fresh timer adds it to the set. */
  lemma AddRefinesSet(g: Group, e: Entry)
    requires Inv(g) && e.enabled && !InQueue(g.queue, e.id)
    ensures Inv(AddTimer(g, e))
    ensures Live(AddTimer(g, e).queue) == Live(g.queue) + {e}
  {
    var q := g.queue + [e];
    assert q[|g.queue|] == e;
    forall i | 0 <= i < |g.queue|
      ensures q[i] == g.queue[i] && q[i].id != e.id
    {
    }
    forall id | id in g.table + {e.id}
      ensures InQueue(q, id)
    {
      if id in g.table {
        var k :| 0 <= k < |g.queue| && g.queue[k].id == id;
        assert q[k].id == id;
      }
    }
    forall x
      ensures x in Live(q) <==> x in Live(g.queue) || x == e
    {
      if x in Live(g.queue) {
        var k :| 0 <= k < |g.queue| && g.queue[k].enabled && g.queue[k] == x;
        assert q[k] == x;
      }
    }
  }

  /** A timer that is queued already, or was deleted before and so stays disabled, is exactly what may not be added. */
  lemma AddKeepsInvIffFresh(g: Group, e: Entry)
    requires Inv(g)
    ensures Inv(AddTimer(g, e)) <==> e.enabled && !InQueue(g.queue, e.id)
  {
    var q := AddTimer(g, e).queue;
    assert q[|g.queue|] == e;
    if InQueue(g.queue, e.id) {
      var k :| 0 <= k < |g.queue| && g.queue[k].id == e.id;
      assert q[k].id == q[|g.queue|].id;
    } else if e.enabled {
      AddRefinesSet(g, e);
    }
  }

  /** A timer deleted and added again: Dispatch drops it without firing, and from then on DelTimer of it would look at
      the top of an empty queue. */
  lemma ReaddedTimerIsLost(e: Entry, now: int)
    requires !e.enabled
    ensures var g := AddTimer(Group([], {}), e);
            IsTop(g.queue, 0) && !Stops(g.queue, 0, now) && Turn(g, 0, now) == (Group([], {e.id}), [])
  {
    var g := AddTimer(Group([], {}), e);
    assert g.queue == [e] && Without(g.queue, 0) == [];
    assert g.table == {e.id};
  }

  /** Deleting removes the timer from the set, whichever path is taken; the queue has a top whenever it is asked for. */
  lemma DelRefinesSet(g: Group, id: nat, i: nat)
    requires Inv(g) && (id in g.table ==> IsTop(g.queue, i))
    ensures id in g.table ==> g.queue != []
    ensures var g' := DelTimer(g, id, i);
            && Inv(g') && g'.table == g.table - {id}
            && Live(g'.queue) == set e | e in Live(g.queue) && e.id != id
  {
    if id in g.table {
      assert InQueue(g.queue, id);
      var k :| 0 <= k < |g.queue| && g.queue[k].id == id;
      if g.queue[i].id == id {
        WithoutInv(g, i, g.table - {id});
        WithoutLive(g.queue, i);
      } else {
        DisableKeeps(g, id);
      }
    }
  }

  lemma DisableKeeps(g: Group, id: nat)
    requires Inv(g)
    ensures Inv(Group(Disable(g.queue, id), g.table - {id}))
    ensures Live(Disable(g.queue, id)) == set e | e in Live(g.queue) && e.id != id
  {
    DisableLive(g.queue, id);
    hide Live;
    var r := Disable(g.queue, id);
    forall x | x in g.table - {id}
      ensures InQueue(r, x)
    {
      var k :| 0 <= k < |g.queue| && g.queue[k].id == x;
      assert r[k].id == x;
    }
  }

  lemma DisableLive(q: seq<Entry>, id: nat)
    ensures Live(Disable(q, id)) == set e | e in Live(q) && e.id != id
  {
    var r := Disable(q, id);
    forall e
      ensures e in Live(r) <==> e in Live(q) && e.id != id
    {
      if e in Live(q) && e.id != id {
        var k :| 0 <= k < |q| && q[k].enabled && q[k] == e;
        assert r[k] == e;
      }
    }
  }

  /** A turn of Dispatch takes out exactly the timer it fires and puts a persistent one back. */
  lemma TurnRefinesSet(g: Group, i: nat, now: int)
    requires Inv(g) && IsTop(g.queue, i)
    ensures var (g', fired) := Turn(g, i, now);
            var e := g.queue[i];
            && Inv(g')
            && (if !e.enabled || now < e.expire then fired == [] && Live(g'.queue) == Live(g.queue)
                else if e.persist then
                  fired == [Fire(e, now)] && Live(g'.queue) == Live(g.queue) - {e} + {e.(expire := now + e.timeout)}
                else fired == [Fire(e, now)] && Live(g'.queue) == Live(g.queue) - {e})
  {
    hide Live, Distinct;
    var e := g.queue[i];
    if !e.enabled {
      WithoutLive(g.queue, i);
      assert g.table == g.table - {e.id};
      WithoutInv(g, i, g.table);
    } else if now >= e.expire {
      WithoutLive(g.queue, i);
      WithoutInv(g, i, g.table - {e.id});
      if e.persist {
        RearmRefinesSet(g, i, now);
      }
    }
  }

  lemma RearmRefinesSet(g: Group, i: nat, now: int)
    requires Inv(g) && i < |g.queue| && g.queue[i].enabled
    ensures var e' := g.queue[i].(expire := now + g.queue[i].timeout);
            && Inv(g.(queue := Without(g.queue, i) + [e']))
            && Live(Without(g.queue, i) + [e']) == Live(g.queue) - {g.queue[i]} + {e'}
  {
    hide Live, Inv, Distinct, InQueue, Without;
    var e := g.queue[i];
    var g1, e' := Group(Without(g.queue, i), g.table - {e.id}), e.(expire := now + e.timeout);
    OneByOne(g, i);
    WithoutLive(g.queue, i);
    WithoutInv(g, i, g.table - {e.id});
    AddRefinesSet(g1, e');
    assert g1.table + {e'.id} == g.table;
  }

  lemma OneByOne(g: Group, i: nat)
    requires Inv(g) && i < |g.queue|
    ensures Distinct(g.queue) && !InQueue(Without(g.queue, i), g.queue[i].id)
    ensures g.queue[i].enabled <==> g.queue[i].id in g.table
  {
    WithoutElements(g.queue, i);
  }

  // ---------- Dispatch ----------

  /** One turn that does not stop: the entry on top and the clock reading. */
  datatype TurnAt = TurnAt(top: nat, now: int)

  ghost predicate CanTurn(g: Group, ts: seq<TurnAt>)
    decreases |ts|
  {
    ts == [] ||
    (IsTop(g.queue, ts[0].top) && !Stops(g.queue, ts[0].top, ts[0].now)
     && CanTurn(Turn(g, ts[0].top, ts[0].now).0, ts[1..]))
  }

  /** The loop of Dispatch up to where it stops: the group it leaves and the firings in order. */
  ghost function Turns(g: Group, ts: seq<TurnAt>): (Group, seq<Fire>)
    requires CanTurn(g, ts)
    decreases |ts|
  {
    if ts == [] then (g, [])
    else
      var (g1, fired) := Turn(g, ts[0].top, ts[0].now);
      var (g2, more) := Turns(g1, ts[1..]);
      (g2, fired + more)
  }

  /** The loop has nothing left to do: no entry, or a live one on top that is not due. */
  ghost predicate Done(g: Group, now: int) {
    g.queue == [] || exists i: nat :: IsTop(g.queue, i) && Stops(g.queue, i, now)
  }

  ghost predicate TimeoutsPositive(q: seq<Entry>) {
    forall i :: 0 <= i < |q| && q[i].persist ==> q[i].timeout > 0
  }

  /** The live timers that are due. */
  function Due(q: seq<Entry>, now: int): set<Entry> {
    set e | e in Live(q) && e.expire <= now
  }

  /** What a firing leaves in the set. */
  function Rearmed(es: set<Entry>, now: int): set<Entry> {
    set e | e in es && e.persist :: e.(expire := now + e.timeout)
  }

  ghost predicate SortedByExpiry(fired: seq<Fire>) {
    forall i, j :: 0 <= i < j < |fired| ==> fired[i].timer.expire <= fired[j].timer.expire
  }

  /** Each of the timers `es` once, at `now`, and no other. */
  ghost predicate FiresExactly(fired: seq<Fire>, es: set<Entry>, now: int) {
    && (forall i :: 0 <= i < |fired| ==> fired[i].timer in es && fired[i].now == now)
    && (forall e :: e in es ==> Fire(e, now) in fired)
    && (forall i, j :: 0 <= i < j < |fired| ==> fired[i].timer != fired[j].timer)
  }

  lemma TurnKeepsPositive(g: Group, i: nat, now: int)
    requires IsTop(g.queue, i) && TimeoutsPositive(g.queue)
    ensures TimeoutsPositive(Turn(g, i, now).0.queue)
  {
    WithoutElements(g.queue, i);
  }

  /** From g to g' exactly the due timers fire, each once, in order of expiry; the others stay, the persistent ones are
      re-armed, and none is due any more. */
  ghost predicate Exact(g: Group, g': Group, fired: seq<Fire>, now: int) {
    && Inv(g')
    && FiresExactly(fired, Due(g.queue, now), now) && SortedByExpiry(fired)
    && Live(g'.queue) == Live(g.queue) - Due(g.queue, now) + Rearmed(Due(g.queue, now), now)
    && Due(g'.queue, now) == {}
  }

  /** Dispatch is exact: at a fixed clock, with positive periods, it fires precisely the live timers that are due, each
      once, in order of expiry, and leaves the others and the re-armed ones, none of them due. */
  lemma {:induction false} DispatchIsExact(g: Group, ts: seq<TurnAt>, now: int)
    requires Inv(g) && TimeoutsPositive(g.queue) && CanTurn(g, ts)
    requires forall k :: 0 <= k < |ts| ==> ts[k].now == now
    requires Done(Turns(g, ts).0, now)
    ensures Exact(g, Turns(g, ts).0, Turns(g, ts).1, now)
    decreases |ts|
  {
    hide Exact, Inv, TimeoutsPositive, IsTop, Stops, Turn, Done;
    if ts == [] {
      ExactWhenDone(g, now);
    } else {
      var i := ts[0].top;
      var (g1, fired) := Turn(g, i, now);
      TurnKeepsInv(g, i, now);
      TurnKeepsPositive(g, i, now);
      DispatchIsExact(g1, ts[1..], now);
      ExactTurn(g, i, now, Turns(g1, ts[1..]).0, Turns(g1, ts[1..]).1);
    }
  }

  lemma ExactWhenDone(g: Group, now: int)
    requires Inv(g) && Done(g, now)
    ensures Exact(g, g, [], now)
  {
    NoneDueWhenDone(g, now);
    hide Inv, Live, Due;
    assert Rearmed({}, now) == {};
  }

  lemma ExactTurn(g: Group, i: nat, now: int, g2: Group, more: seq<Fire>)
    requires Inv(g) && TimeoutsPositive(g.queue) && IsTop(g.queue, i) && !Stops(g.queue, i, now)
    requires Exact(Turn(g, i, now).0, g2, more, now)
    ensures Exact(g, g2, Turn(g, i, now).1 + more, now)
  {
    TurnRefinesSet(g, i, now);
    if g.queue[i].enabled {
      FiredTopFirst(g, i, now, more);
    } else {
      DueOfLive(g.queue, Turn(g, i, now).0.queue, now);
      assert [] + more == more;
    }
    hide Inv, Live, Due, Rearmed, FiresExactly, SortedByExpiry;
  }

  lemma DueOfLive(q: seq<Entry>, r: seq<Entry>, now: int)
    requires Live(q) == Live(r)
    ensures Due(q, now) == Due(r, now)
  {
  }

  lemma NoneDueWhenDone(g: Group, now: int)
    requires Done(g, now)
    ensures Due(g.queue, now) == {}
  {
  }

  /** Firing the top first, and then exactly what is due in the rest, fires exactly what was due, in order. */
  lemma FiredTopFirst(g: Group, i: nat, now: int, more: seq<Fire>)
    requires Inv(g) && TimeoutsPositive(g.queue) && IsTop(g.queue, i)
    requires g.queue[i].enabled && g.queue[i].expire <= now
    requires var g1 := Turn(g, i, now).0;
             FiresExactly(more, Due(g1.queue, now), now) && SortedByExpiry(more)
    ensures var e, g1 := g.queue[i], Turn(g, i, now).0;
            && FiresExactly([Fire(e, now)] + more, Due(g.queue, now), now)
            && SortedByExpiry([Fire(e, now)] + more)
            && Live(g1.queue) - Due(g1.queue, now) + Rearmed(Due(g1.queue, now), now) ==
               Live(g.queue) - Due(g.queue, now) + Rearmed(Due(g.queue, now), now)
  {
    DueAfterTop(g, i, now);
    hide Inv, IsTop, Turn, Due, Live;
    PrependFire(g.queue[i], now, more, Due(g.queue, now));
  }

  lemma PrependFire(e: Entry, now: int, more: seq<Fire>, due: set<Entry>)
    requires e in due && FiresExactly(more, due - {e}, now) && SortedByExpiry(more)
    requires forall x :: x in due ==> e.expire <= x.expire
    ensures FiresExactly([Fire(e, now)] + more, due, now) && SortedByExpiry([Fire(e, now)] + more)
  {
    PrependExact(e, now, more, due);
    PrependSorted(e, now, more, due - {e});
  }

  lemma PrependExact(e: Entry, now: int, more: seq<Fire>, due: set<Entry>)
    requires e in due && FiresExactly(more, due - {e}, now)
    ensures FiresExactly([Fire(e, now)] + more, due, now)
  {
    var fired := [Fire(e, now)] + more;
    forall x | x in due
      ensures Fire(x, now) in fired
    {
      if x != e {
        assert Fire(x, now) in more;
      }
    }
    forall k | 0 < k < |fired|
      ensures fired[k].timer in due && fired[k].timer != e && fired[k].now == now
    {
      assert fired[k] == more[k - 1];
    }
  }

  lemma PrependSorted(e: Entry, now: int, more: seq<Fire>, es: set<Entry>)
    requires SortedByExpiry(more) && FiresExactly(more, es, now)
    requires forall x :: x in es ==> e.expire <= x.expire
    ensures SortedByExpiry([Fire(e, now)] + more)
  {
    forall k | 0 <= k < |more|
      ensures e.expire <= more[k].timer.expire
    {
      assert more[k].timer in es;
    }
  }

  /** The sets before and after firing the top. */
  lemma DueAfterTop(g: Group, i: nat, now: int)
    requires Inv(g) && TimeoutsPositive(g.queue) && IsTop(g.queue, i)
    requires g.queue[i].enabled && g.queue[i].expire <= now
    ensures var e, g1 := g.queue[i], Turn(g, i, now).0;
            && Due(g1.queue, now) == Due(g.queue, now) - {e} && e in Due(g.queue, now)
            && (forall x :: x in Due(g.queue, now) ==> e.expire <= x.expire)
            && Live(g1.queue) - Due(g1.queue, now) + Rearmed(Due(g1.queue, now), now) ==
               Live(g.queue) - Due(g.queue, now) + Rearmed(Due(g.queue, now), now)
  {
    TurnRefinesSet(g, i, now);
    var e, g1 := g.queue[i], Turn(g, i, now).0;
    var e' := e.(expire := now + e.timeout);
    assert e in Live(g.queue);
    assert e.persist ==> e' !in Due(g.queue, now) && e' !in Due(g1.queue, now);
    var due, due1 := Due(g.queue, now), Due(g1.queue, now);
    assert due1 == due - {e};
    assert Rearmed(due, now) == Rearmed(due1, now) + (if e.persist then {e'} else {});
  }

  // ---------- Dispatch under a moving clock ----------

  /** A live timer is still in the set after some turns, or it has fired. */
  lemma {:induction false} StaysOrFires(g: Group, ts: seq<TurnAt>, e: Entry)
    requires Inv(g) && CanTurn(g, ts) && e in Live(g.queue)
    ensures Inv(Turns(g, ts).0)
    ensures e in Live(Turns(g, ts).0.queue) || exists f :: f in Turns(g, ts).1 && f.timer == e
    decreases |ts|
  {
    hide Inv, IsTop, Live, Turn;
    if ts != [] {
      var (g1, fired) := Turn(g, ts[0].top, ts[0].now);
      StaysOrFiresOnce(g, ts[0].top, ts[0].now, e);
      TurnsInv(g1, ts[1..]);
      if e in Live(g1.queue) {
        StaysOrFires(g1, ts[1..], e);
      } else {
        assert Fire(e, ts[0].now) in fired;
        assert Fire(e, ts[0].now) in Turns(g, ts).1;
      }
    }
  }

  lemma StaysOrFiresOnce(g: Group, i: nat, now: int, e: Entry)
    requires Inv(g) && IsTop(g.queue, i) && e in Live(g.queue)
    ensures var (g1, fired) := Turn(g, i, now);
            Inv(g1) && (e in Live(g1.queue) || Fire(e, now) in fired)
  {
    TurnRefinesSet(g, i, now);
    hide Inv, Live;
  }

  lemma {:induction false} TurnsInv(g: Group, ts: seq<TurnAt>)
    requires Inv(g) && CanTurn(g, ts)
    ensures Inv(Turns(g, ts).0)
    decreases |ts|
  {
    hide Inv, IsTop, Turn;
    if ts != [] {
      TurnKeepsInv(g, ts[0].top, ts[0].now);
      TurnsInv(Turn(g, ts[0].top, ts[0].now).0, ts[1..]);
    }
  }

  lemma TurnKeepsInv(g: Group, i: nat, now: int)
    requires Inv(g) && IsTop(g.queue, i)
    ensures Inv(Turn(g, i, now).0)
  {
    TurnRefinesSet(g, i, now);
  }

  /** In order of expiry, none before its time, none earlier than `least`, and all at readings of the turns. */
  ghost predicate InTime(fired: seq<Fire>, ts: seq<TurnAt>, least: int) {
    && SortedByExpiry(fired)
    && forall k :: 0 <= k < |fired| ==> least <= fired[k].timer.expire <= fired[k].now && AtSomeTurn(fired[k].now, ts)
  }

  ghost predicate AtSomeTurn(now: int, ts: seq<TurnAt>) {
    exists j :: 0 <= j < |ts| && now == ts[j].now
  }

  /** Nothing fires before its time, and nothing earlier than what was queued first. */
  lemma {:induction false} FiresInOrder(g: Group, ts: seq<TurnAt>, least: int)
    requires CanTurn(g, ts) && TimeoutsPositive(g.queue)
    requires forall i :: 0 <= i < |g.queue| ==> least <= g.queue[i].expire
    ensures InTime(Turns(g, ts).1, ts, least)
    decreases |ts|
  {
    if ts != [] {
      var i, now := ts[0].top, ts[0].now;
      var (g1, first) := Turn(g, i, now);
      TurnKeepsPositive(g, i, now);
      TurnKeepsLeast(g, i, now, g.queue[i].expire);
      FiresInOrder(g1, ts[1..], g.queue[i].expire);
      hide CanTurn, InTime, TimeoutsPositive, IsTop;
      LaterFires(Turns(g1, ts[1..]).1, ts, g.queue[i].expire, least);
      if first != [] {
        FirstFires(g.queue[i], now, Turns(g1, ts[1..]).1, ts, least);
      } else {
        assert [] + Turns(g1, ts[1..]).1 == Turns(g1, ts[1..]).1;
      }
    }
  }

  lemma LaterFires(more: seq<Fire>, ts: seq<TurnAt>, from: int, least: int)
    requires ts != [] && least <= from && InTime(more, ts[1..], from)
    ensures InTime(more, ts, least)
  {
    forall k | 0 <= k < |more|
      ensures AtSomeTurn(more[k].now, ts)
    {
      assert AtSomeTurn(more[k].now, ts[1..]);
      var j :| 0 <= j < |ts[1..]| && more[k].now == ts[1..][j].now;
      assert more[k].now == ts[j + 1].now;
    }
  }

  lemma FirstFires(e: Entry, now: int, more: seq<Fire>, ts: seq<TurnAt>, least: int)
    requires ts != [] && ts[0].now == now && least <= e.expire <= now
    requires InTime(more, ts[1..], e.expire) && InTime(more, ts, least)
    ensures InTime([Fire(e, now)] + more, ts, least)
  {
    var fired := [Fire(e, now)] + more;
    assert AtSomeTurn(now, ts);
    forall k | 0 < k < |fired|
      ensures fired[k] == more[k - 1] && e.expire <= fired[k].timer.expire
    {
    }
  }

  lemma TurnKeepsLeast(g: Group, i: nat, now: int, least: int)
    requires IsTop(g.queue, i) && !Stops(g.queue, i, now) && TimeoutsPositive(g.queue)
    requires least <= g.queue[i].expire
    ensures var q := Turn(g, i, now).0.queue;
            forall k :: 0 <= k < |q| ==> least <= q[k].expire
  {
    WithoutElements(g.queue, i);
    var q := Turn(g, i, now).0.queue;
    forall k | 0 <= k < |q|
      ensures least <= q[k].expire
    {
      if k < |Without(g.queue, i)| {
        assert q[k] == Without(g.queue, i)[k];
      }
    }
  }

  /** Dispatch under a clock that may move between its readings, all of them from `first` to `last`: every live timer
      that is due at the first fires, none fires that is not due at the last, the order is that of expiry, and nothing
      that is left is due at the reading at which the loop stops. */
  lemma DispatchBetween(g: Group, ts: seq<TurnAt>, first: int, stopped: int, last: int)
    requires Inv(g) && TimeoutsPositive(g.queue) && CanTurn(g, ts)
    requires first <= stopped && forall k :: 0 <= k < |ts| ==> ts[k].now <= last
    requires Done(Turns(g, ts).0, stopped)
    ensures var (g', fired) := Turns(g, ts);
            && (forall e :: e in Due(g.queue, first) ==> exists f :: f in fired && f.timer == e)
            && (forall f :: f in fired ==> f.timer.expire <= f.now <= last)
            && SortedByExpiry(fired) && Due(g'.queue, stopped) == {}
  {
    var (g', fired) := Turns(g, ts);
    TurnsInv(g, ts);
    NoneDueWhenDone(g', stopped);
    forall e | e in Due(g.queue, first)
      ensures exists f :: f in fired && f.timer == e
    {
      StaysOrFires(g, ts, e);
      assert e !in Due(g'.queue, stopped);
    }
    if g.queue != [] {
      TopExists(g.queue);
      var i: nat :| IsTop(g.queue, i);
      FiresInOrder(g, ts, g.queue[i].expire);
      forall f | f in fired
        ensures f.timer.expire <= f.now <= last
      {
        var k :| 0 <= k < |fired| && fired[k] == f;
        assert AtSomeTurn(fired[k].now, ts);
      }
    } else {
      assert ts == [];
    }
  }

  // ---------- termination ----------

  function Weight(e: Entry, limit: int): nat {
    1 + if e.persist && e.expire <= limit then limit + 1 - e.expire else 0
  }

  /** An upper bound on the turns left when the clock never passes `limit`. */
  function Work(q: seq<Entry>, limit: int): nat {
    if q == [] then 0 else Weight(q[0], limit) + Work(q[1..], limit)
  }

  lemma {:induction false} WorkAppend(q: seq<Entry>, r: seq<Entry>, limit: int)
    ensures Work(q + r, limit) == Work(q, limit) + Work(r, limit)
    decreases |q|
  {
    if q == [] {
      assert q + r == r;
    } else {
      assert (q + r)[1..] == q[1..] + r;
      WorkAppend(q[1..], r, limit);
    }
  }

  lemma WorkWithout(q: seq<Entry>, i: nat, limit: int)
    requires i < |q|
    ensures Work(Without(q, i), limit) + Weight(q[i], limit) == Work(q, limit)
  {
    assert q == q[..i] + q[i..] && q[i..][1..] == q[i + 1..];
    WorkAppend(q[..i], q[i..], limit);
    WorkAppend(q[..i], q[i + 1..], limit);
  }

  /** Under a clock that never passes `limit` and with positive periods, every turn but the last uses up some work. */
  lemma TurnWorks(g: Group, i: nat, now: int, limit: int)
    requires IsTop(g.queue, i) && !Stops(g.queue, i, now) && now <= limit && TimeoutsPositive(g.queue)
    ensures Work(Turn(g, i, now).0.queue, limit) < Work(g.queue, limit)
  {
    WorkWithout(g.queue, i, limit);
    var e := g.queue[i];
    if e.enabled && e.persist {
      var e' := e.(expire := now + e.timeout);
      WorkAppend(Without(g.queue, i), [e'], limit);
      assert [e'][1..] == [];
      assert Work([e'], limit) == Weight(e', limit);
    }
  }

  /** So Dispatch ends, after that many turns at most. */
  lemma {:induction false} DispatchEnds(g: Group, ts: seq<TurnAt>, limit: int)
    requires CanTurn(g, ts) && TimeoutsPositive(g.queue)
    requires forall k :: 0 <= k < |ts| ==> ts[k].now <= limit
    ensures |ts| <= Work(g.queue, limit)
    decreases |ts|
  {
    if ts != [] {
      TurnWorks(g, ts[0].top, ts[0].now, limit);
      TurnKeepsPositive(g, ts[0].top, ts[0].now);
      DispatchEnds(Turn(g, ts[0].top, ts[0].now).0, ts[1..], limit);
    }
  }

  /** A live persistent timer that is due and whose period is not positive. */
  ghost predicate Relentless(q: seq<Entry>, now: int) {
    exists i :: 0 <= i < |q| && NeverRests(q[i], now)
  }

  predicate NeverRests(e: Entry, now: int) {
    e.enabled && e.persist && e.expire <= now && e.timeout <= 0
  }

  ghost predicate EndsWithin(g: Group, now: int, bound: nat) {
    forall ts :: CanTurn(g, ts) && AllAt(ts, now) ==> |ts| <= bound
  }

  ghost predicate AllAt(ts: seq<TurnAt>, now: int) {
    forall k :: 0 <= k < |ts| ==> ts[k].now == now
  }

  /** The turns an entry can take at a fixed clock if none is relentless. */
  function Turning(e: Entry, now: int): nat {
    if e.enabled && e.persist && e.expire <= now then 2 else 1
  }

  function TurningAll(q: seq<Entry>, now: int): nat {
    if q == [] then 0 else Turning(q[0], now) + TurningAll(q[1..], now)
  }

  lemma {:induction false} TurningAppend(q: seq<Entry>, r: seq<Entry>, now: int)
    ensures TurningAll(q + r, now) == TurningAll(q, now) + TurningAll(r, now)
    decreases |q|
  {
    if q == [] {
      assert q + r == r;
    } else {
      assert (q + r)[1..] == q[1..] + r;
      TurningAppend(q[1..], r, now);
    }
  }

  lemma TurningWithout(q: seq<Entry>, i: nat, now: int)
    requires i < |q|
    ensures TurningAll(Without(q, i), now) + Turning(q[i], now) == TurningAll(q, now)
  {
    assert q == q[..i] + q[i..] && q[i..][1..] == q[i + 1..];
    TurningAppend(q[..i], q[i..], now);
    TurningAppend(q[..i], q[i + 1..], now);
  }

  lemma RestingTurn(g: Group, i: nat, now: int)
    requires IsTop(g.queue, i) && !Stops(g.queue, i, now) && !Relentless(g.queue, now)
    ensures var q := Turn(g, i, now).0.queue;
            !Relentless(q, now) && TurningAll(q, now) < TurningAll(g.queue, now)
  {
    hide Relentless, TurningAll, Without;
    TurningWithout(g.queue, i, now);
    RestingWithout(g.queue, i, now);
    var e := g.queue[i];
    if e.enabled && e.persist {
      var e' := e.(expire := now + e.timeout);
      TurningAppend(Without(g.queue, i), [e'], now);
      TurningOne(e', now);
      RestingAppend(Without(g.queue, i), e', now);
    }
  }

  lemma RestingWithout(q: seq<Entry>, i: nat, now: int)
    requires i < |q| && !Relentless(q, now)
    ensures !Relentless(Without(q, i), now) && !NeverRests(q[i], now)
  {
    WithoutElements(q, i);
  }

  lemma RestingAppend(q: seq<Entry>, e: Entry, now: int)
    requires !Relentless(q, now) && !NeverRests(e, now)
    ensures !Relentless(q + [e], now)
  {
  }

  lemma TurningOne(e: Entry, now: int)
    ensures TurningAll([e], now) == Turning(e, now)
  {
    assert [e][1..] == [];
  }

  lemma {:induction false} RestingEnds(g: Group, now: int, ts: seq<TurnAt>)
    requires !Relentless(g.queue, now) && CanTurn(g, ts) && AllAt(ts, now)
    ensures |ts| <= TurningAll(g.queue, now)
    decreases |ts|
  {
    if ts != [] {
      RestingTurn(g, ts[0].top, now);
      RestingEnds(Turn(g, ts[0].top, now).0, now, ts[1..]);
    }
  }

  lemma {:induction false} RelentlessGoesOn(g: Group, now: int, n: nat) returns (ts: seq<TurnAt>)
    requires Relentless(g.queue, now)
    ensures |ts| == n && CanTurn(g, ts) && AllAt(ts, now)
    decreases n
  {
    if n == 0 {
      ts := [];
    } else {
      TopExists(g.queue);
      var i: nat :| IsTop(g.queue, i);
      RelentlessTurn(g, i, now);
      var more := RelentlessGoesOn(Turn(g, i, now).0, now, n - 1);
      ts := [TurnAt(i, now)] + more;
      assert ts[1..] == more;
    }
  }

  lemma RelentlessTurn(g: Group, i: nat, now: int)
    requires IsTop(g.queue, i) && Relentless(g.queue, now)
    ensures !Stops(g.queue, i, now) && Relentless(Turn(g, i, now).0.queue, now)
  {
    WithoutElements(g.queue, i);
    var k :| 0 <= k < |g.queue| && NeverRests(g.queue[k], now);
    var q := Turn(g, i, now).0.queue;
    if k == i {
      assert NeverRests(q[|q| - 1], now);
    } else {
      assert g.queue[k] in Without(g.queue, i);
      var j :| 0 <= j < |Without(g.queue, i)| && Without(g.queue, i)[j] == g.queue[k];
      assert q[j] == g.queue[k];
    }
  }

  lemma TopExists(q: seq<Entry>)
    requires q != []
    ensures exists i: nat :: IsTop(q, i)
    decreases |q|
  {
    if |q| == 1 {
      assert IsTop(q, 0);
    } else {
      TopExists(q[1..]);
      var k: nat :| IsTop(q[1..], k);
      assert q[1..][k] == q[k + 1];
      assert forall j :: 1 <= j < |q| ==> q[j] == q[1..][j - 1];
      assert IsTop(q, if q[0].expire <= q[k + 1].expire then 0 else k + 1);
    }
  }

  /** At a clock that stands still the loop of Dispatch has a bound exactly if no live persistent timer that is due has
      a period that is not positive. */
  lemma StandingDispatchEndsIff(g: Group, now: int)
    ensures (exists bound :: EndsWithin(g, now, bound)) <==> !Relentless(g.queue, now)
  {
    if Relentless(g.queue, now) {
      forall bound: nat
        ensures !EndsWithin(g, now, bound)
      {
        var ts := RelentlessGoesOn(g, now, bound + 1);
      }
    } else {
      forall ts | CanTurn(g, ts) && AllAt(ts, now)
        ensures |ts| <= TurningAll(g.queue, now)
      {
        RestingEnds(g, now, ts);
      }
      assert EndsWithin(g, now, TurningAll(g.queue, now));
    }
  }

  // ---------- the answer of Dispatch ----------

  /** What Dispatch and GetMinTimeout answer, with entry i on top: -1 for an empty queue, otherwise the time left. */
  function Answer(q: seq<Entry>, i: nat, now: int): int
    requires q != [] ==> IsTop(q, i)
  {
    if q == [] then -1 else q[i].expire - now
  }

  /** After Dispatch has stopped at reading `then`, and with a second reading `now` for the answer: the answer is
      negative although a timer is live exactly if the clock has passed the earliest expiry in between. */
  lemma AnswerMisleadsIffClockPassed(g: Group, i: nat, stopped: int, now: int)
    requires Inv(g) && Done(g, stopped) && stopped <= now
    requires g.queue != [] ==> IsTop(g.queue, i)
    ensures Live(g.queue) == {} <==> g.queue == []
    ensures Live(g.queue) == {} ==> Answer(g.queue, i, now) == -1
    ensures Live(g.queue) != {} ==> (Answer(g.queue, i, now) < 0 <==> g.queue[i].expire < now)
    ensures Live(g.queue) != {} && now == stopped ==> Answer(g.queue, i, now) > 0
    ensures forall e :: e in Live(g.queue) ==> g.queue[i].expire <= e.expire
  {
    if g.queue != [] {
      var k: nat :| IsTop(g.queue, k) && Stops(g.queue, k, stopped);
      assert g.queue[k] in Live(g.queue);
    }
  }

  /** With the loop done, the answer is -1 if no timer is live, and otherwise the time to the earliest live expiry. */
  lemma AnswerIsEarliestLive(g: Group, i: nat, stopped: int, now: int)
    requires Inv(g) && Done(g, stopped)
    requires g.queue != [] ==> IsTop(g.queue, i)
    ensures EarliestLive(g.queue, now, Answer(g.queue, i, now))
  {
    if g.queue != [] {
      var k: nat :| IsTop(g.queue, k) && Stops(g.queue, k, stopped);
      assert g.queue[k] in Live(g.queue) && g.queue[k].expire == g.queue[i].expire;
    }
  }

  ghost predicate EarliestLive(q: seq<Entry>, now: int, answer: int) {
    if Live(q) == {} then answer == -1
    else (exists e :: e in Live(q) && answer == e.expire - now) && forall e :: e in Live(q) ==> answer <= e.expire - now
  }

  /** Right on the millisecond it even answers the value that means "no timer". */
  lemma AnswerMisleads()
    ensures var g := Group([Entry(1, 100, 50, true, true)], {1});
            Inv(g) && Done(g, 99) && Live(g.queue) != {} && Answer(g.queue, 0, 101) == -1
  {
    var g := Group([Entry(1, 100, 50, true, true)], {1});
    assert IsTop(g.queue, 0) && Stops(g.queue, 0, 99);
    assert InQueue(g.queue, 1) by { assert g.queue[0].id == 1; }
    assert g.queue[0] in Live(g.queue);
  }

  // ---------- whole runs ----------

  datatype Op = OpAdd(timer: Entry, now: int) | OpDel(id: nat, top: nat) | OpTurn(top: nat, now: int)

  /** A group with its past: UUIDs given out, firings so far, the last clock reading. */
  datatype History = History(g: Group, used: set<nat>, log: seq<Fire>, clock: int)

  /** Timers are added once, enabled, under a fresh UUID; the clock does not go back. */
  predicate Enabled(h: History, op: Op) {
    match op
    case OpAdd(e, now) => e.enabled && e.id !in h.used && h.clock <= now
    case OpDel(id, top) => id in h.g.table ==> IsTop(h.g.queue, top)
    case OpTurn(top, now) => IsTop(h.g.queue, top) && h.clock <= now
  }

  function Step(h: History, op: Op): History {
    if !Enabled(h, op) then h
    else match op
      case OpAdd(e, now) =>
        var (g1, fired) := EpollAdd(h.g, e, now);
        History(g1, h.used + {e.id}, h.log + fired, now)
      case OpDel(id, top) => h.(g := DelTimer(h.g, id, top))
      case OpTurn(top, now) =>
        var (g1, fired) := Turn(h.g, top, now);
        h.(g := g1, log := h.log + fired, clock := now)
  }

  function Run(h: History, ops: seq<Op>): History
    decreases |ops|
  {
    if ops == [] then h else Run(Step(h, ops[0]), ops[1..])
  }

  /** The order of re-arming: where a timer of an earlier firing is queued again, it is persistent and at least its
      period later. */
  ghost predicate Spaced(log: seq<Fire>, q: seq<Entry>) {
    forall f, k :: 0 <= f < |log| && 0 <= k < |q| && log[f].timer.id == q[k].id ==>
      && log[f].timer.persist && q[k].persist && q[k].timeout == log[f].timer.timeout
      && log[f].now + q[k].timeout <= q[k].expire
  }

  /** No firing before its time; a timer that fires again is persistent, and at least its period later. */
  ghost predicate FairLog(log: seq<Fire>) {
    && (forall f :: 0 <= f < |log| ==> log[f].timer.expire <= log[f].now)
    && (forall f, f' :: 0 <= f < f' < |log| && log[f].timer.id == log[f'].timer.id ==>
          log[f].timer.persist && log[f].now + log[f].timer.timeout <= log[f'].now)
  }

  ghost predicate HistInv(h: History) {
    && Inv(h.g)
    && (forall k :: 0 <= k < |h.g.queue| ==> h.g.queue[k].id in h.used)
    && (forall f :: 0 <= f < |h.log| ==> h.log[f].timer.id in h.used && h.log[f].now <= h.clock)
    && Spaced(h.log, h.g.queue)
    && FairLog(h.log)
  }

  lemma StepKeepsHistory(h: History, op: Op)
    requires HistInv(h)
    ensures HistInv(Step(h, op))
  {
    if Enabled(h, op) {
      match op
      case OpAdd(e, now) => AddKeepsHistory(h, e, now);
      case OpDel(id, top) => DelKeepsHistory(h, id, top);
      case OpTurn(top, now) => TurnKeepsHistory(h, top, now);
    }
  }

  lemma AddKeepsHistory(h: History, e: Entry, now: int)
    requires HistInv(h) && Enabled(h, OpAdd(e, now))
    ensures HistInv(Step(h, OpAdd(e, now)))
  {
    hide Inv;
    UnusedIsNew(h, e.id);
    if now < e.expire {
      AddRefinesSet(h.g, e);
    }
  }

  lemma UnusedIsNew(h: History, id: nat)
    requires HistInv(h) && id !in h.used
    ensures Inv(h.g) && !InQueue(h.g.queue, id) && id !in h.g.table
  {
  }

  lemma DelKeepsHistory(h: History, id: nat, top: nat)
    requires HistInv(h) && Enabled(h, OpDel(id, top))
    ensures HistInv(Step(h, OpDel(id, top)))
  {
    hide Inv, IsTop, Live, Disable, Without, Distinct, FairLog, Spaced, FromQueue;
    DelKeepsInv(h.g, id, top);
    var q, q' := h.g.queue, DelTimer(h.g, id, top).queue;
    forall k | 0 <= k < |q'|
      ensures FromQueue(q'[k], q) && q'[k].id in h.used
    {
      DelElement(h.g, id, top, k);
      FromQueueId(q'[k], q, h.used);
    }
    SpacedSurvives(h.log, q, q');
  }

  lemma DelKeepsInv(g: Group, id: nat, i: nat)
    requires Inv(g) && (id in g.table ==> IsTop(g.queue, i))
    ensures Inv(DelTimer(g, id, i))
  {
    DelRefinesSet(g, id, i);
  }

  lemma FromQueueId(e: Entry, q: seq<Entry>, used: set<nat>)
    requires FromQueue(e, q) && forall k :: 0 <= k < |q| ==> q[k].id in used
    ensures e.id in used
  {
  }

  ghost predicate FromQueue(e: Entry, q: seq<Entry>) {
    exists j :: 0 <= j < |q| && e == q[j].(enabled := e.enabled)
  }

  /** Deleting brings nothing new into the queue. */
  lemma DelElement(g: Group, id: nat, top: nat, k: nat)
    requires id in g.table ==> IsTop(g.queue, top)
    requires k < |DelTimer(g, id, top).queue|
    ensures FromQueue(DelTimer(g, id, top).queue[k], g.queue)
  {
    var e := DelTimer(g, id, top).queue[k];
    if id in g.table && g.queue[top].id == id {
      var j := if k < top then k else k + 1;
      assert e == g.queue[j];
    } else {
      assert e == g.queue[k].(enabled := e.enabled);
    }
  }

  lemma SpacedSurvives(log: seq<Fire>, q: seq<Entry>, q': seq<Entry>)
    requires Spaced(log, q)
    requires forall k :: 0 <= k < |q'| ==> FromQueue(q'[k], q)
    ensures Spaced(log, q')
  {
  }

  lemma TurnKeepsHistory(h: History, top: nat, now: int)
    requires HistInv(h) && Enabled(h, OpTurn(top, now))
    ensures HistInv(Step(h, OpTurn(top, now)))
  {
    TurnRefinesSet(h.g, top, now);
    WithoutElements(h.g.queue, top);
  }

  lemma {:induction false} RunKeepsHistory(h: History, ops: seq<Op>)
    requires HistInv(h)
    ensures HistInv(Run(h, ops))
    decreases |ops|
  {
    if ops != [] {
      StepKeepsHistory(h, ops[0]);
      RunKeepsHistory(Step(h, ops[0]), ops[1..]);
    }
  }

  /** Over every run: no timer fires before its expiry, a one-shot at most once, and the firings of a persistent timer
      are at least its period apart. */
  lemma FiringsAreFair(ops: seq<Op>, clock: int)
    ensures FairLog(Run(History(Group([], {}), {}, [], clock), ops).log)
  {
    RunKeepsHistory(History(Group([], {}), {}, [], clock), ops);
  }

  /** The timer is known and not live. */
  predicate Gone(h: History, id: nat) {
    id in h.used && id !in h.g.table
  }

  /** Nothing but other timers has fired since. */
  ghost predicate OthersFired(log: seq<Fire>, log': seq<Fire>, id: nat) {
    log <= log' && forall f :: |log| <= f < |log'| ==> log'[f].timer.id != id
  }

  lemma OthersFiredOn(log: seq<Fire>, log1: seq<Fire>, log2: seq<Fire>, id: nat)
    requires OthersFired(log, log1, id) && OthersFired(log1, log2, id)
    ensures OthersFired(log, log2, id)
  {
    forall f | |log| <= f < |log2|
      ensures log2[f].timer.id != id
    {
      if f < |log1| {
        assert log2[f] == log1[f];
      }
    }
  }

  lemma GoneStep(h: History, id: nat, op: Op)
    requires Inv(h.g) && Gone(h, id)
    ensures Gone(Step(h, op), id) && OthersFired(h.log, Step(h, op).log, id)
  {
    hide IsTop, Disable, Without, Distinct, InQueue;
    if Enabled(h, op) && op.OpTurn? {
      TopIsQueued(h.g.queue, op.top);
    }
  }

  lemma TopIsQueued(q: seq<Entry>, i: nat)
    requires IsTop(q, i)
    ensures i < |q|
  {
  }

  /** A timer known and not live, deleted by either path of DelTimer for instance, never fires again. */
  lemma {:induction false} DeletedNeverFires(h: History, id: nat, ops: seq<Op>)
    requires HistInv(h) && Gone(h, id)
    ensures OthersFired(h.log, Run(h, ops).log, id)
    decreases |ops|
  {
    hide Inv, Spaced, FairLog, Step, OthersFired, Gone;
    if ops == [] {
      OthersFiredNone(h.log, id);
    } else {
      GoneStep(h, id, ops[0]);
      StepKeepsHistory(h, ops[0]);
      var h1 := Step(h, ops[0]);
      DeletedNeverFires(h1, id, ops[1..]);
      OthersFiredOn(h.log, h1.log, Run(h1, ops[1..]).log, id);
    }
  }

  lemma OthersFiredNone(log: seq<Fire>, id: nat)
    ensures OthersFired(log, log, id)
  {
  }

  /** A timer that has expired when it is added fires there and then, and in no continuation again, persistent or not;
      the others are in the set of live timers from then on. */
  lemma ExpiredFiresOnce(h: History, e: Entry, now: int, ops: seq<Op>)
    requires HistInv(h) && Enabled(h, OpAdd(e, now))
    ensures var h1 := Step(h, OpAdd(e, now));
            var h2 := Run(h1, ops);
            && (e in Live(h1.g.queue) <==> now < e.expire)
            && (e.expire <= now ==>
                  && h1.log == h.log + [Fire(e, now)] && h1.log <= h2.log
                  && forall f :: 0 <= f < |h2.log| && f != |h.log| ==> h2.log[f].timer.id != e.id)
  {
    hide Inv, Live, Run;
    UnusedIsNew(h, e.id);
    AddKeepsHistory(h, e, now);
    if e.expire <= now {
      NotLive(h.g.queue, e);
      DeletedNeverFires(Step(h, OpAdd(e, now)), e.id, ops);
    } else {
      AddRefinesSet(h.g, e);
    }
  }

  lemma NotLive(q: seq<Entry>, e: Entry)
    requires !InQueue(q, e.id)
    ensures e !in Live(q)
  {
  }
}
