/** The index of EdnContext on values: a list of events beside a table from keys to places in the list. */
module ContextSpec {
  import opened EdnDefine
  import opened TimerSpec

  /** HASH, which keeps signal numbers apart from file descriptors. */
  function Hash(sig: int): int {
    -(sig + 1)
  }

  datatype Kind = Timer | Signal(sig: int) | Io(fd: int)

  /** EdnEvent: what the index uses of it; `GetFd` is virtual. */
  datatype Event = Event(uuid: nat, kind: Kind, persist: bool) {
    function GetFd(): int {
      match kind
      case Timer => INVALID_FD
      case Signal(sig) => Hash(sig)
      case Io(fd) => fd
    }
  }

  /** An element of idle_queue_ and its place: list iterators stay valid and are not used twice. */
  datatype Slot = Slot(place: nat, event: Event)

  /** `idle` is idle_queue_, `table` is table_, `next` the next place; `fault` says that behaviour became undefined. */
  datatype Index = Index(idle: seq<Slot>, table: map<int, nat>, next: nat, fault: bool)

  const EMPTY := Index([], map[], 0, false)

  function Find(idle: seq<Slot>, place: nat): Option<Event> {
    if idle == [] then None
    else if idle[0].place == place then Some(idle[0].event)
    else Find(idle[1..], place)
  }

  function Erase(idle: seq<Slot>, place: nat): seq<Slot> {
    if idle == [] then []
    else if idle[0].place == place then idle[1..]
    else [idle[0]] + Erase(idle[1..], place)
  }

  /** AddEvent: timers are not indexed. */
  function AddEvent(x: Index, e: Event): Index {
    if e.GetFd() == INVALID_FD then x
    else x.(idle := x.idle + [Slot(x.next, e)], table := x.table[e.GetFd() := x.next], next := x.next + 1)
  }

  /** DelEvent: the place for an absent key is a default iterator, and erasing it undefined. */
  function DelEvent(x: Index, e: Event): Index {
    var key := e.GetFd();
    if key == INVALID_FD then x
    else if key !in x.table || Find(x.idle, x.table[key]).None? then x.(fault := true)
    else x.(idle := Erase(x.idle, x.table[key]), table := x.table - {key})
  }

  function GetEvent(x: Index, key: int): Option<Event> {
    if key in x.table then Find(x.idle, x.table[key]) else None
  }

  /** Whether ActiveEvent takes the event for one of I/O: as written by comparing with the fd of the signal pipe, and
      repaired (`fixed`) by its kind. Converting the events of anything else uses a null pointer. */
  predicate TakenForIo(fixed: bool, sigFd: int, e: Event) {
    if fixed then e.kind.Io? else e.GetFd() != sigFd
  }

  /** ActiveEvent: the event whose handler is queued, if any. */
  function ActiveEvent(fixed: bool, sigFd: int, x: Index, key: int): (Option<Event>, Index) {
    if key !in x.table then (None, x)
    else
      var found := Find(x.idle, x.table[key]);
      if found.None? || (TakenForIo(fixed, sigFd, found.value) && !found.value.kind.Io?) then (None, x.(fault := true))
      else (found, if found.value.persist then x else DelEvent(x, found.value))
  }

  // ---------- keys ----------

  /** The kinds of event that exist: descriptors are not negative, signals are numbered from 1. */
  predicate Proper(k: Kind) {
    match k
    case Timer => true
    case Signal(sig) => sig >= 1
    case Io(fd) => fd >= 0
  }

  /** The key tells timers, signals and I/O apart, and within a kind the descriptor or the signal. */
  lemma KeysNeverCollide(a: Event, b: Event)
    requires Proper(a.kind) && Proper(b.kind)
    ensures a.GetFd() == b.GetFd() <==> a.kind == b.kind
    ensures a.kind.Timer? <==> a.GetFd() == -1
    ensures a.kind.Signal? <==> a.GetFd() <= -2
    ensures a.kind.Io? <==> a.GetFd() >= 0
  {
  }

  /** The numbers from 1 on are all that can be signals: number 0 gets the key of the timers, and the number of an unset
      signal that of descriptor 0. */
  lemma SignalKeyIsOwnIff(sig: int)
    ensures (forall k: Kind :: Proper(k) && Event(0, k, true).GetFd() == Hash(sig) ==> k == Signal(sig)) <==> sig >= 1
  {
    if sig < 1 {
      var k := if sig == 0 then Timer else Io(Hash(sig));
      assert Proper(k) && Event(0, k, true).GetFd() == Hash(sig);
    }
  }

  // ---------- the table stays sound ----------

  ghost predicate Unique(idle: seq<Slot>) {
    forall i, j :: 0 <= i < j < |idle| ==> idle[i].place != idle[j].place
  }

  /** Every key in the table leads to an event in the list with that key. */
  ghost predicate Sound(x: Index) {
    && Unique(x.idle)
    && (forall i :: 0 <= i < |x.idle| ==> x.idle[i].place < x.next)
    && (forall key :: key in x.table ==>
          key != INVALID_FD && Find(x.idle, x.table[key]).Some? && Find(x.idle, x.table[key]).value.GetFd() == key)
  }

  /** And every event in the list is led to by its key. */
  ghost predicate Complete(x: Index) {
    forall i :: 0 <= i < |x.idle| ==> Indexed(x.table, x.idle[i])
  }

  predicate Indexed(table: map<int, nat>, s: Slot) {
    s.event.GetFd() in table && table[s.event.GetFd()] == s.place
  }

  lemma {:induction false} FindAppend(idle: seq<Slot>, s: Slot, place: nat)
    ensures Find(idle + [s], place) ==
            if Find(idle, place).Some? then Find(idle, place) else if s.place == place then Some(s.event) else None
    decreases |idle|
  {
    if idle == [] {
      assert [] + [s] == [s];
    } else {
      assert (idle + [s])[1..] == idle[1..] + [s];
      FindAppend(idle[1..], s, place);
    }
  }

  lemma {:induction false} FindIsAt(idle: seq<Slot>, place: nat)
    ensures Find(idle, place).None? <==> forall i :: 0 <= i < |idle| ==> idle[i].place != place
    ensures Find(idle, place).Some? ==> Slot(place, Find(idle, place).value) in idle
    decreases |idle|
  {
    if idle != [] {
      FindIsAt(idle[1..], place);
    }
  }

  lemma {:induction false} EraseElements(idle: seq<Slot>, place: nat)
    requires Unique(idle)
    ensures forall s :: s in Erase(idle, place) <==> s in idle && s.place != place
    ensures Unique(Erase(idle, place))
    decreases |idle|
  {
    if idle != [] {
      EraseElements(idle[1..], place);
      forall s | s in idle[1..]
        ensures s.place != idle[0].place
      {
      }
    }
  }

  lemma FindUnique(idle: seq<Slot>, s: Slot)
    requires Unique(idle) && s in idle
    ensures Find(idle, s.place) == Some(s.event)
  {
    FindIsAt(idle, s.place);
  }

  lemma FindErased(idle: seq<Slot>, gone: nat, place: nat)
    requires Unique(idle)
    ensures Find(Erase(idle, gone), place) == if place == gone then None else Find(idle, place)
  {
    EraseElements(idle, gone);
    FindIsAt(idle, place);
    FindIsAt(Erase(idle, gone), place);
    if place != gone && Find(idle, place).Some? {
      FindUnique(Erase(idle, gone), Slot(place, Find(idle, place).value));
    }
  }

  /** Adding puts the event under its key, whatever was there, and leaves the other keys. */
  lemma AddRefinesMap(x: Index, e: Event, key: int)
    requires Sound(x)
    ensures Sound(AddEvent(x, e))
    ensures GetEvent(AddEvent(x, e), key) ==
            if key == e.GetFd() && key != INVALID_FD then Some(e) else GetEvent(x, key)
  {
    if e.GetFd() != INVALID_FD {
      var s := Slot(x.next, e);
      FindIsAt(x.idle, x.next);
      forall place
        ensures Find(x.idle + [s], place) == if place == x.next then Some(e) else Find(x.idle, place)
      {
        FindAppend(x.idle, s, place);
      }
      forall k | k in x.table
        ensures x.table[k] != x.next
      {
      }
    }
  }

  /** Deleting takes the key out, and leaves the others; it is undefined exactly for a key that is not there. */
  lemma DelRefinesMap(x: Index, e: Event, key: int)
    requires Sound(x) && !x.fault
    ensures Sound(DelEvent(x, e))
    ensures DelEvent(x, e).fault <==> e.GetFd() != INVALID_FD && e.GetFd() !in x.table
    ensures GetEvent(DelEvent(x, e), key) == if key == e.GetFd() then None else GetEvent(x, key)
  {
    var gone := e.GetFd();
    if gone != INVALID_FD && gone in x.table {
      var place := x.table[gone];
      EraseElements(x.idle, place);
      forall k | k in x.table - {gone}
        ensures Find(Erase(x.idle, place), x.table[k]) == Find(x.idle, x.table[k])
      {
        FindErased(x.idle, place, x.table[k]);
      }
      forall i | 0 <= i < |Erase(x.idle, place)|
        ensures Erase(x.idle, place)[i].place < x.next
      {
        assert Erase(x.idle, place)[i] in x.idle;
      }
    }
  }

  /** Activating removes exactly the events that are not persistent, and reports exactly the event under the key. */
  lemma ActiveRefinesMap(fixed: bool, sigFd: int, x: Index, active: int, key: int)
    requires Sound(x) && !x.fault
    ensures var (e, x') := ActiveEvent(fixed, sigFd, x, active);
            && Sound(x')
            && (!x'.fault ==> e == GetEvent(x, active))
            && (!x'.fault ==>
                  GetEvent(x', key) == if key == active && e.Some? && !e.value.persist then None else GetEvent(x, key))
  {
    if active in x.table {
      var found := Find(x.idle, x.table[active]).value;
      DelRefinesMap(x, found, key);
    }
  }

  /** As written, ActiveEvent is undefined for an indexed event exactly if that is not one of I/O, so for every signal;
      with the kinds told apart it never is. */
  lemma ActiveFaultsIffNotIo(fixed: bool, sigFd: int, x: Index, key: int)
    requires Sound(x) && !x.fault && sigFd >= 0
    requires GetEvent(x, key).Some? ==> Proper(GetEvent(x, key).value.kind)
    ensures ActiveEvent(fixed, sigFd, x, key).1.fault <==>
            !fixed && GetEvent(x, key).Some? && GetEvent(x, key).value.kind.Signal?
  {
    if key in x.table {
      var found := Find(x.idle, x.table[key]).value;
      DelRefinesMap(x, found, key);
    }
  }

  /** A signal is added and caught. */
  lemma SignalFaults(sigFd: int)
    requires sigFd >= 0
    ensures var e := Event(1, Signal(2), true);
            ActiveEvent(false, sigFd, AddEvent(EMPTY, e), Hash(2)).1.fault
  {
    var e := Event(1, Signal(2), true);
    AddRefinesMap(EMPTY, e, Hash(2));
    ActiveFaultsIffNotIo(false, sigFd, AddEvent(EMPTY, e), Hash(2));
  }

  // ---------- over whole runs ----------

  datatype Op = OpAdd(event: Event) | OpDel(event: Event) | OpActive(key: int)

  /** Nothing more happens once behaviour is undefined. */
  function Step(fixed: bool, sigFd: int, x: Index, op: Op): Index {
    if x.fault then x
    else match op
      case OpAdd(e) => AddEvent(x, e)
      case OpDel(e) => DelEvent(x, e)
      case OpActive(key) => ActiveEvent(fixed, sigFd, x, key).1
  }

  /** The run of `ops`, the last of them last. */
  function Run(fixed: bool, sigFd: int, ops: seq<Op>): Index {
    if ops == [] then EMPTY
    else Step(fixed, sigFd, Run(fixed, sigFd, ops[..|ops| - 1]), ops[|ops| - 1])
  }

  /** The reference: the event added last under the key and not deleted, nor activated and not persistent, since. */
  function Latest(ops: seq<Op>, key: int): Option<Event> {
    if ops == [] then None
    else
      var before := Latest(ops[..|ops| - 1], key);
      match ops[|ops| - 1]
      case OpAdd(e) => if e.GetFd() == key then Some(e) else before
      case OpDel(e) => if e.GetFd() == key then None else before
      case OpActive(k) => if k == key && before.Some? && !before.value.persist then None else before
  }

  lemma {:induction false} RunIsSound(fixed: bool, sigFd: int, ops: seq<Op>)
    ensures Sound(Run(fixed, sigFd, ops))
    decreases |ops|
  {
    if ops != [] {
      var x := Run(fixed, sigFd, ops[..|ops| - 1]);
      RunIsSound(fixed, sigFd, ops[..|ops| - 1]);
      if !x.fault {
        match ops[|ops| - 1]
        case OpAdd(e) => AddRefinesMap(x, e, 0);
        case OpDel(e) => DelRefinesMap(x, e, 0);
        case OpActive(key) => ActiveRefinesMap(fixed, sigFd, x, key, 0);
      }
    }
  }

  /** GetEvent finds the event added last and not removed since, over every run that stays defined. */
  lemma {:induction false} GetFindsLatest(fixed: bool, sigFd: int, ops: seq<Op>, key: int)
    requires key != INVALID_FD && !Run(fixed, sigFd, ops).fault
    ensures GetEvent(Run(fixed, sigFd, ops), key) == Latest(ops, key)
    decreases |ops|
  {
    if ops != [] {
      var x := Run(fixed, sigFd, ops[..|ops| - 1]);
      RunIsSound(fixed, sigFd, ops[..|ops| - 1]);
      GetFindsLatest(fixed, sigFd, ops[..|ops| - 1], key);
      match ops[|ops| - 1]
      case OpAdd(e) => AddRefinesMap(x, e, key);
      case OpDel(e) => DelRefinesMap(x, e, key);
      case OpActive(k) => ActiveRefinesMap(fixed, sigFd, x, k, key);
    }
  }

  /** Table and list are in bijection, and adding keeps them so exactly for a key that is not in use. */
  lemma AddKeepsBijectionIffFresh(x: Index, e: Event)
    requires Sound(x) && Complete(x)
    ensures Complete(AddEvent(x, e)) <==> e.GetFd() !in x.table
  {
    if e.GetFd() != INVALID_FD {
      var x' := AddEvent(x, e);
      if e.GetFd() in x.table {
        OldSlot(x, e.GetFd());
        var i :| 0 <= i < |x.idle| && x.idle[i].event.GetFd() == e.GetFd() && x.idle[i].place < x.next;
        assert x'.idle[i] == x.idle[i] && !Indexed(x'.table, x'.idle[i]);
      } else {
        forall i | 0 <= i < |x'.idle|
          ensures Indexed(x'.table, x'.idle[i])
        {
          assert i < |x.idle| ==> Indexed(x.table, x.idle[i]);
        }
      }
    }
  }

  lemma OldSlot(x: Index, key: int)
    requires Sound(x) && key in x.table
    ensures exists i :: 0 <= i < |x.idle| && x.idle[i].event.GetFd() == key && x.idle[i].place < x.next
  {
    FindIsAt(x.idle, x.table[key]);
    var s := Slot(x.table[key], Find(x.idle, x.table[key]).value);
    var i :| 0 <= i < |x.idle| && x.idle[i] == s;
    assert x.idle[i].event.GetFd() == key;
  }

  /** Deleting, and so activating, always keeps them in bijection. */
  lemma DelKeepsBijection(x: Index, e: Event)
    requires Sound(x) && Complete(x) && !x.fault
    ensures Complete(DelEvent(x, e))
  {
    var key := e.GetFd();
    if key != INVALID_FD && key in x.table && Find(x.idle, x.table[key]).Some? {
      var idle := Erase(x.idle, x.table[key]);
      EraseElements(x.idle, x.table[key]);
      forall i | 0 <= i < |idle|
        ensures Indexed(x.table - {key}, idle[i])
      {
        assert idle[i] in x.idle;
        assert Indexed(x.table, idle[i]);
      }
    }
  }

  // ---------- an event whose key is taken over ----------

  /** In the list, and led to by no key. */
  predicate Orphan(x: Index, s: Slot) {
    s in x.idle && forall key :: key in x.table ==> x.table[key] != s.place
  }

  /** The event that was under a key when the key is used again is an orphan from then on, */
  lemma ReusedKeyOrphans(x: Index, e: Event)
    requires Sound(x) && e.GetFd() in x.table
    ensures Orphan(AddEvent(x, e), Slot(x.table[e.GetFd()], GetEvent(x, e.GetFd()).value))
  {
    var key := e.GetFd();
    var s := Slot(x.table[key], GetEvent(x, key).value);
    FindIsAt(x.idle, x.table[key]);
    assert s in x.idle;
    var x' := AddEvent(x, e);
    forall k | k in x'.table
      ensures x'.table[k] != s.place
    {
    }
  }

  /** and no operation ever takes it out: the list, which Run asks before it leaves its loop, never gets empty again. */
  lemma {:induction false} OrphanForGood(fixed: bool, sigFd: int, x: Index, s: Slot, ops: seq<Op>)
    requires Sound(x) && Orphan(x, s)
    ensures Orphan(RunFrom(fixed, sigFd, x, ops), s) && RunFrom(fixed, sigFd, x, ops).idle != []
    decreases |ops|
  {
    if ops != [] {
      OrphanStep(fixed, sigFd, x, s, ops[0]);
      OrphanForGood(fixed, sigFd, Step(fixed, sigFd, x, ops[0]), s, ops[1..]);
    }
  }

  function RunFrom(fixed: bool, sigFd: int, x: Index, ops: seq<Op>): Index
    decreases |ops|
  {
    if ops == [] then x else RunFrom(fixed, sigFd, Step(fixed, sigFd, x, ops[0]), ops[1..])
  }

  lemma OrphanStep(fixed: bool, sigFd: int, x: Index, s: Slot, op: Op)
    requires Sound(x) && Orphan(x, s)
    ensures Sound(Step(fixed, sigFd, x, op)) && Orphan(Step(fixed, sigFd, x, op), s)
  {
    if !x.fault {
      match op
      case OpAdd(e) =>
        AddRefinesMap(x, e, 0);
      case OpDel(e) =>
        DelRefinesMap(x, e, 0);
        OrphanDel(x, s, e);
      case OpActive(key) =>
        ActiveRefinesMap(fixed, sigFd, x, key, 0);
        if key in x.table && Find(x.idle, x.table[key]).Some? {
          OrphanDel(x, s, Find(x.idle, x.table[key]).value);
        }
    }
  }

  lemma OrphanDel(x: Index, s: Slot, e: Event)
    requires Sound(x) && Orphan(x, s)
    ensures Orphan(DelEvent(x, e), s)
  {
    if e.GetFd() in x.table {
      EraseElements(x.idle, x.table[e.GetFd()]);
    }
  }

  // ---------- leaving the event loop ----------

  /** Run leaves its loop for want of events. */
  predicate Leaves(x: Index, timeout: int) {
    timeout < 0 && x.idle == []
  }

  /** The answer of the last Dispatch makes Run leave exactly if no event is listed and either no timer is live or the
      earliest expiry went by between the two clock readings of that Dispatch; so with nothing listed it can leave
      beside a live timer, and never beside a listed event. */
  lemma LeavesIff(x: Index, g: Group, i: nat, stopped: int, now: int)
    requires Inv(g) && Done(g, stopped) && stopped <= now
    requires g.queue != [] ==> IsTop(g.queue, i)
    ensures Leaves(x, Answer(g.queue, i, now)) <==>
            x.idle == [] && (Live(g.queue) == {} || g.queue[i].expire < now)
  {
    AnswerMisleadsIffClockPassed(g, i, stopped, now);
  }

  /** Nothing is listed exactly if no key finds an event, as long as no key was used twice. */
  lemma ListedIffFound(x: Index)
    requires Sound(x)
    ensures x.idle == [] ==> forall key :: GetEvent(x, key) == None
    ensures Complete(x) && (forall key :: GetEvent(x, key) == None) ==> x.idle == []
  {
    if Complete(x) && x.idle != [] {
      assert Indexed(x.table, x.idle[0]);
      assert x.idle[0] in x.idle;
      FindUnique(x.idle, x.idle[0]);
      assert GetEvent(x, x.idle[0].event.GetFd()).Some?;
    }
  }
}
