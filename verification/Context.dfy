/** The index of EdnContext as an object. Every method is proved to do what its function in ContextSpec says. */
module Contexts {
  import opened EdnDefine
  import opened ContextSpec

  class EdnContext {
    const sigFd: int
    var idleQueue: seq<Slot>
    var table: map<int, nat>
    var next: nat
    var fault: bool
    var activated: seq<Event>   // events whose handler was queued, oldest first

    ghost function State(): Index
      reads this
    {
      Index(idleQueue, table, next, fault)
    }

    constructor (sigFd: int)
      ensures State() == EMPTY && activated == [] && this.sigFd == sigFd
    {
      this.sigFd := sigFd;
      idleQueue, table, next, fault, activated := [], map[], 0, false, [];
    }

    method AddEvent(event: Event)
      modifies this
      ensures State() == ContextSpec.AddEvent(old(State()), event) && activated == old(activated)
    {
      var fd := event.GetFd();
      if fd != INVALID_FD {
        idleQueue := idleQueue + [Slot(next, event)];
        table := table[fd := next];
        next := next + 1;
      }
    }

    /** erase(it): walk to the place and take the element out. */
    method EraseAt(place: nat) returns (found: bool)
      modifies this`idleQueue
      ensures found == Find(old(idleQueue), place).Some?
      ensures idleQueue == Erase(old(idleQueue), place)
    {
      var i := 0;
      while i < |idleQueue| && idleQueue[i].place != place
        invariant i <= |idleQueue|
        invariant Find(idleQueue, place) == Find(idleQueue[i..], place)
        invariant Erase(idleQueue, place) == idleQueue[..i] + Erase(idleQueue[i..], place)
      {
        assert idleQueue[i..][1..] == idleQueue[i + 1..];
        assert idleQueue[..i + 1] == idleQueue[..i] + [idleQueue[i]];
        i := i + 1;
      }
      found := i < |idleQueue|;
      if found {
        assert idleQueue[i..][1..] == idleQueue[i + 1..];
        idleQueue := idleQueue[..i] + idleQueue[i + 1..];
      }
    }

    method DelEvent(event: Event)
      modifies this
      ensures State() == ContextSpec.DelEvent(old(State()), event) && activated == old(activated)
    {
      var fd := event.GetFd();
      if fd != INVALID_FD {
        if fd !in table {
          fault := true;
          return;
        }
        var found := EraseAt(table[fd]);
        if found {
          table := table - {fd};
        } else {
          ErasesNone(old(idleQueue), table[fd]);
          fault := true;
        }
      }
    }

    method GetEvent(fd: int) returns (event: Option<Event>)
      ensures event == ContextSpec.GetEvent(State(), fd)
    {
      if fd !in table {
        return None;
      }
      return Find(idleQueue, table[fd]);
    }

    method ActiveEvent(fixed: bool, key: int) returns (r: int)
      modifies this
      ensures var (e, x) := ContextSpec.ActiveEvent(fixed, sigFd, old(State()), key);
              && State() == x && activated == old(activated) + (if e.Some? then [e.value] else [])
              && r == if key in old(table) then EDN_OK else EDN_ERR_PARAMS_INVALID
    {
      if key !in table {
        return EDN_ERR_PARAMS_INVALID;
      }
      r := EDN_OK;
      var p := Find(idleQueue, table[key]);
      if p.None? || (TakenForIo(fixed, sigFd, p.value) && !p.value.kind.Io?) {
        fault := true;
        return;
      }
      activated := activated + [p.value];
      if !p.value.persist {
        DelEvent(p.value);
      }
    }
  }

  method Perform(context: EdnContext, fixed: bool, op: Op)
    modifies context
    ensures context.State() == Step(fixed, context.sigFd, old(context.State()), op)
  {
    if !context.fault {
      match op {
        case OpAdd(event) => context.AddEvent(event);
        case OpDel(event) => context.DelEvent(event);
        case OpActive(key) => var r := context.ActiveEvent(fixed, key);
      }
    }
  }

  /** Any sequence of operations on a new index: as long as it stays defined, looking up a key finds the event added
      last under it and not removed since. */
  method Serve(sigFd: int, fixed: bool, ops: seq<Op>) returns (context: EdnContext)
    ensures fresh(context) && context.State() == Run(fixed, sigFd, ops) && Sound(context.State())
    ensures forall key :: !context.fault && key != INVALID_FD ==> GetEvent(context.State(), key) == Latest(ops, key)
  {
    hide Step;
    context := new EdnContext(sigFd);
    assert ops[..0] == [];
    for i := 0 to |ops|
      invariant fresh(context) && context.sigFd == sigFd && context.State() == Run(fixed, sigFd, ops[..i])
    {
      assert ops[..i + 1][..i] == ops[..i];
      Perform(context, fixed, ops[i]);
    }
    assert ops[..|ops|] == ops;
    RunIsSound(fixed, sigFd, ops);
    forall key | !context.fault && key != INVALID_FD
      ensures GetEvent(context.State(), key) == Latest(ops, key)
    {
      GetFindsLatest(fixed, sigFd, ops, key);
    }
  }

  lemma {:induction false} ErasesNone(idle: seq<Slot>, place: nat)
    requires Find(idle, place).None?
    ensures Erase(idle, place) == idle
    decreases |idle|
  {
    if idle != [] {
      ErasesNone(idle[1..], place);
    }
  }
}
