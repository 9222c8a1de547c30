/** Cutting a byte stream into messages: the callbacks of EdnBuffer, and what the order of arrival may change. */
module Framing {
  import opened Arena

  /** One call of the data handler: the message it was given and how many bytes of it it took. */
  datatype Call = Call(msg: seq<byte>, taken: nat)

  /** `end` is message_end_cb_: 0 when no message is complete, otherwise the length of the first one. `handle` is
      handle_data_cb_; what it takes may depend on everything it was given before. */
  datatype Callbacks = Callbacks(end: seq<byte> -> nat, handle: (seq<Call>, seq<byte>) -> nat)

  ghost predicate WellBehaved(cb: Callbacks) {
    && (forall s :: cb.end(s) <= |s|)
    && (forall log, msg :: msg != [] ==> 1 <= cb.handle(log, msg) <= |msg|)
  }

  /** A message once found is not changed by what arrives after it. */
  ghost predicate Stable(end: seq<byte> -> nat) {
    forall s, t :: end(s) > 0 ==> end(s + t) == end(s)
  }

  datatype Parsed = Parsed(log: seq<Call>, rest: seq<byte>)

  /** The inner loop: hand over messages as long as the end callback finds one. */
  function Parse(cb: Callbacks, s: seq<byte>, log: seq<Call>): Parsed
    requires WellBehaved(cb)
    decreases |s|
  {
    var m := cb.end(s);
    if m == 0 then Parsed(log, s)
    else
      var k := cb.handle(log, s[..m]);
      Parse(cb, s[k..], log + [Call(s[..m], k)])
  }

  /** Parsing each time some bytes have arrived. */
  function Feed(cb: Callbacks, chunks: seq<seq<byte>>, rest: seq<byte>, log: seq<Call>): Parsed
    requires WellBehaved(cb)
    decreases |chunks|
  {
    if chunks == [] then Parsed(log, rest)
    else
      var p := Parse(cb, rest + chunks[0], log);
      Feed(cb, chunks[1..], p.rest, p.log)
  }

  function Concat(chunks: seq<seq<byte>>): seq<byte> {
    if chunks == [] then [] else chunks[0] + Concat(chunks[1..])
  }

  /** The bytes the handler has taken. */
  function Consumed(log: seq<Call>): seq<byte>
    requires forall i :: 0 <= i < |log| ==> log[i].taken <= |log[i].msg|
  {
    if log == [] then []
    else Consumed(log[..|log| - 1]) + log[|log| - 1].msg[..log[|log| - 1].taken]
  }

  ghost predicate Fair(log: seq<Call>) {
    forall i :: 0 <= i < |log| ==> 1 <= log[i].taken <= |log[i].msg|
  }

  /** Nothing is lost or made up by parsing, earlier calls are never revised, and what is left over holds no
      complete message. */
  lemma {:induction false} ParseConserves(cb: Callbacks, s: seq<byte>, log: seq<Call>)
    requires WellBehaved(cb) && Fair(log)
    ensures var p := Parse(cb, s, log);
            && Fair(p.log) && log <= p.log
            && Consumed(p.log) + p.rest == Consumed(log) + s
            && cb.end(p.rest) == 0
    decreases |s|
  {
    var m := cb.end(s);
    if m != 0 {
      var k := cb.handle(log, s[..m]);
      var log1 := log + [Call(s[..m], k)];
      assert log1[..|log1| - 1] == log;
      assert s[..m][..k] + s[k..] == s;
      assert Consumed(log1) + s[k..] == Consumed(log) + s;
      ParseConserves(cb, s[k..], log1);
    }
  }

  /** The i-th call was made for the first complete message of what the calls before it had left of s, with what the
      handler takes of that message after those calls. */
  ghost predicate Due(cb: Callbacks, s: seq<byte>, log: seq<Call>, i: nat)
    requires Fair(log) && i < |log|
  {
    && |Consumed(log[..i])| <= |s|
    && var left := s[|Consumed(log[..i])|..];
       && 0 < cb.end(left) <= |left|
       && log[i] == Call(left[..cb.end(left)], cb.handle(log[..i], left[..cb.end(left)]))
  }

  /** Each call of the inner loop is the one that was due: one whole message at a time, in order, from where the handler
      stopped. */
  lemma {:induction false} ParseCallsAreDue(cb: Callbacks, all: seq<byte>, s: seq<byte>, log: seq<Call>)
    requires WellBehaved(cb) && Fair(log) && Consumed(log) + s == all
    requires forall i :: 0 <= i < |log| ==> Due(cb, all, log, i)
    ensures var p := Parse(cb, s, log);
            Fair(p.log) && forall i :: 0 <= i < |p.log| ==> Due(cb, all, p.log, i)
    decreases |s|
  {
    hide Consumed;
    var m := cb.end(s);
    if m != 0 {
      var k := cb.handle(log, s[..m]);
      OneMoreDue(cb, all, s, log);
      ParseCallsAreDue(cb, all, s[k..], log + [Call(s[..m], k)]);
    }
  }

  lemma OneMoreDue(cb: Callbacks, all: seq<byte>, s: seq<byte>, log: seq<Call>)
    requires WellBehaved(cb) && Fair(log) && Consumed(log) + s == all && cb.end(s) > 0
    requires forall i :: 0 <= i < |log| ==> Due(cb, all, log, i)
    ensures var k := cb.handle(log, s[..cb.end(s)]);
            var log1 := log + [Call(s[..cb.end(s)], k)];
            && Fair(log1) && k <= |s| && Consumed(log1) + s[k..] == all
            && forall i :: 0 <= i < |log1| ==> Due(cb, all, log1, i)
  {
    var k := cb.handle(log, s[..cb.end(s)]);
    var log1 := log + [Call(s[..cb.end(s)], k)];
    assert log1[..|log|] == log;
    assert s[..cb.end(s)][..k] + s[k..] == s;
    hide Consumed;
    forall i | 0 <= i < |log1|
      ensures Due(cb, all, log1, i)
    {
      if i < |log| {
        assert log1[..i] == log[..i];
        assert Due(cb, all, log, i);
      } else {
        assert all[|Consumed(log)|..] == s;
      }
    }
  }

  /** With a stable end callback it does not matter where the stream is cut, whatever the handler takes. */
  lemma {:induction false} ParseSplit(cb: Callbacks, s: seq<byte>, t: seq<byte>, log: seq<Call>)
    requires WellBehaved(cb) && Stable(cb.end)
    ensures var p := Parse(cb, s, log);
            Parse(cb, s + t, log) == Parse(cb, p.rest + t, p.log)
    decreases |s|
  {
    var m := cb.end(s);
    if m != 0 {
      var k := cb.handle(log, s[..m]);
      assert cb.end(s + t) == m && (s + t)[..m] == s[..m];
      assert (s + t)[k..] == s[k..] + t;
      ParseSplit(cb, s[k..], t, log + [Call(s[..m], k)]);
    }
  }

  lemma {:induction false} FeedIsParse(cb: Callbacks, chunks: seq<seq<byte>>, rest: seq<byte>, log: seq<Call>)
    requires WellBehaved(cb) && Stable(cb.end) && cb.end(rest) == 0
    ensures Feed(cb, chunks, rest, log) == Parse(cb, rest + Concat(chunks), log)
    decreases |chunks|
  {
    if chunks == [] {
      assert rest + Concat(chunks) == rest;
    } else {
      var p := Parse(cb, rest + chunks[0], log);
      var tail := Concat(chunks[1..]);
      ParseEndsDry(cb, rest + chunks[0], log);
      FeedIsParse(cb, chunks[1..], p.rest, p.log);
      ParseSplit(cb, rest + chunks[0], tail, log);
      Associative(rest, chunks[0], tail);
      assert Feed(cb, chunks, rest, log) == Feed(cb, chunks[1..], p.rest, p.log);
    }
  }

  lemma {:induction false} FeedConserves(cb: Callbacks, chunks: seq<seq<byte>>, rest: seq<byte>, log: seq<Call>)
    requires WellBehaved(cb) && Fair(log)
    ensures var p := Feed(cb, chunks, rest, log);
            && Fair(p.log) && log <= p.log
            && Consumed(p.log) + p.rest == Consumed(log) + (rest + Concat(chunks))
    decreases |chunks|
  {
    if chunks == [] {
      assert rest + Concat(chunks) == rest;
    } else {
      var p := Parse(cb, rest + chunks[0], log);
      ParseConserves(cb, rest + chunks[0], log);
      FeedConserves(cb, chunks[1..], p.rest, p.log);
      var tail := Concat(chunks[1..]);
      Associative(Consumed(p.log), p.rest, tail);
      Associative(Consumed(log), rest + chunks[0], tail);
      Associative(rest, chunks[0], tail);
    }
  }

  lemma {:induction false} ParseEndsDry(cb: Callbacks, s: seq<byte>, log: seq<Call>)
    requires WellBehaved(cb)
    ensures cb.end(Parse(cb, s, log).rest) == 0
    ensures log <= Parse(cb, s, log).log
    decreases |s|
  {
    var m := cb.end(s);
    if m != 0 {
      var k := cb.handle(log, s[..m]);
      ParseEndsDry(cb, s[k..], log + [Call(s[..m], k)]);
    }
  }

  /** The handler is called the same way, and the same bytes stay behind, however the stream is cut up. */
  ghost predicate SegmentationFree(cb: Callbacks)
    requires WellBehaved(cb)
  {
    forall chunks :: Feed(cb, chunks, [], []) == Parse(cb, Concat(chunks), [])
  }

  /** Framing is independent of segmentation exactly for the stable end callbacks. */
  lemma SegmentationFreeIffStable(cb: Callbacks)
    requires WellBehaved(cb)
    ensures SegmentationFree(cb) <==> Stable(cb.end)
  {
    if Stable(cb.end) {
      forall chunks
        ensures Feed(cb, chunks, [], []) == Parse(cb, Concat(chunks), [])
      {
        FeedIsParse(cb, chunks, [], []);
        assert [] + Concat(chunks) == Concat(chunks);
      }
    }
    forall s, t | cb.end(s) > 0 && cb.end(s + t) != cb.end(s)
      ensures Feed(cb, [s, t], [], []) != Parse(cb, Concat([s, t]), [])
    {
      CutShows(cb, s, t);
    }
  }

  lemma FirstCall(cb: Callbacks, s: seq<byte>)
    requires WellBehaved(cb) && cb.end(s) > 0
    ensures var log := Parse(cb, s, []).log;
            log != [] && log[0] == Call(s[..cb.end(s)], cb.handle([], s[..cb.end(s)]))
  {
    var first := Call(s[..cb.end(s)], cb.handle([], s[..cb.end(s)]));
    assert [] + [first] == [first];
    ParseEndsDry(cb, s[first.taken..], [first]);
  }

  /** Where the end callback changes its mind, cutting there changes the very first call. */
  lemma CutShows(cb: Callbacks, s: seq<byte>, t: seq<byte>)
    requires WellBehaved(cb) && cb.end(s) > 0 && cb.end(s + t) != cb.end(s)
    ensures Feed(cb, [s, t], [], []) != Parse(cb, Concat([s, t]), [])
  {
    var p := Parse(cb, s, []);
    assert [] + s == s && [s, t][1..] == [t] && [t][1..] == [];
    FirstCall(cb, s);
    ParseEndsDry(cb, p.rest + t, p.log);
    assert Feed(cb, [s, t], [], []) == Feed(cb, [t], p.rest, p.log) == Parse(cb, p.rest + t, p.log);
    assert Concat([t]) == t + Concat([]) == t;
    assert Concat([s, t]) == s + Concat([t]) == s + t;
    if cb.end(s + t) > 0 {
      FirstCall(cb, s + t);
    }
  }

  /** EdnBuffer::DefaultMessageEndCb and DefaultHandleDataCb. */
  const DEFAULT_CALLBACKS := Callbacks((s: seq<byte>) => |s|, (log: seq<Call>, msg: seq<byte>) => |msg|)

  /** The default callbacks hand over whatever has arrived, so their calls do depend on segmentation. */
  lemma DefaultIsNotSegmentationFree()
    ensures WellBehaved(DEFAULT_CALLBACKS) && !SegmentationFree(DEFAULT_CALLBACKS)
  {
    var s: seq<byte> := [0];
    assert DEFAULT_CALLBACKS.end(s) == 1 && DEFAULT_CALLBACKS.end(s + s) == 2;
    SegmentationFreeIffStable(DEFAULT_CALLBACKS);
  }

  /** They take all that has arrived as one message. */
  lemma DefaultTakesAll(s: seq<byte>, log: seq<Call>)
    ensures WellBehaved(DEFAULT_CALLBACKS)
    ensures Parse(DEFAULT_CALLBACKS, s, log) == Parsed(if s == [] then log else log + [Call(s, |s|)], [])
  {
    if s != [] {
      assert s[..|s|] == s && s[|s|..] == [];
      assert Parse(DEFAULT_CALLBACKS, s, log) == Parse(DEFAULT_CALLBACKS, s[|s|..], log + [Call(s, |s|)]);
    }
  }

  lemma {:induction false} DefaultKeepsNothing(chunks: seq<seq<byte>>, log: seq<Call>)
    requires WellBehaved(DEFAULT_CALLBACKS)
    ensures Feed(DEFAULT_CALLBACKS, chunks, [], log).rest == []
    decreases |chunks|
  {
    if chunks != [] {
      DefaultTakesAll([] + chunks[0], log);
      DefaultKeepsNothing(chunks[1..], Parse(DEFAULT_CALLBACKS, [] + chunks[0], log).log);
    }
  }

  // ---------- end callbacks that answer more than has arrived ----------

  /** The handler alone is well behaved; the end callback may answer the length to be expected. */
  ghost predicate FairHandler(cb: Callbacks) {
    forall log, msg :: msg != [] ==> 1 <= cb.handle(log, msg) <= |msg|
  }

  /** The comparison that the source leaves out: a message counts once it is all there. */
  function Guard(cb: Callbacks): Callbacks {
    cb.(end := (s: seq<byte>) => Complete(cb.end, s))
  }

  function Complete(end: seq<byte> -> nat, s: seq<byte>): nat {
    if end(s) <= |s| then end(s) else 0
  }

  /** `Excess` is a call of the handler with more bytes than the window has, by `missing`. */
  datatype Outcome = Finished(parsed: Parsed) | Excess(parsed: Parsed, missing: nat)

  /** The inner loop for any end callback. */
  function ParseRaw(cb: Callbacks, s: seq<byte>, log: seq<Call>): Outcome
    requires FairHandler(cb)
    decreases |s|
  {
    var m := cb.end(s);
    if m == 0 then Finished(Parsed(log, s))
    else if m > |s| then Excess(Parsed(log, s), m - |s|)
    else
      var k := cb.handle(log, s[..m]);
      ParseRaw(cb, s[k..], log + [Call(s[..m], k)])
  }

  /** For every handler that is fair and every end callback: the loop does what it does with the comparison in place,
      and overruns exactly if that leaves a beginning for which more is expected. */
  lemma {:induction false} OverrunsIffMoreIsExpected(cb: Callbacks, s: seq<byte>, log: seq<Call>)
    requires FairHandler(cb)
    ensures WellBehaved(Guard(cb))
    ensures var p := Parse(Guard(cb), s, log);
            && (cb.end(p.rest) == 0 || cb.end(p.rest) > |p.rest|)
            && ParseRaw(cb, s, log) ==
               if cb.end(p.rest) == 0 then Finished(p) else Excess(p, cb.end(p.rest) - |p.rest|)
    decreases |s|
  {
    var m := cb.end(s);
    if 0 < m <= |s| {
      var k := cb.handle(log, s[..m]);
      OverrunsIffMoreIsExpected(cb, s[k..], log + [Call(s[..m], k)]);
    }
  }

  ghost predicate Fits(cb: Callbacks, s: seq<byte>)
    requires FairHandler(cb)
  {
    ParseRaw(cb, s, []).Finished?
  }

  /** No stream at all makes it overrun exactly if the callback never answers more than it is shown. */
  lemma NeverOverrunsIffBounded(cb: Callbacks)
    requires FairHandler(cb)
    ensures (forall s :: Fits(cb, s)) <==> forall s :: cb.end(s) <= |s|
  {
    forall s
      ensures cb.end(s) > |s| ==> !Fits(cb, s)
      ensures (forall t :: cb.end(t) <= |t|) ==> Fits(cb, s)
    {
      OverrunsIffMoreIsExpected(cb, s, []);
    }
  }

  /** For a callback that answers the expected length, and once it has answered does not change its mind, the
      comparison makes framing independent of segmentation. */
  lemma GuardedIsSegmentationFree(cb: Callbacks)
    requires FairHandler(cb) && Stable(cb.end)
    ensures WellBehaved(Guard(cb)) && Stable(Guard(cb).end) && SegmentationFree(Guard(cb))
  {
    SegmentationFreeIffStable(Guard(cb));
  }

  /** Calls of the inner loop, each time some bytes have arrived, for any end callback; an overrun ends them. */
  function FeedRaw(cb: Callbacks, chunks: seq<seq<byte>>, rest: seq<byte>, log: seq<Call>): Outcome
    requires FairHandler(cb)
    decreases |chunks|
  {
    if chunks == [] then Finished(Parsed(log, rest))
    else match ParseRaw(cb, rest + chunks[0], log)
      case Finished(p) => FeedRaw(cb, chunks[1..], p.rest, p.log)
      case Excess(p, missing) => Excess(p, missing)
  }

  lemma {:induction false} RawIsParse(cb: Callbacks, s: seq<byte>, log: seq<Call>)
    requires WellBehaved(cb)
    ensures ParseRaw(cb, s, log) == Finished(Parse(cb, s, log))
    decreases |s|
  {
    var m := cb.end(s);
    if m > 0 {
      var k := cb.handle(log, s[..m]);
      RawIsParse(cb, s[k..], log + [Call(s[..m], k)]);
    }
  }

  lemma {:induction false} RawIsFeed(cb: Callbacks, chunks: seq<seq<byte>>, rest: seq<byte>, log: seq<Call>)
    requires WellBehaved(cb)
    ensures FeedRaw(cb, chunks, rest, log) == Finished(Feed(cb, chunks, rest, log))
    decreases |chunks|
  {
    if chunks != [] {
      RawIsParse(cb, rest + chunks[0], log);
      var p := Parse(cb, rest + chunks[0], log);
      RawIsFeed(cb, chunks[1..], p.rest, p.log);
    }
  }

  /** However these bytes are cut, the loop does not overrun, and does the same as in one piece. */
  ghost predicate FramedSafely(cb: Callbacks, chunks: seq<seq<byte>>)
    requires FairHandler(cb)
  {
    FeedRaw(cb, chunks, [], []).Finished? && FeedRaw(cb, chunks, [], []) == ParseRaw(cb, Concat(chunks), [])
  }

  /** For every end callback: the loop as written frames every stream without overrun and independently of
      segmentation exactly if the callback answers what it is shown at most, and does not change its mind. */
  lemma FramedSafelyIff(cb: Callbacks)
    requires FairHandler(cb)
    ensures (forall chunks :: FramedSafely(cb, chunks)) <==> (forall s :: cb.end(s) <= |s|) && Stable(cb.end)
  {
    if forall s :: cb.end(s) <= |s| {
      forall chunks
        ensures FramedSafely(cb, chunks) <==> Feed(cb, chunks, [], []) == Parse(cb, Concat(chunks), [])
      {
        RawIsFeed(cb, chunks, [], []);
        RawIsParse(cb, Concat(chunks), []);
      }
      SegmentationFreeIffStable(cb);
    } else {
      NeverOverrunsIffBounded(cb);
      var s :| !Fits(cb, s);
      OneChunk(cb, s);
    }
  }

  lemma OneChunk(cb: Callbacks, s: seq<byte>)
    requires FairHandler(cb) && !Fits(cb, s)
    ensures !FramedSafely(cb, [s])
  {
    assert [] + s == s;
  }

  // ---------- handlers that may take nothing ----------

  /** The end callback answers what it is shown at most, and the handler takes no more than it is given: perhaps
      nothing. */
  ghost predicate Bounded(cb: Callbacks) {
    && (forall s :: cb.end(s) <= |s|)
    && (forall log, msg :: cb.handle(log, msg) <= |msg|)
  }

  /** One turn of the inner loop. */
  function TurnOnce(cb: Callbacks, p: Parsed): Parsed
    requires Bounded(cb)
  {
    var msg := p.rest[..cb.end(p.rest)];
    var k := cb.handle(p.log, msg);
    Parsed(p.log + [Call(msg, k)], p.rest[k..])
  }

  /** The inner loop, broken off after n turns. */
  function Turns(cb: Callbacks, p: Parsed, n: nat): Parsed
    requires Bounded(cb)
    decreases n
  {
    if n == 0 || cb.end(p.rest) == 0 then p else Turns(cb, TurnOnce(cb, p), n - 1)
  }

  ghost predicate Ends(cb: Callbacks, p: Parsed)
    requires Bounded(cb)
  {
    exists n: nat :: cb.end(Turns(cb, p, n).rest) == 0
  }

  /** Where the handler always takes something, enough turns are the parse. */
  lemma {:induction false} TurnsParse(cb: Callbacks, s: seq<byte>, log: seq<Call>) returns (n: nat)
    requires WellBehaved(cb) && Bounded(cb)
    ensures Turns(cb, Parsed(log, s), n) == Parse(cb, s, log)
    decreases |s|
  {
    n := 0;
    if cb.end(s) > 0 {
      var q := TurnOnce(cb, Parsed(log, s));
      var m := TurnsParse(cb, q.rest, q.log);
      n := m + 1;
    }
  }

  /** The calls of a handler that was given the same message j times and took nothing. */
  function Untaken(msg: seq<byte>, j: nat): seq<Call> {
    seq(j, _ => Call(msg, 0))
  }

  /** Offered the message again and again, the handler takes some of it at last. */
  ghost predicate TakesAtLast(cb: Callbacks, log: seq<Call>, msg: seq<byte>) {
    exists j: nat :: cb.handle(log + Untaken(msg, j), msg) > 0
  }

  /** A handler that takes something of every complete message at last. */
  ghost predicate Patient(cb: Callbacks)
    requires Bounded(cb)
  {
    forall s, log :: cb.end(s) > 0 ==> TakesAtLast(cb, log, s[..cb.end(s)])
  }

  /** How often the handler is to be offered what is complete now before it takes some of it. */
  lemma Offers(cb: Callbacks, p: Parsed) returns (j: nat)
    requires Bounded(cb) && Patient(cb)
    ensures TakesAfter(cb, p, j)
  {
    j := 0;
    if cb.end(p.rest) > 0 {
      var msg := p.rest[..cb.end(p.rest)];
      assert TakesAtLast(cb, p.log, msg);
      j :| cb.handle(p.log + Untaken(msg, j), msg) > 0;
    }
  }

  ghost predicate TakesAfter(cb: Callbacks, p: Parsed, j: nat)
    requires Bounded(cb)
  {
    cb.end(p.rest) > 0 ==>
      var msg := p.rest[..cb.end(p.rest)];
      cb.handle(p.log + Untaken(msg, j), msg) > 0
  }

  /** A turn that takes nothing is one offer less to make. */
  lemma OneOffer(cb: Callbacks, p: Parsed, j: nat)
    requires Bounded(cb) && TakesAfter(cb, p, j) && cb.end(p.rest) > 0
    requires cb.handle(p.log, p.rest[..cb.end(p.rest)]) == 0
    ensures j > 0 && TurnOnce(cb, p).rest == p.rest && TakesAfter(cb, TurnOnce(cb, p), j - 1)
  {
    var msg, q := p.rest[..cb.end(p.rest)], TurnOnce(cb, p);
    assert p.log + Untaken(msg, 0) == p.log;
    assert q.rest == p.rest;
    assert q.log + Untaken(msg, j - 1) == p.log + Untaken(msg, j);
  }

  lemma {:induction false} EndsAtLast(cb: Callbacks, p: Parsed, j: nat) returns (n: nat)
    requires Bounded(cb) && Patient(cb) && TakesAfter(cb, p, j)
    ensures cb.end(Turns(cb, p, n).rest) == 0
    decreases |p.rest|, j
  {
    hide TakesAfter, Patient;
    n := 0;
    if cb.end(p.rest) > 0 {
      var q := TurnOnce(cb, p);
      var m;
      if cb.handle(p.log, p.rest[..cb.end(p.rest)]) > 0 {
        var i := Offers(cb, q);
        m := EndsAtLast(cb, q, i);
      } else {
        OneOffer(cb, p, j);
        m := EndsAtLast(cb, q, j - 1);
      }
      n := m + 1;
    }
  }

  /** A handler that takes nothing of this message ever: the loop stays where it is. */
  lemma {:induction false} NeverEnds(cb: Callbacks, s: seq<byte>, log: seq<Call>, i: nat, n: nat)
    requires Bounded(cb) && cb.end(s) > 0 && !TakesAtLast(cb, log, s[..cb.end(s)])
    ensures Turns(cb, Parsed(log + Untaken(s[..cb.end(s)], i), s), n).rest == s
    decreases n
  {
    if n > 0 {
      var msg := s[..cb.end(s)];
      var here := log + Untaken(msg, i);
      assert cb.handle(here, msg) == 0;
      assert here + [Call(msg, 0)] == log + Untaken(msg, i + 1);
      NeverEnds(cb, s, log, i + 1, n - 1);
    }
  }

  /** The inner loop ends on every stream, whatever was handed over before, exactly if the handler, offered the same
      complete message again and again, takes some of it at last. */
  lemma AlwaysEndsIffPatient(cb: Callbacks)
    requires Bounded(cb)
    ensures (forall p :: Ends(cb, p)) <==> Patient(cb)
  {
    if Patient(cb) {
      forall p
        ensures Ends(cb, p)
      {
        var j := Offers(cb, p);
        var n := EndsAtLast(cb, p, j);
      }
    } else {
      var s, log :| cb.end(s) > 0 && !TakesAtLast(cb, log, s[..cb.end(s)]);
      forall n: nat
        ensures cb.end(Turns(cb, Parsed(log, s), n).rest) > 0
      {
        assert log + Untaken(s[..cb.end(s)], 0) == log;
        NeverEnds(cb, s, log, 0, n);
      }
      assert !Ends(cb, Parsed(log, s));
    }
  }

  /** For a handler whose answer depends on the message alone: exactly if it never answers 0 to a complete message. */
  lemma AlwaysEndsIffNeverZero(cb: Callbacks)
    requires Bounded(cb) && forall log, msg :: cb.handle(log, msg) == cb.handle([], msg)
    ensures (forall p :: Ends(cb, p)) <==> forall s :: cb.end(s) > 0 ==> cb.handle([], s[..cb.end(s)]) > 0
  {
    AlwaysEndsIffPatient(cb);
    forall s, log | cb.end(s) > 0
      ensures TakesAtLast(cb, log, s[..cb.end(s)]) <==> cb.handle([], s[..cb.end(s)]) > 0
    {
      assert cb.handle(log + Untaken(s[..cb.end(s)], 0), s[..cb.end(s)]) == cb.handle([], s[..cb.end(s)]);
    }
    forall s | cb.end(s) > 0 && cb.handle([], s[..cb.end(s)]) == 0
      ensures !Patient(cb)
    {
      assert !TakesAtLast(cb, [], s[..cb.end(s)]);
    }
  }
}
