/**
 * XmlUtils.CachingContentHandler: a SAX ContentHandler that forwards every
 * event to a delegate while recording it, so that the recorded events can
 * later be replayed on another handler. Recording can be paused and resumed,
 * optionally dropping or adding the event that triggered the pause/unpause.
 *
 * The delegate is modelled as a flag (is it non-null?) plus the log of what it
 * has received; a replay target is modelled by the list of events it receives.
 * Thrown exceptions become an Outcome.
 */
module XmlCaching {
  import opened Wrappers

  /** One SAX event, as recorded by the handler's CachedCommand classes. */
  datatype Event =
    | StartDocument
    | ProcessingInstruction(target: string, data: string)
    | SkippedEntity(name: string)
    | StartPrefixMapping(prefix: string, uri: string)
    | EndPrefixMapping(prefix: string)
    | StartElement(uri: string, localName: string, qName: string, attributes: seq<(string, string)>)
    | Characters(characters: string)
    | IgnorableWhitespace(characters: string)
    | EndElement(uri: string, localName: string, qName: string)
    | EndDocument

  /** What the delegate receives: a recorded event, or a document locator (never cached). */
  datatype Delivery = Forward(event: Event) | DocumentLocator(locator: nat)

  /** The exceptions the handler throws. */
  datatype Failure =
    | AlreadyPaused        // pause while paused
    | NotPaused            // unpause while not paused
    | EmptyCacheRemove     // pause(false) with nothing cached: List.remove(-1)
    | NothingToReplay      // replay with an empty cache
    | DelegateNotReleased  // replay while the delegate is still set
    | AlreadyCached        // startDocument while recording, after events were cached
    | NullDelegate         // an event forwarded after the delegate was released
    | NullCommand          // replay reaches a null entry (unpause(true) before any event)
    | BadRange             // characters/ignorableWhitespace with start/length outside the array

  datatype Outcome = Done | Thrown(failure: Failure)

  /**
   * The handler's fields: mDelegate (non-null?), what the delegate has been
   * sent, mLastCommand, mCache (null entries possible) and mCachingPaused.
   */
  datatype HandlerState = HandlerState(
    delegateSet: bool,
    forwarded: seq<Delivery>,
    lastCommand: Option<Event>,
    cache: seq<Option<Event>>,
    paused: bool)

  datatype Step = Step(state: HandlerState, outcome: Outcome)

  datatype Replayed = Replayed(delivered: seq<Event>, outcome: Outcome)

  /** A newly constructed handler. */
  function Fresh(delegateSet: bool): HandlerState {
    HandlerState(delegateSet, [], None, [], false)
  }

  /** pause(includeLastEvent). */
  function PauseStep(s: HandlerState, includeLastEvent: bool): (r: Step)
    ensures r.outcome.Thrown? <==> s.paused || (!includeLastEvent && s.cache == [])
    ensures s.paused ==> r == Step(s, Thrown(AlreadyPaused))
    ensures !s.paused ==> r.state.paused
    ensures r.outcome.Done? ==>
              r.state == s.(paused := true, cache := if includeLastEvent then s.cache else s.cache[..|s.cache| - 1])
  {
    if s.paused then Step(s, Thrown(AlreadyPaused))
    else
      var s1 := s.(paused := true);
      if includeLastEvent then Step(s1, Done)
      else if |s1.cache| == 0 then Step(s1, Thrown(EmptyCacheRemove))
      else Step(s1.(cache := s1.cache[..|s1.cache| - 1]), Done)
  }

  /** unpause(includeLastEvent). */
  function UnpauseStep(s: HandlerState, includeLastEvent: bool): (r: Step)
    ensures r.outcome.Thrown? <==> !s.paused
    ensures !s.paused ==> r == Step(s, Thrown(NotPaused))
    ensures s.paused ==>
              r == Step(s.(paused := false, cache := if includeLastEvent then s.cache + [s.lastCommand] else s.cache), Done)
  {
    if !s.paused then Step(s, Thrown(NotPaused))
    else
      var s1 := s.(paused := false);
      if includeLastEvent then Step(s1.(cache := s1.cache + [s1.lastCommand]), Done)
      else Step(s1, Done)
  }

  /** releaseDelegate: drops the delegate and the last command. */
  function Release(s: HandlerState): HandlerState {
    s.(delegateSet := false, lastCommand := None)
  }

  /** mLastCommand.replay(mDelegate): a NullPointerException once the delegate is gone. */
  function Deliver(s: HandlerState, d: Delivery): Step {
    if s.delegateSet then Step(s.(forwarded := s.forwarded + [d]), Done)
    else Step(s, Thrown(NullDelegate))
  }

  /** The body shared by every event handler: remember, cache unless paused, forward. */
  function Record(s: HandlerState, e: Event): Step {
    var s1 := s.(lastCommand := Some(e));
    var s2 := if s1.paused then s1 else s1.(cache := s1.cache + [Some(e)]);
    Deliver(s2, Forward(e))
  }

  /**
   * The handler's reaction to one event: startDocument refuses to record a
   * second document, endDocument releases the delegate after forwarding.
   */
  function Receive(s: HandlerState, e: Event): Step
  {
    match e
    case StartDocument =>
      if !s.paused && |s.cache| != 0 then Step(s.(lastCommand := Some(e)), Thrown(AlreadyCached))
      else Record(s, e)
    case EndDocument =>
      var r := Record(s, e);
      if r.outcome.Done? then Step(Release(r.state), Done) else r
    case _ => Record(s, e)
  }

  /**
   * Which events throw: startDocument while recording after events were
   * cached, and any event once the delegate is gone.
   */
  lemma ReceiveOutcome(s: HandlerState, e: Event)
    ensures Receive(s, e).outcome ==
              if e.StartDocument? && !s.paused && s.cache != [] then Thrown(AlreadyCached)
              else if !s.delegateSet then Thrown(NullDelegate)
              else Done
    ensures Receive(s, e).state.paused == s.paused
  {
  }

  /**
   * An event that does not throw is remembered, cached unless paused and
   * forwarded; endDocument then releases the delegate.
   */
  lemma ReceiveDone(s: HandlerState, e: Event)
    requires Receive(s, e).outcome.Done?
    ensures Receive(s, e).state == s.(
              delegateSet := !e.EndDocument?,
              lastCommand := if e.EndDocument? then None else Some(e),
              cache := if s.paused then s.cache else s.cache + [Some(e)],
              forwarded := s.forwarded + [Forward(e)])
  {
  }

  /** The handler fed a sequence of events, stopping at the first exception. */
  function Run(s: HandlerState, es: seq<Event>): Step
    decreases |es|
  {
    if es == [] then Step(s, Done)
    else
      var r := Receive(s, es[0]);
      if r.outcome.Thrown? then r else Run(r.state, es[1..])
  }

  /** The cache entries for events recorded in order. */
  function Cached(es: seq<Event>): seq<Option<Event>> {
    if es == [] then [] else [Some(es[0])] + Cached(es[1..])
  }

  /** What the delegate receives for events forwarded in order. */
  function Forwarded(es: seq<Event>): seq<Delivery> {
    if es == [] then [] else [Forward(es[0])] + Forwarded(es[1..])
  }

  /**
   * The loop of replay: each cached command is replayed in order; a null
   * entry throws a NullPointerException after the earlier ones were delivered.
   * So the events delivered are exactly the cache's entries before its first
   * null entry, and the replay succeeds exactly when there is none.
   */
  function ReplayCommands(cache: seq<Option<Event>>): Replayed
  {
    if cache == [] then Replayed([], Done)
    else if cache[0].None? then Replayed([], Thrown(NullCommand))
    else
      var rest := ReplayCommands(cache[1..]);
      Replayed([cache[0].value] + rest.delivered, rest.outcome)
  }

  /**
   * The events a replay delivers are exactly the cache's entries before its
   * first null entry, and the replay succeeds exactly when there is none.
   */
  lemma {:induction false} ReplayStopsAtNull(cache: seq<Option<Event>>)
    ensures var r := ReplayCommands(cache);
            (r.outcome.Done? <==> forall i | 0 <= i < |cache| :: cache[i].Some?) &&
            (r.outcome.Thrown? ==> r.outcome == Thrown(NullCommand) && |r.delivered| < |cache| &&
                                   cache[|r.delivered|].None?) &&
            (r.outcome.Done? ==> |r.delivered| == |cache|) &&
            |r.delivered| <= |cache| &&
            forall i | 0 <= i < |r.delivered| :: cache[i] == Some(r.delivered[i])
    decreases |cache|
  {
    if cache != [] && cache[0].Some? {
      ReplayStopsAtNull(cache[1..]);
      var rest := ReplayCommands(cache[1..]);
      var r := ReplayCommands(cache);
      forall i | 0 <= i < |r.delivered| ensures cache[i] == Some(r.delivered[i]) {
        if i > 0 { assert r.delivered[i] == rest.delivered[i - 1]; assert cache[i] == cache[1..][i - 1]; }
      }
      if rest.outcome.Done? {
        forall i | 0 <= i < |cache| ensures cache[i].Some? {
          if i > 0 { assert cache[i] == cache[1..][i - 1]; }
        }
      } else {
        assert cache[|r.delivered|] == cache[1..][|rest.delivered|];
      }
    }
  }

  /** replay(replayTo): refused on an empty cache or while the delegate is set. */
  function ReplayAll(s: HandlerState): (r: Replayed)
    ensures s.cache == [] ==> r == Replayed([], Thrown(NothingToReplay))
    ensures s.cache != [] && s.delegateSet ==> r == Replayed([], Thrown(DelegateNotReleased))
  {
    if |s.cache| == 0 then Replayed([], Thrown(NothingToReplay))
    else if s.delegateSet then Replayed([], Thrown(DelegateNotReleased))
    else ReplayCommands(s.cache)
  }

  /** Events that an unpaused handler records without complaint at any point. */
  predicate Plain(e: Event) {
    !e.StartDocument? && !e.EndDocument?
  }

  lemma {:induction false} RunAppend(s: HandlerState, a: seq<Event>, b: seq<Event>)
    ensures Run(s, a + b) ==
              (var r := Run(s, a); if r.outcome.Thrown? then r else Run(r.state, b))
    decreases |a|
  {
    if a == [] {
      assert a + b == b;
    } else {
      assert (a + b)[0] == a[0];
      assert (a + b)[1..] == a[1..] + b;
      var r := Receive(s, a[0]);
      if r.outcome.Done? {
        RunAppend(r.state, a[1..], b);
      }
    }
  }

  /**
   * While recording with a delegate, plain events are appended to the cache
   * and forwarded to the delegate, in order, and nothing fails.
   */
  lemma {:induction false} RecordingRun(s: HandlerState, es: seq<Event>)
    requires !s.paused && s.delegateSet
    requires forall i | 0 <= i < |es| :: Plain(es[i])
    ensures Run(s, es).outcome == Done
    ensures Run(s, es).state.delegateSet && !Run(s, es).state.paused
    ensures Run(s, es).state.cache == s.cache + Cached(es)
    ensures Run(s, es).state.forwarded == s.forwarded + Forwarded(es)
    ensures es != [] ==> Run(s, es).state.lastCommand == Some(es[|es| - 1])
    decreases |es|
  {
    if es != [] {
      assert Plain(es[0]);
      ReceiveOutcome(s, es[0]);
      ReceiveDone(s, es[0]);
      var r := Receive(s, es[0]);
      TailKeeps(es);
      RecordingRun(r.state, es[1..]);
      Assoc(s.cache, [Some(es[0])], Cached(es[1..]));
      Assoc(s.forwarded, [Forward(es[0])], Forwarded(es[1..]));
      if |es| > 1 { assert es[1..][|es[1..]| - 1] == es[|es| - 1]; }
    }
  }

  lemma TailKeeps(es: seq<Event>)
    requires es != []
    ensures (forall i | 0 <= i < |es| :: Plain(es[i])) ==>
              (forall i | 0 <= i < |es[1..]| :: Plain(es[1..][i]))
    ensures (forall i | 0 <= i < |es| :: !es[i].EndDocument?) ==>
              (forall i | 0 <= i < |es[1..]| :: !es[1..][i].EndDocument?)
  {
  }

  lemma Assoc<T>(a: seq<T>, b: seq<T>, c: seq<T>)
    ensures a + b + c == a + (b + c)
  {
  }

  /** While paused, events are forwarded but the cache does not change. */
  lemma {:induction false} PausedRun(s: HandlerState, es: seq<Event>)
    requires s.paused && s.delegateSet
    requires forall i | 0 <= i < |es| :: !es[i].EndDocument?
    ensures Run(s, es).outcome == Done
    ensures Run(s, es).state.cache == s.cache
    ensures Run(s, es).state.paused && Run(s, es).state.delegateSet
    ensures Run(s, es).state.forwarded == s.forwarded + Forwarded(es)
    decreases |es|
  {
    if es != [] {
      assert !es[0].EndDocument?;
      var r := Receive(s, es[0]);
      ReceiveOutcome(s, es[0]);
      ReceiveDone(s, es[0]);
      TailKeeps(es);
      PausedRun(r.state, es[1..]);
      Assoc(s.forwarded, [Forward(es[0])], Forwarded(es[1..]));
    }
  }

  /** Replaying a cache of recorded events delivers exactly those events. */
  lemma {:induction false} ReplayCached(es: seq<Event>)
    ensures ReplayCommands(Cached(es)) == Replayed(es, Done)
    decreases |es|
  {
    if es != [] {
      ReplayCached(es[1..]);
      assert [es[0]] + es[1..] == es;
    }
  }

  /**
   * The record/replay round trip: a handler constructed with a delegate that
   * receives a whole document (startDocument, plain events, endDocument)
   * forwards every event, releases its delegate, and a replay then delivers
   * the very same events in the same order.
   */
  lemma {:induction false} RecordThenReplay(body: seq<Event>)
    requires forall i | 0 <= i < |body| :: Plain(body[i])
    ensures var r := Run(Fresh(true), [StartDocument] + body + [EndDocument]);
            r.outcome == Done &&
            !r.state.delegateSet &&
            r.state.forwarded == Forwarded([StartDocument] + body + [EndDocument]) &&
            ReplayAll(r.state) == Replayed([StartDocument] + body + [EndDocument], Done)
  {
    var es := [StartDocument] + body + [EndDocument];
    var s0 := Fresh(true);
    var s1 := Receive(s0, StartDocument).state;
    assert s1 == s0.(lastCommand := Some(StartDocument), cache := [Some(StartDocument)],
                     forwarded := [Forward(StartDocument)]);
    RunAppend(s0, [StartDocument], body);
    RunAppend(s0, [StartDocument] + body, [EndDocument]);
    assert Run(s0, [StartDocument]) == Step(s1, Done);
    RecordingRun(s1, body);
    var s2 := Run(s1, body).state;
    var s3 := Receive(s2, EndDocument).state;
    assert Run(s2, [EndDocument]) == Step(s3, Done);
    assert s3.cache == [Some(StartDocument)] + Cached(body) + [Some(EndDocument)];
    CachedAppend(body, [EndDocument]);
    ForwardedAppend(body, [EndDocument]);
    assert [Some(StartDocument)] + Cached(body) + [Some(EndDocument)] == Cached(es) by {
      assert es == [StartDocument] + (body + [EndDocument]);
      assert Cached(es) == [Some(StartDocument)] + Cached(body + [EndDocument]);
    }
    assert s3.forwarded == Forwarded(es) by {
      assert es == [StartDocument] + (body + [EndDocument]);
      assert Forwarded(es) == [Forward(StartDocument)] + Forwarded(body + [EndDocument]);
    }
    ReplayCached(es);
  }

  lemma {:induction false} CachedAppend(a: seq<Event>, b: seq<Event>)
    ensures Cached(a + b) == Cached(a) + Cached(b)
    decreases |a|
  {
    if a != [] {
      assert (a + b)[1..] == a[1..] + b;
      CachedAppend(a[1..], b);
    } else {
      assert a + b == b;
    }
  }

  lemma {:induction false} ForwardedAppend(a: seq<Event>, b: seq<Event>)
    ensures Forwarded(a + b) == Forwarded(a) + Forwarded(b)
    decreases |a|
  {
    if a != [] {
      assert (a + b)[1..] == a[1..] + b;
      ForwardedAppend(a[1..], b);
    } else {
      assert a + b == b;
    }
  }

  /**
   * pause(false) right after an event was recorded, then unpause(true) with
   * no event in between, gives back the handler as it was.
   */
  lemma PauseUnpauseRestores(s: HandlerState)
    requires !s.paused && s.cache != [] && s.cache[|s.cache| - 1] == s.lastCommand
    ensures PauseStep(s, false).outcome == Done
    ensures UnpauseStep(PauseStep(s, false).state, true) == Step(s, Done)
  {
    assert s.cache[..|s.cache| - 1] + [s.lastCommand] == s.cache;
  }

  /**
   * Excluding a fragment: the event that triggers pause(false) is dropped,
   * the events received while paused are only forwarded, and the event that
   * triggers unpause(true) is cached in their place.
   */
  lemma {:induction false} PausedFragment(s: HandlerState, first: Event, middle: seq<Event>, last: Event)
    requires !s.paused && s.delegateSet
    requires Plain(first) && Plain(last)
    requires forall i | 0 <= i < |middle| :: Plain(middle[i])
    ensures var r1 := Receive(s, first);
            var r2 := PauseStep(r1.state, false);
            var r3 := Run(r2.state, middle + [last]);
            var r4 := UnpauseStep(r3.state, true);
            r1.outcome == Done && r2.outcome == Done && r3.outcome == Done && r4.outcome == Done &&
            r4.state.cache == s.cache + [Some(last)] &&
            !r4.state.paused
  {
    ReceiveOutcome(s, first);
    ReceiveDone(s, first);
    var r1 := Receive(s, first);
    var r2 := PauseStep(r1.state, false);
    assert r2.state.cache == s.cache;
    PausedRun(r2.state, middle);
    var r5 := Run(r2.state, middle);
    ReceiveOutcome(r5.state, last);
    ReceiveDone(r5.state, last);
    RunAppend(r2.state, middle, [last]);
    assert Run(r5.state, [last]) == Receive(r5.state, last);
  }

  /**
   * The handler object: its fields are those of the source's
   * CachingContentHandler; State() gathers them into a HandlerState.
   */
  class CachingContentHandler {
    var delegateSet: bool
    var forwarded: seq<Delivery>
    var lastCommand: Option<Event>
    var cache: seq<Option<Event>>
    var cachingPaused: bool

    function State(): HandlerState
      reads this
    {
      HandlerState(delegateSet, forwarded, lastCommand, cache, cachingPaused)
    }

    constructor (delegateSet: bool)
      ensures State() == Fresh(delegateSet)
    {
      this.delegateSet := delegateSet;
      forwarded := [];
      lastCommand := None;
      cache := [];
      cachingPaused := false;
    }

    function IsPaused(): bool
      reads this
    {
      cachingPaused
    }

    method Pause(includeLastEvent: bool) returns (outcome: Outcome)
      modifies this
      ensures Step(State(), outcome) == PauseStep(old(State()), includeLastEvent)
    {
      if IsPaused() {
        return Thrown(AlreadyPaused);
      }
      cachingPaused := true;
      if !includeLastEvent {
        if |cache| == 0 {
          return Thrown(EmptyCacheRemove);
        }
        cache := cache[..|cache| - 1];
      }
      outcome := Done;
    }

    method Unpause(includeLastEvent: bool) returns (outcome: Outcome)
      modifies this
      ensures Step(State(), outcome) == UnpauseStep(old(State()), includeLastEvent)
    {
      if !IsPaused() {
        return Thrown(NotPaused);
      }
      cachingPaused := false;
      if includeLastEvent {
        cache := cache + [lastCommand];
      }
      outcome := Done;
    }

    /** Replays the cache in order; changes nothing in the handler. */
    method Replay() returns (delivered: seq<Event>, outcome: Outcome)
      ensures Replayed(delivered, outcome) == ReplayAll(State())
    {
      if |cache| == 0 {
        return [], Thrown(NothingToReplay);
      }
      if delegateSet {
        return [], Thrown(DelegateNotReleased);
      }
      delivered := [];
      var i := 0;
      while i < |cache|
        invariant 0 <= i <= |cache|
        invariant ReplayCommands(cache) ==
                  Replayed(delivered + ReplayCommands(cache[i..]).delivered, ReplayCommands(cache[i..]).outcome)
      {
        var command := cache[i];
        if command.None? {
          assert delivered + [] == delivered;
          return delivered, Thrown(NullCommand);
        }
        assert cache[i..][1..] == cache[i + 1..];
        ghost var rest := ReplayCommands(cache[i + 1..]);
        assert delivered + ([command.value] + rest.delivered) == delivered + [command.value] + rest.delivered;
        delivered := delivered + [command.value];
        i := i + 1;
      }
      assert delivered + [] == delivered;
      outcome := Done;
    }

    method ReleaseDelegate()
      modifies this
      ensures State() == Release(old(State()))
    {
      delegateSet := false;
      lastCommand := None;
    }

    /** mLastCommand.replay(mDelegate), or setDocumentLocator's direct call. */
    method DeliverToDelegate(d: Delivery) returns (outcome: Outcome)
      modifies this
      ensures Step(State(), outcome) == Deliver(old(State()), d)
    {
      if !delegateSet {
        return Thrown(NullDelegate);
      }
      forwarded := forwarded + [d];
      outcome := Done;
    }

    /** The body of every handler but startDocument and endDocument. */
    method RecordEvent(e: Event) returns (outcome: Outcome)
      modifies this
      ensures Step(State(), outcome) == Record(old(State()), e)
    {
      lastCommand := Some(e);
      if !cachingPaused {
        cache := cache + [Some(e)];
      }
      outcome := DeliverToDelegate(Forward(e));
    }

    method StartDocument() returns (outcome: Outcome)
      modifies this
      ensures Step(State(), outcome) == Receive(old(State()), Event.StartDocument)
    {
      lastCommand := Some(Event.StartDocument);
      if !cachingPaused {
        if |cache| != 0 {
          return Thrown(AlreadyCached);
        }
        cache := cache + [lastCommand];
      }
      outcome := DeliverToDelegate(Forward(Event.StartDocument));
    }

    method ProcessingInstruction(target: string, data: string) returns (outcome: Outcome)
      modifies this
      ensures Step(State(), outcome) == Receive(old(State()), Event.ProcessingInstruction(target, data))
    {
      outcome := RecordEvent(Event.ProcessingInstruction(target, data));
    }

    method SetDocumentLocator(locator: nat) returns (outcome: Outcome)
      modifies this
      ensures Step(State(), outcome) == Deliver(old(State()), DocumentLocator(locator))
    {
      outcome := DeliverToDelegate(DocumentLocator(locator));
    }

    method SkippedEntity(name: string) returns (outcome: Outcome)
      modifies this
      ensures Step(State(), outcome) == Receive(old(State()), Event.SkippedEntity(name))
    {
      outcome := RecordEvent(Event.SkippedEntity(name));
    }

    method StartPrefixMapping(prefix: string, uri: string) returns (outcome: Outcome)
      modifies this
      ensures Step(State(), outcome) == Receive(old(State()), Event.StartPrefixMapping(prefix, uri))
    {
      outcome := RecordEvent(Event.StartPrefixMapping(prefix, uri));
    }

    method EndPrefixMapping(prefix: string) returns (outcome: Outcome)
      modifies this
      ensures Step(State(), outcome) == Receive(old(State()), Event.EndPrefixMapping(prefix))
    {
      outcome := RecordEvent(Event.EndPrefixMapping(prefix));
    }

    method StartElement(uri: string, localName: string, qName: string, attributes: seq<(string, string)>)
      returns (outcome: Outcome)
      modifies this
      ensures Step(State(), outcome) ==
              Receive(old(State()), Event.StartElement(uri, localName, qName, attributes))
    {
      outcome := RecordEvent(Event.StartElement(uri, localName, qName, attributes));
    }

    /**
     * characters(ch, start, length): the command copies ch[start..start+length]
     * before anything else happens, so a bad range throws with nothing changed.
     */
    method Characters(characters: seq<char>, start: int, length: int) returns (outcome: Outcome)
      modifies this
      ensures !InRange(characters, start, length) ==> outcome == Thrown(BadRange) && State() == old(State())
      ensures InRange(characters, start, length) ==>
                Step(State(), outcome) ==
                Receive(old(State()), Event.Characters(characters[start..start + length]))
    {
      if !InRange(characters, start, length) {
        return Thrown(BadRange);
      }
      outcome := RecordEvent(Event.Characters(characters[start..start + length]));
    }

    method IgnorableWhitespace(characters: seq<char>, start: int, length: int) returns (outcome: Outcome)
      modifies this
      ensures !InRange(characters, start, length) ==> outcome == Thrown(BadRange) && State() == old(State())
      ensures InRange(characters, start, length) ==>
                Step(State(), outcome) ==
                Receive(old(State()), Event.IgnorableWhitespace(characters[start..start + length]))
    {
      if !InRange(characters, start, length) {
        return Thrown(BadRange);
      }
      outcome := RecordEvent(Event.IgnorableWhitespace(characters[start..start + length]));
    }

    method EndElement(uri: string, localName: string, qName: string) returns (outcome: Outcome)
      modifies this
      ensures Step(State(), outcome) == Receive(old(State()), Event.EndElement(uri, localName, qName))
    {
      outcome := RecordEvent(Event.EndElement(uri, localName, qName));
    }

    /** Forwards endDocument and then frees the delegate (not reached if forwarding threw). */
    method EndDocument() returns (outcome: Outcome)
      modifies this
      ensures Step(State(), outcome) == Receive(old(State()), Event.EndDocument)
    {
      outcome := RecordEvent(Event.EndDocument);
      if outcome.Done? {
        ReleaseDelegate();
      }
    }
  }

  /** The range check of System.arraycopy and new char[length]. */
  predicate InRange(characters: seq<char>, start: int, length: int) {
    0 <= start && 0 <= length && start + length <= |characters|
  }
}
