/** The default interface, and a subscription to its changes. */
module DefaultInterface {
  import opened Wrappers
  import opened Address

  /** A route: its destination, and the name of its link, None when the link cannot be found. */
  datatype RouteEntry = RouteEntry(dst: IPNet, link: Option<string>)

  /** 0.0.0.0 in its short or IPv4-mapped form, or ::. */
  predicate Unspecified(ip: Bytes) {
    var short := if To4(ip).Some? then To4(ip).value else ip;
    (|short| == 4 || |short| == 16) && AllZero(short)
  }

  predicate AllZero(ip: Bytes) {
    forall i :: 0 <= i < |ip| ==> ip[i] == 0
  }

  predicate IsDefault(r: RouteEntry) {
    Unspecified(r.dst.ip) && r.dst.mask == [0, 0, 0, 0]
  }

  /** The first default route with a link decides; without one the network is disconnected. */
  method GetDefaultInterface(routes: Result<seq<RouteEntry>>) returns (r: Result<string>)
    ensures r.Ok? <==> routes.Ok? && exists i :: 0 <= i < |routes.value| && IsDefault(routes.value[i]) && routes.value[i].link.Some?
    ensures r.Ok? ==> exists i :: 0 <= i < |routes.value| && IsDefault(routes.value[i]) && routes.value[i].link == Some(r.value)
                                  && forall j :: 0 <= j < i ==> !IsDefault(routes.value[j]) || routes.value[j].link.None?
  {
    if routes.Err? {
      return Err;
    }
    for i := 0 to |routes.value|
      invariant forall j :: 0 <= j < i ==> !IsDefault(routes.value[j]) || routes.value[j].link.None?
    {
      var route := routes.value[i];
      if Unspecified(route.dst.ip) && route.dst.mask == [0, 0, 0, 0] {
        if route.link.None? {
          continue;
        }
        return Ok(route.link.value);
      }
    }
    return Err;
  }

  /** A default route in bytes: the mask is four zero bytes, and the destination 0.0.0.0, written short or mapped, or ::. */
  lemma DefaultExactly(r: RouteEntry)
    ensures IsDefault(r)
       <==> && r.dst.mask == [0, 0, 0, 0]
            && (r.dst.ip == [0, 0, 0, 0] || r.dst.ip == [0, 0, 0, 0, 0, 0, 0, 0, 0, 0, 255, 255, 0, 0, 0, 0]
                || r.dst.ip == [0, 0, 0, 0, 0, 0, 0, 0, 0, 0, 0, 0, 0, 0, 0, 0])
  {
    UnspecifiedExactly(r.dst.ip);
  }

  lemma UnspecifiedExactly(ip: Bytes)
    ensures Unspecified(ip)
       <==> ip == [0, 0, 0, 0] || ip == [0, 0, 0, 0, 0, 0, 0, 0, 0, 0, 255, 255, 0, 0, 0, 0]
            || ip == [0, 0, 0, 0, 0, 0, 0, 0, 0, 0, 0, 0, 0, 0, 0, 0]
  {
    var prefix: Bytes := [0, 0, 0, 0, 0, 0, 0, 0, 0, 0, 255, 255];
    var zeros: Bytes := [0, 0, 0, 0];
    ZerosAre(ip);
    assert prefix + zeros == [0, 0, 0, 0, 0, 0, 0, 0, 0, 0, 255, 255, 0, 0, 0, 0];
    ShortForm(prefix + zeros, zeros);
    if To4(ip).Some? {
      ShortOf(ip);
      var short := To4(ip).value;
      ZerosAre(short);
      assert ip == short || ip == prefix + short;
      assert AllZero(short) <==> short == zeros;
    } else {
      assert ip != zeros && ip != prefix + zeros;
    }
    if ip == [0, 0, 0, 0, 0, 0, 0, 0, 0, 0, 0, 0, 0, 0, 0, 0] {
      assert ip[10] == 0;
    }
  }

  lemma ZerosAre(ip: Bytes)
    ensures |ip| == 4 && (forall i :: 0 <= i < 4 ==> ip[i] == 0) <==> ip == [0, 0, 0, 0]
    ensures |ip| == 16 && (forall i :: 0 <= i < 16 ==> ip[i] == 0) <==> ip == [0, 0, 0, 0, 0, 0, 0, 0, 0, 0, 0, 0, 0, 0, 0, 0]
  {
  }

  /** Where the goroutine is. */
  datatype Place = Beginning | SendingFirst | Selecting | SendingChange | Closed

  /**
   `current` is currentDefaultInterface, `buffer` the channel of capacity one; the rest is history:
   what the goroutine found the default interface to be, what it put on the channel and what was received.
   */
  datatype State = State(place: Place, current: string, buffer: seq<string>, stopped: bool,
                         observed: seq<string>, emitted: seq<string>, received: seq<string>)

  const START := State(Beginning, "", [], false, [], [], [])

  datatype Event =
    | Initial(found: Result<string>)   // the first look-up
    | LinkUpdate(found: Result<string>)   // the select takes an update, and the look-up after it
    | Send                             // a value goes on the channel, if there is room
    | AbandonSend                      // the select around a send takes the closed stop channel
    | TakeStop                         // the main select takes the closed stop channel
    | Stop                             // the subscriber stops
    | Receive                          // the subscriber takes a value

  predicate Enabled(s: State, e: Event) {
    match e
    case Initial(_) => s.place.Beginning?
    case LinkUpdate(_) => s.place.Selecting?
    case Send => (s.place.SendingFirst? || s.place.SendingChange?) && |s.buffer| < 1
    case AbandonSend => (s.place.SendingFirst? || s.place.SendingChange?) && s.stopped
    case TakeStop => s.place.Selecting? && s.stopped
    case Stop => true
    case Receive => s.buffer != []
  }

  /** A failed look-up counts as no interface. */
  function Name(found: Result<string>): string {
    if found.Ok? then found.value else ""
  }

  function Step(s: State, e: Event): State
    requires Enabled(s, e)
  {
    match e
    case Initial(found) =>
      if found.Err? then s.(place := Closed)
      else s.(place := SendingFirst, current := found.value, observed := [found.value])
    case LinkUpdate(found) =>
      var s' := s.(observed := s.observed + [Name(found)]);
      if s.current != Name(found) then s'.(current := Name(found), place := SendingChange) else s'
    case Send => s.(place := Selecting, buffer := s.buffer + [s.current], emitted := s.emitted + [s.current])
    case AbandonSend => s.(place := Closed)
    case TakeStop => s.(place := Closed)
    case Stop => s.(stopped := true)
    case Receive => s.(buffer := s.buffer[1..], received := s.received + [s.buffer[0]])
  }

  predicate Possible(s: State, events: seq<Event>)
    decreases |events|
  {
    events == [] || (Enabled(s, events[0]) && Possible(Step(s, events[0]), events[1..]))
  }

  function Run(s: State, events: seq<Event>): State
    requires Possible(s, events)
    decreases |events|
  {
    if events == [] then s else Run(Step(s, events[0]), events[1..])
  }

  /** The goroutine's variables and the channel. */
  class Subscription {
    var place: Place
    var currentDefaultInterface: string
    var buffer: seq<string>
    var stopped: bool
    ghost var observed: seq<string>
    ghost var emitted: seq<string>
    ghost var received: seq<string>

    constructor ()
      ensures View() == START
    {
      place, currentDefaultInterface, buffer, stopped := Beginning, "", [], false;
      observed, emitted, received := [], [], [];
    }

    ghost function View(): State
      reads this
    {
      State(place, currentDefaultInterface, buffer, stopped, observed, emitted, received)
    }

    /** An update: look the default interface up again, and send it when it has changed. */
    method OnUpdate(found: Result<string>)
      requires Enabled(View(), LinkUpdate(found))
      modifies this
      ensures View() == Step(old(View()), LinkUpdate(found))
    {
      var newDefaultInterface := "";
      if found.Ok? {
        newDefaultInterface := found.value;
      }
      observed := observed + [newDefaultInterface];
      if currentDefaultInterface != newDefaultInterface {
        currentDefaultInterface := newDefaultInterface;
        place := SendingChange;
      }
    }

    method OnSend()
      requires Enabled(View(), Send)
      modifies this
      ensures View() == Step(old(View()), Send)
    {
      buffer := buffer + [currentDefaultInterface];
      emitted := emitted + [currentDefaultInterface];
      place := Selecting;
    }

    /** Any interleaving of the goroutine and its subscriber. */
    method Execute(events: seq<Event>)
      requires Possible(View(), events)
      modifies this
      ensures View() == Run(old(View()), events)
    {
      ghost var s0 := View();
      for i := 0 to |events|
        invariant Possible(View(), events[i..]) && Run(View(), events[i..]) == Run(s0, events)
      {
        assert events[i..][1..] == events[i + 1..] && events[i..][0] == events[i];
        match events[i] {
          case Initial(found) =>
            if found.Err? {
              place := Closed;
            } else {
              currentDefaultInterface := found.value;
              observed := [found.value];
              place := SendingFirst;
            }
          case LinkUpdate(found) => OnUpdate(found);
          case Send => OnSend();
          case AbandonSend => place := Closed;
          case TakeStop => place := Closed;
          case Stop => stopped := true;
          case Receive =>
            received := received + [buffer[0]];
            buffer := buffer[1..];
        }
      }
    }
  }

  /** A sequence without the values that repeat their neighbour. */
  function Destutter(s: seq<string>): seq<string> {
    if s == [] then []
    else
      var n := |s|;
      if n > 1 && s[n - 2] == s[n - 1] then Destutter(s[..n - 1]) else Destutter(s[..n - 1]) + [s[n - 1]]
  }

  lemma DestutterStep(s: seq<string>, x: string)
    ensures Destutter(s + [x]) == if s != [] && s[|s| - 1] == x then Destutter(s) else Destutter(s) + [x]
  {
    assert (s + [x])[..|s|] == s;
  }

  /** Neighbours in a sequence without repetitions differ. */
  lemma {:induction false} DestutterHasNoRepeats(s: seq<string>)
    ensures forall i :: 0 < i < |Destutter(s)| ==> Destutter(s)[i - 1] != Destutter(s)[i]
    ensures s != [] ==> Destutter(s) != [] && Destutter(s)[|Destutter(s)| - 1] == s[|s| - 1]
  {
    if s != [] {
      DestutterHasNoRepeats(s[..|s| - 1]);
    }
  }

  ghost predicate Invariant(s: State) {
    Channel(s) && History(s)
  }

  predicate Channel(s: State) {
    s.received + s.buffer == s.emitted && |s.buffer| <= 1
  }

  /** The values sent are the changes of what was observed, but for one that was not sent (yet). */
  ghost predicate History(s: State) {
    && (s.observed != [] ==> s.current == s.observed[|s.observed| - 1])
    && (s.place.Beginning? || (s.place.Closed? && !s.stopped) ==> s.observed == [])
    && (s.place.SendingFirst? || s.place.Selecting? || s.place.SendingChange? ==> s.observed != [])
    && match s.place
       case SendingFirst => Owes(s)
       case SendingChange => Owes(s)
       case Closed => s.emitted == Destutter(s.observed) || (s.observed != [] && Owes(s))
       case _ => s.emitted == Destutter(s.observed)
  }

  predicate Owes(s: State) {
    s.emitted + [s.current] == Destutter(s.observed)
  }

  lemma StepKeepsChannel(s: State, e: Event)
    requires Channel(s) && Enabled(s, e)
    ensures Channel(Step(s, e))
  {
    if e.Receive? {
      assert s.received + s.buffer == s.received + [s.buffer[0]] + s.buffer[1..];
    }
  }

  lemma StepKeepsHistory(s: State, e: Event)
    requires History(s) && Enabled(s, e)
    ensures History(Step(s, e))
  {
    hide Destutter;
    NothingObserved();
    match e
    case Initial(found) =>
      DestutterStep([], Name(found));
      assert [] + [Name(found)] == [Name(found)];
    case LinkUpdate(found) => DestutterStep(s.observed, Name(found));
    case _ =>
  }

  lemma NothingObserved()
    ensures Destutter([]) == []
  {
  }

  lemma StepKeepsInvariant(s: State, e: Event)
    requires Invariant(s) && Enabled(s, e)
    ensures Invariant(Step(s, e))
  {
    StepKeepsChannel(s, e);
    StepKeepsHistory(s, e);
  }

  lemma {:induction false} RunKeepsInvariant(s: State, events: seq<Event>)
    requires Invariant(s) && Possible(s, events)
    ensures Invariant(Run(s, events))
    decreases |events|
  {
    if events != [] {
      StepKeepsInvariant(s, events[0]);
      RunKeepsInvariant(Step(s, events[0]), events[1..]);
    }
  }

  /** Once the channel is closed nothing more is sent or observed. */
  lemma {:induction false} NothingAfterClose(s: State, events: seq<Event>)
    requires s.place.Closed? && Possible(s, events)
    ensures Run(s, events).place.Closed? && Run(s, events).emitted == s.emitted && Run(s, events).observed == s.observed
    decreases |events|
  {
    if events != [] {
      NothingAfterClose(Step(s, events[0]), events[1..]);
    }
  }

  lemma {:induction false} RunSplits(s: State, a: seq<Event>, b: seq<Event>)
    ensures Possible(s, a + b) <==> Possible(s, a) && Possible(Run(s, a), b)
    ensures Possible(s, a + b) ==> Run(s, a + b) == Run(Run(s, a), b)
    decreases |a|
  {
    if a == [] {
      assert a + b == b;
    } else {
      assert (a + b)[1..] == a[1..] + b;
      if Enabled(s, a[0]) {
        RunSplits(Step(s, a[0]), a[1..], b);
      }
    }
  }

  /** What a look-up on an event found: a failed first one nothing, a later one that fails no interface. */
  function FoundBy(e: Event): seq<string> {
    match e
    case Initial(Ok(name)) => [name]
    case LinkUpdate(Ok(name)) => [name]
    case LinkUpdate(Err) => [""]
    case _ => []
  }

  /** The default interfaces that a run finds, in order. */
  function Observations(events: seq<Event>): seq<string>
    decreases |events|
  {
    if events == [] then [] else FoundBy(events[0]) + Observations(events[1..])
  }

  lemma StepFinds(s: State, e: Event)
    requires Enabled(s, e) && (s.place.Beginning? ==> s.observed == [])
    ensures Step(s, e).observed == s.observed + FoundBy(e) && !(Step(s, e).place.Beginning? && e.Initial?)
    ensures Step(s, e).place.Beginning? ==> s.place.Beginning? && FoundBy(e) == []
  {
  }

  lemma {:induction false} ObservedIsFound(s: State, events: seq<Event>)
    requires Possible(s, events) && (s.place.Beginning? ==> s.observed == [])
    ensures Run(s, events).observed == s.observed + Observations(events)
    decreases |events|
  {
    hide Step, Enabled, FoundBy;
    if events != [] {
      StepFinds(s, events[0]);
      assert s.observed + [] == s.observed;
      ObservedIsFound(Step(s, events[0]), events[1..]);
      assert s.observed + FoundBy(events[0]) + Observations(events[1..]) == s.observed + Observations(events);
    } else {
      assert s.observed + [] == s.observed;
    }
  }

  /**
   The values sent are the changes of what was found, but for at most the last; at the main select
   none is missing and the last one sent is the one found last; what was sent is received, in order,
   or in the buffer of one; and nothing is sent if the first look-up fails.
   */
  ghost predicate SentAreChanges(s: State, found: seq<string>) {
    && s.received + s.buffer == s.emitted && |s.buffer| <= 1
    && (s.emitted == Destutter(found) || (found != [] && s.emitted + [found[|found| - 1]] == Destutter(found)))
    && (s.place.Selecting? ==> s.emitted == Destutter(found) && s.emitted != [] && found != []
                               && s.emitted[|s.emitted| - 1] == found[|found| - 1])
    && (s.place.Closed? && !s.stopped ==> s.emitted == [])
  }

  lemma InvariantMeans(s: State)
    requires Invariant(s)
    ensures SentAreChanges(s, s.observed)
  {
    hide Destutter;
    NothingObserved();
    DestutterHasNoRepeats(s.observed);
  }

  /**
   On every run: the subscriber gets the changes of the default interface that the run finds, in
   order, and only the last may be missing; and whatever comes after a point where the channel is
   closed, nothing is sent any more.
   */
  lemma SubscriberSeesTheChanges(events: seq<Event>, later: seq<Event>)
    requires Possible(START, events + later)
    ensures Possible(START, events)
    ensures SentAreChanges(Run(START, events), Observations(events))
    ensures Run(START, events).place.Closed? ==> Run(START, events + later).emitted == Run(START, events).emitted
  {
    hide Run, Destutter, Observations, Invariant, SentAreChanges;
    RunSplits(START, events, later);
    StartIsValid();
    RunKeepsInvariant(START, events);
    var s := Run(START, events);
    ObservedIsFound(START, events);
    assert [] + Observations(events) == Observations(events) == s.observed;
    InvariantMeans(s);
    if s.place.Closed? {
      NothingAfterClose(s, later);
    }
  }

  lemma StartIsValid()
    ensures Invariant(START)
  {
  }

  /**
   Whenever the goroutine waits at its main select and the subscriber has taken everything, an update
   can be noticed; a change is delivered in two more steps, and a repetition leaves all as it is.
   */
  lemma ChangeIsDelivered(events: seq<Event>, name: string)
    requires Possible(START, events) && Run(START, events).place.Selecting? && Run(START, events).buffer == []
    ensures Observations(events) != []
    ensures var s, last := Run(START, events), Observations(events)[|Observations(events)| - 1];
            if name != last then
              Possible(START, events + [LinkUpdate(Ok(name)), Send, Receive])
              && Run(START, events + [LinkUpdate(Ok(name)), Send, Receive]).received == s.received + [name]
            else
              Possible(START, events + [LinkUpdate(Ok(name))])
              && Run(START, events + [LinkUpdate(Ok(name))]).place.Selecting?
              && Run(START, events + [LinkUpdate(Ok(name))]).emitted == s.emitted
  {
    hide Run, Destutter, Observations, Step, Enabled;
    var s := Run(START, events);
    StartIsValid();
    RunKeepsInvariant(START, events);
    ObservedIsFound(START, events);
    assert [] + Observations(events) == Observations(events) == s.observed;
    if name != s.current {
      ChangePasses(s, name);
      RunSplits(START, events, [LinkUpdate(Ok(name)), Send, Receive]);
    } else {
      RepetitionStays(s, name);
      RunSplits(START, events, [LinkUpdate(Ok(name))]);
    }
  }

  lemma ChangePasses(s: State, name: string)
    requires s.place.Selecting? && s.buffer == [] && name != s.current
    ensures Possible(s, [LinkUpdate(Ok(name)), Send, Receive])
    ensures Run(s, [LinkUpdate(Ok(name)), Send, Receive]).received == s.received + [name]
  {
    hide Run;
    var s1 := Step(s, LinkUpdate(Ok(name)));
    var s2 := Step(s1, Send);
    OneStep(s2, Receive, []);
    OneStep(s1, Send, [Receive]);
    OneStep(s, LinkUpdate(Ok(name)), [Send, Receive]);
    RunNothing(Step(s2, Receive));
    assert [Receive] + [] == [Receive] && [Send] + [Receive] == [Send, Receive];
    assert [LinkUpdate(Ok(name))] + [Send, Receive] == [LinkUpdate(Ok(name)), Send, Receive];
  }

  lemma RepetitionStays(s: State, name: string)
    requires s.place.Selecting? && name == s.current
    ensures Possible(s, [LinkUpdate(Ok(name))])
    ensures var s' := Run(s, [LinkUpdate(Ok(name))]); s'.place.Selecting? && s'.emitted == s.emitted
  {
    OneStep(s, LinkUpdate(Ok(name)), []);
    RunNothing(Step(s, LinkUpdate(Ok(name))));
    assert [LinkUpdate(Ok(name))] + [] == [LinkUpdate(Ok(name))];
  }

  lemma OneStep(s: State, e: Event, rest: seq<Event>)
    requires Enabled(s, e) && Possible(Step(s, e), rest)
    ensures Possible(s, [e] + rest) && Run(s, [e] + rest) == Run(Step(s, e), rest)
  {
    assert ([e] + rest)[1..] == rest;
  }

  lemma RunNothing(s: State)
    ensures Possible(s, []) && Run(s, []) == s
  {
  }

  /** The first interface found is delivered. */
  lemma FirstIsDelivered(name: string)
    ensures Possible(START, [Initial(Ok(name)), Send, Receive])
    ensures Run(START, [Initial(Ok(name)), Send, Receive]).received == [name]
    ensures Run(START, [Initial(Ok(name)), Send, Receive]).place.Selecting?
  {
    hide Run;
    var s1 := Step(START, Initial(Ok(name)));
    var s2 := Step(s1, Send);
    OneStep(s2, Receive, []);
    OneStep(s1, Send, [Receive]);
    OneStep(START, Initial(Ok(name)), [Send, Receive]);
    RunNothing(Step(s2, Receive));
    assert [Receive] + [] == [Receive] && [Send] + [Receive] == [Send, Receive];
    assert [Initial(Ok(name))] + [Send, Receive] == [Initial(Ok(name)), Send, Receive];
  }
}
