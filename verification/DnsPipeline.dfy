/**
 From the resolver configuration file to the list the handler uses: a goroutine that watches the
 file, an unbuffered channel, and a goroutine that stores what it receives. Either may run at any time.
 */
module DnsPipeline {
  import opened Wrappers
  import opened DnsSame
  import opened DnsHandler
  import opened DnsFailover

  /** A record on the channel; endpoints are None for a nil list. */
  datatype Update = Update(endpoints: Option<seq<string>>, error: bool)

  /** What parsing the file gives: its servers and the port, or an error. */
  type FileContents = Result<(seq<string>, string)>

  /** A host and a port; hosts with a colon are bracketed. */
  function JoinHostPort(host: string, port: string): string {
    if ':' in host then "[" + host + "]:" + port else host + ":" + port
  }

  /** The endpoints of a file: none if it does not parse. */
  function Endpoints(file: FileContents): seq<string> {
    if file.Err? then [] else seq(|file.value.0|, i requires 0 <= i < |file.value.0| => JoinHostPort(file.value.0[i], file.value.1))
  }

  method ReadUpstreams(file: FileContents) returns (u: Update)
    ensures u == FromFile(file)
    ensures file.Err? ==> u == Update(Some([]), true)
    ensures file.Ok? ==>
              && !u.error && u.endpoints.Some? && |u.endpoints.value| == |file.value.0|
              && forall i :: 0 <= i < |file.value.0| ==>
                   var host, port := file.value.0[i], file.value.1;
                   u.endpoints.value[i] == if ':' in host then "[" + host + "]:" + port else host + ":" + port
  {
    var endpoints: seq<string> := [];
    if file.Ok? {
      var servers, port := file.value.0, file.value.1;
      for i := 0 to |servers|
        invariant |endpoints| == i && forall k :: 0 <= k < i ==> endpoints[k] == JoinHostPort(servers[k], port)
      {
        endpoints := endpoints + [JoinHostPort(servers[i], port)];
      }
      assert endpoints == Endpoints(file);
    }
    return Update(Some(endpoints), file.Err?);
  }

  /** Where the watching goroutine is: sending blocks until the other side receives. */
  datatype Watcher =
    | Absent
    | Starting
    | SendingFirst(u: Update)
    | Selecting
    | SendingChange(u: Update)
    | SendingLast(u: Update)
    | Returning
    | Closed

  datatype Consumer = NotServing | Receiving | Storing(u: Update) | Finished

  /**
   `prev` is the list sent last and `stored` what the handler loads. The rest is history: what was
   read from the file, offered to the channel, received and stored, in order.
   */
  datatype State = State(watcher: Watcher, consumer: Consumer, prev: seq<string>, stored: Option<Option<seq<string>>>,
                         seen: seq<FileContents>, offered: seq<Update>, received: seq<Update>, kept: seq<Update>)

  datatype Event =
    | ReadFirst(file: FileContents)          // the watcher reads the file for the first time
    | FileChanged(file: FileContents)        // ... sees an event on the file and reads it
    | OtherFileChanged                       // ... sees an event on another file
    | WatchError                             // ... sees an error of the file watcher
    | Finish                                 // ... sees the context end or the file watcher close
    | Close                                  // ... closes the channel
    | Serve                                  // Serve is called: the receiving goroutine starts, if there is a channel
    | Handover                               // a value goes through the channel
    | Store                                  // ... and is stored
    | SeeClosed                              // the receiving goroutine sees the channel closed

  const LAST := Update(None, true)

  /** The list as Same sees it: a nil list has no elements. */
  function Listed(u: Update): seq<string> {
    if u.endpoints.Some? then u.endpoints.value else []
  }

  function FromFile(file: FileContents): Update {
    Update(Some(Endpoints(file)), file.Err?)
  }

  /** The state with static servers, or with a file to watch when there are none. */
  function Start(fixed: seq<string>): State {
    if fixed != [] then State(Absent, NotServing, [], Some(Some(fixed)), [], [], [], [])
    else State(Starting, NotServing, [], None, [], [], [], [])
  }

  predicate Sending(w: Watcher) {
    w.SendingFirst? || w.SendingChange? || w.SendingLast?
  }

  ghost predicate Enabled(s: State, e: Event) {
    match e
    case ReadFirst(_) => s.watcher.Starting?
    case FileChanged(_) => s.watcher.Selecting?
    case OtherFileChanged => s.watcher.Selecting?
    case WatchError => s.watcher.Selecting?
    case Finish => s.watcher.Selecting?
    case Close => s.watcher.Returning?
    case Serve => s.consumer.NotServing?
    case Handover => Sending(s.watcher) && s.consumer.Receiving?
    case Store => s.consumer.Storing?
    case SeeClosed => s.watcher.Closed? && s.consumer.Receiving?
  }

  ghost function Step(s: State, e: Event): State
    requires Enabled(s, e)
  {
    match e
    case ReadFirst(file) =>
      var u := FromFile(file);
      s.(watcher := SendingFirst(u), prev := Listed(u), seen := s.seen + [file], offered := s.offered + [u])
    case FileChanged(file) =>
      var u := FromFile(file);
      if SameElements(s.prev, Listed(u)) then s.(seen := s.seen + [file])
      else s.(watcher := SendingChange(u), seen := s.seen + [file], offered := s.offered + [u])
    case OtherFileChanged => s
    case WatchError => s
    case Finish => s.(watcher := SendingLast(LAST), offered := s.offered + [LAST])
    case Close => s.(watcher := Closed)
    case Serve => if s.watcher.Absent? then s else s.(consumer := Receiving)
    case Handover =>
      s.(watcher := if s.watcher.SendingLast? then Returning else Selecting,
         prev := if s.watcher.SendingChange? then Listed(s.watcher.u) else s.prev,
         consumer := Storing(s.watcher.u), received := s.received + [s.watcher.u])
    case Store => s.(consumer := Receiving, stored := Some(s.consumer.u.endpoints), kept := s.kept + [s.consumer.u])
    case SeeClosed => s.(consumer := Finished)
  }

  ghost predicate Possible(s: State, events: seq<Event>)
    decreases |events|
  {
    events == [] || (Enabled(s, events[0]) && Possible(Step(s, events[0]), events[1..]))
  }

  /** The state after a run. */
  ghost function Run(s: State, events: seq<Event>): State
    requires Possible(s, events)
    decreases |events|
  {
    if events == [] then s else Run(Step(s, events[0]), events[1..])
  }

  /** The two goroutines as they run: their variables, and what went through the channel. */
  class Pipeline {
    var watcher: Watcher
    var consumer: Consumer
    var prev: seq<string>
    var stored: Option<Option<seq<string>>>
    ghost var seen: seq<FileContents>
    ghost var offered: seq<Update>
    ghost var received: seq<Update>
    ghost var kept: seq<Update>

    constructor (fixed: seq<string>)
      ensures View() == Start(fixed)
      ensures stored == (if fixed != [] then Some(Some(fixed)) else None) && (watcher.Absent? <==> fixed != [])
    {
      watcher := if fixed != [] then Absent else Starting;
      consumer, prev := NotServing, [];
      stored := if fixed != [] then Some(Some(fixed)) else None;
      seen, offered, received, kept := [], [], [], [];
    }

    ghost function View(): State
      reads this
    {
      State(watcher, consumer, prev, stored, seen, offered, received, kept)
    }

    /** The watcher's first read. */
    method BeginWatching(file: FileContents)
      requires Enabled(View(), ReadFirst(file))
      modifies this
      ensures View() == Step(old(View()), ReadFirst(file))
    {
      var u := ReadUpstreams(file);
      prev := Listed(u);
      watcher := SendingFirst(u);
      seen, offered := seen + [file], offered + [u];
    }

    /** An event on the file: read it, and send what was read unless it only reorders what was sent last. */
    method OnFileChange(file: FileContents)
      requires Enabled(View(), FileChanged(file))
      modifies this
      ensures View() == Step(old(View()), FileChanged(file))
    {
      var u := ReadUpstreams(file);
      seen := seen + [file];
      var same := Same(prev, Listed(u));
      if !same {
        watcher := SendingChange(u);
        offered := offered + [u];
      }
    }

    /** One value through the unbuffered channel: both sides go on. */
    method Transfer()
      requires Enabled(View(), Handover)
      modifies this
      ensures View() == Step(old(View()), Handover)
    {
      var u := watcher.u;
      consumer := Storing(u);
      received := received + [u];
      if watcher.SendingChange? {
        prev := Listed(u);
      }
      watcher := if watcher.SendingLast? then Returning else Selecting;
    }

    method StoreReceived()
      requires Enabled(View(), Store)
      modifies this
      ensures View() == Step(old(View()), Store)
    {
      kept := kept + [consumer.u];
      stored := Some(consumer.u.endpoints);
      consumer := Receiving;
    }

    /** Any interleaving of the two. */
    method Execute(events: seq<Event>)
      requires Possible(View(), events)
      modifies this
      ensures View() == Run(old(View()), events)
    {
      ghost var s0 := View();
      for i := 0 to |events|
        invariant Possible(View(), events[i..]) && Run(View(), events[i..]) == Run(s0, events)
      {
        assert events[i..][1..] == events[i + 1..] && events[i..][0] == events[i];
        match events[i] {
          case ReadFirst(file) => BeginWatching(file);
          case FileChanged(file) => OnFileChange(file);
          case OtherFileChanged =>
          case WatchError =>
          case Finish =>
            watcher := SendingLast(LAST);
            offered := offered + [LAST];
          case Close => watcher := Closed;
          case Serve => consumer := if watcher.Absent? then NotServing else Receiving;
          case Handover => Transfer();
          case Store => StoreReceived();
          case SeeClosed => consumer := Finished;
        }
      }
    }
  }

  // ---- What the channel carries ----

  /** The records of a history of reads, leaving out every read that only reorders the one before it. */
  ghost function Collapse(seen: seq<FileContents>): seq<Update> {
    if seen == [] then []
    else
      var n := |seen|;
      if n > 1 && SameElements(Endpoints(seen[n - 2]), Endpoints(seen[n - 1])) then Collapse(seen[..n - 1])
      else Collapse(seen[..n - 1]) + [FromFile(seen[n - 1])]
  }

  predicate Ending(w: Watcher) {
    w.SendingLast? || w.Returning? || w.Closed?
  }

  /** What a goroutine holds that it has not passed on. */
  function InHand(w: Watcher): seq<Update> {
    if Sending(w) then [w.u] else []
  }

  function ToStore(c: Consumer): seq<Update> {
    if c.Storing? then [c.u] else []
  }

  ghost predicate Invariant(s: State) {
    Flow(s) && Content(s)
  }

  /** Values go from one goroutine to the other in order and none is lost. */
  ghost predicate Flow(s: State) {
    && s.offered == s.received + InHand(s.watcher)
    && s.received == s.kept + ToStore(s.consumer)
    && s.stored == (if s.kept == [] then None else Some(s.kept[|s.kept| - 1].endpoints))
    && (s.consumer.Finished? ==> s.watcher.Closed?)
  }

  /** What is sent are the reads without repetitions, and one last record; `prev` is what was sent last. */
  ghost predicate Content(s: State) {
    && !s.watcher.Absent?
    && (s.watcher.Starting? <==> s.seen == [])
    && s.offered == Collapse(s.seen) + (if Ending(s.watcher) then [LAST] else [])
    && (s.seen != [] ==> Current(s.seen, Collapse(s.seen)))
    && (s.seen != [] && !s.watcher.SendingChange? ==> s.prev == Listed(Collapse(s.seen)[|Collapse(s.seen)| - 1]))
    && (s.watcher.SendingChange? ==> s.offered[|s.offered| - 1] == s.watcher.u)
  }

  /** The last record for a history is a list that is the one read last, up to order. */
  ghost predicate Current(seen: seq<FileContents>, files: seq<Update>)
    requires seen != []
  {
    files != [] && files[|files| - 1].endpoints.Some? && SameElements(Listed(files[|files| - 1]), Endpoints(seen[|seen| - 1]))
  }

  lemma CollapseStep(seen: seq<FileContents>, file: FileContents)
    ensures Collapse(seen + [file]) ==
            if seen != [] && SameElements(Endpoints(seen[|seen| - 1]), Endpoints(file)) then Collapse(seen)
            else Collapse(seen) + [FromFile(file)]
  {
  }

  /** Comparing with the list sent last or with the list read last makes no difference. */
  lemma CurrentStep(seen: seq<FileContents>, file: FileContents)
    requires seen != [] ==> Current(seen, Collapse(seen))
    ensures Current(seen + [file], Collapse(seen + [file]))
    ensures var files := Collapse(seen);
            seen != [] ==> (SameElements(Listed(files[|files| - 1]), Endpoints(file)) <==> Collapse(seen + [file]) == files)
    ensures Collapse(seen + [file]) == Collapse(seen) || Collapse(seen + [file]) == Collapse(seen) + [FromFile(file)]
  {
    hide Endpoints, Collapse;
    CollapseStep(seen, file);
  }

  lemma StepKeepsFlow(s: State, e: Event)
    requires Flow(s) && Enabled(s, e)
    ensures Flow(Step(s, e))
  {
  }

  lemma StepKeepsContent(s: State, e: Event)
    requires Flow(s) && Content(s) && Enabled(s, e)
    ensures Content(Step(s, e))
  {
    hide Collapse, SameElements, Endpoints, Current;
    match e
    case ReadFirst(file) =>
      CollapseStep([], file);
      CurrentStep([], file);
    case FileChanged(file) => CurrentStep(s.seen, file);
    case _ =>
  }

  lemma StepKeepsInvariant(s: State, e: Event)
    requires Invariant(s) && Enabled(s, e)
    ensures Invariant(Step(s, e))
  {
    hide Flow, Content, Step, Enabled;
    StepKeepsFlow(s, e);
    StepKeepsContent(s, e);
  }

  lemma {:induction false} RunKeepsInvariant(s: State, events: seq<Event>)
    requires Invariant(s) && Possible(s, events)
    ensures Invariant(Run(s, events))
    decreases |events|
  {
    hide Invariant, Step, Enabled;
    if events != [] {
      StepKeepsInvariant(s, events[0]);
      RunKeepsInvariant(Step(s, events[0]), events[1..]);
    }
  }

  lemma Begins()
    ensures Invariant(Start([]))
  {
  }

  /** Nothing is on its way. */
  lemma NothingInHand(s: State)
    requires Flow(s) && (CaughtUp(s) || s.consumer.Finished?)
    ensures s.kept == s.received == s.offered
  {
  }

  /** At rest everything sent has been stored. */
  lemma AllStored(s: State)
    requires Invariant(s) && (CaughtUp(s) || s.consumer.Finished?)
    ensures s.kept == Collapse(s.seen) + if s.consumer.Finished? then [LAST] else []
    ensures CaughtUp(s) ==> s.seen != [] && Current(s.seen, s.kept)
  {
    hide Collapse, SameElements, Endpoints, Current;
    NothingInHand(s);
    assert Collapse(s.seen) + [] == Collapse(s.seen);
  }

  /** The watcher waits for the file to change, and everything sent has been stored. */
  predicate CaughtUp(s: State) {
    s.watcher.Selecting? && s.consumer.Receiving?
  }

  /** What an event reads from the file. */
  function ReadBy(e: Event): seq<FileContents> {
    match e
    case ReadFirst(file) => [file]
    case FileChanged(file) => [file]
    case _ => []
  }

  /** What a run reads from the file: the contents at the first read and at each event on the file, in order. */
  function FileReads(events: seq<Event>): seq<FileContents>
    decreases |events|
  {
    if events == [] then [] else ReadBy(events[0]) + FileReads(events[1..])
  }

  lemma StepReads(s: State, e: Event)
    requires Enabled(s, e)
    ensures Step(s, e).seen == s.seen + ReadBy(e)
  {
  }

  lemma {:induction false} SeenIsFileReads(s: State, events: seq<Event>)
    requires Possible(s, events)
    ensures Run(s, events).seen == s.seen + FileReads(events)
    decreases |events|
  {
    hide Step, Enabled, ReadBy;
    if events != [] {
      SeenIsFileReads(Step(s, events[0]), events[1..]);
      StepReads(s, events[0]);
      assert s.seen + ReadBy(events[0]) + FileReads(events[1..]) == s.seen + FileReads(events);
    } else {
      assert s.seen + [] == s.seen;
    }
  }

  lemma ReadsOfRun(events: seq<Event>)
    requires Possible(Start([]), events)
    ensures Run(Start([]), events).seen == FileReads(events)
  {
    hide Run;
    SeenIsFileReads(Start([]), events);
    assert [] + FileReads(events) == FileReads(events);
  }

  /**
   On every run: what was received and stored is a prefix of what was sent, and that is the run's
   reads of the file without repetitions, and one last record.
   */
  lemma ChannelCarriesTheReads(events: seq<Event>)
    requires Possible(Start([]), events)
    ensures var s := Run(Start([]), events);
            && s.kept <= s.received <= s.offered
            && s.offered == Collapse(FileReads(events)) + (if Ending(s.watcher) then [Update(None, true)] else [])
            && (CaughtUp(s) ==> s.kept == Collapse(FileReads(events)))
            && (s.consumer.Finished? ==> s.kept == Collapse(FileReads(events)) + [Update(None, true)])
  {
    hide Collapse, SameElements, Endpoints, Run, FileReads;
    Begins();
    RunKeepsInvariant(Start([]), events);
    ReadsOfRun(events);
    var s := Run(Start([]), events);
    if CaughtUp(s) || s.consumer.Finished? {
      AllStored(s);
    }
  }

  /** The list that the run's last read of the file gave. */
  ghost function LastRead(events: seq<Event>): seq<string>
    requires FileReads(events) != []
  {
    Endpoints(FileReads(events)[|FileReads(events)| - 1])
  }

  /** On every run: once it has caught up, the handler's list is the file's, up to order; at the end it is nil. */
  lemma StoredFollowsTheFile(events: seq<Event>)
    requires Possible(Start([]), events)
    ensures var s := Run(Start([]), events);
            && (CaughtUp(s) ==> FileReads(events) != [] && s.stored.Some? && s.stored.value.Some?
                                && SameElements(s.stored.value.value, LastRead(events)))
            && (s.consumer.Finished? ==> s.stored == Some(None))
  {
    hide Collapse, SameElements, Endpoints, Run, Content, FileReads;
    Begins();
    RunKeepsInvariant(Start([]), events);
    ReadsOfRun(events);
    var s := Run(Start([]), events);
    if CaughtUp(s) || s.consumer.Finished? {
      AllStored(s);
    }
  }

  lemma {:induction false} CollapseHasNoNil(seen: seq<FileContents>)
    ensures forall u :: u in Collapse(seen) ==> u.endpoints.Some?
  {
    if seen != [] {
      CollapseHasNoNil(seen[..|seen| - 1]);
    }
  }

  /** On every run: the handler's list is nil exactly when the last record has been stored, after all reads. */
  lemma NilExactlyAtTheEnd(events: seq<Event>)
    requires Possible(Start([]), events)
    ensures var s := Run(Start([]), events);
            s.stored == Some(None) <==> s.kept == Collapse(FileReads(events)) + [LAST]
  {
    hide Collapse, SameElements, Endpoints, Run, Current, FileReads;
    Begins();
    RunKeepsInvariant(Start([]), events);
    ReadsOfRun(events);
    var s := Run(Start([]), events);
    CollapseHasNoNil(s.seen);
    if s.stored == Some(None) {
      var n := |s.kept| - 1;
      var files := Collapse(s.seen);
      assert forall j :: 0 <= j < |files| ==> s.offered[j] == files[j] && s.offered[j] in files;
      assert s.offered[n] == s.kept[n] && n >= |files|;
      assert s.kept == s.offered;
    }
  }

  /**
   On every run: a client served from the stored list gets an answer of the kind that the servers of
   the last read give, code 0 exactly when one of them answers with it; and only SERVFAIL (code 2)
   from when the last record has been stored.
   */
  lemma SuppressionIsHarmless(events: seq<Event>, respond: string -> Answer, r: Msg, asked: seq<Exchange>, m: Msg)
    requires Possible(Start([]), events)
    requires AskedInOrder(ServersOf(Run(Start([]), events).stored), asked) && AnsweredBy(asked, respond) && Chosen(r, asked, m)
    ensures var s := Run(Start([]), events);
            && (CaughtUp(s) ==>
                  && FileReads(events) != []
                  && InClass(r, LastRead(events), respond, m, ClassOf(LastRead(events), respond))
                  && (m.rcode == 0 <==> exists x :: x in LastRead(events) && respond(x).Got? && respond(x).msg.rcode == 0)
                  && ((forall x :: x in LastRead(events) ==> !respond(x).Got?) ==> m.rcode == 2))
            && (s.kept == Collapse(FileReads(events)) + [LAST] || s.consumer.Finished? ==> m.rcode == 2 && m.answers == [])
  {
    hide Collapse, Run, Endpoints, SameElements, AskedInOrder, Chosen, AnsweredBy, InClass, ClassOf, FileReads;
    StoredFollowsTheFile(events);
    var s := Run(Start([]), events);
    ChosenHasClass(r, ServersOf(s.stored), asked, respond, m);
    if CaughtUp(s) {
      ReorderedClass(r, ServersOf(s.stored), LastRead(events), respond, m);
      ClassInNumbers(r, LastRead(events), respond, m);
    }
    NilExactlyAtTheEnd(events);
    if s.stored == Some(None) {
      ClassInNumbers(r, [], respond, m);
    }
  }

  /** With static servers every run leaves the handler's list as it is. */
  lemma {:induction false} StaticServersStay(fixed: seq<string>, events: seq<Event>)
    requires fixed != [] && Possible(Start(fixed), events)
    ensures Run(Start(fixed), events).stored == Some(Some(fixed)) && ServersOf(Run(Start(fixed), events).stored) == fixed
    decreases |events|
  {
    if events != [] {
      assert Step(Start(fixed), events[0]) == Start(fixed);
      StaticServersStay(fixed, events[1..]);
    }
  }

  // ---- Changes are passed on ----

  lemma {:induction false} RunSplits(s: State, a: seq<Event>, b: seq<Event>)
    requires Possible(s, a) && Possible(Run(s, a), b)
    ensures Possible(s, a + b) && Run(s, a + b) == Run(Run(s, a), b)
    decreases |a|
  {
    if a == [] {
      assert a + b == b;
    } else {
      assert (a + b)[1..] == a[1..] + b;
      RunSplits(Step(s, a[0]), a[1..], b);
    }
  }

  lemma OneStep(s: State, e: Event, rest: seq<Event>)
    requires Enabled(s, e) && Possible(Step(s, e), rest)
    ensures Possible(s, [e] + rest) && Run(s, [e] + rest) == Run(Step(s, e), rest)
  {
    assert ([e] + rest)[1..] == rest;
  }

  lemma ThreeSteps(s: State, a: Event, b: Event, c: Event)
    requires Enabled(s, a) && Enabled(Step(s, a), b) && Enabled(Step(Step(s, a), b), c)
    ensures Possible(s, [a, b, c]) && Run(s, [a, b, c]) == Step(Step(Step(s, a), b), c)
  {
    hide Step, Enabled;
    var s1, s2, s3 := Step(s, a), Step(Step(s, a), b), Step(Step(Step(s, a), b), c);
    OneStep(s2, c, []);
    OneStep(s1, b, [c]);
    OneStep(s, a, [b, c]);
    assert [c] + [] == [c] && [b] + [c] == [b, c] && [a] + [b, c] == [a, b, c];
  }

  /**
   Whenever the pipeline has caught up, a change of the file can be noticed, and it reaches the
   handler in two more steps; a reordering of what was sent last is noticed and leaves all as it is.
   */
  lemma ChangeReachesTheHandler(events: seq<Event>, file: FileContents)
    requires Possible(Start([]), events) && CaughtUp(Run(Start([]), events))
    ensures FileReads(events) != []
    ensures !SameElements(LastRead(events), Endpoints(file)) ==>
              var more := events + [FileChanged(file), Handover, Store];
              Possible(Start([]), more) && CaughtUp(Run(Start([]), more))
              && Run(Start([]), more).stored == Some(Some(Endpoints(file)))
    ensures SameElements(LastRead(events), Endpoints(file)) ==>
              Possible(Start([]), events + [FileChanged(file)])
              && CaughtUp(Run(Start([]), events + [FileChanged(file)]))
              && Run(Start([]), events + [FileChanged(file)]).stored == Run(Start([]), events).stored
  {
    hide Run, Collapse, Endpoints, FileReads, SameElements;
    var s := Run(Start([]), events);
    StoredFollowsTheFile(events);
    Begins();
    RunKeepsInvariant(Start([]), events);
    ReadsOfRun(events);
    SameAsSent(s.prev, LastRead(events), Endpoints(file));
    if SameElements(LastRead(events), Endpoints(file)) {
      OneStep(s, FileChanged(file), []);
      RunNothing(Step(s, FileChanged(file)));
      assert [FileChanged(file)] + [] == [FileChanged(file)];
      RunSplits(Start([]), events, [FileChanged(file)]);
    } else {
      ThreeSteps(s, FileChanged(file), Handover, Store);
      RunSplits(Start([]), events, [FileChanged(file), Handover, Store]);
    }
  }

  /** Whenever the pipeline has caught up the watcher can end, and its last record reaches the handler in two more steps. */
  lemma EndReachesTheHandler(events: seq<Event>)
    requires Possible(Start([]), events) && CaughtUp(Run(Start([]), events))
    ensures var more := events + [Finish, Handover, Store];
            Possible(Start([]), more) && Run(Start([]), more).stored == Some(None)
  {
    hide Run;
    ThreeSteps(Run(Start([]), events), Finish, Handover, Store);
    RunSplits(Start([]), events, [Finish, Handover, Store]);
  }

  lemma RunNothing(s: State)
    ensures Possible(s, []) && Run(s, []) == s
  {
  }

  lemma SameAsSent(sent: seq<string>, read: seq<string>, file: seq<string>)
    ensures SameElements(sent, read) ==> (SameElements(sent, file) <==> SameElements(read, file))
  {
  }

  /** A pipeline with a file to watch catches up with its first contents. */
  lemma FirstReadReachesTheHandler(file: FileContents)
    ensures var events := [ReadFirst(file), Serve, Handover] + [Store];
            Possible(Start([]), events) && CaughtUp(Run(Start([]), events)) && Run(Start([]), events).stored == Some(Some(Endpoints(file)))
  {
    hide Run, Endpoints;
    ThreeSteps(Start([]), ReadFirst(file), Serve, Handover);
    var s := Run(Start([]), [ReadFirst(file), Serve, Handover]);
    OneStep(s, Store, []);
    RunNothing(Step(s, Store));
    assert [Store] + [] == [Store];
    RunSplits(Start([]), [ReadFirst(file), Serve, Handover], [Store]);
  }

  // ---- Progress ----

  /** Steps that need nothing from outside. */
  predicate Internal(e: Event) {
    e.Handover? || e.Store? || e.Close? || e.SeeClosed?
  }

  /** How many internal steps can still follow. */
  function Pending(s: State): nat {
    (match s.watcher
     case SendingFirst(_) => 2
     case SendingChange(_) => 2
     case SendingLast(_) => 4
     case Returning => 2
     case Closed => 1
     case _ => 0)
    + (match s.consumer
       case NotServing => 1
       case Receiving => 1
       case Storing(_) => 2
       case Finished => 0)
  }

  lemma InternalStepsEnd(s: State, e: Event)
    requires Internal(e) && Enabled(s, e)
    ensures Pending(Step(s, e)) < Pending(s)
  {
  }

  /** Whenever only the outside can move, and the receiver was started, the pipeline has caught up or ended: it never gets stuck. */
  lemma NeverStuck(events: seq<Event>)
    requires Possible(Start([]), events)
    ensures var s := Run(Start([]), events);
            (forall e :: Internal(e) ==> !Enabled(s, e)) && !s.consumer.NotServing? ==>
              s.watcher.Starting? || CaughtUp(s) || (s.watcher.Closed? && s.consumer.Finished?)
  {
    hide Collapse, SameElements, Endpoints, Current, Run;
    Begins();
    RunKeepsInvariant(Start([]), events);
    var s := Run(Start([]), events);
    if forall e :: Internal(e) ==> !Enabled(s, e) {
      assert !Enabled(s, Handover) && !Enabled(s, Store) && !Enabled(s, Close) && !Enabled(s, SeeClosed);
    }
  }
}
