/** Starting and stopping a DNS forwarder as an interface comes and goes. */
module ManagedForwarder {
  import opened Wrappers

  /** What the run loop sees next, and cancellation, which may come at any time. */
  datatype Event =
    | Cancel
    | Tick(probe: bool, made: bool, served: bool)   // a tick, and whether probe, factory and serve succeed on it
    | TakeDone                                      // the select takes the cancelled context

  /** Forwarders are numbered in the order they were served; `running` is the one that stopForwarder stops. */
  datatype State = State(cancelled: bool, running: Option<nat>, served: seq<nat>, stopped: seq<nat>, done: bool)

  const IDLE := State(false, None, [], [], false)

  /** A tick may still be taken after cancellation; nothing is taken once the loop has returned. */
  predicate Enabled(s: State, e: Event) {
    match e
    case Cancel => true
    case Tick(_, _, _) => !s.done
    case TakeDone => s.cancelled && !s.done
  }

  predicate Possible(s: State, script: seq<Event>)
    decreases |script|
  {
    if script == [] then true
    else
      var n := |script| - 1;
      Possible(s, script[..n]) && Enabled(Run(s, script[..n]), script[n])
  }

  /** The state after a run, event by event. */
  function Run(s: State, script: seq<Event>): State
    decreases |script|
  {
    if script == [] then s else Step(Run(s, script[..|script| - 1]), script[|script| - 1])
  }

  function Step(s: State, e: Event): State {
    match e
    case Cancel => s.(cancelled := true)
    case Tick(probe, made, served) =>
      if s.running.None? && probe && made && served then
        s.(running := Some(|s.served|), served := s.served + [|s.served|])
      else if s.running.Some? && !probe then
        s.(running := None, stopped := s.stopped + [s.running.value])
      else
        s
    case TakeDone =>
      s.(running := None, stopped := if s.running.Some? then s.stopped + [s.running.value] else s.stopped, done := true)
  }

  /** The loop and the forwarders it has made. */
  class Manager {
    var cancelled: bool
    var stopForwarder: Option<nat>
    var done: bool
    var served: seq<nat>
    var stopped: seq<nat>

    constructor ()
      ensures View() == IDLE
    {
      cancelled, stopForwarder, done, served, stopped := false, None, false, [], [];
    }

    function View(): State
      reads this
    {
      State(cancelled, stopForwarder, served, stopped, done)
    }

    /** Serving a new forwarder hands out the function that stops it. */
    method Serve() returns (stop: nat)
      modifies this`served
      ensures stop == |old(served)| && served == old(served) + [stop]
    {
      stop := |served|;
      served := served + [stop];
    }

    method Stop(forwarder: nat)
      modifies this`stopped
      ensures stopped == old(stopped) + [forwarder]
    {
      stopped := stopped + [forwarder];
    }

    method TakeTick(probeOk: bool, madeOk: bool, servedOk: bool)
      modifies this`stopForwarder, this`served, this`stopped
      ensures View() == Step(old(View()), Tick(probeOk, madeOk, servedOk))
    {
      if stopForwarder.None? {
        if !probeOk {
          return;
        }
        if !madeOk {
          return;
        }
        if !servedOk {
          return;
        }
        var stop := Serve();
        stopForwarder := Some(stop);
      } else {
        if !probeOk {
          Stop(stopForwarder.value);
          stopForwarder := None;
        }
      }
    }

    /** The loop of run, against the order in which the select finds its events. */
    method Loop(script: seq<Event>)
      requires Possible(View(), script)
      modifies this
      ensures View() == Run(old(View()), script)
    {
      ghost var s0 := View();
      for i := 0 to |script|
        invariant View() == Run(s0, script[..i])
      {
        assert script[..i + 1][..i] == script[..i];
        match script[i] {
          case Cancel =>
            cancelled := true;
          case Tick(probe, made, served_) =>
            TakeTick(probe, made, served_);
          case TakeDone =>
            if stopForwarder.Some? {
              Stop(stopForwarder.value);
            }
            stopForwarder := None;
            done := true;
        }
      }
      assert script[..|script|] == script;
    }
  }

  // ---- Safety over every run ----

  /** Forwarders were served one at a time, and each but the running one was stopped once, in order. */
  ghost predicate Balanced(s: State) {
    && s.served == s.stopped + (if s.running.Some? then [s.running.value] else [])
    && (forall i :: 0 <= i < |s.served| ==> s.served[i] == i)
    && (s.done ==> s.running.None?)
  }

  lemma {:induction false} RunIsBalanced(script: seq<Event>)
    requires Possible(IDLE, script)
    ensures Balanced(Run(IDLE, script))
    decreases |script|
  {
    if script != [] {
      RunIsBalanced(script[..|script| - 1]);
    }
  }

  lemma StoppedOnce(s: State, f: nat)
    requires Balanced(s)
    ensures multiset(s.served)[f] == (if f < |s.served| then 1 else 0)
    ensures multiset(s.stopped)[f] == (if f < |s.served| && s.running != Some(f) then 1 else 0)
  {
    OnceEach(s.served, f);
    assert forall i :: 0 <= i < |s.stopped| ==> s.stopped[i] == s.served[i];
    OnceEach(s.stopped, f);
    if s.running.Some? {
      assert s.served[|s.stopped|] == s.running.value;
    }
  }

  lemma {:induction false} OnceEach(s: seq<nat>, f: nat)
    requires forall i :: 0 <= i < |s| ==> s[i] == i
    ensures multiset(s)[f] == if f < |s| then 1 else 0
  {
    if s != [] {
      OnceEach(s[..|s| - 1], f);
      assert s == s[..|s| - 1] + [s[|s| - 1]];
    }
  }

  /** On every run: at most one forwarder runs, none is stopped twice, and once `done` is closed each one served was stopped. */
  lemma EveryForwarderIsStopped(script: seq<Event>)
    requires Possible(IDLE, script)
    ensures var s := Run(IDLE, script);
            && |s.served| - |s.stopped| == (if s.running.Some? then 1 else 0)
            && (forall f: nat :: multiset(s.stopped)[f] <= multiset(s.served)[f] <= 1)
            && (s.done ==> forall f: nat :: f in s.served ==> multiset(s.stopped)[f] == 1)
  {
    RunIsBalanced(script);
    var s := Run(IDLE, script);
    forall f: nat ensures multiset(s.stopped)[f] <= multiset(s.served)[f] <= 1
                          && (s.done && f in s.served ==> multiset(s.stopped)[f] == 1) {
      StoppedOnce(s, f);
    }
  }

  /** A start on tick `i` that nothing has ended yet. */
  predicate StartedAndKept(script: seq<Event>, i: nat) {
    && i < |script| && script[i] == Tick(true, true, true)
    && forall j :: i < j < |script| ==> script[j] != TakeDone && (script[j].Tick? ==> script[j].probe)
  }

  /** A forwarder runs exactly when on some tick one could be started and the interface has been there on every tick since. */
  lemma {:induction false} RunsExactlyWhileInterfaceIsThere(script: seq<Event>)
    requires Possible(IDLE, script)
    ensures Run(IDLE, script).running.Some? <==> exists i: nat :: StartedAndKept(script, i)
    decreases |script|
  {
    if script != [] {
      var n := |script| - 1;
      var front, last := script[..n], script[n];
      RunsExactlyWhileInterfaceIsThere(front);
      RunIsBalanced(front);
      if i: nat :| StartedAndKept(script, i) && i < n {
        assert StartedAndKept(front, i);
      }
      if i: nat :| StartedAndKept(front, i) {
        if last != TakeDone && (last.Tick? ==> last.probe) {
          assert StartedAndKept(script, i);
        }
      }
      if last == Tick(true, true, true) {
        assert StartedAndKept(script, n);
      }
    }
  }

  // ---- Starts, and what can always happen ----

  /** How often a run starts a forwarder: on each tick that can start one while none is kept from before. */
  ghost function Starts(script: seq<Event>): nat
    decreases |script|
  {
    if script == [] then 0
    else
      var n := |script| - 1;
      Starts(script[..n]) +
      if script[n] == Tick(true, true, true) && !exists i: nat :: StartedAndKept(script[..n], i) then 1 else 0
  }

  /** Exactly that many forwarders are served: none is started beside a running one, and none is restarted. */
  lemma {:induction false} ServesAreStarts(script: seq<Event>)
    requires Possible(IDLE, script)
    ensures |Run(IDLE, script).served| == Starts(script)
    decreases |script|
  {
    if script != [] {
      var n := |script| - 1;
      ServesAreStarts(script[..n]);
      RunsExactlyWhileInterfaceIsThere(script[..n]);
    }
  }

  lemma StartsIdle()
    ensures Possible(IDLE, []) && Run(IDLE, []) == State(false, None, [], [], false)
  {
  }

  /** Until the loop has returned a tick can be taken, also after cancellation; and it can be cancelled and return. */
  lemma LoopGoesOn(script: seq<Event>, probe: bool, made: bool, served: bool)
    requires Possible(IDLE, script) && !Run(IDLE, script).done
    ensures Possible(IDLE, script + [Tick(probe, made, served)])
    ensures Possible(IDLE, script + [Cancel]) && Possible(IDLE, script + [Cancel] + [TakeDone])
    ensures Run(IDLE, script + [Cancel] + [TakeDone]).done
  {
    assert (script + [Tick(probe, made, served)])[..|script|] == script;
    assert (script + [Cancel])[..|script|] == script;
    assert (script + [Cancel] + [TakeDone])[..|script| + 1] == script + [Cancel];
  }

  /** The caller's stop waits for `done`, which closes only after cancellation. */
  lemma {:induction false} DoneMeansCancelled(script: seq<Event>)
    requires Possible(IDLE, script) && Run(IDLE, script).done
    ensures Cancel in script && TakeDone in script
    decreases |script|
  {
    var n := |script| - 1;
    if Run(IDLE, script[..n]).done {
      DoneMeansCancelled(script[..n]);
    } else {
      CancelledMeansCancel(script[..n]);
    }
  }

  lemma {:induction false} CancelledMeansCancel(script: seq<Event>)
    ensures Run(IDLE, script).cancelled ==> Cancel in script
    decreases |script|
  {
    if script != [] {
      CancelledMeansCancel(script[..|script| - 1]);
    }
  }
}
