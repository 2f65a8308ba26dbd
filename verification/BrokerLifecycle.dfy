/**
 Starting and shutting down the runtime broker: every stretch of code between two awaits is one
 step, and the steps of any number of callers interleave freely.
 */
module BrokerLifecycle {
  import opened Text
  import opened Sorting

  datatype Phase = Warming | Disposing

  /** A start in flight; `created` says that it made the broker itself. */
  datatype Start = Start(broker: nat, created: bool, phase: Phase)

  /**
   The global fields, with what the process knows besides: starts in flight, shutdown calls that
   await a start, pending restart timers, the brokers made so far (numbered from 0) and the
   calls of `dispose` in order.
   */
  datatype State = State(
    broker: Option<nat>,
    handshake: bool,
    startPromise: Option<nat>,
    running: map<nat, Start>,
    waiting: map<nat, nat>,
    timers: nat,
    brokers: nat,
    starts: nat,
    disposals: seq<nat>)

  const INITIAL: State := State(None, false, None, map[], map[], 0, 0, 0, [])

  datatype Action =
    | Ensure
    | WarmupSucceeds(start: nat)
    | WarmupFails(start: nat)
    | DisposeSettles(start: nat)
    | ShutdownBegins(call: nat)
    | ShutdownResumes(call: nat)
    | CatalogExits
    | TimerFires(quitting: bool)

  // ---------------------------------------------------------------- the steps

  function EnsureStep(s: State): State {
    if s.startPromise.Some? then s
    else if s.broker.Some? && s.handshake then s
    else
      var created := s.broker.None?;
      var broker := if created then s.brokers else s.broker.value;
      s.(broker := Some(broker),
         brokers := if created then s.brokers + 1 else s.brokers,
         startPromise := Some(s.starts),
         running := s.running[s.starts := Start(broker, created, Warming)],
         starts := s.starts + 1)
  }

  /** The `finally` block: the start is over and the stored promise is cleared, whichever it is. */
  function Finish(s: State, start: nat): State {
    s.(startPromise := None, running := s.running - {start})
  }

  function FailStep(s: State, start: nat): State
    requires start in s.running
  {
    var t := s.running[start];
    if t.created then
      s.(broker := if s.broker == Some(t.broker) then None else s.broker,
         handshake := false,
         disposals := s.disposals + [t.broker],
         running := s.running[start := t.(phase := Disposing)])
    else Finish(s.(handshake := false), start)
  }

  /** The part of a shutdown after any start it waited for. */
  function TakeStep(s: State): State {
    s.(broker := None,
       handshake := false,
       disposals := if s.broker.Some? then s.disposals + [s.broker.value] else s.disposals)
  }

  predicate Enabled(s: State, a: Action) {
    match a
    case Ensure => true
    case WarmupSucceeds(start) => start in s.running && s.running[start].phase == Warming
    case WarmupFails(start) => start in s.running && s.running[start].phase == Warming
    case DisposeSettles(start) => start in s.running && s.running[start].phase == Disposing
    case ShutdownBegins(call) => call !in s.waiting
    case ShutdownResumes(call) => call in s.waiting && s.waiting[call] !in s.running
    case CatalogExits => true
    case TimerFires(_) => s.timers > 0
  }

  function Step(s: State, a: Action): State
    requires Enabled(s, a)
  {
    match a
    case Ensure => EnsureStep(s)
    case WarmupSucceeds(start) => Finish(s.(handshake := true), start)
    case WarmupFails(start) => FailStep(s, start)
    case DisposeSettles(start) => Finish(s, start)
    case ShutdownBegins(call) =>
      if s.startPromise.Some? then s.(waiting := s.waiting[call := s.startPromise.value]) else TakeStep(s)
    case ShutdownResumes(call) => TakeStep(s.(waiting := s.waiting - {call}))
    case CatalogExits => s.(handshake := false, timers := s.timers + 1)
    case TimerFires(quitting) =>
      var fired := s.(timers := s.timers - 1);
      if s.broker.None? || quitting then fired else EnsureStep(fired)
  }

  /** A shutdown whose start is over, but which has not gone on yet. */
  ghost predicate Resumable(s: State) {
    exists call :: call in s.waiting && s.waiting[call] !in s.running
  }

  /** Which steps may be taken while a shutdown is due to go on: direct starts, and restart timers. */
  datatype Overtaking = Overtaking(starts: bool, timers: bool)

  /** A step that may not overtake waits until no shutdown is due to go on. */
  ghost predicate Allowed(s: State, a: Action, may: Overtaking) {
    && (a.Ensure? && !may.starts ==> !Resumable(s))
    && (a.TimerFires? && !may.timers ==> !Resumable(s))
  }

  /** The state after a run, if every step of it was possible and allowed. */
  ghost function Run(actions: seq<Action>, may: Overtaking): Option<State> {
    if actions == [] then Some(INITIAL)
    else
      var n := |actions| - 1;
      var before := Run(actions[..n], may);
      if before.Some? && Enabled(before.value, actions[n]) && Allowed(before.value, actions[n], may)
      then Some(Step(before.value, actions[n]))
      else None
  }

  // ---------------------------------------------------------------- every interleaving

  /** One start at most is in flight, and no broker is ever lost without being disposed. */
  ghost predicate SingleFlight(s: State) {
    && s.running.Keys == (if s.startPromise.Some? then {s.startPromise.value} else {})
    && (s.startPromise.Some? ==> s.startPromise.value < s.starts)
    && (s.broker.Some? ==> s.broker.value < s.brokers)
    && (forall b :: 0 <= b < s.brokers ==> s.broker == Some(b) || b in s.disposals)
  }

  lemma SingleFlightStep(s: State, a: Action)
    requires SingleFlight(s) && Enabled(s, a)
    ensures SingleFlight(Step(s, a))
  {
    match a
    case TimerFires(_) => EnsureSingleFlight(s.(timers := s.timers - 1));
    case Ensure => EnsureSingleFlight(s);
    case _ =>
  }

  lemma EnsureSingleFlight(s: State)
    requires SingleFlight(s)
    ensures SingleFlight(EnsureStep(s))
  {}

  /** In every interleaving of starts, shutdowns, worker exits and timers. */
  lemma {:induction false} AlwaysSingleFlight(actions: seq<Action>, may: Overtaking)
    ensures Run(actions, may).Some? ==> SingleFlight(Run(actions, may).value)
  {
    if actions != [] {
      var n := |actions| - 1;
      AlwaysSingleFlight(actions[..n], may);
      if Run(actions, may).Some? {
        SingleFlightStep(Run(actions[..n], may).value, actions[n]);
      }
    }
  }

  // ---------------------------------------------------------------- what the steps are for

  /** A start while one is in flight, or when the broker is ready, changes nothing. */
  lemma EnsureIsIdempotent(s: State, start: nat)
    requires SingleFlight(s)
    ensures EnsureStep(EnsureStep(s)) == EnsureStep(s)
    ensures Enabled(s, WarmupSucceeds(start)) && s.broker.Some? ==>
              EnsureStep(Step(s, WarmupSucceeds(start))) == Step(s, WarmupSucceeds(start))
  {}

  /** A start that does anything warms up the current broker, and makes one only if there is none. */
  lemma EnsureWarms(s: State)
    requires SingleFlight(s) && s.startPromise.None? && !(s.broker.Some? && s.handshake)
    ensures
      var t := EnsureStep(s);
      && t.startPromise.Some? && t.startPromise.value in t.running
      && var start := t.running[t.startPromise.value];
      && t.broker == Some(start.broker) && start.phase == Warming
      && (start.created <==> s.broker.None?) && (s.broker.Some? ==> t.broker == s.broker && t.brokers == s.brokers)
  {}

  /** When the catalog worker exits, its timer restarts the broker that is there, without making another, unless the application quits. */
  lemma RestartAfterExit(s: State)
    requires SingleFlight(s) && s.broker.Some? && s.startPromise.None?
    ensures
      var exited := Step(s, CatalogExits);
      && !exited.handshake && exited.timers == s.timers + 1
      && var t := Step(exited, TimerFires(false));
      && t.broker == s.broker && t.brokers == s.brokers && t.timers == s.timers
      && t.startPromise.Some? && t.startPromise.value in t.running && !t.running[t.startPromise.value].created
    ensures Step(Step(s, CatalogExits), TimerFires(true)) == s.(handshake := false)
  {}

  /** A warmup that fails leaves no handshake, and disposes the broker only if its start had made it. */
  lemma FailureClears(s: State, start: nat)
    requires Enabled(s, WarmupFails(start))
    ensures
      var t := Step(s, WarmupFails(start));
      && !t.handshake
      && t.disposals == s.disposals + (if s.running[start].created then [s.running[start].broker] else [])
      && (s.running[start].created && s.broker == Some(s.running[start].broker) ==> t.broker.None?)
      && (!s.running[start].created ==> t.broker == s.broker && t.startPromise.None?)
  {}

  /** A shutdown with no start in flight leaves no broker, and disposes the one there was. */
  lemma ShutdownDisposes(s: State, call: nat)
    requires s.startPromise.None? && call !in s.waiting
    ensures
      var t := Step(s, ShutdownBegins(call));
      && t.broker.None? && !t.handshake
      && t.disposals == s.disposals + (if s.broker.Some? then [s.broker.value] else [])
  {}

  // ---------------------------------------------------------------- no broker is disposed twice

  /**
   Every broker disposed is an earlier one, disposed once. While a start that made its broker is in
   flight, no shutdown is due to go on, and while it warms up, its broker is the current one.
   */
  ghost predicate DisposedOnce(s: State) {
    && SingleFlight(s)
    && Distinct(s.disposals)
    && (s.broker.Some? ==> s.broker.value !in s.disposals)
    && (forall b :: b in s.disposals ==> b < s.brokers)
    && (forall start :: start in s.running && s.running[start].created ==>
          !Resumable(s) && (s.running[start].phase == Warming ==> s.broker == Some(s.running[start].broker)))
  }

  /** Restart timers may come at any time: they start nothing unless there is a broker. */
  lemma DisposedOnceStep(s: State, a: Action)
    requires DisposedOnce(s) && Enabled(s, a) && (a.Ensure? ==> !Resumable(s))
    ensures DisposedOnce(Step(s, a))
  {
    SingleFlightStep(s, a);
    match a
    case Ensure => EnsureDisposedOnce(s);
    case TimerFires(quitting) =>
      var fired := s.(timers := s.timers - 1);
      assert Resumable(fired) ==> Resumable(s);
      if s.broker.Some? {
        EnsureDisposedOnce(fired);
      }
    case WarmupFails(start) => FailureDisposedOnce(s, start);
    case ShutdownBegins(call) => ShutdownDisposedOnce(s, call);
    case ShutdownResumes(call) => assert Resumable(s);
    case CatalogExits => assert Resumable(Step(s, a)) ==> Resumable(s);
    case _ => assert Step(s, a).running == map[];
  }

  lemma EnsureDisposedOnce(s: State)
    requires DisposedOnce(s) && (s.broker.None? ==> !Resumable(s))
    ensures DisposedOnce(EnsureStep(s))
  {
    EnsureSingleFlight(s);
    var t := EnsureStep(s);
    if t != s && s.broker.None? {
      assert s.running == map[];
      assert forall call :: call in s.waiting ==> Resumable(s);
    }
  }

  lemma FailureDisposedOnce(s: State, start: nat)
    requires DisposedOnce(s) && Enabled(s, WarmupFails(start))
    ensures DisposedOnce(Step(s, WarmupFails(start)))
  {
    SingleFlightStep(s, WarmupFails(start));
    assert s.running.Keys == {start};
    assert Resumable(Step(s, WarmupFails(start))) && s.running[start].created ==> Resumable(s);
  }

  lemma ShutdownDisposedOnce(s: State, call: nat)
    requires DisposedOnce(s) && Enabled(s, ShutdownBegins(call))
    ensures DisposedOnce(Step(s, ShutdownBegins(call)))
  {
    SingleFlightStep(s, ShutdownBegins(call));
    if s.startPromise.Some? {
      assert s.startPromise.value in s.running;
      assert Resumable(Step(s, ShutdownBegins(call))) ==> Resumable(s);
    }
  }

  lemma {:induction false} AlwaysDisposedOnce(actions: seq<Action>, may: Overtaking)
    requires !may.starts
    ensures Run(actions, may).Some? ==> DisposedOnce(Run(actions, may).value)
  {
    if actions != [] {
      var n := |actions| - 1;
      AlwaysDisposedOnce(actions[..n], may);
      if Run(actions, may).Some? {
        DisposedOnceStep(Run(actions[..n], may).value, actions[n]);
      }
    }
  }

  // ---------------------------------------------------------------- a handshake belongs to a broker

  /** While any start is in flight, no shutdown is due to go on, and while it warms up, its broker is the current one. */
  ghost predicate HandshakeOwned(s: State) {
    && SingleFlight(s)
    && (s.handshake ==> s.broker.Some?)
    && (forall start :: start in s.running ==>
          !Resumable(s) && (s.running[start].phase == Warming ==> s.broker == Some(s.running[start].broker)))
  }

  lemma HandshakeStep(s: State, a: Action)
    requires HandshakeOwned(s) && Enabled(s, a) && (a.Ensure? || a.TimerFires? ==> !Resumable(s))
    ensures HandshakeOwned(Step(s, a))
  {
    SingleFlightStep(s, a);
    match a
    case Ensure => EnsureOwned(s);
    case TimerFires(_) => EnsureOwned(s.(timers := s.timers - 1));
    case WarmupFails(start) =>
      assert s.running.Keys == {start};
      assert Resumable(Step(s, a)) && s.running[start].created ==> Resumable(s);
    case ShutdownBegins(call) =>
      if s.startPromise.Some? {
        assert s.startPromise.value in s.running;
        assert Resumable(Step(s, a)) ==> Resumable(s);
      }
    case ShutdownResumes(call) => assert Resumable(s);
    case CatalogExits => assert Resumable(Step(s, a)) ==> Resumable(s);
    case _ => assert Step(s, a).running == map[];
  }

  lemma EnsureOwned(s: State)
    requires HandshakeOwned(s) && !Resumable(s)
    ensures HandshakeOwned(EnsureStep(s))
  {
    EnsureSingleFlight(s);
    if EnsureStep(s) != s {
      assert s.running == map[];
      assert forall call :: call in s.waiting ==> Resumable(s);
    }
  }

  lemma {:induction false} AlwaysOwned(actions: seq<Action>, may: Overtaking)
    requires !may.starts && !may.timers
    ensures Run(actions, may).Some? ==> HandshakeOwned(Run(actions, may).value)
  {
    if actions != [] {
      var n := |actions| - 1;
      AlwaysOwned(actions[..n], may);
      if Run(actions, may).Some? {
        HandshakeStep(Run(actions[..n], may).value, actions[n]);
      }
    }
  }

  // ---------------------------------------------------------------- runs in which a start or a timer overtakes

  lemma RunOne(actions: seq<Action>, s: State, a: Action, may: Overtaking)
    requires Run(actions, may) == Some(s) && Enabled(s, a) && Allowed(s, a, may)
    ensures Run(actions + [a], may) == Some(Step(s, a))
  {
    assert (actions + [a])[..|actions|] == actions;
  }

  ghost predicate ThreeSteps(s: State, a: Action, b: Action, c: Action, t: State, may: Overtaking) {
    && Enabled(s, a) && Allowed(s, a, may)
    && var u := Step(s, a);
    && Enabled(u, b) && Allowed(u, b, may)
    && var v := Step(u, b);
    && Enabled(v, c) && Allowed(v, c, may)
    && Step(v, c) == t
  }

  lemma RunThree(actions: seq<Action>, s: State, a: Action, b: Action, c: Action, t: State, may: Overtaking)
    returns (longer: seq<Action>)
    requires Run(actions, may) == Some(s) && ThreeSteps(s, a, b, c, t, may)
    ensures Run(longer, may) == Some(t)
  {
    var u := Step(s, a);
    RunOne(actions, s, a, may);
    RunOne(actions + [a], u, b, may);
    RunOne(actions + [a] + [b], Step(u, b), c, may);
    longer := actions + [a] + [b] + [c];
  }

  /** The first broker failed and a shutdown waits for its start, which is being disposed. */
  const AFTER_FAILURE: State :=
    State(None, false, Some(0), map[0 := Start(0, true, Disposing)], map[0 := 0], 0, 1, 1, [0])

  lemma FailedOnce(s: State, may: Overtaking)
    requires s == INITIAL
    ensures ThreeSteps(s, Ensure, ShutdownBegins(0), WarmupFails(0), AFTER_FAILURE, may)
  {
    var a := Step(s, Ensure);
    var b := Step(a, ShutdownBegins(0));
    var c := Step(b, WarmupFails(0));
    assert a.running == map[0 := Start(0, true, Warming)];
    assert b.waiting == map[0 := 0] && b.running == a.running;
    assert c.running == AFTER_FAILURE.running && c.disposals == [0];
  }

  /** Broker 1 was made by a start that overtook the shutdown, which then disposed it; that start still warms it up. */
  const START_OVERTOOK: State :=
    State(None, false, Some(1), map[1 := Start(1, true, Warming)], map[], 0, 2, 2, [0, 1])

  lemma StartOvertakes(s: State, may: Overtaking)
    requires s == AFTER_FAILURE && may.starts
    ensures ThreeSteps(s, DisposeSettles(0), Ensure, ShutdownResumes(0), START_OVERTOOK, may)
  {
    var a := Step(s, DisposeSettles(0));
    assert a.running == map[] && a.waiting == map[0 := 0];
    var b := Step(a, Ensure);
    assert b.running == map[1 := Start(1, true, Warming)];
    var c := Step(b, ShutdownResumes(0));
    assert c.waiting == map[] && c.disposals == [0] + [1] == [0, 1];
  }

  lemma ReachStartOvertook(may: Overtaking) returns (actions: seq<Action>)
    requires may.starts
    ensures Run(actions, may) == Some(START_OVERTOOK)
  {
    FailedOnce(INITIAL, may);
    StartOvertakes(AFTER_FAILURE, may);
    var r := RunThree([], INITIAL, Ensure, ShutdownBegins(0), WarmupFails(0), AFTER_FAILURE, may);
    actions := RunThree(r, AFTER_FAILURE, DisposeSettles(0), Ensure, ShutdownResumes(0), START_OVERTOOK, may);
  }

  /** The first broker is ready; a shutdown that waited for its start has not gone on yet. */
  const AFTER_SUCCESS: State := State(Some(0), true, None, map[], map[0 := 0], 0, 1, 1, [])

  lemma SucceededOnce(s: State, may: Overtaking)
    requires s == INITIAL
    ensures ThreeSteps(s, Ensure, ShutdownBegins(0), WarmupSucceeds(0), AFTER_SUCCESS, may)
  {
    var a := Step(s, Ensure);
    var b := Step(a, ShutdownBegins(0));
    assert a.running == map[0 := Start(0, true, Warming)];
    assert b.waiting == map[0 := 0] && b.running == a.running;
    assert Step(b, WarmupSucceeds(0)).running == map[];
  }

  /** A timer restarted the broker that the shutdown then disposed; the restart still warms it up. */
  const TIMER_OVERTOOK: State :=
    State(None, false, Some(1), map[1 := Start(0, false, Warming)], map[], 0, 1, 2, [0])

  /** The timer has started the restart, and the shutdown can go on. */
  const RESTARTING: State :=
    State(Some(0), false, Some(1), map[1 := Start(0, false, Warming)], map[0 := 0], 0, 1, 2, [])

  lemma TimerRestarts(s: State)
    requires s == AFTER_SUCCESS
    ensures Step(Step(s, CatalogExits), TimerFires(false)) == RESTARTING
  {
    assert Step(Step(s, CatalogExits), TimerFires(false)).running == RESTARTING.running;
  }

  lemma ShutdownTakesBroker(s: State)
    requires s == RESTARTING
    ensures Enabled(s, ShutdownResumes(0)) && Step(s, ShutdownResumes(0)) == TIMER_OVERTOOK
  {
    var t := Step(s, ShutdownResumes(0));
    assert t.waiting == map[] && t.disposals == [] + [0] == [0];
  }

  lemma TimerOvertakes(s: State, may: Overtaking)
    requires s == AFTER_SUCCESS && may.timers
    ensures ThreeSteps(s, CatalogExits, TimerFires(false), ShutdownResumes(0), TIMER_OVERTOOK, may)
  {
    TimerRestarts(s);
    ShutdownTakesBroker(RESTARTING);
  }

  lemma ReachTimerOvertook(may: Overtaking) returns (actions: seq<Action>)
    requires may.timers
    ensures Run(actions, may) == Some(TIMER_OVERTOOK)
  {
    SucceededOnce(INITIAL, may);
    TimerOvertakes(AFTER_SUCCESS, may);
    var r := RunThree([], INITIAL, Ensure, ShutdownBegins(0), WarmupSucceeds(0), AFTER_SUCCESS, may);
    actions := RunThree(r, AFTER_SUCCESS, CatalogExits, TimerFires(false), ShutdownResumes(0), TIMER_OVERTOOK, may);
  }

  // ---------------------------------------------------------------- exactly when

  ghost predicate TwiceDisposed(actions: seq<Action>, may: Overtaking) {
    Run(actions, may).Some? && !Distinct(Run(actions, may).value.disposals)
  }

  ghost predicate Stray(actions: seq<Action>, may: Overtaking) {
    Run(actions, may).Some? && Run(actions, may).value.handshake && Run(actions, may).value.broker.None?
  }

  /** A start that slips in before a waiting shutdown goes on can have its broker disposed twice: it fails then. */
  lemma DisposedTwice(may: Overtaking) returns (actions: seq<Action>)
    requires may.starts
    ensures TwiceDisposed(actions, may)
  {
    var r := ReachStartOvertook(may);
    RunOne(r, START_OVERTOOK, WarmupFails(1), may);
    actions := r + [WarmupFails(1)];
    var disposals := Run(actions, may).value.disposals;
    assert disposals[1] == disposals[2];
  }

  /** If it succeeds instead, it leaves a handshake behind with no broker; ... */
  lemma StrayByStart(may: Overtaking) returns (actions: seq<Action>)
    requires may.starts
    ensures Stray(actions, may)
  {
    var r := ReachStartOvertook(may);
    RunOne(r, START_OVERTOOK, WarmupSucceeds(1), may);
    actions := r + [WarmupSucceeds(1)];
  }

  /** ... and so can a timer that slips in. */
  lemma StrayHandshake(may: Overtaking) returns (actions: seq<Action>)
    requires may.timers
    ensures Stray(actions, may)
  {
    var r := ReachTimerOvertook(may);
    RunOne(r, TIMER_OVERTOOK, WarmupSucceeds(1), may);
    actions := r + [WarmupSucceeds(1)];
  }

  /** No run disposes a broker twice if and only if direct starts may not overtake; timers may. */
  lemma DisposedOnceExactly(may: Overtaking)
    ensures (forall actions :: !TwiceDisposed(actions, may)) <==> !may.starts
  {
    if may.starts {
      var actions := DisposedTwice(may);
    } else {
      forall actions ensures !TwiceDisposed(actions, may) {
        AlwaysDisposedOnce(actions, may);
      }
    }
  }

  /** Every handshake has a current broker in every run if and only if neither starts nor timers may overtake. */
  lemma HandshakeExactly(may: Overtaking)
    ensures (forall actions :: !Stray(actions, may)) <==> !may.starts && !may.timers
  {
    if may.starts {
      var actions := StrayByStart(may);
    } else if may.timers {
      var actions := StrayHandshake(may);
    } else {
      forall actions ensures !Stray(actions, may) {
        AlwaysOwned(actions, may);
      }
    }
  }
}
