/**
 Leaving the application: quit, relaunch, hard-stop signals, failed startup and update installation
 all go through one background teardown. Each stretch between two awaits is one step, and the
 steps of all callers interleave freely.
 */
module Teardown {
  import opened Text

  /** What the teardown body is waiting for. */
  datatype Phase = StoppingServer | ShuttingDownPi | StoppingSsh

  datatype Kind = Quit | Relaunch | Signal | StartupFailure | UpdateInstall

  /** A caller of the teardown: waiting for a body, or past the await and about to exit. */
  datatype Caller = Awaiting(kind: Kind, body: nat) | Returned(kind: Kind)

  datatype Flags = Flags(installingUpdate: bool, quitConfirmed: bool, quitInProgress: bool, hardStop: bool)

  datatype Stopped = Stopped(server: bool, pi: bool, listener: bool, ssh: bool)

  /**
   The flags of the program, the bodies in progress (numbered from 0 in the order they started),
   the bodies that threw, the callers, and what has been stopped so far.
   */
  datatype State = State(
    complete: bool,
    promise: Option<nat>,
    flags: Flags,
    started: nat,
    bodies: map<nat, Phase>,
    threw: set<nat>,
    callers: map<nat, Caller>,
    stopped: Stopped,
    exited: bool)

  const INITIAL: State :=
    State(false, None, Flags(false, false, false, false), 0, map[], {}, map[], Stopped(false, false, false, false), false)

  datatype Action =
    | ConfirmedQuit(caller: nat)
    | RelaunchRequest(caller: nat)
    | HardStop(caller: nat)
    | StartupFails(caller: nat)
    | UpdateRequest
    | UpdateProceeds(caller: nat)
    | PrepareForUpdate
    | BeforeQuit(caller: nat)
    | BodyAdvances(body: nat)
    | BodyThrows(body: nat)
    | CallerResumes(caller: nat)
    | CallerExits(caller: nat)

  // ---------------------------------------------------------------- the steps

  /** The teardown as its caller sees it, up to the first await. */
  function CallTeardown(s: State, caller: nat, kind: Kind, allowDuringUpdate: bool): State {
    if s.complete then s.(callers := s.callers[caller := Returned(kind)])
    else if s.promise.Some? then s.(callers := s.callers[caller := Awaiting(kind, s.promise.value)])
    else
      var body := s.started;
      var called := s.(started := body + 1, promise := Some(body), callers := s.callers[caller := Awaiting(kind, body)]);
      if !allowDuringUpdate && s.flags.installingUpdate then called.(complete := true)
      else called.(bodies := s.bodies[body := StoppingServer])
  }

  /** Quitting and relaunching both clear the update flag and confirm the quit first. */
  function Prepare(s: State): State {
    s.(flags := s.flags.(quitConfirmed := true, installingUpdate := false))
  }

  function StartQuit(s: State): State {
    s.(flags := s.flags.(quitInProgress := true))
  }

  function StartHardStop(s: State): State {
    s.(flags := s.flags.(hardStop := true))
  }

  function PerformQuit(s: State, caller: nat): State {
    if s.flags.quitInProgress then s
    else CallTeardown(Prepare(StartQuit(s)), caller, Quit, false)
  }

  function Advance(s: State, body: nat): State
    requires body in s.bodies
  {
    match s.bodies[body]
    case StoppingServer => s.(stopped := s.stopped.(server := true), bodies := s.bodies[body := ShuttingDownPi])
    case ShuttingDownPi => s.(stopped := s.stopped.(pi := true, listener := true), bodies := s.bodies[body := StoppingSsh])
    case StoppingSsh => Settle(s.(stopped := s.stopped.(ssh := true)), body)
  }

  /** The `finally` block of the body. */
  function Settle(s: State, body: nat): State {
    s.(complete := true, promise := None, bodies := s.bodies - {body})
  }

  /** A body that throws rejects its callers; only the signal and startup handlers go on to exit. */
  predicate ExitsAnyway(kind: Kind) {
    kind == Signal || kind == StartupFailure
  }

  predicate Enabled(s: State, a: Action) {
    match a
    case ConfirmedQuit(c) => c !in s.callers
    case RelaunchRequest(c) => c !in s.callers
    case HardStop(c) => c !in s.callers
    case StartupFails(c) => c !in s.callers
    case UpdateRequest => true
    case UpdateProceeds(c) => c !in s.callers
    case PrepareForUpdate => true
    case BeforeQuit(c) => c !in s.callers
    case BodyAdvances(body) => body in s.bodies
    case BodyThrows(body) => body in s.bodies
    case CallerResumes(c) =>
      c in s.callers && s.callers[c].Awaiting? && s.callers[c].body !in s.bodies
      && (s.callers[c].body in s.threw ==> ExitsAnyway(s.callers[c].kind))
    case CallerExits(c) => c in s.callers && s.callers[c].Returned?
  }

  function Step(s: State, a: Action): State
    requires Enabled(s, a)
  {
    match a
    case ConfirmedQuit(c) => PerformQuit(s, c)
    case RelaunchRequest(c) => CallTeardown(Prepare(s), c, Relaunch, false)
    case HardStop(c) => if s.flags.hardStop then s else CallTeardown(StartHardStop(s), c, Signal, false)
    case StartupFails(c) => CallTeardown(s, c, StartupFailure, false)
    case UpdateRequest => s.(flags := s.flags.(installingUpdate := true))
    case UpdateProceeds(c) => CallTeardown(s, c, UpdateInstall, true)
    case PrepareForUpdate => s.(flags := s.flags.(quitConfirmed := true, installingUpdate := true), complete := true)
    case BeforeQuit(c) =>
      if s.flags.installingUpdate then s.(exited := true)
      else if !s.flags.quitConfirmed then s
      else if !s.complete then PerformQuit(s, c)
      else s.(exited := true)
    case BodyAdvances(body) => Advance(s, body)
    case BodyThrows(body) => Settle(s.(threw := s.threw + {body}), body)
    case CallerResumes(c) => s.(callers := s.callers[c := Returned(s.callers[c].kind)])
    case CallerExits(_) => s.(exited := true)
  }

  /** The kinds of action that concern an update installation or a failing teardown. */
  datatype Suspect = RequestsUpdate | ProceedsWithUpdate | PreparesForUpdate | Throws

  function SuspectOf(a: Action): Option<Suspect> {
    match a
    case UpdateRequest => Some(RequestsUpdate)
    case UpdateProceeds(_) => Some(ProceedsWithUpdate)
    case PrepareForUpdate => Some(PreparesForUpdate)
    case BodyThrows(_) => Some(Throws)
    case _ => None
  }

  /** Every action but those of a suspect kind outside `kinds`. */
  predicate Admitted(a: Action, kinds: set<Suspect>) {
    SuspectOf(a).Some? ==> SuspectOf(a).value in kinds
  }

  const HARMFUL: set<Suspect> := {RequestsUpdate, PreparesForUpdate, Throws}

  /** Neither sets the update flag nor throws; an update's own call of the teardown is as calm as any. */
  predicate Calm(a: Action) {
    SuspectOf(a).Some? ==> SuspectOf(a).value !in HARMFUL
  }

  ghost function Run(actions: seq<Action>): Option<State> {
    if actions == [] then Some(INITIAL)
    else
      var n := |actions| - 1;
      var before := Run(actions[..n]);
      if before.Some? && Enabled(before.value, actions[n]) then Some(Step(before.value, actions[n])) else None
  }

  // ---------------------------------------------------------------- at most one body

  ghost predicate StartsOnce(s: State) {
    && s.started <= 1
    && (s.started == 1 ==> s.complete || s.promise.Some?)
  }

  lemma StartsOnceStep(s: State, a: Action)
    requires StartsOnce(s) && Enabled(s, a)
    ensures StartsOnce(Step(s, a))
  {
    match a
    case ConfirmedQuit(c) => CallStartsOnce(Prepare(StartQuit(s)), c, Quit, false);
    case BeforeQuit(c) => CallStartsOnce(Prepare(StartQuit(s)), c, Quit, false);
    case RelaunchRequest(c) => CallStartsOnce(Prepare(s), c, Relaunch, false);
    case HardStop(c) => CallStartsOnce(StartHardStop(s), c, Signal, false);
    case StartupFails(c) => CallStartsOnce(s, c, StartupFailure, false);
    case UpdateProceeds(c) => CallStartsOnce(s, c, UpdateInstall, true);
    case _ =>
  }

  lemma CallStartsOnce(s: State, caller: nat, kind: Kind, allow: bool)
    requires StartsOnce(s)
    ensures StartsOnce(CallTeardown(s, caller, kind, allow))
  {}

  /** In every interleaving, updates and failures included, the teardown body starts at most once. */
  lemma {:induction false} BodyStartsAtMostOnce(actions: seq<Action>)
    ensures Run(actions).Some? ==> StartsOnce(Run(actions).value)
  {
    if actions != [] {
      var n := |actions| - 1;
      BodyStartsAtMostOnce(actions[..n]);
      if Run(actions).Some? {
        StartsOnceStep(Run(actions[..n]).value, actions[n]);
      }
    }
  }

  // ---------------------------------------------------------------- nothing exits early

  ghost predicate AllStopped(s: State) {
    s.stopped == Stopped(true, true, true, true)
  }

  ghost predicate BodyOnTrack(s: State, phase: Phase) {
    && (phase != StoppingServer ==> s.stopped.server)
    && (phase == StoppingSsh ==> s.stopped.pi && s.stopped.listener)
  }

  ghost predicate CallerOnTrack(s: State, caller: Caller) {
    match caller
    case Awaiting(_, body) => body < s.started && (body !in s.bodies ==> AllStopped(s))
    case Returned(_) => AllStopped(s)
  }

  ghost predicate NoEarlyExit(s: State) {
    && !s.flags.installingUpdate
    && (s.complete || s.exited ==> AllStopped(s))
    && (s.stopped.server ==> s.started == 1)
    && (s.promise.Some? ==> s.promise.value in s.bodies)
    && (forall b :: b in s.bodies ==> b < s.started && BodyOnTrack(s, s.bodies[b]))
    && (forall c :: c in s.callers ==> CallerOnTrack(s, s.callers[c]))
  }

  lemma CallOnTrack(s: State, caller: nat, kind: Kind, allow: bool)
    requires StartsOnce(s) && NoEarlyExit(s)
    ensures NoEarlyExit(CallTeardown(s, caller, kind, allow))
  {
    var t := CallTeardown(s, caller, kind, allow);
    forall c | c in t.callers ensures CallerOnTrack(t, t.callers[c]) {
      assert c != caller ==> CallerOnTrack(s, s.callers[c]);
    }
  }

  lemma AdvanceOnTrack(s: State, body: nat)
    requires StartsOnce(s) && NoEarlyExit(s) && body in s.bodies
    ensures NoEarlyExit(Advance(s, body))
  {
    var t := Advance(s, body);
    assert BodyOnTrack(s, s.bodies[body]);
    forall b | b in t.bodies ensures b < t.started && BodyOnTrack(t, t.bodies[b]) {
      assert BodyOnTrack(s, s.bodies[b]);
    }
    forall c | c in t.callers ensures CallerOnTrack(t, t.callers[c]) {
      assert CallerOnTrack(s, s.callers[c]);
    }
  }

  lemma CalmStep(s: State, a: Action)
    requires StartsOnce(s) && NoEarlyExit(s) && Enabled(s, a) && Calm(a)
    ensures NoEarlyExit(Step(s, a))
  {
    match a
    case ConfirmedQuit(c) => QuitOnTrack(s, c);
    case BeforeQuit(c) => QuitOnTrack(s, c);
    case RelaunchRequest(c) => CallOnTrack(Prepare(s), c, Relaunch, false);
    case HardStop(c) => CallOnTrack(StartHardStop(s), c, Signal, false);
    case StartupFails(c) => CallOnTrack(s, c, StartupFailure, false);
    case UpdateProceeds(c) => CallOnTrack(s, c, UpdateInstall, true);
    case BodyAdvances(body) => AdvanceOnTrack(s, body);
    case CallerResumes(c) => ResumeOnTrack(s, c);
    case CallerExits(c) => assert CallerOnTrack(s, s.callers[c]);
  }

  lemma QuitOnTrack(s: State, c: nat)
    requires StartsOnce(s) && NoEarlyExit(s)
    ensures NoEarlyExit(PerformQuit(s, c))
  {
    CallOnTrack(Prepare(StartQuit(s)), c, Quit, false);
  }

  lemma ResumeOnTrack(s: State, c: nat)
    requires NoEarlyExit(s) && Enabled(s, CallerResumes(c))
    ensures NoEarlyExit(Step(s, CallerResumes(c)))
  {
    assert CallerOnTrack(s, s.callers[c]);
    var t := Step(s, CallerResumes(c));
    forall d | d in t.callers ensures CallerOnTrack(t, t.callers[d]) {
      assert CallerOnTrack(s, s.callers[d]);
    }
  }

  lemma {:induction false} CalmRun(actions: seq<Action>)
    requires forall a :: a in actions ==> Calm(a)
    ensures Run(actions).Some? ==> NoEarlyExit(Run(actions).value)
  {
    if actions != [] {
      var n := |actions| - 1;
      CalmRun(actions[..n]);
      if Run(actions).Some? {
        BodyStartsAtMostOnce(actions[..n]);
        CalmStep(Run(actions[..n]).value, actions[n]);
      }
    }
  }

  /**
   If no update is being installed and no step throws, whichever path exits, the server, the Pi runtime,
   the notification listener and the SSH sessions have been stopped before, by one teardown body.
   */
  lemma ExitAfterTeardown(actions: seq<Action>)
    requires forall a :: a in actions ==> Calm(a)
    requires Run(actions).Some? && Run(actions).value.exited
    ensures AllStopped(Run(actions).value) && Run(actions).value.started == 1
  {
    CalmRun(actions);
  }

  // ---------------------------------------------------------------- what the steps are for

  /** A confirmed quit, even one during an update, starts the teardown if none has been started. */
  lemma QuitTearsDown(s: State, c: nat)
    requires StartsOnce(s) && s.started == 0 && !s.complete && s.promise.None? && !s.flags.quitInProgress
    ensures
      var t := PerformQuit(s, c);
      && t.started == 1 && 0 in t.bodies && t.bodies[0] == StoppingServer
      && !t.flags.installingUpdate && t.flags.quitConfirmed && t.flags.quitInProgress
      && c in t.callers && t.callers[c] == Awaiting(Quit, 0)
  {}

  /** An update's own call tears down although the update flag is set. */
  lemma UpdateTearsDown(s: State, c: nat)
    requires s.started == 0 && !s.complete && s.promise.None? && c !in s.callers
    ensures
      var t := Step(Step(s, UpdateRequest), UpdateProceeds(c));
      t.flags.installingUpdate && 0 in t.bodies && t.bodies[0] == StoppingServer && !t.complete
  {}

  /** Once the teardown is over, a confirmed quit exits; while it is not, or the quit is not confirmed, it does not. */
  lemma ConfirmedExit(s: State, c: nat)
    requires c !in s.callers && !s.flags.installingUpdate && !s.exited
    ensures Step(s, BeforeQuit(c)).exited <==> s.flags.quitConfirmed && s.complete
  {}

  /** A signal during an update waits for nothing and stops nothing. */
  lemma SignalDuringUpdate(s: State, c: nat)
    requires s.flags.installingUpdate && !s.flags.hardStop && !s.complete && s.promise.None? && c !in s.callers
    ensures
      var t := Step(s, HardStop(c));
      t.complete && t.bodies == s.bodies && t.stopped == s.stopped
  {}

  /** A second quit, or a second signal, changes nothing. */
  lemma AgainNothing(s: State, c: nat, d: nat)
    requires c !in s.callers && d !in s.callers && c != d
    ensures PerformQuit(PerformQuit(s, c), d) == PerformQuit(s, c)
    ensures Enabled(Step(s, HardStop(c)), HardStop(d)) && Step(Step(s, HardStop(c)), HardStop(d)) == Step(s, HardStop(c))
  {}

  /** A body that throws lets only signal handlers and a failed startup go on to exit. */
  lemma OnlySomeExit(s: State, c: nat, body: nat)
    requires c in s.callers && s.callers[c].Awaiting? && s.callers[c].body == body && body in s.threw && body !in s.bodies
    ensures Enabled(s, CallerResumes(c)) <==> s.callers[c].kind == Signal || s.callers[c].kind == StartupFailure
  {}

  /** The body stops the server, then the Pi runtime and the listener, then the SSH sessions, and is over. */
  lemma BodyCompletes(s: State, body: nat)
    requires body in s.bodies && s.bodies[body] == StoppingServer
    ensures
      var a := Advance(s, body);
      && body in a.bodies && a.stopped == s.stopped.(server := true) && !(!s.complete && a.complete)
      && var b := Advance(a, body);
      && body in b.bodies && b.stopped == s.stopped.(server := true, pi := true, listener := true) && !(!s.complete && b.complete)
      && var c := Advance(b, body);
      && body !in c.bodies && c.stopped == Stopped(true, true, true, true) && c.complete && c.promise.None?
  {}

  // ---------------------------------------------------------------- exactly when

  /** The run is possible, uses only admitted actions, and ends in an exit with something still running. */
  ghost predicate EarlyExit(actions: seq<Action>, kinds: set<Suspect>) {
    && (forall a :: a in actions ==> Admitted(a, kinds))
    && Run(actions).Some? && Run(actions).value.exited && !AllStopped(Run(actions).value)
  }

  lemma RunOne(actions: seq<Action>, a: Action)
    requires Run(actions).Some? && Enabled(Run(actions).value, a)
    ensures Run(actions + [a]) == Some(Step(Run(actions).value, a))
  {
    assert (actions + [a])[..|actions|] == actions;
  }

  lemma RunTwo(a: Action, b: Action)
    requires Enabled(INITIAL, a) && Enabled(Step(INITIAL, a), b)
    ensures Run([a, b]) == Some(Step(Step(INITIAL, a), b))
  {
    RunOne([], a);
    RunOne([a], b);
    assert [] + [a] == [a] && [a] + [b] == [a, b];
  }

  /** During an update installation the application may exit with nothing stopped. */
  lemma UpdateExitsAtOnce()
    ensures EarlyExit([UpdateRequest, BeforeQuit(0)], {RequestsUpdate})
    ensures Run([UpdateRequest, BeforeQuit(0)]).value.stopped == INITIAL.stopped
  {
    RunTwo(UpdateRequest, BeforeQuit(0));
  }

  /** So it may once a quit has been prepared for an update. */
  lemma PreparedExitsAtOnce()
    ensures EarlyExit([PrepareForUpdate, BeforeQuit(0)], {PreparesForUpdate})
    ensures Run([PrepareForUpdate, BeforeQuit(0)]).value.stopped == INITIAL.stopped
  {
    RunTwo(PrepareForUpdate, BeforeQuit(0));
  }

  lemma RunFour(a: Action, b: Action, c: Action, d: Action, s: State, t: State)
    requires Enabled(INITIAL, a) && Enabled(Step(INITIAL, a), b) && s == Step(Step(INITIAL, a), b)
    requires Enabled(s, c) && Enabled(Step(s, c), d) && t == Step(Step(s, c), d)
    ensures Run([a, b, c, d]) == Some(t)
  {
    RunTwo(a, b);
    RunOne([a, b], c);
    RunOne([a, b] + [c], d);
    assert [a, b] + [c] + [d] == [a, b, c, d];
  }

  /** A throwing teardown step lets a signal handler exit with the rest still running. */
  lemma ThrowingExitsEarly()
    ensures EarlyExit([HardStop(0), BodyThrows(0), CallerResumes(0), CallerExits(0)], {Throws})
    ensures Run([HardStop(0), BodyThrows(0), CallerResumes(0), CallerExits(0)]).value.stopped == INITIAL.stopped
  {
    var s := Step(Step(INITIAL, HardStop(0)), BodyThrows(0));
    RunFour(HardStop(0), BodyThrows(0), CallerResumes(0), CallerExits(0), s, Step(Step(s, CallerResumes(0)), CallerExits(0)));
  }

  lemma MoreAdmitted(actions: seq<Action>, kinds: set<Suspect>, more: set<Suspect>)
    requires EarlyExit(actions, kinds) && kinds <= more
    ensures EarlyExit(actions, more)
  {}

  /**
   Of the suspect kinds, exactly three make an early exit possible: with any set of them admitted beside
   all other actions, every run that exits has stopped everything first if and only if none of those
   three is in the set. The update's own call of the teardown is harmless.
   */
  lemma SafeExactly(kinds: set<Suspect>)
    ensures (forall actions :: !EarlyExit(actions, kinds)) <==> kinds !! HARMFUL
  {
    if kinds !! HARMFUL {
      forall actions ensures !EarlyExit(actions, kinds) {
        if EarlyExit(actions, kinds) {
          assert forall a :: a in actions ==> Calm(a);
          ExitAfterTeardown(actions);
        }
      }
    } else if RequestsUpdate in kinds {
      UpdateExitsAtOnce();
      MoreAdmitted([UpdateRequest, BeforeQuit(0)], {RequestsUpdate}, kinds);
    } else if PreparesForUpdate in kinds {
      PreparedExitsAtOnce();
      MoreAdmitted([PrepareForUpdate, BeforeQuit(0)], {PreparesForUpdate}, kinds);
    } else {
      ThrowingExitsEarly();
      MoreAdmitted([HardStop(0), BodyThrows(0), CallerResumes(0), CallerExits(0)], {Throws}, kinds);
    }
  }
}
