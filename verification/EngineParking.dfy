/** Parking the engine thread: a controller asks through one flag, the engine
    answers through another. The two threads and the clock take atomic steps in any
    order; each read or write of a shared flag is one step. */
module EngineParking {
  import opened Ticks

  const TIME_TO_ACKNOWLEDGE := 20000

  /** How the controller's last call ended. */
  datatype Outcome = NothingAsked | Parked | PutTimedOut | Resumed | ResumeTimedOut

  /** Where the controller is. While it waits it remembers when it began to. */
  datatype Controller =
    | AtRest(last: Outcome)
    | PutBegun | PutPoll(since: nat) | PutNap(since: nat)
    | ResumeBegun | ResumePoll(since: nat) | ResumeNap(since: nat)

  /** Where the engine is in its frame function. `waited` says whether this call has
      gone through the wait loop; outside, `result` is what the last call returned. */
  datatype Engine =
    | Outside(result: bool, waited: bool)
    | LoopTest(waited: bool)
    | SetFlag(waited: bool)
    | Nap
    | ExitTest(waited: bool)
    | LeaveParked(waited: bool)
    | LeavePlain(waited: bool)

  datatype State = State(
    shouldSleep: bool, isSleeping: bool, controller: Controller, engine: Engine, now: nat)

  datatype Action = CallPut(installed: bool) | CallResume | ControllerStep | EngineStep | Tick(ms: nat)

  const Initial := State(false, false, AtRest(NothingAsked), Outside(true, false), 0)

  // ----- The steps

  predicate TimesOut(s: State, a: Action) {
    a.ControllerStep? &&
    match s.controller
    case PutNap(since) => Elapsed(TickCount(s.now), TickCount(since)) > TIME_TO_ACKNOWLEDGE
    case ResumeNap(since) => Elapsed(TickCount(s.now), TickCount(since)) > TIME_TO_ACKNOWLEDGE
    case _ => false
  }

  function StepController(s: State): State {
    match s.controller
    case AtRest(_) => s
    case PutBegun => s.(controller := PutPoll(s.now))
    case PutPoll(since) => s.(controller := if s.isSleeping then AtRest(Parked) else PutNap(since))
    case PutNap(since) =>
      s.(controller := if TimesOut(s, ControllerStep) then AtRest(PutTimedOut) else PutPoll(since))
    case ResumeBegun => s.(controller := ResumePoll(s.now))
    case ResumePoll(since) => s.(controller := if s.isSleeping then ResumeNap(since) else AtRest(Resumed))
    case ResumeNap(since) =>
      s.(controller := if TimesOut(s, ControllerStep) then AtRest(ResumeTimedOut) else ResumePoll(since))
  }

  function StepEngine(s: State): State {
    match s.engine
    case Outside(_, _) => s.(engine := LoopTest(false))
    case LoopTest(waited) => s.(engine := if s.shouldSleep then SetFlag(waited) else ExitTest(waited))
    case SetFlag(_) => s.(isSleeping := true, engine := Nap)
    case Nap => s.(engine := LoopTest(true))
    case ExitTest(waited) => s.(engine := if s.isSleeping then LeaveParked(waited) else LeavePlain(waited))
    case LeaveParked(waited) => s.(isSleeping := false, engine := Outside(false, waited))
    case LeavePlain(waited) => s.(isSleeping := false, engine := Outside(true, waited))
  }

  /** A call begins only when the controller is at rest. Asking to park does nothing
      when the frame detour is not installed. */
  function Step(s: State, a: Action): State {
    match a
    case CallPut(installed) =>
      if s.controller.AtRest? && installed then s.(shouldSleep := true, controller := PutBegun) else s
    case CallResume =>
      if s.controller.AtRest? then s.(shouldSleep := false, controller := ResumeBegun) else s
    case ControllerStep => StepController(s)
    case EngineStep => StepEngine(s)
    case Tick(ms) => s.(now := s.now + ms)
  }

  function Run(s: State, run: seq<Action>): State
    decreases |run|
  {
    if run == [] then s else Run(Step(s, run[0]), run[1..])
  }

  predicate TimeoutFree(s: State, run: seq<Action>)
    decreases |run|
  {
    run == [] || (!TimesOut(s, run[0]) && TimeoutFree(Step(s, run[0]), run[1..]))
  }

  // ----- What every run keeps

  /** The call in progress has gone through the wait loop. */
  predicate Waited(e: Engine) {
    match e
    case Outside(_, _) => false
    case Nap => true
    case _ => e.waited
  }

  ghost predicate FrameInvariant(s: State) {
    && s.isSleeping == Waited(s.engine)
    && (s.engine.LeaveParked? ==> s.engine.waited)
    && (s.engine.LeavePlain? ==> !s.engine.waited)
    && (s.engine.Outside? ==> s.engine.result == !s.engine.waited)
    && match s.controller
       case PutPoll(since) => since <= s.now
       case PutNap(since) => since <= s.now
       case ResumePoll(since) => since <= s.now
       case ResumeNap(since) => since <= s.now
       case _ => true
  }

  lemma {:induction false} FrameInvariantKept(s: State, run: seq<Action>)
    requires FrameInvariant(s)
    ensures FrameInvariant(Run(s, run))
    decreases |run|
  {
    if run != [] { FrameInvariantKept(Step(s, run[0]), run[1..]); }
  }

  /** In every run, timed out or not, a frame returns false exactly when that call waited. */
  lemma FrameResult(run: seq<Action>)
    ensures var e := Run(Initial, run).engine; e.Outside? ==> (e.result <==> !e.waited)
  {
    FrameInvariantKept(Initial, run);
  }

  /** When the last call that was taken up began. */
  function CalledAt(s: State, at: nat, run: seq<Action>): nat
    decreases |run|
  {
    if run == [] then at
    else
      var begins := s.controller.AtRest? && (run[0] == CallPut(true) || run[0] == CallResume);
      CalledAt(Step(s, run[0]), if begins then s.now else at, run[1..])
  }

  /** A wait has not begun before its call. */
  predicate WaitsSince(s: State, at: nat) {
    match s.controller
    case AtRest(_) => true
    case PutBegun => at <= s.now
    case ResumeBegun => at <= s.now
    case _ => at <= s.controller.since <= s.now
  }

  lemma {:induction false} WaitBeginsAfterCall(s: State, at: nat, run: seq<Action>)
    requires WaitsSince(s, at)
    ensures WaitsSince(Run(s, run), CalledAt(s, at, run))
    decreases |run|
  {
    if run != [] {
      var begins := s.controller.AtRest? && (run[0] == CallPut(true) || run[0] == CallResume);
      WaitBeginsAfterCall(Step(s, run[0]), if begins then s.now else at, run[1..]);
    }
  }

  /** A wait that has napped times out exactly if it has lasted longer than 20 seconds, modulo
      the range of the tick counter; so its call is longer ago than that. */
  lemma TimeoutsAreLate(run: seq<Action>)
    requires Run(Initial, run).controller.PutNap? || Run(Initial, run).controller.ResumeNap?
    ensures var s := Run(Initial, run);
      && s.controller.since <= s.now
      && (TimesOut(s, ControllerStep) <==> (s.now - s.controller.since) % 0x1_0000_0000 > 20000)
      && (TimesOut(s, ControllerStep) ==> s.now - CalledAt(Initial, 0, run) > 20000)
  {
    var s := Run(Initial, run);
    WaitBeginsAfterCall(Initial, 0, run);
    ElapsedTime(s.now, s.controller.since);
  }

  /** Asking to park without the frame detour is as if nobody had asked. */
  lemma PutWithoutDetour(s: State, run: seq<Action>)
    ensures Run(s, [CallPut(false)] + run) == Run(s, run)
  {
    RunFirst(s, CallPut(false), run);
  }

  // ----- Parking safety

  /** The engine is inside the wait loop and will find the request still set. */
  predicate Held(s: State) {
    s.shouldSleep && s.isSleeping && (s.engine.LoopTest? || s.engine.SetFlag? || s.engine.Nap?)
  }

  /** The controller takes the engine to be parked, and it is not. */
  predicate BadPark(s: State) {
    s.controller == AtRest(Parked) && !Held(s)
  }

  /** From here the acknowledgements can be trusted: with the request set the engine is
      held or has not acknowledged; with the request clear it is not on its way to
      acknowledge an old request, and once the controller rests it has let go. */
  ghost predicate Trusted(s: State) {
    && FrameInvariant(s)
    && (s.controller == AtRest(Parked) || s.controller == AtRest(PutTimedOut) ==> s.shouldSleep)
    && match s.controller
       case AtRest(_) =>
         if s.shouldSleep then Held(s) else !s.isSleeping && !s.engine.SetFlag?
       case PutBegun => s.shouldSleep && (s.isSleeping ==> Held(s))
       case PutPoll(_) => s.shouldSleep && (s.isSleeping ==> Held(s))
       case PutNap(_) => s.shouldSleep && (s.isSleeping ==> Held(s))
       case _ => !s.shouldSleep && (s.engine.SetFlag? ==> s.engine.waited)
  }

  lemma TrustedStep(s: State, a: Action)
    requires Trusted(s) && !TimesOut(s, a)
    ensures Trusted(Step(s, a))
  {}

  lemma {:induction false} TrustedKept(s: State, run: seq<Action>)
    requires Trusted(s) && TimeoutFree(s, run)
    ensures Trusted(Run(s, run))
    decreases |run|
  {
    if run != [] {
      TrustedStep(s, run[0]);
      TrustedKept(Step(s, run[0]), run[1..]);
    }
  }

  /** In every interleaving in which no wait has timed out, while the controller takes
      the engine to be parked it is inside the wait loop, and when a resume was
      acknowledged it has let go. */
  lemma ParkingIsSafe(run: seq<Action>)
    requires TimeoutFree(Initial, run)
    ensures var s := Run(Initial, run);
            && (s.controller == AtRest(Parked) ==> Held(s))
            && (s.controller == AtRest(Resumed) ==> !s.isSleeping && !s.shouldSleep && !s.engine.SetFlag?)
  {
    TrustedKept(Initial, run);
    RequestAgreesKept(Initial, run);
  }

  /** The request is set from a put on, and clear from a resume on. */
  predicate RequestAgrees(s: State) {
    match s.controller
    case AtRest(last) =>
      (last == Parked || last == PutTimedOut ==> s.shouldSleep)
      && (last == Resumed || last == ResumeTimedOut ==> !s.shouldSleep)
    case PutBegun => s.shouldSleep
    case PutPoll(_) => s.shouldSleep
    case PutNap(_) => s.shouldSleep
    case _ => !s.shouldSleep
  }

  lemma {:induction false} RequestAgreesKept(s: State, run: seq<Action>)
    requires RequestAgrees(s)
    ensures RequestAgrees(Run(s, run))
    decreases |run|
  {
    if run != [] { RequestAgreesKept(Step(s, run[0]), run[1..]); }
  }

  // ----- Safety is lost exactly when trust is

  lemma {:induction false} RunFirst(s: State, a: Action, run: seq<Action>)
    ensures Run(s, [a] + run) == Run(Step(s, a), run)
    ensures TimeoutFree(s, [a] + run) <==> !TimesOut(s, a) && TimeoutFree(Step(s, a), run)
  {
    assert ([a] + run)[1..] == run;
  }

  /** How far the engine is from leaving a loop whose request is clear. */
  function StepsToLeave(e: Engine): nat {
    match e
    case Outside(_, _) => 0
    case LeaveParked(_) => 1
    case LeavePlain(_) => 1
    case ExitTest(_) => 2
    case LoopTest(_) => 3
    case Nap => 4
    case SetFlag(_) => 5
  }

  /** Asking now reads an acknowledgement the engine is about to take back. */
  lemma PutSeesStaleFlag(s: State) returns (run: seq<Action>)
    requires FrameInvariant(s) && s.controller.AtRest? && s.isSleeping
    requires s.engine.ExitTest? || s.engine.LeaveParked?
    ensures TimeoutFree(s, run) && BadPark(Run(s, run))
  {
    var s1 := Step(s, CallPut(true));
    var s2 := Step(s1, ControllerStep);
    run := [ControllerStep];
    RunFirst(s2, ControllerStep, []);
    RunFirst(s1, ControllerStep, run);
    RunFirst(s, CallPut(true), [ControllerStep] + run);
    run := [CallPut(true)] + ([ControllerStep] + run);
    assert [ControllerStep] + [] == [ControllerStep];
  }

  /** With the request clear, an engine that acknowledged it or is about to. */
  lemma LateAcknowledgement(s: State) returns (run: seq<Action>)
    requires FrameInvariant(s) && s.controller.AtRest? && !s.shouldSleep
    requires s.isSleeping || s.engine.SetFlag?
    ensures TimeoutFree(s, run) && BadPark(Run(s, run))
    decreases StepsToLeave(s.engine)
  {
    if s.engine.ExitTest? || s.engine.LeaveParked? {
      run := PutSeesStaleFlag(s);
    } else {
      var rest := LateAcknowledgement(Step(s, EngineStep));
      RunFirst(s, EngineStep, rest);
      run := [EngineStep] + rest;
    }
  }

  function StepsToSetFlag(e: Engine): nat {
    match e
    case SetFlag(_) => 0
    case LoopTest(_) => 1
    case Outside(_, _) => 2
    case LeavePlain(_) => 3
    case LeaveParked(_) => 3
    case ExitTest(_) => 4
    case Nap => 5
  }

  /** With the request set but the engine not yet in the loop: it gets as far as having
      read the request, the controller resumes at once, and the engine acknowledges late. */
  lemma AbandonedRequest(s: State) returns (run: seq<Action>)
    requires FrameInvariant(s) && s.controller.AtRest? && s.shouldSleep && !s.isSleeping
    ensures TimeoutFree(s, run) && BadPark(Run(s, run))
    decreases StepsToSetFlag(s.engine)
  {
    if s.engine.SetFlag? {
      var s1 := Step(s, CallResume);
      var s2 := Step(s1, ControllerStep);
      var rest := LateAcknowledgement(Step(s2, ControllerStep));
      RunFirst(s2, ControllerStep, rest);
      RunFirst(s1, ControllerStep, [ControllerStep] + rest);
      RunFirst(s, CallResume, [ControllerStep] + ([ControllerStep] + rest));
      run := [CallResume] + ([ControllerStep] + ([ControllerStep] + rest));
    } else {
      var rest := AbandonedRequest(Step(s, EngineStep));
      RunFirst(s, EngineStep, rest);
      run := [EngineStep] + rest;
    }
  }

  /** A continuation in which no wait times out does not end in a bad park. */
  predicate EndsWell(s: State, run: seq<Action>) {
    TimeoutFree(s, run) ==> !BadPark(Run(s, run))
  }

  /** The engine is held (request set), or has let go and is not about to acknowledge
      (request clear). */
  predicate Settled(s: State) {
    if s.shouldSleep then Held(s) else !s.isSleeping && !s.engine.SetFlag?
  }

  lemma SafeFromExactlyWhen(s: State)
    requires FrameInvariant(s) && s.controller.AtRest?
    requires RequestAgrees(s)
    ensures (forall run :: EndsWell(s, run)) <==> Settled(s)
  {
    if Settled(s) {
      forall run
        ensures EndsWell(s, run)
      {
        if TimeoutFree(s, run) { TrustedKept(s, run); }
      }
    } else {
      var run;
      if !s.shouldSleep {
        run := LateAcknowledgement(s);
      } else if s.isSleeping {
        run := PutSeesStaleFlag(s);
      } else {
        run := AbandonedRequest(s);
      }
      assert !EndsWell(s, run);
    }
  }

  /** Whenever a run has come to rest, whatever happened in it: no continuation without a
      further timeout parks badly exactly when the run has settled. */
  lemma SafeExactlyWhenTrusted(run: seq<Action>)
    requires Run(Initial, run).controller.AtRest?
    ensures (forall more :: EndsWell(Run(Initial, run), more)) <==> Settled(Run(Initial, run))
  {
    FrameInvariantKept(Initial, run);
    RequestAgreesKept(Initial, run);
    SafeFromExactlyWhen(Run(Initial, run));
  }

  /** A call, three steps of its wait and 20 seconds without a step of the engine. */
  function TimedOutWait(call: Action): seq<Action> {
    [call, ControllerStep, ControllerStep, Tick(TIME_TO_ACKNOWLEDGE + 1), ControllerStep]
  }

  lemma RunWait(s: State, call: Action, rest: seq<Action>)
    ensures Run(s, TimedOutWait(call) + rest)
         == Run(StepController(Step(StepController(StepController(Step(s, call))), Tick(TIME_TO_ACKNOWLEDGE + 1))), rest)
  {
    var run := TimedOutWait(call) + rest;
    var s1 := Step(s, call);
    var s2 := StepController(s1);
    var s3 := StepController(s2);
    assert run[1..] == [ControllerStep, ControllerStep, Tick(TIME_TO_ACKNOWLEDGE + 1), ControllerStep] + rest;
    assert run[1..][1..] == [ControllerStep, Tick(TIME_TO_ACKNOWLEDGE + 1), ControllerStep] + rest;
    assert run[1..][1..][1..] == [Tick(TIME_TO_ACKNOWLEDGE + 1), ControllerStep] + rest;
    assert run[1..][1..][1..][1..] == [ControllerStep] + rest;
    RunFirst(Step(s3, Tick(TIME_TO_ACKNOWLEDGE + 1)), ControllerStep, rest);
    assert Run(s1, run[1..]) == Run(s2, run[1..][1..]);
    assert Run(s3, run[1..][1..][1..]) == Run(Step(s3, Tick(TIME_TO_ACKNOWLEDGE + 1)), run[1..][1..][1..][1..]);
  }

  lemma TimeoutBreaksFrom(s: State) returns (run: seq<Action>)
    requires FrameInvariant(s) && RequestAgrees(s) && s.controller.AtRest?
    ensures BadPark(Run(s, run))
  {
    ElapsedTime(s.now + TIME_TO_ACKNOWLEDGE + 1, s.now);
    if s.shouldSleep && !s.isSleeping {
      run := AbandonedRequest(s);
    } else {
      var call := if s.shouldSleep then CallResume else CallPut(true);
      if !s.shouldSleep && s.isSleeping {
        run := LateAcknowledgement(s);
      } else {
        var t := StepController(Step(StepController(StepController(Step(s, call))), Tick(TIME_TO_ACKNOWLEDGE + 1)));
        var rest: seq<Action>;
        if s.shouldSleep { rest := LateAcknowledgement(t); } else { rest := AbandonedRequest(t); }
        RunWait(s, call, rest);
        run := TimedOutWait(call) + rest;
      }
    }
  }

  /** Without the restriction on timeouts nothing is safe: every run that has come to rest
      has a continuation that ends in a bad park. It takes an engine that is late, not gone. */
  lemma TimeoutBreaksParking(run: seq<Action>) returns (more: seq<Action>)
    requires Run(Initial, run).controller.AtRest?
    ensures BadPark(Run(Run(Initial, run), more))
  {
    FrameInvariantKept(Initial, run);
    RequestAgreesKept(Initial, run);
    more := TimeoutBreaksFrom(Run(Initial, run));
  }

  // ----- Parking and resuming

  lemma {:induction false} RunAppend(s: State, a: seq<Action>, b: seq<Action>)
    ensures Run(s, a + b) == Run(Run(s, a), b)
    ensures TimeoutFree(s, a + b) <==> TimeoutFree(s, a) && TimeoutFree(Run(s, a), b)
    decreases |a|
  {
    if a == [] {
      assert a + b == b;
    } else {
      assert (a + b)[1..] == a[1..] + b;
      RunAppend(Step(s, a[0]), a[1..], b);
    }
  }

  /** Asked to park, the engine comes to its wait loop and acknowledges. */
  lemma EngineAcknowledges(s: State) returns (run: seq<Action>)
    requires s.shouldSleep && !s.isSleeping && FrameInvariant(s)
    ensures TimeoutFree(s, run)
    ensures Run(s, run) == s.(isSleeping := true, engine := Nap)
    decreases StepsToSetFlag(s.engine)
  {
    if s.engine.SetFlag? {
      run := [EngineStep];
      RunFirst(s, EngineStep, []);
      assert [EngineStep] + [] == [EngineStep];
    } else {
      var rest := EngineAcknowledges(Step(s, EngineStep));
      RunFirst(s, EngineStep, rest);
      run := [EngineStep] + rest;
    }
  }

  lemma RunTwo(s: State, a: Action, b: Action)
    ensures Run(s, [a, b]) == Step(Step(s, a), b)
    ensures TimeoutFree(s, [a, b]) <==> !TimesOut(s, a) && !TimesOut(Step(s, a), b)
  {
    RunFirst(Step(s, a), b, []);
    RunFirst(s, a, [b]);
    assert [b] + [] == [b] && [a] + [b] == [a, b];
  }

  /** From every run that has come to rest with the engine let go, a put parks the engine. */
  lemma PutParks(run: seq<Action>) returns (more: seq<Action>)
    requires Run(Initial, run).controller.AtRest? && !Run(Initial, run).shouldSleep && Settled(Run(Initial, run))
    ensures TimeoutFree(Run(Initial, run), more)
    ensures var s := Run(Run(Initial, run), more); s.controller == AtRest(Parked) && Held(s) && s.engine.Nap?
  {
    var s := Run(Initial, run);
    FrameInvariantKept(Initial, run);
    var s1 := Step(s, CallPut(true));
    var frames := EngineAcknowledges(s1);
    RunFirst(s, CallPut(true), frames);
    RunTwo(Run(s1, frames), ControllerStep, ControllerStep);
    RunAppend(s, [CallPut(true)] + frames, [ControllerStep, ControllerStep]);
    more := [CallPut(true)] + frames + [ControllerStep, ControllerStep];
  }

  /** A parked engine whose nap is over leaves when it is resumed, and the resume ends. */
  lemma ResumeReleases(s: State)
    requires s.controller == AtRest(Parked) && Held(s) && s.engine.Nap?
    ensures var t := Run(s, [CallResume, EngineStep, EngineStep, EngineStep, EngineStep, ControllerStep, ControllerStep]);
      t.controller == AtRest(Resumed) && t.engine == Outside(false, true) && !t.isSleeping && !t.shouldSleep
  {
    var t := Step(s, CallResume);
    var u := Step(Step(Step(Step(t, EngineStep), EngineStep), EngineStep), EngineStep);
    RunTwo(t, EngineStep, EngineStep);
    RunTwo(Step(Step(t, EngineStep), EngineStep), EngineStep, EngineStep);
    RunAppend(t, [EngineStep, EngineStep], [EngineStep, EngineStep]);
    RunTwo(u, ControllerStep, ControllerStep);
    RunAppend(t, [EngineStep, EngineStep] + [EngineStep, EngineStep], [ControllerStep, ControllerStep]);
    var rest := [EngineStep, EngineStep] + [EngineStep, EngineStep] + [ControllerStep, ControllerStep];
    RunFirst(s, CallResume, rest);
    assert [CallResume] + rest
        == [CallResume, EngineStep, EngineStep, EngineStep, EngineStep, ControllerStep, ControllerStep];
  }

  // ----- Leaving

  function EngineSteps(run: seq<Action>): nat {
    if run == [] then 0 else (if run[0].EngineStep? then 1 else 0) + EngineSteps(run[1..])
  }

  /** Once the request is clear, an engine in its frame function leaves and has its flag
      cleared after at most five steps of its own, whatever is interleaved with them as
      long as nobody asks again. If it was parked, the frame returns false. */
  lemma {:induction false} EngineLeaves(s: State, run: seq<Action>) returns (n: nat)
    requires FrameInvariant(s) && !s.shouldSleep
    requires forall i :: 0 <= i < |run| ==> !run[i].CallPut?
    requires EngineSteps(run) >= StepsToLeave(s.engine)
    ensures n <= |run| && StepsToLeave(s.engine) <= 5
    ensures var t := Run(s, run[..n]); t.engine.Outside? && !t.isSleeping && !t.shouldSleep
    ensures s.engine.Outside? ==> n == 0
    ensures s.isSleeping ==> !Run(s, run[..n]).engine.result
    decreases |run|
  {
    if s.engine.Outside? {
      n := 0;
    } else {
      var t := Step(s, run[0]);
      assert forall i :: 0 <= i < |run[1..]| ==> run[1..][i] == run[i + 1];
      var m := EngineLeaves(t, run[1..]);
      n := m + 1;
      assert run[..n] == [run[0]] + run[1..][..m];
      RunFirst(s, run[0], run[1..][..m]);
    }
  }
}
