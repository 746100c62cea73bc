/**
  Which callback a worker ends with: a finished response or a closed connection is
  reported as such, a failure as a failure, and a run that goes well with its response.
*/
module WorkerOutcome {
  import opened Worker
  import opened WorkerEnd

  // ----- The end of the thread -----

  /** The callback that a command of the callback switch stands for. */
  function Verdict(s: State): Callback {
    if s.command == InformResponse then OnResponse(s.hasFinishedResponse, s.peerClosed) else OnError(s.error)
  }

  /** Between the callback and the end of the thread. */
  predicate IsLeaving(s: State) {
    s.command == End && (s.pc == Sleeping || s.pc == LoopTest || s.pc == Exiting || s.pc == Done)
  }

  /** Steps until the thread is done. */
  function StepsToLeave(pc: Pc): nat {
    if pc == Sleeping then 3 else if pc == LoopTest then 2 else if pc == Exiting then 1 else 0
  }

  lemma LeavingLeads(s: State, env: Env)
    requires IsLeaving(s) && s.pc != Done
    ensures var t := Work(s, env);
            IsLeaving(t) && t.callbacks == s.callbacks && StepsToLeave(t.pc) == StepsToLeave(s.pc) - 1
  {
    hide ResolveStep, ConnectStep, ConnectedStep, SendStep, WaitStep, CallStep;
  }

  lemma {:induction false} LeavingEnds(s: State, envs: seq<Env>)
    requires IsLeaving(s) && |envs| >= StepsToLeave(s.pc)
    ensures var r := Worked(s, envs); r.pc == Done && r.callbacks == s.callbacks
    decreases |envs|
  {
    hide Work;
    if s.pc != Done {
      LeavingLeads(s, envs[0]);
      LeavingEnds(Work(s, envs[0]), envs[1..]);
    }
  }

  lemma InformingIs(s: State, env: Env)
    requires s.pc == Informing && (s.command == InformResponse || s.command == InformError)
    ensures Work(s, env)
         == s.(now := s.now + env.elapsed, pc := if s.command == InformResponse then EndingResponse else EndingError)
  {
    hide ResolveStep, ConnectStep, ConnectedStep, SendStep, WaitStep, LoopStep;
  }

  lemma EndingIs(s: State, env: Env)
    requires s.pc == EndingResponse || s.pc == EndingError
    ensures Work(s, env)
         == s.(now := s.now + env.elapsed, command := End,
               pc := if s.pc == EndingResponse then CallingResponse else CallingError)
  {
    hide ResolveStep, ConnectStep, ConnectedStep, SendStep, WaitStep, LoopStep;
  }

  lemma CallingIs(s: State, env: Env)
    requires s.pc == CallingResponse || s.pc == CallingError
    ensures var response := OnResponse(s.hasFinishedResponse, s.peerClosed);
            var c := if s.pc == CallingResponse then response else OnError(s.error);
            Work(s, env) == s.(now := s.now + env.elapsed, callbacks := s.callbacks + [c], pc := Sleeping)
  {
    hide ResolveStep, ConnectStep, ConnectedStep, SendStep, WaitStep, LoopStep;
  }

  lemma WorkedStep(s: State, envs: seq<Env>)
    requires envs != [] && s.pc != Done
    ensures Worked(s, envs) == Worked(Work(s, envs[0]), envs[1..])
  {
    hide Work;
  }

  lemma ThreeSteps(s: State, s1: State, s2: State, s3: State, envs: seq<Env>)
    requires |envs| >= 3 && s.pc != Done && s1.pc != Done && s2.pc != Done
    requires s1 == Work(s, envs[0]) && s2 == Work(s1, envs[1]) && s3 == Work(s2, envs[2])
    ensures Worked(s, envs) == Worked(s3, envs[3..])
  {
    hide Work;
    var envs1, envs2 := envs[1..], envs[2..];
    assert envs1[0] == envs[1] && envs1[1..] == envs2 && envs2[0] == envs[2] && envs2[1..] == envs[3..];
    WorkedStep(s, envs);
    WorkedStep(s1, envs1);
    WorkedStep(s2, envs2);
  }

  /** The three steps from the callback switch to the end of the callback. */
  lemma CallIs(s: State, envs: seq<Env>)
    requires s.pc == Informing && (s.command == InformResponse || s.command == InformError) && |envs| >= 3
    ensures var s1 := Work(s, envs[0]);
            var s2 := Work(s1, envs[1]);
            var s3 := Work(s2, envs[2]);
            && s1.pc != Done && s2.pc != Done
            && s3.pc == Sleeping && s3.command == End && s3.callbacks == s.callbacks + [Verdict(s)]
  {
    InformingIs(s, envs[0]);
    var s1 := Work(s, envs[0]);
    EndingIs(s1, envs[1]);
    var s2 := Work(s1, envs[1]);
    CallingIs(s2, envs[2]);
    hide Work;
  }

  /** The callback switch ends the thread, six steps later, with the callback of its command. */
  lemma VerdictIsCalled(s: State, envs: seq<Env>)
    requires s.pc == Informing && (s.command == InformResponse || s.command == InformError) && s.callbacks == []
    requires |envs| >= 6
    ensures var r := Worked(s, envs); r.pc == Done && r.callbacks == [Verdict(s)]
  {
    hide Work, Worked, Verdict;
    CallIs(s, envs);
    var s1 := Work(s, envs[0]);
    var s2 := Work(s1, envs[1]);
    var s3 := Work(s2, envs[2]);
    ThreeSteps(s, s1, s2, s3, envs);
    LeavingEnds(s3, envs[3..]);
  }

  // ----- What is reported -----

  lemma DrainedIs(s: State, env: Env)
    requires s.pc == Drained
    ensures Work(s, env)
         == s.(now := s.now + env.elapsed, pc := WaitTimeout,
               command := if s.hasFinishedResponse then InformResponse else s.command)
  {
    hide ResolveStep, ConnectStep, ConnectedStep, SendStep, LoopStep, CallStep;
  }

  /**
    A finished response that the worker has found is reported in every run, unless the
    time is over when it looks at the clock next.
  */
  lemma FinishedIsReported(s: State, envs: seq<Env>)
    requires s.pc == Drained && s.hasFinishedResponse && s.callbacks == [] && |envs| >= 8
    ensures var r := Worked(s, envs);
            var later := s.now + envs[0].elapsed + envs[1].elapsed;
            var response := OnResponse(true, s.peerClosed);
            r.pc == Done && r.callbacks == [if later - s.lastTime < s.timeout then response else OnError(TimedOut)]
  {
    DrainedIs(s, envs[0]);
    var s1 := Work(s, envs[0]);
    WaitIs(s1, envs[1]);
    var s2 := Work(s1, envs[1]);
    hide Work;
    WorkedStep(s, envs);
    WorkedStep(s1, envs[1..]);
    VerdictIsCalled(s2, envs[1..][1..]);
  }

  lemma PeerGoneIs(s: State, env: Env)
    requires s.pc == PeerGone
    ensures Work(s, env) == s.(now := s.now + env.elapsed, command := InformResponse, pc := Informing)
  {
    hide ResolveStep, ConnectStep, ConnectedStep, SendStep, LoopStep, CallStep;
  }

  /** A closed connection is reported as a response, finished or not, whatever the time. */
  lemma ClosedIsReported(s: State, envs: seq<Env>)
    requires s.pc == PeerGone && s.callbacks == [] && |envs| >= 7
    ensures var r := Worked(s, envs); r.pc == Done && r.callbacks == [OnResponse(s.hasFinishedResponse, s.peerClosed)]
  {
    PeerGoneIs(s, envs[0]);
    hide Work;
    WorkedStep(s, envs);
    VerdictIsCalled(Work(s, envs[0]), envs[1..]);
  }

  lemma UnresolvedIs(s: State, env: Env)
    requires s.pc == Resolving && !env.ok
    ensures Work(s, env)
         == s.(now := s.now + env.elapsed, error := FailedConnect, command := InformError, pc := Resolved(false))
  {
    hide ConnectStep, ConnectedStep, SendStep, WaitStep, LoopStep, CallStep;
  }

  /** A host that is not resolved, a connection that is refused and a request that is not sent fail. */
  lemma UnresolvedIsReported(s: State, envs: seq<Env>)
    requires s.pc == Resolving && s.callbacks == [] && |envs| >= 8 && !envs[0].ok
    ensures var r := Worked(s, envs);
            var later := s.now + envs[0].elapsed + envs[1].elapsed;
            && r.pc == Done
            && r.callbacks == [OnError(if later - s.lastTime < s.timeout then FailedConnect else TimedOut)]
  {
    UnresolvedIs(s, envs[0]);
    var s1 := Work(s, envs[0]);
    ResolvedIs(s1, envs[1]);
    hide Work;
    WorkedStep(s, envs);
    WorkedStep(s1, envs[1..]);
    VerdictIsCalled(Work(s1, envs[1]), envs[1..][1..]);
  }

  lemma RefusedIsReported(s: State, envs: seq<Env>)
    requires s.pc == Connecting && !s.socketOpen && s.callbacks == [] && |envs| >= 8 && !envs[0].ok
    ensures var r := Worked(s, envs);
            && r.pc == Done
            && r.callbacks == [OnError(if envs[0].elapsed < s.timeout then FailedConnect else TimedOut)]
  {
    ConnectingIs(s, envs[0]);
    var s1 := Work(s, envs[0]);
    if s1.pc == Connected { ConnectedIs(s1, envs[1]); }
    hide Work;
    WorkedStep(s, envs);
    if s1.pc == Connected {
      WorkedStep(s1, envs[1..]);
      VerdictIsCalled(Work(s1, envs[1]), envs[1..][1..]);
    } else {
      VerdictIsCalled(s1, envs[1..]);
    }
  }

  lemma UnsentIsReported(s: State, envs: seq<Env>)
    requires s.pc == Sending && s.callbacks == [] && |envs| >= 8 && !envs[0].ok
    ensures var r := Worked(s, envs);
            var later := s.now + envs[0].elapsed + envs[1].elapsed;
            && r.pc == Done
            && r.callbacks == [OnError(if later - s.lastTime < s.timeout then FailedConnect else TimedOut)]
  {
    SendingIs(s, envs[0]);
    var s1 := Work(s, envs[0]);
    SendFailedIs(s1, envs[1]);
    hide Work;
    WorkedStep(s, envs);
    WorkedStep(s1, envs[1..]);
    VerdictIsCalled(Work(s1, envs[1]), envs[1..][1..]);
  }

  // ----- Reachable states -----

  lemma LoopIs(s: State, env: Env)
    requires s.pc == LoopTest || s.pc == Sleeping
    ensures Work(s, env)
         == s.(now := s.now + env.elapsed,
               pc := if s.pc == Sleeping then LoopTest else if s.command == End then Exiting else Dispatch)
  {
    hide ResolveStep, ConnectStep, ConnectedStep, SendStep, WaitStep, CallStep;
  }

  lemma NoVerdictIs(s: State, env: Env)
    requires s.pc == Informing && s.command != InformResponse && s.command != InformError
    ensures Work(s, env) == s.(now := s.now + env.elapsed, pc := Sleeping)
  {
    hide ResolveStep, ConnectStep, ConnectedStep, SendStep, WaitStep, LoopStep;
  }

  lemma SentIs(s: State, env: Env)
    requires s.pc == Sent
    ensures Work(s, env) == s.(now := s.now + env.elapsed, command := StartWaiting, pc := Informing)
  {
    hide ResolveStep, ConnectStep, ConnectedStep, WaitStep, LoopStep, CallStep;
  }

  lemma StartingIs(s: State, env: Env)
    requires s.pc == Starting
    ensures var now := s.now + env.elapsed;
            Work(s, env) == s.(now := now, lastTime := now, command := WaitResponse, pc := Informing)
  {
    hide ResolveStep, ConnectStep, ConnectedStep, WaitStep, LoopStep, CallStep;
  }

  lemma ReceivingIs(s: State, env: Env)
    requires s.pc == Receiving
    ensures var t := s.(now := s.now + env.elapsed);
            Work(s, env)
            == if env.segment then t.(lastTime := t.now, hasFinishedResponse := s.hasFinishedResponse || env.finishes)
               else if env.ok then t.(pc := Drained)
               else t.(socketOpen := false, peerClosed := true, pc := PeerGone)
  {
    hide ResolveStep, ConnectStep, ConnectedStep, SendStep, LoopStep, CallStep;
  }

  predicate IsInTime(s: State, env: Env) {
    InTime(s.(now := s.now + env.elapsed)) && env.elapsed < s.timeout
  }

  /** What a step of the connect phase can do, and why. */
  predicate Connects(s: State, env: Env, t: State) {
    && t.callbacks == s.callbacks && t.peerClosed == s.peerClosed
    && (t.error == s.error || (t.error == TimedOut && !IsInTime(s, env))
        || (t.error == FailedConnect && (!env.ok || (s.pc == Connected && !s.socketOpen))))
    && (InConnect(t.pc) || t.pc == Informing)
    && (t.pc == Resolved(false) ==> !env.ok) && (t.pc == Connected ==> t.socketOpen || !env.ok)
  }

  lemma ResolveConnects(s: State, env: Env)
    requires s.pc == Resolving || s.pc.Resolved?
    ensures Connects(s, env, Work(s, env))
  {
    if s.pc == Resolving {
      if env.ok { ResolvingIs(s, env); } else { UnresolvedIs(s, env); }
    } else {
      ResolvedIs(s, env);
    }
    hide Work, InTime;
  }

  lemma AttemptConnects(s: State, env: Env)
    requires s.pc == Connecting
    ensures Connects(s, env, Work(s, env))
  {
    ConnectingIs(s, env);
    hide Work;
  }

  lemma ConnectIs(s: State, env: Env)
    requires InConnect(s.pc)
    ensures Connects(s, env, Work(s, env))
  {
    match s.pc {
      case Resolving | Resolved(_) => ResolveConnects(s, env);
      case Connecting => AttemptConnects(s, env);
      case _ => ConnectedIs(s, env);
    }
    hide Work, InTime;
  }

  /** Once the peer has closed the connection, only the callback and the end follow. */
  predicate ClosedLast(s: State) {
    s.peerClosed ==>
      && s.sender == Returned
      && (s.pc == PeerGone
          || ((s.command == InformResponse || s.command == End)
              && (Idle(s.pc) || s.pc == EndingResponse || s.pc == CallingResponse || s.pc == Exiting || s.pc == Done)))
  }

  lemma WaitKeepsClosed(s: State, env: Env)
    requires ClosedLast(s) && s.sender == Returned
    requires s.pc == Receiving || s.pc == Drained || s.pc == WaitTimeout || s.pc == PeerGone
    ensures ClosedLast(Work(s, env))
  {
    hide ResolveStep, ConnectStep, ConnectedStep, SendStep, LoopStep, CallStep, InTime;
  }

  lemma PhaseKeepsClosed(s: State, env: Env)
    requires ClosedLast(s) && !s.peerClosed
    requires InConnect(s.pc) || s.pc == Sending || s.pc == Sent || s.pc == SendFailed || s.pc == Starting
    ensures ClosedLast(Work(s, env))
  {
    if InConnect(s.pc) {
      ConnectIs(s, env);
      hide Work, InTime;
    } else {
      hide ResolveStep, ConnectStep, ConnectedStep, WaitStep, LoopStep, CallStep, InTime;
    }
  }

  lemma LoopKeepsClosed(s: State, env: Env)
    requires ClosedLast(s) && (s.pc == LoopTest || s.pc == Dispatch || s.pc == Sleeping || s.pc == Exiting)
    ensures ClosedLast(Work(s, env))
  {
    hide ResolveStep, ConnectStep, ConnectedStep, SendStep, WaitStep, CallStep;
  }

  lemma CallKeepsClosed(s: State, env: Env)
    requires ClosedLast(s) && (s.pc == Informing || IsCalling(s.pc))
    ensures ClosedLast(Work(s, env))
  {
    hide ResolveStep, ConnectStep, ConnectedStep, SendStep, WaitStep, LoopStep;
  }

  lemma StartedIsReturned(s: State)
    requires Invariant(s) && s.pc != NotStarted && !Idle(s.pc)
    ensures s.sender == Returned
  {
  }

  lemma WorkKeepsClosed(s: State, env: Env)
    requires Invariant(s) && ClosedLast(s) && s.pc != NotStarted && s.pc != Done
    ensures ClosedLast(Work(s, env))
  {
    if !Idle(s.pc) { StartedIsReturned(s); }
    hide Work, Invariant;
    match s.pc
    case Informing | EndingResponse | EndingError | CallingResponse | CallingError => CallKeepsClosed(s, env);
    case LoopTest | Dispatch | Sleeping | Exiting => LoopKeepsClosed(s, env);
    case Receiving | Drained | WaitTimeout | PeerGone => WaitKeepsClosed(s, env);
    case _ => PhaseKeepsClosed(s, env);
  }

  lemma StepKeepsClosed(s: State, a: Action)
    requires Invariant(s) && ClosedLast(s) && Enabled(s, a)
    ensures ClosedLast(Step(s, a))
  {
    if a.WorkerStep? {
      WorkKeepsClosed(s, a.env);
    } else {
      hide Safe, CommandFits, PhasesFit;
    }
  }

  lemma {:induction false} RunKeepsClosed(s: State, actions: seq<Action>)
    requires Invariant(s) && ClosedLast(s) && IsRun(s, actions)
    ensures ClosedLast(Final(s, actions))
    decreases |actions|
  {
    hide Invariant, ClosedLast, Step, Enabled;
    if actions != [] {
      StepKeeps(s, actions[0]);
      StepKeepsClosed(s, actions[0]);
      RunKeepsClosed(Step(s, actions[0]), actions[1..]);
    }
  }

  /** What holds of every state that a run can reach. */
  lemma Reached(timeout: nat, before: seq<Action>)
    requires IsRun(Initial(timeout), before)
    ensures var s := Final(Initial(timeout), before); Invariant(s) && ClosedLast(s)
  {
    InitialInvariant(timeout);
    assert ClosedLast(Initial(timeout));
    hide Invariant, ClosedLast;
    RunKeeps(Initial(timeout), before);
    RunKeepsClosed(Initial(timeout), before);
  }

  lemma WaitingIsUncalled(s: State)
    requires Invariant(s) && ClosedLast(s) && (s.pc == Drained || s.pc == PeerGone)
    ensures s.callbacks == [] && (s.pc == Drained ==> !s.peerClosed)
  {
  }

  lemma GoneIsClosed(s: State)
    requires Invariant(s) && s.pc == PeerGone
    ensures s.peerClosed
  {
  }

  /**
    Whatever came before, when the worker has found a finished response and nobody cancels
    any more, its one callback is that response; only when the time is over at the next
    look at the clock it is the timeout.
  */
  lemma FinishedResponse(timeout: nat, before: seq<Action>, envs: seq<Env>)
    requires IsRun(Initial(timeout), before) && |envs| >= 8
    requires var s := Final(Initial(timeout), before); s.pc == Drained && s.hasFinishedResponse
    ensures var s := Final(Initial(timeout), before);
            var later := s.now + envs[0].elapsed + envs[1].elapsed;
            var r := Worked(s, envs);
            && r.pc == Done
            && r.callbacks == [if later - s.lastTime < s.timeout then OnResponse(true, false) else OnError(TimedOut)]
  {
    var s := Final(Initial(timeout), before);
    Reached(timeout, before);
    WaitingIsUncalled(s);
    hide Invariant, ClosedLast, Final, IsRun, Worked;
    FinishedIsReported(s, envs);
  }

  /** And when the peer has closed the connection, it is what there is of the response. */
  lemma ClosedResponse(timeout: nat, before: seq<Action>, envs: seq<Env>)
    requires IsRun(Initial(timeout), before) && |envs| >= 7
    requires Final(Initial(timeout), before).pc == PeerGone
    ensures var s := Final(Initial(timeout), before);
            var r := Worked(s, envs);
            r.pc == Done && r.callbacks == [OnResponse(s.hasFinishedResponse, true)]
  {
    var s := Final(Initial(timeout), before);
    Reached(timeout, before);
    WaitingIsUncalled(s);
    GoneIsClosed(s);
    hide Invariant, ClosedLast, Final, IsRun, Worked;
    ClosedIsReported(s, envs);
  }

  lemma ExitCloses(s: State, env: Env)
    requires s.pc == Exiting
    ensures !Work(s, env).socketOpen
  {
    hide ResolveStep, ConnectStep, ConnectedStep, SendStep, WaitStep, CallStep;
  }

  lemma OnlyExitEnds(s: State, env: Env)
    requires s.pc != Exiting && s.pc != Done && s.pc != NotStarted
    ensures Work(s, env).pc != Done
  {
    hide Work, TimeLeft, TimePasses;
    match s.pc
    case Resolving | Resolved(_) | Connecting | Connected => ConnectLeads(s, env);
    case Sending | SendFailed | Sent => SendLeads(s, env);
    case Starting => StartLeads(s, env);
    case Receiving => ReceiveLeads(s, env);
    case Drained | WaitTimeout | PeerGone => WaitLeads(s, env);
    case Dispatch => DispatchLeads(s, env);
    case LoopTest | Sleeping => LoopLeads(s, env);
    case _ => CallLeads(s, env);
  }

  lemma StepCloses(s: State, a: Action)
    requires Invariant(s) && Enabled(s, a) && (s.pc == Done ==> !s.socketOpen)
    ensures Step(s, a).pc == Done ==> !Step(s, a).socketOpen
  {
    if a.WorkerStep? {
      if s.pc == Exiting { ExitCloses(s, a.env); } else { OnlyExitEnds(s, a.env); }
    }
    hide Work, Safe, CommandFits, PhasesFit, EndFits;
  }

  lemma {:induction false} RunCloses(s: State, actions: seq<Action>)
    requires Invariant(s) && (s.pc == Done ==> !s.socketOpen) && IsRun(s, actions)
    ensures Final(s, actions).pc == Done ==> !Final(s, actions).socketOpen
    decreases |actions|
  {
    hide Work, Invariant;
    if actions != [] {
      var a := actions[0];
      StepKeeps(s, a);
      StepCloses(s, a);
      hide Step, Enabled;
      RunCloses(Step(s, a), actions[1..]);
    }
  }

  /** A thread that is done has left no socket open. */
  lemma SocketIsClosed(timeout: nat, actions: seq<Action>)
    requires IsRun(Initial(timeout), actions) && Final(Initial(timeout), actions).pc == Done
    ensures !Final(Initial(timeout), actions).socketOpen
  {
    InitialInvariant(timeout);
    RunCloses(Initial(timeout), actions);
  }

  // ----- Runs that go well -----

  /** The environment's answers are all that the worker hopes for. */
  predicate AllOk(actions: seq<Action>) {
    forall i | 0 <= i < |actions| :: actions[i].WorkerStep? ==> actions[i].env.ok
  }

  lemma ConnectCallsNothing(s: State, env: Env)
    requires InConnect(s.pc)
    ensures Work(s, env).callbacks == s.callbacks
  {
    ConnectIs(s, env);
    hide Work, InTime;
  }

  lemma SendCallsNothing(s: State, env: Env)
    requires s.pc == Sending || s.pc == Sent || s.pc == SendFailed || s.pc == Starting
    ensures Work(s, env).callbacks == s.callbacks
  {
    match s.pc {
      case Sending => SendingIs(s, env);
      case Sent => SentIs(s, env);
      case SendFailed => SendFailedIs(s, env);
      case _ => StartingIs(s, env);
    }
    hide Work, InTime;
  }

  lemma WaitCallsNothing(s: State, env: Env)
    requires s.pc == Receiving || s.pc == Drained || s.pc == WaitTimeout || s.pc == PeerGone
    ensures Work(s, env).callbacks == s.callbacks
  {
    match s.pc {
      case Receiving => ReceivingIs(s, env);
      case Drained => DrainedIs(s, env);
      case WaitTimeout => WaitIs(s, env);
      case _ => PeerGoneIs(s, env);
    }
    hide Work, InTime;
  }

  lemma SwitchCallsNothing(s: State, env: Env)
    requires s.pc == Informing || s.pc == EndingResponse || s.pc == EndingError
    ensures Work(s, env).callbacks == s.callbacks
  {
    if s.pc == Informing {
      if s.command == InformResponse || s.command == InformError { InformingIs(s, env); } else { NoVerdictIs(s, env); }
    } else {
      EndingIs(s, env);
    }
    hide Work;
  }

  /** Only the two callback steps call back. */
  lemma CallbacksStay(s: State, env: Env)
    requires s.pc != CallingResponse && s.pc != CallingError
    ensures Work(s, env).callbacks == s.callbacks
  {
    if s.pc != NotStarted && s.pc != Done {
      hide Work;
      match s.pc
      case Resolving | Resolved(_) | Connecting | Connected => ConnectCallsNothing(s, env);
      case Sending | Sent | SendFailed | Starting => SendCallsNothing(s, env);
      case Receiving | Drained | WaitTimeout | PeerGone => WaitCallsNothing(s, env);
      case LoopTest | Dispatch | Sleeping | Exiting => LoopCallsNothing(s, env);
      case _ => SwitchCallsNothing(s, env);
    }
  }

  /** No failure has been met. */
  predicate IsHealthy(s: State) {
    && s.error != FailedConnect && !s.peerClosed
    && s.pc != Resolved(false) && s.pc != SendFailed && s.pc != PeerGone && (s.pc == Connected ==> s.socketOpen)
  }

  predicate IsHealthyCallback(c: Callback) {
    match c
    case OnError(code) => code != FailedConnect
    case OnResponse(_, peerClosed) => !peerClosed
  }

  lemma ConnectStaysHealthy(s: State, env: Env)
    requires IsHealthy(s) && env.ok && InConnect(s.pc)
    ensures IsHealthy(Work(s, env))
  {
    ConnectIs(s, env);
    hide Work, InTime;
  }

  lemma SendStaysHealthy(s: State, env: Env)
    requires IsHealthy(s) && env.ok && (s.pc == Sending || s.pc == Sent || s.pc == Starting)
    ensures IsHealthy(Work(s, env))
  {
    hide ResolveStep, ConnectStep, ConnectedStep, WaitStep, LoopStep, CallStep, InTime;
  }

  lemma WaitStaysHealthy(s: State, env: Env)
    requires IsHealthy(s) && env.ok && (s.pc == Receiving || s.pc == Drained || s.pc == WaitTimeout)
    ensures IsHealthy(Work(s, env))
  {
    hide ResolveStep, ConnectStep, ConnectedStep, SendStep, LoopStep, CallStep, InTime;
  }

  lemma LoopStaysHealthy(s: State, env: Env)
    requires IsHealthy(s) && (s.pc == LoopTest || s.pc == Dispatch || s.pc == Sleeping || s.pc == Exiting)
    ensures IsHealthy(Work(s, env))
  {
    hide ResolveStep, ConnectStep, ConnectedStep, SendStep, WaitStep, CallStep;
  }

  lemma CallStaysHealthy(s: State, env: Env)
    requires IsHealthy(s) && (s.pc == Informing || IsCalling(s.pc))
    ensures IsHealthy(Work(s, env))
  {
    hide ResolveStep, ConnectStep, ConnectedStep, SendStep, WaitStep, LoopStep;
  }

  lemma StepStaysHealthy(s: State, env: Env)
    requires IsHealthy(s) && env.ok && s.pc != NotStarted && s.pc != Done
    ensures IsHealthy(Work(s, env))
    ensures forall c | c in Work(s, env).callbacks :: c in s.callbacks || IsHealthyCallback(c)
  {
    if s.pc == CallingResponse || s.pc == CallingError { CallingIs(s, env); } else { CallbacksStay(s, env); }
    assert s.pc != Resolved(false) && s.pc != SendFailed && s.pc != PeerGone;
    hide Work;
    match s.pc
    case Resolving | Resolved(_) | Connecting | Connected => ConnectStaysHealthy(s, env);
    case Sending | Sent | Starting => SendStaysHealthy(s, env);
    case Receiving | Drained | WaitTimeout => WaitStaysHealthy(s, env);
    case LoopTest | Dispatch | Sleeping | Exiting => LoopStaysHealthy(s, env);
    case Informing | EndingResponse | EndingError | CallingResponse | CallingError => CallStaysHealthy(s, env);
    case _ =>
  }

  lemma OtherStaysHealthy(s: State, a: Action)
    requires Invariant(s) && IsHealthy(s) && Enabled(s, a) && !a.WorkerStep?
    ensures IsHealthy(Step(s, a)) && Step(s, a).callbacks == s.callbacks
  {
    if a.Cancel? { CancelKeeps(s); }
    hide Safe, CommandFits, PhasesFit;
  }

  lemma {:induction false} RunStaysHealthy(s: State, actions: seq<Action>)
    requires Invariant(s) && IsHealthy(s) && IsRun(s, actions) && AllOk(actions)
    requires forall c | c in s.callbacks :: IsHealthyCallback(c)
    ensures forall c | c in Final(s, actions).callbacks :: IsHealthyCallback(c)
    decreases |actions|
  {
    hide Invariant, IsHealthy, IsHealthyCallback, Work;
    if actions != [] {
      var a := actions[0];
      StepKeeps(s, a);
      assert AllOk(actions[1..]);
      if a.WorkerStep? { StepStaysHealthy(s, a.env); } else { OtherStaysHealthy(s, a); }
      hide Step, Enabled;
      RunStaysHealthy(Step(s, a), actions[1..]);
    }
  }

  /** At no step of the worker the time since the last activity has reached the timeout. */
  predicate InTimeThroughout(s: State, actions: seq<Action>)
    decreases |actions|
  {
    actions == []
    || ((actions[0].WorkerStep? ==> IsInTime(s, actions[0].env)) && InTimeThroughout(Step(s, actions[0]), actions[1..]))
  }

  lemma ConnectIsPunctual(s: State, env: Env)
    requires s.error != TimedOut && IsInTime(s, env) && InConnect(s.pc)
    ensures Work(s, env).error != TimedOut
  {
    ConnectIs(s, env);
    hide Work;
  }

  lemma SendIsPunctual(s: State, env: Env)
    requires s.error != TimedOut && IsInTime(s, env)
    requires s.pc == Sending || s.pc == Sent || s.pc == SendFailed || s.pc == Starting
    ensures Work(s, env).error != TimedOut
  {
    hide ResolveStep, ConnectStep, ConnectedStep, WaitStep, LoopStep, CallStep;
  }

  lemma WaitIsPunctual(s: State, env: Env)
    requires s.error != TimedOut && IsInTime(s, env)
    requires s.pc == Receiving || s.pc == Drained || s.pc == WaitTimeout || s.pc == PeerGone
    ensures Work(s, env).error != TimedOut
  {
    hide ResolveStep, ConnectStep, ConnectedStep, SendStep, LoopStep, CallStep;
  }

  lemma LoopKeepsError(s: State, env: Env)
    requires s.pc == LoopTest || s.pc == Dispatch || s.pc == Sleeping || s.pc == Exiting
    ensures Work(s, env).error == s.error
  {
    hide ResolveStep, ConnectStep, ConnectedStep, SendStep, WaitStep, CallStep;
  }

  lemma CallKeepsError(s: State, env: Env)
    requires s.pc == Informing || IsCalling(s.pc)
    ensures Work(s, env).error == s.error
  {
    if s.pc == Informing {
      if s.command == InformResponse || s.command == InformError { InformingIs(s, env); } else { NoVerdictIs(s, env); }
    } else if s.pc == EndingResponse || s.pc == EndingError {
      EndingIs(s, env);
    } else {
      CallingIs(s, env);
    }
    hide Work;
  }

  lemma StepIsPunctual(s: State, env: Env)
    requires s.error != TimedOut && IsInTime(s, env) && s.pc != NotStarted && s.pc != Done
    ensures Work(s, env).error != TimedOut
  {
    hide Work, IsInTime;
    match s.pc
    case Resolving | Resolved(_) | Connecting | Connected => ConnectIsPunctual(s, env);
    case Sending | Sent | SendFailed | Starting => SendIsPunctual(s, env);
    case Receiving | Drained | WaitTimeout | PeerGone => WaitIsPunctual(s, env);
    case LoopTest | Dispatch | Sleeping | Exiting => LoopKeepsError(s, env);
    case _ => CallKeepsError(s, env);
  }

  lemma CallIsPunctual(s: State, env: Env)
    requires s.error != TimedOut && OnError(TimedOut) !in s.callbacks
    ensures OnError(TimedOut) !in Work(s, env).callbacks
  {
    if s.pc == CallingResponse || s.pc == CallingError { CallingIs(s, env); } else { CallbacksStay(s, env); }
    hide Work;
  }

  lemma {:induction false} RunIsPunctual(s: State, actions: seq<Action>)
    requires s.error != TimedOut && OnError(TimedOut) !in s.callbacks
    requires IsRun(s, actions) && InTimeThroughout(s, actions)
    ensures OnError(TimedOut) !in Final(s, actions).callbacks
    decreases |actions|
  {
    hide Work, IsInTime;
    if actions != [] {
      var a := actions[0];
      if a.WorkerStep? {
        StepIsPunctual(s, a.env);
        CallIsPunctual(s, a.env);
      }
      assert Step(s, a).error != TimedOut && OnError(TimedOut) !in Step(s, a).callbacks;
      hide Step, Enabled;
      RunIsPunctual(Step(s, a), actions[1..]);
    }
  }

  /** A timeout is reported only when some step found the time over. */
  lemma TimeoutNeedsTime(timeout: nat, actions: seq<Action>)
    requires IsRun(Initial(timeout), actions) && InTimeThroughout(Initial(timeout), actions)
    ensures OnError(TimedOut) !in Final(Initial(timeout), actions).callbacks
  {
    RunIsPunctual(Initial(timeout), actions);
    hide Final, IsRun, InTimeThroughout;
  }

  /** A failure to connect, or a closed connection, only when some step failed. */
  lemma FailureNeedsCause(timeout: nat, actions: seq<Action>)
    requires IsRun(Initial(timeout), actions) && AllOk(actions)
    ensures forall c | c in Final(Initial(timeout), actions).callbacks :: IsHealthyCallback(c)
  {
    assert IsHealthy(Initial(timeout));
    InitialInvariant(timeout);
    hide Invariant;
    RunStaysHealthy(Initial(timeout), actions);
    hide Final, IsRun, AllOk, IsHealthyCallback;
  }

  /** When no step fails and the time is never over, an uncancelled thread ends with a finished response. */
  lemma GoodRunEndsWell(timeout: nat, actions: seq<Action>)
    requires IsRun(Initial(timeout), actions) && AllOk(actions) && InTimeThroughout(Initial(timeout), actions)
    ensures var s := Final(Initial(timeout), actions);
            s.pc == Done && !s.cancelled ==> s.callbacks == [OnResponse(true, false)]
  {
    var s := Final(Initial(timeout), actions);
    SafeInEveryRun(timeout, actions);
    TimeoutNeedsTime(timeout, actions);
    FailureNeedsCause(timeout, actions);
    if s.pc == Done && !s.cancelled {
      EndMeansCallback(timeout, actions);
      hide Final, IsRun, AllOk, InTimeThroughout;
      var c := s.callbacks[0];
      assert s.callbacks == [c] && c in s.callbacks && IsHealthyCallback(c) && Justified(c);
    }
  }

  // ----- A run in which everything succeeds -----

  /** The commands that have a phase. */
  predicate HasPhase(c: Command) {
    c == ConnectToHost || c == SendRequest || c == StartWaiting || c == WaitResponse
  }

  function PhasePc(c: Command): Pc
    requires HasPhase(c)
  {
    match c
    case ConnectToHost => Resolving
    case SendRequest => Sending
    case StartWaiting => Starting
    case WaitResponse => Receiving
  }

  function CountOf(c: Command, phase: Command): nat {
    if c == phase then 1 else 0
  }

  /** The start of the phase of the command, at that time; only connecting sets the clock. */
  function PhaseStart(s: State, now: int): State
    requires HasPhase(s.command)
  {
    s.(now := now, pc := PhasePc(s.command), lastTime := if s.command == ConnectToHost then now else s.lastTime,
       connects := s.connects + CountOf(s.command, ConnectToHost), sends := s.sends + CountOf(s.command, SendRequest))
  }

  lemma DispatchSends(s: State, env: Env)
    requires s.pc == Dispatch && (s.command == ConnectToHost || s.command == SendRequest)
    ensures var t := s.(now := s.now + env.elapsed);
            Work(s, env)
            == if s.command == ConnectToHost then t.(pc := Resolving, lastTime := t.now, connects := s.connects + 1)
               else t.(pc := Sending, sends := s.sends + 1)
  {
    hide ResolveStep, ConnectStep, ConnectedStep, SendStep, WaitStep, CallStep;
  }

  lemma DispatchWaits(s: State, env: Env)
    requires s.pc == Dispatch && (s.command == StartWaiting || s.command == WaitResponse)
    ensures Work(s, env)
         == s.(now := s.now + env.elapsed, pc := if s.command == StartWaiting then Starting else Receiving)
  {
    hide ResolveStep, ConnectStep, ConnectedStep, SendStep, WaitStep, CallStep;
  }

  lemma DispatchIs(s: State, env: Env)
    requires s.pc == Dispatch && HasPhase(s.command)
    ensures Work(s, env) == PhaseStart(s, s.now + env.elapsed)
  {
    if s.command == ConnectToHost || s.command == SendRequest {
      DispatchSends(s, env);
    } else {
      DispatchWaits(s, env);
    }
    hide Work;
  }

  /** The steps that start the time anew. */
  predicate Restarts(s: State, env: Env) {
    (s.pc == Dispatch && s.command == ConnectToHost) || s.pc == Starting || (s.pc == Receiving && env.segment)
  }

  predicate TimeIs(s: State, env: Env, t: State) {
    && t.now == s.now + env.elapsed
    && t.lastTime == if Restarts(s, env) then t.now else if s.pc == Connecting then s.now else s.lastTime
  }

  lemma ConnectTime(s: State, env: Env)
    requires InConnect(s.pc)
    ensures TimeIs(s, env, Work(s, env))
  {
    assert !Restarts(s, env);
    hide Restarts;
    match s.pc {
      case Resolving => if env.ok { ResolvingIs(s, env); } else { UnresolvedIs(s, env); }
      case Resolved(_) => ResolvedIs(s, env);
      case Connecting => ConnectingIs(s, env);
      case _ => ConnectedIs(s, env);
    }
    hide Work, InTime;
  }

  lemma SendTime(s: State, env: Env)
    requires s.pc == Sending || s.pc == Sent || s.pc == SendFailed || s.pc == Starting
    ensures TimeIs(s, env, Work(s, env))
  {
    assert Restarts(s, env) <==> s.pc == Starting;
    hide Restarts;
    match s.pc {
      case Sending => SendingIs(s, env);
      case Sent => SentIs(s, env);
      case SendFailed => SendFailedIs(s, env);
      case _ => StartingIs(s, env);
    }
    hide Work, InTime;
  }

  lemma WaitTime(s: State, env: Env)
    requires s.pc == Receiving || s.pc == Drained || s.pc == WaitTimeout || s.pc == PeerGone
    ensures TimeIs(s, env, Work(s, env))
  {
    assert Restarts(s, env) <==> s.pc == Receiving && env.segment;
    hide Restarts;
    match s.pc {
      case Receiving => ReceivingIs(s, env);
      case Drained => DrainedIs(s, env);
      case WaitTimeout => WaitIs(s, env);
      case _ => PeerGoneIs(s, env);
    }
    hide Work, InTime;
  }

  lemma CallTime(s: State, env: Env)
    requires s.pc == Informing || IsCalling(s.pc)
    ensures TimeIs(s, env, Work(s, env))
  {
    hide ResolveStep, ConnectStep, ConnectedStep, SendStep, WaitStep, LoopStep;
  }

  lemma LoopTime(s: State, env: Env)
    requires s.pc == LoopTest || s.pc == Dispatch || s.pc == Sleeping || s.pc == Exiting
    ensures TimeIs(s, env, Work(s, env))
  {
    hide ResolveStep, ConnectStep, ConnectedStep, SendStep, WaitStep, CallStep;
  }

  /**
    The time starts anew with the connect phase, when the wait starts and with every
    segment; an attempt to connect has the whole timeout too; and no other step restarts it.
  */
  lemma TimeStarts(s: State, env: Env)
    requires s.pc != NotStarted && s.pc != Done
    ensures TimeIs(s, env, Work(s, env))
  {
    hide Work, TimeIs;
    match s.pc
    case Resolving | Resolved(_) | Connecting | Connected => ConnectTime(s, env);
    case Sending | Sent | SendFailed | Starting => SendTime(s, env);
    case Receiving | Drained | WaitTimeout | PeerGone => WaitTime(s, env);
    case LoopTest | Dispatch | Sleeping | Exiting => LoopTime(s, env);
    case _ => CallTime(s, env);
  }

  /** An answer with which a step succeeds at once and nothing is received. */
  const GOOD := Env(true, false, false, 0)

  /** An answer with which the last segment of the response is received. */
  const LAST_SEGMENT := Env(true, true, true, 0)

  const FOUR := [GOOD, GOOD, GOOD, GOOD]

  /** With these answers the worker goes from one state to the other. */
  predicate Leads(s: State, answers: seq<Env>, t: State)
    decreases |answers|
  {
    if answers == [] then s == t else Enabled(s, WorkerStep(answers[0])) && Leads(Work(s, answers[0]), answers[1..], t)
  }

  function WorkerSteps(answers: seq<Env>): seq<Action> {
    if answers == [] then [] else [WorkerStep(answers[0])] + WorkerSteps(answers[1..])
  }

  lemma {:induction false} LeadsIsRun(s: State, answers: seq<Env>, t: State)
    requires Leads(s, answers, t)
    ensures IsRun(s, WorkerSteps(answers)) && Final(s, WorkerSteps(answers)) == t
    decreases |answers|
  {
    hide Work, Enabled;
    if answers != [] {
      LeadsIsRun(Work(s, answers[0]), answers[1..], t);
      OneMore(s, WorkerStep(answers[0]), WorkerSteps(answers[1..]));
    }
  }

  lemma {:induction false} LeadsOn(s: State, answers: seq<Env>, t: State, more: seq<Env>, u: State)
    requires Leads(s, answers, t) && Leads(t, more, u)
    ensures Leads(s, answers + more, u)
    decreases |answers|
  {
    hide Work, Enabled;
    if answers == [] {
      assert answers + more == more;
    } else {
      assert (answers + more)[1..] == answers[1..] + more;
      LeadsOn(Work(s, answers[0]), answers[1..], t, more, u);
    }
  }

  lemma OneLeads(s: State, env: Env, t: State)
    requires s.pc != NotStarted && s.pc != Done && Work(s, env) == t
    ensures Leads(s, [env], t)
  {
    assert [env][1..] == [];
    hide Work;
  }

  lemma TwoLead(s: State, a: Env, t: State, b: Env, u: State)
    requires s.pc != NotStarted && s.pc != Done && Work(s, a) == t
    requires t.pc != NotStarted && t.pc != Done && Work(t, b) == u
    ensures Leads(s, [a, b], u)
  {
    hide Work, Leads;
    OneLeads(s, a, t);
    OneLeads(t, b, u);
    LeadsOn(s, [a], t, [b], u);
    assert [a] + [b] == [a, b];
  }

  lemma FourLead(s: State, t: State, u: State)
    requires Leads(s, [GOOD, GOOD], t) && Leads(t, [GOOD, GOOD], u)
    ensures Leads(s, FOUR, u)
  {
    hide Leads;
    LeadsOn(s, [GOOD, GOOD], t, [GOOD, GOOD], u);
    assert [GOOD, GOOD] + [GOOD, GOOD] == FOUR;
  }

  lemma ToLoopTest(s: State)
    requires s.pc == Informing && HasPhase(s.command)
    ensures Leads(s, [GOOD, GOOD], s.(pc := LoopTest))
  {
    var s1 := s.(pc := Sleeping);
    NoVerdictIs(s, GOOD);
    LoopIs(s1, GOOD);
    hide Work, Leads;
    TwoLead(s, GOOD, s1, GOOD, s.(pc := LoopTest));
  }

  lemma PhaseStartOf(s: State)
    requires HasPhase(s.command)
    ensures PhaseStart(s.(pc := LoopTest), s.now) == PhaseStart(s.(pc := Dispatch), s.now) == PhaseStart(s, s.now)
  {
  }

  lemma ToPhase(s: State)
    requires s.pc == LoopTest && HasPhase(s.command)
    ensures Leads(s, [GOOD, GOOD], PhaseStart(s, s.now))
  {
    var s1, s2 := s.(pc := Dispatch), PhaseStart(s, s.now);
    LoopIs(s, GOOD);
    DispatchIs(s1, GOOD);
    PhaseStartOf(s);
    hide Work, Leads, PhaseStart;
    TwoLead(s, GOOD, s1, GOOD, s2);
  }

  /** Round the loop to the next phase. */
  lemma NextPhase(s: State)
    requires s.pc == Informing && HasPhase(s.command)
    ensures Leads(s, FOUR, PhaseStart(s, s.now))
  {
    var s1 := s.(pc := LoopTest);
    ToLoopTest(s);
    ToPhase(s1);
    PhaseStartOf(s);
    hide Leads, PhaseStart;
    FourLead(s, s1, PhaseStart(s, s.now));
  }

  lemma ConnectSucceeds(s: State)
    requires s.pc == Resolving && s.lastTime == s.now && s.timeout > 0
    ensures Leads(s, FOUR, s.(socketOpen := true, command := SendRequest, pc := Informing))
  {
    var s1, s2 := s.(pc := Resolved(true)), s.(pc := Connecting);
    var s3 := s.(pc := Connected, socketOpen := true);
    var s4 := s.(socketOpen := true, command := SendRequest, pc := Informing);
    ResolvingIs(s, GOOD);
    ResolvedIs(s1, GOOD);
    ConnectingIs(s2, GOOD);
    ConnectedIs(s3, GOOD);
    hide Work, Leads;
    TwoLead(s, GOOD, s1, GOOD, s2);
    TwoLead(s2, GOOD, s3, GOOD, s4);
    FourLead(s, s2, s4);
  }

  lemma SendSucceeds(s: State)
    requires s.pc == Sending
    ensures Leads(s, [GOOD, GOOD], s.(error := NoError, command := StartWaiting, pc := Informing))
  {
    var s1 := s.(error := NoError, pc := Sent);
    SendingIs(s, GOOD);
    SentIs(s1, GOOD);
    hide Work, Leads;
    TwoLead(s, GOOD, s1, GOOD, s.(error := NoError, command := StartWaiting, pc := Informing));
  }

  lemma StartSucceeds(s: State)
    requires s.pc == Starting
    ensures Leads(s, [GOOD], s.(lastTime := s.now, command := WaitResponse, pc := Informing))
  {
    StartingIs(s, GOOD);
    hide Work, Leads;
    OneLeads(s, GOOD, s.(lastTime := s.now, command := WaitResponse, pc := Informing));
  }

  /** The last segment comes, and nothing behind it. */
  lemma ReceiveSucceeds(s: State)
    requires s.pc == Receiving
    ensures Leads(s, [LAST_SEGMENT, GOOD], s.(lastTime := s.now, hasFinishedResponse := true, pc := Drained))
  {
    var s1 := s.(lastTime := s.now, hasFinishedResponse := true);
    ReceivingIs(s, LAST_SEGMENT);
    ReceivingIs(s1, GOOD);
    hide Work, Leads;
    TwoLead(s, LAST_SEGMENT, s1, GOOD, s.(lastTime := s.now, hasFinishedResponse := true, pc := Drained));
  }

  lemma {:induction false} WorkedLeads(s: State, envs: seq<Env>) returns (n: nat)
    requires Invariant(s) && s.sender == Returned
    ensures n <= |envs| && Leads(s, envs[..n], Worked(s, envs))
    decreases |envs|
  {
    n := 0;
    if envs != [] && s.pc != Done {
      StartedAfterSend(s);
      hide Work, Invariant;
      StepKeeps(s, WorkerStep(envs[0]));
      var k := WorkedLeads(Work(s, envs[0]), envs[1..]);
      n := k + 1;
      assert envs[..n][0] == envs[0] && envs[..n][1..] == envs[1..][..k];
    }
  }

  predicate AreGood(answers: seq<Env>) {
    forall env | env in answers :: env == GOOD || env == LAST_SEGMENT
  }

  lemma GoodTogether(a: seq<Env>, b: seq<Env>)
    requires AreGood(a) && forall env | env in b :: env == GOOD
    ensures AreGood(a + b)
  {
  }

  /** What the phases leave alone. */
  predicate IsSame(s: State, t: State) {
    t.callbacks == s.callbacks && t.peerClosed == s.peerClosed && t.timeout == s.timeout && t.sender == s.sender
  }

  /** From the start of the thread to the end of the connect phase. */
  lemma UntilConnected(s: State) returns (t: State)
    requires s.pc == LoopTest && s.command == ConnectToHost && s.timeout > 0
    ensures Leads(s, CONNECTING, t) && t.pc == Informing && t.command == SendRequest && IsSame(s, t)
  {
    ToPhase(s);
    var s1 := PhaseStart(s, s.now);
    hide Leads;
    ConnectSucceeds(s1);
    t := s1.(socketOpen := true, command := SendRequest, pc := Informing);
    LeadsOn(s, [GOOD, GOOD], s1, FOUR, t);
  }

  lemma UntilSent(s: State) returns (t: State)
    requires s.pc == Informing && s.command == SendRequest
    ensures Leads(s, SENDING, t) && t.pc == Informing && t.command == StartWaiting && IsSame(s, t)
  {
    NextPhase(s);
    var s1 := PhaseStart(s, s.now);
    hide Leads;
    SendSucceeds(s1);
    t := s1.(error := NoError, command := StartWaiting, pc := Informing);
    LeadsOn(s, FOUR, s1, [GOOD, GOOD], t);
  }

  lemma UntilWaiting(s: State) returns (t: State)
    requires s.pc == Informing && s.command == StartWaiting
    ensures Leads(s, STARTING, t) && t.pc == Informing && t.command == WaitResponse && IsSame(s, t)
  {
    NextPhase(s);
    var s1 := PhaseStart(s, s.now);
    hide Leads;
    StartSucceeds(s1);
    t := s1.(lastTime := s1.now, command := WaitResponse, pc := Informing);
    LeadsOn(s, FOUR, s1, [GOOD], t);
  }

  lemma UntilDrained(s: State) returns (t: State)
    requires s.pc == Informing && s.command == WaitResponse
    ensures Leads(s, WAITING, t) && t.pc == Drained && t.hasFinishedResponse && t.lastTime == t.now && IsSame(s, t)
  {
    NextPhase(s);
    var s1 := PhaseStart(s, s.now);
    hide Leads;
    ReceiveSucceeds(s1);
    t := s1.(lastTime := s1.now, hasFinishedResponse := true, pc := Drained);
    LeadsOn(s, FOUR, s1, [LAST_SEGMENT, GOOD], t);
  }

  const CONNECTING := [GOOD, GOOD] + FOUR
  const SENDING := FOUR + [GOOD, GOOD]
  const STARTING := FOUR + [GOOD]
  const WAITING := FOUR + [LAST_SEGMENT, GOOD]

  /** Connecting, sending, and waiting for one segment that is the whole response. */
  lemma SucceedsUntilDrained(s: State) returns (t: State)
    requires s.pc == LoopTest && s.command == ConnectToHost && s.timeout > 0
    ensures Leads(s, CONNECTING + SENDING + STARTING + WAITING, t)
    ensures t.pc == Drained && t.hasFinishedResponse && t.lastTime == t.now && IsSame(s, t)
  {
    hide Leads;
    var s1 := UntilConnected(s);
    var s2 := UntilSent(s1);
    var s3 := UntilWaiting(s2);
    t := UntilDrained(s3);
    LeadsOn(s, CONNECTING, s1, SENDING, s2);
    LeadsOn(s, CONNECTING + SENDING, s2, STARTING, s3);
    LeadsOn(s, CONNECTING + SENDING + STARTING, s3, WAITING, t);
  }

  lemma AnswersAreGood()
    ensures AreGood(CONNECTING + SENDING + STARTING + WAITING)
  {
    assert AreGood(FOUR) && AreGood([GOOD]) && AreGood([GOOD, GOOD]) && AreGood([LAST_SEGMENT, GOOD]);
  }

  lemma AfterSending(timeout: nat)
    ensures var s := Final(Initial(timeout), SENDER);
            && IsRun(Initial(timeout), SENDER)
            && s.pc == LoopTest && s.command == ConnectToHost && s.sender == Returned && s.callbacks == []
            && s.timeout == timeout && !s.peerClosed
  {
    assert SENDER[1..] == [SenderStep, SenderStep] && SENDER[1..][1..] == [SenderStep] && [SenderStep][1..] == [];
  }

  lemma {:induction false} RunsOn(s: State, a: seq<Action>, b: seq<Action>)
    requires IsRun(s, a) && IsRun(Final(s, a), b)
    ensures IsRun(s, a + b) && Final(s, a + b) == Final(Final(s, a), b)
    decreases |a|
  {
    hide Step, Enabled;
    if a == [] {
      assert a + b == b;
    } else {
      assert (a + b)[1..] == a[1..] + b;
      RunsOn(Step(s, a[0]), a[1..], b);
    }
  }

  const SENDER := [SenderStep, SenderStep, SenderStep]

  /**
    From the start, with every phase succeeding and the whole response in one segment, the
    thread ends with that response, though the connection stays open.
  */
  lemma ResponseIsReported(timeout: nat) returns (answers: seq<Env>)
    requires timeout > 0
    ensures AreGood(answers)
    ensures var actions := SENDER + WorkerSteps(answers);
            var r := Final(Initial(timeout), actions);
            IsRun(Initial(timeout), actions) && r.pc == Done && r.callbacks == [OnResponse(true, false)]
  {
    AfterSending(timeout);
    AnswersAreGood();
    InitialInvariant(timeout);
    hide Work, Invariant, Leads, AreGood, IsRun, Final, SENDER, CONNECTING, SENDING, STARTING, WAITING;
    var s, first := Final(Initial(timeout), SENDER), CONNECTING + SENDING + STARTING + WAITING;
    RunKeeps(Initial(timeout), SENDER);
    var t := SucceedsUntilDrained(s);
    LeadsIsRun(s, first, t);
    RunKeeps(s, WorkerSteps(first));
    var last := FOUR + FOUR;
    FinishedIsReported(t, last);
    var n := WorkedLeads(t, last);
    answers := first + last[..n];
    LeadsOn(s, first, t, last[..n], Worked(t, last));
    LeadsIsRun(s, answers, Worked(t, last));
    RunsOn(Initial(timeout), SENDER, WorkerSteps(answers));
    GoodTogether(first, last[..n]);
  }
}
