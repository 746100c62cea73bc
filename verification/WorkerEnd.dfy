/**
  How a worker thread ends: without a cancel it ends with one callback after a bounded
  number of steps, and after a cancel a callback still comes just when the cancel found
  the worker inside a phase or at a callback.
*/
module WorkerEnd {
  import opened Worker

  // ----- Termination -----

  /** Seconds until the wait times out. */
  function TimeLeft(s: State): nat {
    var left := s.timeout - (s.now - s.lastTime);
    if left > 0 then left else 0
  }

  /** A pause of the wait phase: nothing has come, and the time is not over. */
  predicate IsIdlePoll(s: State) {
    s.pc == Sleeping && s.command == WaitResponse
  }

  /**
    How long the environment may still hold the worker up: the segments that may still
    come, and the idle polls that may still pass before the clock advances.
  */
  datatype Budget = Budget(segments: nat, idle: nat)

  /** The environment keeps within its budget. */
  predicate Fair(s: State, b: Budget, env: Env) {
    && (s.pc == Receiving && env.segment ==> b.segments > 0)
    && (IsIdlePoll(s) && b.idle == 0 ==> env.elapsed >= 1)
  }

  /** The budget after a step, when at most `k` idle polls see the same reading of the clock. */
  function After(s: State, k: nat, b: Budget, env: Env): (c: Budget)
    requires k >= 1 && Fair(s, b, env)
    ensures b.idle <= k ==> c.idle <= k
  {
    var segments := if s.pc == Receiving && env.segment then b.segments - 1 else b.segments;
    var before := if env.elapsed >= 1 then k else b.idle;
    Budget(segments, if IsIdlePoll(s) then before - 1 else before)
  }

  /** Idle polls that can still come in the seconds that are left, `idle` of them before the next second. */
  function PollsLeft(k: nat, left: nat, idle: nat): nat {
    if left == 0 then 0 else k * (left - 1) + idle + 1
  }

  /** The polls that still count: the one whose pause comes next is already gone. */
  function CountedPolls(s: State, k: nat, idle: nat): nat {
    var polls := PollsLeft(k, TimeLeft(s), idle);
    if (s.pc == Informing || s.pc == Sleeping) && polls > 0 then polls - 1 else polls
  }

  /** Idle polls that a whole wait can take. */
  function PollsOfWait(k: nat, timeout: nat): nat {
    k * timeout + 1
  }

  /** Steps that one segment can cost: it starts the wait again. */
  function SegmentCost(k: nat, timeout: nat): nat {
    8 * PollsOfWait(k, timeout) + 16
  }

  /** What that many segments can cost. */
  function SegmentsCost(segments: nat, k: nat, timeout: nat): nat {
    segments * SegmentCost(k, timeout)
  }

  /** Which part of the protocol the worker is in, without a cancel. */
  datatype Stage = AtEnd | AtWait | AtStart | AtSend | AtConnect

  function StageAt(pc: Pc, command: Command): Stage {
    match pc
    case Resolving | Resolved(_) | Connecting | Connected => AtConnect
    case Sending | SendFailed => AtSend
    case Sent | Starting => AtStart
    case Receiving | Drained | WaitTimeout | PeerGone => AtWait
    case EndingResponse | EndingError | CallingResponse | CallingError | Exiting | Done | NotStarted => AtEnd
    case Informing | Sleeping | LoopTest | Dispatch =>
      match command
      case NoCommand | ConnectToHost => AtConnect
      case SendRequest => AtSend
      case StartWaiting => AtStart
      case WaitResponse => AtWait
      case InformResponse | InformError | End => AtEnd
  }

  function StageOf(s: State): Stage {
    StageAt(s.pc, s.command)
  }

  /** Steps that are left in a stage, from the part of the loop the worker is in. */
  function Rank(pc: Pc, stage: Stage): nat {
    match pc
    case Informing => if stage == AtConnect then 8 else 6
    case Sleeping => if stage == AtConnect then 7 else if stage == AtEnd then 3 else 5
    case LoopTest => if stage == AtConnect then 6 else if stage == AtEnd then 2 else 4
    case Dispatch => if stage == AtConnect then 5 else if stage == AtEnd then 0 else 3
    case EndingResponse | EndingError => 5
    case CallingResponse | CallingError | Resolving => 4
    case Resolved(_) => 3
    case Connecting | Sending | Receiving => 2
    case Connected | SendFailed | Starting | Drained | PeerGone | Exiting => 1
    case Sent => 7
    case WaitTimeout | Done | NotStarted => 0
  }

  /** A bound on the steps that the worker still takes. */
  function Steps(pc: Pc, command: Command, counted: nat, wait: nat, segmentsCost: nat): nat {
    var stage := StageAt(pc, command);
    Rank(pc, stage)
    + match stage
      case AtEnd => 0
      case AtWait => 10 + segmentsCost + 8 * counted
      case AtStart => 20 + segmentsCost + 8 * wait
      case AtSend => 30 + segmentsCost + 8 * wait
      case AtConnect => 40 + segmentsCost + 8 * wait
  }

  /** The bound within a budget. */
  function Potential(s: State, k: nat, b: Budget): nat {
    var counted, wait := CountedPolls(s, k, b.idle), PollsOfWait(k, s.timeout);
    Steps(s.pc, s.command, counted, wait, SegmentsCost(b.segments, k, s.timeout))
  }

  /** The worker runs alone after the call that sent the request. */
  predicate Undisturbed(s: State) {
    Invariant(s) && s.sender == Returned && !s.cancelled
  }

  lemma UndisturbedStays(s: State, env: Env)
    requires Undisturbed(s) && s.pc != Done
    ensures Undisturbed(Work(s, env)) && Work(s, env).timeout == s.timeout
  {
    assert s.pc != NotStarted by { StartedAfterSend(s); }
    hide Invariant, Work;
    StepKeeps(s, WorkerStep(env));
  }

  lemma StartedAfterSend(s: State)
    requires Invariant(s) && s.sender == Returned
    ensures s.pc != NotStarted && s.command != NoCommand && CommandFits(s)
  {
  }

  predicate Nearer(s: State, k: nat, b: Budget, env: Env)
    requires k >= 1 && Fair(s, b, env)
  {
    Potential(Work(s, env), k, After(s, k, b, env)) < Potential(s, k, b)
  }

  /** The time that passes in a step comes off the time that is left. */
  predicate TimePasses(s: State, env: Env, t: State) {
    TimeLeft(t) == if TimeLeft(s) > env.elapsed then TimeLeft(s) - env.elapsed else 0
  }

  /** The polls that are left do not grow as time passes, and an idle poll is one of them. */
  lemma PollsPass(s: State, k: nat, b: Budget, env: Env, t: State)
    requires k >= 1 && Fair(s, b, env) && b.idle <= k && TimePasses(s, env, t)
    ensures var polls := PollsLeft(k, TimeLeft(t), After(s, k, b, env).idle);
            && polls <= PollsLeft(k, TimeLeft(s), b.idle)
            && (IsIdlePoll(s) && TimeLeft(s) > 0 ==> polls < PollsLeft(k, TimeLeft(s), b.idle))
  {
    var left, later := TimeLeft(s), TimeLeft(t);
    hide TimeLeft;
    if 0 < later < left {
      assert k * (later - 1) <= k * (left - 2);
      assert k * (left - 1) == k * (left - 2) + k;
    }
  }

  /** However much of the wait is left, it has no more polls than a whole one. */
  lemma PollsBounded(k: nat, left: nat, timeout: nat, idle: nat)
    requires left <= timeout && idle <= k
    ensures PollsLeft(k, left, idle) <= PollsOfWait(k, timeout)
  {
    if left > 0 {
      assert k * (left - 1) + k == k * left <= k * timeout;
    }
  }

  // ----- Where a step leads -----

  lemma ResolvingLeads(s: State, env: Env)
    requires s.pc == Resolving
    ensures Work(s, env).pc.Resolved?
  {
    hide ConnectStep, ConnectedStep, SendStep, WaitStep, LoopStep, CallStep;
  }

  lemma ConnectLeads(s: State, env: Env)
    requires InConnect(s.pc)
    ensures var t := Work(s, env);
            && (s.pc == Resolving ==> t.pc.Resolved?)
            && (s.pc == Resolved(true) ==> t.pc == Connecting || (t.pc == Informing && t.command == InformError))
            && (s.pc == Resolved(false) ==> t.pc == Informing && (t.command == s.command || t.command == InformError))
            && (s.pc == Connecting ==> t.pc == Connected || (t.pc == Informing && t.command == InformError))
            && (s.pc == Connected ==> t.pc == Informing && (t.command == SendRequest || t.command == InformError))
  {
    if s.pc.Resolved? {
      ResolvedIs(s, env);
    } else if s.pc == Connecting {
      ConnectingIs(s, env);
    } else if s.pc == Connected {
      ConnectedIs(s, env);
    } else {
      ResolvingLeads(s, env);
    }
    hide Work, InTime;
  }

  lemma SendLeads(s: State, env: Env)
    requires s.pc == Sending || s.pc == SendFailed || s.pc == Sent
    ensures var t := Work(s, env);
            && (s.pc == Sending ==> t.pc == Sent || t.pc == SendFailed)
            && (s.pc == SendFailed ==> t.pc == Informing && t.command == InformError)
            && (s.pc == Sent ==> t.pc == Informing && t.command == StartWaiting)
  {
    hide ResolveStep, ConnectStep, ConnectedStep, WaitStep, LoopStep, CallStep, InTime;
  }

  lemma StartLeads(s: State, env: Env)
    requires s.pc == Starting
    ensures var t := Work(s, env); t.pc == Informing && t.command == WaitResponse && TimeLeft(t) == s.timeout
  {
    hide ResolveStep, ConnectStep, ConnectedStep, WaitStep, LoopStep, CallStep, InTime;
  }

  lemma ReceiveLeads(s: State, env: Env)
    requires s.pc == Receiving
    ensures var t := Work(s, env);
            if env.segment then t.pc == Receiving && TimeLeft(t) == s.timeout
            else (t.pc == Drained || t.pc == PeerGone) && TimePasses(s, env, t)
  {
    hide ResolveStep, ConnectStep, ConnectedStep, SendStep, LoopStep, CallStep;
  }

  lemma WaitLeads(s: State, env: Env)
    requires s.pc == Drained || s.pc == WaitTimeout || s.pc == PeerGone
    ensures var t := Work(s, env);
            && (s.pc == Drained ==> t.pc == WaitTimeout && TimePasses(s, env, t))
            && (s.pc == PeerGone ==> t.pc == Informing && t.command == InformResponse)
            && (s.pc == WaitTimeout ==>
                  t.pc == Informing
                  && (t.command == InformError || (t.command == s.command && TimeLeft(t) > 0 && TimePasses(s, env, t))))
  {
    hide ResolveStep, ConnectStep, ConnectedStep, SendStep, LoopStep, CallStep;
  }

  lemma DispatchLeads(s: State, env: Env)
    requires s.pc == Dispatch
    ensures var t := Work(s, env);
            && t.command == s.command
            && t.pc == (if s.command == ConnectToHost then Resolving else if s.command == SendRequest then Sending
                        else if s.command == StartWaiting then Starting else if s.command == WaitResponse then Receiving
                        else Informing)
  {
    hide ResolveStep, ConnectStep, ConnectedStep, SendStep, WaitStep, CallStep;
  }

  lemma DispatchTakesTime(s: State, env: Env)
    requires s.pc == Dispatch && s.command != ConnectToHost
    ensures TimePasses(s, env, Work(s, env))
  {
    hide ResolveStep, ConnectStep, ConnectedStep, SendStep, WaitStep, CallStep;
  }

  lemma LoopLeads(s: State, env: Env)
    requires s.pc == LoopTest || s.pc == Sleeping
    ensures var t := Work(s, env);
            && t.command == s.command && TimePasses(s, env, t)
            && (s.pc == LoopTest ==> t.pc == if s.command == End then Exiting else Dispatch)
            && (s.pc == Sleeping ==> t.pc == LoopTest)
  {
    hide ResolveStep, ConnectStep, ConnectedStep, SendStep, WaitStep, CallStep;
  }

  /** Between the callback switch and the end of the callback. */
  predicate IsCalling(pc: Pc) {
    pc == EndingResponse || pc == EndingError || pc == CallingResponse || pc == CallingError
  }

  lemma CallLeads(s: State, env: Env)
    requires s.pc == Informing || IsCalling(s.pc)
    ensures var t := Work(s, env);
            && (s.pc == Informing ==>
                  t.command == s.command && TimePasses(s, env, t)
                  && t.pc == (if s.command == InformResponse then EndingResponse
                              else if s.command == InformError then EndingError else Sleeping))
            && (s.pc == EndingResponse || s.pc == EndingError ==>
                  t.command == End && (t.pc == CallingResponse || t.pc == CallingError))
            && (s.pc == CallingResponse || s.pc == CallingError ==> t.command == s.command && t.pc == Sleeping)
  {
    hide ResolveStep, ConnectStep, ConnectedStep, SendStep, WaitStep, LoopStep;
  }

  // ----- Every step brings the end nearer -----

  /** What the lemmas below ask of a step. */
  predicate Within(s: State, k: nat, b: Budget, env: Env) {
    k >= 1 && b.idle <= k && Fair(s, b, env)
  }

  lemma ConnectBringsEnd(s: State, k: nat, b: Budget, env: Env)
    requires CommandFits(s) && Within(s, k, b, env) && InConnect(s.pc)
    ensures Nearer(s, k, b, env)
  {
    assert s.pc == Resolved(false) ==> s.command == InformError || s.command == End;
    hide Work, SegmentsCost, CommandFits, PollsLeft, PollsOfWait;
    ConnectLeads(s, env);
  }

  lemma SendBringsEnd(s: State, k: nat, b: Budget, env: Env)
    requires Within(s, k, b, env) && (s.pc == Sending || s.pc == SendFailed || s.pc == Sent)
    ensures Nearer(s, k, b, env)
  {
    hide Work, SegmentsCost, PollsLeft, PollsOfWait;
    SendLeads(s, env);
  }

  lemma StartBringsEnd(s: State, k: nat, b: Budget, env: Env)
    requires Within(s, k, b, env) && s.pc == Starting
    ensures Nearer(s, k, b, env)
  {
    StartLeads(s, env);
    PollsBounded(k, s.timeout, s.timeout, After(s, k, b, env).idle);
    hide Work, SegmentsCost, PollsLeft, PollsOfWait, TimeLeft;
  }

  lemma OneSegment(segments: nat, k: nat, timeout: nat)
    requires segments > 0
    ensures SegmentsCost(segments, k, timeout)
         == SegmentsCost(segments - 1, k, timeout) + 8 * PollsOfWait(k, timeout) + 16
  {
    hide PollsOfWait;
  }

  lemma SegmentBringsEnd(s: State, k: nat, b: Budget, env: Env)
    requires Within(s, k, b, env) && s.pc == Receiving && env.segment
    ensures Nearer(s, k, b, env)
  {
    ReceiveLeads(s, env);
    PollsBounded(k, s.timeout, s.timeout, After(s, k, b, env).idle);
    OneSegment(b.segments, k, s.timeout);
    hide Work, SegmentsCost, SegmentCost, PollsLeft, PollsOfWait, TimeLeft;
  }

  lemma ReceiveBringsEnd(s: State, k: nat, b: Budget, env: Env)
    requires Within(s, k, b, env) && s.pc == Receiving && !env.segment
    ensures Nearer(s, k, b, env)
  {
    ReceiveLeads(s, env);
    PollsPass(s, k, b, env, Work(s, env));
    hide Work, SegmentsCost, PollsLeft, PollsOfWait, TimeLeft;
  }

  lemma WaitBringsEnd(s: State, k: nat, b: Budget, env: Env)
    requires Within(s, k, b, env) && (s.pc == Drained || s.pc == PeerGone)
    ensures Nearer(s, k, b, env)
  {
    WaitLeads(s, env);
    if s.pc == Drained { PollsPass(s, k, b, env, Work(s, env)); }
    hide Work, SegmentsCost, PollsLeft, PollsOfWait, TimeLeft;
  }

  /** A poll in time is one that counts, and its pause takes it off. */
  lemma AnotherPoll(s: State, k: nat, b: Budget, env: Env, t: State)
    requires Within(s, k, b, env) && s.pc == WaitTimeout && TimePasses(s, env, t) && TimeLeft(t) > 0
    ensures 0 < PollsLeft(k, TimeLeft(t), After(s, k, b, env).idle) <= PollsLeft(k, TimeLeft(s), b.idle)
  {
    PollsPass(s, k, b, env, t);
    hide TimeLeft, After, Fair;
  }

  lemma TimeoutBringsEnd(s: State, k: nat, b: Budget, env: Env)
    requires CommandFits(s) && Within(s, k, b, env) && s.pc == WaitTimeout
    ensures Nearer(s, k, b, env)
  {
    assert s.command == WaitResponse || s.command == End || s.command == InformResponse;
    WaitLeads(s, env);
    var t := Work(s, env);
    hide Work, SegmentsCost, CommandFits, PollsLeft, PollsOfWait, TimeLeft;
    if t.command != InformError && s.command == WaitResponse {
      AnotherPoll(s, k, b, env, t);
    }
  }

  lemma DispatchBringsEnd(s: State, k: nat, b: Budget, env: Env)
    requires Within(s, k, b, env) && s.pc == Dispatch && s.command != NoCommand && StageOf(s) != AtEnd
    ensures Nearer(s, k, b, env)
  {
    if s.command == WaitResponse {
      DispatchToWait(s, k, b, env);
    } else {
      DispatchLeads(s, env);
      hide Work, SegmentsCost, PollsLeft, PollsOfWait, TimeLeft;
    }
  }

  lemma DispatchToWait(s: State, k: nat, b: Budget, env: Env)
    requires Within(s, k, b, env) && s.pc == Dispatch && s.command == WaitResponse
    ensures Nearer(s, k, b, env)
  {
    DispatchLeads(s, env);
    hide Work, SegmentsCost, PollsLeft, PollsOfWait, TimeLeft;
    DispatchTakesTime(s, env);
    PollsPass(s, k, b, env, Work(s, env));
    hide TimePasses;
  }

  lemma LoopBringsEnd(s: State, k: nat, b: Budget, env: Env)
    requires Within(s, k, b, env) && (s.pc == LoopTest || s.pc == Sleeping)
    ensures Nearer(s, k, b, env)
  {
    LoopLeads(s, env);
    PollsPass(s, k, b, env, Work(s, env));
    assert TimeLeft(s) == 0 ==> PollsLeft(k, TimeLeft(Work(s, env)), After(s, k, b, env).idle) == 0;
    hide Work, SegmentsCost, PollsLeft, PollsOfWait, TimeLeft;
  }

  lemma InformBringsEnd(s: State, k: nat, b: Budget, env: Env)
    requires Within(s, k, b, env) && s.pc == Informing
    ensures Nearer(s, k, b, env)
  {
    CallLeads(s, env);
    hide Work, SegmentsCost, PollsLeft, PollsOfWait, TimeLeft;
    PollsPass(s, k, b, env, Work(s, env));
    hide TimePasses;
  }

  lemma CallBringsEnd(s: State, k: nat, b: Budget, env: Env)
    requires Within(s, k, b, env) && (s.pc == CallingResponse || s.pc == CallingError ==> s.command == End)
    requires IsCalling(s.pc)
    ensures Nearer(s, k, b, env)
  {
    CallLeads(s, env);
    hide Work, SegmentsCost, PollsLeft, PollsOfWait, TimeLeft, TimePasses;
  }

  lemma ExitBringsEnd(s: State, k: nat, b: Budget, env: Env)
    requires Within(s, k, b, env) && s.pc == Exiting
    ensures Nearer(s, k, b, env)
  {
    hide ResolveStep, ConnectStep, ConnectedStep, SendStep, WaitStep, CallStep, SegmentsCost, PollsLeft, PollsOfWait;
  }

  /** Outside of a dispatch of END, every step of a started worker brings the end nearer. */
  lemma FittingBringsEnd(s: State, k: nat, b: Budget, env: Env)
    requires CommandFits(s) && s.command != NoCommand && Within(s, k, b, env)
    requires s.pc != NotStarted && s.pc != Done && (s.pc == Dispatch ==> s.command != End)
    ensures Nearer(s, k, b, env)
  {
    assert s.pc == Dispatch ==> StageOf(s) != AtEnd;
    assert s.pc == CallingResponse || s.pc == CallingError ==> s.command == End;
    hide CommandFits, Within, Nearer, StageAt;
    match s.pc
    case Resolving | Resolved(_) | Connecting | Connected => ConnectBringsEnd(s, k, b, env);
    case Sending | SendFailed | Sent => SendBringsEnd(s, k, b, env);
    case Starting => StartBringsEnd(s, k, b, env);
    case Receiving =>
      if env.segment { SegmentBringsEnd(s, k, b, env); } else { ReceiveBringsEnd(s, k, b, env); }
    case Drained | PeerGone => WaitBringsEnd(s, k, b, env);
    case WaitTimeout => TimeoutBringsEnd(s, k, b, env);
    case Dispatch => DispatchBringsEnd(s, k, b, env);
    case LoopTest | Sleeping => LoopBringsEnd(s, k, b, env);
    case Informing => InformBringsEnd(s, k, b, env);
    case EndingResponse | EndingError | CallingResponse | CallingError => CallBringsEnd(s, k, b, env);
    case Exiting => ExitBringsEnd(s, k, b, env);
  }

  /** Without a cancel END is set only for a callback, and the loop test sees it next. */
  lemma EndIsCallback(s: State)
    requires Undisturbed(s) && s.pc == Dispatch
    ensures s.command != End
  {
  }

  /** Every step of the worker brings the end nearer. */
  lemma StepBringsEnd(s: State, k: nat, b: Budget, env: Env)
    requires Undisturbed(s) && s.pc != Done && Within(s, k, b, env)
    ensures Potential(Work(s, env), k, After(s, k, b, env)) < Potential(s, k, b)
  {
    StartedAfterSend(s);
    if s.pc == Dispatch { EndIsCallback(s); }
    FittingBringsEnd(s, k, b, env);
  }

  /** The state after the worker's steps with these answers of the environment. */
  function Worked(s: State, envs: seq<Env>): State
    decreases |envs|
  {
    if envs == [] || s.pc == Done then s else Worked(Work(s, envs[0]), envs[1..])
  }

  /** The environment keeps within its budget at every step. */
  predicate AllFair(s: State, k: nat, b: Budget, envs: seq<Env>)
    requires k >= 1
    decreases |envs|
  {
    envs == [] || s.pc == Done
    || (Fair(s, b, envs[0]) && AllFair(Work(s, envs[0]), k, After(s, k, b, envs[0]), envs[1..]))
  }

  /**
    Without a cancel, when finitely many segments arrive and at most `k` idle polls see
    the same reading of the clock, whatever `k` is, the thread is done, with exactly one
    callback and the request deleted, after at most as many steps as the potential says.
  */
  lemma {:induction false} WorkerEnds(s: State, k: nat, b: Budget, envs: seq<Env>)
    requires Undisturbed(s) && k >= 1 && b.idle <= k
    requires AllFair(s, k, b, envs) && |envs| >= Potential(s, k, b)
    ensures var r := Worked(s, envs); r.pc == Done && |r.callbacks| == 1 && r.deletes == 1
    decreases |envs|
  {
    hide Work, Invariant, Potential, Fair;
    if s.pc == Done {
      DoneWithCallback(s);
    } else if envs == [] {
      PotentialZero(s, k, b);
    } else {
      StepBringsEnd(s, k, b, envs[0]);
      UndisturbedStays(s, envs[0]);
      WorkerEnds(Work(s, envs[0]), k, After(s, k, b, envs[0]), envs[1..]);
    }
  }

  lemma DoneWithCallback(s: State)
    requires Undisturbed(s) && s.pc == Done
    ensures |s.callbacks| == 1 && s.deletes == 1
  {
  }

  lemma PotentialZero(s: State, k: nat, b: Budget)
    requires Undisturbed(s) && Potential(s, k, b) == 0
    ensures s.pc == Done
  {
    hide SegmentsCost, PollsLeft, PollsOfWait;
    StartedAfterSend(s);
  }

  /** In numbers: right after the send, 56 steps and eight for each idle poll of each possible wait are enough. */
  lemma StepsAfterSend(s: State, k: nat, b: Budget)
    requires Undisturbed(s) && s.command == ConnectToHost
    ensures Potential(s, k, b) <= 56 + 8 * (k * s.timeout) + b.segments * (8 * (k * s.timeout) + 24)
  {
    hide Invariant, PollsLeft;
    assert SegmentCost(k, s.timeout) == 8 * (k * s.timeout) + 24;
    ConnectCommand(s);
  }

  /** While the command is to connect, the worker is on its way to the connect phase, in it or at its end. */
  lemma ConnectCommand(s: State)
    requires Undisturbed(s) && s.command == ConnectToHost
    ensures StageOf(s) == AtConnect || StageOf(s) == AtEnd
  {
  }

  /**
    The thread function, with an environment that answers as it likes within its budget:
    the loop ends, with one callback.
  */
  method RunWorker(s0: State, k: nat, b0: Budget, answers: nat -> Env) returns (s: State, steps: nat)
    requires Undisturbed(s0) && k >= 1 && b0.idle <= k
    ensures s.pc == Done && |s.callbacks| == 1 && s.deletes == 1
    ensures steps <= Potential(s0, k, b0)
  {
    s, steps := s0, 0;
    var b := b0;
    while s.pc != Done
      invariant Undisturbed(s) && b.idle <= k
      invariant steps + Potential(s, k, b) <= Potential(s0, k, b0)
      decreases Potential(s, k, b)
    {
      hide Invariant, Potential, Work;
      // an answer is changed only when the budget does not allow it
      var env := answers(steps);
      if s.pc == Receiving && b.segments == 0 {
        env := env.(segment := false);
      }
      if IsIdlePoll(s) && b.idle == 0 && env.elapsed == 0 {
        env := env.(elapsed := 1);
      }
      StepBringsEnd(s, k, b, env);
      UndisturbedStays(s, env);
      s, b := Work(s, env), After(s, k, b, env);
      steps := steps + 1;
    }
    DoneWithCallback(s);
  }

  // ----- The clock has to advance -----

  /** Waiting with nothing received and time left, at any place of the polling loop. */
  predicate IsPolling(s: State) {
    && s.command == WaitResponse && !s.hasFinishedResponse && InTime(s)
    && (Idle(s.pc) || s.pc == Receiving || s.pc == Drained || s.pc == WaitTimeout)
  }

  /** An answer with which nothing comes and the clock stands still. */
  const STANDSTILL := Env(true, false, false, 0)

  lemma PhaseGoesOn(s: State)
    requires IsPolling(s) && !Idle(s.pc)
    ensures IsPolling(Work(s, STANDSTILL))
  {
    hide ResolveStep, ConnectStep, ConnectedStep, SendStep, LoopStep, CallStep;
  }

  lemma PauseGoesOn(s: State)
    requires IsPolling(s) && Idle(s.pc)
    ensures IsPolling(Work(s, STANDSTILL))
  {
    hide ResolveStep, ConnectStep, ConnectedStep, SendStep, WaitStep;
  }

  lemma PollGoesOn(s: State)
    requires IsPolling(s)
    ensures IsPolling(Work(s, STANDSTILL))
  {
    hide Work;
    if Idle(s.pc) { PauseGoesOn(s); } else { PhaseGoesOn(s); }
  }

  /** A budget is needed: as long as the clock stands still, a polling worker never ends. */
  lemma {:induction false} NoEndWithoutClock(s: State, envs: seq<Env>)
    requires IsPolling(s) && forall i | 0 <= i < |envs| :: envs[i] == STANDSTILL
    ensures Worked(s, envs).pc != Done
    decreases |envs|
  {
    hide Work, IsPolling;
    assert s.pc != Done by { PollingIsNotDone(s); }
    if envs != [] {
      PollGoesOn(s);
      NoEndWithoutClock(Work(s, envs[0]), envs[1..]);
    }
  }

  lemma PollingIsNotDone(s: State)
    requires IsPolling(s)
    ensures s.pc != Done
  {
  }

  // ----- Cancel -----

  /** The worker is inside a phase, or on its way to a callback. */
  predicate InPhase(pc: Pc) {
    !Idle(pc) && pc != Exiting && pc != Done && pc != NotStarted
  }

  /** A cancel has taken place and no callback. */
  predicate AfterCancel(s: State) {
    Invariant(s) && s.cancelled && s.sender == Returned && s.callbacks == []
  }

  lemma InformingStays(s: State, env: Env)
    requires s.callbacks == [] && s.command == End && s.pc == Informing
    ensures var t := Work(s, env); t.callbacks == [] && t.command == End && t.pc == Sleeping
  {
    hide ResolveStep, ConnectStep, ConnectedStep, SendStep, WaitStep, LoopStep;
  }

  predicate IsLooping(pc: Pc) {
    pc == LoopTest || pc == Dispatch || pc == Sleeping || pc == Exiting
  }

  lemma LoopCallsNothing(s: State, env: Env)
    requires IsLooping(s.pc)
    ensures Work(s, env).callbacks == s.callbacks
  {
    hide LoopStep, ResolveStep, ConnectStep, ConnectedStep, SendStep, WaitStep, CallStep;
  }

  lemma ExitLeads(s: State, env: Env)
    requires s.pc == Exiting
    ensures Work(s, env).pc == Done && Work(s, env).command == s.command
  {
    hide ResolveStep, ConnectStep, ConnectedStep, SendStep, WaitStep, CallStep;
  }

  lemma LoopStays(s: State, env: Env)
    requires s.callbacks == [] && s.command == End && IsLooping(s.pc)
    ensures var t := Work(s, env); t.callbacks == [] && t.command == End && !InPhase(t.pc)
  {
    LoopCallsNothing(s, env);
    hide Work;
    if s.pc == Exiting {
      ExitLeads(s, env);
    } else if s.pc == Dispatch {
      DispatchLeads(s, env);
    } else {
      LoopLeads(s, env);
    }
  }

  lemma IdleStays(s: State, env: Env)
    requires s.callbacks == [] && s.command == End && (Idle(s.pc) || s.pc == Exiting)
    ensures var t := Work(s, env); t.callbacks == [] && t.command == End && !InPhase(t.pc)
  {
    hide Work;
    if s.pc == Informing { InformingStays(s, env); } else { LoopStays(s, env); }
  }

  lemma CancelStays(s: State, a: Action)
    requires s.cancelled && s.sender == Returned && s.callbacks == [] && !InPhase(s.pc) && s.command == End
    requires Enabled(s, a)
    ensures var t := Step(s, a);
            t.cancelled && t.sender == Returned && t.callbacks == [] && !InPhase(t.pc) && t.command == End
  {
    IdleStays(s, a.env);
    hide Work;
  }

  /** A cancel that finds the worker between phases is honoured: no callback follows. */
  lemma {:induction false} CancelHonoured(s: State, actions: seq<Action>)
    requires AfterCancel(s) && !InPhase(s.pc) && s.command == End && IsRun(s, actions)
    ensures Final(s, actions).callbacks == []
    decreases |actions|
  {
    hide Step, Enabled, Invariant, InPhase;
    if actions != [] {
      CancelStays(s, actions[0]);
      StepKeeps(s, actions[0]);
      CancelHonoured(Step(s, actions[0]), actions[1..]);
    }
  }

  /** The worker is inside a phase, or a phase has replaced the END of the cancel. */
  predicate Overwrites(s: State) {
    InPhase(s.pc) || (Idle(s.pc) && s.command != End)
  }

  /** An environment in which every phase fails and time runs out. */
  function Adverse(s: State): Env {
    var behind := if s.now < s.lastTime then s.lastTime - s.now else 0;
    Env(false, false, false, s.timeout + behind + 1)
  }

  /** The callback has come, or is still to come; the cancel and the sender are as before. */
  predicate GoesOn(s: State, t: State) {
    (|t.callbacks| == 1 || (t.callbacks == [] && Overwrites(t))) && t.cancelled == s.cancelled && t.sender == s.sender
  }

  lemma ConnectGoesOn(s: State)
    requires InConnect(s.pc) && s.callbacks == []
    ensures GoesOn(s, Work(s, Adverse(s)))
  {
    hide SendStep, WaitStep, LoopStep, CallStep, SegmentCost, SegmentsCost;
    assert s.pc != Connecting ==> !InTime(s.(now := s.now + Adverse(s).elapsed));
  }

  lemma WaitGoesOn(s: State)
    requires s.callbacks == [] && (s.pc == Receiving || s.pc == Drained || s.pc == WaitTimeout || s.pc == PeerGone)
    ensures GoesOn(s, Work(s, Adverse(s)))
  {
    hide ResolveStep, ConnectStep, ConnectedStep, SendStep, LoopStep, CallStep;
  }

  lemma SendGoesOn(s: State)
    requires s.callbacks == [] && (s.pc == Sending || s.pc == Sent || s.pc == SendFailed || s.pc == Starting)
    ensures GoesOn(s, Work(s, Adverse(s)))
  {
    hide ResolveStep, ConnectStep, ConnectedStep, WaitStep, LoopStep, CallStep, InTime;
  }

  lemma DispatchGoesOn(s: State)
    requires s.callbacks == [] && s.pc == Dispatch && s.command != End
    ensures GoesOn(s, Work(s, Adverse(s)))
  {
    hide Adverse, ResolveStep, ConnectStep, ConnectedStep, SendStep, WaitStep, CallStep, InTime;
  }

  lemma IdleGoesOn(s: State)
    requires s.callbacks == [] && Idle(s.pc) && s.pc != Dispatch && s.command != End
    ensures GoesOn(s, Work(s, Adverse(s)))
  {
    hide Adverse, ResolveStep, ConnectStep, ConnectedStep, SendStep, WaitStep, InTime;
  }

  lemma CallGoesOn(s: State)
    requires s.callbacks == [] && IsCalling(s.pc)
    ensures GoesOn(s, Work(s, Adverse(s)))
  {
    hide ResolveStep, ConnectStep, ConnectedStep, SendStep, WaitStep, LoopStep, InTime;
  }

  lemma OverwritingGoesOn(s: State)
    requires s.callbacks == [] && Overwrites(s)
    ensures GoesOn(s, Work(s, Adverse(s)))
  {
    hide Work, Adverse, GoesOn;
    if InConnect(s.pc) {
      ConnectGoesOn(s);
    } else if s.pc == Dispatch {
      DispatchGoesOn(s);
    } else if Idle(s.pc) {
      IdleGoesOn(s);
    } else {
      match s.pc
      case EndingResponse | EndingError | CallingResponse | CallingError => CallGoesOn(s);
      case Sending | Sent | SendFailed | Starting => SendGoesOn(s);
      case _ => WaitGoesOn(s);
    }
  }

  lemma OverwritingBringsEnd(s: State, b: Budget)
    requires AfterCancel(s) && Overwrites(s)
    requires b.segments == 0 && b.idle <= 1
    ensures var c := After(s, 1, b, Adverse(s));
            c.segments == 0 && c.idle <= 1 && Potential(Work(s, Adverse(s)), 1, c) < Potential(s, 1, b)
  {
    StartedAfterSend(s);
    FittingBringsEnd(s, 1, b, Adverse(s));
  }

  lemma OverwritingStep(s: State)
    requires AfterCancel(s) && Overwrites(s)
    ensures var t := Step(s, WorkerStep(Adverse(s)));
            Invariant(t) && t.cancelled && t.sender == Returned && Enabled(s, WorkerStep(Adverse(s)))
  {
    var a := WorkerStep(Adverse(s));
    assert Enabled(s, a) by { StartedAfterSend(s); }
    hide Invariant, Work;
    StepKeeps(s, a);
    OverwritingGoesOn(s);
  }

  /** After a cancel that found the worker inside a phase, a callback can still come. */
  lemma CancelOverwritten(s: State) returns (actions: seq<Action>)
    requires AfterCancel(s) && Overwrites(s)
    ensures IsRun(s, actions) && |Final(s, actions).callbacks| == 1
  {
    actions := OverwrittenWithin(s, Budget(0, 0));
  }

  lemma {:induction false} OverwrittenWithin(s: State, b: Budget) returns (actions: seq<Action>)
    requires AfterCancel(s) && Overwrites(s) && b.segments == 0 && b.idle <= 1
    ensures IsRun(s, actions) && |Final(s, actions).callbacks| == 1
    decreases Potential(s, 1, b)
  {
    hide Work, Invariant, Potential, Overwrites, Enabled, Adverse;
    var a := WorkerStep(Adverse(s));
    var t := Step(s, a);
    OverwritingStep(s);
    OverwritingGoesOn(s);
    var rest: seq<Action> := [];
    if t.callbacks == [] {
      OverwritingBringsEnd(s, b);
      rest := OverwrittenWithin(t, After(s, 1, b, Adverse(s)));
    }
    assert IsRun(t, rest) && |Final(t, rest).callbacks| == 1;
    actions := [a] + rest;
    assert actions[0] == a && actions[1..] == rest;
  }

  lemma OneMore(s: State, a: Action, rest: seq<Action>)
    requires Enabled(s, a) && IsRun(Step(s, a), rest)
    ensures IsRun(s, [a] + rest) && Final(s, [a] + rest) == Final(Step(s, a), rest)
  {
    assert ([a] + rest)[1..] == rest;
  }

  /** It does happen: a cancel while the host is being resolved, and a callback after it. */
  lemma CallbackAfterCancel(timeout: nat) returns (before: seq<Action>, after: seq<Action>)
    ensures IsRun(Initial(timeout), before) && MayCancel(Final(Initial(timeout), before))
    ensures var c := Cancelled(Final(Initial(timeout), before)); IsRun(c, after) && |Final(c, after).callbacks| == 1
  {
    var step := WorkerStep(STANDSTILL);
    before := [SenderStep, SenderStep, SenderStep, step, step];
    var s := Initial(timeout);
    var s1 := Sender(s);
    var s2 := Sender(s1);
    var s3 := Sender(s2);
    var s4 := Work(s3, STANDSTILL);
    var s5 := Work(s4, STANDSTILL);
    assert s3.pc == LoopTest && s4.pc == Dispatch && s5.pc == Resolving;
    assert s5.sender == Returned && !s5.cancelled && s5.callbacks == [];
    hide Sender, Work;
    OneMore(s4, step, []);
    OneMore(s3, step, [step]);
    OneMore(s2, SenderStep, [step, step]);
    OneMore(s1, SenderStep, [SenderStep, step, step]);
    OneMore(s, SenderStep, [SenderStep, SenderStep, step, step]);
    InitialInvariant(timeout);
    RunKeeps(s, before);
    CancelKeeps(s5);
    after := CancelOverwritten(Cancelled(s5));
  }

  /**
    When a cancel is made under the documented rules, no callback follows in any run just
    when it found the worker between phases.
  */
  lemma CancelEffective(timeout: nat, before: seq<Action>)
    requires IsRun(Initial(timeout), before) && MayCancel(Final(Initial(timeout), before))
    ensures var s := Final(Initial(timeout), before);
            var c := Cancelled(s);
            !InPhase(s.pc) <==> (forall after | IsRun(c, after) :: Final(c, after).callbacks == [])
  {
    var s := Final(Initial(timeout), before);
    InitialInvariant(timeout);
    RunKeeps(Initial(timeout), before);
    CancelKeeps(s);
    var c := Cancelled(s);
    assert AfterCancel(c) && c.command == End && c.pc == s.pc;
    hide Invariant, Step, Enabled;
    if InPhase(s.pc) {
      var after := CancelOverwritten(c);
      assert IsRun(c, after) && Final(c, after).callbacks != [];
    } else {
      forall after | IsRun(c, after) ensures Final(c, after).callbacks == [] {
        CancelHonoured(c, after);
      }
    }
  }
}
