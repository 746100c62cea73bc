/**
  The worker thread of a request, the call that starts it and the call that cancels it,
  as interleaved steps.  A step is what a thread does up to and including one access to
  the command under its mutex; what sockets, resolver and clock do is chosen by the
  environment.
*/
module Worker {

  datatype Command =
    | NoCommand
    | ConnectToHost
    | SendRequest
    | StartWaiting
    | WaitResponse
    | InformResponse
    | InformError
    | End

  datatype ErrorCode = NoError | FailedConnect | TimedOut

  datatype Callback = OnResponse(finished: bool, peerClosed: bool) | OnError(code: ErrorCode)

  /** Where the worker thread is. */
  datatype Pc =
    | NotStarted
    | LoopTest          // about to read the command of the loop test
    | Dispatch          // about to read the command of the phase switch
    | Resolving         // connect phase: resolving the host
    | Resolved(ok: bool)
    | Connecting        // connect phase: trying addresses
    | Connected         // connect phase: about to set its last command
    | Sending           // send phase
    | Sent
    | SendFailed
    | Starting          // start-waiting phase
    | Receiving         // wait phase: inside the receive loop
    | Drained           // wait phase: nothing more to receive for now
    | WaitTimeout       // wait phase: about to check the time
    | PeerGone          // wait phase: the connection is gone
    | Informing         // about to read the command of the callback switch
    | EndingResponse    // about to set END before the response callback
    | EndingError
    | CallingResponse
    | CallingError
    | Sleeping
    | Exiting
    | Done

  /** Where nhr_request_send is. */
  datatype SendPc = Creating | Spawned | Assigned | Returned

  datatype State = State(
    command: Command,
    error: ErrorCode,
    pc: Pc,
    sender: SendPc,
    threadSet: bool,        // work_thread is not NULL
    socketOpen: bool,
    hasFinishedResponse: bool,
    peerClosed: bool,
    now: int,
    lastTime: int,
    timeout: nat,
    cancelled: bool,
    callbacks: seq<Callback>,
    connects: nat,          // connect phases entered
    sends: nat,             // send phases entered
    deletes: nat)           // times the request was deleted

  /** What the environment answers to the worker's next step, and how much time passes in it. */
  datatype Env = Env(ok: bool, segment: bool, finishes: bool, elapsed: nat)

  datatype Action = SenderStep | WorkerStep(env: Env) | Cancel

  function Initial(timeout: nat): State {
    State(NoCommand, NoError, NotStarted, Creating, false, false, false, false, 0, 0, timeout, false, [], 0, 0, 0)
  }

  // ----- Steps -----

  function Sender(s: State): State {
    match s.sender
    case Creating => s.(command := NoCommand, pc := LoopTest, sender := Spawned)
    case Spawned => s.(threadSet := true, sender := Assigned)
    case Assigned => s.(command := ConnectToHost, sender := Returned)
    case Returned => s
  }

  /** What the worker never touches. */
  predicate Keeps(s: State, t: State) {
    t.sender == s.sender && t.cancelled == s.cancelled && t.timeout == s.timeout
  }

  predicate InTime(s: State) {
    s.now - s.lastTime < s.timeout
  }

  /** nhr_request_check_timeout, and where to go on when there is time left. */
  function CheckTimeout(s: State, next: Pc): State {
    if InTime(s) then s.(pc := next) else Expire(s)
  }

  function Expire(s: State): State {
    s.(error := TimedOut, command := InformError, pc := Informing)
  }

  function Fail(s: State): State {
    s.(error := FailedConnect, command := InformError, pc := Informing)
  }

  /** The connect phase up to the check of the time after resolving the host. */
  function ResolveStep(s: State, env: Env): (t: State)
    ensures Keeps(s, t)
  {
    match s.pc
    case Resolving =>
      if env.ok then s.(pc := Resolved(true))
      else s.(error := FailedConnect, command := InformError, pc := Resolved(false))
    case Resolved(false) => CheckTimeout(s, Informing)
    case _ => CheckTimeout(s, Connecting)
  }

  /**
    Trying addresses; `before` is the time at the end of the step before this one, in
    which the time before the last attempt counts as passing.
  */
  function ConnectStep(s: State, before: int, env: Env): (t: State)
    ensures Keeps(s, t)
  {
    var attempt := s.(lastTime := before);
    if env.ok then attempt.(pc := Connected, socketOpen := true) else CheckTimeout(attempt, Connected)
  }

  /** The end of the connect phase. */
  function ConnectedStep(s: State): (t: State)
    ensures Keeps(s, t)
  {
    if s.socketOpen then s.(command := SendRequest, pc := Informing) else Fail(s)
  }

  /** A step of the send phase, or of the one that starts waiting. */
  function SendStep(s: State, env: Env): (t: State)
    ensures Keeps(s, t)
  {
    match s.pc
    case Sending =>
      if env.ok then s.(error := NoError, pc := Sent) else s.(error := NoError, socketOpen := false, pc := SendFailed)
    case Sent => s.(command := StartWaiting, pc := Informing)
    case SendFailed => if InTime(s) then Fail(s) else Expire(s)
    case _ => s.(lastTime := s.now, command := WaitResponse, pc := Informing)
  }

  function WaitStep(s: State, env: Env): (t: State)
    ensures Keeps(s, t)
  {
    match s.pc
    case Receiving =>
      if env.segment then s.(lastTime := s.now, hasFinishedResponse := s.hasFinishedResponse || env.finishes)
      else if env.ok then s.(pc := Drained)
      else s.(socketOpen := false, peerClosed := true, pc := PeerGone)
    case Drained => s.(pc := WaitTimeout, command := if s.hasFinishedResponse then InformResponse else s.command)
    case WaitTimeout => CheckTimeout(s, Informing)
    case _ => s.(command := InformResponse, pc := Informing)
  }

  /** The loop around the phases, and the end of the thread. */
  function LoopStep(s: State): (t: State)
    ensures Keeps(s, t) && t.callbacks == s.callbacks
  {
    match s.pc
    case LoopTest => s.(pc := if s.command == End then Exiting else Dispatch)
    case Dispatch =>
      (match s.command
       case ConnectToHost => s.(pc := Resolving, lastTime := s.now, connects := s.connects + 1)
       case SendRequest => s.(pc := Sending, sends := s.sends + 1)
       case StartWaiting => s.(pc := Starting)
       case WaitResponse => s.(pc := Receiving)
       case _ => s.(pc := Informing))
    case Sleeping => s.(pc := LoopTest)
    case _ => s.(threadSet := false, socketOpen := false, deletes := s.deletes + 1, pc := Done)
  }

  /** The switch that calls back, with END set before the callback. */
  function CallStep(s: State): (t: State)
    ensures Keeps(s, t)
  {
    match s.pc
    case Informing =>
      s.(pc := if s.command == InformResponse then EndingResponse
               else if s.command == InformError then EndingError else Sleeping)
    case EndingResponse => s.(command := End, pc := CallingResponse)
    case EndingError => s.(command := End, pc := CallingError)
    case CallingResponse =>
      s.(callbacks := s.callbacks + [OnResponse(s.hasFinishedResponse, s.peerClosed)], pc := Sleeping)
    case _ => s.(callbacks := s.callbacks + [OnError(s.error)], pc := Sleeping)
  }

  /** One step of the worker thread, after the time that passes in it. */
  function Work(s: State, env: Env): (t: State)
    ensures Keeps(s, t)
  {
    var later := s.(now := s.now + env.elapsed);
    match s.pc
    case NotStarted | Done => s
    case Resolving | Resolved(_) => ResolveStep(later, env)
    case Connecting => ConnectStep(later, s.now, env)
    case Connected => ConnectedStep(later)
    case Sending | Sent | SendFailed | Starting => SendStep(later, env)
    case Receiving | Drained | WaitTimeout | PeerGone => WaitStep(later, env)
    case LoopTest | Dispatch | Sleeping | Exiting => LoopStep(later)
    case Informing | EndingResponse | EndingError | CallingResponse | CallingError => CallStep(later)
  }

  /** The documented rules: once, after the request was sent, and before any callback. */
  predicate MayCancel(s: State) {
    s.sender == Returned && !s.cancelled && s.callbacks == []
  }

  /** nhr_request_cancel: with a thread running it only sets the command; without one it deletes the request. */
  function Cancelled(s: State): State {
    if s.threadSet then s.(command := End, cancelled := true)
    else s.(socketOpen := false, deletes := s.deletes + 1, cancelled := true)
  }

  predicate Enabled(s: State, a: Action) {
    match a
    case SenderStep => s.sender != Returned
    case WorkerStep(_) => s.pc != NotStarted && s.pc != Done
    case Cancel => MayCancel(s)
  }

  function Step(s: State, a: Action): State {
    match a
    case SenderStep => Sender(s)
    case WorkerStep(env) => Work(s, env)
    case Cancel => Cancelled(s)
  }

  /** Every action is taken only when its thread can take it. */
  predicate IsRun(s: State, actions: seq<Action>)
    decreases |actions|
  {
    actions == [] || (Enabled(s, actions[0]) && IsRun(Step(s, actions[0]), actions[1..]))
  }

  function Final(s: State, actions: seq<Action>): State
    decreases |actions|
  {
    if actions == [] then s else Final(Step(s, actions[0]), actions[1..])
  }

  // ----- Safety -----

  /** An error callback has an error; a response callback, a finished response or a closed connection. */
  predicate Justified(c: Callback) {
    match c
    case OnError(code) => code != NoError
    case OnResponse(finished, peerClosed) => finished || peerClosed
  }

  /** What the documentation and the design promise of every state. */
  predicate Safe(s: State) {
    && |s.callbacks| <= 1
    && s.connects <= 1 && s.sends <= 1
    && (forall i | 0 <= i < |s.callbacks| :: Justified(s.callbacks[i]))
    && s.deletes == (if s.pc == Done then 1 else 0)
  }

  predicate InConnect(pc: Pc) {
    pc.Resolving? || pc.Resolved? || pc.Connecting? || pc.Connected?
  }

  /** Outside of the phases. */
  predicate Idle(pc: Pc) {
    pc == LoopTest || pc == Dispatch || pc == Informing || pc == Sleeping
  }

  /** Commands that the worker may find, by where it is; END may come from a cancel at any time. */
  predicate CommandFits(s: State) {
    match s.pc
    case NotStarted => s.command == NoCommand
    case LoopTest | Dispatch | Sleeping => s.command != InformResponse && s.command != InformError
    case Informing => true
    case Resolving | Resolved(true) | Connecting | Connected => s.command == ConnectToHost || s.command == End
    case Resolved(false) => (s.command == InformError || s.command == End) && s.error != NoError
    case Sending | Sent | SendFailed => s.command == SendRequest || s.command == End
    case Starting => s.command == StartWaiting || s.command == End
    case Receiving | Drained | PeerGone => s.command == WaitResponse || s.command == End
    case WaitTimeout =>
      s.command == WaitResponse || s.command == End || (s.command == InformResponse && s.hasFinishedResponse)
    case EndingResponse => s.hasFinishedResponse || s.peerClosed
    case EndingError => s.error != NoError
    case CallingResponse => s.command == End && (s.hasFinishedResponse || s.peerClosed)
    case CallingError => s.command == End && s.error != NoError
    case Exiting | Done => s.command == End
  }

  /** How many phases have been entered, by the command that is due or the phase that runs. */
  predicate PhasesFit(s: State) {
    && s.connects <= 1 && s.sends <= s.connects
    && (s.pc == NotStarted ==> s.connects == 0)
    && (Idle(s.pc) ==>
          match s.command
          case NoCommand | ConnectToHost => s.connects == 0
          case SendRequest => s.connects == 1 && s.sends == 0
          case InformResponse => s.hasFinishedResponse || s.peerClosed
          case InformError => s.error != NoError
          case _ => true)
    && (InConnect(s.pc) ==> s.connects == 1 && s.sends == 0)
    && (s.pc == PeerGone ==> s.peerClosed)
  }

  /** The callback, the end of the thread and the cancel. */
  predicate EndFits(s: State) {
    && |s.callbacks| <= 1
    && (s.callbacks != [] ==>
          s.command == End && (s.pc == Sleeping || s.pc == LoopTest || s.pc == Exiting || s.pc == Done))
    && (s.command == End && s.callbacks == [] ==> s.cancelled || s.pc == CallingResponse || s.pc == CallingError)
    && (s.pc == Exiting || s.pc == Done ==> s.cancelled || s.callbacks != [])
    && (s.threadSet <==> (s.sender == Assigned || s.sender == Returned) && s.pc != Done)
    && (s.sender == Creating <==> s.pc == NotStarted)
    && (s.sender != Returned ==> s.command == NoCommand && !s.cancelled)
    && (s.sender != Returned ==> s.pc == NotStarted || Idle(s.pc))
    && (s.sender == Returned ==> s.command != NoCommand)
  }

  predicate Invariant(s: State) {
    Safe(s) && CommandFits(s) && PhasesFit(s) && EndFits(s)
  }

  lemma InitialInvariant(timeout: nat)
    ensures Invariant(Initial(timeout))
  {
  }

  lemma SenderKeeps(s: State)
    requires Invariant(s) && s.sender != Returned
    ensures Invariant(Sender(s))
  {
  }

  lemma CancelKeeps(s: State)
    requires Invariant(s) && MayCancel(s)
    ensures Invariant(Cancelled(s)) && s.threadSet
  {
  }

  /** A phase of this state can go over to the error callback. */
  predicate MayInform(s: State) {
    && Safe(s) && s.callbacks == [] && s.deletes == 0
    && s.sends <= s.connects && s.sender == Returned && s.threadSet
  }

  lemma PhaseMayInform(s: State, now: int, lastTime: int)
    requires Invariant(s) && s.sender == Returned && !Idle(s.pc) && s.callbacks == [] && s.pc != Exiting && s.pc != Done
    ensures MayInform(s.(now := now, lastTime := lastTime))
  {
    hide Justified;
  }

  lemma FailKeeps(s: State)
    requires MayInform(s)
    ensures Invariant(Fail(s))
  {
    hide Justified;
  }

  lemma ExpireKeeps(s: State)
    requires MayInform(s)
    ensures Invariant(Expire(s))
  {
    hide Justified;
  }

  /** The same apart from the place of the worker, the clock, the socket and the error. */
  predicate Moved(s: State, t: State) {
    t == s.(pc := t.pc, now := t.now, lastTime := t.lastTime, socketOpen := t.socketOpen, error := t.error)
  }

  /** Going on inside the connect phase or the send phase. */
  lemma MoveKeeps(s: State, t: State)
    requires Invariant(s) && Moved(s, t)
    requires
      || ((s.pc == Resolving || s.pc == Resolved(true) || s.pc == Connecting)
          && (t.pc == Resolved(true) || t.pc == Connecting || t.pc == Connected))
      || (s.pc == Sending && (t.pc == Sent || t.pc == SendFailed))
    ensures Invariant(t)
  {
    hide Justified;
  }

  lemma ResolvingKeeps(s: State, env: Env)
    requires Invariant(s) && s.pc == Resolving
    ensures Invariant(Work(s, env))
  {
    if env.ok {
      ResolvingIs(s, env);
      hide Invariant, Work;
      MoveKeeps(s, s.(now := s.now + env.elapsed, pc := Resolved(true)));
    } else {
      hide SendStep, WaitStep, LoopStep, CallStep, ConnectStep, ConnectedStep, Justified;
    }
  }

  lemma ResolvingIs(s: State, env: Env)
    requires s.pc == Resolving && env.ok
    ensures Work(s, env) == s.(now := s.now + env.elapsed, pc := Resolved(true))
  {
    hide SendStep, WaitStep, LoopStep, CallStep, ConnectStep, ConnectedStep;
  }

  lemma ResolvedIs(s: State, env: Env)
    requires s.pc.Resolved?
    ensures var t := s.(now := s.now + env.elapsed);
            Work(s, env) == if !InTime(t) then Expire(t) else t.(pc := if s.pc.ok then Connecting else Informing)
  {
    hide SendStep, WaitStep, LoopStep, CallStep, ConnectStep, ConnectedStep, InTime, Expire;
  }

  lemma ResolvedKeeps(s: State, env: Env)
    requires Invariant(s) && s.pc.Resolved?
    ensures Invariant(Work(s, env))
  {
    var t := s.(now := s.now + env.elapsed);
    ResolvedIs(s, env);
    PhaseMayInform(s, t.now, t.lastTime);
    ExpireKeeps(t);
    if s.pc.ok {
      hide Invariant, Work, Expire;
      MoveKeeps(s, t.(pc := Connecting));
    } else {
      UnresolvedInforms(s, t.now);
      hide Invariant, Work, Expire;
    }
  }

  lemma UnresolvedInforms(s: State, now: int)
    requires Invariant(s) && s.pc == Resolved(false)
    ensures Invariant(s.(now := now, pc := Informing))
  {
    hide Justified;
  }

  lemma ConnectingIs(s: State, env: Env)
    requires s.pc == Connecting
    ensures var t := s.(now := s.now + env.elapsed, lastTime := s.now);
            Work(s, env) == if env.ok then t.(pc := Connected, socketOpen := true)
                            else if InTime(t) then t.(pc := Connected) else Expire(t)
  {
    hide SendStep, WaitStep, LoopStep, CallStep, ResolveStep, ConnectedStep, InTime, Expire;
  }

  lemma ConnectingKeeps(s: State, env: Env)
    requires Invariant(s) && s.pc == Connecting
    ensures Invariant(Work(s, env))
  {
    var t := s.(now := s.now + env.elapsed, lastTime := s.now);
    ConnectingIs(s, env);
    PhaseMayInform(s, t.now, t.lastTime);
    hide Invariant, Work, Expire, InTime;
    ExpireKeeps(t);
    MoveKeeps(s, t.(pc := Connected, socketOpen := true));
    MoveKeeps(s, t.(pc := Connected));
  }

  lemma ConnectedIs(s: State, env: Env)
    requires s.pc == Connected
    ensures var t := s.(now := s.now + env.elapsed);
            Work(s, env) == if s.socketOpen then t.(command := SendRequest, pc := Informing) else Fail(t)
  {
    hide SendStep, WaitStep, LoopStep, CallStep, ResolveStep, ConnectStep, Fail;
  }

  lemma ConnectedInforms(s: State, now: int)
    requires Invariant(s) && s.pc == Connected
    ensures Invariant(s.(now := now, command := SendRequest, pc := Informing))
  {
    hide Justified;
  }

  lemma ConnectedKeeps(s: State, env: Env)
    requires Invariant(s) && s.pc == Connected
    ensures Invariant(Work(s, env))
  {
    var t := s.(now := s.now + env.elapsed);
    ConnectedIs(s, env);
    PhaseMayInform(s, t.now, t.lastTime);
    hide Invariant, Work, Fail;
    FailKeeps(t);
    ConnectedInforms(s, t.now);
  }

  lemma SendingIs(s: State, env: Env)
    requires s.pc == Sending
    ensures var t := s.(now := s.now + env.elapsed, error := NoError);
            Work(s, env) == if env.ok then t.(pc := Sent) else t.(socketOpen := false, pc := SendFailed)
  {
    hide ConnectStep, ConnectedStep, WaitStep, LoopStep, CallStep, ResolveStep;
  }

  lemma SendingKeeps(s: State, env: Env)
    requires Invariant(s) && s.pc == Sending
    ensures Invariant(Work(s, env))
  {
    SendingIs(s, env);
    hide Invariant, Work;
    var t := s.(now := s.now + env.elapsed, error := NoError);
    MoveKeeps(s, t.(pc := Sent));
    MoveKeeps(s, t.(socketOpen := false, pc := SendFailed));
  }

  lemma SentKeeps(s: State, env: Env)
    requires Invariant(s) && (s.pc == Sent || s.pc == Starting)
    ensures Invariant(Work(s, env))
  {
    hide ConnectStep, ConnectedStep, WaitStep, LoopStep, CallStep, ResolveStep, Justified;
  }

  lemma SendFailedIs(s: State, env: Env)
    requires s.pc == SendFailed
    ensures var t := s.(now := s.now + env.elapsed); Work(s, env) == if InTime(t) then Fail(t) else Expire(t)
  {
    hide ConnectStep, ConnectedStep, WaitStep, LoopStep, CallStep, ResolveStep, InTime, Fail, Expire;
  }

  lemma SendFailedKeeps(s: State, env: Env)
    requires Invariant(s) && s.pc == SendFailed
    ensures Invariant(Work(s, env))
  {
    var t := s.(now := s.now + env.elapsed);
    SendFailedIs(s, env);
    PhaseMayInform(s, t.now, t.lastTime);
    hide Invariant, Work, Fail, Expire, InTime;
    FailKeeps(t);
    ExpireKeeps(t);
  }

  lemma PeerGoneKeeps(s: State, env: Env)
    requires Invariant(s) && s.pc == PeerGone
    ensures Invariant(Work(s, env))
  {
    hide ResolveStep, ConnectStep, ConnectedStep, SendStep, LoopStep, CallStep, Justified;
  }

  lemma ReceiveKeeps(s: State, env: Env)
    requires Invariant(s) && s.pc == Receiving
    ensures Invariant(Work(s, env))
  {
    hide ResolveStep, ConnectStep, ConnectedStep, SendStep, LoopStep, CallStep, Justified;
  }

  lemma DrainedKeeps(s: State, env: Env)
    requires Invariant(s) && s.pc == Drained
    ensures Invariant(Work(s, env))
  {
    hide ResolveStep, ConnectStep, ConnectedStep, SendStep, LoopStep, CallStep, Justified;
  }

  lemma WaitIs(s: State, env: Env)
    requires s.pc == WaitTimeout
    ensures var t := s.(now := s.now + env.elapsed);
            Work(s, env) == if InTime(t) then t.(pc := Informing) else Expire(t)
  {
    hide ResolveStep, ConnectStep, ConnectedStep, SendStep, LoopStep, CallStep, InTime, Expire;
  }

  lemma WaitInforms(s: State, now: int)
    requires Invariant(s) && s.pc == WaitTimeout
    ensures Invariant(s.(now := now, pc := Informing))
  {
    hide Justified;
  }

  lemma WaitKeeps(s: State, env: Env)
    requires Invariant(s) && s.pc == WaitTimeout
    ensures Invariant(Work(s, env))
  {
    var t := s.(now := s.now + env.elapsed);
    WaitIs(s, env);
    PhaseMayInform(s, t.now, t.lastTime);
    hide Invariant, Work, Expire, InTime;
    ExpireKeeps(t);
    WaitInforms(s, t.now);
  }

  lemma LoopKeeps(s: State, env: Env)
    requires Invariant(s) && (s.pc.LoopTest? || s.pc.Sleeping?)
    ensures Invariant(Work(s, env))
  {
    hide ResolveStep, ConnectStep, ConnectedStep, SendStep, WaitStep, CallStep, Justified;
  }

  lemma DispatchKeeps(s: State, env: Env)
    requires Invariant(s) && s.pc.Dispatch? && (s.command == ConnectToHost || s.command == SendRequest)
    ensures Invariant(Work(s, env))
  {
    hide ResolveStep, ConnectStep, ConnectedStep, SendStep, WaitStep, CallStep, Justified;
  }

  lemma DispatchWaitKeeps(s: State, env: Env)
    requires Invariant(s) && s.pc.Dispatch? && (s.command == StartWaiting || s.command == WaitResponse)
    ensures Invariant(Work(s, env))
  {
    hide ResolveStep, ConnectStep, ConnectedStep, SendStep, WaitStep, CallStep, Justified;
  }

  lemma DispatchIdleKeeps(s: State, env: Env)
    requires Invariant(s) && s.pc.Dispatch? && (s.command == NoCommand || s.command == End)
    ensures Invariant(Work(s, env))
  {
    hide ResolveStep, ConnectStep, ConnectedStep, SendStep, WaitStep, CallStep, Justified;
  }

  lemma InformKeeps(s: State, env: Env)
    requires Invariant(s) && s.pc == Informing
    ensures Invariant(Work(s, env))
  {
    hide ResolveStep, ConnectStep, ConnectedStep, SendStep, WaitStep, LoopStep, Justified;
  }

  lemma EndingKeeps(s: State, env: Env)
    requires Invariant(s) && (s.pc == EndingResponse || s.pc == EndingError)
    ensures Invariant(Work(s, env))
  {
    hide ResolveStep, ConnectStep, ConnectedStep, SendStep, WaitStep, LoopStep, Justified;
  }

  lemma CallKeeps(s: State, env: Env)
    requires Invariant(s) && (s.pc == CallingResponse || s.pc == CallingError)
    ensures Invariant(Work(s, env))
  {
    hide ResolveStep, ConnectStep, ConnectedStep, SendStep, WaitStep, LoopStep;
  }

  lemma ExitKeeps(s: State, env: Env)
    requires Invariant(s) && s.pc == Exiting
    ensures Invariant(Work(s, env))
  {
    hide ResolveStep, ConnectStep, ConnectedStep, SendStep, WaitStep, CallStep, Justified;
  }

  lemma DispatchCommand(s: State)
    requires Invariant(s) && s.pc.Dispatch?
    ensures s.command != InformResponse && s.command != InformError
  {
  }

  lemma StepKeeps(s: State, a: Action)
    requires Invariant(s) && Enabled(s, a)
    ensures Invariant(Step(s, a))
  {
    hide Invariant, Work, Sender, Cancelled;
    match a
    case SenderStep => SenderKeeps(s);
    case Cancel => CancelKeeps(s);
    case WorkerStep(env) =>
      match s.pc
      case Resolving => ResolvingKeeps(s, env);
      case Resolved(_) => ResolvedKeeps(s, env);
      case Connecting => ConnectingKeeps(s, env);
      case Connected => ConnectedKeeps(s, env);
      case Sending => SendingKeeps(s, env);
      case Sent | Starting => SentKeeps(s, env);
      case SendFailed => SendFailedKeeps(s, env);
      case PeerGone => PeerGoneKeeps(s, env);
      case Receiving => ReceiveKeeps(s, env);
      case Drained => DrainedKeeps(s, env);
      case WaitTimeout => WaitKeeps(s, env);
      case LoopTest | Sleeping => LoopKeeps(s, env);
      case Dispatch =>
        DispatchCommand(s);
        if s.command == ConnectToHost || s.command == SendRequest { DispatchKeeps(s, env); }
        else if s.command == NoCommand || s.command == End { DispatchIdleKeeps(s, env); }
        else { DispatchWaitKeeps(s, env); }
      case Informing => InformKeeps(s, env);
      case EndingResponse | EndingError => EndingKeeps(s, env);
      case CallingResponse | CallingError => CallKeeps(s, env);
      case Exiting => ExitKeeps(s, env);
  }

  lemma {:induction false} RunKeeps(s: State, actions: seq<Action>)
    requires Invariant(s) && IsRun(s, actions)
    ensures Invariant(Final(s, actions))
    decreases |actions|
  {
    hide Invariant, Step, Enabled;
    if actions != [] {
      StepKeeps(s, actions[0]);
      RunKeeps(Step(s, actions[0]), actions[1..]);
    }
  }

  /**
    In every interleaving: at most one callback, each phase entered at most once, an
    error callback with an error, a response callback only after a finished response or
    a closed connection, and the request deleted exactly once, by the worker.
  */
  lemma SafeInEveryRun(timeout: nat, actions: seq<Action>)
    requires IsRun(Initial(timeout), actions)
    ensures Safe(Final(Initial(timeout), actions))
  {
    InitialInvariant(timeout);
    RunKeeps(Initial(timeout), actions);
  }

  /** A permitted cancel always finds the worker thread, so that it never deletes the request itself. */
  lemma CancelFindsThread(timeout: nat, actions: seq<Action>)
    requires IsRun(Initial(timeout), actions) && MayCancel(Final(Initial(timeout), actions))
    ensures var s := Final(Initial(timeout), actions);
            s.threadSet && s.deletes == 0 && Cancelled(s) == s.(command := End, cancelled := true)
  {
    InitialInvariant(timeout);
    RunKeeps(Initial(timeout), actions);
  }

  /** Without a cancel the thread ends only after a callback. */
  lemma EndMeansCallback(timeout: nat, actions: seq<Action>)
    requires IsRun(Initial(timeout), actions)
    ensures var s := Final(Initial(timeout), actions);
            s.pc == Done && !s.cancelled ==> |s.callbacks| == 1
  {
    InitialInvariant(timeout);
    RunKeeps(Initial(timeout), actions);
  }

  /** Once the request is deleted, no thread can take another step with it. */
  lemma NothingAfterDelete(timeout: nat, actions: seq<Action>, a: Action)
    requires IsRun(Initial(timeout), actions) && Final(Initial(timeout), actions).deletes > 0
    ensures !Enabled(Final(Initial(timeout), actions), a)
  {
    InitialInvariant(timeout);
    RunKeeps(Initial(timeout), actions);
  }
}
