/**
  The joiner: a finished thread leaves itself in a shared slot, under a mutex, for the
  next finished thread to join and free.  A step is one thread's work up to and including
  one access to the mutex, the slot or another thread.
*/
module Joiner {
  import opened Wrappers

  type Id = nat

  datatype Pc =
    | Running            // inside the thread function
    | Locking            // nhr_threads_joiner_add: waiting for the mutex
    | Cleaning           // nhr_threads_joiner_clean: about to read the slot
    | Joining(other: Id) // waiting for the other thread to exit
    | Freeing(other: Id)
    | Storing            // about to leave itself in the slot
    | Unlocking
    | Returning          // on its way out, without the mutex
    | Exited

  datatype State = State(
    threads: seq<Pc>,
    slot: Option<Id>,
    owner: Option<Id>,   // the thread that holds the mutex
    joined: seq<nat>,    // times each thread was joined
    freed: seq<nat>)     // times each thread's structure was freed

  datatype Action = Create | Advance(id: Id)

  const INITIAL := State([], None, None, [], [])

  // ----- Steps -----

  predicate Sized(s: State) {
    |s.joined| == |s.threads| && |s.freed| == |s.threads|
  }

  predicate Enabled(s: State, a: Action) {
    match a
    case Create => true
    case Advance(id) =>
      id < |s.threads| &&
      match s.threads[id]
      case Locking => s.owner == None
      case Joining(other) => other < |s.threads| && s.threads[other] == Exited
      case Freeing(other) => other < |s.threads|
      case Exited => false
      case _ => true
  }

  function Goto(s: State, id: Id, pc: Pc): State
    requires id < |s.threads|
  {
    s.(threads := s.threads[id := pc])
  }

  function Advanced(s: State, id: Id): (t: State)
    requires Sized(s) && Enabled(s, Advance(id))
    ensures Sized(t)
  {
    match s.threads[id]
    case Running => Goto(s, id, Locking)
    case Locking => Goto(s, id, Cleaning).(owner := Some(id))
    case Cleaning =>
      if s.slot.Some? then Goto(s, id, Joining(s.slot.value)).(slot := None) else Goto(s, id, Storing)
    case Joining(other) =>
      Goto(s, id, Freeing(other)).(joined := s.joined[other := s.joined[other] + 1])
    case Freeing(other) =>
      Goto(s, id, Storing).(freed := s.freed[other := s.freed[other] + 1])
    case Storing => Goto(s, id, Unlocking).(slot := Some(id))
    case Unlocking => Goto(s, id, Returning).(owner := None)
    case Returning => Goto(s, id, Exited)
  }

  function Created(s: State): (t: State)
    requires Sized(s)
    ensures Sized(t)
  {
    s.(threads := s.threads + [Running], joined := s.joined + [0], freed := s.freed + [0])
  }

  function Step(s: State, a: Action): (t: State)
    requires Sized(s) && Enabled(s, a)
    ensures Sized(t)
  {
    match a
    case Create => Created(s)
    case Advance(id) => Advanced(s, id)
  }

  predicate IsRun(s: State, actions: seq<Action>)
    requires Sized(s)
    decreases |actions|
  {
    actions == [] || (Enabled(s, actions[0]) && IsRun(Step(s, actions[0]), actions[1..]))
  }

  function Final(s: State, actions: seq<Action>): (t: State)
    requires Sized(s) && IsRun(s, actions)
    ensures Sized(t)
    decreases |actions|
  {
    if actions == [] then s else Final(Step(s, actions[0]), actions[1..])
  }

  // ----- Invariant -----

  predicate HoldsMutex(pc: Pc) {
    pc.Cleaning? || pc.Joining? || pc.Freeing? || pc.Storing? || pc.Unlocking?
  }

  /** Left in the slot at some time. */
  predicate Finished(pc: Pc) {
    pc.Unlocking? || pc.Returning? || pc.Exited?
  }

  /** The thread that takes care of `id`: it is joining or freeing it. */
  predicate TakesCare(pc: Pc, id: Id) {
    pc == Joining(id) || pc == Freeing(id)
  }

  predicate OwnerTakesCare(s: State, id: Id) {
    s.owner.Some? && s.owner.value < |s.threads| && TakesCare(s.threads[s.owner.value], id)
  }

  /** A finished thread is in the slot, in the hands of the owner of the mutex, or joined and freed. */
  predicate Accounted(s: State, id: Id)
    requires Sized(s) && id < |s.threads|
  {
    var pc := s.threads[id];
    if !Finished(pc) then s.slot != Some(id) && !OwnerTakesCare(s, id) && s.joined[id] == 0 && s.freed[id] == 0
    else if s.slot == Some(id) then !OwnerTakesCare(s, id) && s.joined[id] == 0 && s.freed[id] == 0
    else if OwnerTakesCare(s, id) then
      (if s.threads[s.owner.value].Joining? then s.joined[id] == 0 && pc != Unlocking
       else s.joined[id] == 1 && pc == Exited)
      && s.freed[id] == 0
    else s.joined[id] == 1 && s.freed[id] == 1 && pc == Exited
  }

  predicate OwnerFits(s: State, id: Id)
    requires id < |s.threads|
  {
    HoldsMutex(s.threads[id]) <==> s.owner == Some(id)
  }

  predicate Refers(s: State, pc: Pc) {
    (pc.Joining? || pc.Freeing? ==> pc.other < |s.threads| && s.slot == None) && (pc.Storing? ==> s.slot == None)
  }

  /** Between its read of the slot and leaving itself there. */
  predicate AboutToStore(pc: Pc) {
    pc.Joining? || pc.Freeing? || pc.Storing?
  }

  /** Once a thread has finished, the slot is empty only until its owner has stored itself. */
  predicate SlotFits(s: State) {
    s.slot == None ==>
      || (s.owner.Some? && s.owner.value < |s.threads| && AboutToStore(s.threads[s.owner.value]))
      || (forall id | 0 <= id < |s.threads| :: !Finished(s.threads[id]))
  }

  predicate Invariant(s: State) {
    && Sized(s)
    && SlotFits(s)
    && (s.slot.Some? ==> s.slot.value < |s.threads|)
    && (s.owner.Some? ==> s.owner.value < |s.threads|)
    && (forall id | 0 <= id < |s.threads| :: OwnerFits(s, id))
    && (forall id | 0 <= id < |s.threads| :: Accounted(s, id))
    && (forall id | 0 <= id < |s.threads| :: Refers(s, s.threads[id]))
  }

  lemma CreateKeeps(s: State)
    requires Invariant(s)
    ensures Invariant(Created(s))
  {
    var t := Created(s);
    forall id | 0 <= id < |t.threads| ensures OwnerFits(t, id) && Accounted(t, id) && Refers(t, t.threads[id]) {
      if id < |s.threads| {
        assert OwnerFits(s, id) && Accounted(s, id) && Refers(s, s.threads[id]);
      }
      if s.owner.Some? {
        assert Refers(s, s.threads[s.owner.value]);
      }
    }
  }

  /** The steps of nhr_threads_joiner_clean. */
  lemma CleanKeeps(s: State, id: Id)
    requires Invariant(s) && Enabled(s, Advance(id))
    requires s.threads[id].Cleaning? || s.threads[id].Joining? || s.threads[id].Freeing?
    ensures Invariant(Advanced(s, id))
  {
    var t := Advanced(s, id);
    assert OwnerFits(s, id) && Accounted(s, id) && Refers(s, s.threads[id]);
    forall k | 0 <= k < |t.threads| ensures OwnerFits(t, k) && Accounted(t, k) && Refers(t, t.threads[k]) {
      assert OwnerFits(s, k) && Accounted(s, k) && Refers(s, s.threads[k]);
    }
  }

  /** The other steps. */
  lemma LockKeeps(s: State, id: Id)
    requires Invariant(s) && Enabled(s, Advance(id))
    requires !s.threads[id].Cleaning? && !s.threads[id].Joining? && !s.threads[id].Freeing?
    ensures Invariant(Advanced(s, id))
  {
    var t := Advanced(s, id);
    assert OwnerFits(s, id) && Accounted(s, id) && Refers(s, s.threads[id]);
    forall k | 0 <= k < |t.threads| ensures OwnerFits(t, k) && Accounted(t, k) && Refers(t, t.threads[k]) {
      assert OwnerFits(s, k) && Accounted(s, k) && Refers(s, s.threads[k]);
    }
  }

  lemma AdvanceKeeps(s: State, id: Id)
    requires Invariant(s) && Enabled(s, Advance(id))
    ensures Invariant(Advanced(s, id))
  {
    if s.threads[id].Cleaning? || s.threads[id].Joining? || s.threads[id].Freeing? {
      CleanKeeps(s, id);
    } else {
      LockKeeps(s, id);
    }
  }

  lemma {:induction false} RunKeeps(s: State, actions: seq<Action>)
    requires Invariant(s) && IsRun(s, actions)
    ensures Invariant(Final(s, actions))
    decreases |actions|
  {
    assert Sized(s);
    hide Invariant, Sized;
    if actions != [] {
      match actions[0] {
        case Create => CreateKeeps(s);
        case Advance(id) => AdvanceKeeps(s, id);
      }
      RunKeeps(Step(s, actions[0]), actions[1..]);
    }
  }

  // ----- Safety -----

  /** Joined and freed at most once each, in this order, and freed only when nothing runs in it any more. */
  predicate HandledOnce(s: State, id: Id)
    requires Sized(s) && id < |s.threads|
  {
    && s.freed[id] <= s.joined[id] <= 1
    && (s.joined[id] == 1 ==> s.threads[id] == Exited)
  }

  /** No thread joins itself, or one that still needs the mutex. */
  predicate JoinsAreSafe(s: State, id: Id)
    requires Sized(s) && id < |s.threads|
  {
    s.threads[id].Joining? ==>
      var other := s.threads[id].other;
      other != id && other < |s.threads| && (s.threads[other] == Returning || s.threads[other] == Exited)
      && s.joined[other] == 0
  }

  /** Finished and not joined yet. */
  predicate Left(s: State, id: Id)
    requires Sized(s) && id < |s.threads|
  {
    Finished(s.threads[id]) && s.joined[id] == 0
  }

  predicate Safe(s: State)
    requires Sized(s)
  {
    && (forall id | 0 <= id < |s.threads| :: HandledOnce(s, id) && JoinsAreSafe(s, id))
    && (forall id, k | 0 <= id < |s.threads| && 0 <= k < |s.threads| && Left(s, id) && Left(s, k) :: id == k)
  }

  lemma InvariantIsSafe(s: State)
    requires Invariant(s)
    ensures Safe(s)
  {
    forall id | 0 <= id < |s.threads| ensures HandledOnce(s, id) && JoinsAreSafe(s, id) {
      assert OwnerFits(s, id) && Accounted(s, id) && Refers(s, s.threads[id]);
      if s.threads[id].Joining? {
        var other := s.threads[id].other;
        assert TakesCare(s.threads[id], other);
        assert OwnerTakesCare(s, other) && Accounted(s, other);
      }
    }
    forall id, k | 0 <= id < |s.threads| && 0 <= k < |s.threads| && Left(s, id) && Left(s, k) ensures id == k {
      assert Accounted(s, id) && Accounted(s, k);
      if s.owner.Some? {
        assert Refers(s, s.threads[s.owner.value]);
      }
    }
  }

  /**
    In every order of thread exits: each thread is joined and freed at most once and never
    by itself, a thread that is being joined needs the mutex no more, and at most one
    finished thread is left unjoined.
  */
  lemma SafeInEveryRun(actions: seq<Action>)
    requires IsRun(INITIAL, actions)
    ensures Safe(Final(INITIAL, actions))
  {
    RunKeeps(INITIAL, actions);
    InvariantIsSafe(Final(INITIAL, actions));
  }

  // ----- Progress -----

  /** A join under the mutex completes: the other thread has exited or exits with its next step. */
  lemma JoinCompletes(actions: seq<Action>, id: Id)
    requires IsRun(INITIAL, actions)
    requires id < |Final(INITIAL, actions).threads| && Final(INITIAL, actions).threads[id].Joining?
    ensures var s := Final(INITIAL, actions);
            var other := s.threads[id].other;
            Enabled(s, Advance(id))
            || (Enabled(s, Advance(other)) && Enabled(Step(s, Advance(other)), Advance(id)))
  {
    SafeInEveryRun(actions);
    assert JoinsAreSafe(Final(INITIAL, actions), id);
  }

  /** As long as a thread has not exited, some thread can go on. */
  lemma NoDeadlock(s: State, id: Id) returns (next: Id)
    requires Invariant(s) && id < |s.threads|
    ensures s.threads[id] != Exited ==> Enabled(s, Advance(next))
  {
    InvariantIsSafe(s);
    next := id;
    if s.owner.Some? {
      next := s.owner.value;
      assert OwnerFits(s, next) && JoinsAreSafe(s, next);
      if !Enabled(s, Advance(next)) {
        next := s.threads[next].other;
      }
    } else {
      assert OwnerFits(s, id);
    }
  }

  /** Steps that a thread still takes. */
  function Rank(pc: Pc): nat {
    match pc
    case Running => 8
    case Locking => 7
    case Cleaning => 6
    case Joining(_) => 5
    case Freeing(_) => 4
    case Storing => 3
    case Unlocking => 2
    case Returning => 1
    case Exited => 0
  }

  function Remaining(threads: seq<Pc>): nat {
    if threads == [] then 0 else Rank(threads[0]) + Remaining(threads[1..])
  }

  lemma {:induction false} RemainingOfUpdate(threads: seq<Pc>, id: Id, pc: Pc)
    requires id < |threads|
    ensures Remaining(threads[id := pc]) == Remaining(threads) - Rank(threads[id]) + Rank(pc)
  {
    var updated := threads[id := pc];
    if id == 0 {
      assert updated[1..] == threads[1..];
    } else {
      RemainingOfUpdate(threads[1..], id - 1, pc);
      assert updated[1..] == threads[1..][id - 1 := pc];
    }
  }

  lemma {:induction false} RemainingOfCreated(threads: seq<Pc>)
    ensures Remaining(threads + [Running]) == Remaining(threads) + 8
  {
    if threads == [] {
      assert Remaining([Running]) == 8 + Remaining([]);
    } else {
      RemainingOfCreated(threads[1..]);
      assert (threads + [Running])[1..] == threads[1..] + [Running];
    }
  }

  lemma StepCounts(s: State, a: Action)
    requires Sized(s) && Enabled(s, a)
    ensures var t := Step(s, a);
            9 * |t.threads| - Remaining(t.threads) >= 9 * |s.threads| - Remaining(s.threads) + 1
  {
    match a
    case Create => RemainingOfCreated(s.threads);
    case Advance(id) =>
      var t := Advanced(s, id);
      assert Rank(t.threads[id]) < Rank(s.threads[id]);
      assert t.threads == s.threads[id := t.threads[id]];
      RemainingOfUpdate(s.threads, id, t.threads[id]);
  }

  /** Threads that are created take nine steps each at most, in every run. */
  lemma {:induction false} RunsAreShort(s: State, actions: seq<Action>)
    requires Sized(s) && IsRun(s, actions)
    ensures var t := Final(s, actions);
            |actions| + 9 * |s.threads| - Remaining(s.threads) <= 9 * |t.threads| - Remaining(t.threads)
    decreases |actions|
  {
    hide Step, Enabled;
    if actions != [] {
      StepCounts(s, actions[0]);
      RunsAreShort(Step(s, actions[0]), actions[1..]);
    }
  }

  /**
    A run in which no thread can go on has ended: every thread has exited, and every one
    is joined and freed once except the last, which is in the slot.
  */
  lemma AllJoinedButLast(actions: seq<Action>)
    requires IsRun(INITIAL, actions) && |Final(INITIAL, actions).threads| > 0
    requires forall id: Id :: !Enabled(Final(INITIAL, actions), Advance(id))
    ensures var s := Final(INITIAL, actions);
            s.slot.Some? && s.slot.value < |s.threads| && s.owner == None
            && forall id | 0 <= id < |s.threads| ::
                 s.threads[id] == Exited && s.joined[id] == s.freed[id] == (if id == s.slot.value then 0 else 1)
  {
    var s := Final(INITIAL, actions);
    RunKeeps(INITIAL, actions);
    forall id | 0 <= id < |s.threads| ensures s.threads[id] == Exited {
      var next := NoDeadlock(s, id);
      assert !Enabled(s, Advance(next));
    }
    assert s.owner.Some? ==> OwnerFits(s, s.owner.value);
    assert Finished(s.threads[0]);
    forall id | 0 <= id < |s.threads| ensures s.joined[id] == s.freed[id] == (if id == s.slot.value then 0 else 1) {
      assert Accounted(s, id);
    }
  }
}
