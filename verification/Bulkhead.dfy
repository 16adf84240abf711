/**
  The bulkhead: concurrent calls interleave one atomic step at a time over a semaphore and
  four separate counters. No call is cancelled.
 */
module Bulkheads {
  import opened Types

  /** Where a call of try_execute stands; each value names the step it takes next. */
  datatype Pc =
    | Entered
    | SawInFlight(inFlight: int)
    | SawBoth(inFlight: int, queued: int)
    | Queueing
    | Waiting(counted: bool)
    | Leaving(counted: bool, permit: bool)
    | Admitted
    | Running
    | Finishing(ok: bool)
    | Recording(ok: bool)
    | Releasing(ok: bool)
    | Refusing
    | Done(ok: bool)

  /** What the environment decides: the permit arrives or not, the future ends in time or not. */
  datatype Outcome = Succeeds | Fails

  datatype Bulkhead = Bulkhead(
    maxConcurrent: nat,
    maxQueueSize: nat,
    calls: seq<Pc>,
    permits: int,
    inFlight: int,
    queued: int,
    totalRejected: int,
    totalCompleted: int)

  function Start(maxConcurrent: nat, maxQueueSize: nat, calls: nat): Bulkhead {
    Bulkhead(maxConcurrent, maxQueueSize, seq(calls, _ => Entered), maxConcurrent, 0, 0, 0, 0)
  }

  /** One atomic step of call i; None when it has finished or its outcome is not available. */
  function Move(s: Bulkhead, i: nat, outcome: Outcome): Option<Bulkhead>
    requires i < |s.calls|
  {
    var good := outcome.Succeeds?;
    match s.calls[i]
    case Entered => Some(At(s, i, SawInFlight(s.inFlight)))
    case SawInFlight(f) => Some(At(s, i, SawBoth(f, s.queued)))
    case SawBoth(f, q) =>
      Some(At(s, i, if f < s.maxConcurrent then Waiting(false) else if q < s.maxQueueSize then Queueing else Refusing))
    case Queueing => Some(At(s, i, Waiting(true)).(queued := s.queued + 1))
    case Waiting(counted) =>
      if !good then Some(At(s, i, Leaving(counted, false)))
      else if s.permits > 0 then Some(At(s, i, Leaving(counted, true)).(permits := s.permits - 1))
      else None
    case Leaving(counted, permit) =>
      Some(At(s, i, if permit then Admitted else Refusing).(queued := if counted then s.queued - 1 else s.queued))
    case Admitted => Some(At(s, i, Running).(inFlight := s.inFlight + 1))
    case Running => Some(At(s, i, Finishing(good)))
    case Finishing(ok) => Some(At(s, i, Recording(ok)).(inFlight := s.inFlight - 1))
    case Recording(true) => Some(At(s, i, Releasing(true)).(totalCompleted := s.totalCompleted + 1))
    case Recording(false) => Some(At(s, i, Releasing(false)).(totalRejected := s.totalRejected + 1))
    case Releasing(ok) => Some(At(s, i, Done(ok)).(permits := s.permits + 1))
    case Refusing => Some(At(s, i, Done(false)).(totalRejected := s.totalRejected + 1))
    case Done(_) => None
  }

  function At(s: Bulkhead, i: nat, pc: Pc): Bulkhead
    requires i < |s.calls|
  {
    s.(calls := s.calls[i := pc])
  }

  // ---------- counting calls ----------

  predicate HoldsPermit(pc: Pc) {
    match pc
    case Leaving(_, permit) => permit
    case Admitted => true
    case Running => true
    case Finishing(_) => true
    case Recording(_) => true
    case Releasing(_) => true
    case _ => false
  }

  predicate CountedInFlight(pc: Pc) {
    pc.Running? || pc.Finishing?
  }

  predicate CountedQueued(pc: Pc) {
    (pc.Waiting? || pc.Leaving?) && pc.counted
  }

  predicate RecordedRejected(pc: Pc) {
    (pc.Releasing? || pc.Done?) && !pc.ok
  }

  predicate RecordedCompleted(pc: Pc) {
    (pc.Releasing? || pc.Done?) && pc.ok
  }

  ghost function Count(calls: seq<Pc>, p: Pc -> bool): nat
  {
    if calls == [] then 0 else Count(calls[..|calls| - 1], p) + if p(calls[|calls| - 1]) then 1 else 0
  }

  lemma {:induction false} CountUpdate(calls: seq<Pc>, i: nat, pc: Pc, p: Pc -> bool)
    requires i < |calls|
    ensures Count(calls[i := pc], p) == Count(calls, p) - (if p(calls[i]) then 1 else 0) + if p(pc) then 1 else 0
    ensures p(calls[i]) ==> Count(calls, p) > 0
  {
    var n := |calls| - 1;
    if i < n {
      CountUpdate(calls[..n], i, pc, p);
      assert calls[i := pc][..n] == calls[..n][i := pc];
    } else {
      assert calls[i := pc][..n] == calls[..n];
    }
  }

  lemma {:induction false} CountImplies(calls: seq<Pc>, p: Pc -> bool, q: Pc -> bool)
    requires forall pc :: p(pc) ==> q(pc)
    ensures Count(calls, p) <= Count(calls, q)
  {
    if calls != [] {
      CountImplies(calls[..|calls| - 1], p, q);
    }
  }

  lemma {:induction false} CountConstant(calls: seq<Pc>, p: Pc -> bool)
    ensures (forall pc | pc in calls :: !p(pc)) ==> Count(calls, p) == 0
    ensures (forall pc | pc in calls :: p(pc)) ==> Count(calls, p) == |calls|
  {
    if calls != [] {
      CountConstant(calls[..|calls| - 1], p);
      assert forall pc | pc in calls[..|calls| - 1] :: pc in calls;
    }
  }

  // ---------- the invariant ----------

  /** Each counter equals the number of calls standing where that counter counts them. */
  ghost predicate Invariant(s: Bulkhead) {
    && s.permits >= 0
    && s.permits + Count(s.calls, HoldsPermit) == s.maxConcurrent
    && s.inFlight == Count(s.calls, CountedInFlight)
    && s.queued == Count(s.calls, CountedQueued)
    && s.totalRejected == Count(s.calls, RecordedRejected)
    && s.totalCompleted == Count(s.calls, RecordedCompleted)
  }

  lemma StartIsInvariant(maxConcurrent: nat, maxQueueSize: nat, calls: nat)
    ensures Invariant(Start(maxConcurrent, maxQueueSize, calls))
  {
    var s := Start(maxConcurrent, maxQueueSize, calls);
    CountConstant(s.calls, HoldsPermit);
    CountConstant(s.calls, CountedInFlight);
    CountConstant(s.calls, CountedQueued);
    CountConstant(s.calls, RecordedRejected);
    CountConstant(s.calls, RecordedCompleted);
  }

  lemma MoveKeepsInvariant(s: Bulkhead, i: nat, outcome: Outcome)
    requires Invariant(s) && i < |s.calls| && Move(s, i, outcome).Some?
    ensures Invariant(Move(s, i, outcome).value)
    ensures Move(s, i, outcome).value.maxConcurrent == s.maxConcurrent
    ensures |Move(s, i, outcome).value.calls| == |s.calls|
    // The two counters that are decremented stay above zero until then.
    ensures CountedQueued(s.calls[i]) ==> s.queued > 0
    ensures CountedInFlight(s.calls[i]) ==> s.inFlight > 0
  {
    hide Count;
    var s' := Move(s, i, outcome).value;
    var pc' := s'.calls[i];
    assert s'.calls == s.calls[i := pc'];
    CountUpdate(s.calls, i, pc', HoldsPermit);
    CountUpdate(s.calls, i, pc', CountedInFlight);
    CountUpdate(s.calls, i, pc', CountedQueued);
    CountUpdate(s.calls, i, pc', RecordedRejected);
    CountUpdate(s.calls, i, pc', RecordedCompleted);
  }

  // ---------- runs ----------

  type Schedule = seq<(nat, Outcome)>

  /** The state after a schedule of steps, all of which must be enabled. */
  function Run(s: Bulkhead, schedule: Schedule): Option<Bulkhead>
    decreases |schedule|
  {
    if schedule == [] then Some(s)
    else if schedule[0].0 >= |s.calls| then None
    else match Move(s, schedule[0].0, schedule[0].1)
      case None => None
      case Some(s') => Run(s', schedule[1..])
  }

  lemma {:induction false} RunKeepsInvariant(s: Bulkhead, schedule: Schedule)
    requires Invariant(s) && Run(s, schedule).Some?
    ensures Invariant(Run(s, schedule).value)
    ensures Run(s, schedule).value.maxConcurrent == s.maxConcurrent
    ensures |Run(s, schedule).value.calls| == |s.calls|
    decreases |schedule|
  {
    hide Move, Invariant;
    if schedule != [] {
      MoveKeepsInvariant(s, schedule[0].0, schedule[0].1);
      RunKeepsInvariant(Move(s, schedule[0].0, schedule[0].1).value, schedule[1..]);
    }
  }

  ghost predicate AllDone(s: Bulkhead) {
    forall pc | pc in s.calls :: pc.Done?
  }

  /**
    In every interleaving: calls in flight never exceed the permits held, nor those the limit;
    no counter is negative; and once all calls have finished, the two gauges are back at zero,
    all permits are back, and each call has been recorded once.
   */
  lemma EveryRunIsSafe(maxConcurrent: nat, maxQueueSize: nat, calls: nat, schedule: Schedule)
    requires Run(Start(maxConcurrent, maxQueueSize, calls), schedule).Some?
    ensures var s := Run(Start(maxConcurrent, maxQueueSize, calls), schedule).value;
            && 0 <= s.inFlight <= Count(s.calls, HoldsPermit) <= maxConcurrent
            && 0 <= s.queued <= calls && 0 <= s.totalRejected && 0 <= s.totalCompleted
            && (AllDone(s) ==> s.inFlight == 0 && s.queued == 0 && s.permits == maxConcurrent &&
                               s.totalRejected + s.totalCompleted == calls)
  {
    var start := Start(maxConcurrent, maxQueueSize, calls);
    StartIsInvariant(maxConcurrent, maxQueueSize, calls);
    RunKeepsInvariant(start, schedule);
    var s := Run(start, schedule).value;
    CountImplies(s.calls, CountedInFlight, HoldsPermit);
    CountImplies(s.calls, CountedQueued, _ => true);
    CountConstant(s.calls, _ => true);
    CountConstant(s.calls, HoldsPermit);
    CountConstant(s.calls, CountedInFlight);
    CountConstant(s.calls, CountedQueued);
    if AllDone(s) {
      DoneIsRecordedOnce(s.calls);
    }
  }

  lemma {:induction false} DoneIsRecordedOnce(calls: seq<Pc>)
    requires forall pc | pc in calls :: pc.Done?
    ensures Count(calls, RecordedRejected) + Count(calls, RecordedCompleted) == |calls|
  {
    if calls != [] {
      var n := |calls| - 1;
      assert forall pc | pc in calls[..n] :: pc in calls;
      DoneIsRecordedOnce(calls[..n]);
      assert calls[n] in calls;
    }
  }

  // ---------- every run ends ----------

  /** The most steps a call can still take. */
  function Remaining(pc: Pc): nat {
    match pc
    case Entered => 11
    case SawInFlight(_) => 10
    case SawBoth(_, _) => 9
    case Queueing => 8
    case Waiting(_) => 7
    case Leaving(_, _) => 6
    case Admitted => 5
    case Running => 4
    case Finishing(_) => 3
    case Recording(_) => 2
    case Releasing(_) => 1
    case Refusing => 1
    case Done(_) => 0
  }

  ghost function TotalRemaining(calls: seq<Pc>): nat
  {
    if calls == [] then 0 else TotalRemaining(calls[..|calls| - 1]) + Remaining(calls[|calls| - 1])
  }

  lemma {:induction false} RemainingUpdate(calls: seq<Pc>, i: nat, pc: Pc)
    requires i < |calls|
    ensures TotalRemaining(calls[i := pc]) == TotalRemaining(calls) - Remaining(calls[i]) + Remaining(pc)
  {
    var n := |calls| - 1;
    if i < n {
      RemainingUpdate(calls[..n], i, pc);
      assert calls[i := pc][..n] == calls[..n][i := pc];
    } else {
      assert calls[i := pc][..n] == calls[..n];
    }
  }

  lemma MoveShortens(s: Bulkhead, i: nat, outcome: Outcome)
    requires i < |s.calls| && Move(s, i, outcome).Some?
    ensures TotalRemaining(Move(s, i, outcome).value.calls) < TotalRemaining(s.calls)
  {
    hide TotalRemaining;
    var s' := Move(s, i, outcome).value;
    assert s'.calls == s.calls[i := s'.calls[i]];
    RemainingUpdate(s.calls, i, s'.calls[i]);
  }

  lemma {:induction false} RunShortens(s: Bulkhead, schedule: Schedule)
    requires Run(s, schedule).Some?
    ensures |schedule| + TotalRemaining(Run(s, schedule).value.calls) <= TotalRemaining(s.calls)
    decreases |schedule|
  {
    if schedule != [] {
      MoveShortens(s, schedule[0].0, schedule[0].1);
      hide TotalRemaining, Move;
      RunShortens(Move(s, schedule[0].0, schedule[0].1).value, schedule[1..]);
    }
  }

  lemma {:induction false} StartRemaining(calls: seq<Pc>)
    requires forall pc | pc in calls :: pc.Entered?
    ensures TotalRemaining(calls) == 11 * |calls|
  {
    if calls != [] {
      assert forall pc | pc in calls[..|calls| - 1] :: pc in calls;
      StartRemaining(calls[..|calls| - 1]);
      assert calls[|calls| - 1] in calls;
    }
  }

  lemma {:induction false} SomeCounted(calls: seq<Pc>, p: Pc -> bool) returns (i: nat)
    requires Count(calls, p) > 0
    ensures i < |calls| && p(calls[i])
  {
    var n := |calls| - 1;
    if p(calls[n]) {
      i := n;
    } else {
      i := SomeCounted(calls[..n], p);
    }
  }

  /** Every run is finite, and one that cannot be extended has finished every call. */
  lemma EveryRunEnds(maxConcurrent: nat, maxQueueSize: nat, calls: nat, schedule: Schedule)
    requires Run(Start(maxConcurrent, maxQueueSize, calls), schedule).Some?
    ensures |schedule| <= 11 * calls
    ensures var s := Run(Start(maxConcurrent, maxQueueSize, calls), schedule).value;
            (forall i: nat, outcome | i < |s.calls| :: Move(s, i, outcome).None?) ==> AllDone(s)
  {
    var start := Start(maxConcurrent, maxQueueSize, calls);
    RunShortens(start, schedule);
    StartRemaining(start.calls);
    var s := Run(start, schedule).value;
    if forall i: nat, outcome | i < |s.calls| :: Move(s, i, outcome).None? {
      forall pc | pc in s.calls
        ensures pc.Done?
      {
        var i: nat :| i < |s.calls| && s.calls[i] == pc;
        assert Move(s, i, Fails).None?;
      }
    }
  }

  lemma HolderMoves(s: Bulkhead, i: nat)
    requires i < |s.calls| && HoldsPermit(s.calls[i])
    ensures Move(s, i, Succeeds).Some?
  {
  }

  /**
    Progress without timeouts: when at least one permit exists, a reachable state in which no
    call can take a successful step has finished every call. A waiting call finds a permit
    free, or a call that holds one can move.
   */
  lemma NoDeadlock(maxConcurrent: nat, maxQueueSize: nat, calls: nat, schedule: Schedule)
    requires maxConcurrent > 0 && Run(Start(maxConcurrent, maxQueueSize, calls), schedule).Some?
    ensures var s := Run(Start(maxConcurrent, maxQueueSize, calls), schedule).value;
            (forall i: nat | i < |s.calls| :: Move(s, i, Succeeds).None?) ==> AllDone(s)
  {
    var start := Start(maxConcurrent, maxQueueSize, calls);
    StartIsInvariant(maxConcurrent, maxQueueSize, calls);
    RunKeepsInvariant(start, schedule);
    var s := Run(start, schedule).value;
    if forall i: nat | i < |s.calls| :: Move(s, i, Succeeds).None? {
      if s.permits == 0 {
        var h := SomeCounted(s.calls, HoldsPermit);
        HolderMoves(s, h);
      }
      forall pc | pc in s.calls
        ensures pc.Done?
      {
        var i: nat :| i < |s.calls| && s.calls[i] == pc;
        assert Move(s, i, Succeeds).None?;
      }
    }
  }

  // ---------- the queue limit ----------

  /** The call has left the stretch in which it can wait, and never comes back to it. */
  predicate PastQueue(pc: Pc) {
    pc.Running? || pc.Finishing? || pc.Recording? || pc.Releasing? || pc.Done?
  }

  /** The call read a full bulkhead and may queue, or already does. */
  predicate SawFull(pc: Pc, maxConcurrent: nat) {
    match pc
    case SawInFlight(f) => f >= maxConcurrent
    case SawBoth(f, _) => f >= maxConcurrent
    case Queueing => true
    case Waiting(counted) => counted
    case Leaving(counted, _) => counted
    case _ => false
  }

  predicate MayQueue(pc: Pc) {
    pc.Queueing? || CountedQueued(pc)
  }

  /**
    A call reads a full bulkhead only when as many calls as there are permits are past the
    queue for good; and with no queue allowed, no call ever queues.
   */
  ghost predicate QueueInvariant(s: Bulkhead) {
    && ((exists pc :: pc in s.calls && SawFull(pc, s.maxConcurrent)) ==>
          Count(s.calls, PastQueue) >= s.maxConcurrent)
    && (forall pc | pc in s.calls && pc.SawBoth? :: pc.queued >= 0)
    && (s.maxQueueSize == 0 ==> forall pc | pc in s.calls :: !MayQueue(pc))
  }

  /** What one step does to the call that takes it, as far as the queue is concerned. */
  lemma MoveOfCall(s: Bulkhead, i: nat, outcome: Outcome)
    requires i < |s.calls| && Move(s, i, outcome).Some?
    ensures var s' := Move(s, i, outcome).value;
            && s'.maxConcurrent == s.maxConcurrent && s'.maxQueueSize == s.maxQueueSize
            && |s'.calls| == |s.calls| && s'.calls == s.calls[i := s'.calls[i]]
            && (PastQueue(s.calls[i]) ==> PastQueue(s'.calls[i]))
            && (SawFull(s'.calls[i], s.maxConcurrent) ==>
                  SawFull(s.calls[i], s.maxConcurrent) || s.inFlight >= s.maxConcurrent)
            && (s'.calls[i].SawBoth? ==> s'.calls[i].queued == s.queued)
            && (MayQueue(s'.calls[i]) ==>
                  MayQueue(s.calls[i]) || (s.calls[i].SawBoth? && s.calls[i].queued < s.maxQueueSize))
  {
  }

  lemma MoveKeepsQueueInvariant(s: Bulkhead, i: nat, outcome: Outcome)
    requires Invariant(s) && QueueInvariant(s) && i < |s.calls| && Move(s, i, outcome).Some?
    ensures QueueInvariant(Move(s, i, outcome).value)
  {
    var s' := Move(s, i, outcome).value;
    var pc, pc' := s.calls[i], s'.calls[i];
    MoveOfCall(s, i, outcome);
    hide Move, Count, SawFull, PastQueue, MayQueue, CountedInFlight;
    assert pc in s.calls;
    CountUpdate(s.calls, i, pc', PastQueue);
    InFlightIsPastQueue(s.calls);
    forall x | x in s'.calls
      ensures x == pc' || x in s.calls
    {
    }
  }

  lemma InFlightIsPastQueue(calls: seq<Pc>)
    ensures Count(calls, CountedInFlight) <= Count(calls, PastQueue)
  {
    CountImplies(calls, CountedInFlight, PastQueue);
  }

  lemma {:induction false} RunKeepsQueueInvariant(s: Bulkhead, schedule: Schedule)
    requires Invariant(s) && QueueInvariant(s) && Run(s, schedule).Some?
    ensures QueueInvariant(Run(s, schedule).value)
    ensures Run(s, schedule).value.maxQueueSize == s.maxQueueSize
    decreases |schedule|
  {
    if schedule != [] {
      var (i, outcome) := schedule[0];
      MoveKeepsInvariant(s, i, outcome);
      MoveKeepsQueueInvariant(s, i, outcome);
      assert Move(s, i, outcome).value.maxQueueSize == s.maxQueueSize;
      hide Move, Invariant, QueueInvariant;
      RunKeepsQueueInvariant(Move(s, i, outcome).value, schedule[1..]);
    }
  }

  lemma {:induction false} CountDisjoint(calls: seq<Pc>, p: Pc -> bool, q: Pc -> bool)
    requires forall pc :: !(p(pc) && q(pc))
    ensures Count(calls, p) + Count(calls, q) <= |calls|
  {
    if calls != [] {
      CountDisjoint(calls[..|calls| - 1], p, q);
    }
  }

  lemma QueueLimitHolds(maxConcurrent: nat, maxQueueSize: nat, calls: nat, schedule: Schedule)
    requires maxQueueSize == 0 || calls <= maxConcurrent + maxQueueSize
    requires Run(Start(maxConcurrent, maxQueueSize, calls), schedule).Some?
    ensures Run(Start(maxConcurrent, maxQueueSize, calls), schedule).value.queued <= maxQueueSize
  {
    var start := Start(maxConcurrent, maxQueueSize, calls);
    StartIsInvariant(maxConcurrent, maxQueueSize, calls);
    RunKeepsInvariant(start, schedule);
    RunKeepsQueueInvariant(start, schedule);
    var s := Run(start, schedule).value;
    if s.queued > 0 {
      var i := SomeCounted(s.calls, CountedQueued);
      assert s.calls[i] in s.calls && SawFull(s.calls[i], s.maxConcurrent);
      CountDisjoint(s.calls, PastQueue, CountedQueued);
    }
  }

  ghost predicate CanReach(s: Bulkhead, s': Bulkhead) {
    exists schedule :: Run(s, schedule) == Some(s')
  }

  lemma {:induction false} RunThenMove(s: Bulkhead, schedule: Schedule, i: nat, outcome: Outcome)
    requires Run(s, schedule).Some? && i < |Run(s, schedule).value.calls|
    ensures Run(s, schedule + [(i, outcome)]) == Move(Run(s, schedule).value, i, outcome)
    decreases |schedule|
  {
    hide Move;
    var last: Schedule := [(i, outcome)];
    if schedule == [] {
      assert schedule + last == last && last[1..] == [];
    } else {
      assert (schedule + last)[1..] == schedule[1..] + last;
      RunThenMove(Move(s, schedule[0].0, schedule[0].1).value, schedule[1..], i, outcome);
    }
  }

  lemma ReachMove(start: Bulkhead, s: Bulkhead, i: nat, outcome: Outcome, s': Bulkhead)
    requires CanReach(start, s) && i < |s.calls| && Move(s, i, outcome) == Some(s')
    ensures CanReach(start, s')
  {
    hide Move;
    var schedule :| Run(start, schedule) == Some(s);
    RunThenMove(start, schedule, i, outcome);
    assert Run(start, schedule + [(i, outcome)]) == Some(s');
  }

  lemma AtTwice(s: Bulkhead, i: nat, a: Pc, b: Pc)
    requires i < |s.calls|
    ensures At(At(s, i, a), i, b) == At(s, i, b)
  {
    assert s.calls[i := a][i := b] == s.calls[i := b];
  }

  /** A call that finds room goes all the way to running. */
  lemma ReachRunning(start: Bulkhead, s: Bulkhead, i: nat)
    requires CanReach(start, s) && i < |s.calls| && s.calls[i].Entered?
    requires s.inFlight < s.maxConcurrent && s.permits > 0
    ensures CanReach(start, At(s, i, Running).(permits := s.permits - 1, inFlight := s.inFlight + 1))
  {
    hide CanReach, Run;
    var s1 := At(s, i, SawInFlight(s.inFlight));
    var s2 := At(s, i, SawBoth(s.inFlight, s.queued));
    var s3 := At(s, i, Waiting(false));
    var s4 := At(s, i, Leaving(false, true)).(permits := s.permits - 1);
    var s5 := At(s, i, Admitted).(permits := s.permits - 1);
    ReachMove(start, s, i, Succeeds, s1);
    AtTwice(s, i, s1.calls[i], s2.calls[i]);
    ReachMove(start, s1, i, Succeeds, s2);
    AtTwice(s, i, s2.calls[i], s3.calls[i]);
    ReachMove(start, s2, i, Succeeds, s3);
    AtTwice(s, i, s3.calls[i], s4.calls[i]);
    ReachMove(start, s3, i, Succeeds, s4);
    AtTwice(s, i, s4.calls[i], s5.calls[i]);
    ReachMove(start, s4, i, Succeeds, s5);
    AtTwice(s, i, s5.calls[i], Running);
    ReachMove(start, s5, i, Succeeds, At(s, i, Running).(permits := s.permits - 1, inFlight := s.inFlight + 1));
  }

  /** A call reads both counters and stops there. */
  lemma ReachSawBoth(start: Bulkhead, s: Bulkhead, i: nat)
    requires CanReach(start, s) && i < |s.calls| && s.calls[i].Entered?
    ensures CanReach(start, At(s, i, SawBoth(s.inFlight, s.queued)))
  {
    hide CanReach, Run;
    var s1 := At(s, i, SawInFlight(s.inFlight));
    ReachMove(start, s, i, Succeeds, s1);
    AtTwice(s, i, s1.calls[i], SawBoth(s.inFlight, s.queued));
    ReachMove(start, s1, i, Succeeds, At(s, i, SawBoth(s.inFlight, s.queued)));
  }

  /** A call that has read a full bulkhead and a queue with room is counted in the queue. */
  lemma ReachQueue(start: Bulkhead, s: Bulkhead, i: nat)
    requires CanReach(start, s) && i < |s.calls| && s.calls[i].SawBoth?
    requires s.calls[i].inFlight >= s.maxConcurrent && s.calls[i].queued < s.maxQueueSize
    ensures CanReach(start, At(s, i, Waiting(true)).(queued := s.queued + 1))
  {
    hide CanReach, Run;
    var s1 := At(s, i, Queueing);
    ReachMove(start, s, i, Succeeds, s1);
    AtTwice(s, i, Queueing, Waiting(true));
    ReachMove(start, s1, i, Succeeds, At(s, i, Waiting(true)).(queued := s.queued + 1));
  }

  /**
    On the way to an overfull queue: the first `running` calls run, the calls up to `waiting`
    wait in the queue, those up to `read` have read both counters, and the rest have entered.
   */
  function Crowd(c: nat, q: nat, n: nat, running: nat, waiting: nat, read: nat): Bulkhead {
    Bulkhead(c, q,
             seq(n, i => if i < running then Running else if i < waiting then Waiting(true)
                         else if i < read then SawBoth(c, 0) else Entered),
             c - running, running, waiting - running, 0, 0)
  }

  lemma {:induction false} RunSome(c: nat, q: nat, n: nat, k: nat)
    requires k <= c <= n
    ensures CanReach(Start(c, q, n), Crowd(c, q, n, k, k, k))
  {
    if k == 0 {
      assert Start(c, q, n).calls == Crowd(c, q, n, 0, 0, 0).calls;
      assert Run(Start(c, q, n), []) == Some(Crowd(c, q, n, 0, 0, 0));
    } else {
      var s := Crowd(c, q, n, k - 1, k - 1, k - 1);
      RunSome(c, q, n, k - 1);
      ReachRunning(Start(c, q, n), s, k - 1);
      assert s.calls[k - 1 := Running] == Crowd(c, q, n, k, k, k).calls;
    }
  }

  lemma {:induction false} ReadSome(c: nat, q: nat, n: nat, k: nat)
    requires c <= k <= n
    ensures CanReach(Start(c, q, n), Crowd(c, q, n, c, c, k))
  {
    if k == c {
      RunSome(c, q, n, c);
    } else {
      var s := Crowd(c, q, n, c, c, k - 1);
      ReadSome(c, q, n, k - 1);
      ReachSawBoth(Start(c, q, n), s, k - 1);
      assert s.calls[k - 1 := SawBoth(c, 0)] == Crowd(c, q, n, c, c, k).calls;
    }
  }

  lemma {:induction false} QueueSome(c: nat, q: nat, n: nat, k: nat, read: nat)
    requires c <= k <= read <= n && q > 0
    ensures CanReach(Start(c, q, n), Crowd(c, q, n, c, k, read))
  {
    if k == c {
      ReadSome(c, q, n, read);
    } else {
      var s := Crowd(c, q, n, c, k - 1, read);
      QueueSome(c, q, n, k - 1, read);
      ReachQueue(Start(c, q, n), s, k - 1);
      assert s.calls[k - 1 := Waiting(true)] == Crowd(c, q, n, c, k, read).calls;
    }
  }

  /**
    No interleaving exceeds the queue limit exactly when no queue is allowed or the permits
    and the queue have room for every call: otherwise the check and the increment, being
    separate steps, let in one call too many.
   */
  lemma QueueLimitExactly(maxConcurrent: nat, maxQueueSize: nat, calls: nat)
    ensures (forall schedule | Run(Start(maxConcurrent, maxQueueSize, calls), schedule).Some? ::
               Run(Start(maxConcurrent, maxQueueSize, calls), schedule).value.queued <= maxQueueSize) <==>
            maxQueueSize == 0 || calls <= maxConcurrent + maxQueueSize
  {
    var c, q := maxConcurrent, maxQueueSize;
    hide Run, Start;
    if q == 0 || calls <= c + q {
      forall schedule | Run(Start(c, q, calls), schedule).Some?
        ensures Run(Start(c, q, calls), schedule).value.queued <= q
      {
        QueueLimitHolds(c, q, calls, schedule);
      }
    } else {
      QueueSome(c, q, calls, c + q + 1, c + q + 1);
      var schedule :| Run(Start(c, q, calls), schedule) == Some(Crowd(c, q, calls, c, c + q + 1, c + q + 1));
      assert Run(Start(c, q, calls), schedule).value.queued == q + 1;
    }
  }

  // ---------- what a run records ----------

  lemma {:induction false} RunBefore(s: Bulkhead, schedule: Schedule, n: nat)
    requires Run(s, schedule).Some? && n <= |schedule|
    ensures Run(s, schedule[..n]).Some? && |Run(s, schedule[..n]).value.calls| == |s.calls|
    decreases n
  {
    if n > 0 {
      var s' := Move(s, schedule[0].0, schedule[0].1).value;
      assert |s'.calls| == |s.calls|;
      hide Move;
      assert schedule[..n][1..] == schedule[1..][..n - 1];
      RunBefore(s', schedule[1..], n - 1);
    }
  }

  lemma RunLast(s: Bulkhead, schedule: Schedule, n: nat)
    requires Run(s, schedule).Some? && |schedule| == n + 1
    ensures Run(s, schedule[..n]).Some? && schedule[n].0 < |Run(s, schedule[..n]).value.calls|
    ensures Run(s, schedule) == Move(Run(s, schedule[..n]).value, schedule[n].0, schedule[n].1)
  {
    hide Move, Run;
    RunBefore(s, schedule, n);
    LastIsInRange(s, schedule, n);
    RunThenMove(s, schedule[..n], schedule[n].0, schedule[n].1);
    assert schedule[..n] + [(schedule[n].0, schedule[n].1)] == schedule;
  }

  lemma {:induction false} LastIsInRange(s: Bulkhead, schedule: Schedule, n: nat)
    requires Run(s, schedule).Some? && |schedule| == n + 1
    ensures schedule[n].0 < |s.calls|
    decreases n
  {
    if n > 0 {
      var s' := Move(s, schedule[0].0, schedule[0].1).value;
      assert |s'.calls| == |s.calls|;
      hide Move;
      LastIsInRange(s', schedule[1..], n - 1);
    }
  }

  /** Step k of the schedule is taken by call i in state s, and turns out like this. */
  ghost predicate StepOf(start: Bulkhead, schedule: Schedule, k: nat, i: nat, outcome: Outcome, s: Bulkhead) {
    k < |schedule| && schedule[k] == (i, outcome) && Run(start, schedule[..k]) == Some(s) && i < |s.calls|
  }

  /** The future of call i ended in time (or did not). */
  ghost predicate Ended(start: Bulkhead, schedule: Schedule, i: nat, outcome: Outcome) {
    exists k: nat, s :: StepOf(start, schedule, k, i, outcome, s) && s.calls[i].Running?
  }

  /** The wait of call i for a permit timed out. */
  ghost predicate TimedOut(start: Bulkhead, schedule: Schedule, i: nat) {
    exists k: nat, s :: StepOf(start, schedule, k, i, Fails, s) && s.calls[i].Waiting?
  }

  /** Call i read this number of calls in flight, its first step. */
  ghost predicate ReadInFlight(start: Bulkhead, schedule: Schedule, i: nat, f: int) {
    exists k: nat, outcome, s :: StepOf(start, schedule, k, i, outcome, s) && s.calls[i].Entered? && s.inFlight == f
  }

  /** Call i read this number of queued calls, its second step. */
  ghost predicate ReadQueued(start: Bulkhead, schedule: Schedule, i: nat, q: int) {
    exists k: nat, outcome, s :: StepOf(start, schedule, k, i, outcome, s) && s.calls[i].SawInFlight? && s.queued == q
  }

  /** Call i read both limits as reached. */
  ghost predicate ReadFull(start: Bulkhead, schedule: Schedule, i: nat) {
    exists f, q :: ReadInFlight(start, schedule, i, f) && ReadQueued(start, schedule, i, q) &&
                   f >= start.maxConcurrent && q >= start.maxQueueSize
  }

  /** Call i read one of the limits as not reached. */
  ghost predicate ReadRoom(start: Bulkhead, schedule: Schedule, i: nat) {
    exists f, q :: ReadInFlight(start, schedule, i, f) && ReadQueued(start, schedule, i, q) &&
                   (f < start.maxConcurrent || q < start.maxQueueSize)
  }

  /** Call i found all permits in use (or not). */
  ghost predicate FoundBusy(start: Bulkhead, schedule: Schedule, i: nat, busy: bool) {
    exists f :: ReadInFlight(start, schedule, i, f) && (f >= start.maxConcurrent <==> busy)
  }

  /** The call was let in: it waits for a permit, or has waited and was not turned away. */
  predicate LetIn(pc: Pc) {
    match pc
    case Entered => false
    case SawInFlight(_) => false
    case SawBoth(_, _) => false
    case Refusing => false
    case Done(ok) => ok
    case _ => true
  }

  predicate EndedWell(pc: Pc) {
    (pc.Finishing? || pc.Recording? || pc.Releasing? || pc.Done?) && pc.ok
  }

  /** How the future of call i ended is what the call carries along. */
  ghost predicate EndShows(start: Bulkhead, schedule: Schedule, i: nat, pc: Pc) {
    && (EndedWell(pc) <==> Ended(start, schedule, i, Succeeds))
    && ((pc.Finishing? || pc.Recording? || pc.Releasing?) && !pc.ok ==> Ended(start, schedule, i, Fails))
  }

  /** What call i read decides whether it is let in, and whether it is counted as queued. */
  ghost predicate ReadsShow(start: Bulkhead, schedule: Schedule, i: nat, pc: Pc) {
    && (LetIn(pc) ==> ReadRoom(start, schedule, i))
    && match pc
       case SawInFlight(f) => ReadInFlight(start, schedule, i, f)
       case SawBoth(f, q) => ReadInFlight(start, schedule, i, f) && ReadQueued(start, schedule, i, q)
       case Queueing => FoundBusy(start, schedule, i, true)
       case Waiting(counted) => FoundBusy(start, schedule, i, counted)
       case Leaving(counted, _) => FoundBusy(start, schedule, i, counted)
       case _ => true
  }

  /** A call fails only for one of three reasons. */
  ghost predicate FailureShows(start: Bulkhead, schedule: Schedule, i: nat, pc: Pc) {
    match pc
    case Leaving(_, permit) => permit || TimedOut(start, schedule, i)
    case Refusing => TimedOut(start, schedule, i) || ReadFull(start, schedule, i)
    case Done(ok) =>
      ok || Ended(start, schedule, i, Fails) || TimedOut(start, schedule, i) || ReadFull(start, schedule, i)
    case _ => true
  }

  ghost predicate Explained(start: Bulkhead, schedule: Schedule, i: nat, pc: Pc) {
    && EndShows(start, schedule, i, pc)
    && ReadsShow(start, schedule, i, pc)
    && FailureShows(start, schedule, i, pc)
  }

  lemma StepStays(start: Bulkhead, schedule: Schedule, n: nat, k: nat, i: nat, outcome: Outcome, s: Bulkhead)
    requires n <= |schedule|
    ensures StepOf(start, schedule[..n], k, i, outcome, s) <==> k < n && StepOf(start, schedule, k, i, outcome, s)
  {
    assert k <= n ==> schedule[..n][..k] == schedule[..k];
  }

  lemma FactsStay(start: Bulkhead, schedule: Schedule, n: nat, i: nat)
    requires n <= |schedule|
    ensures forall outcome | Ended(start, schedule[..n], i, outcome) :: Ended(start, schedule, i, outcome)
    ensures TimedOut(start, schedule[..n], i) ==> TimedOut(start, schedule, i)
    ensures forall f | ReadInFlight(start, schedule[..n], i, f) :: ReadInFlight(start, schedule, i, f)
    ensures forall q | ReadQueued(start, schedule[..n], i, q) :: ReadQueued(start, schedule, i, q)
    ensures ReadFull(start, schedule[..n], i) ==> ReadFull(start, schedule, i)
    ensures ReadRoom(start, schedule[..n], i) ==> ReadRoom(start, schedule, i)
    ensures forall busy | FoundBusy(start, schedule[..n], i, busy) :: FoundBusy(start, schedule, i, busy)
  {
    hide StepOf;
    var before := schedule[..n];
    forall k, outcome, s | StepOf(start, before, k, i, outcome, s)
      ensures StepOf(start, schedule, k, i, outcome, s)
    {
      StepStays(start, schedule, n, k, i, outcome, s);
    }
  }

  /** Only the last step can add that the future of call i ended. */
  lemma EndedBefore(start: Bulkhead, schedule: Schedule, n: nat, i: nat, outcome: Outcome, last: Bulkhead)
    requires |schedule| == n + 1 && Run(start, schedule[..n]) == Some(last)
    requires Ended(start, schedule, i, outcome)
    ensures Ended(start, schedule[..n], i, outcome) ||
            (schedule[n] == (i, outcome) && i < |last.calls| && last.calls[i].Running?)
  {
    var k: nat, s: Bulkhead :| StepOf(start, schedule, k, i, outcome, s) && s.calls[i].Running?;
    if k < n {
      StepStays(start, schedule, n, k, i, outcome, s);
    }
  }

  lemma {:induction false} RunIsExplained(start: Bulkhead, schedule: Schedule, i: nat)
    requires Run(start, schedule).Some? && i < |start.calls|
    requires forall pc | pc in start.calls :: pc.Entered?
    ensures |Run(start, schedule).value.calls| == |start.calls|
    ensures Run(start, schedule).value.maxConcurrent == start.maxConcurrent
    ensures Run(start, schedule).value.maxQueueSize == start.maxQueueSize
    ensures Explained(start, schedule, i, Run(start, schedule).value.calls[i])
    decreases |schedule|
  {
    if schedule == [] {
      assert start.calls[i] in start.calls;
    } else {
      var n := |schedule| - 1;
      var (j, outcome) := schedule[n];
      RunLast(start, schedule, n);
      var s, s' := Run(start, schedule[..n]).value, Run(start, schedule).value;
      RunIsExplained(start, schedule[..n], i);
      MoveOfCall(s, j, outcome);
      FactsStay(start, schedule, n, i);
      if Ended(start, schedule, i, Succeeds) {
        EndedBefore(start, schedule, n, i, Succeeds, s);
      }
      if i == j {
        assert StepOf(start, schedule, n, i, outcome, s);
        StepIsExplained(start, schedule, i, outcome, s);
      }
    }
  }

  lemma StepIsExplained(start: Bulkhead, schedule: Schedule, i: nat, outcome: Outcome, s: Bulkhead)
    requires schedule != [] && i < |s.calls| && Move(s, i, outcome).Some?
    requires StepOf(start, schedule, |schedule| - 1, i, outcome, s)
    requires s.maxConcurrent == start.maxConcurrent && s.maxQueueSize == start.maxQueueSize
    requires Explained(start, schedule[..|schedule| - 1], i, s.calls[i])
    ensures Explained(start, schedule, i, Move(s, i, outcome).value.calls[i])
  {
    hide Move, EndShows, ReadsShow, FailureShows;
    EndAfterStep(start, schedule, i, outcome, s);
    ReadsAfterStep(start, schedule, i, outcome, s);
    FailureAfterStep(start, schedule, i, outcome, s);
  }

  lemma EndAfterStep(start: Bulkhead, schedule: Schedule, i: nat, outcome: Outcome, s: Bulkhead)
    requires schedule != [] && i < |s.calls| && Move(s, i, outcome).Some?
    requires StepOf(start, schedule, |schedule| - 1, i, outcome, s)
    requires EndShows(start, schedule[..|schedule| - 1], i, s.calls[i])
    ensures EndShows(start, schedule, i, Move(s, i, outcome).value.calls[i])
  {
    var n := |schedule| - 1;
    FactsStay(start, schedule, n, i);
    if Ended(start, schedule, i, Succeeds) {
      EndedBefore(start, schedule, n, i, Succeeds, s);
    }
    StepTells(start, schedule, n, i, outcome, s);
    NextPc(s, i, outcome);
    hide StepOf, Ended, Run, Move;
  }

  lemma ReadsAfterStep(start: Bulkhead, schedule: Schedule, i: nat, outcome: Outcome, s: Bulkhead)
    requires schedule != [] && i < |s.calls| && Move(s, i, outcome).Some?
    requires StepOf(start, schedule, |schedule| - 1, i, outcome, s)
    requires s.maxConcurrent == start.maxConcurrent && s.maxQueueSize == start.maxQueueSize
    requires ReadsShow(start, schedule[..|schedule| - 1], i, s.calls[i])
    ensures ReadsShow(start, schedule, i, Move(s, i, outcome).value.calls[i])
  {
    hide StepOf, ReadInFlight, ReadQueued, ReadRoom, FoundBusy, ReadFull, Run, Move;
    FactsStay(start, schedule, |schedule| - 1, i);
    StepTells(start, schedule, |schedule| - 1, i, outcome, s);
    if s.calls[i].SawBoth? {
      ReadsDecide(start, schedule, i, s.calls[i].inFlight, s.calls[i].queued);
    }
    NextPc(s, i, outcome);
  }

  lemma FailureAfterStep(start: Bulkhead, schedule: Schedule, i: nat, outcome: Outcome, s: Bulkhead)
    requires schedule != [] && i < |s.calls| && Move(s, i, outcome).Some?
    requires StepOf(start, schedule, |schedule| - 1, i, outcome, s)
    requires s.maxConcurrent == start.maxConcurrent && s.maxQueueSize == start.maxQueueSize
    requires Explained(start, schedule[..|schedule| - 1], i, s.calls[i])
    ensures FailureShows(start, schedule, i, Move(s, i, outcome).value.calls[i])
  {
    hide StepOf, ReadInFlight, ReadQueued, ReadRoom, FoundBusy, ReadFull, Ended, TimedOut, Run, Move;
    FactsStay(start, schedule, |schedule| - 1, i);
    StepTells(start, schedule, |schedule| - 1, i, outcome, s);
    if s.calls[i].SawBoth? {
      ReadsDecide(start, schedule, i, s.calls[i].inFlight, s.calls[i].queued);
    }
    NextPc(s, i, outcome);
  }

  /** Where a step leads the call that takes it. */
  lemma NextPc(s: Bulkhead, i: nat, outcome: Outcome)
    requires i < |s.calls| && Move(s, i, outcome).Some?
    ensures |Move(s, i, outcome).value.calls| == |s.calls|
    ensures var pc' := Move(s, i, outcome).value.calls[i];
            match s.calls[i]
            case Entered => pc' == SawInFlight(s.inFlight)
            case SawInFlight(f) => pc' == SawBoth(f, s.queued)
            case SawBoth(f, q) =>
              pc' == (if f < s.maxConcurrent then Waiting(false) else if q < s.maxQueueSize then Queueing else Refusing)
            case Queueing => pc' == Waiting(true)
            case Waiting(counted) => pc' == Leaving(counted, outcome.Succeeds?)
            case Leaving(_, permit) => pc' == if permit then Admitted else Refusing
            case Admitted => pc' == Running
            case Running => pc' == Finishing(outcome.Succeeds?)
            case Finishing(ok) => pc' == Recording(ok)
            case Recording(ok) => pc' == Releasing(ok)
            case Releasing(ok) => pc' == Done(ok)
            case Refusing => pc' == Done(false)
            case Done(_) => false
  {
  }

  lemma StepTells(start: Bulkhead, schedule: Schedule, k: nat, i: nat, outcome: Outcome, s: Bulkhead)
    requires StepOf(start, schedule, k, i, outcome, s)
    ensures s.calls[i].Entered? ==> ReadInFlight(start, schedule, i, s.inFlight)
    ensures s.calls[i].SawInFlight? ==> ReadQueued(start, schedule, i, s.queued)
    ensures s.calls[i].Running? ==> Ended(start, schedule, i, outcome)
    ensures s.calls[i].Waiting? && outcome.Fails? ==> TimedOut(start, schedule, i)
  {
  }

  lemma ReadsDecide(start: Bulkhead, schedule: Schedule, i: nat, f: int, q: int)
    requires ReadInFlight(start, schedule, i, f) && ReadQueued(start, schedule, i, q)
    ensures FoundBusy(start, schedule, i, f >= start.maxConcurrent)
    ensures if f >= start.maxConcurrent && q >= start.maxQueueSize then ReadFull(start, schedule, i)
            else ReadRoom(start, schedule, i)
  {
  }

  /**
    A call is let in only after it read one limit as not reached. What a finished call is
    recorded as is how it went: completed exactly when its future ended in time, and otherwise
    the future or the wait timed out, or the call read both limits as reached.
   */
  lemma OutcomesAreRecorded(maxConcurrent: nat, maxQueueSize: nat, calls: nat, schedule: Schedule, i: nat)
    requires Run(Start(maxConcurrent, maxQueueSize, calls), schedule).Some? && i < calls
    ensures var start := Start(maxConcurrent, maxQueueSize, calls);
            var s := Run(start, schedule).value;
            && |s.calls| == calls
            && (LetIn(s.calls[i]) ==> ReadRoom(start, schedule, i))
            && (s.calls[i] == Done(true) ==> Ended(start, schedule, i, Succeeds))
            && (s.calls[i] == Done(false) ==>
                  && !Ended(start, schedule, i, Succeeds)
                  && (Ended(start, schedule, i, Fails) || TimedOut(start, schedule, i) ||
                      ReadFull(start, schedule, i)))
  {
    hide Run, Ended, TimedOut, ReadFull, ReadRoom;
    RunIsExplained(Start(maxConcurrent, maxQueueSize, calls), schedule, i);
  }

  /** Step k ends a future in time. */
  ghost predicate EndsInTime(start: Bulkhead, schedule: Schedule, k: nat) {
    && k < |schedule| && schedule[k].1.Succeeds? && Run(start, schedule[..k]).Some?
    && var s := Run(start, schedule[..k]).value;
       schedule[k].0 < |s.calls| && s.calls[schedule[k].0].Running?
  }

  ghost function StepsInTime(start: Bulkhead, schedule: Schedule): set<nat> {
    set k: nat | k < |schedule| && EndsInTime(start, schedule, k)
  }

  lemma {:induction false} InTimeAreCounted(start: Bulkhead, schedule: Schedule)
    requires Run(start, schedule).Some? && forall pc | pc in start.calls :: pc.Entered?
    ensures Count(Run(start, schedule).value.calls, EndedWell) == |StepsInTime(start, schedule)|
    decreases |schedule|
  {
    if schedule == [] {
      CountConstant(start.calls, EndedWell);
      assert StepsInTime(start, schedule) == {};
    } else {
      var n := |schedule| - 1;
      var (j, outcome) := schedule[n];
      RunLast(start, schedule, n);
      var s, s' := Run(start, schedule[..n]).value, Run(start, schedule).value;
      InTimeAreCounted(start, schedule[..n]);
      LastInTime(start, schedule, n);
      MoveOfCall(s, j, outcome);
      StepEndsWell(s, j, outcome);
      hide Move, Run, Count, EndedWell, StepsInTime;
      CountUpdate(s.calls, j, s'.calls[j], EndedWell);
    }
  }

  lemma StepEndsWell(s: Bulkhead, i: nat, outcome: Outcome)
    requires i < |s.calls| && Move(s, i, outcome).Some?
    ensures EndedWell(Move(s, i, outcome).value.calls[i]) <==>
            EndedWell(s.calls[i]) || (s.calls[i].Running? && outcome.Succeeds?)
    ensures s.calls[i].Running? ==> !EndedWell(s.calls[i])
  {
  }

  lemma LastInTime(start: Bulkhead, schedule: Schedule, n: nat)
    requires |schedule| == n + 1
    ensures |StepsInTime(start, schedule)| ==
            |StepsInTime(start, schedule[..n])| + if EndsInTime(start, schedule, n) then 1 else 0
  {
    var before := StepsInTime(start, schedule[..n]);
    forall k: nat | k < n
      ensures EndsInTime(start, schedule[..n], k) <==> EndsInTime(start, schedule, k)
    {
      assert schedule[..n][..k] == schedule[..k];
    }
    hide EndsInTime;
    assert StepsInTime(start, schedule) == before + if EndsInTime(start, schedule, n) then {n} else {};
  }

  /** Once all calls have finished, the completed ones are counted by the steps that ended a future in time. */
  lemma CompletionsAreCounted(maxConcurrent: nat, maxQueueSize: nat, calls: nat, schedule: Schedule)
    requires Run(Start(maxConcurrent, maxQueueSize, calls), schedule).Some?
    ensures var start := Start(maxConcurrent, maxQueueSize, calls);
            var s := Run(start, schedule).value;
            && s.totalCompleted <= |StepsInTime(start, schedule)|
            && (AllDone(s) ==> s.totalCompleted == |StepsInTime(start, schedule)| &&
                               s.totalRejected == calls - |StepsInTime(start, schedule)|)
  {
    var start := Start(maxConcurrent, maxQueueSize, calls);
    StartIsInvariant(maxConcurrent, maxQueueSize, calls);
    RunKeepsInvariant(start, schedule);
    InTimeAreCounted(start, schedule);
    var s := Run(start, schedule).value;
    CountImplies(s.calls, RecordedCompleted, EndedWell);
    if AllDone(s) {
      EveryRunIsSafe(maxConcurrent, maxQueueSize, calls, schedule);
      DoneIsRecorded(s.calls);
    }
  }

  lemma {:induction false} DoneIsRecorded(calls: seq<Pc>)
    requires forall pc | pc in calls :: pc.Done?
    ensures Count(calls, EndedWell) == Count(calls, RecordedCompleted)
  {
    if calls != [] {
      var n := |calls| - 1;
      assert forall pc | pc in calls[..n] :: pc in calls;
      DoneIsRecorded(calls[..n]);
      assert calls[n] in calls;
    }
  }
}
