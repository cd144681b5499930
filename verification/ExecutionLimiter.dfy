/**
 * The server's admission limiter. Its counters change one atomic operation at a time, so an admission
 * passes through states in which some counters have moved and others have not; any number of admissions
 * interleave at that granularity.
 */
module ExecutionLimiter {

  /**
   * Where an admission stands. Enqueuing: counted as outstanding, the admission lock still held. Holding:
   * has a permit. Starting: left the queue, not yet active. Finishing: permit returned, still active.
   * Leaving: no longer active. Counted: completed. Dropping: left the queue without starting.
   */
  datatype Phase =
    | Enqueuing
    | Idle(queued: bool)
    | Holding(queued: bool)
    | Starting
    | Started
    | Finishing
    | Leaving
    | Counted
    | Dropping
    | Gone(started: bool)

  datatype Limiter = Limiter(
    maxActive: nat, maxQueued: nat, permits: int, outstanding: int, active: int, queued: int, completed: int,
    rejected: int, phases: seq<Phase>, owners: map<nat, nat>)

  /** Which admission objects exist is the caller's business; `h` names one. */
  datatype Step =
    | TryAdmit(h: nat)
    | Enqueue(h: nat)
    | Move(from: nat, to: nat)
    | Acquire(h: nat)
    | LeaveQueue(h: nat)
    | BecomeActive(h: nat)
    | ReturnPermit(h: nat)
    | LeaveActive(h: nat)
    | CountCompleted(h: nat)
    | Drop(h: nat)
    | Release(h: nat)

  predicate IsOutstanding(p: Phase) { !p.Gone? }
  predicate IsActive(p: Phase) { p.Started? || p.Finishing? }
  predicate IsQueued(p: Phase) { (p.Idle? && p.queued) || (p.Holding? && p.queued) }
  predicate IsCompleted(p: Phase) { p.Counted? || (p.Gone? && p.started) }
  predicate HoldsPermit(p: Phase) { p.Holding? || p.Starting? || p.Started? }
  predicate IsFinishing(p: Phase) { p.Finishing? }
  predicate HoldsLock(p: Phase) { p.Enqueuing? }

  /** How many admissions satisfy a predicate. */
  function Count(phases: seq<Phase>, what: Phase -> bool): nat {
    if phases == [] then 0 else Count(phases[..|phases| - 1], what) + (if what(phases[|phases| - 1]) then 1 else 0)
  }

  function NewLimiter(maxActive: nat, maxQueued: nat): Limiter {
    Limiter(maxActive, maxQueued, maxActive, 0, 0, 0, 0, 0, [], map[])
  }

  predicate LockFree(s: Limiter) {
    Count(s.phases, HoldsLock) == 0
  }

  predicate At(s: Limiter, h: nat) {
    h in s.owners && s.owners[h] < |s.phases|
  }

  function PhaseOf(s: Limiter, h: nat): Phase
    requires At(s, h)
  {
    s.phases[s.owners[h]]
  }

  function WithPhase(s: Limiter, h: nat, p: Phase): Limiter
    requires At(s, h)
  {
    s.(phases := s.phases[s.owners[h] := p])
  }

  /** Refuses when nothing may run at once, or the line behind the running ones is full. */
  predicate Refuses(s: Limiter) {
    s.maxActive == 0 || (s.outstanding >= s.maxActive && s.outstanding - s.maxActive >= s.maxQueued)
  }

  function Admitted(s: Limiter, h: nat): Limiter {
    if Refuses(s) then s.(rejected := s.rejected + 1)
    else s.(outstanding := s.outstanding + 1,
            phases := s.phases + [if s.outstanding >= s.maxActive then Enqueuing else Idle(false)],
            owners := s.owners[h := |s.phases|])
  }

  ghost predicate Next(s: Limiter, step: Step, t: Limiter) {
    match step
    case TryAdmit(h) => LockFree(s) && h !in s.owners && t == Admitted(s, h)
    case Enqueue(h) =>
      At(s, h) && PhaseOf(s, h).Enqueuing? && t == WithPhase(s, h, Idle(true)).(queued := s.queued + 1)
    case Move(from, to) =>
      if from in s.owners then to !in s.owners && t == s.(owners := (s.owners - {from})[to := s.owners[from]])
      else t == s
    case Acquire(h) =>
      && At(s, h) && PhaseOf(s, h).Idle? && s.permits > 0
      && t == WithPhase(s, h, Holding(PhaseOf(s, h).queued)).(permits := s.permits - 1)
    case LeaveQueue(h) =>
      At(s, h) && PhaseOf(s, h) == Holding(true) && t == WithPhase(s, h, Starting).(queued := s.queued - 1)
    case BecomeActive(h) =>
      && At(s, h) && (PhaseOf(s, h) == Holding(false) || PhaseOf(s, h).Starting?)
      && t == WithPhase(s, h, Started).(active := s.active + 1)
    case ReturnPermit(h) =>
      At(s, h) && PhaseOf(s, h).Started? && t == WithPhase(s, h, Finishing).(permits := s.permits + 1)
    case LeaveActive(h) =>
      At(s, h) && PhaseOf(s, h).Finishing? && t == WithPhase(s, h, Leaving).(active := s.active - 1)
    case CountCompleted(h) =>
      At(s, h) && PhaseOf(s, h).Leaving? && t == WithPhase(s, h, Counted).(completed := s.completed + 1)
    case Drop(h) =>
      At(s, h) && PhaseOf(s, h) == Idle(true) && t == WithPhase(s, h, Dropping).(queued := s.queued - 1)
    case Release(h) =>
      if h !in s.owners then t == s
      else
        && At(s, h) && LockFree(s)
        && (PhaseOf(s, h).Counted? || PhaseOf(s, h).Dropping? || PhaseOf(s, h) == Idle(false))
        && t == WithPhase(s, h, Gone(PhaseOf(s, h).Counted?)).(
             outstanding := s.outstanding - 1, owners := s.owners - {h})
  }

  // ----- what every step keeps ---------------------------------------------------------------

  /** Each admission still outstanding has exactly one object. */
  ghost predicate Owned(s: Limiter) {
    && (forall h :: h in s.owners ==> s.owners[h] < |s.phases| && !s.phases[s.owners[h]].Gone?)
    && (forall g, h :: g in s.owners && h in s.owners && g != h ==> s.owners[g] != s.owners[h])
    && (forall k :: 0 <= k < |s.phases| && !s.phases[k].Gone? ==> HasObject(s.owners, k))
  }

  ghost predicate HasObject(owners: map<nat, nat>, k: nat) {
    exists h :: h in owners && owners[h] == k
  }

  /** Every counter is exactly the number of admissions it is meant to count. */
  ghost predicate Inv(s: Limiter) {
    && Exact(s)
    && 0 <= s.permits
    && s.outstanding <= s.maxActive + s.maxQueued
    && Owned(s)
  }

  lemma {:induction false} CountUpdate(phases: seq<Phase>, k: nat, p: Phase, what: Phase -> bool)
    requires k < |phases|
    ensures Count(phases[k := p], what)
         == Count(phases, what) - (if what(phases[k]) then 1 else 0) + (if what(p) then 1 else 0)
  {
    var n := |phases| - 1;
    if k == n {
      assert phases[k := p][..n] == phases[..n];
    } else {
      CountUpdate(phases[..n], k, p, what);
      assert phases[k := p][..n] == phases[..n][k := p];
    }
  }

  lemma CountAppend(phases: seq<Phase>, p: Phase, what: Phase -> bool)
    ensures Count(phases + [p], what) == Count(phases, what) + (if what(p) then 1 else 0)
  {
    assert (phases + [p])[..|phases|] == phases;
  }

  /** The counters that match the phases. */
  ghost predicate Exact(s: Limiter) {
    && s.outstanding == Count(s.phases, IsOutstanding)
    && s.active == Count(s.phases, IsActive)
    && s.queued == Count(s.phases, IsQueued)
    && s.completed == Count(s.phases, IsCompleted)
    && s.permits + Count(s.phases, HoldsPermit) == s.maxActive
  }

  function One(b: bool): int {
    if b then 1 else 0
  }

  /** One admission moving from phase to phase keeps the counters exact if they move with it. */
  lemma PhaseKeeps(s: Limiter, h: nat, p: Phase, t: Limiter)
    requires Exact(s) && At(s, h) && t.phases == WithPhase(s, h, p).phases && t.maxActive == s.maxActive
    requires var was := PhaseOf(s, h);
      && t.outstanding == s.outstanding - One(IsOutstanding(was)) + One(IsOutstanding(p))
      && t.active == s.active - One(IsActive(was)) + One(IsActive(p))
      && t.queued == s.queued - One(IsQueued(was)) + One(IsQueued(p))
      && t.completed == s.completed - One(IsCompleted(was)) + One(IsCompleted(p))
      && t.permits == s.permits + One(HoldsPermit(was)) - One(HoldsPermit(p))
    ensures Exact(t)
  {
    var k := s.owners[h];
    CountUpdate(s.phases, k, p, IsOutstanding);
    CountUpdate(s.phases, k, p, IsActive);
    CountUpdate(s.phases, k, p, IsQueued);
    CountUpdate(s.phases, k, p, IsCompleted);
    CountUpdate(s.phases, k, p, HoldsPermit);
  }

  lemma AdmittedExact(s: Limiter, h: nat)
    requires Exact(s)
    ensures Exact(Admitted(s, h))
  {
    if !Refuses(s) {
      var p := if s.outstanding >= s.maxActive then Enqueuing else Idle(false);
      CountAppend(s.phases, p, IsOutstanding);
      CountAppend(s.phases, p, IsActive);
      CountAppend(s.phases, p, IsQueued);
      CountAppend(s.phases, p, IsCompleted);
      CountAppend(s.phases, p, HoldsPermit);
    }
  }

  lemma OwnedAfterAdmit(s: Limiter, h: nat)
    requires Owned(s) && h !in s.owners
    ensures Owned(Admitted(s, h))
  {
    var t := Admitted(s, h);
    if !Refuses(s) {
      forall k | 0 <= k < |t.phases| && !t.phases[k].Gone? ensures HasObject(t.owners, k) {
        if k < |s.phases| {
          assert HasObject(s.owners, k);
          var g :| g in s.owners && s.owners[g] == k;
          assert g in t.owners && t.owners[g] == k;
        } else {
          assert h in t.owners && t.owners[h] == k;
        }
      }
    }
  }

  lemma OwnedAfterMove(s: Limiter, from: nat, to: nat)
    requires Owned(s) && from in s.owners && to !in s.owners
    ensures Owned(s.(owners := (s.owners - {from})[to := s.owners[from]]))
  {
    var t := s.(owners := (s.owners - {from})[to := s.owners[from]]);
    forall k | 0 <= k < |t.phases| && !t.phases[k].Gone? ensures HasObject(t.owners, k) {
      assert HasObject(s.owners, k);
      var g :| g in s.owners && s.owners[g] == k;
      assert if g == from then to in t.owners && t.owners[to] == k else g in t.owners && t.owners[g] == k;
    }
  }

  lemma OwnedAfterRelease(s: Limiter, h: nat, started: bool)
    requires Owned(s) && h in s.owners
    ensures Owned(WithPhase(s, h, Gone(started)).(owners := s.owners - {h}))
  {
    var t := WithPhase(s, h, Gone(started)).(owners := s.owners - {h});
    forall k | 0 <= k < |t.phases| && !t.phases[k].Gone? ensures HasObject(t.owners, k) {
      assert HasObject(s.owners, k);
      var g :| g in s.owners && s.owners[g] == k;
      assert g in t.owners && t.owners[g] == k;
    }
  }

  lemma OwnedAfterPhase(s: Limiter, h: nat, p: Phase)
    requires Owned(s) && At(s, h) && !p.Gone?
    ensures Owned(WithPhase(s, h, p))
  {
    var t := WithPhase(s, h, p);
    forall k | 0 <= k < |t.phases| && !t.phases[k].Gone? ensures HasObject(t.owners, k) {
      if k != s.owners[h] {
        assert HasObject(s.owners, k);
        var g :| g in s.owners && s.owners[g] == k;
      }
    }
  }

  /** Ownership is about phases and owners only. */
  lemma OwnedDepends(s: Limiter, t: Limiter)
    requires Owned(s) && t.phases == s.phases && t.owners == s.owners
    ensures Owned(t)
  {
  }

  lemma PhaseStepKeeps(s: Limiter, h: nat, p: Phase, t: Limiter)
    requires Inv(s) && At(s, h) && !p.Gone? && !PhaseOf(s, h).Gone?
    requires t == WithPhase(s, h, p).(active := t.active, queued := t.queued, completed := t.completed,
                                      permits := t.permits)
    requires var was := PhaseOf(s, h);
      && t.active == s.active - One(IsActive(was)) + One(IsActive(p))
      && t.queued == s.queued - One(IsQueued(was)) + One(IsQueued(p))
      && t.completed == s.completed - One(IsCompleted(was)) + One(IsCompleted(p))
      && t.permits == s.permits + One(HoldsPermit(was)) - One(HoldsPermit(p)) >= 0
    ensures Inv(t)
  {
    hide Count;
    hide Owned;
    PhaseKeeps(s, h, p, t);
    OwnedAfterPhase(s, h, p);
    OwnedDepends(WithPhase(s, h, p), t);
  }

  lemma AdmitKeeps(s: Limiter, h: nat)
    requires Inv(s) && h !in s.owners
    ensures Inv(Admitted(s, h))
  {
    hide Count;
    hide Owned;
    hide Exact;
    AdmittedExact(s, h);
    OwnedAfterAdmit(s, h);
  }

  lemma MoveKeeps(s: Limiter, from: nat, to: nat)
    requires Inv(s) && from in s.owners && to !in s.owners
    ensures Inv(s.(owners := (s.owners - {from})[to := s.owners[from]]))
  {
    hide Count;
    hide Owned;
    OwnedAfterMove(s, from, to);
  }

  lemma ReleaseKeeps(s: Limiter, h: nat, t: Limiter)
    requires Inv(s) && Next(s, Release(h), t) && h in s.owners
    ensures Inv(t)
  {
    hide Count;
    hide Owned;
    var last := Gone(PhaseOf(s, h).Counted?);
    PhaseKeeps(s, h, last, t);
    OwnedAfterRelease(s, h, PhaseOf(s, h).Counted?);
    OwnedDepends(WithPhase(s, h, last).(owners := s.owners - {h}), t);
  }

  lemma QueueStepKeeps(s: Limiter, step: Step, t: Limiter)
    requires Inv(s) && Next(s, step, t) && (step.Enqueue? || step.Acquire? || step.LeaveQueue? || step.Drop?)
    ensures Inv(t)
  {
    hide Inv;
    Permits(s);
    match step {
      case Enqueue(h) => PhaseStepKeeps(s, h, Idle(true), t);
      case Acquire(h) => PhaseStepKeeps(s, h, Holding(PhaseOf(s, h).queued), t);
      case LeaveQueue(h) => PhaseStepKeeps(s, h, Starting, t);
      case Drop(h) => PhaseStepKeeps(s, h, Dropping, t);
    }
  }

  lemma RunStepKeeps(s: Limiter, step: Step, t: Limiter)
    requires Inv(s) && Next(s, step, t)
    requires step.BecomeActive? || step.ReturnPermit? || step.LeaveActive? || step.CountCompleted?
    ensures Inv(t)
  {
    hide Inv;
    Permits(s);
    match step {
      case BecomeActive(h) => PhaseStepKeeps(s, h, Started, t);
      case ReturnPermit(h) => PhaseStepKeeps(s, h, Finishing, t);
      case LeaveActive(h) => PhaseStepKeeps(s, h, Leaving, t);
      case CountCompleted(h) => PhaseStepKeeps(s, h, Counted, t);
    }
  }

  lemma StepKeeps(s: Limiter, step: Step, t: Limiter)
    requires Inv(s) && Next(s, step, t)
    ensures Inv(t) && t.maxActive == s.maxActive && t.maxQueued == s.maxQueued
  {
    hide Inv;
    hide Refuses;
    match step {
      case TryAdmit(h) => AdmitKeeps(s, h);
      case Move(from, to) => if from in s.owners { MoveKeeps(s, from, to); }
      case Release(h) => if h in s.owners { ReleaseKeeps(s, h, t); }
      case Enqueue(_) => QueueStepKeeps(s, step, t);
      case Acquire(_) => QueueStepKeeps(s, step, t);
      case LeaveQueue(_) => QueueStepKeeps(s, step, t);
      case Drop(_) => QueueStepKeeps(s, step, t);
      case _ => RunStepKeeps(s, step, t);
    }
  }

  lemma Permits(s: Limiter)
    requires Inv(s)
    ensures s.permits >= 0
  {
  }

  // ----- whole runs --------------------------------------------------------------------------

  ghost predicate Run(ss: seq<Limiter>, steps: seq<Step>, maxActive: nat, maxQueued: nat) {
    && |ss| == |steps| + 1 && ss[0] == NewLimiter(maxActive, maxQueued)
    && forall i :: 0 <= i < |steps| ==> Next(ss[i], steps[i], ss[i + 1])
  }

  lemma {:induction false} RunKeeps(ss: seq<Limiter>, steps: seq<Step>, maxActive: nat, maxQueued: nat, i: nat)
    requires Run(ss, steps, maxActive, maxQueued) && i < |ss|
    ensures Inv(ss[i]) && ss[i].maxActive == maxActive && ss[i].maxQueued == maxQueued
  {
    if i > 0 {
      RunKeeps(ss, steps, maxActive, maxQueued, i - 1);
      assert Next(ss[i - 1], steps[i - 1], ss[i]);
      StepKeeps(ss[i - 1], steps[i - 1], ss[i]);
    }
  }

  lemma {:induction false} CountsAdd(phases: seq<Phase>)
    ensures Count(phases, IsActive) + Count(phases, IsQueued) <= Count(phases, IsOutstanding)
    ensures Count(phases, IsActive) <= Count(phases, HoldsPermit) + Count(phases, IsFinishing)
  {
    if phases != [] {
      CountsAdd(phases[..|phases| - 1]);
    }
  }

  /**
   * At every point of every run: no counter is negative, active and queued together are at most
   * outstanding, which is at most the two limits together; and active exceeds its own limit by no more
   * than the admissions whose permit is back but which have not yet left.
   */
  lemma GaugesStayInBounds(ss: seq<Limiter>, steps: seq<Step>, maxActive: nat, maxQueued: nat, i: nat)
    requires Run(ss, steps, maxActive, maxQueued) && i < |ss|
    ensures var s := ss[i];
      && 0 <= s.active && 0 <= s.queued && 0 <= s.completed && 0 <= s.permits <= maxActive
      && s.active + s.queued <= s.outstanding <= maxActive + maxQueued
      && s.active <= maxActive + Count(s.phases, IsFinishing)
  {
    RunKeeps(ss, steps, maxActive, maxQueued, i);
    CountsAdd(ss[i].phases);
  }

  lemma {:induction false} AllGone(phases: seq<Phase>)
    requires forall k :: 0 <= k < |phases| ==> phases[k].Gone?
    ensures Count(phases, IsOutstanding) == Count(phases, IsActive) == Count(phases, IsQueued) == 0
    ensures Count(phases, HoldsPermit) == 0 && Count(phases, IsCompleted) == Count(phases, WasStarted)
  {
    if phases != [] {
      AllGone(phases[..|phases| - 1]);
    }
  }

  predicate WasStarted(p: Phase) {
    p.Gone? && p.started
  }

  /**
   * Once no admission object is left the gauges are back at zero, every permit is returned, and completed
   * counts exactly the admissions that were started.
   */
  lemma QuiescentGauges(ss: seq<Limiter>, steps: seq<Step>, maxActive: nat, maxQueued: nat, i: nat)
    requires Run(ss, steps, maxActive, maxQueued) && i < |ss| && ss[i].owners == map[]
    ensures var s := ss[i];
      && s.outstanding == s.active == s.queued == 0 && s.permits == maxActive
      && s.completed == Count(s.phases, WasStarted)
  {
    RunKeeps(ss, steps, maxActive, maxQueued, i);
    AllGone(ss[i].phases);
  }

  predicate Fills(step: Step, h: nat) {
    step == TryAdmit(h) || (step.Move? && step.to == h && step.from != h)
  }

  lemma StaysEmpty(s: Limiter, step: Step, t: Limiter, h: nat)
    requires Next(s, step, t) && h !in s.owners && !Fills(step, h)
    ensures h !in t.owners
    ensures step == Release(h) ==> t == s
  {
    hide LockFree;
    hide Count;
  }

  /**
   * An object that was moved from, or already released, releases nothing at any later point of the run, as
   * long as no admission was put into it again.
   */
  lemma {:induction false} MovedFromReleasesNothing(
    ss: seq<Limiter>, steps: seq<Step>, maxActive: nat, maxQueued: nat, i: nat, j: nat, h: nat)
    requires Run(ss, steps, maxActive, maxQueued) && i < j <= |steps|
    requires (steps[i].Move? && steps[i].from == h && steps[i].to != h) || steps[i] == Release(h)
    requires forall k :: i < k < j ==> !Fills(steps[k], h)
    ensures h !in ss[j].owners
    ensures j < |steps| && steps[j] == Release(h) ==> ss[j + 1] == ss[j]
    decreases j
  {
    if j == i + 1 {
      assert Next(ss[i], steps[i], ss[j]);
    } else {
      MovedFromReleasesNothing(ss, steps, maxActive, maxQueued, i, j - 1, h);
      assert Next(ss[j - 1], steps[j - 1], ss[j]);
      StaysEmpty(ss[j - 1], steps[j - 1], ss[j], h);
    }
    if j < |steps| {
      assert Next(ss[j], steps[j], ss[j + 1]);
    }
  }

  /** A state that some run ends in. */
  ghost predicate Reachable(s: Limiter) {
    exists ss, steps :: Run(ss, steps, s.maxActive, s.maxQueued) && ss[|steps|] == s
  }

  lemma StartReachable(maxActive: nat, maxQueued: nat)
    ensures Reachable(NewLimiter(maxActive, maxQueued))
  {
    var s := NewLimiter(maxActive, maxQueued);
    var steps: seq<Step> := [];
    assert Run([s], steps, maxActive, maxQueued) && [s][|steps|] == s;
  }

  lemma StepReachable(s: Limiter, step: Step, t: Limiter)
    requires Reachable(s) && Next(s, step, t) && t.maxActive == s.maxActive && t.maxQueued == s.maxQueued
    ensures Reachable(t)
  {
    var ss, steps :| Run(ss, steps, s.maxActive, s.maxQueued) && ss[|steps|] == s;
    var longer, more := ss + [t], steps + [step];
    forall i | 0 <= i < |more| ensures Next(longer[i], more[i], longer[i + 1]) {
      if i < |steps| {
        assert Next(ss[i], steps[i], ss[i + 1]);
      }
    }
    assert Run(longer, more, t.maxActive, t.maxQueued) && longer[|more|] == t;
  }

  lemma {:induction false} Counts(phases: seq<Phase>)
    requires forall k :: 0 <= k < |phases| ==> !HoldsLock(phases[k])
    ensures Count(phases, HoldsLock) == 0
  {
    if phases != [] {
      Counts(phases[..|phases| - 1]);
    }
  }

  lemma StartedReachable(s: Limiter, h: nat)
    requires Reachable(s) && At(s, h) && PhaseOf(s, h) == Idle(true) && s.permits > 0
    ensures Reachable(WithPhase(s, h, Started).(active := s.active + 1, queued := s.queued - 1,
                                                permits := s.permits - 1))
  {
    hide Reachable;
    var held := WithPhase(s, h, Holding(true)).(permits := s.permits - 1);
    var leaving := WithPhase(held, h, Starting).(queued := s.queued - 1);
    var started := WithPhase(leaving, h, Started).(active := s.active + 1);
    StepReachable(s, Acquire(h), held);
    StepReachable(held, LeaveQueue(h), leaving);
    StepReachable(leaving, BecomeActive(h), started);
    assert started
        == WithPhase(s, h, Started).(active := s.active + 1, queued := s.queued - 1, permits := s.permits - 1);
  }

  lemma WaitingReachable(s: Limiter, h: nat)
    requires Reachable(s) && LockFree(s) && h !in s.owners && !Refuses(s) && s.outstanding >= s.maxActive
    ensures Reachable(s.(outstanding := s.outstanding + 1, queued := s.queued + 1, phases := s.phases + [Idle(true)],
                         owners := s.owners[h := |s.phases|]))
  {
    hide Reachable;
    var enqueuing := Admitted(s, h);
    var waiting := WithPhase(enqueuing, h, Idle(true)).(queued := s.queued + 1);
    StepReachable(s, TryAdmit(h), enqueuing);
    StepReachable(enqueuing, Enqueue(h), waiting);
    assert waiting.phases == s.phases + [Idle(true)];
  }

  // ----- the two limits ----------------------------------------------------------------------

  /** The first n admissions are all still outstanding, each owned by the object of its number, none mid-admission. */
  ghost predicate Filled(s: Limiter, maxActive: nat, maxQueued: nat, n: nat) {
    && Reachable(s) && s.maxActive == maxActive && s.maxQueued == maxQueued
    && s.outstanding == |s.phases| == n
    && (forall h: nat :: h in s.owners <==> h < n)
    && (forall h :: h in s.owners ==> s.owners[h] == h)
    && (forall k :: 0 <= k < n ==> !HoldsLock(s.phases[k]))
  }

  /** One more admission, which need not wait. */
  lemma FillOne(s: Limiter, maxActive: nat, maxQueued: nat, n: nat) returns (t: Limiter)
    requires Filled(s, maxActive, maxQueued, n) && n < maxActive
    ensures Filled(t, maxActive, maxQueued, n + 1)
    ensures t == s.(outstanding := n + 1, phases := s.phases + [Idle(false)], owners := s.owners[n := n])
  {
    hide Reachable;
    Counts(s.phases);
    t := Admitted(s, n);
    StepReachable(s, TryAdmit(n), t);
  }

  /** One more admission, which has to wait. */
  lemma FillWaiting(s: Limiter, maxActive: nat, maxQueued: nat, n: nat) returns (t: Limiter)
    requires Filled(s, maxActive, maxQueued, n) && 1 <= maxActive <= n < maxActive + maxQueued
    ensures Filled(t, maxActive, maxQueued, n + 1)
    ensures t == s.(outstanding := n + 1, queued := s.queued + 1, phases := s.phases + [Idle(true)],
                    owners := s.owners[n := n])
  {
    hide Reachable;
    Counts(s.phases);
    WaitingReachable(s, n);
    t := s.(outstanding := n + 1, queued := s.queued + 1, phases := s.phases + [Idle(true)],
            owners := s.owners[n := n]);
  }

  lemma NothingFilled(maxActive: nat, maxQueued: nat) returns (s: Limiter)
    ensures Filled(s, maxActive, maxQueued, 0) && s == NewLimiter(maxActive, maxQueued)
  {
    StartReachable(maxActive, maxQueued);
    s := NewLimiter(maxActive, maxQueued);
  }

  lemma {:induction false} FillIdle(maxActive: nat, maxQueued: nat, n: nat) returns (s: Limiter)
    requires n <= maxActive
    ensures Filled(s, maxActive, maxQueued, n) && s.queued == 0
    ensures n > 0 ==> s.phases[0] == Idle(false)
  {
    hide Reachable;
    if n == 0 {
      s := NothingFilled(maxActive, maxQueued);
    } else {
      var before := FillIdle(maxActive, maxQueued, n - 1);
      s := FillOne(before, maxActive, maxQueued, n - 1);
    }
  }

  lemma {:induction false} FillQueue(maxActive: nat, maxQueued: nat, q: nat) returns (s: Limiter)
    requires 1 <= maxActive && q <= maxQueued
    ensures Filled(s, maxActive, maxQueued, maxActive + q) && s.queued == q && s.phases[0] == Idle(false)
  {
    hide Reachable;
    if q == 0 {
      s := FillIdle(maxActive, maxQueued, maxActive);
    } else {
      var before := FillQueue(maxActive, maxQueued, q - 1);
      s := FillWaiting(before, maxActive, maxQueued, maxActive + q - 1);
    }
  }

  lemma {:induction false} FillRunning(maxActive: nat, maxQueued: nat, n: nat) returns (s: Limiter)
    requires n <= maxActive
    ensures Filled(s, maxActive, maxQueued, n) && s.active == n && s.permits == maxActive - n
    ensures n > 0 ==> s.phases[0] == Started
  {
    hide Reachable;
    if n == 0 {
      s := NothingFilled(maxActive, maxQueued);
    } else {
      var before := FillRunning(maxActive, maxQueued, n - 1);
      var idle := FillOne(before, maxActive, maxQueued, n - 1);
      s := StartOne(idle, maxActive, maxQueued, n);
      assert n > 1 ==> idle.phases[0] == before.phases[0];
    }
  }

  lemma StartOne(s: Limiter, maxActive: nat, maxQueued: nat, n: nat) returns (t: Limiter)
    requires n > 0 && Filled(s, maxActive, maxQueued, n) && s.phases[n - 1] == Idle(false) && s.permits > 0
    ensures Filled(t, maxActive, maxQueued, n)
    ensures t == s.(active := s.active + 1, permits := s.permits - 1, phases := s.phases[n - 1 := Started])
  {
    hide Reachable;
    var held := WithPhase(s, n - 1, Holding(false)).(permits := s.permits - 1);
    StepReachable(s, Acquire(n - 1), held);
    t := WithPhase(held, n - 1, Started).(active := s.active + 1);
    StepReachable(held, BecomeActive(n - 1), t);
    assert t.phases == s.phases[n - 1 := Started];
  }

  /** With the line full, an admission that never ran is released and another one let in to wait. */
  lemma QueuedPassesItsLimit(maxActive: nat, maxQueued: nat) returns (s: Limiter)
    requires maxActive >= 1 && maxQueued >= 1
    ensures Reachable(s) && s.maxActive == maxActive && s.maxQueued == maxQueued && s.queued == maxQueued + 1
  {
    hide Reachable;
    var full := FillQueue(maxActive, maxQueued, maxQueued);
    var released := WithPhase(full, 0, Gone(false)).(outstanding := full.outstanding - 1, owners := full.owners - {0});
    Counts(full.phases);
    StepReachable(full, Release(0), released);
    Counts(released.phases);
    var h := |full.phases|;
    WaitingReachable(released, h);
    s := released.(outstanding := released.outstanding + 1, queued := released.queued + 1,
                   phases := released.phases + [Idle(true)], owners := released.owners[h := |released.phases|]);
  }

  /** With every permit taken and one waiting, a permit comes back before its admission leaves. */
  lemma ActivePassesItsLimit(maxActive: nat, maxQueued: nat) returns (s: Limiter)
    requires maxActive >= 1 && maxQueued >= 1
    ensures Reachable(s) && s.maxActive == maxActive && s.maxQueued == maxQueued && s.active == maxActive + 1
  {
    hide Reachable;
    var running := FillRunning(maxActive, maxQueued, maxActive);
    var full := FillWaiting(running, maxActive, maxQueued, maxActive);
    assert full.phases[0] == running.phases[0] == Started;
    var finishing := WithPhase(full, 0, Finishing).(permits := full.permits + 1);
    StepReachable(full, ReturnPermit(0), finishing);
    StartedReachable(finishing, maxActive);
    s := WithPhase(finishing, maxActive, Started).(
      active := finishing.active + 1, queued := finishing.queued - 1, permits := finishing.permits - 1);
  }

  predicate Waited(p: Phase) {
    p.Enqueuing? || IsQueued(p) || p.Starting? || p.Dropping?
  }

  /** Nothing ever waits when there is no line, or when nothing is let in at all. */
  ghost predicate NobodyWaits(s: Limiter) {
    forall k :: 0 <= k < |s.phases| ==> !Waited(s.phases[k])
  }

  lemma NobodyStartsToWait(s: Limiter, step: Step, t: Limiter)
    requires s.maxActive == 0 || s.maxQueued == 0
    requires NobodyWaits(s) && Next(s, step, t)
    ensures NobodyWaits(t)
  {
    hide LockFree;
  }

  lemma {:induction false} NobodyQueued(phases: seq<Phase>)
    requires forall k :: 0 <= k < |phases| ==> !Waited(phases[k])
    ensures Count(phases, IsQueued) == 0
  {
    if phases != [] {
      NobodyQueued(phases[..|phases| - 1]);
    }
  }

  lemma {:induction false} NobodyEverWaits(ss: seq<Limiter>, steps: seq<Step>, maxActive: nat, maxQueued: nat, i: nat)
    requires Run(ss, steps, maxActive, maxQueued) && i < |ss| && (maxActive == 0 || maxQueued == 0)
    ensures NobodyWaits(ss[i]) && ss[i].queued == 0
    ensures maxActive == 0 ==> ss[i].phases == []
  {
    RunKeeps(ss, steps, maxActive, maxQueued, i);
    if i > 0 {
      NobodyEverWaits(ss, steps, maxActive, maxQueued, i - 1);
      RunKeeps(ss, steps, maxActive, maxQueued, i - 1);
      assert Next(ss[i - 1], steps[i - 1], ss[i]);
      NobodyStartsToWait(ss[i - 1], steps[i - 1], ss[i]);
    }
    NobodyQueued(ss[i].phases);
  }

  /**
   * The limiter keeps to its limit on waiting admissions in every run if and only if nothing may run at all
   * or nothing may wait.
   */
  lemma QueuedWithinLimit(maxActive: nat, maxQueued: nat)
    ensures (forall s :: Reachable(s) && s.maxActive == maxActive && s.maxQueued == maxQueued ==> s.queued <= maxQueued)
       <==> maxActive == 0 || maxQueued == 0
  {
    if maxActive == 0 || maxQueued == 0 {
      forall s | Reachable(s) && s.maxActive == maxActive && s.maxQueued == maxQueued ensures s.queued <= maxQueued {
        var ss, steps :| Run(ss, steps, maxActive, maxQueued) && ss[|steps|] == s;
        NobodyEverWaits(ss, steps, maxActive, maxQueued, |steps|);
      }
    } else {
      var s := QueuedPassesItsLimit(maxActive, maxQueued);
    }
  }

  /** So it does for running admissions, under the same condition. */
  lemma ActiveWithinLimit(maxActive: nat, maxQueued: nat)
    ensures (forall s :: Reachable(s) && s.maxActive == maxActive && s.maxQueued == maxQueued ==> s.active <= maxActive)
       <==> maxActive == 0 || maxQueued == 0
  {
    if maxActive == 0 || maxQueued == 0 {
      forall s | Reachable(s) && s.maxActive == maxActive && s.maxQueued == maxQueued ensures s.active <= maxActive {
        var ss, steps :| Run(ss, steps, maxActive, maxQueued) && ss[|steps|] == s;
        GaugesStayInBounds(ss, steps, maxActive, maxQueued, |steps|);
        NobodyEverWaits(ss, steps, maxActive, maxQueued, |steps|);
        RunKeeps(ss, steps, maxActive, maxQueued, |steps|);
      }
    } else {
      var s := ActivePassesItsLimit(maxActive, maxQueued);
    }
  }

  // ----- the limiter itself ------------------------------------------------------------------

  /** One thread's operations, undisturbed; each is a sequence of the steps above. */
  class RpcExecutionLimiter {
    const maxActive: nat
    const maxQueued: nat
    var permits: int
    var outstanding: int
    var active: int
    var queued: int
    var completed: int
    var rejected: int
    var phases: seq<Phase>
    var owners: map<nat, nat>

    function State(): Limiter
      reads this
    {
      Limiter(maxActive, maxQueued, permits, outstanding, active, queued, completed, rejected, phases, owners)
    }

    constructor (maxActive: nat, maxQueued: nat)
      ensures State() == NewLimiter(maxActive, maxQueued) && Inv(State())
    {
      this.maxActive, this.maxQueued, permits := maxActive, maxQueued, maxActive;
      outstanding, active, queued, completed, rejected, phases, owners := 0, 0, 0, 0, 0, [], map[];
    }

    method TryAdmit(h: nat) returns (ok: bool)
      requires Inv(State()) && LockFree(State()) && h !in owners
      modifies this
      ensures Inv(State()) && LockFree(State())
      ensures ok == !Refuses(old(State()))
      ensures State() == if !ok then old(State()).(rejected := old(rejected) + 1)
                         else var waits := old(outstanding) >= maxActive;
                           old(State()).(outstanding := old(outstanding) + 1, queued := old(queued) + One(waits),
                                         phases := old(phases) + [Idle(waits)],
                                         owners := old(owners)[h := |old(phases)|])
    {
      hide Inv;
      IdleLeavesLockFree(phases, outstanding >= maxActive);
      hide Count;
      if maxActive == 0 || (outstanding >= maxActive && outstanding - maxActive >= maxQueued) {
        Reject();
        return false;
      }
      var waits := outstanding >= maxActive;
      Enter(h);
      if waits {
        JoinLine(h);
      }
      assert phases == old(phases) + [Idle(waits)];
      return true;
    }

    /** Counts an admission, which still holds the admission lock if it has to wait. */
    method Enter(h: nat)
      requires Inv(State()) && h !in owners && !Refuses(State())
      modifies this`outstanding, this`phases, this`owners
      ensures Inv(State()) && State() == Admitted(old(State()), h)
    {
      AdmitKeeps(State(), h);
      hide Inv;
      phases := phases + [if outstanding >= maxActive then Enqueuing else Idle(false)];
      outstanding := outstanding + 1;
      owners := owners[h := |phases| - 1];
    }

    method JoinLine(h: nat)
      requires Inv(State()) && At(State(), h) && PhaseOf(State(), h).Enqueuing?
      modifies this`queued, this`phases
      ensures Inv(State()) && State() == WithPhase(old(State()), h, Idle(true)).(queued := old(queued) + 1)
    {
      hide Inv;
      queued := queued + 1;
      phases := phases[owners[h] := Idle(true)];
      StepKeeps(old(State()), Enqueue(h), State());
    }

    /** Counts a request refused for another reason than these limits. */
    method Reject()
      requires Inv(State())
      modifies this`rejected
      ensures Inv(State()) && State() == old(State()).(rejected := old(rejected) + 1)
    {
      RejectedIsFree(State(), rejected + 1);
      hide Inv;
      rejected := rejected + 1;
    }

    /** Starts an admission that has its permit. */
    method Start(h: nat)
      requires Inv(State()) && At(State(), h) && PhaseOf(State(), h).Holding?
      modifies this
      ensures Inv(State())
      ensures var was := PhaseOf(old(State()), h);
        State() == WithPhase(old(State()), h, Started).(active := old(active) + 1,
                                                        queued := old(queued) - One(was.queued))
    {
      hide Inv;
      ghost var before := State();
      if phases[owners[h]].queued {
        queued := queued - 1;
        phases := phases[owners[h] := Starting];
        StepKeeps(before, LeaveQueue(h), State());
        before := State();
      }
      active := active + 1;
      phases := phases[owners[h] := Started];
      StepKeeps(before, BecomeActive(h), State());
    }

    /** Destroys an admission object; one that was moved from releases nothing. */
    method Destroy(h: nat)
      requires Inv(State()) && LockFree(State())
      requires h in owners ==> At(State(), h) && (PhaseOf(State(), h).Idle? || PhaseOf(State(), h).Finishing?)
      modifies this
      ensures Inv(State())
      ensures h !in old(owners) ==> State() == old(State())
      ensures h in old(owners) ==>
        var was := PhaseOf(old(State()), h);
        State() == WithPhase(old(State()), h, Gone(was.Finishing?)).(
                     active := old(active) - One(was.Finishing?), completed := old(completed) + One(was.Finishing?),
                     queued := old(queued) - One(was == Idle(true)),
                     outstanding := old(outstanding) - 1, owners := old(owners) - {h})
    {
      hide Inv;
      hide LockFree;
      if h !in owners {
        return;
      }
      var was := phases[owners[h]];
      if was.Finishing? {
        Complete(h);
      } else if was.queued {
        LeaveLine(h);
      }
      GiveUpPlace(h);
    }

    method Complete(h: nat)
      requires Inv(State()) && LockFree(State()) && At(State(), h) && PhaseOf(State(), h).Finishing?
      modifies this`active, this`completed, this`phases
      ensures Inv(State()) && LockFree(State())
      ensures State() == WithPhase(old(State()), h, Counted).(active := old(active) - 1,
                                                              completed := old(completed) + 1)
    {
      hide Inv;
      ghost var before := State();
      active := active - 1;
      phases := phases[owners[h] := Leaving];
      StepKeeps(before, LeaveActive(h), State());
      before := State();
      completed := completed + 1;
      phases := phases[owners[h] := Counted];
      StepKeeps(before, CountCompleted(h), State());
      assert phases == old(phases)[owners[h] := Counted];
      StillUnlocked(old(phases), owners[h], Counted);
    }

    method LeaveLine(h: nat)
      requires Inv(State()) && LockFree(State()) && At(State(), h) && PhaseOf(State(), h) == Idle(true)
      modifies this`queued, this`phases
      ensures Inv(State()) && LockFree(State())
      ensures State() == WithPhase(old(State()), h, Dropping).(queued := old(queued) - 1)
    {
      hide Inv;
      queued := queued - 1;
      phases := phases[owners[h] := Dropping];
      StepKeeps(old(State()), Drop(h), State());
      StillUnlocked(old(phases), owners[h], Dropping);
    }

    method GiveUpPlace(h: nat)
      requires Inv(State()) && LockFree(State()) && At(State(), h)
      requires PhaseOf(State(), h).Counted? || PhaseOf(State(), h).Dropping? || PhaseOf(State(), h) == Idle(false)
      modifies this`outstanding, this`phases, this`owners
      ensures Inv(State())
      ensures State() == WithPhase(old(State()), h, Gone(PhaseOf(old(State()), h).Counted?)).(
                           outstanding := old(outstanding) - 1, owners := old(owners) - {h})
    {
      hide Inv;
      hide LockFree;
      outstanding := outstanding - 1;
      phases := phases[owners[h] := Gone(phases[owners[h]].Counted?)];
      owners := owners - {h};
      StepKeeps(old(State()), Release(h), State());
    }
  }

  lemma RejectedIsFree(s: Limiter, rejected: int)
    requires Inv(s)
    ensures Inv(s.(rejected := rejected))
  {
    OwnedDepends(s, s.(rejected := rejected));
    hide Owned;
    hide Count;
  }

  lemma IdleLeavesLockFree(phases: seq<Phase>, queued: bool)
    ensures Count(phases + [Idle(queued)], HoldsLock) == Count(phases, HoldsLock)
  {
    CountAppend(phases, Idle(queued), HoldsLock);
  }

  lemma StillUnlocked(phases: seq<Phase>, k: nat, p: Phase)
    requires k < |phases| && Count(phases, HoldsLock) == 0 && !HoldsLock(p)
    ensures Count(phases[k := p], HoldsLock) == 0
  {
    CountUpdate(phases, k, p, HoldsLock);
  }
}
