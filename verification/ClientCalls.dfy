/**
 * The client's pending calls: which call a response completes, and what a timeout, a cancellation or a
 * lost connection does to the others. Each locked section of the client is one step, and so is each use of
 * a sender that an earlier one took out of the map.
 */
module ClientCalls {
  import opened Bytes
  import opened Wrappers
  import opened NekoBackend
  import PeerSession
  import FrameCodec
  import Compression
  import Tables = MethodIdTable
  import Negotiation

  datatype Outcome = Reply(frame: bytes) | Failure(error: RpcError)

  /** Fresh: encoded, not yet registered. Waiting: registered, its erase guard armed. Over: returned. */
  datatype Stage = Fresh | Waiting | Over

  /** One send of a call: its request id, its one-shot channel and how far it has come. */
  datatype Attempt = Attempt(id: u64, stage: Stage, outcome: Option<Outcome>)

  /** `inHand` are the senders taken out of the map and not yet used, with what is going to be sent on them. */
  datatype Calls = Calls(
    nextId: u64, pending: map<u64, nat>, inHand: map<nat, Outcome>, attempts: seq<Attempt>, limit: nat)

  datatype Step =
    | Encode
    | Register(k: nat)
    | Respond(id: u64, frame: bytes)
    | CancelRemote(id: u64, error: RpcError)
    | FailEverything(error: RpcError)
    | SendOn(k: nat)
    | RunGuard(k: nat)
    | Take(k: nat)

  function NewCalls(limit: nat): Calls {
    Calls(0, map[], map[], [], limit)
  }

  function WithAttempt(s: Calls, k: nat, a: Attempt): Calls
    requires k < |s.attempts|
  {
    s.(attempts := s.attempts[k := a])
  }

  function Encoded(s: Calls): Calls {
    s.(nextId := NextId(s.nextId), attempts := s.attempts + [Attempt(NextId(s.nextId), Fresh, None)])
  }

  function Registered(s: Calls, k: nat): Calls
    requires k < |s.attempts|
  {
    var a := s.attempts[k];
    if |s.pending| >= s.limit || a.id in s.pending then WithAttempt(s, k, a.(stage := Over))
    else WithAttempt(s.(pending := s.pending[a.id := k]), k, a.(stage := Waiting))
  }

  /** The sender of the call with this id, if it is there, is taken out of the map. */
  function PickedUp(s: Calls, id: u64, outcome: Outcome): Calls {
    if id in s.pending then s.(pending := s.pending - {id}, inHand := s.inHand[s.pending[id] := outcome]) else s
  }

  /** All senders are taken out. */
  function Swapped(s: Calls, error: RpcError): Calls {
    s.(pending := map[],
       inHand := map k | k in s.inHand.Keys + s.pending.Values ::
                   if k in s.pending.Values then Failure(error) else s.inHand[k])
  }

  /** A sender is used: the outcome reaches its call unless that is over. */
  function Sent(s: Calls, k: nat): Calls {
    if k !in s.inHand then s
    else
      var t := s.(inHand := s.inHand - {k});
      if k < |s.attempts| && s.attempts[k].stage != Over
      then WithAttempt(t, k, s.attempts[k].(outcome := Some(s.inHand[k]))) else t
  }

  /** Picked up and sent on with nothing in between. */
  function Completed(s: Calls, id: u64, outcome: Outcome): Calls {
    if id in s.pending then Sent(PickedUp(s, id, outcome), s.pending[id]) else s
  }

  function AllFailed(s: Calls, error: RpcError): Calls {
    s.(pending := map[],
       attempts := seq(|s.attempts|, i requires 0 <= i < |s.attempts| =>
                     if i in s.pending.Values then WithFailure(s.attempts[i], error) else s.attempts[i]))
  }

  /** The guard of an attempt that ends without taking a response. */
  function Abandoned(s: Calls, k: nat): Calls
    requires k < |s.attempts|
  {
    WithAttempt(s.(pending := s.pending - {s.attempts[k].id}), k, s.attempts[k].(stage := Over))
  }

  function Taken(s: Calls, k: nat): Calls
    requires k < |s.attempts|
  {
    WithAttempt(s, k, s.attempts[k].(stage := Over))
  }

  ghost predicate Next(s: Calls, step: Step, t: Calls) {
    match step
    case Encode => t == Encoded(s)
    case Register(k) => k < |s.attempts| && s.attempts[k].stage == Fresh && t == Registered(s, k)
    case Respond(id, frame) => t == PickedUp(s, id, Reply(frame))
    case CancelRemote(id, error) => t == PickedUp(s, id, Failure(error))
    case FailEverything(error) => t == Swapped(s, error)
    case SendOn(k) => k in s.inHand && t == Sent(s, k)
    case RunGuard(k) => k < |s.attempts| && s.attempts[k].stage == Waiting && t == Abandoned(s, k)
    case Take(k) =>
      && k < |s.attempts| && s.attempts[k].stage == Waiting && s.attempts[k].outcome.Some?
      && s.attempts[k].outcome.value.Reply? && t == Taken(s, k)
  }

  // ----- what stays true ---------------------------------------------------------------------

  /**
   * Ids count up from 1; the senders of the waiting calls without an outcome are each in one place, the map or
   * somebody's hand; the map holds no others, and those in hand that are not waiting have been abandoned.
   */
  ghost predicate Inv(s: Calls) {
    && |s.pending| <= s.limit
    && s.nextId == |s.attempts| && |s.attempts| <= SIZE_MAX
    && Numbered(s.attempts) && Entered(s) && Held(s)
    && (forall k :: 0 <= k < |s.attempts| ==> Placed(s, k))
  }

  ghost predicate Numbered(attempts: seq<Attempt>) {
    forall k :: 0 <= k < |attempts| ==>
      attempts[k].id == k + 1 && (attempts[k].stage == Fresh ==> attempts[k].outcome == None)
  }

  ghost predicate Entered(s: Calls) {
    forall id :: id in s.pending ==> 1 <= id <= |s.attempts| && s.pending[id] == id - 1
  }

  ghost predicate Held(s: Calls) {
    forall k :: k in s.inHand ==> k < |s.attempts|
  }

  /** Where the sender of an attempt is. */
  predicate Placed(s: Calls, k: nat)
    requires k < |s.attempts|
  {
    var a := s.attempts[k];
    && (a.id in s.pending ==> Unanswered(a) && k !in s.inHand)
    && (k in s.inHand ==> a.stage != Fresh && a.outcome == None)
    && (Unanswered(a) ==> a.id in s.pending || k in s.inHand)
  }

  predicate Unanswered(a: Attempt) {
    a.stage == Waiting && a.outcome == None
  }

  /** What later steps may still do to an attempt: an outcome, once there, and an end are final. */
  ghost predicate Settles(a: Attempt, b: Attempt) {
    && a.id == b.id
    && (a.outcome.Some? ==> b.outcome == a.outcome)
    && (a.stage == Over ==> b == a)
  }

  ghost predicate Progresses(s: Calls, t: Calls) {
    |s.attempts| <= |t.attempts| && forall k :: 0 <= k < |s.attempts| ==> Settles(s.attempts[k], t.attempts[k])
  }

  lemma RegisterKeeps(s: Calls, k: nat)
    requires Inv(s) && k < |s.attempts| && s.attempts[k].stage == Fresh
    ensures Inv(Registered(s, k)) && Progresses(s, Registered(s, k))
  {
    var t := Registered(s, k);
    if |s.pending| < s.limit && s.attempts[k].id !in s.pending {
      assert |s.pending[s.attempts[k].id := k]| == |s.pending| + 1;
    }
    forall j | 0 <= j < |t.attempts| ensures Placed(t, j) {
      assert Placed(s, j) && Placed(s, k);
    }
  }

  lemma RemovalShrinks(m: map<u64, nat>, id: u64)
    ensures |m - {id}| <= |m|
    ensures forall other :: other in m - {id} <==> other in m && other != id
  {
    assert (m - {id}).Keys == m.Keys - {id};
  }

  lemma PickedUpPlaced(s: Calls, id: u64, outcome: Outcome, k: nat)
    requires Inv(s) && k < |s.attempts|
    ensures Placed(PickedUp(s, id, outcome), k)
  {
    assert Placed(s, k);
    if id in s.pending {
      RemovalShrinks(s.pending, id);
    }
  }

  lemma PickedUpKeeps(s: Calls, id: u64, outcome: Outcome)
    requires Inv(s)
    ensures Inv(PickedUp(s, id, outcome)) && Progresses(s, PickedUp(s, id, outcome))
  {
    hide Numbered;
    var t := PickedUp(s, id, outcome);
    RemovalShrinks(s.pending, id);
    SameAttempts(s, t);
    hide Progresses;
    forall k | 0 <= k < |t.attempts| ensures Placed(t, k) {
      PickedUpPlaced(s, id, outcome, k);
    }
    hide Placed;
    assert Entered(t);
    assert Held(t);
  }

  lemma SameAttempts(s: Calls, t: Calls)
    requires s.attempts == t.attempts
    ensures Progresses(s, t)
  {
  }

  lemma SwappedKeeps(s: Calls, error: RpcError)
    requires Inv(s)
    ensures Inv(Swapped(s, error)) && Progresses(s, Swapped(s, error))
  {
    var t := Swapped(s, error);
    forall k | 0 <= k < |t.attempts| ensures Placed(t, k) {
      InThePendingMap(s, k);
      assert Placed(s, k);
    }
    forall k | k in t.inHand ensures k < |t.attempts| {
      if k in s.pending.Values {
        var id :| id in s.pending && s.pending[id] == k;
      }
    }
  }

  lemma SentKeeps(s: Calls, k: nat)
    requires Inv(s)
    ensures Inv(Sent(s, k)) && Progresses(s, Sent(s, k))
  {
    var t := Sent(s, k);
    forall j | 0 <= j < |t.attempts| ensures Placed(t, j) {
      assert Placed(s, j);
    }
    if k in s.inHand && s.attempts[k].stage != Over {
      assert Placed(s, k);
      OneSettles(s, t, k);
    } else {
      SameAttempts(s, t);
    }
    hide Placed;
    hide Progresses;
  }

  lemma OneSettles(s: Calls, t: Calls, k: nat)
    requires k < |s.attempts| == |t.attempts| && t.attempts == s.attempts[k := t.attempts[k]]
    requires Settles(s.attempts[k], t.attempts[k])
    ensures Progresses(s, t)
  {
  }

  lemma AbandonedPlaced(s: Calls, k: nat, j: nat)
    requires Inv(s) && k < |s.attempts| && s.attempts[k].stage == Waiting && j < |s.attempts|
    ensures Placed(Abandoned(s, k), j)
  {
    assert Placed(s, j);
    RemovalShrinks(s.pending, s.attempts[k].id);
    assert s.attempts[j].id == s.attempts[k].id <==> j == k;
  }

  lemma AbandonedKeeps(s: Calls, k: nat)
    requires Inv(s) && k < |s.attempts| && s.attempts[k].stage == Waiting
    ensures Inv(Abandoned(s, k)) && Progresses(s, Abandoned(s, k))
  {
    var t := Abandoned(s, k);
    RemovalShrinks(s.pending, s.attempts[k].id);
    forall j | 0 <= j < |t.attempts| ensures Placed(t, j) {
      AbandonedPlaced(s, k, j);
    }
    hide Placed;
    OneSettles(s, t, k);
    hide Progresses;
  }

  lemma InThePendingMap(s: Calls, k: nat)
    requires Inv(s) && k < |s.attempts|
    ensures k in s.pending.Values <==> Unanswered(s.attempts[k]) && k !in s.inHand
    ensures k in s.pending.Values <==> s.attempts[k].id in s.pending
  {
    assert Placed(s, k);
    if s.attempts[k].id in s.pending {
      assert s.pending[s.attempts[k].id] == k;
    }
    if k in s.pending.Values {
      var id :| id in s.pending && s.pending[id] == k;
    }
  }

  /** Losing the connection answers every waiting call that nobody is answering yet, and only those. */
  lemma AllFailedAt(s: Calls, error: RpcError)
    requires Inv(s)
    ensures |AllFailed(s, error).attempts| == |s.attempts|
    ensures forall k :: 0 <= k < |s.attempts| ==>
              AllFailed(s, error).attempts[k]
              == if Unanswered(s.attempts[k]) && k !in s.inHand then WithFailure(s.attempts[k], error)
                 else s.attempts[k]
  {
    forall k | 0 <= k < |s.attempts|
      ensures k in s.pending.Values <==> Unanswered(s.attempts[k]) && k !in s.inHand
    {
      InThePendingMap(s, k);
    }
  }

  function SentAll(s: Calls, ks: seq<nat>): Calls
    decreases |ks|
  {
    if ks == [] then s else SentAll(Sent(s, ks[0]), ks[1..])
  }

  ghost predicate Distinct(ks: seq<nat>) {
    forall i, j :: 0 <= i < j < |ks| ==> ks[i] != ks[j]
  }

  lemma RestIsDistinct(ks: seq<nat>)
    requires ks != [] && Distinct(ks)
    ensures Distinct(ks[1..]) && forall k :: k in ks <==> k == ks[0] || k in ks[1..]
    ensures ks[0] !in ks[1..]
  {
    assert ks == [ks[0]] + ks[1..];
    forall i | 0 <= i < |ks[1..]| ensures ks[1..][i] == ks[i + 1] {
    }
  }

  /** What sending on several senders comes to, in any order. */
  lemma {:induction false} SentAllGives(s: Calls, ks: seq<nat>)
    requires Distinct(ks) && forall k :: k in ks ==> k in s.inHand && k < |s.attempts|
    ensures var t := SentAll(s, ks);
      && t == s.(inHand := t.inHand, attempts := t.attempts) && |t.attempts| == |s.attempts|
      && (forall k :: k in t.inHand <==> k in s.inHand && k !in ks)
      && (forall k :: k in t.inHand ==> t.inHand[k] == s.inHand[k])
      && forall k :: 0 <= k < |s.attempts| ==>
           t.attempts[k] == if k in ks && s.attempts[k].stage != Over then s.attempts[k].(outcome := Some(s.inHand[k]))
                            else s.attempts[k]
    decreases |ks|
  {
    if ks != [] {
      var next := Sent(s, ks[0]);
      RestIsDistinct(ks);
      SentAllGives(next, ks[1..]);
    }
  }

  /** Taking all senders out and then using them in any order fails every one of their calls. */
  lemma AllFailedInAnyOrder(s: Calls, error: RpcError, ks: seq<nat>)
    requires Inv(s) && Distinct(ks) && forall k :: k in ks <==> k in s.pending.Values
    ensures SentAll(Swapped(s, error), ks) == AllFailed(s, error)
  {
    hide Inv;
    hide Placed;
    hide Swapped;
    hide SentAll;
    hide AllFailed;
    var t := Swapped(s, error);
    SwappedHands(s, error, ks);
    SwappedOnly(s, error);
    SentAllGives(t, ks);
    var r := SentAll(t, ks);
    HandsAsBefore(s, error, r.inHand, ks);
    AllFailedAt(s, error);
    NothingPending(s, error);
    forall k | 0 <= k < |s.attempts| ensures r.attempts[k] == AllFailed(s, error).attempts[k] {
      InThePendingMap(s, k);
    }
  }

  lemma SwappedHands(s: Calls, error: RpcError, ks: seq<nat>)
    requires Inv(s) && forall k :: k in ks <==> k in s.pending.Values
    ensures forall k :: k in ks ==>
              k in Swapped(s, error).inHand && k < |s.attempts| && Swapped(s, error).inHand[k] == Failure(error)
  {
    forall k | k in ks ensures k < |s.attempts| {
      var id :| id in s.pending && s.pending[id] == k;
    }
  }

  lemma HandsAsBefore(s: Calls, error: RpcError, left: map<nat, Outcome>, ks: seq<nat>)
    requires Inv(s) && forall k :: k in ks <==> k in s.pending.Values
    requires forall k :: k in left <==> k in Swapped(s, error).inHand && k !in ks
    requires forall k :: k in left ==> left[k] == Swapped(s, error).inHand[k]
    ensures left == s.inHand
  {
    forall k | k in s.inHand ensures k !in s.pending.Values {
      InThePendingMap(s, k);
    }
  }

  lemma AllFailedKeeps(s: Calls, error: RpcError)
    requires Inv(s)
    ensures Inv(AllFailed(s, error)) && Progresses(s, AllFailed(s, error))
  {
    var t := AllFailed(s, error);
    AllFailedAt(s, error);
    NothingPending(s, error);
    hide AllFailed;
    forall k | 0 <= k < |t.attempts| ensures Placed(t, k) {
      FailedPlaced(s, t, error, k);
    }
    hide Placed;
  }

  lemma FailedPlaced(s: Calls, t: Calls, error: RpcError, k: nat)
    requires Inv(s) && k < |s.attempts| == |t.attempts| && t.pending == map[] && t.inHand == s.inHand
    requires t.attempts[k]
          == if Unanswered(s.attempts[k]) && k !in s.inHand then WithFailure(s.attempts[k], error) else s.attempts[k]
    ensures Placed(t, k)
  {
    assert Placed(s, k);
  }

  lemma NothingPending(s: Calls, error: RpcError)
    ensures AllFailed(s, error) == s.(pending := map[], attempts := AllFailed(s, error).attempts)
  {
  }

  lemma EncodedKeeps(s: Calls)
    requires Inv(s) && |s.attempts| < SIZE_MAX
    ensures Inv(Encoded(s)) && Progresses(s, Encoded(s))
  {
    var t := Encoded(s);
    forall k | 0 <= k < |t.attempts| ensures Placed(t, k) {
      if k < |s.attempts| {
        assert Placed(s, k);
      }
    }
  }

  lemma TakenKeeps(s: Calls, k: nat)
    requires Inv(s) && k < |s.attempts| && s.attempts[k].stage == Waiting && s.attempts[k].outcome.Some?
    ensures Inv(Taken(s, k)) && Progresses(s, Taken(s, k))
  {
    var t := Taken(s, k);
    forall j | 0 <= j < |t.attempts| ensures Placed(t, j) {
      assert Placed(s, j);
    }
  }

  lemma StepKeeps(s: Calls, step: Step, t: Calls)
    requires Inv(s) && Next(s, step, t)
    requires step == Encode ==> |s.attempts| < SIZE_MAX
    ensures Inv(t) && Progresses(s, t)
  {
    hide Inv;
    hide Progresses;
    hide Encoded;
    hide Registered;
    hide PickedUp;
    hide Swapped;
    hide Sent;
    hide Abandoned;
    hide Taken;
    match step
    case Encode => EncodedKeeps(s);
    case Register(k) => RegisterKeeps(s, k);
    case Respond(id, frame) => PickedUpKeeps(s, id, Reply(frame));
    case CancelRemote(id, error) => PickedUpKeeps(s, id, Failure(error));
    case FailEverything(error) => SwappedKeeps(s, error);
    case SendOn(k) => SentKeeps(s, k);
    case RunGuard(k) => AbandonedKeeps(s, k);
    case Take(k) => TakenKeeps(s, k);
  }

  // ----- whole runs --------------------------------------------------------------------------

  /** A run that encodes fewer than 2^64 - 1 requests. */
  ghost predicate Run(ss: seq<Calls>, steps: seq<Step>, limit: nat) {
    && |ss| == |steps| + 1 && ss[0] == NewCalls(limit)
    && (forall i :: 0 <= i < |steps| ==> Next(ss[i], steps[i], ss[i + 1]))
    && (forall i :: 0 <= i < |ss| ==> |ss[i].attempts| < SIZE_MAX)
  }

  lemma {:induction false} RunKeeps(ss: seq<Calls>, steps: seq<Step>, limit: nat, i: nat)
    requires Run(ss, steps, limit) && i < |ss|
    ensures Inv(ss[i]) && ss[i].limit == limit
  {
    if i > 0 {
      RunKeeps(ss, steps, limit, i - 1);
      assert Next(ss[i - 1], steps[i - 1], ss[i]);
      StepKeeps(ss[i - 1], steps[i - 1], ss[i]);
      SizesAfter(ss[i - 1], steps[i - 1], ss[i]);
      hide Next;
      hide Inv;
      hide Progresses;
    }
  }

  /**
   * Over any interleaving, guards that run while a sender is in somebody's hand included, the map stays within
   * its limit, and a call once answered keeps that answer and a call once over stays as it ended: no call
   * completes twice, and none after it was abandoned.
   */
  lemma {:induction false} CompletesAtMostOnce(ss: seq<Calls>, steps: seq<Step>, limit: nat, i: nat, j: nat)
    requires Run(ss, steps, limit) && i <= j < |ss|
    ensures |ss[j].pending| <= limit
    ensures Progresses(ss[i], ss[j])
    decreases j
  {
    hide Run;
    hide Progresses;
    RunKeeps(ss, steps, limit, j);
    assert |ss[j].pending| <= limit;
    hide Inv;
    if i < j {
      CompletesAtMostOnce(ss, steps, limit, i, j - 1);
      RunProgresses(ss, steps, limit, j);
      ProgressesTransitive(ss[i], ss[j - 1], ss[j]);
    } else {
      ProgressesReflexive(ss[i]);
    }
  }

  lemma RunProgresses(ss: seq<Calls>, steps: seq<Step>, limit: nat, j: nat)
    requires Run(ss, steps, limit) && 0 < j < |ss|
    ensures Progresses(ss[j - 1], ss[j])
  {
    RunKeeps(ss, steps, limit, j - 1);
    hide Inv;
    hide Progresses;
    assert Next(ss[j - 1], steps[j - 1], ss[j]);
    hide Next;
    StepKeeps(ss[j - 1], steps[j - 1], ss[j]);
  }

  lemma ProgressesReflexive(s: Calls)
    ensures Progresses(s, s)
  {
  }

  lemma ProgressesTransitive(a: Calls, b: Calls, c: Calls)
    requires Progresses(a, b) && Progresses(b, c)
    ensures Progresses(a, c)
  {
    forall k | 0 <= k < |a.attempts| ensures Settles(a.attempts[k], c.attempts[k]) {
      assert Settles(a.attempts[k], b.attempts[k]) && Settles(b.attempts[k], c.attempts[k]);
    }
  }

  /**
   * A response completes the call that was sent with its id, if that call still waits and nobody else is about
   * to answer it, and no other; a late one, or one for an id never sent, changes nothing.
   */
  lemma ResponseReachesItsCall(s: Calls, id: u64, outcome: Outcome)
    requires Inv(s)
    ensures var waits := 1 <= id <= |s.attempts| && Unanswered(s.attempts[id - 1]) && id - 1 !in s.inHand;
      var t := Completed(s, id, outcome);
      && (!waits ==> t == s)
      && (waits ==>
            && t.attempts == s.attempts[id - 1 := s.attempts[id - 1].(outcome := Some(outcome))]
            && s.attempts[id - 1].id == id
            && t.pending == s.pending - {id} && |t.pending| == |s.pending| - 1 && t.inHand == s.inHand)
  {
    if id in s.pending {
      assert (s.pending - {id}).Keys == s.pending.Keys - {id};
      assert Placed(s, id - 1);
      assert s.inHand[s.pending[id] := outcome] - {s.pending[id]} == s.inHand;
    } else if 1 <= id <= |s.attempts| {
      assert Placed(s, id - 1);
    }
  }

  /** An ending attempt's guard takes only its own entry out of the map. */
  lemma GuardErasesOnlyItsOwn(s: Calls, k: nat, other: nat)
    requires Inv(s) && k < |s.attempts| && other < |s.attempts| && other != k
    ensures s.attempts[other].id in Abandoned(s, k).pending <==> s.attempts[other].id in s.pending
    ensures Abandoned(s, k).attempts[other] == s.attempts[other]
    ensures s.attempts[k].id !in Abandoned(s, k).pending
    ensures Abandoned(s, k).attempts[k] == s.attempts[k].(stage := Over) && Abandoned(s, k).inHand == s.inHand
  {
  }

  // ----- the client --------------------------------------------------------------------------

  class PendingCalls {
    var nextId: u64
    var pending: map<u64, nat>
    var inHand: map<nat, Outcome>
    var attempts: seq<Attempt>
    const limit: nat

    function State(): Calls
      reads this
    {
      Calls(nextId, pending, inHand, attempts, limit)
    }

    ghost predicate Valid()
      reads this
    {
      Inv(State())
    }

    constructor (limit: nat)
      ensures State() == NewCalls(limit) && Valid()
    {
      this.limit := limit;
      nextId, pending, inHand, attempts := 0, map[], map[], [];
    }

    /**
     * Takes the next request id, which starts again at 1 after the last: from there on ids repeat, and the
     * map is no longer known to tell calls apart.
     */
    method Encode() returns (k: nat)
      requires Valid()
      modifies this`nextId, this`attempts
      ensures State() == Encoded(old(State())) && k == |old(attempts)|
      ensures attempts[k].id == if |old(attempts)| == SIZE_MAX then 1 else |old(attempts)| + 1
      ensures Valid() <==> |old(attempts)| < SIZE_MAX
      ensures |old(attempts)| < SIZE_MAX ==> attempts[k].id !in pending
    {
      if |attempts| < SIZE_MAX {
        EncodedKeeps(State());
      }
      nextId := NextId(nextId);
      k := |attempts|;
      attempts := attempts + [Attempt(nextId, Fresh, None)];
    }

    /** Enters a call in the map unless the map is full or the id is taken. */
    method Register(k: nat) returns (ok: bool)
      requires Valid() && k < |attempts| && attempts[k].stage == Fresh
      modifies this
      ensures Valid() && State() == Registered(old(State()), k)
      ensures ok == (|old(pending)| < limit) == Unanswered(attempts[k])
    {
      RegisterKeeps(State(), k);
      assert Placed(State(), k);
      hide Inv;
      var a := attempts[k];
      if |pending| >= limit || a.id in pending {
        attempts := attempts[k := a.(stage := Over)];
        return false;
      }
      pending := pending[a.id := k];
      attempts := attempts[k := a.(stage := Waiting)];
      return true;
    }

    /** A response, or a failure, for one id: finds its sender and takes it out. */
    method PickUp(id: u64, outcome: Outcome) returns (found: Option<nat>)
      requires Valid()
      modifies this`pending, this`inHand
      ensures Valid() && State() == PickedUp(old(State()), id, outcome)
      ensures found == if id in old(pending) then Some(old(pending)[id]) else None
    {
      PickedUpKeeps(State(), id, outcome);
      if id !in pending {
        return None;
      }
      var k := pending[id];
      pending := pending - {id};
      inHand := inHand[k := outcome];
      return Some(k);
    }

    /** Sends on a sender in hand. */
    method SendOn(k: nat)
      requires Valid() && k in inHand
      modifies this`inHand, this`attempts
      ensures Valid() && State() == Sent(old(State()), k)
    {
      SentKeeps(State(), k);
      var outcome := inHand[k];
      inHand := inHand - {k};
      if attempts[k].stage != Over {
        attempts := attempts[k := attempts[k].(outcome := Some(outcome))];
      }
    }

    /** Both, with nothing in between. */
    method Complete(id: u64, outcome: Outcome) returns (found: bool)
      requires Valid()
      modifies this
      ensures Valid() && State() == Completed(old(State()), id, outcome)
      ensures found == (id in old(pending))
    {
      var k := PickUp(id, outcome);
      if k.Some? {
        SendOn(k.value);
      }
      return k.Some?;
    }

    /** Returns to the caller with the response that came. */
    method Take(k: nat)
      requires Valid() && k < |attempts| && attempts[k].stage == Waiting
      requires attempts[k].outcome.Some? && attempts[k].outcome.value.Reply?
      modifies this`attempts
      ensures Valid() && State() == Taken(old(State()), k)
    {
      StepKeeps(State(), Step.Take(k), Taken(State(), k));
      attempts := attempts[k := attempts[k].(stage := Over)];
    }

    /** Others take their steps. */
    method Pass(meanwhile: Meanwhile, wire: bytes, k: nat)
      requires Valid() && k < |attempts| && Fair(meanwhile)
      modifies this
      ensures Valid() && State() == meanwhile(wire, k, old(State())) && Leaves(old(State()), State(), k)
    {
      var t := meanwhile(wire, k, State());
      assert Leaves(State(), t, k);
      nextId, pending, inHand, attempts := t.nextId, t.pending, t.inHand, t.attempts;
    }

    method Abandon(k: nat)
      requires Valid() && k < |attempts| && attempts[k].stage == Waiting
      modifies this
      ensures Valid() && State() == Abandoned(old(State()), k)
    {
      AbandonedKeeps(State(), k);
      pending := pending - {attempts[k].id};
      attempts := attempts[k := attempts[k].(stage := Over)];
    }

    /** Swaps the map for an empty one, then fails every call that was in it. */
    method FailAllPending(error: RpcError)
      requires Valid()
      modifies this
      ensures Valid() && State() == AllFailed(old(State()), error)
    {
      AllFailedKeeps(State(), error);
      assert forall id :: id in pending ==> pending[id] < |attempts|;
      hide Inv;
      hide Progresses;
      hide WithFailure;
      ghost var failed := AllFailed(State(), error);
      var failing := pending;
      pending := map[];
      attempts := FailEach(attempts, failing, error);
      assert attempts == failed.attempts;
      hide AllFailed;
    }
  }

  function WithFailure(a: Attempt, error: RpcError): Attempt {
    a.(outcome := Some(Failure(error)))
  }

  /** Sends the error on every sender of a map. */
  method FailEach(attempts: seq<Attempt>, failing: map<u64, nat>, error: RpcError) returns (r: seq<Attempt>)
    requires forall id :: id in failing ==> failing[id] < |attempts|
    ensures |r| == |attempts|
    ensures forall k :: 0 <= k < |r| ==>
              r[k] == if k in failing.Values then WithFailure(attempts[k], error) else attempts[k]
  {
    hide WithFailure;
    r := attempts;
    var left := failing;
    ghost var done: set<nat> := {};
    while left != map[]
      invariant |r| == |attempts|
      invariant forall id :: id in left ==> id in failing && left[id] == failing[id]
      invariant forall id :: id in failing ==> id in left || failing[id] in done
      invariant done <= failing.Values
      invariant forall k :: 0 <= k < |r| ==> r[k] == if k in done then WithFailure(attempts[k], error) else attempts[k]
      decreases |left|
    {
      var id :| id in left;
      var k := left[id];
      RemovalDecreases(left, id);
      left := left - {id};
      r := r[k := WithFailure(attempts[k], error)];
      done := done + {k};
    }
    assert done == failing.Values;
  }

  lemma RemovalDecreases(m: map<u64, nat>, id: u64)
    requires id in m
    ensures |m - {id}| < |m|
  {
    assert (m - {id}).Keys == m.Keys - {id};
  }

  /** What sending a call once comes to: no request, one that got no response, or one that did. */
  datatype Sending = NotSent(error: RpcError) | Lost(wire: bytes, error: RpcError) | Came(wire: bytes, frame: bytes)

  /**
   * What everybody else does while a call waits for its response: other calls, the receiver, guards and
   * cancellations. The arguments are the request's bytes, the attempt that sent it and the state before.
   */
  type Meanwhile = (bytes, nat, Calls) -> Calls

  /** Others take steps of theirs, short of using up the request ids, and leave the attempt waiting. */
  ghost predicate Fair(meanwhile: Meanwhile) {
    forall wire: bytes, k: nat, s: Calls :: Inv(s) && k < |s.attempts| ==> Leaves(s, meanwhile(wire, k, s), k)
  }

  ghost predicate Leaves(s: Calls, t: Calls, k: nat) {
    && Inv(t) && Progresses(s, t) && t.limit == s.limit
    && (|s.attempts| < SIZE_MAX ==> |t.attempts| < SIZE_MAX)
    && k < |s.attempts| && t.attempts[k].stage == s.attempts[k].stage
  }

  /** A step that is not the attempt's own. */
  predicate LeavesAlone(step: Step, k: nat) {
    match step
    case Register(j) => j != k
    case RunGuard(j) => j != k
    case Take(j) => j != k
    case _ => true
  }

  /** Every step of another attempt, the receiver or the connection is one of those. */
  lemma StepsAreFair(s: Calls, step: Step, t: Calls, k: nat)
    requires Inv(s) && Next(s, step, t) && k < |s.attempts|
    requires LeavesAlone(step, k) && (step.Encode? ==> |s.attempts| < SIZE_MAX - 1)
    ensures Leaves(s, t, k)
  {
    StepKeeps(s, step, t);
    hide Inv;
    hide Progresses;
    SizesAfter(s, step, t);
    StageAfter(s, step, t, k);
  }

  lemma SizesAfter(s: Calls, step: Step, t: Calls)
    requires Next(s, step, t)
    ensures t.limit == s.limit && |t.attempts| == |s.attempts| + (if step.Encode? then 1 else 0)
  {
    if step.FailEverything? {
      SwappedOnly(s, step.error);
    }
    hide Swapped;
  }

  lemma StageAfter(s: Calls, step: Step, t: Calls, k: nat)
    requires Next(s, step, t) && k < |s.attempts| == |t.attempts| - (if step.Encode? then 1 else 0)
    requires LeavesAlone(step, k)
    ensures t.attempts[k].stage == s.attempts[k].stage
  {
    if step.FailEverything? {
      SwappedOnly(s, step.error);
    }
    hide Swapped;
  }

  lemma SwappedOnly(s: Calls, error: RpcError)
    ensures Swapped(s, error) == s.(pending := map[], inHand := Swapped(s, error).inHand)
  {
  }

  /** What the request of a call sent at some state is, or why there is none. */
  function Wanted(options: Options, session: Session, calls: Calls, name: bytes, notification: bool, payload: bytes)
    : Result<bytes, RpcError>
    requires Tables.Sound(session.remote)
  {
    var encoded := EncodeRequest(options, session, name, NextId(calls.nextId), notification, payload);
    if encoded.Err? then Err(Wire(encoded.error))
    else if !notification && |calls.pending| >= calls.limit then Err(WouldBlock)
    else Ok(encoded.value)
  }

  /** How an attempt that was sent ended. */
  predicate Ended(a: Attempt, sending: Sending) {
    && a.stage == Over
    && match sending
       case NotSent(_) => false
       case Lost(_, error) => if a.outcome.Some? then a.outcome.value == Failure(error) else error == Canceled
       case Came(_, frame) => a.outcome == Some(Reply(frame))
  }

  /**
   * Encodes a call under the next id, registers it unless it is a notification, sends it and waits. It ends
   * with the outcome that others sent it, or with none if it was given up, and out of the map.
   */
  method SendOnce(options: Options, session: PeerSession.PeerSession, calls: PendingCalls, name: bytes,
                  notification: bool, payload: bytes, meanwhile: Meanwhile)
    returns (sending: Sending, k: nat)
    requires session.Valid() && calls.Valid() && |calls.attempts| < SIZE_MAX && Fair(meanwhile)
    modifies calls
    ensures calls.Valid() && Progresses(old(calls.State()), calls.State())
    ensures |old(calls.attempts)| + 1 < SIZE_MAX ==> |calls.attempts| < SIZE_MAX
    ensures k == |old(calls.attempts)| < |calls.attempts| && calls.attempts[k].id == NextId(old(calls.nextId))
    ensures Wanted(options, session.State(), old(calls.State()), name, notification, payload)
         == if sending.NotSent? then Err(sending.error) else Ok(sending.wire)
    ensures !sending.NotSent? ==>
      if notification then sending == Lost(sending.wire, NotificationOk) else Ended(calls.attempts[k], sending)
  {
    hide EncodeRequest;
    hide Tables.Sound;
    EncodedKeeps(calls.State());
    NextAttempt(calls.State());
    k := calls.Encode();
    ghost var encodedState := calls.State();
    hide Inv;
    hide Progresses;
    var id := calls.attempts[k].id;
    var encoded := EncodeRequest(options, session.State(), name, id, notification, payload);
    if encoded.Err? {
      return NotSent(Wire(encoded.error)), k;
    }
    if notification {
      return Lost(encoded.value, NotificationOk), k;
    }
    RegisterKeeps(encodedState, k);
    var registered := calls.Register(k);
    ghost var registeredState := calls.State();
    ProgressesTransitive(old(calls.State()), encodedState, registeredState);
    hide Fair;
    if !registered {
      return NotSent(WouldBlock), k;
    }
    sending := Await(calls, encoded.value, k, meanwhile);
    ProgressesTransitive(old(calls.State()), registeredState, calls.State());
    StillThere(registeredState, calls.State(), k);
  }

  /** Waits with a registered attempt, then takes the response or gives the attempt up. */
  method Await(calls: PendingCalls, wire: bytes, k: nat, meanwhile: Meanwhile) returns (sending: Sending)
    requires calls.Valid() && k < |calls.attempts| && calls.attempts[k].stage == Waiting && Fair(meanwhile)
    modifies calls
    ensures calls.Valid() && Progresses(old(calls.State()), calls.State())
    ensures |old(calls.attempts)| < SIZE_MAX ==> |calls.attempts| < SIZE_MAX
    ensures k < |calls.attempts| && Ended(calls.attempts[k], sending)
    ensures !sending.NotSent? && sending.wire == wire
  {
    hide Inv;
    hide Fair;
    hide Progresses;
    calls.Pass(meanwhile, wire, k);
    ghost var passed := calls.State();
    StillThere(old(calls.State()), passed, k);
    var a := calls.attempts[k];
    if Replied(a) {
      TakenKeeps(passed, k);
      calls.Take(k);
      ProgressesTransitive(old(calls.State()), passed, calls.State());
      return Came(wire, a.outcome.value.frame);
    }
    AbandonedKeeps(passed, k);
    calls.Abandon(k);
    ProgressesTransitive(old(calls.State()), passed, calls.State());
    return Lost(wire, if a.outcome.Some? then a.outcome.value.error else Canceled);
  }

  lemma NextAttempt(s: Calls)
    requires Inv(s) && |s.attempts| < SIZE_MAX
    ensures s.nextId == |s.attempts| && NextId(s.nextId) !in s.pending
  {
  }

  lemma StillThere(s: Calls, t: Calls, k: nat)
    requires Progresses(s, t) && k < |s.attempts|
    ensures k < |t.attempts| && t.attempts[k].id == s.attempts[k].id
  {
  }

  lemma RecoversOnce(options: Options, session: Session, error: RpcError, retries: nat)
    ensures Recover(options, session, error, retries).1 ==>
              retries == 0 && options.retryMethodIdErrorOnce && IsMethodIdError(error)
  {
  }

  /** A response the client cannot use never reads as a refused method id. */
  lemma UnusableIsFinal(options: Options, session: Session, frame: bytes, id: u64, readError: bytes -> Option<RpcError>)
    ensures var answer := ReadResponse(options, session, frame, id, readError);
      answer.Unusable? ==> !IsMethodIdError(answer.error)
  {
    hide FrameCodec.Parse;
    hide FrameCodec.ValidFrame;
    hide Compression.IncomingPayload;
    hide FrameCodec.HeaderBodySize;
    hide FrameCodec.HasFlag;
  }

  lemma ReportedParses(options: Options, session: Session, frame: bytes, id: u64, readError: bytes -> Option<RpcError>)
    ensures ReadResponse(options, session, frame, id, readError).Reported? ==> FrameCodec.Parse(frame).Some?
  {
  }

  /** An attempt that a frame came for. */
  predicate Replied(a: Attempt) {
    a.outcome.Some? && a.outcome.value.Reply?
  }

  /** The result of a call that a response is the last word on. */
  predicate ReadsAs(options: Options, session: Session, frame: bytes, id: u64, readError: bytes -> Option<RpcError>,
                    r: Result<bytes, RpcError>)
  {
    match ReadResponse(options, session, frame, id, readError)
    case Success(value) => r == Ok(value)
    case Unusable(error) => r == Err(error)
    case Reported(error) => r == Err(error)
  }

  /**
   * The result of a call after an ended attempt that is not followed by another: what its response reads as, the
   * failure that came in its place, or that it was given up.
   */
  predicate Settled(options: Options, session: Session, a: Attempt, readError: bytes -> Option<RpcError>,
                    r: Result<bytes, RpcError>)
  {
    match a.outcome
    case None => r == Err(Canceled)
    case Some(Failure(error)) => r == Err(error)
    case Some(Reply(frame)) => ReadsAs(options, session, frame, a.id, readError, r)
  }

  /** The bytes of a call encoded in a session under the id of an attempt. */
  ghost predicate EncodedFor(options: Options, session: Session, a: Attempt, name: bytes, notification: bool,
                             payload: bytes, wire: bytes)
  {
    Tables.Sound(session.remote) && Ok(wire) == EncodeRequest(options, session, name, a.id, notification, payload)
  }

  /** The frame reports an error that the client recovers from, and `now` is the session in which it tries again. */
  ghost predicate RetriesIn(options: Options, session: Session, frame: bytes, id: u64,
                            readError: bytes -> Option<RpcError>, now: Session)
  {
    var answer := ReadResponse(options, session, frame, id, readError);
    && answer.Reported?
    && Recover(options, RefusedSession(session, answer.error, frame), answer.error, 0) == (now, true)
  }

  ghost predicate TriedAgain(options: Options, session: Session, a: Attempt, readError: bytes -> Option<RpcError>,
                             now: Session)
  {
    Replied(a) && RetriesIn(options, session, a.outcome.value.frame, a.id, readError, now)
  }

  ghost predicate NeverTriedAgain(options: Options, session: Session, a: Attempt,
                                  readError: bytes -> Option<RpcError>)
  {
    forall now :: !TriedAgain(options, session, a, readError, now)
  }

  lemma LostIsSettled(options: Options, session: Session, a: Attempt, sending: Sending,
                      readError: bytes -> Option<RpcError>)
    requires sending.Lost? && Ended(a, sending)
    ensures Settled(options, session, a, readError, Err(sending.error))
    ensures NeverTriedAgain(options, session, a, readError)
  {
  }

  lemma CameIsSettled(options: Options, session: Session, a: Attempt, frame: bytes,
                      readError: bytes -> Option<RpcError>, r: Result<bytes, RpcError>)
    requires a.outcome == Some(Reply(frame))
    requires ReadsAs(options, session, frame, a.id, readError, r)
    ensures Settled(options, session, a, readError, r)
  {
    hide ReadResponse;
  }

  /** A second request cannot be encoded, or there is no room for it, and the call says so. */
  ghost predicate NotTried(options: Options, session: Session, calls: Calls, name: bytes, payload: bytes,
                           r: Result<bytes, RpcError>)
  {
    r.Err? && Tables.Sound(session.remote) && Wanted(options, session, calls, name, false, payload) == r
  }

  /** Only a refused method id is tried again. */
  lemma OnlyRefusalsAreTriedAgain(options: Options, session: Session, a: Attempt,
                                  readError: bytes -> Option<RpcError>, now: Session)
    requires TriedAgain(options, session, a, readError, now)
    ensures options.retryMethodIdErrorOnce
    ensures var answer := ReadResponse(options, session, a.outcome.value.frame, a.id, readError);
      answer.Reported? && IsMethodIdError(answer.error)
  {
    hide ReadResponse;
    hide AfterError;
    hide FrameCodec.Parse;
  }

  /** What a response makes of a call: its result, or nothing if it is to be tried again. */
  method Conclude(options: Options, session: PeerSession.PeerSession, frame: bytes, id: u64, retries: nat,
                  readError: bytes -> Option<RpcError>)
    returns (result: Option<Result<bytes, RpcError>>)
    requires session.Valid()
    modifies session, session.remote
    ensures session.Valid()
    ensures retries == 0 && result == None ==>
      RetriesIn(options, old(session.State()), frame, id, readError, session.State())
    ensures retries == 0 && result.Some? ==>
      forall now :: !RetriesIn(options, old(session.State()), frame, id, readError, now)
    ensures retries > 0 ==> result.Some?
    ensures result.Some? ==> ReadsAs(options, old(session.State()), frame, id, readError, result.value)
  {
    hide ReadResponse;
    hide AfterError;
    hide Recover;
    hide Tables.Sound;
    hide FrameCodec.Parse;
    UnusableIsFinal(options, session.State(), frame, id, readError);
    ReportedParses(options, session.State(), frame, id, readError);
    var answer := session.DecodeResponse(options, frame, id, readError);
    if answer.Success? {
      return Some(Ok(answer.payload));
    }
    RecoversOnce(options, session.State(), answer.error, retries);
    var again := session.RecoverClientCall(options, answer.error, retries);
    return if again then None else Some(Err(answer.error));
  }

  /**
   * One remote call among others: sends, decodes, and tries again when recovery says so. At most two requests
   * are sent, by attempts `ks`; the first is the call encoded in the session as it was, and a second is tried if
   * and only if the client recovers from the error that the server reported to the first. It is encoded in the
   * session `again` that the error and recovery left, and registered among the calls pending at `midway`. The
   * result is what the last attempt that was sent comes to, or why the last one that was tried was not sent.
   */
  method CallRemote(options: Options, session: PeerSession.PeerSession, calls: PendingCalls, name: bytes,
                    notification: bool, payload: bytes, readError: bytes -> Option<RpcError>, meanwhile: Meanwhile)
    returns (r: Result<bytes, RpcError>, sent: seq<bytes>, ks: seq<nat>, ghost again: Session, ghost midway: Calls)
    requires session.Valid() && calls.Valid() && |calls.attempts| + 2 <= SIZE_MAX && Fair(meanwhile)
    modifies session, session.remote, calls
    ensures session.Valid() && calls.Valid()
    ensures Progresses(old(calls.State()), midway) && Progresses(midway, calls.State())
    ensures |sent| == |ks| <= 2 && forall i :: 0 <= i < |ks| ==> ks[i] < |calls.attempts|
    ensures !notification ==> forall i :: 0 <= i < |ks| ==> calls.attempts[ks[i]].stage == Over
    ensures Wanted(options, old(session.State()), old(calls.State()), name, notification, payload).Err? <==> sent == []
    ensures sent == [] ==>
      r == if !notification && |old(calls.pending)| >= calls.limit then Err(WouldBlock)
           else Wanted(options, old(session.State()), old(calls.State()), name, notification, payload)
    ensures |sent| > 0 ==>
      && calls.attempts[ks[0]].id == NextId(old(calls.nextId))
      && EncodedFor(options, old(session.State()), calls.attempts[ks[0]], name, notification, payload, sent[0])
    ensures notification && |sent| > 0 ==> |sent| == 1 && r == Err(NotificationOk)
    ensures !notification && |sent| > 0 ==>
      var first := calls.attempts[ks[0]];
      if TriedAgain(options, old(session.State()), first, readError, again) then
        if |sent| == 1 then NotTried(options, again, midway, name, payload, r)
        else
          && EncodedFor(options, again, calls.attempts[ks[1]], name, false, payload, sent[1])
          && Settled(options, again, calls.attempts[ks[1]], readError, r)
      else
        && |sent| == 1 && Settled(options, old(session.State()), first, readError, r)
        && NeverTriedAgain(options, old(session.State()), first, readError)
  {
    hide ReadResponse;
    hide RetriesIn;
    hide EncodeRequest;
    hide Tables.Sound;
    hide Inv;
    hide Progresses;
    hide NextId;
    hide Fair;
    hide Settled;
    again, midway := session.State(), calls.State();
    sent, ks := [], [];
    ProgressesReflexive(calls.State());
    if !notification && |calls.pending| >= calls.limit {
      return Err(WouldBlock), sent, ks, again, midway;
    }
    ghost var start, begun := session.State(), calls.State();
    var retries := 0;
    while true
      invariant |sent| == |ks| == retries <= 1
      invariant session.Valid() && calls.Valid() && Progresses(begun, midway)
      invariant |calls.attempts| + 2 - retries <= SIZE_MAX
      invariant midway == calls.State() && again == session.State()
      invariant retries == 0 ==> midway == begun && again == start
      invariant retries == 1 ==> !notification
      invariant retries == 1 ==> ks[0] < |calls.attempts|
      invariant retries == 1 ==>
        First(options, start, begun, name, payload, readError, sent[0], calls.attempts[ks[0]], again)
      decreases 1 - retries
    {
      var sending, k := SendOnce(options, session, calls, name, notification, payload, meanwhile);
      if retries == 1 {
        StaysOver(midway, calls.State(), ks[0]);
      }
      if sending.NotSent? {
        return Err(sending.error), sent, ks, again, midway;
      }
      sent, ks := sent + [sending.wire], ks + [k];
      if sending.Lost? {
        if !notification {
          LostIsSettled(options, again, calls.attempts[k], sending, readError);
        }
        return Err(sending.error), sent, ks, again, midway;
      }
      var result := Conclude(options, session, sending.frame, calls.attempts[k].id, retries, readError);
      if result.Some? {
        CameIsSettled(options, again, calls.attempts[k], sending.frame, readError, result.value);
        return result.value, sent, ks, again, midway;
      }
      ProgressesTransitive(begun, midway, calls.State());
      ProgressesReflexive(calls.State());
      again, midway := session.State(), calls.State();
      retries := retries + 1;
    }
  }

  /**
   * What `CallRemote` promises of a second request, with an unchanged server at the other end of the first: if
   * that refused the first request and its answer is what reached the attempt, then the second is delivered to
   * its dispatcher as the call, provided its limits admit the frame and it can restore the payload.
   */
  lemma SecondRequestIsDelivered(
    options: Options, start: Session, name: bytes, payload: bytes, readError: bytes -> Option<RpcError>,
    first: bytes, a: Attempt, again: Session, second: bytes, b: Attempt,
    serverOptions: Options, t: Tables.Table, peer: Session, e: ErrorResponse, spelled: bytes)
    requires EncodedFor(options, start, a, name, false, payload, first)
    requires TriedAgain(options, start, a, readError, again)
    requires EncodedFor(options, again, b, name, false, payload, second)
    requires Tables.Sound(t) && Negotiation.Agree(start, peer) && name != []
    requires Negotiation.Refused(options, start, serverOptions, t, peer, first, e, spelled, readError)
    requires a.outcome == Some(Reply(EncodeResponse(serverOptions, peer, ErrorFrame(e, spelled))))
    requires FrameCodec.ValidFrame(second, CODEC_ID, serverOptions.limits)
    requires Compression.Restores(
               Coding(again), CodingOptions(serverOptions), RequestFrame(again, name, b.id, false, payload))
    ensures DecodeIncoming(serverOptions, t, peer, second)
         == NekoBackend.Delivered(DecodedRequest(FrameCodec.REQUEST, b.id, name, payload))
  {
    hide DecodeIncoming;
    hide ReadResponse;
    hide EncodeResponse;
    hide AfterError;
    hide Recover;
    hide RequestFrame;
    hide FrameCodec.Parse;
    hide FrameCodec.ValidFrame;
    hide Tables.Sound;
    hide Compression.Restores;
    hide Compression.EncodeOutgoing;
    RefusalSays(serverOptions, t, peer, first, e);
    RequestShape(start, name, a.id, false, payload);
    Compression.OutgoingParses(CodingOptions(options), Coding(start), RequestFrame(start, name, a.id, false, payload));
    Negotiation.RetryIsDelivered(
      options, start, serverOptions, t, peer, first, e, spelled, readError, name, b.id, payload);
  }

  /** After a refused first attempt. */
  ghost predicate First(options: Options, start: Session, begun: Calls, name: bytes, payload: bytes,
                        readError: bytes -> Option<RpcError>, sent: bytes, a: Attempt, again: Session)
  {
    && a.stage == Over && a.id == NextId(begun.nextId)
    && EncodedFor(options, start, a, name, false, payload, sent)
    && TriedAgain(options, start, a, readError, again)
  }

  lemma StaysOver(s: Calls, t: Calls, k: nat)
    requires Progresses(s, t) && k < |s.attempts| && s.attempts[k].stage == Over
    ensures k < |t.attempts| && t.attempts[k] == s.attempts[k]
  {
  }
}
