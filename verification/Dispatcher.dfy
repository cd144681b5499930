/**
 * The server's dispatcher: one slot per request of a message, filled as its tasks end in any order, and
 * the maps that let a request be cancelled while it runs. What happens between two suspension points is
 * one step.
 */
module Dispatcher {
  import opened Bytes
  import opened Wrappers
  import Limits = ExecutionLimiter

  datatype Id = NoId | Number(n: u64) | Text(s: string)

  datatype RpcFailure =
    | ParseError
    | InvalidRequest
    | MessageTooLarge
    | MethodNotFound
    | Overloaded
    | DeadlineExceeded
    | Canceled
    | Other(code: int)

  datatype Outcome = Value(payload: bytes) | Failure(error: RpcFailure)

  datatype Response = Response(id: Id, outcome: Outcome)

  datatype Request = Request(id: Id, name: string, expects: bool)

  /** What a backend makes of an incoming message. */
  datatype Decoded = Decoded(ok: bool, batch: bool, requests: seq<Request>, responses: seq<Response>)

  datatype Decision = NoHandler | Refused | Admitted

  /** How a spawned task ends: the handler returned, its deadline passed, or it was stopped. */
  datatype Ending = Returned(outcome: Outcome) | TimedOut | Stopped

  datatype Task = NotSpawned | Live | Ended

  type Session = nat

  datatype Key = Key(session: Session, id: Id)

  datatype Handle = Handle(message: nat, index: nat)

  datatype RunState = Queued | Running

  /** A message being processed. */
  datatype Message = Message(session: Session, decoded: Decoded, tasks: seq<Task>, slots: seq<seq<Response>>)

  datatype State = State(
    handles: map<Key, Handle>, states: map<Key, RunState>, timeouts: map<Session, nat>, messages: map<nat, Message>)

  // ----- one message -------------------------------------------------------------------------

  /** A notification is never answered, not even with an error. */
  function Answer(request: Request, outcome: Outcome): seq<Response> {
    if request.expects then [Response(request.id, outcome)] else []
  }

  function FirstSlot(request: Request, decision: Decision): seq<Response> {
    match decision
    case NoHandler => Answer(request, Failure(MethodNotFound))
    case Refused => Answer(request, Failure(Overloaded))
    case Admitted => []
  }

  function FirstTask(decision: Decision): Task {
    if decision == Admitted then Live else NotSpawned
  }

  /** A message whose requests have been admitted or refused. */
  function Started(session: Session, decoded: Decoded, decisions: seq<Decision>): Message
    requires |decisions| == |decoded.requests|
  {
    Message(session, decoded,
            seq(|decisions|, i requires 0 <= i < |decisions| => FirstTask(decisions[i])),
            seq(|decisions|, i requires 0 <= i < |decisions| => FirstSlot(decoded.requests[i], decisions[i])))
  }

  function EndSlot(request: Request, ending: Ending): seq<Response> {
    match ending
    case Returned(outcome) => Answer(request, outcome)
    case TimedOut => Answer(request, Failure(DeadlineExceeded))
    case Stopped => []
  }

  ghost predicate Valid(m: Message) {
    && |m.tasks| == |m.slots| == |m.decoded.requests|
    && forall i :: 0 <= i < |m.slots| ==> ValidSlot(m.decoded.requests[i], m.tasks[i], m.slots[i])
  }

  predicate ValidSlot(request: Request, task: Task, slot: seq<Response>) {
    if !request.expects || task == Live then slot == []
    else |slot| == 0 || (|slot| == 1 && slot[0].id == request.id)
  }

  /** Task i ends and appends what its ending calls for. */
  function WithEnding(m: Message, i: nat, ending: Ending): Message
    requires Valid(m) && i < |m.tasks| && m.tasks[i] == Live
  {
    m.(tasks := m.tasks[i := Ended], slots := m.slots[i := m.slots[i] + EndSlot(m.decoded.requests[i], ending)])
  }

  predicate Done(m: Message) {
    forall i :: 0 <= i < |m.tasks| ==> m.tasks[i] != Live
  }

  /** A request left without an answer when every task has ended was stopped. */
  function FinalSlot(request: Request, slot: seq<Response>): seq<Response> {
    if request.expects && slot == [] then Answer(request, Failure(Canceled)) else slot
  }

  function SlotResponses(requests: seq<Request>, slots: seq<seq<Response>>): seq<Response>
    requires |slots| == |requests|
  {
    if slots == [] then [] else FinalSlot(requests[0], slots[0]) + SlotResponses(requests[1..], slots[1..])
  }

  function Responses(m: Message): seq<Response>
    requires |m.slots| == |m.decoded.requests|
  {
    m.decoded.responses + SlotResponses(m.decoded.requests, m.slots)
  }

  /** The requests that expect an answer, in order. */
  function Expecting(requests: seq<Request>): seq<Request> {
    if requests == [] then [] else (if requests[0].expects then [requests[0]] else []) + Expecting(requests[1..])
  }

  lemma {:induction false} SlotsAnswerEach(requests: seq<Request>, tasks: seq<Task>, slots: seq<seq<Response>>)
    requires |tasks| == |slots| == |requests|
    requires forall i :: 0 <= i < |slots| ==> tasks[i] != Live && ValidSlot(requests[i], tasks[i], slots[i])
    ensures |SlotResponses(requests, slots)| == |Expecting(requests)|
    ensures forall k :: 0 <= k < |Expecting(requests)| ==>
              SlotResponses(requests, slots)[k].id == Expecting(requests)[k].id
  {
    if slots != [] {
      assert ValidSlot(requests[0], tasks[0], slots[0]);
      forall i | 0 <= i < |slots[1..]|
        ensures tasks[1..][i] != Live && ValidSlot(requests[1..][i], tasks[1..][i], slots[1..][i])
      {
        assert ValidSlot(requests[i + 1], tasks[i + 1], slots[i + 1]);
      }
      SlotsAnswerEach(requests[1..], tasks[1..], slots[1..]);
    }
  }

  /**
   * However its tasks ended and in whatever order, a finished message yields the backend's own errors and
   * then exactly one response for each request that expects one, in request order, and none for the others.
   */
  lemma OneResponseEach(m: Message)
    requires Valid(m) && Done(m)
    ensures var errors, expected := |m.decoded.responses|, Expecting(m.decoded.requests);
      && Responses(m)[..errors] == m.decoded.responses
      && |Responses(m)| == errors + |expected|
      && forall k :: 0 <= k < |expected| ==> Responses(m)[errors + k].id == expected[k].id
  {
    SlotsAnswerEach(m.decoded.requests, m.tasks, m.slots);
  }

  // ----- what each response says ---------------------------------------------------------------

  datatype Event = Event(i: nat, ending: Ending)

  /** Tasks ending one after another, each once. */
  ghost predicate Playable(m: Message, events: seq<Event>)
    decreases |events|
  {
    events == [] ||
    (Valid(m) && events[0].i < |m.tasks| && m.tasks[events[0].i] == Live
     && Playable(WithEnding(m, events[0].i, events[0].ending), events[1..]))
  }

  function Played(m: Message, events: seq<Event>): Message
    requires Playable(m, events)
    decreases |events|
  {
    if events == [] then m else Played(WithEnding(m, events[0].i, events[0].ending), events[1..])
  }

  /** What a request is told, by how it was admitted and how its task ended. */
  function Verdict(decision: Decision, ending: Ending): Outcome {
    match decision
    case NoHandler => Failure(MethodNotFound)
    case Refused => Failure(Overloaded)
    case Admitted =>
      match ending
      case Returned(outcome) => outcome
      case TimedOut => Failure(DeadlineExceeded)
      case Stopped => Failure(Canceled)
  }

  function Answers(requests: seq<Request>, decisions: seq<Decision>, endings: seq<Ending>): seq<Response>
    requires |requests| == |decisions| == |endings|
  {
    if requests == [] then []
    else Answer(requests[0], Verdict(decisions[0], endings[0])) + Answers(requests[1..], decisions[1..], endings[1..])
  }

  /** Where each slot stands, given how its task will end. */
  ghost predicate OnCourse(m: Message, decisions: seq<Decision>, endings: seq<Ending>) {
    && |m.tasks| == |m.slots| == |m.decoded.requests| == |decisions| == |endings|
    && forall i :: 0 <= i < |m.slots| ==>
         SlotOnCourse(m.decoded.requests[i], decisions[i], endings[i], m.tasks[i], m.slots[i])
  }

  predicate SlotOnCourse(request: Request, decision: Decision, ending: Ending, task: Task, slot: seq<Response>) {
    match task
    case NotSpawned => decision != Admitted && slot == FirstSlot(request, decision)
    case Live => decision == Admitted && slot == []
    case Ended => decision == Admitted && slot == EndSlot(request, ending)
  }

  lemma {:induction false} PlayedOnCourse(
    m: Message, events: seq<Event>, decisions: seq<Decision>, endings: seq<Ending>)
    requires OnCourse(m, decisions, endings) && Playable(m, events)
    requires forall e :: e in events ==> e.i < |endings| && endings[e.i] == e.ending
    ensures OnCourse(Played(m, events), decisions, endings) && Played(m, events).decoded == m.decoded
    decreases |events|
  {
    if events != [] {
      var e := events[0];
      assert e in events;
      var next := WithEnding(m, e.i, e.ending);
      forall i | 0 <= i < |next.slots|
        ensures SlotOnCourse(next.decoded.requests[i], decisions[i], endings[i], next.tasks[i], next.slots[i])
      {
        assert SlotOnCourse(m.decoded.requests[i], decisions[i], endings[i], m.tasks[i], m.slots[i]);
      }
      PlayedOnCourse(next, events[1..], decisions, endings);
    }
  }

  lemma {:induction false} FinalSlotsAnswer(
    requests: seq<Request>, decisions: seq<Decision>, endings: seq<Ending>, tasks: seq<Task>, slots: seq<seq<Response>>)
    requires |requests| == |decisions| == |endings| == |tasks| == |slots|
    requires forall i :: 0 <= i < |slots| ==>
               tasks[i] != Live && SlotOnCourse(requests[i], decisions[i], endings[i], tasks[i], slots[i])
    ensures SlotResponses(requests, slots) == Answers(requests, decisions, endings)
  {
    if slots != [] {
      assert SlotOnCourse(requests[0], decisions[0], endings[0], tasks[0], slots[0]);
      forall i | 0 <= i < |slots[1..]|
        ensures tasks[1..][i] != Live
             && SlotOnCourse(requests[1..][i], decisions[1..][i], endings[1..][i], tasks[1..][i], slots[1..][i])
      {
        assert SlotOnCourse(requests[i + 1], decisions[i + 1], endings[i + 1], tasks[i + 1], slots[i + 1]);
      }
      FinalSlotsAnswer(requests[1..], decisions[1..], endings[1..], tasks[1..], slots[1..]);
    }
  }

  /**
   * The responses depend on how each task ended, not on the order they ended in: each request gets its own
   * verdict, in request order, after the backend's errors.
   */
  lemma OrderDoesNotMatter(
    session: Session, decoded: Decoded, decisions: seq<Decision>, events: seq<Event>, endings: seq<Ending>)
    requires |decisions| == |decoded.requests| == |endings|
    requires Playable(Started(session, decoded, decisions), events)
    requires forall e :: e in events ==> e.i < |endings| && endings[e.i] == e.ending
    requires Done(Played(Started(session, decoded, decisions), events))
    ensures var m := Played(Started(session, decoded, decisions), events);
      && |m.slots| == |m.decoded.requests|
      && Responses(m) == decoded.responses + Answers(decoded.requests, decisions, endings)
  {
    var m := Started(session, decoded, decisions);
    assert OnCourse(m, decisions, endings);
    PlayedOnCourse(m, events, decisions, endings);
    var end := Played(m, events);
    FinalSlotsAnswer(decoded.requests, decisions, endings, end.tasks, end.slots);
  }

  // ----- all messages ------------------------------------------------------------------------

  /** The keys under which a message's admitted requests can be cancelled. */
  function KeysOf(m: Message): set<Key> {
    FirstKeys(m, |m.tasks|)
  }

  function FirstKeys(m: Message, n: nat): set<Key> {
    if n == 0 then {}
    else FirstKeys(m, n - 1) + (if Cancellable(m, n - 1) then {Key(m.session, m.decoded.requests[n - 1].id)} else {})
  }

  predicate Cancellable(m: Message, i: nat) {
    i < |m.tasks| && i < |m.decoded.requests| && m.tasks[i] != NotSpawned && m.decoded.requests[i].expects
  }

  datatype Step =
    | Arrive(m: nat, session: Session, decoded: Decoded, decisions: seq<Decision>)
    | Run(m: nat, i: nat)
    | End(m: nat, i: nat, ending: Ending)
    | Finish(m: nat)
    | CancelSession(session: Session)
    | CancelAll
    | SetTimeout(session: Session, timeout: Option<nat>)

  /** The maps after the first n requests of a message have been spawned; a reused id takes over its key. */
  function Registered(s: State, id: nat, m: Message, n: nat): State
    requires n <= |m.tasks| == |m.decoded.requests|
  {
    if n == 0 then s
    else
      var before := Registered(s, id, m, n - 1);
      if Cancellable(m, n - 1) then
        var key := Key(m.session, m.decoded.requests[n - 1].id);
        before.(handles := before.handles[key := Handle(id, n - 1)], states := before.states[key := Queued])
      else before
  }

  function MarkedRunning(s: State, key: Key): State {
    if key in s.states then s.(states := s.states[key := Running]) else s
  }

  function OtherStates(states: map<Key, RunState>, session: Session): map<Key, RunState> {
    map k | k in states && k.session != session :: states[k]
  }

  function WithoutSession(s: State, session: Session): State {
    s.(handles := Others(s.handles, session),
       states := OtherStates(s.states, session),
       timeouts := s.timeouts - {session})
  }

  lemma WithoutSessionIs(s: State, session: Session)
    ensures WithoutSession(s, session)
         == State(Others(s.handles, session), OtherStates(s.states, session), s.timeouts - {session}, s.messages)
  {
  }

  function WithTimeout(s: State, session: Session, timeout: Option<nat>): State {
    s.(timeouts := if timeout == None then s.timeouts - {session} else s.timeouts[session := timeout.value])
  }

  ghost predicate Next(s: State, step: Step, t: State)
    requires Inv(s)
  {
    match step
    case Arrive(m, session, decoded, decisions) =>
      m !in s.messages && |decisions| == |decoded.requests| &&
      var message := Started(session, decoded, decisions);
      t == Registered(s, m, message, |decisions|).(messages := s.messages[m := message])
    case Run(m, i) =>
      m in s.messages && i < |s.messages[m].tasks| && s.messages[m].tasks[i] == Live &&
      t == if s.messages[m].decoded.requests[i].expects
           then MarkedRunning(s, Key(s.messages[m].session, s.messages[m].decoded.requests[i].id)) else s
    case End(m, i, ending) =>
      m in s.messages && i < |s.messages[m].tasks| && s.messages[m].tasks[i] == Live &&
      t == s.(messages := s.messages[m := WithEnding(s.messages[m], i, ending)])
    case Finish(m) =>
      m in s.messages && Done(s.messages[m]) &&
      t == s.(handles := s.handles - KeysOf(s.messages[m]), states := s.states - KeysOf(s.messages[m]),
              messages := s.messages - {m})
    case CancelSession(session) => t == WithoutSession(s, session)
    case CancelAll => t == s.(handles := map[], states := map[], timeouts := map[])
    case SetTimeout(session, timeout) => t == WithTimeout(s, session, timeout)
  }

  /** The two maps have the same keys, each held by a message that is still being processed. */
  ghost predicate Inv(s: State) {
    && (forall m :: m in s.messages ==> Valid(s.messages[m]))
    && (forall k :: k in s.handles <==> k in s.states)
    && (forall k :: k in s.handles ==> Held(s, k))
  }

  ghost predicate Held(s: State, k: Key)
    requires k in s.handles
  {
    s.handles[k].message in s.messages && IsFor(s.messages[s.handles[k].message], k, s.handles[k].index)
  }

  /** The i-th request of a message is the one that can be cancelled under a key. */
  predicate IsFor(m: Message, k: Key, i: nat) {
    Cancellable(m, i) && k.session == m.session && k.id == m.decoded.requests[i].id
  }

  lemma {:induction false} IsAKey(m: Message, k: Key, i: nat, n: nat)
    requires IsFor(m, k, i) && i < n <= |m.tasks|
    ensures k in FirstKeys(m, n)
  {
    if i < n - 1 {
      IsAKey(m, k, i, n - 1);
    }
  }

  /** Cancelling under a key stops the task of a request with its id, from its session, that expects an answer. */
  lemma CancelStopsItsRequest(s: State, k: Key)
    requires Inv(s) && k in s.handles
    ensures s.handles[k].message in s.messages
    ensures var m, i := s.messages[s.handles[k].message], s.handles[k].index;
      && i < |m.decoded.requests| == |m.tasks| && m.tasks[i] != NotSpawned
      && m.session == k.session && m.decoded.requests[i].id == k.id && m.decoded.requests[i].expects
  {
    assert Held(s, k) && Valid(s.messages[s.handles[k].message]);
  }

  lemma StartedIsValid(session: Session, decoded: Decoded, decisions: seq<Decision>)
    requires |decisions| == |decoded.requests|
    ensures Valid(Started(session, decoded, decisions))
  {
  }

  lemma EndingKeepsValid(m: Message, i: nat, ending: Ending)
    requires Valid(m) && i < |m.tasks| && m.tasks[i] == Live
    ensures Valid(WithEnding(m, i, ending)) && KeysOf(WithEnding(m, i, ending)) == KeysOf(m)
    ensures forall k, j :: IsFor(m, k, j) ==> IsFor(WithEnding(m, i, ending), k, j)
  {
    var after := WithEnding(m, i, ending);
    assert ValidSlot(m.decoded.requests[i], m.tasks[i], m.slots[i]);
    forall j | 0 <= j < |after.slots| ensures ValidSlot(after.decoded.requests[j], after.tasks[j], after.slots[j]) {
      assert ValidSlot(m.decoded.requests[j], m.tasks[j], m.slots[j]);
    }
    SameKeys(m, after, |m.tasks|);
  }

  lemma {:induction false} SameKeys(m: Message, after: Message, n: nat)
    requires m.session == after.session && m.decoded == after.decoded
    requires forall j :: 0 <= j < n ==> (Cancellable(after, j) <==> Cancellable(m, j))
    ensures FirstKeys(m, n) == FirstKeys(after, n)
  {
    if n > 0 {
      SameKeys(m, after, n - 1);
    }
  }

  /** Spawning the first n requests gives the message its keys and leaves every other entry alone. */
  lemma {:induction false} RegisteredKeys(s: State, id: nat, m: Message, n: nat)
    requires n <= |m.tasks| == |m.decoded.requests|
    ensures var t := Registered(s, id, m, n);
      && t.timeouts == s.timeouts && t.messages == s.messages
      && t.handles.Keys == s.handles.Keys + FirstKeys(m, n)
      && t.states.Keys == s.states.Keys + FirstKeys(m, n)
  {
    if n > 0 {
      RegisteredKeys(s, id, m, n - 1);
    }
  }

  /** Its keys are filed under the message and the request they are for, as queued. */
  lemma {:induction false} RegisteredValues(s: State, id: nat, m: Message, n: nat)
    requires n <= |m.tasks| == |m.decoded.requests|
    ensures var t := Registered(s, id, m, n);
      && (forall k :: k in t.handles ==> if k in FirstKeys(m, n) then t.handles[k].message == id
                                         else k in s.handles && t.handles[k] == s.handles[k])
      && (forall k :: k in t.handles && k in FirstKeys(m, n) ==> IsFor(m, k, t.handles[k].index))
      && (forall k :: k in t.states ==> if k in FirstKeys(m, n) then t.states[k] == Queued
                                        else k in s.states && t.states[k] == s.states[k])
  {
    if n > 0 {
      RegisteredValues(s, id, m, n - 1);
      hide FirstKeys;
      FirstKeysStep(m, n);
    }
  }

  lemma FirstKeysStep(m: Message, n: nat)
    requires 0 < n <= |m.tasks| == |m.decoded.requests|
    ensures FirstKeys(m, n)
         == if Cancellable(m, n - 1) then FirstKeys(m, n - 1) + {Key(m.session, m.decoded.requests[n - 1].id)}
            else FirstKeys(m, n - 1)
  {
  }

  lemma ArrivedIsHeld(s: State, id: nat, m: Message, k: Key)
    requires Inv(s) && id !in s.messages && |m.tasks| == |m.decoded.requests|
    requires k in Registered(s, id, m, |m.tasks|).handles
    ensures Held(Registered(s, id, m, |m.tasks|).(messages := s.messages[id := m]), k)
  {
    hide Valid;
    hide IsFor;
    RegisteredValues(s, id, m, |m.tasks|);
    hide Registered;
    hide FirstKeys;
    if k !in FirstKeys(m, |m.tasks|) {
      assert k in s.handles.Keys && Held(s, k);
    }
  }

  lemma ArriveKeeps(s: State, id: nat, session: Session, decoded: Decoded, decisions: seq<Decision>)
    requires Inv(s) && id !in s.messages && |decisions| == |decoded.requests|
    ensures var m := Started(session, decoded, decisions);
      Inv(Registered(s, id, m, |decisions|).(messages := s.messages[id := m]))
  {
    var m := Started(session, decoded, decisions);
    StartedIsValid(session, decoded, decisions);
    hide Registered;
    hide Started;
    hide Valid;
    hide Held;
    RegisteredMaps(s, id, m);
    var registered := Registered(s, id, m, |decisions|);
    forall k | k in registered.handles ensures Held(registered.(messages := s.messages[id := m]), k) {
      ArrivedIsHeld(s, id, m, k);
    }
  }

  lemma RegisteredMaps(s: State, id: nat, m: Message)
    requires |m.tasks| == |m.decoded.requests| && forall k :: k in s.handles <==> k in s.states
    ensures var t := Registered(s, id, m, |m.tasks|);
      t.messages == s.messages && forall k :: k in t.handles <==> k in t.states
  {
    RegisteredKeys(s, id, m, |m.tasks|);
    hide Registered;
  }

  lemma EndKeeps(s: State, m: nat, i: nat, ending: Ending)
    requires Inv(s) && m in s.messages && i < |s.messages[m].tasks| && s.messages[m].tasks[i] == Live
    ensures Inv(s.(messages := s.messages[m := WithEnding(s.messages[m], i, ending)]))
  {
    EndingKeepsValid(s.messages[m], i, ending);
    hide Valid;
    hide Held;
    var after := WithEnding(s.messages[m], i, ending);
    hide WithEnding;
    forall k | k in s.handles ensures Held(s.(messages := s.messages[m := after]), k) {
      StaysHeld(s, m, after, k);
    }
  }

  lemma StaysHeld(s: State, m: nat, after: Message, k: Key)
    requires k in s.handles && Held(s, k)
    requires m in s.messages && forall j :: IsFor(s.messages[m], k, j) ==> IsFor(after, k, j)
    ensures Held(s.(messages := s.messages[m := after]), k)
  {
  }

  lemma FinishKeeps(s: State, m: nat)
    requires Inv(s) && m in s.messages
    ensures Inv(s.(handles := s.handles - KeysOf(s.messages[m]), states := s.states - KeysOf(s.messages[m]),
                   messages := s.messages - {m}))
  {
    var t := s.(handles := s.handles - KeysOf(s.messages[m]), states := s.states - KeysOf(s.messages[m]),
                messages := s.messages - {m});
    forall k | k in t.handles ensures Held(t, k) {
      StillHeld(s, t, m, k);
    }
  }

  lemma StillHeld(s: State, t: State, m: nat, k: Key)
    requires Inv(s) && m in s.messages && k in s.handles && k !in KeysOf(s.messages[m])
    requires t.messages == s.messages - {m} && k in t.handles && t.handles[k] == s.handles[k]
    ensures Held(t, k)
  {
    assert Held(s, k);
    if s.handles[k].message == m {
      assert Valid(s.messages[m]);
      IsAKey(s.messages[m], k, s.handles[k].index, |s.messages[m].tasks|);
    }
  }

  /** Removing whole keys from both maps at once. */
  lemma RemovalKeeps(s: State, t: State)
    requires Inv(s) && t.messages == s.messages
    requires forall k :: k in t.handles ==> k in s.handles && t.handles[k] == s.handles[k]
    requires forall k :: k in t.handles <==> k in t.states
    ensures Inv(t)
  {
    forall k | k in t.handles ensures Held(t, k) {
      assert Held(s, k);
    }
  }

  lemma WithoutSessionKeeps(s: State, session: Session)
    requires Inv(s)
    ensures Inv(WithoutSession(s, session))
  {
    RemovalKeeps(s, WithoutSession(s, session));
  }

  lemma StepKeeps(s: State, step: Step, t: State)
    requires Inv(s) && Next(s, step, t)
    ensures Inv(t)
  {
    match step
    case Arrive(m, session, decoded, decisions) => ArriveKeeps(s, m, session, decoded, decisions);
    case Run(_, _) => RemovalKeeps(s, t);
    case End(m, i, ending) => EndKeeps(s, m, i, ending);
    case Finish(m) => FinishKeeps(s, m);
    case CancelSession(session) => WithoutSessionKeeps(s, session);
    case CancelAll => RemovalKeeps(s, t);
    case SetTimeout(_, _) => RemovalKeeps(s, t);
  }

  /**
   * How a step changes the states of requests that stay cancellable: an arriving message's are queued, a task that
   * starts running is marked under its own key, and nothing else changes.
   */
  lemma StatesFollow(s: State, step: Step, t: State)
    requires Inv(s) && Next(s, step, t)
    ensures step.Arrive? ==> step.m in t.messages
    ensures step.Run? ==> step.m in s.messages
    ensures forall k :: k in t.states ==>
      if step.Arrive? && k in KeysOf(t.messages[step.m]) then t.states[k] == Queued
      else
        && k in s.states
        && t.states[k] == if step.Run? && IsFor(s.messages[step.m], k, step.i) then Running else s.states[k]
  {
    hide Valid;
    hide Held;
    if step.Arrive? {
      ArrivedStates(s, step.m, Started(step.session, step.decoded, step.decisions));
      hide Started;
      hide Registered;
    }
    if step.Run? {
      assert Valid(s.messages[step.m]);
      SameLengths(s.messages[step.m]);
    }
  }

  /** Timeouts come and go only by being set, with their session, or all at once, and then all handles and states go. */
  lemma TimeoutsFollow(s: State, step: Step, t: State)
    requires Inv(s) && Next(s, step, t)
    ensures forall c :: c in t.timeouts <==>
      match step
      case SetTimeout(session, timeout) => if c == session then timeout.Some? else c in s.timeouts
      case CancelSession(session) => c in s.timeouts && c != session
      case CancelAll => false
      case _ => c in s.timeouts
    ensures forall c :: c in t.timeouts ==>
      if step.SetTimeout? && c == step.session then step.timeout == Some(t.timeouts[c])
      else c in s.timeouts && t.timeouts[c] == s.timeouts[c]
    ensures step.CancelAll? ==> t.handles == map[] && t.states == map[] && t.messages == s.messages
  {
    hide Valid;
    hide Held;
    hide Others;
    hide OtherStates;
    if step.Arrive? {
      var m := Started(step.session, step.decoded, step.decisions);
      RegisteredKeys(s, step.m, m, |step.decisions|);
      hide Registered;
      hide Started;
    }
  }

  lemma SameLengths(m: Message)
    requires Valid(m)
    ensures |m.tasks| == |m.decoded.requests|
  {
  }

  lemma ArrivedStates(s: State, id: nat, m: Message)
    requires |m.tasks| == |m.decoded.requests|
    ensures var t := Registered(s, id, m, |m.tasks|);
      forall k :: k in t.states ==>
        if k in KeysOf(m) then t.states[k] == Queued else k in s.states && t.states[k] == s.states[k]
  {
    RegisteredValues(s, id, m, |m.tasks|);
    hide Registered;
  }

  ghost predicate Run(ss: seq<State>, steps: seq<Step>) {
    && |ss| == |steps| + 1 && ss[0] == State(map[], map[], map[], map[])
    && forall i :: 0 <= i < |steps| ==> Moves(ss, steps, i)
  }

  ghost predicate Moves(ss: seq<State>, steps: seq<Step>, i: nat)
    requires |ss| == |steps| + 1 && i < |steps|
  {
    Inv(ss[i]) ==> Next(ss[i], steps[i], ss[i + 1])
  }

  /**
   * At every suspension point of every run the cancel handles and the request states have the same keys,
   * every key belongs to a message still being processed, and a finished message's responses are one for
   * each request that expects one.
   */
  lemma {:induction false} BookkeepingHolds(ss: seq<State>, steps: seq<Step>, i: nat)
    requires Run(ss, steps) && i < |ss|
    ensures Inv(ss[i]) && ss[i].handles.Keys == ss[i].states.Keys
    ensures i < |steps| && steps[i].Finish? ==>
      steps[i].m in ss[i].messages &&
      var m := ss[i].messages[steps[i].m];
      && Valid(m) && Done(m)
      && |Responses(m)| == |m.decoded.responses| + |Expecting(m.decoded.requests)|
      && ss[i + 1].handles.Keys == ss[i].handles.Keys - KeysOf(m)
  {
    if i > 0 {
      BookkeepingHolds(ss, steps, i - 1);
      assert Moves(ss, steps, i - 1);
      StepKeeps(ss[i - 1], steps[i - 1], ss[i]);
    }
    hide Held;
    SameKeysInBoth(ss[i]);
    if i < |steps| && steps[i].Finish? {
      assert Moves(ss, steps, i);
      hide Run;
      OneResponseEach(ss[i].messages[steps[i].m]);
      hide Responses;
    }
  }

  lemma SameKeysInBoth(s: State)
    requires Inv(s)
    ensures s.handles.Keys == s.states.Keys
  {
  }

  /** Cancelling a session takes exactly that session out of all three maps. */
  lemma SessionIsRemovedExactly(s: State, session: Session)
    ensures var t := WithoutSession(s, session);
      && (forall k :: k in t.handles <==> k in s.handles && k.session != session)
      && (forall k :: k in t.states <==> k in s.states && k.session != session)
      && (forall k :: k in t.handles ==> t.handles[k] == s.handles[k])
      && (forall k :: k in t.states ==> t.states[k] == s.states[k])
      && (forall c :: c in t.timeouts <==> c in s.timeouts && c != session)
      && (forall c :: c in t.timeouts ==> t.timeouts[c] == s.timeouts[c])
      && t.messages == s.messages
  {
  }

  // ----- admission ---------------------------------------------------------------------------

  /** How many more requests the limiter lets in before it refuses. */
  function Room(s: Limits.Limiter): nat {
    if s.maxActive == 0 || s.outstanding >= s.maxActive + s.maxQueued then 0
    else if s.outstanding < 0 then s.maxActive + s.maxQueued
    else s.maxActive + s.maxQueued - s.outstanding
  }

  /** Unknown methods first, then the connection's own limit, then the limiter's room, request by request. */
  function Decisions(requests: seq<Request>, handlers: set<string>, rejectOnly: bool, room: nat): (r: seq<Decision>)
    ensures |r| == |requests|
    decreases |requests|
  {
    if requests == [] then []
    else if requests[0].name !in handlers then [NoHandler] + Decisions(requests[1..], handlers, rejectOnly, room)
    else if rejectOnly || room == 0 then [Refused] + Decisions(requests[1..], handlers, rejectOnly, room)
    else [Admitted] + Decisions(requests[1..], handlers, rejectOnly, room - 1)
  }

  function Handled(requests: seq<Request>, handlers: set<string>): nat {
    if requests == [] then 0 else (if requests[0].name in handlers then 1 else 0) + Handled(requests[1..], handlers)
  }

  function CountAdmitted(decisions: seq<Decision>): nat {
    if decisions == [] then 0 else (if decisions[0] == Admitted then 1 else 0) + CountAdmitted(decisions[1..])
  }

  /** Of the requests with a handler as many are admitted as there is room, and none where all are rejected. */
  lemma {:induction false} AdmitsWhileThereIsRoom(
    requests: seq<Request>, handlers: set<string>, rejectOnly: bool, room: nat)
    ensures var r, handled := Decisions(requests, handlers, rejectOnly, room), Handled(requests, handlers);
      && CountAdmitted(r) == (if rejectOnly then 0 else if handled < room then handled else room)
      && forall i :: 0 <= i < |r| ==> (r[i] == NoHandler <==> requests[i].name !in handlers)
    decreases |requests|
  {
    if requests != [] {
      var rest := if requests[0].name in handlers && !rejectOnly && room > 0 then room - 1 else room;
      AdmitsWhileThereIsRoom(requests[1..], handlers, rejectOnly, rest);
      var r := Decisions(requests, handlers, rejectOnly, room);
      assert r[1..] == Decisions(requests[1..], handlers, rejectOnly, rest);
    }
  }

  function Decided(request: Request, handlers: set<string>, rejectOnly: bool, room: nat): Decision {
    if request.name !in handlers then NoHandler else if rejectOnly || room == 0 then Refused else Admitted
  }

  lemma DecisionsStep(
    done: seq<Decision>, requests: seq<Request>, i: nat, handlers: set<string>, rejectOnly: bool, room: nat)
    requires i < |requests|
    ensures var d := Decided(requests[i], handlers, rejectOnly, room);
      && (d == Admitted ==> room > 0)
      && done + Decisions(requests[i..], handlers, rejectOnly, room)
         == done + [d] + Decisions(requests[i + 1..], handlers, rejectOnly, if d == Admitted then room - 1 else room)
  {
    assert requests[i..][0] == requests[i] && requests[i..][1..] == requests[i + 1..];
  }

  /** Decides on one request, under the object numbered `h` if it is admitted. */
  method DecideOne(request: Request, handlers: set<string>, rejectOnly: bool, limiter: Limits.RpcExecutionLimiter,
                   h: nat)
    returns (decision: Decision)
    requires Limits.Inv(limiter.State()) && Limits.LockFree(limiter.State())
    requires forall g :: g in limiter.owners ==> g < h
    modifies limiter
    ensures Limits.Inv(limiter.State()) && Limits.LockFree(limiter.State())
    ensures forall g :: g in limiter.owners ==> g <= h
    ensures decision == Decided(request, handlers, rejectOnly, Room(old(limiter.State())))
    ensures Room(limiter.State())
         == if decision == Admitted then Room(old(limiter.State())) - 1 else Room(old(limiter.State()))
  {
    ghost var before := limiter.State();
    NeverNegative(before);
    hide Limits.Inv;
    hide Limits.Count;
    RoomTaken(before, before);
    hide Limits.Refuses;
    if request.name !in handlers {
      return NoHandler;
    }
    if rejectOnly {
      limiter.Reject();
      return Refused;
    }
    var admitted := limiter.TryAdmit(h);
    RoomTaken(before, limiter.State());
    hide Room;
    return if admitted then Admitted else Refused;
  }

  /** Decides on the requests of a message one by one; the objects admitted are numbered from `token` on. */
  method Decide(requests: seq<Request>, handlers: set<string>, rejectOnly: bool,
                limiter: Limits.RpcExecutionLimiter, token: nat) returns (decisions: seq<Decision>)
    requires Limits.Inv(limiter.State()) && Limits.LockFree(limiter.State())
    requires forall h :: h in limiter.owners ==> h < token
    modifies limiter
    ensures Limits.Inv(limiter.State()) && Limits.LockFree(limiter.State())
    ensures decisions == Decisions(requests, handlers, rejectOnly, Room(old(limiter.State())))
  {
    hide Limits.Inv;
    hide Limits.LockFree;
    hide Room;
    decisions := [];
    ghost var all := Decisions(requests, handlers, rejectOnly, Room(limiter.State()));
    assert requests[0..] == requests;
    for i := 0 to |requests|
      invariant Limits.Inv(limiter.State()) && Limits.LockFree(limiter.State())
      invariant forall h :: h in limiter.owners ==> h < token + i
      invariant decisions + Decisions(requests[i..], handlers, rejectOnly, Room(limiter.State())) == all
    {
      DecisionsStep(decisions, requests, i, handlers, rejectOnly, Room(limiter.State()));
      hide Decisions;
      var decision := DecideOne(requests[i], handlers, rejectOnly, limiter, token + i);
      decisions := decisions + [decision];
    }
    assert requests[|requests|..] == [];
  }

  lemma NeverNegative(s: Limits.Limiter)
    requires Limits.Inv(s)
    ensures s.outstanding >= 0
  {
  }

  lemma PrefixStep<T>(s: seq<T>, i: nat, x: T)
    requires i < |s| && s[i] == x
    ensures s[..i] + [x] == s[..i + 1]
  {
  }

  /** The limiter refuses when it has no room, and each admission takes one place. */
  lemma RoomTaken(s: Limits.Limiter, t: Limits.Limiter)
    requires s.outstanding >= 0 && t.maxActive == s.maxActive && t.maxQueued == s.maxQueued
    ensures Limits.Refuses(s) <==> Room(s) == 0
    ensures t.outstanding == s.outstanding ==> Room(t) == Room(s)
    ensures t.outstanding == s.outstanding + 1 && Room(s) > 0 ==> Room(t) == Room(s) - 1
  {
  }

  // ----- the dispatcher itself ---------------------------------------------------------------

  class RpcDispatcher {
    var handles: map<Key, Handle>
    var states: map<Key, RunState>
    var timeouts: map<Session, nat>
    ghost var messages: map<nat, Message>

    ghost function Value(): State
      reads this
    {
      State(handles, states, timeouts, messages)
    }

    ghost predicate Consistent()
      reads this
    {
      Inv(Value())
    }

    constructor ()
      ensures Value() == State(map[], map[], map[], map[]) && Consistent()
    {
      handles, states, timeouts, messages := map[], map[], map[], map[];
    }

    /** Takes a decoded message in: decides on its requests by handlers and limits, then starts them. */
    method BeginMessage(id: nat, session: Session, decoded: Decoded, handlers: set<string>, rejectOnly: bool,
                        limiter: Limits.RpcExecutionLimiter, token: nat) returns (m: Message)
      requires Consistent() && id !in messages
      requires Limits.Inv(limiter.State()) && Limits.LockFree(limiter.State())
      requires forall h :: h in limiter.owners ==> h < token
      modifies this, limiter
      ensures Consistent() && Limits.Inv(limiter.State())
      ensures var decisions := Decisions(decoded.requests, handlers, rejectOnly, Room(old(limiter.State())));
        && m == Started(session, decoded, decisions)
        && Value() == Registered(old(Value()), id, m, |decisions|).(messages := old(messages)[id := m])
    {
      hide Limits.Inv;
      hide Limits.LockFree;
      hide Inv;
      hide Started;
      hide Registered;
      var decisions := Decide(decoded.requests, handlers, rejectOnly, limiter, token);
      m := StartMessage(id, session, decoded, decisions);
    }

    /** Admits or refuses every request of a message and spawns the admitted ones. */
    method StartMessage(id: nat, session: Session, decoded: Decoded, decisions: seq<Decision>) returns (m: Message)
      requires Consistent() && id !in messages && |decisions| == |decoded.requests|
      modifies this
      ensures Consistent()
      ensures m == Started(session, decoded, decisions)
      ensures Value() == Registered(old(Value()), id, m, |decisions|).(messages := old(messages)[id := m])
    {
      ArriveKeeps(Value(), id, session, decoded, decisions);
      StartedParts(session, decoded, decisions);
      hide Inv;
      hide Started;
      hide Registered;
      var tasks, slots := StartRequests(id, session, decoded, decisions);
      m := Message(session, decoded, tasks, slots);
      messages := messages[id := m];
    }

    method StartRequests(id: nat, session: Session, decoded: Decoded, decisions: seq<Decision>)
      returns (tasks: seq<Task>, slots: seq<seq<Response>>)
      requires |decisions| == |decoded.requests|
      modifies this`handles, this`states
      ensures Message(session, decoded, tasks, slots) == Started(session, decoded, decisions)
      ensures Value() == Registered(old(Value()), id, Started(session, decoded, decisions), |decisions|)
    {
      ghost var start := Value();
      ghost var whole := Started(session, decoded, decisions);
      StartedParts(session, decoded, decisions);
      RegisteredNone(start, id, whole);
      hide FirstSlot;
      hide Started;
      hide Registered;
      tasks, slots := [], [];
      for i := 0 to |decisions|
        invariant tasks == whole.tasks[..i] && slots == whole.slots[..i]
        invariant Value() == Registered(start, id, whole, i)
      {
        RegisteredStep(start, id, whole, i, decisions[i]);
        var task, slot := StartRequest(id, i, session, decoded.requests[i], decisions[i]);
        PrefixStep(whole.tasks, i, task);
        PrefixStep(whole.slots, i, slot);
        tasks, slots := tasks + [task], slots + [slot];
      }
    }

    /** One request: an error straight away, or a task, cancellable under its id if an answer is expected. */
    method StartRequest(id: nat, i: nat, session: Session, request: Request, decision: Decision)
      returns (task: Task, slot: seq<Response>)
      modifies this`handles, this`states
      ensures task == FirstTask(decision) && slot == FirstSlot(request, decision)
      ensures var key := Key(session, request.id);
        Value() == if decision == Admitted && request.expects
                   then old(Value()).(handles := old(handles)[key := Handle(id, i)],
                                      states := old(states)[key := Queued])
                   else old(Value())
    {
      match decision {
        case NoHandler =>
          return NotSpawned, Answer(request, Failure(MethodNotFound));
        case Refused =>
          return NotSpawned, Answer(request, Failure(Overloaded));
        case Admitted =>
          if request.expects {
            var key := Key(session, request.id);
            states := states[key := Queued];
            handles := handles[key := Handle(id, i)];
          }
          return Live, [];
      }
    }

    method MarkRunning(key: Key)
      modifies this`states
      ensures Value() == MarkedRunning(old(Value()), key)
      ensures states.Keys == old(states).Keys
    {
      if key in states {
        states := states[key := Running];
      }
    }

    /** Once every task has ended: answers for the stopped ones, then the keys, then the responses in order. */
    method FinishMessage(id: nat, m: Message) returns (responses: seq<Response>)
      requires Consistent() && id in messages && messages[id] == m && Done(m)
      modifies this
      ensures Consistent()
      ensures responses == Responses(m)
      ensures Value() == old(Value()).(handles := old(handles) - KeysOf(m), states := old(states) - KeysOf(m),
                                       messages := old(messages) - {id})
    {
      ghost var before := Value();
      FinishKeeps(before, id);
      assert before.messages[id] == m && Valid(m);
      hide Inv;
      hide Valid;
      var keys := KeysOf(m);
      handles := handles - keys;
      states := states - keys;
      messages := messages - {id};
      assert Value() == before.(handles := before.handles - keys, states := before.states - keys,
                                messages := before.messages - {id});
      responses := m.decoded.responses;
      var requests := m.decoded.requests;
      for i := 0 to |m.slots|
        invariant responses + SlotResponses(requests[i..], m.slots[i..]) == Responses(m)
        invariant Value() == before.(handles := before.handles - keys, states := before.states - keys,
                                     messages := before.messages - {id})
      {
        SlotResponsesStep(requests, m.slots, i, responses);
        responses := responses + FinalSlot(requests[i], m.slots[i]);
      }
      assert responses + [] == responses;
      hide SlotResponses;
    }

    /** Stops one session's running requests and forgets everything about the session. */
    method CancelSession(session: Session) returns (canceled: nat)
      requires Consistent()
      modifies this
      ensures Consistent()
      ensures Value() == WithoutSession(old(Value()), session)
      ensures canceled == |old(handles)| - |handles|
    {
      hide WithoutSession;
      hide Inv;
      hide Others;
      hide OtherStates;
      WithoutSessionKeeps(Value(), session);
      WithoutSessionIs(Value(), session);
      var kept;
      kept, canceled := DropSession(handles, session);
      handles := kept;
      states := OtherStates(states, session);
      timeouts := timeouts - {session};
    }

    method CancelAll() returns (canceled: nat)
      requires Consistent()
      modifies this
      ensures Consistent() && canceled == |old(handles)|
      ensures Value() == State(map[], map[], map[], old(messages))
    {
      RemovalKeeps(Value(), Value().(handles := map[], states := map[], timeouts := map[]));
      canceled := |handles|;
      handles, states, timeouts := map[], map[], map[];
    }
  }

  function OtherSessions(keys: set<Key>, session: Session): set<Key> {
    set k | k in keys && k.session != session
  }

  /** Half-way through the handles: the rest is still to come, and what was seen is kept or counted. */
  ghost predicate Walking(handles: map<Key, Handle>, left: map<Key, Handle>, kept: map<Key, Handle>, canceled: nat,
                          session: Session)
  {
    && left.Keys <= handles.Keys
    && (forall k :: k in left ==> left[k] == handles[k])
    && kept.Keys == OtherSessions(handles.Keys - left.Keys, session)
    && (forall k :: k in kept ==> kept[k] == handles[k])
    && canceled + |kept| + |left| == |handles|
  }

  lemma WalkDrops(handles: map<Key, Handle>, left: map<Key, Handle>, kept: map<Key, Handle>, canceled: nat,
                  session: Session, k: Key)
    requires Walking(handles, left, kept, canceled, session) && k in left && k.session == session
    ensures Walking(handles, left - {k}, kept, canceled + 1, session)
  {
    RemoveOne(left, k);
    SeenGrows(handles.Keys, left, k, session);
    hide OtherSessions;
  }

  lemma WalkKeeps(handles: map<Key, Handle>, left: map<Key, Handle>, kept: map<Key, Handle>, canceled: nat,
                  session: Session, k: Key)
    requires Walking(handles, left, kept, canceled, session) && k in left && k.session != session
    ensures Walking(handles, left - {k}, kept[k := left[k]], canceled, session)
  {
    assert k !in kept.Keys;
    RemoveOne(left, k);
    AddOne(kept, k, left[k]);
    SeenGrows(handles.Keys, left, k, session);
    hide OtherSessions;
  }

  lemma SeenGrows(keys: set<Key>, left: map<Key, Handle>, k: Key, session: Session)
    requires k in left && k in keys
    ensures var seen, more := keys - left.Keys, keys - (left - {k}).Keys;
      OtherSessions(more, session)
      == if k.session == session then OtherSessions(seen, session) else OtherSessions(seen, session) + {k}
  {
    assert (left - {k}).Keys == left.Keys - {k};
    assert keys - (left - {k}).Keys == keys - left.Keys + {k};
  }

  function Others(handles: map<Key, Handle>, session: Session): map<Key, Handle> {
    map k | k in handles && k.session != session :: handles[k]
  }

  /** Walks the handles once, dropping and counting those of one session. */
  method DropSession(handles: map<Key, Handle>, session: Session) returns (kept: map<Key, Handle>, canceled: nat)
    ensures kept == Others(handles, session)
    ensures canceled == |handles| - |kept|
  {
    var left := handles;
    kept, canceled := map[], 0;
    WalkStart(handles, session);
    while left != map[]
      invariant Walking(handles, left, kept, canceled, session)
      decreases |left|
    {
      hide Walking;
      var k :| k in left;
      RemoveOne(left, k);
      if k.session == session {
        WalkDrops(handles, left, kept, canceled, session, k);
        canceled := canceled + 1;
      } else {
        WalkKeeps(handles, left, kept, canceled, session, k);
        kept := kept[k := left[k]];
      }
      left := left - {k};
    }
    WalkEnd(handles, kept, canceled, session);
  }

  lemma WalkStart(handles: map<Key, Handle>, session: Session)
    ensures Walking(handles, handles, map[], 0, session)
  {
    assert OtherSessions({}, session) == {};
    assert handles.Keys - handles.Keys == {};
  }

  lemma WalkEnd(handles: map<Key, Handle>, kept: map<Key, Handle>, canceled: nat, session: Session)
    requires Walking(handles, map[], kept, canceled, session)
    ensures kept == Others(handles, session) && canceled == |handles| - |kept|
  {
    var none: map<Key, Handle> := map[];
    assert handles.Keys - none.Keys == handles.Keys;
    assert forall k :: k in kept <==> k in kept.Keys;
  }

  lemma AddOne(m: map<Key, Handle>, k: Key, h: Handle)
    requires k !in m
    ensures m[k := h].Keys == m.Keys + {k} && |m[k := h]| == |m| + 1
  {
    assert m[k := h].Keys == m.Keys + {k};
  }

  lemma RemoveOne(m: map<Key, Handle>, k: Key)
    requires k in m
    ensures |m - {k}| == |m| - 1 && (m - {k}).Keys == m.Keys - {k}
  {
    assert (m - {k}).Keys == m.Keys - {k};
  }

  lemma SlotResponsesStep(requests: seq<Request>, slots: seq<seq<Response>>, i: nat, done: seq<Response>)
    requires i < |slots| == |requests|
    ensures done + SlotResponses(requests[i..], slots[i..])
         == done + FinalSlot(requests[i], slots[i]) + SlotResponses(requests[i + 1..], slots[i + 1..])
  {
    assert requests[i..][1..] == requests[i + 1..] && slots[i..][1..] == slots[i + 1..];
    assert SlotResponses(requests[i..], slots[i..])
        == FinalSlot(requests[i], slots[i]) + SlotResponses(requests[i + 1..], slots[i + 1..]);
  }

  lemma RegisteredNone(s: State, id: nat, m: Message)
    requires |m.tasks| == |m.decoded.requests|
    ensures Registered(s, id, m, 0) == s
  {
  }

  lemma RegisteredStep(s: State, id: nat, m: Message, i: nat, decision: Decision)
    requires i < |m.tasks| == |m.decoded.requests| && m.tasks[i] == FirstTask(decision)
    ensures var before, key := Registered(s, id, m, i), Key(m.session, m.decoded.requests[i].id);
      Registered(s, id, m, i + 1)
      == if decision == Admitted && m.decoded.requests[i].expects
         then before.(handles := before.handles[key := Handle(id, i)], states := before.states[key := Queued])
         else before
  {
  }

  lemma StartedParts(session: Session, decoded: Decoded, decisions: seq<Decision>)
    requires |decisions| == |decoded.requests|
    ensures var m := Started(session, decoded, decisions);
      && m == Message(session, decoded, m.tasks, m.slots)
      && |m.tasks| == |m.slots| == |decisions|
      && forall i :: 0 <= i < |decisions| ==>
           m.tasks[i] == FirstTask(decisions[i]) && m.slots[i] == FirstSlot(decoded.requests[i], decisions[i])
  {
  }
}
