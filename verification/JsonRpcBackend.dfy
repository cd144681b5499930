/**
 * The JSON-RPC backend's envelopes: which elements of a message are answered, under which ids, and how the
 * answers are wrapped. Beside it stands what section 4 to 6 of the JSON-RPC 2.0 Specification demand, and
 * exactly which messages the backend answers that way. Parsing JSON text is left to the library.
 */
module JsonRpcBackend {
  import opened Wrappers
  import opened Dispatcher

  /**
   * An id member as it stands in JSON text. A 64-bit unsigned number and a string are the ids the backend
   * can hold; other numbers, such as -1 or 1.5, are ids by the Specification; the rest are not.
   */
  datatype JsonId = Absent | Null | Unsigned(n: nat) | OtherNumber(text: string) | Quoted(s: string) | NotAnId

  datatype Member = Missing | NotString | Str(s: string)

  datatype Params = NoParams | Structured | Unstructured

  /** A JSON value where a request may stand. */
  datatype Element = NotObject | Object(jsonrpc: Member, name: Member, params: Params, id: JsonId)

  datatype Root = Array(elements: seq<Element>) | Single(element: Element)

  datatype Envelope = Nothing | One(response: Response) | Many(responses: seq<Response>)

  const MAX_ID := 0xFFFF_FFFF_FFFF_FFFF

  // ----- ids in and out ----------------------------------------------------------------------

  /** An absent id and a null one read alike. */
  function ReadId(id: JsonId): Option<Id> {
    match id
    case Absent => Some(NoId)
    case Null => Some(NoId)
    case Unsigned(n) => if n <= MAX_ID then Some(Number(n)) else None
    case Quoted(s) => Some(Text(s))
    case OtherNumber(_) => None
    case NotAnId => None
  }

  /** An empty id is left out of a response, unless the library is built to write nulls for empty members. */
  function WriteId(id: Id, writeNull: bool): JsonId {
    match id
    case NoId => if writeNull then Null else Absent
    case Number(n) => Unsigned(n)
    case Text(s) => Quoted(s)
  }

  // ----- decoding ----------------------------------------------------------------------------

  /** Whether the backend takes an element for a request. */
  predicate WellFormed(e: Element) {
    e.Object? && e.jsonrpc == Str("2.0") && e.name.Str? && ReadId(e.id).Some?
  }

  /** Among versioned requests only those without an id go unanswered. */
  predicate ExpectsResponse(id: Id) {
    !id.NoId?
  }

  function ProtocolError(error: RpcFailure): Response {
    Response(NoId, Failure(error))
  }

  function IdOf(e: Element): Id
    requires WellFormed(e)
  {
    ReadId(e.id).value
  }

  function RequestOf(e: Element): Request
    requires WellFormed(e)
  {
    Request(IdOf(e), e.name.s, ExpectsResponse(IdOf(e)))
  }

  function Requests(elements: seq<Element>): seq<Request> {
    if elements == [] then []
    else (if WellFormed(elements[0]) then [RequestOf(elements[0])] else []) + Requests(elements[1..])
  }

  function Errors(elements: seq<Element>): seq<Response> {
    if elements == [] then []
    else (if WellFormed(elements[0]) then [] else [ProtocolError(RpcFailure.InvalidRequest)]) + Errors(elements[1..])
  }

  function Rejected(error: RpcFailure): Decoded {
    Decoded(true, false, [], [ProtocolError(error)])
  }

  /** `root` is what the JSON library reads, or nothing when it cannot. */
  function Decode(size: nat, maxSize: nat, root: Option<Root>): Decoded {
    if size > maxSize then Rejected(RpcFailure.MessageTooLarge)
    else match root
      case None => Rejected(ParseError)
      case Some(Array(elements)) =>
        if elements == [] then Rejected(RpcFailure.InvalidRequest)
        else Decoded(true, true, Requests(elements), Errors(elements))
      case Some(Single(element)) => Decoded(true, false, Requests([element]), Errors([element]))
  }

  method DecodeIncoming(size: nat, maxSize: nat, root: Option<Root>) returns (d: Decoded)
    ensures d == Decode(size, maxSize, root)
  {
    if size > maxSize {
      return Decoded(true, false, [], [ProtocolError(RpcFailure.MessageTooLarge)]);
    }
    if root == None {
      return Decoded(true, false, [], [ProtocolError(ParseError)]);
    }
    var batch := root.value.Array?;
    var elements := [];
    if batch {
      if root.value.elements == [] {
        return Decoded(true, false, [], [ProtocolError(RpcFailure.InvalidRequest)]);
      }
      elements := root.value.elements;
    } else {
      elements := [root.value.element];
    }
    var requests, responses := ReadRequests(elements);
    return Decoded(true, batch, requests, responses);
  }

  /** Sorts the elements of a message into requests and errors. */
  method ReadRequests(elements: seq<Element>) returns (requests: seq<Request>, responses: seq<Response>)
    ensures requests == Requests(elements) && responses == Errors(elements)
  {
    hide WellFormed;
    requests, responses := [], [];
    for i := 0 to |elements|
      invariant requests + Requests(elements[i..]) == Requests(elements)
      invariant responses + Errors(elements[i..]) == Errors(elements)
    {
      var e := elements[i];
      assert elements[i..][0] == e && elements[i..][1..] == elements[i + 1..];
      WellFormedMeans(e);
      if !e.Object? || !e.name.Str? || ReadId(e.id) == None || e.jsonrpc != Str("2.0") {
        responses := responses + [ProtocolError(RpcFailure.InvalidRequest)];
        continue;
      }
      requests := requests + [RequestOf(e)];
    }
  }

  lemma WellFormedMeans(e: Element)
    ensures WellFormed(e) <==> e.Object? && e.name.Str? && ReadId(e.id).Some? && e.jsonrpc == Str("2.0")
  {
  }

  // ----- what is decoded ---------------------------------------------------------------------

  /** Ids that fit an empty value, a 64-bit unsigned number or a string. */
  predicate Holdable(id: JsonId) {
    match id
    case Absent => true
    case Null => true
    case Unsigned(n) => n < 0x1_0000_0000_0000_0000
    case Quoted(_) => true
    case OtherNumber(_) => false
    case NotAnId => false
  }

  /** An object of version 2.0 with a method name and an id that fits. */
  predicate Decodable(e: Element) {
    e.Object? && e.jsonrpc == Str("2.0") && e.name.Str? && Holdable(e.id)
  }

  function AllDecodable(elements: seq<Element>): (r: seq<Element>)
    ensures forall k :: 0 <= k < |r| ==> Decodable(r[k])
  {
    if elements == [] then []
    else (if Decodable(elements[0]) then [elements[0]] else []) + AllDecodable(elements[1..])
  }

  /** The request says what the element says, and expects an answer exactly if its id is there and not null. */
  predicate Says(q: Request, e: Element)
    requires Decodable(e)
  {
    && q.name == e.name.s
    && q.expects == (e.id.Unsigned? || e.id.Quoted?)
    && q.id == match e.id
               case Unsigned(n) => Number(n)
               case Quoted(s) => Text(s)
               case _ => NoId
  }

  /** The requests of a message are its decodable elements in order, and each other element is an error. */
  lemma {:induction false} RequestsSayTheSame(elements: seq<Element>)
    ensures var requests, decodable := Requests(elements), AllDecodable(elements);
      && |requests| == |decodable| && |Errors(elements)| == |elements| - |decodable|
      && forall k :: 0 <= k < |requests| ==> Says(requests[k], decodable[k])
  {
    if elements != [] {
      RequestsSayTheSame(elements[1..]);
      SaysItself(elements[0]);
      hide WellFormed;
      hide Decodable;
      hide RequestOf;
      hide Says;
    }
  }

  lemma SaysItself(e: Element)
    ensures WellFormed(e) <==> Decodable(e)
    ensures WellFormed(e) ==> Says(RequestOf(e), e)
  {
  }

  /** The elements of a message that the library reads. */
  function ElementsOf(root: Root): seq<Element> {
    match root
    case Array(elements) => elements
    case Single(element) => [element]
  }

  /**
   * A decodable element of a message within the size limit reaches the dispatcher under its method name: it is
   * refused as unknown if and only if no handler has that name.
   */
  lemma NamesReachTheirHandlers(
    size: nat, maxSize: nat, root: Root, handlers: set<string>, rejectOnly: bool, room: nat, k: nat)
    requires size <= maxSize && k < |AllDecodable(ElementsOf(root))|
    ensures var requests := Decode(size, maxSize, Some(root)).requests;
      && |requests| == |AllDecodable(ElementsOf(root))|
      && (Decisions(requests, handlers, rejectOnly, room)[k] == NoHandler
          <==> AllDecodable(ElementsOf(root))[k].name.s !in handlers)
  {
    hide Decisions;
    RequestsSayTheSame(ElementsOf(root));
    AdmitsWhileThereIsRoom(Decode(size, maxSize, Some(root)).requests, handlers, rejectOnly, room);
  }

  /** What cannot be decoded at all is answered by one error that says why, and an element by an invalid request. */
  lemma ErrorsSayWhy(size: nat, maxSize: nat, root: Option<Root>)
    ensures var responses := Decode(size, maxSize, root).responses;
      if size > maxSize then responses == [Response(NoId, Failure(RpcFailure.MessageTooLarge))]
      else if root == None then responses == [Response(NoId, Failure(ParseError))]
      else if ElementsOf(root.value) == [] then responses == [Response(NoId, Failure(RpcFailure.InvalidRequest))]
      else
        && |responses| == |ElementsOf(root.value)| - |AllDecodable(ElementsOf(root.value))|
        && forall r :: r in responses ==> r == Response(NoId, Failure(RpcFailure.InvalidRequest))
  {
    if root.Some? {
      RequestsSayTheSame(ElementsOf(root.value));
      ErrorsAreInvalidRequests(ElementsOf(root.value));
    }
  }

  /** No responses are no bytes; a batch is an array and anything else a single object. */
  function Encode(responses: seq<Response>, batch: bool): Envelope {
    if responses == [] then Nothing else if batch then Many(responses) else One(responses[0])
  }

  // ----- what a peer gets back ---------------------------------------------------------------

  /** The elements taken for requests that carry an id, in order. */
  function Calls(elements: seq<Element>): (r: seq<Element>)
    ensures forall e :: e in r ==> WellFormed(e)
  {
    if elements == [] then []
    else (if WellFormed(elements[0]) && !IdOf(elements[0]).NoId? then [elements[0]] else []) + Calls(elements[1..])
  }

  function Malformed(elements: seq<Element>): nat {
    if elements == [] then 0 else (if WellFormed(elements[0]) then 0 else 1) + Malformed(elements[1..])
  }

  lemma {:induction false} CallsExpectAnswers(elements: seq<Element>)
    ensures |Expecting(Requests(elements))| == |Calls(elements)|
    ensures forall k :: 0 <= k < |Calls(elements)| ==>
              Expecting(Requests(elements))[k].id == IdOf(Calls(elements)[k])
  {
    if elements != [] {
      CallsExpectAnswers(elements[1..]);
      ExpectingCons(elements);
      hide Expecting;
      hide Requests;
      hide WellFormed;
    }
  }

  lemma ExpectingCons(elements: seq<Element>)
    requires elements != []
    ensures Expecting(Requests(elements))
         == (if WellFormed(elements[0]) && RequestOf(elements[0]).expects then [RequestOf(elements[0])] else [])
            + Expecting(Requests(elements[1..]))
  {
    var rest := Requests(elements[1..]);
    if WellFormed(elements[0]) {
      assert ([RequestOf(elements[0])] + rest)[1..] == rest;
    } else {
      assert [] + rest == rest;
      assert [] + Expecting(rest) == Expecting(rest);
    }
  }

  lemma {:induction false} ErrorsAreInvalidRequests(elements: seq<Element>)
    ensures |Errors(elements)| == Malformed(elements)
    ensures forall r :: r in Errors(elements) ==> r == ProtocolError(RpcFailure.InvalidRequest)
  {
    if elements != [] {
      ErrorsAreInvalidRequests(elements[1..]);
    }
  }

  /** An error without an id for each element not taken for a request, then each call under its own id. */
  ghost predicate AnswersBatch(responses: seq<Response>, elements: seq<Element>) {
    var errors, calls := Malformed(elements), Calls(elements);
    && |responses| == errors + |calls|
    && (forall k :: 0 <= k < errors ==> responses[k] == ProtocolError(RpcFailure.InvalidRequest))
    && (forall k :: 0 <= k < |calls| ==> responses[errors + k].id == IdOf(calls[k]))
  }

  /** Every element of a message is answered once, or not at all if it is taken for a notification. */
  lemma ElementsAnswered(m: Message, elements: seq<Element>)
    requires Valid(m) && Done(m)
    requires m.decoded.requests == Requests(elements) && m.decoded.responses == Errors(elements)
    ensures AnswersBatch(Responses(m), elements)
  {
    OneResponseEach(m);
    CallsExpectAnswers(elements);
    ErrorsAreInvalidRequests(elements);
    var errors := |m.decoded.responses|;
    forall k | 0 <= k < errors ensures Responses(m)[k] == ProtocolError(RpcFailure.InvalidRequest) {
      assert Responses(m)[k] == Responses(m)[..errors][k] == m.decoded.responses[k];
      assert m.decoded.responses[k] in m.decoded.responses;
    }
  }

  // ----- what the Specification demands ------------------------------------------------------

  /** A Request object: its version, a method name, structured parameters if any, and an id of a legal kind. */
  predicate RequestObject(e: Element) {
    e.Object? && e.jsonrpc == Str("2.0") && e.name.Str? && !e.params.Unstructured? && !e.id.NotAnId?
  }

  /**
   * The id an element must be answered under: only a request without the member is a notification. Section 5
   * asks for null where the id could not be made out and gives an invalid request as an example; this
   * reads it as null for every invalid request, even one whose own id can be read.
   */
  function Demanded(e: Element): Option<JsonId> {
    if !RequestObject(e) then Some(Null) else if e.id.Absent? then None else Some(e.id)
  }

  function DemandedIds(elements: seq<Element>): seq<JsonId> {
    if elements == [] then []
    else (if Demanded(elements[0]).Some? then [Demanded(elements[0]).value] else []) + DemandedIds(elements[1..])
  }

  function WrittenIds(responses: seq<Response>, writeNull: bool): (r: seq<JsonId>)
    ensures |r| == |responses|
    ensures forall k :: 0 <= k < |r| ==> r[k] == WriteId(responses[k].id, writeNull)
  {
    seq(|responses|, k requires 0 <= k < |responses| => WriteId(responses[k].id, writeNull))
  }

  /** A single object answers under the id. */
  predicate AnswersUnder(reply: Envelope, id: JsonId, writeNull: bool) {
    reply.One? && WriteId(reply.response.id, writeNull) == id
  }

  /**
   * The reply the Specification demands: one error with a null id for text that is no JSON or for an empty
   * array; for other arrays an array with each demanded id once, in any order, or nothing if none is.
   */
  ghost predicate AsDemanded(root: Option<Root>, reply: Envelope, writeNull: bool) {
    match root
    case None => AnswersUnder(reply, Null, writeNull)
    case Some(Array(elements)) =>
      if elements == [] then AnswersUnder(reply, Null, writeNull)
      else if DemandedIds(elements) == [] then reply == Nothing
      else reply.Many? && multiset(WrittenIds(reply.responses, writeNull)) == multiset(DemandedIds(elements))
    case Some(Single(element)) =>
      if Demanded(element) == None then reply == Nothing else AnswersUnder(reply, Demanded(element).value, writeNull)
  }

  /**
   * The elements handled as demanded: a Request object whose id is absent or one the backend can hold, and
   * an element that is none, if nulls are written, unless only its parameters are not structured.
   */
  predicate Handled(e: Element, writeNull: bool) {
    if RequestObject(e) then !e.id.Null? && Holdable(e.id) else !Decodable(e) && writeNull
  }

  predicate AllHandled(root: Option<Root>, writeNull: bool) {
    match root
    case None => writeNull
    case Some(Array(elements)) =>
      if elements == [] then writeNull else forall e :: e in elements ==> Handled(e, writeNull)
    case Some(Single(element)) => Handled(element, writeNull)
  }

  /** The id an element is answered under, if it is answered. */
  function Answered(e: Element, writeNull: bool): Option<JsonId> {
    if !WellFormed(e) then Some(WriteId(NoId, writeNull))
    else if IdOf(e).NoId? then None
    else Some(WriteId(IdOf(e), writeNull))
  }

  function AnsweredIds(elements: seq<Element>, writeNull: bool): seq<JsonId> {
    if elements == [] then []
    else (if Answered(elements[0], writeNull).Some? then [Answered(elements[0], writeNull).value] else [])
         + AnsweredIds(elements[1..], writeNull)
  }

  function CallIds(calls: seq<Element>, writeNull: bool): seq<JsonId>
    requires forall e :: e in calls ==> WellFormed(e)
  {
    if calls == [] then [] else [WriteId(IdOf(calls[0]), writeNull)] + CallIds(calls[1..], writeNull)
  }

  function Repeated(id: JsonId, n: nat): seq<JsonId> {
    if n == 0 then [] else [id] + Repeated(id, n - 1)
  }

  /** Errors first and calls after. */
  function Sorted(elements: seq<Element>, writeNull: bool): seq<JsonId> {
    Repeated(WriteId(NoId, writeNull), Malformed(elements)) + CallIds(Calls(elements), writeNull)
  }

  lemma CallsStep(elements: seq<Element>, writeNull: bool)
    requires elements != []
    ensures var e, rest := elements[0], elements[1..];
      CallIds(Calls(elements), writeNull)
      == if WellFormed(e) && !IdOf(e).NoId? then [WriteId(IdOf(e), writeNull)] + CallIds(Calls(rest), writeNull)
         else CallIds(Calls(rest), writeNull)
  {
    hide WellFormed;
    hide WriteId;
    var e, rest := elements[0], elements[1..];
    if WellFormed(e) && !IdOf(e).NoId? {
      assert ([e] + Calls(rest))[1..] == Calls(rest);
    } else {
      assert [] + Calls(rest) == Calls(rest);
    }
  }

  lemma SortedStep(elements: seq<Element>, writeNull: bool)
    requires elements != []
    ensures multiset(Sorted(elements, writeNull))
         == multiset(if Answered(elements[0], writeNull).Some? then [Answered(elements[0], writeNull).value] else [])
            + multiset(Sorted(elements[1..], writeNull))
  {
    var e, rest, none := elements[0], elements[1..], WriteId(NoId, writeNull);
    var errors, calls := Repeated(none, Malformed(rest)), CallIds(Calls(rest), writeNull);
    hide WellFormed;
    hide WriteId;
    CallsStep(elements, writeNull);
    hide CallIds;
    hide Calls;
    assert Repeated(none, Malformed(elements)) == if WellFormed(e) then errors else [none] + errors;
    hide Repeated;
    hide Malformed;
    if !WellFormed(e) {
      assert Sorted(elements, writeNull) == [none] + errors + calls;
      ErrorFirst(none, errors, calls);
    } else if !IdOf(e).NoId? {
      assert Sorted(elements, writeNull) == errors + ([WriteId(IdOf(e), writeNull)] + calls);
      Inserted(errors, WriteId(IdOf(e), writeNull), calls);
    }
  }

  lemma ErrorFirst(none: JsonId, errors: seq<JsonId>, calls: seq<JsonId>)
    ensures multiset([none] + errors + calls) == multiset([none]) + multiset(errors + calls)
  {
  }

  lemma Inserted(a: seq<JsonId>, id: JsonId, b: seq<JsonId>)
    ensures multiset(a + ([id] + b)) == multiset([id]) + multiset(a + b)
  {
  }

  /** That is a rearrangement of the elements' own order. */
  lemma {:induction false} Rearranged(elements: seq<Element>, writeNull: bool)
    ensures multiset(Sorted(elements, writeNull)) == multiset(AnsweredIds(elements, writeNull))
  {
    if elements != [] {
      SortedStep(elements, writeNull);
      Rearranged(elements[1..], writeNull);
      hide Sorted;
      hide Answered;
    }
  }

  lemma {:induction false} RepeatedAt(id: JsonId, n: nat)
    ensures |Repeated(id, n)| == n && forall k :: 0 <= k < n ==> Repeated(id, n)[k] == id
  {
    if n > 0 {
      RepeatedAt(id, n - 1);
    }
  }

  lemma {:induction false} CallIdsAt(calls: seq<Element>, writeNull: bool)
    requires forall e :: e in calls ==> WellFormed(e)
    ensures |CallIds(calls, writeNull)| == |calls|
    ensures forall k :: 0 <= k < |calls| ==> CallIds(calls, writeNull)[k] == WriteId(IdOf(calls[k]), writeNull)
  {
    if calls != [] {
      CallIdsAt(calls[1..], writeNull);
    }
  }

  /** The ids written for a batch are those of its answered elements. */
  lemma BatchIds(responses: seq<Response>, elements: seq<Element>, writeNull: bool)
    requires AnswersBatch(responses, elements)
    ensures multiset(WrittenIds(responses, writeNull)) == multiset(AnsweredIds(elements, writeNull))
  {
    var errors := Repeated(WriteId(NoId, writeNull), Malformed(elements));
    var calls := CallIds(Calls(elements), writeNull);
    RepeatedAt(WriteId(NoId, writeNull), Malformed(elements));
    CallIdsAt(Calls(elements), writeNull);
    hide WellFormed;
    hide WriteId;
    hide CallIds;
    hide Repeated;
    assert WrittenIds(responses, writeNull) == errors + calls == Sorted(elements, writeNull);
    Rearranged(elements, writeNull);
  }

  lemma HandledMeans(e: Element, writeNull: bool)
    ensures Handled(e, writeNull) <==> Answered(e, writeNull) == Demanded(e)
  {
  }

  lemma {:induction false} HandledIdsAgree(elements: seq<Element>, writeNull: bool)
    requires forall e :: e in elements ==> Handled(e, writeNull)
    ensures AnsweredIds(elements, writeNull) == DemandedIds(elements)
  {
    if elements != [] {
      HandledMeans(elements[0], writeNull);
      HandledIdsAgree(elements[1..], writeNull);
    }
  }

  /** What is written is never another number, and what is demanded is never absent. */
  lemma {:induction false} IdsOfTheirKind(elements: seq<Element>, writeNull: bool)
    ensures forall id :: id in AnsweredIds(elements, writeNull) ==> !id.OtherNumber? && !(id.Unsigned? && id.n > MAX_ID)
    ensures forall id :: id in DemandedIds(elements) ==> !id.Absent?
    ensures forall e :: e in elements && Answered(e, writeNull).Some? ==>
              Answered(e, writeNull).value in AnsweredIds(elements, writeNull)
    ensures forall e :: e in elements && Demanded(e).Some? ==> Demanded(e).value in DemandedIds(elements)
  {
    if elements != [] {
      IdsOfTheirKind(elements[1..], writeNull);
      assert elements == [elements[0]] + elements[1..];
    }
  }

  /** An element whose null id is demanded but not written. */
  predicate LacksNull(e: Element, writeNull: bool) {
    Demanded(e) == Some(Null) && Answered(e, writeNull) != Some(Null)
  }

  function NullsLacking(elements: seq<Element>, writeNull: bool): nat {
    if elements == [] then 0
    else (if LacksNull(elements[0], writeNull) then 1 else 0) + NullsLacking(elements[1..], writeNull)
  }

  lemma {:induction false} SomeNullLacking(elements: seq<Element>, e: Element, writeNull: bool)
    requires e in elements && LacksNull(e, writeNull)
    ensures NullsLacking(elements, writeNull) > 0
  {
    if e != elements[0] {
      SomeNullLacking(elements[1..], e, writeNull);
    }
  }

  /** When no id is unreadable, the nulls demanded are those written and those lacking. */
  lemma {:induction false} CountNulls(elements: seq<Element>, writeNull: bool)
    requires forall e :: e in elements && RequestObject(e) ==> ReadId(e.id).Some?
    ensures multiset(DemandedIds(elements))[Null]
         == multiset(AnsweredIds(elements, writeNull))[Null] + NullsLacking(elements, writeNull)
  {
    if elements != [] {
      CountNulls(elements[1..], writeNull);
      NullOfOne(elements[0], writeNull);
      assert elements[0] in elements;
    }
  }

  lemma NullOfOne(e: Element, writeNull: bool)
    requires RequestObject(e) ==> ReadId(e.id).Some?
    ensures Demanded(e) != Some(Null) ==> Answered(e, writeNull) != Some(Null)
  {
  }

  /** The ids of a batch agree exactly when every element is handled: mismatches cannot make up for each other. */
  lemma IdsAgreeOnlyIfHandled(elements: seq<Element>, writeNull: bool)
    ensures multiset(AnsweredIds(elements, writeNull)) == multiset(DemandedIds(elements))
       <==> forall e :: e in elements ==> Handled(e, writeNull)
  {
    hide Handled;
    if forall e :: e in elements ==> Handled(e, writeNull) {
      HandledIdsAgree(elements, writeNull);
    }
    if multiset(AnsweredIds(elements, writeNull)) == multiset(DemandedIds(elements)) {
      forall e | e in elements && RequestObject(e) ensures ReadId(e.id).Some? {
        AllReadable(elements, e, writeNull);
      }
      CountNulls(elements, writeNull);
      forall e | e in elements ensures Handled(e, writeNull) {
        if LacksNull(e, writeNull) {
          SomeNullLacking(elements, e, writeNull);
        }
        UnhandledLacksNull(e, writeNull);
      }
    }
  }

  lemma AllReadable(elements: seq<Element>, e: Element, writeNull: bool)
    requires multiset(AnsweredIds(elements, writeNull)) == multiset(DemandedIds(elements))
    requires e in elements && RequestObject(e)
    ensures ReadId(e.id).Some?
  {
    IdsOfTheirKind(elements, writeNull);
    hide AnsweredIds;
    hide DemandedIds;
    if e.id.OtherNumber? || e.id.Unsigned? {
      assert Demanded(e).value in multiset(DemandedIds(elements));
      assert e.id in multiset(AnsweredIds(elements, writeNull));
    }
  }

  lemma UnhandledLacksNull(e: Element, writeNull: bool)
    requires RequestObject(e) ==> ReadId(e.id).Some?
    ensures Handled(e, writeNull) <==> !LacksNull(e, writeNull)
  {
  }

  /**
   * Which messages are answered as the Specification demands: exactly those whose every element the backend
   * handles that way. It misses null ids, numbers it cannot hold and requests with unstructured parameters;
   * and since empty ids are left out by default, also every element and text that needs a null id.
   */
  lemma AnsweredAsDemanded(size: nat, maxSize: nat, root: Option<Root>, m: Message, writeNull: bool)
    requires m.decoded == Decode(size, maxSize, root) && Valid(m) && Done(m)
    ensures var reply := Encode(Responses(m), m.decoded.batch);
      if size > maxSize then reply == One(ProtocolError(RpcFailure.MessageTooLarge))
      else AsDemanded(root, reply, writeNull) <==> AllHandled(root, writeNull)
  {
    hide Done;
    hide Valid;
    hide WellFormed;
    hide Handled;
    hide Demanded;
    if size > maxSize || root == None || root == Some(Array([])) {
      NothingToRun(m);
    } else if root.value.Array? {
      var elements := root.value.elements;
      ElementsAnswered(m, elements);
      ResponsesDefined(m);
      BatchIds(Responses(m), elements, writeNull);
      IdsAgreeOnlyIfHandled(elements, writeNull);
      SameLength(Responses(m), elements, writeNull);
    } else {
      SingleReply(root.value.element, m, writeNull);
    }
  }

  lemma SameLength(responses: seq<Response>, elements: seq<Element>, writeNull: bool)
    requires multiset(WrittenIds(responses, writeNull)) == multiset(AnsweredIds(elements, writeNull))
    ensures |responses| == |AnsweredIds(elements, writeNull)|
    ensures DemandedIds(elements) == [] ==>
      (multiset(AnsweredIds(elements, writeNull)) == multiset(DemandedIds(elements)) <==> responses == [])
  {
    assert |multiset(WrittenIds(responses, writeNull))| == |responses|;
    assert |multiset(AnsweredIds(elements, writeNull))| == |AnsweredIds(elements, writeNull)|;
  }

  lemma SingleReply(e: Element, m: Message, writeNull: bool)
    requires Valid(m) && Done(m) && !m.decoded.batch
    requires m.decoded.requests == Requests([e]) && m.decoded.responses == Errors([e])
    ensures var reply := Encode(Responses(m), false);
      && (Answered(e, writeNull) == None ==> reply == Nothing)
      && (Answered(e, writeNull).Some? ==> AnswersUnder(reply, Answered(e, writeNull).value, writeNull))
      && (Handled(e, writeNull) <==> Answered(e, writeNull) == Demanded(e))
  {
    ElementsAnswered(m, [e]);
    ResponsesDefined(m);
    HandledMeans(e, writeNull);
    SingleCounts(e);
    hide Valid;
    hide Done;
    hide Calls;
    hide Malformed;
  }

  lemma SingleCounts(e: Element)
    ensures Malformed([e]) == if WellFormed(e) then 0 else 1
    ensures Calls([e]) == if WellFormed(e) && !IdOf(e).NoId? then [e] else []
  {
    assert [e][1..] == [];
  }

  lemma ResponsesDefined(m: Message)
    requires Valid(m)
    ensures |m.slots| == |m.decoded.requests|
  {
  }

  lemma NothingToRun(m: Message)
    requires Valid(m) && m.decoded.requests == []
    ensures Responses(m) == m.decoded.responses
  {
  }

  // ----- where the two part ------------------------------------------------------------------

  function Call(id: JsonId): Element {
    Object(Str("2.0"), Str("m"), NoParams, id)
  }

  ghost predicate Processed(m: Message, e: Element) {
    m.decoded == Decode(0, 0, Some(Single(e))) && Valid(m) && Done(m)
  }

  /** A message of this one element can be processed, and however it is, the reply is not the one demanded. */
  ghost predicate Missed(e: Element, writeNull: bool) {
    && (exists m :: Processed(m, e))
    && (forall m :: Processed(m, e) ==>
          !AsDemanded(Some(Single(e)), Encode(Responses(m), m.decoded.batch), writeNull))
  }

  lemma NotHandledIsMissed(e: Element, writeNull: bool)
    requires !Handled(e, writeNull)
    ensures Missed(e, writeNull)
  {
    var decoded := Decode(0, 0, Some(Single(e)));
    var unknown := seq(|decoded.requests|, _ => NoHandler);
    StartedIsValid(0, decoded, unknown);
    assert Processed(Started(0, decoded, unknown), e);
    forall m | Processed(m, e)
      ensures !AsDemanded(Some(Single(e)), Encode(Responses(m), m.decoded.batch), writeNull)
    {
      AnsweredAsDemanded(0, 0, Some(Single(e)), m, writeNull);
    }
  }

  /** A call with a null id is taken for a notification and gets no answer, whatever nulls are written. */
  lemma NullIdGoesUnanswered(writeNull: bool)
    ensures Missed(Call(Null), writeNull) && Answered(Call(Null), writeNull) == None
  {
    NotHandledIsMissed(Call(Null), writeNull);
  }

  /** A call with a negative or a fractional id is refused instead of answered under it. */
  lemma OtherNumbersAreRefused(writeNull: bool)
    ensures Missed(Call(OtherNumber("-1")), writeNull) && Missed(Call(OtherNumber("1.5")), writeNull)
    ensures !WellFormed(Call(OtherNumber("-1"))) && !WellFormed(Call(OtherNumber("1.5")))
  {
    NotHandledIsMissed(Call(OtherNumber("-1")), writeNull);
    NotHandledIsMissed(Call(OtherNumber("1.5")), writeNull);
  }

  /**
   * Parameters that are neither an object nor an array make an invalid request, but the backend decodes it: it
   * goes to its handler, which may yet refuse the parameters, and is answered under its own id or not at all.
   */
  lemma UnstructuredParamsPass(writeNull: bool)
    ensures var e := Object(Str("2.0"), Str("m"), Unstructured, Unsigned(1));
      Requests([e]) == [RequestOf(e)] && Errors([e]) == [] && Answered(e, writeNull) == Some(Unsigned(1))
    ensures Answered(Object(Str("2.0"), Str("m"), Unstructured, Absent), writeNull) == None
    ensures Missed(Object(Str("2.0"), Str("m"), Unstructured, Unsigned(1)), writeNull)
    ensures Missed(Object(Str("2.0"), Str("m"), Unstructured, Absent), writeNull)
  {
    NotHandledIsMissed(Object(Str("2.0"), Str("m"), Unstructured, Unsigned(1)), writeNull);
    NotHandledIsMissed(Object(Str("2.0"), Str("m"), Unstructured, Absent), writeNull);
  }

  /** By default an invalid request, and text that is no JSON, are answered without the null id demanded. */
  lemma ErrorsOmitTheirId(m: Message)
    requires m.decoded == Decode(0, 0, None) && Valid(m) && Done(m)
    ensures !AsDemanded(None, Encode(Responses(m), m.decoded.batch), false)
    ensures AsDemanded(None, Encode(Responses(m), m.decoded.batch), true)
    ensures Missed(NotObject, false) && !LacksNull(NotObject, true)
  {
    AnsweredAsDemanded(0, 0, None, m, false);
    AnsweredAsDemanded(0, 0, None, m, true);
    NotHandledIsMissed(NotObject, false);
  }
}
