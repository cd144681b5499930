/**
 * The Neko-RPC backend: what a session negotiates with hello frames, how requests name their method,
 * and how a client recovers when the server does not accept a method id.
 */
module NekoBackend {
  import opened Bytes
  import opened Wrappers
  import opened ExtensionCodec
  import opened FrameCodec
  import opened Compression
  import opened MethodEntries
  import opened MethodIdTable

  datatype FeatureMode = Disable | Auto | Require

  datatype Options = Options(
    methodId: FeatureMode, compression: FeatureMode, compressionMinPayloadSize: u32,
    retryMethodIdErrorOnce: bool, maxAutoMethodTableExtensionBytes: u64, maxMethodEntries: u64,
    limits: FrameLimits, maxDecompressedPayloadBytes: u64, maxCompressionRatio: u64)

  /** What one end remembers about its peer. */
  datatype Session = Session(
    handshakeDone: bool, methodIdEnabled: bool, compressionEnabled: bool, algorithm: Algorithm,
    minPayloadSize: u32, remote: Table)

  datatype RpcError =
    | MethodIdNotNegotiated
    | MethodTableOutdated
    | MethodIdNotFound
    | MethodIdRemoved
    | MethodSignatureMismatch
    | Wire(error: WireError)
    | ResponseIdNotMatch
    | InternalError
    | MethodIdRequiredButUnsupported
    | CompressionRequiredButUnsupported
    | WouldBlock
    | Canceled
    | NotificationOk
    | OtherError(code: int)

  const CODEC_ID: u8 := 0
  const MAX_EXTENSION_BYTES := 0xFFFF

  predicate Enabled(mode: FeatureMode) {
    mode != Disable
  }

  predicate IsMethodIdError(error: RpcError) {
    error.MethodIdNotNegotiated? || error.MethodTableOutdated? || error.MethodIdNotFound? || error.MethodIdRemoved?
    || error.MethodSignatureMismatch?
  }

  function NewSession(options: Options): Session {
    Session(false, false, false, NoCompression, options.compressionMinPayloadSize, EmptyTable(options.maxMethodEntries))
  }

  function Coding(session: Session): CompressionSession {
    CompressionSession(session.compressionEnabled, session.algorithm, session.minPayloadSize)
  }

  function CodingOptions(options: Options): CompressionOptions {
    CompressionOptions(options.limits, options.maxDecompressedPayloadBytes, options.maxCompressionRatio)
  }

  // ----- extension values --------------------------------------------------------------------

  function AlgorithmCode(algorithm: Algorithm): u8 {
    match algorithm
    case NoCompression => 0
    case RunLengthCoding => 1
    case Unknown(code) => code
  }

  function AlgorithmOf(code: u8): Algorithm {
    if code == 0 then NoCompression else if code == 1 then RunLengthCoding else Unknown(code)
  }

  function ReadU8(m: ExtensionMap, t: ExtensionType): Option<u8> {
    Radixes();
    ReadIntegerTlv(m, t, 1)
  }

  function ReadU32(m: ExtensionMap, t: ExtensionType): Option<u32> {
    Radixes();
    ReadIntegerTlv(m, t, 4)
  }

  function ReadU64(m: ExtensionMap, t: ExtensionType): Option<u64> {
    Radixes();
    ReadIntegerTlv(m, t, 8)
  }

  lemma ReadBack(m: ExtensionMap, t: ExtensionType)
    ensures forall v: u8 :: t in m && m[t] == BigEndian(1, v) ==> ReadU8(m, t) == Some(v)
    ensures forall v: u32 :: t in m && m[t] == BigEndian(4, v) ==> ReadU32(m, t) == Some(v)
    ensures forall v: u64 :: t in m && m[t] == BigEndian(8, v) ==> ReadU64(m, t) == Some(v)
  {
    Radixes();
    forall v: u8 | t in m && m[t] == BigEndian(1, v) ensures ReadU8(m, t) == Some(v) {
      ReadIntegerTlvAfterWrite(m, t, 1, v);
    }
    forall v: u32 | t in m && m[t] == BigEndian(4, v) ensures ReadU32(m, t) == Some(v) {
      ReadIntegerTlvAfterWrite(m, t, 4, v);
    }
    forall v: u64 | t in m && m[t] == BigEndian(8, v) ensures ReadU64(m, t) == Some(v) {
      ReadIntegerTlvAfterWrite(m, t, 8, v);
    }
  }

  // ----- the table on the wire ---------------------------------------------------------------

  /** The extensions that describe a server's table, with or without its entries. */
  function TableExtensions(t: Table, includeTable: bool): ExtensionMap {
    var hint := map[METHOD_ID := [],
                    METHOD_TABLE_VERSION := BigEndian(8, t.version),
                    METHOD_MINIMUM_COMPATIBLE_VERSION := BigEndian(8, t.minVersion)];
    if includeTable then hint[METHOD_TABLE := MethodEntries.Encode(t.entries)] else hint
  }

  predicate FitsBudget(options: Options, m: ExtensionMap) {
    Fits(m) && |EncodeTlvs(m)| <= MAX_EXTENSION_BYTES && |EncodeTlvs(m)| <= options.maxAutoMethodTableExtensionBytes
  }

  /** The most a server says about its table within its budget. */
  function BudgetedTable(options: Options, t: Table): ExtensionMap {
    if FitsBudget(options, TableExtensions(t, true)) then TableExtensions(t, true)
    else if FitsBudget(options, TableExtensions(t, false)) then TableExtensions(t, false)
    else map[]
  }

  /** Extensions that ride on an error response to help the client recover. */
  function ErrorExtensions(options: Options, session: Session, t: Table, error: RpcError): ExtensionMap {
    if !session.methodIdEnabled || !IsMethodIdError(error) || t.entries == []
       || options.maxAutoMethodTableExtensionBytes == 0
    then map[]
    else BudgetedTable(options, t)
  }

  /** A receiver's session after table extensions, or nothing when they change nothing. */
  ghost function WithTableExtensions(session: Session, m: ExtensionMap): Option<Session> {
    var version := ReadU64(m, METHOD_TABLE_VERSION);
    if (METHOD_TABLE !in m && METHOD_TABLE_DELTA !in m) || version == None then
      None
    else
      var whole := if METHOD_TABLE in m then MethodEntries.Parse(m[METHOD_TABLE]) else None;
      var delta := if METHOD_TABLE_DELTA in m then MethodEntries.Parse(m[METHOD_TABLE_DELTA]) else None;
      var max := session.remote.maxEntries;
      var applied :=
        if whole.Some? then
          if Acceptable(whole.value, version.value, max) then Some(Whole(whole.value, version.value, max)) else None
        else if delta.Some? then WithDelta(session.remote, delta.value, version.value)
        else None;
      if applied == None then
        None
      else
        var minimum := ReadU64(m, METHOD_MINIMUM_COMPATIBLE_VERSION);
        var remote := if minimum.Some? then WithMinimum(applied.value, minimum.value) else applied.value;
        Some(session.(remote := remote, methodIdEnabled := true))
  }

  // ----- hello -------------------------------------------------------------------------------

  /** What a client offers: nothing at all means no hello is sent. */
  function ClientHello(options: Options): ExtensionMap {
    var base: ExtensionMap := if Enabled(options.methodId) then map[METHOD_ID := []] else map[];
    if Enabled(options.compression) then
      base + map[COMPRESSION := [],
                 COMPRESSION_ALGORITHM := BigEndian(1, AlgorithmCode(RunLengthCoding)),
                 COMPRESSION_MIN_PAYLOAD_SIZE := BigEndian(4, options.compressionMinPayloadSize)]
    else base
  }

  predicate Supports(algorithm: Algorithm) {
    algorithm == RunLengthCoding
  }

  function OfferedAlgorithm(m: ExtensionMap): Algorithm {
    var code := ReadU8(m, COMPRESSION_ALGORITHM);
    if code.Some? then AlgorithmOf(code.value) else NoCompression
  }

  function ServerAccepts(options: Options, t: Table, session: Session, m: ExtensionMap): Session {
    var compress := Enabled(options.compression) && COMPRESSION in m && Supports(OfferedAlgorithm(m));
    var offeredMin := ReadU32(m, COMPRESSION_MIN_PAYLOAD_SIZE);
    session.(
      handshakeDone := true,
      methodIdEnabled := Enabled(options.methodId) && METHOD_ID in m && t.entries != [],
      compressionEnabled := compress,
      algorithm := if compress then OfferedAlgorithm(m) else NoCompression,
      minPayloadSize := if compress && offeredMin.Some? && offeredMin.value > session.minPayloadSize
                        then offeredMin.value else session.minPayloadSize)
  }

  function ServerHello(options: Options, t: Table, session: Session): ExtensionMap {
    var base := if session.methodIdEnabled then BudgetedTable(options, t) else map[];
    if session.compressionEnabled then
      base + map[COMPRESSION := [],
                 COMPRESSION_ALGORITHM := BigEndian(1, AlgorithmCode(session.algorithm)),
                 COMPRESSION_MIN_PAYLOAD_SIZE := BigEndian(4, session.minPayloadSize)]
    else base
  }

  ghost function ClientMethodIds(session: Session, m: ExtensionMap): Session {
    if METHOD_ID !in m then
      session.(methodIdEnabled := false)
    else
      var updated := WithTableExtensions(session.(methodIdEnabled := false), m);
      if updated.Some? then updated.value
      else session.(methodIdEnabled := session.remote.entries != [])
  }

  /** The client's session after a server hello, and whether the hello was acceptable. */
  ghost function ClientAccepts(session: Session, m: ExtensionMap): (Session, bool) {
    var s := ClientMethodIds(session, m);
    if COMPRESSION !in m then
      (s.(handshakeDone := true, compressionEnabled := false, algorithm := NoCompression), true)
    else
      var algorithm := OfferedAlgorithm(m);
      if !Supports(algorithm) then
        (s.(compressionEnabled := true, algorithm := algorithm), false)
      else
        var min := ReadU32(m, COMPRESSION_MIN_PAYLOAD_SIZE);
        (s.(handshakeDone := true, compressionEnabled := true, algorithm := algorithm,
            minPayloadSize := if min.Some? then min.value else s.minPayloadSize), true)
  }

  // ----- requests ----------------------------------------------------------------------------

  /** The frame of one call: by id when the negotiated table has the method, else by name. */
  function RequestFrame(session: Session, name: Name, id: u64, notification: bool, payload: bytes): FrameParts
    requires Sound(session.remote)
  {
    var kind := if notification then NOTIFY else REQUEST;
    var entry := if session.methodIdEnabled then Lookup(session.remote, name) else None;
    if entry.Some? then
      FrameParts(NewHeader(kind, Bit(MethodId), CODEC_ID, id), BigEndian(8, entry.value.id),
                 map[METHOD_TABLE_VERSION := BigEndian(8, session.remote.version),
                     METHOD_SIGNATURE_HASH := BigEndian(8, entry.value.signatureHash)], payload)
    else
      FrameParts(NewHeader(kind, 0, CODEC_ID, id), name, map[], payload)
  }

  function ResolveError(status: ResolveStatus): RpcError
    requires status != Accepted
  {
    match status
    case TableOutdated => MethodTableOutdated
    case MethodNotFound => MethodIdNotFound
    case MethodRemoved => MethodIdRemoved
    case SignatureMismatch => MethodSignatureMismatch
  }

  /** The method a request frame asks a server for. */
  function IncomingMethodName(t: Table, session: Session, f: FrameParts): Result<Name, RpcError> {
    if !HasFlag(f.header.flags, MethodId) then
      Ok(f.methodBytes)
    else if !session.methodIdEnabled || |f.methodBytes| != 8 then
      Err(MethodIdNotNegotiated)
    else
      var version := ReadU64(f.extensions, METHOD_TABLE_VERSION);
      if version == None then
        Err(MethodTableOutdated)
      else
        var hash := ReadU64(f.extensions, METHOD_SIGNATURE_HASH);
        WriteAfterRead(f.methodBytes);
        Radixes();
        var r := Resolved(t, FromBigEndian(f.methodBytes), version.value, if hash.Some? then hash.value else 0, true);
        if r.status == Accepted then Ok(r.entry.value.name) else Err(ResolveError(r.status))
  }

  // ----- responses ---------------------------------------------------------------------------

  /** Why a frame is not of the size its header promises, or is over the limits. */
  function FrameError(frame: bytes, limits: FrameLimits): RpcError {
    if |frame| < HEADER_SIZE then Wire(InvalidRequest)
    else
      var size := HeaderBodySize(frame[..HEADER_SIZE], CODEC_ID, limits);
      Wire(if size.Err? then size.error else InvalidRequest)
  }

  /** What a response frame is to a call: unusable, its result, or the error the server reported. */
  datatype Answer = Unusable(error: RpcError) | Success(payload: bytes) | Reported(error: RpcError)

  /** The payload's own decoding belongs to the serializer, so what error it spells is a parameter. */
  function ReadResponse(options: Options, session: Session, frame: bytes, expectedId: u64,
                        readError: bytes -> Option<RpcError>): Answer {
    var f := FrameCodec.Parse(frame);
    if !ValidFrame(frame, CODEC_ID, options.limits) then Unusable(FrameError(frame, options.limits))
    else if f == None then Unusable(Wire(InvalidRequest))
    else
      var payload := IncomingPayload(CodingOptions(options), Coding(session), f.value);
      if payload.Err? then Unusable(Wire(payload.error))
      else if f.value.header.kind != RESPONSE then Unusable(Wire(InvalidRequest))
      else if f.value.header.id != expectedId then Unusable(ResponseIdNotMatch)
      else if !HasFlag(f.value.header.flags, Error) then Success(payload.value)
      else
        var error := readError(payload.value);
        if error == None then Unusable(InternalError) else Reported(error.value)
  }

  /** The frame of an error response; how the error is spelled belongs to the serializer. */
  function ErrorFrame(e: ErrorResponse, spelled: bytes): FrameParts {
    FrameParts(NewHeader(RESPONSE, Bit(Error), CODEC_ID, e.id), [], e.extensions, spelled)
  }

  /** The frame of a result; how the value is spelled belongs to the serializer. */
  function ResultFrame(id: u64, value: bytes): FrameParts {
    FrameParts(NewHeader(RESPONSE, 0, CODEC_ID, id), [], map[], value)
  }

  /** A response as it goes out: the way the session wants it, else plain, else not at all. */
  function EncodeResponse(options: Options, session: Session, f: FrameParts): bytes {
    var encoded := EncodeOutgoing(CodingOptions(options), Coding(session), f);
    if encoded.Ok? then encoded.value
    else if ValidFrame(FrameCodec.Encode(f), CODEC_ID, options.limits) then FrameCodec.Encode(f)
    else []
  }

  // ----- recovery ----------------------------------------------------------------------------

  /** The client's session once an error response has been decoded. */
  ghost function AfterError(session: Session, error: RpcError, m: ExtensionMap): Session {
    if !IsMethodIdError(error) then
      session
    else
      var updated := WithTableExtensions(session, m);
      if updated.Some? then updated.value
      else session.(methodIdEnabled := false, remote := EmptyTable(session.remote.maxEntries))
  }

  /** Whether a failed call is tried again, and with which session. */
  function Recover(options: Options, session: Session, error: RpcError, retries: nat): (Session, bool) {
    if !options.retryMethodIdErrorOnce || retries != 0 || !Enabled(options.methodId) || !IsMethodIdError(error) then
      (session, false)
    else if !session.methodIdEnabled || session.remote.entries == [] then
      if options.methodId == Require then (session, false)
      else (session.(methodIdEnabled := false, handshakeDone := true), true)
    else
      (session, true)
  }

  /** The session once the frame of a reported error has been decoded. */
  ghost function RefusedSession(session: Session, error: RpcError, frame: bytes): Session {
    var f := FrameCodec.Parse(frame);
    if f.Some? then AfterError(session, error, f.value.extensions) else session
  }

  // ----- decoding at the server --------------------------------------------------------------

  datatype DecodedRequest = DecodedRequest(kind: u8, id: u64, name: Name, payload: bytes)

  datatype ErrorResponse = ErrorResponse(id: u64, error: RpcError, extensions: ExtensionMap)

  /** What one incoming frame amounts to. */
  datatype Incoming =
    | Rejected
    | Control
    | Failed(responses: seq<ErrorResponse>)
    | Delivered(request: DecodedRequest)

  /** A refused request is answered; a refused notification is not. */
  function Refusal(f: FrameParts, error: RpcError, m: ExtensionMap): Incoming {
    Failed(if f.header.kind == REQUEST then [ErrorResponse(f.header.id, error, m)] else [])
  }

  function DecodeIncoming(options: Options, t: Table, session: Session, message: bytes): Incoming {
    var parsed := FrameCodec.Parse(message);
    if !ValidFrame(message, CODEC_ID, options.limits) || parsed == None then
      Rejected
    else
      DecodeFrame(options, t, session, parsed.value)
  }

  function DecodeFrame(options: Options, t: Table, session: Session, f: FrameParts): Incoming {
    var payload := IncomingPayload(CodingOptions(options), Coding(session), f);
    if payload.Err? then Refusal(f, Wire(payload.error), map[])
    else if f.header.kind == CANCEL || f.header.kind == HELLO then Control
    else if f.header.kind != REQUEST && f.header.kind != NOTIFY then Rejected
    else if HasFlag(f.header.flags, Error) then Rejected
    else
      var name := IncomingMethodName(t, session, f);
      if name.Err? then Refusal(f, name.error, ErrorExtensions(options, session, t, name.error))
      else if name.value == [] then Rejected
      else Delivered(DecodedRequest(f.header.kind, f.header.id, name.value, payload.value))
  }

  /** Request ids start at 1 and, past the last one, start again at 1. */
  function NextId(id: u64): u64 {
    if id == SIZE_MAX then 1 else id + 1
  }

  function EncodeRequest(options: Options, session: Session, name: Name, id: u64, notification: bool, payload: bytes)
    : Result<bytes, WireError>
    requires Sound(session.remote)
  {
    EncodeOutgoing(CodingOptions(options), Coding(session), RequestFrame(session, name, id, notification, payload))
  }

  /** Frames depend on their flags, method and extensions only as far as naming the method goes. */
  lemma SameName(t: Table, session: Session, f: FrameParts, g: FrameParts)
    requires f.methodBytes == g.methodBytes && f.extensions == g.extensions
    requires HasFlag(f.header.flags, MethodId) == HasFlag(g.header.flags, MethodId)
    ensures IncomingMethodName(t, session, f) == IncomingMethodName(t, session, g)
  {
  }

  /**
   * A request that a client encodes and a server's limits admit reaches the server's decoder as the same
   * call if and only if the server can restore its payload: the name the method id or name bytes stand for,
   * the payload before compression, the same id; or it is refused for what its name lacks.
   */
  lemma RequestArrives(
    clientOptions: Options, client: Session, serverOptions: Options, t: Table, peer: Session,
    name: Name, id: u64, notification: bool, payload: bytes)
    requires Sound(client.remote)
    requires client.compressionEnabled ==>
      peer.compressionEnabled && client.algorithm == peer.algorithm == RunLengthCoding
    ensures var encoded := EncodeRequest(clientOptions, client, name, id, notification, payload);
      var f := RequestFrame(client, name, id, notification, payload);
      encoded.Ok? && ValidFrame(encoded.value, CODEC_ID, serverOptions.limits) ==>
      var got := IncomingMethodName(t, peer, f);
      var arrived := DecodeIncoming(serverOptions, t, peer, encoded.value);
      && (Restores(Coding(client), CodingOptions(serverOptions), f) ==>
            arrived
            == if got.Err? then
                 Failed(if notification then [] else
                          [ErrorResponse(id, got.error, ErrorExtensions(serverOptions, peer, t, got.error))])
               else if got.value == [] then Rejected
               else Delivered(DecodedRequest(if notification then NOTIFY else REQUEST, id, got.value, payload)))
      && (arrived.Delivered? ==>
            got == Ok(arrived.request.name) && arrived.request.id == id
            && (arrived.request.payload == payload <==> Restores(Coding(client), CodingOptions(serverOptions), f)))
  {
    hide IncomingMethodName;
    hide EncodeOutgoing;
    hide IncomingPayload;
    hide FrameCodec.Parse;
    hide Restores;
    hide ValidFrame;
    hide ErrorExtensions;
    var f := RequestFrame(client, name, id, notification, payload);
    RequestShape(client, name, id, notification, payload);
    var encoded := EncodeRequest(clientOptions, client, name, id, notification, payload);
    if encoded.Ok? {
      OutgoingParses(CodingOptions(clientOptions), Coding(client), f);
      DeliversPayload(CodingOptions(clientOptions), Coding(client), CodingOptions(serverOptions), Coding(peer), f);
      SameName(t, peer, f, FrameCodec.Parse(encoded.value).value);
    }
  }

  /**
   * An error response that a server sends and a client's limits admit is read as that error, with the
   * extensions that ride on it, if the client can restore how it is spelled.
   */
  lemma ErrorArrives(
    serverOptions: Options, peer: Session, clientOptions: Options, client: Session, e: ErrorResponse,
    spelled: bytes, readError: bytes -> Option<RpcError>)
    requires Supported(e.extensions) && readError(spelled) == Some(e.error)
    requires peer.compressionEnabled ==>
      client.compressionEnabled && peer.algorithm == client.algorithm == RunLengthCoding
    requires Restores(Coding(peer), CodingOptions(clientOptions), ErrorFrame(e, spelled))
    requires ValidFrame(EncodeResponse(serverOptions, peer, ErrorFrame(e, spelled)), CODEC_ID, clientOptions.limits)
    ensures var frame := EncodeResponse(serverOptions, peer, ErrorFrame(e, spelled));
      && ReadResponse(clientOptions, client, frame, e.id, readError) == Reported(e.error)
      && FrameCodec.Parse(frame).Some? && FrameCodec.Parse(frame).value.extensions == e.extensions
  {
    hide EncodeOutgoing;
    hide FrameCodec.Encode;
    hide Restores;
    hide ValidFrame;
    var f := ErrorFrame(e, spelled);
    if EncodeOutgoing(CodingOptions(serverOptions), Coding(peer), f).Ok? {
      CodedArrives(serverOptions, peer, clientOptions, client, f);
    } else {
      EmptyIsNotValid(clientOptions.limits);
      PlainArrives(serverOptions, clientOptions, client, f);
    }
    FlagsOfError();
    hide Carries;
    ReadsAsError(clientOptions, client, EncodeResponse(serverOptions, peer, f), e, spelled, readError);
  }

  /** Whether the response reaches the client with its payload: it went out plain, or the client can restore it. */
  predicate Readable(serverOptions: Options, peer: Session, clientOptions: Options, f: FrameParts) {
    EncodeOutgoing(CodingOptions(serverOptions), Coding(peer), f).Ok? ==>
      Restores(Coding(peer), CodingOptions(clientOptions), f)
  }

  /**
   * A result that a server sends and a client's limits admit is read as that result if and only if it went out
   * plain or the client can restore it.
   */
  lemma ResultArrives(
    serverOptions: Options, peer: Session, clientOptions: Options, client: Session, id: u64, value: bytes,
    readError: bytes -> Option<RpcError>)
    requires peer.compressionEnabled ==>
      client.compressionEnabled && peer.algorithm == client.algorithm == RunLengthCoding
    requires ValidFrame(EncodeResponse(serverOptions, peer, ResultFrame(id, value)), CODEC_ID, clientOptions.limits)
    ensures var frame := EncodeResponse(serverOptions, peer, ResultFrame(id, value));
      ReadResponse(clientOptions, client, frame, id, readError) == Success(value)
      <==> Readable(serverOptions, peer, clientOptions, ResultFrame(id, value))
  {
    hide FrameCodec.Encode;
    hide FrameCodec.Parse;
    hide EncodeOutgoing;
    hide IncomingPayload;
    hide Restores;
    hide ValidFrame;
    var f := ResultFrame(id, value);
    NoFlags();
    hide HasFlag;
    if EncodeOutgoing(CodingOptions(serverOptions), Coding(peer), f).Ok? {
      OutgoingParses(CodingOptions(serverOptions), Coding(peer), f);
      DeliversPayload(CodingOptions(serverOptions), Coding(peer), CodingOptions(clientOptions), Coding(client), f);
    } else {
      EmptyIsNotValid(clientOptions.limits);
      PlainArrives(serverOptions, clientOptions, client, f);
    }
  }


  lemma FlagsOfError()
    ensures HasFlag(Bit(Error), Error) && !HasFlag(Bit(Error), Compressed)
  {
  }

  /** The frame parses to what f says and its payload is restored. */
  predicate Carries(frame: bytes, options: Options, session: Session, f: FrameParts) {
    var g := FrameCodec.Parse(frame);
    && g.Some? && g.value.extensions == f.extensions
    && g.value.header.kind == f.header.kind && g.value.header.id == f.header.id
    && (HasFlag(g.value.header.flags, Error) <==> HasFlag(f.header.flags, Error))
    && IncomingPayload(CodingOptions(options), Coding(session), g.value) == Ok(f.payload)
  }

  lemma CodedArrives(serverOptions: Options, peer: Session, clientOptions: Options, client: Session, f: FrameParts)
    requires !HasFlag(f.header.flags, Compressed) && Supported(f.extensions)
    requires peer.compressionEnabled ==>
      client.compressionEnabled && peer.algorithm == client.algorithm == RunLengthCoding
    requires Restores(Coding(peer), CodingOptions(clientOptions), f)
    requires EncodeOutgoing(CodingOptions(serverOptions), Coding(peer), f).Ok?
    ensures Carries(EncodeOutgoing(CodingOptions(serverOptions), Coding(peer), f).value, clientOptions, client, f)
  {
    hide EncodeOutgoing;
    hide FrameCodec.Parse;
    hide Restores;
    hide IncomingPayload;
    OutgoingParses(CodingOptions(serverOptions), Coding(peer), f);
    DeliversPayload(CodingOptions(serverOptions), Coding(peer), CodingOptions(clientOptions), Coding(client), f);
  }

  lemma PlainArrives(serverOptions: Options, clientOptions: Options, client: Session, f: FrameParts)
    requires !HasFlag(f.header.flags, Compressed) && Supported(f.extensions)
    requires ValidFrame(FrameCodec.Encode(f), CODEC_ID, serverOptions.limits)
    ensures Carries(FrameCodec.Encode(f), clientOptions, client, f)
  {
    hide Encodable;
    hide FrameCodec.Parse;
    hide FrameCodec.Encode;
    hide ValidFrame;
    hide Normalized;
    EncodedFrameIsValid(f, CODEC_ID, serverOptions.limits);
    FrameCodec.ParseEncoded(f);
    NormalizedKeeps(f);
  }

  lemma ReadsAsError(options: Options, session: Session, frame: bytes, e: ErrorResponse, spelled: bytes,
                     readError: bytes -> Option<RpcError>)
    requires Carries(frame, options, session, ErrorFrame(e, spelled)) && ValidFrame(frame, CODEC_ID, options.limits)
    requires readError(spelled) == Some(e.error)
    ensures ReadResponse(options, session, frame, e.id, readError) == Reported(e.error)
    ensures FrameCodec.Parse(frame).Some? && FrameCodec.Parse(frame).value.extensions == e.extensions
  {
    hide FrameCodec.Parse;
    hide ValidFrame;
    hide IncomingPayload;
    FlagsOfError();
  }

  lemma EmptyIsNotValid(limits: FrameLimits)
    ensures !ValidFrame([], CODEC_ID, limits)
  {
  }

  lemma NormalizedKeeps(f: FrameParts)
    requires Encodable(f)
    ensures var h := Normalized(f);
      && h.kind == f.header.kind && h.id == f.header.id
      && forall flag :: flag != HasExtensions ==> HasFlag(h.flags, flag) == HasFlag(f.header.flags, flag)
  {
    FlagUpdates(f.header.flags, HasExtensions, |EncodeTlvs(f.extensions)| > 0);
  }

  /**
   * What a request by id is answered, whoever sent it: an id that was not agreed on or is not 8 bytes, no version or
   * one the table does not cover, no entry, a removed one and another signature are told apart, in that order.
   */
  lemma RefusalsExactly(t: Table, session: Session, f: FrameParts)
    requires Sound(t) && HasFlag(f.header.flags, MethodId)
    ensures var got, id := IncomingMethodName(t, session, f), FromBigEndian(f.methodBytes);
      var version, hash := ReadU64(f.extensions, METHOD_TABLE_VERSION), ReadU64(f.extensions, METHOD_SIGNATURE_HASH);
      if !session.methodIdEnabled || |f.methodBytes| != 8 then got == Err(MethodIdNotNegotiated)
      else if version == None || version == Some(0) || version.value < t.minVersion || version.value > t.version then
        got == Err(MethodTableOutdated)
      else if id >= |t.entries| || t.entries[id].name == [] then got == Err(MethodIdNotFound)
      else if t.entries[id].state != Active then got == Err(MethodIdRemoved)
      else if t.entries[id].signatureHash != (if hash.Some? then hash.value else 0) then
        got == Err(MethodSignatureMismatch)
      else got == Ok(t.entries[id].name)
  {
    hide Sound;
    hide ReadU64;
    hide HasFlag;
    if |f.methodBytes| == 8 {
      WriteAfterRead(f.methodBytes);
      Radixes();
      hide FromBigEndian;
    }
  }

  /** A frame refused for its size says so if its header is sound and promises too much, and is invalid otherwise. */
  lemma FrameErrorsSayWhy(h: Header, rest: bytes, limits: FrameLimits)
    ensures var tooLarge := h.methodSize > limits.maxMethodBytes || h.extensionSize > limits.maxExtensionBytes
                            || h.payloadSize > limits.maxPayloadBytes
                            || 24 + h.methodSize + h.extensionSize + h.payloadSize > limits.maxFrameBytes;
      FrameError(HeaderBytes(h) + rest, limits)
      == if h.magic == 0x4E52 && h.version == 1 && 1 <= h.kind <= 5 && h.codec == 0 && tooLarge
         then Wire(MessageTooLarge) else Wire(InvalidRequest)
  {
    hide HeaderBytes;
    hide HeaderBodySize;
    assert (HeaderBytes(h) + rest)[..HEADER_SIZE] == HeaderBytes(h);
    HeaderVerdict(h, CODEC_ID, limits);
  }

  /** A response is only used by the call with its id, if it is whole, a response, restored and, as an error, read. */
  lemma ResponsesAreChecked(options: Options, session: Session, frame: bytes, expectedId: u64,
                            readError: bytes -> Option<RpcError>)
    ensures var answer := ReadResponse(options, session, frame, expectedId, readError);
      !answer.Unusable? ==>
        && ValidFrame(frame, CODEC_ID, options.limits) && FrameCodec.Parse(frame).Some?
        && var f := FrameCodec.Parse(frame).value;
           var payload := IncomingPayload(CodingOptions(options), Coding(session), f);
           && f.header.kind == 2 && f.header.id == expectedId && payload.Ok?
           && if HasFlag(f.header.flags, Error) then
                answer.Reported? && readError(payload.value) == Some(answer.error)
              else
                answer == Success(payload.value)
  {
    hide ValidFrame;
    hide FrameCodec.Parse;
    hide IncomingPayload;
    hide HasFlag;
  }

  /**
   * What a server makes of a plain frame it admits, by kind: requests, 1, and notifications, 3, not marked as errors
   * are delivered or refused, responses, 2, are thrown away, and cancellations, 4, and hellos, 5, are for control.
   */
  lemma KindsAtTheServer(options: Options, t: Table, session: Session, f: FrameParts)
    requires !HasFlag(f.header.flags, Compressed) && Supported(f.extensions)
    requires ValidFrame(FrameCodec.Encode(f), CODEC_ID, options.limits)
    ensures var got := DecodeIncoming(options, t, session, FrameCodec.Encode(f));
      var name := IncomingMethodName(t, session, f);
      && 1 <= f.header.kind <= 5
      && (f.header.kind == 2 ==> got == Rejected)
      && (f.header.kind == 4 || f.header.kind == 5 ==> got == Control)
      && (f.header.kind == 1 || f.header.kind == 3 ==>
            if HasFlag(f.header.flags, Error) || name == Ok([]) then got == Rejected
            else if name.Ok? then got == Delivered(DecodedRequest(f.header.kind, f.header.id, name.value, f.payload))
            else
              var answer := ErrorResponse(f.header.id, name.error, ErrorExtensions(options, session, t, name.error));
              got == Failed(if f.header.kind == 1 then [answer] else []))
  {
    hide FrameCodec.Parse;
    hide FrameCodec.Encode;
    hide Encodable;
    hide Normalized;
    hide ValidFrame;
    hide IncomingMethodName;
    hide ErrorExtensions;
    EncodedFrameIsValid(f, CODEC_ID, options.limits);
    FrameCodec.ParseEncoded(f);
    NormalizedKeeps(f);
    SameName(t, session, f, FrameCodec.Parse(FrameCodec.Encode(f)).value);
  }

  /** What was compressed without having been agreed on is neither delivered nor taken for a result. */
  lemma CompressedUnasked(options: Options, t: Table, session: Session, message: bytes, id: u64,
                          readError: bytes -> Option<RpcError>)
    requires !session.compressionEnabled && FrameCodec.Parse(message).Some?
    requires HasFlag(FrameCodec.Parse(message).value.header.flags, Compressed)
    ensures !DecodeIncoming(options, t, session, message).Delivered?
    ensures ReadResponse(options, session, message, id, readError).Unusable?
  {
    hide FrameCodec.Parse;
    hide ValidFrame;
    hide IncomingMethodName;
    hide HasFlag;
  }

  /** A refusal has the id of its request and, of a method id, says what the server's budget allows about its table. */
  lemma RefusalSays(options: Options, t: Table, session: Session, message: bytes, e: ErrorResponse)
    requires DecodeIncoming(options, t, session, message) == Failed([e])
    ensures IsMethodIdError(e.error) ==> e.extensions == ErrorExtensions(options, session, t, e.error)
    ensures Supported(e.extensions)
    ensures FrameCodec.Parse(message).Some? && FrameCodec.Parse(message).value.header.id == e.id
  {
    hide FrameCodec.Parse;
    hide ValidFrame;
    hide IncomingPayload;
    hide IncomingMethodName;
    hide FitsBudget;
    hide MethodEntries.Encode;
  }

  lemma RequestShape(session: Session, name: Name, id: u64, notification: bool, payload: bytes)
    requires Sound(session.remote)
    ensures var f := RequestFrame(session, name, id, notification, payload);
      && !HasFlag(f.header.flags, Compressed) && !HasFlag(f.header.flags, Error) && Supported(f.extensions)
      && f.payload == payload && f.header.id == id && f.header.codec == CODEC_ID
      && f.header.kind == if notification then NOTIFY else REQUEST
  {
  }
}
