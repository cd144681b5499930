/** What hello frames leave the two ends agreeing on, and why one retry is enough. */
module Negotiation {
  import opened Bytes
  import opened Wrappers
  import opened ExtensionCodec
  import opened FrameCodec
  import opened Compression
  import opened MethodEntries
  import opened MethodIdTable
  import opened MethodTableEvolution
  import opened NekoBackend
  import opened MethodIdProtocol

  // ----- a table that arrives ----------------------------------------------------------------

  lemma {:induction false} EntriesTakeSpace(entries: seq<Entry>)
    ensures |EntriesBytes(entries)| >= 19 * |entries|
  {
    if entries != [] {
      EntriesTakeSpace(entries[1..]);
    }
  }

  /** A table small enough for an extension is parsed back, less the entries with overlong names. */
  lemma TableOverWire(entries: seq<Entry>)
    requires |MethodEntries.Encode(entries)| <= MAX_EXTENSION_BYTES
    ensures MethodEntries.Parse(MethodEntries.Encode(entries)) == Some(Kept(entries))
  {
    EntriesTakeSpace(Kept(entries));
    MethodEntries.ParseEncoded(entries);
  }

  /** If dropping overlong names leaves ids in sequence, only a tail was dropped. */
  lemma KeptIsAPrefix(entries: seq<Entry>)
    requires Numbered(entries) && Numbered(Kept(entries))
    ensures Kept(entries) == entries[..|Kept(entries)|]
  {
    KeptMembers(entries);
    forall i | 0 <= i < |Kept(entries)| ensures Kept(entries)[i] == entries[i] {
      assert Kept(entries)[i] in Kept(entries);
    }
  }

  /** m says about t what a server that includes its table says. */
  predicate Describes(m: ExtensionMap, t: Table) {
    && METHOD_TABLE_VERSION in m && m[METHOD_TABLE_VERSION] == BigEndian(8, t.version)
    && METHOD_MINIMUM_COMPATIBLE_VERSION in m && m[METHOD_MINIMUM_COMPATIBLE_VERSION] == BigEndian(8, t.minVersion)
    && METHOD_TABLE in m && m[METHOD_TABLE] == MethodEntries.Encode(t.entries)
    && |m[METHOD_TABLE]| <= MAX_EXTENSION_BYTES
  }

  /** The copy a receiver makes of the table it is sent. */
  function CopyOf(t: Table, max: u64): Table
    requires |Kept(t.entries)| <= max
  {
    WithMinimum(Whole(Kept(t.entries), t.version, max), t.minVersion)
  }

  lemma TableApplied(session: Session, m: ExtensionMap, t: Table)
    requires Describes(m, t)
    ensures var max := session.remote.maxEntries;
      WithTableExtensions(session, m)
      == if Acceptable(Kept(t.entries), t.version, max)
         then Some(session.(remote := CopyOf(t, max), methodIdEnabled := true)) else None
  {
    hide MethodEntries.Parse;
    hide MethodEntries.Encode;
    hide Whole;
    hide Acceptable;
    TableOverWire(t.entries);
    ReadBack(m, METHOD_TABLE_VERSION);
    ReadBack(m, METHOD_MINIMUM_COMPATIBLE_VERSION);
    if Acceptable(Kept(t.entries), t.version, session.remote.maxEntries) {
      AcceptableFits(Kept(t.entries), t.version, session.remote.maxEntries);
    }
  }

  lemma AcceptableFits(entries: seq<Entry>, version: u64, max: u64)
    requires Acceptable(entries, version, max)
    ensures |entries| <= max && Numbered(entries)
  {
  }

  /** An accepted copy is a prefix of the table, with its version. */
  lemma CopyIsAPrefix(t: Table, max: u64)
    requires Sound(t) && Acceptable(Kept(t.entries), t.version, max)
    ensures var copy := CopyOf(t, max);
      && Sound(copy)
      && copy.entries == t.entries[..|copy.entries|]
      && (copy.entries != [] ==> copy.version == t.version)
  {
    hide NameIndex;
    hide Kept;
    var kept := Kept(t.entries);
    AcceptableFits(kept, t.version, max);
    SoundIsAcceptable(t);
    KeptIsAPrefix(t.entries);
    HashedSame(kept);
    WholeIsSound(kept, t.version, max);
    MinimumKeepsSound(Whole(kept, t.version, max), t.minVersion);
  }

  lemma HashedSame(entries: seq<Entry>)
    requires HashesGiven(entries)
    ensures HashedAll(entries) == entries
  {
  }

  lemma MinimumKeepsSound(t: Table, version: u64)
    requires Sound(t)
    ensures Sound(WithMinimum(t, version))
  {
  }

  /** With names short enough for the wire, the copy is the table. */
  lemma CopyIsTheTable(t: Table, max: u64)
    requires Sound(t) && t.entries != [] && |t.entries| <= max
    requires forall e :: e in t.entries ==> |e.name| <= MAX_NAME
    ensures Acceptable(Kept(t.entries), t.version, max)
    ensures CopyOf(t, max) == t.(maxEntries := max)
  {
    hide NameIndex;
    hide Kept;
    hide HashedAll;
    KeptAll(t.entries);
    SoundIsAcceptable(t);
    IndexIsUnique(t.entries, t.nameToId);
    HashedSame(t.entries);
  }

  // ----- recovery ----------------------------------------------------------------------------

  /** A request made from a fresh copy is resolved, whether it goes by id or by name. */
  lemma FreshCopyResolves(session: Session, t: Table, peer: Session, name: Name, id: u64, notification: bool,
                          payload: bytes)
    requires Sound(t) && Sound(session.remote)
    requires session.methodIdEnabled ==>
      && session.remote.entries != []
      && |session.remote.entries| <= |t.entries|
      && session.remote.entries == t.entries[..|session.remote.entries|]
      && session.remote.version == t.version && peer.methodIdEnabled
    ensures IncomingMethodName(t, peer, RequestFrame(session, name, id, notification, payload)) == Ok(name)
  {
    hide Sound;
    var f := RequestFrame(session, name, id, notification, payload);
    var entry := if session.methodIdEnabled then Lookup(session.remote, name) else None;
    FlagUpdates(0, MethodId, true);
    if entry.Some? {
      var e := entry.value;
      LookupMeans(session.remote, name);
      VersionsInOrder(t);
      ReadBack(f.extensions, METHOD_TABLE_VERSION);
      ReadBack(f.extensions, METHOD_SIGNATURE_HASH);
      assert HonestId(e.id, t.version, name, f, t);
      HonestAnswer(e.id, t.version, name, f, t, peer);
    }
  }

  lemma LookupMeans(t: Table, name: Name)
    requires Sound(t) && Lookup(t, name).Some?
    ensures var e := Lookup(t, name).value;
      && e.id < |t.entries| && t.entries[e.id] == e && e.name == name && Live(e) && t.version > 0
  {
  }

  lemma VersionsInOrder(t: Table)
    requires Sound(t)
    ensures t.minVersion <= t.version
  {
  }

  lemma BudgetedShape(options: Options, t: Table)
    ensures var m := BudgetedTable(options, t);
      (Describes(m, t) && METHOD_ID in m) || (METHOD_TABLE !in m && METHOD_TABLE_DELTA !in m)
  {
    hide MethodEntries.Encode;
    hide EncodeTlvs;
  }

  /** The client's session after a server that refused a method id has said why. */
  lemma AfterRefusal(client: Session, t: Table, peer: Session, serverOptions: Options, error: RpcError)
    requires Sound(t) && IsMethodIdError(error)
    ensures var after := AfterError(client, error, ErrorExtensions(serverOptions, peer, t, error));
      && Sound(after.remote)
      && (after.methodIdEnabled ==>
            peer.methodIdEnabled && |after.remote.entries| <= |t.entries|
            && after.remote.entries == t.entries[..|after.remote.entries|]
            && (after.remote.entries != [] ==> after.remote.version == t.version))
  {
    hide BudgetedTable;
    hide Sound;
    hide Acceptable;
    hide WithTableExtensions;
    var m := ErrorExtensions(serverOptions, peer, t, error);
    BudgetedShape(serverOptions, t);
    EmptyIsSound(client.remote.maxEntries);
    if Describes(m, t) {
      TableApplied(client, m, t);
      if Acceptable(Kept(t.entries), t.version, client.remote.maxEntries) {
        CopyIsAPrefix(t, client.remote.maxEntries);
      }
    } else {
      NothingApplied(client, m);
    }
  }

  lemma NothingApplied(session: Session, m: ExtensionMap)
    requires METHOD_TABLE !in m && METHOD_TABLE_DELTA !in m
    ensures WithTableExtensions(session, m) == None
  {
  }

  lemma EmptyIsSound(max: u64)
    ensures Sound(EmptyTable(max))
  {
  }

  /**
   * One retry is enough: if a server refuses the method id of a call, and the client, having decoded the
   * refusal, decides to try again, then the same server finds the method, by id or by name.
   */
  lemma RetrySucceeds(
    client: Session, clientOptions: Options, t: Table, peer: Session, serverOptions: Options, error: RpcError,
    name: Name, id: u64, payload: bytes)
    requires Sound(t) && IsMethodIdError(error)
    requires Recover(
               clientOptions, AfterError(client, error, ErrorExtensions(serverOptions, peer, t, error)), error, 0).1
    ensures var refused := AfterError(client, error, ErrorExtensions(serverOptions, peer, t, error));
      var again := Recover(clientOptions, refused, error, 0).0;
      && Sound(again.remote)
      && IncomingMethodName(t, peer, RequestFrame(again, name, id, false, payload)) == Ok(name)
      && !Recover(clientOptions, again, error, 1).1
  {
    hide IncomingMethodName;
    hide RequestFrame;
    AfterRefusal(client, t, peer, serverOptions, error);
    var refused := AfterError(client, error, ErrorExtensions(serverOptions, peer, t, error));
    FreshCopyResolves(Recover(clientOptions, refused, error, 0).0, t, peer, name, id, false, payload);
  }

  lemma CodingKept(options: Options, session: Session, error: RpcError, m: ExtensionMap)
    ensures Coding(Recover(options, AfterError(session, error, m), error, 0).0) == Coding(session)
    ensures Recover(options, AfterError(session, error, m), error, 0).0.compressionEnabled == session.compressionEnabled
    ensures Recover(options, AfterError(session, error, m), error, 0).0.algorithm == session.algorithm
  {
    hide MethodEntries.Parse;
    hide Acceptable;
    hide Whole;
    hide WithDelta;
  }

  /** The server refuses a request, and the client can read why. */
  ghost predicate Refused(
    clientOptions: Options, client: Session, serverOptions: Options, t: Table, peer: Session, first: bytes,
    e: ErrorResponse, spelled: bytes, readError: bytes -> Option<RpcError>)
  {
    && DecodeIncoming(serverOptions, t, peer, first) == Failed([e])
    && readError(spelled) == Some(e.error)
    && Restores(Coding(peer), CodingOptions(clientOptions), ErrorFrame(e, spelled))
    && ValidFrame(EncodeResponse(serverOptions, peer, ErrorFrame(e, spelled)), CODEC_ID, clientOptions.limits)
  }

  lemma RetriesMean(options: Options, session: Session, error: RpcError)
    requires Recover(options, session, error, 0).1
    ensures IsMethodIdError(error)
  {
  }

  /** Both ends compress in the one way there is, or neither does. */
  predicate Agree(client: Session, peer: Session) {
    && client.compressionEnabled == peer.compressionEnabled
    && (client.compressionEnabled ==> client.algorithm == peer.algorithm == RunLengthCoding)
  }

  /**
   * The same over wire bytes: when the server's answer to a refused call makes the client try again, the second
   * request is delivered to the unchanged server's dispatcher under the name and with the payload of the call,
   * if the server's limits admit its frame and it can restore the payload.
   */
  lemma RetryIsDelivered(
    clientOptions: Options, client: Session, serverOptions: Options, t: Table, peer: Session, first: bytes,
    e: ErrorResponse, spelled: bytes, readError: bytes -> Option<RpcError>, name: Name, id: u64, payload: bytes)
    requires Sound(t) && Agree(client, peer) && name != []
    requires Refused(clientOptions, client, serverOptions, t, peer, first, e, spelled, readError)
    ensures var frame := EncodeResponse(serverOptions, peer, ErrorFrame(e, spelled));
      var (again, retries) := Recover(clientOptions, RefusedSession(client, e.error, frame), e.error, 0);
      && ReadResponse(clientOptions, client, frame, e.id, readError) == Reported(e.error)
      && (retries ==>
            && Sound(again.remote)
            && var second := EncodeRequest(clientOptions, again, name, id, false, payload);
               second.Ok? && ValidFrame(second.value, CODEC_ID, serverOptions.limits)
               && Restores(Coding(again), CodingOptions(serverOptions), RequestFrame(again, name, id, false, payload))
               ==> DecodeIncoming(serverOptions, t, peer, second.value)
                   == Delivered(DecodedRequest(REQUEST, id, name, payload)))
  {
    hide DecodeIncoming;
    hide ReadResponse;
    hide EncodeRequest;
    hide EncodeResponse;
    hide ErrorFrame;
    hide ErrorExtensions;
    hide AfterError;
    hide Recover;
    hide RequestFrame;
    hide Restores;
    hide ValidFrame;
    hide FrameCodec.Parse;
    hide IncomingMethodName;
    hide Sound;
    hide Coding;
    RefusalSays(serverOptions, t, peer, first, e);
    ErrorArrives(serverOptions, peer, clientOptions, client, e, spelled, readError);
    var (again, retries) := Recover(clientOptions, AfterError(client, e.error, e.extensions), e.error, 0);
    CodingKept(clientOptions, client, e.error, e.extensions);
    if retries {
      RetriesMean(clientOptions, AfterError(client, e.error, e.extensions), e.error);
      RetrySucceeds(client, clientOptions, t, peer, serverOptions, e.error, name, id, payload);
      RequestArrives(clientOptions, again, serverOptions, t, peer, name, id, false, payload);
    }
  }

  /** A client that may fall back to names retries after every refusal. */
  lemma AutoAlwaysRetries(
    client: Session, clientOptions: Options, t: Table, peer: Session, serverOptions: Options, error: RpcError)
    requires Sound(t)
    requires clientOptions.methodId == Auto && clientOptions.retryMethodIdErrorOnce
    ensures Recover(
              clientOptions, AfterError(client, error, ErrorExtensions(serverOptions, peer, t, error)), error, 0).1
       <==> error in {MethodIdNotNegotiated, MethodTableOutdated, MethodIdNotFound, MethodIdRemoved,
                      MethodSignatureMismatch}
  {
  }

  /** Every refusal of a request's method is one of those. */
  lemma RefusalsAreMethodIdErrors(t: Table, session: Session, f: FrameParts)
    ensures IncomingMethodName(t, session, f).Err? ==> IsMethodIdError(IncomingMethodName(t, session, f).error)
  {
  }

  /** No other error carries a table. */
  lemma OtherErrorsCarryNothing(options: Options, session: Session, t: Table, error: RpcError)
    requires !IsMethodIdError(error)
    ensures ErrorExtensions(options, session, t, error) == map[]
  {
  }

  /** Only run lengths, 1, are agreed on: a server ignores any other offer, and a client refuses any other answer. */
  lemma OnlyRunLengths(options: Options, session: Session, t: Table, m: ExtensionMap)
    ensures ServerAccepts(options, t, session, m).compressionEnabled
       <==> options.compression != Disable && COMPRESSION in m && ReadU8(m, COMPRESSION_ALGORITHM) == Some(1)
    ensures ClientAccepts(session, m).1 <==> COMPRESSION in m ==> ReadU8(m, COMPRESSION_ALGORITHM) == Some(1)
    ensures var after := ClientAccepts(session, m).0;
      ClientAccepts(session, m).1 ==>
        && after.handshakeDone && (after.compressionEnabled <==> COMPRESSION in m)
        && after.algorithm == if COMPRESSION in m then RunLengthCoding else NoCompression
  {
    hide ReadU8;
    hide ReadU32;
    hide ClientMethodIds;
  }

  /** A client that must use ids retries if and only if the refusal brought it a table with entries, and by id then. */
  lemma RequireRetriesByIdOnly(
    client: Session, clientOptions: Options, t: Table, peer: Session, serverOptions: Options, error: RpcError)
    requires Sound(t) && IsMethodIdError(error)
    requires clientOptions.methodId == Require && clientOptions.retryMethodIdErrorOnce
    ensures var after := AfterError(client, error, ErrorExtensions(serverOptions, peer, t, error));
      var (again, retried) := Recover(clientOptions, after, error, 0);
      && again == after
      && (retried <==>
            peer.methodIdEnabled && Transfers(t, serverOptions, client.remote.maxEntries) && Kept(t.entries) != [])
      && (retried ==> again.methodIdEnabled)
  {
    RefusalRenewsTable(client, t, peer, serverOptions, error);
    hide FitsBudget;
    hide TableExtensions;
    hide ErrorExtensions;
    hide AfterError;
    hide Acceptable;
    NothingKept(t);
  }

  lemma NothingKept(t: Table)
    ensures t.entries == [] ==> Kept(t.entries) == []
    ensures forall max: u64 :: |Kept(t.entries)| <= max ==> (CopyOf(t, max).entries == [] <==> Kept(t.entries) == [])
  {
    hide Kept;
  }

  /** A table within its budget takes some bytes, so a zero budget carries none. */
  lemma TableTakesSpace(options: Options, t: Table)
    requires options.maxAutoMethodTableExtensionBytes == 0
    ensures !FitsBudget(options, TableExtensions(t, true))
  {
    hide EncodeTlvs;
    hide MethodEntries.Encode;
    EncodedEmpty(TableExtensions(t, true));
    assert METHOD_ID in TableExtensions(t, true);
  }

  /** A refusal renews the client's table exactly when the server has one that fits and the client can hold it. */
  lemma RefusalRenewsTable(client: Session, t: Table, peer: Session, serverOptions: Options, error: RpcError)
    requires Sound(t) && IsMethodIdError(error)
    ensures var after := AfterError(client, error, ErrorExtensions(serverOptions, peer, t, error));
      var max := client.remote.maxEntries;
      && (after.methodIdEnabled <==> peer.methodIdEnabled && t.entries != [] && Transfers(t, serverOptions, max))
      && (after.methodIdEnabled ==> after.remote == CopyOf(t, max))
  {
    hide FitsBudget;
    hide TableExtensions;
    hide WithTableExtensions;
    hide CopyOf;
    hide Acceptable;
    hide Sound;
    var m := ErrorExtensions(serverOptions, peer, t, error);
    if serverOptions.maxAutoMethodTableExtensionBytes == 0 {
      TableTakesSpace(serverOptions, t);
    }
    if FitsBudget(serverOptions, TableExtensions(t, true)) {
      TableDescribes(serverOptions, t);
      TableApplied(client, TableExtensions(t, true), t);
    }
    HintSaysNothing(t);
    NothingApplied(client, TableExtensions(t, false));
    NothingApplied(client, map[]);
  }

  lemma TableDescribes(options: Options, t: Table)
    requires FitsBudget(options, TableExtensions(t, true))
    ensures Describes(TableExtensions(t, true), t)
  {
    hide EncodeTlvs;
    hide MethodEntries.Encode;
  }

  lemma HintSaysNothing(t: Table)
    ensures METHOD_TABLE !in TableExtensions(t, false) && METHOD_TABLE_DELTA !in TableExtensions(t, false)
  {
  }

  /** The retry of a method that is still there goes by id when a whole table came with the refusal. */
  lemma RetryGoesById(
    client: Session, clientOptions: Options, t: Table, peer: Session, serverOptions: Options, error: RpcError,
    name: Name, id: u64, payload: bytes)
    requires Sound(t) && IsMethodIdError(error) && peer.methodIdEnabled && Lookup(t, name).Some?
    requires |t.entries| <= client.remote.maxEntries && forall e :: e in t.entries ==> |e.name| <= MAX_NAME
    requires clientOptions.retryMethodIdErrorOnce && Enabled(clientOptions.methodId)
    ensures FitsBudget(serverOptions, TableExtensions(t, true)) ==>
      var refused := AfterError(client, error, ErrorExtensions(serverOptions, peer, t, error));
      var (again, retried) := Recover(clientOptions, refused, error, 0);
      && retried && Sound(again.remote)
      && HasFlag(RequestFrame(again, name, id, false, payload).header.flags, MethodId)
  {
    hide FitsBudget;
    hide TableExtensions;
    hide ErrorExtensions;
    hide AfterError;
    hide CopyOf;
    hide Acceptable;
    hide Kept;
    hide Sound;
    hide RequestFrame;
    RefusalRenewsTable(client, t, peer, serverOptions, error);
    AfterRefusal(client, t, peer, serverOptions, error);
    LookupMeans(t, name);
    CopyIsTheTable(t, client.remote.maxEntries);
    if FitsBudget(serverOptions, TableExtensions(t, true)) {
      var refused := AfterError(client, error, ErrorExtensions(serverOptions, peer, t, error));
      GoesById(refused, t, name, id, payload);
    }
  }

  lemma GoesById(session: Session, t: Table, name: Name, id: u64, payload: bytes)
    requires Sound(t) && Sound(session.remote) && session.methodIdEnabled
    requires session.remote == t.(maxEntries := session.remote.maxEntries) && Lookup(t, name).Some?
    ensures HasFlag(RequestFrame(session, name, id, false, payload).header.flags, MethodId)
  {
    hide Sound;
    FlagUpdates(0, MethodId, true);
  }

  // ----- hello -------------------------------------------------------------------------------

  /** Whether a client takes the table a server may send it in a hello. */
  ghost predicate Transfers(t: Table, options: Options, max: u64) {
    FitsBudget(options, TableExtensions(t, true)) && Acceptable(Kept(t.entries), t.version, max)
  }

  /** Both ends after the client's offer and the server's answer. */
  ghost function Handshake(clientOptions: Options, serverOptions: Options, t: Table): (Session, Session, bool) {
    var peer := ServerAccepts(serverOptions, t, NewSession(serverOptions), ClientHello(clientOptions));
    var accepted := ClientAccepts(NewSession(clientOptions), ServerHello(serverOptions, t, peer));
    (accepted.0, peer, accepted.1)
  }

  lemma ServerSide(clientOptions: Options, serverOptions: Options, t: Table)
    ensures var peer := ServerAccepts(serverOptions, t, NewSession(serverOptions), ClientHello(clientOptions));
      && peer.methodIdEnabled
         == (Enabled(clientOptions.methodId) && Enabled(serverOptions.methodId) && t.entries != [])
      && peer.compressionEnabled == (Enabled(clientOptions.compression) && Enabled(serverOptions.compression))
      && peer.algorithm == (if peer.compressionEnabled then RunLengthCoding else NoCompression)
      && (peer.compressionEnabled ==>
            peer.minPayloadSize
            == Larger(clientOptions.compressionMinPayloadSize, serverOptions.compressionMinPayloadSize))
  {
    hide BigEndian;
    hide ReadU8;
    hide ReadU32;
    var m := ClientHello(clientOptions);
    ReadBack(m, COMPRESSION_ALGORITHM);
    ReadBack(m, COMPRESSION_MIN_PAYLOAD_SIZE);
  }

  function Larger(a: u32, b: u32): u32 {
    if a > b then a else b
  }

  lemma ReplyShape(options: Options, t: Table, peer: Session)
    requires peer.algorithm == (if peer.compressionEnabled then RunLengthCoding else NoCompression)
    ensures var m := ServerHello(options, t, peer);
      && (COMPRESSION in m <==> peer.compressionEnabled)
      && (peer.compressionEnabled ==>
            OfferedAlgorithm(m) == RunLengthCoding
            && ReadU32(m, COMPRESSION_MIN_PAYLOAD_SIZE) == Some(peer.minPayloadSize))
      && (METHOD_ID in m ==> peer.methodIdEnabled)
      && (peer.methodIdEnabled && FitsBudget(options, TableExtensions(t, true)) ==> METHOD_ID in m && Describes(m, t))
      && (!peer.methodIdEnabled || !FitsBudget(options, TableExtensions(t, true)) ==>
            METHOD_TABLE !in m && METHOD_TABLE_DELTA !in m)
  {
    hide MethodEntries.Encode;
    hide EncodeTlvs;
    hide FitsBudget;
    hide BigEndian;
    var m := ServerHello(options, t, peer);
    ReadBack(m, COMPRESSION_ALGORITHM);
    ReadBack(m, COMPRESSION_MIN_PAYLOAD_SIZE);
    Radixes();
    var base := if peer.methodIdEnabled then BudgetedTable(options, t) else map[];
    assert forall k :: k < COMPRESSION ==> (k in m <==> k in base) && (k in m ==> m[k] == base[k]);
    if FitsBudget(options, TableExtensions(t, true)) {
      BudgetBoundsTable(options, t);
    }
  }

  lemma BudgetBoundsTable(options: Options, t: Table)
    requires FitsBudget(options, TableExtensions(t, true))
    ensures |MethodEntries.Encode(t.entries)| <= MAX_EXTENSION_BYTES
  {
    hide MethodEntries.Encode;
    hide EncodeTlvs;
    assert TableExtensions(t, true)[METHOD_TABLE] == MethodEntries.Encode(t.entries);
  }

  /**
   * After hello on fresh sessions both ends agree: on compression, on its algorithm, on the larger of the
   * two payload thresholds; and the client uses method ids exactly when the server does and its table
   * arrived, and then it holds a copy of it.
   */
  lemma HelloAgreement(clientOptions: Options, serverOptions: Options, t: Table)
    requires Sound(t)
    ensures var (client, peer, ok) := Handshake(clientOptions, serverOptions, t);
      && ok
      && client.compressionEnabled == peer.compressionEnabled
      && client.compressionEnabled == (Enabled(clientOptions.compression) && Enabled(serverOptions.compression))
      && client.algorithm == peer.algorithm
      && (client.compressionEnabled ==>
            client.minPayloadSize == peer.minPayloadSize
            == Larger(clientOptions.compressionMinPayloadSize, serverOptions.compressionMinPayloadSize))
      && (client.methodIdEnabled
          <==> peer.methodIdEnabled && Transfers(t, serverOptions, clientOptions.maxMethodEntries))
      && (client.methodIdEnabled ==> client.remote == CopyOf(t, clientOptions.maxMethodEntries))
  {
    hide BudgetedTable;
    hide FitsBudget;
    hide ServerHello;
    hide WithTableExtensions;
    hide CopyOf;
    ServerSide(clientOptions, serverOptions, t);
    var peer := ServerAccepts(serverOptions, t, NewSession(serverOptions), ClientHello(clientOptions));
    ReplyShape(serverOptions, t, peer);
    var m := ServerHello(serverOptions, t, peer);
    var client := NewSession(clientOptions);
    if peer.methodIdEnabled && FitsBudget(serverOptions, TableExtensions(t, true)) {
      TableApplied(client, m, t);
    } else {
      NothingApplied(client, m);
    }
  }

  /** With names short enough for the wire, ids are used exactly when there is room, and then the copy is exact. */
  lemma HelloCopiesTheTable(clientOptions: Options, serverOptions: Options, t: Table)
    requires Sound(t) && forall e :: e in t.entries ==> |e.name| <= MAX_NAME
    ensures var (client, peer, ok) := Handshake(clientOptions, serverOptions, t);
      && (client.methodIdEnabled
          <==> peer.methodIdEnabled && FitsBudget(serverOptions, TableExtensions(t, true))
               && |t.entries| <= clientOptions.maxMethodEntries)
      && (client.methodIdEnabled ==> client.remote == t.(maxEntries := clientOptions.maxMethodEntries))
  {
    HelloAgreement(clientOptions, serverOptions, t);
    KeptAll(t.entries);
    hide FitsBudget;
    hide TableExtensions;
    hide Kept;
    hide CopyOf;
    var max := clientOptions.maxMethodEntries;
    if |t.entries| > max {
      TooMany(t, max);
    } else if t.entries != [] {
      CopyIsTheTable(t, max);
    }
  }

  /** A later hello that only names the version leaves the client with ids exactly if it holds entries already. */
  lemma HelloWithoutTable(client: Session, serverOptions: Options, t: Table, peer: Session)
    requires !FitsBudget(serverOptions, TableExtensions(t, true))
    ensures var after := ClientAccepts(client, ServerHello(serverOptions, t, peer)).0;
      && after.remote == client.remote
      && (after.methodIdEnabled <==>
            && peer.methodIdEnabled && FitsBudget(serverOptions, TableExtensions(t, false))
            && client.remote.entries != [])
  {
    hide FitsBudget;
    hide BigEndian;
    hide MethodEntries.Encode;
    hide MethodEntries.Parse;
    hide AlgorithmCode;
    HintSaysNothing(t);
    NothingApplied(client.(methodIdEnabled := false), ServerHello(serverOptions, t, peer));
  }

  /** A delta from a server is laid over the client's copy, less its overlong names, or leaves the session alone. */
  lemma DeltaApplied(session: Session, t: Table, delta: seq<Entry>)
    requires |MethodEntries.Encode(delta)| <= MAX_EXTENSION_BYTES
    ensures var copy := WithDelta(session.remote, Kept(delta), t.version);
      WithTableExtensions(session, DeltaExtensions(t, delta))
      == if copy.Some? then Some(session.(remote := copy.value, methodIdEnabled := true)) else None
  {
    hide MethodEntries.Parse;
    hide MethodEntries.Encode;
    hide WithDelta;
    var m := DeltaExtensions(t, delta);
    TableOverWire(delta);
    ReadBack(m, METHOD_TABLE_VERSION);
  }

  lemma TooMany(t: Table, max: u64)
    requires |t.entries| > max
    ensures !Acceptable(t.entries, t.version, max)
  {
  }
}
