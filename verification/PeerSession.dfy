/** A session as each end keeps it: what the hello handlers, responses and recovery change in place. */
module PeerSession {
  import opened Bytes
  import opened Wrappers
  import opened ExtensionCodec
  import opened FrameCodec
  import opened Compression
  import opened MethodEntries
  import Tables = MethodIdTable
  import opened NekoBackend

  type NameTable = Tables.MethodIdTable

  /** The bytes of a hello frame with these extensions. */
  function HelloFrame(m: ExtensionMap): FrameParts {
    FrameParts(NewHeader(HELLO, 0, CODEC_ID, 0), [], m, [])
  }

  /** The extensions of a frame, if it is a whole frame for this codec. */
  function Extensions(frame: bytes): Option<ExtensionMap> {
    var f := FrameCodec.Parse(frame);
    if f.Some? && f.value.header.codec == CODEC_ID then Some(f.value.extensions) else None
  }

  predicate IsHello(frame: bytes) {
    var f := FrameCodec.Parse(frame);
    f.Some? && f.value.header.codec == CODEC_ID && f.value.header.kind == HELLO
  }

  /** Sums up what the extensions take on the wire, giving up when a value or the total is too large. */
  method ExtensionWireSize(m: ExtensionMap) returns (size: Option<nat>)
    ensures size == if Fits(m) && |EncodeTlvs(m)| <= MAX_EXTENSION_BYTES then Some(|EncodeTlvs(m)|) else None
  {
    hide Layout;
    hide Ascending;
    var types := Ascending(m.Keys, 0);
    AscendingLists(m.Keys);
    assert types[0..] == types;
    assert EncodeTlvs(m) == Layout(types, m);
    hide EncodeTlvs;
    var total := 0;
    for i := 0 to |types|
      invariant forall j :: 0 <= j < i ==> |m[types[j]]| <= 0xFFFF
      invariant total + |Layout(types[i..], m)| == |EncodeTlvs(m)|
      invariant total <= MAX_EXTENSION_BYTES
    {
      var value := m[types[i]];
      LayoutSize(types, i, m);
      if |value| > 0xFFFF || total > MAX_EXTENSION_BYTES - 4 || total + 4 > MAX_EXTENSION_BYTES - |value| {
        return None;
      }
      total := total + 4 + |value|;
    }
    assert forall t :: t in m ==> t in types;
    LayoutNothing(types, m);
    return Some(total);
  }

  lemma LayoutNothing(types: seq<ExtensionType>, m: ExtensionMap)
    ensures Layout(types[|types|..], m) == []
  {
    assert types[|types|..] == [];
  }

  method ExtensionsFitAutoBudget(options: Options, m: ExtensionMap) returns (ok: bool)
    ensures ok == FitsBudget(options, m)
  {
    var size := ExtensionWireSize(m);
    ok := size.Some? && size.value <= options.maxAutoMethodTableExtensionBytes && size.value <= MAX_EXTENSION_BYTES;
  }

  /** A hello frame arrives with its extensions exactly when they fit a frame. */
  lemma HelloOverWire(m: ExtensionMap)
    requires Supported(m)
    ensures var frame := FrameCodec.Encode(HelloFrame(m));
      && (IsHello(frame) <==> Fits(m) && |EncodeTlvs(m)| <= MAX_EXTENSION_BYTES)
      && (IsHello(frame) ==> Extensions(frame) == Some(m))
  {
    hide FrameCodec.Parse;
    hide FrameCodec.Encode;
    hide EncodeTlvs;
    FrameCodec.ParseEncoded(HelloFrame(m));
  }

  /** Of the frames that fit and have no critical extension, those of kind 5 are hellos, for codec 0. */
  lemma OnlyHellosAreHellos(f: FrameParts)
    requires Encodable(f) && Supported(f.extensions)
    ensures IsHello(FrameCodec.Encode(f)) <==> f.header.kind == 5 && f.header.codec == 0
    ensures Extensions(FrameCodec.Encode(f))
         == if 1 <= f.header.kind <= 5 && f.header.codec == 0 then Some(f.extensions) else None
  {
    hide FrameCodec.Parse;
    hide FrameCodec.Encode;
    hide Encodable;
    FrameCodec.ParseEncoded(f);
  }

  lemma {:induction false} ListedOnce(types: seq<ExtensionType>, s: set<ExtensionType>)
    requires Distinct(types) && forall t :: t in types ==> t in s
    ensures |types| <= |s|
  {
    if types != [] {
      var rest := types[1..];
      assert forall i :: 0 <= i < |rest| ==> rest[i] == types[i + 1];
      ListedOnce(rest, s - {types[0]});
    }
  }

  lemma {:induction false} LayoutBound(types: seq<ExtensionType>, m: ExtensionMap)
    requires forall t :: t in types ==> t in m && |m[t]| <= 4
    ensures |Layout(types, m)| <= 8 * |types|
  {
    if types != [] {
      assert types[0] in types;
      LayoutBound(types[1..], m);
    }
  }

  /** The hello a client sends always fits a frame and arrives as it was sent. */
  lemma ClientHelloArrives(options: Options)
    ensures var frame := FrameCodec.Encode(HelloFrame(ClientHello(options)));
      IsHello(frame) && Extensions(frame) == Some(ClientHello(options))
  {
    hide FrameCodec.Parse;
    hide FrameCodec.Encode;
    hide BigEndian;
    hide Ascending;
    hide Layout;
    var m := ClientHello(options);
    var types := Ascending(m.Keys, 0);
    AscendingLists(m.Keys);
    ListedOnce(types, {METHOD_ID, COMPRESSION, COMPRESSION_ALGORITHM, COMPRESSION_MIN_PAYLOAD_SIZE});
    LayoutBound(types, m);
    assert |EncodeTlvs(m)| <= 4 * 8;
    HelloOverWire(m);
  }

  /** A frame that passes an endpoint's size check carries its codec. */
  lemma HeaderCodec(frame: bytes, limits: FrameLimits)
    requires ValidFrame(frame, CODEC_ID, limits)
    ensures FrameCodec.Parse(frame).Some? ==> FrameCodec.Parse(frame).value.header.codec == CODEC_ID
  {
    hide ReadHeader;
    HeaderOfPrefix(frame);
  }

  class PeerSession {
    var handshakeDone: bool
    var methodIdEnabled: bool
    var compressionEnabled: bool
    var algorithm: Algorithm
    var minPayloadSize: u32
    const remote: NameTable

    function State(): Session
      reads this, remote
    {
      Session(handshakeDone, methodIdEnabled, compressionEnabled, algorithm, minPayloadSize, remote.State())
    }

    ghost predicate Valid()
      reads this, remote
    {
      remote.Valid()
    }

    constructor (options: Options)
      ensures Valid() && fresh(remote) && State() == NewSession(options)
    {
      handshakeDone, methodIdEnabled, compressionEnabled := false, false, false;
      algorithm, minPayloadSize := NoCompression, options.compressionMinPayloadSize;
      remote := new Tables.MethodIdTable(options.maxMethodEntries);
    }

    /** Takes in a peer's table or changes to it; a refused one leaves the session as it was. */
    method ApplyTableExtensions(m: ExtensionMap) returns (ok: bool)
      requires Valid()
      modifies this`methodIdEnabled, remote
      ensures Valid()
      ensures ok == WithTableExtensions(old(State()), m).Some?
      ensures State() == if ok then WithTableExtensions(old(State()), m).value else old(State())
      ensures ok ==> methodIdEnabled
    {
      hide Tables.Sound;
      hide Tables.Acceptable;
      hide MethodEntries.Parse;
      hide Tables.Whole;
      hide Tables.WithDelta;
      if METHOD_TABLE !in m && METHOD_TABLE_DELTA !in m {
        return false;
      }
      var version := ReadU64(m, METHOD_TABLE_VERSION);
      if version == None {
        return false;
      }
      ok := false;
      var entries: Option<seq<Entry>> := None;
      if METHOD_TABLE in m {
        entries := ParseMethodEntries(m[METHOD_TABLE]);
      }
      if entries.Some? {
        ok := remote.ApplyRemoteTable(entries.value, version.value);
      } else if METHOD_TABLE_DELTA in m {
        entries := ParseMethodEntries(m[METHOD_TABLE_DELTA]);
        if entries.Some? {
          ok := remote.ApplyRemoteDelta(entries.value, version.value);
        }
      }
      if !ok {
        return;
      }
      var minimum := ReadU64(m, METHOD_MINIMUM_COMPATIBLE_VERSION);
      if minimum.Some? {
        remote.SetMinimumCompatibleVersion(minimum.value);
      }
      methodIdEnabled := true;
    }

    /** A server takes a client's hello and answers with what it accepts. */
    method HandleClientHello(options: Options, table: NameTable, frame: bytes) returns (r: Result<bytes, WireError>)
      requires Valid() && table.Valid() && table != remote
      modifies this
      ensures Valid()
      ensures Extensions(frame) == None ==> r == Err(InvalidRequest) && State() == old(State())
      ensures Extensions(frame).Some? ==>
        && State() == ServerAccepts(options, table.State(), old(State()), Extensions(frame).value)
        && r == Ok(FrameCodec.Encode(HelloFrame(ServerHello(options, table.State(), State()))))
    {
      hide Tables.Sound;
      hide FrameCodec.Parse;
      hide FrameCodec.Encode;
      hide BudgetedTable;
      hide ReadU8;
      hide ReadU32;
      var f := ParseFrame(frame, CODEC_ID);
      if f == None {
        return Err(InvalidRequest);
      }
      var m := f.value.extensions;
      AcceptOffer(options, table, m);
      var answer := BuildServerHello(options, table);
      var hello := EncodeFrame(HelloFrame(answer));
      return Ok(hello);
    }

    method AcceptOffer(options: Options, table: NameTable, m: ExtensionMap)
      requires table != remote
      modifies this
      ensures State() == ServerAccepts(options, table.State(), old(State()), m)
    {
      hide ReadU8;
      hide ReadU32;
      var offered := OfferedAlgorithm(m);
      var offeredMin := ReadU32(m, COMPRESSION_MIN_PAYLOAD_SIZE);
      var supports := COMPRESSION in m && offered != NoCompression && Supports(offered);
      methodIdEnabled := Enabled(options.methodId) && METHOD_ID in m && table.entries != [];
      compressionEnabled := Enabled(options.compression) && supports;
      algorithm := if compressionEnabled then offered else NoCompression;
      if compressionEnabled && offeredMin.Some? && offeredMin.value > minPayloadSize {
        minPayloadSize := offeredMin.value;
      }
      handshakeDone := true;
    }

    method BuildServerHello(options: Options, table: NameTable) returns (m: ExtensionMap)
      ensures m == ServerHello(options, table.State(), State())
    {
      m := map[];
      if methodIdEnabled {
        m := BuildTableExtensions(options, table);
      }
      if compressionEnabled {
        m := m + map[COMPRESSION := [],
                     COMPRESSION_ALGORITHM := BigEndian(1, AlgorithmCode(algorithm)),
                     COMPRESSION_MIN_PAYLOAD_SIZE := BigEndian(4, minPayloadSize)];
      }
    }

    /** The hello to send before the first call, if one is needed. */
    method BeginHello(options: Options) returns (hello: Option<bytes>)
      modifies this`handshakeDone
      ensures hello == if old(handshakeDone) || ClientHello(options) == map[] then None
                       else Some(FrameCodec.Encode(HelloFrame(ClientHello(options))))
      ensures State() == old(State()).(handshakeDone := hello == None)
    {
      if handshakeDone || (!Enabled(options.methodId) && !Enabled(options.compression)) {
        handshakeDone := true;
        return None;
      }
      var m := ClientHello(options);
      assert METHOD_ID in m || COMPRESSION in m;
      var frame := EncodeFrame(HelloFrame(m));
      return Some(frame);
    }

    /** Takes the server's answer, which must grant what the options require. */
    method CompleteHello(options: Options, answer: bytes) returns (error: Option<RpcError>)
      requires Valid()
      modifies this, remote
      ensures Valid()
      ensures error == None <==>
        && IsHello(answer)
        && ClientAccepts(old(State()), Extensions(answer).value).1
        && (options.methodId == Require ==> methodIdEnabled)
        && (options.compression == Require ==> compressionEnabled)
      ensures error.Some? ==>
        error.value == if !IsHello(answer) || !ClientAccepts(old(State()), Extensions(answer).value).1
                       then Wire(InvalidRequest)
                       else if options.methodId == Require && !methodIdEnabled then MethodIdRequiredButUnsupported
                       else CompressionRequiredButUnsupported
      ensures IsHello(answer) ==> State() == ClientAccepts(old(State()), Extensions(answer).value).0
      ensures error == None ==> handshakeDone
    {
      hide ClientMethodIds;
      hide Tables.Sound;
      hide FrameCodec.Parse;
      if !IsHello(answer) {
        return Some(Wire(InvalidRequest));
      }
      var ok := HandleServerHello(answer);
      if !ok {
        return Some(Wire(InvalidRequest));
      }
      if options.methodId == Require && !methodIdEnabled {
        return Some(MethodIdRequiredButUnsupported);
      }
      if options.compression == Require && !compressionEnabled {
        return Some(CompressionRequiredButUnsupported);
      }
      handshakeDone := true;
      return None;
    }

    /** The method-id part of a server's answer: a table it brings, or else the one already held. */
    method TakeMethodIds(m: ExtensionMap)
      requires Valid()
      modifies this`methodIdEnabled, remote
      ensures Valid() && State() == ClientMethodIds(old(State()), m)
    {
      hide WithTableExtensions;
      hide Tables.Sound;
      methodIdEnabled := false;
      if METHOD_ID in m {
        methodIdEnabled := ApplyTableExtensions(m);
        if !methodIdEnabled && remote.entries != [] {
          methodIdEnabled := true;
        }
      }
    }

    /** The client takes the server's answer; false when it cannot honour it. */
    method HandleServerHello(frame: bytes) returns (ok: bool)
      requires Valid()
      modifies this, remote
      ensures Valid()
      ensures Extensions(frame) == None ==> !ok && State() == old(State())
      ensures Extensions(frame).Some? ==>
        (State(), ok) == ClientAccepts(old(State()), Extensions(frame).value)
    {
      hide Tables.Sound;
      hide FrameCodec.Parse;
      hide ClientMethodIds;
      hide ReadU8;
      hide ReadU32;
      var f := ParseFrame(frame, CODEC_ID);
      if f == None {
        return false;
      }
      var m := f.value.extensions;
      TakeMethodIds(m);
      ghost var s := State();
      compressionEnabled := COMPRESSION in m;
      algorithm := NoCompression;
      if compressionEnabled {
        algorithm := OfferedAlgorithm(m);
        if algorithm == NoCompression || !Supports(algorithm) {
          assert State() == s.(compressionEnabled := true, algorithm := algorithm);
          return false;
        }
        var min := ReadU32(m, COMPRESSION_MIN_PAYLOAD_SIZE);
        if min.Some? {
          minPayloadSize := min.value;
        }
      }
      handshakeDone := true;
      return true;
    }

    /** Decodes the response to a call; a method-id error also updates or drops the table. */
    method DecodeResponse(options: Options, frame: bytes, expectedId: u64, readError: bytes -> Option<RpcError>)
      returns (answer: Answer)
      requires Valid()
      modifies this`methodIdEnabled, remote
      ensures Valid()
      ensures answer == ReadResponse(options, old(State()), frame, expectedId, readError)
      ensures !answer.Reported? ==> State() == old(State())
      ensures answer.Reported? ==>
        State() == AfterError(old(State()), answer.error, FrameCodec.Parse(frame).value.extensions)
    {
      hide WithTableExtensions;
      hide Tables.Sound;
      if !ValidFrame(frame, CODEC_ID, options.limits) {
        return Unusable(FrameError(frame, options.limits));
      }
      HeaderCodec(frame, options.limits);
      var f := ParseFrame(frame, CODEC_ID);
      if f == None {
        return Unusable(Wire(InvalidRequest));
      }
      var payload := IncomingPayload(CodingOptions(options), Coding(State()), f.value);
      if payload.Err? {
        return Unusable(Wire(payload.error));
      }
      if f.value.header.kind != RESPONSE || f.value.header.codec != CODEC_ID {
        return Unusable(Wire(InvalidRequest));
      }
      if f.value.header.id != expectedId {
        return Unusable(ResponseIdNotMatch);
      }
      if !HasFlag(f.value.header.flags, Error) {
        return Success(payload.value);
      }
      var error := readError(payload.value);
      if error == None {
        return Unusable(InternalError);
      }
      if IsMethodIdError(error.value) {
        var updated := ApplyTableExtensions(f.value.extensions);
        if !updated {
          methodIdEnabled := false;
          remote.Reset();
        }
      }
      return Reported(error.value);
    }

    /** Decides whether a failed call is worth one more attempt. */
    method RecoverClientCall(options: Options, error: RpcError, retries: nat) returns (again: bool)
      requires Valid()
      modifies this`methodIdEnabled, this`handshakeDone
      ensures Valid() && (State(), again) == Recover(options, old(State()), error, retries)
    {
      if !options.retryMethodIdErrorOnce || retries != 0 || !Enabled(options.methodId) || !IsMethodIdError(error) {
        return false;
      }
      if !methodIdEnabled || remote.entries == [] {
        if options.methodId == Require {
          return false;
        }
        methodIdEnabled := false;
        handshakeDone := true;
      }
      return true;
    }
  }

  /** Everything a server says about its table, as much of it as its budget allows. */
  method BuildTableExtensions(options: Options, table: NameTable) returns (m: ExtensionMap)
    ensures m == BudgetedTable(options, table.State())
  {
    hide EncodeTlvs;
    var value := EncodeMethodEntries(table.entries);
    m := map[METHOD_ID := [],
             METHOD_TABLE_VERSION := BigEndian(8, table.version),
             METHOD_MINIMUM_COMPATIBLE_VERSION := BigEndian(8, table.minVersion)];
    var hint := m;
    m := m[METHOD_TABLE := value];
    var fits := ExtensionsFitAutoBudget(options, m);
    if !fits {
      m := hint;
      fits := ExtensionsFitAutoBudget(options, m);
      if !fits {
        m := map[];
      }
    }
  }
}
