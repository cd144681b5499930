/**
 * The wire format as it looks from outside: which bytes stand for a frame, an extension, a method table, a hello,
 * a request and a response, and exactly when a request or a response is encoded. Nothing here names the codecs'
 * own constants.
 */
module WireFormat {
  import opened Bytes
  import opened Wrappers
  import opened ExtensionCodec
  import opened FrameCodec
  import opened Compression
  import opened NekoBackend
  import MethodEntries
  import PeerSession
  import RunLength
  import Tables = MethodIdTable

  // ----- integers ----------------------------------------------------------------------------

  function One(v: u8): bytes {
    [v as byte]
  }

  function Two(v: u16): bytes {
    [(v / 0x100) as byte, (v % 0x100) as byte]
  }

  function Four(v: u32): bytes {
    Two(v / 0x1_0000) + Two(v % 0x1_0000)
  }

  function Eight(v: u64): bytes {
    Four(v / 0x1_0000_0000) + Four(v % 0x1_0000_0000)
  }

  lemma LastTwo(n: nat, v: nat)
    ensures BigEndian(n + 2, v) == BigEndian(n, v / 0x1_0000) + Two(v % 0x1_0000)
  {
    assert BigEndian(n + 2, v) == BigEndian(n + 1, v / 0x100) + [(v % 0x100) as byte];
    assert BigEndian(n + 1, v / 0x100) == BigEndian(n, v / 0x100 / 0x100) + [(v / 0x100 % 0x100) as byte];
    assert v / 0x100 / 0x100 == v / 0x1_0000;
  }

  lemma Halves(v: nat)
    ensures var low := v % 0x1_0000_0000;
      low / 0x1_0000 == v / 0x1_0000 % 0x1_0000 && low % 0x1_0000 == v % 0x1_0000
    ensures v / 0x1_0000 / 0x1_0000 == v / 0x1_0000_0000
  {
  }

  lemma LastFour(n: nat, v: nat)
    ensures BigEndian(n + 4, v) == BigEndian(n, v / 0x1_0000_0000) + Four(v % 0x1_0000_0000)
  {
    hide BigEndian;
    hide Two;
    LastTwo(n + 2, v);
    LastTwo(n, v / 0x1_0000);
    Halves(v);
  }

  lemma NoBytes(v: nat)
    ensures BigEndian(0, v) == []
  {
  }

  lemma OneOnWire(v: u8)
    ensures BigEndian(1, v) == One(v)
  {
    assert BigEndian(1, v) == BigEndian(0, v / 0x100) + [(v % 0x100) as byte];
  }

  lemma TwoOnWire(v: u16)
    ensures BigEndian(2, v) == Two(v)
  {
    hide BigEndian;
    LastTwo(0, v);
    NoBytes(v / 0x1_0000);
  }

  lemma FourOnWire(v: u32)
    ensures BigEndian(4, v) == Four(v)
  {
    hide BigEndian;
    hide Four;
    LastFour(0, v);
    NoBytes(v / 0x1_0000_0000);
  }

  lemma EightOnWire(v: u64)
    ensures BigEndian(8, v) == Eight(v)
  {
    hide BigEndian;
    hide Four;
    LastFour(4, v);
    FourOnWire(v / 0x1_0000_0000);
  }

  /** Integers are written with the most significant byte first. */
  lemma IntegersOnWire()
    ensures forall v: u8 :: BigEndian(1, v) == One(v)
    ensures forall v: u16 :: BigEndian(2, v) == Two(v)
    ensures forall v: u32 :: BigEndian(4, v) == Four(v)
    ensures forall v: u64 :: BigEndian(8, v) == Eight(v)
  {
    hide BigEndian;
    hide One;
    hide Two;
    hide Four;
    hide Eight;
    forall v: u8 ensures BigEndian(1, v) == One(v) {
      OneOnWire(v);
    }
    forall v: u16 ensures BigEndian(2, v) == Two(v) {
      TwoOnWire(v);
    }
    forall v: u32 ensures BigEndian(4, v) == Four(v) {
      FourOnWire(v);
    }
    forall v: u64 ensures BigEndian(8, v) == Eight(v) {
      EightOnWire(v);
    }
  }

  // ----- frames ------------------------------------------------------------------------------

  function HeaderOnWire(kind: u8, flags: u8, codec: u8, extensionSize: u16, id: u64, methodSize: u32, payloadSize: u32)
    : bytes
  {
    [0x4E, 0x52, 1, kind as byte, flags as byte, codec as byte]
    + Two(extensionSize) + Eight(id) + Four(methodSize) + Four(payloadSize)
  }

  /** Sizes that fit the fields of a header. */
  predicate Expressible(methodSize: nat, extensionSize: nat, payloadSize: nat) {
    methodSize < 0x1_0000_0000 && extensionSize < 0x1_0000 && payloadSize < 0x1_0000_0000
  }

  predicate ShortValues(m: ExtensionMap) {
    forall t :: t in m ==> |m[t]| < 0x1_0000
  }

  /** Flags with the bit for extensions, 4, set as it should be. */
  function ExtensionFlag(flags: u8, on: bool): (r: u8)
  {
    var cleared := flags - 4 * (flags / 4 % 2);
    if on then cleared + 4 else cleared
  }

  function FrameOnWire(kind: u8, flags: u8, codec: u8, id: u64, method_: bytes, extensions: bytes, payload: bytes)
    : bytes
    requires Expressible(|method_|, |extensions|, |payload|)
  {
    HeaderOnWire(kind, ExtensionFlag(flags, extensions != []), codec, |extensions|, id, |method_|, |payload|)
    + method_ + extensions + payload
  }

  /** A frame is its header, then the method, the extensions and the payload, or nothing if a length does not fit. */
  lemma FramesOnWire(f: FrameParts)
    ensures var extensions := EncodeTlvs(f.extensions);
      Encode(f)
      == if ShortValues(f.extensions) && Expressible(|f.methodBytes|, |extensions|, |f.payload|)
         then FrameOnWire(f.header.kind, f.header.flags, f.header.codec, f.header.id, f.methodBytes, extensions,
                          f.payload)
         else []
  {
    hide EncodeTlvs;
    hide HeaderBytes;
    hide Two;
    hide Four;
    hide Eight;
    if Encodable(f) {
      HeadersOnWire(Normalized(f));
      assert WithFlag(f.header.flags, HasExtensions, EncodeTlvs(f.extensions) != [])
          == ExtensionFlag(f.header.flags, EncodeTlvs(f.extensions) != []);
    }
  }

  lemma HeadersOnWire(h: Header)
    ensures HeaderBytes(h)
         == Two(h.magic) + [h.version as byte, h.kind as byte, h.flags as byte, h.codec as byte]
            + Two(h.extensionSize) + Eight(h.id) + Four(h.methodSize) + Four(h.payloadSize)
    ensures Two(0x4E52) == [0x4E, 0x52]
  {
    hide BigEndian;
    hide Two;
    hide Four;
    hide Eight;
    IntegersOnWire();
    TwoMagic();
  }

  lemma TwoMagic()
    ensures Two(0x4E52) == [0x4E, 0x52]
  {
  }

  /** A frame whose lengths fit is read back if and only if its kind is one of the five and no extension is critical. */
  lemma KindsParse(f: FrameParts)
    requires ShortValues(f.extensions) && Expressible(|f.methodBytes|, |EncodeTlvs(f.extensions)|, |f.payload|)
    ensures FrameCodec.Parse(Encode(f)).Some?
       <==> f.header.kind in {REQUEST, RESPONSE, NOTIFY, CANCEL, HELLO} && forall t :: t in f.extensions ==> t < 0x8000
  {
    hide EncodeTlvs;
    hide Encode;
    hide FrameCodec.Parse;
    FrameCodec.ParseEncoded(f);
    FrameSize(f);
    hide Encodable;
  }

  // ----- extensions --------------------------------------------------------------------------

  function TlvOnWire(t: u16, value: bytes): bytes
    requires |value| < 0x1_0000
  {
    Two(t) + Two(|value|) + value
  }

  lemma SingleOnWire(t: ExtensionType, value: bytes)
    requires |value| < 0x1_0000
    ensures EncodeTlvs(map[t := value]) == TlvOnWire(t as int, value)
  {
    hide Ascending;
    hide BigEndian;
    var m := map[t := value];
    TwoOnWire(t as int);
    TwoOnWire(|value|);
    SortedIsAscending([t], m.Keys);
    SingleLayout(t, m);
    hide Layout;
  }

  lemma SingleLayout(t: ExtensionType, m: ExtensionMap)
    requires t in m
    ensures Layout([t], m) == BigEndian(2, t as int) + BigEndian(2, |m[t]|) + m[t]
  {
    hide BigEndian;
    assert [t][1..] == [];
  }

  lemma NothingOnWire()
    ensures EncodeTlvs(map[]) == []
  {
    hide Ascending;
    var m: ExtensionMap := map[];
    assert m.Keys == {};
    SortedIsAscending([], {});
  }

  lemma {:induction false} SortedUnique(a: seq<ExtensionType>, b: seq<ExtensionType>)
    requires Increasing(a) && Increasing(b) && forall t :: t in a <==> t in b
    ensures a == b
  {
    if b != [] {
      assert b[0] in a;
    }
    if a == [] {
      assert b == [];
    } else {
      assert a[0] in b;
      FirstIsLeast(a, b[0]);
      FirstIsLeast(b, a[0]);
      RestIsSorted(a);
      RestIsSorted(b);
      SortedUnique(a[1..], b[1..]);
      assert a == [a[0]] + a[1..] && b == [b[0]] + b[1..];
    }
  }

  lemma FirstIsLeast(a: seq<ExtensionType>, t: ExtensionType)
    requires Increasing(a) && t in a
    ensures a[0] <= t
  {
    var i :| 0 <= i < |a| && a[i] == t;
  }

  lemma RestIsSorted(a: seq<ExtensionType>)
    requires a != [] && Increasing(a)
    ensures Increasing(a[1..]) && forall t :: t in a[1..] <==> t in a && t != a[0]
  {
    forall t | t in a && t != a[0] ensures t in a[1..] {
      var i :| 0 <= i < |a| && a[i] == t;
      assert a[1..][i - 1] == t;
    }
  }

  lemma SortedIsAscending(types: seq<ExtensionType>, s: set<ExtensionType>)
    requires Increasing(types) && forall t :: t in types <==> t in s
    ensures Ascending(s, 0) == types
  {
    AscendingLists(s);
    SortedUnique(Ascending(s, 0), types);
  }

  /** Extensions of lower types come first. */
  lemma JoinedOnWire(a: ExtensionMap, b: ExtensionMap)
    requires forall s, t :: s in a && t in b ==> s < t
    ensures EncodeTlvs(a + b) == EncodeTlvs(a) + EncodeTlvs(b)
  {
    hide Ascending;
    hide Layout;
    var first, second := Ascending(a.Keys, 0), Ascending(b.Keys, 0);
    AscendingLists(a.Keys);
    AscendingLists(b.Keys);
    forall i, j | 0 <= i < j < |first + second| ensures (first + second)[i] < (first + second)[j] {
      if i < |first| <= j {
        assert first[i] in a && second[j - |first|] in b;
      }
    }
    SortedIsAscending(first + second, (a + b).Keys);
    LayoutInTwo(first, second, a + b);
    SameLayout(first, a + b, a);
    SameLayout(second, a + b, b);
  }

  lemma {:induction false} LayoutInTwo(a: seq<ExtensionType>, b: seq<ExtensionType>, m: ExtensionMap)
    requires forall t :: t in a + b ==> t in m
    ensures Layout(a + b, m) == Layout(a, m) + Layout(b, m)
  {
    if a == [] {
      assert a + b == b;
    } else {
      assert (a + b)[1..] == a[1..] + b;
      LayoutInTwo(a[1..], b, m);
    }
  }

  lemma {:induction false} SameLayout(types: seq<ExtensionType>, m: ExtensionMap, n: ExtensionMap)
    requires forall t :: t in types ==> t in m && t in n && m[t] == n[t]
    ensures Layout(types, m) == Layout(types, n)
  {
    if types != [] {
      SameLayout(types[1..], m, n);
    }
  }

  // ----- what the backend sends --------------------------------------------------------------

  /** Sizes within an endpoint's limits. */
  predicate Admitted(limits: FrameLimits, methodSize: nat, extensionSize: nat, payloadSize: nat) {
    && Expressible(methodSize, extensionSize, payloadSize)
    && methodSize <= limits.maxMethodBytes && extensionSize <= limits.maxExtensionBytes
    && payloadSize <= limits.maxPayloadBytes
    && 24 + methodSize + extensionSize + payloadSize <= limits.maxFrameBytes
  }

  /** A payload worth compressing: not empty, and at least as long as the session wants. */
  predicate Worth(session: CompressionSession, payload: bytes) {
    session.enabled && payload != [] && |payload| >= session.minPayloadSize
  }

  /** It goes out compressed: run lengths were agreed on and make it smaller. */
  predicate GoesCompressed(session: CompressionSession, payload: bytes) {
    Worth(session, payload) && session.algorithm == RunLengthCoding && |RunLength.Compress(payload, 0)| < |payload|
  }

  function Body(session: CompressionSession, payload: bytes): bytes {
    if GoesCompressed(session, payload) then RunLength.Compress(payload, 0) else payload
  }

  /**
   * A frame other than a hello goes out if and only if its algorithm is known, unless its payload is left alone,
   * and its sizes are within the sender's limits; and then with its payload compressed, and flagged 8, exactly
   * when that is worth it.
   */
  lemma OutgoingOnWire(options: CompressionOptions, session: CompressionSession, f: FrameParts)
    requires 1 <= f.header.kind <= 4 && f.header.flags < 8
    ensures var extensions, body := EncodeTlvs(f.extensions), Body(session, f.payload);
      var sent := EncodeOutgoing(options, session, f);
      && (sent.Ok? <==>
            && !(Worth(session, f.payload) && session.algorithm.Unknown?)
            && ShortValues(f.extensions)
            && Admitted(options.limits, |f.methodBytes|, |extensions|, |body|))
      && (sent.Ok? ==>
            && Expressible(|f.methodBytes|, |extensions|, |body|)
            && sent.value
               == FrameOnWire(f.header.kind, f.header.flags + (if GoesCompressed(session, f.payload) then 8 else 0),
                              f.header.codec, f.header.id, f.methodBytes, extensions, body))
  {
    hide EncodeTlvs;
    hide Encode;
    hide FrameOnWire;
    hide HeaderBodySize;
    hide RunLength.Compress;
    LowFlags(f.header.flags);
    var out := Outgoing(session, f);
    if out.Ok? {
      FramesOnWire(out.value);
      EncodedFrameIsValid(out.value, f.header.codec, options.limits);
      CheckedIsValid(out.value, options.limits);
      FrameSize(out.value);
    }
  }

  lemma LowFlags(flags: u8)
    requires flags < 8
    ensures !HasFlag(flags, Compressed) && WithFlag(flags, Compressed, true) == flags + 8
  {
  }

  lemma CheckedIsValid(f: FrameParts, limits: FrameLimits)
    ensures EncodeChecked(f, limits).Ok? <==> ValidFrame(Encode(f), f.header.codec, limits)
    ensures EncodeChecked(f, limits).Ok? ==> EncodeChecked(f, limits).value == Encode(f)
  {
    hide Encode;
    hide HeaderBodySize;
  }

  lemma FrameSize(f: FrameParts)
    ensures Encodable(f) ==> |Encode(f)| == 24 + |f.methodBytes| + |EncodeTlvs(f.extensions)| + |f.payload|
    ensures Encodable(f) <==>
      ShortValues(f.extensions) && Expressible(|f.methodBytes|, |EncodeTlvs(f.extensions)|, |f.payload|)
  {
    hide EncodeTlvs;
    hide HeaderBytes;
  }

  // ----- requests ----------------------------------------------------------------------------

  /** The entry a request names its method by, if it does so by id. */
  function Chosen(session: Session, name: bytes): Option<MethodEntries.Entry>
    requires Tables.Sound(session.remote)
  {
    if session.methodIdEnabled then Tables.Lookup(session.remote, name) else None
  }

  function MethodOnWire(session: Session, name: bytes): bytes
    requires Tables.Sound(session.remote)
  {
    var e := Chosen(session, name);
    if e.Some? then Eight(e.value.id) else name
  }

  /** By id a request carries the table's version as extension 2 and the method's signature as extension 5. */
  function IdExtensions(session: Session, name: bytes): bytes
    requires Tables.Sound(session.remote)
  {
    var e := Chosen(session, name);
    if e.Some? then TlvOnWire(2, Eight(session.remote.version)) + TlvOnWire(5, Eight(e.value.signatureHash)) else []
  }

  /**
   * When a call or a notification is encoded, and its bytes: kind 1 or 3, flag 2 for a method id, flag 8 for a
   * compressed payload.
   */
  lemma RequestsOnWire(options: Options, session: Session, name: bytes, id: u64, notification: bool, payload: bytes)
    requires Tables.Sound(session.remote)
    ensures var method_, extensions := MethodOnWire(session, name), IdExtensions(session, name);
      var body := Body(Coding(session), payload);
      var sent := EncodeRequest(options, session, name, id, notification, payload);
      && (sent.Ok? <==>
            && !(Worth(Coding(session), payload) && session.algorithm.Unknown?)
            && Admitted(options.limits, |method_|, |extensions|, |body|))
      && (sent.Ok? ==>
            && Expressible(|method_|, |extensions|, |body|)
            && sent.value
               == FrameOnWire(if notification then 3 else 1,
                              (if Chosen(session, name).Some? then 2 else 0)
                              + (if GoesCompressed(Coding(session), payload) then 8 else 0),
                              0, id, method_, extensions, body))
  {
    hide EncodeTlvs;
    hide Tables.Sound;
    hide FrameOnWire;
    hide EncodeOutgoing;
    hide Body;
    hide GoesCompressed;
    hide Worth;
    hide Eight;
    var f := RequestFrame(session, name, id, notification, payload);
    OutgoingOnWire(CodingOptions(options), Coding(session), f);
    IdsOnWire(session, name, id, notification, payload);
  }

  lemma IdsOnWire(session: Session, name: bytes, id: u64, notification: bool, payload: bytes)
    requires Tables.Sound(session.remote)
    ensures var f := RequestFrame(session, name, id, notification, payload);
      && EncodeTlvs(f.extensions) == IdExtensions(session, name) && f.methodBytes == MethodOnWire(session, name)
      && ShortValues(f.extensions)
  {
    hide EncodeTlvs;
    hide Tables.Sound;
    hide Eight;
    hide BigEndian;
    hide TlvOnWire;
    NothingOnWire();
    var e := Chosen(session, name);
    if e.Some? {
      EightOnWire(session.remote.version);
      EightOnWire(e.value.signatureHash);
      EightOnWire(e.value.id);
      TwoOnTheWire(2, Eight(session.remote.version), 5, Eight(e.value.signatureHash));
    }
  }

  lemma TwoOnTheWire(s: ExtensionType, a: bytes, t: ExtensionType, b: bytes)
    requires s < t && |a| < 0x1_0000 && |b| < 0x1_0000
    ensures EncodeTlvs(map[s := a, t := b]) == TlvOnWire(s as int, a) + TlvOnWire(t as int, b)
  {
    hide EncodeTlvs;
    hide TlvOnWire;
    assert map[s := a, t := b] == map[s := a] + map[t := b];
    JoinedOnWire(map[s := a], map[t := b]);
    SingleOnWire(s, a);
    SingleOnWire(t, b);
  }

  // ----- responses ---------------------------------------------------------------------------

  /** A response as the session wants it. */
  function CodedOnWire(session: CompressionSession, flags: u8, id: u64, extensions: bytes, payload: bytes): bytes
    requires flags <= 1 && Expressible(0, |extensions|, |Body(session, payload)|)
  {
    FrameOnWire(2, flags + (if GoesCompressed(session, payload) then 8 else 0), 0, id, [], extensions,
                Body(session, payload))
  }

  predicate GoesCoded(options: Options, session: CompressionSession, extensionSize: nat, payload: bytes) {
    && !(Worth(session, payload) && session.algorithm.Unknown?)
    && Admitted(options.limits, 0, extensionSize, |Body(session, payload)|)
  }

  /** A result has kind 2, no method and no extensions; an error flag 1 as well, and the extensions it came with. */
  lemma ResponsesOnWire(options: Options, session: Session, e: ErrorResponse, isError: bool, payload: bytes)
    ensures var f := if isError then ErrorFrame(e, payload) else ResultFrame(e.id, payload);
      var flags, extensions := if isError then 1 else 0, if isError then EncodeTlvs(e.extensions) else [];
      EncodeResponse(options, session, f)
      == if isError && !ShortValues(e.extensions) then []
         else if GoesCoded(options, Coding(session), |extensions|, payload)
         then CodedOnWire(Coding(session), flags, e.id, extensions, payload)
         else if Admitted(options.limits, 0, |extensions|, |payload|)
         then FrameOnWire(2, flags, 0, e.id, [], extensions, payload)
         else []
  {
    hide EncodeTlvs;
    hide FrameOnWire;
    hide EncodeOutgoing;
    hide Encode;
    hide ValidFrame;
    hide Body;
    hide GoesCompressed;
    hide Worth;
    var f := if isError then ErrorFrame(e, payload) else ResultFrame(e.id, payload);
    NothingOnWire();
    OutgoingOnWire(CodingOptions(options), Coding(session), f);
    FramesOnWire(f);
    EncodedFrameIsValid(f, CODEC_ID, options.limits);
    FrameSize(f);
    hide Encodable;
  }

  // ----- hello and tables --------------------------------------------------------------------

  /** What a client offers: extension 1 for method ids; 16, 17 with run lengths as 1, and 18 for compression. */
  lemma ClientHelloOnWire(options: Options)
    ensures EncodeTlvs(ClientHello(options))
         == (if options.methodId.Disable? then [] else [0, 1, 0, 0])
            + (if options.compression.Disable? then []
               else [0, 16, 0, 0] + (([0, 17, 0, 1] + [1]) + ([0, 18, 0, 4] + Four(options.compressionMinPayloadSize))))
  {
    hide EncodeTlvs;
    hide BigEndian;
    hide Four;
    NothingOnWire();
    IntegersOnWire();
    var ids: ExtensionMap := if options.methodId.Disable? then map[] else map[METHOD_ID := []];
    SingleOnWire(METHOD_ID, []);
    CompressionOnWire(RunLengthCoding, options.compressionMinPayloadSize);
    if !options.compression.Disable? {
      JoinedOnWire(ids, CompressionTlvs(RunLengthCoding, options.compressionMinPayloadSize));
    }
  }

  function CompressionTlvs(algorithm: Algorithm, minimum: u32): ExtensionMap {
    map[COMPRESSION := [],
        COMPRESSION_ALGORITHM := BigEndian(1, AlgorithmCode(algorithm)),
        COMPRESSION_MIN_PAYLOAD_SIZE := BigEndian(4, minimum)]
  }

  lemma CompressionOnWire(algorithm: Algorithm, minimum: u32)
    ensures EncodeTlvs(CompressionTlvs(algorithm, minimum))
         == [0, 16, 0, 0] + (([0, 17, 0, 1] + [AlgorithmCode(algorithm) as byte]) + ([0, 18, 0, 4] + Four(minimum)))
  {
    hide EncodeTlvs;
    hide BigEndian;
    hide Four;
    IntegersOnWire();
    hide AlgorithmCode;
    var code, size := BigEndian(1, AlgorithmCode(algorithm)), BigEndian(4, minimum);
    var rest := map[COMPRESSION_ALGORITHM := code, COMPRESSION_MIN_PAYLOAD_SIZE := size];
    ThreeTlvs(code, size);
    JoinedOnWire(map[COMPRESSION := []], rest);
    SingleOnWire(COMPRESSION, []);
    TwoOnTheWire(COMPRESSION_ALGORITHM, code, COMPRESSION_MIN_PAYLOAD_SIZE, size);
    SpelledTlvs(0);
    SpelledCompression(AlgorithmCode(algorithm), minimum);
    hide TlvOnWire;
  }

  lemma ThreeTlvs(code: bytes, size: bytes)
    ensures map[COMPRESSION := [], COMPRESSION_ALGORITHM := code, COMPRESSION_MIN_PAYLOAD_SIZE := size]
         == map[COMPRESSION := []] + map[COMPRESSION_ALGORITHM := code, COMPRESSION_MIN_PAYLOAD_SIZE := size]
  {
  }

  /** A hello is a frame of kind 5 with extensions only. */
  lemma HellosOnWire(m: ExtensionMap)
    ensures FrameCodec.Encode(PeerSession.HelloFrame(m))
         == if ShortValues(m) && |EncodeTlvs(m)| < 0x1_0000 then FrameOnWire(5, 0, 0, 0, [], EncodeTlvs(m), []) else []
  {
    hide EncodeTlvs;
    hide Encode;
    hide FrameOnWire;
    FramesOnWire(PeerSession.HelloFrame(m));
  }

  /** A table is extensions 1, 2 with its version, 3 with its entries if they are sent, 6 with its minimum version. */
  lemma TablesOnWire(t: Tables.Table, includeTable: bool)
    requires |MethodEntries.Encode(t.entries)| < 0x1_0000
    ensures EncodeTlvs(TableExtensions(t, includeTable))
         == [0, 1, 0, 0] + ([0, 2, 0, 8] + Eight(t.version))
            + (if includeTable
               then TlvOnWire(3, MethodEntries.Encode(t.entries)) + ([0, 6, 0, 8] + Eight(t.minVersion))
               else [0, 6, 0, 8] + Eight(t.minVersion))
  {
    hide EncodeTlvs;
    hide BigEndian;
    hide Eight;
    hide MethodEntries.Encode;
    EightOnWire(t.version);
    EightOnWire(t.minVersion);
    var first, last := FirstTlvs(t), LastTlvs(t, includeTable);
    TwoOnTheWire(METHOD_ID, [], METHOD_TABLE_VERSION, BigEndian(8, t.version));
    SingleOnWire(METHOD_MINIMUM_COMPATIBLE_VERSION, BigEndian(8, t.minVersion));
    TwoOnTheWire(METHOD_TABLE, MethodEntries.Encode(t.entries),
                 METHOD_MINIMUM_COMPATIBLE_VERSION, BigEndian(8, t.minVersion));
    TableParts(t, includeTable);
    JoinedOnWire(first, last);
    SpelledTlvs(t.version);
    SpelledTlvs(t.minVersion);
    hide TableExtensions;
    hide TlvOnWire;
  }

  lemma SpelledTlvs(v: u64)
    ensures TlvOnWire(1, []) == [0, 1, 0, 0] && TlvOnWire(16, []) == [0, 16, 0, 0]
    ensures TlvOnWire(2, Eight(v)) == [0, 2, 0, 8] + Eight(v) && TlvOnWire(6, Eight(v)) == [0, 6, 0, 8] + Eight(v)
  {
  }

  lemma SpelledCompression(code: u8, minimum: u32)
    ensures TlvOnWire(17, One(code)) == [0, 17, 0, 1] + [code as byte]
    ensures TlvOnWire(18, Four(minimum)) == [0, 18, 0, 4] + Four(minimum)
  {
  }

  function FirstTlvs(t: Tables.Table): ExtensionMap {
    map[METHOD_ID := [], METHOD_TABLE_VERSION := BigEndian(8, t.version)]
  }

  function LastTlvs(t: Tables.Table, includeTable: bool): ExtensionMap {
    if includeTable
    then map[METHOD_TABLE := MethodEntries.Encode(t.entries),
             METHOD_MINIMUM_COMPATIBLE_VERSION := BigEndian(8, t.minVersion)]
    else map[METHOD_MINIMUM_COMPATIBLE_VERSION := BigEndian(8, t.minVersion)]
  }

  lemma TableParts(t: Tables.Table, includeTable: bool)
    ensures TableExtensions(t, includeTable) == FirstTlvs(t) + LastTlvs(t, includeTable)
  {
    hide BigEndian;
    hide MethodEntries.Encode;
  }

  /** A table is sent whole if it takes no more than its budget and 65535 bytes, 32 of them beside the entries. */
  lemma TablesWithinBudget(options: Options, t: Tables.Table)
    ensures FitsBudget(options, TableExtensions(t, true))
       <==> 32 + |MethodEntries.Encode(t.entries)| < 0x1_0000
            && 32 + |MethodEntries.Encode(t.entries)| <= options.maxAutoMethodTableExtensionBytes
  {
    hide EncodeTlvs;
    hide MethodEntries.Encode;
    var m := TableExtensions(t, true);
    assert METHOD_TABLE in m && m[METHOD_TABLE] == MethodEntries.Encode(t.entries);
    if |MethodEntries.Encode(t.entries)| < 0x1_0000 {
      TablesOnWire(t, true);
      assert Fits(m);
    }
  }

  /** What a server answers a hello with: the table, as far as it goes, and then compression. */
  lemma ServerHelloOnWire(options: Options, t: Tables.Table, session: Session)
    ensures EncodeTlvs(ServerHello(options, t, session))
         == (if session.methodIdEnabled then EncodeTlvs(BudgetedTable(options, t)) else [])
            + (if session.compressionEnabled
               then [0, 16, 0, 0] + (([0, 17, 0, 1] + [AlgorithmCode(session.algorithm) as byte])
                                     + ([0, 18, 0, 4] + Four(session.minPayloadSize)))
               else [])
  {
    hide EncodeTlvs;
    hide Four;
    hide BigEndian;
    hide AlgorithmCode;
    hide FitsBudget;
    hide MethodEntries.Encode;
    NothingOnWire();
    var base: ExtensionMap := if session.methodIdEnabled then BudgetedTable(options, t) else map[];
    if session.compressionEnabled {
      JoinedOnWire(base, CompressionTlvs(session.algorithm, session.minPayloadSize));
      CompressionOnWire(session.algorithm, session.minPayloadSize);
    }
  }

  /** The entries of a table: the format 2, how many there are, then each with its id, state, signature and name. */
  lemma EntriesOnWire(entries: seq<MethodEntries.Entry>)
    requires |entries| < 0x1_0000_0000 && forall e :: e in entries ==> |e.name| < 0x1_0000
    ensures MethodEntries.Encode(entries) == [2] + Four(|entries|) + MethodEntries.EntriesBytes(entries)
    ensures forall e :: e in entries ==>
              MethodEntries.EntryBytes(e)
              == Eight(e.id) + [if e.state.Active? then 0 else 1] + Eight(e.signatureHash) + Two(|e.name|) + e.name
  {
    hide BigEndian;
    hide One;
    hide Two;
    hide Four;
    hide Eight;
    hide MethodEntries.EntryBytes;
    hide MethodEntries.EntriesBytes;
    MethodEntries.KeptAll(entries);
    OneOnWire(2);
    assert One(2) == [2] by { TwoSpelled(); }
    FourOnWire(|entries|);
    forall e | e in entries
      ensures MethodEntries.EntryBytes(e)
           == Eight(e.id) + [if e.state.Active? then 0 else 1] + Eight(e.signatureHash) + Two(|e.name|) + e.name
    {
      EntryOnWire(e);
    }
  }

  lemma TwoSpelled()
    ensures One(2) == [2] && One(0) == [0] && One(1) == [1]
  {
  }

  lemma EntryOnWire(e: MethodEntries.Entry)
    requires |e.name| < 0x1_0000
    ensures MethodEntries.EntryBytes(e)
         == Eight(e.id) + [if e.state.Active? then 0 else 1] + Eight(e.signatureHash) + Two(|e.name|) + e.name
  {
    hide BigEndian;
    hide One;
    hide Two;
    hide Four;
    hide Eight;
    EightOnWire(e.id);
    EightOnWire(e.signatureHash);
    TwoOnWire(|e.name|);
    OneOnWire(if e.state.Active? then 0 else 1);
    TwoSpelled();
  }
}
