/** Neko-RPC frames: a 24-byte big-endian header, then method, extension and payload bytes. */
module FrameCodec {
  import opened Bytes
  import opened Wrappers
  import opened ExtensionCodec

  const MAGIC: u16 := 0x4E52
  const VERSION: u8 := 1
  const HEADER_SIZE := 24

  const REQUEST: u8 := 1
  const RESPONSE: u8 := 2
  const NOTIFY: u8 := 3
  const CANCEL: u8 := 4
  const HELLO: u8 := 5

  datatype Header = Header(
    magic: u16, version: u8, kind: u8, flags: u8, codec: u8,
    extensionSize: u16, id: u64, methodSize: u32, payloadSize: u32)

  datatype FrameParts = FrameParts(header: Header, methodBytes: bytes, extensions: ExtensionMap, payload: bytes)

  datatype FrameLimits = FrameLimits(
    maxFrameBytes: u64, maxMethodBytes: u64, maxPayloadBytes: u64, maxExtensionBytes: u64)

  datatype Flag = Error | MethodId | HasExtensions | Compressed

  /** The bit a flag occupies in the flags byte. */
  function Bit(flag: Flag): u8 {
    match flag
    case Error => 1
    case MethodId => 2
    case HasExtensions => 4
    case Compressed => 8
  }

  predicate HasFlag(flags: u8, flag: Flag) {
    match flag
    case Error => flags % 2 == 1
    case MethodId => (flags / 2) % 2 == 1
    case HasExtensions => (flags / 4) % 2 == 1
    case Compressed => (flags / 8) % 2 == 1
  }

  /** flags with one bit set or cleared. */
  function WithFlag(flags: u8, flag: Flag, on: bool): (r: int) {
    if on == HasFlag(flags, flag) then flags else if on then flags + Bit(flag) else flags - Bit(flag)
  }

  lemma Decompose(flags: u8) returns (b0: nat, b1: nat, b2: nat, b3: nat, high: nat)
    ensures b0 < 2 && b1 < 2 && b2 < 2 && b3 < 2 && high < 16
    ensures flags == b0 + 2 * b1 + 4 * b2 + 8 * b3 + 16 * high
    ensures HasFlag(flags, Error) == (b0 == 1)
    ensures HasFlag(flags, MethodId) == (b1 == 1)
    ensures HasFlag(flags, HasExtensions) == (b2 == 1)
    ensures HasFlag(flags, Compressed) == (b3 == 1)
  {
    var half := flags / 2;
    var quarter := half / 2;
    var eighth := quarter / 2;
    b0, b1, b2, b3, high := flags % 2, half % 2, quarter % 2, eighth % 2, eighth / 2;
    assert quarter == flags / 4 && eighth == flags / 8;
  }

  lemma Recompose(b0: nat, b1: nat, b2: nat, b3: nat, high: nat)
    requires b0 < 2 && b1 < 2 && b2 < 2 && b3 < 2 && high < 16
    ensures var flags := b0 + 2 * b1 + 4 * b2 + 8 * b3 + 16 * high;
      && flags < 0x100
      && HasFlag(flags, Error) == (b0 == 1) && HasFlag(flags, MethodId) == (b1 == 1)
      && HasFlag(flags, HasExtensions) == (b2 == 1) && HasFlag(flags, Compressed) == (b3 == 1)
  {
    var flags := b0 + 2 * b1 + 4 * b2 + 8 * b3 + 16 * high;
    assert flags / 2 == b1 + 2 * b2 + 4 * b3 + 8 * high;
    assert flags / 4 == b2 + 2 * b3 + 4 * high;
    assert flags / 8 == b3 + 2 * high;
  }

  /** Setting or clearing one flag does that and leaves the others alone. */
  lemma FlagUpdates(flags: u8, flag: Flag, on: bool)
    ensures 0 <= WithFlag(flags, flag, on) < 0x100
    ensures HasFlag(WithFlag(flags, flag, on), flag) == on
    ensures forall other :: other != flag ==> HasFlag(WithFlag(flags, flag, on), other) == HasFlag(flags, other)
  {
    hide HasFlag;
    var b0, b1, b2, b3, high := Decompose(flags);
    var bit := if on then 1 else 0;
    match flag {
      case Error => Recompose(bit, b1, b2, b3, high);
      case MethodId => Recompose(b0, bit, b2, b3, high);
      case HasExtensions => Recompose(b0, b1, bit, b3, high);
      case Compressed => Recompose(b0, b1, b2, bit, high);
    }
  }

  function NewHeader(kind: u8, flags: u8, codec: u8, id: u64): Header {
    Header(MAGIC, VERSION, kind, flags, codec, 0, id, 0, 0)
  }

  predicate KnownKind(kind: u8) {
    kind == REQUEST || kind == RESPONSE || kind == NOTIFY || kind == CANCEL || kind == HELLO
  }

  predicate ValidHeader(h: Header) {
    h.magic == MAGIC && h.version == VERSION && KnownKind(h.kind)
  }

  /** The high bit of an extension type marks it critical, and no critical type is understood. */
  predicate Supported(m: ExtensionMap) {
    forall t :: t in m ==> t < 0x8000
  }

  // ----- the header ----------------------------------------------------------------

  function HeaderBytes(h: Header): (r: bytes)
    ensures |r| == HEADER_SIZE
  {
    BigEndian(2, h.magic) + BigEndian(1, h.version) + BigEndian(1, h.kind) + BigEndian(1, h.flags)
    + BigEndian(1, h.codec) + BigEndian(2, h.extensionSize) + BigEndian(8, h.id)
    + BigEndian(4, h.methodSize) + BigEndian(4, h.payloadSize)
  }

  /** The integer spelled by the bytes from lo to hi. */
  function Field(data: bytes, lo: nat, hi: nat): (r: nat)
    requires lo <= hi <= |data|
    ensures r < Radix(hi - lo)
  {
    WriteAfterRead(data[lo..hi]);
    FromBigEndian(data[lo..hi])
  }

  function ReadHeader(data: bytes): Header
    requires |data| >= HEADER_SIZE
  {
    Radixes();
    Header(Field(data, 0, 2), Field(data, 2, 3), Field(data, 3, 4), Field(data, 4, 5), Field(data, 5, 6),
           Field(data, 6, 8), Field(data, 8, 16), Field(data, 16, 20), Field(data, 20, 24))
  }

  lemma ReadField(data: bytes, lo: nat, width: nat, value: nat)
    requires value < Radix(width)
    requires lo + width <= |data| && data[lo..lo + width] == BigEndian(width, value)
    ensures Field(data, lo, lo + width) == value
  {
    ReadAfterWrite(width, value);
  }

  lemma ReadWrittenHeader(h: Header, rest: bytes)
    ensures ReadHeader(HeaderBytes(h) + rest) == h
  {
    var data := HeaderBytes(h) + rest;
    Radixes();
    hide BigEndian;
    hide Field;
    ReadField(data, 0, 2, h.magic);
    ReadField(data, 2, 1, h.version);
    ReadField(data, 3, 1, h.kind);
    ReadField(data, 4, 1, h.flags);
    ReadField(data, 5, 1, h.codec);
    ReadField(data, 6, 2, h.extensionSize);
    ReadField(data, 8, 8, h.id);
    ReadField(data, 16, 4, h.methodSize);
    ReadField(data, 20, 4, h.payloadSize);
  }

  lemma WriteReadHeader(data: bytes)
    requires |data| >= HEADER_SIZE
    ensures HeaderBytes(ReadHeader(data)) == data[..HEADER_SIZE]
  {
    hide Field;
    Rewrite(data, 0, 2);
    Rewrite(data, 2, 3);
    Rewrite(data, 3, 4);
    Rewrite(data, 4, 5);
    Rewrite(data, 5, 6);
    Rewrite(data, 6, 8);
    Rewrite(data, 8, 16);
    Rewrite(data, 16, 20);
    Rewrite(data, 20, 24);
    assert data[..0] + data[0..2] == data[0..2];
  }

  lemma Rewrite(data: bytes, lo: nat, hi: nat)
    requires lo <= hi <= |data|
    ensures BigEndian(hi - lo, Field(data, lo, hi)) == data[lo..hi]
    ensures data[..lo] + data[lo..hi] == data[..hi]
  {
    WriteAfterRead(data[lo..hi]);
  }

  // ----- whole frames --------------------------------------------------------------

  /** Body bytes promised by a header; an error when the total would not fit the size type. */
  function FrameBodySize(h: Header): Result<int, WireError> {
    if h.methodSize > SIZE_MAX - h.extensionSize
       || h.methodSize + h.extensionSize > SIZE_MAX - h.payloadSize
       || h.methodSize + h.extensionSize + h.payloadSize > SIZE_MAX - HEADER_SIZE
    then Err(InvalidRequest)
    else Ok(h.methodSize + h.extensionSize + h.payloadSize)
  }

  /** On a 64-bit size type three 32-bit sizes never overflow. */
  lemma BodySizeNeverOverflows(h: Header)
    ensures FrameBodySize(h) == Ok(h.methodSize + h.extensionSize + h.payloadSize)
  {
  }

  /** What the length fields can express. */
  predicate Encodable(f: FrameParts) {
    && Fits(f.extensions)
    && |EncodeTlvs(f.extensions)| <= 0xFFFF
    && |f.methodBytes| <= 0xFFFF_FFFF
    && |f.payload| <= 0xFFFF_FFFF
  }

  /** The header an encoded frame carries: fixed magic and version, true sizes, true extension flag. */
  function Normalized(f: FrameParts): Header
    requires Encodable(f)
  {
    var size := |EncodeTlvs(f.extensions)|;
    FlagUpdates(f.header.flags, HasExtensions, size > 0);
    f.header.(magic := MAGIC, version := VERSION, methodSize := |f.methodBytes|, extensionSize := size,
              payloadSize := |f.payload|, flags := WithFlag(f.header.flags, HasExtensions, size > 0))
  }

  /** The bytes of a frame, or nothing when a length does not fit its field. */
  function Encode(f: FrameParts): (r: bytes)
    ensures r == [] || |r| >= HEADER_SIZE
  {
    if Encodable(f) then
      HeaderBytes(Normalized(f)) + f.methodBytes + EncodeTlvs(f.extensions) + f.payload
    else
      []
  }

  function Parse(data: bytes): Option<FrameParts>
  {
    if |data| < HEADER_SIZE then
      None
    else
      var h := ReadHeader(data);
      var extensionBegin := HEADER_SIZE + h.methodSize;
      var payloadBegin := extensionBegin + h.extensionSize;
      if !ValidHeader(h) || FrameBodySize(h) != Ok(|data| - HEADER_SIZE) then
        None
      else
        var extensions := Load(data[extensionBegin..payloadBegin], map[]);
        if extensions == None || !Supported(extensions.value) then
          None
        else
          Some(FrameParts(h, data[HEADER_SIZE..extensionBegin], extensions.value, data[payloadBegin..]))
  }

  method EncodeFrame(f: FrameParts) returns (out: bytes)
    ensures out == Encode(f)
  {
    var extensions := AppendTlvs([], f.extensions);
    if extensions == None || |f.methodBytes| > 0xFFFF_FFFF || |extensions.value| > 0xFFFF || |f.payload| > 0xFFFF_FFFF {
      assert extensions.Some? ==> extensions.value == EncodeTlvs(f.extensions);
      return [];
    }
    assert extensions.value == EncodeTlvs(f.extensions);
    FlagUpdates(f.header.flags, HasExtensions, extensions.value != []);
    var header := f.header.(
      magic := MAGIC, version := VERSION, methodSize := |f.methodBytes|, extensionSize := |extensions.value|,
      payloadSize := |f.payload|,
      flags := WithFlag(f.header.flags, HasExtensions, extensions.value != []));
    out := AppendHeader(header);
    out := out + f.methodBytes + extensions.value + f.payload;
  }

  method AppendHeader(h: Header) returns (out: bytes)
    ensures out == HeaderBytes(h)
  {
    hide BigEndian;
    Radixes();
    out := AppendInteger([], 2, h.magic);
    assert out == BigEndian(2, h.magic);
    out := AppendInteger(out, 1, h.version);
    out := AppendInteger(out, 1, h.kind);
    out := AppendInteger(out, 1, h.flags);
    out := AppendInteger(out, 1, h.codec);
    out := AppendInteger(out, 2, h.extensionSize);
    out := AppendInteger(out, 8, h.id);
    out := AppendInteger(out, 4, h.methodSize);
    out := AppendInteger(out, 4, h.payloadSize);
  }

  method ParseFrame(data: bytes, codec: u8) returns (r: Option<FrameParts>)
    ensures r == if Parse(data).Some? && Parse(data).value.header.codec == codec then Parse(data) else None
  {
    hide ReadHeader;
    hide Load;
    hide ValidHeader;
    hide Supported;
    hide FrameBodySize;
    if |data| < HEADER_SIZE {
      return None;
    }
    var h := ReadHeader(data);
    BodySizeNeverOverflows(h);
    if !ValidHeader(h) || FrameBodySize(h) != Ok(|data| - HEADER_SIZE) {
      return None;
    }
    var extensionBegin := HEADER_SIZE + h.methodSize;
    var payloadBegin := extensionBegin + h.extensionSize;
    var extensions := LoadTlvs(data[extensionBegin..payloadBegin]);
    if extensions == None || !Supported(extensions.value) || h.codec != codec {
      return None;
    }
    return Some(FrameParts(h, data[HEADER_SIZE..extensionBegin], extensions.value, data[payloadBegin..]));
  }

  /**
   * Parsing an encoded frame returns the method, extensions and payload that went in, under the
   * normalised header, exactly when the frame encodes, its kind is one of the five and no extension is critical.
   */
  lemma ParseEncoded(f: FrameParts)
    ensures Parse(Encode(f))
         == if Encodable(f) && 1 <= f.header.kind <= 5 && Supported(f.extensions)
            then Some(FrameParts(Normalized(f), f.methodBytes, f.extensions, f.payload))
            else None
  {
    hide ReadHeader;
    hide EncodeTlvs;
    hide Load;
    hide HeaderBytes;
    if Encodable(f) {
      FrameSlices(f);
      LoadEncoded(f.extensions);
    }
  }

  /** The four parts of an encoded frame lie where its header says they do. */
  lemma FrameSlices(f: FrameParts)
    requires Encodable(f)
    ensures var h, data := Normalized(f), Encode(f);
      var extensionBegin := HEADER_SIZE + h.methodSize;
      var payloadBegin := extensionBegin + h.extensionSize;
      && |data| == payloadBegin + h.payloadSize
      && ReadHeader(data) == h
      && data[HEADER_SIZE..extensionBegin] == f.methodBytes
      && data[extensionBegin..payloadBegin] == EncodeTlvs(f.extensions)
      && data[payloadBegin..] == f.payload
  {
    hide ReadHeader;
    hide EncodeTlvs;
    hide HeaderBytes;
    var h := Normalized(f);
    var body := f.methodBytes + EncodeTlvs(f.extensions) + f.payload;
    assert Encode(f) == HeaderBytes(h) + body;
    ReadWrittenHeader(h, body);
  }

  /** The extension bytes of a frame that parses. */
  function ExtensionSlice(data: bytes): bytes
    requires Parse(data).Some?
  {
    var h := ReadHeader(data);
    data[HEADER_SIZE + h.methodSize..HEADER_SIZE + h.methodSize + h.extensionSize]
  }

  lemma HeadersDiffer(a: Header, b: Header)
    requires HeaderBytes(a) == HeaderBytes(b)
    ensures a == b
  {
    hide HeaderBytes;
    hide ReadHeader;
    ReadWrittenHeader(a, []);
    ReadWrittenHeader(b, []);
  }

  lemma ParsedSlices(data: bytes)
    requires Parse(data).Some?
    ensures var f := Parse(data).value;
      && Load(ExtensionSlice(data), map[]) == Some(f.extensions) && Fits(f.extensions)
      && f.header == ReadHeader(data) && ValidHeader(f.header)
      && |ExtensionSlice(data)| == f.header.extensionSize
      && |f.methodBytes| == f.header.methodSize && |f.payload| == f.header.payloadSize
      && data == HeaderBytes(f.header) + f.methodBytes + ExtensionSlice(data) + f.payload
  {
    hide ReadHeader;
    hide HeaderBytes;
    var f := Parse(data).value;
    LoadsExactlyTheLayouts(ExtensionSlice(data), f.extensions);
    WriteReadHeader(data);
    InParts(data, HEADER_SIZE, HEADER_SIZE + f.header.methodSize,
            HEADER_SIZE + f.header.methodSize + f.header.extensionSize);
  }

  lemma InParts(data: bytes, a: nat, b: nat, c: nat)
    requires a <= b <= c <= |data|
    ensures data == data[..a] + data[a..b] + data[b..c] + data[c..]
  {
  }

  /**
   * A byte string that parses re-encodes to itself exactly when its extensions are in ascending
   * order and its extension flag is truthful: the only two freedoms the parser grants a sender.
   */
  lemma EncodeParsed(data: bytes)
    requires Parse(data).Some?
    ensures var f := Parse(data).value;
      Encode(f) == data
      <==> ExtensionSlice(data) == EncodeTlvs(f.extensions)
           && HasFlag(f.header.flags, HasExtensions) == (f.extensions != map[])
  {
    hide Parse;
    hide ReadHeader;
    hide HeaderBytes;
    hide EncodeTlvs;
    hide ExtensionSlice;
    var f := Parse(data).value;
    var h, tlvs := f.header, ExtensionSlice(data);
    ParsedSlices(data);
    EncodedEmpty(f.extensions);
    if tlvs == EncodeTlvs(f.extensions) && HasFlag(h.flags, HasExtensions) == (f.extensions != map[]) {
      assert Normalized(f) == h;
    }
    if Encode(f) == data {
      var n, own := Normalized(f), EncodeTlvs(f.extensions);
      assert |own| == |tlvs|;
      assert data == HeaderBytes(n) + f.methodBytes + own + f.payload;
      SameParts(HeaderBytes(h), HeaderBytes(n), f.methodBytes, tlvs, own, f.payload);
      HeadersDiffer(h, n);
      FlagUpdates(h.flags, HasExtensions, |own| > 0);
    }
  }

  lemma SameParts(a: bytes, b: bytes, middle: bytes, c: bytes, d: bytes, end: bytes)
    requires |a| == |b| && |c| == |d|
    requires a + middle + c + end == b + middle + d + end
    ensures a == b && c == d
  {
    var s := a + middle + c + end;
    assert a == s[..|a|] && b == s[..|a|];
    assert c == s[|a| + |middle|..|a| + |middle| + |c|] && d == s[|a| + |middle|..|a| + |middle| + |c|];
  }

  lemma EncodedEmpty(m: ExtensionMap)
    ensures EncodeTlvs(m) == [] <==> m == map[]
  {
    AscendingLists(m.Keys);
    var types := Ascending(m.Keys, 0);
    if types == [] {
      assert forall t :: t !in m;
    } else {
      assert types[0] in m;
    }
  }

  // ----- splitting a byte stream into frames ---------------------------------------------

  /** Body size announced by a 24-byte header, checked against the endpoint's limits. */
  function HeaderBodySize(header: bytes, codec: u8, limits: FrameLimits): (r: Result<int, WireError>)
    ensures r.Ok? ==> r.value >= 0
  {
    if |header| != HEADER_SIZE then
      Err(InvalidRequest)
    else
      var h := ReadHeader(header);
      if !ValidHeader(h) || h.codec != codec then
        Err(InvalidRequest)
      else if h.methodSize > limits.maxMethodBytes || h.payloadSize > limits.maxPayloadBytes
              || h.extensionSize > limits.maxExtensionBytes then
        Err(MessageTooLarge)
      else
        var size := FrameBodySize(h);
        if size.Err? || limits.maxFrameBytes < HEADER_SIZE || size.value > limits.maxFrameBytes - HEADER_SIZE
        then Err(MessageTooLarge)
        else size
  }

  /** A frame that an endpoint with this codec and these limits sends and accepts. */
  predicate ValidFrame(frame: bytes, codec: u8, limits: FrameLimits) {
    |frame| >= HEADER_SIZE && HeaderBodySize(frame[..HEADER_SIZE], codec, limits) == Ok(|frame| - HEADER_SIZE)
  }

  function Concat(frames: seq<bytes>): bytes {
    if frames == [] then [] else frames[0] + Concat(frames[1..])
  }

  datatype ReadOutcome = Frame(frame: bytes, rest: bytes) | EndOfStream | Refused(error: WireError)

  /** One blocking read of a frame from the bytes the peer has sent. */
  function ReadFrame(stream: bytes, codec: u8, limits: FrameLimits): ReadOutcome {
    if |stream| < HEADER_SIZE then
      EndOfStream
    else
      var size := HeaderBodySize(stream[..HEADER_SIZE], codec, limits);
      if size.Err? then Refused(size.error)
      else if |stream| < HEADER_SIZE + size.value then EndOfStream
      else Frame(stream[..HEADER_SIZE + size.value], stream[HEADER_SIZE + size.value..])
  }

  /** The receive loop: reads frames until one is refused or the bytes run out. */
  method ReadFrames(stream: bytes, codec: u8, limits: FrameLimits) returns (frames: seq<bytes>, rest: bytes)
    ensures stream == Concat(frames) + rest
    ensures forall f :: f in frames ==> ValidFrame(f, codec, limits)
    ensures !ReadFrame(rest, codec, limits).Frame?
  {
    hide ReadFrame;
    hide ValidFrame;
    frames, rest := [], stream;
    while true
      invariant stream == Concat(frames) + rest
      invariant forall f :: f in frames ==> ValidFrame(f, codec, limits)
      decreases |rest|
    {
      var next := ReadFrame(rest, codec, limits);
      if !next.Frame? {
        return;
      }
      ReadFrameSplits(rest, codec, limits);
      ConcatSnoc(frames, next.frame);
      frames, rest := frames + [next.frame], next.rest;
    }
  }

  lemma ReadFrameSplits(stream: bytes, codec: u8, limits: FrameLimits)
    requires ReadFrame(stream, codec, limits).Frame?
    ensures var next := ReadFrame(stream, codec, limits);
      stream == next.frame + next.rest && next.frame != [] && ValidFrame(next.frame, codec, limits)
  {
    hide HeaderBodySize;
    var next := ReadFrame(stream, codec, limits);
    assert next.frame[..HEADER_SIZE] == stream[..HEADER_SIZE];
  }

  lemma {:induction false} ConcatSnoc(frames: seq<bytes>, f: bytes)
    ensures Concat(frames + [f]) == Concat(frames) + f
  {
    if frames == [] {
      assert Concat([f]) == f + Concat([]);
    } else {
      ConcatSnoc(frames[1..], f);
      assert (frames + [f])[1..] == frames[1..] + [f];
      assert frames[0] + (Concat(frames[1..]) + f) == (frames[0] + Concat(frames[1..])) + f;
    }
  }

  /** A valid frame at the head of a stream is read off exactly. */
  lemma ReadOneFrame(f: bytes, rest: bytes, codec: u8, limits: FrameLimits)
    requires ValidFrame(f, codec, limits)
    ensures ReadFrame(f + rest, codec, limits) == Frame(f, rest)
  {
    hide HeaderBodySize;
    var stream := f + rest;
    assert stream[..HEADER_SIZE] == f[..HEADER_SIZE];
    assert stream[..|f|] == f && stream[|f|..] == rest;
  }

  /**
   * A stream splits into valid frames and a remainder with no further frame in one way only, so a
   * receiver gets back exactly the frames that were written, whatever follows them.
   */
  lemma {:induction false} SplittingIsUnique(
    sent: seq<bytes>, frames: seq<bytes>, sentRest: bytes, rest: bytes, codec: u8, limits: FrameLimits)
    requires Concat(sent) + sentRest == Concat(frames) + rest
    requires forall f :: f in sent || f in frames ==> ValidFrame(f, codec, limits)
    requires !ReadFrame(sentRest, codec, limits).Frame? && !ReadFrame(rest, codec, limits).Frame?
    ensures sent == frames && sentRest == rest
  {
    hide ReadFrame;
    hide ValidFrame;
    var stream := Concat(sent) + sentRest;
    if sent != [] {
      assert stream == sent[0] + (Concat(sent[1..]) + sentRest);
      ReadOneFrame(sent[0], Concat(sent[1..]) + sentRest, codec, limits);
    } else {
      assert stream == sentRest;
    }
    if frames != [] {
      assert stream == frames[0] + (Concat(frames[1..]) + rest);
      ReadOneFrame(frames[0], Concat(frames[1..]) + rest, codec, limits);
    } else {
      assert stream == rest;
    }
    if sent != [] && frames != [] {
      assert forall f :: f in sent[1..] ==> f in sent;
      assert forall f :: f in frames[1..] ==> f in frames;
      SplittingIsUnique(sent[1..], frames[1..], sentRest, rest, codec, limits);
      assert sent == [sent[0]] + sent[1..] && frames == [frames[0]] + frames[1..];
    }
  }

  /** A header is read from the first 24 bytes alone. */
  lemma HeaderOfPrefix(data: bytes)
    requires |data| >= HEADER_SIZE
    ensures ReadHeader(data[..HEADER_SIZE]) == ReadHeader(data)
  {
    hide HeaderBytes;
    WriteReadHeader(data);
    ReadWrittenHeader(ReadHeader(data), []);
    assert HeaderBytes(ReadHeader(data)) + [] == data[..HEADER_SIZE];
  }

  lemma HeaderPrefix(f: FrameParts)
    requires Encodable(f)
    ensures ReadHeader(Encode(f)[..HEADER_SIZE]) == Normalized(f)
  {
    hide ReadHeader;
    hide EncodeTlvs;
    hide HeaderBytes;
    var h := Normalized(f);
    ReadWrittenHeader(h, []);
    assert Encode(f)[..HEADER_SIZE] == HeaderBytes(h) + [];
  }

  /** Why a header is refused: it is not one of this protocol and codec, or promises more than the limits allow. */
  lemma HeaderVerdict(h: Header, codec: u8, limits: FrameLimits)
    ensures var body := h.methodSize + h.extensionSize + h.payloadSize;
      HeaderBodySize(HeaderBytes(h), codec, limits)
      == if h.magic != 0x4E52 || h.version != 1 || !(1 <= h.kind <= 5) || h.codec != codec then Err(InvalidRequest)
         else if h.methodSize > limits.maxMethodBytes || h.extensionSize > limits.maxExtensionBytes
                 || h.payloadSize > limits.maxPayloadBytes || 24 + body > limits.maxFrameBytes
         then Err(MessageTooLarge)
         else Ok(body)
  {
    hide ReadHeader;
    hide HeaderBytes;
    ReadWrittenHeader(h, []);
    assert HeaderBytes(h) + [] == HeaderBytes(h);
  }

  /** Which encoded frames a stream endpoint lets through. */
  lemma EncodedFrameIsValid(f: FrameParts, codec: u8, limits: FrameLimits)
    ensures ValidFrame(Encode(f), codec, limits)
       <==> && Encodable(f) && 1 <= f.header.kind <= 5 && f.header.codec == codec
            && |f.methodBytes| <= limits.maxMethodBytes && |f.payload| <= limits.maxPayloadBytes
            && |EncodeTlvs(f.extensions)| <= limits.maxExtensionBytes
            && |Encode(f)| <= limits.maxFrameBytes
  {
    hide ReadHeader;
    hide EncodeTlvs;
    hide HeaderBytes;
    if Encodable(f) {
      FrameSlices(f);
      HeaderPrefix(f);
    }
  }
}
