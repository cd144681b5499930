/** The compression transform a session applies to outgoing frames and undoes on incoming ones. */
module Compression {
  import opened Bytes
  import opened Wrappers
  import opened FrameCodec
  import opened ExtensionCodec
  import RunLength

  datatype Algorithm = NoCompression | RunLengthCoding | Unknown(code: u8)

  datatype CompressionSession = CompressionSession(enabled: bool, algorithm: Algorithm, minPayloadSize: u32)

  datatype CompressionOptions = CompressionOptions(
    limits: FrameLimits, maxDecompressedPayloadBytes: u64, maxCompressionRatio: u64)

  function CompressPayload(payload: bytes, algorithm: Algorithm): Result<bytes, WireError> {
    match algorithm
    case NoCompression => Ok(payload)
    case RunLengthCoding => Ok(RunLength.Compress(payload, 0))
    case Unknown(_) => Err(InvalidRequest)
  }

  function DecompressPayload(payload: bytes, algorithm: Algorithm, maxOutputBytes: nat): Result<bytes, WireError> {
    match algorithm
    case NoCompression => if |payload| > maxOutputBytes then Err(MessageTooLarge) else Ok(payload)
    case RunLengthCoding => RunLength.Expand(payload, [], maxOutputBytes)
    case Unknown(_) => Err(InvalidRequest)
  }

  /** Encodes a frame and holds it to the sender's own limits. */
  function EncodeChecked(f: FrameParts, limits: FrameLimits): Result<bytes, WireError> {
    var encoded := Encode(f);
    if encoded == [] then
      Err(InvalidRequest)
    else
      var size := HeaderBodySize(encoded[..HEADER_SIZE], f.header.codec, limits);
      if size.Err? then Err(size.error)
      else if size.value != |encoded| - HEADER_SIZE then Err(InvalidRequest)
      else Ok(encoded)
  }

  /** Whether the session wants this frame's payload compressed, if that makes it smaller. */
  predicate Eligible(session: CompressionSession, f: FrameParts) {
    && session.enabled && session.algorithm != NoCompression
    && f.header.kind != HELLO && !HasFlag(f.header.flags, Compressed)
    && f.payload != [] && |f.payload| >= session.minPayloadSize
  }

  /** The frame that goes out: payload compressed and flagged when that is wanted and shrinks it. */
  function Outgoing(session: CompressionSession, f: FrameParts): Result<FrameParts, WireError> {
    if !Eligible(session, f) then
      Ok(f)
    else
      var compressed := CompressPayload(f.payload, session.algorithm);
      if compressed.Err? then Err(compressed.error)
      else if |compressed.value| >= |f.payload| then Ok(f)
      else
        FlagUpdates(f.header.flags, Compressed, true);
        Ok(f.(header := f.header.(flags := WithFlag(f.header.flags, Compressed, true)),
              payload := compressed.value))
  }

  function EncodeOutgoing(options: CompressionOptions, session: CompressionSession, f: FrameParts)
    : Result<bytes, WireError>
  {
    var out := Outgoing(session, f);
    if out.Err? then Err(out.error) else EncodeChecked(out.value, options.limits)
  }

  /** Output bytes a compressed payload may expand to. */
  function OutputBudget(options: CompressionOptions, size: nat): nat {
    var ratio := if options.maxCompressionRatio > 1 then options.maxCompressionRatio else 1;
    var budget := if size > SIZE_MAX / ratio then SIZE_MAX else size * ratio;
    if options.maxDecompressedPayloadBytes < budget then options.maxDecompressedPayloadBytes else budget
  }

  /** The payload a receiver hands on for a parsed frame. */
  function IncomingPayload(options: CompressionOptions, session: CompressionSession, f: FrameParts)
    : Result<bytes, WireError>
  {
    if !HasFlag(f.header.flags, Compressed) then
      Ok(f.payload)
    else if !session.enabled || session.algorithm == NoCompression || f.header.kind == HELLO then
      Err(InvalidRequest)
    else
      DecompressPayload(f.payload, session.algorithm, OutputBudget(options, |f.payload|))
  }

  /** The sender replaces the payload by a smaller one. */
  predicate Shrinks(session: CompressionSession, f: FrameParts) {
    Eligible(session, f) && |RunLength.Compress(f.payload, 0)| < |f.payload|
  }

  /**
   * The receiver can restore the payload: it was not touched, or no literal of it is overlong and it fits
   * the output the receiver allows its compressed size.
   */
  predicate Restores(session: CompressionSession, receiver: CompressionOptions, f: FrameParts) {
    Shrinks(session, f) ==>
      && !RunLength.Overlong(f.payload, 0)
      && |f.payload| <= OutputBudget(receiver, |RunLength.Compress(f.payload, 0)|)
  }

  lemma CheckedFrameParses(f: FrameParts, limits: FrameLimits)
    requires EncodeChecked(f, limits).Ok? && Supported(f.extensions)
    ensures Encodable(f)
    ensures Parse(EncodeChecked(f, limits).value)
         == Some(FrameParts(Normalized(f), f.methodBytes, f.extensions, f.payload))
  {
    hide Parse;
    hide Encode;
    hide HeaderBodySize;
    hide EncodeTlvs;
    hide Normalized;
    EncodedFrameIsValid(f, f.header.codec, limits);
    ParseEncoded(f);
  }

  function Ratio(options: CompressionOptions): u64 {
    if options.maxCompressionRatio > 1 then options.maxCompressionRatio else 1
  }

  /** The budget covers a payload that round-trips, if the ratio is at least what a run can gain. */
  lemma RatioCovers(options: CompressionOptions, payload: bytes)
    requires Ratio(options) >= 65 && |payload| <= options.maxDecompressedPayloadBytes
    requires !RunLength.Overlong(payload, 0)
    ensures |payload| <= OutputBudget(options, |RunLength.Compress(payload, 0)|)
  {
    hide RunLength.Compress;
    hide RunLength.Expand;
    hide RunLength.Overlong;
    var size := |RunLength.Compress(payload, 0)|;
    RunLength.RoundTrip(payload, |payload|);
    assert |payload| <= 65 * size;
    var ratio := Ratio(options);
    assert size * ratio >= size * 65 by {
      assert size * ratio == size * 65 + size * (ratio - 65) && size * (ratio - 65) >= 0;
    }
  }

  /** A size limit so low that two compressed bytes may already expand to it covers everything within it. */
  lemma LimitCovers(options: CompressionOptions, payload: bytes)
    requires |payload| <= options.maxDecompressedPayloadBytes <= 2 * Ratio(options)
    ensures |payload| <= OutputBudget(options, |RunLength.Compress(payload, 0)|)
  {
    hide RunLength.Compress;
    if payload != [] {
      RunLength.CompressesToSomething(payload);
      var size, ratio := |RunLength.Compress(payload, 0)|, Ratio(options);
      assert size * ratio >= 2 * ratio by {
        assert size * ratio == 2 * ratio + (size - 2) * ratio && (size - 2) * ratio >= 0;
      }
    }
  }

  /** A ratio limit below 65 refuses a run of equal bytes, unless the size limit is low enough. */
  lemma RatioRefuses(options: CompressionOptions) returns (payload: bytes)
    requires Ratio(options) < 65 && 2 * Ratio(options) < options.maxDecompressedPayloadBytes
    ensures |payload| <= options.maxDecompressedPayloadBytes && !RunLength.Overlong(payload, 0)
    ensures |payload| > OutputBudget(options, |RunLength.Compress(payload, 0)|)
  {
    hide RunLength.Compress;
    hide RunLength.Overlong;
    var n := 2 * Ratio(options) + 1;
    payload := RunLength.Repeat(9, n);
    RunLength.RunCompresses(9, n);
  }

  /**
   * The output budget lets every payload within the size limit through that round-trips, if and only if the
   * ratio limit is at least 65 or the size limit is at most twice the ratio limit.
   */
  lemma BudgetCovers(options: CompressionOptions)
    ensures (forall payload: bytes ::
               |payload| <= options.maxDecompressedPayloadBytes && !RunLength.Overlong(payload, 0)
               ==> |payload| <= OutputBudget(options, |RunLength.Compress(payload, 0)|))
       <==> Ratio(options) >= 65 || options.maxDecompressedPayloadBytes <= 2 * Ratio(options)
  {
    hide RunLength.Compress;
    hide RunLength.Overlong;
    hide OutputBudget;
    if Ratio(options) >= 65 || options.maxDecompressedPayloadBytes <= 2 * Ratio(options) {
      forall payload: bytes | |payload| <= options.maxDecompressedPayloadBytes && !RunLength.Overlong(payload, 0)
        ensures |payload| <= OutputBudget(options, |RunLength.Compress(payload, 0)|)
      {
        if Ratio(options) >= 65 {
          RatioCovers(options, payload);
        } else {
          LimitCovers(options, payload);
        }
      }
    } else {
      var payload := RatioRefuses(options);
    }
  }

  /** Compressed or not, a frame that goes out parses to the same method, extensions and flags. */
  lemma OutgoingParses(options: CompressionOptions, session: CompressionSession, f: FrameParts)
    requires !HasFlag(f.header.flags, Compressed) && Supported(f.extensions)
    requires EncodeOutgoing(options, session, f).Ok?
    ensures Outgoing(session, f).Ok?
    ensures var parsed, out := Parse(EncodeOutgoing(options, session, f).value), Outgoing(session, f).value;
      && parsed.Some?
      && parsed.value.methodBytes == f.methodBytes && parsed.value.extensions == f.extensions
      && parsed.value.header.kind == f.header.kind && parsed.value.header.id == f.header.id
      && parsed.value.header.codec == f.header.codec
      && (HasFlag(parsed.value.header.flags, Error) <==> HasFlag(f.header.flags, Error))
      && (HasFlag(parsed.value.header.flags, MethodId) <==> HasFlag(f.header.flags, MethodId))
      && (HasFlag(parsed.value.header.flags, Compressed) <==> out.payload != f.payload)
      && parsed.value.payload == out.payload
  {
    hide Parse;
    hide EncodeChecked;
    hide CompressPayload;
    var out := Outgoing(session, f).value;
    CheckedFrameParses(out, options.limits);
    FlagUpdates(out.header.flags, HasExtensions, |EncodeTlvs(out.extensions)| > 0);
    FlagUpdates(f.header.flags, Compressed, true);
  }

  /**
   * What arrives is what was sent: the frame parses to the same method and extensions, and the receiver
   * recovers the payload exactly when it can restore it.
   */
  lemma DeliversPayload(
    sender: CompressionOptions, senderSession: CompressionSession,
    receiver: CompressionOptions, receiverSession: CompressionSession, f: FrameParts)
    requires !HasFlag(f.header.flags, Compressed) && Supported(f.extensions)
    requires senderSession.enabled ==>
      receiverSession.enabled && senderSession.algorithm == receiverSession.algorithm == RunLengthCoding
    requires EncodeOutgoing(sender, senderSession, f).Ok?
    ensures var parsed := Parse(EncodeOutgoing(sender, senderSession, f).value);
      && parsed.Some?
      && (IncomingPayload(receiver, receiverSession, parsed.value) == Ok(f.payload)
          <==> Restores(senderSession, receiver, f))
  {
    hide Parse;
    hide EncodeChecked;
    hide OutputBudget;
    OutgoingParses(sender, senderSession, f);
    if Shrinks(senderSession, f) {
      RunLength.RoundTrip(f.payload, OutputBudget(receiver, |RunLength.Compress(f.payload, 0)|));
    }
  }

  /** What is restored is within the receiver's size limit and its ratio limit. */
  lemma RestoredIsBounded(options: CompressionOptions, session: CompressionSession, f: FrameParts)
    requires HasFlag(f.header.flags, Compressed) && IncomingPayload(options, session, f).Ok?
    ensures session.enabled && session.algorithm == RunLengthCoding && f.header.kind != HELLO
    ensures var size := |IncomingPayload(options, session, f).value|;
      size <= options.maxDecompressedPayloadBytes && size <= |f.payload| * Ratio(options)
  {
    hide HasFlag;
    NothingExpands(f.payload, OutputBudget(options, |f.payload|));
    BudgetIsBounded(options, |f.payload|);
    hide OutputBudget;
    hide Ratio;
    hide RunLength.Expand;
  }

  lemma BudgetIsBounded(options: CompressionOptions, size: nat)
    ensures OutputBudget(options, size) <= options.maxDecompressedPayloadBytes
    ensures OutputBudget(options, size) <= size * Ratio(options)
  {
    var ratio := Ratio(options);
    if size > SIZE_MAX / ratio {
      Covers(size, ratio, SIZE_MAX);
    }
  }

  lemma Covers(size: nat, ratio: nat, max: nat)
    requires ratio > 0 && size > max / ratio
    ensures size * ratio >= max
  {
    var q := max / ratio;
    Divided(max, ratio, q);
    Monotonic(q + 1, size, ratio);
  }

  lemma Divided(max: nat, ratio: nat, q: nat)
    requires ratio > 0 && q == max / ratio
    ensures max <= (q + 1) * ratio
  {
  }

  lemma Monotonic(a: nat, b: nat, c: nat)
    requires a <= b
    ensures a * c <= b * c
  {
  }

  lemma NothingExpands(payload: bytes, limit: nat)
    ensures var r := RunLength.Expand(payload, [], limit);
      r.Ok? ==> |r.value| <= limit
  {
  }

  /** A frame that its sender's own limits let through. */
  lemma ValidIsChecked(f: FrameParts, limits: FrameLimits)
    requires ValidFrame(Encode(f), f.header.codec, limits)
    ensures EncodeChecked(f, limits).Ok?
  {
    hide Encode;
    hide HeaderBodySize;
  }

  lemma ShrinkingGoesOut(session: CompressionSession, f: FrameParts)
    requires session.enabled && session.algorithm == RunLengthCoding && session.minPayloadSize <= 259
    requires f == FrameParts(NewHeader(REQUEST, 0, 0, 1), [], map[], RunLength.Shrinking())
    ensures !HasFlag(f.header.flags, Compressed) && Shrinks(session, f) && RunLength.Overlong(f.payload, 0)
    ensures var out := Outgoing(session, f);
      && out.Ok? && |out.value.payload| == 132 && out.value.extensions == map[] && out.value.methodBytes == []
      && out.value.header.kind == REQUEST && out.value.header.codec == 0
  {
    hide RunLength.Compress;
    hide RunLength.Overlong;
    hide RunLength.Shrinking;
    hide RunLength.Expand;
    RunLength.ShrinkingFails(259);
    NoFlags();
    hide HasFlag;
    hide WithFlag;
  }

  lemma NoFlags()
    ensures forall flag :: !HasFlag(0, flag)
  {
  }

  lemma EncodedSize(f: FrameParts)
    requires f.extensions == map[] && f.methodBytes == [] && |f.payload| == 132
    ensures Encodable(f) && |EncodeTlvs(f.extensions)| == 0 && |Encode(f)| == HEADER_SIZE + 132
  {
    hide EncodeTlvs;
    hide HeaderBytes;
    EncodedEmpty(map[]);
  }

  /** A request whose payload a sender compresses and a receiver does not get back, whatever its limits. */
  lemma LostPayload(
    sender: CompressionOptions, session: CompressionSession, receiver: CompressionOptions, f: FrameParts)
    requires session.enabled && session.algorithm == RunLengthCoding && session.minPayloadSize <= 259
    requires f == FrameParts(NewHeader(REQUEST, 0, 0, 1), [], map[], RunLength.Shrinking())
    requires sender.limits.maxPayloadBytes >= 132 && sender.limits.maxFrameBytes >= HEADER_SIZE + 132
    ensures EncodeOutgoing(sender, session, f).Ok?
    ensures var parsed := Parse(EncodeOutgoing(sender, session, f).value);
      parsed.Some? && IncomingPayload(receiver, session, parsed.value) != Ok(f.payload)
  {
    hide Parse;
    hide RunLength.Overlong;
    hide RunLength.Shrinking;
    hide IncomingPayload;
    hide OutputBudget;
    hide EncodeChecked;
    hide ValidFrame;
    hide Encode;
    hide Encodable;
    hide EncodeTlvs;
    ShrinkingGoesOut(session, f);
    hide Outgoing;
    hide Shrinks;
    var out := Outgoing(session, f).value;
    EncodedSize(out);
    EncodedFrameIsValid(out, 0, sender.limits);
    ValidIsChecked(out, sender.limits);
    DeliversPayload(sender, session, receiver, session, f);
  }
}
