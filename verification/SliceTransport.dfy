/**
 * The message stream: a message travels as one frame or as a slice header and slices, and the receiver
 * puts slices back into one buffer it keeps between messages.
 */
module SliceTransport {
  import opened Bytes
  import opened Wrappers

  /** Slices of 1200 bytes, ten of which are the frame's header. */
  const SLICE_PAYLOAD := 1190
  /** Whole frames are written and read with 31-bit sizes, header included. */
  const MAX_MESSAGE := 0x7FFF_FFFF - 10

  /** Type numbers up to this one are the same for everybody. */
  const RESERVED := 64
  const PROTOCOL_TABLE: int32 := 2

  type int32 = x: int | -0x8000_0000 <= x < 0x8000_0000
  type Name = string
  type Table = map<u32, Name>

  function Unsigned(x: int): u32 {
    x % 0x1_0000_0000
  }

  function Signed(x: nat): int32 {
    var u := x % 0x1_0000_0000;
    if u < 0x8000_0000 then u else u - 0x1_0000_0000
  }

  /** Bytes of a message and where they belong. */
  datatype Piece = Piece(offset: nat, data: bytes)

  /** Frames as their headers say; a version carries the table its payload parses to, if it does. */
  datatype Frame =
    | Complete(proto: int32, data: bytes)
    | SliceHeader(proto: int32, size: nat)
    | Slice(offset: int32, data: bytes)
    | Cancel
    | Version(proto: int32, data: bytes, table: Option<Table>)
    | Unsupported

  datatype TransportError =
    | NoData
    | MessageTooLarge
    | Canceled
    | InvalidProtoType
    | InvalidProtoData
    | UnrecognizedMessage
    | InvalidMessageHeader
    | ConnectionReset

  /**
   * What one frame makes `recv` do: read on, hand over a message, hand over bytes of an unknown type with
   * the data and length fields of the last frame, fail, break its own assertion on where a slice belongs, or
   * pass it and write outside the buffer.
   */
  datatype Outcome =
    | Continue
    | Delivered(proto: int, data: bytes)
    | RawData(field: int32, length: nat, name: Name, data: bytes)
    | Failed(error: TransportError)
    | OutOfRange
    | Overrun

  /** The types a factory can create, and the type numbers of the declared names. */
  datatype Factory = Factory(types: set<int>, numbers: map<Name, int>)

  function Create(f: Factory, type_: int): Option<int> {
    if type_ > 0 && type_ in f.types then Some(type_) else None
  }

  function NumberOf(f: Factory, name: Name): int {
    if name != "" && name in f.numbers then f.numbers[name] else -1
  }

  /** The own type that a type number on the wire stands for: by name once the peer has sent its table. */
  function Meant(f: Factory, table: Table, proto: int32): Option<int> {
    if Unsigned(proto) <= RESERVED || table == map[] then Create(f, proto)
    else if Unsigned(proto) in table then Create(f, NumberOf(f, table[Unsigned(proto)]))
    else None
  }

  /** Reading a missing entry of the table adds it, with no name. */
  function Looked(table: Table, key: u32): Table {
    if key in table then table else table[key := ""]
  }

  /** `raw` is the flag of the current call that asks for messages of unknown type. */
  datatype Receiver = Receiver(
    factory: Factory, table: Table, raw: bool, buffer: bytes, message: Option<int>, sliceCount: u32)

  predicate Idle(r: Receiver) {
    r.sliceCount == 0
  }

  // ----- receiving ---------------------------------------------------------------------------

  /** A resized vector keeps what it had and zeroes what it gains. */
  function Resize(buffer: bytes, n: nat): (r: bytes)
    ensures |r| == n && forall i :: 0 <= i < n ==> r[i] == if i < |buffer| then buffer[i] else 0
  {
    if n <= |buffer| then buffer[..n] else buffer + seq(n - |buffer|, _ => 0 as byte)
  }

  function Overwrite(buffer: bytes, p: Piece): (r: bytes)
    requires p.offset + |p.data| <= |buffer|
    ensures |r| == |buffer|
    ensures forall i :: 0 <= i < |r| ==>
              r[i] == if p.offset <= i < p.offset + |p.data| then p.data[i - p.offset] else buffer[i]
  {
    buffer[..p.offset] + p.data + buffer[p.offset + |p.data|..]
  }

  function Created(r: Receiver, proto: int32): Option<int> {
    Meant(r.factory, r.table, proto)
  }

  /** A complete buffer: parsed as its message, or handed over raw, which takes the buffer away. */
  function Finish(r: Receiver, field: int32, length: nat): (Receiver, Outcome) {
    if r.message.Some? then (r.(message := None), Delivered(r.message.value, r.buffer))
    else if r.raw then
      var table := Looked(r.table, Unsigned(field));
      (r.(buffer := [], table := table), RawData(field, length, table[Unsigned(field)], r.buffer))
    else (r, Failed(UnrecognizedMessage))
  }

  /** The sum the assertion looks at has 32 bits. */
  predicate PassesTest(offset: int32, length: nat, size: nat) {
    Unsigned(offset + length) <= size
  }

  predicate Within(offset: int32, length: nat, size: nat) {
    0 <= offset && offset + length <= size
  }

  /** One turn of the receive loop. */
  function Receive(r: Receiver, f: Frame): (Receiver, Outcome) {
    match f
    case Cancel => (r.(buffer := [], message := None, sliceCount := 0), Failed(Canceled))
    case Version(proto, data, table) =>
      if proto != PROTOCOL_TABLE then (r.(buffer := data), Failed(InvalidProtoType))
      else if table == None then (r.(buffer := data), Failed(InvalidProtoData))
      else (r.(buffer := data, table := table.value), Continue)
    case Complete(proto, data) => Finish(r.(message := Created(r, proto), buffer := data), proto, |data|)
    case SliceHeader(proto, size) =>
      (r.(message := Created(r, proto), buffer := Resize(r.buffer, size)),
       if Created(r, proto).Some? then Continue else Failed(InvalidProtoType))
    case Slice(offset, data) =>
      if !PassesTest(offset, |data|, |r.buffer|) then (r, OutOfRange)
      else if !Within(offset, |data|, |r.buffer|) then (r, Overrun)
      else
        var count := Unsigned(r.sliceCount + |data|);
        var filled := r.(buffer := Overwrite(r.buffer, Piece(offset, data)), sliceCount := count);
        if count == |r.buffer| then Finish(filled.(sliceCount := 0), offset, |data|) else (filled, Continue)
    case Unsupported => (r, Failed(InvalidMessageHeader))
  }

  /**
   * A slice that belongs in the buffer passes the test; one that passes belongs in it if and only if its
   * offset is not negative and the sum does not wrap.
   */
  lemma TestedSlices(offset: int32, length: u32, size: u32)
    ensures Within(offset, length, size) ==> PassesTest(offset, length, size)
    ensures PassesTest(offset, length, size) ==>
              (Within(offset, length, size) <==> 0 <= offset && offset + length < 0x1_0000_0000)
  {
  }

  /** Two bytes at offset -1 pass for any buffer of at least one. */
  lemma NegativeOffsetPasses(r: Receiver, a: byte, b: byte)
    requires r.buffer != []
    ensures Receive(r, Slice(-1, [a, b])).1 == Overrun
  {
  }

  /** The receiver after a run of frames. */
  function After(r: Receiver, frames: seq<Frame>): Receiver
    decreases |frames|
  {
    if frames == [] then r else After(Receive(r, frames[0]).0, frames[1..])
  }

  /** Everything repeated calls of `recv` return for a run of frames. */
  function Received(r: Receiver, frames: seq<Frame>): seq<Outcome>
    decreases |frames|
  {
    if frames == [] then []
    else
      var (next, outcome) := Receive(r, frames[0]);
      (if outcome == Continue then [] else [outcome]) + Received(next, frames[1..])
  }

  lemma {:induction false} ReceivedInTwo(r: Receiver, a: seq<Frame>, b: seq<Frame>)
    ensures After(r, a + b) == After(After(r, a), b)
    ensures Received(r, a + b) == Received(r, a) + Received(After(r, a), b)
    decreases |a|
  {
    hide Receive;
    if a == [] {
      assert [] + b == b;
    } else {
      assert (a + b)[0] == a[0] && (a + b)[1..] == a[1..] + b;
      ReceivedHead(r, a + b);
      ReceivedHead(r, a);
      hide Received;
      hide After;
      ReceivedInTwo(Receive(r, a[0]).0, a[1..], b);
    }
  }

  /** What `recv` does at the last of a run of frames. */
  function LastOutcome(r: Receiver, frames: seq<Frame>): Outcome
    requires frames != []
    decreases |frames|
  {
    if |frames| == 1 then Receive(r, frames[0]).1 else LastOutcome(Receive(r, frames[0]).0, frames[1..])
  }

  class StreamClient {
    const factory: Factory
    var table: Table
    var raw: bool
    var buffer: bytes
    var message: Option<int>
    var sliceCount: u32

    function State(): Receiver
      reads this
    {
      Receiver(factory, table, raw, buffer, message, sliceCount)
    }

    constructor (factory: Factory)
      ensures State() == Receiver(factory, map[], false, [], None, 0)
    {
      this.factory := factory;
      table, raw, buffer, message, sliceCount := map[], false, [], None, 0;
    }

    /** Reads frames until one completes a message or fails; the frames read are the first `used`. */
    method Recv(frames: seq<Frame>, wantRaw: bool) returns (outcome: Outcome, used: nat)
      modifies this
      ensures used <= |frames|
      ensures var start := old(State()).(raw := wantRaw);
        && State() == After(start, frames[..used])
        && ((outcome == Failed(ConnectionReset) && used == |frames| && Received(start, frames) == [])
            || (outcome != Continue && Received(start, frames[..used]) == [outcome]))
    {
      hide Receive;
      raw := wantRaw;
      used := 0;
      ghost var start := State();
      ReceivedNothing(start);
      hide After;
      hide Received;
      assert frames[..0] == [];
      while used < |frames|
        invariant used <= |frames|
        invariant State() == After(start, frames[..used])
        invariant Received(start, frames[..used]) == []
      {
        var f := frames[used];
        assert frames[..used + 1] == frames[..used] + [f];
        ReceivedInTwo(start, frames[..used], [f]);
        ReceivedOne(State(), f);
        outcome := TakeFrame(f);
        used := used + 1;
        if outcome != Continue {
          return;
        }
      }
      assert frames[..used] == frames;
      outcome := Failed(ConnectionReset);
    }

    /** What one frame does to the buffer, the message under way and the slice count. */
    method TakeFrame(f: Frame) returns (outcome: Outcome)
      modifies this
      ensures (State(), outcome) == Receive(old(State()), f)
    {
      match f {
        case Cancel =>
          buffer, message, sliceCount := [], None, 0;
          outcome := Failed(Canceled);
        case Version(proto, data, announced) =>
          buffer := data;
          outcome := SyncProtocolTable(proto, announced);
        case Complete(proto, data) =>
          message := CreateProto(proto);
          buffer := data;
          outcome := FinishMessage(proto, |data|);
        case SliceHeader(proto, size) =>
          message := CreateProto(proto);
          buffer := Resize(buffer, size);
          outcome := if message == None then Failed(InvalidProtoType) else Continue;
        case Slice(offset, data) =>
          if |buffer| < Unsigned(offset + |data|) {
            return OutOfRange;
          }
          if !Within(offset, |data|, |buffer|) {
            return Overrun;
          }
          buffer := buffer[..offset] + data + buffer[offset + |data|..];
          sliceCount := Unsigned(sliceCount + |data|);
          outcome := Continue;
          if sliceCount == |buffer| {
            sliceCount := 0;
            outcome := FinishMessage(offset, |data|);
          }
        case Unsupported =>
          outcome := Failed(InvalidMessageHeader);
      }
    }

    method CreateProto(proto: int32) returns (message: Option<int>)
      ensures message == Meant(factory, table, proto)
    {
      if Unsigned(proto) <= RESERVED || table == map[] {
        return Create(factory, proto);
      }
      if Unsigned(proto) in table {
        return Create(factory, NumberOf(factory, table[Unsigned(proto)]));
      }
      return None;
    }

    method SyncProtocolTable(proto: int32, announced: Option<Table>) returns (outcome: Outcome)
      modifies this`table
      ensures table == if proto == PROTOCOL_TABLE && announced.Some? then announced.value else old(table)
      ensures outcome == if proto != PROTOCOL_TABLE then Failed(InvalidProtoType)
                         else if announced == None then Failed(InvalidProtoData)
                         else Continue
    {
      if proto != PROTOCOL_TABLE {
        return Failed(InvalidProtoType);
      }
      if announced == None {
        return Failed(InvalidProtoData);
      }
      table := announced.value;
      return Continue;
    }

    method FinishMessage(field: int32, length: nat) returns (outcome: Outcome)
      modifies this`message, this`buffer, this`table
      ensures (State(), outcome) == Finish(old(State()), field, length)
    {
      if message == None {
        if raw {
          table := Looked(table, Unsigned(field));
          outcome := RawData(field, length, table[Unsigned(field)], buffer);
          buffer := [];
          return;
        }
        return Failed(UnrecognizedMessage);
      }
      outcome := Delivered(message.value, buffer);
      message := None;
    }
  }

  lemma ReceivedOne(r: Receiver, f: Frame)
    ensures After(r, [f]) == Receive(r, f).0
    ensures Received(r, [f]) == if Receive(r, f).1 == Continue then [] else [Receive(r, f).1]
  {
    assert [f][1..] == [];
  }

  // ----- sending -----------------------------------------------------------------------------

  function Min(a: int, b: int): int {
    if a < b then a else b
  }

  /** The pieces of a message from an offset on. */
  function Pieces(data: bytes, offset: nat): (r: seq<Piece>)
    requires offset <= |data|
    decreases |data| - offset
  {
    if offset == |data| then []
    else
      var size := Min(|data| - offset, SLICE_PAYLOAD);
      [Piece(offset, data[offset..offset + size])] + Pieces(data, offset + size)
  }

  function Framed(pieces: seq<Piece>): (r: seq<Frame>)
    ensures |r| == |pieces|
  {
    if pieces == [] then [] else [FrameOf(pieces[0])] + Framed(pieces[1..])
  }

  /** The header's field for the offset is signed. */
  function FrameOf(p: Piece): Frame {
    Slice(Signed(p.offset), p.data)
  }

  function Sliced(proto: int32, size: nat, pieces: seq<Piece>): seq<Frame> {
    [SliceHeader(proto, size)] + Framed(pieces)
  }

  /** An empty message is not sent, and a whole frame must count its header. */
  method Send(proto: int32, data: bytes, sliced: bool) returns (r: Result<seq<Frame>, TransportError>)
    ensures r == if data == [] then Err(NoData)
                 else if |data| + (if sliced then 0 else 10) > 0xFFFF_FFFF then Err(TransportError.MessageTooLarge)
                 else if sliced then Ok(Sliced(proto, |data|, Pieces(data, 0)))
                 else Ok([Complete(proto, data)])
  {
    if data == [] {
      return Err(NoData);
    }
    if |data| + (if sliced then 0 else 10) > 0xFFFF_FFFF {
      return Err(TransportError.MessageTooLarge);
    }
    if !sliced {
      return Ok([Complete(proto, data)]);
    }
    var frames := [SliceHeader(proto, |data|)];
    var offset := 0;
    while true
      invariant 0 <= offset < |data|
      invariant frames + Framed(Pieces(data, offset)) == Sliced(proto, |data|, Pieces(data, 0))
      decreases |data| - offset
    {
      var size := Min(|data| - offset, SLICE_PAYLOAD);
      FramedStep(frames, data, offset);
      frames := frames + [FrameOf(Piece(offset, data[offset..offset + size]))];
      offset := offset + size;
      if offset >= |data| {
        break;
      }
    }
    assert frames + [] == frames;
    return Ok(frames);
  }

  lemma FramedStep(frames: seq<Frame>, data: bytes, offset: nat)
    requires offset < |data|
    ensures var size := Min(|data| - offset, SLICE_PAYLOAD);
      frames + Framed(Pieces(data, offset))
      == frames + [FrameOf(Piece(offset, data[offset..offset + size]))] + Framed(Pieces(data, offset + size))
  {
    var size := Min(|data| - offset, SLICE_PAYLOAD);
    var piece, rest := Piece(offset, data[offset..offset + size]), Pieces(data, offset + size);
    assert ([piece] + rest)[1..] == rest;
    assert Framed([piece] + rest) == [FrameOf(piece)] + Framed(rest);
  }

  // ----- slices put back together ------------------------------------------------------------

  function Range(lo: int, hi: int): (r: set<int>)
    ensures forall i :: i in r <==> lo <= i < hi
    ensures |r| == if lo <= hi then hi - lo else 0
    decreases hi - lo
  {
    if lo >= hi then {} else Range(lo, hi - 1) + {hi - 1}
  }

  function Places(p: Piece): set<int> {
    Range(p.offset, p.offset + |p.data|)
  }

  function Total(pieces: seq<Piece>): nat {
    if pieces == [] then 0 else |pieces[0].data| + Total(pieces[1..])
  }

  /** A non-empty piece of the message, at its own place. */
  predicate PieceOf(p: Piece, data: bytes) {
    p.data != [] && p.offset + |p.data| <= |data| && p.data == data[p.offset..p.offset + |p.data|]
  }

  predicate Apart(p: Piece, q: Piece) {
    p.offset + |p.data| <= q.offset || q.offset + |q.data| <= p.offset
  }

  /** Pieces that do not overlap and together are as long as the message. */
  ghost predicate Tiling(pieces: seq<Piece>, data: bytes) {
    && (forall p :: p in pieces ==> PieceOf(p, data))
    && (forall i, j :: 0 <= i < j < |pieces| ==> Apart(pieces[i], pieces[j]))
    && Total(pieces) == |data|
  }

  /** The pieces are still to come; `done` are the places already filled in. */
  ghost predicate Assembling(r: Receiver, pieces: seq<Piece>, done: set<int>, data: bytes) {
    && |r.buffer| == |data| <= MAX_MESSAGE
    && (forall i :: i in done ==> 0 <= i < |data| && r.buffer[i] == data[i])
    && r.sliceCount == |done|
    && (forall p :: p in pieces ==> PieceOf(p, data) && Places(p) !! done)
    && (forall i, j :: 0 <= i < j < |pieces| ==> Apart(pieces[i], pieces[j]))
    && |done| + Total(pieces) == |data|
  }

  lemma RestIsFree(pieces: seq<Piece>, done: set<int>, data: bytes)
    requires pieces != []
    requires forall p :: p in pieces ==> PieceOf(p, data) && Places(p) !! done
    requires forall i, j :: 0 <= i < j < |pieces| ==> Apart(pieces[i], pieces[j])
    ensures forall p :: p in pieces[1..] ==> PieceOf(p, data) && Places(p) !! done + Places(pieces[0])
  {
    forall p | p in pieces[1..] ensures PieceOf(p, data) && Places(p) !! done + Places(pieces[0]) {
      var j :| 0 <= j < |pieces[1..]| && pieces[1..][j] == p;
      assert p == pieces[j + 1] && p in pieces && Apart(pieces[0], pieces[j + 1]);
    }
  }

  lemma CountPiece(p: Piece, done: set<int>, data: bytes)
    requires PieceOf(p, data) && Places(p) !! done && forall i :: i in done ==> 0 <= i < |data|
    ensures |done + Places(p)| == |done| + |p.data| <= |data|
    ensures |done + Places(p)| == |data| ==> done + Places(p) == Range(0, |data|)
  {
    var places, all := Places(p), Range(0, |data|);
    assert |places| == |p.data| && |all| == |data|;
    var more := done + places;
    assert more <= all;
    hide Range;
    hide Places;
    hide PieceOf;
    assert all == more + (all - more);
  }

  /** Writing a piece fills in its places and leaves the ones done before. */
  lemma WritePiece(buffer: bytes, p: Piece, done: set<int>, data: bytes)
    requires |buffer| == |data| && PieceOf(p, data)
    requires forall i :: i in done ==> 0 <= i < |data| && buffer[i] == data[i]
    ensures forall i :: i in done + Places(p) ==> 0 <= i < |data| && Overwrite(buffer, p)[i] == data[i]
  {
    forall i | i in done + Places(p) ensures 0 <= i < |data| && Overwrite(buffer, p)[i] == data[i] {
      if p.offset <= i < p.offset + |p.data| {
        assert p.data[i - p.offset] == data[i];
      }
    }
  }

  /** What a slice does as long as the count cannot wrap. */
  lemma ReceivePiece(r: Receiver, p: Piece)
    requires p.offset + |p.data| <= |r.buffer| && r.sliceCount + |p.data| <= |r.buffer| <= MAX_MESSAGE
    ensures var filled := r.(buffer := Overwrite(r.buffer, p), sliceCount := r.sliceCount + |p.data|);
      Receive(r, FrameOf(p))
      == if r.sliceCount + |p.data| == |r.buffer| then Finish(filled.(sliceCount := 0), Signed(p.offset), |p.data|)
         else (filled, Continue)
  {
    hide Overwrite;
  }

  lemma TailIsEmpty(pieces: seq<Piece>, data: bytes)
    requires pieces != [] && forall p :: p in pieces ==> PieceOf(p, data)
    ensures Total(pieces) == |pieces[0].data| + Total(pieces[1..])
    ensures Total(pieces[1..]) == 0 <==> |pieces| == 1
  {
    if |pieces| > 1 {
      assert pieces[1] in pieces && pieces[1..][0] == pieces[1];
      assert Total(pieces[1..]) >= |pieces[1].data| > 0;
    } else {
      assert pieces[1..] == [];
    }
  }

  lemma FirstFits(r: Receiver, pieces: seq<Piece>, done: set<int>, data: bytes)
    requires pieces != [] && Assembling(r, pieces, done, data)
    ensures PieceOf(pieces[0], data) && pieces[0].offset + |pieces[0].data| <= |r.buffer|
    ensures r.sliceCount + |pieces[0].data| <= |r.buffer| <= MAX_MESSAGE
    ensures r.sliceCount + |pieces[0].data| == |r.buffer| <==> |pieces| == 1
  {
    hide Places;
    hide Apart;
    hide Total;
    assert pieces[0] in pieces;
    TailIsEmpty(pieces, data);
  }

  lemma AssembleNext(r: Receiver, pieces: seq<Piece>, done: set<int>, data: bytes)
    requires |pieces| > 1 && Assembling(r, pieces, done, data)
    ensures pieces[0].offset + |pieces[0].data| <= |r.buffer| && r.sliceCount + |pieces[0].data| < 0x1_0000_0000
    ensures Assembling(r.(buffer := Overwrite(r.buffer, pieces[0]), sliceCount := r.sliceCount + |pieces[0].data|),
                       pieces[1..], done + Places(pieces[0]), data)
  {
    hide Places;
    hide PieceOf;
    hide Apart;
    FirstFits(r, pieces, done, data);
    CountPiece(pieces[0], done, data);
    WritePiece(r.buffer, pieces[0], done, data);
    RestIsFree(pieces, done, data);
  }

  lemma AssembleLast(r: Receiver, p: Piece, done: set<int>, data: bytes)
    requires Assembling(r, [p], done, data)
    ensures p.offset + |p.data| <= |r.buffer| && Overwrite(r.buffer, p) == data
  {
    FirstFits(r, [p], done, data);
    LastDone(r, p, done, data);
    hide Assembling;
    hide Places;
    hide Overwrite;
  }

  lemma LastDone(r: Receiver, p: Piece, done: set<int>, data: bytes)
    requires Assembling(r, [p], done, data) && p.offset + |p.data| <= |r.buffer|
    ensures forall i :: 0 <= i < |data| ==> Overwrite(r.buffer, p)[i] == data[i]
  {
    assert p in [p] && Total([p]) == |p.data| + Total([p][1..]);
    CountPiece(p, done, data);
    WritePiece(r.buffer, p, done, data);
    hide Total;
    hide Apart;
    hide PieceOf;
    hide Overwrite;
    hide Places;
    forall i | 0 <= i < |data| ensures i in done + Places(p) {
      assert i in Range(0, |data|);
    }
  }

  /** However the remaining pieces are ordered, the last one completes the message and no other does. */
  lemma {:induction false} AssembleAll(r: Receiver, pieces: seq<Piece>, done: set<int>, data: bytes)
    requires pieces != [] && Assembling(r, pieces, done, data)
    ensures var last := pieces[|pieces| - 1];
      var (end, outcome) := Finish(r.(buffer := data, sliceCount := 0), Signed(last.offset), |last.data|);
      && Received(r, Framed(pieces)) == [LastOutcome(r, Framed(pieces))] == [outcome]
      && After(r, Framed(pieces)) == end
    decreases |pieces|
  {
    hide Assembling;
    hide Receive;
    hide Places;
    hide PieceOf;
    hide Overwrite;
    FirstFits(r, pieces, done, data);
    ReceivePiece(r, pieces[0]);
    FramedSplits(pieces);
    hide Framed;
    ReceivedHead(r, Framed(pieces));
    var last := pieces[|pieces| - 1];
    ReceivedNothing(Finish(r.(buffer := data, sliceCount := 0), Signed(last.offset), |last.data|).0);
    hide Received;
    hide After;
    if |pieces| > 1 {
      AssembleNext(r, pieces, done, data);
      AssembleAll(Receive(r, FrameOf(pieces[0])).0, pieces[1..], done + Places(pieces[0]), data);
      assert pieces[1..][|pieces| - 2] == last;
    } else {
      assert pieces == [pieces[0]];
      AssembleLast(r, pieces[0], done, data);
      assert pieces[1..] == [];
    }
  }

  lemma ReceivedHead(r: Receiver, frames: seq<Frame>)
    requires frames != []
    ensures var (next, outcome) := Receive(r, frames[0]);
      && After(r, frames) == After(next, frames[1..])
      && Received(r, frames) == (if outcome == Continue then [] else [outcome]) + Received(next, frames[1..])
  {
  }

  lemma ReceivedNothing(r: Receiver)
    ensures After(r, []) == r && Received(r, []) == []
  {
  }

  lemma FramedSplits(pieces: seq<Piece>)
    requires pieces != []
    ensures Framed(pieces)[0] == FrameOf(pieces[0]) && Framed(pieces)[1..] == Framed(pieces[1..])
    ensures Framed([]) == []
  {
  }

  /** A slice header and the pieces of any tiling put the message into the buffer and finish it, and no more. */
  lemma SlicesComplete(r: Receiver, proto: int32, data: bytes, pieces: seq<Piece>)
    requires Idle(r) && data != [] && |data| <= MAX_MESSAGE && Tiling(pieces, data)
    ensures pieces != []
    ensures var last := pieces[|pieces| - 1];
      var (end, outcome) := Finish(r.(message := Created(r, proto), buffer := data), Signed(last.offset), |last.data|);
      && Received(r, Sliced(proto, |data|, pieces))
         == (if Created(r, proto).Some? then [] else [Failed(InvalidProtoType)]) + [outcome]
      && LastOutcome(r, Sliced(proto, |data|, pieces)) == outcome
      && After(r, Sliced(proto, |data|, pieces)) == end
  {
    hide Finish;
    hide Meant;
    var next := Receive(r, SliceHeader(proto, |data|)).0;
    assert Sliced(proto, |data|, pieces)[1..] == Framed(pieces);
    assert pieces != [] by { assert Total([]) == 0; }
    AssembleAll(next, pieces, {}, data);
    assert next.(buffer := data, sliceCount := 0) == r.(message := Created(r, proto), buffer := data);
  }

  /**
   * A slice header and the pieces of any tiling of a message, in any order, are received by an idle
   * receiver as exactly that message, whatever its buffer held before.
   */
  lemma SlicedMessageArrives(r: Receiver, proto: int32, data: bytes, pieces: seq<Piece>)
    requires Idle(r) && Created(r, proto).Some?
    requires data != [] && |data| <= MAX_MESSAGE && Tiling(pieces, data)
    ensures Received(r, Sliced(proto, |data|, pieces)) == [Delivered(Created(r, proto).value, data)]
    ensures LastOutcome(r, Sliced(proto, |data|, pieces)) == Delivered(Created(r, proto).value, data)
    ensures After(r, Sliced(proto, |data|, pieces)) == r.(buffer := data, message := None)
  {
    SlicesComplete(r, proto, data, pieces);
  }

  // ----- the sender's slices, in any order ---------------------------------------------------

  /** The sender's slices cut the message into consecutive pieces of at most 1190 bytes. */
  lemma {:induction false} PiecesTile(data: bytes, offset: nat)
    requires offset <= |data|
    ensures var pieces := Pieces(data, offset);
      && Total(pieces) == |data| - offset
      && (forall p :: p in pieces ==> PieceOf(p, data) && p.offset >= offset && |p.data| <= 1190)
      && (forall i :: 0 <= i < |pieces| - 1 ==> |pieces[i].data| == 1190)
      && (forall i, j :: 0 <= i < j < |pieces| ==> Apart(pieces[i], pieces[j]))
    decreases |data| - offset
  {
    if offset < |data| {
      var size := Min(|data| - offset, SLICE_PAYLOAD);
      var first, rest := Piece(offset, data[offset..offset + size]), Pieces(data, offset + size);
      PiecesTile(data, offset + size);
      assert PieceOf(first, data);
      assert Pieces(data, offset) == [first] + rest;
      AllApart(first, rest);
      hide PieceOf;
      hide Apart;
      assert ([first] + rest)[1..] == rest;
    }
  }

  lemma AllApart(first: Piece, rest: seq<Piece>)
    requires forall p :: p in rest ==> p.offset >= first.offset + |first.data|
    requires forall i, j :: 0 <= i < j < |rest| ==> Apart(rest[i], rest[j])
    ensures forall i, j :: 0 <= i < j < |[first] + rest| ==> Apart(([first] + rest)[i], ([first] + rest)[j])
  {
    forall i, j | 0 <= i < j < |[first] + rest| ensures Apart(([first] + rest)[i], ([first] + rest)[j]) {
      assert rest[j - 1] in rest;
    }
  }

  lemma {:induction false} TotalSplits(a: seq<Piece>, b: seq<Piece>)
    ensures Total(a + b) == Total(a) + Total(b)
  {
    if a == [] {
      assert [] + b == b;
    } else {
      TotalSplits(a[1..], b);
      assert (a + b)[1..] == a[1..] + b;
    }
  }

  /** Taking one piece out of a list, wherever it stands. */
  lemma Without(q: seq<Piece>, k: nat)
    requires k < |q|
    ensures multiset(q[..k] + q[k + 1..]) == multiset(q) - multiset{q[k]}
    ensures Total(q) == |q[k].data| + Total(q[..k] + q[k + 1..])
  {
    assert q == q[..k] + ([q[k]] + q[k + 1..]);
    TotalSplits(q[..k], [q[k]] + q[k + 1..]);
    TotalSplits(q[..k], q[k + 1..]);
    assert ([q[k]] + q[k + 1..])[1..] == q[k + 1..];
  }

  lemma {:induction false} TotalIgnoresOrder(p: seq<Piece>, q: seq<Piece>)
    requires multiset(p) == multiset(q)
    ensures Total(p) == Total(q)
    decreases |p|
  {
    if p == [] {
      assert |multiset(q)| == 0;
    } else {
      assert p == [p[0]] + p[1..];
      assert p[0] in multiset(q);
      var k :| 0 <= k < |q| && q[k] == p[0];
      Without(q, k);
      TotalIgnoresOrder(p[1..], q[..k] + q[k + 1..]);
    }
  }

  lemma {:induction false} Repeats(p: seq<Piece>, i: nat, j: nat)
    requires i < j < |p| && p[i] == p[j]
    ensures multiset(p)[p[i]] >= 2
  {
    assert p == p[..j] + p[j..];
    assert p[i] == p[..j][i] && p[j] == p[j..][0];
    assert p[i] in multiset(p[..j]) && p[i] in multiset(p[j..]);
  }

  lemma {:induction false} Once(p: seq<Piece>, x: Piece)
    requires forall i, j :: 0 <= i < j < |p| ==> p[i] != p[j]
    ensures multiset(p)[x] <= 1
  {
    if p != [] {
      assert p == [p[0]] + p[1..];
      Once(p[1..], x);
      forall j | 0 <= j < |p[1..]| ensures p[1..][j] != p[0] {
        assert p[1..][j] == p[j + 1];
      }
    }
  }

  /** Any order of a tiling is a tiling. */
  lemma PermutationTiles(p: seq<Piece>, q: seq<Piece>, data: bytes)
    requires Tiling(q, data) && multiset(p) == multiset(q)
    ensures Tiling(p, data)
  {
    TotalIgnoresOrder(p, q);
    forall x | x in p ensures x in q && PieceOf(x, data) {
      assert x in multiset(p);
    }
    forall i, j | 0 <= i < j < |p| ensures Apart(p[i], p[j]) {
      assert p[i] in q && p[j] in q;
      var a :| 0 <= a < |q| && q[a] == p[i];
      var b :| 0 <= b < |q| && q[b] == p[j];
      if a == b {
        Repeats(p, i, j);
        DistinctPieces(q, data);
        Once(q, p[i]);
      }
      assert a < b ==> Apart(q[a], q[b]);
      assert b < a ==> Apart(q[b], q[a]);
    }
  }

  lemma DistinctPieces(q: seq<Piece>, data: bytes)
    requires Tiling(q, data)
    ensures forall i, j :: 0 <= i < j < |q| ==> q[i] != q[j]
  {
    forall i, j | 0 <= i < j < |q| ensures q[i] != q[j] {
      assert q[i] in q && Apart(q[i], q[j]);
    }
  }

  /** The slices of one message arrive whole in whatever order they come. */
  lemma AnyOrderArrives(r: Receiver, proto: int32, data: bytes, pieces: seq<Piece>)
    requires Idle(r) && Created(r, proto).Some? && data != [] && |data| <= MAX_MESSAGE
    requires multiset(pieces) == multiset(Pieces(data, 0))
    ensures Received(r, Sliced(proto, |data|, pieces)) == [Delivered(Created(r, proto).value, data)]
    ensures After(r, Sliced(proto, |data|, pieces)) == r.(buffer := data, message := None)
  {
    PiecesTile(data, 0);
    PermutationTiles(pieces, Pieces(data, 0), data);
    SlicedMessageArrives(r, proto, data, pieces);
  }

  // ----- whole streams -----------------------------------------------------------------------

  /** What a sender puts on the wire for one call: all of a message, some slices and a cancel, or its table. */
  datatype Sending =
    | Whole(proto: int32, data: bytes)
    | InSlices(proto: int32, data: bytes, pieces: seq<Piece>)
    | Abandoned(proto: int32, data: bytes, pieces: seq<Piece>, sent: nat)
    | Announced(data: bytes, table: Table)

  ghost predicate Sendable(m: Sending) {
    match m
    case Whole(_, data) => 0 < |data| <= MAX_MESSAGE
    case InSlices(_, data, pieces) => 0 < |data| <= MAX_MESSAGE && Tiling(pieces, data)
    case Abandoned(_, data, pieces, sent) => 0 < |data| <= MAX_MESSAGE && Tiling(pieces, data) && sent < |pieces|
    case Announced(_, _) => true
  }

  function Frames(m: Sending): seq<Frame> {
    match m
    case Whole(proto, data) => [Complete(proto, data)]
    case InSlices(proto, data, pieces) => Sliced(proto, |data|, pieces)
    case Abandoned(proto, data, pieces, sent) =>
      Sliced(proto, |data|, if sent < |pieces| then pieces[..sent] else pieces) + [Cancel]
    case Announced(data, table) => [Version(PROTOCOL_TABLE, data, Some(table))]
  }

  /** What a receiver knows of types: its factory, the peer's table, and whether it takes unknown ones raw. */
  datatype Types = Types(factory: Factory, table: Table, raw: bool)

  function TypesOf(r: Receiver): Types {
    Types(r.factory, r.table, r.raw)
  }

  function Stands(t: Types, proto: int32): Option<int> {
    Meant(t.factory, t.table, proto)
  }

  /** The data field of the frame that completes a message. */
  function LastField(m: Sending): int32 {
    match m
    case Whole(proto, _) => proto
    case InSlices(_, _, pieces) => if pieces == [] then 0 else Signed(pieces[|pieces| - 1].offset)
    case _ => 0
  }

  function LastLength(m: Sending): nat {
    match m
    case InSlices(_, _, pieces) => if pieces == [] then 0 else |pieces[|pieces| - 1].data|
    case _ => |m.data|
  }

  /** What a complete message of unknown type ends in. */
  function Stray(t: Types, m: Sending): Outcome {
    var key := Unsigned(LastField(m));
    if t.raw then RawData(LastField(m), LastLength(m), Looked(t.table, key)[key], m.data)
    else Failed(UnrecognizedMessage)
  }

  function Expected(t: Types, m: Sending): seq<Outcome> {
    match m
    case Whole(proto, data) =>
      if Stands(t, proto).Some? then [Delivered(Stands(t, proto).value, data)] else [Stray(t, m)]
    case InSlices(proto, data, pieces) =>
      if Stands(t, proto).Some? then [Delivered(Stands(t, proto).value, data)]
      else [Failed(InvalidProtoType), Stray(t, m)]
    case Abandoned(proto, _, _, _) =>
      (if Stands(t, proto).Some? then [] else [Failed(InvalidProtoType)]) + [Failed(Canceled)]
    case Announced(_, _) => []
  }

  /** A table announced replaces the old one; a message taken raw leaves a nameless entry behind. */
  function TypesAfter(t: Types, m: Sending): Types {
    match m
    case Announced(_, table) => t.(table := table)
    case Abandoned(_, _, _, _) => t
    case _ =>
      if t.raw && Stands(t, m.proto) == None then t.(table := Looked(t.table, Unsigned(LastField(m)))) else t
  }

  function AllFrames(ms: seq<Sending>): seq<Frame> {
    if ms == [] then [] else Frames(ms[0]) + AllFrames(ms[1..])
  }

  function AllExpected(t: Types, ms: seq<Sending>): seq<Outcome>
    decreases |ms|
  {
    if ms == [] then [] else Expected(t, ms[0]) + AllExpected(TypesAfter(t, ms[0]), ms[1..])
  }

  function TypesAfterAll(t: Types, ms: seq<Sending>): Types
    decreases |ms|
  {
    if ms == [] then t else TypesAfterAll(TypesAfter(t, ms[0]), ms[1..])
  }

  /** Some but not all pieces of a message complete nothing. */
  lemma {:induction false} AssembleSome(r: Receiver, pieces: seq<Piece>, done: set<int>, data: bytes, n: nat)
    requires n < |pieces| && Assembling(r, pieces, done, data)
    ensures Received(r, Framed(pieces[..n])) == []
    ensures TypesOf(After(r, Framed(pieces[..n]))) == TypesOf(r)
    decreases n
  {
    hide Assembling;
    hide Receive;
    hide Places;
    hide PieceOf;
    hide Overwrite;
    if n == 0 {
      assert pieces[..n] == [];
    } else {
      FirstFits(r, pieces, done, data);
      ReceivePiece(r, pieces[0]);
      assert pieces[..n][1..] == pieces[1..][..n - 1];
      FramedSplits(pieces[..n]);
      ReceivedHead(r, Framed(pieces[..n]));
      AssembleNext(r, pieces, done, data);
      AssembleSome(Receive(r, FrameOf(pieces[0])).0, pieces[1..], done + Places(pieces[0]), data, n - 1);
    }
  }

  lemma CancelGoesIdle(r: Receiver)
    ensures Receive(r, Cancel) == (r.(buffer := [], message := None, sliceCount := 0), Failed(Canceled))
  {
  }

  /** A message given up half-way is reported as canceled and leaves the receiver as good as new. */
  lemma AbandonedIsCanceled(r: Receiver, proto: int32, data: bytes, pieces: seq<Piece>, sent: nat)
    requires Idle(r) && Sendable(Abandoned(proto, data, pieces, sent))
    ensures Received(r, Frames(Abandoned(proto, data, pieces, sent)))
         == (if Created(r, proto).Some? then [] else [Failed(InvalidProtoType)]) + [Failed(Canceled)]
    ensures After(r, Frames(Abandoned(proto, data, pieces, sent)))
         == r.(buffer := [], message := None, sliceCount := 0)
  {
    hide Tiling;
    hide Received;
    hide After;
    hide Meant;
    var some := Sliced(proto, |data|, pieces[..sent]);
    SomeSlices(r, proto, data, pieces, sent);
    hide Sliced;
    ReceivedInTwo(r, some, [Cancel]);
    ReceivedOne(After(r, some), Cancel);
    CancelGoesIdle(After(r, some));
    hide Receive;
  }

  /** A header and some but not all slices complete nothing. */
  lemma SomeSlices(r: Receiver, proto: int32, data: bytes, pieces: seq<Piece>, n: nat)
    requires Idle(r) && Sendable(Abandoned(proto, data, pieces, n))
    ensures Received(r, Sliced(proto, |data|, pieces[..n]))
         == if Created(r, proto).Some? then [] else [Failed(InvalidProtoType)]
    ensures TypesOf(After(r, Sliced(proto, |data|, pieces[..n]))) == TypesOf(r)
  {
    hide Meant;
    var next := Receive(r, SliceHeader(proto, |data|)).0;
    assert Sliced(proto, |data|, pieces[..n])[1..] == Framed(pieces[..n]);
    AssembleSome(next, pieces, {}, data, n);
    ReceivedHead(r, Sliced(proto, |data|, pieces[..n]));
    hide Received;
    hide After;
    hide Tiling;
  }

  /** The receiver takes in what was sent as expected, and is idle again. */
  ghost predicate TakenIn(r: Receiver, m: Sending) {
    && Received(r, Frames(m)) == Expected(TypesOf(r), m)
    && Idle(After(r, Frames(m))) && TypesOf(After(r, Frames(m))) == TypesAfter(TypesOf(r), m)
  }

  lemma OneWhole(r: Receiver, proto: int32, data: bytes)
    requires Idle(r)
    ensures TakenIn(r, Whole(proto, data))
  {
    hide Meant;
    ReceivedOne(r, Complete(proto, data));
    hide Received;
    hide After;
  }

  lemma OneInSlices(r: Receiver, proto: int32, data: bytes, pieces: seq<Piece>)
    requires Idle(r) && Sendable(InSlices(proto, data, pieces))
    ensures TakenIn(r, InSlices(proto, data, pieces))
  {
    hide Meant;
    SlicesComplete(r, proto, data, pieces);
    hide Sliced;
    hide Tiling;
    hide Received;
    hide After;
    hide LastOutcome;
  }

  lemma OneSending(r: Receiver, m: Sending)
    requires Idle(r) && Sendable(m)
    ensures TakenIn(r, m)
  {
    hide Received;
    hide After;
    hide Sendable;
    hide Tiling;
    match m {
      case Whole(proto, data) => OneWhole(r, proto, data);
      case InSlices(proto, data, pieces) => OneInSlices(r, proto, data, pieces);
      case Abandoned(proto, data, pieces, sent) => AbandonedIsCanceled(r, proto, data, pieces, sent);
      case Announced(data, table) => ReceivedOne(r, Version(PROTOCOL_TABLE, data, Some(table)));
    }
  }

  /**
   * Any sequence of messages, each whole or in slices of any cut and order, of known types or not, with tables
   * announced and messages given up in between, is received in order with identical bytes.
   */
  lemma {:induction false} StreamArrives(r: Receiver, ms: seq<Sending>)
    requires Idle(r) && forall m :: m in ms ==> Sendable(m)
    ensures Received(r, AllFrames(ms)) == AllExpected(TypesOf(r), ms)
    ensures Idle(After(r, AllFrames(ms))) && TypesOf(After(r, AllFrames(ms))) == TypesAfterAll(TypesOf(r), ms)
    decreases |ms|
  {
    hide Received;
    hide After;
    hide Sendable;
    hide Expected;
    hide TypesAfter;
    if ms == [] {
      ReceivedNothing(r);
    } else {
      OneSending(r, ms[0]);
      ReceivedInTwo(r, Frames(ms[0]), AllFrames(ms[1..]));
      StreamArrives(After(r, Frames(ms[0])), ms[1..]);
    }
  }

  // ----- tables ------------------------------------------------------------------------------

  /** A peer's table lists its own numbers over the reserved ones, with their names. */
  ghost predicate Lists(table: Table, numbers: map<Name, int>) {
    && (forall k :: k in table ==> k > RESERVED && table[k] != "" && table[k] in numbers && numbers[table[k]] == k)
    && (forall n :: n in numbers && RESERVED < numbers[n] < 0x1_0000_0000 ==>
          numbers[n] in table && table[numbers[n] as u32] == n)
  }

  /** The message's type by name, under the peer's numbers. */
  predicate Named(m: Sending, table: Table, f: Factory) {
    (m.Whole? || m.InSlices?) && Unsigned(m.proto) in table && Create(f, NumberOf(f, table[Unsigned(m.proto)])).Some?
  }

  function ByName(ms: seq<Sending>, table: Table, f: Factory): (r: seq<Outcome>)
    requires forall m :: m in ms ==> Named(m, table, f)
  {
    if ms == [] then []
    else
      var m := ms[0];
      assert m in ms && Named(m, table, f);
      [Delivered(NumberOf(f, table[Unsigned(m.proto)]), m.data)] + ByName(ms[1..], table, f)
  }

  lemma {:induction false} NamedExpected(t: Types, ms: seq<Sending>, numbers: map<Name, int>)
    requires Lists(t.table, numbers) && forall m :: m in ms ==> Named(m, t.table, t.factory)
    ensures AllExpected(t, ms) == ByName(ms, t.table, t.factory)
  {
    if ms != [] {
      assert ms[0] in ms && Unsigned(ms[0].proto) in t.table;
      NamedExpected(t, ms[1..], numbers);
    }
  }

  /**
   * Once a peer has announced its table, its messages of any types the receiver has under the same names
   * arrive as those, whatever numbers the two ends use, and nothing else about the receiver matters.
   */
  lemma NamesDecide(r: Receiver, data: bytes, table: Table, numbers: map<Name, int>, ms: seq<Sending>)
    requires Idle(r) && Lists(table, numbers)
    requires forall m :: m in ms ==> Sendable(m) && Named(m, table, r.factory)
    ensures Received(r, AllFrames([Announced(data, table)] + ms)) == ByName(ms, table, r.factory)
  {
    var all := [Announced(data, table)] + ms;
    assert all[1..] == ms;
    StreamArrives(r, all);
    NamedExpected(Types(r.factory, table, r.raw), ms, numbers);
  }

  /** The message's type by number: reserved, or with no table known, and one the factory can create. */
  predicate Numbered(m: Sending, table: Table, f: Factory) {
    (m.Whole? || m.InSlices?) && 0 < m.proto && m.proto in f.types && (table == map[] || m.proto <= 64)
  }

  function ByNumber(ms: seq<Sending>, table: Table, f: Factory): (r: seq<Outcome>)
    requires forall m :: m in ms ==> Numbered(m, table, f)
  {
    if ms == [] then []
    else
      var m := ms[0];
      assert m in ms && Numbered(m, table, f);
      [Delivered(m.proto, m.data)] + ByNumber(ms[1..], table, f)
  }

  lemma {:induction false} NumberedExpected(t: Types, ms: seq<Sending>)
    requires forall m :: m in ms ==> Numbered(m, t.table, t.factory)
    ensures AllExpected(t, ms) == ByNumber(ms, t.table, t.factory)
  {
    if ms != [] {
      assert ms[0] in ms && Numbered(ms[0], t.table, t.factory);
      NumberedExpected(t, ms[1..]);
    }
  }

  /** Reserved types, and before a table is known all types, arrive under the numbers they were sent with. */
  lemma NumbersDecide(r: Receiver, ms: seq<Sending>)
    requires Idle(r) && forall m :: m in ms ==> Sendable(m) && Numbered(m, r.table, r.factory)
    ensures Received(r, AllFrames(ms)) == ByNumber(ms, r.table, r.factory)
  {
    StreamArrives(r, ms);
    NumberedExpected(TypesOf(r), ms);
  }

  /** Only a frame of type 2 whose payload is a table changes the types; any other version frame is an error. */
  lemma VersionsAreChecked(r: Receiver, proto: int32, data: bytes, table: Option<Table>)
    ensures var (after, outcome) := Receive(r, Version(proto, data, table));
      && after == r.(buffer := data, table := after.table)
      && (outcome == Continue <==> proto == 2 && table.Some?)
      && (outcome == Failed(InvalidProtoData) <==> proto == 2 && table == None)
      && (outcome == Failed(InvalidProtoType) <==> proto != 2)
      && after.table == if outcome == Continue then table.value else r.table
  {
  }

  /**
   * A message of unknown type taken raw adds an entry to the peer's table. If that table was empty, the types
   * over the reserved ones are no longer known by number, and the next message of such a type is not
   * delivered: a known type stays known if and only if a table was there or its number is reserved.
   */
  lemma RawHidesTypes(r: Receiver, stray: int32, some: bytes, proto: int32, data: bytes, raw: bool)
    requires r.raw && Created(r, stray) == None && Created(r, proto).Some?
    ensures var (after, outcome) := Receive(r, Complete(stray, some));
      && outcome == RawData(stray, |some|, Looked(r.table, Unsigned(stray))[Unsigned(stray)], some)
      && after.buffer == []
      && (Receive(after.(raw := raw), Complete(proto, data)).1 == Delivered(Created(r, proto).value, data)
          <==> r.table != map[] || Unsigned(proto) <= 64)
  {
    var table := Looked(r.table, Unsigned(stray));
    if r.table == map[] {
      assert table == map[Unsigned(stray) := ""] && Unsigned(stray) in table;
      assert NumberOf(r.factory, "") == -1;
    } else {
      assert table != map[];
    }
  }

  // ----- a count left over -------------------------------------------------------------------

  /** Without a message under way no slice completes one. */
  lemma {:induction false} NothingToComplete(r: Receiver, pieces: seq<Piece>)
    requires pieces != [] && r.message == None
    ensures !LastOutcome(r, Framed(pieces)).Delivered?
    decreases |pieces|
  {
    hide Overwrite;
    FramedSplits(pieces);
    var (next, outcome) := Receive(r, FrameOf(pieces[0]));
    assert next.message == None && !outcome.Delivered?;
    hide Receive;
    if |pieces| > 1 {
      NothingToComplete(next, pieces[1..]);
    }
  }

  /** A run of slices completes a message at its end only if the count it started from fits. */
  lemma {:induction false} CountMustFit(r: Receiver, pieces: seq<Piece>, data: bytes)
    requires pieces != [] && (forall p :: p in pieces ==> PieceOf(p, data))
    requires |r.buffer| == |data| <= MAX_MESSAGE
    requires LastOutcome(r, Framed(pieces)).Delivered?
    ensures Unsigned(r.sliceCount + Total(pieces)) == |data|
    decreases |pieces|
  {
    var p := pieces[0];
    assert p in pieces;
    TailIsEmpty(pieces, data);
    FramedSplits(pieces);
    SliceCounts(r, p);
    LastHead(r, Framed(pieces));
    hide LastOutcome;
    hide Unsigned;
    hide FrameOf;
    hide Framed;
    hide Receive;
    hide PieceOf;
    hide Total;
    if |pieces| > 1 {
      var next := Receive(r, FrameOf(p)).0;
      if next.message == None {
        NothingToComplete(next, pieces[1..]);
      }
      CountMustFit(next, pieces[1..], data);
      CountsAdd(r.sliceCount, |p.data|, Total(pieces[1..]));
    }
  }

  lemma LastHead(r: Receiver, frames: seq<Frame>)
    requires frames != []
    ensures LastOutcome(r, frames)
         == if |frames| == 1 then Receive(r, frames[0]).1 else LastOutcome(Receive(r, frames[0]).0, frames[1..])
  {
    hide Receive;
  }

  /** A slice that fits moves the count on by its length until the count completes the buffer. */
  lemma SliceCounts(r: Receiver, p: Piece)
    requires p.offset + |p.data| <= |r.buffer| <= MAX_MESSAGE
    ensures var (next, outcome) := Receive(r, FrameOf(p));
      var count := Unsigned(r.sliceCount + |p.data|);
      && (outcome.Delivered? ==> count == |r.buffer|)
      && (next.message.Some? ==> |next.buffer| == |r.buffer| && next.sliceCount == count)
  {
    hide Overwrite;
  }

  lemma CountsAdd(c: nat, a: nat, b: nat)
    ensures Unsigned(Unsigned(c + a) + b) == Unsigned(c + (a + b))
  {
  }

  /**
   * A slice header does not reset the count: if an earlier sliced message stopped without a cancel, the
   * next one is not completed by its last slice. It is exactly when the receiver was idle.
   */
  lemma LeftOverCount(r: Receiver, proto: int32, data: bytes, pieces: seq<Piece>)
    requires Created(r, proto).Some? && data != [] && |data| <= MAX_MESSAGE && Tiling(pieces, data)
    ensures LastOutcome(r, Sliced(proto, |data|, pieces)) == Delivered(Created(r, proto).value, data) <==> Idle(r)
  {
    var header := SliceHeader(proto, |data|);
    var next := Receive(r, header).0;
    var frames := Sliced(proto, |data|, pieces);
    assert frames[1..] == Framed(pieces);
    if Idle(r) {
      SlicedMessageArrives(r, proto, data, pieces);
    } else if LastOutcome(r, frames).Delivered? {
      CountMustFit(next, pieces, data);
    }
  }

  /** Slices that fit and complete nothing add up in the count. */
  lemma {:induction false} CountOfSome(r: Receiver, pieces: seq<Piece>, done: set<int>, data: bytes, n: nat)
    requires n < |pieces| && Assembling(r, pieces, done, data)
    ensures After(r, Framed(pieces[..n])).sliceCount == r.sliceCount + Total(pieces[..n])
    decreases n
  {
    hide Assembling;
    hide Receive;
    hide Places;
    hide PieceOf;
    hide Overwrite;
    if n == 0 {
      assert pieces[..n] == [];
    } else {
      FirstFits(r, pieces, done, data);
      ReceivePiece(r, pieces[0]);
      assert pieces[..n][1..] == pieces[1..][..n - 1];
      FramedSplits(pieces[..n]);
      ReceivedHead(r, Framed(pieces[..n]));
      AssembleNext(r, pieces, done, data);
      CountOfSome(Receive(r, FrameOf(pieces[0])).0, pieces[1..], done + Places(pieces[0]), data, n - 1);
    }
  }

  lemma {:induction false} LastOfTwo(r: Receiver, a: seq<Frame>, b: seq<Frame>)
    requires b != []
    ensures a + b != [] && LastOutcome(r, a + b) == LastOutcome(After(r, a), b)
    decreases |a|
  {
    hide Receive;
    if a == [] {
      assert a + b == b;
    } else {
      assert (a + b)[0] == a[0] && (a + b)[1..] == a[1..] + b;
      LastOfTwo(Receive(r, a[0]).0, a[1..], b);
    }
  }

  /** The count after the header and some slices of a message tells whether any slice has come. */
  lemma IdleOnlyBeforeSlices(r: Receiver, proto: int32, data: bytes, pieces: seq<Piece>, n: nat)
    requires Idle(r) && Sendable(Abandoned(proto, data, pieces, n))
    ensures var stuck := After(r, Sliced(proto, |data|, pieces[..n]));
      TypesOf(stuck) == TypesOf(r) && (Idle(stuck) <==> n == 0)
  {
    var next := Receive(r, SliceHeader(proto, |data|)).0;
    assert Sliced(proto, |data|, pieces[..n])[1..] == Framed(pieces[..n]);
    assert pieces != [];
    ReceivedHead(r, Sliced(proto, |data|, pieces[..n]));
    CountOfSome(next, pieces, {}, data, n);
    SomeSlices(r, proto, data, pieces, n);
    if n == 0 {
      assert pieces[..n] == [];
    } else {
      assert forall p :: p in pieces[..n] ==> p in pieces;
      TotalPositive(pieces[..n], data);
    }
  }

  lemma TotalPositive(pieces: seq<Piece>, data: bytes)
    requires pieces != [] && forall p :: p in pieces ==> PieceOf(p, data)
    ensures Total(pieces) > 0
  {
    assert pieces[0] in pieces;
  }

  /**
   * An idle receiver that is sent a slice header and then some slices of a message, which stops there
   * without a cancel, completes the next sliced message with its last slice if and only if no slice came.
   */
  lemma UnfinishedMessageSpoilsNext(
    r: Receiver, proto: int32, data: bytes, pieces: seq<Piece>, n: nat,
    nextProto: int32, nextData: bytes, nextPieces: seq<Piece>)
    requires Idle(r) && Sendable(Abandoned(proto, data, pieces, n))
    requires Sendable(InSlices(nextProto, nextData, nextPieces)) && Created(r, nextProto).Some?
    ensures var frames := Sliced(proto, |data|, pieces[..n]) + Sliced(nextProto, |nextData|, nextPieces);
      LastOutcome(r, frames) == Delivered(Created(r, nextProto).value, nextData) <==> n == 0
  {
    var first, second := Sliced(proto, |data|, pieces[..n]), Sliced(nextProto, |nextData|, nextPieces);
    IdleOnlyBeforeSlices(r, proto, data, pieces, n);
    LastOfTwo(r, first, second);
    LeftOverCount(After(r, first), nextProto, nextData, nextPieces);
  }

  // ----- unknown types -----------------------------------------------------------------------

  /**
   * Bytes of an unknown type sent in slices are refused at the header; read on from there, they come out raw in
   * the end but with the offset and length of the last slice where the type and length of the message belong.
   */
  lemma UnknownSlicedLosesItsType(r: Receiver, proto: int32, data: bytes, pieces: seq<Piece>)
    requires Idle(r) && r.raw && Created(r, proto) == None
    requires data != [] && |data| <= MAX_MESSAGE && Tiling(pieces, data)
    ensures pieces != []
    ensures var last := pieces[|pieces| - 1];
      var name := Looked(r.table, Unsigned(last.offset))[Unsigned(last.offset)];
      && Signed(last.offset) == last.offset
      && Received(r, Sliced(proto, |data|, pieces))
         == [Failed(InvalidProtoType), RawData(Signed(last.offset), |last.data|, name, data)]
  {
    hide Received;
    hide After;
    hide LastOutcome;
    hide Meant;
    hide Sliced;
    SlicesComplete(r, proto, data, pieces);
    assert PieceOf(pieces[|pieces| - 1], data);
    hide Tiling;
    hide PieceOf;
  }
}
