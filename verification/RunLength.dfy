/**
 * The run-length payload codec. A control byte with the high bit set repeats the next byte 3 to 130
 * times; any other control byte announces 1 to 128 literal bytes.
 */
module RunLength {
  import opened Bytes
  import opened Wrappers

  const MAX_RUN := 130
  const LITERAL_LIMIT := 128

  // ----- compression -------------------------------------------------------------------

  /** How far the bytes equal to the one at `offset` go on, given that the first `run` do; 130 at most. */
  function RunFrom(p: bytes, offset: nat, run: nat): (r: nat)
    requires 1 <= run <= MAX_RUN && offset + run <= |p|
    ensures run <= r <= MAX_RUN && offset + r <= |p|
    ensures r == MAX_RUN || offset + r == |p| || p[offset + r] != p[offset]
    decreases |p| - offset - run
  {
    if offset + run < |p| && run < MAX_RUN && p[offset + run] == p[offset]
    then RunFrom(p, offset, run + 1)
    else run
  }

  function RunAt(p: bytes, offset: nat): (r: nat)
    requires offset < |p|
    ensures 1 <= r <= MAX_RUN && offset + r <= |p|
    ensures r == MAX_RUN || offset + r == |p| || p[offset + r] != p[offset]
  {
    RunFrom(p, offset, 1)
  }

  lemma {:induction false} RunIsUniform(p: bytes, offset: nat, run: nat)
    requires 1 <= run <= MAX_RUN && offset + run <= |p|
    requires p[offset..offset + run] == Repeat(p[offset], run)
    ensures p[offset..offset + RunFrom(p, offset, run)] == Repeat(p[offset], RunFrom(p, offset, run))
    decreases |p| - offset - run
  {
    if offset + run < |p| && run < MAX_RUN && p[offset + run] == p[offset] {
      assert p[offset..offset + (run + 1)] == p[offset..offset + run] + [p[offset + run]];
      RunIsUniform(p, offset, run + 1);
    }
  }

  /** Where the literal block opened at `begin` and scanned up to `offset` ends. */
  function LiteralEnd(p: bytes, begin: nat, offset: nat): (r: nat)
    requires begin < offset <= |p|
    ensures offset <= r <= |p|
    ensures offset - begin <= LITERAL_LIMIT + 1 ==> r - begin <= LITERAL_LIMIT + 1
    ensures r == |p| || RunAt(p, r) >= 3 || r - begin >= LITERAL_LIMIT
    decreases |p| - offset
  {
    if offset == |p| || RunAt(p, offset) >= 3 || offset - begin >= LITERAL_LIMIT
    then offset
    else LiteralEnd(p, begin, offset + RunAt(p, offset))
  }

  /** The end of the block that starts at `offset`: a run of three or more, or a literal. */
  function BlockEnd(p: bytes, offset: nat): (r: nat)
    requires offset < |p|
    ensures offset < r <= |p|
  {
    var run := RunAt(p, offset);
    if run >= 3 then offset + run else LiteralEnd(p, offset, offset + run)
  }

  predicate IsLiteral(p: bytes, offset: nat)
    requires offset < |p|
  {
    RunAt(p, offset) < 3
  }

  /** What the block that starts at `offset` is written as. */
  function Token(p: bytes, offset: nat): bytes
    requires offset < |p|
  {
    var run := RunAt(p, offset);
    if run >= 3 then
      [(0x80 + (run - 3)) as byte, p[offset]]
    else
      var end := LiteralEnd(p, offset, offset + run);
      [((end - offset - 1) % 256) as byte] + p[offset..end]
  }

  function Compress(p: bytes, offset: nat): bytes
    requires offset <= |p|
    decreases |p| - offset
  {
    if offset == |p| then [] else Token(p, offset) + Compress(p, BlockEnd(p, offset))
  }

  predicate OverlongAt(p: bytes, offset: nat)
    requires offset < |p|
  {
    IsLiteral(p, offset) && BlockEnd(p, offset) - offset > LITERAL_LIMIT
  }

  /** Some literal block from `offset` on takes in 129 bytes, one more than a control byte can say. */
  predicate Overlong(p: bytes, offset: nat)
    requires offset <= |p|
    decreases |p| - offset
  {
    offset < |p| && (OverlongAt(p, offset) || Overlong(p, BlockEnd(p, offset)))
  }

  method MeasureRun(payload: bytes, offset: nat) returns (run: nat)
    requires offset < |payload|
    ensures run == RunAt(payload, offset)
  {
    run := 1;
    while offset + run < |payload| && run < MAX_RUN && payload[offset + run] == payload[offset]
      invariant 1 <= run <= MAX_RUN && offset + run <= |payload|
      invariant RunFrom(payload, offset, run) == RunAt(payload, offset)
    {
      run := run + 1;
    }
  }

  method CompressRunLength(payload: bytes) returns (out: bytes)
    ensures out == Compress(payload, 0)
  {
    hide RunAt;
    hide LiteralEnd;
    hide Token;
    hide BlockEnd;
    CompressEnds(payload);
    hide Compress;
    out := [];
    var offset := 0;
    while offset < |payload|
      invariant 0 <= offset <= |payload|
      invariant out + Compress(payload, offset) == Compress(payload, 0)
    {
      CompressStep(out, payload, offset);
      var run := MeasureRun(payload, offset);
      if run >= 3 {
        RunToken(payload, offset);
        out := out + [(0x80 + (run - 3)) as byte, payload[offset]];
        offset := offset + run;
        continue;
      }
      LiteralToken(payload, offset);
      var literalBegin := offset;
      offset := MeasureLiteral(payload, literalBegin, offset + run);
      var literalSize := offset - literalBegin;
      out := out + ([((literalSize - 1) % 256) as byte] + payload[literalBegin..offset]);
    }
  }

  /** Takes in single bytes and pairs until a longer run or the size limit stops the literal. */
  method MeasureLiteral(payload: bytes, literalBegin: nat, begin: nat) returns (offset: nat)
    requires literalBegin < begin <= |payload|
    ensures offset == LiteralEnd(payload, literalBegin, begin)
  {
    offset := begin;
    while offset < |payload|
      invariant begin <= offset <= |payload|
      invariant LiteralEnd(payload, literalBegin, offset) == LiteralEnd(payload, literalBegin, begin)
    {
      var run := MeasureRun(payload, offset);
      if run >= 3 || offset - literalBegin >= LITERAL_LIMIT {
        break;
      }
      offset := offset + run;
    }
  }

  lemma RunToken(p: bytes, offset: nat)
    requires offset < |p| && RunAt(p, offset) >= 3
    ensures Token(p, offset) == [(0x80 + (RunAt(p, offset) - 3)) as byte, p[offset]]
    ensures BlockEnd(p, offset) == offset + RunAt(p, offset)
  {
    hide RunAt;
  }

  lemma LiteralToken(p: bytes, offset: nat)
    requires offset < |p| && RunAt(p, offset) < 3
    ensures var end := LiteralEnd(p, offset, offset + RunAt(p, offset));
      BlockEnd(p, offset) == end
      && Token(p, offset) == [((end - offset - 1) % 256) as byte] + p[offset..end]
  {
    hide RunAt;
    hide LiteralEnd;
  }

  lemma CompressEnds(p: bytes)
    ensures [] + Compress(p, 0) == Compress(p, 0)
    ensures forall out: bytes :: out + Compress(p, |p|) == out
  {
  }

  lemma CompressStep(out: bytes, p: bytes, offset: nat)
    requires offset < |p|
    ensures out + Compress(p, offset) == (out + Token(p, offset)) + Compress(p, BlockEnd(p, offset))
  {
    hide Token;
    hide BlockEnd;
  }

  // ----- decompression -----------------------------------------------------------------

  function Repeat(b: byte, n: nat): (r: bytes)
    ensures |r| == n && forall k :: 0 <= k < n ==> r[k] == b
  {
    seq(n, _ => b)
  }

  /** What the tokens in `data` add to `out` before the limit is passed or a token is cut short. */
  function Expand(data: bytes, out: bytes, limit: nat): (r: Result<bytes, WireError>)
    ensures r.Ok? ==> out <= r.value && |r.value| <= |out| + 65 * |data|
    ensures r.Ok? ==> r.value == out || |r.value| <= limit
    decreases |data|
  {
    if data == [] then
      Ok(out)
    else if data[0] >= 0x80 then
      var count := data[0] as int % 0x80 + 3;
      if |data| < 2 then Err(InvalidRequest)
      else if |out| + count > limit then Err(MessageTooLarge)
      else Expand(data[2..], out + Repeat(data[1], count), limit)
    else
      var count := data[0] as int + 1;
      if |data| - 1 < count then Err(InvalidRequest)
      else if |out| + count > limit then Err(MessageTooLarge)
      else Expand(data[1 + count..], out + data[1..1 + count], limit)
  }

  function Min(a: nat, b: nat): nat {
    if a < b then a else b
  }

  method DecompressRunLength(payload: bytes, maxOutputBytes: nat) returns (r: Result<bytes, WireError>)
    ensures r == Expand(payload, [], maxOutputBytes)
  {
    hide Expand;
    hide Repeat;
    var out: bytes := [];
    var offset := 0;
    assert payload[0..] == payload;
    while offset < |payload|
      invariant 0 <= offset <= |payload|
      invariant Expand(payload[offset..], out, maxOutputBytes) == Expand(payload, [], maxOutputBytes)
    {
      ExpandAt(payload, offset, out, maxOutputBytes);
      var control := payload[offset];
      offset := offset + 1;
      if control >= 0x80 {
        if offset >= |payload| {
          return Err(InvalidRequest);
        }
        var count := control as int % 0x80 + 3;
        if count > maxOutputBytes - Min(maxOutputBytes, |out|) {
          return Err(MessageTooLarge);
        }
        var value := payload[offset];
        offset := offset + 1;
        out := out + Repeat(value, count);
        continue;
      }
      var count := control as int + 1;
      if |payload| - offset < count {
        return Err(InvalidRequest);
      }
      if count > maxOutputBytes - Min(maxOutputBytes, |out|) {
        return Err(MessageTooLarge);
      }
      out := out + payload[offset..offset + count];
      offset := offset + count;
    }
    ExpandNothing(payload, out, maxOutputBytes);
    return Ok(out);
  }

  /** One token read at an offset. */
  lemma ExpandAt(p: bytes, offset: nat, out: bytes, limit: nat)
    requires offset < |p|
    ensures var control := p[offset] as int;
      Expand(p[offset..], out, limit)
      == if control >= 0x80 then
           var count := control % 0x80 + 3;
           if offset + 1 >= |p| then Err(InvalidRequest)
           else if |out| + count > limit then Err(MessageTooLarge)
           else Expand(p[offset + 2..], out + Repeat(p[offset + 1], count), limit)
         else
           var count := control + 1;
           if |p| - (offset + 1) < count then Err(InvalidRequest)
           else if |out| + count > limit then Err(MessageTooLarge)
           else Expand(p[offset + 1 + count..], out + p[offset + 1..offset + 1 + count], limit)
  {
    hide Repeat;
    var data := p[offset..];
    var control := p[offset] as int;
    if control >= 0x80 {
      if offset + 1 < |p| {
        assert data[2..] == p[offset + 2..];
      }
    } else {
      var count := control + 1;
      if |p| - (offset + 1) >= count {
        assert data[1 + count..] == p[offset + 1 + count..];
        assert data[1..1 + count] == p[offset + 1..offset + 1 + count];
      }
    }
  }

  lemma ExpandNothing(p: bytes, out: bytes, limit: nat)
    ensures Expand(p[|p|..], out, limit) == Ok(out)
  {
  }

  // ----- the codec as a whole ----------------------------------------------------------------

  /** Without an overlong literal every block decodes to the bytes it came from. */
  lemma {:induction false} ExpandCompressed(p: bytes, offset: nat, out: bytes, limit: nat)
    requires offset <= |p| && !Overlong(p, offset)
    requires |out| + |p| - offset <= limit
    ensures Expand(Compress(p, offset), out, limit) == Ok(out + p[offset..])
    decreases |p| - offset
  {
    if offset < |p| {
      hide Token;
      hide OverlongAt;
      hide BlockEnd;
      hide Expand;
      var end := BlockEnd(p, offset);
      ExpandToken(p, offset, Compress(p, end), out, limit);
      ExpandCompressed(p, end, out + p[offset..end], limit);
      Rejoin(out, p, offset, end);
    } else {
      assert out + p[offset..] == out;
    }
  }

  lemma Rejoin(out: bytes, p: bytes, offset: nat, end: nat)
    requires offset <= end <= |p|
    ensures out + p[offset..end] + p[end..] == out + p[offset..]
  {
  }

  /** The token of a block that is not overlong decodes to the block, or passes the limit. */
  lemma ExpandToken(p: bytes, offset: nat, rest: bytes, out: bytes, limit: nat)
    requires offset < |p| && !OverlongAt(p, offset)
    ensures var end := BlockEnd(p, offset);
      Expand(Token(p, offset) + rest, out, limit)
      == if |out| + (end - offset) <= limit then Expand(rest, out + p[offset..end], limit) else Err(MessageTooLarge)
  {
    hide Expand;
    hide BlockEnd;
    hide Token;
    hide RunAt;
    hide Repeat;
    var end := BlockEnd(p, offset);
    if IsLiteral(p, offset) {
      LiteralToken(p, offset);
      ExpandLiteral(p[offset..end], rest, out, limit);
    } else {
      BlockIsRun(p, offset);
      ExpandRun(p[offset], end - offset, rest, out, limit);
    }
  }

  lemma BlockIsRun(p: bytes, offset: nat)
    requires offset < |p| && !IsLiteral(p, offset)
    ensures BlockEnd(p, offset) == offset + RunAt(p, offset)
    ensures Token(p, offset) == [(0x80 + (RunAt(p, offset) - 3)) as byte, p[offset]]
    ensures p[offset..BlockEnd(p, offset)] == Repeat(p[offset], RunAt(p, offset))
  {
    assert p[offset..offset + 1] == Repeat(p[offset], 1);
    RunIsUniform(p, offset, 1);
  }

  lemma ExpandLiteral(literal: bytes, rest: bytes, out: bytes, limit: nat)
    requires 1 <= |literal| <= LITERAL_LIMIT
    ensures Expand([((|literal| - 1) % 256) as byte] + literal + rest, out, limit)
         == if |out| + |literal| <= limit then Expand(rest, out + literal, limit) else Err(MessageTooLarge)
  {
    var data := [((|literal| - 1) % 256) as byte] + literal + rest;
    assert data[1..1 + |literal|] == literal;
    assert data[1 + |literal|..] == rest;
  }

  lemma ExpandRun(b: byte, count: nat, rest: bytes, out: bytes, limit: nat)
    requires 3 <= count <= MAX_RUN
    ensures Expand([(0x80 + (count - 3)) as byte, b] + rest, out, limit)
         == if |out| + count <= limit then Expand(rest, out + Repeat(b, count), limit) else Err(MessageTooLarge)
  {
    var data := [(0x80 + (count - 3)) as byte, b] + rest;
    assert data[2..] == rest;
  }

  /**
   * An overlong literal ends the match: its control byte 0x80 is read as a run of three, and three
   * equal bytes are not what a literal starts with.
   */
  lemma {:induction false} ExpandOverlong(p: bytes, offset: nat, out: bytes, limit: nat)
    requires offset <= |p| && Overlong(p, offset)
    ensures Expand(Compress(p, offset), out, limit) != Ok(out + p[offset..])
    decreases |p| - offset
  {
    hide BlockEnd;
    hide OverlongAt;
    hide Token;
    hide Expand;
    var end := BlockEnd(p, offset);
    if OverlongAt(p, offset) {
      ExpandOverlongToken(p, offset, Compress(p, end), out, limit);
    } else {
      ExpandToken(p, offset, Compress(p, end), out, limit);
      ExpandOverlong(p, end, out + p[offset..end], limit);
      Rejoin(out, p, offset, end);
    }
  }

  lemma ExpandOverlongToken(p: bytes, offset: nat, rest: bytes, out: bytes, limit: nat)
    requires offset < |p| && OverlongAt(p, offset)
    ensures Expand(Token(p, offset) + rest, out, limit) != Ok(out + p[offset..])
  {
    hide Expand;
    hide Token;
    hide Repeat;
    var result := Expand(Token(p, offset) + rest, out, limit);
    OverlongToken(p, offset);
    ReadsAsRun(Token(p, offset) + rest, out, limit);
    if result.Ok? {
      StartsAsRun(p, offset, out, result.value);
    }
  }

  lemma OverlongToken(p: bytes, offset: nat)
    requires offset < |p| && OverlongAt(p, offset)
    ensures offset + 3 <= |p| && |Token(p, offset)| >= 2
    ensures Token(p, offset)[0] == 0x80 && Token(p, offset)[1] == p[offset]
  {
    LiteralToken(p, offset);
    hide RunAt;
    hide LiteralEnd;
    hide Token;
    var end := BlockEnd(p, offset);
    assert end - offset == 129;
  }

  lemma ReadsAsRun(data: bytes, out: bytes, limit: nat)
    requires |data| >= 2 && data[0] == 0x80
    ensures var result := Expand(data, out, limit);
      result.Ok? ==> out + Repeat(data[1], 3) <= result.value
  {
    hide Repeat;
  }

  lemma StartsAsRun(p: bytes, offset: nat, out: bytes, result: bytes)
    requires offset + 3 <= |p| && IsLiteral(p, offset)
    requires out + Repeat(p[offset], 3) <= result
    ensures result != out + p[offset..]
  {
    var run := RunFrom(p, offset, 1);
    var k := |out| + run;
    assert result[k] == (out + Repeat(p[offset], 3))[k] == p[offset];
    assert (out + p[offset..])[k] == p[offset + run] != p[offset];
  }

  /**
   * Decompressing a compressed payload gives the payload back exactly when it fits the limit and no
   * literal block reaches 129 bytes.
   */
  lemma RoundTrip(p: bytes, limit: nat)
    ensures Expand(Compress(p, 0), [], limit) == Ok(p) <==> !Overlong(p, 0) && |p| <= limit
  {
    assert [] + p[0..] == p;
    if Overlong(p, 0) {
      ExpandOverlong(p, 0, [], limit);
    } else if |p| <= limit {
      ExpandCompressed(p, 0, [], limit);
    }
  }

  /** Short payloads are safe. */
  lemma {:induction false} ShortIsNotOverlong(p: bytes, offset: nat)
    requires offset <= |p| && |p| - offset <= LITERAL_LIMIT
    ensures !Overlong(p, offset)
    decreases |p| - offset
  {
    if offset < |p| {
      ShortIsNotOverlong(p, BlockEnd(p, offset));
    }
  }

  predicate Differs(p: bytes, k: nat)
    requires 0 < k < |p|
  {
    p[k] != p[k - 1]
  }

  ghost predicate NoEqualNeighbours(p: bytes) {
    forall k :: 0 < k < |p| ==> Differs(p, k)
  }

  /** Payloads in which no two neighbours are equal are safe: their literals end at exactly 128. */
  lemma {:induction false} AlternatingIsNotOverlong(p: bytes, offset: nat)
    requires offset <= |p| && NoEqualNeighbours(p)
    ensures !Overlong(p, offset)
    decreases |p| - offset
  {
    if offset < |p| {
      SingleRun(p, offset);
      AlternatingLiteral(p, offset, offset + 1);
      AlternatingIsNotOverlong(p, BlockEnd(p, offset));
    }
  }

  lemma SingleRun(p: bytes, offset: nat)
    requires offset < |p| && NoEqualNeighbours(p)
    ensures RunAt(p, offset) == 1
  {
    if offset + 1 < |p| {
      assert Differs(p, offset + 1);
    }
  }

  lemma {:induction false} AlternatingLiteral(p: bytes, begin: nat, offset: nat)
    requires begin < offset <= |p| && offset - begin <= LITERAL_LIMIT
    requires NoEqualNeighbours(p)
    ensures LiteralEnd(p, begin, offset) - begin <= LITERAL_LIMIT
    decreases |p| - offset
  {
    if offset < |p| && offset - begin < LITERAL_LIMIT {
      SingleRun(p, offset);
      AlternatingLiteral(p, begin, offset + 1);
    }
  }

  /** The smallest failing payload: 127 alternating bytes followed by an equal pair. */
  function Overflowing(): (p: bytes)
    ensures |p| == 129
  {
    seq(127, i requires 0 <= i => (i % 2) as byte) + [7, 7]
  }

  lemma OverflowingFails(limit: nat)
    ensures Overlong(Overflowing(), 0)
    ensures Expand(Compress(Overflowing(), 0), [], limit) != Ok(Overflowing())
  {
    var p := Overflowing();
    SingleAt(p, 0);
    ScanOverflowing(p, 1);
    RoundTrip(p, limit);
  }

  /** A payload that starts like that one and goes on with another byte. */
  ghost predicate StartsOverflowing(p: bytes) {
    |p| >= 129 && p[..129] == Overflowing() && (|p| > 129 ==> p[129] != 7)
  }

  lemma SingleAt(p: bytes, offset: nat)
    requires StartsOverflowing(p) && offset < 127
    ensures RunAt(p, offset) == 1
  {
    assert p[offset] == p[..129][offset] && p[offset + 1] == p[..129][offset + 1];
    assert p[offset + 1] != p[offset];
  }

  lemma {:induction false} ScanOverflowing(p: bytes, offset: nat)
    requires StartsOverflowing(p) && 1 <= offset <= 127
    ensures LiteralEnd(p, 0, offset) == 129
    decreases 127 - offset
  {
    if offset < 127 {
      SingleAt(p, offset);
      ScanOverflowing(p, offset + 1);
    } else {
      assert p[127] == p[..129][127] == 7 && p[128] == p[..129][128] == 7;
      assert RunFrom(p, 127, 1) == RunFrom(p, 127, 2) == 2;
    }
  }

  /** The same followed by a long run: it does get smaller, and is not restored. */
  function Shrinking(): (p: bytes)
    ensures |p| == 259
  {
    Overflowing() + Repeat(9, MAX_RUN)
  }

  lemma ShrinkingFails(limit: nat)
    ensures Overlong(Shrinking(), 0) && |Compress(Shrinking(), 0)| == 132
    ensures Expand(Compress(Shrinking(), 0), [], limit) != Ok(Shrinking())
  {
    var p := Shrinking();
    ShrinkingBlocks();
    CompressStep([], p, 0);
    CompressStep([], p, 129);
    CompressEnds(p);
    hide Token;
    hide BlockEnd;
    hide Compress;
    hide Expand;
    hide Shrinking;
    RoundTrip(p, limit);
  }

  /** Its two blocks: the overlong literal and the run. */
  lemma ShrinkingBlocks()
    ensures var p := Shrinking();
      && OverlongAt(p, 0) && BlockEnd(p, 0) == 129 && |Token(p, 0)| == 130
      && BlockEnd(p, 129) == 259 && |Token(p, 129)| == 2
  {
    var p := Shrinking();
    assert p[..129] == Overflowing() && p[129] == 9;
    SingleAt(p, 0);
    ScanOverflowing(p, 1);
    RunOfNines(p);
    LiteralToken(p, 0);
    RunToken(p, 129);
    hide Token;
    hide BlockEnd;
    hide RunAt;
    hide LiteralEnd;
    hide Shrinking;
  }

  lemma RunOfNines(p: bytes)
    requires p == Shrinking()
    ensures RunAt(p, 129) == MAX_RUN
  {
    assert forall k :: 129 <= k < 259 ==> p[k] == 9;
  }

  /** Three to 130 equal bytes are written as a control byte of 125 more and the byte; a longer run is cut at 130. */
  lemma RunsAsWritten(b: byte, n: nat)
    requires n >= 3
    ensures n <= 130 ==> Compress(Repeat(b, n), 0) == [(125 + n) as byte, b]
    ensures n > 130 ==> Token(Repeat(b, n), 0) == [0xFF, b] && BlockEnd(Repeat(b, n), 0) == 130
  {
    var p := Repeat(b, n);
    UniformRun(p, 1);
    RunToken(p, 0);
    OneBlock(p);
  }

  lemma {:induction false} UniformRun(p: bytes, run: nat)
    requires 1 <= run <= |p| && run <= MAX_RUN && forall k :: 0 <= k < |p| ==> p[k] == p[0]
    ensures RunFrom(p, 0, run) == if |p| < MAX_RUN then |p| else MAX_RUN
    decreases |p| - run
  {
    if run < |p| && run < MAX_RUN {
      UniformRun(p, run + 1);
    }
  }

  /** Up to 128 bytes without equal neighbours are written as one less than their number and themselves. */
  lemma LiteralsAsWritten(p: bytes)
    requires 1 <= |p| <= 128 && NoEqualNeighbours(p)
    ensures Compress(p, 0) == [(|p| - 1) as byte] + p
  {
    hide Compress;
    hide BlockEnd;
    hide Token;
    hide LiteralEnd;
    hide RunAt;
    hide NoEqualNeighbours;
    SingleRun(p, 0);
    AlternatingEnd(p, 1);
    LiteralToken(p, 0);
    OneBlock(p);
    WholeSlice(p);
  }

  lemma WholeSlice(p: bytes)
    ensures p[0..|p|] == p
  {
  }

  lemma OneBlock(p: bytes)
    requires p != []
    ensures BlockEnd(p, 0) == |p| ==> Compress(p, 0) == Token(p, 0)
  {
    hide BlockEnd;
    hide Token;
    if BlockEnd(p, 0) == |p| {
      assert Token(p, 0) + [] == Token(p, 0);
    }
  }

  lemma {:induction false} AlternatingEnd(p: bytes, offset: nat)
    requires 1 <= offset <= |p| <= 128 && NoEqualNeighbours(p)
    ensures LiteralEnd(p, 0, offset) == |p|
    decreases |p| - offset
  {
    if offset < |p| {
      SingleRun(p, offset);
      AlternatingEnd(p, offset + 1);
    }
  }

  /** Two equal bytes are no run yet. */
  lemma PairAsWritten(b: byte)
    ensures Compress([b, b], 0) == [1, b, b]
  {
    var p := [b, b];
    assert RunFrom(p, 0, 1) == RunFrom(p, 0, 2) == 2;
    LiteralToken(p, 0);
    OneBlock(p);
    assert p[0..2] == p;
  }

  /** A run of up to 130 equal bytes is written in two. */
  lemma RunCompresses(b: byte, n: nat)
    requires 3 <= n <= MAX_RUN
    ensures |Compress(Repeat(b, n), 0)| == 2 && !Overlong(Repeat(b, n), 0)
  {
    var p := Repeat(b, n);
    assert BlockEnd(p, 0) == n;
  }

  /** Every block takes at least two bytes. */
  lemma CompressesToSomething(p: bytes)
    requires p != []
    ensures |Compress(p, 0)| >= 2
  {
  }

  /** A literal block takes in 129 bytes at most. */
  lemma LiteralBlocksAreShort(p: bytes, offset: nat)
    requires offset < |p| && IsLiteral(p, offset)
    ensures BlockEnd(p, offset) - offset <= LITERAL_LIMIT + 1
  {
  }

  /** Compression never costs more than one control byte per 128 payload bytes, plus one. */
  lemma {:induction false} CompressedSize(p: bytes, offset: nat)
    requires offset <= |p|
    ensures |Compress(p, offset)| <= |p| - offset + (|p| - offset) / 128 + if offset < |p| then 1 else 0
    decreases |p| - offset
  {
    if offset < |p| {
      var end := BlockEnd(p, offset);
      CompressedSize(p, end);
      if IsLiteral(p, offset) && end < |p| && end - offset < LITERAL_LIMIT {
        assert !IsLiteral(p, end);
        CompressedSize(p, BlockEnd(p, end));
      }
    }
  }
}
