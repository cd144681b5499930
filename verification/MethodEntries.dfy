/** The value of a method-table extension: a format byte, a count, then the entries. */
module MethodEntries {
  import opened Bytes
  import opened Wrappers

  type Name = bytes

  datatype MethodState = Active | Removed

  datatype Entry = Entry(id: u64, name: Name, signatureHash: u64, state: MethodState)

  const FORMAT_VERSION: u8 := 2
  const MAX_NAME := 0xFFFF
  const COUNT_RADIX := 0x1_0000_0000

  /** The entries whose names a 16-bit length can express, in order. */
  function Kept(entries: seq<Entry>): (r: seq<Entry>)
    ensures |r| <= |entries|
  {
    if entries == [] then
      []
    else
      (if |entries[0].name| <= MAX_NAME then [entries[0]] else []) + Kept(entries[1..])
  }

  lemma {:induction false} KeptMembers(entries: seq<Entry>)
    ensures forall e :: e in Kept(entries) <==> e in entries && |e.name| <= MAX_NAME
  {
    if entries != [] {
      KeptMembers(entries[1..]);
      assert entries == [entries[0]] + entries[1..];
    }
  }

  lemma {:induction false} KeptAll(entries: seq<Entry>)
    requires forall e :: e in entries ==> |e.name| <= MAX_NAME
    ensures Kept(entries) == entries
  {
    if entries != [] {
      KeptAll(entries[1..]);
    }
  }

  function StateByte(state: MethodState): u8 {
    match state
    case Active => 0
    case Removed => 1
  }

  function EntryBytes(e: Entry): (r: bytes)
    ensures |r| == 19 + |e.name|
  {
    BigEndian(8, e.id) + BigEndian(1, StateByte(e.state)) + BigEndian(8, e.signatureHash)
    + BigEndian(2, |e.name|) + e.name
  }

  function EntriesBytes(entries: seq<Entry>): bytes {
    if entries == [] then [] else EntryBytes(entries[0]) + EntriesBytes(entries[1..])
  }

  function Encode(entries: seq<Entry>): bytes {
    BigEndian(1, FORMAT_VERSION) + BigEndian(4, |Kept(entries)|) + EntriesBytes(Kept(entries))
  }

  /** The first entry of a buffer, if it holds a whole one. */
  function ParseEntry(data: bytes): (r: Option<Entry>)
    ensures r.Some? ==> 19 + |r.value.name| <= |data| && |r.value.name| <= MAX_NAME
  {
    if |data| < 19 then
      None
    else
      var rawState := FromBigEndian(data[8..9]);
      var nameSize := FromBigEndian(data[17..19]);
      Widths(data);
      if rawState != 0 && rawState != 1 then None
      else if |data| - 19 < nameSize then None
      else Some(Entry(FromBigEndian(data[0..8]), data[19..19 + nameSize], FromBigEndian(data[9..17]),
                      if rawState == 0 then Active else Removed))
  }

  lemma Widths(data: bytes)
    requires |data| >= 19
    ensures FromBigEndian(data[0..8]) < Radix(8) == 0x1_0000_0000_0000_0000
    ensures FromBigEndian(data[9..17]) < 0x1_0000_0000_0000_0000
    ensures FromBigEndian(data[17..19]) < 0x1_0000
  {
    WriteAfterRead(data[0..8]);
    WriteAfterRead(data[9..17]);
    WriteAfterRead(data[17..19]);
    Radixes();
  }

  /** Exactly `count` entries filling the whole buffer. */
  function ParseEntries(data: bytes, count: nat): Option<seq<Entry>>
    decreases count
  {
    if count == 0 then
      if data == [] then Some([]) else None
    else
      var e := ParseEntry(data);
      if e == None then
        None
      else
        var rest := ParseEntries(data[19 + |e.value.name|..], count - 1);
        if rest == None then None else Some([e.value] + rest.value)
  }

  function Parse(value: bytes): Option<seq<Entry>> {
    if |value| >= 5 && FromBigEndian(value[0..1]) == FORMAT_VERSION then
      ParseEntries(value[5..], FromBigEndian(value[1..5]))
    else
      None
  }

  /** The first pass counts what the second pass writes, in 32 bits. */
  method CountKept(entries: seq<Entry>) returns (count: nat)
    ensures count == |Kept(entries)| % COUNT_RADIX
  {
    assert entries[0..] == entries;
    hide Kept;
    count := 0;
    ghost var n := 0;
    for i := 0 to |entries|
      invariant count == n % COUNT_RADIX
      invariant n + |Kept(entries[i..])| == |Kept(entries)|
    {
      Shift(entries, i);
      NextCount(n);
      if |entries[i].name| <= MAX_NAME {
        count := (count + 1) % COUNT_RADIX;
        n := n + 1;
      }
    }
    NothingKept(entries);
  }

  lemma NothingKept(entries: seq<Entry>)
    ensures Kept(entries[|entries|..]) == []
  {
  }

  lemma NextCount(n: nat)
    ensures (n % COUNT_RADIX + 1) % COUNT_RADIX == (n + 1) % COUNT_RADIX
  {
  }

  method EncodeMethodEntries(entries: seq<Entry>) returns (value: bytes)
    ensures value == Encode(entries)
  {
    var count := CountKept(entries);
    Radixes();
    CountWraps(|Kept(entries)|);
    value := AppendInteger([], 1, FORMAT_VERSION);
    value := AppendInteger(value, 4, count);
    for i := 0 to |entries|
      invariant value + EntriesBytes(Kept(entries[i..])) == Encode(entries)
    {
      Shift(entries, i);
      var e := entries[i];
      if |e.name| > MAX_NAME {
        continue;
      }
      AppendStep(value, e, Kept(entries[i + 1..]));
      value := AppendInteger(value, 8, e.id);
      value := AppendInteger(value, 1, StateByte(e.state));
      value := AppendInteger(value, 8, e.signatureHash);
      value := AppendInteger(value, 2, |e.name|);
      value := value + e.name;
    }
  }

  lemma Shift(entries: seq<Entry>, i: nat)
    requires i < |entries|
    ensures Kept(entries[i..])
         == if |entries[i].name| <= MAX_NAME then [entries[i]] + Kept(entries[i + 1..]) else Kept(entries[i + 1..])
  {
    assert entries[i..][0] == entries[i] && entries[i..][1..] == entries[i + 1..];
  }

  lemma AppendStep(value: bytes, e: Entry, rest: seq<Entry>)
    ensures value + EntriesBytes([e] + rest)
         == value + BigEndian(8, e.id) + BigEndian(1, StateByte(e.state)) + BigEndian(8, e.signatureHash)
            + BigEndian(2, |e.name|) + e.name + EntriesBytes(rest)
  {
    hide StateByte;
    hide BigEndian;
    assert ([e] + rest)[1..] == rest;
    assert EntriesBytes([e] + rest) == EntryBytes(e) + EntriesBytes(rest);
  }

  /** A 32-bit field keeps the count modulo 2^32. */
  lemma CountWraps(n: nat)
    ensures BigEndian(4, n) == BigEndian(4, n % COUNT_RADIX)
  {
    Radixes();
    WriteWraps(4, n % COUNT_RADIX, n / COUNT_RADIX);
  }

  /** Walks the value by offset; anything cut short, left over or of unknown state is an error. */
  method ParseMethodEntries(value: bytes) returns (r: Option<seq<Entry>>)
    ensures r == Parse(value)
  {
    if |value| < 4 {
      return None;
    }
    if |value| >= 5 {
      var format := ReadInteger(value, 0, 1);
      if format == FORMAT_VERSION {
        var count := ReadInteger(value, 1, 4);
        r := ParseBody(value, count);
        return;
      }
    }
    return None;
  }

  method ParseBody(value: bytes, count: nat) returns (r: Option<seq<Entry>>)
    requires |value| >= 5
    ensures r == ParseEntries(value[5..], count)
  {
    hide ParseEntry;
    var entries := [];
    var offset := 5;
    PrependNothing(ParseEntries(value[5..], count));
    for ix := 0 to count
      invariant 5 <= offset <= |value|
      invariant ParseEntries(value[5..], count) == Prepend(entries, ParseEntries(value[offset..], count - ix))
    {
      var e := ReadEntry(value, offset);
      if e == None {
        return None;
      }
      PrependStep(entries, value[offset..], count - ix);
      assert value[offset..][19 + |e.value.name|..] == value[offset + 19 + |e.value.name|..];
      entries := entries + [e.value];
      offset := offset + 19 + |e.value.name|;
    }
    if offset == |value| {
      assert value[offset..] == [];
      assert entries + [] == entries;
      return Some(entries);
    }
    return None;
  }

  /** Reads the entry at `offset`, or nothing when it is cut short or of unknown state. */
  method ReadEntry(value: bytes, offset: nat) returns (r: Option<Entry>)
    requires offset <= |value|
    ensures r == ParseEntry(value[offset..])
  {
    if |value| - offset < 19 {
      return None;
    }
    Widths(value[offset..]);
    SubSlices(value, offset);
    var id := ReadInteger(value, offset, 8);
    var rawState := ReadInteger(value, offset + 8, 1);
    if rawState != 0 && rawState != 1 {
      return None;
    }
    var hash := ReadInteger(value, offset + 9, 8);
    var nameSize := ReadInteger(value, offset + 17, 2);
    if |value| - (offset + 19) < nameSize {
      return None;
    }
    var name := value[offset + 19..offset + 19 + nameSize];
    assert name == value[offset..][19..19 + nameSize];
    return Some(Entry(id, name, hash, if rawState == 0 then Active else Removed));
  }

  lemma SubSlices(value: bytes, offset: nat)
    requires offset + 19 <= |value|
    ensures value[offset..][0..8] == value[offset..offset + 8]
    ensures value[offset..][8..9] == value[offset + 8..offset + 9]
    ensures value[offset..][9..17] == value[offset + 9..offset + 17]
    ensures value[offset..][17..19] == value[offset + 17..offset + 19]
  {
  }

  ghost function Prepend(done: seq<Entry>, rest: Option<seq<Entry>>): Option<seq<Entry>> {
    if rest == None then None else Some(done + rest.value)
  }

  lemma PrependStep(done: seq<Entry>, data: bytes, count: nat)
    requires count > 0 && ParseEntry(data).Some?
    ensures var e := ParseEntry(data).value;
      Prepend(done, ParseEntries(data, count))
      == Prepend(done + [e], ParseEntries(data[19 + |e.name|..], count - 1))
  {
    var e := ParseEntry(data).value;
    var rest := ParseEntries(data[19 + |e.name|..], count - 1);
    if rest.Some? {
      assert done + ([e] + rest.value) == done + [e] + rest.value;
    }
  }

  lemma PrependNothing(rest: Option<seq<Entry>>)
    ensures Prepend([], rest) == rest
  {
    if rest.Some? {
      assert [] + rest.value == rest.value;
    }
  }

  lemma ParseWrittenEntry(e: Entry, rest: bytes)
    requires |e.name| <= MAX_NAME
    ensures ParseEntry(EntryBytes(e) + rest) == Some(e)
    ensures (EntryBytes(e) + rest)[19 + |e.name|..] == rest
  {
    var data := EntryBytes(e) + rest;
    Radixes();
    assert data[0..8] == BigEndian(8, e.id);
    assert data[8..9] == BigEndian(1, StateByte(e.state));
    assert data[9..17] == BigEndian(8, e.signatureHash);
    assert data[17..19] == BigEndian(2, |e.name|);
    ReadAfterWrite(8, e.id);
    ReadAfterWrite(1, StateByte(e.state));
    ReadAfterWrite(8, e.signatureHash);
    ReadAfterWrite(2, |e.name|);
    assert data[19..19 + |e.name|] == e.name;
  }

  lemma WriteParsedEntry(data: bytes)
    requires ParseEntry(data).Some?
    ensures var e := ParseEntry(data).value; data == EntryBytes(e) + data[19 + |e.name|..]
  {
    var e := ParseEntry(data).value;
    Widths(data);
    WriteAfterRead(data[0..8]);
    WriteAfterRead(data[8..9]);
    WriteAfterRead(data[9..17]);
    WriteAfterRead(data[17..19]);
    assert BigEndian(1, StateByte(e.state)) == data[8..9];
    assert data == data[0..8] + data[8..9] + data[9..17] + data[17..19] + data[19..19 + |e.name|]
                   + data[19 + |e.name|..];
  }

  /** Writing entries and reading a given number of them back. */
  lemma {:induction false} ParseWrittenEntries(entries: seq<Entry>, count: nat)
    requires forall e :: e in entries ==> |e.name| <= MAX_NAME
    requires count <= |entries|
    ensures ParseEntries(EntriesBytes(entries), count) == if count == |entries| then Some(entries) else None
  {
    hide EntryBytes;
    hide ParseEntry;
    if entries != [] && count > 0 {
      ParseWrittenEntry(entries[0], EntriesBytes(entries[1..]));
      ParseWrittenEntries(entries[1..], count - 1);
      assert entries == [entries[0]] + entries[1..];
    } else if entries != [] {
      assert |EntryBytes(entries[0])| > 0;
    }
  }

  lemma {:induction false} WriteParsedEntries(data: bytes, count: nat)
    requires ParseEntries(data, count).Some?
    ensures var es := ParseEntries(data, count).value;
      |es| == count && (forall e :: e in es ==> |e.name| <= MAX_NAME) && EntriesBytes(es) == data
    decreases count
  {
    hide EntryBytes;
    hide ParseEntry;
    if count > 0 {
      var e := ParseEntry(data).value;
      var rest := data[19 + |e.name|..];
      WriteParsedEntry(data);
      WriteParsedEntries(rest, count - 1);
      var more := ParseEntries(rest, count - 1).value;
      assert ([e] + more)[1..] == more;
    }
  }

  /**
   * Reading back an encoded list drops the entries whose names are too long and changes nothing else;
   * a list of 2^32 or more encodable entries, whose count does not fit, reads back as an error.
   */
  lemma ParseEncoded(entries: seq<Entry>)
    ensures Parse(Encode(entries)) == if |Kept(entries)| < COUNT_RADIX then Some(Kept(entries)) else None
  {
    hide BigEndian;
    hide EntriesBytes;
    hide ParseEntries;
    var kept := Kept(entries);
    var value := Encode(entries);
    var count := |kept| % COUNT_RADIX;
    Radixes();
    CountWraps(|kept|);
    assert value[0..1] == BigEndian(1, FORMAT_VERSION);
    assert value[1..5] == BigEndian(4, count);
    assert value[5..] == EntriesBytes(kept);
    ReadAfterWrite(1, FORMAT_VERSION);
    ReadAfterWrite(4, count);
    KeptMembers(entries);
    ParseWrittenEntries(kept, count);
  }

  /** The accepted values are exactly the encodings, so the two directions form a bijection. */
  lemma ParsesExactlyTheEncodings(value: bytes, entries: seq<Entry>)
    ensures Parse(value) == Some(entries)
       <==> value == Encode(entries) && |entries| < COUNT_RADIX && forall e :: e in entries ==> |e.name| <= MAX_NAME
  {
    hide EntriesBytes;
    hide ParseEntries;
    if Parse(value) == Some(entries) {
      WriteParsedEntries(value[5..], FromBigEndian(value[1..5]));
      WriteAfterRead(value[0..1]);
      WriteAfterRead(value[1..5]);
      Radixes();
      KeptAll(entries);
      assert value == value[0..1] + value[1..5] + value[5..];
    }
    if value == Encode(entries) && |entries| < COUNT_RADIX && forall e :: e in entries ==> |e.name| <= MAX_NAME {
      KeptAll(entries);
      ParseEncoded(entries);
    }
  }
}
