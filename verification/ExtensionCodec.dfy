/** Extension TLVs: a 16-bit type, a 16-bit size, then the value bytes. */
module ExtensionCodec {
  import opened Bytes
  import opened Wrappers

  /** Extensions keyed by wire type; `Ascending` lists the types in the order they are written. */
  newtype ExtensionType = x: int | 0 <= x < 0x1_0000

  type ExtensionMap = map<ExtensionType, bytes>

  const METHOD_ID: ExtensionType := 1
  const METHOD_TABLE_VERSION: ExtensionType := 2
  const METHOD_TABLE: ExtensionType := 3
  const METHOD_TABLE_DELTA: ExtensionType := 4
  const METHOD_SIGNATURE_HASH: ExtensionType := 5
  const METHOD_MINIMUM_COMPATIBLE_VERSION: ExtensionType := 6
  const COMPRESSION: ExtensionType := 16
  const COMPRESSION_ALGORITHM: ExtensionType := 17
  const COMPRESSION_MIN_PAYLOAD_SIZE: ExtensionType := 18

  /** The members of s from k upwards, in ascending order. */
  function Ascending(s: set<ExtensionType>, k: nat): (r: seq<ExtensionType>)
    requires k <= 0x1_0000
    decreases 0x1_0000 - k
  {
    if k == 0x1_0000 then [] else (if k as ExtensionType in s then [k as ExtensionType] else []) + Ascending(s, k + 1)
  }

  lemma {:induction false} AscendingMembers(s: set<ExtensionType>, k: nat, t: ExtensionType)
    requires k <= 0x1_0000
    ensures t in Ascending(s, k) <==> t in s && k <= t as int
    decreases 0x1_0000 - k
  {
    if k < 0x1_0000 {
      AscendingMembers(s, k + 1, t);
    }
  }

  lemma {:induction false} AscendingIncreases(s: set<ExtensionType>, k: nat)
    requires k <= 0x1_0000
    ensures Increasing(Ascending(s, k))
    decreases 0x1_0000 - k
  {
    if k < 0x1_0000 {
      AscendingIncreases(s, k + 1);
      var rest := Ascending(s, k + 1);
      if k as ExtensionType in s {
        var all := [k as ExtensionType] + rest;
        forall i, j | 0 <= i < j < |all| ensures all[i] < all[j] {
          AscendingMembers(s, k + 1, rest[j - 1]);
          assert all[j] == rest[j - 1];
        }
        assert Ascending(s, k) == all;
      } else {
        assert Ascending(s, k) == rest;
      }
    }
  }

  lemma AscendingLists(s: set<ExtensionType>)
    ensures forall t :: t in Ascending(s, 0) <==> t in s
    ensures Increasing(Ascending(s, 0))
  {
    AscendingIncreases(s, 0);
    forall t ensures t in Ascending(s, 0) <==> t in s {
      AscendingMembers(s, 0, t);
    }
  }

  ghost predicate Increasing(types: seq<ExtensionType>) {
    forall i, j :: 0 <= i < j < |types| ==> types[i] < types[j]
  }

  predicate Fits(m: ExtensionMap) {
    forall t :: t in m ==> |m[t]| <= 0xFFFF
  }

  function Tlv(t: ExtensionType, value: bytes): (r: bytes)
    ensures |r| == 4 + |value|
  {
    BigEndian(2, t as int) + BigEndian(2, |value|) + value
  }

  /** The TLVs of the listed types, in list order. */
  function Layout(types: seq<ExtensionType>, m: ExtensionMap): bytes
    requires forall t :: t in types ==> t in m
  {
    if types == [] then [] else Tlv(types[0], m[types[0]]) + Layout(types[1..], m)
  }

  ghost predicate Distinct(types: seq<ExtensionType>) {
    forall i, j :: 0 <= i < j < |types| ==> types[i] != types[j]
  }

  /** types lists the keys of m, each once. */
  ghost predicate Lists(types: seq<ExtensionType>, m: ExtensionMap) {
    Distinct(types) && forall t :: t in types <==> t in m
  }

  /** The entries of m in ascending order of type. */
  function EncodeTlvs(m: ExtensionMap): bytes {
    AscendingLists(m.Keys);
    Layout(Ascending(m.Keys, 0), m)
  }

  lemma LayoutStep(buffer: bytes, types: seq<ExtensionType>, i: nat, m: ExtensionMap)
    requires i < |types| && forall t :: t in types ==> t in m
    ensures buffer + Layout(types[i..], m)
         == buffer + BigEndian(2, types[i] as int) + BigEndian(2, |m[types[i]]|) + m[types[i]]
            + Layout(types[i + 1..], m)
  {
    var t, rest := types[i], Layout(types[i + 1..], m);
    assert types[i..][0] == t && types[i..][1..] == types[i + 1..];
    assert Layout(types[i..], m) == Tlv(t, m[t]) + rest;
    assert buffer + (Tlv(t, m[t]) + rest) == buffer + BigEndian(2, t as int) + BigEndian(2, |m[t]|) + m[t] + rest;
  }

  lemma LayoutSize(types: seq<ExtensionType>, i: nat, m: ExtensionMap)
    requires i < |types| && forall t :: t in types ==> t in m
    ensures |Layout(types[i..], m)| == 4 + |m[types[i]]| + |Layout(types[i + 1..], m)|
  {
    assert types[i..][0] == types[i] && types[i..][1..] == types[i + 1..];
  }

  /** Appends every extension, or refuses as soon as one value is over 65535 bytes. */
  method AppendTlvs(out: bytes, extensions: ExtensionMap) returns (r: Option<bytes>)
    ensures r.Some? <==> Fits(extensions)
    ensures r.Some? ==> r.value == out + EncodeTlvs(extensions)
  {
    var types := Ascending(extensions.Keys, 0);
    AppendBounds(out, extensions);
    hide Ascending;
    hide Layout;
    hide EncodeTlvs;
    hide BigEndian;
    hide Leads;
    hide Fits;
    hide FitUpTo;
    var buffer := out;
    for i := 0 to |types|
      invariant FitUpTo(types, i, extensions)
      invariant Leads(buffer, types, i, extensions, out + EncodeTlvs(extensions))
    {
      var value := extensions[types[i]];
      FitOneMore(types, i, extensions);
      if |value| > 0xFFFF {
        return None;
      }
      LeadsOn(buffer, types, i, extensions, out + EncodeTlvs(extensions));
      buffer := AppendInteger(buffer, 2, types[i] as int);
      buffer := AppendInteger(buffer, 2, |value|);
      buffer := buffer + value;
    }
    AppendDone(buffer, types, extensions, out + EncodeTlvs(extensions));
    return Some(buffer);
  }

  ghost predicate FitUpTo(types: seq<ExtensionType>, n: nat, m: ExtensionMap)
    requires n <= |types| && forall t :: t in types ==> t in m
  {
    forall j :: 0 <= j < n ==> |m[types[j]]| <= 0xFFFF
  }

  /** The buffer and what is still to come make up the goal. */
  ghost predicate Leads(buffer: bytes, types: seq<ExtensionType>, i: nat, m: ExtensionMap, goal: bytes)
    requires i <= |types| && forall t :: t in types ==> t in m
  {
    buffer + Layout(types[i..], m) == goal
  }

  lemma LeadsOn(buffer: bytes, types: seq<ExtensionType>, i: nat, m: ExtensionMap, goal: bytes)
    requires i < |types| && (forall t :: t in types ==> t in m) && Leads(buffer, types, i, m, goal)
    ensures Leads(buffer + BigEndian(2, types[i] as int) + BigEndian(2, |m[types[i]]|) + m[types[i]],
                  types, i + 1, m, goal)
  {
    LayoutStep(buffer, types, i, m);
    hide Layout;
    hide BigEndian;
  }

  /** Where appending starts. */
  lemma AppendBounds(out: bytes, m: ExtensionMap)
    ensures var types := Ascending(m.Keys, 0);
      && (forall t :: t in types <==> t in m)
      && FitUpTo(types, 0, m) && Leads(out, types, 0, m, out + EncodeTlvs(m))
    ensures Radix(2) == 0x1_0000
  {
    AscendingLists(m.Keys);
    Radixes();
    var types := Ascending(m.Keys, 0);
    assert types[0..] == types;
  }

  lemma FitOneMore(types: seq<ExtensionType>, i: nat, m: ExtensionMap)
    requires i < |types| && (forall t :: t in types ==> t in m) && FitUpTo(types, i, m)
    ensures if |m[types[i]]| > 0xFFFF then !Fits(m) else FitUpTo(types, i + 1, m)
  {
  }

  /** Where it ends. */
  lemma AppendDone(buffer: bytes, types: seq<ExtensionType>, m: ExtensionMap, goal: bytes)
    requires (forall t :: t in types <==> t in m) && FitUpTo(types, |types|, m)
    requires Leads(buffer, types, |types|, m, goal)
    ensures Fits(m) && buffer == goal
  {
    assert types[|types|..] == [];
  }

  function TypeIn(s: bytes): ExtensionType
    requires |s| == 2
  {
    TwoBytes(s);
    FromBigEndian(s) as ExtensionType
  }

  /** What loading `data` on top of `m` gives: none when a TLV is cut short or repeats a type. */
  function Load(data: bytes, m: ExtensionMap): Option<ExtensionMap>
    decreases |data|
  {
    if data == [] then
      Some(m)
    else if |data| < 4 then
      None
    else
      var t := TypeIn(data[..2]);
      var size := FromBigEndian(data[2..4]);
      if |data| - 4 < size || t in m then
        None
      else
        Load(data[4 + size..], m[t := data[4..4 + size]])
  }

  lemma TwoBytes(s: bytes)
    requires |s| == 2
    ensures FromBigEndian(s) < 0x1_0000
  {
    WriteAfterRead(s);
    Radixes();
  }

  /** Loading at an offset, one TLV at a time. */
  lemma LoadAt(data: bytes, offset: nat, m: ExtensionMap)
    requires offset < |data|
    ensures Load(data[offset..], m)
         == if |data| - offset < 4 then None
            else
              var size := FromBigEndian(data[offset + 2..offset + 4]);
              var t := TypeIn(data[offset..offset + 2]);
              if |data| - offset - 4 < size || t in m then None
              else Load(data[offset + 4 + size..], m[t := data[offset + 4..offset + 4 + size]])
  {
    var rest := data[offset..];
    if |rest| >= 4 {
      assert rest[..2] == data[offset..offset + 2] && rest[2..4] == data[offset + 2..offset + 4];
      var size := FromBigEndian(data[offset + 2..offset + 4]);
      if |rest| - 4 >= size {
        assert rest[4..4 + size] == data[offset + 4..offset + 4 + size];
        assert rest[4 + size..] == data[offset + 4 + size..];
      }
    }
  }

  lemma LoadEnds(data: bytes, m: ExtensionMap)
    ensures data[0..] == data && Load(data[|data|..], m) == Some(m)
  {
  }

  /** Walks the buffer by offset; a type that repeats is an error. */
  method LoadTlvs(data: bytes) returns (r: Option<ExtensionMap>)
    ensures r == Load(data, map[])
  {
    hide Load;
    hide FromBigEndian;
    var extensions: ExtensionMap := map[];
    var offset := 0;
    LoadEnds(data, extensions);
    while offset < |data|
      invariant 0 <= offset <= |data|
      invariant Load(data, map[]) == Load(data[offset..], extensions)
    {
      LoadAt(data, offset, extensions);
      if |data| - offset < 4 {
        return None;
      }
      TwoBytes(data[offset..offset + 2]);
      var wireType := ReadInteger(data, offset, 2);
      var t := wireType as ExtensionType;
      var size := ReadInteger(data, offset + 2, 2);
      offset := offset + 4;
      if |data| - offset < size || t in extensions {
        return None;
      }
      extensions := extensions[t := data[offset..offset + size]];
      offset := offset + size;
    }
    LoadEnds(data, extensions);
    return Some(extensions);
  }

  /** One TLV in front of the buffer is read off whole. */
  lemma LoadOne(t: ExtensionType, value: bytes, rest: bytes, m: ExtensionMap)
    requires |value| <= 0xFFFF
    ensures Load(Tlv(t, value) + rest, m) == if t in m then None else Load(rest, m[t := value])
  {
    var data := Tlv(t, value) + rest;
    TlvParts(t, value, rest);
    TypeRead(t);
    ReadAfterWrite(2, |value|);
    hide Tlv;
    hide TypeIn;
    hide BigEndian;
    hide FromBigEndian;
  }

  lemma TlvParts(t: ExtensionType, value: bytes, rest: bytes)
    ensures var data := Tlv(t, value) + rest;
      && data[..2] == BigEndian(2, t as int) && data[2..4] == BigEndian(2, |value|)
      && data[4..4 + |value|] == value && data[4 + |value|..] == rest
  {
  }

  lemma TypeRead(t: ExtensionType)
    ensures TypeIn(BigEndian(2, t as int)) == t
    ensures Radix(2) == 0x1_0000
  {
    Radixes();
    ReadAfterWrite(2, t as int);
  }

  /** `types` are the keys of m that `seen` lacks, each once, and `seen` is part of m. */
  ghost predicate Completes(types: seq<ExtensionType>, seen: ExtensionMap, m: ExtensionMap) {
    && Distinct(types)
    && (forall t :: t in types ==> t in m && t !in seen)
    && (forall t :: t in m ==> t in types || t in seen)
    && (forall t :: t in seen ==> t in m && m[t] == seen[t])
  }

  lemma CompletesStep(types: seq<ExtensionType>, seen: ExtensionMap, m: ExtensionMap)
    requires types != [] && Completes(types, seen, m)
    ensures Completes(types[1..], seen[types[0] := m[types[0]]], m)
  {
    RestIsDistinct(types);
    hide Distinct;
  }

  lemma RestIsDistinct(types: seq<ExtensionType>)
    requires types != [] && Distinct(types)
    ensures Distinct(types[1..]) && types[0] !in types[1..]
    ensures forall t :: t in types <==> t == types[0] || t in types[1..]
  {
    assert types == [types[0]] + types[1..];
    forall i | 0 <= i < |types[1..]| ensures types[1..][i] == types[i + 1] {
    }
  }

  lemma CompletesPrepend(t: ExtensionType, types: seq<ExtensionType>, seen: ExtensionMap, value: bytes, m: ExtensionMap)
    requires t !in seen && Completes(types, seen[t := value], m)
    ensures Completes([t] + types, seen, m)
  {
    var all := [t] + types;
    assert forall u :: u in all <==> u == t || u in types;
    assert t in m;
    forall i, j | 0 <= i < j < |all| ensures all[i] != all[j] {
      assert all[j] == types[j - 1];
      if i == 0 {
        assert types[j - 1] in types;
      }
    }
  }

  /** TLVs of fresh distinct types load in any order. */
  lemma {:induction false} LoadLayout(types: seq<ExtensionType>, seen: ExtensionMap, m: ExtensionMap)
    requires Completes(types, seen, m) && Fits(m)
    ensures Load(Layout(types, m), seen) == Some(m)
  {
    if types == [] {
      assert seen == m;
    } else {
      var t := types[0];
      LoadOne(t, m[t], Layout(types[1..], m), seen);
      CompletesStep(types, seen, m);
      LoadLayout(types[1..], seen[t := m[t]], m);
    }
  }

  /** Whatever loads is the TLVs of distinct fresh types one after another. */
  lemma {:induction false} LoadedLayout(data: bytes, seen: ExtensionMap) returns (types: seq<ExtensionType>)
    requires Load(data, seen).Some?
    ensures Completes(types, seen, Load(data, seen).value)
    ensures forall t :: t in types ==> |Load(data, seen).value[t]| <= 0xFFFF
    ensures data == Layout(types, Load(data, seen).value)
    decreases |data|
  {
    if data == [] {
      types := [];
    } else {
      var t, value := SplitOne(data);
      var rest := data[4 + |value|..];
      LoadOne(t, value, rest, seen);
      var m := Load(data, seen).value;
      types := LoadedLayout(rest, seen[t := value]);
      CompletesPrepend(t, types, seen, value, m);
      assert ([t] + types)[1..] == types;
      assert m[t] == value;
      types := [t] + types;
    }
  }

  /** A buffer that loads starts with one TLV. */
  lemma SplitOne(data: bytes) returns (t: ExtensionType, value: bytes)
    requires data != [] && exists m :: Load(data, m).Some?
    ensures |value| <= 0xFFFF && 4 + |value| <= |data|
    ensures data == Tlv(t, value) + data[4 + |value|..]
  {
    TwoBytes(data[..2]);
    TwoBytes(data[2..4]);
    t := TypeIn(data[..2]);
    WriteAfterRead(data[..2]);
    WriteAfterRead(data[2..4]);
    value := data[4..4 + FromBigEndian(data[2..4])];
  }

  /**
   * The loader accepts exactly the byte strings that spell the entries of a map, each once, in some
   * order, and then it returns that map.
   */
  lemma LoadsExactlyTheLayouts(data: bytes, m: ExtensionMap)
    ensures Load(data, map[]) == Some(m)
       <==> Fits(m) && exists types :: Lists(types, m) && data == Layout(types, m)
  {
    if Load(data, map[]) == Some(m) {
      var types := LoadedLayout(data, map[]);
      assert Lists(types, m);
    }
    if Fits(m) && exists types :: Lists(types, m) && data == Layout(types, m) {
      var types :| Lists(types, m) && data == Layout(types, m);
      LoadLayout(types, map[], m);
    }
  }

  lemma LoadEncoded(m: ExtensionMap)
    requires Fits(m)
    ensures Load(EncodeTlvs(m), map[]) == Some(m)
  {
    AscendingLists(m.Keys);
    assert Lists(Ascending(m.Keys, 0), m);
    LoadsExactlyTheLayouts(EncodeTlvs(m), m);
  }

  /** A fixed-width integer extension: absent unless the value has exactly that width. */
  function ReadIntegerTlv(m: ExtensionMap, t: ExtensionType, width: nat): (r: Option<nat>)
    ensures r.Some? <==> t in m && |m[t]| == width
    ensures r.Some? ==> r.value < Radix(width) && BigEndian(width, r.value) == m[t]
  {
    if t in m && |m[t]| == width then
      WriteAfterRead(m[t]);
      Some(FromBigEndian(m[t]))
    else
      None
  }

  lemma ReadIntegerTlvAfterWrite(m: ExtensionMap, t: ExtensionType, width: nat, value: nat)
    requires value < Radix(width) && t in m && m[t] == BigEndian(width, value)
    ensures ReadIntegerTlv(m, t, width) == Some(value)
  {
    ReadAfterWrite(width, value);
  }
}
