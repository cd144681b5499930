/**
 * The versioned table that gives every RPC method a number. A server only ever appends entries and
 * retires them; a client replaces its copy whole or by delta.
 */
module MethodIdTable {
  import opened Bytes
  import opened Wrappers
  import opened MethodEntries

  const INITIAL_VERSION: u64 := 1
  const VERSION_MAX: u64 := 0xFFFF_FFFF_FFFF_FFFF
  const FNV_OFFSET: u64 := 14695981039346656037
  const FNV_PRIME: u64 := 1099511628211

  /** A table as a value: the fields of the class below. */
  datatype Table = Table(
    version: u64, minVersion: u64, nextId: u64, entries: seq<Entry>, nameToId: map<Name, nat>, maxEntries: u64)

  datatype ResolveStatus = Accepted | TableOutdated | MethodNotFound | MethodRemoved | SignatureMismatch

  datatype Resolution = Resolution(status: ResolveStatus, entry: Option<Entry>, currentVersion: u64)

  /** What a default-constructed entry holds; resizing past the end fills the gap with these. */
  const BLANK := Entry(0, [], 0, Active)

  // ----- signature hashes --------------------------------------------------------------------

  /** One FNV-1a step: mix in a byte, multiply, keep 64 bits. */
  function HashByte(hash: u64, b: byte): u64 {
    var low := ((hash % 256) as bv8 ^ b as bv8) as int;
    ((hash - hash % 256 + low) * FNV_PRIME) % 0x1_0000_0000_0000_0000
  }

  function HashBytes(hash: u64, s: bytes): u64
    decreases |s|
  {
    if s == [] then hash else HashBytes(HashByte(hash, s[0]), s[1..])
  }

  /** FNV-1a over the name, a zero separator and the signature; never 0, which means "not given". */
  function SignatureHash(name: Name, signature: bytes): (r: u64)
    ensures r != 0
  {
    var hash := HashBytes(HashByte(HashBytes(FNV_OFFSET, name), 0), signature);
    if hash == 0 then 1 else hash
  }

  // ----- what a sound table is ---------------------------------------------------------------

  predicate Live(e: Entry) {
    e.state == Active && e.name != []
  }

  /** The index holds exactly the live entries, under their names. */
  ghost predicate Indexes(nameToId: map<Name, nat>, entries: seq<Entry>) {
    && (forall name :: name in nameToId ==>
          nameToId[name] < |entries| && Live(entries[nameToId[name]]) && entries[nameToId[name]].name == name)
    && (forall i :: 0 <= i < |entries| && Live(entries[i]) ==>
          entries[i].name in nameToId && nameToId[entries[i].name] == i)
  }

  ghost predicate Sound(t: Table) {
    && |t.entries| <= t.maxEntries
    && t.nextId == |t.entries|
    && (forall i :: 0 <= i < |t.entries| ==> t.entries[i].id == i)
    && (forall i :: 0 <= i < |t.entries| && t.entries[i].state == Active ==> t.entries[i].name != [])
    && (forall i :: 0 <= i < |t.entries| && t.entries[i].name != [] ==> t.entries[i].signatureHash != 0)
    && Indexes(t.nameToId, t.entries)
    && t.minVersion <= t.version
    && (t.entries != [] ==> t.version > 0)
  }

  /** Whether a list of entries may become a whole table. */
  ghost predicate Acceptable(entries: seq<Entry>, version: u64, maxEntries: u64) {
    && |entries| <= maxEntries
    && (entries != [] ==> version != 0)
    && (forall i :: 0 <= i < |entries| ==> entries[i].id == i)
    && (forall i :: 0 <= i < |entries| && entries[i].state == Active ==> entries[i].name != [])
    && (forall i, j :: 0 <= i < j < |entries| && entries[i].state == Active && entries[j].state == Active
          ==> entries[i].name != entries[j].name)
  }

  // ----- the operations as functions ---------------------------------------------------------

  function EmptyTable(maxEntries: u64): Table {
    Table(0, 0, 0, [], map[], maxEntries)
  }

  /** The index built by scanning the first n entries in order. */
  function NameIndex(entries: seq<Entry>, n: nat): map<Name, nat>
    requires n <= |entries|
  {
    if n == 0 then map[]
    else if Live(entries[n - 1]) then NameIndex(entries, n - 1)[entries[n - 1].name := entries[n - 1].id]
    else NameIndex(entries, n - 1)
  }

  /** The id after the largest among the first n entries. */
  function NextFree(entries: seq<Entry>, n: nat): nat
    requires n <= |entries|
  {
    if n == 0 then 0
    else if entries[n - 1].id >= NextFree(entries, n - 1) then entries[n - 1].id + 1
    else NextFree(entries, n - 1)
  }

  function Hashed(e: Entry): Entry {
    if e.signatureHash == 0 && e.name != [] then e.(signatureHash := SignatureHash(e.name, [])) else e
  }

  function HashedAll(entries: seq<Entry>): (r: seq<Entry>)
    ensures |r| == |entries|
    ensures forall i :: 0 <= i < |r| ==> r[i] == Hashed(entries[i])
  {
    if entries == [] then [] else HashedAll(entries[..|entries| - 1]) + [Hashed(entries[|entries| - 1])]
  }

  lemma HashedNothing()
    ensures HashedAll([]) == []
  {
  }

  lemma HashedPrefix(entries: seq<Entry>, i: nat)
    requires i < |entries|
    ensures HashedAll(entries[..i + 1]) == HashedAll(entries[..i]) + [Hashed(entries[i])]
  {
    assert entries[..i + 1][..i] == entries[..i];
  }

  /** Puts an entry at the place its id names, growing the list with blanks when needed. */
  function Place(entries: seq<Entry>, e: Entry): (r: seq<Entry>)
    ensures |r| == if e.id >= |entries| then e.id + 1 else |entries|
    ensures forall i :: 0 <= i < |r| ==> r[i] == if i == e.id then e else if i < |entries| then entries[i] else BLANK
  {
    (if e.id >= |entries| then entries + seq(e.id + 1 - |entries|, _ => BLANK) else entries)[e.id := e]
  }

  /** The table a list of entries makes. */
  function Whole(entries: seq<Entry>, version: u64, maxEntries: u64): Table
    requires |entries| <= maxEntries
  {
    var v := if entries == [] then 0 else version;
    var all := HashedAll(entries);
    Table(v, v, |all|, all, NameIndex(all, |all|), maxEntries)
  }

  /** The entries after placing a delta over them; none when an id repeats or is out of range. */
  function Overlay(entries: seq<Entry>, delta: seq<Entry>, seen: set<u64>, maxEntries: u64): Option<seq<Entry>>
    decreases |delta|
  {
    if delta == [] then Some(entries)
    else if delta[0].id in seen || delta[0].id >= maxEntries then None
    else Overlay(Place(entries, Hashed(delta[0])), delta[1..], seen + {delta[0].id}, maxEntries)
  }

  /** The table after a delta, or nothing when the delta is refused. */
  ghost function WithDelta(t: Table, delta: seq<Entry>, version: u64): Option<Table> {
    if version == 0 || (t.version != 0 && version < t.version) || |delta| > t.maxEntries then
      None
    else
      var entries := Overlay(t.entries, delta, {}, t.maxEntries);
      if entries == None || !Acceptable(entries.value, version, t.maxEntries) then
        None
      else
        var es := entries.value;
        Some(Table(version, if t.minVersion == 0 then version else t.minVersion, |es|, es, NameIndex(es, |es|),
                   t.maxEntries))
  }

  /** The next version; the last one repeats. */
  function Bumped(t: Table): Table {
    if t.version == 0 then t.(version := INITIAL_VERSION, minVersion := INITIAL_VERSION)
    else if t.version != VERSION_MAX then t.(version := t.version + 1)
    else t
  }

  /** The name's live entry, if there is one, is marked removed and leaves the index. */
  function Retired(t: Table, name: Name): Table
    requires Sound(t)
  {
    if name in t.nameToId then
      var i := t.nameToId[name];
      t.(entries := t.entries[i := t.entries[i].(state := Removed)], nameToId := t.nameToId - {name})
    else
      t
  }

  function HashOrDefault(name: Name, hash: u64): u64 {
    if hash == 0 then SignatureHash(name, []) else hash
  }

  /** Whether the table already maps the name to the signature. */
  predicate Offers(t: Table, name: Name, hash: u64)
    requires Sound(t)
  {
    name in t.nameToId && t.entries[t.nameToId[name]].signatureHash == hash
  }

  /**
   * Registers a name: nothing for an empty name or a signature already offered, otherwise the old
   * entry retires and a fresh id is appended, unless the table is full.
   */
  function Registered(t: Table, name: Name, hash: u64): Table
    requires Sound(t)
  {
    var h := HashOrDefault(name, hash);
    if name == [] || Offers(t, name, h) then t
    else if |t.entries| == t.maxEntries then Retired(t, name)
    else
      Bumped(Appended(Retired(t, name), name, h))
  }

  function Appended(t: Table, name: Name, hash: u64): Table
    requires |t.entries| < SIZE_MAX
  {
    t.(entries := t.entries + [Entry(|t.entries|, name, hash, Active)],
       nameToId := t.nameToId[name := |t.entries|],
       nextId := |t.entries| + 1)
  }

  function Unregistered(t: Table, name: Name): Table
    requires Sound(t)
  {
    if name in t.nameToId then Bumped(Retired(t, name)) else t
  }

  function WithMinimum(t: Table, version: u64): Table {
    t.(minVersion := if version > t.version then t.version else version)
  }

  function Lookup(t: Table, name: Name): Option<Entry>
    requires Sound(t)
  {
    if name in t.nameToId then Some(t.entries[t.nameToId[name]]) else None
  }

  function Resolved(t: Table, id: u64, clientVersion: u64, hash: u64, requireHash: bool): Resolution {
    if clientVersion < t.minVersion || clientVersion > t.version || clientVersion == 0 then
      Resolution(TableOutdated, None, t.version)
    else if id >= |t.entries| || t.entries[id].name == [] then
      Resolution(MethodNotFound, None, t.version)
    else
      var e := t.entries[id];
      Resolution(if e.state == Removed then MethodRemoved
                 else if requireHash && hash != e.signatureHash then SignatureMismatch
                 else Accepted, Some(e), t.version)
  }

  // ----- the index ---------------------------------------------------------------------------

  ghost predicate UniqueNames(entries: seq<Entry>) {
    forall i, j :: 0 <= i < j < |entries| && Live(entries[i]) && Live(entries[j]) ==> entries[i].name != entries[j].name
  }

  ghost predicate Numbered(entries: seq<Entry>) {
    forall i :: 0 <= i < |entries| ==> entries[i].id == i
  }

  /** A map entry that points into the first n entries, at a live entry of that name. */
  ghost predicate Points(m: map<Name, nat>, entries: seq<Entry>, n: nat, name: Name)
    requires n <= |entries| && name in m
  {
    m[name] < n && Live(entries[m[name]]) && entries[m[name]].name == name
  }

  lemma {:induction false} ScanIndexes(entries: seq<Entry>, n: nat)
    requires n <= |entries| && Numbered(entries) && UniqueNames(entries)
    ensures forall name :: name in NameIndex(entries, n) ==> Points(NameIndex(entries, n), entries, n, name)
    ensures forall i :: 0 <= i < n && Live(entries[i]) ==>
              entries[i].name in NameIndex(entries, n) && NameIndex(entries, n)[entries[i].name] == i
  {
    if n > 0 {
      ScanIndexes(entries, n - 1);
      var last, before, m := entries[n - 1], NameIndex(entries, n - 1), NameIndex(entries, n);
      forall name | name in m ensures Points(m, entries, n, name) {
        assert name in before ==> Points(before, entries, n - 1, name);
      }
    }
  }

  /** No entry has that id or a larger one, and in a list numbered by place it is the length. */
  lemma {:induction false} NextFreeIsPast(entries: seq<Entry>, n: nat)
    requires n <= |entries|
    ensures forall i :: 0 <= i < n ==> entries[i].id < NextFree(entries, n)
    ensures Numbered(entries) ==> NextFree(entries, n) == n
  {
    if n > 0 {
      NextFreeIsPast(entries, n - 1);
    }
  }

  lemma ScanIsAnIndex(entries: seq<Entry>)
    requires Numbered(entries) && UniqueNames(entries)
    ensures Indexes(NameIndex(entries, |entries|), entries)
  {
    ScanIndexes(entries, |entries|);
    var m := NameIndex(entries, |entries|);
    forall name | name in m ensures m[name] < |entries| && Live(entries[m[name]]) && entries[m[name]].name == name {
      assert Points(m, entries, |entries|, name);
    }
  }

  /** A list of entries has only one index, however it was maintained. */
  lemma IndexIsUnique(entries: seq<Entry>, m: map<Name, nat>)
    requires Numbered(entries) && Indexes(m, entries)
    ensures UniqueNames(entries)
    ensures m == NameIndex(entries, |entries|)
  {
    ScanIndexes(entries, |entries|);
    var built := NameIndex(entries, |entries|);
    forall name | name in m ensures name in built && built[name] == m[name] {
      assert Live(entries[m[name]]);
    }
    forall name | name in built ensures name in m {
      assert Points(built, entries, |entries|, name);
    }
    assert m == built;
  }

  // ----- every operation keeps the table sound -----------------------------------------------

  lemma WholeIsSound(entries: seq<Entry>, version: u64, maxEntries: u64)
    requires Acceptable(entries, version, maxEntries)
    ensures Sound(Whole(entries, version, maxEntries))
  {
    var all := HashedAll(entries);
    ScanIsAnIndex(all);
  }

  lemma WholeIsNumbered(entries: seq<Entry>, version: u64, maxEntries: u64)
    requires Acceptable(entries, version, maxEntries)
    ensures Numbered(HashedAll(entries))
  {
  }

  lemma RetiredIsSound(t: Table, name: Name)
    requires Sound(t)
    ensures Sound(Retired(t, name))
  {
  }

  lemma AppendedIsSound(t: Table, name: Name, hash: u64)
    requires Sound(t) && name !in t.nameToId && name != [] && hash != 0 && |t.entries| < t.maxEntries
    ensures Sound(Bumped(Appended(t, name, hash)))
  {
    AppendedIndexes(t, name, hash);
  }

  lemma AppendedIndexes(t: Table, name: Name, hash: u64)
    requires Indexes(t.nameToId, t.entries) && name !in t.nameToId && name != [] && |t.entries| < SIZE_MAX
    ensures Indexes(Appended(t, name, hash).nameToId, Appended(t, name, hash).entries)
  {
  }

  /** Scanning the entries after an append finds the index that was kept by hand. */
  lemma AppendedIsIndexed(t: Table, name: Name, hash: u64)
    requires Sound(t) && name !in t.nameToId && name != [] && hash != 0 && |t.entries| < t.maxEntries
    ensures var a := Appended(t, name, hash);
      Numbered(a.entries) && a.nameToId == NameIndex(a.entries, |a.entries|)
  {
    AppendedIsSound(t, name, hash);
    var a := Appended(t, name, hash);
    IndexIsUnique(a.entries, a.nameToId);
  }

  lemma UpsertIsSound(t: Table, name: Name, hash: u64)
    requires Sound(t)
    ensures Sound(Registered(t, name, hash))
  {
    RetiredIsSound(t, name);
    var h := HashOrDefault(name, hash);
    if name != [] && !Offers(t, name, h) && |t.entries| < t.maxEntries {
      AppendedIsSound(Retired(t, name), name, h);
    }
  }

  lemma SoundFacts(t: Table, name: Name)
    requires Sound(t)
    ensures t.nextId == |t.entries| <= t.maxEntries
    ensures name in t.nameToId ==>
      t.nameToId[name] < |t.entries| && Live(t.entries[t.nameToId[name]]) && t.entries[t.nameToId[name]].name == name
  {
  }

  /** After registering, the name has the signature asked for unless it was empty or had no room. */
  lemma UpsertOutcome(t: Table, name: Name, hash: u64)
    requires Sound(t)
    ensures var h, after := HashOrDefault(name, hash), Registered(t, name, hash);
      && Sound(after)
      && (Offers(after, name, h) <==> name != [] && (Offers(t, name, h) || |t.entries| < t.maxEntries))
      && (Offers(after, name, h) ==>
            Lookup(after, name) == if Offers(t, name, h) then Lookup(t, name)
                                   else Some(Entry(|t.entries|, name, h, Active)))
  {
    UpsertIsSound(t, name, hash);
  }

  lemma RemoveIsSound(t: Table, name: Name)
    requires Sound(t)
    ensures Sound(Unregistered(t, name))
  {
    RetiredIsSound(t, name);
  }

  ghost predicate HashesGiven(entries: seq<Entry>) {
    forall i :: 0 <= i < |entries| && entries[i].name != [] ==> entries[i].signatureHash != 0
  }

  lemma {:induction false} OverlayKeepsHashes(entries: seq<Entry>, delta: seq<Entry>, seen: set<u64>, maxEntries: u64)
    requires HashesGiven(entries) && Overlay(entries, delta, seen, maxEntries).Some?
    ensures HashesGiven(Overlay(entries, delta, seen, maxEntries).value)
    decreases |delta|
  {
    if delta != [] {
      OverlayKeepsHashes(Place(entries, Hashed(delta[0])), delta[1..], seen + {delta[0].id}, maxEntries);
    }
  }

  lemma DeltaIsSound(t: Table, delta: seq<Entry>, version: u64)
    requires Sound(t) && WithDelta(t, delta, version).Some?
    ensures Sound(WithDelta(t, delta, version).value)
  {
    var entries := Overlay(t.entries, delta, {}, t.maxEntries).value;
    OverlayKeepsHashes(t.entries, delta, {}, t.maxEntries);
    ScanIsAnIndex(entries);
  }

  // ----- what the operations mean ------------------------------------------------------------

  /** An id is accepted if and only if the caller's version is current, and the method there, live and the one meant. */
  lemma AcceptedExactly(t: Table, id: u64, clientVersion: u64, hash: u64, requireHash: bool)
    requires Sound(t)
    ensures var r := Resolved(t, id, clientVersion, hash, requireHash);
      var current, there := t.minVersion <= clientVersion <= t.version && clientVersion > 0,
                            id < |t.entries| && t.entries[id].name != [];
      && r.currentVersion == t.version
      && (r.status == TableOutdated <==> !current)
      && (r.status == MethodNotFound <==> current && !there)
      && (r.status == MethodRemoved <==> current && there && t.entries[id].state != Active)
      && (r.status == SignatureMismatch <==>
            current && there && t.entries[id].state == Active && requireHash && hash != t.entries[id].signatureHash)
      && (r.status == Accepted ==> r.entry == Some(t.entries[id]) && Lookup(t, t.entries[id].name) == r.entry)
  {
  }

  /** A name is found if and only if some entry is active under it, and then that entry is. */
  lemma LookupFinds(t: Table, name: Name)
    requires Sound(t) && name != []
    ensures Lookup(t, name).Some? <==> exists e :: e in t.entries && e.state == Active && e.name == name
    ensures forall e :: e in t.entries && e.state == Active && e.name == name ==> Lookup(t, name) == Some(e)
  {
    forall e | e in t.entries && e.state == Active && e.name == name ensures Lookup(t, name) == Some(e) {
      var i :| 0 <= i < |t.entries| && t.entries[i] == e;
      assert Live(t.entries[i]);
    }
    if Lookup(t, name).Some? {
      SoundFacts(t, name);
      assert t.entries[t.nameToId[name]] in t.entries;
    }
  }

  /** A list is acceptable if and only if it is in order and its index finds every active entry. */
  lemma AcceptableExactly(entries: seq<Entry>, version: u64, max: u64)
    ensures Acceptable(entries, version, max)
       <==> && |entries| <= max && (entries == [] || version > 0)
            && (forall i :: 0 <= i < |entries| ==> entries[i].id == i)
            && (forall i :: 0 <= i < |entries| && entries[i].state == Active ==>
                  entries[i].name in NameIndex(entries, |entries|)
                  && NameIndex(entries, |entries|)[entries[i].name] == i
                  && entries[i].name != [])
  {
    hide NameIndex;
    if |entries| <= max && Numbered(entries) {
      if UniqueNames(entries) {
        ScanIsAnIndex(entries);
      }
      if forall i :: 0 <= i < |entries| && entries[i].state == Active ==>
           entries[i].name in NameIndex(entries, |entries|) && NameIndex(entries, |entries|)[entries[i].name] == i
      {
        forall i, j | 0 <= i < j < |entries| && entries[i].state == Active && entries[j].state == Active
          ensures entries[i].name != entries[j].name
        {
        }
      }
    }
  }

  /** A signature not given is that of the name alone, whether a method is registered or a list taken in. */
  lemma DefaultSignatures(t: Table, name: Name, hash: u64, entries: seq<Entry>, version: u64)
    requires Sound(t) && |entries| <= t.maxEntries
    ensures var after := Registered(t, name, hash);
      |after.entries| > |t.entries| ==>
        after.entries == Retired(t, name).entries
                         + [Entry(|t.entries|, name, if hash == 0 then SignatureHash(name, []) else hash, Active)]
    ensures forall i :: 0 <= i < |entries| ==>
              Whole(entries, version, t.maxEntries).entries[i]
              == entries[i].(signatureHash := if entries[i].signatureHash == 0 && entries[i].name != []
                                              then SignatureHash(entries[i].name, []) else entries[i].signatureHash)
  {
    hide SignatureHash;
  }

  /** A list without entries makes the empty table, whatever version it came with. */
  lemma NothingIsTheEmptyTable(version: u64, max: u64)
    ensures Whole([], version, max) == EmptyTable(max)
  {
  }

  lemma {:induction false} HashInTwo(hash: u64, a: bytes, b: bytes)
    ensures HashBytes(hash, a + b) == HashBytes(HashBytes(hash, a), b)
    decreases |a|
  {
    hide HashByte;
    if a == [] {
      assert a + b == b;
    } else {
      assert (a + b)[0] == a[0] && (a + b)[1..] == a[1..] + b;
      HashInTwo(HashByte(hash, a[0]), a[1..], b);
    }
  }

  /** A signature's hash is that of the name, a zero and the signature in one string, with 1 for 0. */
  lemma HashOfOneString(name: Name, signature: bytes)
    ensures var hash := HashBytes(FNV_OFFSET, name + [0] + signature);
      SignatureHash(name, signature) == if hash == 0 then 1 else hash
  {
    hide HashByte;
    HashInTwo(FNV_OFFSET, name + [0], signature);
    HashInTwo(FNV_OFFSET, name, [0]);
    assert [0 as byte][1..] == [];
  }

  /** The 64-bit FNV-1a values of the empty string and of "a". */
  lemma KnownHashes()
    ensures HashBytes(FNV_OFFSET, []) == 0xCBF2_9CE4_8422_2325
    ensures HashBytes(FNV_OFFSET, [0x61]) == 0xAF63_DC4C_8601_EC8C
  {
    assert [0x61 as byte][1..] == [];
    assert 0x25 as bv8 ^ 0x61 as bv8 == 0x44;
    assert FNV_OFFSET % 256 == 0x25;
  }

  // ----- the table itself --------------------------------------------------------------------

  class MethodIdTable {
    var version: u64
    var minVersion: u64
    var nextId: u64
    var entries: seq<Entry>
    var nameToId: map<Name, nat>
    const maxEntries: u64

    function State(): Table
      reads this
    {
      Table(version, minVersion, nextId, entries, nameToId, maxEntries)
    }

    ghost predicate Valid()
      reads this
    {
      Sound(State())
    }

    constructor (maxEntries: u64)
      ensures State() == EmptyTable(maxEntries) && Valid()
    {
      this.maxEntries := maxEntries;
      version, minVersion, nextId, entries, nameToId := 0, 0, 0, [], map[];
    }

    method Reset()
      modifies this
      ensures State() == EmptyTable(maxEntries) && Valid()
    {
      version, minVersion, nextId, entries, nameToId := 0, 0, 0, [], map[];
    }

    /** Replaces the table, or empties it when the entries are not acceptable. */
    method ResetTo(es: seq<Entry>, v: u64)
      modifies this
      ensures Valid()
      ensures State() == if Acceptable(es, v, maxEntries) then Whole(es, v, maxEntries) else EmptyTable(maxEntries)
    {
      var ok := CheckTable(es, v);
      if ok {
        ResetValidated(es, v);
      } else {
        Reset();
      }
    }

    /** Replaces the table by a peer's, or leaves it alone. */
    method ApplyRemoteTable(es: seq<Entry>, v: u64) returns (ok: bool)
      requires Valid()
      modifies this
      ensures Valid()
      ensures ok == Acceptable(es, v, maxEntries)
      ensures State() == if ok then Whole(es, v, maxEntries) else old(State())
    {
      ok := CheckTable(es, v);
      if ok {
        var candidate := new MethodIdTable(maxEntries);
        candidate.ResetValidated(es, v);
        CopyFrom(candidate);
      }
    }

    /** Lays a peer's changes over the table, or leaves it alone. */
    method ApplyRemoteDelta(delta: seq<Entry>, v: u64) returns (ok: bool)
      requires Valid()
      modifies this
      ensures Valid()
      ensures ok == WithDelta(old(State()), delta, v).Some?
      ensures State() == if ok then WithDelta(old(State()), delta, v).value else old(State())
    {
      if v == 0 || (version != 0 && v < version) || |delta| > maxEntries {
        return false;
      }
      var candidate := new MethodIdTable(maxEntries);
      candidate.CopyFrom(this);
      ok := candidate.InstallAll(delta);
      if !ok {
        return;
      }
      candidate.version := v;
      if candidate.minVersion == 0 {
        candidate.minVersion := v;
      }
      candidate.RebuildIndex();
      ok := candidate.CheckTable(candidate.entries, v);
      if ok {
        CopyFrom(candidate);
        DeltaIsSound(old(State()), delta, v);
      }
    }

    /** Registers a name and returns its entry, or nothing when it has none. */
    method Upsert(name: Name, hash: u64) returns (r: Option<Entry>)
      requires Valid()
      modifies this
      ensures Valid()
      ensures State() == Registered(old(State()), name, hash)
      ensures r == if Offers(State(), name, HashOrDefault(name, hash)) then Lookup(State(), name) else None
    {
      hide Sound;
      ghost var t := State();
      UpsertIsSound(t, name, hash);
      UpsertOutcome(t, name, hash);
      SoundFacts(t, name);
      if name == [] {
        return None;
      }
      var h := if hash == 0 then SignatureHash(name, []) else hash;
      if name in nameToId {
        var i := nameToId[name];
        if entries[i].signatureHash == h && entries[i].state == Active {
          return Some(entries[i]);
        }
        entries := entries[i := entries[i].(state := Removed)];
        nameToId := nameToId - {name};
      }
      assert State() == Retired(t, name);
      if nextId >= maxEntries {
        return None;
      }
      RetiredIsSound(t, name);
      AppendedIsIndexed(Retired(t, name), name, h);
      r := AppendFresh(name, h);
    }

    /** Gives a name the next id. */
    method AppendFresh(name: Name, h: u64) returns (r: Option<Entry>)
      requires nextId == |entries| < maxEntries
      requires var a := Appended(State(), name, h);
        Numbered(a.entries) && a.nameToId == NameIndex(a.entries, |a.entries|)
      modifies this
      ensures State() == Bumped(Appended(old(State()), name, h))
      ensures r == Some(Entry(|old(entries)|, name, h, Active))
    {
      var id := nextId;
      var installed := InstallEntry(Entry(id, name, h, Active));
      BumpVersion();
      assert entries == Appended(old(State()), name, h).entries;
      RebuildIndex();
      r := FindById(id);
    }

    method Remove(name: Name) returns (ok: bool)
      requires Valid()
      modifies this
      ensures Valid()
      ensures ok == (name in old(nameToId))
      ensures State() == Unregistered(old(State()), name)
    {
      RemoveIsSound(State(), name);
      if name !in nameToId {
        return false;
      }
      var i := nameToId[name];
      entries := entries[i := entries[i].(state := Removed)];
      nameToId := nameToId - {name};
      BumpVersion();
      return true;
    }

    method Resolve(id: u64, clientVersion: u64, hash: u64, requireHash: bool) returns (r: Resolution)
      ensures r == Resolved(State(), id, clientVersion, hash, requireHash)
    {
      if clientVersion < minVersion || clientVersion > version || clientVersion == 0 {
        return Resolution(TableOutdated, None, version);
      }
      var e := FindById(id);
      if e == None || e.value.name == [] {
        return Resolution(MethodNotFound, None, version);
      }
      if e.value.state == Removed {
        return Resolution(MethodRemoved, e, version);
      }
      if requireHash && hash != e.value.signatureHash {
        return Resolution(SignatureMismatch, e, version);
      }
      return Resolution(Accepted, e, version);
    }

    method SetMinimumCompatibleVersion(v: u64)
      requires Valid()
      modifies this`minVersion
      ensures Valid() && State() == WithMinimum(old(State()), v)
    {
      minVersion := if v > version then version else v;
    }

    method FindByName(name: Name) returns (r: Option<Entry>)
      requires Valid()
      ensures r == Lookup(State(), name)
    {
      if name !in nameToId {
        return None;
      }
      r := FindById(nameToId[name]);
    }

    method FindById(id: nat) returns (r: Option<Entry>)
      ensures r == if id < |entries| then Some(entries[id]) else None
    {
      r := if id >= |entries| then None else Some(entries[id]);
    }

    // ----- the steps they share --------------------------------------------------------------

    method CopyFrom(other: MethodIdTable)
      requires other.maxEntries == maxEntries
      modifies this
      ensures State() == old(other.State())
    {
      version, minVersion, nextId := other.version, other.minVersion, other.nextId;
      entries, nameToId := other.entries, other.nameToId;
    }

    method BumpVersion()
      modifies this`version, this`minVersion
      ensures State() == Bumped(old(State()))
    {
      if version == 0 {
        version := INITIAL_VERSION;
        minVersion := version;
      } else if version != VERSION_MAX {
        version := version + 1;
      }
    }

    method InstallEntry(e: Entry) returns (ok: bool)
      modifies this`entries, this`nextId
      ensures ok == (e.id < maxEntries)
      ensures entries == if ok then Place(old(entries), e) else old(entries)
      ensures nextId == if ok && e.id >= old(nextId) then e.id + 1 else old(nextId)
    {
      if e.id >= maxEntries {
        return false;
      }
      if e.id >= |entries| {
        entries := entries + seq(e.id + 1 - |entries|, _ => BLANK);
      }
      if e.id >= nextId {
        nextId := e.id + 1;
      }
      entries := entries[e.id := e];
      return true;
    }

    /** Installs a delta entry by entry, refusing repeated and out-of-range ids. */
    method InstallAll(delta: seq<Entry>) returns (ok: bool)
      requires forall i :: 0 <= i < |entries| ==> entries[i].id < maxEntries
      modifies this`entries, this`nextId
      ensures ok == Overlay(old(entries), delta, {}, maxEntries).Some?
      ensures ok ==> entries == Overlay(old(entries), delta, {}, maxEntries).value
      ensures forall i :: 0 <= i < |entries| ==> entries[i].id < maxEntries
    {
      var seen: set<u64> := {};
      for i := 0 to |delta|
        invariant Overlay(old(entries), delta, {}, maxEntries) == Overlay(entries, delta[i..], seen, maxEntries)
        invariant forall i :: 0 <= i < |entries| ==> entries[i].id < maxEntries
      {
        var e := delta[i];
        assert delta[i..][1..] == delta[i + 1..];
        if e.id in seen {
          return false;
        }
        seen := seen + {e.id};
        if e.signatureHash == 0 && e.name != [] {
          e := e.(signatureHash := SignatureHash(e.name, []));
        }
        var installed := InstallEntry(e);
        if !installed {
          return false;
        }
      }
      return true;
    }

    method ResetValidated(es: seq<Entry>, v: u64)
      requires Acceptable(es, v, maxEntries)
      modifies this
      ensures Valid() && State() == Whole(es, v, maxEntries)
    {
      hide Sound;
      hide HashedAll;
      assert HashedAll(es[..0]) == [] by { HashedNothing(); }
      entries, nameToId, nextId := [], map[], 0;
      version := if es == [] then 0 else v;
      minVersion := if version == 0 then 0 else version;
      for i := 0 to |es|
        invariant entries == HashedAll(es[..i])
        invariant version == minVersion == if es == [] then 0 else v
      {
        var e := es[i];
        if e.signatureHash == 0 && e.name != [] {
          e := e.(signatureHash := SignatureHash(e.name, []));
        }
        HashedPrefix(es, i);
        var installed := InstallEntry(e);
      }
      assert es[..|es|] == es;
      WholeIsSound(es, v, maxEntries);
      WholeIsNumbered(es, v, maxEntries);
      RebuildIndex();
    }

    /** Scans the entries again: who is live under which name, and which id comes next. */
    method RebuildIndex()
      requires forall i :: 0 <= i < |entries| ==> entries[i].id < maxEntries
      modifies this`nameToId, this`nextId
      ensures nameToId == NameIndex(entries, |entries|)
      ensures nextId == NextFree(entries, |entries|)
      ensures Numbered(entries) ==> nextId == |entries|
    {
      NextFreeIsPast(entries, |entries|);
      nameToId, nextId := map[], 0;
      for i := 0 to |entries|
        invariant nameToId == NameIndex(entries, i)
        invariant nextId == NextFree(entries, i)
      {
        var e := entries[i];
        if e.state == Active && e.name != [] {
          nameToId := nameToId[e.name := e.id];
        }
        if e.id >= nextId {
          nextId := e.id + 1;
        }
      }
    }

    /** Whether entries may become a whole table, checked in one pass. */
    method CheckTable(es: seq<Entry>, v: u64) returns (ok: bool)
      ensures ok == Acceptable(es, v, maxEntries)
    {
      if |es| > maxEntries || (es != [] && v == 0) {
        return false;
      }
      var names: set<Name> := {};
      for i := 0 to |es|
        invariant Acceptable(es[..i], v, maxEntries)
        invariant forall name :: name in names <==>
                    exists j :: 0 <= j < i && es[j].state == Active && es[j].name == name
      {
        var e := es[i];
        if e.id >= maxEntries || e.id != i {
          return false;
        }
        if e.state == Active {
          if e.name == [] || e.name in names {
            return false;
          }
          names := names + {e.name};
        }
      }
      assert es[..|es|] == es;
      return true;
    }
  }
}
