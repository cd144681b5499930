/** Bringing a server's table in line with the methods it now offers, and the delta that is to say so. */
module MethodTableSync {
  import opened Bytes
  import opened Wrappers
  import opened MethodEntries
  import Tables = MethodIdTable
  import opened MethodTableEvolution

  type Table = Tables.Table

  /** A catalog as the dispatcher gives it: each name once, each with a signature hash. */
  ghost predicate Catalog(active: seq<Entry>) {
    && (forall i, j :: 0 <= i < j < |active| ==> active[i].name != active[j].name)
    && (forall i :: 0 <= i < |active| ==> active[i].signatureHash != 0)
  }

  predicate Named(active: seq<Entry>, name: Name) {
    exists k :: 0 <= k < |active| && active[k].name == name
  }

  /** The catalog offers the method under another signature. */
  predicate Superseded(e: Entry, active: seq<Entry>) {
    exists k :: 0 <= k < |active| && active[k].name == e.name && active[k].signatureHash != e.signatureHash
  }

  function Tombstone(e: Entry): Entry {
    e.(state := Removed)
  }

  /** An entry after registering a catalog. */
  function AfterRegistering(e: Entry, active: seq<Entry>): Entry {
    if Tables.Live(e) && Superseded(e, active) then Tombstone(e) else e
  }

  /** Registering one name changes at most the live entry of that name and appends at most one. */
  lemma RegisteredEntries(t: Table, name: Name, hash: u64)
    requires Tables.Sound(t) && hash != 0
    ensures var after := Tables.Registered(t, name, hash);
      && |t.entries| <= |after.entries| <= |t.entries| + 1
      && (forall i :: 0 <= i < |t.entries| ==>
            after.entries[i] == AfterRegistering(t.entries[i], [Entry(0, name, hash, Active)]))
      && (|after.entries| > |t.entries| ==>
            after.entries[|t.entries|] == Entry(|t.entries|, name, hash, Active) && name != [])
      && (name != [] && !Tables.Offers(t, name, hash) && |t.entries| < t.maxEntries <==> |after.entries| > |t.entries|)
  {
    var one := [Entry(0, name, hash, Active)];
    assert one[0].name == name && one[0].signatureHash == hash;
    forall i | 0 <= i < |t.entries| && Tables.Live(t.entries[i])
      ensures Superseded(t.entries[i], one) <==> t.entries[i].name == name && t.entries[i].signatureHash != hash
    {
    }
  }

  /** Registering one name leaves what is offered under the others alone. */
  lemma RegisteredOthers(t: Table, name: Name, hash: u64, other: Name, otherHash: u64)
    requires Tables.Sound(t) && other != name
    ensures Tables.Sound(Tables.Registered(t, name, hash))
    ensures Tables.Offers(Tables.Registered(t, name, hash), other, otherHash) <==> Tables.Offers(t, other, otherHash)
  {
    Tables.UpsertIsSound(t, name, hash);
  }

  lemma SupersededMore(e: Entry, active: seq<Entry>, k: nat)
    requires k < |active|
    ensures Superseded(e, active[..k + 1])
       <==> Superseded(e, active[..k]) || (active[k].name == e.name && active[k].signatureHash != e.signatureHash)
  {
    if Superseded(e, active[..k + 1]) {
      var j :| 0 <= j < k + 1 && active[..k + 1][j].name == e.name
               && active[..k + 1][j].signatureHash != e.signatureHash;
      assert j < k ==> active[..k][j] == active[j];
    }
    if Superseded(e, active[..k]) {
      var j :| 0 <= j < k && active[..k][j].name == e.name && active[..k][j].signatureHash != e.signatureHash;
      assert active[..k + 1][j] == active[j];
    }
    if active[k].name == e.name && active[k].signatureHash != e.signatureHash {
      assert active[..k + 1][k] == active[k];
    }
  }

  /** How far registering the first k methods of a catalog has come. */
  ghost predicate Registering(start: Table, t: Table, active: seq<Entry>, k: nat, delta: seq<Entry>)
    requires k <= |active|
  {
    && Tables.Sound(start) && Tables.Sound(t) && t.maxEntries == start.maxEntries && start.version <= t.version
    && |t.entries| == |start.entries| + |delta|
    && OldEntries(start, t, active[..k])
    && NewEntries(|start.entries|, t, active[..k], delta)
    && Offered(t, active[..k])
  }

  ghost predicate OldEntries(start: Table, t: Table, active: seq<Entry>) {
    && |start.entries| <= |t.entries|
    && forall i :: 0 <= i < |start.entries| ==> t.entries[i] == AfterRegistering(start.entries[i], active)
  }

  ghost predicate NewEntries(n: nat, t: Table, active: seq<Entry>, delta: seq<Entry>) {
    && n + |delta| == |t.entries|
    && forall j :: 0 <= j < |delta| ==>
         delta[j] == t.entries[n + j] && Tables.Live(delta[j]) && Named(active, delta[j].name)
  }

  ghost predicate Offered(t: Table, active: seq<Entry>)
    requires Tables.Sound(t)
  {
    forall j :: 0 <= j < |active| ==> OfferedAt(t, active[j])
  }

  /** A method is offered under its signature, unless it has no name or the table is full. */
  predicate OfferedAt(t: Table, e: Entry)
    requires Tables.Sound(t)
  {
    e.name == [] || Tables.Offers(t, e.name, e.signatureHash) || |t.entries| == t.maxEntries
  }

  lemma OldStep(start: Table, t: Table, active: seq<Entry>, k: nat)
    requires k < |active| && active[k].signatureHash != 0 && Tables.Sound(t) && OldEntries(start, t, active[..k])
    ensures OldEntries(start, Tables.Registered(t, active[k].name, active[k].signatureHash), active[..k + 1])
  {
    var after := Tables.Registered(t, active[k].name, active[k].signatureHash);
    RegisteredEntries(t, active[k].name, active[k].signatureHash);
    hide Tables.Sound;
    hide Tables.Registered;
    hide Superseded;
    forall i | 0 <= i < |start.entries|
      ensures after.entries[i] == AfterRegistering(start.entries[i], active[..k + 1])
    {
      SupersededMore(start.entries[i], active, k);
      OneSuperseded(t.entries[i], active[k]);
    }
  }

  lemma NewStep(n: nat, t: Table, active: seq<Entry>, k: nat, delta: seq<Entry>)
    requires Catalog(active) && k < |active| && Tables.Sound(t) && NewEntries(n, t, active[..k], delta)
    ensures var after := Tables.Registered(t, active[k].name, active[k].signatureHash);
      && |t.entries| <= |after.entries|
      && NewEntries(n, after, active[..k + 1],
                    delta + (if |after.entries| > |t.entries| then [after.entries[|t.entries|]] else []))
  {
    var after := Tables.Registered(t, active[k].name, active[k].signatureHash);
    RegisteredEntries(t, active[k].name, active[k].signatureHash);
    hide Tables.Sound;
    hide Tables.Registered;
    hide Superseded;
    hide Catalog;
    forall j | 0 <= j < |delta|
      ensures delta[j] == after.entries[n + j] && Tables.Live(delta[j]) && Named(active[..k + 1], delta[j].name)
    {
      NamedBefore(active, k, delta[j].name);
      OneSuperseded(t.entries[n + j], active[k]);
    }
    NamedHere(active, k);
    hide Named;
  }

  lemma NamedBefore(active: seq<Entry>, k: nat, name: Name)
    requires Catalog(active) && k < |active| && Named(active[..k], name)
    ensures Named(active[..k + 1], name) && name != active[k].name
  {
    var m :| 0 <= m < |active[..k]| && active[..k][m].name == name;
    assert active[..k + 1][m] == active[m] == active[..k][m];
  }

  lemma NamedHere(active: seq<Entry>, k: nat)
    requires k < |active|
    ensures Named(active[..k + 1], active[k].name)
  {
    assert active[..k + 1][k] == active[k];
  }

  lemma OfferedStep(t: Table, active: seq<Entry>, k: nat)
    requires Catalog(active) && k < |active| && Tables.Sound(t) && Offered(t, active[..k])
    ensures var after := Tables.Registered(t, active[k].name, active[k].signatureHash);
      Tables.Sound(after) && Offered(after, active[..k + 1])
  {
    var name, hash := active[k].name, active[k].signatureHash;
    var after := Tables.Registered(t, name, hash);
    Tables.UpsertOutcome(t, name, hash);
    RegisteredEntries(t, name, hash);
    Tables.SoundFacts(after, name);
    SameMaximum(t, name, hash);
    hide Tables.Registered;
    hide Tables.Sound;
    var first := active[..k + 1];
    forall j | 0 <= j < |first| ensures OfferedAt(after, first[j]) {
      if j < k {
        assert active[..k][j] == active[j] && OfferedAt(t, active[..k][j]);
        RegisteredOthers(t, name, hash, active[j].name, active[j].signatureHash);
      }
    }
  }

  lemma SameMaximum(t: Table, name: Name, hash: u64)
    requires Tables.Sound(t)
    ensures Tables.Registered(t, name, hash).maxEntries == t.maxEntries
  {
  }

  lemma RegisterStep(start: Table, t: Table, active: seq<Entry>, k: nat, delta: seq<Entry>)
    requires Catalog(active) && k < |active| && Registering(start, t, active, k, delta)
    ensures var after := Tables.Registered(t, active[k].name, active[k].signatureHash);
      && |t.entries| <= |after.entries|
      && Registering(start, after, active, k + 1,
                     delta + (if |after.entries| > |t.entries| then [after.entries[|t.entries|]] else []))
  {
    OldStep(start, t, active, k);
    NewStep(|start.entries|, t, active, k, delta);
    OfferedStep(t, active, k);
    SameMaximum(t, active[k].name, active[k].signatureHash);
    RegisteredEvolves(t, active[k].name, active[k].signatureHash);
    hide Tables.Sound;
    hide Tables.Registered;
    hide OldEntries;
    hide NewEntries;
    hide Offered;
    assert |Tables.Registered(t, active[k].name, active[k].signatureHash).entries| <= |t.entries| + 1 by {
      RegisteredEntries(t, active[k].name, active[k].signatureHash);
    }
  }

  lemma OneSuperseded(e: Entry, a: Entry)
    ensures Superseded(e, [Entry(0, a.name, a.signatureHash, Active)])
       <==> a.name == e.name && a.signatureHash != e.signatureHash
  {
    assert [Entry(0, a.name, a.signatureHash, Active)][0] == Entry(0, a.name, a.signatureHash, Active);
  }

  /** Registers a catalog method by method, collecting the entries that are new. */
  method RegisterAll(table: Tables.MethodIdTable, active: seq<Entry>) returns (delta: seq<Entry>)
    requires table.Valid() && Catalog(active)
    modifies table
    ensures table.Valid() && Registering(old(table.State()), table.State(), active, |active|, delta)
  {
    delta := [];
    RegisterNone(table.State(), active);
    ghost var start := table.State();
    hide Registering;
    hide Catalog;
    hide Tables.Sound;
    hide Tables.Registered;
    for k := 0 to |active|
      invariant table.Valid() && Registering(start, table.State(), active, k, delta)
    {
      NonZero(active, k);
      RegisterStep(start, table.State(), active, k, delta);
      var added := RegisterOne(table, active[k]);
      delta := delta + added;
    }
  }

  /** Registers one method unless it is offered already; returns its entry if that is new. */
  method RegisterOne(table: Tables.MethodIdTable, e: Entry) returns (added: seq<Entry>)
    requires table.Valid() && e.signatureHash != 0
    modifies table
    ensures table.Valid() && table.State() == Tables.Registered(old(table.State()), e.name, e.signatureHash)
    ensures var n := |old(table.entries)|;
      added == if |table.entries| > n then [table.entries[n]] else []
  {
    FreshOrKnown(table.State(), e.name, e.signatureHash);
    hide Tables.Sound;
    hide Tables.Registered;
    var current := table.FindByName(e.name);
    if current.Some? && current.value.state == Active && current.value.signatureHash == e.signatureHash {
      return [];
    }
    var updated := table.Upsert(e.name, e.signatureHash);
    added := if updated.Some? then [updated.value] else [];
  }

  lemma NonZero(active: seq<Entry>, k: nat)
    requires Catalog(active) && k < |active|
    ensures active[k].signatureHash != 0
  {
  }

  lemma RegisterNone(t: Table, active: seq<Entry>)
    requires Tables.Sound(t)
    ensures Registering(t, t, active, 0, [])
  {
    assert forall e :: !Superseded(e, active[..0]);
  }

  /** What is already offered changes nothing; otherwise an entry comes back exactly when one was appended. */
  lemma FreshOrKnown(t: Table, name: Name, hash: u64)
    requires Tables.Sound(t) && hash != 0
    ensures var after, known := Tables.Registered(t, name, hash), Tables.Lookup(t, name);
      && Tables.Sound(after)
      && (known.Some? && known.value.state == Active && known.value.signatureHash == hash ==> after == t)
      && (!(known.Some? && known.value.state == Active && known.value.signatureHash == hash) ==>
            && (Tables.Offers(after, name, hash) <==> |after.entries| > |t.entries|)
            && (Tables.Offers(after, name, hash) ==>
                  Tables.Lookup(after, name) == Some(after.entries[|t.entries|])))
  {
    Tables.UpsertOutcome(t, name, hash);
    RegisteredEntries(t, name, hash);
  }

  // ----- methods no longer offered -----------------------------------------------------------

  predicate Retiring(e: Entry, active: seq<Entry>) {
    Tables.Live(e) && !Named(active, e.name)
  }

  /** The places of the entries that must go, in order, and their names. */
  ghost predicate Collected(entries: seq<Entry>, active: seq<Entry>, n: nat, names: seq<Name>, places: seq<nat>)
    requires n <= |entries|
  {
    && |names| == |places|
    && (forall j :: 0 <= j < |places| ==>
          places[j] < n && Retiring(entries[places[j]], active) && names[j] == entries[places[j]].name)
    && (forall i, j :: 0 <= i < j < |places| ==> places[i] < places[j])
    && (forall i :: 0 <= i < n && Retiring(entries[i], active) ==> i in places)
  }

  method CollectRemoved(entries: seq<Entry>, active: seq<Entry>) returns (names: seq<Name>, ghost places: seq<nat>)
    ensures Collected(entries, active, |entries|, names, places)
  {
    names, places := [], [];
    hide Retiring;
    for i := 0 to |entries|
      invariant Collected(entries, active, i, names, places)
    {
      IsRetiring(entries[i], active);
      if entries[i].state == Active && entries[i].name != [] && !Named(active, entries[i].name) {
        names, places := names + [entries[i].name], places + [i];
      }
    }
  }

  lemma IsRetiring(e: Entry, active: seq<Entry>)
    ensures Retiring(e, active) <==> e.state == Active && e.name != [] && !Named(active, e.name)
  {
  }

  lemma UnregisteredEntries(t: Table, i: nat)
    requires Tables.Sound(t) && i < |t.entries| && Tables.Live(t.entries[i])
    ensures var after := Tables.Unregistered(t, t.entries[i].name);
      && Tables.Sound(after) && after.maxEntries == t.maxEntries && t.version <= after.version
      && after.entries == t.entries[i := Tombstone(t.entries[i])]
      && t.entries[i].name in t.nameToId && t.nameToId[t.entries[i].name] == i
  {
    Tables.RemoveIsSound(t, t.entries[i].name);
  }

  /** How far retiring the collected names has come. */
  ghost predicate Retired(start: Table, t: Table, places: seq<nat>, n: nat, tombs: seq<Entry>)
    requires n <= |places| && forall j :: 0 <= j < |places| ==> places[j] < |start.entries|
  {
    && Tables.Sound(t) && t.maxEntries == start.maxEntries && start.version <= t.version
    && |t.entries| == |start.entries|
    && (forall i :: 0 <= i < |t.entries| ==>
          t.entries[i] == if i in places[..n] then Tombstone(start.entries[i]) else start.entries[i])
    && |tombs| == n
    && (forall j :: 0 <= j < n ==> tombs[j] == Tombstone(start.entries[places[j]]))
  }

  lemma RetireStep(start: Table, t: Table, active: seq<Entry>, names: seq<Name>, places: seq<nat>, n: nat,
                   tombs: seq<Entry>)
    requires Tables.Sound(start) && Collected(start.entries, active, |start.entries|, names, places) && n < |places|
    requires Retired(start, t, places, n, tombs)
    ensures var after, i := Tables.Unregistered(t, names[n]), places[n];
      && names[n] in t.nameToId && t.nameToId[names[n]] == i && Tables.Sound(after) && i < |after.entries|
      && Retired(start, after, places, n + 1, tombs + [after.entries[i]])
  {
    var i := places[n];
    assert i !in places[..n];
    assert t.entries[i] == start.entries[i];
    UnregisteredEntries(t, i);
    hide Tables.Sound;
    hide Tables.Unregistered;
    assert forall k :: k in places[..n + 1] <==> k in places[..n] || k == i;
  }

  method RetireOthers(table: Tables.MethodIdTable, active: seq<Entry>)
    returns (tombs: seq<Entry>, ghost names: seq<Name>, ghost places: seq<nat>)
    requires table.Valid()
    modifies table
    ensures Collected(old(table.entries), active, |old(table.entries)|, names, places)
    ensures table.Valid() && Retired(old(table.State()), table.State(), places, |places|, tombs)
  {
    ghost var start := table.State();
    var gone;
    gone, places := CollectRemoved(table.entries, active);
    names := gone;
    tombs := [];
    hide Tables.Unregistered;
    for n := 0 to |gone|
      invariant table.Valid() && Retired(start, table.State(), places, n, tombs)
    {
      RetireStep(start, table.State(), active, names, places, n, tombs);
      hide Tables.Sound;
      hide Retired;
      var current := table.FindByName(gone[n]);
      var removed := table.Remove(gone[n]);
      var tombstone := table.FindById(current.value.id);
      tombs := tombs + [tombstone.value];
    }
  }

  // ----- the whole synchronisation -----------------------------------------------------------

  /** Where an entry of the old table ends up. */
  function AfterSync(e: Entry, active: seq<Entry>): Entry {
    if Tables.Live(e) && (Superseded(e, active) || !Named(active, e.name)) then Tombstone(e) else e
  }

  ghost predicate NothingSuperseded(entries: seq<Entry>, active: seq<Entry>) {
    forall i :: 0 <= i < |entries| && Tables.Live(entries[i]) ==> !Superseded(entries[i], active)
  }

  lemma SyncedEntries(start: Table, middle: Table, end: Table, active: seq<Entry>, added: seq<Entry>,
                      names: seq<Name>, places: seq<nat>, tombs: seq<Entry>)
    requires Registering(start, middle, active, |active|, added)
    requires Collected(middle.entries, active, |middle.entries|, names, places)
    requires Retired(middle, end, places, |places|, tombs)
    ensures |end.entries| == |start.entries| + |added|
    ensures forall i :: 0 <= i < |start.entries| ==> end.entries[i] == AfterSync(start.entries[i], active)
    ensures forall j :: 0 <= j < |added| ==>
              added[j] == end.entries[|start.entries| + j] && Tables.Live(added[j]) && Named(active, added[j].name)
    ensures forall j :: 0 <= j < |places| ==> places[j] < |start.entries| && tombs[j] == end.entries[places[j]]
    ensures forall i :: 0 <= i < |start.entries| ==>
              (i in places <==> Tables.Live(start.entries[i]) && !Named(active, start.entries[i].name))
  {
    hide Tables.Sound;
    assert active[..|active|] == active && places[..|places|] == places;
    var n := |start.entries|;
    forall i | 0 <= i < n
      ensures i in places <==> Tables.Live(start.entries[i]) && !Named(active, start.entries[i].name)
      ensures end.entries[i] == AfterSync(start.entries[i], active)
    {
      SupersededIsNamed(start.entries[i], active);
      assert middle.entries[i] == AfterRegistering(start.entries[i], active);
      if i in places {
        var j :| 0 <= j < |places| && places[j] == i;
      }
    }
    forall m | n <= m < |middle.entries| ensures !Retiring(middle.entries[m], active) {
      assert added[m - n] == middle.entries[m];
    }
    forall j | 0 <= j < |added| ensures added[j] == end.entries[n + j] {
      assert !Retiring(middle.entries[n + j], active);
    }
    forall j | 0 <= j < |places| ensures places[j] < n && tombs[j] == end.entries[places[j]] {
      assert Retiring(middle.entries[places[j]], active);
      assert places[j] in places;
    }
  }

  lemma SupersededIsNamed(e: Entry, active: seq<Entry>)
    ensures Superseded(e, active) ==> Named(active, e.name)
  {
  }

  /** The delta holds the new entries and the tombstones of names that went, and nothing else. */
  lemma DeltaCoversAllButSuperseded(start: Table, end: Table, active: seq<Entry>, added: seq<Entry>,
                                    places: seq<nat>, tombs: seq<Entry>)
    requires Tables.Sound(start) && Tables.Sound(end) && |tombs| == |places|
    requires |end.entries| == |start.entries| + |added|
    requires forall i :: 0 <= i < |start.entries| ==> end.entries[i] == AfterSync(start.entries[i], active)
    requires forall j :: 0 <= j < |added| ==> added[j] == end.entries[|start.entries| + j]
    requires forall j :: 0 <= j < |places| ==> places[j] < |start.entries| && tombs[j] == end.entries[places[j]]
    requires forall i :: 0 <= i < |start.entries| ==>
               (i in places <==> Tables.Live(start.entries[i]) && !Named(active, start.entries[i].name))
    requires forall i, j :: 0 <= i < j < |places| ==> places[i] < places[j]
    ensures Drawn(added + tombs, end.entries) && DistinctIds(added + tombs)
    ensures Covers(added + tombs, start.entries, end.entries) <==> NothingSuperseded(start.entries, active)
  {
    Tables.SoundFacts(end, []);
    assert Tables.Numbered(end.entries);
    hide Tables.Sound;
    var delta := added + tombs;
    DeltaIds(end.entries, |start.entries|, added, places, tombs);
    forall i | 0 <= i < |start.entries|
      ensures Tables.Live(start.entries[i]) && Superseded(start.entries[i], active)
         <==> start.entries[i] != end.entries[i] && i !in places
    {
      SupersededIsNamed(start.entries[i], active);
    }
    NothingMeansCovered(start.entries, end.entries, active, delta, places);
  }

  /** Which ids a delta mentions that is made of the entries from n on and of those at given places. */
  lemma DeltaIds(entries: seq<Entry>, n: nat, added: seq<Entry>, places: seq<nat>, tombs: seq<Entry>)
    requires Tables.Numbered(entries) && n + |added| == |entries| && |tombs| == |places|
    requires forall j :: 0 <= j < |added| ==> added[j] == entries[n + j]
    requires forall j :: 0 <= j < |places| ==> places[j] < n && tombs[j] == entries[places[j]]
    requires forall i, j :: 0 <= i < j < |places| ==> places[i] < places[j]
    ensures Drawn(added + tombs, entries) && DistinctIds(added + tombs)
    ensures forall i: u64 :: i < |entries| ==> (i in Ids(added + tombs) <==> i >= n || i in places)
  {
    var delta := added + tombs;
    forall k | 0 <= k < |delta|
      ensures delta[k].id == if k < |added| then n + k else places[k - |added|]
      ensures delta[k].id < |entries| && delta[k] == entries[delta[k].id]
    {
    }
    forall i: u64 | i < |entries| ensures i in Ids(delta) <==> i >= n || i in places {
      if i in Ids(delta) {
        var e :| e in delta && e.id == i;
        var k :| 0 <= k < |delta| && delta[k] == e;
      }
      if i >= n {
        assert delta[i - n] in delta && delta[i - n].id == i;
      }
      if i in places {
        var j :| 0 <= j < |places| && places[j] == i;
        assert delta[|added| + j] in delta && delta[|added| + j].id == i;
      }
    }
  }

  lemma NothingMeansCovered(before: seq<Entry>, after: seq<Entry>, active: seq<Entry>, delta: seq<Entry>,
                            places: seq<nat>)
    requires |before| <= |after|
    requires forall i: u64 :: i < |after| ==> (i in Ids(delta) <==> i >= |before| || i in places)
    requires |after| <= SIZE_MAX
    requires forall i :: 0 <= i < |before| ==>
               (Tables.Live(before[i]) && Superseded(before[i], active) <==> before[i] != after[i] && i !in places)
    ensures Covers(delta, before, after) <==> NothingSuperseded(before, active)
  {
    if Covers(delta, before, after) {
      forall i | 0 <= i < |before| && Tables.Live(before[i]) ensures !Superseded(before[i], active) {
        var k: u64 := i;
        assert k in Ids(delta) <==> k >= |before| || k in places;
      }
    }
  }

  /** An old copy's entry that the delta does not mention although it changed. */
  predicate Stale(before: seq<Entry>, active: seq<Entry>, i: nat) {
    i < |before| && Tables.Live(before[i]) && Superseded(before[i], active)
  }

  /** A superseded method has its replacement in the table. */
  ghost predicate SomeReplaced(before: seq<Entry>, active: seq<Entry>, nameToId: map<Name, nat>) {
    exists i: nat :: Stale(before, active, i) && before[i].name in nameToId
  }

  /** Laying the delta over the old entries changes the mentioned ones only. */
  lemma LaidOver(before: seq<Entry>, after: seq<Entry>, max: u64, added: seq<Entry>, places: seq<nat>,
                 tombs: seq<Entry>)
    returns (r: seq<Entry>)
    requires Tables.Numbered(after) && Tables.HashesGiven(after) && |after| <= max
    requires |before| + |added| == |after| && |tombs| == |places|
    requires forall j :: 0 <= j < |added| ==> added[j] == after[|before| + j]
    requires forall j :: 0 <= j < |places| ==> places[j] < |before| && tombs[j] == after[places[j]]
    requires forall i, j :: 0 <= i < j < |places| ==> places[i] < places[j]
    ensures Tables.Overlay(before, added + tombs, {}, max) == Some(r) && |r| == |after| && |added + tombs| <= max
    ensures forall i: u64 :: i < |r| ==> r[i] == if i >= |before| || i in places then after[i] else before[i]
  {
    hide Tables.Overlay;
    var delta := added + tombs;
    DeltaIds(after, |before|, added, places, tombs);
    DistinctIdsFit(delta, |after|);
    OverlayPlaces(before, delta, {}, max, after);
    r := Tables.Overlay(before, delta, {}, max).value;
    assert added != [] ==> (|after| - 1) as u64 in Ids(delta);
  }

  /** What the old entries become under the delta: the new ones, but for the stale. */
  lemma OverlaidEntries(start: Table, end: Table, active: seq<Entry>, added: seq<Entry>,
                        places: seq<nat>, tombs: seq<Entry>) returns (r: seq<Entry>)
    requires Tables.Sound(start) && Tables.Sound(end) && start.maxEntries == end.maxEntries && |tombs| == |places|
    requires |end.entries| == |start.entries| + |added|
    requires forall i :: 0 <= i < |start.entries| ==> end.entries[i] == AfterSync(start.entries[i], active)
    requires forall j :: 0 <= j < |added| ==> added[j] == end.entries[|start.entries| + j]
    requires forall j :: 0 <= j < |places| ==> places[j] < |start.entries| && tombs[j] == end.entries[places[j]]
    requires forall i :: 0 <= i < |start.entries| ==>
               (i in places <==> Tables.Live(start.entries[i]) && !Named(active, start.entries[i].name))
    requires forall i, j :: 0 <= i < j < |places| ==> places[i] < places[j]
    ensures Tables.Overlay(start.entries, added + tombs, {}, start.maxEntries) == Some(r)
    ensures |r| == |end.entries|
    ensures forall i :: 0 <= i < |r| ==>
              r[i] == if Stale(start.entries, active, i) then start.entries[i] else end.entries[i]
    ensures |added + tombs| <= start.maxEntries
  {
    Tables.SoundFacts(end, []);
    SoundIsAcceptable(end);
    hide Tables.Sound;
    hide Tables.Overlay;
    hide Tables.HashesGiven;
    hide Tables.Numbered;
    r := LaidOver(start.entries, end.entries, start.maxEntries, added, places, tombs);
    hide Stale;
    hide AfterSync;
    hide Named;
    StaleInside(start.entries, active);
    forall i: u64 | i < |r|
      ensures r[i] == if Stale(start.entries, active, i) then start.entries[i] else end.entries[i]
    {
      if i < |start.entries| {
        StaleOrNew(start.entries, active, i, end.entries[i]);
      }
    }
  }

  lemma StaleInside(before: seq<Entry>, active: seq<Entry>)
    ensures forall i: nat :: Stale(before, active, i) ==> i < |before|
  {
  }

  lemma StaleOrNew(before: seq<Entry>, active: seq<Entry>, i: nat, after: Entry)
    requires i < |before| && after == AfterSync(before[i], active)
    ensures if Tables.Live(before[i]) && !Named(active, before[i].name) then !Stale(before, active, i)
            else Stale(before, active, i) || before[i] == after
  {
    SupersededIsNamed(before[i], active);
  }

  /**
   * An old copy refuses the delta if and only if a superseded live method has a replacement in the table:
   * the copy would then offer the name twice.
   */
  lemma DeltaRefused(start: Table, end: Table, active: seq<Entry>, delta: seq<Entry>, r: seq<Entry>)
    requires Tables.Sound(start) && Tables.Sound(end) && start.maxEntries == end.maxEntries
    requires |start.entries| <= |end.entries| && start.version <= end.version && end.version > 0
    requires forall i :: 0 <= i < |start.entries| ==> end.entries[i] == AfterSync(start.entries[i], active)
    requires Tables.Overlay(start.entries, delta, {}, start.maxEntries) == Some(r) && |delta| <= start.maxEntries
    requires |r| == |end.entries|
    requires forall i :: 0 <= i < |r| ==>
               r[i] == if Stale(start.entries, active, i) then start.entries[i] else end.entries[i]
    ensures Tables.WithDelta(start, delta, end.version) == None
       <==> SomeReplaced(start.entries, active, end.nameToId)
  {
    hide Stale;
    hide AfterSync;
    RefusedUnlessAcceptable(start, delta, end.version, r);
    if SomeReplaced(start.entries, active, end.nameToId) {
      ReplacedTwice(start, end, active, r);
    } else {
      ReplacedOnce(start, end, active, r);
    }
  }

  lemma RefusedUnlessAcceptable(t: Table, delta: seq<Entry>, version: u64, r: seq<Entry>)
    requires Tables.Overlay(t.entries, delta, {}, t.maxEntries) == Some(r) && |delta| <= t.maxEntries
    requires version > 0 && t.version <= version
    ensures Tables.WithDelta(t, delta, version) == None <==> !Tables.Acceptable(r, version, t.maxEntries)
  {
    hide Tables.Acceptable;
  }

  lemma ReplacedTwice(start: Table, end: Table, active: seq<Entry>, r: seq<Entry>)
    requires Tables.Sound(end) && |start.entries| <= |end.entries| && |r| == |end.entries|
    requires forall i :: 0 <= i < |start.entries| ==> end.entries[i] == AfterSync(start.entries[i], active)
    requires forall i :: 0 <= i < |r| ==>
               r[i] == if Stale(start.entries, active, i) then start.entries[i] else end.entries[i]
    requires SomeReplaced(start.entries, active, end.nameToId)
    ensures !Tables.Acceptable(r, end.version, start.maxEntries)
  {
    var i: nat :| Stale(start.entries, active, i) && start.entries[i].name in end.nameToId;
    Tables.SoundFacts(end, start.entries[i].name);
    var j := end.nameToId[start.entries[i].name];
    hide Tables.Sound;
    hide Superseded;
    assert !Stale(start.entries, active, j);
    assert r[i].name == r[j].name && r[i].state == r[j].state == Active;
    assert i < j || j < i;
  }

  lemma ReplacedOnce(start: Table, end: Table, active: seq<Entry>, r: seq<Entry>)
    requires Tables.Sound(start) && Tables.Sound(end) && start.maxEntries == end.maxEntries && end.version > 0
    requires |r| == |end.entries|
    requires forall i :: 0 <= i < |r| ==>
               r[i] == if Stale(start.entries, active, i) then start.entries[i] else end.entries[i]
    requires !SomeReplaced(start.entries, active, end.nameToId)
    ensures Tables.Acceptable(r, end.version, start.maxEntries)
  {
    hide Superseded;
    assert forall i: nat :: Stale(start.entries, active, i) ==> start.entries[i].name !in end.nameToId;
    forall i, j | 0 <= i < j < |r| && r[i].state == Active && r[j].state == Active ensures r[i].name != r[j].name {
      assert Tables.Live(r[i]) && Tables.Live(r[j]);
    }
  }

  /** A full table whose one method changes its signature: the delta is empty, and an old copy keeps the method. */
  lemma AcceptedButStale(a: Name, before: Table, after: Table)
    requires a != [] && before == Tables.Table(1, 1, 1, [Entry(0, a, 5, Active)], map[a := 0], 1)
    requires after == Tables.Registered(before, a, 6)
    ensures Tables.Sound(before) && after.version == 1 && after.entries == [Entry(0, a, 5, Removed)]
    ensures Tables.WithDelta(before, [], after.version).Some?
    ensures Tables.WithDelta(before, [], after.version).value.entries == before.entries != after.entries
  {
  }

  lemma OldEntriesEvolve(before: seq<Entry>, after: seq<Entry>, active: seq<Entry>)
    requires |before| <= |after| && forall i :: 0 <= i < |before| ==> after[i] == AfterSync(before[i], active)
    ensures Evolves(before, after)
  {
  }

  /** No name outside the catalog is left live. */
  lemma OnlyCatalogIsLive(start: Table, end: Table, active: seq<Entry>, added: seq<Entry>)
    requires Tables.Sound(end) && |end.entries| == |start.entries| + |added|
    requires forall i :: 0 <= i < |start.entries| ==> end.entries[i] == AfterSync(start.entries[i], active)
    requires forall j :: 0 <= j < |added| ==>
               added[j] == end.entries[|start.entries| + j] && Named(active, added[j].name)
    ensures forall name :: name in end.nameToId ==> Named(active, name)
  {
    forall name | name in end.nameToId ensures Named(active, name) {
      Tables.SoundFacts(end, name);
      var i := end.nameToId[name];
      if i >= |start.entries| {
        assert added[i - |start.entries|] == end.entries[i];
      }
    }
  }

  /** Retiring names outside the catalog leaves what the catalog offers alone. */
  lemma StillOffered(middle: Table, end: Table, active: seq<Entry>, names: seq<Name>, places: seq<nat>,
                     tombs: seq<Entry>)
    requires Tables.Sound(middle) && Offered(middle, active[..|active|])
    requires Collected(middle.entries, active, |middle.entries|, names, places)
    requires Retired(middle, end, places, |places|, tombs)
    ensures Offered(end, active)
  {
    assert active[..|active|] == active && places[..|places|] == places;
    forall j | 0 <= j < |active| ensures OfferedAt(end, active[j]) {
      assert OfferedAt(middle, active[j]);
      Tables.SoundFacts(middle, active[j].name);
      if Tables.Offers(middle, active[j].name, active[j].signatureHash) {
        var i := middle.nameToId[active[j].name];
        assert !Retiring(middle.entries[i], active);
        assert end.entries[i] == middle.entries[i];
      }
    }
  }

  /**
   * Brings the table in line with a catalog. Afterwards only catalog names are live, each under its
   * signature unless the table ran full. The delta brings an old copy of the table up to date if and only if
   * no live method changed its signature, for it leaves out the tombstones of superseded entries; the copy
   * refuses it if and only if one that did has its replacement in the table, and otherwise takes it in and
   * keeps the superseded entry alive.
   */
  method SyncMethodTable(table: Tables.MethodIdTable, active: seq<Entry>) returns (delta: seq<Entry>)
    requires table.Valid() && Catalog(active)
    modifies table
    ensures table.Valid()
    ensures Evolves(old(table.entries), table.entries) && old(table.version) <= table.version
    ensures forall name :: name in table.nameToId ==> Named(active, name)
    ensures Offered(table.State(), active)
    ensures table.version > 0 ==>
      (Tables.WithDelta(old(table.State()), delta, table.version)
       == Some(table.State().(
                 minVersion := if old(table.minVersion) == 0 then table.version else old(table.minVersion)))
       <==> NothingSuperseded(old(table.entries), active))
    ensures table.version > 0 ==>
      (Tables.WithDelta(old(table.State()), delta, table.version) == None
       <==> SomeReplaced(old(table.entries), active, table.nameToId))
  {
    ghost var start := table.State();
    var added := RegisterAll(table, active);
    ghost var middle := table.State();
    var tombs;
    ghost var names, places;
    tombs, names, places := RetireOthers(table, active);
    delta := added + tombs;
    ghost var end := table.State();
    SyncedEntries(start, middle, end, active, added, names, places, tombs);
    OldEntriesEvolve(start.entries, end.entries, active);
    OnlyCatalogIsLive(start, end, active, added);
    StillOffered(middle, end, active, names, places, tombs);
    DeltaCoversAllButSuperseded(start, end, active, added, places, tombs);
    if end.version > 0 {
      DeltaConverges(start, end, delta);
      ghost var r := OverlaidEntries(start, end, active, added, places, tombs);
      DeltaRefused(start, end, active, delta, r);
    }
  }
}
