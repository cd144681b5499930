/**
 * How a server's table changes over time, and how a copy catches up: ids, names and signatures never
 * change once given, and the entries that differ, in any order, bring an old copy up to date.
 */
module MethodTableEvolution {
  import opened Bytes
  import opened Wrappers
  import opened MethodEntries
  import opened MethodIdTable

  /** The same method under the same number; removal is final. */
  predicate Descends(a: Entry, b: Entry) {
    a.id == b.id && a.name == b.name && a.signatureHash == b.signatureHash && (b.state == Active ==> a.state == Active)
  }

  /** A later list of entries keeps every earlier one. */
  ghost predicate Evolves(a: seq<Entry>, b: seq<Entry>) {
    |a| <= |b| && forall i :: 0 <= i < |a| ==> Descends(a[i], b[i])
  }

  lemma EvolvesTransitive(a: seq<Entry>, b: seq<Entry>, c: seq<Entry>)
    requires Evolves(a, b) && Evolves(b, c)
    ensures Evolves(a, c)
  {
    forall i | 0 <= i < |a| ensures Descends(a[i], c[i]) {
      assert Descends(a[i], b[i]) && Descends(b[i], c[i]);
    }
  }

  lemma RegisteredEvolves(t: Table, name: Name, hash: u64)
    requires Sound(t)
    ensures Evolves(t.entries, Registered(t, name, hash).entries)
    ensures t.version <= Registered(t, name, hash).version
  {
  }

  lemma UnregisteredEvolves(t: Table, name: Name)
    requires Sound(t)
    ensures Evolves(t.entries, Unregistered(t, name).entries)
    ensures t.version <= Unregistered(t, name).version
  {
  }

  /**
   * A registration that changes entries moves the version on, except in exactly two cases: the table is
   * full, so the superseded entry retires with nothing in its place, or the version has reached its end.
   */
  lemma SilentRegistrations(t: Table, name: Name, hash: u64)
    requires Sound(t)
    ensures var after := Registered(t, name, hash);
      after.entries != t.entries && after.version == t.version
      <==> && name != [] && !Offers(t, name, HashOrDefault(name, hash))
           && if |t.entries| == t.maxEntries then name in t.nameToId else t.version == VERSION_MAX
  {
    var after := Registered(t, name, hash);
    if name in t.nameToId {
      assert after.entries == t.entries || after.entries[t.nameToId[name]] != t.entries[t.nameToId[name]];
    }
  }

  function NextVersion(version: u64): u64 {
    if version == 0 then 1 else if version < 0xFFFF_FFFF_FFFF_FFFF then version + 1 else version
  }

  /** Each entry added and each name removed moves the version on by one, up to the last; the first sets the minimum. */
  lemma VersionsMove(t: Table, name: Name, hash: u64)
    requires Sound(t)
    ensures var after := Registered(t, name, hash);
      && (|after.entries| == |t.entries| || |after.entries| == |t.entries| + 1)
      && after.version == (if |after.entries| > |t.entries| then NextVersion(t.version) else t.version)
      && after.minVersion == (if t.version == 0 then after.version else t.minVersion)
    ensures var after := Unregistered(t, name);
      if name in t.nameToId then
        && after.version == NextVersion(t.version) && name !in after.nameToId
        && after.entries == t.entries[t.nameToId[name] := t.entries[t.nameToId[name]].(state := MethodEntries.Removed)]
      else after == t
  {
  }

  /** A removal changes the table without moving its version on exactly when the version is the last one. */
  lemma SilentRemovals(t: Table, name: Name)
    requires Sound(t)
    ensures var after := Unregistered(t, name);
      after.entries != t.entries && after.version == t.version <==> name in t.nameToId && t.version == VERSION_MAX
  {
    if name in t.nameToId {
      SoundFacts(t, name);
      assert Unregistered(t, name).entries[t.nameToId[name]] != t.entries[t.nameToId[name]];
    }
  }

  /** A minimum is never past the version. */
  lemma MinimumIsClamped(t: Table, version: u64)
    ensures var after := WithMinimum(t, version);
      after.minVersion <= t.version && after.minVersion <= version
      && (after.minVersion == t.version || after.minVersion == version) && after == t.(minVersion := after.minVersion)
  {
  }

  // ----- deltas ------------------------------------------------------------------------------

  /** An accepted delta never moves a copy back, and keeps its minimum version once it has one. */
  lemma DeltasMoveForward(t: Table, delta: seq<Entry>, version: u64)
    requires WithDelta(t, delta, version).Some?
    ensures var after := WithDelta(t, delta, version).value;
      && after.version == version > 0 && t.version <= version
      && after.minVersion == (if t.minVersion == 0 then version else t.minVersion)
      && |t.entries| <= |after.entries| <= t.maxEntries && |delta| <= t.maxEntries
  {
    OverlayGrows(t.entries, delta, {}, t.maxEntries);
  }

  lemma {:induction false} OverlayGrows(es: seq<Entry>, delta: seq<Entry>, seen: set<u64>, max: u64)
    requires Overlay(es, delta, seen, max).Some?
    ensures |es| <= |Overlay(es, delta, seen, max).value|
    decreases |delta|
  {
    if delta != [] {
      OverlayGrows(Place(es, Hashed(delta[0])), delta[1..], seen + {delta[0].id}, max);
    }
  }

  function Ids(delta: seq<Entry>): set<u64> {
    set e | e in delta :: e.id
  }

  ghost predicate DistinctIds(delta: seq<Entry>) {
    forall j, k :: 0 <= j < k < |delta| ==> delta[j].id != delta[k].id
  }

  /** Every entry of the delta is the later table's entry for its id. */
  ghost predicate Drawn(delta: seq<Entry>, later: seq<Entry>) {
    forall k :: 0 <= k < |delta| ==> delta[k].id < |later| && delta[k] == later[delta[k].id]
  }

  /** Every place where two tables differ is mentioned by the delta. */
  ghost predicate Covers(delta: seq<Entry>, earlier: seq<Entry>, later: seq<Entry>) {
    forall i: u64 :: i < |later| && (i >= |earlier| || earlier[i] != later[i]) ==> i in Ids(delta)
  }

  lemma {:induction false} DistinctIdsFit(delta: seq<Entry>, n: nat)
    requires DistinctIds(delta) && forall k :: 0 <= k < |delta| ==> delta[k].id < n
    ensures |delta| <= n
    decreases n
  {
    if delta != [] {
      if k :| 0 <= k < |delta| && delta[k].id == n - 1 {
        DistinctIdsFit(delta[..k] + delta[k + 1..], n - 1);
      } else {
        assert delta[0].id < n;
        DistinctIdsFit(delta, n - 1);
      }
    }
  }

  /** What laying drawn entries over a list leaves at each place. */
  lemma {:induction false} OverlayPlaces(es: seq<Entry>, delta: seq<Entry>, seen: set<u64>, max: u64, later: seq<Entry>)
    requires Drawn(delta, later) && DistinctIds(delta) && Ids(delta) !! seen
    requires HashesGiven(later) && |es| <= |later| <= max
    ensures var r := Overlay(es, delta, seen, max);
      && r.Some?
      && |es| <= |r.value| <= |later|
      && (forall id :: id in Ids(delta) ==> id < |r.value|)
      && (forall i: u64 :: i < |r.value| ==>
            r.value[i] == if i in Ids(delta) then later[i] else if i < |es| then es[i] else BLANK)
    decreases |delta|
  {
    if delta != [] {
      var e := delta[0];
      assert e in delta;
      assert Hashed(e) == e;
      assert Ids(delta) == {e.id} + Ids(delta[1..]) by { assert delta == [e] + delta[1..]; }
      assert e.id !in Ids(delta[1..]);
      OverlayPlaces(Place(es, e), delta[1..], seen + {e.id}, max, later);
    }
  }

  /** Laying drawn entries over an earlier list gives the later one exactly when they cover it. */
  lemma OverlayMeets(earlier: seq<Entry>, delta: seq<Entry>, max: u64, later: seq<Entry>)
    requires Drawn(delta, later) && DistinctIds(delta)
    requires HashesGiven(later) && |earlier| <= |later| <= max && BLANK !in later
    ensures Covers(delta, earlier, later) <==> Overlay(earlier, delta, {}, max) == Some(later)
  {
    OverlayPlaces(earlier, delta, {}, max, later);
    var r := Overlay(earlier, delta, {}, max).value;
    if Covers(delta, earlier, later) {
      var end: u64 := |r|;
      assert end < |later| ==> end in Ids(delta);
      assert r == later;
    } else {
      var i: u64 :| i < |later| && (i >= |earlier| || earlier[i] != later[i]) && i !in Ids(delta);
      assert later[i] in later;
      assert i >= |r| || r[i] != later[i];
    }
  }

  lemma SoundIsAcceptable(t: Table)
    requires Sound(t)
    ensures t.version > 0 ==> forall max: u64 :: |t.entries| <= max ==> Acceptable(t.entries, t.version, max)
    ensures t.entries != [] ==> t.version > 0
    ensures HashesGiven(t.entries) && Numbered(t.entries) && BLANK !in t.entries
  {
  }

  /**
   * A delta drawn from a later table, in any order, brings an earlier copy to exactly the later entries,
   * index and version if and only if it mentions every place where the two differ.
   */
  lemma DeltaConverges(copy: Table, server: Table, delta: seq<Entry>)
    requires Sound(copy) && Sound(server)
    requires |copy.entries| <= |server.entries| <= copy.maxEntries
    requires copy.version <= server.version && server.version > 0
    requires Drawn(delta, server.entries) && DistinctIds(delta)
    ensures Covers(delta, copy.entries, server.entries)
       <==> WithDelta(copy, delta, server.version)
            == Some(server.(minVersion := if copy.minVersion == 0 then server.version else copy.minVersion,
                            maxEntries := copy.maxEntries))
  {
    DistinctIdsFit(delta, |server.entries|);
    SoundIsAcceptable(server);
    OverlayMeets(copy.entries, delta, copy.maxEntries, server.entries);
    IndexIsUnique(server.entries, server.nameToId);
  }
}
