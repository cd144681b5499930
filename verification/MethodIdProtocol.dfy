/**
 * The method-id protocol over whole runs: a server's table evolves while any number of clients hold old
 * copies and every table and request ever sent may arrive late, twice or never.
 */
module MethodIdProtocol {
  import opened Bytes
  import opened Wrappers
  import opened ExtensionCodec
  import opened FrameCodec
  import opened Compression
  import opened MethodEntries
  import opened MethodIdTable
  import opened MethodTableEvolution
  import opened NekoBackend

  /** A request frame in flight, with the method its caller meant. */
  datatype Request = Request(frame: FrameParts, name: Name)

  datatype World = World(
    table: Table, clients: map<nat, Session>, peers: map<nat, Session>, tables: set<ExtensionMap>,
    requests: set<Request>)

  datatype Step =
    | Upsert(name: Name, hash: u64)
    | Remove(name: Name)
    | SetMinimum(version: u64)
    | Connect(c: nat, clientOptions: Options, serverOptions: Options)
    | AnswerHello(c: nat, options: Options, hello: ExtensionMap)
    | AnswerError(c: nat, options: Options, error: RpcError)
    | AnnounceDelta(delta: seq<Entry>)
    | ReceiveHello(c: nat, m: ExtensionMap)
    | ReceiveError(c: nat, error: RpcError, m: ExtensionMap)
    | Retry(c: nat, options: Options, error: RpcError, retries: nat)
    | Call(c: nat, name: Name, id: u64, notification: bool, payload: bytes)

  // ----- what stays true ---------------------------------------------------------------------

  /** A copy of some past state of the table. */
  ghost predicate Follows(copy: Table, t: Table) {
    Sound(copy) && Evolves(copy.entries, t.entries) && copy.version <= t.version
  }

  ghost predicate FromPast(entries: seq<Entry>, t: Table) {
    forall e :: e in entries ==> e.id < |t.entries| && Descends(e, t.entries[e.id])
  }

  function Listed(m: ExtensionMap, t: ExtensionType): Option<seq<Entry>> {
    if t in m then MethodEntries.Parse(m[t]) else None
  }

  /** Table extensions that some past state of the server produced. */
  ghost predicate Truthful(m: ExtensionMap, t: Table) {
    && (var version := ReadU64(m, METHOD_TABLE_VERSION); version.Some? ==> version.value <= t.version)
    && (Listed(m, METHOD_TABLE).Some? ==> FromPast(Listed(m, METHOD_TABLE).value, t))
    && (Listed(m, METHOD_TABLE_DELTA).Some? ==> FromPast(Listed(m, METHOD_TABLE_DELTA).value, t))
  }

  /** A request by id carries the id, a version and the signature of the method its caller meant. */
  ghost predicate HonestId(id: u64, version: u64, name: Name, f: FrameParts, t: Table) {
    && f.methodBytes == BigEndian(8, id) && id < |t.entries|
    && ReadU64(f.extensions, METHOD_TABLE_VERSION) == Some(version) && 0 < version <= t.version
    && ReadU64(f.extensions, METHOD_SIGNATURE_HASH) == Some(t.entries[id].signatureHash)
    && t.entries[id].name == name && name != []
  }

  /** A frame as a client builds it, before its payload may be compressed. */
  predicate Plain(f: FrameParts) {
    !HasFlag(f.header.flags, Compressed) && Supported(f.extensions)
  }

  ghost predicate Honest(r: Request, t: Table) {
    Plain(r.frame) &&
    if HasFlag(r.frame.header.flags, MethodId)
    then exists id: u64, version: u64 :: HonestId(id, version, r.name, r.frame, t)
    else r.frame.methodBytes == r.name
  }

  ghost predicate Inv(w: World) {
    && Sound(w.table)
    && (forall c :: c in w.clients ==> Follows(w.clients[c].remote, w.table))
    && (forall m :: m in w.tables ==> Truthful(m, w.table))
    && (forall r :: r in w.requests ==> Honest(r, w.table))
  }

  ghost predicate Init(w: World) {
    Sound(w.table) && w.clients == map[] && w.peers == map[] && w.tables == {} && w.requests == {}
  }

  /** One step of the server, a client or the network. */
  ghost predicate Next(w: World, s: Step, v: World)
    requires Inv(w)
  {
    match s
    case Upsert(name, hash) => v == w.(table := Registered(w.table, name, hash))
    case Remove(name) => v == w.(table := Unregistered(w.table, name))
    case SetMinimum(version) => v == w.(table := WithMinimum(w.table, version))
    case Connect(c, clientOptions, serverOptions) =>
      v == w.(clients := w.clients[c := NewSession(clientOptions)], peers := w.peers[c := NewSession(serverOptions)])
    case AnswerHello(c, options, hello) =>
      c in w.peers &&
      var peer := ServerAccepts(options, w.table, w.peers[c], hello);
      v == w.(peers := w.peers[c := peer], tables := w.tables + {ServerHello(options, w.table, peer)})
    case AnswerError(c, options, error) =>
      c in w.peers && v == w.(tables := w.tables + {ErrorExtensions(options, w.peers[c], w.table, error)})
    case AnnounceDelta(delta) =>
      Drawn(delta, w.table.entries) && v == w.(tables := w.tables + {DeltaExtensions(w.table, delta)})
    case ReceiveHello(c, m) =>
      c in w.clients && m in w.tables && v == w.(clients := w.clients[c := ClientAccepts(w.clients[c], m).0])
    case ReceiveError(c, error, m) =>
      c in w.clients && m in w.tables && v == w.(clients := w.clients[c := AfterError(w.clients[c], error, m)])
    case Retry(c, options, error, retries) =>
      c in w.clients && v == w.(clients := w.clients[c := Recover(options, w.clients[c], error, retries).0])
    case Call(c, name, id, notification, payload) =>
      c in w.clients &&
      v == w.(requests := w.requests + {Request(RequestFrame(w.clients[c], name, id, notification, payload), name)})
  }

  function DeltaExtensions(t: Table, delta: seq<Entry>): ExtensionMap {
    map[METHOD_TABLE_VERSION := BigEndian(8, t.version), METHOD_TABLE_DELTA := MethodEntries.Encode(delta)]
  }

  // ----- what a table on the wire says -------------------------------------------------------

  lemma EncodedFromPast(entries: seq<Entry>, t: Table)
    requires FromPast(entries, t) && MethodEntries.Parse(MethodEntries.Encode(entries)).Some?
    ensures FromPast(MethodEntries.Parse(MethodEntries.Encode(entries)).value, t)
  {
    hide MethodEntries.Parse;
    hide MethodEntries.Encode;
    MethodEntries.ParseEncoded(entries);
    KeptMembers(entries);
  }

  lemma TableIsTruthful(t: Table, includeTable: bool)
    requires Sound(t)
    ensures Truthful(TableExtensions(t, includeTable), t)
  {
    hide MethodEntries.Parse;
    hide MethodEntries.Encode;
    var m := TableExtensions(t, includeTable);
    ReadBack(m, METHOD_TABLE_VERSION);
    if includeTable && MethodEntries.Parse(MethodEntries.Encode(t.entries)).Some? {
      EncodedFromPast(t.entries, t);
    }
  }

  lemma BudgetedIsTruthful(options: Options, t: Table)
    requires Sound(t)
    ensures Truthful(BudgetedTable(options, t), t)
  {
    hide TableExtensions;
    TableIsTruthful(t, true);
    TableIsTruthful(t, false);
  }

  lemma HelloIsTruthful(options: Options, t: Table, peer: Session)
    requires Sound(t)
    ensures Truthful(ServerHello(options, t, peer), t)
  {
    hide BudgetedTable;
    hide MethodEntries.Parse;
    BudgetedIsTruthful(options, t);
    var base := if peer.methodIdEnabled then BudgetedTable(options, t) else map[];
    var m := ServerHello(options, t, peer);
    assert forall k :: k in {METHOD_TABLE, METHOD_TABLE_DELTA, METHOD_TABLE_VERSION} ==>
        (k in m <==> k in base) && (k in m ==> m[k] == base[k]);
  }

  lemma DeltaIsTruthful(t: Table, delta: seq<Entry>)
    requires Sound(t) && Drawn(delta, t.entries)
    ensures Truthful(DeltaExtensions(t, delta), t)
  {
    hide MethodEntries.Parse;
    hide MethodEntries.Encode;
    var m := DeltaExtensions(t, delta);
    ReadBack(m, METHOD_TABLE_VERSION);
    if MethodEntries.Parse(MethodEntries.Encode(delta)).Some? {
      assert FromPast(delta, t);
      EncodedFromPast(delta, t);
    }
  }

  // ----- clients keep following --------------------------------------------------------------

  /** An acceptable list of past entries is one the table has evolved from. */
  lemma PastEvolves(entries: seq<Entry>, version: u64, max: u64, t: Table)
    requires Acceptable(entries, version, max)
    requires forall e :: e in entries ==> e == BLANK || (e.id < |t.entries| && Descends(e, t.entries[e.id]))
    ensures Evolves(entries, t.entries)
  {
    hide Descends;
    forall i | 0 <= i < |entries| ensures i < |t.entries| && Descends(entries[i], t.entries[i]) {
      assert entries[i] in entries && entries[i] != BLANK;
    }
    if entries != [] {
      assert entries[|entries| - 1].id == |entries| - 1;
    }
  }

  lemma WholeFollows(entries: seq<Entry>, version: u64, max: u64, t: Table)
    requires Sound(t) && FromPast(entries, t) && version <= t.version && Acceptable(entries, version, max)
    ensures Follows(Whole(entries, version, max), t)
  {
    WholeIsSound(entries, version, max);
    PastHashed(entries, t);
    PastEvolves(entries, version, max, t);
    hide Acceptable;
    hide Sound;
    hide Evolves;
  }

  lemma PastHashed(entries: seq<Entry>, t: Table)
    requires Sound(t) && FromPast(entries, t)
    ensures HashedAll(entries) == entries
  {
    assert forall i :: 0 <= i < |entries| ==> entries[i] in entries;
  }

  /** Overlaying past entries leaves past entries and blanks. */
  lemma {:induction false} OverlayFromPast(es: seq<Entry>, delta: seq<Entry>, seen: set<u64>, max: u64, t: Table)
    requires Sound(t) && FromPast(delta, t)
    requires forall e :: e in es ==> e == BLANK || (e.id < |t.entries| && Descends(e, t.entries[e.id]))
    requires Overlay(es, delta, seen, max).Some?
    ensures forall e :: e in Overlay(es, delta, seen, max).value ==>
              e == BLANK || (e.id < |t.entries| && Descends(e, t.entries[e.id]))
    decreases |delta|
  {
    if delta != [] {
      assert delta[0] in delta && Hashed(delta[0]) == delta[0];
      assert forall e :: e in delta[1..] ==> e in delta;
      OverlayFromPast(Place(es, delta[0]), delta[1..], seen + {delta[0].id}, max, t);
    }
  }

  lemma DeltaFollows(copy: Table, delta: seq<Entry>, version: u64, t: Table)
    requires Sound(t) && Follows(copy, t) && FromPast(delta, t) && version <= t.version
    requires WithDelta(copy, delta, version).Some?
    ensures Follows(WithDelta(copy, delta, version).value, t)
  {
    DeltaIsSound(copy, delta, version);
    StillPast(copy, t);
    OverlayFromPast(copy.entries, delta, {}, copy.maxEntries, t);
    var es := Overlay(copy.entries, delta, {}, copy.maxEntries).value;
    PastEvolves(es, version, copy.maxEntries, t);
    hide Acceptable;
    hide Overlay;
    hide Sound;
    hide Evolves;
  }

  lemma StillPast(copy: Table, t: Table)
    requires Follows(copy, t)
    ensures forall e :: e in copy.entries ==> e.id < |t.entries| && Descends(e, t.entries[e.id])
  {
    SoundFacts(copy, []);
    hide Descends;
  }

  lemma ExtensionsFollow(session: Session, m: ExtensionMap, t: Table)
    requires Sound(t) && Follows(session.remote, t) && Truthful(m, t)
    ensures WithTableExtensions(session, m).Some? ==> Follows(WithTableExtensions(session, m).value.remote, t)
  {
    hide MethodEntries.Parse;
    hide Whole;
    hide WithDelta;
    hide Acceptable;
    var version := ReadU64(m, METHOD_TABLE_VERSION);
    if WithTableExtensions(session, m).Some? {
      var whole := if METHOD_TABLE in m then MethodEntries.Parse(m[METHOD_TABLE]) else None;
      if whole.Some? {
        WholeFollows(whole.value, version.value, session.remote.maxEntries, t);
      } else {
        DeltaFollows(session.remote, MethodEntries.Parse(m[METHOD_TABLE_DELTA]).value, version.value, t);
      }
    }
  }

  // ----- requests stay honest ----------------------------------------------------------------

  lemma CallIsHonest(session: Session, name: Name, id: u64, notification: bool, payload: bytes, t: Table)
    requires Sound(t) && Follows(session.remote, t)
    ensures Honest(Request(RequestFrame(session, name, id, notification, payload), name), t)
  {
    var f := RequestFrame(session, name, id, notification, payload);
    var entry := if session.methodIdEnabled then Lookup(session.remote, name) else None;
    RequestShape(session, name, id, notification, payload);
    FlagUpdates(0, MethodId, true);
    if entry.Some? {
      ReadBack(f.extensions, METHOD_TABLE_VERSION);
      ReadBack(f.extensions, METHOD_SIGNATURE_HASH);
      assert Descends(session.remote.entries[entry.value.id], t.entries[entry.value.id]);
      assert HonestId(entry.value.id, session.remote.version, name, f, t);
    }
  }

  /** Nothing the server does to its table invalidates copies, tables or requests made before. */
  lemma ServerStepKeeps(w: World, after: Table)
    requires Inv(w) && Sound(after) && Evolves(w.table.entries, after.entries) && w.table.version <= after.version
    ensures Inv(w.(table := after))
  {
    hide Sound;
    hide MethodEntries.Parse;
    forall c | c in w.clients ensures Follows(w.clients[c].remote, after) {
      EvolvesTransitive(w.clients[c].remote.entries, w.table.entries, after.entries);
    }
    forall m | m in w.tables ensures Truthful(m, after) {
      StillTruthful(m, w.table, after);
    }
    forall r | r in w.requests ensures Honest(r, after) {
      if HasFlag(r.frame.header.flags, MethodId) {
        var id: u64, version: u64 :| HonestId(id, version, r.name, r.frame, w.table);
        assert Descends(w.table.entries[id], after.entries[id]);
        assert HonestId(id, version, r.name, r.frame, after);
      }
    }
  }

  lemma StillTruthful(m: ExtensionMap, t: Table, after: Table)
    requires Truthful(m, t) && Evolves(t.entries, after.entries) && t.version <= after.version
    ensures Truthful(m, after)
  {
    hide MethodEntries.Parse;
    forall entries: seq<Entry> | FromPast(entries, t) ensures FromPast(entries, after) {
      forall e | e in entries ensures e.id < |after.entries| && Descends(e, after.entries[e.id]) {
        assert Descends(e, t.entries[e.id]) && Descends(t.entries[e.id], after.entries[e.id]);
      }
    }
  }

  // ----- the invariant over runs -------------------------------------------------------------

  lemma ClientStepKeeps(w: World, c: nat, session: Session)
    requires Inv(w) && Follows(session.remote, w.table)
    ensures Inv(w.(clients := w.clients[c := session]))
  {
  }

  predicate IsServerStep(s: Step) {
    s.Upsert? || s.Remove? || s.SetMinimum?
  }

  predicate IsAnswer(s: Step) {
    s.AnswerHello? || s.AnswerError? || s.AnnounceDelta?
  }

  lemma ServerMoveKeeps(w: World, s: Step, v: World)
    requires Inv(w) && Next(w, s, v) && IsServerStep(s)
    ensures Inv(v) && Evolves(w.table.entries, v.table.entries) && w.table.version <= v.table.version
  {
    SoundServer(w);
    hide Inv;
    hide Sound;
    hide Registered;
    hide Unregistered;
    match s {
      case Upsert(name, hash) =>
        RegisteredEvolves(w.table, name, hash);
        UpsertIsSound(w.table, name, hash);
      case Remove(name) =>
        UnregisteredEvolves(w.table, name);
        RemoveIsSound(w.table, name);
      case SetMinimum(version) =>
        MinimumIsSound(w.table, version);
    }
    ServerStepKeeps(w, v.table);
  }

  lemma AnswerKeeps(w: World, s: Step, v: World)
    requires Inv(w) && Next(w, s, v) && IsAnswer(s)
    ensures Inv(v) && v.table == w.table
  {
    hide Sound;
    hide Follows;
    hide Truthful;
    hide Honest;
    match s {
      case AnswerHello(c, options, hello) =>
        HelloIsTruthful(options, w.table, ServerAccepts(options, w.table, w.peers[c], hello));
      case AnswerError(c, options, error) =>
        BudgetedIsTruthful(options, w.table);
        NothingIsTruthful(w.table);
      case AnnounceDelta(delta) =>
        DeltaIsTruthful(w.table, delta);
    }
  }

  lemma ClientMoveKeeps(w: World, s: Step, v: World)
    requires Inv(w) && Next(w, s, v) && !IsServerStep(s) && !IsAnswer(s)
    ensures Inv(v) && v.table == w.table
  {
    SoundServer(w);
    hide Inv;
    hide Sound;
    hide Follows;
    hide RequestFrame;
    hide ClientAccepts;
    hide AfterError;
    match s {
      case Connect(c, clientOptions, serverOptions) =>
        EmptyFollows(clientOptions.maxMethodEntries, w.table);
        ClientStepKeeps(w, c, NewSession(clientOptions));
        PeersAreFree(w.(clients := v.clients), v);
      case ReceiveHello(c, m) =>
        InFlight(w, c, m);
        HelloFollows(w.clients[c], m, w.table);
        ClientStepKeeps(w, c, ClientAccepts(w.clients[c], m).0);
      case ReceiveError(c, error, m) =>
        InFlight(w, c, m);
        ErrorFollows(w.clients[c], error, m, w.table);
        ClientStepKeeps(w, c, AfterError(w.clients[c], error, m));
      case Retry(c, options, error, retries) =>
        ClientFollows(w, c);
        ClientStepKeeps(w, c, v.clients[c]);
      case Call(c, name, id, notification, payload) =>
        ClientFollows(w, c);
        CallIsHonest(w.clients[c], name, id, notification, payload, w.table);
        RequestAdded(w, Request(RequestFrame(w.clients[c], name, id, notification, payload), name));
    }
  }

  lemma HelloFollows(session: Session, m: ExtensionMap, t: Table)
    requires Sound(t) && Follows(session.remote, t) && Truthful(m, t)
    ensures Follows(ClientAccepts(session, m).0.remote, t)
  {
    ExtensionsFollow(session.(methodIdEnabled := false), m, t);
    hide WithTableExtensions;
    hide Follows;
    hide Sound;
  }

  lemma ErrorFollows(session: Session, error: RpcError, m: ExtensionMap, t: Table)
    requires Sound(t) && Follows(session.remote, t) && Truthful(m, t)
    ensures Follows(AfterError(session, error, m).remote, t)
  {
    ExtensionsFollow(session, m, t);
    EmptyFollows(session.remote.maxEntries, t);
    hide WithTableExtensions;
    hide Follows;
    hide Sound;
  }

  lemma ClientFollows(w: World, c: nat)
    requires Inv(w) && c in w.clients
    ensures Follows(w.clients[c].remote, w.table) && Sound(w.clients[c].remote)
  {
  }

  lemma InFlight(w: World, c: nat, m: ExtensionMap)
    requires Inv(w) && c in w.clients && m in w.tables
    ensures Follows(w.clients[c].remote, w.table) && Truthful(m, w.table)
  {
  }

  lemma RequestAdded(w: World, r: Request)
    requires Inv(w) && Honest(r, w.table)
    ensures Inv(w.(requests := w.requests + {r}))
  {
  }

  lemma PeersAreFree(w: World, v: World)
    requires Inv(w) && v == w.(peers := v.peers)
    ensures Inv(v)
  {
  }

  lemma StepKeeps(w: World, s: Step, v: World)
    requires Inv(w) && Next(w, s, v)
    ensures Inv(v)
    ensures Evolves(w.table.entries, v.table.entries) && w.table.version <= v.table.version
  {
    hide Inv;
    hide Next;
    if IsServerStep(s) {
      ServerMoveKeeps(w, s, v);
    } else if IsAnswer(s) {
      AnswerKeeps(w, s, v);
    } else {
      ClientMoveKeeps(w, s, v);
    }
  }

  lemma SoundServer(w: World)
    requires Inv(w)
    ensures Sound(w.table)
  {
  }

  lemma MinimumIsSound(t: Table, version: u64)
    requires Sound(t)
    ensures Sound(WithMinimum(t, version)) && Evolves(t.entries, WithMinimum(t, version).entries)
  {
  }

  lemma EmptyFollows(max: u64, t: Table)
    ensures Follows(EmptyTable(max), t)
  {
  }

  lemma NothingIsTruthful(t: Table)
    ensures Truthful(map[], t)
  {
  }

  /** A run: from a fresh world, every step is one the invariant allows. */
  ghost predicate Run(ws: seq<World>, ss: seq<Step>) {
    |ws| == |ss| + 1 && Init(ws[0]) && forall i :: 0 <= i < |ss| ==> Moves(ws, ss, i)
  }

  ghost predicate Moves(ws: seq<World>, ss: seq<Step>, i: nat)
    requires |ws| == |ss| + 1 && i < |ss|
  {
    Inv(ws[i]) ==> Next(ws[i], ss[i], ws[i + 1])
  }

  lemma {:induction false} RunKeeps(ws: seq<World>, ss: seq<Step>, i: nat)
    requires Run(ws, ss) && i < |ws|
    ensures Inv(ws[i])
  {
    if i > 0 {
      RunKeeps(ws, ss, i - 1);
      assert Moves(ws, ss, i - 1);
      StepKeeps(ws[i - 1], ss[i - 1], ws[i]);
    }
  }

  /** What was ever sent is still there later, and ids keep their methods. */
  lemma {:induction false} RunEvolves(ws: seq<World>, ss: seq<Step>, i: nat, j: nat)
    requires Run(ws, ss) && i <= j < |ws|
    ensures Evolves(ws[i].table.entries, ws[j].table.entries) && ws[i].table.version <= ws[j].table.version
    ensures ws[i].requests <= ws[j].requests
    decreases j
  {
    hide Inv;
    if i < j {
      RunEvolves(ws, ss, i, j - 1);
      RunKeeps(ws, ss, j - 1);
      assert Moves(ws, ss, j - 1);
      StepKeeps(ws[j - 1], ss[j - 1], ws[j]);
      RequestsStay(ws[j - 1], ss[j - 1], ws[j]);
      EvolvesTransitive(ws[i].table.entries, ws[j - 1].table.entries, ws[j].table.entries);
    }
  }

  lemma RequestsStay(w: World, s: Step, v: World)
    requires Inv(w) && Next(w, s, v)
    ensures w.requests <= v.requests
  {
    hide Inv;
  }

  /** How a server answers an honest request by id, case by case. */
  lemma HonestAnswer(id: u64, version: u64, name: Name, f: FrameParts, t: Table, peer: Session)
    requires HasFlag(f.header.flags, MethodId) && HonestId(id, version, name, f, t)
    ensures IncomingMethodName(t, peer, f)
         == if !peer.methodIdEnabled then Err(MethodIdNotNegotiated)
            else if version < t.minVersion then Err(MethodTableOutdated)
            else if t.entries[id].state == MethodEntries.Removed then Err(MethodIdRemoved)
            else Ok(name)
  {
    Radixes();
    ReadAfterWrite(8, id);
  }

  /**
   * No misdispatch: whenever a request sent at any point of a run is looked up at any later point, the
   * server finds the method the caller meant or refuses, and it refuses only for want of negotiation,
   * an outdated version or a removed method. A request by name always finds its name.
   */
  lemma NoMisdispatch(ws: seq<World>, ss: seq<Step>, sent: nat, now: nat, r: Request, peer: Session)
    requires Run(ws, ss) && sent <= now < |ws| && r in ws[sent].requests
    ensures var t, byId := ws[now].table, HasFlag(r.frame.header.flags, MethodId);
      var got := IncomingMethodName(t, peer, r.frame);
      && (got.Ok? ==> got.value == r.name)
      && (got.Err? ==> byId && got.error in {MethodIdNotNegotiated, MethodTableOutdated, MethodIdRemoved})
      && (got == Err(MethodIdNotNegotiated) <==> byId && !peer.methodIdEnabled)
      && (got == Err(MethodIdRemoved) ==>
            exists e :: e in t.entries && e.name == r.name && e.state == MethodEntries.Removed)
  {
    hide IncomingMethodName;
    RunEvolves(ws, ss, sent, now);
    RunKeeps(ws, ss, now);
    var t := ws[now].table;
    if HasFlag(r.frame.header.flags, MethodId) {
      var id: u64, version: u64 :| HonestId(id, version, r.name, r.frame, t);
      HonestAnswer(id, version, r.name, r.frame, t, peer);
      assert t.entries[id] in t.entries;
    } else {
      NamedAnswer(r.frame, t, peer);
    }
  }

  lemma NamedAnswer(f: FrameParts, t: Table, peer: Session)
    requires !HasFlag(f.header.flags, MethodId)
    ensures IncomingMethodName(t, peer, f) == Ok(f.methodBytes)
  {
  }

  /**
   * The same over wire bytes: whatever session a request was encoded in, compressed or not, and whenever its
   * bytes reach the server, what the server decodes from them names the method the caller meant, or it is a
   * refusal for one of those three reasons or for bytes it cannot restore.
   */
  lemma NoMisdispatchOnTheWire(
    ws: seq<World>, ss: seq<Step>, sent: nat, now: nat, r: Request,
    clientOptions: Options, client: Session, serverOptions: Options, peer: Session)
    requires Run(ws, ss) && sent <= now < |ws| && r in ws[sent].requests
    ensures var encoded := EncodeOutgoing(CodingOptions(clientOptions), Coding(client), r.frame);
      encoded.Ok? ==>
      var arrived := DecodeIncoming(serverOptions, ws[now].table, peer, encoded.value);
      && (arrived.Delivered? ==> arrived.request.name == r.name)
      && (arrived.Failed? ==> forall e :: e in arrived.responses ==>
            e.error.Wire? || e.error in {MethodIdNotNegotiated, MethodTableOutdated, MethodIdRemoved})
  {
    hide IncomingMethodName;
    hide IncomingPayload;
    hide EncodeOutgoing;
    hide FrameCodec.Parse;
    hide ValidFrame;
    hide ErrorExtensions;
    NoMisdispatch(ws, ss, sent, now, r, peer);
    RunEvolves(ws, ss, sent, now);
    RunKeeps(ws, ss, now);
    PlainFrames(ws[now], r);
    var encoded := EncodeOutgoing(CodingOptions(clientOptions), Coding(client), r.frame);
    if encoded.Ok? {
      OutgoingParses(CodingOptions(clientOptions), Coding(client), r.frame);
      SameName(ws[now].table, peer, r.frame, FrameCodec.Parse(encoded.value).value);
    }
  }

  lemma PlainFrames(w: World, r: Request)
    requires Inv(w) && r in w.requests
    ensures Plain(r.frame)
  {
  }
}
