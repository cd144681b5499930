# NekoProtoTools: a verified model

This project models the parts of NekoProtoTools whose correctness spans many functions or whole runs, and
proves what they promise. `dafny verify dfyconfig.toml` checks all of it.

* **The binary RPC protocol.** `Bytes`, `ExtensionCodec`, `FrameCodec`, `MethodEntries`, `RunLength` and
  `Compression` are the codecs, and `WireFormat` says from outside which bytes they exchange. `MethodIdTable` is the versioned
  table of methods, `MethodTableEvolution` and `MethodTableSync` how it changes and how copies catch up,
  `NekoBackend` and `PeerSession` what two ends negotiate, send and make of each other's frames. `MethodIdProtocol` puts them together into runs of one server
  and any number of clients; `Negotiation` is about hello and recovery.
* **Calls.** `ClientCalls` is the client's pending map and its retry loop, `ExecutionLimiter` the server's
  admission counters at the granularity of single atomic operations, `Dispatcher` the slots and cancel maps,
  `JsonRpcBackend` and `Serving` what the two backends answer.
* **Four independent parts.** `XorList` (the intrusive list), `SliceTransport` (messages in slices), `ArgNames`
  (names out of macro text) and `Materializer` (option precedence).

Code that changes things in place is modelled by classes and loops, each proved against a function or a
predicate on its state; the properties are then proved of those. Names and payloads are byte strings, and the
two library calls that matter, reading a JSON document and a serialized error, are parameters.

## What the proofs found

* A run-length literal can grow to 129 bytes, and its control byte then reads as a run (`RunLength.OverflowingFails`);
  `RunLength.RoundTrip` says exactly when a payload survives, and `Compression.LostPayload` shows one that is sent
  and lost.
* `upsert` on a full table retires the superseded entry without moving the version on
  (`MethodTableEvolution.SilentRegistrations`).
* The delta of a catalog refresh omits the tombstones of superseded signatures. It brings an old copy up to date
  exactly when no live method changed its signature; the copy refuses it exactly when one that did has its
  replacement in the table, and otherwise takes it in and keeps the superseded method
  (`MethodTableSync.SyncMethodTable`, `MethodTableSync.AcceptedButStale`).
* A table with overlong names can still be accepted when they all come last; the client then holds a prefix
  (`Negotiation.CopyIsAPrefix`), which is harmless (`MethodIdProtocol.NoMisdispatch`).
* The limiter keeps to its limits on waiting and on running admissions in every run exactly when one of the two
  limits is zero (`ExecutionLimiter.QueuedWithinLimit`, `ExecutionLimiter.ActiveWithinLimit`).
* JSON-RPC requests with a null id go unanswered, numbers such as -1 and 1.5 are refused as ids, scalar parameters
  are decoded all the same, and errors leave out the null id (`JsonRpcBackend.AnsweredAsDemanded` says exactly which
  messages are answered as the Specification demands, reading its section 5 as null for every invalid request).
* A slice header does not reset the count of slice bytes, so after some slices that stopped without a cancel the next
  sliced message is not completed by its last slice (`SliceTransport.UnfinishedMessageSpoilsNext`); and unknown types
  handed over raw lose their type when they came in slices (`SliceTransport.UnknownSlicedLosesItsType`).
* Handing over a message of unknown type adds a nameless entry to the table of the peer; if that was empty, types over
  the reserved numbers are not recognized any more (`SliceTransport.RawHidesTypes`).
* The bound on a slice adds a signed offset and a length on 32 bits, so it means what it says only for offsets that are
  not negative and sums that do not wrap (`SliceTransport.TestedSlices`).
* A vector option's command-line values are added to an initial value nobody supplied, but replace a default
  (`Materializer.LayersInOrder`).

## Model

| member | source | states |
|---|---|---|
| MethodIdProtocol.NoMisdispatch | src/rpc.cpp:491-560 | over any run and any delay, loss or repetition of messages, a request that resolves at all resolves to the method its caller meant; it is refused only for want of negotiation, an outdated version or a removed method, never as unknown or mismatched |
| MethodIdProtocol.NoMisdispatchOnTheWire | include/nekoproto/rpc/backend.hpp:190-274 | the same over wire bytes: whatever session a request was encoded in, compressed or not, what a server decodes from its bytes names the meant method or is such a refusal |
| MethodIdProtocol.RunEvolves | src/rpc.cpp:491-534 | over a run an id keeps its name and signature, goes only from active to removed, and versions never fall |
| MethodIdProtocol.RunKeeps | include/nekoproto/rpc/backend.hpp:789-820 | at every point of a run every client table is a copy of a past server state entry by entry, and every table and request in flight is true to one |
| MethodIdProtocol.StepKeeps | include/nekoproto/rpc/backend.hpp:789-1005 | each single step of server, client or network keeps that |
| MethodIdProtocol.HonestAnswer | include/nekoproto/rpc/private/backend_method_id.hpp:104-160 | case by case, what a server answers to a request by id that was made from a past copy of its table |
| NekoBackend.RefusalsExactly | include/nekoproto/rpc/private/backend_method_id.hpp:104-160 | what any request by id is answered: five reasons to refuse it, told apart in order, or the name |
| MethodIdProtocol.ExtensionsFollow | include/nekoproto/rpc/backend.hpp:789-820 | a client that takes in a whole table or a delta from any past server state still holds a copy of past entries |
| Negotiation.RetrySucceeds | include/nekoproto/rpc/backend.hpp:469-525 | after a refused method id, a client that retries is understood by the unchanged server, by id or by name, and does not retry again |
| Negotiation.RetryIsDelivered | include/nekoproto/rpc/backend.hpp:349-364 | the same over wire bytes: the answer the server encodes to the refused request is read as its error, and the request of the retry is decoded to the call |
| NekoBackend.ErrorArrives | include/nekoproto/rpc/backend.hpp:349-364 | an error response is read by the client as that error with its extensions, compressed, plain or sent plain after all |
| NekoBackend.ResultArrives | include/nekoproto/rpc/backend.hpp:438-498 | a result is read by the client as that result if and only if it went out plain or the client can restore it |
| NekoBackend.ResponsesAreChecked | include/nekoproto/rpc/backend.hpp:438-498 | whatever the frame, a call only takes a whole response with its own id, restored, and as an error only one that can be read |
| NekoBackend.FrameErrorsSayWhy | include/nekoproto/rpc/backend.hpp:438-446 | a response frame refused for its size says whether it is too large or invalid |
| NekoBackend.KindsAtTheServer | include/nekoproto/rpc/backend.hpp:190-274 | what a server makes of a plain frame by its kind: requests and notifications are delivered or refused, responses thrown away, cancellations and hellos left to control |
| NekoBackend.CompressedUnasked | include/nekoproto/rpc/private/backend_compression.hpp:126-140 | what is compressed without having been agreed on is neither delivered nor taken for a result |
| WireFormat.RequestsOnWire | include/nekoproto/rpc/backend.hpp:369-416 | exactly when a call or a notification is encoded, by its sizes and the limits, and which bytes it is |
| WireFormat.ResponsesOnWire | include/nekoproto/rpc/backend.hpp:844-866 | exactly when a result or an error is encoded as the session wants it, plain, or not at all, and which bytes it is |
| WireFormat.OutgoingOnWire | include/nekoproto/rpc/private/backend_compression.hpp:69-114 | a payload goes out compressed and flagged exactly when run lengths were agreed on, it reaches the threshold and gets smaller |
| WireFormat.FramesOnWire | src/rpc.cpp:213-243 | the bytes of a frame, field by field, or none exactly when a length does not fit its field |
| WireFormat.KindsParse | src/rpc.cpp:272-283 | a frame parses if and only if its kind is one of the five and no extension is critical |
| WireFormat.IntegersOnWire | include/nekoproto/rpc/private/backend_base.hpp:191-202 | integers are written with the most significant byte first |
| WireFormat.ClientHelloOnWire | include/nekoproto/rpc/backend.hpp:531-560 | the bytes of what a client offers |
| WireFormat.ServerHelloOnWire | include/nekoproto/rpc/backend.hpp:911-963 | the bytes of what a server answers |
| WireFormat.HellosOnWire | src/rpc.cpp:244-254 | a hello is a frame of kind 5 with extensions only |
| WireFormat.TablesOnWire | include/nekoproto/rpc/backend.hpp:725-737 | the bytes of the extensions for a table |
| WireFormat.TablesWithinBudget | include/nekoproto/rpc/backend.hpp:719-723 | a table fits its budget exactly when its entries and 32 more bytes do |
| WireFormat.EntriesOnWire | src/rpc.cpp:116-150 | the bytes of the entries of a table |
| Negotiation.AutoAlwaysRetries | include/nekoproto/rpc/backend.hpp:501-525 | with names allowed and retrying on, every refused method id is retried and nothing else is |
| Negotiation.RefusalsAreMethodIdErrors | include/nekoproto/rpc/private/backend_method_id.hpp:104-160 | every refusal of a method is one of those |
| Negotiation.OtherErrorsCarryNothing | include/nekoproto/rpc/backend.hpp:739-748 | no other error carries a table |
| Negotiation.RequireRetriesByIdOnly | include/nekoproto/rpc/backend.hpp:501-525 | a client that must use ids retries if and only if the refusal brought entries, and then by id |
| Negotiation.AfterRefusal | include/nekoproto/rpc/backend.hpp:739-768 | after a refusal the client either gives up ids or holds a prefix of the server table at its current version |
| Negotiation.RefusalRenewsTable | include/nekoproto/rpc/backend.hpp:739-768 | a refusal renews the client table exactly when the server has one that fits its budget and the client can hold it |
| Negotiation.RetryGoesById | include/nekoproto/rpc/backend.hpp:469-525 | the retry of a method still there goes by id when the whole table came with the refusal |
| Negotiation.HelloAgreement | include/nekoproto/rpc/backend.hpp:911-1005 | after hello both ends agree on compression, its algorithm and the larger threshold, and the client uses ids exactly when the server does and its table arrived |
| Negotiation.OnlyRunLengths | include/nekoproto/rpc/backend.hpp:911-1005 | a server ignores an offer of anything but run lengths, and a client refuses such an answer |
| Negotiation.HelloCopiesTheTable | include/nekoproto/rpc/backend.hpp:770-787 | if the names fit the wire, the client uses ids exactly when the table fits the budget and its own limit, and then holds the server entries, version and minimum version |
| Negotiation.HelloWithoutTable | include/nekoproto/rpc/backend.hpp:965-1005 | a later hello without a table leaves ids on exactly if the client holds entries |
| Negotiation.DeltaApplied | include/nekoproto/rpc/backend.hpp:789-820 | a delta on the wire is laid over the copy less its overlong names, or changes nothing |
| Negotiation.CopyIsAPrefix | include/nekoproto/rpc/backend.hpp:789-820 | an accepted table is a prefix of the server table: only a tail of overlong names can be missing |
| Negotiation.TableOverWire | src/rpc.cpp:116-178 | a table small enough for an extension is parsed back less its overlong names |
| NekoBackend.RequestArrives | include/nekoproto/rpc/backend.hpp:190-274 | the bytes a client encodes, if the server limits admit them, are decoded to the same id, kind and name or to exactly one refusal, and to the same payload if and only if the server can restore it |
| ClientCalls.CallRemote | include/nekoproto/rpc/client.hpp:418-503 | a call among others sends at most two requests and its result is exact: why the first was not sent, else what came of it, unless the client recovers from a reported error; then what came of the second, encoded in the session recovery left, or why that was not sent; a notification sends one and waits for nothing |
| ClientCalls.OnlyRefusalsAreTriedAgain | include/nekoproto/rpc/backend.hpp:501-525 | nothing but a refused method id is tried again |
| ClientCalls.SecondRequestIsDelivered | include/nekoproto/rpc/backend.hpp:469-525 | if a server refused the first request and its answer came back, the second request of the call is delivered to that server unchanged, under the name and with the payload of the call |
| ClientCalls.StepsAreFair | include/nekoproto/rpc/client.hpp:593-714 | whatever step another call, the receiver, a guard or a lost connection takes, a waiting attempt stays as it is but for its outcome |
| ClientCalls.SendOnce | include/nekoproto/rpc/client.hpp:418-463 | one attempt: encoded under the next id, refused when the map is full, ended by the outcome others sent it or by none, and out of the map |
| PeerSession.PeerSession.constructor | include/nekoproto/rpc/backend.hpp:158-168 | a fresh session has nothing negotiated and an empty table |
| PeerSession.PeerSession.ApplyTableExtensions | include/nekoproto/rpc/backend.hpp:789-820 | a table or delta is taken in whole or the session is left as it was |
| PeerSession.PeerSession.HandleClientHello | include/nekoproto/rpc/backend.hpp:911-963 | a server accepts what a client hello offers and answers with exactly that |
| PeerSession.PeerSession.HandleServerHello | include/nekoproto/rpc/backend.hpp:965-1005 | a client takes the server answer in, or reports that it cannot honour it |
| PeerSession.PeerSession.BeginHello | include/nekoproto/rpc/backend.hpp:531-560 | a hello is sent exactly when something is offered and no hello was done |
| PeerSession.PeerSession.CompleteHello | include/nekoproto/rpc/backend.hpp:566-591 | a hello completes exactly when the answer is acceptable and grants what is required |
| PeerSession.PeerSession.DecodeResponse | include/nekoproto/rpc/backend.hpp:438-498 | what a response frame is to a call, and what a reported method-id error does to the table |
| PeerSession.PeerSession.RecoverClientCall | include/nekoproto/rpc/backend.hpp:501-525 | when a failed call is retried, and with which session |
| PeerSession.ExtensionWireSize | include/nekoproto/rpc/backend.hpp:706-718 | the size summed up equals the encoded size, or there is none exactly when a value or the total is too large |
| PeerSession.BuildTableExtensions | include/nekoproto/rpc/backend.hpp:725-787 | the table, else its version, else nothing, by what fits the budget |
| PeerSession.ClientHelloArrives | include/nekoproto/rpc/backend.hpp:531-560 | the hello a client sends always fits a frame and arrives as sent |
| PeerSession.HelloOverWire | src/rpc.cpp:244-254 | a hello frame arrives with its extensions exactly when they fit a frame |
| PeerSession.OnlyHellosAreHellos | include/nekoproto/rpc/backend.hpp:566-575 | no frame of another kind or codec is taken for a hello |
| MethodIdTable.MethodIdTable.Reset | src/rpc.cpp:413-419 | the table is empty |
| MethodIdTable.MethodIdTable.ResetTo | src/rpc.cpp:421-442 | acceptable entries replace the table, others empty it |
| MethodIdTable.MethodIdTable.ApplyRemoteTable | src/rpc.cpp:448-456 | acceptable entries replace the table, others leave it unchanged |
| MethodIdTable.MethodIdTable.ApplyRemoteDelta | src/rpc.cpp:458-489 | an acceptable delta is laid over the table, any other leaves it unchanged |
| MethodIdTable.MethodIdTable.Upsert | src/rpc.cpp:491-523 | registers a name under a fresh id, retiring its old entry even when the table is full; the table stays sound |
| MethodIdTable.MethodIdTable.Remove | src/rpc.cpp:525-534 | retires a live name and moves the version on |
| MethodIdTable.MethodIdTable.Resolve | src/rpc.cpp:536-560 | version, id, removal and signature are checked in that order |
| MethodIdTable.AcceptedExactly | src/rpc.cpp:536-560 | each answer holds exactly for its own reason, and what is accepted is what its name looks up |
| MethodIdTable.LookupFinds | src/rpc.cpp:570-576 | a name is found if and only if an entry is active under it |
| MethodIdTable.AcceptableExactly | src/rpc.cpp:621-641 | a list is acceptable if and only if it is in order and its index finds every active entry |
| MethodIdTable.MethodIdTable.SetMinimumCompatibleVersion | src/rpc.cpp:562-568 | the minimum is clamped to the version |
| MethodIdTable.MethodIdTable.FindByName | src/rpc.cpp:570-576 | the live entry of a name |
| MethodIdTable.MethodIdTable.BumpVersion | src/rpc.cpp:585-592 | versions start at 1 and stay at the last one |
| MethodIdTable.MethodIdTable.RebuildIndex | src/rpc.cpp:594-605 | the scan yields the index of the entries and the id after the largest |
| MethodIdTable.NextFreeIsPast | src/rpc.cpp:594-605 | that id is past every entry, and the length of a list numbered by place |
| MethodIdTable.MethodIdTable.InstallEntry | src/rpc.cpp:607-619 | an entry is put at its id, growing the list and raising the next id, unless the id is out of range |
| MethodIdTable.MethodIdTable.CheckTable | src/rpc.cpp:621-641 | one pass accepts exactly the lists with ids in sequence and unique, non-empty active names |
| MethodIdTable.MethodIdTable.InstallAll | src/rpc.cpp:467-478 | a delta is laid over the entries unless an id repeats or is out of range |
| MethodIdTable.MethodIdTable.ResetValidated | src/rpc.cpp:429-442 | a checked list becomes the table, with default hashes filled in |
| MethodIdTable.UpsertIsSound | src/rpc.cpp:491-523 | registering keeps ids equal to places, the size limit, the exact index and version order |
| MethodIdTable.WholeIsSound | src/rpc.cpp:429-442 | so does replacing the table |
| MethodIdTable.DefaultSignatures | src/rpc.cpp:429-442 | a signature not given is that of the name alone |
| MethodIdTable.NothingIsTheEmptyTable | src/rpc.cpp:429-442 | a list without entries makes the empty table, whatever its version |
| MethodIdTable.DeltaIsSound | src/rpc.cpp:458-489 | so does a delta |
| MethodIdTable.RemoveIsSound | src/rpc.cpp:525-534 | so does removing |
| MethodIdTable.IndexIsUnique | src/rpc.cpp:594-605 | entries have one index, so one kept by hand equals the one scanned |
| MethodIdTable.UpsertOutcome | src/rpc.cpp:491-523 | after registering, the name is offered unless it was empty or there was no room |
| MethodIdTable.SignatureHash | src/rpc.cpp:381-396 | a signature hash is never zero |
| MethodIdTable.HashOfOneString | src/rpc.cpp:381-395 | it is the hash of the name, a zero and the signature in one string |
| MethodIdTable.KnownHashes | src/rpc.cpp:381-395 | the 64-bit FNV-1a values of two strings |
| MethodTableEvolution.SilentRegistrations | src/rpc.cpp:500-523 | entries change under an unchanged version exactly when a full table retires a superseded entry or the version is at its end |
| MethodTableEvolution.SilentRemovals | src/rpc.cpp:525-534 | a removal changes the table without moving its version on exactly when the version is the last one |
| MethodTableEvolution.VersionsMove | src/rpc.cpp:491-534 | each entry added and each name removed moves the version on by one; the first sets the minimum |
| MethodTableEvolution.MinimumIsClamped | src/rpc.cpp:562-568 | a minimum is the smaller of what was asked and the version |
| MethodTableEvolution.DeltasMoveForward | src/rpc.cpp:458-489 | an accepted delta never moves a copy back and keeps its minimum |
| MethodTableEvolution.RegisteredEvolves | src/rpc.cpp:491-523 | registering only appends and retires |
| MethodTableEvolution.UnregisteredEvolves | src/rpc.cpp:525-534 | removing only retires |
| MethodTableEvolution.DeltaConverges | src/rpc.cpp:458-489 | a delta drawn from a later table, in any order, gives a copy with room for it the later entries, index and version if and only if it mentions every difference |
| MethodTableEvolution.OverlayPlaces | src/rpc.cpp:458-489 | what laying a delta over a list leaves at each place |
| MethodTableSync.SyncMethodTable | include/nekoproto/rpc/private/backend_method_id.hpp:63-102 | afterwards only catalog names are live, each under its signature unless the table ran full; the delta updates an old copy if and only if no live method changed its signature, and is refused by it if and only if one that did has its replacement in the table |
| MethodTableSync.DeltaRefused | include/nekoproto/rpc/private/backend_method_id.hpp:63-102 | the copy would offer a name twice exactly when a superseded live method has a replacement |
| MethodTableSync.AcceptedButStale | include/nekoproto/rpc/private/backend_method_id.hpp:63-102 | a full table whose one method changes its signature: the delta is empty and an old copy keeps the method |
| MethodTableSync.RegisterAll | include/nekoproto/rpc/private/backend_method_id.hpp:66-76 | which old entries are superseded and which entries are new |
| MethodTableSync.RetireOthers | include/nekoproto/rpc/private/backend_method_id.hpp:78-101 | exactly the live names outside the catalog are retired, each with a tombstone |
| MethodTableSync.DeltaCoversAllButSuperseded | include/nekoproto/rpc/private/backend_method_id.hpp:63-102 | the delta leaves out exactly the tombstones of superseded entries |
| Bytes.AppendInteger | include/nekoproto/rpc/private/backend_base.hpp:190-203 | appends an integer most significant byte first |
| Bytes.ReadInteger | include/nekoproto/rpc/private/backend_base.hpp:205-217 | reads such an integer back |
| Bytes.ReadAfterWrite | include/nekoproto/rpc/private/backend_base.hpp:190-217 | reading undoes writing |
| Bytes.WriteAfterRead | include/nekoproto/rpc/private/backend_base.hpp:190-217 | writing undoes reading |
| ExtensionCodec.AppendTlvs | src/rpc.cpp:351-361 | appends every extension in ascending order, or refuses exactly when a value is over 65535 bytes |
| ExtensionCodec.LoadTlvs | src/rpc.cpp:327-349 | walks the extensions, refusing repeated types and cut-off values |
| ExtensionCodec.LoadsExactlyTheLayouts | src/rpc.cpp:327-349 | a byte string loads exactly when it spells the entries of one map, each once, in some order |
| ExtensionCodec.LoadEncoded | src/rpc.cpp:327-361 | loading undoes appending |
| FrameCodec.EncodeFrame | src/rpc.cpp:213-242 | the bytes of a frame, or none when a length does not fit its field |
| FrameCodec.ParseFrame | src/rpc.cpp:86-114 | the frame in a byte string, for one codec |
| FrameCodec.ParseEncoded | src/rpc.cpp:86-114 | parsing an encoded frame gives its parts under the normalised header, exactly when it encodes, its kind is known and no extension is critical |
| FrameCodec.EncodeParsed | src/rpc.cpp:213-242 | a frame that parses re-encodes to itself exactly when its extensions ascend and its extension flag is truthful |
| FrameCodec.FlagUpdates | src/rpc.cpp:213-242 | setting a flag sets that flag and no other |
| FrameCodec.BodySizeNeverOverflows | src/rpc.cpp:58-68 | three 32-bit sizes always fit a 64-bit size |
| FrameCodec.ReadFrames | include/nekoproto/rpc/private/stream_endpoint.hpp:47-78 | reading frames off a stream takes whole valid frames and leaves a rest without one |
| FrameCodec.SplittingIsUnique | include/nekoproto/rpc/private/stream_endpoint.hpp:47-78 | a stream splits into frames in one way only, so the receiver gets the frames that were sent |
| FrameCodec.EncodedFrameIsValid | src/rpc.cpp:285-311 | which encoded frames an endpoint lets through |
| FrameCodec.HeaderVerdict | src/rpc.cpp:290-312 | which headers an endpoint refuses, and for which of two reasons |
| MethodEntries.EncodeMethodEntries | src/rpc.cpp:116-139 | the value of a method table, in two passes |
| MethodEntries.ParseMethodEntries | src/rpc.cpp:141-178 | the entries of a value, or nothing when it is cut short or left over |
| MethodEntries.ParseEncoded | src/rpc.cpp:116-178 | parsing an encoded list drops overlong names and nothing else, short of 2^32 entries |
| MethodEntries.ParsesExactlyTheEncodings | src/rpc.cpp:141-178 | the accepted values are exactly the encodings |
| RunLength.CompressRunLength | src/rpc.cpp:671-705 | the compressor emits the blocks of the payload in order |
| RunLength.DecompressRunLength | src/rpc.cpp:707-740 | the decompressor expands token by token within its limit |
| RunLength.Expand | src/rpc.cpp:707-740 | a successful expansion is within the limit and at most 65 times its input |
| RunLength.RoundTrip | src/rpc.cpp:671-740 | decompressing undoes compressing if and only if no literal block is overlong |
| RunLength.RunsAsWritten | src/rpc.cpp:671-689 | three to 130 equal bytes are a control byte of 125 more and the byte; longer runs are cut at 130 |
| RunLength.LiteralsAsWritten | src/rpc.cpp:690-705 | up to 128 bytes without equal neighbours are one less than their number and themselves |
| RunLength.PairAsWritten | src/rpc.cpp:671-705 | two equal bytes are no run |
| RunLength.ShortIsNotOverlong | src/rpc.cpp:690-704 | no payload of up to 128 bytes has an overlong literal |
| RunLength.AlternatingIsNotOverlong | src/rpc.cpp:690-704 | nor has one without equal neighbours |
| RunLength.OverflowingFails | src/rpc.cpp:695-698 | a concrete payload whose literal grows to 129 bytes and is not restored |
| RunLength.ShrinkingFails | src/rpc.cpp:695-698 | one that does get smaller and is not restored |
| RunLength.LiteralBlocksAreShort | src/rpc.cpp:690-704 | no literal block exceeds 129 bytes |
| RunLength.CompressedSize | src/rpc.cpp:671-705 | the output is at most the input plus one byte in 128 plus one |
| Compression.DeliversPayload | include/nekoproto/rpc/private/backend_compression.hpp:42-166 | the receiver recovers the payload if and only if it was not compressed, or has no overlong literal and fits the output the receiver allows its compressed size |
| Compression.OutgoingParses | include/nekoproto/rpc/private/backend_compression.hpp:42-113 | compressed or not, a frame parses to the method, extensions and flags it was sent with |
| Compression.LostPayload | include/nekoproto/rpc/private/backend_compression.hpp:42-166 | a request whose payload is compressed, sent and not got back, whatever the receiver limits |
| Compression.BudgetCovers | include/nekoproto/rpc/private/backend_compression.hpp:140-150 | the output budget lets every payload through that round-trips and is within the size limit, if and only if the ratio limit is at least 65 or the size limit at most twice the ratio limit |
| Compression.RestoredIsBounded | include/nekoproto/rpc/private/backend_compression.hpp:142-155 | what is decompressed is within the size limit and the ratio limit of the receiver |
| ClientCalls.CompletesAtMostOnce | include/nekoproto/rpc/client.hpp:409-482 | over any interleaving the pending map stays within its limit and an answered or ended call stays as it is |
| ClientCalls.ResponseReachesItsCall | include/nekoproto/rpc/client.hpp:593-633 | a response completes the waiting call with its id, unless somebody is already answering it, and no other; a late one changes nothing |
| ClientCalls.GuardErasesOnlyItsOwn | include/nekoproto/rpc/client.hpp:720-730 | an ending call takes only its own entry out of the map |
| ClientCalls.AllFailedAt | include/nekoproto/rpc/client.hpp:679-689 | losing the connection answers every waiting call that nobody is answering yet and only those |
| ClientCalls.AllFailedInAnyOrder | include/nekoproto/rpc/client.hpp:679-689 | taking all senders out and then sending on each in any order comes to that |
| ClientCalls.StepKeeps | include/nekoproto/rpc/client.hpp:593-714 | after every step the sender of each waiting call without an outcome is in the map or in the hand of whoever took it out; the locked sections and the sends after them are separate steps |
| ClientCalls.PendingCalls.Encode | include/nekoproto/rpc/backend.hpp:384-390 | ids count up from 1 and start again at 1 after the last; calls are kept apart up to there and not beyond |
| ClientCalls.PendingCalls.Take | include/nekoproto/rpc/client.hpp:456-463 | a call returns with its response and its guard disarmed |
| ClientCalls.PendingCalls.Register | include/nekoproto/rpc/client.hpp:431-439 | a call enters the map unless it is full or the id is taken |
| ClientCalls.PendingCalls.PickUp | include/nekoproto/rpc/client.hpp:612-622 | under the lock the sender of an id leaves the map |
| ClientCalls.PendingCalls.SendOn | include/nekoproto/rpc/client.hpp:623-632 | a sender is used once, and has no effect on a call that is over |
| ClientCalls.PendingCalls.Complete | include/nekoproto/rpc/client.hpp:612-632 | a sender is taken out of the map and used once |
| ClientCalls.PendingCalls.Abandon | include/nekoproto/rpc/client.hpp:641-677 | a guard erases and ends its call |
| ClientCalls.PendingCalls.FailAllPending | include/nekoproto/rpc/client.hpp:679-689 | the map is emptied and every call in it fails |
| ExecutionLimiter.GaugesStayInBounds | include/nekoproto/rpc/dispatcher.hpp:36-146 | at every atomic step active plus queued is at most outstanding, which is at most both limits together, and nothing is negative |
| ExecutionLimiter.QuiescentGauges | include/nekoproto/rpc/dispatcher.hpp:36-146 | with no admission left the gauges are zero and completed counts the started admissions |
| ExecutionLimiter.MovedFromReleasesNothing | include/nekoproto/rpc/dispatcher.hpp:38-78 | an admission object that was moved from or released releases nothing at any later point, unless an admission is put into it again |
| ExecutionLimiter.QueuedWithinLimit | include/nekoproto/rpc/dispatcher.hpp:91-108 | every run keeps the waiting gauge within its limit if and only if nothing may run at all or nothing may wait |
| ExecutionLimiter.QueuedPassesItsLimit | include/nekoproto/rpc/dispatcher.hpp:91-108 | for any other limits a reachable state with one more waiting than allowed |
| ExecutionLimiter.ActiveWithinLimit | include/nekoproto/rpc/dispatcher.hpp:646-668 | the same condition decides whether every run keeps the running gauge within its limit |
| ExecutionLimiter.ActivePassesItsLimit | include/nekoproto/rpc/dispatcher.hpp:646-668 | for any other limits a reachable state with one more running than allowed |
| ExecutionLimiter.StepKeeps | include/nekoproto/rpc/dispatcher.hpp:126-146 | every counter counts exactly its admissions after every atomic step |
| ExecutionLimiter.RpcExecutionLimiter.TryAdmit | include/nekoproto/rpc/dispatcher.hpp:91-108 | when an admission is refused, and what an accepted one counts |
| ExecutionLimiter.RpcExecutionLimiter.Start | include/nekoproto/rpc/dispatcher.hpp:129-135 | a started admission leaves the queue and becomes active |
| ExecutionLimiter.RpcExecutionLimiter.Destroy | include/nekoproto/rpc/dispatcher.hpp:137-146 | what destroying an admission gives back |
| Dispatcher.OneResponseEach | include/nekoproto/rpc/dispatcher.hpp:427-516 | the backend errors, then one response per request that expects one, in request order |
| Dispatcher.OrderDoesNotMatter | include/nekoproto/rpc/dispatcher.hpp:434-511 | each request gets the verdict its own admission and ending call for, whatever the order of endings |
| Dispatcher.BookkeepingHolds | include/nekoproto/rpc/dispatcher.hpp:470-511 | the two maps have equal keys, each of a message still being processed, at every suspension point |
| Dispatcher.CancelStopsItsRequest | include/nekoproto/rpc/dispatcher.hpp:554-561 | cancelling under a key stops the task of a request with that id from that session |
| Dispatcher.StatesFollow | include/nekoproto/rpc/dispatcher.hpp:653-660 | arriving requests are queued, a task that starts is marked running under its own key, and nothing else changes |
| Dispatcher.TimeoutsFollow | include/nekoproto/rpc/dispatcher.hpp:380-398 | timeouts come and go only by being set, with their session, or all at once |
| Dispatcher.SessionIsRemovedExactly | include/nekoproto/rpc/dispatcher.hpp:584-599 | cancelling a session removes it from all three maps and changes nothing else |
| Dispatcher.RpcDispatcher.BeginMessage | include/nekoproto/rpc/dispatcher.hpp:449-494 | decides on each request by its handler, the connection limit and the room in the limiter, and starts the admitted ones |
| Dispatcher.AdmitsWhileThereIsRoom | include/nekoproto/rpc/dispatcher.hpp:449-468 | of the requests with a handler as many are admitted as the limiter has room for, and none when all are rejected |
| Dispatcher.RpcDispatcher.StartMessage | include/nekoproto/rpc/dispatcher.hpp:449-494 | starts or answers each request as decided and enters the cancellable ones in both maps |
| Dispatcher.RpcDispatcher.FinishMessage | include/nekoproto/rpc/dispatcher.hpp:496-516 | fills in stopped requests, erases the message keys and collects the responses |
| Dispatcher.RpcDispatcher.CancelSession | include/nekoproto/rpc/dispatcher.hpp:584-599 | drops and counts one session |
| Dispatcher.RpcDispatcher.CancelAll | include/nekoproto/rpc/dispatcher.hpp:573-582 | drops everything and counts it |
| Dispatcher.RpcDispatcher.MarkRunning | include/nekoproto/rpc/dispatcher.hpp:653-660 | marking a request running adds no key |
| JsonRpcBackend.DecodeIncoming | include/nekoproto/jsonrpc/backend.hpp:119-158 | splits a message into requests and errors |
| JsonRpcBackend.RequestsSayTheSame | include/nekoproto/jsonrpc/backend.hpp:142-163 | the requests of a message are its decodable elements in order, each with the method name and id of its element and expecting an answer exactly if the id is there and not null; all other elements are errors |
| JsonRpcBackend.NamesReachTheirHandlers | include/nekoproto/jsonrpc/backend.hpp:142-163 | a decodable element is refused as unknown if and only if no handler has its method name |
| JsonRpcBackend.ErrorsSayWhy | include/nekoproto/jsonrpc/backend.hpp:119-158 | what cannot be decoded is answered by one error with its reason, and each bad element by an invalid request |
| JsonRpcBackend.AnsweredAsDemanded | include/nekoproto/jsonrpc/backend.hpp:119-158 | exactly which messages are answered as sections 4 to 6 of the JSON-RPC 2.0 Specification demand: those whose every element is a request with no id or one the backend can hold, or no request in any way while nulls are written |
| JsonRpcBackend.IdsAgreeOnlyIfHandled | include/nekoproto/jsonrpc/backend.hpp:142-158 | the ids of a batch are the demanded ones exactly when each element is handled as demanded: mismatches never make up for each other |
| JsonRpcBackend.NullIdGoesUnanswered | include/nekoproto/jsonrpc/protocol.hpp:35-38 | a call with a null id is taken for a notification and not answered |
| JsonRpcBackend.OtherNumbersAreRefused | include/nekoproto/jsonrpc/protocol.hpp:39-50 | calls with the ids -1 and 1.5 are refused instead of answered under them |
| JsonRpcBackend.UnstructuredParamsPass | include/nekoproto/jsonrpc/backend.hpp:142-158 | requests with scalar parameters are decoded as requests and answered, if at all, under their own id instead of null |
| JsonRpcBackend.ErrorsOmitTheirId | include/nekoproto/serialization/parsing/reflection.hpp:21-33 | by default the answer to unreadable text or to an invalid request lacks its null id |
| JsonRpcBackend.ElementsAnswered | include/nekoproto/jsonrpc/backend.hpp:142-158 | each element not taken for a request gets one error without an id, and each call with an id one response under it |
| Serving.AnsweredOnce | include/nekoproto/rpc/backend.hpp:190-274 | a binary message is answered exactly once if it is a request that was not thrown away, and never otherwise |
| Serving.NamesReachTheirHandlers | include/nekoproto/rpc/dispatcher.hpp:450-457 | a delivered binary request is refused as unknown if and only if no handler has its name, and expects an answer exactly if it is no notification |
| XorList.InsertLinks | include/nekoproto/global/xor_list.hpp:225-262 | inserting a node rewrites just the words that keep every link the xor of its neighbours |
| XorList.RemoveLinks | include/nekoproto/global/xor_list.hpp:265-341 | so does removing one |
| XorList.OtherListsStayLinked | include/nekoproto/global/xor_list.hpp:225-341 | other lists over the same memory are not disturbed |
| XorList.List.PushFront | include/nekoproto/global/xor_list.hpp:225-243 | the node comes first in the sequence |
| XorList.List.PushBack | include/nekoproto/global/xor_list.hpp:245-263 | the node comes last |
| XorList.List.PopFront | include/nekoproto/global/xor_list.hpp:265-284 | the first node is returned and leaves, its own word as it was; null for an empty list |
| XorList.List.PopBack | include/nekoproto/global/xor_list.hpp:286-305 | the last node is returned and leaves, its own word as it was |
| XorList.List.Erase | include/nekoproto/global/xor_list.hpp:318-345 | the node at the iterator leaves and the iterator after it is returned |
| XorList.List.Clear | include/nekoproto/global/xor_list.hpp:347-351 | the list is empty and the nodes are not touched |
| XorList.List.Advance | include/nekoproto/global/xor_list.hpp:152-157 | ++ moves from one position to the next |
| XorList.List.Retreat | include/nekoproto/global/xor_list.hpp:167-172 | -- moves back, undoing ++ |
| XorList.List.Forward | include/nekoproto/global/xor_list.hpp:152-157 | walking forward yields the sequence |
| XorList.List.Backward | include/nekoproto/global/xor_list.hpp:167-172 | walking backward from the end yields its reverse |
| XorList.SamePosition | include/nekoproto/global/xor_list.hpp:182-184 | iterators compare equal exactly at equal positions |
| SliceTransport.Send | include/nekoproto/communication/communication_base.hpp:399-472 | the frames of a message, whole or in slices, or why it is not sent |
| SliceTransport.StreamClient.Recv | include/nekoproto/communication/communication_base.hpp:475-565 | reads frames up to the first that completes a message or fails |
| SliceTransport.StreamClient.TakeFrame | include/nekoproto/communication/communication_base.hpp:505-564 | what one frame does to the buffer, the message, the count and the table of types, and what is handed over, raw bytes of unknown types included; offsets are signed and the bound on a slice is checked on 32 bits |
| SliceTransport.TestedSlices | include/nekoproto/communication/communication_base.hpp:540-548 | a slice that lies in the buffer passes that check; one that passes lies in it if and only if its offset is not negative and the sum does not wrap |
| SliceTransport.NegativeOffsetPasses | include/nekoproto/communication/communication_base.hpp:540-548 | two bytes at offset -1 pass for any buffer that is not empty |
| SliceTransport.StreamClient.CreateProto | include/nekoproto/communication/communication_base.hpp:324-336 | which type a number stands for, by number or by the name in the table of the peer |
| SliceTransport.StreamClient.SyncProtocolTable | include/nekoproto/communication/communication_base.hpp:271-293 | a version frame replaces the table or is refused |
| SliceTransport.PiecesTile | include/nekoproto/communication/communication_base.hpp:440-457 | the slices are consecutive pieces of at most 1190 bytes that make up the message |
| SliceTransport.AnyOrderArrives | include/nekoproto/communication/communication_base.hpp:531-556 | any order of a message's slices is received as that message, whatever the buffer held |
| SliceTransport.SlicedMessageArrives | include/nekoproto/communication/communication_base.hpp:531-556 | so is any other tiling of it |
| SliceTransport.StreamArrives | include/nekoproto/communication/communication_base.hpp:475-565 | any sequence of messages of known and unknown types, with tables announced and messages canceled in between, is received in order with identical bytes, each under the type it stands for by then |
| SliceTransport.NamesDecide | include/nekoproto/communication/communication_base.hpp:324-336 | once a peer has announced its table its messages arrive as the types of the same names, whatever numbers the two ends use |
| SliceTransport.NumbersDecide | include/nekoproto/communication/communication_base.hpp:324-336 | reserved types, and all types before a table is known, arrive under the numbers they were sent with |
| SliceTransport.VersionsAreChecked | include/nekoproto/communication/communication_base.hpp:271-293 | only a frame of type 2 with a readable table changes the types |
| SliceTransport.RawHidesTypes | include/nekoproto/communication/communication_base.hpp:295-308 | after a message of unknown type was taken raw a known type is still known if and only if a table had been announced or its number is reserved |
| SliceTransport.AbandonedIsCanceled | include/nekoproto/communication/communication_base.hpp:506-511 | a message given up half-way leaves the receiver idle and empty |
| SliceTransport.LeftOverCount | include/nekoproto/communication/communication_base.hpp:531-556 | the last slice completes its message if and only if the receiver was idle, for a slice header does not reset the count |
| SliceTransport.UnfinishedMessageSpoilsNext | include/nekoproto/communication/communication_base.hpp:531-556 | on a run of frames: after a header and some slices that stop without a cancel, the next sliced message is completed by its last slice if and only if no slice came |
| SliceTransport.UnknownSlicedLosesItsType | include/nekoproto/communication/communication_base.hpp:531-564 | sent in slices they come out with the offset of the last slice for a type |
| ArgNames.NamesComeBack | include/nekoproto/serialization/serializer_base.hpp:231-313 | parsing the text of any arguments gives their names in order |
| ArgNames.ArgNameFound | include/nekoproto/serialization/serializer_base.hpp:201-228 | the name is found through any nesting of parentheses and tags |
| ArgNames.TextPasses | include/nekoproto/serialization/serializer_base.hpp:100-199 | matched text with any quotes and brackets is passed over whole |
| ArgNames.ParseNames | include/nekoproto/serialization/serializer_base.hpp:231-313 | one scan fills the array with the names between top-level commas |
| ArgNames.SerializerArgName | include/nekoproto/serialization/serializer_base.hpp:213-228 | strips and unwraps until a name is left |
| ArgNames.StripEnclosingParens | include/nekoproto/serialization/serializer_base.hpp:201-211 | takes off blanks and enclosing parentheses |
| ArgNames.FindOuterCallOpen | include/nekoproto/serialization/serializer_base.hpp:100-162 | the first parenthesis outside quotes and other brackets |
| ArgNames.FindMatchingParen | include/nekoproto/serialization/serializer_base.hpp:164-199 | the parenthesis that closes the one given |
| ArgNames.TrimBlanks | include/nekoproto/serialization/serializer_base.hpp:78-86 | takes blanks off both ends |
| Materializer.LayersInOrder | include/nekoproto/argparser/argparser.hpp:202-226 | each option has its command-line value, else environment, else imported or default, else initial; a vector is cleared once exactly if something was supplied before |
| Materializer.LayersSucceed | include/nekoproto/argparser/argparser.hpp:202-219 | the layers succeed if and only if the counts agree and every default, command-line and environment value can be read and suits |
| Materializer.ParseOptionsInto | include/nekoproto/argparser/argparser.hpp:189-222 | succeeds exactly when every layer does and required, needed and conflicting options are as declared |
| Materializer.Traverse | include/nekoproto/argparser/detail/materializer.hpp:497-537 | leaf k of the struct is visited with schema index k, a pass ends past the last leaf, and ignored fields and nesting stay as they are |
| Materializer.EveryOptionIsVisited | include/nekoproto/argparser/detail/materializer.hpp:497-537 | the options visited are those at any depth of the struct and no ignored field |
| Materializer.VisitEach | include/nekoproto/argparser/detail/materializer.hpp:538-580 | a pass succeeds exactly when it does at every option on its own |
| Materializer.AssignAllGives | include/nekoproto/argparser/detail/materializer.hpp:352-449 | a scalar keeps the last text, a vector gets all parts of all texts, each valid |
| Materializer.PartsRejoin | include/nekoproto/argparser/detail/materializer.hpp:182-205 | the parts between separators hold none and rejoin to the text |
| Materializer.TextsMean | include/nekoproto/argparser/detail/materializer.hpp:182-205 | an option with a separator has its text cut at each one, any other takes it whole |
| Materializer.ValidateRequired | include/nekoproto/argparser/detail/materializer.hpp:452-460 | exactly the missing required options are errors |
| Materializer.ValidateRelations | include/nekoproto/argparser/detail/materializer.hpp:462-495 | an active option has what it requires and nothing it conflicts with |
| Materializer.ValidateMaterialized | include/nekoproto/argparser/detail/materializer.hpp:717-728 | required, requires and conflicts all hold or there is an error |
| Materializer.ActiveMeans | include/nekoproto/argparser/detail/materializer.hpp:642-668 | an option counts if it was given and holds something other than a flag that is off |

## Left out

- Coroutines, sockets, mutexes and timers: a locked section, or what runs between two suspension points, is one step; timeouts and cancellations happen at any time.
- Payload serializers and the JSON library: payloads are opaque bytes, and a document is what the library reads.
- Partial reads and writes inside one transport frame: `send` ignores a failure of its last slice, so all writes are taken to succeed.
- Negotiation.HelloAgreement: takes the hello frames to arrive; a server hello whose table and compression extensions together exceed 65535 bytes does not encode, and `PeerSession.HelloOverWire` says exactly which do.
- NekoBackend.RequestArrives: is about sessions whose compression the two ends agreed on, as hello leaves them.
- JsonRpcBackend.AnsweredAsDemanded: is about which elements are answered and under which ids, not about the result and error members of an answer; an invalid request whose own id can be read is taken to demand a null id, which is one reading of section 5; a message over the size limit is answered by one error of the backend's own.
- ClientCalls.CompletesAtMostOnce: is about fewer than 2^64 - 1 requests; later ids would repeat.
- ClientCalls.CallRemote: what others do to the pending calls meanwhile is a parameter, but none of them changes the session in between; an attempt given up ends in one error, whatever made it give up; the hello before the first call is `PeerSession.PeerSession.CompleteHello`.
- Dispatcher.OrderDoesNotMatter: a task ends once; whether the coroutine library can report a timeout for a handler that has already answered is not part of this model.
- Responses that fit no frame even uncompressed: `NekoBackend.EncodeResponse` gives nothing, and the server closes the connection.
- Compression counters, logging, error texts and notifications about deprecated options.
- SliceTransport.StreamArrives: is about messages of up to 2^31 - 11 bytes, what the read and write loops can carry.
- SliceTransport.TestedSlices: the check is an assertion, which some builds leave out; what the code does after writing outside the buffer is not part of this model.
- SliceTransport.StreamClient.TakeFrame: parsing a complete buffer is left to the serializer and taken to succeed.
- Dispatcher.RpcDispatcher.BeginMessage: decides on all requests of a message before it starts them, which is the same because nothing runs in between.
- Materializer.ParseOptionsInto: starts from texts already sorted by option and from a schema already checked, and ends before configurations are exported.
- Materializer.LayersInOrder: reading a scalar's text and checking ranges and choices are functions of the field's type; imported values are not checked, as in the code. Subcommands, help and exporting are not part of this model.
- Materializer.Traverse: stands for the four passes over a struct, which differ only in what they do at a leaf.
- MethodIdTable.SignatureHash: nothing but being non-zero is used of it; collisions are possible.
- XorList.List.Erase: takes an iterator that stands in the list, as the code does; the owning variant of the list adds allocation only.
- ArgNames.NamesComeBack: is about text whose quotes and brackets match; other text is split as the code splits it, by `ArgNames.ParseNames`.
- Datagram clients, protocol factories, length-prefixed endpoints and connection timeouts: only easy members.
