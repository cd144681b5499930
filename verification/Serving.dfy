/** Binary messages at the server: one frame in, at most one frame out. */
module Serving {
  import opened Bytes
  import opened FrameCodec
  import Neko = NekoBackend
  import opened Dispatcher
  import Tables = MethodIdTable

  /** A decoded binary message in the dispatcher's terms; an error response is an opaque failure to it. */
  function Incoming(d: Neko.Incoming, code: Neko.RpcError -> int): Decoded {
    match d
    case Rejected => Decoded(false, false, [], [])
    case Control => Decoded(true, false, [], [])
    case Failed(responses) =>
      Decoded(true, false, [], seq(|responses|, i requires 0 <= i < |responses| =>
                                 Response(Number(responses[i].id), Failure(Other(code(responses[i].error))))))
    case Delivered(request) =>
      Decoded(true, false, [Request(Number(request.id), Characters(request.name), request.kind == REQUEST)], [])
  }

  /** A name is looked up as the characters its bytes are. */
  function Characters(name: bytes): (r: string)
    ensures |r| == |name| && forall i :: 0 <= i < |r| ==> r[i] as int == name[i] as int
  {
    seq(|name|, i requires 0 <= i < |name| => name[i] as char)
  }

  /**
   * A request or notification that the backend delivers is refused as unknown if and only if no handler has the
   * name it was sent for, and only a request, of kind 1, expects an answer.
   */
  lemma NamesReachTheirHandlers(options: Neko.Options, t: Tables.Table, session: Neko.Session, message: bytes,
                                code: Neko.RpcError -> int, handlers: set<string>, rejectOnly: bool, room: nat)
    requires Neko.DecodeIncoming(options, t, session, message).Delivered?
    ensures var request := Neko.DecodeIncoming(options, t, session, message).request;
      var decoded := Incoming(Neko.DecodeIncoming(options, t, session, message), code);
      && |decoded.requests| == 1 && decoded.responses == []
      && decoded.requests[0].id == Number(request.id)
      && (decoded.requests[0].expects <==> request.kind == 1)
      && (Decisions(decoded.requests, handlers, rejectOnly, room) == [NoHandler]
          <==> !exists name :: name in handlers && SameCharacters(request.name, name))
  {
    hide Neko.DecodeIncoming;
    var name := Neko.DecodeIncoming(options, t, session, message).request.name;
    var decoded := Incoming(Neko.DecodeIncoming(options, t, session, message), code);
    AdmitsWhileThereIsRoom(decoded.requests, handlers, rejectOnly, room);
    hide Decisions;
    hide Handled;
    hide CountAdmitted;
    if Characters(name) in handlers {
      assert SameCharacters(name, Characters(name));
    }
    forall other | other in handlers && SameCharacters(name, other) ensures Characters(name) == other {
    }
  }

  predicate SameCharacters(name: bytes, s: string) {
    |name| == |s| && forall i :: 0 <= i < |name| ==> name[i] as int == s[i] as int
  }

  /**
   * A binary message is answered exactly once if it is a request the backend did not throw away, with the
   * id it came with, and never otherwise.
   */
  lemma AnsweredOnce(options: Neko.Options, t: Tables.Table, session: Neko.Session, message: bytes,
                     code: Neko.RpcError -> int, m: Message)
    requires m.decoded == Incoming(Neko.DecodeIncoming(options, t, session, message), code)
    requires Valid(m) && Done(m)
    ensures var f := FrameCodec.Parse(message);
      var kept := Neko.DecodeIncoming(options, t, session, message);
      && |Responses(m)|
         == (if f.Some? && f.value.header.kind == REQUEST && !kept.Rejected? && !kept.Control? then 1 else 0)
      && forall r :: r in Responses(m) ==> f.Some? && r.id == Number(f.value.header.id)
  {
    hide FrameCodec.Parse;
    hide Neko.IncomingMethodName;
    hide ValidFrame;
    OneResponseEach(m);
    var d := Neko.DecodeIncoming(options, t, session, message);
    if d.Delivered? {
      assert m.decoded.requests[1..] == [];
    }
  }
}
