// The connection engine of dbus.go: one Connection object whose fields the
// handshake, the receive loop, the dispatcher and the synchronous calls
// update in place. Socket writes are appended to `written`; the bytes a
// read returns are parameters; callbacks fired are logged in `delivered`.
module Bus {
  import opened Protocol
  import opened SessionAddress
  import opened AuthHandshake
  import opened FrameBuffer
  import opened ReplyRegistry
  import opened ObjectModel

  /** _Marshal: the wire bytes of a message (the codec is not part of this model). */
  type Marshal = Message -> seq<byte>

  /** _UpdateBuffer reads into a buffer of this many bytes. */
  const ReadChunkSize := 4096

  class Connection {
    /** The bus address, and the socket name dialled for it (standing for conn). */
    const path: string
    const socket: string
    /** Declared by the source but never assigned by it. */
    var uniqName: string
    var guid: string
    /** methodCallReplies */
    var replies: Registry
    /** The unread bytes of the receive buffer. */
    var buffer: seq<byte>
    /** Every byte written to the socket, in order. */
    var written: seq<byte>
    /** Every callback fired by the dispatcher, in order, with its reply. */
    ghost var delivered: seq<Delivery>

    const marshal: Marshal
    const unmarshal: Unmarshal
    const parse: IntrospectParser

    constructor (path: string, socket: string, marshal: Marshal, unmarshal: Unmarshal,
                 parse: IntrospectParser)
      ensures this.path == path && this.socket == socket
      ensures this.marshal == marshal && this.unmarshal == unmarshal && this.parse == parse
      ensures uniqName == "" && guid == "" && replies == map[] && buffer == []
      ensures written == [] && delivered == []
    {
      this.path, this.socket := path, socket;
      this.marshal, this.unmarshal, this.parse := marshal, unmarshal, parse;
      uniqName, guid, replies, buffer := "", "", map[], [];
      written, delivered := [], [];
    }

    /** Initialize: fresh registry and buffer, the handshake (its error is
        discarded), and the Hello call, which returns once its reply is
        dispatched. The receive loop started here is MessageReceiver. */
    method Initialize(uid: int, got: seq<byte>, helloSerial: uint32, helloReply: Message)
      returns (err: Option<string>)
      requires |got| <= ReplyBufferSize
      requires helloReply.kind == MethodReturn && helloReply.replySerial == helloSerial
      modifies this`replies, this`buffer, this`guid, this`written, this`delivered
      ensures err.None?
      ensures replies == map[] && buffer == []
      ensures guid == (if ReplyGuid(got).Some? then ReplyGuid(got).value else old(guid))
      ensures written == old(written) + HandshakeOutput(uid, got) + marshal(HelloCall(helloSerial))
      ensures delivered == old(delivered) + [Delivery(HelloDone, helloReply)]
    {
      replies := map[];
      buffer := [];
      var authErr := Auth(uid, got);
      SendHello(helloSerial, helloReply);
      assert replies == map[];
      err := None;
    }

    /** _Auth: a NUL byte and the AUTH EXTERNAL line are written; one read
        of at most 1000 bytes is matched against ^OK ([0-9a-fA-F]+); on a
        match the guid is stored and BEGIN written, otherwise the error is
        returned and nothing more is written. */
    method Auth(uid: int, got: seq<byte>) returns (err: Option<string>)
      requires |got| <= ReplyBufferSize
      modifies this`guid, this`written
      ensures err.None? <==> ReplyGuid(got).Some?
      ensures err.Some? ==> err.value == AuthFailed
      ensures guid == (if err.None? then ReplyGuid(got).value else old(guid))
      ensures written == old(written) + HandshakeOutput(uid, got)
    {
      var greeting := Bytes("\0") + Bytes(AuthLine(uid));
      written := written + Bytes("\0");
      written := written + Bytes(AuthLine(uid));
      assert written == old(written) + greeting;
      var retstr := ReplyText(got);
      var m := MatchOk(retstr);
      assert m == ReplyGuid(got);
      if m.Some? {
        guid := m.value;
        written := written + Bytes(Begin);
        assert HandshakeOutput(uid, got) == greeting + Bytes(Begin);
        return None;
      }
      assert HandshakeOutput(uid, got) == greeting;
      return Some(AuthFailed);
    }

    /** _PopMessage: when Unmarshal fails the buffer is untouched; otherwise
        the decoded message is returned and the consumed bytes removed
        (bytes.Buffer.Read removes no more than the buffer holds). */
    method PopMessage() returns (msg: Option<Message>)
      modifies this`buffer
      ensures match unmarshal(old(buffer))
        case None => msg.None? && buffer == old(buffer)
        case Some(d) => msg == Some(d.msg) && buffer == old(buffer)[Min(d.consumed, |old(buffer)|)..]
    {
      match unmarshal(buffer) {
        case None =>
          msg := None;
        case Some(d) =>
          buffer := buffer[Min(d.consumed, |buffer|)..];
          msg := Some(d.msg);
      }
    }

    /** _UpdateBuffer: the bytes of one read are appended. */
    method UpdateBuffer(chunk: seq<byte>)
      requires |chunk| <= ReadChunkSize
      modifies this`buffer
      ensures buffer == old(buffer) + chunk
    {
      buffer := buffer + chunk;
    }

    /** _MessageDispatch: a method return with a registered reply serial
        fires that callback once and removes it; anything else (nil, an
        unmatched reply, an error, which is only printed, or another type)
        changes nothing. */
    method MessageDispatch(msg: Option<Message>)
      modifies this`replies, this`delivered
      ensures replies == Dispatch(old(replies), msg).0
      ensures delivered == old(delivered) + Fired(Dispatch(old(replies), msg).1)
    {
      if msg.None? {
        return;
      }
      var m := msg.value;
      match m.kind {
        case MethodReturn =>
          var rs := m.replySerial;
          if rs in replies {
            delivered := delivered + [Delivery(replies[rs], m)];
            replies := replies - {rs};
          }
        case _ =>
      }
    }

    /** The inner loop of _MessageReceiver, each message going straight to
        the dispatcher as the unbuffered channel hands it over: pop until a
        pop fails. */
    method DrainBuffer() returns (msgs: seq<Message>)
      requires Progressing(unmarshal)
      modifies this`buffer, this`replies, this`delivered
      ensures (msgs, buffer) == Drain(unmarshal, old(buffer))
      ensures unmarshal(buffer).None?
      ensures replies == DispatchAll(old(replies), msgs).0
      ensures delivered == old(delivered) + DispatchAll(old(replies), msgs).1
    {
      ghost var whole := Drain(unmarshal, buffer);
      msgs := [];
      assert [] + Drain(unmarshal, buffer).0 == Drain(unmarshal, buffer).0;
      while true
        invariant whole.0 == msgs + Drain(unmarshal, buffer).0
        invariant whole.1 == Drain(unmarshal, buffer).1
        invariant replies == DispatchAll(old(replies), msgs).0
        invariant delivered == old(delivered) + DispatchAll(old(replies), msgs).1
        decreases |buffer|
      {
        ghost var before := buffer;
        var m := PopAndDispatch();
        PopStep(unmarshal, before, buffer, m);
        if m.None? {
          assert msgs + [] == msgs && delivered + [] == delivered;
          break;
        }
        DrainOwed(unmarshal, whole, msgs, before, buffer, m.value);
        DispatchAllSnoc(old(replies), msgs, m.value, old(delivered));
        msgs := msgs + [m.value];
      }
    }

    /** One turn of the inner loop with its hand-over: a pop, and the
        dispatch of what it popped (a nil message dispatches nothing). */
    method PopAndDispatch() returns (msg: Option<Message>)
      modifies this`buffer, this`replies, this`delivered
      ensures match unmarshal(old(buffer))
        case None => msg.None? && buffer == old(buffer)
        case Some(d) => msg == Some(d.msg) && buffer == old(buffer)[Min(d.consumed, |old(buffer)|)..]
      ensures replies == Dispatch(old(replies), msg).0
      ensures delivered == old(delivered) + Fired(Dispatch(old(replies), msg).1)
    {
      msg := PopMessage();
      MessageDispatch(msg);
    }

    /** _MessageReceiver with _RunLoop's dispatch, over a finite run of
        reads: every decodable frame is popped and dispatched, in buffer
        order, before the next read is appended. */
    method MessageReceiver(chunks: seq<seq<byte>>) returns (msgs: seq<Message>)
      requires Progressing(unmarshal)
      requires forall i :: 0 <= i < |chunks| ==> |chunks[i]| <= ReadChunkSize
      modifies this`buffer, this`replies, this`delivered
      ensures (msgs, buffer) == Feed(unmarshal, old(buffer), chunks)
      ensures replies == DispatchAll(old(replies), msgs).0
      ensures delivered == old(delivered) + DispatchAll(old(replies), msgs).1
    {
      ghost var whole := Feed(unmarshal, buffer, chunks);
      FeedAfterDrain(unmarshal, buffer, chunks);
      msgs := DrainBuffer();
      assert chunks[0..] == chunks;
      for k := 0 to |chunks|
        invariant unmarshal(buffer).None?
        invariant whole.0 == msgs + Feed(unmarshal, buffer, chunks[k..]).0
        invariant whole.1 == Feed(unmarshal, buffer, chunks[k..]).1
        invariant replies == DispatchAll(old(replies), msgs).0
        invariant delivered == old(delivered) + DispatchAll(old(replies), msgs).1
      {
        ghost var buf := buffer;
        assert chunks[k..][0] == chunks[k] && chunks[k..][1..] == chunks[k + 1..];
        var more := ReadAndDrain(chunks[k], chunks[k + 1..]);
        FeedLoopStep(unmarshal, whole, msgs, buf, chunks[k..], more, buffer);
        DispatchAllThen(old(replies), msgs, more, old(delivered));
        msgs := msgs + more;
      }
      assert chunks[|chunks|..] == [];
      assert msgs + [] == msgs;
    }

    /** One pass of _MessageReceiver's outer loop: the bytes of a read are
        appended and every frame then decodable is popped and dispatched. */
    method ReadAndDrain(chunk: seq<byte>, ghost later: seq<seq<byte>>) returns (more: seq<Message>)
      requires Progressing(unmarshal)
      requires |chunk| <= ReadChunkSize
      modifies this`buffer, this`replies, this`delivered
      ensures Feed(unmarshal, old(buffer) + chunk, later) ==
        (more + Feed(unmarshal, buffer, later).0, Feed(unmarshal, buffer, later).1)
      ensures unmarshal(buffer).None?
      ensures replies == DispatchAll(old(replies), more).0
      ensures delivered == old(delivered) + DispatchAll(old(replies), more).1
    {
      UpdateBuffer(chunk);
      FeedAfterDrain(unmarshal, buffer, later);
      more := DrainBuffer();
    }

    /** _SendSync before its wait: the callback is registered under the
        message's serial, replacing any entry there, and the marshalled
        message is written. */
    method RegisterAndWrite(msg: Message, callback: Callback)
      modifies this`replies, this`written
      ensures replies == Register(old(replies), msg.serial, callback)
      ensures written == old(written) + marshal(msg)
    {
      replies := Register(replies, msg.serial, callback);
      written := written + marshal(msg);
    }

    /** _SendSync: register and write, then wait until the dispatcher
        delivers `reply`, the method return to that serial, which fires the
        callback and removes its entry. */
    method SendSync(msg: Message, callback: Callback, reply: Message)
      requires reply.kind == MethodReturn && reply.replySerial == msg.serial
      modifies this`replies, this`written, this`delivered
      ensures written == old(written) + marshal(msg)
      ensures replies == old(replies) - {msg.serial}
      ensures delivered == old(delivered) + [Delivery(callback, reply)]
    {
      RegisterAndWrite(msg, callback);
      MessageDispatch(Some(reply));
    }

    /** _SendHello: the Hello call to the bus. */
    method SendHello(serial: uint32, reply: Message)
      requires reply.kind == MethodReturn && reply.replySerial == serial
      modifies this`replies, this`written, this`delivered
      ensures written == old(written) + marshal(HelloCall(serial))
      ensures replies == old(replies) - {serial}
      ensures delivered == old(delivered) + [Delivery(HelloDone, reply)]
    {
      SendSync(HelloCall(serial), HelloDone, reply);
    }

    /** _GetIntrospect: the Introspect call; the result is nil unless the
        reply's first parameter is a string that parses. */
    method GetIntrospect(dest: string, path: string, serial: uint32, reply: Message)
      returns (intro: Option<Introspect>)
      requires reply.kind == MethodReturn && reply.replySerial == serial
      modifies this`replies, this`written, this`delivered
      ensures intro == IntrospectOf(reply, parse)
      ensures written == old(written) + marshal(IntrospectCall(dest, path, serial))
      ensures replies == old(replies) - {serial}
      ensures delivered == old(delivered) + [Delivery(IntrospectDone(dest, path), reply)]
    {
      SendSync(IntrospectCall(dest, path, serial), IntrospectDone(dest, path), reply);
      intro := IntrospectOf(reply, parse);
    }

    /** GetObject: an object for (dest, path) caching its introspection. */
    method GetObject(dest: string, path: string, serial: uint32, reply: Message)
      returns (obj: Object)
      requires reply.kind == MethodReturn && reply.replySerial == serial
      modifies this`replies, this`written, this`delivered
      ensures obj == Object(dest, path, IntrospectOf(reply, parse))
      ensures written == old(written) + marshal(IntrospectCall(dest, path, serial))
      ensures replies == old(replies) - {serial}
      ensures delivered == old(delivered) + [Delivery(IntrospectDone(dest, path), reply)]
    {
      var intro := GetIntrospect(dest, path, serial, reply);
      obj := Object(dest, path, intro);
    }

    /** CallMethod: an unknown method returns "Invalid Method" and sends
        nothing; otherwise the call message (non-nil arguments in order,
        signature from the method data) is sent synchronously. */
    method CallMethod(intf: Interface, name: string, args: seq<Option<Value>>,
                      serial: uint32, reply: Message) returns (err: Option<string>)
      requires reply.kind == MethodReturn && reply.replySerial == serial
      modifies this`replies, this`written, this`delivered
      ensures BuildCall(intf, name, args, serial).Err? ==>
        err == Some(InvalidMethod) && replies == old(replies)
        && written == old(written) && delivered == old(delivered)
      ensures BuildCall(intf, name, args, serial).Ok? ==>
        && err.None?
        && written == old(written) + marshal(BuildCall(intf, name, args, serial).value)
        && replies == old(replies) - {serial}
        && delivered == old(delivered) + [Delivery(MethodDone(name), reply)]
    {
      var md := GetMethodData(intf.data, name);
      if md.None? {
        return Some(InvalidMethod);
      }
      var params := CollectParams(args);
      var msg := NewMessage(serial).(kind := MethodCall, path := intf.obj.path, intf := intf.name,
                                     dest := intf.obj.dest, member := name,
                                     sig := md.value.inSignature, params := params);
      SendSync(msg, MethodDone(name), reply);
      err := None;
    }
  }

  /** NewSessionBus: a connection to the abstract socket the address names;
      the address error without dialling, or the dial error. */
  method NewSessionBus(address: string, dialError: Option<string>, marshal: Marshal,
                       unmarshal: Unmarshal, parse: IntrospectParser) returns (r: Result<Connection>)
    ensures SessionSocket(address).Err? ==> r == Err(SessionBusFailed)
    ensures SessionSocket(address).Ok? && dialError.Some? ==> r == Err(dialError.value)
    ensures SessionSocket(address).Ok? && dialError.None? ==>
      && r.Ok? && fresh(r.value)
      && r.value.path == address && r.value.socket == SessionSocket(address).value
      && r.value.replies == map[] && r.value.written == []
      && r.value.marshal == marshal && r.value.unmarshal == unmarshal && r.value.parse == parse
      && r.value.uniqName == "" && r.value.guid == "" && r.value.buffer == []
      && r.value.delivered == []
  {
    match SessionSocket(address) {
      case Err(e) =>
        return Err(e);
      case Ok(name) =>
        if dialError.Some? {
          return Err(dialError.value);
        }
        var bus := new Connection(address, name, marshal, unmarshal, parse);
        return Ok(bus);
    }
  }

  /** NewSystemBus: a connection to the fixed system bus socket, or the dial error. */
  method NewSystemBus(dialError: Option<string>, marshal: Marshal, unmarshal: Unmarshal,
                      parse: IntrospectParser) returns (r: Result<Connection>)
    ensures dialError.Some? ==> r == Err(dialError.value)
    ensures dialError.None? ==>
      && r.Ok? && fresh(r.value)
      && r.value.path == SystemBusAddress && r.value.socket == SystemBusSocket
      && r.value.replies == map[] && r.value.written == []
      && r.value.marshal == marshal && r.value.unmarshal == unmarshal && r.value.parse == parse
      && r.value.uniqName == "" && r.value.guid == "" && r.value.buffer == []
      && r.value.delivered == []
  {
    if dialError.Some? {
      return Err(dialError.value);
    }
    var bus := new Connection(SystemBusAddress, SystemBusSocket, marshal, unmarshal, parse);
    return Ok(bus);
  }
}
