// The proxy layer: remote objects with their cached introspection,
// interface lookup, and the messages the client builds for its calls.
module ObjectModel {
  import opened Protocol

  /** The introspection collaborator's results, as lookup tables. */
  datatype MethodData = MethodData(inSignature: string)
  datatype InterfaceData = InterfaceData(methods: map<string, MethodData>)
  datatype Introspect = Introspect(interfaces: map<string, InterfaceData>)

  /** NewIntrospect: parsed introspection data, or None for the error it returns. */
  type IntrospectParser = string -> Option<Introspect>

  function GetInterfaceData(intro: Introspect, name: string): Option<InterfaceData> {
    if name in intro.interfaces then Some(intro.interfaces[name]) else None
  }

  function GetMethodData(data: InterfaceData, name: string): Option<MethodData> {
    if name in data.methods then Some(data.methods[name]) else None
  }

  /** A remote object; `intro` is None (nil) when introspection gave nothing. */
  datatype Object = Object(dest: string, path: string, intro: Option<Introspect>)

  datatype Interface = Interface(obj: Object, name: string, data: InterfaceData)

  const BusName := "org.freedesktop.DBus"
  const BusPath := "/org/freedesktop/DBus"
  const IntrospectableInterface := "org.freedesktop.DBus.Introspectable"
  const InvalidMethod := "Invalid Method"

  /** The header _SendHello builds: a method call carrying the given serial
      and no parameters, addressed to the bus itself. */
  function HelloCall(serial: uint32): (h: Message)
    ensures h.kind == MethodCall && h.serial == serial && h.params == []
    ensures h.dest == BusName && h.intf == BusName && h.path == BusPath && h.member == "Hello"
  {
    NewMessage(serial).(kind := MethodCall, path := BusPath, intf := BusName,
                        dest := BusName, member := "Hello")
  }

  /** The header _GetIntrospect builds: a method call carrying the given
      serial and no parameters, to the object asked for, on the
      Introspectable interface. */
  function IntrospectCall(dest: string, path: string, serial: uint32): (i: Message)
    ensures i.kind == MethodCall && i.serial == serial && i.params == []
    ensures i.dest == dest && i.path == path
    ensures i.intf == IntrospectableInterface && i.member == "Introspect"
  {
    NewMessage(serial).(kind := MethodCall, path := path, dest := dest,
                        intf := IntrospectableInterface, member := "Introspect")
  }

  /** What running _GetIntrospect's callback as written comes to. */
  datatype CallbackRun = Panicked | Completed(intro: Option<Introspect>)

  /** _GetIntrospect's callback as written: Params.At(0) indexes the reply's
      parameter vector, which panics exactly when the reply has no
      parameters; otherwise the object keeps what a string first parameter
      parses to, and nil for anything else. */
  function IntrospectCallbackAsWritten(reply: Message, parse: IntrospectParser): (r: CallbackRun)
    ensures r == Panicked <==> |reply.params| == 0
    ensures r.Completed? && r.intro.Some? ==>
      reply.params[0].StringValue? && r.intro == parse(reply.params[0].text)
  {
    if |reply.params| == 0 then Panicked
    else
      match reply.params[0]
      case StringValue(v) => Completed(parse(v))
      case _ => Completed(None)
  }

  /** A method return to the Introspect call with an empty body, which a
      peer may send, makes the dispatcher panic. */
  lemma EmptyIntrospectReplyPanics(parse: IntrospectParser)
    ensures var reply := NewMessage(7).(kind := MethodReturn, replySerial := 1);
      IntrospectCallbackAsWritten(reply, parse) == Panicked
  {
  }

  /** The introspection the object caches: set exactly when the reply's
      first parameter is a string that parses, and then to what it parses
      to; otherwise nil, also for a reply with no parameters. */
  function IntrospectOf(reply: Message, parse: IntrospectParser): (r: Option<Introspect>)
    ensures r.Some? <==>
      |reply.params| > 0 && reply.params[0].StringValue? && parse(reply.params[0].text).Some?
    ensures r.Some? ==> r == parse(reply.params[0].text)
  {
    if |reply.params| > 0 && reply.params[0].StringValue? then parse(reply.params[0].text)
    else None
  }

  /** IntrospectOf is the callback as written wherever that does not panic. */
  lemma IntrospectOfSpec(reply: Message, parse: IntrospectParser)
    ensures |reply.params| > 0 ==>
      IntrospectCallbackAsWritten(reply, parse) == Completed(IntrospectOf(reply, parse))
  {
  }

  /** Connection.Interface: the named interface of an object, or nil. It is
      nil exactly when the object is nil, its introspection is nil, or the
      introspection has no interface of that name; otherwise it is that
      object, that name and that interface's data. */
  function InterfaceOf(obj: Option<Object>, name: string): (r: Option<Interface>)
    ensures r.None? <==>
      obj.None? || obj.value.intro.None? || name !in obj.value.intro.value.interfaces
    ensures r.Some? ==> r.value == Interface(obj.value, name, obj.value.intro.value.interfaces[name])
  {
    if obj.None? || obj.value.intro.None? then None
    else
      match GetInterfaceData(obj.value.intro.value, name)
      case None => None
      case Some(data) => Some(Interface(obj.value, name, data))
  }

  /** An object built from an introspection reply has an interface only if
      the reply's first parameter was a string that parsed and names it. */
  lemma InterfaceOfFetchedObject(dest: string, path: string, reply: Message,
                                 parse: IntrospectParser, name: string)
    ensures var obj := Object(dest, path, IntrospectOf(reply, parse));
      InterfaceOf(Some(obj), name).Some? <==>
        && |reply.params| > 0 && reply.params[0].StringValue?
        && var parsed := parse(reply.params[0].text);
           parsed.Some? && name in parsed.value.interfaces
  {
  }

  function Keep(arg: Option<Value>): seq<Value> {
    if arg.Some? then [arg.value] else []
  }

  /** The arguments CallMethod pushes: the non-nil ones, in their order.
      Each is one of the arguments, and there are no more of them. */
  function Present(args: seq<Option<Value>>): (r: seq<Value>)
    ensures |r| <= |args|
    ensures forall v :: v in r ==> Some(v) in args
    decreases |args|
  {
    if args == [] then [] else Present(args[..|args| - 1]) + Keep(args[|args| - 1])
  }

  /** Dropping nils keeps the order: the kept arguments of a + b are those
      of a followed by those of b. */
  lemma {:induction false} PresentAppend(a: seq<Option<Value>>, b: seq<Option<Value>>)
    ensures Present(a + b) == Present(a) + Present(b)
    decreases |b|
  {
    if b == [] {
      assert a + b == a;
    } else {
      var b' := b[..|b| - 1];
      assert (a + b)[..|a + b| - 1] == a + b';
      assert (a + b)[|a + b| - 1] == b[|b| - 1];
      PresentAppend(a, b');
    }
  }

  /** A value is kept iff it was passed as a non-nil argument. */
  lemma {:induction false} PresentMembers(args: seq<Option<Value>>, v: Value)
    ensures v in Present(args) <==> Some(v) in args
    decreases |args|
  {
    if args != [] {
      var init := args[..|args| - 1];
      PresentMembers(init, v);
      assert args == init + [args[|args| - 1]];
    }
  }

  /** The for loop of CallMethod that pushes every non-nil argument. */
  method CollectParams(args: seq<Option<Value>>) returns (params: seq<Value>)
    ensures params == Present(args)
  {
    params := [];
    for i := 0 to |args|
      invariant params == Present(args[..i])
    {
      assert args[..i + 1][..i] == args[..i];
      if args[i].Some? {
        params := params + [args[i].value];
      }
    }
    assert args[..|args|] == args;
  }

  /** The message CallMethod sends, or its "Invalid Method" error: an
      unknown method gives the error; a known one a method call to the
      interface's object whose signature is the method's declared input
      signature and whose parameters are the non-nil arguments in order. */
  function BuildCall(intf: Interface, name: string, args: seq<Option<Value>>, serial: uint32): (r: Result<Message>)
    ensures r.Err? <==> name !in intf.data.methods
    ensures r.Err? ==> r.error == InvalidMethod
    ensures r.Ok? ==>
      var m := r.value;
      && m.kind == MethodCall && m.serial == serial
      && m.path == intf.obj.path && m.dest == intf.obj.dest
      && m.intf == intf.name && m.member == name
      && m.sig == intf.data.methods[name].inSignature
      && m.params == Present(args)
  {
    match GetMethodData(intf.data, name)
    case None => Err(InvalidMethod)
    case Some(md) =>
      Ok(NewMessage(serial).(kind := MethodCall, path := intf.obj.path, intf := intf.name,
                            dest := intf.obj.dest, member := name,
                            sig := md.inSignature, params := Present(args)))
  }
}
