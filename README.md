# go-dbus connection core, modelled in Dafny

This project models the client connection of `dbus.go`, a small D-Bus
client library. It covers the sequential logic only; sockets, goroutines
and channels are left out. There are seven modules:

- `Protocol` (protocol.dfy): bytes, `uint32` serials, the `Message` header
  fields the connection reads and writes, and `Option`/`Result`.
- `SessionAddress` (address.dfy): how `NewSessionBus` finds the abstract
  socket name in an address `unix:abstract=<path>,guid=<guid>`. This is the
  "Server Addresses" part of the D-Bus Specification, with the semantics
  of Go 1's `regexp`: `.` does not match a line feed, `.*` is greedy, and
  the end of the pattern is not anchored.
- `AuthHandshake` (auth.dfy): the `AUTH EXTERNAL` line built from the
  decimal uid, hex-encoded. This is the EXTERNAL mechanism of the D-Bus
  authentication protocol (SASL EXTERNAL, RFC 4422 Appendix A). The module
  also matches the server's `OK <guid>` reply against `^OK ([0-9a-fA-F]+)`.
- `FrameBuffer` (frames.dfy): what the receive loop extracts from its
  buffer. `Drain` pops frames until the codec fails. `Feed` runs the drain
  over a sequence of reads. The codec is given as a function.
- `ReplyRegistry` (registry.dfy): the table of pending calls keyed by
  serial, and what the dispatcher does with an incoming message.
- `ObjectModel` (objects.dfy): remote objects, interface lookup, the
  Hello and Introspect headers, and the message `CallMethod` builds.
- `Bus` (connection.dfy): the `Connection` class. Its fields are updated
  in place by the handshake, the receive loop, the dispatcher and the
  synchronous calls. The class also keeps a log of written bytes and a
  ghost log of fired callbacks.

The codec (`_Marshal`, `_Unmarshal`) and the introspection parser
(`NewIntrospect`) are not part of `dbus.go`. They appear here as
function-valued parameters of the connection. The bytes a socket read
returns are method parameters. The bytes written to the socket are
appended to the `written` field.

## Model

| member | source | states |
|---|---|---|
| SessionAddress.SessionPath | dbus.go:39-43 | A first group it returns is one with which the address matches the pattern. |
| SessionAddress.SessionSocket | dbus.go:41-53 | On success the name is "\0" followed by a first group with which the address matches. Otherwise it is the "NewSessionBus Failed" error. |
| SessionAddress.SessionSocketSpec | dbus.go:39-53 | When the address matches, the socket name is "\0" followed by a first group P of the match, and P is the longest possible (greedy `.*`, so it runs up to the last ",guid=" before any line feed). When nothing matches, the result is the "NewSessionBus Failed" error. |
| SessionAddress.LastGuidUpTo | dbus.go:39-43 | Returns the greatest index up to the bound where ",guid=" starts, or None when no index at or below the bound has one. |
| SessionAddress.MatchAsCut | dbus.go:39-43 | An address matches with first group q exactly when q is a prefix of the text after the scheme, q ends before the first line feed, and ",guid=" follows q. |
| AuthHandshake.AuthLine | dbus.go:80 | The line starts with "AUTH EXTERNAL ", ends with CRLF, and in between holds two characters per character of the uid's decimal text. |
| AuthHandshake.AuthLineSpec | dbus.go:80 | The AUTH line is "AUTH EXTERNAL " + hex + CRLF. The hex part has two characters per decimal digit of the uid, and each pair is '3' then the digit. It hex-decodes back to the decimal text, and that text's value is the uid. |
| AuthHandshake.DigitsRoundTrip | dbus.go:80 | `%d` of a natural number is a non-empty string of digits with no leading zero, and its value is the number. |
| AuthHandshake.HexRoundTrip | dbus.go:80 | Hex-decoding undoes `%x` on any byte string. |
| AuthHandshake.MatchOk | dbus.go:85-88 | Matches exactly when the text starts with "OK " followed by a hex digit. The guid is then a non-empty run of hex digits right after "OK ", and it cannot be extended. |
| AuthHandshake.ReplyGuid | dbus.go:82-88 | An accepted reply's guid is a non-empty string of hex digits. |
| AuthHandshake.ReplyGuidSpec | dbus.go:82-88 | The reply is accepted iff it starts with "OK " and a hex digit. The guid is then the maximal run of hex digits after "OK ". The zero padding of the read buffer never changes the outcome. |
| AuthHandshake.HandshakeOutput | dbus.go:79-90 | What the handshake writes always starts with a NUL byte and the AUTH line. BEGIN follows, and nothing else, exactly when the reply is accepted. |
| Bus.Connection.Auth | dbus.go:78-95 | Writes a NUL byte and the AUTH line. On an accepted reply it stores the guid, writes BEGIN and returns no error. Otherwise it returns "Auth Failed", leaves the guid unchanged and writes nothing more. |
| Bus.Connection.Initialize | dbus.go:69-76 | Resets the registry and the buffer, runs the handshake (its error is discarded), then makes the Hello call. Returns no error. |
| Bus.Connection.PopMessage | dbus.go:137-144 | If the codec fails, returns no message and leaves the buffer unchanged. Otherwise returns the decoded message and removes exactly the consumed prefix. |
| FrameBuffer.PopStep | dbus.go:137-144 | A failed pop is the end of the drain. A successful pop removes at least one byte, and its message is the first message of the drain. |
| Bus.Connection.UpdateBuffer | dbus.go:146-152 | The buffer becomes the old buffer followed by the bytes read. |
| FrameBuffer.Drain | dbus.go:97-103 | The frames taken plus the bytes left are no more than the bytes in the buffer: each frame consumes at least one byte. |
| FrameBuffer.Feed | dbus.go:97-106 | The frames taken plus the bytes left are no more than the bytes in the buffer and in all the reads. |
| Bus.Connection.DrainBuffer | dbus.go:97-103 | Pops and dispatches, in buffer order, exactly the messages of `Drain` on the old buffer, and leaves a buffer the codec cannot decode. The registry and the delivery log are those of dispatching those messages in order. |
| Bus.Connection.PopAndDispatch | dbus.go:97-117 | One turn of the receive loop: a pop, then the dispatch of what was popped. A failed pop dispatches nothing. |
| Bus.Connection.ReadAndDrain | dbus.go:97-106 | Appends one read to the buffer, then drains. The messages taken plus what is still owed from the leftover equal the feed owed from the old buffer plus the read. |
| Bus.Connection.MessageReceiver | dbus.go:97-117 | Over a finite run of reads, the messages dispatched and the final buffer equal `Feed`. Every decodable frame is popped and handed to the dispatcher before the next read is appended. |
| FrameBuffer.DrainLeavesUndecodable | dbus.go:97-105 | The drain stops on a suffix of the buffer that does not decode, and takes no more frames than bytes it removed. |
| FrameBuffer.DrainAppend | dbus.go:97-105 | With a codec whose verdict on a complete frame does not change when more bytes follow, draining b + e gives the drain of b followed by the drain of its leftover + e. |
| FrameBuffer.FeedMatchesWhole | dbus.go:97-106 | With such a codec, the receiver gives the same frames, in the same order, and the same leftover however the byte stream is split into reads. |
| Bus.Connection.MessageDispatch | dbus.go:119-135 | The registry and the delivery log change exactly as `Dispatch` says. |
| ReplyRegistry.Dispatch | dbus.go:119-135 | Entries are only removed, never changed. A firing is of the entry under the reply's serial, for a METHOD_RETURN with a registered reply serial, with that reply; it removes exactly that entry. When nothing fires, the registry is unchanged. |
| ReplyRegistry.DispatchFiresOnce | dbus.go:125-130 | A METHOD_RETURN whose reply serial is registered fires that entry with the reply and removes it. Every other entry stays as it was. The same reply dispatched again does nothing. |
| ReplyRegistry.DispatchIgnores | dbus.go:119-134 | Nothing fires exactly when the message is nil or is not a METHOD_RETURN with a registered reply serial. In that case the registry is unchanged. |
| ReplyRegistry.DispatchAll | dbus.go:108-117 | Over messages dispatched in arrival order, entries are only removed, never changed, and there are no more firings than messages. |
| ReplyRegistry.DispatchAllAppend | dbus.go:108-117 | Dispatching two runs of messages one after the other is the same as dispatching their concatenation. |
| ReplyRegistry.DispatchAllAtMostOnce | dbus.go:119-135 | Over any run of messages with no new registrations: each callback fired is the one registered under its reply's serial, no serial fires twice, exactly the fired entries are removed, and all others are untouched. |
| ReplyRegistry.Register | dbus.go:155-160 | Sets the entry under the serial, replacing any earlier one. No other key is added, removed or changed. |
| Bus.Connection.RegisterAndWrite | dbus.go:154-163 | Registers the callback under the message's serial and writes the marshalled message. |
| Bus.Connection.SendSync | dbus.go:154-166 | After the matching reply is dispatched: the message was written, its callback fired once with that reply, and its entry is removed. |
| Bus.Connection.SendHello | dbus.go:168-177 | Sends the Hello header to the bus and fires the Hello callback on its reply. |
| ObjectModel.HelloCall | dbus.go:169-174 | Hello is a method call with the given serial and no parameters, to org.freedesktop.DBus at /org/freedesktop/DBus on the org.freedesktop.DBus interface. |
| ObjectModel.IntrospectCall | dbus.go:180-185 | Introspect is a method call with the given serial and no parameters, to the given destination and path on the Introspectable interface. |
| Bus.Connection.GetIntrospect | dbus.go:179-198 | Sends the Introspect header. The result is `IntrospectOf` the reply. |
| ObjectModel.IntrospectCallbackAsWritten | dbus.go:189-195 | The callback as written panics exactly when the reply has no parameters. When it stores an introspection, the first parameter is a string and the introspection is its parse. |
| ObjectModel.IntrospectOf | dbus.go:187-197 | The cached introspection is set exactly when the reply's first parameter is a string that parses, and it is then that parse. |
| ObjectModel.IntrospectOfSpec | dbus.go:187-197 | Wherever the callback as written does not panic, it gives `IntrospectOf`. |
| ObjectModel.EmptyIntrospectReplyPanics | dbus.go:190 | The callback as written panics on a METHOD_RETURN with no parameters. |
| Bus.Connection.GetObject | dbus.go:249-257 | The object has the given destination and path, and the introspection of the reply. |
| ObjectModel.InterfaceOf | dbus.go:200-218 | Interface is nil exactly when the object is nil, its introspection is nil, or the introspection lacks the interface. Otherwise it is that object, that name and that interface's data. |
| ObjectModel.InterfaceOfFetchedObject | dbus.go:200-218 | For an object from GetObject, Interface is non-nil exactly when the reply's first parameter was a string that parsed and names the interface. |
| ObjectModel.Present | dbus.go:229-235 | There are no more kept arguments than arguments, and each kept one was passed as a non-nil argument. |
| ObjectModel.CollectParams | dbus.go:229-235 | The loop pushes exactly the non-nil arguments, in their order. |
| ObjectModel.PresentAppend | dbus.go:229-235 | Dropping nils commutes with concatenation, so order is kept. |
| ObjectModel.PresentMembers | dbus.go:229-235 | A value is pushed iff it was passed as a non-nil argument. |
| ObjectModel.BuildCall | dbus.go:220-242 | An unknown method gives "Invalid Method". A known one gives a method call to the object's path and destination, on the interface's name and member, with the method's input signature and the non-nil arguments in order. |
| Bus.Connection.CallMethod | dbus.go:220-247 | An unknown method returns "Invalid Method" and writes, registers and fires nothing. A known one writes the `BuildCall` message and fires its callback on the reply. |
| Bus.Connection.constructor | dbus.go:13-20 | A connection with the given address, socket and collaborators. Every other field is empty. |
| Bus.NewSessionBus | dbus.go:34-54 | When the address does not match, returns the address error without dialling. When dialling fails, returns the dial error. Otherwise returns a new connection to `SessionSocket(address)` with the given collaborators and every other field empty. |
| Bus.NewSystemBus | dbus.go:56-67 | Returns the dial error, or a new connection to the fixed system bus socket with the given collaborators and every other field empty. |

## Left out

- Socket I/O is not modelled. Each read is a parameter (`got` for the handshake, one chunk per `_UpdateBuffer`), and writes are appended to `written`. Address resolution and dialling are reduced to a `dialError` parameter.
- The environment is not read. The session address and the uid are parameters, not `os.Getenv` and `os.Getuid`.
- Goroutines and channels are not modelled. The model runs `_RunLoop`'s dispatch of each message right after the pop that produced it, before the next pop. This is one interleaving the source allows, not the only one: the unbuffered channel makes `_MessageReceiver` wait until `_RunLoop` takes the message, but not until its dispatch has finished. The data race between the receive goroutine and the callers on the reply map is not modelled.
- Bus.Connection.SendSync: the blocking wait on `recvChan` is modelled as the dispatch of the matching reply, given as a parameter. Other traffic that arrives during the wait is not modelled.
- Bus.Connection.Initialize: the receive loop it starts is `MessageReceiver`, and it is not run concurrently here. The Hello reply is dispatched directly.
- Bus.Connection.MessageReceiver: the source loops forever. The model covers a finite run of reads.
- Bus.Connection.DrainBuffer: it requires that a decoded frame consume at least one byte and no more than the buffer holds (`Progressing`). The codec is not part of this model, and without this the source's loop need not end.
- FrameBuffer.FeedMatchesWhole: it holds only for a codec whose verdict on a complete frame does not change when more bytes follow (`Stable`). This cannot be checked without the codec.
- Bus.Connection.UpdateBuffer: the read error it returns is not modelled. The receive loop ignores it.
- Bus.Connection.Auth: the reply is one read into a zeroed 1000-byte buffer, and each byte becomes the character with the same code. Go turns bytes at or above 0x80 into UTF-8 runes instead. This cannot change whether the reply matches or the ASCII guid that is extracted. The read error is ignored, as in the source.
- The codec (`_Marshal`, `_Unmarshal`), `NewIntrospect`, `NewMessage` and the method-metadata accessors are not in `dbus.go`. The codec and parser are function parameters. Introspection data is a pair of maps.
- Serial uniqueness is not claimed. `NewMessage` assigns serials, and it is not visible. Each message's serial is a parameter, and registering a serial again replaces the earlier callback, as the source's map assignment does.
- `reflect.NewValue(args)` is not modelled. The arguments are given as `seq<Option<Value>>`, with None for a nil argument. `Value` has only string, integer and boolean cases.
- The diagnostics printed for ERROR messages and by the Hello and method callbacks are not modelled. The callbacks are identified by what they close over (`Callback`), and each firing is logged in the ghost `delivered` field.
- `Connection.uniqName` is declared by the source but never assigned. The model keeps it empty, so the name the bus returns to Hello is not stored.
- SessionAddress.SessionSocketSpec: it assumes that `.` in the address pattern does not match a line feed, as in Go 1's `regexp`. The source was written against the older `regexp` package, whose `.` may match a line feed. On `"unix:abstract=/a\n,guid=b"` that package would match where the model reports no match. On `"unix:abstract=/a,guid=b\n,guid=c"` its first group would run to the last ",guid=" where the model's stops before the line feed.
- Bus.Connection.GetIntrospect: the result follows `IntrospectOf`, which gives nil for a reply with no parameters. The source's callback panics there in the dispatcher goroutine (dbus.go:190). `IntrospectCallbackAsWritten` models that panic, and the entry under Findings records it.
- Bus.Connection.GetObject: it takes its introspection from `GetIntrospect`, so it also follows `IntrospectOf` where the source panics on a reply with no parameters.
- Calls made before `Initialize` are not modelled. In the source they panic, because the reply map and the buffer are still nil (dbus.go:138, dbus.go:157). The model's connection starts with an empty map and an empty buffer.
- The second regexp group (the guid of the address) is not used by the source and is not modelled.

## Findings

| source | as written | input that shows it | evidently intended | confidence | as-written member | corrected member |
|---|---|---|---|---|---|---|
| dbus.go:190 | `_GetIntrospect`'s callback calls `reply.Params.At(0)` before checking that the reply has parameters. | A METHOD_RETURN to the Introspect call with an empty body. Indexing the empty parameter vector panics in the dispatcher goroutine. | No introspection (nil) for a reply without a string first parameter, as for a non-string one. | not executed; medium (it depends on `At` panicking on an empty vector) | ObjectModel.EmptyIntrospectReplyPanics | ObjectModel.IntrospectOf |
