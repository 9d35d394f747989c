// Values shared by every part of the bus client: bytes, serial numbers,
// optional results and the protocol message.
module Protocol {

  newtype byte = x: int | 0 <= x < 256

  newtype uint32 = x: int | 0 <= x < 0x1_0000_0000

  /** A Go nil reference or nil interface is None. */
  datatype Option<T> = None | Some(value: T)

  /** A value, or the text of the os.Error returned instead. */
  datatype Result<T> = Ok(value: T) | Err(error: string)

  datatype MessageType = MethodCall | MethodReturn | Error | Signal

  /** A body parameter. Only the distinction string / not a string matters to the client. */
  datatype Value = StringValue(text: string) | IntValue(n: int) | BoolValue(b: bool)

  /** A message with its header fields, serial numbers and ordered parameters. */
  datatype Message = Message(
    kind: MessageType,
    path: string,
    intf: string,
    dest: string,
    member: string,
    sig: string,
    serial: uint32,
    replySerial: uint32,
    params: seq<Value>)

  /** A new message carrying `serial` and empty header fields; the header
      defaults of the codec's NewMessage are not part of this model. */
  function NewMessage(serial: uint32): Message {
    Message(MethodCall, "", "", "", "", "", serial, 0, [])
  }

  function Min(a: int, b: int): int {
    if a <= b then a else b
  }

  /** The bytes written for a handshake string; every such string is ASCII. */
  function Bytes(s: string): (b: seq<byte>)
    ensures |b| == |s|
  {
    seq(|s|, i requires 0 <= i < |s| => (s[i] as int % 256) as byte)
  }

  /** Go's string(b): one character per byte. */
  function Text(b: seq<byte>): (s: string)
    ensures |s| == |b|
  {
    seq(|b|, i requires 0 <= i < |b| => b[i] as int as char)
  }
}
