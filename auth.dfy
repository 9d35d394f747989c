// The authentication handshake of _Auth: the EXTERNAL mechanism of the
// D-Bus authentication protocol (SASL EXTERNAL, RFC 4422 Appendix A), with
// the authorization identity the decimal user id, hex-encoded.
module AuthHandshake {
  import opened Protocol

  const Mechanism := "AUTH EXTERNAL "
  const LineEndCrLf := "\r\n"
  const Begin := "BEGIN\r\n"
  const OkPrefix := "OK "
  const AuthFailed := "Auth Failed"

  /** _Auth reads the reply once into a zeroed buffer of this many bytes. */
  const ReplyBufferSize := 1000

  predicate IsDigit(c: char) {
    '0' <= c <= '9'
  }

  predicate AllDigits(s: string) {
    forall i :: 0 <= i < |s| ==> IsDigit(s[i])
  }

  function DigitChar(d: nat): (c: char)
    requires d < 10
  {
    ('0' as int + d) as char
  }

  /** fmt's %d of a non-negative number. */
  function Digits(n: nat): string
    decreases n
  {
    if n < 10 then [DigitChar(n)] else Digits(n / 10) + [DigitChar(n % 10)]
  }

  /** fmt's %d of an int, as os.Getuid() is formatted. */
  function Decimal(n: int): string {
    if n < 0 then "-" + Digits(-n) else Digits(n)
  }

  /** The number a string of decimal digits denotes. */
  function DigitsValue(s: string): nat
    requires AllDigits(s)
    decreases |s|
  {
    if s == [] then 0
    else DigitsValue(s[..|s| - 1]) * 10 + (s[|s| - 1] as int - '0' as int)
  }

  /** %d prints digits only, with no leading zero, and they denote n. */
  lemma {:induction false} DigitsRoundTrip(n: nat)
    ensures |Digits(n)| > 0 && AllDigits(Digits(n))
    ensures DigitsValue(Digits(n)) == n
    ensures Digits(n)[0] == '0' ==> n == 0
  {
    if n >= 10 {
      DigitsRoundTrip(n / 10);
      var s := Digits(n);
      assert s[..|s| - 1] == Digits(n / 10);
    }
  }

  /** The lower-case hex digit of 0 <= k < 16, as fmt's %x writes it. */
  function HexDigit(k: int): char
    requires 0 <= k < 16
  {
    if k < 10 then ('0' as int + k) as char else ('a' as int + k - 10) as char
  }

  /** A digit of the class [0-9a-fA-F] and its value. */
  function HexDigitValue(c: char): (r: Option<nat>)
    ensures r.Some? ==> r.value < 16
  {
    if '0' <= c <= '9' then Some(c as int - '0' as int)
    else if 'a' <= c <= 'f' then Some(c as int - 'a' as int + 10)
    else if 'A' <= c <= 'F' then Some(c as int - 'A' as int + 10)
    else None
  }

  predicate IsHexDigit(c: char) {
    HexDigitValue(c).Some?
  }

  /** fmt's %x of a string: two lower-case hex digits per byte. */
  function HexEncode(b: seq<byte>): (h: string)
    ensures |h| == 2 * |b|
  {
    if b == [] then ""
    else [HexDigit(b[0] as int / 16), HexDigit(b[0] as int % 16)] + HexEncode(b[1..])
  }

  /** The inverse of %x: a string of hex digit pairs back to its bytes. */
  function HexDecode(h: string): Option<seq<byte>>
    decreases |h|
  {
    if h == [] then Some([])
    else if |h| == 1 then None
    else
      match (HexDigitValue(h[0]), HexDigitValue(h[1]), HexDecode(h[2..]))
      case (Some(hi), Some(lo), Some(rest)) => Some([(hi * 16 + lo) as byte] + rest)
      case _ => None
  }

  /** %x writes each byte as the pair of its high and low hex digit. */
  lemma {:induction false} HexEncodeAt(b: seq<byte>)
    ensures |HexEncode(b)| == 2 * |b|
    ensures forall i :: 0 <= i < |b| ==>
      HexEncode(b)[2 * i] == HexDigit(b[i] as int / 16) &&
      HexEncode(b)[2 * i + 1] == HexDigit(b[i] as int % 16)
  {
    if b != [] {
      HexEncodeAt(b[1..]);
      var h := HexEncode(b);
      forall i | 1 <= i < |b|
        ensures h[2 * i] == HexDigit(b[i] as int / 16) && h[2 * i + 1] == HexDigit(b[i] as int % 16)
      {
        assert h[2 * i] == HexEncode(b[1..])[2 * (i - 1)];
        assert h[2 * i + 1] == HexEncode(b[1..])[2 * (i - 1) + 1];
      }
    }
  }

  /** Reading a hex digit back gives the value it was written for. */
  lemma HexDigitInverse(k: int)
    requires 0 <= k < 16
    ensures HexDigitValue(HexDigit(k)) == Some(k)
  {
  }

  /** Hex-decoding undoes %x. */
  lemma {:induction false} HexRoundTrip(b: seq<byte>)
    ensures HexDecode(HexEncode(b)) == Some(b)
  {
    if b != [] {
      HexRoundTrip(b[1..]);
      var x := b[0] as int;
      HexDigitInverse(x / 16);
      HexDigitInverse(x % 16);
      var h := HexEncode(b);
      assert h[2..] == HexEncode(b[1..]);
      assert ((x / 16) * 16 + x % 16) as byte == b[0];
      assert [b[0]] + b[1..] == b;
    }
  }

  /** The second handshake line: AUTH EXTERNAL, the hex of the decimal uid, CRLF. */
  function AuthLine(uid: int): (line: string)
    ensures |line| == |Mechanism| + 2 * |Decimal(uid)| + |LineEndCrLf|
    ensures line[..|Mechanism|] == Mechanism
    ensures line[|line| - |LineEndCrLf|..] == LineEndCrLf
  {
    Mechanism + HexEncode(Bytes(Decimal(uid))) + LineEndCrLf
  }

  /** The decimal digits of a uid are ASCII, so their bytes are their codes. */
  lemma DigitBytes(s: string)
    requires AllDigits(s)
    ensures forall i :: 0 <= i < |s| ==> Bytes(s)[i] as int == s[i] as int
    ensures Text(Bytes(s)) == s
  {
  }

  /** The hex of a string of decimal digits: '3' and the digit, per digit. */
  lemma HexOfDigits(d: string)
    requires AllDigits(d)
    ensures var h := HexEncode(Bytes(d));
      && |h| == 2 * |d|
      && (forall i :: 0 <= i < |d| ==> h[2 * i] == '3' && h[2 * i + 1] == d[i])
      && HexDecode(h) == Some(Bytes(d))
  {
    DigitBytes(d);
    var b := Bytes(d);
    var h := HexEncode(b);
    HexEncodeAt(b);
    HexRoundTrip(b);
    forall i | 0 <= i < |d|
      ensures h[2 * i] == '3' && h[2 * i + 1] == d[i]
    {
      var x := b[i] as int;
      assert 48 <= x <= 57;
      assert x / 16 == 3 && x % 16 == x - 48;
    }
  }

  /** For a user id (never negative on Unix) the hex part of the AUTH line
      has two characters per decimal digit, each pair is '3' and the digit,
      and hex-decoding it gives back the decimal text, whose value is uid. */
  lemma AuthLineSpec(uid: nat)
    ensures var d := Decimal(uid); var h := HexEncode(Bytes(d));
      && AuthLine(uid) == Mechanism + h + LineEndCrLf
      && |h| == 2 * |d|
      && (forall i :: 0 <= i < |d| ==> h[2 * i] == '3' && h[2 * i + 1] == d[i])
      && HexDecode(h).Some? && Text(HexDecode(h).value) == d
      && AllDigits(d) && DigitsValue(d) == uid
  {
    var d := Decimal(uid);
    assert d == Digits(uid);
    DigitsRoundTrip(uid);
    DigitBytes(d);
    HexOfDigits(d);
  }

  /** Length of the run of hex digits at the start of s. */
  function HexRun(s: string): (n: nat)
    ensures n <= |s|
  {
    if s != [] && IsHexDigit(s[0]) then 1 + HexRun(s[1..]) else 0
  }

  /** The run is maximal: all hex digits, and no hex digit right after it. */
  lemma {:induction false} HexRunMaximal(s: string)
    ensures forall i :: 0 <= i < HexRun(s) ==> IsHexDigit(s[i])
    ensures HexRun(s) < |s| ==> !IsHexDigit(s[HexRun(s)])
  {
    if s != [] && IsHexDigit(s[0]) {
      HexRunMaximal(s[1..]);
    }
  }

  /** A run of hex digits stops where the text does, when what follows is not a hex digit. */
  lemma {:induction false} HexRunStops(s: string, tail: string)
    requires tail == [] || !IsHexDigit(tail[0])
    ensures HexRun(s + tail) == HexRun(s)
  {
    if s != [] {
      assert (s + tail)[1..] == s[1..] + tail;
      HexRunStops(s[1..], tail);
    }
  }

  /** The string _Auth matches: its one read, then the zeros left in its buffer. */
  function ReplyText(got: seq<byte>): string
    requires |got| <= ReplyBufferSize
  {
    Text(got) + seq(ReplyBufferSize - |got|, _ => '\0')
  }

  /** The first group of ^OK ([0-9a-fA-F]+) in text, if the pattern matches:
      it matches iff "OK " and a hex digit start the text, and the group is
      then the longest run of hex digits after "OK ". */
  function MatchOk(text: string): (g: Option<string>)
    ensures g.Some? <==> |text| > |OkPrefix| && OkPrefix <= text && IsHexDigit(text[|OkPrefix|])
    ensures g.Some? ==>
      && |g.value| > 0 && OkPrefix + g.value <= text
      && (forall i :: 0 <= i < |g.value| ==> IsHexDigit(g.value[i]))
      && (|text| == |OkPrefix| + |g.value| || !IsHexDigit(text[|OkPrefix| + |g.value|]))
  {
    if OkPrefix <= text && HexRun(text[|OkPrefix|..]) > 0 then
      var after := text[|OkPrefix|..];
      var n := HexRun(after);
      HexRunMaximal(after);
      assert text[..|OkPrefix| + n] == OkPrefix + after[..n];
      Some(after[..n])
    else
      assert |text| > |OkPrefix| && OkPrefix <= text ==> text[|OkPrefix|..][0] == text[|OkPrefix|];
      None
  }

  /** The guid _Auth accepts from the bytes its read returned, if any: a
      non-empty string of hex digits. */
  function ReplyGuid(got: seq<byte>): (g: Option<string>)
    requires |got| <= ReplyBufferSize
    ensures g.Some? ==> |g.value| > 0 && forall i :: 0 <= i < |g.value| ==> IsHexDigit(g.value[i])
  {
    MatchOk(ReplyText(got))
  }

  /** The reply is accepted iff it starts with "OK " and a hex digit; the
      guid is then the maximal run of hex digits after "OK ". The zero
      padding of the read buffer never changes the outcome. */
  lemma ReplyGuidSpec(got: seq<byte>)
    requires |got| <= ReplyBufferSize
    ensures var t := Text(got);
      ReplyGuid(got).Some? <==> |t| > |OkPrefix| && OkPrefix <= t && IsHexDigit(t[|OkPrefix|])
    ensures var t := Text(got);
      ReplyGuid(got).Some? ==>
        var g := ReplyGuid(got).value;
        && |g| > 0 && OkPrefix + g <= t
        && (forall i :: 0 <= i < |g| ==> IsHexDigit(g[i]))
        && (|t| == |OkPrefix| + |g| || !IsHexDigit(t[|OkPrefix| + |g|]))
  {
    var t := Text(got);
    var text := ReplyText(got);
    assert |text| == ReplyBufferSize && text[..|t|] == t;
    assert forall k :: |t| <= k < |text| ==> !IsHexDigit(text[k]);
    if |t| >= |OkPrefix| {
      assert text[..|OkPrefix|] == t[..|OkPrefix|];
    }
    var r := ReplyGuid(got);
    if r.Some? {
      var g := r.value;
      var last := |OkPrefix| + |g| - 1;
      assert text[last] == (OkPrefix + g)[last] == g[|g| - 1];
      assert IsHexDigit(text[last]);
      assert t[..|OkPrefix| + |g|] == text[..|OkPrefix| + |g|];
    } else if |t| > |OkPrefix| && OkPrefix <= t {
      assert text[|OkPrefix|] == t[|OkPrefix|];
    }
  }

  /** Everything _Auth writes: a NUL byte and the AUTH line, then BEGIN
      and nothing else exactly when the reply is accepted. */
  function HandshakeOutput(uid: int, got: seq<byte>): (out: seq<byte>)
    requires |got| <= ReplyBufferSize
    ensures var greeting := Bytes("\0") + Bytes(AuthLine(uid));
      && |greeting| <= |out| && out[..|greeting|] == greeting
      && (ReplyGuid(got).Some? <==> |out| > |greeting|)
      && (ReplyGuid(got).Some? ==> out[|greeting|..] == Bytes(Begin))
  {
    var greeting := Bytes("\0") + Bytes(AuthLine(uid));
    if ReplyGuid(got).Some? then
      assert (greeting + Bytes(Begin))[..|greeting|] == greeting;
      greeting + Bytes(Begin)
    else
      assert greeting[..|greeting|] == greeting;
      greeting
  }
}
