// The transport resolver: which abstract Unix socket a session bus
// address names (NewSessionBus), and the fixed system bus socket.
module SessionAddress {
  import opened Protocol

  const Scheme := "unix:abstract="
  const GuidKey := ",guid="
  const SessionBusFailed := "NewSessionBus Failed"

  /** NewSystemBus records this address and dials the socket below. */
  const SystemBusAddress := "unix:path=/var/run/dbus/system_bus_socket"
  const SystemBusSocket := "/var/run/dbus/system_bus_socket"

  /** The pattern ^unix:abstract=(.*),guid=(.*) matches `address` with `p` as
      its first group. A Go regexp `.` matches any character but a line feed,
      and nothing anchors the end of the pattern. */
  predicate MatchesWith(address: string, p: string) {
    Scheme + p + GuidKey <= address && '\n' !in p
  }

  /** ",guid=" starts at index j of s. */
  predicate GuidAt(s: string, j: nat) {
    j + |GuidKey| <= |s| && s[j..j + |GuidKey|] == GuidKey
  }

  /** Index of the first line feed of s, or |s| when there is none. */
  function LineEnd(s: string): (e: nat)
    ensures e <= |s| && '\n' !in s[..e]
    ensures e < |s| ==> s[e] == '\n'
  {
    if s == [] || s[0] == '\n' then 0
    else
      var e' := LineEnd(s[1..]);
      assert s[..1 + e'] == [s[0]] + s[1..][..e'];
      1 + e'
  }

  /** The greatest j <= i at which ",guid=" starts in s. */
  function LastGuidUpTo(s: string, i: nat): (r: Option<nat>)
    requires i <= |s|
    ensures r.Some? ==> r.value <= i && GuidAt(s, r.value)
    ensures r.Some? ==> forall j: nat :: r.value < j <= i ==> !GuidAt(s, j)
    ensures r.None? ==> forall j: nat :: j <= i ==> !GuidAt(s, j)
    decreases i
  {
    if GuidAt(s, i) then Some(i)
    else if i == 0 then None
    else LastGuidUpTo(s, i - 1)
  }

  /** The first group of the match, as the greedy `.*` leaves it: whatever
      it returns is a first group the pattern matches with. */
  function SessionPath(address: string): (p: Option<string>)
    ensures p.Some? ==> MatchesWith(address, p.value)
  {
    if Scheme <= address then
      var rest := address[|Scheme|..];
      match LastGuidUpTo(rest, LineEnd(rest))
      case Some(j) =>
        CutIsMatch(address, rest[..j]);
        Some(rest[..j])
      case None => None
    else None
  }

  /** NewSessionBus (dbus.go): the abstract socket name "\0" + path it
      dials, or the error it returns without dialling. */
  function SessionSocket(address: string): (r: Result<string>)
    ensures r.Ok? ==> |r.value| > 0 && r.value[0] == '\0' && MatchesWith(address, r.value[1..])
    ensures r.Err? ==> r.error == SessionBusFailed
  {
    match SessionPath(address)
    case Some(p) =>
      assert ("\0" + p)[1..] == p;
      Ok("\0" + p)
    case None => Err(SessionBusFailed)
  }

  /** Once the scheme is there, a match is a cut of the rest before the
      first line feed at which ",guid=" starts. */
  lemma MatchAsCut(address: string, q: string)
    requires Scheme <= address
    ensures var rest := address[|Scheme|..];
      MatchesWith(address, q) <==>
        |q| <= LineEnd(rest) && GuidAt(rest, |q|) && q == rest[..|q|]
  {
    if MatchesWith(address, q) {
      MatchIsCut(address, q);
    }
    var rest := address[|Scheme|..];
    if |q| <= LineEnd(rest) && GuidAt(rest, |q|) && q == rest[..|q|] {
      CutIsMatch(address, q);
    }
  }

  lemma MatchIsCut(address: string, q: string)
    requires MatchesWith(address, q)
    ensures var rest := address[|Scheme|..];
      |q| <= LineEnd(rest) && GuidAt(rest, |q|) && q == rest[..|q|]
  {
    var rest := address[|Scheme|..];
    var m := |Scheme| + |q|;
    var w := Scheme + q + GuidKey;
    assert address[..|w|] == w;
    assert rest[..|q|] == w[|Scheme|..m] == q;
    assert rest[|q|..|q| + |GuidKey|] == w[m..] == GuidKey;
  }

  lemma CutIsMatch(address: string, q: string)
    requires Scheme <= address
    requires var rest := address[|Scheme|..];
      |q| <= LineEnd(rest) && GuidAt(rest, |q|) && q == rest[..|q|]
    ensures MatchesWith(address, q)
  {
    var rest := address[|Scheme|..];
    assert '\n' !in q by {
      assert q == rest[..LineEnd(rest)][..|q|];
    }
    var w := Scheme + q + GuidKey;
    assert address[..|w|] == w by {
      assert address == Scheme + rest;
      assert rest[..|q| + |GuidKey|] == q + GuidKey by {
        assert rest[..|q| + |GuidKey|] == rest[..|q|] + rest[|q|..|q| + |GuidKey|];
      }
    }
  }

  /** Address parsing in both directions: an address that matches yields
      "\0" + P where P is the longest first group of any match (the last
      ",guid=" before a line feed); one that does not gives the error. */
  lemma SessionSocketSpec(address: string)
    ensures match SessionSocket(address)
      case Ok(name) =>
        |name| > 0 && name[0] == '\0' && MatchesWith(address, name[1..])
        && forall q :: MatchesWith(address, q) ==> |q| <= |name| - 1
      case Err(e) =>
        e == SessionBusFailed && forall q :: !MatchesWith(address, q)
  {
    if Scheme <= address {
      var rest := address[|Scheme|..];
      var r := LastGuidUpTo(rest, LineEnd(rest));
      forall q | MatchesWith(address, q)
        ensures r.Some? && |q| <= r.value
      {
        MatchAsCut(address, q);
      }
      if r.Some? {
        var p := rest[..r.value];
        MatchAsCut(address, p);
        assert ("\0" + p)[1..] == p;
      }
    }
  }
}
