/** The SOCKS5 client: addresses, the pipelined request and its reply (RFC 1928 and RFC 1929), and UDP
    datagrams. */
module Socks5 {
  import opened Bytes
  import opened Streams

  const IPV4: byte := 1
  const DOMAIN_NAME: byte := 3
  const IPV6: byte := 4
  const NO_AUTH: byte := 0
  const USER_PASS: byte := 2
  const UDP_BUFFER_SIZE := 0x4000

  // Addresses (section 5 of RFC 1928).

  /** A destination once host and port are parsed: 16 bytes of an IP address, or a name. */
  datatype Host = IpHost(b: seq<byte>) | NameHost(name: seq<byte>) {
    ghost predicate Valid() {
      IpHost? ==> |b| == 16
    }
  }

  datatype Address = Ip4(b: seq<byte>, port: nat) | Ip6(b: seq<byte>, port: nat) | Name(name: seq<byte>, port: nat) {
    ghost predicate Valid() {
      && port < 0x1_0000
      && (Ip4? ==> |b| == 4) && (Ip6? ==> |b| == 16) && (Name? ==> |name| <= 255)
    }
  }

  /** net.IP.To4 finds an IPv4 address. */
  predicate IsMapped(b: seq<byte>)
    requires |b| == 16
  {
    b[..12] == [0, 0, 0, 0, 0, 0, 0, 0, 0, 0, 255, 255]
  }

  /** What the other side is told: IPv4 addresses in four bytes. */
  function Normalised(host: Host, port: nat): Address
    requires host.Valid()
  {
    match host
    case IpHost(b) => if IsMapped(b) then Ip4(b[12..], port) else Ip6(b, port)
    case NameHost(name) => Name(name, port)
  }

  /** An address on the wire. */
  function Encoded(a: Address): seq<byte>
    requires a.Valid()
  {
    match a
    case Ip4(b, port) => [IPV4] + b + BigEndian16(port)
    case Ip6(b, port) => [IPV6] + b + BigEndian16(port)
    case Name(name, port) => [DOMAIN_NAME, |name|] + name + BigEndian16(port)
  }

  /** In bytes: the type, the address or the name with its length, and the port, high byte first. */
  lemma EncodedBytes(a: Address)
    requires a.Valid()
    ensures Encoded(a) == match a
                          case Ip4(b, port) => [1] + b + [port / 256, port % 256]
                          case Ip6(b, port) => [4] + b + [port / 256, port % 256]
                          case Name(name, port) => [3, |name|] + name + [port / 256, port % 256]
  {}

  /** An IP address is sent in four bytes exactly if it is an IPv4 one: ten zeros, twice 255, and those
      four. */
  lemma NormalisedBytes(b: seq<byte>, port: nat)
    requires |b| == 16
    ensures (exists w, x, y, z :: b == [0, 0, 0, 0, 0, 0, 0, 0, 0, 0, 255, 255, w, x, y, z]) ==>
              Normalised(IpHost(b), port) == Ip4([b[12], b[13], b[14], b[15]], port)
    ensures !(exists w, x, y, z :: b == [0, 0, 0, 0, 0, 0, 0, 0, 0, 0, 255, 255, w, x, y, z]) ==>
              Normalised(IpHost(b), port) == Ip6(b, port)
  {
    if IsMapped(b) {
      assert b == b[..12] + b[12..];
      assert b == [0, 0, 0, 0, 0, 0, 0, 0, 0, 0, 255, 255, b[12], b[13], b[14], b[15]];
    }
  }

  /** `appendSOCKS5Address` on a parsed host and port: fails only for a name that is too long. */
  method AppendAddress(b: seq<byte>, host: Host, port: nat) returns (r: Option<seq<byte>>)
    requires host.Valid() && port < 0x1_0000
    ensures r.Some? <==> Normalised(host, port).Valid()
    ensures r.Some? ==> r.value == b + Encoded(Normalised(host, port))
  {
    var out := b;
    match host {
      case IpHost(ip) =>
        if IsMapped(ip) {
          out := out + [IPV4];
          out := out + ip[12..];
        } else {
          out := out + [IPV6];
          out := out + ip;
        }
      case NameHost(name) =>
        if |name| > 255 {
          return None;
        }
        out := out + [DOMAIN_NAME];
        out := out + [|name|];
        out := out + name;
    }
    out := out + BigEndian16(port);
    assert out == b + Encoded(Normalised(host, port));
    r := Some(out);
  }

  datatype Parsed = Parsed(address: Address, used: nat)

  /** An address whose `len` bytes start at `start`, and the port behind them. */
  function ParseBody(x: seq<byte>, kind: byte, start: nat, len: nat): (r: Option<Parsed>)
    ensures r.Some? ==> r.value.used == start + len + 2 <= |x|
  {
    if |x| < start + len + 2 then None
    else
      var body, port := x[start..start + len], Uint16(x[start + len..start + len + 2]);
      var a := if kind == IPV4 then Ip4(body, port) else if kind == IPV6 then Ip6(body, port) else Name(body, port);
      Some(Parsed(a, start + len + 2))
  }

  /** The address at the front of x. A stall is a single-byte read that returned nothing and no error:
      the type then stays 0, and the length stays what the type was. */
  function ParseAddr(x: seq<byte>, typeStalls: bool, lengthStalls: bool): (r: Option<Parsed>)
    ensures r.Some? ==> r.value.used <= |x|
  {
    if typeStalls || |x| == 0 then None
    else if x[0] == IPV4 then ParseBody(x, IPV4, 1, 4)
    else if x[0] == IPV6 then ParseBody(x, IPV6, 1, 16)
    else if x[0] != DOMAIN_NAME then None
    else if lengthStalls then ParseBody(x, DOMAIN_NAME, 1, DOMAIN_NAME as int)
    else if |x| < 2 then None
    else ParseBody(x, DOMAIN_NAME, 2, x[1] as int)
  }

  /** The bytes of an address mean what they say: types 1 and 4 bring 4 and 16 bytes of address, type 3 a
      name behind its length, and two bytes of port follow; anything else means nothing. */
  lemma AddressMeaning(x: seq<byte>)
    ensures var r := ParseAddr(x, false, false);
            if |x| >= 7 && x[0] == 1 then
              r == Some(Parsed(Ip4(x[1..5], 256 * (x[5] as int) + x[6]), 7))
            else if |x| >= 19 && x[0] == 4 then
              r == Some(Parsed(Ip6(x[1..17], 256 * (x[17] as int) + x[18]), 19))
            else if |x| >= 2 && |x| >= 4 + (x[1] as int) && x[0] == 3 then
              var end := 2 + (x[1] as int);
              r == Some(Parsed(Name(x[2..end], 256 * (x[end] as int) + x[end + 1]), end + 2))
            else r == None
  {
    if |x| >= 2 && |x| >= 4 + (x[1] as int) && x[0] == 3 {
      var end := 2 + (x[1] as int);
      assert x[end..end + 2] == [x[end], x[end + 1]];
    }
  }

  lemma BodyIsRead(x: seq<byte>, kind: byte, start: nat, head: seq<byte>, body: seq<byte>, port: seq<byte>, rest: seq<byte>)
    requires |head| == start && |port| == 2 && x == head + body + port + rest
    ensures ParseBody(x, kind, start, |body|).Some?
    ensures var a := if kind == IPV4 then Ip4(body, Uint16(port)) else if kind == IPV6 then Ip6(body, Uint16(port))
                     else Name(body, Uint16(port));
            ParseBody(x, kind, start, |body|) == Some(Parsed(a, start + |body| + 2))
    ensures Leaves(x, start + |body| + 2, rest)
  {
    assert x[start..start + |body|] == body;
    assert x[start + |body|..start + |body| + 2] == port;
    assert x[..start + |body| + 2] == head + body + port;
  }

  /** An address that was written is read back, and the rest of the input is left alone. */
  lemma AddressRoundTrip(a: Address, rest: seq<byte>)
    requires a.Valid()
    ensures ParseAddr(Encoded(a) + rest, false, false) == Some(Parsed(a, |Encoded(a)|))
  {
    var x, port := Encoded(a) + rest, BigEndian16(a.port);
    Uint16RoundTrip(a.port);
    match a
    case Ip4(b, _) => BodyIsRead(x, IPV4, 1, [IPV4], b, port, rest);
    case Ip6(b, _) => BodyIsRead(x, IPV6, 1, [IPV6], b, port, rest);
    case Name(name, _) => BodyIsRead(x, DOMAIN_NAME, 2, [DOMAIN_NAME, |name|], name, port, rest);
  }

  /** And what is read is what those bytes encode. */
  lemma ParsedIsEncoded(x: seq<byte>)
    requires ParseAddr(x, false, false).Some?
    ensures var p := ParseAddr(x, false, false).value; p.address.Valid() && Encoded(p.address) == x[..p.used]
  {
    var p := ParseAddr(x, false, false).value;
    BigEndian16OfUint16(x[p.used - 2..p.used]);
  }

  /** A stall never goes unnoticed in the result: with one, the address that was written, and where it
      ends, is not what is read. */
  lemma StallsMisread(a: Address, rest: seq<byte>, typeStalls: bool, lengthStalls: bool)
    requires a.Valid() && (typeStalls || lengthStalls)
    ensures ParseAddr(Encoded(a) + rest, typeStalls, lengthStalls) == Some(Parsed(a, |Encoded(a)|))
       <==> !typeStalls && !a.Name?
  {
    AddressRoundTrip(a, rest);
  }

  /** r.Read with a one-byte buffer that holds `previous`; only the error is looked at. */
  method ReadOne(r: Source, previous: byte) returns (b: byte, ok: bool, ghost stalled: bool)
    modifies r
    ensures r.patience <= old(r.patience) && (stalled ==> r.patience < old(r.patience) && ok)
    ensures ok ==> if stalled then b == previous && r.rest == old(r.rest) else old(r.rest) == [b] + r.rest
    ensures r.met >= old(r.met) && (r.reliable ==> r.met == old(r.met)) && (!ok && r.met == old(r.met) ==> r.rest == [] && |old(r.rest)| <= 1)
  {
    var data, status := r.Read(1);
    b := if |data| == 0 then previous else data[0];
    ok := status == ReadOk;
    stalled := ok && |data| == 0;
  }

  /** The bytes of the address and the port, once type and length are known. */
  method ReadBody(r: Source, kind: byte, len: nat, ghost head: seq<byte>) returns (a: Option<Address>)
    modifies r
    ensures r.patience <= old(r.patience)
    ensures a.Some? ==> ParseBody(head + old(r.rest), kind, |head|, len) == Some(Parsed(a.value, |head| + len + 2))
    ensures a.Some? ==> Leaves(head + old(r.rest), |head| + len + 2, r.rest)
    ensures r.met >= old(r.met) && (r.reliable ==> r.met == old(r.met))
    ensures a.None? && r.met == old(r.met) ==> ParseBody(head + old(r.rest), kind, |head|, len).None?
  {
    ghost var all := r.rest;
    var body, status := r.ReadFull(len);
    if status != FullStatus.Full {
      return None;
    }
    var port;
    port, status := r.ReadFull(2);
    if status != FullStatus.Full {
      return None;
    }
    assert head + all == head + body + port + r.rest;
    BodyIsRead(head + all, kind, |head|, head, body, port, r.rest);
    a := Some(if kind == IPV4 then Ip4(body, Uint16(port)) else if kind == IPV6 then Ip6(body, Uint16(port))
              else Name(body, Uint16(port)));
  }

  /** `readAddr`. It reads what the bytes say unless a one-byte read stalls, which a reader that never
      returns zero bytes without an error does not. */
  method ReadAddr(r: Source) returns (a: Option<Address>, ghost typeStalls: bool, ghost lengthStalls: bool)
    modifies r
    ensures r.patience <= old(r.patience) && (typeStalls || lengthStalls ==> r.patience < old(r.patience))
    ensures a.Some? ==> ParseAddr(old(r.rest), typeStalls, lengthStalls).Some?
    ensures a.Some? ==>
      var p := ParseAddr(old(r.rest), typeStalls, lengthStalls).value;
      a.value == p.address && Leaves(old(r.rest), p.used, r.rest)
    ensures r.met >= old(r.met) && (r.reliable ==> r.met == old(r.met))
    ensures a.None? && r.met == old(r.met) ==> ParseAddr(old(r.rest), typeStalls, lengthStalls).None?
  {
    ghost var all := r.rest;
    var addrType, ok;
    lengthStalls := false;
    addrType, ok, typeStalls := ReadOne(r, 0);
    if !ok || (addrType != IPV4 && addrType != IPV6 && addrType != DOMAIN_NAME) {
      return None, typeStalls, lengthStalls;
    }
    assert all == [addrType] + r.rest;
    if addrType == IPV4 {
      a := ReadBody(r, IPV4, 4, [addrType]);
    } else if addrType == IPV6 {
      a := ReadBody(r, IPV6, 16, [addrType]);
    } else {
      a, lengthStalls := ReadName(r);
    }
  }

  /** A domain name: its length goes into the byte that held the type. */
  method ReadName(r: Source) returns (a: Option<Address>, ghost stalled: bool)
    modifies r
    ensures r.patience <= old(r.patience) && (stalled ==> r.patience < old(r.patience))
    ensures var x := [DOMAIN_NAME] + old(r.rest);
            && (a.Some? ==> ParseAddr(x, false, stalled).Some?
                            && a.value == ParseAddr(x, false, stalled).value.address
                            && Leaves(x, ParseAddr(x, false, stalled).value.used, r.rest))
            && r.met >= old(r.met) && (r.reliable ==> r.met == old(r.met)) && (a.None? && r.met == old(r.met) ==> ParseAddr(x, false, stalled).None?)
  {
    ghost var all := r.rest;
    var addrLen, ok;
    addrLen, ok, stalled := ReadOne(r, DOMAIN_NAME);
    if !ok {
      return None, stalled;
    }
    ghost var head := if stalled then [DOMAIN_NAME] else [DOMAIN_NAME, addrLen];
    assert [DOMAIN_NAME] + all == head + r.rest;
    a := ReadBody(r, DOMAIN_NAME, addrLen as int, head);
  }

  // The request.

  datatype Credentials = Credentials(username: seq<byte>, password: seq<byte>) {
    predicate Valid() {
      1 <= |username| <= 255 && 1 <= |password| <= 255
    }
  }

  datatype Command = Command(cred: Option<Credentials>, cmd: byte, dest: Address)

  /** Method selection with the one method that is offered (section 3 of RFC 1928), and credentials for
      it (section 2 of RFC 1929): what they are, and what follows. */
  function ParseGreeting(x: seq<byte>): Option<(Option<Credentials>, seq<byte>)> {
    if |x| < 3 || x[0] != 5 || x[1] != 1 then None
    else if x[2] == NO_AUTH then Some((None, x[3..]))
    else if x[2] != USER_PASS || |x| < 5 || x[3] != 1 then None
    else
      var ulen := x[4] as int;
      if |x| < 6 + ulen then None
      else
        var plen := x[5 + ulen] as int;
        if |x| < 6 + ulen + plen then None
        else Some((Some(Credentials(x[5..5 + ulen], x[6 + ulen..6 + ulen + plen])), x[6 + ulen + plen..]))
  }

  /** A command (section 4 of RFC 1928): its code, its destination, and what follows. */
  function ParseCommand(x: seq<byte>): Option<(byte, Address, seq<byte>)> {
    if |x| < 3 || x[0] != 5 || x[2] != 0 then None
    else
      var p := ParseAddr(x[3..], false, false);
      if p.None? then None else Some((x[1], p.value.address, x[3..][p.value.used..]))
  }

  /** What a server finds at the front of a stream, and what follows. */
  function ParseRequest(x: seq<byte>): Option<(Command, seq<byte>)> {
    match ParseGreeting(x)
    case None => None
    case Some((cred, y)) =>
      match ParseCommand(y)
      case None => None
      case Some((cmd, dest, rest)) => Some((Command(cred, cmd, dest), rest))
  }

  function Greeting(cred: Option<Credentials>): seq<byte>
    requires cred.Some? ==> cred.value.Valid()
  {
    if cred.None? then [5, 1, NO_AUTH]
    else
      var c := cred.value;
      [5, 1, USER_PASS, 1, |c.username|] + c.username + [|c.password|] + c.password
  }

  function CommandBytes(cmd: byte, dest: Address): seq<byte>
    requires dest.Valid()
  {
    [5, cmd, 0] + Encoded(dest)
  }

  lemma CommandRoundTrip(x: seq<byte>, cmd: byte, dest: Address, rest: seq<byte>)
    requires dest.Valid() && x == CommandBytes(cmd, dest) + rest
    ensures ParseCommand(x) == Some((cmd, dest, rest))
  {
    var encoded := Encoded(dest);
    AddressRoundTrip(dest, rest);
    assert x[3..] == encoded + rest && x[0] == 5 && x[1] == cmd && x[2] == 0;
    assert (encoded + rest)[|encoded|..] == rest;
  }

  /** A server finds the method, and the credentials if there are any. */
  lemma GreetingRoundTrip(x: seq<byte>, cred: Option<Credentials>, tail: seq<byte>)
    requires (cred.Some? ==> cred.value.Valid()) && x == Greeting(cred) + tail
    ensures ParseGreeting(x) == Some((cred, tail))
  {
    assert x[|Greeting(cred)|..] == tail;
    if cred.Some? {
      GreetingPieces(x, cred.value, tail);
    }
  }

  lemma GreetingPieces(x: seq<byte>, c: Credentials, tail: seq<byte>)
    requires c.Valid() && x == Greeting(Some(c)) + tail
    ensures var u, p := |c.username|, |c.password|;
            && |x| >= 6 + u + p && x[0] == 5 && x[1] == 1 && x[2] == USER_PASS && x[3] == 1 && x[4] == u
            && x[5..5 + u] == c.username && x[5 + u] == p && x[6 + u..6 + u + p] == c.password
  {
    var u, p := |c.username|, |c.password|;
    FiveParts([5, 1, USER_PASS, 1, u], c.username, [p], c.password, tail);
    assert x[..5][3] == 1 && x[..5][4] == u && x[..5][2] == USER_PASS && x[..5][1] == 1 && x[..5][0] == 5;
    assert x[5 + u..6 + u][0] == p;
  }

  /** The pipelined request is read back by a server as the same method, credentials, command and
      destination, and whatever follows is left. */
  lemma RequestRoundTrip(cred: Option<Credentials>, cmd: byte, dest: Address, rest: seq<byte>)
    requires dest.Valid() && (cred.Some? ==> cred.value.Valid())
    ensures ParseRequest(Greeting(cred) + (CommandBytes(cmd, dest) + rest)) == Some((Command(cred, cmd, dest), rest))
  {
    var tail := CommandBytes(cmd, dest) + rest;
    GreetingRoundTrip(Greeting(cred) + tail, cred, tail);
    CommandRoundTrip(tail, cmd, dest, rest);
  }

  lemma FiveParts(a: seq<byte>, b: seq<byte>, c: seq<byte>, d: seq<byte>, e: seq<byte>)
    ensures var x := a + b + c + d + e; var i, j, k := |a|, |a| + |b|, |a| + |b| + |c|;
            x[..i] == a && x[i..j] == b && x[j..k] == c && x[k..k + |d|] == d
  {}

  /** In bytes: version 5 with one method, which is 0, or 2 followed by the credentials, each behind its
      length; and version 5, the command, a zero and the destination. */
  lemma RequestBytes(cred: Option<Credentials>, cmd: byte, dest: Address)
    requires dest.Valid() && (cred.Some? ==> cred.value.Valid())
    ensures Greeting(cred) == match cred
                              case None => [5, 1, 0]
                              case Some(c) => [5, 1, 2, 1, |c.username|] + c.username + [|c.password|] + c.password
    ensures CommandBytes(cmd, dest) == [5, cmd, 0] + Encoded(dest)
  {}

  // The reply.

  datatype Reply = Bound(address: Address) | ReplyError(code: byte) | Rejected | Unreadable

  /** What the bytes of a server mean, given which one-byte reads of the bound address stall: its choice
      of method, the outcome of the authentication if it chose that, and the bound address or a reply
      code. */
  function ParseReply(x: seq<byte>, typeStalls: bool, lengthStalls: bool): (Reply, nat) {
    if |x| < 2 then (Unreadable, 0)
    else if x[0] != 5 then (Rejected, 0)
    else if x[1] == NO_AUTH then ParseOutcome(x, 2, typeStalls, lengthStalls)
    else if x[1] != USER_PASS then (Rejected, 0)
    else if |x| < 4 then (Unreadable, 0)
    else if x[2] != 1 || x[3] != 0 then (Rejected, 0)
    else ParseOutcome(x, 4, typeStalls, lengthStalls)
  }

  function ParseOutcome(x: seq<byte>, at: nat, typeStalls: bool, lengthStalls: bool): (Reply, nat) {
    if |x| < at + 3 then (Unreadable, 0)
    else if x[at] != 5 then (Rejected, 0)
    else if x[at + 1] != 0 then (ReplyError(x[at + 1]), 0)
    else
      var p := ParseAddr(x[at + 3..], typeStalls, lengthStalls);
      if p.None? then (Unreadable, 0) else (Bound(p.value.address), at + 3 + p.value.used)
  }

  /** What follows the choice of a method, in bytes: version 5 with code 0 and an address is a success, with
      another code an error, and another version is rejected. */
  ghost predicate OutcomeAt(x: seq<byte>, at: nat, reply: Reply, typeStalls: bool, lengthStalls: bool) {
    match reply
    case Bound(a) =>
      && |x| >= at + 3 && x[at] == 5 && x[at + 1] == 0
      && ParseAddr(x[at + 3..], typeStalls, lengthStalls).Some?
      && ParseAddr(x[at + 3..], typeStalls, lengthStalls).value.address == a
    case ReplyError(code) => |x| >= at + 3 && x[at] == 5 && x[at + 1] == code && code != 0
    case Rejected => |x| >= at + 3 && x[at] != 5
    case Unreadable =>
      |x| < at + 3 || (x[at] == 5 && x[at + 1] == 0 && ParseAddr(x[at + 3..], typeStalls, lengthStalls).None?)
  }

  /** What the bytes of a server mean, in bytes: method 0 and the outcome behind it; or method 2, the version
      1 and the status 0 of the authentication, and the outcome behind those. Any other method, version
      or status is rejected. */
  lemma ReplyMeaning(x: seq<byte>, typeStalls: bool, lengthStalls: bool)
    ensures var reply := ParseReply(x, typeStalls, lengthStalls).0;
            if |x| < 2 then reply == Unreadable
            else if x[0] == 5 && x[1] == 0 then OutcomeAt(x, 2, reply, typeStalls, lengthStalls)
            else if x[0] != 5 || x[1] != 2 then reply == Rejected
            else if |x| < 4 then reply == Unreadable
            else if x[2] == 1 && x[3] == 0 then OutcomeAt(x, 4, reply, typeStalls, lengthStalls)
            else reply == Rejected
  {}

  /** A refused request is an error with the server's code, with and without authentication. */
  lemma RefusalsAreErrors(code: byte, reserved: byte, rest: seq<byte>, typeStalls: bool, lengthStalls: bool)
    requires code != 0
    ensures ParseReply([5, 0, 5, code, reserved] + rest, typeStalls, lengthStalls).0 == ReplyError(code)
    ensures ParseReply([5, 2, 1, 0, 5, code, reserved] + rest, typeStalls, lengthStalls).0 == ReplyError(code)
  {
    ReplyMeaning([5, 0, 5, code, reserved] + rest, typeStalls, lengthStalls);
    ReplyMeaning([5, 2, 1, 0, 5, code, reserved] + rest, typeStalls, lengthStalls);
  }

  lemma OutcomeRoundTrip(x: seq<byte>, at: nat, bound: Address, rest: seq<byte>, typeStalls: bool, lengthStalls: bool)
    requires bound.Valid() && |x| >= at + 3 && x[at] == 5 && x[at + 1] == 0
    requires x[at + 3..] == Encoded(bound) + rest
    ensures ParseOutcome(x, at, typeStalls, lengthStalls) == (Bound(bound), at + 3 + |Encoded(bound)|)
       <==> !typeStalls && !(lengthStalls && bound.Name?)
  {
    AddressRoundTrip(bound, rest);
    if typeStalls || lengthStalls {
      StallsMisread(bound, rest, typeStalls, lengthStalls);
    }
  }

  /** The reply of a server that accepts is understood, and nothing after it is touched, if and only if
      no one-byte read that matters stalls: the one of the address type, or of a name's length. */
  lemma ReplyRoundTrip(auth: bool, reserved: byte, bound: Address, rest: seq<byte>, typeStalls: bool, lengthStalls: bool)
    requires bound.Valid()
    ensures var head := (if auth then [5, USER_PASS, 1, 0] else [5, NO_AUTH]) + [5, 0, reserved];
            ParseReply(head + (Encoded(bound) + rest), typeStalls, lengthStalls) == (Bound(bound), |head| + |Encoded(bound)|) <==>
              !typeStalls && !(lengthStalls && bound.Name?)
  {
    var left := Encoded(bound) + rest;
    if auth {
      var x := [5, USER_PASS, 1, 0] + [5, 0, reserved] + left;
      assert x[7..] == left;
      OutcomeRoundTrip(x, 4, bound, rest, typeStalls, lengthStalls);
    } else {
      var x := [5, NO_AUTH] + [5, 0, reserved] + left;
      assert x[5..] == left;
      OutcomeRoundTrip(x, 2, bound, rest, typeStalls, lengthStalls);
    }
  }

  /** The reply is the one that was meant, and exactly its bytes were taken. */
  ghost predicate Understood(meaning: (Reply, nat), reply: Reply, before: seq<byte>, after: seq<byte>) {
    reply == meaning.0 && (reply.Bound? ==> Leaves(before, meaning.1, after))
  }

  /** The connect reply: version, code, a reserved byte, and the bound address. */
  method ReadOutcome(r: Source, ghost head: seq<byte>) returns (reply: Reply, ghost typeStalls: bool, ghost lengthStalls: bool)
    modifies r
    ensures r.patience <= old(r.patience) && (typeStalls || lengthStalls ==> r.patience < old(r.patience))
    ensures r.met >= old(r.met)
    ensures (r.met > old(r.met) && reply == Unreadable) ||
            Understood(ParseOutcome(head + old(r.rest), |head|, typeStalls, lengthStalls), reply, head + old(r.rest), r.rest)
  {
    typeStalls, lengthStalls := false, false;
    ghost var all := r.rest;
    var buffer, status := r.ReadFull(3);
    if status != FullStatus.Full {
      return Unreadable, typeStalls, lengthStalls;
    }
    ghost var x := head + all;
    assert x == head + buffer + r.rest;
    assert x[|head|] == buffer[0] && x[|head| + 1] == buffer[1];
    if buffer[0] != 5 {
      return Rejected, typeStalls, lengthStalls;
    }
    if buffer[1] != 0 {
      return ReplyError(buffer[1]), typeStalls, lengthStalls;
    }
    assert x[|head| + 3..] == r.rest;
    ghost var left := r.rest;
    var bindAddr;
    bindAddr, typeStalls, lengthStalls := ReadAddr(r);
    if bindAddr.None? {
      return Unreadable, typeStalls, lengthStalls;
    }
    LeavesBehind(head + buffer, left, ParseAddr(left, typeStalls, lengthStalls).value.used, r.rest);
    reply := Bound(bindAddr.value);
  }

  lemma LeavesBehind(head: seq<byte>, left: seq<byte>, used: nat, rest: seq<byte>)
    requires Leaves(left, used, rest)
    ensures Leaves(head + left, |head| + used, rest)
  {
    assert (head + left)[..|head| + used] == head + left[..used];
  }

  /** The reading half of `request`. */
  method ReadReply(r: Source) returns (reply: Reply, ghost typeStalls: bool, ghost lengthStalls: bool)
    modifies r
    ensures r.patience <= old(r.patience) && (typeStalls || lengthStalls ==> r.patience < old(r.patience))
    ensures r.met >= old(r.met)
    ensures (r.met > old(r.met) && reply == Unreadable) ||
            Understood(ParseReply(old(r.rest), typeStalls, lengthStalls), reply, old(r.rest), r.rest)
  {
    typeStalls, lengthStalls := false, false;
    ghost var all := r.rest;
    var buffer, status := r.ReadFull(2);
    if status != FullStatus.Full {
      return Unreadable, typeStalls, lengthStalls;
    }
    assert all[0] == buffer[0] && all[1] == buffer[1];
    if buffer[0] != 5 {
      return Rejected, typeStalls, lengthStalls;
    }
    if buffer[1] == NO_AUTH {
      reply, typeStalls, lengthStalls := ReadOutcome(r, buffer);
    } else if buffer[1] == USER_PASS {
      reply, typeStalls, lengthStalls := ReadAuthentication(r, buffer);
    } else {
      reply := Rejected;
    }
  }

  /** The outcome of the authentication, and what follows it. */
  method ReadAuthentication(r: Source, ghost head: seq<byte>)
    returns (reply: Reply, ghost typeStalls: bool, ghost lengthStalls: bool)
    requires head == [5, USER_PASS]
    modifies r
    ensures r.patience <= old(r.patience) && (typeStalls || lengthStalls ==> r.patience < old(r.patience))
    ensures r.met >= old(r.met)
    ensures (r.met > old(r.met) && reply == Unreadable) ||
            Understood(ParseReply(head + old(r.rest), typeStalls, lengthStalls), reply, head + old(r.rest), r.rest)
  {
    typeStalls, lengthStalls := false, false;
    ghost var x := head + r.rest;
    var buffer, status := r.ReadFull(2);
    if status != FullStatus.Full {
      return Unreadable, typeStalls, lengthStalls;
    }
    assert x == head + buffer + r.rest && x[2] == buffer[0] && x[3] == buffer[1];
    if buffer[0] != 1 || buffer[1] != 0 {
      return Rejected, typeStalls, lengthStalls;
    }
    reply, typeStalls, lengthStalls := ReadOutcome(r, head + buffer);
  }

  /** The command behind b. */
  method AppendCommand(b: seq<byte>, cmd: byte, host: Host, port: nat) returns (request: Option<seq<byte>>)
    requires host.Valid() && port < 0x1_0000
    ensures request.Some? <==> Normalised(host, port).Valid()
    ensures request.Some? ==> request.value == b + CommandBytes(cmd, Normalised(host, port))
  {
    request := AppendAddress(b + [5, cmd, 0], host, port);
    if request.Some? {
      Regroup(b, [5, cmd, 0], Encoded(Normalised(host, port)));
    }
  }

  lemma WholeRequest(x: seq<byte>, cred: Option<Credentials>, cmd: byte, dest: Address)
    requires dest.Valid() && (cred.Some? ==> cred.value.Valid()) && x == Greeting(cred) + CommandBytes(cmd, dest)
    ensures ParseRequest(x) == Some((Command(cred, cmd, dest), []))
  {
    assert CommandBytes(cmd, dest) + [] == CommandBytes(cmd, dest);
    RequestRoundTrip(cred, cmd, dest, []);
  }

  datatype RequestResult = BadAddress | WriteFailed | Got(reply: Reply)

  /** `Client`. */
  class Client {
    var cred: Option<Credentials>

    ghost predicate Valid()
      reads this
    {
      cred.Some? ==> cred.value.Valid()
    }

    constructor ()
      ensures Valid() && cred == None
    {
      cred := None;
    }

    /** `SetCredentials`. */
    method SetCredentials(username: seq<byte>, password: seq<byte>) returns (ok: bool)
      requires Valid()
      modifies this
      ensures Valid() && (ok <==> 1 <= |username| <= 255 && 1 <= |password| <= 255)
      ensures cred == if ok then Some(Credentials(username, password)) else old(cred)
    {
      if |username| > 255 || |username| == 0 || |password| > 255 || |password| == 0 {
        return false;
      }
      cred := Some(Credentials(username, password));
      ok := true;
    }

    /** Method, credentials and command in one buffer, which a server reads as exactly that. */
    method BuildRequest(cmd: byte, host: Host, port: nat) returns (request: Option<seq<byte>>)
      requires Valid() && host.Valid() && port < 0x1_0000
      ensures request.Some? <==> Normalised(host, port).Valid()
      ensures request.Some? ==> request.value == Greeting(cred) + CommandBytes(cmd, Normalised(host, port))
      ensures request.Some? ==>
        ParseRequest(request.value) == Some((Command(cred, cmd, Normalised(host, port)), []))
    {
      var b;
      if cred == None {
        b := [5, 1, 0];
      } else {
        b := [5, 1, USER_PASS];
        b := b + [1];
        b := b + [|cred.value.username|];
        b := b + cred.value.username;
        b := b + [|cred.value.password|];
        b := b + cred.value.password;
      }
      assert b == Greeting(cred);
      request := AppendCommand(b, cmd, host, port);
      if request.Some? {
        WholeRequest(request.value, cred, cmd, Normalised(host, port));
      }
    }

    /** `request` over a connection that writes to `up` and reads from `down`: one write with method,
        credentials and command together, of which the server reads exactly the command that was asked
        for; and the reply is understood as its bytes are meant, given which one-byte reads stall,
        unless the connection fails. */
    method Request(up: Sink, down: Source, cmd: byte, host: Host, port: nat)
      returns (result: RequestResult, ghost typeStalls: bool, ghost lengthStalls: bool)
      requires Valid() && host.Valid() && port < 0x1_0000
      modifies up, down
      ensures result == BadAddress <==> !Normalised(host, port).Valid()
      ensures result == BadAddress ==> up.calls == old(up.calls) && down.rest == old(down.rest)
      ensures result != BadAddress ==> |up.calls| == |old(up.calls)| + 1
      ensures up.failures == old(up.failures) + B(result == WriteFailed)
      ensures result.Got? ==>
        (var sent := up.calls[|old(up.calls)|];
         sent == Greeting(cred) + CommandBytes(cmd, Normalised(host, port)) &&
         up.out == old(up.out) + sent && ParseRequest(sent) == Some((Command(cred, cmd, Normalised(host, port)), [])))
      ensures down.patience <= old(down.patience) && (typeStalls || lengthStalls ==> down.patience < old(down.patience))
      ensures result.Got? ==>
        (down.met > old(down.met) && result.reply == Unreadable) ||
        Understood(ParseReply(old(down.rest), typeStalls, lengthStalls), result.reply, old(down.rest), down.rest)
    {
      typeStalls, lengthStalls := false, false;
      var request := BuildRequest(cmd, host, port);
      if request.None? {
        return BadAddress, typeStalls, lengthStalls;
      }
      assert request.value[..|request.value|] == request.value;
      var n, ok := up.Write(request.value);
      if !ok {
        return WriteFailed, typeStalls, lengthStalls;
      }
      var reply;
      reply, typeStalls, lengthStalls := ReadReply(down);
      result := Got(reply);
    }
  }

  // UDP datagrams (section 7 of RFC 1928).

  function HeaderLen(host: Host): nat
    requires host.Valid()
  {
    match host
    case IpHost(b) => if IsMapped(b) then 10 else 22
    case NameHost(name) => 7 + |name|
  }

  function Datagram(host: Host, port: nat, payload: seq<byte>): (r: seq<byte>)
    requires host.Valid() && Normalised(host, port).Valid()
    ensures |r| == HeaderLen(host) + |payload|
  {
    [0, 0, 0] + Encoded(Normalised(host, port)) + payload
  }

  /** In bytes: three zeros, the address, and the payload. */
  lemma DatagramBytes(host: Host, port: nat, payload: seq<byte>)
    requires host.Valid() && Normalised(host, port).Valid()
    ensures Datagram(host, port, payload) == [0, 0, 0] + (Encoded(Normalised(host, port)) + payload)
  {}

  /** `packetConn.WriteTo`: one datagram. The count includes the header. */
  method WriteTo(pc: Sink, payload: seq<byte>, host: Host, port: nat) returns (n: nat, ok: bool)
    requires host.Valid() && port < 0x1_0000
    modifies pc
    ensures ok ==> Normalised(host, port).Valid() && n == HeaderLen(host) + |payload|
    ensures !Normalised(host, port).Valid() ==> !ok && n == 0 && pc.calls == old(pc.calls)
    ensures Normalised(host, port).Valid() ==>
              && pc.failures == old(pc.failures) + B(!ok) && n <= |Datagram(host, port, payload)|
              && pc.calls == old(pc.calls) + [Datagram(host, port, payload)[..n]]
  {
    var buffer := [0, 0, 0];
    var packet := AppendAddress(buffer, host, port);
    if packet.None? {
      return 0, false;
    }
    var datagram := packet.value + payload;
    assert datagram[..|datagram|] == datagram;
    n, ok := pc.Write(datagram);
  }

  predicate Bracketed(name: seq<byte>) {
    91 in name || 93 in name
  }

  /** `MakeNetAddr` of `addrToString`: joining host and port and splitting them again keeps an address,
      but not one with a name in which there is a bracket. A pair of brackets around a name without a
      colon is taken for the join's own; any other bracket is refused. */
  function NetAddr(a: Address): Option<Address> {
    if !a.Name? || !Bracketed(a.name) then Some(a)
    else
      var n := |a.name|;
      if n >= 2 && a.name[0] == 91 && a.name[n - 1] == 93 && !Bracketed(a.name[1..n - 1]) && 58 !in a.name
      then Some(Name(a.name[1..n - 1], a.port))
      else None
  }

  /** One pair of brackets around a name without a bracket or a colon. */
  ghost predicate InBrackets(name: seq<byte>, inner: seq<byte>) {
    name == [91] + inner + [93] && !Bracketed(inner) && 58 !in inner
  }

  /** The sender's address is the one in the datagram if and only if it is no name with a bracket; a
      name in one pair of brackets is reported without them, and exactly the other ones with a bracket
      are not reported at all. */
  lemma NamesAreKept(a: Address, inner: seq<byte>)
    ensures NetAddr(a) == Some(a) <==> !(a.Name? && Bracketed(a.name))
    ensures a.Name? && InBrackets(a.name, inner) ==> NetAddr(a) == Some(Name(inner, a.port))
    ensures NetAddr(a) == None
       <==> a.Name? && Bracketed(a.name) && forall within :: !InBrackets(a.name, within)
  {
    if a.Name? {
      forall within | InBrackets(a.name, within)
        ensures NetAddr(a) == Some(Name(within, a.port))
      {
        assert a.name[1..|a.name| - 1] == within && a.name[0] == 91;
      }
      if NetAddr(a) != None && Bracketed(a.name) {
        var within := a.name[1..|a.name| - 1];
        assert a.name == [91] + within + [93];
        assert InBrackets(a.name, within);
      }
    }
  }

  datatype Received = Payload(n: nat, from: Address) | NetworkFailed | Malformed | Unprintable | TooLong

  /** `packetConn.ReadFrom`: unless the network fails, the next datagram, cut to the size of the buffer it
      is read into, gives an address and a payload that must fit into b. */
  method ReadFrom(arrival: Option<seq<byte>>, b: array<byte>) returns (r: Received)
    modifies b
    ensures r == if arrival.Some? then Meaning(arrival.value, b.Length) else NetworkFailed
    ensures r.Payload? ==> b[..r.n] == PayloadOf(arrival.value) && b[r.n..] == old(b[r.n..])
    ensures !r.Payload? ==> b[..] == old(b[..])
  {
    if arrival.None? {
      return NetworkFailed;
    }
    var n := Min(|arrival.value|, UDP_BUFFER_SIZE);
    if n < 10 {
      return Malformed;
    }
    var packet := arrival.value[..n];
    if packet[0] != 0 || packet[1] != 0 {
      return Malformed;
    }
    if packet[2] != 0 {
      return Malformed;
    }
    var buf := new Source.OfBytes(packet[3..]);
    ghost var s, t;
    var address;
    address, s, t := ReadAddr(buf);
    if address.None? {
      return Malformed;
    }
    var addr := NetAddr(address.value);
    if addr.None? {
      return Unprintable;
    }
    var payload := buf.rest;
    RestIs(packet[3..], ParseAddr(packet[3..], false, false).value.used, payload);
    if |payload| > b.Length {
      return TooLong;
    }
    forall i | 0 <= i < |payload| {
      b[i] := payload[i];
    }
    r := Payload(|payload|, addr.value);
  }

  lemma RestIs(all: seq<byte>, used: nat, rest: seq<byte>)
    requires Leaves(all, used, rest)
    ensures all[used..] == rest
  {}

  function Cut(datagram: seq<byte>): seq<byte> {
    datagram[..Min(|datagram|, UDP_BUFFER_SIZE)]
  }

  /** What is behind the header of a datagram that arrives. */
  function PayloadOf(datagram: seq<byte>): seq<byte> {
    var d := Cut(datagram);
    if |d| < 3 || ParseAddr(d[3..], false, false).None? then []
    else d[3..][ParseAddr(d[3..], false, false).value.used..]
  }

  function Meaning(datagram: seq<byte>, capacity: nat): Received {
    var d := Cut(datagram);
    if |d| < 10 || d[0] != 0 || d[1] != 0 || d[2] != 0 || ParseAddr(d[3..], false, false).None? then Malformed
    else
      var from := NetAddr(ParseAddr(d[3..], false, false).value.address);
      if from.None? then Unprintable
      else if |PayloadOf(datagram)| > capacity then TooLong
      else Payload(|PayloadOf(datagram)|, from.value)
  }

  /** Fewer than 10 bytes, a reserved byte or fragment number that is not zero, or no address: malformed.
      Otherwise the name may not be reportable, or the payload too long, in this order. */
  lemma MalformedExactlyWhen(d: seq<byte>, capacity: nat)
    requires |d| <= 16384
    ensures Meaning(d, capacity) == Malformed
       <==> |d| < 10 || d[0] != 0 || d[1] != 0 || d[2] != 0 || ParseAddr(d[3..], false, false) == None
    ensures Meaning(d, capacity) == Unprintable
       <==> Meaning(d, capacity) != Malformed && NetAddr(ParseAddr(d[3..], false, false).value.address) == None
    ensures Meaning(d, capacity) == TooLong
       <==> Meaning(d, capacity) != Malformed && Meaning(d, capacity) != Unprintable && |PayloadOf(d)| > capacity
    ensures Meaning(d, capacity).Payload? ==>
              && d[3..3 + ParseAddr(d[3..], false, false).value.used] + PayloadOf(d) == d[3..]
              && Meaning(d, capacity).n == |PayloadOf(d)| <= capacity
  {
    assert Cut(d) == d;
  }

  predicate ReadsBack(datagram: seq<byte>, payload: seq<byte>, from: Address, capacity: nat) {
    Meaning(datagram, capacity) == Payload(|payload|, from) && PayloadOf(datagram) == payload
  }

  /** A datagram that was written is read back, address and payload, if and only if it is at least 10
      bytes long, fits into the pooled buffer, its payload fits into the caller's, and there is no
      bracket in its name. */
  lemma DatagramRoundTrip(host: Host, port: nat, payload: seq<byte>, capacity: nat)
    requires host.Valid() && Normalised(host, port).Valid()
    ensures var d := Datagram(host, port, payload);
            ReadsBack(d, payload, Normalised(host, port), capacity) <==>
              10 <= |d| <= 16384 && |payload| <= capacity && !(host.NameHost? && Bracketed(host.name))
  {
    var d, a := Datagram(host, port, payload), Normalised(host, port);
    if |d| >= 10 {
      var arrived := payload[..|Cut(d)| - HeaderLen(host)];
      CutDatagram(host, port, payload);
      AddressRoundTrip(a, arrived);
      assert (Encoded(a) + arrived)[|Encoded(a)|..] == arrived;
      assert PayloadOf(d) == arrived;
      if |d| <= UDP_BUFFER_SIZE {
        assert arrived == payload;
      } else {
        assert |arrived| < |payload|;
      }
    }
  }

  /** The header always arrives whole: it is far shorter than the buffer. */
  lemma CutDatagram(host: Host, port: nat, payload: seq<byte>)
    requires host.Valid() && Normalised(host, port).Valid()
    ensures var d := Datagram(host, port, payload); var h := HeaderLen(host);
            h <= |Cut(d)| && Cut(d)[..3] == [0, 0, 0]
            && Cut(d)[3..] == Encoded(Normalised(host, port)) + payload[..|Cut(d)| - h]
  {
    var d, h, a := Datagram(host, port, payload), HeaderLen(host), Encoded(Normalised(host, port));
    assert |a| == h - 3;
    var n := |Cut(d)| - h;
    assert d == [0, 0, 0] + a + payload[..n] + payload[n..];
    assert Cut(d) == [0, 0, 0] + a + payload[..n];
  }
}
