/**
The SOCKS4 and SOCKS4A client (transport/socks4/socks4.go) against a server that follows
transport/socks4/socks4a.txt.
*/
module Socks4 {
  import opened Bytes
  import opened Net
  import opened Socks5Addr

  const VERSION: byte := 4
  const CMD_BIND: byte := 2
  const GRANTED: byte := 90

  datatype Failure =
    | CommandNotSupported | IPv6NotSupported | WriteFailed | Short | VersionMismatch
    | RequestRejected | IdentdFailed | IdentdMismatched | UnknownCode

  datatype Outcome = Granted | Failed(why: Failure)

  /** What `netip.ParseAddr` makes of the host text. */
  datatype ParsedHost = NotAnIp | IPv4(ip: Bytes) | Mapped(ip: Bytes) | IPv6
  {
    predicate Valid() {
      (IPv4? || Mapped?) ==> |ip| == 4
    }
  }

  /** The address field: a host name stands behind the deliberately invalid 0.0.0.1. */
  function AddressField(p: ParsedHost): Option<Bytes> {
    match p
    case NotAnIp => Some([0, 0, 0, 1])
    case Mapped(ip) => Some(ip)
    case IPv4(ip) => Some(ip)
    case IPv6 => None
  }

  /** An IPv4 address as a 32-bit number. */
  function Number(ip: Bytes): (n: nat)
    requires |ip| == 4
    ensures n < 0x1_0000_0000
  {
    0x100_0000 * ip[0] as int + 0x1_0000 * ip[1] as int + 0x100 * ip[2] as int + ip[3] as int
  }

  function Power(bits: nat): (p: nat)
    ensures p > 0
  {
    if bits == 0 then 1 else 2 * Power(bits - 1)
  }

  /** `Prefix.Contains`: the first `bits` bits are the same. */
  predicate Contains(prefix: Bytes, bits: nat, ip: Bytes)
    requires |prefix| == 4 && |ip| == 4 && bits <= 32
  {
    Number(prefix) / Power(32 - bits) == Number(ip) / Power(32 - bits)
  }

  const UNSPECIFIED: Bytes := [0, 0, 0, 0]

  /** `isReservedIP`: inside 0.0.0.0/24, and not 0.0.0.0 itself. */
  predicate IsReserved(ip: Bytes)
    requires |ip| == 4
  {
    ip != UNSPECIFIED && Contains(UNSPECIFIED, 24, ip)
  }

  /** The request; the host text is added exactly for a reserved address. */
  function Request(command: byte, port: Port, ip: Bytes, user: Bytes, host: Bytes): Bytes
    requires |ip| == 4
  {
    [VERSION, command] + (Be16(port) + (ip + (user + ([0] + if IsReserved(ip) then host + [0] else []))))
  }

  // ---------------------------------------------------------------- the server

  /** The bytes before the first NUL, and what follows it. */
  function TakeText(s: Bytes): (r: Option<(Bytes, Bytes)>)
    ensures r.Some? ==> |s| == |r.value.0| + 1 + |r.value.1|
  {
    if s == [] then None
    else if s[0] == 0 then Some(([], s[1..]))
    else
      var r := TakeText(s[1..]);
      if r.None? then None else Some(([s[0]] + r.value.0, r.value.1))
  }

  datatype Parsed = Parsed(command: byte, port: Port, ip: Bytes, user: Bytes, host: Option<Bytes>)

  /** The mark of a host name: the first three bytes of the address are NUL and the last is not. */
  predicate Marked(ip: Bytes)
    requires |ip| == 4
  {
    ip[0] == 0 && ip[1] == 0 && ip[2] == 0 && ip[3] != 0
  }

  /** A SOCKS4A server: the host name is read if and only if the address is marked. */
  function Parse(s: Bytes): Option<(Parsed, Bytes)> {
    if |s| < 8 || s[0] != VERSION then None
    else
      var ip := s[4..8];
      var user := TakeText(s[8..]);
      if user.None? then None
      else if !Marked(ip) then
        Some((Parsed(s[1], FromBe16(s[2], s[3]), ip, user.value.0, None), user.value.1))
      else
        var host := TakeText(user.value.1);
        if host.None? then None
        else Some((Parsed(s[1], FromBe16(s[2], s[3]), ip, user.value.0, Some(host.value.0)), host.value.1))
  }

  /** The client's prefix test and the server's byte test agree. */
  lemma ReservedIffMarked(ip: Bytes)
    requires |ip| == 4
    ensures IsReserved(ip) <==> Marked(ip)
  {
    assert Power(8) == 256 by {
      assert Power(4) == 16;
    }
    assert Number(UNSPECIFIED) == 0;
    assert Number(ip) / 256 == 0x1_0000 * ip[0] as int + 0x100 * ip[1] as int + ip[2] as int;
    assert |UNSPECIFIED| == 4 && (ip == UNSPECIFIED <==> forall i :: 0 <= i < 4 ==> ip[i] == 0);
  }

  lemma {:induction false} TextParses(t: Bytes, rest: Bytes)
    requires 0 !in t
    ensures TakeText(t + ([0] + rest)) == Some((t, rest))
  {
    var s := t + ([0] + rest);
    if t == [] {
      assert s == [0] + rest && s[1..] == rest;
    } else {
      assert s[0] == t[0] && t[0] in t;
      assert s[1..] == t[1..] + ([0] + rest);
      TextParses(t[1..], rest);
      assert t == [t[0]] + t[1..];
    }
  }

  /** A text with a NUL in it is never read back. */
  lemma {:induction false} TextLost(t: Bytes, rest: Bytes)
    requires 0 in t
    ensures TakeText(t + rest).Some? && 0 !in TakeText(t + rest).value.0
    ensures |TakeText(t + rest).value.0| < |t|
  {
    assert (t + rest)[0] == t[0];
    if t[0] != 0 {
      assert (t + rest)[1..] == t[1..] + rest;
      TextLost(t[1..], rest);
    }
  }

  /** The fixed part of a request is read back whatever follows. */
  lemma HeaderParses(command: byte, port: Port, ip: Bytes, tail: Bytes)
    requires |ip| == 4
    ensures var s := [VERSION, command] + (Be16(port) + (ip + tail));
            && |s| >= 8 && s[0] == VERSION && s[1] == command && FromBe16(s[2], s[3]) == port
            && s[4..8] == ip && s[8..] == tail
  {
    var s := [VERSION, command] + (Be16(port) + (ip + tail));
    Be16Value(port);
    assert s[2] == Be16(port)[0] && s[3] == Be16(port)[1];
    assert s[4..8] == ip;
    assert s[8..] == tail;
  }

  /**
  The server recovers every field and consumes exactly the request if and only if the user id and,
  when it is sent, the host are free of NUL bytes.
  */
  lemma RequestParsesIff(command: byte, port: Port, ip: Bytes, user: Bytes, host: Bytes, rest: Bytes)
    requires |ip| == 4
    ensures Parse(Request(command, port, ip, user, host) + rest) ==
            Some((Parsed(command, port, ip, user, if IsReserved(ip) then Some(host) else None), rest))
            <==> 0 !in user && (IsReserved(ip) ==> 0 !in host)
  {
    var more := (if IsReserved(ip) then host + [0] else []) + rest;
    ReservedIffMarked(ip);
    RequestShape(command, port, ip, user, host, rest);
    HeaderParses(command, port, ip, user + ([0] + more));
    if 0 !in user {
      TextParses(user, more);
      if IsReserved(ip) {
        Reassociate(host, [0], rest);
        if 0 !in host {
          TextParses(host, rest);
        } else {
          TextLost(host, [0] + rest);
        }
      } else {
        assert more == rest;
      }
    } else {
      TextLost(user, [0] + more);
    }
  }

  lemma RequestShape(command: byte, port: Port, ip: Bytes, user: Bytes, host: Bytes, rest: Bytes)
    requires |ip| == 4
    ensures Request(command, port, ip, user, host) + rest ==
            [VERSION, command] +
            (Be16(port) + (ip + (user + ([0] + ((if IsReserved(ip) then host + [0] else []) + rest)))))
  {
    var h := if IsReserved(ip) then host + [0] else [];
    Reassociate([0], h, rest);
    Reassociate(user, [0] + h, rest);
    Reassociate(ip, user + ([0] + h), rest);
    Reassociate(Be16(port), ip + (user + ([0] + h)), rest);
    Reassociate([VERSION, command], Be16(port) + (ip + (user + ([0] + h))), rest);
  }

  /**
  What the server learns of the host: its text if it is no IP address or literally 0.0.0.x with x
  not zero, and otherwise only the four bytes of the address.
  */
  lemma HostNameSent(p: ParsedHost, command: byte, port: Port, user: Bytes, host: Bytes, rest: Bytes)
    requires p.Valid() && !p.IPv6? && 0 !in user && 0 !in host
    ensures var ip := if p.NotAnIp? then [0, 0, 0, 1] else p.ip;
            var byName := p.NotAnIp? || (p.ip[0] == 0 && p.ip[1] == 0 && p.ip[2] == 0 && p.ip[3] != 0);
            && AddressField(p) == Some(ip)
            && Parse(Request(command, port, ip, user, host) + rest) ==
               Some((Parsed(command, port, ip, user, if byName then Some(host) else None), rest))
  {
    var ip := AddressField(p).value;
    ReservedIffMarked(ip);
    RequestParsesIff(command, port, ip, user, host, rest);
  }

  /** A NUL in the user id ends it early: the server takes what follows for the next request. */
  lemma NulInUserId(command: byte, port: Port)
    ensures var ip := [1, 2, 3, 4];
            Parse(Request(command, port, ip, [65, 0, 66], [])) == Some((Parsed(command, port, ip, [65], None), [66, 0]))
  {
    var ip, user := [1, 2, 3, 4], [65, 0, 66];
    ReservedIffMarked(ip);
    RequestShape(command, port, ip, user, [], []);
    HeaderParses(command, port, ip, user + ([0] + []));
    TextParses([65], [66, 0]);
    assert user + ([0] + []) == [65] + ([0] + [66, 0]);
    var s := Request(command, port, ip, user, []);
    assert s + [] == s;
  }

  /** The request in the bytes of socks4a.txt: version 4, the command, the port and the address, then texts ending in NUL. */
  lemma RequestBytes(command: byte, port: Port, ip: Bytes, user: Bytes, host: Bytes)
    requires |ip| == 4
    ensures Request(command, port, ip, user, host) ==
            [4, command, port / 256, port % 256] + ip + user + [0]
            + if ip[0] == 0 && ip[1] == 0 && ip[2] == 0 && ip[3] != 0 then host + [0] else []
  {
    ReservedIffMarked(ip);
    assert Be16(port) == [port / 256, port % 256];
    assert [VERSION, command] + [port / 256, port % 256] == [4, command, port / 256, port % 256];
  }

  // ---------------------------------------------------------------- the client's code

  function Verdict(resp: Bytes): Outcome
    requires |resp| == 8
  {
    if resp[0] != 0 then Failed(VersionMismatch)
    else if resp[1] == GRANTED then Granted
    else if resp[1] == 91 then Failed(RequestRejected)
    else if resp[1] == 92 then Failed(IdentdFailed)
    else if resp[1] == 93 then Failed(IdentdMismatched)
    else Failed(UnknownCode)
  }

  /** What the first two bytes of the reply mean: granted by 0 and 90 alone, and a reason for everything else. */
  predicate Judged(first: byte, code: byte, r: Outcome) {
    && (r == Granted <==> first == 0 && code == 90)
    && (r == Failed(VersionMismatch) <==> first != 0)
    && (r == Failed(RequestRejected) <==> first == 0 && code == 91)
    && (r == Failed(IdentdFailed) <==> first == 0 && code == 92)
    && (r == Failed(IdentdMismatched) <==> first == 0 && code == 93)
    && (r == Failed(UnknownCode) <==> first == 0 && !(90 <= code <= 93))
  }

  /**
  `ClientHandshake`, after the address text has been split.  Nothing is sent for an unsupported
  command or address; otherwise one request goes out and eight bytes are read.
  */
  method ClientHandshake(src: Source, sink: Sink, command: byte, host: Bytes, parsed: ParsedHost, port: Port, user: Bytes)
    returns (r: Outcome)
    requires parsed.Valid()
    modifies src, sink
    ensures command == CMD_BIND ==> r == Failed(CommandNotSupported)
    ensures command != CMD_BIND && parsed.IPv6? ==> r == Failed(IPv6NotSupported)
    ensures command == CMD_BIND || parsed.IPv6? ==> src.data == old(src.data) && sink.log == old(sink.log)
    ensures command != CMD_BIND && !parsed.IPv6? && r != Failed(WriteFailed) ==>
              && sink.log == old(sink.log) + [Request(command, port, AddressField(parsed).value, user, host)]
              && (|old(src.data)| < 8 ==> r == Failed(Short) && src.data == [])
              && (|old(src.data)| >= 8 ==> Judged(old(src.data)[0], old(src.data)[1], r) && src.data == old(src.data)[8..])
    ensures command != CMD_BIND && !parsed.IPv6? && r == Failed(WriteFailed) ==>
              && !sink.reliable && src.data == old(src.data)
              && |sink.log| == |old(sink.log)| + 1 && sink.log[..|old(sink.log)|] == old(sink.log)
              && sink.log[|old(sink.log)|] <= Request(command, port, AddressField(parsed).value, user, host)
  {
    if command == CMD_BIND {
      return Failed(CommandNotSupported);
    }
    var ip;
    match parsed {
      case NotAnIp => ip := [0, 0, 0, 1];
      case Mapped(v) => ip := v;
      case IPv4(v) => ip := v;
      case IPv6 => return Failed(IPv6NotSupported);
    }
    var req := BuildRequest(command, port, ip, user, host);
    var n, failed := sink.Write(req);
    if failed {
      return Failed(WriteFailed);
    }
    assert req[..n] == req;
    var resp := new byte[8];
    var got, err := src.ReadFull(resp, 0, 8);
    if err != Ok {
      return Failed(Short);
    }
    assert resp[..] == resp[0..8];
    r := Verdict(resp[..]);
  }

  /** The request is appended to a buffer piece by piece. */
  method BuildRequest(command: byte, port: Port, ip: Bytes, user: Bytes, host: Bytes) returns (req: Bytes)
    requires |ip| == 4
    ensures req == Request(command, port, ip, user, host)
  {
    req := [VERSION] + [command];
    req := req + Be16(port);
    req := req + ip;
    req := req + user;
    req := req + [0];
    if IsReserved(ip) {
      req := req + host;
      req := req + [0];
    }
    assert [VERSION] + [command] == [VERSION, command];
  }
}
