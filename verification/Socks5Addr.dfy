/** SOCKS5 addresses and UDP datagrams (transport/socks5/socks5.go, RFC 1928 sections 5 and 7). */
module Socks5Addr {
  import opened Bytes
  import opened Net

  const ATYP_IPV4: byte := 1
  const ATYP_DOMAIN: byte := 3
  const ATYP_IPV6: byte := 4
  const MAX_ADDR_LEN: nat := 1 + 1 + 255 + 2

  type Port = p: nat | p < 0x1_0000

  /** Go's `netip.Addr`, which may also hold no address at all. */
  datatype Ip = V4(bytes: Bytes) | V6(bytes: Bytes) | NoIp
  {
    predicate Valid() {
      (V4? ==> |bytes| == 4) && (V6? ==> |bytes| == 16)
    }

    function Slice(): Bytes {
      if NoIp? then [] else bytes
    }
  }

  datatype Dest = Dest(domain: Bytes, ip: Ip, port: Port)
  {
    /** What the encoding can carry: a domain of 1 to 255 bytes, or else an IP address. */
    predicate WellFormed() {
      if domain != [] then |domain| <= 255 else !ip.NoIp?
    }

    /** A domain name takes precedence over the address. */
    function Target(): Dest {
      if domain != [] then Dest(domain, NoIp, port) else Dest([], ip, port)
    }
  }

  /** The domain name is preferred; its length byte keeps only the low eight bits. */
  function SerializeAddr(d: Dest): Bytes {
    if d.domain != [] then [ATYP_DOMAIN, |d.domain| % 256] + (d.domain + Be16(d.port))
    else if d.ip.V4? then [ATYP_IPV4] + (d.ip.bytes + Be16(d.port))
    else [ATYP_IPV6] + (d.ip.Slice() + Be16(d.port))
  }

  /** The length of the address that starts at b, if its first bytes tell. */
  function AddrLen(b: Bytes): Option<nat> {
    if b == [] then None
    else if b[0] == ATYP_DOMAIN then if |b| < 2 then None else Some(1 + 1 + b[1] as int + 2)
    else if b[0] == ATYP_IPV4 then Some(1 + 4 + 2)
    else if b[0] == ATYP_IPV6 then Some(1 + 16 + 2)
    else None
  }

  function SplitAddr(b: Bytes): (r: Option<Bytes>)
    ensures r.Some? ==> r.value <= b && 4 <= |r.value| <= MAX_ADDR_LEN
  {
    var n := AddrLen(b);
    if n.None? || |b| < n.value then None else Some(b[..n.value])
  }

  /** An address as a SOCKS5 peer decodes it, and the bytes that follow. */
  function ParseAddr(b: Bytes): Option<(Dest, Bytes)> {
    var n := AddrLen(b);
    if n.None? || |b| < n.value then None
    else
      var k := n.value;
      var port := FromBe16(b[k - 2], b[k - 1]);
      if b[0] == ATYP_DOMAIN then Some((Dest(b[2..k - 2], NoIp, port), b[k..]))
      else if b[0] == ATYP_IPV4 then Some((Dest([], V4(b[1..5]), port), b[k..]))
      else Some((Dest([], V6(b[1..17]), port), b[k..]))
  }

  /** Being an address is decided by the address alone, not by what follows it. */
  lemma SplitSelf(a: Bytes, rest: Bytes)
    ensures SplitAddr(a + rest) == Some(a) <==> SplitAddr(a) == Some(a)
  {
    if SplitAddr(a + rest) == Some(a) {
      assert AddrLen(a + rest) == AddrLen(a);
      assert a[..|a|] == a;
    }
    if SplitAddr(a) == Some(a) {
      assert AddrLen(a + rest) == AddrLen(a);
      assert (a + rest)[..|a|] == a;
    }
  }

  /** No address is a proper prefix of another. */
  lemma PrefixFree(a: Bytes, b: Bytes, r: Bytes, s: Bytes)
    requires SplitAddr(a) == Some(a) && SplitAddr(b) == Some(b) && a + r == b + s
    ensures a == b && r == s
  {
    SplitSelf(a, r);
    SplitSelf(b, s);
    assert (a + r)[|a|..] == r && (b + s)[|b|..] == s;
  }

  /**
  What `SplitAddr` takes off the front of an encoded destination is exactly that encoding if and
  only if the destination is well formed: a longer domain loses its length, a missing IP address
  its bytes.
  */
  lemma SerializeSplitIff(d: Dest, rest: Bytes)
    requires d.ip.Valid()
    ensures SplitAddr(SerializeAddr(d) + rest) == Some(SerializeAddr(d)) <==> d.WellFormed()
  {
    var a := SerializeAddr(d);
    SplitSelf(a, rest);
    if SplitAddr(a) == Some(a) {
      assert AddrLen(a) == Some(|a|);
    }
    if d.WellFormed() {
      assert AddrLen(a) == Some(|a|);
      assert a[..|a|] == a;
    }
  }

  lemma PortAt(head: Bytes, port: Port, rest: Bytes)
    ensures var b := (head + Be16(port)) + rest;
            && FromBe16(b[|head|], b[|head| + 1]) == port
            && b[|head| + 2..] == rest && b[..|head|] == head
  {
    Be16Value(port);
    var b := (head + Be16(port)) + rest;
    assert b[|head|] == Be16(port)[0] && b[|head| + 1] == Be16(port)[1];
  }

  lemma DomainParses(domain: Bytes, port: Port, rest: Bytes)
    requires 0 < |domain| <= 255
    ensures ParseAddr(([ATYP_DOMAIN, |domain| % 256] + (domain + Be16(port))) + rest) ==
            Some((Dest(domain, NoIp, port), rest))
  {
    var first := [ATYP_DOMAIN, |domain| % 256];
    var b := (first + (domain + Be16(port))) + rest;
    Reassociate(first, domain, Be16(port));
    PortAt(first + domain, port, rest);
    assert AddrLen(b) == Some(|domain| + 4);
    assert b[2..|domain| + 2] == b[..|domain| + 2][2..] == domain;
  }

  lemma IpParses(ip: Ip, port: Port, rest: Bytes)
    requires ip.Valid() && !ip.NoIp?
    ensures ParseAddr(([if ip.V4? then ATYP_IPV4 else ATYP_IPV6] + (ip.bytes + Be16(port))) + rest) ==
            Some((Dest([], ip, port), rest))
  {
    var first := [if ip.V4? then ATYP_IPV4 else ATYP_IPV6];
    var b := (first + (ip.bytes + Be16(port))) + rest;
    Reassociate(first, ip.bytes, Be16(port));
    PortAt(first + ip.bytes, port, rest);
    assert AddrLen(b) == Some(|ip.bytes| + 3);
    assert b[1..|ip.bytes| + 1] == b[..|ip.bytes| + 1][1..] == ip.bytes;
  }

  /** A well-formed destination is decoded to the same target, whatever follows. */
  lemma SerializeParse(d: Dest, rest: Bytes)
    requires d.ip.Valid() && d.WellFormed()
    ensures ParseAddr(SerializeAddr(d) + rest) == Some((d.Target(), rest))
  {
    if d.domain != [] {
      DomainParses(d.domain, d.port, rest);
    } else {
      IpParses(d.ip, d.port, rest);
    }
  }

  /** The encoding in the bytes of section 5 of RFC 1928: type 3 and a length before a domain, type 1 or 4 before an IP. */
  lemma AddressBytes(d: Dest)
    requires d.ip.Valid() && d.WellFormed()
    ensures var port := [d.port / 256, d.port % 256];
            && (d.domain != [] ==> SerializeAddr(d) == [3, |d.domain|] + d.domain + port)
            && (d.domain == [] && d.ip.V4? ==> SerializeAddr(d) == [1] + d.ip.bytes + port)
            && (d.domain == [] && d.ip.V6? ==> SerializeAddr(d) == [4] + d.ip.bytes + port)
  {
    assert Be16(d.port) == [d.port / 256, d.port % 256];
  }

  /** A domain of 256 bytes is announced as empty, and only the first four bytes are taken for the address. */
  lemma LongDomainMisread(port: Port, rest: Bytes)
    ensures var d := Dest(Zeros(256), NoIp, port);
            SplitAddr(SerializeAddr(d) + rest) == Some([ATYP_DOMAIN, 0, 0, 0]) && |SerializeAddr(d)| == 260
  {
    var a := SerializeAddr(Dest(Zeros(256), NoIp, port));
    assert a[..4] == [ATYP_DOMAIN, 0, 0, 0];
    assert (a + rest)[..4] == a[..4];
  }

  // ---------------------------------------------------------------- reading one from a stream

  /** What `ReadAddr` makes of a stream: the address if there is one, and the unread rest. */
  function TakeAddr(s: Bytes): (r: (Option<Bytes>, Bytes)) {
    var a := SplitAddr(s);
    if a.Some? then (a, s[|a.value|..])
    else if s != [] && s[0] !in {ATYP_DOMAIN, ATYP_IPV4, ATYP_IPV6} then (None, s[1..])
    else (None, [])
  }

  /**
  `ReadAddr` agrees with `SplitAddr` on every stream, in what it returns and in how many bytes it
  consumes, and stays inside its buffer.
  */
  method ReadAddr(src: Source, b: array<byte>) returns (n: nat, err: Err)
    modifies src, b
    ensures b.Length < MAX_ADDR_LEN ==> err == Rejected && src.data == old(src.data)
    ensures n <= b.Length
    ensures b.Length >= MAX_ADDR_LEN ==>
              var r := TakeAddr(old(src.data));
              src.data == r.1 && (err == Ok <==> r.0.Some?) && (err == Ok ==> b[..n] == r.0.value)
  {
    n := 0;
    if b.Length < MAX_ADDR_LEN {
      return 0, Rejected;
    }
    ghost var data := src.data;
    var got;
    got, err := src.ReadFull(b, 0, 1);
    if err != Ok {
      return 0, err;
    }
    assert b[0] == b[0..1][0] == data[0];
    if b[0] == ATYP_DOMAIN {
      got, err := src.ReadFull(b, 1, 2);
      if err != Ok {
        return 0, err;
      }
      assert b[1] == b[1..2][0] == data[1] && b[0] == b[..1][0];
      n, err := ReadRest(src, b, 2, 2 + b[1] as int + 2, data);
    } else if b[0] == ATYP_IPV4 {
      n, err := ReadRest(src, b, 1, 1 + 4 + 2, data);
    } else if b[0] == ATYP_IPV6 {
      n, err := ReadRest(src, b, 1, 1 + 16 + 2, data);
    } else {
      err := Rejected;
    }
  }

  /** Reads b[at..len], after the bytes already read. */
  method ReadRest(src: Source, b: array<byte>, at: nat, len: nat, ghost data: Bytes) returns (n: nat, err: Err)
    requires at <= len <= b.Length && at <= |data|
    requires src.data == data[at..] && b[..at] == data[..at]
    modifies src, b
    ensures n == len
    ensures |data| >= len ==> err == Ok && src.data == data[len..] && b[..len] == data[..len]
    ensures |data| < len ==> err != Ok && src.data == []
  {
    var got;
    got, err := src.ReadFull(b, at, len);
    n := len;
    if |data| >= len {
      assert b[..len] == b[..at] + b[at..len];
      assert data[..len] == data[..at] + data[at..][..len - at];
    }
  }

  // ---------------------------------------------------------------- UDP datagrams

  datatype Packet = Packet(addr: Bytes, payload: Bytes)

  function EncodeUDPPacket(addr: Bytes, payload: Bytes): Bytes {
    [0, 0, 0] + (addr + payload)
  }

  function DecodeUDPPacket(p: Bytes): Option<Packet> {
    if |p| < 5 || p[0] != 0 || p[1] != 0 || p[2] != 0 then None
    else
      var a := SplitAddr(p[3..]);
      if a.None? then None else Some(Packet(a.value, p[3 + |a.value|..]))
  }

  /** Decoding undoes encoding exactly for addresses, and only they come out of decoding. */
  lemma UdpRoundTripIff(addr: Bytes, payload: Bytes)
    ensures DecodeUDPPacket(EncodeUDPPacket(addr, payload)) == Some(Packet(addr, payload))
            <==> SplitAddr(addr) == Some(addr)
  {
    var p := EncodeUDPPacket(addr, payload);
    assert p[3..] == addr + payload;
    SplitSelf(addr, payload);
    assert p[3 + |addr|..] == payload;
  }

  /** Encoding undoes decoding on every accepted datagram. */
  lemma UdpDecodeEncode(p: Bytes)
    requires DecodeUDPPacket(p).Some?
    ensures var d := DecodeUDPPacket(p).value;
            EncodeUDPPacket(d.addr, d.payload) == p && SplitAddr(d.addr) == Some(d.addr)
  {
    var d := DecodeUDPPacket(p).value;
    assert p == [0, 0, 0] + p[3..];
    assert p[3..] == d.addr + d.payload;
    SplitSelf(d.addr, d.payload);
  }

  // ---------------------------------------------------------------- conversion to a UDP address

  /** `Addr.Valid`: long enough for its type; a type it does not know needs only four bytes. */
  predicate Valid(a: Bytes) {
    && |a| >= 1 + 1 + 2
    && (a[0] == ATYP_DOMAIN ==> |a| >= 1 + 1 + a[1] as int + 2)
    && (a[0] == ATYP_IPV4 ==> |a| >= 1 + 4 + 2)
    && (a[0] == ATYP_IPV6 ==> |a| >= 1 + 16 + 2)
  }

  /** `Addr.UDPAddr`; an unknown type yields an address without an IP. */
  function UDPAddr(a: Bytes): Option<(Bytes, Port)> {
    if !Valid(a) || a[0] == ATYP_DOMAIN then None
    else if a[0] == ATYP_IPV4 then Some((a[1..5], FromBe16(a[5], a[6])))
    else if a[0] == ATYP_IPV6 then Some((a[1..17], FromBe16(a[17], a[18])))
    else Some(([], 0))
  }

  /** On what `SplitAddr` returns, `UDPAddr` is defined exactly for IP addresses, and is then the parsed one. */
  lemma UDPAddrOfSplit(b: Bytes)
    requires SplitAddr(b).Some?
    ensures ParseAddr(b).Some?
    ensures var d := ParseAddr(b).value.0;
            UDPAddr(SplitAddr(b).value) == if b[0] == ATYP_DOMAIN then None else Some((d.ip.Slice(), d.port))
  {
    var a := SplitAddr(b).value;
    if b[0] == ATYP_IPV4 {
      assert a[1..5] == b[1..5];
    } else if b[0] == ATYP_IPV6 {
      assert a[1..17] == b[1..17];
    }
  }
}
