/**
UDP over Shadowsocks and SOCKS5, on the buffers the code decrypts and shifts in place
(transport/shadowsocks/shadowaead/packet.go, proxy/shadowsocks/shadowsocks.go, proxy/socks5/socks5.go).
*/
module UdpPackets {
  import opened Bytes
  import opened AeadCipher
  import opened Net
  import opened Shadowsocks
  import opened Socks5Addr

  const MAX_PACKET_SIZE: nat := 64 * 1024

  // ---------------------------------------------------------------- one encrypted packet

  /** The packet format: the salt, then the plaintext sealed under the all-zero nonce. */
  function Sealed(cipher: Cipher, salt: Bytes, plain: Bytes): Bytes {
    salt + cipher.aeadFor(salt).seal(Zeros(cipher.aeadFor(salt).nonceSize), plain)
  }

  /** What a receiver makes of a packet. */
  function Opened(cipher: Cipher, pkt: Bytes): Option<Bytes> {
    if |pkt| < cipher.saltSize then None
    else
      var aead := cipher.aeadFor(pkt[..cipher.saltSize]);
      if |pkt| < cipher.saltSize + aead.tag then None
      else aead.open(Zeros(aead.nonceSize), pkt[cipher.saltSize..])
  }

  lemma OpenSealed(cipher: Cipher, salt: Bytes, plain: Bytes)
    requires cipher.Lawful() && |salt| == cipher.saltSize
    ensures Opened(cipher, Sealed(cipher, salt, plain)) == Some(plain)
  {
    var aead := cipher.aeadFor(salt);
    var c := aead.seal(Zeros(aead.nonceSize), plain);
    assert (salt + c)[..|salt|] == salt && (salt + c)[|salt|..] == c;
  }

  /** `Pack`: the salt and the sealed plaintext into dst, if they fit. */
  method Pack(dst: array<byte>, plain: Bytes, cipher: Cipher, salt: Bytes) returns (n: nat, ok: bool)
    requires cipher.Lawful() && |salt| == cipher.saltSize <= dst.Length
    modifies dst
    ensures ok <==> cipher.saltSize + |plain| + cipher.aeadFor(salt).tag <= dst.Length
    ensures ok ==> n == |Sealed(cipher, salt, plain)| && n <= dst.Length && dst[..n] == Sealed(cipher, salt, plain)
    ensures ok ==> var a := cipher.aeadFor(salt); dst[..n] == salt + a.seal(Zeros(a.nonceSize), plain)
  {
    CopyIn(dst, 0, salt);
    var aead := cipher.aeadFor(dst[..cipher.saltSize]);
    if dst.Length < cipher.saltSize + |plain| + aead.tag {
      return 0, false;
    }
    var c := aead.seal(Zeros(aead.nonceSize), plain);
    CopyIn(dst, cipher.saltSize, c);
    n, ok := cipher.saltSize + |c|, true;
    assert dst[..n] == dst[..cipher.saltSize] + dst[cipher.saltSize..n];
  }

  /** `Unpack(b[saltSize:], b[:n], ...)`: the plaintext replaces the ciphertext it came from. */
  method Unpack(b: array<byte>, n: nat, cipher: Cipher) returns (m: nat, ok: bool)
    requires cipher.Lawful() && n <= b.Length && cipher.saltSize <= b.Length
    modifies b
    ensures var r := Opened(cipher, old(b[..n]));
            && ok == r.Some?
            && (ok ==> m == |r.value| && cipher.saltSize + m <= b.Length
                       && b[cipher.saltSize..cipher.saltSize + m] == r.value)
    ensures n >= cipher.saltSize ==>
              var a := cipher.aeadFor(old(b[..cipher.saltSize]));
              Opened(cipher, old(b[..n])) ==
              if n < cipher.saltSize + a.tag then None else a.open(Zeros(a.nonceSize), old(b[cipher.saltSize..n]))
  {
    m := 0;
    if n >= cipher.saltSize {
      assert b[..n][..cipher.saltSize] == b[..cipher.saltSize] && b[..n][cipher.saltSize..] == b[cipher.saltSize..n];
    }
    if n < cipher.saltSize {
      return 0, false;
    }
    var aead := cipher.aeadFor(b[..cipher.saltSize]);
    assert b[..n][..cipher.saltSize] == b[..cipher.saltSize];
    if n < cipher.saltSize + aead.tag {
      return 0, false;
    }
    assert b[..n][cipher.saltSize..] == b[cipher.saltSize..n];
    var r := aead.open(Zeros(aead.nonceSize), b[cipher.saltSize..n]);
    ok := r.Some?;
    if ok {
      m := |r.value|;
      CopyIn(b, cipher.saltSize, r.value);
    }
  }

  /** What a receive into b delivers of a datagram: as much as fits. */
  method Receive(b: array<byte>, datagram: Bytes) returns (n: nat)
    modifies b
    ensures n == if |datagram| < b.Length then |datagram| else b.Length
    ensures b[..n] == datagram[..n] && b[n..] == old(b[n..])
  {
    n := if |datagram| < b.Length then |datagram| else b.Length;
    CopyIn(b, 0, datagram[..n]);
  }

  /** `shadowaead.PacketConn.ReadFrom`: decrypt in place, then move the plaintext to the front. */
  method ReadPlain(b: array<byte>, datagram: Bytes, cipher: Cipher) returns (m: nat, ok: bool)
    requires cipher.Lawful() && cipher.saltSize <= b.Length
    modifies b
    ensures var n := if |datagram| < b.Length then |datagram| else b.Length;
            var r := Opened(cipher, datagram[..n]);
            ok == r.Some? && (ok ==> m == |r.value| && m <= b.Length && b[..m] == r.value)
  {
    var n := Receive(b, datagram);
    m, ok := Unpack(b, n, cipher);
    if ok {
      CopyIn(b, 0, b[cipher.saltSize..cipher.saltSize + m]);
    }
  }

  // ---------------------------------------------------------------- Shadowsocks datagrams

  /**
  `ssPacketConn.WriteTo` through `PacketConn.WriteTo`: the datagram, or None if it is too large.  The
  count it reports includes the address, so it is more than the caller gave it.
  */
  method SendShadowsocks(dst: Dest, payload: Bytes, cipher: Cipher, salt: Bytes)
    returns (datagram: Option<Bytes>, count: nat)
    requires cipher.Lawful() && |salt| == cipher.saltSize <= MAX_PACKET_SIZE
    ensures datagram.Some? <==> Total(dst, payload, cipher, salt) <= MAX_PACKET_SIZE
    ensures datagram.Some? ==> datagram.value == Sealed(cipher, salt, SerializeAddr(dst) + payload)
    ensures datagram.Some? ==>
              var a := cipher.aeadFor(salt);
              datagram.value == salt + a.seal(Zeros(a.nonceSize), SerializeAddr(dst) + payload)
    ensures count == if datagram.Some? then |SerializeAddr(dst)| + |payload| else 0
  {
    var packet := EncodeUDPPacket(SerializeAddr(dst), payload);
    var buf := new byte[MAX_PACKET_SIZE];
    assert packet[3..] == SerializeAddr(dst) + payload;
    var n, ok := Pack(buf, packet[3..], cipher, salt);
    datagram, count := if ok then Some(buf[..n]) else None, if ok then |packet[3..]| else 0;
  }

  datatype Received = Received(payload: Bytes, ip: Bytes, port: Port)

  /** What `ssPacketConn.ReadFrom` makes of a plaintext. */
  function Unwrap(plain: Bytes): Option<Received> {
    var addr := SplitAddr(plain);
    if addr.None? || UDPAddr(addr.value).None? then None
    else
      var u := UDPAddr(addr.value).value;
      Some(Received(plain[|addr.value|..], u.0, u.1))
  }

  /** `ssPacketConn.ReadFrom`: after decryption the payload is moved down over the address. */
  method ReadShadowsocks(b: array<byte>, datagram: Bytes, cipher: Cipher) returns (r: Option<(nat, Bytes, Port)>)
    requires cipher.Lawful() && cipher.saltSize <= b.Length
    modifies b
    ensures var n := if |datagram| < b.Length then |datagram| else b.Length;
            var plain := Opened(cipher, datagram[..n]);
            && (r.Some? <==> plain.Some? && Unwrap(plain.value).Some?)
            && (r.Some? ==> var u := Unwrap(plain.value).value;
                            && r.value == (|u.payload|, u.ip, u.port)
                            && |u.payload| <= b.Length && b[..|u.payload|] == u.payload)
  {
    var m, ok := ReadPlain(b, datagram, cipher);
    if !ok {
      return None;
    }
    ghost var plain := b[..m];
    var addr := SplitAddr(b[..m]);
    if addr.None? {
      return None;
    }
    var udp := UDPAddr(addr.value);
    if udp.None? {
      return None;
    }
    var k := |addr.value|;
    assert b[k..][..m - k] == plain[k..];
    CopyIn(b, 0, b[k..]);
    assert b[..m - k] == b[0..0 + b.Length - k][..m - k];
    r := Some((m - k, udp.value.0, udp.value.1));
  }

  /**
  A datagram that was sent comes back as the same payload from the same address, if it was sent
  to an IP address; one sent to a domain name is refused by the receiving side.
  */
  lemma ShadowsocksRoundTrip(cipher: Cipher, salt: Bytes, dst: Dest, payload: Bytes)
    requires cipher.Lawful() && |salt| == cipher.saltSize
    requires dst.ip.Valid() && dst.WellFormed()
    ensures var plain := Opened(cipher, Sealed(cipher, salt, SerializeAddr(dst) + payload));
            && plain.Some?
            && Unwrap(plain.value) ==
               if dst.domain == [] then Some(Received(payload, dst.ip.bytes, dst.port)) else None
  {
    var a := SerializeAddr(dst);
    OpenSealed(cipher, salt, a + payload);
    SerializeSplitIff(dst, payload);
    SerializeParse(dst, payload);
    UDPAddrOfSplit(a + payload);
    assert (a + payload)[|a|..] == payload;
  }

  /** The size of an encrypted datagram. */
  function Total(dst: Dest, payload: Bytes, cipher: Cipher, salt: Bytes): nat {
    cipher.saltSize + |SerializeAddr(dst)| + |payload| + cipher.aeadFor(salt).tag
  }

  /** The whole path at buffer level: send, receive into a buffer that holds the datagram, shift twice. */
  method RoundTrip(dst: Dest, payload: Bytes, cipher: Cipher, salt: Bytes, b: array<byte>)
    returns (r: Option<(nat, Bytes, Port)>)
    requires cipher.Lawful() && |salt| == cipher.saltSize <= MAX_PACKET_SIZE && cipher.saltSize <= b.Length
    requires dst.ip.Valid() && dst.WellFormed()
    requires Total(dst, payload, cipher, salt) <= b.Length || Total(dst, payload, cipher, salt) > MAX_PACKET_SIZE
    modifies b
    ensures r.Some? <==> dst.domain == [] && Total(dst, payload, cipher, salt) <= MAX_PACKET_SIZE
    ensures r.Some? ==> r.value == (|payload|, dst.ip.bytes, dst.port)
                        && |payload| <= b.Length && b[..|payload|] == payload
  {
    var datagram, _ := SendShadowsocks(dst, payload, cipher, salt);
    if datagram.None? {
      return None;
    }
    ShadowsocksRoundTrip(cipher, salt, dst, payload);
    assert datagram.value[..|datagram.value|] == datagram.value;
    r := ReadShadowsocks(b, datagram.value, cipher);
  }

  // ---------------------------------------------------------------- SOCKS5 datagrams

  /** `socksPacketConn.WriteTo`: the datagram, which the connection below takes whole. */
  method SendSocks(dst: Dest, payload: Bytes) returns (datagram: Bytes, count: nat)
    ensures datagram == [0, 0, 0] + (SerializeAddr(dst) + payload) && count == 3 + |SerializeAddr(dst)| + |payload|
  {
    datagram := EncodeUDPPacket(SerializeAddr(dst), payload);
    count := |datagram|;
  }

  /** What the caller of `socksPacketConn.ReadFrom` sees: the length, the bytes of that length, the address. */
  datatype SocksRead = SocksRead(length: int, payload: Bytes, ip: Bytes, port: Port)

  /** It decodes the whole buffer, not only the n bytes that arrived. */
  function SocksResult(buf: Bytes, n: nat): Option<SocksRead>
    requires n <= |buf|
  {
    var p := DecodeUDPPacket(buf);
    if p.None? || UDPAddr(p.value.addr).None? then None
    else
      var u := UDPAddr(p.value.addr).value;
      var length := n - |p.value.addr| - 3;
      Some(SocksRead(length, if length < 0 then [] else p.value.payload[..length], u.0, u.1))
  }

  /** `socksPacketConn.ReadFrom`. */
  method ReadSocks(b: array<byte>, datagram: Bytes) returns (r: Option<(int, Bytes, Port)>)
    modifies b
    ensures var n := if |datagram| < b.Length then |datagram| else b.Length;
            var seen := SocksResult(datagram[..n] + old(b[n..]), n);
            && r.Some? == seen.Some?
            && (r.Some? ==> r.value == (seen.value.length, seen.value.ip, seen.value.port)
                            && |seen.value.payload| <= b.Length && b[..|seen.value.payload|] == seen.value.payload)
  {
    var n := Receive(b, datagram);
    assert b[..] == b[..n] + b[n..];
    var p := DecodeUDPPacket(b[..]);
    if p.None? {
      return None;
    }
    var udp := UDPAddr(p.value.addr);
    if udp.None? {
      return None;
    }
    CopyIn(b, 0, p.value.payload);
    var length := n - |p.value.addr| - 3;
    assert length >= 0 ==> b[..length] == b[0..0 + |p.value.payload|][..length];
    r := Some((length, udp.value.0, udp.value.1));
  }

  /** A decoded datagram is decoded the same way with more bytes behind it. */
  lemma DecodeExtends(d: Bytes, stale: Bytes)
    ensures DecodeUDPPacket(d).Some? ==>
              DecodeUDPPacket(d + stale) ==
              Some(Packet(DecodeUDPPacket(d).value.addr, DecodeUDPPacket(d).value.payload + stale))
    ensures DecodeUDPPacket(d + stale).Some? && |d| >= 3 + |DecodeUDPPacket(d + stale).value.addr| ==>
              DecodeUDPPacket(d) ==
              Some(Packet(DecodeUDPPacket(d + stale).value.addr, d[3 + |DecodeUDPPacket(d + stale).value.addr|..]))
  {
    if DecodeUDPPacket(d).Some? {
      UdpDecodeEncode(d);
      var p := DecodeUDPPacket(d).value;
      assert d + stale == EncodeUDPPacket(p.addr, p.payload + stale);
      UdpRoundTripIff(p.addr, p.payload + stale);
    }
    if DecodeUDPPacket(d + stale).Some? && |d| >= 3 + |DecodeUDPPacket(d + stale).value.addr| {
      UdpDecodeEncode(d + stale);
      var a := DecodeUDPPacket(d + stale).value.addr;
      var rest := d[3 + |a|..];
      assert d == EncodeUDPPacket(a, rest) by {
        assert d == (d + stale)[..|d|];
        assert d[..3 + |a|] == [0, 0, 0] + a;
      }
      UdpRoundTripIff(a, rest);
    }
  }

  /** What the code should say about a datagram that fits the buffer. */
  function SocksExpected(d: Bytes): Option<SocksRead> {
    var p := DecodeUDPPacket(d);
    if p.None? || UDPAddr(p.value.addr).None? then None
    else
      var u := UDPAddr(p.value.addr).value;
      Some(SocksRead(|p.value.payload|, p.value.payload, u.0, u.1))
  }

  /**
  The buffer starts with the header of an IP address that fits it, and the datagram of n bytes that
  stands in it ends before that header does.
  */
  predicate HeaderCompleted(buf: Bytes, n: nat) {
    && |buf| >= 4 && buf[..3] == [0, 0, 0] && (buf[3] == ATYP_IPV4 || buf[3] == ATYP_IPV6)
    && var header := 3 + AddrLen(buf[3..]).value; n < header <= |buf|
  }

  lemma DecodedHeader(buf: Bytes, n: nat)
    ensures var p := DecodeUDPPacket(buf);
            HeaderCompleted(buf, n) <==> p.Some? && UDPAddr(p.value.addr).Some? && n < 3 + |p.value.addr|
  {
    var p := DecodeUDPPacket(buf);
    if p.Some? {
      UDPAddrOfSplit(buf[3..]);
      assert buf[..3] == [0, 0, 0];
    }
    if HeaderCompleted(buf, n) {
      assert SplitAddr(buf[3..]).Some?;
      assert buf[0] == buf[..3][0] && buf[1] == buf[..3][1] && buf[2] == buf[..3][2];
      UDPAddrOfSplit(buf[3..]);
    }
  }

  /**
  Bytes left in the buffer from before change what the caller sees exactly when they complete an IP
  address header that the datagram itself does not hold.  The datagram should then be refused, but
  the call succeeds with a negative length.
  */
  lemma StaleBytesIff(d: Bytes, stale: Bytes)
    ensures SocksResult(d + stale, |d|) == SocksExpected(d) <==> !HeaderCompleted(d + stale, |d|)
    ensures HeaderCompleted(d + stale, |d|) ==>
              SocksExpected(d).None? && SocksResult(d + stale, |d|).Some? && SocksResult(d + stale, |d|).value.length < 0
  {
    DecodeExtends(d, stale);
    DecodedHeader(d + stale, |d|);
    var p := DecodeUDPPacket(d + stale);
    if p.Some? && |d| >= 3 + |p.value.addr| {
      UdpDecodeEncode(d + stale);
      assert p.value.payload[..|d| - 3 - |p.value.addr|] == d[3 + |p.value.addr|..];
    }
  }

  /** It happens: three bytes arrive and the buffer still holds the rest of a header. */
  lemma StaleBytesHappen()
    ensures var r := SocksResult([0, 0, 0] + [ATYP_IPV4, 1, 2, 3, 4, 0, 53], 3);
            r.Some? && r.value.length == -7 && SocksExpected([0, 0, 0]).None?
  {
    var d, stale := [0, 0, 0], [ATYP_IPV4, 1, 2, 3, 4, 0, 53];
    assert (d + stale)[..3] == d && (d + stale)[3..] == stale;
    StaleBytesIff(d, stale);
    assert stale[..7] == stale;
    assert SplitAddr(stale) == Some(stale);
  }

  /**
  The whole path at buffer level, whatever the buffer held before: a datagram to an IP address comes
  back with its address, its length and its payload, both as far as the buffer goes; a buffer too
  small for the header, or a domain name, is refused.
  */
  method SocksRoundTrip(dst: Dest, payload: Bytes, b: array<byte>) returns (r: Option<(int, Bytes, Port)>)
    requires dst.ip.Valid() && dst.WellFormed()
    modifies b
    ensures r.Some? <==> dst.domain == [] && 3 + |SerializeAddr(dst)| <= b.Length
    ensures r.Some? ==>
              var room := b.Length - 3 - |SerializeAddr(dst)|;
              var m := if |payload| < room then |payload| else room;
              r.value == (m, dst.ip.bytes, dst.port) && b[..m] == payload[..m]
  {
    var datagram, _ := SendSocks(dst, payload);
    SocksSeen(dst, payload, b[..]);
    r := ReadSocks(b, datagram);
  }

  /** What a receiver with this buffer sees of the datagram. */
  lemma SocksSeen(dst: Dest, payload: Bytes, was: Bytes)
    requires dst.ip.Valid() && dst.WellFormed()
    ensures var a := SerializeAddr(dst);
            var datagram := [0, 0, 0] + (a + payload);
            var n := if |datagram| < |was| then |datagram| else |was|;
            SocksResult(datagram[..n] + was[n..], n) ==
            if dst.domain != [] || n < 3 + |a| then None
            else Some(SocksRead(n - 3 - |a|, payload[..n - 3 - |a|], dst.ip.bytes, dst.port))
  {
    var n := 3 + |SerializeAddr(dst)| + |payload|;
    if |was| <= n {
      SeenFirst(dst, payload, [], |was|);
      assert was[|was|..] == [];
    } else {
      SeenFirst(dst, payload, was[n..], n);
    }
  }

  /** The first n bytes of a datagram with old bytes behind them, if all of it is there. */
  lemma SeenFirst(dst: Dest, payload: Bytes, stale: Bytes, n: nat)
    requires dst.ip.Valid() && dst.WellFormed()
    requires n <= 3 + |SerializeAddr(dst)| + |payload| && (stale == [] || n == 3 + |SerializeAddr(dst)| + |payload|)
    ensures var a := SerializeAddr(dst);
            SocksResult(([0, 0, 0] + (a + payload))[..n] + stale, n) ==
            if dst.domain != [] || n < 3 + |a| then None
            else Some(SocksRead(n - 3 - |a|, payload[..n - 3 - |a|], dst.ip.bytes, dst.port))
  {
    var a := SerializeAddr(dst);
    if n >= 3 + |a| {
      CutPacket(a, payload, stale, n);
      SocksAddress(dst, payload[..n - 3 - |a|], stale);
    } else {
      var first := ([0, 0, 0] + (a + payload))[..n];
      SerializeSplitIff(dst, []);
      assert a + [] == a && first + stale == first;
      CutHeader(a, payload, n);
    }
  }

  lemma CutPacket(a: Bytes, payload: Bytes, stale: Bytes, n: nat)
    requires 3 + |a| <= n <= 3 + |a| + |payload|
    ensures ([0, 0, 0] + (a + payload))[..n] + stale == EncodeUDPPacket(a, payload[..n - 3 - |a|] + stale)
  {
    var first := payload[..n - 3 - |a|];
    assert ([0, 0, 0] + (a + payload))[..n] == [0, 0, 0] + (a + first);
    Reassociate([0, 0, 0], a + first, stale);
    Reassociate(a, first, stale);
  }

  lemma SocksAddress(dst: Dest, payload: Bytes, stale: Bytes)
    requires dst.ip.Valid() && dst.WellFormed()
    ensures var a := SerializeAddr(dst);
            SocksResult(EncodeUDPPacket(a, payload + stale), 3 + |a| + |payload|) ==
            if dst.domain != [] then None else Some(SocksRead(|payload|, payload, dst.ip.bytes, dst.port))
  {
    var a := SerializeAddr(dst);
    SerializeSplitIff(dst, []);
    SerializeParse(dst, []);
    assert a + [] == a;
    UDPAddrOfSplit(a);
    UdpRoundTripIff(a, payload + stale);
    assert (payload + stale)[..|payload|] == payload;
  }

  /** The first part of a header is refused. */
  lemma CutHeader(a: Bytes, payload: Bytes, n: nat)
    requires SplitAddr(a) == Some(a) && n < 3 + |a|
    ensures DecodeUDPPacket(([0, 0, 0] + (a + payload))[..n]).None?
  {
    var d := [0, 0, 0] + (a + payload);
    var buf := d[..n];
    if DecodeUDPPacket(buf).Some? {
      DecodeExtends(buf, d[n..]);
      assert d == buf + d[n..] && d == EncodeUDPPacket(a, payload);
      UdpRoundTripIff(a, payload);
      assert false;
    }
  }
}
