# Verified models of tun2socks protocols

tun2socks turns IP traffic into proxied connections. Most of it is glue around a network stack and
sockets, but it also holds hand-written wire formats and small state machines. This project models
those in Dafny and proves what they promise over every chunking, every interleaving and every byte
stream. `dafny verify dfyconfig.toml` checks the whole project.

## What is modelled

| file | part of the system |
|---|---|
| `Bytes.dfy`, `Net.dfy` | byte strings; what `io.Reader`, `io.Writer`, `io.ReadFull` and `copy` promise, with arbitrary short reads, stalls and failing writes |
| `Allocator.dfy` | the power-of-two buffer allocator and who owns a buffer |
| `Aead.dfy`, `AeadStream.dfy`, `AeadWriter.dfy`, `AeadReader.dfy`, `AeadSession.dfy` | the Shadowsocks AEAD stream (SIP004): nonce counter, chunk format, writer and reader on their buffers, whole runs |
| `ClientHello.dfy`, `TlsObfs.dfy` | the TLS obfuscation: ClientHello builder against an independent parser, record layer in both directions |
| `Shadowsocks.dfy` | both layers together, against a reference server |
| `StreamCipher.dfy` | stream-cipher connections |
| `Socks5Addr.dfy`, `Socks5Handshake.dfy`, `Socks4.dfy` | SOCKS5 addresses, datagrams and handshake with a server of RFC 1928 and RFC 1929; SOCKS4A requests with a server |
| `UdpPackets.dfy` | UDP datagrams of Shadowsocks and SOCKS5, decrypted and shifted in place |
| `Relay.dfy` | the relay connection |
| `TrafficStats.dfy`, `UdpSession.dfy` | the traffic counters and the UDP copy loops, one atomic action per step |
| `NetStats.dfy` | the JSON printer of the network statistics against an independent parser |

Ciphers are abstract. An AEAD is any pair of functions for which sealing adds the tag, opening
undoes sealing and opening removes the tag (`Aead.Lawful`, inhabited by `PaddingAead`). A stream
cipher is any byte-wise step function with an inverse that moves through the same states. Salts,
initial vectors, random bytes and the clock are parameters.

Each stateful object of the source is a class with its fields; its methods are proved against
functions over byte strings, and the theorems are about those functions. Methods named `Pipe`,
`Drain`, `DialAndSend`, `ReadBack`, `ReadReplies`, `ReadMany`, `BothModes`, `RoundTrip` and
`SocksRoundTrip` run the classes through arbitrary sequences of calls. Their environment is described
by their arguments: whether writes can fail, how a source ends, whether its last bytes come with that
end, how often it stalls, where a wire is cut.

## Where the code does less than one might expect

These are proved as exact conditions. The last name in each item, where there are two, is a lemma
that shows the bad case at a concrete input.

- AEAD stream: an empty `Write`, or a read of zero bytes in `ReadFrom`, ends the reader's stream. A
  session arrives completely if and only if no data follows an empty piece; for sources that do not
  stall, if and only if no data follows an empty `Write` or a `ReadFrom` whose source ends with a
  separate EOF or is empty (`AeadSession.Pipe`, `DataIsLost`).
- AEAD stream: a connection that closes at the edge of a sealed block, also between a size and its
  payload, is taken for a clean end; inside a block the end is reported as unexpected (`CutWire`,
  `TruncationUnnoticed`).
- ClientHello: it parses back if and only if its total length fits 16 bits and the server name is
  not empty (`HelloRoundTripIff`).
- SOCKS5 addresses: `SplitAddr` takes an encoded destination off again if and only if the domain has
  at most 255 bytes, or there is an IP address (`SerializeSplitIff`, `LongDomainMisread`).
- SOCKS5 datagrams: `ReadFrom` decodes the whole buffer; stale bytes change what the caller sees if
  and only if they complete an IP address header that the datagram does not hold. The call then
  succeeds with a negative length (`StaleBytesIff`, `StaleBytesHappen`).
- SOCKS5 handshake: the client accepts method 0 after offering only method 2, and ignores two
  version bytes (`SuccessIff`, `SkipsAuthentication`).
- SOCKS4A: all fields are recovered if and only if the user id and the host, where sent, hold no NUL
  (`RequestParsesIff`, `NulInUserId`).
- Traffic counters: bytes added between a tick's load and its store of 0 are never shown. The shown
  speeds add up to the total if and only if there were none (`SpeedsAddUpIff`, `LossHappens`).
- UDP session: a deadline can move back, because the clock is read before the deadline is set. It
  does if and only if the setter was overtaken by the other loop (`MovesBackIff`,
  `DeadlineGoesBack`).
- UDP session: a loop can time out while its connection was active less than the timeout ago if and
  only if the last set of its deadline had been overtaken (`EarlyTimeoutIff`, `TimesOutEarly`).
- Stream ciphers: `Read` drops bytes that arrive together with an error. A run that ends with a `Read`
  is complete if and only if the source does not end that way or there was nothing to read
  (`StreamCipher.Pipe`).
- Network statistics: the output is JSON if and only if in every map the last listed key has a
  counter or none has (`PrintsJsonIff`, `TrailingComma`). The map type is gVisor's and not part of
  this model; restapi/netstats.go guards against a missing counter at line 79, and for a map that
  never drops a listed key the output is always JSON (`FullIsComplete`).

Three smaller observations: the TLS reader hides a stream that ends inside the length of a record
(`TlsObfs.Conn.ReadHeader`), `Reader.Read` does not give its buffer back when decryption fails
(`AeadReader.Reader.Fill`), and the `n` that `Writer.Write` returns counts the chunk whose write
failed (`AeadWriter.Writer.Write`).

## Model

| member | source | states |
|---|---|---|
| Bytes.FirstByteDecides | transport/socks4/socks4.go:72 | 16-bit fields are in network order, the first byte counting most |
| AeadCipher.Increment | transport/shadowsocks/shadowaead/stream.go:199-207 | the loop on the array leaves what the carry rule says, for every length |
| AeadCipher.IncrementIsSuccessor | transport/shadowsocks/shadowaead/stream.go:199-207 | it adds one modulo 256^N to the little-endian value |
| AeadCipher.IncrementNonce | transport/shadowsocks/shadowaead/stream.go:199-207 | from the nonce of seal k it makes the nonce of seal k+1, wrap-around included |
| AeadCipher.NonceRepeats | transport/shadowsocks/shadowaead/stream.go:199-207 | two seals share a nonce if and only if their numbers agree modulo 256^N |
| AeadStream.ReadFrame | transport/shadowsocks/shadowaead/stream.go:106-137 | a data record is read back as its payload, whatever follows |
| AeadStream.ReadZero | transport/shadowsocks/shadowaead/stream.go:121-125 | a zero size stops the reader after one nonce |
| AeadStream.ReadChunkExtend | transport/shadowsocks/shadowaead/stream.go:106-137 | more input never changes a complete chunk |
| AeadStream.DecodePrefix | transport/shadowsocks/shadowaead/stream.go:106-137 | any cut-off stream decodes to a prefix of what the whole stream gives |
| AeadStream.DecodeWire | transport/shadowsocks/shadowaead/stream.go:31-62 | a complete wire gives the payloads before the first empty record, then stops for the expected reason at the expected nonce |
| AeadStream.NonceAgreement | transport/shadowsocks/shadowaead/stream.go:106-137 | at the end of a wire of data records the reader has used as many nonces as the records |
| AeadStream.SessionDecodes | transport/shadowsocks/shadowaead/stream.go:31-92 | any mix of `Write` and `ReadFrom` decodes to the bytes before the first empty piece, and stops there for that reason, or else at the end |
| AeadStream.SessionCompleteIff | transport/shadowsocks/shadowaead/stream.go:31-92 | it decodes to everything if and only if no data follows an empty piece |
| AeadStream.SessionPrefix | transport/shadowsocks/shadowaead/stream.go:31-92 | wherever the wire is cut, what decodes is a prefix of what was written |
| AeadStream.CutWire | transport/shadowsocks/shadowaead/stream.go:106-137 | of any first part of a wire the complete chunks are delivered, and a cut is noticed if and only if it is strictly inside a sealed block; at the edge of one, also between a size and its payload, it counts as the end |
| AeadStream.SessionCut | transport/shadowsocks/shadowaead/stream.go:31-137 | the same in terms of the pieces of a session |
| AeadStream.TruncationUnnoticed | transport/shadowsocks/shadowaead/stream.go:127-130 | a payload lost as a whole behind its size looks like a clean end |
| AeadStream.TamperedWire | transport/shadowsocks/shadowaead/stream.go:115-136 | a block that does not open ends the stream right behind the data records before it |
| AeadStream.WireIsSeals | transport/shadowsocks/shadowaead/stream.go:31-84 | there is nothing on the wire but seals under consecutive nonces: the size of each record and its payload |
| AeadReader.Reported | transport/shadowsocks/shadowaead/stream.go:111-136 | the source's own end at the edge of a block, an unexpected end inside one, and errors of its own for a block that does not open and for an empty chunk |
| AeadReader.TamperedIsReported | transport/shadowsocks/shadowaead/stream.go:115-136 | data records before a block that does not open are delivered, and then authentication fails |
| AeadWriter.Writer.constructor | transport/shadowsocks/shadowaead/stream.go:21-28 | a new writer starts at nonce zero |
| AeadWriter.Writer.NoncesDistinct | transport/shadowsocks/shadowaead/stream.go:31-62 | no two of the first 256^N seals of a connection use the same nonce |
| AeadWriter.Writer.Seal | transport/shadowsocks/shadowaead/stream.go:55-58 | the ciphertext lands at its offset, nothing else in the buffer changes, the nonce moves on by one |
| AeadWriter.Writer.CopyChunk | transport/shadowsocks/shadowaead/stream.go:74-84 | sealing the size in front of a payload that stands in the buffer leaves the payload intact, and both fit |
| AeadWriter.Writer.WriteChunks | transport/shadowsocks/shadowaead/stream.go:48-61 | the argument goes out as full chunks and a last one, in order, up to the first failing write |
| AeadWriter.Writer.Write | transport/shadowsocks/shadowaead/stream.go:31-62 | adds exactly the records of its argument, keeps the wire equal to the records' bytes, and gives its buffer back |
| AeadWriter.Writer.ReadFrom | transport/shadowsocks/shadowaead/stream.go:67-92 | every read becomes one record, also an empty one; the reads make up the source, the last is empty unless the last bytes came with the end, and without stalls no other is |
| AeadReader.Reader.Open | transport/shadowsocks/shadowaead/stream.go:115-119 | opens in place and moves the nonce on by one, on failure too |
| AeadReader.Reader.ReadRecord | transport/shadowsocks/shadowaead/stream.go:106-137 | does what `ReadChunk` says: payload, unread rest, nonces used and error in every case |
| AeadReader.Reader.Fill | transport/shadowsocks/shadowaead/stream.go:145-151 | moves one chunk from the wire to the pending bytes |
| AeadReader.Reader.HandOut | transport/shadowsocks/shadowaead/stream.go:154-160 | splits the pending bytes between caller and buffer, which is returned once used up |
| AeadReader.Reader.ReadDirect | transport/shadowsocks/shadowaead/stream.go:141-144 | a large enough caller buffer receives a chunk directly |
| AeadReader.Reader.Read | transport/shadowsocks/shadowaead/stream.go:140-161 | into any buffer that is not pooled or its own: delivered plus pending plus decodable bytes stay the same, something is delivered, and an error means all was delivered, and tells why |
| AeadReader.Reader.CopyLoop | transport/shadowsocks/shadowaead/stream.go:172-196 | the loops lose nothing when a write fails and have written everything when reading stops |
| AeadReader.Reader.WriteTo | transport/shadowsocks/shadowaead/stream.go:166-197 | the same conservation on the buffer shared with `Read`, whose ownership is kept |
| AeadSession.Send | transport/shadowsocks/shadowaead/stream.go:31-92 | any inputs to a writer become pieces whose bytes are a prefix of the input, all of it unless a write fails: one for each `Write`, one for each read of a `ReadFrom` |
| AeadSession.SteadyPieces | transport/shadowsocks/shadowaead/stream.go:31-92 | for sources that do not stall, what stands before the first empty piece, and whether there is one, is told by the inputs alone |
| AeadSession.UpToEndIff | transport/shadowsocks/shadowaead/stream.go:31-92 | that is everything if and only if no data follows an input that leaves an empty record |
| AeadSession.Drain | transport/shadowsocks/shadowaead/stream.go:140-197 | any plan of `Read` calls, also into the allocator's buffers, and `WriteTo` calls delivers a prefix, and all once an error is reported; enough reads or one `WriteTo` that does not fail do report one |
| AeadSession.Pipe | transport/shadowsocks/shadowaead/stream.go:31-197 | writer, cut wire and reader together: output is a prefix of the input; uncut and read to the end it is the pieces before the first empty one, the reader reports that one as a zero chunk, and both are functions of the inputs if no source stalls; cut, it is the complete chunks, and the end is unexpected if and only if the cut is strictly inside a sealed block |
| AeadSession.DataIsLost | transport/shadowsocks/shadowaead/stream.go:31-92 | data after an empty `Write`, or after a `ReadFrom` of an ordinary source, does not arrive |
| AeadSession.ReadInStep | transport/shadowsocks/shadowaead/stream.go:106-137 | after every data record of a writer's wire the reader has used the nonces of just these seals and holds the nonce of the next |
| BufferAllocator.Msb | buffer/allocator/allocator.go:57-60 | the power of two at the result is the largest not above the size |
| BufferAllocator.ClassIsLeast | buffer/allocator/allocator.go:32-43 | no smaller power of two fits the request |
| BufferAllocator.PowerIff | buffer/allocator/allocator.go:47-51 | the guard of `Put` accepts exactly the powers of two up to 65536 |
| BufferAllocator.Allocator.constructor | buffer/allocator/allocator.go:19-29 | seventeen empty pools |
| BufferAllocator.Allocator.Get | buffer/allocator/allocator.go:32-43 | nil outside 1..65536; otherwise a buffer of at least the size and less than twice it that nobody else holds |
| BufferAllocator.Allocator.Put | buffer/allocator/allocator.go:47-55 | pool k keeps only buffers of capacity 2^k; ownership stays exclusive unless the buffer was pooled already |
| ClientHello.MakeClientHello | transport/simple-obfs/tls.go:121-197 | the appends build the message `Hello` describes |
| ClientHello.BlocksAreValid | transport/simple-obfs/tls.go:149-194 | the constant parts have exact inner and outer lengths |
| ClientHello.HelloParses | transport/simple-obfs/tls.go:121-197 | if the lengths fit, every nested length is exact and parsing returns the data as ticket, the server as host name, the time and random bytes, the session id and the suites |
| ClientHello.HelloRoundTripIff | transport/simple-obfs/tls.go:121-197 | it parses back if and only if the total fits 16 bits and the server name is not empty |
| TlsObfs.Conn.WriteChunk | transport/simple-obfs/tls.go:94-109 | the first chunk goes into a ClientHello, every other into a record |
| TlsObfs.Conn.Write | transport/simple-obfs/tls.go:78-92 | the wire grows by chunks of 16384 bytes and a last one that make up the argument |
| TlsObfs.StripWire | transport/simple-obfs/tls.go:78-109 | a server that takes the ticket and strips the records gets the concatenated chunks |
| TlsObfs.StripNameless | transport/simple-obfs/tls.go:169-175 | without a server name a strict server gets nothing |
| TlsObfs.Conn.ReadHeader | transport/simple-obfs/tls.go:27-52 | header, length and payload: delivered and undelivered payload bytes stay the same in every error case; a stream that ends in the length is not reported |
| TlsObfs.Conn.Read | transport/simple-obfs/tls.go:54-76 | the same for every call, with `remain` the unread part of the record; a stream that ends between records gives its own end, one that ends in a header an unexpected one |
| TlsObfs.UnreadStream | transport/simple-obfs/tls.go:66-76 | on a server stream with its 105-byte preamble the deliverable bytes are the concatenated payloads |
| TlsObfs.UnreadPrefix | transport/simple-obfs/tls.go:27-76 | a cut-off stream yields a prefix |
| TlsObfs.ReadReplies | transport/simple-obfs/tls.go:27-76 | reads of any sizes return a prefix of the payloads, and all of them with the source's own end at the end of the stream, which enough reads reach |
| Shadowsocks.Conn.InitWriter | transport/shadowsocks/shadowaead/stream.go:252-267 | the salt goes out first and fixes the cipher |
| Shadowsocks.Conn.Write | transport/shadowsocks/shadowaead/stream.go:269-276 | the first write sets up the writer, later ones use it; the writes so far are what the wire encrypts |
| Shadowsocks.StackRecovers | proxy/shadowsocks/shadowsocks.go:56-66 | however the TLS layer cuts the AEAD layer's calls, the reference server recovers the plaintext |
| Shadowsocks.DialAndSend | proxy/shadowsocks/shadowsocks.go:45-67 | the server recovers the destination followed by all writes if and only if a server name is set and no data follows an empty write |
| Shadowsocks.Receive | transport/shadowsocks/shadowaead/stream.go:219-250 | the salt is taken off first and fixes the cipher; then any plan of reads delivers a prefix of the decryption, and all of it with the reason at the end |
| Shadowsocks.ReadBack | transport/shadowsocks/shadowaead/stream.go:219-250 | through both layers, from any first part of a server's records: a prefix of the server's plaintext; from the whole, read to its end, all of it if and only if no data follows an empty piece |
| StreamCipher.RunSnoc | transport/shadowsocks/shadowstream/stream.go:21-91 | each byte is put through the cipher in the state the bytes before it have led to |
| StreamCipher.RunCiphers | transport/shadowsocks/shadowstream/stream.go:21-91 | so byte i of the output is byte i of the input under the state after i bytes |
| StreamCipher.RunAppend | transport/shadowsocks/shadowstream/stream.go:21-51 | state and output do not depend on where the input is cut |
| StreamCipher.RunInverse | transport/shadowsocks/shadowstream/stream.go:62-91 | decryption gives the plaintext back and ends in the encrypter's state |
| StreamCipher.Writer.Write | transport/shadowsocks/shadowstream/stream.go:21-32 | as many calls below as there are blocks of 2048 bytes; the wire is the encryption of all that was written |
| StreamCipher.Writer.ReadFrom | transport/shadowsocks/shadowstream/stream.go:34-51 | the same, encrypted in place, until the source ends |
| StreamCipher.Reader.Read | transport/shadowsocks/shadowstream/stream.go:62-69 | delivered plus decryptable bytes stay the same; what came with an error is dropped |
| StreamCipher.Reader.WriteTo | transport/shadowsocks/shadowstream/stream.go:71-91 | writes everything decryptable unless a write fails, and then a prefix; having written everything it is in the final state |
| StreamCipher.Transmit | transport/shadowsocks/shadowstream/stream.go:135-181 | the wire is the initial vector and then, byte for byte, the cipher applied to the inputs, or a prefix of it |
| StreamCipher.Receive | transport/shadowsocks/shadowstream/stream.go:106-133 | the initial vector is taken off first; then any plan of reads delivers, byte for byte, the cipher applied to what follows, and enough of them all of it under an exact condition |
| StreamCipher.Pipe | transport/shadowsocks/shadowstream/stream.go:21-91 | all splits on both sides give the same bytes and end in the same cipher state; ending with a `Read`, exactly unless the source hands over its last bytes with an error, ending with a `WriteTo` whenever that does not fail |
| Socks5Addr.SplitSelf | transport/socks5/socks5.go:291-317 | whether bytes are an address does not depend on what follows them |
| Socks5Addr.PrefixFree | transport/socks5/socks5.go:291-317 | no address is a proper prefix of another |
| Socks5Addr.SerializeSplitIff | transport/socks5/socks5.go:319-337 | an encoded destination is split off whole if and only if it is well formed |
| Socks5Addr.LongDomainMisread | transport/socks5/socks5.go:319-337 | of a 256-byte domain only four bytes are taken for the address |
| Socks5Addr.SerializeParse | transport/socks5/socks5.go:319-337 | a peer decodes the same host and port, the domain taking precedence |
| Socks5Addr.AddressBytes | transport/socks5/socks5.go:319-337 | the encoding in the literal bytes of section 5 of RFC 1928 |
| Socks5Addr.ReadAddr | transport/socks5/socks5.go:261-289 | agrees with `SplitAddr` on every stream in result and bytes consumed, inside its buffer |
| Socks5Addr.UdpRoundTripIff | transport/socks5/socks5.go:370-417 | decoding undoes encoding if and only if the address is one |
| Socks5Addr.UdpDecodeEncode | transport/socks5/socks5.go:370-417 | encoding undoes decoding on every accepted datagram |
| Socks5Addr.UDPAddrOfSplit | transport/socks5/socks5.go:143-163 | on split addresses it is defined exactly for IP addresses, and right |
| Socks5Handshake.ClientHandshake | transport/socks5/socks5.go:172-259 | what is sent, what is left unread and the result are those of `Client`, on every stream; if a write fails, the messages before it and a part of its own were sent and two bytes read for each before it |
| Socks5Handshake.CutOffGuarded | transport/socks5/socks5.go:196-222 | the guard on the credentials holds for such a run too |
| Socks5Handshake.SkipsAuthentication | transport/socks5/socks5.go:196-226 | a server that was offered only method 2 can choose method 0 and never see credentials |
| Socks5Handshake.SuccessShape | transport/socks5/socks5.go:182-258 | a success has sent greeting, credentials if asked, request, and consumed 2 (+2) + 3 bytes and the address |
| Socks5Handshake.CredentialsGuarded | transport/socks5/socks5.go:196-222 | credentials are sent only if a user is set, the server chose method 2 and both lengths are in 1..255 |
| Socks5Handshake.SuccessIff | transport/socks5/socks5.go:192-258 | the exact streams on which it succeeds |
| Socks5Handshake.MessageBytes | transport/socks5/socks5.go:172-242 | the three messages in the literal bytes of RFC 1928 and RFC 1929 |
| Socks5Handshake.FailureReasons | transport/socks5/socks5.go:192-258 | which reply leads to which failure, in literal bytes |
| Socks5Handshake.ClosedLoop | transport/socks5/socks5.go:172-259 | with a server that has answered everything sent, it succeeds if and only if the two are compatible, and the server decodes the same command and target |
| Socks5Handshake.LoopCloses | transport/socks5/socks5.go:172-259 | every compatible pair has such an exchange |
| UdpPackets.Pack | transport/shadowsocks/shadowaead/packet.go:20-35 | the salt and the plaintext sealed under the all-zero nonce at their places, or refused exactly when they do not fit |
| UdpPackets.Unpack | transport/shadowsocks/shadowaead/packet.go:39-57 | the plaintext replaces the ciphertext in place; every malformed packet is refused |
| UdpPackets.ReadPlain | transport/shadowsocks/shadowaead/packet.go:84-95 | after the copy-down the buffer starts with the plaintext |
| UdpPackets.SendShadowsocks | proxy/shadowsocks/shadowsocks.go:90-102 | the datagram seals address and payload, and the reported count includes the address; refused exactly above 64 KiB |
| UdpPackets.ReadShadowsocks | proxy/shadowsocks/shadowsocks.go:104-122 | after the second copy-down the buffer starts with the payload; length and address are right |
| UdpPackets.ShadowsocksRoundTrip | proxy/shadowsocks/shadowsocks.go:90-122 | payload and address come back for IP destinations, domain names are refused |
| UdpPackets.RoundTrip | proxy/shadowsocks/shadowsocks.go:90-122 | the same through all buffers and shifts |
| UdpPackets.SendSocks | proxy/socks5/socks5.go:157-169 | the datagram is the header, the address and the payload, and the count is all of it |
| UdpPackets.ReadSocks | proxy/socks5/socks5.go:171-190 | what it returns and leaves in the buffer, in terms of the whole buffer |
| UdpPackets.StaleBytesIff | proxy/socks5/socks5.go:171-190 | length, payload and address are those of the datagram alone if and only if stale bytes do not complete its IP address header; if they do, the call succeeds with a negative length |
| UdpPackets.StaleBytesHappen | proxy/socks5/socks5.go:171-190 | three bytes before the rest of an old header give the length -7 |
| UdpPackets.SocksRoundTrip | proxy/socks5/socks5.go:157-190 | whatever the buffer held, a datagram to an IP address comes back with its address, length and payload as far as the buffer goes; domain names and too small buffers are refused |
| Relay.Conn.constructor | proxy/relay/relay.go:92-115 | the request is sent at once without delay and kept for the first write otherwise |
| Relay.Conn.Write | proxy/relay/relay.go:186-227 | the wire is the request, once and first, and then the writes, plain in stream mode and framed in datagram mode; oversized datagrams change nothing |
| Relay.BothModes | proxy/relay/relay.go:92-115 | the same writes on a lazy and a no-delay connection: the request once and first in both, then the plain or framed writes, and the same bytes if and only if a write was accepted |
| Relay.FramesAgree | proxy/relay/relay.go:204-227 | the writer's framing is what the reader takes apart |
| Relay.StreamIsPlain | proxy/relay/relay.go:193-202 | in stream mode the writes go out as they are |
| Relay.Conn.ReadDatagram | proxy/relay/relay.go:163-179 | consumes exactly one framed datagram, also when the buffer truncates it |
| Relay.Conn.Read | proxy/relay/relay.go:149-180 | the response is dealt with once, before the first bytes of the lazy mode, in stream and datagram mode |
| Relay.Conn.ReadMany | proxy/relay/relay.go:149-180 | reads of any sizes, from the first of a lazy connection on, return the datagrams in order, each cut to its buffer, and never slip |
| TrafficStats.StepKeepsInv | tunnel/statistic/manager.go:42-88 | every atomic step keeps the books of both directions |
| TrafficStats.Conservation | tunnel/statistic/manager.go:79-88 | after every interleaving: published + waiting + lost - not cleared = total + on its way; lost is what came late; the total is that of all trackers |
| TrafficStats.SpeedsAddUpIff | tunnel/statistic/manager.go:79-88 | the published speeds add up to the total if and only if nothing came late |
| TrafficStats.LatePushIsLost | tunnel/statistic/manager.go:79-88 | one tick among any other steps publishes exactly what it loaded, leaves it on display, and loses exactly what was added between its load and its clearing store; then the other direction is served |
| TrafficStats.SpeedShown | tunnel/statistic/manager.go:52-54 | after every run the speed shown is what the direction's last store took from temp, and 0 before the first |
| TrafficStats.LossHappens | tunnel/statistic/manager.go:79-88 | a run that loses all of its traffic |
| TrafficStats.TotalsGrow | tunnel/statistic/tracker.go:57-76 | no step lowers a total, and closing a tracker changes none |
| TrafficStats.RunLists | tunnel/statistic/manager.go:34-60 | after every run the map holds a tracker if and only if it was joined and not closed since |
| TrafficStats.SnapshotCovers | tunnel/statistic/manager.go:56-68 | whatever happens between its loads, each total of a snapshot covers what the connections in it and those already gone had moved |
| UdpSession.StepKeepsInv | tunnel/udp.go:61-115 | every step of either loop keeps delivery and clock invariants |
| UdpSession.Delivery | tunnel/udp.go:68-115 | after every run what was written to a side, with what its loop holds, is the in-order unmodified sequence of exactly the results taken from the other side that are no errors and, from the remote side, carry no address or the peer's |
| UdpSession.PicksExactly | tunnel/udp.go:104-115 | the filter lets through exactly these |
| UdpSession.RoundRefreshes | tunnel/udp.go:72-87 | one undisturbed round passes its datagram on and sets both deadlines from now |
| UdpSession.OnlySetsArm | tunnel/udp.go:72-87 | only the reading loop's call before its read and the writing loop's call after its write move a deadline; dropped datagrams do not |
| UdpSession.ReadsUnderDeadline | tunnel/udp.go:72-74 | no loop ever reads without a deadline, so it can always time out |
| UdpSession.MovesBackIff | tunnel/udp.go:72-87 | a deadline moves back if and only if its setter was overtaken |
| UdpSession.DeadlineGoesBack | tunnel/udp.go:72-87 | a run in which it does |
| UdpSession.SetUpToDateIff | tunnel/udp.go:72-87 | a set leaves the deadline at the latest clock reading if and only if its setter was not overtaken |
| UdpSession.DeadlineIsLatestIff | tunnel/udp.go:72-87 | after every run a deadline stands for the latest activity if and only if its last set was not overtaken |
| UdpSession.EarlyTimeoutIff | tunnel/udp.go:72-87 | after every run a loop can time out before its connection has been idle for the timeout if and only if it is reading, that last set was overtaken and there was activity within the timeout |
| UdpSession.TimeoutIsIdle | tunnel/udp.go:72-87 | a timeout whose deadline's last set was not overtaken comes only when all recorded activity is at least the timeout old |
| UdpSession.TimesOutEarly | tunnel/udp.go:72-87 | a run that times out early, for every timeout |
| NetStats.EncodeToJSON | restapi/netstats.go:63-96 | the recursive appends print what `Render` describes |
| NetStats.EncodeMap | restapi/netstats.go:76-88 | the loop over a map, with a missing key printing nothing |
| NetStats.KeysParse | restapi/netstats.go:76-88 | a map with a counter in it parses to its entries exactly if the last listed key has one |
| NetStats.StatParses | restapi/netstats.go:63-96 | any printed value, nested anywhere, parses to its meaning or not at all |
| NetStats.PrintsJsonIff | restapi/netstats.go:63-96 | the output parses to the statistics if every map is complete at its end, and is not JSON otherwise |
| NetStats.PrintedMap | restapi/netstats.go:76-88 | a map as it is printed, character by character |
| NetStats.TrailingComma | restapi/netstats.go:76-88 | a map whose last key has no counter prints a comma before its brace |
| NetStats.FullIsComplete | restapi/netstats.go:76-88 | maps with a counter for every listed key are fine |
| Socks4.BuildRequest | transport/socks4/socks4.go:68-80 | the appends build the request |
| Socks4.RequestParsesIff | transport/socks4/socks4.go:68-80 | a SOCKS4A server recovers all fields and consumes exactly the request if and only if no NUL is in the way |
| Socks4.RequestBytes | transport/socks4/socks4.go:68-80 | the request in the literal bytes of socks4a.txt |
| Socks4.ReservedIffMarked | transport/socks4/socks4.go:116-119 | the client's test, inside 0.0.0.0/24 and not unspecified, is the mark a SOCKS4A server looks for |
| Socks4.HostNameSent | transport/socks4/socks4.go:57-80 | the server learns the host's text exactly for host names and the literals 0.0.0.x, and the address otherwise |
| Socks4.NulInUserId | transport/socks4/socks4.go:68-80 | a NUL in the user id splits the request |
| Socks4.ClientHandshake | transport/socks4/socks4.go:44-107 | nothing is sent for an unsupported command or address; otherwise one request, or a part of it if the write fails, and eight bytes are read: granted by 0 and 90 alone, with a reason for every other reply |

## Left out

- The directories core, dialer, engine, log, dns and main.go: the network stack, devices, socket options, start-up and logging are calls into libraries.
- HTTP CONNECT, SSH, direct and reject proxies, the REST server and URL parsing: input and output plumbing.
- tunnel/tcp.go and the tunnel's dispatch loop: the copying is done by the standard library.
- shadowstream/packet.go and the HTTP obfuscation: the same patterns as the modelled ones, only easier.
- Cipher internals, key derivation and randomness: abstract, see above.
- `ParseAddr` and `ParseAddrString`: they depend on library formatting of IP addresses; destinations are taken as parsed.
- The relay request and response encodings come from another library: the request is any non-empty byte string, the response any function that says how many bytes it takes.
- What a reader does after its first error, wrap-around of 64-bit counters, and `ResetStatistic` racing with pushes.
- ClientHello.MakeClientHello: the bytes are a value; that the source returns a slice of a pooled buffer it has already given back is not captured.
- Shadowsocks.DialAndSend: runs the AEAD layer first and then feeds its calls to the TLS layer in the same order, because the two classes cannot share an interface here; the hello's lengths must fit 16 bits.
- Shadowsocks.ReadBack: reads the TLS layer first and gives its bytes to the AEAD layer, for the same reason.
- AeadSession.Pipe: for a source that stalls, which reads come back empty is the source's choice, and the result is stated over the reads it made.
- TrafficStats.SnapshotCovers: takes the walk over the map as one instant, while `sync.Map.Range` meets each key at its own.
- TrafficStats.Conservation: sizes are never negative and totals unbounded.
- Socks4.ClientHandshake: the text of host and port is taken as split and the host as parsed by the library.
