/**
The Shadowsocks TCP client stack: the AEAD connection over the TLS obfuscation
(proxy/shadowsocks/shadowsocks.go, transport/shadowsocks/shadowaead/stream.go), against a
reference server that undoes both layers.
*/
module Shadowsocks {
  import opened Bytes
  import opened AeadCipher
  import opened AeadStream
  import opened AeadWriter
  import opened AeadReader
  import opened AeadSession
  import opened BufferAllocator
  import opened ClientHello
  import Tls = TlsObfs
  import opened Net
  import opened Socks5Addr

  /** A cipher derives the connection's AEAD from the salt. */
  datatype Cipher = Cipher(saltSize: nat, aeadFor: Bytes -> Aead)
  {
    ghost predicate Lawful() {
      forall salt {:trigger aeadFor(salt)} ::
        aeadFor(salt).Lawful() && 2 + 2 * aeadFor(salt).tag + MAX_PAYLOAD <= BUF_SIZE
    }
  }

  /** The sending half of `shadowaead.Conn`; its writer appears with the first write. */
  class Conn {
    const sink: Sink
    const cipher: Cipher
    const alloc: Allocator
    var w: Writer?

    /** The salt in use and everything written since, while no write has failed. */
    ghost var salt: Bytes
    ghost var pieces: seq<Piece>
    ghost var written: seq<Bytes>
    ghost var broken: bool

    ghost predicate Valid()
      reads this, sink, alloc, w, if w == null then {} else {w.nonce}
    {
      && cipher.Lawful() && alloc.Valid() && alloc.Exclusive()
      && (w == null && !broken ==> sink.log == [] && written == [])
      && (w != null ==>
            && w.sink == sink && w.alloc == alloc && w.aead == cipher.aeadFor(salt) && w.start == [salt]
            && |salt| == cipher.saltSize
            && w.Valid()
            && (!broken ==> !w.broken && HasSent(w, pieces, Flatten(written)) && BytesOf(pieces) == written))
    }

    /** The writer and its nonce, as a frame. */
    ghost function Own(): set<object>
      reads this
    {
      if w == null then {} else {w, w.nonce}
    }

    constructor (sink: Sink, cipher: Cipher, alloc: Allocator)
      requires sink.log == [] && cipher.Lawful() && alloc.Valid() && alloc.Exclusive()
      ensures Valid() && w == null && !broken && written == []
      ensures this.sink == sink && this.cipher == cipher && this.alloc == alloc
    {
      this.sink, this.cipher, this.alloc, w := sink, cipher, alloc, null;
      salt, pieces, written, broken := [], [], [], false;
    }

    /** `initWriter`: the salt goes out in clear, then the writer is set up. */
    method InitWriter(newSalt: Bytes) returns (failed: bool)
      requires Valid() && w == null && !broken && |newSalt| == cipher.saltSize
      modifies this, sink
      ensures Valid() && broken == failed && alloc.Pooled() == old(alloc.Pooled()) && (sink.reliable ==> !failed)
      ensures failed ==> w == null
      ensures !failed ==> w != null && fresh(w) && fresh(w.nonce) && salt == newSalt && written == []
    {
      var n;
      n, failed := sink.Write(newSalt);
      assert newSalt[..|newSalt|] == newSalt;
      if failed {
        broken := true;
        return;
      }
      salt, pieces, written := newSalt, [], [];
      w := new Writer(sink, cipher.aeadFor(newSalt), alloc);
      assert [salt] + [] == [salt];
    }

    /** `Write` once the writer is there. */
    method WriteOn(b: Bytes) returns (failed: bool)
      requires Valid() && !broken && w != null
      modifies this, sink, alloc, w, w.nonce, alloc.Pooled()
      ensures Valid() && broken == failed && fresh(alloc.Pooled() - old(alloc.Pooled()))
      ensures w == old(w) && salt == old(salt) && (sink.reliable ==> !failed)
      ensures !failed ==> written == old(written) + [b]
    {
      ghost var more;
      failed, more := FeedBytes(w, b, pieces, Flatten(written));
      FlattenSnoc(written, b);
      pieces, written := more, written + [b];
      broken := failed;
    }

    /** `Write`. */
    method Write(b: Bytes, newSalt: Bytes) returns (failed: bool)
      requires Valid() && !broken && |newSalt| == cipher.saltSize
      modifies this, sink, alloc, alloc.Pooled(), Own()
      ensures Valid() && broken == failed && fresh(Own() - old(Own())) && fresh(alloc.Pooled() - old(alloc.Pooled()))
      ensures !failed ==> w != null && written == old(written) + [b]
      ensures !failed ==> salt == if old(w) == null then newSalt else old(salt)
      ensures sink.reliable ==> !failed
    {
      if w == null {
        failed := InitWriter(newSalt);
        if failed {
          return;
        }
      }
      failed := WriteOn(b);
    }

    /** A sequence of `Write` calls, up to the first that fails. */
    method WriteAll(writes: seq<Bytes>) returns (failed: bool)
      requires Valid() && !broken && w != null
      modifies this, sink, alloc, w, w.nonce, alloc.Pooled()
      ensures Valid() && broken == failed
      ensures w == old(w) && salt == old(salt) && (sink.reliable ==> !failed)
      ensures !failed ==> written == old(written) + writes
    {
      failed := false;
      var i := 0;
      while i < |writes| && !failed
        invariant i <= |writes| && Valid() && broken == failed
        invariant fresh(alloc.Pooled() - old(alloc.Pooled()))
        invariant w == old(w) && salt == old(salt) && (sink.reliable ==> !failed)
        invariant !failed ==> written == old(written) + writes[..i]
        decreases |writes| - i
      {
        failed := WriteOn(writes[i]);
        Reassociate(old(written), writes[..i], [writes[i]]);
        assert writes[..i + 1] == writes[..i] + [writes[i]];
        i := i + 1;
      }
      assert !failed ==> writes[..i] == writes;
    }
  }

  // ---------------------------------------------------------------- the reference server

  /** Undoes the obfuscation, takes off the salt and opens the chunks in order. */
  function Recover(cipher: Cipher, wire: Bytes): Option<Bytes>
    requires cipher.Lawful()
  {
    var inner := Tls.Strip(wire);
    if inner.None? || |inner.value| < cipher.saltSize then None
    else Some(Decode(cipher.aeadFor(inner.value[..cipher.saltSize]), 0, inner.value[cipher.saltSize..]))
  }

  lemma FirstPart(parts: seq<Bytes>)
    requires parts != []
    ensures |parts[0]| <= |Flatten(parts)|
  {
  }

  /**
  Whatever way the TLS layer cuts the calls of the AEAD layer, the server recovers the plaintext
  before the first empty piece.
  */
  lemma StackRecovers(cipher: Cipher, salt: Bytes, pieces: seq<Piece>, k: Blocks, server: Bytes, e: Entropy,
                      chunks: seq<Bytes>)
    requires cipher.Lawful() && |salt| == cipher.saltSize
    requires forall p <- pieces :: p.Fits()
    requires ValidBlocks(k) && e.Valid() && server != []
    requires forall i :: 0 <= i < |chunks| ==> |chunks[i]| < 0x1_0000
    requires chunks != [] ==> 212 + |chunks[0]| + |server| < 0x1_0000
    requires Flatten(chunks) == salt + Flatten(Wire(cipher.aeadFor(salt), 0, RecordsOf(pieces)))
    ensures Recover(cipher, Tls.TlsWire(k, server, e, chunks)) == Some(UpToEmpty(BytesOf(pieces)))
  {
    var wire := Flatten(Wire(cipher.aeadFor(salt), 0, RecordsOf(pieces)));
    Tls.StripWire(k, server, e, chunks);
    TakeDrop(salt, wire, salt + wire);
    SessionDecodes(cipher.aeadFor(salt), 0, pieces);
  }

  // ---------------------------------------------------------------- the client

  /** The AEAD layer: the destination first, then the writes; `calls` are its underlying writes. */
  method Encrypt(dst: Dest, writes: seq<Bytes>, cipher: Cipher, alloc: Allocator, salt: Bytes, reliable: bool)
    returns (calls: seq<Bytes>, failed: bool, ghost pieces: seq<Piece>)
    requires cipher.Lawful() && |salt| == cipher.saltSize
    requires alloc.Valid() && alloc.Exclusive()
    modifies alloc, alloc.Pooled()
    ensures !failed ==> calls == [salt] + Wire(cipher.aeadFor(salt), 0, RecordsOf(pieces))
    ensures !failed ==> BytesOf(pieces) == [SerializeAddr(dst)] + writes && forall p <- pieces :: p.Fits()
    ensures reliable ==> !failed
  {
    var sink := new Sink(reliable);
    var c := new Conn(sink, cipher, alloc);
    pieces, calls := [], [];
    failed := c.Write(SerializeAddr(dst), salt);
    if !failed {
      failed := c.WriteAll(writes);
    }
    if !failed {
      calls, pieces := sink.log, c.pieces;
    }
  }

  /** The obfuscation layer, fed the calls of the layer above; `chunks` is how it cuts them. */
  method Obfuscate(calls: seq<Bytes>, k: Blocks, server: Bytes, e: Entropy, reliable: bool)
    returns (wire: Bytes, failed: bool, ghost chunks: seq<Bytes>)
    requires calls != [] && calls[0] != []
    ensures !failed ==> wire == Tls.TlsWire(k, server, e, chunks) && Flatten(chunks) == Flatten(calls)
    ensures forall i :: 0 <= i < |chunks| ==> 0 < |chunks[i]| <= Tls.CHUNK_SIZE
    ensures !failed ==> chunks != [] && |chunks[0]| <= |calls[0]|
    ensures reliable ==> !failed
  {
    var src := new Source([], Eof, false, 0);
    var sink := new Sink(reliable);
    var c := new Tls.Conn(src, sink, server, k);
    ghost var more;
    var n;
    n, failed, chunks := c.Write(calls[0], e);
    assert [] + chunks == chunks;
    if !failed {
      FirstPart(chunks);
      failed, more := c.WriteAll(calls[1..], e);
      FlattenAppend(chunks, more);
      chunks := c.chunks;
    }
    wire := sink.bytes;
  }

  /**
  A whole client: dial, send the destination, then the writes, with every byte passing both
  layers.  If no write fails, the server recovers the destination followed by all the writes
  exactly when a server name is configured and no data follows an empty write.
  */
  method DialAndSend(dst: Dest, writes: seq<Bytes>, cipher: Cipher, alloc: Allocator, salt: Bytes, k: Blocks,
                     server: Bytes, e: Entropy, reliable: bool)
    returns (wire: Bytes, failed: bool)
    requires ValidBlocks(k)
    requires cipher.Lawful() && |salt| == cipher.saltSize > 0
    requires alloc.Valid() && alloc.Exclusive()
    requires e.Valid() && 212 + cipher.saltSize + |server| < 0x1_0000
    modifies alloc, alloc.Pooled()
    ensures reliable ==> !failed
    ensures !failed && server != [] ==> Recover(cipher, wire) == Some(UpToEmpty([SerializeAddr(dst)] + writes))
    ensures !failed ==> (Recover(cipher, wire) == Some(SerializeAddr(dst) + Flatten(writes))
                         <==> server != [] && NoDataAfterEmpty(writes))
  {
    var calls;
    ghost var pieces, chunks;
    wire := [];
    calls, failed, pieces := Encrypt(dst, writes, cipher, alloc, salt, reliable);
    if failed {
      return;
    }
    wire, failed, chunks := Obfuscate(calls, k, server, e, reliable);
    if !failed {
      if server == [] {
        Tls.StripNameless(k, e, chunks);
      } else {
        assert Flatten(calls) == salt + Flatten(Wire(cipher.aeadFor(salt), 0, RecordsOf(pieces)));
        StackRecovers(cipher, salt, pieces, k, server, e, chunks);
        FirstThenWrites(SerializeAddr(dst), writes);
      }
    }
  }

  lemma FirstThenWrites(a: Bytes, writes: seq<Bytes>)
    requires a != []
    ensures UpToEmpty([a] + writes) == a + Flatten(writes) <==> NoDataAfterEmpty(writes)
  {
    assert ([a] + writes)[1..] == writes;
    UpToEmptyIff(writes);
  }

  // ---------------------------------------------------------------- the way back

  /** `initReader` and then a plan of reads on some bytes. */
  method Receive(cipher: Cipher, alloc: Allocator, data: Bytes, plan: seq<Op>, end: EndErr, eager: bool, stalls: nat)
    returns (out: Bytes, err: Err)
    requires cipher.Lawful() && alloc.Valid() && alloc.Exclusive()
    modifies alloc, alloc.Pooled()
    ensures |data| < cipher.saltSize ==> out == [] && err == ShortErr(|data|, end)
    ensures |data| >= cipher.saltSize ==>
              var aead, c := cipher.aeadFor(data[..cipher.saltSize]), data[cipher.saltSize..];
              && out <= Decode(aead, 0, c) && (Exhausts(plan, |Decode(aead, 0, c)|) ==> err != Ok)
              && (err != Ok ==> out == Decode(aead, 0, c) && err == ErrOf(Verdict(aead, 0, c).0, end))
  {
    var src := new Source(data, end, eager, stalls);
    var salt := new byte[cipher.saltSize];
    var got;
    got, err := src.ReadFull(salt, 0, cipher.saltSize);
    if err != Ok {
      return [], err;
    }
    assert salt[..] == salt[0..cipher.saltSize] == data[..cipher.saltSize];
    var r := new Reader(src, cipher.aeadFor(salt[..]), alloc);
    assert [] + r.Rest() == r.Rest();
    out, err := Drain(r, plan, r.Rest(), r.Fate());
  }

  /**
  A whole reading client: TLS reads of any sizes on a server's stream or any first part of it, and
  any plan of reads above.  What comes out is a prefix of the server's plaintext; from the whole
  stream, read to its end on both layers, it is what stands before the first empty piece, and
  enough reads do get to the end.
  */
  method ReadBack(cipher: Cipher, alloc: Allocator, data: Bytes, k: Blocks, server: Bytes, sizes: seq<nat>,
                  plan: seq<Op>, ghost salt: Bytes, ghost pieces: seq<Piece>, ghost rs: seq<Tls.Reply>)
    returns (out: Bytes, below: Err, err: Err)
    requires cipher.Lawful() && |salt| == cipher.saltSize && alloc.Valid() && alloc.Exclusive()
    requires forall p <- pieces :: p.Fits()
    requires Tls.WellFormedReplies(true, rs)
    requires Tls.ReplyPayload(rs) == salt + Flatten(Wire(cipher.aeadFor(salt), 0, RecordsOf(pieces)))
    requires data <= Tls.ReplyBytes(rs)
    modifies alloc, alloc.Pooled()
    ensures out <= Flatten(BytesOf(pieces))
    ensures |sizes| > |data| && (forall i :: 0 <= i < |sizes| ==> sizes[i] > 0) ==> below != Ok
    ensures Exhausts(plan, |Flatten(BytesOf(pieces))|) ==> err != Ok
    ensures data == Tls.ReplyBytes(rs) && below != Ok && err != Ok ==>
              && out == UpToEmpty(BytesOf(pieces))
              && (out == Flatten(BytesOf(pieces)) <==> NoDataAfterEmpty(BytesOf(pieces)))
  {
    var src := new Source(data, Eof, false, 0);
    var sink := new Sink(true);
    var c := new Tls.Conn(src, sink, server, k);
    var inner;
    inner, below := Tls.ReadReplies(c, sizes, rs);
    CutStream(cipher, salt, pieces, inner);
    out, err := Receive(cipher, alloc, inner, plan, Eof, false, 0);
  }

  /** What decodes from the first bytes of a salted AEAD stream, or from all of it. */
  lemma CutStream(cipher: Cipher, salt: Bytes, pieces: seq<Piece>, inner: Bytes)
    requires cipher.Lawful() && |salt| == cipher.saltSize
    requires forall p <- pieces :: p.Fits()
    requires inner <= salt + Flatten(Wire(cipher.aeadFor(salt), 0, RecordsOf(pieces)))
    ensures |inner| >= cipher.saltSize ==>
              && inner[..cipher.saltSize] == salt
              && Decode(cipher.aeadFor(salt), 0, inner[cipher.saltSize..]) <= Flatten(BytesOf(pieces))
    ensures inner == salt + Flatten(Wire(cipher.aeadFor(salt), 0, RecordsOf(pieces))) ==>
              && Decode(cipher.aeadFor(salt), 0, inner[cipher.saltSize..]) == UpToEmpty(BytesOf(pieces))
              && (UpToEmpty(BytesOf(pieces)) == Flatten(BytesOf(pieces)) <==> NoDataAfterEmpty(BytesOf(pieces)))
  {
    var wire := Flatten(Wire(cipher.aeadFor(salt), 0, RecordsOf(pieces)));
    if |inner| >= |salt| {
      var cut := |inner| - |salt|;
      assert inner == (salt + wire)[..|inner|] == salt + wire[..cut];
      TakeDrop(salt, wire[..cut], inner);
      SessionPrefix(cipher.aeadFor(salt), 0, pieces, cut);
    }
    if inner == salt + wire {
      TakeDrop(salt, wire, inner);
      SessionDecodes(cipher.aeadFor(salt), 0, pieces);
      UpToEmptyIff(BytesOf(pieces));
    }
  }
}
