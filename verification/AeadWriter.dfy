/** `Writer` of transport/shadowsocks/shadowaead/stream.go, on the buffers it seals in place. */
module AeadWriter {
  import opened Bytes
  import opened AeadCipher
  import opened AeadStream
  import opened BufferAllocator
  import opened Net

  /**
  The reads of a whole source: together its bytes; the last is empty unless the last bytes came
  with the end of the stream; and without stalls no other is.
  */
  ghost predicate ReadsOf(data: Bytes, eager: bool, stalls: nat, got: seq<Bytes>) {
    && got != [] && Flatten(got) == data
    && (got[|got| - 1] == [] <==> !eager || data == [])
    && (stalls == 0 ==> [] !in got[..|got| - 1])
  }

  class Writer {
    const aead: Aead
    const sink: Sink
    const alloc: Allocator
    const nonce: array<byte>

    /** The nonce of every seal so far. */
    ghost var nonces: seq<Bytes>
    /** The records emitted so far. */
    ghost var records: seq<Record>
    /** Whether an underlying write has failed. */
    ghost var broken: bool
    /** What the sink had been given before. */
    ghost const start: seq<Bytes>

    /** The k-th seal of the connection used nonce k. */
    ghost predicate NoncesOk()
      reads this, nonce
    {
      && nonce.Length == aead.nonceSize
      && nonce[..] == NonceAt(|nonces|, aead.nonceSize)
      && forall i :: 0 <= i < |nonces| ==> nonces[i] == NonceAt(i, aead.nonceSize)
    }

    /** So no nonce is used twice within the first 256^N seals of a connection. */
    lemma NoncesDistinct(i: nat, j: nat)
      requires NoncesOk() && i < j < |nonces| && j < Pow256(aead.nonceSize)
      ensures nonces[i] != nonces[j]
    {
      NonceDistinct(i, j, aead.nonceSize);
    }

    ghost predicate Fits() {
      aead.Lawful() && 2 + 2 * aead.tag + MAX_PAYLOAD <= BUF_SIZE
    }

    /** The records account for every nonce used and, until a write fails, for the whole wire. */
    ghost predicate Good()
      reads this, nonce, sink
    {
      && Fits() && NoncesOk()
      && |nonces| == SealCount(records)
      && (!broken ==> sink.log == start + Wire(aead, 0, records))
    }

    /** What is on the wire is a prefix of what the records call for. */
    ghost predicate WireIsPrefix()
      reads this, sink
    {
      Flatten(sink.log) <= Flatten(start + Wire(aead, 0, records))
    }

    ghost predicate Valid()
      reads this, nonce, sink, alloc
    {
      && Good()
      && alloc.Valid() && alloc.Exclusive()
      && nonce !in alloc.Pooled() && nonce !in alloc.live
    }

    constructor (sink: Sink, aead: Aead, alloc: Allocator)
      requires aead.Lawful() && 2 + 2 * aead.tag + MAX_PAYLOAD <= BUF_SIZE
      requires alloc.Valid() && alloc.Exclusive()
      ensures Valid() && fresh(nonce) && records == [] && nonces == [] && !broken
      ensures this.sink == sink && this.aead == aead && this.alloc == alloc && start == sink.log
    {
      this.sink, this.aead, this.alloc := sink, aead, alloc;
      nonce := new byte[aead.nonceSize](i => 0);
      nonces, records, broken, start := [], [], false, sink.log;
      new;
      ZeroNonce(aead.nonceSize);
      assert nonce[..] == NonceAt(0, aead.nonceSize);
    }

    /** `Seal(buf[:at], nonce, plain, nil)` followed by `increment(nonce)`. */
    method Seal(buf: array<byte>, at: nat, plain: Bytes)
      requires Fits() && NoncesOk() && buf != nonce
      requires at + |plain| + aead.tag <= buf.Length
      modifies buf, nonce, this`nonces
      ensures NoncesOk() && |nonces| == |old(nonces)| + 1
      ensures buf[..at] == old(buf[..at])
      ensures buf[at..at + |plain| + aead.tag] == aead.seal(NonceAt(|old(nonces)|, aead.nonceSize), plain)
      ensures buf[at + |plain| + aead.tag..] == old(buf[at + |plain| + aead.tag..])
    {
      var c := aead.seal(nonce[..], plain);
      nonces := nonces + [nonce[..]];
      IncrementNonce(|nonces| - 1, aead.nonceSize);
      Increment(nonce);
      CopyIn(buf, at, c);
    }

    /** Writes the size of the payload at the front of the buffer and seals it where it stands. */
    method SealSize(buf: array<byte>, nr: nat)
      requires Fits() && NoncesOk() && buf != nonce
      requires buf.Length >= BUF_SIZE && nr <= MAX_PAYLOAD
      modifies buf, nonce, this`nonces
      ensures NoncesOk() && |nonces| == |old(nonces)| + 1
      ensures buf[..2 + aead.tag] == aead.seal(NonceAt(|old(nonces)|, aead.nonceSize), Be16(nr))
      ensures buf[2 + aead.tag..] == old(buf[2 + aead.tag..])
    {
      buf[0], buf[1] := (nr / 256) % 256, nr % 256;
      assert buf[..2] == Be16(nr);
      Seal(buf, 0, buf[..2]);
    }

    /** Hands one finished record to the underlying writer. */
    method Send(frame: Bytes, ghost r: Record) returns (failed: bool)
      requires |nonces| == SealCount(records) + r.Seals()
      requires frame == Frame(aead, SealCount(records), r)
      requires !broken ==> sink.log == start + Wire(aead, 0, records)
      modifies sink, this`records, this`broken
      ensures records == old(records) + [r] && |nonces| == SealCount(records)
      ensures broken == (old(broken) || failed) && (sink.reliable ==> !failed)
      ensures !broken ==> sink.log == start + Wire(aead, 0, records)
      ensures !old(broken) ==> WireIsPrefix()
    {
      ghost var before := sink.log;
      var n;
      n, failed := sink.Write(frame);
      WireSnoc(aead, records, r);
      assert frame[..|frame|] == frame;
      if !broken {
        FlattenSnoc(before, frame[..n]);
        FlattenSnoc(before, frame);
        assert before + [frame] == start + (Wire(aead, 0, records) + [frame]);
      }
      records := records + [r];
      broken := broken || failed;
    }

    /** Seals a payload behind its sealed size and sends both. */
    method SealAndSend(buf: array<byte>, plain: Bytes) returns (failed: bool)
      requires Fits() && NoncesOk() && buf != nonce && buf.Length >= BUF_SIZE && |plain| <= MAX_PAYLOAD
      requires |nonces| == SealCount(records) + 1
      requires buf[..2 + aead.tag] == aead.seal(NonceAt(SealCount(records), aead.nonceSize), Be16(|plain|))
      requires !broken ==> sink.log == start + Wire(aead, 0, records)
      modifies buf, nonce, sink, this
      ensures Good() && records == old(records) + [Sized(plain)]
      ensures broken == (old(broken) || failed) && (sink.reliable ==> !failed)
      ensures !old(broken) ==> WireIsPrefix()
    {
      var off := 2 + aead.tag;
      var end := off + |plain| + aead.tag;
      Seal(buf, off, plain);
      assert buf[..end] == buf[..off] + buf[off..end];
      failed := Send(buf[..end], Sized(plain));
    }

    /** One iteration of the loop of `Write`. */
    method WriteChunk(buf: array<byte>, chunk: Bytes) returns (failed: bool)
      requires Good() && buf != nonce && buf.Length >= BUF_SIZE && |chunk| <= MAX_PAYLOAD
      modifies buf, nonce, sink, this
      ensures Good() && records == old(records) + [Sized(chunk)]
      ensures broken == (old(broken) || failed) && (sink.reliable ==> !failed)
      ensures !old(broken) ==> WireIsPrefix()
    {
      SealSize(buf, |chunk|);
      failed := SealAndSend(buf, chunk);
    }

    /** One iteration of the loop of `ReadFrom`: the payload already stands in the buffer. */
    method CopyChunk(buf: array<byte>, nr: nat) returns (failed: bool)
      requires Good() && buf != nonce && buf.Length >= BUF_SIZE && nr <= MAX_PAYLOAD
      modifies buf, nonce, sink, this
      ensures Good() && records == old(records) + [Sized(old(buf[2 + aead.tag..2 + aead.tag + nr]))]
      ensures broken == (old(broken) || failed) && (sink.reliable ==> !failed)
      ensures !old(broken) ==> WireIsPrefix()
    {
      var off := 2 + aead.tag;
      assert buf[off..off + nr] == buf[off..][..nr];
      SealSize(buf, nr);
      assert buf[off..off + nr] == buf[off..][..nr];
      failed := SealAndSend(buf, buf[off..off + nr]);
    }

    /** The loop of `Write`, over a borrowed buffer. */
    method WriteChunks(buf: array<byte>, p: Bytes) returns (n: nat, failed: bool, ghost chunks: seq<Bytes>)
      requires Good() && buf != nonce && buf.Length >= BUF_SIZE && p != []
      modifies buf, nonce, sink, this
      ensures Good()
      ensures 0 < n <= |p| && (!failed ==> n == |p|)
      ensures Chunking(chunks, p[..n]) && records == old(records) + AllSized(chunks)
      ensures broken == (old(broken) || failed) && (sink.reliable ==> !failed)
      ensures !old(broken) ==> WireIsPrefix()
    {
      n, failed, chunks := 0, false, [];
      while n < |p| && !failed
        invariant Good() && n <= |p|
        invariant Chunking(chunks, p[..n])
        invariant n < |p| ==> forall i :: 0 <= i < |chunks| ==> |chunks[i]| == MAX_PAYLOAD
        invariant records == old(records) + AllSized(chunks)
        invariant broken == (old(broken) || failed) && (sink.reliable ==> !failed)
        invariant n == 0 ==> !failed
        invariant n > 0 && !old(broken) ==> WireIsPrefix()
        decreases |p| - n
      {
        var nr := if n + MAX_PAYLOAD > |p| then |p| - n else MAX_PAYLOAD;
        failed := WriteChunk(buf, p[n..n + nr]);
        FlattenSnoc(chunks, p[n..n + nr]);
        AllSizedSnoc(chunks, p[n..n + nr]);
        assert p[..n + nr] == p[..n] + p[n..n + nr];
        chunks := chunks + [p[n..n + nr]];
        n := n + nr;
      }
    }

    /** `Write`: an empty argument sends a bare size record, any other its chunks. */
    method Write(p: Bytes) returns (n: nat, failed: bool, ghost chunks: seq<Bytes>)
      requires Valid()
      modifies this, nonce, sink, alloc, alloc.Pooled()
      ensures Valid() && alloc.live == old(alloc.live)
      ensures fresh(alloc.Pooled() - old(alloc.Pooled()))
      ensures n <= |p| && (!failed ==> n == |p|) && (p != [] ==> n > 0)
      ensures Written(p[..n], chunks).Fits()
      ensures records == old(records) + Written(p[..n], chunks).Records()
      ensures broken == (old(broken) || failed) && (sink.reliable ==> !failed)
      ensures !old(broken) ==> WireIsPrefix()
    {
      var buf := alloc.Get(BUF_SIZE);
      if p == [] {
        SealSize(buf, 0);
        n, chunks := 0, [];
        failed := Send(buf[..2 + aead.tag], Bare);
      } else {
        n, failed, chunks := WriteChunks(buf, p);
      }
      var _ := alloc.Put(buf);
    }

    /**
    `ReadFrom`: every read of the source becomes one record, also a read of nothing.  `got` are
    the reads it made; it stops at the first error of either side.
    */
    method ReadFrom(r: Source) returns (n: nat, err: Err, ghost got: seq<Bytes>)
      requires Valid()
      modifies this, nonce, sink, alloc, alloc.Pooled(), r
      ensures Valid() && alloc.live == old(alloc.live)
      ensures fresh(alloc.Pooled() - old(alloc.Pooled()))
      ensures old(r.data) == Flatten(got) + r.data && n == |Flatten(got)|
      ensures forall i :: 0 <= i < |got| ==> |got[i]| <= MAX_PAYLOAD
      ensures records == old(records) + AllSized(got)
      ensures !broken ==> r.data == [] && err == if r.end == Eof then Ok else r.end
      ensures !broken ==> ReadsOf(old(r.data), r.eager, old(r.stalls), got)
      ensures old(broken) ==> broken
      ensures sink.reliable ==> broken == old(broken)
      ensures broken && !old(broken) ==> err != Ok
      ensures !old(broken) ==> WireIsPrefix()
    {
      var buf := alloc.Get(BUF_SIZE);
      n, err, got := CopyLoop(buf, r);
      var _ := alloc.Put(buf);
    }

    /** One read of the source, sealed where it stands. */
    method CopyOnce(buf: array<byte>, r: Source) returns (nr: nat, er: Err, failed: bool)
      requires Good() && buf != nonce && buf.Length >= BUF_SIZE
      modifies buf, nonce, sink, this, r
      ensures Good()
      ensures nr <= |old(r.data)| && nr <= MAX_PAYLOAD && r.data == old(r.data)[nr..]
      ensures records == old(records) + [Sized(old(r.data)[..nr])]
      ensures broken == (old(broken) || failed) && (sink.reliable ==> !failed)
      ensures er != Ok ==> er == r.end && r.data == []
      ensures er == Ok ==> nr > 0 || r.stalls < old(r.stalls)
      ensures nr > 0 ==> (er != Ok <==> r.eager && r.data == [])
      ensures r.stalls <= old(r.stalls)
      ensures !old(broken) ==> WireIsPrefix()
    {
      var off := 2 + aead.tag;
      nr, er := r.Read(buf, off, off + MAX_PAYLOAD);
      failed := CopyChunk(buf, nr);
    }

    method CopyLoop(buf: array<byte>, r: Source) returns (n: nat, err: Err, ghost got: seq<Bytes>)
      requires Good() && buf != nonce && buf.Length >= BUF_SIZE
      modifies buf, nonce, sink, this, r
      ensures Good()
      ensures old(r.data) == Flatten(got) + r.data && n == |Flatten(got)|
      ensures forall i :: 0 <= i < |got| ==> |got[i]| <= MAX_PAYLOAD
      ensures records == old(records) + AllSized(got)
      ensures !broken ==> r.data == [] && err == if r.end == Eof then Ok else r.end
      ensures !broken ==> ReadsOf(old(r.data), r.eager, old(r.stalls), got)
      ensures old(broken) ==> broken
      ensures sink.reliable ==> broken == old(broken)
      ensures broken && !old(broken) ==> err != Ok
      ensures !old(broken) ==> WireIsPrefix()
    {
      n, err, got := 0, Ok, [];
      while true
        invariant Good() && broken == old(broken)
        invariant old(r.data) == Flatten(got) + r.data && n == |Flatten(got)|
        invariant forall i :: 0 <= i < |got| ==> |got[i]| <= MAX_PAYLOAD
        invariant records == old(records) + AllSized(got)
        invariant r.eager && r.data == [] ==> old(r.data) == []
        invariant old(r.stalls) == 0 ==> r.stalls == 0 && [] !in got
        decreases |r.data|, r.stalls
      {
        ghost var data0 := r.data;
        var nr, er, failed := CopyOnce(buf, r);
        ghost var piece := data0[..nr];
        FlattenSnoc(got, piece);
        AllSizedSnoc(got, piece);
        got := got + [piece];
        n := n + nr;
        if failed {
          return n, Broken, got;
        }
        if er != Ok {
          return n, if er != Eof then er else Ok, got;
        }
      }
    }
  }

  lemma WireSnoc(a: Aead, rs: seq<Record>, r: Record)
    ensures Wire(a, 0, rs + [r]) == Wire(a, 0, rs) + [Frame(a, SealCount(rs), r)]
    ensures SealCount(rs + [r]) == SealCount(rs) + r.Seals()
  {
    WireAppend(a, 0, rs, [r], rs + [r], SealCount(rs));
    SealCountAppend(rs, [r]);
    assert Wire(a, SealCount(rs), [r]) == [Frame(a, SealCount(rs), r)];
    assert SealCount([r]) == r.Seals();
  }
}
