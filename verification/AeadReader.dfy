/** `Reader` of transport/shadowsocks/shadowaead/stream.go, on the buffers it opens in place. */
module AeadReader {
  import opened Bytes
  import opened AeadCipher
  import opened AeadStream
  import opened BufferAllocator
  import opened Net

  /** The error `Reader.read` reports. */
  function ErrOf(reason: Reason, end: EndErr): EndErr {
    match reason
    case Ended => end
    case Cut => ShortErr(1, end)
    case Forged => AuthFailed
    case Zero => ErrZero
  }

  const ErrZero: EndErr := ZeroChunk

  /**
  What a caller sees: the source's own end where it ends at the edge of a block, an unexpected end
  for a clean one inside a block, and errors of its own for a block that does not open and for an
  empty chunk.
  */
  lemma Reported(end: EndErr)
    ensures ErrOf(Ended, end) == end
    ensures ErrOf(Cut, end) == if end == Eof then UnexpectedEof else end
    ensures ErrOf(Forged, end) == AuthFailed && ErrOf(Zero, end) == ZeroChunk
  {
  }

  /** A stream with a block that does not open behind data records: they are delivered, and then it fails. */
  lemma TamperedIsReported(a: Aead, rs: seq<Record>, bad: Bytes, end: EndErr)
    requires a.Lawful()
    requires forall r <- rs :: 0 < |r.Payload()| <= MAX_PAYLOAD
    requires Tampered(a, SealCount(rs), bad)
    ensures var data := Flatten(Wire(a, 0, rs)) + bad;
            Decode(a, 0, data) == Flatten(Payloads(rs)) && ErrOf(Verdict(a, 0, data).0, end) == AuthFailed
  {
    WireFlatten(a, 0, rs);
    TamperedWire(a, 0, rs, bad, WireBytes(a, 0, rs) + bad, SealCount(rs));
  }

  class Reader {
    const aead: Aead
    const src: Source
    const alloc: Allocator
    const nonce: array<byte>

    /** The decrypted chunk being handed out, of length `len`, and how much of it is consumed. */
    var buf: array?<byte>
    var len: nat
    var off: nat

    /** How many nonces have been used. */
    ghost var opens: nat

    ghost predicate NoncesOk()
      reads this, nonce
    {
      nonce.Length == aead.nonceSize && nonce[..] == NonceAt(opens, aead.nonceSize)
    }

    ghost predicate Fits() {
      aead.Lawful() && 2 + 2 * aead.tag + MAX_PAYLOAD <= BUF_SIZE
    }

    /** The buffer it holds is large enough, and its offsets are in bounds. */
    ghost predicate Good()
      reads this, nonce
    {
      && Fits() && NoncesOk()
      && (buf != null ==> off <= len <= buf.Length && BUF_SIZE <= buf.Length && buf != nonce)
    }

    /** The reader owns the buffer it holds. */
    ghost predicate Valid()
      reads this, nonce, alloc
    {
      && Good()
      && alloc.Valid() && alloc.Exclusive()
      && nonce !in alloc.Pooled() && nonce !in alloc.live
      && (buf != null ==> buf in alloc.live)
    }

    /** The bytes already decrypted and not yet handed out. */
    ghost function Pending(): Bytes
      reads this, buf
      requires buf != null ==> off <= len <= buf.Length
    {
      if buf == null then [] else buf[off..len]
    }

    /** It holds no buffer that is used up, so that the next read delivers something. */
    ghost predicate Ready()
      reads this
    {
      buf == null || off < len
    }

    /** What can still be decrypted from the wire. */
    ghost function Rest(): Bytes
      reads this, src
      requires aead.Lawful()
    {
      Decode(aead, opens, src.data)
    }

    constructor (src: Source, aead: Aead, alloc: Allocator)
      requires aead.Lawful() && 2 + 2 * aead.tag + MAX_PAYLOAD <= BUF_SIZE
      requires alloc.Valid() && alloc.Exclusive()
      ensures Valid() && fresh(nonce) && buf == null && opens == 0
      ensures this.src == src && this.aead == aead && this.alloc == alloc
    {
      this.src, this.aead, this.alloc := src, aead, alloc;
      nonce := new byte[aead.nonceSize](i => 0);
      buf, len, off, opens := null, 0, 0, 0;
      new;
      ZeroNonce(aead.nonceSize);
      assert nonce[..] == NonceAt(0, aead.nonceSize);
    }

    /** `Open(p[:0], nonce, p[:n], nil)` followed by `increment(nonce)`. */
    method Open(p: array<byte>, n: nat) returns (ok: bool)
      requires Fits() && NoncesOk() && p != nonce && n <= p.Length
      modifies p, nonce, this`opens
      ensures NoncesOk() && opens == old(opens) + 1
      ensures var r := aead.open(NonceAt(old(opens), aead.nonceSize), old(p[..n]));
              ok == r.Some? && (ok ==> |r.value| <= n && p[..|r.value|] == r.value)
    {
      var r := aead.open(nonce[..], p[..n]);
      IncrementNonce(opens, aead.nonceSize);
      opens := opens + 1;
      Increment(nonce);
      ok := r.Some?;
      if ok {
        CopyIn(p, 0, r.value);
      }
    }

    /** Fills p[..n] from the wire and opens it there. */
    method Fetch(p: array<byte>, n: nat) returns (err: Err)
      requires Fits() && NoncesOk() && p != nonce && aead.tag <= n <= p.Length
      modifies p, nonce, src, this`opens
      ensures NoncesOk()
      ensures |old(src.data)| < n ==> src.data == [] && err == ShortErr(|old(src.data)|, src.end) && opens == old(opens)
      ensures |old(src.data)| >= n ==> src.data == old(src.data)[n..] && opens == old(opens) + 1
      ensures |old(src.data)| >= n ==>
                var r := aead.open(NonceAt(old(opens), aead.nonceSize), old(src.data)[..n]);
                if r.None? then err == AuthFailed
                else err == Ok && |r.value| == n - aead.tag && p[..n - aead.tag] == r.value
    {
      var got;
      got, err := src.ReadFull(p, 0, n);
      if err != Ok {
        return err;
      }
      var ok := Open(p, n);
      err := if ok then Ok else AuthFailed;
    }

    /** `Reader.read`: one chunk into p, which has room for a payload and its tag. */
    method ReadRecord(p: array<byte>) returns (n: nat, err: Err)
      requires Fits() && NoncesOk() && p != nonce && p.Length >= MAX_PAYLOAD + aead.tag
      modifies p, nonce, src, this`opens
      ensures NoncesOk()
      ensures n <= p.Length
      ensures Outcome(ReadChunk(aead, old(opens), old(src.data)), old(opens), p[..n], err)
    {
      ghost var k, data := opens, src.data;
      n := 0;
      err := Fetch(p, 2 + aead.tag);
      if err != Ok {
        return 0, err;
      }
      var size := (256 * p[0] as int + p[1] as int) % 0x4000;
      assert p[..2][0] == p[0] && p[..2][1] == p[1];
      if size == 0 {
        return 0, ZeroChunk;
      }
      err := Fetch(p, size + aead.tag);
      if err == Ok {
        n := size;
      }
    }

    /** What the call that gave `r` leaves behind. */
    ghost predicate Outcome(r: ChunkResult, k: nat, out: Bytes, err: Err)
      reads this, src
    {
      && src.data == r.rest
      && match r
         case Chunk(payload, _) => err == Ok && out == payload && opens == k + 2
         case Stop(reason, _, used) => err == ErrOf(reason, src.end) && out == [] && opens == k + used
    }

    /** The buffers it may write to. */
    ghost function Footprint(): set<array<byte>>
      reads this, alloc
    {
      alloc.Pooled() + if buf == null then {} else {buf}
    }

    /** Why the reader will stop on the rest of the wire. */
    ghost function Fate(): Reason
      reads this, src
      requires aead.Lawful()
    {
      Verdict(aead, opens, src.data).0
    }

    /** What one chunk takes from the rest of the wire. */
    lemma Account(k: nat, data: Bytes, out: Bytes, err: Err)
      requires aead.Lawful() && Outcome(ReadChunk(aead, k, data), k, out, err)
      ensures err == Ok ==> out != [] && out + Rest() == Decode(aead, k, data) && |src.data| < |data|
      ensures err == Ok ==> Fate() == Verdict(aead, k, data).0
      ensures err != Ok ==> out == [] && Decode(aead, k, data) == [] && err == ErrOf(Verdict(aead, k, data).0, src.end)
    {
    }

    /** Decrypts one chunk into a buffer of its own.  On an error that buffer is not given back. */
    method Fill() returns (err: Err)
      requires Valid() && buf == null
      modifies this, nonce, src, alloc, alloc.Pooled()
      ensures Valid()
      ensures fresh(alloc.live - old(alloc.live) - old(alloc.Pooled()))
      ensures alloc.Pooled() <= old(alloc.Pooled())
      ensures err == Ok ==> buf != null && Ready() && (fresh(buf) || buf in old(alloc.Pooled()))
      ensures err == Ok ==> Pending() != [] && Pending() + Rest() == old(Rest()) && Fate() == old(Fate())
      ensures err != Ok ==> buf == null && old(Rest()) == [] && err == ErrOf(old(Fate()), src.end)
    {
      ghost var k, data := opens, src.data;
      var b := alloc.Get(BUF_SIZE);
      var n;
      n, err := ReadRecord(b);
      Account(k, data, b[..n], err);
      if err == Ok {
        buf, len, off := b, n, 0;
        assert b[0..n] == b[..n];
      }
    }

    /** Hands out what fits of the pending bytes and gives the buffer back once it is used up. */
    method HandOut(p: array<byte>) returns (n: nat)
      requires Valid() && buf != null && p != nonce && p != buf
      modifies this`off, this`buf, p, alloc
      ensures Valid()
      ensures alloc.live <= old(alloc.live) && alloc.Pooled() <= old(alloc.Pooled()) + {old(buf)}
      ensures buf == null || buf == old(buf)
      ensures Ready()
      ensures n == if p.Length < |old(Pending())| then p.Length else |old(Pending())|
      ensures p[..n] + Pending() == old(Pending())
    {
      n := if p.Length < len - off then p.Length else len - off;
      CopyIn(p, 0, buf[off..off + n]);
      off := off + n;
      if off == len {
        var _ := alloc.Put(buf);
        buf := null;
      }
    }

    /**
    `Read`: directly into a large enough p, otherwise through the buffer.  Bytes are neither lost,
    repeated nor reordered; an error means that everything decodable has been delivered.
    */
    method Read(p: array<byte>) returns (n: nat, err: Err)
      requires Valid() && p != nonce && p != buf && p !in alloc.Pooled()
      modifies this, nonce, src, p, alloc, Footprint()
      ensures Valid() && n <= p.Length
      ensures p != buf && p !in alloc.Pooled()
      ensures fresh(Footprint() - old(Footprint()))
      ensures err == Ok ==> p[..n] + (Pending() + Rest()) == old(Pending() + Rest()) && Fate() == old(Fate())
      ensures err == Ok ==> Ready() && (p.Length > 0 && old(Ready()) ==> n > 0)
      ensures err != Ok ==> n == 0 && Pending() == [] && old(Pending() + Rest()) == []
      ensures err != Ok ==> err == ErrOf(old(Fate()), src.end)
    {
      err := Ok;
      if buf != null {
        n := ReadHeld(p);
      } else if p.Length >= MAX_PAYLOAD + aead.tag {
        n, err := ReadDirect(p);
      } else {
        n, err := ReadThrough(p);
      }
    }

    /** The part of `Read` that first decrypts a chunk into a buffer of its own. */
    method ReadThrough(p: array<byte>) returns (n: nat, err: Err)
      requires Valid() && buf == null && p != nonce && p !in alloc.Pooled()
      modifies this, nonce, src, p, alloc, alloc.Pooled()
      ensures Valid() && Ready() && n <= p.Length && p != buf && p !in alloc.Pooled()
      ensures fresh(Footprint() - old(Footprint()))
      ensures err == Ok ==> p[..n] + (Pending() + Rest()) == old(Rest()) && Fate() == old(Fate())
      ensures err == Ok && p.Length > 0 ==> n > 0
      ensures err != Ok ==> n == 0 && buf == null && old(Rest()) == [] && err == ErrOf(old(Fate()), src.end)
    {
      err := Fill();
      n := 0;
      if err == Ok {
        n := ReadHeld(p);
      }
    }

    /** The part of `Read` that hands out of the buffer it holds. */
    method ReadHeld(p: array<byte>) returns (n: nat)
      requires Valid() && buf != null && p != nonce && p != buf
      modifies this`off, this`buf, p, alloc
      ensures Valid() && Ready() && n <= p.Length
      ensures alloc.Pooled() <= old(alloc.Pooled()) + {old(buf)} && (buf == null || buf == old(buf))
      ensures p[..n] + (Pending() + Rest()) == old(Pending() + Rest()) && Fate() == old(Fate())
      ensures p.Length > 0 && old(Ready()) ==> n > 0
    {
      n := HandOut(p);
      Reassociate(p[..n], Pending(), Rest());
    }

    /** The direct path of `Read`: p itself is large enough for a chunk and its tag. */
    method ReadDirect(p: array<byte>) returns (n: nat, err: Err)
      requires Good() && buf == null && p != nonce && p.Length >= MAX_PAYLOAD + aead.tag
      modifies this`opens, nonce, src, p
      ensures Good() && n <= p.Length
      ensures err == Ok ==> n > 0 && p[..n] + (Pending() + Rest()) == old(Rest()) && Fate() == old(Fate())
      ensures err != Ok ==> n == 0 && old(Rest()) == [] && err == ErrOf(old(Fate()), src.end)
    {
      ghost var k, data := opens, src.data;
      n, err := ReadRecord(p);
      Account(k, data, p[..n], err);
      assert [] + Rest() == Rest();
    }

    /** The inner loop of `WriteTo`: everything pending goes to w unless a write fails. */
    method Flush(w: Sink) returns (n: nat, failed: bool, ghost out: Bytes)
      requires buf != null && off <= len <= buf.Length
      modifies this`off, w
      ensures off <= len && (!failed ==> off == len) && (w.reliable ==> !failed)
      ensures out + Pending() == old(Pending()) && n == |out|
      ensures w.bytes == old(w.bytes) + out
    {
      n, failed, out := 0, false, [];
      ghost var all := buf[off..len];
      while off < len && !failed
        invariant n <= |all| && off == old(off) + n
        invariant out == all[..n]
        invariant w.bytes == old(w.bytes) + out && (w.reliable ==> !failed)
        decreases len - off, !failed
      {
        var nw;
        nw, failed := w.Write(buf[off..len]);
        assert buf[off..len][..nw] == all[n..n + nw];
        assert all[..n + nw] == all[..n] + all[n..n + nw];
        out := out + all[n..n + nw];
        off, n := off + nw, n + nw;
      }
      assert buf[off..len] == all[n..];
    }

    /** `WriteTo` refills the buffer it holds. */
    method Refill() returns (err: Err)
      requires Good() && buf != null && off == len
      modifies this`len, this`off, this`opens, nonce, src, buf
      ensures Good()
      ensures err == Ok ==> Pending() + Rest() == old(Rest()) && Fate() == old(Fate()) && |src.data| < |old(src.data)|
      ensures err != Ok ==> off == len && old(Rest()) == [] && err == ErrOf(old(Fate()), src.end)
    {
      ghost var k, data := opens, src.data;
      var nr;
      nr, err := ReadRecord(buf);
      Account(k, data, buf[..nr], err);
      if err == Ok {
        len, off := nr, 0;
        assert buf[0..nr] == buf[..nr];
      }
    }

    /** What the reader still has to deliver, and how it will end. */
    ghost predicate Owes(all: Bytes, fate: Reason)
      reads this, src, buf
      requires aead.Lawful() && (buf != null ==> off <= len <= buf.Length)
    {
      Pending() + Rest() == all && Fate() == fate
    }

    /** One round of `WriteTo`: write what is pending, then read the next chunk. */
    method Round(w: Sink, ghost all: Bytes, ghost fate: Reason)
      returns (n: nat, failed: bool, er: Err, ghost out: Bytes, ghost left: Bytes)
      requires Good() && buf != null && Owes(all, fate)
      modifies this`len, this`off, this`opens, nonce, src, w, buf
      ensures Good() && out + left == all && n == |out| && w.bytes == old(w.bytes) + out
      ensures failed || er == Ok ==> Owes(left, fate)
      ensures w.reliable ==> !failed
      ensures !failed && er == Ok ==> |src.data| < |old(src.data)|
      ensures !failed && er != Ok ==> left == [] && off == len && er == ErrOf(fate, src.end)
    {
      ghost var rest := Rest();
      n, failed, out := Flush(w);
      left := Pending() + rest;
      Reassociate(out, Pending(), rest);
      er := Ok;
      if !failed {
        er := Refill();
      }
    }

    /** The loops of `WriteTo`, over the buffer it holds. */
    method CopyLoop(w: Sink, ghost all: Bytes, ghost fate: Reason)
      returns (n: nat, err: Err, stopped: bool, ghost out: Bytes, ghost left: Bytes)
      requires Good() && buf != null && Owes(all, fate)
      modifies this`len, this`off, this`opens, nonce, src, w, buf
      ensures Good() && out + left == all && n == |out| && w.bytes == old(w.bytes) + out
      ensures !stopped ==> err != Ok && Owes(left, fate) && !w.reliable
      ensures stopped ==> left == [] && off == len
      ensures stopped ==> err == if ErrOf(fate, src.end) == Eof then Ok else ErrOf(fate, src.end)
    {
      n, out, left := 0, [], all;
      while true
        invariant Good() && Owes(left, fate)
        invariant out + left == all && n == |out|
        invariant w.bytes == old(w.bytes) + out
        decreases |src.data|
      {
        ghost var more, before := [], left;
        var nw, failed, er;
        nw, failed, er, more, left := Round(w, left, fate);
        Reassociate(out, more, left);
        Reassociate(old(w.bytes), out, more);
        n, out := n + nw, out + more;
        if failed {
          return n, Broken, false, out, left;
        }
        if er != Ok {
          return n, if er != Eof then er else Ok, true, out, left;
        }
      }
    }

    /**
    `WriteTo`: copies until a write fails or reading stops.  If reading stopped, everything
    decodable has been written; otherwise what was not written is still pending.
    */
    method WriteTo(w: Sink) returns (n: nat, err: Err, stopped: bool, ghost out: Bytes)
      requires Valid()
      modifies this, nonce, src, w, alloc, Footprint()
      ensures Valid()
      ensures fresh(Footprint() - old(Footprint()))
      ensures n == |out| && w.bytes == old(w.bytes) + out
      ensures w.reliable ==> stopped
      ensures !stopped ==> Ready()
      ensures !stopped ==> err != Ok && out + (Pending() + Rest()) == old(Pending() + Rest()) && Fate() == old(Fate())
      ensures stopped ==> Pending() == [] && out == old(Pending() + Rest())
      ensures stopped ==> var e := ErrOf(old(Fate()), src.end); err == if e == Eof then Ok else e
    {
      BorrowBuffer();
      ghost var left;
      n, err, stopped, out, left := CopyLoop(w, Pending() + Rest(), Fate());
      if !stopped {
        ReturnBuffer();
      }
    }

    /** `WriteTo` starts from an empty buffer if none is held. */
    method BorrowBuffer()
      requires Valid()
      modifies this`buf, this`len, this`off, alloc
      ensures Valid() && buf != null && Pending() == old(Pending())
      ensures fresh(Footprint() - old(Footprint()))
    {
      if buf == null {
        buf := alloc.Get(BUF_SIZE);
        len, off := BUF_SIZE, BUF_SIZE;
      }
    }

    /** After a failed write, a buffer that is used up goes back to its pool. */
    method ReturnBuffer()
      requires Valid() && buf != null
      modifies this`buf, alloc
      ensures Valid() && Ready() && Pending() == old(Pending())
      ensures Footprint() <= old(Footprint())
    {
      if off == len {
        var _ := alloc.Put(buf);
        buf := null;
      }
    }
  }
}
