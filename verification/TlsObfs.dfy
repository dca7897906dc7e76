/** The simple-obfs TLS record layer (transport/simple-obfs/tls.go). */
module TlsObfs {
  import opened Bytes
  import opened ClientHello
  import opened Net

  const CHUNK_SIZE: nat := 16384

  // ---------------------------------------------------------------- what is written

  function RecordOf(b: Bytes): Bytes {
    [0x17, 0x03, 0x03] + (Be16(|b|) + b)
  }

  function RecordsOf(cs: seq<Bytes>): Bytes {
    if cs == [] then [] else RecordOf(cs[0]) + RecordsOf(cs[1..])
  }

  /** The wire after the chunks `cs`: the first travels in the ClientHello, the others in records. */
  function TlsWire(k: Blocks, server: Bytes, e: Entropy, cs: seq<Bytes>): Bytes {
    if cs == [] then [] else Hello(k, cs[0], server, e) + RecordsOf(cs[1..])
  }

  lemma {:induction false} RecordsSnoc(cs: seq<Bytes>, c: Bytes)
    ensures RecordsOf(cs + [c]) == RecordsOf(cs) + RecordOf(c)
  {
    if cs == [] {
      assert cs + [c] == [c];
      assert RecordsOf([c][1..]) == [];
    } else {
      assert (cs + [c])[1..] == cs[1..] + [c];
      RecordsSnoc(cs[1..], c);
      Reassociate(RecordOf(cs[0]), RecordsOf(cs[1..]), RecordOf(c));
    }
  }

  lemma SameWire(k: Blocks, server: Bytes, e: Entropy, f: Entropy, cs: seq<Bytes>)
    requires cs == [] || e == f
    ensures TlsWire(k, server, e, cs) == TlsWire(k, server, f, cs)
  {
  }

  lemma WireSnoc(k: Blocks, server: Bytes, e: Entropy, cs: seq<Bytes>, c: Bytes)
    ensures TlsWire(k, server, e, cs + [c]) ==
            TlsWire(k, server, e, cs) + if cs == [] then Hello(k, c, server, e) else RecordOf(c)
  {
    if cs == [] {
      assert cs + [c] == [c];
      assert RecordsOf([c][1..]) == [];
    } else {
      assert (cs + [c])[1..] == cs[1..] + [c];
      RecordsSnoc(cs[1..], c);
      Reassociate(Hello(k, cs[0], server, e), RecordsOf(cs[1..]), RecordOf(c));
    }
  }

  /** The first n of these chunks are full. */
  ghost predicate FullChunks(cs: seq<Bytes>, n: int) {
    n <= |cs| && forall i :: 0 <= i < n ==> |cs[i]| == 16384
  }

  lemma FullSnoc(cs: seq<Bytes>, c: Bytes)
    requires FullChunks(cs, |cs|)
    ensures FullChunks(cs + [c], |cs|) && (|c| == 16384 ==> FullChunks(cs + [c], |cs| + 1))
  {
  }

  lemma NextChunk(b: Bytes, i: nat, end: nat, cut: seq<Bytes>)
    requires i <= end <= |b| && Flatten(cut) == b[..i] && FullChunks(cut, |cut|)
    ensures Flatten(cut + [b[i..end]]) == b[..end]
    ensures FullChunks(cut + [b[i..end]], |cut|) && (end == i + 16384 ==> FullChunks(cut + [b[i..end]], |cut| + 1))
  {
    FlattenSnoc(cut, b[i..end]);
    FullSnoc(cut, b[i..end]);
    assert b[..end] == b[..i] + b[i..end];
  }

  // ---------------------------------------------------------------- a server that undoes it

  /** The payloads of a sequence of application data records, or None if it is malformed. */
  function StripRecords(b: Bytes): Option<Bytes>
    decreases |b|
  {
    if b == [] then Some([])
    else if |b| < 5 || b[0] != 0x17 || b[1] != 3 || b[2] != 3 then None
    else
      var v := Vector16(b[3..]);
      if v.None? then None
      else
        var more := StripRecords(v.value.1);
        if more.None? then None else Some(v.value.0 + more.value)
  }

  /** The session ticket of the ClientHello followed by the payloads of the records. */
  function Strip(b: Bytes): Option<Bytes> {
    if b == [] then Some([])
    else
      var hello := ParseHello(b);
      if hello.None? then None
      else
        var more := StripRecords(hello.value.1);
        if more.None? then None else Some(hello.value.0.extras.ticket + more.value)
  }

  lemma StripNext(b: Bytes, payload: Bytes, rest: Bytes)
    requires |b| >= 5 && b[0] == 0x17 && b[1] == 3 && b[2] == 3
    requires Vector16(b[3..]) == Some((payload, rest))
    ensures StripRecords(b) ==
            var more := StripRecords(rest);
            if more.None? then None else Some(payload + more.value)
  {
  }

  lemma StripRecord(c: Bytes, rest: Bytes)
    requires |c| < 0x1_0000
    ensures StripRecords(RecordOf(c) + rest) ==
            var more := StripRecords(rest);
            if more.None? then None else Some(c + more.value)
  {
    var b := RecordOf(c) + rest;
    Reassociate([0x17, 0x03, 0x03], Be16(|c|) + c, rest);
    Reassociate(Be16(|c|), c, rest);
    assert b == [0x17, 0x03, 0x03] + (Be16(|c|) + (c + rest));
    assert b[3..] == Be16(|c|) + (c + rest);
    Vector16Of(c, rest);
    StripNext(b, c, rest);
  }

  lemma {:induction false} StripAllRecords(cs: seq<Bytes>)
    requires forall c <- cs :: |c| < 0x1_0000
    ensures StripRecords(RecordsOf(cs)) == Some(Flatten(cs))
  {
    if cs != [] {
      StripRecord(cs[0], RecordsOf(cs[1..]));
      StripAllRecords(cs[1..]);
    }
  }

  /** Stripping the wire gives back the concatenated chunks, whatever their number and sizes. */
  lemma StripWire(k: Blocks, server: Bytes, e: Entropy, cs: seq<Bytes>)
    requires ValidBlocks(k) && e.Valid() && server != []
    requires forall c <- cs :: |c| < 0x1_0000
    requires cs != [] ==> 212 + |cs[0]| + |server| < 0x1_0000
    ensures Strip(TlsWire(k, server, e, cs)) == Some(Flatten(cs))
  {
    if cs != [] {
      Sizes(k, cs[0], server, e);
      HelloRoundTripIff(k, cs[0], server, e, RecordsOf(cs[1..]));
      StripAllRecords(cs[1..]);
    }
  }

  /** Without a server name there is no valid ClientHello, and the server recovers nothing. */
  lemma StripNameless(k: Blocks, e: Entropy, cs: seq<Bytes>)
    requires ValidBlocks(k) && e.Valid() && cs != [] && 212 + |cs[0]| < 0x1_0000
    ensures Strip(TlsWire(k, [], e, cs)) == None
  {
    Sizes(k, cs[0], [], e);
    HelloParses(k, cs[0], [], e, RecordsOf(cs[1..]));
  }

  // ---------------------------------------------------------------- what is read

  /**
  The payload bytes a reader has still to deliver from `data`: the rest of the current record,
  then the later records.  Before the first response there is a preamble of 105 bytes, before
  every other record a header of 3; a cut-off record counts as far as it goes.
  */
  function Unread(first: bool, remain: nat, data: Bytes): Bytes
    decreases |data|, 1
  {
    if remain > 0 then TakeRecord(remain, data)
    else
      var skip := if first then 105 else 3;
      if |data| < skip + 2 then []
      else TakeRecord(FromBe16(data[skip], data[skip + 1]), data[skip + 2..])
  }

  function TakeRecord(length: nat, data: Bytes): Bytes
    decreases |data|, if length > 0 then 0 else 2
  {
    if |data| <= length then data
    else data[..length] + Unread(false, 0, data[length..])
  }

  /** One record of a server: 105 bytes of preamble or 3 of header, the length, the payload. */
  datatype Reply = Reply(header: Bytes, payload: Bytes)

  ghost predicate WellFormedReplies(first: bool, rs: seq<Reply>) {
    rs == [] || (|rs[0].header| == (if first then 105 else 3) && |rs[0].payload| < 0x1_0000
                 && WellFormedReplies(false, rs[1..]))
  }

  function ReplyBytes(rs: seq<Reply>): Bytes {
    if rs == [] then [] else rs[0].header + (Be16(|rs[0].payload|) + (rs[0].payload + ReplyBytes(rs[1..])))
  }

  function ReplyPayload(rs: seq<Reply>): Bytes {
    if rs == [] then [] else rs[0].payload + ReplyPayload(rs[1..])
  }

  lemma UnreadNext(first: bool, header: Bytes, payload: Bytes, rest: Bytes)
    requires |header| == (if first then 105 else 3) && |payload| < 0x1_0000
    ensures Unread(first, 0, header + (Be16(|payload|) + (payload + rest))) == TakeRecord(|payload|, payload + rest)
  {
    var data := header + (Be16(|payload|) + (payload + rest));
    Be16Value(|payload|);
    assert data[|header|] == Be16(|payload|)[0] && data[|header| + 1] == Be16(|payload|)[1];
    assert data[|header| + 2..] == payload + rest;
  }

  /** On a well-formed server stream the deliverable bytes are the concatenated payloads. */
  lemma {:induction false} UnreadStream(first: bool, rs: seq<Reply>)
    requires WellFormedReplies(first, rs)
    ensures Unread(first, 0, ReplyBytes(rs)) == ReplyPayload(rs)
    decreases |rs|
  {
    if rs != [] {
      var p, rest := rs[0].payload, ReplyBytes(rs[1..]);
      UnreadNext(first, rs[0].header, p, rest);
      UnreadStream(false, rs[1..]);
      assert (p + rest)[..|p|] == p && (p + rest)[|p|..] == rest;
      if rest == [] {
        assert Unread(false, 0, []) == [];
      }
    }
  }

  /** The stream ends where a record ends. */
  ghost predicate Aligned(first: bool, remain: nat, data: Bytes)
    decreases |data|
  {
    if remain > 0 then |data| >= remain && Aligned(false, 0, data[remain..])
    else
      data == [] ||
      var skip := if first then 105 else 3;
      && |data| >= skip + 2
      && var n := FromBe16(data[skip], data[skip + 1]);
         |data| >= skip + 2 + n && Aligned(false, 0, data[skip + 2 + n..])
  }

  lemma {:induction false} RepliesAligned(first: bool, rs: seq<Reply>)
    requires WellFormedReplies(first, rs)
    ensures Aligned(first, 0, ReplyBytes(rs))
    decreases |rs|
  {
    if rs != [] {
      RepliesAligned(false, rs[1..]);
      AlignedNext(first, rs[0].header, rs[0].payload, ReplyBytes(rs[1..]));
    }
  }

  lemma AlignedNext(first: bool, h: Bytes, p: Bytes, rest: Bytes)
    requires |h| == (if first then 105 else 3) && |p| < 0x1_0000 && Aligned(false, 0, rest)
    ensures Aligned(first, 0, h + (Be16(|p|) + (p + rest)))
  {
    var data := h + (Be16(|p|) + (p + rest));
    Be16Value(|p|);
    assert data[|h|] == Be16(|p|)[0] && data[|h| + 1] == Be16(|p|)[1];
    assert data[|h| + 2 + |p|..] == rest;
  }

  /** Taking n bytes of a record leaves the stream aligned. */
  lemma AlignedPart(length: nat, n: nat, data: Bytes)
    requires n <= length <= |data| && Aligned(false, 0, data[length..])
    ensures Aligned(false, length - n, data[n..])
  {
    assert data[n..][length - n..] == data[length..];
  }

  /** A cut-off stream yields a prefix of what the whole one yields. */
  lemma {:induction false} UnreadPrefix(first: bool, remain: nat, d: Bytes, e: Bytes)
    ensures Unread(first, remain, d) <= Unread(first, remain, d + e)
    decreases |d|, 1
  {
    if remain > 0 {
      TakePrefix(remain, d, e);
    } else {
      var skip := if first then 105 else 3;
      if |d| >= skip + 2 {
        assert (d + e)[skip + 2..] == d[skip + 2..] + e;
        TakePrefix(FromBe16(d[skip], d[skip + 1]), d[skip + 2..], e);
      }
    }
  }

  lemma {:induction false} TakePrefix(length: nat, d: Bytes, e: Bytes)
    ensures TakeRecord(length, d) <= TakeRecord(length, d + e)
    decreases |d|, if length > 0 then 0 else 2
  {
    if |d| > length {
      assert (d + e)[..length] == d[..length];
      assert (d + e)[length..] == d[length..] + e;
      UnreadPrefix(false, 0, d[length..], e);
    } else if |d + e| > length {
      assert d <= (d + e)[..length];
    }
  }

  /** The error of a read that got only so many of the bytes it needed. */
  function EndError(got: nat, end: EndErr): EndErr {
    if got == 0 || end != Eof then end else UnexpectedEof
  }

  // ---------------------------------------------------------------- the connection

  class Conn {
    const src: Source
    const sink: Sink
    const server: Bytes
    const blocks: Blocks
    var remain: nat
    var firstRequest: bool
    var firstResponse: bool

    /** The chunks written so far, the random bytes of the first, and whether a write has failed. */
    ghost var chunks: seq<Bytes>
    ghost var entropy: Entropy
    ghost var broken: bool
    ghost const start: Bytes

    ghost predicate Valid()
      reads this, sink
    {
      && (firstRequest <==> chunks == [])
      && (firstResponse ==> remain == 0)
      && (forall i :: 0 <= i < |chunks| ==> 0 < |chunks[i]| <= CHUNK_SIZE)
      && (!broken ==> sink.bytes == start + TlsWire(blocks, server, entropy, chunks))
    }

    /** The payload bytes still to be delivered. */
    ghost function Left(): Bytes
      reads this, src
    {
      Unread(firstResponse, remain, src.data)
    }

    constructor (src: Source, sink: Sink, server: Bytes, k: Blocks)
      ensures Valid() && firstRequest && firstResponse && remain == 0 && chunks == [] && !broken
      ensures this.src == src && this.sink == sink && this.server == server && blocks == k && start == sink.bytes
    {
      this.src, this.sink, this.server, blocks := src, sink, server, k;
      remain, firstRequest, firstResponse := 0, true, true;
      chunks, broken, start := [], false, sink.bytes;
      entropy := Entropy([], [], []);
    }

    /** `write`: the first chunk goes into a ClientHello, every other into a record. */
    method WriteChunk(b: Bytes, e: Entropy) returns (n: nat, failed: bool)
      requires Valid() && 0 < |b| <= CHUNK_SIZE
      modifies sink, this`firstRequest, this`chunks, this`entropy, this`broken
      ensures Valid() && chunks == old(chunks) + [b] && n == |b|
      ensures entropy == (if old(firstRequest) then e else old(entropy))
      ensures broken == (old(broken) || failed) && (sink.reliable ==> !failed)
    {
      n := |b|;
      if firstRequest {
        var hello := MakeClientHello(blocks, b, server, e);
        WireSnoc(blocks, server, e, chunks, b);
        SameWire(blocks, server, entropy, e, chunks);
        failed := Send(hello, b, e, TlsWire(blocks, server, e, chunks));
      } else {
        var record := [0x17, 0x03, 0x03] + Be16(|b|) + b;
        Reassociate([0x17, 0x03, 0x03], Be16(|b|), b);
        WireSnoc(blocks, server, entropy, chunks, b);
        failed := Send(record, b, entropy, TlsWire(blocks, server, entropy, chunks));
      }
    }

    /** Hands one message to the connection below; `was` is the wire before it. */
    method Send(message: Bytes, ghost b: Bytes, ghost e: Entropy, ghost was: Bytes) returns (failed: bool)
      requires !broken ==> sink.bytes == start + was
      modifies sink, this`firstRequest, this`chunks, this`entropy, this`broken
      ensures !broken ==> sink.bytes == start + (was + message)
      ensures !firstRequest && chunks == old(chunks) + [b] && entropy == e
      ensures broken == (old(broken) || failed) && (sink.reliable ==> !failed)
    {
      var n;
      n, failed := sink.Write(message);
      assert message[..|message|] == message;
      Reassociate(start, was, message);
      entropy, firstRequest := e, false;
      chunks := chunks + [b];
      broken := broken || failed;
    }

    /**
    `Write`: cuts b into chunks of 16384 bytes.  On an error it reports the length of the chunk
    that failed.
    */
    method Write(b: Bytes, e: Entropy) returns (n: nat, failed: bool, ghost cut: seq<Bytes>)
      requires Valid()
      modifies sink, this`firstRequest, this`chunks, this`entropy, this`broken
      ensures Valid() && chunks == old(chunks) + cut
      ensures old(firstRequest) || entropy == old(entropy)
      ensures old(firstRequest) && !firstRequest ==> entropy == e
      ensures !failed ==> n == |b| && Flatten(cut) == b
      ensures failed ==> cut != [] && n == |cut[|cut| - 1]| && Flatten(cut) <= b
      ensures FullChunks(cut, |cut| - 1)
      ensures broken == (old(broken) || failed) && (sink.reliable ==> !failed)
    {
      failed, cut := false, [];
      var i := 0;
      while i < |b|
        invariant i <= |b| && Valid()
        invariant chunks == old(chunks) + cut && Flatten(cut) == b[..i]
        invariant old(firstRequest) || entropy == old(entropy)
        invariant old(firstRequest) && !firstRequest ==> entropy == e
        invariant broken == old(broken)
        invariant FullChunks(cut, if i < |b| then |cut| else |cut| - 1)
      {
        var end := if i + CHUNK_SIZE > |b| then |b| else i + CHUNK_SIZE;
        n, failed := WriteChunk(b[i..end], e);
        Reassociate(old(chunks), cut, [b[i..end]]);
        NextChunk(b, i, end, cut);
        cut := cut + [b[i..end]];
        if failed {
          return n, true, cut;
        }
        i := end;
      }
      n := |b|;
    }

    /** A sequence of `Write` calls, up to the first that fails. */
    method WriteAll(calls: seq<Bytes>, e: Entropy) returns (failed: bool, ghost more: seq<Bytes>)
      requires Valid() && !firstRequest
      modifies sink, this`firstRequest, this`chunks, this`entropy, this`broken
      ensures Valid() && chunks == old(chunks) + more && entropy == old(entropy) && !firstRequest
      ensures !failed ==> Flatten(more) == Flatten(calls)
      ensures broken == (old(broken) || failed) && (sink.reliable ==> !failed)
    {
      failed, more := false, [];
      var i := 0;
      while i < |calls| && !failed
        invariant i <= |calls| && Valid() && !firstRequest
        invariant chunks == old(chunks) + more && entropy == old(entropy)
        invariant !failed ==> Flatten(more) == Flatten(calls[..i])
        invariant broken == (old(broken) || failed) && (sink.reliable ==> !failed)
        decreases |calls| - i
      {
        var n;
        ghost var cut;
        n, failed, cut := Write(calls[i], e);
        FlattenAppend(more, cut);
        FlattenSnoc(calls[..i], calls[i]);
        assert calls[..i + 1] == calls[..i] + [calls[i]];
        more := more + cut;
        i := i + 1;
      }
      assert !failed ==> calls[..i] == calls;
    }

    /** `read`: skip the header, read the length, deliver the payload or the first part of it. */
    method ReadHeader(b: array<byte>, discard: nat) returns (n: nat, err: Err)
      requires remain == 0 && discard == (if firstResponse then 105 else 3)
      modifies this`remain, src, b
      ensures n <= b.Length
      ensures b[..n] + Unread(false, remain, src.data) == old(Left())
      ensures err != Ok ==> Unread(false, remain, src.data) == []
      ensures err == Ok ==> |src.data| < |old(src.data)|
      ensures |old(src.data)| < discard ==> n == 0 && err == EndError(|old(src.data)|, src.end)
      ensures discard <= |old(src.data)| < discard + 2 ==> n == 0 && err == Ok
      ensures old(Aligned(firstResponse, 0, src.data)) ==>
                Aligned(false, remain, src.data) && (err != Ok ==> err == src.end && src.data == [])
    {
      ghost var data := src.data;
      var junk := new byte[discard];
      var got;
      got, err := src.ReadFull(junk, 0, discard);
      if err != Ok {
        return 0, err;
      }
      var size := new byte[2];
      got, err := src.ReadFull(size, 0, 2);
      if err != Ok {
        return 0, Ok;
      }
      assert size[0] == size[0..2][0] == data[discard] && size[1] == size[0..2][1] == data[discard + 1];
      assert src.data == data[discard..][2..] == data[discard + 2..];
      var length := FromBe16(size[0], size[1]);
      assert |data| >= discard + 2 + length ==> data[discard + 2..][length..] == data[discard + 2 + length..];
      n, err := ReadPayload(b, length);
    }

    method ReadPayload(b: array<byte>, length: nat) returns (n: nat, err: Err)
      requires remain == 0
      modifies this`remain, src, b
      ensures n <= b.Length
      ensures b[..n] + Unread(false, remain, src.data) == TakeRecord(length, old(src.data))
      ensures err != Ok ==> Unread(false, remain, src.data) == []
      ensures |src.data| <= |old(src.data)|
      ensures |old(src.data)| >= length && Aligned(false, 0, old(src.data)[length..]) ==>
                err == Ok && Aligned(false, remain, src.data)
    {
      ghost var data := src.data;
      if length > b.Length {
        n, err := src.Read(b, 0, b.Length);
        if err != Ok {
          return n, err;
        }
        remain := length - n;
        DeliverPart(length, data, n);
      } else {
        n, err := src.ReadFull(b, 0, length);
        DeliverPart(length, data, n);
      }
      if |data| >= length && Aligned(false, 0, data[length..]) {
        AlignedPart(length, n, data);
      }
    }

    /** The part of `Read` that goes on with the current record. */
    method ReadRemain(b: array<byte>) returns (n: nat, err: Err)
      requires remain > 0
      modifies this`remain, src, b
      ensures n <= b.Length
      ensures b[..n] + Unread(false, remain, src.data) == TakeRecord(old(remain), old(src.data))
      ensures err != Ok ==> Unread(false, remain, src.data) == []
      ensures err == Ok && b.Length > 0 ==> |src.data| < |old(src.data)|
      ensures |old(src.data)| >= old(remain) && Aligned(false, 0, old(src.data)[old(remain)..]) ==>
                err == Ok && Aligned(false, remain, src.data)
    {
      ghost var data := src.data;
      var length := if remain > b.Length then b.Length else remain;
      n, err := src.ReadFull(b, 0, length);
      DeliverPart(remain, data, n);
      if |data| >= remain && Aligned(false, 0, data[remain..]) {
        AlignedPart(remain, n, data);
      }
      remain := remain - n;
    }

    /** `Read`: delivered and deliverable bytes together stay the same, whatever the sizes. */
    method Read(b: array<byte>) returns (n: nat, err: Err)
      requires firstResponse ==> remain == 0
      modifies this`remain, this`firstResponse, src, b
      ensures n <= b.Length && (firstResponse ==> remain == 0)
      ensures b[..n] + Left() == old(Left())
      ensures err != Ok ==> Left() == []
      ensures err == Ok && b.Length > 0 ==> |src.data| < |old(src.data)|
      ensures old(remain) == 0 && |old(src.data)| < (if old(firstResponse) then 105 else 3) ==>
                n == 0 && err == EndError(|old(src.data)|, src.end)
      ensures old(Aligned(firstResponse, remain, src.data)) ==>
                Aligned(firstResponse, remain, src.data) && (err != Ok ==> err == src.end && src.data == [])
    {
      if remain > 0 {
        n, err := ReadRemain(b);
        return;
      }
      if firstResponse {
        n, err := ReadHeader(b, 105);
        firstResponse := false;
      } else {
        n, err := ReadHeader(b, 3);
      }
    }
  }

  /**
  Reads of any sizes on a server's stream, or on any first part of it: what they return is a prefix
  of the concatenated payloads, and all of them once the whole stream has been read to its end,
  which enough reads into real buffers do.
  */
  method ReadReplies(c: Conn, sizes: seq<nat>, ghost rs: seq<Reply>) returns (out: Bytes, err: Err)
    requires c.firstResponse && c.remain == 0
    requires WellFormedReplies(true, rs) && c.src.data <= ReplyBytes(rs)
    modifies c`remain, c`firstResponse, c.src
    ensures out <= ReplyPayload(rs)
    ensures err != Ok && old(c.src.data) == ReplyBytes(rs) ==> out == ReplyPayload(rs) && err == c.src.end
    ensures |sizes| > |old(c.src.data)| && (forall i :: 0 <= i < |sizes| ==> sizes[i] > 0) ==> err != Ok
  {
    ghost var all := c.Left();
    CutReplies(rs, c.src.data);
    RepliesAligned(true, rs);
    ghost var whole := c.src.data == ReplyBytes(rs);
    out, err := [], Ok;
    var i := 0;
    while i < |sizes| && err == Ok
      invariant i <= |sizes| && (c.firstResponse ==> c.remain == 0)
      invariant out + c.Left() == all
      invariant err != Ok ==> c.Left() == []
      invariant whole ==> Aligned(c.firstResponse, c.remain, c.src.data) && (err != Ok ==> err == c.src.end)
      invariant err == Ok && (forall j :: 0 <= j < |sizes| ==> sizes[j] > 0) ==> |c.src.data| + i <= |old(c.src.data)|
      decreases |sizes| - i
    {
      var b := new byte[sizes[i]];
      var n;
      n, err := c.Read(b);
      Reassociate(out, b[..n], c.Left());
      out := out + b[..n];
      i := i + 1;
    }
  }

  lemma CutReplies(rs: seq<Reply>, data: Bytes)
    requires WellFormedReplies(true, rs) && data <= ReplyBytes(rs)
    ensures Unread(true, 0, data) <= ReplyPayload(rs)
    ensures data == ReplyBytes(rs) ==> Unread(true, 0, data) == ReplyPayload(rs)
  {
    var rest := ReplyBytes(rs)[|data|..];
    assert ReplyBytes(rs) == data + rest;
    UnreadPrefix(true, 0, data, rest);
    UnreadStream(true, rs);
  }

  /** Delivering n bytes of a record leaves the rest of it, and the later records. */
  lemma DeliverPart(length: nat, data: Bytes, n: nat)
    requires n <= length && n <= |data|
    ensures n < length ==> data[..n] + TakeRecord(length - n, data[n..]) == TakeRecord(length, data)
    ensures n == length ==> data[..n] + Unread(false, 0, data[n..]) == TakeRecord(length, data)
    ensures n == |data| ==> TakeRecord(length, data) == data
  {
    var rest := data[n..];
    if n < length && |data| > length {
      assert rest[length - n..] == data[length..];
      assert data[..length] == data[..n] + rest[..length - n];
      Reassociate(data[..n], rest[..length - n], Unread(false, 0, data[length..]));
    }
  }
}
