/**
The Shadowsocks AEAD stream format (SIP004): what a writer puts on the wire and what a reader
makes of any byte string (transport/shadowsocks/shadowaead/stream.go).
*/
module AeadStream {
  import opened Bytes
  import opened AeadCipher

  const MAX_PAYLOAD: nat := 0x3FFF
  const BUF_SIZE: nat := 17 * 1024

  // ---------------------------------------------------------------- what is written

  /**
  One record of the stream.  `Sized` is a sealed size followed by a sealed payload; `Bare` is the
  sealed size zero alone, which is what an empty `Write` emits.
  */
  datatype Record = Sized(payload: Bytes) | Bare
  {
    function Payload(): Bytes {
      if Bare? then [] else payload
    }

    /** How many nonces the record uses. */
    function Seals(): nat {
      if Bare? then 1 else 2
    }
  }

  function SealCount(rs: seq<Record>): nat {
    if rs == [] then 0 else rs[0].Seals() + SealCount(rs[1..])
  }

  /** The bytes of one record whose first seal is the k-th of the connection. */
  function Frame(a: Aead, k: nat, r: Record): Bytes {
    var size := a.seal(NonceAt(k, a.nonceSize), Be16(|r.Payload()|));
    if r.Bare? then size else size + a.seal(NonceAt(k + 1, a.nonceSize), r.payload)
  }

  /** The calls to the underlying writer, one per record. */
  function Wire(a: Aead, k: nat, rs: seq<Record>): (w: seq<Bytes>)
    ensures |w| == |rs|
    decreases |rs|
  {
    if rs == [] then [] else [Frame(a, k, rs[0])] + Wire(a, k + rs[0].Seals(), rs[1..])
  }

  /** How `Write` cuts its argument: full chunks of 16383 bytes, then what is left. */
  ghost predicate Chunking(cs: seq<Bytes>, p: Bytes) {
    && Flatten(cs) == p
    && (forall i :: 0 <= i < |cs| ==> 0 < |cs[i]| <= 16383)
    && (forall i :: 0 <= i < |cs| - 1 ==> |cs[i]| == 16383)
  }

  function AllSized(cs: seq<Bytes>): (rs: seq<Record>)
    ensures |rs| == |cs|
  {
    if cs == [] then [] else [Sized(cs[0])] + AllSized(cs[1..])
  }

  lemma {:induction false} AllSizedSnoc(cs: seq<Bytes>, c: Bytes)
    ensures AllSized(cs + [c]) == AllSized(cs) + [Sized(c)]
  {
    if cs == [] {
      assert cs + [c] == [c];
    } else {
      assert (cs + [c])[1..] == cs[1..] + [c];
      AllSizedSnoc(cs[1..], c);
    }
  }

  lemma {:induction false} AllSizedPayloads(cs: seq<Bytes>)
    ensures Payloads(AllSized(cs)) == cs
    ensures forall r <- AllSized(cs) :: r.Payload() in cs
  {
    if cs != [] {
      AllSizedPayloads(cs[1..]);
    }
  }

  /** What goes into a writer: the argument of one `Write`, cut up, or one read of a `ReadFrom`. */
  datatype Piece = Written(bytes: Bytes, chunks: seq<Bytes>) | Copied(bytes: Bytes)
  {
    ghost predicate Fits() {
      if Copied? then |bytes| <= MAX_PAYLOAD else Chunking(chunks, bytes)
    }

    function Records(): seq<Record> {
      if Copied? then [Sized(bytes)]
      else if bytes == [] then [Bare]
      else AllSized(chunks)
    }
  }

  function RecordsOf(ps: seq<Piece>): seq<Record> {
    if ps == [] then [] else ps[0].Records() + RecordsOf(ps[1..])
  }

  function BytesOf(ps: seq<Piece>): (bs: seq<Bytes>)
    ensures |bs| == |ps|
  {
    if ps == [] then [] else [ps[0].bytes] + BytesOf(ps[1..])
  }

  // ---------------------------------------------------------------- what is read

  datatype Reason = Ended | Cut | Forged | Zero

  /**
  One call of `Reader.read`: a payload and the unread rest, or the reason it stopped, the unread
  rest and how many nonces were used.
  */
  datatype ChunkResult = Chunk(payload: Bytes, rest: Bytes) | Stop(reason: Reason, rest: Bytes, used: nat)

  function ShortRead(got: nat): Reason {
    if got == 0 then Ended else Cut
  }

  function ReadChunk(a: Aead, k: nat, data: Bytes): (r: ChunkResult)
    requires a.Lawful()
    ensures r.Chunk? ==> 0 < |r.payload| <= MAX_PAYLOAD && |r.rest| < |data|
  {
    var h := 2 + a.tag;
    if |data| < h then Stop(ShortRead(|data|), [], 0)
    else
      var size := a.open(NonceAt(k, a.nonceSize), data[..h]);
      if size.None? then Stop(Forged, data[h..], 1)
      else
        ReadPayload(a, k, FromBe16(size.value[0], size.value[1]) % 0x4000, data[h..])
  }

  /** The second half of `Reader.read`, once the payload size has been decrypted and masked. */
  function ReadPayload(a: Aead, k: nat, size: nat, body: Bytes): (r: ChunkResult)
    requires a.Lawful()
    requires size <= MAX_PAYLOAD
    ensures r.Chunk? ==> 0 < |r.payload| == size && |r.rest| <= |body|
  {
    if size == 0 then Stop(Zero, body, 1)
    else if |body| < size + a.tag then Stop(ShortRead(|body|), [], 1)
    else
      var plain := a.open(NonceAt(k + 1, a.nonceSize), body[..size + a.tag]);
      if plain.None? then Stop(Forged, body[size + a.tag..], 2)
      else Chunk(plain.value, body[size + a.tag..])
  }

  /** The plaintext a reader delivers from `data` before it first stops. */
  function Decode(a: Aead, k: nat, data: Bytes): Bytes
    requires a.Lawful()
    decreases |data|
  {
    match ReadChunk(a, k, data)
    case Chunk(payload, rest) => payload + Decode(a, k + 2, rest)
    case Stop(_, _, _) => []
  }

  /** Why, and with how many nonces used in all, the reader first stops on `data`. */
  function Verdict(a: Aead, k: nat, data: Bytes): (r: (Reason, nat))
    requires a.Lawful()
    decreases |data|
  {
    match ReadChunk(a, k, data)
    case Chunk(_, rest) => Verdict(a, k + 2, rest)
    case Stop(reason, _, used) => (reason, k + used)
  }

  // ---------------------------------------------------------------- lemmas: writing

  lemma {:induction false} SealCountAppend(xs: seq<Record>, ys: seq<Record>)
    ensures SealCount(xs + ys) == SealCount(xs) + SealCount(ys)
  {
    if xs == [] {
      assert xs + ys == ys;
    } else {
      assert (xs + ys)[1..] == xs[1..] + ys;
      SealCountAppend(xs[1..], ys);
    }
  }

  lemma {:induction false} WireAppend(a: Aead, k: nat, xs: seq<Record>, ys: seq<Record>, zs: seq<Record>, n: nat)
    requires zs == xs + ys && n == k + SealCount(xs)
    ensures Wire(a, k, zs) == Wire(a, k, xs) + Wire(a, n, ys)
    decreases |xs|
  {
    if xs == [] {
      assert zs == ys;
    } else {
      var m := k + xs[0].Seals();
      assert zs[0] == xs[0] && zs[1..] == xs[1..] + ys;
      WireAppend(a, m, xs[1..], ys, zs[1..], n);
      Reassociate([Frame(a, k, xs[0])], Wire(a, m, xs[1..]), Wire(a, n, ys));
    }
  }

  lemma WireCons(a: Aead, k: nat, r: Record, rs: seq<Record>)
    ensures Wire(a, k, [r] + rs) == [Frame(a, k, r)] + Wire(a, k + r.Seals(), rs)
    ensures SealCount([r] + rs) == r.Seals() + SealCount(rs)
  {
    assert ([r] + rs)[0] == r && ([r] + rs)[1..] == rs;
  }

  // ---------------------------------------------------------------- lemmas: reading

  /** Reading back one record: a data record yields its payload ... */
  lemma ReadFrame(a: Aead, k: nat, p: Bytes, tail: Bytes)
    requires a.Lawful()
    requires 0 < |p| <= MAX_PAYLOAD
    ensures ReadChunk(a, k, Frame(a, k, Sized(p)) + tail) == Chunk(p, tail)
  {
    var size := a.seal(NonceAt(k, a.nonceSize), Be16(|p|));
    var body := a.seal(NonceAt(k + 1, a.nonceSize), p);
    Be16Value(|p|);
    Reassociate(size, body, tail);
    ReadData(a, k, Be16(|p|), p, tail);
  }

  lemma ReadData(a: Aead, k: nat, size: Bytes, p: Bytes, tail: Bytes)
    requires a.Lawful()
    requires 0 < |p| <= MAX_PAYLOAD
    requires |size| == 2 && FromBe16(size[0], size[1]) == |p|
    ensures ReadChunk(a, k, a.seal(NonceAt(k, a.nonceSize), size) + (a.seal(NonceAt(k + 1, a.nonceSize), p) + tail))
            == Chunk(p, tail)
  {
    var head := a.seal(NonceAt(k, a.nonceSize), size);
    var body := a.seal(NonceAt(k + 1, a.nonceSize), p);
    TakeDrop(head, body + tail, head + (body + tail));
    TakeDrop(body, tail, body + tail);
  }

  /** ... and an empty one stops the reader. */
  lemma ReadZero(a: Aead, k: nat, zero: Bytes, more: Bytes)
    requires a.Lawful()
    requires |zero| == 2 && FromBe16(zero[0], zero[1]) == 0
    ensures ReadChunk(a, k, a.seal(NonceAt(k, a.nonceSize), zero) + more) == Stop(Zero, more, 1)
  {
    var size := a.seal(NonceAt(k, a.nonceSize), zero);
    TakeDrop(size, more, size + more);
  }

  /** More input never changes a chunk that was already complete. */
  lemma ReadChunkExtend(a: Aead, k: nat, d: Bytes, e: Bytes)
    requires a.Lawful()
    requires ReadChunk(a, k, d).Chunk?
    ensures ReadChunk(a, k, d + e) ==
            Chunk(ReadChunk(a, k, d).payload, ReadChunk(a, k, d).rest + e)
  {
    var h := 2 + a.tag;
    assert (d + e)[..h] == d[..h];
    assert (d + e)[h..] == d[h..] + e;
    var size := a.open(NonceAt(k, a.nonceSize), d[..h]).value;
    var n := FromBe16(size[0], size[1]) % 0x4000;
    assert (d[h..] + e)[..n + a.tag] == d[h..][..n + a.tag];
    assert (d[h..] + e)[n + a.tag..] == d[h..][n + a.tag..] + e;
  }

  /** Decoding is monotone: a cut-off stream decodes to a prefix of what the whole one gives. */
  lemma {:induction false} DecodePrefix(a: Aead, k: nat, d: Bytes, e: Bytes)
    requires a.Lawful()
    ensures Decode(a, k, d) <= Decode(a, k, d + e)
    decreases |d|
  {
    match ReadChunk(a, k, d)
    case Chunk(payload, rest) =>
      ReadChunkExtend(a, k, d, e);
      DecodePrefix(a, k + 2, rest, e);
    case Stop(_, _, _) =>
  }

  // ---------------------------------------------------------------- theorems

  /** The pieces up to, and not including, the first empty one. */
  function UpToEmpty(ps: seq<Bytes>): Bytes {
    if ps == [] || ps[0] == [] then [] else ps[0] + UpToEmpty(ps[1..])
  }

  ghost predicate NoDataAfterEmpty(ps: seq<Bytes>) {
    forall i, j :: 0 <= i < j < |ps| && ps[i] == [] ==> ps[j] == []
  }

  function Payloads(rs: seq<Record>): (ps: seq<Bytes>)
    ensures |ps| == |rs|
  {
    if rs == [] then [] else [rs[0].Payload()] + Payloads(rs[1..])
  }

  /** Where the reader ends up on a complete wire: cleanly at its end, or at the first empty record. */
  function ExpectedVerdict(k: nat, rs: seq<Record>): (Reason, nat)
    decreases |rs|
  {
    if rs == [] then (Ended, k)
    else if rs[0].Payload() == [] then (Zero, k + 1)
    else ExpectedVerdict(k + 2, rs[1..])
  }

  lemma DecodeChunk(a: Aead, k: nat, d: Bytes, payload: Bytes, rest: Bytes)
    requires a.Lawful()
    requires ReadChunk(a, k, d) == Chunk(payload, rest)
    ensures Decode(a, k, d) == payload + Decode(a, k + 2, rest)
    ensures Verdict(a, k, d) == Verdict(a, k + 2, rest)
  {
  }

  lemma DecodeStop(a: Aead, k: nat, d: Bytes, rest: Bytes)
    requires a.Lawful()
    requires ReadChunk(a, k, d) == Stop(Zero, rest, 1)
    ensures Decode(a, k, d) == [] && Verdict(a, k, d) == (Zero, k + 1)
  {
  }

  lemma DecodeDataFrame(a: Aead, k: nat, p: Bytes, tail: Bytes)
    requires a.Lawful()
    requires 0 < |p| <= MAX_PAYLOAD
    ensures Decode(a, k, Frame(a, k, Sized(p)) + tail) == p + Decode(a, k + 2, tail)
    ensures Verdict(a, k, Frame(a, k, Sized(p)) + tail) == Verdict(a, k + 2, tail)
  {
    ReadFrame(a, k, p, tail);
    DecodeChunk(a, k, Frame(a, k, Sized(p)) + tail, p, tail);
  }

  lemma DecodeEmptyFrame(a: Aead, k: nat, r: Record, tail: Bytes)
    requires a.Lawful()
    requires r.Payload() == []
    ensures Decode(a, k, Frame(a, k, r) + tail) == []
    ensures Verdict(a, k, Frame(a, k, r) + tail) == (Zero, k + 1)
  {
    var size := a.seal(NonceAt(k, a.nonceSize), Be16(0));
    var body := if r.Bare? then [] else a.seal(NonceAt(k + 1, a.nonceSize), []);
    assert Frame(a, k, r) == size + body;
    Reassociate(size, body, tail);
    ReadZero(a, k, Be16(0), body + tail);
    DecodeStop(a, k, size + (body + tail), body + tail);
  }

  lemma FrameStep(a: Aead, k: nat, r: Record, rest: Bytes, w: Bytes)
    requires a.Lawful()
    requires |r.Payload()| <= MAX_PAYLOAD
    requires w == Frame(a, k, r) + rest
    ensures Decode(a, k, w) == if r.Payload() == [] then [] else r.Payload() + Decode(a, k + 2, rest)
    ensures Verdict(a, k, w) == if r.Payload() == [] then (Zero, k + 1) else Verdict(a, k + 2, rest)
  {
    if r.Payload() == [] {
      DecodeEmptyFrame(a, k, r, rest);
    } else {
      assert r == Sized(r.payload);
      DecodeDataFrame(a, k, r.payload, rest);
    }
  }

  /** The wire as one byte string. */
  function WireBytes(a: Aead, k: nat, rs: seq<Record>): Bytes
    decreases |rs|
  {
    if rs == [] then [] else Frame(a, k, rs[0]) + WireBytes(a, k + rs[0].Seals(), rs[1..])
  }

  lemma {:induction false} WireFlatten(a: Aead, k: nat, rs: seq<Record>)
    ensures Flatten(Wire(a, k, rs)) == WireBytes(a, k, rs)
    decreases |rs|
  {
    if rs != [] {
      WireFlatten(a, k + rs[0].Seals(), rs[1..]);
    }
  }

  lemma {:induction false} DecodeBytes(a: Aead, k: nat, rs: seq<Record>)
    requires a.Lawful()
    requires forall r <- rs :: |r.Payload()| <= MAX_PAYLOAD
    ensures Decode(a, k, WireBytes(a, k, rs)) == UpToEmpty(Payloads(rs))
    ensures Verdict(a, k, WireBytes(a, k, rs)) == ExpectedVerdict(k, rs)
    decreases |rs|
  {
    if rs != [] {
      FrameStep(a, k, rs[0], WireBytes(a, k + rs[0].Seals(), rs[1..]), WireBytes(a, k, rs));
      DecodeBytes(a, k + 2, rs[1..]);
    }
  }

  /**
  Reading a complete wire delivers every payload before the first empty record, and then stops
  for exactly the reason and at exactly the nonce one expects.
  */
  lemma DecodeWire(a: Aead, k: nat, rs: seq<Record>)
    requires a.Lawful()
    requires forall r <- rs :: |r.Payload()| <= MAX_PAYLOAD
    ensures Decode(a, k, Flatten(Wire(a, k, rs))) == UpToEmpty(Payloads(rs))
    ensures Verdict(a, k, Flatten(Wire(a, k, rs))) == ExpectedVerdict(k, rs)
  {
    WireFlatten(a, k, rs);
    DecodeBytes(a, k, rs);
  }

  /** Reader and writer agree on the nonce after every data record. */
  lemma {:induction false} NonceAgreement(a: Aead, k: nat, rs: seq<Record>)
    requires a.Lawful()
    requires forall r <- rs :: 0 < |r.Payload()| <= MAX_PAYLOAD
    ensures Verdict(a, k, Flatten(Wire(a, k, rs))) == (Ended, k + SealCount(rs))
  {
    DecodeWire(a, k, rs);
    ExpectedAtEnd(k, rs);
  }

  lemma {:induction false} ExpectedAtEnd(k: nat, rs: seq<Record>)
    requires forall r <- rs :: r.Payload() != []
    ensures ExpectedVerdict(k, rs) == (Ended, k + SealCount(rs))
    decreases |rs|
  {
    if rs != [] {
      ExpectedAtEnd(k + 2, rs[1..]);
    }
  }

  /** It stops at an empty record if there is one, and at the end of the wire otherwise. */
  lemma {:induction false} ExpectedReason(k: nat, rs: seq<Record>)
    ensures ExpectedVerdict(k, rs).0 == if [] in Payloads(rs) then Zero else Ended
    decreases |rs|
  {
    if rs != [] && rs[0].Payload() != [] {
      ExpectedReason(k + 2, rs[1..]);
    }
  }

  lemma {:induction false} UpToEmptyAppend(xs: seq<Bytes>, ys: seq<Bytes>)
    ensures UpToEmpty(xs + ys) == if [] in xs then UpToEmpty(xs) else Flatten(xs) + UpToEmpty(ys)
  {
    if xs == [] {
      assert xs + ys == ys;
    } else if xs[0] != [] {
      assert (xs + ys)[1..] == xs[1..] + ys;
      UpToEmptyAppend(xs[1..], ys);
    }
  }

  lemma PieceRecords(p: Piece)
    requires p.Fits()
    ensures forall r <- p.Records() :: |r.Payload()| <= MAX_PAYLOAD
    ensures [] in Payloads(p.Records()) <==> p.bytes == []
    ensures p.bytes != [] ==> Flatten(Payloads(p.Records())) == p.bytes
    ensures p.bytes == [] ==> UpToEmpty(Payloads(p.Records())) == []
  {
    if p.Copied? {
      assert Payloads(p.Records()) == [p.bytes];
      FlattenSingle(p.bytes);
    } else if p.bytes == [] {
      assert Payloads(p.Records()) == [p.bytes];
    } else {
      AllSizedPayloads(p.chunks);
    }
  }

  lemma {:induction false} PayloadsAppend(xs: seq<Record>, ys: seq<Record>)
    ensures Payloads(xs + ys) == Payloads(xs) + Payloads(ys)
  {
    if xs == [] {
      assert xs + ys == ys;
    } else {
      assert (xs + ys)[1..] == xs[1..] + ys;
      PayloadsAppend(xs[1..], ys);
    }
  }

  lemma SessionCons(p: Piece, ps: seq<Piece>)
    requires p.Fits()
    ensures UpToEmpty(Payloads(p.Records() + RecordsOf(ps))) ==
            if p.bytes == [] then [] else p.bytes + UpToEmpty(Payloads(RecordsOf(ps)))
  {
    var xs, ys := p.Records(), RecordsOf(ps);
    PieceRecords(p);
    PayloadsAppend(xs, ys);
    UpToEmptyAppend(Payloads(xs), Payloads(ys));
  }

  lemma {:induction false} SessionPayloads(ps: seq<Piece>)
    requires forall p <- ps :: p.Fits()
    ensures forall r <- RecordsOf(ps) :: |r.Payload()| <= MAX_PAYLOAD
    ensures UpToEmpty(Payloads(RecordsOf(ps))) == UpToEmpty(BytesOf(ps))
    ensures [] in Payloads(RecordsOf(ps)) <==> [] in BytesOf(ps)
  {
    if ps != [] {
      SessionPayloads(ps[1..]);
      PieceRecords(ps[0]);
      PayloadsAppend(ps[0].Records(), RecordsOf(ps[1..]));
      SessionCons(ps[0], ps[1..]);
      assert BytesOf(ps)[1..] == BytesOf(ps[1..]);
    }
  }

  /**
  For every sequence of `Write` arguments and `ReadFrom` reads: a reader of the wire delivers
  exactly the bytes before the first empty one, where it stops for that reason ...
  */
  lemma SessionDecodes(a: Aead, k: nat, ps: seq<Piece>)
    requires a.Lawful()
    requires forall p <- ps :: p.Fits()
    ensures Decode(a, k, Flatten(Wire(a, k, RecordsOf(ps)))) == UpToEmpty(BytesOf(ps))
    ensures Verdict(a, k, Flatten(Wire(a, k, RecordsOf(ps)))).0 == if [] in BytesOf(ps) then Zero else Ended
  {
    SessionPayloads(ps);
    DecodeWire(a, k, RecordsOf(ps));
    ExpectedReason(k, RecordsOf(ps));
  }

  lemma {:induction false} UpToEmptyIff(ps: seq<Bytes>)
    ensures UpToEmpty(ps) <= Flatten(ps)
    ensures UpToEmpty(ps) == Flatten(ps) <==> NoDataAfterEmpty(ps)
  {
    if ps != [] {
      var t := ps[1..];
      UpToEmptyIff(t);
      if ps[0] == [] {
        FlattenEmptyIff(t);
        forall j | 0 < j < |ps| ensures ps[j] == t[j - 1] {
        }
        if NoDataAfterEmpty(ps) {
          forall x | x in t ensures x == [] {
            var j :| 0 <= j < |t| && t[j] == x;
            assert ps[j + 1] == x;
          }
        }
      } else {
        assert NoDataAfterEmpty(t) ==> NoDataAfterEmpty(ps);
        if NoDataAfterEmpty(ps) {
          forall i, j | 0 <= i < j < |t| && t[i] == [] ensures t[j] == [] {
            assert ps[i + 1] == t[i] && ps[j + 1] == t[j];
          }
        }
      }
    }
  }

  lemma {:induction false} FlattenEmptyIff(ps: seq<Bytes>)
    ensures Flatten(ps) == [] <==> forall p <- ps :: p == []
  {
    if ps != [] {
      FlattenEmptyIff(ps[1..]);
      assert |Flatten(ps)| == |ps[0]| + |Flatten(ps[1..])|;
      assert ps[0] in ps;
      assert forall p :: p in ps <==> p == ps[0] || p in ps[1..];
    }
  }

  /** ... which is everything that was written exactly when no data follows an empty piece. */
  lemma SessionCompleteIff(a: Aead, k: nat, ps: seq<Piece>)
    requires a.Lawful()
    requires forall p <- ps :: p.Fits()
    ensures Decode(a, k, Flatten(Wire(a, k, RecordsOf(ps)))) == Flatten(BytesOf(ps))
            <==> NoDataAfterEmpty(BytesOf(ps))
  {
    SessionDecodes(a, k, ps);
    UpToEmptyIff(BytesOf(ps));
  }

  /** A cut wire decodes to a prefix of what was written, wherever the cut is. */
  lemma SessionPrefix(a: Aead, k: nat, ps: seq<Piece>, cut: nat)
    requires a.Lawful()
    requires forall p <- ps :: p.Fits()
    requires cut <= |Flatten(Wire(a, k, RecordsOf(ps)))|
    ensures Decode(a, k, Flatten(Wire(a, k, RecordsOf(ps)))[..cut]) <= Flatten(BytesOf(ps))
  {
    var w := Flatten(Wire(a, k, RecordsOf(ps)));
    assert w == w[..cut] + w[cut..];
    DecodePrefix(a, k, w[..cut], w[cut..]);
    SessionDecodes(a, k, ps);
    UpToEmptyIff(BytesOf(ps));
  }

  // ---------------------------------------------------------------- cut and tampered wires

  /** How a piece is cut into chunks, whether it was written or copied; an empty one is an empty chunk. */
  function Cuts(b: Bytes): (cs: seq<Bytes>)
    ensures cs != []
    decreases |b|
  {
    if |b| <= MAX_PAYLOAD then [b] else [b[..MAX_PAYLOAD]] + Cuts(b[MAX_PAYLOAD..])
  }

  function AllCuts(bs: seq<Bytes>): seq<Bytes> {
    if bs == [] then [] else Cuts(bs[0]) + AllCuts(bs[1..])
  }

  /** There is only one way to cut into full chunks and a last one. */
  lemma {:induction false} ChunkingIsCuts(cs: seq<Bytes>, p: Bytes)
    requires Chunking(cs, p) && p != []
    ensures cs == Cuts(p)
    decreases |cs|
  {
    var rest := Flatten(cs[1..]);
    assert p == cs[0] + rest;
    if |cs| == 1 {
      assert cs[1..] == [] && rest == [];
      assert p == cs[0] && cs == [cs[0]];
    } else {
      assert cs[1..][0] == cs[1] && |rest| >= |cs[1]|;
      TakeDrop(cs[0], rest, p);
      assert forall i :: 0 <= i < |cs| - 1 ==> cs[1..][i] == cs[i + 1];
      ChunkingIsCuts(cs[1..], rest);
      assert cs == [cs[0]] + cs[1..];
    }
  }

  lemma PieceCuts(p: Piece)
    requires p.Fits()
    ensures Payloads(p.Records()) == Cuts(p.bytes)
  {
    if p.Copied? || p.bytes == [] {
      assert Payloads(p.Records()[1..]) == [];
    } else {
      AllSizedPayloads(p.chunks);
      ChunkingIsCuts(p.chunks, p.bytes);
    }
  }

  lemma {:induction false} SessionCuts(ps: seq<Piece>)
    requires forall p <- ps :: p.Fits()
    ensures Payloads(RecordsOf(ps)) == AllCuts(BytesOf(ps))
  {
    if ps != [] {
      SessionCuts(ps[1..]);
      PieceCuts(ps[0]);
      PayloadsAppend(ps[0].Records(), RecordsOf(ps[1..]));
      assert BytesOf(ps)[1..] == BytesOf(ps[1..]);
    }
  }

  /** The lengths of the sealed blocks a reader of these chunks looks at: it stops at the first empty size. */
  function BlockSizes(tag: nat, chunks: seq<Bytes>): seq<nat> {
    if chunks == [] then []
    else if chunks[0] == [] then [2 + tag]
    else [2 + tag, |chunks[0]| + tag] + BlockSizes(tag, chunks[1..])
  }

  function Total(sizes: seq<nat>): nat {
    if sizes == [] then 0 else sizes[0] + Total(sizes[1..])
  }

  /** The position is where a block begins or ends. */
  ghost predicate AtEdge(sizes: seq<nat>, position: nat) {
    exists j :: 0 <= j <= |sizes| && position == Total(sizes[..j])
  }

  lemma EdgeCons(x: nat, sizes: seq<nat>, position: nat)
    ensures AtEdge([x] + sizes, position) <==> position == 0 || (position >= x && AtEdge(sizes, position - x))
  {
    var all := [x] + sizes;
    assert Total(all[..0]) == 0;
    forall j | 0 <= j <= |sizes| ensures Total(all[..j + 1]) == x + Total(sizes[..j]) {
      assert all[..j + 1] == [x] + sizes[..j];
      assert ([x] + sizes[..j])[1..] == sizes[..j];
    }
    if AtEdge(all, position) && position != 0 {
      var j :| 0 <= j <= |all| && position == Total(all[..j]);
      assert position == x + Total(sizes[..j - 1]);
    }
    if position >= x && AtEdge(sizes, position - x) {
      var j :| 0 <= j <= |sizes| && position - x == Total(sizes[..j]);
      assert position == Total(all[..j + 1]);
    }
  }

  /** The chunks whose two blocks lie before the position. */
  function Whole(tag: nat, chunks: seq<Bytes>, position: nat): Bytes {
    if chunks == [] || chunks[0] == [] || position < 2 + tag + |chunks[0]| + tag then []
    else chunks[0] + Whole(tag, chunks[1..], position - (2 + tag + |chunks[0]| + tag))
  }

  /** Why a reader stops on the bytes before the position. */
  ghost function StopsFor(tag: nat, chunks: seq<Bytes>, position: nat): Reason {
    var sizes := BlockSizes(tag, chunks);
    if position >= Total(sizes) then if [] in chunks then Zero else Ended
    else if AtEdge(sizes, position) then Ended
    else Cut
  }

  lemma StopsInSize(tag: nat, chunks: seq<Bytes>, position: nat)
    requires chunks != [] && position < 2 + tag
    ensures StopsFor(tag, chunks, position) == if position == 0 then Ended else Cut
  {
    var more := if chunks[0] == [] then [] else [|chunks[0]| + tag] + BlockSizes(tag, chunks[1..]);
    assert BlockSizes(tag, chunks) == [2 + tag] + more;
    assert Total([2 + tag] + more) == 2 + tag + Total(more) by {
      assert ([2 + tag] + more)[1..] == more;
    }
    EdgeCons(2 + tag, more, position);
  }

  lemma StopsAtEmpty(tag: nat, chunks: seq<Bytes>, position: nat)
    requires chunks != [] && chunks[0] == [] && position >= 2 + tag
    ensures StopsFor(tag, chunks, position) == Zero
  {
    assert Total([2 + tag][1..]) == 0;
    assert Total([2 + tag]) == 2 + tag;
    assert chunks[0] in chunks;
  }

  lemma TotalBlocks(tag: nat, chunks: seq<Bytes>)
    requires chunks != [] && chunks[0] != []
    ensures BlockSizes(tag, chunks) == [2 + tag] + ([|chunks[0]| + tag] + BlockSizes(tag, chunks[1..]))
    ensures Total(BlockSizes(tag, chunks)) == 2 + tag + |chunks[0]| + tag + Total(BlockSizes(tag, chunks[1..]))
  {
    var inner := [|chunks[0]| + tag] + BlockSizes(tag, chunks[1..]);
    assert BlockSizes(tag, chunks) == [2 + tag] + inner;
    assert ([2 + tag] + inner)[1..] == inner && inner[1..] == BlockSizes(tag, chunks[1..]);
  }

  lemma StopsAfterSize(tag: nat, chunks: seq<Bytes>, position: nat)
    requires chunks != [] && chunks[0] != [] && position >= 2 + tag
    ensures position < 2 + tag + |chunks[0]| + tag ==>
              StopsFor(tag, chunks, position) == if position == 2 + tag then Ended else Cut
    ensures position >= 2 + tag + |chunks[0]| + tag ==>
              StopsFor(tag, chunks, position) == StopsFor(tag, chunks[1..], position - (2 + tag + |chunks[0]| + tag))
  {
    TotalBlocks(tag, chunks);
    var later := BlockSizes(tag, chunks[1..]);
    EdgeCons(2 + tag, [|chunks[0]| + tag] + later, position);
    EdgeCons(|chunks[0]| + tag, later, position - (2 + tag));
    assert [] in chunks <==> [] in chunks[1..];
    assert AtEdge(later, 0) by {
      assert Total(later[..0]) == 0;
    }
  }

  /** A size block that is cut off, or not there. */
  lemma CutSize(a: Aead, k: nat, data: Bytes)
    requires a.Lawful() && |data| < 2 + a.tag
    ensures Decode(a, k, data) == [] && Verdict(a, k, data) == (if data == [] then Ended else Cut, k)
  {
  }

  /** A payload block that is cut off, or not there. */
  lemma CutPayload(a: Aead, k: nat, size: Bytes, n: nat, part: Bytes)
    requires a.Lawful() && 0 < n <= MAX_PAYLOAD && |part| < n + a.tag
    requires |size| == 2 && FromBe16(size[0], size[1]) == n
    ensures var data := a.seal(NonceAt(k, a.nonceSize), size) + part;
            Decode(a, k, data) == [] && Verdict(a, k, data) == (if part == [] then Ended else Cut, k + 1)
  {
    var head := a.seal(NonceAt(k, a.nonceSize), size);
    TakeDrop(head, part, head + part);
    assert ReadChunk(a, k, head + part) == Stop(ShortRead(|part|), [], 1);
  }

  /** What a reader makes of the first bytes of one record and what follows. */
  lemma CutFrame(a: Aead, k: nat, r: Record, rest: Bytes, cut: nat)
    requires a.Lawful() && 0 < |r.Payload()| <= MAX_PAYLOAD
    requires 2 + a.tag <= cut < 2 + a.tag + |r.Payload()| + a.tag
    ensures var w := Frame(a, k, r) + rest;
            && cut <= |w| && Decode(a, k, w[..cut]) == []
            && Verdict(a, k, w[..cut]).0 == if cut == 2 + a.tag then Ended else Cut
  {
    var p := r.Payload();
    var size, body := a.seal(NonceAt(k, a.nonceSize), Be16(|p|)), a.seal(NonceAt(k + 1, a.nonceSize), p);
    var part := body[..cut - |size|];
    Be16Value(|p|);
    assert Frame(a, k, r) == size + body;
    assert ((size + body) + rest)[..cut] == size + part;
    CutPayload(a, k, Be16(|p|), |p|, part);
  }

  lemma FrameSize(a: Aead, k: nat, r: Record)
    requires a.Lawful()
    ensures r.Payload() != [] ==> |Frame(a, k, r)| == 2 + a.tag + |r.Payload()| + a.tag
    ensures |Frame(a, k, r)| >= 2 + a.tag
  {
  }

  /**
  The first bytes of a wire, wherever they end: a reader delivers the chunks that are complete, and
  it reports a cut exactly if the end is strictly inside a sealed block it looks at.  At the edge of
  a block, also between a size and its payload, it takes the end of the bytes for a clean end.
  */
  lemma {:induction false} CutWire(a: Aead, k: nat, rs: seq<Record>, data: Bytes, chunks: seq<Bytes>)
    requires a.Lawful()
    requires forall r <- rs :: |r.Payload()| <= MAX_PAYLOAD
    requires data <= WireBytes(a, k, rs) && chunks == Payloads(rs)
    ensures Decode(a, k, data) == Whole(a.tag, chunks, |data|)
    ensures Verdict(a, k, data).0 == StopsFor(a.tag, chunks, |data|)
    decreases |rs|
  {
    if rs == [] {
      CutSize(a, k, data);
    } else {
      var n := |Frame(a, k, rs[0])|;
      assert rs[0] in rs;
      if rs[0].Payload() != [] && |data| >= n {
        PrefixParts(data, Frame(a, k, rs[0]), WireBytes(a, k + 2, rs[1..]));
        CutWire(a, k + 2, rs[1..], data[n..], chunks[1..]);
      }
      CutCons(a, k, rs[0], WireBytes(a, k + rs[0].Seals(), rs[1..]), data, chunks);
    }
  }

  lemma CutCons(a: Aead, k: nat, r: Record, rest: Bytes, data: Bytes, chunks: seq<Bytes>)
    requires a.Lawful() && |r.Payload()| <= MAX_PAYLOAD && chunks != [] && chunks[0] == r.Payload()
    requires data <= Frame(a, k, r) + rest
    requires r.Payload() != [] && |data| >= |Frame(a, k, r)| ==>
               var later := data[|Frame(a, k, r)|..];
               && Decode(a, k + 2, later) == Whole(a.tag, chunks[1..], |later|)
               && Verdict(a, k + 2, later).0 == StopsFor(a.tag, chunks[1..], |later|)
    ensures Decode(a, k, data) == Whole(a.tag, chunks, |data|)
    ensures Verdict(a, k, data).0 == StopsFor(a.tag, chunks, |data|)
  {
    var f := Frame(a, k, r);
    if r.Payload() != [] && |data| >= |f| {
      PrefixParts(data, f, rest);
      CutLater(a, k, r, data[|f|..], data, chunks);
    } else {
      assert data == (f + rest)[..|data|];
      CutHere(a, k, r, rest, |data|, chunks);
    }
  }

  /** The cut is behind the first record. */
  lemma CutLater(a: Aead, k: nat, r: Record, later: Bytes, data: Bytes, chunks: seq<Bytes>)
    requires a.Lawful() && 0 < |r.Payload()| <= MAX_PAYLOAD && chunks != [] && chunks[0] == r.Payload()
    requires data == Frame(a, k, r) + later
    requires Decode(a, k + 2, later) == Whole(a.tag, chunks[1..], |later|)
    requires Verdict(a, k + 2, later).0 == StopsFor(a.tag, chunks[1..], |later|)
    ensures Decode(a, k, data) == Whole(a.tag, chunks, |data|)
    ensures Verdict(a, k, data).0 == StopsFor(a.tag, chunks, |data|)
  {
    FrameSize(a, k, r);
    FrameStep(a, k, r, later, data);
    StopsAfterSize(a.tag, chunks, |data|);
  }

  /** The reader stops within the first record. */
  lemma CutHere(a: Aead, k: nat, r: Record, rest: Bytes, cut: nat, chunks: seq<Bytes>)
    requires a.Lawful() && |r.Payload()| <= MAX_PAYLOAD && chunks != [] && chunks[0] == r.Payload()
    requires cut <= |Frame(a, k, r) + rest| && (r.Payload() == [] || cut < |Frame(a, k, r)|)
    ensures var data := (Frame(a, k, r) + rest)[..cut];
            Decode(a, k, data) == Whole(a.tag, chunks, cut) && Verdict(a, k, data).0 == StopsFor(a.tag, chunks, cut)
  {
    FrameSize(a, k, r);
    assert Whole(a.tag, chunks, cut) == [];
    if cut < 2 + a.tag {
      CutSize(a, k, (Frame(a, k, r) + rest)[..cut]);
      StopsInSize(a.tag, chunks, cut);
    } else if r.Payload() == [] {
      CutEmpty(a, k, r, rest, cut);
      StopsAtEmpty(a.tag, chunks, cut);
    } else {
      CutFrame(a, k, r, rest, cut);
      StopsAfterSize(a.tag, chunks, cut);
    }
  }

  lemma CutEmpty(a: Aead, k: nat, r: Record, rest: Bytes, cut: nat)
    requires a.Lawful() && r.Payload() == [] && 2 + a.tag <= cut <= |Frame(a, k, r) + rest|
    ensures var data := (Frame(a, k, r) + rest)[..cut];
            Decode(a, k, data) == [] && Verdict(a, k, data) == (Zero, k + 1)
  {
    var size := a.seal(NonceAt(k, a.nonceSize), Be16(0));
    var w := Frame(a, k, r) + rest;
    assert w[..|size|] == size;
    var more := w[|size|..cut];
    assert w[..cut] == size + more;
    ReadZero(a, k, Be16(0), more);
    DecodeStop(a, k, size + more, more);
  }

  /** Behind the last block a reader looks at, the position makes no difference. */
  lemma {:induction false} Saturated(tag: nat, chunks: seq<Bytes>, p: nat, q: nat)
    requires p >= Total(BlockSizes(tag, chunks)) && q >= Total(BlockSizes(tag, chunks))
    ensures Whole(tag, chunks, p) == Whole(tag, chunks, q) && StopsFor(tag, chunks, p) == StopsFor(tag, chunks, q)
    decreases |chunks|
  {
    if chunks != [] && chunks[0] != [] {
      var n := 2 + tag + |chunks[0]| + tag;
      TotalBlocks(tag, chunks);
      Saturated(tag, chunks[1..], p - n, q - n);
    }
  }

  lemma {:induction false} WireCovers(a: Aead, k: nat, rs: seq<Record>)
    requires a.Lawful()
    ensures |WireBytes(a, k, rs)| >= Total(BlockSizes(a.tag, Payloads(rs)))
    decreases |rs|
  {
    if rs != [] {
      FrameSize(a, k, rs[0]);
      if rs[0].Payload() == [] {
        assert Total([2 + a.tag][1..]) == 0;
      } else {
        TotalBlocks(a.tag, Payloads(rs));
        assert Payloads(rs)[1..] == Payloads(rs[1..]);
        WireCovers(a, k + 2, rs[1..]);
      }
    }
  }

  /** The same for the pieces of a session: what decodes from the first bytes of its wire, and why it stops there. */
  lemma SessionCut(a: Aead, k: nat, ps: seq<Piece>, data: Bytes)
    requires a.Lawful()
    requires forall p <- ps :: p.Fits()
    requires data <= Flatten(Wire(a, k, RecordsOf(ps)))
    ensures Decode(a, k, data) == Whole(a.tag, AllCuts(BytesOf(ps)), |data|)
    ensures Verdict(a, k, data).0 == StopsFor(a.tag, AllCuts(BytesOf(ps)), |data|)
    ensures |Flatten(Wire(a, k, RecordsOf(ps)))| >= Total(BlockSizes(a.tag, AllCuts(BytesOf(ps))))
    ensures [] in AllCuts(BytesOf(ps)) <==> [] in BytesOf(ps)
  {
    WireFlatten(a, k, RecordsOf(ps));
    SessionPayloads(ps);
    SessionCuts(ps);
    CutWire(a, k, RecordsOf(ps), data, AllCuts(BytesOf(ps)));
    WireCovers(a, k, RecordsOf(ps));
  }

  /** A stream that loses a payload as a whole, right behind its size, looks like one that ended cleanly. */
  lemma TruncationUnnoticed(tag: nat)
    ensures Whole(tag, [[7]], 2 + tag) == [] && StopsFor(tag, [[7]], 2 + tag) == Ended
  {
    StopsAfterSize(tag, [[7]], 2 + tag);
  }

  /** After data records the reader goes on with whatever follows, at the next nonce. */
  lemma {:induction false} DecodeThen(a: Aead, k: nat, rs: seq<Record>, more: Bytes, w: Bytes, n: nat)
    requires a.Lawful()
    requires forall r <- rs :: 0 < |r.Payload()| <= MAX_PAYLOAD
    requires w == WireBytes(a, k, rs) + more && n == k + SealCount(rs)
    ensures Decode(a, k, w) == Flatten(Payloads(rs)) + Decode(a, n, more)
    ensures Verdict(a, k, w) == Verdict(a, n, more)
    decreases |rs|
  {
    if rs == [] {
      assert w == more;
    } else {
      var f, rest := Frame(a, k, rs[0]), WireBytes(a, k + 2, rs[1..]);
      DataCons(a, k, rs);
      DecodeThen(a, k + 2, rs[1..], more, rest + more, n);
      Reassociate(f, rest, more);
      FrameStep(a, k, rs[0], rest + more, w);
      Reassociate(rs[0].Payload(), Flatten(Payloads(rs[1..])), Decode(a, n, more));
    }
  }

  lemma DataCons(a: Aead, k: nat, rs: seq<Record>)
    requires rs != [] && rs[0].Payload() != []
    ensures WireBytes(a, k, rs) == Frame(a, k, rs[0]) + WireBytes(a, k + 2, rs[1..])
    ensures SealCount(rs) == 2 + SealCount(rs[1..])
    ensures Flatten(Payloads(rs)) == rs[0].Payload() + Flatten(Payloads(rs[1..]))
  {
    assert Payloads(rs)[1..] == Payloads(rs[1..]);
  }

  /** The next size block does not open, or it does and the payload block does not. */
  ghost predicate Tampered(a: Aead, k: nat, data: Bytes)
    requires a.Lawful()
  {
    var h := 2 + a.tag;
    && |data| >= h
    && var size := a.open(NonceAt(k, a.nonceSize), data[..h]);
       size.None? || (var n := FromBe16(size.value[0], size.value[1]) % 0x4000;
                      && n > 0 && |data| >= h + n + a.tag
                      && a.open(NonceAt(k + 1, a.nonceSize), data[h..h + n + a.tag]).None?)
  }

  lemma TamperedStops(a: Aead, k: nat, data: Bytes)
    requires a.Lawful() && Tampered(a, k, data)
    ensures Decode(a, k, data) == [] && Verdict(a, k, data).0 == Forged
  {
    var h := 2 + a.tag;
    var size := a.open(NonceAt(k, a.nonceSize), data[..h]);
    if size.Some? {
      var n := FromBe16(size.value[0], size.value[1]) % 0x4000;
      assert data[h..][..n + a.tag] == data[h..h + n + a.tag];
    }
  }

  /** A block that does not open ends the stream right behind the data records before it. */
  lemma TamperedWire(a: Aead, k: nat, rs: seq<Record>, bad: Bytes, w: Bytes, n: nat)
    requires a.Lawful()
    requires forall r <- rs :: 0 < |r.Payload()| <= MAX_PAYLOAD
    requires w == WireBytes(a, k, rs) + bad && n == k + SealCount(rs) && Tampered(a, n, bad)
    ensures Decode(a, k, w) == Flatten(Payloads(rs)) && Verdict(a, k, w).0 == Forged
  {
    TamperedStops(a, n, bad);
    DecodeThen(a, k, rs, bad, w, n);
  }

  // ---------------------------------------------------------------- everything is sealed

  /** What is sealed for these records, in order: a size, and then the payload where there is one. */
  function Plains(rs: seq<Record>): seq<Bytes> {
    if rs == [] then []
    else (if rs[0].Bare? then [[0, 0]] else [[|rs[0].payload| / 256 % 256, |rs[0].payload| % 256], rs[0].payload])
         + Plains(rs[1..])
  }

  /** Seals under consecutive nonces. */
  function SealAll(a: Aead, k: nat, plains: seq<Bytes>): Bytes
    decreases |plains|
  {
    if plains == [] then [] else a.seal(NonceAt(k, a.nonceSize), plains[0]) + SealAll(a, k + 1, plains[1..])
  }

  /** There is nothing on the wire but these seals, each under a nonce of its own. */
  lemma {:induction false} WireIsSeals(a: Aead, k: nat, rs: seq<Record>)
    ensures WireBytes(a, k, rs) == SealAll(a, k, Plains(rs)) && |Plains(rs)| == SealCount(rs)
    decreases |rs|
  {
    if rs != [] {
      WireIsSeals(a, k + rs[0].Seals(), rs[1..]);
      SealFirst(a, k, rs[0], Plains(rs[1..]));
    }
  }

  lemma SealFirst(a: Aead, k: nat, r: Record, later: seq<Bytes>)
    ensures var first := if r.Bare? then [[0, 0]] else [[|r.payload| / 256 % 256, |r.payload| % 256], r.payload];
            SealAll(a, k, first + later) == Frame(a, k, r) + SealAll(a, k + r.Seals(), later)
  {
    if r.Bare? {
      assert Be16(0) == [0, 0];
      assert ([[0, 0]] + later)[1..] == later;
    } else {
      var size := [|r.payload| / 256 % 256, |r.payload| % 256];
      var all := [size, r.payload] + later;
      assert all[1..][1..] == later && Be16(|r.payload|) == size;
      Reassociate(a.seal(NonceAt(k, a.nonceSize), size), a.seal(NonceAt(k + 1, a.nonceSize), r.payload),
                  SealAll(a, k + 2, later));
    }
  }
}
