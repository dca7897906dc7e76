/** The relay connection (proxy/relay/relay.go): when the request goes out, and how datagrams are framed. */
module Relay {
  import opened Bytes
  import opened Net

  const MAX_DATAGRAM: nat := 65535

  // ---------------------------------------------------------------- the wire

  function Framed(udp: bool, b: Bytes): Bytes {
    if udp then Be16(|b|) + b else b
  }

  function AllFramed(udp: bool, ws: seq<Bytes>): Bytes {
    if ws == [] then [] else AllFramed(udp, ws[..|ws| - 1]) + Framed(udp, ws[|ws| - 1])
  }

  /** What is on the wire after the writes `ws`: without delay the request leads, otherwise the first write brings it. */
  function RelayWire(lazy: bool, udp: bool, request: Bytes, ws: seq<Bytes>): Bytes {
    if lazy && ws == [] then [] else request + AllFramed(udp, ws)
  }

  /** In stream mode the writes go out as they are. */
  lemma {:induction false} StreamIsPlain(ws: seq<Bytes>)
    ensures AllFramed(false, ws) == Flatten(ws)
  {
    if ws != [] {
      var n := |ws| - 1;
      StreamIsPlain(ws[..n]);
      FlattenSnoc(ws[..n], ws[n]);
      assert ws == ws[..n] + [ws[n]];
    }
  }

  lemma FramedSnoc(udp: bool, ws: seq<Bytes>, b: Bytes)
    ensures AllFramed(udp, ws + [b]) == AllFramed(udp, ws) + Framed(udp, b)
  {
    assert (ws + [b])[..|ws|] == ws;
  }

  // ---------------------------------------------------------------- datagrams on a stream

  /** The first datagram of a stream and the rest. */
  function TakeDatagram(s: Bytes): Option<(Bytes, Bytes)> {
    if |s| < 2 then None
    else
      var n := FromBe16(s[0], s[1]);
      if |s| < 2 + n then None else Some((s[2..2 + n], s[2 + n..]))
  }

  function Datagrams(ds: seq<Bytes>): Bytes {
    if ds == [] then [] else Framed(true, ds[0]) + Datagrams(ds[1..])
  }

  lemma TakeFramed(d: Bytes, rest: Bytes)
    requires |d| <= MAX_DATAGRAM
    ensures TakeDatagram(Framed(true, d) + rest) == Some((d, rest))
  {
    var s := (Be16(|d|) + d) + rest;
    Be16Value(|d|);
    assert s[0] == Be16(|d|)[0] && s[1] == Be16(|d|)[1];
    assert s[2..2 + |d|] == d && s[2 + |d|..] == rest;
  }

  /** What the writer frames is what the reader's framing takes apart. */
  lemma {:induction false} FramesAgree(ws: seq<Bytes>)
    ensures AllFramed(true, ws) == Datagrams(ws)
  {
    if ws != [] {
      var n := |ws| - 1;
      FramesAgree(ws[..n]);
      DatagramsSnoc(ws[..n], ws[n]);
      assert ws == ws[..n] + [ws[n]];
    }
  }

  lemma {:induction false} DatagramsSnoc(ds: seq<Bytes>, d: Bytes)
    ensures Datagrams(ds + [d]) == Datagrams(ds) + Framed(true, d)
  {
    if ds == [] {
      assert ds + [d] == [d];
      assert Datagrams([d][1..]) == [];
    } else {
      assert (ds + [d])[1..] == ds[1..] + [d];
      DatagramsSnoc(ds[1..], d);
      Reassociate(Framed(true, ds[0]), Datagrams(ds[1..]), Framed(true, d));
    }
  }

  function Min(a: nat, b: nat): nat {
    if a < b then a else b
  }

  /** What follows a good response, if the stream starts with one. */
  function TakeResponse(response: Bytes -> Option<nat>, s: Bytes): Option<Bytes> {
    var n := response(s);
    if n.Some? && n.value <= |s| then Some(s[n.value..]) else None
  }

  /** The writes that are not refused for their size. */
  function Accepted(udp: bool, ws: seq<Bytes>): seq<Bytes> {
    if ws == [] then []
    else
      var n := |ws| - 1;
      Accepted(udp, ws[..n]) + if udp && |ws[n]| > MAX_DATAGRAM then [] else [ws[n]]
  }

  /** In stream mode, and for datagrams that fit a 16-bit length, these are all. */
  lemma {:induction false} AllAccepted(udp: bool, ws: seq<Bytes>)
    requires udp ==> forall i :: 0 <= i < |ws| ==> |ws[i]| <= 65535
    ensures Accepted(udp, ws) == ws
  {
    if ws != [] {
      var n := |ws| - 1;
      AllAccepted(udp, ws[..n]);
      assert ws == ws[..n] + [ws[n]];
    }
  }

  // ---------------------------------------------------------------- the connection

  class Conn {
    const src: Source
    const sink: Sink
    const udp: bool
    /** How many bytes a good response takes, if the stream starts with one. */
    const response: Bytes -> Option<nat>
    /** The request that waits for the first write; None without delay. */
    var wbuf: Option<Bytes>
    /** Whether the first read has dealt with the response. */
    var once: bool

    /** Whether dialling succeeded; otherwise its caller gets an error and no connection. */
    var dialled: bool

    ghost const request: Bytes
    ghost var written: seq<Bytes>
    ghost var broken: bool
    ghost const start: Bytes

    ghost predicate Valid()
      reads this, sink
    {
      && request != []
      && (wbuf.Some? ==> wbuf.value == if written == [] then request else [])
      && (!broken ==> sink.bytes == start + RelayWire(wbuf.Some?, udp, request, written))
    }

    /** `dialContext`: without delay the request is sent now and the response read; otherwise it waits. */
    constructor (src: Source, sink: Sink, udp: bool, request: Bytes, noDelay: bool, response: Bytes -> Option<nat>)
      requires request != []
      modifies src, sink
      ensures Valid() && written == [] && !once && (wbuf.None? <==> noDelay)
      ensures this.src == src && this.sink == sink && this.udp == udp && this.request == request
      ensures this.response == response && start == old(sink.bytes)
      ensures dialled == !broken
      ensures !noDelay ==> !broken && src.data == old(src.data)
      ensures noDelay && sink.reliable ==> (broken <==> TakeResponse(response, old(src.data)).None?)
      ensures noDelay && !broken ==> Some(src.data) == TakeResponse(response, old(src.data))
    {
      this.src, this.sink, this.udp, this.response := src, sink, udp, response;
      this.request, written, broken, start := request, [], false, sink.bytes;
      wbuf, once, dialled := if noDelay then None else Some(request), false, true;
      new;
      if noDelay {
        var n, failed := sink.Write(request);
        broken := failed;
        var err := Broken;
        if !failed {
          assert request[..n] == request;
          assert request + [] == request;
          err := ReadResponse();
          broken := err != Ok;
        }
        dialled := !failed && err == Ok;
      } else {
        assert sink.bytes + [] == sink.bytes;
      }
    }

    /** `readRelayResponse`. */
    method ReadResponse() returns (err: Err)
      modifies src
      ensures err == Ok <==> TakeResponse(response, old(src.data)).Some?
      ensures err == Ok ==> Some(src.data) == TakeResponse(response, old(src.data))
    {
      var n := response(src.data);
      if n.Some? && n.value <= |src.data| {
        src.data := src.data[n.value..];
        err := Ok;
      } else {
        src.data := [];
        err := Rejected;
      }
    }

    /** Where the datagrams start: after the response if the next read still has to deal with it. */
    ghost function AfterResponse(): Option<Bytes>
      reads this, src
    {
      if once || wbuf.None? then Some(src.data) else TakeResponse(response, src.data)
    }

    /** A sequence of `Write` calls. */
    method WriteAll(ws: seq<Bytes>)
      requires Valid() && written == []
      modifies sink, this`wbuf, this`written, this`broken
      ensures Valid() && written == Accepted(udp, ws) && (wbuf.Some? <==> old(wbuf).Some?)
      ensures sink.reliable ==> broken == old(broken)
    {
      var i := 0;
      while i < |ws|
        invariant i <= |ws| && Valid() && written == Accepted(udp, ws[..i]) && (wbuf.Some? <==> old(wbuf).Some?)
        invariant sink.reliable ==> broken == old(broken)
      {
        var n, failed := Write(ws[i]);
        assert ws[..i + 1][..i] == ws[..i];
        i := i + 1;
      }
      assert ws[..i] == ws;
    }

    /** `Write`; a datagram over 65535 bytes is refused and changes nothing. */
    method Write(b: Bytes) returns (n: nat, failed: bool)
      requires Valid()
      modifies sink, this`wbuf, this`written, this`broken
      ensures Valid()
      ensures udp && |b| > MAX_DATAGRAM ==> failed && written == old(written) && broken == old(broken)
      ensures !(udp && |b| > MAX_DATAGRAM) ==>
                written == old(written) + [b] && broken == (old(broken) || failed) && (sink.reliable ==> !failed)
      ensures !failed ==> n == |b|
      ensures wbuf.Some? <==> old(wbuf).Some?
      ensures !broken && written != [] ==>
                sink.bytes == start + (request + if udp then Datagrams(written) else Flatten(written))
    {
      FramesAgree(written);
      StreamIsPlain(written);
      FramesAgree(written + [b]);
      StreamIsPlain(written + [b]);
      if udp && |b| > MAX_DATAGRAM {
        return 0, true;
      }
      FramedSnoc(udp, written, b);
      if wbuf.Some? && |wbuf.value| > 0 {
        n, failed := WriteFirst(b);
      } else {
        n, failed := WriteLater(b);
      }
    }

    /** The first write of the lazy mode brings the request along. */
    method WriteFirst(b: Bytes) returns (n: nat, failed: bool)
      requires Valid() && wbuf.Some? && |wbuf.value| > 0 && written == []
      modifies sink, this`wbuf, this`written, this`broken
      ensures Valid() && written == old(written) + [b] && broken == (old(broken) || failed) && n == |b|
      ensures wbuf.Some? && (sink.reliable ==> !failed)
    {
      var message := wbuf.value + if udp then Be16(|b|) + b else b;
      var sent;
      sent, failed := sink.Write(message);
      assert message[..|message|] == message;
      assert AllFramed(udp, [b]) == Framed(udp, b) by {
        FramedSnoc(udp, [], b);
        assert [] + [b] == [b];
      }
      n := |b|;
      written, wbuf, broken := written + [b], Some([]), broken || failed;
      assert start + [] == start;
    }

    /** Every other write goes out by itself, a datagram in two pieces. */
    method WriteLater(b: Bytes) returns (n: nat, failed: bool)
      requires Valid() && !(wbuf.Some? && |wbuf.value| > 0)
      requires AllFramed(udp, written + [b]) == AllFramed(udp, written) + Framed(udp, b)
      modifies sink, this`written, this`broken
      ensures Valid() && written == old(written) + [b] && broken == (old(broken) || failed)
      ensures (!failed ==> n == |b|) && (sink.reliable ==> !failed)
    {
      ghost var before, base := sink.bytes, AllFramed(udp, written);
      assert !broken ==> before == start + (request + base);
      n, failed := SendFramed(b);
      written, broken := written + [b], broken || failed;
      Reassociate(request, base, Framed(udp, b));
      Reassociate(start, request + base, Framed(udp, b));
    }

    method SendFramed(b: Bytes) returns (n: nat, failed: bool)
      modifies sink
      ensures !failed ==> n == |b| && sink.bytes == old(sink.bytes) + Framed(udp, b)
      ensures sink.reliable ==> !failed
    {
      if udp {
        n, failed := sink.Write(Be16(|b|));
        if failed {
          return |b|, true;
        }
        assert Be16(|b|)[..n] == Be16(|b|);
        Reassociate(old(sink.bytes), Be16(|b|), b);
      }
      n, failed := sink.Write(b);
      assert b[..|b|] == b;
    }

    /** `Read` of a datagram, once the response is out of the way. */
    method ReadDatagram(b: array<byte>) returns (n: nat, err: Err)
      modifies src, b
      ensures n <= b.Length
      ensures err == Ok <==> TakeDatagram(old(src.data)).Some?
      ensures err == Ok ==> var d := TakeDatagram(old(src.data)).value;
                            src.data == d.1 && n == Min(|d.0|, b.Length) && b[..n] == d.0[..n]
    {
      n := 0;
      ghost var data := src.data;
      var bb := new byte[2];
      var got;
      got, err := src.ReadFull(bb, 0, 2);
      if err != Ok {
        return 0, err;
      }
      assert bb[0] == bb[0..2][0] && bb[1] == bb[0..2][1];
      var dLen := FromBe16(bb[0], bb[1]);
      assert |data| >= 2 + dLen ==> data[2..][..dLen] == data[2..2 + dLen];
      if b.Length >= dLen {
        n, err := src.ReadFull(b, 0, dLen);
        assert b[..n] == b[0..0 + n];
      } else {
        var buf := new byte[dLen];
        got, err := src.ReadFull(buf, 0, dLen);
        n := b.Length;
        assert err == Ok ==> buf[..] == buf[0..dLen];
        CopyIn(b, 0, buf[..n]);
      }
    }

    /**
    `Read`: the response first, if it was not read while dialling; then one datagram, or in stream
    mode what the connection below has.
    */
    method Read(b: array<byte>) returns (n: nat, err: Err)
      modifies this`once, src, b
      ensures once && n <= b.Length
      ensures old(AfterResponse()).None? ==> err != Ok && n == 0
      ensures !udp && old(AfterResponse()).Some? ==> b[..n] + src.data == old(AfterResponse()).value
      ensures !udp && old(AfterResponse()).Some? && err != Ok ==> src.data == [] && err == src.end
      ensures udp ==> (err == Ok <==> old(AfterResponse()).Some? && TakeDatagram(old(AfterResponse()).value).Some?)
      ensures udp && err == Ok ==> var d := TakeDatagram(old(AfterResponse()).value).value;
                            src.data == d.1 && n == Min(|d.0|, b.Length) && b[..n] == d.0[..n]
    {
      if !once {
        once := true;
        if wbuf.Some? {
          err := ReadResponse();
          if err != Ok {
            return 0, err;
          }
        }
      }
      if !udp {
        ghost var data := src.data;
        n, err := src.Read(b, 0, b.Length);
        assert b[..n] == b[0..0 + n] && data == data[..n] + data[n..];
        return;
      }
      n, err := ReadDatagram(b);
    }

    /**
    Reads of any sizes on a stream of datagrams, behind the response if that is still to come: the
    i-th read returns the front part of the i-th datagram that fits its buffer, and the framing
    never slips.
    */
    method ReadMany(sizes: seq<nat>, ghost ds: seq<Bytes>, ghost tail: Bytes) returns (outs: seq<Bytes>)
      requires udp && |sizes| <= |ds|
      requires forall i :: 0 <= i < |ds| ==> |ds[i]| <= MAX_DATAGRAM
      requires AfterResponse() == Some(Datagrams(ds) + tail)
      modifies this`once, src
      ensures |outs| == |sizes| && AfterResponse() == Some(Datagrams(ds[|sizes|..]) + tail)
      ensures forall i :: 0 <= i < |sizes| ==> outs[i] == ds[i][..Min(|ds[i]|, sizes[i])]
    {
      outs := [];
      var i := 0;
      assert ds[0..] == ds;
      while i < |sizes|
        invariant i <= |sizes| && |outs| == i
        invariant AfterResponse() == Some(Datagrams(ds[i..]) + tail)
        invariant forall j :: 0 <= j < i ==> outs[j] == ds[j][..Min(|ds[j]|, sizes[j])]
      {
        var b := new byte[sizes[i]];
        assert ds[i..][1..] == ds[i + 1..];
        Reassociate(Framed(true, ds[i]), Datagrams(ds[i + 1..]), tail);
        TakeFramed(ds[i], Datagrams(ds[i + 1..]) + tail);
        var n, err := Read(b);
        outs := outs + [b[..n]];
        i := i + 1;
      }
    }
  }

  /**
  The same connection dialled lazily and without delay, and given the same writes.  On a network
  that does not fail, and with a server that answers properly, the no-delay wire is the request
  followed by the accepted writes, as they are in stream mode and framed in datagram mode; the lazy
  wire is the same if and only if one was accepted.
  */
  method BothModes(udp: bool, request: Bytes, response: Bytes -> Option<nat>, answer: Bytes, ws: seq<Bytes>)
    returns (lazy: Bytes, eager: Bytes, dialled: bool)
    requires request != []
    ensures dialled <==> TakeResponse(response, answer).Some?
    ensures dialled && !udp ==> eager == request + Flatten(ws)
    ensures dialled && udp ==> eager == request + Datagrams(Accepted(udp, ws))
    ensures !udp ==> lazy == if ws == [] then [] else request + Flatten(ws)
    ensures udp ==> lazy == if Accepted(udp, ws) == [] then [] else request + Datagrams(Accepted(udp, ws))
    ensures dialled ==> (lazy == eager <==> Accepted(udp, ws) != [])
    ensures !udp || (forall i :: 0 <= i < |ws| ==> |ws[i]| <= 65535) ==> Accepted(udp, ws) == ws
  {
    if !udp || forall i :: 0 <= i < |ws| ==> |ws[i]| <= 65535 {
      AllAccepted(udp, ws);
    }
    FramesAgree(Accepted(udp, ws));
    StreamIsPlain(Accepted(udp, ws));
    var none;
    lazy, none := DialAndWrite(udp, request, false, response, answer, ws);
    eager, dialled := DialAndWrite(udp, request, true, response, answer, ws);
  }

  /** Dials and makes the writes; `ok` says whether the dialling succeeded. */
  method DialAndWrite(udp: bool, request: Bytes, noDelay: bool, response: Bytes -> Option<nat>, answer: Bytes,
                      ws: seq<Bytes>)
    returns (wire: Bytes, ok: bool)
    requires request != []
    ensures ok <==> !noDelay || TakeResponse(response, answer).Some?
    ensures ok ==> wire == RelayWire(!noDelay, udp, request, Accepted(udp, ws))
  {
    var src := new Source(answer, Eof, false, 0);
    var sink := new Sink(true);
    var c := new Conn(src, sink, udp, request, noDelay, response);
    ok := c.dialled;
    if ok {
      c.WriteAll(ws);
    }
    wire := sink.bytes;
  }
}
