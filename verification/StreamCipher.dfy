/** Stream-cipher connections (transport/shadowsocks/shadowstream/stream.go). */
module StreamCipher {
  import opened Bytes
  import opened Net

  const BUF_SIZE: nat := 2048

  /** A stream cipher handles one byte at a time and moves to a new state. */
  type Step<!S> = (S, byte) -> (S, byte)

  /** What `XORKeyStream` does to a run of bytes: the final state and the output. */
  function Run<S>(step: Step<S>, s: S, p: Bytes): (r: (S, Bytes))
    ensures |r.1| == |p|
    decreases |p|
  {
    if p == [] then (s, [])
    else
      var (s1, b) := step(s, p[0]);
      var (s2, rest) := Run(step, s1, p[1..]);
      (s2, [b] + rest)
  }

  /** Decryption inverts encryption and moves through the same states; CTR, CFB, ChaCha20 and RC4 do. */
  ghost predicate Inverse<S(!new)>(enc: Step<S>, dec: Step<S>) {
    forall s: S, b: byte {:trigger enc(s, b)} :: dec(s, enc(s, b).1) == (enc(s, b).0, b)
  }

  /** The cipher is applied to one byte after the other, each in the state the bytes before it have led to. */
  lemma {:induction false} RunSnoc<S>(step: Step<S>, s: S, p: Bytes, b: byte)
    ensures Run(step, s, []) == (s, [])
    ensures var (t, out) := Run(step, s, p);
            Run(step, s, p + [b]) == (step(t, b).0, out + [step(t, b).1])
    decreases |p|
  {
    if p == [] {
      assert p + [b] == [b];
      var c := step(s, b).1;
      assert Run(step, step(s, b).0, [b][1..]) == (step(s, b).0, []);
      assert Run(step, s, [b]) == (step(s, b).0, [c] + []) && [c] + [] == [c] && [] + [c] == [c];
    } else {
      var (s1, c) := step(s, p[0]);
      assert (p + [b])[1..] == p[1..] + [b];
      RunSnoc(step, s1, p[1..], b);
      var (t, out) := Run(step, s1, p[1..]);
      Reassociate([c], out, [step(t, b).1]);
    }
  }

  /** So byte i of the output is byte i of the input under the state after the first i bytes. */
  ghost predicate Ciphered<S>(step: Step<S>, s: S, p: Bytes, out: Bytes) {
    |out| <= |p| && forall i :: 0 <= i < |out| ==> out[i] == step(Run(step, s, p[..i]).0, p[i]).1
  }

  lemma {:induction false} RunCiphers<S>(step: Step<S>, s: S, p: Bytes)
    ensures Ciphered(step, s, p, Run(step, s, p).1)
    decreases |p|
  {
    if p != [] {
      var n := |p| - 1;
      RunCiphers(step, s, p[..n]);
      RunSnoc(step, s, p[..n], p[n]);
      assert p == p[..n] + [p[n]];
      assert forall i :: 0 <= i < n ==> p[..n][..i] == p[..i];
    }
  }

  lemma CipheredPrefix<S>(step: Step<S>, s: S, p: Bytes, q: Bytes, out: Bytes)
    requires p <= q && out <= Run(step, s, p).1
    ensures Ciphered(step, s, q, out)
  {
    RunCiphers(step, s, p);
    assert forall i :: 0 <= i < |p| ==> q[..i] == p[..i] && q[i] == p[i];
  }

  /** It makes no difference where a run is cut. */
  lemma {:induction false} RunAppend<S>(step: Step<S>, s: S, p: Bytes, q: Bytes)
    ensures Run(step, s, p + q).0 == Run(step, Run(step, s, p).0, q).0
    ensures Run(step, s, p + q).1 == Run(step, s, p).1 + Run(step, Run(step, s, p).0, q).1
    decreases |p|
  {
    if p == [] {
      assert p + q == q;
    } else {
      var (s1, b) := step(s, p[0]);
      assert (p + q)[1..] == p[1..] + q;
      RunAppend(step, s1, p[1..], q);
      var x := Run(step, s1, p[1..]);
      Reassociate([b], x.1, Run(step, x.0, q).1);
    }
  }

  lemma {:induction false} RunInverse<S(!new)>(enc: Step<S>, dec: Step<S>, s: S, p: Bytes)
    requires Inverse(enc, dec)
    ensures Run(dec, s, Run(enc, s, p).1) == (Run(enc, s, p).0, p)
    decreases |p|
  {
    if p != [] {
      var (s1, b) := enc(s, p[0]);
      RunInverse(enc, dec, s1, p[1..]);
      var w := Run(enc, s, p).1;
      assert w[0] == b && w[1..] == Run(enc, s1, p[1..]).1;
      assert dec(s, b) == (s1, p[0]);
      assert p == [p[0]] + p[1..];
    }
  }

  /** `XORKeyStream(buf[:n], src)`. */
  method Apply<S>(step: Step<S>, s: S, buf: array<byte>, p: Bytes) returns (t: S)
    requires |p| <= buf.Length
    modifies buf
    ensures t == Run(step, s, p).0 && buf[..|p|] == Run(step, s, p).1
    ensures buf[|p|..] == old(buf[|p|..])
  {
    var (u, out) := Run(step, s, p);
    CopyIn(buf, 0, out);
    t := u;
  }

  class Writer<S> {
    const enc: Step<S>
    const sink: Sink
    const buf: array<byte>
    var state: S

    /** Everything encrypted so far, from which state, and whether a write has failed. */
    ghost var plain: Bytes
    ghost var broken: bool
    ghost const first: S
    ghost const start: Bytes

    ghost predicate Valid()
      reads this, sink
    {
      && buf.Length == BUF_SIZE
      && state == Run(enc, first, plain).0
      && (!broken ==> sink.bytes == start + Run(enc, first, plain).1)
    }

    /** What is on the wire is a prefix of the encryption of what was written. */
    ghost predicate WireIsPrefix()
      reads this, sink
    {
      sink.bytes <= start + Run(enc, first, plain).1
    }

    constructor (sink: Sink, enc: Step<S>, state: S)
      ensures Valid() && plain == [] && !broken && fresh(buf)
      ensures this.sink == sink && this.enc == enc && first == state && start == sink.bytes
    {
      this.sink, this.enc, this.state := sink, enc, state;
      buf := new byte[BUF_SIZE];
      plain, broken, first, start := [], false, state, sink.bytes;
    }

    /** One block that fits the buffer. */
    method WriteBlock(p: Bytes) returns (n: nat, failed: bool)
      requires Valid() && |p| <= BUF_SIZE
      modifies this, buf, sink
      ensures Valid() && plain == old(plain) + p && n <= |p| && |sink.log| == |old(sink.log)| + 1
      ensures broken == (old(broken) || failed) && (!failed ==> n == |p|) && (sink.reliable ==> !failed)
      ensures !old(broken) ==> WireIsPrefix()
    {
      RunAppend(enc, first, plain, p);
      ghost var done := Run(enc, first, plain).1;
      state := Apply(enc, state, buf, p);
      ghost var out := buf[..|p|];
      n, failed := sink.Write(buf[..|p|]);
      assert out[..|out|] == out;
      Reassociate(start, done, out);
      plain := plain + p;
      broken := broken || failed;
    }

    /** `Write`: blocks of 2048 bytes.  After a failure the reported count includes the partial block. */
    method Write(p: Bytes) returns (n: nat, failed: bool, ghost done: nat)
      requires Valid()
      modifies this, buf, sink
      ensures Valid() && n <= done <= |p| && plain == old(plain) + p[..done]
      ensures broken == (old(broken) || failed) && (!failed ==> n == done == |p|) && (sink.reliable ==> !failed)
      ensures !old(broken) ==> WireIsPrefix()
      ensures !failed ==> |p| <= 2048 * (|sink.log| - |old(sink.log)|) < |p| + 2048
    {
      n, failed, done := 0, false, 0;
      ghost var blocks := 0;
      while n < |p| && !failed
        invariant Valid() && n <= done <= |p| && (!failed ==> n == done)
        invariant plain == old(plain) + p[..done]
        invariant broken == (old(broken) || failed) && (sink.reliable ==> !failed)
        invariant !old(broken) ==> WireIsPrefix()
        invariant |sink.log| == |old(sink.log)| + blocks
        invariant !failed ==> n == 2048 * blocks || (n == |p| && n < 2048 * blocks < n + 2048)
        decreases |p| - n, !failed
      {
        var end := if n + BUF_SIZE > |p| then |p| else n + BUF_SIZE;
        var nw;
        nw, failed := WriteBlock(p[n..end]);
        assert p[..end] == p[..n] + p[n..end];
        n, done, blocks := n + nw, end, blocks + 1;
      }
    }

    /** One read of `ReadFrom`, encrypted where it stands. */
    method CopyOnce(r: Source) returns (nr: nat, er: Err, failed: bool)
      requires Valid()
      modifies this, buf, sink, r
      ensures Valid() && nr <= |old(r.data)| && r.data == old(r.data)[nr..]
      ensures plain == old(plain) + old(r.data)[..nr]
      ensures broken == (old(broken) || failed) && (sink.reliable ==> !failed)
      ensures er != Ok ==> er == r.end && r.data == []
      ensures er == Ok ==> nr > 0 || r.stalls < old(r.stalls)
      ensures !old(broken) ==> WireIsPrefix()
    {
      nr, er := r.Read(buf, 0, buf.Length);
      assert buf[..nr] == buf[0..0 + nr];
      var n;
      n, failed := WriteBlock(buf[..nr]);
    }

    /** `ReadFrom`: until the source ends or a write fails. */
    method ReadFrom(r: Source) returns (n: nat, err: Err, ghost got: Bytes)
      requires Valid()
      modifies this, buf, sink, r
      ensures Valid() && plain == old(plain) + got && n == |got| && got + r.data == old(r.data)
      ensures old(broken) ==> broken
      ensures sink.reliable ==> broken == old(broken)
      ensures broken && !old(broken) ==> err != Ok
      ensures !old(broken) ==> WireIsPrefix()
      ensures !broken ==> r.data == [] && err == if r.end == Eof then Ok else r.end
    {
      n, err, got := 0, Ok, [];
      while true
        invariant Valid() && broken == old(broken)
        invariant plain == old(plain) + got && n == |got| && got + r.data == old(r.data)
        decreases |r.data|, r.stalls
      {
        ghost var data := r.data;
        var nr, er, failed := CopyOnce(r);
        Reassociate(old(plain), got, data[..nr]);
        Reassociate(got, data[..nr], r.data);
        n, got := n + nr, got + data[..nr];
        if failed {
          return n, Broken, got;
        }
        if er != Ok {
          return n, if er != Eof then er else Ok, got;
        }
      }
    }
  }

  class Reader<S> {
    const dec: Step<S>
    const src: Source
    const buf: array<byte>
    var state: S

    /** What can still be decrypted. */
    ghost function Left(): Bytes
      reads this, src
    {
      Run(dec, state, src.data).1
    }

    /** The state once all of it is decrypted. */
    ghost function Goal(): S
      reads this, src
    {
      Run(dec, state, src.data).0
    }

    ghost predicate Valid() {
      buf.Length == BUF_SIZE
    }

    constructor (src: Source, dec: Step<S>, state: S)
      ensures Valid() && fresh(buf) && this.src == src && this.dec == dec && this.state == state
    {
      this.src, this.dec, this.state := src, dec, state;
      buf := new byte[BUF_SIZE];
    }

    /**
    `Read`.  An error from below hides the bytes that came with it: what was left of the stream is
    dropped, and an eager source always has something left then unless it was empty from the start.
    */
    method Read(p: array<byte>) returns (n: nat, err: Err)
      requires Valid() && p != buf
      modifies this`state, src, p
      ensures n <= p.Length && src.stalls <= old(src.stalls)
      ensures err == Ok ==> p[..n] + Left() == old(Left()) && Goal() == old(Goal())
      ensures err == Ok && src.eager && old(Left()) != [] ==> Left() != []
      ensures err == Ok && p.Length > 0 ==> n > 0 || src.stalls < old(src.stalls)
      ensures err != Ok ==> n == 0 && err == src.end && src.data == [] && state == old(state)
      ensures err != Ok && !src.eager ==> old(Left()) == []
    {
      ghost var data := src.data;
      n, err := src.Read(p, 0, p.Length);
      if err != Ok {
        return 0, err;
      }
      assert data == data[..n] + src.data;
      RunAppend(dec, state, data[..n], src.data);
      assert p[..n] == p[0..0 + n];
      state := Apply(dec, state, p, p[..n]);
    }

    /** One round of `WriteTo`, which also takes the bytes that come with an error. */
    method CopyOnce(w: Sink) returns (nw: nat, er: Err, failed: bool, ghost part: Bytes)
      requires Valid()
      modifies this`state, src, buf, w
      ensures part + Left() == old(Left()) && nw <= |part| && w.bytes == old(w.bytes) + part[..nw]
      ensures Goal() == old(Goal())
      ensures (!failed ==> nw == |part|) && (w.reliable ==> !failed)
      ensures er != Ok ==> er == src.end && src.data == []
      ensures er == Ok ==> |src.data| < |old(src.data)| || (|src.data| == |old(src.data)| && src.stalls < old(src.stalls))
    {
      ghost var data := src.data;
      var nr;
      nr, er := src.Read(buf, 0, buf.Length);
      assert data == data[..nr] + src.data;
      RunAppend(dec, state, data[..nr], src.data);
      assert buf[..nr] == buf[0..0 + nr];
      nw, failed, part := 0, false, [];
      if nr > 0 {
        state := Apply(dec, state, buf, buf[..nr]);
        part := buf[..nr];
        nw, failed := w.Write(buf[..nr]);
      }
    }

    /** `WriteTo`: unless a write fails, everything that can be decrypted is written. */
    method WriteTo(w: Sink) returns (n: nat, err: Err, failed: bool)
      requires Valid()
      modifies this`state, src, buf, w
      ensures n <= |old(Left())| && w.bytes == old(w.bytes) + old(Left())[..n]
      ensures !failed ==> n == |old(Left())| && err == if src.end == Eof then Ok else src.end
      ensures n == |old(Left())| ==> src.data == [] && state == old(Goal())
      ensures w.reliable ==> !failed
    {
      ghost var all := Left();
      ghost var out: Bytes := [];
      n, err, failed := 0, Ok, false;
      while true
        invariant out + Left() == all && n == |out| && Goal() == old(Goal())
        invariant w.bytes == old(w.bytes) + out
        decreases |src.data|, src.stalls
      {
        var nw, er;
        ghost var part;
        nw, er, failed, part := CopyOnce(w);
        Reassociate(out, part, Left());
        Reassociate(old(w.bytes), out, part[..nw]);
        n := n + nw;
        if failed {
          assert all[..n] == out + part[..nw];
          return n, Broken, true;
        }
        assert part[..nw] == part;
        out := out + part;
        if er != Ok {
          assert all[..n] == out;
          return n, if er != Eof then er else Ok, false;
        }
      }
    }
  }

  // ---------------------------------------------------------------- whole runs

  /** A cipher: how the initial vector becomes a state, and the two directions. */
  datatype Suite<!S> = Suite(ivSize: nat, init: Bytes -> S, enc: Step<S>, dec: Step<S>)

  lemma RunPrefix<S>(step: Step<S>, s: S, q: Bytes, r: Bytes)
    ensures Run(step, s, q + r).1[..|q|] == Run(step, s, q).1
  {
    RunAppend(step, s, q, r);
    TakeDrop(Run(step, s, q).1, Run(step, Run(step, s, q).0, r).1, Run(step, s, q + r).1);
  }

  /** Decrypting the first j bytes of an encryption gives the first j bytes back. */
  lemma DecryptPrefix<S(!new)>(enc: Step<S>, dec: Step<S>, s: S, p: Bytes, j: nat)
    requires Inverse(enc, dec) && j <= |p|
    ensures Run(dec, s, Run(enc, s, p).1[..j]).1 == p[..j]
  {
    assert p == p[..j] + p[j..];
    DecryptFirst(enc, dec, s, p[..j], p[j..]);
  }

  lemma DecryptFirst<S(!new)>(enc: Step<S>, dec: Step<S>, s: S, q: Bytes, r: Bytes)
    requires Inverse(enc, dec)
    ensures Run(dec, s, Run(enc, s, q + r).1[..|q|]).1 == q
  {
    RunPrefix(enc, s, q, r);
    RunInverse(enc, dec, s, q);
  }

  /** One input to a writer that has not failed. */
  method Feed<S>(w: Writer<S>, input: Input) returns (stop: bool)
    requires w.Valid() && !w.broken
    modifies w, w.buf, w.sink
    ensures w.Valid() && w.WireIsPrefix() && (w.broken ==> stop)
    ensures w.sink.reliable && input.EndsWell() ==> !stop
    ensures exists got :: got <= input.All() && w.plain == old(w.plain) + got && (!w.broken ==> got == input.All())
  {
    match input
    case Direct(b) =>
      var n;
      ghost var done;
      n, stop, done := w.Write(b);
      assert !stop ==> b[..done] == b;
    case From(data, end, eager, stalls) =>
      var src := new Source(data, end, eager, stalls);
      var n, err;
      ghost var got;
      n, err, got := w.ReadFrom(src);
      stop := err != Ok;
  }

  /** Feeds inputs to a new writer until one fails. */
  method Send<S>(w: Writer<S>, inputs: seq<Input>) returns (stop: bool)
    requires w.Valid() && w.plain == [] && !w.broken && w.WireIsPrefix()
    modifies w, w.buf, w.sink
    ensures w.Valid() && w.WireIsPrefix() && w.plain <= InputBytes(inputs)
    ensures !stop ==> !w.broken && w.plain == InputBytes(inputs)
    ensures w.sink.reliable && (forall i :: 0 <= i < |inputs| ==> inputs[i].EndsWell()) ==> !stop
  {
    stop := false;
    var i := 0;
    while i < |inputs| && !stop
      invariant i <= |inputs| && w.Valid() && w.WireIsPrefix() && (w.broken ==> stop)
      invariant w.plain <= InputBytes(inputs[..i]) && (!w.broken ==> w.plain == InputBytes(inputs[..i]))
      invariant w.sink.reliable && (forall j :: 0 <= j < |inputs| ==> inputs[j].EndsWell()) ==> !stop
      decreases |inputs| - i
    {
      stop := Feed(w, inputs[i]);
      assert inputs[..i + 1][..i] == inputs[..i];
      i := i + 1;
    }
    InputsPrefix(inputs, i);
    assert inputs[..|inputs|] == inputs;
  }

  /** The wire of a connection: the initial vector, then the encryption. */
  function WireOf<S>(suite: Suite<S>, iv: Bytes, plain: Bytes): Bytes {
    iv + Run(suite.enc, suite.init(iv), plain).1
  }

  /** `initWriter` and then the inputs; `last` is the state it ends in. */
  method Transmit<S>(suite: Suite<S>, iv: Bytes, inputs: seq<Input>, reliable: bool)
    returns (wire: Bytes, stop: bool, last: S, ghost plain: Bytes)
    requires |iv| == suite.ivSize
    ensures plain <= InputBytes(inputs) && wire <= WireOf(suite, iv, plain)
    ensures !stop ==> plain == InputBytes(inputs) && wire == WireOf(suite, iv, plain)
    ensures !stop ==> last == Run(suite.enc, suite.init(iv), plain).0
    ensures |wire| >= |iv| ==>
              wire[..|iv|] == iv && Ciphered(suite.enc, suite.init(iv), InputBytes(inputs), wire[|iv|..])
    ensures reliable && (forall i :: 0 <= i < |inputs| ==> inputs[i].EndsWell()) ==> !stop
  {
    wire, stop, last, plain := FeedAll(suite, iv, inputs, reliable);
    if |wire| >= |iv| {
      PrefixParts(wire, iv, Run(suite.enc, suite.init(iv), plain).1);
      CipheredPrefix(suite.enc, suite.init(iv), plain, InputBytes(inputs), wire[|iv|..]);
    }
  }

  method FeedAll<S>(suite: Suite<S>, iv: Bytes, inputs: seq<Input>, reliable: bool)
    returns (wire: Bytes, stop: bool, last: S, ghost plain: Bytes)
    requires |iv| == suite.ivSize
    ensures plain <= InputBytes(inputs) && wire <= WireOf(suite, iv, plain)
    ensures !stop ==> plain == InputBytes(inputs) && wire == WireOf(suite, iv, plain)
    ensures !stop ==> last == Run(suite.enc, suite.init(iv), plain).0
    ensures reliable && (forall i :: 0 <= i < |inputs| ==> inputs[i].EndsWell()) ==> !stop
  {
    var sink := new Sink(reliable);
    var n;
    n, stop := sink.Write(iv);
    wire, plain, last := sink.bytes, [], suite.init(iv);
    if !stop {
      assert wire == iv;
      var w := new Writer(sink, suite.enc, suite.init(iv));
      stop := Send(w, inputs);
      wire, plain, last := sink.bytes, w.plain, w.state;
    }
  }

  /** One use of a reader. */
  method Use<S>(r: Reader<S>, op: Op) returns (out: Bytes, err: Err)
    requires r.Valid()
    modifies r`state, r.src, r.buf
    ensures out <= old(r.Left())
    ensures err == Ok ==> out + r.Left() == old(r.Left()) && r.Goal() == old(r.Goal()) && op.ReadInto?
    ensures err == Ok ==> r.src.stalls <= old(r.src.stalls)
    ensures err == Ok && op.Fetches() ==> out != [] || r.src.stalls < old(r.src.stalls)
    ensures err == Ok && r.src.eager && old(r.Left()) != [] ==> r.Left() != []
    ensures err != Ok && op.ReadInto? ==> out == [] && (!r.src.eager ==> old(r.Left()) == [])
    ensures op == CopyOut(true) ==> out == old(r.Left())
    ensures err != Ok && op != CopyOut(false) ==> err == r.src.end
    ensures err != Ok && out == old(r.Left()) ==> r.state == old(r.Goal())
  {
    match op
    case ReadInto(size, _) =>
      var p := new byte[size];
      var n;
      n, err := r.Read(p);
      out := p[..n];
    case CopyOut(reliable) =>
      out, err := UseCopy(r, reliable);
  }

  /** `WriteTo` a sink; it hides the end of the stream, which is shown here. */
  method UseCopy<S>(r: Reader<S>, reliable: bool) returns (out: Bytes, err: Err)
    requires r.Valid()
    modifies r`state, r.src, r.buf
    ensures out <= old(r.Left())
    ensures err != Ok && (reliable ==> out == old(r.Left()) && err == r.src.end)
    ensures out == old(r.Left()) ==> r.state == old(r.Goal())
  {
    var w := new Sink(reliable);
    var n, failed;
    n, err, failed := r.WriteTo(w);
    out := w.bytes;
    assert out == old(r.Left())[..n];
    err := if err == Ok then Eof else err;
  }

  /** How a plan of reads on a stream `all` ended: with its `used`-th call. */
  ghost predicate Ended(plan: seq<Op>, used: nat, all: Bytes, eager: bool, end: Err, out: Bytes, err: Err) {
    && 0 < used <= |plan|
    && match plan[used - 1]
       case ReadInto(_, _) => err == end && (out == all <==> !eager || all == [])
       case CopyOut(reliable) => reliable ==> err == end && out == all
  }

  /** A plan of reads, up to the first error. */
  method Drain<S>(r: Reader<S>, plan: seq<Op>) returns (out: Bytes, err: Err, used: nat)
    requires r.Valid()
    modifies r`state, r.src, r.buf
    ensures out <= old(r.Left())
    ensures Exhausts(plan, |old(r.Left())| + old(r.src.stalls)) ==> err != Ok
    ensures err != Ok ==> Ended(plan, used, old(r.Left()), r.src.eager, r.src.end, out, err)
    ensures err != Ok && out == old(r.Left()) ==> r.state == old(r.Goal())
  {
    ghost var all, goal, stalls := r.Left(), r.Goal(), r.src.stalls;
    out, err, used := [], Ok, 0;
    while used < |plan| && err == Ok
      invariant used <= |plan| && out <= all
      invariant err == Ok ==> out + r.Left() == all && r.Goal() == goal
      invariant err == Ok && r.src.eager && all != [] ==> r.Left() != []
      invariant err == Ok ==> |r.Left()| + r.src.stalls + FetchCount(plan[..used]) <= |all| + stalls
      invariant err == Ok ==> CopyOut(true) !in plan[..used]
      invariant err != Ok ==> Ended(plan, used, all, r.src.eager, r.src.end, out, err)
      invariant err != Ok && out == all ==> r.state == goal
      decreases |plan| - used
    {
      ghost var left := r.Left();
      var got;
      got, err := Use(r, plan[used]);
      PrefixAfter(out, left, got, all);
      assert plan[..used + 1] == plan[..used] + [plan[used]];
      if err == Ok {
        Reassociate(out, got, r.Left());
      }
      out := out + got;
      used := used + 1;
    }
    assert err == Ok ==> plan[..used] == plan;
  }

  lemma PrefixAfter(out: Bytes, left: Bytes, got: Bytes, all: Bytes)
    requires out + left == all && got <= left
    ensures out + got <= all && (got == left ==> out + got == all)
  {
  }

  /** `initReader` and then a plan of reads on some bytes; `last` is the state it ends in. */
  method Receive<S>(suite: Suite<S>, data: Bytes, plan: seq<Op>, end: EndErr, eager: bool, stalls: nat)
    returns (out: Bytes, err: Err, used: nat, last: S)
    ensures |data| < suite.ivSize ==> out == [] && err != Ok
    ensures |data| >= suite.ivSize ==>
              var (goal, all) := Run(suite.dec, suite.init(data[..suite.ivSize]), data[suite.ivSize..]);
              && out <= all && (Exhausts(plan, |all| + stalls) ==> err != Ok)
              && (err != Ok ==> Ended(plan, used, all, eager, end, out, err))
              && (err != Ok && out == all ==> last == goal)
    ensures |data| >= suite.ivSize ==>
              Ciphered(suite.dec, suite.init(data[..suite.ivSize]), data[suite.ivSize..], out)
  {
    out, err, used, last := ReadPlan(suite, data, plan, end, eager, stalls);
    if |data| >= suite.ivSize {
      var c := data[suite.ivSize..];
      CipheredPrefix(suite.dec, suite.init(data[..suite.ivSize]), c, c, out);
    }
  }

  method ReadPlan<S>(suite: Suite<S>, data: Bytes, plan: seq<Op>, end: EndErr, eager: bool, stalls: nat)
    returns (out: Bytes, err: Err, used: nat, last: S)
    ensures |data| < suite.ivSize ==> out == [] && err != Ok
    ensures |data| >= suite.ivSize ==>
              var (goal, all) := Run(suite.dec, suite.init(data[..suite.ivSize]), data[suite.ivSize..]);
              && out <= all && (Exhausts(plan, |all| + stalls) ==> err != Ok)
              && (err != Ok ==> Ended(plan, used, all, eager, end, out, err))
              && (err != Ok && out == all ==> last == goal)
  {
    var src := new Source(data, end, eager, stalls);
    var iv := new byte[suite.ivSize];
    var got;
    got, err := src.ReadFull(iv, 0, suite.ivSize);
    if err != Ok {
      return [], err, 0, suite.init(iv[..]);
    }
    assert iv[..] == iv[0..suite.ivSize] == data[..suite.ivSize];
    var r := new Reader(src, suite.dec, suite.init(iv[..]));
    out, err, used := Drain(r, plan);
    last := r.state;
  }

  /**
  A whole run.  However the input is split over `Write` and `ReadFrom`, and the output over `Read`
  and `WriteTo`, what comes out is a prefix of what went in.  If no call of the writer reported an
  error, nothing was cut off and the reader has reported its end, then all of it came out, and both
  ciphers are in the same state, unless a `WriteTo` failed or a `Read` met the end of a source that
  hands over its last bytes together with an error.
  */
  method Pipe<S(!new)>(suite: Suite<S>, iv: Bytes, inputs: seq<Input>, reliable: bool, cut: Option<nat>, plan: seq<Op>,
                       end: EndErr, eager: bool, stalls: nat)
    returns (out: Bytes, err: Err, stop: bool, used: nat, sent: S, received: S)
    requires Inverse(suite.enc, suite.dec) && |iv| == suite.ivSize
    ensures out <= InputBytes(inputs)
    ensures reliable && (forall i :: 0 <= i < |inputs| ==> inputs[i].EndsWell()) ==> !stop
    ensures Exhausts(plan, |InputBytes(inputs)| + stalls) ==> err != Ok
    ensures !stop && cut.None? && err != Ok ==> Ended(plan, used, InputBytes(inputs), eager, end, out, err)
    ensures !stop && cut.None? && err != Ok && out == InputBytes(inputs) ==> sent == received
    ensures !stop && cut.None? && err != Ok && !eager && CopyOut(false) !in plan ==> out == InputBytes(inputs)
  {
    var wire;
    ghost var plain;
    wire, stop, sent, plain := FeedAll(suite, iv, inputs, reliable);
    var data := CutAt(wire, cut);
    PrefixOfPrefix(data, wire, WireOf(suite, iv, plain));
    out, err, used, received := ReceiveCut(suite, iv, data, plan, end, eager, stalls, plain);
    PrefixOfPrefix(out, plain, InputBytes(inputs));
  }

  /** A receiver of the first bytes of a wire, or of all of it. */
  method ReceiveCut<S(!new)>(suite: Suite<S>, ghost iv: Bytes, data: Bytes, plan: seq<Op>, end: EndErr, eager: bool,
                             stalls: nat, ghost plain: Bytes)
    returns (out: Bytes, err: Err, used: nat, last: S)
    requires Inverse(suite.enc, suite.dec) && |iv| == suite.ivSize && data <= WireOf(suite, iv, plain)
    ensures out <= plain && (Exhausts(plan, |plain| + stalls) ==> err != Ok)
    ensures data == WireOf(suite, iv, plain) && err != Ok ==>
              && Ended(plan, used, plain, eager, end, out, err)
              && (out == plain ==> last == Run(suite.enc, suite.init(iv), plain).0)
  {
    CutWire(suite, iv, plain, data);
    out, err, used, last := ReadPlan(suite, data, plan, end, eager, stalls);
  }

  lemma CutWire<S(!new)>(suite: Suite<S>, iv: Bytes, plain: Bytes, data: Bytes)
    requires Inverse(suite.enc, suite.dec) && |iv| == suite.ivSize && data <= WireOf(suite, iv, plain)
    ensures |data| >= suite.ivSize ==>
              && data[..suite.ivSize] == iv
              && Run(suite.dec, suite.init(iv), data[suite.ivSize..]).1 == plain[..|data| - suite.ivSize]
    ensures data == WireOf(suite, iv, plain) ==>
              Run(suite.dec, suite.init(iv), data[suite.ivSize..]) == (Run(suite.enc, suite.init(iv), plain).0, plain)
  {
    if |data| >= suite.ivSize {
      var c := Run(suite.enc, suite.init(iv), plain).1;
      var j := |data| - |iv|;
      assert data == (iv + c)[..|data|] == iv + c[..j];
      TakeDrop(iv, c[..j], data);
      DecryptPrefix(suite.enc, suite.dec, suite.init(iv), plain, j);
    }
    if data == WireOf(suite, iv, plain) {
      RunInverse(suite.enc, suite.dec, suite.init(iv), plain);
    }
  }
}
