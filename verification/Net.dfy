/**
The environment of the protocol code: what Go's `io.Reader`, `io.Writer`, `io.ReadFull` and `copy`
promise to their callers.  How much a single read returns is left open.
*/
module Net {
  import opened Bytes

  datatype Err = Ok | Eof | UnexpectedEof | Broken | AuthFailed | ZeroChunk | Rejected

  /** How a byte stream ends once its bytes are used up. */
  type EndErr = e: Err | e != Ok witness Eof

  /** The error of an `io.ReadFull` that came up short. */
  function ShortErr(got: nat, end: EndErr): EndErr {
    if got > 0 && end == Eof then UnexpectedEof else end
  }

  /** `copy(dst[at:], s)` for a value `s` read beforehand, which is how Go treats overlapping slices. */
  method CopyIn(dst: array<byte>, at: nat, s: Bytes)
    requires at + |s| <= dst.Length
    modifies dst
    ensures dst[..at] == old(dst[..at])
    ensures dst[at..at + |s|] == s
    ensures dst[at + |s|..] == old(dst[at + |s|..])
  {
    forall i | 0 <= i < |s| {
      dst[at + i] := s[i];
    }
  }

  /** Two adjacent stretches of a buffer make one. */
  lemma Filled(before: Bytes, after: Bytes, lo: nat, n: nat, k: nat, a: Bytes, b: Bytes)
    requires |before| == |after| && lo + n + k <= |before|
    requires before[lo..lo + n] == a && after[..lo + n] == before[..lo + n] && after[lo + n..lo + n + k] == b
    ensures after[..lo] == before[..lo] && after[lo..lo + n + k] == a + b
  {
    assert after[lo..lo + n] == after[..lo + n][lo..] == before[..lo + n][lo..] == before[lo..lo + n];
    assert after[lo..lo + n + k] == after[lo..lo + n] + after[lo + n..lo + n + k];
    assert after[..lo] == after[..lo + n][..lo] == before[..lo + n][..lo];
  }

  /** The receiving half of a connection. */
  class Source {
    /** The bytes that will still arrive. */
    var data: Bytes
    const end: EndErr
    /** Whether the last bytes come together with the final error. */
    const eager: bool
    /** How often a read may still return nothing and no error, which `io.Reader` allows. */
    var stalls: nat

    constructor (data: Bytes, end: EndErr, eager: bool, stalls: nat)
      ensures this.data == data && this.end == end && this.eager == eager && this.stalls == stalls
    {
      this.data, this.end, this.eager, this.stalls := data, end, eager, stalls;
    }

    /** One `Read` into p[lo..hi]: some bytes, the end of the stream, or a stall. */
    method Read(p: array<byte>, lo: nat, hi: nat) returns (n: nat, err: Err)
      requires lo <= hi <= p.Length
      modifies this, p
      ensures n <= hi - lo && n <= |old(data)|
      ensures data == old(data)[n..]
      ensures p[..lo] == old(p[..lo])
      ensures p[lo..lo + n] == old(data)[..n]
      ensures p[lo + n..] == old(p[lo + n..])
      ensures err == Ok || (err == end && data == [])
      ensures n > 0 ==> (err != Ok <==> eager && data == [])
      ensures lo == hi ==> err == Ok
      ensures stalls <= old(stalls)
      ensures lo < hi ==> n > 0 || err != Ok || stalls < old(stalls)
    {
      if lo == hi {
        return 0, Ok;
      }
      if stalls > 0 {
        if * {
          stalls := stalls - 1;
          return 0, Ok;
        }
      }
      if data == [] {
        return 0, end;
      }
      n :| 0 < n <= |data| && n <= hi - lo;
      CopyIn(p, lo, data[..n]);
      data := data[n..];
      err := if eager && data == [] then end else Ok;
    }

    /** One more `Read` behind the first n bytes of `all`; `was` is what the buffer held before them. */
    method ReadOn(p: array<byte>, lo: nat, n: nat, hi: nat, ghost all: Bytes, ghost was: Bytes) returns (m: nat, err: Err)
      requires lo + n < hi <= p.Length == |was| && n <= |all| && data == all[n..]
      requires p[..lo] == was[..lo] && p[lo..lo + n] == all[..n] && p[lo + n..] == was[lo + n..]
      modifies this, p
      ensures n <= m <= hi - lo && m <= |all| && data == all[m..]
      ensures p[..lo] == was[..lo] && p[lo..lo + m] == all[..m] && p[lo + m..] == was[lo + m..]
      ensures err == Ok || (err == end && data == [])
      ensures stalls <= old(stalls) && (m > n || err != Ok || stalls < old(stalls))
    {
      ghost var before := p[..];
      var k;
      k, err := Read(p, lo + n, hi);
      m := n + k;
      Filled(before, p[..], lo, n, k, all[..n], all[n..][..k]);
      assert all[..m] == all[..n] + all[n..][..k];
      assert was[lo + m..] == before[lo + n..][k..];
    }

    /** `io.ReadFull`: what it returns depends only on the bytes, not on how they arrive. */
    method ReadFull(p: array<byte>, lo: nat, hi: nat) returns (n: nat, err: Err)
      requires lo <= hi <= p.Length
      modifies this, p
      ensures n == if |old(data)| < hi - lo then |old(data)| else hi - lo
      ensures data == old(data)[n..]
      ensures p[..lo] == old(p[..lo])
      ensures p[lo..lo + n] == old(data)[..n]
      ensures p[lo + n..] == old(p[lo + n..])
      ensures err == if n < hi - lo then ShortErr(n, end) else Ok
      ensures stalls <= old(stalls)
    {
      n, err := 0, Ok;
      while n < hi - lo && err == Ok
        invariant n <= hi - lo && n <= |old(data)|
        invariant data == old(data)[n..]
        invariant p[..lo] == old(p[..lo])
        invariant p[lo..lo + n] == old(data)[..n]
        invariant p[lo + n..] == old(p[lo + n..])
        invariant err == Ok || (err == end && data == [])
        invariant stalls <= old(stalls)
        decreases hi - lo - n, err == Ok, stalls
      {
        n, err := ReadOn(p, lo, n, hi, old(data), old(p[..]));
      }
      err := if n == hi - lo then Ok else if n > 0 && err == Eof then UnexpectedEof else err;
    }
  }

  /** The sending half of a connection, which records the calls it was given and all their bytes. */
  class Sink {
    /** Whether no write ever fails. */
    const reliable: bool
    var log: seq<Bytes>
    var bytes: Bytes

    ghost predicate Valid()
      reads this
    {
      bytes == Flatten(log)
    }

    constructor (reliable: bool)
      ensures log == [] && bytes == [] && Valid() && this.reliable == reliable
    {
      this.reliable, log, bytes := reliable, [], [];
    }

    /** One `Write`: all of `b`, or a part of it and an error. */
    method Write(b: Bytes) returns (n: nat, failed: bool)
      modifies this
      ensures n <= |b| && (!failed ==> n == |b|) && (reliable ==> !failed)
      ensures log == old(log) + [b[..n]]
      ensures bytes == old(bytes) + b[..n]
      ensures old(Valid()) ==> Valid()
    {
      n, failed := |b|, false;
      if !reliable {
        if * {
          n :| 0 <= n <= |b|;
          failed := true;
        }
      }
      FlattenSnoc(log, b[..n]);
      log, bytes := log + [b[..n]], bytes + b[..n];
    }
  }

  /** What a caller may do with a writer: `Write` bytes, or `ReadFrom` a source. */
  datatype Input = Direct(bytes: Bytes) | From(data: Bytes, end: EndErr, eager: bool, stalls: nat)
  {
    function All(): Bytes {
      if Direct? then bytes else data
    }

    /** A source that ends without an error of its own. */
    predicate EndsWell() {
      From? ==> end == Eof
    }
  }

  /**
  What a caller may do with a reader: `Read` into a buffer of some size, its own or one from the
  program's allocator, or `WriteTo` a sink that may fail or not.
  */
  datatype Op = ReadInto(size: nat, pooled: bool) | CopyOut(reliable: bool)
  {
    /** Whether the call, if it succeeds without stalling, is sure to deliver something. */
    predicate Fetches() {
      ReadInto? && size > 0
    }
  }

  /** How many calls of a plan are reads into a buffer that is not empty. */
  function FetchCount(plan: seq<Op>): nat {
    if plan == [] then 0 else FetchCount(plan[..|plan| - 1]) + if plan[|plan| - 1].Fetches() then 1 else 0
  }

  /** A plan that is sure to meet the end of a stream of at most n bytes. */
  predicate Exhausts(plan: seq<Op>, n: nat) {
    CopyOut(true) in plan || FetchCount(plan) > n
  }

  function InputBytes(inputs: seq<Input>): Bytes {
    if inputs == [] then [] else InputBytes(inputs[..|inputs| - 1]) + inputs[|inputs| - 1].All()
  }

  lemma {:induction false} InputsPrefix(inputs: seq<Input>, i: nat)
    requires i <= |inputs|
    ensures InputBytes(inputs[..i]) <= InputBytes(inputs)
    decreases |inputs| - i
  {
    if i == |inputs| {
      assert inputs[..i] == inputs;
    } else {
      InputsPrefix(inputs, i + 1);
      assert inputs[..i + 1][..i] == inputs[..i];
    }
  }
}
