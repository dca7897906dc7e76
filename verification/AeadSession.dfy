/** Whole runs of the AEAD connection: writes on one side, any mix of reads on the other. */
module AeadSession {
  import opened Bytes
  import opened AeadCipher
  import opened AeadStream
  import opened AeadWriter
  import opened AeadReader
  import opened BufferAllocator
  import opened Net

  function CopiedAll(got: seq<Bytes>): (ps: seq<Piece>)
    ensures |ps| == |got|
  {
    if got == [] then [] else [Copied(got[0])] + CopiedAll(got[1..])
  }

  lemma {:induction false} CopiedAllProperties(got: seq<Bytes>)
    requires forall i :: 0 <= i < |got| ==> |got[i]| <= MAX_PAYLOAD
    ensures RecordsOf(CopiedAll(got)) == AllSized(got)
    ensures BytesOf(CopiedAll(got)) == got
    ensures forall p <- CopiedAll(got) :: p.Fits()
  {
    if got != [] {
      CopiedAllProperties(got[1..]);
    }
  }

  lemma {:induction false} RecordsAppend(ps: seq<Piece>, qs: seq<Piece>)
    ensures RecordsOf(ps + qs) == RecordsOf(ps) + RecordsOf(qs)
  {
    if ps == [] {
      assert ps + qs == qs;
    } else {
      assert (ps + qs)[1..] == ps[1..] + qs;
      RecordsAppend(ps[1..], qs);
      Reassociate(ps[0].Records(), RecordsOf(ps[1..]), RecordsOf(qs));
    }
  }

  lemma {:induction false} BytesAppend(ps: seq<Piece>, qs: seq<Piece>)
    ensures BytesOf(ps + qs) == BytesOf(ps) + BytesOf(qs)
  {
    if ps == [] {
      assert ps + qs == qs;
    } else {
      assert (ps + qs)[1..] == ps[1..] + qs;
      BytesAppend(ps[1..], qs);
      Reassociate([ps[0].bytes], BytesOf(ps[1..]), BytesOf(qs));
    }
  }

  lemma OnePiece(p: Piece)
    ensures RecordsOf([p]) == p.Records()
    ensures BytesOf([p]) == [p.bytes] && Flatten([p.bytes]) == p.bytes
  {
    assert RecordsOf([p][1..]) == [];
    FlattenSingle(p.bytes);
  }

  lemma {:induction false} SessionSnoc(ps: seq<Piece>, qs: seq<Piece>)
    ensures RecordsOf(ps + qs) == RecordsOf(ps) + RecordsOf(qs)
    ensures Flatten(BytesOf(ps + qs)) == Flatten(BytesOf(ps)) + Flatten(BytesOf(qs))
  {
    RecordsAppend(ps, qs);
    BytesAppend(ps, qs);
    FlattenAppend(BytesOf(ps), BytesOf(qs));
  }

  /** What a writer that has not failed yet has been fed. */
  ghost predicate HasSent(w: Writer, pieces: seq<Piece>, all: Bytes)
    reads w, w.sink
  {
    && w.records == RecordsOf(pieces)
    && (forall p <- pieces :: p.Fits())
    && w.WireIsPrefix()
    && Flatten(BytesOf(pieces)) <= all
    && (!w.broken ==> Flatten(BytesOf(pieces)) == all)
  }

  method FeedBytes(w: Writer, b: Bytes, ghost before: seq<Piece>, ghost all: Bytes)
    returns (stop: bool, ghost pieces: seq<Piece>)
    requires w.Valid() && !w.broken && HasSent(w, before, all)
    modifies w, w.nonce, w.sink, w.alloc, w.alloc.Pooled()
    ensures w.Valid() && fresh(w.alloc.Pooled() - old(w.alloc.Pooled()))
    ensures HasSent(w, pieces, all + b) && (stop <==> w.broken) && (w.sink.reliable ==> !stop)
    ensures !stop ==> BytesOf(pieces) == BytesOf(before) + [b]
  {
    var n;
    ghost var chunks;
    n, stop, chunks := w.Write(b);
    ghost var more := Written(b[..n], chunks);
    OnePiece(more);
    SessionSnoc(before, [more]);
    BytesAppend(before, [more]);
    pieces := before + [more];
    assert !stop ==> b[..n] == b;
  }

  method FeedFrom(w: Writer, src: Source, ghost before: seq<Piece>, ghost all: Bytes)
    returns (stop: bool, ghost pieces: seq<Piece>, ghost got: seq<Bytes>)
    requires w.Valid() && !w.broken && HasSent(w, before, all)
    modifies w, w.nonce, w.sink, w.alloc, w.alloc.Pooled(), src
    ensures w.Valid() && fresh(w.alloc.Pooled() - old(w.alloc.Pooled()))
    ensures HasSent(w, pieces, all + old(src.data)) && (w.broken ==> stop)
    ensures w.sink.reliable && src.end == Eof ==> !stop
    ensures !w.broken ==> ReadsOf(old(src.data), src.eager, old(src.stalls), got)
    ensures BytesOf(pieces) == BytesOf(before) + got
  {
    var n, err;
    n, err, got := w.ReadFrom(src);
    CopiedAllProperties(got);
    SessionSnoc(before, CopiedAll(got));
    BytesAppend(before, CopiedAll(got));
    stop, pieces := err != Ok, before + CopiedAll(got);
  }

  method Feed(w: Writer, input: Input, ghost before: seq<Piece>, ghost all: Bytes)
    returns (stop: bool, ghost pieces: seq<Piece>, ghost gave: seq<Bytes>)
    requires w.Valid() && !w.broken && HasSent(w, before, all)
    modifies w, w.nonce, w.sink, w.alloc, w.alloc.Pooled()
    ensures w.Valid() && fresh(w.alloc.Pooled() - old(w.alloc.Pooled()))
    ensures HasSent(w, pieces, all + input.All()) && (w.broken ==> stop)
    ensures w.sink.reliable && input.EndsWell() ==> !stop
    ensures !w.broken ==> Gives(input, gave) && BytesOf(pieces) == BytesOf(before) + gave
  {
    match input
    case Direct(b) =>
      stop, pieces := FeedBytes(w, b, before, all);
      gave := [b];
    case From(data, end, eager, stalls) =>
      var src := new Source(data, end, eager, stalls);
      stop, pieces, gave := FeedFrom(w, src, before, all);
  }

  // ---------------------------------------------------------------- which pieces the inputs give

  /** A `Write` gives one piece, its argument; a `ReadFrom` gives one for each of its reads. */
  ghost predicate Gives(input: Input, bs: seq<Bytes>) {
    if input.Direct? then bs == [input.bytes] else ReadsOf(input.data, input.eager, input.stalls, bs)
  }

  ghost predicate Gave(inputs: seq<Input>, bs: seq<Bytes>) {
    if inputs == [] then bs == []
    else
      var n := |inputs| - 1;
      exists k :: 0 <= k <= |bs| && Gave(inputs[..n], bs[..k]) && Gives(inputs[n], bs[k..])
  }

  lemma GaveSnoc(inputs: seq<Input>, i: nat, bs: seq<Bytes>, gave: seq<Bytes>)
    requires i < |inputs| && Gave(inputs[..i], bs) && Gives(inputs[i], gave)
    ensures Gave(inputs[..i + 1], bs + gave)
  {
    assert inputs[..i + 1][..i] == inputs[..i];
    assert (bs + gave)[..|bs|] == bs && (bs + gave)[|bs|..] == gave;
  }

  /** Whether this input leaves an empty record behind: an empty `Write`, or a separate end of a source. */
  predicate LeavesEmpty(input: Input) {
    if input.Direct? then input.bytes == [] else !input.eager || input.data == []
  }

  /** A source that never stalls: its reads are empty at most at the end. */
  predicate Steady(input: Input) {
    input.From? ==> input.stalls == 0
  }

  predicate SomeEmpty(inputs: seq<Input>) {
    exists i :: 0 <= i < |inputs| && LeavesEmpty(inputs[i])
  }

  /** The bytes of the inputs up to, and including, the first that leaves an empty record behind. */
  function UpToEnd(inputs: seq<Input>): Bytes {
    if inputs == [] then []
    else
      var n := |inputs| - 1;
      UpToEnd(inputs[..n]) + if SomeEmpty(inputs[..n]) then [] else inputs[n].All()
  }

  ghost predicate NoDataAfterEnd(inputs: seq<Input>) {
    forall i, j :: 0 <= i < j < |inputs| && LeavesEmpty(inputs[i]) ==> inputs[j].All() == []
  }

  /** The pieces of one steady input hide nothing of it. */
  lemma SteadyGives(input: Input, bs: seq<Bytes>)
    requires Gives(input, bs) && Steady(input)
    ensures UpToEmpty(bs) == input.All()
    ensures [] in bs <==> LeavesEmpty(input)
  {
    if input.Direct? {
      assert UpToEmpty(bs[1..]) == [];
    } else {
      var n := |bs| - 1;
      assert forall i :: 0 <= i < n ==> bs[i] == bs[..n][i];
      assert NoDataAfterEmpty(bs);
      UpToEmptyIff(bs);
    }
  }

  lemma NoEmptyFlatten(bs: seq<Bytes>)
    requires [] !in bs
    ensures UpToEmpty(bs) == Flatten(bs)
  {
    UpToEmptyIff(bs);
  }

  /** For steady inputs the pieces before the first empty one are told by the inputs alone. */
  lemma {:induction false} SteadyPieces(inputs: seq<Input>, bs: seq<Bytes>)
    requires Gave(inputs, bs) && forall i :: 0 <= i < |inputs| ==> Steady(inputs[i])
    ensures UpToEmpty(bs) == UpToEnd(inputs)
    ensures [] in bs <==> SomeEmpty(inputs)
  {
    if inputs != [] {
      var n := |inputs| - 1;
      var xs, ys := LastGave(inputs, bs);
      SteadyPieces(inputs[..n], xs);
      SteadyGives(inputs[n], ys);
      SteadyStep(inputs, xs, ys);
    }
  }

  /** The pieces of the last input, and those before. */
  lemma LastGave(inputs: seq<Input>, bs: seq<Bytes>) returns (xs: seq<Bytes>, ys: seq<Bytes>)
    requires inputs != [] && Gave(inputs, bs)
    ensures bs == xs + ys && Gave(inputs[..|inputs| - 1], xs) && Gives(inputs[|inputs| - 1], ys)
  {
    var n := |inputs| - 1;
    var k :| 0 <= k <= |bs| && Gave(inputs[..n], bs[..k]) && Gives(inputs[n], bs[k..]);
    xs, ys := bs[..k], bs[k..];
  }

  lemma SteadyStep(inputs: seq<Input>, xs: seq<Bytes>, ys: seq<Bytes>)
    requires inputs != []
    requires var n := |inputs| - 1;
             && UpToEmpty(xs) == UpToEnd(inputs[..n]) && ([] in xs <==> SomeEmpty(inputs[..n]))
             && UpToEmpty(ys) == inputs[n].All() && ([] in ys <==> LeavesEmpty(inputs[n]))
    ensures UpToEmpty(xs + ys) == UpToEnd(inputs)
    ensures [] in xs + ys <==> SomeEmpty(inputs)
  {
    SomeEmptySnoc(inputs);
    PiecesAppend(xs, ys);
  }

  lemma PiecesAppend(xs: seq<Bytes>, ys: seq<Bytes>)
    ensures UpToEmpty(xs + ys) == UpToEmpty(xs) + if [] in xs then [] else UpToEmpty(ys)
    ensures [] in xs + ys <==> [] in xs || [] in ys
  {
    UpToEmptyAppend(xs, ys);
    if [] !in xs {
      NoEmptyFlatten(xs);
    }
  }

  lemma SomeEmptySnoc(inputs: seq<Input>)
    requires inputs != []
    ensures var n := |inputs| - 1; SomeEmpty(inputs) <==> SomeEmpty(inputs[..n]) || LeavesEmpty(inputs[n])
  {
    var init := inputs[..|inputs| - 1];
    assert forall i :: 0 <= i < |init| ==> init[i] == inputs[i];
  }

  lemma {:induction false} UpToEndIff(inputs: seq<Input>)
    ensures UpToEnd(inputs) <= InputBytes(inputs)
    ensures UpToEnd(inputs) == InputBytes(inputs) <==> NoDataAfterEnd(inputs)
  {
    if inputs != [] {
      var n := |inputs| - 1;
      var init := inputs[..n];
      UpToEndIff(init);
      NoDataSnoc(inputs);
    }
  }

  lemma NoDataSnoc(inputs: seq<Input>)
    requires inputs != []
    ensures var n := |inputs| - 1;
            NoDataAfterEnd(inputs) <==> NoDataAfterEnd(inputs[..n]) && (SomeEmpty(inputs[..n]) ==> inputs[n].All() == [])
  {
    var n := |inputs| - 1;
    var init := inputs[..n];
    assert forall i :: 0 <= i < n ==> init[i] == inputs[i];
    if NoDataAfterEnd(inputs) && SomeEmpty(init) {
      var i :| 0 <= i < n && LeavesEmpty(init[i]);
      assert LeavesEmpty(inputs[i]);
    }
  }

  // ---------------------------------------------------------------- whole runs

  /** Feeds inputs to a new writer until one of them fails. */
  method Send(w: Writer, inputs: seq<Input>) returns (stop: bool, i: nat, ghost pieces: seq<Piece>)
    requires w.Valid() && w.records == [] && !w.broken
    modifies w, w.nonce, w.sink, w.alloc, w.alloc.Pooled()
    ensures w.Valid() && fresh(w.alloc.Pooled() - old(w.alloc.Pooled()))
    ensures i <= |inputs| && HasSent(w, pieces, InputBytes(inputs[..i]))
    ensures w.broken ==> stop
    ensures !stop ==> i == |inputs|
    ensures w.sink.reliable && (forall j :: 0 <= j < |inputs| ==> inputs[j].EndsWell()) ==> !stop
    ensures !w.broken ==> Gave(inputs[..i], BytesOf(pieces))
  {
    stop, i, pieces := false, 0, [];
    assert w.start + [] == w.start;
    while i < |inputs| && !stop
      invariant i <= |inputs|
      invariant w.Valid() && fresh(w.alloc.Pooled() - old(w.alloc.Pooled()))
      invariant HasSent(w, pieces, InputBytes(inputs[..i])) && (w.broken ==> stop)
      invariant !w.broken ==> Gave(inputs[..i], BytesOf(pieces))
      invariant w.sink.reliable && (forall j :: 0 <= j < |inputs| ==> inputs[j].EndsWell()) ==> !stop
      decreases |inputs| - i
    {
      ghost var before, gave := BytesOf(pieces), [];
      stop, pieces, gave := Feed(w, inputs[i], pieces, InputBytes(inputs[..i]));
      assert inputs[..i + 1][..i] == inputs[..i];
      if !w.broken {
        GaveSnoc(inputs, i, before, gave);
      }
      i := i + 1;
    }
  }

  /**
  Any plan of reads on a reader.  As long as no call has reported an error, what was delivered,
  what is pending and what can still be decoded make up `all`; once one has, all was delivered.
  */
  method Drain(r: Reader, plan: seq<Op>, ghost all: Bytes, ghost fate: Reason)
    returns (out: Bytes, err: Err)
    requires r.Valid() && r.Owes(all, fate) && r.Ready()
    modifies r, r.nonce, r.src, r.alloc, r.Footprint()
    ensures r.Valid()
    ensures Exhausts(plan, |all|) ==> err != Ok
    ensures err == Ok ==> exists left :: r.Owes(left, fate) && out + left == all
    ensures err != Ok ==> out == all && err == ErrOf(fate, r.src.end)
  {
    ghost var left := all;
    out, err := [], Ok;
    var i := 0;
    while i < |plan| && err == Ok
      invariant r.Valid() && fresh(r.Footprint() - old(r.Footprint()))
      invariant i <= |plan|
      invariant out + left == all
      invariant err == Ok ==> r.Owes(left, fate) && r.Ready() && |left| + FetchCount(plan[..i]) <= |all|
      invariant err == Ok ==> CopyOut(true) !in plan[..i]
      invariant err != Ok ==> left == [] && err == ErrOf(fate, r.src.end)
      decreases |plan| - i
    {
      var got;
      ghost var before := left;
      got, err, left := Step(r, plan[i], left, fate);
      assert plan[..i + 1] == plan[..i] + [plan[i]];
      Reassociate(out, got, left);
      out := out + got;
      i := i + 1;
    }
    assert err == Ok ==> plan[..i] == plan;
  }

  method Step(r: Reader, op: Op, ghost all: Bytes, ghost fate: Reason)
    returns (out: Bytes, err: Err, ghost left: Bytes)
    requires r.Valid() && r.Owes(all, fate) && r.Ready()
    modifies r, r.nonce, r.src, r.alloc, r.Footprint()
    ensures r.Valid() && fresh(r.Footprint() - old(r.Footprint()))
    ensures out + left == all
    ensures err == Ok ==> r.Owes(left, fate) && r.Ready()
    ensures err == Ok ==> op != CopyOut(true) && (op.Fetches() ==> out != [])
    ensures err != Ok ==> left == [] && err == ErrOf(fate, r.src.end)
  {
    match op
    case ReadInto(size, pooled) =>
      if pooled && 0 < size <= MAX_SIZE {
        out, err, left := StepPooled(r, size, all, fate);
      } else {
        out, err, left := StepRead(r, size, all, fate);
      }
    case CopyOut(reliable) =>
      out, err, left := StepCopy(r, reliable, all, fate);
  }

  method StepRead(r: Reader, size: nat, ghost all: Bytes, ghost fate: Reason)
    returns (out: Bytes, err: Err, ghost left: Bytes)
    requires r.Valid() && r.Owes(all, fate) && r.Ready()
    modifies r, r.nonce, r.src, r.alloc, r.Footprint()
    ensures r.Valid() && fresh(r.Footprint() - old(r.Footprint()))
    ensures out + left == all
    ensures err == Ok ==> r.Owes(left, fate) && r.Ready() && (size > 0 ==> out != [])
    ensures err != Ok ==> left == [] && err == ErrOf(fate, r.src.end)
  {
    var p := new byte[size];
    out, err, left := ReadOnce(r, p, all, fate);
  }

  /** One `Read` into a buffer that is not the reader's own. */
  method ReadOnce(r: Reader, p: array<byte>, ghost all: Bytes, ghost fate: Reason)
    returns (out: Bytes, err: Err, ghost left: Bytes)
    requires r.Valid() && r.Owes(all, fate) && r.Ready()
    requires p != r.nonce && p != r.buf && p !in r.alloc.Pooled()
    modifies r, r.nonce, r.src, r.alloc, r.Footprint(), p
    ensures r.Valid() && fresh(r.Footprint() - old(r.Footprint())) && p != r.buf && p !in r.alloc.Pooled()
    ensures out + left == all
    ensures err == Ok ==> r.Owes(left, fate) && r.Ready() && (p.Length > 0 ==> out != [])
    ensures err != Ok ==> left == [] && err == ErrOf(fate, r.src.end)
  {
    var n;
    n, err := r.Read(p);
    out := p[..n];
    left := if err == Ok then r.Pending() + r.Rest() else [];
  }

  /** A `Read` into a buffer of the allocator the reader itself uses. */
  method StepPooled(r: Reader, size: nat, ghost all: Bytes, ghost fate: Reason)
    returns (out: Bytes, err: Err, ghost left: Bytes)
    requires r.Valid() && r.Owes(all, fate) && r.Ready() && 0 < size <= MAX_SIZE
    modifies r, r.nonce, r.src, r.alloc, r.Footprint()
    ensures r.Valid() && fresh(r.Footprint() - old(r.Footprint()))
    ensures out + left == all
    ensures err == Ok ==> r.Owes(left, fate) && r.Ready() && out != []
    ensures err != Ok ==> left == [] && err == ErrOf(fate, r.src.end)
  {
    var p := Borrow(r, size);
    out, err, left := ReadOnce(r, p, all, fate);
    GiveBack(r, p);
  }

  method Borrow(r: Reader, size: nat) returns (p: array<byte>)
    requires r.Valid() && 0 < size <= MAX_SIZE
    modifies r.alloc
    ensures r.Valid() && r.Footprint() <= old(r.Footprint()) && p.Length > 0
    ensures p != r.nonce && p != r.buf && p !in r.alloc.Pooled() && (fresh(p) || p in old(r.Footprint()))
  {
    p := r.alloc.Get(size);
  }

  method GiveBack(r: Reader, p: array<byte>)
    requires r.Valid() && p != r.nonce && p != r.buf && p !in r.alloc.Pooled()
    modifies r.alloc
    ensures r.Valid() && r.Footprint() <= old(r.Footprint()) + {p}
  {
    var _ := r.alloc.Put(p);
  }

  /** `WriteTo` a sink; it hides the end of the stream, which is shown here. */
  method StepCopy(r: Reader, reliable: bool, ghost all: Bytes, ghost fate: Reason)
    returns (out: Bytes, err: Err, ghost left: Bytes)
    requires r.Valid() && r.Owes(all, fate) && r.Ready()
    modifies r, r.nonce, r.src, r.alloc, r.Footprint()
    ensures r.Valid() && fresh(r.Footprint() - old(r.Footprint()))
    ensures out + left == all
    ensures err == Ok ==> r.Owes(left, fate) && r.Ready() && !reliable
    ensures err != Ok ==> left == [] && err == ErrOf(fate, r.src.end)
  {
    var w := new Sink(reliable);
    var n, e, stopped;
    ghost var sent;
    n, e, stopped, sent := r.WriteTo(w);
    out := w.bytes;
    assert out == sent;
    left := if stopped then [] else r.Pending() + r.Rest();
    err := if stopped then if e == Ok then Eof else e else Ok;
  }

  /** What a reader of a cut-off wire is owed, against what was fed to the writer. */
  lemma CutWire(w: Writer, pieces: seq<Piece>, all: Bytes, data: Bytes)
    requires w.Good() && HasSent(w, pieces, all) && w.start == []
    requires data <= Flatten(w.sink.log)
    ensures Decode(w.aead, 0, data) <= all
    ensures data == Flatten(w.sink.log) && !w.broken ==>
              && Decode(w.aead, 0, data) == UpToEmpty(BytesOf(pieces))
              && Verdict(w.aead, 0, data).0 == if [] in BytesOf(pieces) then Zero else Ended
    ensures !w.broken ==> AccountsFor(w.aead, Flatten(w.sink.log), BytesOf(pieces), data)
  {
    var calls := Wire(w.aead, 0, RecordsOf(pieces));
    assert [] + calls == calls;
    var full := Flatten(calls);
    assert data == full[..|data|];
    SessionPrefix(w.aead, 0, pieces, |data|);
    SessionDecodes(w.aead, 0, pieces);
    SessionCut(w.aead, 0, pieces, data);
  }

  /** The first bytes of a complete wire decode to the whole chunks, and stop for the reason the block edges tell. */
  ghost predicate AccountsFor(aead: Aead, wire: Bytes, pieces: seq<Bytes>, data: Bytes)
    requires aead.Lawful()
  {
    var chunks := AllCuts(pieces);
    && Decode(aead, 0, data) == Whole(aead.tag, chunks, |data|)
    && Verdict(aead, 0, data).0 == StopsFor(aead.tag, chunks, |data|)
    && |wire| >= Total(BlockSizes(aead.tag, chunks)) && ([] in chunks <==> [] in pieces)
  }

  /** The error of a reader that gets only the first bytes of a wire with these pieces. */
  ghost function CutErr(tag: nat, pieces: seq<Bytes>, cut: nat, end: EndErr): EndErr {
    var sizes := BlockSizes(tag, AllCuts(pieces));
    if cut >= Total(sizes) then if [] in pieces then ErrZero else end
    else if end == Eof && !AtEdge(sizes, cut) then UnexpectedEof
    else end
  }

  lemma CutReported(aead: Aead, wire: Bytes, pieces: seq<Bytes>, cut: nat, end: EndErr)
    requires aead.Lawful() && AccountsFor(aead, wire, pieces, CutAt(wire, Some(cut)))
    ensures var data := CutAt(wire, Some(cut));
            && Decode(aead, 0, data) == Whole(aead.tag, AllCuts(pieces), cut)
            && ErrOf(Verdict(aead, 0, data).0, end) == CutErr(aead.tag, pieces, cut, end)
  {
    if cut >= |wire| {
      Saturated(aead.tag, AllCuts(pieces), |wire|, cut);
    }
  }

  /**
  A whole run: inputs to a writer, its wire, or only the first `cut` bytes of it, to a reader, and
  any plan of reads.  What comes out is a prefix of what went in, and a plan with enough reads, or a
  `WriteTo` that does not fail, gets to the end of it.  If no call of the writer
  reported an error, nothing was cut off and the reader has reported its end, then what came out
  are the pieces before the first empty one, and the reported end is that empty piece if there is
  one.  For sources that do not stall this is a function of the inputs.  If the wire was cut, the
  chunks that are complete came out, and the end is reported as unexpected exactly if the cut is
  strictly inside a sealed block.
  */
  method Pipe(aead: Aead, alloc: Allocator, inputs: seq<Input>, reliable: bool, cut: Option<nat>, plan: seq<Op>,
              end: EndErr, eager: bool, stalls: nat)
    returns (out: Bytes, err: Err, stop: bool, ghost pieces: seq<Bytes>)
    requires aead.Lawful() && 2 + 2 * aead.tag + MAX_PAYLOAD <= BUF_SIZE
    requires alloc.Valid() && alloc.Exclusive()
    modifies alloc, alloc.Pooled()
    ensures out <= InputBytes(inputs)
    ensures Exhausts(plan, |InputBytes(inputs)|) ==> err != Ok
    ensures reliable && (forall i :: 0 <= i < |inputs| ==> inputs[i].EndsWell()) ==> !stop
    ensures !stop ==> Gave(inputs, pieces) && Flatten(pieces) == InputBytes(inputs)
    ensures !stop && cut.None? && err != Ok ==>
              && out == UpToEmpty(pieces) && err == (if [] in pieces then ErrZero else end)
              && (out == InputBytes(inputs) <==> NoDataAfterEmpty(pieces))
    ensures !stop && cut.Some? && err != Ok ==>
              && out == Whole(aead.tag, AllCuts(pieces), cut.value)
              && err == CutErr(aead.tag, pieces, cut.value, end)
    ensures !stop && cut.None? && err != Ok && (forall i :: 0 <= i < |inputs| ==> Steady(inputs[i])) ==>
              && out == UpToEnd(inputs) && err == (if SomeEmpty(inputs) then ErrZero else end)
              && (out == InputBytes(inputs) <==> NoDataAfterEnd(inputs))
  {
    var wire;
    wire, stop, pieces := Transmit(aead, alloc, inputs, reliable);
    var data := CutAt(wire, cut);
    out, err := Receive(aead, alloc, data, plan, end, eager, stalls);
    if !stop {
      if cut.Some? {
        CutReported(aead, wire, pieces, cut.value, end);
      }
      UpToEmptyIff(pieces);
      if forall i :: 0 <= i < |inputs| ==> Steady(inputs[i]) {
        SteadyPieces(inputs, pieces);
        UpToEndIff(inputs);
      }
    }
  }

  /** A new writer, fed some inputs; `wire` is what it put on the wire. */
  method Transmit(aead: Aead, alloc: Allocator, inputs: seq<Input>, reliable: bool)
    returns (wire: Bytes, stop: bool, ghost pieces: seq<Bytes>)
    requires aead.Lawful() && 2 + 2 * aead.tag + MAX_PAYLOAD <= BUF_SIZE
    requires alloc.Valid() && alloc.Exclusive()
    modifies alloc, alloc.Pooled()
    ensures alloc.Valid() && alloc.Exclusive() && fresh(alloc.Pooled() - old(alloc.Pooled()))
    ensures forall data :: data <= wire ==> Decode(aead, 0, data) <= InputBytes(inputs)
    ensures reliable && (forall i :: 0 <= i < |inputs| ==> inputs[i].EndsWell()) ==> !stop
    ensures !stop ==> Gave(inputs, pieces) && Flatten(pieces) == InputBytes(inputs)
    ensures !stop ==> Decode(aead, 0, wire) == UpToEmpty(pieces)
    ensures !stop ==> Verdict(aead, 0, wire).0 == if [] in pieces then Zero else Ended
    ensures !stop ==> forall data :: data <= wire ==> AccountsFor(aead, wire, pieces, data)
  {
    var sink := new Sink(reliable);
    var w := new Writer(sink, aead, alloc);
    var i;
    ghost var ps;
    stop, i, ps := Send(w, inputs);
    pieces := BytesOf(ps);
    wire := Flatten(sink.log);
    InputsPrefix(inputs, i);
    assert inputs[..|inputs|] == inputs;
    forall data | data <= wire
      ensures Decode(aead, 0, data) <= InputBytes(inputs) && (!stop ==> AccountsFor(aead, wire, pieces, data))
    {
      CutWire(w, ps, InputBytes(inputs[..i]), data);
    }
    CutWire(w, ps, InputBytes(inputs[..i]), wire);
  }

  /** A new reader on some bytes, used according to a plan. */
  method Receive(aead: Aead, alloc: Allocator, data: Bytes, plan: seq<Op>, end: EndErr, eager: bool, stalls: nat)
    returns (out: Bytes, err: Err)
    requires aead.Lawful() && 2 + 2 * aead.tag + MAX_PAYLOAD <= BUF_SIZE
    requires alloc.Valid() && alloc.Exclusive()
    modifies alloc, alloc.Pooled()
    ensures out <= Decode(aead, 0, data)
    ensures Exhausts(plan, |Decode(aead, 0, data)|) ==> err != Ok
    ensures err != Ok ==> out == Decode(aead, 0, data) && err == ErrOf(Verdict(aead, 0, data).0, end)
  {
    var src := new Source(data, end, eager, stalls);
    var r := new Reader(src, aead, alloc);
    assert [] + r.Rest() == r.Rest();
    out, err := Drain(r, plan, Decode(aead, 0, data), Verdict(aead, 0, data).0);
  }

  /** It happens: after an empty `Write`, or after a `ReadFrom` of an ordinary source, data is lost. */
  lemma DataIsLost()
    ensures UpToEnd([Direct([]), Direct([1])]) == [] && InputBytes([Direct([]), Direct([1])]) == [1]
    ensures var inputs := [From([1], Eof, false, 0), Direct([2])];
            UpToEnd(inputs) == [1] && InputBytes(inputs) == [1, 2]
  {
    var one, two := [Direct([]), Direct([1])], [From([1], Eof, false, 0), Direct([2])];
    assert one[..1] == [Direct([])] && one[..1][..0] == [] && LeavesEmpty(one[..1][0]);
    assert two[..1] == [From([1], Eof, false, 0)] && two[..1][..0] == [] && LeavesEmpty(two[..1][0]);
  }

  /**
  Reading a writer's wire chunk by chunk: after any number of data records the reader has used as
  many nonces as the writer had when it had sealed just these, and holds the nonce of the next seal.
  */
  method ReadInStep(w: Writer, r: Reader, i: nat) returns (out: seq<Bytes>)
    requires w.Good() && !w.broken && w.start == [] && i <= |w.records|
    requires forall j :: 0 <= j < i ==> 0 < |w.records[j].Payload()| <= MAX_PAYLOAD
    requires r.Fits() && r.NoncesOk() && r.opens == 0 && r.nonce != w.nonce
    requires r.aead == w.aead && r.src.data == Flatten(w.sink.log)
    modifies r`opens, r.nonce, r.src
    ensures out == Payloads(w.records[..i])
    ensures r.opens == SealCount(w.records[..i]) <= |w.nonces|
    ensures r.nonce[..] == if r.opens < |w.nonces| then w.nonces[r.opens] else w.nonce[..]
  {
    ghost var rs := w.records;
    assert [] + Wire(w.aead, 0, rs) == Wire(w.aead, 0, rs);
    out := ReadData(r, rs, i);
    assert rs == rs[..i] + rs[i..];
    SealCountAppend(rs[..i], rs[i..]);
  }

  method ReadData(r: Reader, ghost rs: seq<Record>, i: nat) returns (out: seq<Bytes>)
    requires r.Fits() && r.NoncesOk() && r.opens == 0 && i <= |rs|
    requires forall j :: 0 <= j < i ==> 0 < |rs[j].Payload()| <= MAX_PAYLOAD
    requires r.src.data == Flatten(Wire(r.aead, 0, rs))
    modifies r`opens, r.nonce, r.src
    ensures r.NoncesOk() && r.opens == SealCount(rs[..i]) && out == Payloads(rs[..i])
  {
    out := [];
    var p := new byte[MAX_PAYLOAD + r.aead.tag];
    var j := 0;
    assert rs[0..] == rs;
    while j < i
      invariant j <= i && out == Payloads(rs[..j])
      invariant r.NoncesOk() && r.opens == SealCount(rs[..j])
      invariant r.src.data == Flatten(Wire(r.aead, r.opens, rs[j..]))
    {
      var chunk := ReadNext(r, p, rs, j);
      FirstRecords(rs, j);
      out := out + [chunk];
      j := j + 1;
    }
  }

  method ReadNext(r: Reader, p: array<byte>, ghost rs: seq<Record>, ghost j: nat) returns (chunk: Bytes)
    requires r.Fits() && r.NoncesOk() && p != r.nonce && p.Length >= MAX_PAYLOAD + r.aead.tag
    requires j < |rs| && 0 < |rs[j].Payload()| <= MAX_PAYLOAD
    requires r.src.data == Flatten(Wire(r.aead, r.opens, rs[j..]))
    modifies r`opens, r.nonce, r.src, p
    ensures r.NoncesOk() && r.opens == old(r.opens) + 2 && chunk == rs[j].Payload()
    ensures r.src.data == Flatten(Wire(r.aead, r.opens, rs[j + 1..]))
  {
    NextRecord(r.aead, r.opens, rs, j);
    var n, err := r.ReadRecord(p);
    chunk := p[..n];
  }

  lemma NextRecord(a: Aead, k: nat, rs: seq<Record>, j: nat)
    requires a.Lawful() && j < |rs| && 0 < |rs[j].Payload()| <= MAX_PAYLOAD
    ensures ReadChunk(a, k, Flatten(Wire(a, k, rs[j..]))) == Chunk(rs[j].payload, Flatten(Wire(a, k + 2, rs[j + 1..])))
  {
    assert rs[j..] == [rs[j]] + rs[j + 1..] && rs[j] == Sized(rs[j].payload);
    WireCons(a, k, rs[j], rs[j + 1..]);
    ReadFrame(a, k, rs[j].payload, Flatten(Wire(a, k + 2, rs[j + 1..])));
  }

  lemma FirstRecords(rs: seq<Record>, j: nat)
    requires j < |rs| && rs[j].Payload() != []
    ensures SealCount(rs[..j + 1]) == SealCount(rs[..j]) + 2
    ensures Payloads(rs[..j + 1]) == Payloads(rs[..j]) + [rs[j].Payload()]
  {
    assert rs[..j + 1] == rs[..j] + [rs[j]];
    SealCountAppend(rs[..j], [rs[j]]);
    PayloadsAppend(rs[..j], [rs[j]]);
    assert SealCount([rs[j]]) == 2 && Payloads([rs[j]]) == [rs[j].Payload()];
  }
}
