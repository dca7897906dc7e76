/**
The two copy loops of a UDP session and the symmetric-NAT filter (tunnel/udp.go), as a step system
over time.  Reading the clock and setting a deadline are two steps, so the loops can overtake each
other between them.
*/
module UdpSession {
  import opened Bytes

  /** The two connections.  The loop that reads from a connection goes by the same name. */
  datatype Side = Origin | Remote
  {
    function Other(): Side {
      if Origin? then Remote else Origin
    }
  }

  /** What one `ReadFrom` of the underlying connection returns. */
  datatype Result = Result(payload: Bytes, from: Option<nat>, failed: bool)

  datatype End = TimedOut | ReadFailed | WriteFailed(payload: Bytes)

  /** The program counter of `copyPacketData`; t is a clock reading about to become a deadline. */
  datatype Pc =
    | SampleSource | SetSource(t: nat)
    | Reading | Writing(payload: Bytes)
    | SampleTarget | SetTarget(t: nat)
    | Finished(why: End)
  {
    predicate Pending() {
      SetSource? || SetTarget?
    }
  }

  /** A loop, with a record of the deadline the other loop has set in the meantime, if any. */
  datatype Loop = Loop(pc: Pc, rival: Option<nat>)

  /**
  A connection: the clock reading behind its read deadline, the results its peer produces and how
  many of them were taken, and the datagrams written to it.  `latest` records the latest clock
  reading that was ever made into a deadline here.
  */
  datatype Conn = Conn(armed: Option<nat>, results: seq<Result>, taken: nat, out: seq<Bytes>, latest: nat)

  datatype State = State(now: nat, origin: Conn, remote: Conn, up: Loop, down: Loop)
  {
    function ConnOf(c: Side): Conn {
      if c.Origin? then origin else remote
    }

    function LoopOf(l: Side): Loop {
      if l.Origin? then up else down
    }

    function WithConn(c: Side, x: Conn): State {
      if c.Origin? then this.(origin := x) else this.(remote := x)
    }

    function WithLoop(l: Side, x: Loop): State {
      if l.Origin? then this.(up := x) else this.(down := x)
    }
  }

  /** The connection whose deadline a loop is about to set. */
  function Aim(l: Side, pc: Pc): Side {
    if pc.SetTarget? then l.Other() else l
  }

  datatype Step =
    | Wait(d: nat)
    | Arrive(side: Side, r: Result)
    | Act(loop: Side)
    | FailWrite(loop: Side)
    | Expire(loop: Side)

  /** The session's peer and its timeout. */
  datatype Config = Config(dst: nat, timeout: nat)

  /** `symmetricNATPacketConn`: only the remote side filters, on the source address alone. */
  predicate Passes(k: Config, c: Side, r: Result) {
    c.Origin? || r.from.None? || r.from.value == k.dst
  }

  predicate Enabled(k: Config, s: State, step: Step) {
    match step
    case Wait(_) => true
    case Arrive(_, _) => true
    case Act(l) =>
      var pc := s.LoopOf(l).pc;
      !pc.Finished? && (pc.Reading? ==> s.ConnOf(l).taken < |s.ConnOf(l).results|)
    case FailWrite(l) => s.LoopOf(l).pc.Writing?
    case Expire(l) =>
      s.LoopOf(l).pc.Reading? && s.ConnOf(l).armed.Some? && s.now >= s.ConnOf(l).armed.value + k.timeout
  }

  function Next(k: Config, s: State, step: Step): State
    requires Enabled(k, s, step)
  {
    match step
    case Wait(d) => s.(now := s.now + d)
    case Arrive(c, r) => s.WithConn(c, s.ConnOf(c).(results := s.ConnOf(c).results + [r]))
    case Act(l) => ActOf(k, s, l)
    case FailWrite(l) => s.WithLoop(l, Loop(Finished(WriteFailed(s.LoopOf(l).pc.payload)), None))
    case Expire(l) => s.WithLoop(l, Loop(Finished(TimedOut), None))
  }

  /** The next action of a loop. */
  function ActOf(k: Config, s: State, l: Side): State
    requires Enabled(k, s, Act(l))
  {
    match s.LoopOf(l).pc
    case SampleSource => s.WithLoop(l, Loop(SetSource(s.now), None))
    case SetSource(t) => Arm(s, l, t).WithLoop(l, Loop(Reading, None))
    case Reading =>
      var c := s.ConnOf(l);
      var r := c.results[c.taken];
      var pc := if !Passes(k, l, r) then Reading
                else if r.failed then Finished(ReadFailed)
                else Writing(r.payload);
      s.WithConn(l, c.(taken := c.taken + 1)).WithLoop(l, Loop(pc, None))
    case Writing(p) =>
      var c := s.ConnOf(l.Other());
      s.WithConn(l.Other(), c.(out := c.out + [p])).WithLoop(l, Loop(SampleTarget, None))
    case SampleTarget => s.WithLoop(l, Loop(SetTarget(s.now), None))
    case SetTarget(t) => Arm(s, l, t).WithLoop(l, Loop(SampleSource, None))
  }

  /** `SetReadDeadline(t + timeout)`; the other loop, if it is about to do the same, has been overtaken. */
  function Arm(s: State, l: Side, t: nat): State {
    var c := Aim(l, s.LoopOf(l).pc);
    var x := s.ConnOf(c);
    var o := s.LoopOf(l.Other());
    var rival := if o.pc.Pending() && Aim(l.Other(), o.pc) == c then Some(t) else o.rival;
    s.WithConn(c, x.(armed := Some(t), latest := if t > x.latest then t else x.latest))
     .WithLoop(l.Other(), o.(rival := rival))
  }

  predicate Fresh(c: Conn) {
    c.armed.None? && |c.results| == 0 && c.taken == 0 && |c.out| == 0 && c.latest == 0
  }

  predicate Initial(s: State) {
    Fresh(s.origin) && Fresh(s.remote) && s.up == Loop(SampleSource, None) && s.down == Loop(SampleSource, None)
  }

  // ---------------------------------------------------------------- what is delivered

  /** The payloads of the results that pass the filter and are no errors, in order. */
  function Passed(k: Config, c: Side, rs: seq<Result>): seq<Bytes> {
    if rs == [] then []
    else
      var r := rs[|rs| - 1];
      Passed(k, c, rs[..|rs| - 1]) + if Passes(k, c, r) && !r.failed then [r.payload] else []
  }

  /** The datagram a loop holds in its hands. */
  function Held(pc: Pc): seq<Bytes> {
    if pc.Writing? then [pc.payload]
    else if pc.Finished? && pc.why.WriteFailed? then [pc.why.payload]
    else []
  }

  ghost predicate Delivers(k: Config, s: State, l: Side) {
    var c := s.ConnOf(l);
    c.taken <= |c.results| && s.ConnOf(l.Other()).out + Held(s.LoopOf(l).pc) == Passed(k, l, c.results[..c.taken])
  }

  // ---------------------------------------------------------------- the deadlines

  /**
  Clock readings are not in the future, and a loop about to set a deadline knows whether it has been
  overtaken: the latest reading made into that deadline is its own or its rival's, and its rival, if
  about to set a deadline again, has a reading no older than its last one.
  */
  ghost predicate Clocked(s: State, l: Side) {
    var c := s.ConnOf(l);
    var x := s.LoopOf(l);
    && ArmedOk(s.now, c.armed, c.latest)
    && (x.pc.Pending() ==>
          var a := s.ConnOf(Aim(l, x.pc));
          SetterOk(s.now, x.pc.t, x.rival, a.armed, a.latest, s.LoopOf(l.Other()).pc))
  }

  ghost predicate ArmedOk(now: nat, armed: Option<nat>, latest: nat) {
    if armed.Some? then armed.value <= latest <= now else latest == 0
  }

  ghost predicate SetterOk(now: nat, t: nat, rival: Option<nat>, armed: Option<nat>, latest: nat, other: Pc) {
    && t <= now
    && (if rival.Some? then armed == rival else armed.None? || armed.value <= t)
    && (latest <= t || (rival.Some? && latest <= rival.value))
    && (rival.Some? && other.Pending() ==> rival.value <= other.t)
  }

  ghost predicate Inv(k: Config, s: State) {
    (forall l: Side :: Delivers(k, s, l)) && (forall l: Side :: Clocked(s, l))
  }

  lemma TakeOne(k: Config, c: Conn, l: Side)
    requires c.taken < |c.results|
    ensures var r := c.results[c.taken];
            Passed(k, l, c.results[..c.taken + 1]) ==
            Passed(k, l, c.results[..c.taken]) + if Passes(k, l, r) && !r.failed then [r.payload] else []
  {
    assert c.results[..c.taken + 1][..c.taken] == c.results[..c.taken];
  }

  lemma ActDelivers(k: Config, s: State, m: Side, l: Side)
    requires Delivers(k, s, l) && Enabled(k, s, Act(m))
    ensures Delivers(k, ActOf(k, s, m), l)
  {
    if m == l && s.LoopOf(l).pc.Reading? {
      TakeOne(k, s.ConnOf(l), l);
    }
  }

  lemma StepDelivers(k: Config, s: State, step: Step, l: Side)
    requires Delivers(k, s, l) && Enabled(k, s, step)
    ensures Delivers(k, Next(k, s, step), l)
  {
    match step
    case Act(m) => ActDelivers(k, s, m, l);
    case Arrive(c, r) =>
      if c == l {
        var x := s.ConnOf(l);
        assert (x.results + [r])[..x.taken] == x.results[..x.taken];
      }
    case Wait(_) =>
    case FailWrite(_) =>
    case Expire(_) =>
  }

  lemma ActClocked(k: Config, s: State, m: Side, l: Side)
    requires Clocked(s, l) && Clocked(s, l.Other()) && Enabled(k, s, Act(m))
    ensures Clocked(ActOf(k, s, m), l)
  {
    if s.LoopOf(m).pc.Pending() {
      if m == l {
        OwnSetClocked(k, s, l);
      } else {
        RivalSetClocked(k, s, l);
      }
    } else {
      PlainActClocked(k, s, m, l);
    }
  }

  lemma PlainActClocked(k: Config, s: State, m: Side, l: Side)
    requires Clocked(s, l) && Clocked(s, l.Other()) && Enabled(k, s, Act(m)) && !s.LoopOf(m).pc.Pending()
    ensures Clocked(ActOf(k, s, m), l)
  {
    PlainAct(k, s, m);
    SameClocks(s, ActOf(k, s, m), m, l);
  }

  /** Until it is about to set a deadline, a loop changes no clock reading but its own. */
  lemma PlainAct(k: Config, s: State, m: Side)
    requires Enabled(k, s, Act(m)) && !s.LoopOf(m).pc.Pending()
    ensures var t := ActOf(k, s, m); Quiet(s, t, m)
  {
  }

  ghost predicate Quiet(s: State, t: State, m: Side) {
    && t.now == s.now && t.LoopOf(m.Other()) == s.LoopOf(m.Other())
    && (forall c: Side :: t.ConnOf(c).armed == s.ConnOf(c).armed && t.ConnOf(c).latest == s.ConnOf(c).latest)
    && (t.LoopOf(m) == s.LoopOf(m)
        || (t.LoopOf(m).pc.Pending() ==> t.LoopOf(m).pc.t == s.now && t.LoopOf(m).rival.None?))
  }

  lemma SameClocks(s: State, t: State, m: Side, l: Side)
    requires Clocked(s, l) && Clocked(s, l.Other()) && Quiet(s, t, m)
    ensures Clocked(t, l)
  {
    assert m == l || m.Other() == l;
    assert forall c: Side :: ArmedOk(s.now, s.ConnOf(c).armed, s.ConnOf(c).latest);
  }

  lemma OwnSetClocked(k: Config, s: State, l: Side)
    requires Clocked(s, l) && Enabled(k, s, Act(l)) && s.LoopOf(l).pc.Pending()
    ensures Clocked(ActOf(k, s, l), l)
  {
    var t := ActOf(k, s, l);
    assert !t.LoopOf(l).pc.Pending();
  }

  /** The other loop sets a deadline: if this loop was about to set the same one, it now knows. */
  lemma RivalSetClocked(k: Config, s: State, l: Side)
    requires Clocked(s, l) && Clocked(s, l.Other()) && Enabled(k, s, Act(l.Other()))
    requires s.LoopOf(l.Other()).pc.Pending()
    ensures Clocked(ActOf(k, s, l.Other()), l)
  {
    var m := l.Other();
    var t := ActOf(k, s, m);
    assert t.LoopOf(l).pc == s.LoopOf(l).pc;
    assert m.Other() == l;
  }

  lemma StepClocked(k: Config, s: State, step: Step, l: Side)
    requires Clocked(s, l) && Clocked(s, l.Other()) && Enabled(k, s, step)
    ensures Clocked(Next(k, s, step), l)
  {
    match step
    case Act(m) => ActClocked(k, s, m, l);
    case Arrive(c, r) => SameClocks(s, Next(k, s, step), l, l);
    case Wait(d) => WaitClocked(s, d, l);
    case FailWrite(m) => SameClocks(s, Next(k, s, step), m, l);
    case Expire(m) => SameClocks(s, Next(k, s, step), m, l);
  }

  lemma WaitClocked(s: State, d: nat, l: Side)
    requires Clocked(s, l)
    ensures Clocked(s.(now := s.now + d), l)
  {
  }

  // ---------------------------------------------------------------- all runs

  lemma StepKeepsInv(k: Config, s: State, step: Step)
    requires Inv(k, s) && Enabled(k, s, step)
    ensures Inv(k, Next(k, s, step))
  {
    forall l: Side ensures Delivers(k, Next(k, s, step), l) {
      StepDelivers(k, s, step, l);
    }
    forall l: Side ensures Clocked(Next(k, s, step), l) {
      StepClocked(k, s, step, l);
    }
  }

  ghost predicate IsRun(k: Config, s: State, steps: seq<Step>)
    decreases |steps|
  {
    steps == [] || (Enabled(k, s, steps[0]) && IsRun(k, Next(k, s, steps[0]), steps[1..]))
  }

  function Exec(k: Config, s: State, steps: seq<Step>): State
    requires IsRun(k, s, steps)
    decreases |steps|
  {
    if steps == [] then s else Exec(k, Next(k, s, steps[0]), steps[1..])
  }

  lemma {:induction false} RunKeepsInv(k: Config, s: State, steps: seq<Step>)
    requires Inv(k, s) && IsRun(k, s, steps)
    ensures Inv(k, Exec(k, s, steps))
    decreases |steps|
  {
    if steps != [] {
      StepKeepsInv(k, s, steps[0]);
      RunKeepsInv(k, Next(k, s, steps[0]), steps[1..]);
    }
  }

  lemma InitialInv(k: Config, s: State)
    requires Initial(s)
    ensures Inv(k, s)
  {
    forall l: Side ensures Delivers(k, s, l) && Clocked(s, l) {
      InitialSide(k, s, l);
    }
  }

  lemma InitialSide(k: Config, s: State, l: Side)
    requires Initial(s)
    ensures Delivers(k, s, l) && Clocked(s, l)
  {
  }

  /** The positions of the results that a loop passes on, in order. */
  function Picks(k: Config, c: Side, rs: seq<Result>): (idx: seq<nat>) {
    if rs == [] then []
    else
      var n := |rs| - 1;
      Picks(k, c, rs[..n]) + if Passes(k, c, rs[n]) && !rs[n].failed then [n] else []
  }

  /** It picks all that come without an error from nowhere in particular or, at the remote side, from the peer. */
  lemma {:induction false} PicksExactly(k: Config, c: Side, rs: seq<Result>)
    ensures forall i: nat :: i in Picks(k, c, rs) <==>
              i < |rs| && !rs[i].failed && (c == Origin || rs[i].from.None? || rs[i].from == Some(k.dst))
  {
    if rs != [] {
      var n := |rs| - 1;
      PicksExactly(k, c, rs[..n]);
      assert forall i :: 0 <= i < n ==> rs[..n][i] == rs[i];
    }
  }

  ghost predicate Increasing(idx: seq<nat>, bound: nat) {
    && (forall j :: 0 <= j < |idx| ==> idx[j] < bound)
    && (forall i, j :: 0 <= i < j < |idx| ==> idx[i] < idx[j])
  }

  lemma IncreasingSnoc(idx: seq<nat>, n: nat)
    requires Increasing(idx, n)
    ensures Increasing(idx, n + 1) && Increasing(idx + [n], n + 1)
  {
  }

  lemma {:induction false} PicksInOrder(k: Config, c: Side, rs: seq<Result>)
    ensures Increasing(Picks(k, c, rs), |rs|)
  {
    if rs != [] {
      var n := |rs| - 1;
      PicksInOrder(k, c, rs[..n]);
      IncreasingSnoc(Picks(k, c, rs[..n]), n);
    }
  }

  lemma {:induction false} PicksPayloads(k: Config, c: Side, rs: seq<Result>)
    ensures var idx := Picks(k, c, rs);
            && |Passed(k, c, rs)| == |idx|
            && (forall j :: 0 <= j < |idx| ==> idx[j] < |rs| && Passed(k, c, rs)[j] == rs[idx[j]].payload)
  {
    if rs != [] {
      var n := |rs| - 1;
      PicksPayloads(k, c, rs[..n]);
      assert forall i :: 0 <= i < n ==> rs[..n][i] == rs[i];
    }
  }

  /**
  After every run: the datagrams written to a side, with the one the loop still holds, are the
  unmodified payloads of results taken from the other side, in order: of all those, and only those,
  that are no errors and, if they come from the remote side, have no address or the peer's.
  */
  lemma Delivery(k: Config, init: State, steps: seq<Step>, l: Side) returns (idx: seq<nat>)
    requires Initial(init) && IsRun(k, init, steps)
    ensures var s := Exec(k, init, steps);
            var rs, got := s.ConnOf(l).results, s.ConnOf(l.Other()).out + Held(s.LoopOf(l).pc);
            && s.ConnOf(l).taken <= |rs|
            && (forall i: nat :: i in idx <==>
                  && i < s.ConnOf(l).taken && !rs[i].failed
                  && (l == Origin || rs[i].from.None? || rs[i].from == Some(k.dst)))
            && Increasing(idx, s.ConnOf(l).taken)
            && |got| == |idx| && (forall j :: 0 <= j < |idx| ==> idx[j] in idx && got[j] == rs[idx[j]].payload)
  {
    InitialInv(k, init);
    RunKeepsInv(k, init, steps);
    var c := Exec(k, init, steps).ConnOf(l);
    assert Delivers(k, Exec(k, init, steps), l);
    PicksExactly(k, l, c.results[..c.taken]);
    PicksInOrder(k, l, c.results[..c.taken]);
    PicksPayloads(k, l, c.results[..c.taken]);
    idx := Picks(k, l, c.results[..c.taken]);
  }

  // ---------------------------------------------------------------- when a deadline moves back

  ghost predicate MovesBack(s: State, t: State, c: Side) {
    s.ConnOf(c).armed.Some? && (t.ConnOf(c).armed.None? || t.ConnOf(c).armed.value < s.ConnOf(c).armed.value)
  }

  /** The step is the call that sets the deadline of c. */
  ghost predicate Sets(s: State, step: Step, c: Side) {
    step.Act? && s.LoopOf(step.loop).pc.Pending() && Aim(step.loop, s.LoopOf(step.loop).pc) == c
  }

  /** A loop sets the deadline of c after the other one has set it from a later clock reading. */
  ghost predicate Overtaken(s: State, step: Step, c: Side) {
    && Sets(s, step, c)
    && s.LoopOf(step.loop).rival.Some? && s.LoopOf(step.loop).rival.value > s.LoopOf(step.loop).pc.t
  }

  /**
  Only the two `SetReadDeadline` calls touch a deadline: that of the loop which reads from the
  connection, before it reads, and that of the loop which writes to it, after it has written.
  */
  lemma OnlySetsArm(k: Config, s: State, step: Step, c: Side)
    requires Enabled(k, s, step)
    ensures Next(k, s, step).ConnOf(c).armed ==
            if step == Act(c) && s.LoopOf(c).pc.SetSource? then Some(s.LoopOf(c).pc.t)
            else if step == Act(c.Other()) && s.LoopOf(c.Other()).pc.SetTarget? then Some(s.LoopOf(c.Other()).pc.t)
            else s.ConnOf(c).armed
    ensures Sets(s, step, c) <==> (step == Act(c) && s.LoopOf(c).pc.SetSource?)
                                  || (step == Act(c.Other()) && s.LoopOf(c.Other()).pc.SetTarget?)
    ensures !Sets(s, step, c) ==> Next(k, s, step).ConnOf(c).latest == s.ConnOf(c).latest
  {
  }

  /** A loop past its first deadline call, and not back before it, has a deadline on its connection. */
  ghost predicate Guarded(s: State, l: Side) {
    var pc := s.LoopOf(l).pc;
    pc.Reading? || pc.Writing? || pc.SampleTarget? || pc.SetTarget? ==> s.ConnOf(l).armed.Some?
  }

  lemma StepGuarded(k: Config, s: State, step: Step, l: Side)
    requires Guarded(s, l) && Enabled(k, s, step)
    ensures Guarded(Next(k, s, step), l)
  {
    OnlySetsArm(k, s, step, l);
  }

  /** No loop ever reads without a deadline, so a silent connection always comes to an end. */
  lemma {:induction false} ReadsUnderDeadline(k: Config, s: State, steps: seq<Step>, l: Side)
    requires Guarded(s, l) && IsRun(k, s, steps)
    ensures Guarded(Exec(k, s, steps), l)
    ensures var t := Exec(k, s, steps);
            t.LoopOf(l).pc.Reading? ==>
              t.ConnOf(l).armed.Some? && Enabled(k, Next(k, t, Wait(t.ConnOf(l).armed.value + k.timeout)), Expire(l))
    decreases |steps|
  {
    if steps != [] {
      StepGuarded(k, s, steps[0], l);
      ReadsUnderDeadline(k, Next(k, s, steps[0]), steps[1..], l);
    }
  }

  /** A deadline moves back in exactly one way: its setter has been overtaken. */
  lemma MovesBackIff(k: Config, s: State, step: Step, c: Side)
    requires Inv(k, s) && Enabled(k, s, step)
    ensures MovesBack(s, Next(k, s, step), c) <==> Overtaken(s, step, c)
  {
    OnlySetsArm(k, s, step, c);
    if step.Act? && s.LoopOf(step.loop).pc.Pending() {
      assert Clocked(s, step.loop);
    }
  }

  /** It can happen: a run from the start at the end of which the remote deadline is set back. */
  lemma DeadlineGoesBack(k: Config, init: State)
    requires Initial(init)
    ensures var run := BackwardRun();
            && IsRun(k, init, run[..9]) && Enabled(k, Exec(k, init, run[..9]), run[9])
            && MovesBack(Exec(k, init, run[..9]), Next(k, Exec(k, init, run[..9]), run[9]), Remote)
  {
    var run := BackwardRun();
    BackwardFrom(k, init, init.now, 0, run);
    assert run[0..9] == run[..9];
  }

  function BackwardRun(): seq<Step> {
    var r := Result([], None, false);
    [Act(Origin), Act(Origin), Arrive(Origin, r), Act(Origin), Act(Origin), Act(Origin), Wait(1), Act(Remote), Act(Remote),
     Act(Origin)]
  }

  ghost predicate OnTheWayBack(s: State, t0: nat, i: nat) {
    && s.now == (if i < 7 then t0 else t0 + 1)
    && s.up.pc == (match i case 0 => SampleSource case 1 => SetSource(t0) case 2 => Reading case 3 => Reading
                           case 4 => Writing([]) case 5 => SampleTarget case _ => SetTarget(t0))
    && s.down.pc == (if i < 8 then SampleSource else if i == 8 then SetSource(t0 + 1) else Reading)
    && s.remote.armed == (if i < 9 then None else Some(t0 + 1))
    && s.remote.latest == (if i < 9 then 0 else t0 + 1)
    && s.origin.taken == (if i < 4 then 0 else 1)
    && s.origin.results == (if i < 3 then [] else [Result([], None, false)])
  }

  lemma BackwardStep(k: Config, s: State, t0: nat, i: nat)
    requires i < 10 && OnTheWayBack(s, t0, i)
    ensures Enabled(k, s, BackwardRun()[i])
    ensures var t := Next(k, s, BackwardRun()[i]);
            if i < 9 then OnTheWayBack(t, t0, i + 1)
            else t.now == t0 + 1 && t.down.pc == Reading && t.remote.armed == Some(t0) && t.remote.latest == t0 + 1
  {
  }

  lemma BackwardFrom(k: Config, s: State, t0: nat, i: nat, run: seq<Step>)
    requires i <= 9 && run == BackwardRun() && OnTheWayBack(s, t0, i)
    ensures IsRun(k, s, run[i..9]) && Enabled(k, Exec(k, s, run[i..9]), run[9])
    ensures MovesBack(Exec(k, s, run[i..9]), Next(k, Exec(k, s, run[i..9]), run[9]), Remote)
    decreases 9 - i
  {
    if i < 9 {
      assert run[i..9][0] == run[i] && run[i..9][1..] == run[i + 1..9];
      BackwardStep(k, s, t0, i);
      BackwardFrom(k, Next(k, s, run[i]), t0, i + 1, run);
    }
  }

  /** Six actions in a row. */
  function Round(l: Side): seq<Step> {
    [Act(l), Act(l), Act(l), Act(l), Act(l), Act(l)]
  }

  ghost predicate InRound(s: State, t: State, l: Side, payload: Bytes, i: nat) {
    var c, o := t.ConnOf(l), t.ConnOf(l.Other());
    && t.now == s.now
    && t.LoopOf(l).pc == (match i case 1 => Writing(payload) case 2 => SampleTarget case 3 => SetTarget(s.now)
                                  case 4 => SampleSource case 5 => SetSource(s.now) case _ => Reading)
    && c.taken == s.ConnOf(l).taken + (if i < 1 then 0 else 1) && c.results == s.ConnOf(l).results
    && o.out == s.ConnOf(l.Other()).out + (if i < 2 then [] else [payload])
    && (i >= 4 ==> o.armed == Some(s.now)) && (i >= 6 ==> c.armed == Some(s.now))
  }

  /**
  One undisturbed round of a loop with a datagram that is passed on: it is taken, written to the
  other side, and both connections have their deadlines set from now.
  */
  lemma RoundRefreshes(k: Config, s: State, l: Side)
    requires s.LoopOf(l).pc.Reading? && s.ConnOf(l).taken < |s.ConnOf(l).results|
    requires var r := s.ConnOf(l).results[s.ConnOf(l).taken];
             !r.failed && (l == Origin || r.from.None? || r.from == Some(k.dst))
    ensures IsRun(k, s, Round(l))
    ensures var t := Exec(k, s, Round(l));
            && t.LoopOf(l).pc.Reading? && t.ConnOf(l).taken == s.ConnOf(l).taken + 1
            && t.ConnOf(l.Other()).out ==
               s.ConnOf(l.Other()).out + [s.ConnOf(l).results[s.ConnOf(l).taken].payload]
            && t.ConnOf(l).armed == Some(s.now) && t.ConnOf(l.Other()).armed == Some(s.now)
  {
    RoundFrom(k, s, s, l, s.ConnOf(l).results[s.ConnOf(l).taken], 0);
    assert Round(l)[0..] == Round(l);
  }

  lemma RoundFrom(k: Config, s: State, t: State, l: Side, r: Result, i: nat)
    requires i <= 6 && InRound(s, t, l, r.payload, i)
    requires s.ConnOf(l).taken < |s.ConnOf(l).results| && s.ConnOf(l).results[s.ConnOf(l).taken] == r
    requires !r.failed && (l == Origin || r.from.None? || r.from == Some(k.dst))
    ensures IsRun(k, t, Round(l)[i..]) && InRound(s, Exec(k, t, Round(l)[i..]), l, r.payload, 6)
    decreases 6 - i
  {
    if i < 6 {
      assert Round(l)[i..][0] == Act(l) && Round(l)[i..][1..] == Round(l)[i + 1..];
      RoundStep(k, s, t, l, r, i);
      RoundFrom(k, s, ActOf(k, t, l), l, r, i + 1);
    }
  }

  lemma RoundStep(k: Config, s: State, t: State, l: Side, r: Result, i: nat)
    requires i < 6 && InRound(s, t, l, r.payload, i)
    requires s.ConnOf(l).taken < |s.ConnOf(l).results| && s.ConnOf(l).results[s.ConnOf(l).taken] == r
    requires !r.failed && (l == Origin || r.from.None? || r.from == Some(k.dst))
    ensures Enabled(k, t, Act(l)) && InRound(s, ActOf(k, t, l), l, r.payload, i + 1)
  {
    assert l.Other().Other() == l && l.Other() != l;
  }

  // ---------------------------------------------------------------- when a timeout is early

  /** The deadline stands for the latest clock reading it was ever set from. */
  predicate UpToDate(c: Conn) {
    c.armed.Some? ==> c.armed.value == c.latest
  }

  /** A set leaves the deadline at the latest reading exactly if its setter was not overtaken. */
  lemma SetUpToDateIff(k: Config, s: State, step: Step, c: Side)
    requires Inv(k, s) && Enabled(k, s, step) && Sets(s, step, c)
    ensures UpToDate(Next(k, s, step).ConnOf(c)) <==> !Overtaken(s, step, c)
  {
    assert Clocked(s, step.loop) && Clocked(s, step.loop.Other());
    OnlySetsArm(k, s, step, c);
  }

  /** Whether the last call in the run that set the deadline of c had been overtaken; `before` if there is none. */
  ghost predicate LastSetOvertaken(k: Config, s: State, steps: seq<Step>, c: Side, before: bool)
    requires IsRun(k, s, steps)
    decreases |steps|
  {
    if steps == [] then before
    else
      var now := if Sets(s, steps[0], c) then Overtaken(s, steps[0], c) else before;
      LastSetOvertaken(k, Next(k, s, steps[0]), steps[1..], c, now)
  }

  lemma {:induction false} RunUpToDateIff(k: Config, s: State, steps: seq<Step>, c: Side, before: bool)
    requires Inv(k, s) && IsRun(k, s, steps) && (UpToDate(s.ConnOf(c)) <==> !before)
    ensures UpToDate(Exec(k, s, steps).ConnOf(c)) <==> !LastSetOvertaken(k, s, steps, c, before)
    decreases |steps|
  {
    if steps != [] {
      var t := Next(k, s, steps[0]);
      StepKeepsInv(k, s, steps[0]);
      OnlySetsArm(k, s, steps[0], c);
      if Sets(s, steps[0], c) {
        SetUpToDateIff(k, s, steps[0], c);
        RunUpToDateIff(k, t, steps[1..], c, Overtaken(s, steps[0], c));
      } else {
        RunUpToDateIff(k, t, steps[1..], c, before);
      }
    }
  }

  /** After every run a deadline stands for the latest activity exactly if its last setter was not overtaken. */
  lemma DeadlineIsLatestIff(k: Config, init: State, steps: seq<Step>, c: Side)
    requires Initial(init) && IsRun(k, init, steps)
    ensures UpToDate(Exec(k, init, steps).ConnOf(c)) <==> !LastSetOvertaken(k, init, steps, c, false)
  {
    InitialInv(k, init);
    RunUpToDateIff(k, init, steps, c, false);
  }

  /** If only time passes, loop l can time out while its connection was active less than the timeout ago. */
  ghost predicate CanTimeOutEarly(k: Config, s: State, l: Side) {
    exists d: nat :: var t := Next(k, s, Wait(d)); Enabled(k, t, Expire(l)) && t.now < t.ConnOf(l).latest + k.timeout
  }

  /**
  After every run: a reading loop can time out early exactly if the last set of its deadline had
  been overtaken and the latest activity is still less than the timeout ago.
  */
  lemma EarlyTimeoutIff(k: Config, init: State, steps: seq<Step>, l: Side)
    requires Initial(init) && IsRun(k, init, steps)
    ensures var s := Exec(k, init, steps);
            CanTimeOutEarly(k, s, l) <==>
            && s.LoopOf(l).pc.Reading? && LastSetOvertaken(k, init, steps, l, false)
            && s.now < s.ConnOf(l).latest + k.timeout
  {
    var s := Exec(k, init, steps);
    DeadlineIsLatestIff(k, init, steps, l);
    InitialInv(k, init);
    RunKeepsInv(k, init, steps);
    assert Clocked(s, l);
    var c := s.ConnOf(l);
    if s.LoopOf(l).pc.Reading? && !UpToDate(c) && s.now < c.latest + k.timeout {
      var d: nat := if s.now >= c.armed.value + k.timeout then 0 else c.armed.value + k.timeout - s.now;
      var t := Next(k, s, Wait(d));
      assert Enabled(k, t, Expire(l)) && t.now < t.ConnOf(l).latest + k.timeout;
    }
  }

  /** So a timeout whose deadline was last set by a loop that had not been overtaken is a real one. */
  lemma TimeoutIsIdle(k: Config, init: State, steps: seq<Step>, l: Side)
    requires Initial(init) && IsRun(k, init, steps) && !LastSetOvertaken(k, init, steps, l, false)
    requires Enabled(k, Exec(k, init, steps), Expire(l))
    ensures var s := Exec(k, init, steps);
            s.now >= s.ConnOf(l).latest + k.timeout
  {
    DeadlineIsLatestIff(k, init, steps, l);
  }

  /** It happens, for every timeout: a run in which the remote connection times out too early. */
  lemma TimesOutEarly(k: Config, init: State)
    requires Initial(init) && k.timeout > 0
    ensures var run := EarlyRun(k.timeout);
            && IsRun(k, init, run)
            && var s := Exec(k, init, run);
               Enabled(k, s, Expire(Remote)) && s.now < s.remote.latest + k.timeout
  {
    EarlyFrom(k, init, init.now, 0, EarlyRun(k.timeout));
  }

  /** The run that sets the deadline back, and then the rest of the timeout as it was before. */
  function EarlyRun(timeout: nat): seq<Step>
    requires timeout > 0
  {
    BackwardRun() + [Wait(timeout - 1)]
  }

  lemma EarlyFrom(k: Config, s: State, t0: nat, i: nat, run: seq<Step>)
    requires k.timeout > 0 && i <= 10 && run == EarlyRun(k.timeout)
    requires if i < 10 then OnTheWayBack(s, t0, i)
             else s.now == t0 + 1 && s.down.pc == Reading && s.remote.armed == Some(t0) && s.remote.latest == t0 + 1
    ensures IsRun(k, s, run[i..])
    ensures var t := Exec(k, s, run[i..]);
            Enabled(k, t, Expire(Remote)) && t.now < t.remote.latest + k.timeout
    decreases 10 - i
  {
    assert run[i..][0] == run[i] && run[i..][1..] == run[i + 1..];
    assert i < 10 ==> run[i] == BackwardRun()[i];
    assert Enabled(k, s, run[i]);
    if i < 10 {
      BackwardStep(k, s, t0, i);
      EarlyFrom(k, Next(k, s, run[i]), t0, i + 1, run);
    }
  }
}
