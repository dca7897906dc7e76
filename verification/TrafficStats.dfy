/**
The traffic counters (tunnel/statistic/manager.go, tunnel/statistic/tracker.go) as a step system:
every atomic load, store and add is one step, and any number of trackers and the ticker
interleave in any order.
*/
module TrafficStats {

  datatype Direction = Up | Down

  /** Where the ticker is within one direction: it loads temp, stores it to blip, stores 0 to temp. */
  datatype Phase = Start | Loaded(v: nat) | Stored(v: nat)

  /** The atomic counters of one direction, followed by a record of their past. */
  datatype Counter = Counter(
    temp: nat,       // added since the last tick
    blip: nat,       // the speed shown to the user
    total: nat,
    published: nat,  // past: the sum of all values stored to blip
    late: nat,       // past: all that was added to temp between a tick's load and its clearing store
    lost: nat)       // past: how much more than it had loaded a tick wiped out
  {
    /** `temp.Add(n)`. */
    function AddTemp(n: nat, p: Phase): Counter {
      this.(temp := temp + n, late := if p.Start? then late else late + n)
    }

    /** `total.Add(n)`. */
    function AddTotal(n: nat): Counter {
      this.(total := total + n)
    }

    /** One atomic action of the ticker. */
    function Tick(p: Phase): Counter {
      match p
      case Start => this
      case Loaded(v) => this.(blip := v, published := published + v)
      case Stored(v) => this.(temp := 0, lost := lost + if temp >= v then temp - v else 0)
    }
  }

  datatype Ticker = Ticker(dir: Direction, phase: Phase)

  /** One tracked connection: its own totals, and whether it is in the manager's map. */
  datatype Tracker = Tracker(up: nat, down: nat, listed: bool)
  {
    function Of(d: Direction): nat {
      if d == Up then up else down
    }
  }

  /** One I/O call on its way through the counters: temp, then total, then the tracker's own. */
  datatype Progress = Begun | InTemp | InTotal | Done

  datatype Call = Call(tracker: nat, dir: Direction, size: nat, at: Progress)

  datatype State = State(up: Counter, down: Counter, trackers: seq<Tracker>, calls: seq<Call>, ticker: Ticker)
  {
    function Of(d: Direction): Counter {
      if d == Up then up else down
    }

    function With(d: Direction, c: Counter): State {
      if d == Up then this.(up := c) else this.(down := c)
    }

    /** The ticker serves one direction at a time. */
    function PhaseOf(d: Direction): Phase {
      if ticker.dir == d then ticker.phase else Start
    }

    /** What the tick has already published and temp still holds. */
    function NotCleared(d: Direction): nat {
      if PhaseOf(d).Stored? then PhaseOf(d).v else 0
    }
  }

  datatype Step =
    | Create
    | Join(tracker: nat)
    | Leave(tracker: nat)
    | Begin(tracker: nat, dir: Direction, size: nat)
    | AddTemp(call: nat)
    | AddTotal(call: nat)
    | AddTracker(call: nat)
    | Tick

  predicate Zero(c: Counter) {
    c.temp == 0 && c.blip == 0 && c.total == 0 && c.published == 0 && c.late == 0 && c.lost == 0
  }

  /** Where the manager starts: every counter zero, no tracker, the ticker waiting. */
  predicate Initial(s: State) {
    Zero(s.up) && Zero(s.down) && |s.trackers| == 0 && |s.calls| == 0 && s.ticker.phase.Start? && s.ticker.dir.Up?
  }

  predicate Enabled(s: State, step: Step) {
    match step
    case Create => true
    case Join(t) => t < |s.trackers|
    case Leave(t) => t < |s.trackers|
    case Begin(t, _, _) => t < |s.trackers|
    case AddTemp(i) => i < |s.calls| && s.calls[i].at == Begun
    case AddTotal(i) => i < |s.calls| && s.calls[i].at == InTemp
    case AddTracker(i) => i < |s.calls| && s.calls[i].at == InTotal && s.calls[i].tracker < |s.trackers|
    case Tick => true
  }

  function Next(s: State, step: Step): State
    requires Enabled(s, step)
  {
    match step
    case Create => s.(trackers := s.trackers + [Tracker(0, 0, false)])
    case Join(t) => s.(trackers := s.trackers[t := s.trackers[t].(listed := true)])
    case Leave(t) => s.(trackers := s.trackers[t := s.trackers[t].(listed := false)])
    case Begin(t, d, n) => s.(calls := s.calls + [Call(t, d, n, Begun)])
    case AddTemp(i) =>
      var x := s.calls[i];
      s.With(x.dir, s.Of(x.dir).AddTemp(x.size, s.PhaseOf(x.dir))).(calls := s.calls[i := x.(at := InTemp)])
    case AddTotal(i) =>
      var x := s.calls[i];
      s.With(x.dir, s.Of(x.dir).AddTotal(x.size)).(calls := s.calls[i := x.(at := InTotal)])
    case AddTracker(i) =>
      var x := s.calls[i];
      var t := s.trackers[x.tracker];
      var t' := if x.dir == Up then t.(up := t.up + x.size) else t.(down := t.down + x.size);
      s.(trackers := s.trackers[x.tracker := t'], calls := s.calls[i := x.(at := Done)])
    case Tick =>
      var d := s.ticker.dir;
      s.With(d, s.Of(d).Tick(s.ticker.phase)).(ticker := NextTick(s.ticker, s.Of(d).temp))
  }

  function NextTick(t: Ticker, temp: nat): Ticker {
    match t.phase
    case Start => Ticker(t.dir, Loaded(temp))
    case Loaded(v) => Ticker(t.dir, Stored(v))
    case Stored(_) => Ticker(if t.dir == Up then Down else Up, Start)
  }

  // ---------------------------------------------------------------- sums

  /** The bytes of the calls of one direction that have got just so far. */
  function Waiting(calls: seq<Call>, d: Direction, at: Progress): nat {
    if calls == [] then 0
    else Waiting(calls[..|calls| - 1], d, at) + Weight(calls[|calls| - 1], d, at)
  }

  function Weight(x: Call, d: Direction, at: Progress): nat {
    if x.dir == d && x.at == at then x.size else 0
  }

  /** The totals of all trackers there ever were. */
  function Tracked(ts: seq<Tracker>, d: Direction): nat {
    if ts == [] then 0 else Tracked(ts[..|ts| - 1], d) + ts[|ts| - 1].Of(d)
  }

  lemma {:induction false} WaitingUpdate(calls: seq<Call>, i: nat, x: Call, d: Direction, at: Progress)
    requires i < |calls|
    ensures Waiting(calls[i := x], d, at) + Weight(calls[i], d, at) == Waiting(calls, d, at) + Weight(x, d, at)
  {
    var n := |calls| - 1;
    if i == n {
      assert calls[i := x][..n] == calls[..n];
    } else {
      assert calls[i := x][..n] == calls[..n][i := x];
      WaitingUpdate(calls[..n], i, x, d, at);
    }
  }

  lemma WaitingAppend(calls: seq<Call>, x: Call, d: Direction, at: Progress)
    ensures Waiting(calls + [x], d, at) == Waiting(calls, d, at) + Weight(x, d, at)
  {
    assert (calls + [x])[..|calls|] == calls;
  }

  lemma {:induction false} TrackedUpdate(ts: seq<Tracker>, i: nat, t: Tracker, d: Direction)
    requires i < |ts|
    ensures Tracked(ts[i := t], d) + ts[i].Of(d) == Tracked(ts, d) + t.Of(d)
  {
    var n := |ts| - 1;
    if i == n {
      assert ts[i := t][..n] == ts[..n];
    } else {
      assert ts[i := t][..n] == ts[..n][i := t];
      TrackedUpdate(ts[..n], i, t, d);
    }
  }

  // ---------------------------------------------------------------- the invariant

  /**
  The books of one direction: its counters, the ticker's phase, the bytes on their way to the
  total and to the trackers, and what the trackers hold.
  */
  ghost predicate Balance(c: Counter, p: Phase, toTotal: nat, toTracker: nat, tracked: nat) {
    && c.published + c.temp + c.lost == c.total + toTotal + (if p.Stored? then p.v else 0)
    && c.lost <= c.late
    && (if p.Start? then c.late == c.lost else c.temp == p.v + (c.late - c.lost))
    && (p.Stored? ==> c.blip == p.v)
    && c.total == tracked + toTracker
  }

  ghost predicate Balanced(s: State, d: Direction) {
    Balance(s.Of(d), s.PhaseOf(d), Waiting(s.calls, d, InTemp), Waiting(s.calls, d, InTotal), Tracked(s.trackers, d))
  }

  ghost predicate Inv(s: State) {
    && (forall d: Direction :: Balanced(s, d))
    && (forall i :: 0 <= i < |s.calls| ==> s.calls[i].tracker < |s.trackers|)
  }

  lemma BalanceAdds(c: Counter, p: Phase, toTotal: nat, toTracker: nat, tracked: nat, n: nat)
    requires Balance(c, p, toTotal, toTracker, tracked)
    ensures Balance(c.AddTemp(n, p), p, toTotal + n, toTracker, tracked)
    ensures n <= toTotal ==> Balance(c.AddTotal(n), p, toTotal - n, toTracker + n, tracked)
    ensures n <= toTracker ==> Balance(c, p, toTotal, toTracker - n, tracked + n)
  {
  }

  /** How one call's progress moves its bytes between the sums. */
  lemma Moved(s: State, i: nat, at: Progress, d: Direction)
    requires i < |s.calls| && s.calls[i].at != at
    ensures var x := s.calls[i];
            var calls := s.calls[i := x.(at := at)];
            var n := if x.dir == d then x.size else 0;
            forall p: Progress :: Waiting(calls, d, p) ==
              Waiting(s.calls, d, p) + (if p == at then n else 0) - (if p == x.at then n else 0)
  {
    var x := s.calls[i];
    forall p: Progress
      ensures Waiting(s.calls[i := x.(at := at)], d, p) ==
              Waiting(s.calls, d, p) + Weight(x.(at := at), d, p) - Weight(x, d, p)
    {
      WaitingUpdate(s.calls, i, x.(at := at), d, p);
    }
  }

  /** What a counter step of a call does to the books of direction d. */
  lemma CallView(s: State, i: nat, d: Direction)
    requires i < |s.calls| && (s.calls[i].at == Begun || s.calls[i].at == InTemp)
    ensures var x := s.calls[i];
            var step := if x.at == Begun then AddTemp(i) else AddTotal(i);
            var t := Next(s, step);
            && t.PhaseOf(d) == s.PhaseOf(d) && t.trackers == s.trackers
            && t.calls == s.calls[i := x.(at := if x.at == Begun then InTemp else InTotal)]
            && t.Of(d) == if x.dir != d then s.Of(d)
                          else if x.at == Begun then s.Of(d).AddTemp(x.size, s.PhaseOf(d))
                          else s.Of(d).AddTotal(x.size)
  {
  }

  lemma BooksOf(s: State, d: Direction, c: Counter, p: Phase, toTotal: nat, toTracker: nat, tracked: nat)
    requires s.Of(d) == c && s.PhaseOf(d) == p
    requires Waiting(s.calls, d, InTemp) == toTotal && Waiting(s.calls, d, InTotal) == toTracker
    requires Tracked(s.trackers, d) == tracked
    ensures Balanced(s, d) <==> Balance(c, p, toTotal, toTracker, tracked)
  {
  }

  lemma AddTempKeeps(s: State, i: nat, d: Direction)
    requires Balanced(s, d) && Enabled(s, AddTemp(i))
    ensures Balanced(Next(s, AddTemp(i)), d)
  {
    var n := if s.calls[i].dir == d then s.calls[i].size else 0;
    var c, p, k := s.Of(d), s.PhaseOf(d), Tracked(s.trackers, d);
    var w, v := Waiting(s.calls, d, InTemp), Waiting(s.calls, d, InTotal);
    CallView(s, i, d);
    Moved(s, i, InTemp, d);
    BalanceAdds(c, p, w, v, k, n);
    BooksOf(Next(s, AddTemp(i)), d, c.AddTemp(n, p), p, w + n, v, k);
  }

  lemma AddTotalKeeps(s: State, i: nat, d: Direction)
    requires Balanced(s, d) && Enabled(s, AddTotal(i))
    ensures Balanced(Next(s, AddTotal(i)), d)
  {
    var n := if s.calls[i].dir == d then s.calls[i].size else 0;
    var c, p, k := s.Of(d), s.PhaseOf(d), Tracked(s.trackers, d);
    var w, v := Waiting(s.calls, d, InTemp), Waiting(s.calls, d, InTotal);
    CallView(s, i, d);
    Moved(s, i, InTotal, d);
    BalanceAdds(c, p, w, v, k, n);
    BooksOf(Next(s, AddTotal(i)), d, c.AddTotal(n), p, w - n, v + n, k);
  }

  lemma AddTrackerKeeps(s: State, i: nat, d: Direction)
    requires Balanced(s, d) && Enabled(s, AddTracker(i))
    ensures Balanced(Next(s, AddTracker(i)), d)
  {
    var x, t := s.calls[i], Next(s, AddTracker(i));
    Moved(s, i, Done, d);
    TrackedUpdate(s.trackers, x.tracker, t.trackers[x.tracker], d);
    BalanceAdds(s.Of(d), s.PhaseOf(d), Waiting(s.calls, d, InTemp), Waiting(s.calls, d, InTotal),
                Tracked(s.trackers, d), x.size);
  }

  lemma TickKeeps(s: State, d: Direction)
    requires Balanced(s, d)
    ensures Balanced(Next(s, Tick), d)
  {
    var t := Next(s, Tick);
    assert Balanced(s, d);
    if d == s.ticker.dir {
      assert t.Of(d) == s.Of(d).Tick(s.ticker.phase);
    } else {
      assert t.Of(d) == s.Of(d);
    }
  }

  /** The other steps leave every sum of every direction as it is. */
  lemma OtherSums(s: State, step: Step, d: Direction)
    requires Enabled(s, step)
    requires step.Create? || step.Join? || step.Leave? || step.Begin?
    ensures var t := Next(s, step);
            && t.Of(d) == s.Of(d) && t.PhaseOf(d) == s.PhaseOf(d)
            && Waiting(t.calls, d, InTemp) == Waiting(s.calls, d, InTemp)
            && Waiting(t.calls, d, InTotal) == Waiting(s.calls, d, InTotal)
            && Tracked(t.trackers, d) == Tracked(s.trackers, d)
  {
    match step
    case Create =>
      var t := Tracker(0, 0, false);
      assert (s.trackers + [t])[..|s.trackers|] == s.trackers;
    case Join(i) => TrackedUpdate(s.trackers, i, s.trackers[i].(listed := true), d);
    case Leave(i) => TrackedUpdate(s.trackers, i, s.trackers[i].(listed := false), d);
    case Begin(t, e, n) =>
      WaitingAppend(s.calls, Call(t, e, n, Begun), d, InTemp);
      WaitingAppend(s.calls, Call(t, e, n, Begun), d, InTotal);
  }

  lemma OtherKeeps(s: State, step: Step, d: Direction)
    requires Balanced(s, d) && Enabled(s, step)
    requires step.Create? || step.Join? || step.Leave? || step.Begin?
    ensures Balanced(Next(s, step), d)
  {
    OtherSums(s, step, d);
  }

  lemma StepBalances(s: State, step: Step, d: Direction)
    requires Inv(s) && Enabled(s, step)
    ensures Balanced(Next(s, step), d)
  {
    match step
    case AddTemp(i) => AddTempKeeps(s, i, d);
    case AddTotal(i) => AddTotalKeeps(s, i, d);
    case AddTracker(i) => AddTrackerKeeps(s, i, d);
    case Tick => TickKeeps(s, d);
    case _ => OtherKeeps(s, step, d);
  }

  lemma StepKeepsInv(s: State, step: Step)
    requires Inv(s) && Enabled(s, step)
    ensures Inv(Next(s, step))
  {
    forall d: Direction ensures Balanced(Next(s, step), d) {
      StepBalances(s, step, d);
    }
  }

  // ---------------------------------------------------------------- all runs

  ghost predicate IsRun(s: State, steps: seq<Step>)
    decreases |steps|
  {
    steps == [] || (Enabled(s, steps[0]) && IsRun(Next(s, steps[0]), steps[1..]))
  }

  function Exec(s: State, steps: seq<Step>): State
    requires IsRun(s, steps)
    decreases |steps|
  {
    if steps == [] then s else Exec(Next(s, steps[0]), steps[1..])
  }

  lemma {:induction false} RunKeepsInv(s: State, steps: seq<Step>)
    requires Inv(s) && IsRun(s, steps)
    ensures Inv(Exec(s, steps))
    decreases |steps|
  {
    if steps != [] {
      StepKeepsInv(s, steps[0]);
      RunKeepsInv(Next(s, steps[0]), steps[1..]);
    }
  }

  /**
  In one direction: all published speeds, plus what waits in temp, plus what ticks have wiped out,
  minus what is published but not cleared yet, is the total plus what is still on its way to it;
  what was wiped out is what arrived between a tick's load and its clearing store; and the total
  is that of all trackers there ever were plus what is on its way to them.
  */
  ghost predicate Conserved(s: State, d: Direction) {
    var c := s.Of(d);
    && c.published + c.temp + c.lost - s.NotCleared(d) == c.total + Waiting(s.calls, d, InTemp)
    && (s.PhaseOf(d).Start? ==> c.lost == c.late)
    && (!s.PhaseOf(d).Start? ==> c.lost <= c.late && c.temp == s.PhaseOf(d).v + (c.late - c.lost))
    && (s.PhaseOf(d).Stored? ==> c.blip == s.PhaseOf(d).v)
    && c.total == Tracked(s.trackers, d) + Waiting(s.calls, d, InTotal)
  }

  lemma Books(s: State, d: Direction)
    requires Inv(s)
    ensures Conserved(s, d)
  {
    assert Balanced(s, d);
  }

  /** The books are right after every interleaving of single atomic steps. */
  lemma Conservation(init: State, steps: seq<Step>, d: Direction)
    requires Initial(init) && IsRun(init, steps)
    ensures Conserved(Exec(init, steps), d)
  {
    InitialInv(init);
    RunKeepsInv(init, steps);
    Books(Exec(init, steps), d);
  }

  lemma InitialInv(s: State)
    requires Initial(s)
    ensures Inv(s)
  {
    forall d: Direction ensures Balanced(s, d) {
      InitialBalanced(s, d);
    }
  }

  lemma InitialBalanced(s: State, d: Direction)
    requires Initial(s)
    ensures Balanced(s, d)
  {
  }

  /**
  Once nothing is on its way and the direction's tick is over with temp empty, the published speeds
  add up to the total exactly if no bytes ever arrived between a tick's load and its clearing store.
  */
  lemma SpeedsAddUpIff(init: State, steps: seq<Step>, d: Direction)
    requires Initial(init) && IsRun(init, steps)
    requires var s := Exec(init, steps);
             s.PhaseOf(d).Start? && s.Of(d).temp == 0 && Waiting(s.calls, d, InTemp) == 0
    ensures var c := Exec(init, steps).Of(d);
            c.published == c.total <==> c.late == 0
  {
    Conservation(init, steps, d);
  }

  /** How many of the steps are actions of the ticker. */
  function Ticks(steps: seq<Step>): nat {
    if steps == [] then 0 else (if steps[0].Tick? then 1 else 0) + Ticks(steps[1..])
  }

  /** The bytes a run adds to temp in one direction. */
  function Added(s: State, steps: seq<Step>, d: Direction): nat
    requires IsRun(s, steps)
    decreases |steps|
  {
    if steps == [] then 0
    else
      var n := if steps[0].AddTemp? && s.calls[steps[0].call].dir == d then s.calls[steps[0].call].size else 0;
      n + Added(Next(s, steps[0]), steps[1..], d)
  }

  /** What one step that is not the ticker's does to a direction it is serving. */
  lemma OpenStep(s: State, step: Step, d: Direction)
    requires Enabled(s, step) && !step.Tick? && !s.PhaseOf(d).Start?
    ensures var t := Next(s, step);
            && t.ticker == s.ticker && t.Of(d).published == s.Of(d).published && t.Of(d).lost == s.Of(d).lost
            && t.Of(d).blip == s.Of(d).blip
            && t.Of(d).late == s.Of(d).late + Added(s, [step], d)
  {
    assert [step][1..] == [];
    assert Added(Next(s, step), [], d) == 0;
  }

  /** Between the load and the clearing store of a tick whose value is v. */
  lemma {:induction false} OpenRun(s: State, steps: seq<Step>, d: Direction, v: nat)
    requires IsRun(s, steps) && s.ticker == Ticker(d, if Ticks(steps) == 1 then Loaded(v) else Stored(v))
    requires Ticks(steps) <= 1
    ensures var t := Exec(s, steps);
            && t.ticker == Ticker(d, Stored(v)) && t.Of(d).lost == s.Of(d).lost
            && t.Of(d).blip == (if Ticks(steps) == 1 then v else s.Of(d).blip)
            && t.Of(d).published == s.Of(d).published + (if Ticks(steps) == 1 then v else 0)
            && t.Of(d).late == s.Of(d).late + Added(s, steps, d)
    decreases |steps|
  {
    if steps != [] {
      var t := Next(s, steps[0]);
      if !steps[0].Tick? {
        OpenStep(s, steps[0], d);
        assert [steps[0]][0] == steps[0];
      }
      OpenRun(t, steps[1..], d, v);
    }
  }

  /**
  One whole tick of one direction, with anything else in between: it publishes exactly what temp
  held when it was loaded, and shows it as the speed from then on; it loses exactly what was added
  between the load and the clearing store; it leaves temp empty; and the other direction is next.
  */
  lemma LatePushIsLost(s: State, steps: seq<Step>, d: Direction)
    requires Inv(s) && s.ticker == Ticker(d, Start) && Ticks(steps) == 1
    requires IsRun(Next(s, Tick), steps)
    ensures var open := Next(s, Tick);
            var end := Next(Exec(open, steps), Tick);
            && end.Of(d).temp == 0 && end.Of(d).published == s.Of(d).published + s.Of(d).temp
            && end.Of(d).lost == s.Of(d).lost + Added(open, steps, d)
            && end.Of(d).blip == s.Of(d).temp && end.ticker == Ticker(if d == Up then Down else Up, Start)
  {
    var open := Next(s, Tick);
    var t := Exec(open, steps);
    OpenRun(open, steps, d, s.Of(d).temp);
    StepKeepsInv(s, Tick);
    RunKeepsInv(open, steps);
    StepKeepsInv(t, Tick);
    assert Balanced(s, d) && Balanced(t, d) && Balanced(Next(t, Tick), d);
  }

  /**
  What a run leaves on display in one direction: the value temp had at the last load whose store to
  blip has been made.  `loaded` is a value loaded and not stored yet, `shown` what was shown before.
  */
  ghost function Shown(s: State, steps: seq<Step>, d: Direction, loaded: nat, shown: nat): nat
    requires IsRun(s, steps)
    decreases |steps|
  {
    if steps == [] then shown
    else
      var mine := steps[0].Tick? && s.ticker.dir == d;
      Shown(Next(s, steps[0]), steps[1..], d,
            if mine && s.ticker.phase.Start? then s.Of(d).temp else loaded,
            if mine && s.ticker.phase.Loaded? then loaded else shown)
  }

  lemma {:induction false} RunShows(s: State, steps: seq<Step>, d: Direction, loaded: nat)
    requires IsRun(s, steps) && (s.PhaseOf(d).Loaded? ==> s.PhaseOf(d).v == loaded)
    ensures Exec(s, steps).Of(d).blip == Shown(s, steps, d, loaded, s.Of(d).blip)
    decreases |steps|
  {
    if steps != [] {
      var mine := steps[0].Tick? && s.ticker.dir == d;
      var now := if mine && s.ticker.phase.Start? then s.Of(d).temp else loaded;
      BlipStep(s, steps[0], d);
      RunShows(Next(s, steps[0]), steps[1..], d, now);
    }
  }

  /** Only the ticker's store to blip changes what is shown. */
  lemma BlipStep(s: State, step: Step, d: Direction)
    requires Enabled(s, step)
    ensures var t := Next(s, step);
            if step.Tick? && s.ticker.dir == d && s.ticker.phase.Loaded? then t.Of(d).blip == s.ticker.phase.v
            else t.Of(d).blip == s.Of(d).blip
    ensures !step.Tick? ==> Next(s, step).ticker == s.ticker
  {
  }

  /** `Now` after every run: the speed of a direction is what its last completed store took from temp, and 0 before. */
  lemma SpeedShown(init: State, steps: seq<Step>, d: Direction)
    requires Initial(init) && IsRun(init, steps)
    ensures Exec(init, steps).Of(d).blip == Shown(init, steps, d, 0, 0)
  {
    RunShows(init, steps, d, 0);
  }

  /** It does happen: a run from the start that loses all of its one push. */
  lemma LossHappens(init: State, n: nat)
    requires Initial(init)
    ensures var run := [Create, Begin(0, Up, n), Tick, Tick, AddTemp(0), Tick, AddTotal(0)];
            && IsRun(init, run)
            && var c := Exec(init, run).up;
               c.total == n && c.temp == 0 && c.published == 0 && c.lost == n
  {
    var run := [Create, Begin(0, Up, n), Tick, Tick, AddTemp(0), Tick, AddTotal(0)];
    LossRun(init, n, 0, run);
  }

  /** The counters on the way through that run. */
  lemma LossRun(s: State, n: nat, k: nat, run: seq<Step>)
    requires k <= 7 && run == [Create, Begin(0, Up, n), Tick, Tick, AddTemp(0), Tick, AddTotal(0)]
    requires k == 0 <==> |s.trackers| == 0
    requires if k < 2 then |s.calls| == 0 else |s.calls| == 1 && s.calls[0].tracker == 0 && s.calls[0].dir == Up
                                                && s.calls[0].size == n
    requires k >= 2 ==> s.calls[0].at == if k < 5 then Begun else if k < 7 then InTemp else InTotal
    requires s.ticker == if k < 3 then Ticker(Up, Start) else if k == 3 then Ticker(Up, Loaded(0))
                         else if k < 6 then Ticker(Up, Stored(0)) else Ticker(Down, Start)
    requires s.up.temp == (if k == 5 then n else 0) && s.up.lost == (if k < 6 then 0 else n)
    requires s.up.published == 0 && s.up.total == (if k < 7 then 0 else n)
    ensures IsRun(s, run[k..])
    ensures var c := Exec(s, run[k..]).up;
            c.total == n && c.temp == 0 && c.published == 0 && c.lost == n
    decreases 7 - k
  {
    if k < 7 {
      assert run[k..][0] == run[k] && run[k..][1..] == run[k + 1..];
      LossRun(Next(s, run[k]), n, k + 1, run);
    }
  }

  // ---------------------------------------------------------------- the connections in a snapshot

  /** What `Range` over the map finds. */
  function Connections(s: State): set<nat> {
    set t | 0 <= t < |s.trackers| && s.trackers[t].listed
  }

  /**
  After every run the map holds a tracker exactly if it was joined and not closed since: after its
  last join, or from before the run, there is no leave.
  */
  lemma {:induction false} RunLists(s: State, steps: seq<Step>, t: nat)
    requires IsRun(s, steps)
    ensures t in Connections(Exec(s, steps)) <==>
            || (t in Connections(s) && Leave(t) !in steps)
            || exists j :: 0 <= j < |steps| && steps[j] == Join(t) && Leave(t) !in steps[j..]
    decreases |steps|
  {
    if steps != [] {
      var u, rest := Next(s, steps[0]), steps[1..];
      RunLists(u, rest, t);
      assert forall j :: 0 <= j < |rest| ==> steps[j + 1..] == rest[j..];
      assert steps == [steps[0]] + rest && steps[0..] == steps;
      assert t in Connections(u) <==> steps[0] == Join(t) || (t in Connections(s) && steps[0] != Leave(t));
      if j :| 0 <= j < |steps| && steps[j] == Join(t) && Leave(t) !in steps[j..] {
        if j > 0 {
          assert rest[j - 1] == Join(t) && Leave(t) !in rest[j - 1..];
        }
      }
      if j :| 0 <= j < |rest| && rest[j] == Join(t) && Leave(t) !in rest[j..] {
        assert steps[j + 1] == Join(t) && Leave(t) !in steps[j + 1..];
      }
    }
  }

  /** The totals of the trackers in the map. */
  function Listed(ts: seq<Tracker>, d: Direction): nat {
    if ts == [] then 0
    else Listed(ts[..|ts| - 1], d) + if ts[|ts| - 1].listed then ts[|ts| - 1].Of(d) else 0
  }

  /** The totals of the trackers that have left it or not joined it yet. */
  function Unlisted(ts: seq<Tracker>, d: Direction): nat {
    if ts == [] then 0
    else Unlisted(ts[..|ts| - 1], d) + if ts[|ts| - 1].listed then 0 else ts[|ts| - 1].Of(d)
  }

  lemma {:induction false} ListedAndUnlisted(ts: seq<Tracker>, d: Direction)
    ensures Listed(ts, d) + Unlisted(ts, d) == Tracked(ts, d)
  {
    if ts != [] {
      ListedAndUnlisted(ts[..|ts| - 1], d);
    }
  }

  /**
  `Snapshot` goes over the map first and loads the two totals afterwards, with anything in between:
  each total covers what the connections it found, and those that are gone, had moved by then.
  */
  lemma SnapshotCovers(init: State, before: seq<Step>, during: seq<Step>, d: Direction)
    requires Initial(init) && IsRun(init, before) && IsRun(Exec(init, before), during)
    ensures var ts := Exec(init, before).trackers;
            Exec(Exec(init, before), during).Of(d).total >= Listed(ts, d) + Unlisted(ts, d)
  {
    var s := Exec(init, before);
    InitialInv(init);
    RunKeepsInv(init, before);
    Conservation(init, before, d);
    ListedAndUnlisted(s.trackers, d);
    TotalsGrowInRun(s, during, d);
  }

  lemma {:induction false} TotalsGrowInRun(s: State, steps: seq<Step>, d: Direction)
    requires Inv(s) && IsRun(s, steps)
    ensures Exec(s, steps).Of(d).total >= s.Of(d).total
    decreases |steps|
  {
    if steps != [] {
      StepKeepsInv(s, steps[0]);
      TotalsGrow(s, steps[0], d);
      TotalsGrowInRun(Next(s, steps[0]), steps[1..], d);
    }
  }

  /** No step ever lowers a total, and leaving the map changes no counter at all. */
  lemma TotalsGrow(s: State, step: Step, d: Direction)
    requires Inv(s) && Enabled(s, step)
    ensures Next(s, step).Of(d).total >= s.Of(d).total
    ensures Tracked(Next(s, step).trackers, d) >= Tracked(s.trackers, d)
    ensures step.Leave? ==> Next(s, step).Of(d) == s.Of(d) && Tracked(Next(s, step).trackers, d) == Tracked(s.trackers, d)
  {
    match step
    case Create => assert (s.trackers + [Tracker(0, 0, false)])[..|s.trackers|] == s.trackers;
    case Join(i) => TrackedUpdate(s.trackers, i, s.trackers[i].(listed := true), d);
    case Leave(i) => TrackedUpdate(s.trackers, i, s.trackers[i].(listed := false), d);
    case AddTracker(i) =>
      var t := s.calls[i].tracker;
      TrackedUpdate(s.trackers, t, Next(s, step).trackers[t], d);
    case Begin(_, _, _) =>
    case AddTemp(_) =>
    case AddTotal(_) =>
    case Tick =>
  }
}
