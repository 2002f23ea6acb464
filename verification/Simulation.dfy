/** Taking checkpoints from the run script, against any simulator. */
module Simulation {
  import opened Bits

  // ------------------------------------------------- the simulator

  /** Why a call of the simulator came back, and for all but the limit after how many ticks. */
  datatype Response = Limit | Guest(after: nat) | Exit(after: nat)

  /** The current tick, and the responses still to come. A run is cut off where they end. */
  datatype Sim = Sim(tick: nat, script: seq<Response>)

  /** Ticks that pass in a call limited to `limit` ticks. */
  function Passed(r: Response, limit: nat): (t: nat)
    ensures t <= limit
    ensures r.Limit? ==> t == limit
  {
    if r.Limit? || r.after > limit then limit else r.after
  }

  function Step(sim: Sim, limit: nat): Sim
    requires sim.script != []
  {
    Sim(sim.tick + Passed(sim.script[0], limit), sim.script[1..])
  }

  /** How a run stands: cut off, ended with the last response, or failed on a negative limit. */
  datatype Status = Running | Returned(last: Response) | Failed

  datatype Result = Result(sim: Sim, taken: seq<int>, status: Status)

  // ------------------------------------------------- running to a tick

  /** Call again with the remaining ticks while the guest asks for checkpoints. */
  function Until(sim: Sim, target: nat): (r: (Sim, Status))
    requires sim.tick <= target
    ensures r.0.tick <= target && !r.1.Failed? && (r.1.Returned? ==> !r.1.last.Guest?)
    ensures r.1 == Returned(Limit) ==> r.0.tick == target
    ensures |r.0.script| <= |sim.script|
    decreases |sim.script|
  {
    if sim.script == [] then (sim, Running)
    else if sim.script[0].Guest? then Until(Step(sim, target - sim.tick), target)
    else (Step(sim, target - sim.tick), Returned(sim.script[0]))
  }

  // ------------------------------------------------- script checkpoints

  datatype Options = Options(when: int, period: int, maxTick: int, maxCheckpoints: int)

  function Before(done: seq<int>, r: Result): Result {
    r.(taken := done + r.taken)
  }

  /** The loop behind the first checkpoint: `n` taken so far, the last planned for tick `at`. */
  function Periods(sim: Sim, o: Options, n: nat, at: int, last: Response): (r: Result)
    requires last.Limit? ==> sim.tick == at
    decreases |sim.script|
  {
    if n >= o.maxCheckpoints || !last.Limit? then Result(sim, [], Returned(last))
    else if at + o.period > o.maxTick then
      if o.maxTick < at then Result(sim, [], Failed)
      else if sim.script == [] then Result(sim, [], Running)
      else Result(Step(sim, o.maxTick - at), [], Returned(sim.script[0]))
    else if o.period < 0 then Result(sim, [], Failed)
    else if sim.script == [] then Result(sim, [], Running)
    else
      var next, cause := Step(sim, o.period), sim.script[0];
      if cause.Limit? then Before([next.tick], Periods(next, o, n + 1, at + o.period, cause))
      else if cause.Exit? then Result(next, [], Returned(cause))
      else
        // The cause tested by the outer loop stays the guest's: the loop ends here.
        var (stop, status) := Until(next, at + o.period);
        Result(stop, if status == Returned(Limit) then [stop.tick] else [], status)
  }

  function Script(sim: Sim, o: Options): Result {
    if o.when < sim.tick then Result(sim, [], Failed)
    else
      var (first, status) := Until(sim, o.when);
      if !status.Returned? then Result(first, [], status)
      else if status.last.Limit? then
        Before([first.tick], Periods(first, o, 1, o.when, Limit))
      else Periods(first, o, 0, o.when, status.last)
  }

  /** Ticks `from`, `from + period`, ... */
  function Planned(from: int, period: int, n: nat): (s: seq<int>)
    ensures |s| == n && forall k | 0 <= k < n :: s[k] == from + k * period
  {
    seq(n, k => from + k * period)
  }

  lemma {:induction false} PlannedCons(from: int, period: int, n: nat)
    ensures Planned(from, period, n + 1) == [from] + Planned(from + period, period, n)
  {
    forall k | 0 < k <= n ensures from + k * period == from + period + (k - 1) * period {}
  }

  /** The loop's checkpoints fall on the planned ticks, one after the other, none past the last tick
      allowed, and no more than allowed. */
  lemma {:induction false} PeriodsAsPlanned(sim: Sim, o: Options, n: nat, at: int, last: Response)
    requires last.Limit? ==> sim.tick == at
    ensures var r := Periods(sim, o, n, at, last);
            && r.taken == Planned(at + o.period, o.period, |r.taken|)
            && (forall k | 0 <= k < |r.taken| :: r.taken[k] <= o.maxTick)
            && (r.taken == [] || n + |r.taken| <= o.maxCheckpoints)
    decreases |sim.script|
  {
    var r := Periods(sim, o, n, at, last);
    if n < o.maxCheckpoints && last.Limit? && at + o.period <= o.maxTick && o.period >= 0 && sim.script != [] {
      var next := Step(sim, o.period);
      if sim.script[0].Limit? {
        PeriodsAsPlanned(next, o, n + 1, at + o.period, Limit);
        PlannedCons(at + o.period, o.period, |r.taken| - 1);
      } else if |r.taken| == 1 {
        PlannedCons(at + o.period, o.period, 0);
      }
    }
  }

  /** Against every simulator: checkpoints are taken at `when`, `when + period`, ... without a gap,
      those behind the first not past the last tick, at most `maxCheckpoints` of them (or one). */
  lemma {:induction false} CheckpointsAsPlanned(sim: Sim, o: Options)
    ensures var r := Script(sim, o);
            && r.taken == Planned(o.when, o.period, |r.taken|)
            && (forall k | 1 <= k < |r.taken| :: r.taken[k] <= o.maxTick)
            && (|r.taken| <= 1 || |r.taken| <= o.maxCheckpoints)
  {
    if o.when >= sim.tick {
      var (first, status) := Until(sim, o.when);
      if status == Returned(Limit) {
        PeriodsAsPlanned(first, o, 1, o.when, Limit);
        PlannedCons(o.when, o.period, |Periods(first, o, 1, o.when, Limit).taken|);
      }
    }
  }

  // ------------------------------------------------- no checkpoint is left out

  ghost predicate NoGuest(script: seq<Response>) {
    forall k | 0 <= k < |script| :: !script[k].Guest?
  }

  /** How many checkpoints the options allow behind one at tick `at`, with `n` taken. */
  ghost function Room(o: Options, n: nat, at: int): nat {
    if n >= o.maxCheckpoints || o.period < 0 || at + o.period > o.maxTick then 0
    else if o.period == 0 then o.maxCheckpoints - n
    else
      RoomPositive(o.maxTick - at, o.period);
      Smaller(o.maxCheckpoints - n, (o.maxTick - at) / o.period)
  }

  lemma {:induction false} RoomPositive(ticks: int, period: int)
    requires 1 <= period <= ticks
    ensures ticks / period >= 1 && (ticks - period) / period == ticks / period - 1
    ensures ticks - period < period ==> ticks / period == 1
  {
    var q, r := ticks / period, ticks % period;
    assert ticks == period * q + r;
    MulMagnitude(period, q);
    RemainderUnique(ticks - period, period, q - 1, r);
    if ticks - period < period { RemainderUnique(ticks, period, 1, ticks - period); }
  }

  /** One period on, there is room for one less. */
  lemma {:induction false} RoomNext(o: Options, n: nat, at: int)
    requires Room(o, n, at) > 0
    ensures Room(o, n + 1, at + o.period) == Room(o, n, at) - 1
  {
    if o.period > 0 {
      RoomPositive(o.maxTick - at, o.period);
      assert o.maxTick - (at + o.period) == o.maxTick - at - o.period;
    }
  }

  lemma {:induction false} RoomIff(o: Options, n: nat, at: int)
    ensures Room(o, n, at) > 0 <==> n < o.maxCheckpoints && o.period >= 0 && at + o.period <= o.maxTick
    ensures n < o.maxCheckpoints ==> n + Room(o, n, at) <= o.maxCheckpoints
  {
    if o.period >= 1 && at + o.period <= o.maxTick { RoomPositive(o.maxTick - at, o.period); }
  }

  /** While the simulator reaches its limits, the loop takes every checkpoint there is room for. When
      the number allowed is reached it stops there; otherwise it runs on to the last tick. */
  lemma {:induction false} PeriodsComplete(sim: Sim, o: Options, n: nat, at: int)
    requires sim.tick == at && NoGuest(sim.script)
    ensures var r, room := Periods(sim, o, n, at, Limit), Room(o, n, at);
            && |r.taken| == Smaller(room, LeadingLimits(sim.script))
            && (|r.taken| == room && n + room >= o.maxCheckpoints ==>
                  r.sim.tick == at + room * o.period && r.status == Returned(Limit))
            && (LeadingLimits(sim.script) > room && n + room < o.maxCheckpoints && at <= o.maxTick && o.period >= 0 ==>
                  r.sim.tick == o.maxTick && r.status == Returned(Limit))
    decreases |sim.script|
  {
    hide Room, Passed, Until;
    RoomIff(o, n, at);
    Distance(Room(o, n, at), o.period);
    if Room(o, n, at) > 0 && sim.script != [] {
      var next := Step(sim, o.period);
      if sim.script[0].Limit? {
        assert forall k | 0 <= k < |next.script| :: next.script[k] == sim.script[k + 1];
        RoomNext(o, n, at);
        PeriodsComplete(next, o, n + 1, at + o.period);
      }
    }
  }

  lemma {:induction false} Distance(periods: nat, period: int)
    ensures periods == 0 ==> periods * period == 0
    ensures period + (periods - 1) * period == periods * period
  {}

  /** Against a simulator that is not interrupted by the guest: every planned checkpoint is taken that
      the last tick and the allowed number leave room for, up to the first call that stops short of its
      limit; a script that runs out of ticks before its checkpoints ends at the last tick. */
  lemma {:induction false} NoCheckpointLeftOut(sim: Sim, o: Options)
    requires sim.tick <= o.when && NoGuest(sim.script)
    ensures var r, room := Script(sim, o), 1 + Room(o, 1, o.when);
            && r.taken == Planned(o.when, o.period, Smaller(room, LeadingLimits(sim.script)))
            && (LeadingLimits(sim.script) > room && room < o.maxCheckpoints && o.when <= o.maxTick && o.period >= 0 ==>
                  r.sim.tick == o.maxTick && r.status == Returned(Limit))
            && (LeadingLimits(sim.script) >= room >= o.maxCheckpoints ==>
                  r.sim.tick == o.when + (room - 1) * o.period && r.status == Returned(Limit))
  {
    hide Room, Periods;
    CheckpointsAsPlanned(sim, o);
    if sim.script != [] {
      var first := Until(sim, o.when).0;
      if sim.script[0].Limit? {
        assert first == Sim(o.when, sim.script[1..]);
        PeriodsComplete(first, o, 1, o.when);
      } else {
        StoppedShort(first, o, sim.script[0]);
      }
    }
  }

  lemma {:induction false} StoppedShort(sim: Sim, o: Options, last: Response)
    requires !last.Limit?
    ensures Periods(sim, o, 0, o.when, last).taken == []
  {}

  // ------------------------------------------------- guest checkpoints

  /** The responses without the guest's checkpoints. */
  function Quiet(script: seq<Response>): (q: seq<Response>)
    ensures |q| <= |script|
  {
    if script == [] then []
    else if script[0].Guest? then Quiet(script[1..])
    else [script[0]] + Quiet(script[1..])
  }

  function Quieted(sim: Sim): Sim {
    Sim(sim.tick, Quiet(sim.script))
  }

  function LeadingLimits(script: seq<Response>): nat {
    if script != [] && script[0].Limit? then 1 + LeadingLimits(script[1..]) else 0
  }

  /** Running to a tick, guest checkpoints make no difference but to when another exit happens. */
  lemma {:induction false} UntilQuiet(sim: Sim, start: nat, target: nat)
    requires sim.tick <= target && start <= target
    ensures var (stop, status) := Until(sim, target);
            var quiet := Until(Sim(start, Quiet(sim.script)), target);
            && status == quiet.1
            && (status.Returned? ==> Quiet(stop.script) == quiet.0.script)
    decreases |sim.script|
  {
    if sim.script == [] {
    } else {
      if sim.script[0].Guest? {
        UntilQuiet(Step(sim, target - sim.tick), start, target);
      } else {
        assert Quiet(sim.script)[1..] == Quiet(sim.script[1..]);
      }
    }
  }

  lemma {:induction false} QuietHead(script: seq<Response>)
    requires script != [] && !script[0].Guest?
    ensures Quiet(script) != [] && Quiet(script)[0] == script[0] && Quiet(script)[1..] == Quiet(script[1..])
  {}

  lemma {:induction false} PeriodsExact(sim: Sim, o: Options, n: nat, at: int)
    requires sim.tick == at
    ensures var q := Periods(Quieted(sim), o, n, at, Limit).taken;
            Periods(sim, o, n, at, Limit).taken == q[..Smaller(|q|, 1 + LeadingLimits(sim.script))]
    decreases |sim.script|
  {
    if n < o.maxCheckpoints && at + o.period <= o.maxTick && o.period >= 0 && sim.script != [] {
      var cause, next := sim.script[0], Step(sim, o.period);
      if cause.Guest? {
        GuestPeriod(sim, o, n, at);
      } else {
        QuietHead(sim.script);
        if cause.Limit? {
          PeriodsExact(next, o, n + 1, at + o.period);
          assert Step(Quieted(sim), o.period) == Quieted(next);
        }
      }
    }
  }

  /** A period the guest interrupts: at most its own checkpoint is still taken. */
  lemma {:induction false} GuestPeriod(sim: Sim, o: Options, n: nat, at: int)
    requires sim.tick == at && n < o.maxCheckpoints && at + o.period <= o.maxTick && o.period >= 0
    requires sim.script != [] && sim.script[0].Guest?
    ensures var q := Periods(Quieted(sim), o, n, at, Limit).taken;
            Periods(sim, o, n, at, Limit).taken == q[..Smaller(|q|, 1)]
  {
    var next, target := Step(sim, o.period), at + o.period;
    UntilQuiet(next, at, target);
    var quiet := Quieted(sim);
    assert quiet.script == Quiet(next.script);
    var (stop, status) := Until(next, target);
    if quiet.script != [] {
      QuietHasNoGuest(next.script);
      assert Until(Sim(at, quiet.script), target).1 == Returned(quiet.script[0]);
      if quiet.script[0].Limit? {
        assert Step(quiet, o.period).tick == target;
      }
    }
  }

  lemma {:induction false} QuietHasNoGuest(script: seq<Response>)
    ensures Quiet(script) != [] ==> !Quiet(script)[0].Guest?
  {
    if script != [] && script[0].Guest? { QuietHasNoGuest(script[1..]); }
  }

  /** Guest checkpoints never move or add a checkpoint of the script, but they end it: the script
      takes those it would take without them, up to one behind the first period interrupted. */
  lemma {:induction false} GuestsCutTheScript(sim: Sim, o: Options)
    requires sim.tick <= o.when
    ensures var q := Script(Quieted(sim), o).taken;
            Script(sim, o).taken == q[..Smaller(|q|, 2 + LeadingLimits(Until(sim, o.when).0.script))]
  {
    UntilQuiet(sim, sim.tick, o.when);
    var (first, status) := Until(sim, o.when);
    if status == Returned(Limit) {
      PeriodsExact(first, o, 1, o.when);
      assert Until(Quieted(sim), o.when).0 == Quieted(first);
    }
  }

  /** Three checkpoints asked for and two taken, because the guest asked for one in between. */
  lemma {:induction false} GuestLosesACheckpoint()
    ensures var o, script := Options(10, 10, 100, 3), [Limit, Guest(5), Limit, Limit];
            Script(Sim(0, script), o).taken == [10, 20] && Script(Sim(0, Quiet(script)), o).taken == [10, 20, 30]
  {
    var o, script := Options(10, 10, 100, 3), [Limit, Guest(5), Limit, Limit];
    assert script[1..] == [Guest(5), Limit, Limit] && script[1..][1..] == [Limit, Limit];
    assert script[1..][1..][1..] == [Limit];
    var quiet := Quiet(script);
    assert quiet == [Limit, Limit, Limit];
    assert quiet[1..] == [Limit, Limit] && quiet[1..][1..] == [Limit] && quiet[1..][1..][1..] == [];
    assert Until(Sim(0, script), 10) == (Sim(10, script[1..]), Returned(Limit));
    assert Until(Sim(0, quiet), 10) == (Sim(10, quiet[1..]), Returned(Limit));
    assert Periods(Sim(10, script[1..]), o, 1, 10, Limit).taken == [20];
    assert Periods(Sim(30, []), o, 3, 30, Limit).taken == [];
    assert Periods(Sim(20, quiet[1..][1..]), o, 2, 20, Limit).taken == [30];
    assert Periods(Sim(10, quiet[1..]), o, 1, 10, Limit).taken == [20, 30];
  }

  // ------------------------------------------------- the program

  class Simulator {
    var tick: nat
    var script: seq<Response>
    /** Ticks at which checkpoints were written. */
    var taken: seq<int>

    function Now(): Sim
      reads this
    {
      Sim(tick, script)
    }

    constructor (s: seq<Response>)
      ensures tick == 0 && script == s && taken == []
    {
      tick, script, taken := 0, s, [];
    }

    /** Advance by at most `limit` ticks. */
    method Simulate(limit: int) returns (status: Status)
      modifies this
      ensures taken == old(taken)
      ensures limit < 0 ==> status == Failed && Now() == old(Now())
      ensures limit >= 0 && old(script) == [] ==> status == Running && Now() == old(Now())
      ensures limit >= 0 && old(script) != [] ==>
                status == Returned(old(script)[0]) && Now() == Step(old(Now()), limit)
    {
      if limit < 0 { return Failed; }
      if script == [] { return Running; }
      status := Returned(script[0]);
      tick, script := tick + Passed(script[0], limit), script[1..];
    }

    method Checkpoint()
      modifies this
      ensures Now() == old(Now()) && taken == old(taken) + [tick]
    {
      taken := taken + [tick];
    }

    /** Run to a tick, skipping the guest's checkpoints. */
    method SkipGuests(target: nat, cause: Status) returns (status: Status)
      requires tick <= target && (cause == Returned(Limit) ==> tick == target)
      modifies this
      ensures taken == old(taken)
      ensures if cause.Returned? && cause.last.Guest? then (Now(), status) == Until(old(Now()), target)
              else status == cause && Now() == old(Now())
    {
      status := cause;
      while status.Returned? && status.last.Guest?
        invariant tick <= target && taken == old(taken)
        invariant if cause.Returned? && cause.last.Guest?
                  then Until(old(Now()), target)
                       == if status.Returned? && status.last.Guest? then Until(Now(), target) else (Now(), status)
                  else status == cause && Now() == old(Now())
        decreases |script|, status.Returned? && status.last.Guest?
      {
        status := Simulate(target - tick);
      }
    }

    method RunTo(target: int) returns (status: Status)
      modifies this
      ensures taken == old(taken)
      ensures if target < old(tick) then status == Failed && Now() == old(Now())
              else (Now(), status) == Until(old(Now()), target)
    {
      status := Simulate(target - tick);
      if status.Failed? { return; }
      status := SkipGuests(target, status);
    }

    /** The loop over the periods; the cause it tests is that of the call that began the period. */
    method TakePeriods(o: Options, count: nat, first: Response) returns (status: Status)
      requires first.Limit? ==> tick == o.when
      modifies this
      ensures Result(Now(), taken, status) == Before(old(taken), Periods(old(Now()), o, count, o.when, first))
    {
      hide Until, Passed;
      var cause, n, simTicks := first, count, o.when;
      status := Returned(first);
      while n < o.maxCheckpoints && cause.Limit?
        invariant n >= 0
        invariant cause.Limit? ==> tick == simTicks && status == Returned(Limit)
        invariant Before(old(taken), Periods(old(Now()), o, count, o.when, first))
               == if cause.Limit? then Before(taken, Periods(Now(), o, n, simTicks, Limit))
                  else Result(Now(), taken, status)
        decreases |script|, cause.Limit?
      {
        if simTicks + o.period > o.maxTick {
          status := Simulate(o.maxTick - simTicks);
          return;
        }
        status := Simulate(o.period);
        if !status.Returned? { return; }
        cause := status.last;
        simTicks := simTicks + o.period;
        status := SkipGuests(simTicks, status);
        if status == Returned(Limit) {
          Checkpoint();
          n := n + 1;
        }
      }
    }

    method ScriptCheckpoints(o: Options) returns (status: Status)
      modifies this
      ensures Result(Now(), taken, status) == Before(old(taken), Script(old(Now()), o))
    {
      hide Until, Periods;
      status := RunTo(o.when);
      if !status.Returned? { return; }
      var n := 0;
      if status.last.Limit? {
        Checkpoint();
        n := 1;
      }
      status := TakePeriods(o, n, status.last);
    }
  }
}
