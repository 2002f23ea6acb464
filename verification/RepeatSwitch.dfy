/** Switching back and forth between two sets of processors at a fixed rate, against any simulator. */
module RepeatSwitch {
  import opened Bits
  import opened Simulation

  datatype Switched = Switched(sim: Sim, switches: nat, status: Status)

  function Again(r: Switched): Switched {
    r.(switches := r.switches + 1)
  }

  /** The remaining ticks, once they do not exceed one switching interval. */
  function LastStretch(sim: Sim, maxTick: int): Switched {
    if maxTick < sim.tick then Switched(sim, 0, Failed)
    else if sim.script == [] then Switched(sim, 0, Running)
    else Switched(Step(sim, maxTick - sim.tick), 0, Returned(sim.script[0]))
  }

  function Switching(sim: Sim, maxTick: int, freq: int): Switched
    decreases |sim.script|
  {
    if freq < 0 then Switched(sim, 0, Failed)
    else if sim.script == [] then Switched(sim, 0, Running)
    else
      var next := Step(sim, freq);
      if !sim.script[0].Limit? then Switched(next, 0, Returned(sim.script[0]))
      else if maxTick - next.tick <= freq then Again(LastStretch(next, maxTick))
      else Again(Switching(next, maxTick, freq))
  }

  lemma {:induction false} NeverPast(sim: Sim, maxTick: int, freq: nat)
    requires sim.tick + freq <= maxTick
    ensures var r := Switching(sim, maxTick, freq); r.sim.tick <= maxTick && r.status != Failed
    decreases |sim.script|
  {
    if sim.script != [] && sim.script[0].Limit? {
      var next := Step(sim, freq);
      if maxTick - next.tick > freq { NeverPast(next, maxTick, freq); }
    }
  }

  /** No simulator can drive the loop past the last tick or into a negative limit. */
  ghost predicate Safe(tick: nat, maxTick: int, freq: int) {
    forall script: seq<Response> ::
      var r := Switching(Sim(tick, script), maxTick, freq);
      r.sim.tick <= maxTick && r.status != Failed
  }

  /** The loop is safe if and only if at least one whole interval is left when it is entered. */
  lemma {:induction false} SafeIff(tick: nat, maxTick: int, freq: int)
    ensures Safe(tick, maxTick, freq) <==> 0 <= freq && tick + freq <= maxTick
  {
    if 0 <= freq && tick + freq <= maxTick {
      forall script: seq<Response>
        ensures var r := Switching(Sim(tick, script), maxTick, freq); r.sim.tick <= maxTick && r.status != Failed
      {
        NeverPast(Sim(tick, script), maxTick, freq);
      }
    } else {
      var r := Switching(Sim(tick, [Limit]), maxTick, freq);
      assert r.sim.tick > maxTick || r.status == Failed;
    }
  }

  /** The caller compares the rate with the last tick alone: entered at tick 60 with rate 50 and last
      tick 100, the loop runs to 110 and then fails. */
  lemma {:induction false} CallerCheckIsNotEnough()
    ensures 100 > 50 && Switching(Sim(60, [Limit]), 100, 50) == Switched(Sim(110, []), 1, Failed)
  {}

  /** A run still going has used no more responses than whole intervals were left. */
  lemma {:induction false} RunningIsShort(sim: Sim, maxTick: int, freq: nat)
    ensures Switching(sim, maxTick, freq).status == Running ==>
              sim.script == [] || |sim.script| * freq <= maxTick - sim.tick
    decreases |sim.script|
  {
    var k := |sim.script|;
    if sim.script != [] && sim.script[0].Limit? {
      var next := Step(sim, freq);
      assert k * freq == (k - 1) * freq + freq;
      if maxTick - next.tick > freq {
        RunningIsShort(next, maxTick, freq);
      }
    }
  }

  /** With rate zero it need not terminate: as many switches as there are responses. */
  lemma {:induction false} ZeroRateNeverEnds(tick: nat, maxTick: int, script: seq<Response>)
    requires tick < maxTick && forall i | 0 <= i < |script| :: script[i].Limit?
    ensures Switching(Sim(tick, script), maxTick, 0) == Switched(Sim(tick, []), |script|, Running)
  {
    if script == [] {
    } else {
      ZeroRateNeverEnds(tick, maxTick, script[1..]);
    }
  }

  /** After some number of responses every run has ended, whatever the simulator. */
  ghost predicate Ends(tick: nat, maxTick: int, freq: int) {
    exists n: nat :: EndsWithin(tick, maxTick, freq, n)
  }

  ghost predicate EndsWithin(tick: nat, maxTick: int, freq: int, n: nat) {
    forall script: seq<Response> | |script| > n ::
      Switching(Sim(tick, script), maxTick, freq).status != Running
  }

  /** The loop terminates against every simulator if and only if the rate is not zero or the last tick
      has been reached. */
  lemma {:induction false} EndsIff(tick: nat, maxTick: int, freq: int)
    ensures Ends(tick, maxTick, freq) <==> freq != 0 || tick >= maxTick
  {
    if freq != 0 || tick >= maxTick {
      var n := if maxTick > tick then maxTick - tick else 1;
      forall script: seq<Response> | |script| > n
        ensures Switching(Sim(tick, script), maxTick, freq).status != Running
      {
        LongRunEnds(tick, maxTick, freq, script);
      }
      assert EndsWithin(tick, maxTick, freq, n);
    } else {
      forall n: nat ensures !EndsWithin(tick, maxTick, freq, n) {
        var script := seq(n + 1, _ => Limit);
        ZeroRateNeverEnds(tick, maxTick, script);
      }
    }
  }

  lemma {:induction false} LongRunEnds(tick: nat, maxTick: int, freq: int, script: seq<Response>)
    requires freq != 0 || tick >= maxTick
    requires |script| > maxTick - tick && (tick >= maxTick ==> |script| > 1)
    ensures Switching(Sim(tick, script), maxTick, freq).status != Running
  {
    if freq > 0 {
      RunningIsShort(Sim(tick, script), maxTick, freq);
      MulMagnitude(|script|, freq);
    }
  }

  /** Switched after every whole interval, as long as the simulator reaches its limits and more than one
      interval is left; then the rest is run at once. */
  ghost predicate SwitchedOn(sim: Sim, maxTick: int, freq: nat, r: Switched) {
    var k := r.switches;
    var at := sim.tick + k * freq;
    && k <= |sim.script| && (forall j | 0 <= j < k :: sim.script[j].Limit?)
    && (forall j | 1 <= j < k :: maxTick - (sim.tick + j * freq) > freq)
    && (if k >= 1 && maxTick - at <= freq then RunsTheRest(sim.script[k..], at, maxTick, r)
        else if k == |sim.script| then r.status == Running && r.sim.tick == at
        else !sim.script[k].Limit? && r.status == Returned(sim.script[k]) && at <= r.sim.tick <= at + freq)
  }

  lemma {:induction false} SwitchedNext(sim: Sim, maxTick: int, freq: nat, r: Switched)
    requires sim.script != [] && sim.script[0].Limit?
    requires var next := Step(sim, freq); maxTick - next.tick > freq && SwitchedOn(next, maxTick, freq, r)
    ensures SwitchedOn(sim, maxTick, freq, Again(r))
  {
    hide RunsTheRest;
    var rest, k := sim.script[1..], r.switches;
    assert forall j | 0 <= j < |rest| :: rest[j] == sim.script[j + 1];
    OneMoreInterval(sim.tick, k, freq);
    assert sim.script[k + 1..] == rest[k..];
    forall j | 1 <= j < k + 1 ensures maxTick - (sim.tick + j * freq) > freq {
      OneMoreInterval(sim.tick, j - 1, freq);
    }
    RestAgain(rest[k..], sim.tick + (k + 1) * freq, maxTick, r);
  }

  lemma {:induction false} RestAgain(script: seq<Response>, at: int, maxTick: int, r: Switched)
    ensures RunsTheRest(script, at, maxTick, Again(r)) <==> RunsTheRest(script, at, maxTick, r)
  {}

  /** Against every simulator the processors are switched on at the rate given. */
  lemma {:induction false} SwitchesEveryInterval(sim: Sim, maxTick: int, freq: nat)
    ensures SwitchedOn(sim, maxTick, freq, Switching(sim, maxTick, freq))
    decreases |sim.script|
  {
    if sim.script != [] && sim.script[0].Limit? {
      var next := Step(sim, freq);
      if maxTick - next.tick > freq {
        hide SwitchedOn;
        SwitchesEveryInterval(next, maxTick, freq);
        SwitchedNext(sim, maxTick, freq, Switching(next, maxTick, freq));
      } else {
        OneMoreInterval(sim.tick, 0, freq);
      }
    }
  }

  lemma {:induction false} OneMoreInterval(tick: int, k: nat, freq: nat)
    ensures tick + freq + k * freq == tick + (k + 1) * freq
  {}

  /** The last call: it asks for the ticks that are left, which must not be fewer than none. */
  ghost predicate RunsTheRest(script: seq<Response>, at: int, maxTick: int, r: Switched) {
    if maxTick < at then r.status == Failed && r.sim.tick == at
    else if script == [] then r.status == Running && r.sim.tick == at
    else r.status == Returned(script[0]) && at <= r.sim.tick <= maxTick && (script[0].Limit? ==> r.sim.tick == maxTick)
  }

  // ------------------------------------------------- the program

  type Pair = (int, int)

  function Swap(pairs: seq<Pair>): (s: seq<Pair>)
    ensures |s| == |pairs| && forall i | 0 <= i < |s| :: s[i] == (pairs[i].1, pairs[i].0)
  {
    seq(|pairs|, i requires 0 <= i < |pairs| => (pairs[i].1, pairs[i].0))
  }

  function Turned(pairs: seq<Pair>, n: nat): seq<Pair> {
    if n % 2 == 0 then pairs else Swap(pairs)
  }

  lemma {:induction false} TurnedNext(pairs: seq<Pair>, n: nat)
    ensures Swap(Turned(pairs, n)) == Turned(pairs, n + 1)
  {
    assert Swap(Swap(pairs)) == pairs;
  }

  method SwapAll(pairs: seq<Pair>) returns (s: seq<Pair>)
    ensures s == Swap(pairs)
  {
    s := [];
    for i := 0 to |pairs|
      invariant |s| == i && forall j | 0 <= j < i :: s[j] == (pairs[j].1, pairs[j].0)
    {
      s := s + [(pairs[i].1, pairs[i].0)];
    }
  }

  /** `calls` lists the pair lists handed to each switch: they alternate between the given list and
      the swapped one. */
  method Repeat(sim: Simulator, pairs: seq<Pair>, maxTick: int, freq: int)
    returns (status: Status, calls: seq<seq<Pair>>)
    modifies sim
    ensures Switched(sim.Now(), |calls|, status) == Switching(old(sim.Now()), maxTick, freq)
    ensures forall k | 0 <= k < |calls| :: calls[k] == Turned(pairs, k)
  {
    hide Turned, Swap, Passed;
    calls := [];
    var list := pairs;
    TurnedNone(pairs);
    while true
      invariant list == Turned(pairs, |calls|)
      invariant forall k | 0 <= k < |calls| :: calls[k] == Turned(pairs, k)
      invariant Switching(old(sim.Now()), maxTick, freq)
             == var r := Switching(sim.Now(), maxTick, freq); r.(switches := r.switches + |calls|)
      decreases |sim.script|
    {
      status := sim.Simulate(freq);
      if status != Returned(Limit) { return; }
      calls := calls + [list];
      TurnedNext(pairs, |calls| - 1);
      list := SwapAll(list);
      if maxTick - sim.tick <= freq {
        status := sim.Simulate(maxTick - sim.tick);
        return;
      }
    }
  }

  lemma {:induction false} TurnedNone(pairs: seq<Pair>)
    ensures Turned(pairs, 0) == pairs
  {}
}
