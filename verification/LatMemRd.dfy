/** The memory ranges of the latency sweep: four steps to every power of two. */
module LatMemRd {
  import opened Bits

  const MIN_RANGE := 4096
  const BURST := 64
  /** Ticks between requests. */
  const ITT := 150000

  predicate TestPow2(n: nat) {
    n != 0 && And(n, n - 1) == 0
  }

  /** Entry `i`: a power of two from 4096 on, plus quarters of it. */
  function Grid(i: nat): nat {
    Pow2(12 + i / 4) + (i % 4) * Pow2(10 + i / 4)
  }

  lemma {:induction false} Quarter(k: nat)
    ensures Pow2(k + 2) == 4 * Pow2(k) && Pow2(k) >= 1
  {
    Pow2Positive(k);
    assert Pow2(k + 2) == 2 * Pow2(k + 1);
  }

  /** The grid starts at 4096 and grows by a quarter of the current power of two. */
  lemma {:induction false} GridStep(i: nat)
    ensures Grid(0) == MIN_RANGE
    ensures Grid(i + 1) == Grid(i) + Pow2(10 + i / 4)
    ensures Pow2(10 + i / 4) >= 1
  {
    FirstGrid();
    hide Pow2;
    var q := i / 4;
    Quarter(10 + q);
    Quarter(11 + q);
    if i % 4 == 3 {
      assert (i + 1) / 4 == q + 1 && (i + 1) % 4 == 0;
      Doubling(10 + q);
    } else {
      assert (i + 1) / 4 == q && (i + 1) % 4 == i % 4 + 1;
      NextMultiple(i % 4, Pow2(10 + q));
    }
  }

  lemma {:induction false} FirstGrid()
    ensures Pow2(10) == 1024 && Pow2(12) == 4096 && Grid(0) == MIN_RANGE
  {
    assert Pow2(4) == 16;
    assert Pow2(8) == 256;
    assert Pow2(12) == 4096;
  }

  lemma {:induction false} Doubling(k: nat)
    ensures Pow2(k + 3) == 8 * Pow2(k) && Pow2(k + 2) == 4 * Pow2(k)
  {
    assert Pow2(k + 3) == 2 * Pow2(k + 2);
    assert Pow2(k + 2) == 2 * Pow2(k + 1);
  }

  lemma {:induction false} NextMultiple(j: nat, p: nat)
    ensures (j + 1) * p == j * p + p
  {}

  /** On the grid, the test picks out every fourth entry. */
  lemma {:induction false} GridPow2(i: nat)
    ensures TestPow2(Grid(i)) <==> i % 4 == 0
  {
    var q := i / 4;
    Quarter(10 + q);
    Between(i % 4, Pow2(10 + q));
    AndPredIsPow2Test(Grid(i));
    if i % 4 == 0 {
      assert Grid(i) == Pow2(12 + q);
    } else {
      forall k: nat ensures Grid(i) != Pow2(k) {
        Apart(12 + q, k, Grid(i));
      }
    }
  }

  lemma {:induction false} Between(j: nat, p: nat)
    requires j < 4 && p >= 1
    ensures 4 * p <= 4 * p + j * p < 8 * p
    ensures j > 0 ==> j * p > 0
  {
    assert j * p <= 3 * p;
  }

  /** Nothing strictly between two neighbouring powers of two is one. */
  lemma {:induction false} Apart(m: nat, k: nat, n: nat)
    requires Pow2(m) < n < 2 * Pow2(m)
    ensures n != Pow2(k)
  {
    if k < m {
      Pow2Monotone(k, m);
    } else if k > m {
      Pow2Monotone(m, k);
    }
  }

  /** Number of entries: up to the first that is not below `maxRange`. */
  ghost predicate Cut(n: nat, maxRange: nat) {
    n >= 1 && Grid(n - 1) >= maxRange && (n == 1 || Grid(n - 2) < maxRange)
  }

  method Ranges(maxRange: nat) returns (ranges: seq<nat>)
    ensures Cut(|ranges|, maxRange)
    ensures forall i | 0 <= i < |ranges| :: ranges[i] == Grid(i)
  {
    hide Grid, TestPow2, Pow2;
    ranges := [MIN_RANGE];
    var step := 1024;
    GridStep(0);
    FirstGrid();
    while ranges[|ranges| - 1] < maxRange
      invariant |ranges| >= 1 && step == Pow2(10 + (|ranges| - 1) / 4)
      invariant forall i | 0 <= i < |ranges| :: ranges[i] == Grid(i)
      invariant |ranges| == 1 || ranges[|ranges| - 2] < maxRange
      decreases maxRange - ranges[|ranges| - 1]
    {
      var n := |ranges|;
      var newRange := ranges[n - 1] + step;
      GridStep(n - 1);
      GridPow2(n);
      NextStep(n);
      if TestPow2(newRange) {
        step := step * 2;
      }
      ranges := ranges + [newRange];
    }
  }

  lemma {:induction false} NextStep(n: nat)
    requires n >= 1
    ensures Pow2(10 + n / 4) == if n % 4 == 0 then 2 * Pow2(10 + (n - 1) / 4) else Pow2(10 + (n - 1) / 4)
  {
    if n % 4 == 0 {
      assert (n - 1) / 4 == n / 4 - 1;
    } else {
      assert (n - 1) / 4 == n / 4;
    }
  }

  lemma {:induction false} GridIncreasing(i: nat, j: nat)
    requires i < j
    ensures Grid(i) < Grid(j)
  {
    GridStep(j - 1);
    if i + 1 < j { GridIncreasing(i, j - 1); }
  }

  lemma {:induction false} GridOfPower(k: nat)
    requires k >= 12
    ensures Grid(4 * (k - 12)) == Pow2(k)
  {
    assert (4 * (k - 12)) / 4 == k - 12 && (4 * (k - 12)) % 4 == 0;
  }

  /** The list ends exactly at the largest range if and only if that lies on the grid. */
  lemma {:induction false} EndsAtMaxIff(n: nat, maxRange: nat)
    requires Cut(n, maxRange)
    ensures Grid(n - 1) == maxRange <==> exists i: nat :: Grid(i) == maxRange
  {
    hide Grid;
    if i: nat :| Grid(i) == maxRange {
      if n >= 2 && i < n - 2 { GridIncreasing(i, n - 2); }
      if i > n - 1 { GridIncreasing(n - 1, i); }
    }
  }

  /** For a power of two from 4096 on: strictly increasing, ending at it, with every smaller power. */
  lemma {:induction false} PowerOfTwoSweep(n: nat, k: nat, j: nat)
    requires 12 <= j <= k && Cut(n, Pow2(k))
    ensures Grid(n - 1) == Pow2(k) && n == 4 * (k - 12) + 1
    ensures 4 * (j - 12) < n && Grid(4 * (j - 12)) == Pow2(j)
  {
    hide Grid;
    GridOfPower(k);
    GridOfPower(j);
    EndsAtMaxIff(n, Pow2(k));
    var i := 4 * (k - 12);
    if i < n - 1 { GridIncreasing(i, n - 1); }
    if i > n - 1 { GridIncreasing(n - 1, i); }
  }

  lemma {:induction false} GridBursts(i: nat)
    ensures Grid(i) % BURST == 0 && Grid(i) >= MIN_RANGE
  {
    hide Pow2, Grid;
    if i > 0 {
      GridBursts(i - 1);
      GridStep(i - 1);
      StepBursts(10 + (i - 1) / 4);
      SumBursts(Grid(i - 1), Pow2(10 + (i - 1) / 4));
    } else {
      GridStep(0);
    }
  }

  lemma {:induction false} SumBursts(a: nat, b: nat)
    requires a % BURST == 0 && b % BURST == 0
    ensures (a + b) % BURST == 0
  {}

  lemma {:induction false} StepBursts(k: nat)
    requires k >= 6
    ensures Pow2(k) % BURST == 0
  {
    if k == 6 {
      assert Pow2(6) == 64;
    } else {
      StepBursts(k - 1);
    }
  }

  /** Tick of the last request of a trace over `range` bytes. */
  function LastTick(range: nat): int {
    (range / BURST - 1) * ITT
  }

  function Period(maxRange: nat): nat {
    ITT * maxRange / BURST
  }

  /** One trace: it ends before the period exactly when its range exceeds the largest by less than a
      burst. */
  lemma {:induction false} FitsIff(range: nat, maxRange: nat)
    requires range % BURST == 0
    ensures LastTick(range) < Period(maxRange) <==> range < maxRange + BURST
  {
    var k := range / BURST;
    assert range == BURST * k;
  }

  /** Every trace ends before the period if and only if the list passes the largest range by less
      than a burst. */
  lemma {:induction false} TracesFitIff(n: nat, maxRange: nat)
    requires Cut(n, maxRange)
    ensures (forall i | 0 <= i < n :: LastTick(Grid(i)) < Period(maxRange)) <==> Grid(n - 1) < maxRange + BURST
  {
    hide Grid, LastTick, Period;
    forall i | 0 <= i < n
      ensures LastTick(Grid(i)) < Period(maxRange) <==> Grid(i) < maxRange + BURST
    {
      GridBursts(i);
      FitsIff(Grid(i), maxRange);
    }
    forall i | 0 <= i < n - 1 ensures Grid(i) < Grid(n - 1) {
      GridIncreasing(i, n - 1);
    }
  }

  /** For memory of whole bursts: if and only if the list ends exactly at the largest range. */
  lemma {:induction false} WholeBurstsFitIff(n: nat, maxRange: nat)
    requires Cut(n, maxRange) && maxRange % BURST == 0
    ensures (forall i | 0 <= i < n :: LastTick(Grid(i)) < Period(maxRange)) <==> Grid(n - 1) == maxRange
  {
    hide Grid, LastTick, Period;
    TracesFitIff(n, maxRange);
    GridBursts(n - 1);
  }

  /** The first byte of every burst below `maxAddr`. */
  function Bursts(maxAddr: nat): (addrs: seq<nat>)
    ensures |addrs| == (maxAddr + BURST - 1) / BURST
    ensures forall i | 0 <= i < |addrs| :: addrs[i] == BURST * i < maxAddr
  {
    seq((maxAddr + BURST - 1) / BURST, i requires i >= 0 => BURST * i)
  }

  /** The trace of one range, for any shuffle of its bursts: every burst is requested exactly once,
      `ITT` ticks apart, the last at the range's last tick. */
  method CreateTrace(maxAddr: nat, shuffled: seq<nat>) returns (packets: seq<(nat, nat)>)
    requires multiset(shuffled) == multiset(Bursts(maxAddr))
    ensures |packets| == |Bursts(maxAddr)|
    ensures forall i | 0 <= i < |packets| :: packets[i].0 == i * 150000
    ensures multiset(Addresses(packets)) == multiset(Bursts(maxAddr))
    ensures maxAddr % BURST == 0 && maxAddr > 0 ==> packets != [] && packets[|packets| - 1].0 == LastTick(maxAddr)
  {
    hide Bursts;
    packets := [];
    var tick := 0;
    for i := 0 to |shuffled|
      invariant tick == i * ITT && |packets| == i
      invariant forall j | 0 <= j < i :: packets[j].0 == j * ITT
      invariant Addresses(packets) == shuffled[..i]
    {
      packets := packets + [(tick, shuffled[i])];
      tick := tick + ITT;
    }
    assert shuffled[..|shuffled|] == shuffled;
    assert |shuffled| == |multiset(shuffled)| == |multiset(Bursts(maxAddr))| == |Bursts(maxAddr)|;
  }

  function Addresses(packets: seq<(nat, nat)>): (a: seq<nat>)
    ensures |a| == |packets|
  {
    seq(|packets|, i requires 0 <= i < |packets| => packets[i].1)
  }
}
