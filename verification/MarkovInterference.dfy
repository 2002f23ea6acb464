/** Loads that share a slot can spoil each other's predictions without limit: with a table of one slot
    and enough loads, all but any given fraction of the commits are mispredicted. */
module MarkovInterference {
  import opened Bits
  import opened Text
  import opened MarkovLvp
  import opened MarkovHistory
  import opened MarkovLearning

  /** One slot, threshold two, ceiling two; any hash selects the slot. */
  ghost function OneSlot(): Config {
    Config(1, 1, 2, 2, (_, _) => 0)
  }

  // ------------------------------------------------- the machine with one slot

  /** What matters of a load's history entry: its last value, whether it has a stride, its prediction. */
  datatype Part = Unseen | Seen(last: Word, stride: bool, pending: Option<Word>)

  datatype View = View(slot: MarkovEntry, parts: seq<Part>, wrong: nat)

  ghost function Offered(slot: MarkovEntry, val: Word): Option<Word> {
    if slot.valid && slot.confidence >= 2 then Some(WrapAdd(val, slot.predictedStride)) else None
  }

  ghost function Advance(v: View, l: Load): View
    requires l.pc < |v.parts| && v.slot.confidence < 256
  {
    match v.parts[l.pc]
    case Unseen => v.(parts := v.parts[l.pc := Seen(l.val, false, None)])
    case Seen(last, stride, pending) =>
      var slot := if stride then Train(OneSlot(), v.slot, WrapSub(l.val, last)) else v.slot;
      View(slot, v.parts[l.pc := Seen(l.val, true, Offered(slot, l.val))],
           v.wrong + if pending.Some? && pending.value != l.val then 1 else 0)
  }

  ghost predicate Shows(st: State, pc: Addr, part: Part) {
    match part
    case Unseen => pc !in st.vht
    case Seen(last, stride, pending) =>
      && pc in st.vht
      && st.vht[pc].lastVal == last && st.vht[pc].strideValid == stride
      && st.vht[pc].hasPending == pending.Some?
      && (pending.Some? ==> st.vht[pc].pendingPred == pending.value)
  }

  ghost predicate Viewed(st: State, v: View) {
    && st.table == [v.slot] && st.stats.incorrect == v.wrong
    && |v.parts| < TWO64 && forall pc: Addr | pc < |v.parts| :: Shows(st, pc, v.parts[pc])
  }

  lemma {:induction false} OneSlotValid()
    ensures OneSlot().Valid()
  {
    assert Pow2(0) == 1;
  }

  lemma {:induction false} AdvanceUpdate(st: State, v: View, l: Load)
    requires OneSlot().Valid() && Wf(OneSlot(), st) && Viewed(st, v) && l.pc < |v.parts|
    ensures v.slot.confidence < 256
    ensures var u := AfterUpdate(OneSlot(), st, l.pc, l.val);
            var v' := Advance(v, l);
            && u.table == [v'.slot] && u.stats.incorrect == v'.wrong
            && l.pc in u.vht && u.vht[l.pc].lastVal == l.val && u.vht[l.pc].strideValid == v'.parts[l.pc].stride
            && !u.vht[l.pc].hasPending
            && (forall pc: Addr | pc < |v.parts| && pc != l.pc :: Shows(u, pc, v'.parts[pc]))
  {
    hide HashOf, Train;
    assert st.table[0].confidence < 256;
    assert Shows(st, l.pc, v.parts[l.pc]);
    forall pc: Addr | pc < |v.parts| && pc != l.pc
      ensures Shows(AfterUpdate(OneSlot(), st, l.pc, l.val), pc, Advance(v, l).parts[pc])
    {
      assert Shows(st, pc, v.parts[pc]);
    }
  }

  lemma {:induction false} AdvanceCommit(st: State, v: View, l: Load)
    requires OneSlot().Valid() && Wf(OneSlot(), st) && Viewed(st, v) && l.pc < |v.parts|
    ensures v.slot.confidence < 256 && Viewed(Commit(OneSlot(), st, l), Advance(v, l))
  {
    AdvanceUpdate(st, v, l);
    hide HashOf, Train, AfterUpdate;
    var u, c, v' := AfterUpdate(OneSlot(), st, l.pc, l.val), Commit(OneSlot(), st, l), Advance(v, l);
    forall pc: Addr | pc < |v'.parts| ensures Shows(c, pc, v'.parts[pc]) {
      if pc != l.pc { assert Shows(u, pc, v'.parts[pc]); }
    }
  }

  /** Committing `trace` leads to `v`. */
  ghost predicate Reaches(trace: seq<Load>, v: View) {
    OneSlot().Valid() && Viewed(RunCommits(OneSlot(), trace), v)
  }

  lemma {:induction false} ReachesNext(trace: seq<Load>, l: Load, v: View)
    requires Reaches(trace, v) && l.pc < |v.parts|
    ensures v.slot.confidence < 256 && Reaches(trace + [l], Advance(v, l))
  {
    hide Viewed, Advance, Commit;
    assert (trace + [l])[..|trace|] == trace;
    AdvanceCommit(RunCommits(OneSlot(), trace), v, l);
  }

  // ------------------------------------------------- warming up

  /** Three loads of zero by each of the first `i` instructions. */
  ghost function WarmUp(i: nat): (trace: seq<Load>)
    requires i < TWO64
    ensures |trace| == 3 * i
  {
    if i == 0 then [] else WarmUp(i - 1) + [Load(i - 1, 0)] + [Load(i - 1, 0)] + [Load(i - 1, 0)]
  }

  ghost predicate Warm(v: View, n: nat, i: nat) {
    && |v.parts| == n && i <= n
    && v.slot == (if i == 0 then EMPTY_SLOT else MarkovEntry(0, if i == 1 then 1 else 2, true))
    && (forall p | i <= p < n :: v.parts[p] == Unseen)
    && (forall p | 0 <= p < i :: Follows(v.parts[p], p, 0, 0))
  }

  /** Load `p` was last `a`, and from the third load on a prediction of `a + c` is pending. */
  ghost predicate Follows(part: Part, p: nat, a: Word, c: Word) {
    part.Seen? && part.last == a && part.stride && (p >= 2 ==> part.pending == Some(WrapAdd(a, c)))
  }

  lemma {:induction false} WarmNext(v: View, n: nat, i: nat)
    requires Warm(v, n, i) && i < n < TWO64
    ensures var l := Load(i, 0);
            var v1 := Advance(v, l);
            v1.slot.confidence < 256 && i < |v1.parts|
            && var v2 := Advance(v1, l);
               v2.slot.confidence < 256 && i < |v2.parts| && Warm(Advance(v2, l), n, i + 1)
  {
    var l := Load(i, 0);
    var v1 := Advance(v, l);
    var v2 := Advance(v1, l);
    var v3 := Advance(v2, l);
    assert v1.parts[i] == Seen(0, false, None) && v1.slot == v.slot;
    assert v2.parts[i] == Seen(0, true, Offered(v.slot, 0)) && v2.slot == v.slot;
    assert WrapSub(0, 0) == 0 && WrapAdd(0, 0) == 0;
    forall p | 0 <= p < i + 1 ensures Follows(v3.parts[p], p, 0, 0) {
      if p < i { assert v3.parts[p] == v.parts[p]; }
    }
  }

  lemma {:induction false} WarmedUp(n: nat, i: nat) returns (v: View)
    requires i <= n < TWO64
    ensures Reaches(WarmUp(i), v) && Warm(v, n, i)
  {
    hide Reaches, Advance, Warm;
    if i == 0 {
      v := ColdStart(n);
    } else {
      var before := WarmedUp(n, i - 1);
      var l, trace := Load(i - 1, 0), WarmUp(i - 1);
      WarmSize(before, n, i - 1);
      WarmNext(before, n, i - 1);
      ReachesNext(trace, l, before);
      ReachesNext(trace + [l], l, Advance(before, l));
      ReachesNext(trace + [l] + [l], l, Advance(Advance(before, l), l));
      v := Advance(Advance(Advance(before, l), l), l);
    }
  }

  lemma {:induction false} ColdStart(n: nat) returns (v: View)
    requires n < TWO64
    ensures Reaches([], v) && Warm(v, n, 0)
  {
    OneSlotValid();
    v := View(EMPTY_SLOT, seq(n, _ => Unseen), 0);
    assert RunCommits(OneSlot(), []) == Initial(OneSlot());
  }

  lemma {:induction false} WarmSize(v: View, n: nat, i: nat)
    requires Warm(v, n, i)
    ensures |v.parts| == n && v.slot.confidence < 256
  {}

  // ------------------------------------------------- one round of all loads

  /** The first `i` loads return `b`. */
  ghost function Round(i: nat, b: Word): (trace: seq<Load>)
    requires i < TWO64
    ensures |trace| == i
  {
    if i == 0 then [] else Round(i - 1, b) + [Load(i - 1, b)]
  }

  /** `i` loads have moved from `a` to `b`, by `d` where the slot had learned `c`. */
  ghost predicate Midway(v: View, n: nat, a: Word, c: Word, b: Word, d: Word, i: nat) {
    && |v.parts| == n && i <= n
    && v.slot == (if i == 0 then MarkovEntry(c, 2, true)
                  else if i == 1 then MarkovEntry(c, 1, true)
                  else MarkovEntry(d, if i == 2 then 1 else 2, true))
    && (forall p | 0 <= p < i :: Follows(v.parts[p], p, b, d))
    && (forall p | i <= p < n :: Follows(v.parts[p], p, a, c))
  }

  lemma {:induction false} MidwayNext(v: View, n: nat, a: Word, c: Word, b: Word, d: Word, i: nat)
    requires Midway(v, n, a, c, b, d, i) && i < n < TWO64 && b == WrapAdd(a, d) && c != d
    ensures v.slot.confidence < 256 && Midway(Advance(v, Load(i, b)), n, a, c, b, d, i + 1)
    ensures Advance(v, Load(i, b)).wrong >= v.wrong + if i >= 2 then 1 else 0
  {
    var l := Load(i, b);
    var v' := Advance(v, l);
    assert Follows(v.parts[i], i, a, c);
    WrapAddSub(a, b, d);
    WrapAddSub(a, b, c);
    assert v'.slot == Train(OneSlot(), v.slot, d);
    forall p | 0 <= p < i + 1 ensures Follows(v'.parts[p], p, b, d) {
      if p < i { assert v'.parts[p] == v.parts[p]; }
    }
    forall p | i + 1 <= p < n ensures Follows(v'.parts[p], p, a, c) {
      assert v'.parts[p] == v.parts[p];
    }
  }

  lemma {:induction false} RoundSoFar(
    trace: seq<Load>, v: View, n: nat, a: Word, c: Word, b: Word, d: Word, i: nat) returns (v': View)
    requires Reaches(trace, v) && Midway(v, n, a, c, b, d, 0) && i <= n < TWO64 && b == WrapAdd(a, d) && c != d
    ensures Reaches(trace + Round(i, b), v') && Midway(v', n, a, c, b, d, i)
    ensures v'.wrong >= v.wrong && v'.wrong >= v.wrong + i - 2
    decreases i
  {
    hide Reaches, Midway, Advance;
    if i == 0 {
      v' := v;
      assert trace + Round(0, b) == trace;
    } else {
      var w := RoundSoFar(trace, v, n, a, c, b, d, i - 1);
      MidwaySize(w, n, a, c, b, d, i - 1);
      MidwayNext(w, n, a, c, b, d, i - 1);
      ReachesNext(trace + Round(i - 1, b), Load(i - 1, b), w);
      assert trace + Round(i, b) == trace + Round(i - 1, b) + [Load(i - 1, b)];
      v' := Advance(w, Load(i - 1, b));
    }
  }

  lemma {:induction false} MidwaySize(v: View, n: nat, a: Word, c: Word, b: Word, d: Word, i: nat)
    requires Midway(v, n, a, c, b, d, i)
    ensures |v.parts| == n
  {}

  // ------------------------------------------------- many rounds

  /** The stride of round `r`: the rounds alternate between one and zero. */
  ghost function Stride(r: nat): Word {
    r % 2
  }

  ghost function ValueIn(r: nat): Word {
    if r == 0 then 0 else WrapAdd(ValueIn(r - 1), Stride(r))
  }

  ghost function Interfering(n: nat, rounds: nat): (trace: seq<Load>)
    requires n < TWO64
    ensures |trace| == (rounds + 3) * n
  {
    if rounds == 0 then WarmUp(n) else Interfering(n, rounds - 1) + Round(n, ValueIn(rounds))
  }

  lemma {:induction false} AfterRounds(n: nat, rounds: nat) returns (v: View)
    requires 3 <= n < TWO64
    ensures Reaches(Interfering(n, rounds), v)
    ensures var a, c := ValueIn(rounds), Stride(rounds);
            Midway(v, n, a, c, WrapAdd(a, 1 - c), 1 - c, 0)
    ensures v.wrong >= rounds * (n - 2)
  {
    hide Reaches, WarmUp, Round, Midway;
    if rounds == 0 {
      v := WarmedUp(n, n);
      WarmIsMidway(v, n);
    } else {
      var w := AfterRounds(n, rounds - 1);
      var a, c := ValueIn(rounds - 1), Stride(rounds - 1);
      var b, d := ValueIn(rounds), Stride(rounds);
      assert d == 1 - c && b == WrapAdd(a, d);
      v := RoundSoFar(Interfering(n, rounds - 1), w, n, a, c, b, d, n);
      RoundDone(v, n, a, c, b, d);
      assert rounds * (n - 2) == (rounds - 1) * (n - 2) + (n - 2);
    }
  }

  lemma {:induction false} WarmIsMidway(v: View, n: nat)
    requires Warm(v, n, n) && n >= 3
    ensures Midway(v, n, 0, 0, WrapAdd(0, 1), 1, 0)
  {}

  lemma {:induction false} RoundDone(v: View, n: nat, a: Word, c: Word, b: Word, d: Word)
    requires Midway(v, n, a, c, b, d, n) && n >= 3 && d <= 1
    ensures Midway(v, n, b, d, WrapAdd(b, 1 - d), 1 - d, 0)
  {}

  /** `n` loads in turn, all but two of them mispredicted in every round behind the warm-up. */
  lemma {:induction false} AllButTwoWrong(n: nat, rounds: nat)
    requires 3 <= n < TWO64
    ensures OneSlot().Valid()
    ensures RunCommits(OneSlot(), Interfering(n, rounds)).stats.incorrect >= rounds * (n - 2)
  {
    hide Interfering, Midway, RunCommits;
    var v := AfterRounds(n, rounds);
  }

  /** Eight loads, seven rounds: more than half of all commits are mispredicted. */
  lemma {:induction false} MoreThanHalfWrong()
    ensures OneSlot().Valid()
    ensures 2 * RunCommits(OneSlot(), Interfering(8, 7)).stats.incorrect > |Interfering(8, 7)|
  {
    hide Interfering;
    AllButTwoWrong(8, 7);
  }

  /** No bound short of all commits holds for loads that interfere: for every `k`, some trace leaves at
      most one in `k` of its commits not mispredicted. */
  lemma {:induction false} NoFractionBounds(k: nat)
    requires 1 <= k && 4 * k < TWO64
    ensures OneSlot().Valid()
    ensures var trace := Interfering(4 * k, 12 * k);
            k * RunCommits(OneSlot(), trace).stats.incorrect >= (k - 1) * |trace|
  {
    hide Interfering;
    AllButTwoWrong(4 * k, 12 * k);
    var wrong := RunCommits(OneSlot(), Interfering(4 * k, 12 * k)).stats.incorrect;
    AllButOneInK(k, wrong);
  }

  lemma {:induction false} AllButOneInK(k: nat, wrong: nat)
    requires k >= 1 && wrong >= 12 * k * (4 * k - 2)
    ensures k * wrong >= (k - 1) * ((12 * k + 3) * (4 * k))
  {
    var sq := k * k;
    assert 12 * k * (4 * k - 2) == 48 * sq - 24 * k;
    assert (12 * k + 3) * (4 * k) == 48 * sq + 12 * k;
    assert k * wrong >= k * (48 * sq - 24 * k) == 48 * (k * sq) - 24 * sq;
    assert (k - 1) * (48 * sq + 12 * k) == 48 * (k * sq) + 12 * sq - 48 * sq - 12 * k;
  }
}
