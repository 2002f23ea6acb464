/** Every run of the predictor, against the plain history of the values each load has returned. */
module MarkovHistory {
  import opened Bits
  import opened MarkovLvp

  const TWO31: nat := 0x8000_0000

  /** The CPU calls `predict` and `update` in any order (dispatch, writeback and commit all do). */
  datatype Op = Predict(pc: Addr) | Update(pc: Addr, val: Word)

  ghost function Step(cfg: Config, st: State, op: Op): (st': State)
    requires cfg.Valid() && Wf(cfg, st)
    ensures Wf(cfg, st')
  {
    match op
    case Predict(pc) => AfterPredict(cfg, st, pc)
    case Update(pc, val) => AfterUpdate(cfg, st, pc, val)
  }

  ghost function Run(cfg: Config, ops: seq<Op>): (st: State)
    requires cfg.Valid()
    ensures Wf(cfg, st)
  {
    if ops == [] then Initial(cfg)
    else Step(cfg, Run(cfg, ops[..|ops| - 1]), ops[|ops| - 1])
  }

  // ------------------------------------------------- the ring is the recent history

  /** The position `i + 1` places behind the write pointer, around the ring. */
  ghost function Behind(d: nat, w: nat, i: nat): (k: nat)
    requires w < d && i < d
    ensures k < d
  {
    if i < w then w - 1 - i else w - 1 - i + d
  }

  lemma {:induction false} RingIndexValue(d: nat, w: nat, i: nat)
    requires w < d <= TWO31 && i < d
    ensures RingIndex(d, w, i) == Behind(d, w, i)
  {
    assert (w + d - 1 - i) % TWO32 == w + d - 1 - i;
    if i < w {
      RemainderUnique(w + d - 1 - i, d, 1, w - 1 - i);
    } else {
      RemainderUnique(w + d - 1 - i, d, 0, w - 1 - i + d);
    }
  }

  /** The 32-bit sum inside the ring index never wraps exactly up to depth 2^31; one deeper, the
      most recent stride is read from the wrong place when the write pointer is last. */
  lemma {:induction false} RingIndexExactUpTo(d: nat)
    requires 1 <= d < TWO32
    ensures (forall w: nat, i: nat | w < d && i < d :: RingIndex(d, w, i) == Behind(d, w, i))
            <==> d <= TWO31
  {
    if d <= TWO31 {
      forall w: nat, i: nat | w < d && i < d
        ensures RingIndex(d, w, i) == Behind(d, w, i)
      {
        RingIndexValue(d, w, i);
      }
    } else {
      assert (2 * d - 2) % TWO32 == 2 * d - 2 - TWO32;
      RemainderUnique(2 * d - 2 - TWO32, d, 0, 2 * d - 2 - TWO32);
      assert RingIndex(d, d - 1, 0) == 2 * d - 2 - TWO32;
    }
  }

  /** At depth 2^31 + 1 with the write pointer last, position 0 is read instead of 2^31 - 1. */
  lemma {:induction false} RingIndexWraps()
    ensures RingIndex(TWO31 + 1, TWO31, 0) == 0 && Behind(TWO31 + 1, TWO31, 0) == TWO31 - 1
  {
    assert (TWO31 + (TWO31 + 1) - 1) % TWO32 == 0;
  }

  lemma {:induction false} ContextAt(cfg: Config, e: VhtEntry, i: nat)
    requires EntryWf(cfg, e) && cfg.contextDepth <= TWO31 && i < cfg.contextDepth
    ensures Context(cfg, e)[i] == e.strides[Behind(cfg.contextDepth, e.writePtr, i)]
  {
    RingIndexValue(cfg.contextDepth, e.writePtr, i);
  }

  lemma {:induction false} NextWritePtr(d: nat, w: nat)
    requires w < d
    ensures (w + 1) % d == if w + 1 == d then 0 else w + 1
  {
    if w + 1 == d {
      RemainderUnique(d, d, 1, 0);
    } else {
      RemainderUnique(w + 1, d, 0, w + 1);
    }
  }

  /** Pushing a stride moves the whole context back one place and drops the oldest. */
  lemma {:induction false} ContextPush(cfg: Config, e: VhtEntry, val: Word)
    requires EntryWf(cfg, e) && cfg.contextDepth <= TWO31
    ensures Context(cfg, PushStride(cfg, e, val))
         == [WrapSub(val, e.lastVal)] + Context(cfg, e)[..cfg.contextDepth - 1]
  {
    var pushed := [WrapSub(val, e.lastVal)] + Context(cfg, e)[..cfg.contextDepth - 1];
    var ctx := Context(cfg, PushStride(cfg, e, val));
    forall i | 0 <= i < cfg.contextDepth
      ensures ctx[i] == pushed[i]
    {
      ContextPushAt(cfg, e, val, i);
    }
  }

  lemma {:induction false} ContextPushAt(cfg: Config, e: VhtEntry, val: Word, i: nat)
    requires EntryWf(cfg, e) && cfg.contextDepth <= TWO31 && i < cfg.contextDepth
    ensures Context(cfg, PushStride(cfg, e, val))[i]
         == if i == 0 then WrapSub(val, e.lastVal) else Context(cfg, e)[i - 1]
  {
    NextWritePtr(cfg.contextDepth, e.writePtr);
    ContextAt(cfg, PushStride(cfg, e, val), i);
    if i > 0 {
      ContextAt(cfg, e, i - 1);
    }
  }

  /** Values loaded at `pc`, oldest first. */
  ghost function Values(ops: seq<Op>, pc: Addr): seq<Word> {
    if ops == [] then []
    else
      var last := ops[|ops| - 1];
      Values(ops[..|ops| - 1], pc) + if last.Update? && last.pc == pc then [last.val] else []
  }

  /** The last `depth` differences of a value history, most recent first, zeros before its start. */
  ghost function Recent(depth: nat, vals: seq<Word>): (ctx: seq<Word>)
    ensures |ctx| == depth
  {
    seq(depth, i requires 0 <= i < depth =>
      if i + 1 < |vals| then WrapSub(vals[|vals| - 1 - i], vals[|vals| - 2 - i]) else 0)
  }

  ghost predicate Tracks(cfg: Config, e: VhtEntry, vals: seq<Word>) {
    && EntryWf(cfg, e)
    && vals != []
    && e.lastVal == vals[|vals| - 1]
    && (e.strideValid <==> |vals| >= 2)
    && Context(cfg, e) == Recent(cfg.contextDepth, vals)
  }

  lemma {:induction false} TracksFirst(cfg: Config, e: VhtEntry, val: Word)
    requires EntryWf(cfg, e) && e.lastVal == val && !e.strideValid
    requires e.strides == seq(cfg.contextDepth, _ => 0)
    ensures Tracks(cfg, e, [val])
  {
    assert Context(cfg, e) == Recent(cfg.contextDepth, [val]);
  }

  lemma {:induction false} TracksPush(cfg: Config, e: VhtEntry, vals: seq<Word>, val: Word)
    requires cfg.contextDepth <= TWO31 && Tracks(cfg, e, vals)
    ensures Tracks(cfg, PushStride(cfg, e, val), vals + [val])
  {
    ContextPush(cfg, e, val);
    assert Recent(cfg.contextDepth, vals + [val])
        == [WrapSub(val, e.lastVal)] + Recent(cfg.contextDepth, vals)[..cfg.contextDepth - 1];
  }

  /** In every run, each load's history entry holds exactly its last value and its last
      `contextDepth` strides: the ring refines the value history. */
  lemma {:induction false} RingIsHistory(cfg: Config, ops: seq<Op>, pc: Addr)
    requires cfg.Valid() && cfg.contextDepth <= TWO31
    ensures pc in Run(cfg, ops).vht <==> Values(ops, pc) != []
    ensures pc in Run(cfg, ops).vht ==> Tracks(cfg, Run(cfg, ops).vht[pc], Values(ops, pc))
  {
    if ops == [] {
    } else {
      var before, op := ops[..|ops| - 1], ops[|ops| - 1];
      RingIsHistory(cfg, before, pc);
      var st, vals := Run(cfg, before), Values(before, pc);
      if op.Update? && op.pc == pc {
        if pc in st.vht {
          TracksPush(cfg, st.vht[pc], vals, op.val);
        } else {
          assert vals + [op.val] == [op.val];
          TracksFirst(cfg, Run(cfg, ops).vht[pc], op.val);
        }
      } else {
        assert Values(ops, pc) == vals;
        KeepsOther(cfg, st, op, pc);
      }
    }
  }

  /** A step that is not an update of `pc` leaves what `pc` has recorded alone. */
  lemma {:induction false} KeepsOther(cfg: Config, st: State, op: Op, pc: Addr)
    requires cfg.Valid() && Wf(cfg, st)
    requires !(op.Update? && op.pc == pc)
    ensures pc in Step(cfg, st, op).vht <==> pc in st.vht
    ensures pc in st.vht ==>
              var e, e' := st.vht[pc], Step(cfg, st, op).vht[pc];
              && e'.lastVal == e.lastVal && e'.strideValid == e.strideValid
              && e'.strides == e.strides && e'.writePtr == e.writePtr
              && EntryWf(cfg, e') && Context(cfg, e') == Context(cfg, e)
  {}

  // ------------------------------------------------- counters, over every run

  ghost function CountOps(ops: seq<Op>, updates: bool): nat {
    if ops == [] then 0
    else CountOps(ops[..|ops| - 1], updates) + if ops[|ops| - 1].Update? == updates then 1 else 0
  }

  ghost function Pending(st: State): set<Addr> {
    set pc | pc in st.vht && st.vht[pc].hasPending
  }

  /** Predictions issued for a load whose previous prediction was never checked. */
  ghost function Overwritten(cfg: Config, ops: seq<Op>): nat
    requires cfg.Valid()
  {
    if ops == [] then 0
    else
      var before, op := ops[..|ops| - 1], ops[|ops| - 1];
      var st := Run(cfg, before);
      Overwritten(cfg, before)
      + if op.Predict? && op.pc in Pending(st) && Offer(cfg, st, op.pc).0 then 1 else 0
  }

  /** Conservation: every load and every predict call is counted once, and every prediction is
      either checked (right or wrong), still pending, or was overwritten by a later one. */
  lemma {:induction false} CountersBalance(cfg: Config, ops: seq<Op>)
    requires cfg.Valid()
    ensures var s := Run(cfg, ops).stats;
            && s.totalLoads == CountOps(ops, true)
            && s.noHistory + s.noStride + s.lowConfidence + s.predicted == CountOps(ops, false)
            && s.correct + s.incorrect == s.pendingChecked
            && s.predicted == s.pendingChecked + |Pending(Run(cfg, ops))| + Overwritten(cfg, ops)
  {
    if ops == [] {
      assert Pending(Run(cfg, ops)) == {};
    } else {
      var before, op := ops[..|ops| - 1], ops[|ops| - 1];
      CountersBalance(cfg, before);
      match op {
        case Update(pc, val) => UpdateBalance(cfg, Run(cfg, before), pc, val);
        case Predict(pc) => PredictBalance(cfg, Run(cfg, before), pc);
      }
    }
  }

  lemma {:induction false} UpdateBalance(cfg: Config, st: State, pc: Addr, val: Word)
    requires cfg.Valid() && Wf(cfg, st)
    ensures var st' := AfterUpdate(cfg, st, pc, val);
            var s, s', checked := st.stats, st'.stats, if pc in Pending(st) then 1 else 0;
            && s'.totalLoads == s.totalLoads + 1
            && s'.predicted == s.predicted && s'.noHistory == s.noHistory
            && s'.noStride == s.noStride && s'.lowConfidence == s.lowConfidence
            && s'.pendingChecked == s.pendingChecked + checked
            && s'.correct + s'.incorrect == s.correct + s.incorrect + checked
            && |Pending(st')| == |Pending(st)| - checked
  {
    var before, after := Pending(st), Pending(AfterUpdate(cfg, st, pc, val));
    if pc in before {
      assert before == after + {pc};
    } else {
      assert after == before;
    }
  }

  lemma {:induction false} PredictBalance(cfg: Config, st: State, pc: Addr)
    requires cfg.Valid() && Wf(cfg, st)
    ensures var st' := AfterPredict(cfg, st, pc);
            var s, s', hit := st.stats, st'.stats, Offer(cfg, st, pc).0;
            && s'.totalLoads == s.totalLoads && s'.pendingChecked == s.pendingChecked
            && s'.correct == s.correct && s'.incorrect == s.incorrect
            && s'.predicted == s.predicted + (if hit then 1 else 0)
            && s'.noHistory + s'.noStride + s'.lowConfidence
               == s.noHistory + s.noStride + s.lowConfidence + (if hit then 0 else 1)
            && |Pending(st')| == |Pending(st)| + (if hit && pc !in Pending(st) then 1 else 0)
  {
    var before, after := Pending(st), Pending(AfterPredict(cfg, st, pc));
    if Offer(cfg, st, pc).0 && pc !in before {
      assert after == before + {pc};
    } else {
      assert after == before;
    }
  }

  /** A load is known once it has been updated, and has a stride from its second update on. */
  lemma {:induction false} KnownIff(cfg: Config, ops: seq<Op>, pc: Addr)
    requires cfg.Valid()
    ensures pc in Run(cfg, ops).vht <==> |Values(ops, pc)| >= 1
    ensures pc in Run(cfg, ops).vht ==> (Run(cfg, ops).vht[pc].strideValid <==> |Values(ops, pc)| >= 2)
  {
    hide Context, HashOf, Train;
    if ops == [] {
    } else {
      KnownIff(cfg, ops[..|ops| - 1], pc);
    }
  }

  /** Predicts of loads that had returned exactly `n` values by then. */
  ghost function PredictsAfter(ops: seq<Op>, n: nat): nat {
    if ops == [] then 0
    else
      var before, op := ops[..|ops| - 1], ops[|ops| - 1];
      PredictsAfter(before, n) + if op.Predict? && |Values(before, op.pc)| == n then 1 else 0
  }

  /** Predicts of loads that had returned two values or more by then, with a value offered or without. */
  ghost function PredictsLearned(cfg: Config, ops: seq<Op>, offered: bool): nat
    requires cfg.Valid()
  {
    if ops == [] then 0
    else
      var before, op := ops[..|ops| - 1], ops[|ops| - 1];
      PredictsLearned(cfg, before, offered)
      + if op.Predict? && |Values(before, op.pc)| >= 2 && Offer(cfg, Run(cfg, before), op.pc).0 == offered
        then 1 else 0
  }

  /** In every run each refusal is counted under its reason: a load never seen, one seen once, and one
      with a stride for which nothing was offered; the others are the predictions. */
  lemma {:induction false} RefusalsByReason(cfg: Config, ops: seq<Op>)
    requires cfg.Valid()
    ensures var s := Run(cfg, ops).stats;
            && s.noHistory == PredictsAfter(ops, 0)
            && s.noStride == PredictsAfter(ops, 1)
            && s.lowConfidence == PredictsLearned(cfg, ops, false)
            && s.predicted == PredictsLearned(cfg, ops, true)
  {
    hide Context, HashOf, Train, Values;
    if ops == [] {
    } else {
      var before, op := ops[..|ops| - 1], ops[|ops| - 1];
      RefusalsByReason(cfg, before);
      KnownIff(cfg, before, op.pc);
    }
  }

  // ------------------------------------------------- the saturating counter

  ghost function Ceiling(cfg: Config): nat {
    if cfg.maxConf == 0 then 1 else cfg.maxConf
  }

  ghost predicate Saturating(cfg: Config, st: State) {
    forall s | 0 <= s < |st.table| && st.table[s].valid :: 1 <= st.table[s].confidence <= Ceiling(cfg)
  }

  lemma {:induction false} TrainSaturates(cfg: Config, m: MarkovEntry, stride: Word)
    requires cfg.maxConf < 256 && m.confidence < 256
    requires m.valid ==> 1 <= m.confidence <= Ceiling(cfg)
    ensures 1 <= Train(cfg, m, stride).confidence <= Ceiling(cfg)
  {}

  lemma {:induction false} SaturatingInRange(cfg: Config, ops: seq<Op>)
    requires cfg.Valid() && cfg.maxConf < 256
    ensures Saturating(cfg, Run(cfg, ops))
  {
    if ops == [] {
    } else {
      var before, op := ops[..|ops| - 1], ops[|ops| - 1];
      SaturatingInRange(cfg, before);
      var st := Run(cfg, before);
      if op.Update? && op.pc in st.vht {
        var e := st.vht[op.pc];
        var s := HashOf(cfg, op.pc, Context(cfg, e));
        TrainSaturates(cfg, st.table[s], WrapSub(op.val, e.lastVal));
      }
    }
  }

  /** Confidence after `n` agreeing trainings. */
  ghost function ConfAfter(cfg: Config, n: nat): (c: nat)
    ensures c < 256
  {
    if n <= 1 then n
    else
      var c := ConfAfter(cfg, n - 1);
      if c < cfg.maxConf then Bump(c) else c
  }

  lemma {:induction false} ConfAfterSaturates(cfg: Config, n: nat)
    requires cfg.maxConf < 256
    ensures ConfAfter(cfg, n) == if n < Ceiling(cfg) then n else Ceiling(cfg)
  {
    if n > 1 { ConfAfterSaturates(cfg, n - 1); }
  }

  /** Above a byte's range nothing stops the count but the byte. */
  lemma {:induction false} ConfAfterWraps(cfg: Config, n: nat)
    requires cfg.maxConf >= 256
    ensures ConfAfter(cfg, n) == n % 256
  {
    if n <= 1 {
    } else {
      ConfAfterWraps(cfg, n - 1);
      NextRemainder(n - 1);
    }
  }

  lemma {:induction false} NextRemainder(n: nat)
    ensures (n % 256 + 1) % 256 == (n + 1) % 256
  {}

  /** `n` loads of zero by one instruction. */
  ghost function Zeros(n: nat): seq<Op> {
    if n == 0 then [] else Zeros(n - 1) + [Update(0, 0)]
  }

  /** The state after `n` zeros: every context is all zeros, so one slot sees every stride. */
  ghost predicate Flat(cfg: Config, st: State, n: nat)
    requires cfg.Valid() && Wf(cfg, st)
  {
    && 0 in st.vht
    && Context(cfg, st.vht[0]) == st.vht[0].strides == seq(cfg.contextDepth, _ => 0)
    && st.vht[0].lastVal == 0
    && (st.vht[0].strideValid <==> n >= 2)
    && var m := st.table[HashOf(cfg, 0, seq(cfg.contextDepth, _ => 0))];
       if n <= 2 then !m.valid else m == MarkovEntry(0, ConfAfter(cfg, n - 2), true)
  }

  lemma {:induction false} FlatPush(cfg: Config, e: VhtEntry)
    requires EntryWf(cfg, e) && e.lastVal == 0 && e.strides == seq(cfg.contextDepth, _ => 0)
    ensures var e' := PushStride(cfg, e, 0);
            e'.strides == e.strides && Context(cfg, e') == e.strides
  {
    var e' := PushStride(cfg, e, 0);
    assert e'.strides == e.strides;
    assert Context(cfg, e') == e.strides;
  }

  lemma {:induction false} FlatTrain(cfg: Config, m: MarkovEntry, n: nat)
    requires n >= 2
    requires if n == 2 then !m.valid && m.confidence < 256 else m == MarkovEntry(0, ConfAfter(cfg, n - 2), true)
    ensures Train(cfg, m, 0) == MarkovEntry(0, ConfAfter(cfg, n - 1), true)
  {}

  lemma {:induction false} FlatStep(cfg: Config, st: State, n: nat)
    requires cfg.Valid() && Wf(cfg, st) && n >= 1
    requires Flat(cfg, st, n)
    ensures Flat(cfg, AfterUpdate(cfg, st, 0, 0), n + 1)
  {
    FlatPush(cfg, st.vht[0]);
    var s := HashOf(cfg, 0, seq(cfg.contextDepth, _ => 0));
    if n >= 2 {
      FlatTrain(cfg, st.table[s], n);
    }
  }

  lemma {:induction false} ZerosClimb(cfg: Config, n: nat)
    requires cfg.Valid() && n >= 1
    ensures Flat(cfg, Run(cfg, Zeros(n)), n)
  {
    var ops := Zeros(n);
    assert ops[..|ops| - 1] == Zeros(n - 1);
    assert Run(cfg, ops) == AfterUpdate(cfg, Run(cfg, Zeros(n - 1)), 0, 0);
    if n > 1 {
      ZerosClimb(cfg, n - 1);
      FlatStep(cfg, Run(cfg, Zeros(n - 1)), n - 1);
    } else {
      assert Run(cfg, Zeros(0)) == Initial(cfg);
      var e := Run(cfg, ops).vht[0];
      assert Context(cfg, e) == e.strides;
    }
  }

  /** 258 zeros with a ceiling above the byte: the slot is valid and its confidence is zero. */
  lemma {:induction false} ByteWraps(cfg: Config)
    requires cfg.Valid() && cfg.maxConf >= 256
    ensures var m := Run(cfg, Zeros(258)).table[HashOf(cfg, 0, seq(cfg.contextDepth, _ => 0))];
            m.valid && m.confidence == 0
  {
    hide Run, HashOf;
    ZerosClimb(cfg, 258);
    ConfAfterWraps(cfg, 256);
  }

  /** The confidence counter saturates in every run exactly when its ceiling fits in its byte:
      with `max_conf` above 255 the byte wraps and a valid entry drops to confidence zero. */
  lemma {:induction false} SaturatesIffCeilingFits(cfg: Config)
    requires cfg.Valid()
    ensures (forall ops :: Saturating(cfg, Run(cfg, ops))) <==> cfg.maxConf < 256
  {
    if cfg.maxConf < 256 {
      forall ops ensures Saturating(cfg, Run(cfg, ops)) {
        SaturatingInRange(cfg, ops);
      }
    } else {
      ByteWraps(cfg);
      assert !Saturating(cfg, Run(cfg, Zeros(258)));
    }
  }
}
