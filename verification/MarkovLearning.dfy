/** What the predictor achieves on the commit stage's own call pattern: each committed load first
    trains the predictor with its value and then asks for the next one. */
module MarkovLearning {
  import opened Bits
  import opened MarkovLvp
  import opened MarkovHistory

  datatype Load = Load(pc: Addr, val: Word)

  ghost function Commit(cfg: Config, st: State, l: Load): (st': State)
    requires cfg.Valid() && Wf(cfg, st)
    ensures Wf(cfg, st')
  {
    AfterPredict(cfg, AfterUpdate(cfg, st, l.pc, l.val), l.pc)
  }

  ghost function RunCommits(cfg: Config, trace: seq<Load>): (st: State)
    requires cfg.Valid()
    ensures Wf(cfg, st)
  {
    if trace == [] then Initial(cfg)
    else Commit(cfg, RunCommits(cfg, trace[..|trace| - 1]), trace[|trace| - 1])
  }

  /** Values loaded at `pc`, oldest first. */
  ghost function Loaded(trace: seq<Load>, pc: Addr): seq<Word> {
    if trace == [] then []
    else
      var last := trace[|trace| - 1];
      Loaded(trace[..|trace| - 1], pc) + if last.pc == pc then [last.val] else []
  }

  ghost function CommitOps(trace: seq<Load>): seq<Op> {
    if trace == [] then []
    else
      var last := trace[|trace| - 1];
      CommitOps(trace[..|trace| - 1]) + [Update(last.pc, last.val), Predict(last.pc)]
  }

  lemma {:induction false} CommitOpsSnoc(before: seq<Load>, l: Load)
    ensures CommitOps(before + [l]) == CommitOps(before) + [Update(l.pc, l.val)] + [Predict(l.pc)]
  {
    assert (before + [l])[..|before|] == before;
  }

  lemma {:induction false} RunSnoc(cfg: Config, ops: seq<Op>, op: Op)
    requires cfg.Valid()
    ensures Run(cfg, ops + [op]) == Step(cfg, Run(cfg, ops), op)
  {
    assert (ops + [op])[..|ops|] == ops;
  }

  lemma {:induction false} ValuesSnoc(ops: seq<Op>, op: Op, pc: Addr)
    ensures Values(ops + [op], pc) == Values(ops, pc) + if op.Update? && op.pc == pc then [op.val] else []
  {
    assert (ops + [op])[..|ops|] == ops;
  }

  lemma {:induction false} CommitsAreRuns(cfg: Config, trace: seq<Load>)
    requires cfg.Valid()
    ensures RunCommits(cfg, trace) == Run(cfg, CommitOps(trace))
  {
    if trace == [] {
    } else {
      hide Run, CommitOps;
      var before, last := trace[..|trace| - 1], trace[|trace| - 1];
      CommitsAreRuns(cfg, before);
      assert trace == before + [last];
      CommitOpsSnoc(before, last);
      var mid := CommitOps(before) + [Update(last.pc, last.val)];
      RunSnoc(cfg, CommitOps(before), Update(last.pc, last.val));
      RunSnoc(cfg, mid, Predict(last.pc));
    }
  }

  lemma {:induction false} LoadedAreValues(trace: seq<Load>, pc: Addr)
    ensures Loaded(trace, pc) == Values(CommitOps(trace), pc)
  {
    if trace == [] {
    } else {
      var before, last := trace[..|trace| - 1], trace[|trace| - 1];
      LoadedAreValues(before, pc);
      assert trace == before + [last];
      CommitOpsSnoc(before, last);
      var mid := CommitOps(before) + [Update(last.pc, last.val)];
      ValuesSnoc(CommitOps(before), Update(last.pc, last.val), pc);
      ValuesSnoc(mid, Predict(last.pc), pc);
    }
  }

  lemma {:induction false} CommitsTrack(cfg: Config, trace: seq<Load>, pc: Addr)
    requires cfg.Valid() && cfg.contextDepth <= TWO31
    ensures pc in RunCommits(cfg, trace).vht <==> Loaded(trace, pc) != []
    ensures pc in RunCommits(cfg, trace).vht ==>
              Tracks(cfg, RunCommits(cfg, trace).vht[pc], Loaded(trace, pc))
  {
    CommitsAreRuns(cfg, trace);
    LoadedAreValues(trace, pc);
    RingIsHistory(cfg, CommitOps(trace), pc);
  }

  /** A commit checks the pending prediction before it makes the next one, so none is lost. */
  lemma {:induction false} CommitsLoseNothing(cfg: Config, trace: seq<Load>)
    requires cfg.Valid()
    ensures Overwritten(cfg, CommitOps(trace)) == 0
    ensures var st := RunCommits(cfg, trace);
            st.stats.predicted == st.stats.correct + st.stats.incorrect + |Pending(st)|
  {
    hide Run, CommitOps, RunCommits, AfterPredict;
    if trace == [] {
      NothingOverwritten(cfg);
    } else {
      var before, last := trace[..|trace| - 1], trace[|trace| - 1];
      CommitsLoseNothing(cfg, before);
      assert trace == before + [last];
      CommitOpsSnoc(before, last);
      var mid := CommitOps(before) + [Update(last.pc, last.val)];
      RunSnoc(cfg, CommitOps(before), Update(last.pc, last.val));
      UpdateClears(cfg, Run(cfg, CommitOps(before)), last);
      assert mid[..|CommitOps(before)|] == CommitOps(before);
      assert CommitOps(trace)[..|mid|] == mid;
    }
    CommitsAreRuns(cfg, trace);
    CountersBalance(cfg, CommitOps(trace));
  }

  lemma {:induction false} NothingOverwritten(cfg: Config)
    requires cfg.Valid()
    ensures Overwritten(cfg, CommitOps([])) == 0
  {}

  lemma {:induction false} UpdateClears(cfg: Config, st: State, l: Load)
    requires cfg.Valid() && Wf(cfg, st)
    ensures l.pc !in Pending(Step(cfg, st, Update(l.pc, l.val)))
  {}

  // ------------------------------------------------- which slot a load trains, from history alone

  ghost predicate Trains(trace: seq<Load>, pc: Addr) {
    |Loaded(trace, pc)| >= 2
  }

  /** The slot the next load at `pc` will train. */
  ghost function NextSlot(cfg: Config, trace: seq<Load>, pc: Addr): (s: nat)
    requires cfg.Valid()
    ensures s < cfg.tableSize
  {
    HashOf(cfg, pc, Recent(cfg.contextDepth, Loaded(trace, pc)))
  }

  ghost function StrideOf(trace: seq<Load>, l: Load): Word
    requires Trains(trace, l.pc)
  {
    var vals := Loaded(trace, l.pc);
    WrapSub(l.val, vals[|vals| - 1])
  }

  /** Number of loads of the trace that trained slot `s`. */
  ghost function Visits(cfg: Config, trace: seq<Load>, s: nat): nat
    requires cfg.Valid()
  {
    if trace == [] then 0
    else
      var before, last := trace[..|trace| - 1], trace[|trace| - 1];
      Visits(cfg, before, s)
      + if Trains(before, last.pc) && NextSlot(cfg, before, last.pc) == s then 1 else 0
  }

  /** Every load that trains slot `s` moves by the same stride `f(s)`. */
  ghost predicate Consistent(cfg: Config, trace: seq<Load>, f: nat -> Word)
    requires cfg.Valid()
  {
    trace != [] ==>
      var before, last := trace[..|trace| - 1], trace[|trace| - 1];
      && Consistent(cfg, before, f)
      && (Trains(before, last.pc) ==> StrideOf(before, last) == f(NextSlot(cfg, before, last.pc)))
  }

  // ------------------------------------------------- consistent traces are learned without error

  ghost predicate SlotLearned(cfg: Config, m: MarkovEntry, stride: Word, visits: nat) {
    if visits == 0 then m == EMPTY_SLOT
    else m == MarkovEntry(stride, ConfAfter(cfg, visits), true)
  }

  ghost predicate TableLearned(cfg: Config, trace: seq<Load>, f: nat -> Word, table: seq<MarkovEntry>)
    requires cfg.Valid() && |table| == cfg.tableSize
  {
    forall s: nat | s < |table| :: SlotLearned(cfg, table[s], f(s), Visits(cfg, trace, s))
  }

  ghost predicate PendingRight(cfg: Config, f: nat -> Word, e: VhtEntry, pc: Addr)
    requires cfg.Valid() && EntryWf(cfg, e)
  {
    e.hasPending ==>
      && e.strideValid
      && e.pendingPred == WrapAdd(e.lastVal, f(HashOf(cfg, pc, Context(cfg, e))))
  }

  ghost predicate Learned(cfg: Config, trace: seq<Load>, f: nat -> Word, st: State)
    requires cfg.Valid() && Wf(cfg, st)
  {
    && TableLearned(cfg, trace, f, st.table)
    && (forall pc | pc in st.vht :: PendingRight(cfg, f, st.vht[pc], pc))
    && st.stats.incorrect == 0
  }

  lemma {:induction false} WrapAddSub(last: Word, val: Word, stride: Word)
    ensures WrapAdd(last, stride) == val <==> WrapSub(val, last) == stride
  {}

  lemma {:induction false} TrainLearns(cfg: Config, m: MarkovEntry, stride: Word, visits: nat)
    requires SlotLearned(cfg, m, stride, visits)
    ensures m.confidence < 256 && SlotLearned(cfg, Train(cfg, m, stride), stride, visits + 1)
  {}

  /** The table after an update of a tracked load. */
  lemma {:induction false} UpdateLearns(cfg: Config, trace: seq<Load>, f: nat -> Word, st: State, l: Load)
    requires cfg.Valid() && Wf(cfg, st) && TableLearned(cfg, trace, f, st.table)
    requires l.pc in st.vht <==> Loaded(trace, l.pc) != []
    requires l.pc in st.vht ==> Tracks(cfg, st.vht[l.pc], Loaded(trace, l.pc))
    requires Trains(trace, l.pc) ==> StrideOf(trace, l) == f(NextSlot(cfg, trace, l.pc))
    ensures TableLearned(cfg, trace + [l], f, AfterUpdate(cfg, st, l.pc, l.val).table)
  {
    assert (trace + [l])[..|trace|] == trace;
    var table' := AfterUpdate(cfg, st, l.pc, l.val).table;
    forall s: nat | s < |table'|
      ensures SlotLearned(cfg, table'[s], f(s), Visits(cfg, trace + [l], s))
    {
      assert SlotLearned(cfg, st.table[s], f(s), Visits(cfg, trace, s));
      if Trains(trace, l.pc) && NextSlot(cfg, trace, l.pc) == s {
        TrainLearns(cfg, st.table[s], f(s), Visits(cfg, trace, s));
      }
    }
  }

  lemma {:induction false} OfferLearned(cfg: Config, trace: seq<Load>, f: nat -> Word, st: State, pc: Addr)
    requires cfg.Valid() && Wf(cfg, st) && TableLearned(cfg, trace, f, st.table)
    requires Offer(cfg, st, pc).0
    ensures pc in st.vht && st.vht[pc].strideValid
    ensures Offer(cfg, st, pc).1 == WrapAdd(st.vht[pc].lastVal, f(HashOf(cfg, pc, Context(cfg, st.vht[pc]))))
  {
    var s := HashOf(cfg, pc, Context(cfg, st.vht[pc]));
    assert SlotLearned(cfg, st.table[s], f(s), Visits(cfg, trace, s));
  }

  lemma {:induction false} CheckedRight(cfg: Config, trace: seq<Load>, f: nat -> Word, st: State, l: Load)
    requires cfg.Valid() && Wf(cfg, st) && Learned(cfg, trace, f, st)
    requires l.pc in st.vht ==> Tracks(cfg, st.vht[l.pc], Loaded(trace, l.pc))
    requires Trains(trace, l.pc) ==> StrideOf(trace, l) == f(NextSlot(cfg, trace, l.pc))
    ensures AfterUpdate(cfg, st, l.pc, l.val).stats.incorrect == 0
  {
    if l.pc in st.vht && st.vht[l.pc].hasPending {
      var e := st.vht[l.pc];
      assert PendingRight(cfg, f, e, l.pc);
      WrapAddSub(e.lastVal, l.val, f(HashOf(cfg, l.pc, Context(cfg, e))));
    }
  }

  lemma {:induction false} CommitLearns(cfg: Config, trace: seq<Load>, f: nat -> Word, st: State, l: Load)
    requires cfg.Valid() && Wf(cfg, st) && Learned(cfg, trace, f, st)
    requires l.pc in st.vht <==> Loaded(trace, l.pc) != []
    requires l.pc in st.vht ==> Tracks(cfg, st.vht[l.pc], Loaded(trace, l.pc))
    requires Trains(trace, l.pc) ==> StrideOf(trace, l) == f(NextSlot(cfg, trace, l.pc))
    ensures Learned(cfg, trace + [l], f, Commit(cfg, st, l))
  {
    UpdateLearns(cfg, trace, f, st, l);
    CheckedRight(cfg, trace, f, st, l);
    var u, c := AfterUpdate(cfg, st, l.pc, l.val), Commit(cfg, st, l);
    forall pc | pc in c.vht ensures PendingRight(cfg, f, c.vht[pc], pc) {
      if pc == l.pc {
        if Offer(cfg, u, pc).0 {
          OfferLearned(cfg, trace + [l], f, u, pc);
          assert Context(cfg, c.vht[pc]) == Context(cfg, u.vht[pc]);
        }
      } else {
        assert c.vht[pc] == st.vht[pc];
        assert PendingRight(cfg, f, st.vht[pc], pc);
      }
    }
  }

  lemma {:induction false} LearnedInitially(cfg: Config, f: nat -> Word)
    requires cfg.Valid()
    ensures Learned(cfg, [], f, Initial(cfg))
  {}

  lemma {:induction false} LearnsOneMore(cfg: Config, before: seq<Load>, f: nat -> Word, l: Load)
    requires cfg.Valid() && cfg.contextDepth <= TWO31
    requires Learned(cfg, before, f, RunCommits(cfg, before))
    requires Trains(before, l.pc) ==> StrideOf(before, l) == f(NextSlot(cfg, before, l.pc))
    ensures Learned(cfg, before + [l], f, Commit(cfg, RunCommits(cfg, before), l))
  {
    CommitsTrack(cfg, before, l.pc);
    CommitLearns(cfg, before, f, RunCommits(cfg, before), l);
  }

  lemma {:induction false} LearnsConsistent(cfg: Config, trace: seq<Load>, f: nat -> Word)
    requires cfg.Valid() && cfg.contextDepth <= TWO31 && Consistent(cfg, trace, f)
    ensures Learned(cfg, trace, f, RunCommits(cfg, trace))
  {
    if trace == [] {
      LearnedInitially(cfg, f);
    } else {
      var before, last := trace[..|trace| - 1], trace[|trace| - 1];
      LearnsConsistent(cfg, before, f);
      LearnsOneMore(cfg, before, f, last);
      assert before + [last] == trace;
    }
  }

  /** Whether the commit of the last load at `pc` issues a prediction, from history alone. */
  ghost predicate Covered(cfg: Config, trace: seq<Load>, pc: Addr)
    requires cfg.Valid()
  {
    && Trains(trace, pc)
    && var n := Visits(cfg, trace, NextSlot(cfg, trace, pc));
       n >= 1 && ConfAfter(cfg, n) >= cfg.confThreshold
  }

  ghost function CoveredCount(cfg: Config, trace: seq<Load>): nat
    requires cfg.Valid()
  {
    if trace == [] then 0
    else CoveredCount(cfg, trace[..|trace| - 1])
         + if Covered(cfg, trace, trace[|trace| - 1].pc) then 1 else 0
  }

  lemma {:induction false} CommitPending(cfg: Config, st: State, l: Load)
    requires cfg.Valid() && Wf(cfg, st)
    ensures var c := Commit(cfg, st, l);
            && l.pc in c.vht
            && Offer(cfg, c, l.pc) == Offer(cfg, AfterUpdate(cfg, st, l.pc, l.val), l.pc)
            && c.vht[l.pc].hasPending == Offer(cfg, c, l.pc).0
            && (c.vht[l.pc].hasPending ==> c.vht[l.pc].pendingPred == Offer(cfg, c, l.pc).1)
            && c.stats.predicted == st.stats.predicted + if Offer(cfg, c, l.pc).0 then 1 else 0
  {
    var u := AfterUpdate(cfg, st, l.pc, l.val);
    var c := Commit(cfg, st, l);
    assert Context(cfg, c.vht[l.pc]) == Context(cfg, u.vht[l.pc]);
  }

  lemma {:induction false} OfferIsCovered(cfg: Config, trace: seq<Load>, f: nat -> Word, pc: Addr)
    requires cfg.Valid() && cfg.contextDepth <= TWO31 && Consistent(cfg, trace, f)
    ensures Offer(cfg, RunCommits(cfg, trace), pc).0 <==> Covered(cfg, trace, pc)
  {
    LearnsConsistent(cfg, trace, f);
    CommitsTrack(cfg, trace, pc);
    var s := NextSlot(cfg, trace, pc);
    var st := RunCommits(cfg, trace);
    assert SlotLearned(cfg, st.table[s], f(s), Visits(cfg, trace, s));
  }

  /** On a trace whose strides are a function of the slot they train, for any mixture of loads:
      no prediction is ever wrong, and predictions are issued exactly where the slot has been
      seen often enough to reach the threshold. */
  lemma {:induction false} ConsistentNeverWrong(cfg: Config, trace: seq<Load>, f: nat -> Word)
    requires cfg.Valid() && cfg.contextDepth <= TWO31 && Consistent(cfg, trace, f)
    ensures RunCommits(cfg, trace).stats.incorrect == 0
    ensures RunCommits(cfg, trace).stats.predicted == CoveredCount(cfg, trace)
  {
    LearnsConsistent(cfg, trace, f);
    if trace == [] {
    } else {
      var before, last := trace[..|trace| - 1], trace[|trace| - 1];
      ConsistentNeverWrong(cfg, before, f);
      CommitPending(cfg, RunCommits(cfg, before), last);
      OfferIsCovered(cfg, trace, f, last.pc);
    }
  }

  // ------------------------------------------------- any order of predicts and updates

  /** The updates of a run, as loads. */
  ghost function Updates(ops: seq<Op>): seq<Load> {
    if ops == [] then []
    else
      var last := ops[|ops| - 1];
      Updates(ops[..|ops| - 1]) + if last.Update? then [Load(last.pc, last.val)] else []
  }

  lemma {:induction false} UpdatesAreValues(ops: seq<Op>, pc: Addr)
    ensures Loaded(Updates(ops), pc) == Values(ops, pc)
  {
    if ops == [] {
    } else {
      var before, last := ops[..|ops| - 1], ops[|ops| - 1];
      UpdatesAreValues(before, pc);
      if last.Update? {
        assert Updates(ops)[..|Updates(before)|] == Updates(before);
      } else {
        assert Updates(ops) == Updates(before);
      }
    }
  }

  lemma {:induction false} PredictKeepsLearned(
    cfg: Config, trace: seq<Load>, f: nat -> Word, st: State, pc: Addr)
    requires cfg.Valid() && Wf(cfg, st) && Learned(cfg, trace, f, st)
    ensures Learned(cfg, trace, f, AfterPredict(cfg, st, pc))
  {
    var c := AfterPredict(cfg, st, pc);
    forall q | q in c.vht ensures PendingRight(cfg, f, c.vht[q], q) {
      if q == pc && Offer(cfg, st, pc).0 {
        OfferLearned(cfg, trace, f, st, pc);
        assert Context(cfg, c.vht[q]) == Context(cfg, st.vht[q]);
      } else {
        assert PendingRight(cfg, f, st.vht[q], q);
      }
    }
  }

  lemma {:induction false} UpdateKeepsLearned(
    cfg: Config, trace: seq<Load>, f: nat -> Word, st: State, l: Load)
    requires cfg.Valid() && Wf(cfg, st) && Learned(cfg, trace, f, st)
    requires l.pc in st.vht <==> Loaded(trace, l.pc) != []
    requires l.pc in st.vht ==> Tracks(cfg, st.vht[l.pc], Loaded(trace, l.pc))
    requires Trains(trace, l.pc) ==> StrideOf(trace, l) == f(NextSlot(cfg, trace, l.pc))
    ensures Learned(cfg, trace + [l], f, AfterUpdate(cfg, st, l.pc, l.val))
  {
    UpdateLearns(cfg, trace, f, st, l);
    CheckedRight(cfg, trace, f, st, l);
    var u := AfterUpdate(cfg, st, l.pc, l.val);
    forall q | q in u.vht ensures PendingRight(cfg, f, u.vht[q], q) {
      if q != l.pc { assert PendingRight(cfg, f, st.vht[q], q); }
    }
  }

  lemma {:induction false} AnyRunLearns(cfg: Config, ops: seq<Op>, f: nat -> Word)
    requires cfg.Valid() && cfg.contextDepth <= TWO31 && Consistent(cfg, Updates(ops), f)
    ensures Learned(cfg, Updates(ops), f, Run(cfg, ops))
  {
    hide Learned, NextSlot, Tracks, Values;
    if ops == [] {
      LearnedInitially(cfg, f);
    } else {
      var before, last := ops[..|ops| - 1], ops[|ops| - 1];
      var st := Run(cfg, before);
      if last.Predict? {
        assert Updates(ops) == Updates(before);
        AnyRunLearns(cfg, before, f);
        PredictKeepsLearned(cfg, Updates(before), f, st, last.pc);
      } else {
        var l := Load(last.pc, last.val);
        assert Updates(ops)[..|Updates(before)|] == Updates(before);
        AnyRunLearns(cfg, before, f);
        UpdatesAreValues(before, l.pc);
        RingIsHistory(cfg, before, l.pc);
        UpdateKeepsLearned(cfg, Updates(before), f, st, l);
      }
    }
  }

  /** Whenever predictions are asked for, in whatever order with the updates: while every update's stride
      is a function of the slot it trains, no prediction is wrong. */
  lemma {:induction false} AnyRunNeverWrong(cfg: Config, ops: seq<Op>, f: nat -> Word)
    requires cfg.Valid() && cfg.contextDepth <= TWO31 && Consistent(cfg, Updates(ops), f)
    ensures Run(cfg, ops).stats.incorrect == 0
  {
    AnyRunLearns(cfg, ops, f);
  }

  // ------------------------------------------------- one load alone

  ghost predicate Single(trace: seq<Load>, pc: Addr) {
    forall i | 0 <= i < |trace| :: trace[i].pc == pc
  }

  lemma {:induction false} SingleLoaded(trace: seq<Load>, pc: Addr)
    requires Single(trace, pc)
    ensures |Loaded(trace, pc)| == |trace|
    ensures forall i | 0 <= i < |trace| :: Loaded(trace, pc)[i] == trace[i].val
  {
    if trace == [] {
    } else {
      SingleLoaded(trace[..|trace| - 1], pc);
    }
  }

  // ------------------------------------------------- constant strides

  /** `n` loads at `pc` whose values advance by `stride` from `start`, modulo 2^64. */
  ghost function Progression(pc: Addr, start: Word, stride: Word, n: nat): (trace: seq<Load>)
    ensures |trace| == n && Single(trace, pc)
  {
    if n == 0 then []
    else
      var before := Progression(pc, start, stride, n - 1);
      before + [Load(pc, if n == 1 then start else WrapAdd(before[n - 2].val, stride))]
  }

  lemma {:induction false} ProgressionValues(pc: Addr, start: Word, stride: Word, n: nat)
    ensures var vals := Loaded(Progression(pc, start, stride, n), pc);
            && |vals| == n
            && forall i | 1 <= i < n :: WrapSub(vals[i], vals[i - 1]) == stride
  {
    if n == 0 {
    } else {
      var trace, before := Progression(pc, start, stride, n), Progression(pc, start, stride, n - 1);
      ProgressionValues(pc, start, stride, n - 1);
      assert trace[..n - 1] == before;
      SingleLoaded(before, pc);
      if n > 1 {
        WrapAddSub(before[n - 2].val, trace[n - 1].val, stride);
      }
    }
  }

  lemma {:induction false} ProgressionStride(pc: Addr, start: Word, stride: Word, n: nat)
    requires n >= 2
    ensures var before := Progression(pc, start, stride, n);
            var next := Progression(pc, start, stride, n + 1);
            Trains(before, pc) && StrideOf(before, next[n]) == stride
  {
    ProgressionValues(pc, start, stride, n);
    var before := Progression(pc, start, stride, n);
    SingleLoaded(before, pc);
    WrapAddSub(before[n - 1].val, WrapAdd(before[n - 1].val, stride), stride);
  }

  lemma {:induction false} ProgressionConsistent(
    cfg: Config, pc: Addr, start: Word, stride: Word, n: nat, f: nat -> Word)
    requires cfg.Valid() && forall s: nat :: f(s) == stride
    ensures Consistent(cfg, Progression(pc, start, stride, n), f)
  {
    if n == 0 {
    } else {
      var trace, before := Progression(pc, start, stride, n), Progression(pc, start, stride, n - 1);
      ProgressionConsistent(cfg, pc, start, stride, n - 1, f);
      assert trace[..n - 1] == before;
      if n >= 3 {
        ProgressionStride(pc, start, stride, n - 1);
      } else {
        ProgressionValues(pc, start, stride, n - 1);
      }
    }
  }

  ghost function SteadySlot(cfg: Config, pc: Addr, stride: Word): (s: nat)
    requires cfg.Valid()
    ensures s < cfg.tableSize
  {
    HashOf(cfg, pc, seq(cfg.contextDepth, _ => stride))
  }

  lemma {:induction false} ProgressionSteady(cfg: Config, pc: Addr, start: Word, stride: Word, n: nat)
    requires cfg.Valid() && n > cfg.contextDepth
    ensures NextSlot(cfg, Progression(pc, start, stride, n), pc) == SteadySlot(cfg, pc, stride)
  {
    ProgressionValues(pc, start, stride, n);
    var vals := Loaded(Progression(pc, start, stride, n), pc);
    var ctx := Recent(cfg.contextDepth, vals);
    forall i | 0 <= i < cfg.contextDepth ensures ctx[i] == stride {
      assert ctx[i] == WrapSub(vals[n - 1 - i], vals[n - 1 - i - 1]);
    }
    assert ctx == seq(cfg.contextDepth, _ => stride);
  }

  lemma {:induction false} VisitsSnoc(cfg: Config, before: seq<Load>, last: Load, s: nat)
    requires cfg.Valid()
    ensures Visits(cfg, before + [last], s)
         == Visits(cfg, before, s)
            + if Trains(before, last.pc) && NextSlot(cfg, before, last.pc) == s then 1 else 0
  {
    assert (before + [last])[..|before|] == before;
  }

  lemma {:induction false} ProgressionVisits(cfg: Config, pc: Addr, start: Word, stride: Word, n: nat)
    requires cfg.Valid()
    ensures Visits(cfg, Progression(pc, start, stride, n), SteadySlot(cfg, pc, stride))
         >= n - (cfg.contextDepth + 1)
  {
    hide Visits, NextSlot, SteadySlot, Loaded;
    if n == 0 {
    } else {
      var trace, before := Progression(pc, start, stride, n), Progression(pc, start, stride, n - 1);
      ProgressionVisits(cfg, pc, start, stride, n - 1);
      VisitsSnoc(cfg, before, trace[n - 1], SteadySlot(cfg, pc, stride));
      if n - 1 > cfg.contextDepth {
        ProgressionSteady(cfg, pc, start, stride, n - 1);
        ProgressionValues(pc, start, stride, n - 1);
      }
    }
  }

  /** Loads needed before the first prediction of a constant stride. */
  ghost function Warmup(cfg: Config): nat {
    cfg.contextDepth + if cfg.confThreshold == 0 then 1 else cfg.confThreshold
  }

  lemma {:induction false} ProgressionCovers(cfg: Config, pc: Addr, start: Word, stride: Word, n: nat)
    requires cfg.Valid() && cfg.maxConf < 256 && cfg.confThreshold <= Ceiling(cfg) && n > Warmup(cfg)
    ensures Covered(cfg, Progression(pc, start, stride, n), pc)
  {
    hide Visits, NextSlot, SteadySlot, Loaded, ConfAfter, Progression;
    ProgressionValues(pc, start, stride, n);
    ProgressionSteady(cfg, pc, start, stride, n);
    ProgressionVisits(cfg, pc, start, stride, n);
    ConfAfterSaturates(cfg, Visits(cfg, Progression(pc, start, stride, n), SteadySlot(cfg, pc, stride)));
  }

  lemma {:induction false} ProgressionCovered(cfg: Config, pc: Addr, start: Word, stride: Word, n: nat)
    requires cfg.Valid() && cfg.maxConf < 256 && cfg.confThreshold <= Ceiling(cfg)
    ensures CoveredCount(cfg, Progression(pc, start, stride, n)) >= n - Warmup(cfg)
  {
    hide Covered, Warmup;
    if n == 0 {
    } else {
      var trace, before := Progression(pc, start, stride, n), Progression(pc, start, stride, n - 1);
      ProgressionCovered(cfg, pc, start, stride, n - 1);
      assert trace[..n - 1] == before;
      if n > Warmup(cfg) { ProgressionCovers(cfg, pc, start, stride, n); }
    }
  }

  /** A load that advances by a constant stride is never mispredicted, and from the end of the
      warm-up (depth plus threshold) every one of its executions is predicted. */
  lemma {:induction false} ConstantStrideLearned(cfg: Config, pc: Addr, start: Word, stride: Word, n: nat)
    requires cfg.Valid() && cfg.contextDepth <= TWO31
    requires cfg.maxConf < 256 && cfg.confThreshold <= Ceiling(cfg)
    ensures var s := RunCommits(cfg, Progression(pc, start, stride, n)).stats;
            s.incorrect == 0 && s.predicted >= n - Warmup(cfg)
  {
    var f := (_: nat) => stride;
    ProgressionConsistent(cfg, pc, start, stride, n, f);
    ConsistentNeverWrong(cfg, Progression(pc, start, stride, n), f);
    ProgressionCovered(cfg, pc, start, stride, n);
  }

  /** The highest confidence any run reaches: the ceiling, or the top of the byte when that is lower. */
  ghost function Reachable(cfg: Config): nat {
    if cfg.maxConf >= 256 then 255 else Ceiling(cfg)
  }

  /** For every configuration, no run ever predicts if and only if the threshold lies above what the
      counter can reach. */
  lemma {:induction false} SilentIffUnreachable(cfg: Config)
    requires cfg.Valid()
    ensures (forall ops :: Run(cfg, ops).stats.predicted == 0) <==> cfg.confThreshold > Reachable(cfg)
  {
    if cfg.confThreshold > Reachable(cfg) {
      forall ops ensures Run(cfg, ops).stats.predicted == 0 {
        SilentAbove(cfg, ops);
      }
    } else {
      var n := if cfg.confThreshold == 0 then 1 else cfg.confThreshold;
      PredictsAfterZeros(cfg, n);
      assert Run(cfg, Zeros(n + 2) + [Predict(0)]).stats.predicted != 0;
    }
  }

  lemma {:induction false} PredictsAfterZeros(cfg: Config, n: nat)
    requires cfg.Valid() && n >= 1 && cfg.confThreshold <= n <= Reachable(cfg)
    ensures Run(cfg, Zeros(n + 2) + [Predict(0)]).stats.predicted > 0
  {
    var st := Run(cfg, Zeros(n + 2));
    ZerosClimb(cfg, n + 2);
    ConfAfterBelow(cfg, n);
    RunSnoc(cfg, Zeros(n + 2), Predict(0));
    assert Offer(cfg, st, 0).0;
  }

  lemma {:induction false} ConfAfterBelow(cfg: Config, n: nat)
    requires n <= Reachable(cfg)
    ensures ConfAfter(cfg, n) == n
  {
    if n > 1 { ConfAfterBelow(cfg, n - 1); }
  }

  lemma {:induction false} SilentAbove(cfg: Config, ops: seq<Op>)
    requires cfg.Valid() && cfg.confThreshold > Reachable(cfg)
    ensures Run(cfg, ops).stats.predicted == 0
  {
    if ops == [] {
    } else {
      SilentAbove(cfg, ops[..|ops| - 1]);
      if cfg.maxConf < 256 { SaturatingInRange(cfg, ops[..|ops| - 1]); }
    }
  }
}
