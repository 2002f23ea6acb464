/** A load with slots of its own behaves inside any program as it does alone. */
module MarkovIsolation {
  import opened Bits
  import opened MarkovLvp
  import opened MarkovHistory
  import opened MarkovLearning
  import opened MarkovMixtures

  // ------------------------------------------------- one load of a program

  /** The commits of one load. */
  ghost function Only(trace: seq<Load>, pc: Addr): seq<Load> {
    if trace == [] then []
    else
      var last := trace[|trace| - 1];
      Only(trace[..|trace| - 1], pc) + if last.pc == pc then [last] else []
  }

  /** Mispredictions counted at commits of `pc`. */
  ghost function WrongAt(cfg: Config, trace: seq<Load>, pc: Addr): int
    requires cfg.Valid()
  {
    if trace == [] then 0
    else
      var before, last := trace[..|trace| - 1], trace[|trace| - 1];
      WrongAt(cfg, before, pc)
      + if last.pc == pc then RunCommits(cfg, trace).stats.incorrect - RunCommits(cfg, before).stats.incorrect else 0
  }

  /** Predictions issued at commits of `pc`. */
  ghost function IssuedAt(cfg: Config, trace: seq<Load>, pc: Addr): int
    requires cfg.Valid()
  {
    if trace == [] then 0
    else
      var before, last := trace[..|trace| - 1], trace[|trace| - 1];
      IssuedAt(cfg, before, pc)
      + if last.pc == pc then RunCommits(cfg, trace).stats.predicted - RunCommits(cfg, before).stats.predicted else 0
  }

  /** The slots in `own` are those of `pc`: every slot it selects is one of them, and no other load
      trains any of them. */
  ghost predicate Owns(cfg: Config, trace: seq<Load>, pc: Addr, own: set<nat>)
    requires cfg.Valid()
  {
    trace != [] ==>
      var before, last := trace[..|trace| - 1], trace[|trace| - 1];
      && Owns(cfg, before, pc, own)
      && (if last.pc == pc then Trains(trace, pc) ==> NextSlot(cfg, trace, pc) in own
          else Trains(before, last.pc) ==> NextSlot(cfg, before, last.pc) !in own)
  }

  lemma {:induction false} OwnsNext(cfg: Config, trace: seq<Load>, pc: Addr, own: set<nat>)
    requires cfg.Valid() && Owns(cfg, trace, pc, own) && Trains(trace, pc)
    ensures NextSlot(cfg, trace, pc) in own
  {
    var before, last := trace[..|trace| - 1], trace[|trace| - 1];
    if last.pc != pc {
      assert Loaded(trace, pc) == Loaded(before, pc);
      OwnsNext(cfg, before, pc, own);
    }
  }

  // ------------------------------------------------- the same steps

  /** Two states that look the same to `pc`. */
  ghost predicate SameFor(cfg: Config, st: State, st': State, pc: Addr, own: set<nat>)
    requires Wf(cfg, st) && Wf(cfg, st')
  {
    && (pc in st.vht <==> pc in st'.vht)
    && (pc in st.vht ==> st.vht[pc] == st'.vht[pc])
    && (forall s: nat | s < cfg.tableSize && s in own :: st.table[s] == st'.table[s])
  }

  lemma {:induction false} SameUpdate(cfg: Config, st: State, st': State, l: Load, own: set<nat>)
    requires cfg.Valid() && Wf(cfg, st) && Wf(cfg, st') && SameFor(cfg, st, st', l.pc, own)
    requires l.pc in st.vht && st.vht[l.pc].strideValid ==> HashOf(cfg, l.pc, Context(cfg, st.vht[l.pc])) in own
    ensures var u, u' := AfterUpdate(cfg, st, l.pc, l.val), AfterUpdate(cfg, st', l.pc, l.val);
            && SameFor(cfg, u, u', l.pc, own) && l.pc in u.vht
            && u.stats.incorrect - st.stats.incorrect == u'.stats.incorrect - st'.stats.incorrect
            && u.stats.predicted == st.stats.predicted && u'.stats.predicted == st'.stats.predicted
  {}

  lemma {:induction false} SamePredict(cfg: Config, st: State, st': State, pc: Addr, own: set<nat>)
    requires cfg.Valid() && Wf(cfg, st) && Wf(cfg, st') && SameFor(cfg, st, st', pc, own)
    requires pc in st.vht && st.vht[pc].strideValid ==> HashOf(cfg, pc, Context(cfg, st.vht[pc])) in own
    ensures var p, p' := AfterPredict(cfg, st, pc), AfterPredict(cfg, st', pc);
            && SameFor(cfg, p, p', pc, own)
            && p.stats.predicted - st.stats.predicted == p'.stats.predicted - st'.stats.predicted
            && p.stats.incorrect == st.stats.incorrect && p'.stats.incorrect == st'.stats.incorrect
  {
    OfferDependsOn(cfg, st, st', pc);
  }

  lemma {:induction false} OwnCommit(cfg: Config, before: seq<Load>, l: Load, own: set<nat>, st': State)
    requires cfg.Valid() && cfg.contextDepth <= TWO31 && Owns(cfg, before + [l], l.pc, own)
    requires Wf(cfg, st') && SameFor(cfg, RunCommits(cfg, before), st', l.pc, own)
    ensures var st := RunCommits(cfg, before);
            var c, c' := Commit(cfg, st, l), Commit(cfg, st', l);
            && SameFor(cfg, c, c', l.pc, own)
            && c.stats.incorrect - st.stats.incorrect == c'.stats.incorrect - st'.stats.incorrect
            && c.stats.predicted - st.stats.predicted == c'.stats.predicted - st'.stats.predicted
  {
    hide SameFor, NextSlot, HashOf, Train, Offer;
    var st, trace := RunCommits(cfg, before), before + [l];
    assert trace[..|before|] == before;
    CommitsTrack(cfg, before, l.pc);
    if Trains(before, l.pc) { OwnsNext(cfg, before, l.pc, own); }
    SlotOf(cfg, before, l.pc);
    SameUpdate(cfg, st, st', l, own);
    UpdatedSlot(cfg, before, l);
    SamePredict(cfg, AfterUpdate(cfg, st, l.pc, l.val), AfterUpdate(cfg, st', l.pc, l.val), l.pc, own);
  }

  lemma {:induction false} SlotOf(cfg: Config, trace: seq<Load>, pc: Addr)
    requires cfg.Valid() && cfg.contextDepth <= TWO31
    ensures var st := RunCommits(cfg, trace);
            pc in st.vht && st.vht[pc].strideValid ==>
              Trains(trace, pc) && HashOf(cfg, pc, Context(cfg, st.vht[pc])) == NextSlot(cfg, trace, pc)
  {
    CommitsTrack(cfg, trace, pc);
  }

  /** Between update and predict the load already selects its next slot. */
  lemma {:induction false} UpdatedSlot(cfg: Config, before: seq<Load>, l: Load)
    requires cfg.Valid() && cfg.contextDepth <= TWO31
    ensures var u, trace := AfterUpdate(cfg, RunCommits(cfg, before), l.pc, l.val), before + [l];
            l.pc in u.vht && u.vht[l.pc].strideValid ==>
              Trains(trace, l.pc) && HashOf(cfg, l.pc, Context(cfg, u.vht[l.pc])) == NextSlot(cfg, trace, l.pc)
  {
    var trace := before + [l];
    var u, c := AfterUpdate(cfg, RunCommits(cfg, before), l.pc, l.val), RunCommits(cfg, trace);
    assert trace[..|before|] == before;
    assert c == Commit(cfg, RunCommits(cfg, before), l);
    if l.pc in u.vht && u.vht[l.pc].strideValid {
      assert c.vht[l.pc].strideValid && Context(cfg, c.vht[l.pc]) == Context(cfg, u.vht[l.pc]);
      SlotOf(cfg, trace, l.pc);
    }
  }

  /** The isolation law: a load that owns its slots goes through the same entries, predictions and
      mistakes inside the program as alone. */
  lemma {:induction false} BehavesAsAlone(cfg: Config, trace: seq<Load>, pc: Addr, own: set<nat>)
    requires cfg.Valid() && cfg.contextDepth <= TWO31 && Owns(cfg, trace, pc, own)
    ensures var alone := RunCommits(cfg, Only(trace, pc));
            && SameFor(cfg, RunCommits(cfg, trace), alone, pc, own)
            && WrongAt(cfg, trace, pc) == alone.stats.incorrect
            && IssuedAt(cfg, trace, pc) == alone.stats.predicted
  {
    hide SameFor, NextSlot, Commit;
    if trace == [] {
      SameInitially(cfg, pc, own);
    } else {
      var before, last := trace[..|trace| - 1], trace[|trace| - 1];
      BehavesAsAlone(cfg, before, pc, own);
      var alone := RunCommits(cfg, Only(before, pc));
      if last.pc == pc {
        assert before + [last] == trace;
        OwnCommit(cfg, before, last, own, alone);
        assert Only(trace, pc)[..|Only(before, pc)|] == Only(before, pc);
        assert RunCommits(cfg, Only(trace, pc)) == Commit(cfg, alone, last);
      } else {
        SameAfterOther(cfg, before, last, pc, own, alone);
        assert Only(trace, pc) == Only(before, pc);
      }
    }
  }

  lemma {:induction false} SameInitially(cfg: Config, pc: Addr, own: set<nat>)
    requires cfg.Valid()
    ensures SameFor(cfg, Initial(cfg), Initial(cfg), pc, own)
  {}

  lemma {:induction false} SameAfterOther(
    cfg: Config, before: seq<Load>, l: Load, pc: Addr, own: set<nat>, st': State)
    requires cfg.Valid() && cfg.contextDepth <= TWO31 && l.pc != pc && Wf(cfg, st')
    requires Trains(before, l.pc) ==> NextSlot(cfg, before, l.pc) !in own
    requires SameFor(cfg, RunCommits(cfg, before), st', pc, own)
    ensures SameFor(cfg, Commit(cfg, RunCommits(cfg, before), l), st', pc, own)
  {
    hide Commit, NextSlot;
    OtherCommit(cfg, before, l, pc);
  }

  // ------------------------------------------------- what follows for a load in a program

  lemma {:induction false} OnlyIsSingle(trace: seq<Load>, pc: Addr)
    ensures Single(Only(trace, pc), pc) && Loaded(Only(trace, pc), pc) == Loaded(trace, pc)
    ensures |Only(trace, pc)| == |Loaded(trace, pc)|
  {
    if trace == [] {
    } else {
      var before, last := trace[..|trace| - 1], trace[|trace| - 1];
      OnlyIsSingle(before, pc);
      if last.pc == pc {
        assert Only(trace, pc)[..|Only(before, pc)|] == Only(before, pc);
      } else {
        assert Only(trace, pc) == Only(before, pc);
      }
    }
  }

  /** A load that owns its slots, in any program and whatever it returns: with a threshold of two or
      more at most half its executions are mispredicted. */
  lemma {:induction false} OwnLoadAtMostHalfWrong(cfg: Config, trace: seq<Load>, pc: Addr, own: set<nat>)
    requires cfg.Valid() && cfg.contextDepth <= TWO31 && Owns(cfg, trace, pc, own) && cfg.confThreshold >= 2
    ensures 2 * WrongAt(cfg, trace, pc) <= |Loaded(trace, pc)|
  {
    BehavesAsAlone(cfg, trace, pc, own);
    OnlyIsSingle(trace, pc);
    SingleUndisturbed(cfg, Only(trace, pc), pc);
    AtMostHalfWrong(cfg, Only(trace, pc));
  }

  /** ... and predicting at every repeat, it is never mispredicted exactly when its own values determine
      the stride behind each slot. */
  lemma {:induction false} OwnLoadPerfectIff(cfg: Config, trace: seq<Load>, pc: Addr, own: set<nat>)
    requires cfg.Valid() && cfg.contextDepth <= TWO31 && Owns(cfg, trace, pc, own) && PredictsRepeats(cfg)
    ensures WrongAt(cfg, trace, pc) == 0 <==> SlotDetermined(cfg, Only(trace, pc))
  {
    BehavesAsAlone(cfg, trace, pc, own);
    OnlyIsSingle(trace, pc);
    SingleUndisturbed(cfg, Only(trace, pc), pc);
    PerfectIffDetermined(cfg, Only(trace, pc));
  }

  /** ... and one that advances by a constant stride is never mispredicted, and predicted at every
      execution from the end of the warm-up on. */
  lemma {:induction false} OwnConstantStrideLearned(
    cfg: Config, trace: seq<Load>, pc: Addr, own: set<nat>, start: Word, stride: Word)
    requires cfg.Valid() && cfg.contextDepth <= TWO31 && Owns(cfg, trace, pc, own)
    requires cfg.maxConf < 256 && cfg.confThreshold <= Ceiling(cfg)
    requires Only(trace, pc) == Progression(pc, start, stride, |Loaded(trace, pc)|)
    ensures WrongAt(cfg, trace, pc) == 0
    ensures IssuedAt(cfg, trace, pc) >= |Loaded(trace, pc)| - Warmup(cfg)
  {
    BehavesAsAlone(cfg, trace, pc, own);
    ConstantStrideLearned(cfg, pc, start, stride, |Loaded(trace, pc)|);
  }
}
