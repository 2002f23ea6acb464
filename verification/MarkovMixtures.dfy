/** Several loads over one shared table: what holds for every program, for loads whose predictions no
    other load disturbs, and for a load with slots of its own. */
module MarkovMixtures {
  import opened Bits
  import opened MarkovLvp
  import opened MarkovHistory
  import opened MarkovLearning

  // ------------------------------------------------- disturbance

  /** No other load has trained the slot of `pc` since `pc` was last committed. */
  ghost predicate Fresh(cfg: Config, trace: seq<Load>, pc: Addr)
    requires cfg.Valid()
  {
    trace == []
    || var before, last := trace[..|trace| - 1], trace[|trace| - 1];
       || last.pc == pc
       || (Fresh(cfg, before, pc)
           && !(Trains(before, pc) && Trains(before, last.pc)
                && NextSlot(cfg, before, last.pc) == NextSlot(cfg, before, pc)))
  }

  /** Every load finds its prediction as it left it. */
  ghost predicate Undisturbed(cfg: Config, trace: seq<Load>)
    requires cfg.Valid()
  {
    trace != [] ==>
      var before, last := trace[..|trace| - 1], trace[|trace| - 1];
      Undisturbed(cfg, before) && Fresh(cfg, before, last.pc)
  }

  /** Number of commits whose prediction another load has disturbed. */
  ghost function Disturbed(cfg: Config, trace: seq<Load>): nat
    requires cfg.Valid()
  {
    if trace == [] then 0
    else
      var before, last := trace[..|trace| - 1], trace[|trace| - 1];
      Disturbed(cfg, before) + if Fresh(cfg, before, last.pc) then 0 else 1
  }

  lemma {:induction false} NoneDisturbed(cfg: Config, trace: seq<Load>)
    requires cfg.Valid()
    ensures Undisturbed(cfg, trace) <==> Disturbed(cfg, trace) == 0
  {
    hide Fresh;
    if trace == [] {
    } else {
      NoneDisturbed(cfg, trace[..|trace| - 1]);
    }
  }

  lemma {:induction false} SingleUndisturbed(cfg: Config, trace: seq<Load>, pc: Addr)
    requires cfg.Valid() && Single(trace, pc)
    ensures Undisturbed(cfg, trace)
  {
    if trace == [] {
    } else {
      var before := trace[..|trace| - 1];
      SingleUndisturbed(cfg, before, pc);
      if before != [] { assert before[|before| - 1].pc == pc; }
    }
  }

  /** What a commit of another load leaves alone. */
  lemma {:induction false} OtherCommit(cfg: Config, before: seq<Load>, l: Load, pc: Addr)
    requires cfg.Valid() && cfg.contextDepth <= TWO31 && l.pc != pc
    ensures var st := RunCommits(cfg, before);
            var c := Commit(cfg, st, l);
            && (pc in c.vht <==> pc in st.vht)
            && (pc in st.vht ==> c.vht[pc] == st.vht[pc])
            && (forall s: nat | s < cfg.tableSize && !(Trains(before, l.pc) && s == NextSlot(cfg, before, l.pc)) ::
                  c.table[s] == st.table[s])
  {
    CommitsTrack(cfg, before, l.pc);
  }

  /** While a load is undisturbed, its pending prediction is what the table still offers. */
  lemma {:induction false} PendingIsOffer(cfg: Config, trace: seq<Load>, pc: Addr)
    requires cfg.Valid() && cfg.contextDepth <= TWO31 && Fresh(cfg, trace, pc)
    ensures var st := RunCommits(cfg, trace);
            pc in st.vht ==>
              && st.vht[pc].hasPending == Offer(cfg, st, pc).0
              && (st.vht[pc].hasPending ==> st.vht[pc].pendingPred == Offer(cfg, st, pc).1)
  {
    if trace == [] {
    } else {
      var before, last := trace[..|trace| - 1], trace[|trace| - 1];
      if last.pc == pc {
        CommitPending(cfg, RunCommits(cfg, before), last);
      } else {
        PendingIsOffer(cfg, before, pc);
        OtherCommit(cfg, before, last, pc);
        CommitsTrack(cfg, before, pc);
        OfferDependsOn(cfg, RunCommits(cfg, before), RunCommits(cfg, trace), pc);
      }
    }
  }

  lemma {:induction false} OfferDependsOn(cfg: Config, st: State, st': State, pc: Addr)
    requires cfg.Valid() && Wf(cfg, st) && Wf(cfg, st')
    requires pc in st.vht <==> pc in st'.vht
    requires pc in st.vht ==> st'.vht[pc] == st.vht[pc]
    requires pc in st.vht && st.vht[pc].strideValid ==>
               var s := HashOf(cfg, pc, Context(cfg, st.vht[pc])); st'.table[s] == st.table[s]
    ensures Offer(cfg, st, pc) == Offer(cfg, st', pc)
  {}

  // ------------------------------------------------- no mistake: exactly when

  /** The predictor predicts whenever a slot has been seen before: threshold 0, or threshold 1 with a
      counter that does not wrap. */
  ghost predicate PredictsRepeats(cfg: Config) {
    cfg.confThreshold == 0 || (cfg.confThreshold == 1 && cfg.maxConf < 256)
  }

  lemma {:induction false} ConsistentAgree(cfg: Config, trace: seq<Load>, f: nat -> Word, g: nat -> Word)
    requires cfg.Valid() && Consistent(cfg, trace, f)
    requires forall s: nat | Visits(cfg, trace, s) > 0 :: f(s) == g(s)
    ensures Consistent(cfg, trace, g)
  {
    if trace == [] {
    } else {
      var before, last := trace[..|trace| - 1], trace[|trace| - 1];
      forall s: nat | Visits(cfg, before, s) > 0 ensures f(s) == g(s) {
        assert Visits(cfg, trace, s) > 0;
      }
      ConsistentAgree(cfg, before, f, g);
      if Trains(before, last.pc) {
        assert Visits(cfg, trace, NextSlot(cfg, before, last.pc)) > 0;
      }
    }
  }

  lemma {:induction false} UpdateOnlyAddsWrong(cfg: Config, st: State, l: Load)
    requires cfg.Valid() && Wf(cfg, st)
    ensures Commit(cfg, st, l).stats.incorrect >= st.stats.incorrect
    ensures l.pc in st.vht && st.vht[l.pc].hasPending && st.vht[l.pc].pendingPred != l.val ==>
              Commit(cfg, st, l).stats.incorrect > st.stats.incorrect
  {}

  /** With the threshold at most one, a repeat visit to a slot has a prediction pending, so an
      unblemished record forces the stride the slot has seen before. */
  lemma {:induction false} UnblemishedStride(cfg: Config, before: seq<Load>, f: nat -> Word, l: Load)
    requires cfg.Valid() && cfg.contextDepth <= TWO31
    requires PredictsRepeats(cfg) && Fresh(cfg, before, l.pc) && Trains(before, l.pc)
    requires Consistent(cfg, before, f) && Visits(cfg, before, NextSlot(cfg, before, l.pc)) > 0
    requires Commit(cfg, RunCommits(cfg, before), l).stats.incorrect == 0
    ensures StrideOf(before, l) == f(NextSlot(cfg, before, l.pc))
  {
    hide RunCommits, Fresh, Consistent, Visits, Offer, Commit, TableLearned, ConfAfter, Loaded, Recent, HashOf, Context;
    var st, s := RunCommits(cfg, before), NextSlot(cfg, before, l.pc);
    if cfg.confThreshold == 1 { ConfAfterSaturates(cfg, Visits(cfg, before, s)); }
    OfferIsCovered(cfg, before, f, l.pc);
    PendingIsOffer(cfg, before, l.pc);
    LearnsConsistent(cfg, before, f);
    CommitsTrack(cfg, before, l.pc);
    UpdateOnlyAddsWrong(cfg, st, l);
    assert PendingRight(cfg, f, st.vht[l.pc], l.pc);
    WrapAddSub(st.vht[l.pc].lastVal, l.val, f(s));
  }

  lemma {:induction false} ExtendConsistent(cfg: Config, before: seq<Load>, l: Load, g: nat -> Word)
    returns (f: nat -> Word)
    requires cfg.Valid() && Consistent(cfg, before, g)
    requires Trains(before, l.pc) && Visits(cfg, before, NextSlot(cfg, before, l.pc)) == 0
    ensures Consistent(cfg, before, f)
    ensures f(NextSlot(cfg, before, l.pc)) == StrideOf(before, l)
  {
    var s, stride := NextSlot(cfg, before, l.pc), StrideOf(before, l);
    f := (k: nat) => if k == s then stride else g(k);
    ConsistentAgree(cfg, before, g, f);
  }

  lemma {:induction false} UnblemishedOneMore(cfg: Config, before: seq<Load>, g: nat -> Word, l: Load)
    returns (f: nat -> Word)
    requires cfg.Valid() && cfg.contextDepth <= TWO31
    requires PredictsRepeats(cfg) && Fresh(cfg, before, l.pc) && Consistent(cfg, before, g)
    requires Commit(cfg, RunCommits(cfg, before), l).stats.incorrect == 0
    ensures Consistent(cfg, before, f)
    ensures Trains(before, l.pc) ==> StrideOf(before, l) == f(NextSlot(cfg, before, l.pc))
  {
    f := g;
    if Trains(before, l.pc) {
      if Visits(cfg, before, NextSlot(cfg, before, l.pc)) > 0 {
        UnblemishedStride(cfg, before, g, l);
      } else {
        f := ExtendConsistent(cfg, before, l, g);
      }
    }
  }

  lemma {:induction false} UnblemishedIsConsistent(cfg: Config, trace: seq<Load>)
    returns (f: nat -> Word)
    requires cfg.Valid() && cfg.contextDepth <= TWO31
    requires PredictsRepeats(cfg) && Undisturbed(cfg, trace) && RunCommits(cfg, trace).stats.incorrect == 0
    ensures Consistent(cfg, trace, f)
  {
    hide Commit, Fresh, NextSlot, Visits;
    if trace == [] {
      f := (s: nat) => 0;
    } else {
      var before, last := trace[..|trace| - 1], trace[|trace| - 1];
      UpdateOnlyAddsWrong(cfg, RunCommits(cfg, before), last);
      var g := UnblemishedIsConsistent(cfg, before);
      assert before + [last] == trace;
      f := UnblemishedOneMore(cfg, before, g, last);
    }
  }

  ghost predicate SlotDetermined(cfg: Config, trace: seq<Load>)
    requires cfg.Valid()
  {
    exists f: nat -> Word :: Consistent(cfg, trace, f)
  }

  /** On any mixture of loads in which none is disturbed, a predictor that predicts at every repeat makes
      no mistake exactly when each slot is always followed by the same stride. */
  lemma {:induction false} PerfectIffDetermined(cfg: Config, trace: seq<Load>)
    requires cfg.Valid() && cfg.contextDepth <= TWO31
    requires PredictsRepeats(cfg) && Undisturbed(cfg, trace)
    ensures RunCommits(cfg, trace).stats.incorrect == 0 <==> SlotDetermined(cfg, trace)
  {
    if RunCommits(cfg, trace).stats.incorrect == 0 {
      var f := UnblemishedIsConsistent(cfg, trace);
    } else if SlotDetermined(cfg, trace) {
      var f: nat -> Word :| Consistent(cfg, trace, f);
      ConsistentNeverWrong(cfg, trace, f);
    }
  }

  // ------------------------------------------------- at most every second load is mispredicted

  ghost function Weight(m: MarkovEntry): nat {
    if m.valid && m.confidence >= 1 then m.confidence - 1 else 0
  }

  /** Confidence stored in the table beyond the first unit of each entry. */
  ghost function Stored(table: seq<MarkovEntry>): nat {
    if table == [] then 0 else Stored(table[..|table| - 1]) + Weight(table[|table| - 1])
  }

  lemma {:induction false} StoredUpdate(table: seq<MarkovEntry>, s: nat, m: MarkovEntry)
    requires s < |table|
    ensures Stored(table[s := m]) == Stored(table) - Weight(table[s]) + Weight(m)
  {
    var n := |table| - 1;
    if s == n {
      assert table[s := m][..n] == table[..n];
    } else {
      StoredUpdate(table[..n], s, m);
      assert table[s := m][..n] == table[..n][s := m];
    }
  }

  lemma {:induction false} StoredEmpty(n: nat)
    ensures Stored(seq(n, _ => EMPTY_SLOT)) == 0
  {
    if n == 0 {
    } else {
      StoredEmpty(n - 1);
      assert seq(n, _ => EMPTY_SLOT)[..n - 1] == seq(n - 1, _ => EMPTY_SLOT);
    }
  }

  /** One training raises the stored confidence by at most one; a wrong stride met by a prediction
      issued at threshold two or more spends a unit that was stored. */
  lemma {:induction false} TrainWeight(cfg: Config, m: MarkovEntry, stride: Word)
    requires m.confidence < 256
    ensures Weight(Train(cfg, m, stride)) <= Weight(m) + 1
    ensures m.valid && m.confidence >= 2 && stride != m.predictedStride ==>
              Weight(Train(cfg, m, stride)) == Weight(m) - 1
  {}

  lemma {:induction false} CommitSpends(cfg: Config, st: State, l: Load)
    requires cfg.Valid() && Wf(cfg, st) && cfg.confThreshold >= 2
    requires l.pc in st.vht && st.vht[l.pc].hasPending ==>
               Offer(cfg, st, l.pc) == (true, st.vht[l.pc].pendingPred)
    ensures var c := Commit(cfg, st, l);
            2 * c.stats.incorrect + Stored(c.table) <= 2 * st.stats.incorrect + Stored(st.table) + 1
  {
    if l.pc in st.vht && st.vht[l.pc].strideValid {
      var e := st.vht[l.pc];
      var s, stride := HashOf(cfg, l.pc, Context(cfg, e)), WrapSub(l.val, e.lastVal);
      var m := st.table[s];
      TrainWeight(cfg, m, stride);
      StoredUpdate(st.table, s, Train(cfg, m, stride));
      WrapAddSub(e.lastVal, l.val, m.predictedStride);
    }
  }

  /** Without any condition a commit adds at most one mistake and one stored unit. */
  lemma {:induction false} CommitGrows(cfg: Config, st: State, l: Load)
    requires cfg.Valid() && Wf(cfg, st)
    ensures var c := Commit(cfg, st, l);
            2 * c.stats.incorrect + Stored(c.table) <= 2 * st.stats.incorrect + Stored(st.table) + 3
  {
    if l.pc in st.vht && st.vht[l.pc].strideValid {
      var e := st.vht[l.pc];
      var s, stride := HashOf(cfg, l.pc, Context(cfg, e)), WrapSub(l.val, e.lastVal);
      TrainWeight(cfg, st.table[s], stride);
      StoredUpdate(st.table, s, Train(cfg, st.table[s], stride));
    }
  }

  /** For every trace: each mistake has spent a stored unit or was made on a disturbed prediction. */
  lemma {:induction false} WrongPlusStored(cfg: Config, trace: seq<Load>)
    requires cfg.Valid() && cfg.contextDepth <= TWO31 && cfg.confThreshold >= 2
    ensures var st := RunCommits(cfg, trace);
            2 * st.stats.incorrect + Stored(st.table) <= |trace| + 2 * Disturbed(cfg, trace)
  {
    hide Fresh, Stored, Offer;
    if trace == [] {
      StoredEmpty(cfg.tableSize);
    } else {
      var before, last := trace[..|trace| - 1], trace[|trace| - 1];
      WrongPlusStored(cfg, before);
      CommitGrows(cfg, RunCommits(cfg, before), last);
      if Fresh(cfg, before, last.pc) {
        PendingIsOffer(cfg, before, last.pc);
        CommitSpends(cfg, RunCommits(cfg, before), last);
      }
    }
  }

  /** Whatever loads return, a threshold of two or more bounds the mispredictions by half the commits,
      plus one for every commit whose prediction another load has disturbed. */
  lemma {:induction false} AtMostHalfWrong(cfg: Config, trace: seq<Load>)
    requires cfg.Valid() && cfg.contextDepth <= TWO31 && cfg.confThreshold >= 2
    ensures 2 * RunCommits(cfg, trace).stats.incorrect <= |trace| + 2 * Disturbed(cfg, trace)
    ensures Undisturbed(cfg, trace) ==> 2 * RunCommits(cfg, trace).stats.incorrect <= |trace|
  {
    WrongPlusStored(cfg, trace);
    NoneDisturbed(cfg, trace);
  }
}
