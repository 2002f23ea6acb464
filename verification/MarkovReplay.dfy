/** The predictor's table and its offers, from the plain history of a run; and the stride a slot keeps as
    the majority of those it has seen. */
module MarkovReplay {
  import opened Bits
  import opened MarkovLvp
  import opened MarkovHistory

  // ------------------------------------------------- the table from the history

  /** The slot that the values loaded at `pc` select. */
  ghost function SlotOf(cfg: Config, pc: Addr, vals: seq<Word>): (s: nat)
    requires cfg.Valid()
    ensures s < cfg.tableSize
  {
    HashOf(cfg, pc, Recent(cfg.contextDepth, vals))
  }

  /** The strides a run has shown to slot `s`, oldest first: those of the loads that had a stride before
      and whose recent strides select it. */
  ghost function Strides(cfg: Config, ops: seq<Op>, s: nat): seq<Word>
    requires cfg.Valid()
  {
    if ops == [] then []
    else
      var before, op := ops[..|ops| - 1], ops[|ops| - 1];
      var vals := Values(before, op.pc);
      Strides(cfg, before, s)
      + if op.Update? && |vals| >= 2 && SlotOf(cfg, op.pc, vals) == s
        then [WrapSub(op.val, vals[|vals| - 1])] else []
  }

  /** An empty slot trained with each stride in turn. */
  ghost function Replay(cfg: Config, strides: seq<Word>): (m: MarkovEntry)
    ensures m.confidence < 256 && (m.valid <==> strides != [])
  {
    if strides == [] then EMPTY_SLOT else Train(cfg, Replay(cfg, strides[..|strides| - 1]), strides[|strides| - 1])
  }

  lemma {:induction false} ReplaySnoc(cfg: Config, strides: seq<Word>, stride: Word)
    ensures Replay(cfg, strides + [stride]) == Train(cfg, Replay(cfg, strides), stride)
  {
    assert (strides + [stride])[..|strides|] == strides;
  }

  /** In every run each slot holds exactly the replay of the strides shown to it. */
  lemma {:induction false} TableIsReplay(cfg: Config, ops: seq<Op>, s: nat)
    requires cfg.Valid() && cfg.contextDepth <= TWO31 && s < cfg.tableSize
    ensures Run(cfg, ops).table[s] == Replay(cfg, Strides(cfg, ops, s))
  {
    hide Replay, Train, Context, HashOf, Recent;
    if ops == [] {
      NoReplay(cfg);
    } else {
      var before, op := ops[..|ops| - 1], ops[|ops| - 1];
      TableIsReplay(cfg, before, s);
      RingIsHistory(cfg, before, op.pc);
      var st, vals, shown := Run(cfg, before), Values(before, op.pc), Strides(cfg, before, s);
      assert shown + [] == shown;
      if op.Update? && |vals| >= 2 && SlotOf(cfg, op.pc, vals) == s {
        ReplaySnoc(cfg, shown, WrapSub(op.val, vals[|vals| - 1]));
      }
    }
  }

  lemma {:induction false} NoReplay(cfg: Config)
    ensures Replay(cfg, []) == EMPTY_SLOT
  {}

  /** What a run offers for a load, from its history alone: nothing before its second value, nothing
      while its slot has too little confidence, and otherwise its last value plus the slot's stride. */
  lemma {:induction false} OfferFromHistory(cfg: Config, ops: seq<Op>, pc: Addr)
    requires cfg.Valid() && cfg.contextDepth <= TWO31
    ensures var vals := Values(ops, pc);
            var shown := Strides(cfg, ops, SlotOf(cfg, pc, vals));
            Offer(cfg, Run(cfg, ops), pc)
            == if |vals| < 2 || shown == [] || Replay(cfg, shown).confidence < cfg.confThreshold then (false, 0)
               else (true, (vals[|vals| - 1] + Replay(cfg, shown).predictedStride) % TWO64)
  {
    hide Replay, Train, Context, HashOf, Recent, Run, Strides;
    RingIsHistory(cfg, ops, pc);
    TableIsReplay(cfg, ops, SlotOf(cfg, pc, Values(ops, pc)));
  }

  // ------------------------------------------------- the majority stride

  ghost function Count(strides: seq<Word>, a: Word): (n: nat)
    ensures n <= |strides|
  {
    if strides == [] then 0
    else Count(strides[..|strides| - 1], a) + if strides[|strides| - 1] == a then 1 else 0
  }

  /** How far `a` is ahead of all other strides together. */
  ghost function Lead(strides: seq<Word>, a: Word): int {
    2 * Count(strides, a) - |strides|
  }

  /** A stride that is stored has at least its lead as confidence; one that is not is behind by what the
      stored one has gathered. */
  ghost predicate Weighed(m: MarkovEntry, a: Word, lead: int, seen: nat) {
    && 1 <= m.confidence <= seen
    && (if m.predictedStride == a then lead <= m.confidence else lead <= 1 - m.confidence)
  }

  lemma {:induction false} TrainWeighs(cfg: Config, m: MarkovEntry, a: Word, lead: int, seen: nat, stride: Word)
    requires m.confidence < 256 && m.valid && Weighed(m, a, lead, seen)
    requires seen < cfg.maxConf && seen < 255
    ensures Weighed(Train(cfg, m, stride), a, lead + (if stride == a then 1 else -1), seen + 1)
  {}

  lemma {:induction false} ReplayWeighs(cfg: Config, strides: seq<Word>, a: Word)
    requires strides != [] && |strides| <= cfg.maxConf && |strides| < 256
    ensures Weighed(Replay(cfg, strides), a, Lead(strides, a), |strides|)
  {
    hide Train;
    var before, last := strides[..|strides| - 1], strides[|strides| - 1];
    if before == [] {
      FirstTraining(cfg, last);
      NoReplay(cfg);
      assert Count(before, a) == 0;
    } else {
      ReplayWeighs(cfg, before, a);
      TrainWeighs(cfg, Replay(cfg, before), a, Lead(before, a), |before|, last);
    }
  }

  lemma {:induction false} FirstTraining(cfg: Config, stride: Word)
    ensures Train(cfg, EMPTY_SLOT, stride) == MarkovEntry(stride, 1, true)
  {}

  /** While the ceiling leaves room, a stride seen more often than all others together is the one the
      slot predicts, in whatever order they came, with at least its lead as confidence. */
  lemma {:induction false} MajorityIsStored(cfg: Config, strides: seq<Word>, a: Word)
    requires |strides| <= cfg.maxConf && |strides| < 256
    requires 2 * Count(strides, a) > |strides|
    ensures Replay(cfg, strides).predictedStride == a
    ensures Replay(cfg, strides).confidence >= 2 * Count(strides, a) - |strides|
  {
    hide Replay;
    ReplayWeighs(cfg, strides, a);
  }

  /** Once the ceiling is reached a majority can be lost: with a ceiling of one, the last of three. */
  lemma {:induction false} CeilingForgets(cfg: Config, a: Word, b: Word)
    requires cfg.maxConf == 1 && a != b
    ensures 2 * Count([a, a, b], a) > 3 && Replay(cfg, [a, a, b]).predictedStride == b
  {
    ReplaySnoc(cfg, [], a);
    ReplaySnoc(cfg, [a], a);
    ReplaySnoc(cfg, [a, a], b);
    assert [] + [a] == [a] && [a] + [a] == [a, a] && [a, a] + [b] == [a, a, b];
    var all := [a, a, b];
    assert all[..2] == [a, a] && [a, a][..1] == [a] && [a][..0] == [];
    assert Count([a], a) == 1 && Count([a, a], a) == 2;
  }
}
