/** The Markov load value predictor: a per-load history ring of strides selects an entry of a
    shared table that remembers which stride came next, guarded by a saturating counter. */
module MarkovLvp {
  import opened Bits

  type Addr = Word

  /** The parameters, and the function that hashes a load address and its recent strides. The
      predictor object uses `SourceHash`; what is proved of the transitions holds for any hash. */
  datatype Config = Config(
    tableSize: nat, contextDepth: nat, confThreshold: nat, maxConf: nat,
    hash: (Addr, seq<Word>) -> Word)
  {
    /** What the constructor asserts, plus the 32-bit width of the parameters. */
    ghost predicate Valid() {
      && IsPow2(tableSize)
      && contextDepth >= 1
      && tableSize < TWO32 && contextDepth < TWO32 && confThreshold < TWO32 && maxConf < TWO32
    }
  }

  datatype VhtEntry = VhtEntry(
    strides: seq<Word>, lastVal: Word, writePtr: nat,
    valid: bool, strideValid: bool, hasPending: bool, pendingPred: Word)

  datatype MarkovEntry = MarkovEntry(predictedStride: Word, confidence: nat, valid: bool)

  datatype Stats = Stats(
    totalLoads: nat, predicted: nat, correct: nat, incorrect: nat,
    noHistory: nat, noStride: nat, lowConfidence: nat, pendingChecked: nat)

  datatype State = State(vht: map<Addr, VhtEntry>, table: seq<MarkovEntry>, stats: Stats)

  const NEW_ENTRY := VhtEntry([], 0, 0, false, false, false, 0)
  const EMPTY_SLOT := MarkovEntry(0, 0, false)
  const NO_STATS := Stats(0, 0, 0, 0, 0, 0, 0, 0)

  function Initial(cfg: Config): (st: State)
    ensures Wf(cfg, st)
  {
    State(map[], seq(cfg.tableSize, _ => EMPTY_SLOT), NO_STATS)
  }

  ghost predicate EntryWf(cfg: Config, e: VhtEntry) {
    e.valid && |e.strides| == cfg.contextDepth && e.writePtr < cfg.contextDepth
  }

  ghost predicate Wf(cfg: Config, st: State) {
    && |st.table| == cfg.tableSize
    && (forall s | 0 <= s < |st.table| :: st.table[s].confidence < 256)
    && (forall pc | pc in st.vht :: EntryWf(cfg, st.vht[pc]))
  }

  // ---------------------------------------------------------------- context hash

  /** Ring position of the i-th most recent stride, in 32-bit unsigned arithmetic. */
  function RingIndex(depth: nat, writePtr: nat, i: nat): (k: nat)
    requires writePtr < depth && i < depth
    ensures k < depth
  {
    ((writePtr + depth - 1 - i) % TWO32) % depth
  }

  /** The strides of a history ring, most recent first. */
  function Context(cfg: Config, e: VhtEntry): (ctx: seq<Word>)
    requires |e.strides| == cfg.contextDepth && e.writePtr < cfg.contextDepth
  {
    seq(cfg.contextDepth, i requires 0 <= i < cfg.contextDepth =>
      e.strides[RingIndex(cfg.contextDepth, e.writePtr, i)])
  }

  function WrapAdd(a: Word, b: Word): Word { (a + b) % TWO64 }

  function WrapSub(a: Word, b: Word): Word { (a - b) % TWO64 }

  function Xor64(a: Word, b: Word): Word {
    Pow2Of64();
    XorBound(a, b, 64);
    Xor(a, b)
  }

  /** Rotate left by five, as `(h << 5) | (h >> 59)` does on 64-bit words. */
  function Rotate5(h: Word): Word {
    (h * 32) % TWO64 + h / 0x800_0000_0000_0000
  }

  function Seed(pc: Addr): Word {
    Xor64(pc, pc / TWO32)
  }

  function Mix(h: Word, stride: Word): Word {
    Rotate5(Xor64(h, (stride * 2654435761) % TWO64))
  }

  function MixAll(h: Word, ctx: seq<Word>): Word
    decreases |ctx|
  {
    if ctx == [] then h else MixAll(Mix(h, ctx[0]), ctx[1..])
  }

  function SourceHash(pc: Addr, ctx: seq<Word>): Word {
    MixAll(Seed(pc), ctx)
  }

  /** Table slot of a hash value: its low 32 bits under the index mask. */
  function Slot(cfg: Config, h: Word): (s: nat)
    requires cfg.Valid()
    ensures s < cfg.tableSize
  {
    MaskBelow(h % TWO32, cfg.tableSize);
    And(h % TWO32, cfg.tableSize - 1)
  }

  /** Table slot of a load at `pc` whose recent strides are `ctx`. */
  function HashOf(cfg: Config, pc: Addr, ctx: seq<Word>): (s: nat)
    requires cfg.Valid()
    ensures s < cfg.tableSize
  {
    Slot(cfg, cfg.hash(pc, ctx))
  }

  lemma {:induction false} MaskBelow(n: nat, size: nat)
    requires IsPow2(size)
    ensures size >= 1 && And(n, size - 1) < size
  {
    var k: nat :| size == Pow2(k);
    AndMaskIsRemainder(n, k);
  }

  lemma {:induction false} MixAllSnoc(h: Word, ctx: seq<Word>, s: Word)
    decreases |ctx|
    ensures MixAll(h, ctx + [s]) == Mix(MixAll(h, ctx), s)
  {
    if ctx == [] {
    } else {
      MixAllSnoc(Mix(h, ctx[0]), ctx[1..], s);
      assert (ctx + [s])[1..] == ctx[1..] + [s];
    }
  }

  // ---------------------------------------------------------------- transitions

  function Bump(confidence: nat): nat {
    (confidence + 1) % 256
  }

  /** How one observed stride changes the table entry its context selects. */
  function Train(cfg: Config, m: MarkovEntry, stride: Word): (m': MarkovEntry)
    requires m.confidence < 256
    ensures m'.valid && m'.confidence < 256
  {
    if !m.valid then
      MarkovEntry(stride, 1, true)
    else if stride == m.predictedStride then
      if m.confidence < cfg.maxConf then m.(confidence := Bump(m.confidence)) else m
    else
      var c := if m.confidence > 0 then m.confidence - 1 else 0;
      if c == 0 then MarkovEntry(stride, 1, true) else m.(confidence := c)
  }

  /** The value predicted for the next load at `pc`, if the predictor would offer one. */
  function Offer(cfg: Config, st: State, pc: Addr): (r: (bool, Word))
    requires cfg.Valid() && Wf(cfg, st)
  {
    if pc !in st.vht || !st.vht[pc].strideValid then (false, 0)
    else
      var e := st.vht[pc];
      var m := st.table[HashOf(cfg, pc, Context(cfg, e))];
      if !m.valid || m.confidence < cfg.confThreshold then (false, 0)
      else (true, WrapAdd(e.lastVal, m.predictedStride))
  }

  function AfterPredict(cfg: Config, st: State, pc: Addr): (st': State)
    requires cfg.Valid() && Wf(cfg, st)
    ensures Wf(cfg, st')
  {
    var (ok, value) := Offer(cfg, st, pc);
    if ok then
      st.(vht := st.vht[pc := st.vht[pc].(hasPending := true, pendingPred := value)],
          stats := st.stats.(predicted := st.stats.predicted + 1))
    else if pc !in st.vht then
      st.(stats := st.stats.(noHistory := st.stats.noHistory + 1))
    else if !st.vht[pc].strideValid then
      st.(stats := st.stats.(noStride := st.stats.noStride + 1))
    else
      st.(stats := st.stats.(lowConfidence := st.stats.lowConfidence + 1))
  }

  function CheckPending(e: VhtEntry, val: Word, s: Stats): Stats {
    if !e.hasPending then s
    else if val == e.pendingPred then
      s.(pendingChecked := s.pendingChecked + 1, correct := s.correct + 1)
    else
      s.(pendingChecked := s.pendingChecked + 1, incorrect := s.incorrect + 1)
  }

  function PushStride(cfg: Config, e: VhtEntry, val: Word): (e': VhtEntry)
    requires EntryWf(cfg, e)
    ensures EntryWf(cfg, e')
  {
    e.(strides := e.strides[e.writePtr := WrapSub(val, e.lastVal)],
       writePtr := (e.writePtr + 1) % cfg.contextDepth,
       strideValid := true, hasPending := false, lastVal := val)
  }

  function AfterUpdate(cfg: Config, st: State, pc: Addr, val: Word): (st': State)
    requires cfg.Valid() && Wf(cfg, st)
    ensures Wf(cfg, st')
  {
    var counted := st.stats.(totalLoads := st.stats.totalLoads + 1);
    if pc !in st.vht then
      var first := NEW_ENTRY.(strides := seq(cfg.contextDepth, _ => 0), valid := true, lastVal := val);
      st.(vht := st.vht[pc := first], stats := counted)
    else
      var e := st.vht[pc];
      var s := HashOf(cfg, pc, Context(cfg, e));
      State(st.vht[pc := PushStride(cfg, e, val)],
            if e.strideValid then st.table[s := Train(cfg, st.table[s], WrapSub(val, e.lastVal))] else st.table,
            CheckPending(e, val, counted))
  }

  // ---------------------------------------------------------------- the predictor object

  class Predictor {
    const cfg: Config
    const markovTable: array<MarkovEntry>
    var vht: map<Addr, VhtEntry>
    var stats: Stats

    ghost function Abs(): State
      reads this, markovTable
    {
      State(vht, markovTable[..], stats)
    }

    ghost predicate Valid()
      reads this, markovTable
    {
      cfg.Valid() && cfg.hash == SourceHash && Wf(cfg, Abs())
    }

    constructor (c: Config)
      requires c.Valid() && c.hash == SourceHash
      ensures Valid() && cfg == c && Abs() == Initial(c) && fresh(markovTable)
    {
      cfg := c;
      markovTable := new MarkovEntry[c.tableSize](_ => EMPTY_SLOT);
      vht := map[];
      stats := NO_STATS;
    }

    method HashContext(pc: Addr, entry: VhtEntry) returns (slot: nat)
      requires cfg.Valid() && cfg.hash == SourceHash && EntryWf(cfg, entry)
      ensures slot == HashOf(cfg, pc, Context(cfg, entry))
    {
      ghost var ctx := Context(cfg, entry);
      var h := Seed(pc);
      var i := 0;
      while i < cfg.contextDepth
        invariant 0 <= i <= cfg.contextDepth
        invariant h == MixAll(Seed(pc), ctx[..i])
      {
        var idx := RingIndex(cfg.contextDepth, entry.writePtr, i);
        h := Xor64(h, (entry.strides[idx] * 2654435761) % TWO64);
        h := Rotate5(h);
        MixAllSnoc(Seed(pc), ctx[..i], ctx[i]);
        assert ctx[..i + 1] == ctx[..i] + [ctx[i]];
        i := i + 1;
      }
      assert ctx[..i] == ctx;
      slot := Slot(cfg, h);
    }

    method Predict(pc: Addr) returns (ok: bool, predVal: Word)
      requires Valid()
      modifies this
      ensures Valid()
      ensures (ok, predVal) == Offer(cfg, old(Abs()), pc)
      ensures Abs() == AfterPredict(cfg, old(Abs()), pc)
    {
      if pc !in vht || !vht[pc].valid {
        stats := stats.(noHistory := stats.noHistory + 1);
        return false, 0;
      }
      var vEntry := vht[pc];
      if !vEntry.strideValid {
        stats := stats.(noStride := stats.noStride + 1);
        return false, 0;
      }
      var mIdx := HashContext(pc, vEntry);
      var mEntry := markovTable[mIdx];
      if !mEntry.valid || mEntry.confidence < cfg.confThreshold {
        stats := stats.(lowConfidence := stats.lowConfidence + 1);
        return false, 0;
      }
      predVal := WrapAdd(vEntry.lastVal, mEntry.predictedStride);
      vht := vht[pc := vEntry.(hasPending := true, pendingPred := predVal)];
      stats := stats.(predicted := stats.predicted + 1);
      ok := true;
    }

    method Update(pc: Addr, actualVal: Word)
      requires Valid()
      modifies this, markovTable
      ensures Valid()
      ensures Abs() == AfterUpdate(cfg, old(Abs()), pc, actualVal)
    {
      stats := stats.(totalLoads := stats.totalLoads + 1);
      var vEntry := if pc in vht then vht[pc] else NEW_ENTRY;
      if !vEntry.valid {
        vEntry := vEntry.(strides := seq(cfg.contextDepth, _ => 0), writePtr := 0, valid := true,
                          strideValid := false, hasPending := false, lastVal := actualVal);
        vht := vht[pc := vEntry];
        return;
      }
      ScorePending(vEntry, actualVal);
      var stride := WrapSub(actualVal, vEntry.lastVal);
      if vEntry.strideValid {
        var mIdx := HashContext(pc, vEntry);
        TrainSlot(mIdx, stride);
      }
      vEntry := vEntry.(strides := vEntry.strides[vEntry.writePtr := stride],
                        writePtr := (vEntry.writePtr + 1) % cfg.contextDepth,
                        strideValid := true, hasPending := false, lastVal := actualVal);
      vht := vht[pc := vEntry];
    }

    method ScorePending(vEntry: VhtEntry, actualVal: Word)
      modifies this`stats
      ensures stats == CheckPending(vEntry, actualVal, old(stats))
    {
      if vEntry.hasPending {
        stats := stats.(pendingChecked := stats.pendingChecked + 1);
        if actualVal == vEntry.pendingPred {
          stats := stats.(correct := stats.correct + 1);
        } else {
          stats := stats.(incorrect := stats.incorrect + 1);
        }
      }
    }

    method TrainSlot(mIdx: nat, stride: Word)
      requires mIdx < markovTable.Length && markovTable[mIdx].confidence < 256
      modifies markovTable
      ensures markovTable[..] == old(markovTable[..])[mIdx := Train(cfg, old(markovTable[mIdx]), stride)]
    {
      var mEntry := markovTable[mIdx];
      if !mEntry.valid {
        mEntry := MarkovEntry(stride, 1, true);
      } else if stride == mEntry.predictedStride {
        if mEntry.confidence < cfg.maxConf {
          mEntry := mEntry.(confidence := Bump(mEntry.confidence));
        }
      } else {
        if mEntry.confidence > 0 {
          mEntry := mEntry.(confidence := mEntry.confidence - 1);
        }
        if mEntry.confidence == 0 {
          mEntry := mEntry.(predictedStride := stride, confidence := 1);
        }
      }
      markovTable[mIdx] := mEntry;
    }
  }
}
