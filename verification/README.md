# Verified models of the load value predictor and the trace, checkpoint and configuration tools

A Dafny model of the Markov load value predictor added to gem5 and of the tools around it whose
results have to be right: the pipeline viewer, the checkpoint upgrader and aggregator, the port
binder, the trace codecs, the memory tester's tree and the simulation loops. Files are sequences of
bytes, characters or records; `m5.simulate` is an arbitrary sequence of responses; sorting is a
stable sort by key. Code that changes state is a class or a method with loops, proved equal to a
function on values; the theorems are about those functions, for all inputs and all runs.

`dafny verify dfyconfig.toml` checks everything.

| files | model |
|---|---|
| `MarkovLvp`, `MarkovHash`, `MarkovHistory` | the predictor object; its hash, bit by bit; what every run keeps |
| `MarkovReplay`, `MarkovLearning` | table and offers from the history alone, the majority stride; what it learns from committed loads |
| `MarkovMixtures`, `MarkovIsolation`, `MarkovInterference` | mixtures of loads: how often it is wrong; loads that own their slots; loads that share one |
| `PipeView`, `PipeViewOrder`, `PipeViewWindow`, `PipeViewTrace`, `PipeViewExact` | the streaming viewer; its windowed sort; the whole run against sort-then-filter, and exactly when they agree |
| `PipeViewRange` | what is printed for the ranges and options given |
| `PipeViewTimeline`, `PipeViewDrawing`, `PipeViewTies` | the arithmetic and the text of the drawn timelines, letter by letter |
| `CptUpgrader`, `CptRegistry` | the dependency-driven apply loop; the registry, legacy chain and file processing |
| `PortBinder`, `PortChains`, `PortText` | the binding pass and its final count; the lists it rejects; the text of a connection end |
| `ProtoLib` | varints and length-delimited messages |
| `InstDepTrace`, `InstDepFiles` | dependency records and traces as text |
| `MemTest`, `MemTestTree` | the tester count, the checks and the recursive tree |
| `CheckpointNames`, `CheckpointAggregator`, `CheckpointMerge` | section names, memory, configuration |
| `CheckpointOutput`, `CheckpointWritten` | both files together; what the configuration says, key by key |
| `Copyrights` | sets of years as text |
| `Simulation`, `RepeatSwitch` | script checkpoints and processor switching against any simulator |
| `LogRoll`, `LatMemRd` | the rolling log; the latency sweep |
| `Bits`, `Text` | machine words and bit operations; decimal numbers, splitting and joining |

## Where the code does not do what is said of it

The model follows the code. Each of these has its exact condition and a concrete input.

- The predictor's confidence byte wraps when the ceiling is above 255 (`SaturatesIffCeilingFits`,
  `ByteWraps`), and its 32-bit ring index reads the wrong stride beyond depth 2^31
  (`RingIndexExactUpTo`, `RingIndexWraps`).
- The viewer's comment asks for arrivals at most `min_threshold` places late; that suffices but is not
  needed (`InOrderIffPlaceOpen`, `StreamingIff`, `LateButInOrder`, `LateAndOutOfOrder`).
- The port binder's comment says sorting makes exactly one direction of each pair bindable; a sorted
  list can be rejected that binds in another order (`AcceptsIffNotBlocked`,
  `SortedPassRejectsBindable`). Its final count certifies nothing once a port is joined to itself
  (`HalfCertifiesIffNoSelf`, `SelfConnectionsDefeatTheCount`).
- Guest checkpoints are said to be skipped in favour of the script's; one inside a period ends the
  script after that period, because the cause tested by the outer loop is not refreshed
  (`GuestsCutTheScript`, `GuestLosesACheckpoint`).
- `repeatSwitch` is entered when the last tick exceeds the rate, whatever the current tick; it is safe
  only with a whole interval left (`SafeIff`, `CallerCheckIsNotEnough`). The function alone does not end
  with a rate of zero (`EndsIff`, `ZeroRateNeverEnds`); its only caller never passes one.
- An upgrader file that replaces another of the same tag takes it out of the legacy chain
  (`LegacyOrderIff`, `ReplacedFileBreaksChain`).
- Year ranges outside 1000 to 9999 are written but not read back (`Copyrights.RoundTripIff`,
  `FiveDigitsAreLost`).
- The dependency text has no place for virtual addresses and address spaces
  (`InstDepTrace.RoundTripIff`, `VirtualAddressIsLost`), and an empty message ends a trace file
  (`FilesRoundTripIff`, `EmptyMessageLosesTheRest`).
- A memory image shorter than its page count shifts every later checkpoint away from its moved
  addresses (`PlacedIff`, `ShortImageMisplaces`), and padding is the character 0, not a zero byte
  (`PadMemory`).

## Model

| member | source | states |
|---|---|---|
| MarkovLvp.Predictor.constructor | gem5-fresh/src/cpu/markov_lvp.cc:22-34 | a power-of-two table of empty slots, no histories, all counters zero |
| MarkovLvp.Predictor.HashContext | gem5-fresh/src/cpu/markov_lvp.cc:36-46 | the slot is the hash of the load's recent strides, most recent first, mixed into its address; what that hash is, is stated by `SlotBit`, `HashKeepsAddress` and `HashKeepsStride` |
| MarkovHash.RotateBit | gem5-fresh/src/cpu/markov_lvp.cc:43 | the rotation moves every bit five places up and the top five round to the bottom |
| MarkovHash.XorBit | gem5-fresh/src/cpu/markov_lvp.cc:39-42 | exclusive or adds bit by bit, modulo two |
| MarkovHash.SeedInjective | gem5-fresh/src/cpu/markov_lvp.cc:39 | folding the address loses none of its bits |
| MarkovHash.MixInjective | gem5-fresh/src/cpu/markov_lvp.cc:42-43 | mixing in a stride loses no bit of what was mixed before |
| MarkovHash.MixStrideInjective | gem5-fresh/src/cpu/markov_lvp.cc:42-43 | nor of the stride: the multiplier has an inverse |
| MarkovHash.HashKeepsAddress | gem5-fresh/src/cpu/markov_lvp.cc:36-46 | two loads with the same recent strides never have the same hash |
| MarkovHash.HashKeepsStride | gem5-fresh/src/cpu/markov_lvp.cc:36-46 | contexts that differ in one stride, wherever it stands, never have the same hash |
| MarkovHash.HashBit | gem5-fresh/src/cpu/markov_lvp.cc:36-46 | every bit of the hash is the parity of two bits of the address and one of every multiplied stride, at places given by its age |
| MarkovHash.SlotBit | gem5-fresh/src/cpu/markov_lvp.cc:36-46 | the slot is the low bits of that hash, as many as the table size has, and no others |
| MarkovHash.OneSlotUsed | gem5-fresh/src/cpu/markov_lvp.cc:36-46 | with the default parameters the load at 0x401136 after a stride of -8 uses slot 2527 |
| MarkovLvp.Predictor.Predict | gem5-fresh/src/cpu/markov_lvp.cc:48-77 | the value offered, and the whole new state, are those of the transition on values, which `OfferFromHistory` and `RefusalsByReason` give from the history alone |
| MarkovLvp.Predictor.Update | gem5-fresh/src/cpu/markov_lvp.cc:79-134 | the whole new state is that of the transition on values: pending prediction scored, slot of the old context trained, stride pushed |
| MarkovLvp.Predictor.ScorePending | gem5-fresh/src/cpu/markov_lvp.cc:97-105 | a pending prediction is counted once, as right or wrong |
| MarkovLvp.Predictor.TrainSlot | gem5-fresh/src/cpu/markov_lvp.cc:109-128 | only the selected slot changes: claimed, strengthened, weakened or replaced |
| MarkovHistory.RingIndexExactUpTo | gem5-fresh/src/cpu/markov_lvp.cc:40-42 | the 32-bit ring index reads the right stride for every position if and only if the depth is at most 2^31 |
| MarkovHistory.RingIndexWraps | gem5-fresh/src/cpu/markov_lvp.cc:40-42 | one deeper, and the most recent stride is read from position 0 |
| MarkovHistory.ContextPush | gem5-fresh/src/cpu/markov_lvp.cc:130-131 | overwriting one ring cell moves the whole context back by one and drops the oldest stride |
| MarkovHistory.RingIsHistory | gem5-fresh/src/cpu/markov_lvp.cc:79-134 | in every run of predicts and updates, a load's ring holds exactly its last value and its last strides, newest first |
| MarkovHistory.KeepsOther | gem5-fresh/src/cpu/markov_lvp.cc:48-134 | calls for other loads, and predicts, leave a load's recorded history alone |
| MarkovHistory.CountersBalance | gem5-fresh/src/cpu/markov_lvp.cc:48-134 | in every run: loads and predict calls are counted once each, checked = right + wrong, predictions = checked + pending + overwritten |
| MarkovHistory.UpdateBalance | gem5-fresh/src/cpu/markov_lvp.cc:79-134 | one update moves at most one prediction from pending to checked |
| MarkovHistory.PredictBalance | gem5-fresh/src/cpu/markov_lvp.cc:48-77 | one predict is counted as a prediction or as exactly one kind of refusal |
| MarkovHistory.RefusalsByReason | gem5-fresh/src/cpu/markov_lvp.cc:48-77 | in every run: no-history counts the predicts of loads never updated, no-stride those of loads updated once, low-confidence the others that offered nothing |
| MarkovHistory.KnownIff | gem5-fresh/src/cpu/markov_lvp.cc:50-60 | a load has an entry from its first update on and a stride from its second |
| MarkovHistory.SaturatingInRange | gem5-fresh/src/cpu/markov_lvp.cc:113-127 | with a ceiling below 256, every valid slot stays between 1 and the ceiling in every run |
| MarkovHistory.SaturatesIffCeilingFits | gem5-fresh/src/cpu/markov_lvp.hh:35-39 | the confidence counter saturates in every run if and only if the ceiling fits its byte |
| MarkovHistory.ByteWraps | gem5-fresh/src/cpu/markov_lvp.cc:117-119 | after 258 equal loads with a ceiling above 255 a valid slot has confidence zero |
| MarkovReplay.TableIsReplay | gem5-fresh/src/cpu/markov_lvp.cc:107-134 | in every run each slot is an empty one trained, in order, with the strides of the loads whose recent strides selected it |
| MarkovReplay.OfferFromHistory | gem5-fresh/src/cpu/markov_lvp.cc:48-77 | in every run, from the history alone: nothing before the second value or with too little confidence, otherwise the last value plus the slot's stride |
| MarkovReplay.MajorityIsStored | gem5-fresh/src/cpu/markov_lvp.cc:109-128 | while the ceiling leaves room, a stride seen more often than all others together is the one predicted, in whatever order they came |
| MarkovReplay.CeilingForgets | gem5-fresh/src/cpu/markov_lvp.cc:116-119 | with a ceiling of one, two equal strides and another leave the other |
| MarkovLearning.CommitsAreRuns | gem5-fresh/src/cpu/o3/lsq_unit.cc:751-773 | committing loads is a run of the predictor: update, then predict, for each load |
| MarkovLearning.CommitsLoseNothing | gem5-fresh/src/cpu/o3/lsq_unit.cc:751-773 | at commit no pending prediction is ever overwritten: predictions = right + wrong + pending |
| MarkovLearning.LearnsConsistent | gem5-fresh/src/cpu/markov_lvp.cc:107-134 | on traces whose strides are a function of their slot, every slot stores that stride with the confidence of its visits |
| MarkovLearning.OfferIsCovered | gem5-fresh/src/cpu/markov_lvp.cc:48-77 | on such traces a value is offered exactly when the slot has been seen often enough |
| MarkovLearning.ConsistentNeverWrong | gem5-fresh/src/cpu/markov_lvp.cc:48-134 | on such traces, for any mixture of loads, no prediction is wrong and the number of predictions is exact |
| MarkovLearning.AnyRunNeverWrong | gem5-fresh/src/cpu/markov_lvp.cc:48-134 | the same for predicts and updates in any order: while each update's stride is a function of its slot, no prediction is ever wrong |
| MarkovMixtures.PerfectIffDetermined | gem5-fresh/src/cpu/markov_lvp.cc:48-134 | for any mixture of loads, none committed after another has trained the slot its prediction came from, and a threshold that predicts every repeat: no mistake if and only if each slot is always followed by the same stride |
| MarkovMixtures.AtMostHalfWrong | gem5-fresh/src/cpu/markov_lvp.cc:107-128 | with a threshold of two or more, for every trace: mispredictions are at most half the commits plus the disturbed ones (those whose slot another load has trained since the prediction); with none disturbed, at most half |
| MarkovMixtures.PendingIsOffer | gem5-fresh/src/cpu/markov_lvp.cc:48-77 | a pending prediction is still what the table offers, unless another load has trained that slot since |
| MarkovMixtures.WrongPlusStored | gem5-fresh/src/cpu/markov_lvp.cc:107-128 | for every trace: each misprediction has spent a unit of stored confidence or was on a disturbed slot |
| MarkovMixtures.SingleUndisturbed | gem5-fresh/src/cpu/markov_lvp.cc:107-128 | a load committed alone is never disturbed |
| MarkovInterference.AllButTwoWrong | gem5-fresh/src/cpu/markov_lvp.cc:107-128 | n loads sharing one slot in turn: in every round behind the warm-up all but two are mispredicted |
| MarkovInterference.MoreThanHalfWrong | gem5-fresh/src/cpu/markov_lvp.cc:107-128 | eight loads in turn, and more than half of all commits are mispredicted |
| MarkovInterference.NoFractionBounds | gem5-fresh/src/cpu/markov_lvp.cc:107-128 | without the condition on disturbed commits no fraction short of all bounds the mispredictions |
| MarkovIsolation.BehavesAsAlone | gem5-fresh/src/cpu/markov_lvp.cc:48-134 | a load whose slots no other trains has the same entries, predictions and mispredictions in any program as alone |
| MarkovIsolation.OwnLoadAtMostHalfWrong | gem5-fresh/src/cpu/markov_lvp.cc:107-128 | at most half the executions of such a load are mispredicted, threshold two or more, whatever the other loads do |
| MarkovIsolation.OwnLoadPerfectIff | gem5-fresh/src/cpu/markov_lvp.cc:48-134 | such a load is never mispredicted if and only if its own values determine the stride behind each slot |
| MarkovLearning.ConstantStrideLearned | gem5-fresh/src/cpu/markov_lvp.cc:48-134 | a load committed alone with a constant stride is never mispredicted and is always predicted after depth plus threshold loads |
| MarkovIsolation.OwnConstantStrideLearned | gem5-fresh/src/cpu/markov_lvp.cc:48-134 | the same in any program for a load whose slots no other trains |
| MarkovLearning.SilentIffUnreachable | gem5-fresh/src/cpu/markov_lvp.cc:63-69 | for every configuration, no run ever predicts if and only if the threshold is above the ceiling, or above 255 when the ceiling does not fit the byte |
| PipeView.Viewer.constructor | gem5-fresh/util/o3-pipeview.py:51-66 | an empty queue and nothing printed |
| PipeView.Viewer.PrintInsts | gem5-fresh/util/o3-pipeview.py:231-277 | the queue is sorted by number and popped down to the threshold; what is popped is printed if it passes the filters, which `PrintRange` spells out |
| PipeView.Viewer.QueueInst | gem5-fresh/util/o3-pipeview.py:212-227 | an instruction is queued, and the queue is flushed when it exceeds the upper threshold |
| PipeView.Viewer.SkipLines | gem5-fresh/util/o3-pipeview.py:94-126 | stops at the first line of the requested range, of any stage for ticks and a fetch for numbers, and from there at the next fetch |
| PipeView.Viewer.ReadLine | gem5-fresh/util/o3-pipeview.py:157-193 | each field of the record is the line's when the line names it and unchanged when not; only a retire queues the record, and nothing else is queued or lost |
| PipeView.Viewer.ReadRegion | gem5-fresh/util/o3-pipeview.py:154-207 | reads up to the first fetch past the range and its margin, and to the end when there is none; the queue is that of the records completed on the way |
| PipeView.Viewer.ProcessTrace | gem5-fresh/util/o3-pipeview.py:69-207 | everything printed over all flushes is the filter of everything popped, and the queue ends empty; what that is for given options is `PrintRange` |
| PipeViewOrder.SortMultiset | gem5-fresh/util/o3-pipeview.py:242 | sorting keeps the instructions |
| PipeViewOrder.SortSorts | gem5-fresh/util/o3-pipeview.py:242 | sorting orders them by number |
| PipeViewOrder.SortStable | gem5-fresh/util/o3-pipeview.py:242 | instructions with equal numbers keep their order |
| PipeViewOrder.RankIsPosition | gem5-fresh/util/o3-pipeview.py:242 | an arrival's rank (not larger before it, smaller after it) is its place in the sorted trace |
| PipeViewWindow.PoppedIsPermutation | gem5-fresh/util/o3-pipeview.py:212-277 | over all flushes, every queued instruction comes out exactly once |
| PipeViewWindow.InOrderIffPlaceOpen | gem5-fresh/util/o3-pipeview.py:45-50 | the windowed sort prints in number order if and only if no arrival's sorted place has already been printed |
| PipeViewWindow.NotTooLateSorts | gem5-fresh/util/o3-pipeview.py:45-50 | the documented assumption, at most the lower threshold places late, is sufficient: the output is the stable sort |
| PipeViewWindow.LateButInOrder | gem5-fresh/util/o3-pipeview.py:45-50 | the documented assumption is not necessary: a later arrival before the first flush still comes out in order |
| PipeViewWindow.LateAndOutOfOrder | gem5-fresh/util/o3-pipeview.py:45-50 | behind the first flush one late arrival puts the output out of order |
| PipeViewTrace.FilterSort | gem5-fresh/util/o3-pipeview.py:243-268 | filtering and sorting commute |
| PipeViewTrace.CollectFramed | gem5-fresh/util/o3-pipeview.py:154-207 | the main loop queues a trace's instructions up to the first stopping fetch |
| PipeViewTrace.SkipStartDrops | gem5-fresh/util/o3-pipeview.py:94-119 | the first skip loop passes only instructions the filters would reject |
| PipeViewTrace.SkipFetchKeeps | gem5-fresh/util/o3-pipeview.py:121-126 | the second skip loop drops no instruction |
| PipeViewTrace.QueuedSlice | gem5-fresh/util/o3-pipeview.py:94-207 | what is queued is the trace without a rejected prefix, up to the first stopping fetch |
| PipeViewTrace.NothingAfterStop | gem5-fresh/util/o3-pipeview.py:159-176 | when a fetch past the range ends the scan, no instruction in range is still to come |
| PipeViewTrace.StreamingEqualsSortThenFilter | gem5-fresh/util/o3-pipeview.py:69-277 | on every orderly trace and for all ranges, the streaming run prints exactly sort everything, then filter |
| PipeViewExact.StreamingIff | gem5-fresh/util/o3-pipeview.py:69-277 | on every framed trace, orderly or not: the streaming run prints exactly that if and only if all instructions to print are queued before the scan ends and none of them arrives behind a printed larger number |
| PipeViewExact.KeptInOrderIffOnTime | gem5-fresh/util/o3-pipeview.py:212-277 | for all arrivals: the printed instructions are in order if and only if none to print arrives behind a printed larger number |
| PipeViewExact.PoppedStable | gem5-fresh/util/o3-pipeview.py:231-277 | over all flushes, instructions with equal numbers keep their order |
| PipeViewTrace.ViewerPrintsSortedRange | gem5-fresh/util/o3-pipeview.py:51-66 | the same with the thresholds 2000 and 1000 and the drift of 2000 cycles |
| PipeViewRange.PrintRange | gem5-fresh/util/o3-pipeview.py:69-277 | of what is read exactly the instructions inside the ranges given, ends included, and committed if asked, are printed, each as often as read; on an orderly trace these are all of the trace's, in number order |
| PipeViewRange.ReadUpToMargin | gem5-fresh/util/o3-pipeview.py:69-207 | of a framed trace everything is read from a point before which nothing was asked for up to the first fetch 2000 cycles or 2000 numbers behind the range |
| PipeViewRange.LeavesAThousandAtATime | gem5-fresh/util/o3-pipeview.py:45-57 | nothing leaves the queue before arrival 2001, and from there on 1001 leave at every 1001st arrival |
| PipeViewTimeline.DrawnOnExactlyOneLine | gem5-fresh/util/o3-pipeview.py:337-386 | a stage event is drawn on exactly one line, compact or not, if and only if it is not before the left edge |
| PipeViewTimeline.ColumnIsCycle | gem5-fresh/util/o3-pipeview.py:380-408 | the column drawn is the cycle number modulo the width |
| PipeViewTimeline.RenderLength | gem5-fresh/util/o3-pipeview.py:389-411 | a line is as long as its width plus one character for every clash |
| PipeViewTimeline.NoClashIffDistinct | gem5-fresh/util/o3-pipeview.py:389-411 | there is no clash if and only if all columns differ |
| PipeViewTimeline.RenderAt | gem5-fresh/util/o3-pipeview.py:392-411 | without clashes each letter is in its column and all else are dots |
| PipeViewDrawing.GatherEvents | gem5-fresh/util/o3-pipeview.py:374-386 | the events of a line, in stage order |
| PipeViewDrawing.DrawEvents | gem5-fresh/util/o3-pipeview.py:387-411 | the text of a line, with a dispatch hidden behind an issue of the same tick |
| PipeViewDrawing.DrawInst | gem5-fresh/util/o3-pipeview.py:335-416 | the lines drawn; for an aligned instruction f, d, n, p, i, c, r, s stand for fetch to store at the line and column of their cycles, p unless issued in the same tick, and everything else is a dot (an equals sign when abandoned) |
| PipeViewDrawing.DrawnStages | gem5-fresh/util/o3-pipeview.py:369-398 | a line draws, in column order and once each, exactly the stages whose tick falls on it, but for the hidden dispatch |
| PipeViewDrawing.LineWidthIffDistinct | gem5-fresh/util/o3-pipeview.py:389-411 | a line is exactly the requested width if and only if no two of its letters want one column |
| PipeViewDrawing.AlignedDrawing | gem5-fresh/util/o3-pipeview.py:337-411 | with distinct cycle-aligned ticks every line has the requested width and each letter sits at its cycle modulo the width |
| PipeViewDrawing.LettersDrawn | gem5-fresh/util/o3-pipeview.py:289-411 | each field that happened has its own letter at its own column |
| PipeViewDrawing.NoOthersDrawn | gem5-fresh/util/o3-pipeview.py:361-411 | every other character is a dot, or an equals sign for an abandoned instruction |
| PipeViewDrawing.LinesCounted | gem5-fresh/util/o3-pipeview.py:337-359 | one line if and only if nothing happens a whole line behind the fetch, otherwise up to the line of the last event |
| PipeViewTies.RankIsAlphabetical | gem5-fresh/util/o3-pipeview.py:376-387 | the order of events with one position is that of the stages' names in the alphabet |
| PipeViewTies.TiesAlphabetical | gem5-fresh/util/o3-pipeview.py:376-387 | letters are drawn by position and, where positions are equal, in that order |
| PipeViewTies.NoLetterLost | gem5-fresh/util/o3-pipeview.py:387-411 | on every line, also where columns clash, the letters are exactly those of its stages, in order |
| CptUpgrader.StuckHasCycle | gem5-fresh/util/cpt_upgrader.py:259-263 | when no missing upgrade is ready, the missing ones contain a dependency cycle |
| CptUpgrader.CompleteIsAcyclic | gem5-fresh/util/cpt_upgrader.py:144-148 | a schedule of all missing upgrades exists only without a cycle |
| CptUpgrader.ApplyRound | gem5-fresh/util/cpt_upgrader.py:265-267 | one round, in any iteration order, extends the schedule by exactly the ready upgrades |
| CptUpgrader.ApplyMissing | gem5-fresh/util/cpt_upgrader.py:257-269 | terminates; aborts if and only if the dependencies among the missing tags contain a cycle; otherwise each missing upgrade runs once, round by round, after its dependencies, and nothing is left to apply |
| CptUpgrader.AlwaysBeforeIff | gem5-fresh/util/cpt_upgrader.py:258-269 | one upgrade runs before another in every possible run if and only if it is ready in an earlier round; the runs are those of an acyclic registry |
| CptUpgrader.AlwaysBeforeIffShallower | gem5-fresh/util/cpt_upgrader.py:258-269 | ... if and only if the longest chain of missing dependencies under it is the shorter one |
| CptUpgrader.RoundIsChainLength | gem5-fresh/util/cpt_upgrader.py:144-148 | an upgrade has been applied after k rounds if and only if no chain of missing dependencies from it has more than k tags |
| CptUpgrader.PossibleRunSchedules | gem5-fresh/util/cpt_upgrader.py:258-269 | every possible run applies each missing upgrade once, after its dependencies |
| CptUpgrader.DependencyEarlier | gem5-fresh/util/cpt_upgrader.py:144-148 | a missing dependency is applied in an earlier round |
| CptRegistry.ResolvedAt | gem5-fresh/util/cpt_upgrader.py:178-186 | forward resolution adds to each tag exactly the tags that forward-depend on it |
| CptRegistry.ChainedAt | gem5-fresh/util/cpt_upgrader.py:171-175 | in the legacy chain each registered version depends on its predecessor alone; all other tags keep their dependencies |
| CptRegistry.LoadedChain | gem5-fresh/util/cpt_upgrader.py:171-192 | the legacy chain survives forward resolution |
| CptRegistry.Registry.constructor | gem5-fresh/util/cpt_upgrader.py:90-94 | an empty registry |
| CptRegistry.Registry.Register | gem5-fresh/util/cpt_upgrader.py:96-142 | a new tag is registered behind the others; a known one keeps its place and gets the new declarations, and its old legacy claim no longer reaches it |
| CptRegistry.Registry.ChainLegacy | gem5-fresh/util/cpt_upgrader.py:171-175 | links versions 3, 4, ... up to the first gap; fails if and only if version 3 comes without version 2 |
| CptRegistry.Registry.AppendForward | gem5-fresh/util/cpt_upgrader.py:179-186 | appends the tag to each tag it forward-depends on; fails if and only if one is unregistered |
| CptRegistry.Registry.AuditOne | gem5-fresh/util/cpt_upgrader.py:187-192 | succeeds if and only if all dependencies of a tag are registered |
| CptRegistry.Registry.ResolveForward | gem5-fresh/util/cpt_upgrader.py:177-192 | succeeds if and only if every declared and forward dependency is registered; the result is audited |
| CptRegistry.Registry.RegisterAll | gem5-fresh/util/cpt_upgrader.py:168-169 | the registry is the fold of the declarations |
| CptRegistry.Registry.LoadAll | gem5-fresh/util/cpt_upgrader.py:164-192 | both directions of success; on success the dependencies are audited and chain the legacy versions |
| CptRegistry.Registry.ConvertLegacy | gem5-fresh/util/cpt_upgrader.py:226-228 | a version number becomes the tags of versions 2 up to it; fails if and only if one is missing |
| CptRegistry.Registry.ProcessFile | gem5-fresh/util/cpt_upgrader.py:218-279 | fails, stops, leaves unchanged or rewrites, each exactly when it should, also when the section for the tags is missing; unknown tags are kept |
| CptRegistry.LegacyInOrder | gem5-fresh/util/cpt_upgrader.py:171-175 | with no file replaced, the remaining legacy upgrades run in increasing version order in every successful run from a legacy checkpoint |
| CptRegistry.LegacyOrderIff | gem5-fresh/util/cpt_upgrader.py:171-175 | replaced files or not, they run in version order in every possible run if and only if the longest chain of missing dependencies under each is shorter than under the next |
| CptRegistry.ReplacedFileBreaksChain | gem5-fresh/util/cpt_upgrader.py:139-142 | a replaced file, and version 3 may run before version 2 |
| CptRegistry.DistinctUnreplaced | gem5-fresh/util/cpt_upgrader.py:139-142 | files with different tags replace nothing |
| PortBinder.BoundIffBelowCount | gem5-fresh/configs/example/read_config.py:361-368 | a port's bound indices are exactly those below its counter |
| PortBinder.BoundOnce | gem5-fresh/configs/example/read_config.py:361-368 | no port is bound twice |
| PortBinder.HalfMeansExactlyOneEach | gem5-fresh/configs/example/read_config.py:392-395 | if half the list was bound, in any order and by any choice, every connection is bound in exactly one direction |
| PortBinder.HalfMeansUniquePeer | gem5-fresh/configs/example/read_config.py:392-395 | then every port has one peer |
| PortBinder.HalfMeansAllIndices | gem5-fresh/configs/example/read_config.py:392-395 | then each port's indices are exactly 0, 1, 2, ... up to its number of connections |
| PortBinder.AcceptsIffSomePickBinds | gem5-fresh/configs/example/read_config.py:380-395 | the greedy pass is accepted if and only if some choice of directions binds everything in that order |
| PortBinder.BindPorts | gem5-fresh/configs/example/read_config.py:357-395 | the counters compute the greedy pass; each of the three outcomes under its exact condition |
| PortBinder.MakeCounters | gem5-fresh/configs/example/read_config.py:357-359 | a zero counter for exactly the ports at which a listed connection starts |
| PortBinder.SortedPassRejectsBindable | gem5-fresh/configs/example/read_config.py:370-379 | sorting does not make one direction of each pair bindable: a sorted list is rejected that binds in another order |
| PortBinder.SelfConnectionsDefeatTheCount | gem5-fresh/configs/example/read_config.py:392-395 | with self-connections the final count accepts although a connection is unbound |
| PortBinder.HalfCertifiesIffNoSelf | gem5-fresh/configs/example/read_config.py:392-395 | for every symmetric list without repeats, half bound means everything bound if and only if no port is joined to itself |
| PortChains.HeldBack | gem5-fresh/configs/example/read_config.py:381-390 | a chain of connections, each taking the index behind one of the one before, is bound no earlier than its positions allow |
| PortChains.ChainTo | gem5-fresh/configs/example/read_config.py:381-390 | whatever has not been bound by a position is held back past it by such a chain |
| PortChains.AcceptsIffNotBlocked | gem5-fresh/configs/example/read_config.py:357-395 | a list is accepted if and only if every port has one peer, no index is skipped, and no chain runs past its last connection's listings |
| PortText.RoundTripIff | gem5-fresh/configs/example/read_config.py:152-164 | reading the text of a connection end gives it back if and only if its object has no line break and its port name is non-empty without dots and opening brackets |
| PortText.ReadIsNameable | gem5-fresh/configs/example/read_config.py:152-161 | whatever is read from any text is such an end |
| PortText.NoIndexReadsZero | gem5-fresh/configs/example/read_config.py:152-161 | an end written without an index reads as index 0 |
| ProtoLib.DecodeEncode | gem5-fresh/util/protolib.py:100-128 | decoding an encoded number consumes its bytes and leaves any suffix; it comes back reduced to 32 bits, below zero from 2^63 on; from 2^70 on it is refused |
| ProtoLib.RoundTripIff32Bit | gem5-fresh/util/protolib.py:100-128 | a number comes back if and only if it is below 2^32 |
| ProtoLib.NarrowSign | gem5-fresh/util/protolib.py:119-124 | narrowing keeps the low 32 bits, and is below zero if and only if the value does not fit a signed 64-bit integer |
| ProtoLib.DecodeExact | gem5-fresh/util/protolib.py:107-128 | the decoder on every byte string: too long from ten continued bytes on, end of file when the bytes run out before, otherwise the first whole varint's number, narrowed |
| ProtoLib.EncodeIsMinimal | gem5-fresh/util/protolib.py:147-159 | among all whole varints for a number the encoder's is the shortest, and the only one of its length |
| ProtoLib.DecodedIsNoShorter | gem5-fresh/util/protolib.py:100-159 | whatever bytes decode to a number, the encoder needs no more of them |
| ProtoLib.EncodePrefixFree | gem5-fresh/util/protolib.py:147-159 | no encoding is a prefix of another |
| ProtoLib.GroupIsAdded | gem5-fresh/util/protolib.py:117 | or-ing in the next group adds it, because groups never overlap |
| ProtoLib.OutFile.EncodeVarint32 | gem5-fresh/util/protolib.py:147-159 | appends the encoding |
| ProtoLib.OutFile.WriteMessage | gem5-fresh/util/protolib.py:162-168 | appends the length prefix and the payload |
| ProtoLib.InFile.Read | gem5-fresh/util/protolib.py:113-140 | the bytes read and those left make up the file: as many as asked for, fewer at its end, all of it for -1; any lower count is an error and reads nothing |
| ProtoLib.InFile.DecodeVarint32 | gem5-fresh/util/protolib.py:100-128 | computes the decoding of the unread bytes; whatever the outcome, exactly the bytes it looks at are consumed, never more than ten |
| ProtoLib.InFile.ReadMessage | gem5-fresh/util/protolib.py:131-144 | returns a message, stops, or raises an error on a length below -1, each exactly when the unread bytes say so |
| ProtoLib.InFile.ReadAll | gem5-fresh/util/decode_inst_dep_trace.py:163-164 | returns all messages up to the first that cannot be read, and whether reading raised an error |
| ProtoLib.DecodeEncodedMessage | gem5-fresh/util/protolib.py:131-168 | what one read finds at the front of one written message, for every length |
| ProtoLib.FilesRoundTripIff | gem5-fresh/util/protolib.py:131-168 | a file read back gives its messages, without an error, if and only if all lengths are between 1 and 2^32 - 1 (or the last one's narrowed length is -1) |
| ProtoLib.EmptyMessageStops | gem5-fresh/util/protolib.py:137-139 | an empty message hides everything behind it: exactly the messages before it come back |
| ProtoLib.EmptyMessageLosesTheRest | gem5-fresh/util/protolib.py:137-139 | three messages written, one of them empty, and one read |
| InstDepTrace.ParsePrint | gem5-fresh/util/encode_inst_dep_trace.py:157-159 | a printed line splits back into its fields and dependency lists |
| InstDepTrace.PrintedText | gem5-fresh/util/decode_inst_dep_trace.py:163-215 | the text of every record in full, with the type numbers 0 to 3 |
| InstDepTrace.DocumentedComp | gem5-fresh/util/decode_inst_dep_trace.py:76-87 | a computation is printed as the description of the format shows it |
| InstDepTrace.DocumentedLoad | gem5-fresh/util/decode_inst_dep_trace.py:76-87 | a load is |
| InstDepTrace.DocumentedStore | gem5-fresh/util/decode_inst_dep_trace.py:76-87 | a store is |
| InstDepTrace.MemoryFields | gem5-fresh/util/encode_inst_dep_trace.py:183-188 | a printed load or store parses if and only if it has address, size and flags |
| InstDepTrace.OtherFields | gem5-fresh/util/encode_inst_dep_trace.py:177-191 | for a computation the field behind the type is taken for the delay; an invalid type is refused |
| InstDepTrace.RoundTripIff | gem5-fresh/util/decode_inst_dep_trace.py:164-215 | a record printed and parsed is the same record with defaults filled in if and only if it is a load or store with all of address, size, flags or a computation with none, and has no virtual address and no address space |
| InstDepTrace.VirtualAddressIsLost | gem5-fresh/util/decode_inst_dep_trace.py:188-198 | a load with a virtual address comes back without it |
| InstDepTrace.ParsedIsExpressible | gem5-fresh/util/encode_inst_dep_trace.py:157-206 | whatever parses is such a record, complete |
| InstDepTrace.ParsePrintParse | gem5-fresh/util/encode_inst_dep_trace.py:157-206 | text that parses, printed and parsed again, gives the same record |
| InstDepFiles.TraceRoundTripIff | gem5-fresh/util/decode_inst_dep_trace.py:163-215 | a whole trace survives the trip to text and back if and only if each record does |
| InstDepFiles.TextIsStable | gem5-fresh/util/encode_inst_dep_trace.py:157-209 | a text that converts at all converts to the same trace after being printed |
| InstDepFiles.AsciiFile.WriteRecord | gem5-fresh/util/decode_inst_dep_trace.py:167-215 | the pieces written make up the printed record; an unknown type stops behind the weight |
| InstDepFiles.AsciiFile.WriteDeps | gem5-fresh/util/decode_inst_dep_trace.py:200-213 | the dependencies, each behind a comma |
| InstDepFiles.AsciiFile.WriteTrace | gem5-fresh/util/decode_inst_dep_trace.py:158-215 | the text of all packets and the three counts reported |
| InstDepFiles.DepCounts | gem5-fresh/util/decode_inst_dep_trace.py:200-213 | the two counts reported are the numbers of records with at least one dependency of each kind |
| InstDepFiles.StopsAtUnknown | gem5-fresh/util/decode_inst_dep_trace.py:177-186 | a record of unknown type ends the text behind its first three fields; everything before it is written in full |
| InstDepFiles.ReadDeps | gem5-fresh/util/encode_inst_dep_trace.py:193-206 | all non-empty pieces as numbers; fails if and only if one is none |
| InstDepFiles.ReadRecord | gem5-fresh/util/encode_inst_dep_trace.py:157-206 | the parsed record, or the error |
| InstDepFiles.ReadTrace | gem5-fresh/util/encode_inst_dep_trace.py:157-209 | the records up to the first line that cannot be converted |
| MemTest.NumTesters | gem5-fresh/configs/example/memtest.py:150-161 | the sum over the levels of testers per subsystem times the product of the cache counts before |
| MemTest.ReadInts | gem5-fresh/configs/example/memtest.py:185-189 | the numbers between colons; fails if and only if one piece is none |
| MemTest.ListsReadBack | gem5-fresh/configs/example/memtest.py:184-186 | numbers written between colons are read back in their order |
| MemTest.CheckSpec | gem5-fresh/configs/example/memtest.py:184-217 | accepts exactly the valid specifications of at most 64 testers |
| MemTestTree.FeedsExactlyOne | gem5-fresh/configs/example/memtest.py:323-329 | each cache of a subsystem feeds exactly one subsystem of the next level |
| MemTestTree.Builder.constructor | gem5-fresh/configs/example/memtest.py:279-280 | all subsystem indices start at zero |
| MemTestTree.Builder.MakePrototypes | gem5-fresh/configs/example/memtest.py:236-260 | one prototype per level, scaled by the product of the counts, alternating inclusivity |
| MemTestTree.Builder.Attach | gem5-fresh/configs/example/memtest.py:288-311 | the next index of a level gets its subsystem |
| MemTestTree.Builder.MakeLevel | gem5-fresh/configs/example/memtest.py:285-347 | completes the sub-tree: every cache created has its subsystem, numbered from left to right; the error exit and the empty lists are never reached |
| MemTestTree.Builder.Build | gem5-fresh/configs/example/memtest.py:350-351 | each level holds the product of the cache counts before it, and exactly the counted testers are created |
| MemTestTree.Configure | gem5-fresh/configs/example/memtest.py:184-351 | exactly the valid lists with at most 64 testers are accepted; the tree then has on every level the subsystems, testers, caches and crossbars listed for it, caches scaled level by level, each feeding exactly one subsystem |
| MemTestTree.CompleteCounts | gem5-fresh/configs/example/memtest.py:285-347 | in a complete tree each level holds the product of the counts before it |
| MemTestTree.NamesDistinct | gem5-fresh/configs/example/memtest.py:294 | no two subsystems get the same name |
| MemTestTree.NameOfOne | gem5-fresh/configs/example/memtest.py:294 | subsystem 13 of level 2 is l2subsys13 |
| CheckpointNames.TagsDistinct | gem5-fresh/util/checkpoint_aggregator.py:59-69 | padded checkpoint numbers have one width and differ |
| CheckpointNames.SectionsApart | gem5-fresh/util/checkpoint_aggregator.py:67-70 | renamed sections are equal if and only if checkpoint and section are |
| CheckpointNames.HasCpuIff | gem5-fresh/util/checkpoint_aggregator.py:68 | a section is a processor's if and only if cpu stands somewhere in its name |
| CheckpointNames.RenameFirst | gem5-fresh/util/checkpoint_aggregator.py:69 | the first cpu gets the number right behind it, and what follows is renamed in the same way |
| CheckpointNames.RenameNothing | gem5-fresh/util/checkpoint_aggregator.py:69 | a name without cpu stays as it is |
| CheckpointNames.UnpaddedTagsClash | gem5-fresh/util/checkpoint_aggregator.py:59-69 | without the padding two checkpoints' sections would clash |
| CheckpointAggregator.PlacedIff | gem5-fresh/util/checkpoint_aggregator.py:99-114 | an image starts where its addresses are moved to if and only if all earlier images fill their pages |
| CheckpointAggregator.MemoryPreserved | gem5-fresh/util/checkpoint_aggregator.py:72-114 | a checkpoint's byte is found at its moved address in the merged memory |
| CheckpointAggregator.RangesDisjoint | gem5-fresh/util/checkpoint_aggregator.py:72-101 | moved addresses of different checkpoints never meet |
| CheckpointAggregator.ShortImageMisplaces | gem5-fresh/util/checkpoint_aggregator.py:107-114 | one short image, and the next checkpoint's bytes are not where its addresses say |
| CheckpointAggregator.CopyPages | gem5-fresh/util/checkpoint_aggregator.py:107-114 | copying page by page copies the image up to the declared pages |
| CheckpointAggregator.PadMemory | gem5-fresh/util/checkpoint_aggregator.py:123-131 | pages of 0 characters up to the requested size |
| CheckpointAggregator.RangeSize | gem5-fresh/util/checkpoint_aggregator.py:123-140 | the range size is at least the requested one, by less than a page when padded, and equals the bytes written if and only if all images are full |
| CheckpointMerge.SectionsDistinct | gem5-fresh/util/checkpoint_aggregator.py:67-94 | the merged sections of one checkpoint have different names |
| CheckpointOutput.MaxTickBounds | gem5-fresh/util/checkpoint_aggregator.py:86-89 | the merged tick is at least every checkpoint's |
| CheckpointOutput.MaxTickAttained | gem5-fresh/util/checkpoint_aggregator.py:86-89 | and it is 0 or one of the checkpoints' ticks |
| CheckpointOutput.OutputShape | gem5-fresh/util/checkpoint_aggregator.py:96-145 | the configuration is the merged sections and two closing ones, only the memory's section changed |
| CheckpointOutput.OutputDistinct | gem5-fresh/util/checkpoint_aggregator.py:67-145 | no section is written twice |
| CheckpointOutput.AddressFollowsMemory | gem5-fresh/util/checkpoint_aggregator.py:72-114 | a moved physical address stands in its renamed section and, when earlier images are full, reads the byte it read before |
| CheckpointOutput.CopyItems | gem5-fresh/util/checkpoint_aggregator.py:72-79 | copied items, addresses moved; fails if and only if an address is no number |
| CheckpointOutput.CopySections | gem5-fresh/util/checkpoint_aggregator.py:67-94 | one pass over a checkpoint's sections: merged sections and largest tick |
| CheckpointOutput.Aggregate | gem5-fresh/util/checkpoint_aggregator.py:44-145 | both files written, or the error; what the configuration says is given by the lookups of `CheckpointWritten` |
| CheckpointWritten.SystemWritten | gem5-fresh/util/checkpoint_aggregator.py:119-121 | in the system's section pagePtr is the sum of the page counts and nextPID the number of checkpoints |
| CheckpointWritten.GlobalsWritten | gem5-fresh/util/checkpoint_aggregator.py:86-89 | in Globals curTick is at least every checkpoint's tick, and one of them or 0 |
| CheckpointWritten.StoreWritten | gem5-fresh/util/checkpoint_aggregator.py:123-140 | in the store's section range_size is at least the size wanted, less than a page above it when filled up, and the bytes written if and only if all images are full |
| CheckpointWritten.ProcessorWritten | gem5-fresh/util/checkpoint_aggregator.py:67-82 | each setting of a processor's section: addresses moved, M5_pid the checkpoint's number where files are listed, everything else unchanged |
| CheckpointWritten.FdMapIff | gem5-fresh/util/checkpoint_aggregator.py:81 | files are listed where the name ends in workload, one character and FdMap256 |
| CheckpointWritten.OthersCarried | gem5-fresh/util/checkpoint_aggregator.py:90-94 | every other setting of the last checkpoint, the store's size apart, is carried over unchanged |
| CheckpointWritten.NoOtherSections | gem5-fresh/util/checkpoint_aggregator.py:67-145 | nothing else is written |
| CheckpointWritten.FailsIff | gem5-fresh/util/checkpoint_aggregator.py:67-145 | the merge fails if and only if an address or a tick is no number or the last checkpoint has no store |
| Copyrights.RunsSeparated | gem5-fresh/util/find_copyrights.py:207-217 | the runs are in order with a year missing between any two |
| Copyrights.RunsCover | gem5-fresh/util/find_copyrights.py:207-217 | the runs cover exactly the years listed |
| Copyrights.DateStr | gem5-fresh/util/find_copyrights.py:195-220 | the runs' texts joined by commas; an empty list is an error |
| Copyrights.ProcessDates | gem5-fresh/util/find_copyrights.py:115-132 | the union of what the pieces mean |
| Copyrights.BlanksIgnored | gem5-fresh/util/find_copyrights.py:112-130 | blanks around a year or range and around its dash make no difference |
| Copyrights.HandwrittenList | gem5-fresh/util/find_copyrights.py:112-132 | any list of years and four-digit ranges with blanks wherever they may stand gives exactly their years |
| Copyrights.HandwrittenDates | gem5-fresh/util/find_copyrights.py:112-132 | 2001, 2003 - 2005 gives four years |
| Copyrights.ReadRun | gem5-fresh/util/find_copyrights.py:119-130 | reading a run invents no year; it gives all of them for single years and four-digit ranges, and otherwise loses the last |
| Copyrights.RoundTripIff | gem5-fresh/util/find_copyrights.py:115-220 | a set of years comes back if and only if every two neighbouring years in it have four digits |
| Copyrights.FiveDigitsAreLost | gem5-fresh/util/find_copyrights.py:112 | years 9999 and 10000 do not come back |
| Simulation.CheckpointsAsPlanned | gem5-fresh/configs/common/Simulation.py:246-283 | against every simulator: checkpoints at when, when + period, ... without a gap, those behind the first not past the last tick, at most as many as allowed (or one) |
| Simulation.PeriodsAsPlanned | gem5-fresh/configs/common/Simulation.py:265-281 | the same for the loop, from any of its states |
| Simulation.NoCheckpointLeftOut | gem5-fresh/configs/common/Simulation.py:246-283 | without guest checkpoints every planned tick up to and including the last is taken, up to the number allowed and the first call that stops short; a script out of ticks ends at the last tick |
| Simulation.PeriodsComplete | gem5-fresh/configs/common/Simulation.py:265-281 | the same for the loop |
| Simulation.GuestsCutTheScript | gem5-fresh/configs/common/Simulation.py:274-281 | the checkpoints taken are those of the run without guest checkpoints, cut one behind the first interrupted period |
| Simulation.GuestLosesACheckpoint | gem5-fresh/configs/common/Simulation.py:265-281 | three checkpoints asked for, two taken |
| Simulation.Simulator.Simulate | gem5-fresh/configs/common/Simulation.py:252-256 | a step of at most the limit; a negative limit is an error |
| Simulation.Simulator.SkipGuests | gem5-fresh/configs/common/Simulation.py:254-256 | calls again until another cause comes back |
| Simulation.Simulator.RunTo | gem5-fresh/configs/common/Simulation.py:252-256 | runs to a tick past all guest checkpoints |
| Simulation.Simulator.TakePeriods | gem5-fresh/configs/common/Simulation.py:262-281 | the loop over the periods |
| Simulation.Simulator.ScriptCheckpoints | gem5-fresh/configs/common/Simulation.py:246-283 | final tick, checkpoints taken and outcome |
| RepeatSwitch.SafeIff | gem5-fresh/configs/common/Simulation.py:453-471 | no simulator drives the loop past the last tick or into a negative limit if and only if a whole interval is left on entry |
| RepeatSwitch.CallerCheckIsNotEnough | gem5-fresh/configs/common/Simulation.py:809-812 | the caller's comparison admits a run that ends past the last tick |
| RepeatSwitch.RunningIsShort | gem5-fresh/configs/common/Simulation.py:453-471 | a run still going has used no more responses than whole intervals were left |
| RepeatSwitch.ZeroRateNeverEnds | gem5-fresh/configs/common/Simulation.py:453-471 | with rate zero and ticks left the loop of the function never ends |
| RepeatSwitch.EndsIff | gem5-fresh/configs/common/Simulation.py:453-471 | the loop ends against every simulator if and only if the rate is not zero or the last tick has been reached |
| RepeatSwitch.SwitchesEveryInterval | gem5-fresh/configs/common/Simulation.py:453-471 | against every simulator the processors are switched after every whole interval while limits are reached and more than one interval is left; then the rest is run at once |
| RepeatSwitch.Repeat | gem5-fresh/configs/common/Simulation.py:453-471 | final tick, outcome and switches; the pair lists handed over alternate |
| RepeatSwitch.SwapAll | gem5-fresh/configs/common/Simulation.py:464-467 | every pair turned round |
| LogRoll.ReadHolds | gem5-fresh/util/logroll.py:83-92 | between any two reads a dump shows exactly the lines to keep |
| LogRoll.Run | gem5-fresh/util/logroll.py:75-94 | prints the last target lines, or all of them when target is below one |
| LatMemRd.GridPow2 | gem5-fresh/configs/dram/lat_mem_rd.py:156-158 | on the sweep's values the bit test accepts exactly every fourth |
| LatMemRd.Ranges | gem5-fresh/configs/dram/lat_mem_rd.py:164-174 | the values are powers of two from 4096 on and their quarters, up to the first not below the largest |
| LatMemRd.EndsAtMaxIff | gem5-fresh/configs/dram/lat_mem_rd.py:161-174 | the list ends at the largest range if and only if that is such a value |
| LatMemRd.PowerOfTwoSweep | gem5-fresh/configs/dram/lat_mem_rd.py:161-174 | for a power of two it ends there and contains every smaller power from 4096 on |
| LatMemRd.GridIncreasing | gem5-fresh/configs/dram/lat_mem_rd.py:164-174 | the values increase strictly |
| LatMemRd.TracesFitIff | gem5-fresh/configs/dram/lat_mem_rd.py:205-234 | every trace ends before the period if and only if the list passes the largest range by less than a burst |
| LatMemRd.WholeBurstsFitIff | gem5-fresh/configs/dram/lat_mem_rd.py:205-234 | for memory of whole bursts: if and only if the list ends at the largest range |
| LatMemRd.CreateTrace | gem5-fresh/configs/dram/lat_mem_rd.py:205-224 | for any shuffle, every burst of the range is requested exactly once, 150000 ticks apart, the last at the range's last tick |

## Left out

- Predictor call sites at dispatch and writeback (`iew.cc:1087`, `iew.cc:1436`): they skip microops, and every x86 load is one (`macroop.isa:214`), so there the calls at commit are the only ones. With another instruction set each load is also predicted at dispatch and updated at writeback; the theorems of `MarkovHistory` and `AnyRunNeverWrong` hold for that order of calls too, but `CommitsLoseNothing`, `ConstantStrideLearned` and the theorems on mixtures are about the calls at commit, and that order is not described further.
- The copy of a load's bytes into the value passed to `update`, and the statistics' registration: no decision depends on them.
- Viewer: labels, colours, timestamps, text columns, reading fields out of a line, and records whose stages are all zero (an index error in the compact form).
- PipeViewTrace.StreamingEqualsSortThenFilter: for traces whose lines of one instruction stand together and whose starting bounds are not negative, as the simulator writes them and the option parser leaves them; with a last sequence number, the upper threshold is at least twice the lower, as 2000 and 1000 are. `StreamingIff` has no such condition.
- Downgraders: the file comment and `ready` disagree on what depending on a downgraded tag means, so registries hold upgraders only.
- What an upgrader does to the checkpoint, file backup and configuration parsing.
- CptRegistry.Registry.ProcessFile: the version information is given already read from the file, and whether the section for the tags exists after the upgrades is given too.
- Actual binding of simulator objects, and Python 2's comparison of connections: the binding pass is proved for every processing order.
- ProtoLib.InFile.ReadMessage: the payload stands for the parsed message; a payload the protocol buffer library rejects is not modelled.
- Number parsing covers a sign, ASCII digits and surrounding ASCII white space; digit separators and other scripts' digits are not modelled.
- InstDepTrace.RoundTripIff: failure is one outcome, whether the program exits or raises.
- The random tree of the memory tester is one more valid specification; object wiring below the level of caches, crossbars and testers is not modelled.
- CheckpointOutput.Aggregate: compression is transparent; values are text or numbers; page counts are not negative; any conversion error is one outcome and files written before it are not described.
- Copyrights.DateStr: takes the set as its sorted list.
- Finding copyright blocks, owners and authors in source files.
- Simulation at instruction counts, simulation points, fast-forwarding and benchmark checkpoints: calls into the simulator without a loop law.
- LogRoll.Run: a signal between storing a line and moving the index is not modelled.
- Simulation.Simulator.Simulate: the largest representable tick, at which the simulator would cap a limit, is not modelled.
- LatMemRd.TracesFitIff: the period is the exact quotient rounded down, as integers; the source divides in floating point (`lat_mem_rd.py:234`), which is the same while no bits are lost.
- The latency sweep's state file and the contents of its trace headers.
- Job launching, plotting, object settings and code generators: process control, ratios and templates.
