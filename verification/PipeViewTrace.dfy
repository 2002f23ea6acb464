/** From the lines of a whole trace to the printed instructions: skipping to the start, stopping
    early and printing through the bounded queue lose nothing and keep the order. */
module PipeViewTrace {
  import opened PipeViewOrder
  import opened PipeView
  import opened PipeViewWindow

  // ------------------------------------------------- filtering and sorting commute

  lemma {:induction false} FilterAppend(v: View, a: seq<Inst>, b: seq<Inst>)
    ensures Filter(v, a + b) == Filter(v, a) + Filter(v, b)
  {
    if b == [] {
      assert a + b == a;
    } else {
      FilterAppend(v, a, b[..|b| - 1]);
      assert (a + b)[..|a + b| - 1] == a + b[..|b| - 1];
    }
  }

  lemma {:induction false} FilterNone(v: View, s: seq<Inst>)
    requires forall i | 0 <= i < |s| :: !Keep(v, s[i])
    ensures Filter(v, s) == []
  {
    if s == [] {
    } else {
      FilterNone(v, s[..|s| - 1]);
    }
  }

  lemma {:induction false} FilterWithin(v: View, s: seq<Inst>, k: int)
    requires NoneAbove(s, k)
    ensures NoneAbove(Filter(v, s), k)
  {
    if s == [] {
    } else {
      FilterWithin(v, s[..|s| - 1], k);
    }
  }

  lemma {:induction false} InsertLast(x: Inst, s: seq<Inst>)
    requires NoneAbove(s, x.sn)
    ensures Insert(x, s) == s + [x]
  {
    if s != [] { assert s[|s| - 1].sn <= x.sn; }
  }

  lemma {:induction false} InsertBefore(x: Inst, s: seq<Inst>, y: Inst)
    requires y.sn > x.sn
    ensures Insert(x, s + [y]) == Insert(x, s) + [y]
  {
    assert (s + [y])[..|s|] == s;
  }

  lemma {:induction false} FilterInsert(v: View, x: Inst, s: seq<Inst>)
    requires Sorted(s)
    ensures Filter(v, Insert(x, s)) == if Keep(v, x) then Insert(x, Filter(v, s)) else Filter(v, s)
  {
    hide Keep;
    if s == [] || s[|s| - 1].sn <= x.sn {
      assert NoneAbove(s, x.sn);
      InsertLast(x, s);
      FilterSnoc(v, s, x);
      FilterWithin(v, s, x.sn);
      InsertLast(x, Filter(v, s));
    } else {
      var init, last := s[..|s| - 1], s[|s| - 1];
      assert s == init + [last];
      InsertBefore(x, init, last);
      FilterInsert(v, x, init);
      FilterSnoc(v, Insert(x, init), last);
      FilterSnoc(v, init, last);
      InsertBefore(x, Filter(v, init), last);
      assert Filter(v, Insert(x, init)) + [] == Filter(v, Insert(x, init));
      assert Filter(v, init) + [] == Filter(v, init);
    }
  }

  lemma {:induction false} FilterSort(v: View, s: seq<Inst>)
    ensures Filter(v, SortBySn(s)) == SortBySn(Filter(v, s))
  {
    if s == [] {
    } else {
      var init, last := s[..|s| - 1], s[|s| - 1];
      FilterSort(v, init);
      SortSorts(init);
      FilterInsert(v, last, SortBySn(init));
      SortSnoc(Filter(v, init), last);
      assert Filter(v, init) + [] == Filter(v, init);
    }
  }

  // ------------------------------------------------- well-framed traces

  /** The viewer expects the stage lines of one instruction together, fetch to retire. */
  ghost predicate IsBlock(lines: seq<Line>) {
    && |lines| >= 7
    && lines[0].Fetch?
    && lines[1].Stage? && lines[1].kind == Decode
    && lines[2].Stage? && lines[2].kind == Rename
    && lines[3].Stage? && lines[3].kind == Dispatch
    && lines[4].Stage? && lines[4].kind == Issue
    && lines[5].Stage? && lines[5].kind == Complete
    && lines[6].Retire?
  }

  ghost predicate Framed(lines: seq<Line>)
    decreases |lines|
  {
    || lines == []
    || (lines[0].Other? && Framed(lines[1..]))
    || (IsBlock(lines) && Framed(lines[7..]))
  }

  ghost function BlockInst(v: View, lines: seq<Line>): Inst
    requires IsBlock(lines)
  {
    Inst(lines[0].sn, lines[0].tick, lines[1].tick, lines[2].tick, lines[3].tick, lines[4].tick,
         lines[5].tick, lines[6].tick, if v.storeCompletions then lines[6].store else 0)
  }

  /** Every instruction of the trace, in arrival order. */
  ghost function Insts(v: View, lines: seq<Line>): seq<Inst>
    requires Framed(lines)
    decreases |lines|
  {
    if lines == [] then []
    else if lines[0].Other? then Insts(v, lines[1..])
    else [BlockInst(v, lines)] + Insts(v, lines[7..])
  }

  /** Index of the first instruction whose fetch ends the scan. */
  ghost function FirstStop(v: View, arr: seq<Inst>): (n: nat)
    ensures n <= |arr|
    ensures n < |arr| ==> Stops(v, arr[n].fetch, arr[n].sn)
  {
    if arr == [] || Stops(v, arr[0].fetch, arr[0].sn) then 0 else 1 + FirstStop(v, arr[1..])
  }

  lemma {:induction false} CollectOne(v: View, lines: seq<Line>, pos: nat, curr: Inst)
    requires pos < |lines| && !(lines[pos].Fetch? && Stops(v, lines[pos].tick, lines[pos].sn))
    requires !lines[pos].Retire?
    ensures Collect(v, lines[pos..], curr)
         == Collect(v, lines[pos + 1..], NextRecord(v, curr, lines[pos]))
  {
    assert lines[pos..][1..] == lines[pos + 1..];
  }

  /** A complete block overwrites every field of the current record. */
  lemma {:induction false} CollectBlock(v: View, lines: seq<Line>, curr: Inst)
    requires IsBlock(lines) && !Stops(v, lines[0].tick, lines[0].sn)
    requires !v.storeCompletions ==> curr.store == 0
    ensures Collect(v, lines, curr)
         == [BlockInst(v, lines)] + Collect(v, lines[7..], BlockInst(v, lines))
  {
    var c1 := NextRecord(v, curr, lines[0]);
    var c2 := NextRecord(v, c1, lines[1]);
    var c3 := NextRecord(v, c2, lines[2]);
    var c4 := NextRecord(v, c3, lines[3]);
    var c5 := NextRecord(v, c4, lines[4]);
    var c6 := NextRecord(v, c5, lines[5]);
    assert NextRecord(v, c6, lines[6]) == BlockInst(v, lines);
    CollectBlockSteps(v, lines, curr, c1, c2, c3, c4, c5, c6);
  }

  lemma {:induction false} CollectBlockSteps(
    v: View, lines: seq<Line>, c0: Inst, c1: Inst, c2: Inst, c3: Inst, c4: Inst, c5: Inst, c6: Inst)
    requires IsBlock(lines) && !Stops(v, lines[0].tick, lines[0].sn)
    requires c1 == NextRecord(v, c0, lines[0]) && c2 == NextRecord(v, c1, lines[1])
    requires c3 == NextRecord(v, c2, lines[2]) && c4 == NextRecord(v, c3, lines[3])
    requires c5 == NextRecord(v, c4, lines[4]) && c6 == NextRecord(v, c5, lines[5])
    ensures var done := NextRecord(v, c6, lines[6]);
            Collect(v, lines, c0) == [done] + Collect(v, lines[7..], done)
  {
    hide NextRecord;
    assert lines[0..] == lines;
    CollectOne(v, lines, 0, c0);
    CollectOne(v, lines, 1, c1);
    CollectOne(v, lines, 2, c2);
    CollectOne(v, lines, 3, c3);
    CollectOne(v, lines, 4, c4);
    CollectOne(v, lines, 5, c5);
    assert lines[6..][1..] == lines[7..];
  }

  /** The main loop queues the trace's instructions up to the first stopping fetch. */
  lemma {:induction false} CollectFramed(v: View, lines: seq<Line>, curr: Inst)
    requires Framed(lines) && (!v.storeCompletions ==> curr.store == 0)
    ensures var arr := Insts(v, lines); Collect(v, lines, curr) == arr[..FirstStop(v, arr)]
    decreases |lines|
  {
    if lines == [] {
    } else {
      if lines[0].Other? {
        CollectFramed(v, lines[1..], curr);
      } else if !Stops(v, lines[0].tick, lines[0].sn) {
        var x, rest := BlockInst(v, lines), Insts(v, lines[7..]);
        CollectBlock(v, lines, curr);
        CollectFramed(v, lines[7..], x);
        var arr := Insts(v, lines);
        assert arr[1..] == rest;
        assert arr[..1 + FirstStop(v, rest)] == [x] + rest[..FirstStop(v, rest)];
      }
    }
  }

  // ------------------------------------------------- skipping to the start

  /** `lines` starts with the last `j` lines of an instruction that has already begun. */
  ghost predicate Mid(lines: seq<Line>, j: nat) {
    && j <= |lines|
    && (forall i | 0 <= i < j :: !lines[i].Fetch?)
    && Framed(lines[j..])
  }

  ghost predicate AllDropped(v: View, arr: seq<Inst>, c: nat) {
    c <= |arr| && forall i | 0 <= i < c :: !Keep(v, arr[i])
  }

  lemma {:induction false} MidTail(lines: seq<Line>, j: nat)
    requires Mid(lines, j) && 0 < j
    ensures Mid(lines[1..], j - 1) && lines[1..][j - 1..] == lines[j..]
  {
    assert lines[1..][j - 1..] == lines[j..];
  }

  lemma {:induction false} MidBlock(lines: seq<Line>)
    requires Framed(lines) && lines != [] && lines[0].Fetch?
    ensures IsBlock(lines) && Mid(lines[1..], 6) && lines[1..][6..] == lines[7..]
  {
    assert lines[1..][6..] == lines[7..];
  }

  /** The first skip loop drops only instructions that the filters would reject. */
  lemma {:induction false} SkipStartDrops(v: View, lines: seq<Line>, j: nat)
    returns (j': nat, c: nat)
    requires Mid(lines, j) && v.tickStart >= 0 && v.snStart >= 0
    ensures var r := SkipToStart(v, lines);
            && Mid(r, j')
            && AllDropped(v, Insts(v, lines[j..]), c)
            && Insts(v, r[j'..]) == Insts(v, lines[j..])[c..]
    decreases |lines|
  {
    if lines == [] || Begins(v, lines[0]) {
      j', c := j, 0;
    } else if j > 0 {
      MidTail(lines, j);
      j', c := SkipStartDrops(v, lines[1..], j - 1);
    } else {
      assert lines[0..] == lines;
      if lines[0].Other? {
        assert lines[1..][0..] == lines[1..];
        j', c := SkipStartDrops(v, lines[1..], 0);
      } else {
        MidBlock(lines);
        var k;
        j', k := SkipStartDrops(v, lines[1..], 6);
        c := k + 1;
        assert Insts(v, lines) == [BlockInst(v, lines)] + Insts(v, lines[7..]);
      }
    }
  }

  /** The second skip loop passes only the rest of an instruction already under way. */
  lemma {:induction false} SkipFetchKeeps(v: View, lines: seq<Line>, j: nat)
    requires Mid(lines, j)
    ensures var r := SkipToFetch(lines); Framed(r) && Insts(v, r) == Insts(v, lines[j..])
    decreases |lines|
  {
    if lines == [] || lines[0].Fetch? {
      assert j == 0 && lines[0..] == lines;
    } else if j > 0 {
      MidTail(lines, j);
      SkipFetchKeeps(v, lines[1..], j - 1);
    } else {
      assert lines[0..] == lines && lines[1..][0..] == lines[1..];
      SkipFetchKeeps(v, lines[1..], 0);
    }
  }

  /** What the viewer queues: the trace's instructions without a rejected prefix, up to the first
      stopping fetch. */
  lemma {:induction false} QueuedSlice(v: View, lines: seq<Line>) returns (c: nat)
    requires Framed(lines) && v.tickStart >= 0 && v.snStart >= 0
    ensures AllDropped(v, Insts(v, lines), c)
    ensures var sub := Insts(v, lines)[c..]; Queued(v, lines) == sub[..FirstStop(v, sub)]
  {
    assert lines[0..] == lines;
    var j;
    j, c := SkipStartDrops(v, lines, 0);
    SkipFetchKeeps(v, SkipToStart(v, lines), j);
    CollectFramed(v, SkipToFetch(SkipToStart(v, lines)), BLANK);
  }

  // ------------------------------------------------- displacement and early stop

  lemma {:induction false} RankDrop(arr: seq<Inst>, c: nat, a: nat)
    requires c + a < |arr|
    ensures Rank(arr[c..], a) >= Rank(arr, c + a) - c
  {
    var k := arr[c + a].sn;
    assert arr[c..][..a] == arr[..c + a][c..];
    assert arr[c..][a + 1..] == arr[c + a + 1..];
    CountSplit(arr[..c + a], k, c);
  }

  lemma {:induction false} NotTooLateDrop(v: View, arr: seq<Inst>, c: nat)
    requires NotTooLate(v, arr) && c <= |arr|
    ensures PlaceOpen(v, arr[c..])
  {
    forall a: nat | a < |arr[c..]| ensures Rank(arr[c..], a) >= PoppedCount(v, a) {
      RankDrop(arr, c, a);
      assert c + a - Rank(arr, c + a) <= v.minThreshold;
    }
  }

  /** No instruction arrives more than `minThreshold` places before its sorted rank. */
  ghost predicate NotTooEarly(v: View, arr: seq<Inst>) {
    forall a: nat | a < |arr| :: Rank(arr, a) - a <= v.minThreshold
  }

  /** Once sorted, the sequence numbers are consecutive. */
  ghost predicate Contiguous(arr: seq<Inst>) {
    forall i | 0 < i < |arr| :: SortBySn(arr)[i].sn == SortBySn(arr)[0].sn + i
  }

  /** Fetch ticks are out of order by at most the drift. */
  ghost predicate Drifts(v: View, arr: seq<Inst>) {
    forall a, b | 0 <= a <= b < |arr| :: arr[b].fetch >= arr[a].fetch - v.tickDrift
  }

  lemma {:induction false} ContiguousRank(arr: seq<Inst>, a: nat)
    requires Contiguous(arr) && a < |arr|
    ensures arr[a].sn == SortBySn(arr)[0].sn + Rank(arr, a)
  {
    RankIsPosition(arr, a);
  }

  /** Past a stopping fetch, nothing in range is left to arrive. */
  lemma {:induction false} NothingAfterStop(v: View, arr: seq<Inst>, e: nat, b: nat)
    requires e <= b < |arr| && Stops(v, arr[e].fetch, arr[e].sn)
    requires v.tickStop > 0 ==> Drifts(v, arr)
    requires v.snStop > 0 ==> Contiguous(arr) && NotTooLate(v, arr) && NotTooEarly(v, arr)
    requires v.snStop > 0 ==> v.maxThreshold >= 2 * v.minThreshold
    ensures !Keep(v, arr[b])
  {
    if v.snStop > 0 && arr[e].sn > v.snStop + v.maxThreshold {
      ContiguousRank(arr, e);
      ContiguousRank(arr, b);
      assert b - Rank(arr, b) <= v.minThreshold && Rank(arr, e) - e <= v.minThreshold;
    }
  }

  /** The assumptions the viewer's comments state, for the ranges that were requested. */
  ghost predicate Orderly(v: View, arr: seq<Inst>) {
    && NotTooLate(v, arr)
    && (v.tickStop > 0 ==> Drifts(v, arr))
    && (v.snStop > 0 ==> Contiguous(arr) && NotTooEarly(v, arr))
  }

  lemma {:induction false} SliceKeepsAll(v: View, arr: seq<Inst>, c: nat)
    requires Orderly(v, arr) && AllDropped(v, arr, c)
    requires v.snStop > 0 ==> v.maxThreshold >= 2 * v.minThreshold
    ensures var sub := arr[c..]; Filter(v, sub[..FirstStop(v, sub)]) == Filter(v, arr)
  {
    hide Filter, Keep, NotTooLate, NotTooEarly, Drifts, Contiguous;
    var sub := arr[c..];
    var n := FirstStop(v, sub);
    var tail := sub[n..];
    forall i | 0 <= i < |tail| ensures !Keep(v, tail[i]) {
      NothingAfterStop(v, arr, c + n, c + n + i);
    }
    FilterNone(v, tail);
    FilterNone(v, arr[..c]);
    assert arr == arr[..c] + sub && sub == sub[..n] + tail;
    FilterAppend(v, arr[..c], sub);
    FilterAppend(v, sub[..n], tail);
  }

  /** The whole run: on an orderly trace, whatever ranges are requested, the streaming viewer
      prints exactly the trace's instructions, sorted and then filtered. */
  lemma {:induction false} StreamingEqualsSortThenFilter(v: View, lines: seq<Line>)
    requires Framed(lines) && v.tickStart >= 0 && v.snStart >= 0
    requires v.snStop > 0 ==> v.maxThreshold >= 2 * v.minThreshold
    requires Orderly(v, Insts(v, lines))
    ensures Filter(v, Popped(v, Queued(v, lines))) == Filter(v, SortBySn(Insts(v, lines)))
  {
    var arr := Insts(v, lines);
    var c := QueuedSlice(v, lines);
    var sub := arr[c..];
    var n := FirstStop(v, sub);
    NotTooLateDrop(v, arr, c);
    PlaceOpenOnTime(v, sub, n);
    FilterSort(v, sub[..n]);
    SliceKeepsAll(v, arr, c);
    FilterSort(v, arr);
  }

  /** The same with the source's thresholds of 2000 and 1000 and its drift of 2000 cycles. */
  lemma {:induction false} ViewerPrintsSortedRange(
    cycleTime: int, storeCompletions: bool, committedOnly: bool,
    startTick: nat, stopTick: int, startSn: nat, stopSn: int, lines: seq<Line>)
    requires var v := SourceView(cycleTime, storeCompletions, committedOnly, startTick, stopTick, startSn, stopSn);
             Framed(lines) && Orderly(v, Insts(v, lines))
    ensures var v := SourceView(cycleTime, storeCompletions, committedOnly, startTick, stopTick, startSn, stopSn);
            Filter(v, Popped(v, Queued(v, lines))) == Filter(v, SortBySn(Insts(v, lines)))
  {
    var v := SourceView(cycleTime, storeCompletions, committedOnly, startTick, stopTick, startSn, stopSn);
    StreamingEqualsSortThenFilter(v, lines);
  }
}
