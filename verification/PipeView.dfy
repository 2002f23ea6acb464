/** The O3 pipeline viewer's streaming queue: instructions arrive out of order, wait in a bounded
    queue, and are printed in sequence-number order by partial flushes. */
module PipeView {
  import opened PipeViewOrder

  datatype StageKind = Decode | Rename | Dispatch | Issue | Complete

  /** One trace line: a line of another kind, or one of the per-stage lines of an instruction. */
  datatype Line =
    | Other
    | Fetch(tick: int, sn: int)
    | Stage(kind: StageKind, tick: int)
    | Retire(tick: int, store: int)

  /** Thresholds, the tick drift (2000 cycles in ticks), and the requested ranges. */
  datatype View = View(
    maxThreshold: nat, minThreshold: nat, tickDrift: int, storeCompletions: bool,
    snStart: int, snStop: int, tickStart: int, tickStop: int, onlyCommitted: bool)

  function SourceView(
    cycleTime: int, storeCompletions: bool, committedOnly: bool,
    startTick: int, stopTick: int, startSn: int, stopSn: int): View
  {
    View(2000, 1000, 2000 * cycleTime, storeCompletions,
         startSn, stopSn, startTick, stopTick, committedOnly)
  }

  const BLANK := Inst(0, 0, 0, 0, 0, 0, 0, 0, 0)

  /** The range filters applied when an instruction leaves the queue. */
  predicate Keep(v: View, x: Inst) {
    && !(v.snStart > 0 && x.sn < v.snStart)
    && !(v.snStop > 0 && x.sn > v.snStop)
    && !(v.tickStart > 0 && x.fetch < v.tickStart)
    && !(v.tickStop > 0 && x.fetch > v.tickStop)
    && !(v.onlyCommitted && x.retire == 0)
  }

  ghost function Filter(v: View, s: seq<Inst>): seq<Inst> {
    if s == [] then []
    else Filter(v, s[..|s| - 1]) + if Keep(v, s[|s| - 1]) then [s[|s| - 1]] else []
  }

  predicate Stops(v: View, tick: int, sn: int) {
    || (v.tickStop > 0 && tick > v.tickStop + v.tickDrift)
    || (v.snStop > 0 && sn > v.snStop + v.maxThreshold)
  }

  function SetStage(x: Inst, kind: StageKind, tick: int): Inst {
    match kind
    case Decode => x.(decode := tick)
    case Rename => x.(rename := tick)
    case Dispatch => x.(dispatch := tick)
    case Issue => x.(issue := tick)
    case Complete => x.(complete := tick)
  }

  function SetRetire(v: View, x: Inst, tick: int, store: int): Inst {
    var y := x.(retire := tick);
    if v.storeCompletions then y.(store := store) else y
  }

  // ------------------------------------------------- the queue

  /** Instructions popped so far (before filtering) and those still waiting. */
  datatype Stream = Stream(popped: seq<Inst>, queue: seq<Inst>)

  function PopTo(st: Stream, lower: nat): Stream {
    var s := SortBySn(st.queue);
    var k := if |s| > lower then |s| - lower else 0;
    Stream(st.popped + s[..k], s[k..])
  }

  function Enqueue(v: View, st: Stream, x: Inst): Stream {
    var q := st.(queue := st.queue + [x]);
    if |q.queue| > v.maxThreshold then PopTo(q, v.minThreshold) else q
  }

  /** The queue after all of `arr` has arrived in order. */
  ghost function Arrive(v: View, arr: seq<Inst>): Stream {
    if arr == [] then Stream([], [])
    else Enqueue(v, Arrive(v, arr[..|arr| - 1]), arr[|arr| - 1])
  }

  /** Everything popped, once the final flush has emptied the queue. */
  ghost function Popped(v: View, arr: seq<Inst>): seq<Inst> {
    var st := Arrive(v, arr);
    st.popped + SortBySn(st.queue)
  }

  // ------------------------------------------------- reading the trace

  /** The record being filled, after one more line. */
  function NextRecord(v: View, curr: Inst, line: Line): Inst {
    match line
    case Other => curr
    case Fetch(tick, sn) => curr.(fetch := tick, sn := sn)
    case Stage(kind, tick) => SetStage(curr, kind, tick)
    case Retire(tick, store) => SetRetire(v, curr, tick, store)
  }

  /** Instructions queued by the main loop from `lines` on, with `curr` as the record being filled. */
  ghost function Collect(v: View, lines: seq<Line>, curr: Inst): seq<Inst>
    decreases |lines|
  {
    if lines == [] then []
    else
      var rest := lines[1..];
      var next := NextRecord(v, curr, lines[0]);
      match lines[0]
      case Fetch(tick, sn) => if Stops(v, tick, sn) then [] else Collect(v, rest, next)
      case Retire(_, _) => [next] + Collect(v, rest, next)
      case _ => Collect(v, rest, next)
  }

  /** Whether the first skip loop stops at this line. */
  predicate Begins(v: View, line: Line) {
    if v.tickStart != 0 then !line.Other? && line.tick >= v.tickStart
    else if v.snStart != 0 then line.Fetch? && line.sn >= v.snStart
    else true
  }

  ghost function SkipToStart(v: View, lines: seq<Line>): (r: seq<Line>)
    ensures |r| <= |lines|
    decreases |lines|
  {
    if lines == [] || Begins(v, lines[0]) then lines else SkipToStart(v, lines[1..])
  }

  ghost function SkipToFetch(lines: seq<Line>): (r: seq<Line>)
    ensures |r| <= |lines|
    decreases |lines|
  {
    if lines == [] || lines[0].Fetch? then lines else SkipToFetch(lines[1..])
  }

  ghost function Queued(v: View, lines: seq<Line>): seq<Inst> {
    Collect(v, SkipToFetch(SkipToStart(v, lines)), BLANK)
  }

  // ------------------------------------------------- the viewer object

  class Viewer {
    const v: View
    var queue: seq<Inst>
    var printed: seq<Inst>
    /** Every instruction taken off the queue, printed or filtered out. */
    ghost var popped: seq<Inst>

    ghost predicate Valid()
      reads this
    {
      printed == Filter(v, popped)
    }

    ghost function Abs(): Stream
      reads this
    {
      Stream(popped, queue)
    }

    constructor (view: View)
      ensures Valid() && v == view && Abs() == Stream([], [])
    {
      v := view;
      queue, printed, popped := [], [], [];
    }

    /** Sort the queue, then pop and print from its front until `lower` instructions are left. */
    method PrintInsts(lower: nat)
      requires Valid()
      modifies this
      ensures Valid() && Abs() == PopTo(old(Abs()), lower)
    {
      queue := SortBySn(queue);
      ghost var s, before := queue, popped;
      while |queue| > lower
        invariant popped + queue == before + s
        invariant |queue| <= |s| && (|queue| < |s| ==> |queue| >= lower)
        invariant Valid()
      {
        var item := queue[0];
        FilterSnoc(v, popped, item);
        assert popped + queue == popped + [item] + queue[1..];
        queue := queue[1..];
        popped := popped + [item];
        if Keep(v, item) {
          printed := printed + [item];
        }
      }
      SplitEqual(popped, queue, before, s);
    }

    method QueueInst(x: Inst)
      requires Valid()
      modifies this
      ensures Valid() && Abs() == Enqueue(v, old(Abs()), x)
    {
      queue := queue + [x];
      if |queue| > v.maxThreshold {
        PrintInsts(v.minThreshold);
      }
    }

    method ProcessTrace(lines: seq<Line>)
      requires Valid() && Abs() == Stream([], [])
      modifies this
      ensures Valid() && queue == []
      ensures printed == Filter(v, Popped(v, Queued(v, lines)))
    {
      var pos, from := SkipLines(lines);
      ghost var arrived, end := ReadRegion(lines, pos);
      PopAll(Abs());
      PrintInsts(0);
      assert popped == Popped(v, arrived);
    }

    /** Skip to the first line `from` of the requested range, of any stage for a range of ticks and a
        fetch for a range of numbers, and from there to the next fetch. */
    method SkipLines(lines: seq<Line>) returns (pos: nat, ghost from: nat)
      ensures from <= pos <= |lines|
      ensures SkipToFetch(SkipToStart(v, lines)) == lines[pos..]
      ensures v.tickStart != 0 ==>
                && (forall k | 0 <= k < from :: lines[k].Other? || lines[k].tick < v.tickStart)
                && (from < |lines| ==> !lines[from].Other? && lines[from].tick >= v.tickStart)
      ensures v.tickStart == 0 && v.snStart != 0 ==>
                && (forall k | 0 <= k < from :: !lines[k].Fetch? || lines[k].sn < v.snStart)
                && (from < |lines| ==> lines[from].Fetch? && lines[from].sn >= v.snStart)
      ensures v.tickStart == 0 && v.snStart == 0 ==> from == 0
      ensures forall k | from <= k < pos :: !lines[k].Fetch?
      ensures pos < |lines| ==> lines[pos].Fetch?
    {
      ghost var target := SkipToStart(v, lines);
      pos := 0;
      assert lines[0..] == lines;
      while pos < |lines| && !Begins(v, lines[pos])
        invariant 0 <= pos <= |lines|
        invariant SkipToStart(v, lines[pos..]) == target
        invariant forall k | 0 <= k < pos :: !Begins(v, lines[k])
      {
        SkipStartNext(v, lines, pos);
        pos := pos + 1;
      }
      assert target == lines[pos..];
      from := pos;
      while pos < |lines| && !lines[pos].Fetch?
        invariant from <= pos <= |lines|
        invariant SkipToFetch(lines[pos..]) == SkipToFetch(target)
        invariant forall k | from <= k < pos :: !lines[k].Fetch?
      {
        SkipFetchNext(lines, pos);
        pos := pos + 1;
      }
    }

    /** The main loop: fill the current record line by line, queue it when it retires, and stop at
        the end of the trace or at the first fetch past the requested range and its margin. */
    method ReadRegion(lines: seq<Line>, start: nat) returns (ghost arrived: seq<Inst>, ghost end: nat)
      requires Valid() && Abs() == Stream([], []) && start <= |lines|
      modifies this
      ensures Valid() && arrived == Collect(v, lines[start..], BLANK) && Abs() == Arrive(v, arrived)
      ensures start <= end <= |lines|
      ensures forall k | start <= k < end && lines[k].Fetch? ::
                && (v.tickStop > 0 ==> lines[k].tick <= v.tickStop + v.tickDrift)
                && (v.snStop > 0 ==> lines[k].sn <= v.snStop + v.maxThreshold)
      ensures end < |lines| ==>
                && lines[end].Fetch?
                && (|| (v.tickStop > 0 && lines[end].tick > v.tickStop + v.tickDrift)
                    || (v.snStop > 0 && lines[end].sn > v.snStop + v.maxThreshold))
    {
      ghost var all := Collect(v, lines[start..], BLANK);
      arrived := [];
      var pos := start;
      var curr := BLANK;
      assert Arrive(v, []) == Stream([], []);
      hide Collect, Arrive, Enqueue, Filter;
      while pos < |lines| && !(lines[pos].Fetch? && Stops(v, lines[pos].tick, lines[pos].sn))
        invariant start <= pos <= |lines|
        invariant Valid() && Abs() == Arrive(v, arrived)
        invariant all == arrived + Collect(v, lines[pos..], curr)
        invariant forall k | start <= k < pos && lines[k].Fetch? :: !Stops(v, lines[k].tick, lines[k].sn)
      {
        CollectNext(v, lines, pos, curr, arrived);
        curr := ReadLine(lines[pos], curr);
        if lines[pos].Retire? {
          ArriveSnoc(v, arrived, curr);
          arrived := arrived + [curr];
        }
        pos := pos + 1;
      }
      CollectEnds(v, lines, pos, curr);
      end := pos;
    }

    /** One line of the trace: each field of the record is the line's when the line names it and stays
        what it was when not; only a retire queues the record, and nothing else is queued or lost. */
    method ReadLine(line: Line, curr: Inst) returns (next: Inst)
      requires Valid()
      modifies this
      ensures Valid()
      ensures next.sn == (if line.Fetch? then line.sn else curr.sn)
      ensures next.fetch == (if line.Fetch? then line.tick else curr.fetch)
      ensures next.decode == StageTick(line, Decode, curr.decode)
      ensures next.rename == StageTick(line, Rename, curr.rename)
      ensures next.dispatch == StageTick(line, Dispatch, curr.dispatch)
      ensures next.issue == StageTick(line, Issue, curr.issue)
      ensures next.complete == StageTick(line, Complete, curr.complete)
      ensures next.retire == (if line.Retire? then line.tick else curr.retire)
      ensures next.store == (if line.Retire? && v.storeCompletions then line.store else curr.store)
      ensures !line.Retire? ==> Abs() == old(Abs())
      ensures line.Retire? ==> Abs() == Enqueue(v, old(Abs()), next)
      ensures multiset(popped) + multiset(queue)
           == multiset(old(popped)) + multiset(old(queue)) + if line.Retire? then multiset{next} else multiset{}
    {
      next := curr;
      match line {
        case Other =>
        case Fetch(tick, sn) =>
          next := next.(fetch := tick, sn := sn);
        case Stage(kind, tick) =>
          next := SetStage(next, kind, tick);
        case Retire(tick, store) =>
          next := next.(retire := tick);
          if v.storeCompletions {
            next := next.(store := store);
          }
          EnqueueKeeps(v, Abs(), next);
          QueueInst(next);
      }
    }
  }

  /** A stage's tick after a line: the line's, if it is about that stage. */
  function StageTick(line: Line, kind: StageKind, tick: int): int {
    if line.Stage? && line.kind == kind then line.tick else tick
  }

  lemma {:induction false} PopToKeeps(st: Stream, lower: nat)
    ensures var st' := PopTo(st, lower);
            multiset(st'.popped) + multiset(st'.queue) == multiset(st.popped) + multiset(st.queue)
  {
    var s := SortBySn(st.queue);
    var n := if |s| > lower then |s| - lower else 0;
    SortMultiset(st.queue);
    assert s == s[..n] + s[n..];
  }

  lemma {:induction false} EnqueueKeeps(v: View, st: Stream, x: Inst)
    ensures var st' := Enqueue(v, st, x);
            multiset(st'.popped) + multiset(st'.queue)
            == multiset(st.popped) + multiset(st.queue) + multiset{x}
  {
    PopToKeeps(st.(queue := st.queue + [x]), v.minThreshold);
  }

  lemma {:induction false} SkipStartNext(v: View, lines: seq<Line>, pos: nat)
    requires pos < |lines| && !Begins(v, lines[pos])
    ensures SkipToStart(v, lines[pos..]) == SkipToStart(v, lines[pos + 1..])
  {
    assert lines[pos..][1..] == lines[pos + 1..];
  }

  lemma {:induction false} SkipFetchNext(lines: seq<Line>, pos: nat)
    requires pos < |lines| && !lines[pos].Fetch?
    ensures SkipToFetch(lines[pos..]) == SkipToFetch(lines[pos + 1..])
  {
    assert lines[pos..][1..] == lines[pos + 1..];
  }

  lemma {:induction false} CollectNext(v: View, lines: seq<Line>, pos: nat, curr: Inst, arrived: seq<Inst>)
    requires pos < |lines| && !(lines[pos].Fetch? && Stops(v, lines[pos].tick, lines[pos].sn))
    ensures var next := NextRecord(v, curr, lines[pos]);
            arrived + Collect(v, lines[pos..], curr)
            == (if lines[pos].Retire? then arrived + [next] else arrived) + Collect(v, lines[pos + 1..], next)
  {
    assert lines[pos..][1..] == lines[pos + 1..];
    var next := NextRecord(v, curr, lines[pos]);
    var rest := Collect(v, lines[pos + 1..], next);
    assert arrived + ([next] + rest) == arrived + [next] + rest;
  }

  lemma {:induction false} CollectEnds(v: View, lines: seq<Line>, pos: nat, curr: Inst)
    requires pos <= |lines|
    requires pos < |lines| ==> lines[pos].Fetch? && Stops(v, lines[pos].tick, lines[pos].sn)
    ensures Collect(v, lines[pos..], curr) == []
  {}

  lemma {:induction false} ArriveSnoc(v: View, arr: seq<Inst>, x: Inst)
    ensures Arrive(v, arr + [x]) == Enqueue(v, Arrive(v, arr), x)
  {
    assert (arr + [x])[..|arr|] == arr;
  }

  lemma {:induction false} FilterSnoc(v: View, s: seq<Inst>, x: Inst)
    ensures Filter(v, s + [x]) == Filter(v, s) + if Keep(v, x) then [x] else []
  {
    assert (s + [x])[..|s|] == s;
  }

  lemma {:induction false} PopAll(st: Stream)
    ensures PopTo(st, 0) == Stream(st.popped + SortBySn(st.queue), [])
  {
    var s := SortBySn(st.queue);
    assert s[..|s|] == s && s[|s|..] == [];
  }

  lemma {:induction false} SplitEqual(a: seq<Inst>, b: seq<Inst>, c: seq<Inst>, d: seq<Inst>)
    requires a + b == c + d && |b| <= |d|
    ensures a == c + d[..|d| - |b|] && b == d[|d| - |b|..]
  {
    assert a == (a + b)[..|a|] == (c + d)[..|a|];
    assert b == (a + b)[|a|..] == (c + d)[|a|..];
  }
}
