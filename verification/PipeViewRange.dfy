/** What a run of the viewer prints for the ranges and options it was given. */
module PipeViewRange {
  import opened PipeViewOrder
  import opened PipeView
  import opened PipeViewWindow
  import opened PipeViewTrace
  import opened PipeViewExact

  /** Inside the ranges asked for, ends included, where zero or less asks for none; and committed, if
      only committed instructions are wanted. */
  ghost predicate Requested(
    startTick: int, stopTick: int, startSn: int, stopSn: int, committedOnly: bool, x: Inst)
  {
    && (startSn > 0 ==> x.sn >= startSn)
    && (stopSn > 0 ==> x.sn <= stopSn)
    && (startTick > 0 ==> x.fetch >= startTick)
    && (stopTick > 0 ==> x.fetch <= stopTick)
    && (committedOnly ==> x.retire != 0)
  }

  lemma {:induction false} PrintedCount(v: View, lines: seq<Line>, x: Inst)
    ensures multiset(Filter(v, Popped(v, Queued(v, lines))))[x]
         == if Requested(v.tickStart, v.tickStop, v.snStart, v.snStop, v.onlyCommitted, x)
            then multiset(Queued(v, lines))[x] else 0
  {
    hide Popped, Queued, Filter;
    PoppedIsPermutation(v, Queued(v, lines));
    FilterCount(v, Popped(v, Queued(v, lines)), x);
  }

  lemma {:induction false} OrderlyCount(v: View, lines: seq<Line>, x: Inst)
    requires Framed(lines) && v.tickStart >= 0 && v.snStart >= 0
    requires v.snStop > 0 ==> v.maxThreshold >= 2 * v.minThreshold
    requires Orderly(v, Insts(v, lines))
    ensures multiset(Filter(v, Popped(v, Queued(v, lines))))[x]
         == if Requested(v.tickStart, v.tickStop, v.snStart, v.snStop, v.onlyCommitted, x)
            then multiset(Insts(v, lines))[x] else 0
  {
    hide Popped, Queued, Filter, Insts, SortBySn, Framed, Orderly;
    StreamingEqualsSortThenFilter(v, lines);
    SortMultiset(Insts(v, lines));
    FilterCount(v, SortBySn(Insts(v, lines)), x);
  }

  lemma {:induction false} OrderlySorted(v: View, lines: seq<Line>)
    requires Framed(lines) && v.tickStart >= 0 && v.snStart >= 0
    requires v.snStop > 0 ==> v.maxThreshold >= 2 * v.minThreshold
    requires Orderly(v, Insts(v, lines))
    ensures Sorted(Filter(v, Popped(v, Queued(v, lines))))
  {
    hide Popped, Queued, Filter, Insts, SortBySn, Framed, Orderly;
    StreamingEqualsSortThenFilter(v, lines);
    FilterSort(v, Insts(v, lines));
    SortSorts(Filter(v, Insts(v, lines)));
  }

  /** One run: of what was read, exactly the instructions asked for are printed, each as often as it was
      read; on an orderly trace these are all of the trace's, in number order. */
  method PrintRange(
    lines: seq<Line>, cycleTime: int, committedOnly: bool, storeCompletions: bool,
    startTick: int, stopTick: int, startSn: int, stopSn: int) returns (printed: seq<Inst>)
    ensures var v := SourceView(cycleTime, storeCompletions, committedOnly, startTick, stopTick, startSn, stopSn);
            forall x: Inst :: multiset(printed)[x]
              == if Requested(startTick, stopTick, startSn, stopSn, committedOnly, x)
                 then multiset(Queued(v, lines))[x] else 0
    ensures var v := SourceView(cycleTime, storeCompletions, committedOnly, startTick, stopTick, startSn, stopSn);
            Framed(lines) && startTick >= 0 && startSn >= 0 && Orderly(v, Insts(v, lines)) ==>
              && Sorted(printed)
              && forall x: Inst :: multiset(printed)[x]
                   == if Requested(startTick, stopTick, startSn, stopSn, committedOnly, x)
                      then multiset(Insts(v, lines))[x] else 0
  {
    hide Popped, Queued, Filter, Insts, SortBySn, Framed, Orderly, Requested;
    var v := SourceView(cycleTime, storeCompletions, committedOnly, startTick, stopTick, startSn, stopSn);
    var viewer := new Viewer(v);
    viewer.ProcessTrace(lines);
    printed := viewer.printed;
    forall x: Inst { PrintedCount(v, lines, x); }
    if Framed(lines) && startTick >= 0 && startSn >= 0 && Orderly(v, Insts(v, lines)) {
      OrderlySorted(v, lines);
      forall x: Inst { OrderlyCount(v, lines, x); }
    }
  }

  /** What is read of a framed trace: from a point before which nothing was asked for, up to the first
      instruction fetched more than 2000 cycles behind the last tick or numbered more than 2000 behind
      the last number. */
  lemma {:induction false} ReadUpToMargin(
    lines: seq<Line>, cycleTime: int, committedOnly: bool, storeCompletions: bool,
    startTick: nat, stopTick: int, startSn: nat, stopSn: int) returns (c: nat, n: nat)
    requires Framed(lines)
    ensures var v := SourceView(cycleTime, storeCompletions, committedOnly, startTick, stopTick, startSn, stopSn);
            var arr := Insts(v, lines);
            && c <= n <= |arr| && Queued(v, lines) == arr[c..n]
            && (forall i | 0 <= i < c :: !Requested(startTick, stopTick, startSn, stopSn, committedOnly, arr[i]))
            && (forall i | c <= i < n ::
                  && (stopTick > 0 ==> arr[i].fetch <= stopTick + 2000 * cycleTime)
                  && (stopSn > 0 ==> arr[i].sn <= stopSn + 2000))
            && (n < |arr| ==>
                  || (stopTick > 0 && arr[n].fetch > stopTick + 2000 * cycleTime)
                  || (stopSn > 0 && arr[n].sn > stopSn + 2000))
  {
    hide Framed, Insts, Queued;
    var v := SourceView(cycleTime, storeCompletions, committedOnly, startTick, stopTick, startSn, stopSn);
    var arr := Insts(v, lines);
    c := QueuedSlice(v, lines);
    var sub := arr[c..];
    n := c + FirstStop(v, sub);
    assert sub[..n - c] == arr[c..n];
    forall i | c <= i < n ensures !Stops(v, arr[i].fetch, arr[i].sn) {
      BeforeFirstStop(v, sub, i - c);
    }
  }

  lemma {:induction false} BeforeFirstStop(v: View, arr: seq<Inst>, i: nat)
    requires i < FirstStop(v, arr)
    ensures !Stops(v, arr[i].fetch, arr[i].sn)
  {
    hide Stops;
    if i > 0 { BeforeFirstStop(v, arr[1..], i - 1); }
  }

  /** Instructions wait until more than 2000 have gathered and then leave until 1000 are left: the first
      flush is at arrival 2001, and from there on 1001 leave at every 1001st arrival. */
  lemma {:induction false} LeavesAThousandAtATime(
    arr: seq<Inst>, cycleTime: int, committedOnly: bool, storeCompletions: bool,
    startTick: int, stopTick: int, startSn: int, stopSn: int)
    ensures var v := SourceView(cycleTime, storeCompletions, committedOnly, startTick, stopTick, startSn, stopSn);
            |Arrive(v, arr).popped| == if |arr| <= 2000 then 0 else 1001 * ((|arr| - 1000) / 1001)
  {
    var v := SourceView(cycleTime, storeCompletions, committedOnly, startTick, stopTick, startSn, stopSn);
    hide Arrive;
    ArriveSizes(v, arr);
    ThousandCount(v, |arr|);
  }

  lemma {:induction false} ThousandCount(v: View, n: nat)
    requires v.maxThreshold == 2000 && v.minThreshold == 1000
    ensures PoppedCount(v, n) == if n <= 2000 then 0 else 1001 * ((n - 1000) / 1001)
  {
    if n == 0 {
    } else {
      ThousandCount(v, n - 1);
    }
  }
}
