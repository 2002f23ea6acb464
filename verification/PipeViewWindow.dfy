/** When the pipeline viewer's bounded queue prints in order: exactly when no instruction arrives
    after its place in the sorted sequence has already been printed. */
module PipeViewWindow {
  import opened PipeViewOrder
  import opened PipeView

  /** How many instructions have left the queue once `n` have arrived. */
  ghost function PoppedCount(v: View, n: nat): (p: nat)
    ensures p <= n
    ensures p == 0 || p + v.minThreshold <= n
  {
    if n == 0 then 0
    else
      var p := PoppedCount(v, n - 1);
      if n - p > v.maxThreshold && n - p > v.minThreshold then n - v.minThreshold else p
  }

  lemma {:induction false} PoppedCountMonotone(v: View, m: nat, n: nat)
    requires m <= n
    ensures PoppedCount(v, m) <= PoppedCount(v, n)
  {
    if m < n { PoppedCountMonotone(v, m, n - 1); }
  }

  lemma {:induction false} ArriveSizes(v: View, arr: seq<Inst>)
    ensures |Arrive(v, arr).popped| == PoppedCount(v, |arr|)
    ensures |Arrive(v, arr).queue| == |arr| - PoppedCount(v, |arr|)
  {
    if arr == [] {
    } else {
      ArriveSizes(v, arr[..|arr| - 1]);
    }
  }

  lemma {:induction false} PopToCounts(st: Stream, lower: nat, k: int)
    ensures var st' := PopTo(st, lower);
            CountAtMost(st'.popped, k) + CountAtMost(st'.queue, k)
            == CountAtMost(st.popped, k) + CountAtMost(st.queue, k)
  {
    var s := SortBySn(st.queue);
    var n := if |s| > lower then |s| - lower else 0;
    CountSort(st.queue, k);
    CountSplit(s, k, n);
    CountAppend(st.popped, s[..n], k);
  }

  lemma {:induction false} ArriveCounts(v: View, arr: seq<Inst>, k: int)
    ensures var st := Arrive(v, arr);
            CountAtMost(st.popped, k) + CountAtMost(st.queue, k) == CountAtMost(arr, k)
  {
    if arr == [] {
    } else {
      var init, x := arr[..|arr| - 1], arr[|arr| - 1];
      ArriveCounts(v, init, k);
      var st := Arrive(v, init);
      var q := st.(queue := st.queue + [x]);
      assert q.queue[..|st.queue|] == st.queue;
      PopToCounts(q, v.minThreshold, k);
    }
  }

  /** Nothing is lost or duplicated between the queue and the output. */
  lemma {:induction false} ArriveKeeps(v: View, arr: seq<Inst>)
    ensures var st := Arrive(v, arr); multiset(st.popped) + multiset(st.queue) == multiset(arr)
  {
    hide SortBySn;
    if arr == [] {
    } else {
      var init, x := arr[..|arr| - 1], arr[|arr| - 1];
      ArriveKeeps(v, init);
      var st := Arrive(v, init);
      EnqueueKeeps(v, st, x);
      assert arr == init + [x];
      assert multiset(arr) == multiset(init) + multiset{x};
    }
  }

  // ------------------------------------------------- on time implies sorted

  ghost predicate NoneAbove(s: seq<Inst>, k: int) {
    forall i | 0 <= i < |s| :: s[i].sn <= k
  }

  /** Instruction `a` arrives before anything with a larger number has been printed. */
  ghost predicate OnTime(v: View, arr: seq<Inst>, a: nat)
    requires a < |arr|
  {
    NoneAbove(Arrive(v, arr[..a]).popped, arr[a].sn)
  }

  ghost predicate AllOnTime(v: View, arr: seq<Inst>, n: nat)
    requires n <= |arr|
  {
    n > 0 ==> AllOnTime(v, arr, n - 1) && OnTime(v, arr, n - 1)
  }

  lemma {:induction false} SortedSlice(s: seq<Inst>, k: nat)
    requires Sorted(s) && k <= |s|
    ensures Sorted(s[k..])
  {}

  lemma {:induction false} PopToSorts(st: Stream, lower: nat)
    ensures var st' := PopTo(st, lower);
            st'.popped + SortBySn(st'.queue) == st.popped + SortBySn(st.queue)
  {
    var s := SortBySn(st.queue);
    var n := if |s| > lower then |s| - lower else 0;
    SortSorts(st.queue);
    SortedSlice(s, n);
    SortFixed(s[n..]);
    assert st.popped + s[..n] + s[n..] == st.popped + s;
  }

  lemma {:induction false} EnqueueSorts(v: View, st: Stream, x: Inst)
    requires NoneAbove(st.popped, x.sn)
    ensures var st' := Enqueue(v, st, x);
            st'.popped + SortBySn(st'.queue) == Insert(x, st.popped + SortBySn(st.queue))
  {
    SortSnoc(st.queue, x);
    InsertBehind(x, st.popped, SortBySn(st.queue));
    PopToSorts(st.(queue := st.queue + [x]), v.minThreshold);
  }

  lemma {:induction false} PoppedNext(v: View, arr: seq<Inst>, n: nat)
    requires n < |arr| && OnTime(v, arr, n)
    requires Popped(v, arr[..n]) == SortBySn(arr[..n])
    ensures Popped(v, arr[..n + 1]) == SortBySn(arr[..n + 1])
  {
    hide SortBySn;
    var init, x := arr[..n], arr[n];
    EnqueueSorts(v, Arrive(v, init), x);
    SortSnoc(init, x);
    ArriveSnoc(v, init, x);
    assert arr[..n + 1] == init + [x];
  }

  /** Being on time depends only on earlier arrivals, so a trace may be cut short anywhere. */
  lemma {:induction false} OnTimeSorts(v: View, arr: seq<Inst>, n: nat)
    requires n <= |arr| && AllOnTime(v, arr, n)
    ensures Popped(v, arr[..n]) == SortBySn(arr[..n])
  {
    if n == 0 {
    } else {
      OnTimeSorts(v, arr, n - 1);
      PoppedNext(v, arr, n - 1);
    }
  }

  // ------------------------------------------------- rank implies on time

  /** The first of the smallest instructions among arr[a..]. */
  lemma {:induction false} FirstSmallest(arr: seq<Inst>, a: nat) returns (b: nat)
    requires a < |arr|
    ensures a <= b < |arr|
    ensures forall j | a <= j < b :: arr[j].sn > arr[b].sn
    ensures forall j | a <= j < |arr| :: arr[j].sn >= arr[b].sn
    decreases |arr| - a
  {
    b := a;
    if a + 1 < |arr| {
      var c := FirstSmallest(arr, a + 1);
      if arr[c].sn < arr[a].sn { b := c; }
    }
  }

  lemma {:induction false} RankOfSmallest(arr: seq<Inst>, a: nat, b: nat)
    requires a <= b < |arr|
    requires forall j | a <= j < b :: arr[j].sn > arr[b].sn
    requires forall j | a <= j < |arr| :: arr[j].sn >= arr[b].sn
    ensures Rank(arr, b) == CountAtMost(arr[..a], arr[b].sn)
  {
    var k := arr[b].sn;
    var mid, tail := arr[..b][a..], arr[b + 1..];
    CountSplit(arr[..b], k, a);
    assert arr[..b][..a] == arr[..a];
    forall j | 0 <= j < |mid| ensures mid[j].sn > k { assert mid[j] == arr[a + j]; }
    CountNone(mid, k);
    forall j | 0 <= j < |tail| ensures tail[j].sn > k - 1 { assert tail[j] == arr[b + 1 + j]; }
    CountNone(tail, k - 1);
  }

  /** Every instruction's sorted place is still open when it arrives. */
  ghost predicate PlaceOpen(v: View, arr: seq<Inst>) {
    forall a: nat | a < |arr| :: Rank(arr, a) >= PoppedCount(v, a)
  }

  lemma {:induction false} PrefixCount(v: View, arr: seq<Inst>, a: nat, i: nat, k: int)
    requires a < |arr| && Popped(v, arr[..a]) == SortBySn(arr[..a])
    requires i < |Arrive(v, arr[..a]).popped| && Arrive(v, arr[..a]).popped[i].sn > k
    ensures CountAtMost(arr[..a], k) <= i < PoppedCount(v, a)
  {
    var s := SortBySn(arr[..a]);
    ArriveSizes(v, arr[..a]);
    SortSorts(arr[..a]);
    assert s[i] == Arrive(v, arr[..a]).popped[i];
    SortedCount(s, k, i);
    CountSort(arr[..a], k);
  }

  lemma {:induction false} OnTimeNext(v: View, arr: seq<Inst>, a: nat)
    requires a < |arr| && PlaceOpen(v, arr)
    requires Popped(v, arr[..a]) == SortBySn(arr[..a])
    ensures OnTime(v, arr, a)
  {
    var popped := Arrive(v, arr[..a]).popped;
    forall i | 0 <= i < |popped| ensures popped[i].sn <= arr[a].sn {
      if popped[i].sn > arr[a].sn {
        var b := FirstSmallest(arr, a);
        RankOfSmallest(arr, a, b);
        PrefixCount(v, arr, a, i, arr[b].sn);
        PoppedCountMonotone(v, a, b);
        assert false;
      }
    }
  }

  lemma {:induction false} PlaceOpenOnTime(v: View, arr: seq<Inst>, n: nat)
    requires PlaceOpen(v, arr) && n <= |arr|
    ensures AllOnTime(v, arr, n)
    ensures Popped(v, arr[..n]) == SortBySn(arr[..n])
  {
    if n == 0 {
    } else {
      PlaceOpenOnTime(v, arr, n - 1);
      OnTimeNext(v, arr, n - 1);
    }
    OnTimeSorts(v, arr, n);
  }

  // ------------------------------------------------- sorted implies rank

  lemma {:induction false} PoppedOnlyGrows(v: View, arr: seq<Inst>, a: nat)
    requires a <= |arr|
    ensures Arrive(v, arr[..a]).popped <= Arrive(v, arr).popped
  {
    if a < |arr| {
      var init := arr[..|arr| - 1];
      PoppedOnlyGrows(v, init, a);
      assert init[..a] == arr[..a];
      assert Arrive(v, init).popped <= Arrive(v, arr).popped;
    } else {
      assert arr[..a] == arr;
    }
  }

  /** What comes out is a permutation of what went in. */
  lemma {:induction false} PoppedIsPermutation(v: View, arr: seq<Inst>)
    ensures multiset(Popped(v, arr)) == multiset(arr)
  {
    ArriveKeeps(v, arr);
    SortMultiset(Arrive(v, arr).queue);
  }

  lemma {:induction false} InTheRest(early: seq<Inst>, all: seq<Inst>, arr: seq<Inst>, a: nat)
    requires a < |arr| && early <= all
    requires multiset(all) == multiset(arr) && multiset(early) <= multiset(arr[..a])
    ensures arr[a] in all[|early|..]
  {
    var x, rest, after := arr[a], all[|early|..], arr[a + 1..];
    assert all == early + rest;
    assert arr == arr[..a] + [x] + after;
    assert multiset(early)[x] + multiset(rest)[x] == multiset(all)[x];
    assert multiset(arr)[x] == multiset(arr[..a])[x] + 1 + multiset(after)[x];
    assert multiset(early)[x] <= multiset(arr[..a])[x];
    assert x in multiset(rest);
  }

  lemma {:induction false} PoppedWithin(v: View, arr: seq<Inst>)
    ensures multiset(Arrive(v, arr).popped) <= multiset(arr)
    ensures Arrive(v, arr).popped <= Popped(v, arr)
  {
    ArriveKeeps(v, arr);
  }

  lemma {:induction false} LateArrivalBehind(v: View, arr: seq<Inst>, a: nat)
    requires a < |arr|
    ensures var early := Arrive(v, arr[..a]).popped;
            early <= Popped(v, arr) && arr[a] in Popped(v, arr)[|early|..]
  {
    PoppedOnlyGrows(v, arr, a);
    PoppedWithin(v, arr);
    PoppedWithin(v, arr[..a]);
    PoppedIsPermutation(v, arr);
    InTheRest(Arrive(v, arr[..a]).popped, Popped(v, arr), arr, a);
  }

  lemma {:induction false} SortedPlaceOpen(v: View, arr: seq<Inst>, a: nat)
    requires a < |arr| && Sorted(Popped(v, arr))
    ensures Rank(arr, a) >= PoppedCount(v, a)
  {
    var early, all := Arrive(v, arr[..a]).popped, Popped(v, arr);
    LateArrivalBehind(v, arr, a);
    var j :| 0 <= j < |all[|early|..]| && all[|early|..][j] == arr[a];
    forall i | 0 <= i < |early| ensures early[i].sn <= arr[a].sn {
      assert early[i] == all[i] && all[|early| + j] == arr[a];
    }
    CountAll(early, arr[a].sn);
    ArriveCounts(v, arr[..a], arr[a].sn);
    ArriveSizes(v, arr[..a]);
  }

  /** The exact condition: everything comes out in sequence-number order, once each, if and only if
      each arriving instruction's sorted rank is at least the number already printed. */
  lemma {:induction false} InOrderIffPlaceOpen(v: View, arr: seq<Inst>)
    ensures Sorted(Popped(v, arr)) <==> PlaceOpen(v, arr)
    ensures Sorted(Popped(v, arr)) ==> Popped(v, arr) == SortBySn(arr)
  {
    assert arr[..|arr|] == arr;
    if PlaceOpen(v, arr) {
      PlaceOpenOnTime(v, arr, |arr|);
      SortSorts(arr);
    }
    if Sorted(Popped(v, arr)) {
      forall a: nat | a < |arr| ensures Rank(arr, a) >= PoppedCount(v, a) {
        SortedPlaceOpen(v, arr, a);
      }
      PlaceOpenOnTime(v, arr, |arr|);
    }
  }

  /** No instruction arrives more than `minThreshold` places after its sorted rank. */
  ghost predicate NotTooLate(v: View, arr: seq<Inst>) {
    forall a: nat | a < |arr| :: a - Rank(arr, a) <= v.minThreshold
  }

  /** The documented assumption is sufficient. */
  lemma {:induction false} NotTooLateSorts(v: View, arr: seq<Inst>)
    requires NotTooLate(v, arr)
    ensures Popped(v, arr) == SortBySn(arr)
  {
    forall a: nat | a < |arr| ensures Rank(arr, a) >= PoppedCount(v, a) {
      assert a - Rank(arr, a) <= v.minThreshold;
    }
    InOrderIffPlaceOpen(v, arr);
  }

  lemma {:induction false} NothingPopped(v: View, n: nat)
    requires n <= v.maxThreshold
    ensures PoppedCount(v, n) == 0
  {
    if n == 0 {
    } else {
      NothingPopped(v, n - 1);
    }
  }

  /** Numbers 1 to `n`, and then 0. */
  ghost function LateLast(n: nat): (arr: seq<Inst>)
    ensures |arr| == n + 1
  {
    seq(n, i => BLANK.(sn := i + 1)) + [BLANK]
  }

  lemma {:induction false} LateRank(n: nat)
    ensures Rank(LateLast(n), n) == 0
  {
    var arr := LateLast(n);
    forall i | 0 <= i < n ensures arr[..n][i].sn > 0 {
      assert arr[..n][i] == arr[i];
    }
    CountNone(arr[..n], 0);
    assert arr[n + 1..] == [];
  }

  /** The documented assumption is not needed: what arrives before the first flush may come as late as
      it likes. */
  lemma {:induction false} LateButInOrder(v: View)
    requires v.minThreshold + 2 <= v.maxThreshold
    ensures var arr := LateLast(v.minThreshold + 1); !NotTooLate(v, arr) && Sorted(Popped(v, arr))
  {
    hide LateLast, PoppedCount, Rank, Popped, Sorted;
    var n := v.minThreshold + 1;
    var arr := LateLast(n);
    LateRank(n);
    assert n - Rank(arr, n) > v.minThreshold;
    forall a: nat | a < |arr| ensures Rank(arr, a) >= PoppedCount(v, a) {
      NothingPopped(v, a);
    }
    InOrderIffPlaceOpen(v, arr);
  }

  /** Behind the first flush it matters: one late arrival, and the output is out of order. */
  lemma {:induction false} LateAndOutOfOrder(v: View)
    requires v.minThreshold <= v.maxThreshold
    ensures !Sorted(Popped(v, LateLast(v.maxThreshold + 1)))
  {
    hide LateLast, Rank, Popped, Sorted;
    var n := v.maxThreshold + 1;
    LateRank(n);
    NothingPopped(v, n - 1);
    assert PoppedCount(v, n) == n - v.minThreshold;
    InOrderIffPlaceOpen(v, LateLast(n));
  }
}
