/** Exactly when the streaming viewer prints the sorted, filtered trace. */
module PipeViewExact {
  import opened PipeViewOrder
  import opened PipeView
  import opened PipeViewWindow
  import opened PipeViewTrace

  // ------------------------------------------------- the window keeps equal numbers in order

  lemma {:induction false} NumberedAppend(a: seq<Inst>, b: seq<Inst>, k: int)
    ensures Numbered(a + b, k) == Numbered(a, k) + Numbered(b, k)
  {
    if b == [] {
      assert a + b == a;
    } else {
      NumberedAppend(a, b[..|b| - 1], k);
      assert (a + b)[..|a + b| - 1] == a + b[..|b| - 1];
    }
  }

  lemma {:induction false} PopToStable(st: Stream, lower: nat, k: int)
    ensures var st' := PopTo(st, lower);
            Numbered(st'.popped + st'.queue, k) == Numbered(st.popped + st.queue, k)
  {
    hide SortBySn, Numbered;
    var s := SortBySn(st.queue);
    var n := if |s| > lower then |s| - lower else 0;
    SortStable(st.queue, k);
    NumberedAppend(st.popped, st.queue, k);
    NumberedAppend(st.popped, s, k);
    assert st.popped + s[..n] + s[n..] == st.popped + s;
  }

  lemma {:induction false} ArriveStable(v: View, arr: seq<Inst>, k: int)
    ensures var st := Arrive(v, arr); Numbered(st.popped + st.queue, k) == Numbered(arr, k)
  {
    hide Numbered, PopTo;
    if arr == [] {
      assert Arrive(v, arr).popped + Arrive(v, arr).queue == arr;
    } else {
      var init, x := arr[..|arr| - 1], arr[|arr| - 1];
      ArriveStable(v, init, k);
      var st := Arrive(v, init);
      var q := st.(queue := st.queue + [x]);
      PopToStable(q, v.minThreshold, k);
      assert q.popped + q.queue == (st.popped + st.queue) + [x];
      NumberedAppend(st.popped + st.queue, [x], k);
      NumberedAppend(init, [x], k);
      assert arr == init + [x];
    }
  }

  /** Over all flushes, instructions with equal numbers keep their order. */
  lemma {:induction false} PoppedStable(v: View, arr: seq<Inst>, k: int)
    ensures Numbered(Popped(v, arr), k) == Numbered(arr, k)
  {
    hide SortBySn, Numbered, Arrive;
    var st := Arrive(v, arr);
    ArriveStable(v, arr, k);
    SortStable(st.queue, k);
    NumberedAppend(st.popped, st.queue, k);
    NumberedAppend(st.popped, SortBySn(st.queue), k);
  }

  // ------------------------------------------------- a sorted sequence is determined by its numbers

  ghost predicate SameNumbered(s: seq<Inst>, t: seq<Inst>) {
    forall k: int :: Numbered(s, k) == Numbered(t, k)
  }

  lemma {:induction false} NumberedHas(s: seq<Inst>, k: int)
    ensures Numbered(s, k) == [] <==> forall i | 0 <= i < |s| :: s[i].sn != k
  {
    if s == [] {
    } else {
      NumberedHas(s[..|s| - 1], k);
    }
  }

  lemma {:induction false} LargestAgree(s: seq<Inst>, t: seq<Inst>)
    requires Sorted(s) && SameNumbered(s, t) && t != []
    ensures s != [] && s[|s| - 1].sn >= t[|t| - 1].sn
  {
    hide Numbered;
    var k := t[|t| - 1].sn;
    NumberedHas(s, k);
    NumberedHas(t, k);
    assert Numbered(s, k) == Numbered(t, k);
    var i :| 0 <= i < |s| && s[i].sn == k;
    assert i < |s| - 1 ==> s[i].sn <= s[|s| - 1].sn;
  }

  lemma {:induction false} LastNumbered(s: seq<Inst>)
    requires s != []
    ensures var k := s[|s| - 1].sn;
            Numbered(s, k) != [] && Numbered(s, k)[|Numbered(s, k)| - 1] == s[|s| - 1]
  {}

  lemma {:induction false} InitNumbered(s: seq<Inst>, k: int)
    requires s != []
    ensures Numbered(s[..|s| - 1], k)
         == if s[|s| - 1].sn == k then Numbered(s, k)[..|Numbered(s, k)| - 1] else Numbered(s, k)
  {
    var init := Numbered(s[..|s| - 1], k);
    if s[|s| - 1].sn == k {
      assert Numbered(s, k) == init + [s[|s| - 1]];
    } else {
      assert Numbered(s, k) == init;
    }
  }

  lemma {:induction false} SortedUnique(s: seq<Inst>, t: seq<Inst>)
    requires Sorted(s) && Sorted(t) && SameNumbered(s, t)
    ensures s == t
  {
    hide Numbered;
    if t != [] { LargestAgree(s, t); }
    if s != [] { LargestAgree(t, s); }
    if s == [] {
    } else {
      var k := s[|s| - 1].sn;
      LastNumbered(s);
      LastNumbered(t);
      assert Numbered(s, k) == Numbered(t, k);
      assert s[|s| - 1] == t[|t| - 1];
      var initS, initT := s[..|s| - 1], t[..|t| - 1];
      forall j: int ensures Numbered(initS, j) == Numbered(initT, j) {
        InitNumbered(s, j);
        InitNumbered(t, j);
        assert Numbered(s, j) == Numbered(t, j);
      }
      SortedUnique(initS, initT);
      assert s == initS + [s[|s| - 1]] && t == initT + [t[|t| - 1]];
    }
  }

  // ------------------------------------------------- the filtered output

  lemma {:induction false} FilterNumbered(v: View, s: seq<Inst>, k: int)
    ensures Numbered(Filter(v, s), k) == Filter(v, Numbered(s, k))
  {
    hide Keep;
    if s == [] {
    } else {
      var init, x := s[..|s| - 1], s[|s| - 1];
      FilterNumbered(v, init, k);
      var f, n := Filter(v, init), Numbered(init, k);
      assert (f + [x])[..|f|] == f && f + [] == f;
      assert (n + [x])[..|n|] == n && n + [] == n;
    }
  }

  lemma {:induction false} FilterHas(v: View, s: seq<Inst>, x: Inst)
    ensures x in Filter(v, s) <==> x in s && Keep(v, x)
  {
    hide Keep;
    if s == [] {
    } else {
      FilterHas(v, s[..|s| - 1], x);
      assert s == s[..|s| - 1] + [s[|s| - 1]];
    }
  }

  /** The instructions to print are in number order. */
  ghost predicate KeptSorted(v: View, s: seq<Inst>) {
    forall i, j | 0 <= i < j < |s| && Keep(v, s[i]) && Keep(v, s[j]) :: s[i].sn <= s[j].sn
  }

  lemma {:induction false} SortedSnoc(s: seq<Inst>, x: Inst)
    ensures Sorted(s + [x]) <==> Sorted(s) && forall y | y in s :: y.sn <= x.sn
  {
    var all := s + [x];
    if Sorted(all) {
      forall i, j | 0 <= i < j < |s| ensures s[i].sn <= s[j].sn { assert s[i] == all[i] && s[j] == all[j]; }
      forall y | y in s ensures y.sn <= x.sn {
        var i :| 0 <= i < |s| && s[i] == y;
        assert all[i] == y && all[|s|] == x;
      }
    }
  }

  lemma {:induction false} FilterSortedIff(v: View, s: seq<Inst>)
    ensures Sorted(Filter(v, s)) <==> KeptSorted(v, s)
  {
    hide Keep;
    if s == [] {
    } else {
      var init, x := s[..|s| - 1], s[|s| - 1];
      FilterSortedIff(v, init);
      SortedSnoc(Filter(v, init), x);
      forall y: Inst ensures y in Filter(v, init) <==> y in init && Keep(v, y) { FilterHas(v, init, y); }
      KeptSortedSnoc(v, init, x);
      assert s == init + [x] && Filter(v, init) + [] == Filter(v, init);
    }
  }

  lemma {:induction false} KeptSortedSnoc(v: View, s: seq<Inst>, x: Inst)
    ensures KeptSorted(v, s + [x])
            <==> KeptSorted(v, s) && (Keep(v, x) ==> forall y | y in s && Keep(v, y) :: y.sn <= x.sn)
  {
    hide Keep;
    var all := s + [x];
    if KeptSorted(v, all) {
      forall i, j | 0 <= i < j < |s| && Keep(v, s[i]) && Keep(v, s[j]) ensures s[i].sn <= s[j].sn {
        assert s[i] == all[i] && s[j] == all[j];
      }
      forall y | Keep(v, x) && y in s && Keep(v, y) ensures y.sn <= x.sn {
        var i :| 0 <= i < |s| && s[i] == y;
        assert all[i] == y && all[|s|] == x;
      }
    }
  }

  // ------------------------------------------------- in order exactly when on time

  /** When an instruction to print arrives, nothing to print with a larger number is out. */
  ghost predicate KeptOnTime(v: View, arr: seq<Inst>) {
    forall a: nat | a < |arr| && Keep(v, arr[a]) :: NoneKeptAbove(v, Arrive(v, arr[..a]).popped, arr[a].sn)
  }

  ghost predicate NoneKeptAbove(v: View, s: seq<Inst>, k: int) {
    forall y | y in s && Keep(v, y) :: y.sn <= k
  }

  lemma {:induction false} SortedIsOnTime(v: View, arr: seq<Inst>, a: nat)
    requires KeptSorted(v, Popped(v, arr)) && a < |arr| && Keep(v, arr[a])
    ensures NoneKeptAbove(v, Arrive(v, arr[..a]).popped, arr[a].sn)
  {
    hide Keep, Popped, Arrive;
    var early, all := Arrive(v, arr[..a]).popped, Popped(v, arr);
    LateArrivalBehind(v, arr, a);
    var j :| 0 <= j < |all| - |early| && all[|early|..][j] == arr[a];
    assert all[|early| + j] == arr[a];
    forall y | y in early && Keep(v, y) ensures y.sn <= arr[a].sn {
      var i :| 0 <= i < |early| && early[i] == y;
      assert all[i] == y;
    }
  }

  /** What is out is in order, and nothing waiting belongs before it. */
  ghost predicate Settled(v: View, st: Stream) {
    && KeptSorted(v, st.popped)
    && forall y | y in st.queue && Keep(v, y) :: NoneKeptAbove(v, st.popped, y.sn)
  }

  lemma {:induction false} SortHas(s: seq<Inst>, x: Inst)
    ensures x in SortBySn(s) <==> x in s
  {
    SortMultiset(s);
    assert x in multiset(SortBySn(s)) <==> x in multiset(s);
  }

  lemma {:induction false} AppendKeptSorted(v: View, a: seq<Inst>, b: seq<Inst>)
    requires KeptSorted(v, a) && Sorted(b) && forall y | y in b && Keep(v, y) :: NoneKeptAbove(v, a, y.sn)
    ensures KeptSorted(v, a + b)
  {
    hide Keep;
    var all := a + b;
    forall i, j | 0 <= i < j < |all| && Keep(v, all[i]) && Keep(v, all[j]) ensures all[i].sn <= all[j].sn {
      if i < |a| && |a| <= j {
        assert all[j] in b && all[i] in a;
      }
    }
  }

  lemma {:induction false} PopToSettled(v: View, st: Stream, lower: nat)
    requires Settled(v, st)
    ensures Settled(v, PopTo(st, lower))
  {
    hide Keep, SortBySn;
    var s := SortBySn(st.queue);
    var n := if |s| > lower then |s| - lower else 0;
    SortSorts(st.queue);
    forall y: Inst ensures y in s <==> y in st.queue { SortHas(st.queue, y); }
    PrefixSorted(s, n);
    assert forall y | y in s[..n] :: y in s;
    AppendKeptSorted(v, st.popped, s[..n]);
    forall y | y in s[n..] && Keep(v, y) ensures NoneKeptAbove(v, st.popped + s[..n], y.sn) {
      var j :| 0 <= j < |s| - n && s[n..][j] == y;
      assert s[n + j] == y && y in s;
      forall z | z in st.popped + s[..n] && Keep(v, z) ensures z.sn <= y.sn {
        if z in s[..n] {
          var i :| 0 <= i < n && s[..n][i] == z;
          assert s[i] == z;
        }
      }
    }
  }

  lemma {:induction false} PrefixSorted(s: seq<Inst>, n: nat)
    requires Sorted(s) && n <= |s|
    ensures Sorted(s[..n])
  {
    var t := s[..n];
    forall i, j | 0 <= i < j < |t| ensures t[i].sn <= t[j].sn { assert t[i] == s[i] && t[j] == s[j]; }
  }

  lemma {:induction false} EnqueueSettled(v: View, st: Stream, x: Inst)
    requires Settled(v, st) && (Keep(v, x) ==> NoneKeptAbove(v, st.popped, x.sn))
    ensures Settled(v, Enqueue(v, st, x))
  {
    hide Keep, PopTo;
    PopToSettled(v, st.(queue := st.queue + [x]), v.minThreshold);
  }

  lemma {:induction false} OnTimeSettled(v: View, arr: seq<Inst>, n: nat)
    requires KeptOnTime(v, arr) && n <= |arr|
    ensures Settled(v, Arrive(v, arr[..n]))
    decreases n
  {
    hide Keep, Enqueue, NoneKeptAbove;
    if n == 0 {
      assert Arrive(v, arr[..0]) == Stream([], []);
    } else {
      OnTimeSettled(v, arr, n - 1);
      assert arr[..n][..n - 1] == arr[..n - 1];
      EnqueueSettled(v, Arrive(v, arr[..n - 1]), arr[n - 1]);
    }
  }

  /** The instructions to print come out in order if and only if each arrives on time. */
  lemma {:induction false} KeptInOrderIffOnTime(v: View, arr: seq<Inst>)
    ensures Sorted(Filter(v, Popped(v, arr))) <==> KeptOnTime(v, arr)
  {
    hide Keep, Arrive, NoneKeptAbove;
    FilterSortedIff(v, Popped(v, arr));
    if KeptSorted(v, Popped(v, arr)) {
      forall a: nat | a < |arr| && Keep(v, arr[a])
        ensures NoneKeptAbove(v, Arrive(v, arr[..a]).popped, arr[a].sn)
      {
        SortedIsOnTime(v, arr, a);
      }
    }
    if KeptOnTime(v, arr) {
      OnTimeSettled(v, arr, |arr|);
      assert arr[..|arr|] == arr;
      FlushSettled(v, Arrive(v, arr));
    }
  }

  lemma {:induction false} FlushSettled(v: View, st: Stream)
    requires Settled(v, st)
    ensures KeptSorted(v, st.popped + SortBySn(st.queue))
  {
    hide Keep, SortBySn;
    var s := SortBySn(st.queue);
    SortSorts(st.queue);
    forall y: Inst ensures y in s <==> y in st.queue { SortHas(st.queue, y); }
    AppendKeptSorted(v, st.popped, s);
  }

  // ------------------------------------------------- the whole run

  lemma {:induction false} KeptOutput(v: View, q: seq<Inst>)
    requires Sorted(Filter(v, Popped(v, q)))
    ensures Filter(v, Popped(v, q)) == SortBySn(Filter(v, q))
  {
    hide Popped, Filter, SortBySn, Numbered;
    var out, want := Filter(v, Popped(v, q)), SortBySn(Filter(v, q));
    SortSorts(Filter(v, q));
    forall k: int ensures Numbered(out, k) == Numbered(want, k) {
      FilterNumbered(v, Popped(v, q), k);
      PoppedStable(v, q, k);
      FilterNumbered(v, q, k);
      SortStable(Filter(v, q), k);
    }
    SortedUnique(out, want);
  }

  lemma {:induction false} FilterCount(v: View, s: seq<Inst>, x: Inst)
    ensures multiset(Filter(v, s))[x] == if Keep(v, x) then multiset(s)[x] else 0
  {
    hide Keep;
    if s == [] {
    } else {
      FilterCount(v, s[..|s| - 1], x);
      assert s == s[..|s| - 1] + [s[|s| - 1]];
    }
  }

  lemma {:induction false} FilterSize(v: View, s: seq<Inst>, t: seq<Inst>)
    requires multiset(s) == multiset(t)
    ensures |Filter(v, s)| == |Filter(v, t)|
  {
    hide Keep, Filter;
    forall x: Inst ensures multiset(Filter(v, s))[x] == multiset(Filter(v, t))[x] {
      FilterCount(v, s, x);
      FilterCount(v, t, x);
    }
    assert multiset(Filter(v, s)) == multiset(Filter(v, t));
    assert |Filter(v, s)| == |multiset(Filter(v, s))|;
  }

  /** On every framed trace and for all ranges: the streaming viewer prints exactly the trace sorted and
      filtered if and only if all instructions to print are queued before the scan ends and each of them
      arrives before anything to print with a larger number is out. */
  lemma {:induction false} StreamingIff(v: View, lines: seq<Line>)
    requires Framed(lines) && v.tickStart >= 0 && v.snStart >= 0
    ensures Filter(v, Popped(v, Queued(v, lines))) == Filter(v, SortBySn(Insts(v, lines)))
            <==> Filter(v, Queued(v, lines)) == Filter(v, Insts(v, lines)) && KeptOnTime(v, Queued(v, lines))
  {
    hide Framed, Insts, Queued, Popped, Filter, SortBySn, KeptOnTime;
    var arr, q := Insts(v, lines), Queued(v, lines);
    FilterSort(v, arr);
    SortSorts(Filter(v, arr));
    KeptInOrderIffOnTime(v, q);
    if Filter(v, Popped(v, q)) == Filter(v, SortBySn(arr)) {
      PoppedIsPermutation(v, q);
      FilterSize(v, Popped(v, q), q);
      SortMultiset(Filter(v, arr));
      assert |SortBySn(Filter(v, arr))| == |Filter(v, arr)|;
      KeptOfSlice(v, lines);
    } else if Filter(v, q) == Filter(v, arr) && Sorted(Filter(v, Popped(v, q))) {
      KeptOutput(v, q);
    }
  }

  /** The queued part holds the first instructions to print. */
  lemma {:induction false} KeptOfSlice(v: View, lines: seq<Line>)
    requires Framed(lines) && v.tickStart >= 0 && v.snStart >= 0
    ensures Filter(v, Queued(v, lines)) <= Filter(v, Insts(v, lines))
  {
    hide Framed, Insts, Queued, Filter, Keep;
    var arr := Insts(v, lines);
    var c := QueuedSlice(v, lines);
    var sub := arr[c..];
    var n := FirstStop(v, sub);
    FilterNone(v, arr[..c]);
    FilterAppend(v, arr[..c], sub);
    FilterAppend(v, sub[..n], sub[n..]);
    assert arr == arr[..c] + sub && sub == sub[..n] + sub[n..];
  }
}
