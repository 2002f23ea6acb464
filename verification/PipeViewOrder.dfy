/** Ordering of pipeline-viewer instructions by sequence number, and how far out of place each
    one arrives. */
module PipeViewOrder {

  /** One instruction of the trace: its sequence number and the tick of each pipeline stage. */
  datatype Inst = Inst(
    sn: int, fetch: int, decode: int, rename: int, dispatch: int,
    issue: int, complete: int, retire: int, store: int)

  ghost predicate Sorted(s: seq<Inst>) {
    forall i, j | 0 <= i < j < |s| :: s[i].sn <= s[j].sn
  }

  /** Place `x` behind every instruction whose number is not larger. */
  function Insert(x: Inst, s: seq<Inst>): (r: seq<Inst>)
    ensures |r| == |s| + 1
  {
    if s == [] then [x]
    else if s[|s| - 1].sn <= x.sn then s + [x]
    else Insert(x, s[..|s| - 1]) + [s[|s| - 1]]
  }

  /** The stable sort by sequence number. */
  function SortBySn(s: seq<Inst>): (r: seq<Inst>)
    ensures |r| == |s|
  {
    if s == [] then [] else Insert(s[|s| - 1], SortBySn(s[..|s| - 1]))
  }

  // ------------------------------------------------- counting

  ghost function CountAtMost(s: seq<Inst>, k: int): (n: nat)
    ensures n <= |s|
  {
    if s == [] then 0
    else CountAtMost(s[..|s| - 1], k) + if s[|s| - 1].sn <= k then 1 else 0
  }

  lemma {:induction false} CountAppend(a: seq<Inst>, b: seq<Inst>, k: int)
    ensures CountAtMost(a + b, k) == CountAtMost(a, k) + CountAtMost(b, k)
  {
    if b == [] {
      assert a + b == a;
    } else {
      CountAppend(a, b[..|b| - 1], k);
      assert (a + b)[..|a + b| - 1] == a + b[..|b| - 1];
    }
  }

  lemma {:induction false} CountInsert(x: Inst, s: seq<Inst>, k: int)
    ensures CountAtMost(Insert(x, s), k) == CountAtMost(s, k) + if x.sn <= k then 1 else 0
  {
    if s == [] {
      assert Insert(x, s)[..0] == [];
    } else {
      var init, last := s[..|s| - 1], s[|s| - 1];
      if last.sn <= x.sn {
        assert (s + [x])[..|s|] == s;
      } else {
        CountInsert(x, init, k);
        assert Insert(x, s)[..|s|] == Insert(x, init);
      }
    }
  }

  lemma {:induction false} CountSort(s: seq<Inst>, k: int)
    ensures CountAtMost(SortBySn(s), k) == CountAtMost(s, k)
  {
    if s == [] {
    } else {
      CountSort(s[..|s| - 1], k);
      CountInsert(s[|s| - 1], SortBySn(s[..|s| - 1]), k);
    }
  }

  lemma {:induction false} CountAll(s: seq<Inst>, k: int)
    requires forall i | 0 <= i < |s| :: s[i].sn <= k
    ensures CountAtMost(s, k) == |s|
  {
    if s == [] {
    } else {
      CountAll(s[..|s| - 1], k);
    }
  }

  lemma {:induction false} CountNone(s: seq<Inst>, k: int)
    requires forall i | 0 <= i < |s| :: s[i].sn > k
    ensures CountAtMost(s, k) == 0
  {
    if s == [] {
    } else {
      CountNone(s[..|s| - 1], k);
    }
  }

  lemma {:induction false} CountSplit(s: seq<Inst>, k: int, i: nat)
    requires i <= |s|
    ensures CountAtMost(s, k) == CountAtMost(s[..i], k) + CountAtMost(s[i..], k)
  {
    CountAppend(s[..i], s[i..], k);
    assert s == s[..i] + s[i..];
  }

  /** In a sorted sequence the numbers up to `k` are exactly a prefix. */
  lemma {:induction false} SortedCount(s: seq<Inst>, k: int, i: nat)
    requires Sorted(s) && i < |s|
    ensures s[i].sn <= k <==> i < CountAtMost(s, k)
  {
    if s[i].sn <= k {
      var t := s[..i + 1];
      forall j | 0 <= j < |t| ensures t[j].sn <= k { assert t[j] == s[j]; }
      CountSplit(s, k, i + 1);
      CountAll(t, k);
    } else {
      var t := s[i..];
      forall j | 0 <= j < |t| ensures t[j].sn > k { assert t[j] == s[i + j]; }
      CountSplit(s, k, i);
      CountNone(t, k);
    }
  }

  // ------------------------------------------------- the sort

  lemma {:induction false} InsertMultiset(x: Inst, s: seq<Inst>)
    ensures multiset(Insert(x, s)) == multiset(s) + multiset{x}
  {
    if s == [] {
    } else {
      assert s == s[..|s| - 1] + [s[|s| - 1]];
      if s[|s| - 1].sn > x.sn { InsertMultiset(x, s[..|s| - 1]); }
    }
  }

  lemma {:induction false} SortMultiset(s: seq<Inst>)
    ensures multiset(SortBySn(s)) == multiset(s)
  {
    if s == [] {
    } else {
      SortMultiset(s[..|s| - 1]);
      InsertMultiset(s[|s| - 1], SortBySn(s[..|s| - 1]));
      assert s == s[..|s| - 1] + [s[|s| - 1]];
    }
  }

  /** Inserting splits a sorted sequence at the number of entries not larger than `x`. */
  lemma {:induction false} InsertSplits(x: Inst, s: seq<Inst>)
    requires Sorted(s)
    ensures var c := CountAtMost(s, x.sn); Insert(x, s) == s[..c] + [x] + s[c..]
  {
    hide Insert, CountAtMost;
    var c := CountAtMost(s, x.sn);
    InsertStep(x, s);
    if s == [] {
    } else {
      var init, last := s[..|s| - 1], s[|s| - 1];
      if last.sn <= x.sn {
        CountAll(s, x.sn);
        assert s[..c] == s && s[c..] == [];
      } else {
        InsertSplits(x, init);
        assert s[..c] == init[..c] && s[c..] == init[c..] + [last];
      }
    }
  }

  lemma {:induction false} InsertStep(x: Inst, s: seq<Inst>)
    ensures s == [] ==> Insert(x, s) == [x] && CountAtMost(s, x.sn) == 0
    ensures s != [] && s[|s| - 1].sn <= x.sn ==> Insert(x, s) == s + [x]
    ensures s != [] && s[|s| - 1].sn > x.sn ==>
              var init := s[..|s| - 1];
              Insert(x, s) == Insert(x, init) + [s[|s| - 1]] && CountAtMost(s, x.sn) == CountAtMost(init, x.sn)
  {}

  lemma {:induction false} InsertSorted(x: Inst, s: seq<Inst>)
    requires Sorted(s)
    ensures Sorted(Insert(x, s))
  {
    InsertSplits(x, s);
    forall i | 0 <= i < |s| ensures s[i].sn <= x.sn <==> i < CountAtMost(s, x.sn) {
      SortedCount(s, x.sn, i);
    }
  }

  lemma {:induction false} SortSorts(s: seq<Inst>)
    ensures Sorted(SortBySn(s))
  {
    if s == [] {
    } else {
      SortSorts(s[..|s| - 1]);
      InsertSorted(s[|s| - 1], SortBySn(s[..|s| - 1]));
    }
  }

  lemma {:induction false} SortFixed(s: seq<Inst>)
    requires Sorted(s)
    ensures SortBySn(s) == s
  {
    if s == [] {
    } else {
      SortFixed(s[..|s| - 1]);
      if |s| > 1 { assert s[|s| - 2].sn <= s[|s| - 1].sn; }
    }
  }

  lemma {:induction false} InsertBehind(x: Inst, a: seq<Inst>, b: seq<Inst>)
    requires forall i | 0 <= i < |a| :: a[i].sn <= x.sn
    ensures Insert(x, a + b) == a + Insert(x, b)
  {
    if b == [] {
      assert a + b == a;
    } else {
      var n := |a + b| - 1;
      assert (a + b)[..n] == a + b[..|b| - 1];
      InsertBehind(x, a, b[..|b| - 1]);
      if b[|b| - 1].sn > x.sn {
        assert a + Insert(x, b[..|b| - 1]) + [b[|b| - 1]] == a + Insert(x, b);
      }
    }
  }

  /** The entries with sequence number `k`, in order. */
  ghost function Numbered(s: seq<Inst>, k: int): seq<Inst> {
    if s == [] then []
    else Numbered(s[..|s| - 1], k) + if s[|s| - 1].sn == k then [s[|s| - 1]] else []
  }

  lemma {:induction false} InsertStable(x: Inst, s: seq<Inst>, k: int)
    ensures Numbered(Insert(x, s), k) == Numbered(s + [x], k)
  {
    assert (s + [x])[..|s|] == s;
    if s != [] && s[|s| - 1].sn > x.sn {
      var init, last := s[..|s| - 1], s[|s| - 1];
      InsertStable(x, init, k);
      assert (init + [x])[..|init|] == init;
      assert Insert(x, s)[..|s|] == Insert(x, init);
    }
  }

  /** The sort is stable: entries with equal numbers keep their order. */
  lemma {:induction false} SortStable(s: seq<Inst>, k: int)
    ensures Numbered(SortBySn(s), k) == Numbered(s, k)
  {
    if s == [] {
    } else {
      var init, last := s[..|s| - 1], s[|s| - 1];
      SortStable(init, k);
      InsertStable(last, SortBySn(init), k);
      assert (SortBySn(init) + [last])[..|init|] == SortBySn(init);
    }
  }

  // ------------------------------------------------- rank

  /** The place instruction `a` takes once everything is sorted: the earlier arrivals that are not
      larger, plus the later arrivals that are smaller. */
  ghost function Rank(arr: seq<Inst>, a: nat): nat
    requires a < |arr|
  {
    CountAtMost(arr[..a], arr[a].sn) + CountAtMost(arr[a + 1..], arr[a].sn - 1)
  }

  lemma {:induction false} RankSnoc(arr: seq<Inst>, x: Inst, a: nat)
    requires a < |arr|
    ensures Rank(arr + [x], a) == Rank(arr, a) + if x.sn < arr[a].sn then 1 else 0
  {
    var all := arr + [x];
    assert all[..a] == arr[..a];
    assert all[a + 1..] == arr[a + 1..] + [x];
    CountAppend(arr[a + 1..], [x], arr[a].sn - 1);
    assert CountAtMost([x], arr[a].sn - 1) == if x.sn < arr[a].sn then 1 else 0 by {
      assert [x][..0] == [];
    }
  }

  lemma {:induction false} InsertShifts(x: Inst, s: seq<Inst>, r: nat)
    requires Sorted(s) && r < |s|
    ensures Insert(x, s)[r + if x.sn < s[r].sn then 1 else 0] == s[r]
  {
    InsertSplits(x, s);
    SortedCount(s, x.sn, r);
  }

  lemma {:induction false} SortSnoc(init: seq<Inst>, x: Inst)
    ensures SortBySn(init + [x]) == Insert(x, SortBySn(init))
  {
    assert (init + [x])[..|init|] == init;
  }

  lemma {:induction false} RankOfLast(init: seq<Inst>, x: Inst)
    ensures Rank(init + [x], |init|) == CountAtMost(SortBySn(init), x.sn)
  {
    var arr := init + [x];
    assert arr[..|init|] == init && arr[|init| + 1..] == [];
    CountSort(init, x.sn);
  }

  /** Rank is the index in the sorted sequence. */
  lemma {:induction false} RankIsPosition(arr: seq<Inst>, a: nat)
    requires a < |arr|
    ensures Rank(arr, a) < |arr| && SortBySn(arr)[Rank(arr, a)] == arr[a]
  {
    var init, x := arr[..|arr| - 1], arr[|arr| - 1];
    var s := SortBySn(init);
    assert arr == init + [x];
    SortSnoc(init, x);
    SortSorts(init);
    if a == |init| {
      RankOfLast(init, x);
      InsertSplits(x, s);
    } else {
      RankIsPosition(init, a);
      RankSnoc(init, x, a);
      InsertShifts(x, s, Rank(init, a));
    }
  }
}
