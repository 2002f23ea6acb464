/** The checkpoint upgrader: applying every registered upgrade a checkpoint lacks, round by round,
    each only after the upgrades it depends on. Registries hold upgraders only. */
module CptUpgrader {

  type Tag = string

  // ------------------------------------------------- schedules and cycles

  /** What each registered tag depends on. */
  type Deps = map<Tag, set<Tag>>

  /** Dependencies name registered tags only, as the audit of `load_all` establishes. */
  ghost predicate Audited(deps: Deps) {
    forall t | t in deps :: deps[t] <= deps.Keys
  }

  function Elements(s: seq<Tag>): set<Tag> {
    set t | t in s
  }

  ghost predicate NoRepeats(s: seq<Tag>) {
    forall i, j | 0 <= i < j < |s| :: s[i] != s[j]
  }

  /** An order of applying upgrades in which nothing runs twice, nothing already present runs, and
      every upgrade runs with all its dependencies in place. */
  ghost predicate Schedule(deps: Deps, tags: set<Tag>, log: seq<Tag>) {
    && NoRepeats(log)
    && Elements(log) <= deps.Keys - tags
    && forall i | 0 <= i < |log| :: log[i] in deps && deps[log[i]] <= tags + Elements(log[..i])
  }

  /** A closed chain of tags among `among`, each depending on the next. */
  ghost predicate Cycle(deps: Deps, among: set<Tag>, p: seq<Tag>) {
    && p != []
    && (forall i | 0 <= i < |p| :: p[i] in among && p[i] in deps)
    && (forall i | 0 < i < |p| :: p[i] in deps[p[i - 1]])
    && p[0] in deps[p[|p| - 1]]
  }

  ghost predicate HasCycle(deps: Deps, among: set<Tag>) {
    exists p: seq<Tag> :: Cycle(deps, among, p)
  }

  /** Every tag of `stuck` waits for another tag of `stuck`. */
  ghost predicate Stuck(deps: Deps, stuck: set<Tag>) {
    && stuck != {} && stuck <= deps.Keys
    && forall t | t in stuck :: deps[t] * stuck != {}
  }

  // ------------------------------------------------- stuck sets contain cycles

  ghost predicate Walk(deps: Deps, among: set<Tag>, p: seq<Tag>) {
    && (forall i | 0 <= i < |p| :: p[i] in among && p[i] in deps)
    && (forall i | 0 < i < |p| :: p[i] in deps[p[i - 1]])
  }

  lemma {:induction false} WalkOn(deps: Deps, stuck: set<Tag>, n: nat) returns (p: seq<Tag>)
    requires Stuck(deps, stuck)
    ensures |p| == n && Walk(deps, stuck, p)
  {
    if n == 0 {
      p := [];
    } else {
      var q := WalkOn(deps, stuck, n - 1);
      var t: Tag;
      if q == [] {
        t :| t in stuck;
      } else {
        t :| t in deps[q[|q| - 1]] * stuck;
      }
      p := q + [t];
    }
  }

  lemma {:induction false} RepeatIn(s: seq<Tag>, among: set<Tag>) returns (i: nat, j: nat)
    requires (forall k | 0 <= k < |s| :: s[k] in among) && |s| > |among|
    ensures i < j < |s| && s[i] == s[j]
  {
    var last := |s| - 1;
    if k :| 0 <= k < last && s[k] == s[last] {
      i, j := k, last;
    } else {
      var rest := among - {s[last]};
      assert |rest| == |among| - 1;
      i, j := RepeatIn(s[..last], rest);
    }
  }

  lemma {:induction false} StuckHasCycle(deps: Deps, stuck: set<Tag>) returns (p: seq<Tag>)
    requires Stuck(deps, stuck)
    ensures Cycle(deps, stuck, p)
  {
    var walk := WalkOn(deps, stuck, |stuck| + 1);
    var i, j := RepeatIn(walk, stuck);
    p := walk[i..j];
    forall k | 0 < k < |p| ensures p[k] in deps[p[k - 1]] {
      assert p[k] == walk[i + k] && p[k - 1] == walk[i + k - 1];
    }
    assert p[|p| - 1] == walk[j - 1];
  }

  // ------------------------------------------------- cycles block every schedule

  lemma {:induction false} CycleNext(deps: Deps, among: set<Tag>, p: seq<Tag>, k: nat) returns (i: nat)
    requires Cycle(deps, among, p) && k < |p|
    ensures i < |p| && p[i] in deps[p[k]]
  {
    i := if k + 1 < |p| then k + 1 else 0;
  }

  /** No tag of a cycle can be the first of the cycle to run. */
  lemma {:induction false} CycleNeverRuns(deps: Deps, tags: set<Tag>, log: seq<Tag>, p: seq<Tag>, n: nat)
    requires Schedule(deps, tags, log) && Cycle(deps, deps.Keys - tags, p) && n <= |log|
    ensures Elements(log[..n]) !! Elements(p)
  {
    if n == 0 {
    } else {
      CycleNeverRuns(deps, tags, log, p, n - 1);
      var t := log[n - 1];
      forall k | 0 <= k < |p| ensures p[k] != t {
        var i := CycleNext(deps, deps.Keys - tags, p, k);
        assert p[i] in Elements(p);
      }
      assert log[..n] == log[..n - 1] + [t];
    }
  }

  lemma {:induction false} CompleteIsAcyclic(deps: Deps, tags: set<Tag>, log: seq<Tag>)
    requires Schedule(deps, tags, log) && Elements(log) == deps.Keys - tags
    ensures !HasCycle(deps, deps.Keys - tags)
  {
    forall p: seq<Tag> | p != [] && p[0] in deps.Keys - tags
      ensures !Cycle(deps, deps.Keys - tags, p)
    {
      if Cycle(deps, deps.Keys - tags, p) {
        assert p[0] in Elements(p) && p[0] in Elements(log) && log[..|log|] == log;
        CycleNeverRuns(deps, tags, log, p, |log|);
      }
    }
  }

  // ------------------------------------------------- rounds

  /** The upgrades that a round starting from `tags` applies. */
  ghost function Ready(deps: Deps, tags: set<Tag>): set<Tag> {
    set t | t in deps && t !in tags && deps[t] <= tags
  }

  /** The tags present after `k` rounds, whatever order each round is iterated in. */
  ghost function After(deps: Deps, start: set<Tag>, k: nat): set<Tag> {
    if k == 0 then start else After(deps, start, k - 1) + Ready(deps, After(deps, start, k - 1))
  }

  lemma {:induction false} AfterGrows(deps: Deps, start: set<Tag>, k: nat, l: nat)
    requires k <= l
    ensures After(deps, start, k) <= After(deps, start, l)
  {
    if k < l { AfterGrows(deps, start, k, l - 1); }
  }

  /** `s` is applied in no later round than `t`. */
  ghost predicate NoLater(deps: Deps, start: set<Tag>, s: Tag, t: Tag) {
    forall k: nat | t in After(deps, start, k) :: s in After(deps, start, k)
  }

  /** `s` is applied in an earlier round than `t`. */
  ghost predicate Earlier(deps: Deps, start: set<Tag>, s: Tag, t: Tag) {
    exists k: nat :: s in After(deps, start, k) && t !in After(deps, start, k)
  }

  ghost predicate ByRounds(deps: Deps, start: set<Tag>, log: seq<Tag>) {
    forall i, j | 0 <= i < j < |log| :: NoLater(deps, start, log[i], log[j])
  }

  /** The orders in which a successful run may apply the missing upgrades: round by round, each round
      in any order. */
  ghost predicate PossibleRun(deps: Deps, start: set<Tag>, log: seq<Tag>) {
    && !HasCycle(deps, deps.Keys - start)
    && NoRepeats(log) && Elements(log) == deps.Keys - start && ByRounds(deps, start, log)
  }

  ghost predicate Before(log: seq<Tag>, a: Tag, b: Tag) {
    exists i, j :: 0 <= i < j < |log| && log[i] == a && log[j] == b
  }

  lemma {:induction false} RoundsAppend(deps: Deps, start: set<Tag>, log: seq<Tag>, more: seq<Tag>, k: nat)
    requires ByRounds(deps, start, log) && Elements(log) <= After(deps, start, k)
    requires Elements(more) == Ready(deps, After(deps, start, k))
    ensures ByRounds(deps, start, log + more)
  {
    var all := log + more;
    forall i, j | 0 <= i < j < |all| ensures NoLater(deps, start, all[i], all[j]) {
      if j >= |log| {
        assert all[j] in Elements(more);
        assert all[i] in if i < |log| then Elements(log) else Elements(more);
        forall m: nat | all[j] in After(deps, start, m) ensures all[i] in After(deps, start, m) {
          if m <= k {
            AfterGrows(deps, start, m, k);
          } else {
            AfterGrows(deps, start, k + 1, m);
          }
        }
      }
    }
  }

  lemma {:induction false} Swapped(deps: Deps, start: set<Tag>, log: seq<Tag>, i: nat, j: nat)
    requires PossibleRun(deps, start, log) && i < j < |log| && NoLater(deps, start, log[j], log[i])
    ensures PossibleRun(deps, start, log[i := log[j]][j := log[i]])
  {
    hide NoLater;
    var other := log[i := log[j]][j := log[i]];
    assert Elements(other) == Elements(log) by {
      assert forall t | t in log :: t in other by {
        assert other[i] == log[j] && other[j] == log[i];
        forall k | 0 <= k < |log| ensures log[k] in other { if k != i && k != j { assert other[k] == log[k]; } }
      }
    }
    forall a, b | 0 <= a < b < |other| ensures NoLater(deps, start, other[a], other[b]) {
      if a == i || b == i || a == j || b == j {
        SwappedPair(deps, start, log, i, j, a, b);
      }
    }
  }

  lemma {:induction false} NoLaterChain(deps: Deps, start: set<Tag>, s: Tag, t: Tag, u: Tag)
    requires NoLater(deps, start, s, t) && NoLater(deps, start, t, u)
    ensures NoLater(deps, start, s, u)
  {}

  lemma {:induction false} SwappedPair(
    deps: Deps, start: set<Tag>, log: seq<Tag>, i: nat, j: nat, a: nat, b: nat)
    requires ByRounds(deps, start, log) && i < j < |log| && NoLater(deps, start, log[j], log[i])
    requires a < b < |log|
    ensures var other := log[i := log[j]][j := log[i]]; NoLater(deps, start, other[a], other[b])
  {
    hide NoLater;
    // The place in `log` of what now stands at `a` and at `b`.
    var a' := if a == i then j else if a == j then i else a;
    var b' := if b == i then j else if b == j then i else b;
    if a' > b' {
      // Both lie between the two exchanged, whose rounds are the same.
      if a' != j { assert NoLater(deps, start, log[a'], log[j]); }
      if b' != i { assert NoLater(deps, start, log[i], log[b']); }
      if a' != j { NoLaterChain(deps, start, log[a'], log[j], log[i]); }
      if b' != i { NoLaterChain(deps, start, log[a'], log[i], log[b']); }
    }
  }

  /** One upgrade runs before another in every possible run if and only if its round is earlier. */
  lemma {:induction false} AlwaysBeforeIff(deps: Deps, start: set<Tag>, log: seq<Tag>, a: Tag, b: Tag)
    requires PossibleRun(deps, start, log) && a in log && b in log && a != b
    ensures (forall run | PossibleRun(deps, start, run) :: Before(run, a, b)) <==> Earlier(deps, start, a, b)
  {
    if Earlier(deps, start, a, b) {
      forall run | PossibleRun(deps, start, run) ensures Before(run, a, b) {
        assert a in Elements(log) && b in Elements(log);
        assert a in Elements(run) && b in Elements(run);
        var i :| 0 <= i < |run| && run[i] == a;
        var j :| 0 <= j < |run| && run[j] == b;
        assert j < i ==> NoLater(deps, start, b, a);
      }
    } else {
      assert NoLater(deps, start, b, a);
      var i :| 0 <= i < |log| && log[i] == a;
      var j :| 0 <= j < |log| && log[j] == b;
      if i < j {
        Swapped(deps, start, log, i, j);
        NotBefore(log[i := log[j]][j := log[i]], a, b, j, i);
      } else {
        NotBefore(log, a, b, i, j);
      }
    }
  }

  lemma {:induction false} NotBefore(log: seq<Tag>, a: Tag, b: Tag, i: nat, j: nat)
    requires NoRepeats(log) && j < i < |log| && log[i] == a && log[j] == b
    ensures !Before(log, a, b)
  {}

  /** A missing dependency is applied in an earlier round. */
  lemma {:induction false} DependencyEarlier(deps: Deps, start: set<Tag>, d: Tag, t: Tag, k: nat)
    requires t in deps && d in deps[t] && t !in start && t in After(deps, start, k)
    ensures Earlier(deps, start, d, t)
  {
    if t in After(deps, start, k - 1) {
      DependencyEarlier(deps, start, d, t, k - 1);
    } else {
      assert d in After(deps, start, k - 1);
    }
  }

  // ------------------------------------------------- rounds are chain lengths

  /** A chain of missing dependencies that begins at `t`. */
  ghost predicate ChainFrom(deps: Deps, missing: set<Tag>, t: Tag, p: seq<Tag>) {
    p != [] && p[0] == t && Walk(deps, missing, p)
  }

  ghost predicate ChainsWithin(deps: Deps, missing: set<Tag>, t: Tag, k: nat) {
    forall p | ChainFrom(deps, missing, t, p) :: |p| <= k
  }

  lemma {:induction false} ChainTail(deps: Deps, missing: set<Tag>, t: Tag, p: seq<Tag>)
    requires ChainFrom(deps, missing, t, p) && |p| > 1
    ensures t in deps && p[1] in deps[t] && p[1] in missing && ChainFrom(deps, missing, p[1], p[1..])
  {}

  lemma {:induction false} ChainGrows(deps: Deps, missing: set<Tag>, t: Tag, d: Tag, p: seq<Tag>)
    requires t in missing && t in deps && d in deps[t] && ChainFrom(deps, missing, d, p)
    ensures ChainFrom(deps, missing, t, [t] + p)
  {
    var q := [t] + p;
    forall i | 0 < i < |q| ensures q[i] in deps[q[i - 1]] {
      if i > 1 { assert q[i] == p[i - 1] && q[i - 1] == p[i - 2]; }
    }
  }

  lemma {:induction false} AppliedBounds(deps: Deps, start: set<Tag>, t: Tag, k: nat, p: seq<Tag>)
    requires t in deps && t !in start && t in After(deps, start, k)
    requires ChainFrom(deps, deps.Keys - start, t, p)
    ensures |p| <= k
    decreases k
  {
    hide ChainFrom;
    assert k > 0;
    if t in After(deps, start, k - 1) {
      AppliedBounds(deps, start, t, k - 1, p);
    } else if |p| > 1 {
      ChainTail(deps, deps.Keys - start, t, p);
      AppliedBounds(deps, start, p[1], k - 1, p[1..]);
    }
  }

  lemma {:induction false} BoundedIsApplied(deps: Deps, start: set<Tag>, t: Tag, k: nat)
    requires Audited(deps) && t in deps && t !in start && ChainsWithin(deps, deps.Keys - start, t, k)
    ensures t in After(deps, start, k)
    decreases k
  {
    hide ChainsWithin, After, Audited;
    var missing := deps.Keys - start;
    NotNone(deps, missing, t, k);
    forall d | d in deps[t] ensures d in After(deps, start, k - 1) {
      if d in start {
        StartStays(deps, start, d, k - 1);
      } else {
        Registered(deps, t, d);
        DependencyWithin(deps, missing, t, d, k);
        BoundedIsApplied(deps, start, d, k - 1);
      }
    }
    NextRound(deps, start, t, k);
  }

  lemma {:induction false} NotNone(deps: Deps, missing: set<Tag>, t: Tag, k: nat)
    requires t in deps && t in missing && ChainsWithin(deps, missing, t, k)
    ensures k > 0
  {
    AloneIsChain(deps, missing, t);
    assert |[t]| <= k;
  }

  lemma {:induction false} StartStays(deps: Deps, start: set<Tag>, d: Tag, k: nat)
    requires d in start
    ensures d in After(deps, start, k)
  {
    AfterGrows(deps, start, 0, k);
  }

  lemma {:induction false} Registered(deps: Deps, t: Tag, d: Tag)
    requires Audited(deps) && t in deps && d in deps[t]
    ensures d in deps
  {}

  lemma {:induction false} DependencyWithin(deps: Deps, missing: set<Tag>, t: Tag, d: Tag, k: nat)
    requires t in missing && t in deps && d in deps[t] && k > 0 && ChainsWithin(deps, missing, t, k)
    ensures ChainsWithin(deps, missing, d, k - 1)
  {
    hide ChainFrom;
    forall p | ChainFrom(deps, missing, d, p) ensures |p| <= k - 1 {
      ChainGrows(deps, missing, t, d, p);
      assert |[t] + p| <= k;
    }
  }

  lemma {:induction false} NextRound(deps: Deps, start: set<Tag>, t: Tag, k: nat)
    requires t in deps && k > 0 && deps[t] <= After(deps, start, k - 1)
    ensures t in After(deps, start, k)
  {}

  /** A missing upgrade has been applied after `k` rounds if and only if no chain of missing dependencies
      from it has more than `k` tags. */
  lemma {:induction false} RoundIsChainLength(deps: Deps, start: set<Tag>, t: Tag, k: nat)
    requires Audited(deps) && t in deps && t !in start
    ensures t in After(deps, start, k) <==> ChainsWithin(deps, deps.Keys - start, t, k)
  {
    hide ChainFrom, After, Audited;
    if t in After(deps, start, k) {
      forall p | ChainFrom(deps, deps.Keys - start, t, p) ensures |p| <= k {
        AppliedBounds(deps, start, t, k, p);
      }
    } else if ChainsWithin(deps, deps.Keys - start, t, k) {
      BoundedIsApplied(deps, start, t, k);
    }
  }

  lemma {:induction false} AloneIsChain(deps: Deps, missing: set<Tag>, t: Tag)
    requires t in deps && t in missing
    ensures ChainFrom(deps, missing, t, [t])
  {}

  /** The longest chain of missing dependencies from `a` is shorter than that from `b`. */
  ghost predicate Shallower(deps: Deps, missing: set<Tag>, a: Tag, b: Tag) {
    exists q :: ChainFrom(deps, missing, b, q) && ShorterThan(deps, missing, a, q)
  }

  ghost predicate ShorterThan(deps: Deps, missing: set<Tag>, a: Tag, q: seq<Tag>) {
    forall p | ChainFrom(deps, missing, a, p) :: |p| < |q|
  }

  lemma {:induction false} EarlierIffShallower(deps: Deps, start: set<Tag>, a: Tag, b: Tag)
    requires Audited(deps) && a in deps.Keys - start && b in deps.Keys - start
    ensures Earlier(deps, start, a, b) <==> Shallower(deps, deps.Keys - start, a, b)
  {
    hide After, ChainFrom, Audited;
    var missing := deps.Keys - start;
    if Earlier(deps, start, a, b) {
      var k: nat :| a in After(deps, start, k) && b !in After(deps, start, k);
      RoundIsChainLength(deps, start, a, k);
      RoundIsChainLength(deps, start, b, k);
      var q :| ChainFrom(deps, missing, b, q) && |q| > k;
      assert ShorterThan(deps, missing, a, q);
    }
    if Shallower(deps, missing, a, b) {
      var q :| ChainFrom(deps, missing, b, q) && ShorterThan(deps, missing, a, q);
      AloneIsChain(deps, missing, a);
      var k := |q| - 1;
      RoundIsChainLength(deps, start, a, k);
      RoundIsChainLength(deps, start, b, k);
      assert Earlier(deps, start, a, b);
    }
  }

  /** Read off the dependencies: one upgrade runs before another in every possible run if and only if the
      longest chain of missing dependencies under it is the shorter one. */
  lemma {:induction false} AlwaysBeforeIffShallower(
    deps: Deps, start: set<Tag>, log: seq<Tag>, a: Tag, b: Tag)
    requires Audited(deps) && PossibleRun(deps, start, log) && a in log && b in log && a != b
    ensures (forall run | PossibleRun(deps, start, run) :: Before(run, a, b))
            <==> Shallower(deps, deps.Keys - start, a, b)
  {
    assert a in Elements(log) && b in Elements(log);
    AlwaysBeforeIff(deps, start, log, a, b);
    EarlierIffShallower(deps, start, a, b);
  }

  // ------------------------------------------------- possible runs respect the dependencies

  lemma {:induction false} AcyclicChains(deps: Deps, missing: set<Tag>, p: seq<Tag>)
    requires Walk(deps, missing, p) && |p| > |missing|
    ensures HasCycle(deps, missing)
  {
    var i, j := RepeatIn(p, missing);
    var c := p[i..j];
    forall k | 0 < k < |c| ensures c[k] in deps[c[k - 1]] {
      assert c[k] == p[i + k] && c[k - 1] == p[i + k - 1];
    }
    assert c[|c| - 1] == p[j - 1];
    assert Cycle(deps, missing, c);
  }

  lemma {:induction false} EventuallyApplied(deps: Deps, start: set<Tag>, t: Tag)
    requires Audited(deps) && !HasCycle(deps, deps.Keys - start) && t in deps && t !in start
    ensures t in After(deps, start, |deps.Keys - start|)
  {
    var missing := deps.Keys - start;
    RoundIsChainLength(deps, start, t, |missing|);
    forall p | ChainFrom(deps, missing, t, p) ensures |p| <= |missing| {
      if |p| > |missing| { AcyclicChains(deps, missing, p); }
    }
  }

  /** Every possible run is a schedule: each upgrade runs once, with all its dependencies in place. */
  lemma {:induction false} PossibleRunSchedules(deps: Deps, start: set<Tag>, log: seq<Tag>)
    requires Audited(deps) && PossibleRun(deps, start, log)
    ensures Schedule(deps, start, log)
  {
    hide After, HasCycle, Elements;
    var missing := deps.Keys - start;
    forall i | 0 <= i < |log| ensures log[i] in deps && deps[log[i]] <= start + Elements(log[..i]) {
      InElements(log, i);
      EventuallyApplied(deps, start, log[i]);
      forall d | d in deps[log[i]] && d !in start ensures d in Elements(log[..i]) {
        DependencyEarlier(deps, start, d, log[i], |missing|);
        RunsEarlier(deps, start, log, i, d);
      }
    }
  }

  lemma {:induction false} InElements(log: seq<Tag>, i: nat)
    requires i < |log|
    ensures log[i] in Elements(log)
  {}

  lemma {:induction false} RunsEarlier(deps: Deps, start: set<Tag>, log: seq<Tag>, i: nat, d: Tag)
    requires ByRounds(deps, start, log) && i < |log| && d in Elements(log) && Earlier(deps, start, d, log[i])
    ensures d in Elements(log[..i])
  {
    NotBoth(deps, start, d, log[i]);
    hide NoLater;
    forall j | i <= j < |log| ensures log[j] != d {
      if i < j { assert NoLater(deps, start, log[i], log[j]); }
    }
    var j :| 0 <= j < |log| && log[j] == d;
    assert log[..i][j] == d;
  }

  lemma {:induction false} NotBoth(deps: Deps, start: set<Tag>, s: Tag, t: Tag)
    requires Earlier(deps, start, s, t)
    ensures s != t && !NoLater(deps, start, t, s)
  {
    hide After;
  }

  // ------------------------------------------------- the apply loop

  datatype Outcome = Upgraded | Aborted

  lemma {:induction false} ElementsSnoc(s: seq<Tag>, t: Tag)
    ensures Elements(s + [t]) == Elements(s) + {t}
  {
    assert t in s + [t];
  }

  /** One round: apply each ready upgrade, in whatever order the set is iterated. */
  method ApplyRound(deps: Deps, ghost start: set<Tag>, ready: set<Tag>, tags: set<Tag>, log: seq<Tag>)
    returns (tags': set<Tag>, log': seq<Tag>)
    requires Schedule(deps, start, log) && tags == start + Elements(log)
    requires ready <= deps.Keys && ready !! tags
    requires forall t | t in ready :: deps[t] <= tags
    ensures Schedule(deps, start, log')
    ensures tags' == tags + ready && tags' == start + Elements(log')
    ensures log <= log' && Elements(log'[|log|..]) == ready
  {
    hide Schedule, Elements;
    tags', log' := tags, log;
    var left := ready;
    NoElements(log[|log|..]);
    while left != {}
      invariant left <= ready && left !! tags'
      invariant tags' == tags + (ready - left)
      invariant log <= log' && Elements(log'[|log|..]) == ready - left
      invariant Schedule(deps, start, log') && tags' == start + Elements(log')
    {
      var t :| t in left;
      ScheduleSnoc(deps, start, log', t);
      ElementsSnoc(log'[|log|..], t);
      assert (log' + [t])[|log|..] == log'[|log|..] + [t];
      log' := log' + [t];
      tags' := tags' + {t};
      left := left - {t};
    }
  }

  lemma {:induction false} NoElements(s: seq<Tag>)
    requires s == []
    ensures Elements(s) == {}
  {}

  lemma {:induction false} ScheduleSnoc(deps: Deps, tags: set<Tag>, log: seq<Tag>, t: Tag)
    requires Schedule(deps, tags, log) && t in deps
    requires t !in tags + Elements(log) && deps[t] <= tags + Elements(log)
    ensures Schedule(deps, tags, log + [t])
    ensures Elements(log + [t]) == Elements(log) + {t}
  {
    var more := log + [t];
    assert t in more;
    forall i | 0 <= i < |more| ensures more[i] in deps && deps[more[i]] <= tags + Elements(more[..i]) {
      if i < |log| {
        assert more[..i] == log[..i];
      } else {
        assert more[..i] == log;
      }
    }
  }

  lemma {:induction false} NothingLeft(all: set<Tag>, tags: set<Tag>)
    requires all - tags == {}
    ensures all <= tags
  {
    forall t | t in all ensures t in tags {
      assert t !in all - tags;
    }
  }

  lemma {:induction false} NothingRun(deps: Deps, start: set<Tag>)
    ensures Schedule(deps, start, []) && Elements([]) == {}
  {}

  lemma {:induction false} AllRun(deps: Deps, start: set<Tag>, log: seq<Tag>)
    requires Schedule(deps, start, log) && deps.Keys <= start + Elements(log)
    ensures NoRepeats(log) && Elements(log) == deps.Keys - start
  {}

  lemma {:induction false} NoRounds(deps: Deps, start: set<Tag>)
    ensures After(deps, start, 0) == start && ByRounds(deps, start, [])
  {}

  /** When something is missing and nothing is ready, the missing tags contain a cycle. */
  lemma {:induction false} NothingReady(deps: Deps, start: set<Tag>, tags: set<Tag>)
    requires Audited(deps) && start <= tags && deps.Keys - tags != {} && Ready(deps, tags) == {}
    ensures HasCycle(deps, deps.Keys - start)
  {
    var missing := deps.Keys - tags;
    forall t | t in missing ensures deps[t] * missing != {} {
      assert t !in Ready(deps, tags);
      var d :| d in deps[t] && d !in tags;
      assert d in deps[t] * missing;
    }
    var p := StuckHasCycle(deps, missing);
    assert Cycle(deps, deps.Keys - start, p);
  }

  /** Apply all missing upgrades. The run aborts exactly when the dependencies among the tags missing
      at the start contain a cycle; otherwise every missing upgrade runs once, after everything it
      depends on, and all registered tags are present at the end. */
  method ApplyMissing(deps: Deps, start: set<Tag>)
    returns (outcome: Outcome, tags: set<Tag>, log: seq<Tag>)
    requires Audited(deps)
    ensures outcome == Aborted <==> HasCycle(deps, deps.Keys - start)
    ensures Schedule(deps, start, log) && tags == start + Elements(log)
    ensures outcome == Upgraded ==>
              Elements(log) == deps.Keys - start && tags == start + deps.Keys && deps.Keys - tags == {}
    ensures outcome == Upgraded ==> PossibleRun(deps, start, log)
  {
    hide ByRounds, HasCycle, Schedule, Elements, Audited;
    tags, log := start, [];
    NothingRun(deps, start);
    ghost var k := 0;
    NoRounds(deps, start);
    var toApply := deps.Keys - start;
    while toApply != {}
      invariant toApply == deps.Keys - tags
      invariant Schedule(deps, start, log) && tags == start + Elements(log)
      invariant tags == After(deps, start, k) && ByRounds(deps, start, log)
      decreases toApply
    {
      var ready := set t | t in toApply && deps[t] <= tags;
      assert ready == Ready(deps, tags);
      if ready == {} {
        NothingReady(deps, start, tags);
        return Aborted, tags, log;
      }
      ghost var before := log;
      tags, log := ApplyRound(deps, start, ready, tags, log);
      RoundsAppend(deps, start, before, log[|before|..], k);
      assert before + log[|before|..] == log;
      k := k + 1;
      toApply := toApply - ready;
    }
    NothingLeft(deps.Keys, tags);
    AllRun(deps, start, log);
    CompleteIsAcyclic(deps, start, log);
    return Upgraded, tags, log;
  }
}
