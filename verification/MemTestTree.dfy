/** Building the tree, and the shape it has for every valid specification. */
module MemTestTree {
  import opened Bits
  import opened Text
  import opened MemTest

  // ------------------------------------------------- bookkeeping

  lemma {:induction false} MadeUpdate(s: Spec, next: seq<nat>, l: nat, v: nat, level: nat)
    requires s.Valid() && |next| == s.Top() + 1 && l <= level <= s.Top()
    ensures Made(s, next[l := v], level) == Made(s, next, level) + (v - next[l]) * s.Testers(l)
  {
    if l == level {
      MadeSame(s, next, l, v, level);
      assert (v - next[l]) * s.Testers(l) == v * s.Testers(l) - next[l] * s.Testers(l);
    } else {
      MadeUpdate(s, next, l, v, level - 1);
    }
  }

  lemma {:induction false} MadeSame(s: Spec, next: seq<nat>, l: nat, v: nat, level: nat)
    requires s.Valid() && |next| == s.Top() + 1 && level <= l <= s.Top()
    ensures Made(s, next[l := v], level) - v * s.Testers(level) * (if l == level then 1 else 0)
         == Made(s, next, level) - next[l] * s.Testers(level) * (if l == level then 1 else 0)
  {
    if level == 0 {
    } else {
      MadeSame(s, next, l, v, level - 1);
    }
  }

  lemma {:induction false} MadeOfNone(s: Spec, next: seq<nat>, level: nat)
    requires s.Valid() && |next| == s.Top() + 1 && level <= s.Top()
    requires forall l | 0 <= l <= s.Top() :: next[l] == 0
    ensures Made(s, next, level) == 0
  {
    if level == 0 {
    } else {
      MadeOfNone(s, next, level - 1);
    }
  }

  /** Cache `j` of subsystem `k` is the one below subsystem `k * fan + j` one level up, and below no
      other. */
  lemma {:induction false} FeedsExactlyOne(s: Spec, level: nat, k: nat, j: nat, m: nat)
    requires s.Valid() && 1 <= level <= s.Top() && j < s.Fan(level)
    ensures Below(s, level - 1, m) == Some(CacheId(level, k, j)) <==> m == k * s.Fan(level) + j
  {
    var f := s.Fan(level);
    if m == k * f + j {
      RemainderUnique(m, f, k, j);
    }
    assert m == f * (m / f) + m % f;
  }

  // ------------------------------------------------- construction

  class Builder {
    const spec: Spec
    /** For each level, the next subsystem index to use. */
    var next: seq<nat>
    /** The subsystems attached to the system, by level and index. */
    var subs: map<Index, SubSystem>
    /** Testers created. */
    var testers: nat

    ghost predicate Inv()
      reads this
    {
      && spec.Valid() && |next| == spec.Top() + 1
      && Populated(spec, next, subs)
      && testers == Made(spec, next, spec.Top())
    }

    constructor (s: Spec)
      requires s.Valid()
      ensures spec == s && Inv()
      ensures forall l | 0 <= l <= s.Top() :: next[l] == 0
    {
      spec, next, subs, testers := s, seq(s.Top() + 1, _ => 0), map[], 0;
      new;
      MadeOfNone(s, next, s.Top());
    }

    /** The prototypes, from the level next to memory to the first. */
    method MakePrototypes() returns (protos: seq<Prototype>)
      requires spec.Valid()
      ensures |protos| == spec.Top()
      ensures forall i | 0 <= i < |protos| :: protos[i] == CacheAt(spec, spec.Top() - i)
    {
      assert spec.caches[..0] == [];
      protos := [Prototype(1, 1, true)];
      for n := 0 to |spec.caches| - 1
        invariant |protos| == n + 1
        invariant forall i | 0 <= i < |protos| :: protos[i] == CacheAt(spec, n + 1 - i)
      {
        var prev, scale := protos[0], spec.caches[n];
        assert spec.caches[..n + 1][..n] == spec.caches[..n];
        protos := [Prototype(prev.scale * scale, prev.latency * 10, !prev.inclusive)] + protos;
      }
    }

    /** Attach the next subsystem of a level. */
    method Attach(level: nat, sub: SubSystem)
      requires Inv() && level <= spec.Top() && sub == Node(spec, level, next[level])
      modifies this
      ensures Inv() && next == old(next)[level := old(next)[level] + 1]
    {
      MadeUpdate(spec, next, level, next[level] + 1, spec.Top());
      assert (next[level] + 1 - next[level]) * spec.Testers(level) == spec.Testers(level);
      subs := subs[(level, next[level]) := sub];
      next := next[level := next[level] + 1];
      testers := testers + sub.testers;
    }

    /** Create the sub-tree of one subsystem. The source stops with an error where the top level has
        no next-level cache, and indexes a list of testers and one of prototypes; that neither can
        fail is what the assertion and the two index expressions below state. */
    method MakeLevel(ncaches: seq<int>, protos: seq<Prototype>, level: nat, nextCache: Option<CacheId>)
      requires Inv() && level <= spec.Top() && Complete(spec, next, level)
      requires ncaches == spec.caches[spec.Top() - level..]
      requires |protos| == level && forall i | 0 <= i < level :: protos[i] == CacheAt(spec, level - i)
      requires nextCache == Below(spec, level, next[level])
      modifies this
      decreases level
      ensures Inv() && Complete(spec, next, level)
      ensures next[level] == old(next[level]) + 1
      ensures forall l | level < l <= spec.Top() :: next[l] == old(next[l])
    {
      hide Populated, Made;
      var index := next[level];
      var ntesters := spec.testers[|spec.caches| - level];
      var ports := seq(ntesters, i => i);
      if level != 0 {
        var fan := ncaches[0];
        Attach(level, SubSystem(ntesters, ntesters, fan, Some(protos[0]), true, nextCache));
        for j := 0 to fan
          invariant Inv() && Complete(spec, next, level - 1)
          invariant next[level] == index + 1 && next[level - 1] == index * fan + j
          invariant forall l | level < l <= spec.Top() :: next[l] == old(next[l])
        {
          FeedsExactlyOne(spec, level, index, j, next[level - 1]);
          MakeLevel(ncaches[1..], protos[1..], level - 1, Some(CacheId(level, index, j)));
        }
        assert next[level - 1] == next[level] * fan;
      } else {
        assert nextCache.Some?;
        var first := ports[0];
        Attach(level, SubSystem(ntesters, 0, 0, None, ntesters > 1, nextCache));
      }
    }

    /** The top-level call. */
    method Build()
      requires Inv() && forall l | 0 <= l <= spec.Top() :: next[l] == 0
      modifies this
      ensures Inv()
      ensures forall l | 0 <= l <= spec.Top() :: next[l] == Product(spec.caches[..spec.Top() - l])
      ensures testers == Total(spec.caches, spec.testers, |spec.testers|)
    {
      var protos := MakePrototypes();
      MakeLevel(spec.caches, protos, spec.Top(), None);
      forall l | 0 <= l <= spec.Top() ensures next[l] == Product(spec.caches[..spec.Top() - l]) {
        CompleteCounts(spec, next, l);
      }
      MadeIsTotal(spec, next, spec.Top());
      assert Total(spec.caches, spec.testers, 0) == 0;
    }
  }

  /** In a complete tree with one subsystem next to memory, each level holds the product of the cache
      counts before it. */
  lemma {:induction false} CompleteCounts(s: Spec, next: seq<nat>, l: nat)
    requires s.Valid() && |next| == s.Top() + 1 && l <= s.Top()
    requires Complete(s, next, s.Top()) && next[s.Top()] == 1
    ensures next[l] == Product(s.caches[..s.Top() - l])
    decreases s.Top() - l
  {
    if l < s.Top() {
      CompleteCounts(s, next, l + 1);
      var i := s.Top() - l;
      assert s.caches[..i][..i - 1] == s.caches[..i - 1];
    } else {
      assert s.caches[..0] == [];
    }
  }

  lemma {:induction false} MadeIsTotal(s: Spec, next: seq<nat>, level: nat)
    requires s.Valid() && |next| == s.Top() + 1 && level <= s.Top()
    requires forall l | 0 <= l <= s.Top() :: next[l] == Product(s.caches[..s.Top() - l])
    ensures Total(s.caches, s.testers, s.Top() - level) + Made(s, next, level)
         == Total(s.caches, s.testers, s.Top() + 1)
  {
    hide Product;
    var i := s.Top() - level;
    assert Total(s.caches, s.testers, i + 1) == Total(s.caches, s.testers, i) + next[level] * s.Testers(level);
    if level == 0 {
    } else {
      MadeIsTotal(s, next, level - 1);
    }
  }

  // ------------------------------------------------- the tree against the command line

  /** The lists read are a tree of at least one level with testers at its top and at most 64 in all. */
  ghost predicate Acceptable(caches: seq<int>, testers: seq<int>) {
    && |caches| >= 1 && |testers| == |caches| + 1
    && (forall i | 0 <= i < |caches| :: caches[i] >= 1)
    && (forall i | 0 <= i < |caches| :: testers[i] >= 0)
    && testers[|caches|] >= 1
    && Total(caches, testers, |testers|) <= 64
  }

  /** Level `l` of the tree has as many subsystems as the lists say, each with the testers, caches and
      crossbar listed for its level; level 0 is at the top. */
  ghost predicate LevelAsListed(caches: seq<int>, testers: seq<int>, subs: map<Index, SubSystem>, l: nat)
    requires |testers| == |caches| + 1 && l <= |caches|
  {
    var top := |caches|;
    && (forall k: nat :: (l, k) in subs <==> k < Product(caches[..top - l]))
    && (forall k: nat | (l, k) in subs ::
          var sub := subs[(l, k)];
          && sub.testers == testers[top - l]
          && sub.testerCaches == (if l == 0 then 0 else testers[top - l])
          && sub.treeCaches == (if l == 0 then 0 else caches[top - l])
          && sub.crossbar == (l > 0 || testers[top] > 1))
  }

  /** The caches of the first level are the prototype; one level on they are larger by the number of
      caches fanning out next to memory, ten times slower, and inclusive in turn. */
  ghost predicate CachesScaled(caches: seq<int>, subs: map<Index, SubSystem>, l: nat)
    requires l <= |caches|
  {
    && (forall k: nat | (l, k) in subs :: subs[(l, k)].cache.None? <==> l == 0)
    && (l == 1 ==> forall k: nat | (l, k) in subs :: subs[(l, k)].cache == Some(Prototype(1, 1, true)))
    && (l > 1 ==> ScaledBetween(subs, l - 1, l, caches[l - 2]))
  }

  ghost predicate ScaledBetween(subs: map<Index, SubSystem>, low: nat, high: nat, scale: int) {
    forall k: nat, k': nat | (high, k) in subs && (low, k') in subs ::
      subs[(low, k')].cache.Some? &&
      var prev := subs[(low, k')].cache.value;
      subs[(high, k)].cache == Some(Prototype(prev.scale * scale, prev.latency * 10, !prev.inclusive))
  }

  /** Each cache fanning out of a subsystem feeds exactly one subsystem of the level above it, and the
      subsystem next to memory is fed by none. */
  ghost predicate CachesFeed(caches: seq<int>, subs: map<Index, SubSystem>, l: nat)
    requires l <= |caches|
  {
    && (forall k: nat | (l, k) in subs :: subs[(l, k)].below.None? <==> l == |caches|)
    && (l >= 1 ==> forall k: nat, j: nat | (l, k) in subs && j < subs[(l, k)].treeCaches ::
          FeedsOne(subs, l - 1, CacheId(l, k, j)))
    && (l < |caches| ==> forall m: nat | (l, m) in subs ::
          subs[(l, m)].below.Some? &&
          var c := subs[(l, m)].below.value;
          c.level == l + 1 && (c.level, c.index) in subs && c.number < subs[(c.level, c.index)].treeCaches)
  }

  ghost predicate FeedsOne(subs: map<Index, SubSystem>, up: nat, cache: CacheId) {
    exists m: nat :: (up, m) in subs && FeedsOnly(subs, up, cache, m)
  }

  ghost predicate FeedsOnly(subs: map<Index, SubSystem>, up: nat, cache: CacheId, m: nat) {
    forall m': nat | (up, m') in subs :: subs[(up, m')].below == Some(cache) <==> m' == m
  }

  ghost predicate FullTree(s: Spec, next: seq<nat>, subs: map<Index, SubSystem>) {
    && s.Valid() && |next| == s.Top() + 1 && Populated(s, next, subs)
    && forall l | 0 <= l <= s.Top() :: next[l] == Product(s.caches[..s.Top() - l])
  }

  lemma {:induction false} Listed(s: Spec, next: seq<nat>, subs: map<Index, SubSystem>, l: nat)
    requires FullTree(s, next, subs) && l <= s.Top()
    ensures LevelAsListed(s.caches, s.testers, subs, l)
  {
    hide Product, Below, CacheAt;
  }

  lemma {:induction false} Scaled(s: Spec, next: seq<nat>, subs: map<Index, SubSystem>, l: nat)
    requires FullTree(s, next, subs) && l <= s.Top()
    ensures CachesScaled(s.caches, subs, l)
  {
    hide Product, Below, CacheAt;
    if l >= 1 { ScaledStep(s, l); }
    if l > 1 {
      forall k: nat | (l, k) in subs ensures subs[(l, k)].cache == Some(CacheAt(s, l)) {
        assert subs[(l, k)] == Node(s, l, k);
      }
      var low := l - 1;
      forall k: nat | (low, k) in subs ensures subs[(low, k)].cache == Some(CacheAt(s, low)) {
        assert subs[(low, k)] == Node(s, low, k);
      }
    }
  }

  lemma {:induction false} ScaledStep(s: Spec, l: nat)
    requires s.Valid() && 1 <= l <= s.Top()
    ensures l == 1 ==> CacheAt(s, l) == Prototype(1, 1, true)
    ensures l > 1 ==> var prev := CacheAt(s, l - 1);
                      CacheAt(s, l) == Prototype(prev.scale * s.caches[l - 2], prev.latency * 10, !prev.inclusive)
  {
    if l > 1 { assert s.caches[..l - 1][..l - 2] == s.caches[..l - 2]; }
  }

  /** Subsystems of two neighbouring levels. */
  lemma {:induction false} LevelsMultiply(s: Spec, next: seq<nat>, l: nat)
    requires s.Valid() && |next| == s.Top() + 1 && 1 <= l <= s.Top()
    requires forall i | 0 <= i <= s.Top() :: next[i] == Product(s.caches[..s.Top() - i])
    ensures next[l - 1] == next[l] * s.Fan(l)
  {
    var i := s.Top() - l + 1;
    assert s.caches[..i][..i - 1] == s.caches[..i - 1];
  }

  lemma {:induction false} FedFrom(s: Spec, next: seq<nat>, subs: map<Index, SubSystem>, l: nat, m: nat)
    requires FullTree(s, next, subs) && l < s.Top() && (l, m) in subs
    ensures subs[(l, m)].below.Some?
    ensures var c := subs[(l, m)].below.value;
            c.level == l + 1 && (c.level, c.index) in subs && c.number < subs[(c.level, c.index)].treeCaches
  {
    hide Product, CacheAt;
    LevelsMultiply(s, next, l + 1);
    var fan := s.Fan(l + 1);
    Quotients(m, fan, next[l + 1]);
    assert subs[(l, m)] == Node(s, l, m);
    assert subs[(l + 1, m / fan)] == Node(s, l + 1, m / fan);
  }

  lemma {:induction false} Quotients(m: nat, fan: nat, count: nat)
    requires fan >= 1 && m < count * fan
    ensures 0 <= m / fan < count && 0 <= m % fan < fan
  {
    var q := m / fan;
    assert m == fan * q + m % fan;
    MulMagnitude(fan, q - count);
    assert fan * (q - count) == fan * q - count * fan;
  }

  lemma {:induction false} Feeding(s: Spec, next: seq<nat>, subs: map<Index, SubSystem>, l: nat, k: nat, j: nat)
    requires FullTree(s, next, subs) && 1 <= l <= s.Top() && (l, k) in subs && j < subs[(l, k)].treeCaches
    ensures FeedsOne(subs, l - 1, CacheId(l, k, j))
  {
    hide Product, CacheAt, Below;
    LevelsMultiply(s, next, l);
    var fan, up := s.Fan(l), l - 1;
    assert subs[(l, k)] == Node(s, l, k);
    var m := k * fan + j;
    Within(k, j, fan, next[l]);
    assert (up, m) in subs;
    forall m': nat | (up, m') in subs
      ensures subs[(up, m')].below == Some(CacheId(l, k, j)) <==> m' == m
    {
      assert subs[(up, m')] == Node(s, up, m');
      FeedsExactlyOne(s, l, k, j, m');
    }
    assert FeedsOnly(subs, up, CacheId(l, k, j), m);
  }

  lemma {:induction false} Within(k: nat, j: nat, fan: nat, count: nat)
    requires k < count && j < fan
    ensures 0 <= k * fan + j < count * fan
  {
    MulMagnitude(fan, count - k);
    assert fan * (count - k) == count * fan - k * fan;
  }

  lemma {:induction false} Feeds(s: Spec, next: seq<nat>, subs: map<Index, SubSystem>, l: nat)
    requires FullTree(s, next, subs) && l <= s.Top()
    ensures CachesFeed(s.caches, subs, l)
  {
    hide FeedsOne, Product, CacheAt;
    forall k: nat | (l, k) in subs ensures subs[(l, k)].below.None? <==> l == |s.caches| {
      assert subs[(l, k)] == Node(s, l, k);
    }
    if l >= 1 {
      forall k: nat, j: nat | (l, k) in subs && j < subs[(l, k)].treeCaches
        ensures FeedsOne(subs, l - 1, CacheId(l, k, j))
      {
        Feeding(s, next, subs, l, k, j);
      }
    }
    if l < |s.caches| {
      forall m: nat | (l, m) in subs
        ensures subs[(l, m)].below.Some? &&
                var c := subs[(l, m)].below.value;
                c.level == l + 1 && (c.level, c.index) in subs && c.number < subs[(c.level, c.index)].treeCaches
      {
        FedFrom(s, next, subs, l, m);
      }
    }
  }

  /** From the command line to the tree: exactly the acceptable lists are accepted, and the tree built
      has on every level the subsystems, testers and caches listed for it, connected one to one, with
      as many testers as were counted for the check. */
  method Configure(cachesText: string, testersText: string) returns (c: Check, b: Builder?)
    ensures c.Accepted? <==> b != null
    ensures var caches, testers := ParseInts(Split(cachesText, ':')), ParseInts(Split(testersText, ':'));
            && (b != null <==> caches.Some? && testers.Some? && Acceptable(caches.value, testers.value))
            && (b != null ==>
                  && fresh(b) && c.spec == Spec(caches.value, testers.value) && b.testers <= 64
                  && b.testers == Total(caches.value, testers.value, |testers.value|)
                  && forall l | 0 <= l <= |caches.value| ::
                       && LevelAsListed(caches.value, testers.value, b.subs, l)
                       && CachesScaled(caches.value, b.subs, l)
                       && CachesFeed(caches.value, b.subs, l))
  {
    hide Product, Total, Populated, Made, ParseInts, Split, LevelAsListed, CachesScaled, CachesFeed;
    b := null;
    c := CheckSpec(cachesText, testersText);
    if c.Accepted? {
      b := new Builder(c.spec);
      b.Build();
      forall l | 0 <= l <= b.spec.Top()
        ensures LevelAsListed(b.spec.caches, b.spec.testers, b.subs, l)
        ensures CachesScaled(b.spec.caches, b.subs, l)
        ensures CachesFeed(b.spec.caches, b.subs, l)
      {
        Listed(b.spec, b.next, b.subs, l);
        Scaled(b.spec, b.next, b.subs, l);
        Feeds(b.spec, b.next, b.subs, l);
      }
    }
  }

  // ------------------------------------------------- names

  function Name(level: nat, index: nat): string {
    "l" + Show(level) + "subsys" + Show(index)
  }

  /** A name: level first, then the index. */
  lemma {:induction false} NameOfOne()
    ensures Name(2, 13) == "l2subsys13"
  {
    assert Show(2) == "2" && Show(13) == "13";
  }

  /** No two subsystems share a name, so attaching one never replaces another. */
  lemma {:induction false} NamesDistinct(l: nat, k: nat, l': nat, k': nat)
    requires Name(l, k) == Name(l', k')
    ensures l == l' && k == k'
  {
    FirstPart(l, k);
    FirstPart(l', k');
    assert "l" + Show(l) == "l" + Show(l');
    assert ("l" + Show(l))[1..] == Show(l) && ("l" + Show(l'))[1..] == Show(l');
    ShowDigits(l);
    ShowDigits(l');
    var n := |"l" + Show(l) + "subsys"|;
    assert Name(l, k)[n..] == Show(k) && Name(l', k')[n..] == Show(k');
    ShowDigits(k);
    ShowDigits(k');
  }

  lemma {:induction false} FirstPart(l: nat, k: nat)
    ensures Split(Name(l, k), 's')[0] == "l" + Show(l)
  {
    hide Show, Split;
    NoLetter(l);
    var rest := "ubsys" + Show(k);
    assert Name(l, k) == ("l" + Show(l)) + ['s'] + rest;
    SplitFirst("l" + Show(l), 's', rest);
  }

  lemma {:induction false} NoLetter(l: nat)
    ensures 's' !in Show(l)
  {
    ShowDigits(l);
    forall i | 0 <= i < |Show(l)| ensures Show(l)[i] != 's' {
      assert IsDigit(Show(l)[i]);
    }
  }
}
