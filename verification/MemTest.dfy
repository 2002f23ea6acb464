/** The memory tester's tree of caches: the tester count, the checks on the tree specification and the
    recursive construction of the tree. */
module MemTest {
  import opened Bits
  import opened Text

  const BLOCK_SIZE := 64

  // ------------------------------------------------- counting testers

  /** Product of the first entries: how often each entry of the next level occurs. */
  function Product(s: seq<int>): int {
    if s == [] then 1 else Product(s[..|s| - 1]) * s[|s| - 1]
  }

  /** Testers of level `i`, counted from memory, times the subsystems of that level, summed. */
  function Total(caches: seq<int>, testers: seq<int>, upTo: nat): int
    requires upTo <= |testers| && upTo <= |caches| + 1
  {
    if upTo == 0 then 0
    else Total(caches, testers, upTo - 1) + testers[upTo - 1] * Product(caches[..upTo - 1])
  }

  method NumTesters(caches: seq<int>, testers: seq<int>) returns (total: int)
    ensures total == Total(caches, testers, Smaller(|testers|, |caches| + 1))
  {
    var multiplier := [1];
    assert caches[..0] == [];
    for i := 0 to |caches|
      invariant |multiplier| == i + 1
      invariant forall j | 0 <= j <= i :: multiplier[j] == Product(caches[..j])
    {
      assert caches[..i + 1][..i] == caches[..i];
      multiplier := multiplier + [multiplier[i] * caches[i]];
    }
    total := 0;
    for i := 0 to Smaller(|testers|, |multiplier|)
      invariant total == Total(caches, testers, i)
    {
      total := total + testers[i] * multiplier[i];
    }
  }

  // ------------------------------------------------- the specification

  datatype Spec = Spec(caches: seq<int>, testers: seq<int>) {
    /** Levels are numbered from the testers at the top, 0, to the memory, `Top()`. */
    function Top(): nat {
      |caches|
    }

    ghost predicate Valid() {
      && |caches| >= 1 && |testers| == |caches| + 1
      && testers[|caches|] >= 1
      && (forall i | 0 <= i < |testers| :: testers[i] >= 0)
      && (forall i | 0 <= i < |caches| :: caches[i] >= 1)
    }

    /** Caches fanning out of each subsystem of a level. */
    function Fan(level: nat): int
      requires 1 <= level <= Top()
    {
      caches[Top() - level]
    }

    /** Testers in each subsystem of a level. */
    function Testers(level: nat): int
      requires level <= Top() && |testers| == |caches| + 1
    {
      testers[Top() - level]
    }
  }

  function ParseInts(parts: seq<string>): Option<seq<int>> {
    if parts == [] then Some([])
    else
      var init, last := ParseInts(parts[..|parts| - 1]), ParseInt(parts[|parts| - 1]);
      if init.None? || last.None? then None else Some(init.value + [last.value])
  }

  datatype Check = Accepted(spec: Spec) | Rejected

  /** A comprehension over the pieces between colons; `None` stands for the conversion error. */
  method ReadInts(text: string) returns (r: Option<seq<int>>)
    ensures r == ParseInts(Split(text, ':'))
  {
    var parts := Split(text, ':');
    var done: seq<int> := [];
    for i := 0 to |parts|
      invariant ParseInts(parts[..i]) == Some(done)
    {
      assert parts[..i + 1][..i] == parts[..i];
      var v := ParseInt(parts[i]);
      if v.None? {
        ParseIntsFails(parts, i);
        return None;
      }
      done := done + [v.value];
    }
    assert parts[..|parts|] == parts;
    r := Some(done);
  }

  /** The texts of the numbers of a list. */
  function ShowAll(list: seq<int>): (t: seq<string>)
    ensures |t| == |list|
  {
    seq(|list|, i requires 0 <= i < |list| => ShowInt(list[i]))
  }

  lemma {:induction false} ParseShowAll(list: seq<int>)
    ensures ParseInts(ShowAll(list)) == Some(list)
  {
    hide ParseInt, ShowInt;
    if list == [] {
    } else {
      var n := |list| - 1;
      ParseShowAll(list[..n]);
      ParseShowInt(list[n]);
      assert ShowAll(list)[..n] == ShowAll(list[..n]);
      assert list == list[..n] + [list[n]];
    }
  }

  /** Numbers written between colons are read back in their order. */
  lemma {:induction false} ListsReadBack(list: seq<int>)
    requires list != []
    ensures ParseInts(Split(Join(ShowAll(list), ':'), ':')) == Some(list)
  {
    hide ParseInts, ShowInt, Split;
    forall i | 0 <= i < |list| ensures ':' !in ShowAll(list)[i] { ShowIntPlain(list[i]); }
    SplitJoin(ShowAll(list), ':');
    ParseShowAll(list);
  }

  lemma {:induction false} ParseIntsFails(parts: seq<string>, i: nat)
    requires i < |parts| && ParseInt(parts[i]).None?
    ensures ParseInts(parts).None?
  {
    hide ParseInt;
    if i < |parts| - 1 { ParseIntsFails(parts[..|parts| - 1], i); }
  }

  /** The checks on the command line: what is accepted is exactly a valid specification of at most
      `BLOCK_SIZE` testers. */
  method CheckSpec(cachesText: string, testersText: string) returns (c: Check)
    ensures var caches, testers := ParseInts(Split(cachesText, ':')), ParseInts(Split(testersText, ':'));
            c == if caches.Some? && testers.Some? && Spec(caches.value, testers.value).Valid()
                    && Total(caches.value, testers.value, |testers.value|) <= BLOCK_SIZE
                 then Accepted(Spec(caches.value, testers.value)) else Rejected
  {
    hide ParseInts, Split, Total;
    var caches := ReadInts(cachesText);
    var testers := ReadInts(testersText);
    if caches.None? || testers.None? { return Rejected; }
    if |caches.value| < 1 { return Rejected; }
    if |caches.value| != |testers.value| - 1 { return Rejected; }
    if testers.value[|testers.value| - 1] == 0 { return Rejected; }
    for i := 0 to |testers.value|
      invariant forall j | 0 <= j < i :: testers.value[j] >= 0
    {
      if testers.value[i] < 0 { return Rejected; }
    }
    for i := 0 to |caches.value|
      invariant forall j | 0 <= j < i :: caches.value[j] >= 1
    {
      if caches.value[i] < 1 { return Rejected; }
    }
    var total := NumTesters(caches.value, testers.value);
    if total > BLOCK_SIZE { return Rejected; }
    c := Accepted(Spec(caches.value, testers.value));
  }

  // ------------------------------------------------- the tree

  /** A cache of a subsystem: level and index of the subsystem, and its number there. */
  datatype CacheId = CacheId(level: nat, index: nat, number: nat)

  /** Cache parameters relative to the first-level cache: size, associativity and miss registers are
      multiplied by `scale`, latencies by `latency`. */
  datatype Prototype = Prototype(scale: int, latency: nat, inclusive: bool)

  datatype SubSystem = SubSystem(testers: nat, testerCaches: nat, treeCaches: nat, cache: Option<Prototype>,
                                 crossbar: bool, below: Option<CacheId>)

  function Pow10(k: nat): nat {
    if k == 0 then 1 else 10 * Pow10(k - 1)
  }

  /** The caches of a level: one scaling step for every level above the first. */
  function CacheAt(s: Spec, level: nat): Prototype
    requires 1 <= level <= s.Top()
  {
    Prototype(Product(s.caches[..level - 1]), Pow10(level - 1), level % 2 == 1)
  }

  /** The cache below subsystem `k` of a level, were the subsystems numbered from left to right. */
  function Below(s: Spec, level: nat, k: nat): Option<CacheId>
    requires s.Valid() && level <= s.Top()
  {
    if level == s.Top() then None
    else Some(CacheId(level + 1, k / s.Fan(level + 1), k % s.Fan(level + 1)))
  }

  /** Subsystem `k` of a level. */
  function Node(s: Spec, level: nat, k: nat): SubSystem
    requires s.Valid() && level <= s.Top()
  {
    var t := s.Testers(level);
    if level == 0 then SubSystem(t, 0, 0, None, t > 1, Below(s, level, k))
    else SubSystem(t, t, s.Fan(level), Some(CacheAt(s, level)), true, Below(s, level, k))
  }

  type Index = (nat, nat)

  /** Below `level`, every cache created so far has its subsystem. */
  ghost predicate Complete(s: Spec, next: seq<nat>, level: nat)
    requires s.Valid() && |next| == s.Top() + 1 && level <= s.Top()
  {
    forall l | 1 <= l <= level :: next[l - 1] == next[l] * s.Fan(l)
  }

  /** The subsystems created are the first ones of every level, each as it should be. */
  ghost predicate Populated(s: Spec, next: seq<nat>, subs: map<Index, SubSystem>)
    requires s.Valid() && |next| == s.Top() + 1
  {
    && (forall i: Index :: i in subs <==> i.0 <= s.Top() && i.1 < next[i.0])
    && (forall i: Index :: i in subs ==> subs[i] == Node(s, i.0, i.1))
  }

  /** Testers in the first `next[l]` subsystems of every level up to `level`. */
  ghost function Made(s: Spec, next: seq<nat>, level: nat): int
    requires s.Valid() && |next| == s.Top() + 1 && level <= s.Top()
  {
    next[level] * s.Testers(level) + if level == 0 then 0 else Made(s, next, level - 1)
  }
}
