/** Binding the ports of a configuration: a greedy pass over a connection list that names every
    connection in both directions. */
module PortBinder {

  datatype Port = Port(objectName: string, portName: string, index: int)

  datatype Conn = Conn(from: Port, to: Port)

  datatype Key = Key(objectName: string, portName: string)

  function KeyOf(p: Port): Key {
    Key(p.objectName, p.portName)
  }

  function Swap(c: Conn): Conn {
    Conn(c.to, c.from)
  }

  // ------------------------------------------------- what the counters count

  /** Times a port of key `k` is an end of a connection made so far. */
  ghost function Count(made: seq<Conn>, k: Key): nat {
    if made == [] then 0
    else
      var c := made[|made| - 1];
      Count(made[..|made| - 1], k)
      + (if KeyOf(c.from) == k then 1 else 0) + (if KeyOf(c.to) == k then 1 else 0)
  }

  /** Both ends are the next index of their port. */
  ghost predicate Bindable(made: seq<Conn>, c: Conn) {
    c.from.index == Count(made, KeyOf(c.from)) && c.to.index == Count(made, KeyOf(c.to))
  }

  /** Connections made one after the other, each bindable in its turn. */
  ghost predicate Binding(made: seq<Conn>) {
    made != [] ==> Binding(made[..|made| - 1]) && Bindable(made[..|made| - 1], made[|made| - 1])
  }

  /** The greedy pass: bind whatever is bindable, in processing order. */
  ghost function Greedy(order: seq<Conn>): seq<Conn> {
    if order == [] then []
    else
      var made, c := Greedy(order[..|order| - 1]), order[|order| - 1];
      if Bindable(made, c) then made + [c] else made
  }

  // ------------------------------------------------- what the list promises

  ghost predicate NoRepeats(s: seq<Conn>) {
    forall i, j | 0 <= i < j < |s| :: s[i] != s[j]
  }

  /** Every connection is listed in both directions, once each, and joins two different ports. */
  ghost predicate WellListed(conns: seq<Conn>) {
    && NoRepeats(conns)
    && (forall c | c in conns :: Swap(c) in conns)
    && (forall c | c in conns :: c.from != c.to)
  }

  ghost predicate Within(made: seq<Conn>, conns: seq<Conn>) {
    forall c | c in made :: c in conns
  }

  ghost predicate IsEnd(p: Port, c: Conn) {
    p == c.from || p == c.to
  }

  /** Port `p` is an end of a connection made so far. */
  ghost predicate Bound(made: seq<Conn>, p: Port) {
    exists i :: 0 <= i < |made| && IsEnd(p, made[i])
  }

  // ------------------------------------------------- indices are bound 0, 1, 2, ...

  lemma {:induction false} BoundSnoc(made: seq<Conn>, c: Conn, p: Port)
    ensures Bound(made + [c], p) <==> Bound(made, p) || IsEnd(p, c)
  {
    var more := made + [c];
    if i :| 0 <= i < |made| && IsEnd(p, made[i]) {
      assert more[i] == made[i];
    }
    if IsEnd(p, c) {
      assert more[|made|] == c;
    }
  }

  lemma {:induction false} BindingSnoc(made: seq<Conn>)
    requires made != []
    ensures made == made[..|made| - 1] + [made[|made| - 1]]
  {}

  /** Each port's indices are bound without gap or repeat: exactly those below its counter. */
  lemma {:induction false} BoundIffBelowCount(made: seq<Conn>, p: Port)
    requires Binding(made) && (forall c | c in made :: c.from != c.to)
    ensures Bound(made, p) <==> 0 <= p.index < Count(made, KeyOf(p))
  {
    if made == [] {
    } else {
      var init, c := made[..|made| - 1], made[|made| - 1];
      BoundIffBelowCount(init, p);
      BindingSnoc(made);
      BoundSnoc(init, c, p);
      assert c in made;
    }
  }

  /** A port is bound at most once. */
  lemma {:induction false} BoundOnce(made: seq<Conn>, p: Port, i: nat, j: nat)
    requires Binding(made) && (forall c | c in made :: c.from != c.to)
    requires i < |made| && j < |made| && IsEnd(p, made[i]) && IsEnd(p, made[j])
    ensures i == j
  {
    var init, c := made[..|made| - 1], made[|made| - 1];
    if i < |init| && j < |init| {
      BoundOnce(init, p, i, j);
    } else {
      BoundIffBelowCount(init, p);
      if i < |init| { assert Bound(init, p) by { assert IsEnd(p, init[i]); } }
      if j < |init| { assert Bound(init, p) by { assert IsEnd(p, init[j]); } }
    }
  }

  // ------------------------------------------------- the counting argument

  ghost function Members(s: seq<Conn>): set<Conn> {
    set c | c in s
  }

  ghost function Both(made: seq<Conn>): seq<Conn> {
    if made == [] then []
    else
      var c := made[|made| - 1];
      Both(made[..|made| - 1]) + [c, Swap(c)]
  }

  lemma {:induction false} BothContents(made: seq<Conn>, c: Conn)
    ensures |Both(made)| == 2 * |made|
    ensures c in Both(made) <==> c in made || Swap(c) in made
  {
    if made == [] {
    } else {
      BothContents(made[..|made| - 1], c);
      BindingSnoc(made);
    }
  }

  lemma {:induction false} NoRepeatsSnoc(s: seq<Conn>, c: Conn)
    requires NoRepeats(s) && c !in s
    ensures NoRepeats(s + [c])
  {}

  lemma {:induction false} BothDistinct(made: seq<Conn>)
    requires Binding(made) && (forall c | c in made :: c.from != c.to)
    ensures NoRepeats(Both(made))
  {
    if made == [] {
    } else {
      var init, c := made[..|made| - 1], made[|made| - 1];
      BothDistinct(init);
      BothContents(init, c);
      BothContents(init, Swap(c));
      BoundIffBelowCount(init, c.from);
      assert c in made;
      NotBoundNotMade(init, c);
      NoRepeatsSnoc(Both(init), c);
      NoRepeatsSnoc(Both(init) + [c], Swap(c));
      assert Both(init) + [c] + [Swap(c)] == Both(init) + [c, Swap(c)];
    }
  }

  lemma {:induction false} NotBoundNotMade(made: seq<Conn>, c: Conn)
    requires !Bound(made, c.from)
    ensures c !in made && Swap(c) !in made
  {
    forall i | 0 <= i < |made| ensures made[i] != c && made[i] != Swap(c) {
      assert !IsEnd(c.from, made[i]);
    }
  }

  lemma {:induction false} DistinctSize(s: seq<Conn>)
    requires NoRepeats(s)
    ensures |Members(s)| == |s|
  {
    if s == [] {
    } else {
      var init, last := s[..|s| - 1], s[|s| - 1];
      DistinctSize(init);
      assert Members(s) == Members(init) + {last};
      assert last !in init;
    }
  }

  lemma {:induction false} SameSizeSubset(a: set<Conn>, b: set<Conn>)
    requires a <= b && |a| == |b|
    ensures a == b
  {
    assert |b - a| == |b| - |a|;
  }

  lemma {:induction false} SubsetSize(a: set<Conn>, b: set<Conn>)
    requires a <= b
    ensures |a| <= |b|
  {
    assert |b - a| == |b| - |a|;
  }

  lemma {:induction false} BothWithin(made: seq<Conn>, conns: seq<Conn>)
    requires Binding(made) && Within(made, conns) && WellListed(conns)
    ensures Members(Both(made)) <= Members(conns)
    ensures |Members(Both(made))| == 2 * |made|
    ensures |Members(conns)| == |conns|
    ensures 2 * |made| <= |conns|
  {
    BothDistinct(made);
    DistinctSize(Both(made));
    DistinctSize(conns);
    BothContents(made, Conn(Port("", "", 0), Port("", "", 0)));
    forall c | c in Both(made) ensures c in conns {
      BothContents(made, c);
      assert Swap(Swap(c)) == c;
    }
    SubsetSize(Members(Both(made)), Members(conns));
  }

  /** The final count certifies the result: when exactly half of a well-listed connection list has
      been bound, in whatever order and by whatever choice, every connection is bound in exactly
      one of its two directions. */
  lemma {:induction false} HalfMeansExactlyOneEach(made: seq<Conn>, conns: seq<Conn>, c: Conn)
    requires Binding(made) && Within(made, conns) && WellListed(conns)
    requires 2 * |made| == |conns| && c in conns
    ensures c in made <==> Swap(c) !in made
  {
    BothWithin(made, conns);
    SameSizeSubset(Members(Both(made)), Members(conns));
    BothContents(made, c);
    assert c in Members(conns) && c in Members(Both(made));
    if c in made && Swap(c) in made {
      var i :| 0 <= i < |made| && made[i] == c;
      var j :| 0 <= j < |made| && made[j] == Swap(c);
      BoundOnce(made, c.from, i, j);
    }
  }

  /** ... every port has a single peer, ... */
  lemma {:induction false} HalfMeansUniquePeer(made: seq<Conn>, conns: seq<Conn>, c: Conn, d: Conn)
    requires Binding(made) && Within(made, conns) && WellListed(conns)
    requires 2 * |made| == |conns| && c in conns && d in conns && c.from == d.from
    ensures c == d
  {
    HalfMeansExactlyOneEach(made, conns, c);
    HalfMeansExactlyOneEach(made, conns, d);
    var c' := if c in made then c else Swap(c);
    var d' := if d in made then d else Swap(d);
    var i :| 0 <= i < |made| && made[i] == c';
    var j :| 0 <= j < |made| && made[j] == d';
    BoundOnce(made, c.from, i, j);
  }

  /** ... and each port's listed indices are exactly 0, 1, 2, ... up to its number of connections,
      bound in that order. */
  lemma {:induction false} HalfMeansAllIndices(made: seq<Conn>, conns: seq<Conn>, p: Port)
    requires Binding(made) && Within(made, conns) && WellListed(conns)
    requires 2 * |made| == |conns|
    ensures (exists c :: c in conns && c.from == p) <==> 0 <= p.index < Count(made, KeyOf(p))
  {
    BoundIffBelowCount(made, p);
    if c :| c in conns && c.from == p {
      HalfMeansExactlyOneEach(made, conns, c);
      var i :| 0 <= i < |made| && (made[i] == c || made[i] == Swap(c));
      assert IsEnd(p, made[i]);
    }
    if Bound(made, p) {
      var i :| 0 <= i < |made| && IsEnd(p, made[i]);
      var c := if made[i].from == p then made[i] else Swap(made[i]);
      assert made[i] in made;
      assert c in conns && c.from == p;
    }
  }

  // ------------------------------------------------- the greedy pass is as good as any other

  lemma {:induction false} GreedyBinds(order: seq<Conn>)
    ensures Binding(Greedy(order)) && Within(Greedy(order), order)
  {
    if order == [] {
    } else {
      var init, c := order[..|order| - 1], order[|order| - 1];
      GreedyBinds(init);
      var made := Greedy(init);
      assert (made + [c])[..|made|] == made;
      assert forall d | d in init :: d in order;
    }
  }

  /** `made` is what remains of `order` when some connections are left out. */
  ghost predicate Selected(made: seq<Conn>, order: seq<Conn>)
    decreases |order|
  {
    if order == [] then made == []
    else
      var init, last := order[..|order| - 1], order[|order| - 1];
      || Selected(made, init)
      || (made != [] && made[|made| - 1] == last && Selected(made[..|made| - 1], init))
  }

  /** Each connection of `some`, or its reverse, is also in `all`. */
  ghost predicate CoveredBy(some: seq<Conn>, all: seq<Conn>) {
    forall c | c in some :: c in all || Swap(c) in all
  }

  ghost predicate UniquePeers(conns: seq<Conn>) {
    forall c, d | c in conns && d in conns && c.from == d.from :: c == d
  }

  lemma {:induction false} CoveredBound(some: seq<Conn>, all: seq<Conn>, p: Port)
    requires CoveredBy(some, all) && Bound(some, p)
    ensures Bound(all, p)
  {
    var i :| 0 <= i < |some| && IsEnd(p, some[i]);
    var c := some[i];
    assert c in some && IsEnd(p, c) && IsEnd(p, Swap(c));
    var d := if c in all then c else Swap(c);
    var j :| 0 <= j < |all| && all[j] == d;
    assert IsEnd(p, all[j]);
  }

  /** If everything bound so far in a rival selection is also bound by `greedy`, the counter of a
      port that the rival binds next is the same in both, unless greedy has bound it already. */
  lemma {:induction false} SameCounter(
    greedy: seq<Conn>, rival: seq<Conn>, conns: seq<Conn>, c: Conn, p: Port)
    requires Binding(greedy) && Binding(rival) && Within(greedy, conns) && Within(rival, conns)
    requires WellListed(conns) && UniquePeers(conns) && c in conns && IsEnd(p, c)
    requires CoveredBy(rival, greedy) && c !in greedy && Swap(c) !in greedy
    requires p.index == Count(rival, KeyOf(p))
    ensures p.index == Count(greedy, KeyOf(p))
  {
    var n := Count(greedy, KeyOf(p));
    BoundIffBelowCount(greedy, p);
    if Bound(greedy, p) {
      var i :| 0 <= i < |greedy| && IsEnd(p, greedy[i]);
      PeerIs(conns, c, greedy[i], p);
    }
    if p.index > n {
      var below := p.(index := p.index - 1);
      BoundIffBelowCount(rival, below);
      CoveredBound(rival, greedy, below);
      BoundIffBelowCount(greedy, below);
    }
  }

  lemma {:induction false} PeerIs(conns: seq<Conn>, c: Conn, d: Conn, p: Port)
    requires WellListed(conns) && UniquePeers(conns) && c in conns && d in conns
    requires IsEnd(p, c) && IsEnd(p, d)
    ensures d == c || d == Swap(c)
  {
    var c', d' := if c.from == p then c else Swap(c), if d.from == p then d else Swap(d);
    assert c' in conns && d' in conns && c'.from == d'.from;
  }

  lemma {:induction false} GreedyCovers(order: seq<Conn>, rival: seq<Conn>, conns: seq<Conn>)
    requires Binding(rival) && Selected(rival, order) && Within(order, conns)
    requires WellListed(conns) && UniquePeers(conns)
    ensures CoveredBy(rival, Greedy(order)) && Within(rival, order)
    decreases |order|
  {
    if order == [] {
    } else {
      var init, last := order[..|order| - 1], order[|order| - 1];
      assert Within(init, conns);
      var made := Greedy(init);
      GreedyBinds(init);
      if Selected(rival, init) {
        GreedyCovers(init, rival, conns);
      } else {
        var before := rival[..|rival| - 1];
        BindingSnoc(rival);
        GreedyCovers(init, before, conns);
        assert last in order && last in conns;
        if last !in made && Swap(last) !in made {
          SameCounter(made, before, conns, last, last.from);
          SameCounter(made, before, conns, last, last.to);
        }
      }
    }
  }

  lemma {:induction false} CoveredSize(some: seq<Conn>, all: seq<Conn>, conns: seq<Conn>)
    requires Binding(some) && Binding(all) && Within(some, conns) && Within(all, conns)
    requires WellListed(conns) && CoveredBy(some, all)
    ensures |some| <= |all|
  {
    BothWithin(some, conns);
    BothWithin(all, conns);
    forall c | c in Both(some) ensures c in Both(all) {
      BothContents(some, c);
      BothContents(all, c);
      assert Swap(Swap(c)) == c;
    }
    SubsetSize(Members(Both(some)), Members(Both(all)));
  }

  lemma {:induction false} GreedySelected(order: seq<Conn>)
    ensures Selected(Greedy(order), order)
  {
    if order == [] {
    } else {
      var made := Greedy(order[..|order| - 1]);
      GreedySelected(order[..|order| - 1]);
      assert (made + [order[|order| - 1]])[..|made|] == made;
    }
  }

  ghost predicate Accepts(order: seq<Conn>) {
    2 * |Greedy(order)| == |order|
  }

  /** The pass over a well-listed order is accepted if and only if one direction of every connection
      can be picked so that, in that order, each port's indices come up as 0, 1, 2, ... */
  lemma {:induction false} AcceptsIffSomePickBinds(order: seq<Conn>)
    requires WellListed(order)
    ensures Accepts(order)
            <==> exists rival :: Selected(rival, order) && Binding(rival) && 2 * |rival| == |order|
  {
    GreedyBinds(order);
    GreedySelected(order);
    if rival :| Selected(rival, order) && Binding(rival) && 2 * |rival| == |order| {
      SelectedWithin(rival, order);
      forall c, d | c in order && d in order && c.from == d.from ensures c == d {
        HalfMeansUniquePeer(rival, order, c, d);
      }
      GreedyCovers(order, rival, order);
      CoveredSize(rival, Greedy(order), order);
      BothWithin(Greedy(order), order);
    }
  }

  lemma {:induction false} SelectedWithin(made: seq<Conn>, order: seq<Conn>)
    requires Selected(made, order)
    ensures Within(made, order)
    decreases |order|
  {
    if order == [] {
    } else {
      var init := order[..|order| - 1];
      if Selected(made, init) {
        SelectedWithin(made, init);
      } else {
        SelectedWithin(made[..|made| - 1], init);
        BindingSnoc(made);
      }
    }
  }

  // ------------------------------------------------- the pass itself

  datatype BindResult = BoundAs(made: seq<Conn>) | CannotOrder | MissingPort

  /** Some listed connection starts at a port of key `k`: only those ports have a counter. */
  ghost predicate Listed(conns: seq<Conn>, k: Key) {
    exists i :: 0 <= i < |conns| && KeyOf(conns[i].from) == k
  }

  /** Connection `n` is tried, its first port fits, and its second port has no counter. */
  ghost predicate Misses(conns: seq<Conn>, sorted: seq<Conn>, n: nat)
    requires n < |sorted|
  {
    && sorted[n].from.index == Count(Greedy(sorted[..n]), KeyOf(sorted[n].from))
    && !Listed(conns, KeyOf(sorted[n].to))
  }

  /** The binding pass over `sorted`, an ordering of `conns`, with one counter per port. */
  method BindPorts(conns: seq<Conn>, sorted: seq<Conn>) returns (r: BindResult)
    requires multiset(sorted) == multiset(conns)
    ensures r == MissingPort <==> exists n :: 0 <= n < |sorted| && Misses(conns, sorted, n)
    ensures r == CannotOrder ==> !Accepts(sorted)
    ensures r.BoundAs? ==> r.made == Greedy(sorted) && Accepts(sorted)
    ensures (forall c | c in conns :: Swap(c) in conns) ==> r != MissingPort
  {
    hide Accepts, Greedy, Count, Listed;
    var counters := MakeCounters(conns);
    NothingYet(sorted);
    assert |sorted| == |multiset(sorted)| == |multiset(conns)| == |conns|;
    var made: seq<Conn> := [];
    for i := 0 to |sorted|
      invariant made == Greedy(sorted[..i])
      invariant forall n | 0 <= n < i :: !Misses(conns, sorted, n)
      invariant forall k :: k in counters <==> Listed(conns, k)
      invariant forall k | k in counters :: counters[k] == Count(made, k)
    {
      var c := sorted[i];
      SortedIsListed(conns, sorted, i);
      GreedySnoc(sorted, i);
      if counters[KeyOf(c.from)] == c.from.index {
        if KeyOf(c.to) !in counters {
          assert Misses(conns, sorted, i);
          NotListed(conns, c);
          return MissingPort;
        }
        if counters[KeyOf(c.to)] == c.to.index {
          CountSnoc(made, c);
          made := made + [c];
          counters := counters[KeyOf(c.from) := counters[KeyOf(c.from)] + 1];
          counters := counters[KeyOf(c.to) := counters[KeyOf(c.to)] + 1];
        }
      }
    }
    assert sorted[..|sorted|] == sorted;
    AcceptsIsHalf(sorted);
    r := if |made| * 2 != |conns| then CannotOrder else BoundAs(made);
  }

  lemma {:induction false} SortedIsListed(conns: seq<Conn>, sorted: seq<Conn>, i: nat)
    requires multiset(sorted) == multiset(conns) && i < |sorted|
    ensures sorted[i] in conns && Listed(conns, KeyOf(sorted[i].from))
  {
    assert sorted[i] in multiset(conns);
    assert sorted[i] in conns;
  }

  method MakeCounters(conns: seq<Conn>) returns (counters: map<Key, int>)
    ensures forall k :: k in counters <==> Listed(conns, k)
    ensures forall k | k in counters :: counters[k] == 0
  {
    counters := map[];
    for i := 0 to |conns|
      invariant forall k :: k in counters <==> Listed(conns[..i], k)
      invariant forall k | k in counters :: counters[k] == 0
    {
      forall k ensures Listed(conns[..i + 1], k) <==> Listed(conns[..i], k) || k == KeyOf(conns[i].from) {
        ListedSnoc(conns, i, k);
      }
      counters := counters[KeyOf(conns[i].from) := 0];
    }
    assert conns[..|conns|] == conns;
  }

  lemma {:induction false} ListedSnoc(conns: seq<Conn>, i: nat, k: Key)
    requires i < |conns|
    ensures Listed(conns[..i + 1], k) <==> Listed(conns[..i], k) || k == KeyOf(conns[i].from)
  {
    var more, init := conns[..i + 1], conns[..i];
    assert more[i] == conns[i];
    if j :| 0 <= j < |init| && KeyOf(init[j].from) == k { assert more[j] == init[j]; }
    if j :| 0 <= j < |more| && KeyOf(more[j].from) == k { assert j < i ==> init[j] == more[j]; }
  }

  lemma {:induction false} NotListed(conns: seq<Conn>, c: Conn)
    requires !Listed(conns, KeyOf(c.to))
    ensures Swap(c) !in conns
  {
    forall i | 0 <= i < |conns| ensures conns[i] != Swap(c) {
      assert KeyOf(conns[i].from) != KeyOf(c.to);
    }
  }

  lemma {:induction false} AcceptsIsHalf(order: seq<Conn>)
    ensures Accepts(order) <==> |Greedy(order)| * 2 == |order|
  {}

  lemma {:induction false} GreedySnoc(order: seq<Conn>, n: nat)
    requires n < |order|
    ensures Greedy(order[..n + 1])
         == var made := Greedy(order[..n]); if Bindable(made, order[n]) then made + [order[n]] else made
  {
    assert order[..n + 1][..n] == order[..n];
  }

  lemma {:induction false} NothingYet(order: seq<Conn>)
    ensures Greedy(order[..0]) == [] && forall k :: Count([], k) == 0
  {}

  lemma {:induction false} CountSnoc(made: seq<Conn>, c: Conn)
    ensures forall k ::
              Count(made + [c], k)
              == Count(made, k) + (if KeyOf(c.from) == k then 1 else 0) + (if KeyOf(c.to) == k then 1 else 0)
  {
    assert (made + [c])[..|made|] == made;
  }

  // ------------------------------------------------- two limits of the pass

  ghost predicate LexLeq(a: string, b: string) {
    a == [] || (b != [] && (a[0] < b[0] || (a[0] == b[0] && LexLeq(a[1..], b[1..]))))
  }

  ghost predicate PortLeq(p: Port, q: Port) {
    if p.objectName != q.objectName then LexLeq(p.objectName, q.objectName)
    else if p.portName != q.portName then LexLeq(p.portName, q.portName)
    else p.index <= q.index
  }

  ghost predicate SortedConns(s: seq<Conn>) {
    forall i, j | 0 <= i < j < |s| ::
      if s[i].from != s[j].from then PortLeq(s[i].from, s[j].from) else PortLeq(s[i].to, s[j].to)
  }

  function P(name: string, index: int): Port {
    Port(name, "p", index)
  }

  /** a[0] - z[1], a[1] - b[0] and w[0] - z[0], in both directions, sorted. */
  function Hard(): seq<Conn> {
    [ Conn(P("a", 0), P("z", 1)), Conn(P("a", 1), P("b", 0)), Conn(P("b", 0), P("a", 1)),
      Conn(P("w", 0), P("z", 0)), Conn(P("z", 0), P("w", 0)), Conn(P("z", 1), P("a", 0)) ]
  }

  /** The same connections in an order that the pass accepts. */
  function Easy(): seq<Conn> {
    [ Conn(P("w", 0), P("z", 0)), Conn(P("a", 0), P("z", 1)), Conn(P("a", 1), P("b", 0)),
      Conn(P("b", 0), P("a", 1)), Conn(P("z", 0), P("w", 0)), Conn(P("z", 1), P("a", 0)) ]
  }

  lemma {:induction false} HardGreedy()
    ensures Greedy(Hard()) == [Conn(P("w", 0), P("z", 0)), Conn(P("z", 1), P("a", 0))]
  {
    hide Greedy, Count;
    var h := Hard();
    NothingYet(h);
    GreedySnoc(h, 0);
    GreedySnoc(h, 1);
    GreedySnoc(h, 2);
    assert Greedy(h[..3]) == [];
    GreedySnoc(h, 3);
    CountSnoc([], h[3]);
    assert [] + [h[3]] == [h[3]];
    assert Greedy(h[..4]) == [h[3]];
    GreedySnoc(h, 4);
    GreedySnoc(h, 5);
    assert h[..6] == h;
  }

  lemma {:induction false} EasyGreedy()
    ensures Greedy(Easy()) == Easy()[..3]
  {
    hide Greedy, Count;
    var e := Easy();
    NothingYet(e);
    GreedySnoc(e, 0);
    CountSnoc([], e[0]);
    assert [] + [e[0]] == e[..1];
    assert Greedy(e[..1]) == e[..1];
    GreedySnoc(e, 1);
    CountSnoc(e[..1], e[1]);
    assert e[..1] + [e[1]] == e[..2];
    assert Greedy(e[..2]) == e[..2];
    GreedySnoc(e, 2);
    CountSnoc(e[..2], e[2]);
    assert e[..2] + [e[2]] == e[..3];
    assert Greedy(e[..3]) == e[..3];
    GreedySnoc(e, 3);
    GreedySnoc(e, 4);
    GreedySnoc(e, 5);
    assert e[..6] == e;
  }

  lemma {:induction false} HardListed()
    ensures WellListed(Hard())
  {
    var h := Hard();
    assert Swap(h[0]) == h[5] && Swap(h[5]) == h[0];
    assert Swap(h[1]) == h[2] && Swap(h[2]) == h[1];
    assert Swap(h[3]) == h[4] && Swap(h[4]) == h[3];
    forall c | c in h ensures Swap(c) in h && c.from != c.to {
      var i :| 0 <= i < |h| && h[i] == c;
    }
  }

  lemma {:induction false} HardSorted()
    ensures SortedConns(Hard())
  {
    var h := Hard();
    assert LexLeq("a", "b") && LexLeq("a", "w") && LexLeq("a", "z");
    assert LexLeq("b", "w") && LexLeq("b", "z") && LexLeq("w", "z");
    assert h[0].from.objectName == h[1].from.objectName == "a";
    assert h[2].from.objectName == "b" && h[3].from.objectName == "w";
    assert h[4].from.objectName == h[5].from.objectName == "z";
  }

  lemma {:induction false} EasyIsHard()
    ensures multiset(Easy()) == multiset(Hard())
  {
    var h, e := Hard(), Easy();
    assert e == [h[3], h[0], h[1], h[2], h[4], h[5]];
    assert h == [h[0], h[1], h[2], h[3], h[4], h[5]];
  }

  /** Sorting does not make one direction of each pair bindable: a sorted, well-listed connection
      list can be rejected although another order of the same list binds every connection. */
  lemma {:induction false} SortedPassRejectsBindable()
    ensures WellListed(Hard()) && SortedConns(Hard()) && !Accepts(Hard())
    ensures multiset(Easy()) == multiset(Hard()) && Accepts(Easy())
  {
    hide Greedy, WellListed, SortedConns;
    HardListed();
    HardSorted();
    HardGreedy();
    EasyGreedy();
    EasyIsHard();
  }

  /** Two ports each joined to themselves, and a pair that can never be bound. */
  function Looped(): seq<Conn> {
    [ Conn(P("p", 0), P("p", 0)), Conn(P("q", 0), P("q", 0)),
      Conn(P("a", 1), P("b", 0)), Conn(P("b", 0), P("a", 1)) ]
  }

  lemma {:induction false} LoopedGreedy()
    ensures Greedy(Looped()) == Looped()[..2]
  {
    hide Greedy, Count;
    var l := Looped();
    NothingYet(l);
    GreedySnoc(l, 0);
    CountSnoc([], l[0]);
    assert [] + [l[0]] == l[..1];
    assert Greedy(l[..1]) == l[..1];
    GreedySnoc(l, 1);
    CountSnoc(l[..1], l[1]);
    assert l[..1] + [l[1]] == l[..2];
    assert Greedy(l[..2]) == l[..2];
    GreedySnoc(l, 2);
    GreedySnoc(l, 3);
    assert l[..4] == l;
  }

  lemma {:induction false} LoopedListed()
    ensures NoRepeats(Looped()) && forall c | c in Looped() :: Swap(c) in Looped()
  {
    var l := Looped();
    assert Swap(l[0]) == l[0] && Swap(l[1]) == l[1] && Swap(l[2]) == l[3] && Swap(l[3]) == l[2];
    forall c | c in l ensures Swap(c) in l {
      var i :| 0 <= i < |l| && l[i] == c;
    }
  }

  /** A list on which the final count certifies nothing: it accepts, and a connection is unbound. */
  lemma {:induction false} SelfConnectionsDefeatTheCount()
    ensures NoRepeats(Looped()) && forall c | c in Looped() :: Swap(c) in Looped()
    ensures Accepts(Looped())
    ensures Looped()[2] !in Greedy(Looped()) && Swap(Looped()[2]) !in Greedy(Looped())
  {
    hide Greedy;
    LoopedGreedy();
    LoopedListed();
    assert Looped()[..2] == [Looped()[0], Looped()[1]];
  }

  lemma {:induction false} BothSize(made: seq<Conn>)
    ensures |Members(Both(made))| <= 2 * |made|
  {
    if made == [] {
    } else {
      var init, c := made[..|made| - 1], made[|made| - 1];
      BothSize(init);
      assert Members(Both(made)) == Members(Both(init)) + {c, Swap(c)};
    }
  }

  /** A self-connection counts once where the other connections count twice. */
  lemma {:induction false} SelfCountsOnce(made: seq<Conn>, c: Conn)
    requires c in made && c.from == c.to
    ensures |Members(Both(made))| < 2 * |made|
  {
    var init, last := made[..|made| - 1], made[|made| - 1];
    assert Members(Both(made)) == Members(Both(init)) + {last, Swap(last)};
    if last == c {
      BothSize(init);
      assert {last, Swap(last)} == {c};
    } else {
      SelfCountsOnce(init, c);
    }
  }

  /** The exact reach of the final count: when half of a symmetric list without repeats has been
      bound, everything is bound if and only if no port is joined to itself. */
  lemma {:induction false} HalfCertifiesIffNoSelf(made: seq<Conn>, conns: seq<Conn>)
    requires NoRepeats(conns) && forall c | c in conns :: Swap(c) in conns
    requires Binding(made) && Within(made, conns) && 2 * |made| == |conns|
    ensures CoveredBy(conns, made) <==> forall c | c in conns :: c.from != c.to
  {
    hide Binding, NoRepeats;
    if forall c | c in conns :: c.from != c.to {
      forall c | c in conns ensures c in made || Swap(c) in made {
        HalfMeansExactlyOneEach(made, conns, c);
      }
    } else if CoveredBy(conns, made) {
      var c :| c in conns && c.from == c.to;
      assert Swap(c) == c;
      SelfCountsOnce(made, c);
      DistinctSize(conns);
      forall d | d in conns ensures d in Both(made) { BothContents(made, d); }
      SubsetSize(Members(conns), Members(Both(made)));
      assert false;
    }
  }
}
