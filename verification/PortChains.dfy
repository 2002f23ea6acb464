/** Which connection lists the binding pass rejects, read off the positions of the list. */
module PortChains {
  import opened PortBinder

  /** Position `t` of the list names connection `e` in one of its directions. */
  predicate Lists(order: seq<Conn>, t: nat, e: Conn)
    requires t < |order|
  {
    order[t] == e || order[t] == Swap(e)
  }

  /** The first position from `start` on that lists `e`; the length of the list when there is none. */
  function NextListing(order: seq<Conn>, e: Conn, start: nat): (t: nat)
    requires start <= |order|
    ensures start <= t <= |order|
    ensures t < |order| ==> Lists(order, t, e)
    ensures forall u | start <= u < t :: !Lists(order, u, e)
    decreases |order| - start
  {
    if start == |order| || Lists(order, start, e) then start else NextListing(order, e, start + 1)
  }

  /** Connection `e` takes the index behind one that `d` takes of the same port. */
  ghost predicate Follows(d: Conn, e: Conn) {
    exists p, q :: IsEnd(p, e) && IsEnd(q, d) && KeyOf(p) == KeyOf(q) && p.index == q.index + 1
  }

  /** Connections of the list, each following the one before. */
  ghost predicate Chain(order: seq<Conn>, chain: seq<Conn>) {
    && chain != []
    && (forall i | 0 <= i < |chain| :: chain[i] in order)
    && (forall i | 0 < i < |chain| :: Follows(chain[i - 1], chain[i]))
  }

  /** The first position at which the chain lets its last connection be bound: each one is bound at a
      listing behind the position of the one before. The length of the list when there is none. */
  function Forced(order: seq<Conn>, chain: seq<Conn>): (t: nat)
    requires chain != []
    ensures t <= |order|
  {
    var e := chain[|chain| - 1];
    if |chain| == 1 then NextListing(order, e, 0)
    else
      var t := Forced(order, chain[..|chain| - 1]);
      if t == |order| then t else NextListing(order, e, t + 1)
  }

  /** A chain that forces its last connection past both its listings. */
  ghost predicate Blocked(order: seq<Conn>) {
    exists chain :: Chain(order, chain) && Forced(order, chain) == |order|
  }

  /** Every listed index is 0 or comes behind a listed one of the same port. */
  ghost predicate Gapless(order: seq<Conn>) {
    forall c | c in order ::
      && c.from.index >= 0
      && (c.from.index > 0 ==> exists d :: d in order && d.from == Below(c.from))
  }

  function Below(p: Port): Port {
    p.(index := p.index - 1)
  }

  ghost predicate IsMade(made: seq<Conn>, e: Conn) {
    e in made || Swap(e) in made
  }

  // ------------------------------------------------- the pass, position by position

  lemma {:induction false} MadeStep(order: seq<Conn>, t: nat, e: Conn)
    requires t < |order|
    ensures IsMade(Greedy(order[..t]), e) ==> IsMade(Greedy(order[..t + 1]), e)
    ensures IsMade(Greedy(order[..t + 1]), e) && !IsMade(Greedy(order[..t]), e) ==>
              Lists(order, t, e) && Bindable(Greedy(order[..t]), order[t])
    ensures Lists(order, t, e) && Bindable(Greedy(order[..t]), order[t]) ==> IsMade(Greedy(order[..t + 1]), e)
  {
    hide Greedy, Bindable;
    GreedySnoc(order, t);
  }

  lemma {:induction false} MadeLater(order: seq<Conn>, t: nat, u: nat, e: Conn)
    requires t <= u <= |order| && IsMade(Greedy(order[..t]), e)
    ensures IsMade(Greedy(order[..u]), e)
    decreases u
  {
    if t < u {
      MadeLater(order, t, u - 1, e);
      MadeStep(order, u - 1, e);
    }
  }

  lemma {:induction false} PrefixBinds(order: seq<Conn>, t: nat)
    requires t <= |order| && WellListed(order)
    ensures Binding(Greedy(order[..t])) && Within(Greedy(order[..t]), order)
    ensures forall c | c in Greedy(order[..t]) :: c.from != c.to
  {
    hide Greedy, Binding;
    GreedyBinds(order[..t]);
    assert forall c | c in order[..t] :: c in order;
  }

  /** A bound port belongs to a made connection: with unique peers, to the listed one. */
  lemma {:induction false} BoundIsMade(made: seq<Conn>, order: seq<Conn>, e: Conn, p: Port)
    requires WellListed(order) && UniquePeers(order) && Within(made, order) && e in order && IsEnd(p, e)
    ensures Bound(made, p) <==> IsMade(made, e)
  {
    if Bound(made, p) {
      var i :| 0 <= i < |made| && IsEnd(p, made[i]);
      PeerIs(order, e, made[i], p);
      assert made[i] in made;
    }
    if IsMade(made, e) {
      var i :| 0 <= i < |made| && (made[i] == e || made[i] == Swap(e));
      assert IsEnd(p, made[i]);
    }
  }

  // ------------------------------------------------- a chain holds its last connection back

  /** Nothing is bound before what it follows. */
  lemma {:induction false} BindableAfter(order: seq<Conn>, t: nat, d: Conn, e: Conn)
    requires t < |order| && WellListed(order) && UniquePeers(order) && Gapless(order) && d in order && e in order
    requires Follows(d, e) && Lists(order, t, e) && Bindable(Greedy(order[..t]), order[t])
    ensures IsMade(Greedy(order[..t]), d)
  {
    hide Greedy, Binding;
    var made := Greedy(order[..t]);
    PrefixBinds(order, t);
    var p, q :| IsEnd(p, e) && IsEnd(q, d) && KeyOf(p) == KeyOf(q) && p.index == q.index + 1;
    EndsNonnegative(order, d);
    assert p.index == Count(made, KeyOf(p));
    BoundIffBelowCount(made, q);
    BoundIsMade(made, order, d, q);
  }

  lemma {:induction false} HeldBack(order: seq<Conn>, chain: seq<Conn>, t: nat)
    requires WellListed(order) && UniquePeers(order) && Gapless(order) && Chain(order, chain)
    requires t <= Forced(order, chain)
    ensures !IsMade(Greedy(order[..t]), chain[|chain| - 1])
    decreases |chain|, t
  {
    hide Greedy, Bindable, WellListed, UniquePeers, Gapless, Follows;
    var e := chain[|chain| - 1];
    if t == 0 {
      NothingYet(order);
    } else {
      HeldBack(order, chain, t - 1);
      MadeStep(order, t - 1, e);
      if |chain| > 1 && Lists(order, t - 1, e) {
        var before := chain[..|chain| - 1];
        var d := before[|before| - 1];
        ChainPrefix(order, chain);
        assert t - 1 <= Forced(order, before);
        HeldBack(order, before, t - 1);
        NotBefore(order, t - 1, d, e);
      }
    }
  }

  lemma {:induction false} NotBefore(order: seq<Conn>, t: nat, d: Conn, e: Conn)
    requires t < |order| && WellListed(order) && UniquePeers(order) && Gapless(order) && d in order && e in order
    requires Follows(d, e) && Lists(order, t, e) && !IsMade(Greedy(order[..t]), d)
    ensures !Bindable(Greedy(order[..t]), order[t])
  {
    hide *;
    if Bindable(Greedy(order[..t]), order[t]) { BindableAfter(order, t, d, e); }
  }

  lemma {:induction false} ChainPrefix(order: seq<Conn>, chain: seq<Conn>)
    requires Chain(order, chain) && |chain| > 1
    ensures Chain(order, chain[..|chain| - 1])
    ensures chain[|chain| - 2] in order && chain[|chain| - 1] in order
    ensures Follows(chain[|chain| - 2], chain[|chain| - 1])
  {
    hide Follows;
    var before := chain[..|chain| - 1];
    forall i | 0 < i < |before| ensures Follows(before[i - 1], before[i]) {
      assert before[i - 1] == chain[i - 1] && before[i] == chain[i];
    }
  }

  lemma {:induction false} EndsNonnegative(order: seq<Conn>, d: Conn)
    requires WellListed(order) && Gapless(order) && d in order
    ensures forall q | IsEnd(q, d) :: q.index >= 0
  {
    assert Swap(d) in order && Swap(d).from == d.to;
  }

  // ------------------------------------------------- whatever is held back, a chain holds back

  /** A connection passed over waits for one that has not been made either. */
  lemma {:induction false} PassedOver(order: seq<Conn>, t: nat, e: Conn) returns (d: Conn)
    requires t < |order| && WellListed(order) && UniquePeers(order) && Gapless(order) && e in order
    requires Lists(order, t, e) && !IsMade(Greedy(order[..t + 1]), e)
    ensures d in order && Follows(d, e) && !IsMade(Greedy(order[..t]), d)
  {
    hide Greedy, Binding;
    var made := Greedy(order[..t]);
    PrefixBinds(order, t);
    MadeStep(order, t, e);
    var c := order[t];
    var p := if c.from.index != Count(made, KeyOf(c.from)) then c.from else c.to;
    assert IsEnd(p, e) && p.index != Count(made, KeyOf(p));
    BoundIffBelowCount(made, p);
    BoundIsMade(made, order, e, p);
    EndsNonnegative(order, e);
    d := Predecessor(order, e, p);
    BoundIffBelowCount(made, Below(p));
    BoundIsMade(made, order, d, Below(p));
  }

  lemma {:induction false} Predecessor(order: seq<Conn>, e: Conn, p: Port) returns (d: Conn)
    requires WellListed(order) && Gapless(order) && e in order && IsEnd(p, e) && p.index > 0
    ensures d in order && d.from == Below(p) && Follows(d, e)
  {
    var c := if e.from == p then e else Swap(e);
    assert c in order && c.from == p;
    d :| d in order && d.from == Below(c.from);
    assert IsEnd(p, e) && IsEnd(Below(p), d) && KeyOf(p) == KeyOf(Below(p)) && p.index == Below(p).index + 1;
  }

  /** The last position before `x` that lists `e`, if any. */
  lemma {:induction false} LastListing(order: seq<Conn>, e: Conn, x: nat) returns (t: int)
    requires x <= |order|
    ensures -1 <= t < x
    ensures t >= 0 ==> Lists(order, t, e)
    ensures forall u | t < u < x :: !Lists(order, u, e)
  {
    if x == 0 {
      t := -1;
    } else if Lists(order, x - 1, e) {
      t := x - 1;
    } else {
      t := LastListing(order, e, x - 1);
    }
  }

  lemma {:induction false} ChainTo(order: seq<Conn>, e: Conn, x: nat) returns (chain: seq<Conn>)
    requires WellListed(order) && UniquePeers(order) && Gapless(order) && e in order && x <= |order|
    requires !IsMade(Greedy(order[..x]), e)
    ensures Chain(order, chain) && chain[|chain| - 1] == e && Forced(order, chain) >= x
    decreases x
  {
    hide Greedy, Follows, WellListed, UniquePeers, Gapless;
    var t := LastListing(order, e, x);
    if t < 0 {
      chain := [e];
    } else {
      if IsMade(Greedy(order[..t + 1]), e) { MadeLater(order, t + 1, x, e); }
      var d := PassedOver(order, t, e);
      var before := ChainTo(order, d, t);
      chain := before + [e];
      assert chain[..|before|] == before;
    }
  }

  // ------------------------------------------------- the exact condition

  lemma {:induction false} AcceptedListing(order: seq<Conn>)
    requires WellListed(order) && Accepts(order)
    ensures UniquePeers(order) && Gapless(order)
    ensures forall c | c in order :: IsMade(Greedy(order), c)
  {
    hide Greedy, Binding;
    var made := Greedy(order);
    GreedyBinds(order);
    forall c, d | c in order && d in order && c.from == d.from ensures c == d {
      HalfMeansUniquePeer(made, order, c, d);
    }
    forall c | c in order
      ensures c.from.index >= 0
      ensures c.from.index > 0 ==> exists d :: d in order && d.from == Below(c.from)
    {
      HalfMeansAllIndices(made, order, c.from);
      HalfMeansAllIndices(made, order, Below(c.from));
    }
    forall c | c in order ensures IsMade(made, c) {
      HalfMeansExactlyOneEach(made, order, c);
    }
  }

  lemma {:induction false} AllMadeIsHalf(order: seq<Conn>)
    requires WellListed(order) && forall c | c in order :: IsMade(Greedy(order), c)
    ensures Accepts(order)
  {
    hide Greedy, Binding;
    var made := Greedy(order);
    GreedyBinds(order);
    BothWithin(made, order);
    forall c | c in order ensures c in Both(made) { BothContents(made, c); }
    SubsetSize(Members(order), Members(Both(made)));
  }

  /** The lists the pass accepts, read off the list: every port has one peer, no index is skipped, and
      no chain of connections, each behind the other at some port, runs past the last one's second
      listing. */
  lemma {:induction false} AcceptsIffNotBlocked(order: seq<Conn>)
    requires WellListed(order)
    ensures Accepts(order) <==> UniquePeers(order) && Gapless(order) && !Blocked(order)
  {
    hide Greedy, Accepts, WellListed, UniquePeers, Gapless, Forced;
    assert order[..|order|] == order;
    if Accepts(order) {
      AcceptedListing(order);
      forall chain | Chain(order, chain) ensures Forced(order, chain) != |order| {
        if Forced(order, chain) == |order| { HeldBack(order, chain, |order|); }
      }
    } else if UniquePeers(order) && Gapless(order) {
      if forall c | c in order :: IsMade(Greedy(order), c) {
        AllMadeIsHalf(order);
      } else {
        var e :| e in order && !IsMade(Greedy(order), e);
        var chain := ChainTo(order, e, |order|);
        assert Forced(order, chain) == |order|;
      }
    }
  }
}
