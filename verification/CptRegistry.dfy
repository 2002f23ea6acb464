/** The upgrader registry: reading the upgrader files, chaining the legacy versions, resolving
    forward dependencies, and processing one checkpoint. */
module CptRegistry {
  import opened CptUpgrader

  /** The declarations of one upgrader file. */
  datatype Decl = Decl(tag: Tag, depends: seq<Tag>, fwdDepends: seq<Tag>, legacyVersion: Version)
  datatype Version = NoVersion | Version(number: int)

  /** Version information found in a checkpoint. */
  datatype CptVersion = Legacy(version: int) | Tagged(tags: set<Tag>) | Unversioned

  datatype Processed = Failed | Stopped | Unchanged | Rewritten(tags: set<Tag>, applied: seq<Tag>)

  ghost predicate DistinctTags(decls: seq<Decl>) {
    forall i, j | 0 <= i < j < |decls| :: decls[i].tag != decls[j].tag
  }

  /** The upgrader that claims a legacy version: its tag, and whether it is still the one registered
      under that tag or a later file has replaced it. */
  datatype Claim = Claim(tag: Tag, live: bool)

  type Claims = map<int, Claim>

  /** No registered upgrader claims two legacy versions. */
  ghost predicate OneVersionEach(legacy: Claims) {
    forall i, j | i in legacy && j in legacy && legacy[i].live && legacy[j].live && legacy[i].tag == legacy[j].tag ::
      i == j
  }

  /** No upgrader with a legacy version has been replaced. */
  ghost predicate Unreplaced(legacy: Claims) {
    forall i | i in legacy :: legacy[i].live
  }

  /** The claims once a later file takes over `tag`. */
  function Replaced(legacy: Claims, tag: Tag): Claims {
    map i | i in legacy :: if legacy[i].tag == tag then Claim(tag, false) else legacy[i]
  }

  /** Versions 3 up to (not including) `end` are registered and `end` is the first one missing. */
  ghost predicate ChainEnds(legacy: Claims, end: int) {
    end >= 3 && end !in legacy && forall i | 3 <= i < end :: i in legacy
  }

  type DependsOn = map<Tag, seq<Tag>>

  /** `depends` with versions 3 up to (not including) `i` each depending on its predecessor only. The
      dependencies set on a replaced upgrader reach nobody. */
  ghost function Chained(depends: DependsOn, legacy: Claims, i: int): DependsOn
    requires i >= 3 && forall k | 2 <= k < i :: k in legacy || i == 3
    decreases i
  {
    if i == 3 then depends
    else
      var before := Chained(depends, legacy, i - 1);
      if legacy[i - 1].live then before[legacy[i - 1].tag := [legacy[i - 2].tag]] else before
  }

  /** `depends` after `tag` has been appended for each tag named in `fwd`. */
  ghost function Appended(depends: DependsOn, fwd: seq<Tag>, tag: Tag): (r: DependsOn)
    requires Elements(fwd) <= depends.Keys
    ensures r.Keys == depends.Keys
  {
    if fwd == [] then depends
    else
      var init, last := fwd[..|fwd| - 1], fwd[|fwd| - 1];
      assert forall t | t in Elements(init) :: t in Elements(fwd);
      assert last in Elements(fwd);
      var r := Appended(depends, init, tag);
      r[last := r[last] + [tag]]
  }

  ghost predicate FwdRegistered(fwd: DependsOn, order: seq<Tag>, tags: set<Tag>) {
    forall k | 0 <= k < |order| :: order[k] in fwd && Elements(fwd[order[k]]) <= tags
  }

  /** `depends` after the forward dependences of all of `order` have been appended. */
  ghost function Resolved(depends: DependsOn, fwd: DependsOn, order: seq<Tag>): (r: DependsOn)
    requires FwdRegistered(fwd, order, depends.Keys)
    ensures r.Keys == depends.Keys
  {
    if order == [] then depends
    else
      var tag := order[|order| - 1];
      Appended(Resolved(depends, fwd, order[..|order| - 1]), fwd[tag], tag)
  }

  /** The tags of `order` that forward-depend on `t`. */
  ghost function ForwardInto(fwd: DependsOn, order: seq<Tag>, t: Tag): set<Tag> {
    set s | s in order && s in fwd && t in fwd[s]
  }

  lemma {:induction false} AppendedAt(depends: DependsOn, fwd: seq<Tag>, tag: Tag, t: Tag)
    requires Elements(fwd) <= depends.Keys && t in depends
    ensures Elements(Appended(depends, fwd, tag)[t])
         == Elements(depends[t]) + if t in fwd then {tag} else {}
  {
    if fwd == [] {
    } else {
      var init, last := fwd[..|fwd| - 1], fwd[|fwd| - 1];
      assert fwd == init + [last];
      ElementsSnoc(init, last);
      AppendedAt(depends, init, tag, t);
      ElementsSnoc(Appended(depends, init, tag)[t], tag);
    }
  }

  lemma {:induction false} ForwardIntoSnoc(fwd: DependsOn, init: seq<Tag>, tag: Tag, t: Tag)
    requires tag in fwd
    ensures ForwardInto(fwd, init + [tag], t) == ForwardInto(fwd, init, t) + if t in fwd[tag] then {tag} else {}
  {}

  /** Forward resolution adds to each tag exactly the tags that forward-depend on it. */
  lemma {:induction false} ResolvedAt(depends: DependsOn, fwd: DependsOn, order: seq<Tag>, t: Tag)
    requires FwdRegistered(fwd, order, depends.Keys) && t in depends
    ensures Elements(Resolved(depends, fwd, order)[t]) == Elements(depends[t]) + ForwardInto(fwd, order, t)
  {
    if order == [] {
      assert ForwardInto(fwd, order, t) == {};
    } else {
      hide Appended, ForwardInto;
      var init, tag := order[..|order| - 1], order[|order| - 1];
      ResolvedAt(depends, fwd, init, t);
      AppendedAt(Resolved(depends, fwd, init), fwd[tag], tag, t);
      ForwardIntoSnoc(fwd, init, tag, t);
      assert order == init + [tag];
    }
  }

  /** In the chain each version depends on its predecessor; everything outside it is unchanged. */
  lemma {:induction false} ChainedAt(depends: DependsOn, legacy: Claims, end: int, t: Tag)
    requires end >= 3 && (forall k | 2 <= k < end :: k in legacy || end == 3)
    requires OneVersionEach(legacy) && t in depends
    ensures t in Chained(depends, legacy, end)
    ensures forall i | 3 <= i < end && legacy[i] == Claim(t, true) ::
              Chained(depends, legacy, end)[t] == [legacy[i - 1].tag]
    ensures (forall i | 3 <= i < end :: legacy[i] != Claim(t, true)) ==> Chained(depends, legacy, end)[t] == depends[t]
  {
    if end > 3 {
      ChainedAt(depends, legacy, end - 1, t);
    }
  }

  ghost function VersionsFrom(legacy: Claims, i: int): set<int> {
    set k | k in legacy && k >= i
  }

  lemma {:induction false} FewerAbove(legacy: Claims, i: int)
    requires i in legacy
    ensures |VersionsFrom(legacy, i + 1)| < |VersionsFrom(legacy, i)|
  {
    assert VersionsFrom(legacy, i) == VersionsFrom(legacy, i + 1) + {i};
  }

  function DepsOf(depends: DependsOn): Deps {
    map t | t in depends :: Elements(depends[t])
  }

  lemma {:induction false} ForwardWithin(fwd: DependsOn, order: seq<Tag>, t: Tag)
    ensures ForwardInto(fwd, order, t) <= Elements(order)
  {}

  lemma {:induction false} FwdRegisteredSnoc(fwd: DependsOn, order: seq<Tag>, n: nat, tags: set<Tag>)
    requires n < |order| && order[n] in fwd
    ensures FwdRegistered(fwd, order[..n + 1], tags)
            <==> FwdRegistered(fwd, order[..n], tags) && Elements(fwd[order[n]]) <= tags
  {
    var init, more := order[..n], order[..n + 1];
    assert more == init + [order[n]];
    if FwdRegistered(fwd, more, tags) {
      assert more[n] == order[n];
      forall k | 0 <= k < |init| ensures init[k] in fwd && Elements(fwd[init[k]]) <= tags {
        assert more[k] == init[k];
      }
    }
  }

  ghost predicate AuditedUpTo(depends: DependsOn, order: seq<Tag>, n: nat)
    requires n <= |order|
  {
    forall k | 0 <= k < n :: order[k] in depends && Elements(depends[order[k]]) <= depends.Keys
  }

  lemma {:induction false} AuditedAll(depends: DependsOn, order: seq<Tag>)
    requires depends.Keys == Elements(order)
    ensures AuditedUpTo(depends, order, |order|) <==> Audited(DepsOf(depends))
  {
    if AuditedUpTo(depends, order, |order|) {
      forall t | t in depends ensures DepsOf(depends)[t] <= depends.Keys {
        var k :| 0 <= k < |order| && order[k] == t;
      }
    }
    if Audited(DepsOf(depends)) {
      forall k | 0 <= k < |order| ensures order[k] in depends && Elements(depends[order[k]]) <= depends.Keys {
        assert order[k] in Elements(order);
        assert DepsOf(depends)[order[k]] <= DepsOf(depends).Keys;
      }
    }
  }

  lemma {:induction false} ResolvedAudited(depends: DependsOn, fwd: DependsOn, order: seq<Tag>)
    requires FwdRegistered(fwd, order, depends.Keys) && depends.Keys == Elements(order)
    requires Audited(DepsOf(depends))
    ensures Audited(DepsOf(Resolved(depends, fwd, order)))
  {
    var r := Resolved(depends, fwd, order);
    forall t | t in r ensures DepsOf(r)[t] <= r.Keys {
      ResolvedAt(depends, fwd, order, t);
      ForwardWithin(fwd, order, t);
      assert DepsOf(depends)[t] <= depends.Keys;
    }
  }

  /** The tags in the order in which they first appear. */
  ghost function TagsOf(decls: seq<Decl>): seq<Tag> {
    if decls == [] then []
    else
      var before, tag := TagsOf(decls[..|decls| - 1]), decls[|decls| - 1].tag;
      if tag in before then before else before + [tag]
  }

  ghost function Declared(decls: seq<Decl>): DependsOn {
    if decls == [] then map[]
    else var d := decls[|decls| - 1]; Declared(decls[..|decls| - 1])[d.tag := d.depends]
  }

  ghost function ForwardOf(decls: seq<Decl>): DependsOn {
    if decls == [] then map[]
    else var d := decls[|decls| - 1]; ForwardOf(decls[..|decls| - 1])[d.tag := d.fwdDepends]
  }

  function Claimed(legacy: Claims, d: Decl): Claims {
    match d.legacyVersion
    case NoVersion => legacy
    case Version(n) => legacy[n := Claim(d.tag, true)]
  }

  /** A later file replaces an earlier one of the same tag, and one that claims the same version. */
  ghost function LegacyOf(decls: seq<Decl>): Claims {
    if decls == [] then map[]
    else
      var d := decls[|decls| - 1];
      var before := LegacyOf(decls[..|decls| - 1]);
      Claimed(Replaced(before, d.tag), d)
  }

  /** Every legacy version from 3 up to (not including) `end` that has not been replaced depends on its
      predecessor. */
  ghost predicate ChainHolds(deps: Deps, legacy: Claims, end: int) {
    && ChainEnds(legacy, end)
    && (end > 3 ==> 2 in legacy)
    && forall i | 3 <= i < end && legacy[i].live ::
         legacy[i].tag in deps && Predecessor(legacy, i) in deps[legacy[i].tag]
  }

  ghost function Predecessor(legacy: Claims, i: int): Tag {
    if i - 1 in legacy then legacy[i - 1].tag else ""
  }

  lemma {:induction false} DepsAt(depends: DependsOn, t: Tag)
    requires t in depends
    ensures t in DepsOf(depends) && DepsOf(depends)[t] == Elements(depends[t])
  {}

  lemma {:induction false} LoadedLink(
    declared: DependsOn, fwd: DependsOn, order: seq<Tag>, legacy: Claims, end: int, i: int)
    requires ChainEnds(legacy, end) && 2 in legacy && OneVersionEach(legacy)
    requires 3 <= i < end && legacy[i].live && legacy[i].tag in declared
    requires Chained(declared, legacy, end).Keys == declared.Keys
    requires FwdRegistered(fwd, order, declared.Keys)
    ensures var deps := DepsOf(Resolved(Chained(declared, legacy, end), fwd, order));
            legacy[i].tag in deps && Predecessor(legacy, i) in deps[legacy[i].tag]
  {
    hide OneVersionEach, Chained, Resolved, DepsOf, FwdRegistered, ForwardInto;
    var chained, t := Chained(declared, legacy, end), legacy[i].tag;
    assert legacy[i] == Claim(t, true);
    ChainedAt(declared, legacy, end, t);
    ResolvedAt(chained, fwd, order, t);
    assert legacy[i - 1].tag in chained[t];
    DepsAt(Resolved(chained, fwd, order), t);
  }

  lemma {:induction false} LoadedChain(
    declared: DependsOn, fwd: DependsOn, order: seq<Tag>, legacy: Claims, end: int)
    requires ChainEnds(legacy, end) && (3 in legacy ==> 2 in legacy) && OneVersionEach(legacy)
    requires forall i | i in legacy :: legacy[i].tag in declared
    requires Chained(declared, legacy, end).Keys == declared.Keys
    requires FwdRegistered(fwd, order, declared.Keys)
    ensures ChainHolds(DepsOf(Resolved(Chained(declared, legacy, end), fwd, order)), legacy, end)
  {
    hide OneVersionEach, Chained, Resolved, DepsOf, FwdRegistered, Predecessor;
    var deps := DepsOf(Resolved(Chained(declared, legacy, end), fwd, order));
    forall i | 3 <= i < end && legacy[i].live
      ensures legacy[i].tag in deps && Predecessor(legacy, i) in deps[legacy[i].tag]
    {
      LoadedLink(declared, fwd, order, legacy, end, i);
    }
  }

  /** The tags that legacy version `v` stands for. */
  ghost function LegacyTags(legacy: Claims, v: int): set<Tag> {
    set i | 2 <= i <= v && i in legacy :: legacy[i].tag
  }

  lemma {:induction false} LegacyTagsNext(legacy: Claims, v: int)
    requires v >= 1 && v + 1 in legacy
    ensures LegacyTags(legacy, v + 1) == LegacyTags(legacy, v) + {legacy[v + 1].tag}
  {
    forall t | t in LegacyTags(legacy, v) ensures t in LegacyTags(legacy, v + 1) {
      var i :| 2 <= i <= v && i in legacy && legacy[i].tag == t;
    }
  }

  lemma {:induction false} ClaimedOnce(legacy: Claims, d: Decl, tags: set<Tag>)
    requires OneVersionEach(legacy) && forall i | i in legacy :: legacy[i].tag in tags
    ensures var after := Claimed(Replaced(legacy, d.tag), d);
            OneVersionEach(after) && forall i | i in after :: after[i].tag in tags + {d.tag}
  {}

  lemma {:induction false} OrderGrows(order: seq<Tag>, tag: Tag)
    requires NoRepeats(order)
    ensures var after := if tag in order then order else order + [tag];
            NoRepeats(after) && Elements(after) == Elements(order) + {tag}
  {
    if tag !in order { ElementsSnoc(order, tag); }
  }

  class Registry {
    var order: seq<Tag>
    var depends: DependsOn
    var fwdDepends: DependsOn
    var legacy: Claims

    ghost predicate Valid()
      reads this
    {
      && NoRepeats(order)
      && depends.Keys == Elements(order)
      && fwdDepends.Keys == Elements(order)
      && (forall i | i in legacy :: legacy[i].tag in depends)
      && OneVersionEach(legacy)
    }

    constructor ()
      ensures Valid() && order == [] && legacy == map[]
    {
      order, depends, fwdDepends, legacy := [], map[], map[], map[];
    }

    /** A new tag is registered behind the others; a known one keeps its place and gets the new file's
        declarations. */
    method Register(d: Decl)
      requires Valid()
      modifies this
      ensures Valid() && order == if d.tag in old(order) then old(order) else old(order) + [d.tag]
      ensures depends == old(depends)[d.tag := d.depends]
      ensures fwdDepends == old(fwdDepends)[d.tag := d.fwdDepends]
      ensures legacy == Claimed(Replaced(old(legacy), d.tag), d)
    {
      hide OneVersionEach, NoRepeats, Replaced, Elements;
      ClaimedOnce(legacy, d, depends.Keys);
      OrderGrows(order, d.tag);
      assert depends[d.tag := d.depends].Keys == depends.Keys + {d.tag};
      assert fwdDepends[d.tag := d.fwdDepends].Keys == fwdDepends.Keys + {d.tag};
      if d.tag !in order {
        order := order + [d.tag];
      }
      depends := depends[d.tag := d.depends];
      fwdDepends := fwdDepends[d.tag := d.fwdDepends];
      legacy := Replaced(legacy, d.tag);
      if d.legacyVersion.Version? {
        legacy := legacy[d.legacyVersion.number := Claim(d.tag, true)];
      }
    }

    /** Make linear dependences for the legacy versions, up to the first gap. Fails only when version
        3 is registered without version 2. */
    method ChainLegacy() returns (ok: bool, ghost end: int)
      requires Valid()
      modifies this`depends
      ensures Valid()
      ensures ok <==> (3 in legacy ==> 2 in legacy)
      ensures ok ==> ChainEnds(legacy, end) && depends == Chained(old(depends), legacy, end)
    {
      hide OneVersionEach, NoRepeats, Elements;
      var i := 3;
      while i in legacy
        invariant i >= 3 && depends.Keys == old(depends).Keys
        invariant forall k | 2 <= k < i :: k in legacy || i == 3
        invariant depends == Chained(old(depends), legacy, i)
        decreases |VersionsFrom(legacy, i)|
      {
        if i - 1 !in legacy {
          return false, 3;
        }
        FewerAbove(legacy, i);
        if legacy[i].live {
          depends := depends[legacy[i].tag := [legacy[i - 1].tag]];
        }
        i := i + 1;
      }
      return true, i;
    }

    /** Append `tag` to the dependences of each tag it forward-depends on. */
    method AppendForward(tag: Tag) returns (ok: bool)
      requires Valid() && tag in fwdDepends
      modifies this`depends
      ensures Valid()
      ensures ok <==> Elements(fwdDepends[tag]) <= old(depends).Keys
      ensures ok ==> depends == Appended(old(depends), fwdDepends[tag], tag)
    {
      hide OneVersionEach, NoRepeats;
      var fwd := fwdDepends[tag];
      for i := 0 to |fwd|
        invariant depends.Keys == old(depends).Keys
        invariant Elements(fwd[..i]) <= old(depends).Keys
        invariant depends == Appended(old(depends), fwd[..i], tag)
      {
        var fd := fwd[i];
        if fd !in depends {
          assert fd in Elements(fwd);
          return false;
        }
        assert fwd[..i + 1] == fwd[..i] + [fd];
        ElementsSnoc(fwd[..i], fd);
        assert fwd[..i + 1][..i] == fwd[..i];
        depends := depends[fd := depends[fd] + [tag]];
      }
      assert fwd[..|fwd|] == fwd;
      return true;
    }

    method AuditOne(tag: Tag) returns (ok: bool)
      requires Valid() && tag in depends
      ensures ok <==> Elements(depends[tag]) <= depends.Keys
    {
      var deps := depends[tag];
      for i := 0 to |deps|
        invariant Elements(deps[..i]) <= depends.Keys
      {
        if deps[i] !in depends {
          assert deps[i] in Elements(deps);
          return false;
        }
        assert deps[..i + 1] == deps[..i] + [deps[i]];
        ElementsSnoc(deps[..i], deps[i]);
      }
      assert deps[..|deps|] == deps;
      return true;
    }

    /** Resolve forward dependencies and audit the declared ones, in registration order. Succeeds
        exactly when every forward and every declared dependency names a registered tag. */
    method ResolveForward() returns (ok: bool)
      requires Valid()
      modifies this`depends
      ensures Valid()
      ensures ok <==> FwdRegistered(fwdDepends, order, depends.Keys) && Audited(DepsOf(old(depends)))
      ensures ok ==> depends == Resolved(old(depends), fwdDepends, order) && Audited(DepsOf(depends))
    {
      hide OneVersionEach, NoRepeats, Resolved, Appended, ForwardInto, FwdRegistered, DepsOf, Audited;
      ghost var keys := depends.Keys;
      AuditedAll(depends, order);
      NothingRegistered(fwdDepends, order, keys, old(depends));
      for n := 0 to |order|
        invariant depends.Keys == keys && AuditedUpTo(old(depends), order, n)
        invariant FwdRegistered(fwdDepends, order[..n], keys)
        invariant depends == Resolved(old(depends), fwdDepends, order[..n])
      {
        var tag := order[n];
        assert tag in Elements(order);
        FwdRegisteredSnoc(fwdDepends, order, n, keys);
        if !FwdRegistered(fwdDepends, order[..n + 1], keys) {
          FwdRegisteredPrefix(fwdDepends, order, n + 1, keys);
        }
        var resolved := AppendForward(tag);
        if !resolved {
          return false;
        }
        ResolvedSnoc(old(depends), fwdDepends, order, n);
        ResolvedAt(old(depends), fwdDepends, order[..n + 1], tag);
        ForwardWithin(fwdDepends, order[..n + 1], tag);
        assert Elements(order[..n + 1]) <= Elements(order);
        var audited := AuditOne(tag);
        if !audited {
          return false;
        }
      }
      assert order[..|order|] == order;
      ResolvedAudited(old(depends), fwdDepends, order);
      return true;
    }

    method RegisterAll(decls: seq<Decl>)
      requires Valid() && order == [] && legacy == map[]
      modifies this
      ensures Valid() && order == TagsOf(decls) && depends == Declared(decls)
      ensures fwdDepends == ForwardOf(decls) && legacy == LegacyOf(decls)
    {
      hide OneVersionEach, NoRepeats;
      for n := 0 to |decls|
        invariant Valid() && order == TagsOf(decls[..n]) && depends == Declared(decls[..n])
        invariant fwdDepends == ForwardOf(decls[..n]) && legacy == LegacyOf(decls[..n])
      {
        assert decls[..n + 1][..n] == decls[..n];
        Register(decls[n]);
      }
      assert decls[..|decls|] == decls;
    }

    /** Read all upgrader files, chain the legacy versions, resolve and audit the dependencies. Fails
        exactly when version 3 comes without version 2 or a dependency is not registered. */
    method LoadAll(decls: seq<Decl>) returns (ok: bool, ghost end: int)
      requires Valid() && order == [] && legacy == map[]
      modifies this
      ensures Valid() && order == TagsOf(decls) && legacy == LegacyOf(decls)
      ensures 3 in legacy && 2 !in legacy ==> !ok
      ensures (3 in legacy ==> 2 in legacy) ==>
                && ChainEnds(legacy, end) && Chained.requires(Declared(decls), legacy, end)
                && (ok <==> && FwdRegistered(ForwardOf(decls), order, Chained(Declared(decls), legacy, end).Keys)
                            && Audited(DepsOf(Chained(Declared(decls), legacy, end))))
      ensures ok ==> Audited(DepsOf(depends)) && ChainHolds(DepsOf(depends), legacy, end)
      ensures ok ==> Chained.requires(Declared(decls), legacy, end)
                     && FwdRegistered(ForwardOf(decls), order, Chained(Declared(decls), legacy, end).Keys)
                     && depends == Resolved(Chained(Declared(decls), legacy, end), ForwardOf(decls), order)
    {
      hide OneVersionEach, NoRepeats, Elements, Chained, Resolved, FwdRegistered, ChainHolds;
      hide DepsOf, Audited, Declared, ForwardOf, LegacyOf, TagsOf;
      RegisterAll(decls);
      ok, end := ChainLegacy();
      if ok {
        ok := ResolveForward();
        if ok {
          LoadedChain(Declared(decls), fwdDepends, order, legacy, end);
        }
      }
    }

    /** Legacy version number to the tags it stands for; a missing version is a lookup error. */
    method ConvertLegacy(version: int) returns (ok: bool, tags: set<Tag>)
      requires Valid()
      ensures ok <==> forall i | 2 <= i <= version :: i in legacy
      ensures ok ==> tags == LegacyTags(legacy, version)
    {
      tags := {};
      var i := 2;
      assert LegacyTags(legacy, 1) == {};
      while i <= version
        invariant forall k | 2 <= k < i :: k in legacy
        invariant i == 2 || i <= version + 1
        invariant i >= 2 && tags == LegacyTags(legacy, i - 1)
      {
        if i !in legacy {
          return false, {};
        }
        LegacyTagsNext(legacy, i - 1);
        tags := tags + {legacy[i].tag};
        i := i + 1;
      }
      assert version < 2 ==> LegacyTags(legacy, version) == {};
      ok := true;
    }

    /** Upgrade one checkpoint: convert its version information to tags, apply everything missing,
        and write the checkpoint back only when something changed. `globals` says whether the section
        that records the tags exists by then; writing to a missing section is an error. */
    method ProcessFile(info: CptVersion, globals: bool) returns (r: Processed)
      requires Valid() && Audited(DepsOf(depends))
      ensures r == Stopped <==> HasStart(info, legacy)
                                && HasCycle(DepsOf(depends), depends.Keys - StartTags(info, legacy))
      ensures r == Unchanged <==> info.Tagged? && depends.Keys <= info.tags
      ensures r == Failed <==> || !HasStart(info, legacy)
                               || (!globals && r != Stopped && r != Unchanged)
      ensures r.Rewritten? ==>
                var start := StartTags(info, legacy);
                && globals
                && r.tags == start + depends.Keys
                && Schedule(DepsOf(depends), start, r.applied)
                && PossibleRun(DepsOf(depends), start, r.applied)
    {
      hide OneVersionEach, NoRepeats, HasCycle, Audited, Schedule, ByRounds;
      var change := false;
      var tags: set<Tag>;
      match info {
        case Legacy(version) =>
          var ok;
          ok, tags := ConvertLegacy(version);
          if !ok {
            return Failed;
          }
          change := true;
        case Tagged(present) =>
          tags := present;
        case Unversioned =>
          return Failed;
      }
      assert tags == StartTags(info, legacy);
      ghost var start := tags;
      var deps := DepsOf(depends);
      assert deps.Keys == depends.Keys;
      var outcome, applied;
      outcome, tags, applied := ApplyMissing(deps, tags);
      NoCycleAmongNone(deps);
      assert deps.Keys <= start ==> deps.Keys - start == {};
      if outcome == Aborted {
        return Stopped;
      }
      change := change || applied != [];
      assert applied != [] ==> applied[0] in Elements(applied);
      if !change {
        return Unchanged;
      }
      r := if globals then Rewritten(tags, applied) else Failed;
    }
  }

  /** Whether the checkpoint says which tags it has. */
  ghost predicate HasStart(info: CptVersion, legacy: Claims) {
    match info
    case Legacy(v) => forall i | 2 <= i <= v :: i in legacy
    case Tagged(_) => true
    case Unversioned => false
  }

  ghost function StartTags(info: CptVersion, legacy: Claims): set<Tag> {
    match info
    case Legacy(v) => LegacyTags(legacy, v)
    case Tagged(tags) => tags
    case Unversioned => {}
  }

  lemma {:induction false} NoCycleAmongNone(deps: Deps)
    ensures !HasCycle(deps, {})
  {}

  /** In every schedule that starts from a legacy checkpoint of version `v`, the remaining legacy
      upgrades of the chain run in increasing version order. */
  lemma {:induction false} LegacyInOrder(
    deps: Deps, legacy: Claims, end: int, v: int, log: seq<Tag>, i: int, j: int, a: nat, b: nat)
    requires ChainHolds(deps, legacy, end) && OneVersionEach(legacy) && Unreplaced(legacy)
    requires Schedule(deps, LegacyTags(legacy, v), log)
    requires v < i < j < end && 2 <= i
    requires a < |log| && b < |log| && log[a] == legacy[i].tag && log[b] == legacy[j].tag
    ensures a < b
    decreases j - i
  {
    hide Cycle, HasCycle, Stuck;
    var before := legacy[j - 1].tag;
    assert before == Predecessor(legacy, j) && before in deps[legacy[j].tag];
    NotConverted(legacy, v, j - 1);
    assert before in Elements(log[..b]);
    var c :| 0 <= c < b && log[c] == before;
    if j - 1 > i {
      LegacyInOrder(deps, legacy, end, v, log, i, j - 1, a, c);
    }
  }

  /** Files with different tags replace nothing. */
  lemma {:induction false} DistinctUnreplaced(decls: seq<Decl>)
    requires DistinctTags(decls)
    ensures Unreplaced(LegacyOf(decls))
    ensures forall i | i in LegacyOf(decls) :: exists k :: 0 <= k < |decls| && decls[k].tag == LegacyOf(decls)[i].tag
  {
    if decls == [] {
    } else {
      var init, d := decls[..|decls| - 1], decls[|decls| - 1];
      DistinctUnreplaced(init);
      var before := LegacyOf(init);
      forall i | i in before ensures before[i].tag != d.tag && before[i].live {
        var k :| 0 <= k < |init| && init[k].tag == before[i].tag;
        assert init[k] == decls[k];
      }
      assert Replaced(before, d.tag) == before;
      forall i | i in LegacyOf(decls) ensures exists k :: 0 <= k < |decls| && decls[k].tag == LegacyOf(decls)[i].tag {
        if i in before && LegacyOf(decls)[i] == before[i] {
          var k :| 0 <= k < |init| && init[k].tag == before[i].tag;
          assert decls[k] == init[k];
        }
      }
    }
  }

  lemma {:induction false} NotConverted(legacy: Claims, v: int, i: int)
    requires OneVersionEach(legacy) && Unreplaced(legacy) && i in legacy && i > v
    ensures legacy[i].tag !in LegacyTags(legacy, v)
  {}

  /** Each legacy version above `v` and below `end` runs before the next. */
  ghost predicate InVersionOrder(run: seq<Tag>, legacy: Claims, v: int, end: int)
    requires forall i | v < i < end :: i in legacy
  {
    forall i | v < i < end - 1 :: Before(run, legacy[i].tag, Successor(legacy, i))
  }

  ghost function Successor(legacy: Claims, i: int): Tag {
    if i + 1 in legacy then legacy[i + 1].tag else ""
  }

  /** The exact condition, whether files have been replaced or not: the remaining legacy upgrades run
      in version order in every possible run if and only if the longest chain of missing dependencies
      under each is shorter than under the next. */
  lemma {:induction false} LegacyOrderIff(
    deps: Deps, start: set<Tag>, log: seq<Tag>, legacy: Claims, v: int, end: int)
    requires Audited(deps) && PossibleRun(deps, start, log)
    requires forall i | v < i < end :: i in legacy && legacy[i].tag in log
    requires forall i | v < i < end - 1 :: legacy[i].tag != Successor(legacy, i)
    ensures (forall run | PossibleRun(deps, start, run) :: InVersionOrder(run, legacy, v, end))
            <==> forall i | v < i < end - 1 :: Shallower(deps, deps.Keys - start, legacy[i].tag, Successor(legacy, i))
  {
    hide PossibleRun, Before, Shallower, Audited;
    forall i | v < i < end - 1
      ensures (forall run | PossibleRun(deps, start, run) :: Before(run, legacy[i].tag, Successor(legacy, i)))
              <==> Shallower(deps, deps.Keys - start, legacy[i].tag, Successor(legacy, i))
    {
      AlwaysBeforeIffShallower(deps, start, log, legacy[i].tag, Successor(legacy, i));
    }
    if forall run | PossibleRun(deps, start, run) :: InVersionOrder(run, legacy, v, end) {
      forall i | v < i < end - 1 ensures Shallower(deps, deps.Keys - start, legacy[i].tag, Successor(legacy, i)) {
        forall run | PossibleRun(deps, start, run) ensures Before(run, legacy[i].tag, Successor(legacy, i)) {
          assert InVersionOrder(run, legacy, v, end);
        }
      }
    }
  }

  /** Versions 2 and 3, the latter's file replaced by one that declares nothing. */
  ghost function BrokenChain(): seq<Decl> {
    [Decl("a", [], [], Version(2)), Decl("b", [], [], Version(3)), Decl("b", [], [], NoVersion)]
  }

  lemma {:induction false} BrokenLegacy()
    ensures LegacyOf(BrokenChain()) == map[2 := Claim("a", true), 3 := Claim("b", false)]
  {
    var d := BrokenChain();
    assert d[..2][..1] == d[..1] && d[..1][..0] == [];
    assert LegacyOf(d[..1]) == map[2 := Claim("a", true)];
    assert LegacyOf(d[..2]) == map[2 := Claim("a", true), 3 := Claim("b", true)];
  }

  lemma {:induction false} BrokenDeclared()
    ensures Declared(BrokenChain()) == map["a" := [], "b" := []]
  {
    var d := BrokenChain();
    assert d[..2][..1] == d[..1] && d[..1][..0] == [];
    assert Declared(d[..1]) == map["a" := []];
    assert Declared(d[..2]) == map["a" := [], "b" := []];
  }

  /** With nothing to wait for, any order is possible. */
  lemma {:induction false} FreeOrder(deps: Deps)
    requires deps == map["a" := {}, "b" := {}]
    ensures PossibleRun(deps, {}, ["b", "a"])
  {
    var log := ["b", "a"];
    assert After(deps, {}, 0) == {};
    assert After(deps, {}, 1) == {"a", "b"};
    assert Elements(log) == {"a", "b"} by { assert log[0] == "b" && log[1] == "a"; }
    forall k: nat | "a" in After(deps, {}, k) ensures "b" in After(deps, {}, k) {
      if k > 0 { AfterGrows(deps, {}, 1, k); }
    }
    assert NoLater(deps, {}, "b", "a");
    forall p | p != [] ensures !Cycle(deps, deps.Keys - {}, p) {
      assert p[|p| - 1] in deps ==> deps[p[|p| - 1]] == {};
    }
  }

  /** A replaced file can lose the order: version 3 may run before version 2. */
  lemma {:induction false} ReplacedFileBreaksChain()
    ensures var legacy := LegacyOf(BrokenChain());
            && legacy == map[2 := Claim("a", true), 3 := Claim("b", false)] && ChainEnds(legacy, 4)
            && PossibleRun(DepsOf(Chained(Declared(BrokenChain()), legacy, 4)), LegacyTags(legacy, 1), ["b", "a"])
  {
    hide LegacyOf, Declared, PossibleRun;
    BrokenLegacy();
    BrokenDeclared();
    var legacy, declared := LegacyOf(BrokenChain()), Declared(BrokenChain());
    assert Chained(declared, legacy, 4) == declared;
    var free: DependsOn := map["a" := [], "b" := []];
    assert DepsOf(free)["a"] == Elements([]) == {} && DepsOf(free)["b"] == {};
    assert DepsOf(free) == map["a" := {}, "b" := {}];
    assert LegacyTags(legacy, 1) == {};
    FreeOrder(DepsOf(declared));
  }

  lemma {:induction false} NothingRegistered(fwd: DependsOn, order: seq<Tag>, tags: set<Tag>, depends: DependsOn)
    requires depends.Keys == tags
    ensures FwdRegistered(fwd, order[..0], tags) && Resolved(depends, fwd, order[..0]) == depends
  {}

  lemma {:induction false} FwdRegisteredPrefix(fwd: DependsOn, order: seq<Tag>, n: nat, tags: set<Tag>)
    requires n <= |order| && !FwdRegistered(fwd, order[..n], tags)
    ensures !FwdRegistered(fwd, order, tags)
  {
    var k :| 0 <= k < n && !(order[..n][k] in fwd && Elements(fwd[order[..n][k]]) <= tags);
    assert order[k] == order[..n][k];
  }

  lemma {:induction false} ResolvedSnoc(depends: DependsOn, fwd: DependsOn, order: seq<Tag>, n: nat)
    requires n < |order| && FwdRegistered(fwd, order[..n], depends.Keys)
    requires FwdRegistered(fwd, order[..n + 1], depends.Keys) && order[n] in fwd
    ensures Elements(fwd[order[n]]) <= depends.Keys
    ensures Resolved(depends, fwd, order[..n + 1])
         == Appended(Resolved(depends, fwd, order[..n]), fwd[order[n]], order[n])
  {
    assert order[..n + 1][..n] == order[..n];
    assert order[..n + 1][n] == order[n];
  }
}
