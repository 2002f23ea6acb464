/** What the merged configuration says, read back by section and key. */
module CheckpointWritten {
  import opened Text
  import opened CheckpointNames
  import opened CheckpointAggregator
  import opened CheckpointMerge
  import opened CheckpointOutput

  // ------------------------------------------------- reading a configuration

  ghost function Entry(items: seq<Item>, key: string): Option<Setting> {
    if items == [] then None else if items[0].key == key then Some(items[0].value) else Entry(items[1..], key)
  }

  /** The setting of a key in a section of that name; `None` when there is none. */
  ghost function Lookup(secs: seq<Section>, name: string, key: string): Option<Setting> {
    if secs == [] then None
    else if secs[0].name == name then Entry(secs[0].items, key)
    else Lookup(secs[1..], name, key)
  }

  ghost predicate Named(secs: seq<Section>, name: string) {
    exists p :: 0 <= p < |secs| && secs[p].name == name
  }

  lemma {:induction false} LookupBehind(a: seq<Section>, b: seq<Section>, name: string, key: string)
    requires !Named(a, name)
    ensures Lookup(a + b, name, key) == Lookup(b, name, key)
  {
    if a == [] {
      assert a + b == b;
    } else {
      assert a[0].name != name;
      forall p | 0 <= p < |a[1..]| ensures a[1..][p].name != name { assert a[1..][p] == a[p + 1]; }
      LookupBehind(a[1..], b, name, key);
      assert (a + b)[1..] == a[1..] + b;
    }
  }

  lemma {:induction false} LookupNothing(secs: seq<Section>, name: string, key: string)
    requires !Named(secs, name)
    ensures Lookup(secs, name, key) == None
  {
    LookupBehind(secs, [], name, key);
    assert secs + [] == secs;
  }

  lemma {:induction false} LookupAt(secs: seq<Section>, p: nat, key: string)
    requires p < |secs| && Distinct(secs)
    ensures Lookup(secs, secs[p].name, key) == Entry(secs[p].items, key)
  {
    if p > 0 {
      var rest := secs[1..];
      assert forall q | 0 <= q < |rest| :: rest[q] == secs[q + 1];
      LookupAt(rest, p - 1, key);
    }
  }

  lemma {:induction false} EntrySet(items: seq<Item>, key: string, value: Setting, other: string)
    ensures Entry(SetItem(items, key, value), other) == if other == key then Some(value) else Entry(items, other)
  {
    if items == [] {
      var one := SetItem(items, key, value);
      assert one[1..] == [];
    } else if items[0].key == key {
      assert ([Item(key, value)] + items[1..])[1..] == items[1..];
    } else {
      EntrySet(items[1..], key, value, other);
      assert ([items[0]] + SetItem(items[1..], key, value))[1..] == SetItem(items[1..], key, value);
    }
  }

  lemma {:induction false} LookupSet(
    secs: seq<Section>, name: string, key: string, value: Setting, name': string, key': string)
    requires SetIn(secs, name, key, value).Some?
    ensures Lookup(SetIn(secs, name, key, value).value, name', key')
         == if name' == name && key' == key then Some(value) else Lookup(secs, name', key')
  {
    hide Entry, SetItem;
    var r := SetIn(secs, name, key, value).value;
    if secs[0].name == name {
      EntrySet(secs[0].items, key, value, key');
      assert r[1..] == secs[1..];
    } else {
      LookupSet(secs[1..], name, key, value, name', key');
      assert r[1..] == SetIn(secs[1..], name, key, value).value;
    }
  }

  lemma {:induction false} SetInIff(secs: seq<Section>, name: string, key: string, value: Setting)
    ensures SetIn(secs, name, key, value).Some? <==> Named(secs, name)
  {
    hide SetItem;
    if secs == [] {
    } else {
      SetInIff(secs[1..], name, key, value);
      NamedCons(secs, name);
    }
  }

  lemma {:induction false} NamedCons(secs: seq<Section>, name: string)
    requires secs != []
    ensures Named(secs, name) <==> secs[0].name == name || Named(secs[1..], name)
  {
    if p :| 0 <= p < |secs| && secs[p].name == name { assert p > 0 ==> secs[1..][p - 1].name == name; }
    if p :| 0 <= p < |secs[1..]| && secs[1..][p].name == name { assert secs[p + 1].name == name; }
  }

  lemma {:induction false} NamedSnoc(secs: seq<Section>, name: string)
    requires secs != []
    ensures Named(secs, name) <==> Named(secs[..|secs| - 1], name) || secs[|secs| - 1].name == name
  {
    var init := secs[..|secs| - 1];
    if p :| 0 <= p < |secs| && secs[p].name == name { assert p < |init| ==> init[p].name == name; }
    if p :| 0 <= p < |init| && init[p].name == name { assert secs[p].name == name; }
  }

  // ------------------------------------------------- sections carried over

  lemma {:induction false} MergedSection(sec: Section, i: nat, count: nat, offset: int)
    requires i < count && MergeSection(sec, i, count, offset).Some?
    ensures var m := MergeSection(sec, i, count, offset).value;
            && (HasCpu(sec.name) ==> |m| == 1 && m[0].name == Rename(Tag(i, count), sec.name))
            && (!HasCpu(sec.name) && sec.name != "system" && sec.name != "Globals" ==>
                  m == if i == count - 1 then [sec] else [])
            && (sec.name == "system" || sec.name == "Globals" ==> m == [])
  {
    hide Rename, Tag, HasCpu, MoveItems, CurTick, IsFdMap, SetItem;
    assert !HasCpu("system") && !HasCpu("Globals") by { NoCpu("system"); NoCpu("Globals"); }
  }

  /** Names without a processor: of the last checkpoint they keep their sections, of the others none. */
  lemma {:induction false} MergedLookup(
    secs: seq<Section>, i: nat, count: nat, offset: int, name: string, key: string)
    requires i < count && MergeSections(secs, i, count, offset).Some? && !HasCpu(name)
    ensures var m := MergeSections(secs, i, count, offset).value;
            var kept := i == count - 1 && name != "system" && name != "Globals";
            && (Named(m, name) <==> kept && Named(secs, name))
            && Lookup(m, name, key) == if kept then Lookup(secs, name, key) else None
  {
    hide MergeSection, HasCpu, Rename, Tag, Entry, Lookup, Named;
    if secs == [] {
      NothingNamed(name, key);
    } else {
      var init, last := secs[..|secs| - 1], secs[|secs| - 1];
      var done, more := MergeSections(init, i, count, offset).value, MergeSection(last, i, count, offset).value;
      MergedLookup(init, i, count, offset, name, key);
      MergedSection(last, i, count, offset);
      HasCpuRenamed(Tag(i, count), last.name);
      AddOne(init, last, name, key);
      assert secs == init + [last];
      if more == [] {
        assert done + more == done;
      } else {
        AddOne(done, more[0], name, key);
        assert more == [more[0]];
      }
    }
  }

  lemma {:induction false} NothingNamed(name: string, key: string)
    ensures !Named([], name) && Lookup([], name, key) == None
  {}

  lemma {:induction false} AddOne(secs: seq<Section>, sec: Section, name: string, key: string)
    ensures Named(secs + [sec], name) <==> Named(secs, name) || sec.name == name
    ensures !Named(secs, name) ==> Lookup(secs, name, key) == None
    ensures Lookup(secs + [sec], name, key)
         == if !Named(secs, name) && sec.name == name then Entry(sec.items, key) else Lookup(secs, name, key)
  {
    hide Entry;
    NamedSnoc(secs + [sec], name);
    assert (secs + [sec])[..|secs|] == secs;
    if Named(secs, name) {
      LookupFound(secs, [sec], name, key);
    } else {
      LookupNothing(secs, name, key);
      LookupBehind(secs, [sec], name, key);
      assert [sec][1..] == [];
    }
  }

  lemma {:induction false} LookupFound(a: seq<Section>, b: seq<Section>, name: string, key: string)
    requires Named(a, name)
    ensures Lookup(a + b, name, key) == Lookup(a, name, key)
  {
    hide Entry;
    NamedCons(a, name);
    assert (a + b)[1..] == a[1..] + b;
    if a[0].name != name { LookupFound(a[1..], b, name, key); }
  }

  lemma {:induction false} CptsNotNamed(cpts: seq<Cpt>, i: nat, name: string)
    requires i < |cpts| && MergeCpts(cpts, i).Some? && !HasCpu(name)
    ensures !Named(MergeCpts(cpts, i).value, name)
  {
    hide MergeSections, HasCpu, Rename, Tag, PagesBefore;
    forall p | 0 <= p < |MergeCpts(cpts, i).value| ensures MergeCpts(cpts, i).value[p].name != name {
      var j, k := CptOrigin(cpts, i, p);
      HasCpuRenamed(Tag(j, |cpts|), cpts[j].sections[k].name);
    }
  }

  // ------------------------------------------------- the closing sections

  /** The configuration for a name without a processor: the closing sections, the size of the store, and
      otherwise the last checkpoint's own. */
  lemma {:induction false} ConfigLookup(cpts: seq<Cpt>, wanted: int, name: string, key: string)
    requires cpts != [] && Output(cpts, wanted).Some? && !HasCpu(name)
    ensures var n := |cpts|;
            Lookup(Output(cpts, wanted).value.config, name, key)
            == if name == "system" then Entry(SystemSection(PagesBefore(cpts, n), n).items, key)
               else if name == "Globals" then Entry(GlobalsSection(MaxTick(cpts, n)).items, key)
               else if name == STORE && key == "range_size" then Some(Number(PagesOut(cpts, wanted) * PAGE))
               else Lookup(cpts[n - 1].sections, name, key)
  {
    hide MergeSections, MergeCpts, PagesBefore, PagesOut, MaxTick, SetIn, HasCpu, Entry, Lookup, Named, Memory, Filler;
    var n := |cpts|;
    var before, last := MergeCpts(cpts, n - 1).value, LastSections(cpts).value;
    var system, globals := SystemSection(PagesBefore(cpts, n), n), GlobalsSection(MaxTick(cpts, n));
    var value := Number(PagesOut(cpts, wanted) * PAGE);
    var ranged := SetIn(last + [system], STORE, "range_size", value).value;
    CptsNotNamed(cpts, n - 1, name);
    LookupBehind(before, ranged + [globals], name, key);
    MergedLookup(cpts[n - 1].sections, n - 1, n, PagesBefore(cpts, n - 1) * PAGE, name, key);
    AddOne(last, system, name, key);
    LookupSet(last + [system], STORE, "range_size", value, name, key);
    SetInNamed(last + [system], STORE, "range_size", value, name);
    AddOne(ranged, globals, name, key);
    AddOne(last + [system], globals, name, key);
  }

  lemma {:induction false} SetInNamed(secs: seq<Section>, name: string, key: string, value: Setting, name': string)
    requires SetIn(secs, name, key, value).Some?
    ensures Named(SetIn(secs, name, key, value).value, name') <==> Named(secs, name')
  {
    hide SetItem;
    var r := SetIn(secs, name, key, value).value;
    forall p | 0 <= p < |secs| ensures r[p].name == secs[p].name { SetInKeeps(secs, name, key, value, p); }
  }

  lemma {:induction false} NamesWithoutCpu()
    ensures !HasCpu("system") && !HasCpu("Globals") && !HasCpu(STORE)
  {
    hide HasCpu;
    NoCpu("system");
    NoCpu("Globals");
    NoCpu(STORE);
  }

  /** The system's section counts the pages of all checkpoints and numbers the next process. */
  lemma {:induction false} SystemWritten(cpts: seq<Cpt>, wanted: int)
    requires cpts != [] && Output(cpts, wanted).Some?
    ensures var config := Output(cpts, wanted).value.config;
            && Lookup(config, "system", "pagePtr") == Some(Number(PagesBefore(cpts, |cpts|)))
            && Lookup(config, "system", "nextPID") == Some(Number(|cpts|))
  {
    hide Output, PagesBefore, Lookup, HasCpu;
    NamesWithoutCpu();
    ConfigLookup(cpts, wanted, "system", "pagePtr");
    ConfigLookup(cpts, wanted, "system", "nextPID");
    var items := SystemSection(PagesBefore(cpts, |cpts|), |cpts|).items;
    assert items[1..] == [Item("nextPID", Number(|cpts|))];
  }

  lemma {:induction false} CurTickIsEntry(items: seq<Item>)
    ensures CurTick(items)
         == match Entry(items, "curTick") case Some(Number(n)) => Some(n) case _ => None
  {
    if items == [] {
    } else {
      CurTickIsEntry(items[1..]);
    }
  }

  /** Section `s` of checkpoint `i` is a "Globals" whose curTick is `t`. */
  ghost predicate HasTick(cpts: seq<Cpt>, i: nat, s: nat, t: int)
    requires i < |cpts|
  {
    && s < |cpts[i].sections| && cpts[i].sections[s].name == "Globals"
    && Entry(cpts[i].sections[s].items, "curTick") == Some(Number(t))
  }

  /** The merged tick is the largest of the checkpoints' ticks, and not below zero. */
  lemma {:induction false} GlobalsWritten(cpts: seq<Cpt>, wanted: int)
    requires cpts != [] && Output(cpts, wanted).Some?
    ensures var tick := Lookup(Output(cpts, wanted).value.config, "Globals", "curTick");
            && tick.Some? && tick.value.Number? && tick.value.n >= 0
            && (forall i: nat, s: nat, t: int | i < |cpts| && HasTick(cpts, i, s, t) :: tick.value.n >= t)
            && (tick.value.n == 0 || exists i: nat, s: nat :: i < |cpts| && HasTick(cpts, i, s, tick.value.n))
  {
    hide Output, MaxTick, Lookup, HasCpu, CurTick;
    NamesWithoutCpu();
    ConfigLookup(cpts, wanted, "Globals", "curTick");
    var n := |cpts|;
    forall i: nat, s: nat, t: int | i < n && HasTick(cpts, i, s, t) ensures MaxTick(cpts, n) >= t {
      CurTickIsEntry(cpts[i].sections[s].items);
      MaxTickBounds(cpts, n, i, s);
    }
    var i, s := MaxTickAttained(cpts, n);
    if MaxTick(cpts, n) != 0 {
      CurTickIsEntry(cpts[i].sections[s].items);
      assert HasTick(cpts, i, s, MaxTick(cpts, n));
    }
  }

  /** The store's size is at least the one asked for, less than a page above it when filled up, and the
      number of bytes written exactly when all images are full. */
  lemma {:induction false} StoreWritten(cpts: seq<Cpt>, wanted: int)
    requires cpts != [] && Output(cpts, wanted).Some?
    ensures var out := Output(cpts, wanted).value;
            var size := Lookup(out.config, "system.physmem.store0", "range_size");
            && size.Some? && size.value.Number? && size.value.n >= wanted
            && size.value.n >= PagesBefore(cpts, |cpts|) * 4096
            && (size.value.n > PagesBefore(cpts, |cpts|) * 4096 ==> size.value.n < wanted + 4096)
            && (size.value.n == |out.memory| <==> AllFull(cpts, |cpts|))
  {
    hide MergeCpts, LastSections, Closing, Lookup, HasCpu, PagesBefore, Memory, Padding, MaxTick, AllFull;
    NamesWithoutCpu();
    ConfigLookup(cpts, wanted, STORE, "range_size");
    RangeSize(cpts, wanted);
  }

  /** Everything else of the last checkpoint outside the processors, the store's size apart, is carried
      over as it was. */
  lemma {:induction false} OthersCarried(cpts: seq<Cpt>, wanted: int, name: string, key: string)
    requires cpts != [] && Output(cpts, wanted).Some?
    requires !HasCpu(name) && name != "system" && name != "Globals"
    requires !(name == "system.physmem.store0" && key == "range_size")
    ensures Lookup(Output(cpts, wanted).value.config, name, key) == Lookup(cpts[|cpts| - 1].sections, name, key)
  {
    hide Output, HasCpu, Lookup;
    ConfigLookup(cpts, wanted, name, key);
  }

  // ------------------------------------------------- the processors' sections

  /** A section of open files ends in "workload", one character and "FdMap256". */
  lemma {:induction false} FdMapIff(name: string)
    ensures IsFdMap(name) <==> exists head: string, c: char :: name == head + "workload" + [c] + "FdMap256"
  {
    if IsFdMap(name) {
      var head, c := name[..|name| - 17], name[|name| - 9];
      assert name == name[..|name| - 17] + name[|name| - 17..|name| - 9] + [c] + name[|name| - 8..];
      assert name == head + "workload" + [c] + "FdMap256";
    }
    forall head: string, c: char | name == head + "workload" + [c] + "FdMap256" ensures IsFdMap(name) {
      assert name[|name| - 17..|name| - 9] == "workload" && name[|name| - 8..] == "FdMap256";
    }
  }

  ghost function Moved(value: Option<Setting>, offset: int): Option<Setting> {
    if value.Some? && value.value.Number? then Some(Number(value.value.n + offset)) else value
  }

  lemma {:induction false} MovedEntry(items: seq<Item>, offset: int, key: string)
    requires MoveItems(items, offset).Some?
    ensures var value := Entry(items, key);
            && Entry(MoveItems(items, offset).value, key) == (if key == "paddr" then Moved(value, offset) else value)
            && (key == "paddr" && value.Some? ==> value.value.Number?)
  {
    hide MoveItems;
    MovedPointwise(items, offset);
    MovedFrom(items, MoveItems(items, offset).value, offset, key);
  }

  ghost predicate AllMoved(items: seq<Item>, moved: seq<Item>, offset: int) {
    |items| == |moved| && forall k | 0 <= k < |items| :: MoveItem(items[k], offset) == Some(moved[k])
  }

  lemma {:induction false} MovedPointwise(items: seq<Item>, offset: int)
    requires MoveItems(items, offset).Some?
    ensures AllMoved(items, MoveItems(items, offset).value, offset)
  {
    hide MoveItem, MoveItems;
    MoveItemsLength(items, offset);
    forall k | 0 <= k < |items| ensures MoveItem(items[k], offset) == Some(MoveItems(items, offset).value[k]) {
      MoveItemsAt(items, offset, k);
    }
  }

  lemma {:induction false} MovedFrom(items: seq<Item>, moved: seq<Item>, offset: int, key: string)
    requires AllMoved(items, moved, offset)
    ensures Entry(moved, key) == if key == "paddr" then Moved(Entry(items, key), offset) else Entry(items, key)
    ensures key == "paddr" && Entry(items, key).Some? ==> Entry(items, key).value.Number?
  {
    if items == [] {
    } else {
      assert MoveItem(items[0], offset) == Some(moved[0]);
      assert forall k | 0 <= k < |items[1..]| :: items[1..][k] == items[k + 1] && moved[1..][k] == moved[k + 1];
      MovedFrom(items[1..], moved[1..], offset, key);
    }
  }

  /** Each setting of a processor's section of checkpoint `i`, in the section renamed for it: physical
      addresses are moved behind the pages of the checkpoints before it, the files' owner is the number
      of the checkpoint, and everything else is as it was. */
  lemma {:induction false} ProcessorWritten(cpts: seq<Cpt>, wanted: int, i: nat, s: nat, key: string)
    requires cpts != [] && AllDistinct(cpts) && Output(cpts, wanted).Some? && i < |cpts|
    requires s < |cpts[i].sections| && HasCpu(cpts[i].sections[s].name)
    ensures var sec := cpts[i].sections[s];
            Lookup(Output(cpts, wanted).value.config, Rename(Tag(i, |cpts|), sec.name), key)
            == if key == "M5_pid" && IsFdMap(sec.name) then Some(Number(i))
               else if key == "paddr" then Moved(Entry(sec.items, key), PagesBefore(cpts, i) * 4096)
               else Entry(sec.items, key)
  {
    hide Output, MergeSection, MergeCpts, HasCpu, Rename, Tag, Lookup, Entry, Distinct, IsFdMap, PagesBefore;
    var sec, config := cpts[i].sections[s], Output(cpts, wanted).value.config;
    OutputShape(cpts, wanted);
    OutputDistinct(cpts, wanted);
    var p := SectionInCpts(cpts, |cpts|, i, s);
    NotTheStore(Tag(i, |cpts|), sec.name);
    MergedItems(sec, i, |cpts|, PagesBefore(cpts, i) * PAGE, key);
    LookupAt(config, p, key);
  }

  lemma {:induction false} MergedItems(sec: Section, i: nat, count: nat, offset: int, key: string)
    requires i < count && HasCpu(sec.name) && MergeSection(sec, i, count, offset).Some?
    ensures var m := MergeSection(sec, i, count, offset).value;
            && |m| == 1 && m[0].name == Rename(Tag(i, count), sec.name)
            && Entry(m[0].items, key)
               == if key == "M5_pid" && IsFdMap(sec.name) then Some(Number(i))
                  else if key == "paddr" then Moved(Entry(sec.items, key), offset)
                  else Entry(sec.items, key)
  {
    hide HasCpu, Rename, Tag, MoveItems, SetItem, Entry, IsFdMap, CurTick;
    MovedEntry(sec.items, offset, key);
    EntrySet(MoveItems(sec.items, offset).value, "M5_pid", Number(i), key);
  }

  // ------------------------------------------------- nothing else, and the errors

  /** Every section written is one of the two closing ones, one of the last checkpoint's outside the
      processors, or a processor's, renamed for its checkpoint. */
  lemma {:induction false} NoOtherSections(cpts: seq<Cpt>, wanted: int, p: nat) returns (j: nat, k: nat)
    requires cpts != [] && Output(cpts, wanted).Some? && p < |Output(cpts, wanted).value.config|
    ensures var name := Output(cpts, wanted).value.config[p].name;
            name == "system" || name == "Globals"
            || (j < |cpts| && Origin(name, cpts[j].sections, k, j, |cpts|))
  {
    hide Output, MergeCpts, Origin;
    OutputShape(cpts, wanted);
    j, k := 0, 0;
    if p < |MergeCpts(cpts, |cpts|).value| {
      j, k := CptOrigin(cpts, |cpts|, p);
    }
  }

  /** A section that cannot be converted: a physical address or the global tick is not a number. */
  ghost predicate Unreadable(sec: Section) {
    if HasCpu(sec.name) then
      exists k :: 0 <= k < |sec.items| && sec.items[k].key == "paddr" && !sec.items[k].value.Number?
    else
      sec.name == "Globals" && !exists t :: Entry(sec.items, "curTick") == Some(Number(t))
  }

  lemma {:induction false} MoveFailsIff(items: seq<Item>, offset: int)
    ensures MoveItems(items, offset).None?
            <==> exists k :: 0 <= k < |items| && items[k].key == "paddr" && !items[k].value.Number?
  {
    if MoveItems(items, offset).Some? {
      MovedPointwise(items, offset);
      forall k | 0 <= k < |items| && items[k].key == "paddr" ensures items[k].value.Number? {
        assert MoveItem(items[k], offset).Some?;
      }
    } else {
      var k := MoveFailsAt(items, offset);
    }
  }

  lemma {:induction false} MoveFailsAt(items: seq<Item>, offset: int) returns (k: nat)
    requires MoveItems(items, offset).None?
    ensures k < |items| && MoveItem(items[k], offset).None?
  {
    hide MoveItem;
    k := |items| - 1;
    if MoveItem(items[k], offset).Some? { k := MoveFailsAt(items[..k], offset); }
  }

  lemma {:induction false} SectionFailsIff(sec: Section, i: nat, count: nat, offset: int)
    requires i < count
    ensures MergeSection(sec, i, count, offset).None? <==> Unreadable(sec)
  {
    hide HasCpu, Rename, Tag, MoveItems, SetItem, Entry, IsFdMap, CurTick;
    MoveFailsIff(sec.items, offset);
    CurTickIsEntry(sec.items);
  }

  lemma {:induction false} SectionsFailIff(secs: seq<Section>, i: nat, count: nat, offset: int)
    requires i < count
    ensures MergeSections(secs, i, count, offset).None? <==> exists s :: 0 <= s < |secs| && Unreadable(secs[s])
  {
    hide MergeSection, Unreadable;
    if secs == [] {
    } else {
      var n := |secs| - 1;
      SectionsFailIff(secs[..n], i, count, offset);
      SectionFailsIff(secs[n], i, count, offset);
      if s :| 0 <= s < |secs| && Unreadable(secs[s]) { assert s < n ==> Unreadable(secs[..n][s]); }
      if s :| 0 <= s < |secs[..n]| && Unreadable(secs[..n][s]) { assert Unreadable(secs[s]); }
    }
  }

  ghost predicate SomeUnreadable(cpts: seq<Cpt>, n: nat)
    requires n <= |cpts|
  {
    exists i, s :: 0 <= i < n && 0 <= s < |cpts[i].sections| && Unreadable(cpts[i].sections[s])
  }

  lemma {:induction false} CptsFailIff(cpts: seq<Cpt>, n: nat)
    requires n <= |cpts|
    ensures MergeCpts(cpts, n).None? <==> SomeUnreadable(cpts, n)
  {
    hide MergeSections, Unreadable, PagesBefore;
    if n == 0 {
    } else {
      CptsFailIff(cpts, n - 1);
      SectionsFailIff(cpts[n - 1].sections, n - 1, |cpts|, PagesBefore(cpts, n - 1) * PAGE);
    }
  }

  /** The merge fails if and only if some section cannot be converted or the last checkpoint has no
      store. */
  lemma {:induction false} FailsIff(cpts: seq<Cpt>, wanted: int)
    requires cpts != []
    ensures Output(cpts, wanted).None?
            <==> SomeUnreadable(cpts, |cpts|) || !Named(cpts[|cpts| - 1].sections, "system.physmem.store0")
  {
    hide MergeSections, SetIn, SomeUnreadable, HasCpu, Named, PagesBefore, PagesOut, MaxTick, Memory, Filler;
    var n := |cpts|;
    CptsFailIff(cpts, n);
    assert MergeCpts(cpts, n).None? <==> MergeCpts(cpts, n - 1).None? || LastSections(cpts).None?;
    if MergeCpts(cpts, n).Some? {
      NamesWithoutCpu();
      var last, system := LastSections(cpts).value, SystemSection(PagesBefore(cpts, n), n);
      MergedLookup(cpts[n - 1].sections, n - 1, n, PagesBefore(cpts, n - 1) * PAGE, STORE, "range_size");
      AddOne(last, system, STORE, "range_size");
      SetInIff(last + [system], STORE, "range_size", Number(PagesOut(cpts, wanted) * PAGE));
    }
  }
}
