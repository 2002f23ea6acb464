/** The files written: one configuration whose sections are all different, whose moved addresses read
    the bytes they read before. */
module CheckpointOutput {
  import opened Bits
  import opened Text
  import opened CheckpointNames
  import opened CheckpointAggregator
  import opened CheckpointMerge

  const STORE := "system.physmem.store0"

  datatype Merged = Merged(config: seq<Section>, memory: Bytes)

  // ------------------------------------------------- the largest tick

  function Larger(t: int, o: Option<int>): int {
    if o.Some? && o.value > t then o.value else t
  }

  function TickAfter(secs: seq<Section>, t: int): int {
    if secs == [] then t
    else
      var last := secs[|secs| - 1];
      Larger(TickAfter(secs[..|secs| - 1], t), if last.name == "Globals" then CurTick(last.items) else None)
  }

  function MaxTick(cpts: seq<Cpt>, i: nat): int
    requires i <= |cpts|
  {
    if i == 0 then 0 else TickAfter(cpts[i - 1].sections, MaxTick(cpts, i - 1))
  }

  lemma {:induction false} TickAfterBounds(secs: seq<Section>, t: int, s: nat)
    ensures TickAfter(secs, t) >= t
    ensures s < |secs| && secs[s].name == "Globals" && CurTick(secs[s].items).Some?
            ==> TickAfter(secs, t) >= CurTick(secs[s].items).value
  {
    hide CurTick;
    if secs == [] {
    } else {
      TickAfterBounds(secs[..|secs| - 1], t, s);
    }
  }

  /** The merged tick is at least that of every checkpoint. */
  lemma {:induction false} MaxTickBounds(cpts: seq<Cpt>, n: nat, i: nat, s: nat)
    requires i < n <= |cpts| && s < |cpts[i].sections|
    requires cpts[i].sections[s].name == "Globals" && CurTick(cpts[i].sections[s].items).Some?
    ensures MaxTick(cpts, n) >= CurTick(cpts[i].sections[s].items).value
  {
    hide CurTick, TickAfter;
    TickAfterBounds(cpts[n - 1].sections, MaxTick(cpts, n - 1), s);
    if i < n - 1 { MaxTickBounds(cpts, n - 1, i, s); }
  }

  /** Section `s` of checkpoint `i` gives the tick `t`. */
  ghost predicate GivesTick(cpts: seq<Cpt>, i: nat, s: nat, t: int) {
    && i < |cpts| && s < |cpts[i].sections|
    && cpts[i].sections[s].name == "Globals" && CurTick(cpts[i].sections[s].items) == Some(t)
  }

  lemma {:induction false} TickAfterAttained(secs: seq<Section>, t: int) returns (s: nat)
    ensures TickAfter(secs, t) == t
            || (s < |secs| && secs[s].name == "Globals" && CurTick(secs[s].items) == Some(TickAfter(secs, t)))
  {
    hide CurTick;
    if secs == [] {
      s := 0;
    } else {
      s := TickAfterAttained(secs[..|secs| - 1], t);
      if TickAfter(secs, t) != TickAfter(secs[..|secs| - 1], t) { s := |secs| - 1; }
    }
  }

  /** The merged tick is the largest there is: 0, or that of one of the checkpoints. */
  lemma {:induction false} MaxTickAttained(cpts: seq<Cpt>, n: nat) returns (i: nat, s: nat)
    requires n <= |cpts|
    ensures MaxTick(cpts, n) >= 0
    ensures MaxTick(cpts, n) == 0 || (i < n && GivesTick(cpts, i, s, MaxTick(cpts, n)))
  {
    hide CurTick, TickAfter;
    if n == 0 {
      i, s := 0, 0;
    } else {
      i, s := MaxTickAttained(cpts, n - 1);
      TickAfterBounds(cpts[n - 1].sections, MaxTick(cpts, n - 1), 0);
      var s' := TickAfterAttained(cpts[n - 1].sections, MaxTick(cpts, n - 1));
      if MaxTick(cpts, n) != MaxTick(cpts, n - 1) { i, s := n - 1, s'; }
    }
  }

  // ------------------------------------------------- the whole output

  /** Set an item of a named section; an error when there is no such section. */
  function SetIn(secs: seq<Section>, name: string, key: string, value: Setting): (r: Option<seq<Section>>)
    ensures r.Some? ==> |r.value| == |secs|
  {
    if secs == [] then None
    else if secs[0].name == name then Some([Section(name, SetItem(secs[0].items, key, value))] + secs[1..])
    else
      var rest := SetIn(secs[1..], name, key, value);
      if rest.None? then None else Some([secs[0]] + rest.value)
  }

  lemma {:induction false} SetInKeeps(secs: seq<Section>, name: string, key: string, value: Setting, p: nat)
    requires SetIn(secs, name, key, value).Some? && p < |secs|
    ensures SetIn(secs, name, key, value).value[p].name == secs[p].name
    ensures secs[p].name != name ==> SetIn(secs, name, key, value).value[p] == secs[p]
  {
    if secs[0].name != name && p > 0 {
      SetInKeeps(secs[1..], name, key, value, p - 1);
    }
  }

  function SystemSection(pagePtr: nat, count: nat): Section {
    Section("system", [Item("pagePtr", Number(pagePtr)), Item("nextPID", Number(count))])
  }

  function GlobalsSection(tick: int): Section {
    Section("Globals", [Item("curTick", Number(tick))])
  }

  /** The sections behind those of the earlier checkpoints. */
  function Closing(last: seq<Section>, pagePtr: nat, count: nat, pages: nat, tick: int): Option<seq<Section>> {
    var ranged := SetIn(last + [SystemSection(pagePtr, count)], STORE, "range_size", Number(pages * PAGE));
    if ranged.None? then None else Some(ranged.value + [GlobalsSection(tick)])
  }

  function LastSections(cpts: seq<Cpt>): Option<seq<Section>>
    requires cpts != []
  {
    var n := |cpts| - 1;
    MergeSections(cpts[n].sections, n, n + 1, PagesBefore(cpts, n) * PAGE)
  }

  function PagesOut(cpts: seq<Cpt>, wanted: int): nat {
    PagesBefore(cpts, |cpts|) + Padding(PagesBefore(cpts, |cpts|) * PAGE, wanted)
  }

  function Output(cpts: seq<Cpt>, wanted: int): Option<Merged>
    requires cpts != []
  {
    var n := |cpts|;
    var before, last := MergeCpts(cpts, n - 1), LastSections(cpts);
    if before.None? || last.None? then None
    else
      var pagePtr, pages := PagesBefore(cpts, n), PagesOut(cpts, wanted);
      var closing := Closing(last.value, pagePtr, n, pages, MaxTick(cpts, n));
      if closing.None? then None
      else Some(Merged(before.value + closing.value, Memory(cpts, n) + Filler(pages - pagePtr)))
  }

  // ------------------------------------------------- distinct names

  lemma {:induction false} CptOrigin(cpts: seq<Cpt>, i: nat, p: nat) returns (j: nat, k: nat)
    requires i <= |cpts| && MergeCpts(cpts, i).Some? && p < |MergeCpts(cpts, i).value|
    ensures j < i && Origin(MergeCpts(cpts, i).value[p].name, cpts[j].sections, k, j, |cpts|)
  {
    hide Origin, MergeSections, PagesBefore;
    var done := MergeCpts(cpts, i - 1).value;
    if p < |done| {
      j, k := CptOrigin(cpts, i - 1, p);
    } else {
      j := i - 1;
      k := SectionOrigin(cpts[j].sections, j, |cpts|, PagesBefore(cpts, j) * PAGE, p - |done|);
    }
  }

  lemma {:induction false} CptsDistinct(cpts: seq<Cpt>, i: nat)
    requires i <= |cpts| && MergeCpts(cpts, i).Some? && AllDistinct(cpts)
    ensures Distinct(MergeCpts(cpts, i).value)
  {
    hide Origin, MergeSections, PagesBefore;
    if i == 0 {
    } else {
      CptsDistinct(cpts, i - 1);
      var offset := PagesBefore(cpts, i - 1) * PAGE;
      var done, last := MergeCpts(cpts, i - 1).value, MergeSections(cpts[i - 1].sections, i - 1, |cpts|, offset).value;
      SectionsDistinct(cpts[i - 1].sections, i - 1, |cpts|, offset);
      forall p, q | 0 <= p < |done| && 0 <= q < |last| ensures done[p].name != last[q].name {
        var j, k := CptOrigin(cpts, i - 1, p);
        var k' := SectionOrigin(cpts[i - 1].sections, i - 1, |cpts|, offset, q);
        if done[p].name == last[q].name {
          OriginsApart(done[p].name, cpts[j].sections, k, j, last[q].name, cpts[i - 1].sections, k', i - 1, |cpts|);
          assert false;
        }
      }
    }
  }

  lemma {:induction false} NoCpu(s: string)
    requires 'c' !in s
    ensures !HasCpu(s)
  {
    if s == [] {
    } else {
      NoCpu(s[1..]);
    }
  }

  /** Neither closing section's name is taken. */
  lemma {:induction false} ClosingNamesFree(cpts: seq<Cpt>, p: nat)
    requires MergeCpts(cpts, |cpts|).Some? && p < |MergeCpts(cpts, |cpts|).value|
    ensures var name := MergeCpts(cpts, |cpts|).value[p].name; name != "system" && name != "Globals"
  {
    var j, k := CptOrigin(cpts, |cpts|, p);
    NoCpu("system");
    NoCpu("Globals");
    HasCpuRenamed(Tag(j, |cpts|), cpts[j].sections[k].name);
    hide HasCpu, Rename, Tag, MergeCpts;
  }

  /** The merged configuration, section by section: those of the checkpoints, then the two that
      close it, with only the memory's section changed. */
  lemma {:induction false} OutputShape(cpts: seq<Cpt>, wanted: int)
    requires cpts != [] && Output(cpts, wanted).Some?
    ensures MergeCpts(cpts, |cpts|).Some?
    ensures var config, all := Output(cpts, wanted).value.config, MergeCpts(cpts, |cpts|).value;
            && |config| == |all| + 2
            && config[|all|].name == "system" && config[|all| + 1].name == "Globals"
            && (forall p | 0 <= p < |all| :: config[p].name == all[p].name)
            && (forall p | 0 <= p < |all| :: all[p].name == STORE || config[p] == all[p])
  {
    hide MergeSections, PagesBefore, Memory, Padding, MaxTick, SetIn, SetItem;
    var n := |cpts|;
    var before, last := MergeCpts(cpts, n - 1).value, LastSections(cpts).value;
    var pagePtr, pages := PagesBefore(cpts, n), PagesOut(cpts, wanted);
    var all, config := MergeCpts(cpts, n).value, Output(cpts, wanted).value.config;
    assert all == before + last;
    var secs := last + [SystemSection(pagePtr, n)];
    var value := Number(pages * PAGE);
    var ranged := SetIn(secs, STORE, "range_size", value).value;
    assert config == before + (ranged + [GlobalsSection(MaxTick(cpts, n))]);
    forall q | 0 <= q < |secs|
      ensures ranged[q].name == secs[q].name && (secs[q].name == STORE || ranged[q] == secs[q])
    {
      SetInKeeps(secs, STORE, "range_size", value, q);
    }
    forall p | 0 <= p < |all|
      ensures config[p].name == all[p].name && (all[p].name == STORE || config[p] == all[p])
    {
      if p >= |before| {
        assert config[p] == ranged[p - |before|] && all[p] == secs[p - |before|];
      }
    }
    assert config[|all|] == ranged[|last|] && secs[|last|] == SystemSection(pagePtr, n);
  }

  /** No section is written twice. */
  lemma {:induction false} OutputDistinct(cpts: seq<Cpt>, wanted: int)
    requires cpts != [] && AllDistinct(cpts) && Output(cpts, wanted).Some?
    ensures Distinct(Output(cpts, wanted).value.config)
  {
    hide Output, MergeCpts, AllDistinct;
    OutputShape(cpts, wanted);
    CptsDistinct(cpts, |cpts|);
    var all := MergeCpts(cpts, |cpts|).value;
    forall p | 0 <= p < |all| ensures all[p].name != "system" && all[p].name != "Globals" {
      ClosingNamesFree(cpts, p);
    }
  }

  // ------------------------------------------------- moved addresses

  lemma {:induction false} SectionInMerged(secs: seq<Section>, i: nat, count: nat, offset: int, s: nat)
    returns (p: nat)
    requires i < count && MergeSections(secs, i, count, offset).Some? && s < |secs| && HasCpu(secs[s].name)
    ensures MergeSection(secs[s], i, count, offset).Some? && |MergeSection(secs[s], i, count, offset).value| == 1
    ensures p < |MergeSections(secs, i, count, offset).value|
    ensures MergeSections(secs, i, count, offset).value[p] == MergeSection(secs[s], i, count, offset).value[0]
  {
    hide Rename, Tag, HasCpu, MoveItems, CurTick, IsFdMap, SetItem;
    if s < |secs| - 1 {
      p := SectionInMerged(secs[..|secs| - 1], i, count, offset, s);
    } else {
      p := |MergeSections(secs[..s], i, count, offset).value|;
      assert secs[..|secs| - 1] == secs[..s];
    }
  }

  lemma {:induction false} SectionInCpts(cpts: seq<Cpt>, n: nat, i: nat, s: nat) returns (p: nat)
    requires i < n <= |cpts| && MergeCpts(cpts, n).Some?
    requires s < |cpts[i].sections| && HasCpu(cpts[i].sections[s].name)
    ensures var m := MergeSection(cpts[i].sections[s], i, |cpts|, PagesBefore(cpts, i) * PAGE);
            m.Some? && |m.value| == 1 && p < |MergeCpts(cpts, n).value| && MergeCpts(cpts, n).value[p] == m.value[0]
  {
    hide MergeSection, MergeSections, HasCpu;
    if i < n - 1 {
      p := SectionInCpts(cpts, n - 1, i, s);
    } else {
      p := SectionInMerged(cpts[i].sections, i, |cpts|, PagesBefore(cpts, i) * PAGE, s);
      p := p + |MergeCpts(cpts, i).value|;
    }
  }

  lemma {:induction false} SetItemKeeps(items: seq<Item>, key: string, value: Setting, k: nat)
    requires k < |items| && items[k].key != key
    ensures k < |SetItem(items, key, value)| && SetItem(items, key, value)[k] == items[k]
  {
    if k > 0 && items[0].key != key { SetItemKeeps(items[1..], key, value, k - 1); }
  }

  lemma {:induction false} PaddrMoved(sec: Section, i: nat, count: nat, offset: int, k: nat)
    requires i < count && HasCpu(sec.name) && k < |sec.items| && sec.items[k].key == "paddr"
    requires MergeSection(sec, i, count, offset).Some?
    ensures sec.items[k].value.Number?
    ensures var out := MergeSection(sec, i, count, offset).value[0];
            && out.name == Rename(Tag(i, count), sec.name) && k < |out.items|
            && out.items[k] == Item("paddr", Number(sec.items[k].value.n + offset))
  {
    hide Rename, Tag, HasCpu, MoveItems, CurTick, IsFdMap, SetItem;
    MoveItemsAt(sec.items, offset, k);
    SetItemKeeps(MoveItems(sec.items, offset).value, "M5_pid", Number(i), k);
  }

  /** A physical address in a processor's section of checkpoint `i` is found moved in the output, in
      the section renamed for that checkpoint; and when the images before it are full, the merged
      memory holds at the moved address the byte that checkpoint held at the old one. */
  lemma {:induction false} AddressFollowsMemory(cpts: seq<Cpt>, wanted: int, i: nat, s: nat, k: nat) returns (p: nat)
    requires cpts != [] && Output(cpts, wanted).Some? && i < |cpts|
    requires s < |cpts[i].sections| && HasCpu(cpts[i].sections[s].name)
    requires k < |cpts[i].sections[s].items| && cpts[i].sections[s].items[k].key == "paddr"
    ensures cpts[i].sections[s].items[k].value.Number?
    ensures var out, addr := Output(cpts, wanted).value, cpts[i].sections[s].items[k].value.n;
            var moved := addr + PagesBefore(cpts, i) * PAGE;
            && p < |out.config| && out.config[p].name == Rename(Tag(i, |cpts|), cpts[i].sections[s].name)
            && k < |out.config[p].items| && out.config[p].items[k] == Item("paddr", Number(moved))
            && (AllFull(cpts, i) && 0 <= addr < cpts[i].pages * PAGE && addr < |cpts[i].image| ==>
                  moved < |out.memory| && out.memory[moved] == cpts[i].image[addr])
  {
    hide MergeSection, MergeCpts, HasCpu, Rename, Tag, Output, PagesBefore, Memory;
    var sec, offset := cpts[i].sections[s], PagesBefore(cpts, i) * PAGE;
    OutputShape(cpts, wanted);
    p := SectionInCpts(cpts, |cpts|, i, s);
    PaddrMoved(sec, i, |cpts|, offset, k);
    NotTheStore(Tag(i, |cpts|), sec.name);
    var addr := sec.items[k].value.n;
    if AllFull(cpts, i) && 0 <= addr < cpts[i].pages * PAGE && addr < |cpts[i].image| {
      OutputMemory(cpts, wanted);
      MemoryPreserved(cpts, i, addr);
    }
  }

  lemma {:induction false} NotTheStore(tag: string, name: string)
    requires HasCpu(name)
    ensures Rename(tag, name) != STORE
  {
    hide HasCpu, Rename;
    HasCpuRenamed(tag, name);
    NoCpu(STORE);
  }

  lemma {:induction false} OutputMemory(cpts: seq<Cpt>, wanted: int)
    requires cpts != [] && Output(cpts, wanted).Some?
    ensures Memory(cpts, |cpts|) <= Output(cpts, wanted).value.memory
  {
    hide MergeCpts, LastSections, Closing, Memory, PagesBefore, MaxTick, Padding;
  }

  // ------------------------------------------------- the program

  /** Copy a section's items, moving physical addresses. */
  method CopyItems(items: seq<Item>, offset: int) returns (r: Option<seq<Item>>)
    ensures r == MoveItems(items, offset)
  {
    hide MoveItem;
    var done: seq<Item> := [];
    for k := 0 to |items|
      invariant MoveItems(items[..k], offset) == Some(done)
    {
      assert items[..k + 1][..k] == items[..k];
      var item := MoveItem(items[k], offset);
      if item.None? {
        MoveItemsFails(items, offset, k);
        return None;
      }
      done := done + [item.value];
    }
    assert items[..|items|] == items;
    r := Some(done);
  }

  /** One pass over the sections of checkpoint `i`. */
  method CopySections(secs: seq<Section>, i: nat, count: nat, offset: int, tick: int)
    returns (merged: Option<seq<Section>>, maxTick: int)
    requires i < count
    ensures merged == MergeSections(secs, i, count, offset)
    ensures merged.Some? ==> maxTick == TickAfter(secs, tick)
  {
    hide HasCpu, Rename, Tag, IsFdMap, CurTick, MoveItems, SetItem, Larger;
    var done: seq<Section> := [];
    maxTick := tick;
    for s := 0 to |secs|
      invariant MergeSections(secs[..s], i, count, offset) == Some(done)
      invariant maxTick == TickAfter(secs[..s], tick)
    {
      var sec := secs[s];
      assert secs[..s + 1][..s] == secs[..s] && done + [] == done;
      if MergeSection(sec, i, count, offset).None? {
        MergeSectionsFails(secs, i, count, offset, s);
      }
      if HasCpu(sec.name) {
        var items := CopyItems(sec.items, offset);
        if items.None? { return None, maxTick; }
        var all := items.value;
        if IsFdMap(sec.name) {
          all := SetItem(all, "M5_pid", Number(i));
        }
        done := done + [Section(Rename(Tag(i, count), sec.name), all)];
        GlobalsHasNoCpu();
      } else if sec.name == "system" {
      } else if sec.name == "Globals" {
        var t := CurTick(sec.items);
        if t.None? { return None, maxTick; }
        maxTick := Larger(maxTick, t);
      } else if i == count - 1 {
        done := done + [sec];
      }
      LargerNone(TickAfter(secs[..s], tick));
    }
    assert secs[..|secs|] == secs;
    merged := Some(done);
  }

  lemma {:induction false} LargerNone(t: int)
    ensures Larger(t, None) == t
  {}

  lemma {:induction false} GlobalsHasNoCpu()
    ensures !HasCpu("Globals")
  {
    NoCpu("Globals");
  }

  lemma {:induction false} MergeSectionsFails(secs: seq<Section>, i: nat, count: nat, offset: int, s: nat)
    requires i < count && s < |secs| && MergeSection(secs[s], i, count, offset).None?
    ensures MergeSections(secs, i, count, offset).None?
  {
    hide MergeSection;
    if s < |secs| - 1 { MergeSectionsFails(secs[..|secs| - 1], i, count, offset, s); }
  }

  lemma {:induction false} MergeCptsFails(cpts: seq<Cpt>, i: nat, n: nat)
    requires i < n <= |cpts|
    requires MergeSections(cpts[i].sections, i, |cpts|, PagesBefore(cpts, i) * PAGE).None?
    ensures MergeCpts(cpts, n).None?
  {
    hide MergeSections, PagesBefore;
    if i < n - 1 { MergeCptsFails(cpts, i, n - 1); }
  }

  /** Merge the checkpoints; `None` stands for any of the conversion errors. */
  method Aggregate(cpts: seq<Cpt>, wanted: int) returns (r: Option<Merged>)
    requires |cpts| >= 2
    ensures r == Output(cpts, wanted)
  {
    hide MergeSections, TickAfter, Closing, PagesBefore, Memory, Padding, Filler;
    var config: seq<Section>, last: seq<Section>, memory: Bytes := [], [], [];
    var pagePtr, maxTick := 0, 0;
    NothingYet(cpts);
    for i := 0 to |cpts|
      invariant pagePtr == PagesBefore(cpts, i) && maxTick == MaxTick(cpts, i) && memory == Memory(cpts, i)
      invariant i < |cpts| ==> MergeCpts(cpts, i) == Some(config)
      invariant i == |cpts| ==> MergeCpts(cpts, i - 1) == Some(config) && LastSections(cpts) == Some(last)
    {
      var merged, tick := CopySections(cpts[i].sections, i, |cpts|, pagePtr * PAGE, maxTick);
      if merged.None? {
        if i < |cpts| - 1 { MergeCptsFails(cpts, i, |cpts| - 1); }
        return None;
      }
      maxTick := tick;
      if i != |cpts| - 1 {
        config := config + merged.value;
      } else {
        last := merged.value;
      }
      var copied := CopyPages(cpts[i].image, cpts[i].pages);
      OneMore(cpts, i);
      memory := memory + copied;
      pagePtr := pagePtr + cpts[i].pages;
    }
    var out, pages := PadMemory(memory, pagePtr, wanted);
    var closing := Closing(last, pagePtr, |cpts|, pages, maxTick);
    if closing.None? { return None; }
    r := Some(Merged(config + closing.value, out));
  }

  lemma {:induction false} NothingYet(cpts: seq<Cpt>)
    ensures PagesBefore(cpts, 0) == 0 && Memory(cpts, 0) == []
  {}

  lemma {:induction false} OneMore(cpts: seq<Cpt>, i: nat)
    requires i < |cpts|
    ensures PagesBefore(cpts, i + 1) == PagesBefore(cpts, i) + cpts[i].pages
    ensures Memory(cpts, i + 1) == Memory(cpts, i) + Copied(cpts[i].image, cpts[i].pages)
  {}
}
