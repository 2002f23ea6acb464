/** The merged configuration: its sections, the moved addresses, and what they point at. */
module CheckpointMerge {
  import opened Text
  import opened CheckpointNames
  import opened CheckpointAggregator

  // ------------------------------------------------- items

  function SetItem(items: seq<Item>, key: string, value: Setting): seq<Item> {
    if items == [] then [Item(key, value)]
    else if items[0].key == key then [Item(key, value)] + items[1..]
    else [items[0]] + SetItem(items[1..], key, value)
  }

  /** An item moved by `offset` bytes: only physical addresses change, and they must be numbers. */
  function MoveItem(item: Item, offset: int): Option<Item> {
    if item.key != "paddr" then Some(item)
    else if item.value.Number? then Some(Item(item.key, Number(item.value.n + offset)))
    else None
  }

  function MoveItems(items: seq<Item>, offset: int): Option<seq<Item>> {
    if items == [] then Some([])
    else
      var init, last := MoveItems(items[..|items| - 1], offset), MoveItem(items[|items| - 1], offset);
      if init.None? || last.None? then None else Some(init.value + [last.value])
  }

  lemma {:induction false} MoveItemsAt(items: seq<Item>, offset: int, k: nat)
    requires MoveItems(items, offset).Some? && k < |items|
    ensures |MoveItems(items, offset).value| == |items|
    ensures MoveItem(items[k], offset) == Some(MoveItems(items, offset).value[k])
  {
    hide MoveItem;
    MoveItemsLength(items, offset);
    MoveItemsLength(items[..|items| - 1], offset);
    if k < |items| - 1 {
      MoveItemsAt(items[..|items| - 1], offset, k);
    }
  }

  lemma {:induction false} MoveItemsLength(items: seq<Item>, offset: int)
    ensures MoveItems(items, offset).Some? ==> |MoveItems(items, offset).value| == |items|
  {
    hide MoveItem;
    if items == [] {
    } else {
      MoveItemsLength(items[..|items| - 1], offset);
    }
  }

  lemma {:induction false} MoveItemsFails(items: seq<Item>, offset: int, k: nat)
    requires k < |items| && MoveItem(items[k], offset).None?
    ensures MoveItems(items, offset).None?
  {
    hide MoveItem;
    if k < |items| - 1 { MoveItemsFails(items[..|items| - 1], offset, k); }
  }

  // ------------------------------------------------- sections

  /** Names ending in "workload", any character, "FdMap256". */
  predicate IsFdMap(name: string) {
    |name| >= 17 && name[|name| - 17..|name| - 9] == "workload" && name[|name| - 8..] == "FdMap256"
  }

  function CurTick(items: seq<Item>): Option<int> {
    if items == [] then None
    else if items[0].key == "curTick" then
      if items[0].value.Number? then Some(items[0].value.n) else None
    else CurTick(items[1..])
  }

  /** What a section of checkpoint `i` of `count` becomes; `None` is a conversion error. */
  function MergeSection(sec: Section, i: nat, count: nat, offset: int): Option<seq<Section>>
    requires i < count
  {
    if HasCpu(sec.name) then
      var items := MoveItems(sec.items, offset);
      if items.None? then None
      else
        var pid := if IsFdMap(sec.name) then SetItem(items.value, "M5_pid", Number(i)) else items.value;
        Some([Section(Rename(Tag(i, count), sec.name), pid)])
    else if sec.name == "system" then Some([])
    else if sec.name == "Globals" then if CurTick(sec.items).Some? then Some([]) else None
    else Some(if i == count - 1 then [sec] else [])
  }

  function MergeSections(secs: seq<Section>, i: nat, count: nat, offset: int): Option<seq<Section>>
    requires i < count
  {
    if secs == [] then Some([])
    else
      var init := MergeSections(secs[..|secs| - 1], i, count, offset);
      var last := MergeSection(secs[|secs| - 1], i, count, offset);
      if init.None? || last.None? then None else Some(init.value + last.value)
  }

  /** The configurations of the first `i` checkpoints, merged. */
  function MergeCpts(cpts: seq<Cpt>, i: nat): Option<seq<Section>>
    requires i <= |cpts|
  {
    if i == 0 then Some([])
    else
      var init := MergeCpts(cpts, i - 1);
      var last := MergeSections(cpts[i - 1].sections, i - 1, |cpts|, PagesBefore(cpts, i - 1) * PAGE);
      if init.None? || last.None? then None else Some(init.value + last.value)
  }

  /** Sections of one checkpoint have different names. */
  ghost predicate Distinct(secs: seq<Section>) {
    forall a, b | 0 <= a < b < |secs| :: secs[a].name != secs[b].name
  }

  ghost predicate AllDistinct(cpts: seq<Cpt>) {
    forall i | 0 <= i < |cpts| :: Distinct(cpts[i].sections)
  }

  // ------------------------------------------------- names stay distinct

  /** `name` comes from section `k` of checkpoint `j`. */
  ghost predicate Origin(name: string, secs: seq<Section>, k: nat, j: nat, count: nat)
    requires j < count
  {
    && k < |secs|
    && (if HasCpu(secs[k].name) then name == Rename(Tag(j, count), secs[k].name)
        else j == count - 1 && name == secs[k].name && name != "system" && name != "Globals")
  }

  lemma {:induction false} OriginsApart(
    name: string, secs: seq<Section>, k: nat, j: nat,
    name': string, secs': seq<Section>, k': nat, j': nat, count: nat)
    requires j < count && j' < count && Origin(name, secs, k, j, count) && Origin(name', secs', k', j', count)
    requires name == name'
    ensures j == j' && secs[k].name == secs'[k'].name
  {
    hide Rename, Tag, HasCpu;
    HasCpuRenamed(Tag(j, count), secs[k].name);
    HasCpuRenamed(Tag(j', count), secs'[k'].name);
    if HasCpu(secs[k].name) && HasCpu(secs'[k'].name) {
      SectionsApart(j, secs[k].name, j', secs'[k'].name, count);
    }
  }

  /** The origin of section `p` of a merged configuration. */
  lemma {:induction false} SectionOrigin(secs: seq<Section>, i: nat, count: nat, offset: int, p: nat) returns (k: nat)
    requires i < count && MergeSections(secs, i, count, offset).Some?
    requires p < |MergeSections(secs, i, count, offset).value|
    ensures Origin(MergeSections(secs, i, count, offset).value[p].name, secs, k, i, count)
  {
    hide Rename, Tag, HasCpu, MoveItems, CurTick, IsFdMap, SetItem;
    var last := |secs| - 1;
    if p < |MergeSections(secs[..last], i, count, offset).value| {
      k := SectionOrigin(secs[..last], i, count, offset, p);
    } else {
      k := last;
    }
  }

  lemma {:induction false} SectionsDistinct(secs: seq<Section>, i: nat, count: nat, offset: int)
    requires i < count && MergeSections(secs, i, count, offset).Some? && Distinct(secs)
    ensures Distinct(MergeSections(secs, i, count, offset).value)
  {
    if secs == [] {
    } else {
      var init, n := secs[..|secs| - 1], |secs| - 1;
      SectionsDistinct(init, i, count, offset);
      var done := MergeSections(init, i, count, offset).value;
      var all := MergeSections(secs, i, count, offset).value;
      AtMostOne(secs[n], i, count, offset);
      if |all| > |done| {
        forall p | 0 <= p < |done| ensures done[p].name != all[|done|].name {
          LastApart(secs, i, count, offset, p);
        }
      }
    }
  }

  lemma {:induction false} AtMostOne(sec: Section, i: nat, count: nat, offset: int)
    requires i < count && MergeSection(sec, i, count, offset).Some?
    ensures |MergeSection(sec, i, count, offset).value| <= 1
  {
    hide Rename, Tag, HasCpu, MoveItems, CurTick, IsFdMap, SetItem;
  }

  lemma {:induction false} LastApart(secs: seq<Section>, i: nat, count: nat, offset: int, p: nat)
    requires i < count && MergeSections(secs, i, count, offset).Some? && Distinct(secs) && secs != []
    requires var done := MergeSections(secs[..|secs| - 1], i, count, offset).value;
             p < |done| < |MergeSections(secs, i, count, offset).value|
    ensures var done := MergeSections(secs[..|secs| - 1], i, count, offset).value;
            done[p].name != MergeSections(secs, i, count, offset).value[|done|].name
  {
    var init := secs[..|secs| - 1];
    var done, all := MergeSections(init, i, count, offset).value, MergeSections(secs, i, count, offset).value;
    var k := SectionOrigin(init, i, count, offset, p);
    assert Origin(all[|done|].name, secs, |secs| - 1, i, count) by { LastOrigin(secs, i, count, offset); }
    if done[p].name == all[|done|].name {
      OriginsApart(done[p].name, init, k, i, all[|done|].name, secs, |secs| - 1, i, count);
      assert false;
    }
  }

  lemma {:induction false} LastOrigin(secs: seq<Section>, i: nat, count: nat, offset: int)
    requires i < count && MergeSections(secs, i, count, offset).Some? && secs != []
    requires |MergeSections(secs[..|secs| - 1], i, count, offset).value| < |MergeSections(secs, i, count, offset).value|
    ensures var done := MergeSections(secs[..|secs| - 1], i, count, offset).value;
            Origin(MergeSections(secs, i, count, offset).value[|done|].name, secs, |secs| - 1, i, count)
  {
    hide Rename, Tag, HasCpu, MoveItems, CurTick, IsFdMap, SetItem;
    AtMostOne(secs[|secs| - 1], i, count, offset);
  }
}
