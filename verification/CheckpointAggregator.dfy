/** Merging checkpoints into one: memories one behind the other, physical addresses moved along. */
module CheckpointAggregator {
  import opened Bits

  const PAGE := 4096

  /** A configuration setting: one that reads as a number, or other text. */
  datatype Setting = Number(n: int) | Other(text: string)

  datatype Item = Item(key: string, value: Setting)

  datatype Section = Section(name: string, items: seq<Item>)

  /** A checkpoint: its configuration, the pages its system section declares, its memory image. */
  datatype Cpt = Cpt(sections: seq<Section>, pages: nat, image: Bytes)

  // ------------------------------------------------- memory

  /** Pages declared by the first `i` checkpoints. */
  function PagesBefore(cpts: seq<Cpt>, i: nat): nat
    requires i <= |cpts|
  {
    if i == 0 then 0 else PagesBefore(cpts, i - 1) + cpts[i - 1].pages
  }

  /** The part of an image that is copied: reads stop at its end. */
  function Copied(image: Bytes, pages: nat): (b: Bytes)
    ensures b <= image && |b| <= pages * PAGE
  {
    if |image| <= pages * PAGE then image else image[..pages * PAGE]
  }

  function Memory(cpts: seq<Cpt>, i: nat): Bytes
    requires i <= |cpts|
  {
    if i == 0 then [] else Memory(cpts, i - 1) + Copied(cpts[i - 1].image, cpts[i - 1].pages)
  }

  /** The image covers the declared pages. */
  predicate Full(c: Cpt) {
    |c.image| >= c.pages * PAGE
  }

  ghost predicate AllFull(cpts: seq<Cpt>, i: nat)
    requires i <= |cpts|
  {
    forall j | 0 <= j < i :: Full(cpts[j])
  }

  /** Image `i` starts where its addresses are moved to exactly when every earlier image is full. */
  lemma {:induction false} PlacedIff(cpts: seq<Cpt>, i: nat)
    requires i <= |cpts|
    ensures |Memory(cpts, i)| <= PagesBefore(cpts, i) * PAGE
    ensures |Memory(cpts, i)| == PagesBefore(cpts, i) * PAGE <==> AllFull(cpts, i)
  {
    if i == 0 {
    } else {
      PlacedIff(cpts, i - 1);
    }
  }

  lemma {:induction false} MemoryGrows(cpts: seq<Cpt>, i: nat, n: nat)
    requires i <= n <= |cpts|
    ensures Memory(cpts, i) <= Memory(cpts, n)
  {
    if i < n { MemoryGrows(cpts, i, n - 1); }
  }

  /** Byte `a` of checkpoint `i` is found at its moved address in the merged memory, when the images
      before it are full. */
  lemma {:induction false} MemoryPreserved(cpts: seq<Cpt>, i: nat, a: nat)
    requires i < |cpts| && AllFull(cpts, i)
    requires a < cpts[i].pages * PAGE && a < |cpts[i].image|
    ensures var at := PagesBefore(cpts, i) * PAGE + a;
            at < |Memory(cpts, |cpts|)| && Memory(cpts, |cpts|)[at] == cpts[i].image[a]
  {
    PlacedIff(cpts, i);
    MemoryGrows(cpts, i + 1, |cpts|);
    var at := PagesBefore(cpts, i) * PAGE + a;
    assert at < |Memory(cpts, i + 1)| && Memory(cpts, i + 1)[at] == cpts[i].image[a];
  }

  lemma {:induction false} PagesGrow(cpts: seq<Cpt>, i: nat, j: nat)
    requires i < j <= |cpts|
    ensures PagesBefore(cpts, i) + cpts[i].pages <= PagesBefore(cpts, j)
  {
    if i + 1 < j { PagesGrow(cpts, i, j - 1); }
  }

  /** Addresses of different checkpoints stay apart. */
  lemma {:induction false} RangesDisjoint(cpts: seq<Cpt>, i: nat, j: nat, a: nat, b: nat)
    requires i < |cpts| && j < |cpts|
    requires a < cpts[i].pages * PAGE && b < cpts[j].pages * PAGE
    ensures PagesBefore(cpts, i) * PAGE + a == PagesBefore(cpts, j) * PAGE + b <==> i == j && a == b
  {
    if i < j {
      PagesGrow(cpts, i, j);
    } else if j < i {
      PagesGrow(cpts, j, i);
    }
  }

  /** One page short in the first image, and the second checkpoint's first byte is not where its
      address says. */
  lemma {:induction false} ShortImageMisplaces(first: Byte)
    ensures var cpts := [Cpt([], 1, []), Cpt([], 1, [first])];
            PagesBefore(cpts, 1) * PAGE == PAGE && Memory(cpts, 2) == [first]
  {
    var cpts := [Cpt([], 1, []), Cpt([], 1, [first])];
    assert PagesBefore(cpts, 1) == PagesBefore(cpts, 0) + 1;
    assert Memory(cpts, 1) == Memory(cpts, 0) + [] == [];
    assert Memory(cpts, 2) == Memory(cpts, 1) + [first];
  }

  /** One read of a page. */
  function ReadPage(rest: Bytes): (b: Bytes)
    ensures b <= rest
  {
    if |rest| <= PAGE then rest else rest[..PAGE]
  }

  lemma {:induction false} CopiedStep(image: Bytes, x: nat)
    ensures Copied(image, x + 1) == Copied(image, x) + ReadPage(image[|Copied(image, x)|..])
  {
    assert (x + 1) * PAGE == x * PAGE + PAGE;
  }

  /** Copy page by page. */
  method CopyPages(image: Bytes, pages: nat) returns (out: Bytes)
    ensures out == Copied(image, pages)
  {
    hide Copied, ReadPage;
    CopiedNone(image);
    out := [];
    var rest := image;
    var x := 0;
    while x < pages
      invariant 0 <= x <= pages
      invariant out == Copied(image, x) && rest == image[|out|..]
    {
      CopiedStep(image, x);
      var read := ReadPage(rest);
      out, rest := out + read, rest[|read|..];
      x := x + 1;
    }
  }

  lemma {:induction false} CopiedNone(image: Bytes)
    ensures Copied(image, 0) == []
  {}

  /** Pages of '0' characters added until the file reaches the requested size. */
  function Padding(size: nat, wanted: int): (p: nat)
    ensures size + p * PAGE >= wanted
    ensures p > 0 ==> size + (p - 1) * PAGE < wanted
    decreases wanted - size
  {
    if size >= wanted then 0 else 1 + Padding(size + PAGE, wanted)
  }

  function Filler(pages: nat): (b: Bytes)
    ensures |b| == pages * PAGE
    ensures forall i | 0 <= i < |b| :: b[i] == 48
  {
    seq(pages * PAGE, _ => 48)
  }

  method PadMemory(memory: Bytes, pagePtr: nat, wanted: int) returns (out: Bytes, pages: nat)
    ensures pages == pagePtr + Padding(pagePtr * PAGE, wanted)
    ensures out == memory + Filler(pages - pagePtr)
  {
    out, pages := memory, pagePtr;
    var fileSize := pagePtr * PAGE;
    while fileSize < wanted
      invariant pages >= pagePtr && fileSize == pages * PAGE
      invariant pagePtr + Padding(pagePtr * PAGE, wanted) == pages + Padding(fileSize, wanted)
      invariant out == memory + Filler(pages - pagePtr)
      decreases wanted - fileSize
    {
      assert Filler(pages - pagePtr) + Filler(1) == Filler(pages + 1 - pagePtr);
      out := out + Filler(1);
      fileSize := fileSize + PAGE;
      pages := pages + 1;
    }
  }

  /** The range size written is never below the requested one, exceeds it by less than a page when
      padding was needed, and is the number of bytes written exactly when every image is full. */
  lemma {:induction false} RangeSize(cpts: seq<Cpt>, wanted: int)
    ensures var pagePtr := PagesBefore(cpts, |cpts|);
            var pages := pagePtr + Padding(pagePtr * PAGE, wanted);
            && pages * PAGE >= wanted
            && (pages > pagePtr ==> pages * PAGE < wanted + PAGE)
            && (pages * PAGE == |Memory(cpts, |cpts|) + Filler(pages - pagePtr)| <==> AllFull(cpts, |cpts|))
  {
    PlacedIff(cpts, |cpts|);
  }
}
