/** Drawing a whole instruction: the viewer's loops, and where each stage's letter ends up. */
module PipeViewDrawing {
  import opened Bits
  import opened PipeViewOrder
  import opened PipeViewTimeline

  // ------------------------------------------------- the loops

  method GatherEvents(f: Frame, t: seq<int>, i: nat) returns (events: seq<Event>)
    requires f.Valid() && IsStages(t)
    ensures events == Gathered(f, t, i, |t|) && Staged(events)
  {
    events := [];
    for s := 0 to |t|
      invariant events == Gathered(f, t, i, s)
    {
      if f.OnLine(i, t[s]) {
        events := events + [EventAt(f, t, s)];
      }
    }
    GatheredStaged(f, t, i, |t|);
  }

  method DrawEvents(f: Frame, t: seq<int>, events: seq<Event>, dot: char) returns (text: string)
    requires f.Valid() && IsStages(t) && Staged(events)
    ensures text == Render(f, Shown(t, events), dot, 0)
  {
    hide Render, Shown, Dots, Column, Hidden;
    text := "";
    var pos: nat := 0;
    var k := 0;
    ghost var whole := Render(f, Shown(t, events), dot, 0);
    assert events[0..] == events;
    while k < |events|
      invariant 0 <= k <= |events|
      invariant whole == text + Render(f, Shown(t, events[k..]), dot, pos)
    {
      var e := events[k];
      RenderNext(f, t, events, k, dot, pos, text);
      if !Hidden(t, e) {
        text := text + Dots(dot, Column(f, e) - pos) + [LETTERS[e.stage]];
        pos := Column(f, e) + 1;
      }
      k := k + 1;
    }
    RenderEnd(f, t, events, k, dot, pos);
    text := text + Dots(dot, f.width - pos);
  }

  lemma {:induction false} RenderEnd(f: Frame, t: seq<int>, events: seq<Event>, k: nat, dot: char, pos: nat)
    requires f.Valid() && IsStages(t) && Staged(events) && k == |events|
    ensures Render(f, Shown(t, events[k..]), dot, pos) == Dots(dot, f.width - pos)
  {
    assert events[k..] == [];
  }

  lemma {:induction false} RenderNext(
    f: Frame, t: seq<int>, events: seq<Event>, k: nat, dot: char, pos: nat, text: string)
    requires f.Valid() && IsStages(t) && Staged(events) && k < |events|
    ensures var c := Column(f, events[k]);
            text + Render(f, Shown(t, events[k..]), dot, pos)
            == if Hidden(t, events[k]) then text + Render(f, Shown(t, events[k + 1..]), dot, pos)
               else text + Dots(dot, c - pos) + [LETTERS[events[k].stage]]
                    + Render(f, Shown(t, events[k + 1..]), dot, c + 1)
  {
    hide Dots, Column, Hidden;
    var shown, rest := Shown(t, events[k..]), Shown(t, events[k + 1..]);
    assert events[k..][1..] == events[k + 1..];
    if !Hidden(t, events[k]) {
      var c := Column(f, events[k]);
      assert shown[1..] == rest;
      var gap, tail := Dots(dot, c - pos) + [LETTERS[events[k].stage]], Render(f, rest, dot, c + 1);
      assert Render(f, shown, dot, pos) == gap + tail;
      assert text + (gap + tail) == text + Dots(dot, c - pos) + [LETTERS[events[k].stage]] + tail;
    }
  }

  method DrawInst(x: Inst, storeCompletions: bool, cycleTime: nat, width: nat)
    returns (lines: seq<string>)
    requires cycleTime >= 1 && width >= 1
    ensures var t := Ticks(x, storeCompletions);
            var f := FrameOf(t, cycleTime, width);
            var dot := if x.retire == 0 then '=' else '.';
            && |lines| == f.lines
            && forall i | 0 <= i < |lines| :: lines[i] == LineText(f, t, dot, i)
    ensures LineCount(x, storeCompletions, width * cycleTime, |lines|)
    ensures Aligned(Ticks(x, storeCompletions), cycleTime) ==>
              && HasLetters(x, storeCompletions, cycleTime, width, lines)
              && HasNoOthers(x, storeCompletions, cycleTime, width, lines)
  {
    hide Render, Shown, SortEvents, Gathered, FrameOf, Ticks, Aligned, HasLetters, HasNoOthers, LineCount;
    var t := Ticks(x, storeCompletions);
    var f := FrameOf(t, cycleTime, width);
    var dot := if x.retire == 0 then '=' else '.';
    lines := [];
    for i := 0 to f.lines
      invariant |lines| == i
      invariant forall k | 0 <= k < i :: lines[k] == LineText(f, t, dot, k)
    {
      var events := GatherEvents(f, t, i);
      var text := DrawEvents(f, t, SortEvents(events), dot);
      lines := lines + [text];
    }
    LinesCounted(x, storeCompletions, cycleTime, width);
    if Aligned(t, cycleTime) {
      LettersDrawn(x, storeCompletions, cycleTime, width, lines);
      NoOthersDrawn(x, storeCompletions, cycleTime, width, lines);
    }
  }

  // ------------------------------------------------- what is drawn on a line

  /** Each event is that of a stage on line `i`; no stage appears twice. */
  ghost predicate FromStages(f: Frame, t: seq<int>, i: nat, events: seq<Event>)
    requires f.Valid()
  {
    && (forall k | 0 <= k < |events| ::
          events[k].stage < |t| && events[k] == EventAt(f, t, events[k].stage)
          && f.OnLine(i, t[events[k].stage]))
    && (forall j, k | 0 <= j < k < |events| :: events[j].stage != events[k].stage)
  }

  ghost predicate Has(events: seq<Event>, s: nat) {
    exists k :: 0 <= k < |events| && events[k].stage == s
  }

  lemma {:induction false} GatheredFromStages(f: Frame, t: seq<int>, i: nat, n: nat)
    requires f.Valid() && IsStages(t) && n <= |t|
    ensures FromStages(f, t, i, Gathered(f, t, i, n))
    ensures forall s: nat :: Has(Gathered(f, t, i, n), s) <==> s < n && f.OnLine(i, t[s])
  {
    if n == 0 {
    } else {
      GatheredFromStages(f, t, i, n - 1);
      GatheredStaged(f, t, i, n - 1);
      var before, events := Gathered(f, t, i, n - 1), Gathered(f, t, i, n);
      if f.OnLine(i, t[n - 1]) {
        assert events == before + [EventAt(f, t, n - 1)];
        FromStagesSnoc(f, t, i, before, n - 1);
      } else {
        assert events == before;
      }
    }
  }

  lemma {:induction false} FromStagesSnoc(f: Frame, t: seq<int>, i: nat, before: seq<Event>, n: nat)
    requires f.Valid() && n < |t| && FromStages(f, t, i, before) && !Has(before, n) && f.OnLine(i, t[n])
    ensures var events := before + [EventAt(f, t, n)];
            FromStages(f, t, i, events) && forall s: nat :: Has(events, s) <==> Has(before, s) || s == n
  {
    var events := before + [EventAt(f, t, n)];
    forall s: nat ensures Has(events, s) <==> Has(before, s) || s == n {
      if k :| 0 <= k < |before| && before[k].stage == s { assert events[k].stage == s; }
      if k :| 0 <= k < |events| && events[k].stage == s { assert k < |before| ==> before[k].stage == s; }
      assert events[|before|].stage == n;
    }
  }

  lemma {:induction false} InsertEventAt(e: Event, events: seq<Event>) returns (k: nat)
    requires e.stage < 8 && Staged(events)
    ensures k <= |events| && InsertEvent(e, events) == events[..k] + [e] + events[k..]
    ensures k < |events| ==> Before(e, events[k])
    ensures forall j | 0 <= j < k :: !Before(e, events[j])
  {
    k := 0;
    if events != [] && !Before(e, events[0]) {
      var r := InsertEventAt(e, events[1..]);
      k := r + 1;
      assert events[1..][..r] == events[1..k] && events[1..][r..] == events[k..];
      forall j | 0 <= j < k ensures !Before(e, events[j]) {
        if j > 0 { assert events[j] == events[1..][j - 1]; }
      }
    }
  }

  ghost predicate ByPos(events: seq<Event>) {
    forall j, k | 0 <= j < k < |events| :: events[j].pos <= events[k].pos
  }

  /** Sorting keeps the events and puts them in column order. */
  lemma {:induction false} SortEventsSorts(f: Frame, t: seq<int>, i: nat, events: seq<Event>)
    requires f.Valid() && IsStages(t) && Staged(events) && FromStages(f, t, i, events)
    ensures var r := SortEvents(events);
            FromStages(f, t, i, r) && ByPos(r) && forall s: nat :: Has(r, s) <==> Has(events, s)
  {
    if events == [] {
    } else {
      var e, rest := events[0], events[1..];
      forall j | 0 <= j < |rest| ensures rest[j] == events[j + 1] {}
      SortEventsSorts(f, t, i, rest);
      var sorted := SortEvents(rest);
      forall j | 0 <= j < |sorted| ensures sorted[j].stage != e.stage {
        assert Has(sorted, sorted[j].stage);
        var k :| 0 <= k < |rest| && rest[k].stage == sorted[j].stage;
        assert events[k + 1].stage == rest[k].stage;
      }
      InsertKeeps(f, t, i, e, sorted);
      forall s: nat ensures Has(SortEvents(events), s) <==> Has(events, s) {
        HasCons(events, s);
      }
    }
  }

  lemma {:induction false} HasCons(events: seq<Event>, s: nat)
    requires events != []
    ensures Has(events, s) <==> events[0].stage == s || Has(events[1..], s)
  {
    if k :| 0 <= k < |events[1..]| && events[1..][k].stage == s {
      assert events[k + 1].stage == s;
    }
    if k :| 0 <= k < |events| && events[k].stage == s {
      if k > 0 { assert events[1..][k - 1].stage == s; }
    }
  }

  lemma {:induction false} InsertKeeps(f: Frame, t: seq<int>, i: nat, e: Event, events: seq<Event>)
    requires f.Valid() && IsStages(t) && Staged(events) && FromStages(f, t, i, events) && ByPos(events)
    requires e.stage < |t| && e == EventAt(f, t, e.stage) && f.OnLine(i, t[e.stage])
    requires forall j | 0 <= j < |events| :: events[j].stage != e.stage
    ensures var r := InsertEvent(e, events);
            && FromStages(f, t, i, r) && ByPos(r)
            && forall s: nat :: Has(r, s) <==> s == e.stage || Has(events, s)
  {
    var k := InsertEventAt(e, events);
    var r := InsertEvent(e, events);
    SplicedStages(f, t, i, e, events, k, r);
    forall s: nat ensures Has(r, s) <==> s == e.stage || Has(events, s) {
      SplicedHas(e, events, k, r, s);
    }
  }

  ghost predicate Spliced(e: Event, events: seq<Event>, k: nat, r: seq<Event>) {
    k <= |events| && r == events[..k] + [e] + events[k..]
  }

  lemma {:induction false} SplicedHas(e: Event, events: seq<Event>, k: nat, r: seq<Event>, s: nat)
    requires Spliced(e, events, k, r)
    ensures Has(r, s) <==> s == e.stage || Has(events, s)
  {
    if j :| 0 <= j < |events| && events[j].stage == s {
      assert r[if j < k then j else j + 1] == events[j];
    }
    assert r[k] == e;
    if j :| 0 <= j < |r| && r[j].stage == s {
      if j != k { assert r[j] == events[if j < k then j else j - 1]; }
    }
  }

  lemma {:induction false} SplicedStages(
    f: Frame, t: seq<int>, i: nat, e: Event, events: seq<Event>, k: nat, r: seq<Event>)
    requires f.Valid() && Spliced(e, events, k, r)
    requires IsStages(t) && Staged(events) && FromStages(f, t, i, events) && ByPos(events)
    requires e.stage < |t| && e == EventAt(f, t, e.stage) && f.OnLine(i, t[e.stage])
    requires forall j | 0 <= j < |events| :: events[j].stage != e.stage
    requires k < |events| ==> Before(e, events[k])
    requires forall j | 0 <= j < k :: !Before(e, events[j])
    ensures FromStages(f, t, i, r) && ByPos(r)
  {
    hide EventAt, NameRank;
    forall a, b | 0 <= a < b < |r|
      ensures r[a].stage != r[b].stage && r[a].pos <= r[b].pos
    {
      if a == k {
        assert events[k].pos <= events[b - 1].pos;
      } else if b == k {
        assert !Before(e, events[a]);
      } else {
        var a', b' := if a < k then a else a - 1, if b < k then b else b - 1;
        assert r[a] == events[a'] && r[b] == events[b'] && a' < b';
      }
    }
    forall j | 0 <= j < |r|
      ensures r[j].stage < |t| && r[j] == EventAt(f, t, r[j].stage) && f.OnLine(i, t[r[j].stage])
    {
      if j != k { assert r[j] == events[if j < k then j else j - 1]; }
    }
  }

  lemma {:induction false} ShownKeeps(f: Frame, t: seq<int>, i: nat, events: seq<Event>)
    requires f.Valid() && IsStages(t) && Staged(events) && FromStages(f, t, i, events) && ByPos(events)
    ensures var r := Shown(t, events);
            && FromStages(f, t, i, r) && ByPos(r)
            && forall s: nat :: Has(r, s) <==> Has(events, s) && !(s == 3 && t[3] == t[4])
  {
    if events == [] {
    } else {
      var e, rest := events[0], events[1..];
      forall j | 0 <= j < |rest| ensures rest[j] == events[j + 1] {}
      ShownKeeps(f, t, i, rest);
      var shown, r := Shown(t, rest), Shown(t, events);
      forall j | 0 <= j < |shown| ensures shown[j].stage != e.stage && e.pos <= shown[j].pos {
        ShownWithin(t, rest, j);
      }
      forall s: nat ensures Has(r, s) <==> Has(events, s) && !(s == 3 && t[3] == t[4]) {
        HasCons(events, s);
        if !Hidden(t, e) {
          assert r[1..] == shown;
          HasCons(r, s);
        }
      }
    }
  }

  lemma {:induction false} ShownWithin(t: seq<int>, events: seq<Event>, j: nat)
    requires |t| >= 7 && Staged(events) && j < |Shown(t, events)|
    ensures Shown(t, events)[j] in events
  {
    if Hidden(t, events[0]) {
      ShownWithin(t, events[1..], j);
    } else if j > 0 {
      ShownWithin(t, events[1..], j - 1);
    }
  }

  /** Line `i` draws, in column order and once each, exactly the stages whose tick falls on it,
      except a dispatch hidden behind an issue of the same tick. */
  lemma {:induction false} DrawnStages(f: Frame, t: seq<int>, i: nat)
    requires f.Valid() && IsStages(t)
    ensures var r := Drawn(f, t, i);
            && FromStages(f, t, i, r) && ByPos(r) && InOrder(f, r)
            && forall s: nat :: Has(r, s) <==> s < |t| && f.OnLine(i, t[s]) && !(s == 3 && t[3] == t[4])
  {
    var g := Gathered(f, t, i, |t|);
    GatheredFromStages(f, t, i, |t|);
    GatheredStaged(f, t, i, |t|);
    SortEventsSorts(f, t, i, g);
    ShownKeeps(f, t, i, SortEvents(g));
    ColumnsInOrder(f, t, i, Drawn(f, t, i));
  }

  lemma {:induction false} ColumnsInOrder(f: Frame, t: seq<int>, i: nat, events: seq<Event>)
    requires f.Valid() && IsStages(t) && FromStages(f, t, i, events) && ByPos(events)
    ensures InOrder(f, events)
  {
    forall j | 0 <= j < |events| ensures events[j].stage < 8 && Column(f, events[j]) < f.width {
      ColumnIsCycle(events[j].tick, f.cycleTime, f.width);
    }
    forall j, k | 0 <= j < k < |events| ensures Column(f, events[j]) <= Column(f, events[k]) {
      QuotientMonotone(events[j].pos, events[k].pos, f.cycleTime);
    }
  }

  // ------------------------------------------------- width and letters

  /** A line is exactly `width` characters wide if and only if no two of its letters want the same
      column; otherwise it is longer. */
  lemma {:induction false} LineWidthIffDistinct(f: Frame, t: seq<int>, dot: char, i: nat)
    requires f.Valid() && IsStages(t)
    ensures |LineText(f, t, dot, i)| >= f.width
    ensures |LineText(f, t, dot, i)| == f.width <==> DistinctColumns(f, Drawn(f, t, i))
  {
    DrawnStages(f, t, i);
    RenderLength(f, Drawn(f, t, i), dot, 0);
    NoClashIffDistinct(f, Drawn(f, t, i), 0);
  }

  /** Every stage that happened does so on a cycle boundary, not before fetch, and no two in the
      same tick, save a dispatch in the tick of the issue. */
  ghost predicate Aligned(t: seq<int>, cycleTime: nat)
    requires cycleTime >= 1 && IsStages(t)
  {
    && (forall s | 0 <= s < |t| && t[s] != 0 :: t[s] % cycleTime == 0 && t[s] >= t[0])
    && (forall r, s | 0 <= r < s < |t| && t[r] != 0 && t[s] != 0 && !(r == 3 && s == 4) :: t[r] != t[s])
  }

  lemma {:induction false} OnLineClose(f: Frame, t: seq<int>, cycleTime: nat, width: nat, i: nat, a: int, b: int)
    requires cycleTime >= 1 && width >= 1 && IsStages(t) && f == FrameOf(t, cycleTime, width)
    requires i < f.lines && a >= t[0] && b >= t[0] && f.OnLine(i, a) && f.OnLine(i, b)
    ensures a - b < f.TimeWidth()
  {
    TimeWidthPositive(cycleTime, width);
    FloorBounds(t[0], f.TimeWidth());
  }

  lemma {:induction false} CloseMultiplesDiffer(a: int, b: int, c: nat, w: nat)
    requires c >= 1 && w >= 1 && a % c == 0 && b % c == 0
    requires a != b && a - b < w * c && b - a < w * c
    ensures (a / c) % w != (b / c) % w
  {
    var p, q := a / c, b / c;
    assert a == c * p && b == c * q;
    assert a - b == c * (p - q);
    QuotientBelowBoth(c, p - q, w);
    assert p - q != 0;
    RemaindersDiffer(p, q, w);
  }

  lemma {:induction false} RemaindersDiffer(p: int, q: int, w: nat)
    requires w >= 1 && -(w as int) < p - q < w && p != q
    ensures p % w != q % w
  {
    assert p == w * (p / w) + p % w && q == w * (q / w) + q % w;
    var m := p / w - q / w;
    assert w * m == w * (p / w) - w * (q / w);
    MulMagnitude(w, m);
  }

  lemma {:induction false} QuotientBelowBoth(c: nat, d: int, w: nat)
    requires c >= 1 && -(w * c) < c * d < w * c
    ensures -(w as int) < d < w
  {
    assert c * (d - w) == c * d - w * c;
    assert c * (d + w) == c * d + w * c;
    MulMagnitude(c, d - w + 1);
    MulMagnitude(c, d + w - 1);
    assert c * (d - w + 1) == c * (d - w) + c;
    assert c * (d + w - 1) == c * (d + w) - c;
  }

  /** For an aligned instruction every line is exactly `width` characters, and each stage's letter
      stands on its line at column (tick / cycle time) modulo width. */
  lemma {:induction false} AlignedDrawing(t: seq<int>, cycleTime: nat, width: nat, dot: char, i: nat)
    requires cycleTime >= 1 && width >= 1 && IsStages(t) && Aligned(t, cycleTime)
    requires i < FrameOf(t, cycleTime, width).lines
    ensures var f := FrameOf(t, cycleTime, width);
            && |LineText(f, t, dot, i)| == width
            && forall s | 0 <= s < |t| && f.OnLine(i, t[s]) && !(s == 3 && t[3] == t[4]) ::
                 LineText(f, t, dot, i)[(t[s] / cycleTime) % width] == LETTERS[s]
  {
    var f := FrameOf(t, cycleTime, width);
    var r := Drawn(f, t, i);
    DrawnStages(f, t, i);
    forall j, k | 0 <= j < k < |r| ensures Column(f, r[j]) != Column(f, r[k]) {
      AlignedColumns(f, t, cycleTime, width, i, r, j, k);
    }
    LineWidthIffDistinct(f, t, dot, i);
    forall s | 0 <= s < |t| && f.OnLine(i, t[s]) && !(s == 3 && t[3] == t[4])
      ensures LineText(f, t, dot, i)[(t[s] / cycleTime) % width] == LETTERS[s]
    {
      assert Has(r, s);
      LetterAt(f, t, dot, i, s);
    }
  }

  lemma {:induction false} AlignedColumns(
    f: Frame, t: seq<int>, cycleTime: nat, width: nat, i: nat, r: seq<Event>, j: nat, k: nat)
    requires cycleTime >= 1 && width >= 1 && IsStages(t) && Aligned(t, cycleTime)
    requires f == FrameOf(t, cycleTime, width) && i < f.lines
    requires FromStages(f, t, i, r) && j < k < |r|
    requires forall s: nat :: Has(r, s) ==> !(s == 3 && t[3] == t[4])
    ensures Column(f, r[j]) != Column(f, r[k])
  {
    var a, b := t[r[j].stage], t[r[k].stage];
    assert Has(r, r[j].stage) && Has(r, r[k].stage);
    assert a != b;
    OnLineClose(f, t, cycleTime, width, i, a, b);
    OnLineClose(f, t, cycleTime, width, i, b, a);
    CloseMultiplesDiffer(a, b, cycleTime, width);
    ColumnIsCycle(a, cycleTime, width);
    ColumnIsCycle(b, cycleTime, width);
  }

  lemma {:induction false} LetterAt(f: Frame, t: seq<int>, dot: char, i: nat, s: nat)
    requires f.Valid() && IsStages(t) && s < |t|
    requires Has(Drawn(f, t, i), s) && DistinctColumns(f, Drawn(f, t, i))
    ensures |LineText(f, t, dot, i)| == f.width
    ensures 0 <= (t[s] / f.cycleTime) % f.width < f.width
    ensures LineText(f, t, dot, i)[(t[s] / f.cycleTime) % f.width] == LETTERS[s]
  {
    hide Drawn, Render;
    DrawnStages(f, t, i);
    var r := Drawn(f, t, i);
    var k :| 0 <= k < |r| && r[k].stage == s;
    ColumnIsCycle(t[s], f.cycleTime, f.width);
    var c := Column(f, r[k]);
    assert c == (t[s] / f.cycleTime) % f.width;
    RenderAt(f, r, dot, 0, c);
    assert forall j | 0 <= j < |r| && Column(f, r[j]) == c :: j == k;
  }

  // ------------------------------------------------- the drawing by field and letter

  /** The line a tick is drawn on, when `count` lines of `tw` ticks are drawn: the first line is that of
      the fetch, and a single line goes on at its own start. */
  ghost function RowOf(count: nat, fetch: int, tick: int, tw: nat): int
    requires tw >= 1
  {
    if count == 1 then 0 else tick / tw - fetch / tw
  }

  /** A stage that happened has its letter at the column of its cycle. */
  ghost predicate Shows(lines: seq<string>, fetch: int, tick: int, letter: char, cycleTime: nat, width: nat)
    requires cycleTime >= 1 && width >= 1
  {
    TimeWidthPositive(cycleTime, width);
    tick != 0 ==>
      var row, column := RowOf(|lines|, fetch, tick, width * cycleTime), (tick / cycleTime) % width;
      0 <= row < |lines| && column < |lines[row]| && lines[row][column] == letter
  }

  /** Every line is as wide as asked for, and every stage that happened has its letter in it. */
  ghost predicate HasLetters(x: Inst, storeCompletions: bool, cycleTime: nat, width: nat, lines: seq<string>)
    requires cycleTime >= 1 && width >= 1
  {
    && (forall i | 0 <= i < |lines| :: |lines[i]| == width)
    && Shows(lines, x.fetch, x.fetch, 'f', cycleTime, width)
    && Shows(lines, x.fetch, x.decode, 'd', cycleTime, width)
    && Shows(lines, x.fetch, x.rename, 'n', cycleTime, width)
    && (x.dispatch != x.issue ==> Shows(lines, x.fetch, x.dispatch, 'p', cycleTime, width))
    && Shows(lines, x.fetch, x.issue, 'i', cycleTime, width)
    && Shows(lines, x.fetch, x.complete, 'c', cycleTime, width)
    && Shows(lines, x.fetch, x.retire, 'r', cycleTime, width)
    && (storeCompletions ==> Shows(lines, x.fetch, x.store, 's', cycleTime, width))
  }

  /** Whether a stage that happened at `tick` stands at line `i`, column `k`. */
  ghost predicate StandsAt(count: nat, fetch: int, tick: int, cycleTime: nat, width: nat, i: nat, k: nat)
    requires cycleTime >= 1 && width >= 1
  {
    TimeWidthPositive(cycleTime, width);
    tick != 0 && RowOf(count, fetch, tick, width * cycleTime) == i && (tick / cycleTime) % width == k
  }

  /** Every other character is a dot, or an equals sign when the instruction was abandoned. */
  ghost predicate HasNoOthers(x: Inst, storeCompletions: bool, cycleTime: nat, width: nat, lines: seq<string>)
    requires cycleTime >= 1 && width >= 1
  {
    var n, f := |lines|, x.fetch;
    forall i: nat, k: nat | i < |lines| && k < |lines[i]| ::
      || lines[i][k] == (if x.retire == 0 then '=' else '.')
      || (lines[i][k] == 'f' && StandsAt(n, f, x.fetch, cycleTime, width, i, k))
      || (lines[i][k] == 'd' && StandsAt(n, f, x.decode, cycleTime, width, i, k))
      || (lines[i][k] == 'n' && StandsAt(n, f, x.rename, cycleTime, width, i, k))
      || (lines[i][k] == 'p' && x.dispatch != x.issue && StandsAt(n, f, x.dispatch, cycleTime, width, i, k))
      || (lines[i][k] == 'i' && StandsAt(n, f, x.issue, cycleTime, width, i, k))
      || (lines[i][k] == 'c' && StandsAt(n, f, x.complete, cycleTime, width, i, k))
      || (lines[i][k] == 'r' && StandsAt(n, f, x.retire, cycleTime, width, i, k))
      || (lines[i][k] == 's' && storeCompletions && StandsAt(n, f, x.store, cycleTime, width, i, k))
  }

  ghost function AllTicks(x: Inst, storeCompletions: bool): set<int> {
    {x.fetch, x.decode, x.rename, x.dispatch, x.issue, x.complete, x.retire}
    + if storeCompletions then {x.store} else {}
  }

  /** One line, exactly when nothing happened a whole line behind the fetch; otherwise up to the line of
      the last event. */
  ghost predicate LineCount(x: Inst, storeCompletions: bool, tw: nat, count: nat) {
    var all := AllTicks(x, storeCompletions);
    && tw >= 1 && count >= 1
    && (count == 1 <==> forall tick | tick in all :: tick < x.fetch + tw)
    && (count > 1 ==>
          && (forall tick | tick in all :: tick / tw - x.fetch / tw < count)
          && (exists tick | tick in all :: tick / tw - x.fetch / tw == count - 1))
  }

  lemma {:induction false} RowIsLine(f: Frame, t: seq<int>, cycleTime: nat, width: nat, tick: int)
    requires cycleTime >= 1 && width >= 1 && t != [] && f == FrameOf(t, cycleTime, width)
    ensures width * cycleTime >= 1
    ensures RowOf(f.lines, t[0], tick, width * cycleTime) == LineOf(f, tick)
    ensures (tick - f.base) / (width * cycleTime) == tick / (width * cycleTime) - t[0] / (width * cycleTime)
  {
    TimeWidthPositive(cycleTime, width);
    var tw := width * cycleTime;
    var q, p := t[0] / tw, tick / tw;
    assert f.base == q * tw;
    assert tick - f.base == tw * (p - q) + tick % tw by {
      assert tick == tw * p + tick % tw;
      assert tw * (p - q) == tw * p - q * tw;
    }
    RemainderUnique(tick - f.base, tw, p - q, tick % tw);
  }

  lemma {:induction false} AtLeastOneLine(t: seq<int>, cycleTime: nat, width: nat)
    requires cycleTime >= 1 && width >= 1 && t != []
    ensures FrameOf(t, cycleTime, width).lines >= 1 && FrameOf(t, cycleTime, width).base <= t[0]
  {
    TimeWidthPositive(cycleTime, width);
    var f := FrameOf(t, cycleTime, width);
    FloorBounds(t[0], f.TimeWidth());
    QuotientMonotone(0, MaxTick(t) - f.base, f.TimeWidth());
  }

  lemma {:induction false} StageShown(
    t: seq<int>, cycleTime: nat, width: nat, dot: char, lines: seq<string>, s: nat)
    requires cycleTime >= 1 && width >= 1 && IsStages(t) && Aligned(t, cycleTime)
    requires var f := FrameOf(t, cycleTime, width);
             |lines| == f.lines && forall i | 0 <= i < |lines| :: lines[i] == LineText(f, t, dot, i)
    requires s < |t| && !(s == 3 && t[3] == t[4])
    ensures Shows(lines, t[0], t[s], LETTERS[s], cycleTime, width)
  {
    hide FrameOf, LineText, LETTERS;
    var f := FrameOf(t, cycleTime, width);
    AtLeastOneLine(t, cycleTime, width);
    RowIsLine(f, t, cycleTime, width, t[s]);
    if t[s] != 0 {
      DrawnOnExactlyOneLine(t, cycleTime, width, t[s], 0);
      var i := LineOf(f, t[s]);
      DrawnOnExactlyOneLine(t, cycleTime, width, t[s], i);
      AlignedDrawing(t, cycleTime, width, dot, i);
    }
  }

  /** For an aligned instruction each field that happened has its own letter at its own column. */
  lemma {:induction false} LettersDrawn(
    x: Inst, storeCompletions: bool, cycleTime: nat, width: nat, lines: seq<string>)
    requires cycleTime >= 1 && width >= 1 && Aligned(Ticks(x, storeCompletions), cycleTime)
    requires var t := Ticks(x, storeCompletions);
             var f := FrameOf(t, cycleTime, width);
             |lines| == f.lines
             && forall i | 0 <= i < |lines| :: lines[i] == LineText(f, t, if x.retire == 0 then '=' else '.', i)
    ensures HasLetters(x, storeCompletions, cycleTime, width, lines)
  {
    hide FrameOf, LineText, Shows, Aligned;
    var t, dot := Ticks(x, storeCompletions), if x.retire == 0 then '=' else '.';
    forall i | 0 <= i < |lines| ensures |lines[i]| == width { AlignedDrawing(t, cycleTime, width, dot, i); }
    forall s: nat | s < |t| && !(s == 3 && t[3] == t[4])
      ensures Shows(lines, t[0], t[s], LETTERS[s], cycleTime, width)
    {
      StageShown(t, cycleTime, width, dot, lines, s);
    }
    assert Shows(lines, t[0], t[0], LETTERS[0], cycleTime, width);
    assert Shows(lines, t[0], t[1], LETTERS[1], cycleTime, width);
    assert Shows(lines, t[0], t[2], LETTERS[2], cycleTime, width);
    assert t[3] != t[4] ==> Shows(lines, t[0], t[3], LETTERS[3], cycleTime, width);
    assert Shows(lines, t[0], t[4], LETTERS[4], cycleTime, width);
    assert Shows(lines, t[0], t[5], LETTERS[5], cycleTime, width);
    assert Shows(lines, t[0], t[6], LETTERS[6], cycleTime, width);
    assert storeCompletions ==> Shows(lines, t[0], t[7], LETTERS[7], cycleTime, width);
  }

  /** A character of an aligned line is a dot or the letter of a stage that stands there. */
  lemma {:induction false} CharacterAt(t: seq<int>, cycleTime: nat, width: nat, dot: char, i: nat, k: nat)
    returns (s: nat)
    requires cycleTime >= 1 && width >= 1 && IsStages(t) && Aligned(t, cycleTime)
    requires i < FrameOf(t, cycleTime, width).lines && k < width
    ensures var f := FrameOf(t, cycleTime, width);
            var text := LineText(f, t, dot, i);
            && |text| == width
            && (text[k] == dot
                || (s < |t| && !(s == 3 && t[3] == t[4]) && text[k] == LETTERS[s]
                    && StandsAt(f.lines, t[0], t[s], cycleTime, width, i, k)))
  {
    hide Drawn, Render, FrameOf, Aligned;
    var f := FrameOf(t, cycleTime, width);
    FrameParts(t, cycleTime, width);
    var r := Drawn(f, t, i);
    DrawnStages(f, t, i);
    AlignedDrawing(t, cycleTime, width, dot, i);
    LineWidthIffDistinct(f, t, dot, i);
    RenderAt(f, r, dot, 0, k);
    s := 0;
    if j :| 0 <= j < |r| && Column(f, r[j]) == k && LineText(f, t, dot, i)[k] == LETTERS[r[j].stage] {
      s := r[j].stage;
      assert Has(r, s);
      ColumnIsCycle(t[s], cycleTime, width);
      AtLeastOneLine(t, cycleTime, width);
      RowIsLine(f, t, cycleTime, width, t[s]);
      DrawnOnExactlyOneLine(t, cycleTime, width, t[s], i);
    }
  }

  lemma {:induction false} FrameParts(t: seq<int>, cycleTime: nat, width: nat)
    requires cycleTime >= 1 && width >= 1 && t != []
    ensures var f := FrameOf(t, cycleTime, width); f.Valid() && f.width == width && f.cycleTime == cycleTime
  {}

  lemma {:induction false} NoOthersDrawn(
    x: Inst, storeCompletions: bool, cycleTime: nat, width: nat, lines: seq<string>)
    requires cycleTime >= 1 && width >= 1 && Aligned(Ticks(x, storeCompletions), cycleTime)
    requires var t := Ticks(x, storeCompletions);
             var f := FrameOf(t, cycleTime, width);
             |lines| == f.lines
             && forall i | 0 <= i < |lines| :: lines[i] == LineText(f, t, if x.retire == 0 then '=' else '.', i)
    ensures HasNoOthers(x, storeCompletions, cycleTime, width, lines)
  {
    hide FrameOf, LineText, StandsAt, Aligned;
    var t, dot := Ticks(x, storeCompletions), if x.retire == 0 then '=' else '.';
    forall i: nat, k: nat | i < |lines| && k < |lines[i]|
      ensures lines[i][k] == dot
              || exists s: nat :: s < |t| && !(s == 3 && t[3] == t[4]) && lines[i][k] == LETTERS[s]
                                  && StandsAt(|lines|, t[0], t[s], cycleTime, width, i, k)
    {
      AlignedDrawing(t, cycleTime, width, dot, i);
      var s := CharacterAt(t, cycleTime, width, dot, i, k);
    }
    assert LETTERS == ['f', 'd', 'n', 'p', 'i', 'c', 'r', 's'];
  }

  lemma {:induction false} LinesCounted(x: Inst, storeCompletions: bool, cycleTime: nat, width: nat)
    requires cycleTime >= 1 && width >= 1
    ensures LineCount(x, storeCompletions, width * cycleTime,
                      FrameOf(Ticks(x, storeCompletions), cycleTime, width).lines)
  {
    hide FrameOf, MaxTick, Ticks, AllTicks;
    var t, all := Ticks(x, storeCompletions), AllTicks(x, storeCompletions);
    var tw, last := width * cycleTime, MaxTick(t);
    AtLeastOneLine(t, cycleTime, width);
    LastLine(t, cycleTime, width);
    InTicks(x, storeCompletions);
    forall tick | tick in all ensures tick <= last && tick / tw <= last / tw {
      var s :| 0 <= s < |t| && t[s] == tick;
      QuotientMonotone(tick, last, tw);
    }
    assert last in all;
  }

  lemma {:induction false} InTicks(x: Inst, storeCompletions: bool)
    ensures var t := Ticks(x, storeCompletions);
            t[0] == x.fetch && forall tick :: tick in t <==> tick in AllTicks(x, storeCompletions)
  {
    var t := Ticks(x, storeCompletions);
    assert t[0] == x.fetch && t[1] == x.decode && t[2] == x.rename && t[3] == x.dispatch;
    assert t[4] == x.issue && t[5] == x.complete && t[6] == x.retire && (storeCompletions ==> t[7] == x.store);
  }

  lemma {:induction false} LastLine(t: seq<int>, cycleTime: nat, width: nat)
    requires cycleTime >= 1 && width >= 1 && t != []
    ensures width * cycleTime >= 1
    ensures var tw, last, n := width * cycleTime, MaxTick(t), FrameOf(t, cycleTime, width).lines;
            && (n == 1 <==> last < t[0] + tw)
            && (n > 1 ==> last / tw - t[0] / tw == n - 1)
  {
    TimeWidthPositive(cycleTime, width);
    var f, tw, last := FrameOf(t, cycleTime, width), width * cycleTime, MaxTick(t);
    RowIsLine(f, t, cycleTime, width, last);
    FloorBounds(t[0], tw);
    CompactIsShort(t[0], last, f.base, tw);
  }
}
