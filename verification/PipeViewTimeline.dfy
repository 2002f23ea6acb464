/** The pipeline viewer's timeline of one instruction: which line and which column each stage's
    letter is drawn in, and when every line is exactly as wide as requested. */
module PipeViewTimeline {
  import opened Bits
  import opened PipeViewOrder

  const LETTERS: string := "fdnpicrs"

  /** Stage ticks in stage order; the eighth, store completion, is drawn only on request. */
  function Ticks(x: Inst, storeCompletions: bool): (t: seq<int>)
    ensures |t| == if storeCompletions then 8 else 7
  {
    [x.fetch, x.decode, x.rename, x.dispatch, x.issue, x.complete, x.retire]
    + if storeCompletions then [x.store] else []
  }

  /** Alphabetical place of a stage's name, which orders events of the same tick. */
  function NameRank(stage: nat): nat
    requires stage < 8
  {
    [3, 1, 5, 2, 4, 0, 6, 7][stage]
  }

  function MaxTick(t: seq<int>): (m: int)
    requires t != []
    ensures m in t && forall i | 0 <= i < |t| :: t[i] <= m
  {
    if |t| == 1 then t[0]
    else
      var m := MaxTick(t[..|t| - 1]);
      if t[|t| - 1] > m then t[|t| - 1] else m
  }

  /** The drawing's geometry. */
  datatype Frame = Frame(cycleTime: nat, width: nat, base: int, fetch: int, lines: nat) {
    ghost predicate Valid() { cycleTime >= 1 && width >= 1 }

    function TimeWidth(): nat { width * cycleTime }

    function Start(i: nat): int { base + i * TimeWidth() }

    function End(i: nat): int {
      Start(i) + TimeWidth() + if lines == 1 then fetch - base else 0
    }

    predicate OnLine(i: nat, tick: int) {
      tick != 0 && Start(i) <= tick < End(i)
    }
  }

  function FrameOf(t: seq<int>, cycleTime: nat, width: nat): (f: Frame)
    requires cycleTime >= 1 && width >= 1 && t != []
    ensures f.Valid()
  {
    TimeWidthPositive(cycleTime, width);
    var tw := width * cycleTime;
    var base := (t[0] / tw) * tw;
    var last := MaxTick(t);
    FloorBounds(t[0], tw);
    Frame(cycleTime, width, base, t[0], if last - t[0] < tw then 1 else (last - base) / tw + 1)
  }

  lemma {:induction false} TimeWidthPositive(cycleTime: nat, width: nat)
    requires cycleTime >= 1 && width >= 1
    ensures width * cycleTime >= 1
  {
    MulMagnitude(cycleTime, width);
  }

  lemma {:induction false} FloorBounds(n: int, m: nat)
    requires m >= 1
    ensures (n / m) * m <= n < (n / m) * m + m
  {}

  // ------------------------------------------------- which line

  function LineOf(f: Frame, tick: int): int
    requires f.Valid()
  {
    TimeWidthPositive(f.cycleTime, f.width);
    if f.lines == 1 then 0 else (tick - f.base) / f.TimeWidth()
  }

  lemma {:induction false} SameLine(tw: nat, base: int, tick: int, i: nat)
    requires tw >= 1 && tick >= base
    ensures base + i * tw <= tick < base + i * tw + tw <==> (tick - base) / tw == i
  {
    var q := (tick - base) / tw;
    FloorBounds(tick - base, tw);
    assert tick - base == tw * q + (tick - base) % tw;
    if base + i * tw <= tick < base + i * tw + tw {
      assert i * tw == tw * i;
      RemainderUnique(tick - base, tw, i, tick - base - i * tw);
    }
  }

  /** Every event at or after the left edge of the drawing is drawn on exactly one line, in the
      compact form and in the multi-line form alike; an event before it is on none. */
  lemma {:induction false} DrawnOnExactlyOneLine(t: seq<int>, cycleTime: nat, width: nat, tick: int, i: nat)
    requires cycleTime >= 1 && width >= 1 && t != [] && tick in t && tick != 0
    requires i < FrameOf(t, cycleTime, width).lines
    ensures var f := FrameOf(t, cycleTime, width);
            && (f.OnLine(i, tick) <==> tick >= f.base && i == LineOf(f, tick))
            && (tick >= f.base ==> 0 <= LineOf(f, tick) < f.lines)
            && f.base <= t[0]
  {
    var f := FrameOf(t, cycleTime, width);
    var tw, last := f.TimeWidth(), MaxTick(t);
    TimeWidthPositive(cycleTime, width);
    FloorBounds(t[0], tw);
    if f.lines == 1 {
      CompactIsShort(t[0], last, f.base, tw);
      assert f.Start(0) == f.base;
    } else {
      if tick >= f.base {
        SameLine(tw, f.base, tick, i);
        QuotientMonotone(tick - f.base, last - f.base, tw);
      } else {
        assert i * tw >= 0 by { MulMagnitude(tw, i); }
      }
    }
  }

  /** One line is drawn only in the compact form. */
  lemma {:induction false} CompactIsShort(fetch: int, last: int, base: int, tw: nat)
    requires tw >= 1 && base <= fetch < base + tw && fetch <= last
    ensures (last - base) / tw + 1 == 1 ==> last - fetch < tw
  {
    if last - fetch >= tw {
      QuotientMonotone(tw, last - base, tw);
      assert tw / tw == 1 by { RemainderUnique(tw, tw, 1, 0); }
    }
  }

  lemma {:induction false} QuotientMonotone(a: int, b: int, m: nat)
    requires m >= 1 && a <= b
    ensures a / m <= b / m
    ensures a >= 0 ==> a / m >= 0
  {
    FloorBounds(a, m);
    FloorBounds(b, m);
    var d := a / m - b / m;
    if d >= 1 {
      assert (a / m) * m - (b / m) * m == m * d;
      MulMagnitude(m, d);
    }
  }

  // ------------------------------------------------- which column

  datatype Event = Event(pos: nat, stage: nat, tick: int)

  function Column(f: Frame, e: Event): nat
    requires f.Valid()
  {
    e.pos / f.cycleTime
  }

  /** The drawing's column is the cycle number modulo the width, for every tick. */
  lemma {:induction false} ColumnIsCycle(tick: int, cycleTime: nat, width: nat)
    requires cycleTime >= 1 && width >= 1
    ensures width * cycleTime >= 1
    ensures (tick % (width * cycleTime)) / cycleTime == (tick / cycleTime) % width
    ensures 0 <= (tick / cycleTime) % width < width
  {
    TimeWidthPositive(cycleTime, width);
    var tw := width * cycleTime;
    var q, r := tick / tw, tick % tw;
    var s, u := r / cycleTime, r % cycleTime;
    assert tick == tw * q + r && r == cycleTime * s + u;
    assert tick == cycleTime * (width * q + s) + u by {
      assert tw * q == cycleTime * (width * q);
    }
    assert 0 <= s < width by { QuotientBelow(r, cycleTime, width); }
    RemainderUnique(tick, cycleTime, width * q + s, u);
    RemainderUnique(width * q + s, width, q, s);
  }

  lemma {:induction false} QuotientBelow(r: nat, c: nat, w: nat)
    requires c >= 1 && r < w * c
    ensures 0 <= r / c < w
  {
    var s := r / c;
    FloorBounds(r, c);
    MulMagnitude(c, s - w + 1);
    assert s * c - w * c == c * (s - w + 1) - c;
  }

  // ------------------------------------------------- rendering one line

  function Dots(dot: char, n: int): (s: string)
    ensures |s| == if n > 0 then n else 0
    ensures forall i | 0 <= i < |s| :: s[i] == dot
  {
    seq(if n > 0 then n else 0, _ => dot)
  }

  /** The text of a line from column `pos` on: events left to right, dots between. */
  function Render(f: Frame, events: seq<Event>, dot: char, pos: nat): string
    requires f.Valid() && forall i | 0 <= i < |events| :: events[i].stage < 8
  {
    if events == [] then Dots(dot, f.width - pos)
    else
      var c := Column(f, events[0]);
      Dots(dot, c - pos) + [LETTERS[events[0].stage]] + Render(f, events[1..], dot, c + 1)
  }

  /** Events in drawing order, all within the line. */
  ghost predicate InOrder(f: Frame, events: seq<Event>)
    requires f.Valid()
  {
    && (forall i | 0 <= i < |events| :: events[i].stage < 8 && Column(f, events[i]) < f.width)
    && (forall i, j | 0 <= i < j < |events| :: Column(f, events[i]) <= Column(f, events[j]))
  }

  /** Number of events that land on a column already written. */
  ghost function Clashes(f: Frame, events: seq<Event>, pos: nat): nat
    requires f.Valid()
  {
    if events == [] then 0
    else
      var c := Column(f, events[0]);
      (if c < pos then 1 else 0) + Clashes(f, events[1..], c + 1)
  }

  /** A line is one character too long for every clash. */
  lemma {:induction false} RenderLength(f: Frame, events: seq<Event>, dot: char, pos: nat)
    requires f.Valid() && InOrder(f, events) && pos <= f.width
    requires events != [] ==> pos <= Column(f, events[0]) + 1
    ensures |Render(f, events, dot, pos)| == f.width - pos + Clashes(f, events, pos)
  {
    if events == [] {
    } else {
      RenderLength(f, events[1..], dot, Column(f, events[0]) + 1);
    }
  }

  ghost predicate DistinctColumns(f: Frame, events: seq<Event>)
    requires f.Valid()
  {
    forall i, j | 0 <= i < j < |events| :: Column(f, events[i]) != Column(f, events[j])
  }

  lemma {:induction false} NoClashIffDistinct(f: Frame, events: seq<Event>, pos: nat)
    requires f.Valid() && InOrder(f, events)
    requires events != [] ==> pos <= Column(f, events[0]) + 1
    ensures Clashes(f, events, pos) == 0
            <==> DistinctColumns(f, events) && (events != [] ==> Column(f, events[0]) >= pos)
  {
    if events == [] {
    } else {
      var rest := events[1..];
      NoClashIffDistinct(f, rest, Column(f, events[0]) + 1);
      if DistinctColumns(f, events) && rest != [] {
        assert rest[0] == events[1];
        forall i, j | 0 <= i < j < |rest| ensures Column(f, rest[i]) != Column(f, rest[j]) {
          assert rest[i] == events[i + 1] && rest[j] == events[j + 1];
        }
      }
      if Clashes(f, events, pos) == 0 {
        forall i, j | 0 <= i < j < |events| ensures Column(f, events[i]) != Column(f, events[j]) {
          if i > 0 {
            assert events[i] == rest[i - 1] && events[j] == rest[j - 1];
          } else {
            assert rest[0] == events[1];
          }
        }
      }
    }
  }

  /** Without clashes, each letter sits in its own column and every other column is a dot. */
  lemma {:induction false} RenderAt(f: Frame, events: seq<Event>, dot: char, pos: nat, k: nat)
    requires f.Valid() && InOrder(f, events) && DistinctColumns(f, events)
    requires events != [] ==> pos <= Column(f, events[0])
    requires pos <= k < f.width
    ensures |Render(f, events, dot, pos)| == f.width - pos
    ensures (exists i :: 0 <= i < |events| && Column(f, events[i]) == k
                         && Render(f, events, dot, pos)[k - pos] == LETTERS[events[i].stage])
            || (Render(f, events, dot, pos)[k - pos] == dot
                && forall i | 0 <= i < |events| :: Column(f, events[i]) != k)
  {
    hide Column, Dots;
    NoClashIffDistinct(f, events, pos);
    RenderLength(f, events, dot, pos);
    if events == [] {
    } else {
      var rest, c := events[1..], Column(f, events[0]);
      if k == c {
        assert Render(f, events, dot, pos)[k - pos] == LETTERS[events[0].stage];
      } else if k < c {
        assert forall i | 0 <= i < |events| :: Column(f, events[0]) <= Column(f, events[i]);
      } else {
        forall i | 0 <= i < |rest| ensures rest[i] == events[i + 1] {}
        RenderAt(f, rest, dot, c + 1, k);
        var text := Render(f, rest, dot, c + 1);
        assert Render(f, events, dot, pos)[k - pos] == text[k - (c + 1)];
        if i :| 0 <= i < |rest| && Column(f, rest[i]) == k && text[k - (c + 1)] == LETTERS[rest[i].stage] {
          assert events[i + 1] == rest[i];
        } else {
          forall i | 0 <= i < |events| ensures Column(f, events[i]) != k {
            if i > 0 { assert events[i] == rest[i - 1]; }
          }
        }
      }
    }
  }

  // ------------------------------------------------- the events of a line

  function EventAt(f: Frame, t: seq<int>, s: nat): Event
    requires f.Valid() && s < |t|
  {
    TimeWidthPositive(f.cycleTime, f.width);
    Event(t[s] % f.TimeWidth(), s, t[s])
  }

  /** Events of line `i` among the first `n` stages, in stage order. */
  function Gathered(f: Frame, t: seq<int>, i: nat, n: nat): seq<Event>
    requires f.Valid() && n <= |t|
  {
    if n == 0 then []
    else Gathered(f, t, i, n - 1) + if f.OnLine(i, t[n - 1]) then [EventAt(f, t, n - 1)] else []
  }

  predicate Before(a: Event, b: Event)
    requires a.stage < 8 && b.stage < 8
  {
    a.pos < b.pos || (a.pos == b.pos && NameRank(a.stage) <= NameRank(b.stage))
  }

  predicate Staged(events: seq<Event>) {
    forall i | 0 <= i < |events| :: events[i].stage < 8
  }

  function InsertEvent(e: Event, events: seq<Event>): (r: seq<Event>)
    requires e.stage < 8 && Staged(events)
    ensures Staged(r)
  {
    if events == [] then [e]
    else if Before(e, events[0]) then [e] + events
    else [events[0]] + InsertEvent(e, events[1..])
  }

  function SortEvents(events: seq<Event>): (r: seq<Event>)
    requires Staged(events)
    ensures Staged(r)
  {
    if events == [] then [] else InsertEvent(events[0], SortEvents(events[1..]))
  }

  /** Dispatch is not drawn when issue happens in the same tick. */
  predicate Hidden(t: seq<int>, e: Event)
    requires |t| >= 7
  {
    e.stage == 3 && t[3] == t[4]
  }

  function Shown(t: seq<int>, events: seq<Event>): (r: seq<Event>)
    requires |t| >= 7 && Staged(events)
    ensures Staged(r)
  {
    if events == [] then []
    else if Hidden(t, events[0]) then Shown(t, events[1..])
    else [events[0]] + Shown(t, events[1..])
  }

  ghost predicate IsStages(t: seq<int>) { 7 <= |t| <= 8 }

  lemma {:induction false} GatheredStaged(f: Frame, t: seq<int>, i: nat, n: nat)
    requires f.Valid() && IsStages(t) && n <= |t|
    ensures Staged(Gathered(f, t, i, n))
    ensures forall k | 0 <= k < |Gathered(f, t, i, n)| :: Gathered(f, t, i, n)[k].stage < n
  {
    if n == 0 {
    } else {
      GatheredStaged(f, t, i, n - 1);
    }
  }

  /** What line `i` draws, left to right. */
  function Drawn(f: Frame, t: seq<int>, i: nat): (r: seq<Event>)
    requires f.Valid() && IsStages(t)
    ensures Staged(r)
  {
    GatheredStaged(f, t, i, |t|);
    Shown(t, SortEvents(Gathered(f, t, i, |t|)))
  }

  function LineText(f: Frame, t: seq<int>, dot: char, i: nat): string
    requires f.Valid() && IsStages(t)
  {
    Render(f, Drawn(f, t, i), dot, 0)
  }
}
