/** Stages of one column: which letter comes first, and that none is lost, on any line of any instruction. */
module PipeViewTies {
  import opened PipeViewTimeline
  import opened PipeViewDrawing

  const NAMES: seq<string> := ["fetch", "decode", "rename", "dispatch", "issue", "complete", "retire", "store"]

  /** `a` is `b` or comes before it in a dictionary. */
  ghost predicate Alphabetical(a: string, b: string) {
    a == [] || (b != [] && (a[0] < b[0] || (a[0] == b[0] && Alphabetical(a[1..], b[1..]))))
  }

  /** The rank of a stage is the place of its name in the alphabet. */
  lemma {:induction false} RankIsAlphabetical(a: nat, b: nat)
    requires a < 8 && b < 8
    ensures NameRank(a) <= NameRank(b) <==> Alphabetical(NAMES[a], NAMES[b])
  {
    var first := "fdrdicrs";
    assert forall s | 0 <= s < 8 :: NAMES[s] != [] && NAMES[s][0] == first[s];
    if a == b {
      SameAlphabetical(NAMES[a]);
    } else if first[a] == first[b] {
      assert NAMES[1][1..][0] == 'e' && NAMES[3][1..][0] == 'i';
      assert NAMES[2][1..][0] == 'e' && NAMES[6][1..][0] == 'e';
      assert NAMES[2][1..][1..][0] == 'n' && NAMES[6][1..][1..][0] == 't';
    }
  }

  lemma {:induction false} SameAlphabetical(a: string)
    ensures Alphabetical(a, a)
  {
    if a == [] {
    } else {
      SameAlphabetical(a[1..]);
    }
  }

  ghost predicate InDrawingOrder(events: seq<Event>)
    requires Staged(events)
  {
    forall j, k | 0 <= j < k < |events| :: Before(events[j], events[k])
  }

  lemma {:induction false} InsertInOrder(e: Event, events: seq<Event>)
    requires e.stage < 8 && Staged(events) && InDrawingOrder(events)
    ensures InDrawingOrder(InsertEvent(e, events))
  {
    hide NameRank;
    var k := InsertEventAt(e, events);
    var r := InsertEvent(e, events);
    forall a, b | 0 <= a < b < |r| ensures Before(r[a], r[b]) {
      if a == k {
        assert b - 1 > k ==> Before(events[k], events[b - 1]);
      } else if b == k {
        assert !Before(e, events[a]);
      } else {
        var a', b' := if a < k then a else a - 1, if b < k then b else b - 1;
        assert r[a] == events[a'] && r[b] == events[b'] && a' < b';
      }
    }
  }

  lemma {:induction false} SortInOrder(events: seq<Event>)
    requires Staged(events)
    ensures InDrawingOrder(SortEvents(events))
  {
    hide Before;
    if events == [] {
    } else {
      SortInOrder(events[1..]);
      InsertInOrder(events[0], SortEvents(events[1..]));
    }
  }

  lemma {:induction false} ShownInOrder(t: seq<int>, events: seq<Event>)
    requires |t| >= 7 && Staged(events) && InDrawingOrder(events)
    ensures InDrawingOrder(Shown(t, events))
  {
    hide Before, Hidden;
    if events == [] {
    } else {
      var rest := events[1..];
      assert forall j | 0 <= j < |rest| :: rest[j] == events[j + 1];
      ShownInOrder(t, rest);
      var shown := Shown(t, rest);
      forall j | 0 <= j < |shown| ensures Before(events[0], shown[j]) {
        ShownWithin(t, rest, j);
        var k :| 0 <= k < |rest| && rest[k] == shown[j];
      }
    }
  }

  /** Letters of one tick modulo the line stand in the alphabetical order of the stages' names. */
  lemma {:induction false} TiesAlphabetical(f: Frame, t: seq<int>, i: nat, j: nat, k: nat)
    requires f.Valid() && IsStages(t) && j < k < |Drawn(f, t, i)|
    ensures var a, b := Drawn(f, t, i)[j], Drawn(f, t, i)[k];
            a.pos <= b.pos && (a.pos == b.pos ==> Alphabetical(NAMES[a.stage], NAMES[b.stage]))
  {
    hide Shown, SortEvents, Gathered, NameRank, Alphabetical;
    GatheredStaged(f, t, i, |t|);
    SortInOrder(Gathered(f, t, i, |t|));
    ShownInOrder(t, SortEvents(Gathered(f, t, i, |t|)));
    var a, b := Drawn(f, t, i)[j], Drawn(f, t, i)[k];
    assert Before(a, b);
    RankIsAlphabetical(a.stage, b.stage);
  }

  // ------------------------------------------------- no letter is lost

  ghost function Letters(text: string, dot: char): string {
    if text == [] then [] else (if text[0] == dot then [] else [text[0]]) + Letters(text[1..], dot)
  }

  ghost function LettersOf(events: seq<Event>): string
    requires Staged(events)
  {
    if events == [] then [] else [LETTERS[events[0].stage]] + LettersOf(events[1..])
  }

  lemma {:induction false} LettersBehindDots(dot: char, n: int, text: string)
    ensures Letters(Dots(dot, n) + text, dot) == Letters(text, dot)
    decreases if n > 0 then n else 0
  {
    var dots := Dots(dot, n);
    if n <= 0 {
      assert dots + text == text;
    } else {
      LettersBehindDots(dot, n - 1, text);
      assert dots[1..] == Dots(dot, n - 1);
      assert (dots + text)[1..] == dots[1..] + text;
    }
  }

  lemma {:induction false} NextLetter(dot: char, n: int, letter: char, text: string)
    requires letter != dot
    ensures Letters(Dots(dot, n) + [letter] + text, dot) == [letter] + Letters(text, dot)
  {
    hide Dots;
    var tail := [letter] + text;
    assert Dots(dot, n) + [letter] + text == Dots(dot, n) + tail;
    LettersBehindDots(dot, n, tail);
    assert tail[1..] == text;
  }

  lemma {:induction false} RenderedLetters(f: Frame, events: seq<Event>, dot: char, pos: nat)
    requires f.Valid() && Staged(events) && dot !in LETTERS
    ensures Letters(Render(f, events, dot, pos), dot) == LettersOf(events)
  {
    hide Column, Dots, Letters;
    if events == [] {
      assert Dots(dot, f.width - pos) + [] == Dots(dot, f.width - pos);
      LettersBehindDots(dot, f.width - pos, []);
      NoLetters(dot);
    } else {
      var c := Column(f, events[0]);
      NextLetter(dot, c - pos, LETTERS[events[0].stage], Render(f, events[1..], dot, c + 1));
      RenderedLetters(f, events[1..], dot, c + 1);
    }
  }

  lemma {:induction false} NoLetters(dot: char)
    ensures Letters([], dot) == []
  {}

  /** Also where columns clash, the letters of a line are those of its stages, in drawing order. */
  lemma {:induction false} NoLetterLost(f: Frame, t: seq<int>, abandoned: bool, i: nat)
    requires f.Valid() && IsStages(t)
    ensures var dot := if abandoned then '=' else '.';
            Letters(LineText(f, t, dot, i), dot) == LettersOf(Drawn(f, t, i))
  {
    hide Drawn, Render;
    var dot := if abandoned then '=' else '.';
    assert dot !in LETTERS;
    RenderedLetters(f, Drawn(f, t, i), dot, 0);
  }
}
