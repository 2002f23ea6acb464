/** Copyright years: sets of years written as comma-separated years and ranges, and read back. */
module Copyrights {
  import opened Text

  // ------------------------------------------------- runs

  datatype Run = Run(first: int, last: int)

  ghost predicate Increasing(list: seq<int>) {
    forall i, j | 0 <= i < j < |list| :: list[i] < list[j]
  }

  /** One more year: it extends the last run or starts a new one. */
  function AddYear(rs: seq<Run>, x: int): (r: seq<Run>)
    ensures r != []
  {
    if rs != [] && x == rs[|rs| - 1].last + 1
    then rs[..|rs| - 1] + [Run(rs[|rs| - 1].first, x)]
    else rs + [Run(x, x)]
  }

  /** The runs of an increasing list. */
  function Runs(list: seq<int>): (rs: seq<Run>)
    ensures rs == [] <==> list == []
  {
    if list == [] then [] else AddYear(Runs(list[..|list| - 1]), list[|list| - 1])
  }

  predicate InRun(y: int, r: Run) {
    r.first <= y <= r.last
  }

  ghost function Years(r: Run): set<int> {
    set y | r.first <= y <= r.last && InRun(y, r)
  }

  ghost predicate Covered(rs: seq<Run>, y: int) {
    exists k :: 0 <= k < |rs| && InRun(y, rs[k])
  }

  /** Runs in order, with at least one year missing between any two. */
  ghost predicate Separated(rs: seq<Run>) {
    && (forall i | 0 <= i < |rs| :: rs[i].first <= rs[i].last)
    && (forall i, j | 0 <= i < j < |rs| :: rs[i].last + 1 < rs[j].first)
  }

  lemma {:induction false} AddYearSeparated(rs: seq<Run>, x: int)
    requires Separated(rs) && (rs != [] ==> rs[|rs| - 1].last < x)
    ensures Separated(AddYear(rs, x)) && AddYear(rs, x)[|AddYear(rs, x)| - 1].last == x
  {
    if rs != [] {
      var n := |rs| - 1;
      forall i | 0 <= i < n ensures rs[i].last + 1 < rs[n].first {}
    }
  }

  lemma {:induction false} AddYearCovers(rs: seq<Run>, x: int, y: int)
    requires Separated(rs)
    ensures Covered(AddYear(rs, x), y) <==> Covered(rs, y) || y == x
  {
    var all, n := AddYear(rs, x), |rs| - 1;
    if rs != [] && x == rs[n].last + 1 {
      assert InRun(y, all[n]) <==> InRun(y, rs[n]) || y == x;
      assert forall k | 0 <= k < n :: all[k] == rs[k];
      if k :| 0 <= k < |rs| && InRun(y, rs[k]) { assert InRun(y, all[k]); }
      if k :| 0 <= k < |all| && InRun(y, all[k]) { assert k < n ==> InRun(y, rs[k]); }
    } else {
      assert InRun(y, all[|rs|]) <==> y == x;
      assert forall k | 0 <= k < |rs| :: all[k] == rs[k];
      if k :| 0 <= k < |rs| && InRun(y, rs[k]) { assert InRun(y, all[k]); }
    }
  }

  /** The runs of an increasing list are its maximal stretches of consecutive years: in order, apart
      from each other, and covering exactly the list. */
  lemma {:induction false} RunsSeparated(list: seq<int>)
    requires Increasing(list)
    ensures Separated(Runs(list))
    ensures list != [] ==> Runs(list)[|Runs(list)| - 1].last == list[|list| - 1]
  {
    hide AddYear, Separated;
    if list == [] {
      NoRuns();
    } else {
      var init, x := list[..|list| - 1], list[|list| - 1];
      RunsSeparated(init);
      assert init != [] ==> init[|init| - 1] < x;
      AddYearSeparated(Runs(init), x);
    }
  }

  lemma {:induction false} NoRuns()
    ensures Separated([])
  {}

  lemma {:induction false} RunsCover(list: seq<int>, y: int)
    requires Increasing(list)
    ensures y in list <==> Covered(Runs(list), y)
  {
    hide AddYear, Separated;
    if list == [] {
    } else {
      var init, x := list[..|list| - 1], list[|list| - 1];
      RunsCover(init, y);
      RunsSeparated(init);
      AddYearCovers(Runs(init), x, y);
      assert list == init + [x];
    }
  }

  // ------------------------------------------------- writing

  function RunText(r: Run): string {
    if r.first == r.last then ShowInt(r.first) else ShowInt(r.first) + ['-'] + ShowInt(r.last)
  }

  function Texts(rs: seq<Run>): (t: seq<string>)
    ensures |t| == |rs|
  {
    seq(|rs|, i requires 0 <= i < |rs| => RunText(rs[i]))
  }

  /** The text of a non-empty list of years. */
  function DateText(list: seq<int>): string
    requires list != []
  {
    Join(Texts(Runs(list)), ',')
  }

  lemma {:induction false} FirstYear(x: int)
    ensures AddYear([], x) == [Run(x, x)]
  {}

  lemma {:induction false} AddYearTo(runs: seq<Run>, r: Run, x: int)
    ensures AddYear(runs + [r], x)
         == if x == r.last + 1 then runs + [Run(r.first, x)] else runs + [r] + [Run(x, x)]
  {
    assert (runs + [r])[..|runs|] == runs;
  }

  /** Write the years of a sorted list. The first year of an empty list cannot be taken: `None` stands
      for that error. */
  method DateStr(list: seq<int>) returns (r: Option<string>)
    ensures r == if list == [] then None else Some(DateText(list))
  {
    hide AddYear, RunText;
    if list == [] {
      return None;
    }
    var output: seq<string> := [];
    var first, second := list[0], list[0];
    ghost var runs: seq<Run> := [];
    assert list[..1][..0] == [];
    FirstYear(list[0]);
    for i := 1 to |list|
      invariant Runs(list[..i]) == runs + [Run(first, second)]
      invariant output == Texts(runs)
    {
      var next := list[i];
      assert list[..i + 1][..i] == list[..i];
      AddYearTo(runs, Run(first, second), next);
      if next == second + 1 {
        second := next;
      } else {
        output := output + [RunText(Run(first, second))];
        runs := runs + [Run(first, second)];
        first, second := next, next;
      }
    }
    assert list[..|list|] == list;
    output := output + [RunText(Run(first, second))];
    assert output == Texts(runs + [Run(first, second)]);
    r := Some(Join(output, ','));
  }

  // ------------------------------------------------- reading

  /** Four digits, a dash between optional white space, four digits; what follows is ignored. */
  function MatchRange(s: string): Option<Run> {
    if |s| < 4 || !AllDigits(s[..4]) then None
    else
      var t := StripLeft(s[4..]);
      if t == [] || t[0] != '-' then None
      else
        var u := StripLeft(t[1..]);
        if |u| < 4 || !AllDigits(u[..4]) then None
        else Some(Run(Value(s[..4]), Value(u[..4])))
  }

  ghost function DatesIn(piece: string): set<int> {
    var range := MatchRange(piece);
    if range.Some? then Years(range.value)
    else
      var year := ParseInt(piece);
      if year.Some? then {year.value} else {}
  }

  ghost function DatesOf(pieces: seq<string>): set<int> {
    if pieces == [] then {}
    else DatesOf(pieces[..|pieces| - 1]) + DatesIn(Strip(pieces[|pieces| - 1]))
  }

  method ProcessDates(text: string) returns (output: set<int>)
    ensures output == DatesOf(Split(text, ','))
  {
    hide MatchRange, ParseInt, Strip;
    var pieces := Split(text, ',');
    output := {};
    for i := 0 to |pieces|
      invariant output == DatesOf(pieces[..i])
    {
      assert pieces[..i + 1][..i] == pieces[..i];
      var date := Strip(pieces[i]);
      var range := MatchRange(date);
      if range.Some? {
        var years := AddYears(range.value);
        output := output + years;
      } else {
        var year := ParseInt(date);
        if year.Some? {
          output := output + {year.value};
        }
      }
    }
    assert pieces[..|pieces|] == pieces;
  }

  method AddYears(r: Run) returns (years: set<int>)
    ensures years == Years(r)
  {
    years := {};
    var i := r.first;
    while i <= r.last
      invariant years == Years(Run(r.first, i - 1))
      invariant i >= r.first
      invariant i <= r.last + 1 || i == r.first
      decreases r.last + 1 - i
    {
      assert Years(Run(r.first, i)) == Years(Run(r.first, i - 1)) + {i};
      years := years + {i};
      i := i + 1;
    }
    assert Years(Run(r.first, i - 1)) == Years(r);
  }

  // ------------------------------------------------- reading one run back

  lemma {:induction false} ShowLength(n: nat)
    ensures n < 1000 ==> |Show(n)| <= 3
    ensures 1000 <= n <= 9999 ==> |Show(n)| == 4
    ensures n >= 10000 ==> |Show(n)| >= 5
  {
    assert n >= 10 ==> |Show(n)| == 1 + |Show(n / 10)|;
    assert n >= 100 ==> |Show(n / 10)| == 1 + |Show(n / 100)| by { assert n / 10 / 10 == n / 100; }
    assert n >= 1000 ==> |Show(n / 100)| == 1 + |Show(n / 1000)| by { assert n / 100 / 10 == n / 1000; }
    assert n >= 10000 ==> |Show(n / 1000)| == 1 + |Show(n / 10000)| by { assert n / 1000 / 10 == n / 10000; }
  }

  lemma {:induction false} ValueBelow(s: string)
    requires AllDigits(s) && |s| == 4
    ensures Value(s) <= 9999
  {
    var c, b, a := s[..3], s[..2], s[..1];
    assert s[..|s| - 1] == c && c[..|c| - 1] == b && b[..|b| - 1] == a && a[..|a| - 1] == [];
    assert Value(a) <= 9;
    assert Value(b) <= 99;
    assert Value(c) <= 999;
  }

  lemma {:induction false} SingleYear(n: int)
    ensures MatchRange(ShowInt(n)).None?
    ensures DatesIn(ShowInt(n)) == {n}
  {
    hide ParseInt, Show;
    ParseShowInt(n);
    var d := if n < 0 then -n else n;
    ShowDigits(d);
    var s := ShowInt(n);
    if n >= 0 && |s| > 4 {
      assert s[4..][0] == s[4] && IsDigit(s[4]);
    }
  }

  /** A dash behind the first character: not a number. */
  lemma {:induction false} NotANumber(s: string, k: nat)
    requires NoSpace(s) && 1 <= k < |s| && s[k] == '-'
    ensures ParseInt(s).None?
  {
    StripNewline(s);
    assert s[1..][k - 1] == '-';
    assert !IsDigit('-');
  }

  /** Reading the text of a range: the first year must have four digits, and of the last year only the
      first four are read. */
  lemma {:induction false} MatchRangeText(r: Run)
    requires r.first < r.last
    ensures !(1000 <= r.first <= 9999) ==> MatchRange(RunText(r)).None?
    ensures 1000 <= r.first <= 9999 ==>
              && |Show(r.last)| >= 4 && AllDigits(Show(r.last)[..4])
              && MatchRange(RunText(r)) == Some(Run(r.first, Value(Show(r.last)[..4])))
  {
    hide Show, Value;
    var s, f := RunText(r), ShowInt(r.first);
    if r.first >= 0 {
      ShowLength(r.first);
      ShowDigits(r.first);
      assert s[|f|] == '-';
      if 1000 <= r.first <= 9999 {
        ShowLength(r.last);
        ShowDigits(r.last);
        assert s[..4] == f && s[4..] == ['-'] + Show(r.last);
        assert s[4..][1..] == Show(r.last);
        assert IsDigit(Show(r.last)[0]);
      } else if |f| < 4 {
        assert |s| >= 4 ==> s[..4][|f|] == '-';
      } else {
        assert s[4] == f[4] && s[4..][0] == s[4] && IsDigit(f[4]);
      }
    } else {
      assert s[0] == '-';
      assert |s| >= 4 ==> s[..4][0] == '-';
    }
  }

  /** Runs that can be read back: single years, and ranges of four-digit years. */
  predicate Readable(r: Run) {
    r.first == r.last || (1000 <= r.first && r.last <= 9999)
  }

  /** Reading a run back never invents a year; it gives all of them when the run is readable, and
      otherwise loses the last. */
  lemma {:induction false} ReadRun(r: Run, y: int)
    requires r.first <= r.last
    ensures y in DatesIn(RunText(r)) ==> InRun(y, r)
    ensures Readable(r) ==> (y in DatesIn(RunText(r)) <==> InRun(y, r))
    ensures !Readable(r) ==> r.last !in DatesIn(RunText(r))
  {
    hide MatchRange, ParseInt, Show, Value;
    if r.first == r.last {
      SingleYear(r.first);
    } else {
      MatchRangeText(r);
      ShowIntPlain(r.first);
      ShowIntPlain(r.last);
      NotANumber(RunText(r), |ShowInt(r.first)|);
      if 1000 <= r.first <= 9999 {
        ValueBelow(Show(r.last)[..4]);
        if r.last <= 9999 { ReadWhole(r.last); }
      }
    }
  }

  lemma {:induction false} ReadWhole(n: nat)
    requires 1000 <= n <= 9999
    ensures AllDigits(Show(n)) && |Show(n)| == 4 && Value(Show(n)[..4]) == n
  {
    ShowLength(n);
    ShowDigits(n);
    assert Show(n)[..4] == Show(n);
  }

  // ------------------------------------------------- reading with blanks

  ghost predicate Blank(s: string) {
    forall i | 0 <= i < |s| :: IsSpace(s[i])
  }

  lemma {:induction false} StripBefore(blank: string, s: string)
    requires Blank(blank) && (s == [] || !IsSpace(s[0]))
    ensures StripLeft(blank + s) == s
  {
    if blank == [] {
      assert blank + s == s;
    } else {
      StripBefore(blank[1..], s);
      assert (blank + s)[1..] == blank[1..] + s;
    }
  }

  lemma {:induction false} StripBehind(s: string, blank: string)
    requires Blank(blank) && (s == [] || !IsSpace(s[|s| - 1]))
    ensures StripRight(s + blank) == s
  {
    if blank == [] {
      assert s + blank == s;
    } else {
      StripBehind(s, blank[..|blank| - 1]);
      assert (s + blank)[..|s + blank| - 1] == s + blank[..|blank| - 1];
    }
  }

  lemma {:induction false} StripAround(before: string, s: string, after: string)
    requires Blank(before) && Blank(after) && s != [] && !IsSpace(s[0]) && !IsSpace(s[|s| - 1])
    ensures Strip(before + s + after) == s
  {
    hide StripLeft, StripRight;
    assert before + s + after == before + (s + after);
    StripBefore(before, s + after);
    StripBehind(s, after);
  }

  /** A run as it may be written by hand: blanks around it and around its dash. */
  ghost function Spaced(r: Run, before: string, left: string, right: string, after: string): string {
    before + (if r.first == r.last then ShowInt(r.first)
              else ShowInt(r.first) + left + ['-'] + right + ShowInt(r.last)) + after
  }

  /** Blanks around a readable run and around its dash make no difference. */
  lemma {:induction false} BlanksIgnored(r: Run, before: string, left: string, right: string, after: string)
    requires r.first <= r.last && Readable(r)
    requires Blank(before) && Blank(left) && Blank(right) && Blank(after)
    ensures DatesIn(Strip(Spaced(r, before, left, right, after))) == Years(r)
  {
    hide Strip, MatchRange, ParseInt, Show, ShowInt;
    var f, l := ShowInt(r.first), ShowInt(r.last);
    ShowIntEnds(r.first);
    ShowIntEnds(r.last);
    if r.first == r.last {
      StripAround(before, f, after);
      SingleYear(r.first);
      assert Years(r) == {r.first};
    } else {
      var core := f + left + ['-'] + right + l;
      assert core[0] == f[0] && core[|core| - 1] == l[|l| - 1];
      StripAround(before, core, after);
      SpacedRange(r, left, right);
    }
  }

  lemma {:induction false} ShowIntEnds(n: int)
    ensures ShowInt(n) != [] && !IsSpace(ShowInt(n)[0]) && !IsSpace(ShowInt(n)[|ShowInt(n)| - 1])
  {
    hide Show, IsSpace;
    ShowIntPlain(n);
  }

  lemma {:induction false} SpacedRange(r: Run, left: string, right: string)
    requires r.first < r.last && Readable(r) && Blank(left) && Blank(right)
    ensures MatchRange(ShowInt(r.first) + left + ['-'] + right + ShowInt(r.last)) == Some(r)
  {
    hide Show, Value, StripLeft;
    var f, l := Show(r.first), Show(r.last);
    var s := f + left + ['-'] + right + l;
    ReadWhole(r.first);
    ReadWhole(r.last);
    assert s[..4] == f[..4] && s[4..] == left + (['-'] + right + l);
    StripBefore(left, ['-'] + right + l);
    assert (['-'] + right + l)[1..] == right + l;
    assert IsDigit(l[0]);
    StripBefore(right, l);
  }

  ghost predicate WrittenAs(r: Run, piece: string) {
    exists before, left, right, after ::
      Blank(before) && Blank(left) && Blank(right) && Blank(after) && piece == Spaced(r, before, left, right, after)
  }

  lemma {:induction false} WrittenReads(r: Run, piece: string)
    requires r.first <= r.last && Readable(r) && WrittenAs(r, piece)
    ensures ',' !in piece && DatesIn(Strip(piece)) == Years(r)
  {
    hide DatesIn, Strip, Show, ShowInt;
    var before, left, right, after :|
      Blank(before) && Blank(left) && Blank(right) && Blank(after) && piece == Spaced(r, before, left, right, after);
    BlanksIgnored(r, before, left, right, after);
    ShowIntPlain(r.first);
    ShowIntPlain(r.last);
    NoComma(before);
    NoComma(left);
    NoComma(right);
    NoComma(after);
  }

  lemma {:induction false} NoComma(blank: string)
    requires Blank(blank)
    ensures ',' !in blank
  {
    forall i | 0 <= i < |blank| ensures blank[i] != ',' { assert IsSpace(blank[i]); }
  }

  lemma {:induction false} PiecesRead(rs: seq<Run>, pieces: seq<string>, y: int)
    requires |pieces| == |rs| && AllReadable(rs)
    requires forall i | 0 <= i < |rs| :: rs[i].first <= rs[i].last && WrittenAs(rs[i], pieces[i])
    ensures y in DatesOf(pieces) <==> Covered(rs, y)
  {
    hide DatesIn, Strip, WrittenAs;
    if rs == [] {
    } else {
      var n := |rs| - 1;
      PiecesRead(rs[..n], pieces[..n], y);
      WrittenReads(rs[n], pieces[n]);
      if k :| 0 <= k < |rs| && InRun(y, rs[k]) { assert k < n ==> InRun(y, rs[..n][k]); }
      if k :| 0 <= k < |rs[..n]| && InRun(y, rs[..n][k]) { assert InRun(y, rs[k]); }
    }
  }

  /** Any list of readable runs between commas, with blanks wherever they may stand, gives exactly the
      years of the runs. */
  lemma {:induction false} HandwrittenList(rs: seq<Run>, pieces: seq<string>, y: int)
    requires rs != [] && |pieces| == |rs| && AllReadable(rs)
    requires forall i | 0 <= i < |rs| :: rs[i].first <= rs[i].last && WrittenAs(rs[i], pieces[i])
    ensures y in DatesOf(Split(Join(pieces, ','), ',')) <==> Covered(rs, y)
  {
    hide DatesOf, DatesIn, Strip, WrittenAs, Split, Covered;
    forall i | 0 <= i < |pieces| ensures ',' !in pieces[i] { WrittenReads(rs[i], pieces[i]); }
    SplitJoin(pieces, ',');
    PiecesRead(rs, pieces, y);
  }

  lemma {:induction false} DatesOfTwo(a: string, b: string)
    ensures DatesOf([a, b]) == DatesIn(Strip(a)) + DatesIn(Strip(b))
  {
    hide DatesIn, Strip;
    assert [a, b][..1] == [a] && [a][..0] == [];
    assert DatesOf([a]) == DatesOf([]) + DatesIn(Strip(a));
  }

  lemma {:induction false} HandwrittenTexts()
    ensures Spaced(Run(2001, 2001), "", "", "", "") == "2001"
    ensures Spaced(Run(2003, 2005), " ", " ", " ", "") == " 2003 - 2005"
  {
    assert Show(2001) == "2001" && Show(2003) == "2003" && Show(2005) == "2005";
  }

  lemma {:induction false} HandwrittenPieces()
    ensures Split("2001, 2003 - 2005", ',') == ["2001", " 2003 - 2005"]
  {
    hide Split;
    assert "2001, 2003 - 2005" == "2001" + [','] + " 2003 - 2005";
    SplitFirst("2001", ',', " 2003 - 2005");
    SplitWhole(" 2003 - 2005", ',');
  }

  /** A year and a range, with blanks. */
  lemma {:induction false} HandwrittenDates()
    ensures DatesOf(Split("2001, 2003 - 2005", ',')) == {2001, 2003, 2004, 2005}
  {
    hide DatesOf, DatesIn, Strip, Spaced, Split;
    HandwrittenPieces();
    HandwrittenTexts();
    DatesOfTwo("2001", " 2003 - 2005");
    BlanksIgnored(Run(2001, 2001), "", "", "", "");
    BlanksIgnored(Run(2003, 2005), " ", " ", " ", "");
    assert Years(Run(2001, 2001)) == {2001} && Years(Run(2003, 2005)) == {2003, 2004, 2005};
  }

  // ------------------------------------------------- reading everything back

  lemma {:induction false} RunTextPlain(r: Run)
    ensures NoSpace(RunText(r)) && ',' !in RunText(r)
  {
    hide ShowInt;
    ShowIntPlain(r.first);
    ShowIntPlain(r.last);
  }

  ghost predicate ReadSomewhere(rs: seq<Run>, y: int) {
    exists k :: 0 <= k < |rs| && y in DatesIn(RunText(rs[k]))
  }

  lemma {:induction false} DatesOfTexts(rs: seq<Run>, y: int)
    ensures y in DatesOf(Texts(rs)) <==> ReadSomewhere(rs, y)
  {
    hide DatesIn, RunText, Strip;
    if rs == [] {
    } else {
      var n := |rs| - 1;
      var init := rs[..n];
      DatesOfTexts(init, y);
      RunTextPlain(rs[n]);
      StripNewline(RunText(rs[n]));
      assert Texts(rs)[..n] == Texts(init);
      if k :| 0 <= k < |init| && y in DatesIn(RunText(init[k])) {
        assert rs[k] == init[k];
      }
      if k :| 0 <= k < |rs| && y in DatesIn(RunText(rs[k])) {
        assert k < n ==> init[k] == rs[k];
      }
    }
  }

  lemma {:induction false} DatesOfText(list: seq<int>, y: int)
    requires list != []
    ensures y in DatesOf(Split(DateText(list), ',')) <==> ReadSomewhere(Runs(list), y)
  {
    hide DatesOf, RunText, Runs, Split;
    var rs := Runs(list);
    forall k | 0 <= k < |rs| ensures ',' !in Texts(rs)[k] {
      RunTextPlain(rs[k]);
    }
    SplitJoin(Texts(rs), ',');
    DatesOfTexts(rs, y);
  }

  ghost predicate AllReadable(rs: seq<Run>) {
    forall k | 0 <= k < |rs| :: Readable(rs[k])
  }

  lemma {:induction false} ReadIfReadable(rs: seq<Run>, y: int)
    requires Separated(rs) && AllReadable(rs)
    ensures ReadSomewhere(rs, y) <==> Covered(rs, y)
  {
    hide DatesIn, RunText;
    forall k | 0 <= k < |rs| ensures y in DatesIn(RunText(rs[k])) <==> InRun(y, rs[k]) {
      ReadRun(rs[k], y);
    }
  }

  lemma {:induction false} LostIfNot(rs: seq<Run>, k: nat)
    requires Separated(rs) && k < |rs| && !Readable(rs[k])
    ensures !ReadSomewhere(rs, rs[k].last) && Covered(rs, rs[k].last)
  {
    hide DatesIn, RunText, Readable;
    var y := rs[k].last;
    assert InRun(y, rs[k]);
    forall j | 0 <= j < |rs| ensures y !in DatesIn(RunText(rs[j])) {
      ReadRun(rs[j], y);
      assert j < k ==> rs[j].last + 1 < rs[k].first;
      assert k < j ==> rs[k].last + 1 < rs[j].first;
    }
  }

  /** Two neighbouring years make a range, and ranges are only read for years 1000 to 9999. */
  ghost predicate NeighboursHaveFourDigits(list: seq<int>) {
    forall y | y in list && y + 1 in list :: 1000 <= y && y + 1 <= 9999
  }

  lemma {:induction false} SameRun(rs: seq<Run>, k: nat, k': nat, y: int)
    requires Separated(rs) && k < |rs| && k' < |rs| && InRun(y, rs[k]) && InRun(y + 1, rs[k'])
    ensures k == k'
  {}

  lemma {:induction false} ReadableIff(list: seq<int>)
    requires Increasing(list)
    ensures AllReadable(Runs(list)) <==> NeighboursHaveFourDigits(list)
  {
    hide Runs;
    var rs := Runs(list);
    RunsSeparated(list);
    if AllReadable(rs) {
      forall y | y in list && y + 1 in list ensures 1000 <= y && y + 1 <= 9999 {
        RunsCover(list, y);
        RunsCover(list, y + 1);
        var k :| 0 <= k < |rs| && InRun(y, rs[k]);
        var k' :| 0 <= k' < |rs| && InRun(y + 1, rs[k']);
        SameRun(rs, k, k', y);
      }
    }
    if NeighboursHaveFourDigits(list) {
      forall k | 0 <= k < |rs| ensures Readable(rs[k]) {
        var r := rs[k];
        if r.first < r.last {
          assert InRun(r.first, rs[k]) && InRun(r.first + 1, rs[k]) && InRun(r.last - 1, rs[k]) && InRun(r.last, rs[k]);
          RunsCover(list, r.first);
          RunsCover(list, r.first + 1);
          RunsCover(list, r.last - 1);
          RunsCover(list, r.last);
          assert r.last - 1 + 1 in list;
        }
      }
    }
  }

  ghost predicate SameYears(text: string, list: seq<int>) {
    forall y :: y in DatesOf(Split(text, ',')) <==> y in list
  }

  /** Writing a set of years and reading the text gives the set back if and only if every two
      neighbouring years in it have four digits each. */
  lemma {:induction false} RoundTripIff(list: seq<int>)
    requires list != [] && Increasing(list)
    ensures SameYears(DateText(list), list) <==> NeighboursHaveFourDigits(list)
  {
    hide DateText, DatesOf, Split, Runs, Separated, ReadSomewhere, Covered, Readable, NeighboursHaveFourDigits;
    var rs := Runs(list);
    RunsSeparated(list);
    ReadableIff(list);
    if AllReadable(rs) {
      forall y ensures y in DatesOf(Split(DateText(list), ',')) <==> y in list {
        DatesOfText(list, y);
        ReadIfReadable(rs, y);
        RunsCover(list, y);
      }
    } else {
      var k :| 0 <= k < |rs| && !Readable(rs[k]);
      var y := rs[k].last;
      LostIfNot(rs, k);
      DatesOfText(list, y);
      RunsCover(list, y);
    }
  }

  /** Years 9999 and 10000 are written as a range and not read back. */
  lemma {:induction false} FiveDigitsAreLost()
    ensures !SameYears(DateText([9999, 10000]), [9999, 10000])
  {
    var list := [9999, 10000];
    assert list[0] in list && list[0] + 1 == list[1] && list[1] in list;
    RoundTripIff(list);
  }
}
