/** The text of a port connection's end, "object.port[index]", written and read. */
module PortText {
  import opened Text

  datatype End = End(owner: string, port: string, index: nat)

  function EndText(e: End): string {
    e.owner + ['.'] + e.port + ['['] + Show(e.index) + [']']
  }

  /** A dot that can separate object and port: no line break before it, and behind it a character that
      is neither a dot nor an opening bracket. */
  predicate Splits(s: string, d: nat) {
    d + 1 < |s| && s[d] == '.' && '\n' !in s[..d] && s[d + 1] != '.' && s[d + 1] != '['
  }

  /** The last separating dot before position `n`. */
  function LastSplit(s: string, n: nat): (d: Option<nat>)
    ensures d.Some? ==> d.value < n && Splits(s, d.value)
    ensures forall k: nat | Splits(s, k) && k < n :: d.Some? && k <= d.value
  {
    if n == 0 then None
    else if Splits(s, n - 1) then Some(n - 1)
    else LastSplit(s, n - 1)
  }

  /** The longest stretch without dots and opening brackets. */
  function Stretch(s: string): (t: string)
    ensures t <= s && '.' !in t && '[' !in t
  {
    if s == [] || s[0] == '.' || s[0] == '[' then [] else [s[0]] + Stretch(s[1..])
  }

  function Digits(s: string): (t: string)
    ensures t <= s && AllDigits(t)
  {
    if s == [] || !IsDigit(s[0]) then [] else [s[0]] + Digits(s[1..])
  }

  /** A bracketed number at the front; 0 when there is none. */
  function Bracketed(s: string): nat {
    if s == [] || s[0] != '[' then 0
    else
      var digits := Digits(s[1..]);
      if digits == [] || 1 + |digits| >= |s| || s[1 + |digits|] != ']' then 0 else Value(digits)
  }

  /** `None` when the pattern does not match at all. */
  function FromString(s: string): Option<End> {
    var d := LastSplit(s, |s|);
    if d.None? then None
    else
      var port := Stretch(s[d.value + 1..]);
      Some(End(s[..d.value], port, Bracketed(s[d.value + 1 + |port|..])))
  }

  /** Names that the text keeps apart. */
  predicate Nameable(e: End) {
    '\n' !in e.owner && e.port != [] && '.' !in e.port && '[' !in e.port
  }

  lemma {:induction false} StretchStops(t: string, rest: string)
    requires '.' !in t && '[' !in t && rest != [] && rest[0] == '['
    ensures Stretch(t + rest) == t
  {
    if t == [] {
      assert t + rest == rest;
    } else {
      assert (t + rest)[1..] == t[1..] + rest;
      StretchStops(t[1..], rest);
    }
  }

  lemma {:induction false} DigitsStop(t: string, rest: string)
    requires AllDigits(t) && (rest == [] || !IsDigit(rest[0]))
    ensures Digits(t + rest) == t
  {
    if t == [] {
      assert t + rest == rest;
    } else {
      assert IsDigit(t[0]);
      assert (t + rest)[1..] == t[1..] + rest;
      DigitsStop(t[1..], rest);
    }
  }

  lemma {:induction false} BracketedIndex(n: nat)
    ensures Bracketed(['['] + Show(n) + [']']) == n
  {
    hide Show;
    var s := ['['] + Show(n) + [']'];
    ShowDigits(n);
    assert s[1..] == Show(n) + [']'];
    DigitsStop(Show(n), [']']);
  }

  /** Behind the dot of a nameable end there is no other. */
  lemma {:induction false} DotIsLast(e: End, k: nat)
    requires Nameable(e) && Splits(EndText(e), k)
    ensures k <= |e.owner|
  {
    hide Show;
    ShowDigits(e.index);
    var tail := e.port + ['['] + Show(e.index) + [']'];
    assert EndText(e) == e.owner + ['.'] + tail;
    forall j | |e.owner| < j < |EndText(e)| ensures EndText(e)[j] != '.' {
      var i := j - |e.owner| - 1;
      var d := i - |e.port| - 1;
      assert EndText(e)[j] == tail[i];
      if 0 <= d < |Show(e.index)| {
        assert tail[i] == Show(e.index)[d] && IsDigit(Show(e.index)[d]);
      }
    }
  }

  lemma {:induction false} SplitsAtDot(e: End)
    requires Nameable(e)
    ensures Splits(EndText(e), |e.owner|) && LastSplit(EndText(e), |EndText(e)|) == Some(|e.owner|)
  {
    var s, n := EndText(e), |e.owner|;
    assert s[..n] == e.owner;
    assert s[n + 1] == e.port[0];
    assert Splits(s, n);
    var d := LastSplit(s, |s|);
    DotIsLast(e, d.value);
  }

  lemma {:induction false} ReadsBack(e: End)
    requires Nameable(e)
    ensures FromString(EndText(e)) == Some(e)
  {
    hide LastSplit, Splits, Stretch, Bracketed, Show;
    var s, n := EndText(e), |e.owner|;
    var rest := ['['] + Show(e.index) + [']'];
    SplitsAtDot(e);
    assert s[..n] == e.owner && s[n + 1..] == e.port + rest;
    StretchStops(e.port, rest);
    assert s[n + 1 + |e.port|..] == rest;
    BracketedIndex(e.index);
  }

  /** Reading back the text of an end gives the same end if and only if it is nameable. */
  lemma {:induction false} RoundTripIff(e: End)
    ensures FromString(EndText(e)) == Some(e) <==> Nameable(e)
  {
    hide FromString, EndText, Nameable;
    if Nameable(e) {
      ReadsBack(e);
    } else if FromString(EndText(e)).Some? {
      ReadIsNameable(EndText(e));
    }
  }

  /** The text of an end without an index, as a port that is no vector has it, reads as index 0. */
  lemma {:induction false} NoIndexReadsZero(owner: string, port: string)
    requires Nameable(End(owner, port, 0))
    ensures FromString(owner + ['.'] + port) == Some(End(owner, port, 0))
  {
    hide LastSplit, Stretch;
    var s, n := owner + ['.'] + port, |owner|;
    assert s[..n] == owner && s[n + 1..] == port && s[n + 1] == port[0];
    assert Splits(s, n);
    forall k | n < k < |s| ensures s[k] != '.' { assert s[k] == port[k - n - 1]; }
    StretchWhole(port);
    assert s[n + 1 + |port|..] == [];
  }

  lemma {:induction false} StretchWhole(t: string)
    requires '.' !in t && '[' !in t
    ensures Stretch(t) == t
  {
    if t == [] {
    } else {
      StretchWhole(t[1..]);
      assert t == [t[0]] + t[1..];
    }
  }

  /** Whatever is read is nameable. */
  lemma {:induction false} ReadIsNameable(s: string)
    requires FromString(s).Some?
    ensures Nameable(FromString(s).value)
  {
    var d := LastSplit(s, |s|).value;
    assert s[d + 1..][0] == s[d + 1];
  }
}
