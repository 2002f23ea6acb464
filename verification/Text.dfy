/** The text operations the tools share: decimal numbers, trimming, splitting and joining. */
module Text {

  datatype Option<+T> = None | Some(value: T) {
    function Or(default: T): T {
      if None? then default else value
    }
  }

  // ------------------------------------------------- decimal numbers

  function Digit(d: nat): char
    requires d < 10
  {
    ('0' as int + d) as char
  }

  predicate IsDigit(c: char) {
    '0' <= c <= '9'
  }

  predicate AllDigits(s: string) {
    forall i | 0 <= i < |s| :: IsDigit(s[i])
  }

  function Show(n: nat): (s: string)
    ensures s != []
  {
    if n < 10 then [Digit(n)] else Show(n / 10) + [Digit(n % 10)]
  }

  function Value(s: string): nat
    requires AllDigits(s)
  {
    if s == [] then 0
    else 10 * Value(s[..|s| - 1]) + (s[|s| - 1] as int - '0' as int)
  }

  lemma {:induction false} ShowDigits(n: nat)
    ensures AllDigits(Show(n)) && Value(Show(n)) == n
  {
    if n >= 10 {
      ShowDigits(n / 10);
      assert Show(n)[..|Show(n)| - 1] == Show(n / 10);
    } else {
      assert Show(n)[..0] == [];
    }
  }

  // ------------------------------------------------- trimming

  /** ASCII white space, as string trimming sees it. */
  predicate IsSpace(c: char) {
    9 <= c as int <= 13 || 28 <= c as int <= 32
  }

  function StripLeft(s: string): string {
    if s != [] && IsSpace(s[0]) then StripLeft(s[1..]) else s
  }

  function StripRight(s: string): string {
    if s != [] && IsSpace(s[|s| - 1]) then StripRight(s[..|s| - 1]) else s
  }

  function Strip(s: string): string {
    StripRight(StripLeft(s))
  }

  ghost predicate NoSpace(s: string) {
    forall i | 0 <= i < |s| :: !IsSpace(s[i])
  }

  lemma {:induction false} StripNewline(s: string)
    requires NoSpace(s)
    ensures Strip(s) == s && Strip(s + ['\n']) == s
  {
    var t := s + ['\n'];
    assert t[..|t| - 1] == s;
    if s == [] {
      assert t[1..] == [];
    } else {
      assert t[0] == s[0];
      assert !IsSpace(s[|s| - 1]);
    }
  }

  // ------------------------------------------------- reading a number

  /** A signed decimal number between optional white space. */
  function ParseInt(s: string): Option<int> {
    var t := Strip(s);
    if t == [] then None
    else
      var body := if t[0] == '-' || t[0] == '+' then t[1..] else t;
      if body == [] || !AllDigits(body) then None
      else
        var magnitude: int := Value(body);
        Some(if t[0] == '-' then -magnitude else magnitude)
  }

  lemma {:induction false} ParseShow(n: nat)
    ensures ParseInt(Show(n)) == Some(n)
  {
    ShowDigits(n);
    StripNewline(Show(n));
    assert IsDigit(Show(n)[0]);
  }

  function ShowInt(n: int): string {
    if n < 0 then ['-'] + Show(-n) else Show(n)
  }

  lemma {:induction false} ShowIntPlain(n: int)
    ensures NoSpace(ShowInt(n)) && ',' !in ShowInt(n) && ':' !in ShowInt(n)
    ensures n < 0 ==> ShowInt(n)[0] == '-'
  {
    var d := if n < 0 then -n else n;
    ShowDigits(d);
    forall i | 0 <= i < |Show(d)| ensures !IsSpace(Show(d)[i]) && Show(d)[i] != ',' && Show(d)[i] != ':' {
      assert IsDigit(Show(d)[i]);
    }
  }

  lemma {:induction false} ParseShowInt(n: int)
    ensures ParseInt(ShowInt(n)) == Some(n)
  {
    if n >= 0 {
      ParseShow(n);
    } else {
      ShowDigits(-n);
      ShowIntPlain(n);
      StripNewline(ShowInt(n));
      assert ShowInt(n)[1..] == Show(-n);
    }
  }

  // ------------------------------------------------- splitting and joining

  function Split(s: string, sep: char): (r: seq<string>)
    ensures r != []
  {
    if s == [] then [[]]
    else
      var r := Split(s[1..], sep);
      if s[0] == sep then [[]] + r else [[s[0]] + r[0]] + r[1..]
  }

  function Join(parts: seq<string>, sep: char): string
    requires parts != []
  {
    if |parts| == 1 then parts[0] else parts[0] + [sep] + Join(parts[1..], sep)
  }

  lemma {:induction false} SplitWhole(s: string, sep: char)
    requires sep !in s
    ensures Split(s, sep) == [s]
  {
    if s == [] {
    } else {
      SplitWhole(s[1..], sep);
      assert [s[0]] + s[1..] == s;
    }
  }

  lemma {:induction false} SplitFirst(s: string, sep: char, t: string)
    requires sep !in s
    ensures Split(s + [sep] + t, sep) == [s] + Split(t, sep)
  {
    var all := s + [sep] + t;
    if s == [] {
      assert all[1..] == t;
    } else {
      SplitFirst(s[1..], sep, t);
      assert all[1..] == s[1..] + [sep] + t;
      assert [s[0]] + s[1..] == s;
    }
  }

  lemma {:induction false} SplitJoin(parts: seq<string>, sep: char)
    requires parts != [] && forall i | 0 <= i < |parts| :: sep !in parts[i]
    ensures Split(Join(parts, sep), sep) == parts
  {
    if |parts| == 1 {
      SplitWhole(parts[0], sep);
    } else {
      SplitJoin(parts[1..], sep);
      SplitFirst(parts[0], sep, Join(parts[1..], sep));
      assert parts == [parts[0]] + parts[1..];
    }
  }

  lemma {:induction false} JoinSnoc(parts: seq<string>, last: string, sep: char)
    requires parts != []
    ensures Join(parts + [last], sep) == Join(parts, sep) + [sep] + last
  {
    var all := parts + [last];
    assert all[1..] == parts[1..] + [last];
    if |parts| > 1 {
      JoinSnoc(parts[1..], last, sep);
    } else {
      assert all[1..] == [last];
    }
  }
}
