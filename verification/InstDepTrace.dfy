/** Instruction dependency records as lines of text: the printer of the trace decoder, the parser of
    the trace encoder, and how far one undoes the other. */
module InstDepTrace {
  import opened Bits
  import opened Text

  type Word32 = n: nat | n < TWO32

  const INVALID := 0
  const LOAD := 1
  const STORE := 2
  const COMP := 3

  /** One record; `None` is an absent optional field. */
  datatype Record = Record(
    seqNum: Option<Word>, pc: Option<Word>, weight: Option<Word32>, kind: Option<nat>,
    addr: Option<Word>, size: Option<Word32>, flags: Option<Word32>, compDelay: Option<Word>,
    robDeps: seq<Word>, regDeps: seq<Word>, virtAddr: Option<Word>, asid: Option<Word32>)

  function KindName(kind: nat): Option<string> {
    if kind == INVALID then Some("INVALID")
    else if kind == LOAD then Some("LOAD")
    else if kind == STORE then Some("STORE")
    else if kind == COMP then Some("COMP")
    else None
  }

  function KindNumber(name: string): Option<nat> {
    if name == "INVALID" then Some(INVALID)
    else if name == "LOAD" then Some(LOAD)
    else if name == "STORE" then Some(STORE)
    else if name == "COMP" then Some(COMP)
    else None
  }

  // ------------------------------------------------- printing

  function Lead(r: Record): seq<string> {
    [Show(r.seqNum.Or(0)), Show(r.pc.Or(0)), Show(r.weight.Or(1))]
  }

  function Present(o: Option<nat>): seq<string> {
    if o.None? then [] else [Show(o.value)]
  }

  function Fields(r: Record, name: string): (fs: seq<string>)
    ensures fs != []
  {
    Lead(r) + [name] + Present(r.addr) + Present(r.size) + Present(r.flags) + [Show(r.compDelay.Or(0))]
  }

  function DepText(deps: seq<Word>): string {
    if deps == [] then [] else DepText(deps[..|deps| - 1]) + [','] + Show(deps[|deps| - 1])
  }

  function Body(r: Record, name: string): string {
    Join([Join(Fields(r, name), ','), DepText(r.robDeps), DepText(r.regDeps)], ':')
  }

  function Print(r: Record): Option<string> {
    var name := KindName(r.kind.Or(0));
    if name.None? then None else Some(Body(r, name.value) + ['\n'])
  }

  // ------------------------------------------------- parsing

  /** A number assigned to an unsigned field: out of range is an error. */
  function ParseBelow(s: string, bound: nat): (r: Option<nat>)
    ensures r.Some? ==> r.value < bound
  {
    var v := ParseInt(s);
    if v.Some? && 0 <= v.value < bound then Some(v.value) else None
  }

  function ParseWord(s: string): Option<Word> {
    var v := ParseBelow(s, TWO64);
    if v.None? then None else Some(v.value)
  }

  function ParseWord32(s: string): Option<Word32> {
    var v := ParseBelow(s, TWO32);
    if v.None? then None else Some(v.value)
  }

  /** Empty pieces are skipped. */
  function ParseDeps(parts: seq<string>): Option<seq<Word>> {
    if parts == [] then Some([])
    else
      var done, last := ParseDeps(parts[..|parts| - 1]), parts[|parts| - 1];
      if done.None? || last == [] then done
      else
        var dep := ParseWord(last);
        if dep.None? then None else Some(done.value + [dep.value])
  }

  /** The fields before the first colon. */
  function ParseInfo(info: seq<string>): Option<Record> {
    if |info| < 4 then None
    else
      var seqNum, pc, weight := ParseWord(info[0]), ParseWord(info[1]), ParseWord32(info[2]);
      var kind := KindNumber(info[3]);
      if seqNum.None? || pc.None? || weight.None? || kind.None? || kind.value == INVALID then None
      else if kind.value == LOAD || kind.value == STORE then
        if |info| < 8 then None
        else
          var addr, size, flags := ParseWord(info[4]), ParseWord32(info[5]), ParseWord32(info[6]);
          var compDelay := ParseWord(info[7]);
          if addr.None? || size.None? || flags.None? || compDelay.None? then None
          else Some(Record(seqNum, pc, weight, kind, addr, size, flags, compDelay, [], [], None, None))
      else if |info| < 5 then None
      else
        var compDelay := ParseWord(info[4]);
        if compDelay.None? then None
        else Some(Record(seqNum, pc, weight, kind, None, None, None, compDelay, [], [], None, None))
  }

  function Parse(line: string): Option<Record> {
    var parts := Split(Strip(line), ':');
    if |parts| != 3 then None
    else
      var info := ParseInfo(Split(parts[0], ','));
      var rob := ParseDeps(Split(Strip(parts[1]), ','));
      var reg := ParseDeps(Split(parts[2], ','));
      if info.None? || rob.None? || reg.None? then None
      else Some(info.value.(robDeps := rob.value, regDeps := reg.value))
  }

  // ------------------------------------------------- which records survive

  /** The record the text stands for: absent numbers become 0, an absent weight becomes 1. */
  function Filled(r: Record): Record {
    r.(seqNum := Some(r.seqNum.Or(0)), pc := Some(r.pc.Or(0)),
       weight := Some(r.weight.Or(1)),
       kind := Some(r.kind.Or(0)), compDelay := Some(r.compDelay.Or(0)))
  }

  /** Memory records with address, size and flags, computation records with none of them, and in
      both cases no virtual address and no address space, which the text has no place for. */
  predicate Expressible(r: Record) {
    && r.virtAddr.None? && r.asid.None?
    && (if r.kind == Some(LOAD) || r.kind == Some(STORE)
        then r.addr.Some? && r.size.Some? && r.flags.Some?
        else r.kind == Some(COMP) && r.addr.None? && r.size.None? && r.flags.None?)
  }

  // ------------------------------------------------- printed text is clean

  /** Free of white space and colons. */
  ghost predicate Clean(s: string) {
    forall i | 0 <= i < |s| :: s[i] != ':' && !IsSpace(s[i])
  }

  ghost predicate Token(s: string) {
    Clean(s) && ',' !in s
  }

  lemma {:induction false} ShowIsToken(n: nat)
    ensures Token(Show(n))
  {
    ShowDigits(n);
    forall i | 0 <= i < |Show(n)| ensures Show(n)[i] != ':' && Show(n)[i] != ',' && !IsSpace(Show(n)[i]) {
      assert IsDigit(Show(n)[i]);
    }
  }

  lemma {:induction false} NameIsToken(kind: nat)
    requires KindName(kind).Some?
    ensures Token(KindName(kind).value) && KindNumber(KindName(kind).value) == Some(kind)
  {}

  lemma {:induction false} FieldsAreTokens(r: Record, name: string)
    requires Token(name)
    ensures forall i | 0 <= i < |Fields(r, name)| :: Token(Fields(r, name)[i])
  {
    ShowIsToken(r.seqNum.Or(0));
    ShowIsToken(r.pc.Or(0));
    ShowIsToken(r.weight.Or(1));
    ShowIsToken(r.addr.Or(0));
    ShowIsToken(r.size.Or(0));
    ShowIsToken(r.flags.Or(0));
    ShowIsToken(r.compDelay.Or(0));
    hide Token, Show;
  }

  lemma {:induction false} JoinIsClean(parts: seq<string>)
    requires parts != [] && forall i | 0 <= i < |parts| :: Token(parts[i])
    ensures Clean(Join(parts, ','))
  {
    if |parts| > 1 { JoinIsClean(parts[1..]); }
  }

  lemma {:induction false} DepTextIsClean(deps: seq<Word>)
    ensures Clean(DepText(deps))
  {
    if deps == [] {
    } else {
      DepTextIsClean(deps[..|deps| - 1]);
      ShowIsToken(deps[|deps| - 1]);
    }
  }

  // ------------------------------------------------- parsing printed dependencies

  function DepParts(deps: seq<Word>): (p: seq<string>)
    ensures p != []
  {
    if deps == [] then [[]] else DepParts(deps[..|deps| - 1]) + [Show(deps[|deps| - 1])]
  }

  lemma {:induction false} DepTextJoins(deps: seq<Word>)
    ensures DepText(deps) == Join(DepParts(deps), ',')
  {
    if deps == [] {
    } else {
      var init := deps[..|deps| - 1];
      DepTextJoins(init);
      JoinSnoc(DepParts(init), Show(deps[|deps| - 1]), ',');
    }
  }

  lemma {:induction false} DepPartsAreTokens(deps: seq<Word>)
    ensures forall i | 0 <= i < |DepParts(deps)| :: Token(DepParts(deps)[i])
  {
    if deps == [] {
    } else {
      DepPartsAreTokens(deps[..|deps| - 1]);
      ShowIsToken(deps[|deps| - 1]);
    }
  }

  lemma {:induction false} ParseWordShow(n: Word)
    ensures ParseWord(Show(n)) == Some(n)
    ensures n < TWO32 ==> ParseWord32(Show(n)) == Some(n)
  {
    ParseShow(n);
  }

  lemma {:induction false} ParseDepsSnoc(parts: seq<string>, deps: seq<Word>, n: Word)
    requires ParseDeps(parts) == Some(deps)
    ensures ParseDeps(parts + [Show(n)]) == Some(deps + [n])
  {
    hide ParseWord, Show;
    ParseWordShow(n);
    var all := parts + [Show(n)];
    assert all[..|all| - 1] == parts;
  }

  lemma {:induction false} ParseNoDeps()
    ensures ParseDeps([""]) == Some([])
  {
    var parts: seq<string> := [""];
    assert parts[..0] == [];
  }

  lemma {:induction false} ParseDepParts(deps: seq<Word>)
    ensures ParseDeps(DepParts(deps)) == Some(deps)
  {
    hide ParseDeps, Show;
    if deps == [] {
      ParseNoDeps();
    } else {
      var init, last := deps[..|deps| - 1], deps[|deps| - 1];
      ParseDepParts(init);
      ParseDepsSnoc(DepParts(init), init, last);
      assert deps == init + [last];
    }
  }

  lemma {:induction false} ParseDepText(deps: seq<Word>)
    ensures ParseDeps(Split(DepText(deps), ',')) == Some(deps)
    ensures ParseDeps(Split(Strip(DepText(deps)), ',')) == Some(deps)
  {
    DepTextIsClean(deps);
    StripNewline(DepText(deps));
    DepTextJoins(deps);
    DepPartsAreTokens(deps);
    SplitJoin(DepParts(deps), ',');
    ParseDepParts(deps);
  }

  // ------------------------------------------------- parsing a printed record

  lemma {:induction false} BodySplits(r: Record, name: string)
    requires Token(name)
    ensures Strip(Body(r, name) + ['\n']) == Body(r, name)
    ensures Split(Body(r, name), ':') == [Join(Fields(r, name), ','), DepText(r.robDeps), DepText(r.regDeps)]
    ensures Split(Join(Fields(r, name), ','), ',') == Fields(r, name)
  {
    FieldsAreTokens(r, name);
    JoinIsClean(Fields(r, name));
    DepTextIsClean(r.robDeps);
    DepTextIsClean(r.regDeps);
    var parts := [Join(Fields(r, name), ','), DepText(r.robDeps), DepText(r.regDeps)];
    SplitJoin(parts, ':');
    SplitJoin(Fields(r, name), ',');
    BodyIsClean(r, name);
    StripNewline(Body(r, name));
  }

  lemma {:induction false} BodyIsClean(r: Record, name: string)
    requires Token(name)
    ensures NoSpace(Body(r, name))
  {
    FieldsAreTokens(r, name);
    JoinIsClean(Fields(r, name));
    DepTextIsClean(r.robDeps);
    DepTextIsClean(r.regDeps);
    var parts := [Join(Fields(r, name), ','), DepText(r.robDeps), DepText(r.regDeps)];
    assert Join(parts, ':') == parts[0] + [':'] + Join(parts[1..], ':');
    assert Join(parts[1..], ':') == parts[1] + [':'] + parts[2];
  }

  /** Parsing what was printed comes down to parsing the fields. */
  lemma {:induction false} ParsePrint(r: Record)
    requires Print(r).Some?
    ensures var info := ParseInfo(Fields(r, KindName(r.kind.Or(0)).value));
            Parse(Print(r).value)
            == if info.None? then None else Some(info.value.(robDeps := r.robDeps, regDeps := r.regDeps))
  {
    hide ParseInfo, Fields, Body, DepText, ParseDeps, Split, Strip, Join;
    NameIsToken(r.kind.Or(0));
    BodySplits(r, KindName(r.kind.Or(0)).value);
    ParseDepText(r.robDeps);
    ParseDepText(r.regDeps);
  }

  lemma {:induction false} LeadParses(r: Record)
    ensures ParseWord(Lead(r)[0]) == Some(r.seqNum.Or(0))
    ensures ParseWord(Lead(r)[1]) == Some(r.pc.Or(0))
    ensures ParseWord32(Lead(r)[2]) == Some(r.weight.Or(1))
  {
    hide ParseWord, ParseWord32, Show;
    ParseWordShow(r.seqNum.Or(0));
    ParseWordShow(r.pc.Or(0));
    ParseWordShow(r.weight.Or(1));
  }

  /** The exact range of the text format: a record printed and parsed back is the same record with
      its defaults filled in if and only if it is expressible. */
  lemma {:induction false} RoundTripIff(r: Record)
    ensures (Print(r).Some? && Parse(Print(r).value) == Some(Filled(r))) <==> Expressible(r)
  {
    if Print(r).Some? {
      ParsePrint(r);
      FieldsRoundTripIff(r);
    }
  }

  // ------------------------------------------------- the text in full

  lemma {:induction false} LeadJoins(r: Record)
    ensures Join(Lead(r), ',') == Show(r.seqNum.Or(0)) + [','] + Show(r.pc.Or(0)) + [','] + Show(r.weight.Or(1))
  {
    hide Show;
    var l := Lead(r);
    assert l[1..][1..] == [l[2]];
    assert Join(l[1..], ',') == l[1] + [','] + l[2];
    assert l[0] + [','] + (l[1] + [','] + l[2]) == l[0] + [','] + l[1] + [','] + l[2];
  }

  function Tail(o: Option<nat>): string {
    if o.Some? then [','] + Show(o.value) else ""
  }

  lemma {:induction false} JoinPresent(parts: seq<string>, o: Option<nat>)
    requires parts != []
    ensures Join(parts + Present(o), ',') == Join(parts, ',') + Tail(o)
  {
    if o.Some? {
      JoinSnoc(parts, Show(o.value), ',');
    } else {
      assert parts + Present(o) == parts;
    }
  }

  function RestText(r: Record): string {
    Tail(r.addr) + Tail(r.size) + Tail(r.flags) + ([','] + Show(r.compDelay.Or(0)))
  }

  lemma {:induction false} FieldsJoin(r: Record, name: string)
    ensures Join(Fields(r, name), ',') == Join(Lead(r), ',') + ([','] + name) + RestText(r)
  {
    hide Join, Show, Tail, Present;
    var a := Lead(r) + [name];
    JoinSnoc(Lead(r), name, ',');
    JoinPresent(a, r.addr);
    JoinPresent(a + Present(r.addr), r.size);
    JoinPresent(a + Present(r.addr) + Present(r.size), r.flags);
    JoinSnoc(a + Present(r.addr) + Present(r.size) + Present(r.flags), Show(r.compDelay.Or(0)), ',');
  }

  lemma {:induction false} BodyJoins(r: Record, name: string)
    ensures Body(r, name) == Join(Lead(r), ',') + ([','] + name) + RestText(r)
                             + ([':'] + DepText(r.robDeps) + [':'] + DepText(r.regDeps))
  {
    FieldsJoin(r, name);
    hide Fields, DepText, RestText, Lead;
    var parts := [Join(Fields(r, name), ','), DepText(r.robDeps), DepText(r.regDeps)];
    assert parts[1..][1..] == [DepText(r.regDeps)];
    assert Join(parts[1..], ':') == DepText(r.robDeps) + [':'] + DepText(r.regDeps);
  }

  /** The text of every record, in full: the types are 0 to 3, addresses only where there is one. */
  lemma {:induction false} PrintedText(r: Record)
    ensures Print(r)
         == if r.kind.Or(0) > 3 then None
            else Some(Show(r.seqNum.Or(0)) + "," + Show(r.pc.Or(0)) + "," + Show(r.weight.Or(1))
                      + ("," + ["INVALID", "LOAD", "STORE", "COMP"][r.kind.Or(0)])
                      + (Tail(r.addr) + Tail(r.size) + Tail(r.flags) + ("," + Show(r.compDelay.Or(0))))
                      + (":" + DepText(r.robDeps) + ":" + DepText(r.regDeps)) + "\n")
  {
    if r.kind.Or(0) <= 3 {
      var name := ["INVALID", "LOAD", "STORE", "COMP"][r.kind.Or(0)];
      assert KindName(r.kind.Or(0)) == Some(name);
      hide KindName, Show, DepText, Body, Tail;
      LeadJoins(r);
      BodyJoins(r, name);
    }
  }

  /** A computation, as the description of the format shows it. */
  lemma {:induction false} DocumentedComp()
    ensures Print(Record(Some(1), Some(35652), Some(1), Some(3), None, None, None, Some(8500), [], [], None, None))
         == Some("1,35652,1,COMP,8500::\n")
  {
    DocumentedNumbers();
    DocumentedPlaces();
    DocumentedAddress();
    DocumentedDeps();
    hide Show, Print, DepText;
    PrintedText(Record(Some(1), Some(35652), Some(1), Some(3), None, None, None, Some(8500), [], [], None, None));
    DocumentedCompText();
  }

  lemma {:induction false} DocumentedCompText()
    ensures "1" + "," + "35652" + "," + "1" + ("," + "COMP") + ("" + "" + "" + ("," + "8500"))
            + (":" + "" + ":" + "") + "\n"
         == "1,35652,1,COMP,8500::\n"
  {}

  /** A load. */
  lemma {:induction false} DocumentedLoad()
    ensures Print(Record(Some(3), Some(35660), Some(1), Some(1), Some(1748752), Some(4), Some(74), Some(500),
                 [2], [], None, None))
         == Some("3,35660,1,LOAD,1748752,4,74,500:,2:\n")
  {
    DocumentedNumbers();
    DocumentedPlaces();
    DocumentedAddress();
    DocumentedDeps();
    hide Show, Print, DepText;
    PrintedText(Record(Some(3), Some(35660), Some(1), Some(1), Some(1748752), Some(4), Some(74), Some(500),
                 [2], [], None, None));
    DocumentedLoadText();
  }

  lemma {:induction false} DocumentedLoadText()
    ensures "3" + "," + "35660" + "," + "1" + ("," + "LOAD")
            + ("," + "1748752" + ("," + "4") + ("," + "74") + ("," + "500"))
            + (":" + ",2" + ":" + "") + "\n"
         == "3,35660,1,LOAD,1748752,4,74,500:,2:\n"
  {}

  /** A store. */
  lemma {:induction false} DocumentedStore()
    ensures Print(Record(Some(6), Some(35666), Some(1), Some(2), Some(1748752), Some(4), Some(74), Some(1000),
                 [3], [4, 5], None, None))
         == Some("6,35666,1,STORE,1748752,4,74,1000:,3:,4,5\n")
  {
    DocumentedNumbers();
    DocumentedPlaces();
    DocumentedAddress();
    DocumentedDeps();
    hide Show, Print, DepText;
    PrintedText(Record(Some(6), Some(35666), Some(1), Some(2), Some(1748752), Some(4), Some(74), Some(1000),
                 [3], [4, 5], None, None));
    DocumentedStoreText();
  }

  lemma {:induction false} DocumentedStoreText()
    ensures "6" + "," + "35666" + "," + "1" + ("," + "STORE")
            + ("," + "1748752" + ("," + "4") + ("," + "74") + ("," + "1000"))
            + (":" + ",3" + ":" + ",4,5") + "\n"
         == "6,35666,1,STORE,1748752,4,74,1000:,3:,4,5\n"
  {}

  lemma {:induction false} DocumentedNumbers()
    ensures Show(1) == "1" && Show(2) == "2" && Show(3) == "3" && Show(4) == "4" && Show(5) == "5" && Show(6) == "6"
    ensures Show(74) == "74" && Show(500) == "500" && Show(1000) == "1000" && Show(8500) == "8500"
  {}

  lemma {:induction false} DocumentedPlaces()
    ensures Show(35652) == "35652" && Show(35660) == "35660" && Show(35666) == "35666"
  {
    assert Show(356) == "356";
    hide Show;
    ShowNext(356, 5);
    ShowNext(356, 6);
    ShowNext(3565, 2);
    ShowNext(3566, 0);
    ShowNext(3566, 6);
  }

  lemma {:induction false} ShowNext(n: nat, d: nat)
    requires n >= 1 && d < 10
    ensures Show(10 * n + d) == Show(n) + [Digit(d)]
  {}

  lemma {:induction false} DocumentedAddress()
    ensures Show(1748752) == "1748752"
  {}

  lemma {:induction false} DocumentedDeps()
    ensures DepText([]) == "" && DepText([2]) == ",2" && DepText([3]) == ",3" && DepText([4, 5]) == ",4,5"
  {
    DocumentedNumbers();
    hide Show;
    var two: seq<Word> := [4, 5];
    var one: seq<Word> := [4];
    assert two[..1] == one && one[..0] == [];
    assert DepText(one) == ",4";
  }

  /** A load that carries a virtual address comes back without it. */
  lemma {:induction false} VirtualAddressIsLost()
    ensures var r := Record(Some(1), Some(2), Some(1), Some(LOAD), Some(4096), Some(8), Some(0), Some(5), [], [],
                            Some(8192), None);
            Print(r).Some? && Parse(Print(r).value) == Some(r.(virtAddr := None))
  {
    hide Print, Parse;
    var r := Record(Some(1), Some(2), Some(1), Some(LOAD), Some(4096), Some(8), Some(0), Some(5), [], [],
                    Some(8192), None);
    var kept := r.(virtAddr := None);
    SameText(r, kept);
    RoundTripIff(kept);
  }

  lemma {:induction false} SameText(r: Record, s: Record)
    requires s == r.(virtAddr := s.virtAddr, asid := s.asid)
    ensures Print(r) == Print(s)
  {
    assert Fields(r, "") + [] == Fields(s, "") + [];
    hide Show, Join, DepText, KindName;
  }

  lemma {:induction false} FieldsRoundTripIff(r: Record)
    requires KindName(r.kind.Or(0)).Some?
    ensures var info := ParseInfo(Fields(r, KindName(r.kind.Or(0)).value));
            (info.Some? && info.value.(robDeps := r.robDeps, regDeps := r.regDeps) == Filled(r))
            <==> Expressible(r)
  {
    hide ParseInfo, Fields, KindNumber;
    var kind := r.kind.Or(0);
    var name := KindName(kind).value;
    NameIsToken(kind);
    if kind == LOAD || kind == STORE {
      MemoryFields(r, name);
    } else {
      OtherFields(r, name);
    }
  }

  lemma {:induction false} MemoryFields(r: Record, name: string)
    requires KindNumber(name) == Some(LOAD) || KindNumber(name) == Some(STORE)
    ensures ParseInfo(Fields(r, name))
            == if r.addr.Some? && r.size.Some? && r.flags.Some?
               then Some(Record(Some(r.seqNum.Or(0)), Some(r.pc.Or(0)), Some(r.weight.Or(1)), KindNumber(name),
                                r.addr, r.size, r.flags, Some(r.compDelay.Or(0)), [], [], None, None))
               else None
  {
    hide ParseWord, ParseWord32, Show, KindNumber;
    LeadParses(r);
    var fields := Fields(r, name);
    assert fields[..4] == Lead(r) + [name];
    if r.addr.Some? && r.size.Some? && r.flags.Some? {
      assert fields[4..] == [Show(r.addr.value), Show(r.size.value), Show(r.flags.value), Show(r.compDelay.Or(0))];
      ParseWordShow(r.addr.value);
      ParseWordShow(r.size.value);
      ParseWordShow(r.flags.value);
      ParseWordShow(r.compDelay.Or(0));
    } else {
      assert |fields| < 8;
    }
  }

  /** The field printed behind the type. */
  function FifthField(r: Record): Word {
    if r.addr.Some? then r.addr.value
    else if r.size.Some? then r.size.value
    else if r.flags.Some? then r.flags.value
    else r.compDelay.Or(0)
  }

  /** Any other valid type: whatever stands behind the type is taken for the computation delay. */
  lemma {:induction false} OtherFields(r: Record, name: string)
    requires KindNumber(name) == Some(INVALID) || KindNumber(name) == Some(COMP)
    ensures ParseInfo(Fields(r, name))
            == if KindNumber(name) == Some(INVALID) then None
               else Some(Record(Some(r.seqNum.Or(0)), Some(r.pc.Or(0)), Some(r.weight.Or(1)), Some(COMP),
                                None, None, None, Some(FifthField(r)), [], [], None, None))
  {
    hide ParseWord, ParseWord32, Show, KindNumber;
    LeadParses(r);
    var fields := Fields(r, name);
    assert fields[..4] == Lead(r) + [name];
    assert fields[4] == Show(FifthField(r));
    ParseWordShow(FifthField(r));
  }

  /** Every parsed record is expressible and has its defaults filled in. */
  lemma {:induction false} ParsedIsExpressible(line: string)
    requires Parse(line).Some?
    ensures Expressible(Parse(line).value) && Filled(Parse(line).value) == Parse(line).value
  {
    hide ParseDeps, ParseWord, ParseWord32, Split, Strip;
  }

  /** Text to record to text to record: the second record is the first. */
  lemma {:induction false} ParsePrintParse(line: string)
    requires Parse(line).Some?
    ensures var r := Parse(line).value; Print(r).Some? && Parse(Print(r).value) == Some(r)
  {
    hide Parse, Print;
    ParsedIsExpressible(line);
    RoundTripIff(Parse(line).value);
  }
}
