/** Whole traces of instruction dependency records: the decoder's and the encoder's loops, and what a
    trace looks like after both. */
module InstDepFiles {
  import opened Bits
  import opened Text
  import opened InstDepTrace

  /** Text written, and whether the program reached its end. */
  datatype Output = Output(text: string, ok: bool)

  /** The text of a trace. A record of unknown type ends the program behind its weight. */
  function PrintAll(rs: seq<Record>): Output {
    if rs == [] then Output("", true)
    else
      var line := Print(rs[0]);
      if line.None? then Output(Join(Lead(rs[0]), ','), false)
      else
        var rest := PrintAll(rs[1..]);
        Output(line.value + rest.text, rest.ok)
  }

  /** Records converted, and whether the program reached its end. */
  datatype Input = Input(records: seq<Record>, ok: bool)

  function ParseAll(lines: seq<string>): Input {
    if lines == [] then Input([], true)
    else
      var r := Parse(lines[0]);
      if r.None? then Input([], false)
      else
        var rest := ParseAll(lines[1..]);
        Input([r.value] + rest.records, rest.ok)
  }

  /** The lines of a file, each with its line end. */
  function Lines(text: string): seq<string> {
    if text == [] then []
    else
      var rest := Lines(text[1..]);
      if text[0] == '\n' || rest == [] then [[text[0]]] + rest
      else [[text[0]] + rest[0]] + rest[1..]
  }

  lemma {:induction false} LinesCons(body: string, rest: string)
    requires '\n' !in body
    ensures Lines(body + ['\n'] + rest) == [body + ['\n']] + Lines(rest)
  {
    var all := body + ['\n'] + rest;
    if body == [] {
      assert body + ['\n'] == ['\n'];
      assert all[1..] == rest && all[0] == '\n';
    } else {
      LinesCons(body[1..], rest);
      assert all[1..] == body[1..] + ['\n'] + rest;
      assert [body[0]] + (body[1..] + ['\n']) == body + ['\n'];
    }
  }

  function FillAll(rs: seq<Record>): (f: seq<Record>)
    ensures |f| == |rs|
  {
    if rs == [] then [] else [Filled(rs[0])] + FillAll(rs[1..])
  }

  predicate AllExpressible(rs: seq<Record>) {
    rs == [] || (Expressible(rs[0]) && AllExpressible(rs[1..]))
  }

  lemma {:induction false} PrintedIsOneLine(r: Record)
    requires Print(r).Some?
    ensures var line := Print(r).value; line != [] && '\n' !in line[..|line| - 1] && line[|line| - 1] == '\n'
  {
    hide Fields, DepText, Join, KindNumber;
    var name := KindName(r.kind.Or(0)).value;
    NameIsToken(r.kind.Or(0));
    BodyIsClean(r, name);
    assert Print(r).value[..|Body(r, name)|] == Body(r, name);
  }

  lemma {:induction false} PrintAllCons(rs: seq<Record>)
    requires rs != [] && Print(rs[0]).Some?
    ensures Lines(PrintAll(rs).text) == [Print(rs[0]).value] + Lines(PrintAll(rs[1..]).text)
  {
    hide Print, Lines;
    PrintedIsOneLine(rs[0]);
    var line := Print(rs[0]).value;
    LinesCons(line[..|line| - 1], PrintAll(rs[1..]).text);
    assert line[..|line| - 1] + ['\n'] == line;
  }

  lemma {:induction false} ParseAllCons(line: string, rest: seq<string>)
    ensures ParseAll([line] + rest)
            == if Parse(line).None? then Input([], false)
               else Input([Parse(line).value] + ParseAll(rest).records, ParseAll(rest).ok)
  {
    hide Parse;
    assert ([line] + rest)[1..] == rest;
  }

  lemma {:induction false} ConsIsFill(r: Record, tail: seq<Record>, rs: seq<Record>)
    requires rs != []
    ensures [r] + tail == FillAll(rs) <==> r == Filled(rs[0]) && tail == FillAll(rs[1..])
  {
    hide Filled;
    assert ([r] + tail)[1..] == tail && ([r] + tail)[0] == r;
    assert FillAll(rs)[1..] == FillAll(rs[1..]) && FillAll(rs)[0] == Filled(rs[0]);
  }

  /** A whole trace survives the trip to text and back, with defaults filled in, if and only if each
      of its records is expressible. */
  lemma {:induction false} TraceRoundTripIff(rs: seq<Record>)
    ensures var out := PrintAll(rs);
            (out.ok && ParseAll(Lines(out.text)) == Input(FillAll(rs), true)) <==> AllExpressible(rs)
  {
    if rs == [] {
    } else {
      hide Print, Parse, Lines, ParseAll, FillAll, Filled, Expressible;
      RoundTripIff(rs[0]);
      if Print(rs[0]).Some? {
        var line, rest := Print(rs[0]).value, Lines(PrintAll(rs[1..]).text);
        PrintAllCons(rs);
        ParseAllCons(line, rest);
        TraceRoundTripIff(rs[1..]);
        if Parse(line).Some? {
          ConsIsFill(Parse(line).value, ParseAll(rest).records, rs);
        }
      }
    }
  }

  lemma {:induction false} ParsedAllExpressible(lines: seq<string>)
    requires ParseAll(lines).ok
    ensures var rs := ParseAll(lines).records; AllExpressible(rs) && FillAll(rs) == rs
  {
    if lines == [] {
    } else {
      hide Parse, Expressible, Filled;
      ParsedIsExpressible(lines[0]);
      ParsedAllExpressible(lines[1..]);
      assert ParseAll(lines).records[1..] == ParseAll(lines[1..]).records;
    }
  }

  /** Text that converts at all converts to the same trace again after being printed. */
  lemma {:induction false} TextIsStable(lines: seq<string>)
    requires ParseAll(lines).ok
    ensures var rs := ParseAll(lines).records;
            PrintAll(rs).ok && ParseAll(Lines(PrintAll(rs).text)) == Input(rs, true)
  {
    hide ParseAll, PrintAll, Lines, AllExpressible, FillAll;
    ParsedAllExpressible(lines);
    TraceRoundTripIff(ParseAll(lines).records);
  }

  // ------------------------------------------------- the decoder's loop

  function WithRobDeps(rs: seq<Record>): nat {
    if rs == [] then 0 else WithRobDeps(rs[..|rs| - 1]) + if rs[|rs| - 1].robDeps != [] then 1 else 0
  }

  function WithRegDeps(rs: seq<Record>): nat {
    if rs == [] then 0 else WithRegDeps(rs[..|rs| - 1]) + if rs[|rs| - 1].regDeps != [] then 1 else 0
  }

  ghost function RobDepIndices(rs: seq<Record>): set<int> {
    set i | 0 <= i < |rs| && rs[i].robDeps != []
  }

  ghost function RegDepIndices(rs: seq<Record>): set<int> {
    set i | 0 <= i < |rs| && rs[i].regDeps != []
  }

  lemma {:induction false} RobDepCount(rs: seq<Record>)
    ensures WithRobDeps(rs) == |RobDepIndices(rs)|
  {
    if rs == [] {
      assert RobDepIndices(rs) == {};
    } else {
      var n := |rs| - 1;
      var before := rs[..n];
      RobDepCount(before);
      assert RobDepIndices(rs) == if rs[n].robDeps != [] then RobDepIndices(before) + {n} else RobDepIndices(before);
    }
  }

  lemma {:induction false} RegDepCount(rs: seq<Record>)
    ensures WithRegDeps(rs) == |RegDepIndices(rs)|
  {
    if rs == [] {
      assert RegDepIndices(rs) == {};
    } else {
      var n := |rs| - 1;
      var before := rs[..n];
      RegDepCount(before);
      assert RegDepIndices(rs) == if rs[n].regDeps != [] then RegDepIndices(before) + {n} else RegDepIndices(before);
    }
  }

  /** The counts reported are those of the records with at least one dependency of the kind. */
  lemma {:induction false} DepCounts(rs: seq<Record>)
    ensures WithRobDeps(rs) == |RobDepIndices(rs)| && WithRegDeps(rs) == |RegDepIndices(rs)|
  {
    hide *;
    RobDepCount(rs);
    RegDepCount(rs);
  }

  /** A record of unknown type: everything before it is written in full, and of it the first three
      fields. */
  lemma {:induction false} StopsAtUnknown(before: seq<Record>, r: Record, rest: seq<Record>)
    requires PrintAll(before).ok && Print(r).None?
    ensures PrintAll(before + [r] + rest)
         == Output(PrintAll(before).text + Show(r.seqNum.Or(0)) + "," + Show(r.pc.Or(0)) + "," + Show(r.weight.Or(1)),
                   false)
  {
    hide Print, Show;
    var all := before + [r] + rest;
    if before == [] {
      assert all[0] == r;
      LeadJoins(r);
    } else {
      StopsAtUnknown(before[1..], r, rest);
      assert all[1..] == before[1..] + [r] + rest;
      var line, text := Print(before[0]).value, PrintAll(before[1..]).text;
      assert line + (text + Show(r.seqNum.Or(0)) + "," + Show(r.pc.Or(0)) + "," + Show(r.weight.Or(1)))
          == line + text + Show(r.seqNum.Or(0)) + "," + Show(r.pc.Or(0)) + "," + Show(r.weight.Or(1));
    }
  }

  class AsciiFile {
    var text: string

    constructor ()
      ensures text == ""
    {
      text := "";
    }

    method Write(s: string)
      modifies this
      ensures text == old(text) + s
    {
      text := text + s;
    }

    method WriteDeps(deps: seq<Word>)
      modifies this
      ensures text == old(text) + DepText(deps)
    {
      for i := 0 to |deps|
        invariant text == old(text) + DepText(deps[..i])
      {
        Write([','] + Show(deps[i]));
        DepTextSnoc(deps, i);
      }
      assert deps[..|deps|] == deps;
    }

    method WriteOptional(field: Option<nat>)
      modifies this
      ensures text == old(text) + Tail(field)
    {
      if field.Some? {
        Write([','] + Show(field.value));
      }
    }

    method WriteLead(r: Record)
      modifies this
      ensures text == old(text) + Join(Lead(r), ',')
    {
      hide Show, Join, Lead;
      Write(Show(r.seqNum.Or(0)));
      Write([','] + Show(r.pc.Or(0)));
      Write([','] + Show(r.weight.Or(1)));
      LeadJoins(r);
    }

    /** Everything behind the type name up to the first colon. */
    method WriteRest(r: Record)
      modifies this
      ensures text == old(text) + RestText(r)
    {
      hide Show;
      WriteOptional(r.addr);
      WriteOptional(r.size);
      WriteOptional(r.flags);
      Write([','] + Show(r.compDelay.Or(0)));
    }

    method WriteAllDeps(r: Record)
      modifies this
      ensures text == old(text) + [':'] + DepText(r.robDeps) + [':'] + DepText(r.regDeps)
    {
      hide DepText;
      Write([':']);
      WriteDeps(r.robDeps);
      Write([':']);
      WriteDeps(r.regDeps);
    }

    /** Write one record piece by piece; false when its type has no name. */
    method WriteRecord(r: Record) returns (ok: bool)
      modifies this
      ensures ok == Print(r).Some?
      ensures text == old(text) + if ok then Print(r).value else Join(Lead(r), ',')
    {
      hide DepText, KindName, Fields, Join, RestText, Body, Lead;
      WriteLead(r);
      var name := KindName(r.kind.Or(0));
      if name.None? {
        return false;
      }
      Write([','] + name.value);
      WriteRest(r);
      WriteAllDeps(r);
      Write(['\n']);
      BodyJoins(r, name.value);
      ok := true;
    }

    /** Write every packet; the counts are those the program reports at its end. */
    method WriteTrace(packets: seq<Record>) returns (ok: bool, numPackets: nat, numRob: nat, numReg: nat)
      modifies this
      ensures Output(text, ok) == Output(old(text) + PrintAll(packets).text, PrintAll(packets).ok)
      ensures ok ==> numPackets == |packets| && numRob == WithRobDeps(packets) && numReg == WithRegDeps(packets)
    {
      hide Print;
      numPackets, numRob, numReg := 0, 0, 0;
      while numPackets < |packets|
        invariant numPackets <= |packets|
        invariant old(text) + PrintAll(packets).text == text + PrintAll(packets[numPackets..]).text
        invariant PrintAll(packets).ok == PrintAll(packets[numPackets..]).ok
        invariant numRob == WithRobDeps(packets[..numPackets]) && numReg == WithRegDeps(packets[..numPackets])
      {
        ghost var rest := packets[numPackets..];
        assert rest[0] == packets[numPackets] && rest[1..] == packets[numPackets + 1..];
        ok := WriteRecord(packets[numPackets]);
        if !ok {
          numPackets := numPackets + 1;
          return;
        }
        assert packets[..numPackets + 1][..numPackets] == packets[..numPackets];
        if packets[numPackets].robDeps != [] { numRob := numRob + 1; }
        if packets[numPackets].regDeps != [] { numReg := numReg + 1; }
        numPackets := numPackets + 1;
      }
      ok := true;
      assert packets[..|packets|] == packets;
    }
  }

  lemma {:induction false} DepTextSnoc(deps: seq<Word>, i: nat)
    requires i < |deps|
    ensures DepText(deps[..i + 1]) == DepText(deps[..i]) + [','] + Show(deps[i])
  {
    assert deps[..i + 1][..i] == deps[..i];
  }

  // ------------------------------------------------- the encoder's loop

  /** Append the dependencies one at a time, skipping empty pieces. */
  method ReadDeps(parts: seq<string>) returns (deps: Option<seq<Word>>)
    ensures deps == ParseDeps(parts)
  {
    hide ParseWord;
    var list: seq<Word> := [];
    for i := 0 to |parts|
      invariant ParseDeps(parts[..i]) == Some(list)
    {
      assert parts[..i + 1][..i] == parts[..i];
      if parts[i] != [] {
        var dep := ParseWord(parts[i]);
        if dep.None? {
          ParseDepsFails(parts, i);
          return None;
        }
        list := list + [dep.value];
      }
    }
    assert parts[..|parts|] == parts;
    deps := Some(list);
  }

  lemma {:induction false} ParseDepsFails(parts: seq<string>, i: nat)
    requires i < |parts| && parts[i] != [] && ParseWord(parts[i]).None?
    ensures ParseDeps(parts).None?
  {
    hide ParseWord;
    if i < |parts| - 1 {
      ParseDepsFails(parts[..|parts| - 1], i);
    }
  }

  method ReadRecord(line: string) returns (r: Option<Record>)
    ensures r == Parse(line)
  {
    hide ParseInfo, ParseDeps, Split, Strip;
    var parts := Split(Strip(line), ':');
    if |parts| != 3 {
      return None;
    }
    var info := ParseInfo(Split(parts[0], ','));
    if info.None? {
      return None;
    }
    var rob := ReadDeps(Split(Strip(parts[1]), ','));
    if rob.None? {
      return None;
    }
    var reg := ReadDeps(Split(parts[2], ','));
    if reg.None? {
      return None;
    }
    r := Some(info.value.(robDeps := rob.value, regDeps := reg.value));
  }

  /** Convert line by line until one cannot be converted. */
  method ReadTrace(lines: seq<string>) returns (records: seq<Record>, ok: bool)
    ensures Input(records, ok) == ParseAll(lines)
  {
    hide Parse;
    records := [];
    for i := 0 to |lines|
      invariant ParseAll(lines)
             == Input(records + ParseAll(lines[i..]).records, ParseAll(lines[i..]).ok)
    {
      assert lines[i..][0] == lines[i] && lines[i..][1..] == lines[i + 1..];
      var r := ReadRecord(lines[i]);
      if r.None? {
        return records, false;
      }
      records := records + [r.value];
    }
    ok := true;
  }
}
