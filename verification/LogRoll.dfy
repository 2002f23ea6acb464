/** The rolling log: a buffer that is filled, then overwritten in a circle, and dumped from its
    oldest line. */
module LogRoll {

  /** The buffer, the index of the next line, and whether the buffer has gone round. */
  datatype Log = Log(lines: seq<string>, idx: nat, full: bool)

  function Dump(log: Log): seq<string>
    requires log.idx <= |log.lines|
  {
    log.lines[log.idx..] + log.lines[..log.idx]
  }

  /** The lines to keep: the last `target`, or all of them when no positive number was asked for. */
  function Kept(target: int, seen: seq<string>): seq<string> {
    if 1 <= target < |seen| then seen[|seen| - target..] else seen
  }

  function Read(log: Log, target: int, line: string): (r: Log)
    requires log.idx <= |log.lines| && (log.full ==> log.idx < |log.lines|)
  {
    var lines := if log.full then log.lines[log.idx := line] else log.lines + [line];
    if log.idx == target - 1 then Log(lines, 0, true) else Log(lines, log.idx + 1, log.full)
  }

  /** What holds between reads, for every input so far. */
  ghost predicate Holds(log: Log, target: int, seen: seq<string>) {
    && (if log.full then 1 <= target == |log.lines| <= |seen| && log.idx < target
        else log.idx == |log.lines| == |seen| && (target >= 1 ==> |seen| < target))
    && Dump(log) == Kept(target, seen)
  }

  /** One more line keeps it: the oldest line makes room once `target` lines are held. */
  lemma {:induction false} ReadHolds(log: Log, target: int, seen: seq<string>, line: string)
    requires Holds(log, target, seen)
    ensures Holds(Read(log, target, line), target, seen + [line])
  {
    var next, all := Read(log, target, line), seen + [line];
    if log.full {
      var i := log.idx;
      assert seen[|seen| - target..] == log.lines[i..] + log.lines[..i];
      assert Kept(target, all) == seen[|seen| - target..][1..] + [line] by {
        assert all[|all| - target..] == seen[|seen| - target + 1..] + [line];
      }
      assert seen[|seen| - target..][1..] == log.lines[i + 1..] + log.lines[..i];
      if i == target - 1 {
        assert Dump(next) == next.lines == log.lines[..i] + [line];
      } else {
        assert next.lines[i + 1..] == log.lines[i + 1..] && next.lines[..i + 1] == log.lines[..i] + [line];
      }
    } else {
      assert log.lines == seen;
    }
  }

  /** The program: fill the buffer, go round it, dump. At every loop head a dump shows exactly the
      lines to keep of the input read so far. */
  method Run(target: int, incoming: seq<string>) returns (printed: seq<string>)
    ensures printed == Kept(target, incoming)
  {
    hide Kept;
    var lines: seq<string>, idx, i := [], 0, 0;
    var broke := false;
    assert Holds(Log([], 0, false), target, incoming[..0]) by { StartHolds(target, incoming[..0]); }
    while i < |incoming| && !broke
      invariant 0 <= i <= |incoming| && idx >= 0
      invariant Holds(Log(lines, idx, broke), target, incoming[..i])
      decreases |incoming| - i
    {
      ReadHolds(Log(lines, idx, false), target, incoming[..i], incoming[i]);
      assert incoming[..i + 1] == incoming[..i] + [incoming[i]];
      lines := lines + [incoming[i]];
      i := i + 1;
      if idx == target - 1 {
        idx, broke := 0, true;
      } else {
        idx := idx + 1;
      }
    }
    while i < |incoming|
      invariant 0 <= i <= |incoming| && idx >= 0 && (i < |incoming| ==> broke)
      invariant Holds(Log(lines, idx, broke), target, incoming[..i])
    {
      ReadHolds(Log(lines, idx, true), target, incoming[..i], incoming[i]);
      assert incoming[..i + 1] == incoming[..i] + [incoming[i]];
      lines := lines[idx := incoming[i]];
      i := i + 1;
      idx := if idx == target - 1 then 0 else idx + 1;
    }
    assert incoming[..|incoming|] == incoming;
    printed := Dump(Log(lines, idx, broke));
  }

  lemma {:induction false} StartHolds(target: int, none: seq<string>)
    requires none == []
    ensures Holds(Log([], 0, false), target, none)
  {}
}
