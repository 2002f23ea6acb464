/** How merged checkpoints name their sections: every "cpu" is followed by the checkpoint's number,
    padded to a common width. */
module CheckpointNames {
  import opened Text

  // ------------------------------------------------- zero padding

  function Zeros(k: nat): (z: string)
    ensures |z| == k
  {
    if k == 0 then [] else Zeros(k - 1) + ['0']
  }

  function Pad(s: string, width: nat): string {
    if |s| >= width then s else Zeros(width - |s|) + s
  }

  lemma {:induction false} ZerosValue(k: nat, s: string)
    requires AllDigits(s)
    ensures AllDigits(Zeros(k)) && AllDigits(Zeros(k) + s) && Value(Zeros(k) + s) == Value(s)
  {
    if s == [] {
      assert Zeros(k) + s == Zeros(k);
      if k > 0 {
        ZerosValue(k - 1, []);
        assert Zeros(k - 1) + [] == Zeros(k - 1);
        assert Zeros(k)[..k - 1] == Zeros(k - 1);
      }
    } else {
      var t := s[..|s| - 1];
      ZerosValue(k, t);
      var all := Zeros(k) + s;
      assert all[..|all| - 1] == Zeros(k) + t;
      assert forall i | 0 <= i < |all| :: all[i] == if i < k then Zeros(k)[i] else s[i - k];
    }
  }

  lemma {:induction false} ShowLonger(i: nat, n: nat)
    requires i <= n
    ensures |Show(i)| <= |Show(n)|
  {
    if i >= 10 { ShowLonger(i / 10, n / 10); }
  }

  /** The number of checkpoint `i` of `count`, as wide as the largest. */
  function Tag(i: nat, count: nat): string
    requires i < count
  {
    Pad(Show(i), |Show(count - 1)|)
  }

  lemma {:induction false} TagValue(i: nat, count: nat)
    requires i < count
    ensures |Tag(i, count)| == |Show(count - 1)|
    ensures AllDigits(Tag(i, count)) && Value(Tag(i, count)) == i
  {
    hide Show, Value, Zeros;
    var k := |Show(count - 1)| - |Show(i)|;
    ShowLonger(i, count - 1);
    ShowDigits(i);
    ZerosValue(k, Show(i));
    assert k == 0 ==> Zeros(k) + Show(i) == Show(i);
    assert Tag(i, count) == Zeros(k) + Show(i);
  }

  /** Tags have one width and are pairwise different. */
  lemma {:induction false} TagsDistinct(i: nat, j: nat, count: nat)
    requires i < count && j < count
    ensures |Tag(i, count)| == |Tag(j, count)|
    ensures Tag(i, count) == Tag(j, count) <==> i == j
  {
    hide Tag, Show, Value;
    TagValue(i, count);
    TagValue(j, count);
  }

  // ------------------------------------------------- renaming

  predicate StartsCpu(s: string) {
    |s| >= 3 && s[0] == 'c' && s[1] == 'p' && s[2] == 'u'
  }

  predicate HasCpu(s: string) {
    s != [] && (StartsCpu(s) || HasCpu(s[1..]))
  }

  /** Every "cpu", from left to right, gets the tag behind it. */
  function Rename(tag: string, s: string): string {
    if s == [] then []
    else if StartsCpu(s) then "cpu" + tag + Rename(tag, s[3..])
    else [s[0]] + Rename(tag, s[1..])
  }

  lemma {:induction false} HasCpuWithin(head: string, rest: string)
    ensures HasCpu(head + "cpu" + rest)
  {
    var s := head + "cpu" + rest;
    if head == [] {
      assert s == "cpu" + rest;
    } else {
      HasCpuWithin(head[1..], rest);
      assert s[1..] == head[1..] + "cpu" + rest;
    }
  }

  /** A name is a processor's exactly when "cpu" stands somewhere in it. */
  lemma {:induction false} HasCpuIff(s: string)
    ensures HasCpu(s) <==> exists head, rest :: s == head + "cpu" + rest
  {
    if HasCpu(s) {
      var head, rest := FirstCpu(s);
    }
    forall head, rest | s == head + "cpu" + rest ensures HasCpu(s) { HasCpuWithin(head, rest); }
  }

  lemma {:induction false} FirstCpu(s: string) returns (head: string, rest: string)
    requires HasCpu(s)
    ensures s == head + "cpu" + rest && !HasCpu(head)
  {
    if StartsCpu(s) {
      head, rest := [], s[3..];
      assert s == s[..3] + s[3..] && s[..3] == "cpu";
    } else {
      head, rest := FirstCpu(s[1..]);
      if |head| >= 1 {
        assert s[1] == head[0] && (|head| >= 2 ==> s[2] == head[1]);
      }
      head := [s[0]] + head;
      assert head[1..] == s[1..][..|head| - 1];
      assert s == [s[0]] + s[1..];
    }
  }

  /** A name without "cpu" stays as it is. */
  lemma {:induction false} RenameNothing(tag: string, s: string)
    requires !HasCpu(s)
    ensures Rename(tag, s) == s
  {
    if s == [] {
    } else {
      RenameNothing(tag, s[1..]);
      assert s == [s[0]] + s[1..];
    }
  }

  /** The first "cpu" gets the tag right behind it, and what follows is renamed in the same way. */
  lemma {:induction false} RenameFirst(tag: string, head: string, rest: string)
    requires !HasCpu(head)
    ensures Rename(tag, head + "cpu" + rest) == head + "cpu" + tag + Rename(tag, rest)
  {
    var s := head + "cpu" + rest;
    if head == [] {
      assert s == "cpu" + rest && s[3..] == rest;
    } else {
      assert !StartsCpu(s) by {
        assert s[0] == head[0] && s[1] == (if |head| >= 2 then head[1] else 'c');
        assert |head| >= 2 ==> s[2] == if |head| >= 3 then head[2] else 'c';
      }
      RenameFirst(tag, head[1..], rest);
      assert s[1..] == head[1..] + "cpu" + rest;
      assert [s[0]] + (head[1..] + "cpu" + tag + Rename(tag, rest)) == head + "cpu" + tag + Rename(tag, rest);
    }
  }

  lemma {:induction false} RenameStarts(tag: string, s: string)
    ensures StartsCpu(Rename(tag, s)) <==> StartsCpu(s)
  {
    if s != [] && !StartsCpu(s) && |s| > 1 {
      assert s[1] == 'p' ==> !StartsCpu(s[1..]);
      assert s[1] == 'p' ==> Rename(tag, s[1..])[0] == 'p';
      assert StartsCpu(s[1..]) ==> Rename(tag, s[1..])[0] == 'c';
      if |s| > 2 {
        assert s[2] == 'u' ==> !StartsCpu(s[1..][1..]);
        assert StartsCpu(s[1..][1..]) ==> Rename(tag, s[1..][1..])[0] == 'c';
      }
    }
  }

  lemma {:induction false} HasCpuRenamed(tag: string, s: string)
    ensures HasCpu(s) ==> HasCpu(Rename(tag, s))
  {
    if s != [] && !StartsCpu(s) {
      HasCpuRenamed(tag, s[1..]);
      assert Rename(tag, s)[1..] == Rename(tag, s[1..]);
    }
  }

  lemma {:induction false} RenameEmpty(tag: string, s: string)
    ensures Rename(tag, s) == [] <==> s == []
  {}

  lemma {:induction false} RenameInjective(tag: string, s: string, t: string)
    requires Rename(tag, s) == Rename(tag, t)
    ensures s == t
    decreases |s|
  {
    RenameEmpty(tag, s);
    RenameEmpty(tag, t);
    RenameStarts(tag, s);
    RenameStarts(tag, t);
    if s == [] {
    } else {
      if StartsCpu(s) {
        var n := 3 + |tag|;
        assert Rename(tag, s)[n..] == Rename(tag, s[3..]) && Rename(tag, t)[n..] == Rename(tag, t[3..]);
        RenameInjective(tag, s[3..], t[3..]);
        assert s == s[..3] + s[3..] && t == t[..3] + t[3..] && s[..3] == t[..3];
      } else {
        assert Rename(tag, s)[1..] == Rename(tag, s[1..]) && Rename(tag, t)[1..] == Rename(tag, t[1..]);
        RenameInjective(tag, s[1..], t[1..]);
        assert s == [s[0]] + s[1..] && t == [t[0]] + t[1..];
      }
    }
  }

  /** Names renamed with tags of one width agree only when both the tags and the names do. */
  lemma {:induction false} RenamedApart(tag: string, s: string, tag': string, t: string)
    requires |tag| == |tag'| && HasCpu(s) && HasCpu(t)
    requires Rename(tag, s) == Rename(tag', t)
    ensures tag == tag' && s == t
    decreases |s|
  {
    RenameStarts(tag, s);
    RenameStarts(tag', t);
    if StartsCpu(s) {
      var n := 3 + |tag|;
      assert Rename(tag, s)[3..n] == tag && Rename(tag', t)[3..n] == tag';
      RenameInjective(tag, s, t);
    } else {
      assert Rename(tag, s)[1..] == Rename(tag, s[1..]) && Rename(tag', t)[1..] == Rename(tag', t[1..]);
      RenamedApart(tag, s[1..], tag', t[1..]);
      assert s == [s[0]] + s[1..] && t == [t[0]] + t[1..];
    }
  }

  /** Section names of different checkpoints never clash, nor do those of one checkpoint. */
  lemma {:induction false} SectionsApart(i: nat, s: string, j: nat, t: string, count: nat)
    requires i < count && j < count && HasCpu(s) && HasCpu(t)
    ensures Rename(Tag(i, count), s) == Rename(Tag(j, count), t) <==> i == j && s == t
  {
    hide Tag, Rename, HasCpu;
    TagsDistinct(i, j, count);
    if Rename(Tag(i, count), s) == Rename(Tag(j, count), t) {
      RenamedApart(Tag(i, count), s, Tag(j, count), t);
    }
  }

  /** Without the padding they would: checkpoint 1's "cpu0" and checkpoint 10's "cpu". */
  lemma {:induction false} UnpaddedTagsClash()
    ensures Rename(Show(1), "cpu0") == Rename(Show(10), "cpu")
  {
    assert "cpu0"[3..] == "0" && "cpu"[3..] == "" && "0"[1..] == "";
    assert Show(10) == "1" + "0";
  }
}
