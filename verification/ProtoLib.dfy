/** Length-delimited trace files: base-128 varints ("Base 128 Varints" in the Protocol Buffers
    encoding specification) and messages prefixed with their length. */
module ProtoLib {
  import opened Bits

  const TWO63: nat := 0x8000_0000_0000_0000
  const TWO70: nat := 64 * 0x1_0000_0000_0000_0000

  // ------------------------------------------------- varints

  /** Seven bits per byte, least significant first, high bit set on all but the last. */
  function Encode(n: nat): (b: Bytes)
    ensures b != []
  {
    if n < 128 then [n] else [128 + n % 128] + Encode(n / 128)
  }

  /** The 32-bit reading of a decoded value: reduced modulo 2^32, and below zero when the value
      does not fit a signed 64-bit integer. */
  function Narrow(value: nat): int {
    if value >= TWO63 then value % TWO32 - TWO32 else value % TWO32
  }

  /** Narrowing keeps the low 32 bits, and its sign tells whether the value fits a signed 64-bit integer. */
  lemma {:induction false} NarrowSign(value: nat)
    ensures -0x1_0000_0000 <= Narrow(value) < 0x1_0000_0000
    ensures Narrow(value) % 0x1_0000_0000 == value % 0x1_0000_0000
    ensures Narrow(value) >= 0 <==> value <= 0x7FFF_FFFF_FFFF_FFFF
  {}

  datatype Varint = EndOfFile | TooLong | Varint(value: int, used: nat)

  /** One more seven-bit group. The groups never overlap, so adding is or-ing (`GroupIsAdded`). */
  function Gathered(result: nat, b: Byte, shift: nat): nat {
    result + (b % 128) * Pow2(shift)
  }

  /** Decoding from the front of `data`, with `result` gathered so far and `shift` bits consumed. */
  function DecodeFrom(data: Bytes, result: nat, shift: nat, used: nat): (r: Varint)
    decreases |data|
  {
    if data == [] then EndOfFile
    else
      var b := data[0];
      var result' := Gathered(result, b, shift);
      if b < 128 then Varint(Narrow(result'), used + 1)
      else if shift + 7 >= 64 then TooLong
      else DecodeFrom(data[1..], result', shift + 7, used + 1)
  }

  function Decode(data: Bytes): Varint {
    DecodeFrom(data, 0, 0, 0)
  }

  /** Number of seven-bit groups of `n`. */
  ghost function Groups(n: nat): (g: nat)
    ensures g >= 1
  {
    if n < 128 then 1 else 1 + Groups(n / 128)
  }

  lemma {:induction false} EncodeLength(n: nat)
    ensures |Encode(n)| == Groups(n)
  {
    if n >= 128 { EncodeLength(n / 128); }
  }

  lemma {:induction false} Pow2Step7(k: nat)
    ensures Pow2(k + 7) == 128 * Pow2(k)
  {
    assert Pow2(k + 7) == 2 * Pow2(k + 6);
    assert Pow2(k + 6) == 2 * Pow2(k + 5);
    assert Pow2(k + 5) == 2 * Pow2(k + 4);
    assert Pow2(k + 4) == 2 * Pow2(k + 3);
    assert Pow2(k + 3) == 2 * Pow2(k + 2);
    assert Pow2(k + 2) == 2 * Pow2(k + 1);
  }

  lemma {:induction false} DecodeEncodeFrom(n: nat, suffix: Bytes, result: nat, k: nat)
    requires k <= 9
    ensures DecodeFrom(Encode(n) + suffix, result, 7 * k, k)
         == if k + Groups(n) <= 10 then Varint(Narrow(result + n * Pow2(7 * k)), k + Groups(n)) else TooLong
    decreases n
  {
    hide Narrow, Pow2, Encode, DecodeFrom;
    var data := Encode(n) + suffix;
    EncodeStep(n);
    DecodeFromStep(data, result, 7 * k, k);
    if n >= 128 {
      assert data[0] == 128 + n % 128 && data[0] % 128 == n % 128;
      assert data[1..] == Encode(n / 128) + suffix;
      if k < 9 {
        DecodeEncodeFrom(n / 128, suffix, Gathered(result, data[0], 7 * k), k + 1);
        Pow2Step7(7 * k);
        SplitGroup(n, Pow2(7 * k));
        assert 7 * (k + 1) == 7 * k + 7;
      }
    } else {
      assert data[0] == n;
    }
  }

  lemma {:induction false} SplitGroup(n: nat, p: nat)
    ensures (n % 128) * p + (n / 128) * (128 * p) == n * p
  {
    assert n == 128 * (n / 128) + n % 128;
    assert (128 * (n / 128)) * p == (n / 128) * (128 * p);
  }

  lemma {:induction false} GroupsBound(n: nat, g: nat)
    requires g >= 1
    ensures Groups(n) <= g <==> n < Pow2(7 * g)
  {
    Pow2Step7(7 * (g - 1));
    if g == 1 {
      assert Pow2(0) == 1;
    } else if n >= 128 {
      GroupsBound(n / 128, g - 1);
    } else {
      Pow2Positive(7 * (g - 1));
    }
  }

  lemma {:induction false} Pow2Of70()
    ensures Pow2(70) == TWO70
  {
    Pow2Of64();
    assert Pow2(64 + 1) == 2 * Pow2(64);
    assert Pow2(66) == 4 * TWO64;
    assert Pow2(68) == 16 * TWO64;
  }

  /** Decoding an encoded number, whatever follows it: all groups are consumed and nothing else; the
      number comes back narrowed; only numbers of more than ten groups are refused. */
  lemma {:induction false} DecodeEncode(n: nat, suffix: Bytes)
    ensures Decode(Encode(n) + suffix)
         == if n < TWO70 then Varint(Narrow(n), |Encode(n)|) else TooLong
  {
    DecodeEncodeFrom(n, suffix, 0, 0);
    EncodeLength(n);
    GroupsBound(n, 10);
    Pow2Of70();
    assert n * Pow2(0) == n;
  }

  /** The round trip holds exactly for 32-bit numbers. */
  lemma {:induction false} RoundTripIff32Bit(n: nat, suffix: Bytes)
    ensures Decode(Encode(n) + suffix) == Varint(n, |Encode(n)|) <==> n < TWO32
  {
    DecodeEncode(n, suffix);
  }

  // ------------------------------------------------- what the decoder does with any bytes

  /** `w` is one whole varint: a continuation bit on every byte but the last. */
  ghost predicate Whole(w: Bytes) {
    w != [] && w[|w| - 1] < 128 && forall i | 0 <= i < |w| - 1 :: w[i] >= 128
  }

  ghost function Raw(w: Bytes): nat {
    if w == [] then 0 else w[0] % 128 + 128 * Raw(w[1..])
  }

  /** Bytes at the front that announce another. */
  function Continued(data: Bytes): (k: nat)
    ensures k <= |data|
  {
    if data == [] || data[0] < 128 then 0 else 1 + Continued(data[1..])
  }

  lemma {:induction false} ContinuedStep(data: Bytes)
    ensures data == [] || data[0] < 128 ==> Continued(data) == 0
    ensures data != [] && data[0] >= 128 ==> Continued(data) == 1 + Continued(data[1..])
  {}

  lemma {:induction false} ContinuedWhole(data: Bytes)
    requires Continued(data) < |data|
    ensures Whole(data[..Continued(data) + 1])
  {
    var k := Continued(data);
    var w := data[..k + 1];
    if k == 0 {
    } else {
      ContinuedWhole(data[1..]);
      assert data[1..][..k] == w[1..];
    }
  }

  lemma {:induction false} RawStep(data: Bytes, p: nat)
    requires data != [] && data[0] >= 128 && Continued(data[1..]) < |data| - 1
    ensures var k := Continued(data);
            (data[0] % 128) * p + Raw(data[1..][..k]) * (128 * p) == Raw(data[..k + 1]) * p
  {
    var k := Continued(data);
    var rest := Raw(data[1..][..k]);
    assert data[..k + 1][1..] == data[1..][..k];
    assert Raw(data[..k + 1]) == data[0] % 128 + 128 * rest;
    assert rest * (128 * p) == (128 * rest) * p;
    assert (data[0] % 128 + 128 * rest) * p == (data[0] % 128) * p + (128 * rest) * p;
  }

  lemma {:induction false} DecodeFromExact(data: Bytes, result: nat, j: nat)
    requires j <= 9
    ensures var k := Continued(data);
            DecodeFrom(data, result, 7 * j, j)
            == if j + k >= 10 then TooLong
               else if k == |data| then EndOfFile
               else Varint(Narrow(result + Raw(data[..k + 1]) * Pow2(7 * j)), j + k + 1)
    decreases |data|
  {
    hide Narrow, Pow2, Raw;
    var k := Continued(data);
    if data == [] {
    } else {
      DecodeFromStep(data, result, 7 * j, j);
      if data[0] < 128 {
        OneByte(data);
      } else if j < 9 {
        DecodeFromExact(data[1..], Gathered(result, data[0], 7 * j), j + 1);
        Pow2Step7(7 * j);
        assert 7 * (j + 1) == 7 * j + 7;
        if k < |data| { RawStep(data, Pow2(7 * j)); }
      }
    }
  }

  lemma {:induction false} OneByte(data: Bytes)
    requires data != [] && data[0] < 128
    ensures Raw(data[..1]) == data[0] == data[0] % 128
  {
    assert data[..1][1..] == [];
  }

  /** The decoder on every byte string: too long from ten continued bytes on, end of file when the
      bytes run out before, and otherwise the number of the first whole varint, narrowed. */
  lemma {:induction false} DecodeExact(data: Bytes)
    ensures var k := Continued(data);
            Decode(data)
            == if k >= 10 then TooLong
               else if k == |data| then EndOfFile
               else Varint(Narrow(Raw(data[..k + 1])), k + 1)
  {
    DecodeFromExact(data, 0, 0);
    assert Pow2(0) == 1;
  }

  /** Bytes the decoder reads, whatever the outcome: never more than ten. */
  function BytesRead(data: Bytes): (n: nat)
    ensures n <= 10 && n <= |data|
  {
    Smaller(10, Smaller(|data|, Continued(data) + 1))
  }

  // ------------------------------------------------- encodings are minimal and prefix-free

  lemma {:induction false} EncodeIsWhole(n: nat)
    ensures Whole(Encode(n)) && Raw(Encode(n)) == n
  {
    if n >= 128 {
      EncodeIsWhole(n / 128);
      var b, rest := Encode(n), Encode(n / 128);
      assert b[1..] == rest && b[0] % 128 == n % 128;
      forall i | 0 <= i < |b| - 1 ensures b[i] >= 128 {
        if i > 0 { assert b[i] == rest[i - 1]; }
      }
    } else {
      assert Raw([n][1..]) == 0;
    }
  }

  /** Among all varints for a number the encoder's is the shortest, and the only one of its length. */
  lemma {:induction false} EncodeIsMinimal(w: Bytes)
    requires Whole(w)
    ensures |Encode(Raw(w))| <= |w|
    ensures |Encode(Raw(w))| == |w| <==> w == Encode(Raw(w))
  {
    hide Encode;
    var n, rest := Raw(w), w[1..];
    EncodeStep(n);
    if |w| == 1 {
      assert rest == [] && w[0] == n && n / 128 == 0;
    } else {
      WholeTail(w);
      EncodeIsMinimal(rest);
      assert n % 128 == w[0] % 128 && n / 128 == Raw(rest);
      assert w == [w[0]] + rest && w[0] == 128 + n % 128;
    }
  }

  lemma {:induction false} WholeTail(w: Bytes)
    requires Whole(w) && |w| > 1
    ensures Whole(w[1..]) && w[0] >= 128
  {
    var rest := w[1..];
    forall i | 0 <= i < |rest| - 1 ensures rest[i] >= 128 { assert rest[i] == w[i + 1]; }
  }

  lemma {:induction false} GroupsMonotone(m: nat, n: nat)
    requires m <= n
    ensures Groups(m) <= Groups(n)
  {
    if m >= 128 { GroupsMonotone(m / 128, n / 128); }
  }

  /** Whatever bytes decode to a number, the encoder needs no more of them. */
  lemma {:induction false} DecodedIsNoShorter(data: Bytes)
    requires Decode(data).Varint? && Decode(data).value >= 0
    ensures |Encode(Decode(data).value)| <= Decode(data).used
  {
    hide Decode, Raw;
    DecodeExact(data);
    ContinuedWhole(data);
    var w := data[..Continued(data) + 1];
    EncodeIsMinimal(w);
    EncodeLength(Raw(w));
    EncodeLength(Decode(data).value);
    assert Decode(data).value <= Raw(w);
    GroupsMonotone(Decode(data).value, Raw(w));
  }

  lemma {:induction false} EncodePrefixFree(m: nat, n: nat)
    requires Encode(m) <= Encode(n)
    ensures m == n
  {
    EncodeIsWhole(m);
    EncodeIsWhole(n);
    var a, b := Encode(m), Encode(n);
    assert b[|a| - 1] == a[|a| - 1];
    assert |a| == |b|;
    assert a == b;
  }

  // ------------------------------------------------- framed messages

  function EncodeMessage(payload: Bytes): Bytes {
    Encode(|payload|) + payload
  }

  function EncodeAll(messages: seq<Bytes>): Bytes {
    if messages == [] then [] else EncodeMessage(messages[0]) + EncodeAll(messages[1..])
  }

  /** What a file read of `n` bytes returns: -1 reads to the end of the file. */
  function Taken(data: Bytes, n: int): (b: Bytes)
    requires n >= -1
    ensures |b| <= |data|
  {
    if n < 0 || n > |data| then data else data[..n]
  }

  /** No message, a read that raised an error, or a message and what is left. */
  datatype Message = NoMessage | Raised | Message(payload: Bytes, rest: Bytes)

  /** Reading one message from the front of `data`. A read of fewer than -1 bytes raises an error that
      is not caught. */
  function DecodeMessage(data: Bytes): (r: Message)
    ensures r.Message? ==> |r.rest| < |data|
  {
    DecodeExact(data);
    match Decode(data)
    case EndOfFile => NoMessage
    case TooLong => NoMessage
    case Varint(size, used) =>
      if size == 0 then NoMessage
      else if size < -1 then Raised
      else
        var tail := data[used..];
        Message(Taken(tail, size), tail[|Taken(tail, size)|..])
  }

  /** The messages read, and whether reading ended with an error. */
  datatype Reading = Reading(messages: seq<Bytes>, raised: bool)

  /** Reading messages until none can be read. */
  function DecodeAll(data: Bytes): Reading
    decreases |data|
  {
    match DecodeMessage(data)
    case NoMessage => Reading([], false)
    case Raised => Reading([], true)
    case Message(payload, rest) => Behind([payload], DecodeAll(rest))
  }

  function Behind(messages: seq<Bytes>, r: Reading): Reading {
    r.(messages := messages + r.messages)
  }

  lemma {:induction false} DecodeEncodedMessage(m: Bytes, suffix: Bytes)
    ensures var n := |m|;
            DecodeMessage(EncodeMessage(m) + suffix)
            == if n >= TWO70 || Narrow(n) == 0 then NoMessage
               else if Narrow(n) < -1 then Raised
               else var t := Taken(m + suffix, Narrow(n)); Message(t, (m + suffix)[|t|..])
  {
    hide Narrow;
    var data := EncodeMessage(m) + suffix;
    assert data == Encode(|m|) + (m + suffix);
    DecodeEncode(|m|, m + suffix);
    assert data[|Encode(|m|)|..] == m + suffix;
  }

  /** Lengths narrowed to -1: a message of such a length is read to the end of the file. */
  predicate ReadsToEnd(n: nat) {
    TWO63 <= n < TWO70 && n % TWO32 == TWO32 - 1
  }

  /** Lengths that survive the 32-bit length prefix. */
  ghost predicate Framable(messages: seq<Bytes>) {
    forall i | 0 <= i < |messages| ::
      1 <= |messages[i]| < TWO32 || (i == |messages| - 1 && ReadsToEnd(|messages[i]|))
  }

  lemma {:induction false} FramableTail(messages: seq<Bytes>)
    requires messages != []
    ensures Framable(messages)
            <==> Framable(messages[1..])
                 && (1 <= |messages[0]| < TWO32
                     || (|messages| == 1 && ReadsToEnd(|messages[0]|)))
  {
    var rest := messages[1..];
    forall i | 0 <= i < |rest| ensures rest[i] == messages[i + 1] {}
    if Framable(messages) {
      forall i | 0 <= i < |rest|
        ensures 1 <= |rest[i]| < TWO32 || (i == |rest| - 1 && ReadsToEnd(|rest[i]|))
      {
        assert rest[i] == messages[i + 1];
      }
      assert 1 <= |messages[0]| < TWO32 || (0 == |messages| - 1 && ReadsToEnd(|messages[0]|));
    } else {
      var i :| 0 <= i < |messages|
        && !(1 <= |messages[i]| < TWO32 || (i == |messages| - 1 && ReadsToEnd(|messages[i]|)));
      if i > 0 { assert rest[i - 1] == messages[i]; }
    }
  }

  lemma {:induction false} EncodeAllEmpty(messages: seq<Bytes>)
    ensures EncodeAll(messages) == [] <==> messages == []
  {}

  /** Reading on past a message whose length survives the prefix. */
  lemma {:induction false} DecodeAllCons(m: Bytes, suffix: Bytes)
    requires 1 <= |m| < TWO32
    ensures DecodeAll(EncodeMessage(m) + suffix) == Behind([m], DecodeAll(suffix))
  {
    hide DecodeMessage, EncodeMessage;
    DecodeEncodedMessage(m, suffix);
    assert Taken(m + suffix, |m|) == m && (m + suffix)[|m|..] == suffix;
    assert DecodeMessage(EncodeMessage(m) + suffix) == Message(m, suffix);
  }

  /** The file round trip, exactly: reading back what was written gives the same messages if and only
      if every length is between 1 and 2^32 - 1 (or is that of a last message so long that its
      narrowed length is -1, which reads to the end of the file). */
  lemma {:induction false} FilesRoundTripIff(messages: seq<Bytes>)
    ensures DecodeAll(EncodeAll(messages)) == Reading(messages, false) <==> Framable(messages)
  {
    hide DecodeAll, EncodeMessage, Framable;
    if messages == [] {
      EmptyFile();
    } else {
      var m, rest := messages[0], messages[1..];
      FramableTail(messages);
      FilesRoundTripIff(rest);
      if 1 <= |m| < TWO32 {
        DecodeAllCons(m, EncodeAll(rest));
        ConsEqual(m, DecodeAll(EncodeAll(rest)).messages, messages);
      } else {
        OddLength(m, messages);
        if |messages| == 1 { FramableOne(rest); }
      }
    }
  }

  lemma {:induction false} EmptyFile()
    ensures DecodeAll(EncodeAll([])) == Reading([], false) && Framable([])
  {}

  lemma {:induction false} FramableOne(rest: seq<Bytes>)
    requires rest == []
    ensures Framable(rest)
  {}

  lemma {:induction false} ConsEqual(m: Bytes, tail: seq<Bytes>, messages: seq<Bytes>)
    requires messages != [] && messages[0] == m
    ensures [m] + tail == messages <==> tail == messages[1..]
  {
    assert ([m] + tail)[1..] == tail;
    assert messages == [m] + messages[1..];
  }

  lemma {:induction false} OddLength(m: Bytes, messages: seq<Bytes>)
    requires messages != [] && m == messages[0]
    requires !(1 <= |m| < TWO32)
    ensures DecodeAll(EncodeMessage(m) + EncodeAll(messages[1..])) == Reading(messages, false)
            <==> |messages| == 1 && ReadsToEnd(|m|)
  {
    var suffix := EncodeAll(messages[1..]);
    DecodeEncodedMessage(m, suffix);
    EncodeAllEmpty(messages[1..]);
    var n := |m|;
    var r := DecodeAll(EncodeMessage(m) + suffix);
    if ReadsToEnd(n) {
      assert Narrow(n) == -1;
      var all := m + suffix;
      assert Taken(all, -1) == all && all[|all|..] == [];
      assert DecodeAll([]) == Reading([], false);
      assert r == Reading([all], false);
      if |messages| == 1 {
        assert all == m;
      }
    } else if n >= TWO63 {
      assert n < TWO70 ==> Narrow(n) < -1;
    } else if n >= TWO32 && Narrow(n) != 0 {
      var t := Taken(m + suffix, Narrow(n));
      assert |t| == Narrow(n) < |m|;
      assert r.messages[0] == t;
    }
  }

  /** An empty message ends the file for the reader: only the messages before it come back. */
  lemma {:induction false} EmptyMessageStops(before: seq<Bytes>, after: seq<Bytes>)
    requires forall i | 0 <= i < |before| :: 1 <= |before[i]| < TWO32
    ensures DecodeAll(EncodeAll(before + [[]] + after)) == Reading(before, false)
  {
    hide DecodeAll, EncodeMessage;
    var all := before + [[]] + after;
    if before == [] {
      assert all[0] == [];
      EmptyMessageIsLast(EncodeAll(all[1..]));
    } else {
      var m := before[0];
      assert all[0] == m && all[1..] == before[1..] + [[]] + after;
      EmptyMessageStops(before[1..], after);
      DecodeAllCons(m, EncodeAll(all[1..]));
      assert before == [m] + before[1..];
    }
  }

  /** Three messages written, one read. */
  lemma {:induction false} EmptyMessageLosesTheRest()
    ensures DecodeAll(EncodeAll([[7], [], [8]])) == Reading([[7]], false)
  {
    hide DecodeAll, EncodeAll;
    assert [[7]] + [[]] + [[8]] == [[7], [], [8]];
    EmptyMessageStops([[7]], [[8]]);
  }

  lemma {:induction false} EmptyMessageIsLast(suffix: Bytes)
    ensures DecodeAll(EncodeMessage([]) + suffix) == Reading([], false)
  {
    DecodeEncodedMessage([], suffix);
  }

  // ------------------------------------------------- the file operations

  /** What is left to write once the low group `bits` is split off, with `value` above it. */
  function FromGroup(bits: nat, value: nat): Bytes
    requires bits < 128
  {
    if value == 0 then [bits] else [128 + bits] + Encode(value)
  }

  lemma {:induction false} EncodeStep(n: nat)
    ensures Encode(n) == FromGroup(n % 128, n / 128)
  {}

  class OutFile {
    var data: Bytes

    constructor ()
      ensures data == []
    {
      data := [];
    }

    method EncodeVarint32(n: nat)
      modifies this
      ensures data == old(data) + Encode(n)
    {
      hide Encode;
      var bits, value := n % 128, n / 128;
      EncodeStep(n);
      while value != 0
        invariant 0 <= bits < 128 && value >= 0
        invariant old(data) + Encode(n) == data + FromGroup(bits, value)
      {
        EncodeStep(value);
        assert data + FromGroup(bits, value) == data + [128 + bits] + Encode(value);
        data := data + [128 + bits];
        bits, value := value % 128, value / 128;
      }
      data := data + [bits];
    }

    method WriteMessage(payload: Bytes)
      modifies this
      ensures data == old(data) + EncodeMessage(payload)
    {
      EncodeVarint32(|payload|);
      data := data + payload;
    }
  }

  /** Or-ing in the next seven-bit group, shifted into place. */
  function OrGroup(result: nat, b: Byte, shift: nat): nat {
    Or(result, (b % 128) * Pow2(shift))
  }

  lemma {:induction false} GroupIsAdded(result: nat, b: Byte, shift: nat)
    requires result < Pow2(shift)
    ensures OrGroup(result, b, shift) == Gathered(result, b, shift) < Pow2(shift + 7)
  {
    hide Or, Pow2;
    OrAbove(result, b % 128, shift);
    Pow2Step7(shift);
    GroupScaled(b % 128, Pow2(shift));
  }

  lemma {:induction false} GroupScaled(group: nat, p: nat)
    requires group < 128
    ensures group * p <= 127 * p
  {
    assert (127 - group) * p >= 0;
  }

  lemma {:induction false} DecodeStarts(data: Bytes)
    ensures Decode(data) == DecodeFrom(data, 0, 0, 0)
  {}

  /** Where the bytes read end, seen from a position all bytes before which are continued. */
  lemma {:induction false} BytesReadAt(data: Bytes, pos: nat)
    requires pos <= 9 && pos <= |data| && Continued(data) == pos + Continued(data[pos..])
    ensures pos == |data| ==> BytesRead(data) == pos
    ensures pos < |data| && (data[pos] < 128 || pos == 9) ==> BytesRead(data) == pos + 1
  {
    ContinuedStep(data[pos..]);
  }

  lemma {:induction false} DecodeFromStep(data: Bytes, result: nat, shift: nat, used: nat)
    ensures data == [] ==> DecodeFrom(data, result, shift, used) == EndOfFile
    ensures data != [] ==>
              var b := data[0];
              var result' := Gathered(result, b, shift);
              DecodeFrom(data, result, shift, used)
              == if b < 128 then Varint(Narrow(result'), used + 1)
                 else if shift + 7 >= 64 then TooLong
                 else DecodeFrom(data[1..], result', shift + 7, used + 1)
  {}

  lemma {:induction false} ReadIsTaken(all: Bytes, n: int, b: Bytes, rest: Bytes)
    requires b + rest == all && n >= -1
    requires n == -1 ==> rest == []
    requires n >= 0 ==> |b| == Smaller(n, |all|)
    ensures b == Taken(all, n) && rest == all[|b|..]
  {
    assert all[..|b|] == b;
  }

  class InFile {
    /** The unread part of the file. */
    var data: Bytes

    constructor (contents: Bytes)
      ensures data == contents
    {
      data := contents;
    }

    /** Bytes leave the front of the file in order: as many as asked for, fewer at its end, and all of
        them for -1. Any other negative count is an error and reads nothing. */
    method Read(n: int) returns (ok: bool, b: Bytes)
      modifies this
      ensures ok <==> n >= -1
      ensures b + data == old(data)
      ensures n < -1 ==> b == []
      ensures n == -1 ==> data == []
      ensures n >= 0 ==> |b| == Smaller(n, |old(data)|)
    {
      if n < -1 {
        return false, [];
      }
      ok := true;
      b := Taken(data, n);
      data := data[|b|..];
    }

    method ReadByte() returns (c: Bytes)
      modifies this
      ensures old(data) == [] ==> c == [] && data == []
      ensures old(data) != [] ==> c == [old(data)[0]] && data == old(data)[1..]
    {
      ghost var before := data;
      var _, b := Read(1);
      c := b;
      ReadIsTaken(before, 1, c, data);
    }

    /** Decode a varint; `EndOfFile` stands for the source's (0, 0), `TooLong` for its OSError. */
    method DecodeVarint32() returns (r: Varint)
      modifies this
      ensures r == Decode(old(data))
      ensures data == old(data)[BytesRead(old(data))..]
      ensures |old(data)| - |data| <= 10
    {
      assert Pow2(0) == 1;
      hide OrGroup, Gathered, Narrow, Pow2, DecodeFrom, Continued, BytesRead, Decode;
      var result, shift, pos := 0, 0, 0;
      DecodeStarts(data);
      while true
        invariant 0 <= pos <= 9 && shift == 7 * pos && pos <= |old(data)| && data == old(data)[pos..]
        invariant Continued(old(data)) == pos + Continued(data)
        invariant 0 <= result < Pow2(shift)
        invariant Decode(old(data)) == DecodeFrom(data, result, shift, pos)
        decreases |data|
      {
        DecodeFromStep(data, result, shift, pos);
        ContinuedStep(data);
        var c := ReadByte();
        BytesReadAt(old(data), pos);
        if c == [] {
          return EndOfFile;
        }
        var b := c[0];
        GroupIsAdded(result, b, shift);
        result := OrGroup(result, b, shift);
        pos := pos + 1;
        if b < 128 {
          return Varint(Narrow(result), pos);
        }
        shift := shift + 7;
        if shift >= 64 {
          return TooLong;
        }
      }
    }

    /** Read one message; the payload stands for the message parsed from it. */
    method ReadMessage() returns (r: Message)
      modifies this
      ensures r == DecodeMessage(old(data))
      ensures r.Message? ==> data == r.rest
    {
      hide Decode, Continued;
      DecodeExact(data);
      var v := DecodeVarint32();
      if !v.Varint? || v.value == 0 {
        return NoMessage;
      }
      ghost var tail := data;
      var ok, payload := Read(v.value);
      if !ok {
        return Raised;
      }
      ReadIsTaken(tail, v.value, payload, data);
      r := Message(payload, data);
    }

    /** Read messages until none can be read, or a read raises an error. */
    method ReadAll() returns (messages: seq<Bytes>, raised: bool)
      modifies this
      ensures Reading(messages, raised) == DecodeAll(old(data))
    {
      hide DecodeMessage;
      messages := [];
      while true
        invariant DecodeAll(old(data)) == Behind(messages, DecodeAll(data))
        decreases |data|
      {
        var m := ReadMessage();
        if !m.Message? {
          return messages, m.Raised?;
        }
        messages := messages + [m.payload];
      }
    }
  }
}
