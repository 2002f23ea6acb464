/** What the predictor's context hash computes: every bit of the slot, as a parity of bits of the load
    address and of the spread strides, and that no bit of them is lost on the way. */
module MarkovHash {
  import opened Bits
  import opened MarkovLvp

  const MULTIPLIER: nat := 2654435761

  /** The inverse of the multiplier modulo 2^64. */
  const INVERSE: nat := 14962265741255716689

  /** Binary digit `i` of `n`, the lowest first. */
  ghost function Bit(n: nat, i: nat): nat {
    if i == 0 then n % 2 else Bit(n / 2, i - 1)
  }

  // ------------------------------------------------- digits

  lemma {:induction false} ZeroBit(i: nat)
    ensures Bit(0, i) == 0
  {
    if i == 0 {
    } else {
      ZeroBit(i - 1);
    }
  }

  lemma {:induction false} BitRange(n: nat, i: nat)
    ensures Bit(n, i) == 0 || Bit(n, i) == 1
  {
    if i == 0 {
    } else {
      BitRange(n / 2, i - 1);
    }
  }

  /** A number below 2^k has no digits from `k` on. */
  lemma {:induction false} HighBit(n: nat, k: nat, i: nat)
    requires n < Pow2(k) && i >= k
    ensures Bit(n, i) == 0
  {
    if k == 0 {
      ZeroBit(i);
    } else {
      HighBit(n / 2, k - 1, i - 1);
    }
  }

  /** The digits of a high part put above a low part of `k` digits. */
  lemma {:induction false} JoinBit(high: nat, low: nat, k: nat, i: nat)
    requires low < Pow2(k)
    ensures Bit(high * Pow2(k) + low, i) == if i < k then Bit(low, i) else Bit(high, i - k)
  {
    if k == 0 {
      assert high * Pow2(0) + low == high;
    } else {
      var p := high * Pow2(k - 1);
      assert high * Pow2(k) == 2 * p;
      assert (2 * p + low) / 2 == p + low / 2 && (2 * p + low) % 2 == low % 2;
      if i > 0 { JoinBit(high, low / 2, k - 1, i - 1); }
    }
  }

  /** Numbers of `k` digits are equal when their digits are. */
  lemma {:induction false} SameBits(a: nat, b: nat, k: nat)
    requires a < Pow2(k) && b < Pow2(k)
    requires forall i: nat | i < k :: Bit(a, i) == Bit(b, i)
    ensures a == b
  {
    if k == 0 {
    } else {
      assert Bit(a, 0) == Bit(b, 0);
      forall i: nat | i < k - 1 ensures Bit(a / 2, i) == Bit(b / 2, i) {
        assert Bit(a, i + 1) == Bit(b, i + 1);
      }
      SameBits(a / 2, b / 2, k - 1);
    }
  }

  /** Exclusive or adds digit by digit, modulo two. */
  lemma {:induction false} XorBit(a: nat, b: nat, i: nat)
    ensures Bit(Xor(a, b), i) == (Bit(a, i) + Bit(b, i)) % 2
  {
    hide Xor;
    XorStep(a, b);
    XorHalf(a, b);
    if i == 0 {
    } else {
      XorBit(a / 2, b / 2, i - 1);
    }
  }

  lemma {:induction false} XorHalf(a: nat, b: nat)
    ensures Xor(a, b) / 2 == Xor(a / 2, b / 2) && Xor(a, b) % 2 == (a % 2 + b % 2) % 2
  {
    hide Xor;
    XorStep(a, b);
  }

  lemma {:induction false} XorStep(a: nat, b: nat)
    ensures Xor(a, b) == 2 * Xor(a / 2, b / 2) + (a + b) % 2
  {}

  // ------------------------------------------------- the steps of the hash

  /** The digit of the input that ends up in digit `i` after a rotation by five. */
  ghost function Source(i: nat): (j: nat)
    ensures j < 64
  {
    (i + 59) % 64
  }

  lemma {:induction false} Pow2Small()
    ensures Pow2(5) == 32 && Pow2(59) == 0x800_0000_0000_0000 && Pow2(32) == TWO32 && Pow2(64) == TWO64
  {
    Pow2Of64();
    assert Pow2(64) == 32 * Pow2(59);
  }

  /** The rotation moves every digit five places up and the top five round to the bottom. */
  lemma {:induction false} RotateBit(h: Word, i: nat)
    requires i < 64
    ensures Bit(Rotate5(h), i) == Bit(h, Source(i))
  {
    hide Bit, Pow2;
    Pow2Small();
    var q, r := h / 0x800_0000_0000_0000, h % 0x800_0000_0000_0000;
    assert h * 32 == TWO64 * q + 32 * r;
    RemainderUnique(h * 32, TWO64, q, 32 * r);
    JoinBit(r, q, 5, i);
    JoinBit(q, r, 59, Source(i));
  }

  lemma {:induction false} SeedBit(pc: Addr, i: nat)
    ensures Bit(Seed(pc), i) == (Bit(pc, i) + Bit(pc, i + 32)) % 2
  {
    hide Bit, Pow2, Xor;
    Pow2Small();
    XorBit(pc, pc / TWO32, i);
    assert pc == pc / TWO32 * Pow2(32) + pc % TWO32;
    JoinBit(pc / TWO32, pc % TWO32, 32, i + 32);
  }

  /** A stride multiplied over the whole word. */
  ghost function Spread(stride: Word): Word {
    (stride * MULTIPLIER) % TWO64
  }

  lemma {:induction false} MixBit(h: Word, stride: Word, i: nat)
    requires i < 64
    ensures Bit(Mix(h, stride), i) == (Bit(h, Source(i)) + Bit(Spread(stride), Source(i))) % 2
  {
    hide Bit, Xor, Rotate5, Source;
    RotateBit(Xor64(h, Spread(stride)), i);
    XorBit(h, Spread(stride), Source(i));
  }

  // ------------------------------------------------- nothing is lost

  lemma {:induction false} SeedInjective(pc: Addr, other: Addr)
    requires Seed(pc) == Seed(other)
    ensures pc == other
  {
    hide Bit, Seed, Pow2;
    Pow2Small();
    forall i: nat | 32 <= i < 64 ensures Bit(pc, i) == Bit(other, i) {
      SeedHighBit(pc, i);
      SeedHighBit(other, i);
    }
    forall i: nat | i < 64 ensures Bit(pc, i) == Bit(other, i) {
      if i < 32 {
        assert Bit(pc, i + 32) == Bit(other, i + 32);
        SeedBit(pc, i);
        SeedBit(other, i);
        BitRange(pc, i);
        BitRange(other, i);
      }
    }
    SameBits(pc, other, 64);
  }

  lemma {:induction false} SeedHighBit(pc: Addr, i: nat)
    requires 32 <= i < 64
    ensures Bit(Seed(pc), i) == Bit(pc, i)
  {
    hide Bit, Seed, Pow2;
    Pow2Small();
    SeedBit(pc, i);
    HighBit(pc, 64, i + 32);
    BitRange(pc, i);
  }

  lemma {:induction false} RotateInjective(h: Word, h': Word)
    requires Rotate5(h) == Rotate5(h')
    ensures h == h'
  {
    hide Bit, Rotate5, Pow2;
    Pow2Small();
    forall j: nat | j < 64 ensures Bit(h, j) == Bit(h', j) {
      var i := (j + 5) % 64;
      assert Source(i) == j;
      RotateBit(h, i);
      RotateBit(h', i);
    }
    SameBits(h, h', 64);
  }

  lemma {:induction false} XorInjective(a: Word, a': Word, b: Word)
    requires Xor64(a, b) == Xor64(a', b)
    ensures a == a'
  {
    hide Bit, Xor, Pow2;
    Pow2Small();
    forall i: nat | i < 64 ensures Bit(a, i) == Bit(a', i) {
      XorBit(a, b, i);
      XorBit(a', b, i);
      BitRange(a, i);
      BitRange(a', i);
      BitRange(b, i);
    }
    SameBits(a, a', 64);
  }

  lemma {:induction false} XorSymmetric(a: nat, b: nat)
    ensures Xor(a, b) == Xor(b, a)
  {
    if a > 0 && b > 0 { XorSymmetric(a / 2, b / 2); }
  }

  lemma {:induction false} MixInjective(h: Word, h': Word, stride: Word)
    requires Mix(h, stride) == Mix(h', stride)
    ensures h == h'
  {
    hide Rotate5, Xor64;
    RotateInjective(Xor64(h, Spread(stride)), Xor64(h', Spread(stride)));
    XorInjective(h, h', Spread(stride));
  }

  /** The multiplier is odd, so spreading a stride can be undone. */
  lemma {:induction false} SpreadInverse(stride: Word)
    ensures (Spread(stride) * INVERSE) % TWO64 == stride
  {
    var q := stride * MULTIPLIER / TWO64;
    var w := 2153028908;
    assert MULTIPLIER * INVERSE == TWO64 * w + 1;
    assert Spread(stride) == stride * MULTIPLIER - TWO64 * q;
    assert Spread(stride) * INVERSE == TWO64 * (stride * w - q * INVERSE) + stride by {
      assert (stride * MULTIPLIER) * INVERSE == stride * (TWO64 * w + 1);
    }
    RemainderUnique(Spread(stride) * INVERSE, TWO64, stride * w - q * INVERSE, stride);
  }

  lemma {:induction false} MixStrideInjective(h: Word, stride: Word, stride': Word)
    requires Mix(h, stride) == Mix(h, stride')
    ensures stride == stride'
  {
    hide Rotate5, Xor, Spread;
    assert Rotate5(Xor64(h, Spread(stride))) == Rotate5(Xor64(h, Spread(stride'))) by {
      MixSpread(h, stride);
      MixSpread(h, stride');
    }
    RotateInjective(Xor64(h, Spread(stride)), Xor64(h, Spread(stride')));
    XorSymmetric(h, Spread(stride));
    XorSymmetric(h, Spread(stride'));
    XorInjective(Spread(stride), Spread(stride'), h);
    SpreadInverse(stride);
    SpreadInverse(stride');
  }

  lemma {:induction false} MixSpread(h: Word, stride: Word)
    ensures Mix(h, stride) == Rotate5(Xor64(h, Spread(stride)))
  {
    hide Rotate5, Xor64;
  }

  lemma {:induction false} MixAllInjective(h: Word, h': Word, ctx: seq<Word>)
    requires MixAll(h, ctx) == MixAll(h', ctx)
    ensures h == h'
    decreases |ctx|
  {
    hide Mix;
    if ctx == [] {
    } else {
      MixAllInjective(Mix(h, ctx[0]), Mix(h', ctx[0]), ctx[1..]);
      MixInjective(h, h', ctx[0]);
    }
  }

  /** Two loads with the same recent strides never have the same hash. */
  lemma {:induction false} HashKeepsAddress(pc: Addr, other: Addr, ctx: seq<Word>)
    requires SourceHash(pc, ctx) == SourceHash(other, ctx)
    ensures pc == other
  {
    hide Seed, MixAll;
    MixAllInjective(Seed(pc), Seed(other), ctx);
    SeedInjective(pc, other);
  }

  lemma {:induction false} MixAllSplit(h: Word, older: seq<Word>, ctx: seq<Word>)
    ensures MixAll(h, older + ctx) == MixAll(MixAll(h, older), ctx)
    decreases |older|
  {
    hide Mix;
    if older == [] {
      assert older + ctx == ctx;
    } else {
      MixAllSplit(Mix(h, older[0]), older[1..], ctx);
      assert (older + ctx)[1..] == older[1..] + ctx;
    }
  }

  /** Contexts that differ in one stride, wherever it stands, never have the same hash. */
  lemma {:induction false} HashKeepsStride(pc: Addr, newer: seq<Word>, s: Word, s': Word, older: seq<Word>)
    requires SourceHash(pc, newer + [s] + older) == SourceHash(pc, newer + [s'] + older)
    ensures s == s'
  {
    hide Seed, MixAll, Mix;
    var h := MixAll(Seed(pc), newer);
    MixAllSplit(Seed(pc), newer + [s], older);
    MixAllSplit(Seed(pc), newer + [s'], older);
    MixAllSnoc(Seed(pc), newer, s);
    MixAllSnoc(Seed(pc), newer, s');
    MixAllInjective(Mix(h, s), Mix(h, s'), older);
    MixStrideInjective(h, s, s');
  }

  // ------------------------------------------------- every bit of the slot

  /** Where digit `i` stood before `steps` rotations. */
  ghost function Before(i: nat, steps: nat): (j: nat)
    ensures j < 64
  {
    (i + 59 * steps) % 64
  }

  /** The digits that the `n` strides of a context, most recent first, put into digit `i`: stride `j`
      is rotated `|ctx| - j` times. */
  ghost function Gathered(ctx: seq<Word>, i: nat, n: nat): nat
    requires n <= |ctx|
  {
    if n == 0 then 0
    else Gathered(ctx, i, n - 1) + Bit(Spread(ctx[n - 1]), Before(i, |ctx| - n + 1))
  }

  lemma {:induction false} GatheredInit(ctx: seq<Word>, s: Word, i: nat, n: nat)
    requires n <= |ctx|
    ensures Gathered(ctx + [s], i, n) == Gathered(ctx, Source(i), n)
  {
    hide Bit, Spread;
    if n == 0 {
    } else {
      GatheredInit(ctx, s, i, n - 1);
      BeforeSource(i, |ctx| - n + 1);
    }
  }

  lemma {:induction false} BeforeSource(i: nat, steps: nat)
    ensures Before(Source(i), steps) == Before(i, steps + 1)
  {
    var n := (i + 59) % 64 + 59 * steps;
    assert i + 59 * (steps + 1) == 64 * ((i + 59) / 64 + n / 64) + n % 64;
    RemainderUnique(i + 59 * (steps + 1), 64, (i + 59) / 64 + n / 64, n % 64);
  }

  /** Digit `i` of the hash is the parity of two digits of the address and one of every spread stride. */
  lemma {:induction false} HashBit(pc: Addr, ctx: seq<Word>, i: nat)
    requires i < 64
    ensures var j := Before(i, |ctx|);
            Bit(SourceHash(pc, ctx), i) == (Bit(pc, j) + Bit(pc, j + 32) + Gathered(ctx, i, |ctx|)) % 2
  {
    hide Bit, Seed, MixAll, Mix, Spread, Source, Before;
    if ctx == [] {
      HashNothing(pc, i);
    } else {
      var newer, s := ctx[..|ctx| - 1], ctx[|ctx| - 1];
      assert ctx == newer + [s];
      HashBit(pc, newer, Source(i));
      MixAllSnoc(Seed(pc), newer, s);
      MixBit(SourceHash(pc, newer), s, i);
      GatheredInit(newer, s, i, |newer|);
      BeforeSource(i, |newer|);
      BeforeOnce(i);
    }
  }

  lemma {:induction false} HashNothing(pc: Addr, i: nat)
    requires i < 64
    ensures SourceHash(pc, []) == Seed(pc) && Before(i, 0) == i
    ensures Bit(Seed(pc), i) == (Bit(pc, i) + Bit(pc, i + 32)) % 2
  {
    hide Bit, Seed;
    SeedBit(pc, i);
  }

  lemma {:induction false} BeforeOnce(i: nat)
    ensures Before(i, 1) == Source(i)
  {}

  /** The slot is the low digits of the hash: as many as the table size has, and no others. */
  lemma {:induction false} SlotBit(cfg: Config, k: nat, pc: Addr, ctx: seq<Word>, i: nat)
    requires cfg.Valid() && cfg.hash == SourceHash && cfg.tableSize == Pow2(k) && i < k
    ensures var j := Before(i, |ctx|);
            && HashOf(cfg, pc, ctx) < Pow2(k) && k <= 32
            && Bit(HashOf(cfg, pc, ctx), i) == (Bit(pc, j) + Bit(pc, j + 32) + Gathered(ctx, i, |ctx|)) % 2
  {
    hide Bit, And, Pow2, SourceHash, Gathered, Before;
    var h := SourceHash(pc, ctx);
    Pow2Small();
    Pow2Positive(k);
    if k > 32 { Pow2Monotone(32, k); }
    AndMaskIsRemainder(h % TWO32, k);
    LowBit(h % TWO32, k, i);
    LowBit(h, 32, i);
    HashBit(pc, ctx, i);
  }

  lemma {:induction false} LowBit(n: nat, k: nat, i: nat)
    requires i < k
    ensures Pow2(k) >= 1 && Bit(n % Pow2(k), i) == Bit(n, i)
  {
    hide Bit, Pow2;
    Pow2Positive(k);
    var p := Pow2(k);
    assert n == n / p * p + n % p;
    JoinBit(n / p, n % p, k, i);
  }

  // ------------------------------------------------- one slot

  /** The default parameters: 4096 slots, one stride deep. */
  ghost function Default(): Config {
    Config(4096, 1, 1, 15, SourceHash)
  }

  /** The load at 0x401136 whose value has last fallen by eight uses slot 2527. */
  lemma {:induction false} OneSlotUsed()
    ensures Default().Valid()
    ensures HashOf(Default(), 0x401136, [TWO64 - 8]) == 2527
  {
    assert Default().tableSize == Pow2(12);
    hide Seed, Spread, Mix, And, Pow2;
    SeedOfOne();
    MixOfOne();
    var ctx: seq<Word> := [TWO64 - 8];
    assert MixAll(0x401136, ctx) == MixAll(Mix(0x401136, ctx[0]), ctx[1..]);
    AndMaskIsRemainder(0xffff_ff61_c084_69df % TWO32, 12);
  }

  lemma {:induction false} SeedOfOne()
    ensures Seed(0x401136) == 0x401136
  {
    XorSymmetric(0x401136, 0);
  }

  lemma {:induction false} MixOfOne()
    ensures Mix(0x401136, TWO64 - 8) == 0xffff_ff61_c084_69df
  {
    hide Xor;
    assert (TWO64 - 8) * MULTIPLIER % TWO64 == 0xffff_fffb_0e44_3278;
    XorOfOne();
  }

  /** One hexadecimal digit at a time. */
  lemma {:induction false} XorOfOne()
    ensures Xor(0x401136, 0xffff_fffb_0e44_3278) == 0xffff_fffb_0e04_234e
  {
    hide Xor;
    XorSmall();
    XorDigit(0x0, 0x4, 0xffff_fffb_0e, 0x4);
    XorDigit(0x4, 0x0, 0xffff_fffb_0e4, 0x4);
    XorDigit(0x40, 0x1, 0xffff_fffb_0e44, 0x3);
    XorDigit(0x401, 0x1, 0xffff_fffb_0e443, 0x2);
    XorDigit(0x4011, 0x3, 0xffff_fffb_0e4432, 0x7);
    XorDigit(0x40113, 0x6, 0xffff_fffb_0e44327, 0x8);
  }

  lemma {:induction false} XorSmall()
    ensures Xor(0, 0xffff_fffb_0e) == 0xffff_fffb_0e && Xor(0, 4) == 4 && Xor(4, 4) == 0
    ensures Xor(1, 3) == 2 && Xor(1, 2) == 3 && Xor(3, 7) == 4 && Xor(6, 8) == 0xe
  {}

  lemma {:induction false} XorDigit(a: nat, x: nat, b: nat, y: nat)
    requires x < 16 && y < 16
    ensures Xor(16 * a + x, 16 * b + y) == 16 * Xor(a, b) + Xor(x, y)
  {
    hide Xor;
    XorTwo(4 * a, x, 4 * b, y);
    XorTwo(a, x / 4, b, y / 4);
    XorTwo(0, x, 0, y);
    XorTwo(0, x / 4, 0, y / 4);
    XorNothing();
  }

  /** The two lowest digits apart. */
  lemma {:induction false} XorTwo(a: nat, x: nat, b: nat, y: nat)
    ensures Xor(4 * a + x, 4 * b + y) == 4 * Xor(a + x / 4, b + y / 4) + 2 * ((x / 2 + y / 2) % 2) + (x + y) % 2
  {
    hide Xor;
    XorStep(4 * a + x, 4 * b + y);
    XorStep(2 * a + x / 2, 2 * b + y / 2);
    Quarter(a, x);
    Quarter(b, y);
    EvenParts(2 * a + 2 * b, x + y);
    EvenParts(a + b, x / 2 + y / 2);
  }

  lemma {:induction false} Quarter(a: nat, x: nat)
    ensures (4 * a + x) / 2 == 2 * a + x / 2 && (2 * a + x / 2) / 2 == a + x / 4
  {}

  lemma {:induction false} EvenParts(a: nat, x: nat)
    ensures (2 * a + x) % 2 == x % 2
  {}

  lemma {:induction false} XorNothing()
    ensures Xor(0, 0) == 0
  {}
}
