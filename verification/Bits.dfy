/** Machine words and bytes, powers of two and bitwise operations on unbounded naturals. */
module Bits {

  const TWO32: nat := 0x1_0000_0000
  const TWO64: nat := 0x1_0000_0000_0000_0000

  /** A 64-bit unsigned machine word. */
  type Word = n: nat | n < TWO64

  type Byte = n: nat | n < 256
  type Bytes = seq<Byte>

  function Smaller(a: nat, b: nat): nat {
    if a < b then a else b
  }

  function Pow2(k: nat): nat {
    if k == 0 then 1 else 2 * Pow2(k - 1)
  }

  ghost predicate IsPow2(n: nat) {
    exists k: nat :: n == Pow2(k)
  }

  /** Bitwise `and`, one binary digit at a time. */
  function And(a: nat, b: nat): nat {
    if a == 0 || b == 0 then 0
    else 2 * And(a / 2, b / 2) + (if a % 2 == 1 && b % 2 == 1 then 1 else 0)
  }

  /** Bitwise exclusive `or`, one binary digit at a time. */
  function Xor(a: nat, b: nat): nat {
    if a == 0 then b
    else if b == 0 then a
    else 2 * Xor(a / 2, b / 2) + (a + b) % 2
  }

  lemma {:induction false} XorBound(a: nat, b: nat, k: nat)
    requires a < Pow2(k) && b < Pow2(k)
    ensures Xor(a, b) < Pow2(k)
  {
    if a > 0 && b > 0 {
      XorBound(a / 2, b / 2, k - 1);
    }
  }

  lemma {:induction false} Pow2Positive(k: nat)
    ensures Pow2(k) >= 1
  {
    if k == 0 {
    } else {
      Pow2Positive(k - 1);
    }
  }

  lemma {:induction false} Pow2Of64()
    ensures Pow2(32) == TWO32 && Pow2(64) == TWO64
  {
    assert Pow2(8) == 256;
    assert Pow2(16) == 65536;
    assert Pow2(24) == 0x100_0000;
    assert Pow2(32) == TWO32;
    assert Pow2(40) == 0x100 * TWO32;
    assert Pow2(48) == 0x1_0000 * TWO32;
    assert Pow2(56) == 0x100_0000 * TWO32;
  }

  lemma {:induction false} Pow2Monotone(i: nat, j: nat)
    requires i < j
    ensures 2 * Pow2(i) <= Pow2(j)
  {
    if i + 1 < j {
      Pow2Monotone(i, j - 1);
      Pow2Positive(j - 1);
    }
  }

  function Remainder(n: nat, m: nat): nat
    requires m >= 1
  {
    n % m
  }

  lemma {:induction false} AndMask(n: nat, k: nat)
    ensures Pow2(k) >= 1
    ensures And(n, Pow2(k) - 1) == Remainder(n, Pow2(k))
  {
    hide And, Pow2, Remainder;
    Pow2Positive(k);
    if k == 0 {
      AndNothing(n);
    } else {
      AndMask(n / 2, k - 1);
      AndMaskStep(n, k);
    }
  }

  lemma {:induction false} AndNothing(n: nat)
    ensures Pow2(0) == 1 && And(n, 0) == Remainder(n, 1)
  {}

  lemma {:induction false} AndMaskStep(n: nat, k: nat)
    requires k >= 1 && Pow2(k - 1) >= 1 && And(n / 2, Pow2(k - 1) - 1) == Remainder(n / 2, Pow2(k - 1))
    ensures Pow2(k) >= 1 && And(n, Pow2(k) - 1) == Remainder(n, Pow2(k))
  {
    var m := Pow2(k - 1);
    assert Pow2(k) == 2 * m;
    hide And, Pow2, Remainder;
    AndOddMask(n, m);
    HalvingRemainder(n, m);
  }

  /** Masking with 2^k - 1 keeps the low k bits: it is the remainder modulo 2^k. */
  lemma {:induction false} AndMaskIsRemainder(n: nat, k: nat)
    ensures Pow2(k) >= 1
    ensures And(n, Pow2(k) - 1) == n % Pow2(k)
  {
    hide And, Pow2;
    AndMask(n, k);
  }

  lemma {:induction false} AndOddMask(n: nat, m: nat)
    requires m >= 1
    ensures And(n, 2 * m - 1) == 2 * And(n / 2, m - 1) + n % 2
  {
    assert (2 * m - 1) / 2 == m - 1 && (2 * m - 1) % 2 == 1;
  }

  lemma {:induction false} HalvingRemainder(n: nat, m: nat)
    requires m >= 1
    ensures Remainder(n, 2 * m) == 2 * Remainder(n / 2, m) + n % 2
  {
    var q, r := (n / 2) / m, (n / 2) % m;
    assert n / 2 == q * m + r;
    assert n == (2 * m) * q + (2 * r + n % 2) by {
      assert n == 2 * (n / 2) + n % 2;
      assert 2 * (q * m) == (2 * m) * q;
    }
    RemainderUnique(n, 2 * m, q, 2 * r + n % 2);
  }

  /** Euclidean division has only one answer. */
  lemma {:induction false} RemainderUnique(n: int, m: nat, q: int, r: nat)
    requires m >= 1 && r < m && n == m * q + r
    ensures n / m == q && n % m == r
  {
    QuotientUnique(m, n / m, n % m, q, r);
  }

  lemma {:induction false} QuotientUnique(m: nat, q: int, r: nat, q': int, r': nat)
    requires r < m && r' < m && m * q + r == m * q' + r'
    ensures q == q' && r == r'
  {
    var d := q - q';
    assert m * d == r' - r by { assert m * d == m * q - m * q'; }
    MulMagnitude(m, d);
  }

  lemma {:induction false} MulMagnitude(m: nat, d: int)
    ensures d >= 1 ==> m * d >= m
    ensures d <= -1 ==> m * d <= -(m as int)
  {}

  /** The `n & (n - 1)` test accepts exactly the powers of two. */
  lemma {:induction false} AndPredIsPow2Test(n: nat)
    requires n >= 1
    ensures And(n, n - 1) == 0 <==> IsPow2(n)
  {
    if n == 1 {
      assert n == Pow2(0);
    } else if n % 2 == 1 {
      assert (n - 1) / 2 == n / 2;
      AndSelf(n / 2);
      forall k: nat ensures n != Pow2(k) {}
    } else {
      AndPredIsPow2Test(n / 2);
      assert (n - 1) / 2 == n / 2 - 1;
      assert And(n, n - 1) == 2 * And(n / 2, n / 2 - 1);
      if IsPow2(n / 2) {
        var k: nat :| n / 2 == Pow2(k);
        assert n == Pow2(k + 1);
      }
      if IsPow2(n) {
        var k: nat :| n == Pow2(k);
        assert k > 0;
        assert n / 2 == Pow2(k - 1);
      }
    }
  }

  lemma {:induction false} AndSelf(n: nat)
    ensures And(n, n) == n
  {
    if n == 0 {
    } else {
      AndSelf(n / 2);
    }
  }

  /** Bitwise `or`, one binary digit at a time. */
  function Or(a: nat, b: nat): nat {
    if a == 0 && b == 0 then 0
    else 2 * Or(a / 2, b / 2) + if a % 2 == 1 || b % 2 == 1 then 1 else 0
  }

  lemma {:induction false} OrZero(b: nat)
    ensures Or(0, b) == b
  {
    if b != 0 { OrZero(b / 2); }
  }

  /** Or-ing in bits above all those of `a` adds them. */
  lemma {:induction false} OrAbove(a: nat, b: nat, k: nat)
    requires a < Pow2(k)
    ensures Or(a, b * Pow2(k)) == a + b * Pow2(k)
  {
    if k == 0 {
      OrZero(b);
    } else {
      var p := Pow2(k - 1);
      assert b * Pow2(k) == 2 * (b * p);
      OrAbove(a / 2, b, k - 1);
    }
  }
}
