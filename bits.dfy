/**
 * Integer bit manipulation shared by the FLEX decoder model.
 *
 * Every bit field the decoder touches is a non-negative integer here; the
 * C operators are written out: `x >> j` is `x / Pow2(j)`, `x & (2^k - 1)` is
 * `x % Pow2(k)`, and `^` is the recursive `Xor` below.  Dafny's `/` and `%`
 * are Euclidean, which for a positive power of two divisor is exactly the
 * two's-complement behaviour of `>>` and `&` in C, also for negative values.
 */
module Bits {

  /** The values a C `char` holding one received bit takes (0 or 1). */
  type Bit = b: int | 0 <= b <= 1

  function Pow2(n: nat): (r: nat)
    ensures r >= 1
  {
    if n == 0 then 1 else 2 * Pow2(n - 1)
  }

  lemma {:induction false} Pow2Strict(m: nat, n: nat)
    requires m < n
    ensures Pow2(m) < Pow2(n)
  {
    if m + 1 < n {
      Pow2Strict(m, n - 1);
    }
  }

  /** The powers of two the decoder's masks and shifts use. */
  lemma {:induction false} Pow2Values()
    ensures Pow2(4) == 16 && Pow2(7) == 128 && Pow2(8) == 256 && Pow2(10) == 1024
    ensures Pow2(14) == 16384 && Pow2(15) == 32768 && Pow2(16) == 65536
    ensures Pow2(20) == 0x100000 && Pow2(21) == 0x200000 && Pow2(22) == 0x400000
    ensures Pow2(31) == 0x8000_0000 && Pow2(32) == 0x1_0000_0000
  {
    assert Pow2(1) == 2;
    assert Pow2(2) == 4;
    assert Pow2(3) == 8;
    assert Pow2(4) == 16;
    assert Pow2(5) == 32;
    assert Pow2(6) == 64;
    assert Pow2(7) == 128;
    assert Pow2(8) == 256;
    assert Pow2(9) == 512;
    assert Pow2(10) == 1024;
    assert Pow2(11) == 2048;
    assert Pow2(12) == 4096;
    assert Pow2(13) == 8192;
    assert Pow2(14) == 16384;
    assert Pow2(15) == 32768;
    assert Pow2(16) == 65536;
    assert Pow2(17) == 131072;
    assert Pow2(18) == 262144;
    assert Pow2(19) == 524288;
    assert Pow2(20) == 1048576;
    assert Pow2(21) == 2097152;
    assert Pow2(22) == 4194304;
    assert Pow2(23) == 8388608;
    assert Pow2(24) == 16777216;
    assert Pow2(25) == 33554432;
    assert Pow2(26) == 67108864;
    assert Pow2(27) == 134217728;
    assert Pow2(28) == 268435456;
    assert Pow2(29) == 536870912;
    assert Pow2(30) == 1073741824;
    assert Pow2(31) == 2147483648;
    assert Pow2(32) == 4294967296;
  }

  /** Shifting right by j+1 is halving, then shifting by j. */
  lemma {:induction false} BitAtHalf(z: int, j: nat)
    requires j > 0
    ensures BitAt(z, j) == BitAt(z / 2, j - 1)
  {
    var p := Pow2(j - 1);
    var y, b := z / 2, z % 2;
    var q, r := y / p, y % p;
    assert z == 2 * y + b && y == p * q + r;
    assert z == (2 * p) * q + (2 * r + b);
    ModUnique(z, 2 * p, q, 2 * r + b);
  }

  /** Adding a multiple of 2^k leaves the bits below k alone. */
  lemma {:induction false} BitAtAddHigh(x: int, m: int, k: nat, j: nat)
    requires j < k
    ensures BitAt(x + Pow2(k) * m, j) == BitAt(x, j)
    decreases j
  {
    var z := x + Pow2(k) * m;
    assert Pow2(k) * m == 2 * (Pow2(k - 1) * m);
    if j > 0 {
      BitAtHalf(z, j);
      BitAtHalf(x, j);
      assert z / 2 == x / 2 + Pow2(k - 1) * m;
      BitAtAddHigh(x / 2, m, k - 1, j - 1);
    }
  }

  lemma {:induction false} Pow2Add(a: nat, b: nat)
    ensures Pow2(a + b) == Pow2(a) * Pow2(b)
    decreases a
  {
    if a > 0 {
      Pow2Add(a - 1, b);
    }
  }

  lemma {:induction false} MulStrict(x: nat, y: nat, p: nat)
    requires x < y && p > 0
    ensures x * p < y * p
  {
    assert y * p - x * p == (y - x) * p;
  }

  lemma {:induction false} DoubleScale(x: nat, n: nat, m: nat)
    requires n <= m
    ensures x * Pow2(m + 1 - n) == 2 * (x * Pow2(m - n))
  {
    assert Pow2(m + 1 - n) == 2 * Pow2(m - n);
  }

  lemma {:induction false} HalveAndSet(y: nat, m: nat, b: Bit)
    requires y < Pow2(m)
    ensures (if b == 0 then Xor(2 * y / 2, Pow2(m)) else 2 * y / 2) == y + (1 - b) * Pow2(m)
  {
    assert 2 * y / 2 == y;
    if b == 0 {
      XorHighBit(y, m);
    }
  }

  lemma {:induction false} Distribute(x: nat, q: nat, p: nat, b: Bit)
    ensures x * p + (1 - b) * (q * p) == (x + (1 - b) * q) * p
  {
  }

  /**
   * Shifting in one bit from the top: x held in the high n bits of an
   * (m+1)-bit register, shifted right once and with bit m set when b is 0,
   * becomes x + (1 - b) * 2^n held in the high n+1 bits of m bits.
   */
  lemma {:induction false} ShiftIn(x: nat, n: nat, m: nat, b: Bit)
    requires n <= m && x < Pow2(n)
    ensures var c := x * Pow2(m + 1 - n) / 2;
            (if b == 0 then Xor(c, Pow2(m)) else c) == (x + (1 - b) * Pow2(n)) * Pow2(m - n)
  {
    var p := Pow2(m - n);
    var q := Pow2(n);
    DoubleScale(x, n, m);
    Pow2Add(n, m - n);
    MulStrict(x, q, p);
    HalveAndSet(x * p, m, b);
    Distribute(x, q, p, b);
  }

  /** Bit j of x, as `(x >> j) & 1`. */
  function BitAt(x: int, j: nat): (b: Bit)
  {
    (x / Pow2(j)) % 2
  }

  /** Bitwise exclusive or of two naturals. */
  function Xor(a: nat, b: nat): nat
    decreases a + b
  {
    if a == 0 then b
    else if b == 0 then a
    else 2 * Xor(a / 2, b / 2) + (a + b) % 2
  }

  /** One step of Xor's recursion, for operands that are both non-zero. */
  lemma {:induction false} XorUnfold(a: nat, b: nat)
    requires a != 0 && b != 0
    ensures Xor(a, b) == 2 * Xor(a / 2, b / 2) + (a + b) % 2
  {
  }

  /** Exclusive or never leaves the k-bit range of its operands. */
  lemma {:induction false} XorBound(a: nat, b: nat, k: nat)
    requires a < Pow2(k) && b < Pow2(k)
    ensures Xor(a, b) < Pow2(k)
    decreases k
  {
    if a != 0 && b != 0 {
      XorBound(a / 2, b / 2, k - 1);
    }
  }

  /** Setting the low bit of an even number adds one. */
  lemma {:induction false} XorLowBit(a: nat)
    requires a % 2 == 0
    ensures Xor(a, 1) == a + 1
  {
    if a != 0 {
      assert Xor(a / 2, 0) == a / 2;
    }
  }

  /** Setting bit k of a number below 2^k adds 2^k. */
  lemma {:induction false} XorHighBit(x: nat, k: nat)
    requires x < Pow2(k)
    ensures Xor(x, Pow2(k)) == x + Pow2(k)
    decreases k
  {
    if x != 0 {
      var p, q := Pow2(k), Pow2(k - 1);
      assert p == 2 * q;
      XorHighBit(x / 2, k - 1);
      XorUnfold(x, p);
      assert p / 2 == q && (x + p) % 2 == x % 2;
    }
  }

  lemma {:induction false} XorZeroIff(a: nat, b: nat)
    ensures Xor(a, b) == 0 <==> a == b
    decreases a + b
  {
    if a != 0 && b != 0 {
      XorZeroIff(a / 2, b / 2);
    }
  }

  /** Two distinct single-bit masks combine without carries. */
  lemma {:induction false} XorDistinctPowers(n: nat, i: nat)
    requires n != i
    ensures Xor(Pow2(n), Pow2(i)) == Pow2(n) + Pow2(i)
  {
    if n < i {
      Pow2Strict(n, i);
      XorHighBit(Pow2(n), i);
    } else {
      Pow2Strict(i, n);
      XorHighBit(Pow2(i), n);
      XorComm(Pow2(i), Pow2(n));
    }
  }

  lemma {:induction false} PowerSumNotPower(lo: nat, hi: nat, m: nat)
    requires lo < hi
    ensures Pow2(lo) + Pow2(hi) != Pow2(m)
  {
    Pow2Strict(lo, hi);
    assert Pow2(hi + 1) == 2 * Pow2(hi);
    if m < hi {
      Pow2Strict(m, hi);
    } else if m > hi + 1 {
      Pow2Strict(hi + 1, m);
    }
  }

  /** A value with two distinct bits set is not a single-bit mask. */
  lemma {:induction false} TwoBitsNotPower(n: nat, i: nat, m: nat)
    requires n != i
    ensures Xor(Pow2(n), Pow2(i)) != Pow2(m)
  {
    XorDistinctPowers(n, i);
    if n < i {
      PowerSumNotPower(n, i, m);
    } else {
      PowerSumNotPower(i, n, m);
    }
  }

  /** Exclusive or of two 16-bit patterns is a 16-bit pattern. */
  lemma {:induction false} Xor16(a: nat, b: nat)
    requires a < 0x10000 && b < 0x10000
    ensures Xor(a, b) < 0x10000
  {
    Pow2Values();
    XorBound(a, b, 16);
  }

  lemma {:induction false} XorSelf(a: nat)
    ensures Xor(a, a) == 0
    decreases a
  {
    if a != 0 {
      XorSelf(a / 2);
    }
  }

  /** The parity of a sum depends only on the parities of its terms. */
  lemma {:induction false} ParityOfSum(a: nat, b: nat, a1: nat, a0: nat, b1: nat, b0: nat)
    requires a == 2 * a1 + a0 && b == 2 * b1 + b0 && a0 < 2 && b0 < 2
    ensures (a + b) % 2 == (a0 + b0) % 2
  {
    ModUnique(a + b, 2, a1 + b1 + (a0 + b0) / 2, (a0 + b0) % 2);
  }
  lemma {:induction false} ParityTwice(a0: int, b0: int)
    requires 0 <= a0 < 2 && 0 <= b0 < 2
    ensures (a0 + (a0 + b0) % 2) % 2 == b0
  {
  }

  /** Exclusive or with the same value twice is the identity. */
  lemma {:induction false} XorSelfInverse(a: nat, b: nat)
    ensures Xor(a, Xor(a, b)) == b
    decreases a + b
  {
    if a != 0 && b != 0 {
      XorSelfInverse(a / 2, b / 2);
      XorInverseStep(a, b);
    } else if a != 0 {
      XorSelf(a);
    }
  }

  /** The step of XorSelfInverse: from the identity on the halves to the identity on a and b. */
  lemma {:induction false} XorInverseStep(a: nat, b: nat)
    requires a != 0 && b != 0 && Xor(a / 2, Xor(a / 2, b / 2)) == b / 2
    ensures Xor(a, Xor(a, b)) == b
  {
    var x := Xor(a, b);
    var y := Xor(a / 2, b / 2);
    var a1, a0, b1, b0 := a / 2, a % 2, b / 2, b % 2;
    var p := (a0 + b0) % 2;
    ParityOfSum(a, b, a1, a0, b1, b0);
    assert x == 2 * y + p;
    if x == 0 {
      XorZeroIff(a1, b1);
    } else {
      ModUnique(x, 2, y, p);
      ParityOfSum(a, x, a1, a0, y, p);
      assert Xor(a, x) == 2 * Xor(a1, y) + (a0 + p) % 2;
      ParityTwice(a0, b0);
      assert Xor(a1, y) == b1 && (a0 + p) % 2 == b0;
      ModUnique(b, 2, b1, b0);
    }
  }

  lemma {:induction false} XorComm(a: nat, b: nat)
    ensures Xor(a, b) == Xor(b, a)
    decreases a + b
  {
    if a != 0 && b != 0 {
      XorComm(a / 2, b / 2);
    }
  }

  /** Exclusive or works bit by bit: its lowest bit is the parity of the operands', the rest is the Xor of their halves. */
  lemma {:induction false} XorHalves(a: nat, b: nat)
    ensures Xor(a, b) / 2 == Xor(a / 2, b / 2)
    ensures Xor(a, b) % 2 == (a + b) % 2
  {
    if a != 0 && b != 0 {
      var y := Xor(a / 2, b / 2);
      ParityOfSum(a, b, a / 2, a % 2, b / 2, b % 2);
      ModUnique(Xor(a, b), 2, y, (a % 2 + b % 2) % 2);
    } else if a == 0 {
      assert Xor(0, b / 2) == b / 2;
    } else {
      assert Xor(a / 2, 0) == a / 2;
    }
  }

  /** The lowest bit of an exclusive or is the parity of the operands' lowest bits. */
  lemma {:induction false} XorLow(x: nat, y: nat)
    ensures Xor(x, y) % 2 == (x % 2 + y % 2) % 2
  {
    XorHalves(x, y);
    ParityOfSum(x, y, x / 2, x % 2, y / 2, y % 2);
  }

  /** The lowest bit of (a ^ b) ^ c from the operands' lowest bits. */
  lemma {:induction false} XorLowLeft(a: nat, b: nat, c: nat)
    ensures Xor(Xor(a, b), c) % 2 == ((a % 2 + b % 2) % 2 + c % 2) % 2
  {
    XorLow(a, b);
    XorLow(Xor(a, b), c);
  }

  /** The lowest bit of a ^ (b ^ c) from the operands' lowest bits. */
  lemma {:induction false} XorLowRight(a: nat, b: nat, c: nat)
    ensures Xor(a, Xor(b, c)) % 2 == (a % 2 + (b % 2 + c % 2) % 2) % 2
  {
    XorLow(b, c);
    XorLow(a, Xor(b, c));
  }

  /** Both groupings of an exclusive or of three agree in the lowest bit. */
  lemma {:induction false} XorAssocLow(a: nat, b: nat, c: nat)
    ensures Xor(Xor(a, b), c) % 2 == Xor(a, Xor(b, c)) % 2
  {
    XorLowLeft(a, b, c);
    XorLowRight(a, b, c);
    ParityAssoc(a % 2, b % 2, c % 2);
  }

  lemma {:induction false} XorAssoc(a: nat, b: nat, c: nat)
    ensures Xor(Xor(a, b), c) == Xor(a, Xor(b, c))
    decreases a + b + c
  {
    if a + b + c != 0 {
      var ab, bc := Xor(a, b), Xor(b, c);
      var l, r := Xor(ab, c), Xor(a, bc);
      XorHalves(a, b);
      XorHalves(b, c);
      XorHalves(ab, c);
      XorHalves(a, bc);
      XorAssoc(a / 2, b / 2, c / 2);
      XorAssocLow(a, b, c);
      ModUnique(l, 2, r / 2, r % 2);
    }
  }

  /** Exclusive or with the same value twice, in either order of the operands, is the identity. */
  lemma {:induction false} XorCancel(x: nat, a: nat)
    ensures Xor(Xor(x, a), a) == x
  {
    XorAssoc(x, a, a);
    XorSelf(a);
  }

  /** Exclusive or with a and b, then with both again in either order, is the identity. */
  lemma {:induction false} XorCancelPair(x: nat, a: nat, b: nat)
    ensures Xor(Xor(Xor(Xor(x, a), b), a), b) == x
    ensures Xor(Xor(Xor(Xor(x, a), b), b), a) == x
  {
    XorSwap(Xor(x, a), b, a);
    XorCancel(x, a);
    XorCancel(x, b);
    XorCancel(Xor(x, a), b);
  }

  lemma {:induction false} XorSwap(x: nat, a: nat, b: nat)
    ensures Xor(Xor(x, a), b) == Xor(Xor(x, b), a)
  {
    XorAssoc(x, a, b);
    XorAssoc(x, b, a);
    XorComm(a, b);
  }

  /** Exclusive or with an even number leaves the lowest bit alone. */
  lemma {:induction false} XorDouble(x: nat, y: nat, b: nat)
    requires b < 2
    ensures Xor(2 * x + b, 2 * y) == 2 * Xor(x, y) + b
  {
    XorHalves(2 * x + b, 2 * y);
    assert (2 * x + b) / 2 == x && (2 * y) / 2 == y;
    assert (2 * x + b + 2 * y) % 2 == b;
    var r := Xor(2 * x + b, 2 * y);
    ModUnique(r, 2, r / 2, r % 2);
  }

  /** Exclusive or with 1 flips the lowest bit. */
  lemma {:induction false} XorOne(x: nat, b: nat)
    requires b < 2
    ensures Xor(2 * x + b, 1) == 2 * x + (1 - b)
  {
    XorHalves(2 * x + b, 1);
    var r := Xor(2 * x + b, 1);
    assert Xor(x, 0) == x;
    ModUnique(r, 2, r / 2, r % 2);
  }

  lemma {:induction false} ParityAssoc(a0: int, b0: int, c0: int)
    requires 0 <= a0 < 2 && 0 <= b0 < 2 && 0 <= c0 < 2
    ensures ((a0 + b0) % 2 + c0) % 2 == (a0 + (b0 + c0) % 2) % 2
  {
  }

  /** Exclusive or with an all-ones mask is the complement within that width. */
  lemma {:induction false} XorAllOnes(x: nat, k: nat)
    requires x < Pow2(k)
    ensures Xor(x, Pow2(k) - 1) == Pow2(k) - 1 - x
    decreases k
  {
    if k > 0 && x != 0 {
      var m, h := Pow2(k) - 1, Pow2(k - 1);
      assert m == 2 * (h - 1) + 1;
      assert m / 2 == h - 1 && (x + m) % 2 == 1 - x % 2;
      XorAllOnes(x / 2, k - 1);
      XorUnfold(x, m);
      assert Xor(x / 2, m / 2) == h - 1 - x / 2;
      assert Xor(x, m) == 2 * (h - 1 - x / 2) + 1 - x % 2;
    } else {
      assert x == 0 by {
        if k == 0 { assert Pow2(0) == 1; }
      }
    }
  }

  /** The number of ones among the n lowest bits of x (two's complement for x < 0). */
  function PopCount(x: int, n: nat): (r: nat)
    ensures r <= n
    decreases n
  {
    if n == 0 then 0 else x % 2 + PopCount(x / 2, n - 1)
  }

  lemma {:induction false} MulAtLeast(d: int, a: int)
    requires d > 0 && a >= 1
    ensures d * a >= d
  {
  }

  lemma {:induction false} ModUnique(x: int, d: int, q: int, m: int)
    requires d > 0 && 0 <= m < d && x == d * q + m
    ensures x % d == m && x / d == q
  {
    var q', m' := x / d, x % d;
    assert x == d * q' + m';
    assert d * (q - q') == m' - m;
    if q > q' {
      MulAtLeast(d, q - q');
    } else if q < q' {
      MulAtLeast(d, q' - q);
    }
  }

  /** Peeling the lowest bit off a remainder by a power of two. */
  lemma {:induction false} ModPow2Split(x: int, n: nat)
    requires n > 0
    ensures x % Pow2(n) == 2 * ((x / 2) % Pow2(n - 1)) + x % 2
  {
    var p := Pow2(n - 1);
    var q, r := x / 2, x % 2;
    assert x == 2 * q + r;
    assert q == p * (q / p) + q % p;
    assert x == (2 * p) * (q / p) + (2 * (q % p) + r);
    ModUnique(x, 2 * p, q / p, 2 * (q % p) + r);
  }

  /** The low n bits are all clear exactly when no one is counted. */
  lemma {:induction false} PopCountZero(x: int, n: nat)
    ensures PopCount(x, n) == 0 <==> x % Pow2(n) == 0
    decreases n
  {
    if n > 0 {
      PopCountZero(x / 2, n - 1);
      ModPow2Split(x, n);
    }
  }

  /** The low n bits are all set exactly when n ones are counted. */
  lemma {:induction false} PopCountFull(x: int, n: nat)
    ensures PopCount(x, n) == n <==> x % Pow2(n) == Pow2(n) - 1
    decreases n
  {
    if n > 0 {
      PopCountFull(x / 2, n - 1);
      ModPow2Split(x, n);
      assert (x / 2) % Pow2(n - 1) < Pow2(n - 1);
    }
  }
}
