/**
 * What the correction table built by setupecc (flex.c:224-286) lets ecd
 * (flex.c:162-222) do to a codeword hit by errors.
 *
 * The table facts rest on the distances between the 31 columns of the
 * code's parity-check matrix: the 21 syndrome constants ecs[0..20] and the
 * ten check-bit weights 1 << i. Those are concrete ten-bit values, so they
 * are stated on `bv10`, where the verifier settles them by itself, and
 * carried over to the naturals of the model by `ToBv`, which maps `Xor`
 * to `^`.
 */
module BchCode {
  import opened Bits
  import opened Ecc

  // ---------------------------------------------------------------------
  // Ten-bit vectors
  // ---------------------------------------------------------------------

  function BitBv(b: nat): bv10
  {
    if b % 2 == 1 then 1 else 0
  }

  /** The low ten bits of x as a bit-vector. */
  function ToBv(x: nat): bv10
    decreases x
  {
    if x == 0 then 0 else (ToBv(x / 2) << 1) | BitBv(x)
  }

  lemma {:induction false} ToBvStep(x: nat)
    ensures ToBv(x) == (ToBv(x / 2) << 1) | BitBv(x)
  {
  }

  lemma ShiftXor(a: bv10, b: bv10, p: nat, q: nat)
    ensures ((a ^ b) << 1) | BitBv(p + q) == ((a << 1) | BitBv(p)) ^ ((b << 1) | BitBv(q))
  {
    if p % 2 == 1 && q % 2 == 1 {
      assert (p + q) % 2 == 0;
    } else if p % 2 == 1 || q % 2 == 1 {
      assert (p + q) % 2 == 1;
    } else {
      assert (p + q) % 2 == 0;
    }
  }

  /** ToBv turns the exclusive or of naturals into that of bit-vectors. */
  lemma {:induction false} ToBvXor(a: nat, b: nat)
    ensures ToBv(Xor(a, b)) == ToBv(a) ^ ToBv(b)
    decreases a + b
  {
    if a != 0 && b != 0 {
      var x := Xor(a / 2, b / 2);
      ToBvXor(a / 2, b / 2);
      XorUnfold(a, b);
      var y := 2 * x + (a + b) % 2;
      assert y / 2 == x && y % 2 == (a + b) % 2;
      ToBvStep(y);
      ToBvStep(a);
      ToBvStep(b);
      ShiftXor(ToBv(a / 2), ToBv(b / 2), a, b);
    }
  }

  /** The mask of the k lowest bits. */
  function Low(k: nat): bv10
  {
    if k == 0 then 0 else (Low(k - 1) << 1) | 1
  }

  lemma {:induction false} ToBvBelow(y: nat, k: nat)
    requires y < Pow2(k)
    ensures ToBv(y) & Low(k) == ToBv(y)
  {
    if k != 0 {
      ToBvBelow(y / 2, k - 1);
      ToBvStep(y);
      var x, l, b := ToBv(y / 2), Low(k - 1), BitBv(y);
      assert ((x << 1) | b) & ((l << 1) | 1) == (x << 1) | b;
    }
  }

  lemma {:induction false} ToBvHalf(s: nat)
    requires s < 1024
    ensures ToBv(s / 2) == ToBv(s) >> 1
    ensures (ToBv(s) & 1 == 1) == (s % 2 == 1)
  {
    Pow2Values();
    ToBvBelow(s / 2, 9);
    assert Low(9) == 511;
    ToBvStep(s);
    var x, b := ToBv(s / 2), BitBv(s);
    assert x & 511 == x ==> ((x << 1) | b) >> 1 == x && (((x << 1) | b) & 1 == 1) == (b == 1);
  }

  // ---------------------------------------------------------------------
  // The columns of the parity-check matrix
  // ---------------------------------------------------------------------

  /** One step of setupecc's shift register on a bit-vector. */
  function FeedbackBv(v: bv10): bv10
  {
    if v & 1 == 1 then (v >> 1) ^ 0x3b4 else v >> 1
  }

  lemma {:induction false} ToBvGenerator()
    ensures ToBv(GENERATOR) == 0x3b4
  {
    ToBvStep(948); ToBvStep(474); ToBvStep(237); ToBvStep(118); ToBvStep(59);
    ToBvStep(29); ToBvStep(14); ToBvStep(7); ToBvStep(3); ToBvStep(1);
  }

  lemma {:induction false} ToBvFeedback(s: nat)
    requires s < 1024
    ensures ToBv(Feedback(s)) == FeedbackBv(ToBv(s))
  {
    ToBvHalf(s);
    if s % 2 != 0 {
      ToBvXor(s / 2, GENERATOR);
      ToBvGenerator();
    }
  }

  /** The syndrome of an error in data bit n: ecs[n] as a bit-vector. */
  function Column(n: int): bv10
  {
    if n == 0 then 0x3b4 else if n == 1 then 0x1da else if n == 2 then 0x0ed
    else if n == 3 then 0x3c2 else if n == 4 then 0x1e1 else if n == 5 then 0x344
    else if n == 6 then 0x1a2 else if n == 7 then 0x0d1 else if n == 8 then 0x3dc
    else if n == 9 then 0x1ee else if n == 10 then 0x0f7 else if n == 11 then 0x3cf
    else if n == 12 then 0x253 else if n == 13 then 0x29d else if n == 14 then 0x2fa
    else if n == 15 then 0x17d else if n == 16 then 0x30a else if n == 17 then 0x185
    else if n == 18 then 0x376 else if n == 19 then 0x1bb else 0x369
  }

  /** v is the syndrome of an error in one of the data bits. */
  predicate IsColumn(v: bv10)
  {
    v == 0x3b4 || v == 0x1da || v == 0x0ed || v == 0x3c2 || v == 0x1e1 || v == 0x344 || v == 0x1a2
    || v == 0x0d1 || v == 0x3dc || v == 0x1ee || v == 0x0f7 || v == 0x3cf || v == 0x253 || v == 0x29d
    || v == 0x2fa || v == 0x17d || v == 0x30a || v == 0x185 || v == 0x376 || v == 0x1bb || v == 0x369
  }

  /** p is the syndrome of an error in one of the check bits. */
  predicate IsBit(p: bv10)
  {
    p != 0 && p & (p - 1) == 0
  }

  lemma ColumnStep(n: int)
    requires 1 <= n < 21
    ensures FeedbackBv(Column(n - 1)) == Column(n)
  {
  }

  lemma {:induction false} ToBvLfsr(n: nat)
    requires n < 21
    ensures ToBv(Lfsr(n)) == Column(n)
  {
    if n == 0 {
      ToBvGenerator();
    } else {
      ToBvLfsr(n - 1);
      ToBvFeedback(Lfsr(n - 1));
      ColumnStep(n);
    }
  }

  lemma ColumnsDistinct(a: int, b: int)
    requires 0 <= a < 21 && 0 <= b < 21
    ensures IsColumn(Column(a))
    ensures Column(a) == Column(b) <==> a == b
  {
  }

  lemma ShiftBit(p: bv10)
    requires IsBit(p) && p & 511 == p
    ensures IsBit((p << 1) | BitBv(0))
  {
  }

  lemma {:induction false} ToBvPow2(i: nat)
    requires i < 10
    ensures IsBit(ToBv(Pow2(i)))
  {
    if i == 0 {
      ToBvStep(1);
      assert ToBv(0) == 0;
    } else {
      ToBvPow2(i - 1);
      var x := Pow2(i - 1);
      assert Pow2(i) == 2 * x;
      assert Pow2(i) / 2 == x && Pow2(i) % 2 == 0;
      Pow2Values();
      Pow2Strict(i - 1, 9);
      ToBvBelow(x, 9);
      assert Low(9) == 511;
      ToBvStep(Pow2(i));
      ShiftBit(ToBv(x));
    }
  }

  // ---------------------------------------------------------------------
  // The code's distance: no two patterns of at most two errors share a
  // syndrome unless they are the same pattern
  // ---------------------------------------------------------------------

  /** A data column differs from every pattern of one or two other errors. */
  lemma OneColumnKey(u: bv10, v: bv10, p: bv10, q: bv10)
    requires IsColumn(u) && IsColumn(v) && IsBit(p) && IsBit(q)
    ensures u != 0 && u != p && u != p ^ q && u != v ^ p
  {
  }

  /** A data column plus a check bit differs from every other pattern of at most two errors. */
  lemma ColumnBitKey(u: bv10, v: bv10, p: bv10, q: bv10, r: bv10)
    requires IsColumn(u) && IsColumn(v) && IsBit(p) && IsBit(q) && IsBit(r)
    ensures u ^ p == v ^ q ==> u == v && p == q
    ensures u ^ p != q && u ^ p != q ^ r
  {
  }

  /** Two distinct data columns differ from every other pattern of at most two errors. */
  lemma TwoColumnKey(u: bv10, v: bv10, a: bv10, b: bv10, p: bv10, q: bv10)
    requires u != v && IsColumn(u) && IsColumn(v) && IsColumn(a) && IsColumn(b)
    requires IsBit(p) && IsBit(q)
    ensures a ^ b == u ^ v ==> (a == u && b == v) || (a == v && b == u)
    ensures u ^ v != a && u ^ v != a ^ p && u ^ v != p && u ^ v != p ^ q
  {
  }

  // ---------------------------------------------------------------------
  // The table entries at the syndromes of one and two errors
  // ---------------------------------------------------------------------

  /** The syndrome constants setupecc's first loop leaves in ecs[0..20]. */
  predicate Generated(ecs: seq<nat>)
  {
    EcsOk(ecs) && forall i :: 0 <= i < 21 ==> ecs[i] == Lfsr(i)
  }

  lemma {:induction false} EcsBits(ecs: seq<nat>, n: nat)
    requires Generated(ecs) && n < 21
    ensures ToBv(ecs[n]) == Column(n) && IsColumn(ToBv(ecs[n])) && ecs[n] != 0
  {
    ToBvLfsr(n);
    ColumnsDistinct(n, n);
  }

  /** The 21 syndrome constants are pairwise distinct, also as bit-vectors. */
  lemma {:induction false} EcsDistinct(ecs: seq<nat>, a: nat, b: nat)
    requires Generated(ecs) && a < 21 && b < 21
    ensures ecs[a] == ecs[b] <==> a == b
    ensures ToBv(ecs[a]) == ToBv(ecs[b]) <==> a == b
  {
    EcsBits(ecs, a);
    EcsBits(ecs, b);
    ColumnsDistinct(a, b);
  }

  /** Where in TableWrites each of setupecc's five loops writes. */
  lemma {:induction false} TableWriteAt(ecs: seq<nat>, t: nat)
    requires EcsOk(ecs) && t < 782
    ensures |TableWrites(ecs)| == 782
    ensures t < 441 ==> TableWrites(ecs)[t] == TwoDataWrites(ecs)[t]
    ensures 441 <= t < 462 ==> TableWrites(ecs)[t] == OneDataWrites(ecs)[t - 441]
    ensures 462 <= t < 672 ==> TableWrites(ecs)[t] == DataCheckWrites(ecs)[t - 462]
    ensures 672 <= t < 682 ==> TableWrites(ecs)[t] == OneCheckWrites()[t - 672]
    ensures 682 <= t ==> TableWrites(ecs)[t] == TwoCheckWrites()[t - 682]
  {
  }

  /** A data column with one check bit added is not a data column. */
  lemma {:induction false} DataCheckNotColumn(ecs: seq<nat>, n: nat, a: nat, i: nat)
    requires Generated(ecs) && n < 21 && a < 21 && i < 10
    ensures Xor(ecs[a], Pow2(i)) != ecs[n]
  {
    EcsBits(ecs, n);
    EcsBits(ecs, a);
    ToBvPow2(i);
    ToBvXor(ecs[a], Pow2(i));
    OneColumnKey(ToBv(ecs[n]), ToBv(ecs[a]), ToBv(Pow2(i)), ToBv(Pow2(i)));
  }

  /** The keys of the data-and-check loop are not single data columns. */
  lemma {:induction false} DataCheckKeyNotColumn(ecs: seq<nat>, n: nat, t: nat)
    requires Generated(ecs) && n < 21 && t < 210
    ensures DataCheckWrites(ecs)[t].key != ecs[n]
  {
    assert DataCheckWrites(ecs)[t].key == Xor(ecs[t / 10], Pow2(t % 10));
    DataCheckNotColumn(ecs, n, t / 10, t % 10);
  }

  /** A single check bit is not a data column. */
  lemma {:induction false} OneCheckNotColumn(ecs: seq<nat>, n: nat, i: nat)
    requires Generated(ecs) && n < 21 && i < 10
    ensures Pow2(i) != ecs[n]
  {
    EcsBits(ecs, n);
    var u := ToBv(ecs[n]);
    ToBvPow2(i);
    OneColumnKey(u, u, ToBv(Pow2(i)), ToBv(Pow2(i)));
  }

  /** Two check bits together are not a data column. */
  lemma {:induction false} TwoCheckNotColumn(ecs: seq<nat>, n: nat, i: nat, j: nat)
    requires Generated(ecs) && n < 21 && i < 10 && j < 10
    ensures Xor(Pow2(i), Pow2(j)) != ecs[n]
  {
    EcsBits(ecs, n);
    var u := ToBv(ecs[n]);
    ToBvPow2(i);
    ToBvPow2(j);
    ToBvXor(Pow2(i), Pow2(j));
    OneColumnKey(u, u, ToBv(Pow2(i)), ToBv(Pow2(j)));
  }

  /** The keys of the two check-bit loops are not single data columns. */
  lemma {:induction false} CheckKeysNotColumn(ecs: seq<nat>, n: nat, t: nat)
    requires Generated(ecs) && n < 21 && t < 110
    ensures (OneCheckWrites() + TwoCheckWrites())[t].Write? ==>
              (OneCheckWrites() + TwoCheckWrites())[t].key != ecs[n]
  {
    if t < 10 {
      assert (OneCheckWrites() + TwoCheckWrites())[t] == Write(Pow2(t), 0x13ff);
      OneCheckNotColumn(ecs, n, t);
    } else {
      var i, j := (t - 10) / 10, (t - 10) % 10;
      assert (OneCheckWrites() + TwoCheckWrites())[t] == TwoCheckWrites()[t - 10];
      TwoCheckNotColumn(ecs, n, i, j);
    }
  }

  /** No write after setupecc's one-data-error write for bit n has the key ecs[n]. */
  lemma {:induction false} OneDataKeyLast(ecs: seq<nat>, n: nat, t: nat)
    requires Generated(ecs) && n < 21 && 441 + n < t < 782
    ensures TableWrites(ecs)[t].Write? ==> TableWrites(ecs)[t].key != ecs[n]
  {
    TableWriteAt(ecs, t);
    if t < 462 {
      EcsDistinct(ecs, t - 441, n);
    } else if t < 672 {
      DataCheckKeyNotColumn(ecs, n, t - 462);
    } else {
      CheckKeysNotColumn(ecs, n, t - 672);
    }
  }

  /** An error in data bit n: one-data-error entry "count 1, flip bit n" (flex.c:255-259). */
  lemma {:induction false} BchTableOneData(ecs: seq<nat>, n: nat)
    requires Generated(ecs) && n < 21
    ensures BchTable(ecs)[ecs[n]] == n + NO_BIT * 32 + 0x1000
  {
    var ws := TableWrites(ecs);
    TableWritesKeys(ecs);
    TableWriteAt(ecs, 441 + n);
    forall t | 441 + n < t < |ws| ensures ws[t].Write? ==> ws[t].key != ecs[n] {
      OneDataKeyLast(ecs, n, t);
    }
    ApplyLast(seq(1024, _ => 0), ws, ecs[n], n + NO_BIT * 32 + 0x1000, 441 + n);
  }

  /** A later write of the data-and-check loop has a different key. */
  lemma {:induction false} DataCheckLaterKey(ecs: seq<nat>, n: nat, i: nat, a: nat, b: nat)
    requires Generated(ecs) && n < 21 && i < 10 && a < 21 && b < 10 && n * 10 + i < a * 10 + b
    ensures Xor(ecs[a], Pow2(b)) != Xor(ecs[n], Pow2(i))
  {
    EcsBits(ecs, n);
    EcsBits(ecs, a);
    ToBvPow2(i);
    ToBvPow2(b);
    ToBvXor(ecs[n], Pow2(i));
    ToBvXor(ecs[a], Pow2(b));
    ColumnBitKey(ToBv(ecs[n]), ToBv(ecs[a]), ToBv(Pow2(i)), ToBv(Pow2(b)), ToBv(Pow2(i)));
    ColumnsDistinct(a, n);
    XorSelfInverse(ecs[a], Pow2(b));
    XorSelfInverse(ecs[n], Pow2(i));
    if a == n {
      Pow2Strict(i, b);
    }
  }

  /** A single check bit is not a data column with a check bit added. */
  lemma {:induction false} OneCheckNotDataCheck(ecs: seq<nat>, n: nat, i: nat, c: nat)
    requires Generated(ecs) && n < 21 && i < 10 && c < 10
    ensures Pow2(c) != Xor(ecs[n], Pow2(i))
  {
    EcsBits(ecs, n);
    ToBvPow2(i);
    ToBvPow2(c);
    ToBvXor(ecs[n], Pow2(i));
    ColumnBitKey(ToBv(ecs[n]), ToBv(ecs[n]), ToBv(Pow2(i)), ToBv(Pow2(c)), ToBv(Pow2(i)));
  }

  /** Two check bits together are not a data column with a check bit added. */
  lemma {:induction false} TwoCheckNotDataCheck(ecs: seq<nat>, n: nat, i: nat, a: nat, b: nat)
    requires Generated(ecs) && n < 21 && i < 10 && a < 10 && b < 10
    ensures Xor(Pow2(a), Pow2(b)) != Xor(ecs[n], Pow2(i))
  {
    EcsBits(ecs, n);
    ToBvPow2(i);
    ToBvPow2(a);
    ToBvPow2(b);
    ToBvXor(ecs[n], Pow2(i));
    ToBvXor(Pow2(a), Pow2(b));
    ColumnBitKey(ToBv(ecs[n]), ToBv(ecs[n]), ToBv(Pow2(i)), ToBv(Pow2(a)), ToBv(Pow2(b)));
  }

  /** No write after setupecc's data-and-check write for (n, i) has the key ecs[n] ^ (1 << i). */
  lemma {:induction false} DataCheckKeyLast(ecs: seq<nat>, n: nat, i: nat, t: nat)
    requires Generated(ecs) && n < 21 && i < 10 && 462 + n * 10 + i < t < 782
    ensures TableWrites(ecs)[t].Write? ==> TableWrites(ecs)[t].key != Xor(ecs[n], Pow2(i))
  {
    TableWriteAt(ecs, t);
    if t < 672 {
      var a, b := (t - 462) / 10, (t - 462) % 10;
      assert DataCheckWrites(ecs)[t - 462].key == Xor(ecs[a], Pow2(b));
      DataCheckLaterKey(ecs, n, i, a, b);
    } else if t < 682 {
      assert OneCheckWrites()[t - 672].key == Pow2(t - 672);
      OneCheckNotDataCheck(ecs, n, i, t - 672);
    } else {
      var a, b := (t - 682) / 10, (t - 682) % 10;
      if a != b {
        assert TwoCheckWrites()[t - 682].key == Xor(Pow2(a), Pow2(b));
        TwoCheckNotDataCheck(ecs, n, i, a, b);
      }
    }
  }

  /**
   * An error in data bit n and one in check weight 1 << i: entry "count 2,
   * flip bit n" (flex.c:262-269).
   */
  lemma {:induction false} BchTableDataCheck(ecs: seq<nat>, n: nat, i: nat)
    requires Generated(ecs) && n < 21 && i < 10
    ensures 0 < Xor(ecs[n], Pow2(i)) < 1024
    ensures BchTable(ecs)[Xor(ecs[n], Pow2(i))] == n + NO_BIT * 32 + 0x2000
  {
    OneCheckNotColumn(ecs, n, i);
    XorZeroIff(ecs[n], Pow2(i));
    var ws := TableWrites(ecs);
    TableWritesKeys(ecs);
    var t0 := 462 + n * 10 + i;
    assert (n * 10 + i) / 10 == n && (n * 10 + i) % 10 == i;
    TableWriteAt(ecs, t0);
    var k, v := Xor(ecs[n], Pow2(i)), n + NO_BIT * 32 + 0x2000;
    assert ws[t0] == Write(k, v);
    forall t | t0 < t < |ws| ensures ws[t].Write? ==> ws[t].key != k {
      DataCheckKeyLast(ecs, n, i, t);
    }
    ApplyLast(seq(1024, _ => 0), ws, k, v, t0);
  }

  /** The syndrome of errors in data bits n < m, as bit-vectors. */
  lemma {:induction false} PairBits(ecs: seq<nat>, n: nat, m: nat)
    requires Generated(ecs) && n < m < 21
    ensures ToBv(Xor(ecs[n], ecs[m])) == ToBv(ecs[n]) ^ ToBv(ecs[m])
    ensures ToBv(ecs[n]) != ToBv(ecs[m]) && IsColumn(ToBv(ecs[n])) && IsColumn(ToBv(ecs[m]))
    ensures IsBit(ToBv(Pow2(0)))
  {
    EcsBits(ecs, n);
    EcsBits(ecs, m);
    ColumnsDistinct(n, m);
    ToBvXor(ecs[n], ecs[m]);
    ToBvPow2(0);
  }

  /** Two data errors are told apart by their syndrome: ecs[a] ^ ecs[b] names the pair {a, b}. */
  lemma {:induction false} PairSyndromeUnique(ecs: seq<nat>, n: nat, m: nat, a: nat, b: nat)
    requires Generated(ecs) && n < m < 21 && a < 21 && b < 21
    ensures Xor(ecs[a], ecs[b]) == Xor(ecs[n], ecs[m]) ==> (a == n && b == m) || (a == m && b == n)
  {
    PairBits(ecs, n, m);
    EcsBits(ecs, a);
    EcsBits(ecs, b);
    ToBvXor(ecs[a], ecs[b]);
    var one := ToBv(Pow2(0));
    TwoColumnKey(ToBv(ecs[n]), ToBv(ecs[m]), ToBv(ecs[a]), ToBv(ecs[b]), one, one);
    EcsDistinct(ecs, a, n);
    EcsDistinct(ecs, a, m);
    EcsDistinct(ecs, b, n);
    EcsDistinct(ecs, b, m);
  }

  /** Only setupecc's two writes for the pair {n, m} have the key ecs[n] ^ ecs[m]. */
  lemma {:induction false} TwoDataKeyNotPair(ecs: seq<nat>, n: nat, m: nat, t: nat)
    requires Generated(ecs) && n < m < 21 && m * 21 + n < t < 441
    ensures TwoDataWrites(ecs)[t].key != Xor(ecs[n], ecs[m])
  {
    var a, b := t / 21, t % 21;
    PairSyndromeUnique(ecs, n, m, a, b);
    assert t == a * 21 + b;
    assert n * 21 + m < m * 21 + n;
    assert TwoDataWrites(ecs)[t].key == Xor(ecs[a], ecs[b]);
  }

  /** A single data column is not the sum of two distinct data columns. */
  lemma {:induction false} OneDataNotPair(ecs: seq<nat>, n: nat, m: nat, a: nat)
    requires Generated(ecs) && n < m < 21 && a < 21
    ensures ecs[a] != Xor(ecs[n], ecs[m])
  {
    PairBits(ecs, n, m);
    var u, w, one := ToBv(ecs[n]), ToBv(ecs[m]), ToBv(Pow2(0));
    EcsBits(ecs, a);
    TwoColumnKey(u, w, ToBv(ecs[a]), u, one, one);
  }

  /** A data column with a check bit added is not the sum of two distinct data columns. */
  lemma {:induction false} DataCheckNotPair(ecs: seq<nat>, n: nat, m: nat, a: nat, b: nat)
    requires Generated(ecs) && n < m < 21 && a < 21 && b < 10
    ensures Xor(ecs[a], Pow2(b)) != Xor(ecs[n], ecs[m])
  {
    PairBits(ecs, n, m);
    var u, w, one := ToBv(ecs[n]), ToBv(ecs[m]), ToBv(Pow2(0));
    EcsBits(ecs, a);
    ToBvPow2(b);
    ToBvXor(ecs[a], Pow2(b));
    TwoColumnKey(u, w, ToBv(ecs[a]), u, ToBv(Pow2(b)), one);
  }

  /** The keys of the one-data and data-and-check loops are not those of two data errors. */
  lemma {:induction false} DataKeysNotPair(ecs: seq<nat>, n: nat, m: nat, t: nat)
    requires Generated(ecs) && n < m < 21 && t < 231
    ensures (OneDataWrites(ecs) + DataCheckWrites(ecs))[t].key != Xor(ecs[n], ecs[m])
  {
    if t < 21 {
      assert (OneDataWrites(ecs) + DataCheckWrites(ecs))[t].key == ecs[t];
      OneDataNotPair(ecs, n, m, t);
    } else {
      var a, b := (t - 21) / 10, (t - 21) % 10;
      assert (OneDataWrites(ecs) + DataCheckWrites(ecs))[t].key == Xor(ecs[a], Pow2(b));
      DataCheckNotPair(ecs, n, m, a, b);
    }
  }

  /** A single check bit is not the sum of two distinct data columns. */
  lemma {:induction false} OneCheckNotPair(ecs: seq<nat>, n: nat, m: nat, c: nat)
    requires Generated(ecs) && n < m < 21 && c < 10
    ensures Pow2(c) != Xor(ecs[n], ecs[m])
  {
    PairBits(ecs, n, m);
    var u, w, one := ToBv(ecs[n]), ToBv(ecs[m]), ToBv(Pow2(0));
    ToBvPow2(c);
    TwoColumnKey(u, w, u, u, ToBv(Pow2(c)), one);
  }

  /** Two check bits together are not the sum of two distinct data columns. */
  lemma {:induction false} TwoCheckNotPair(ecs: seq<nat>, n: nat, m: nat, a: nat, b: nat)
    requires Generated(ecs) && n < m < 21 && a < 10 && b < 10
    ensures Xor(Pow2(a), Pow2(b)) != Xor(ecs[n], ecs[m])
  {
    PairBits(ecs, n, m);
    var u, w := ToBv(ecs[n]), ToBv(ecs[m]);
    ToBvPow2(a);
    ToBvPow2(b);
    ToBvXor(Pow2(a), Pow2(b));
    TwoColumnKey(u, w, u, u, ToBv(Pow2(a)), ToBv(Pow2(b)));
  }

  /** The keys of the two check-bit loops are not those of two data errors. */
  lemma {:induction false} CheckKeysNotPair(ecs: seq<nat>, n: nat, m: nat, t: nat)
    requires Generated(ecs) && n < m < 21 && t < 110
    ensures (OneCheckWrites() + TwoCheckWrites())[t].Write? ==>
              (OneCheckWrites() + TwoCheckWrites())[t].key != Xor(ecs[n], ecs[m])
  {
    if t < 10 {
      assert (OneCheckWrites() + TwoCheckWrites())[t] == Write(Pow2(t), 0x13ff);
      OneCheckNotPair(ecs, n, m, t);
    } else {
      var a, b := (t - 10) / 10, (t - 10) % 10;
      assert (OneCheckWrites() + TwoCheckWrites())[t] == TwoCheckWrites()[t - 10];
      TwoCheckNotPair(ecs, n, m, a, b);
    }
  }

  /** No write after setupecc's write for the pair (m, n), n < m, has the key ecs[n] ^ ecs[m]. */
  lemma {:induction false} TwoDataKeyLast(ecs: seq<nat>, n: nat, m: nat, t: nat)
    requires Generated(ecs) && n < m < 21 && m * 21 + n < t < 782
    ensures TableWrites(ecs)[t].Write? ==> TableWrites(ecs)[t].key != Xor(ecs[n], ecs[m])
  {
    TableWriteAt(ecs, t);
    if t < 441 {
      TwoDataKeyNotPair(ecs, n, m, t);
    } else if t < 672 {
      DataKeysNotPair(ecs, n, m, t - 441);
    } else {
      CheckKeysNotPair(ecs, n, m, t - 672);
    }
  }

  /**
   * Errors in data bits n < m: the entry of the later of the two writes
   * setupecc makes for the pair, "count 2, flip bits n and m" with m in the
   * low field (flex.c:245-252).
   */
  lemma {:induction false} BchTableTwoData(ecs: seq<nat>, n: nat, m: nat)
    requires Generated(ecs) && n < m < 21
    ensures 0 < Xor(ecs[n], ecs[m]) < 1024
    ensures BchTable(ecs)[Xor(ecs[n], ecs[m])] == n * 32 + m + 0x2000
  {
    XorZeroIff(ecs[n], ecs[m]);
    EcsDistinct(ecs, n, m);
    var ws := TableWrites(ecs);
    TableWritesKeys(ecs);
    var t0 := m * 21 + n;
    assert t0 / 21 == m && t0 % 21 == n;
    TableWriteAt(ecs, t0);
    XorComm(ecs[m], ecs[n]);
    var k := Xor(ecs[n], ecs[m]);
    forall t | t0 < t < |ws| ensures ws[t].Write? ==> ws[t].key != k {
      TwoDataKeyLast(ecs, n, m, t);
    }
    ApplyLast(seq(1024, _ => 0), ws, k, n * 32 + m + 0x2000, t0);
  }

  // ---------------------------------------------------------------------
  // What one flipped bit does to ecd's sums
  // ---------------------------------------------------------------------

  lemma {:induction false} EccOfFlip(ecs: seq<nat>, ob: seq<Bit>, p: nat, k: nat)
    requires EcsOk(ecs) && |ob| == 32 && p < 32 && k <= 21
    ensures EccOf(ecs, Flip(ob, p), k) == if p < k then Xor(EccOf(ecs, ob, k), ecs[p]) else EccOf(ecs, ob, k)
  {
    if k > 0 {
      EccOfFlip(ecs, ob, p, k - 1);
      var prev := EccOf(ecs, ob, k - 1);
      if p == k - 1 && ob[p] == 1 {
        XorCancel(prev, ecs[p]);
      } else if p < k - 1 && ob[k - 1] == 1 {
        XorSwap(prev, ecs[p], ecs[k - 1]);
      }
    }
  }

  lemma {:induction false} ParityOfFlip(ob: seq<Bit>, p: nat, k: nat)
    requires p < |ob| && k <= |ob|
    ensures ParityOf(Flip(ob, p), k) == if p < k then 1 - ParityOf(ob, k) else ParityOf(ob, k)
  {
    if k > 0 {
      ParityOfFlip(ob, p, k - 1);
    }
  }

  /** AccOf's step: the check bit read last is flipped. */
  lemma {:induction false} AccFlipLast(ob: seq<Bit>, p: nat, k: nat)
    requires |ob| == 32 && 0 < k <= 10 && p == 20 + k
    requires AccOf(Flip(ob, p), k - 1) == AccOf(ob, k - 1)
    ensures AccOf(Flip(ob, p), k) == Xor(AccOf(ob, k), Pow2(20 + k - p))
  {
    var a, b := AccOf(ob, k - 1), ob[20 + k];
    assert AccOf(ob, k) == 2 * a + b;
    assert AccOf(Flip(ob, p), k) == 2 * a + (1 - b);
    XorOne(a, b);
  }

  /** AccOf's step: a check bit read earlier is flipped, so its weight doubles. */
  lemma {:induction false} AccFlipEarlier(ob: seq<Bit>, p: nat, k: nat)
    requires |ob| == 32 && 0 < k <= 10 && 21 <= p < 20 + k
    requires AccOf(Flip(ob, p), k - 1) == Xor(AccOf(ob, k - 1), Pow2(19 + k - p))
    ensures AccOf(Flip(ob, p), k) == Xor(AccOf(ob, k), Pow2(20 + k - p))
  {
    var a, b, w := AccOf(ob, k - 1), ob[20 + k], Pow2(19 + k - p);
    assert AccOf(ob, k) == 2 * a + b;
    assert AccOf(Flip(ob, p), k) == 2 * Xor(a, w) + b;
    XorDouble(a, w, b);
    assert Pow2(20 + k - p) == 2 * w;
  }

  /** AccOf's step: a bit outside the first k check bits is flipped. */
  lemma {:induction false} AccFlipOutside(ob: seq<Bit>, p: nat, k: nat)
    requires |ob| == 32 && p < 32 && 0 < k <= 10 && !(21 <= p < 21 + k)
    requires AccOf(Flip(ob, p), k - 1) == AccOf(ob, k - 1)
    ensures AccOf(Flip(ob, p), k) == AccOf(ob, k)
  {
    assert Flip(ob, p)[20 + k] == ob[20 + k];
  }

  /** Check bit ob[p] carries weight 1 << (20 + k - p) in the first k check bits read as a number. */
  lemma {:induction false} AccOfFlip(ob: seq<Bit>, p: nat, k: nat)
    requires |ob| == 32 && p < 32 && k <= 10
    ensures AccOf(Flip(ob, p), k) ==
              if 21 <= p < 21 + k then Xor(AccOf(ob, k), Pow2(20 + k - p)) else AccOf(ob, k)
  {
    if k > 0 {
      AccOfFlip(ob, p, k - 1);
      if p == 20 + k {
        AccFlipLast(ob, p, k);
      } else if 21 <= p < 20 + k {
        AccFlipEarlier(ob, p, k);
      } else {
        AccFlipOutside(ob, p, k);
      }
    }
  }

  /** An error in data bit n adds ecs[n] to the syndrome. */
  lemma {:induction false} SyndromeFlipData(ecs: seq<nat>, ob: seq<Bit>, n: nat)
    requires EcsOk(ecs) && |ob| == 32 && n < 21
    ensures Syndrome(ecs, Flip(ob, n)) == Xor(Syndrome(ecs, ob), ecs[n])
    ensures EccOf(ecs, Flip(ob, n), 21) == Xor(EccOf(ecs, ob, 21), ecs[n])
    ensures ParityOf(Flip(ob, n), 21) == 1 - ParityOf(ob, 21)
  {
    EccOfFlip(ecs, ob, n, 21);
    AccOfFlip(ob, n, 10);
    ParityOfFlip(ob, n, 21);
    XorSwap(EccOf(ecs, ob, 21), ecs[n], AccOf(ob, 10));
  }

  /** An error in a check bit leaves ecc and the data parity alone. */
  lemma {:induction false} CheckFlipSums(ecs: seq<nat>, ob: seq<Bit>, j: nat)
    requires EcsOk(ecs) && |ob| == 32 && j < 10
    ensures EccOf(ecs, Flip(ob, 21 + j), 21) == EccOf(ecs, ob, 21)
    ensures ParityOf(Flip(ob, 21 + j), 21) == ParityOf(ob, 21)
  {
    EccOfFlip(ecs, ob, 21 + j, 21);
    ParityOfFlip(ob, 21 + j, 21);
  }

  /** An error in check bit ob[21 + j] adds 1 << (9 - j) to the syndrome. */
  lemma {:induction false} SyndromeFlipCheck(ecs: seq<nat>, ob: seq<Bit>, j: nat)
    requires EcsOk(ecs) && |ob| == 32 && j < 10
    ensures Syndrome(ecs, Flip(ob, 21 + j)) == Xor(Syndrome(ecs, ob), Pow2(9 - j))
    ensures EccOf(ecs, Flip(ob, 21 + j), 21) == EccOf(ecs, ob, 21)
    ensures ParityOf(Flip(ob, 21 + j), 21) == ParityOf(ob, 21)
  {
    EccOfFlip(ecs, ob, 21 + j, 21);
    AccOfFlip(ob, 21 + j, 10);
    ParityOfFlip(ob, 21 + j, 21);
    XorAssoc(EccOf(ecs, ob, 21), AccOf(ob, 10), Pow2(9 - j));
  }

  // ---------------------------------------------------------------------
  // ecd on a codeword hit by errors
  // ---------------------------------------------------------------------

  /** ecs[] and bch[] as setupecc leaves them. */
  predicate Tables(ecs: seq<nat>, bch: seq<nat>)
  {
    Generated(ecs) && TableOk(bch)
    && forall k {:trigger BchTable(ecs)[k]} :: 0 <= k < 1024 ==> bch[k] == BchTable(ecs)[k]
  }

  /** A valid codeword: zero syndrome, and bit 31 is the parity of the data and check bits. */
  predicate Codeword(ecs: seq<nat>, c: seq<Bit>)
    requires EcsOk(ecs)
  {
    |c| == 32 && Syndrome(ecs, c) == 0
    && (ParityOf(c, 21) + PopCount(EccOf(ecs, c, 21), 10)) % 2 == c[31]
  }

  lemma {:induction false} CorrectCodeword(ecs: seq<nat>, bch: seq<nat>, c: seq<Bit>)
    requires Tables(ecs, bch) && Codeword(ecs, c)
    ensures Correct(ecs, bch, c) == Decoded(0, c)
  {
  }

  /** A nonzero syndrome with a nonzero entry goes to Lookup. */
  lemma {:induction false} RepairKnown(ecs: seq<nat>, bch: seq<nat>, ob: seq<Bit>, synd: nat, e: nat)
    requires EcsOk(ecs) && TableOk(bch) && |ob| == 32
    requires Syndrome(ecs, ob) == synd != 0 && bch[synd] == e != 0
    ensures CorrectionOk(e)
    ensures Repair(ecs, bch, ob) == Lookup(ecs, ob, EccOf(ecs, ob, 21), ParityOf(ob, 21), e)
  {
  }

  lemma {:induction false} LookupOneData(ecs: seq<nat>, ob: seq<Bit>, ecc: nat, parity: Bit, n: nat)
    requires EcsOk(ecs) && |ob| == 32 && n < 21
    ensures CorrectionOk(n + NO_BIT * 32 + 0x1000)
    ensures Lookup(ecs, ob, ecc, parity, n + NO_BIT * 32 + 0x1000) == Repaired(Xor(ecc, ecs[n]), 1 - parity, 1, Flip(ob, n))
  {
    var e := n + NO_BIT * 32 + 0x1000;
    ModUnique(e, 32, 159, n);
    ModUnique(e, 4096, 1, n + 992);
  }

  lemma {:induction false} LookupDataCheck(ecs: seq<nat>, ob: seq<Bit>, ecc: nat, parity: Bit, n: nat)
    requires EcsOk(ecs) && |ob| == 32 && n < 21
    ensures CorrectionOk(n + NO_BIT * 32 + 0x2000)
    ensures Lookup(ecs, ob, ecc, parity, n + NO_BIT * 32 + 0x2000) == Repaired(Xor(ecc, ecs[n]), parity, 2, Flip(ob, n))
  {
    var e := n + NO_BIT * 32 + 0x2000;
    ModUnique(e, 32, 287, n);
    ModUnique(e, 4096, 2, n + 992);
  }

  lemma {:induction false} LookupTwoData(ecs: seq<nat>, ob: seq<Bit>, ecc: nat, parity: Bit, lo: nat, hi: nat)
    requires EcsOk(ecs) && |ob| == 32 && lo < hi < 21
    ensures CorrectionOk(lo * 32 + hi + 0x2000)
    ensures Lookup(ecs, ob, ecc, parity, lo * 32 + hi + 0x2000) ==
              Repaired(Xor(Xor(ecc, ecs[lo]), ecs[hi]), parity, 2, Flip(Flip(ob, lo), hi))
  {
    var e := lo * 32 + hi + 0x2000;
    ModUnique(e, 32, lo + 256, hi);
    ModUnique(lo + 256, 32, 8, lo);
    ModUnique(e, 4096, 2, lo * 32 + hi);
  }

  lemma {:induction false} LookupChecks(ecs: seq<nat>, ob: seq<Bit>, ecc: nat, parity: Bit)
    requires EcsOk(ecs) && |ob| == 32
    ensures CorrectionOk(0x13ff) && CorrectionOk(0x23ff)
    ensures Lookup(ecs, ob, ecc, parity, 0x13ff) == Repaired(ecc, 1 - parity, 1, ob)
    ensures Lookup(ecs, ob, ecc, parity, 0x23ff) == Repaired(ecc, parity, 2, ob)
  {
  }

  /** ecd's lookup and flip for a single data error restore the codeword and its sums. */
  lemma {:induction false} RepairDataError(ecs: seq<nat>, bch: seq<nat>, c: seq<Bit>, n: nat)
    requires Tables(ecs, bch) && Codeword(ecs, c) && n < 21
    ensures Repair(ecs, bch, Flip(c, n)) == Repaired(EccOf(ecs, c, 21), ParityOf(c, 21), 1, c)
  {
    var r := Flip(c, n);
    SyndromeFlipData(ecs, c, n);
    EcsBits(ecs, n);
    BchTableOneData(ecs, n);
    RepairKnown(ecs, bch, r, ecs[n], n + NO_BIT * 32 + 0x1000);
    LookupOneData(ecs, r, EccOf(ecs, r, 21), ParityOf(r, 21), n);
    XorCancel(EccOf(ecs, c, 21), ecs[n]);
    assert Flip(r, n) == c;
  }

  /** A single error in a data bit is corrected and counted once. */
  lemma {:induction false} CorrectsDataError(ecs: seq<nat>, bch: seq<nat>, c: seq<Bit>, n: nat)
    requires Tables(ecs, bch) && Codeword(ecs, c) && n < 21
    ensures Correct(ecs, bch, Flip(c, n)) == Decoded(1, c)
  {
    RepairDataError(ecs, bch, c, n);
  }

  /** Flipping a bit twice restores the word; flips of two bits commute. */
  lemma FlipTwice(ob: seq<Bit>, p: nat, q: nat)
    requires p < |ob| && q < |ob|
    ensures Flip(Flip(ob, p), p) == ob
    ensures Flip(Flip(ob, p), q) == Flip(Flip(ob, q), p)
  {
  }

  /** A syndrome whose entry names two data bits makes Repair flip both and count two. */
  lemma {:induction false} RepairTwoDataEntry(ecs: seq<nat>, bch: seq<nat>, ob: seq<Bit>, lo: nat, hi: nat)
    requires EcsOk(ecs) && TableOk(bch) && |ob| == 32 && lo < hi < 21
    requires Syndrome(ecs, ob) != 0 && bch[Syndrome(ecs, ob)] == lo * 32 + hi + 0x2000
    ensures Repair(ecs, bch, ob) ==
              Repaired(Xor(Xor(EccOf(ecs, ob, 21), ecs[lo]), ecs[hi]), ParityOf(ob, 21), 2, Flip(Flip(ob, lo), hi))
  {
    RepairKnown(ecs, bch, ob, Syndrome(ecs, ob), lo * 32 + hi + 0x2000);
    LookupTwoData(ecs, ob, EccOf(ecs, ob, 21), ParityOf(ob, 21), lo, hi);
  }

  /** ecd's lookup and flips for two data errors restore the codeword and its sums. */
  lemma {:induction false} RepairTwoDataErrors(ecs: seq<nat>, bch: seq<nat>, c: seq<Bit>, lo: nat, hi: nat)
    requires Tables(ecs, bch) && Codeword(ecs, c) && lo < hi < 21
    ensures Repair(ecs, bch, Flip(Flip(c, lo), hi)) == Repaired(EccOf(ecs, c, 21), ParityOf(c, 21), 2, c)
  {
    var r1 := Flip(c, lo);
    var r := Flip(r1, hi);
    SyndromeFlipData(ecs, c, lo);
    SyndromeFlipData(ecs, r1, hi);
    BchTableTwoData(ecs, lo, hi);
    var synd := Xor(ecs[lo], ecs[hi]);
    RepairTwoDataEntry(ecs, bch, r, lo, hi);
    XorCancelPair(EccOf(ecs, c, 21), ecs[lo], ecs[hi]);
    FlipTwice(c, lo, hi);
    FlipTwice(r1, hi, lo);
    FlipTwice(c, lo, lo);
    FlipTwice(c, hi, hi);
  }

  /** Correct is Finish applied to what Repair leaves. */
  lemma {:induction false} CorrectIs(ecs: seq<nat>, bch: seq<nat>, ob: seq<Bit>, ecc: nat, parity: Bit, k: nat, w: seq<Bit>)
    requires EcsOk(ecs) && TableOk(bch) && |ob| == 32 && |w| == 32 && k <= 3
    requires Repair(ecs, bch, ob) == Repaired(ecc, parity, k, w)
    ensures Correct(ecs, bch, ob) == Finish(ecc, parity, k, w)
  {
  }

  /** When the overall parity agrees with bit 31, ecd's final test adds nothing. */
  lemma {:induction false} FinishAgrees(ecc: nat, parity: Bit, k: nat, w: seq<Bit>)
    requires |w| == 32 && k <= 3 && (parity + PopCount(ecc, 10)) % 2 == w[31]
    ensures Finish(ecc, parity, k, w) == Decoded(k, w)
  {
  }

  /** With the data parity flipped against a word whose parity agreed, ecd's final test adds one. */
  lemma {:induction false} FinishFlipped(ecc: nat, parity: Bit, k: nat, w: seq<Bit>)
    requires |w| == 32 && k <= 2 && (parity + PopCount(ecc, 10)) % 2 == w[31]
    ensures Finish(ecc, 1 - parity, k, w) == Decoded(k + 1, w)
  {
    FlipParity(parity, PopCount(ecc, 10), w[31]);
  }

  lemma {:induction false} FlipParity(p: int, q: nat, b: int)
    requires 0 <= p < 2 && (p + q) % 2 == b
    ensures (1 - p + q) % 2 != b
  {
    ModUnique(p + q, 2, (p + q) / 2, b);
    if (1 - p + q) % 2 == b {
      ModUnique(1 - p + q, 2, (1 - p + q) / 2, b);
      ModUnique(1 - 2 * p, 2, (1 - p + q) / 2 - (p + q) / 2, 0);
    }
  }

  /** A repair that restores a codeword's word and sums passes ecd's final parity test unchanged. */
  lemma {:induction false} FinishCodeword(ecs: seq<nat>, bch: seq<nat>, c: seq<Bit>, ob: seq<Bit>, k: nat)
    requires EcsOk(ecs) && TableOk(bch) && Codeword(ecs, c) && |ob| == 32 && k <= 3
    requires Repair(ecs, bch, ob) == Repaired(EccOf(ecs, c, 21), ParityOf(c, 21), k, c)
    ensures Correct(ecs, bch, ob) == Decoded(k, c)
  {
    CorrectIs(ecs, bch, ob, EccOf(ecs, c, 21), ParityOf(c, 21), k, c);
    FinishAgrees(EccOf(ecs, c, 21), ParityOf(c, 21), k, c);
  }

  /** Errors in two distinct data bits are both corrected and counted as two. */
  lemma {:induction false} CorrectsTwoDataErrors(ecs: seq<nat>, bch: seq<nat>, c: seq<Bit>, n: nat, m: nat)
    requires Tables(ecs, bch) && Codeword(ecs, c) && n < 21 && m < 21 && n != m
    ensures Correct(ecs, bch, Flip(Flip(c, n), m)) == Decoded(2, c)
  {
    var lo, hi := if n < m then n else m, if n < m then m else n;
    FlipTwice(c, n, m);
    assert Flip(Flip(c, n), m) == Flip(Flip(c, lo), hi);
    RepairTwoDataErrors(ecs, bch, c, lo, hi);
    FinishCodeword(ecs, bch, c, Flip(Flip(c, lo), hi), 2);
  }

  /** ecd's lookup for a check-bit error flips nothing and reports one error. */
  lemma {:induction false} RepairCheckError(ecs: seq<nat>, bch: seq<nat>, c: seq<Bit>, j: nat)
    requires EcsOk(ecs) && TableOk(bch) && Codeword(ecs, c) && j < 10
    requires Pow2(9 - j) < 1024 && bch[Pow2(9 - j)] == 0x13ff
    ensures Repair(ecs, bch, Flip(c, 21 + j)) ==
              Repaired(EccOf(ecs, c, 21), 1 - ParityOf(c, 21), 1, Flip(c, 21 + j))
  {
    var r := Flip(c, 21 + j);
    SyndromeFlipCheck(ecs, c, j);
    RepairCheckEntry(ecs, bch, r, EccOf(ecs, c, 21), ParityOf(c, 21), 0x13ff);
  }

  /** ecd on a codeword with check bit 21 + j flipped, given the table entry for its syndrome. */
  lemma {:induction false} CheckErrorFinish(ecs: seq<nat>, bch: seq<nat>, c: seq<Bit>, j: nat)
    requires EcsOk(ecs) && TableOk(bch) && Codeword(ecs, c) && j < 10
    requires Pow2(9 - j) < 1024 && bch[Pow2(9 - j)] == 0x13ff
    ensures Correct(ecs, bch, Flip(c, 21 + j)) == Decoded(2, Flip(c, 21 + j))
  {
    var w := Flip(c, 21 + j);
    RepairCheckError(ecs, bch, c, j);
    CorrectIs(ecs, bch, w, EccOf(ecs, c, 21), 1 - ParityOf(c, 21), 1, w);
    CheckFlipKeepsParityBit(ecs, c, j);
    FinishFlipped(EccOf(ecs, c, 21), ParityOf(c, 21), 1, w);
  }

  /** Flipping a check bit leaves bit 31, so a codeword's sums still agree with it. */
  lemma {:induction false} CheckFlipKeepsParityBit(ecs: seq<nat>, c: seq<Bit>, j: nat)
    requires EcsOk(ecs) && Codeword(ecs, c) && j < 10
    ensures (ParityOf(c, 21) + PopCount(EccOf(ecs, c, 21), 10)) % 2 == Flip(c, 21 + j)[31]
  {
    assert Flip(c, 21 + j)[31] == c[31];
  }

  /**
   * A single error in a check bit leaves the data alone but is counted as
   * two: ecd flips its parity for every count-1 entry (flex.c:207-208),
   * although only a data-bit error changes the data parity.
   */
  lemma {:induction false} CheckErrorCountedTwice(ecs: seq<nat>, bch: seq<nat>, c: seq<Bit>, j: nat)
    requires Tables(ecs, bch) && Codeword(ecs, c) && j < 10
    ensures Correct(ecs, bch, Flip(c, 21 + j)) == Decoded(2, Flip(c, 21 + j))
  {
    TableOneCheck(ecs, bch, 9 - j);
    CheckErrorFinish(ecs, bch, c, j);
  }

  /** A syndrome whose entry names one data bit with count two makes Repair flip it and keep the parity. */
  lemma {:induction false} RepairDataCheckEntry(ecs: seq<nat>, bch: seq<nat>, ob: seq<Bit>, n: nat)
    requires EcsOk(ecs) && TableOk(bch) && |ob| == 32 && n < 21
    requires Syndrome(ecs, ob) != 0 && bch[Syndrome(ecs, ob)] == n + NO_BIT * 32 + 0x2000
    ensures Repair(ecs, bch, ob) ==
              Repaired(Xor(EccOf(ecs, ob, 21), ecs[n]), ParityOf(ob, 21), 2, Flip(ob, n))
  {
    RepairKnown(ecs, bch, ob, Syndrome(ecs, ob), n + NO_BIT * 32 + 0x2000);
    LookupDataCheck(ecs, ob, EccOf(ecs, ob, 21), ParityOf(ob, 21), n);
  }

  /** ecd's lookup for a data and a check error repairs the data bit and reports two errors. */
  lemma {:induction false} RepairDataAndCheckErrors(ecs: seq<nat>, bch: seq<nat>, c: seq<Bit>, n: nat, j: nat)
    requires EcsOk(ecs) && TableOk(bch) && Codeword(ecs, c) && n < 21 && j < 10
    requires 0 < Xor(ecs[n], Pow2(9 - j)) < 1024 && bch[Xor(ecs[n], Pow2(9 - j))] == n + NO_BIT * 32 + 0x2000
    ensures Repair(ecs, bch, Flip(Flip(c, n), 21 + j)) ==
              Repaired(EccOf(ecs, c, 21), 1 - ParityOf(c, 21), 2, Flip(c, 21 + j))
  {
    var r1 := Flip(c, n);
    var r := Flip(r1, 21 + j);
    SyndromeFlipData(ecs, c, n);
    SyndromeFlipCheck(ecs, r1, j);
    RepairDataCheckEntry(ecs, bch, r, n);
    XorCancel(EccOf(ecs, c, 21), ecs[n]);
    FlipTwice(r1, 21 + j, n);
    FlipTwice(c, n, n);
  }

  /** ecd on a codeword with data bit n and check bit 21 + j flipped, given the table entry for its syndrome. */
  lemma {:induction false} DataAndCheckFinish(ecs: seq<nat>, bch: seq<nat>, c: seq<Bit>, n: nat, j: nat)
    requires EcsOk(ecs) && TableOk(bch) && Codeword(ecs, c) && n < 21 && j < 10
    requires 0 < Xor(ecs[n], Pow2(9 - j)) < 1024 && bch[Xor(ecs[n], Pow2(9 - j))] == n + NO_BIT * 32 + 0x2000
    ensures Correct(ecs, bch, Flip(Flip(c, n), 21 + j)) == Decoded(3, Flip(c, 21 + j))
  {
    RepairDataAndCheckErrors(ecs, bch, c, n, j);
    var w := Flip(c, 21 + j);
    CorrectIs(ecs, bch, Flip(Flip(c, n), 21 + j), EccOf(ecs, c, 21), 1 - ParityOf(c, 21), 2, w);
    assert w[31] == c[31];
    FinishFlipped(EccOf(ecs, c, 21), ParityOf(c, 21), 2, w);
  }

  /** An error in a data bit and one in a check bit: the data is repaired, the count is 3. */
  lemma {:induction false} DataAndCheckErrors(ecs: seq<nat>, bch: seq<nat>, c: seq<Bit>, n: nat, j: nat)
    requires Tables(ecs, bch) && Codeword(ecs, c) && n < 21 && j < 10
    ensures Correct(ecs, bch, Flip(Flip(c, n), 21 + j)) == Decoded(3, Flip(c, 21 + j))
  {
    TableDataCheck(ecs, bch, n, 9 - j);
    DataAndCheckFinish(ecs, bch, c, n, j);
  }

  /** A syndrome whose entry names no bit makes Repair change nothing but the count and, for count one, the parity. */
  lemma {:induction false} RepairCheckEntry(ecs: seq<nat>, bch: seq<nat>, ob: seq<Bit>, ecc: nat, parity: Bit, e: nat)
    requires EcsOk(ecs) && TableOk(bch) && |ob| == 32 && Syndrome(ecs, ob) != 0
    requires bch[Syndrome(ecs, ob)] == e && (e == 0x13ff || e == 0x23ff)
    requires EccOf(ecs, ob, 21) == ecc && ParityOf(ob, 21) == parity
    ensures e == 0x13ff ==> Repair(ecs, bch, ob) == Repaired(ecc, 1 - parity, 1, ob)
    ensures e == 0x23ff ==> Repair(ecs, bch, ob) == Repaired(ecc, parity, 2, ob)
  {
    RepairKnown(ecs, bch, ob, Syndrome(ecs, ob), e);
    LookupChecks(ecs, ob, ecc, parity);
  }

  /** An entry of bch[] below 1024 is the one setupecc computes. */
  lemma {:induction false} TableAt(ecs: seq<nat>, bch: seq<nat>, k: nat)
    requires Tables(ecs, bch) && k < 1024
    ensures bch[k] == BchTable(ecs)[k]
  {
  }

  lemma {:induction false} TableOneCheck(ecs: seq<nat>, bch: seq<nat>, i: nat)
    requires Tables(ecs, bch) && i < 10
    ensures Pow2(i) < 1024 && bch[Pow2(i)] == 0x13ff
  {
    BchTableOneCheck(ecs, i);
    TableAt(ecs, bch, Pow2(i));
  }

  lemma {:induction false} TableDataCheck(ecs: seq<nat>, bch: seq<nat>, n: nat, i: nat)
    requires Tables(ecs, bch) && n < 21 && i < 10
    ensures 0 < Xor(ecs[n], Pow2(i)) < 1024 && bch[Xor(ecs[n], Pow2(i))] == n + NO_BIT * 32 + 0x2000
  {
    BchTableDataCheck(ecs, n, i);
    TableAt(ecs, bch, Xor(ecs[n], Pow2(i)));
  }

  lemma {:induction false} TableTwoCheck(ecs: seq<nat>, bch: seq<nat>, h: nat, i: nat)
    requires Tables(ecs, bch) && h < 10 && i < 10 && h != i
    ensures Xor(Pow2(h), Pow2(i)) < 1024 && bch[Xor(Pow2(h), Pow2(i))] == 0x23ff
  {
    BchTableTwoCheck(ecs, h, i);
    TableAt(ecs, bch, Xor(Pow2(h), Pow2(i)));
  }

  /** One check-bit error in a word with zero syndrome gives that bit's weight as syndrome. */
  lemma {:induction false} CheckFlipFromZero(ecs: seq<nat>, c: seq<Bit>, i: nat)
    requires EcsOk(ecs) && |c| == 32 && Syndrome(ecs, c) == 0 && i < 10
    ensures Syndrome(ecs, Flip(c, 21 + i)) == Pow2(9 - i)
  {
    SyndromeFlipCheck(ecs, c, i);
    assert Xor(0, Pow2(9 - i)) == Pow2(9 - i);
  }

  /** Two distinct check-bit weights never cancel. */
  lemma {:induction false} TwoWeightsNonzero(h: nat, k: nat)
    requires h < 10 && k < 10 && h != k
    ensures Xor(Pow2(h), Pow2(k)) != 0
  {
    XorZeroIff(Pow2(h), Pow2(k));
    if h < k { Pow2Strict(h, k); } else { Pow2Strict(k, h); }
  }

  /** Two check-bit errors give a two-bit syndrome. */
  lemma {:induction false} TwoCheckSyndrome(ecs: seq<nat>, c: seq<Bit>, i: nat, j: nat)
    requires EcsOk(ecs) && |c| == 32 && Syndrome(ecs, c) == 0 && i < 10 && j < 10 && i != j
    ensures Syndrome(ecs, Flip(Flip(c, 21 + i), 21 + j)) == Xor(Pow2(9 - i), Pow2(9 - j)) != 0
  {
    CheckFlipFromZero(ecs, c, i);
    SyndromeFlipCheck(ecs, Flip(c, 21 + i), j);
    TwoWeightsNonzero(9 - i, 9 - j);
  }

  /** The table entry for the syndrome of two check-bit errors is "count 2, flip nothing". */
  lemma {:induction false} TwoCheckEntry(ecs: seq<nat>, bch: seq<nat>, c: seq<Bit>, i: nat, j: nat)
    requires Tables(ecs, bch) && |c| == 32 && Syndrome(ecs, c) == 0 && i < 10 && j < 10 && i != j
    ensures Syndrome(ecs, Flip(Flip(c, 21 + i), 21 + j)) != 0
    ensures bch[Syndrome(ecs, Flip(Flip(c, 21 + i), 21 + j))] == 0x23ff
  {
    TwoCheckSyndrome(ecs, c, i, j);
    TableTwoCheck(ecs, bch, 9 - i, 9 - j);
  }

  /** ecd's lookup for two check-bit errors flips nothing and reports two errors. */
  lemma {:induction false} RepairTwoCheckErrors(ecs: seq<nat>, bch: seq<nat>, c: seq<Bit>, i: nat, j: nat)
    requires EcsOk(ecs) && TableOk(bch) && |c| == 32 && i < 10 && j < 10
    requires Syndrome(ecs, Flip(Flip(c, 21 + i), 21 + j)) != 0
    requires bch[Syndrome(ecs, Flip(Flip(c, 21 + i), 21 + j))] == 0x23ff
    ensures Repair(ecs, bch, Flip(Flip(c, 21 + i), 21 + j)) ==
              Repaired(EccOf(ecs, c, 21), ParityOf(c, 21), 2, Flip(Flip(c, 21 + i), 21 + j))
  {
    var r1 := Flip(c, 21 + i);
    CheckFlipSums(ecs, c, i);
    CheckFlipSums(ecs, r1, j);
    RepairCheckEntry(ecs, bch, Flip(r1, 21 + j), EccOf(ecs, c, 21), ParityOf(c, 21), 0x23ff);
  }

  /** ecd on a codeword with check bits 21 + i and 21 + j flipped, given the table entry for its syndrome. */
  lemma {:induction false} TwoCheckFinish(ecs: seq<nat>, bch: seq<nat>, c: seq<Bit>, i: nat, j: nat)
    requires EcsOk(ecs) && TableOk(bch) && Codeword(ecs, c) && i < 10 && j < 10
    requires Syndrome(ecs, Flip(Flip(c, 21 + i), 21 + j)) != 0
    requires bch[Syndrome(ecs, Flip(Flip(c, 21 + i), 21 + j))] == 0x23ff
    ensures Correct(ecs, bch, Flip(Flip(c, 21 + i), 21 + j)) == Decoded(2, Flip(Flip(c, 21 + i), 21 + j))
  {
    var r := Flip(Flip(c, 21 + i), 21 + j);
    RepairTwoCheckErrors(ecs, bch, c, i, j);
    CorrectIs(ecs, bch, r, EccOf(ecs, c, 21), ParityOf(c, 21), 2, r);
    assert r[31] == c[31];
    FinishAgrees(EccOf(ecs, c, 21), ParityOf(c, 21), 2, r);
  }

  /** Errors in two distinct check bits leave the data alone and are counted as two. */
  lemma {:induction false} TwoCheckErrors(ecs: seq<nat>, bch: seq<nat>, c: seq<Bit>, i: nat, j: nat)
    requires Tables(ecs, bch) && Codeword(ecs, c) && i < 10 && j < 10 && i != j
    ensures Correct(ecs, bch, Flip(Flip(c, 21 + i), 21 + j)) == Decoded(2, Flip(Flip(c, 21 + i), 21 + j))
  {
    TwoCheckEntry(ecs, bch, c, i, j);
    TwoCheckFinish(ecs, bch, c, i, j);
  }

  /**
   * An error in the overall parity bit is counted once and left in place. The syndrome
   * stays zero, so this holds whatever the table holds.
   */
  lemma {:induction false} ParityBitError(ecs: seq<nat>, bch: seq<nat>, c: seq<Bit>)
    requires EcsOk(ecs) && TableOk(bch) && Codeword(ecs, c)
    ensures Correct(ecs, bch, Flip(c, 31)) == Decoded(1, Flip(c, 31))
  {
    var w := Flip(c, 31);
    RepairParityBit(ecs, bch, c);
    CorrectIs(ecs, bch, w, EccOf(ecs, c, 21), ParityOf(c, 21), 0, w);
    ParityBitDisagrees(ecs, c);
    FinishDisagrees(EccOf(ecs, c, 21), ParityOf(c, 21), 0, w);
  }

  /** Flipping bit 31 touches neither the check sums nor the parity over the data bits. */
  lemma {:induction false} RepairParityBit(ecs: seq<nat>, bch: seq<nat>, c: seq<Bit>)
    requires EcsOk(ecs) && TableOk(bch) && Codeword(ecs, c)
    ensures Repair(ecs, bch, Flip(c, 31)) == Repaired(EccOf(ecs, c, 21), ParityOf(c, 21), 0, Flip(c, 31))
  {
    EccOfFlip(ecs, c, 31, 21);
    AccOfFlip(c, 31, 10);
    ParityOfFlip(c, 31, 21);
  }

  /** With bit 31 flipped, the overall parity of a codeword no longer agrees with it. */
  lemma {:induction false} ParityBitDisagrees(ecs: seq<nat>, c: seq<Bit>)
    requires EcsOk(ecs) && Codeword(ecs, c)
    ensures (ParityOf(c, 21) + PopCount(EccOf(ecs, c, 21), 10)) % 2 != Flip(c, 31)[31]
  {
    assert Flip(c, 31)[31] == 1 - c[31];
  }

  /** When the overall parity disagrees with bit 31, ecd's final test adds one. */
  lemma {:induction false} FinishDisagrees(ecc: nat, parity: Bit, k: nat, w: seq<Bit>)
    requires |w| == 32 && k <= 2 && (parity + PopCount(ecc, 10)) % 2 != w[31]
    ensures Finish(ecc, parity, k, w) == Decoded(k + 1, w)
  {
  }
}
