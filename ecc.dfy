/**
 * The BCH(31,21) code with an overall parity bit that protects every FLEX
 * codeword: the syndrome constants, the syndrome-to-correction table and the
 * corrector itself, stated on values.  The imperative `setupecc` and `ecd`
 * (class `Flex.FlexDecoder`) are proved equal to `Lfsr`, `BchTable` and
 * `Correct` below.
 *
 * A codeword is held as 32 separate bits (`ob[0..31]`): bits 0..20 carry data,
 * bits 21..30 the ten check bits, bit 31 the overall parity.
 */
module Ecc {
  import opened Bits

  /** Seed and feedback taps of the syndrome shift register (flex.c:229). */
  const GENERATOR: nat := 0x3B4

  /** Sentinel position in a table entry meaning "no bit to flip". */
  const NO_BIT: nat := 0x1f

  /** One step of setupecc's shift register: shift right, feeding back the taps when a 1 drops out. */
  function Feedback(s: nat): (r: nat)
    requires s < 1024
    ensures r < 1024
  {
    assert Pow2(10) == 1024;
    if s % 2 != 0 then
      XorBound(s / 2, GENERATOR, 10);
      Xor(s / 2, GENERATOR)
    else s / 2
  }

  /** Value of the shift register `srr` before step n of setupecc's first loop; ecs[n] == Lfsr(n). */
  function Lfsr(n: nat): (r: nat)
    ensures r < 1024
  {
    if n == 0 then GENERATOR else Feedback(Lfsr(n - 1))
  }

  predicate EcsOk(ecs: seq<nat>)
  {
    |ecs| == 25 && forall i :: 0 <= i < 21 ==> ecs[i] < 1024
  }

  /** A 5-bit position field: a data bit, or the sentinel. */
  predicate PositionOk(p: int)
  {
    0 <= p <= 20 || p == NO_BIT
  }

  /** A correction entry: error count 1 or 2 in bits 12..13, two position fields in bits 0..9. */
  predicate CorrectionOk(v: nat)
  {
    (v / 4096 == 1 || v / 4096 == 2) && PositionOk(v % 32) && PositionOk((v / 32) % 32)
  }

  predicate EntryOk(v: nat)
  {
    v == 0 || CorrectionOk(v)
  }

  /** The shape of `bch[1025]` that the corrector relies on. */
  predicate TableOk(bch: seq<nat>)
  {
    |bch| == 1025 && forall k :: 0 <= k < |bch| ==> EntryOk(bch[k])
  }

  // ---------------------------------------------------------------------
  // The table as the sequence of writes setupecc performs (flex.c:242-285)
  // ---------------------------------------------------------------------

  /** One assignment `bch[key] = value`; `Skip` is the `i == n` case of the last double loop. */
  datatype Write = Write(key: nat, value: nat) | Skip

  /** Two errors in data: bch[ecs[n] ^ ecs[i]] = (i << 5) + n + 0x2000, n outer, i inner. */
  function TwoDataWrites(ecs: seq<nat>): seq<Write>
    requires |ecs| >= 21
  {
    seq(441, t requires 0 <= t < 441 =>
      Write(Xor(ecs[t / 21], ecs[t % 21]), (t % 21) * 32 + t / 21 + 0x2000))
  }

  /** One error in data: bch[ecs[n]] = n + (0x1f << 5) + 0x1000. */
  function OneDataWrites(ecs: seq<nat>): seq<Write>
    requires |ecs| >= 21
  {
    seq(21, n requires 0 <= n < 21 => Write(ecs[n], n + NO_BIT * 32 + 0x1000))
  }

  /** One error in data and one in the check bits: bch[ecs[n] ^ (1 << i)] = n + (0x1f << 5) + 0x2000. */
  function DataCheckWrites(ecs: seq<nat>): seq<Write>
    requires |ecs| >= 21
  {
    seq(210, t requires 0 <= t < 210 =>
      Write(Xor(ecs[t / 10], Pow2(t % 10)), t / 10 + NO_BIT * 32 + 0x2000))
  }

  /** One error in the check bits: bch[1 << n] = 0x3ff + 0x1000. */
  function OneCheckWrites(): seq<Write>
  {
    seq(10, n requires 0 <= n < 10 => Write(Pow2(n), 0x3ff + 0x1000))
  }

  /** Two errors in the check bits: bch[(1 << n) ^ (1 << i)] = 0x3ff + 0x2000 for i != n. */
  function TwoCheckWrites(): seq<Write>
  {
    seq(100, t requires 0 <= t < 100 =>
      if t / 10 == t % 10 then Skip else Write(Xor(Pow2(t / 10), Pow2(t % 10)), 0x3ff + 0x2000))
  }

  function TableWrites(ecs: seq<nat>): seq<Write>
    requires |ecs| >= 21
  {
    TwoDataWrites(ecs) + OneDataWrites(ecs) + DataCheckWrites(ecs) + OneCheckWrites() + TwoCheckWrites()
  }

  predicate KeysBelow(ws: seq<Write>, n: nat)
  {
    forall t :: 0 <= t < |ws| && ws[t].Write? ==> ws[t].key < n
  }

  /** The table after performing the writes of ws in order, later writes winning. */
  function Apply(table: seq<nat>, ws: seq<Write>): (r: seq<nat>)
    requires KeysBelow(ws, |table|)
    ensures |r| == |table|
    decreases |ws|
  {
    if ws == [] then table
    else
      var prev := Apply(table, ws[..|ws| - 1]);
      var w := ws[|ws| - 1];
      if w.Skip? then prev else prev[w.key := w.value]
  }

  lemma {:induction false} KeysBelowConcat(ws1: seq<Write>, ws2: seq<Write>, n: nat)
    requires KeysBelow(ws1, n) && KeysBelow(ws2, n)
    ensures KeysBelow(ws1 + ws2, n)
  {
    var ws := ws1 + ws2;
    forall t | 0 <= t < |ws| && ws[t].Write? ensures ws[t].key < n {
      if t >= |ws1| { assert ws[t] == ws2[t - |ws1|]; }
    }
  }

  lemma {:induction false} TwoDataKeys(ecs: seq<nat>)
    requires EcsOk(ecs)
    ensures KeysBelow(TwoDataWrites(ecs), 1024)
  {
    assert Pow2(10) == 1024;
    var ws := TwoDataWrites(ecs);
    forall t | 0 <= t < |ws| ensures ws[t].key < 1024 {
      XorBound(ecs[t / 21], ecs[t % 21], 10);
    }
  }

  lemma {:induction false} DataCheckKeys(ecs: seq<nat>)
    requires EcsOk(ecs)
    ensures KeysBelow(DataCheckWrites(ecs), 1024)
  {
    assert Pow2(10) == 1024;
    var ws := DataCheckWrites(ecs);
    forall t | 0 <= t < |ws| ensures ws[t].key < 1024 {
      Pow2Strict(t % 10, 10);
      XorBound(ecs[t / 10], Pow2(t % 10), 10);
    }
  }

  lemma {:induction false} OneCheckKeys()
    ensures KeysBelow(OneCheckWrites(), 1024)
  {
    assert Pow2(10) == 1024;
    var ws := OneCheckWrites();
    forall t | 0 <= t < |ws| ensures ws[t].key < 1024 {
      Pow2Strict(t, 10);
    }
  }

  lemma {:induction false} TwoCheckKeys()
    ensures KeysBelow(TwoCheckWrites(), 1024)
  {
    assert Pow2(10) == 1024;
    var ws := TwoCheckWrites();
    forall t | 0 <= t < |ws| && ws[t].Write? ensures ws[t].key < 1024 {
      Pow2Strict(t % 10, 10);
      Pow2Strict(t / 10, 10);
      XorBound(Pow2(t / 10), Pow2(t % 10), 10);
    }
  }

  /** The writes of the first three loops of setupecc, and the writes of the last two. */
  lemma {:induction false} FrontBackKeys(ecs: seq<nat>)
    requires EcsOk(ecs)
    ensures KeysBelow(TwoDataWrites(ecs) + OneDataWrites(ecs) + DataCheckWrites(ecs), 1024)
    ensures KeysBelow(OneCheckWrites() + TwoCheckWrites(), 1024)
  {
    TwoDataKeys(ecs);
    DataCheckKeys(ecs);
    OneCheckKeys();
    TwoCheckKeys();
    KeysBelowConcat(TwoDataWrites(ecs), OneDataWrites(ecs), 1024);
    KeysBelowConcat(TwoDataWrites(ecs) + OneDataWrites(ecs), DataCheckWrites(ecs), 1024);
    KeysBelowConcat(OneCheckWrites(), TwoCheckWrites(), 1024);
  }

  lemma {:induction false} TableWritesKeys(ecs: seq<nat>)
    requires EcsOk(ecs)
    ensures KeysBelow(TableWrites(ecs), 1024)
  {
    TwoDataKeys(ecs);
    DataCheckKeys(ecs);
    OneCheckKeys();
    TwoCheckKeys();
    var w1, w2, w3, w4, w5 := TwoDataWrites(ecs), OneDataWrites(ecs), DataCheckWrites(ecs), OneCheckWrites(), TwoCheckWrites();
    KeysBelowConcat(w1, w2, 1024);
    KeysBelowConcat(w1 + w2, w3, 1024);
    KeysBelowConcat(w1 + w2 + w3, w4, 1024);
    KeysBelowConcat(w1 + w2 + w3 + w4, w5, 1024);
  }

  /** The 1024 entries setupecc computes, starting from the zeroed table. */
  function BchTable(ecs: seq<nat>): (r: seq<nat>)
    requires EcsOk(ecs)
    ensures |r| == 1024
  {
    TableWritesKeys(ecs);
    Apply(seq(1024, _ => 0), TableWrites(ecs))
  }

  // ---------------------------------------------------------------------
  // Facts about Apply
  // ---------------------------------------------------------------------

  lemma {:induction false} ApplyConcat(table: seq<nat>, ws1: seq<Write>, ws2: seq<Write>)
    requires KeysBelow(ws1, |table|) && KeysBelow(ws2, |table|)
    ensures KeysBelow(ws1 + ws2, |table|)
    ensures Apply(table, ws1 + ws2) == Apply(Apply(table, ws1), ws2)
    decreases |ws2|
  {
    var ws := ws1 + ws2;
    assert KeysBelow(ws, |table|) by {
      forall t | 0 <= t < |ws| && ws[t].Write? ensures ws[t].key < |table| {
        if t >= |ws1| { assert ws[t] == ws2[t - |ws1|]; }
      }
    }
    if ws2 != [] {
      assert ws[..|ws| - 1] == ws1 + ws2[..|ws2| - 1];
      ApplyConcat(table, ws1, ws2[..|ws2| - 1]);
    } else {
      assert ws == ws1;
    }
  }

  /** An entry no write touches keeps its value. */
  lemma {:induction false} ApplyUntouched(table: seq<nat>, ws: seq<Write>, k: nat)
    requires KeysBelow(ws, |table|) && k < |table|
    requires forall t :: 0 <= t < |ws| && ws[t].Write? ==> ws[t].key != k
    ensures Apply(table, ws)[k] == table[k]
    decreases |ws|
  {
    if ws != [] {
      ApplyUntouched(table, ws[..|ws| - 1], k);
    }
  }

  /** An entry written at least once, always with the same value, ends with that value. */
  lemma {:induction false} ApplyUniform(table: seq<nat>, ws: seq<Write>, k: nat, v: nat, t0: nat)
    requires KeysBelow(ws, |table|) && k < |table|
    requires t0 < |ws| && ws[t0] == Write(k, v)
    requires forall t :: 0 <= t < |ws| && ws[t].Write? && ws[t].key == k ==> ws[t].value == v
    ensures Apply(table, ws)[k] == v
    decreases |ws|
  {
    var last := ws[|ws| - 1];
    if !(last.Write? && last.key == k) {
      ApplyUniform(table, ws[..|ws| - 1], k, v, t0);
    }
  }

  /** The last write to an entry decides its value. */
  lemma {:induction false} ApplyLast(table: seq<nat>, ws: seq<Write>, k: nat, v: nat, t0: nat)
    requires KeysBelow(ws, |table|) && k < |table|
    requires t0 < |ws| && ws[t0] == Write(k, v)
    requires forall t :: t0 < t < |ws| && ws[t].Write? ==> ws[t].key != k
    ensures Apply(table, ws)[k] == v
    decreases |ws|
  {
    if t0 < |ws| - 1 {
      ApplyLast(table, ws[..|ws| - 1], k, v, t0);
    }
  }

  /** Writing only well-formed entries into a well-formed table keeps it well-formed. */
  lemma {:induction false} ApplyEntriesOk(table: seq<nat>, ws: seq<Write>)
    requires KeysBelow(ws, |table|)
    requires forall k :: 0 <= k < |table| ==> EntryOk(table[k])
    requires forall t :: 0 <= t < |ws| && ws[t].Write? ==> EntryOk(ws[t].value)
    ensures forall k :: 0 <= k < |table| ==> EntryOk(Apply(table, ws)[k])
    decreases |ws|
  {
    if ws != [] {
      ApplyEntriesOk(table, ws[..|ws| - 1]);
    }
  }

  /** The table after the first m writes of ws: the state of bch[] part-way through a setupecc loop. */
  function ApplyPrefix(table: seq<nat>, ws: seq<Write>, m: nat): (r: seq<nat>)
    requires KeysBelow(ws, |table|) && m <= |ws|
    ensures |r| == |table|
  {
    assert KeysBelow(ws[..m], |table|) by {
      forall t | 0 <= t < m && ws[..m][t].Write? ensures ws[..m][t].key < |table| {
        assert ws[..m][t] == ws[t];
      }
    }
    Apply(table, ws[..m])
  }

  /** One more write: the entry it names takes its value, or nothing happens for a Skip. */
  lemma {:induction false} ApplyPrefixStep(table: seq<nat>, ws: seq<Write>, m: nat)
    requires KeysBelow(ws, |table|) && m < |ws|
    ensures ws[m].Skip? ==> ApplyPrefix(table, ws, m + 1) == ApplyPrefix(table, ws, m)
    ensures ws[m].Write? ==> ApplyPrefix(table, ws, m + 1) == ApplyPrefix(table, ws, m)[ws[m].key := ws[m].value]
  {
    assert ws[..m + 1][..m] == ws[..m];
    assert ws[..m + 1][m] == ws[m];
  }

  lemma {:induction false} ApplyPrefixAll(table: seq<nat>, ws: seq<Write>)
    requires KeysBelow(ws, |table|)
    ensures ApplyPrefix(table, ws, |ws|) == Apply(table, ws)
  {
    assert ws[..|ws|] == ws;
  }

  /** The position t = n * w + i of a double loop's write, with i the inner index. */
  lemma {:induction false} LoopIndex(n: nat, i: nat, w: nat)
    requires i < w
    ensures (n * w + i) / w == n && (n * w + i) % w == i
  {
    ModUnique(n * w + i, w, n, i);
  }

  /** Write n * 10 + i of the last double loop: nothing on the diagonal, two check bits elsewhere. */
  lemma {:induction false} TwoCheckAt(n: nat, i: nat)
    requires n < 10 && i < 10
    ensures TwoCheckWrites()[n * 10 + i] == if n == i then Skip else Write(Xor(Pow2(n), Pow2(i)), 0x3ff + 0x2000)
  {
    LoopIndex(n, i, 10);
  }

  // ---------------------------------------------------------------------
  // What the finished table holds
  // ---------------------------------------------------------------------

  /** Every value written is a well-formed entry. */
  predicate ValuesOk(ws: seq<Write>)
  {
    forall t :: 0 <= t < |ws| && ws[t].Write? ==> EntryOk(ws[t].value)
  }

  lemma {:induction false} ValuesOkConcat(ws1: seq<Write>, ws2: seq<Write>)
    requires ValuesOk(ws1) && ValuesOk(ws2)
    ensures ValuesOk(ws1 + ws2)
  {
    var ws := ws1 + ws2;
    forall t | 0 <= t < |ws| && ws[t].Write? ensures EntryOk(ws[t].value) {
      if t >= |ws1| { assert ws[t] == ws2[t - |ws1|]; }
    }
  }

  /** An entry built from a count and two position fields is well-formed. */
  lemma {:induction false} EntryShape(count: nat, hi: nat, lo: nat)
    requires 1 <= count <= 2 && PositionOk(hi) && PositionOk(lo)
    ensures CorrectionOk(count * 4096 + hi * 32 + lo)
  {
    var v := count * 4096 + hi * 32 + lo;
    ModUnique(v, 32, count * 128 + hi, lo);
    ModUnique(count * 128 + hi, 32, count * 4, hi);
    ModUnique(v, 4096, count, hi * 32 + lo);
  }

  lemma {:induction false} TwoDataValuesOk(ecs: seq<nat>)
    requires EcsOk(ecs)
    ensures ValuesOk(TwoDataWrites(ecs))
  {
    var ws := TwoDataWrites(ecs);
    forall t | 0 <= t < |ws| ensures EntryOk(ws[t].value) {
      EntryShape(2, t % 21, t / 21);
      assert ws[t].value == 2 * 4096 + (t % 21) * 32 + t / 21;
    }
  }

  lemma {:induction false} OneDataValuesOk(ecs: seq<nat>)
    requires EcsOk(ecs)
    ensures ValuesOk(OneDataWrites(ecs))
  {
    var ws := OneDataWrites(ecs);
    forall t | 0 <= t < |ws| ensures EntryOk(ws[t].value) {
      EntryShape(1, NO_BIT, t);
    }
  }

  lemma {:induction false} DataCheckValuesOk(ecs: seq<nat>)
    requires EcsOk(ecs)
    ensures ValuesOk(DataCheckWrites(ecs))
  {
    var ws := DataCheckWrites(ecs);
    forall t | 0 <= t < |ws| ensures EntryOk(ws[t].value) {
      EntryShape(2, NO_BIT, t / 10);
    }
  }

  lemma {:induction false} CheckValuesOk()
    ensures ValuesOk(OneCheckWrites()) && ValuesOk(TwoCheckWrites())
  {
    EntryShape(1, NO_BIT, NO_BIT);
    EntryShape(2, NO_BIT, NO_BIT);
  }

  lemma {:induction false} TableValuesOk(ecs: seq<nat>)
    requires EcsOk(ecs)
    ensures ValuesOk(TableWrites(ecs))
  {
    var w1, w2, w3, w4, w5 := TwoDataWrites(ecs), OneDataWrites(ecs), DataCheckWrites(ecs), OneCheckWrites(), TwoCheckWrites();
    TwoDataValuesOk(ecs);
    OneDataValuesOk(ecs);
    DataCheckValuesOk(ecs);
    CheckValuesOk();
    ValuesOkConcat(w1, w2);
    ValuesOkConcat(w1 + w2, w3);
    ValuesOkConcat(w1 + w2 + w3, w4);
    ValuesOkConcat(w1 + w2 + w3 + w4, w5);
  }

  /** Every entry is empty or names count 1 or 2 and positions <= 20 or the sentinel. */
  lemma {:induction false} BchTableEntriesOk(ecs: seq<nat>)
    requires EcsOk(ecs)
    ensures forall k :: 0 <= k < 1024 ==> EntryOk(BchTable(ecs)[k])
  {
    TableWritesKeys(ecs);
    TableValuesOk(ecs);
    ApplyEntriesOk(seq(1024, _ => 0), TableWrites(ecs));
  }

  /** A single error in check bit n is recorded as "count 1, no data bit to flip". */
  lemma {:induction false} BchTableOneCheck(ecs: seq<nat>, n: nat)
    requires EcsOk(ecs) && n < 10
    ensures Pow2(n) < 1024 && BchTable(ecs)[Pow2(n)] == 0x13ff
  {
    Pow2Strict(n, 10);
    assert Pow2(10) == 1024;
    TableWritesKeys(ecs);
    FrontBackKeys(ecs);
    var front := TwoDataWrites(ecs) + OneDataWrites(ecs) + DataCheckWrites(ecs);
    var back := OneCheckWrites() + TwoCheckWrites();
    assert TableWrites(ecs) == front + back;
    var zero: seq<nat> := seq(1024, _ => 0);
    ApplyConcat(zero, front, back);
    OneCheckOnly(n);
    assert back[n] == Write(Pow2(n), 0x13ff);
    ApplyUniform(Apply(zero, front), back, Pow2(n), 0x13ff, n);
  }

  /** The last two loops of setupecc write only 0x13ff at 1 << n. */
  lemma {:induction false} OneCheckOnly(n: nat)
    requires n < 10
    ensures var back := OneCheckWrites() + TwoCheckWrites();
            forall t :: 0 <= t < |back| && back[t].Write? && back[t].key == Pow2(n) ==> back[t].value == 0x13ff
  {
    var back := OneCheckWrites() + TwoCheckWrites();
    forall t | 0 <= t < |back| && back[t].Write? && back[t].key == Pow2(n)
      ensures back[t].value == 0x13ff
    {
      if t >= 10 {
        var u := t - 10;
        assert back[t] == TwoCheckWrites()[u];
        TwoBitsNotPower(u / 10, u % 10, n);
      }
    }
  }

  /** Errors in two distinct check bits are recorded as "count 2, no data bit to flip". */
  lemma {:induction false} BchTableTwoCheck(ecs: seq<nat>, n: nat, i: nat)
    requires EcsOk(ecs) && n < 10 && i < 10 && n != i
    ensures Xor(Pow2(n), Pow2(i)) < 1024 && BchTable(ecs)[Xor(Pow2(n), Pow2(i))] == 0x23ff
  {
    TableWritesKeys(ecs);
    var k := Xor(Pow2(n), Pow2(i));
    var front := TwoDataWrites(ecs) + OneDataWrites(ecs) + DataCheckWrites(ecs) + OneCheckWrites();
    var back := TwoCheckWrites();
    assert TableWrites(ecs) == front + back;
    assert KeysBelow(front, 1024) && KeysBelow(back, 1024) by {
      forall t | 0 <= t < |front| && front[t].Write? ensures front[t].key < 1024 {
        assert front[t] == TableWrites(ecs)[t];
      }
      forall t | 0 <= t < |back| && back[t].Write? ensures back[t].key < 1024 {
        assert back[t] == TableWrites(ecs)[t + |front|];
      }
    }
    var t0 := n * 10 + i;
    assert t0 / 10 == n && t0 % 10 == i;
    assert back[t0] == Write(k, 0x23ff);
    var zero: seq<nat> := seq(1024, _ => 0);
    ApplyConcat(zero, front, back);
    ApplyUniform(Apply(zero, front), back, k, 0x23ff, t0);
  }

  // ---------------------------------------------------------------------
  // The corrector (flex.c:162-222)
  // ---------------------------------------------------------------------

  /** XOR of ecs[i] over the set data bits among ob[0..n-1] (the first loop of ecd). */
  function EccOf(ecs: seq<nat>, ob: seq<Bit>, n: nat): (r: nat)
    requires EcsOk(ecs) && n <= 21 && n <= |ob|
    ensures r < 1024
  {
    if n == 0 then 0
    else
      var prev := EccOf(ecs, ob, n - 1);
      if ob[n - 1] == 1 then
        assert Pow2(10) == 1024;
        XorBound(prev, ecs[n - 1], 10);
        Xor(prev, ecs[n - 1])
      else prev
  }

  /** Parity of the set data bits among ob[0..n-1]. */
  function ParityOf(ob: seq<Bit>, n: nat): Bit
    requires n <= |ob|
  {
    if n == 0 then 0
    else if ob[n - 1] == 1 then 1 - ParityOf(ob, n - 1)
    else ParityOf(ob, n - 1)
  }

  /** The check bits ob[21..20+n] read as a number, ob[21] most significant (ecd's second loop). */
  function AccOf(ob: seq<Bit>, n: nat): (r: nat)
    requires n <= 10 && |ob| == 32
    ensures r < Pow2(n)
  {
    if n == 0 then 0 else 2 * AccOf(ob, n - 1) + ob[20 + n]
  }

  function Syndrome(ecs: seq<nat>, ob: seq<Bit>): (r: nat)
    requires EcsOk(ecs) && |ob| == 32
    ensures r < 1024
  {
    assert Pow2(10) == 1024;
    XorBound(EccOf(ecs, ob, 21), AccOf(ob, 10), 10);
    Xor(EccOf(ecs, ob, 21), AccOf(ob, 10))
  }

  /** Result of ecd: the error count it returns and the codeword it leaves in ob. */
  datatype Decoded = Decoded(errors: nat, word: seq<Bit>)

  function Flip(ob: seq<Bit>, p: nat): (r: seq<Bit>)
    requires p < |ob|
  {
    ob[p := 1 - ob[p]]
  }

  /** The overall parity test and the saturation of the count at 3. */
  function Finish(ecc: nat, parity: Bit, errors: nat, ob: seq<Bit>): (r: Decoded)
    requires |ob| == 32 && errors <= 3
    ensures r.word == ob && r.errors <= 3
    ensures r.errors >= errors
  {
    var p := (parity + PopCount(ecc, 10)) % 2;
    var e := if p != ob[31] then errors + 1 else errors;
    Decoded(if e > 3 then 3 else e, ob)
  }

  /** ecd's state after the table lookup and the flips, before the overall parity test. */
  datatype Repaired = Repaired(ecc: nat, parity: Bit, errors: nat, word: seq<Bit>)

  /**
   * The correctable-syndrome branch of ecd: flip the data bits the entry e
   * names, keeping ecc in step, and take the count from the entry, flipping
   * the parity for a count of 1.
   */
  function Lookup(ecs: seq<nat>, ob: seq<Bit>, ecc: nat, parity: Bit, e: nat): (r: Repaired)
    requires EcsOk(ecs) && |ob| == 32 && CorrectionOk(e)
    ensures |r.word| == 32 && r.errors == e / 4096 && 1 <= r.errors <= 2
    ensures forall j :: 0 <= j < 32 && j != e % 32 && j != (e / 32) % 32 ==> r.word[j] == ob[j]
    ensures r.parity == if r.errors == 1 then 1 - parity else parity
  {
    var b1, b2 := e % 32, (e / 32) % 32;
    var ob1 := if b2 != NO_BIT then Flip(ob, b2) else ob;
    var ecc1 := if b2 != NO_BIT then Xor(ecc, ecs[b2]) else ecc;
    var ob2 := if b1 != NO_BIT then Flip(ob1, b1) else ob1;
    var ecc2 := if b1 != NO_BIT then Xor(ecc1, ecs[b1]) else ecc1;
    var errors := e / 4096;
    Repaired(ecc2, if errors == 1 then 1 - parity else parity, errors, ob2)
  }

  /**
   * A zero syndrome leaves everything as it is; a syndrome the table knows
   * is handed to Lookup; any other syndrome is uncorrectable (count 3).
   */
  function Repair(ecs: seq<nat>, bch: seq<nat>, ob: seq<Bit>): (r: Repaired)
    requires EcsOk(ecs) && TableOk(bch) && |ob| == 32
    ensures |r.word| == 32 && r.errors <= 3
    ensures forall j :: 21 <= j < 32 ==> r.word[j] == ob[j]
    ensures Syndrome(ecs, ob) == 0 <==> r.errors == 0
    ensures Syndrome(ecs, ob) == 0 ==> r.word == ob
    ensures Syndrome(ecs, ob) != 0 && bch[Syndrome(ecs, ob)] == 0 ==> r.errors == 3 && r.word == ob
  {
    var ecc := EccOf(ecs, ob, 21);
    var synd := Syndrome(ecs, ob);
    var parity := ParityOf(ob, 21);
    if synd == 0 then
      Repaired(ecc, parity, 0, ob)
    else if bch[synd] != 0 then
      Lookup(ecs, ob, ecc, parity, bch[synd])
    else
      Repaired(ecc, parity, 3, ob)
  }

  /** What ecd does to a codeword, given the syndrome constants and the correction table. */
  function Correct(ecs: seq<nat>, bch: seq<nat>, ob: seq<Bit>): (r: Decoded)
    requires EcsOk(ecs) && TableOk(bch) && |ob| == 32
    ensures r.errors <= 3 && |r.word| == 32
    ensures forall j :: 21 <= j < 32 ==> r.word[j] == ob[j]
    ensures Syndrome(ecs, ob) == 0 ==> r.word == ob
    ensures Syndrome(ecs, ob) != 0 && bch[Syndrome(ecs, ob)] == 0 ==> r.errors == 3
    ensures r.errors == 0 ==> Syndrome(ecs, ob) == 0 && r.word == ob
  {
    var rep := Repair(ecs, bch, ob);
    Finish(rep.ecc, rep.parity, rep.errors, rep.word)
  }

  /** A codeword reported error-free is left as it was, and correcting it again reports 0 again. */
  lemma {:induction false} CorrectIdempotent(ecs: seq<nat>, bch: seq<nat>, ob: seq<Bit>)
    requires EcsOk(ecs) && TableOk(bch) && |ob| == 32
    requires Correct(ecs, bch, ob).errors == 0
    ensures Correct(ecs, bch, Correct(ecs, bch, ob).word) == Correct(ecs, bch, ob)
  {
  }
}
