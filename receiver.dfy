/**
 * The value-level meaning of flex_rxbit: the 64-bit history of received
 * bits, sync and end-of-transmission detection, the speed table, the
 * 89-bit header countdown with the frame-information codeword, and the
 * collection of eleven 256-bit blocks per frame.
 */
module FlexReceiver {
  import opened Bits
  import opened Ecc
  import opened Words
  import opened FlexState
  import opened FlexFrames

  const SYNC1: nat := 0xA6C6
  const SYNC2: nat := 0xAAAA
  const EOT1: nat := 0xAAAA
  const EOT2: nat := 0xFFFF
  const ALL_ONES: nat := 0xFFFF

  /** The first sync word of each speed/level variant (`syncs[8]`); speed bit 0 selects 3200 bps, bit 1 four levels. */
  const SYNCS: seq<nat> := [0x870C, 0x7B18, 0xB068, 0xDEA0, 0, 0, 0, 0x4C7C]

  /** The value flex_rxbit stores for an input symbol: 1 exactly when input < 2. */
  function InputBit(input: int): (b: Bit)
    ensures b == 1 <==> input < 2
  {
    if input < 2 then 1 else 0
  }

  /** Number of differing bits between two 16-bit patterns, as nOnes(a ^ b) counts them. */
  function Distance(a: nat, b: nat): (n: nat)
    ensures n <= 16
  {
    PopCount(Xor(a, b), 16)
  }

  lemma {:induction false} DistanceZero(a: nat, b: nat)
    requires a < 0x10000 && b < 0x10000
    ensures Distance(a, b) == 0 <==> a == b
  {
    var x := Xor(a, b);
    Xor16(a, b);
    Pow2Values();
    ModUnique(x, Pow2(16), 0, x);
    PopCountZero(x, 16);
    XorZeroIff(a, b);
  }

  /** Sixteen differing bits means one pattern is the complement of the other. */
  lemma {:induction false} DistanceFull(a: nat, b: nat)
    requires a < 0x10000 && b < 0x10000
    ensures Distance(a, b) == 16 <==> b == ALL_ONES - a
  {
    var x := Xor(a, b);
    Xor16(a, b);
    Pow2Values();
    ModUnique(x, Pow2(16), 0, x);
    PopCountFull(x, 16);
    XorAllOnes(a, 16);
    assert Xor(a, ALL_ONES) == ALL_ONES - a;
    if x == ALL_ONES {
      XorSelfInverse(a, b);
      assert b == Xor(a, ALL_ONES);
    }
    if b == ALL_ONES - a {
      XorSelfInverse(a, ALL_ONES);
      assert x == Xor(a, Xor(a, ALL_ONES));
    }
  }

  // ---------------------------------------------------------------------
  // The bit history (flex.c:842-853)
  // ---------------------------------------------------------------------

  /** Bit 15 of a 16-bit register (`x & 0x8000`). */
  function TopBit(x: nat): (t: Bit)
    requires x < 0x10000
    ensures t == 1 <==> x >= 0x8000
  {
    x / 0x8000
  }

  /** A 16-bit register shifted left by one, with `carry` entering at bit 0. */
  function Shift16(x: nat, carry: Bit): (r: nat)
    requires x < 0x10000
    ensures r < 0x10000
  {
    (x * 2) % 0x10000 + carry
  }

  /** iBitBuffer[0..3] after one shift: each register takes the top bit of the next, the last takes the new bit. */
  function ShiftHistory(b: seq<nat>, input: int): (r: seq<nat>)
    requires BitBufferOk(b)
    ensures BitBufferOk(r)
  {
    [Shift16(b[0], TopBit(b[1])), Shift16(b[1], TopBit(b[2])),
     Shift16(b[2], TopBit(b[3])), Shift16(b[3], InputBit(input))]
  }

  /** Four 16-bit digits read as one 64-bit number, the first most significant. */
  function Combine(x0: nat, x1: nat, x2: nat, x3: nat): (h: nat)
    requires x0 < 0x10000 && x1 < 0x10000 && x2 < 0x10000 && x3 < 0x10000
    ensures h < 0x1_0000_0000_0000_0000
  {
    ((x0 * 0x10000 + x1) * 0x10000 + x2) * 0x10000 + x3
  }

  /** The four registers read as one 64-bit number, iBitBuffer[0] most significant. */
  function History(b: seq<nat>): (h: nat)
    requires BitBufferOk(b)
    ensures h < 0x1_0000_0000_0000_0000
  {
    Combine(b[0], b[1], b[2], b[3])
  }

  lemma {:induction false} Shift16Split(x: nat, c: Bit)
    requires x < 0x10000
    ensures Shift16(x, c) == 2 * x - 0x10000 * TopBit(x) + c
  {
    ModUnique(x * 2, 0x10000, TopBit(x), x * 2 - 0x10000 * TopBit(x));
  }

  /** Four shifted 16-bit digits shift their 64-bit combination; every carry but the outermost cancels. */
  lemma {:induction false} ShiftedDigits(b0: int, b1: int, b2: int, b3: int, t0: int, t1: int, t2: int, t3: int, c: int,
                      r0: int, r1: int, r2: int, r3: int)
    requires r0 == 2 * b0 - 0x10000 * t0 + t1 && r1 == 2 * b1 - 0x10000 * t1 + t2
    requires r2 == 2 * b2 - 0x10000 * t2 + t3 && r3 == 2 * b3 - 0x10000 * t3 + c
    ensures ((r0 * 0x10000 + r1) * 0x10000 + r2) * 0x10000 + r3
         == 2 * (((b0 * 0x10000 + b1) * 0x10000 + b2) * 0x10000 + b3) - 0x1_0000_0000_0000_0000 * t0 + c
  {
  }

  /** The shift on the four digits doubles their 64-bit value, adds the new bit and drops the oldest one. */
  lemma {:induction false} CombineShift(x0: nat, x1: nat, x2: nat, x3: nat, c: Bit)
    requires x0 < 0x10000 && x1 < 0x10000 && x2 < 0x10000 && x3 < 0x10000
    ensures Combine(Shift16(x0, TopBit(x1)), Shift16(x1, TopBit(x2)), Shift16(x2, TopBit(x3)), Shift16(x3, c))
         == 2 * Combine(x0, x1, x2, x3) + c - 0x1_0000_0000_0000_0000 * TopBit(x0)
  {
    var t0: int, t1: int, t2: int, t3: int := TopBit(x0), TopBit(x1), TopBit(x2), TopBit(x3);
    Shift16Split(x0, t1);
    Shift16Split(x1, t2);
    Shift16Split(x2, t3);
    Shift16Split(x3, c);
    ShiftedDigits(x0, x1, x2, x3, t0, t1, t2, t3, c, Shift16(x0, t1), Shift16(x1, t2), Shift16(x2, t3), Shift16(x3, c));
  }

  /**
   * One received bit enters the 64-bit history at bit 0 and the oldest bit
   * (bit 15 of iBitBuffer[0]) leaves it: the history is doubled modulo 2^64.
   */
  lemma {:induction false} HistoryShift(b: seq<nat>, input: int)
    requires BitBufferOk(b)
    ensures History(ShiftHistory(b, input)) == 2 * History(b) + InputBit(input) - 0x1_0000_0000_0000_0000 * TopBit(b[0])
    ensures History(ShiftHistory(b, input)) == (2 * History(b) + InputBit(input)) % 0x1_0000_0000_0000_0000
  {
    CombineShift(b[0], b[1], b[2], b[3], InputBit(input));
    Mod64(2 * History(b) + InputBit(input), TopBit(b[0]), History(ShiftHistory(b, input)));
  }

  lemma {:induction false} Mod64(x: int, q: int, m: int)
    requires 0 <= m < 0x1_0000_0000_0000_0000 && x == 0x1_0000_0000_0000_0000 * q + m
    ensures x % 0x1_0000_0000_0000_0000 == m
  {
  }

  // ---------------------------------------------------------------------
  // Sync and speed (flex.c:855-904)
  // ---------------------------------------------------------------------

  /** The speed variant at index s matches the outer sync words. */
  predicate SpeedMatches(b: seq<nat>, s: int)
    requires BitBufferOk(b) && 0 <= s < 8
  {
    Distance(b[0], SYNCS[s]) + Distance(b[3], ALL_ONES - SYNCS[s]) < 2
  }

  /** The speed loop from variant s on: the index of the first matching variant, or 8 when none matches. */
  function FirstSpeed(b: seq<nat>, s: int): (k: int)
    requires BitBufferOk(b) && 0 <= s <= 8
    ensures s <= k <= 8
    ensures k < 8 ==> SpeedMatches(b, k)
    ensures forall t :: s <= t < k ==> !SpeedMatches(b, t)
    decreases 8 - s
  {
    if s == 8 then 8
    else if SpeedMatches(b, s) then s
    else
      var k := FirstSpeed(b, s + 1);
      FirstSpeedSkips(b, s, k);
      k
  }

  /** A variant that does not match extends the run of non-matching variants before k by one. */
  lemma FirstSpeedSkips(b: seq<nat>, s: int, k: int)
    requires BitBufferOk(b) && 0 <= s < k <= 8 && !SpeedMatches(b, s)
    requires forall t :: s + 1 <= t < k ==> !SpeedMatches(b, t)
    ensures forall t :: s <= t < k ==> !SpeedMatches(b, t)
  {
  }

  /** The speed loop's effect: the first match sets the timer, speed and level and breaks out. */
  function SpeedSearch(d: Snap): (r: Snap)
    requires SnapOk(d)
    ensures SnapOk(r)
  {
    var k := FirstSpeed(d.bitBuffer, 0);
    if k == 8 then d
    else
      var sps, level := if k % 2 == 1 then 3200 else 1600, if (k / 2) % 2 == 1 then 4 else 2;
      SnapOkSpeed(d, sps, level);
      d.(flexTimer := 20, sps := sps, level := level)
  }

  lemma {:induction false} SnapOkSpeed(d: Snap, sps: int, level: int)
    requires SnapOk(d) && (sps == 1600 || sps == 3200) && (level == 2 || level == 4)
    ensures SnapOk(d.(flexTimer := 20, sps := sps, level := level))
  {
  }

  // ---------------------------------------------------------------------
  // The header countdown (flex.c:906-944)
  // ---------------------------------------------------------------------

  /** Bits ob[lo..lo+n-1] read as a number, ob[lo] least significant. */
  function Field(ob: seq<Bit>, lo: nat, n: nat): (v: nat)
    requires lo + n <= |ob|
    ensures v < Pow2(n)
  {
    if n == 0 then 0 else Field(ob, lo, n - 1) + ob[lo + n - 1] * Pow2(n - 1)
  }

  /** One step of the header decode's register `hd` of width w: `hd >>= 1`, then bit w-1 set when the bit is 1. */
  function HdStep(hd: nat, b: Bit, w: nat): nat
    requires 1 <= w
  {
    if b == 1 then Xor(hd / 2, Pow2(w - 1)) else hd / 2
  }

  /**
   * After t of the w steps over ob[lo..], started from h0 < 2^w, the register
   * holds the t bits read so far in its top t positions, above what is left
   * of h0; after all w steps it holds exactly Field(ob, lo, w).
   */
  lemma {:induction false} HdRegisterStep(ob: seq<Bit>, lo: nat, t: nat, w: nat, h0: nat, hd: nat)
    requires t < w && lo + t < |ob| && h0 < Pow2(w)
    requires hd == Field(ob, lo, t) * Pow2(w - t) + h0 / Pow2(t)
    ensures HdStep(hd, ob[lo + t], w) == Field(ob, lo, t + 1) * Pow2(w - t - 1) + h0 / Pow2(t + 1)
  {
    var f, p1, pt, top := Field(ob, lo, t), Pow2(w - t - 1), Pow2(t), Pow2(w - 1);
    var b := ob[lo + t];
    assert Pow2(w - t) == 2 * p1;
    assert Pow2(t + 1) == 2 * pt;
    assert (2 * pt) * p1 == Pow2(w) by {
      Pow2Add(t + 1, w - t - 1);
      assert t + 1 + (w - t - 1) == w;
    }
    assert pt * p1 == top by {
      Pow2Add(t, w - t - 1);
      assert t + (w - t - 1) == w - 1;
    }
    HdHalf(f, p1, pt, h0, hd);
    var next := Field(ob, lo, t + 1);
    assert next == f + b * pt;
    FieldScaled(f, b, pt, p1);
    assert h0 / Pow2(t + 1) == h0 / (2 * pt);
    assert next * p1 == f * p1 + b * top;
    if b == 1 {
      XorHighBit(hd / 2, w - 1);
      assert HdStep(hd, b, w) == hd / 2 + top;
    } else {
      assert HdStep(hd, b, w) == hd / 2;
    }
    assert HdStep(hd, b, w) == next * p1 + h0 / Pow2(t + 1);
  }

  /** The arithmetic of one step: halving splits the register, and the halves stay below 2^(w-1). */
  lemma {:induction false} HdHalf(f: nat, p1: nat, pt: nat, h0: nat, hd: nat)
    requires p1 >= 1 && pt >= 1 && f < pt && h0 < (2 * pt) * p1
    requires hd == f * (2 * p1) + h0 / pt
    ensures hd / 2 == f * p1 + h0 / (2 * pt)
    ensures hd / 2 < pt * p1
  {
    var q := h0 / pt;
    assert hd == 2 * (f * p1) + q;
    assert hd / 2 == f * p1 + q / 2;
    DivDiv(h0, pt, 2);
    assert pt * 2 == 2 * pt;
    DivBelow(h0, 2 * pt, p1);
    MulBelow(p1, f, pt);
    assert p1 * f == f * p1 && p1 * pt == pt * p1;
  }

  lemma {:induction false} FieldScaled(f: nat, b: Bit, pt: nat, p1: nat)
    ensures (f + b * pt) * p1 == f * p1 + b * (pt * p1)
  {
  }

  lemma {:induction false} DivBelow(x: nat, a: nat, b: nat)
    requires a > 0 && x < a * b
    ensures x / a < b
  {
    assert a * (x / a) <= x;
  }


  /** ecd on the captured frame-information word; cycle and frame are taken only when it reports fewer than 2 errors. */
  function HeaderDecode(d: Snap): (r: Snap)
    requires SnapOk(d)
    ensures SnapOk(r) && r.ob == Correct(d.ecs, d.bch, d.ob).word
    ensures Correct(d.ecs, d.bch, d.ob).errors < 2 ==>
              r.currentCycle == r.cy && 0 <= r.cy <= 15 && r.currentFrame == r.fr && 0 <= r.fr <= 127
    ensures Correct(d.ecs, d.bch, d.ob).errors >= 2 ==> r == d.(ob := r.ob)
    ensures r == d.(ob := r.ob, cy := r.cy, currentCycle := r.currentCycle, fr := r.fr, currentFrame := r.currentFrame)
  {
    var dec := Correct(d.ecs, d.bch, d.ob);
    var d1 := d.(ob := dec.word);
    if dec.errors < 2 then
      var cy := 15 - Field(dec.word, 4, 4);
      var fr := 127 - Field(dec.word, 8, 7);
      d1.(cy := cy, currentCycle := cy, fr := fr, currentFrame := fr)
    else d1
  }

  /** The countdown step: capture a header bit, decode the header, or start collecting blocks. */
  function Countdown(d: Snap, input: int): (r: Snap)
    requires SnapOk(d)
    ensures SnapOk(r)
    ensures r == d.(flexBlockCount := r.flexBlockCount, ob := r.ob, cy := r.cy, currentCycle := r.currentCycle,
                    fr := r.fr, currentFrame := r.currentFrame, flexBlock := r.flexBlock, bct := r.bct, hbit := r.hbit)
    ensures r.flexBlockCount == if d.flexBlockCount > 0 then d.flexBlockCount - 1 else 0
  {
    if d.flexBlockCount > 0 then
      var c := d.flexBlockCount - 1;
      var d1 := d.(flexBlockCount := c);
      var d2 := if 39 < c < 72 then d1.(ob := d1.ob[71 - c := InputBit(input)])
                else if c == 39 then HeaderDecode(d1) else d1;
      if c == 0 then d2.(flexBlock := 11, bct := 0, hbit := 0) else d2
    else d
  }

  /** The end-of-transmission words sit in iBitBuffer[2..3]. */
  predicate EotSeen(b: seq<nat>)
    requires BitBufferOk(b)
  {
    Distance(b[2], EOT1) + Distance(b[3], EOT2) == 0
  }

  /** Hamming distance of the middle 32 bits to the sync pattern 0xA6C6AAAA. */
  function SyncDistance(b: seq<nat>): (n: nat)
    requires BitBufferOk(b)
    ensures n <= 32
  {
    Distance(b[1], SYNC1) + Distance(b[2], SYNC2)
  }

  /** The sync was received complemented, and so were iBitBuffer[0] and [3] relative to each other. */
  predicate InvertedSync(b: seq<nat>)
    requires BitBufferOk(b)
  {
    SyncDistance(b) == 32 && Xor(b[0], b[3]) % 0x10000 == ALL_ONES
  }

  function Invert03(b: seq<nat>): (r: seq<nat>)
    requires BitBufferOk(b)
    ensures BitBufferOk(r)
  {
    Xor16(b[0], ALL_ONES);
    Xor16(b[3], ALL_ONES);
    b[0 := Xor(b[0], ALL_ONES)][3 := Xor(b[3], ALL_ONES)]
  }

  /** flex_rxbit while no frame is being collected (iFlexBlock == 0). */
  function SyncStep(d: Snap, input: int): (r: Snap)
    requires SnapOk(d)
    ensures SnapOk(r)
  {
    if d.flexTimer != 0 && EotSeen(d.bitBuffer) then d.(flexTimer := 0)
    else SyncCheck(d, input)
  }

  /** The sync test: an accepted sync (straight or complemented) starts the header, anything else advances the countdown. */
  function SyncCheck(d: Snap, input: int): (r: Snap)
    requires SnapOk(d)
    ensures SnapOk(r)
  {
    var d2 := Aligned(d);
    if InvertedSync(d.bitBuffer) || SyncDistance(d.bitBuffer) < 2 then SyncFound(d2, input)
    else Countdown(d2, input)
  }

  /** The history with registers 0 and 3 complemented back when the sync arrived inverted. */
  function Aligned(d: Snap): (r: Snap)
    requires SnapOk(d)
    ensures SnapOk(r)
  {
    if InvertedSync(d.bitBuffer) then WithHistory(d, Invert03(d.bitBuffer)) else d
  }

  /** The history with new registers; nothing else changes. */
  function WithHistory(d: Snap, b: seq<nat>): (r: Snap)
    requires SnapOk(d) && BitBufferOk(b)
    ensures SnapOk(r) && r.bitBuffer == b && r == d.(bitBuffer := r.bitBuffer)
  {
    d.(bitBuffer := b)
  }

  /** Registers 0 and 3 complement each other within one bit (nh2 < 2). */
  predicate OuterWordsMatch(b: seq<nat>)
    requires BitBufferOk(b)
  {
    PopCount(Xor(Xor(b[0], b[3]), ALL_ONES), 16) < 2
  }

  /** An accepted sync arms the 89-bit countdown; the speed is looked up and the countdown advanced only when the outer words match. */
  function SyncFound(d: Snap, input: int): (r: Snap)
    requires SnapOk(d)
    ensures SnapOk(r)
  {
    var d3 := d.(flexBlockCount := 89);
    if OuterWordsMatch(d3.bitBuffer) then Countdown(SpeedSearch(d3), input) else d3
  }

  /** The symbol completes the block: bct is about to reach 256. */
  predicate BlockFull(d: Snap)
  {
    (d.sps == 1600 || d.hbit == 1) && d.bct == 255
  }

  /** Store a bit (every other one at 3200 bps) and advance the bit counter; a full block restarts it at 0. */
  function StoreBit(d: Snap, input: int): (r: Snap)
    requires SnapOk(d)
    ensures SnapOk(r)
    ensures r == d.(block := r.block, bct := r.bct, hbit := r.hbit)
  {
    var stored := d.sps == 1600 || d.hbit == 0;
    var block := if stored then d.block[d.bct := InputBit(input)] else d.block;
    var bct := if d.sps == 1600 || d.hbit == 1 then d.bct + 1 else d.bct;
    var hbit := if d.sps == 1600 then d.hbit else 1 - d.hbit;
    d.(block := block, bct := if bct == 256 then 0 else bct, hbit := hbit)
  }

  /** A full block goes to showblock as block 11 - iFlexBlock; the last one of the frame counts the frame. */
  function EndBlock(d: Snap): (r: Snap)
    requires SnapOk(d) && 1 <= d.flexBlock <= 11
    ensures SnapOk(r)
  {
    CountBlock(ShowBlock(d, 11 - d.flexBlock))
  }

  /** `iFlexBlock--`, and `iFrameCount++` when no block of the frame is left. */
  function CountBlock(d: Snap): (r: Snap)
    requires SnapOk(d) && 1 <= d.flexBlock <= 11
    ensures SnapOk(r)
  {
    var left := d.flexBlock - 1;
    var frames := if left == 0 then d.frameCount + 1 else d.frameCount;
    SnapOkCounters(d, left, frames);
    d.(flexBlock := left, frameCount := frames)
  }

  lemma {:induction false} SnapOkCounters(d: Snap, flexBlock: int, frameCount: int)
    requires SnapOk(d) && 0 <= flexBlock <= 11
    ensures SnapOk(d.(flexBlock := flexBlock, frameCount := frameCount))
  {
  }

  /** flex_rxbit while a frame is being collected. */
  function CollectStep(d: Snap, input: int): (r: Snap)
    requires SnapOk(d) && d.flexBlock != 0
    ensures SnapOk(r)
  {
    if BlockFull(d) then EndBlock(StoreBit(d, input)) else StoreBit(d, input)
  }

  /** flex_rxbit for one input symbol. */
  function RxBit(d: Snap, input: int): (r: Snap)
    requires SnapOk(d)
    ensures SnapOk(r)
  {
    var d1 := WithHistory(d, ShiftHistory(d.bitBuffer, input));
    if d1.flexBlock == 0 then SyncStep(d1, input) else CollectStep(d1, input)
  }

  /** flex_rxbit applied to each input symbol in turn. */
  function RxFold(d: Snap, inputs: seq<int>): (r: Snap)
    requires SnapOk(d)
    ensures SnapOk(r)
    decreases |inputs|
  {
    if inputs == [] then d else RxFold(RxBit(d, inputs[0]), inputs[1..])
  }

  lemma {:induction false} RxFoldNil(d: Snap)
    requires SnapOk(d)
    ensures RxFold(d, []) == d
  {
  }

  lemma {:induction false} RxFoldOne(d: Snap, input: int)
    requires SnapOk(d)
    ensures RxFold(d, [input]) == RxBit(d, input)
  {
    assert [input][1..] == [];
  }

  lemma {:induction false} RxFoldConcat(d: Snap, a: seq<int>, b: seq<int>)
    requires SnapOk(d)
    ensures RxFold(d, a + b) == RxFold(RxFold(d, a), b)
    decreases |a|
  {
    if a != [] {
      assert (a + b)[0] == a[0] && (a + b)[1..] == a[1..] + b;
      RxFoldConcat(RxBit(d, a[0]), a[1..], b);
    } else {
      assert a + b == b;
    }
  }

  // ---------------------------------------------------------------------
  // Properties of flex_rxbit
  // ---------------------------------------------------------------------

  /** The end-of-transmission test is an exact match of 0xAAAA 0xFFFF in iBitBuffer[2..3]. */
  lemma {:induction false} EotSeenIff(b: seq<nat>)
    requires BitBufferOk(b)
    ensures EotSeen(b) <==> b[2] == EOT1 && b[3] == EOT2
  {
    DistanceZero(b[2], EOT1);
    DistanceZero(b[3], EOT2);
  }

  /** If either sync word is off by two bits or more the sync is not accepted (unless it is complemented). */
  lemma {:induction false} SyncDistanceExact(b: seq<nat>)
    requires BitBufferOk(b)
    ensures SyncDistance(b) == 0 <==> b[1] == SYNC1 && b[2] == SYNC2
  {
    DistanceZero(b[1], SYNC1);
    DistanceZero(b[2], SYNC2);
  }

  /** A complemented sync: both middle registers are the exact complements of 0xA6C6 and 0xAAAA, and register 3 complements register 0. */
  lemma {:induction false} InvertedSyncIff(b: seq<nat>)
    requires BitBufferOk(b)
    ensures InvertedSync(b) <==> b[1] == ALL_ONES - SYNC1 && b[2] == ALL_ONES - SYNC2 && b[3] == ALL_ONES - b[0]
  {
    DistanceFull(b[1], SYNC1);
    DistanceFull(b[2], SYNC2);
    XorComm(b[1], SYNC1);
    XorComm(b[2], SYNC2);
    DistanceFull(SYNC1, b[1]);
    DistanceFull(SYNC2, b[2]);
    var x := Xor(b[0], b[3]);
    Xor16(b[0], b[3]);
    Pow2Values();
    ModUnique(x, 0x10000, 0, x);
    DistanceFull(b[0], b[3]);
    PopCountFull(x, 16);
  }

  /** After complementing registers 0 and 3 of an inverted sync, they are again each other's complement, so the nh2 test passes. */
  lemma {:induction false} InvertedSyncPasses(b: seq<nat>)
    requires BitBufferOk(b) && InvertedSync(b)
    ensures var c := Invert03(b); PopCount(Xor(Xor(c[0], c[3]), ALL_ONES), 16) == 0
  {
    InvertedSyncIff(b);
    var c := Invert03(b);
    Pow2Values();
    XorAllOnes(b[0], 16);
    XorAllOnes(b[3], 16);
    assert c[0] == ALL_ONES - b[0] && c[3] == b[0];
    XorComm(ALL_ONES - b[0], b[0]);
    XorSelfInverse(b[0], ALL_ONES);
    assert Xor(c[0], c[3]) == ALL_ONES;
    XorSelf(ALL_ONES);
    PopCountZero(0, 16);
  }

  /** A bit of the end-of-transmission pattern while the timer runs clears the timer and nothing else. */
  lemma {:induction false} EotClearsTimer(d: Snap, input: int)
    requires SnapOk(d) && d.flexBlock == 0 && d.flexTimer != 0
    requires var b := ShiftHistory(d.bitBuffer, input); b[2] == EOT1 && b[3] == EOT2
    ensures RxBit(d, input) == d.(bitBuffer := ShiftHistory(d.bitBuffer, input), flexTimer := 0)
  {
    EotSeenIff(ShiftHistory(d.bitBuffer, input));
  }

  /**
   * An accepted sync (straight or complemented) arms the 89-bit header
   * countdown, which the same call already advances to 88; an outer-word
   * check that fails leaves it at 89 with nothing else done.
   */
  lemma {:induction false} SyncArmsCountdown(d: Snap, input: int)
    requires SnapOk(d) && !(d.flexTimer != 0 && EotSeen(d.bitBuffer))
    requires SyncDistance(d.bitBuffer) < 2 || InvertedSync(d.bitBuffer)
    ensures var r := SyncStep(d, input);
            var inverted := InvertedSync(d.bitBuffer);
            var b := if inverted then Invert03(d.bitBuffer) else d.bitBuffer;
            r.bitBuffer == b &&
            (inverted || OuterWordsMatch(b) ==> r.flexBlockCount == 88) &&
            (!OuterWordsMatch(b) ==> r == d.(bitBuffer := b, flexBlockCount := 89))
  {
    var inverted := InvertedSync(d.bitBuffer);
    var b := if inverted then Invert03(d.bitBuffer) else d.bitBuffer;
    if inverted {
      InvertedSyncPasses(d.bitBuffer);
      assert OuterWordsMatch(b);
    }
    SyncFoundEffect(WithHistory(d, b), input);
  }

  /** An accepted sync leaves the history as it is; the countdown reads 88 after the speed lookup, or 89 with nothing else done. */
  lemma {:induction false} SyncFoundEffect(d: Snap, input: int)
    requires SnapOk(d)
    ensures var r := SyncFound(d, input);
            r.bitBuffer == d.bitBuffer &&
            (OuterWordsMatch(d.bitBuffer) ==> r.flexBlockCount == 88) &&
            (!OuterWordsMatch(d.bitBuffer) ==> r == d.(flexBlockCount := 89))
  {
  }

  /** The speed loop: the first variant whose outer words match within one bit fixes the timer, speed and level. */
  lemma {:induction false} SpeedOfFirstMatch(d: Snap, k: int)
    requires SnapOk(d) && 0 <= k < 8 && SpeedMatches(d.bitBuffer, k)
    requires forall t :: 0 <= t < k ==> !SpeedMatches(d.bitBuffer, t)
    ensures SpeedSearch(d) == d.(flexTimer := 20, sps := if k % 2 == 1 then 3200 else 1600,
                                 level := if (k / 2) % 2 == 1 then 4 else 2)
  {
    var j := FirstSpeed(d.bitBuffer, 0);
    assert j == k;
  }

  /** No variant matches: the timer, speed and level keep their values. */
  lemma {:induction false} NoSpeedMatch(d: Snap)
    requires SnapOk(d) && forall t :: 0 <= t < 8 ==> !SpeedMatches(d.bitBuffer, t)
    ensures SpeedSearch(d) == d
  {
    var j := FirstSpeed(d.bitBuffer, 0);
    assert j == 8;
  }

  /** The header countdown captures the 32 bits of the frame-information word in ob[0..31], in arrival order. */
  lemma {:induction false} HeaderBitCaptured(d: Snap, input: int)
    requires SnapOk(d) && 41 <= d.flexBlockCount <= 72
    ensures var r := Countdown(d, input);
            r == d.(flexBlockCount := d.flexBlockCount - 1, ob := d.ob[72 - d.flexBlockCount := InputBit(input)])
  {
  }

  /** At count 40 the word is corrected; cycle and frame are taken from bits 4..7 and 8..14 only when ecd reports fewer than 2 errors. */
  lemma {:induction false} HeaderWordDecoded(d: Snap, input: int)
    requires SnapOk(d) && d.flexBlockCount == 40
    ensures var r := Countdown(d, input);
            var dec := Correct(d.ecs, d.bch, d.ob);
            r.ob == dec.word && r.flexBlockCount == 39 && r.flexBlock == d.flexBlock &&
            (dec.errors < 2 ==> r.currentCycle == 15 - Field(dec.word, 4, 4) && r.currentFrame == 127 - Field(dec.word, 8, 7)) &&
            (dec.errors >= 2 ==> r.currentCycle == d.currentCycle && r.currentFrame == d.currentFrame)
  {
  }

  /** The countdown's last bit starts block collection at block 0, bit 0. */
  lemma {:induction false} CountdownStartsFrame(d: Snap, input: int)
    requires SnapOk(d) && d.flexBlockCount == 1
    ensures var r := Countdown(d, input);
            r.flexBlock == 11 && r.bct == 0 && r.hbit == 0 && r.flexBlockCount == 0
  {
  }

  /** While a frame is collected the sync detector is off: timer, countdown, speed and level stay as they are. */
  lemma {:induction false} CollectingKeepsSync(d: Snap, input: int)
    requires SnapOk(d) && d.flexBlock != 0
    ensures var r := RxBit(d, input);
            r.flexTimer == d.flexTimer && r.flexBlockCount == d.flexBlockCount && r.sps == d.sps && r.level == d.level &&
            r.bitBuffer == ShiftHistory(d.bitBuffer, input)
  {
  }

  /**
   * At 1600 bps, symbols that do not complete the block are stored in order
   * at block[bct], block[bct + 1], ...
   */
  lemma {:induction false} CollectFill(d: Snap, inputs: seq<int>)
    requires SnapOk(d) && d.flexBlock != 0 && d.sps == 1600 && d.bct + |inputs| < 256
    ensures var r := RxFold(d, inputs);
            r.bct == d.bct + |inputs| && r.flexBlock == d.flexBlock && r.sps == 1600 &&
            (forall i :: 0 <= i < |inputs| ==> r.block[d.bct + i] == InputBit(inputs[i])) &&
            (forall k :: 0 <= k < d.bct ==> r.block[k] == d.block[k])
    decreases |inputs|
  {
    if inputs != [] {
      var d1 := RxBit(d, inputs[0]);
      CollectOne(d, inputs[0]);
      CollectFill(d1, inputs[1..]);
      var r := RxFold(d1, inputs[1..]);
      forall i | 0 <= i < |inputs|
        ensures r.block[d.bct + i] == InputBit(inputs[i])
      {
        if i > 0 {
          assert inputs[1..][i - 1] == inputs[i];
        }
      }
    }
  }

  /** At 1600 bps a symbol that does not complete the block is stored at block[bct]. */
  lemma {:induction false} CollectOne(d: Snap, input: int)
    requires SnapOk(d) && d.flexBlock != 0 && d.sps == 1600 && d.bct < 255
    ensures var r := RxBit(d, input);
            r.bct == d.bct + 1 && r.flexBlock == d.flexBlock && r.sps == 1600 &&
            r.block == d.block[d.bct := InputBit(input)]
  {
  }

  /** At 3200 bps only the first symbol of each pair is stored; the second only advances bct. */
  lemma {:induction false} HalfRateStores(d: Snap, input: int)
    requires SnapOk(d) && d.flexBlock != 0 && d.sps == 3200 && !BlockFull(d)
    ensures var r := RxBit(d, input);
            r.hbit == 1 - d.hbit &&
            (d.hbit == 0 ==> r.bct == d.bct && r.block == d.block[d.bct := InputBit(input)]) &&
            (d.hbit == 1 ==> r.bct == d.bct + 1 && r.block == d.block)
  {
  }

  /** The 256th stored bit hands the block to showblock as block 11 - iFlexBlock and counts down; the last block counts the frame. */
  lemma {:induction false} FullBlockShown(d: Snap, input: int)
    requires SnapOk(d) && d.flexBlock != 0 && BlockFull(d)
    ensures var r := RxBit(d, input);
            r.bct == 0 && r.frameCount == d.frameCount + (if r.flexBlock == 0 then 1 else 0) &&
            (r.flexBlock == d.flexBlock - 1 || r.flexBlock == 0)
  {
    var s := StoreBit(WithHistory(d, ShiftHistory(d.bitBuffer, input)), input);
    assert RxBit(d, input) == EndBlock(s);
    EndBlockCounts(s);
  }

  /** A block end keeps the bit counter and counts the frame exactly when no block is left. */
  lemma {:induction false} EndBlockCounts(s: Snap)
    requires SnapOk(s) && 1 <= s.flexBlock <= 11
    ensures var r := EndBlock(s);
            r.bct == s.bct && r.frameCount == s.frameCount + (if r.flexBlock == 0 then 1 else 0) &&
            (r.flexBlock == s.flexBlock - 1 || r.flexBlock == 0)
  {
  }
}
