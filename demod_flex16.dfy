/**
 * The FLEX bit-timing loop of demod_flex16.c: an early/late gate on a 16-bit
 * phase accumulator that slices one sample of every pair, nudges its phase
 * on each transition and hands a bit to flex_rxbit whenever the phase wraps.
 * Only the sign of a sample matters, so the input is a sequence of booleans
 * (true for a sample above zero).
 */
module Demod16 {
  import opened Bits
  import opened FlexState
  import opened FlexReceiver
  import opened Flex

  const FREQ_SAMP: nat := 22050
  const BAUD: nat := 1600
  const SUBSAMP: nat := 2

  /** Phase advance per sample pair, `0x10000u * BAUD * SUBSAMP / FREQ_SAMP` (see SphaseIncValue). */
  const SPHASEINC: nat := 9510

  /** The early/late correction `SPHASEINC / 8`. */
  const NUDGE: nat := 1188

  /** The phase below which a transition moves the clock forward, `0x8000 - SPHASEINC / 2`. */
  const EARLY: nat := 28013

  /** The range of the C `unsigned int` that holds dcd_shreg. */
  const U32: nat := 0x1_0000_0000

  /**
   * SPHASEINC is the macro's value: the product stays below 2^32, so the
   * unsigned C arithmetic is exact, and the quotient is 9510 phase units per pair.
   */
  lemma SphaseIncValue()
    ensures 0x10000 * BAUD * SUBSAMP < U32 && SPHASEINC == 0x10000 * BAUD * SUBSAMP / FREQ_SAMP
    ensures NUDGE == SPHASEINC / 8 && EARLY == 0x8000 - SPHASEINC / 2
  {
  }

  /** The demodulator state `l1.flex16`: phase accumulator, slicer shift register, samples carried over. */
  datatype Slicer = Slicer(sphase: nat, shreg: nat, subsamp: nat)

  predicate SlicerOk(s: Slicer)
  {
    s.sphase < 0x10000 && s.shreg < U32 && s.subsamp < SUBSAMP
  }

  /** The result of slicing: the new state, the sliced bits in order, and the symbols passed to flex_rxbit. */
  datatype Sliced = Sliced(state: Slicer, bits: seq<bool>, symbols: seq<int>)

  /** Bits 0 and 1 of dcd_shreg differ: the two newest sliced bits show a transition. */
  predicate Transition(shreg: nat)
  {
    shreg % 2 != (shreg / 2) % 2
  }

  /** The early/late nudge on a transition: SPHASEINC/8 forward below the threshold, back from it on. */
  function Nudge(sphase: nat): (r: nat)
    requires sphase < 0x10000
    ensures r > sphase <==> sphase < EARLY
    ensures r == sphase + NUDGE || r + NUDGE == sphase
    ensures r < 0x10000
  {
    if sphase < EARLY then sphase + NUDGE else sphase - NUDGE
  }

  /** The symbol flex_rxbit receives for the newest sliced bit: 3 for a 1, 0 for a 0. */
  function Symbol(shreg: nat): int
  {
    if shreg % 2 == 1 then 3 else 0
  }

  /**
   * One pass of the loop over a pair whose first sample is `sample`: the bit
   * enters dcd_shreg, the phase is nudged on a transition and advanced, and
   * a wrap past 0x10000 hands the bit on.  A positive sample arrives at
   * flex_rxbit as a stored 0 (it stores 1 only for symbols below 2).
   */
  function Step(s: Slicer, sample: bool): (r: Sliced)
    requires SlicerOk(s)
    ensures SlicerOk(r.state) && r.state.subsamp == s.subsamp && r.bits == [sample]
    ensures r.state.shreg % 2 == (if sample then 1 else 0) && (r.state.shreg / 2) % 2 == s.shreg % 2
    ensures r.symbols == [] || (r.symbols == [if sample then 3 else 0] && InputBit(r.symbols[0]) == if sample then 0 else 1)
    ensures var adv := r.state.sphase + 0x10000 * |r.symbols| - s.sphase;
            SPHASEINC - NUDGE <= adv <= SPHASEINC + NUDGE
  {
    var shreg := (s.shreg * 2) % U32 + (if sample then 1 else 0);
    ShregShift(s.shreg, if sample then 1 else 0);
    var ph := (if Transition(shreg) then Nudge(s.sphase) else s.sphase) + SPHASEINC;
    if ph >= 0x10000 then
      ModUnique(ph, 0x10000, 1, ph - 0x10000);
      Sliced(Slicer(ph % 0x10000, shreg, s.subsamp), [sample], [Symbol(shreg)])
    else Sliced(Slicer(ph, shreg, s.subsamp), [sample], [])
  }

  /** dcd_shreg shifted left in 32 bits with bit b entering: b is bit 0 and the old bit 0 is bit 1. */
  lemma {:induction false} ShregShift(x: nat, b: nat)
    requires x < U32 && b <= 1
    ensures var y := (x * 2) % U32 + b;
            y < U32 && y % 2 == b && (y / 2) % 2 == x % 2
  {
    var q := x / 0x8000_0000;
    var low := x % 0x8000_0000;
    assert x == 0x8000_0000 * q + low;
    ModUnique(x * 2, U32, q, 2 * low);
    var y := 2 * low + b;
    ModUnique(y, 2, low, b);
    ModUnique(low, 2, low / 2, x % 2) by {
      ModUnique(x, 2, 0x4000_0000 * q + low / 2, low % 2);
    }
  }

  /** The loop from sample offset i on: one Step per whole pair; what is left over becomes the carry. */
  function Pairs(s: Slicer, samples: seq<bool>, i: nat): (r: Sliced)
    requires SlicerOk(s) && i <= |samples|
    ensures SlicerOk(r.state) && r.state.subsamp == (|samples| - i) % 2
    ensures |r.bits| == (|samples| - i) / 2 && |r.symbols| <= |r.bits|
    decreases |samples| - i
  {
    if |samples| - i < SUBSAMP then Sliced(s.(subsamp := |samples| - i), [], [])
    else
      var one := Step(s, samples[i]);
      var rest := Pairs(one.state, samples, i + SUBSAMP);
      Sliced(rest.state, one.bits + rest.bits, one.symbols + rest.symbols)
  }

  /**
   * flex16_demod on one buffer: a carried sample first completes its pair
   * (that pair is skipped, not sliced), then whole pairs are sliced.
   */
  function Slice(s: Slicer, samples: seq<bool>): (r: Sliced)
    requires SlicerOk(s)
    ensures SlicerOk(r.state) && r.state.subsamp == (s.subsamp + |samples|) % 2
  {
    if s.subsamp != 0 then
      var numfill := SUBSAMP - s.subsamp;
      if |samples| < numfill then Sliced(s.(subsamp := s.subsamp + |samples|), [], [])
      else Pairs(s.(subsamp := 0), samples, numfill)
    else Pairs(s, samples, 0)
  }

  // ---------------------------------------------------------------------
  // Properties of flex16_demod
  // ---------------------------------------------------------------------

  /** A call too short to complete the carried pair slices nothing and only adds its length to the carry. */
  lemma {:induction false} ShortCallOnlyCarries(s: Slicer, samples: seq<bool>)
    requires SlicerOk(s) && s.subsamp != 0 && |samples| < SUBSAMP - s.subsamp
    ensures Slice(s, samples) == Sliced(s.(subsamp := s.subsamp + |samples|), [], [])
  {
  }

  /** `bits` are the samples at offsets i, i + 2, i + 4, ... */
  ghost predicate EveryOther(bits: seq<bool>, samples: seq<bool>, i: nat)
  {
    i + 2 * |bits| <= |samples| && forall k :: 0 <= k < |bits| ==> bits[k] == samples[i + 2 * k]
  }

  /** The loop slices the samples at offsets i, i + 2, i + 4, ... */
  lemma {:induction false} PairsBits(s: Slicer, samples: seq<bool>, i: nat)
    requires SlicerOk(s) && i <= |samples|
    ensures EveryOther(Pairs(s, samples, i).bits, samples, i)
    decreases |samples| - i
  {
    if |samples| - i >= SUBSAMP {
      var one := Step(s, samples[i]);
      PairsBits(one.state, samples, i + SUBSAMP);
      var rest := Pairs(one.state, samples, i + SUBSAMP);
      var r := Pairs(s, samples, i);
      assert r.bits == [samples[i]] + rest.bits;
      forall k | 0 <= k < |r.bits| ensures r.bits[k] == samples[i + 2 * k] {
        if k > 0 {
          assert r.bits[k] == rest.bits[k - 1];
          assert i + SUBSAMP + 2 * (k - 1) == i + 2 * k;
        }
      }
    }
  }

  /**
   * The loop runs floor((length - numfill) / 2) times, numfill being the
   * samples that complete the carried pair; its k-th pass slices sample
   * numfill + 2k.  With the carry equal to the parity of the samples seen so
   * far in the session, every sliced sample sits at an even session offset.
   */
  lemma {:induction false} SlicedAtEvenOffsets(s: Slicer, samples: seq<bool>, consumed: nat)
    requires SlicerOk(s) && s.subsamp == consumed % 2 && |samples| >= s.subsamp
    ensures var r := Slice(s, samples);
            var numfill := (SUBSAMP - s.subsamp) % 2;
            |r.bits| == (|samples| - numfill) / 2 && EveryOther(r.bits, samples, numfill) &&
            (consumed + numfill) % 2 == 0
  {
    if s.subsamp != 0 {
      assert Slice(s, samples) == Pairs(s.(subsamp := 0), samples, 1);
      PairsBits(s.(subsamp := 0), samples, 1);
    } else {
      PairsBits(s, samples, 0);
    }
  }

  /**
   * The phase moves SPHASEINC +- SPHASEINC/8 per pair, so over n sliced
   * pairs the symbols handed to flex_rxbit (each worth one wrap of 0x10000)
   * account for between n * 8322 and n * 10698 phase units.
   */
  lemma {:induction false} PairsRate(s: Slicer, samples: seq<bool>, i: nat)
    requires SlicerOk(s) && i <= |samples|
    ensures var r := Pairs(s, samples, i);
            var n := |r.bits|;
            8322 * n <= r.state.sphase + 0x10000 * |r.symbols| - s.sphase <= 10698 * n
    decreases |samples| - i
  {
    if |samples| - i >= SUBSAMP {
      var one := Step(s, samples[i]);
      var rest := Pairs(one.state, samples, i + SUBSAMP);
      PairsRate(one.state, samples, i + SUBSAMP);
      var r := Pairs(s, samples, i);
      assert |r.bits| == 1 + |rest.bits| && |r.symbols| == |one.symbols| + |rest.symbols|;
      assert r.state == rest.state;
    }
  }

  /** Consequently no run of eight pairs goes by without a bit for flex_rxbit. */
  lemma {:induction false} NoStall(s: Slicer, samples: seq<bool>, i: nat)
    requires SlicerOk(s) && i <= |samples| && (|samples| - i) / 2 >= 8
    ensures |Pairs(s, samples, i).symbols| >= 1
  {
    PairsRate(s, samples, i);
  }

  /** Loop state at offset pos: the pairs still to come, appended to what was handed on, give `target`. */
  ghost predicate LoopAt(target: Sliced, samples: seq<bool>, pos: nat, s: Slicer, syms: seq<int>)
  {
    SlicerOk(s) && pos <= |samples| &&
    var rest := Pairs(s, samples, pos);
    target.state == rest.state && target.symbols == syms + rest.symbols
  }

  lemma {:induction false} LoopStep(target: Sliced, samples: seq<bool>, pos: nat, s: Slicer, syms: seq<int>)
    requires LoopAt(target, samples, pos, s, syms) && pos + SUBSAMP <= |samples|
    ensures var one := Step(s, samples[pos]);
            LoopAt(target, samples, pos + SUBSAMP, one.state, syms + one.symbols)
  {
    var one := Step(s, samples[pos]);
    var rest := Pairs(one.state, samples, pos + SUBSAMP);
    assert Pairs(s, samples, pos).symbols == one.symbols + rest.symbols;
    assert syms + (one.symbols + rest.symbols) == (syms + one.symbols) + rest.symbols;
  }

  lemma {:induction false} LoopStart(s: Slicer, samples: seq<bool>, pos: nat)
    requires SlicerOk(s) && pos <= |samples|
    ensures LoopAt(Pairs(s, samples, pos), samples, pos, s, [])
  {
    assert [] + Pairs(s, samples, pos).symbols == Pairs(s, samples, pos).symbols;
  }

  lemma {:induction false} LoopEnd(target: Sliced, samples: seq<bool>, pos: nat, s: Slicer, syms: seq<int>)
    requires LoopAt(target, samples, pos, s, syms) && |samples| - pos < SUBSAMP
    ensures target.state == s.(subsamp := |samples| - pos) && target.symbols == syms
  {
    assert syms + [] == syms;
  }

  lemma {:induction false} SliceIsPairs(s: Slicer, samples: seq<bool>)
    requires SlicerOk(s) && (s.subsamp == 0 || SUBSAMP - s.subsamp <= |samples|)
    ensures Slice(s, samples) == Pairs(s.(subsamp := 0), samples, (SUBSAMP - s.subsamp) % 2)
  {
    if s.subsamp == 0 {
      assert s.(subsamp := 0) == s;
    }
  }

  /**
   * The carry a call leaves is the parity of all samples delivered so far:
   * flex16_init starts both at zero, and SlicedAtEvenOffsets then applies to
   * every later call.
   */
  lemma {:induction false} CarryTracksParity(s: Slicer, samples: seq<bool>, consumed: nat)
    requires SlicerOk(s) && s.subsamp == consumed % 2
    ensures Slice(s, samples).state.subsamp == (consumed + |samples|) % 2
  {
    var q := consumed / 2;
    assert consumed + |samples| == (s.subsamp + |samples|) + 2 * q;
  }


  /**
   * The demodulator of one channel: the state fields of `l1.flex16` and the
   * FLEX decoder that flex_rxbit drives.
   */
  class Flex16 {
    var sphase: nat
    var dcdShreg: nat
    var subsamp: nat
    const rx: FlexDecoder

    function State(): Slicer
      reads this
    {
      Slicer(sphase, dcdShreg, subsamp)
    }

    ghost predicate Valid()
      reads this, rx, rx.ecs, rx.bch, rx.ob, rx.bitBuffer, rx.block, rx.frame, rx.messageBuffer, rx.groupCodes, rx.groupFrame
    {
      SlicerOk(State()) && rx.Valid()
    }

    /** flex16_init (demod_flex16.c:44-48): flex_init on the decoder, then the demodulator state zeroed. */
    constructor ()
      ensures Valid() && State() == Slicer(0, 0, 0)
      ensures Initial(rx.Abs())
    {
      rx := new FlexDecoder();
      sphase, dcdShreg, subsamp := 0, 0, 0;
    }

    /**
     * flex16_demod (demod_flex16.c:52-85): the demodulator moves as Slice
     * says and the decoder takes exactly the symbols it lists, in order.
     */
    method Demod(buffer: seq<bool>)
      requires Valid()
      modifies this, rx, rx.ob, rx.frame, rx.block, rx.bitBuffer, rx.messageBuffer, rx.groupCodes, rx.groupFrame
      ensures Valid()
      ensures var r := Slice(old(State()), buffer);
              State() == r.state && rx.Abs() == RxFold(old(rx.Abs()), r.symbols)
    {
      ghost var s0 := State();
      ghost var d0 := rx.Abs();
      var pos := 0;
      if subsamp != 0 {
        var numfill := SUBSAMP - subsamp;
        if |buffer| < numfill {
          ShortCallOnlyCarries(s0, buffer);
          subsamp := subsamp + |buffer|;
          RxFoldNil(d0);
          return;
        }
        pos := numfill;
        subsamp := 0;
      }
      SliceIsPairs(s0, buffer);
      assert State() == s0.(subsamp := 0) && pos == (SUBSAMP - s0.subsamp) % 2;
      assert rx.Abs() == d0;
      SlicePairs(buffer, pos);
    }

    /** The loop of flex16_demod (demod_flex16.c:64-84): whole pairs from `pos` on, then the leftover as carry. */
    method SlicePairs(buffer: seq<bool>, pos: nat)
      requires SlicerOk(State()) && subsamp == 0 && rx.Valid() && pos <= |buffer|
      modifies this, rx, rx.ob, rx.frame, rx.block, rx.bitBuffer, rx.messageBuffer, rx.groupCodes, rx.groupFrame
      ensures rx.Valid()
      ensures var r := Pairs(old(State()), buffer, pos);
              State() == r.state && rx.Abs() == RxFold(old(rx.Abs()), r.symbols)
    {
      ghost var target := Pairs(State(), buffer, pos);
      ghost var d0 := rx.Abs();
      ghost var syms: seq<int> := [];
      LoopStart(State(), buffer, pos);
      var p := pos;
      var length := |buffer| - pos;
      while length >= SUBSAMP
        invariant 0 <= p && 0 <= length && p + length == |buffer| && subsamp == 0
        invariant rx.Valid() && rx.Abs() == RxFold(d0, syms)
        invariant LoopAt(target, buffer, p, State(), syms)
        decreases length
      {
        ghost var s := State();
        var symbols := SlicePair(buffer[p]);
        RxFoldConcat(d0, syms, symbols);
        LoopStep(target, buffer, p, s, syms);
        syms := syms + symbols;
        length := length - SUBSAMP;
        p := p + SUBSAMP;
      }
      LoopEnd(target, buffer, p, State(), syms);
      subsamp := length;
    }

    /**
     * One pass of the flex16_demod loop (demod_flex16.c:64-83): the sample
     * enters dcd_shreg, the phase is nudged and advanced, and on a wrap the
     * decoder takes the bit; `symbols` lists what it took.
     */
    method SlicePair(sample: bool) returns (ghost symbols: seq<int>)
      requires SlicerOk(State()) && rx.Valid()
      modifies this, rx, rx.ob, rx.frame, rx.block, rx.bitBuffer, rx.messageBuffer, rx.groupCodes, rx.groupFrame
      ensures rx.Valid()
      ensures var r := Step(old(State()), sample);
              State() == r.state && symbols == r.symbols && rx.Abs() == RxFold(old(rx.Abs()), symbols)
    {
      var wrapped := Advance(sample);
      symbols := [];
      if wrapped {
        var symbol := if dcdShreg % 2 == 1 then 3 else 0;
        ghost var d := rx.Abs();
        rx.RxBit(symbol);
        symbols := [symbol];
        RxFoldOne(d, symbol);
      }
    }

    /** The slicer half of one pass (demod_flex16.c:64-80): `wrapped` says whether the phase passed 0x10000. */
    method Advance(sample: bool) returns (wrapped: bool)
      requires SlicerOk(State())
      modifies this
      ensures var r := Step(old(State()), sample);
              State() == r.state && wrapped == (r.symbols != []) && (wrapped ==> r.symbols == [Symbol(dcdShreg)])
    {
      dcdShreg := (dcdShreg * 2) % U32 + (if sample then 1 else 0);
      if dcdShreg % 2 != (dcdShreg / 2) % 2 {
        if sphase < EARLY {
          sphase := sphase + NUDGE;
        } else {
          sphase := sphase - NUDGE;
        }
      }
      sphase := sphase + SPHASEINC;
      wrapped := sphase >= 0x10000;
      if wrapped {
        sphase := sphase % 0x10000;
      }
    }
  }
}
