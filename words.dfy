/**
 * Pure word-level functions of the FLEX decoder: the 4-bit checksum of frame
 * information and vector words, packing a corrected codeword into a frame
 * word, the capcode arithmetic of `show_address`, the vector-word fields and
 * the character filter of `display_show_char`.
 *
 * Frame words are `long int` values: the 21 data bits, plus bit 22 (0x400000)
 * set when the codeword was uncorrectable.
 */
module Words {
  import opened Bits

  const MAX_STR_LEN: nat := 5120
  const MAXIMUM_GROUPSIZE: nat := 1000
  /** Flag added to a frame word whose codeword could not be corrected. */
  const UNCORRECTABLE: nat := 0x400000
  /** Capcode stored when an address is flagged or negative. */
  const INVALID_CAPCODE: int := 9999999
  /** First and last capcode of the 16 group addresses. */
  const GROUP_FIRST: int := 2029568
  const GROUP_LAST: int := 2029583
  /** Offset that places long capcodes above every short one. */
  const LONG_OFFSET: int := 2068480

  const MODE_SECURE: int := 0
  const MODE_SHORT_INSTRUCTION: int := 1
  const MODE_ALPHA: int := 5

  /** The labels of `vtype[8][9]`, indexed by vector type. */
  const VTYPE: seq<string> := ["SECURE", "INSTR", "SH/TONE", "StNUM", "SfNUM", "ALPHA", "BINARY", "NuNUM"]

  /** Every value showblock (and the shifts of FlexTIME) can leave in `frame[]`. */
  predicate WordShape(w: int)
  {
    0 <= w < 0x200000 || UNCORRECTABLE <= w < UNCORRECTABLE + 0x200000
  }

  // ---------------------------------------------------------------------
  // Checksum of BIW and vector words (flex.c:415-441)
  // ---------------------------------------------------------------------

  /** Nibbles at bits 0, 4, 8, 12, 16 plus bit 20. */
  function NibbleSum(l: int): int
  {
    l % 16 + (l / 16) % 16 + (l / 256) % 16 + (l / 4096) % 16 + (l / 65536) % 16 + (l / 1048576) % 2
  }

  /** 0 when the word passes the checksum, 1 when it fails or was flagged uncorrectable. */
  function Xsumchk(l: int): (r: int)
    ensures r == 0 || r == 1
    ensures l > 0x3fffff ==> r == 1
    ensures l <= 0x3fffff ==> (r == 0 <==> NibbleSum(l) % 16 == 15)
  {
    if l > 0x3fffff then 1
    else
      var xs := NibbleSum(l) % 16;
      if xs == 0x0f then 0 else 1
  }

  /** The sum of everything above the low nibble, as a transmitter would add it up. */
  function PayloadSum(p: nat): int
  {
    p % 16 + (p / 16) % 16 + (p / 256) % 16 + (p / 4096) % 16 + (p / 65536) % 2
  }

  /** Dropping a low nibble c below 16 and then shifting by a further power of two. */
  lemma {:induction false} DivNibble(p: int, c: int, a: int)
    requires 0 <= c < 16 && a > 0
    ensures (16 * p + c) / (16 * a) == p / a
  {
    var q, r := p / a, p % a;
    assert p == a * q + r;
    assert 16 * p + c == (16 * a) * q + (16 * r + c);
    ModUnique(16 * p + c, 16 * a, q, 16 * r + c);
  }

  /** Above its low nibble a word's checksum is the payload sum of its upper bits. */
  lemma {:induction false} NibbleSumSplit(l: int)
    requires l >= 0
    ensures NibbleSum(l) == l % 16 + PayloadSum(l / 16)
  {
    var p, c := l / 16, l % 16;
    assert l == 16 * p + c;
    DivNibble(p, c, 16);
    DivNibble(p, c, 256);
    DivNibble(p, c, 4096);
    DivNibble(p, c, 65536);
  }

  /**
   * A transmitter's checksum: bits 4..20 carry a payload p, and the low nibble
   * is the complement of the 4-bit sum of the payload nibbles.  Such a word
   * always passes xsumchk.
   */
  lemma {:induction false} ComplementedChecksumPasses(p: nat)
    requires p < 0x20000
    ensures Xsumchk(p * 16 + (15 - PayloadSum(p) % 16)) == 0
  {
    var x := PayloadSum(p);
    var c := 15 - x % 16;
    var l := p * 16 + c;
    ModUnique(l, 16, p, c);
    NibbleSumSplit(l);
    assert NibbleSum(l) == 16 * (x / 16) + 15;
    ModUnique(NibbleSum(l), 16, x / 16, 15);
  }

  /** Changing only the low nibble of a passing word makes it fail. */
  lemma {:induction false} ChecksumDetectsNibbleChange(l: nat, d: int)
    requires l <= 0x3fffff && Xsumchk(l) == 0
    requires 0 <= l % 16 + d < 16 && d != 0
    ensures Xsumchk(l + d) == 1
  {
    var p, c := l / 16, l % 16;
    ModUnique(l + d, 16, p, c + d);
    NibbleSumSplit(l);
    NibbleSumSplit(l + d);
    MissesFifteen(NibbleSum(l), d);
  }

  /** Moving a value that is 15 modulo 16 by less than 16, but not by 0, leaves residue 15. */
  lemma {:induction false} MissesFifteen(x: int, d: int)
    requires x % 16 == 15 && -16 < d < 16 && d != 0
    ensures (x + d) % 16 != 15
  {
    var q := x / 16;
    if d > 0 {
      ModUnique(x + d, 16, q + 1, d - 1);
    } else {
      ModUnique(x + d, 16, q, 15 + d);
    }
  }

  // ---------------------------------------------------------------------
  // Packing a corrected codeword (flex.c:754-767)
  // ---------------------------------------------------------------------

  /** The data bits, inverted, as a number: bit j is 1 exactly when bits[j] == 0. */
  function DataBits(bits: seq<Bit>): (r: nat)
    ensures r < Pow2(|bits|)
  {
    if bits == [] then 0 else (1 - bits[0]) + 2 * DataBits(bits[1..])
  }

  /** The frame word showblock stores for a corrected codeword and its error count. */
  function PackedWord(ob: seq<Bit>, errors: int): (w: nat)
    requires |ob| >= 21
    ensures WordShape(w)
    ensures w >= UNCORRECTABLE <==> errors == 3
  {
    Pow2Values();
    DataBits(ob[..21]) + (if errors == 3 then UNCORRECTABLE else 0)
  }

  lemma {:induction false} DataBitsBit(bits: seq<Bit>, j: nat)
    requires j < |bits|
    ensures BitAt(DataBits(bits), j) == 1 - bits[j]
    decreases j
  {
    var x, y := DataBits(bits), DataBits(bits[1..]);
    assert x == (1 - bits[0]) + 2 * y;
    if j > 0 {
      assert x / 2 == y;
      BitAtHalf(x, j);
      DataBitsBit(bits[1..], j - 1);
      assert bits[1..][j - 1] == bits[j];
    } else {
      assert Pow2(0) == 1 && x % 2 == 1 - bits[0];
    }
  }

  /** Appending one more data bit adds it at the top, which is how showblock's loop builds the word. */
  lemma {:induction false} DataBitsSnoc(bits: seq<Bit>, b: Bit)
    ensures DataBits(bits + [b]) == DataBits(bits) + (1 - b) * Pow2(|bits|)
    decreases |bits|
  {
    if bits != [] {
      assert (bits + [b])[1..] == bits[1..] + [b];
      DataBitsSnoc(bits[1..], b);
    } else {
      assert [b][1..] == [];
    }
  }

  /** showblock's packing register after the first |bits| steps: the bits so far, inverted, in its top bits. */
  function Register(bits: seq<Bit>): nat
    requires |bits| <= 21
  {
    DataBits(bits) * Pow2(21 - |bits|)
  }

  /**
   * One step of showblock's packing loop: shifting the partial word right and
   * setting bit 20 for a zero bit appends that bit, inverted, above the others.
   */
  lemma {:induction false} PackStep(bits: seq<Bit>, b: Bit)
    requires |bits| < 21
    ensures (if b == 0 then Xor(Register(bits) / 2, Pow2(20)) else Register(bits) / 2) == Register(bits + [b])
  {
    ScaledSnoc(bits, b);
    ShiftInAt20(DataBits(bits), |bits|, b);
  }

  lemma {:induction false} ScaledSnoc(bits: seq<Bit>, b: Bit)
    requires |bits| < 21
    ensures DataBits(bits + [b]) * Pow2(20 - |bits|) == (DataBits(bits) + (1 - b) * Pow2(|bits|)) * Pow2(20 - |bits|)
  {
    DataBitsSnoc(bits, b);
  }

  lemma {:induction false} ShiftInAt20(x: nat, n: nat, b: Bit)
    requires n < 21 && x < Pow2(n)
    ensures var c := x * Pow2(21 - n) / 2;
            (if b == 0 then Xor(c, Pow2(20)) else c) == (x + (1 - b) * Pow2(n)) * Pow2(20 - n)
  {
    ShiftIn(x, n, 20, b);
  }

  /** The bit packing round-trips: bit j (j < 21) of a stored word is the complement of corrected bit ob[j]. */
  lemma {:induction false} PackedWordBits(ob: seq<Bit>, errors: int, j: nat)
    requires |ob| >= 21 && j < 21
    ensures BitAt(PackedWord(ob, errors), j) == 1 - ob[j]
  {
    DataBitsBit(ob[..21], j);
    Pow2Values();
    BitAtAddHigh(DataBits(ob[..21]), if errors == 3 then 1 else 0, 22, j);
  }

  // ---------------------------------------------------------------------
  // Capcodes (flex.c:556-594)
  // ---------------------------------------------------------------------

  /** The capcode show_address computes, before validation. */
  function RawCapcode(l: int, l2: int, longAddress: bool): int
  {
    if !longAddress then (l % 0x200000) - 32768
    else Xor(l2 % 0x200000, 0x1fffff) * 32768 + LONG_OFFSET + l % 0x200000
  }

  /** An address word was flagged uncorrectable, or the capcode came out negative. */
  predicate AddressFlagged(l: int, l2: int, longAddress: bool)
  {
    l > 0x3fffff || l2 > 0x3fffff || RawCapcode(l, l2, longAddress) < 0
  }

  /** The capcode show_address leaves behind: 9999999 for flagged words or a negative value. */
  function Capcode(l: int, l2: int, longAddress: bool): (c: int)
    ensures c != INVALID_CAPCODE ==> c >= 0
    ensures AddressFlagged(l, l2, longAddress) ==> c == INVALID_CAPCODE
    ensures !AddressFlagged(l, l2, longAddress) ==> c == RawCapcode(l, l2, longAddress)
  {
    if AddressFlagged(l, l2, longAddress) then INVALID_CAPCODE else RawCapcode(l, l2, longAddress)
  }

  /** A `long int` capcode passed to an `int` parameter keeps its low 32 bits, as a signed value. */
  function Int32(x: int): (r: int)
    ensures -0x8000_0000 <= r < 0x8000_0000
    ensures -0x8000_0000 <= x < 0x8000_0000 ==> r == x
    ensures (r - x) % 0x1_0000_0000 == 0
  {
    (x + 0x8000_0000) % 0x1_0000_0000 - 0x8000_0000
  }

  predicate IsGroupCapcode(c: int)
  {
    GROUP_FIRST <= c <= GROUP_LAST
  }

  /** The two capcode formulas, with the complement written out. */
  lemma {:induction false} CapcodeFormulas(l: int, l2: int)
    ensures RawCapcode(l, l2, false) == l % 0x200000 - 32768
    ensures RawCapcode(l, l2, true) == (0x1fffff - l2 % 0x200000) * 32768 + 2068480 + l % 0x200000
  {
    Pow2Values();
    XorAllOnes(l2 % 0x200000, 21);
  }

  /**
   * Short capcodes lie in 0..2064383, long ones from 2068480 up, so the two
   * forms never collide; a long address can never be one of the group
   * capcodes, and a valid short one never exceeds 2064383.
   */
  lemma {:induction false} CapcodeRanges(l: int, l2: int)
    ensures Capcode(l, l2, false) == INVALID_CAPCODE || 0 <= Capcode(l, l2, false) <= 2064383
    ensures RawCapcode(l, l2, true) >= LONG_OFFSET
    ensures !IsGroupCapcode(Capcode(l, l2, true))
  {
    CapcodeFormulas(l, l2);
  }

  /** A group capcode selects one of the 16 group rows. */
  lemma {:induction false} GroupIndexInRange(c: int)
    requires IsGroupCapcode(c)
    ensures 0 <= c - GROUP_FIRST < 16
  {
  }

  /** flex.c:617-622: the address word ranges that announce a long address. */
  predicate IsLongAddress(cc2: int)
  {
    cc2 < 0x008001 || (cc2 > 0x1e0000 && cc2 < 0x1f0001) || cc2 > 0x1f7ffe
  }

  // ---------------------------------------------------------------------
  // Vector word fields (flex.c:625, 652-665, 712-713)
  // ---------------------------------------------------------------------

  function VectorType(v: int): (vt: int)
    ensures 0 <= vt < 8
  {
    (v / 16) % 8
  }

  /** First and last body word `(w1, w2)` after the header word is accounted for. */
  function BodyRange(v: int, longAddress: bool): (int, int)
  {
    var w1 := (v / 128) % 128;
    var w2 := (v / 16384) % 128 + w1 - 1;
    if !longAddress then (w1 + 1, w2) else (w1, w2 - 1)
  }

  /** The body a vector word announces lies inside the 200-word frame. */
  predicate BodyInFrame(v: int, longAddress: bool)
  {
    var (w1, w2) := BodyRange(v, longAddress);
    w1 > w2 || w2 < 200
  }

  lemma {:induction false} BodyRangeBounds(v: int, longAddress: bool)
    ensures 0 <= BodyRange(v, longAddress).0 <= 128
    ensures BodyRange(v, longAddress).1 <= 253
  {
  }

  function AssignedFrame(v: int): (f: int)
    ensures 0 <= f < 128
  {
    (v / 1024) % 128
  }

  function GroupBit(v: int): (g: int)
    ensures 0 <= g < 128
  {
    (v / 131072) % 128
  }

  /** A checked vector word (below 0x200000) names one of the 16 groups. */
  lemma {:induction false} GroupBitOfCheckedWord(v: int)
    requires WordShape(v) && Xsumchk(v) == 0
    ensures 0 <= GroupBit(v) < 16
  {
  }

  // ---------------------------------------------------------------------
  // Characters (flex.c:540-553) and message labels (flex.c:520-538)
  // ---------------------------------------------------------------------

  /** Control characters other than tab-free LF (10), EOT (4) and ETB (23), and values above 127, become '?'. */
  predicate Unprintable(cin: int)
  {
    cin != 10 && (cin > 127 || (cin > 0 && cin < 32 && cin != 23 && cin != 4))
  }

  function ShownChar(cin: int): (c: int)
    ensures Unprintable(cin) ==> c == '?' as int
    ensures !Unprintable(cin) ==> c == cin
  {
    if cin == '\n' as int then cin
    else if cin > 127 then '?' as int
    else if (cin > 0 && cin < 32 && cin != 10) && (cin != 23 && cin != 4) then '?' as int
    else cin
  }

  /** The byte a displayed character occupies in `message_buffer` (unsigned char). */
  lemma {:induction false} ShownCharIsByte(cin: int)
    requires 0 <= cin < 128
    ensures 0 <= ShownChar(cin) < 128
    ensures 1 <= cin < 32 && cin != 4 && cin != 10 && cin != 23 ==> ShownChar(cin) == 63
  {
  }

  /** The type label show_phase_speed puts in Current_MSG[MSG_TYPE]. */
  function PhaseSpeedLabel(vt: int): (s: string)
    requires 0 <= vt < 8
    ensures vt == MODE_SHORT_INSTRUCTION ==> s == " GROUP "
    ensures vt != MODE_SHORT_INSTRUCTION ==> s == VTYPE[vt]
  {
    if vt == MODE_SHORT_INSTRUCTION then " GROUP " else VTYPE[vt]
  }

  /** The bytes a C string shows: everything before the first NUL. */
  function CString(s: seq<int>): (r: seq<int>)
    ensures |r| <= |s| && r == s[..|r|]
    ensures forall i :: 0 <= i < |r| ==> r[i] != 0
    ensures |r| < |s| ==> s[|r|] == 0
  {
    if s == [] || s[0] == 0 then [] else [s[0]] + CString(s[1..])
  }
}
