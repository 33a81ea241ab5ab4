/**
 * The decoder of flex.c as a class: every file-scope global and function
 * `static` is a field, every fixed-size C array an array.  Each method is
 * the routine of the same name, written step by step as the C code does it,
 * and is proved to move the abstraction `Abs()` exactly as the function of
 * the same name in FlexState, FlexFrames or FlexReceiver does; what those
 * functions guarantee is proved about them there.
 */
module Flex {
  import opened Bits
  import opened Ecc
  import opened Words
  import opened FlexState
  import opened FlexFrames
  import opened FlexReceiver

  /** bit10: the number of ones among the 10 low bits of gin (flex.c:792-801). */
  method Bit10(gin: int) returns (k: nat)
    ensures k == PopCount(gin, 10)
  {
    k := 0;
    var g := gin;
    var i := 0;
    while i < 10
      invariant 0 <= i <= 10
      invariant k + PopCount(g, 10 - i) == PopCount(gin, 10)
    {
      if g % 2 != 0 {
        k := k + 1;
      }
      g := g / 2;
      i := i + 1;
    }
  }

  /** nOnes: the number of ones among the 16 low bits of k (flex.c:803-815). */
  method NOnes(k: int) returns (kt: nat)
    ensures kt == PopCount(k, 16)
  {
    if k == 0 {
      PopCountZero(0, 16);
      return 0;
    }
    kt := 0;
    var g := k;
    var i := 0;
    while i <= 15
      invariant 0 <= i <= 16
      invariant kt + PopCount(g, 16 - i) == PopCount(k, 16)
    {
      if g % 2 != 0 {
        kt := kt + 1;
      }
      g := g / 2;
      i := i + 1;
    }
  }

  /** The first half of show_address: the capcode before the validity test (flex.c:559-567). */
  method AddressCapcode(l: int, l2: int, longAddress: bool) returns (c: int)
    ensures c == RawCapcode(l, l2, longAddress)
  {
    if !longAddress {
      c := l % 0x200000 - 32768;
    } else {
      c := Xor(l2 % 0x200000, 0x1fffff);
      c := c * 32768;
      c := c + LONG_OFFSET + l % 0x200000;
    }
  }

  /** showframe's long-address test on the low 21 bits of an address word; a set flag stays set (flex.c:614-622). */
  method DetectLong(cc2: int, longAddress: bool) returns (long': bool)
    ensures long' <==> longAddress || IsLongAddress(cc2)
  {
    long' := longAddress;
    if cc2 < 0x008001 {
      long' := true;
    } else if cc2 > 0x1e0000 && cc2 < 0x1f0001 {
      long' := true;
    } else if cc2 > 0x1f7ffe {
      long' := true;
    }
  }

  /** The first and last body word of an alphanumeric or secure vector word (flex.c:652-665). */
  method BodyWords(v: int, longAddress: bool) returns (w1: int, w2: int)
    ensures (w1, w2) == BodyRange(v, longAddress)
  {
    w1 := v / 128;
    w2 := w1 / 128;
    assert w2 == v / 16384;
    w1 := w1 % 128;
    w2 := w2 % 128 + w1 - 1;
    if !longAddress {
      w1 := w1 + 1;
    } else {
      w2 := w2 - 1;
    }
  }

  /**
   * The scalar file-scope globals and function statics of flex.c, kept
   * together in one record field of the decoder (iFlexBlock, capcode,
   * iMessageIndex, ...), plus the text items of Current_MSG that the core
   * fills and the messages reported so far.
   */
  datatype Globals = Globals(
    flexBlock: int, flexBlockCount: int, flexTimer: int,
    bct: int, hbit: int, cy: int, fr: int, sps: int, level: int,
    currentCycle: int, currentFrame: int, frameCount: int,
    totalErrors: int, lastFrame: int, flexTime: int, flexDate: int,
    messageIndex: int, unknownChars: int,
    capcode: int, isGroupMessage: int, messagesCounter: int,
    tempAddress: int, convertingGroupcall: int,
    capcodeText: CapcodeText, typeText: string, messageText: seq<int>,
    shown: seq<Message>)

  /**
   * The state of SortGroupCall after slots 1..n-1 are placed: `cur` differs
   * from `orig` only in slots 1..count, holds the same members there, and,
   * when every member is positive, still holds positive members and has
   * slots 1..n-1 in order and below the rest.
   */
  ghost predicate SortedSoFar(cur: seq<int>, orig: seq<int>, n: int, count: int)
  {
    1 <= n <= count + 1 && SortFrame(cur, orig, count) && SortPerm(cur, orig, count) && SortOrder(cur, orig, n, count)
  }

  /** Only slots 1..count move. */
  ghost predicate SortFrame(cur: seq<int>, orig: seq<int>, count: int)
  {
    |cur| == |orig| == MAXIMUM_GROUPSIZE && 0 <= count && count + 1 < MAXIMUM_GROUPSIZE &&
    forall k :: 0 <= k < MAXIMUM_GROUPSIZE && !(1 <= k <= count) ==> cur[k] == orig[k]
  }

  /** Slots 1..count hold the same members. */
  ghost predicate SortPerm(cur: seq<int>, orig: seq<int>, count: int)
  {
    |cur| == |orig| == MAXIMUM_GROUPSIZE && 0 <= count && count + 1 < MAXIMUM_GROUPSIZE &&
    multiset(cur[1..count + 1]) == multiset(orig[1..count + 1])
  }

  /** With positive members, slots 1..n-1 are in order and below the rest. */
  ghost predicate SortOrder(cur: seq<int>, orig: seq<int>, n: int, count: int)
  {
    |cur| == |orig| == MAXIMUM_GROUPSIZE && 0 <= count && count + 1 < MAXIMUM_GROUPSIZE &&
    ((forall k :: 1 <= k <= count ==> orig[k] > 0) ==>
       (forall k :: 1 <= k <= count ==> cur[k] > 0) &&
       (forall x, y :: 1 <= x < n && x < y <= count ==> cur[x] <= cur[y]))
  }

  /** One round of selection sort: swapping slot n with a least slot among n..count places slot n. */
  lemma {:induction false} SortStep(cur: seq<int>, orig: seq<int>, n: int, min: int, count: int)
    requires SortedSoFar(cur, orig, n, count) && n <= min <= count
    requires (forall k :: n < k <= count ==> cur[k] > 0) ==> forall k :: n <= k <= count ==> cur[min] <= cur[k]
    ensures SortedSoFar(cur[n := cur[min]][min := cur[n]], orig, n + 1, count)
  {
    var t := cur[n := cur[min]][min := cur[n]];
    assert SortFrame(t, orig, count);
    SwapKeepsMultiset(cur, n, min, 1, count + 1);
    assert SortPerm(t, orig, count);
    SortStepOrder(cur, orig, n, min, count);
  }

  lemma {:induction false} SortStepOrder(cur: seq<int>, orig: seq<int>, n: int, min: int, count: int)
    requires SortOrder(cur, orig, n, count) && 1 <= n <= min <= count
    requires (forall k :: n < k <= count ==> cur[k] > 0) ==> forall k :: n <= k <= count ==> cur[min] <= cur[k]
    ensures SortOrder(cur[n := cur[min]][min := cur[n]], orig, n + 1, count)
  {
    if forall k :: 1 <= k <= count ==> orig[k] > 0 {
      SwapKeepsPositive(cur, n, min, count);
      SwapExtendsOrder(cur, n, min, count);
    }
  }

  /** Swapping two slots inside s[lo..hi] keeps the multiset of that slice. */
  lemma {:induction false} SwapKeepsMultiset(s: seq<int>, a: int, b: int, lo: int, hi: int)
    requires 0 <= lo <= a < hi <= |s| && lo <= b < hi
    ensures multiset(s[a := s[b]][b := s[a]][lo..hi]) == multiset(s[lo..hi])
  {
    var t := s[lo..hi];
    assert s[a := s[b]][b := s[a]][lo..hi] == t[a - lo := t[b - lo]][b - lo := t[a - lo]];
  }

  /** A swap inside slots 1..count keeps every one of them positive. */
  lemma {:induction false} SwapKeepsPositive(s: seq<int>, a: int, b: int, count: int)
    requires 1 <= a <= count && 1 <= b <= count && count < |s|
    requires forall k :: 1 <= k <= count ==> s[k] > 0
    ensures var t := s[a := s[b]][b := s[a]]; forall k :: 1 <= k <= count ==> t[k] > 0
  {
  }

  /**
   * Selection sort's step: when slots 1..a-1 are in order and below the rest,
   * and s[b] is least among slots a..count, swapping a and b puts slots 1..a
   * in order and below the rest.
   */
  lemma {:induction false} SwapExtendsOrder(s: seq<int>, a: int, b: int, count: int)
    requires 1 <= a <= b <= count < |s|
    requires forall x, y :: 1 <= x < a && x < y <= count ==> s[x] <= s[y]
    requires forall k :: a <= k <= count ==> s[b] <= s[k]
    ensures var t := s[a := s[b]][b := s[a]];
            forall x, y :: 1 <= x < a + 1 && x < y <= count ==> t[x] <= t[y]
  {
  }

  /** What SortedSoFar says once every slot is placed, in terms of the row's members. */
  lemma {:induction false} SortedRowOk(cur: seq<int>, orig: seq<int>, count: int)
    requires RowOk(orig) && orig[0] == count && SortedSoFar(cur, orig, count + 1, count)
    ensures RowOk(cur) && cur[0] == orig[0]
    ensures multiset(Members(cur)) == multiset(Members(orig))
    ensures (forall k :: 0 <= k < |Members(orig)| ==> Members(orig)[k] > 0) ==> Ascending(Members(cur))
  {
    assert Members(cur) == cur[1..count + 1] && Members(orig) == orig[1..count + 1];
    if forall k :: 0 <= k < |Members(orig)| ==> Members(orig)[k] > 0 {
      assert forall k :: 1 <= k <= count ==> orig[k] == Members(orig)[k - 1];
    }
  }

  /** Replacing one row by a well-formed row keeps the group table well formed. */
  lemma {:induction false} RowsStayOk(rows: seq<seq<int>>, gb: int, row: seq<int>)
    requires GroupsOk(rows) && 0 <= gb < GROUP_ROWS && RowOk(row)
    ensures GroupsOk(rows[gb := row])
  {
  }

  /** Ascending order, as SortGroupCall leaves a row of positive members. */
  predicate Ascending(s: seq<int>)
  {
    forall a, b :: 0 <= a < b < |s| ==> s[a] <= s[b]
  }

  /**
   * The state a fresh decoder starts from: every global and static at its
   * initial value (zero, except GroupFrame[] = -1, g_sps = 1600 and level = 2).
   */
  predicate Initial(d: Snap)
  {
    d.flexBlock == 0 && d.flexBlockCount == 0 && d.flexTimer == 0 && d.sps == 1600 && d.level == 2 &&
    d.bitBuffer == [0, 0, 0, 0] && d.totalErrors == 0 && d.frameCount == 0 && d.shown == [] &&
    d.groupFrame == seq(GROUP_ROWS, _ => -1) && d.groupCodes == seq(GROUP_ROWS, _ => Zeros(MAXIMUM_GROUPSIZE))
  }

  class FlexDecoder {
    // setupecc / ecd
    const ecs: array<nat>
    const bch: array<nat>
    const ob: array<Bit>
    // flex_rxbit
    const bitBuffer: array<nat>
    const block: array<Bit>
    // showblock
    const frame: array<int>
    // message assembly
    const messageBuffer: array<int>
    // group calls
    const groupCodes: array2<int>
    const groupFrame: array<int>
    /** Every scalar global and static. */
    var g: Globals

    /** aGroupCodes, row by row. */
    ghost function Rows(): (rows: seq<seq<int>>)
      reads groupCodes
      ensures |rows| == groupCodes.Length0
      ensures forall g :: 0 <= g < |rows| ==> |rows[g]| == groupCodes.Length1
    {
      seq(groupCodes.Length0, g reads groupCodes requires 0 <= g < groupCodes.Length0 =>
        seq(groupCodes.Length1, k reads groupCodes requires 0 <= g < groupCodes.Length0 && 0 <= k < groupCodes.Length1 =>
          groupCodes[g, k]))
    }

    ghost function Abs(): Snap
      reads this, ecs, bch, ob, bitBuffer, block, frame, messageBuffer, groupCodes, groupFrame
    {
      Snap(ecs[..], bch[..], ob[..],
           bitBuffer[..], g.flexBlock, g.flexBlockCount, g.flexTimer,
           g.bct, g.hbit, g.cy, g.fr, g.sps, g.level,
           g.currentCycle, g.currentFrame, g.frameCount, block[..],
           frame[..], g.totalErrors, g.lastFrame, g.flexTime, g.flexDate,
           messageBuffer[..], g.messageIndex, g.unknownChars,
           g.capcode, g.isGroupMessage, g.messagesCounter,
           g.tempAddress, g.convertingGroupcall,
           g.capcodeText, g.typeText, g.messageText,
           Rows(), groupFrame[..],
           g.shown)
    }

    ghost predicate Valid()
      reads this, ecs, bch, ob, bitBuffer, block, frame, messageBuffer, groupCodes, groupFrame
    {
      ecs != bch && ecs != bitBuffer && bch != bitBuffer && ob != block &&
      frame != messageBuffer && frame != groupFrame && messageBuffer != groupFrame &&
      groupCodes.Length0 == GROUP_ROWS && groupCodes.Length1 == MAXIMUM_GROUPSIZE &&
      SnapOk(Abs())
    }


    /**
     * The decoder as the program starts it: every global and static at its
     * initial value (zero, except GroupFrame[] = -1, g_sps = 1600 and
     * level = 2), then flex_init.
     */
    constructor ()
      ensures Valid() && Initial(Abs())
      ensures bch[..1024] == BchTable(ecs[..]) && forall i :: 0 <= i < 21 ==> ecs[i] == Lfsr(i)
    {
      ecs := new nat[25](_ => 0);
      bch := new nat[1025](_ => 0);
      ob := new Bit[32](_ => 0);
      bitBuffer := new nat[4](_ => 0);
      block := new Bit[256](_ => 0);
      frame := new int[200](_ => 0);
      messageBuffer := new int[MAX_STR_LEN + 1](_ => 0);
      groupCodes := new int[GROUP_ROWS, MAXIMUM_GROUPSIZE]((_, _) => 0);
      groupFrame := new int[GROUP_ROWS](_ => -1);
      // the text items of Current_MSG start empty: no capcode digits, no type, no text
      g := Globals(0, 0, 0, 0, 0, 0, 0, 1600, 2, 0, 0, 0, 0, 0, 0, 0, 0, 0, 0, 0, 0, 0, 0,
                   Unknown(0), "", [], []);
      new;
      ZeroStart();
      FlexInit();
    }

    /** Zeroed storage and the initial globals satisfy everything but the correction tables. */
    lemma ZeroStart()
      requires ecs.Length == 25 && bch.Length == 1025 && ob.Length == 32 && bitBuffer.Length == 4 && block.Length == 256
      requires frame.Length == 200 && messageBuffer.Length == MAX_STR_LEN + 1 && groupFrame.Length == GROUP_ROWS
      requires ecs != bch && ecs != bitBuffer && bch != bitBuffer && ob != block
      requires frame != messageBuffer && frame != groupFrame && messageBuffer != groupFrame
      requires groupCodes.Length0 == GROUP_ROWS && groupCodes.Length1 == MAXIMUM_GROUPSIZE
      requires bch[1024] == 0 && forall i :: 0 <= i < 4 ==> bitBuffer[i] == 0
      requires (forall i :: 0 <= i < 200 ==> frame[i] == 0) && forall i :: 0 <= i <= MAX_STR_LEN ==> messageBuffer[i] == 0
      requires forall gb, k :: 0 <= gb < GROUP_ROWS && 0 <= k < MAXIMUM_GROUPSIZE ==> groupCodes[gb, k] == 0
      requires g.flexBlock == 0 && g.flexBlockCount == 0 && g.bct == 0 && g.hbit == 0 && g.sps == 1600 && g.level == 2
      requires g.messageIndex == 0 && g.flexTimer == 0 && g.totalErrors == 0 && g.frameCount == 0 && g.shown == []
      requires forall i :: 0 <= i < GROUP_ROWS ==> groupFrame[i] == -1
      ensures Started() && Initial(Abs())
    {
      ghost var empty := seq(GROUP_ROWS, _ => Zeros(MAXIMUM_GROUPSIZE));
      RowsAre(empty);
      assert GroupsOk(empty) by {
        forall gb | 0 <= gb < GROUP_ROWS ensures RowOk(empty[gb]) {
        }
      }
      assert bitBuffer[..] == [0, 0, 0, 0];
      assert groupFrame[..] == seq(GROUP_ROWS, _ => -1);
      assert ReceiverOk(Abs());
      assert FrameOk(Abs());
      assert MessageOk(Abs());
    }

    /** The tables and the flex_rxbit counters a fresh decoder or flex_init leaves. */
    ghost predicate Started()
      reads this, ecs, bch, ob, bitBuffer, block, frame, messageBuffer, groupCodes, groupFrame
    {
      ecs.Length == 25 && bch.Length == 1025 && ob.Length == 32 && bitBuffer.Length == 4 && block.Length == 256 &&
      frame.Length == 200 && messageBuffer.Length == MAX_STR_LEN + 1 && groupFrame.Length == GROUP_ROWS &&
      ecs != bch && ecs != bitBuffer && bch != bitBuffer && ob != block &&
      frame != messageBuffer && frame != groupFrame && messageBuffer != groupFrame &&
      groupCodes.Length0 == GROUP_ROWS && groupCodes.Length1 == MAXIMUM_GROUPSIZE &&
      EntryOk(bch[1024]) && ReceiverOk(Abs()) && FrameOk(Abs()) && MessageOk(Abs())
    }

    /**
     * flex_init (flex.c:982-988): the per-channel state (its total error
     * count) cleared, then setupecc; nothing else changes.
     */
    method FlexInit()
      requires Started()
      modifies this, ecs, bch
      ensures Valid()
      ensures forall i :: 0 <= i < 21 ==> ecs[i] == Lfsr(i)
      ensures bch[..1024] == BchTable(ecs[..])
      ensures Abs() == old(Abs()).(ecs := ecs[..], bch := bch[..], totalErrors := 0)
    {
      g := g.(totalErrors := 0);
      SetupEcc();
      BchTableEntriesOk(ecs[..]);
      assert TableOk(bch[..]) by {
        forall k | 0 <= k < 1025 ensures EntryOk(bch[k]) {
          if k < 1024 {
            assert bch[k] == bch[..1024][k];
          }
        }
      }
    }

    // -------------------------------------------------------------------
    // display_show_char, show_address, show_phase_speed
    // -------------------------------------------------------------------

    method DisplayShowChar(cin: int)
      requires Valid()
      modifies this, messageBuffer
      ensures Valid()
      ensures Abs() == FlexState.DisplayShowChar(old(Abs()), cin)
    {
      ghost var d := Abs();
      var c := cin;
      var unknown := g.unknownChars;
      if cin == '\n' as int {
      } else if cin > 127 {
        c := '?' as int;
        unknown := 1;
      } else if (cin > 0 && cin < 32 && cin != 10) && (cin != 23 && cin != 4) {
        c := '?' as int;
        unknown := 1;
      }
      messageBuffer[g.messageIndex] := c % 256;
      var index := g.messageIndex;
      if index < MAX_STR_LEN - 1 {
        index := index + 1;
      }
      g := g.(messageIndex := index, unknownChars := unknown);
      assert messageBuffer[..] == d.buffer[d.messageIndex := ShownChar(cin) % 256];
    }

    method ShowAddress(l: int, l2: int, longAddress: bool)
      requires Valid()
      modifies this
      ensures Valid()
      ensures Abs() == FlexState.ShowAddress(old(Abs()), l, l2, longAddress)
    {
      var c := AddressCapcode(l, l2, longAddress);
      var width := if longAddress then 9 else 7;
      var text;
      if l > 0x3fffff || l2 > 0x3fffff || c < 0 {
        text := Unknown(width);
        c := INVALID_CAPCODE;
      } else {
        text := Digits(c, width);
      }
      var group := 0;
      var counter := g.messagesCounter;
      if c >= GROUP_FIRST && c <= GROUP_LAST {
        group := 1;
      } else {
        counter := counter + 1;
      }
      g := g.(capcode := c, capcodeText := text, isGroupMessage := group, messagesCounter := counter);
    }

    method ShowPhaseSpeed(vt: int)
      requires Valid() && 0 <= vt < 8
      modifies this
      ensures Valid()
      ensures Abs() == FlexState.ShowPhaseSpeed(old(Abs()), vt)
    {
      if vt == MODE_SHORT_INSTRUCTION {
        g := g.(typeText := " GROUP ");
      } else {
        g := g.(typeText := VTYPE[vt]);
      }
    }

    // -------------------------------------------------------------------
    // parseSingleMessage, ShowMessage
    // -------------------------------------------------------------------

    method ParseSingleMessage()
      requires Valid()
      modifies this, messageBuffer
      ensures Valid()
      ensures Abs() == FlexState.ParseSingleMessage(old(Abs()))
    {
      if g.convertingGroupcall == 0 {
        messageBuffer[g.messageIndex] := 0;
        g := g.(messageIndex := 0);
      }
      g := g.(messageText := messageBuffer[..MAX_STR_LEN], unknownChars := 0);
    }

    method ShowMessage()
      requires Valid()
      modifies this
      ensures Valid()
      ensures Abs() == FlexState.ShowMessage(old(Abs()))
    {
      g := g.(shown := g.shown + [Message(g.capcodeText, g.typeText, CString(g.messageText))]);
    }

    // -------------------------------------------------------------------
    // AddAssignment, ConvertGroupcall, SortGroupCall
    // -------------------------------------------------------------------

    /** Row `gb` of aGroupCodes as a sequence. */
    ghost function Row(gb: int): (row: seq<int>)
      reads groupCodes
      requires 0 <= gb < groupCodes.Length0
      ensures |row| == groupCodes.Length1
      ensures forall k :: 0 <= k < |row| ==> row[k] == groupCodes[gb, k]
    {
      seq(groupCodes.Length1, k reads groupCodes requires 0 <= k < groupCodes.Length1 => groupCodes[gb, k])
    }

    method AddAssignment(assignedFrame: int, groupbit: int, cap: int)
      requires Valid() && 0 <= groupbit < GROUP_ROWS
      modifies this, groupCodes, groupFrame, messageBuffer
      ensures Valid()
      ensures Abs() == FlexState.AddAssignment(old(Abs()), assignedFrame, groupbit, cap)
    {
      ghost var d := Abs();
      var n := groupCodes[groupbit, 0];
      assert n == d.groupCodes[groupbit][0];
      if n + 1 < MAXIMUM_GROUPSIZE {
        StoreMember(groupbit, cap, assignedFrame);
        assert Abs() == Assigned(d, assignedFrame, groupbit, cap);
      }
      ghost var d1 := Abs();
      if g.messageIndex != 0 {
        messageBuffer[g.messageIndex] := 0;
        g := g.(messageIndex := 0);
      }
      assert Abs() == IndexCleared(d1);
    }

    /** The body of AddAssignment's guarded branch: count up, store the member, note the frame. */
    method StoreMember(groupbit: int, cap: int, assignedFrame: int)
      requires groupCodes.Length0 == GROUP_ROWS && groupCodes.Length1 == MAXIMUM_GROUPSIZE
      requires groupFrame.Length == GROUP_ROWS
      requires 0 <= groupbit < GROUP_ROWS && 0 <= groupCodes[groupbit, 0] && groupCodes[groupbit, 0] + 1 < MAXIMUM_GROUPSIZE
      modifies groupCodes, groupFrame
      ensures Rows() == old(Rows()[groupbit := Rows()[groupbit][0 := groupCodes[groupbit, 0] + 1][groupCodes[groupbit, 0] + 1 := cap]])
      ensures groupFrame[..] == old(groupFrame[..])[groupbit := assignedFrame]
    {
      ghost var rows := Rows();
      var n := groupCodes[groupbit, 0];
      groupCodes[groupbit, 0] := n + 1;
      groupCodes[groupbit, n + 1] := cap;
      RowsAre(rows[groupbit := rows[groupbit][0 := n + 1][n + 1 := cap]]);
      groupFrame[groupbit] := assignedFrame;
    }

    method ConvertGroupcall(groupbit: int, kind: string, cap: int)
      requires Valid() && (IsGroupCapcode(cap) ==> 0 <= groupbit < GROUP_ROWS)
      modifies this, messageBuffer, groupCodes, groupFrame
      ensures Valid()
      ensures Abs() == FlexState.ConvertGroupcall(old(Abs()), groupbit, kind, cap)
    {
      ghost var d := Abs();
      messageBuffer[g.messageIndex] := 0;
      assert Abs() == Terminated(d);
      if cap >= GROUP_FIRST && cap <= GROUP_LAST {
        if groupFrame[groupbit] == g.currentFrame {
          CallGroup(groupbit, kind, cap);
        }
      }
      ghost var d2 := Abs();
      g := g.(messageIndex := 0);
      assert Abs() == Rewound(d2);
    }

    /** The due branch of ConvertGroupcall: report every member, then the call, then empty the row. */
    method CallGroup(groupbit: int, kind: string, cap: int)
      requires Valid() && 0 <= groupbit < GROUP_ROWS
      modifies this, groupCodes, groupFrame
      ensures Valid()
      ensures Abs() == FlexState.CallGroup(old(Abs()), groupbit, kind, cap)
    {
      ghost var d := Abs();
      var h := g.(convertingGroupcall := groupbit + 1, typeText := "GROUP", messageText := messageBuffer[..MAX_STR_LEN]);
      h := ReportMembers(groupbit, h);
      h := h.(capcodeText := Digits(cap, 7), typeText := kind, unknownChars := 0, messagesCounter := h.messagesCounter + 1);
      h := h.(shown := h.shown + [Message(h.capcodeText, h.typeText, CString(h.messageText))]);
      ClearRow(groupbit);
      groupFrame[groupbit] := -1;
      g := h.(convertingGroupcall := 0);
      assert Abs() == FlexState.CallGroup(d, groupbit, kind, cap);
    }

    /**
     * ConvertGroupcall's second member loop, on the globals `h`: one "GROUP"
     * message per member, in row order, each with that member's capcode text.
     */
    method ReportMembers(groupbit: int, h: Globals) returns (h': Globals)
      requires groupCodes.Length0 == GROUP_ROWS && groupCodes.Length1 == MAXIMUM_GROUPSIZE
      requires 0 <= groupbit < GROUP_ROWS && RowOk(Rows()[groupbit])
      ensures h' == h.(capcodeText := h'.capcodeText,
                       shown := h.shown + MemberMessages(Members(Rows()[groupbit]), CString(h.messageText)))
    {
      var count := groupCodes[groupbit, 0];
      ghost var members := Members(Rows()[groupbit]);
      ghost var text := CString(h.messageText);
      assert count == |members|;
      h' := h;
      var nc := 1;
      while nc <= count
        invariant 1 <= nc <= count + 1
        invariant h' == h.(capcodeText := h'.capcodeText,
                           shown := h.shown + MemberMessages(members[..nc - 1], text))
      {
        var member := groupCodes[groupbit, nc];
        assert member == members[nc - 1];
        if member == INVALID_CAPCODE {
          h' := h'.(capcodeText := Unknown(7));
        } else {
          h' := h'.(capcodeText := Digits(member, 7));
        }
        h' := h'.(shown := h'.shown + [Message(h'.capcodeText, "GROUP", CString(h'.messageText))]);
        assert members[..nc] == members[..nc - 1] + [member];
        nc := nc + 1;
      }
      assert members[..count] == members;
    }

    /** The memset of ConvertGroupcall: every slot of row `groupbit` becomes 0. */
    method ClearRow(groupbit: int)
      requires groupCodes.Length0 == GROUP_ROWS && groupCodes.Length1 == MAXIMUM_GROUPSIZE
      requires 0 <= groupbit < GROUP_ROWS
      modifies groupCodes
      ensures Rows() == old(Rows())[groupbit := Zeros(MAXIMUM_GROUPSIZE)]
    {
      ghost var rows := Rows();
      var k := 0;
      while k < MAXIMUM_GROUPSIZE
        invariant 0 <= k <= MAXIMUM_GROUPSIZE
        invariant forall j :: 0 <= j < k ==> groupCodes[groupbit, j] == 0
        invariant forall gb, j :: 0 <= gb < GROUP_ROWS && 0 <= j < MAXIMUM_GROUPSIZE && (gb != groupbit || k <= j) ==>
                    groupCodes[gb, j] == rows[gb][j]
      {
        groupCodes[groupbit, k] := 0;
        k := k + 1;
      }
      RowsAre(rows[groupbit := Zeros(MAXIMUM_GROUPSIZE)]);
    }

    /**
     * A selection sort of row `groupbit`'s members (never called by the
     * source).  The minimum scan stops at the first slot that is not positive,
     * so the members are always permuted among slots 1..count and come out in
     * ascending order when every member is positive.  The scan reads slot
     * count + 1, which must lie inside the row.
     */
    method SortGroupCall(groupbit: int)
      requires Valid() && 0 <= groupbit < GROUP_ROWS
      requires groupCodes[groupbit, 0] + 1 < MAXIMUM_GROUPSIZE
      modifies groupCodes
      ensures Valid()
      ensures Abs() == old(Abs()).(groupCodes := old(Rows())[groupbit := Rows()[groupbit]])
      ensures Rows()[groupbit][0] == old(Rows())[groupbit][0]
      ensures multiset(Members(Rows()[groupbit])) == multiset(Members(old(Rows())[groupbit]))
      ensures (forall k :: 0 <= k < |Members(old(Rows())[groupbit])| ==> Members(old(Rows())[groupbit])[k] > 0) ==>
                Ascending(Members(Rows()[groupbit]))
    {
      ghost var orig := Rows()[groupbit];
      var count := groupCodes[groupbit, 0];
      assert count == orig[0] && orig[count + 1] == 0;
      ghost var d := Abs();
      ghost var cur := SortRow(groupbit, count);
      SortedRowOk(cur, orig, count);
      RowsStayOk(d.groupCodes, groupbit, cur);
      assert Abs() == d.(groupCodes := d.groupCodes[groupbit := cur]);
    }

    /** SortGroupCall's outer loop, with `cur` the row as it stands. */
    method SortRow(groupbit: int, count: int) returns (ghost cur: seq<int>)
      requires groupCodes.Length0 == GROUP_ROWS && groupCodes.Length1 == MAXIMUM_GROUPSIZE
      requires 0 <= groupbit < GROUP_ROWS && 0 <= count && count + 1 < MAXIMUM_GROUPSIZE
      requires Rows()[groupbit][count + 1] == 0
      modifies groupCodes
      ensures Rows() == old(Rows())[groupbit := cur]
      ensures SortedSoFar(cur, old(Rows())[groupbit], count + 1, count)
    {
      ghost var rows := Rows();
      ghost var orig := rows[groupbit];
      cur := orig;
      var n := 1;
      while n <= count
        invariant Rows() == rows[groupbit := cur]
        invariant SortedSoFar(cur, orig, n, count)
      {
        var min := MinFrom(groupbit, n, count, cur);
        SwapSlots(groupbit, n, min);
        SortStep(cur, orig, n, min, count);
        cur := cur[n := cur[min]][min := cur[n]];
        n := n + 1;
      }
    }

    /** The three statements that exchange slots a and b of row `groupbit`. */
    method SwapSlots(groupbit: int, a: int, b: int)
      requires groupCodes.Length0 == GROUP_ROWS && groupCodes.Length1 == MAXIMUM_GROUPSIZE
      requires 0 <= groupbit < GROUP_ROWS && 0 <= a < MAXIMUM_GROUPSIZE && 0 <= b < MAXIMUM_GROUPSIZE
      modifies groupCodes
      ensures var row := old(Rows())[groupbit];
              Rows() == old(Rows())[groupbit := row[a := row[b]][b := row[a]]]
    {
      ghost var rows := Rows();
      var tmp := groupCodes[groupbit, a];
      groupCodes[groupbit, a] := groupCodes[groupbit, b];
      groupCodes[groupbit, b] := tmp;
      RowsAre(rows[groupbit := rows[groupbit][a := rows[groupbit][b]][b := rows[groupbit][a]]]);
    }

    /**
     * SortGroupCall's inner loop: the index of the least value in slots n, n+1, ...
     * up to the first slot after n that is not positive.
     */
    method MinFrom(groupbit: int, n: int, count: int, ghost cur: seq<int>) returns (min: int)
      requires groupCodes.Length0 == GROUP_ROWS && groupCodes.Length1 == MAXIMUM_GROUPSIZE
      requires 0 <= groupbit < GROUP_ROWS && 1 <= n <= count && count + 1 < MAXIMUM_GROUPSIZE
      requires Rows()[groupbit] == cur && cur[count + 1] == 0
      ensures n <= min <= count
      ensures (forall k :: n < k <= count ==> cur[k] > 0) ==> forall k :: n <= k <= count ==> cur[min] <= cur[k]
    {
      assert forall k :: 0 <= k < MAXIMUM_GROUPSIZE ==> groupCodes[groupbit, k] == Rows()[groupbit][k];
      min := n;
      var j := n + 1;
      while groupCodes[groupbit, j] > 0
        invariant n + 1 <= j <= count + 1
        invariant n <= min < j
        invariant forall k :: n <= k < j ==> cur[min] <= cur[k]
        invariant forall k :: n < k < j ==> cur[k] > 0
        decreases count + 1 - j
      {
        if groupCodes[groupbit, j] < groupCodes[groupbit, min] {
          min := j;
        }
        j := j + 1;
      }
    }

    // -------------------------------------------------------------------
    // ecd
    // -------------------------------------------------------------------

    /** The two loops of ecd and the syndrome: they only read the codeword. */
    method Checksums() returns (ecc: nat, parity: Bit, synd: nat)
      requires EcsOk(ecs[..]) && ob.Length == 32
      ensures ecc == EccOf(ecs[..], ob[..], 21) && parity == ParityOf(ob[..], 21)
      ensures synd == Syndrome(ecs[..], ob[..])
    {
      ecc := 0;
      parity := 0;
      var i := 0;
      while i <= 20
        invariant 0 <= i <= 21
        invariant ecc == EccOf(ecs[..], ob[..], i) && parity == ParityOf(ob[..], i)
      {
        if ob[i] == 1 {
          ecc := Xor(ecc, ecs[i]);
          parity := 1 - parity;
        }
        i := i + 1;
      }
      var acc := 0;
      while i <= 30
        invariant 21 <= i <= 31
        invariant acc == AccOf(ob[..], i - 21)
      {
        acc := acc * 2;
        if ob[i] == 1 {
          XorLowBit(acc);
          acc := Xor(acc, 1);
        }
        i := i + 1;
      }
      synd := Xor(ecc, acc);
    }

    /** The nonzero-syndrome branch of ecd: look the syndrome up and flip the bits it names. */
    method FixBits(ecc: nat, parity: Bit, synd: nat) returns (ecc': nat, parity': Bit, errors: nat)
      requires EcsOk(ecs[..]) && TableOk(bch[..]) && ob.Length == 32
      requires ecc == EccOf(ecs[..], ob[..], 21) && parity == ParityOf(ob[..], 21)
      requires synd == Syndrome(ecs[..], ob[..]) && synd != 0
      modifies ob
      ensures Repaired(ecc', parity', errors, ob[..]) == Repair(ecs[..], bch[..], old(ob[..]))
    {
      ecc' := ecc;
      parity' := parity;
      if bch[synd] != 0 {
        assert CorrectionOk(bch[..][synd]);
        var b1 := bch[synd] % 32;
        var b2 := (bch[synd] / 32) % 32;
        ghost var w := ob[..];
        if b2 != NO_BIT {
          ecc' := FlipBit(b2, ecc');
        }
        ghost var w1 := ob[..];
        assert w1 == if b2 != NO_BIT then Flip(w, b2) else w;
        if b1 != NO_BIT {
          ecc' := FlipBit(b1, ecc');
        }
        assert ob[..] == if b1 != NO_BIT then Flip(w1, b1) else w1;
        errors := bch[synd] / 4096;
      } else {
        errors := 3;
      }
      if errors == 1 {
        parity' := 1 - parity';
      }
    }

    /** `ob[p] ^= 1` with the running check bits kept in step: `ecc ^= ecs[p]`. */
    method FlipBit(p: int, ecc: nat) returns (ecc': nat)
      requires ecs.Length == 25 && ob.Length == 32 && 0 <= p <= 20
      modifies ob
      ensures ob[..] == Flip(old(ob[..]), p) && ecc' == Xor(ecc, ecs[p])
    {
      ob[p] := 1 - ob[p];
      ecc' := Xor(ecc, ecs[p]);
    }

    /** Corrects the codeword in ob in place and returns its error count (flex.c:162-222). */
    method Ecd() returns (errors: int)
      requires EcsOk(ecs[..]) && TableOk(bch[..]) && ob.Length == 32
      modifies ob
      ensures var dec := Correct(ecs[..], bch[..], old(ob[..]));
              errors == dec.errors && ob[..] == dec.word
    {
      ghost var rep := Repair(ecs[..], bch[..], ob[..]);
      var ecc, parity, synd := Checksums();
      var e: nat := 0;
      if synd != 0 {
        ecc, parity, e := FixBits(ecc, parity, synd);
      }
      assert Repaired(ecc, parity, e, ob[..]) == rep;
      errors := ParityCheck(ecc, parity, e);
    }

    /** The end of ecd: the overall parity test on ob[31] and the saturation of the count at 3. */
    method ParityCheck(ecc: nat, parity: Bit, e: nat) returns (errors: int)
      requires ob.Length == 32 && e <= 3
      ensures errors == Finish(ecc, parity, e, ob[..]).errors
    {
      errors := e;
      var ones := Bit10(ecc);
      var p := (parity + ones) % 2;
      if p != ob[31] {
        errors := errors + 1;
      }
      if errors > 3 {
        errors := 3;
      }
    }

    // -------------------------------------------------------------------
    // setupecc
    // -------------------------------------------------------------------

    /**
     * setupecc (flex.c:224-286): the 21 syndrome constants from the shift
     * register, then the correction table written loop by loop over a
     * zeroed table.  bch[1024] and ecs[21..24] are not touched.
     */
    method SetupEcc()
      requires ecs.Length == 25 && bch.Length == 1025 && ecs != bch
      modifies ecs, bch
      ensures forall i :: 0 <= i < 21 ==> ecs[i] == Lfsr(i)
      ensures ecs[21..] == old(ecs[21..]) && EcsOk(ecs[..])
      ensures bch[..1024] == BchTable(ecs[..]) && bch[1024] == old(bch[1024])
    {
      ghost var e0 := ecs[..];
      FillSyndromes();
      assert ecs[21..] == e0[21..];
      ghost var e := ecs[..];
      ClearTable();
      ghost var t0 := bch[..1024];
      WriteTwoData();
      ghost var t1 := bch[..1024];
      WriteOneData();
      ghost var t2 := bch[..1024];
      WriteDataCheck();
      ghost var t3 := bch[..1024];
      WriteOneCheck();
      ghost var t4 := bch[..1024];
      WriteTwoCheck();
      TableAssembled(e, t0, t1, t2, t3, t4, bch[..1024]);
    }

    /** The five loops' writes, performed one after the other on the zeroed table, are BchTable. */
    static lemma {:induction false} TableAssembled(e: seq<nat>, t0: seq<nat>, t1: seq<nat>, t2: seq<nat>,
                                                   t3: seq<nat>, t4: seq<nat>, t5: seq<nat>)
      requires EcsOk(e) && t0 == seq(1024, _ => 0)
      requires KeysBelow(TwoDataWrites(e), 1024) && KeysBelow(OneDataWrites(e), 1024)
      requires KeysBelow(DataCheckWrites(e), 1024) && KeysBelow(OneCheckWrites(), 1024)
      requires KeysBelow(TwoCheckWrites(), 1024)
      requires t1 == Apply(t0, TwoDataWrites(e)) && t2 == Apply(t1, OneDataWrites(e))
      requires t3 == Apply(t2, DataCheckWrites(e)) && t4 == Apply(t3, OneCheckWrites())
      requires t5 == Apply(t4, TwoCheckWrites())
      ensures t5 == BchTable(e)
    {
      var w1, w2, w3, w4, w5 := TwoDataWrites(e), OneDataWrites(e), DataCheckWrites(e), OneCheckWrites(), TwoCheckWrites();
      ApplyConcat(t0, w1, w2);
      ApplyConcat(t0, w1 + w2, w3);
      ApplyConcat(t0, w1 + w2 + w3, w4);
      ApplyConcat(t0, w1 + w2 + w3 + w4, w5);
    }

    /** setupecc's first loop: ecs[i] is the shift register before step i. */
    method FillSyndromes()
      requires ecs.Length == 25
      modifies ecs
      ensures forall i :: 0 <= i < 21 ==> ecs[i] == Lfsr(i)
      ensures forall i :: 21 <= i < 25 ==> ecs[i] == old(ecs[i])
    {
      var srr: nat := GENERATOR;
      var i := 0;
      while i <= 20
        invariant 0 <= i <= 21 && srr == Lfsr(i)
        invariant forall t :: 0 <= t < i ==> ecs[t] == Lfsr(t)
        invariant forall t :: 21 <= t < 25 ==> ecs[t] == old(ecs[t])
      {
        ecs[i] := srr;
        srr := Feedback(srr);
        i := i + 1;
      }
    }

    /** `bch[i] = 0` for i < 1024. */
    method ClearTable()
      requires bch.Length == 1025
      modifies bch
      ensures bch[..1024] == seq(1024, _ => 0) && bch[1024] == old(bch[1024])
    {
      var i := 0;
      while i < 1024
        invariant 0 <= i <= 1024 && bch[1024] == old(bch[1024])
        invariant forall t :: 0 <= t < i ==> bch[t] == 0
      {
        bch[i] := 0;
        i := i + 1;
      }
    }

    /** One assignment `bch[k] = v` of a loop whose writes so far are the first m of ws. */
    method Store(ghost t0: seq<nat>, ghost ws: seq<Write>, ghost m: nat, k: nat, v: nat)
      requires bch.Length == 1025 && |t0| == 1024 && KeysBelow(ws, 1024) && m < |ws| && ws[m] == Write(k, v)
      requires bch[..1024] == ApplyPrefix(t0, ws, m)
      modifies bch
      ensures bch[..1024] == ApplyPrefix(t0, ws, m + 1) && bch[1024] == old(bch[1024])
    {
      ApplyPrefixStep(t0, ws, m);
      bch[k] := v;
      assert bch[..1024] == old(bch[..1024])[k := v];
    }

    /** Two errors in data: for n, then i, `bch[ecs[n] ^ ecs[i]] = (i << 5) + n + 0x2000`. */
    method WriteTwoData()
      requires EcsOk(ecs[..]) && bch.Length == 1025 && ecs != bch
      modifies bch
      ensures KeysBelow(TwoDataWrites(ecs[..]), 1024)
      ensures bch[..1024] == Apply(old(bch[..1024]), TwoDataWrites(ecs[..])) && bch[1024] == old(bch[1024])
    {
      ghost var t0 := bch[..1024];
      ghost var ws := TwoDataWrites(ecs[..]);
      TwoDataKeys(ecs[..]);
      var n := 0;
      while n <= 20
        invariant 0 <= n <= 21 && bch[..1024] == ApplyPrefix(t0, ws, n * 21) && bch[1024] == old(bch[1024])
      {
        TwoDataRow(t0, ws, n);
        n := n + 1;
      }
      ApplyPrefixAll(t0, ws);
    }

    /** The inner loop of WriteTwoData for one n. */
    method TwoDataRow(ghost t0: seq<nat>, ghost ws: seq<Write>, n: int)
      requires EcsOk(ecs[..]) && bch.Length == 1025 && ecs != bch && |t0| == 1024 && 0 <= n <= 20
      requires ws == TwoDataWrites(ecs[..]) && KeysBelow(ws, 1024)
      requires bch[..1024] == ApplyPrefix(t0, ws, n * 21)
      modifies bch
      ensures bch[..1024] == ApplyPrefix(t0, ws, n * 21 + 21) && bch[1024] == old(bch[1024])
    {
      var i := 0;
      while i <= 20
        invariant 0 <= i <= 21 && bch[..1024] == ApplyPrefix(t0, ws, n * 21 + i) && bch[1024] == old(bch[1024])
      {
        TwoDataCell(t0, ws, n, i);
        i := i + 1;
      }
    }

    /** One pass of WriteTwoData's inner loop: `bch[ecs[n] ^ ecs[i]] = (i << 5) + n + 0x2000`. */
    method TwoDataCell(ghost t0: seq<nat>, ghost ws: seq<Write>, n: int, i: int)
      requires EcsOk(ecs[..]) && bch.Length == 1025 && ecs != bch && |t0| == 1024 && 0 <= n <= 20 && 0 <= i <= 20
      requires ws == TwoDataWrites(ecs[..]) && KeysBelow(ws, 1024)
      requires bch[..1024] == ApplyPrefix(t0, ws, n * 21 + i)
      modifies bch
      ensures bch[..1024] == ApplyPrefix(t0, ws, n * 21 + i + 1) && bch[1024] == old(bch[1024])
    {
      LoopIndex(n, i, 21);
      var j := i * 32 + n;
      var k := Xor(ecs[n], ecs[i]);
      Store(t0, ws, n * 21 + i, k, j + 0x2000);
    }

    /** One error in data: `bch[ecs[n]] = n + (0x1f << 5) + 0x1000`. */
    method WriteOneData()
      requires EcsOk(ecs[..]) && bch.Length == 1025 && ecs != bch
      modifies bch
      ensures KeysBelow(OneDataWrites(ecs[..]), 1024)
      ensures bch[..1024] == Apply(old(bch[..1024]), OneDataWrites(ecs[..])) && bch[1024] == old(bch[1024])
    {
      ghost var t0 := bch[..1024];
      ghost var ws := OneDataWrites(ecs[..]);
      var n := 0;
      while n <= 20
        invariant 0 <= n <= 21 && bch[..1024] == ApplyPrefix(t0, ws, n) && bch[1024] == old(bch[1024])
      {
        var k := ecs[n];
        var j := n + NO_BIT * 32;
        Store(t0, ws, n, k, j + 0x1000);
        n := n + 1;
      }
      ApplyPrefixAll(t0, ws);
    }

    /** One error in data and one in the check bits: `bch[ecs[n] ^ (1 << i)] = n + (0x1f << 5) + 0x2000`. */
    method WriteDataCheck()
      requires EcsOk(ecs[..]) && bch.Length == 1025 && ecs != bch
      modifies bch
      ensures KeysBelow(DataCheckWrites(ecs[..]), 1024)
      ensures bch[..1024] == Apply(old(bch[..1024]), DataCheckWrites(ecs[..])) && bch[1024] == old(bch[1024])
    {
      ghost var t0 := bch[..1024];
      ghost var ws := DataCheckWrites(ecs[..]);
      DataCheckKeys(ecs[..]);
      var n := 0;
      while n <= 20
        invariant 0 <= n <= 21 && bch[..1024] == ApplyPrefix(t0, ws, n * 10) && bch[1024] == old(bch[1024])
      {
        DataCheckRow(t0, ws, n);
        n := n + 1;
      }
      ApplyPrefixAll(t0, ws);
    }

    /** The inner loop of WriteDataCheck for one n. */
    method DataCheckRow(ghost t0: seq<nat>, ghost ws: seq<Write>, n: int)
      requires EcsOk(ecs[..]) && bch.Length == 1025 && ecs != bch && |t0| == 1024 && 0 <= n <= 20
      requires ws == DataCheckWrites(ecs[..]) && KeysBelow(ws, 1024)
      requires bch[..1024] == ApplyPrefix(t0, ws, n * 10)
      modifies bch
      ensures bch[..1024] == ApplyPrefix(t0, ws, n * 10 + 10) && bch[1024] == old(bch[1024])
    {
      var i := 0;
      while i < 10
        invariant 0 <= i <= 10 && bch[..1024] == ApplyPrefix(t0, ws, n * 10 + i) && bch[1024] == old(bch[1024])
      {
        DataCheckCell(t0, ws, n, i);
        i := i + 1;
      }
    }

    /** One pass of WriteDataCheck's inner loop: `bch[ecs[n] ^ (1 << i)] = n + (0x1f << 5) + 0x2000`. */
    method DataCheckCell(ghost t0: seq<nat>, ghost ws: seq<Write>, n: int, i: int)
      requires EcsOk(ecs[..]) && bch.Length == 1025 && ecs != bch && |t0| == 1024 && 0 <= n <= 20 && 0 <= i < 10
      requires ws == DataCheckWrites(ecs[..]) && KeysBelow(ws, 1024)
      requires bch[..1024] == ApplyPrefix(t0, ws, n * 10 + i)
      modifies bch
      ensures bch[..1024] == ApplyPrefix(t0, ws, n * 10 + i + 1) && bch[1024] == old(bch[1024])
    {
      LoopIndex(n, i, 10);
      var k := Xor(ecs[n], Pow2(i));
      var j := n + NO_BIT * 32;
      Store(t0, ws, n * 10 + i, k, j + 0x2000);
    }

    /** One error in the check bits: `bch[1 << n] = 0x3ff + 0x1000`. */
    method WriteOneCheck()
      requires bch.Length == 1025
      modifies bch
      ensures KeysBelow(OneCheckWrites(), 1024)
      ensures bch[..1024] == Apply(old(bch[..1024]), OneCheckWrites()) && bch[1024] == old(bch[1024])
    {
      ghost var t0 := bch[..1024];
      ghost var ws := OneCheckWrites();
      OneCheckKeys();
      var n := 0;
      while n < 10
        invariant 0 <= n <= 10 && bch[..1024] == ApplyPrefix(t0, ws, n) && bch[1024] == old(bch[1024])
      {
        var k := Pow2(n);
        Store(t0, ws, n, k, 0x3ff + 0x1000);
        n := n + 1;
      }
      ApplyPrefixAll(t0, ws);
    }

    /** Two errors in the check bits: `bch[(1 << n) ^ (1 << i)] = 0x3ff + 0x2000` for i != n. */
    method WriteTwoCheck()
      requires bch.Length == 1025
      modifies bch
      ensures KeysBelow(TwoCheckWrites(), 1024)
      ensures bch[..1024] == Apply(old(bch[..1024]), TwoCheckWrites()) && bch[1024] == old(bch[1024])
    {
      ghost var t0 := bch[..1024];
      ghost var ws := TwoCheckWrites();
      TwoCheckKeys();
      var n := 0;
      while n < 10
        invariant 0 <= n <= 10 && bch[..1024] == ApplyPrefix(t0, ws, n * 10) && bch[1024] == old(bch[1024])
      {
        TwoCheckRow(t0, ws, n);
        n := n + 1;
      }
      ApplyPrefixAll(t0, ws);
    }

    /** The inner loop of WriteTwoCheck for one n; the diagonal i == n writes nothing. */
    method TwoCheckRow(ghost t0: seq<nat>, ghost ws: seq<Write>, n: int)
      requires bch.Length == 1025 && |t0| == 1024 && 0 <= n < 10
      requires ws == TwoCheckWrites() && KeysBelow(ws, 1024)
      requires bch[..1024] == ApplyPrefix(t0, ws, n * 10)
      modifies bch
      ensures bch[..1024] == ApplyPrefix(t0, ws, n * 10 + 10) && bch[1024] == old(bch[1024])
    {
      var i := 0;
      while i < 10
        invariant 0 <= i <= 10 && bch[..1024] == ApplyPrefix(t0, ws, n * 10 + i) && bch[1024] == old(bch[1024])
      {
        TwoCheckCell(t0, ws, n, i);
        i := i + 1;
      }
    }

    /** One pass of WriteTwoCheck's inner loop: `bch[(1 << n) ^ (1 << i)] = 0x3ff + 0x2000` unless i == n. */
    method TwoCheckCell(ghost t0: seq<nat>, ghost ws: seq<Write>, n: int, i: int)
      requires bch.Length == 1025 && |t0| == 1024 && 0 <= n < 10 && 0 <= i < 10
      requires ws == TwoCheckWrites() && KeysBelow(ws, 1024)
      requires bch[..1024] == ApplyPrefix(t0, ws, n * 10 + i)
      modifies bch
      ensures bch[..1024] == ApplyPrefix(t0, ws, n * 10 + i + 1) && bch[1024] == old(bch[1024])
    {
      TwoCheckAt(n, i);
      if i != n {
        var k := Xor(Pow2(n), Pow2(i));
        Store(t0, ws, n * 10 + i, k, 0x3ff + 0x2000);
      } else {
        ApplyPrefixStep(t0, ws, n * 10 + i);
      }
    }

    // -------------------------------------------------------------------
    // showblock
    // -------------------------------------------------------------------

    /** Copy codeword i of the block into ob: bit j is block[j * 8 + i]. */
    method CopyColumn(i: int)
      requires ob.Length == 32 && block.Length == 256 && ob != block && 0 <= i < 8
      modifies ob
      ensures ob[..] == Column(block[..], i)
    {
      var j := 0;
      while j < 32
        invariant 0 <= j <= 32
        invariant forall k :: 0 <= k < j ==> ob[k] == block[k * 8 + i]
      {
        ob[j] := block[j * 8 + i];
        j := j + 1;
      }
    }

    /** showblock's packing loop and the uncorrectable flag: the frame word for the codeword in ob. */
    method Pack(err: int) returns (cc: int)
      requires ob.Length == 32
      ensures cc == PackedWord(ob[..], err)
    {
      Pow2Values();
      cc := 0;
      var j := 0;
      while j < 21
        invariant 0 <= j <= 21
        invariant cc == Register(ob[..j])
      {
        PackStep(ob[..j], ob[j]);
        assert ob[..j + 1] == ob[..j] + [ob[j]];
        cc := cc / 2;
        if ob[j] == 0 {
          cc := Xor(cc, 0x100000);
        }
        j := j + 1;
      }
      assert ob[..21] == ob[..][..21];
      if err == 3 {
        Pow2Strict(21, 22);
        XorHighBit(cc, 22);
        cc := Xor(cc, UNCORRECTABLE);
      }
    }

    /** One pass of showblock's first loop: correct codeword i and store it in frame[blknum * 8 + i]. */
    method DeinterleaveWord(blknum: int, i: int)
      requires Valid() && 0 <= blknum <= 10 && 0 <= i < 8
      modifies this, ob, frame
      ensures Valid() && Abs() == DeinterleaveStep(old(Abs()), blknum, i)
    {
      ghost var d := Abs();
      var err := DecodeColumn(blknum, i);
      ghost var d1 := Abs();
      g := g.(totalErrors := g.totalErrors + err);
      assert Abs() == d1.(totalErrors := d.totalErrors + err);
      DeinterleaveStepIs(d, blknum, i, Abs());
    }

    /** Codeword i of the block corrected in ob and stored packed in frame[blknum * 8 + i]; its error count. */
    method DecodeColumn(blknum: int, i: int) returns (err: int)
      requires Valid() && 0 <= blknum <= 10 && 0 <= i < 8
      modifies ob, frame
      ensures var d := old(Abs());
              var dec := Correct(d.ecs, d.bch, Column(d.block, i));
              err == dec.errors &&
              Abs() == d.(ob := dec.word, frame := d.frame[blknum * 8 + i := PackedWord(dec.word, dec.errors)])
    {
      ghost var d := Abs();
      CopyColumn(i);
      err := Ecd();
      var k := blknum * 8 + i;
      var cc := Pack(err);
      frame[k] := cc;
      assert frame[..] == d.frame[k := cc];
    }

    method ShowBlock(blknum: int)
      requires Valid() && 0 <= blknum <= 10
      modifies this, ob, frame, messageBuffer, groupCodes, groupFrame
      ensures Valid() && Abs() == FlexFrames.ShowBlock(old(Abs()), blknum)
    {
      ghost var d := Abs();
      DeinterleaveBlock(blknum);
      ghost var d1 := Abs();
      if blknum == 0 {
        FirstBlock();
      } else {
        LaterBlock(blknum);
      }
      ShowBlockIs(d, d1, Abs(), blknum);
    }

    /** The two phases of `ShowBlock` compose to the showblock function. */
    static lemma {:induction false} ShowBlockIs(d: Snap, d1: Snap, r: Snap, blknum: int)
      requires SnapOk(d) && 0 <= blknum <= 10 && d1 == Deinterleave(d, blknum, 0)
      requires blknum == 0 ==> r == FlexFrames.FirstBlock(d1)
      requires blknum != 0 ==> r == FlexFrames.LaterBlock(d1, blknum)
      ensures r == FlexFrames.ShowBlock(d, blknum)
    { }

    /** Block 0: read the BIWs, a second time at the wrap from frame 127 to frame 0. */
    method FirstBlock()
      requires Valid()
      modifies this, frame
      ensures Valid() && Abs() == FlexFrames.FirstBlock(old(Abs()))
    {
      FlexTime();
      if g.currentFrame == 0 && g.lastFrame == 127 {
        FlexTime();
      }
      g := g.(lastFrame := g.currentFrame);
    }

    /** Blocks 1..10: interpret the frame after block 10 or at the first block without data. */
    method LaterBlock(blknum: int)
      requires Valid() && 1 <= blknum <= 10
      modifies this, messageBuffer, groupCodes, groupFrame
      ensures Valid() && Abs() == FlexFrames.LaterBlock(old(Abs()), blknum)
    {
      // the deinterleave loop's last packed word, codeword 7
      ghost var d := Abs();
      var cc := frame[blknum * 8 + 7];
      var noMore := cc == 0 || cc == 0x1fffff;
      assert noMore == NoMoreData(d.frame[blknum * 8 + 7]);
      if blknum == 10 || noMore {
        InterpretFrame();
        if noMore {
          StopCollecting();
        }
      }
    }

    /** A block without data: `iFlexBlock = 1`, so the block that has just ended is the frame's last. */
    method StopCollecting()
      requires Valid()
      modifies this
      ensures Valid() && Abs() == old(Abs()).(flexBlock := 1)
    {
      g := g.(flexBlock := 1);
    }

    /** The call of showframe with the address and vector starts read from the frame information word. */
    method InterpretFrame()
      requires Valid()
      modifies this, messageBuffer, groupCodes, groupFrame
      ensures Valid() && Abs() == FlexFrames.InterpretFrame(old(Abs()))
    {
      var vsa := (frame[0] / 1024) % 64;
      var asa := (frame[0] / 256) % 4 + 1;
      ghost var d := Abs();
      assert d.frame[0] == frame[0] && vsa == VectorStart(d.frame[0]) && asa == AddressStart(d.frame[0]);
      if Xsumchk(frame[0]) != 0 || EntriesOk(frame[..], asa, vsa, asa, false) {
        ShowFrame(asa, vsa);
      }
    }

    /** showblock's first loop: the eight codewords of the block, corrected and packed. */
    method DeinterleaveBlock(blknum: int)
      requires Valid() && 0 <= blknum <= 10
      modifies this, ob, frame
      ensures Valid() && Abs() == Deinterleave(old(Abs()), blknum, 0)
    {
      var i := 0;
      while i < 8
        invariant 0 <= i <= 8 && Valid()
        invariant Deinterleave(Abs(), blknum, i) == Deinterleave(old(Abs()), blknum, 0)
      {
        DeinterleaveWord(blknum, i);
        i := i + 1;
      }
    }

    // -------------------------------------------------------------------
    // showframe
    // -------------------------------------------------------------------

    method ShowFrame(asa: int, vsa: int)
      requires Valid() && 1 <= asa <= 4 && 0 <= vsa < 64
      requires Xsumchk(frame[0]) == 0 ==> EntriesOk(frame[..], asa, vsa, asa, false)
      modifies this, messageBuffer, groupCodes, groupFrame
      ensures Valid() && Abs() == FlexFrames.ShowFrame(old(Abs()), asa, vsa)
    {
      g := g.(tempAddress := -1);
      if Xsumchk(frame[0]) == 0 {
        ShowEntries(asa, vsa);
      }
    }

    /** showframe's loop over the address words asa..vsa-1. */
    method ShowEntries(asa: int, vsa: int)
      requires Valid() && 1 <= asa <= 4 && 0 <= vsa < 64
      requires EntriesOk(frame[..], asa, vsa, asa, false)
      modifies this, messageBuffer, groupCodes, groupFrame
      ensures Valid() && Abs() == Entries(old(Abs()), asa, vsa, asa, false)
    {
      var longAddress := false;
      var j := asa;
      while j < vsa
        invariant asa <= j && Valid()
        invariant EntriesOk(frame[..], asa, vsa, j, longAddress)
        invariant Entries(Abs(), asa, vsa, j, longAddress) == Entries(old(Abs()), asa, vsa, asa, false)
        decreases vsa - j
      {
        j, longAddress := EntryStep(asa, vsa, j, longAddress);
      }
    }

    /** One pass of showframe's loop, from address word j; the next j and long-address flag. */
    method EntryStep(asa: int, vsa: int, j: int, longAddress: bool) returns (j': int, long': bool)
      requires Valid() && 1 <= asa <= j < vsa < 64
      requires EntryFits(frame[..], asa, vsa, j, longAddress)
      modifies this, messageBuffer, groupCodes, groupFrame
      ensures Valid() && (j', long') == NextEntry(frame[..], asa, vsa, j, longAddress)
      ensures Abs() == EntryEffect(old(Abs()), asa, vsa, j, longAddress)
    {
      ghost var d := Abs();
      long' := DetectLong(frame[j] % 0x200000, longAddress);
      var vb := vsa + j - asa;
      var vt := (frame[vb] / 16) % 8;
      assert long' == LongAt(d.frame, j, longAddress) && vt == VectorType(d.frame[vb]);
      j' := j + 1;
      if Xsumchk(frame[vb]) != 0 {
        CountError();
      } else if vt == MODE_SECURE || vt == MODE_SHORT_INSTRUCTION || vt == MODE_ALPHA {
        ShowEntry(j, vb, vt, long');
        if long' {
          j' := j' + 1;
        }
      }
    }

    /** The switch on the vector type and the delivery that follows it, for one address/vector pair. */
    method ShowEntry(j: int, vb: int, vt: int, longAddress: bool)
      requires Valid() && 0 <= j < 199 && 0 <= vb < 199
      requires vt == MODE_SECURE || vt == MODE_SHORT_INSTRUCTION || vt == MODE_ALPHA
      requires Xsumchk(frame[vb]) == 0
      requires vt != MODE_SHORT_INSTRUCTION ==> BodyInFrame(frame[vb], longAddress)
      modifies this, messageBuffer, groupCodes, groupFrame
      ensures Valid() && Abs() == Entry(old(Abs()), j, vb, vt, longAddress)
    {
      ShowHead(j, vt, longAddress);
      if vt == MODE_SHORT_INSTRUCTION {
        ShowInstruction(vb);
      } else {
        ShowAlpha(vb, vt, longAddress);
      }
    }

    /** show_address and show_phase_speed for one entry. */
    method ShowHead(j: int, vt: int, longAddress: bool)
      requires Valid() && 0 <= j < 199 && 0 <= vt < 8
      modifies this
      ensures Valid() && Abs() == EntryHead(old(Abs()), j, vt, longAddress)
    {
      ShowAddress(frame[j], frame[j + 1], longAddress);
      ShowPhaseSpeed(vt);
    }

    /** An alphanumeric or secure message: display its body, then deliver it. */
    method ShowAlpha(vb: int, vt: int, longAddress: bool)
      requires Valid() && 0 <= vb < 199 && (vt == MODE_SECURE || vt == MODE_ALPHA)
      requires BodyInFrame(frame[vb], longAddress)
      requires g.isGroupMessage == 1 ==> IsGroupCapcode(g.capcode)
      modifies this, messageBuffer, groupCodes, groupFrame
      ensures Valid() && Abs() == Alpha(old(Abs()), vb, vt, longAddress)
    {
      var w1, w2 := BodyWords(frame[vb], longAddress);
      var fragment;
      if !longAddress {
        fragment := (frame[w1 - 1] / 2048) % 4;
      } else {
        fragment := (frame[vb + 1] / 2048) % 4;
      }
      assert fragment == Fragment(frame[..], vb, longAddress);
      ghost var d0 := Abs();
      ShowBody(w1, w2, fragment);
      ghost var d1 := Abs();
      assert d1 == Body(d0, w1, w1, w2, fragment);
      DeliverMessage(vt);
      assert Abs() == Deliver(d1, vt);
    }

    /** The end of an entry that is not a short instruction: a group call, or the entry's own message. */
    method DeliverMessage(vt: int)
      requires Valid() && 0 <= vt < 8
      requires g.isGroupMessage == 1 ==> IsGroupCapcode(g.capcode)
      modifies this, messageBuffer, groupCodes, groupFrame
      ensures Valid() && Abs() == Deliver(old(Abs()), vt)
    {
      if g.isGroupMessage == 1 {
        ConvertGroupcall(g.capcode - GROUP_FIRST, VTYPE[vt], g.capcode);
      } else {
        ParseSingleMessage();
        ShowMessage();
      }
    }

    /** A short instruction: note the group to listen to, then call the group or record the assignment. */
    method ShowInstruction(vb: int)
      requires Valid() && 0 <= vb < 199 && Xsumchk(frame[vb]) == 0
      requires g.isGroupMessage == 1 ==> IsGroupCapcode(g.capcode)
      modifies this, messageBuffer, groupCodes, groupFrame
      ensures Valid() && Abs() == Instruction(old(Abs()), vb)
    {
      GroupBitOfCheckedWord(frame[vb]);
      var assignedFrame := (frame[vb] / 1024) % 128;
      g := g.(tempAddress := (frame[vb] / 131072) % 128);
      if g.isGroupMessage == 1 {
        ConvertGroupcall(g.capcode - GROUP_FIRST, VTYPE[MODE_SHORT_INSTRUCTION], g.capcode);
      } else {
        AddAssignment(assignedFrame, g.tempAddress, Int32(g.capcode));
      }
    }

    /** The body loop of an alphanumeric or secure message: words w1..w2. */
    method ShowBody(w1: int, w2: int, fragment: int)
      requires Valid() && 0 <= w1 && (w1 > w2 || w2 < 200)
      modifies this, messageBuffer
      ensures Valid() && Abs() == Body(old(Abs()), w1, w1, w2, fragment)
    {
      var k := w1;
      while k <= w2
        invariant w1 <= k && (k > w2 || w2 < 200) && Valid()
        invariant Body(Abs(), k, w1, w2, fragment) == Body(old(Abs()), w1, w1, w2, fragment)
      {
        ShowBodyWord(frame[k], k > w1 || fragment != 3);
        k := k + 1;
      }
    }

    /** The three characters of one body word; the low one is skipped when it is the header. */
    method ShowBodyWord(w: int, first: bool)
      requires Valid()
      modifies this, messageBuffer
      ensures Valid() && Abs() == BodyWord(old(Abs()), w, first)
    {
      var c := w % 128;
      if first && c != 3 {
        DisplayShowChar(c);
      }
      c := (w / 128) % 128;
      if c != 3 {
        DisplayShowChar(c);
      }
      c := (w / 16384) % 128;
      if c != 3 {
        DisplayShowChar(c);
      }
    }

    // -------------------------------------------------------------------
    // FlexTIME
    // -------------------------------------------------------------------

    method FlexTime()
      requires Valid()
      modifies this, frame
      ensures Valid()
      ensures Abs() == FlexState.FlexTime(old(Abs()))
    {
      ghost var n := (frame[0] / 256) % 4;
      ghost var target := TimeLoop(Abs(), 0, n);
      var i := 0;
      while i <= (frame[0] / 256) % 4
        invariant 0 <= i <= n + 1
        invariant Valid() && frame[0] == old(frame[0])
        invariant TimeLoop(Abs(), i, n) == target
        decreases n + 1 - i
      {
        var stop := TimeStep(i, n);
        if stop {
          return;
        }
        i := i + 1;
      }
    }

    /** One pass of FlexTIME's loop: a BIW failing its checksum counts an error and ends the loop. */
    method TimeStep(i: int, ghost n: int) returns (stop: bool)
      requires Valid() && 0 <= i <= n < 4
      modifies this, frame
      ensures Valid() && frame[0] == old(frame[0])
      ensures stop ==> Abs() == TimeLoop(old(Abs()), i, n)
      ensures !stop ==> TimeLoop(Abs(), i + 1, n) == TimeLoop(old(Abs()), i, n)
    {
      stop := Xsumchk(frame[i]) != 0;
      if stop {
        CountError();
      } else if i != 0 {
        TimeWordStep(i);
      }
    }

    /** A word that fails its checksum: `iTotalErrors++` (via the channel's error counter), nothing else. */
    method CountError()
      requires Valid()
      modifies this
      ensures Valid() && Abs() == old(Abs()).(totalErrors := old(Abs()).totalErrors + 1)
    {
      g := g.(totalErrors := g.totalErrors + 1);
    }

    /** The switch on one BIW's vector type inside FlexTIME's loop. */
    method TimeWordStep(i: int)
      requires Valid() && 1 <= i < 4 && Xsumchk(frame[i]) == 0
      modifies this, frame
      ensures Valid()
      ensures Abs() == TimeWord(old(Abs()), i)
    {
      var w := frame[i];
      var vt := (w / 16) % 8;
      if vt == 1 {
        w := w / 128;
        w := w / 32;
        w := w / 32;
        frame[i] := w;
        g := g.(flexDate := 1);
      } else if vt == 2 {
        w := w / 128;
        w := w / 32;
        w := w / 64;
        frame[i] := w;
        g := g.(flexTime := 1);
      }
    }

    // -------------------------------------------------------------------
    // flex_rxbit
    // -------------------------------------------------------------------

    /** flex_rxbit (flex.c:831-980): shift the symbol into the history, then hunt for sync or collect a block bit. */
    method RxBit(input: int)
      requires Valid()
      modifies this, ob, frame, block, bitBuffer, messageBuffer, groupCodes, groupFrame
      ensures Valid() && Abs() == FlexReceiver.RxBit(old(Abs()), input)
    {
      ghost var d := Abs();
      ShiftHistoryIn(input);
      assert Abs() == WithHistory(d, ShiftHistory(d.bitBuffer, input));
      if g.flexBlock == 0 {
        SyncStep(input);
      } else {
        CollectStep(input);
      }
    }

    /** The shift loop: each register takes the top bit of the next one, the last one the new bit. */
    method ShiftHistoryIn(input: int)
      requires bitBuffer.Length == 4 && BitBufferOk(bitBuffer[..])
      modifies bitBuffer
      ensures bitBuffer[..] == ShiftHistory(old(bitBuffer[..]), input)
    {
      ghost var b := bitBuffer[..];
      var i := 0;
      while i < 3
        invariant 0 <= i <= 3
        invariant forall t :: 0 <= t < i ==> bitBuffer[t] == Shift16(b[t], TopBit(b[t + 1]))
        invariant forall t :: i <= t < 4 ==> bitBuffer[t] == b[t]
      {
        var x := (bitBuffer[i] * 2) % 0x10000;
        // bit 15 of the next register; bit 0 is clear after the shift, so `|= 1` adds one
        if bitBuffer[i + 1] >= 0x8000 {
          x := x + 1;
        }
        bitBuffer[i] := x;
        i := i + 1;
      }
      var x := (bitBuffer[3] * 2) % 0x10000;
      if input < 2 {
        x := x + 1;
      }
      bitBuffer[3] := x;
      assert bitBuffer[3] == Shift16(b[3], InputBit(input));
      assert bitBuffer[..] == [bitBuffer[0], bitBuffer[1], bitBuffer[2], bitBuffer[3]];
    }

    /** The sync hunt while no frame is collected: end of transmission first, then the sync test. */
    method SyncStep(input: int)
      requires Valid()
      modifies this, ob, bitBuffer
      ensures Valid() && Abs() == FlexReceiver.SyncStep(old(Abs()), input)
    {
      if g.flexTimer != 0 {
        var e1 := NOnes(Xor(bitBuffer[2], EOT1));
        var e2 := NOnes(Xor(bitBuffer[3], EOT2));
        if e1 + e2 == 0 {
          g := g.(flexTimer := 0);
          return;
        }
      }
      SyncCheck(input);
    }

    /** nh counts the bits in which the middle 32 history bits miss 0xA6C6AAAA; a complemented sync is turned back. */
    method SyncCheck(input: int)
      requires Valid()
      modifies this, ob, bitBuffer
      ensures Valid() && Abs() == FlexReceiver.SyncCheck(old(Abs()), input)
    {
      var nh := AlignSync();
      if nh < 2 {
        SyncFound(input);
      } else {
        Countdown(input);
      }
    }

    /** nh against the sync pattern; a complemented sync (nh == 32 and inverse outer words) is turned back, nh then 0. */
    method AlignSync() returns (nh: int)
      requires Valid()
      modifies bitBuffer
      ensures var d := old(Abs());
              Valid() && Abs() == Aligned(d) && (nh < 2 <==> InvertedSync(d.bitBuffer) || SyncDistance(d.bitBuffer) < 2)
    {
      nh := SyncMiss();
      if nh == 32 {
        if Xor(bitBuffer[0], bitBuffer[3]) % 0x10000 == ALL_ONES {
          InvertOuter();
          nh := 0;
        }
      }
    }

    /** The two middle registers against the sync pattern A6C6AAAA: the number of differing bits. */
    method SyncMiss() returns (nh: int)
      requires bitBuffer.Length == 4 && BitBufferOk(bitBuffer[..])
      ensures nh == SyncDistance(bitBuffer[..])
    {
      var s1 := NOnes(Xor(bitBuffer[1], SYNC1));
      var s2 := NOnes(Xor(bitBuffer[2], SYNC2));
      nh := s1 + s2;
    }

    /** `iBitBuffer[0] ^= 0xFFFF; iBitBuffer[3] ^= 0xFFFF;` */
    method InvertOuter()
      requires Valid()
      modifies bitBuffer
      ensures var d := old(Abs());
              Valid() && Abs() == WithHistory(d, Invert03(d.bitBuffer))
    {
      ghost var d := Abs();
      bitBuffer[0] := Xor(bitBuffer[0], ALL_ONES);
      bitBuffer[3] := Xor(bitBuffer[3], ALL_ONES);
      assert bitBuffer[..] == Invert03(d.bitBuffer);
    }

    /** An accepted sync: arm the 89-bit countdown; look the speed up and count down only when the outer words match. */
    method SyncFound(input: int)
      requires Valid()
      modifies this, ob
      ensures Valid() && Abs() == FlexReceiver.SyncFound(old(Abs()), input)
    {
      ArmCountdown();
      var nh2 := NOnes(Xor(Xor(bitBuffer[0], bitBuffer[3]), ALL_ONES));
      if nh2 < 2 {
        SpeedSearch();
        Countdown(input);
      }
    }

    /** `iFlexBlockCount = 89`: the header countdown starts. */
    method ArmCountdown()
      requires Valid()
      modifies this
      ensures Valid() && Abs() == old(Abs()).(flexBlockCount := 89)
    {
      g := g.(flexBlockCount := 89);
    }

    /** The speed loop's effect: the first matching variant sets timer, speed and level. */
    method SpeedSearch()
      requires Valid()
      modifies this
      ensures Valid() && Abs() == FlexReceiver.SpeedSearch(old(Abs()))
    {
      ghost var b := bitBuffer[..];
      var speed := FindSpeed();
      assert bitBuffer[..] == b;
      FirstSpeedIs(b, 0, speed);
      assert FirstSpeed(Abs().bitBuffer, 0) == speed;
      if speed < 8 {
        SetSpeed(speed);
      }
    }

    /** The matching variant's settings: the 20-frame timer, 3200 bps for odd variants, 4 levels for variants 2, 3, 6 and 7. */
    method SetSpeed(speed: int)
      requires Valid() && 0 <= speed < 8
      modifies this
      ensures Valid() && Abs() == old(Abs()).(flexTimer := 20, sps := if speed % 2 == 1 then 3200 else 1600,
                                              level := if (speed / 2) % 2 == 1 then 4 else 2)
    {
      g := g.(flexTimer := 20, sps := if speed % 2 == 1 then 3200 else 1600,
              level := if (speed / 2) % 2 == 1 then 4 else 2);
    }

    /** The speed loop's search: the first variant within one bit of both outer sync words, 8 when none is. */
    method FindSpeed() returns (speed: int)
      requires bitBuffer.Length == 4 && BitBufferOk(bitBuffer[..])
      ensures 0 <= speed <= 8
      ensures speed < 8 ==> SpeedMatches(bitBuffer[..], speed)
      ensures forall t :: 0 <= t < speed ==> !SpeedMatches(bitBuffer[..], t)
    {
      ghost var bb := bitBuffer[..];
      speed := 0;
      while speed < 8
        invariant 0 <= speed <= 8
        invariant forall t :: 0 <= t < speed ==> !SpeedMatches(bb, t)
      {
        var a := NOnes(Xor(bitBuffer[0], SYNCS[speed]));
        var b := NOnes(Xor(bitBuffer[3], ALL_ONES - SYNCS[speed]));
        assert a + b == Distance(bb[0], SYNCS[speed]) + Distance(bb[3], ALL_ONES - SYNCS[speed]);
        if a + b < 2 {
          return;
        }
        assert !SpeedMatches(bb, speed);
        speed := speed + 1;
      }
    }

    /** FirstSpeed is the first matching variant from s on. */
    static lemma {:induction false} FirstSpeedIs(b: seq<nat>, s: int, k: int)
      requires BitBufferOk(b) && 0 <= s <= k <= 8
      requires k < 8 ==> SpeedMatches(b, k)
      requires forall t :: s <= t < k ==> !SpeedMatches(b, t)
      ensures FirstSpeed(b, s) == k
      decreases k - s
    {
      if s < k {
        FirstSpeedIs(b, s + 1, k);
      }
    }

    /** The header countdown: capture a bit of the frame-information word, decode it at 39, start collecting at 0. */
    method Countdown(input: int)
      requires Valid()
      modifies this, ob
      ensures Valid() && Abs() == FlexReceiver.Countdown(old(Abs()), input)
    {
      if g.flexBlockCount > 0 {
        var c := g.flexBlockCount - 1;
        g := g.(flexBlockCount := c);
        if c < 72 && c > 39 {
          CaptureBit(71 - c, input);
        } else if c == 39 {
          HeaderDecode();
        }
        if c == 0 {
          StartBlocks();
        }
      }
    }

    /** `ob[k] = input`: one bit of the frame-information word. */
    method CaptureBit(k: int, input: int)
      requires Valid() && 0 <= k < 32
      modifies ob
      ensures Valid() && Abs() == old(Abs()).(ob := old(Abs()).ob[k := InputBit(input)])
    {
      ob[k] := InputBit(input);
    }

    /** The header is over: collection starts with block 11 of the frame and an empty block buffer. */
    method StartBlocks()
      requires Valid()
      modifies this
      ensures Valid() && Abs() == old(Abs()).(flexBlock := 11, bct := 0, hbit := 0)
    {
      g := g.(flexBlock := 11, bct := 0, hbit := 0);
    }

    /** ecd on the captured word; with fewer than 2 errors, cycle and frame are read from it. */
    method HeaderDecode()
      requires Valid()
      modifies this, ob
      ensures Valid() && Abs() == FlexReceiver.HeaderDecode(old(Abs()))
    {
      ghost var d := Abs();
      var cer := CorrectWord();
      HeaderDecodeCases(d, Abs());
      if cer < 2 {
        SetHeader();
      }
    }

    /** ecd on the decoder: the codeword in ob is corrected in place, nothing else changes. */
    method CorrectWord() returns (errors: int)
      requires Valid()
      modifies ob
      ensures var dec := Correct(old(Abs()).ecs, old(Abs()).bch, old(Abs()).ob);
              Valid() && errors == dec.errors && Abs() == old(Abs()).(ob := dec.word)
    {
      ghost var d := Abs();
      errors := Ecd();
      HeaderDecodeCases(d, d.(ob := ob[..]));
      assert Abs() == d.(ob := ob[..]);
    }

    /** A header word with fewer than two errors sets the cycle and frame numbers it carries. */
    method SetHeader()
      requires Valid()
      modifies this
      ensures var d := old(Abs());
              var cy, fr := 15 - Field(d.ob, 4, 4), 127 - Field(d.ob, 8, 7);
              Valid() && Abs() == d.(cy := cy, currentCycle := cy, fr := fr, currentFrame := fr)
    {
      var cy, fr := HeaderFields();
      g := g.(cy := cy, currentCycle := cy, fr := fr, currentFrame := fr);
    }

    /** FlexReceiver.HeaderDecode once the word is corrected: the fields are set only for fewer than two errors. */
    static lemma HeaderDecodeCases(d: Snap, d1: Snap)
      requires SnapOk(d) && d1 == d.(ob := Correct(d.ecs, d.bch, d.ob).word)
      ensures SnapOk(d1)
      ensures var cy, fr := 15 - Field(d1.ob, 4, 4), 127 - Field(d1.ob, 8, 7);
              FlexReceiver.HeaderDecode(d) == if Correct(d.ecs, d.bch, d.ob).errors < 2
                                 then d1.(cy := cy, currentCycle := cy, fr := fr, currentFrame := fr) else d1
    {
    }

    /** The two `hd` loops: cycle is bits 4..7 of the word complemented, frame bits 8..14 complemented. */
    method HeaderFields() returns (cy: int, fr: int)
      requires ob.Length == 32
      ensures cy == 15 - Field(ob[..], 4, 4) && fr == 127 - Field(ob[..], 8, 7)
    {
      Pow2Values();
      var hd := ShiftInField(4, 4, 0);
      assert hd == Field(ob[..], 4, 4);
      ModUnique(hd, 16, 0, hd);
      XorAllOnes(hd, 4);
      cy := Xor(hd % 16, 0x0f);
      ghost var h0 := hd;
      hd := ShiftInField(8, 7, hd);
      assert h0 / Pow2(7) == 0;
      assert hd == Field(ob[..], 8, 7);
      ModUnique(hd, 128, 0, hd);
      XorAllOnes(hd, 7);
      fr := Xor(hd % 128, 0x7f);
    }

    /**
     * One `hd` loop: for ihd from lo to lo + w - 1, hd is halved and takes
     * bit ihd at bit w - 1; what was in hd drops out by w places.
     */
    method ShiftInField(lo: nat, w: nat, h0: nat) returns (hd: nat)
      requires ob.Length == 32 && 1 <= w && lo + w <= 32 && h0 < Pow2(w)
      ensures hd == Field(ob[..], lo, w) + h0 / Pow2(w)
    {
      hd := h0;
      var top := Pow2(w - 1);
      var ihd := lo;
      while ihd < lo + w
        invariant lo <= ihd <= lo + w
        invariant hd == Field(ob[..], lo, ihd - lo) * Pow2(w - (ihd - lo)) + h0 / Pow2(ihd - lo)
      {
        HdRegisterStep(ob[..], lo, ihd - lo, w, h0, hd);
        ghost var prev := hd;
        hd := hd / 2;
        if ob[ihd] == 1 {
          hd := Xor(hd, top);
        }
        assert hd == HdStep(prev, ob[..][lo + (ihd - lo)], w);
        ihd := ihd + 1;
      }
    }

    /** Block collection: store the bit; a full block goes to showblock. */
    method CollectStep(input: int)
      requires Valid() && g.flexBlock != 0
      modifies this, ob, frame, block, messageBuffer, groupCodes, groupFrame
      ensures Valid() && Abs() == FlexReceiver.CollectStep(old(Abs()), input)
    {
      var full := StoreBit(input);
      if full {
        EndBlock();
      }
    }

    /** Store the bit (every other one at 3200 bps) and advance bct; at 256 it restarts at 0 and full is set. */
    method StoreBit(input: int) returns (full: bool)
      requires Valid()
      modifies this, block
      ensures full == BlockFull(old(Abs()))
      ensures Valid() && Abs() == FlexReceiver.StoreBit(old(Abs()), input)
    {
      var bct := g.bct;
      var hbit := g.hbit;
      if g.sps == 1600 {
        block[bct] := InputBit(input);
        bct := bct + 1;
      } else {
        if hbit == 0 {
          block[bct] := InputBit(input);
          hbit := hbit + 1;
        } else {
          hbit := 0;
          bct := bct + 1;
        }
      }
      full := bct == 256;
      if full {
        bct := 0;
      }
      g := g.(bct := bct, hbit := hbit);
    }

    /** showblock(11 - iFlexBlock), then one block fewer to go; the frame is counted when none is left. */
    method EndBlock()
      requires Valid() && 1 <= g.flexBlock <= 11
      modifies this, ob, frame, messageBuffer, groupCodes, groupFrame
      ensures Valid() && Abs() == FlexReceiver.EndBlock(old(Abs()))
    {
      ghost var d := Abs();
      ShowBlock(11 - g.flexBlock);
      ghost var d2 := Abs();
      CountBlock();
      EndBlockIs(d, d2, Abs());
    }

    /** The two steps of `EndBlock` compose to the block-end function. */
    static lemma {:induction false} EndBlockIs(d: Snap, d2: Snap, r: Snap)
      requires SnapOk(d) && 1 <= d.flexBlock <= 11 && d2 == FlexFrames.ShowBlock(d, 11 - d.flexBlock)
      requires SnapOk(d2) && 1 <= d2.flexBlock <= 11 && r == FlexReceiver.CountBlock(d2)
      ensures r == FlexReceiver.EndBlock(d)
    { }

    /** `iFlexBlock--`, and `iFrameCount++` when no block of the frame is left. */
    method CountBlock()
      requires Valid() && 1 <= g.flexBlock <= 11
      modifies this
      ensures Valid() && Abs() == FlexReceiver.CountBlock(old(Abs()))
    {
      ghost var d := Abs();
      var left := g.flexBlock - 1;
      var frames := if left == 0 then g.frameCount + 1 else g.frameCount;
      g := g.(flexBlock := left, frameCount := frames);
      SnapOkCounters(d, left, frames);
    }

    /** `Rows()` is determined by the array's elements. */
    lemma {:induction false} RowsAre(rows: seq<seq<int>>)
      requires |rows| == groupCodes.Length0
      requires forall gb :: 0 <= gb < |rows| ==> |rows[gb]| == groupCodes.Length1
      requires forall gb, k :: 0 <= gb < |rows| && 0 <= k < groupCodes.Length1 ==> rows[gb][k] == groupCodes[gb, k]
      ensures Rows() == rows
    {
      forall gb | 0 <= gb < |rows|
        ensures Rows()[gb] == rows[gb]
      {
        assert forall k :: 0 <= k < groupCodes.Length1 ==> Rows()[gb][k] == rows[gb][k];
      }
    }
  }
}
