/**
 * The decoder's whole state as a value, and the value-level meaning of the
 * message-assembly routines of flex.c: display_show_char, show_address,
 * show_phase_speed, parseSingleMessage, ShowMessage, AddAssignment,
 * ConvertGroupcall and FlexTIME.  The class `Flex.FlexDecoder` holds the same
 * state in fields and arrays; each of its methods is proved to move its
 * abstraction `Abs()` exactly as the function of the same name here does.
 */
module FlexState {
  import opened Bits
  import opened Ecc
  import opened Words

  /** The text of `Current_MSG[MSG_CAPCODE]`: a zero-padded number, or question marks. */
  datatype CapcodeText = Digits(value: int, width: nat) | Unknown(width: nat)

  /** One message as ShowMessage reports it: capcode, type label and text. */
  datatype Message = Message(capcode: CapcodeText, kind: string, text: seq<int>)

  const GROUP_ROWS: nat := 17

  /**
   * Every file-scope global and function-local static of flex.c that the core
   * reads or writes, plus `flex_total_error_count` of the per-channel state;
   * `shown` is the list of messages ShowMessage has reported so far.
   */
  datatype Snap = Snap(
    // setupecc / ecd
    ecs: seq<nat>, bch: seq<nat>, ob: seq<Bit>,
    // flex_rxbit statics and the globals it drives
    bitBuffer: seq<nat>, flexBlock: int, flexBlockCount: int, flexTimer: int,
    bct: int, hbit: int, cy: int, fr: int, sps: int, level: int,
    currentCycle: int, currentFrame: int, frameCount: int, block: seq<Bit>,
    // showblock / FlexTIME
    frame: seq<int>, totalErrors: int, lastFrame: int, flexTime: int, flexDate: int,
    // message assembly
    buffer: seq<int>, messageIndex: int, unknownChars: int,
    capcode: int, isGroupMessage: int, messagesCounter: int,
    tempAddress: int, convertingGroupcall: int,
    capcodeText: CapcodeText, typeText: string, messageText: seq<int>,
    // group calls
    groupCodes: seq<seq<int>>, groupFrame: seq<int>,
    shown: seq<Message>)

  /**
   * One `aGroupCodes` row: slot 0 holds the member count, slots 1..count the
   * member capcodes, every later slot 0.  The count stays below 1000, so every
   * member slot lies inside the row (see AddAssignment).
   */
  predicate RowOk(row: seq<int>)
  {
    |row| == MAXIMUM_GROUPSIZE && 0 <= row[0] < MAXIMUM_GROUPSIZE &&
    forall i :: row[0] < i < |row| ==> row[i] == 0
  }

  predicate GroupsOk(rows: seq<seq<int>>)
  {
    |rows| == GROUP_ROWS && forall g :: 0 <= g < |rows| ==> RowOk(rows[g])
  }

  /** The member capcodes of a row, in insertion order. */
  function Members(row: seq<int>): (m: seq<int>)
    requires RowOk(row)
    ensures |m| == row[0]
  {
    row[1..row[0] + 1]
  }

  predicate BitBufferOk(b: seq<nat>)
  {
    |b| == 4 && forall i :: 0 <= i < 4 ==> b[i] < 0x10000
  }

  /** Everything flex_rxbit owns (tables, history, counters, block buffer) but iFlexBlock is the same in d and r. */
  predicate ReceiverKept(d: Snap, r: Snap)
  {
    r.ecs == d.ecs && r.bch == d.bch && r.bitBuffer == d.bitBuffer &&
    r.flexBlockCount == d.flexBlockCount && r.flexTimer == d.flexTimer && r.bct == d.bct &&
    r.hbit == d.hbit && r.sps == d.sps && r.level == d.level && r.frameCount == d.frameCount &&
    r.block == d.block
  }

  /** The invariant every routine of the decoder keeps. */
  predicate SnapOk(d: Snap)
  {
    CodecOk(d) && ReceiverOk(d) && FrameOk(d) && MessageOk(d)
  }

  /** The correction tables and the codeword buffer. */
  predicate CodecOk(d: Snap)
  {
    EcsOk(d.ecs) && TableOk(d.bch) && |d.ob| == 32
  }

  /** The bit history, the counters and the block buffer of flex_rxbit. */
  predicate ReceiverOk(d: Snap)
  {
    BitBufferOk(d.bitBuffer) &&
    0 <= d.flexBlock <= 11 && 0 <= d.flexBlockCount <= 89 &&
    0 <= d.bct < 256 && 0 <= d.hbit <= 1 &&
    (d.sps == 1600 || d.sps == 3200) && (d.level == 2 || d.level == 4) &&
    |d.block| == 256
  }

  /** Every frame word as showblock stores it. */
  predicate FrameOk(d: Snap)
  {
    |d.frame| == 200 && forall i :: 0 <= i < 200 ==> WordShape(d.frame[i])
  }

  /** The message buffer holds bytes, the index stays inside it, and the group table is well formed. */
  predicate MessageOk(d: Snap)
  {
    |d.buffer| == MAX_STR_LEN + 1 && (forall i :: 0 <= i < |d.buffer| ==> 0 <= d.buffer[i] < 256) &&
    0 <= d.messageIndex < MAX_STR_LEN &&
    GroupsOk(d.groupCodes) && |d.groupFrame| == GROUP_ROWS
  }

  function Zeros(n: nat): (z: seq<int>)
    ensures |z| == n && forall i :: 0 <= i < n ==> z[i] == 0
  {
    seq(n, _ => 0)
  }

  // ---------------------------------------------------------------------
  // display_show_char (flex.c:540-553)
  // ---------------------------------------------------------------------

  function DisplayShowChar(d: Snap, cin: int): (r: Snap)
    requires SnapOk(d)
    ensures SnapOk(r)
    ensures r.buffer == d.buffer[d.messageIndex := ShownChar(cin) % 256]
    ensures r.messageIndex <= MAX_STR_LEN - 1
    ensures d.messageIndex < MAX_STR_LEN - 1 ==> r.messageIndex == d.messageIndex + 1
    ensures r.unknownChars == (if Unprintable(cin) then 1 else d.unknownChars)
    ensures r == d.(buffer := r.buffer, messageIndex := r.messageIndex, unknownChars := r.unknownChars)
  {
    var c := ShownChar(cin);
    d.(buffer := d.buffer[d.messageIndex := c % 256],
       messageIndex := if d.messageIndex < MAX_STR_LEN - 1 then d.messageIndex + 1 else d.messageIndex,
       unknownChars := if Unprintable(cin) then 1 else d.unknownChars)
  }

  /** display_show_char applied to each character in turn. */
  function DisplayAll(d: Snap, cs: seq<int>): (r: Snap)
    requires SnapOk(d)
    ensures SnapOk(r)
    decreases |cs|
  {
    if cs == [] then d else DisplayAll(DisplayShowChar(d, cs[0]), cs[1..])
  }

  /**
   * Text that fits is stored as shown: starting from index i, displaying cs
   * puts ShownChar(cs[t]) at i + t, advances the index by |cs| and leaves the
   * buffer outside those slots alone.
   */
  lemma {:induction false} DisplayAllStores(d: Snap, cs: seq<int>)
    requires SnapOk(d) && d.messageIndex + |cs| < MAX_STR_LEN
    ensures DisplayAll(d, cs).messageIndex == d.messageIndex + |cs|
    ensures forall t :: 0 <= t < |cs| ==> DisplayAll(d, cs).buffer[d.messageIndex + t] == ShownChar(cs[t]) % 256
    ensures forall k :: 0 <= k < |d.buffer| && !(d.messageIndex <= k < d.messageIndex + |cs|) ==>
              DisplayAll(d, cs).buffer[k] == d.buffer[k]
    decreases |cs|
  {
    if cs != [] {
      var d1 := DisplayShowChar(d, cs[0]);
      DisplayAllStores(d1, cs[1..]);
      forall t | 0 <= t < |cs|
        ensures DisplayAll(d, cs).buffer[d.messageIndex + t] == ShownChar(cs[t]) % 256
      {
        if t > 0 {
          assert cs[1..][t - 1] == cs[t];
        }
      }
    }
  }

  // ---------------------------------------------------------------------
  // show_address (flex.c:556-594) and show_phase_speed (flex.c:520-538)
  // ---------------------------------------------------------------------

  function ShowAddress(d: Snap, l: int, l2: int, longAddress: bool): (r: Snap)
    requires SnapOk(d)
    ensures SnapOk(r)
    ensures r.capcode == Capcode(l, l2, longAddress)
    ensures r.capcodeText == (if AddressFlagged(l, l2, longAddress) then Unknown(if longAddress then 9 else 7)
                              else Digits(r.capcode, if longAddress then 9 else 7))
    ensures r.isGroupMessage == 1 <==> IsGroupCapcode(r.capcode)
    ensures r.isGroupMessage == 1 ==> !longAddress && 0 <= r.capcode - GROUP_FIRST < 16
    ensures r.messagesCounter == d.messagesCounter + (if r.isGroupMessage == 1 then 0 else 1)
    ensures r == d.(capcode := r.capcode, capcodeText := r.capcodeText,
                    isGroupMessage := r.isGroupMessage, messagesCounter := r.messagesCounter)
  {
    CapcodeRanges(l, l2);
    var c := Capcode(l, l2, longAddress);
    var width := if longAddress then 9 else 7;
    var group := IsGroupCapcode(c);
    d.(capcode := c,
       capcodeText := if AddressFlagged(l, l2, longAddress) then Unknown(width) else Digits(c, width),
       isGroupMessage := if group then 1 else 0,
       messagesCounter := if group then d.messagesCounter else d.messagesCounter + 1)
  }

  function ShowPhaseSpeed(d: Snap, vt: int): (r: Snap)
    requires SnapOk(d) && 0 <= vt < 8
    ensures SnapOk(r)
    ensures r == d.(typeText := PhaseSpeedLabel(vt))
  {
    d.(typeText := PhaseSpeedLabel(vt))
  }

  // ---------------------------------------------------------------------
  // parseSingleMessage (flex.c:288-295) and ShowMessage (flex.c:363-373)
  // ---------------------------------------------------------------------

  function ParseSingleMessage(d: Snap): (r: Snap)
    requires SnapOk(d)
    ensures SnapOk(r)
    ensures r.unknownChars == 0 && |r.messageText| == MAX_STR_LEN
    ensures d.convertingGroupcall == 0 ==> r.messageIndex == 0 && r.buffer == d.buffer[d.messageIndex := 0]
    ensures d.convertingGroupcall != 0 ==> r.messageIndex == d.messageIndex && r.buffer == d.buffer
    ensures r.messageText == r.buffer[..MAX_STR_LEN]
    ensures r == d.(buffer := r.buffer, messageIndex := r.messageIndex, messageText := r.messageText, unknownChars := 0)
  {
    var d1 := if d.convertingGroupcall == 0 then d.(buffer := d.buffer[d.messageIndex := 0], messageIndex := 0) else d;
    d1.(messageText := d1.buffer[..MAX_STR_LEN], unknownChars := 0)
  }

  /** The message text as `%s` shows it: up to the first NUL. */
  function ShowMessage(d: Snap): (r: Snap)
    requires SnapOk(d)
    ensures SnapOk(r)
    ensures r == d.(shown := d.shown + [Message(d.capcodeText, d.typeText, CString(d.messageText))])
  {
    d.(shown := d.shown + [Message(d.capcodeText, d.typeText, CString(d.messageText))])
  }

  /**
   * The whole path of a single (non-group) message: after displaying text
   * that fits from an empty buffer and has no NUL, parseSingleMessage and
   * ShowMessage report exactly the shown characters.
   */
  lemma {:induction false} SingleMessageText(d: Snap, cs: seq<int>)
    requires SnapOk(d) && d.messageIndex == 0 && d.convertingGroupcall == 0
    requires |cs| < MAX_STR_LEN
    requires forall t :: 0 <= t < |cs| ==> 0 < cs[t] < 128
    ensures var r := ShowMessage(ParseSingleMessage(DisplayAll(d, cs)));
            r.shown == d.shown + [Message(d.capcodeText, d.typeText, seq(|cs|, t requires 0 <= t < |cs| => ShownChar(cs[t])))]
  {
    var d1 := DisplayAll(d, cs);
    DisplayAllKeeps(d, cs);
    ParsedTextIsShown(d, cs);
    var d2 := ParseSingleMessage(d1);
    assert d2.capcodeText == d.capcodeText && d2.typeText == d.typeText && d2.shown == d.shown;
  }

  lemma {:induction false} ParsedTextIsShown(d: Snap, cs: seq<int>)
    requires SnapOk(d) && d.messageIndex == 0 && d.convertingGroupcall == 0
    requires |cs| < MAX_STR_LEN
    requires forall t :: 0 <= t < |cs| ==> 0 < cs[t] < 128
    ensures CString(ParseSingleMessage(DisplayAll(d, cs)).messageText) == seq(|cs|, t requires 0 <= t < |cs| => ShownChar(cs[t]))
  {
    var d1 := DisplayAll(d, cs);
    DisplayAllStores(d, cs);
    DisplayAllKeeps(d, cs);
    var text := d1.buffer[|cs| := 0][..MAX_STR_LEN];
    assert ParseSingleMessage(d1).messageText == text;
    var want := seq(|cs|, t requires 0 <= t < |cs| => ShownChar(cs[t]));
    forall t | 0 <= t < |cs| ensures text[t] == want[t] && want[t] != 0 {
      ShownCharIsByte(cs[t]);
      assert text[t] == d1.buffer[t];
    }
    CStringPrefix(text, want);
  }

  /**
   * The general case of ParsedTextIsShown: body characters may include NUL,
   * and the reported text is then the shown characters up to the first one.
   */
  lemma {:induction false} ParsedTextUpToNul(d: Snap, cs: seq<int>)
    requires SnapOk(d) && d.messageIndex == 0 && d.convertingGroupcall == 0
    requires |cs| < MAX_STR_LEN
    requires forall t :: 0 <= t < |cs| ==> 0 <= cs[t] < 128
    ensures CString(ParseSingleMessage(DisplayAll(d, cs)).messageText) ==
              CString(seq(|cs|, t requires 0 <= t < |cs| => ShownChar(cs[t])))
  {
    var d1 := DisplayAll(d, cs);
    DisplayAllStores(d, cs);
    DisplayAllKeeps(d, cs);
    var text := d1.buffer[|cs| := 0][..MAX_STR_LEN];
    assert ParseSingleMessage(d1).messageText == text;
    var want := seq(|cs|, t requires 0 <= t < |cs| => ShownChar(cs[t]));
    forall t | 0 <= t < |cs| ensures text[t] == want[t] {
      ShownCharIsByte(cs[t]);
      assert text[t] == d1.buffer[t];
    }
    CStringUpTo(text, want);
  }

  /** A NUL right after p ends the C string no later than p does. */
  lemma {:induction false} CStringUpTo(s: seq<int>, p: seq<int>)
    requires |p| < |s| && s[|p|] == 0
    requires forall t :: 0 <= t < |p| ==> s[t] == p[t]
    ensures CString(s) == CString(p)
    decreases |p|
  {
    if p != [] && p[0] != 0 {
      CStringUpTo(s[1..], p[1..]);
    }
  }

  /** Displaying characters changes nothing but the buffer, its index and the unknown-character flag. */
  lemma {:induction false} DisplayAllKeeps(d: Snap, cs: seq<int>)
    requires SnapOk(d)
    ensures var r := DisplayAll(d, cs);
            r == d.(buffer := r.buffer, messageIndex := r.messageIndex, unknownChars := r.unknownChars)
    decreases |cs|
  {
    if cs != [] {
      DisplayAllKeeps(DisplayShowChar(d, cs[0]), cs[1..]);
    }
  }

  /** A NUL right after a NUL-free prefix ends the C string there. */
  lemma {:induction false} CStringPrefix(s: seq<int>, p: seq<int>)
    requires |p| < |s| && s[|p|] == 0
    requires forall t :: 0 <= t < |p| ==> s[t] == p[t] && p[t] != 0
    ensures CString(s) == p
    decreases |p|
  {
    if p != [] {
      CStringPrefix(s[1..], p[1..]);
    }
  }

  // ---------------------------------------------------------------------
  // AddAssignment (flex.c:398-411)
  // ---------------------------------------------------------------------

  /**
   * Record a capcode as a member of group `groupbit`, to be called in
   * `assignedFrame`.  The row grows only while slot count + 1 exists; see the
   * finding on the source's guard in README.md.
   */
  function AddAssignment(d: Snap, assignedFrame: int, groupbit: int, capcode: int): (r: Snap)
    requires SnapOk(d) && 0 <= groupbit < GROUP_ROWS
    ensures SnapOk(r)
    ensures r.messageIndex == 0
    ensures d.groupCodes[groupbit][0] + 1 < MAXIMUM_GROUPSIZE ==>
              Members(r.groupCodes[groupbit]) == Members(d.groupCodes[groupbit]) + [capcode] &&
              r.groupFrame == d.groupFrame[groupbit := assignedFrame]
    ensures d.groupCodes[groupbit][0] + 1 >= MAXIMUM_GROUPSIZE ==>
              r.groupCodes == d.groupCodes && r.groupFrame == d.groupFrame
    ensures forall g :: 0 <= g < GROUP_ROWS && g != groupbit ==> r.groupCodes[g] == d.groupCodes[g]
    ensures d.messageIndex == 0 ==> r.buffer == d.buffer
    ensures d.messageIndex != 0 ==> r.buffer == d.buffer[d.messageIndex := 0]
    ensures r == d.(groupCodes := r.groupCodes, groupFrame := r.groupFrame, buffer := r.buffer, messageIndex := 0)
  {
    var d1 := if d.groupCodes[groupbit][0] + 1 < MAXIMUM_GROUPSIZE then Assigned(d, assignedFrame, groupbit, capcode) else d;
    IndexCleared(d1)
  }

  /** AddAssignment's guarded branch: the count grows by one and the capcode goes into the new last slot. */
  function Assigned(d: Snap, assignedFrame: int, groupbit: int, capcode: int): (r: Snap)
    requires SnapOk(d) && 0 <= groupbit < GROUP_ROWS && d.groupCodes[groupbit][0] + 1 < MAXIMUM_GROUPSIZE
    ensures SnapOk(r)
    ensures Members(r.groupCodes[groupbit]) == Members(d.groupCodes[groupbit]) + [capcode]
    ensures var n := d.groupCodes[groupbit][0];
            r == d.(groupCodes := d.groupCodes[groupbit := d.groupCodes[groupbit][0 := n + 1][n + 1 := capcode]],
                    groupFrame := d.groupFrame[groupbit := assignedFrame])
  {
    var row := d.groupCodes[groupbit];
    var n := row[0];
    var row' := row[0 := n + 1][n + 1 := capcode];
    assert Members(row') == Members(row) + [capcode];
    d.(groupCodes := d.groupCodes[groupbit := row'], groupFrame := d.groupFrame[groupbit := assignedFrame])
  }

  /** The end of AddAssignment: a message in progress is cut off and the index returns to 0. */
  function IndexCleared(d: Snap): (r: Snap)
    requires SnapOk(d)
    ensures SnapOk(r)
    ensures r == if d.messageIndex != 0 then d.(buffer := d.buffer[d.messageIndex := 0], messageIndex := 0) else d
  {
    if d.messageIndex != 0 then d.(buffer := d.buffer[d.messageIndex := 0], messageIndex := 0) else d
  }

  // ---------------------------------------------------------------------
  // ConvertGroupcall (flex.c:299-349)
  // ---------------------------------------------------------------------

  /** How ConvertGroupcall renders a member capcode: 9999999 as seven question marks. */
  function MemberText(c: int): (t: CapcodeText)
    ensures c == INVALID_CAPCODE ==> t == Unknown(7)
    ensures c != INVALID_CAPCODE ==> t == Digits(c, 7)
  {
    if c == INVALID_CAPCODE then Unknown(7) else Digits(c, 7)
  }

  /** The messages reported for the members of a group, in insertion order. */
  function MemberMessages(members: seq<int>, text: seq<int>): (ms: seq<Message>)
    ensures |ms| == |members|
    ensures forall t :: 0 <= t < |members| ==> ms[t] == Message(MemberText(members[t]), "GROUP", text)
  {
    seq(|members|, t requires 0 <= t < |members| => Message(MemberText(members[t]), "GROUP", text))
  }

  /** The group's call is due: a group capcode whose row was assigned to the current frame. */
  predicate CallDue(d: Snap, groupbit: int, capcode: int)
    requires SnapOk(d)
  {
    IsGroupCapcode(capcode) && 0 <= groupbit < GROUP_ROWS && d.groupFrame[groupbit] == d.currentFrame
  }

  function ConvertGroupcall(d: Snap, groupbit: int, kind: string, capcode: int): (r: Snap)
    requires SnapOk(d) && (IsGroupCapcode(capcode) ==> 0 <= groupbit < GROUP_ROWS)
    ensures SnapOk(r)
    ensures r.messageIndex == 0
    ensures !CallDue(d, groupbit, capcode) ==>
              r == d.(buffer := d.buffer[d.messageIndex := 0], messageIndex := 0)
    ensures CallDue(d, groupbit, capcode) ==>
              var text := CString(d.buffer[d.messageIndex := 0][..MAX_STR_LEN]);
              r.shown == d.shown + MemberMessages(Members(d.groupCodes[groupbit]), text) + [Message(Digits(capcode, 7), kind, text)] &&
              r.groupCodes == d.groupCodes[groupbit := Zeros(MAXIMUM_GROUPSIZE)] &&
              r.groupFrame == d.groupFrame[groupbit := -1] &&
              r.messagesCounter == d.messagesCounter + 1 && r.unknownChars == 0 && r.convertingGroupcall == 0
    ensures r == d.(buffer := r.buffer, messageIndex := 0, convertingGroupcall := r.convertingGroupcall,
                    messageText := r.messageText, typeText := r.typeText, capcodeText := r.capcodeText,
                    unknownChars := r.unknownChars, messagesCounter := r.messagesCounter, shown := r.shown,
                    groupCodes := r.groupCodes, groupFrame := r.groupFrame)
  {
    var d1 := Terminated(d);
    var d2 := if IsGroupCapcode(capcode) && d1.groupFrame[groupbit] == d1.currentFrame then CallGroup(d1, groupbit, kind, capcode) else d1;
    Rewound(d2)
  }

  /** The string terminator ConvertGroupcall writes at the message index. */
  function Terminated(d: Snap): (r: Snap)
    requires SnapOk(d)
    ensures SnapOk(r)
    ensures r == d.(buffer := d.buffer[d.messageIndex := 0])
  {
    d.(buffer := d.buffer[d.messageIndex := 0])
  }

  /** The message index back at the start of the buffer. */
  function Rewound(d: Snap): (r: Snap)
    requires SnapOk(d)
    ensures SnapOk(r)
    ensures r == d.(messageIndex := 0)
  {
    d.(messageIndex := 0)
  }

  /**
   * The due branch of ConvertGroupcall: one "GROUP" message per member, then
   * the call itself with the buffer's text, then the row is emptied and its
   * frame forgotten.
   */
  function CallGroup(d: Snap, groupbit: int, kind: string, capcode: int): (r: Snap)
    requires SnapOk(d) && 0 <= groupbit < GROUP_ROWS
    ensures SnapOk(r)
    ensures var text := d.buffer[..MAX_STR_LEN];
            r == d.(convertingGroupcall := 0, messageText := text, typeText := kind,
                    capcodeText := Digits(capcode, 7), unknownChars := 0,
                    messagesCounter := d.messagesCounter + 1,
                    shown := d.shown + MemberMessages(Members(d.groupCodes[groupbit]), CString(text)) +
                             [Message(Digits(capcode, 7), kind, CString(text))],
                    groupCodes := d.groupCodes[groupbit := Zeros(MAXIMUM_GROUPSIZE)],
                    groupFrame := d.groupFrame[groupbit := -1])
  {
    var text := d.buffer[..MAX_STR_LEN];
    d.(convertingGroupcall := 0, messageText := text, typeText := kind,
       capcodeText := Digits(capcode, 7), unknownChars := 0,
       messagesCounter := d.messagesCounter + 1,
       shown := d.shown + MemberMessages(Members(d.groupCodes[groupbit]), CString(text)) +
                [Message(Digits(capcode, 7), kind, CString(text))],
       groupCodes := d.groupCodes[groupbit := Zeros(MAXIMUM_GROUPSIZE)],
       groupFrame := d.groupFrame[groupbit := -1])
  }

  /**
   * The two group routines together: a capcode assigned to a group with room
   * for it, for the frame that is current when the group's call arrives, is
   * reported as a "GROUP" message ahead of the call itself, and the row is
   * empty afterwards.
   */
  lemma {:induction false} AssignedMemberIsCalled(d: Snap, groupbit: int, member: int, kind: string)
    requires SnapOk(d) && 0 <= groupbit < 16
    requires d.groupCodes[groupbit][0] + 1 < MAXIMUM_GROUPSIZE
    ensures var d1 := AddAssignment(d, d.currentFrame, groupbit, member);
            var r := ConvertGroupcall(d1, groupbit, kind, GROUP_FIRST + groupbit);
            var n := d.groupCodes[groupbit][0];
            |r.shown| == |d.shown| + n + 2 &&
            r.shown[|d.shown| + n].capcode == MemberText(member) &&
            r.shown[|d.shown| + n].kind == "GROUP" &&
            r.shown[|d.shown| + n + 1].capcode == Digits(GROUP_FIRST + groupbit, 7) &&
            Members(r.groupCodes[groupbit]) == []
  {
    var d1 := AddAssignment(d, d.currentFrame, groupbit, member);
    var n := d.groupCodes[groupbit][0];
    assert CallDue(d1, groupbit, GROUP_FIRST + groupbit);
    assert Members(d1.groupCodes[groupbit])[n] == member;
  }

  // ---------------------------------------------------------------------
  // FlexTIME (flex.c:443-514)
  // ---------------------------------------------------------------------

  /** One BIW of FlexTIME's loop: a date word is shifted by 7+5+5, a time word by 7+5+6. */
  function TimeWord(d: Snap, i: int): (r: Snap)
    requires SnapOk(d) && 1 <= i < 4 && Xsumchk(d.frame[i]) == 0
    ensures SnapOk(r)
    ensures r == d.(frame := r.frame, flexDate := r.flexDate, flexTime := r.flexTime)
    ensures forall k :: 0 <= k < |d.frame| && k != i ==> r.frame[k] == d.frame[k]
    ensures VectorType(d.frame[i]) != 1 && VectorType(d.frame[i]) != 2 ==> r == d
  {
    var w := d.frame[i];
    var vt := VectorType(w);
    if vt == 1 then d.(frame := d.frame[i := w / 128 / 32 / 32], flexDate := 1)
    else if vt == 2 then d.(frame := d.frame[i := w / 128 / 32 / 64], flexTime := 1)
    else d
  }

  /** FlexTIME's loop from BIW i on, n + 1 BIWs in all; it stops at the first failing checksum. */
  function TimeLoop(d: Snap, i: nat, n: int): (r: Snap)
    requires SnapOk(d) && n < 4
    ensures SnapOk(r)
    decreases n + 1 - i
  {
    if i > n then d
    else if Xsumchk(d.frame[i]) != 0 then d.(totalErrors := d.totalErrors + 1)
    else if i == 0 then TimeLoop(d, 1, n)
    else TimeLoop(TimeWord(d, i), i + 1, n)
  }

  function FlexTime(d: Snap): (r: Snap)
    requires SnapOk(d)
    ensures SnapOk(r) && ReceiverKept(d, r) && r.flexBlock == d.flexBlock
    ensures r == d.(frame := r.frame, totalErrors := r.totalErrors, flexTime := r.flexTime, flexDate := r.flexDate)
    ensures d.totalErrors <= r.totalErrors <= d.totalErrors + 1
    ensures forall k :: 4 <= k < 200 ==> r.frame[k] == d.frame[k]
    ensures r.frame[0] == d.frame[0]
  {
    TimeLoopEffect(d, 0, (d.frame[0] / 256) % 4);
    TimeLoop(d, 0, (d.frame[0] / 256) % 4)
  }

  /**
   * FlexTIME changes only frame[1..3], the error count (by at most one) and
   * the two flags; BIW 0 itself is never shifted.
   */
  lemma {:induction false} TimeLoopEffect(d: Snap, i: nat, n: int)
    requires SnapOk(d) && n < 4
    ensures var r := TimeLoop(d, i, n);
            r == d.(frame := r.frame, totalErrors := r.totalErrors, flexTime := r.flexTime, flexDate := r.flexDate) &&
            (d.totalErrors <= r.totalErrors <= d.totalErrors + 1) &&
            (forall k :: 0 <= k < 200 && !(1 <= k < 4 && i <= k <= n) ==> r.frame[k] == d.frame[k])
    decreases n + 1 - i
  {
    if i <= n && Xsumchk(d.frame[i]) == 0 {
      if i == 0 {
        TimeLoopEffect(d, 1, n);
        assert TimeLoop(d, i, n) == TimeLoop(d, 1, n);
      } else {
        var d1 := TimeWord(d, i);
        assert d1 == d.(frame := d1.frame, flexTime := d1.flexTime, flexDate := d1.flexDate);
        assert forall k :: 0 <= k < 200 && k != i ==> d1.frame[k] == d.frame[k];
        TimeLoopEffect(d1, i + 1, n);
        assert TimeLoop(d, i, n) == TimeLoop(d1, i + 1, n);
      }
    }
  }

  /** FlexTIME counts one error exactly when some BIW from i to n fails its checksum. */
  lemma {:induction false} TimeLoopCount(d: Snap, i: nat, n: int)
    requires SnapOk(d) && n < 4
    ensures var r := TimeLoop(d, i, n);
            (r.totalErrors == d.totalErrors + 1 <==> exists q :: i <= q <= n && Xsumchk(d.frame[q]) != 0) &&
            (r.totalErrors == d.totalErrors <==> forall q :: i <= q <= n ==> Xsumchk(d.frame[q]) == 0)
    decreases n + 1 - i
  {
    if i <= n && Xsumchk(d.frame[i]) == 0 {
      if i == 0 {
        TimeLoopCount(d, 1, n);
      } else {
        var d1 := TimeWord(d, i);
        TimeLoopCount(d1, i + 1, n);
        assert forall q :: i < q < 200 ==> d1.frame[q] == d.frame[q];
      }
    }
  }

  /**
   * A BIW k >= 1 that passes, with every BIW from i to k passing, ends up as
   * TimeWord leaves it, and the flag its vector type names is set.
   */
  lemma {:induction false} TimeLoopShifts(d: Snap, i: nat, n: int, k: int)
    requires SnapOk(d) && n < 4 && 1 <= k < 4 && i <= k <= n
    requires forall q :: i <= q <= k ==> Xsumchk(d.frame[q]) == 0
    ensures var r := TimeLoop(d, i, n);
            r.frame[k] == TimeWord(d, k).frame[k] &&
            (VectorType(d.frame[k]) == 1 ==> r.flexDate == 1) &&
            (VectorType(d.frame[k]) == 2 ==> r.flexTime == 1)
    decreases n + 1 - i
  {
    if i == 0 {
      TimeLoopShifts(d, 1, n, k);
    } else {
      var d1 := TimeWord(d, i);
      if k == i {
        TimeLoopEffect(d1, i + 1, n);
        TimeFlagsKept(d1, i + 1, n);
      } else {
        assert forall q :: i < q < 200 ==> d1.frame[q] == d.frame[q];
        TimeLoopShifts(d1, i + 1, n, k);
      }
    }
  }

  /** From a BIW that fails its checksum on, FlexTIME touches no word. */
  lemma {:induction false} TimeLoopStops(d: Snap, i: nat, n: int, k: int)
    requires SnapOk(d) && n < 4 && i <= k <= n && Xsumchk(d.frame[k]) != 0
    ensures forall q :: k <= q < 200 ==> TimeLoop(d, i, n).frame[q] == d.frame[q]
    decreases n + 1 - i
  {
    if Xsumchk(d.frame[i]) == 0 {
      if i == 0 {
        TimeLoopStops(d, 1, n, k);
      } else {
        var d1 := TimeWord(d, i);
        assert forall q :: i < q < 200 ==> d1.frame[q] == d.frame[q];
        TimeLoopStops(d1, i + 1, n, k);
      }
    }
  }

  /** FlexTIME's loop only ever sets the two flags, never clears them. */
  lemma {:induction false} TimeFlagsKept(d: Snap, i: nat, n: int)
    requires SnapOk(d) && n < 4
    ensures d.flexDate == 1 ==> TimeLoop(d, i, n).flexDate == 1
    ensures d.flexTime == 1 ==> TimeLoop(d, i, n).flexTime == 1
    decreases n + 1 - i
  {
    if i <= n && Xsumchk(d.frame[i]) == 0 {
      if i == 0 {
        TimeFlagsKept(d, 1, n);
      } else {
        TimeFlagsKept(TimeWord(d, i), i + 1, n);
      }
    }
  }

  /** A date BIW that passes its checksum sets FLEX_date and is left shifted right by 17 bits. */
  lemma {:induction false} DateWordShifted(d: Snap, i: int)
    requires SnapOk(d) && 1 <= i < 4 && Xsumchk(d.frame[i]) == 0 && VectorType(d.frame[i]) == 1
    ensures TimeWord(d, i).flexDate == 1
    ensures TimeWord(d, i).frame[i] == d.frame[i] / 131072
  {
    var w := d.frame[i];
    DivDiv(w, 128, 32);
    DivDiv(w, 4096, 32);
  }

  /** A time BIW that passes its checksum sets FLEX_time and is left shifted right by 18 bits. */
  lemma {:induction false} TimeWordShifted(d: Snap, i: int)
    requires SnapOk(d) && 1 <= i < 4 && Xsumchk(d.frame[i]) == 0 && VectorType(d.frame[i]) == 2
    ensures TimeWord(d, i).flexTime == 1
    ensures TimeWord(d, i).frame[i] == d.frame[i] / 262144
  {
    var w := d.frame[i];
    DivDiv(w, 128, 32);
    DivDiv(w, 4096, 64);
  }

  lemma {:induction false} DivDiv(x: int, a: int, b: int)
    requires x >= 0 && a > 0 && b > 0
    ensures x / a / b == x / (a * b)
  {
    var q, r := x / a, x % a;
    var q2, r2 := q / b, q % b;
    assert x == a * q + r;
    assert q == b * q2 + r2;
    assert a * q == (a * b) * q2 + a * r2;
    MulBelow(a, r2, b);
    ModUnique(x, a * b, q2, a * r2 + r);
  }

  lemma {:induction false} MulBelow(a: int, r: int, b: int)
    requires a > 0 && 0 <= r < b
    ensures a * r + a <= a * b
  {
    assert a * b - a * r == a * (b - r);
    MulAtLeast(a, b - r);
  }
}
