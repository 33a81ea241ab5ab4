/**
 * The value-level meaning of showblock (deinterleave, correct and pack one
 * block of eight codewords) and showframe (walk the address/vector pairs of
 * a frame and assemble messages).
 */
module FlexFrames {
  import opened Bits
  import opened Ecc
  import opened Words
  import opened FlexState

  // ---------------------------------------------------------------------
  // Alphanumeric bodies (flex.c:652-697)
  // ---------------------------------------------------------------------

  /** The 7-bit characters a body word carries, in display order, with 0x03 dropped. */
  function WordChars(w: int, first: bool): (cs: seq<int>)
    ensures |cs| <= 3
    ensures forall t :: 0 <= t < |cs| ==> 0 <= cs[t] < 128 && cs[t] != 3
  {
    var c1 := w % 128;
    var c2 := (w / 128) % 128;
    var c3 := (w / 16384) % 128;
    (if first && c1 != 3 then [c1] else []) + (if c2 != 3 then [c2] else []) + (if c3 != 3 then [c3] else [])
  }

  /** The characters of body words k..w2; the low field of word w1 is the header when the fragment number is 3. */
  function BodyChars(f: seq<int>, k: int, w1: int, w2: int, frag: int): (cs: seq<int>)
    requires 0 <= w1 <= k && (k > w2 || w2 < |f|)
    ensures forall t :: 0 <= t < |cs| ==> 0 <= cs[t] < 128 && cs[t] != 3
    decreases w2 + 1 - k
  {
    if k > w2 then [] else WordChars(f[k], k > w1 || frag != 3) + BodyChars(f, k + 1, w1, w2, frag)
  }

  /** The displays of one body word, as showframe performs them. */
  function BodyWord(d: Snap, w: int, first: bool): (r: Snap)
    requires SnapOk(d)
    ensures SnapOk(r)
    ensures r == d.(buffer := r.buffer, messageIndex := r.messageIndex, unknownChars := r.unknownChars)
  {
    var c1 := w % 128;
    var d1 := if first && c1 != 3 then DisplayShowChar(d, c1) else d;
    var c2 := (w / 128) % 128;
    var d2 := if c2 != 3 then DisplayShowChar(d1, c2) else d1;
    var c3 := (w / 16384) % 128;
    if c3 != 3 then DisplayShowChar(d2, c3) else d2
  }

  /** The body loop `for (k = w1; k <= w2; k++)`, from word k on. */
  function Body(d: Snap, k: int, w1: int, w2: int, frag: int): (r: Snap)
    requires SnapOk(d) && 0 <= w1 <= k && (k > w2 || w2 < 200)
    ensures SnapOk(r)
    ensures r == d.(buffer := r.buffer, messageIndex := r.messageIndex, unknownChars := r.unknownChars)
    decreases w2 + 1 - k
  {
    if k > w2 then d else Body(BodyWord(d, d.frame[k], k > w1 || frag != 3), k + 1, w1, w2, frag)
  }

  lemma {:induction false} DisplayAllConcat(d: Snap, a: seq<int>, b: seq<int>)
    requires SnapOk(d)
    ensures DisplayAll(d, a + b) == DisplayAll(DisplayAll(d, a), b)
    decreases |a|
  {
    if a != [] {
      assert (a + b)[0] == a[0] && (a + b)[1..] == a[1..] + b;
      DisplayAllConcat(DisplayShowChar(d, a[0]), a[1..], b);
    } else {
      assert a + b == b;
    }
  }

  lemma {:induction false} BodyWordIsDisplay(d: Snap, w: int, first: bool)
    requires SnapOk(d)
    ensures BodyWord(d, w, first) == DisplayAll(d, WordChars(w, first))
  {
    var c1, c2, c3 := w % 128, (w / 128) % 128, (w / 16384) % 128;
    var p := if first && c1 != 3 then [c1] else [];
    var q := if c2 != 3 then [c2] else [];
    var u := if c3 != 3 then [c3] else [];
    assert WordChars(w, first) == p + q + u;
    DisplayAllConcat(d, p + q, u);
    DisplayAllConcat(d, p, q);
    var d1 := DisplayAll(d, p);
    var d2 := DisplayAll(d1, q);
    DisplayMaybe(d, c1, first && c1 != 3);
    DisplayMaybe(d1, c2, c2 != 3);
    DisplayMaybe(d2, c3, c3 != 3);
  }

  lemma {:induction false} DisplayMaybe(d: Snap, c: int, keep: bool)
    requires SnapOk(d)
    ensures DisplayAll(d, if keep then [c] else []) == if keep then DisplayShowChar(d, c) else d
  {
    if keep {
      assert [c][1..] == [];
    }
  }

  /** The body loop displays exactly the characters of BodyChars, in order. */
  lemma {:induction false} BodyIsDisplay(d: Snap, k: int, w1: int, w2: int, frag: int)
    requires SnapOk(d) && 0 <= w1 <= k && (k > w2 || w2 < 200)
    ensures Body(d, k, w1, w2, frag) == DisplayAll(d, BodyChars(d.frame, k, w1, w2, frag))
    decreases w2 + 1 - k
  {
    if k <= w2 {
      var first := k > w1 || frag != 3;
      var d1 := BodyWord(d, d.frame[k], first);
      BodyWordIsDisplay(d, d.frame[k], first);
      DisplayAllKeeps(d, WordChars(d.frame[k], first));
      BodyIsDisplay(d1, k + 1, w1, w2, frag);
      DisplayAllConcat(d, WordChars(d.frame[k], first), BodyChars(d.frame, k + 1, w1, w2, frag));
    }
  }

  // ---------------------------------------------------------------------
  // showframe (flex.c:606-734)
  // ---------------------------------------------------------------------

  /** Fragment number of an alphanumeric message: from its first body word, or from the second vector word of a long address. */
  function Fragment(f: seq<int>, vb: int, longAddress: bool): (n: int)
    requires |f| == 200 && 0 <= vb < 199
    ensures 0 <= n < 4
  {
    if !longAddress then (f[(f[vb] / 128) % 128] / 2048) % 4 else (f[vb + 1] / 2048) % 4
  }

  /** After show_address: a group capcode starts the group call, anything else ends the entry with its own message. */
  function Deliver(d: Snap, vt: int): (r: Snap)
    requires SnapOk(d) && 0 <= vt < 8
    requires d.isGroupMessage == 1 ==> IsGroupCapcode(d.capcode)
    ensures SnapOk(r) && r.frame == d.frame && r.totalErrors == d.totalErrors
    ensures ReceiverKept(d, r) && r.flexBlock == d.flexBlock
  {
    if d.isGroupMessage == 1 then ConvertGroupcall(d, d.capcode - GROUP_FIRST, VTYPE[vt], d.capcode)
    else ShowMessage(ParseSingleMessage(d))
  }

  /** show_address and show_phase_speed, the start of every entry. */
  function EntryHead(d: Snap, j: int, vt: int, longAddress: bool): (r: Snap)
    requires SnapOk(d) && 0 <= j < 199 && 0 <= vt < 8
    ensures SnapOk(r) && r.frame == d.frame && r.totalErrors == d.totalErrors
    ensures ReceiverKept(d, r) && r.flexBlock == d.flexBlock
    ensures r.isGroupMessage == 1 ==> IsGroupCapcode(r.capcode)
    ensures r.convertingGroupcall == d.convertingGroupcall
    ensures r.capcode == Capcode(d.frame[j], d.frame[j + 1], longAddress)
    ensures r.isGroupMessage == 1 <==> IsGroupCapcode(r.capcode)
  {
    ShowPhaseSpeed(ShowAddress(d, d.frame[j], d.frame[j + 1], longAddress), vt)
  }

  /** A short instruction: note the group to listen to, then call that group or record the assignment. */
  function Instruction(d: Snap, vb: int): (r: Snap)
    requires SnapOk(d) && 0 <= vb < 199 && Xsumchk(d.frame[vb]) == 0
    requires d.isGroupMessage == 1 ==> IsGroupCapcode(d.capcode)
    ensures SnapOk(r) && r.frame == d.frame && r.totalErrors == d.totalErrors
    ensures ReceiverKept(d, r) && r.flexBlock == d.flexBlock
  {
    var v := d.frame[vb];
    GroupBitOfCheckedWord(v);
    var d2 := d.(tempAddress := GroupBit(v));
    if d2.isGroupMessage == 1 then ConvertGroupcall(d2, d2.capcode - GROUP_FIRST, VTYPE[MODE_SHORT_INSTRUCTION], d2.capcode)
    else AddAssignment(d2, AssignedFrame(v), d2.tempAddress, Int32(d2.capcode))
  }

  /** An alphanumeric or secure message: its body is displayed, then it is delivered. */
  function Alpha(d: Snap, vb: int, vt: int, longAddress: bool): (r: Snap)
    requires SnapOk(d) && 0 <= vb < 199 && (vt == MODE_SECURE || vt == MODE_ALPHA)
    requires BodyInFrame(d.frame[vb], longAddress)
    requires d.isGroupMessage == 1 ==> IsGroupCapcode(d.capcode)
    ensures SnapOk(r) && r.frame == d.frame && r.totalErrors == d.totalErrors
    ensures ReceiverKept(d, r) && r.flexBlock == d.flexBlock
  {
    var (w1, w2) := BodyRange(d.frame[vb], longAddress);
    var d2 := Body(d, w1, w1, w2, Fragment(d.frame, vb, longAddress));
    Deliver(d2, vt)
  }

  /** One address/vector pair whose vector word passed its checksum and has type 0, 1 or 5. */
  function Entry(d: Snap, j: int, vb: int, vt: int, longAddress: bool): (r: Snap)
    requires SnapOk(d) && 0 <= j < 199 && 0 <= vb < 199
    requires vt == MODE_SECURE || vt == MODE_SHORT_INSTRUCTION || vt == MODE_ALPHA
    requires Xsumchk(d.frame[vb]) == 0
    requires vt != MODE_SHORT_INSTRUCTION ==> BodyInFrame(d.frame[vb], longAddress)
    ensures SnapOk(r) && r.frame == d.frame && r.totalErrors == d.totalErrors
    ensures ReceiverKept(d, r) && r.flexBlock == d.flexBlock
  {
    var d1 := EntryHead(d, j, vt, longAddress);
    if vt == MODE_SHORT_INSTRUCTION then Instruction(d1, vb) else Alpha(d1, vb, vt, longAddress)
  }

  /** The vector types showframe handles: secure, short instruction and alphanumeric. */
  predicate Handled(vt: int)
  {
    vt == MODE_SECURE || vt == MODE_SHORT_INSTRUCTION || vt == MODE_ALPHA
  }

  /** The long-address flag after address word j: once set it stays set. */
  function LongAt(f: seq<int>, j: int, longAddress: bool): (long': bool)
    requires |f| == 200 && 0 <= j < 200
    ensures long' <==> longAddress || IsLongAddress(f[j] % 0x200000)
  {
    longAddress || IsLongAddress(f[j] % 0x200000)
  }

  /** Where showframe's loop goes after address word j: a handled entry with a long address skips its second word. */
  function NextEntry(f: seq<int>, asa: int, vsa: int, j: int, longAddress: bool): (next: (int, bool))
    requires |f| == 200 && 1 <= asa <= j < vsa < 64
    ensures next.1 == LongAt(f, j, longAddress)
    ensures next.0 == j + 1 || (next.0 == j + 2 && next.1)
  {
    var long' := LongAt(f, j, longAddress);
    var v := f[vsa + j - asa];
    if Xsumchk(v) == 0 && Handled(VectorType(v)) && long' then (j + 2, long') else (j + 1, long')
  }

  /** The entry at address word j reads no body word past frame[199]. */
  predicate EntryFits(f: seq<int>, asa: int, vsa: int, j: int, longAddress: bool)
    requires |f| == 200 && 1 <= asa <= j < vsa < 64
  {
    var v := f[vsa + j - asa];
    var vt := VectorType(v);
    Xsumchk(v) != 0 || !Handled(vt) || vt == MODE_SHORT_INSTRUCTION || BodyInFrame(v, LongAt(f, j, longAddress))
  }

  /** The walk showframe's loop performs, and the body range every announced body must respect. */
  predicate EntriesOk(f: seq<int>, asa: int, vsa: int, j: int, longAddress: bool)
    requires |f| == 200 && 1 <= asa <= j && vsa < 64
    decreases vsa - j
  {
    j >= vsa ||
      (EntryFits(f, asa, vsa, j, longAddress) &&
       var (j', long') := NextEntry(f, asa, vsa, j, longAddress);
       EntriesOk(f, asa, vsa, j', long'))
  }

  /** One pass of showframe's loop: a vector word failing its checksum counts an error, a handled one is shown. */
  function EntryEffect(d: Snap, asa: int, vsa: int, j: int, longAddress: bool): (r: Snap)
    requires SnapOk(d) && 1 <= asa <= j < vsa < 64
    requires EntryFits(d.frame, asa, vsa, j, longAddress)
    ensures SnapOk(r) && r.frame == d.frame && r.totalErrors >= d.totalErrors
    ensures ReceiverKept(d, r) && r.flexBlock == d.flexBlock
  {
    var vb := vsa + j - asa;
    var v := d.frame[vb];
    var vt := VectorType(v);
    if Xsumchk(v) != 0 then d.(totalErrors := d.totalErrors + 1)
    else if Handled(vt) then Entry(d, j, vb, vt, LongAt(d.frame, j, longAddress))
    else d
  }

  /** showframe's loop from address word j on. */
  function Entries(d: Snap, asa: int, vsa: int, j: int, longAddress: bool): (r: Snap)
    requires SnapOk(d) && 1 <= asa <= j && vsa < 64
    requires EntriesOk(d.frame, asa, vsa, j, longAddress)
    ensures SnapOk(r) && r.frame == d.frame && r.totalErrors >= d.totalErrors
    ensures ReceiverKept(d, r) && r.flexBlock == d.flexBlock
    decreases vsa - j
  {
    if j >= vsa then d
    else
      var (j', long') := NextEntry(d.frame, asa, vsa, j, longAddress);
      Entries(EntryEffect(d, asa, vsa, j, longAddress), asa, vsa, j', long')
  }

  function ShowFrame(d: Snap, asa: int, vsa: int): (r: Snap)
    requires SnapOk(d) && 1 <= asa <= 4 && 0 <= vsa < 64
    requires Xsumchk(d.frame[0]) == 0 ==> EntriesOk(d.frame, asa, vsa, asa, false)
    ensures SnapOk(r) && r.frame == d.frame && r.totalErrors >= d.totalErrors
    ensures ReceiverKept(d, r) && r.flexBlock == d.flexBlock
    ensures Xsumchk(d.frame[0]) != 0 ==> r == d.(tempAddress := -1)
  {
    var d1 := d.(tempAddress := -1);
    if Xsumchk(d.frame[0]) == 0 then Entries(d1, asa, vsa, asa, false) else d1
  }

  /** The vector words showframe's walk from address word j on finds failing their checksum. */
  function FailedVectors(f: seq<int>, asa: int, vsa: int, j: int, longAddress: bool): (n: nat)
    requires |f| == 200 && 1 <= asa <= j && vsa < 64
    decreases vsa - j
  {
    if j >= vsa then 0
    else
      var (j', long') := NextEntry(f, asa, vsa, j, longAddress);
      (if Xsumchk(f[vsa + j - asa]) != 0 then 1 else 0) + FailedVectors(f, asa, vsa, j', long')
  }

  /**
   * One pass of the loop: a vector word failing its checksum adds exactly one
   * error and changes nothing else; a passing one of a type other than 0, 1
   * and 5 changes nothing; a handled entry adds no error.
   */
  lemma {:induction false} EntryErrors(d: Snap, asa: int, vsa: int, j: int, longAddress: bool)
    requires SnapOk(d) && 1 <= asa <= j < vsa < 64
    requires EntryFits(d.frame, asa, vsa, j, longAddress)
    ensures var v := d.frame[vsa + j - asa];
            var r := EntryEffect(d, asa, vsa, j, longAddress);
            (Xsumchk(v) != 0 ==> r == d.(totalErrors := d.totalErrors + 1)) &&
            (Xsumchk(v) == 0 && !Handled(VectorType(v)) ==> r == d) &&
            (Xsumchk(v) == 0 ==> r.totalErrors == d.totalErrors)
  {
  }

  /** showframe's loop counts one error per failing vector word it visits, and no other. */
  lemma {:induction false} EntriesErrors(d: Snap, asa: int, vsa: int, j: int, longAddress: bool)
    requires SnapOk(d) && 1 <= asa <= j && vsa < 64
    requires EntriesOk(d.frame, asa, vsa, j, longAddress)
    ensures Entries(d, asa, vsa, j, longAddress).totalErrors == d.totalErrors + FailedVectors(d.frame, asa, vsa, j, longAddress)
    decreases vsa - j
  {
    if j < vsa {
      var (j', long') := NextEntry(d.frame, asa, vsa, j, longAddress);
      var d1 := EntryEffect(d, asa, vsa, j, longAddress);
      EntryErrors(d, asa, vsa, j, longAddress);
      EntriesErrors(d1, asa, vsa, j', long');
    }
  }

  /**
   * A short instruction to an individual address records the capcode as a
   * member of the group the vector word names, for the frame it names, and
   * shows nothing.
   */
  lemma {:induction false} InstructionAssigns(d: Snap, j: int, vb: int, longAddress: bool)
    requires SnapOk(d) && 0 <= j < 199 && 0 <= vb < 199 && Xsumchk(d.frame[vb]) == 0
    requires !IsGroupCapcode(Capcode(d.frame[j], d.frame[j + 1], longAddress))
    ensures var v := d.frame[vb];
            var c := Capcode(d.frame[j], d.frame[j + 1], longAddress);
            var d1 := ShowPhaseSpeed(ShowAddress(d, d.frame[j], d.frame[j + 1], longAddress), MODE_SHORT_INSTRUCTION);
            var r := Entry(d, j, vb, MODE_SHORT_INSTRUCTION, longAddress);
            0 <= GroupBit(v) < 16 &&
            r == AddAssignment(d1.(tempAddress := GroupBit(v)), AssignedFrame(v), GroupBit(v), Int32(c)) &&
            r.tempAddress == GroupBit(v) && r.shown == d.shown && r.messagesCounter == d.messagesCounter + 1 &&
            (d.groupCodes[GroupBit(v)][0] + 1 < MAXIMUM_GROUPSIZE ==>
               Members(r.groupCodes[GroupBit(v)]) == Members(d.groupCodes[GroupBit(v)]) + [Int32(c)] &&
               r.groupFrame[GroupBit(v)] == AssignedFrame(v))
  {
    GroupBitOfCheckedWord(d.frame[vb]);
  }

  /**
   * A short instruction to one of the 16 group capcodes goes to
   * ConvertGroupcall with the group's index and the instruction's label,
   * after the group to listen to has been noted.
   */
  lemma {:induction false} GroupInstructionCalls(d: Snap, j: int, vb: int, longAddress: bool)
    requires SnapOk(d) && 0 <= j < 199 && 0 <= vb < 199 && Xsumchk(d.frame[vb]) == 0
    requires IsGroupCapcode(Capcode(d.frame[j], d.frame[j + 1], longAddress))
    ensures var c := Capcode(d.frame[j], d.frame[j + 1], longAddress);
            var d1 := ShowPhaseSpeed(ShowAddress(d, d.frame[j], d.frame[j + 1], longAddress), MODE_SHORT_INSTRUCTION);
            !longAddress && 0 <= c - GROUP_FIRST < 16 &&
            Entry(d, j, vb, MODE_SHORT_INSTRUCTION, longAddress) ==
              ConvertGroupcall(d1.(tempAddress := GroupBit(d.frame[vb])), c - GROUP_FIRST, VTYPE[MODE_SHORT_INSTRUCTION], c)
  {
    GroupBitOfCheckedWord(d.frame[vb]);
  }

  /**
   * An alphanumeric or secure message to one of the 16 group capcodes goes to
   * ConvertGroupcall with the group's index and the message's label, after its
   * body has been displayed.
   */
  lemma {:induction false} GroupAlphaCalls(d: Snap, j: int, vb: int, vt: int, longAddress: bool, c: int)
    requires SnapOk(d) && 0 <= j < 199 && 0 <= vb < 199 && (vt == MODE_SECURE || vt == MODE_ALPHA)
    requires Xsumchk(d.frame[vb]) == 0 && BodyInFrame(d.frame[vb], longAddress)
    requires c == Capcode(d.frame[j], d.frame[j + 1], longAddress) && IsGroupCapcode(c)
    ensures var d1 := EntryHead(d, j, vt, longAddress);
            var (w1, w2) := BodyRange(d.frame[vb], longAddress);
            !longAddress && 0 <= c - GROUP_FIRST < 16 &&
            Entry(d, j, vb, vt, longAddress) ==
              ConvertGroupcall(Body(d1, w1, w1, w2, Fragment(d.frame, vb, longAddress)), c - GROUP_FIRST, VTYPE[vt], c)
  {
    CapcodeRanges(d.frame[j], d.frame[j + 1]);
    EntryAlpha(d, j, vb, vt, longAddress);
    AlphaGroup(EntryHead(d, j, vt, longAddress), vb, vt, longAddress, d.frame, c);
  }

  /** An alphanumeric or secure entry is the head followed by Alpha. */
  lemma {:induction false} EntryAlpha(d: Snap, j: int, vb: int, vt: int, longAddress: bool)
    requires SnapOk(d) && 0 <= j < 199 && 0 <= vb < 199 && (vt == MODE_SECURE || vt == MODE_ALPHA)
    requires Xsumchk(d.frame[vb]) == 0 && BodyInFrame(d.frame[vb], longAddress)
    ensures Entry(d, j, vb, vt, longAddress) == Alpha(EntryHead(d, j, vt, longAddress), vb, vt, longAddress)
  {
  }

  /** A body taken in for a group message is handed to ConvertGroupcall under the group's index. */
  lemma {:induction false} AlphaGroup(d: Snap, vb: int, vt: int, longAddress: bool, frame: seq<int>, c: int)
    requires SnapOk(d) && 0 <= vb < 199 && (vt == MODE_SECURE || vt == MODE_ALPHA)
    requires d.frame == frame && BodyInFrame(frame[vb], longAddress)
    requires d.isGroupMessage == 1 && d.capcode == c && IsGroupCapcode(c)
    ensures var (w1, w2) := BodyRange(frame[vb], longAddress);
            Alpha(d, vb, vt, longAddress) ==
              ConvertGroupcall(Body(d, w1, w1, w2, Fragment(frame, vb, longAddress)), c - GROUP_FIRST, VTYPE[vt], c)
  {
    var (w1, w2) := BodyRange(d.frame[vb], longAddress);
    BodyKeepsAddress(d, w1, w1, w2, Fragment(d.frame, vb, longAddress));
    DeliverGroup(Body(d, w1, w1, w2, Fragment(d.frame, vb, longAddress)), vt, c);
  }

  /** Taking in a body leaves the capcode and the group flag alone. */
  lemma {:induction false} BodyKeepsAddress(d: Snap, k: int, w1: int, w2: int, frag: int)
    requires SnapOk(d) && 0 <= w1 <= k && (k > w2 || w2 < 200)
    ensures Body(d, k, w1, w2, frag).isGroupMessage == d.isGroupMessage
    ensures Body(d, k, w1, w2, frag).capcode == d.capcode
  {
    var r := Body(d, k, w1, w2, frag);
    assert r == d.(buffer := r.buffer, messageIndex := r.messageIndex, unknownChars := r.unknownChars);
  }

  /** A group message is delivered through ConvertGroupcall under its row index. */
  lemma {:induction false} DeliverGroup(d: Snap, vt: int, c: int)
    requires SnapOk(d) && 0 <= vt < 8 && d.isGroupMessage == 1 && d.capcode == c && IsGroupCapcode(c)
    ensures Deliver(d, vt) == ConvertGroupcall(d, c - GROUP_FIRST, VTYPE[vt], c)
  {
  }

  /**
   * An alphanumeric or secure message to an individual (short, non-group)
   * address is reported once, under its capcode and type label.  When the
   * message buffer starts empty and the body fits in it, the reported text is
   * the body's characters (header field and 0x03 fillers dropped) as
   * display_show_char shows them, up to the first NUL.
   */
  lemma {:induction false} AlphaEntryReported(d: Snap, j: int, vb: int, vt: int, c: int, r: Snap)
    requires SnapOk(d) && 0 <= j < 199 && 0 <= vb < 199
    requires vt == MODE_SECURE || vt == MODE_ALPHA
    requires Xsumchk(d.frame[vb]) == 0 && BodyInFrame(d.frame[vb], false)
    requires c == Capcode(d.frame[j], d.frame[j + 1], false) && !IsGroupCapcode(c)
    requires d.convertingGroupcall == 0
    requires r == Entry(d, j, vb, vt, false)
    ensures |r.shown| == |d.shown| + 1 &&
            r.shown[|d.shown|].kind == VTYPE[vt] &&
            r.shown[|d.shown|].capcode == (if AddressFlagged(d.frame[j], d.frame[j + 1], false) then Unknown(7) else Digits(c, 7)) &&
            r.messagesCounter == d.messagesCounter + 1 && r.messageIndex == 0
    ensures var (w1, w2) := BodyRange(d.frame[vb], false);
            var cs := BodyChars(d.frame, w1, w1, w2, Fragment(d.frame, vb, false));
            d.messageIndex == 0 && |cs| < MAX_STR_LEN ==>
              r.shown[|d.shown|].text == CString(seq(|cs|, t requires 0 <= t < |cs| => ShownChar(cs[t])))
  {
    var v := d.frame[vb];
    var d1 := ShowPhaseSpeed(ShowAddress(d, d.frame[j], d.frame[j + 1], false), vt);
    var (w1, w2) := BodyRange(v, false);
    var frag := Fragment(d.frame, vb, false);
    var cs := BodyChars(d1.frame, w1, w1, w2, frag);
    BodyIsDisplay(d1, w1, w1, w2, frag);
    DisplayAllKeeps(d1, cs);
    if d.messageIndex == 0 && |cs| < MAX_STR_LEN {
      ParsedTextUpToNul(d1, cs);
    }
  }

  // ---------------------------------------------------------------------
  // showblock (flex.c:737-790)
  // ---------------------------------------------------------------------

  /** Codeword i of a block: bit j is block[j * 8 + i]. */
  function Column(block: seq<Bit>, i: int): (ob: seq<Bit>)
    requires |block| == 256 && 0 <= i < 8
    ensures |ob| == 32 && forall j :: 0 <= j < 32 ==> ob[j] == block[j * 8 + i]
  {
    seq(32, j requires 0 <= j < 32 => block[j * 8 + i])
  }

  /** Correct codeword i and store it packed in frame[blknum * 8 + i]. */
  function DeinterleaveStep(d: Snap, blknum: int, i: int): (r: Snap)
    requires SnapOk(d) && 0 <= blknum < 25 && 0 <= i < 8
    ensures SnapOk(r) && r == d.(ob := r.ob, totalErrors := r.totalErrors, frame := r.frame)
  {
    var dec := Correct(d.ecs, d.bch, Column(d.block, i));
    var f := d.frame[blknum * 8 + i := PackedWord(dec.word, dec.errors)];
    assert FrameOk(d.(frame := f));
    d.(ob := dec.word, totalErrors := d.totalErrors + dec.errors, frame := f)
  }

  /** DeinterleaveStep spelled out field by field, for the imperative showblock. */
  lemma {:induction false} DeinterleaveStepIs(d: Snap, blknum: int, i: int, r: Snap)
    requires SnapOk(d) && 0 <= blknum < 25 && 0 <= i < 8
    requires var dec := Correct(d.ecs, d.bch, Column(d.block, i));
             r == d.(ob := dec.word, totalErrors := d.totalErrors + dec.errors,
                     frame := d.frame[blknum * 8 + i := PackedWord(dec.word, dec.errors)])
    ensures SnapOk(r) && r == DeinterleaveStep(d, blknum, i)
  {
  }

  function Deinterleave(d: Snap, blknum: int, i: int): (r: Snap)
    requires SnapOk(d) && 0 <= blknum < 25 && 0 <= i <= 8
    ensures SnapOk(r) && r == d.(ob := r.ob, totalErrors := r.totalErrors, frame := r.frame)
    decreases 8 - i
  {
    if i == 8 then d else Deinterleave(DeinterleaveStep(d, blknum, i), blknum, i + 1)
  }

  /** The error count ecd reports for codeword i of a block. */
  function ColumnErrors(d: Snap, i: int): (e: nat)
    requires SnapOk(d) && 0 <= i < 8
    ensures e <= 3
  {
    Correct(d.ecs, d.bch, Column(d.block, i)).errors
  }

  /** The errors of codewords i..7. */
  function ErrorsFrom(d: Snap, i: int): (e: nat)
    requires SnapOk(d) && 0 <= i <= 8
    ensures e <= 3 * (8 - i)
    decreases 8 - i
  {
    if i == 8 then 0 else ColumnErrors(d, i) + ErrorsFrom(d, i + 1)
  }

  /**
   * The deinterleave loop stores, for each i in i0..7, the packed corrected
   * codeword i in frame[blknum * 8 + i], adds every error count to the total,
   * and changes no other frame word and nothing else but ob.
   */
  lemma {:induction false} DeinterleaveEffect(d: Snap, blknum: int, i0: int)
    requires SnapOk(d) && 0 <= blknum < 25 && 0 <= i0 <= 8
    ensures var r := Deinterleave(d, blknum, i0);
            r == d.(ob := r.ob, totalErrors := r.totalErrors, frame := r.frame) &&
            r.totalErrors == d.totalErrors + ErrorsFrom(d, i0) &&
            (forall i :: i0 <= i < 8 ==> r.frame[blknum * 8 + i] == PackedColumn(d, i)) &&
            (forall k :: 0 <= k < 200 && !(blknum * 8 + i0 <= k < blknum * 8 + 8) ==> r.frame[k] == d.frame[k])
  {
    DeinterleaveErrors(d, blknum, i0);
    DeinterleaveFrame(d, blknum, i0);
  }

  /** Codeword i of the block, corrected and packed. */
  function PackedColumn(d: Snap, i: int): int
    requires SnapOk(d) && 0 <= i < 8
  {
    var dec := Correct(d.ecs, d.bch, Column(d.block, i));
    PackedWord(dec.word, dec.errors)
  }

  lemma {:induction false} DeinterleaveErrors(d: Snap, blknum: int, i0: int)
    requires SnapOk(d) && 0 <= blknum < 25 && 0 <= i0 <= 8
    ensures Deinterleave(d, blknum, i0).totalErrors == d.totalErrors + ErrorsFrom(d, i0)
    decreases 8 - i0
  {
    if i0 < 8 {
      var d1 := DeinterleaveStep(d, blknum, i0);
      DeinterleaveErrors(d1, blknum, i0 + 1);
      ErrorsFromSameBlock(d, d1, i0 + 1);
    }
  }

  lemma {:induction false} DeinterleaveFrame(d: Snap, blknum: int, i0: int)
    requires SnapOk(d) && 0 <= blknum < 25 && 0 <= i0 <= 8
    ensures var r := Deinterleave(d, blknum, i0);
            (forall i :: i0 <= i < 8 ==> r.frame[blknum * 8 + i] == PackedColumn(d, i)) &&
            (forall k :: 0 <= k < 200 && !(blknum * 8 + i0 <= k < blknum * 8 + 8) ==> r.frame[k] == d.frame[k])
  {
    DeinterleaveKeeps(d, blknum, i0);
    DeinterleavePacks(d, blknum, i0);
  }

  /** The frame words outside codewords i0..7 of the block stay as they were. */
  lemma {:induction false} DeinterleaveKeeps(d: Snap, blknum: int, i0: int)
    requires SnapOk(d) && 0 <= blknum < 25 && 0 <= i0 <= 8
    ensures var r := Deinterleave(d, blknum, i0);
            forall k :: 0 <= k < 200 && !(blknum * 8 + i0 <= k < blknum * 8 + 8) ==> r.frame[k] == d.frame[k]
    decreases 8 - i0
  {
    if i0 < 8 {
      var d1 := DeinterleaveStep(d, blknum, i0);
      DeinterleaveKeeps(d1, blknum, i0 + 1);
      assert forall k :: 0 <= k < 200 && k != blknum * 8 + i0 ==> d1.frame[k] == d.frame[k];
    }
  }

  /** Codewords i0..7 of the block end up corrected and packed in place. */
  lemma {:induction false} DeinterleavePacks(d: Snap, blknum: int, i0: int)
    requires SnapOk(d) && 0 <= blknum < 25 && 0 <= i0 <= 8
    ensures var r := Deinterleave(d, blknum, i0);
            forall i :: i0 <= i < 8 ==> r.frame[blknum * 8 + i] == PackedColumn(d, i)
    decreases 8 - i0
  {
    if i0 < 8 {
      var d1 := DeinterleaveStep(d, blknum, i0);
      var r := Deinterleave(d1, blknum, i0 + 1);
      assert r == Deinterleave(d, blknum, i0);
      DeinterleavePacks(d1, blknum, i0 + 1);
      DeinterleaveKeeps(d1, blknum, i0 + 1);
      assert d1.ecs == d.ecs && d1.bch == d.bch && d1.block == d.block;
      assert r.frame[blknum * 8 + i0] == d1.frame[blknum * 8 + i0] == PackedColumn(d, i0);
      forall i | i0 < i < 8
        ensures r.frame[blknum * 8 + i] == PackedColumn(d, i)
      {
        assert PackedColumn(d1, i) == PackedColumn(d, i);
      }
    }
  }

  lemma {:induction false} ErrorsFromSameBlock(d: Snap, e: Snap, i: int)
    requires SnapOk(d) && SnapOk(e) && 0 <= i <= 8
    requires d.ecs == e.ecs && d.bch == e.bch && d.block == e.block
    ensures ErrorsFrom(d, i) == ErrorsFrom(e, i)
    decreases 8 - i
  {
    if i < 8 {
      assert Column(d.block, i) == Column(e.block, i);
      assert ColumnErrors(d, i) == ColumnErrors(e, i);
      ErrorsFromSameBlock(d, e, i + 1);
    }
  }

  /** The frame-information fields of word 0: where the vector and the address fields start. */
  function VectorStart(w0: int): (vsa: int)
    ensures 0 <= vsa < 64
  {
    (w0 / 1024) % 64
  }

  function AddressStart(w0: int): (asa: int)
    ensures 1 <= asa <= 4
  {
    (w0 / 256) % 4 + 1
  }

  /** The last codeword of the block carries no data: its packed word is all zeros or all ones. */
  predicate NoMoreData(cc: int)
  {
    cc == 0 || cc == 0x1fffff
  }

  /** What follows the deinterleave loop for block 0: the BIWs are read, twice at the frame-127-to-0 wrap. */
  function FirstBlock(d: Snap): (r: Snap)
    requires SnapOk(d)
    ensures SnapOk(r) && r.lastFrame == r.currentFrame && r.currentFrame == d.currentFrame
    ensures ReceiverKept(d, r) && r.flexBlock == d.flexBlock
  {
    var d2 := FlexTime(d);
    TimeLoopEffect(d, 0, (d.frame[0] / 256) % 4);
    var d3 := if d2.currentFrame == 0 && d2.lastFrame == 127 then FlexTime(d2) else d2;
    TimeLoopEffect(d2, 0, (d2.frame[0] / 256) % 4);
    d3.(lastFrame := d3.currentFrame)
  }

  /**
   * What follows the deinterleave loop for blocks 1..10: the frame is
   * interpreted after block 10, or as soon as a block's last codeword carries
   * no data, and then no further block is collected.  The `flex_speed ==
   * STAT_FLEX1600` test is left out: flex_speed keeps its initial value
   * STAT_FLEX1600, as nothing assigns it.  A frame whose vector
   * words announce a body past frame[199] is not interpreted; see README.md.
   */
  function LaterBlock(d: Snap, blknum: int): (r: Snap)
    requires SnapOk(d) && 1 <= blknum <= 10
    ensures SnapOk(r) && r.frame == d.frame
    ensures blknum < 10 && !NoMoreData(d.frame[blknum * 8 + 7]) ==> r == d
    ensures NoMoreData(d.frame[blknum * 8 + 7]) ==> r.flexBlock == 1
    ensures ReceiverKept(d, r)
    ensures r.flexBlock == if NoMoreData(d.frame[blknum * 8 + 7]) then 1 else d.flexBlock
  {
    var noMore := NoMoreData(d.frame[blknum * 8 + 7]);
    if blknum == 10 || noMore then
      var d2 := InterpretFrame(d);
      if noMore then d2.(flexBlock := 1) else d2
    else d
  }

  /** showframe on the frame information word's address and vector starts, when the frame's bodies lie inside it. */
  function InterpretFrame(d: Snap): (r: Snap)
    requires SnapOk(d)
    ensures SnapOk(r) && r.frame == d.frame && r.totalErrors >= d.totalErrors
    ensures ReceiverKept(d, r) && r.flexBlock == d.flexBlock
  {
    var vsa := VectorStart(d.frame[0]);
    var asa := AddressStart(d.frame[0]);
    if Xsumchk(d.frame[0]) != 0 || EntriesOk(d.frame, asa, vsa, asa, false) then ShowFrame(d, asa, vsa) else d
  }

  /**
   * showblock for block blknum (0..10).  It leaves the receiver alone, except
   * that a block whose last codeword carries no data ends the frame early by
   * setting iFlexBlock to 1.
   */
  function ShowBlock(d: Snap, blknum: int): (r: Snap)
    requires SnapOk(d) && 0 <= blknum <= 10
    ensures SnapOk(r) && ReceiverKept(d, r)
    ensures r.flexBlock == d.flexBlock || r.flexBlock == 1
  {
    var d1 := Deinterleave(d, blknum, 0);
    if blknum == 0 then FirstBlock(d1) else LaterBlock(d1, blknum)
  }

  /**
   * showblock's effect on frame[], comparing the state `d` before with `r`
   * after: for blocks 1..10 the block's eight words are exactly the packed
   * codewords; for block 0 FlexTIME may also shift BIWs 1..3.  No other frame
   * word changes, and every ecd count reaches the total.
   */
  ghost predicate BlockStored(d: Snap, r: Snap, blknum: int)
    requires SnapOk(d) && SnapOk(r) && 0 <= blknum <= 10
  {
    (forall k :: 0 <= k < 200 && !(blknum * 8 <= k < blknum * 8 + 8) ==> r.frame[k] == d.frame[k]) &&
    (forall i :: 0 <= i < 8 && (blknum != 0 || i == 0 || i >= 4) ==> r.frame[blknum * 8 + i] == PackedColumn(d, i)) &&
    r.totalErrors >= d.totalErrors + ErrorsFrom(d, 0)
  }

  lemma {:induction false} ShowBlockFrame(d: Snap, blknum: int)
    requires SnapOk(d) && 0 <= blknum <= 10
    ensures BlockStored(d, ShowBlock(d, blknum), blknum)
  {
    if blknum == 0 {
      FirstBlockFrame(d);
    } else {
      LaterBlockFrame(d, blknum);
    }
  }

  /** ShowBlockFrame for block 0, from what the deinterleave loop and FlexTIME each do. */
  lemma {:induction false} FirstBlockFrame(d: Snap)
    requires SnapOk(d)
    ensures BlockStored(d, FirstBlock(Deinterleave(d, 0, 0)), 0)
  {
    DeinterleaveAll(d, 0);
    FirstBlockStored(d, Deinterleave(d, 0, 0), 0);
  }

  /** FlexTIME's effect on top of the deinterleave loop's, for block 0. */
  lemma {:induction false} FirstBlockStored(d: Snap, d1: Snap, blknum: int)
    requires SnapOk(d) && SnapOk(d1) && blknum == 0 && Deinterleaved(d, d1, blknum)
    ensures BlockStored(d, FirstBlock(d1), blknum)
  {
    FirstBlockEffect(d1);
  }

  /** ShowBlockFrame for blocks 1..10: the frame is left as the deinterleave loop wrote it. */
  lemma {:induction false} LaterBlockFrame(d: Snap, blknum: int)
    requires SnapOk(d) && 1 <= blknum <= 10
    ensures BlockStored(d, LaterBlock(Deinterleave(d, blknum, 0), blknum), blknum)
  {
    DeinterleaveAll(d, blknum);
    LaterBlockStored(d, Deinterleave(d, blknum, 0), blknum);
  }

  lemma {:induction false} LaterBlockStored(d: Snap, d1: Snap, blknum: int)
    requires SnapOk(d) && SnapOk(d1) && 1 <= blknum <= 10 && Deinterleaved(d, d1, blknum)
    ensures BlockStored(d, LaterBlock(d1, blknum), blknum)
  {
    LaterBlockErrors(d1, blknum);
  }

  /** What the deinterleave loop leaves, comparing the state `d` before with `r` after. */
  ghost predicate Deinterleaved(d: Snap, r: Snap, blknum: int)
    requires SnapOk(d) && SnapOk(r) && 0 <= blknum < 25
  {
    r.totalErrors == d.totalErrors + ErrorsFrom(d, 0) &&
    (forall i :: 0 <= i < 8 ==> r.frame[blknum * 8 + i] == PackedColumn(d, i)) &&
    (forall k :: 0 <= k < 200 && !(blknum * 8 <= k < blknum * 8 + 8) ==> r.frame[k] == d.frame[k])
  }

  lemma {:induction false} DeinterleaveAll(d: Snap, blknum: int)
    requires SnapOk(d) && 0 <= blknum < 25
    ensures Deinterleaved(d, Deinterleave(d, blknum, 0), blknum)
  {
    DeinterleaveEffect(d, blknum, 0);
  }

  /** FlexTIME, once or twice, leaves every frame word but BIWs 1..3 alone and only adds errors. */
  lemma {:induction false} FirstBlockEffect(d: Snap)
    requires SnapOk(d)
    ensures var r := FirstBlock(d);
            (forall k :: 0 <= k < 200 && !(1 <= k < 4) ==> r.frame[k] == d.frame[k]) &&
            r.totalErrors >= d.totalErrors
  {
    var d2 := FlexTime(d);
    TimeLoopEffect(d, 0, (d.frame[0] / 256) % 4);
    TimeLoopEffect(d2, 0, (d2.frame[0] / 256) % 4);
  }

  lemma {:induction false} LaterBlockErrors(d: Snap, blknum: int)
    requires SnapOk(d) && 1 <= blknum <= 10
    ensures LaterBlock(d, blknum).totalErrors >= d.totalErrors
  {
    var vsa := VectorStart(d.frame[0]);
    var asa := AddressStart(d.frame[0]);
    if Xsumchk(d.frame[0]) == 0 && EntriesOk(d.frame, asa, vsa, asa, false) {
    }
  }
}
