# FLEX paging decoder — a verified model

This project models the FLEX pager decoder of multimon-ng (`flex.c`) and the
1600-baud bit-timing loop that feeds it (`demod_flex16.c`), and proves
properties of that model in Dafny.

The chain it covers, from samples to messages:

- **Bit timing.** `flex16_demod` slices one sample of every pair. It keeps an
  early/late phase accumulator and hands a symbol to `flex_rxbit` each time
  the phase wraps.
- **Sync and framing.** `flex_rxbit` keeps a 64-bit history in four 16-bit
  registers and hunts for the sync word `0xA6C6AAAA`, straight or
  complemented. It looks up the speed/level variant, counts down the
  89-bit header and corrects the frame-information word to read the cycle
  and frame numbers. It then collects eleven 256-bit blocks; at 3200 bps
  only every other symbol is stored.
- **Error correction.** `setupecc` builds the BCH(31,21) syndrome constants
  and the 1024-entry correction table. `ecd` corrects one 32-bit codeword in
  place and reports 0..3 errors.
- **Blocks.** `showblock` deinterleaves a block into eight codewords, corrects
  each one, and packs it into a 21-bit frame word, flagging uncorrectable
  words with `0x400000`. Block 0 goes to `FlexTIME`; block 10, or a block
  whose last word carries no data, goes to `showframe`.
- **Frames.** `showframe` walks the address/vector word pairs. It computes
  capcodes (`show_address`) and displays 7-bit characters through the bounded
  text buffer (`display_show_char`). Messages are reported as records.
- **Group calls.** Short instructions enroll capcodes in a group
  (`AddAssignment`). A group capcode on its assigned frame expands the group
  message into one message per member plus one for the group
  (`ConvertGroupcall`).

Layout:

| file | module | what it holds |
|---|---|---|
| `bits.dfy` | `Bits` | powers of two, bit extraction, XOR and popcount on naturals |
| `ecc.dfy` | `Ecc` | the syndrome register, the correction table as a list of writes, `ecd` as a function |
| `bch_code.dfy` | `BchCode` | the entries `setupecc` leaves for each error pattern, and what `ecd` then does to a codeword with one or two errors |
| `words.dfy` | `Words` | `xsumchk`, codeword packing, capcodes, vector-word fields, characters |
| `state.dfy` | `FlexState` | `Snap`, the whole decoder state as a value, and the message and group-call routines as functions on it |
| `frames.dfy` | `FlexFrames` | `showframe` and `showblock` as functions on `Snap` |
| `receiver.dfy` | `FlexReceiver` | `flex_rxbit` as a function on `Snap`, and its properties |
| `flex.dfy` | `Flex` | class `FlexDecoder`: the globals and statics as fields and arrays, one method per C routine |
| `demod_flex16.dfy` | `Demod16` | class `Flex16`: `flex16_init` and `flex16_demod` driving a `FlexDecoder` |
| `groups_finding.dfy` | `GroupsAsWritten` | `AddAssignment` exactly as written, on the flat `int[17][1000]` array |

The C code works by updating globals in place, so the decoder is a class.
Every method of `Flex.FlexDecoder` is proved to move the abstraction `Abs()`
exactly as the function of the same name in `FlexState`, `FlexFrames` or
`FlexReceiver` does. Many of those functions only state, as their own
contract, which parts of the state they keep. What they do to the rest is
proved in the lemmas beside them, and the "## Model" table names each one.
Routines for which that is only partly so are listed under "## Left out".

`Valid()` is the invariant every method keeps:

- the arrays have their C sizes and are distinct;
- the correction tables are well formed;
- every frame word has the shape `showblock` gives it;
- the message index stays inside the buffer;
- every group row count stays below 1000.

Where the code and a prose description of the decoder differ, the model
follows the code:

- An inverted sync is repaired by complementing only `iBitBuffer[0]` and
  `iBitBuffer[3]`, not all four registers (`FlexReceiver.InvertedSyncPasses`).
- The phase nudge moves the clock *forward* below the threshold
  `0x8000 - SPHASEINC/2` and back from it on (`Demod16.Nudge`).
- The end-of-transmission test is an exact match, not a match within a
  tolerance. `iFlexTimer` is never decremented: only that match clears it
  (`FlexReceiver.EotSeenIff`, `FlexReceiver.EotClearsTimer`).
- The speed lookup runs after an accepted sync, when the outer registers
  complement each other within one bit. It is not a fallback for a missed
  sync (`FlexReceiver.SyncArmsCountdown`).
- The early end of a frame tests the *last* packed codeword of the block, not
  word 0, and it never applies to block 0 (`FlexFrames.LaterBlock`).
- Character 0x03 is skipped and does not end the text (`FlexFrames.WordChars`).
- `ConvertGroupcall` never calls `SortGroupCall`, so members are reported in
  insertion order (`FlexState.ConvertGroupcall`).
- A long address can never be a group capcode: long capcodes start at 2068480,
  above the group range 2029568..2029583 (`Words.CapcodeRanges`).
- Once `bLongAddress` is set it stays set for the rest of the frame. A vector
  type other than 0, 1 or 5, or a vector word failing its checksum, skips no
  second word (`FlexFrames.NextEntry`).

## Model

| member | source | states |
|---|---|---|
| `Bits.PopCountZero` | flex.c:803-815 | for any width n, nOnes counts no ones exactly when the n low bits are clear, which is what every "distance 0" test relies on |
| `Bits.PopCountFull` | flex.c:803-815 | for any width n, nOnes counts n ones exactly when the n low bits are all set |
| `Flex.Bit10` | flex.c:792-801 | the loop returns the number of ones among the 10 low bits |
| `Flex.NOnes` | flex.c:803-815 | the loop returns the number of ones among the 16 low bits, 0 for 0 |
| `Words.Xsumchk` | flex.c:415-441 | 1 for any word above 0x3fffff; otherwise 0 exactly when the nibbles at bits 0, 4, 8, 12, 16 plus bit 20 sum to 15 mod 16 |
| `Words.ComplementedChecksumPasses` | flex.c:420-440 | a word whose low nibble is the complement of the sum of its other nibbles passes the checksum |
| `Words.ChecksumDetectsNibbleChange` | flex.c:425-440 | changing only the low nibble of a passing word makes it fail |
| `Words.PackedWord` | flex.c:756-767 | the packed word is below 0x200000 plus the flag, and carries 0x400000 exactly when ecd reported 3 |
| `Words.PackedWordBits` | flex.c:758-762 | bit j (j < 21) of the packed word is the complement of corrected bit ob[j] |
| `Words.Capcode` | flex.c:559-573 | when either address word is above 0x3fffff or the computed capcode is negative the result is 9999999; otherwise it is the computed capcode, and any result other than 9999999 is not negative |
| `Words.CapcodeFormulas` | flex.c:559-566 | short capcode `(l & 0x1fffff) - 32768`; long capcode `((l2 & 0x1fffff) ^ 0x1fffff) << 15` plus 2068480 plus `l & 0x1fffff` |
| `Words.CapcodeRanges` | flex.c:559-590 | a short capcode is 9999999 or in 0..2064383; a long capcode is at least 2068480, so it is never a group capcode |
| `Words.GroupIndexInRange` | flex.c:588-590 | a group capcode minus 2029568 is a group index in 0..15 |
| `Words.Int32` | flex.c:720-722 | a `long` capcode passed as `int` keeps its value when it fits in 32 bits and is otherwise congruent modulo 2^32 |
| `Words.VectorType` | flex.c:625 | the vector type is bits 4..6, a value in 0..7 |
| `Words.BodyRangeBounds` | flex.c:652-665 | the first body word is in 0..128 and the last is at most 253, so a body can run past frame[199] |
| `Words.AssignedFrame` | flex.c:712 | the assigned frame is a 7-bit field, 0..127 |
| `Words.GroupBit` | flex.c:713 | the group field is a 7-bit field, 0..127 |
| `Words.GroupBitOfCheckedWord` | flex.c:713 | a vector word that passed its checksum names one of the 16 groups |
| `Words.ShownChar` | flex.c:540-548 | values above 127, and 1..31 other than 4, 10 and 23, become '?'; every other value, 0 included, is shown as it is |
| `Words.ShownCharIsByte` | flex.c:545-549 | a 7-bit character stays 7-bit, and 1..31 other than 4, 10 and 23 is shown as 63 |
| `Words.PhaseSpeedLabel` | flex.c:533-537 | a short instruction is labelled " GROUP ", every other type by its vtype name |
| `Words.CString` | flex.c:366 | `%s` shows the NUL-free prefix up to the first NUL |
| `FlexState.DisplayShowChar` | flex.c:540-553 | writes only message_buffer[iMessageIndex], advances the index while below MAX_STR_LEN-1 and never past it, and sets the unknown flag only for replaced characters |
| `FlexState.DisplayAllStores` | flex.c:549-552 | displaying n characters that fit stores each one, filtered, at consecutive positions and touches no other byte |
| `FlexState.DisplayAllKeeps` | flex.c:540-553 | displaying changes only the buffer, its index and the unknown flag |
| `FlexState.ShowAddress` | flex.c:556-594 | the capcode and its 7- or 9-digit text (question marks when flagged); the group flag is set exactly for group capcodes, which are short and index 0..15; the message counter counts the others |
| `FlexState.ShowPhaseSpeed` | flex.c:520-538 | only the type text changes, to the label of the vector type |
| `FlexState.ParseSingleMessage` | flex.c:288-295 | outside a group call the buffer is terminated at the index and the index returns to 0; the message text is the buffer's first MAX_STR_LEN bytes; the unknown flag is cleared |
| `FlexState.ShowMessage` | flex.c:363-373 | appends one message (capcode text, type, C-string text) to the reported messages and changes nothing else |
| `FlexState.SingleMessageText` | flex.c:288-295 | displaying n < MAX_STR_LEN printable characters, parsing and showing reports exactly those characters, filtered, under the current capcode and type |
| `FlexState.ParsedTextIsShown` | flex.c:288-295 | the parsed message text, read as a C string, is exactly the filtered displayed characters |
| `FlexState.ParsedTextUpToNul` | flex.c:288-295 | for any 7-bit characters that fit, NUL included, the parsed text read as a C string is the filtered characters up to the first NUL |
| `FlexState.CStringUpTo` | flex.c:366 | a NUL right after a prefix p ends the C string where p's own C string ends |
| `FlexState.AddAssignment` | flex.c:394-411 | with room in the row the capcode is appended to its members and GroupFrame set; a full row changes neither table; other rows never change; the message index always ends at 0 |
| `FlexState.Assigned` | flex.c:401-406 | the count grows by one, the capcode lands in the new last slot and GroupFrame records the frame |
| `FlexState.IndexCleared` | flex.c:407-410 | a message in progress is terminated and the index reset; with index 0 nothing changes |
| `FlexState.MemberText` | flex.c:325-330 | 9999999 is rendered as seven question marks, any other member as seven digits |
| `FlexState.MemberMessages` | flex.c:322-332 | one GROUP message per member, in insertion order, each with the group text |
| `FlexState.ConvertGroupcall` | flex.c:299-349 | when due (group capcode, row assigned to this frame), count + 1 messages are reported, the row is zeroed, GroupFrame becomes -1 and the counter grows by one; otherwise only the buffer is terminated; the index always ends at 0 |
| `FlexState.Terminated` | flex.c:300 | only the byte at the message index becomes NUL |
| `FlexState.Rewound` | flex.c:348 | only the message index changes, to 0 |
| `FlexState.CallGroup` | flex.c:305-346 | the member messages and then the group's own message with the original type are reported; the row is emptied and its frame forgotten |
| `FlexState.AssignedMemberIsCalled` | flex.c:305-346 | a capcode assigned to group g on the current frame is reported as a GROUP message of the next call of g, just before the group's own message, and the row is then empty |
| `FlexState.TimeWord` | flex.c:465-512 | a passing BIW changes only its own frame word and the two flags; a word that is neither a date (type 1) nor a time (type 2) changes nothing |
| `FlexState.TimeLoop` | flex.c:459-514 | the loop over the BIWs keeps the decoder state well formed; what it changes is stated by TimeLoopEffect |
| `FlexState.FlexTime` | flex.c:443-518 | FlexTIME changes only BIWs 1..3, the two flags and the error count, by at most one; BIW 0, the other frame words, the receiver state and iFlexBlock are kept |
| `FlexState.TimeLoopEffect` | flex.c:459-514 | the loop adds at most one error and changes no frame word outside BIWs 1..3 of the range it covers |
| `FlexState.TimeLoopCount` | flex.c:459-464 | the error count grows by exactly one if and only if some BIW from i to n fails xsumchk, and stays the same if and only if they all pass |
| `FlexState.TimeLoopShifts` | flex.c:459-497 | a BIW k in 1..n that passes, with every BIW from i to k passing, ends up as TimeWord shifts it, and a date or time BIW sets its flag |
| `FlexState.TimeLoopStops` | flex.c:460-464 | from a BIW that fails its checksum on, no frame word is changed |
| `FlexState.TimeFlagsKept` | flex.c:478-494 | FLEX_date and FLEX_time are only ever set, never cleared |
| `FlexState.DateWordShifted` | flex.c:471-484 | a passing date BIW sets FLEX_date and is left divided by 2^17 |
| `FlexState.TimeWordShifted` | flex.c:485-498 | a passing time BIW sets FLEX_time and is left divided by 2^18 |
| `Ecc.Feedback` | flex.c:233-236 | one register step keeps the 10-bit register below 1024 |
| `Ecc.Lfsr` | flex.c:229-237 | every syndrome constant is below 1024, so every syndrome indexes inside bch[] |
| `Ecc.BchTable` | flex.c:242-285 | the correction table has 1024 entries; what they hold is stated by BchTableEntriesOk, BchTableOneCheck and BchTableTwoCheck |
| `Ecc.TwoDataKeys` | flex.c:245-252 | every key `ecs[n] ^ ecs[i]` of the two-data-error loop is below 1024 |
| `Ecc.DataCheckKeys` | flex.c:262-269 | every key `ecs[n] ^ (1 << i)` of the data-and-check loop is below 1024 |
| `Ecc.OneCheckKeys` | flex.c:272-275 | every key `1 << n` is below 1024 |
| `Ecc.TwoCheckKeys` | flex.c:278-285 | every key `(1 << n) ^ (1 << i)` is below 1024 |
| `Ecc.TableWritesKeys` | flex.c:242-285 | no write of setupecc leaves bch[0..1023] |
| `Ecc.TwoDataValuesOk` | flex.c:245-252 | every value this loop writes is a well-formed entry: count 1 or 2 in bits 12..13 and two 5-bit position fields, each a data bit 0..20 or the sentinel 0x1f |
| `Ecc.OneDataValuesOk` | flex.c:255-259 | every value this loop writes is a well-formed entry: count 1 or 2 in bits 12..13 and two 5-bit position fields, each a data bit 0..20 or the sentinel 0x1f |
| `Ecc.DataCheckValuesOk` | flex.c:262-269 | every value this loop writes is a well-formed entry: count 1 or 2 in bits 12..13 and two 5-bit position fields, each a data bit 0..20 or the sentinel 0x1f |
| `Ecc.CheckValuesOk` | flex.c:272-285 | the check-bit entries 0x13ff and 0x23ff are well formed |
| `Ecc.TableValuesOk` | flex.c:242-285 | every value setupecc writes is a well-formed entry |
| `Ecc.BchTableEntriesOk` | flex.c:242-285 | every entry is 0, or has count 1 or 2 in bits 12..13 and position fields that are at most 20 or 0x1f |
| `Ecc.BchTableOneCheck` | flex.c:272-285 | bch[1 << n] == 0x13ff for every n < 10; no later write disturbs it |
| `Ecc.OneCheckOnly` | flex.c:272-285 | the last two loops write only 0x13ff at 1 << n |
| `Ecc.TwoCheckAt` | flex.c:278-285 | write n*10+i of the last loop is nothing on the diagonal and 0x23ff at `(1 << n) ^ (1 << i)` elsewhere |
| `Ecc.BchTableTwoCheck` | flex.c:278-285 | bch[(1 << n) ^ (1 << i)] == 0x23ff for distinct n, i < 10 |
| `Ecc.ApplyLast` | flex.c:242-285 | a table entry holds the value of the last write to its key |
| `Ecc.EccOf` | flex.c:171-176 | the XOR of ecs[i] over the set data bits is below 1024 |
| `Ecc.AccOf` | flex.c:178-182 | the check bits ob[21..30], read most significant first, are below 2^10 |
| `Ecc.Syndrome` | flex.c:184 | the syndrome is below 1024 |
| `Ecc.Finish` | flex.c:211-218 | the overall parity test never lowers the error count, keeps it at most 3, and leaves the word untouched |
| `Ecc.Lookup` | flex.c:188-208 | the correctable branch flips only the bits the entry names, takes the count (1 or 2) from bits 12..13, and flips the data parity exactly for count 1 |
| `Ecc.Repair` | flex.c:186-209 | a zero syndrome changes nothing and counts 0; a nonzero syndrome with an empty entry counts 3 and flips nothing; ob[21..31] never change |
| `Ecc.Correct` | flex.c:162-222 | ecd returns 0..3, returns 3 for a nonzero syndrome with an empty entry, never changes ob[21..31], and returns 0 only for a zero syndrome with ob untouched |
| `Ecc.CorrectIdempotent` | flex.c:186-222 | a codeword reported error-free gives the same count and the same word when corrected again |
| `BchCode.ToBvLfsr` | flex.c:229-237 | the 21 syndrome constants are the 21 listed columns of the code's parity-check matrix |
| `BchCode.EcsBits` | flex.c:229-237 | every syndrome constant is one of those columns and is not zero |
| `BchCode.EcsDistinct` | flex.c:229-237 | two syndrome constants are equal only when their indices are |
| `BchCode.ToBvPow2` | flex.c:272-285 | every check-bit weight 1 << i, i < 10, is a single bit |
| `BchCode.BchTableOneData` | flex.c:255-259 | after setupecc, bch[ecs[n]] is "count 1, flip bit n"; no later loop overwrites it |
| `BchCode.BchTableDataCheck` | flex.c:262-269 | bch[ecs[n] ^ (1 << i)] is "count 2, flip bit n", at a nonzero key that no later loop overwrites |
| `BchCode.BchTableTwoData` | flex.c:245-252 | for data bits n < m, bch[ecs[n] ^ ecs[m]] is "count 2, flip n and m": the write of the pass with outer index m survives, and no later loop overwrites it |
| `BchCode.EccOfFlip` | flex.c:171-176 | flipping data bit p changes ecc by exactly ecs[p]; other bits leave it alone |
| `BchCode.ParityOfFlip` | flex.c:171-176 | flipping data bit p flips the data parity; other bits leave it alone |
| `BchCode.AccOfFlip` | flex.c:178-182 | flipping check bit 21 + k changes acc by exactly 1 << (9 - k); other bits leave it alone |
| `BchCode.SyndromeFlipData` | flex.c:171-184 | a data-bit error moves the syndrome by ecs[n], ecc by ecs[n], and flips the parity |
| `BchCode.SyndromeFlipCheck` | flex.c:178-184 | a check-bit error moves the syndrome by 1 << (9 - j) and leaves ecc and the parity alone |
| `BchCode.LookupOneData` | flex.c:188-208 | a one-data entry flips bit n, moves ecc by ecs[n], flips the parity, and counts 1 |
| `BchCode.LookupDataCheck` | flex.c:188-208 | a data-and-check entry flips bit n, moves ecc by ecs[n], keeps the parity, and counts 2 |
| `BchCode.LookupTwoData` | flex.c:188-208 | a two-data entry flips both bits, moves ecc by both constants, keeps the parity, and counts 2 |
| `BchCode.LookupChecks` | flex.c:188-208 | the check-bit entries flip nothing; 0x13ff counts 1 and flips the parity, 0x23ff counts 2 |
| `BchCode.CorrectCodeword` | flex.c:162-222 | a valid codeword is returned unchanged with count 0 |
| `BchCode.CorrectsDataError` | flex.c:162-222 | a valid codeword with one data bit flipped is restored, with count 1 |
| `BchCode.CorrectsTwoDataErrors` | flex.c:162-222 | a valid codeword with two distinct data bits flipped is restored, with count 2 |
| `BchCode.CheckErrorCountedTwice` | flex.c:162-222 | a valid codeword with one check bit flipped is left as received and counted as 2, because of the parity flip for count-1 entries |
| `BchCode.DataAndCheckErrors` | flex.c:162-222 | with a data bit and a check bit flipped, the data bit is restored, the check bit stays flipped, and the count is 3 |
| `BchCode.TwoCheckErrors` | flex.c:162-222 | with two distinct check bits flipped, the word is left as received, with count 2 |
| `BchCode.ParityBitError` | flex.c:162-222 | with only the overall parity bit flipped, the word is left as received, with count 1 |
| `FlexFrames.WordChars` | flex.c:672-695 | a body word yields at most three 7-bit characters, none of them 0x03 |
| `FlexFrames.BodyChars` | flex.c:667-696 | the characters of the body range are 7-bit and never 0x03 |
| `FlexFrames.BodyWord` | flex.c:672-695 | displaying a body word changes only the text buffer, its index and the unknown flag |
| `FlexFrames.Body` | flex.c:667-696 | the body loop changes only the text buffer, its index and the unknown flag |
| `FlexFrames.BodyWordIsDisplay` | flex.c:672-695 | a body word's three guarded display calls display exactly its WordChars |
| `FlexFrames.BodyIsDisplay` | flex.c:667-696 | the body loop displays exactly the body's characters, in order |
| `FlexFrames.Fragment` | flex.c:659-665 | the fragment number is in 0..3 |
| `FlexFrames.Deliver` | flex.c:718-727 | delivering an entry changes neither the frame, nor the error count, nor the receiver |
| `FlexFrames.EntryHead` | flex.c:645-646 | after show_address, a set group flag means a group capcode; frame, errors and receiver are kept |
| `FlexFrames.Instruction` | flex.c:705-722 | a short instruction changes neither the frame, nor the error count, nor the receiver |
| `FlexFrames.Alpha` | flex.c:642-703 | an alphanumeric or secure entry changes neither the frame, nor the error count, nor the receiver |
| `FlexFrames.Entry` | flex.c:633-727 | a handled entry changes neither the frame, nor the error count, nor the receiver |
| `FlexFrames.LongAt` | flex.c:614-622 | the long-address flag is set when the address word lies in one of the three long ranges, and once set stays set |
| `FlexFrames.NextEntry` | flex.c:624-731 | the loop moves to the next address word, or skips one more only when the long flag is set |
| `FlexFrames.EntryEffect` | flex.c:624-731 | one pass of the loop keeps the frame and the receiver and can only add errors |
| `FlexFrames.Entries` | flex.c:613-732 | the loop keeps the frame and the receiver and can only add errors |
| `FlexFrames.ShowFrame` | flex.c:606-735 | a failing frame-information checksum only resets FlexTempAddress; otherwise the frame and receiver are kept and errors only grow |
| `FlexFrames.AlphaEntryReported` | flex.c:642-727 | an alphanumeric or secure entry with a short non-group capcode reports exactly one message, with its vtype label and its capcode (question marks when flagged), counts it, and rewinds the index; when the buffer starts empty and the body fits, the text is the body's characters (header field and 0x03 dropped), filtered by display_show_char, up to the first NUL |
| `FlexFrames.EntryErrors` | flex.c:624-632 | a failing vector checksum adds exactly one error and changes nothing else; a passing vector of a type other than 0, 1 and 5 changes nothing; a handled entry adds no error |
| `FlexFrames.EntriesErrors` | flex.c:613-732 | the loop adds exactly one error per failing vector word it visits |
| `FlexFrames.InstructionAssigns` | flex.c:705-722 | a short instruction to a non-group capcode is AddAssignment of the capcode to the group the vector word names, for the frame it names, after that group is noted in FlexTempAddress; with room in the row the capcode becomes its last member; nothing is shown and the counter grows by one |
| `FlexFrames.GroupInstructionCalls` | flex.c:705-720 | a short instruction to a group capcode (never a long address) calls ConvertGroupcall with the group index 0..15 and the instruction's label |
| `FlexFrames.GroupAlphaCalls` | flex.c:642-720 | an alphanumeric or secure message to a group capcode calls ConvertGroupcall, with the group index 0..15 and the vtype label, after the body is displayed |
| `FlexFrames.Column` | flex.c:746-749 | bit j of codeword i is block[j*8 + i] |
| `FlexFrames.DeinterleaveStep` | flex.c:744-768 | one pass changes only ob, the error count and one frame word |
| `FlexFrames.Deinterleave` | flex.c:744-768 | the loop changes only ob, the error count and the frame |
| `FlexFrames.ColumnErrors` | flex.c:751 | the count ecd reports for one codeword is at most 3 |
| `FlexFrames.ErrorsFrom` | flex.c:751-752 | the counts of codewords i..7 sum to at most 3 per codeword |
| `FlexFrames.DeinterleaveEffect` | flex.c:744-768 | each of the block's eight words is its codeword corrected and packed, every ecd count is added to the total, and no other frame word changes |
| `FlexFrames.DeinterleaveErrors` | flex.c:751-752 | the total error count grows by exactly the counts ecd reports |
| `FlexFrames.DeinterleaveFrame` | flex.c:754-767 | the block's words are packed in place and the other frame words are kept |
| `FlexFrames.DeinterleaveKeeps` | flex.c:754-767 | frame words outside the block are kept |
| `FlexFrames.DeinterleavePacks` | flex.c:754-767 | frame[blknum*8+i] is codeword i corrected and packed |
| `FlexFrames.DeinterleaveAll` | flex.c:744-768 | the whole loop stores every codeword and adds every count |
| `FlexFrames.VectorStart` | flex.c:774 | the vector start is a 6-bit field |
| `FlexFrames.AddressStart` | flex.c:775 | the address start is 1..4 |
| `FlexFrames.FirstBlock` | flex.c:777-784 | block 0 records the current frame as last_frame and keeps the receiver state and iFlexBlock |
| `FlexFrames.LaterBlock` | flex.c:769-789 | the frame words are kept; iFlexBlock becomes 1 exactly when the block's last packed word is all zeros or all ones (no more data); a block before 10 whose last word carries data changes nothing |
| `FlexFrames.InterpretFrame` | flex.c:774-786 | showframe on the header's starts keeps the frame and receiver and only adds errors |
| `FlexFrames.ShowBlock` | flex.c:738-790 | showblock keeps the receiver, and iFlexBlock stays or becomes 1 |
| `FlexFrames.ShowBlockFrame` | flex.c:744-790 | after showblock, the block's eight words hold their corrected, packed codewords (for block 0, except BIWs 1..3), no other frame word changes, and the total grows by at least every ecd count of the block |
| `FlexFrames.FirstBlockFrame` | flex.c:744-784 | ShowBlockFrame for block 0 |
| `FlexFrames.FirstBlockStored` | flex.c:777-784 | FlexTIME, once or twice, keeps what the deinterleave loop stored outside BIWs 1..3 |
| `FlexFrames.LaterBlockFrame` | flex.c:744-789 | ShowBlockFrame for blocks 1..10 |
| `FlexFrames.LaterBlockStored` | flex.c:785-789 | interpreting the frame keeps what the deinterleave loop stored |
| `FlexFrames.FirstBlockEffect` | flex.c:777-782 | block 0's FlexTIME calls change no frame word outside BIWs 1..3 and only add errors |
| `FlexFrames.LaterBlockErrors` | flex.c:785-789 | blocks 1..10 never lower the error count |
| `FlexReceiver.InputBit` | flex.c:851-853 | the stored bit is 1 exactly when the symbol is below 2 |
| `FlexReceiver.Distance` | flex.c:864 | nOnes of an XOR of two 16-bit words is at most 16 |
| `FlexReceiver.DistanceZero` | flex.c:858 | distance 0 means the two words are equal |
| `FlexReceiver.DistanceFull` | flex.c:864-867 | distance 16 means one word is the complement of the other |
| `FlexReceiver.TopBit` | flex.c:844 | `x & 0x8000` is set exactly for x >= 0x8000 |
| `FlexReceiver.Shift16` | flex.c:843-845 | a shifted register stays 16 bits wide |
| `FlexReceiver.ShiftHistory` | flex.c:842-853 | the four registers stay 16 bits wide |
| `FlexReceiver.HistoryShift` | flex.c:842-853 | the 64-bit history is doubled, the new bit enters at bit 0 and the oldest bit drops out: `(2h + bit) mod 2^64` |
| `FlexReceiver.HdRegisterStep` | flex.c:918-933 | after t steps the register `hd` holds the t bits read so far in its top bits above the shifted initial value |
| `FlexReceiver.Field` | flex.c:918-933 | bits ob[lo..lo+n-1], read least significant first, form a value below 2^n |
| `FlexReceiver.HeaderDecode` | flex.c:914-935 | the word is corrected; cycle (0..15) and frame (0..127) are set only when ecd reports fewer than 2 errors, and nothing else changes otherwise |
| `FlexReceiver.Countdown` | flex.c:906-944 | the countdown decreases by one (stays 0 at 0) and only the header fields, ob and the block counters change |
| `FlexReceiver.SyncDistance` | flex.c:864 | the distance to the 32-bit sync pattern is at most 32 |
| `FlexReceiver.Invert03` | flex.c:868-869 | complementing registers 0 and 3 keeps them 16 bits wide |
| `FlexReceiver.SyncStep` | flex.c:855-945 | flex_rxbit while idle keeps the state well formed |
| `FlexReceiver.SyncCheck` | flex.c:864-875 | the sync test keeps the state well formed |
| `FlexReceiver.Aligned` | flex.c:866-872 | the history after the complement repair is well formed |
| `FlexReceiver.SyncFound` | flex.c:874-904 | an accepted sync keeps the state well formed |
| `FlexReceiver.StoreBit` | flex.c:948-967 | storing a bit changes only the block buffer, bct and hbit |
| `FlexReceiver.EndBlock` | flex.c:967-976 | the end of a block keeps the state well formed |
| `FlexReceiver.CountBlock` | flex.c:972-975 | counting a block keeps the state well formed |
| `FlexReceiver.CollectStep` | flex.c:947-977 | collecting a bit keeps the state well formed |
| `FlexReceiver.RxBit` | flex.c:831-980 | flex_rxbit keeps the state well formed |
| `FlexReceiver.RxFoldConcat` | demod_flex16.c:64-83 | feeding two runs of symbols in turn is feeding their concatenation |
| `FlexReceiver.FirstSpeed` | flex.c:880-893 | the speed loop stops at the first variant within one bit of both outer words, 8 when none matches |
| `FlexReceiver.EotSeenIff` | flex.c:857-862 | the end-of-transmission test is an exact match of 0xAAAA 0xFFFF in registers 2 and 3 |
| `FlexReceiver.SyncDistanceExact` | flex.c:864-874 | distance 0 means registers 1 and 2 are exactly 0xA6C6 and 0xAAAA |
| `FlexReceiver.InvertedSyncIff` | flex.c:866-871 | the complemented case is exactly: registers 1 and 2 are the complements of the sync words and register 3 complements register 0 |
| `FlexReceiver.InvertedSyncPasses` | flex.c:866-879 | after the repair of registers 0 and 3 the outer-word test nh2 finds no differing bit |
| `FlexReceiver.EotClearsTimer` | flex.c:857-862 | while idle with the timer running, an end pattern clears the timer and changes nothing but the history |
| `FlexReceiver.SyncArmsCountdown` | flex.c:864-907 | an accepted sync (straight or complemented) arms the 89-bit countdown; it reads 88 after the speed lookup, or stays 89 with nothing else done when the outer words disagree |
| `FlexReceiver.SyncFoundEffect` | flex.c:874-907 | an accepted sync keeps the history; the countdown reads 88 after the speed lookup when the outer words match, and otherwise it is 89 with nothing else changed |
| `FlexReceiver.SpeedOfFirstMatch` | flex.c:880-890 | the first matching variant k sets the timer to 20, 3200 bps for odd k and 4 levels for k with bit 1 set |
| `FlexReceiver.NoSpeedMatch` | flex.c:880-893 | with no matching variant the timer, speed and level are kept |
| `FlexReceiver.HeaderBitCaptured` | flex.c:906-913 | while the count runs 72..41 each symbol is stored in ob[72 - count] and nothing else changes |
| `FlexReceiver.HeaderWordDecoded` | flex.c:914-935 | at count 40 the word is corrected; cycle is 15 minus bits 4..7 and frame is 127 minus bits 8..14 of the corrected word, and both are set only with fewer than 2 errors |
| `FlexReceiver.CountdownStartsFrame` | flex.c:939-943 | the last countdown step sets iFlexBlock to 11 and clears bct and hbit |
| `FlexReceiver.CollectingKeepsSync` | flex.c:947-978 | while a frame is collected the timer, countdown, speed and level are kept and the history still shifts |
| `FlexReceiver.CollectFill` | flex.c:948-953 | at 1600 bps a run of symbols that does not fill the block is stored at block[bct..] in order, and earlier bits are kept |
| `FlexReceiver.CollectOne` | flex.c:948-953 | at 1600 bps one symbol is stored at block[bct] and bct advances |
| `FlexReceiver.HalfRateStores` | flex.c:954-965 | at 3200 bps the first symbol of a pair is stored, the second only advances bct |
| `FlexReceiver.FullBlockShown` | flex.c:967-976 | the 256th bit restarts bct at 0, lowers iFlexBlock by one or ends the frame, and counts the frame exactly when iFlexBlock reaches 0 |
| `FlexReceiver.EndBlockCounts` | flex.c:967-976 | iFlexBlock drops by one, or to 0 after an early end, and the frame is counted exactly when it reaches 0; bct is kept |
| `GroupsAsWritten.Flatten` | flex.c:107 | the 17 rows of 1000 slots laid out one after another: cell g*1000+k is slot k of row g |
| `GroupsAsWritten.AddAssignmentAsWritten` | flex.c:401-406 | a row already at 1000 or more members is left alone, and the store falls outside the array exactly for row 16 at count 999 (a row showframe never passes) |
| `GroupsAsWritten.AsWrittenOverrunsNextRow` | flex.c:401-403 | a row at count 999 stores the 1000th member in the next row's count cell |
| `GroupsAsWritten.AsWrittenOverrunsArray` | flex.c:401-403 | row 16 at count 999 stores past the end of aGroupCodes; only a direct call of AddAssignment reaches row 16, since showframe passes a group bit of a checked vector word, which is 0..15 |
| `GroupsAsWritten.AddedRow` | flex.c:401-403 | below 999 members the corrected function appends the capcode at slot count + 1 and counts it |
| `GroupsAsWritten.CorrectedAgreesBelowFull` | flex.c:401-406 | below 999 members the code as written and the corrected guard change the same cells in the same way |
| `GroupsAsWritten.CorrectedKeepsRows` | flex.c:401-406 | with the corrected guard no row count ever reaches 1000 |
| `Flex.AddressCapcode` | flex.c:559-567 | the capcode before validation, as CapcodeFormulas states it |
| `Flex.DetectLong` | flex.c:614-622 | the long flag is set for the three long ranges and never cleared |
| `Flex.BodyWords` | flex.c:652-665 | the first and last body word of the vector word, adjusted for the header word |
| `Flex.SortStep` | flex.c:377-391 | swapping slot n with a least slot among n..count places slot n and keeps the members |
| `Flex.SortStepOrder` | flex.c:381-390 | with positive members, slots 1..n are in order and below the rest after the swap |
| `Flex.SwapKeepsMultiset` | flex.c:387-390 | the three-statement swap keeps the members of the row |
| `Flex.SwapKeepsPositive` | flex.c:387-390 | a swap keeps positive members positive |
| `Flex.SwapExtendsOrder` | flex.c:381-390 | swapping in a least remaining member extends the sorted prefix by one |
| `Flex.SortedRowOk` | flex.c:375-392 | the sorted row has the same count and the same members, in ascending order when all are positive |
| `Flex.FlexDecoder.constructor` | flex.c:982-988 | a fresh decoder is valid, has its initial globals and holds the syndrome constants and BchTable |
| `Flex.FlexDecoder.ZeroStart` | flex.c:982-988 | zeroed storage with GroupFrame -1, 1600 bps and 2 levels is the initial state |
| `Flex.FlexDecoder.FlexInit` | flex.c:982-988 | flex_init recomputes ecs and bch and resets the error count, changing nothing else |
| `Flex.FlexDecoder.DisplayShowChar` | flex.c:540-553 | moves the state as FlexState.DisplayShowChar |
| `Flex.FlexDecoder.ShowAddress` | flex.c:556-594 | moves the state as FlexState.ShowAddress |
| `Flex.FlexDecoder.ShowPhaseSpeed` | flex.c:520-538 | moves the state as FlexState.ShowPhaseSpeed |
| `Flex.FlexDecoder.ParseSingleMessage` | flex.c:288-295 | moves the state as FlexState.ParseSingleMessage |
| `Flex.FlexDecoder.ShowMessage` | flex.c:363-373 | moves the state as FlexState.ShowMessage |
| `Flex.FlexDecoder.AddAssignment` | flex.c:394-411 | moves the state as FlexState.AddAssignment |
| `Flex.FlexDecoder.StoreMember` | flex.c:401-406 | the count cell grows, the capcode goes into the new last slot and GroupFrame records the frame; no other cell changes |
| `Flex.FlexDecoder.ConvertGroupcall` | flex.c:299-349 | moves the state as FlexState.ConvertGroupcall |
| `Flex.FlexDecoder.CallGroup` | flex.c:305-346 | moves the state as FlexState.CallGroup |
| `Flex.FlexDecoder.ReportMembers` | flex.c:322-332 | the member loop reports one GROUP message per member in slot order |
| `Flex.FlexDecoder.ClearRow` | flex.c:341 | every slot of the row becomes 0 and the other rows are kept |
| `Flex.FlexDecoder.SortGroupCall` | flex.c:375-392 | only the row changes; it keeps its count and its members and ends ascending when all members are positive |
| `Flex.FlexDecoder.SortRow` | flex.c:377-391 | the outer loop places slots 1..count and changes only that row |
| `Flex.FlexDecoder.SwapSlots` | flex.c:387-390 | slots a and b of the row are exchanged and nothing else changes |
| `Flex.FlexDecoder.MinFrom` | flex.c:381-385 | the scan returns a slot in n..count holding a least member when the members are positive |
| `Flex.FlexDecoder.Checksums` | flex.c:171-184 | the two loops compute the running check bits, the data parity and the syndrome without touching ob |
| `Flex.FlexDecoder.FixBits` | flex.c:186-209 | the nonzero-syndrome branch leaves ob, ecc, parity and the count as Ecc.Repair says |
| `Flex.FlexDecoder.FlipBit` | flex.c:194-202 | `ob[p] ^= 1` and `ecc ^= ecs[p]`, nothing else |
| `Flex.FlexDecoder.Ecd` | flex.c:162-222 | ob is corrected in place to Ecc.Correct's word and the returned count is its count |
| `Flex.FlexDecoder.ParityCheck` | flex.c:211-221 | the count after the overall parity test, saturated at 3 |
| `Flex.FlexDecoder.SetupEcc` | flex.c:224-286 | ecs[0..20] are the register values Lfsr(i), bch[0..1023] is BchTable, bch[1024] and ecs[21..] are kept |
| `Flex.FlexDecoder.TableAssembled` | flex.c:242-285 | the five loops applied one after the other to the zeroed table give BchTable |
| `Flex.FlexDecoder.FillSyndromes` | flex.c:229-237 | ecs[i] == Lfsr(i) for i < 21; ecs[21..24] are kept |
| `Flex.FlexDecoder.ClearTable` | flex.c:242-243 | bch[0..1023] become 0 and bch[1024] is kept |
| `Flex.FlexDecoder.WriteTwoData` | flex.c:245-252 | the loop performs the two-data-error writes in order |
| `Flex.FlexDecoder.TwoDataRow` | flex.c:247-251 | the inner loop for one n performs its 21 writes in order |
| `Flex.FlexDecoder.TwoDataCell` | flex.c:248-250 | one pass performs the next write of the list |
| `Flex.FlexDecoder.WriteOneData` | flex.c:255-259 | the loop performs the one-data-error writes in order |
| `Flex.FlexDecoder.WriteDataCheck` | flex.c:262-269 | the loop performs the data-and-check writes in order |
| `Flex.FlexDecoder.DataCheckRow` | flex.c:263-268 | the inner loop for one n performs its 10 writes in order |
| `Flex.FlexDecoder.DataCheckCell` | flex.c:265-267 | one pass performs the next write of the list |
| `Flex.FlexDecoder.WriteOneCheck` | flex.c:272-275 | the loop performs the one-check-error writes in order |
| `Flex.FlexDecoder.WriteTwoCheck` | flex.c:278-285 | the loop performs the two-check-error writes in order |
| `Flex.FlexDecoder.TwoCheckRow` | flex.c:279-284 | the inner loop for one n performs its writes, nothing on the diagonal |
| `Flex.FlexDecoder.TwoCheckCell` | flex.c:280-283 | one pass performs the next write, or nothing when i == n |
| `Flex.FlexDecoder.CopyColumn` | flex.c:746-749 | ob becomes codeword i of the block |
| `Flex.FlexDecoder.Pack` | flex.c:756-765 | the packing loop and the flag give Words.PackedWord |
| `Flex.FlexDecoder.DeinterleaveWord` | flex.c:744-768 | one pass moves the state as FlexFrames.DeinterleaveStep |
| `Flex.FlexDecoder.DecodeColumn` | flex.c:746-767 | codeword i is corrected in ob and stored packed in frame[blknum*8+i]; its ecd count is returned |
| `Flex.FlexDecoder.ShowBlock` | flex.c:738-790 | moves the state as FlexFrames.ShowBlock |
| `Flex.FlexDecoder.FirstBlock` | flex.c:777-784 | moves the state as FlexFrames.FirstBlock |
| `Flex.FlexDecoder.LaterBlock` | flex.c:769-789 | moves the state as FlexFrames.LaterBlock |
| `Flex.FlexDecoder.StopCollecting` | flex.c:787-788 | iFlexBlock becomes 1 and nothing else changes |
| `Flex.FlexDecoder.InterpretFrame` | flex.c:774-786 | moves the state as FlexFrames.InterpretFrame |
| `Flex.FlexDecoder.DeinterleaveBlock` | flex.c:744-768 | the loop moves the state as FlexFrames.Deinterleave |
| `Flex.FlexDecoder.ShowFrame` | flex.c:606-735 | moves the state as FlexFrames.ShowFrame |
| `Flex.FlexDecoder.ShowEntries` | flex.c:612-733 | the loop moves the state as FlexFrames.Entries |
| `Flex.FlexDecoder.EntryStep` | flex.c:613-731 | one pass moves the state as FlexFrames.EntryEffect and steps j as NextEntry |
| `Flex.FlexDecoder.ShowEntry` | flex.c:633-727 | moves the state as FlexFrames.Entry |
| `Flex.FlexDecoder.ShowHead` | flex.c:645-646 | moves the state as FlexFrames.EntryHead |
| `Flex.FlexDecoder.ShowAlpha` | flex.c:642-703 | moves the state as FlexFrames.Alpha |
| `Flex.FlexDecoder.DeliverMessage` | flex.c:718-727 | moves the state as FlexFrames.Deliver |
| `Flex.FlexDecoder.ShowInstruction` | flex.c:705-722 | moves the state as FlexFrames.Instruction |
| `Flex.FlexDecoder.ShowBody` | flex.c:667-696 | moves the state as FlexFrames.Body |
| `Flex.FlexDecoder.ShowBodyWord` | flex.c:672-695 | moves the state as FlexFrames.BodyWord |
| `Flex.FlexDecoder.FlexTime` | flex.c:443-518 | moves the state as FlexState.FlexTime |
| `Flex.FlexDecoder.TimeStep` | flex.c:459-513 | one pass either ends the loop as TimeLoop does or leaves the rest of the loop with the same result |
| `Flex.FlexDecoder.CountError` | flex.c:462 | the error count grows by one and nothing else changes |
| `Flex.FlexDecoder.TimeWordStep` | flex.c:465-512 | the switch moves the state as FlexState.TimeWord |
| `Flex.FlexDecoder.RxBit` | flex.c:831-980 | moves the state as FlexReceiver.RxBit |
| `Flex.FlexDecoder.ShiftHistoryIn` | flex.c:842-853 | the registers become FlexReceiver.ShiftHistory of the old ones |
| `Flex.FlexDecoder.SyncStep` | flex.c:855-945 | moves the state as FlexReceiver.SyncStep |
| `Flex.FlexDecoder.SyncCheck` | flex.c:864-945 | moves the state as FlexReceiver.SyncCheck |
| `Flex.FlexDecoder.AlignSync` | flex.c:864-872 | repairs a complemented sync; nh < 2 exactly for a complemented sync or a distance below 2 |
| `Flex.FlexDecoder.SyncMiss` | flex.c:864 | nh is the distance of the middle registers to the sync pattern |
| `Flex.FlexDecoder.InvertOuter` | flex.c:868-869 | registers 0 and 3 are complemented, nothing else |
| `Flex.FlexDecoder.SyncFound` | flex.c:874-904 | moves the state as FlexReceiver.SyncFound |
| `Flex.FlexDecoder.ArmCountdown` | flex.c:875 | the countdown becomes 89 and nothing else changes |
| `Flex.FlexDecoder.SpeedSearch` | flex.c:879-893 | moves the state as FlexReceiver.SpeedSearch |
| `Flex.FlexDecoder.SetSpeed` | flex.c:886-889 | timer 20, 3200 bps for odd variants and 4 levels when bit 1 of the variant is set |
| `Flex.FlexDecoder.FindSpeed` | flex.c:880-893 | returns the first variant within one bit of both outer words, 8 when none matches |
| `Flex.FlexDecoder.Countdown` | flex.c:906-944 | moves the state as FlexReceiver.Countdown |
| `Flex.FlexDecoder.CaptureBit` | flex.c:908-913 | ob[k] takes the symbol's bit and nothing else changes |
| `Flex.FlexDecoder.StartBlocks` | flex.c:939-943 | iFlexBlock 11, bct 0, hbit 0 |
| `Flex.FlexDecoder.HeaderDecode` | flex.c:914-935 | moves the state as FlexReceiver.HeaderDecode |
| `Flex.FlexDecoder.CorrectWord` | flex.c:915 | ob is corrected in place and the count returned; nothing else changes |
| `Flex.FlexDecoder.SetHeader` | flex.c:924-934 | cy and iCurrentCycle become 15 minus bits 4..7, fr and iCurrentFrame 127 minus bits 8..14 |
| `Flex.FlexDecoder.HeaderFields` | flex.c:918-933 | the two hd loops give cycle 15 minus bits 4..7 and frame 127 minus bits 8..14 |
| `Flex.FlexDecoder.ShiftInField` | flex.c:918-923 | after w shifts the register holds the field of bits ob[lo..lo+w-1] plus the initial value shifted right by w |
| `Flex.FlexDecoder.CollectStep` | flex.c:947-977 | moves the state as FlexReceiver.CollectStep |
| `Flex.FlexDecoder.StoreBit` | flex.c:948-968 | moves the state as FlexReceiver.StoreBit and reports when the block is full |
| `Flex.FlexDecoder.EndBlock` | flex.c:967-976 | moves the state as FlexReceiver.EndBlock |
| `Flex.FlexDecoder.CountBlock` | flex.c:972-975 | moves the state as FlexReceiver.CountBlock |
| `Demod16.SphaseIncValue` | demod_flex16.c:33-40 | SPHASEINC is 9510 by exact unsigned arithmetic; the nudge is 1188 and the threshold 28013 |
| `Demod16.Nudge` | demod_flex16.c:71-76 | below the threshold the phase moves forward by SPHASEINC/8, otherwise back by it, never below 0 or past 0xffff |
| `Demod16.Step` | demod_flex16.c:65-82 | the sample's bit enters dcd_shreg at bit 0; the phase advances by SPHASEINC plus or minus the nudge; at most one symbol is handed on, 3 for a 1 and 0 for a 0 |
| `Demod16.ShregShift` | demod_flex16.c:65-66 | the new bit is bit 0 of dcd_shreg and the previous one is bit 1 |
| `Demod16.Pairs` | demod_flex16.c:64-84 | the loop slices one sample per whole pair, hands on at most one symbol per pair and carries the odd sample |
| `Demod16.Slice` | demod_flex16.c:52-85 | the carry stays in 0..1 and tracks the parity of the samples seen |
| `Demod16.ShortCallOnlyCarries` | demod_flex16.c:54-59 | a call shorter than the pair it would complete slices nothing and only adds its length to the carry |
| `Demod16.PairsBits` | demod_flex16.c:64-66 | the loop slices the samples at offsets i, i+2, i+4, ... |
| `Demod16.SlicedAtEvenOffsets` | demod_flex16.c:54-66 | the loop runs `(length - numfill) / 2` times and every sliced sample sits at an even offset from the session's start |
| `Demod16.PairsRate` | demod_flex16.c:71-79 | n pairs advance the phase by between 8322n and 10698n units |
| `Demod16.NoStall` | demod_flex16.c:71-82 | eight pairs always hand at least one symbol to flex_rxbit |
| `Demod16.SliceIsPairs` | demod_flex16.c:54-64 | the carried sample's pair is completed and skipped, then whole pairs are sliced |
| `Demod16.CarryTracksParity` | demod_flex16.c:54-84 | the carry is the parity of all samples seen |
| `Demod16.Flex16.constructor` | demod_flex16.c:44-48 | flex16_init gives an initial decoder and a zeroed demodulator |
| `Demod16.Flex16.Demod` | demod_flex16.c:52-85 | the demodulator moves as Slice says and the decoder takes exactly the symbols it lists, in order |
| `Demod16.Flex16.SlicePairs` | demod_flex16.c:64-84 | the loop moves as Pairs says and feeds its symbols to the decoder |
| `Demod16.Flex16.SlicePair` | demod_flex16.c:65-82 | one pass moves as Step says and feeds its symbol, if any, to the decoder |
| `Demod16.Flex16.Advance` | demod_flex16.c:65-79 | the slicer half of a pass; wrapped exactly when Step hands a symbol on |

## Left out

- Output formatting is not modelled. That covers `verbprintf` and the
  `sprintf`/`strcpy`/`memcpy` into `Current_MSG`. A reported message is a
  record of capcode text (digits with a width, or question marks), type label
  and text bytes.
- The wall clock in `show_address` (`time`, `localtime`, `strftime`) is not
  modelled: it has no effect on decoding.
- The floating-point `rcver`/`exc` averaging after a sync is not modelled.
  It never feeds back into decoding.
- Sample values beyond their sign are not modelled: the demodulator takes
  booleans.
- The `flex_deinit` error report and `fflush` are output only.
- Dead locals are not modelled: `addresses` in `ConvertGroupcall`, and the
  year/day/month/hour/minute values of `FlexTIME`. The in-place shifts of
  `frame[i]` and the `FLEX_date`/`FLEX_time` flags are kept.
- The unreachable `show_address` after `continue`, and the unused globals
  (`Previous_MSG`, `aGroupnumbers`, `iLineSymbols`, threads), are not modelled.
- The host framework that dispatches to `flex16_demod` is not modelled.
  `sphase` and `subsamp` are natural numbers. `dcd_shreg` is kept as a 32-bit
  unsigned value, and only its two low bits are used.
- `Demod16.CarryTracksParity`, `Demod16.SlicedAtEvenOffsets`: the count of
  samples seen so far is a lemma parameter, because no field of the C state
  records it.
- `FlexFrames.InterpretFrame`: when a vector word announces a body reaching
  past `frame[199]`, the C code reads outside the array. The model then
  leaves the frame uninterpreted (a no-op) rather than modelling the
  out-of-bounds read.
- `Flex.FlexDecoder.ShowFrame` and `Flex.FlexDecoder.ShowEntries`
  require that no body reaches past `frame[199]`, for the same reason.
- `Flex.FlexDecoder.SortGroupCall` requires `count + 1 < 1000`. Its inner
  scan reads slot `count + 1`, which is outside the row at count 999.
  `SortGroupCall` is never called by the decoder.
- `Flex.FlexDecoder.SpeedSearch`: the C loop assigns the speed and level and
  then breaks. The model searches first (`FindSpeed`) and assigns after, with
  the same effect.
- `FlexState.AddAssignment` uses the corrected guard (`count + 1 < 1000`).
  The guard as written is modelled separately; see Findings.
- `FlexState.FlexTime`: the date and time values are not extracted, only the
  shifts of the BIWs and the two flags.
- `Ecc.Correct`: a single error in a check bit is reported as 2 errors, not
  1. `ecd` flips its data parity for every count-1 entry (flex.c:207-208),
  although a check-bit error leaves the data parity alone, so the parity
  test at flex.c:214-215 adds one more. `BchCode.CheckErrorCountedTwice`
  proves this, for the code as written. The model follows the code, so a
  frame information word with such an error fails the `cer < 2` test at
  flex.c:917 and is dropped. Error patterns other than those in the
  `BchCode` rows, such as three or more errors, are not analysed.
- `FlexFrames.AlphaEntryReported` is stated for short addresses only.
  The text clause also needs two things. The message buffer must start
  empty; `AddAssignment`, `ConvertGroupcall` and a single message outside a
  group call each end with the index at 0. The body must fit in
  MAX_STR_LEN. Messages to long addresses have the same shape, with a
  9-digit capcode, but no lemma states them.
- `FlexFrames.Entries` and `FlexFrames.ShowFrame` state the messages a frame
  produces entry by entry (`AlphaEntryReported`, `InstructionAssigns`,
  `GroupInstructionCalls`, `GroupAlphaCalls`), not as one list for the
  whole frame. Their own contracts say what they keep, and `EntriesErrors`
  gives their error count.
- `FlexFrames.LaterBlock` leaves out the `flex_speed == STAT_FLEX1600` test of
  flex.c:769. `flex_speed` is initialised to STAT_FLEX1600 at flex.c:152 and
  never assigned again, so the test always holds.
- `flex_total_error_count` is kept as an unbounded counter. Its 32-bit
  wrap-around is not modelled.

## Findings

| source | as written | input that shows it | evidently intended | confidence | as-written member | corrected member |
|---|---|---|---|---|---|---|
| flex.c:401-403 | `AddAssignment` lets a row's count go from 999 to 1000 and then stores the capcode at `aGroupCodes[groupbit][1000]`, one past the row's 1000 slots | 1000 short instructions assigning capcodes to group 0 with no group call in between | the count stays below 1000, so the member is stored inside its row | not executed | `GroupsAsWritten.AsWrittenOverrunsNextRow` | `GroupsAsWritten.CorrectedKeepsRows` |
