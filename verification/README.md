# Election program: a verified model

A Dafny model of an on-chain election program. The program keeps one election record in the data
of an account. The record holds a name, a list of candidates, one vote counter per candidate and
a list of registered voters. It accepts three binary instructions:

- **create election** (tag 0): a name and candidates, each behind a one-byte length;
- **register voter** (tag 1): a 32-byte public key;
- **cast vote** (tag 2): a key and a one-byte candidate index.

Every instruction goes through the same steps:

1. Decode the instruction.
2. Read the record from the first account with Borsh `try_from_slice`.
3. Apply the rule for that instruction.
4. Serialize the record back into the account's fixed-size data.

Modules, one per concern of the program:

- `Results`: the `Option` and `Result` values.
- `Bytes`: bytes, u32/u64 values, little-endian conversion and 32-byte keys.
- `Utf8`: what `String::from_utf8` accepts, following the UTF8-octets grammar of section 4 of RFC 3629.
- `Errors`: the program's error kinds and the runtime error values that report them.
- `Borsh`: the primitive Borsh encodings the record uses. Strings and sequences carry u32 little-endian length prefixes, counters are u64 little-endian and keys are 32 raw bytes.
- `State`: the record and its derived Borsh codec.
- `Layout`: the byte offset of each field of an encoded record.
- `Instruction`: the instruction decoder and the encoding it accepts.
- `Processor`: the three rules, reading and writing the account, the entry point, and properties of instruction sequences.
- `Slices`: sequence-slicing facts used by the proofs.

The record is read with `try_from_slice`, which demands that the record fill the account exactly.
It is written with `serialize`, which overwrites only the front of the account. Together these
make the program unable to register a voter (see Findings). The model therefore has two entry
points:

- `Processor.Process`: the program as written.
- `Processor.ProcessCorrected`: the same program, except that it reads the record from the front of the account (Borsh `deserialize`), so a record shorter than its account can be read back.

The lemmas about whole elections use the corrected entry point. Where the corrected behaviour
differs, the lemmas about the program as written state what it does instead.

How the program reports decoding and writing errors:

- Errors from the tag 1 and tag 2 payloads are Borsh I/O errors (`BorshIoError`), not `InvalidInstructionData`. A short payload gives an unexpected-length error, and a long one gives a not-all-bytes-read error.
- A record that does not decode gives a Borsh I/O error. The code has no separate "malformed record" error.
- A record that no longer fits its account fails with Borsh's write-zero error.

## Model

| member | source | states |
|---|---|---|
| Errors.ToProgramError | program/src/error.rs:17-20 | every error kind is reported as `Custom` carrying its discriminant, which is below 4 |
| Errors.Discriminant | program/src/error.rs:6-15 | each error kind has a discriminant below 4 |
| Errors.DiscriminantValues | program/src/error.rs:6-15 | the codes follow declaration order: InvalidInstruction 0, VoterAlreadyRegistered 1, VoterNotRegistered 2, InvalidCandidateIndex 3 |
| Errors.CodeRoundTrip | program/src/error.rs:6-20 | a custom code identifies its error kind, and exactly the codes 0..3 identify one |
| Errors.ToProgramErrorInjective | program/src/error.rs:17-21 | distinct kinds give distinct error values, and none equals InvalidInstructionData, NotEnoughAccountKeys or any Borsh I/O error |
| Utf8.CharLen | program/src/instruction.rs:25 | the character length at the front of a byte string is at most 4 and within the string; ASCII bytes are exactly the one-byte characters |
| Utf8.Rejections | program/src/instruction.rs:25 | a lone continuation byte, an overlong NUL, an encoded surrogate and a code point above U+10FFFF are refused as text |
| Bytes.FromToLE | program/src/state.rs:8 | reading back the little-endian bytes of a value below 256^n gives the value |
| Bytes.ToFromLE | program/src/state.rs:8 | writing the value of n little-endian bytes gives the same bytes back |
| Borsh.ReadU8 | program/src/instruction.rs:65 | one byte is read exactly when the input is non-empty, and the byte and the rest rebuild the input; an empty input gives UnexpectedLength |
| Borsh.ReadU32 | program/src/state.rs:6-9 | a u32 length prefix is read exactly when 4 bytes remain, consuming exactly 4; otherwise UnexpectedLength |
| Borsh.ReadU64 | program/src/state.rs:8 | a u64 counter is read exactly when 8 bytes remain, consuming exactly 8; otherwise UnexpectedLength |
| Borsh.ReadKey | program/src/state.rs:9 | a key is read exactly when 32 bytes remain, and the key and the rest rebuild the input; otherwise UnexpectedLength |
| Borsh.U64sBytes | program/src/state.rs:8 | the counters' body is 8 bytes per counter |
| Borsh.KeysBytes | program/src/state.rs:9 | the voters' body is 32 bytes per key |
| Borsh.ReadString | program/src/state.rs:6 | a string that is read is valid UTF-8 with a u32 length, and reading consumed exactly its 4-byte prefix and its bytes |
| Borsh.ReadStrings | program/src/state.rs:7 | a sequence of k strings that is read has k valid strings |
| Borsh.ReadU64s | program/src/state.rs:8 | k counters are read exactly when 8k bytes remain, consuming exactly those; otherwise UnexpectedLength |
| Borsh.ReadKeys | program/src/state.rs:9 | k keys are read exactly when 32k bytes remain, consuming exactly those; otherwise UnexpectedLength |
| Borsh.Whole | program/src/processor.rs:38 | a whole-buffer read succeeds exactly when the value reads and no byte is left over; leftover bytes give NotAllBytesRead, and a failed read keeps its cause |
| Borsh.U32RoundTrip | program/src/state.rs:7-9 | a u32 length prefix reads back as its value, leaving the bytes after it |
| Borsh.U32Canonical | program/src/state.rs:7-9 | every successful u32 read consumed exactly the encoding of the value it returned |
| Borsh.U64RoundTrip | program/src/state.rs:8 | a u64 counter reads back as its value, leaving the bytes after it |
| Borsh.U64Canonical | program/src/state.rs:8 | every successful u64 read consumed exactly the encoding of the value it returned |
| Borsh.StringRoundTrip | program/src/state.rs:6 | a UTF-8 string with its u32 length reads back as itself, leaving what follows |
| Borsh.StringCanonical | program/src/state.rs:6 | every successful string read consumed exactly the encoding of the string it returned |
| Borsh.StringsRoundTrip | program/src/state.rs:7 | the candidates' encodings read back, in order |
| Borsh.StringsCanonical | program/src/state.rs:7 | a successful read of k strings consumed exactly their encodings |
| Borsh.U64sRoundTrip | program/src/state.rs:8 | the counters' encodings read back, in order |
| Borsh.U64sCanonical | program/src/state.rs:8 | a successful read of k counters consumed exactly their encodings |
| Borsh.KeysRoundTrip | program/src/state.rs:9 | the voters' 32-byte keys read back, in order |
| Borsh.KeysCanonical | program/src/state.rs:9 | a successful read of k keys consumed exactly their 32k bytes |
| State.Serialize | program/src/state.rs:4-10 | the encoding's length is 16 bytes of prefixes plus the name, the prefixed candidates, 8 bytes per counter and 32 per voter |
| State.Deserialize | program/src/state.rs:4-10 | a record that is read has valid UTF-8 text and u32-sized lengths, and reading consumes at least 16 bytes |
| State.DeserializeRoundTrip | program/src/state.rs:4-10 | decoding the encoding of any record with UTF-8 text gives the record back and leaves the bytes that followed |
| State.DeserializeCanonical | program/src/state.rs:4-10 | every successful decoding read exactly the encoding of the record it returned |
| State.DeserializeExtend | program/src/state.rs:4-10 | bytes appended after a decodable buffer do not change the record read from it |
| State.DeserializeTruncated | program/src/state.rs:4-10 | an encoding cut short at any point fails to decode, with or without the whole-buffer requirement |
| State.TryFromSlice | program/src/processor.rs:38 | a whole-buffer read returns a record whose encoding is the entire buffer; a failed decode keeps its cause, and a decoded record with bytes after it gives NotAllBytesRead |
| State.TryFromSliceRoundTrip | program/src/processor.rs:38 | the whole-buffer read inverts encoding |
| State.TryFromSliceExact | program/src/processor.rs:38 | the whole-buffer read accepts only a buffer that is exactly one record's encoding, and rejects any trailing byte with NotAllBytesRead |
| State.ZeroBuffer | program/src/processor.rs:38 | a zero-filled buffer of n ≥ 16 bytes holds the empty record followed by zeros, and reads as a whole record only when n is 16 |
| Layout.LayoutHead | program/src/state.rs:6-7 | byte positions of the name's length, the name, and the candidate count in an encoded record |
| Layout.LayoutTally | program/src/state.rs:8 | the counter count sits at the tally offset, and counter i is the 8 little-endian bytes at 8i past it |
| Layout.LayoutVoters | program/src/state.rs:9 | the voter count sits at the voters offset, voter i is the 32 bytes at 32i past it, and the encoding ends after the last voter |
| Instruction.DecodeRegisterVoter | program/src/instruction.rs:57-60 | `try_from_slice` of the register payload decodes exactly when it is 32 bytes, to those bytes as the key; shorter gives UnexpectedLength, longer NotAllBytesRead |
| Instruction.DecodeCastVote | program/src/instruction.rs:62-66 | `try_from_slice` of the vote payload decodes exactly when it is 33 bytes, to the first 32 as the key and the last as the candidate index; shorter gives UnexpectedLength, longer NotAllBytesRead |
| Instruction.Unpack | program/src/instruction.rs:15-52 | the error for each input: empty or unknown tag gives InvalidInstructionData; tag 0 fails only with InvalidInstructionData; tags 1 and 2 succeed exactly on 33- and 34-byte inputs and otherwise fail with the Borsh cause of a short or long payload; a decoded instruction carries the input's tag and well-formed fields |
| Instruction.UnpackCreate | program/src/instruction.rs:19-41 | the create payload is refused with InvalidInstructionData when the name byte is missing, the name runs past the end, the name is not UTF-8 or the count byte is missing; on success the name is the prefixed bytes and there are as many candidates as the count byte says |
| Instruction.UnpackCandidates | program/src/instruction.rs:29-39 | the loop fails only with InvalidInstructionData, fails on a missing length byte or a candidate running past the end, and on success returns exactly `count` valid short candidates and an end offset inside the input |
| Instruction.UnpackCandidatesOfShortStrings | program/src/instruction.rs:29-39 | encoded candidates decode back in wire order, ending right after the last one |
| Instruction.UnpackCandidatesSound | program/src/instruction.rs:29-39 | the bytes the loop consumed are exactly the length-prefixed encoding of the candidates it returned |
| Instruction.UnpackCandidatesTruncated | program/src/instruction.rs:31-35 | encoded candidates cut short anywhere are refused |
| Instruction.UnpackCreateOfPack | program/src/instruction.rs:19-40 | a create payload of short UTF-8 strings decodes back to its name and candidates, whatever bytes follow it |
| Instruction.UnpackPack | program/src/instruction.rs:15-66 | every well-formed instruction decodes from its encoding; a create instruction does so even with trailing bytes |
| Instruction.UnpackRejectsTrailing | program/src/instruction.rs:42-49 | a register or vote payload with extra bytes is refused with NotAllBytesRead |
| Instruction.UnpackCreateSound | program/src/instruction.rs:19-40 | a successful create decoding read exactly the encoding of the name and candidates it returned, followed by ignored bytes |
| Instruction.UnpackSound | program/src/instruction.rs:15-52 | every decoded instruction's encoding is a prefix of the input, and the whole input for tags 1 and 2 |
| Instruction.UnpackRejectsTruncatedCreate | program/src/instruction.rs:20-35 | a create instruction's encoding cut short anywhere is refused with InvalidInstructionData |
| Instruction.UnpackCreateRejectsTruncated | program/src/instruction.rs:20-35 | a create payload cut short anywhere is refused |
| Processor.Increment | program/src/processor.rs:80 | the counter goes up by one, and wraps to 0 from 2^64 - 1 |
| Processor.Create | program/src/processor.rs:39-42 | create gives the given name and candidates, one zero counter per candidate and no voters, which satisfies the record invariant |
| Processor.Register | program/src/processor.rs:54-60 | register is refused with VoterAlreadyRegistered exactly when the voter is listed; otherwise the voter is appended, nothing else changes and no voter is listed twice |
| Processor.Vote | program/src/processor.rs:70-80 | an unregistered voter is refused first, then an index at or past the candidate count; a missing counter panics; otherwise only the chosen counter changes, by one |
| Processor.Apply | program/src/processor.rs:17-27 | a rule never panics on a valid record; success keeps the record valid (create makes it valid); create always succeeds with one counter per candidate and no voters; register and vote keep the name, the candidates and the number of counters; decodable records stay decodable when the result is encodable |
| Processor.Load | program/src/processor.rs:38 | the whole-buffer reader succeeds only when nothing is left over; both readers return the record at the front of the data |
| Processor.Store | program/src/processor.rs:44 | the write succeeds exactly when the encoding fits the account; it then overwrites the front, keeps the old tail and the length; otherwise it fails with WriteZero, or LengthOverflow for a length beyond u32 |
| Processor.Run | program/src/processor.rs:14-84 | decoding comes first, then the first account, then the record read; a rule's refusal or panic is returned unchanged, and a failed write is returned as its Borsh I/O error; a successful run wrote exactly the rule's result into the first account |
| Processor.Process | program/src/processor.rs:14-28 | the program as written reports decode, missing-account and whole-buffer read errors in that order |
| Processor.ProcessCorrected | program/src/processor.rs:14-28 | the corrected program reports decode, missing-account and prefix read errors in that order |
| Processor.ApplyPreservesValid | program/src/processor.rs:41 | on a valid record no rule panics, every success keeps the record valid, and a registered voter's in-range vote succeeds |
| Processor.RegisterTwice | program/src/processor.rs:54-57 | registering the same voter again is refused |
| Processor.CreateForgetsPrior | program/src/processor.rs:38-42 | create succeeds on any decoded record, and its result does not depend on that record |
| Processor.CastAllTally | program/src/processor.rs:65-84 | after any ballots against a valid record, each counter has grown, modulo 2^64, by the ballots for its candidate from registered voters; nothing else changes and the record stays valid |
| Processor.WrittenRecord | program/src/processor.rs:44 | a written record reads back from the front of the account, and reads back as the whole buffer exactly when it fills the account |
| Processor.ReadAfterWrite | program/src/processor.rs:60 | the corrected program reads back exactly the record its last instruction wrote |
| Processor.CorrectedStep | program/src/processor.rs:14-28 | a rule that succeeds on the stored record, with a result that fits, becomes the new stored record |
| Processor.CorrectedRegister | program/src/processor.rs:54-60 | in the corrected program a new voter whose longer record fits is registered, and a second registration is refused |
| Processor.RegisterNeverSucceeds | program/src/processor.rs:53-60 | as written, register always fails: VoterAlreadyRegistered for a listed voter, otherwise WriteZero (or LengthOverflow) |
| Processor.ShorterWriteUnreadable | program/src/processor.rs:38 | as written, after a write shorter than the account every later instruction fails with NotAllBytesRead |
| Processor.NoVoterEver | program/src/processor.rs:69-73 | as written, accounts with no stored voter keep having none, and every vote against them fails |
| Processor.OnlyCreateSucceeds | program/src/processor.rs:30-47 | as written, only create succeeds on such an account, and it stores no voter |
| Processor.VoteRefused | program/src/processor.rs:69-73 | as written, a vote against an account with no stored voter fails |
| Processor.ZeroAccount | program/src/processor.rs:38 | a zero-filled account has no stored voter |
| Processor.CreateInZeroAccount | program/src/processor.rs:38 | as written, create in a zero-filled account longer than 16 bytes fails with NotAllBytesRead; corrected, it succeeds exactly when the record fits |
| Processor.TwoCandidateElection | program/src/processor.rs:14-84 | in a zero-filled account: create with two candidates, register a voter, two votes for the first candidate give counters 1 then 2, and an unregistered voter is refused |
| Processor.ScenarioOpening | program/src/processor.rs:30-63 | the first half of that scenario: the created record, then the record with the voter registered |
| Processor.ScenarioBallots | program/src/processor.rs:65-84 | the second half: both ballots counted, and the unregistered voter refused |
| Processor.ScenarioRecords | program/src/processor.rs:39-80 | the rules' results along that scenario, and each record's size |
| Processor.Unregistered | program/src/processor.rs:70-73 | a ballot from a voter not on the stored list is refused with VoterNotRegistered, whatever its candidate index |

## Left out

- Logging (`msg!`, processor.rs:55, 71, 76) has no effect on the result and is not modelled.
- The program id, the account's owner and the signer flags are never read by the program, so they do not appear.
- `AccountInfo`, its `RefCell` borrows and `next_account_info` are modelled by a sequence of byte strings. The first one is the election account's data. The borrows cannot conflict, because the read borrow ends before the write borrow starts.
- The runtime discards the writes of a failed instruction. The entry point therefore returns either the whole new data of the first account or an error. A partial write is never observable.
- A panic is modelled as a `Panic` outcome, with no message.
- `BorshIoError` carries a message string in the runtime. The model carries the cause instead (`IoCause`).
- The client script (client/main.ts) is not part of this model.
- `ElectionInstruction` derives the Borsh traits, but the program decodes instructions with the hand-written `unpack`. `Instruction.Pack` is the layout `unpack` accepts, not the derived Borsh layout of the enum.
- `ElectionError::InvalidInstruction` is never returned by the program. It appears only in the error mapping.
- Processor.Increment: wraps at 2^64. This assumes a build without overflow checks. With overflow checks, incrementing a counter at 2^64 - 1 panics instead.
- Processor.Store: a record that is both too long for a u32 length and too large for the account is reported as LengthOverflow. Borsh reports whichever it meets first while writing. Such a record cannot come from this program, because every length it stores is below 256 or bounded by the account size.
- Instruction.UnpackCandidatesTruncated: states only that a truncated candidate list is refused. The error is InvalidInstructionData, which `Instruction.UnpackCandidates` states for every refusal.
- State.DeserializeTruncated: states only that the cut-short encoding is refused, not which Borsh cause is reported.

## Findings

| source | as written | input that shows it | evidently intended | confidence | as-written member | corrected member |
|---|---|---|---|---|---|---|
| program/src/processor.rs:53-60 | the record is read with `try_from_slice`, so it must fill the account exactly; registering appends a 32-byte key, so the new encoding no longer fits and `serialize` fails | any account whose data decodes as a record, and a register instruction for a new voter: the result is BorshIoError(WriteZero) | the voter is appended and the longer record is written into the account | high; not executed | Processor.RegisterNeverSucceeds | Processor.CorrectedRegister |
| program/src/processor.rs:38 | `serialize` overwrites only the front of the account, so a record shorter than the account leaves old bytes after it, and the next `try_from_slice` rejects them | a create instruction whose new record is shorter than the account's old record, followed by any instruction: the second fails with BorshIoError(NotAllBytesRead) | the next instruction reads the record just written | high; not executed | Processor.ShorterWriteUnreadable | Processor.ReadAfterWrite |
| program/src/processor.rs:38 | a fresh zero-filled account reads as the empty record followed by zeros, which `try_from_slice` rejects, so no election can be created in an account larger than the empty record | a 200-byte zero-filled account and any create instruction: the result is BorshIoError(NotAllBytesRead); with no voter ever stored, no vote is ever counted | create succeeds whenever the record fits, and votes are then counted | high; not executed | Processor.CreateInZeroAccount | Processor.TwoCandidateElection |
