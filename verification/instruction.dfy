/** The instruction wire format: a tag byte, then a payload that depends on the tag. */
module Instruction {
  import opened Bytes
  import opened Results
  import opened Utf8
  import opened Errors
  import opened Borsh
  import opened Slices

  /** The three instructions. Text fields are the UTF-8 bytes of the text. */
  datatype Instruction =
    | CreateElection(name: seq<u8>, candidates: seq<seq<u8>>)
    | RegisterVoter(voterPubkey: Pubkey)
    | CastVote(voterPubkey: Pubkey, candidateIndex: u8)

  /** A text field of a create instruction: UTF-8 whose byte length fits its one-byte prefix. */
  predicate IsShortString(s: seq<u8>) {
    |s| < 0x100 && ValidUtf8(s)
  }

  predicate AllShortStrings(cs: seq<seq<u8>>) {
    forall i :: 0 <= i < |cs| ==> IsShortString(cs[i])
  }

  /** The instructions the wire format can carry: a create instruction's name and candidates are
      short strings, and there are fewer than 256 candidates. */
  predicate WellFormed(i: Instruction) {
    i.CreateElection? ==> IsShortString(i.name) && |i.candidates| < 0x100 && AllShortStrings(i.candidates)
  }

  /** The tag byte of each instruction. */
  function Tag(i: Instruction): u8 {
    match i
    case CreateElection(_, _) => 0
    case RegisterVoter(_) => 1
    case CastVote(_, _) => 2
  }

  /** Candidates one after another, each preceded by its one-byte length. */
  function ShortStrings(cs: seq<seq<u8>>): (r: seq<u8>)
    requires forall i :: 0 <= i < |cs| ==> |cs[i]| < 0x100
  {
    if |cs| == 0 then [] else [|cs[0]| as u8] + cs[0] + ShortStrings(cs[1..])
  }

  /** One candidate in front of others: its length byte and bytes come first. */
  lemma {:induction false} ShortStringsCons(c: seq<u8>, more: seq<seq<u8>>)
    requires IsShortString(c) && AllShortStrings(more)
    ensures AllShortStrings([c] + more)
    ensures ShortStrings([c] + more) == [|c| as u8] + c + ShortStrings(more)
  {
    assert ([c] + more)[1..] == more;
    forall k | 0 <= k < |[c] + more|
      ensures IsShortString(([c] + more)[k])
    {
      if k > 0 {
        assert ([c] + more)[k] == more[k - 1];
      }
    }
  }

  /** A candidate read at `offset`, followed by the encoding of more candidates. */
  lemma {:induction false} CandidatesCons(rest: seq<u8>, offset: nat, c: seq<u8>, more: seq<seq<u8>>, end: nat)
    requires offset + 1 + |c| <= end <= |rest| && rest[offset] as int == |c|
    requires rest[offset + 1..offset + 1 + |c|] == c && IsShortString(c)
    requires AllShortStrings(more) && rest[offset + 1 + |c|..end] == ShortStrings(more)
    ensures AllShortStrings([c] + more) && rest[offset..end] == ShortStrings([c] + more)
  {
    var mid := offset + 1 + |c|;
    ShortStringsCons(c, more);
    assert rest[offset..end] == [|c| as u8] + c + ShortStrings(more) by {
      Split(rest, offset, offset + 1, end);
      Split(rest, offset + 1, mid, end);
      assert rest[offset..offset + 1] == [|c| as u8];
      assert rest[offset + 1..end] == c + ShortStrings(more);
    }
  }

  /** The create payload: one-byte length prefixes for the name, the candidate count and each
      candidate. */
  function CreatePayload(name: seq<u8>, candidates: seq<seq<u8>>): (r: seq<u8>)
    requires WellFormed(CreateElection(name, candidates))
    ensures |r| == 2 + |name| + |ShortStrings(candidates)|
  {
    [|name| as u8] + name + [|candidates| as u8] + ShortStrings(candidates)
  }

  /** The encoding the decoder accepts: the tag, then for a create instruction its payload, and
      for the others the Borsh layout of the payload struct (a raw key, then for a vote a
      one-byte index). */
  function Pack(i: Instruction): (r: seq<u8>)
    requires WellFormed(i)
  {
    match i
    case CreateElection(name, candidates) => [0] + CreatePayload(name, candidates)
    case RegisterVoter(key) => [1] + key
    case CastVote(key, index) => [2] + key + [index]
  }

  /** The candidate loop: `count` candidates starting at `offset` of `rest`, each a length byte and
      that many UTF-8 bytes. Returns the candidates in wire order and the offset after the last. */
  function UnpackCandidates(rest: seq<u8>, offset: nat, count: nat): (r: Result<(seq<seq<u8>>, nat), ProgramError>)
    requires offset <= |rest|
    ensures r.Err? ==> r.error == InvalidInstructionData
    ensures count > 0 && offset == |rest| ==> r.Err?
    ensures count > 0 && offset < |rest| && |rest| < offset + 1 + rest[offset] as int ==> r.Err?
    ensures r.Ok? ==>
      var (cs, end) := r.value;
      && |cs| == count
      && offset <= end <= |rest|
      && AllShortStrings(cs)
    decreases count
  {
    if count == 0 then Ok(([], offset))
    else if offset == |rest| then Err(InvalidInstructionData)
    else
      var candidateEnd := offset + 1 + rest[offset];
      if |rest| < candidateEnd then Err(InvalidInstructionData)
      else if !ValidUtf8(rest[offset + 1..candidateEnd]) then Err(InvalidInstructionData)
      else
        var candidate := rest[offset + 1..candidateEnd];
        var (more, end) :- UnpackCandidates(rest, candidateEnd, count - 1);
        ShortStringsCons(candidate, more);
        Ok(([candidate] + more, end))
  }

  /** The create instruction's payload: name length byte, name, candidate count byte, candidates.
      Bytes after the last candidate are ignored. */
  function UnpackCreate(rest: seq<u8>): (r: Result<Instruction, ProgramError>)
    ensures r.Err? ==> r.error == InvalidInstructionData
    ensures |rest| == 0 ==> r.Err?
    ensures |rest| > 0 && |rest| < 1 + rest[0] as int ==> r.Err?
    ensures |rest| > 0 && |rest| >= 1 + rest[0] as int && !ValidUtf8(rest[1..1 + rest[0] as int]) ==> r.Err?
    ensures |rest| > 0 && |rest| == 1 + rest[0] as int ==> r.Err?
    ensures r.Ok? ==>
      && r.value.CreateElection?
      && WellFormed(r.value)
      && |rest| > 1 + rest[0] as int
      && r.value.name == rest[1..1 + rest[0] as int]
      && |r.value.candidates| == rest[1 + rest[0] as int]
  {
    if |rest| == 0 then Err(InvalidInstructionData)
    else
      var nameEnd := 1 + rest[0] as int;
      if |rest| < nameEnd then Err(InvalidInstructionData)
      else if !ValidUtf8(rest[1..nameEnd]) then Err(InvalidInstructionData)
      else if nameEnd >= |rest| then Err(InvalidInstructionData)
      else
        var (candidates, _) :- UnpackCandidates(rest, nameEnd + 1, rest[nameEnd]);
        Ok(CreateElection(rest[1..nameEnd], candidates))
  }

  /** `RegisterVoter::try_from_slice`: exactly one raw key. */
  function DecodeRegisterVoter(payload: seq<u8>): (r: Result<Pubkey, IoCause>)
    ensures r.Ok? <==> |payload| == KEY_LEN
    ensures r.Ok? ==> r.value == payload
    ensures |payload| < KEY_LEN ==> r == Err(UnexpectedLength)
    ensures |payload| > KEY_LEN ==> r == Err(NotAllBytesRead)
  {
    Whole(ReadKey(payload))
  }

  /** `CastVote::try_from_slice`: a raw key and a one-byte candidate index, nothing more. */
  function DecodeCastVote(payload: seq<u8>): (r: Result<(Pubkey, u8), IoCause>)
    ensures r.Ok? <==> |payload| == KEY_LEN + 1
    ensures r.Ok? ==> r.value == (payload[..KEY_LEN], payload[KEY_LEN])
    ensures |payload| < KEY_LEN + 1 ==> r == Err(UnexpectedLength)
    ensures |payload| > KEY_LEN + 1 ==> r == Err(NotAllBytesRead)
  {
    Whole(
      var (key, rest) :- ReadKey(payload);
      var (index, rest') :- ReadU8(rest);
      Ok(((key, index), rest')))
  }

  /** Splits off the tag byte and decodes the payload the tag selects. */
  function Unpack(input: seq<u8>): (r: Result<Instruction, ProgramError>)
    ensures |input| == 0 ==> r == Err(InvalidInstructionData)
    ensures |input| > 0 && input[0] > 2 ==> r == Err(InvalidInstructionData)
    ensures |input| > 0 && input[0] == 0 && r.Err? ==> r.error == InvalidInstructionData
    ensures |input| > 0 && input[0] == 1 ==> (r.Ok? <==> |input| == 1 + KEY_LEN)
    ensures |input| > 0 && input[0] == 2 ==> (r.Ok? <==> |input| == 2 + KEY_LEN)
    ensures |input| > 0 && 1 <= input[0] <= 2 && r.Err? ==>
      r.error == BorshIoError(if |input| < 1 + input[0] + KEY_LEN then UnexpectedLength else NotAllBytesRead)
    ensures r.Ok? ==> WellFormed(r.value) && Tag(r.value) == input[0]
  {
    if |input| == 0 then Err(InvalidInstructionData)
    else
      var tag, rest := input[0], input[1..];
      if tag == 0 then
        UnpackCreate(rest)
      else if tag == 1 then
        match DecodeRegisterVoter(rest)
        case Ok(key) => Ok(RegisterVoter(key))
        case Err(cause) => Err(BorshIoError(cause))
      else if tag == 2 then
        match DecodeCastVote(rest)
        case Ok((key, index)) => Ok(CastVote(key, index))
        case Err(cause) => Err(BorshIoError(cause))
      else
        Err(InvalidInstructionData)
  }

  // ---------------------------------------------------------------- round trip

  /** Encoded candidates decode back, in order, ending right after the last one. */
  lemma {:induction false} UnpackCandidatesOfShortStrings(cs: seq<seq<u8>>, rest: seq<u8>, offset: nat)
    requires AllShortStrings(cs)
    requires offset + |ShortStrings(cs)| <= |rest|
    requires rest[offset..offset + |ShortStrings(cs)|] == ShortStrings(cs)
    ensures UnpackCandidates(rest, offset, |cs|) == Ok((cs, offset + |ShortStrings(cs)|))
    decreases |cs|
  {
    if |cs| > 0 {
      var c := cs[0];
      var candidateEnd := offset + 1 + |c|;
      var end := offset + |ShortStrings(cs)|;
      var tail := ShortStrings(cs[1..]);
      assert && rest[offset] as int == |c| && candidateEnd + |tail| == end
             && rest[offset + 1..candidateEnd] == c && ValidUtf8(c)
             && AllShortStrings(cs[1..]) && rest[candidateEnd..end] == tail by {
        FirstShortString(cs, rest, offset);
      }
      assert UnpackCandidates(rest, candidateEnd, |cs| - 1) == Ok((cs[1..], end)) by {
        UnpackCandidatesOfShortStrings(cs[1..], rest, candidateEnd);
      }
      UnpackCandidatesStep(rest, offset, |cs|, c, cs[1..], end);
      assert [c] + cs[1..] == cs;
      assert UnpackCandidates(rest, offset, |cs|) == Ok((cs, end));
    } else {
      assert ShortStrings(cs) == [];
    }
  }

  /** Where the first of some encoded candidates and the encoding of the others sit. */
  lemma {:induction false} FirstShortString(cs: seq<seq<u8>>, rest: seq<u8>, offset: nat)
    requires |cs| > 0 && AllShortStrings(cs)
    requires offset + |ShortStrings(cs)| <= |rest|
    requires rest[offset..offset + |ShortStrings(cs)|] == ShortStrings(cs)
    ensures var c := cs[0]; var tail := ShortStrings(cs[1..]);
      && |ShortStrings(cs)| == 1 + |c| + |tail|
      && rest[offset] as int == |c| && IsShortString(c) && AllShortStrings(cs[1..])
      && rest[offset + 1..offset + 1 + |c|] == c
      && rest[offset + 1 + |c|..offset + 1 + |c| + |tail|] == tail
  {
    var enc := ShortStrings(cs);
    var c := cs[0];
    var tail := ShortStrings(cs[1..]);
    assert enc == [|c| as u8] + c + tail;
    assert rest[offset] == enc[0] by {
      assert rest[offset..offset + |enc|][0] == rest[offset];
    }
    Window(rest, offset, enc, 1, |c|);
    Middle(enc, [|c| as u8], c, tail);
    Window(rest, offset, enc, 1 + |c|, |tail|);
    assert enc[1 + |c|..1 + |c| + |tail|] == tail;
  }

  /** One turn of the candidate loop, given what it reads and what the remaining turns return. */
  lemma {:induction false} UnpackCandidatesStep(rest: seq<u8>, offset: nat, count: nat, c: seq<u8>, more: seq<seq<u8>>, end: nat)
    requires count > 0 && offset < |rest| && rest[offset] as int == |c|
    requires offset + 1 + |c| <= |rest| && rest[offset + 1..offset + 1 + |c|] == c && ValidUtf8(c)
    requires UnpackCandidates(rest, offset + 1 + |c|, count - 1) == Ok((more, end))
    ensures UnpackCandidates(rest, offset, count) == Ok(([c] + more, end))
  {
  }

  /** The candidates the loop returns are, with their length bytes, exactly the bytes it read. */
  lemma {:induction false} UnpackCandidatesSound(rest: seq<u8>, offset: nat, count: nat)
    requires offset <= |rest|
    requires UnpackCandidates(rest, offset, count).Ok?
    ensures var (cs, end) := UnpackCandidates(rest, offset, count).value;
      rest[offset..end] == ShortStrings(cs)
    decreases count
  {
    if count > 0 {
      var candidateEnd := offset + 1 + rest[offset];
      var candidate := rest[offset + 1..candidateEnd];
      var (more, end) := UnpackCandidates(rest, candidateEnd, count - 1).value;
      assert rest[candidateEnd..end] == ShortStrings(more) by {
        UnpackCandidatesSound(rest, candidateEnd, count - 1);
      }
      assert UnpackCandidates(rest, offset, count).value == ([candidate] + more, end);
      CandidatesCons(rest, offset, candidate, more, end);
    }
  }

  /** The create payload decoder, given the facts about each of its fields. */
  lemma {:induction false} UnpackCreateFields(rest: seq<u8>, name: seq<u8>, candidates: seq<seq<u8>>, end: nat)
    requires IsShortString(name)
    requires |rest| > 1 + |name| && rest[0] as int == |name| && rest[1..1 + |name|] == name
    requires rest[1 + |name|] as int == |candidates|
    requires UnpackCandidates(rest, 2 + |name|, |candidates|) == Ok((candidates, end))
    ensures UnpackCreate(rest) == Ok(CreateElection(name, candidates))
  {
  }

  /** Where the fields of a create payload sit: length byte, name, count byte, candidates and
      whatever follows. */
  lemma {:induction false} CreateLayout(rest: seq<u8>, len: u8, name: seq<u8>, count: u8, enc: seq<u8>, t: seq<u8>)
    requires rest == [len] + name + [count] + enc + t
    ensures |rest| > 1 + |name| && rest[0] == len && rest[1..1 + |name|] == name
    ensures rest[1 + |name|] == count
    ensures 2 + |name| + |enc| <= |rest| && rest[2 + |name|..2 + |name| + |enc|] == enc
  {
    Middle(rest, [len], name, [count] + enc + t);
    Middle(rest, [len] + name + [count], enc, t);
    assert rest[1 + |name|] == ([len] + name + [count])[1 + |name|];
  }

  /** A create payload built from one-byte prefixes decodes back, whatever follows it. */
  lemma {:induction false} UnpackCreateOfPack(name: seq<u8>, candidates: seq<seq<u8>>, t: seq<u8>)
    requires WellFormed(CreateElection(name, candidates))
    ensures UnpackCreate(CreatePayload(name, candidates) + t) == Ok(CreateElection(name, candidates))
  {
    var rest := CreatePayload(name, candidates) + t;
    var enc := ShortStrings(candidates);
    var end := 2 + |name| + |enc|;
    assert && |rest| > 1 + |name| && rest[0] as int == |name| && rest[1..1 + |name|] == name
           && rest[1 + |name|] as int == |candidates|
           && end <= |rest| && rest[2 + |name|..end] == enc by {
      CreateLayout(rest, |name| as u8, name, |candidates| as u8, enc, t);
    }
    assert UnpackCandidates(rest, 2 + |name|, |candidates|) == Ok((candidates, end)) by {
      UnpackCandidatesOfShortStrings(candidates, rest, 2 + |name|);
    }
    UnpackCreateFields(rest, name, candidates, end);
  }

  /** Decoding an encoded instruction gives it back. A create instruction ignores any bytes after
      its last candidate; the other two tolerate none. */
  lemma {:induction false} UnpackPack(i: Instruction, t: seq<u8>)
    requires WellFormed(i)
    requires i.CreateElection? || t == []
    ensures Unpack(Pack(i) + t) == Ok(i)
  {
    var input := Pack(i) + t;
    var rest := input[1..];
    match i
    case CreateElection(name, candidates) =>
      TailOfCons(0, CreatePayload(name, candidates), t);
      UnpackCreateOfPack(name, candidates, t);
    case RegisterVoter(key) =>
      assert rest == key;
      assert rest[..KEY_LEN] == key;
    case CastVote(key, index) =>
      assert rest == key + [index];
      assert rest[..KEY_LEN] == key && rest[KEY_LEN..] == [index];
  }

  /** A register or vote instruction with extra bytes after its payload is rejected. */
  lemma {:induction false} UnpackRejectsTrailing(i: Instruction, t: seq<u8>)
    requires WellFormed(i) && !i.CreateElection? && |t| > 0
    ensures Unpack(Pack(i) + t) == Err(BorshIoError(NotAllBytesRead))
  {
  }

  /** The fields a successful create decoding read, and where they sit in the payload. */
  lemma {:induction false} UnpackCreateParts(rest: seq<u8>) returns (end: nat)
    requires UnpackCreate(rest).Ok?
    ensures var i := UnpackCreate(rest).value;
      && 2 + |i.name| <= end <= |rest|
      && rest[0] as int == |i.name| && rest[1..1 + |i.name|] == i.name
      && rest[1 + |i.name|] as int == |i.candidates|
      && rest[2 + |i.name|..end] == ShortStrings(i.candidates)
  {
    var nameEnd := 1 + rest[0] as int;
    var r := UnpackCandidates(rest, nameEnd + 1, rest[nameEnd]);
    end := r.value.1;
    UnpackCandidatesSound(rest, nameEnd + 1, rest[nameEnd]);
  }

  /** A decoded create payload starts with the instruction's encoding (after the tag). */
  lemma {:induction false} UnpackCreateSound(rest: seq<u8>)
    requires UnpackCreate(rest).Ok?
    ensures var i := UnpackCreate(rest).value;
      var payload := CreatePayload(i.name, i.candidates);
      |payload| <= |rest| && rest[..|payload|] == payload
  {
    var i := UnpackCreate(rest).value;
    var end := UnpackCreateParts(rest);
    Join(rest, 1 + |i.name|, end);
  }

  /** Whatever decodes is an encoded instruction: a create instruction's encoding is a prefix of
      the input, and a register or vote instruction's encoding is the whole input. */
  lemma {:induction false} UnpackSound(input: seq<u8>)
    requires Unpack(input).Ok?
    ensures var i := Unpack(input).value;
      && WellFormed(i)
      && |Pack(i)| <= |input|
      && input[..|Pack(i)|] == Pack(i)
      && (!i.CreateElection? ==> input == Pack(i))
  {
    var i := Unpack(input).value;
    var rest := input[1..];
    assert input == [input[0]] + rest;
    match i
    case CreateElection(name, candidates) =>
      UnpackCreateSound(rest);
      PrefixOfCons(input[0], rest, |CreatePayload(name, candidates)|);
    case RegisterVoter(key) =>
      assert rest == rest[..KEY_LEN];
    case CastVote(key, index) =>
      assert rest == rest[..KEY_LEN] + [rest[KEY_LEN]];
  }

  /** The candidate loop fails on every strict prefix of an encoding of `count` candidates. */
  lemma {:induction false} UnpackCandidatesTruncated(cs: seq<seq<u8>>, rest: seq<u8>, offset: nat)
    requires AllShortStrings(cs)
    requires offset <= |rest| < offset + |ShortStrings(cs)|
    requires rest[offset..] == ShortStrings(cs)[..|rest| - offset]
    ensures UnpackCandidates(rest, offset, |cs|).Err?
    decreases |cs|
  {
    assert |cs| > 0;
    if offset < |rest| {
      var c := cs[0];
      var candidateEnd := offset + 1 + |c|;
      TruncatedFirst(cs, rest, offset);
      if candidateEnd <= |rest| {
        UnpackCandidatesTruncated(cs[1..], rest, candidateEnd);
        UnpackCandidatesStepErr(rest, offset, |cs|, c);
      }
    }
  }

  /** What a strict prefix of some encoded candidates holds of the first candidate. */
  lemma {:induction false} TruncatedFirst(cs: seq<seq<u8>>, rest: seq<u8>, offset: nat)
    requires |cs| > 0 && AllShortStrings(cs)
    requires offset < |rest| < offset + |ShortStrings(cs)|
    requires rest[offset..] == ShortStrings(cs)[..|rest| - offset]
    ensures var c := cs[0]; var tail := ShortStrings(cs[1..]); var candidateEnd := offset + 1 + |c|;
      && rest[offset] as int == |c| && IsShortString(c) && AllShortStrings(cs[1..])
      && (candidateEnd <= |rest| ==>
            && rest[offset + 1..candidateEnd] == c
            && |rest| < candidateEnd + |tail|
            && rest[candidateEnd..] == tail[..|rest| - candidateEnd])
  {
    var enc := ShortStrings(cs);
    var m := |rest| - offset;
    var c := cs[0];
    var tail := ShortStrings(cs[1..]);
    var candidateEnd := offset + 1 + |c|;
    assert enc == [|c| as u8] + c + tail;
    assert rest[offset] == enc[0] by {
      assert rest[offset..][0] == rest[offset];
    }
    if candidateEnd <= |rest| {
      assert rest[offset + 1..candidateEnd] == c by {
        assert rest[offset + 1..candidateEnd] == rest[offset..][1..1 + |c|];
        assert enc[..m][1..1 + |c|] == enc[1..1 + |c|];
        Middle(enc, [|c| as u8], c, tail);
      }
      assert rest[candidateEnd..] == tail[..|rest| - candidateEnd] by {
        assert rest[candidateEnd..] == rest[offset..][1 + |c|..];
        assert enc[..m][1 + |c|..] == enc[1 + |c|..m];
        assert enc[1 + |c|..] == tail;
      }
    }
  }

  /** A turn of the candidate loop whose remaining turns fail, fails. */
  lemma {:induction false} UnpackCandidatesStepErr(rest: seq<u8>, offset: nat, count: nat, c: seq<u8>)
    requires count > 0 && offset < |rest| && rest[offset] as int == |c|
    requires offset + 1 + |c| <= |rest| && rest[offset + 1..offset + 1 + |c|] == c
    requires UnpackCandidates(rest, offset + 1 + |c|, count - 1).Err?
    ensures UnpackCandidates(rest, offset, count).Err?
  {
  }

  /** A create instruction cut short anywhere is rejected with InvalidInstructionData: a missing
      name length, a name running past the end, a missing candidate count, a missing candidate
      length or a candidate running past the end. */
  lemma {:induction false} UnpackRejectsTruncatedCreate(i: Instruction, n: nat)
    requires i.CreateElection? && WellFormed(i)
    requires n < |Pack(i)|
    ensures Unpack(Pack(i)[..n]) == Err(InvalidInstructionData)
  {
    var payload := CreatePayload(i.name, i.candidates);
    if n > 0 {
      UnpackRejectsTruncatedPayload(payload, i.name, i.candidates, n);
    }
  }

  /** The create tag followed by a create payload cut short anywhere. */
  lemma {:induction false} UnpackRejectsTruncatedPayload(payload: seq<u8>, name: seq<u8>, candidates: seq<seq<u8>>, n: nat)
    requires WellFormed(CreateElection(name, candidates))
    requires payload == CreatePayload(name, candidates)
    requires 0 < n <= |payload|
    ensures Unpack(([0] + payload)[..n]) == Err(InvalidInstructionData)
  {
    var input := ([0] + payload)[..n];
    HeadOfPrefix(0, payload, n);
    UnpackCreateRejectsTruncated(input[1..], name, candidates, n - 1);
    UnpackTagZero(input);
  }

  /** Tag 0 selects the create payload decoder. */
  lemma {:induction false} UnpackTagZero(input: seq<u8>)
    requires |input| > 0 && input[0] == 0
    ensures Unpack(input) == UnpackCreate(input[1..])
  {
  }

  /** A create payload cut short anywhere does not decode. */
  lemma {:induction false} UnpackCreateRejectsTruncated(rest: seq<u8>, name: seq<u8>, candidates: seq<seq<u8>>, m: nat)
    requires WellFormed(CreateElection(name, candidates))
    requires m < |CreatePayload(name, candidates)|
    requires rest == CreatePayload(name, candidates)[..m]
    ensures UnpackCreate(rest).Err?
  {
    var enc := ShortStrings(candidates);
    TruncatedCreateLayout(rest, |name| as u8, name, |candidates| as u8, enc, m);
    if |rest| > 1 + |name| {
      UnpackCandidatesTruncated(candidates, rest, 2 + |name|);
      UnpackCreateCandidatesErr(rest, name);
    }
  }

  /** What a strict prefix of a create payload holds, field by field. */
  lemma {:induction false} TruncatedCreateLayout(rest: seq<u8>, len: u8, name: seq<u8>, count: u8, enc: seq<u8>, m: nat)
    requires m < 2 + |name| + |enc|
    requires rest == ([len] + name + [count] + enc)[..m]
    ensures |rest| == m
    ensures m > 0 ==> rest[0] == len
    ensures m >= 1 + |name| ==> rest[1..1 + |name|] == name
    ensures m > 1 + |name| ==> rest[1 + |name|] == count && rest[2 + |name|..] == enc[..m - 2 - |name|]
  {
    var full := [len] + name + [count] + enc;
    CreateLayout(full, len, name, count, enc, []);
    if m > 0 {
      assert rest[0] == full[0];
    }
    if m >= 1 + |name| {
      assert rest[1..1 + |name|] == full[1..1 + |name|];
    }
    if m > 1 + |name| {
      assert rest[1 + |name|] == full[1 + |name|];
      assert full[2 + |name|..] == enc by {
        assert full == ([len] + name + [count]) + enc;
      }
      assert rest[2 + |name|..] == full[2 + |name|..][..m - 2 - |name|];
    }
  }

  /** A create payload whose name reads but whose candidates do not, fails. */
  lemma {:induction false} UnpackCreateCandidatesErr(rest: seq<u8>, name: seq<u8>)
    requires |rest| > 1 + |name| && rest[0] as int == |name| && rest[1..1 + |name|] == name
    requires UnpackCandidates(rest, 2 + |name|, rest[1 + |name|]).Err?
    ensures UnpackCreate(rest).Err?
  {
  }
}
