/** The program's entry point: decode the instruction, read the election record from the first
    account's data, apply the instruction's rule to the record, and write the record back. */
module Processor {
  import opened Bytes
  import opened Results
  import opened Utf8
  import opened Errors
  import opened Borsh
  import opened State
  import opened Instruction

  const U64_MODULUS: nat := 0x1_0000_0000_0000_0000

  /** `+= 1` on a u64 counter. The model assumes a build without overflow checks, where the counter wraps. */
  function Increment(v: u64): (r: u64)
    ensures v + 1 < U64_MODULUS ==> r == v + 1
    ensures v + 1 == U64_MODULUS ==> r == 0
  {
    (v + 1) % U64_MODULUS
  }

  // ---------------------------------------------------------------- the record invariant

  predicate NoDuplicates(ks: seq<Pubkey>) {
    forall i, j :: 0 <= i < j < |ks| ==> ks[i] != ks[j]
  }

  /** What the three rules keep true of a record: one counter per candidate, and each voter
      registered once. */
  predicate Valid(e: Election) {
    |e.votes| == |e.candidates| && NoDuplicates(e.voters)
  }

  // ---------------------------------------------------------------- the three rules

  /** Create: the decoded record is overwritten field by field, so nothing of it survives. */
  function Create(name: seq<u8>, candidates: seq<seq<u8>>): (r: Election)
    ensures Valid(r)
    ensures r.name == name && r.candidates == candidates && r.voters == []
    ensures forall i :: 0 <= i < |r.votes| ==> r.votes[i] == 0
  {
    Election(name, candidates, seq(|candidates|, _ => 0), [])
  }

  /** Register: a voter already on the list is refused; otherwise it goes at the end. */
  function Register(e: Election, voter: Pubkey): (r: Result<Election, ElectionError>)
    ensures r.Err? <==> voter in e.voters
    ensures r.Err? ==> r.error == VoterAlreadyRegistered
    ensures r.Ok? ==> r.value.voters == e.voters + [voter]
    ensures r.Ok? ==> r.value.(voters := e.voters) == e
    ensures r.Ok? && NoDuplicates(e.voters) ==> NoDuplicates(r.value.voters)
  {
    if voter in e.voters then Err(VoterAlreadyRegistered)
    else Ok(e.(voters := e.voters + [voter]))
  }

  /** Cast vote: membership is checked first, then the index against the candidate count; the
      counter at the index is then incremented, which panics when the record holds fewer counters
      than candidates. */
  function Vote(e: Election, voter: Pubkey, index: u8): (r: Result<Election, Fault>)
    ensures voter !in e.voters ==> r == Err(Error(ToProgramError(VoterNotRegistered)))
    ensures voter in e.voters && index as int >= |e.candidates| ==> r == Err(Error(ToProgramError(InvalidCandidateIndex)))
    ensures voter in e.voters && |e.votes| <= index as int < |e.candidates| ==> r == Err(Panic)
    ensures r.Ok? <==> voter in e.voters && index as int < |e.candidates| && index as int < |e.votes|
    ensures r.Ok? ==>
      && |r.value.votes| == |e.votes|
      && r.value.votes[index] == Increment(e.votes[index])
      && (forall j :: 0 <= j < |e.votes| && j != index as int ==> r.value.votes[j] == e.votes[j])
      && r.value.(votes := e.votes) == e
  {
    if voter !in e.voters then Err(Error(ToProgramError(VoterNotRegistered)))
    else if index as int >= |e.candidates| then Err(Error(ToProgramError(InvalidCandidateIndex)))
    else if index as int >= |e.votes| then Err(Panic)
    else Ok(e.(votes := e.votes[index := Increment(e.votes[index])]))
  }

  /** The rule an instruction selects, applied to the decoded record. */
  function Apply(e: Election, i: Instruction): (r: Result<Election, Fault>)
    ensures Valid(e) ==> r != Err(Panic)
    ensures r.Ok? && (Valid(e) || i.CreateElection?) ==> Valid(r.value)
    ensures i.CreateElection? ==> r.Ok? && |r.value.votes| == |r.value.candidates| && r.value.voters == []
    ensures r.Ok? && !i.CreateElection? ==>
      r.value.name == e.name && r.value.candidates == e.candidates && |r.value.votes| == |e.votes|
    ensures r.Ok? && WellFormed(i) && Decodable(e) && Encodable(r.value) ==> Decodable(r.value)
  {
    match i
    case CreateElection(name, candidates) => Ok(Create(name, candidates))
    case RegisterVoter(voter) =>
      (match Register(e, voter)
       case Ok(e') => Ok(e')
       case Err(k) => Err(Error(ToProgramError(k))))
    case CastVote(voter, index) => Vote(e, voter, index)
  }

  // ---------------------------------------------------------------- reading and writing the account

  /** How the record is read from the account data. The program calls `try_from_slice`, which
      requires the record to fill the buffer exactly; `Prefix` reads one record from the front
      and ignores the bytes after it. */
  datatype Reader = WholeBuffer | Prefix

  function Load(reader: Reader, data: seq<u8>): (r: Result<Election, IoCause>)
    ensures r.Ok? ==> Decodable(r.value)
    ensures r.Ok? <==> Deserialize(data).Ok? && (reader == WholeBuffer ==> |Deserialize(data).value.1| == 0)
    ensures r.Ok? ==> r.value == Deserialize(data).value.0
  {
    match reader
    case WholeBuffer => TryFromSlice(data)
    case Prefix =>
      (match Deserialize(data)
       case Ok((e, _)) => Ok(e)
       case Err(c) => Err(c))
  }

  /** `serialize` into the account's fixed-size data: the encoding overwrites the front of the
      buffer and the bytes after it keep their old values. A record too large for the buffer
      fails with WriteZero; the runtime discards a failed instruction's writes, so the write is
      all or nothing. */
  function Store(data: seq<u8>, e: Election): (r: Result<seq<u8>, IoCause>)
    ensures r.Ok? <==> Encodable(e) && |Serialize(e)| <= |data|
    ensures r.Err? ==> r.error == (if Encodable(e) then WriteZero else LengthOverflow)
    ensures r.Ok? ==>
      && |r.value| == |data|
      && r.value[..|Serialize(e)|] == Serialize(e)
      && r.value[|Serialize(e)|..] == data[|Serialize(e)|..]
  {
    if !Encodable(e) then Err(LengthOverflow)
    else
      var enc := Serialize(e);
      if |data| < |enc| then Err(WriteZero)
      else Ok(enc + data[|enc|..])
  }

  // ---------------------------------------------------------------- the entry point

  /** One instruction against the accounts' data: the new data of the first account, or how the
      instruction ended instead. Only the first account is used. */
  function Run(reader: Reader, accounts: seq<seq<u8>>, input: seq<u8>): (r: Result<seq<u8>, Fault>)
    ensures Unpack(input).Err? ==> r == Err(Error(Unpack(input).error))
    ensures Unpack(input).Ok? && |accounts| == 0 ==> r == Err(Error(NotEnoughAccountKeys))
    ensures Unpack(input).Ok? && |accounts| > 0 && Load(reader, accounts[0]).Err? ==>
      r == Err(Error(BorshIoError(Load(reader, accounts[0]).error)))
    ensures Unpack(input).Ok? && |accounts| > 0 && Load(reader, accounts[0]).Ok? ==>
      var applied := Apply(Load(reader, accounts[0]).value, Unpack(input).value);
      && (applied.Err? ==> r == Err(applied.error))
      && (applied.Ok? && Store(accounts[0], applied.value).Err? ==>
            r == Err(Error(BorshIoError(Store(accounts[0], applied.value).error))))
    ensures r.Ok? ==>
      && |accounts| > 0
      && |r.value| == |accounts[0]|
      && Load(reader, accounts[0]).Ok?
      && Apply(Load(reader, accounts[0]).value, Unpack(input).value).Ok?
      && Store(accounts[0], Apply(Load(reader, accounts[0]).value, Unpack(input).value).value) == Ok(r.value)
  {
    match Unpack(input)
    case Err(err) => Err(Error(err))
    case Ok(i) =>
      if |accounts| == 0 then Err(Error(NotEnoughAccountKeys))
      else
        match Load(reader, accounts[0])
        case Err(c) => Err(Error(BorshIoError(c)))
        case Ok(e) =>
          match Apply(e, i)
          case Err(f) => Err(f)
          case Ok(e') =>
            match Store(accounts[0], e')
            case Err(c) => Err(Error(BorshIoError(c)))
            case Ok(data) => Ok(data)
  }

  /** The program as written: the record is read with `try_from_slice`. */
  function Process(accounts: seq<seq<u8>>, input: seq<u8>): (r: Result<seq<u8>, Fault>)
    ensures Unpack(input).Err? ==> r == Err(Error(Unpack(input).error))
    ensures Unpack(input).Ok? && |accounts| == 0 ==> r == Err(Error(NotEnoughAccountKeys))
    ensures Unpack(input).Ok? && |accounts| > 0 && TryFromSlice(accounts[0]).Err? ==>
      r == Err(Error(BorshIoError(TryFromSlice(accounts[0]).error)))
  {
    Run(WholeBuffer, accounts, input)
  }

  /** The program with the record read from the front of the buffer, so that a record shorter
      than its account can be read back. */
  function ProcessCorrected(accounts: seq<seq<u8>>, input: seq<u8>): (r: Result<seq<u8>, Fault>)
    ensures Unpack(input).Err? ==> r == Err(Error(Unpack(input).error))
    ensures Unpack(input).Ok? && |accounts| == 0 ==> r == Err(Error(NotEnoughAccountKeys))
    ensures Unpack(input).Ok? && |accounts| > 0 && Deserialize(accounts[0]).Err? ==>
      r == Err(Error(BorshIoError(Deserialize(accounts[0]).error)))
  {
    Run(Prefix, accounts, input)
  }

  // ---------------------------------------------------------------- the rules, one call at a time

  /** A vote from a record that satisfies the invariant never panics, and the invariant holds
      after every successful instruction: create establishes it, register and vote preserve it. */
  lemma {:induction false} ApplyPreservesValid(e: Election, i: Instruction)
    requires Valid(e)
    ensures Apply(e, i) != Err(Panic)
    ensures Apply(e, i).Ok? ==> Valid(Apply(e, i).value)
    ensures i.CastVote? && i.voterPubkey in e.voters && i.candidateIndex as int < |e.candidates| ==> Apply(e, i).Ok?
  {
  }

  /** Registering a voter twice: the second registration is refused. */
  lemma {:induction false} RegisterTwice(e: Election, voter: Pubkey)
    requires Register(e, voter).Ok?
    ensures Register(Register(e, voter).value, voter) == Err(VoterAlreadyRegistered)
  {
    assert Register(e, voter).value.voters[|e.voters|] == voter;
  }

  /** Create gives the same record whatever the record it replaces. */
  lemma {:induction false} CreateForgetsPrior(a: Election, b: Election, name: seq<u8>, candidates: seq<seq<u8>>)
    ensures Apply(a, CreateElection(name, candidates)) == Apply(b, CreateElection(name, candidates))
    ensures Apply(a, CreateElection(name, candidates)).Ok?
  {
  }

  // ---------------------------------------------------------------- a sequence of ballots

  /** Ballots (voter, candidate index) cast one after another against a record. A refused ballot
      leaves the record as it was, since a failed instruction's writes are discarded. */
  function CastAll(e: Election, ballots: seq<(Pubkey, u8)>): (r: Election)
    decreases |ballots|
  {
    if |ballots| == 0 then e
    else
      var next := match Vote(e, ballots[0].0, ballots[0].1) case Ok(e') => e' case Err(_) => e;
      CastAll(next, ballots[1..])
  }

  /** How many ballots are for candidate `c` and come from a registered voter. */
  function Accepted(voters: seq<Pubkey>, ballots: seq<(Pubkey, u8)>, c: nat): (n: nat)
    ensures n <= |ballots|
    decreases |ballots|
  {
    if |ballots| == 0 then 0
    else (if ballots[0].0 in voters && ballots[0].1 as int == c then 1 else 0) + Accepted(voters, ballots[1..], c)
  }

  lemma {:induction false} AddMod(a: nat, b: nat)
    ensures ((a % U64_MODULUS) + b) % U64_MODULUS == (a + b) % U64_MODULUS
  {
    var q := a / U64_MODULUS;
    assert a == q * U64_MODULUS + a % U64_MODULUS;
  }

  /** After any sequence of ballots against a valid record, each counter has gone up (modulo 2^64)
      by exactly the number of ballots for its candidate from registered voters; the name, the
      candidates and the voters are unchanged, and the record is still valid. */
  lemma {:induction false} CastAllTally(e: Election, ballots: seq<(Pubkey, u8)>)
    requires Valid(e)
    ensures var r := CastAll(e, ballots);
      && Valid(r)
      && r.name == e.name && r.candidates == e.candidates && r.voters == e.voters
      && forall c :: 0 <= c < |e.votes| ==> r.votes[c] == (e.votes[c] + Accepted(e.voters, ballots, c)) % U64_MODULUS
    decreases |ballots|
  {
    if |ballots| > 0 {
      var (voter, index) := ballots[0];
      var next := match Vote(e, voter, index) case Ok(e') => e' case Err(_) => e;
      assert CastAll(e, ballots) == CastAll(next, ballots[1..]);
      CastAllTally(next, ballots[1..]);
      var r := CastAll(e, ballots);
      forall c | 0 <= c < |e.votes|
        ensures r.votes[c] == (e.votes[c] + Accepted(e.voters, ballots, c)) % U64_MODULUS
      {
        var rest := Accepted(e.voters, ballots[1..], c);
        if voter in e.voters && index as int == c {
          AddMod(e.votes[c] as int + 1, rest);
        } else {
          assert next.votes[c] == e.votes[c];
          assert e.votes[c] % U64_MODULUS == e.votes[c];
        }
      }
    }
  }

  // ---------------------------------------------------------------- the account across instructions

  /** A record written into an account reads back from its front; it reads back as the whole
      buffer only when it fills the buffer exactly. */
  lemma {:induction false} WrittenRecord(data: seq<u8>, e: Election)
    requires Decodable(e) && Store(data, e).Ok?
    ensures Load(Prefix, Store(data, e).value) == Ok(e)
    ensures Load(WholeBuffer, Store(data, e).value).Ok? <==> |Serialize(e)| == |data|
    ensures Load(WholeBuffer, Store(data, e).value).Ok? ==> Load(WholeBuffer, Store(data, e).value) == Ok(e)
  {
    var out := Store(data, e).value;
    var n := |Serialize(e)|;
    assert out == Serialize(e) + out[n..];
    DeserializeRoundTrip(e, out[n..]);
  }

  /** The corrected program reads back exactly the record it wrote. */
  lemma {:induction false} ReadAfterWrite(accounts: seq<seq<u8>>, input: seq<u8>)
    requires ProcessCorrected(accounts, input).Ok?
    ensures var e := Load(Prefix, accounts[0]).value;
      Load(Prefix, ProcessCorrected(accounts, input).value) == Ok(Apply(e, Unpack(input).value).value)
  {
    var e := Load(Prefix, accounts[0]).value;
    var i := Unpack(input).value;
    WrittenRecord(accounts[0], Apply(e, i).value);
  }

  /** One successful instruction of the corrected program, stated from the record it reads. */
  lemma {:induction false} CorrectedStep(data: seq<u8>, e: Election, i: Instruction, e': Election)
    requires WellFormed(i)
    requires Load(Prefix, data) == Ok(e) && Apply(e, i) == Ok(e')
    requires Encodable(e') && |Serialize(e')| <= |data|
    ensures ProcessCorrected([data], Pack(i)).Ok?
    ensures |Transact(data, Pack(i))| == |data|
    ensures Load(Prefix, Transact(data, Pack(i))) == Ok(e')
  {
    UnpackPack(i, []);
    assert Pack(i) + [] == Pack(i);
    ReadAfterWrite([data], Pack(i));
  }

  /** In the corrected program a new voter is registered whenever the longer record still fits
      the account, and a second registration of the same voter is refused. */
  lemma {:induction false} CorrectedRegister(data: seq<u8>, voter: Pubkey)
    requires Load(Prefix, data).Ok?
    requires voter !in Load(Prefix, data).value.voters
    requires Fits(|Load(Prefix, data).value.voters| + 1)
    requires |Serialize(Load(Prefix, data).value)| + KEY_LEN <= |data|
    ensures var out := ProcessCorrected([data], Pack(RegisterVoter(voter)));
      && out.Ok?
      && Load(Prefix, out.value).Ok?
      && Load(Prefix, out.value).value.voters == Load(Prefix, data).value.voters + [voter]
      && ProcessCorrected([out.value], Pack(RegisterVoter(voter))) == Err(Error(ToProgramError(VoterAlreadyRegistered)))
  {
    var e := Load(Prefix, data).value;
    var e' := e.(voters := e.voters + [voter]);
    CorrectedStep(data, e, RegisterVoter(voter), e');
    var out := ProcessCorrected([data], Pack(RegisterVoter(voter))).value;
    UnpackPack(RegisterVoter(voter), []);
    assert Pack(RegisterVoter(voter)) + [] == Pack(RegisterVoter(voter));
    RegisterTwice(e, voter);
  }

  // ---------------------------------------------------------------- the program as written

  /** As written, registering a voter never succeeds: a record that `try_from_slice` accepts
      fills its buffer exactly, and one more voter makes the encoding 32 bytes longer than the
      buffer, so the write fails. */
  lemma {:induction false} RegisterNeverSucceeds(accounts: seq<seq<u8>>, voter: Pubkey)
    requires |accounts| > 0 && TryFromSlice(accounts[0]).Ok?
    ensures var e := TryFromSlice(accounts[0]).value;
      Process(accounts, Pack(RegisterVoter(voter))) == Err(Error(
        if voter in e.voters then ToProgramError(VoterAlreadyRegistered)
        else if Fits(|e.voters| + 1) then BorshIoError(WriteZero)
        else BorshIoError(LengthOverflow)))
  {
    var data := accounts[0];
    var e := TryFromSlice(data).value;
    TryFromSliceExact(data, e, []);
    UnpackPack(RegisterVoter(voter), []);
    assert Pack(RegisterVoter(voter)) + [] == Pack(RegisterVoter(voter));
  }

  /** As written, an instruction whose new record is shorter than the account leaves bytes of the
      old record after it, and every later instruction fails to read the account. */
  lemma {:induction false} ShorterWriteUnreadable(accounts: seq<seq<u8>>, input: seq<u8>, next: seq<u8>)
    requires Process(accounts, input).Ok?
    requires var e' := Apply(TryFromSlice(accounts[0]).value, Unpack(input).value).value;
      |Serialize(e')| < |accounts[0]|
    ensures Unpack(next).Ok? ==>
      Process([Process(accounts, input).value], next) == Err(Error(BorshIoError(NotAllBytesRead)))
  {
    var data := accounts[0];
    var e := TryFromSlice(data).value;
    var i := Unpack(input).value;
    var e' := Apply(e, i).value;
    var out := Process(accounts, input).value;
    var n := |Serialize(e')|;
    assert out == Serialize(e') + out[n..];
    UnpackSound(input);
    TryFromSliceExact(out, e', out[n..]);
  }

  /** What the program as written can store: a buffer that does not read as a record, or a record
      with no voters. Every successful instruction keeps this so, and a vote from a buffer like
      this is always refused. Starting from zero-filled accounts, no vote is ever counted. */
  predicate NoVoterStored(data: seq<u8>) {
    TryFromSlice(data).Ok? ==> TryFromSlice(data).value.voters == []
  }

  lemma {:induction false} NoVoterEver(accounts: seq<seq<u8>>, input: seq<u8>, voter: Pubkey, index: u8)
    requires |accounts| > 0 && NoVoterStored(accounts[0])
    ensures Process(accounts, input).Ok? ==> NoVoterStored(Process(accounts, input).value)
    ensures Process(accounts, Pack(CastVote(voter, index))).Err?
  {
    if Process(accounts, input).Ok? {
      OnlyCreateSucceeds(accounts, input);
    }
    VoteRefused(accounts, voter, index);
  }

  /** From such a buffer only a create instruction succeeds, and what it writes holds no voters. */
  lemma {:induction false} OnlyCreateSucceeds(accounts: seq<seq<u8>>, input: seq<u8>)
    requires |accounts| > 0 && NoVoterStored(accounts[0])
    requires Process(accounts, input).Ok?
    ensures Unpack(input).value.CreateElection?
    ensures NoVoterStored(Process(accounts, input).value)
  {
    var e := TryFromSlice(accounts[0]).value;
    var i := Unpack(input).value;
    if i.RegisterVoter? {
      UnpackSound(input);
      RegisterNeverSucceeds(accounts, i.voterPubkey);
      assert false;
    }
    var e' := Apply(e, i).value;
    assert e'.voters == [];
    WrittenRecord(accounts[0], e');
  }

  lemma {:induction false} VoteRefused(accounts: seq<seq<u8>>, voter: Pubkey, index: u8)
    requires |accounts| > 0 && NoVoterStored(accounts[0])
    ensures Process(accounts, Pack(CastVote(voter, index))).Err?
  {
    UnpackPack(CastVote(voter, index), []);
    assert Pack(CastVote(voter, index)) + [] == Pack(CastVote(voter, index));
  }

  lemma {:induction false} ZeroAccount(n: nat)
    requires n >= 16
    ensures NoVoterStored(seq(n, _ => 0))
  {
    ZeroBuffer(n);
  }

  // ---------------------------------------------------------------- an election, end to end

  /** A failed instruction leaves the account as it was. */
  function Transact(data: seq<u8>, input: seq<u8>): (r: seq<u8>)
    ensures ProcessCorrected([data], input).Err? ==> r == data
  {
    match ProcessCorrected([data], input)
    case Ok(out) => out
    case Err(_) => data
  }

  /** A zero-filled account large enough for the final record: create an election with two
      candidates, register one voter, who votes for the first candidate twice; then a second
      voter, who is not registered, is refused. (The program as written refuses the very first
      instruction: see CreateInZeroAccount.) */
  lemma {:induction false} TwoCandidateElection(a0: seq<u8>, name: seq<u8>, alice: seq<u8>, bob: seq<u8>, v1: Pubkey, v2: Pubkey)
    requires 72 + |name| + |alice| + |bob| <= |a0| && forall k :: 0 <= k < |a0| ==> a0[k] == 0
    requires IsShortString(name) && IsShortString(alice) && IsShortString(bob)
    requires v1 != v2
    ensures var create := CreateElection(name, [alice, bob]);
      var a1 := Transact(a0, Pack(create));
      var a2 := Transact(a1, Pack(RegisterVoter(v1)));
      var a3 := Transact(a2, Pack(CastVote(v1, 0)));
      var a4 := Transact(a3, Pack(CastVote(v1, 0)));
      && Load(Prefix, a1) == Ok(Election(name, [alice, bob], [0, 0], []))
      && Load(Prefix, a2) == Ok(Election(name, [alice, bob], [0, 0], [v1]))
      && Load(Prefix, a3) == Ok(Election(name, [alice, bob], [1, 0], [v1]))
      && Load(Prefix, a4) == Ok(Election(name, [alice, bob], [2, 0], [v1]))
      && ProcessCorrected([a4], Pack(CastVote(v2, 0))) == Err(Error(ToProgramError(VoterNotRegistered)))
  {
    var create := CreateElection(name, [alice, bob]);
    var a2 := Transact(Transact(a0, Pack(create)), Pack(RegisterVoter(v1)));
    ScenarioOpening(a0, name, alice, bob, v1);
    ScenarioBallots(a2, name, alice, bob, v1, v2);
  }

  /** The first half of TwoCandidateElection: the election is created and the voter registered. */
  lemma {:induction false} ScenarioOpening(a0: seq<u8>, name: seq<u8>, alice: seq<u8>, bob: seq<u8>, v1: Pubkey)
    requires 72 + |name| + |alice| + |bob| <= |a0| && forall k :: 0 <= k < |a0| ==> a0[k] == 0
    requires IsShortString(name) && IsShortString(alice) && IsShortString(bob)
    ensures var create := CreateElection(name, [alice, bob]);
      var a1 := Transact(a0, Pack(create));
      var a2 := Transact(a1, Pack(RegisterVoter(v1)));
      && Load(Prefix, a1) == Ok(Election(name, [alice, bob], [0, 0], []))
      && Load(Prefix, a2) == Ok(Election(name, [alice, bob], [0, 0], [v1]))
      && |a2| == |a0|
  {
    var create := CreateElection(name, [alice, bob]);
    var e1 := Election(name, [alice, bob], [0, 0], []);
    var e2 := e1.(voters := [v1]);
    ScenarioRecords(name, alice, bob, v1);
    var a1 := Transact(a0, Pack(create));
    assert |a1| == |a0| && Load(Prefix, a1) == Ok(e1) by {
      assert a0 == seq(|a0|, _ => 0);
      ZeroBuffer(|a0|);
      CorrectedStep(a0, Empty, create, e1);
    }
    CorrectedStep(a1, e1, RegisterVoter(v1), e2);
  }

  /** The second half of TwoCandidateElection: two ballots for the first candidate are counted,
      and a voter who is not registered is refused. */
  lemma {:induction false} ScenarioBallots(a2: seq<u8>, name: seq<u8>, alice: seq<u8>, bob: seq<u8>, v1: Pubkey, v2: Pubkey)
    requires 72 + |name| + |alice| + |bob| <= |a2|
    requires IsShortString(name) && IsShortString(alice) && IsShortString(bob)
    requires Load(Prefix, a2) == Ok(Election(name, [alice, bob], [0, 0], [v1]))
    requires v1 != v2
    ensures var a3 := Transact(a2, Pack(CastVote(v1, 0)));
      var a4 := Transact(a3, Pack(CastVote(v1, 0)));
      && Load(Prefix, a3) == Ok(Election(name, [alice, bob], [1, 0], [v1]))
      && Load(Prefix, a4) == Ok(Election(name, [alice, bob], [2, 0], [v1]))
      && ProcessCorrected([a4], Pack(CastVote(v2, 0))) == Err(Error(ToProgramError(VoterNotRegistered)))
  {
    var e2 := Election(name, [alice, bob], [0, 0], [v1]);
    var e3 := e2.(votes := [1, 0]);
    var e4 := e2.(votes := [2, 0]);
    ScenarioRecords(name, alice, bob, v1);
    var a3 := Transact(a2, Pack(CastVote(v1, 0)));
    assert |a3| == |a2| && Load(Prefix, a3) == Ok(e3) by {
      CorrectedStep(a2, e2, CastVote(v1, 0), e3);
    }
    var a4 := Transact(a3, Pack(CastVote(v1, 0)));
    CorrectedStep(a3, e3, CastVote(v1, 0), e4);
    Unregistered(a4, e4, v2, 0);
  }

  /** The program as written refuses to create an election in a zero-filled account longer than
      16 bytes: the account reads as the empty record followed by zeros. */
  lemma {:induction false} CreateInZeroAccount(a0: seq<u8>, i: Instruction)
    requires |a0| > 16 && forall k :: 0 <= k < |a0| ==> a0[k] == 0
    requires i.CreateElection? && WellFormed(i)
    ensures Process([a0], Pack(i)) == Err(Error(BorshIoError(NotAllBytesRead)))
    ensures ProcessCorrected([a0], Pack(i)).Ok? <==> |Serialize(Create(i.name, i.candidates))| <= |a0|
  {
    assert a0 == seq(|a0|, _ => 0);
    ZeroBuffer(|a0|);
    UnpackPack(i, []);
    assert Pack(i) + [] == Pack(i);
  }

  /** The scenario's records: what each rule makes of the previous one, and how large each is. */
  lemma {:induction false} ScenarioRecords(name: seq<u8>, alice: seq<u8>, bob: seq<u8>, v1: Pubkey)
    requires IsShortString(name) && IsShortString(alice) && IsShortString(bob)
    ensures WellFormed(CreateElection(name, [alice, bob]))
    ensures var e1 := Election(name, [alice, bob], [0, 0], []);
      var e2 := e1.(voters := [v1]);
      var e3 := e2.(votes := [1, 0]);
      var e4 := e2.(votes := [2, 0]);
      && Apply(Empty, CreateElection(name, [alice, bob])) == Ok(e1)
      && Apply(e1, RegisterVoter(v1)) == Ok(e2)
      && Apply(e2, CastVote(v1, 0)) == Ok(e3)
      && Apply(e3, CastVote(v1, 0)) == Ok(e4)
      && Encodable(e1) && |Serialize(e1)| <= 72 + |name| + |alice| + |bob|
      && Encodable(e2) && |Serialize(e2)| <= 72 + |name| + |alice| + |bob|
      && Encodable(e3) && |Serialize(e3)| <= 72 + |name| + |alice| + |bob|
      && Encodable(e4) && |Serialize(e4)| <= 72 + |name| + |alice| + |bob|
  {
    var e1 := Election(name, [alice, bob], [0, 0], []);
    var e2 := e1.(voters := [v1]);
    var e3 := e2.(votes := [1, 0]);
    assert Create(name, [alice, bob]).votes == [0, 0];
    assert e1.voters + [v1] == [v1];
    assert Increment(0) == 1 && Increment(1) == 2;
    assert e2.votes[0 := 1] == [1, 0] && e3.votes[0 := 2] == [2, 0];
    assert StringsBytes([alice, bob]) == StringBytes(alice) + StringsBytes([bob]);
    assert StringsBytes([bob]) == StringBytes(bob) + StringsBytes([]);
  }

  /** A ballot from a voter not on the record's list is refused. */
  lemma {:induction false} Unregistered(data: seq<u8>, e: Election, voter: Pubkey, index: u8)
    requires Load(Prefix, data) == Ok(e) && voter !in e.voters
    ensures ProcessCorrected([data], Pack(CastVote(voter, index))) == Err(Error(ToProgramError(VoterNotRegistered)))
  {
    UnpackPack(CastVote(voter, index), []);
    assert Pack(CastVote(voter, index)) + [] == Pack(CastVote(voter, index));
  }
}
