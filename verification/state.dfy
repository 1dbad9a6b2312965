/** The persisted election record and its Borsh encoding. */
module State {
  import opened Bytes
  import opened Results
  import opened Errors
  import opened Borsh

  /** The election record: `votes[i]` counts ballots for `candidates[i]`. */
  datatype Election = Election(
    name: seq<u8>,
    candidates: seq<seq<u8>>,
    votes: seq<u64>,
    voters: seq<Pubkey>)

  /** The record with every field empty. */
  const Empty: Election := Election([], [], [], [])

  /** Borsh can write the record: every length fits its u32 prefix. */
  predicate Encodable(e: Election) {
    && Fits(|e.name|)
    && Fits(|e.candidates|)
    && (forall i :: 0 <= i < |e.candidates| ==> Fits(|e.candidates[i]|))
    && Fits(|e.votes|)
    && Fits(|e.voters|)
  }

  /** Borsh can read the record back: encodable, and every string is UTF-8. */
  predicate Decodable(e: Election) {
    && IsString(e.name)
    && Fits(|e.candidates|)
    && AllStrings(e.candidates)
    && Fits(|e.votes|)
    && Fits(|e.voters|)
  }

  /** The derived Borsh serialization: the four fields in declaration order. */
  function Serialize(e: Election): (r: seq<u8>)
    requires Encodable(e)
    ensures |r| == 16 + |e.name| + |StringsBytes(e.candidates)| + 8 * |e.votes| + KEY_LEN * |e.voters|
  {
    StringBytes(e.name)
    + U32Bytes(|e.candidates|) + StringsBytes(e.candidates)
    + U32Bytes(|e.votes|) + U64sBytes(e.votes)
    + U32Bytes(|e.voters|) + KeysBytes(e.voters)
  }

  /** The derived Borsh deserialization, reading a record from the front of `s`
      and returning the bytes after it. */
  function Deserialize(s: seq<u8>): (r: Read<Election>)
    ensures r.Ok? ==> Decodable(r.value.0) && |r.value.1| <= |s| - 16
  {
    var (name, s1) :- ReadString(s);
    var (n, s2) :- ReadU32(s1);
    var (candidates, s3) :- ReadStrings(n, s2);
    var (m, s4) :- ReadU32(s3);
    var (votes, s5) :- ReadU64s(m, s4);
    var (k, s6) :- ReadU32(s5);
    var (voters, s7) :- ReadKeys(k, s6);
    StringsCanonical(n, s2);
    U64sCanonical(m, s4);
    KeysCanonical(k, s6);
    Ok((Election(name, candidates, votes, voters), s7))
  }

  /** `try_from_slice`: the whole buffer must be exactly one record. */
  function TryFromSlice(s: seq<u8>): (r: Result<Election, IoCause>)
    ensures r.Ok? ==> Decodable(r.value) && s == Serialize(r.value)
    ensures Deserialize(s).Err? ==> r == Err(Deserialize(s).error)
    ensures Deserialize(s).Ok? && |Deserialize(s).value.1| > 0 ==> r == Err(NotAllBytesRead)
  {
    if Deserialize(s).Ok? && |Deserialize(s).value.1| == 0 then
      DeserializeCanonical(s);
      assert s == Serialize(Deserialize(s).value.0) + [];
      Whole(Deserialize(s))
    else Whole(Deserialize(s))
  }

  /** Decoding an encoded record gives it back and leaves what followed it. */
  lemma {:induction false} DeserializeRoundTrip(e: Election, t: seq<u8>)
    requires Decodable(e)
    ensures Deserialize(Serialize(e) + t) == Ok((e, t))
  {
    var t7 := t;
    var t6 := KeysBytes(e.voters) + t7;
    var t5 := U32Bytes(|e.voters|) + t6;
    var t4 := U64sBytes(e.votes) + t5;
    var t3 := U32Bytes(|e.votes|) + t4;
    var t2 := StringsBytes(e.candidates) + t3;
    var t1 := U32Bytes(|e.candidates|) + t2;
    ConcatFields(e, StringBytes(e.name) + t1, t1, t2, t3, t4, t5, t6, t7);
    StringRoundTrip(e.name, t1);
    U32RoundTrip(|e.candidates|, t2);
    StringsRoundTrip(e.candidates, t3);
    U32RoundTrip(|e.votes|, t4);
    U64sRoundTrip(e.votes, t5);
    U32RoundTrip(|e.voters|, t6);
    KeysRoundTrip(e.voters, t7);
    DeserializeSteps(Serialize(e) + t, e, t1, t2, t3, t4, t5, t6, t7);
  }

  /** A decoding whose every field read succeeds returns the record the fields make up. */
  lemma {:induction false} DeserializeSteps(s: seq<u8>, e: Election, s1: seq<u8>, s2: seq<u8>, s3: seq<u8>,
                         s4: seq<u8>, s5: seq<u8>, s6: seq<u8>, s7: seq<u8>)
    requires ReadString(s) == Ok((e.name, s1))
    requires ReadU32(s1) == Ok((|e.candidates|, s2))
    requires ReadStrings(|e.candidates|, s2) == Ok((e.candidates, s3))
    requires ReadU32(s3) == Ok((|e.votes|, s4))
    requires ReadU64s(|e.votes|, s4) == Ok((e.votes, s5))
    requires ReadU32(s5) == Ok((|e.voters|, s6))
    requires ReadKeys(|e.voters|, s6) == Ok((e.voters, s7))
    ensures Deserialize(s) == Ok((e, s7))
  {
  }

  /** Every successful decoding read exactly the encoding of the record it returned. */
  lemma {:induction false} DeserializeCanonical(s: seq<u8>)
    requires Deserialize(s).Ok?
    ensures s == Serialize(Deserialize(s).value.0) + Deserialize(s).value.1
  {
    var (name, s1) := ReadString(s).value;
    var (n, s2) := ReadU32(s1).value;
    var (candidates, s3) := ReadStrings(n, s2).value;
    var (m, s4) := ReadU32(s3).value;
    var (votes, s5) := ReadU64s(m, s4).value;
    var (k, s6) := ReadU32(s5).value;
    var (voters, s7) := ReadKeys(k, s6).value;
    assert Deserialize(s) == Ok((Election(name, candidates, votes, voters), s7));
    StringCanonical(s);
    U32Canonical(s1);
    StringsCanonical(n, s2);
    U32Canonical(s3);
    U64sCanonical(m, s4);
    U32Canonical(s5);
    KeysCanonical(k, s6);
    ConcatFields(Election(name, candidates, votes, voters), s, s1, s2, s3, s4, s5, s6, s7);
  }

  /** Chaining the field-by-field equations of a decoding into one equation about the record. */
  lemma {:induction false} ConcatFields(e: Election, s: seq<u8>, s1: seq<u8>, s2: seq<u8>, s3: seq<u8>,
                     s4: seq<u8>, s5: seq<u8>, s6: seq<u8>, s7: seq<u8>)
    requires Encodable(e)
    requires s == StringBytes(e.name) + s1
    requires s1 == U32Bytes(|e.candidates|) + s2
    requires s2 == StringsBytes(e.candidates) + s3
    requires s3 == U32Bytes(|e.votes|) + s4
    requires s4 == U64sBytes(e.votes) + s5
    requires s5 == U32Bytes(|e.voters|) + s6
    requires s6 == KeysBytes(e.voters) + s7
    ensures s == Serialize(e) + s7
  {
  }

  /** Decoding reads a prefix: bytes appended after a decodable buffer are left over untouched. */
  lemma {:induction false} DeserializeExtend(s: seq<u8>, u: seq<u8>)
    requires Deserialize(s).Ok?
    ensures Deserialize(s + u) == Ok((Deserialize(s).value.0, Deserialize(s).value.1 + u))
  {
    var r := Deserialize(s).value;
    DeserializeCanonical(s);
    DeserializeAppend(r.0, r.1, u);
  }

  lemma {:induction false} DeserializeAppend(e: Election, t: seq<u8>, u: seq<u8>)
    requires Decodable(e)
    ensures Deserialize(Serialize(e) + t + u) == Ok((e, t + u))
  {
    assert Serialize(e) + t + u == Serialize(e) + (t + u);
    DeserializeRoundTrip(e, t + u);
  }

  /** A record's encoding cut short anywhere does not decode: some declared length or field runs
      past the end of the bytes. */
  lemma {:induction false} DeserializeTruncated(e: Election, n: nat)
    requires Decodable(e) && n < |Serialize(e)|
    ensures Deserialize(Serialize(e)[..n]).Err?
    ensures TryFromSlice(Serialize(e)[..n]).Err?
  {
    var s := Serialize(e);
    assert Deserialize(s) == Ok((e, [])) by {
      DeserializeRoundTrip(e, []);
      assert s + [] == s;
    }
    if Deserialize(s[..n]).Ok? {
      DecodablePrefix(s, n);
      assert false;
    }
  }

  /** When a prefix of `s` decodes, `s` decodes to the same record with at least the rest of `s`
      left over. */
  lemma {:induction false} DecodablePrefix(s: seq<u8>, n: nat)
    requires n <= |s| && Deserialize(s[..n]).Ok?
    ensures Deserialize(s).Ok? && |Deserialize(s).value.1| >= |s| - n
  {
    var p, q := s[..n], s[n..];
    assert p + q == s;
    DeserializeExtend(p, q);
  }

  /** Whole-buffer decoding inverts encoding. */
  lemma {:induction false} TryFromSliceRoundTrip(e: Election)
    requires Decodable(e)
    ensures TryFromSlice(Serialize(e)) == Ok(e)
  {
    DeserializeRoundTrip(e, []);
    assert Serialize(e) + [] == Serialize(e);
  }

  /** Whole-buffer decoding succeeds only on a buffer that is exactly one encoded record,
      and rejects any bytes after it. */
  lemma {:induction false} TryFromSliceExact(s: seq<u8>, e: Election, t: seq<u8>)
    ensures TryFromSlice(s).Ok? ==> s == Serialize(TryFromSlice(s).value)
    ensures Decodable(e) && |t| > 0 ==> TryFromSlice(Serialize(e) + t) == Err(NotAllBytesRead)
  {
    if TryFromSlice(s).Ok? {
      DeserializeCanonical(s);
      assert s == Serialize(TryFromSlice(s).value) + [];
    }
    if Decodable(e) {
      DeserializeRoundTrip(e, t);
    }
  }

  /** A zero-filled buffer of at least 16 bytes holds the empty record followed by zeros; it is
      one whole record only when it is exactly 16 bytes long. */
  lemma {:induction false} ZeroBuffer(n: nat)
    requires n >= 16
    ensures Deserialize(seq(n, _ => 0)) == Ok((Empty, seq(n - 16, _ => 0)))
    ensures TryFromSlice(seq(n, _ => 0)).Ok? <==> n == 16
  {
    Pow256Values();
    assert U32Bytes(0) == [0, 0, 0, 0];
    assert Serialize(Empty) == seq(16, _ => 0);
    assert seq(n, _ => 0) == Serialize(Empty) + seq(n - 16, _ => 0);
    DeserializeRoundTrip(Empty, seq(n - 16, _ => 0));
  }
}
