/** Where each field of the election record sits in its Borsh encoding, stated byte position by
    byte position, independently of how the encoder is written. */
module Layout {
  import opened Bytes
  import opened Borsh
  import opened State
  import opened Slices

  /** Offset of the counters' u32 count: after the name and the candidates. */
  function TallyOffset(e: Election): nat
    requires Encodable(e)
  {
    4 + |e.name| + 4 + |StringsBytes(e.candidates)|
  }

  /** Offset of the voters' u32 count: after the counters. */
  function VotersOffset(e: Election): nat
    requires Encodable(e)
  {
    TallyOffset(e) + 4 + 8 * |e.votes|
  }

  function HeadBytes(e: Election): seq<u8>
    requires Encodable(e)
  {
    StringBytes(e.name) + U32Bytes(|e.candidates|) + StringsBytes(e.candidates)
  }

  /** The encoding is the name and candidates, then the counters, then the voters. */
  lemma {:induction false} Groups(e: Election)
    requires Encodable(e)
    ensures |HeadBytes(e)| == TallyOffset(e)
    ensures Serialize(e) == HeadBytes(e) + U32Bytes(|e.votes|) + (U64sBytes(e.votes) + (U32Bytes(|e.voters|) + KeysBytes(e.voters)))
    ensures Serialize(e) == HeadBytes(e) + U32Bytes(|e.votes|) + U64sBytes(e.votes) + (U32Bytes(|e.voters|) + KeysBytes(e.voters))
    ensures Serialize(e) == HeadBytes(e) + U32Bytes(|e.votes|) + U64sBytes(e.votes) + U32Bytes(|e.voters|) + KeysBytes(e.voters)
  {
  }

  /** The name's u32 little-endian byte length comes first, then the name's bytes, then the
      candidates' u32 count. */
  lemma {:induction false} LayoutHead(e: Election)
    requires Encodable(e)
    ensures var r := Serialize(e);
      && FromLE(r[0..4]) == |e.name|
      && r[4..4 + |e.name|] == e.name
      && FromLE(r[4 + |e.name|..8 + |e.name|]) == |e.candidates|
  {
    var r := Serialize(e);
    Groups(e);
    var tail := U32Bytes(|e.votes|) + (U64sBytes(e.votes) + (U32Bytes(|e.voters|) + KeysBytes(e.voters)));
    var a, b, c, d := U32Bytes(|e.name|), e.name, U32Bytes(|e.candidates|), StringsBytes(e.candidates);
    assert HeadBytes(e) == a + b + c + d;
    Regroup(a, b, c, d, tail);
    CountAt(r, [], |e.name|, b + c + d + tail);
    Middle(r, a, b, c + d + tail);
    CountAt(r, a + b, |e.candidates|, d + tail);
  }

  lemma {:induction false} Regroup(a: seq<u8>, b: seq<u8>, c: seq<u8>, d: seq<u8>, t: seq<u8>)
    ensures a + b + c + d + t == [] + a + (b + c + d + t)
    ensures a + b + c + d + t == a + b + (c + d + t)
    ensures a + b + c + d + t == (a + b) + c + (d + t)
  {
  }

  /** At the tally offset: the counters' u32 count, then counter i as 8 little-endian bytes
      at 8i past it. */
  lemma {:induction false} LayoutTally(e: Election)
    requires Encodable(e)
    ensures var r := Serialize(e); var t := TallyOffset(e);
      && t + 4 + 8 * |e.votes| <= |r|
      && FromLE(r[t..t + 4]) == |e.votes|
      && forall i :: 0 <= i < |e.votes| ==> FromLE(r[t + 4 + 8 * i .. t + 4 + 8 * i + 8]) == e.votes[i]
  {
    var r := Serialize(e);
    Groups(e);
    var voters := U32Bytes(|e.voters|) + KeysBytes(e.voters);
    CountAt(r, HeadBytes(e), |e.votes|, U64sBytes(e.votes) + voters);
    CountersAt(r, HeadBytes(e) + U32Bytes(|e.votes|), e.votes, voters);
  }

  /** At the voters offset: the voters' u32 count, then voter i as 32 raw bytes at 32i past it,
      and nothing after the last voter. */
  lemma {:induction false} LayoutVoters(e: Election)
    requires Encodable(e)
    ensures var r := Serialize(e); var v := VotersOffset(e);
      && |r| == v + 4 + KEY_LEN * |e.voters|
      && FromLE(r[v..v + 4]) == |e.voters|
      && forall i :: 0 <= i < |e.voters| ==> r[v + 4 + KEY_LEN * i .. v + 4 + KEY_LEN * i + KEY_LEN] == e.voters[i]
  {
    var r := Serialize(e);
    Groups(e);
    var pre := HeadBytes(e) + U32Bytes(|e.votes|) + U64sBytes(e.votes);
    CountAt(r, pre, |e.voters|, KeysBytes(e.voters));
    KeysLayout(r, pre + U32Bytes(|e.voters|), e.voters);
  }

  // ---------------------------------------------------------------- positions in a concatenation

  /** A u32 written after `pre` reads back from bytes |pre|..|pre|+4. */
  lemma {:induction false} CountAt(r: seq<u8>, pre: seq<u8>, n: u32, post: seq<u8>)
    requires r == pre + U32Bytes(n) + post
    ensures |pre| + 4 <= |r| && FromLE(r[|pre|..|pre| + 4]) == n
  {
    Middle(r, pre, U32Bytes(n), post);
    LEValues(n, 0);
  }

  /** Counters written after `pre` read back, counter i from bytes |pre|+8i..|pre|+8i+8. */
  lemma {:induction false} CountersAt(r: seq<u8>, pre: seq<u8>, vs: seq<u64>, post: seq<u8>)
    requires r == pre + U64sBytes(vs) + post
    ensures forall i :: 0 <= i < |vs| ==> FromLE(r[|pre| + 8 * i .. |pre| + 8 * i + 8]) == vs[i]
  {
    forall i | 0 <= i < |vs|
      ensures FromLE(r[|pre| + 8 * i .. |pre| + 8 * i + 8]) == vs[i]
    {
      CounterBytes(r, pre, vs, post, i);
      LEValues(0, vs[i]);
    }
  }

  lemma {:induction false} CounterBytes(r: seq<u8>, pre: seq<u8>, vs: seq<u64>, post: seq<u8>, i: nat)
    requires r == pre + U64sBytes(vs) + post
    requires i < |vs|
    ensures r[|pre| + 8 * i .. |pre| + 8 * i + 8] == U64Bytes(vs[i])
  {
    U64sAt(vs, i);
    PartWindow(r, pre, U64sBytes(vs), post, 8 * i, 8);
  }

  /** Keys written last, after `pre`: key i is bytes |pre|+32i..|pre|+32i+32, and nothing follows. */
  lemma {:induction false} KeysLayout(r: seq<u8>, pre: seq<u8>, ks: seq<Pubkey>)
    requires r == pre + KeysBytes(ks)
    ensures |r| == |pre| + KEY_LEN * |ks|
    ensures forall i :: 0 <= i < |ks| ==> r[|pre| + KEY_LEN * i .. |pre| + KEY_LEN * i + KEY_LEN] == ks[i]
  {
    forall i | 0 <= i < |ks|
      ensures r[|pre| + KEY_LEN * i .. |pre| + KEY_LEN * i + KEY_LEN] == ks[i]
    {
      KeyAt(r, pre, ks, i);
    }
  }

  lemma {:induction false} KeyAt(r: seq<u8>, pre: seq<u8>, ks: seq<Pubkey>, i: nat)
    requires r == pre + KeysBytes(ks)
    requires i < |ks|
    ensures r[|pre| + KEY_LEN * i .. |pre| + KEY_LEN * i + KEY_LEN] == ks[i]
  {
    KeysAt(ks, i);
    assert r == pre + KeysBytes(ks) + [];
    PartWindow(r, pre, KeysBytes(ks), [], KEY_LEN * i, KEY_LEN);
  }
}
