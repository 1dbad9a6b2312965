/** The parts of the Borsh binary format the program's types use: little-endian fixed-width
    integers, raw 32-byte keys, strings prefixed by a u32 byte length, and sequences of them. */
module Borsh {
  import opened Bytes
  import opened Results
  import opened Utf8
  import opened Errors

  /** Reading one value from the front of a byte string: the value and the bytes after it. */
  type Read<T> = Result<(T, seq<u8>), IoCause>

  /** `n` fits a u32 length prefix. */
  predicate Fits(n: nat) {
    n < 0x1_0000_0000
  }

  /** A Borsh string value: well-formed UTF-8 whose length fits a u32 prefix. */
  predicate IsString(s: seq<u8>) {
    Fits(|s|) && ValidUtf8(s)
  }

  predicate AllStrings(cs: seq<seq<u8>>) {
    forall i :: 0 <= i < |cs| ==> IsString(cs[i])
  }

  // ---------------------------------------------------------------- encoders

  function U32Bytes(n: u32): (r: seq<u8>)
    ensures |r| == 4
  {
    Pow256Values();
    ToLE(n, 4)
  }

  function U64Bytes(n: u64): (r: seq<u8>)
    ensures |r| == 8
  {
    Pow256Values();
    ToLE(n, 8)
  }

  /** A string: its u32 byte length, then its bytes. */
  function StringBytes(s: seq<u8>): (r: seq<u8>)
    requires Fits(|s|)
  {
    U32Bytes(|s|) + s
  }

  /** The strings one after another, each with its own length prefix (no count). */
  function StringsBytes(cs: seq<seq<u8>>): (r: seq<u8>)
    requires forall i :: 0 <= i < |cs| ==> Fits(|cs[i]|)
  {
    if |cs| == 0 then [] else StringBytes(cs[0]) + StringsBytes(cs[1..])
  }

  /** The counters one after another, 8 bytes each (no count). */
  function U64sBytes(vs: seq<u64>): (r: seq<u8>)
    ensures |r| == 8 * |vs|
  {
    if |vs| == 0 then [] else U64Bytes(vs[0]) + U64sBytes(vs[1..])
  }

  /** The keys one after another, 32 raw bytes each (no count). */
  function KeysBytes(ks: seq<Pubkey>): (r: seq<u8>)
    ensures |r| == KEY_LEN * |ks|
  {
    if |ks| == 0 then [] else ks[0] + KeysBytes(ks[1..])
  }

  // ---------------------------------------------------------------- readers

  /** One byte: fails with UnexpectedLength exactly when the input is empty. */
  function ReadU8(s: seq<u8>): (r: Read<u8>)
    ensures r.Ok? <==> |s| >= 1
    ensures r.Err? ==> r.error == UnexpectedLength
    ensures r.Ok? ==> [r.value.0] + r.value.1 == s
  {
    if |s| < 1 then Err(UnexpectedLength) else Ok((s[0], s[1..]))
  }

  /** A u32: fails with UnexpectedLength exactly when fewer than 4 bytes remain, else consumes 4. */
  function ReadU32(s: seq<u8>): (r: Read<u32>)
    ensures r.Ok? <==> |s| >= 4
    ensures r.Err? ==> r.error == UnexpectedLength
    ensures r.Ok? ==> r.value.1 == s[4..]
  {
    if |s| < 4 then Err(UnexpectedLength)
    else
      Pow256Values();
      Ok((FromLE(s[..4]), s[4..]))
  }

  /** A u64: fails with UnexpectedLength exactly when fewer than 8 bytes remain, else consumes 8. */
  function ReadU64(s: seq<u8>): (r: Read<u64>)
    ensures r.Ok? <==> |s| >= 8
    ensures r.Err? ==> r.error == UnexpectedLength
    ensures r.Ok? ==> r.value.1 == s[8..]
  {
    if |s| < 8 then Err(UnexpectedLength)
    else
      Pow256Values();
      Ok((FromLE(s[..8]), s[8..]))
  }

  /** A key: 32 raw bytes; fails with UnexpectedLength exactly when fewer remain. */
  function ReadKey(s: seq<u8>): (r: Read<Pubkey>)
    ensures r.Ok? <==> |s| >= KEY_LEN
    ensures r.Err? ==> r.error == UnexpectedLength
    ensures r.Ok? ==> r.value.0 + r.value.1 == s
  {
    if |s| < KEY_LEN then Err(UnexpectedLength) else Ok((s[..KEY_LEN], s[KEY_LEN..]))
  }

  /** A string: the declared length must fit the remaining bytes, and the bytes must be UTF-8. */
  function ReadString(s: seq<u8>): (r: Read<seq<u8>>)
    ensures r.Ok? ==> IsString(r.value.0) && |r.value.1| + 4 + |r.value.0| == |s|
  {
    var (n, rest) :- ReadU32(s);
    if |rest| < n then Err(UnexpectedLength)
    else if !ValidUtf8(rest[..n]) then Err(InvalidUtf8)
    else Ok((rest[..n], rest[n..]))
  }

  /** `k` strings in sequence; the first failure is the result. */
  function ReadStrings(k: nat, s: seq<u8>): (r: Read<seq<seq<u8>>>)
    ensures r.Ok? ==> |r.value.0| == k && AllStrings(r.value.0)
  {
    if k == 0 then Ok(([], s))
    else
      var (c, rest) :- ReadString(s);
      var (cs, rest') :- ReadStrings(k - 1, rest);
      Ok(([c] + cs, rest'))
  }

  /** `k` counters in sequence: succeeds exactly when 8k bytes remain, and consumes exactly those. */
  function ReadU64s(k: nat, s: seq<u8>): (r: Read<seq<u64>>)
    ensures r.Ok? <==> |s| >= 8 * k
    ensures r.Err? ==> r.error == UnexpectedLength
    ensures r.Ok? ==> |r.value.0| == k && r.value.1 == s[8 * k..]
  {
    if k == 0 then Ok(([], s))
    else
      var (v, rest) :- ReadU64(s);
      var (vs, rest') :- ReadU64s(k - 1, rest);
      Ok(([v] + vs, rest'))
  }

  /** `k` keys in sequence: succeeds exactly when 32k bytes remain, and consumes exactly those. */
  function ReadKeys(k: nat, s: seq<u8>): (r: Read<seq<Pubkey>>)
    ensures r.Ok? <==> |s| >= KEY_LEN * k
    ensures r.Err? ==> r.error == UnexpectedLength
    ensures r.Ok? ==> |r.value.0| == k && r.value.1 == s[KEY_LEN * k..]
  {
    if k == 0 then Ok(([], s))
    else
      var (key, rest) :- ReadKey(s);
      var (ks, rest') :- ReadKeys(k - 1, rest);
      Ok(([key] + ks, rest'))
  }

  /** A whole-buffer read (`try_from_slice`): the value must use up every byte. */
  function Whole<T>(r: Read<T>): (w: Result<T, IoCause>)
    ensures w.Ok? <==> r.Ok? && |r.value.1| == 0
    ensures w.Ok? ==> w.value == r.value.0
    ensures r.Err? ==> w == Err(r.error)
    ensures r.Ok? && |r.value.1| > 0 ==> w == Err(NotAllBytesRead)
  {
    match r
    case Err(c) => Err(c)
    case Ok((v, rest)) => if |rest| == 0 then Ok(v) else Err(NotAllBytesRead)
  }

  // ---------------------------------------------------------------- round trips

  lemma {:induction false} U32RoundTrip(n: u32, t: seq<u8>)
    ensures ReadU32(U32Bytes(n) + t) == Ok((n, t))
  {
    Pow256Values();
    var s := U32Bytes(n) + t;
    assert s[..4] == U32Bytes(n) && s[4..] == t;
    FromToLE(n, 4);
  }

  lemma {:induction false} U32Canonical(s: seq<u8>)
    requires ReadU32(s).Ok?
    ensures s == U32Bytes(ReadU32(s).value.0) + ReadU32(s).value.1
  {
    Pow256Values();
    ToFromLE(s[..4]);
    assert s == s[..4] + s[4..];
  }

  lemma {:induction false} U64RoundTrip(n: u64, t: seq<u8>)
    ensures ReadU64(U64Bytes(n) + t) == Ok((n, t))
  {
    Pow256Values();
    var s := U64Bytes(n) + t;
    assert s[..8] == U64Bytes(n) && s[8..] == t;
    FromToLE(n, 8);
  }

  lemma {:induction false} U64Canonical(s: seq<u8>)
    requires ReadU64(s).Ok?
    ensures s == U64Bytes(ReadU64(s).value.0) + ReadU64(s).value.1
  {
    Pow256Values();
    ToFromLE(s[..8]);
    assert s == s[..8] + s[8..];
  }

  lemma {:induction false} StringRoundTrip(c: seq<u8>, t: seq<u8>)
    requires IsString(c)
    ensures ReadString(StringBytes(c) + t) == Ok((c, t))
  {
    U32RoundTrip(|c|, c + t);
    assert StringBytes(c) + t == U32Bytes(|c|) + (c + t);
    assert (c + t)[..|c|] == c && (c + t)[|c|..] == t;
  }

  lemma {:induction false} StringCanonical(s: seq<u8>)
    requires ReadString(s).Ok?
    ensures s == StringBytes(ReadString(s).value.0) + ReadString(s).value.1
  {
    U32Canonical(s);
    var rest := ReadU32(s).value.1;
    var n := ReadU32(s).value.0;
    assert rest == rest[..n] + rest[n..];
  }

  lemma {:induction false} StringsRoundTrip(cs: seq<seq<u8>>, t: seq<u8>)
    requires AllStrings(cs)
    ensures ReadStrings(|cs|, StringsBytes(cs) + t) == Ok((cs, t))
  {
    if |cs| > 0 {
      assert StringsBytes(cs) + t == StringBytes(cs[0]) + (StringsBytes(cs[1..]) + t);
      StringRoundTrip(cs[0], StringsBytes(cs[1..]) + t);
      StringsRoundTrip(cs[1..], t);
      assert [cs[0]] + cs[1..] == cs;
    } else {
      assert StringsBytes(cs) + t == t;
    }
  }

  lemma {:induction false} StringsCanonical(k: nat, s: seq<u8>)
    requires ReadStrings(k, s).Ok?
    ensures s == StringsBytes(ReadStrings(k, s).value.0) + ReadStrings(k, s).value.1
  {
    if k > 0 {
      var (c, rest) := ReadString(s).value;
      StringCanonical(s);
      StringsCanonical(k - 1, rest);
      var cs := ReadStrings(k, s).value.0;
      assert cs[0] == c && cs[1..] == ReadStrings(k - 1, rest).value.0;
    }
  }

  lemma {:induction false} U64sRoundTrip(vs: seq<u64>, t: seq<u8>)
    ensures ReadU64s(|vs|, U64sBytes(vs) + t) == Ok((vs, t))
  {
    if |vs| > 0 {
      assert U64sBytes(vs) + t == U64Bytes(vs[0]) + (U64sBytes(vs[1..]) + t);
      U64RoundTrip(vs[0], U64sBytes(vs[1..]) + t);
      U64sRoundTrip(vs[1..], t);
      assert [vs[0]] + vs[1..] == vs;
    } else {
      assert U64sBytes(vs) + t == t;
    }
  }

  lemma {:induction false} U64sCanonical(k: nat, s: seq<u8>)
    requires ReadU64s(k, s).Ok?
    ensures s == U64sBytes(ReadU64s(k, s).value.0) + ReadU64s(k, s).value.1
  {
    if k > 0 {
      var (v, rest) := ReadU64(s).value;
      U64Canonical(s);
      U64sCanonical(k - 1, rest);
      var vs := ReadU64s(k, s).value.0;
      assert vs[0] == v && vs[1..] == ReadU64s(k - 1, rest).value.0;
    }
  }

  lemma {:induction false} KeysRoundTrip(ks: seq<Pubkey>, t: seq<u8>)
    ensures ReadKeys(|ks|, KeysBytes(ks) + t) == Ok((ks, t))
  {
    if |ks| > 0 {
      var s := KeysBytes(ks) + t;
      assert s == ks[0] + (KeysBytes(ks[1..]) + t);
      assert s[..KEY_LEN] == ks[0] && s[KEY_LEN..] == KeysBytes(ks[1..]) + t;
      KeysRoundTrip(ks[1..], t);
      assert [ks[0]] + ks[1..] == ks;
    } else {
      assert KeysBytes(ks) + t == t;
    }
  }

  lemma {:induction false} KeysCanonical(k: nat, s: seq<u8>)
    requires ReadKeys(k, s).Ok?
    ensures s == KeysBytes(ReadKeys(k, s).value.0) + ReadKeys(k, s).value.1
  {
    if k > 0 {
      var rest := s[KEY_LEN..];
      KeysCanonical(k - 1, rest);
      var ks := ReadKeys(k, s).value.0;
      assert ks[0] == s[..KEY_LEN] && ks[1..] == ReadKeys(k - 1, rest).value.0;
      assert s == s[..KEY_LEN] + rest;
    }
  }

  // ---------------------------------------------------------------- positions

  /** The i-th counter occupies bytes 8i..8i+8 of a counter sequence's encoding. */
  lemma {:induction false} U64sAt(vs: seq<u64>, i: nat)
    requires i < |vs|
    ensures U64sBytes(vs)[8 * i .. 8 * i + 8] == U64Bytes(vs[i])
  {
    if i > 0 {
      U64sAt(vs[1..], i - 1);
      assert U64sBytes(vs) == U64Bytes(vs[0]) + U64sBytes(vs[1..]);
      assert U64sBytes(vs)[8 * i .. 8 * i + 8] == U64sBytes(vs[1..])[8 * (i - 1) .. 8 * (i - 1) + 8];
    }
  }

  /** The i-th key occupies bytes 32i..32i+32 of a key sequence's encoding. */
  lemma {:induction false} KeysAt(ks: seq<Pubkey>, i: nat)
    requires i < |ks|
    ensures KeysBytes(ks)[KEY_LEN * i .. KEY_LEN * i + KEY_LEN] == ks[i]
  {
    if i > 0 {
      KeysAt(ks[1..], i - 1);
      assert KeysBytes(ks) == ks[0] + KeysBytes(ks[1..]);
      assert KeysBytes(ks)[KEY_LEN * i .. KEY_LEN * i + KEY_LEN]
          == KeysBytes(ks[1..])[KEY_LEN * (i - 1) .. KEY_LEN * (i - 1) + KEY_LEN];
    }
  }

  /** The little-endian reading of an encoded integer is the integer. */
  lemma {:induction false} LEValues(n: u32, m: u64)
    ensures FromLE(U32Bytes(n)) == n
    ensures FromLE(U64Bytes(m)) == m
  {
    Pow256Values();
    FromToLE(n, 4);
    FromToLE(m, 8);
  }
}
