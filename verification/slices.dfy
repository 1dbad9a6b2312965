/** Facts about where the parts of a concatenation sit inside it. */
module Slices {
  import opened Bytes

  /** A window of the middle part of a concatenation, located in the whole. */
  lemma {:induction false} PartWindow(r: seq<u8>, pre: seq<u8>, x: seq<u8>, post: seq<u8>, i: nat, len: nat)
    requires r == pre + x + post && i + len <= |x|
    ensures r[|pre| + i .. |pre| + i + len] == x[i..i + len]
  {
    Middle(r, pre, x, post);
    Window(r, |pre|, x, i, len);
  }

  /** A window of a part of a sequence is the same window of the whole sequence, shifted. */
  lemma {:induction false} Window(r: seq<u8>, n: nat, t: seq<u8>, i: nat, len: nat)
    requires n + |t| <= |r| && r[n..n + |t|] == t && i + len <= |t|
    ensures r[n + i .. n + i + len] == t[i..i + len]
  {
    forall y | i <= y < i + len
      ensures r[n + y] == t[y]
    {
      assert t[y] == r[n..n + |t|][y];
    }
    assert r[n + i .. n + i + len] == t[i..i + len];
  }

  /** The middle part of a three-part concatenation. */
  lemma {:induction false} Middle(r: seq<u8>, a: seq<u8>, b: seq<u8>, c: seq<u8>)
    requires r == a + b + c
    ensures |a| + |b| <= |r| && r[|a|..|a| + |b|] == b
  {
  }

  /** A slice cut in two. */
  lemma {:induction false} Split(r: seq<u8>, i: nat, j: nat, k: nat)
    requires i <= j <= k <= |r|
    ensures r[i..k] == r[i..j] + r[j..k]
  {
  }

  /** A slice starting at 0 as a length byte, a field, a count byte and the rest. */
  lemma {:induction false} Join(r: seq<u8>, b: nat, end: nat)
    requires 1 <= b < end <= |r|
    ensures r[..end] == [r[0]] + r[1..b] + [r[b]] + r[b + 1..end]
  {
    Split(r, 0, 1, end);
    Split(r, 1, b, end);
    Split(r, b, b + 1, end);
    assert r[..1] == [r[0]] && r[b..b + 1] == [r[b]];
    assert r[..end] == r[0..end];
  }

  /** A prefix of a sequence with one element in front: that element, then a prefix of the rest. */
  lemma {:induction false} HeadOfPrefix(x: u8, t: seq<u8>, n: nat)
    requires 0 < n <= 1 + |t|
    ensures ([x] + t)[..n][0] == x && ([x] + t)[..n][1..] == t[..n - 1]
  {
  }

  /** Dropping the first element of a sequence with one element in front. */
  lemma {:induction false} TailOfCons(x: u8, p: seq<u8>, t: seq<u8>)
    ensures ([x] + p + t)[1..] == p + t
  {
  }

  /** A prefix of a sequence with one element in front. */
  lemma {:induction false} PrefixOfCons(x: u8, r: seq<u8>, k: nat)
    requires k <= |r|
    ensures ([x] + r)[..k + 1] == [x] + r[..k]
  {
  }
}
