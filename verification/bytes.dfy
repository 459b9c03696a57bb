/** Byte sequences and the Node.js `Buffer` accessors the decoders rely on. */
module Bytes {

  newtype Byte = x: int | 0 <= x < 256

  /** A checksum over a byte sequence (the `crc8` function the decoders are
      given). */
  type Checksum = seq<Byte> -> Byte

  /** Index normalisation of `Buffer.subarray`: a negative index counts from
      the end, and every index is clamped into `[0, len]`. */
  function ClampIndex(i: int, len: nat): (k: nat)
    ensures k <= len
    ensures 0 <= i <= len ==> k == i
    ensures i < 0 && len + i >= 0 ==> k == len + i
    ensures i > len ==> k == len
    ensures len + i < 0 ==> k == 0
  {
    if i < 0 then (if len + i < 0 then 0 else len + i)
    else if i > len then len
    else i
  }

  /** `s.subarray(start, end)`: clamped bounds, and an empty result when the
      normalised start is not below the normalised end. */
  function Subarray(s: seq<Byte>, start: int, end: int): (r: seq<Byte>)
    ensures |r| <= |s|
    ensures 0 <= start <= end <= |s| ==> r == s[start..end]
    ensures 0 <= start <= |s| <= end ==> r == s[start..]
    ensures start >= |s| || 0 <= end <= start ==> r == []
    ensures 0 <= start <= |s| + end && end < 0 ==> r == s[start..|s| + end]
    ensures -|s| <= start <= end < 0 ==> r == s[|s| + start..|s| + end]
    ensures -|s| <= start < 0 && |s| <= end ==> r == s[|s| + start..]
    ensures end < 0 && start >= |s| + end ==> r == []
    ensures start < -|s| && -|s| <= end < 0 ==> r == s[..|s| + end]
    ensures end < -|s| ==> r == []
  {
    var lo := ClampIndex(start, |s|);
    var hi := ClampIndex(end, |s|);
    if lo < hi then s[lo..hi] else []
  }

  /** Value of the unsigned big-endian 16-bit integer `readUInt16BE(i)`. */
  function ReadUInt16BE(s: seq<Byte>, i: nat): (v: nat)
    requires i + 2 <= |s|
    ensures v < 0x1_0000
    ensures v / 256 == s[i] as nat && v % 256 == s[i + 1] as nat
  {
    s[i] as nat * 256 + s[i + 1] as nat
  }

  /** Adjacent slices join into one. */
  lemma SliceConcat(s: seq<Byte>, a: nat, b: nat, c: nat)
    requires a <= b <= c <= |s|
    ensures s[a..b] + s[b..c] == s[a..c]
  {
    assert forall k :: 0 <= k < c - a ==> (s[a..b] + s[b..c])[k] == s[a..c][k];
  }

  lemma ConcatAssoc<T>(a: seq<T>, b: seq<T>, c: seq<T>)
    ensures a + (b + c) == (a + b) + c
  {
  }

  /** If `s` starts with `a + x`, then it starts with `a`, followed by `x`. */
  lemma PrefixSplit<T>(s: seq<T>, a: seq<T>, x: seq<T>)
    requires |a| + |x| <= |s| && s[..|a| + |x|] == a + x
    ensures s[..|a|] == a
    ensures s[|a|..|a| + |x|] == x
  {
    assert s[..|a|] == s[..|a| + |x|][..|a|];
    assert s[|a|..|a| + |x|] == s[..|a| + |x|][|a|..];
  }
}
