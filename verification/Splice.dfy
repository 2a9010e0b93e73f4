/** Overwriting part of a sequence. */
module Splice {
  function Put<T>(s: seq<T>, off: nat, b: seq<T>): (r: seq<T>)
    requires off + |b| <= |s|
    ensures |r| == |s|
  { s[..off] + b + s[off + |b|..] }

  lemma PutAppend<T>(s: seq<T>, off: nat, a: seq<T>, b: seq<T>)
    requires off + |a| + |b| <= |s|
    ensures Put(Put(s, off, a), off + |a|, b) == Put(s, off, a + b)
  {
  }

  lemma PutAt<T>(s: seq<T>, off: nat, b: seq<T>, k: nat)
    requires off + |b| <= |s| && k < |s|
    ensures Put(s, off, b)[k] == if off <= k < off + |b| then b[k - off] else s[k]
  {
  }

  /** The sequence holds b at this offset. */
  predicate HoldsAt<T(==)>(s: seq<T>, off: int, b: seq<T>) { 0 <= off && off + |b| <= |s| && s[off..off + |b|] == b }

  /** It does after b is put there, and what it holds elsewhere stays. */
  lemma PutHolds<T>(s: seq<T>, off: nat, b: seq<T>)
    requires off + |b| <= |s|
    ensures HoldsAt(Put(s, off, b), off, b)
  {
  }

  lemma PutKeeps<T>(s: seq<T>, off: nat, b: seq<T>, at: int, c: seq<T>)
    requires off + |b| <= |s| && HoldsAt(s, at, c) && (at + |c| <= off || off + |b| <= at)
    ensures HoldsAt(Put(s, off, b), at, c)
  {
    var r := Put(s, off, b);
    forall k | at <= k < at + |c| ensures r[k] == s[k] {
      PutAt(s, off, b, k);
    }
    assert r[at..at + |c|] == s[at..at + |c|];
  }

  /** memcpy. */
  method CopyInto<T>(src: seq<T>, dst: array<T>, off: nat)
    requires off + |src| <= dst.Length
    modifies dst
    ensures dst[..] == Put(old(dst[..]), off, src)
  {
    var i := 0;
    while i < |src|
      invariant 0 <= i <= |src|
      invariant forall k | 0 <= k < dst.Length :: dst[k] == if off <= k < off + i then src[k - off] else old(dst[k])
    {
      dst[off + i] := src[i];
      i := i + 1;
    }
  }
}
