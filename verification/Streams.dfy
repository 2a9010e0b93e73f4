/** Hash functions that fold a compression function over the blocks of a padded message, fed piece by piece. */
module Streams {
  import opened Words

  type byte = bv8
  type Bytes = seq<byte>

  // ---------- blocks

  function Flat(bs: seq<Bytes>): Bytes { if bs == [] then [] else bs[0] + Flat(bs[1..]) }

  /** The full blocks of b bytes each. */
  function Chop(b: nat, s: Bytes): seq<Bytes>
    requires b > 0
  { if |s| < b then [] else [s[..b]] + Chop(b, s[b..]) }

  ghost predicate AllOf(b: nat, bs: seq<Bytes>) { forall i | 0 <= i < |bs| :: |bs[i]| == b }

  /** Chopping undoes joining, whatever shorter piece follows. */
  lemma {:induction false} ChopFlat(b: nat, bs: seq<Bytes>, rest: Bytes)
    requires b > 0 && AllOf(b, bs) && |rest| < b
    ensures Chop(b, Flat(bs) + rest) == bs
  {
    if bs != [] {
      var s := Flat(bs) + rest;
      assert s == bs[0] + (Flat(bs[1..]) + rest);
      assert s[..b] == bs[0] && s[b..] == Flat(bs[1..]) + rest;
      ChopFlat(b, bs[1..], rest);
    }
  }

  lemma {:induction false} FlatAppend(bs: seq<Bytes>, x: Bytes)
    ensures Flat(bs + [x]) == Flat(bs) + x
  {
    if bs != [] {
      FlatAppend(bs[1..], x);
      assert (bs + [x])[1..] == bs[1..] + [x];
    }
  }

  /** The chaining value after the blocks. */
  function Fold<S>(f: (S, Bytes) -> S, s: S, bs: seq<Bytes>): S {
    if bs == [] then s else f(Fold(f, s, bs[..|bs| - 1]), bs[|bs| - 1])
  }

  // ---------- padding

  function Zeros(n: nat): (r: Bytes)
    ensures |r| == n && forall i | 0 <= i < n :: r[i] == 0
  { seq(n, _ => 0) }

  function ByteOf(x: nat): byte { (x % 256) as byte }

  /** x as n digits in base 256, the most significant first. */
  function Digits(d: nat -> byte, n: nat, x: nat): (r: Bytes)
    ensures |r| == n
  { if n == 0 then [] else Digits(d, n - 1, x / 256) + [d(x)] }

  /** x as n bytes, the most significant first. */
  function BigEndian(n: nat, x: nat): (r: Bytes)
    ensures |r| == n
  { Digits(ByteOf, n, x) }

  /** The value of digits in base 256, the most significant first. */
  ghost function ValueOf(ds: seq<nat>): nat { if ds == [] then 0 else 256 * ValueOf(ds[..|ds| - 1]) + ds[|ds| - 1] }

  /** s is made of these digits. */
  ghost predicate IsBytes(s: Bytes, ds: seq<nat>) {
    |s| == |ds| && forall i | 0 <= i < |ds| :: ds[i] < 256 && s[i] == ds[i] as byte
  }

  /** The bytes of x are digits of value x, when there are enough of them. */
  lemma {:induction false} BigEndianValue(n: nat, x: nat) returns (ds: seq<nat>)
    requires Below(x, n)
    ensures IsBytes(BigEndian(n, x), ds) && ValueOf(ds) == x
  {
    ds := [];
    if n > 0 {
      ds := BigEndianValue(n - 1, x / 256);
      ds := AddDigit(BigEndian(n - 1, x / 256), ds, x / 256, x % 256);
    }
  }

  lemma AddDigit(s: Bytes, ds: seq<nat>, v: nat, d: nat) returns (ds': seq<nat>)
    requires IsBytes(s, ds) && ValueOf(ds) == v && d < 256
    ensures IsBytes(s + [d as byte], ds') && ValueOf(ds') == 256 * v + d
  {
    ds' := ds + [d];
    assert ds'[..|ds|] == ds;
  }

  /** The zero bytes between the one bit and a length field of l bytes, for blocks of b bytes. */
  function ZeroCount(b: nat, l: nat, n: nat): nat
    requires b > 0
  { (b - l - 1 - n) % b }

  /** The message, a one bit, zeros and the length of the message in bits. */
  function Padded(b: nat, l: nat, m: Bytes): Bytes
    requires b > 0
  { m + [0x80] + Zeros(ZeroCount(b, l, |m|)) + BigEndian(l, 8 * |m|) }

  /** There are as few zeros as fill a block. */
  lemma ZeroCountLeast(b: nat, l: nat, n: nat, z: nat)
    requires b > l
    ensures (n + 1 + ZeroCount(b, l, n) + l) % b == 0
    ensures (n + 1 + z + l) % b == 0 ==> ZeroCount(b, l, n) <= z
  {
    var t := b - l - 1 - n;
    var q := t / b;
    assert t == b * q + t % b;
    DivUnique(n + 1 + t % b + l, b, 1 - q, 0);
    if (n + 1 + z + l) % b == 0 {
      var p := (n + 1 + z + l) / b;
      assert n + 1 + z + l == b * p;
      Regroup(b, 1, 1 - q, -p);
      BelowMultiple(b, 1 - q - p, t % b - z);
    }
  }

  lemma BelowMultiple(b: nat, q: int, x: int)
    requires x < b && x == b * q
    ensures x <= 0
  {
  }

  lemma ZeroCountShift(b: nat, l: nat, n: nat)
    requires b > 0
    ensures ZeroCount(b, l, n + b) == ZeroCount(b, l, n)
  {
    var t := b - l - 1 - n;
    assert t == b * (t / b) + t % b;
    DivUnique(t - b, b, t / b - 1, t % b);
  }

  lemma {:induction false} ZeroCountOfRest(b: nat, l: nat, bs: seq<Bytes>, n: nat)
    requires b > 0 && AllOf(b, bs)
    ensures ZeroCount(b, l, |Flat(bs)| + n) == ZeroCount(b, l, n)
  {
    if bs != [] {
      ZeroCountOfRest(b, l, bs[1..], n);
      ZeroCountShift(b, l, |Flat(bs[1..])| + n);
    }
  }

  // ---------- the end of a message

  /** The blocks that the end of a message adds, from what is left over after the full blocks and the length field:
      one block, or two when the rest leaves no room for the length. */
  function LastBlocks(b: nat, rest: Bytes, len: Bytes): seq<Bytes>
    requires |rest| < b && |len| < b
  {
    if |rest| + 1 + |len| <= b then [rest + [0x80] + Zeros(b - |len| - |rest| - 1) + len]
    else [rest + [0x80] + Zeros(b - |rest| - 1), Zeros(b - |len|) + len]
  }

  /** They are the rest of the padded message. */
  lemma PaddedBlocks(b: nat, bs: seq<Bytes>, rest: Bytes, l: nat)
    requires AllOf(b, bs) && |rest| < b && 0 < l < b
    ensures var m := Flat(bs) + rest; Chop(b, Padded(b, l, m)) == bs + LastBlocks(b, rest, BigEndian(l, 8 * |m|))
  {
    var m := Flat(bs) + rest;
    var len := BigEndian(l, 8 * |m|);
    ZeroCountOfRest(b, l, bs, |rest|);
    if |rest| + 1 + l <= b {
      DivUnique(b - l - 1 - |rest|, b, 0, b - l - 1 - |rest|);
      OneBlock(b, bs, rest, len);
    } else {
      DivUnique(b - l - 1 - |rest|, b, -1, 2 * b - l - 1 - |rest|);
      TwoBlocks(b, bs, rest, len);
    }
  }

  lemma OneBlock(b: nat, bs: seq<Bytes>, rest: Bytes, len: Bytes)
    requires AllOf(b, bs) && 0 < |len| && |rest| + 1 + |len| <= b
    ensures Chop(b, Flat(bs) + rest + [0x80] + Zeros(b - |len| - 1 - |rest|) + len) == bs + LastBlocks(b, rest, len)
  {
    var x := rest + [0x80] + Zeros(b - |len| - |rest| - 1) + len;
    FlatAppend(bs, x);
    Together(Flat(bs), rest, [0x80], Zeros(b - |len| - 1 - |rest|), len);
    ChopWhole(b, bs + [x]);
  }

  lemma TwoBlocks(b: nat, bs: seq<Bytes>, rest: Bytes, len: Bytes)
    requires AllOf(b, bs) && |rest| < b && 0 < |len| < b < |rest| + 1 + |len|
    ensures Chop(b, Flat(bs) + rest + [0x80] + Zeros(2 * b - |len| - 1 - |rest|) + len) == bs + LastBlocks(b, rest, len)
  {
    var y, z := Zeros(b - |rest| - 1), Zeros(b - |len|);
    var last := LastBlocks(b, rest, len);
    FlatAppend(bs, last[0]);
    FlatAppend(bs + [last[0]], last[1]);
    assert bs + [last[0]] + [last[1]] == bs + last;
    assert Zeros(2 * b - |len| - 1 - |rest|) == y + z;
    Apart(Flat(bs), rest, [0x80], y, z, len);
    ChopWhole(b, bs + last);
  }

  lemma ChopWhole(b: nat, bs: seq<Bytes>)
    requires b > 0 && AllOf(b, bs)
    ensures Chop(b, Flat(bs)) == bs
  {
    ChopFlat(b, bs, []);
    assert Flat(bs) + [] == Flat(bs);
  }

  lemma Together(a: Bytes, r: Bytes, one: Bytes, z: Bytes, len: Bytes)
    ensures a + r + one + z + len == a + (r + one + z + len)
  {
  }

  lemma Apart(a: Bytes, r: Bytes, one: Bytes, y: Bytes, z: Bytes, len: Bytes)
    ensures a + r + one + (y + z) + len == a + (r + one + y) + (z + len)
  {
  }

  // ---------- feeding

  /** The compressed blocks and the rest make up the message. */
  ghost predicate Fed<S>(f: (S, Bytes) -> S, iv: S, b: nat, m: Bytes, bs: seq<Bytes>, rest: Bytes, s: S) {
    AllOf(b, bs) && m == Flat(bs) + rest && s == Fold(f, iv, bs)
  }

  lemma FedMore<S>(f: (S, Bytes) -> S, iv: S, b: nat, m: Bytes, bs: seq<Bytes>, rest: Bytes, s: S, more: Bytes)
    requires Fed(f, iv, b, m, bs, rest, s)
    ensures Fed(f, iv, b, m + more, bs, rest + more, s)
  {
  }

  /** A full rest becomes a block. */
  lemma FedBlock<S>(f: (S, Bytes) -> S, iv: S, b: nat, m: Bytes, bs: seq<Bytes>, rest: Bytes, s: S)
    requires Fed(f, iv, b, m, bs, rest, s) && |rest| == b
    ensures Fed(f, iv, b, m, bs + [rest], [], f(s, rest))
  {
    FlatAppend(bs, rest);
  }

  /** Compressing the last blocks gives the fold over the padded message. */
  lemma FedEnd<S>(f: (S, Bytes) -> S, iv: S, b: nat, l: nat, m: Bytes, bs: seq<Bytes>, rest: Bytes, s: S)
    requires Fed(f, iv, b, m, bs, rest, s) && |rest| < b && 0 < l < b
    ensures Fold(f, iv, Chop(b, Padded(b, l, m))) == Fold(f, s, LastBlocks(b, rest, BigEndian(l, 8 * |m|)))
  {
    PaddedBlocks(b, bs, rest, l);
    FoldAppend(f, iv, bs, LastBlocks(b, rest, BigEndian(l, 8 * |m|)));
  }

  lemma {:induction false} FoldAppend<S>(f: (S, Bytes) -> S, s: S, a: seq<Bytes>, c: seq<Bytes>)
    ensures Fold(f, s, a + c) == Fold(f, Fold(f, s, a), c)
    decreases |c|
  {
    if c == [] {
      assert a + c == a;
    } else {
      FoldAppend(f, s, a, c[..|c| - 1]);
      assert (a + c)[..|a + c| - 1] == a + c[..|c| - 1];
    }
  }

  lemma {:induction false} FlatLength(b: nat, bs: seq<Bytes>)
    requires AllOf(b, bs)
    ensures |Flat(bs)| == |bs| * b
  {
    if bs != [] {
      FlatLength(b, bs[1..]);
    }
  }

  lemma {:induction false} NoBytes(d: nat -> byte, n: nat)
    requires d(0) == 0
    ensures Digits(d, n, 0) == Zeros(n)
  {
    if n > 0 {
      NoBytes(d, n - 1);
      assert Zeros(n) == Zeros(n - 1) + [0];
    }
  }

  /** x needs no more than k digits. */
  predicate Below(x: nat, k: nat) { if k == 0 then x == 0 else Below(x / 256, k - 1) }

  lemma {:induction false} HighDigits(d: nat -> byte, n: nat, k: nat, x: nat)
    requires Below(x, k) && d(0) == 0
    ensures Digits(d, n + k, x) == Zeros(n) + Digits(d, k, x)
  {
    if k == 0 {
      NoBytes(d, n);
    } else {
      HighDigits(d, n, k - 1, x / 256);
    }
  }

  /** Compressing the last blocks: one, or another before it when the rest leaves no room for the length. */
  lemma FoldLast<S>(f: (S, Bytes) -> S, s: S, b: nat, rest: Bytes, len: Bytes, start: Bytes, mid: S)
    requires |rest| < b && |len| < b
    requires if |rest| + 1 + |len| > b then start == [] && mid == f(s, rest + [0x80] + Zeros(b - |rest| - 1))
             else start == rest + [0x80] && mid == s
    ensures Fold(f, s, LastBlocks(b, rest, len)) == f(mid, start + Zeros(b - |len| - |start|) + len)
  {
    var last := LastBlocks(b, rest, len);
    if |rest| + 1 + |len| > b {
      assert last[..1] == [last[0]] && [last[0]][..0] == [];
      assert [] + Zeros(b - |len|) + len == Zeros(b - |len|) + len;
      assert Fold(f, s, last[..1]) == f(Fold(f, s, []), last[0]);
    } else {
      assert last[..0] == [];
      assert rest + [0x80] + Zeros(b - |len| - |rest| - 1) + len == start + Zeros(b - |len| - |start|) + len;
    }
  }

  // ---------- buffers

  /** buf[from..to] = 0. */
  method ZeroFill(buf: array<byte>, from: nat, to: nat)
    requires from <= to <= buf.Length
    modifies buf
    ensures buf[..] == old(buf[..from]) + Zeros(to - from) + old(buf[to..])
  {
    ghost var s := buf[..];
    var i := from;
    while i < to
      invariant from <= i <= to
      invariant forall k | 0 <= k < buf.Length :: buf[k] == if from <= k < i then 0 else s[k]
    {
      buf[i] := 0;
      i := i + 1;
    }
  }
}
