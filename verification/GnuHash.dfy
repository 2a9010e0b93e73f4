/** The GNU hash index of a shared object's symbols: gnu_hash, gnu_lookup and gnu_lookup_filtered. */
module GnuHash {
  import opened Options
  import opened Bits

  const WORD: nat := 0x1_0000_0000

  /** A C string without its terminator. */
  type Name = seq<nat>

  // ---------- the hash

  /** The polynomial in 33 whose value modulo 2^32 is the hash. */
  ghost function Poly(s: Name): nat { if s == [] then 5381 else 33 * Poly(s[..|s| - 1]) + s[|s| - 1] }

  ghost function HashOf(s: Name): nat { Poly(s) % 0x1_0000_0000 }

  /** gnu_hash, whose running value wraps at 32 bits in every step. */
  method Hash(s: Name) returns (h: nat)
    ensures h == HashOf(s) < 0x1_0000_0000
  {
    h := 5381;
    var i := 0;
    while i < |s|
      invariant 0 <= i <= |s| && h == HashOf(s[..i])
    {
      assert s[..i + 1][..i] == s[..i];
      WrapStep(Poly(s[..i]), s[i]);
      h := (h + h * 32 + s[i]) % WORD;
      i := i + 1;
    }
    assert s[..i] == s;
  }

  lemma WrapStep(p: nat, c: nat)
    ensures (p % WORD + p % WORD * 32 + c) % WORD == (33 * p + c) % WORD
  {
    var q, r := p / WORD, p % WORD;
    assert 33 * p + c == (33 * r + c) + WORD * (33 * q);
  }

  // ---------- the table

  /** The symbols of a shared object: their names, and their versions if it has any; a hidden version is negative. */
  datatype Symbols = Symbols(names: seq<Name>, versym: Option<seq<int>>)

  /** A symbol that a lookup of s may return. */
  ghost predicate Hit(syms: Symbols, s: Name, i: nat)
    requires i < |syms.names|
  {
    && (syms.versym.Some? ==> i < |syms.versym.value| && syms.versym.value[i] >= 0)
    && syms.names[i] == s
  }

  /** The header, the Bloom words (two 32-bit words each), the buckets and the chain, in one array of 32-bit words. */
  ghost predicate Layout(tab: seq<nat>, n: nat) {
    && |tab| >= 4 && tab[0] > 0 && 1 <= tab[1] <= n && |tab| == 4 + 2 * tab[2] + tab[0] + (n - tab[1])
    && (exists k :: tab[2] == Pow2(k))
  }

  ghost function BloomWord(tab: seq<nat>, j: nat): nat
    requires 4 + 2 * j + 1 < |tab|
  { tab[4 + 2 * j] + 0x1_0000_0000 * tab[4 + 2 * j + 1] }

  ghost function Bucket(tab: seq<nat>, b: nat): nat
    requires |tab| >= 4 && 4 + 2 * tab[2] + b < |tab|
  { tab[4 + 2 * tab[2] + b] }

  ghost function Chain(tab: seq<nat>, i: nat): nat
    requires |tab| >= 4 && tab[1] <= i && 4 + 2 * tab[2] + tab[0] + (i - tab[1]) < |tab|
  { tab[4 + 2 * tab[2] + tab[0] + (i - tab[1])] }

  /** The bucket of each name. */
  ghost function Buckets(nbuckets: nat): Name -> nat
    requires nbuckets > 0
  { (s: Name) => HashOf(s) % nbuckets }

  /** The chain holds the hashes, in symbol order, with the low bit marking the last symbol of each bucket. */
  ghost predicate ChainOk(tab: seq<nat>, names: seq<Name>, hash: Name -> nat, bucket: Name -> nat)
    requires Layout(tab, |names|)
  {
    && (forall i, j | tab[1] <= i < j < |names| :: bucket(names[i]) <= bucket(names[j]))
    && (forall i | tab[1] <= i < |names| :: Chain(tab, i) / 2 == hash(names[i]) / 2)
    && (forall i | tab[1] <= i < |names| ::
          Chain(tab, i) % 2 == 1 <==> i + 1 == |names| || bucket(names[i + 1]) != bucket(names[i]))
  }

  /** Each bucket holds the index of its first symbol, or zero. */
  ghost predicate BucketsOk(tab: seq<nat>, names: seq<Name>, bucket: Name -> nat)
    requires Layout(tab, |names|)
  {
    forall b | 0 <= b < tab[0] ::
      var first := Bucket(tab, b);
      if first == 0 then forall i | tab[1] <= i < |names| :: bucket(names[i]) != b
      else
        && tab[1] <= first < |names| && bucket(names[first]) == b
        && forall i | tab[1] <= i < first :: bucket(names[i]) != b
  }

  /** Every symbol has its two bits set in its Bloom word. */
  ghost predicate BloomOk(tab: seq<nat>, names: seq<Name>)
    requires Layout(tab, |names|)
  {
    forall i | tab[1] <= i < |names| :: BloomHas(tab, HashOf(names[i]))
  }

  ghost predicate BloomHas(tab: seq<nat>, h: nat)
    requires |tab| >= 4 && tab[2] > 0 && 4 + 2 * tab[2] <= |tab|
  {
    var f := BloomWord(tab, h / 64 % tab[2]);
    HasBit(f, h % 64) && HasBit(f, h / Pow2(tab[3]) % 64)
  }

  ghost predicate HasBit(f: nat, k: nat) { f / Pow2(k) % 2 == 1 }

  /** Everything but the filter, for any hash and any assignment of names to buckets. */
  ghost predicate Indexed(tab: seq<nat>, syms: Symbols, hash: Name -> nat, bucket: Name -> nat) {
    && Layout(tab, |syms.names|) && ChainOk(tab, syms.names, hash, bucket) && BucketsOk(tab, syms.names, bucket)
    && (syms.versym.Some? ==> |syms.versym.value| == |syms.names|)
  }

  ghost predicate WellFormed(tab: seq<nat>, syms: Symbols) {
    && Layout(tab, |syms.names|) && Indexed(tab, syms, HashOf, Buckets(tab[0])) && BloomOk(tab, syms.names)
  }

  // ---------- the lookups

  /** The reference: a linear scan from symbol i on. */
  ghost function Scan(syms: Symbols, s: Name, i: nat): (r: Option<nat>)
    requires i <= |syms.names|
    ensures r.Some? ==>
      i <= r.value < |syms.names| && Hit(syms, s, r.value) && forall j | i <= j < r.value :: !Hit(syms, s, j)
    ensures r.None? ==> forall j | i <= j < |syms.names| :: !Hit(syms, s, j)
    decreases |syms.names| - i
  {
    if i == |syms.names| then None else if Hit(syms, s, i) then Some(i) else Scan(syms, s, i + 1)
  }

  /** i is the first symbol from `from` on with the name s and a version, if there are any, that is not hidden. */
  ghost predicate Finds(syms: Symbols, s: Name, from: nat, r: Option<nat>) {
    match r
    case Some(i) => from <= i && Names(syms, s, i) && forall j | from <= j < i :: !Names(syms, s, j)
    case None => forall j: nat | from <= j :: !Names(syms, s, j)
  }

  ghost predicate Names(syms: Symbols, s: Name, i: nat) {
    && i < |syms.names| && syms.names[i] == s
    && (syms.versym.Some? ==> i < |syms.versym.value| && 0 <= syms.versym.value[i])
  }

  lemma ScanFinds(syms: Symbols, s: Name, from: nat)
    requires from <= |syms.names|
    ensures Finds(syms, s, from, Scan(syms, s, from))
  {
    forall j: nat | from <= j < |syms.names| ensures Names(syms, s, j) <==> Hit(syms, s, j) {
    }
  }

  /** gnu_lookup. */
  method Lookup(h1: nat, tab: seq<nat>, syms: Symbols, s: Name) returns (r: Option<nat>)
    requires WellFormed(tab, syms) && h1 == HashOf(s)
    ensures r == Scan(syms, s, tab[1]) && Finds(syms, s, tab[1], r)
  {
    var b := h1 % tab[0];
    r := WalkBucket(h1, b, tab, syms, s, HashOf, Buckets(tab[0]));
  }

  /** The chain loop of one bucket. Its indices stay inside the table, and the low bit ends it. */
  method WalkBucket(h1: nat, b: nat, tab: seq<nat>, syms: Symbols, s: Name, ghost hash: Name -> nat,
                    ghost bucket: Name -> nat)
    returns (r: Option<nat>)
    requires Indexed(tab, syms, hash, bucket) && h1 == hash(s) && b == bucket(s) < tab[0]
    ensures r == Scan(syms, s, tab[1]) && Finds(syms, s, tab[1], r)
  {
    ghost var n := |syms.names|;
    var buckets := 4 + 2 * tab[2];
    var i := tab[buckets + b];
    assert i == Bucket(tab, b);
    ScanFinds(syms, s, tab[1]);
    if i == 0 {
      return None;
    }
    var h := h1 - h1 % 2 + 1;
    while true
      invariant tab[1] <= i < n && bucket(syms.names[i]) == b
      invariant forall j | tab[1] <= j < i :: !Hit(syms, s, j)
      decreases n - i
    {
      var h2 := tab[buckets + tab[0] + (i - tab[1])];
      assert h2 == Chain(tab, i);
      if h == h2 - h2 % 2 + 1 && (syms.versym.None? || syms.versym.value[i] >= 0) && syms.names[i] == s {
        assert Hit(syms, s, i);
        return Some(i);
      }
      if h2 % 2 == 1 {
        break;
      }
      SameBucket(tab, syms, i, hash, bucket);
      i := i + 1;
    }
    NoneAfter(tab, syms, s, i, hash, bucket);
    return None;
  }

  /** A symbol without the end mark is followed by one of its bucket. */
  lemma SameBucket(tab: seq<nat>, syms: Symbols, i: nat, hash: Name -> nat, bucket: Name -> nat)
    requires Indexed(tab, syms, hash, bucket) && tab[1] <= i < |syms.names| && Chain(tab, i) % 2 != 1
    ensures i + 1 < |syms.names| && bucket(syms.names[i + 1]) == bucket(syms.names[i])
  {
  }

  /** Nothing after the last symbol of the bucket can match. */
  lemma NoneAfter(tab: seq<nat>, syms: Symbols, s: Name, i: nat, hash: Name -> nat, bucket: Name -> nat)
    requires Indexed(tab, syms, hash, bucket) && tab[1] <= i < |syms.names| && Chain(tab, i) % 2 == 1
    requires bucket(syms.names[i]) == bucket(s)
    ensures forall j | i < j < |syms.names| :: !Hit(syms, s, j)
  {
    forall j | i < j < |syms.names| ensures !Hit(syms, s, j) {
      assert bucket(syms.names[i]) < bucket(syms.names[i + 1]) <= bucket(syms.names[j]);
    }
  }

  /** gnu_lookup_filtered, where `and` is the bitwise operation, with the word offset and the bit mask that find_sym2
      derives from the hash. */
  method LookupFiltered(and: BitOp, h1: nat, tab: seq<nat>, syms: Symbols, s: Name, fofs: nat, fmask: nat)
    returns (r: Option<nat>)
    requires IsAnd(and) && WellFormed(tab, syms) && h1 == HashOf(s) && fofs == h1 / 64 && fmask == Pow2(h1 % 64)
    ensures r == Scan(syms, s, tab[1]) && Finds(syms, s, tab[1], r)
  {
    FilterIndex(and, tab, |syms.names|, fofs);
    var j := and(fofs, tab[2] - 1);
    var f := tab[4 + 2 * j] + WORD * tab[4 + 2 * j + 1];
    assert f == BloomWord(tab, j);
    ScanFinds(syms, s, tab[1]);
    if !BloomHas(tab, h1) {
      NoSymbol(tab, syms, s);
    }
    AndPow2(and, f, h1 % 64);
    if and(f, fmask) == 0 {
      return None;
    }
    f := f / Pow2(h1 / Pow2(tab[3]) % 64);
    if f % 2 == 0 {
      return None;
    }
    r := Lookup(h1, tab, syms, s);
  }

  /** Masking with the size less one is reduction modulo the size, which keeps the index in the filter. */
  lemma FilterIndex(and: BitOp, tab: seq<nat>, n: nat, fofs: nat)
    requires IsAnd(and) && Layout(tab, n)
    ensures tab[2] > 0 && and(fofs, tab[2] - 1) == fofs % tab[2]
  {
    var k :| tab[2] == Pow2(k);
    MaskIsMod(and, fofs, k, tab[2]);
  }

  /** A name missing from the filter is no symbol's name. */
  lemma NoSymbol(tab: seq<nat>, syms: Symbols, s: Name)
    requires Layout(tab, |syms.names|) && BloomOk(tab, syms.names) && tab[2] > 0 && !BloomHas(tab, HashOf(s))
    ensures Scan(syms, s, tab[1]) == None
  {
  }

  /** A table of one symbol, with one bucket and one Bloom word. */
  lemma OneSymbol(s: Name) returns (tab: seq<nat>, syms: Symbols)
    ensures WellFormed(tab, syms) && syms.names == [[], s] && Finds(syms, s, tab[1], Some(1))
  {
    var h := HashOf(s);
    var f := Pow2(h % 64);
    tab := [1, 1, 1, 0, f % 0x1_0000_0000, f / 0x1_0000_0000, 1, h - h % 2 + 1];
    syms := Symbols([[], s], None);
    assert tab[2] == Pow2(0) && BloomWord(tab, 0) == f;
    OwnBit(f, h % 64);
    assert h / Pow2(tab[3]) == h;
    assert Names(syms, s, 1);
  }

  lemma OwnBit(f: nat, k: nat)
    requires f == Pow2(k)
    ensures HasBit(f, k)
  {
    assert f / f == 1;
  }
}
