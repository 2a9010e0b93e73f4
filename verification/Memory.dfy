/** Byte memory with little-endian 64-bit words. */
module Memory {
  import opened Splice

  type byte = b: nat | b < 256

  const PGSIZE := 4096
  const ENTRIES := 512

  function Le(s: seq<byte>): nat { if s == [] then 0 else s[0] + 256 * Le(s[1..]) }

  function ToLe(w: nat, n: nat): (s: seq<byte>)
    ensures |s| == n
  { if n == 0 then [] else [w % 256] + ToLe(w / 256, n - 1) }

  function Pow256(n: nat): nat { if n == 0 then 1 else 256 * Pow256(n - 1) }

  lemma {:induction false} LeToLe(w: nat, n: nat)
    requires w < Pow256(n)
    ensures Le(ToLe(w, n)) == w
  {
    if n > 0 {
      LeToLe(w / 256, n - 1);
      assert ToLe(w, n)[1..] == ToLe(w / 256, n - 1);
    }
  }

  /** The word at page p, index i. */
  function Entry(mem: seq<byte>, p: nat, i: nat): nat
    requires i < ENTRIES && (p + 1) * PGSIZE <= |mem|
  {
    Le(mem[p * PGSIZE + i * 8..p * PGSIZE + i * 8 + 8])
  }

  function PutWord(mem: seq<byte>, off: nat, w: nat): (r: seq<byte>)
    requires off + 8 <= |mem|
    ensures |r| == |mem|
  {
    mem[..off] + ToLe(w, 8) + mem[off + 8..]
  }

  /** A word store is read back, and no other aligned word changes. */
  lemma PutEntry(mem: seq<byte>, p: nat, i: nat, w: nat, q: nat, j: nat)
    requires i < ENTRIES && j < ENTRIES && (p + 1) * PGSIZE <= |mem| && (q + 1) * PGSIZE <= |mem|
    requires w < Pow256(8)
    ensures Entry(PutWord(mem, p * PGSIZE + i * 8, w), q, j) == if p == q && i == j then w else Entry(mem, q, j)
  {
    var a, b := p * PGSIZE + i * 8, q * PGSIZE + j * 8;
    var m := PutWord(mem, a, w);
    if p == q && i == j {
      assert m[b..b + 8] == ToLe(w, 8);
      LeToLe(w, 8);
    } else {
      assert b + 8 <= a || a + 8 <= b;
      PutWordElsewhere(mem, a, w, b);
    }
  }

  lemma PutWordElsewhere(mem: seq<byte>, a: nat, w: nat, b: nat)
    requires a + 8 <= |mem| && b + 8 <= |mem| && (b + 8 <= a || a + 8 <= b)
    ensures PutWord(mem, a, w)[b..b + 8] == mem[b..b + 8]
  {
  }

  /** Filling part of one page leaves the words of every other page alone. */
  lemma PutBytesEntry(mem: seq<byte>, p: nat, s: seq<byte>, q: nat, j: nat)
    requires j < ENTRIES && |s| <= PGSIZE && (p + 1) * PGSIZE <= |mem| && (q + 1) * PGSIZE <= |mem| && p != q
    ensures Entry(Put(mem, p * PGSIZE, s), q, j) == Entry(mem, q, j)
  {
    var b := q * PGSIZE + j * 8;
    assert Put(mem, p * PGSIZE, s)[b..b + 8] == mem[b..b + 8];
  }

  /** The byte at offset k of page p. */
  function ByteAt(mem: seq<byte>, p: nat, k: nat): byte
    requires k < PGSIZE && (p + 1) * PGSIZE <= |mem|
  {
    mem[p * PGSIZE + k]
  }

  lemma PutWordByte(mem: seq<byte>, p: nat, i: nat, w: nat, q: nat, k: nat)
    requires i < ENTRIES && k < PGSIZE && (p + 1) * PGSIZE <= |mem| && (q + 1) * PGSIZE <= |mem| && p != q
    ensures ByteAt(PutWord(mem, p * PGSIZE + i * 8, w), q, k) == ByteAt(mem, q, k)
  {
  }

  lemma PutBytesByte(mem: seq<byte>, p: nat, s: seq<byte>, q: nat, k: nat)
    requires |s| <= PGSIZE && k < PGSIZE && (p + 1) * PGSIZE <= |mem| && (q + 1) * PGSIZE <= |mem|
    ensures ByteAt(Put(mem, p * PGSIZE, s), q, k) == if p == q && k < |s| then s[k] else ByteAt(mem, q, k)
  {
  }

  method StoreWord(a: array<byte>, off: nat, w: nat)
    requires off + 8 <= a.Length
    modifies a
    ensures a[..] == PutWord(old(a[..]), off, w)
  {
    CopyInto(ToLe(w, 8), a, off);
  }
}
