/** The OCB mode of RFC 7253 with a 128-bit block cipher and a 128-bit tag, on byte strings. */
module Ocb {
  import Bits
  import opened Sm4
  import opened Blocks

  // ---------- bits of a string, most significant first

  predicate ByteBit(b: byte, k: nat)
    requires k < 8
  {
    if k == 0 then b & 0x80 != 0 else if k == 1 then b & 0x40 != 0
    else if k == 2 then b & 0x20 != 0 else if k == 3 then b & 0x10 != 0
    else if k == 4 then b & 0x08 != 0 else if k == 5 then b & 0x04 != 0
    else if k == 6 then b & 0x02 != 0 else b & 0x01 != 0
  }

  predicate Bit(s: seq<byte>, j: nat)
    requires j < 8 * |s|
  { ByteBit(s[j / 8], j % 8) }

  // ---------- doubling

  /** double_arr. */
  function Double(s: Block): Block {
    Pairs(Carry, s, 0, 15) + [Fold(s[15], s[0])]
  }

  /** n bytes, each made from two adjacent bytes of s, from position q on. */
  function Pairs(f: (byte, byte) -> byte, s: seq<byte>, q: nat, n: nat): (r: seq<byte>)
    requires q + n < |s|
    ensures |r| == n && forall i | 0 <= i < n :: r[i] == f(s[i + q], s[i + q + 1])
  { seq(n, i requires 0 <= i < n => f(s[i + q], s[i + q + 1])) }

  function Carry(a: byte, b: byte): byte { ((a & 127) << 1) | (b >> 7) }

  function Fold(a: byte, first: byte): byte { ((a & 127) << 1) ^ ((if first >> 7 == 1 then 255 else 0) & 135) }

  /** Section 2: double(S) is S shifted left by one bit, and then 135 added if S began with a one. */
  lemma DoubleIsFieldDoubling(s: Block, j: nat)
    requires j < 128
    ensures Bit(Double(s), j) <==> (j < 127 && Bit(s, j + 1)) != (Bit(s, 0) && j in {120, 125, 126, 127})
  {
    var i, k := j / 8, j % 8;
    if i < 15 {
      ShiftBits(s[i], s[i + 1], k);
      assert j + 1 == 8 * i + (k + 1);
      assert (j + 1) / 8 == (if k < 7 then i else i + 1) && (j + 1) % 8 == (if k < 7 then k + 1 else 0);
    } else {
      LastBits(s[15], s[0], k);
      assert k < 7 ==> (j + 1) / 8 == 15 && (j + 1) % 8 == k + 1;
    }
  }

  lemma ShiftBits(a: byte, b: byte, k: nat)
    requires k < 8
    ensures ByteBit(Carry(a, b), k) == if k < 7 then ByteBit(a, k + 1) else ByteBit(b, 0)
  {
  }

  lemma LastBits(a: byte, first: byte, k: nat)
    requires k < 8
    ensures ByteBit(Fold(a, first), k)
         <==> (k < 7 && ByteBit(a, k + 1)) != (ByteBit(first, 0) && k in {0, 5, 6, 7})
  {
  }

  // ---------- the nonce

  /** The nonce block for a tag of 128 bits: zeros, a one bit, and the nonce. */
  function NonceBlock(n: seq<byte>): Block
    requires |n| <= 15
  { seq(15 - |n|, _ => 0) + [1] + n }

  function Bottom(n: seq<byte>): nat
    requires |n| <= 15
  { (NonceBlock(n)[15] % 64) as int }

  function Ktop(e: Cipher, n: seq<byte>): Block
    requires |n| <= 15
  {
    var b := NonceBlock(n);
    e(b[..15] + [b[15] ^ (b[15] % 64)])
  }

  /** Section 4.2: Ktop || (Ktop[1..64] xor Ktop[9..72]). */
  function Stretch(k: Block): (s: seq<byte>)
    ensures |s| == 24
  { k + Xor(k[..8], k[1..9]) }

  /** Two adjacent bytes shifted left by s bits, upper byte. */
  function Window(a: byte, b: byte, s: nat): byte
    requires s < 8
  {
    if s == 0 then a
    else if s == 1 then (a << 1) | (b >> 7) else if s == 2 then (a << 2) | (b >> 6)
    else if s == 3 then (a << 3) | (b >> 5) else if s == 4 then (a << 4) | (b >> 4)
    else if s == 5 then (a << 5) | (b >> 3) else if s == 6 then (a << 6) | (b >> 2)
    else (a << 7) | (b >> 1)
  }

  /** The 16 bytes of the shift loop. */
  function Shifted(s: seq<byte>, bottom: nat): Block
    requires |s| == 24 && bottom < 64
  { Pairs((a: byte, b: byte) => Window(a, b, bottom % 8), s, bottom / 8, 16) }

  lemma BottomBound(n: seq<byte>)
    requires |n| <= 15
    ensures Bottom(n) < 64
  {
    ByteMod(NonceBlock(n)[15]);
  }

  lemma ByteMod(b: byte)
    ensures ((b % 64) as int) < 64
  {
    assert b % 64 < 64;
  }

  function Offset0(e: Cipher, n: seq<byte>): Block
    requires |n| <= 15
  {
    BottomBound(n);
    Shifted(Stretch(Ktop(e, n)), Bottom(n))
  }

  /** Section 4.2: Offset_0 = Stretch[1+bottom..128+bottom], bit for bit. */
  lemma ShiftedIsWindow(s: seq<byte>, bottom: nat, j: nat)
    requires |s| == 24 && bottom < 64 && j < 128
    ensures Bit(Shifted(s, bottom), j) == Bit(s, j + bottom)
  {
    var i, k, q, r := j / 8, j % 8, bottom / 8, bottom % 8;
    assert Shifted(s, bottom)[i] == Window(s[i + q], s[i + q + 1], r);
    WindowIn(s, i + q, r, k, j + bottom);
  }

  /** Bit k of the window at byte n of the string. */
  lemma WindowIn(s: seq<byte>, n: nat, r: nat, k: nat, at: nat)
    requires n + 1 < |s| && r < 8 && k < 8 && at == 8 * n + (k + r)
    ensures at / 8 < |s| && ByteBit(Window(s[n], s[n + 1], r), k) == Bit(s, at)
  {
    BitPosition(n, k + r, at);
    WindowBits(s[n], s[n + 1], r, k);
  }

  lemma BitPosition(q: nat, r: nat, n: nat)
    requires r < 15 && n == 8 * q + r
    ensures n / 8 == (if r < 8 then q else q + 1) && n % 8 == if r < 8 then r else r - 8
  {
  }

  lemma WindowBits(a: byte, b: byte, s: nat, k: nat)
    requires s < 8 && k < 8
    ensures ByteBit(Window(a, b, s), k) == if k + s < 8 then ByteBit(a, k + s) else ByteBit(b, k + s - 8)
  {
    match s
    case 0 =>
    case 1 => Window1(a, b, k);
    case 2 => Window2(a, b, k);
    case 3 => Window3(a, b, k);
    case 4 => Window4(a, b, k);
    case 5 => Window5(a, b, k);
    case 6 => Window6(a, b, k);
    case 7 => Window7(a, b, k);
    case _ =>
  }

  lemma Window1(a: byte, b: byte, k: nat)
    requires k < 8
    ensures ByteBit((a << 1) | (b >> 7), k) == if k < 7 then ByteBit(a, k + 1) else ByteBit(b, k - 7)
  {
  }

  lemma Window2(a: byte, b: byte, k: nat)
    requires k < 8
    ensures ByteBit((a << 2) | (b >> 6), k) == if k < 6 then ByteBit(a, k + 2) else ByteBit(b, k - 6)
  {
  }

  lemma Window3(a: byte, b: byte, k: nat)
    requires k < 8
    ensures ByteBit((a << 3) | (b >> 5), k) == if k < 5 then ByteBit(a, k + 3) else ByteBit(b, k - 5)
  {
  }

  lemma Window4(a: byte, b: byte, k: nat)
    requires k < 8
    ensures ByteBit((a << 4) | (b >> 4), k) == if k < 4 then ByteBit(a, k + 4) else ByteBit(b, k - 4)
  {
  }

  lemma Window5(a: byte, b: byte, k: nat)
    requires k < 8
    ensures ByteBit((a << 5) | (b >> 3), k) == if k < 3 then ByteBit(a, k + 5) else ByteBit(b, k - 3)
  {
  }

  lemma Window6(a: byte, b: byte, k: nat)
    requires k < 8
    ensures ByteBit((a << 6) | (b >> 2), k) == if k < 2 then ByteBit(a, k + 6) else ByteBit(b, k - 2)
  {
  }

  lemma Window7(a: byte, b: byte, k: nat)
    requires k < 8
    ensures ByteBit((a << 7) | (b >> 1), k) == if k < 1 then ByteBit(a, k + 7) else ByteBit(b, k - 1)
  {
  }

  // ---------- the L values and the offsets

  function LStar(e: Cipher): Block { e(ZERO) }
  function LDollar(e: Cipher): Block { Double(LStar(e)) }
  function LValue(e: Cipher, i: nat): Block { if i == 0 then Double(LDollar(e)) else Double(LValue(e, i - 1)) }

  /** ocb_ntz: the number of trailing zero bits. */
  function Ntz(k: nat): nat
    requires k > 0
  { if k % 2 == 1 then 0 else 1 + Ntz(k / 2) }

  /** It is the exponent of two in k: what is left is odd. */
  lemma {:induction false} NtzSplits(k: nat) returns (q: nat)
    requires k > 0
    ensures k == Bits.Pow2(Ntz(k)) * (2 * q + 1)
  {
    if k % 2 == 1 {
      q := k / 2;
    } else {
      q := NtzSplits(k / 2);
      TwiceProduct(k, Bits.Pow2(Ntz(k / 2)), 2 * q + 1);
    }
  }

  lemma TwiceProduct(k: nat, p: nat, r: nat)
    requires k % 2 == 0 && k / 2 == p * r
    ensures k == (2 * p) * r
  {
  }

  lemma {:induction false} NtzOf(k: nat, z: nat, q: nat)
    requires k == Bits.Pow2(z) * (2 * q + 1)
    ensures k > 0 && Ntz(k) == z
  {
    if z > 0 {
      HalfProduct(k, Bits.Pow2(z - 1), 2 * q + 1);
      NtzOf(k / 2, z - 1, q);
    }
  }

  lemma HalfProduct(k: nat, p: nat, r: nat)
    requires k == (2 * p) * r
    ensures k % 2 == 0 && k / 2 == p * r
  {
    assert (2 * p) * r == 2 * (p * r);
  }

  /** Section 4.2: Offset_i is Offset_{i-1} xor L_z, where z counts the trailing zeros of i. */
  lemma OffsetRecurs(e: Cipher, o: Block, i: nat, z: nat, q: nat)
    requires i == Bits.Pow2(z) * (2 * q + 1)
    ensures i > 0 && OffsetAt(e, o, i) == Xor(OffsetAt(e, o, i - 1), LValue(e, z))
  {
    NtzOf(i, z, q);
  }

  /** The number of binary digits, less one. */
  function Log2(k: nat): nat
    requires k > 0
  { if k == 1 then 0 else 1 + Log2(k / 2) }

  lemma {:induction false} Log2Is(k: nat)
    requires k > 0
    ensures Bits.Pow2(Log2(k)) <= k < 2 * Bits.Pow2(Log2(k))
  {
    if k > 1 {
      Log2Is(k / 2);
    }
  }

  lemma {:induction false} NtzWithinLog2(k: nat, m: nat)
    requires 0 < k <= m
    ensures Ntz(k) <= Log2(k) <= Log2(m)
  {
    if k > 1 {
      NtzWithinLog2(k / 2, m / 2);
    }
  }

  /** Offset_i, from the given Offset_0. */
  function OffsetAt(e: Cipher, o: Block, i: nat): Block {
    if i == 0 then o else Xor(OffsetAt(e, o, i - 1), LValue(e, Ntz(i)))
  }

  type Offsets = nat -> Block

  function From(e: Cipher, o: Block): Offsets { (i: nat) => OffsetAt(e, o, i) }

  /** The offset after the last block of n bytes, full or not. */
  function FinalOffset(e: Cipher, o: Block, n: nat): Block {
    if n % 16 == 0 then OffsetAt(e, o, n / 16) else Xor(OffsetAt(e, o, n / 16), LStar(e))
  }

  /** The partial last block p with a one bit and zeros appended. */
  function Pad(p: seq<byte>): Block
    requires |p| < 16
  { p + [0x80] + seq(15 - |p|, _ => 0) }

  function Rest(s: seq<byte>): (r: seq<byte>)
    ensures |r| == |s| % 16
  { s[|s| - |s| % 16..] }

  // ---------- section 4.1: HASH

  function HashSum(e: Cipher, off: Offsets, a: seq<byte>, i: nat): Block
    requires 16 * i <= |a|
  {
    if i == 0 then ZERO
    else Xor(HashSum(e, off, a, i - 1), e(Xor(BlockAt(a, i - 1), off(i))))
  }

  function HashWith(e: Cipher, off: Offsets, last: Block, a: seq<byte>): Block {
    var sum := HashSum(e, off, a, |a| / 16);
    if |a| % 16 == 0 then sum else Xor(sum, e(Xor(Pad(Rest(a)), last)))
  }

  function Hash(e: Cipher, a: seq<byte>): Block { HashWith(e, From(e, ZERO), FinalOffset(e, ZERO, |a|), a) }

  // ---------- section 4.2: encryption

  /** The first i blocks under the cipher or, for decryption, its inverse. */
  function CipherBlocks(e: Cipher, off: Offsets, p: seq<byte>, i: nat): (c: seq<byte>)
    requires 16 * i <= |p|
    ensures |c| == 16 * i
  {
    if i == 0 then []
    else CipherBlocks(e, off, p, i - 1) + Xor(e(Xor(BlockAt(p, i - 1), off(i))), off(i))
  }

  function Checksum(p: seq<byte>, i: nat): Block
    requires 16 * i <= |p|
  { if i == 0 then ZERO else Xor(Checksum(p, i - 1), BlockAt(p, i - 1)) }

  function FullChecksum(p: seq<byte>): Block {
    if |p| % 16 == 0 then Checksum(p, |p| / 16) else Xor(Checksum(p, |p| / 16), Pad(Rest(p)))
  }

  /** Full blocks, and then the partial block combined with a pad made from the last offset. */
  function Seal(e: Cipher, off: Offsets, last: Block, p: seq<byte>): (c: seq<byte>)
    ensures |c| == |p|
  { CipherBlocks(e, off, p, |p| / 16) + Xor(e(last)[..|p| % 16], Rest(p)) }

  function Ciphertext(e: Cipher, o: Block, p: seq<byte>): (c: seq<byte>)
    ensures |c| == |p|
  { Seal(e, From(e, o), FinalOffset(e, o, |p|), p) }

  function TagWith(e: Cipher, sum: Block, last: Block, dollar: Block, hash: Block): Block {
    Xor(e(Xor(Xor(sum, last), dollar)), hash)
  }

  function Tag(e: Cipher, o: Block, p: seq<byte>, a: seq<byte>): Block {
    TagWith(e, FullChecksum(p), FinalOffset(e, o, |p|), LDollar(e), Hash(e, a))
  }

  // ---------- section 4.3: decryption

  function Open(e: Cipher, d: Cipher, off: Offsets, last: Block, c: seq<byte>): (p: seq<byte>)
    ensures |p| == |c|
  { CipherBlocks(d, off, c, |c| / 16) + Xor(e(last)[..|c| % 16], Rest(c)) }

  function Plaintext(e: Cipher, d: Cipher, o: Block, c: seq<byte>): (p: seq<byte>)
    ensures |p| == |c|
  { Open(e, d, From(e, o), FinalOffset(e, o, |c|), c) }

  // ---------- the round trip

  lemma {:induction false} CipherBlockAt(e: Cipher, off: Offsets, p: seq<byte>, j: nat, n: nat)
    requires j < n && 16 * n <= |p|
    ensures BlockAt(CipherBlocks(e, off, p, n), j) == Xor(e(Xor(BlockAt(p, j), off(j + 1))), off(j + 1))
    decreases n
  {
    var c0 := CipherBlocks(e, off, p, n - 1);
    var b: Block := Xor(e(Xor(BlockAt(p, n - 1), off(n))), off(n));
    if j == n - 1 {
      BlockAtEnd(c0, b, j);
    } else {
      BlockAtPrefix(c0, b, j);
      CipherBlockAt(e, off, p, j, n - 1);
    }
  }

  lemma OpenBlock(e: Cipher, d: Cipher, b: Block, off: Block)
    requires forall x: Block :: d(e(x)) == x
    ensures Xor(d(Xor(Xor(e(Xor(b, off)), off), off)), off) == b
  {
    var x: Block := Xor(b, off);
    XorTwice(e(x), off);
    assert d(e(x)) == x;
    XorTwice(b, off);
  }

  lemma {:induction false} PlainOfCipher(e: Cipher, d: Cipher, off: Offsets, p: seq<byte>, c: seq<byte>, i: nat)
    requires 16 * i <= |p| == |c| && forall x: Block :: d(e(x)) == x
    requires forall j | 0 <= j < i :: BlockAt(c, j) == Xor(e(Xor(BlockAt(p, j), off(j + 1))), off(j + 1))
    ensures CipherBlocks(d, off, c, i) == p[..16 * i]
  {
    if i > 0 {
      PlainOfCipher(e, d, off, p, c, i - 1);
      assert BlockAt(c, i - 1) == Xor(e(Xor(BlockAt(p, i - 1), off(i))), off(i));
      OpenBlock(e, d, BlockAt(p, i - 1), off(i));
      assert p[..16 * i] == p[..16 * (i - 1)] + BlockAt(p, i - 1);
    }
  }

  lemma XorSwap(k: seq<byte>, r: seq<byte>)
    requires |k| == |r|
    ensures Xor(k, Xor(k, r)) == r
  {
    forall i | 0 <= i < |k| ensures Xor(k, Xor(k, r))[i] == r[i] {
      ByteXorSwap(k[i], r[i]);
    }
  }

  lemma ByteXorSwap(a: byte, b: byte)
    ensures a ^ (a ^ b) == b
  {
  }

  /** The full blocks come back, whatever follows them. */
  lemma BlocksRoundTrip(e: Cipher, d: Cipher, off: Offsets, p: seq<byte>, tail: seq<byte>, m: nat)
    requires 16 * m + |tail| == |p| && forall x: Block :: d(e(x)) == x
    ensures CipherBlocks(d, off, CipherBlocks(e, off, p, m) + tail, m) == p[..16 * m]
  {
    var full := CipherBlocks(e, off, p, m);
    forall j | 0 <= j < m ensures BlockAt(full + tail, j) == Xor(e(Xor(BlockAt(p, j), off(j + 1))), off(j + 1)) {
      BlockAtPrefix(full, tail, j);
      CipherBlockAt(e, off, p, j, m);
    }
    PlainOfCipher(e, d, off, p, full + tail, m);
  }

  lemma OpenParts(e: Cipher, d: Cipher, off: Offsets, last: Block, full: seq<byte>, tail: seq<byte>, m: nat)
    requires |full| == 16 * m && |tail| < 16
    ensures Open(e, d, off, last, full + tail) == CipherBlocks(d, off, full + tail, m) + Xor(e(last)[..|tail|], tail)
  {
    var c := full + tail;
    assert |c| / 16 == m && |c| % 16 == |tail|;
    assert Rest(c) == tail;
  }

  lemma TailRoundTrip(pad: seq<byte>, r: seq<byte>, tail: seq<byte>)
    requires |pad| == |r| && tail == Xor(pad, r)
    ensures Xor(pad, tail) == r
  {
    XorSwap(pad, r);
  }

  lemma SplitAtRest(p: seq<byte>, m: nat)
    requires m == |p| / 16
    ensures p == p[..16 * m] + Rest(p)
  {
  }

  lemma OpenSeal(e: Cipher, d: Cipher, off: Offsets, last: Block, p: seq<byte>)
    requires forall x: Block :: d(e(x)) == x
    ensures Open(e, d, off, last, Seal(e, off, last, p)) == p
  {
    var m, pad := |p| / 16, e(last)[..|p| % 16];
    var full, tail := CipherBlocks(e, off, p, m), Xor(pad, Rest(p));
    OpenParts(e, d, off, last, full, tail, m);
    BlocksRoundTrip(e, d, off, p, tail, m);
    TailRoundTrip(pad, Rest(p), tail);
    SplitAtRest(p, m);
  }

  /** Decryption recovers the message, its partial last block included. */
  lemma PlaintextOfCiphertext(e: Cipher, d: Cipher, o: Block, p: seq<byte>)
    requires forall x: Block :: d(e(x)) == x
    ensures Plaintext(e, d, o, Ciphertext(e, o, p)) == p
  {
    OpenSeal(e, d, From(e, o), FinalOffset(e, o, |p|), p);
  }

  // ---------- the checksum, byte by byte

  /** The checksum loop after i bytes. */
  function ByteSum(p: seq<byte>, i: nat): Block
    requires i <= |p|
  {
    if i == 0 then ZERO
    else
      var s := ByteSum(p, i - 1);
      s[(i - 1) % 16 := s[(i - 1) % 16] ^ p[i - 1]]
  }

  lemma ByteSumStep(p: seq<byte>, j: nat, k: nat)
    requires 16 * j + k < |p| && k < 16
    ensures var s := ByteSum(p, 16 * j + k); ByteSum(p, 16 * j + k + 1) == s[k := s[k] ^ p[16 * j + k]]
  {
    assert (16 * j + k) % 16 == k;
  }

  lemma ByteSumWithin(p: seq<byte>, j: nat, k: nat, t: nat)
    requires 16 * j + k <= |p| && k <= 16 && t < 16
    ensures ByteSum(p, 16 * j + k)[t] == if t < k then ByteSum(p, 16 * j)[t] ^ p[16 * j + t] else ByteSum(p, 16 * j)[t]
  {
    var f := SumsFrom(p, 16 * j, k);
    forall i | 0 <= i < k ensures AddsByte(p, f, 16 * j, i) {
      AddsNext(p, f, j, i);
    }
    AddedBytes(p, f, 16 * j, k, t);
  }

  /** The sums from a place on. */
  lemma SumsFrom(p: seq<byte>, base: nat, k: nat) returns (f: nat -> seq<byte>)
    requires base + k <= |p|
    ensures f(0) == ByteSum(p, base) && f(k) == ByteSum(p, base + k)
    ensures forall i {:trigger f(i)} | 0 <= i <= k :: f(i) == ByteSum(p, base + i)
  {
    f := (i: nat) => if base + i <= |p| then ByteSum(p, base + i) else [];
    assert base + 0 == base;
  }

  lemma AddsNext(p: seq<byte>, f: nat -> seq<byte>, j: nat, i: nat)
    requires i < 16 && 16 * j + i < |p|
    requires f(i) == ByteSum(p, 16 * j + i) && f(i + 1) == ByteSum(p, 16 * j + i + 1)
    ensures AddsByte(p, f, 16 * j, i)
  {
    ByteSumStep(p, j, i);
  }

  ghost predicate AddsByte(p: seq<byte>, f: nat -> seq<byte>, base: nat, i: nat) {
    base + i < |p| && i < 16 == |f(i)| && f(i + 1) == f(i)[i := f(i)[i] ^ p[base + i]]
  }

  lemma {:induction false} AddedBytes(p: seq<byte>, f: nat -> seq<byte>, base: nat, k: nat, t: nat)
    requires base + k <= |p| && k <= 16 && t < 16 && |f(0)| == 16 && forall i | 0 <= i < k :: AddsByte(p, f, base, i)
    ensures |f(k)| == 16 && f(k)[t] == if t < k then f(0)[t] ^ p[base + t] else f(0)[t]
    decreases k
  {
    if k > 0 {
      AddedBytes(p, f, base, k - 1, t);
      assert AddsByte(p, f, base, k - 1);
    }
  }

  lemma ByteSumBlock(p: seq<byte>, j: nat, t: nat, sum: Block, after: Block)
    requires 16 * j + 16 <= |p| && t < 16 && ByteSum(p, 16 * j) == sum && after == ByteSum(p, 16 * j + 16)
    ensures after[t] == sum[t] ^ BlockAt(p, j)[t]
  {
    ByteSumWithin(p, j, 16, t);
  }

  lemma {:induction false} ByteSumIsChecksum(p: seq<byte>, j: nat)
    requires 16 * j <= |p|
    ensures ByteSum(p, 16 * j) == Checksum(p, j)
  {
    if j > 0 {
      ByteSumIsChecksum(p, j - 1);
      var next: Block := Xor(Checksum(p, j - 1), BlockAt(p, j - 1));
      forall t | 0 <= t < 16 ensures ByteSum(p, 16 * j)[t] == next[t] {
        ByteSumBlock(p, j - 1, t, Checksum(p, j - 1), ByteSum(p, 16 * j));
      }
      assert ByteSum(p, 16 * j) == next;
    }
  }
}
