/** SM4_OCB_Encrypt and SM4_OCB_Decrypt on arrays, and their helpers. */
module OcbCode {
  import opened Splice
  import opened Sm4
  import opened Blocks
  import opened Ocb

  // ---------- the table of L values

  /** Rewrites s[off..off + n] in place, each byte from two adjacent ones at or to the right of it. */
  method RewritePairs(f: (byte, byte) -> byte, s: array<byte>, off: nat, q: nat, n: nat)
    requires off + q + n < s.Length
    modifies s
    ensures s[..] == Put(old(s[..]), off, Pairs(f, old(s[off..]), q, n))
  {
    ghost var b := s[off..];
    ghost var r := Pairs(f, b, q, n);
    var i := 0;
    while i < n
      invariant 0 <= i <= n
      invariant forall k | 0 <= k < i :: s[off + k] == r[k]
      invariant forall k | 0 <= k < s.Length && !(off <= k < off + i) :: s[k] == old(s[k])
    {
      assert s[off + i + q] == b[i + q] && s[off + i + q + 1] == b[i + q + 1];
      s[off + i] := f(s[off + i + q], s[off + i + q + 1]);
      i := i + 1;
    }
    assert s[off..off + n] == r;
  }

  /** double_arr, in place. */
  method DoubleArr(s: array<byte>, off: nat)
    requires off + 16 <= s.Length
    modifies s
    ensures s[..] == Put(old(s[..]), off, Double(old(s[off..off + 16])))
  {
    ghost var b: Block, before := s[off..off + 16], s[..];
    var first := s[off];
    RewritePairs(Carry, s, off, 0, 15);
    assert Pairs(Carry, before[off..], 0, 15) == Pairs(Carry, b, 0, 15);
    CopyInto([Fold(s[off + 15], first)], s, off + 15);
    PutAppend(before, off, Pairs(Carry, b, 0, 15), [Fold(b[15], b[0])]);
  }

  /** The first n rows of l are L_0, L_1, ... */
  ghost predicate TableOk(l: seq<byte>, e: Cipher, n: nat) {
    16 * n <= |l| && forall i | 0 <= i < n :: BlockAt(l, i) == LValue(e, i)
  }

  /** The setup both functions share: L_*, L_$ and the table. */
  method BuildTable(sbox: Sbox, key: array<byte>, l: array<byte>, n: nat, lStar: array<byte>, lDollar: array<byte>,
                    ghost e: Cipher, ghost d: Cipher)
    requires key.Length == 16 && lStar.Length == 16 && lDollar.Length == 16 && l.Length == 16 * n && n > 0
    requires key != lStar && key != lDollar && key != l && lStar != lDollar && l != lStar && l != lDollar
    requires IsSm4(e, d, sbox, key[..]) && lStar[..] == ZERO
    modifies l, lStar, lDollar
    ensures lStar[..] == LStar(e) && lDollar[..] == LDollar(e) && TableOk(l[..], e, n)
  {
    assert lStar[0..16] == lStar[..];
    EncryptInPlace(sbox, key, lStar, 0, e, d);
    FirstRow(l, lStar, lDollar, e);
    var i := 1;
    while i < n
      invariant 1 <= i <= n && TableOk(l[..], e, i)
      modifies l
    {
      NextRow(l, i, e);
      i := i + 1;
    }
  }

  method FirstRow(l: array<byte>, lStar: array<byte>, lDollar: array<byte>, ghost e: Cipher)
    requires lStar.Length == 16 && lDollar.Length == 16 && l.Length >= 16
    requires lStar != lDollar && l != lStar && l != lDollar && lStar[..] == LStar(e)
    modifies l, lDollar
    ensures lDollar[..] == LDollar(e) && TableOk(l[..], e, 1)
  {
    DollarRow(l, lStar, lDollar, LStar(e));
    DoubleFront(l, LDollar(e));
    RowZero(l[..], e, l[0..16]);
  }

  /** L_$ in its own block and in the first row. */
  method DollarRow(l: array<byte>, lStar: array<byte>, lDollar: array<byte>, ghost star: Block)
    requires lStar.Length == 16 && lDollar.Length == 16 && l.Length >= 16
    requires lStar != lDollar && l != lStar && l != lDollar && lStar[..] == star
    modifies l, lDollar
    ensures lDollar[..] == Double(star) && l[0..16] == Double(star)
  {
    CopyInto(lStar[..], l, 0);
    assert l[0..16] == star;
    DoubleFront(l, star);
    CopyInto(l[0..16], lDollar, 0);
  }

  lemma RowZero(l: seq<byte>, e: Cipher, row: Block)
    requires |l| >= 16 && l[0..16] == row && row == LValue(e, 0)
    ensures TableOk(l, e, 1)
  {
    assert BlockAt(l, 0) == row;
  }

  /** Doubles the first row. */
  method DoubleFront(l: array<byte>, ghost b: Block)
    requires l.Length >= 16 && l[0..16] == b
    modifies l
    ensures l[0..16] == Double(b)
  {
    DoubleArr(l, 0);
  }

  method NextRow(l: array<byte>, i: nat, ghost e: Cipher)
    requires 0 < i && 16 * i + 16 <= l.Length && TableOk(l[..], e, i)
    modifies l
    ensures TableOk(l[..], e, i + 1)
  {
    ghost var l0 := l[..];
    CopyInto(l[16 * i - 16..16 * i], l, 16 * i);
    ghost var l1 := l[..];
    DoubleArr(l, 16 * i);
    RowStep(l0, l1, l[..], i, e);
  }

  lemma RowStep(l0: seq<byte>, l1: seq<byte>, l2: seq<byte>, i: nat, e: Cipher)
    requires 0 < i && 16 * i + 16 <= |l0| && TableOk(l0, e, i)
    requires l1 == Put(l0, 16 * i, l0[16 * i - 16..16 * i]) && l2 == Put(l1, 16 * i, Double(l1[16 * i..16 * i + 16]))
    ensures TableOk(l2, e, i + 1)
  {
    var prev: Block := BlockAt(l0, i - 1);
    assert l0[16 * i - 16..16 * i] == prev == LValue(e, i - 1);
    BlockAtPut(l0, i, prev, i);
    forall j | 0 <= j < i + 1 ensures BlockAt(l2, j) == LValue(e, j) {
      BlockAtPut(l0, i, prev, j);
      BlockAtPut(l1, i, Double(prev), j);
    }
  }

  /** SM4_Encrypt with the same block as input and output. */
  method EncryptInPlace(sbox: Sbox, key: array<byte>, a: array<byte>, off: nat, ghost e: Cipher, ghost d: Cipher)
    requires key.Length == 16 && off + 16 <= a.Length && key != a && IsSm4(e, d, sbox, key[..])
    modifies a
    ensures a[..] == Put(old(a[..]), off, e(old(a[off..off + 16])))
  {
    EncryptAt(sbox, key, a, off, a, off, e, d);
  }

  // ---------- the initial offset

  /** Zeros, a one bit, and the nonce. */
  method LoadNonce(nonce: array<byte>, offset: array<byte>)
    requires nonce.Length <= 15 && offset.Length == 24 && nonce != offset && forall i | 0 <= i < 24 :: offset[i] == 0
    modifies offset
    ensures offset[..16] == NonceBlock(nonce[..])
  {
    var index := 15 - nonce.Length;
    offset[index] := offset[index] | 1;
    CopyInto(nonce[..], offset, index + 1);
  }

  /** The byte extension: offset[16..24] becomes offset[0..8] xor offset[1..9]. */
  method Extend(offset: array<byte>)
    requires offset.Length == 24
    modifies offset
    ensures offset[..] == Stretch(old(offset[..16]))
  {
    ghost var k: Block := offset[..16];
    CopyInto(offset[0..8], offset, 16);
    var i := 0;
    while i < 8
      invariant 0 <= i <= 8 && forall t | 0 <= t < 16 :: offset[t] == k[t]
      invariant forall t | 16 <= t < 24 :: offset[t] == if t - 16 < i then k[t - 16] ^ k[t - 15] else k[t - 16]
    {
      offset[16 + i] := offset[16 + i] ^ offset[i + 1];
      i := i + 1;
    }
    assert offset[16..] == Xor(k[..8], k[1..9]);
    assert offset[..] == offset[..16] + offset[16..];
  }

  /** Offset_0 from the nonce. */
  method InitOffset(sbox: Sbox, key: array<byte>, nonce: array<byte>, offset: array<byte>, ghost e: Cipher,
                    ghost d: Cipher)
    requires key.Length == 16 && nonce.Length <= 15 && offset.Length == 24 && key != offset && nonce != offset
    requires IsSm4(e, d, sbox, key[..]) && forall i | 0 <= i < 24 :: offset[i] == 0
    modifies offset
    ensures offset[..16] == Offset0(e, nonce[..])
  {
    var bottom := LoadTop(nonce, offset);
    ghost var top: Block := offset[0..16];
    EncryptInPlace(sbox, key, offset, 0, e, d);
    assert offset[..16] == e(top) == Ktop(e, nonce[..]);
    Extend(offset);
    ShiftLeft(offset, bottom);
  }

  /** The nonce block without its low six bits, and those bits. */
  method LoadTop(nonce: array<byte>, offset: array<byte>) returns (bottom: nat)
    requires nonce.Length <= 15 && offset.Length == 24 && nonce != offset && forall i | 0 <= i < 24 :: offset[i] == 0
    modifies offset
    ensures bottom == Bottom(nonce[..]) < 64
    ensures var b := NonceBlock(nonce[..]); offset[0..16] == b[..15] + [b[15] ^ (b[15] % 64)]
  {
    LoadNonce(nonce, offset);
    ghost var b := NonceBlock(nonce[..]);
    var low := offset[15] % 64;
    ByteMod(offset[15]);
    bottom := low as int;
    offset[15] := offset[15] ^ low;
    assert offset[..15] == b[..15];
  }

  method ShiftLeft(offset: array<byte>, bottom: nat)
    requires offset.Length == 24 && bottom < 64
    modifies offset
    ensures offset[..16] == Shifted(old(offset[..]), bottom)
  {
    ghost var s := offset[..];
    assert offset[0..] == s;
    RewritePairs((a: byte, b: byte) => Window(a, b, bottom % 8), offset, 0, bottom / 8, 16);
    assert offset[..16] == Pairs((a: byte, b: byte) => Window(a, b, bottom % 8), s, bottom / 8, 16);
  }

  // ---------- running offsets

  /** The table holds what the next m offsets need, inside its bounds. */
  ghost predicate TableFor(l: seq<byte>, off: Offsets, m: nat) {
    forall i | 1 <= i <= m :: Advances(l, off, i)
  }

  /** Offset i follows from the one before it and a row of the table. */
  ghost predicate Advances(l: seq<byte>, off: Offsets, i: nat) {
    i > 0 && 16 * Ntz(i) + 16 <= |l| && off(i) == Xor(off(i - 1), BlockAt(l, Ntz(i)))
  }

  /** A table with more than log2 m rows serves m blocks, from any initial offset. */
  lemma TableServes(l: seq<byte>, e: Cipher, n: nat, o: Block, m: nat)
    requires TableOk(l, e, n) && (m > 0 ==> Log2(m) < n)
    ensures TableFor(l, From(e, o), m)
  {
    forall i | 1 <= i <= m ensures Advances(l, From(e, o), i) {
      NtzWithinLog2(i, m);
      TableRow(l, e, n, Ntz(i));
      OffsetStep(e, o, i);
    }
  }

  lemma OffsetStep(e: Cipher, o: Block, i: nat)
    requires i > 0
    ensures From(e, o)(i) == Xor(From(e, o)(i - 1), LValue(e, Ntz(i)))
  {
  }

  lemma TableRow(l: seq<byte>, e: Cipher, n: nat, k: nat)
    requires TableOk(l, e, n) && k < n
    ensures 16 * k + 16 <= |l| && BlockAt(l, k) == LValue(e, k)
  {
  }

  method BumpOffset(offset: array<byte>, l: array<byte>, i: nat, ghost off: Offsets, ghost m: nat)
    requires offset.Length >= 16 && offset != l && i < m && TableFor(l[..], off, m) && offset[..16] == off(i)
    modifies offset
    ensures offset[..16] == off(i + 1)
  {
    assert Advances(l[..], off, i + 1);
    var k := Ntz(i + 1);
    assert l[16 * k..16 * k + 16] == BlockAt(l[..], k);
    assert offset[0..16] == offset[..16];
    XorInto(offset, 0, l[16 * k..16 * k + 16]);
  }

  // ---------- hash

  /** hash: section 4.1 on the associated data, with the table of the caller. */
  method HashData(sbox: Sbox, key: array<byte>, ad: array<byte>, l: array<byte>, lStar: array<byte>, out: array<byte>,
                  ghost e: Cipher, ghost d: Cipher, ghost off: Offsets, ghost last: Block)
    requires key.Length == 16 && lStar.Length == 16 && out.Length >= 16
    requires out != key && out != ad && out != l && out != lStar && IsSm4(e, d, sbox, key[..])
    requires off(0) == ZERO && TableFor(l[..], off, ad.Length / 16)
    requires last == if ad.Length % 16 == 0 then off(ad.Length / 16) else Xor(off(ad.Length / 16), lStar[..])
    modifies out
    ensures out[..16] == HashWith(e, off, last, ad[..])
  {
    var offset, temp := new byte[16](_ => 0), new byte[16](_ => 0);
    ghost var a := ad[..];
    Clear(out);
    var m := ad.Length / 16;
    assert offset[..] == ZERO;
    HashBlocks(sbox, key, ad, l, out, offset, temp, m, e, d, off, a);
    if ad.Length % 16 > 0 {
      HashTail(sbox, key, ad, lStar, out, offset, temp, e, d, off(m), HashSum(e, off, a, m));
    }
  }

  /** Its loop over the full blocks. */
  method HashBlocks(sbox: Sbox, key: array<byte>, ad: array<byte>, l: array<byte>, out: array<byte>,
                    offset: array<byte>, temp: array<byte>, m: nat, ghost e: Cipher, ghost d: Cipher,
                    ghost off: Offsets, ghost a: seq<byte>)
    requires key.Length == 16 && offset.Length == 16 && temp.Length == 16 && out.Length >= 16
    requires out != key && out != ad && out != l && offset != key && offset != ad && offset != l && offset != out
    requires temp != key && temp != ad && temp != l && temp != out && temp != offset
    requires IsSm4(e, d, sbox, key[..]) && TableFor(l[..], off, m) && a == ad[..] && m == ad.Length / 16
    requires offset[..16] == off(0) && out[..16] == ZERO
    modifies out, offset, temp
    ensures offset[..16] == off(m) && out[..16] == HashSum(e, off, a, m)
  {
    var i := 0;
    while i < m
      invariant 0 <= i <= m && offset[..16] == off(i) && out[..16] == HashSum(e, off, a, i)
    {
      HashRound(sbox, key, ad, l, out, offset, temp, i, e, d, off, m);
      i := i + 1;
    }
  }

  method Clear(out: array<byte>)
    requires out.Length >= 16
    modifies out
    ensures out[..16] == ZERO
  {
    CopyInto(ZERO, out, 0);
  }

  /** One full block of associated data. */
  method HashRound(sbox: Sbox, key: array<byte>, ad: array<byte>, l: array<byte>, out: array<byte>,
                   offset: array<byte>, temp: array<byte>, i: nat, ghost e: Cipher, ghost d: Cipher, ghost off: Offsets,
                   ghost m: nat)
    requires key.Length == 16 && offset.Length == 16 && temp.Length == 16 && out.Length >= 16
    requires out != key && out != ad && out != l && offset != key && offset != ad && offset != l && offset != out
    requires temp != key && temp != ad && temp != l && temp != out && temp != offset
    requires IsSm4(e, d, sbox, key[..]) && i < m && m == ad.Length / 16 && TableFor(l[..], off, m)
    requires offset[..16] == off(i) && out[..16] == HashSum(e, off, ad[..], i)
    modifies out, offset, temp
    ensures offset[..16] == off(i + 1) && out[..16] == HashSum(e, off, ad[..], i + 1)
  {
    ghost var a := ad[..];
    CopyInto(ad[i * 16..i * 16 + 16], temp, 0);
    assert temp[..] == BlockAt(a, i);
    BumpOffset(offset, l, i, off, m);
    AbsorbBlock(sbox, key, out, offset, temp, e, d);
  }

  /** Encrypts temp xor offset and adds the result to out. */
  method AbsorbBlock(sbox: Sbox, key: array<byte>, out: array<byte>, offset: array<byte>, temp: array<byte>,
                     ghost e: Cipher, ghost d: Cipher)
    requires key.Length == 16 && offset.Length >= 16 && temp.Length == 16 && out.Length >= 16
    requires out != key && offset != out && temp != key && temp != out && temp != offset && IsSm4(e, d, sbox, key[..])
    modifies out, temp
    ensures out[..16] == Xor(old(out[..16]), e(Xor(old(temp[..]), offset[..16])))
  {
    assert temp[0..16] == temp[..] && out[0..16] == out[..16];
    XorInto(temp, 0, offset[..16]);
    assert temp[0..16] == temp[..];
    EncryptInPlace(sbox, key, temp, 0, e, d);
    XorInto(out, 0, temp[..]);
  }

  /** The partial last block of associated data. */
  method HashTail(sbox: Sbox, key: array<byte>, ad: array<byte>, lStar: array<byte>, out: array<byte>,
                  offset: array<byte>, temp: array<byte>, ghost e: Cipher, ghost d: Cipher, ghost o: Block,
                  ghost sum: Block)
    requires key.Length == 16 && lStar.Length == 16 && offset.Length == 16 && temp.Length == 16 && out.Length >= 16
    requires out != key && out != ad && out != lStar && offset != key && offset != ad && offset != lStar
    requires offset != out
    requires temp != key && temp != ad && temp != lStar && temp != out && temp != offset && IsSm4(e, d, sbox, key[..])
    requires ad.Length % 16 > 0 && offset[..16] == o && out[..16] == sum
    modifies out, offset, temp
    ensures out[..16] == Xor(sum, e(Xor(Pad(Rest(ad[..])), Xor(o, lStar[..]))))
  {
    var k := ad.Length % 16;
    assert offset[0..16] == offset[..16];
    XorInto(offset, 0, lStar[..]);
    assert offset[..16] == Xor(o, lStar[..]);
    CopyInto(ad[ad.Length - k..] + [0x80] + seq(15 - k, _ => 0), temp, 0);
    assert temp[..] == Pad(Rest(ad[..]));
    AbsorbBlock(sbox, key, out, offset, temp, e, d);
  }

  // ---------- the message

  /** The block loop of both functions: each block of `out` is combined with its offset, put through
      the cipher or its inverse, and combined again. */
  method BlockLoop(sbox: Sbox, key: array<byte>, decrypt: bool, out: array<byte>, offset: array<byte>, l: array<byte>,
                   m: nat, ghost p: seq<byte>, ghost e: Cipher, ghost d: Cipher, ghost f: Cipher, ghost off: Offsets)
    requires key.Length == 16 && offset.Length >= 16 && 16 * m <= out.Length && 16 * m <= |p|
    requires out != key && out != l && out != offset && offset != key && offset != l
    requires IsSm4(e, d, sbox, key[..]) && f == (if decrypt then d else e)
    requires TableFor(l[..], off, m) && offset[..16] == off(0) && out[..16 * m] == p[..16 * m]
    modifies out, offset
    ensures offset[..16] == off(m) && out[..] == Put(old(out[..]), 0, CipherBlocks(f, off, p, m))
  {
    ghost var before := out[..];
    ghost var to := BufferFor(before, p, f, off, m);
    BlockLoopTo(sbox, key, decrypt, out, offset, l, m, before, p, e, d, f, off, to);
  }

  lemma BufferFor(before: seq<byte>, p: seq<byte>, f: Cipher, off: Offsets, m: nat) returns (to: nat -> seq<byte>)
    requires 16 * m <= |before| && 16 * m <= |p|
    ensures Buffers(to, before, p, f, off, m) && to(0) == before && to(m) == Put(before, 0, CipherBlocks(f, off, p, m))
  {
    to := (i: nat) => if 16 * i <= |before| && 16 * i <= |p| then Put(before, 0, CipherBlocks(f, off, p, i)) else [];
    PutNothing(before);
  }

  /** `to` is what the buffer holds after each number of blocks. */
  ghost predicate Buffers(to: nat -> seq<byte>, before: seq<byte>, p: seq<byte>, f: Cipher, off: Offsets, m: nat)
    requires 16 * m <= |before| && 16 * m <= |p|
  {
    forall i {:trigger CipherBlocks(f, off, p, i)} | 0 <= i <= m :: to(i) == Put(before, 0, CipherBlocks(f, off, p, i))
  }

  method BlockLoopTo(sbox: Sbox, key: array<byte>, decrypt: bool, out: array<byte>, offset: array<byte>, l: array<byte>,
                     m: nat, ghost before: seq<byte>, ghost p: seq<byte>, ghost e: Cipher, ghost d: Cipher,
                     ghost f: Cipher, ghost off: Offsets, ghost to: nat -> seq<byte>)
    requires key.Length == 16 && offset.Length >= 16 && 16 * m <= out.Length == |before| && 16 * m <= |p|
    requires out != key && out != l && out != offset && offset != key && offset != l
    requires IsSm4(e, d, sbox, key[..]) && f == (if decrypt then d else e) && before[..16 * m] == p[..16 * m]
    requires TableFor(l[..], off, m) && offset[..16] == off(0) && out[..] == to(0) && Buffers(to, before, p, f, off, m)
    modifies out, offset
    ensures offset[..16] == off(m) && out[..] == to(m)
  {
    var i := 0;
    while i < m
      invariant 0 <= i <= m && offset[..16] == off(i) && out[..] == to(i)
    {
      BlockTurn(sbox, key, decrypt, out, offset, l, i, m, before, p, e, d, f, off, to);
      i := i + 1;
    }
  }

  method BlockTurn(sbox: Sbox, key: array<byte>, decrypt: bool, out: array<byte>, offset: array<byte>, l: array<byte>,
                   i: nat, ghost m: nat, ghost before: seq<byte>, ghost p: seq<byte>, ghost e: Cipher, ghost d: Cipher,
                   ghost f: Cipher, ghost off: Offsets, ghost to: nat -> seq<byte>)
    requires key.Length == 16 && offset.Length >= 16 && i < m && 16 * m <= out.Length == |before| && 16 * m <= |p|
    requires out != key && out != l && out != offset && offset != key && offset != l
    requires IsSm4(e, d, sbox, key[..]) && f == (if decrypt then d else e) && before[..16 * m] == p[..16 * m]
    requires TableFor(l[..], off, m) && offset[..16] == off(i) && out[..] == to(i) && Buffers(to, before, p, f, off, m)
    modifies out, offset
    ensures offset[..16] == off(i + 1) && out[..] == to(i + 1)
  {
    assert to(i) == Put(before, 0, CipherBlocks(f, off, p, i));
    BlockStep(sbox, key, decrypt, out, offset, l, i, m, before, p, e, d, f, off);
  }

  method BlockStep(sbox: Sbox, key: array<byte>, decrypt: bool, out: array<byte>, offset: array<byte>, l: array<byte>,
                   i: nat, ghost m: nat, ghost before: seq<byte>, ghost p: seq<byte>, ghost e: Cipher, ghost d: Cipher,
                   ghost f: Cipher, ghost off: Offsets)
    requires key.Length == 16 && offset.Length >= 16 && i < m && 16 * m <= out.Length == |before| && 16 * m <= |p|
    requires out != key && out != l && out != offset && offset != key && offset != l
    requires IsSm4(e, d, sbox, key[..]) && f == (if decrypt then d else e) && before[..16 * m] == p[..16 * m]
    requires TableFor(l[..], off, m) && offset[..16] == off(i) && out[..] == Put(before, 0, CipherBlocks(f, off, p, i))
    modifies out, offset
    ensures offset[..16] == off(i + 1) && out[..] == Put(before, 0, CipherBlocks(f, off, p, i + 1))
  {
    ShorterPrefix(before, p, 16 * m, 16 * i + 16);
    BumpOffset(offset, l, i, off, m);
    BlockRound(sbox, key, decrypt, out, offset, i, before, p, e, d, f, off);
  }

  lemma PutNothing(s: seq<byte>)
    ensures Put(s, 0, []) == s
  {
  }

  lemma ShorterPrefix(a: seq<byte>, b: seq<byte>, n: nat, k: nat)
    requires k <= n <= |a| && n <= |b| && a[..n] == b[..n]
    ensures a[..k] == b[..k]
  {
    assert a[..k] == a[..n][..k] && b[..k] == b[..n][..k];
  }

  method BlockRound(sbox: Sbox, key: array<byte>, decrypt: bool, out: array<byte>, offset: array<byte>, i: nat,
                    ghost before: seq<byte>, ghost p: seq<byte>, ghost e: Cipher, ghost d: Cipher, ghost f: Cipher,
                    ghost off: Offsets)
    requires key.Length == 16 && offset.Length >= 16 && out != key && out != offset
    requires IsSm4(e, d, sbox, key[..]) && f == if decrypt then d else e
    requires 16 * i + 16 <= out.Length == |before| && 16 * i + 16 <= |p| && before[..16 * i + 16] == p[..16 * i + 16]
    requires offset[..16] == off(i + 1) && out[..] == Put(before, 0, CipherBlocks(f, off, p, i))
    modifies out
    ensures out[..] == Put(before, 0, CipherBlocks(f, off, p, i + 1))
  {
    ghost var x := out[16 * i..16 * i + 16];
    CryptWithOffset(sbox, key, decrypt, out, 16 * i, offset, e, d, f);
    RoundStep(before, p, f, off, i, x, out[..]);
  }

  lemma RoundStep(before: seq<byte>, p: seq<byte>, f: Cipher, off: Offsets, i: nat, x: Block, after: seq<byte>)
    requires 16 * i + 16 <= |before| && 16 * i + 16 <= |p| && before[..16 * i + 16] == p[..16 * i + 16]
    requires x == Put(before, 0, CipherBlocks(f, off, p, i))[16 * i..16 * i + 16]
    requires after == Put(Put(before, 0, CipherBlocks(f, off, p, i)), 16 * i, Xor(f(Xor(x, off(i + 1))), off(i + 1)))
    ensures after == Put(before, 0, CipherBlocks(f, off, p, i + 1))
  {
    assert x == before[..16 * i + 16][16 * i..] == BlockAt(p, i);
    PutAppend(before, 0, CipherBlocks(f, off, p, i), Xor(f(Xor(x, off(i + 1))), off(i + 1)));
  }

  method CryptWithOffset(sbox: Sbox, key: array<byte>, decrypt: bool, out: array<byte>, at: nat, offset: array<byte>,
                         ghost e: Cipher, ghost d: Cipher, ghost f: Cipher)
    requires key.Length == 16 && offset.Length >= 16 && out != key && out != offset && at + 16 <= out.Length
    requires IsSm4(e, d, sbox, key[..]) && f == if decrypt then d else e
    modifies out
    ensures out[..] == Put(old(out[..]), at, Xor(f(Xor(old(out[at..at + 16]), offset[..16])), offset[..16]))
  {
    ghost var s, x: Block, o: Block := out[..], out[at..at + 16], offset[..16];
    XorInto(out, at, offset[..16]);
    PutAgain(s, at, Xor(x, o), f(Xor(x, o)));
    CryptAt(sbox, key, decrypt, out, at, e, d, f);
    PutAgain(s, at, f(Xor(x, o)), Xor(f(Xor(x, o)), o));
    XorInto(out, at, offset[..16]);
  }

  /** What has been put is there, and putting again replaces it. */
  lemma PutAgain(s: seq<byte>, at: nat, a: seq<byte>, b: seq<byte>)
    requires at + |a| <= |s| && |a| == |b|
    ensures Put(s, at, a)[at..at + |a|] == a && Put(Put(s, at, a), at, b) == Put(s, at, b)
  {
  }

  method CryptAt(sbox: Sbox, key: array<byte>, decrypt: bool, out: array<byte>, at: nat,
                 ghost e: Cipher, ghost d: Cipher, ghost f: Cipher)
    requires key.Length == 16 && out != key && at + 16 <= out.Length
    requires IsSm4(e, d, sbox, key[..]) && f == if decrypt then d else e
    modifies out
    ensures out[..] == Put(old(out[..]), at, f(old(out[at..at + 16])))
  {
    if decrypt {
      DecryptAt(sbox, key, out, at, out, at, e, d);
    } else {
      EncryptAt(sbox, key, out, at, out, at, e, d);
    }
  }

  /** The checksum loop over the full blocks. */
  method SumBlocks(message: array<byte>, m: nat, checksum: array<byte>)
    requires checksum.Length == 16 && checksum[..] == ZERO && 16 * m <= message.Length && message != checksum
    modifies checksum
    ensures checksum[..] == Checksum(message[..], m)
  {
    ghost var p := message[..];
    var i := 0;
    while i < 16 * m
      invariant 0 <= i <= 16 * m && checksum[..] == ByteSum(p, i)
    {
      checksum[i % 16] := checksum[i % 16] ^ message[i];
      i := i + 1;
    }
    ByteSumIsChecksum(p, m);
  }

  /** Adds the padded partial block to the checksum. */
  method SumTail(tail: seq<byte>, checksum: array<byte>)
    requires checksum.Length == 16 && |tail| < 16
    modifies checksum
    ensures checksum[..] == Xor(old(checksum[..]), Pad(tail))
  {
    ghost var c: Block := checksum[..];
    SumBytes(tail, checksum);
    checksum[|tail|] := checksum[|tail|] ^ 0x80;
    Padded(c, tail, checksum[..]);
  }

  method SumBytes(tail: seq<byte>, checksum: array<byte>)
    requires checksum.Length == 16 && |tail| < 16
    modifies checksum
    ensures forall t | 0 <= t < 16 :: checksum[t] == if t < |tail| then old(checksum[t]) ^ tail[t] else old(checksum[t])
  {
    var i := 0;
    while i < |tail|
      invariant 0 <= i <= |tail|
      invariant forall t | 0 <= t < 16 :: checksum[t] == if t < i then old(checksum[t]) ^ tail[t] else old(checksum[t])
    {
      checksum[i] := checksum[i] ^ tail[i];
      i := i + 1;
    }
  }

  lemma Padded(c: Block, tail: seq<byte>, r: seq<byte>)
    requires |tail| < 16 == |r|
    requires forall t | 0 <= t < |tail| :: r[t] == c[t] ^ tail[t]
    requires r[|tail|] == c[|tail|] ^ 0x80 && forall t | |tail| < t < 16 :: r[t] == c[t]
    ensures r == Xor(c, Pad(tail))
  {
    forall t | 0 <= t < 16 ensures r[t] == Xor(c, Pad(tail))[t] {
      if t > |tail| {
        XorZero(c[t]);
      }
    }
  }

  lemma XorZero(b: byte)
    ensures b ^ 0 == b
  {
  }

  /** The tag from the checksum, the last offset and the hash of the associated data. */
  method FinishTag(sbox: Sbox, key: array<byte>, ad: array<byte>, l: array<byte>, lStar: array<byte>,
                   lDollar: array<byte>, checksum: array<byte>, offset: array<byte>, ghost e: Cipher, ghost d: Cipher,
                   ghost hoff: Offsets, ghost hlast: Block)
    requires key.Length == 16 && lStar.Length == 16 && lDollar.Length == 16 && checksum.Length == 16
    requires offset.Length >= 16
    requires checksum != key && checksum != ad && checksum != l && checksum != lStar && checksum != lDollar
    requires checksum != offset
    requires offset != key && offset != ad && offset != l && offset != lStar && offset != lDollar
    requires IsSm4(e, d, sbox, key[..]) && hoff(0) == ZERO && TableFor(l[..], hoff, ad.Length / 16)
    requires hlast == if ad.Length % 16 == 0 then hoff(ad.Length / 16) else Xor(hoff(ad.Length / 16), lStar[..])
    modifies checksum, offset
    ensures checksum[..] ==
      TagWith(e, old(checksum[..]), old(offset[..16]), lDollar[..], HashWith(e, hoff, hlast, ad[..]))
  {
    ghost var c: Block, o: Block := checksum[..], offset[..16];
    assert checksum[0..16] == c;
    XorInto(checksum, 0, offset[..16]);
    assert checksum[0..16] == Xor(c, o);
    XorInto(checksum, 0, lDollar[..]);
    assert checksum[0..16] == Xor(Xor(c, o), lDollar[..]);
    EncryptInPlace(sbox, key, checksum, 0, e, d);
    assert checksum[0..16] == e(Xor(Xor(c, o), lDollar[..]));
    HashData(sbox, key, ad, l, lStar, offset, e, d, hoff, hlast);
    XorInto(checksum, 0, offset[..16]);
  }

  /** The partial last block: the bytes of `src` from `at` on, combined with a pad from the offset,
      which also takes in L_*. */
  method MaskTail(sbox: Sbox, key: array<byte>, src: array<byte>, out: array<byte>, at: nat, offset: array<byte>,
                  lStar: array<byte>, ghost e: Cipher, ghost d: Cipher)
    requires key.Length == 16 && lStar.Length == 16 && offset.Length >= 16 && at < src.Length < at + 16
    requires at + 16 <= out.Length && IsSm4(e, d, sbox, key[..])
    requires out != key && out != src && out != offset && out != lStar && offset != key && offset != src
    requires offset != lStar
    modifies out, offset
    ensures offset[..16] == Xor(old(offset[..16]), lStar[..])
    ensures out[at..src.Length] == Xor(e(offset[..16])[..src.Length - at], src[at..])
    ensures out[..at] == old(out[..at]) && out[at + 16..] == old(out[at + 16..])
  {
    assert offset[0..16] == offset[..16];
    XorInto(offset, 0, lStar[..]);
    ghost var last: Block := offset[..16];
    CopyInto(offset[..16], out, at);
    assert out[at..at + 16] == last;
    EncryptInPlace(sbox, key, out, at, e, d);
    ghost var pad: Block := e(last);
    assert out[at..at + 16] == pad;
    XorTail(src, out, at, pad);
  }

  method XorTail(src: array<byte>, out: array<byte>, at: nat, ghost pad: Block)
    requires at < src.Length < at + 16 && at + 16 <= out.Length && out != src && out[at..at + 16] == pad
    modifies out
    ensures out[at..src.Length] == Xor(pad[..src.Length - at], src[at..])
    ensures out[..at] == old(out[..at]) && out[at + 16..] == old(out[at + 16..])
  {
    ghost var before := out[..];
    assert forall t | 0 <= t < 16 :: before[at + t] == out[at..at + 16][t] == pad[t];
    XorFrom(src, out, at);
    Tail(before, out[..], at, src[..], pad);
  }

  method XorFrom(src: array<byte>, out: array<byte>, at: nat)
    requires at <= src.Length <= out.Length && out != src
    modifies out
    ensures forall t | at <= t < src.Length :: out[t] == old(out[t]) ^ src[t]
    ensures forall t | 0 <= t < out.Length && !(at <= t < src.Length) :: out[t] == old(out[t])
  {
    var i := at;
    while i < src.Length
      invariant at <= i <= src.Length
      invariant forall t | at <= t < i :: out[t] == old(out[t]) ^ src[t]
      invariant forall t | 0 <= t < out.Length && !(at <= t < i) :: out[t] == old(out[t])
    {
      out[i] := out[i] ^ src[i];
      i := i + 1;
    }
  }

  lemma Tail(before: seq<byte>, after: seq<byte>, at: nat, src: seq<byte>, pad: Block)
    requires at < |src| < at + 16 <= |before| == |after| && forall t | 0 <= t < 16 :: before[at + t] == pad[t]
    requires forall t | at <= t < |src| :: after[t] == before[t] ^ src[t]
    requires forall t | 0 <= t < |after| && !(at <= t < |src|) :: after[t] == before[t]
    ensures after[at..|src|] == Xor(pad[..|src| - at], src[at..])
    ensures after[..at] == before[..at] && after[at + 16..] == before[at + 16..]
  {
    forall t | 0 <= t < |src| - at ensures after[at..|src|][t] == Xor(pad[..|src| - at], src[at..])[t] {
      assert before[at + t] == pad[t];
    }
  }

  /** The checksum of a message, its padded tail included. */
  method SumMessage(p: array<byte>, checksum: array<byte>)
    requires checksum.Length == 16 && checksum[..] == ZERO && p != checksum
    modifies checksum
    ensures checksum[..] == FullChecksum(p[..])
  {
    var k := p.Length % 16;
    SumBlocks(p, p.Length / 16, checksum);
    if k > 0 {
      assert p[p.Length - k..] == Rest(p[..]);
      SumTail(p[p.Length - k..], checksum);
    }
  }
}
