/** Cipher block chaining, with zero padding of the last block. */
module Cbc {
  import opened Splice
  import opened Sm4
  import opened Blocks

  /** CBC_CipherText_Len. */
  function CipherLen(n: nat): (r: nat)
    ensures r % 16 == 0 && n <= r < n + 16
  { (n + 16 - 1) / 16 * 16 }

  function Padded(p: seq<byte>): (r: seq<byte>)
    ensures |r| == CipherLen(|p|) && p <= r
  { p + seq(CipherLen(|p|) - |p|, _ => 0) }

  /** The first n ciphertext blocks of a padded message. */
  function EncBlocks(e: Cipher, iv: Block, p: seq<byte>, n: nat): (c: seq<byte>)
    requires 16 * n <= |p|
    ensures |c| == 16 * n
  {
    if n == 0 then []
    else
      var c := EncBlocks(e, iv, p, n - 1);
      c + e(Xor(BlockAt(p, n - 1), Previous(iv, c, n - 1)))
  }

  /** The first n plaintext blocks of a ciphertext. */
  function DecBlocks(d: Cipher, iv: Block, c: seq<byte>, n: nat): (p: seq<byte>)
    requires 16 * n <= |c|
    ensures |p| == 16 * n
  {
    if n == 0 then []
    else DecBlocks(d, iv, c, n - 1) + Xor(Previous(iv, c, n - 1), d(BlockAt(c, n - 1)))
  }

  lemma XorComm(a: seq<byte>, b: seq<byte>)
    requires |a| == |b|
    ensures Xor(a, b) == Xor(b, a)
  {
    forall i | 0 <= i < |a| ensures Xor(a, b)[i] == Xor(b, a)[i] {
      ByteXorComm(a[i], b[i]);
    }
  }

  lemma ByteXorComm(a: byte, b: byte)
    ensures a ^ b == b ^ a
  {
  }

  /** The block that block j is chained to. */
  function Previous(iv: Block, c: seq<byte>, j: nat): Block
    requires 16 * j <= |c|
  { if j == 0 then iv else BlockAt(c, j - 1) }

  lemma EncBlockAt(e: Cipher, iv: Block, p: seq<byte>, j: nat, total: nat)
    requires j < total && 16 * total <= |p|
    ensures Chained(e, iv, p, EncBlocks(e, iv, p, total), j)
  {
    var to := (n: nat) => if 16 * n <= |p| then EncBlocks(e, iv, p, n) else [];
    forall n | 0 <= n < total ensures Appends(e, iv, p, to, n) {
      assert to(n + 1) == EncBlocks(e, iv, p, n + 1);
    }
    ChainedIn(e, iv, p, to, j, total);
  }

  /** The ciphertext after n + 1 blocks is the one after n blocks with the next block. */
  ghost predicate Appends(e: Cipher, iv: Block, p: seq<byte>, to: nat -> seq<byte>, n: nat) {
    && 16 * n + 16 <= |p| && |to(n)| == 16 * n
    && to(n + 1) == to(n) + e(Xor(BlockAt(p, n), Previous(iv, to(n), n)))
  }

  lemma {:induction false} ChainedIn(e: Cipher, iv: Block, p: seq<byte>, to: nat -> seq<byte>, j: nat, total: nat)
    requires j < total && 16 * total <= |p| && forall n | 0 <= n < total :: Appends(e, iv, p, to, n)
    ensures |to(total)| == 16 * total && Chained(e, iv, p, to(total), j)
    decreases total
  {
    if j < total - 1 {
      ChainedIn(e, iv, p, to, j, total - 1);
    }
    assert Appends(e, iv, p, to, total - 1);
    ChainedNext(e, iv, p, to(total - 1), to(total), total - 1, j);
  }

  lemma ChainedNext(e: Cipher, iv: Block, p: seq<byte>, c0: seq<byte>, c1: seq<byte>, n: nat, j: nat)
    requires j <= n && 16 * n + 16 <= |p| && |c0| == 16 * n && c1 == c0 + e(Xor(BlockAt(p, n), Previous(iv, c0, n)))
    requires j < n ==> Chained(e, iv, p, c0, j)
    ensures Chained(e, iv, p, c1, j)
  {
    if j == n {
      ChainedLast(e, iv, p, c0, j);
    } else {
      ChainedPrefix(e, iv, p, c0, e(Xor(BlockAt(p, n), Previous(iv, c0, n))), j);
    }
  }

  /** Block j of the ciphertext c is chained to the one before it. */
  ghost predicate Chained(e: Cipher, iv: Block, p: seq<byte>, c: seq<byte>, j: nat)
    requires 16 * j + 16 <= |p| && 16 * j + 16 <= |c|
  { BlockAt(c, j) == e(Xor(BlockAt(p, j), Previous(iv, c, j))) }

  lemma ChainedLast(e: Cipher, iv: Block, p: seq<byte>, c: seq<byte>, j: nat)
    requires 16 * j + 16 <= |p| && |c| == 16 * j
    ensures Chained(e, iv, p, c + e(Xor(BlockAt(p, j), Previous(iv, c, j))), j)
  {
    var b: Block := e(Xor(BlockAt(p, j), Previous(iv, c, j)));
    PreviousPrefix(iv, c, b, j);
    BlockAtEnd(c, b, j);
  }

  lemma ChainedPrefix(e: Cipher, iv: Block, p: seq<byte>, c: seq<byte>, b: Block, j: nat)
    requires 16 * j + 16 <= |p| && 16 * j + 16 <= |c| && Chained(e, iv, p, c, j)
    ensures Chained(e, iv, p, c + b, j)
  {
    PreviousPrefix(iv, c, b, j);
    BlockAtPrefix(c, b, j);
  }

  lemma PreviousPrefix(iv: Block, c: seq<byte>, b: Block, j: nat)
    requires 16 * j <= |c|
    ensures Previous(iv, c + b, j) == Previous(iv, c, j)
  {
    if j > 0 {
      BlockAtPrefix(c, b, j - 1);
    }
  }

  lemma OpenBlock(e: Cipher, d: Cipher, prev: Block, b: Block)
    requires forall x: Block :: d(e(x)) == x
    ensures Xor(prev, d(e(Xor(b, prev)))) == b
  {
    var x: Block := Xor(b, prev);
    assert d(e(x)) == x;
    XorComm(prev, x);
    XorTwice(b, prev);
  }

  lemma NextPrefix(p: seq<byte>, n: nat)
    requires 16 * (n + 1) <= |p|
    ensures p[..16 * (n + 1)] == p[..16 * n] + BlockAt(p, n)
  {
  }

  /** Chaining undone block by block, for any cipher and its inverse. */
  lemma DecEnc(e: Cipher, d: Cipher, iv: Block, p: seq<byte>, n: nat, total: nat)
    requires n <= total && 16 * total <= |p| && forall b: Block :: d(e(b)) == b
    ensures DecBlocks(d, iv, EncBlocks(e, iv, p, total), n) == p[..16 * n]
  {
    forall j | 0 <= j < n ensures Chained(e, iv, p, EncBlocks(e, iv, p, total), j) {
      EncBlockAt(e, iv, p, j, total);
    }
    DecChained(e, d, iv, p, EncBlocks(e, iv, p, total), n);
  }

  lemma {:induction false} DecChained(e: Cipher, d: Cipher, iv: Block, p: seq<byte>, c: seq<byte>, n: nat)
    requires 16 * n <= |p| && 16 * n <= |c| && forall b: Block :: d(e(b)) == b
    requires forall j | 0 <= j < n :: Chained(e, iv, p, c, j)
    ensures DecBlocks(d, iv, c, n) == p[..16 * n]
  {
    if n > 0 {
      DecChained(e, d, iv, p, c, n - 1);
      DecNext(e, d, iv, p, c, n - 1);
    }
  }

  lemma DecNext(e: Cipher, d: Cipher, iv: Block, p: seq<byte>, c: seq<byte>, j: nat)
    requires 16 * j + 16 <= |p| && 16 * j + 16 <= |c| && Chained(e, iv, p, c, j) && forall b: Block :: d(e(b)) == b
    requires DecBlocks(d, iv, c, j) == p[..16 * j]
    ensures DecBlocks(d, iv, c, j + 1) == p[..16 * j + 16]
  {
    Unchained(e, d, iv, p, c, j);
  }

  /** A chained block decrypts to its plaintext block. */
  lemma Unchained(e: Cipher, d: Cipher, iv: Block, p: seq<byte>, c: seq<byte>, j: nat)
    requires 16 * j + 16 <= |p| && 16 * j + 16 <= |c| && Chained(e, iv, p, c, j) && forall b: Block :: d(e(b)) == b
    ensures p[..16 * j] + Xor(Previous(iv, c, j), d(BlockAt(c, j))) == p[..16 * j + 16]
  {
    OpenBlock(e, d, Previous(iv, c, j), BlockAt(p, j));
    NextPrefix(p, j);
  }

  function Min(a: nat, b: nat): nat { if a < b then a else b }

  /** What SM4_CBC_Decrypt leaves in its output buffer after n blocks: as much as fits. */
  function DecryptTo(d: Cipher, iv: Block, c: seq<byte>, n: nat, plainLen: nat): (p: seq<byte>)
    requires 16 * n <= |c|
    ensures |p| == Min(plainLen, 16 * n)
  {
    DecBlocks(d, iv, c, n)[..Min(plainLen, 16 * n)]
  }

  /** Given the original length, decryption recovers a message of any length. */
  lemma CbcRoundTrip(e: Cipher, d: Cipher, iv: Block, p: seq<byte>)
    requires forall b: Block :: d(e(b)) == b
    ensures DecryptTo(d, iv, EncBlocks(e, iv, Padded(p), CipherLen(|p|) / 16), CipherLen(|p|) / 16, |p|) == p
  {
    var n := CipherLen(|p|) / 16;
    DecEnc(e, d, iv, Padded(p), n, n);
    assert Padded(p)[..16 * n] == Padded(p);
  }

  /** With SM4 as the cipher: what Encrypt writes, Decrypt turns back into the message. */
  lemma Sm4CbcRoundTrip(sbox: Sbox, key: Block, iv: Block, p: seq<byte>)
    ensures var n := CipherLen(|p|) / 16;
      DecryptTo(Dec(sbox, key), iv, EncBlocks(Enc(sbox, key), iv, Padded(p), n), n, |p|) == p
  {
    Sm4Inverts(sbox, key);
    CbcRoundTrip(Enc(sbox, key), Dec(sbox, key), iv, p);
  }

  // ---------- the code

  /** SM4_CBC_Encrypt: 0 when the output buffer is too small, else the ciphertext and its length. The buffers of
      message, initial vector and ciphertext may be the same. */
  method Encrypt(sbox: Sbox, key: array<byte>, iv: array<byte>, plain: array<byte>, plainLen: nat, cipher: array<byte>,
                 cipherLen: nat, ghost e: Cipher, ghost d: Cipher)
    returns (r: nat)
    requires key.Length == 16 && iv.Length == 16 && plainLen <= plain.Length && cipherLen <= cipher.Length
    requires key != cipher && IsSm4(e, d, sbox, key[..])
    modifies cipher
    ensures cipherLen < CipherLen(plainLen) ==> r == 0 && cipher[..] == old(cipher[..])
    ensures cipherLen >= CipherLen(plainLen) ==> r == CipherLen(plainLen)
    ensures cipherLen >= CipherLen(plainLen) ==>
      var n := CipherLen(plainLen) / 16;
      cipher[..] == Put(old(cipher[..]), 0, EncBlocks(e, old(iv[..]), Padded(old(plain[..plainLen])), n))
  {
    if cipherLen < CipherLen(plainLen) {
      return 0;
    }
    r := EncryptLoop(sbox, key, iv, plain, plainLen, cipher, CipherLen(plainLen) / 16, e, d, iv[..],
                     Padded(plain[..plainLen]));
  }

  /** The message from byte `from` on is still in its buffer; behind it p has zeros. */
  ghost predicate Ahead(plain: array<byte>, plainLen: nat, p: seq<byte>, from: nat)
    reads plain
  {
    && plainLen <= plain.Length && plainLen <= |p| && (forall k | from <= k < plainLen :: plain[k] == p[k])
    && forall k | plainLen <= k < |p| :: p[k] == 0
  }

  method EncryptLoop(sbox: Sbox, key: array<byte>, iv: array<byte>, plain: array<byte>, plainLen: nat,
                     cipher: array<byte>, rounds: nat, ghost e: Cipher, ghost d: Cipher, ghost v: Block,
                     ghost p: seq<byte>)
    returns (r: nat)
    requires key.Length == 16 && iv.Length == 16 && key != cipher && IsSm4(e, d, sbox, key[..])
    requires v == iv[..] && Ahead(plain, plainLen, p, 0) && |p| == 16 * rounds <= cipher.Length
    modifies cipher
    ensures r == 16 * rounds && cipher[..] == Put(old(cipher[..]), 0, EncBlocks(e, v, p, rounds))
  {
    ghost var to := (j: nat) => if 16 * j <= |p| then EncBlocks(e, v, p, j) else [];
    assert Put(cipher[..], 0, []) == cipher[..];
    r := EncryptRounds(sbox, key, iv, plain, plainLen, cipher, rounds, e, d, cipher[..], v, p, to);
  }

  /** The prefixes that to gives are the first blocks of the ciphertext. */
  ghost predicate Ciphertexts(e: Cipher, v: Block, p: seq<byte>, to: nat -> seq<byte>) {
    forall j: nat {:trigger EncBlocks(e, v, p, j)} | 16 * j <= |p| :: EncBlocks(e, v, p, j) == to(j)
  }

  method EncryptRounds(sbox: Sbox, key: array<byte>, iv: array<byte>, plain: array<byte>, plainLen: nat,
                       cipher: array<byte>, rounds: nat, ghost e: Cipher, ghost d: Cipher, ghost before: seq<byte>,
                       ghost v: Block, ghost p: seq<byte>, ghost to: nat -> seq<byte>)
    returns (r: nat)
    requires key.Length == 16 && iv.Length == 16 && key != cipher && IsSm4(e, d, sbox, key[..]) && v == iv[..]
    requires Ahead(plain, plainLen, p, 0) && |p| == 16 * rounds <= cipher.Length == |before| && Ciphertexts(e, v, p, to)
    requires |to(0)| == 0 && cipher[..] == Put(before, 0, to(0))
    modifies cipher
    ensures r == 16 * rounds == |to(rounds)| && cipher[..] == Put(before, 0, to(rounds))
  {
    var input, chain := new byte[16], new byte[16];
    var j := 0;
    r := 0;
    while j < rounds
      invariant 0 <= j <= rounds && r == 16 * j == |to(j)| && fresh(input) && fresh(chain) && input != chain
      invariant Ahead(plain, plainLen, p, 16 * j) && cipher[..] == Put(before, 0, to(j))
      invariant if j == 0 then iv[..] == v else chain[..] == Previous(v, to(j), j)
    {
      EncryptTurn(sbox, key, iv, plain, plainLen, cipher, input, chain, j, e, d, before, v, p, to);
      r, j := r + 16, j + 1;
    }
  }

  method EncryptTurn(sbox: Sbox, key: array<byte>, iv: array<byte>, plain: array<byte>, plainLen: nat,
                     cipher: array<byte>, input: array<byte>, chain: array<byte>, j: nat, ghost e: Cipher,
                     ghost d: Cipher, ghost before: seq<byte>, ghost v: Block, ghost p: seq<byte>,
                     ghost to: nat -> seq<byte>)
    requires key.Length == 16 && iv.Length == 16 && input.Length == 16 && chain.Length == 16 && key != cipher
    requires input != cipher && input != key && input != iv && input != plain && input != chain
    requires chain != cipher && chain != key && chain != iv && chain != plain
    requires IsSm4(e, d, sbox, key[..]) && 16 * j + 16 <= |p| <= cipher.Length == |before|
    requires Ahead(plain, plainLen, p, 16 * j) && Ciphertexts(e, v, p, to)
    requires |to(j)| == 16 * j && cipher[..] == Put(before, 0, to(j))
    requires if j == 0 then iv[..] == v else chain[..] == Previous(v, to(j), j)
    modifies input, chain, cipher
    ensures Ahead(plain, plainLen, p, 16 * j + 16) && |to(j + 1)| == 16 * j + 16
    ensures cipher[..] == Put(before, 0, to(j + 1)) && chain[..] == Previous(v, to(j + 1), j + 1)
  {
    assert to(j) == EncBlocks(e, v, p, j) && to(j + 1) == EncBlocks(e, v, p, j + 1);
    EncryptRound(sbox, key, iv, plain, plainLen, cipher, input, chain, j, e, d, before, v, p);
  }

  /** One turn of the loop: the next block is chained, encrypted and appended. */
  method EncryptRound(sbox: Sbox, key: array<byte>, iv: array<byte>, plain: array<byte>, plainLen: nat,
                      cipher: array<byte>, input: array<byte>, chain: array<byte>, j: nat, ghost e: Cipher,
                      ghost d: Cipher, ghost before: seq<byte>, ghost v: Block, ghost p: seq<byte>)
    requires key.Length == 16 && iv.Length == 16 && input.Length == 16 && chain.Length == 16 && key != cipher
    requires input != cipher && input != key && input != iv && input != plain && input != chain
    requires chain != cipher && chain != key && chain != iv && chain != plain
    requires IsSm4(e, d, sbox, key[..]) && 16 * j + 16 <= |p| <= cipher.Length == |before|
    requires Ahead(plain, plainLen, p, 16 * j) && (j == 0 ==> iv[..] == v)
    requires cipher[..] == Put(before, 0, EncBlocks(e, v, p, j))
    requires j > 0 ==> chain[..] == Previous(v, EncBlocks(e, v, p, j), j)
    modifies input, chain, cipher
    ensures Ahead(plain, plainLen, p, 16 * j + 16)
    ensures cipher[..] == Put(before, 0, EncBlocks(e, v, p, j + 1))
    ensures chain[..] == Previous(v, EncBlocks(e, v, p, j + 1), j + 1)
  {
    LoadChained(plain, plainLen, if j == 0 then iv else chain, input, j, p);
    EncryptBuffer(sbox, key, input, chain, e, d);
    StoreBlock(chain[..], cipher, j, plain, plainLen, p);
    NextBlock(e, v, p, j, before, chain[..]);
  }

  /** Writing block j of the ciphertext leaves the message behind block j. */
  method StoreBlock(b: Block, cipher: array<byte>, j: nat, ghost plain: array<byte>, ghost plainLen: nat,
                    ghost p: seq<byte>)
    requires 16 * j + 16 <= cipher.Length && Ahead(plain, plainLen, p, 16 * j)
    modifies cipher
    ensures cipher[..] == Put(old(cipher[..]), 16 * j, b) && Ahead(plain, plainLen, p, 16 * j + 16)
  {
    ghost var s := cipher[..];
    CopyInto(b, cipher, 16 * j);
    forall k | 16 * j + 16 <= k < plainLen ensures plain[k] == p[k] {
      if plain == cipher {
        PutAt(s, 16 * j, b, k);
        assert plain[k] == cipher[..][k];
      }
    }
  }

  /** Extending the ciphertext in the buffer by its next block. */
  lemma NextBlock(e: Cipher, iv: Block, p: seq<byte>, j: nat, before: seq<byte>, b: Block)
    requires 16 * j + 16 <= |p| && 16 * j + 16 <= |before|
    requires b == e(Xor(BlockAt(p, j), Previous(iv, EncBlocks(e, iv, p, j), j)))
    ensures Put(Put(before, 0, EncBlocks(e, iv, p, j)), 16 * j, b) == Put(before, 0, EncBlocks(e, iv, p, j + 1))
    ensures Previous(iv, EncBlocks(e, iv, p, j + 1), j + 1) == b
  {
    PutAppend(before, 0, EncBlocks(e, iv, p, j), b);
  }

  /** SM4_Encrypt from one 16-byte buffer to another. */
  method EncryptBuffer(sbox: Sbox, key: array<byte>, input: array<byte>, output: array<byte>,
                       ghost e: Cipher, ghost d: Cipher)
    requires key.Length == 16 && input.Length == 16 && output.Length == 16 && key != output
    requires IsSm4(e, d, sbox, key[..])
    modifies output
    ensures output[..] == e(old(input[..]))
  {
    assert input[0..16] == input[..];
    EncryptAt(sbox, key, input, 0, output, 0, e, d);
  }

  /** Block j of the message, zero-padded, combined with the block it is chained to. */
  method LoadChained(plain: array<byte>, plainLen: nat, prev: array<byte>, input: array<byte>, j: nat,
                     ghost p: seq<byte>)
    requires prev.Length == 16 && input.Length == 16 && prev != input && plain != input
    requires 16 * j + 16 <= |p| && Ahead(plain, plainLen, p, 16 * j)
    modifies input
    ensures input[..] == Xor(BlockAt(p, j), prev[..])
  {
    var i := 0;
    while i < 16
      invariant 0 <= i <= 16 && forall k | 0 <= k < i :: input[k] == p[16 * j + k] ^ prev[k]
    {
      var b: byte := if 16 * j + i < plainLen then plain[16 * j + i] else 0;
      assert b == p[16 * j + i];
      input[i] := b ^ prev[i];
      i := i + 1;
    }
  }

  /** SM4_CBC_Decrypt: writes the plaintext, at most the given length of it, and returns how much. A ciphertext that is
      not a whole number of blocks gives 0. The buffers of ciphertext, initial vector and plaintext may be the same. */
  method Decrypt(sbox: Sbox, key: array<byte>, iv: array<byte>, cipher: array<byte>, cipherLen: nat,
                 plain: array<byte>, plainLen: nat, ghost e: Cipher, ghost d: Cipher)
    returns (r: nat)
    requires key.Length == 16 && iv.Length == 16 && cipherLen <= cipher.Length && plainLen <= plain.Length
    requires key != plain && IsSm4(e, d, sbox, key[..])
    modifies plain
    ensures cipherLen % 16 != 0 ==> r == 0 && plain[..] == old(plain[..])
    ensures cipherLen % 16 == 0 ==> r == Min(plainLen, cipherLen)
    ensures cipherLen % 16 == 0 ==> plain[..] == Put(old(plain[..]), 0,
      DecryptTo(d, old(iv[..]), old(cipher[..cipherLen]), cipherLen / 16, plainLen))
  {
    if cipherLen % 16 != 0 {
      return 0;
    }
    r := DecryptLoop(sbox, key, iv, cipher, plain, plainLen, cipherLen / 16, e, d, iv[..], cipher[..cipherLen]);
  }

  method DecryptLoop(sbox: Sbox, key: array<byte>, iv: array<byte>, cipher: array<byte>, plain: array<byte>,
                     plainLen: nat, rounds: nat, ghost e: Cipher, ghost d: Cipher, ghost v: Block, ghost c: seq<byte>)
    returns (r: nat)
    requires key.Length == 16 && iv.Length == 16 && plainLen <= plain.Length && key != plain
    requires IsSm4(e, d, sbox, key[..]) && |c| == 16 * rounds <= cipher.Length && v == iv[..] && c == cipher[..|c|]
    modifies plain
    ensures r == Min(plainLen, 16 * rounds)
    ensures plain[..] == Put(old(plain[..]), 0, DecryptTo(d, v, c, rounds, plainLen))
  {
    ghost var before := plain[..];
    ghost var to := (j: nat) => if 16 * j <= |c| then DecryptTo(d, v, c, j, plainLen) else [];
    assert Put(before, 0, []) == before;
    r := DecryptRounds(sbox, key, iv, cipher, plain, plainLen, rounds, e, d, before, v, c, to);
  }

  /** The prefixes that to gives are what the blocks decrypt to. */
  ghost predicate Prefixes(d: Cipher, v: Block, c: seq<byte>, n: nat, to: nat -> seq<byte>) {
    forall j: nat {:trigger DecryptTo(d, v, c, j, n)} | 16 * j <= |c| :: DecryptTo(d, v, c, j, n) == to(j)
  }

  /** The ciphertext from block j on is still in its buffer. */
  ghost predicate Coming(cipher: array<byte>, c: seq<byte>, j: nat)
    reads cipher
  { |c| <= cipher.Length && forall k | 16 * j <= k < |c| :: cipher[k] == c[k] }

  method DecryptRounds(sbox: Sbox, key: array<byte>, iv: array<byte>, cipher: array<byte>, plain: array<byte>,
                       plainLen: nat, rounds: nat, ghost e: Cipher, ghost d: Cipher, ghost before: seq<byte>,
                       ghost v: Block, ghost c: seq<byte>, ghost to: nat -> seq<byte>)
    returns (r: nat)
    requires key.Length == 16 && iv.Length == 16 && key != plain && plainLen <= plain.Length == |before|
    requires IsSm4(e, d, sbox, key[..]) && Prefixes(d, v, c, plainLen, to) && v == iv[..] && |c| == 16 * rounds
    requires Coming(cipher, c, 0) && |to(0)| <= |before| && plain[..] == Put(before, 0, to(0))
    modifies plain
    ensures r == Min(plainLen, 16 * rounds) && |to(rounds)| <= |before| && plain[..] == Put(before, 0, to(rounds))
  {
    var ciphertext, input, output := new byte[16], new byte[16], new byte[16];
    r := 0;
    var j := 0;
    while j < rounds
      invariant 0 <= j <= rounds && r == Min(plainLen, 16 * j) && fresh(ciphertext) && fresh(input) && fresh(output)
      invariant ciphertext != input && ciphertext != output && input != output
      invariant Coming(cipher, c, j) && (if j == 0 then iv[..] == v else input[..] == Previous(v, c, j))
      invariant |to(j)| <= |before| && plain[..] == Put(before, 0, to(j))
    {
      r := DecryptRound(sbox, key, iv, cipher, plain, plainLen, ciphertext, input, output, j, r, e, d, before, v, c,
        to);
      j := j + 1;
    }
  }

  method DecryptRound(sbox: Sbox, key: array<byte>, iv: array<byte>, cipher: array<byte>, plain: array<byte>,
                      plainLen: nat, ciphertext: array<byte>, input: array<byte>, output: array<byte>, j: nat,
                      cursor: nat, ghost e: Cipher, ghost d: Cipher, ghost before: seq<byte>, ghost v: Block,
                      ghost c: seq<byte>, ghost to: nat -> seq<byte>)
    returns (r: nat)
    requires key.Length == iv.Length == ciphertext.Length == input.Length == output.Length == 16 && key != plain
    requires ciphertext != key && ciphertext != iv && ciphertext != cipher && ciphertext != plain
    requires input != key && input != iv && input != cipher && input != plain && input != ciphertext
    requires output != key && output != iv && output != cipher && output != plain && output != ciphertext
    requires output != input && plainLen <= plain.Length == |before| && Prefixes(d, v, c, plainLen, to)
    requires IsSm4(e, d, sbox, key[..]) && 16 * j + 16 <= |c| && Coming(cipher, c, j)
    requires if j == 0 then iv[..] == v else input[..] == Previous(v, c, j)
    requires cursor == Min(plainLen, 16 * j) && |to(j)| <= |before| && plain[..] == Put(before, 0, to(j))
    modifies ciphertext, input, output, plain
    ensures Coming(cipher, c, j + 1) && input[..] == Previous(v, c, j + 1)
    ensures r == Min(plainLen, 16 * j + 16) && |to(j + 1)| <= |before| && plain[..] == Put(before, 0, to(j + 1))
  {
    TakeBlock(cipher, ciphertext, j, c);
    DecryptBuffer(sbox, key, ciphertext, output, e, d);
    var prev: Block := if j == 0 then iv[..] else input[..];
    r := OpenNext(prev, output[..], plain, plainLen, cursor, j, d, before, v, c, to, cipher);
    CopyInto(ciphertext[..], input, 0);
    assert input[..] == BlockAt(c, j);
  }

  method OpenNext(prev: Block, output: Block, plain: array<byte>, plainLen: nat, cursor: nat, j: nat, ghost d: Cipher,
                  ghost before: seq<byte>, ghost v: Block, ghost c: seq<byte>, ghost to: nat -> seq<byte>,
                  ghost cipher: array<byte>)
    returns (r: nat)
    requires 16 * j + 16 <= |c| && prev == Previous(v, c, j) && output == d(BlockAt(c, j)) && Coming(cipher, c, j)
    requires plainLen <= plain.Length == |before| && Prefixes(d, v, c, plainLen, to)
    requires cursor == Min(plainLen, 16 * j) && |to(j)| <= |before| && plain[..] == Put(before, 0, to(j))
    modifies plain
    ensures Coming(cipher, c, j + 1)
    ensures r == Min(plainLen, 16 * j + 16) && |to(j + 1)| <= |before| && plain[..] == Put(before, 0, to(j + 1))
  {
    assert to(j) == DecryptTo(d, v, c, j, plainLen) && to(j + 1) == DecryptTo(d, v, c, j + 1, plainLen);
    r := OpenInto(prev, output, plain, plainLen, cursor, 16 * j, before, DecBlocks(d, v, c, j), cipher, c);
  }

  method TakeBlock(cipher: array<byte>, ciphertext: array<byte>, j: nat, ghost c: seq<byte>)
    requires ciphertext.Length == 16 && ciphertext != cipher && 16 * j + 16 <= |c| && Coming(cipher, c, j)
    modifies ciphertext
    ensures ciphertext[..] == BlockAt(c, j)
  {
    CopyInto(cipher[16 * j..16 * j + 16], ciphertext, 0);
    assert cipher[16 * j..16 * j + 16] == c[16 * j..16 * j + 16];
  }

  /** SM4_Decrypt from one 16-byte buffer to another. */
  method DecryptBuffer(sbox: Sbox, key: array<byte>, input: array<byte>, output: array<byte>,
                       ghost e: Cipher, ghost d: Cipher)
    requires key.Length == 16 && input.Length == 16 && output.Length == 16 && key != output
    requires IsSm4(e, d, sbox, key[..])
    modifies output
    ensures output[..] == d(old(input[..]))
  {
    assert input[0..16] == input[..];
    DecryptAt(sbox, key, input, 0, output, 0, e, d);
  }

  /** Appends the plaintext block, cut off at the given length. The ciphertext behind it stays. */
  method OpenInto(prev: Block, output: Block, plain: array<byte>, plainLen: nat, cursor: nat, start: nat,
                  ghost before: seq<byte>, ghost done: seq<byte>, ghost cipher: array<byte>, ghost c: seq<byte>)
    returns (r: nat)
    requires |done| == start && cursor == Min(plainLen, start) && start % 16 == 0 && plainLen <= plain.Length
    requires |before| == plain.Length && plain[..] == Put(before, 0, done[..cursor]) && Coming(cipher, c, start / 16)
    modifies plain
    ensures r == Min(plainLen, start + 16) && Coming(cipher, c, start / 16 + 1)
    ensures plain[..] == Put(before, 0, (done + Xor(prev, output))[..r])
  {
    var end := if start + 16 > plainLen then plainLen else start + 16;
    ghost var all := done + Xor(prev, output);
    r := cursor;
    if start < end {
      XorOut(prev, output, plain, start, end - start);
      r := end;
    }
    Written(before, all, old(plain[..]), plain[..], cursor, r);
  }

  /** plain[start + k] = prev[k] ^ output[k] for the first n bytes. */
  method XorOut(prev: Block, output: Block, plain: array<byte>, start: nat, n: nat)
    requires n <= 16 && start + n <= plain.Length
    modifies plain
    ensures forall t | 0 <= t < plain.Length ::
      plain[t] == if start <= t < start + n then Xor(prev, output)[t - start] else old(plain[t])
  {
    var k := 0;
    while k < n
      invariant 0 <= k <= n
      invariant forall t | 0 <= t < plain.Length ::
        plain[t] == if start <= t < start + k then Xor(prev, output)[t - start] else old(plain[t])
    {
      plain[start + k] := prev[k] ^ output[k];
      k := k + 1;
    }
  }

  lemma Written(before: seq<byte>, all: seq<byte>, a: seq<byte>, b: seq<byte>, i: nat, r: nat)
    requires i <= r <= |before| == |a| == |b| && r <= |all| && a == Put(before, 0, all[..i])
    requires forall t | 0 <= t < |b| :: b[t] == if i <= t < r then all[t] else a[t]
    ensures b == Put(before, 0, all[..r])
  {
  }
}
