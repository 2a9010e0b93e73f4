/** 16-byte blocks of a byte string, and their exclusive or. */
module Blocks {
  import opened Splice
  import opened Sm4
  import opened Sm4Code

  const ZERO: Block := [0, 0, 0, 0, 0, 0, 0, 0, 0, 0, 0, 0, 0, 0, 0, 0]

  function Xor(a: seq<byte>, b: seq<byte>): (r: seq<byte>)
    requires |a| == |b|
    ensures |r| == |a| && forall i | 0 <= i < |a| :: r[i] == a[i] ^ b[i]
  { seq(|a|, i requires 0 <= i < |a| => a[i] ^ b[i]) }

  lemma ByteXorTwice(a: byte, b: byte)
    ensures (a ^ b) ^ b == a
  {
  }

  lemma XorTwice(a: seq<byte>, b: seq<byte>)
    requires |a| == |b|
    ensures Xor(Xor(a, b), b) == a
  {
    forall i | 0 <= i < |a| ensures Xor(Xor(a, b), b)[i] == a[i] {
      ByteXorTwice(a[i], b[i]);
    }
  }

  function BlockAt(s: seq<byte>, j: nat): Block
    requires 16 * j + 16 <= |s|
  { s[16 * j..16 * j + 16] }

  lemma BlockAtPrefix(a: seq<byte>, b: seq<byte>, j: nat)
    requires 16 * j + 16 <= |a|
    ensures BlockAt(a + b, j) == BlockAt(a, j)
  {
  }

  lemma BlockAtEnd(a: seq<byte>, b: Block, j: nat)
    requires |a| == 16 * j
    ensures BlockAt(a + b, j) == b
  {
  }

  lemma BlockAtPut(s: seq<byte>, i: nat, b: Block, j: nat)
    requires 16 * i + 16 <= |s| && 16 * j + 16 <= |s|
    ensures BlockAt(Put(s, 16 * i, b), j) == if i == j then b else BlockAt(s, j)
  {
  }

  /** xor_16: a[i] ^= b[i] for a block of a buffer. */
  method XorInto(a: array<byte>, off: nat, b: Block)
    requires off + 16 <= a.Length
    modifies a
    ensures a[..] == Put(old(a[..]), off, Xor(old(a[off..off + 16]), b))
  {
    var i := 0;
    while i < 16
      invariant 0 <= i <= 16
      invariant forall k | 0 <= k < a.Length ::
        a[k] == if off <= k < off + i then old(a[k]) ^ b[k - off] else old(a[k])
    {
      a[off + i] := a[off + i] ^ b[i];
      i := i + 1;
    }
  }

  // ---------- the cipher as a function

  type Cipher = Block -> Block

  function Enc(sbox: Sbox, key: Block): Cipher { (b: Block) => EncryptBlock(sbox, key, b) }
  function Dec(sbox: Sbox, key: Block): Cipher { (b: Block) => DecryptBlock(sbox, key, b) }

  /** e and d are SM4 with this key. The modes of operation know no more of the cipher than this. */
  ghost predicate IsSm4(e: Cipher, d: Cipher, sbox: Sbox, key: Block) {
    && (forall b: Block {:trigger EncryptBlock(sbox, key, b)} :: EncryptBlock(sbox, key, b) == e(b))
    && (forall b: Block {:trigger DecryptBlock(sbox, key, b)} :: DecryptBlock(sbox, key, b) == d(b))
  }

  /** SM4_Encrypt. */
  method EncryptAt(sbox: Sbox, mk: array<byte>, input: array<byte>, inOff: nat, output: array<byte>, outOff: nat,
                   ghost e: Cipher, ghost d: Cipher)
    requires mk.Length == 16 && inOff + 16 <= input.Length && outOff + 16 <= output.Length && mk != output
    requires IsSm4(e, d, sbox, mk[..])
    modifies output
    ensures output[..] == Put(old(output[..]), outOff, e(old(input[inOff..inOff + 16])))
  {
    Crypt(sbox, mk, false, input, inOff, output, outOff);
  }

  /** SM4_Decrypt. */
  method DecryptAt(sbox: Sbox, mk: array<byte>, input: array<byte>, inOff: nat, output: array<byte>, outOff: nat,
                   ghost e: Cipher, ghost d: Cipher)
    requires mk.Length == 16 && inOff + 16 <= input.Length && outOff + 16 <= output.Length && mk != output
    requires IsSm4(e, d, sbox, mk[..])
    modifies output
    ensures output[..] == Put(old(output[..]), outOff, d(old(input[inOff..inOff + 16])))
  {
    Crypt(sbox, mk, true, input, inOff, output, outOff);
  }

  /** Decryption inverts encryption for every key, so the pair is a block cipher. */
  lemma Sm4Inverts(sbox: Sbox, key: Block)
    ensures IsSm4(Enc(sbox, key), Dec(sbox, key), sbox, key)
    ensures forall b: Block :: Dec(sbox, key)(Enc(sbox, key)(b)) == b
  {
    forall b: Block ensures Dec(sbox, key)(Enc(sbox, key)(b)) == b {
      DecryptInvertsEncrypt(sbox, key, b);
    }
  }
}
