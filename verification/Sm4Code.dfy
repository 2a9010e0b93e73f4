/** SM4_KeySchedule, SM4_Encrypt and SM4_Decrypt on arrays. */
module Sm4Code {
  import opened Splice
  import opened Feistel
  import opened Sm4

  /** Runs n rounds in place: x[0..4] is given, and x[4..n+4] is filled. */
  method FillRun(f: Round<word>, keys: seq<word>, x: array<word>, ghost x0: Words4)
    requires x.Length == |keys| + 4 && x[..4] == x0
    modifies x
    ensures x[..] == Run(f, keys, x0, |keys|)
  {
    var i := 0;
    while i < |keys|
      invariant 0 <= i <= |keys| && x[..i + 4] == Run(f, keys, x0, i)
    {
      x[i + 4] := f(x[i], x[i + 1], x[i + 2], x[i + 3], keys[i]);
      i := i + 1;
      assert x[..i + 4] == x[..i + 3] + [x[i + 3]];
    }
    assert x[..] == x[..i + 4];
  }

  method KeySchedule(sbox: Sbox, mk: array<byte>) returns (rk: array<word>)
    requires mk.Length == 16
    ensures fresh(rk) && rk.Length == 32 && rk[..] == RoundKeys(sbox, mk[..])
  {
    var k := new word[36];
    LoadKey([0xA3B1BAC6, 0x56AA3350, 0x677D9197, 0xB27022DC], mk, k);
    FillRun(KeyRound(sbox), SM4_CK, k, XorWords(SM4_FK, ToWords(mk[..])));
    rk := new word[32](j requires 0 <= j < 32 reads k => k[j + 4]);
    assert rk[..] == k[..][4..];
  }

  method LoadKey(fk: Words4, mk: array<byte>, k: array<word>)
    requires mk.Length == 16 && k.Length == 36
    modifies k
    ensures k[..4] == XorWords(fk, ToWords(mk[..]))
  {
    ghost var ws := ToWords(mk[..]);
    var i := 0;
    while i < 4
      invariant 0 <= i <= 4 && forall j | 0 <= j < i :: k[j] == fk[j] ^ ws[j]
    {
      var w := LoadWord(mk, i, ws);
      k[i] := fk[i] ^ w;
      i := i + 1;
    }
  }

  method LoadWord(mk: array<byte>, i: nat, ghost ws: Words4) returns (w: word)
    requires mk.Length == 16 && i < 4 && ws == ToWords(mk[..])
    ensures w == ws[i]
  {
    w := Join(mk[4 * i], mk[4 * i + 1], mk[4 * i + 2], mk[4 * i + 3]);
  }

  /** The common text of SM4_Encrypt and SM4_Decrypt, which differ in the order of the round keys. The
      output may be the input buffer. */
  method Crypt(sbox: Sbox, mk: array<byte>, decrypt: bool, input: array<byte>, inOff: nat, output: array<byte>,
               outOff: nat)
    requires mk.Length == 16 && inOff + 16 <= input.Length && outOff + 16 <= output.Length && mk != output
    modifies output
    ensures output[..] == Put(old(output[..]), outOff,
              if decrypt then DecryptBlock(sbox, mk[..], old(input[inOff..inOff + 16]))
              else EncryptBlock(sbox, mk[..], old(input[inOff..inOff + 16])))
  {
    ghost var b := input[inOff..inOff + 16];
    var rk := KeySchedule(sbox, mk);
    var x := new word[36];
    LoadBlock(input, inOff, x);
    var keys := if decrypt then Reverse(rk[..]) else rk[..];
    FillRun(EncRound(sbox), keys, x, ToWords(b));
    StoreBlock(x, output, outOff, Output(EncRound(sbox), keys, ToWords(b)));
  }

  method LoadBlock(input: array<byte>, off: nat, x: array<word>)
    requires off + 16 <= input.Length && x.Length == 36
    modifies x
    ensures x[..4] == ToWords(input[off..off + 16])
  {
    var j := 0;
    while j < 4
      invariant 0 <= j <= 4 && forall i | 0 <= i < j :: x[i] == WordAt(input[off..off + 16], 4 * i)
    {
      x[j] := Join(input[off + j * 4], input[off + j * 4 + 1], input[off + j * 4 + 2], input[off + j * 4 + 3]);
      j := j + 1;
    }
  }

  /** Writes the last four words of x, last first, as bytes. */
  method StoreBlock(x: array<word>, output: array<byte>, off: nat, ghost w: Words4)
    requires x.Length == 36 && off + 16 <= output.Length && w == Reverse(x[32..])
    modifies output
    ensures output[..] == Put(old(output[..]), off, FromWords(w))
  {
    var j := 0;
    while j < 4
      invariant 0 <= j <= 4 && output[..] == Put(old(output[..]), off, Unpack(w[..j]))
    {
      assert x[35 - j] == x[32..][3 - j] == w[j];
      StoreNext(output, off, x[35 - j], old(output[..]), w, j);
      j := j + 1;
    }
    assert w[..4] == w;
  }

  /** Appends word j to the bytes of the words before it. */
  method StoreNext(output: array<byte>, off: nat, v: word, ghost before: seq<byte>, ghost w: Words4, j: nat)
    requires j < 4 && off + 16 <= output.Length == |before| && v == w[j]
    requires output[..] == Put(before, off, Unpack(w[..j]))
    modifies output
    ensures output[..] == Put(before, off, Unpack(w[..j + 1]))
  {
    StoreWord(output, off + 4 * j, v);
    PutAppend(before, off, Unpack(w[..j]), Bytes(v));
    assert w[..j + 1][..j] == w[..j];
  }

  method StoreWord(output: array<byte>, off: nat, v: word)
    requires off + 4 <= output.Length
    modifies output
    ensures output[..] == Put(old(output[..]), off, Bytes(v))
  {
    output[off] := Part(v, 0);
    output[off + 1] := Part(v, 1);
    output[off + 2] := Part(v, 2);
    output[off + 3] := Part(v, 3);
  }
}
