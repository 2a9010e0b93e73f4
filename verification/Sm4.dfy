/** The SM4 block cipher (GB/T 32907-2016), an unbalanced Feistel network on four words.

    The S-box is a parameter: every statement holds for any S-box, and so for the one of the
    program. */
module Sm4 {
  import opened Feistel

  type byte = bv8
  type word = bv32
  type Sbox = byte -> byte
  type Block = s: seq<byte> | |s| == 16 witness seq(16, _ => 0)
  type Words4 = s: seq<word> | |s| == 4 witness [0, 0, 0, 0]

  // ---------- words and bytes

  function Join(a: byte, b: byte, c: byte, d: byte): word {
    ((a as word) << 24) | ((b as word) << 16) | ((c as word) << 8) | (d as word)
  }

  /** Byte j of a word, most significant first. */
  function Part(w: word, j: nat): byte
    requires j < 4
  {
    if j == 0 then ((w >> 24) & 0xFF) as byte
    else if j == 1 then ((w >> 16) & 0xFF) as byte
    else if j == 2 then ((w >> 8) & 0xFF) as byte
    else (w & 0xFF) as byte
  }

  lemma JoinParts(w: word)
    ensures Join(Part(w, 0), Part(w, 1), Part(w, 2), Part(w, 3)) == w
  {
  }

  lemma PartsJoin(a: byte, b: byte, c: byte, d: byte)
    ensures Part(Join(a, b, c, d), 0) == a && Part(Join(a, b, c, d), 1) == b
    ensures Part(Join(a, b, c, d), 2) == c && Part(Join(a, b, c, d), 3) == d
  {
  }

  function WordAt(b: seq<byte>, off: nat): word
    requires off + 4 <= |b|
  { Join(b[off], b[off + 1], b[off + 2], b[off + 3]) }

  function Bytes(w: word): (r: seq<byte>)
    ensures |r| == 4
  { [Part(w, 0), Part(w, 1), Part(w, 2), Part(w, 3)] }

  lemma BytesOfWordAt(b: seq<byte>, off: nat)
    requires off + 4 <= |b|
    ensures Bytes(WordAt(b, off)) == b[off..off + 4]
  {
    PartsJoin(b[off], b[off + 1], b[off + 2], b[off + 3]);
  }

  function ToWords(b: Block): Words4 { seq(4, i requires 0 <= i < 4 => WordAt(b, 4 * i)) }

  /** The bytes of a sequence of words. */
  function Unpack(w: seq<word>): (r: seq<byte>)
    ensures |r| == 4 * |w|
  { if w == [] then [] else Unpack(w[..|w| - 1]) + Bytes(w[|w| - 1]) }

  function FromWords(w: Words4): Block { Unpack(w) }

  lemma UnpackFour(a: word, b: word, c: word, d: word)
    ensures Unpack([a, b, c, d]) == Bytes(a) + Bytes(b) + Bytes(c) + Bytes(d)
  {
    assert [a, b, c, d][..3] == [a, b, c] && [a, b, c][..2] == [a, b] && [a, b][..1] == [a] && [a][..0] == [];
    assert Unpack([a]) == Bytes(a);
    assert Unpack([a, b]) == Bytes(a) + Bytes(b);
    assert Unpack([a, b, c]) == Bytes(a) + Bytes(b) + Bytes(c);
  }

  lemma FromToWords(b: Block)
    ensures FromWords(ToWords(b)) == b
  {
    var w := ToWords(b);
    assert w == [w[0], w[1], w[2], w[3]];
    UnpackFour(w[0], w[1], w[2], w[3]);
    BytesOfWordAt(b, 0);
    BytesOfWordAt(b, 4);
    BytesOfWordAt(b, 8);
    BytesOfWordAt(b, 12);
  }

  lemma ToFromWords(w: Words4)
    ensures ToWords(FromWords(w)) == w
  {
    var b := FromWords(w);
    assert w == [w[0], w[1], w[2], w[3]];
    UnpackFour(w[0], w[1], w[2], w[3]);
    JoinParts(w[0]);
    JoinParts(w[1]);
    JoinParts(w[2]);
    JoinParts(w[3]);
    assert WordAt(b, 0) == w[0] && WordAt(b, 4) == w[1] && WordAt(b, 8) == w[2] && WordAt(b, 12) == w[3];
  }

  function XorWords(a: Words4, b: Words4): Words4 { seq(4, i requires 0 <= i < 4 => a[i] ^ b[i]) }

  // ---------- the round functions

  function Rotl2(x: word): word { (x << 2) | (x >> 30) }
  function Rotl10(x: word): word { (x << 10) | (x >> 22) }
  function Rotl13(x: word): word { (x << 13) | (x >> 19) }
  function Rotl18(x: word): word { (x << 18) | (x >> 14) }
  function Rotl23(x: word): word { (x << 23) | (x >> 9) }
  function Rotl24(x: word): word { (x << 24) | (x >> 8) }

  /** The nonlinear operation: the S-box on each byte. */
  function Tau(sbox: Sbox, x: word): word {
    Join(sbox(Part(x, 0)), sbox(Part(x, 1)), sbox(Part(x, 2)), sbox(Part(x, 3)))
  }

  function Xor32(a: word, b: word): word { a ^ b }
  function XorFour(a: word, b: word, c: word, d: word): word { Xor32(Xor32(Xor32(a, b), c), d) }

  function LinearEnc(b: word): word { Xor32(Xor32(Xor32(Xor32(b, Rotl2(b)), Rotl10(b)), Rotl18(b)), Rotl24(b)) }
  function LinearKey(b: word): word { Xor32(Xor32(b, Rotl13(b)), Rotl23(b)) }

  /** The oldest word, changed by a function of the other three and the key. */
  function RoundOf(t: word -> word): Round<word> {
    (a: word, b: word, c: word, d: word, k: word) => Xor32(a, t(XorFour(b, c, d, k)))
  }

  function TEnc(sbox: Sbox): word -> word { (x: word) => LinearEnc(Tau(sbox, x)) }
  function TKey(sbox: Sbox): word -> word { (x: word) => LinearKey(Tau(sbox, x)) }

  function EncRound(sbox: Sbox): Round<word> { RoundOf(TEnc(sbox)) }
  function KeyRound(sbox: Sbox): Round<word> { RoundOf(TKey(sbox)) }

  // ---------- what they are (section 6)

  lemma RotationsRotate(b: word)
    ensures Rotl2(b) == b.RotateLeft(2) && Rotl10(b) == b.RotateLeft(10) && Rotl13(b) == b.RotateLeft(13)
    ensures Rotl18(b) == b.RotateLeft(18) && Rotl23(b) == b.RotateLeft(23) && Rotl24(b) == b.RotateLeft(24)
  {
  }

  lemma LinearRotates(b: word)
    ensures LinearEnc(b) ==
      Xor32(Xor32(Xor32(Xor32(b, b.RotateLeft(2)), b.RotateLeft(10)), b.RotateLeft(18)), b.RotateLeft(24))
    ensures LinearKey(b) == Xor32(Xor32(b, b.RotateLeft(13)), b.RotateLeft(23))
  {
    RotationsRotate(b);
  }

  /** The two round functions on the words X_i .. X_(i+3) and a round key. */
  lemma RoundsAre(sbox: Sbox, a: word, b: word, c: word, d: word, k: word)
    ensures EncRound(sbox)(a, b, c, d, k) == Xor32(a, LinearEnc(Tau(sbox, Xor32(Xor32(Xor32(b, c), d), k))))
    ensures KeyRound(sbox)(a, b, c, d, k) == Xor32(a, LinearKey(Tau(sbox, Xor32(Xor32(Xor32(b, c), d), k))))
  {
    RoundOfIs(TEnc(sbox), a, b, c, d, k);
    RoundOfIs(TKey(sbox), a, b, c, d, k);
  }

  lemma RoundOfIs(t: word -> word, a: word, b: word, c: word, d: word, k: word)
    ensures RoundOf(t)(a, b, c, d, k) == Xor32(a, t(Xor32(Xor32(Xor32(b, c), d), k)))
  {
    var f := RoundOf(t);
    assert XorFour(b, c, d, k) == Xor32(Xor32(Xor32(b, c), d), k);
    assert f(a, b, c, d, k) == Xor32(a, t(XorFour(b, c, d, k)));
  }

  /** The S-box works on each byte by itself. */
  lemma TauOnBytes(sbox: Sbox, x: word)
    ensures Part(Tau(sbox, x), 0) == sbox(Part(x, 0)) && Part(Tau(sbox, x), 1) == sbox(Part(x, 1))
    ensures Part(Tau(sbox, x), 2) == sbox(Part(x, 2)) && Part(Tau(sbox, x), 3) == sbox(Part(x, 3))
  {
    PartsJoin(sbox(Part(x, 0)), sbox(Part(x, 1)), sbox(Part(x, 2)), sbox(Part(x, 3)));
  }

  /** A word has its first byte at the most significant end. */
  lemma JoinIsBigEndian(a: byte, b: byte, c: byte, d: byte)
    ensures Join(a, b, c, d) == (Join(0, a, b, c) << 8) | (d as word) && Join(0, 0, 0, 0) == 0
  {
  }

  predicate BitOf(x: word, i: bv8) { i < 32 && (x >> i) & 1 == 1 }

  /** Bit by bit: set in exactly one of the two. */
  lemma XorOnBits(a: word, b: word, i: bv8)
    ensures BitOf(Xor32(a, b), i) <==> BitOf(a, i) != BitOf(b, i)
  {
  }

  lemma XorComm(a: word, b: word)
    ensures Xor32(a, b) == Xor32(b, a)
  {
  }

  lemma XorAssoc(a: word, b: word, c: word)
    ensures Xor32(Xor32(a, b), c) == Xor32(a, Xor32(b, c))
  {
  }

  lemma XorOrder(b: word, c: word, d: word, k: word)
    ensures XorFour(b, c, d, k) == XorFour(d, c, b, k)
  {
    XorAssoc(b, c, d);
    XorComm(b, Xor32(c, d));
    XorComm(c, d);
  }

  lemma XorCancels(a: word, t: word)
    ensures Xor32(Xor32(a, t), t) == a
  {
  }

  lemma RoundOfUndoes(t: word -> word)
    ensures Undoes(RoundOf(t))
  {
    var f := RoundOf(t);
    forall a: word, b: word, c: word, d: word, k: word ensures f(f(a, b, c, d, k), d, c, b, k) == a {
      XorOrder(b, c, d, k);
      XorCancels(a, t(XorFour(b, c, d, k)));
    }
  }

  // ---------- the cipher

  const SM4_FK: Words4 := [0xA3B1BAC6, 0x56AA3350, 0x677D9197, 0xB27022DC]

  /** The value of a word. */
  type Value = n: nat | n < 0x1_0000_0000

  const CK0: seq<Value> := [0x00070e15, 0x1c232a31, 0x383f464d, 0x545b6269]
  const CK1: seq<Value> := [0x70777e85, 0x8c939aa1, 0xa8afb6bd, 0xc4cbd2d9]
  const CK2: seq<Value> := [0xe0e7eef5, 0xfc030a11, 0x181f262d, 0x343b4249]
  const CK3: seq<Value> := [0x50575e65, 0x6c737a81, 0x888f969d, 0xa4abb2b9]
  const CK4: seq<Value> := [0xc0c7ced5, 0xdce3eaf1, 0xf8ff060d, 0x141b2229]
  const CK5: seq<Value> := [0x30373e45, 0x4c535a61, 0x686f767d, 0x848b9299]
  const CK6: seq<Value> := [0xa0a7aeb5, 0xbcc3cad1, 0xd8dfe6ed, 0xf4fb0209]
  const CK7: seq<Value> := [0x10171e25, 0x2c333a41, 0x484f565d, 0x646b7279]

  const CK: seq<seq<Value>> := [CK0, CK1, CK2, CK3, CK4, CK5, CK6, CK7]

  const SM4_CK: seq<word> := CkWords()

  function CkWords(): (r: seq<word>)
    ensures |r| == 32
  { seq(32, i requires 0 <= i < 32 => CkValue(i) as word) }

  function CkValue(i: nat): Value
    requires i < 32
  { CK[i / 4][i % 4] }

  /** Byte j of CK_i is 7(4i + j) modulo 256. */
  ghost predicate IsCk(n: nat, i: nat) {
    n == ((28 * i % 256 * 256 + (28 * i + 7) % 256) * 256 + (28 * i + 14) % 256) * 256 + (28 * i + 21) % 256
  }

  ghost predicate IsCkWord(w: word, i: nat) { exists n: Value :: w == n as word && IsCk(n, i) }

  ghost predicate AreCk(row: seq<nat>, i: nat) {
    |row| == 4 && IsCk(row[0], i) && IsCk(row[1], i + 1) && IsCk(row[2], i + 2) && IsCk(row[3], i + 3)
  }

  lemma CkRow0()
    ensures AreCk(CK0, 0)
  {
  }

  lemma CkRow1()
    ensures AreCk(CK1, 4)
  {
  }

  lemma CkRow2()
    ensures AreCk(CK2, 8)
  {
  }

  lemma CkRow3()
    ensures AreCk(CK3, 12)
  {
  }

  lemma CkRow4()
    ensures AreCk(CK4, 16)
  {
  }

  lemma CkRow5()
    ensures AreCk(CK5, 20)
  {
  }

  lemma CkRow6()
    ensures AreCk(CK6, 24)
  {
  }

  lemma CkRow7()
    ensures AreCk(CK7, 28)
  {
  }

  lemma RowsAreCk(r: nat)
    requires r < 8
    ensures AreCk(CK[r], 4 * r)
  {
    match r
    case 0 => CkRow0();
    case 1 => CkRow1();
    case 2 => CkRow2();
    case 3 => CkRow3();
    case 4 => CkRow4();
    case 5 => CkRow5();
    case 6 => CkRow6();
    case _ => CkRow7();
  }

  lemma InRow(row: seq<nat>, i: nat, k: nat)
    requires AreCk(row, i) && k < 4
    ensures IsCk(row[k], i + k)
  {
  }

  lemma ConstantsAreCk(i: nat)
    requires i < 32
    ensures IsCkWord(SM4_CK[i], i)
  {
    ValuesAreCk(i);
    ValueIs(CkWords(), i, CkValue(i));
  }

  lemma ValuesAreCk(i: nat)
    requires i < 32
    ensures IsCk(CkValue(i), i)
  {
    RowsAreCk(i / 4);
    InRow(CK[i / 4], 4 * (i / 4), i % 4);
  }

  lemma ValueIs(ws: seq<word>, i: nat, n: Value)
    requires i < |ws| && ws[i] == n as word && IsCk(n, i)
    ensures IsCkWord(ws[i], i)
  {
  }

  function RoundKeys(sbox: Sbox, key: Block): (rk: seq<word>)
    ensures |rk| == 32
  { Run(KeyRound(sbox), SM4_CK, XorWords(SM4_FK, ToWords(key)), 32)[4..] }

  function EncryptBlock(sbox: Sbox, key: Block, b: Block): Block
  { FromWords(Output(EncRound(sbox), RoundKeys(sbox, key), ToWords(b))) }

  function DecryptBlock(sbox: Sbox, key: Block, b: Block): Block
  { FromWords(Output(EncRound(sbox), Reverse(RoundKeys(sbox, key)), ToWords(b))) }

  /** Decryption inverts encryption, for every key and block. */
  lemma DecryptInvertsEncrypt(sbox: Sbox, key: Block, b: Block)
    ensures DecryptBlock(sbox, key, EncryptBlock(sbox, key, b)) == b
  {
    var f, rk, x := EncRound(sbox), RoundKeys(sbox, key), ToWords(b);
    RoundOfUndoes(TEnc(sbox));
    ToFromWords(Output(f, rk, x));
    OutputInverts(f, rk, x);
    FromToWords(b);
  }
}
