/** The 32-bit words of SM3: rotation by any number of places, and the operations of the standard. */
module Sm3Words {
  import opened Streams

  type word = bv32

  // ---------- rotation

  function Rot1(x: word): word { (x << 1) | (x >> 31) }
  function Rot7(x: word): word { (x << 7) | (x >> 25) }
  function Rot9(x: word): word { (x << 9) | (x >> 23) }
  function Rot12(x: word): word { (x << 12) | (x >> 20) }
  function Rot15(x: word): word { (x << 15) | (x >> 17) }
  function Rot16(x: word): word { (x << 16) | (x >> 16) }
  function Rot17(x: word): word { (x << 17) | (x >> 15) }
  function Rot19(x: word): word { (x << 19) | (x >> 13) }
  function Rot23(x: word): word { (x << 23) | (x >> 9) }

  /** Rotation by n places: n times by one. */
  function Rotated<W>(r: W -> W, x: W, n: nat): W { if n == 0 then x else r(Rotated(r, x, n - 1)) }

  lemma {:induction false} RotatedAdd<W>(r: W -> W, x: W, m: nat, n: nat)
    ensures Rotated(r, x, m + n) == Rotated(r, Rotated(r, x, n), m)
  {
    if m > 0 {
      RotatedAdd(r, x, m - 1, n);
    }
  }

  /** Doing twice what n single rotations do. */
  lemma RotatedTwice(r: word -> word, n: nat, x: word, y: word, z: word)
    requires Rotated(r, x, n) == y && Rotated(r, y, n) == z
    ensures Rotated(r, x, n + n) == z
  {
    RotatedAdd(r, x, n, n);
  }

  function Rot2(x: word): word { (x << 2) | (x >> 30) }
  function Rot4(x: word): word { (x << 4) | (x >> 28) }
  function Rot8(x: word): word { (x << 8) | (x >> 24) }

  lemma Double1(x: word)
    ensures Rot1(Rot1(x)) == Rot2(x)
  {
  }

  lemma Double2(x: word)
    ensures Rot2(Rot2(x)) == Rot4(x)
  {
  }

  lemma Double4(x: word)
    ensures Rot4(Rot4(x)) == Rot8(x)
  {
  }

  lemma Double8(x: word)
    ensures Rot8(Rot8(x)) == Rot16(x)
  {
  }

  lemma Double16(x: word)
    ensures Rot16(Rot16(x)) == x
  {
  }

  lemma Turn1(r: word -> word, n: nat, x: word)
    requires n == 1
    ensures Rotated(r, x, n) == r(x)
  {
    assert Rotated(r, x, n - 1) == x;
  }

  lemma Turn2(n: nat, x: word)
    requires n == 1
    ensures Rotated(Rot1, x, 2 * n) == Rot2(x)
  {
    Turn1(Rot1, n, x);
    Turn1(Rot1, n, Rot1(x));
    Double1(x);
    RotatedTwice(Rot1, n, x, Rot1(x), Rot2(x));
  }

  lemma Turn4(n: nat, x: word)
    requires n == 1
    ensures Rotated(Rot1, x, 4 * n) == Rot4(x)
  {
    Turn2(n, x);
    Turn2(n, Rot2(x));
    Double2(x);
    RotatedTwice(Rot1, 2 * n, x, Rot2(x), Rot4(x));
  }

  lemma Turn8(n: nat, x: word)
    requires n == 1
    ensures Rotated(Rot1, x, 8 * n) == Rot8(x)
  {
    Turn4(n, x);
    Turn4(n, Rot4(x));
    Double4(x);
    RotatedTwice(Rot1, 4 * n, x, Rot4(x), Rot8(x));
  }

  /** Sixteen single rotations are the rotation by sixteen. */
  lemma Turn16(n: nat, x: word)
    requires n == 1
    ensures Rotated(Rot1, x, 16 * n) == Rot16(x)
  {
    Turn8(n, x);
    Turn8(n, Rot8(x));
    Double8(x);
    RotatedTwice(Rot1, 8 * n, x, Rot8(x), Rot16(x));
  }

  /** Thirty-two change nothing. */
  lemma Turn32(n: nat, x: word)
    requires n == 1
    ensures Rotated(Rot1, x, 32 * n) == x
  {
    Turn16(n, x);
    Turn16(n, Rot16(x));
    Double16(x);
    RotatedTwice(Rot1, 16 * n, x, Rot16(x), x);
  }

  // ---------- words

  /** The operations on words that the standard uses, with its constants. */
  datatype Ops<!W> = Ops(
    xor: (W, W) -> W, add: (W, W) -> W, join: (byte, byte, byte, byte) -> W, bytes: W -> Bytes,
    rot1: W -> W, rot7: W -> W, rot9: W -> W, rot12: W -> W, rot15: W -> W, rot16: W -> W, rot17: W -> W, rot19: W -> W,
    rot23: W -> W,
    maj: (W, W, W) -> W, ch: (W, W, W) -> W, t1: W, t2: W)

  /** Rotation by 16 and by 32 in terms of rotation by one. */
  ghost predicate Turns<W(!new)>(o: Ops<W>) {
    && (forall x, n :: n == 16 ==> Rotated(o.rot1, x, n) == o.rot16(x))
    && (forall x, n :: n == 32 ==> Rotated(o.rot1, x, n) == x)
  }

  function Xor(x: word, y: word): word { x ^ y }
  function Add(x: word, y: word): word { x + y }
  function Maj(x: word, y: word, z: word): word { (x & y) | (x & z) | (y & z) }
  function Ch(x: word, y: word, z: word): word { (x & y) | (!x & z) }

  function Join(a: byte, b: byte, c: byte, d: byte): word {
    ((a as word) << 24) | ((b as word) << 16) | ((c as word) << 8) | (d as word)
  }

  function WordBytes(w: word): Bytes {
    [((w >> 24) & 0xFF) as byte, ((w >> 16) & 0xFF) as byte, ((w >> 8) & 0xFF) as byte, (w & 0xFF) as byte]
  }

  function Words32(): Ops<word> {
    Ops(Xor, Add, Join, WordBytes, Rot1, Rot7, Rot9, Rot12, Rot15, Rot16, Rot17, Rot19, Rot23, Maj, Ch,
        0x79CC4519, 0x7A879D8A)
  }

  // ---------- what they are

  /** The rotations are by that many places. */
  lemma RotationsRotate(x: word)
    ensures var o := Words32();
      && o.rot1(x) == x.RotateLeft(1) && o.rot7(x) == x.RotateLeft(7) && o.rot9(x) == x.RotateLeft(9)
      && o.rot12(x) == x.RotateLeft(12) && o.rot15(x) == x.RotateLeft(15) && o.rot16(x) == x.RotateLeft(16)
      && o.rot17(x) == x.RotateLeft(17) && o.rot19(x) == x.RotateLeft(19) && o.rot23(x) == x.RotateLeft(23)
  {
  }

  /** Sums are modulo 2^32, and differences bit by bit. */
  lemma SumsAdd(x: word, y: word)
    ensures Words32().add(x, y) == x + y && Words32().xor(x, y) == (x & !y) | (!x & y)
  {
  }

  /** Where x has a one Ch has y, elsewhere z. */
  lemma ChChooses(x: word, y: word, z: word)
    ensures Chooses(Words32().ch(x, y, z), x, y, z)
  {
    ChIs(x, y, z);
    ChBitwise(x, y, z);
  }

  ghost predicate Chooses(c: word, x: word, y: word, z: word) { x & c == x & y && !x & c == !x & z }

  lemma ChIs(x: word, y: word, z: word)
    ensures Words32().ch(x, y, z) == Ch(x, y, z)
  {
  }

  lemma ChBitwise(x: word, y: word, z: word)
    ensures Chooses(Ch(x, y, z), x, y, z)
  {
    ChOnes(x, y, z);
    ChZeros(x, y, z);
  }

  lemma ChOnes(x: word, y: word, z: word)
    ensures x & Ch(x, y, z) == x & y
  {
  }

  lemma ChZeros(x: word, y: word, z: word)
    ensures !x & Ch(x, y, z) == !x & z
  {
  }

  /** Where two of the words have a one Maj has one, and where two have a zero it has a zero. */
  lemma MajOnes(x: word, y: word, z: word)
    ensures Words32().maj(x, y, z) & (x & y) == x & y
  {
    MajOnesIn(x, y, z);
  }

  lemma MajZeros(x: word, y: word, z: word)
    ensures Words32().maj(x, y, z) | (x | y) == x | y
  {
    MajZerosIn(x, y, z);
  }

  lemma MajTurns(x: word, y: word, z: word)
    ensures Words32().maj(x, y, z) == Words32().maj(y, z, x)
  {
    MajTurnsIn(x, y, z);
  }

  lemma MajOnesIn(x: word, y: word, z: word)
    ensures Maj(x, y, z) & (x & y) == x & y
  {
  }

  lemma MajZerosIn(x: word, y: word, z: word)
    ensures Maj(x, y, z) | (x | y) == x | y
  {
  }

  lemma MajTurnsIn(x: word, y: word, z: word)
    ensures Maj(x, y, z) == Maj(y, z, x)
  {
  }

  /** A word has its first byte at the most significant end. */
  lemma JoinIsBigEndian(a: byte, b: byte, c: byte, d: byte)
    ensures var j := Words32().join; j(a, b, c, d) == (j(0, a, b, c) << 8) | (d as word) && j(0, 0, 0, 0) == 0
    ensures Words32().bytes(Words32().join(a, b, c, d)) == [a, b, c, d]
  {
    BytesOfJoin(a, b, c, d);
  }

  lemma BytesOfJoin(a: byte, b: byte, c: byte, d: byte)
    ensures WordBytes(Join(a, b, c, d)) == [a, b, c, d]
  {
  }

  lemma Words32Turn()
    ensures Turns(Words32())
  {
    forall x, n | n == 16 ensures Rotated(Rot1, x, n) == Rot16(x) {
      Turn16(n - 15, x);
    }
    forall x, n | n == 32 ensures Rotated(Rot1, x, n) == x {
      Turn32(n - 31, x);
    }
  }
}

/** SM3, as GM/T 0004-2012 defines it, over any words with the operations it needs. */
module Sm3 {
  import opened Streams
  import opened Sm3Words

  /** The eight registers, or a chaining value. */
  datatype Regs<W> = Regs(a: W, b: W, c: W, d: W, e: W, f: W, g: W, h: W)

  // ---------- the compression function (section 5.3)

  function P0<W>(o: Ops<W>, x: W): W { o.xor(o.xor(x, o.rot9(x)), o.rot17(x)) }
  function P1<W>(o: Ops<W>, x: W): W { o.xor(o.xor(x, o.rot15(x)), o.rot23(x)) }

  function Ff<W>(o: Ops<W>, j: nat, x: W, y: W, z: W): W { if j < 16 then o.xor(o.xor(x, y), z) else o.maj(x, y, z) }
  function Gg<W>(o: Ops<W>, j: nat, x: W, y: W, z: W): W { if j < 16 then o.xor(o.xor(x, y), z) else o.ch(x, y, z) }

  /** T_j rotated by j mod 32. */
  function Tj<W>(o: Ops<W>, j: nat): W { Rotated(o.rot1, if j < 16 then o.t1 else o.t2, j % 32) }

  /** The message expansion of a block. */
  function W<T>(o: Ops<T>, b: Bytes, j: nat): T
    requires |b| == 64
  {
    if j < 16 then o.join(b[4 * j], b[4 * j + 1], b[4 * j + 2], b[4 * j + 3])
    else Expand(o, W(o, b, j - 16), W(o, b, j - 9), W(o, b, j - 3), W(o, b, j - 13), W(o, b, j - 6))
  }

  function Expand<W>(o: Ops<W>, w16: W, w9: W, w3: W, w13: W, w6: W): W {
    o.xor(o.xor(P1(o, o.xor(o.xor(w16, w9), o.rot15(w3))), o.rot7(w13)), w6)
  }

  /** One round, with the rotated constant t, the word w and the word w1 of W'. */
  function Round<W>(o: Ops<W>, j: nat, r: Regs<W>, t: W, w: W, w1: W): Regs<W> {
    var ss1 := o.rot7(o.add(o.add(o.rot12(r.a), r.e), t));
    var ss2 := o.xor(ss1, o.rot12(r.a));
    var tt1 := o.add(o.add(o.add(Ff(o, j, r.a, r.b, r.c), r.d), ss2), w1);
    var tt2 := o.add(o.add(o.add(Gg(o, j, r.e, r.f, r.g), r.h), ss1), w);
    Regs(tt1, r.a, o.rot9(r.b), r.c, P0(o, tt2), r.e, o.rot19(r.f), r.g)
  }

  function Rounds<W>(o: Ops<W>, w: nat -> W, v: Regs<W>, n: nat): Regs<W> {
    if n == 0 then v else Round(o, n - 1, Rounds(o, w, v, n - 1), Tj(o, n - 1), w(n - 1), o.xor(w(n - 1), w(n + 3)))
  }

  function Mix<W>(o: Ops<W>, x: Regs<W>, v: Regs<W>): Regs<W> {
    Regs(o.xor(x.a, v.a), o.xor(x.b, v.b), o.xor(x.c, v.c), o.xor(x.d, v.d),
         o.xor(x.e, v.e), o.xor(x.f, v.f), o.xor(x.g, v.g), o.xor(x.h, v.h))
  }

  /** CF, on blocks of 64 bytes. */
  function Compress<T>(o: Ops<T>, v: Regs<T>, b: Bytes): Regs<T> {
    if |b| != 64 then v else Mix(o, Rounds(o, (j: nat) => W(o, b, j), v, 64), v)
  }

  /** The constant that the code carries from round to round. */
  function RunningT<W>(o: Ops<W>, t: W, j: nat): W {
    if j == 0 then o.t1 else if j == 16 then o.rot16(o.t2) else o.rot1(t)
  }

  /** It is T_j rotated by j mod 32, across the change of constant and the wrap-around. */
  lemma RunningTIsTj<W(!new)>(o: Ops<W>, t: W, j: nat)
    requires Turns(o) && j < 64 && (j > 0 ==> t == Tj(o, j - 1))
    ensures RunningT(o, t, j) == Tj(o, j)
  {
    if j == 16 {
      assert Rotated(o.rot1, o.t2, j) == o.rot16(o.t2);
    } else if j == 32 {
      LastTurn(o, o.t2, j - 1);
    } else if j > 0 {
      assert j % 32 == (j - 1) % 32 + 1;
    }
  }

  lemma LastTurn<W(!new)>(o: Ops<W>, x: W, n: nat)
    requires Turns(o) && n == 31
    ensures o.rot1(Rotated(o.rot1, x, n)) == x
  {
    assert Rotated(o.rot1, x, n + 1) == x;
  }

  // ---------- the digest

  function Output<W>(o: Ops<W>, v: Regs<W>): Bytes {
    o.bytes(v.a) + o.bytes(v.b) + o.bytes(v.c) + o.bytes(v.d)
    + o.bytes(v.e) + o.bytes(v.f) + o.bytes(v.g) + o.bytes(v.h)
  }

  function Iv(): Regs<bv32> {
    Regs(0x7380166f, 0x4914b2b9, 0x172442d7, 0xda8a0600, 0xa96f30bc, 0x163138aa, 0xe38dee4d, 0xb0fb0e4e)
  }

  /** Section 5: the compression function folded over the padded message. */
  function DigestFrom<W>(o: Ops<W>, iv: Regs<W>, m: Bytes): Bytes {
    Output(o, Fold(Compressor(o), iv, Chop(64, Padded(64, 8, m))))
  }

  function Compressor<W>(o: Ops<W>): (Regs<W>, Bytes) -> Regs<W> { (v: Regs<W>, b: Bytes) => Compress(o, v, b) }

  function Digest(m: Bytes): Bytes { DigestFrom(Words32(), Iv(), m) }
}
