/** The 64-bit words of SHA-512. */
module Sha512Words {
  import opened Streams

  type word = bv64

  /** The operations on words that section 6.4.2 of FIPS 180-4 uses, with its constants: sums of several words, the six
      logical functions, and conversions. The names in code- are the forms in which the code has some of them. */
  datatype Ops<!W> = Ops(
    add: (W, W) -> W, add3: (W, W, W) -> W, add4: (W, W, W, W) -> W, add5: (W, W, W, W, W) -> W,
    codeAdd3: (W, W, W) -> W, codeAdd4: (W, W, W, W) -> W, codeAdd5: (W, W, W, W, W) -> W,
    join: (byte, byte, byte, byte, byte, byte, byte, byte) -> W, part: (W, nat) -> byte,
    sum0: W -> W, sum1: W -> W, sigma0: W -> W, sigma1: W -> W,
    ch: (W, W, W) -> W, maj: (W, W, W) -> W, codeCh: (W, W, W) -> W, codeMaj: (W, W, W) -> W, k: nat -> W)

  /** The code's forms are the standard's. */
  ghost predicate Agree<W(!new)>(o: Ops<W>) {
    && (forall x, y, z :: o.codeCh(x, y, z) == o.ch(x, y, z))
    && (forall x, y, z :: o.codeMaj(x, y, z) == o.maj(x, y, z))
    && (forall t1, s, m :: o.codeAdd3(t1, m, s) == o.add3(t1, s, m))
    && (forall s1, w7, s0, w16 :: o.codeAdd4(s0, s1, w16, w7) == o.add4(s1, w7, s0, w16))
    && (forall h, s, c, k, w :: o.codeAdd5(w, h, s, c, k) == o.add5(h, s, c, k, w))
  }

  function Add(x: word, y: word): word { x + y }
  /** T1 + T2, where T2 is the sum of the last two. */
  function Add3(t1: word, s: word, m: word): word { t1 + (s + m) }
  function Add4(a: word, b: word, c: word, d: word): word { a + b + c + d }
  function Add5(a: word, b: word, c: word, d: word, e: word): word { a + b + c + d + e }
  function CodeAdd3(tmp: word, m: word, s: word): word { tmp + m + s }
  function Sum0(x: word): word { ((x >> 28) | (x << 36)) ^ ((x >> 34) | (x << 30)) ^ ((x >> 39) | (x << 25)) }
  function Sum1(x: word): word { ((x >> 14) | (x << 50)) ^ ((x >> 18) | (x << 46)) ^ ((x >> 41) | (x << 23)) }
  function Sigma0(x: word): word { ((x >> 1) | (x << 63)) ^ ((x >> 8) | (x << 56)) ^ (x >> 7) }
  function Sigma1(x: word): word { ((x >> 19) | (x << 45)) ^ ((x >> 61) | (x << 3)) ^ (x >> 6) }
  function Ch(x: word, y: word, z: word): word { (x & y) ^ (!x & z) }
  function Maj(x: word, y: word, z: word): word { (x & y) ^ (x & z) ^ (y & z) }
  function CodeCh(h4: word, h5: word, h6: word): word { h6 ^ (h4 & (h6 ^ h5)) }
  function CodeMaj(h1: word, h2: word, h3: word): word { (h1 & h2) ^ (h3 & (h1 ^ h2)) }

  function Join(a: byte, b: byte, c: byte, d: byte, e: byte, f: byte, g: byte, h: byte): word {
    ((a as word) << 56) | ((b as word) << 48) | ((c as word) << 40) | ((d as word) << 32)
    | ((e as word) << 24) | ((f as word) << 16) | ((g as word) << 8) | (h as word)
  }

  /** Byte j of a word, the most significant first. */
  function Part(w: word, j: nat): byte {
    if j == 0 then ((w >> 56) & 0xFF) as byte else if j == 1 then ((w >> 48) & 0xFF) as byte
    else if j == 2 then ((w >> 40) & 0xFF) as byte else if j == 3 then ((w >> 32) & 0xFF) as byte
    else if j == 4 then ((w >> 24) & 0xFF) as byte else if j == 5 then ((w >> 16) & 0xFF) as byte
    else if j == 6 then ((w >> 8) & 0xFF) as byte else (w & 0xFF) as byte
  }

  /** The standard's operations with a table of constants. */
  function With(k: nat -> word): Ops<word> {
    Ops(Add, Add3, Add4, Add5, CodeAdd3, Add4, Add5, Join, Part,
        Sum0, Sum1, Sigma0, Sigma1, Ch, Maj, CodeCh, CodeMaj, k)
  }

  // ---------- what they are

  /** Section 4.1.3. */
  lemma SumsRotate(k: nat -> word, x: word)
    ensures With(k).sum0(x) == x.RotateRight(28) ^ x.RotateRight(34) ^ x.RotateRight(39)
    ensures With(k).sum1(x) == x.RotateRight(14) ^ x.RotateRight(18) ^ x.RotateRight(41)
  {
  }

  lemma SigmasRotate(k: nat -> word, x: word)
    ensures With(k).sigma0(x) == x.RotateRight(1) ^ x.RotateRight(8) ^ (x >> 7)
    ensures With(k).sigma1(x) == x.RotateRight(19) ^ x.RotateRight(61) ^ (x >> 6)
  {
  }

  /** Where x has a one Ch has y, elsewhere z. */
  lemma ChChooses(k: nat -> word, x: word, y: word, z: word)
    ensures Chooses(With(k).ch(x, y, z), x, y, z)
  {
    ChIs(k, x, y, z);
    ChBitwise(x, y, z);
  }

  ghost predicate Chooses(c: word, x: word, y: word, z: word) { x & c == x & y && !x & c == !x & z }

  lemma ChIs(k: nat -> word, x: word, y: word, z: word)
    ensures With(k).ch(x, y, z) == Ch(x, y, z)
  {
  }

  lemma ChBitwise(x: word, y: word, z: word)
    ensures Chooses(Ch(x, y, z), x, y, z)
  {
    ChOnes(x, y, z);
    ChZeros(x, y, z);
  }

  lemma ChOnes(x: word, y: word, z: word)
    ensures x & Ch(x, y, z) == x & y
  {
  }

  lemma ChZeros(x: word, y: word, z: word)
    ensures !x & Ch(x, y, z) == !x & z
  {
  }

  /** Where two of the words have a one Maj has one, and where two have a zero it has a zero. */
  lemma MajOnes(k: nat -> word, x: word, y: word, z: word)
    ensures With(k).maj(x, y, z) & (x & y) == x & y
  {
    MajOnesIn(x, y, z);
  }

  lemma MajZeros(k: nat -> word, x: word, y: word, z: word)
    ensures With(k).maj(x, y, z) | (x | y) == x | y
  {
    MajZerosIn(x, y, z);
  }

  lemma MajTurns(k: nat -> word, x: word, y: word, z: word)
    ensures With(k).maj(x, y, z) == With(k).maj(y, z, x)
  {
    MajTurnsIn(x, y, z);
  }

  lemma MajOnesIn(x: word, y: word, z: word)
    ensures Maj(x, y, z) & (x & y) == x & y
  {
  }

  lemma MajZerosIn(x: word, y: word, z: word)
    ensures Maj(x, y, z) | (x | y) == x | y
  {
  }

  lemma MajTurnsIn(x: word, y: word, z: word)
    ensures Maj(x, y, z) == Maj(y, z, x)
  {
  }

  /** Sums of two to five words. */
  lemma SumsAdd(k: nat -> word, a: word, b: word, c: word, d: word, e: word)
    ensures With(k).add(a, b) == a + b && With(k).add3(a, b, c) == a + b + c
    ensures With(k).add4(a, b, c, d) == a + b + c + d && With(k).add5(a, b, c, d, e) == a + b + c + d + e
  {
    SumsAgree(a, b, c, d, e);
  }

  /** A word has its first byte at the most significant end. */
  lemma JoinIsBigEndian(k: nat -> word, a: byte, b: byte, c: byte, d: byte, e: byte, f: byte, g: byte, h: byte)
    ensures var j := With(k).join;
      j(a, b, c, d, e, f, g, h) == (j(0, a, b, c, d, e, f, g) << 8) | (h as word) && j(0, 0, 0, 0, 0, 0, 0, 0) == 0
  {
  }

  lemma PartsOfJoin(k: nat -> word, a: byte, b: byte, c: byte, d: byte, e: byte, f: byte, g: byte, h: byte)
    ensures var o := With(k);
      var w := o.join(a, b, c, d, e, f, g, h);
      && o.part(w, 0) == a && o.part(w, 1) == b && o.part(w, 2) == c && o.part(w, 3) == d
      && o.part(w, 4) == e && o.part(w, 5) == f && o.part(w, 6) == g && o.part(w, 7) == h
  {
    PartsJoined(a, b, c, d, e, f, g, h);
  }

  lemma PartsJoined(a: byte, b: byte, c: byte, d: byte, e: byte, f: byte, g: byte, h: byte)
    ensures var w := Join(a, b, c, d, e, f, g, h);
      && Part(w, 0) == a && Part(w, 1) == b && Part(w, 2) == c && Part(w, 3) == d
      && Part(w, 4) == e && Part(w, 5) == f && Part(w, 6) == g && Part(w, 7) == h
  {
  }

  lemma ChBits(x: word, y: word, z: word)
    ensures z ^ (x & (z ^ y)) == (x & y) ^ (!x & z)
  {
  }

  lemma ChAgrees(x: word, y: word, z: word)
    ensures CodeCh(x, y, z) == Ch(x, y, z)
  {
    ChBits(x, y, z);
  }

  lemma MajBits(x: word, y: word, z: word)
    ensures (x & y) ^ (z & (x ^ y)) == (x & y) ^ (x & z) ^ (y & z)
  {
  }

  lemma MajAgrees(x: word, y: word, z: word)
    ensures CodeMaj(x, y, z) == Maj(x, y, z)
  {
    MajBits(x, y, z);
  }

  lemma SumsAgree(a: word, b: word, c: word, d: word, e: word)
    ensures CodeAdd3(a, c, b) == Add3(a, b, c)
    ensures Add4(c, a, d, b) == Add4(a, b, c, d)
    ensures Add5(e, a, b, c, d) == Add5(a, b, c, d, e)
  {
  }

  /** The code's forms are those of the standard. */
  lemma FormsAgree(k: nat -> word)
    ensures Agree(With(k))
  {
    forall a, b, c ensures CodeAdd3(a, c, b) == Add3(a, b, c) { SumsAgree(a, b, c, 0, 0); }
    forall a, b, c, d ensures Add4(c, a, d, b) == Add4(a, b, c, d) { SumsAgree(a, b, c, d, 0); }
    forall a, b, c, d, e ensures Add5(e, a, b, c, d) == Add5(a, b, c, d, e) { SumsAgree(a, b, c, d, e); }
    forall x, y, z ensures CodeCh(x, y, z) == Ch(x, y, z) { ChAgrees(x, y, z); }
    forall x, y, z ensures CodeMaj(x, y, z) == Maj(x, y, z) { MajAgrees(x, y, z); }
  }
}

/** SHA-512, as FIPS 180-4 defines it, over any words with the operations it needs. */
module Sha512 {
  import opened Streams
  import opened Sha512Words

  /** The eight working variables, or a hash value. */
  datatype Regs<W> = Regs(a: W, b: W, c: W, d: W, e: W, f: W, g: W, h: W)

  /** The message schedule of a block (section 6.4.2, step 1). */
  function W<T>(o: Ops<T>, m: Bytes, t: nat): T
    requires |m| == 128
  {
    if t < 16 then WordAt(o, m, t) else Next(o, W(o, m, t - 2), W(o, m, t - 7), W(o, m, t - 15), W(o, m, t - 16))
  }

  function WordAt<T>(o: Ops<T>, m: Bytes, t: nat): T
    requires 8 * t + 8 <= |m|
  {
    o.join(m[8 * t], m[8 * t + 1], m[8 * t + 2], m[8 * t + 3], m[8 * t + 4], m[8 * t + 5], m[8 * t + 6], m[8 * t + 7])
  }

  function Next<T>(o: Ops<T>, w2: T, w7: T, w15: T, w16: T): T { o.add4(o.sigma1(w2), w7, o.sigma0(w15), w16) }

  /** One round (step 3), with the constant k and the word w. */
  function Round<T>(o: Ops<T>, r: Regs<T>, k: T, w: T): Regs<T> {
    var t1 := o.add5(r.h, o.sum1(r.e), o.ch(r.e, r.f, r.g), k, w);
    Regs(o.add3(t1, o.sum0(r.a), o.maj(r.a, r.b, r.c)), r.a, r.b, r.c, o.add(r.d, t1), r.e, r.f, r.g)
  }

  function Rounds<T>(o: Ops<T>, w: nat -> T, v: Regs<T>, n: nat): Regs<T> {
    if n == 0 then v else Round(o, Rounds(o, w, v, n - 1), o.k(n - 1), w(n - 1))
  }

  function Sum<T>(o: Ops<T>, v: Regs<T>, x: Regs<T>): Regs<T> {
    Regs(o.add(v.a, x.a), o.add(v.b, x.b), o.add(v.c, x.c), o.add(v.d, x.d),
         o.add(v.e, x.e), o.add(v.f, x.f), o.add(v.g, x.g), o.add(v.h, x.h))
  }

  function Compress<T>(o: Ops<T>, v: Regs<T>, m: Bytes): Regs<T> {
    if |m| != 128 then v else Sum(o, v, Rounds(o, (t: nat) => W(o, m, t), v, 80))
  }

  function Compressor<T>(o: Ops<T>): (Regs<T>, Bytes) -> Regs<T> { (v: Regs<T>, m: Bytes) => Compress(o, v, m) }

  function WordBytes<T>(o: Ops<T>, w: T): Bytes {
    [o.part(w, 0), o.part(w, 1), o.part(w, 2), o.part(w, 3), o.part(w, 4), o.part(w, 5), o.part(w, 6), o.part(w, 7)]
  }

  function Output<T>(o: Ops<T>, v: Regs<T>): Bytes {
    WordBytes(o, v.a) + WordBytes(o, v.b) + WordBytes(o, v.c) + WordBytes(o, v.d)
    + WordBytes(o, v.e) + WordBytes(o, v.f) + WordBytes(o, v.g) + WordBytes(o, v.h)
  }

  /** The digest of the message padded as section 5.1.2 says. */
  function DigestFrom<T>(o: Ops<T>, iv: Regs<T>, m: Bytes): Bytes {
    Output(o, Fold(Compressor(o), iv, Chop(128, Padded(128, 16, m))))
  }

  // ---------- the constants

  /** The value of a 64-bit word. */
  type Value = n: nat | n < 0x1_0000_0000_0000_0000

  /** The initial hash value. */
  const IV: seq<Value> :=
    [0x6a09e667f3bcc908, 0xbb67ae8584caa73b, 0x3c6ef372fe94f82b, 0xa54ff53a5f1d36f1,
     0x510e527fade682d1, 0x9b05688c2b3e6c1f, 0x1f83d9abfb41bd6b, 0x5be0cd19137e2179]

  function Iv(): Regs<bv64> { FromValues(IV) }

  function FromValues(v: seq<Value>): Regs<bv64>
    requires |v| == 8
  {
    Regs(v[0] as bv64, v[1] as bv64, v[2] as bv64, v[3] as bv64,
         v[4] as bv64, v[5] as bv64, v[6] as bv64, v[7] as bv64)
  }

  /** The constants of the rounds. */
  const K0: seq<Value> :=
    [0x428a2f98d728ae22, 0x7137449123ef65cd, 0xb5c0fbcfec4d3b2f, 0xe9b5dba58189dbbc,
     0x3956c25bf348b538, 0x59f111f1b605d019, 0x923f82a4af194f9b, 0xab1c5ed5da6d8118]
  const K1: seq<Value> :=
    [0xd807aa98a3030242, 0x12835b0145706fbe, 0x243185be4ee4b28c, 0x550c7dc3d5ffb4e2,
     0x72be5d74f27b896f, 0x80deb1fe3b1696b1, 0x9bdc06a725c71235, 0xc19bf174cf692694]
  const K2: seq<Value> :=
    [0xe49b69c19ef14ad2, 0xefbe4786384f25e3, 0x0fc19dc68b8cd5b5, 0x240ca1cc77ac9c65,
     0x2de92c6f592b0275, 0x4a7484aa6ea6e483, 0x5cb0a9dcbd41fbd4, 0x76f988da831153b5]
  const K3: seq<Value> :=
    [0x983e5152ee66dfab, 0xa831c66d2db43210, 0xb00327c898fb213f, 0xbf597fc7beef0ee4,
     0xc6e00bf33da88fc2, 0xd5a79147930aa725, 0x06ca6351e003826f, 0x142929670a0e6e70]
  const K4: seq<Value> :=
    [0x27b70a8546d22ffc, 0x2e1b21385c26c926, 0x4d2c6dfc5ac42aed, 0x53380d139d95b3df,
     0x650a73548baf63de, 0x766a0abb3c77b2a8, 0x81c2c92e47edaee6, 0x92722c851482353b]
  const K5: seq<Value> :=
    [0xa2bfe8a14cf10364, 0xa81a664bbc423001, 0xc24b8b70d0f89791, 0xc76c51a30654be30,
     0xd192e819d6ef5218, 0xd69906245565a910, 0xf40e35855771202a, 0x106aa07032bbd1b8]
  const K6: seq<Value> :=
    [0x19a4c116b8d2d0c8, 0x1e376c085141ab53, 0x2748774cdf8eeb99, 0x34b0bcb5e19b48a8,
     0x391c0cb3c5c95a63, 0x4ed8aa4ae3418acb, 0x5b9cca4f7763e373, 0x682e6ff3d6b2b8a3]
  const K7: seq<Value> :=
    [0x748f82ee5defb2fc, 0x78a5636f43172f60, 0x84c87814a1f0ab72, 0x8cc702081a6439ec,
     0x90befffa23631e28, 0xa4506cebde82bde9, 0xbef9a3f7b2c67915, 0xc67178f2e372532b]
  const K8: seq<Value> :=
    [0xca273eceea26619c, 0xd186b8c721c0c207, 0xeada7dd6cde0eb1e, 0xf57d4f7fee6ed178,
     0x06f067aa72176fba, 0x0a637dc5a2c898a6, 0x113f9804bef90dae, 0x1b710b35131c471b]
  const K9: seq<Value> :=
    [0x28db77f523047d84, 0x32caab7b40c72493, 0x3c9ebe0a15c9bebc, 0x431d67c49c100d4c,
     0x4cc5d4becb3e42b6, 0x597f299cfc657e2a, 0x5fcb6fab3ad6faec, 0x6c44198c4a475817]

  const CONSTANTS: seq<seq<Value>> := [K0, K1, K2, K3, K4, K5, K6, K7, K8, K9]

  function K(t: nat): bv64 { if t < 80 then Constant(t) as bv64 else 0 }

  function Constant(t: nat): Value
    requires t < 80
  { CONSTANTS[t / 8][t % 8] }

  // ---------- where they come from (sections 4.2.3 and 5.3.5)

  /** The first eighty primes. */
  const P0: seq<nat> := [2, 3, 5, 7, 11, 13, 17, 19]
  const P1: seq<nat> := [23, 29, 31, 37, 41, 43, 47, 53]
  const P2: seq<nat> := [59, 61, 67, 71, 73, 79, 83, 89]
  const P3: seq<nat> := [97, 101, 103, 107, 109, 113, 127, 131]
  const P4: seq<nat> := [137, 139, 149, 151, 157, 163, 167, 173]
  const P5: seq<nat> := [179, 181, 191, 193, 197, 199, 211, 223]
  const P6: seq<nat> := [227, 229, 233, 239, 241, 251, 257, 263]
  const P7: seq<nat> := [269, 271, 277, 281, 283, 293, 307, 311]
  const P8: seq<nat> := [313, 317, 331, 337, 347, 349, 353, 359]
  const P9: seq<nat> := [367, 373, 379, 383, 389, 397, 401, 409]

  const PRIMES: seq<seq<nat>> := [P0, P1, P2, P3, P4, P5, P6, P7, P8, P9]

  /** k is the first 64 bits of the fraction of the cube root of p. */
  ghost predicate CubeRoot(k: nat, p: nat) { exists a :: CubeRootFrom(k, p, a) }

  ghost predicate CubeRootFrom(k: nat, p: nat, a: nat) {
    var r := a * 0x1_0000_0000_0000_0000 + k;
    && a * a * a <= p < (a + 1) * (a + 1) * (a + 1)
    && r * r * r <= p * 0x1_0000_0000_0000_0000_0000_0000_0000_0000_0000_0000_0000_0000 < (r + 1) * (r + 1) * (r + 1)
  }

  ghost predicate CubeRootWord(w: bv64, p: nat) { exists k: Value :: w == k as bv64 && CubeRoot(k, p) }

  /** The same of the square root. */
  ghost predicate SquareRootFrom(k: nat, p: nat, a: nat) {
    var r := a * 0x1_0000_0000_0000_0000 + k;
    && a * a <= p < (a + 1) * (a + 1)
    && r * r <= p * 0x1_0000_0000_0000_0000_0000_0000_0000_0000 < (r + 1) * (r + 1)
  }

  ghost predicate SquareRoot(k: nat, p: nat) { exists a :: SquareRootFrom(k, p, a) }

  ghost predicate SquareRootWord(w: bv64, p: nat) { exists k: Value :: w == k as bv64 && SquareRoot(k, p) }

  lemma CubeRoots(k: seq<Value>, p: seq<nat>, a: seq<nat>)
    requires |k| == |p| == |a| == 8
    requires CubeRootFrom(k[0], p[0], a[0]) && CubeRootFrom(k[1], p[1], a[1]) && CubeRootFrom(k[2], p[2], a[2])
    requires CubeRootFrom(k[3], p[3], a[3]) && CubeRootFrom(k[4], p[4], a[4]) && CubeRootFrom(k[5], p[5], a[5])
    requires CubeRootFrom(k[6], p[6], a[6]) && CubeRootFrom(k[7], p[7], a[7])
    ensures AreRoots(k, p)
  {
  }

  ghost predicate AreRoots(k: seq<Value>, p: seq<nat>) {
    |k| == |p| == 8 && forall i | 0 <= i < 8 :: CubeRoot(k[i], p[i])
  }

  lemma Row0()
    ensures AreRoots(K0, P0)
  {
    CubeRoots(K0, P0, [1, 1, 1, 1, 2, 2, 2, 2]);
  }

  lemma Row1()
    ensures AreRoots(K1, P1)
  {
    CubeRoots(K1, P1, [2, 3, 3, 3, 3, 3, 3, 3]);
  }

  lemma Row2()
    ensures AreRoots(K2, P2)
  {
    CubeRoots(K2, P2, [3, 3, 4, 4, 4, 4, 4, 4]);
  }

  lemma Row3()
    ensures AreRoots(K3, P3)
  {
    CubeRoots(K3, P3, [4, 4, 4, 4, 4, 4, 5, 5]);
  }

  lemma Row4()
    ensures AreRoots(K4, P4)
  {
    CubeRoots(K4, P4, [5, 5, 5, 5, 5, 5, 5, 5]);
  }

  lemma Row5()
    ensures AreRoots(K5, P5)
  {
    CubeRoots(K5, P5, [5, 5, 5, 5, 5, 5, 5, 6]);
  }

  lemma Row6()
    ensures AreRoots(K6, P6)
  {
    CubeRoots(K6, P6, [6, 6, 6, 6, 6, 6, 6, 6]);
  }

  lemma Row7()
    ensures AreRoots(K7, P7)
  {
    CubeRoots(K7, P7, [6, 6, 6, 6, 6, 6, 6, 6]);
  }

  lemma Row8()
    ensures AreRoots(K8, P8)
  {
    CubeRoots(K8, P8, [6, 6, 6, 6, 7, 7, 7, 7]);
  }

  lemma Row9()
    ensures AreRoots(K9, P9)
  {
    CubeRoots(K9, P9, [7, 7, 7, 7, 7, 7, 7, 7]);
  }

  /** Every constant is the first 64 bits of the fraction of the cube root of its prime. */
  lemma ConstantsAreRoots(t: nat)
    requires t < 80
    ensures CubeRootWord(K(t), PRIMES[t / 8][t % 8])
  {
    Row0();
    Row1();
    Row2();
    Row3();
    Row4();
    Row5();
    Row6();
    Row7();
    Row8();
    Row9();
    AnyRow(t / 8);
  }

  lemma AnyRow(i: nat)
    requires i < 10 && AreRoots(K0, P0) && AreRoots(K1, P1) && AreRoots(K2, P2) && AreRoots(K3, P3) && AreRoots(K4, P4)
    requires AreRoots(K5, P5) && AreRoots(K6, P6) && AreRoots(K7, P7) && AreRoots(K8, P8) && AreRoots(K9, P9)
    ensures AreRoots(CONSTANTS[i], PRIMES[i])
  {
  }

  /** Every word of the initial hash value is the first 64 bits of the fraction of the square root of its prime. */
  lemma IvIsRoots()
    ensures var v := Iv();
      && SquareRootWord(v.a, 2) && SquareRootWord(v.b, 3) && SquareRootWord(v.c, 5) && SquareRootWord(v.d, 7)
      && SquareRootWord(v.e, 11) && SquareRootWord(v.f, 13) && SquareRootWord(v.g, 17) && SquareRootWord(v.h, 19)
  {
    ValuesAreRoots();
    WordsAreRoots(IV, [2, 3, 5, 7, 11, 13, 17, 19]);
  }

  lemma WordsAreRoots(v: seq<Value>, p: seq<nat>)
    requires |v| == |p| == 8 && forall i | 0 <= i < 8 :: SquareRoot(v[i], p[i])
    ensures var w := FromValues(v);
      && SquareRootWord(w.a, p[0]) && SquareRootWord(w.b, p[1]) && SquareRootWord(w.c, p[2])
      && SquareRootWord(w.d, p[3]) && SquareRootWord(w.e, p[4]) && SquareRootWord(w.f, p[5])
      && SquareRootWord(w.g, p[6]) && SquareRootWord(w.h, p[7])
  {
  }

  lemma ValuesAreRoots()
    ensures SquareRootFrom(IV[0], 2, 1) && SquareRootFrom(IV[1], 3, 1) && SquareRootFrom(IV[2], 5, 2)
    ensures SquareRootFrom(IV[3], 7, 2) && SquareRootFrom(IV[4], 11, 3) && SquareRootFrom(IV[5], 13, 3)
    ensures SquareRootFrom(IV[6], 17, 4) && SquareRootFrom(IV[7], 19, 4)
  {
  }

  function Digest(m: Bytes): Bytes { DigestFrom(With(K), Iv(), m) }
}
