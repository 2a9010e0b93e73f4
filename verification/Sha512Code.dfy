/** The SHA-512 functions of the crypt demo on their context. */
module Sha512Code {
  import opened Splice
  import opened Streams
  import opened Sha512Words
  import opened Sha512

  // ---------- one block

  /** The ring holds the last sixteen words of the schedule before t. */
  ghost predicate Ring<T>(w: seq<T>, sch: nat -> T, t: nat) {
    |w| == 16 && forall i: nat | t - 16 <= i < t :: w[i % 16] == sch(i)
  }

  /** The ring step: the oldest word is replaced by the next one. */
  lemma RingStep<T(!new)>(o: Ops<T>, w: seq<T>, sch: nat -> T, t: nat)
    requires Agree(o) && Ring(w, sch, t) && Recurs(o, sch, t)
    ensures o.codeAdd4(o.sigma0(w[(t + 1) % 16]), o.sigma1(w[(t + 14) % 16]), w[t % 16], w[(t + 9) % 16]) == sch(t)
    ensures Ring(w[t % 16 := sch(t)], sch, t + 1)
  {
    assert (t + 14) % 16 == (t - 2) % 16 && (t + 9) % 16 == (t - 7) % 16;
    assert (t + 1) % 16 == (t - 15) % 16 && t % 16 == (t - 16) % 16;
    var w1 := w[t % 16 := sch(t)];
    forall i: nat | t - 15 <= i < t + 1 ensures w1[i % 16] == sch(i) {
      if i < t {
        OtherSlot(i, t);
      }
    }
  }

  lemma OtherSlot(i: nat, t: nat)
    requires t - 16 < i < t
    ensures i % 16 != t % 16
  {
  }

  /** The recurrences of the standard, at one place of the schedule sch and of the rounds rs. */
  ghost predicate Recurs<T>(o: Ops<T>, sch: nat -> T, t: nat) {
    t >= 16 && sch(t) == Next(o, sch(t - 2), sch(t - 7), sch(t - 15), sch(t - 16))
  }

  ghost predicate Steps<T>(o: Ops<T>, sch: nat -> T, rs: nat -> Regs<T>, t: nat) {
    rs(t + 1) == Round(o, rs(t), o.k(t), sch(t))
  }

  ghost predicate Loads<T>(o: Ops<T>, m: Bytes, sch: nat -> T, t: nat) { 8 * t + 8 <= |m| && sch(t) == WordAt(o, m, t) }

  /** The schedule and the rounds of the block m. */
  ghost predicate IsRun<T>(o: Ops<T>, m: Bytes, sch: nat -> T, rs: nat -> Regs<T>) {
    && |m| == 128 && (forall t: nat | t < 16 :: Loads(o, m, sch, t))
    && (forall t: nat | t >= 16 :: Recurs(o, sch, t)) && (forall t: nat :: Steps(o, sch, rs, t))
  }

  /** The first sixteen rounds, which load the words. */
  method LoadRounds<T(!new)>(o: Ops<T>, m: Bytes, w: array<T>, v: Regs<T>, ghost sch: nat -> T,
                             ghost rs: nat -> Regs<T>)
    returns (x: Regs<T>)
    requires Agree(o) && w.Length == 16 && IsRun(o, m, sch, rs) && v == rs(0)
    modifies w
    ensures Ring(w[..], sch, 16) && x == rs(16)
  {
    x := v;
    var i := 0;
    while i < 16
      invariant 0 <= i <= 16 && (forall k: nat | k < i :: w[k] == sch(k)) && x == rs(i)
    {
      x := LoadRound(o, m, w, x, i, sch, rs);
      i := i + 1;
    }
    FirstRing(w[..], sch);
  }

  method LoadRound<T(!new)>(o: Ops<T>, m: Bytes, w: array<T>, v: Regs<T>, i: nat, ghost sch: nat -> T,
                            ghost rs: nat -> Regs<T>)
    returns (x: Regs<T>)
    requires Agree(o) && w.Length == 16 && i < 16 && Loads(o, m, sch, i) && Steps(o, sch, rs, i) && v == rs(i)
    modifies w
    ensures w[i] == sch(i) && (forall k | 0 <= k < 16 && k != i :: w[k] == old(w[k])) && x == rs(i + 1)
  {
    w[i] := o.join(m[8 * i], m[8 * i + 1], m[8 * i + 2], m[8 * i + 3],
                   m[8 * i + 4], m[8 * i + 5], m[8 * i + 6], m[8 * i + 7]);
    x := OneRound(o, v, o.k(i), w[i]);
  }

  lemma FirstRing<T>(w: seq<T>, sch: nat -> T)
    requires |w| == 16 && forall k: nat | k < 16 :: w[k] == sch(k)
    ensures Ring(w, sch, 16)
  {
    forall k: nat | k < 16 ensures w[k % 16] == sch(k) {
      assert k % 16 == k;
    }
  }

  /** The other rounds, which compute the words in the ring. */
  method RingRounds<T(!new)>(o: Ops<T>, w: array<T>, v: Regs<T>, ghost m: Bytes, ghost sch: nat -> T,
                             ghost rs: nat -> Regs<T>)
    returns (x: Regs<T>)
    requires Agree(o) && w.Length == 16 && IsRun(o, m, sch, rs) && Ring(w[..], sch, 16) && v == rs(16)
    modifies w
    ensures x == rs(80)
  {
    x := v;
    var i := 16;
    while i < 80
      invariant 16 <= i <= 80 && Ring(w[..], sch, i) && x == rs(i)
    {
      assert Recurs(o, sch, i) && Steps(o, sch, rs, i);
      RingStep(o, w[..], sch, i);
      w[i % 16] := o.codeAdd4(o.sigma0(w[(i + 1) % 16]), o.sigma1(w[(i + 14) % 16]), w[i % 16], w[(i + 9) % 16]);
      x := OneRound(o, x, o.k(i), w[i % 16]);
      i := i + 1;
    }
  }

  /** The shift register of a round. */
  method OneRound<T(!new)>(o: Ops<T>, r: Regs<T>, k: T, w: T) returns (x: Regs<T>)
    requires Agree(o)
    ensures x == Round(o, r, k, w)
  {
    var h0, h1, h2, h3, h4, h5, h6, h7 := r.a, r.b, r.c, r.d, r.e, r.f, r.g, r.h;
    var tmp := o.codeAdd5(w, h7, o.sum1(h4), o.codeCh(h4, h5, h6), k);
    h7 := h6;
    h6 := h5;
    h5 := h4;
    h4 := o.add(h3, tmp);
    h3 := h2;
    h2 := h1;
    h1 := h0;
    h0 := o.codeAdd3(tmp, o.codeMaj(h1, h2, h3), o.sum0(h1));
    x := Regs(h0, h1, h2, h3, h4, h5, h6, h7);
  }

  /** f is the compression function. The streaming part knows no more of it than this. */
  ghost predicate IsSha512<T(!new)>(f: (Regs<T>, Bytes) -> Regs<T>, o: Ops<T>) {
    forall v, m {:trigger Compress(o, v, m)} :: Compress(o, v, m) == f(v, m)
  }

  /** sha512_process_block. The ring overlays the block, so no caller may rely on what the block holds afterwards. */
  method ProcessBlock<T(!new)>(o: Ops<T>, block: array<byte>, v: Regs<T>, ghost f: (Regs<T>, Bytes) -> Regs<T>)
    returns (r: Regs<T>)
    requires Agree(o) && block.Length == 128 && IsSha512(f, o)
    modifies block
    ensures r == f(v, old(block[..]))
  {
    ghost var m := block[..];
    ghost var sch := (t: nat) => W(o, m, t);
    ghost var rs := (n: nat) => Rounds(o, sch, v, n);
    var w := new T[16](_ => v.a);
    TheRun(o, m, v);
    var x := LoadRounds(o, block[..], w, v, sch, rs);
    x := RingRounds(o, w, x, m, sch, rs);
    StoreRing(o, w, block);
    r := Regs(o.add(v.a, x.a), o.add(v.b, x.b), o.add(v.c, x.c), o.add(v.d, x.d),
              o.add(v.e, x.e), o.add(v.f, x.f), o.add(v.g, x.g), o.add(v.h, x.h));
    assert r == Compress(o, v, m);
  }

  lemma TheRun<T(!new)>(o: Ops<T>, m: Bytes, v: Regs<T>)
    requires |m| == 128
    ensures var sch := (t: nat) => W(o, m, t); IsRun(o, m, sch, (n: nat) => Rounds(o, sch, v, n))
  {
    var sch := (t: nat) => W(o, m, t);
    var rs := (n: nat) => Rounds(o, sch, v, n);
    forall t: nat ensures Steps(o, sch, rs, t) {
      assert Rounds(o, sch, v, t + 1) == Round(o, Rounds(o, sch, v, t), o.k(t), sch(t));
    }
    forall t: nat | t >= 16 ensures Recurs(o, sch, t) {
      assert W(o, m, t) == Next(o, W(o, m, t - 2), W(o, m, t - 7), W(o, m, t - 15), W(o, m, t - 16));
    }
  }

  /** The words of the ring in memory, least significant byte first. */
  method StoreRing<T>(o: Ops<T>, w: array<T>, block: array<byte>)
    requires w.Length == 16 && block.Length == 128
    modifies block
    ensures forall i | 0 <= i < 128 :: block[i] == o.part(w[i / 8], 7 - i % 8)
  {
    var i := 0;
    while i < 128
      invariant 0 <= i <= 128 && forall k | 0 <= k < i :: block[k] == o.part(w[k / 8], 7 - k % 8)
    {
      block[i] := o.part(w[i / 8], 7 - i % 8);
      i := i + 1;
    }
  }

  // ---------- the context

  /** The code asserts that fewer bytes than this are hashed. */
  const LIMIT: nat := 0x100_0000_0000_0000

  class Sha512Ctx<!T(!new)> {
    const o: Ops<T>
    const iv: Regs<T>
    const block: array<byte>
    var nbytes: nat
    var chain: Regs<T>
    /** The compression function, the message so far, and the blocks of it that have been compressed. */
    ghost const f: (Regs<T>, Bytes) -> Regs<T>
    ghost var msg: Bytes
    ghost var blocks: seq<Bytes>

    ghost predicate Valid()
      reads this, block
    {
      && Agree(o) && IsSha512(f, o) && block.Length == 128 && nbytes == |msg|
      && Fed(f, iv, 128, msg, blocks, block[..nbytes % 128], chain)
    }

    /** sha512_init. */
    constructor (o: Ops<T>, iv: Regs<T>)
      requires Agree(o)
      ensures Valid() && msg == [] && this.o == o && this.iv == iv && this.f == Compressor(o) && fresh(block)
    {
      this.o, this.iv, chain, nbytes, block := o, iv, iv, 0, new byte[128](_ => 0);
      f, msg, blocks := Compressor(o), [], [];
    }

    /** sha512_update. */
    method Update(data: Bytes)
      requires Valid()
      modifies this, block
      ensures Valid() && msg == old(msg) + data
    {
      var at := 0;
      while at < |data|
        invariant 0 <= at <= |data| && Valid() && msg == old(msg) + data[..at]
      {
        var accept := 128 - nbytes % 128;
        if accept > |data| - at {
          accept := |data| - at;
        }
        SplitAt(old(msg), data, at, at + accept);
        Accept(data[at..at + accept]);
        at := at + accept;
      }
    }

    static lemma SplitAt(m: Bytes, data: Bytes, i: nat, j: nat)
      requires i <= j <= |data|
      ensures m + data[..i] + data[i..j] == m + data[..j]
    {
      assert data[..j] == data[..i] + data[i..j];
    }

    /** One piece that fits into the block. */
    method Accept(piece: Bytes)
      requires Valid() && 0 < |piece| <= 128 - nbytes % 128
      modifies this, block
      ensures Valid() && msg == old(msg) + piece
    {
      ghost var rest := block[..nbytes % 128];
      var fill := nbytes % 128;
      FedMore(f, iv, 128, msg, blocks, rest, chain, piece);
      Advance(nbytes, |piece|);
      nbytes := nbytes + |piece|;
      CopyInto(piece, block, fill);
      msg := msg + piece;
      if fill + |piece| == 128 {
        ghost var full := block[..];
        assert full == rest + piece;
        FedBlock(f, iv, 128, msg, blocks, full, chain);
        chain := ProcessBlock(o, block, chain, f);
        blocks := blocks + [full];
      } else {
        assert block[..fill + |piece|] == rest + piece;
      }
    }

    /** sha512_final. */
    method Final() returns (result: Bytes)
      requires Valid() && nbytes < LIMIT
      modifies this, block
      ensures result == Output(o, Fold(f, iv, Chop(128, Padded(128, 16, old(msg)))))
      ensures Valid() && msg == []
    {
      ghost var rest := block[..nbytes % 128];
      FedEnd(f, iv, 128, 16, msg, blocks, rest, chain);
      Finish(rest);
      result := Emit(o, chain);
      Reset();
    }

    /** sha512_init again. */
    method Reset()
      requires Agree(o) && IsSha512(f, o) && block.Length == 128
      modifies this, block
      ensures Valid() && msg == []
    {
      nbytes, chain := 0, iv;
      ZeroFill(block, 0, 128);
      msg, blocks := [], [];
    }

    /** The blocks that the padding completes. */
    method Finish(ghost rest: Bytes)
      requires Agree(o) && IsSha512(f, o) && block.Length == 128 && nbytes < LIMIT && block[..nbytes % 128] == rest
      modifies this`chain, block
      ensures chain == Fold(f, old(chain), LastBlocks(128, rest, BigEndian(16, 8 * nbytes)))
    {
      ghost var s, len := chain, BigEndian(16, 8 * nbytes);
      var fill := nbytes % 128;
      block[fill] := 0x80;
      fill := fill + 1;
      assert block[..fill] == rest + [0x80];
      if fill > 112 {
        ZeroFill(block, fill, 128);
        assert block[..] == rest + [0x80] + Zeros(128 - |rest| - 1);
        chain := ProcessBlock(o, block, chain, f);
        fill := 0;
      }
      ghost var start := block[..fill];
      FoldLast(f, s, 128, rest, len, start, chain);
      LastBlock(fill, start);
    }

    /** The block with the length. */
    method LastBlock(fill: nat, ghost start: Bytes)
      requires Agree(o) && IsSha512(f, o) && block.Length == 128 && nbytes < LIMIT && fill <= 112
      requires block[..fill] == start
      modifies this`chain, block
      ensures chain == f(old(chain), start + Zeros(112 - |start|) + BigEndian(16, 8 * nbytes))
    {
      ZeroFill(block, fill, 112);
      assert block[..112] == start + Zeros(112 - |start|);
      PutLength(block, nbytes * 8);
      chain := ProcessBlock(o, block, chain, f);
    }
  }

  /** The hash value, each word with its most significant byte first. */
  method Emit<T>(o: Ops<T>, v: Regs<T>) returns (result: Bytes)
    ensures result == Output(o, v)
  {
    var chain := [v.a, v.b, v.c, v.d, v.e, v.f, v.g, v.h];
    ghost var parts := [WordBytes(o, v.a), WordBytes(o, v.b), WordBytes(o, v.c), WordBytes(o, v.d),
                        WordBytes(o, v.e), WordBytes(o, v.f), WordBytes(o, v.g), WordBytes(o, v.h)];
    result := [];
    var i := 0;
    while i < 8
      invariant 0 <= i <= 8 && result == Joined(parts[..i])
    {
      var x := chain[i];
      assert parts[..i + 1] == parts[..i] + [parts[i]];
      result := result + [o.part(x, 0), o.part(x, 1), o.part(x, 2), o.part(x, 3),
                          o.part(x, 4), o.part(x, 5), o.part(x, 6), o.part(x, 7)];
      i := i + 1;
    }
    EightJoined(parts);
  }

  ghost function Joined(parts: seq<Bytes>): Bytes {
    if parts == [] then [] else Joined(parts[..|parts| - 1]) + parts[|parts| - 1]
  }

  lemma EightJoined(p: seq<Bytes>)
    requires |p| == 8
    ensures Joined(p[..8]) == p[0] + p[1] + p[2] + p[3] + p[4] + p[5] + p[6] + p[7]
  {
    JoinedNext(p, 0);
    JoinedNext(p, 1);
    JoinedNext(p, 2);
    JoinedNext(p, 3);
    JoinedNext(p, 4);
    JoinedNext(p, 5);
    JoinedNext(p, 6);
    JoinedNext(p, 7);
  }

  lemma JoinedNext(p: seq<Bytes>, i: nat)
    requires i < |p|
    ensures Joined(p[..i + 1]) == Joined(p[..i]) + p[i] && (i == 0 ==> Joined(p[..i]) == [])
  {
    assert p[..i + 1][..i] == p[..i];
  }

  /** The length field for fewer than 2^64 bits: a zero high half and the low half. */
  method PutLength(block: array<byte>, bits: nat)
    requires block.Length == 128 && bits < 0x1_0000_0000_0000_0000
    modifies block
    ensures block[..] == old(block[..112]) + BigEndian(16, bits)
  {
    LowHalf(ByteOf, bits, 8);
    var low := Bswap64(bits);
    PutHalves(block, Zeros(8), low);
  }

  method PutHalves(block: array<byte>, high: Bytes, low: Bytes)
    requires block.Length == 128 && |high| == |low| == 8
    modifies block
    ensures block[..] == old(block[..112]) + (high + low)
  {
    ghost var s := block[..112];
    CopyInto(high, block, 112);
    assert block[..112] == s && block[112..120] == high;
    CopyInto(low, block, 120);
    assert block[..112] == s && block[112..120] == high && block[120..] == low;
    InThree(block[..], 112, 120);
  }

  /** bswap64: the bytes of the value, the most significant first. */
  method Bswap64(x: nat) returns (r: Bytes)
    ensures r == BigEndian(8, x)
  {
    r := Swap(ByteOf, x, 8);
  }

  method Swap(ghost d: nat -> byte, x: nat, n: nat) returns (r: Bytes)
    requires forall y :: d(y) == ByteOf(y)
    ensures r == Digits(d, n, x)
  {
    r := [];
    var i, y := 0, x;
    while i < n
      invariant 0 <= i <= n && Digits(d, n, x) == Digits(d, n - i, y) + r
    {
      r := [(y % 256) as byte] + r;
      i, y := i + 1, y / 256;
    }
  }

  lemma InThree(s: Bytes, i: nat, j: nat)
    requires i <= j <= |s|
    ensures s == s[..i] + (s[i..j] + s[j..])
  {
  }

  lemma LowHalf(d: nat -> byte, x: nat, n: nat)
    requires x < 0x1_0000_0000_0000_0000 && d(0) == 0 && n == 8
    ensures Digits(d, n + n, x) == Zeros(n) + Digits(d, n, x)
  {
    EightDigits(x);
    HighDigits(d, n, n, x);
  }

  lemma EightDigits(x: nat)
    requires x < 0x1_0000_0000_0000_0000
    ensures Below(x, 8)
  {
    var x1 := x / 256;
    var x2 := x1 / 256;
    var x3 := x2 / 256;
    var x4 := x3 / 256;
    var x5 := x4 / 256;
    var x6 := x5 / 256;
    var x7 := x6 / 256;
    assert x1 < 0x100_0000_0000_0000 && x2 < 0x1_0000_0000_0000 && x3 < 0x100_0000_0000 && x4 < 0x1_0000_0000;
    assert x5 < 0x100_0000 && x6 < 0x1_0000 && x7 < 0x100;
    assert Below(x7 / 256, 0) && Below(x7, 1) && Below(x6, 2) && Below(x5, 3) && Below(x4, 4) && Below(x3, 5)
      && Below(x2, 6) && Below(x1, 7);
  }

  lemma Advance(n: nat, k: nat)
    requires k <= 128 - n % 128
    ensures (n + k) % 128 == if n % 128 + k == 128 then 0 else n % 128 + k
  {
  }

  // ---------- whole messages

  /** A message fed in any pieces. */
  method HashPieces<T(!new)>(o: Ops<T>, iv: Regs<T>, pieces: seq<Bytes>) returns (result: Bytes)
    requires Agree(o) && |Flat(pieces)| < LIMIT
    ensures result == DigestFrom(o, iv, Flat(pieces))
  {
    var ctx := new Sha512Ctx(o, iv);
    result := FeedAndFinish(ctx, pieces);
  }

  method FeedAndFinish<T(!new)>(ctx: Sha512Ctx<T>, pieces: seq<Bytes>) returns (result: Bytes)
    requires ctx.Valid() && ctx.msg == [] && |Flat(pieces)| < LIMIT
    modifies ctx, ctx.block
    ensures result == Output(ctx.o, Fold(ctx.f, ctx.iv, Chop(128, Padded(128, 16, Flat(pieces)))))
  {
    FeedPieces(ctx, pieces);
    assert ctx.msg == Flat(pieces);
    result := ctx.Final();
  }

  method FeedPieces<T(!new)>(ctx: Sha512Ctx<T>, pieces: seq<Bytes>)
    requires ctx.Valid()
    modifies ctx, ctx.block
    ensures ctx.Valid() && ctx.msg == old(ctx.msg) + Flat(pieces)
  {
    var i := 0;
    while i < |pieces|
      invariant 0 <= i <= |pieces| && ctx.Valid() && ctx.msg == old(ctx.msg) + Flat(pieces[..i])
    {
      assert pieces[..i + 1] == pieces[..i] + [pieces[i]];
      FlatAppend(pieces[..i], pieces[i]);
      ctx.Update(pieces[i]);
      i := i + 1;
    }
    assert pieces[..i] == pieces;
  }

  /** With the words and constants of the standard: the digest does not depend on the pieces, only on the message. */
  method Sha512Pieces(pieces: seq<Bytes>) returns (result: Bytes)
    requires |Flat(pieces)| < LIMIT
    ensures result == Digest(Flat(pieces))
  {
    FormsAgree(K);
    result := HashPieces(With(K), Iv(), pieces);
  }
}
