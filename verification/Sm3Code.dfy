/** The SM3 functions on their state structure. */
module Sm3Code {
  import opened Streams
  import opened Sm3Words
  import opened Sm3

  // ---------- one block

  /** BigEndian with the same source and destination: each group of four bytes is reversed. */
  method ReverseWords(a: array<byte>, n: nat)
    requires 4 * n <= a.Length
    modifies a
    ensures forall i | 0 <= i < n :: Reversed4(old(a[..]), a[..], i)
  {
    ghost var s := a[..];
    var i := 0;
    while i < n
      invariant 0 <= i <= n && forall k | 0 <= k < i :: Reversed4(s, a[..], k)
      invariant forall k | 4 * i <= k < a.Length :: a[k] == s[k]
    {
      ghost var before := a[..];
      var tmp := a[4 * i];
      a[4 * i] := a[4 * i + 3];
      a[4 * i + 3] := tmp;
      tmp := a[4 * i + 1];
      a[4 * i + 1] := a[4 * i + 2];
      a[4 * i + 2] := tmp;
      forall k | 0 <= k < i + 1 ensures Reversed4(s, a[..], k) {
        if k < i {
          assert Reversed4(s, before, k);
        }
      }
      i := i + 1;
    }
  }

  predicate Reversed4(s: Bytes, r: Bytes, i: nat) {
    && |s| == |r| && 4 * i + 4 <= |s|
    && r[4 * i] == s[4 * i + 3] && r[4 * i + 1] == s[4 * i + 2]
    && r[4 * i + 2] == s[4 * i + 1] && r[4 * i + 3] == s[4 * i]
  }

  /** The expansion sch at place t: a word of the block, or the recurrence of the standard. */
  ghost predicate Loads<T>(o: Ops<T>, b: Bytes, sch: nat -> T, t: nat) {
    4 * t + 4 <= |b| && sch(t) == o.join(b[4 * t], b[4 * t + 1], b[4 * t + 2], b[4 * t + 3])
  }

  ghost predicate Expands<T>(o: Ops<T>, sch: nat -> T, t: nat) {
    t >= 16 && sch(t) == Expand(o, sch(t - 16), sch(t - 9), sch(t - 3), sch(t - 13), sch(t - 6))
  }

  lemma TheExpansion<T>(o: Ops<T>, b: Bytes, sch: nat -> T)
    requires |b| == 64 && forall t: nat {:trigger W(o, b, t)} :: W(o, b, t) == sch(t)
    ensures (forall t: nat | t < 16 :: Loads(o, b, sch, t)) && (forall t: nat | t >= 16 :: Expands(o, sch, t))
  {
    forall t: nat | t >= 16 ensures Expands(o, sch, t) {
      ExpansionAt(o, b, t);
    }
    forall t: nat | t < 16 ensures Loads(o, b, sch, t) {
      assert W(o, b, t) == sch(t);
    }
  }

  lemma ExpansionAt<T>(o: Ops<T>, b: Bytes, t: nat)
    requires |b| == 64 && t >= 16
    ensures W(o, b, t) == Expand(o, W(o, b, t - 16), W(o, b, t - 9), W(o, b, t - 3), W(o, b, t - 13), W(o, b, t - 6))
  {
  }

  /** BiToW. The words are read from memory least significant byte first, out of a block with its words reversed. */
  method BiToW<T>(o: Ops<T>, block: Bytes, w: array<T>, ghost b: Bytes, ghost sch: nat -> T)
    requires |block| == 64 == |b| && w.Length == 68 && forall i | 0 <= i < 16 :: Reversed4(b, block, i)
    requires (forall t: nat | t < 16 :: Loads(o, b, sch, t)) && (forall t: nat | t >= 16 :: Expands(o, sch, t))
    modifies w
    ensures forall i | 0 <= i < 68 :: w[i] == sch(i)
  {
    var i := 0;
    while i < 16
      invariant 0 <= i <= 16 && forall k | 0 <= k < i :: w[k] == sch(k)
    {
      assert Reversed4(b, block, i) && Loads(o, b, sch, i);
      w[i] := o.join(block[4 * i + 3], block[4 * i + 2], block[4 * i + 1], block[4 * i]);
      i := i + 1;
    }
    ExpandAll(o, w, sch);
  }

  method ExpandAll<T>(o: Ops<T>, w: array<T>, ghost sch: nat -> T)
    requires w.Length == 68 && (forall k | 0 <= k < 16 :: w[k] == sch(k))
    requires (forall t: nat | t >= 16 :: Expands(o, sch, t))
    modifies w
    ensures forall i | 0 <= i < 68 :: w[i] == sch(i)
  {
    var i := 16;
    while i < 68
      invariant 16 <= i <= 68 && forall k | 0 <= k < i :: w[k] == sch(k)
    {
      assert Expands(o, sch, i);
      var tmp := o.xor(o.xor(w[i - 16], w[i - 9]), o.rot15(w[i - 3]));
      var tmp2 := o.xor(o.xor(tmp, o.rot15(tmp)), o.rot23(tmp));
      w[i] := o.xor(o.xor(tmp2, o.rot7(w[i - 13])), w[i - 6]);
      i := i + 1;
    }
  }

  /** WToW1. */
  method WToW1<T>(o: Ops<T>, w: array<T>, w1: array<T>)
    requires w.Length == 68 && w1.Length == 64 && w != w1
    modifies w1
    ensures forall i | 0 <= i < 64 :: w1[i] == o.xor(w[i], w[i + 4])
  {
    var i := 0;
    while i < 64
      invariant 0 <= i <= 64 && forall k | 0 <= k < i :: w1[k] == o.xor(w[k], w[k + 4])
    {
      w1[i] := o.xor(w[i], w[i + 4]);
      i := i + 1;
    }
  }

  /** CF, with its running constant. */
  method Cf<T(!new)>(o: Ops<T>, w: array<T>, w1: array<T>, v: Regs<T>, ghost sch: nat -> T) returns (r: Regs<T>)
    requires Turns(o) && w.Length == 68 && w1.Length == 64
    requires (forall i | 0 <= i < 68 :: w[i] == sch(i)) && forall i | 0 <= i < 64 :: w1[i] == o.xor(w[i], w[i + 4])
    ensures r == Mix(o, Rounds(o, sch, v, 64), v)
  {
    var x, t := v, o.t1;
    var j := 0;
    while j < 64
      invariant 0 <= j <= 64 && x == Rounds(o, sch, v, j) && (j > 0 ==> t == Tj(o, j - 1))
    {
      RunningTIsTj(o, t, j);
      if j == 0 {
        t := o.t1;
      } else if j == 16 {
        t := o.rot16(o.t2);
      } else {
        t := o.rot1(t);
      }
      x := OneRound(o, j, x, t, w[j], w1[j]);
      j := j + 1;
    }
    r := Regs(o.xor(x.a, v.a), o.xor(x.b, v.b), o.xor(x.c, v.c), o.xor(x.d, v.d),
              o.xor(x.e, v.e), o.xor(x.f, v.f), o.xor(x.g, v.g), o.xor(x.h, v.h));
  }

  /** The body of the round loop, register by register. */
  method OneRound<T>(o: Ops<T>, j: nat, r: Regs<T>, t: T, w: T, w1: T) returns (x: Regs<T>)
    ensures x == Round(o, j, r, t, w, w1)
  {
    var a, b, c, d, e, f, g, h := r.a, r.b, r.c, r.d, r.e, r.f, r.g, r.h;
    var ss1 := o.rot7(o.add(o.add(o.rot12(a), e), t));
    var ss2 := o.xor(ss1, o.rot12(a));
    var ff := if j < 16 then o.xor(o.xor(a, b), c) else o.maj(a, b, c);
    var gg := if j < 16 then o.xor(o.xor(e, f), g) else o.ch(e, f, g);
    var tt1 := o.add(o.add(o.add(ff, d), ss2), w1);
    var tt2 := o.add(o.add(o.add(gg, h), ss1), w);
    d := c;
    c := o.rot9(b);
    b := a;
    a := tt1;
    h := g;
    g := o.rot19(f);
    f := e;
    e := o.xor(o.xor(tt2, o.rot9(tt2)), o.rot17(tt2));
    x := Regs(a, b, c, d, e, f, g, h);
  }

  /** f is the compression function. The streaming part knows no more of it than this. */
  ghost predicate IsSm3<T(!new)>(f: (Regs<T>, Bytes) -> Regs<T>, o: Ops<T>) {
    forall v, b {:trigger Compress(o, v, b)} :: Compress(o, v, b) == f(v, b)
  }

  /** SM3_compress. The block is left with its words reversed, and no caller may rely on what it holds. */
  method CompressBlock<T(!new)>(o: Ops<T>, block: array<byte>, v: Regs<T>, zero: T,
                                ghost f: (Regs<T>, Bytes) -> Regs<T>)
    returns (r: Regs<T>)
    requires Turns(o) && block.Length == 64 && IsSm3(f, o)
    modifies block
    ensures r == f(v, old(block[..]))
  {
    ghost var b := block[..];
    ReverseWords(block, 16);
    var swapped := block[..];
    ghost var sch := (j: nat) => W(o, b, j);
    TheExpansion(o, b, sch);
    var w, w1 := new T[68](_ => zero), new T[64](_ => zero);
    BiToW(o, swapped, w, b, sch);
    WToW1(o, w, w1);
    r := Cf(o, w, w1, v, sch);
    assert r == Compress(o, v, b);
  }

  // ---------- the state structure

  const WORD: nat := 0x1_0000_0000

  class Sm3State<!T(!new)> {
    const o: Ops<T>
    const iv: Regs<T>
    const buf: array<byte>
    var state: Regs<T>
    var length: nat
    var curlen: nat
    /** The compression function, the message so far, and the blocks of it that have been compressed. */
    ghost const f: (Regs<T>, Bytes) -> Regs<T>
    ghost var msg: Bytes
    ghost var blocks: seq<Bytes>

    ghost predicate Valid()
      reads this, buf
    { Filled() && curlen < 64 }

    /** The state with up to a full block in the buffer. */
    ghost predicate Filled()
      reads this, buf
    {
      && Turns(o) && IsSm3(f, o) && buf.Length == 64 && curlen <= 64 && length == 512 * |blocks| % WORD
      && Fed(f, iv, 64, msg, blocks, buf[..curlen], state)
    }

    /** SM3_init. */
    constructor (o: Ops<T>, iv: Regs<T>)
      requires Turns(o)
      ensures Valid() && msg == [] && this.o == o && this.iv == iv && this.f == Compressor(o) && fresh(buf)
    {
      this.o, this.iv, state, length, curlen, buf := o, iv, iv, 0, 0, new byte[64];
      f, msg, blocks := Compressor(o), [], [];
    }

    /** SM3_process. */
    method Process(data: Bytes)
      requires Valid()
      modifies this, buf
      ensures Valid() && msg == old(msg) + data
    {
      var i := 0;
      while i < |data|
        invariant 0 <= i <= |data| && Valid() && msg == old(msg) + data[..i]
      {
        Feed(data[i]);
        i := i + 1;
      }
    }

    /** One byte. */
    method Feed(c: byte)
      requires Valid()
      modifies this, buf
      ensures Valid() && msg == old(msg) + [c]
    {
      Store(c);
      if curlen == 64 {
        Flush();
      }
    }

    method Store(c: byte)
      requires Valid()
      modifies this`curlen, this`msg, buf
      ensures Filled() && msg == old(msg) + [c]
    {
      ghost var rest := buf[..curlen];
      FedMore(f, iv, 64, msg, blocks, rest, state, [c]);
      buf[curlen] := c;
      curlen := curlen + 1;
      assert buf[..curlen] == rest + [c];
      msg := msg + [c];
    }

    /** A full block is compressed. */
    method Flush()
      requires Filled() && curlen == 64
      modifies this`state, this`length, this`curlen, this`blocks, buf
      ensures Valid() && msg == old(msg)
    {
      ghost var full := buf[..];
      assert buf[..curlen] == full;
      FedBlock(f, iv, 64, msg, blocks, full, state);
      LengthStep(|blocks|);
      state := CompressBlock(o, buf, state, state.a, f);
      length := (length + 512) % WORD;
      curlen := 0;
      blocks := blocks + [full];
    }

    /** SM3_done. */
    method Done() returns (hash: Bytes)
      requires Valid() && 8 * |msg| < WORD
      modifies this`state, this`length, this`curlen, buf
      ensures hash == Output(o, Fold(f, iv, Chop(64, Padded(64, 8, msg))))
    {
      ghost var rest, s := buf[..curlen], state;
      FedEnd(f, iv, 64, 8, msg, blocks, rest, state);
      TotalLength(msg, blocks, rest);
      length := (length + curlen * 8) % WORD;
      Finish(rest, 8 * |msg|);
      hash := o.bytes(state.a) + o.bytes(state.b) + o.bytes(state.c) + o.bytes(state.d)
              + o.bytes(state.e) + o.bytes(state.f) + o.bytes(state.g) + o.bytes(state.h);
    }

    /** The blocks that the padding completes. */
    method Finish(ghost rest: Bytes, ghost bits: nat)
      requires Turns(o) && IsSm3(f, o) && buf.Length == 64 && curlen < 64 && buf[..curlen] == rest
      requires length == bits < WORD
      modifies this`state, this`curlen, buf
      ensures state == Fold(f, old(state), LastBlocks(64, rest, BigEndian(8, bits)))
    {
      ghost var s, len := state, BigEndian(8, bits);
      buf[curlen] := 0x80;
      curlen := curlen + 1;
      assert buf[..curlen] == rest + [0x80];
      if curlen > 56 {
        ZeroFill(buf, curlen, 64);
        assert buf[..] == rest + [0x80] + Zeros(64 - |rest| - 1);
        state := CompressBlock(o, buf, state, state.a, f);
        curlen := 0;
      }
      ghost var start := buf[..curlen];
      FoldLast(f, s, 64, rest, len, start, state);
      LastBlock(start);
    }

    /** The block with the length. */
    method LastBlock(ghost start: Bytes)
      requires Turns(o) && IsSm3(f, o) && buf.Length == 64 && curlen <= 56 && buf[..curlen] == start && length < WORD
      modifies this`state, this`curlen, buf
      ensures state == f(old(state), start + Zeros(56 - |start|) + BigEndian(8, length))
    {
      ZeroFill(buf, curlen, 56);
      curlen := 56;
      assert buf[..56] == start + Zeros(56 - |start|);
      PutLength(buf, length);
      state := CompressBlock(o, buf, state, state.a, f);
    }
  }

  lemma TotalLength(m: Bytes, bs: seq<Bytes>, rest: Bytes)
    requires AllOf(64, bs) && m == Flat(bs) + rest && 8 * |m| < WORD
    ensures (512 * |bs| % WORD + |rest| * 8) % WORD == 8 * |m|
  {
    FlatLength(64, bs);
    TotalBits(|bs|, |rest|);
  }

  lemma TotalBits(n: nat, r: nat)
    requires 8 * (n * 64 + r) < WORD
    ensures (512 * n % WORD + r * 8) % WORD == 8 * (n * 64 + r)
  {
  }

  // ---------- padding in the buffer

  /** The length field, for a length of less than 2^32 bits. */
  method PutLength(buf: array<byte>, length: nat)
    requires buf.Length == 64 && length < WORD
    modifies buf
    ensures buf[..] == old(buf[..56]) + BigEndian(8, length)
  {
    ghost var s := buf[..56];
    ZeroFill(buf, 56, 60);
    assert buf[..56] == s;
    buf[63] := (length % 256) as byte;
    buf[62] := ((length / 0x100) % 256) as byte;
    buf[61] := ((length / 0x1_0000) % 256) as byte;
    buf[60] := ((length / 0x100_0000) % 256) as byte;
    ShortLength(length);
    assert buf[..56] == s && buf[56..60] == [0, 0, 0, 0];
  }

  lemma ShortLength(x: nat)
    requires x < WORD
    ensures BigEndian(8, x) == [0, 0, 0, 0, ByteOf(x / 0x100_0000), ByteOf(x / 0x1_0000), ByteOf(x / 0x100), ByteOf(x)]
  {
    ShortDigits(ByteOf, x, 4);
  }

  lemma ShortDigits(d: nat -> byte, x: nat, n: nat)
    requires x < WORD && d(0) == 0 && n == 4
    ensures Digits(d, n + 4, x) == [0, 0, 0, 0, d(x / 0x100_0000), d(x / 0x1_0000), d(x / 0x100), d(x)]
  {
    Quotients(x);
    LowBytes(d, n, x, x / 0x100, x / 0x1_0000, x / 0x100_0000);
    NoBytes(d, n);
  }

  lemma Quotients(x: nat)
    requires x < WORD
    ensures x / 0x100 / 256 == x / 0x1_0000 && x / 0x1_0000 / 256 == x / 0x100_0000 && x / 0x100_0000 / 256 == 0
  {
  }

  lemma LowBytes(d: nat -> byte, n: nat, x: nat, x1: nat, x2: nat, x3: nat)
    requires x / 256 == x1 && x1 / 256 == x2 && x2 / 256 == x3 && x3 / 256 == 0
    ensures Digits(d, n + 4, x) == Digits(d, n, 0) + [d(x3), d(x2), d(x1), d(x)]
  {
    assert Digits(d, n + 1, x3) == Digits(d, n, 0) + [d(x3)];
    assert Digits(d, n + 2, x2) == Digits(d, n + 1, x3) + [d(x2)];
    assert Digits(d, n + 3, x1) == Digits(d, n + 2, x2) + [d(x1)];
  }

  lemma LengthStep(n: nat)
    ensures (512 * n % WORD + 512) % WORD == 512 * (n + 1) % WORD
  {
  }

  // ---------- whole messages

  /** A message fed in any pieces. */
  method HashPieces<T(!new)>(o: Ops<T>, iv: Regs<T>, pieces: seq<Bytes>) returns (hash: Bytes)
    requires Turns(o) && 8 * |Flat(pieces)| < WORD
    ensures hash == DigestFrom(o, iv, Flat(pieces))
  {
    var md := new Sm3State(o, iv);
    hash := FeedAndFinish(md, pieces);
  }

  method FeedAndFinish<T(!new)>(md: Sm3State<T>, pieces: seq<Bytes>) returns (hash: Bytes)
    requires md.Valid() && md.msg == [] && 8 * |Flat(pieces)| < WORD
    modifies md, md.buf
    ensures hash == Output(md.o, Fold(md.f, md.iv, Chop(64, Padded(64, 8, Flat(pieces)))))
  {
    FeedPieces(md, pieces);
    assert md.msg == Flat(pieces);
    hash := md.Done();
  }

  method FeedPieces<T(!new)>(md: Sm3State<T>, pieces: seq<Bytes>)
    requires md.Valid()
    modifies md, md.buf
    ensures md.Valid() && md.msg == old(md.msg) + Flat(pieces)
  {
    var i := 0;
    while i < |pieces|
      invariant 0 <= i <= |pieces| && md.Valid() && md.msg == old(md.msg) + Flat(pieces[..i])
    {
      assert pieces[..i + 1] == pieces[..i] + [pieces[i]];
      FlatAppend(pieces[..i], pieces[i]);
      md.Process(pieces[i]);
      i := i + 1;
    }
    assert pieces[..i] == pieces;
  }

  /** With the words and constants of the standard: the digest does not depend on the pieces, only on the message. */
  method Sm3Pieces(pieces: seq<Bytes>) returns (hash: Bytes)
    requires 8 * |Flat(pieces)| < WORD
    ensures hash == Digest(Flat(pieces))
  {
    Words32Turn();
    var iv := Init();
    hash := HashPieces(CodeWords(), iv, pieces);
  }

  /** The initial state and the constants as SM3.h has them. */
  method Init() returns (state: Regs<word>)
    ensures state == Iv()
  {
    state := Regs(0x7380166f, 0x4914b2b9, 0x172442d7, 0xda8a0600, 0xa96f30bc, 0x163138aa, 0xe38dee4d, 0xb0fb0e4e);
  }

  const SM3_T1: word := 0x79CC4519
  const SM3_T2: word := 0x7A879D8A

  function CodeWords(): (o: Ops<word>)
    ensures o == Words32()
  { Words32().(t1 := SM3_T1, t2 := SM3_T2) }
}
