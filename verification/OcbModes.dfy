/** SM4_OCB_Encrypt and SM4_OCB_Decrypt. */
module OcbModes {
  import opened Splice
  import opened Sm4
  import opened Blocks
  import opened Ocb
  import opened OcbCode

  // ---------- encryption

  /** Copies src and runs the block loop over its full blocks. */
  method CryptBlocks(sbox: Sbox, key: array<byte>, decrypt: bool, src: seq<byte>, out: array<byte>, offset: array<byte>,
                     l: array<byte>, ghost e: Cipher, ghost d: Cipher, ghost f: Cipher, ghost off: Offsets)
    requires key.Length == 16 && offset.Length >= 16 && |src| <= out.Length && f == (if decrypt then d else e)
    requires out != key && out != offset && out != l && offset != key && offset != l
    requires IsSm4(e, d, sbox, key[..]) && TableFor(l[..], off, |src| / 16) && offset[..16] == off(0)
    modifies out, offset
    ensures offset[..16] == off(|src| / 16)
    ensures out[..|src| - |src| % 16] == CipherBlocks(f, off, src, |src| / 16)
    ensures out[|src|..] == old(out[|src|..])
  {
    var m := |src| / 16;
    CopyInto(src, out, 0);
    ghost var copied := out[..];
    assert out[..16 * m] == src[..16 * m];
    BlockLoop(sbox, key, decrypt, out, offset, l, m, src, e, d, f, off);
    assert out[..] == Put(copied, 0, CipherBlocks(f, off, src, m));
  }

  lemma SealParts(e: Cipher, off: Offsets, last: Block, p: seq<byte>, out: seq<byte>)
    requires |p| <= |out| && out[..|p| - |p| % 16] == CipherBlocks(e, off, p, |p| / 16)
    requires out[|p| - |p| % 16..|p|] == Xor(e(last)[..|p| % 16], Rest(p))
    ensures out[..|p|] == Seal(e, off, last, p)
  {
    SplitPrefix(out, |p| - |p| % 16, |p|);
  }

  lemma SplitPrefix(s: seq<byte>, i: nat, j: nat)
    requires i <= j <= |s|
    ensures s[..j] == s[..i] + s[i..j]
  {
  }

  /** The message part of SM4_OCB_Encrypt. */
  method SealMessage(sbox: Sbox, key: array<byte>, message: array<byte>, out: array<byte>, offset: array<byte>,
                     l: array<byte>, lStar: array<byte>, ghost e: Cipher, ghost d: Cipher, ghost off: Offsets,
                     ghost last: Block)
    requires key.Length == 16 && lStar.Length == 16 && offset.Length >= 16 && message.Length + 16 <= out.Length
    requires out != key && out != message && out != offset && out != l && out != lStar
    requires offset != key && offset != message && offset != l && offset != lStar
    requires IsSm4(e, d, sbox, key[..]) && TableFor(l[..], off, message.Length / 16) && offset[..16] == off(0)
    requires last == if message.Length % 16 == 0 then off(message.Length / 16)
      else Xor(off(message.Length / 16), lStar[..])
    modifies out, offset
    ensures offset[..16] == last && out[..message.Length] == Seal(e, off, last, message[..])
    ensures out[message.Length + 16..] == old(out[message.Length + 16..])
  {
    ghost var p, before := message[..], out[..];
    var at := message.Length - message.Length % 16;
    CryptBlocks(sbox, key, false, message[..], out, offset, l, e, d, e, off);
    ghost var mid := out[..];
    assert mid[message.Length + 16..] == mid[message.Length..][16..];
    assert before[message.Length..][16..] == before[message.Length + 16..];
    if message.Length % 16 > 0 {
      MaskTail(sbox, key, message, out, at, offset, lStar, e, d);
      TailUnchanged(mid, out[..], at + 16, message.Length + 16);
      assert p[at..] == Rest(p);
    }
    SealParts(e, off, last, p, out[..]);
  }

  lemma TailUnchanged(a: seq<byte>, b: seq<byte>, i: nat, j: nat)
    requires i <= j <= |a| == |b| && a[i..] == b[i..]
    ensures a[j..] == b[j..]
  {
    assert a[j..] == a[i..][j - i..] && b[j..] == b[i..][j - i..];
  }

  // ---------- the table size

  /** ocb_ntz_round(m) + 1 as the unparenthesised macro expands: the increment belongs to the second branch only. */
  function RowsFor(m: nat): nat { if m == 0 then 0 else Log2(m) + 1 }

  /** l_length. */
  function LLength(mlen: nat, adlen: nat): nat {
    if mlen > adlen then RowsFor(mlen / 16) else RowsFor(adlen / 16)
  }

  /** One full block in the message or the associated data is what it takes for the table to have a row,
      and then the one table serves both block loops. */
  lemma RowsSuffice(mlen: nat, adlen: nat)
    ensures LLength(mlen, adlen) > 0 <==> mlen >= 16 || adlen >= 16
    ensures mlen >= 16 ==> Log2(mlen / 16) < LLength(mlen, adlen)
    ensures adlen >= 16 ==> Log2(adlen / 16) < LLength(mlen, adlen)
  {
    if mlen >= 16 && adlen >= 16 {
      var a, b := if mlen > adlen then adlen / 16 else mlen / 16, if mlen > adlen then mlen / 16 else adlen / 16;
      assert 0 < a <= b;
      NtzWithinLog2(a, b);
    }
  }

  // ---------- SM4_OCB_Encrypt

  /** Everything after the setup. */
  method SealAndTag(sbox: Sbox, key: array<byte>, message: array<byte>, ad: array<byte>, out: array<byte>,
                    offset: array<byte>, l: array<byte>, lStar: array<byte>, lDollar: array<byte>, ghost e: Cipher,
                    ghost d: Cipher, ghost off: Offsets, ghost last: Block, ghost hoff: Offsets, ghost hlast: Block)
    requires key.Length == 16 && lStar.Length == 16 && lDollar.Length == 16 && offset.Length >= 16
    requires message.Length + 16 <= out.Length
    requires out != key && out != message && out != ad && out != offset && out != l && out != lStar && out != lDollar
    requires offset != key && offset != message && offset != ad && offset != l && offset != lStar && offset != lDollar
    requires IsSm4(e, d, sbox, key[..]) && TableFor(l[..], off, message.Length / 16) && offset[..16] == off(0)
    requires last == if message.Length % 16 == 0 then off(message.Length / 16)
      else Xor(off(message.Length / 16), lStar[..])
    requires hoff(0) == ZERO && TableFor(l[..], hoff, ad.Length / 16)
    requires hlast == if ad.Length % 16 == 0 then hoff(ad.Length / 16) else Xor(hoff(ad.Length / 16), lStar[..])
    modifies out, offset
    ensures out[..] == Put(old(out[..]), 0, Seal(e, off, last, message[..])
      + TagWith(e, FullChecksum(message[..]), last, lDollar[..], HashWith(e, hoff, hlast, ad[..])))
  {
    ghost var before := out[..];
    SealMessage(sbox, key, message, out, offset, l, lStar, e, d, off, last);
    var checksum := new byte[16](_ => 0);
    assert checksum[..] == ZERO;
    SumMessage(message, checksum);
    FinishTag(sbox, key, ad, l, lStar, lDollar, checksum, offset, e, d, hoff, hlast);
    ghost var mid, tag := out[..], checksum[..];
    CopyInto(checksum[..], out, message.Length);
    PutSealed(before, mid, message.Length, mid[..message.Length], tag);
  }

  lemma PutSealed(before: seq<byte>, mid: seq<byte>, n: nat, c: seq<byte>, tag: Block)
    requires |before| == |mid| >= n + 16 && mid[..n] == c && mid[n + 16..] == before[n + 16..]
    ensures Put(mid, n, tag) == Put(before, 0, c + tag)
  {
  }

  /** SM4_OCB_Encrypt, for a cipher of which only the correctness of SM4_Encrypt is known. */
  method EncryptWith(sbox: Sbox, key: array<byte>, nonce: array<byte>, message: array<byte>, ad: array<byte>,
                     out: array<byte>, ghost e: Cipher, ghost d: Cipher)
    requires key.Length == 16 && nonce.Length <= 15 && message.Length + 16 <= out.Length
    requires message.Length >= 16 || ad.Length >= 16
    requires out != key && out != message && out != ad && IsSm4(e, d, sbox, key[..])
    modifies out
    ensures var o := Offset0(e, old(nonce[..]));
      out[..] == Put(old(out[..]), 0, Ciphertext(e, o, message[..]) + Tag(e, o, message[..], ad[..]))
  {
    ghost var o := Offset0(e, nonce[..]);
    var l, lStar, lDollar, offset := Setup(sbox, key, nonce, message.Length, ad.Length, e, d);
    FinalOffsets(e, o, message.Length, lStar[..]);
    FinalOffsets(e, ZERO, ad.Length, lStar[..]);
    SealAndTag(sbox, key, message, ad, out, offset, l, lStar, lDollar, e, d,
               From(e, o), FinalOffset(e, o, message.Length), From(e, ZERO), FinalOffset(e, ZERO, ad.Length));
  }

  lemma FinalOffsets(e: Cipher, o: Block, n: nat, lStar: Block)
    requires lStar == LStar(e)
    ensures From(e, o)(0) == o
    ensures FinalOffset(e, o, n) == if n % 16 == 0 then From(e, o)(n / 16) else Xor(From(e, o)(n / 16), lStar)
  {
  }

  /** The setup both functions start with. */
  method Setup(sbox: Sbox, key: array<byte>, nonce: array<byte>, mlen: nat, adlen: nat, ghost e: Cipher,
               ghost d: Cipher)
    returns (l: array<byte>, lStar: array<byte>, lDollar: array<byte>, offset: array<byte>)
    requires key.Length == 16 && nonce.Length <= 15 && IsSm4(e, d, sbox, key[..])
    requires mlen >= 16 || adlen >= 16
    ensures fresh(l) && fresh(lStar) && fresh(lDollar) && fresh(offset)
    ensures offset != l && offset != lStar && offset != lDollar
    ensures offset.Length == 24 && offset[..16] == Offset0(e, nonce[..])
    ensures lStar[..] == LStar(e) && lDollar[..] == LDollar(e)
    ensures TableFor(l[..], From(e, Offset0(e, nonce[..])), mlen / 16) && TableFor(l[..], From(e, ZERO), adlen / 16)
  {
    RowsSuffice(mlen, adlen);
    var n := LLength(mlen, adlen);
    l, lStar, lDollar := NewTable(sbox, key, n, e, d);
    offset := NewOffset(sbox, key, nonce, e, d);
    TableServes(l[..], e, n, Offset0(e, nonce[..]), mlen / 16);
    TableServes(l[..], e, n, ZERO, adlen / 16);
  }

  method NewTable(sbox: Sbox, key: array<byte>, n: nat, ghost e: Cipher, ghost d: Cipher)
    returns (l: array<byte>, lStar: array<byte>, lDollar: array<byte>)
    requires key.Length == 16 && n > 0 && IsSm4(e, d, sbox, key[..])
    ensures fresh(l) && fresh(lStar) && fresh(lDollar) && TableOk(l[..], e, n) && lStar[..] == LStar(e)
    ensures lDollar[..] == LDollar(e)
  {
    l, lStar, lDollar := new byte[16 * n], new byte[16](_ => 0), new byte[16];
    assert lStar[..] == ZERO;
    BuildTable(sbox, key, l, n, lStar, lDollar, e, d);
  }

  method NewOffset(sbox: Sbox, key: array<byte>, nonce: array<byte>, ghost e: Cipher, ghost d: Cipher)
    returns (offset: array<byte>)
    requires key.Length == 16 && nonce.Length <= 15 && IsSm4(e, d, sbox, key[..])
    ensures fresh(offset) && offset.Length == 24 && offset[..16] == Offset0(e, nonce[..])
  {
    offset := new byte[24](_ => 0);
    InitOffset(sbox, key, nonce, offset, e, d);
  }

  /** SM4_OCB_Encrypt: the ciphertext and the tag of RFC 7253, with SM4 as the block cipher. */
  method Encrypt(sbox: Sbox, key: array<byte>, nonce: array<byte>, message: array<byte>, ad: array<byte>,
                 out: array<byte>)
    requires key.Length == 16 && nonce.Length <= 15 && message.Length + 16 <= out.Length
    requires message.Length >= 16 || ad.Length >= 16
    requires out != key && out != message && out != ad
    modifies out
    ensures var e := Enc(sbox, key[..]); var o := Offset0(e, old(nonce[..]));
      out[..] == Put(old(out[..]), 0, Ciphertext(e, o, message[..]) + Tag(e, o, message[..], ad[..]))
  {
    Sm4Inverts(sbox, key[..]);
    EncryptWith(sbox, key, nonce, message, ad, out, Enc(sbox, key[..]), Dec(sbox, key[..]));
  }

  // ---------- SM4_OCB_Decrypt

  /** The full blocks of the ciphertext, decrypted in place in `out`, and their checksum. */
  method OpenBlocks(sbox: Sbox, key: array<byte>, src: seq<byte>, m: nat, out: array<byte>, checksum: array<byte>,
                    offset: array<byte>, l: array<byte>, ghost e: Cipher, ghost d: Cipher, ghost off: Offsets)
    requires key.Length == 16 && offset.Length >= 16 && checksum.Length == 16 && checksum[..] == ZERO
    requires |src| == 16 * m <= out.Length
    requires out != key && out != offset && out != l && offset != key && offset != l
    requires checksum != out && checksum != offset && checksum != key && checksum != l
    requires IsSm4(e, d, sbox, key[..]) && TableFor(l[..], off, m) && offset[..16] == off(0)
    modifies out, offset, checksum
    ensures offset[..16] == off(m) && out[..] == Put(old(out[..]), 0, CipherBlocks(d, off, src, m))
    ensures checksum[..] == Checksum(CipherBlocks(d, off, src, m), m)
  {
    ghost var before := out[..];
    Blocks16(|src|, m);
    CryptBlocks(sbox, key, true, src, out, offset, l, e, d, d, off);
    ghost var full := CipherBlocks(d, off, src, m);
    PutPrefix(before, out[..], full);
    SumBlocks(out, m, checksum);
    ChecksumPrefix(out[..], full, m);
  }

  lemma Blocks16(n: nat, m: nat)
    requires n == 16 * m
    ensures n / 16 == m && n % 16 == 0
  {
  }

  lemma PutPrefix(before: seq<byte>, after: seq<byte>, p: seq<byte>)
    requires |p| <= |before| == |after| && after[..|p|] == p && after[|p|..] == before[|p|..]
    ensures after == Put(before, 0, p)
  {
    assert after == after[..|p|] + after[|p|..];
  }

  lemma {:induction false} ChecksumPrefix(a: seq<byte>, b: seq<byte>, i: nat)
    requires 16 * i <= |a| && 16 * i <= |b| && a[..16 * i] == b[..16 * i]
    ensures Checksum(a, i) == Checksum(b, i)
  {
    if i > 0 {
      ShorterPrefix(a, b, 16 * i, 16 * (i - 1));
      ChecksumPrefix(a, b, i - 1);
      assert BlockAt(a, i - 1) == a[..16 * i][16 * (i - 1)..] && BlockAt(b, i - 1) == b[..16 * i][16 * (i - 1)..];
    }
  }

  /** The partial last block and its share of the checksum. */
  method OpenTail(sbox: Sbox, key: array<byte>, tail: seq<byte>, out: array<byte>, at: nat, checksum: array<byte>,
                  offset: array<byte>, lStar: array<byte>, ghost e: Cipher, ghost d: Cipher)
    requires key.Length == 16 && offset.Length >= 16 && checksum.Length == 16 && lStar.Length == 16
    requires |tail| < 16 && at + |tail| <= out.Length && IsSm4(e, d, sbox, key[..])
    requires out != key && out != offset && out != lStar && out != checksum
    requires offset != key && offset != lStar && checksum != offset && checksum != key && checksum != lStar
    modifies out, offset, checksum
    ensures var last: Block := Xor(old(offset[..16]), lStar[..]);
      && offset[..16] == last
      && out[..] == Put(old(out[..]), at, Xor(e(last)[..|tail|], tail))
      && checksum[..] == Xor(old(checksum[..]), Pad(Xor(e(last)[..|tail|], tail)))
  {
    var pad := new byte[16];
    assert offset[0..16] == offset[..16];
    XorInto(offset, 0, lStar[..]);
    ghost var last: Block := offset[..16];
    CopyInto(offset[..16], pad, 0);
    assert pad[0..16] == last;
    EncryptInPlace(sbox, key, pad, 0, e, d);
    assert pad[..] == e(last);
    XorPrefix(tail, pad);
    CopyInto(pad[..|tail|], out, at);
    SumTail(pad[..|tail|], checksum);
  }

  method XorPrefix(tail: seq<byte>, pad: array<byte>)
    requires |tail| < 16 == pad.Length
    modifies pad
    ensures pad[..|tail|] == Xor(old(pad[..|tail|]), tail)
  {
    var i := 0;
    while i < |tail|
      invariant 0 <= i <= |tail|
      invariant forall t | 0 <= t < |tail| :: pad[t] == if t < i then old(pad[t]) ^ tail[t] else old(pad[t])
    {
      pad[i] := pad[i] ^ tail[i];
      i := i + 1;
    }
  }

  /** The message part of SM4_OCB_Decrypt, on the full blocks and what follows them. */
  method OpenMessage(sbox: Sbox, key: array<byte>, head: seq<byte>, rest: seq<byte>, m: nat, out: array<byte>,
                     checksum: array<byte>, offset: array<byte>, l: array<byte>, lStar: array<byte>, ghost e: Cipher,
                     ghost d: Cipher, ghost off: Offsets, ghost last: Block)
    requires key.Length == 16 && lStar.Length == 16 && offset.Length >= 16
    requires |head| == 16 * m && |rest| < 16 && |head| + |rest| <= out.Length
    requires checksum.Length == 16 && checksum[..] == ZERO
    requires out != key && out != offset && out != l && out != lStar && out != checksum
    requires offset != key && offset != l && offset != lStar
    requires checksum != offset && checksum != key && checksum != l && checksum != lStar
    requires IsSm4(e, d, sbox, key[..]) && TableFor(l[..], off, m) && offset[..16] == off(0)
    requires last == if rest == [] then off(m) else Xor(off(m), lStar[..])
    modifies out, offset, checksum
    ensures offset[..16] == last && out[..] == Put(old(out[..]), 0, Open(e, d, off, last, head + rest))
    ensures checksum[..] == FullChecksum(Open(e, d, off, last, head + rest))
  {
    OpenFinish(e, d, off, last, head, rest, m, out[..]);
    OpenBlocks(sbox, key, head, m, out, checksum, offset, l, e, d, off);
    OpenRest(sbox, key, rest, out, 16 * m, checksum, offset, lStar, e, d, last);
  }

  method OpenRest(sbox: Sbox, key: array<byte>, rest: seq<byte>, out: array<byte>, at: nat, checksum: array<byte>,
                  offset: array<byte>, lStar: array<byte>, ghost e: Cipher, ghost d: Cipher, ghost last: Block)
    requires key.Length == 16 && offset.Length >= 16 && checksum.Length == 16 && lStar.Length == 16
    requires |rest| < 16 && at + |rest| <= out.Length && IsSm4(e, d, sbox, key[..])
    requires out != key && out != offset && out != lStar && out != checksum
    requires offset != key && offset != lStar && checksum != offset && checksum != key && checksum != lStar
    requires last == if rest == [] then offset[..16] else Xor(offset[..16], lStar[..])
    modifies out, offset, checksum
    ensures offset[..16] == last && out[..] == Put(old(out[..]), at, Xor(e(last)[..|rest|], rest))
    ensures checksum[..] == WithTail(old(checksum[..]), Xor(e(last)[..|rest|], rest))
  {
    if |rest| > 0 {
      OpenTail(sbox, key, rest, out, at, checksum, offset, lStar, e, d);
    }
  }

  function WithTail(sum: Block, tail: seq<byte>): Block
    requires |tail| < 16
  { if tail == [] then sum else Xor(sum, Pad(tail)) }

  lemma OpenFinish(e: Cipher, d: Cipher, off: Offsets, last: Block, head: seq<byte>, rest: seq<byte>, m: nat,
                   before: seq<byte>)
    requires |head| == 16 * m && |rest| < 16 && |head| + |rest| <= |before|
    ensures var full, tail := CipherBlocks(d, off, head, m), Xor(e(last)[..|rest|], rest);
      var p := Open(e, d, off, last, head + rest);
      && Put(before, 0, p) == Put(Put(before, 0, full), 16 * m, tail)
      && FullChecksum(p) == WithTail(Checksum(full, m), tail)
  {
    var full, tail := CipherBlocks(d, off, head, m), Xor(e(last)[..|rest|], rest);
    CipherPrefix(d, off, head, head + rest, m);
    OpenParts(e, d, off, last, head, rest, m);
    PutAppend(before, 0, full, tail);
    ChecksumParts(full, tail, m);
  }

  lemma {:induction false} CipherPrefix(f: Cipher, off: Offsets, a: seq<byte>, b: seq<byte>, i: nat)
    requires 16 * i <= |a| && 16 * i <= |b| && a[..16 * i] == b[..16 * i]
    ensures CipherBlocks(f, off, a, i) == CipherBlocks(f, off, b, i)
  {
    if i > 0 {
      ShorterPrefix(a, b, 16 * i, 16 * (i - 1));
      CipherPrefix(f, off, a, b, i - 1);
      assert BlockAt(a, i - 1) == a[..16 * i][16 * (i - 1)..] && BlockAt(b, i - 1) == b[..16 * i][16 * (i - 1)..];
    }
  }

  lemma ChecksumParts(full: seq<byte>, tail: seq<byte>, m: nat)
    requires |full| == 16 * m && |tail| < 16
    ensures FullChecksum(full + tail) == if tail == [] then Checksum(full, m) else Xor(Checksum(full, m), Pad(tail))
  {
    var p := full + tail;
    assert |p| / 16 == m && |p| % 16 == |tail|;
    assert Rest(p) == tail;
    ChecksumPrefix(p, full, m);
  }

  /** Everything after the setup. */
  method OpenAndCheck(sbox: Sbox, key: array<byte>, c: array<byte>, clen: nat, ad: array<byte>, out: array<byte>,
                      offset: array<byte>, l: array<byte>, lStar: array<byte>, lDollar: array<byte>, ghost e: Cipher,
                      ghost d: Cipher, ghost off: Offsets, ghost last: Block, ghost hoff: Offsets, ghost hlast: Block)
    returns (ret: int)
    requires key.Length == 16 && lStar.Length == 16 && lDollar.Length == 16 && offset.Length >= 16
    requires clen + 16 <= c.Length && clen <= out.Length
    requires out != key && out != c && out != ad && out != offset && out != l && out != lStar && out != lDollar
    requires offset != key && offset != c && offset != ad && offset != l && offset != lStar && offset != lDollar
    requires IsSm4(e, d, sbox, key[..]) && TableFor(l[..], off, clen / 16) && offset[..16] == off(0)
    requires last == if clen % 16 == 0 then off(clen / 16) else Xor(off(clen / 16), lStar[..])
    requires hoff(0) == ZERO && TableFor(l[..], hoff, ad.Length / 16)
    requires hlast == if ad.Length % 16 == 0 then hoff(ad.Length / 16) else Xor(hoff(ad.Length / 16), lStar[..])
    modifies out, offset
    ensures var p := Open(e, d, off, last, c[..clen]);
      && out[..] == Put(old(out[..]), 0, p)
      && (ret == 0 <==>
          TagWith(e, FullChecksum(p), last, lDollar[..], HashWith(e, hoff, hlast, ad[..])) == c[clen..clen + 16])
  {
    var checksum := new byte[16](_ => 0);
    assert checksum[..] == ZERO;
    var m := clen / 16;
    SplitPrefix(c[..], 16 * m, clen);
    OpenMessage(sbox, key, c[..16 * m], c[16 * m..clen], m, out, checksum, offset, l, lStar, e, d, off, last);
    FinishTag(sbox, key, ad, l, lStar, lDollar, checksum, offset, e, d, hoff, hlast);
    ret := CompareTag(checksum, c[clen..clen + 16]);
  }

  /** The difference of the two tags, folded into one byte. */
  method CompareTag(checksum: array<byte>, stored: Block) returns (ret: int)
    requires checksum.Length == 16
    modifies checksum
    ensures ret == 0 <==> old(checksum[..]) == stored
  {
    ghost var c: Block := checksum[..];
    assert checksum[0..16] == c;
    XorInto(checksum, 0, stored);
    var diff: byte, i := 0, 0;
    while i < 16
      invariant 0 <= i <= 16 && forall t | 0 <= t < 16 :: checksum[t] == c[t] ^ stored[t]
      invariant diff == 0 <==> forall t | 0 <= t < i :: c[t] == stored[t]
    {
      OrIsZero(diff, c[i], stored[i]);
      diff := diff | checksum[i];
      i := i + 1;
    }
    ret := diff as int;
  }

  lemma OrIsZero(d: byte, a: byte, b: byte)
    ensures d | (a ^ b) == 0 <==> d == 0 && a == b
  {
  }

  method DecryptWith(sbox: Sbox, key: array<byte>, nonce: array<byte>, c: array<byte>, clen: nat, ad: array<byte>,
                     out: array<byte>, ghost e: Cipher, ghost d: Cipher)
    returns (ret: int)
    requires key.Length == 16 && nonce.Length <= 15 && clen + 16 <= c.Length && clen <= out.Length
    requires clen >= 16 || ad.Length >= 16
    requires out != key && out != c && out != ad && IsSm4(e, d, sbox, key[..])
    modifies out
    ensures var o := Offset0(e, old(nonce[..])); var p := Plaintext(e, d, o, c[..clen]);
      out[..] == Put(old(out[..]), 0, p) && (ret == 0 <==> Tag(e, o, p, ad[..]) == c[clen..clen + 16])
  {
    ghost var o := Offset0(e, nonce[..]);
    var l, lStar, lDollar, offset := Setup(sbox, key, nonce, clen, ad.Length, e, d);
    FinalOffsets(e, o, clen, lStar[..]);
    FinalOffsets(e, ZERO, ad.Length, lStar[..]);
    ret := OpenAndCheck(sbox, key, c, clen, ad, out, offset, l, lStar, lDollar, e, d,
                        From(e, o), FinalOffset(e, o, clen), From(e, ZERO), FinalOffset(e, ZERO, ad.Length));
  }

  /** SM4_OCB_Decrypt: zero exactly when the stored tag is the tag of what was decrypted. */
  method Decrypt(sbox: Sbox, key: array<byte>, nonce: array<byte>, c: array<byte>, clen: nat, ad: array<byte>,
                 out: array<byte>)
    returns (ret: int)
    requires key.Length == 16 && nonce.Length <= 15 && clen + 16 <= c.Length && clen <= out.Length
    requires clen >= 16 || ad.Length >= 16
    requires out != key && out != c && out != ad
    modifies out
    ensures var e := Enc(sbox, key[..]); var o := Offset0(e, old(nonce[..]));
      var p := Plaintext(e, Dec(sbox, key[..]), o, c[..clen]);
      out[..] == Put(old(out[..]), 0, p) && (ret == 0 <==> Tag(e, o, p, ad[..]) == c[clen..clen + 16])
  {
    Sm4Inverts(sbox, key[..]);
    ret := DecryptWith(sbox, key, nonce, c, clen, ad, out, Enc(sbox, key[..]), Dec(sbox, key[..]));
  }

  // ---------- the round trip

  /** What SM4_OCB_Encrypt writes, SM4_OCB_Decrypt accepts and turns back into the message. */
  lemma OcbRoundTrip(sbox: Sbox, key: Block, nonce: seq<byte>, p: seq<byte>, a: seq<byte>)
    requires |nonce| <= 15
    ensures var e := Enc(sbox, key); var o := Offset0(e, nonce); var c := Ciphertext(e, o, p) + Tag(e, o, p, a);
      var q := Plaintext(e, Dec(sbox, key), o, c[..|p|]); q == p && Tag(e, o, q, a) == c[|p|..]
  {
    Sm4Inverts(sbox, key);
    Accepted(Enc(sbox, key), Dec(sbox, key), Offset0(Enc(sbox, key), nonce), p, a);
  }

  lemma Accepted(e: Cipher, d: Cipher, o: Block, p: seq<byte>, a: seq<byte>)
    requires forall x: Block :: d(e(x)) == x
    ensures Opens(e, d, o, Ciphertext(e, o, p) + Tag(e, o, p, a), a, p)
  {
    PlaintextOfCiphertext(e, d, o, p);
    Halves(Ciphertext(e, o, p), Tag(e, o, p, a));
  }

  lemma Halves(a: seq<byte>, b: Block)
    ensures (a + b)[..|a|] == a && (a + b)[|a|..] == b
  {
  }

  /** The two functions one after the other. */
  method EncryptThenDecrypt(sbox: Sbox, key: array<byte>, nonce: array<byte>, message: array<byte>, ad: array<byte>)
    returns (ret: int, plain: seq<byte>)
    requires key.Length == 16 && nonce.Length <= 15 && (message.Length >= 16 || ad.Length >= 16)
    ensures ret == 0 && plain == message[..]
  {
    Sm4Inverts(sbox, key[..]);
    var sealed := SealFresh(sbox, key, nonce, message, ad, Enc(sbox, key[..]), Dec(sbox, key[..]));
    ret, plain := OpenFresh(sbox, key, nonce, sealed, message.Length, ad, Enc(sbox, key[..]), Dec(sbox, key[..]),
      message[..]);
  }

  /** An accepted encoding of p: the conclusion of the round trip, as the decrypting side needs it. */
  ghost predicate Opens(e: Cipher, d: Cipher, o: Block, c: seq<byte>, a: seq<byte>, p: seq<byte>)
    requires |c| == |p| + 16
  { Plaintext(e, d, o, c[..|p|]) == p && Tag(e, o, p, a) == c[|p|..] }

  method SealFresh(sbox: Sbox, key: array<byte>, nonce: array<byte>, message: array<byte>, ad: array<byte>,
                   ghost e: Cipher, ghost d: Cipher)
    returns (sealed: array<byte>)
    requires key.Length == 16 && nonce.Length <= 15 && (message.Length >= 16 || ad.Length >= 16)
    requires IsSm4(e, d, sbox, key[..]) && forall x: Block :: d(e(x)) == x
    ensures fresh(sealed) && sealed.Length == message.Length + 16
    ensures Opens(e, d, Offset0(e, nonce[..]), sealed[..], ad[..], message[..])
  {
    sealed := new byte[message.Length + 16];
    ghost var before := sealed[..];
    EncryptWith(sbox, key, nonce, message, ad, sealed, e, d);
    SealedOpens(e, d, Offset0(e, nonce[..]), message[..], ad[..], before, sealed[..]);
  }

  lemma SealedOpens(e: Cipher, d: Cipher, o: Block, p: seq<byte>, a: seq<byte>, before: seq<byte>, c: seq<byte>)
    requires |before| == |p| + 16 && c == Put(before, 0, Ciphertext(e, o, p) + Tag(e, o, p, a))
    requires forall x: Block :: d(e(x)) == x
    ensures Opens(e, d, o, c, a, p)
  {
    PutWhole(before, Ciphertext(e, o, p) + Tag(e, o, p, a));
    Accepted(e, d, o, p, a);
  }

  lemma PutWhole(s: seq<byte>, b: seq<byte>)
    requires |s| == |b|
    ensures Put(s, 0, b) == b
  {
  }

  method OpenFresh(sbox: Sbox, key: array<byte>, nonce: array<byte>, c: array<byte>, clen: nat, ad: array<byte>,
                   ghost e: Cipher, ghost d: Cipher, ghost p: seq<byte>)
    returns (ret: int, plain: seq<byte>)
    requires key.Length == 16 && nonce.Length <= 15 && clen + 16 == c.Length && (clen >= 16 || ad.Length >= 16)
    requires IsSm4(e, d, sbox, key[..]) && |p| == clen && Opens(e, d, Offset0(e, nonce[..]), c[..], ad[..], p)
    ensures ret == 0 && plain == p
  {
    var out := new byte[clen];
    ghost var o, before := Offset0(e, nonce[..]), out[..];
    OpensParts(e, d, o, c, clen, ad[..], p);
    ret := DecryptWith(sbox, key, nonce, c, clen, ad, out, e, d);
    PutWhole(before, p);
    plain := out[..];
  }

  lemma OpensParts(e: Cipher, d: Cipher, o: Block, c: array<byte>, clen: nat, a: seq<byte>, p: seq<byte>)
    requires |p| == clen && c.Length == clen + 16 && Opens(e, d, o, c[..], a, p)
    ensures Plaintext(e, d, o, c[..clen]) == p && Tag(e, o, p, a) == c[clen..clen + 16]
  {
    Slices(c, clen);
  }

  lemma Slices(c: array<byte>, clen: nat)
    requires c.Length == clen + 16
    ensures c[..][..clen] == c[..clen] && c[..][clen..] == c[clen..clen + 16]
  {
  }
}
