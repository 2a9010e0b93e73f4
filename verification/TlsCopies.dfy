/** The memory that thread-local storage occupies: a new thread's area, and the copies that existing
    threads receive when a module is loaded at run time. */
module TlsCopies {
  import opened Bits
  import opened Words
  import opened Tls
  import opened Splice
  import opened Memory

  // ---------- the area of a new thread

  /** ALIGN. */
  function Align(cpu: Machine, x: nat, y: nat): nat
    requires y > 0
  { RoundDown(cpu, x + y - 1, y) }

  lemma AlignIsRoundUp(cpu: Machine, x: nat, y: nat)
    requires Aligns(cpu, y) && x + y <= Pow2(cpu.bits)
    ensures x <= Align(cpu, x, y) < x + y
  {
    RoundDownIs(cpu, x + y - 1, y);
    ModBound(x + y - 1, y);
  }

  lemma ModBound(x: int, y: nat)
    requires y > 0
    ensures 0 <= x % y < y
  {
  }

  /** The bytes update_tls_size asks for, before rounding. */
  function TlsBytes(word: nat, pthread: nat, cnt: nat, used: nat, align: nat): nat {
    (1 + cnt) * word + used + pthread + align * 2
  }

  /** Where __copy_tls puts the thread pointer and the thread's vector in an area of the size that update_tls_size
      computed. Nothing overlaps and nothing leaves the area. */
  method PlaceThread(cpu: Machine, above: bool, cnt: nat, used: nat, align: nat, word: nat, pthread: nat, mem: nat)
    returns (tp: int, dtvAt: int, ghost size: nat)
    requires Aligns(cpu, align) && TlsBytes(word, pthread, cnt, used, align) + align <= Pow2(cpu.bits)
    ensures tp % align == 0 && size == Align(cpu, TlsBytes(word, pthread, cnt, used, align), align)
    ensures if above then mem <= tp - pthread && tp + used <= dtvAt && dtvAt + (1 + cnt) * word == mem + size
            else dtvAt == mem && dtvAt + (1 + cnt) * word <= tp - used && tp + pthread <= mem + size
  {
    var bytes, dtvBytes := TlsBytes(word, pthread, cnt, used, align), (1 + cnt) * word;
    AlignIsRoundUp(cpu, bytes, align);
    var tlsSize := Align(cpu, bytes, align);
    size := tlsSize;
    if above {
      dtvAt := mem + tlsSize - dtvBytes;
      tp := mem + cpu.and(Wrap(cpu.bits, 0 - (mem + pthread)), align - 1) + pthread;
      RoundedUp(cpu, mem + pthread, align);
    } else {
      dtvAt := mem;
      var t := mem + tlsSize - pthread;
      tp := t - cpu.and(Wrap(cpu.bits, t), align - 1);
      RoundedDown(cpu, t, align);
    }
  }

  /** The modules' blocks for a thread pointer hold the first i of the images, and no byte outside the blocks' area has
      changed. */
  ghost predicate ImagesCopied(above: bool, mods: seq<Module>, images: seq<seq<byte>>, i: nat, used: int, tp: int,
                               m: seq<byte>, was: seq<byte>)
    requires i <= |mods| == |images|
  {
    && |m| == |was|
    && (forall k | 0 <= k < i :: HoldsAt(m, Start(above, mods[k], tp), images[k]))
    && (forall a | 0 <= a < |m| && !(if above then tp <= a < tp + used else tp - used <= a < tp) :: m[a] == was[a])
  }

  lemma ImageStep(cpu: Machine, above: bool, mods: seq<Module>, images: seq<seq<byte>>, i: nat, used: int, align: nat,
                  tp: int, m: seq<byte>, was: seq<byte>)
    requires LayoutOk(cpu, above, mods, used, align) && tp % align == 0 && i < |mods| == |images|
    requires forall k | 0 <= k < |mods| :: |images[k]| <= mods[k].size
    requires if above then 0 <= tp && tp + used <= |m| else used <= tp <= |m|
    requires ImagesCopied(above, mods, images, i, used, tp, m, was)
    ensures 0 <= Start(above, mods[i], tp) && Start(above, mods[i], tp) + |images[i]| <= |m|
    ensures ImagesCopied(above, mods, images, i + 1, used, tp, Put(m, Start(above, mods[i], tp), images[i]), was)
  {
    BlocksOfThread(cpu, above, mods, used, align, tp);
    var at := Start(above, mods[i], tp);
    PutHolds(m, at, images[i]);
    forall k | 0 <= k < i ensures HoldsAt(Put(m, at, images[i]), Start(above, mods[k], tp), images[k]) {
      PutKeeps(m, at, images[i], Start(above, mods[k], tp), images[k]);
    }
  }

  /** __copy_tls: the thread pointer, the place of the thread's vector and its contents, and the image of every module
      in its block. */
  method CopyTls(cpu: Machine, above: bool, mods: seq<Module>, images: seq<seq<byte>>, used: nat, align: nat, word: nat,
                 pthread: nat, dtp: int, mem: nat, memory: array<byte>)
    returns (tp: int, dtvAt: int, dtv: seq<int>, ghost size: nat)
    requires LayoutOk(cpu, above, mods, used, align)
    requires TlsBytes(word, pthread, |mods|, used, align) + align <= Pow2(cpu.bits)
    requires mem + Align(cpu, TlsBytes(word, pthread, |mods|, used, align), align) <= memory.Length
    requires |images| == |mods| && forall k | 0 <= k < |mods| :: |images[k]| <= mods[k].size
    modifies memory
    ensures tp % align == 0 && size == Align(cpu, TlsBytes(word, pthread, |mods|, used, align), align)
    ensures if above then mem <= tp - pthread && tp + used <= dtvAt && dtvAt + (1 + |mods|) * word == mem + size
            else dtvAt == mem && dtvAt + (1 + |mods|) * word <= tp - used && tp + pthread <= mem + size
    ensures |dtv| == |mods| + 1 && dtv[0] == |mods|
    ensures forall i | 0 <= i < |mods| :: dtv[i + 1] == Start(above, mods[i], tp) + dtp
    ensures ImagesCopied(above, mods, images, |mods|, used, tp, memory[..], old(memory[..]))
  {
    tp, dtvAt, size := PlaceThread(cpu, above, |mods|, used, align, word, pthread, mem);
    VectorBytes(|mods|, word);
    dtv := CopyImages(cpu, above, mods, images, used, align, tp, dtp, memory);
  }

  lemma VectorBytes(cnt: nat, word: nat)
    ensures (1 + cnt) * word >= 0
  {
  }

  method CopyImage(cpu: Machine, above: bool, mods: seq<Module>, images: seq<seq<byte>>, i: nat, ghost used: nat,
                   ghost align: nat, tp: int, memory: array<byte>, ghost was: seq<byte>)
    requires LayoutOk(cpu, above, mods, used, align) && tp % align == 0 && i < |mods| == |images|
    requires forall k | 0 <= k < |mods| :: |images[k]| <= mods[k].size
    requires if above then 0 <= tp && tp + used <= memory.Length else used <= tp <= memory.Length
    requires ImagesCopied(above, mods, images, i, used, tp, memory[..], was)
    modifies memory
    ensures ImagesCopied(above, mods, images, i + 1, used, tp, memory[..], was)
  {
    ImageStep(cpu, above, mods, images, i, used, align, tp, memory[..], was);
    CopyInto(images[i], memory, Start(above, mods[i], tp));
  }

  method CopyImages(cpu: Machine, above: bool, mods: seq<Module>, images: seq<seq<byte>>, ghost used: nat,
                    ghost align: nat, tp: int, dtp: int, memory: array<byte>)
    returns (dtv: seq<int>)
    requires LayoutOk(cpu, above, mods, used, align) && tp % align == 0
    requires if above then 0 <= tp && tp + used <= memory.Length else used <= tp <= memory.Length
    requires |images| == |mods| && forall k | 0 <= k < |mods| :: |images[k]| <= mods[k].size
    modifies memory
    ensures |dtv| == |mods| + 1 && dtv[0] == |mods|
    ensures forall i | 0 <= i < |mods| :: dtv[i + 1] == Start(above, mods[i], tp) + dtp
    ensures ImagesCopied(above, mods, images, |mods|, used, tp, memory[..], old(memory[..]))
  {
    dtv := [|mods|];
    var i := 0;
    while i < |mods|
      invariant 0 <= i <= |mods| && |dtv| == i + 1 && dtv[0] == |mods|
      invariant forall k | 0 <= k < i :: dtv[k + 1] == Start(above, mods[k], tp) + dtp
      invariant ImagesCopied(above, mods, images, i, used, tp, memory[..], old(memory[..]))
    {
      dtv := dtv + [Start(above, mods[i], tp) + dtp];
      CopyImage(cpu, above, mods, images, i, used, align, tp, memory, old(memory[..]));
      i := i + 1;
    }
  }

  lemma RoundedUp(cpu: Machine, x: nat, a: nat)
    requires Aligns(cpu, a)
    ensures 0 <= cpu.and(Wrap(cpu.bits, 0 - x), a - 1) < a && (x + cpu.and(Wrap(cpu.bits, 0 - x), a - 1)) % a == 0
  {
    LowMask(cpu, 0 - x, a);
    UpToMultiple(x, a);
  }

  lemma UpToMultiple(x: int, a: nat)
    requires a > 0
    ensures 0 <= (0 - x) % a < a && (x + (0 - x) % a) % a == 0
  {
    var q, r := (0 - x) / a, (0 - x) % a;
    assert 0 - x == a * q + r;
    DivUnique(x + r, a, -q, 0);
  }

  lemma RoundedDown(cpu: Machine, x: int, a: nat)
    requires Aligns(cpu, a)
    ensures 0 <= cpu.and(Wrap(cpu.bits, x), a - 1) < a && (x - cpu.and(Wrap(cpu.bits, x), a - 1)) % a == 0
  {
    LowMask(cpu, x, a);
    DownToMultiple(x, a);
  }

  lemma DownToMultiple(x: int, a: nat)
    requires a > 0
    ensures 0 <= x % a < a && (x - x % a) % a == 0
  {
    var q, r := x / a, x % a;
    assert x == a * q + r;
    DivUnique(x - r, a, q, 0);
  }

  // ---------- the reservation

  /** A module that was loaded at run time, the number of threads at that time, the contents of its image, and the space
      reserved with it. */
  datatype Pending =
    Pending(id: nat, nth: nat, image: nat, bytes: seq<byte>, size: nat, align: nat, newDtv: nat, newTls: nat)

  /** The space runs from newDtv to `end`: a vector with id + 1 slots for each of the nth threads, and
      then a block with room for alignment for each of them. */
  ghost predicate Reserved(p: Pending, word: nat, end: nat) {
    && p.newTls == p.newDtv + p.nth * (word * (p.id + 1))
    && p.newTls + p.nth * (p.size + p.align) <= end
  }

  /** The part of load_library that sizes the allocation of a DSO and divides it. `cnt` is the id of the new module;
      the DSO is followed by its name, of `nameLen` bytes and a terminator. */
  method Reserve(cpu: Machine, base: nat, dsoSize: nat, bufAt: nat, nameLen: nat, cnt: nat, image: nat,
                 bytes: seq<byte>, size: nat, align: nat, threads: nat, word: nat)
    returns (alloc: nat, p: Pending)
    requires cnt > 0 && threads > 0 && bufAt <= dsoSize && Aligns(cpu, word)
    requires base + bufAt + nameLen + word < Pow2(cpu.bits)
    ensures p == Pending(cnt, threads, image, bytes, size, align, p.newDtv, p.newTls) && p.newDtv % word == 0
    ensures base + bufAt + nameLen + 1 <= p.newDtv && Reserved(p, word, base + alloc)
  {
    var perTh := size + align + word * (cnt - 1 + 3);
    PerThread(threads, size + align, word, cnt);
    var newDtv, newTls;
    alloc, newDtv, newTls := Divide(cpu, base, dsoSize, base + bufAt, nameLen, word, threads * perTh,
                                    threads * (word * (cnt + 1)), threads * (size + align));
    p := Pending(cnt, threads, image, bytes, size, align, newDtv, newTls);
  }

  /** The space after the name: first the vectors, then the blocks. */
  method Divide(cpu: Machine, base: nat, dsoSize: nat, name: nat, nameLen: nat, word: nat, reserved: nat, vectors: nat,
                ghost blocks: nat)
    returns (alloc: nat, newDtv: nat, newTls: nat)
    requires name <= base + dsoSize && Aligns(cpu, word) && name + nameLen + word < Pow2(cpu.bits)
    requires vectors + blocks + word <= reserved
    ensures newDtv % word == 0 && name + nameLen + 1 <= newDtv && newTls == newDtv + vectors
    ensures newTls + blocks <= base + alloc
  {
    alloc := dsoSize + nameLen + 1 + reserved;
    RoundedName(cpu, name + nameLen, word);
    newDtv := RoundDown(cpu, name + nameLen + word, word);
    newTls := newDtv + vectors;
  }

  lemma RoundedName(cpu: Machine, x: nat, word: nat)
    requires Aligns(cpu, word) && x + word < Pow2(cpu.bits)
    ensures x < RoundDown(cpu, x + word, word) <= x + word && RoundDown(cpu, x + word, word) % word == 0
  {
    RoundDownIs(cpu, x + word, word);
    DownToMultiple(x + word, word);
  }

  lemma PerThread(threads: nat, block: nat, word: nat, cnt: nat)
    requires threads > 0
    ensures threads * (word * (cnt + 1)) + threads * block + word <= threads * (block + word * (cnt - 1 + 3))
  {
    var v := word * (cnt + 1);
    assert word * (cnt - 1 + 3) == v + word;
    Spread(threads, block, v, word);
  }

  lemma Spread(t: nat, a: nat, b: nat, c: nat)
    requires t > 0
    ensures t * (a + (b + c)) >= t * b + t * a + c
  {
    assert t * (a + (b + c)) == t * a + t * b + t * c;
    assert t * c >= c;
  }

  /** Where thread j's copy of the module goes. */
  function CopyAt(cpu: Machine, p: Pending, j: nat): int
    requires p.align > 0
  {
    var mem := p.newTls + j * (p.size + p.align);
    mem + cpu.and(Wrap(cpu.bits, p.image - mem), p.align - 1)
  }

  /** Thread j's copy is congruent to the image and lies in slice j of the reservation, so copies of different
      threads are disjoint and the last one ends inside the allocation. */
  lemma CopyInReservation(cpu: Machine, p: Pending, word: nat, end: nat, j: nat)
    requires Aligns(cpu, p.align) && Reserved(p, word, end) && j < p.nth
    ensures (CopyAt(cpu, p, j) - p.image) % p.align == 0
    ensures var s := p.size + p.align;
      p.newTls + j * s <= CopyAt(cpu, p, j) && CopyAt(cpu, p, j) + p.size < p.newTls + (j + 1) * s <= end
  {
    var s := p.size + p.align;
    var mem, at := p.newTls + j * s, CopyAt(cpu, p, j);
    FirstCongruent(cpu, p.image, mem, p.align, at);
    SliceEnd(j, p.nth, s);
  }

  /** It is the first address of its slice that is congruent to the image. */
  lemma FirstCongruent(cpu: Machine, image: nat, mem: nat, align: nat, at: int)
    requires Aligns(cpu, align) && at == mem + cpu.and(Wrap(cpu.bits, image - mem), align - 1)
    ensures (at - image) % align == 0 && mem <= at < mem + align
  {
    LowMask(cpu, image - mem, align);
    AboveCongruent(mem, image, align);
  }

  lemma SliceEnd(j: nat, t: nat, s: nat)
    requires j < t
    ensures (j + 1) * s == j * s + s <= t * s
  {
    MulStep(j, t, s);
  }

  /** The byte range of row j of the new vectors lies before the copies. */
  lemma RowInReservation(p: Pending, word: nat, end: nat, j: nat)
    requires Reserved(p, word, end) && j < p.nth
    ensures p.newDtv + j * (word * (p.id + 1)) + word * (p.id + 1) <= p.newTls <= end
  {
    SliceEnd(j, p.nth, word * (p.id + 1));
  }
}
