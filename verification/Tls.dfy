/** Thread-local storage: the offsets that loading gives to each module, the size of a thread's area,
    and the reservation from which existing threads get copies of a module loaded later. */
module Tls {
  import opened Bits
  import opened Words

  /** A module's initialisation image, and where it goes relative to the thread pointer. */
  datatype Module = Module(image: nat, size: nat, align: nat, offset: int)

  // ---------- layout

  /** The first byte of the module's block for thread pointer tp. */
  function Start(above: bool, m: Module, tp: int): int { if above then tp + m.offset else tp - m.offset }

  /** The block lies within the first `used` bytes on its side of the thread pointer, and after the bytes already in
      use. */
  predicate Within(above: bool, m: Module, from: int, used: int) {
    if above then 0 <= from <= m.offset && m.offset + m.size <= used else 0 <= from && from + m.size <= m.offset <= used
  }

  /** The offset is congruent to the image modulo the alignment, seen from the thread pointer. */
  predicate Congruent(above: bool, m: Module)
    requires m.align > 0
  { if above then (m.offset - m.image) % m.align == 0 else (m.offset + m.image) % m.align == 0 }

  ghost predicate Placed(cpu: Machine, above: bool, m: Module, align: nat) {
    Aligns(cpu, m.align) && m.align <= align && m.align > 0 && Congruent(above, m)
  }

  /** Modules sit one after the other, each congruent to its image, all in the first `used` bytes. */
  ghost predicate LayoutOk(cpu: Machine, above: bool, mods: seq<Module>, used: int, align: nat) {
    && Aligns(cpu, align) && used >= 0
    && (forall i | 0 <= i < |mods| :: Placed(cpu, above, mods[i], align) && Within(above, mods[i], 0, used))
    && (forall i, j | 0 <= i < j < |mods| :: Apart(above, mods[i], mods[j]))
  }

  predicate Apart(above: bool, a: Module, b: Module) {
    if above then a.offset + a.size <= b.offset else a.offset + b.size <= b.offset
  }

  /** The two offset computations of load_library. */
  function OffsetFor(cpu: Machine, above: bool, used: int, image: nat, size: nat, align: nat): int
    requires align > 0
  {
    if above then used + cpu.and(align - 1, Wrap(cpu.bits, image - used))
    else
      var t := used + size + align - 1;
      t - cpu.and(Wrap(cpu.bits, t + image), align - 1)
  }

  /** The new block follows the bytes in use, and no more than align - 1 bytes are lost. */
  lemma OffsetForOk(cpu: Machine, above: bool, used: int, image: nat, size: nat, align: nat)
    requires Aligns(cpu, align) && used >= 0
    ensures var m := Module(image, size, align, OffsetFor(cpu, above, used, image, size, align));
      && Congruent(above, m)
      && Within(above, m, used, if above then m.offset + size else m.offset)
      && m.offset < (if above then used + align else used + size + align)
  {
    var r := Slack(cpu, above, used, image, size, align);
  }

  /** The bytes lost to alignment. */
  lemma Slack(cpu: Machine, above: bool, used: int, image: nat, size: nat, align: nat) returns (r: int)
    requires Aligns(cpu, align)
    ensures 0 <= r < align
    ensures var o := OffsetFor(cpu, above, used, image, size, align);
      if above then o == used + r && (o - image) % align == 0
      else o == used + size + align - 1 - r && (o + image) % align == 0
  {
    if above {
      LowMask(cpu, image - used, align);
      AboveCongruent(used, image, align);
      r := (image - used) % align;
    } else {
      LowMask(cpu, used + size + align - 1 + image, align);
      BelowCongruent(used + size + align - 1, image, align);
      r := (used + size + align - 1 + image) % align;
    }
  }

  lemma AboveCongruent(used: int, image: nat, a: nat)
    requires a > 0
    ensures 0 <= (image - used) % a < a && (used + (image - used) % a - image) % a == 0
  {
    var q, r := (image - used) / a, (image - used) % a;
    assert image - used == a * q + r;
    DivUnique(used + r - image, a, -q, 0);
  }

  lemma BelowCongruent(t: int, image: nat, a: nat)
    requires a > 0
    ensures 0 <= (t + image) % a < a && (t - (t + image) % a + image) % a == 0
  {
    var q, r := (t + image) / a, (t + image) % a;
    assert t + image == a * q + r;
    DivUnique(t - r + image, a, q, 0);
  }

  /** What every load keeps. */
  lemma LoadKeepsLayout(cpu: Machine, above: bool, mods: seq<Module>, used: int, align: nat, m: Module)
    requires LayoutOk(cpu, above, mods, used, align) && Aligns(cpu, m.align)
    requires m.offset == OffsetFor(cpu, above, used, m.image, m.size, m.align)
    ensures LayoutOk(cpu, above, mods + [m], if above then m.offset + m.size else m.offset, MaxP2(cpu, align, m.align))
  {
    MaxP2IsMax(cpu, align, m.align);
    OffsetForOk(cpu, above, used, m.image, m.size, m.align);
  }

  /** For a thread pointer aligned to tls_align, every block starts congruent to its image, all blocks lie in the
      `used` bytes next to the thread pointer, and no two of them share a byte. */
  lemma BlocksOfThread(cpu: Machine, above: bool, mods: seq<Module>, used: int, align: nat, tp: int)
    requires LayoutOk(cpu, above, mods, used, align) && align > 0 && tp % align == 0
    ensures forall i | 0 <= i < |mods| ::
      mods[i].align > 0 && (Start(above, mods[i], tp) - mods[i].image) % mods[i].align == 0
    ensures forall i | 0 <= i < |mods| :: var a := Start(above, mods[i], tp);
      if above then tp <= a && a + mods[i].size <= tp + used else tp - used <= a && a + mods[i].size <= tp
    ensures forall i, j | 0 <= i < j < |mods| :: var a, b := Start(above, mods[i], tp), Start(above, mods[j], tp);
      if above then a + mods[i].size <= b else b + mods[j].size <= a
  {
    forall i | 0 <= i < |mods|
      ensures mods[i].align > 0 && (Start(above, mods[i], tp) - mods[i].image) % mods[i].align == 0
    {
      MultipleOfLarger(cpu.bits, tp, mods[i].align, align);
      StartCongruent(above, mods[i], tp);
    }
    forall i, j | 0 <= i < j < |mods|
      ensures var a, b := Start(above, mods[i], tp), Start(above, mods[j], tp);
        if above then a + mods[i].size <= b else b + mods[j].size <= a
    {
      assert Apart(above, mods[i], mods[j]);
    }
  }

  lemma StartCongruent(above: bool, m: Module, tp: int)
    requires m.align > 0 && tp % m.align == 0 && Congruent(above, m)
    ensures (Start(above, m, tp) - m.image) % m.align == 0
  {
    if above {
      SumOfMultiples(tp, m.offset - m.image, m.align, 1);
    } else {
      SumOfMultiples(tp, m.offset + m.image, m.align, -1);
    }
  }

  lemma SumOfMultiples(x: int, y: int, a: nat, s: int)
    requires a > 0 && x % a == 0 && y % a == 0
    ensures (x + s * y) % a == 0
  {
    var p, q := x / a, y / a;
    Regroup(a, s, q, p);
    Assoc(a, s, q);
    DivUnique(x + s * y, a, s * q + p, 0);
  }

  lemma Assoc(a: int, s: int, q: int)
    ensures s * (a * q) == a * s * q
  {
  }

  // ---------- the main program

  /** The offset of the main program's module, as the start-up code computes it. */
  function AppOffset(cpu: Machine, above: bool, image: nat, size: nat, align: nat): int
    requires align > 0
  {
    if above then cpu.and(Wrap(cpu.bits, image), align - 1)
    else size + cpu.and(Wrap(cpu.bits, 0 - (image + size)), align - 1)
  }

  /** It is the offset that loading a first module gives. */
  lemma AppIsFirstLoad(cpu: Machine, above: bool, image: nat, size: nat, align: nat)
    requires Aligns(cpu, align)
    ensures AppOffset(cpu, above, image, size, align) == OffsetFor(cpu, above, 0, image, size, align)
  {
    if above {
      LowMask(cpu, image - 0, align);
    } else {
      LowMask(cpu, 0 - (image + size), align);
      LowMask(cpu, 0 + size + align - 1 + image, align);
      Complement(image + size, align);
    }
  }

  lemma Complement(s: nat, a: nat)
    requires a > 0
    ensures (0 - s) % a == a - 1 - (s + a - 1) % a
  {
    var q, r := s / a, s % a;
    assert s == a * q + r;
    if r == 0 {
      DivUnique(0 - s, a, -q, 0);
      DivUnique(s + a - 1, a, q, a - 1);
    } else {
      DivUnique(0 - s, a, -q - 1, a - r);
      DivUnique(s + a - 1, a, q + 1, r - 1);
    }
  }

  // ---------- the linker's TLS state

  class TlsArea {
    const cpu: Machine
    const above: bool
    var cnt: nat
    var offset: int
    var align: nat
    var mods: seq<Module>

    ghost predicate Valid()
      reads this
    { cnt == |mods| && LayoutOk(cpu, above, mods, offset, align) }

    constructor (cpu: Machine, above: bool, minAlign: nat)
      requires Aligns(cpu, minAlign)
      ensures Valid() && this.cpu == cpu && this.above == above && mods == [] && offset == 0 && align == minAlign
    {
      this.cpu, this.above := cpu, above;
      cnt, offset, align, mods := 0, 0, minAlign, [];
    }

    /** The main program's module, which comes first. */
    method StartApp(image: nat, size: nat, a: nat)
      requires Valid() && mods == [] && offset == 0 && Aligns(cpu, a)
      modifies this
      ensures Valid() && |mods| == 1 && mods[0] == Module(image, size, a, AppOffset(cpu, above, image, size, a))
    {
      var m := Module(image, size, a, AppOffset(cpu, above, image, size, a));
      AppIsFirstLoad(cpu, above, image, size, a);
      LoadKeepsLayout(cpu, above, mods, offset, align, m);
      cnt := 1;
      offset := if above then m.offset + size else m.offset;
      align := MaxP2(cpu, align, a);
      mods := mods + [m];
    }

    /** The TLS part of load_library, with the module's id as its result. */
    method Load(image: nat, size: nat, a: nat) returns (id: nat)
      requires Valid() && Aligns(cpu, a)
      modifies this
      ensures Valid() && id == cnt == old(cnt) + 1
      ensures |mods| == id && mods[..id - 1] == old(mods) && mods[id - 1].(offset := 0) == Module(image, size, a, 0)
      ensures align == if old(align) <= a then a else old(align)
      ensures old(offset) + size <= offset < old(offset) + size + a
    {
      MaxP2IsMax(cpu, align, a);
      OffsetForOk(cpu, above, offset, image, size, a);
      cnt := cnt + 1;
      id := cnt;
      var m := Module(image, size, a, OffsetFor(cpu, above, offset, image, size, a));
      LoadKeepsLayout(cpu, above, mods, offset, align, m);
      align := MaxP2(cpu, align, a);
      offset := if above then m.offset + size else m.offset;
      mods := mods + [m];
    }
  }
}
