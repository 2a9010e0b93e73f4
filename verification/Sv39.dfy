/** Sv39 page tables in pool memory: the hardware walk (section 4.4 of the RISC-V Privileged
    Architecture), the entry encodings of the driver, and the ownership invariant of the tables
    the driver builds. Pages are numbered from the start of the pool. */
module Sv39 {
  import opened Bits
  import opened Memory

  const PTE_V := 1

  // ---------- entries

  /** pte_create: (ppn << 10) | PTE_V | type. */
  function PteCreate(ppn: nat, kind: nat): nat { Or(Or(ppn * 1024, PTE_V), kind) }

  function PtdCreate(ppn: nat): nat { PteCreate(ppn, PTE_V) }

  /** The entry that enclave_alloc_page and map_va2pa store. */
  function LeafCreate(ppn: nat, flags: nat): nat { Or(Or(PtdCreate(ppn), flags), PTE_V) }

  function PtePpn(pte: nat): nat { pte / 1024 }
  function PteFlags(pte: nat): nat { pte % 1024 }
  predicate Valid(pte: nat) { pte % 2 == 1 }
  predicate Readable(pte: nat) { (pte / 2) % 2 == 1 }
  predicate Writable(pte: nat) { (pte / 4) % 2 == 1 }
  predicate Executable(pte: nat) { (pte / 8) % 2 == 1 }
  predicate IsLeaf(pte: nat) { Valid(pte) && Readable(pte) }

  lemma OrLow10(ppn: nat, a: nat, b: nat)
    requires a < 1024 && b < 1024
    ensures Or(ppn * 1024 + a, b) == ppn * 1024 + Or(a, b)
  {
    assert Pow2(10) == 1024;
    OrLow(ppn, 10, a, b);
  }

  /** A table descriptor carries its page and no permission. */
  lemma PtdDecodes(ppn: nat)
    ensures PtdCreate(ppn) == ppn * 1024 + 1
  {
    OrLow10(ppn, 0, 1);
    OrLow10(ppn, 1, 1);
    OrZeroLeft(1);
    assert Or(1, 1) == 1;
  }

  lemma OrZeroLeft(b: nat)
    ensures Or(0, b) == b
  {
    if b > 0 {
      OrZeroLeft(b / 2);
    }
  }

  /** The flags as stored: as given, with the valid bit set. */
  function Stored(flags: nat): (f: nat)
    ensures f % 2 == 1 && f / 2 == flags / 2 && (flags < 1024 ==> f < 1024)
  { flags - flags % 2 + 1 }

  lemma LeafValue(ppn: nat, flags: nat)
    requires flags < 1024
    ensures LeafCreate(ppn, flags) == ppn * 1024 + Stored(flags)
  {
    PtdDecodes(ppn);
    OrLow10(ppn, 1, flags);
    OrOne(flags);
    OrLow10(ppn, Stored(flags), 1);
    OrOddOne(Stored(flags));
  }

  /** A leaf entry gives back its page and its flags, with the valid bit set. */
  lemma LeafDecodes(ppn: nat, flags: nat)
    requires flags < 1024
    ensures PtePpn(LeafCreate(ppn, flags)) == ppn && PteFlags(LeafCreate(ppn, flags)) == Stored(flags)
  {
    LeafValue(ppn, flags);
    PpnAndFlags(ppn, Stored(flags));
  }

  lemma PpnAndFlags(ppn: nat, f: nat)
    requires f < 1024
    ensures (ppn * 1024 + f) / 1024 == ppn && (ppn * 1024 + f) % 1024 == f
  {
  }

  lemma OrOne(flags: nat)
    ensures Or(1, flags) == Stored(flags)
  {
    OrZeroLeft(flags / 2);
  }

  lemma OrOddOne(f: nat)
    requires f % 2 == 1
    ensures Or(f, 1) == f
  {
    OrZero(f / 2);
  }

  // ---------- virtual addresses

  /** A virtual page number as its three 9-bit table indices, topmost first. */
  datatype Vpn = Vpn(i0: nat, i1: nat, i2: nat)
  {
    predicate Ok() { i0 < ENTRIES && i1 < ENTRIES && i2 < ENTRIES }

    function Number(): nat { (i0 * 512 + i1) * 512 + i2 }
  }

  /** get_pt_index: vaddr >> (39 - (level + 1) * 9), low nine bits. */
  function PtIndex(vaddr: nat, level: nat): nat
    requires level < 3
  {
    (vaddr / (if level == 0 then 0x40000000 else if level == 1 then 0x200000 else 4096)) % 512
  }

  /** The page number of an address in three fields of nine bits. */
  function VpnOf(vaddr: nat): Vpn {
    var p := vaddr / 4096;
    Vpn(p / 512 / 512 % 512, p / 512 % 512, p % 512)
  }

  /** The fields hold the bits 12 to 38 of the address and nothing else. */
  lemma VpnOfBits(vaddr: nat)
    ensures VpnOf(vaddr).Ok() && VpnOf(vaddr).Number() == vaddr / 4096 % 0x8000000
  {
    var p := vaddr / 4096;
    FieldsOfPage(p, p / 512, p / 512 / 512);
  }

  lemma FieldsOfPage(p: nat, q: nat, t: nat)
    requires q == p / 512 && t == q / 512
    ensures (t % 512 * 512 + q % 512) * 512 + p % 512 == p % 0x8000000
  {
    var u, n := t / 512, (t % 512 * 512 + q % 512) * 512 + p % 512;
    assert p == u * 0x8000000 + n && 0 <= n < 0x8000000;
    ModUnique(p, 0x8000000, u, n);
  }

  lemma NumberInjective(v: Vpn, w: Vpn)
    requires v.Ok() && w.Ok() && v.Number() == w.Number()
    ensures v == w
  {
    SplitUnique(v.i0 * 512 + v.i1, v.i2, w.i0 * 512 + w.i1, w.i2);
    SplitUnique(v.i0, v.i1, w.i0, w.i1);
  }

  lemma SplitUnique(a: nat, r: nat, b: nat, s: nat)
    requires r < 512 && s < 512 && a * 512 + r == b * 512 + s
    ensures a == b && r == s
  {
  }

  /** The indices that walk_enclave_pt takes from an address are the fields of its page number. */
  method GetPtIndices(vaddr: nat) returns (v: Vpn)
    ensures v.Ok() && v.Number() == vaddr / 4096 % 0x8000000 && v == VpnOf(vaddr)
  {
    v := Vpn(PtIndex(vaddr, 0), PtIndex(vaddr, 1), PtIndex(vaddr, 2));
    DivDiv(vaddr, 4096, 512);
    DivDiv(vaddr, 0x200000, 512);
    VpnOfBits(vaddr);
  }

  // ---------- the walk

  datatype Translation = Fault | Page(ppn: nat, flags: nat)

  /** What code does with memory. */
  datatype Access = Fetch | Read | Write

  /** Sections 4.3.1 and 4.3.2: whether code in user mode may do it. The leaf must be a user page (bit 4), readable (1),
      writable (2) or executable (3), marked as accessed (6) and, for a write, as dirty (7). */
  predicate UserMay(t: Translation, a: Access) {
    && t.Page? && FlagBit(t.flags, 16) && FlagBit(t.flags, 64)
    && match a
       case Fetch => FlagBit(t.flags, 8)
       case Read => FlagBit(t.flags, 2)
       case Write => FlagBit(t.flags, 4) && FlagBit(t.flags, 128)
  }

  predicate FlagBit(flags: nat, weight: nat)
    requires weight > 0
  { flags / weight % 2 == 1 }

  /** The pool: its first physical page number and its size in pages. */
  datatype Pool = Pool(base: nat, pages: nat)
  {
    predicate Holds(ppn: nat) { base <= ppn < base + pages }
  }

  datatype Decoded = Stop(result: Translation) | Down(ppn: nat)

  /** What the hardware does with entry e at a level. Entries that are writable but not readable are reserved. A leaf
      above the last level maps an aligned superpage, whose page offset `low` has `span` values. */
  function Decode(e: nat, last: bool, span: nat, low: nat): Decoded
    requires span > 0
  {
    if !Valid(e) || (Writable(e) && !Readable(e)) then Stop(Fault)
    else if Readable(e) || Executable(e) then
      Stop(if PtePpn(e) % span != 0 then Fault else Page(PtePpn(e) + low, PteFlags(e)))
    else if last then Stop(Fault)
    else Down(PtePpn(e))
  }

  /** The tables as a function of page and index. */
  type Entries = (nat, nat) -> nat

  function EntriesOf(mem: seq<byte>): Entries {
    (p: nat, i: nat) => if i < ENTRIES && (p + 1) * PGSIZE <= |mem| then Entry(mem, p, i) else 0
  }

  /** The hardware walk from the root table, page 0 of the pool. A table outside the pool is
      outside the modelled memory and faults. */
  function Walk(ent: Entries, pool: Pool, v: Vpn): Translation {
    match Decode(ent(0, v.i0), false, 0x40000, v.i1 * 512 + v.i2)
    case Stop(r) => r
    case Down(ppn) =>
      if !pool.Holds(ppn) then Fault
      else
        match Decode(ent(ppn - pool.base, v.i1), false, 512, v.i2)
        case Stop(r) => r
        case Down(ppn) =>
          if !pool.Holds(ppn) then Fault
          else
            match Decode(ent(ppn - pool.base, v.i2), true, 1, 0)
            case Stop(r) => r
            case Down(_) => Fault
  }

  /** Steps 3 to 6 of section 4.3.2: an entry faults when it is invalid (bit 0) or writable (2) but not readable (1),
      when it is a leaf, which is readable or executable (3), for a superpage that is not aligned, and when it is none
      at the last level. */
  lemma DecodeFaults(e: nat, last: bool, span: nat, low: nat)
    requires span > 0
    ensures Decode(e, last, span, low) == Stop(Fault) <==>
      || e % 2 == 0 || (e / 4 % 2 == 1 && e / 2 % 2 == 0)
      || if e / 2 % 2 == 0 && e / 8 % 2 == 0 then last else e / 1024 % span != 0
  {
  }

  /** A leaf above the last level keeps the lower bits of the page number. */
  lemma Superpage(ent: Entries, pool: Pool, v: Vpn, e: nat)
    requires v.Ok() && e == ent(0, v.i0) && IsLeaf(e) && e / 1024 % 0x40000 == 0
    ensures Walk(ent, pool, v) == Page(e / 1024 + v.Number() % 0x40000, e % 1024)
  {
    LowerFields(v);
  }

  lemma SmallSuperpage(ent: Entries, pool: Pool, v: Vpn, d: nat, e: nat)
    requires v.Ok() && ent(0, v.i0) == d && d % 16 == 1 && pool.Holds(d / 1024)
    requires e == ent(d / 1024 - pool.base, v.i1) && IsLeaf(e) && e / 1024 % 512 == 0
    ensures Walk(ent, pool, v) == Page(e / 1024 + v.Number() % 512, e % 1024)
  {
    LowerFields(v);
  }

  lemma LowerFields(v: Vpn)
    requires v.Ok()
    ensures v.Number() % 512 == v.i2 && v.Number() % 0x40000 == v.i1 * 512 + v.i2
  {
    assert v.Number() == 0x40000 * v.i0 + (v.i1 * 512 + v.i2);
  }

  function Translate(mem: seq<byte>, pool: Pool, v: Vpn): Translation { Walk(EntriesOf(mem), pool, v) }

  // ---------- ownership

  /** What a used page is for. A table's role names its place in the tree, so that no table can
      be reached along two paths. */
  datatype Role = Root | Reserved | Mid(i0: nat) | Last(i0: nat, i1: nat) | Data

  /** e refers to a used page with this role. */
  predicate PointsTo(owner: seq<Role>, pool: Pool, e: nat, role: Role) {
    && pool.base <= PtePpn(e) < pool.base + |owner|
    && owner[PtePpn(e) - pool.base] == role && e == PtePpn(e) * 1024 + 1
  }

  predicate EntryOk(owner: seq<Role>, pool: Pool, role: Role, i: nat, e: nat) {
    e == 0 ||
    match role
    case Root => PointsTo(owner, pool, e, Mid(i))
    case Mid(i0) => PointsTo(owner, pool, e, Last(i0, i))
    case Last(_, _) =>
      IsLeaf(e) && (pool.Holds(PtePpn(e)) ==>
        PtePpn(e) - pool.base < |owner| && owner[PtePpn(e) - pool.base] == Data)
    case _ => true
  }

  /** Pages below |owner| are used, each for one purpose; the free ones above are all zero. Tables
      point to the tables below them and, in the last level, to data pages or out of the pool. */
  ghost predicate TreeOk(ent: Entries, pool: Pool, owner: seq<Role>) {
    && 2 <= |owner| <= pool.pages
    && owner[0] == Root && owner[1] == Reserved
    && (forall p, i | 0 <= p < |owner| && 0 <= i < ENTRIES && !owner[p].Data? ::
          EntryOk(owner, pool, owner[p], i, ent(p, i)))
    && (forall p, i | |owner| <= p < pool.pages && 0 <= i < ENTRIES :: ent(p, i) == 0)
  }
}
