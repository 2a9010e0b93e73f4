/** The enclave's memory pool: its free-page list, and page tables built in place in its pages. */
module EnclaveMems {
  import opened Memory
  import opened Sv39
  import opened PageTree

  /** How many tables the walk of v still lacks. */
  ghost function Missing(ent: Entries, pool: Pool, v: Vpn): nat {
    if ent(0, v.i0) == 0 then 2
    else if Child(pool, ent(0, v.i0)) < 0 || ent(Child(pool, ent(0, v.i0)), v.i1) == 0 then 1
    else 0
  }

  /** p is the table that the walk of v has reached at this level. */
  ghost predicate At(ent: Entries, pool: Pool, owner: seq<Role>, v: Vpn, level: nat, p: nat) {
    && p < |owner|
    && match level
       case 0 => p == 0
       case 1 => ent(0, v.i0) != 0 && Child(pool, ent(0, v.i0)) == p && owner[p] == Mid(v.i0)
       case _ => LastTable(ent, pool, v, p) && owner[p] == Last(v.i0, v.i1)
  }

  function IndexAt(v: Vpn, level: nat): nat { if level == 0 then v.i0 else if level == 1 then v.i1 else v.i2 }

  function RoleAt(v: Vpn, level: nat): Role { if level == 0 then Mid(v.i0) else Last(v.i0, v.i1) }

  /** The entry a walk reads at an upper level is zero, or leads to the next level. */
  lemma LevelEntry(ent: Entries, pool: Pool, owner: seq<Role>, v: Vpn, level: nat, p: nat)
    requires TreeOk(ent, pool, owner) && v.Ok() && level < 2 && At(ent, pool, owner, v, level, p)
    ensures var e := ent(p, IndexAt(v, level));
      if e % 2 == 0 then e == 0 && Missing(ent, pool, v) == 2 - level
      else 0 <= Child(pool, e) && At(ent, pool, owner, v, level + 1, Child(pool, e))
           && (level == 1 ==> Missing(ent, pool, v) == 0)
  {
    assert EntryOk(owner, pool, owner[p], IndexAt(v, level), ent(p, IndexAt(v, level)));
    WalkShape(ent, pool, owner, v);
  }

  /** A table created at a level is reached there, and is still empty. */
  lemma LevelCreated(ent: Entries, ent': Entries, pool: Pool, owner: seq<Role>, v: Vpn, level: nat, p: nat)
    requires TreeOk(ent, pool, owner) && |owner| < pool.pages && v.Ok() && level < 2
    requires At(ent, pool, owner, v, level, p)
    requires ent(p, IndexAt(v, level)) == 0
    requires Stored1(ent, ent', pool, p, IndexAt(v, level), (pool.base + |owner|) * 1024 + 1)
    ensures At(ent', pool, owner + [RoleAt(v, level)], v, level + 1, |owner|)
    ensures Missing(ent', pool, v) == 1 - level && Child(pool, ent'(p, IndexAt(v, level))) == |owner|
  {
    if level == 1 {
      WalkShape(ent, pool, owner, v);
    }
  }

  /** The abstract page table: a finite map from virtual page to physical page and flags. */
  type View = map<Vpn, Translation>

  /** The hardware walk computes the abstract page table. */
  ghost predicate Refines(ent: Entries, pool: Pool, view: View) {
    && (forall w | w in view :: w.Ok() && view[w].Page?)
    && (forall w: Vpn {:trigger Walk(ent, pool, w)} | w.Ok() ::
          Walk(ent, pool, w) == if w in view then view[w] else Fault)
  }

  /** Two virtual pages are mapped to one physical page. */
  ghost predicate Shares(view: View, v: Vpn, w: Vpn)
    requires v in view && w in view && view[v].Page? && view[w].Page?
  { view[v].ppn == view[w].ppn }

  /** No pool page is mapped twice. */
  ghost predicate Exclusive(view: View, pool: Pool) {
    && (forall w | w in view :: view[w].Page?)
    && forall v, w {:trigger Shares(view, v, w)} | v in view && w in view && v != w && pool.Holds(view[v].ppn) ::
         !Shares(view, v, w)
  }

  /** No page of the pool is mapped twice. */
  lemma ExclusiveMeans(view: View, pool: Pool, v: Vpn, w: Vpn)
    requires Exclusive(view, pool) && v in view && w in view && v != w && view[v].Page? && view[w].Page?
    ensures pool.Holds(view[v].ppn) ==> view[v].ppn != view[w].ppn
  {
    assert pool.Holds(view[v].ppn) ==> !Shares(view, v, w);
  }

  lemma ExclusiveUpdate(view: View, pool: Pool, v: Vpn, ppn: nat, flags: nat)
    requires Exclusive(view, pool)
    requires pool.Holds(ppn) ==> forall w | w in view && w != v :: view[w].ppn != ppn
    ensures Exclusive(view[v := Page(ppn, flags)], pool)
  {
    var view1 := view[v := Page(ppn, flags)];
    forall a, b | a in view1 && b in view1 && a != b && pool.Holds(view1[a].ppn) ensures !Shares(view1, a, b) {
      if a != v && b != v {
        assert !Shares(view, a, b);
      }
    }
  }

  lemma ExclusiveRemove(view: View, pool: Pool, v: Vpn)
    requires Exclusive(view, pool)
    ensures Exclusive(view - {v}, pool)
  {
    var view1 := view - {v};
    forall a, b | a in view1 && b in view1 && a != b && pool.Holds(view1[a].ppn) ensures !Shares(view1, a, b) {
      assert !Shares(view, a, b);
    }
  }

  /** ent is what the words of the pool hold. */
  ghost predicate Words(mem: seq<byte>, pool: Pool, ent: Entries) {
    && pool.pages * PGSIZE <= |mem|
    && forall p, i {:trigger Entry(mem, p, i)} | 0 <= p < pool.pages && 0 <= i < ENTRIES ::
         Entry(mem, p, i) == ent(p, i)
  }

  /** The contents of the data pages among the first |owner| pages are the same. */
  ghost predicate SameData(mem: seq<byte>, mem': seq<byte>, pool: Pool, owner: seq<Role>) {
    && pool.pages * PGSIZE <= |mem| == |mem'| && |owner| <= pool.pages
    && forall p, k | 0 <= p < |owner| && owner[p] == Data && 0 <= k < PGSIZE :: ByteAt(mem', p, k) == ByteAt(mem, p, k)
  }

  lemma {:induction false} ZeroBytes(s: seq<byte>, k: nat)
    requires Le(s) == 0 && k < |s|
    ensures s[k] == 0
  {
    if k > 0 {
      ZeroBytes(s[1..], k - 1);
    }
  }

  /** A free page is all zero. */
  lemma FreeIsZero(mem: seq<byte>, pool: Pool, ent: Entries, owner: seq<Role>, p: nat, k: nat)
    requires Words(mem, pool, ent) && TreeOk(ent, pool, owner) && |owner| <= p < pool.pages && k < PGSIZE
    ensures ByteAt(mem, p, k) == 0
  {
    var i := k / 8;
    var at := p * PGSIZE + i * 8;
    assert Entry(mem, p, i) == ent(p, i) == 0;
    ZeroBytes(mem[at..at + 8], k % 8);
  }

  /** The hardware, reading the words, walks as on ent. */
  lemma WordsTranslate(mem: seq<byte>, pool: Pool, ent: Entries, v: Vpn)
    requires Words(mem, pool, ent) && 0 < pool.pages && v.Ok()
    ensures Translate(mem, pool, v) == Walk(ent, pool, v)
  {
    forall p, i | 0 <= p < pool.pages && 0 <= i < ENTRIES ensures EntriesOf(mem)(p, i) == ent(p, i) {
      assert Entry(mem, p, i) == ent(p, i);
    }
    SameWalk(EntriesOf(mem), ent, pool, v);
  }

  lemma SameWalk(a: Entries, b: Entries, pool: Pool, v: Vpn)
    requires 0 < pool.pages && v.Ok() && forall p, i | 0 <= p < pool.pages && 0 <= i < ENTRIES :: a(p, i) == b(p, i)
    ensures Walk(a, pool, v) == Walk(b, pool, v)
  {
    assert a(0, v.i0) == b(0, v.i0);
    var m := Child(pool, b(0, v.i0));
    if 0 <= m < pool.pages {
      assert a(m, v.i1) == b(m, v.i1);
      var q := Child(pool, b(m, v.i1));
      if 0 <= q < pool.pages {
        assert a(q, v.i2) == b(q, v.i2);
      }
    }
  }

  class EnclaveMem {
    /** The pool's bytes: mem[a - vaddr] is the byte at kernel address a. */
    const mem: array<byte>
    const vaddr: nat
    const paddr: nat
    const size: nat
    var enclaveRootPt: nat
    /** The list of free_mem_t nodes, by page address. */
    var freeMem: seq<nat>
    /** What each used page is for; its length is the number of used pages. */
    ghost var owner: seq<Role>
    /** The words of the pool, and the abstract page table that the tables among them implement. */
    ghost var ent: Entries
    ghost var view: View

    ghost const pool: Pool

    ghost predicate Geometry() {
      && 0 < vaddr && vaddr % PGSIZE == 0 && paddr % PGSIZE == 0
      && pool == Pool(paddr / PGSIZE, size / PGSIZE)
      && pool.pages * PGSIZE <= mem.Length && pool.base + pool.pages <= 0x100000000000
    }

    /** The free list is the ascending run of unused pages up to the end of the pool. */
    ghost predicate FreeOk()
      reads this
    {
      && |freeMem| == pool.pages - |owner|
      && forall k | 0 <= k < |freeMem| :: freeMem[k] == vaddr + (|owner| + k) * PGSIZE
    }

    ghost predicate Valid()
      reads this, mem
    {
      && Geometry() && FreeOk() && enclaveRootPt == vaddr
      && Words(mem[..], pool, ent) && TreeOk(ent, pool, owner) && Refines(ent, pool, view)
      && Exclusive(view, pool)
    }

    /** __pa and __va, a constant offset. */
    function Pa(va: int): int { va - vaddr + paddr }
    function Va(pa: int): int { pa - paddr + vaddr }

    /** enclave_mem_int on a zeroed pool: the first page is the root table, the second reserved. */
    constructor (mem: array<byte>, vaddr: nat, size: nat, paddr: nat)
      requires 0 < vaddr && vaddr % PGSIZE == 0 && paddr % PGSIZE == 0
      requires 2 <= size / PGSIZE && (size / PGSIZE) * PGSIZE <= mem.Length
      requires paddr / PGSIZE + size / PGSIZE <= 0x100000000000
      requires forall i | 0 <= i < mem.Length :: mem[i] == 0
      ensures Valid() && this.mem == mem && this.vaddr == vaddr && this.size == size && this.paddr == paddr
      ensures owner == [Root, Reserved] && view == map[]
    {
      this.mem, this.vaddr, this.size, this.paddr := mem, vaddr, size, paddr;
      pool := Pool(paddr / PGSIZE, size / PGSIZE);
      freeMem, owner, ent, view, enclaveRootPt := [], [], (_, _) => 0, map[], 0;
      new;
      InitFreeMem(size / PGSIZE);
      enclaveRootPt := GetFreeMem(Root);
      var _ := GetFreeMem(Reserved);
      ZeroTables();
    }

    /** init_free_mem: queues `count` page addresses from the base of the pool. */
    method InitFreeMem(count: nat)
      requires freeMem == [] && owner == [] && count == pool.pages
      modifies this`freeMem
      ensures FreeOk()
    {
      var cur, i := vaddr, 0;
      while i < count
        invariant 0 <= i <= count && |freeMem| == i && cur == vaddr + i * PGSIZE
        invariant forall k | 0 <= k < i :: freeMem[k] == vaddr + k * PGSIZE
      {
        freeMem := freeMem + [cur];
        cur, i := cur + PGSIZE, i + 1;
      }
    }

    /** get_free_mem: takes the first free page, or returns 0. It is always the page right above
        the used ones. */
    method GetFreeMem(ghost role: Role) returns (va: nat)
      requires FreeOk() && 0 < vaddr
      modifies this`freeMem, this`owner
      ensures FreeOk()
      ensures old(|freeMem|) == 0 ==> va == 0 && owner == old(owner) && freeMem == old(freeMem)
      ensures old(|freeMem|) > 0 ==>
        va == vaddr + old(|owner|) * PGSIZE && owner == old(owner) + [role] && freeMem == old(freeMem)[1..]
    {
      if freeMem == [] {
        return 0;
      }
      va := freeMem[0];
      freeMem := freeMem[1..];
      owner := owner + [role];
    }

    lemma ZeroTables()
      requires 2 <= pool.pages && pool.pages * PGSIZE <= mem.Length && (forall p, i :: ent(p, i) == 0)
      requires owner == [Root, Reserved] && forall i | 0 <= i < mem.Length :: mem[i] == 0
      ensures Words(mem[..], pool, ent) && TreeOk(ent, pool, owner) && Refines(ent, pool, map[])
    {
      forall p, i | 0 <= p < pool.pages && 0 <= i < ENTRIES ensures Entry(mem[..], p, i) == 0 {
        LeZero(mem[..][p * PGSIZE + i * 8..p * PGSIZE + i * 8 + 8]);
      }
      forall w: Vpn | w.Ok() ensures Walk(ent, pool, w) == Fault {
        WalkShape(ent, pool, owner, w);
      }
    }

    /** Page n of the pool has the n-th physical page number, and back. */
    lemma PagePpn(n: nat)
      requires Geometry()
      ensures Pa(vaddr + n * PGSIZE) / PGSIZE == pool.base + n
      ensures Va((pool.base + n) * PGSIZE) == vaddr + n * PGSIZE
    {
    }

    // ---------- entries in memory

    method ReadEntry(addr: nat, ghost p: nat, ghost i: nat) returns (e: nat)
      requires Words(mem[..], pool, ent) && p < pool.pages && i < ENTRIES && addr == vaddr + p * PGSIZE + i * 8
      ensures e == ent(p, i)
    {
      e := Le(mem[addr - vaddr..addr - vaddr + 8]);
      assert mem[addr - vaddr..addr - vaddr + 8] == mem[..][p * PGSIZE + i * 8..p * PGSIZE + i * 8 + 8];
      assert e == Entry(mem[..], p, i);
    }

    /** A pt_entry_t store at a kernel address. */
    method StoreEntry(addr: nat, e: nat, ghost q: nat, ghost i: nat)
      requires Words(mem[..], pool, ent) && q < pool.pages && i < ENTRIES && e < Pow256(8)
      requires addr == vaddr + q * PGSIZE + i * 8
      modifies mem, this`ent
      ensures Words(mem[..], pool, ent) && Stored1(old(ent), ent, pool, q, i, e)
      ensures forall p, k | 0 <= p < pool.pages && p != q && 0 <= k < PGSIZE ::
                ByteAt(mem[..], p, k) == old(ByteAt(mem[..], p, k))
    {
      ghost var before, ent0 := mem[..], ent;
      StoreWord(mem, addr - vaddr, e);
      ent := (p: nat, j: nat) => if p == q && j == i then e else ent0(p, j);
      forall p, j | 0 <= p < pool.pages && 0 <= j < ENTRIES ensures Entry(mem[..], p, j) == ent(p, j) {
        PutEntry(before, q, i, e, p, j);
        assert Entry(before, p, j) == ent0(p, j);
      }
      forall p, k | 0 <= p < pool.pages && p != q && 0 <= k < PGSIZE
        ensures ByteAt(mem[..], p, k) == ByteAt(before, p, k)
      {
        PutWordByte(before, q, i, e, p, k);
      }
    }

    /** create_ptd_page: gives the empty entry at `addr` a fresh table, or fails with no page. No
        translation changes, since the table is empty. */
    method CreatePtdPage(addr: nat, ghost p: nat, ghost i: nat, ghost role: Role) returns (ok: bool)
      requires Valid() && p < |owner| && i < ENTRIES && addr == vaddr + p * PGSIZE + i * 8 && ent(p, i) == 0
      requires (owner[p] == Root && role == Mid(i)) || (owner[p].Mid? && role == Last(owner[p].i0, i))
      modifies this`freeMem, this`owner, this`ent, mem
      ensures Valid() && ok == (old(|freeMem|) > 0)
      ensures !ok ==> owner == old(owner) && ent == old(ent)
      ensures ok ==> owner == old(owner) + [role]
      ensures ok ==> Stored1(old(ent), ent, pool, p, i, (pool.base + old(|owner|)) * 1024 + 1)
      ensures SameData(old(mem[..]), mem[..], pool, old(owner))
    {
      ghost var n, ent0 := |owner|, ent;
      var page := GetFreeMem(role);
      if page == 0 {
        return false;
      }
      PagePpn(n);
      var ppn := Pa(page) / PGSIZE;
      PtdDecodes(ppn);
      StoreEntry(addr, PtdCreate(ppn), p, i);
      AddTableTree(ent0, ent, pool, old(owner), p, i, role);
      forall w: Vpn | w.Ok() ensures Walk(ent, pool, w) == Walk(ent0, pool, w) {
        AddTableWalk(ent0, ent, pool, old(owner), p, i, role, w);
      }
      ok := true;
    }

    // ---------- walking

    /** One level of walk_enclave_pt: follows the entry for v, creating its table if there is none.
        Returns the table's address, or 0 when the pool is exhausted. */
    method WalkLevel(index: nat, level: nat, pgdir: nat, ghost v: Vpn, ghost p: nat) returns (next: nat, ghost p': nat)
      requires Valid() && level < 2 && v.Ok() && index == IndexAt(v, level)
      requires At(ent, pool, owner, v, level, p) && pgdir == vaddr + p * PGSIZE
      modifies this`freeMem, this`owner, this`ent, mem
      ensures Valid() && old(owner) <= owner
      ensures next != 0 ==> At(ent, pool, owner, v, level + 1, p') && next == vaddr + p' * PGSIZE
      ensures next == 0 ==> freeMem == [] && Missing(ent, pool, v) > 0
      ensures |owner| - old(|owner|) == old(Missing(ent, pool, v)) - Missing(ent, pool, v)
      ensures SameData(old(mem[..]), mem[..], pool, old(owner))
    {
      var addr := pgdir + index * 8;
      LevelEntry(ent, pool, owner, v, level, p);
      var entry := ReadEntry(addr, p, index);
      p' := 0;
      if entry % 2 == 0 {
        ghost var ent0 := ent;
        var ok := CreatePtdPage(addr, p, index, RoleAt(v, level));
        if !ok {
          return 0, p';
        }
        LevelCreated(ent0, ent, pool, old(owner), v, level, p);
        entry := ReadEntry(addr, p, index);
      }
      p' := Child(pool, entry);
      PagePpn(p');
      next := Va(PtePpn(entry) * PGSIZE);
    }

    /** walk_enclave_pt with `create`: the address of v's last-level entry, or 0 when the pool runs
        out of pages on the way. Creating tables changes no translation. */
    method WalkEnclavePt(v: Vpn) returns (pte: nat, ghost q: nat)
      requires Valid() && v.Ok()
      modifies this`freeMem, this`owner, this`ent, mem
      ensures Valid() && old(owner) <= owner
      ensures (pte == 0) == (old(|freeMem|) < old(Missing(ent, pool, v)))
      ensures pte != 0 ==> |owner| == old(|owner|) + old(Missing(ent, pool, v))
      ensures pte != 0 ==> At(ent, pool, owner, v, 2, q) && pte == vaddr + q * PGSIZE + v.i2 * 8
      ensures |owner| <= old(|owner|) + 2 && SameData(old(mem[..]), mem[..], pool, old(owner))
    {
      var pgdir, i := enclaveRootPt, 0;
      q := 0;
      while i < 2
        invariant 0 <= i <= 2 && Valid() && old(owner) <= owner
        invariant At(ent, pool, owner, v, i, q) && pgdir == vaddr + q * PGSIZE
        invariant |owner| - old(|owner|) == old(Missing(ent, pool, v)) - Missing(ent, pool, v)
        invariant SameData(old(mem[..]), mem[..], pool, old(owner))
      {
        pgdir, q := WalkLevel(IndexAt(v, i), i, pgdir, v, q);
        if pgdir == 0 {
          return 0, q;
        }
        i := i + 1;
      }
      pte := pgdir + v.i2 * 8;
    }

    /** Stores the entry e in v's last-level table q. */
    method SetEntry(pte: nat, e: nat, ghost v: Vpn, ghost q: nat)
      requires Valid() && v.Ok() && At(ent, pool, owner, v, 2, q) && pte == vaddr + q * PGSIZE + v.i2 * 8
      requires e < Pow256(8) && EntryOk(owner, pool, owner[q], v.i2, e)
      requires e != 0 && pool.Holds(PtePpn(e)) ==> forall w | w in view && w != v :: view[w].ppn != PtePpn(e)
      modifies mem, this`ent, this`view
      ensures Valid()
      ensures view == if e == 0 then old(view) - {v} else old(view)[v := Page(PtePpn(e), PteFlags(e))]
      ensures SameData(old(mem[..]), mem[..], pool, owner)
    {
      ghost var ent0 := ent;
      StoreEntry(pte, e, q, v.i2);
      SetLeafTree(ent0, ent, pool, owner, v, q, e);
      forall w: Vpn | w.Ok()
        ensures Walk(ent, pool, w) ==
          if w != v then Walk(ent0, pool, w) else if e == 0 then Fault else Page(PtePpn(e), PteFlags(e))
      {
        SetLeafWalk(ent0, ent, pool, owner, v, q, e, w);
      }
      if e == 0 {
        ExclusiveRemove(view, pool, v);
      } else {
        ExclusiveUpdate(view, pool, v, PtePpn(e), PteFlags(e));
      }
      view := if e == 0 then view - {v} else view[v := Page(PtePpn(e), PteFlags(e))];
    }

    /** The leaf entry for a page: ptd_create(ppn) | flags | PTE_V. */
    method MakeLeaf(ppn: nat, flags: nat) returns (e: nat)
      requires flags < 1024 && Readable(flags) && ppn < 0x100000000000
      ensures 0 < e < Pow256(8) && IsLeaf(e) && PtePpn(e) == ppn && PteFlags(e) == Stored(flags)
    {
      e := LeafCreate(ppn, flags);
      LeafValue(ppn, flags);
      LeafDecodes(ppn, flags);
      LowBits(ppn, Stored(flags));
    }

    /** The common part of map_va2pa and enclave_alloc_page: maps virtual page v to physical page ppn,
        a data page or one outside the pool. Not ok means that the walk came back NULL. */
    method MapPage(v: Vpn, ppn: nat, flags: nat) returns (ok: bool)
      requires Valid() && v.Ok() && flags < 1024 && Readable(flags) && ppn < 0x100000000000
      requires pool.Holds(ppn) ==> ppn - pool.base < |owner| && owner[ppn - pool.base] == Data
      requires pool.Holds(ppn) ==> forall w | w in view && w != v :: view[w].ppn != ppn
      modifies this`freeMem, this`owner, this`ent, this`view, mem
      ensures Valid() && old(owner) <= owner && |owner| <= old(|owner|) + 2
      ensures ok == (old(|freeMem|) >= old(Missing(ent, pool, v)))
      ensures ok ==> |owner| == old(|owner|) + old(Missing(ent, pool, v))
      ensures view == if ok then old(view)[v := Page(ppn, Stored(flags))] else old(view)
      ensures SameData(old(mem[..]), mem[..], pool, old(owner))
    {
      var pte;
      ghost var q;
      pte, q := WalkEnclavePt(v);
      if pte == 0 {
        return false;
      }
      var e := MakeLeaf(ppn, flags);
      SetEntry(pte, e, v, q);
      ok := true;
    }

    /** map_va2pa on a page outside the pool: the page table is updated at v and nowhere
        else, at the price of exactly the tables that were missing. Not ok is where the driver
        would store through a NULL entry pointer, for want of pages. */
    method MapVa2Pa(v: Vpn, pa: nat, flags: nat) returns (ok: bool)
      requires Valid() && v.Ok() && flags < 1024 && Readable(flags)
      requires !pool.Holds(pa / PGSIZE) && pa / PGSIZE < 0x100000000000
      modifies this`freeMem, this`owner, this`ent, this`view, mem
      ensures Valid() && old(owner) <= owner && |owner| <= old(|owner|) + 2
      ensures ok == (old(|freeMem|) >= old(Missing(ent, pool, v)))
      ensures ok ==> |owner| == old(|owner|) + old(Missing(ent, pool, v))
      ensures view == if ok then old(view)[v := Page(pa / PGSIZE, Stored(flags))] else old(view)
      ensures SameData(old(mem[..]), mem[..], pool, old(owner))
    {
      ok := MapPage(v, pa / PGSIZE, flags);
    }

    /** get_free_mem for a data page. */
    method TakeDataPage() returns (page: nat)
      requires Valid()
      modifies this`freeMem, this`owner
      ensures Valid() && (page == 0) == (old(|freeMem|) == 0)
      ensures owner == if page == 0 then old(owner) else old(owner) + [Data]
      ensures page != 0 ==> page == vaddr + old(|owner|) * PGSIZE
    {
      if freeMem != [] {
        TakeDataTree(ent, pool, owner);
      }
      page := GetFreeMem(Data);
    }

    /** The page that is taken next is not mapped. */
    lemma NextIsUnmapped()
      requires Valid()
      ensures forall w | w in view :: view[w].ppn != pool.base + |owner| || !pool.Holds(view[w].ppn)
    {
      forall w | w in view && pool.Holds(view[w].ppn) ensures view[w].ppn != pool.base + |owner| {
        assert Walk(ent, pool, w) == view[w];
        MappedPagesAreData(ent, pool, owner, w);
      }
    }

    /** enclave_alloc_page: takes the next free page for data, and maps it at v. Not ok is where the
        driver would map page 0 or store through a NULL entry pointer, for want of pages. */
    method EnclaveAllocPage(v: Vpn, flags: nat) returns (page: nat, ok: bool)
      requires Valid() && v.Ok() && flags < 1024 && Readable(flags)
      modifies this`freeMem, this`owner, this`ent, this`view, mem
      ensures Valid() && old(owner) <= owner && |owner| <= old(|owner|) + 3
      ensures ok == (old(|freeMem|) >= 1 + old(Missing(ent, pool, v)))
      ensures ok ==> page == vaddr + old(|owner|) * PGSIZE && old(owner) + [Data] <= owner
      ensures ok ==> |owner| == old(|owner|) + 1 + old(Missing(ent, pool, v))
      ensures view == if ok then old(view)[v := Page(pool.base + old(|owner|), Stored(flags))] else old(view)
      ensures SameData(old(mem[..]), mem[..], pool, old(owner))
      ensures ok ==> forall k | 0 <= k < PGSIZE :: ByteAt(mem[..], old(|owner|), k) == 0
    {
      ghost var before, d := mem[..], |owner|;
      forall k | 0 <= k < PGSIZE && freeMem != [] ensures ByteAt(before, d, k) == 0 {
        FreeIsZero(before, pool, ent, owner, d, k);
      }
      PagePpn(|owner|);
      NextIsUnmapped();
      page := TakeDataPage();
      if page == 0 {
        return page, false;
      }
      ok := MapPage(v, Pa(page) / PGSIZE, flags);
    }

    /** clear_enclave_pt: removes v from the page table; 0 when its tables do not exist. */
    method ClearEnclavePt(v: Vpn) returns (pte: nat)
      requires Valid() && v.Ok()
      modifies mem, this`ent, this`view
      ensures Valid()
      ensures (pte == 0) == (old(Missing(ent, pool, v)) > 0)
      ensures view == old(view) - {v}
      ensures SameData(old(mem[..]), mem[..], pool, owner)
    {
      var pgdir, i := enclaveRootPt, 0;
      ghost var q: nat := 0;
      while i < 2
        invariant 0 <= i <= 2 && At(ent, pool, owner, v, i, q) && pgdir == vaddr + q * PGSIZE
        invariant i == 2 ==> Missing(ent, pool, v) == 0
        invariant mem[..] == old(mem[..]) && view == old(view) && ent == old(ent)
      {
        pgdir, q := Follow(IndexAt(v, i), i, pgdir, v, q);
        if pgdir == 0 {
          return 0;
        }
        i := i + 1;
      }
      pte := pgdir + v.i2 * 8;
      SetEntry(pte, 0, v, q);
    }

    /** One level of clear_enclave_pt: 0 when the entry is not valid, and then v is not mapped. */
    method Follow(index: nat, level: nat, pgdir: nat, ghost v: Vpn, ghost p: nat) returns (next: nat, ghost p': nat)
      requires Valid() && level < 2 && v.Ok() && index == IndexAt(v, level)
      requires At(ent, pool, owner, v, level, p) && pgdir == vaddr + p * PGSIZE
      ensures next != 0 ==> At(ent, pool, owner, v, level + 1, p') && next == vaddr + p' * PGSIZE
      ensures next != 0 && level == 1 ==> Missing(ent, pool, v) == 0
      ensures next == 0 ==> Missing(ent, pool, v) > 0 && v !in view
    {
      LevelEntry(ent, pool, owner, v, level, p);
      WalkShape(ent, pool, owner, v);
      var entry := ReadEntry(pgdir + index * 8, p, index);
      if entry % 2 == 0 {
        assert Walk(ent, pool, v) == Fault;
        return 0, 0;
      }
      p' := Child(pool, entry);
      PagePpn(p');
      next := Va(PtePpn(entry) * PGSIZE);
    }

    /** The address handed to the monitor separates the pool: pages below it are used and those
        from it on are not, so no mapped page, table or reserved page lies at or above it. */
    method HandOffFreeMem() returns (addr: nat)
      requires Valid() && freeMem != []
      modifies this`freeMem, this`owner
      ensures forall p | 0 <= p < pool.pages :: p < old(|owner|) <==> vaddr + p * PGSIZE < addr
      ensures forall w | w in view && pool.Holds(view[w].ppn) :: view[w].ppn * PGSIZE < Pa(addr)
    {
      addr := GetFreeMem(Reserved);
      PagePpn(old(|owner|));
      forall w | w in view && pool.Holds(view[w].ppn) ensures view[w].ppn * PGSIZE < Pa(addr) {
        assert Walk(ent, pool, w) == view[w];
        MappedPagesAreData(ent, pool, old(owner), w);
      }
    }
  }

  lemma LowBits(ppn: nat, f: nat)
    ensures (ppn * 1024 + f) % 2 == f % 2 && ((ppn * 1024 + f) / 2) % 2 == (f / 2) % 2
  {
    assert (ppn * 1024 + f) / 2 == ppn * 512 + f / 2;
  }

  lemma {:induction false} LeZero(s: seq<byte>)
    requires forall i | 0 <= i < |s| :: s[i] == 0
    ensures Le(s) == 0
  {
    if s != [] {
      LeZero(s[1..]);
    }
  }
}
