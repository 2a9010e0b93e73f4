/** The segment loader: what an enclave reads through the page tables built for it. */
module Loader {
  import opened Options
  import opened Splice
  import opened Memory
  import opened Sv39
  import opened PageTree
  import opened EnclaveMems

  const ENCLAVE_USER_PAGE := 0xDE       // D | A | R | X | W | U
  const ENCLAVE_STACK_PAGE := 0xD6      // D | A | R | W | U
  const ENCLAVE_UNTRUSTED_PAGE := 0xD6  // also ENCLAVE_KBUFFER_PAGE

  /** How many pages `size` bytes take. */
  function Pages(size: nat): (n: nat)
    ensures size <= n * PGSIZE && (n == 0 || (n - 1) * PGSIZE < size)
  { (size + PGSIZE - 1) / PGSIZE }

  /** The byte that enclave code reads at virtual address a, if a is mapped to a pool page that it may read. */
  function ReadAt(mem: seq<byte>, pool: Pool, a: nat): Option<byte>
    requires pool.pages * PGSIZE <= |mem|
  {
    ReadPage(mem, pool, Translate(mem, pool, VpnOf(a)), a % PGSIZE)
  }

  function ReadPage(mem: seq<byte>, pool: Pool, t: Translation, k: nat): Option<byte>
    requires pool.pages * PGSIZE <= |mem| && k < PGSIZE
  {
    if UserMay(t, Read) && pool.Holds(t.ppn) then Some(ByteAt(mem, t.ppn - pool.base, k)) else None
  }

  /** The virtual pages numbered first, first + 1, ... are mapped to the pool pages `frames`, all
      of them data pages and no two the same, with these flags; other pages are mapped as in view0. */
  ghost predicate MappedTo(view0: View, view: View, pool: Pool, owner: seq<Role>, first: nat, frames: seq<nat>,
                           flags: nat) {
    && (forall j | 0 <= j < |frames| :: frames[j] < |owner| && owner[frames[j]] == Data)
    && Ascending(frames)
    && (forall w: Vpn {:trigger w.Number()} | w.Ok() && first <= w.Number() < first + |frames| ::
          w in view && view[w] == Page(pool.base + frames[w.Number() - first], Stored(flags)))
    && Others(view0, view, first, |frames|)
  }

  ghost predicate Ascending(frames: seq<nat>) { forall i, j | 0 <= i < j < |frames| :: frames[i] < frames[j] }

  ghost predicate Others(view0: View, view: View, first: nat, n: nat) {
    forall w: Vpn {:trigger w.Number()} | w.Ok() && !(first <= w.Number() < first + n) ::
      if w in view0 then w in view && view[w] == view0[w] else w !in view
  }

  /** The bytes of s, and then zeros. */
  ghost function Extended(s: seq<byte>, i: nat): byte { if i < |s| then s[i] else 0 }

  /** The frames hold the content, page by page, and zeros after it. */
  ghost predicate Hold(mem: seq<byte>, pool: Pool, frames: seq<nat>, content: seq<byte>) {
    && pool.pages * PGSIZE <= |mem| && (forall j | 0 <= j < |frames| :: frames[j] < pool.pages)
    && forall j, k | 0 <= j < |frames| && 0 <= k < PGSIZE ::
         ByteAt(mem, frames[j], k) == Extended(content, j * PGSIZE + k)
  }

  /** Page d holds the content from `off` on. */
  ghost predicate PageHolds(mem: seq<byte>, d: nat, content: seq<byte>, off: nat) {
    (d + 1) * PGSIZE <= |mem| && forall k | 0 <= k < PGSIZE :: ByteAt(mem, d, k) == Extended(content, off + k)
  }

  /** Mapping one more page extends the mapped range by it. */
  lemma ExtendRange(view0: View, view: View, pool: Pool, owner: seq<Role>, owner': seq<Role>,
                    first: nat, frames: seq<nat>, v: Vpn, d: nat, flags: nat)
    requires v.Ok() && v.Number() == first + |frames| && owner <= owner' && d < |owner'| && owner'[d] == Data
    requires |owner| <= d && MappedTo(view0, view, pool, owner, first, frames, flags)
    ensures MappedTo(view0, view[v := Page(pool.base + d, Stored(flags))], pool, owner', first, frames + [d], flags)
  {
    forall w: Vpn | w.Ok() && w.Number() == v.Number() ensures w == v { NumberInjective(w, v); }
  }

  /** A freshly filled page extends what the frames hold. */
  lemma HoldExtend(mem: seq<byte>, mem': seq<byte>, pool: Pool, owner: seq<Role>, frames: seq<nat>, d: nat,
                   content: seq<byte>)
    requires Hold(mem, pool, frames, content) && SameData(mem, mem', pool, owner) && d < pool.pages
    requires forall j | 0 <= j < |frames| :: frames[j] < |owner| && owner[frames[j]] == Data
    requires PageHolds(mem', d, content, |frames| * PGSIZE)
    ensures Hold(mem', pool, frames + [d], content)
  {
    forall j, k | 0 <= j < |frames| + 1 && 0 <= k < PGSIZE
      ensures ByteAt(mem', (frames + [d])[j], k) == Extended(content, j * PGSIZE + k)
    {
      if j < |frames| {
        assert ByteAt(mem, frames[j], k) == Extended(content, j * PGSIZE + k);
      }
    }
  }

  lemma PageCount(size: nat) returns (n: nat)
    ensures n == Pages(size) && size <= n * PGSIZE && (n == 0 || (n - 1) * PGSIZE < size)
  {
    n := Pages(size);
  }

  lemma PageArith(start: nat, n: nat, addr: nat)
    requires start % PGSIZE == 0 && addr == start + n * PGSIZE < 0x8000000000
    ensures (addr - start) % PGSIZE == 0 && addr / 4096 % 0x8000000 == start / PGSIZE + n
  {
    assert addr / PGSIZE == start / PGSIZE + n;
  }

  /** The n-th page from an aligned start has the n-th page number from there. */
  method PageAt(ghost start: nat, ghost n: nat, addr: nat) returns (v: Vpn)
    requires start % PGSIZE == 0 && addr == start + n * PGSIZE < 0x8000000000
    ensures v.Ok() && v.Number() == start / PGSIZE + n && (addr - start) % PGSIZE == 0
  {
    v := GetPtIndices(addr);
    PageArith(start, n, addr);
  }

  /** Fills the first |s| bytes of a data page. */
  method FillPage(em: EnclaveMem, page: nat, s: seq<byte>, ghost d: nat)
    requires em.Valid() && d < |em.owner| && em.owner[d] == Data && page == em.vaddr + d * PGSIZE && |s| <= PGSIZE
    modifies em.mem, em`ent
    ensures em.Valid()
    ensures forall p, k | 0 <= p < em.pool.pages && 0 <= k < PGSIZE ::
              ByteAt(em.mem[..], p, k) == if p == d && k < |s| then s[k] else old(ByteAt(em.mem[..], p, k))
  {
    ghost var before := em.mem[..];
    CopyInto(s, em.mem, page - em.vaddr);
    ghost var now := em.mem[..];
    ghost var ent0 := em.ent;
    em.ent := (p: nat, j: nat) => if p == d then EntriesOf(now)(p, j) else ent0(p, j);
    forall p, j | 0 <= p < em.pool.pages && 0 <= j < ENTRIES ensures Entry(em.mem[..], p, j) == em.ent(p, j) {
      if p != d {
        PutBytesEntry(before, d, s, p, j);
        assert Entry(before, p, j) == ent0(p, j);
      } else {
        assert em.ent(p, j) == EntriesOf(now)(p, j) && (p + 1) * PGSIZE <= |now|;
      }
    }
    FillDataTree(ent0, em.ent, em.pool, em.owner, d);
    forall p, k | 0 <= p < em.pool.pages && 0 <= k < PGSIZE
      ensures ByteAt(em.mem[..], p, k) == if p == d && k < |s| then s[k] else ByteAt(before, p, k)
    {
      PutBytesByte(before, d, s, p, k);
    }
  }

  /** What is written to the pages, which are all zero before. */
  ghost function Filled(content: seq<byte>, fill: bool): seq<byte> { if fill then content else [] }

  /** One turn of the loading loops: a fresh page at addr, filled from `content` when `fill` is set. */
  method LoadPage(em: EnclaveMem, v: Vpn, start: nat, size: nat, addr: nat, flags: nat, content: seq<byte>, fill: bool)
    returns (ok: bool)
    requires em.Valid() && v.Ok() && flags < 1024 && Readable(flags) && |content| == size
    requires start % PGSIZE == 0 && start <= addr < start + size && (addr - start) % PGSIZE == 0
    modifies em`freeMem, em`owner, em`ent, em`view, em.mem
    ensures em.Valid() && old(em.owner) <= em.owner && |em.owner| <= old(|em.owner|) + 3
    ensures if ok then old(em.owner) + [Data] <= em.owner else old(|em.freeMem|) < 3
    ensures em.view == if ok then old(em.view)[v := Page(em.pool.base + old(|em.owner|), Stored(flags))]
                       else old(em.view)
    ensures SameData(old(em.mem[..]), em.mem[..], em.pool, old(em.owner))
    ensures ok ==> PageHolds(em.mem[..], old(|em.owner|), Filled(content, fill), addr - start)
  {
    ghost var d := |em.owner|;
    var page;
    page, ok := em.EnclaveAllocPage(v, flags);
    if ok && fill {
      var n := if addr + PGSIZE > start + size then size % PGSIZE else PGSIZE;
      LastBytes(size, addr - start);
      FillPage(em, page, content[addr - start..addr - start + n], d);
    }
  }

  /** The rest of the last page. */
  lemma LastBytes(size: nat, at: nat)
    requires at < size && at % PGSIZE == 0
    ensures at + PGSIZE > size ==> size % PGSIZE == size - at
  {
  }

  /** What the loops have done after |frames| turns, relative to the start. */
  ghost predicate Partial(mem0: seq<byte>, mem: seq<byte>, pool: Pool, view0: View, view: View,
                          owner0: seq<Role>, owner: seq<Role>, first: nat, frames: seq<nat>, flags: nat,
                          content: seq<byte>, fill: bool) {
    && owner0 <= owner && (forall j | 0 <= j < |frames| :: |owner0| <= frames[j])
    && MappedTo(view0, view, pool, owner, first, frames, flags)
    && SameData(mem0, mem, pool, owner0)
    && Hold(mem, pool, frames, Filled(content, fill))
  }

  lemma PartialStep(mem0: seq<byte>, mem: seq<byte>, mem': seq<byte>, pool: Pool, view0: View, view: View,
                    owner0: seq<Role>, owner: seq<Role>, owner': seq<Role>, first: nat, frames: seq<nat>, flags: nat,
                    content: seq<byte>, fill: bool, v: Vpn, off: nat)
    requires Partial(mem0, mem, pool, view0, view, owner0, owner, first, frames, flags, content, fill)
    requires owner + [Data] <= owner' && |owner| < pool.pages && v.Ok() && v.Number() == first + |frames|
    requires SameData(mem, mem', pool, owner) && off == |frames| * PGSIZE
    requires PageHolds(mem', |owner|, Filled(content, fill), off)
    ensures Partial(mem0, mem', pool, view0, view[v := Page(pool.base + |owner|, Stored(flags))], owner0, owner',
                    first, frames + [|owner|], flags, content, fill)
  {
    assert owner'[|owner|] == Data;
    ExtendRange(view0, view, pool, owner, owner', first, frames, v, |owner|, flags);
    HoldExtend(mem, mem', pool, owner, frames, |owner|, Filled(content, fill));
  }

  /** A turn that fails for want of pages leaves what was done before. */
  lemma PartialTurn(mem0: seq<byte>, mem: seq<byte>, mem': seq<byte>, pool: Pool, view0: View, view: View, view': View,
                    owner0: seq<Role>, owner: seq<Role>, owner': seq<Role>, first: nat, frames: seq<nat>, flags: nat,
                    content: seq<byte>, fill: bool, v: Vpn, off: nat, ok: bool)
    requires Partial(mem0, mem, pool, view0, view, owner0, owner, first, frames, flags, content, fill)
    requires owner <= owner' && SameData(mem, mem', pool, owner)
    requires ok ==> owner + [Data] <= owner' && |owner| < pool.pages && v.Ok() && v.Number() == first + |frames|
    requires ok ==> off == |frames| * PGSIZE && PageHolds(mem', |owner|, Filled(content, fill), off)
    requires view' == if ok then view[v := Page(pool.base + |owner|, Stored(flags))] else view
    ensures Partial(mem0, mem', pool, view0, view', owner0, owner', first,
                    if ok then frames + [|owner|] else frames, flags, content, fill)
  {
    if ok {
      PartialStep(mem0, mem, mem', pool, view0, view, owner0, owner, owner', first, frames, flags, content, fill, v,
        off);
    }
  }

  method LoadTurn(em: EnclaveMem, v: Vpn, start: nat, size: nat, addr: nat, flags: nat, content: seq<byte>, fill: bool,
                  ghost first: nat, ghost mem0: seq<byte>, ghost view0: View, ghost owner0: seq<Role>,
                  ghost frames: seq<nat>)
    returns (ok: bool, ghost frames': seq<nat>)
    requires em.Valid() && flags < 1024 && Readable(flags) && |content| == size
    requires start % PGSIZE == 0 && addr == start + |frames| * PGSIZE < start + size
    requires v.Ok() && v.Number() == first + |frames| && (addr - start) % PGSIZE == 0
    requires Partial(mem0, em.mem[..], em.pool, view0, em.view, owner0, em.owner,
                     first, frames, flags, content, fill)
    modifies em`freeMem, em`owner, em`ent, em`view, em.mem
    ensures em.Valid() && |em.owner| <= old(|em.owner|) + 3
    ensures Partial(mem0, em.mem[..], em.pool, view0, em.view, owner0, em.owner,
                    first, frames', flags, content, fill)
    ensures if ok then |frames'| == |frames| + 1 else frames' == frames && old(|em.freeMem|) < 3
  {
    ghost var mem, view, owner := em.mem[..], em.view, em.owner;
    ok := LoadPage(em, v, start, size, addr, flags, content, fill);
    PartialTurn(mem0, mem, em.mem[..], em.pool, view0, view, em.view, owner0, owner, em.owner,
                first, frames, flags, content, fill, v, addr - start, ok);
    frames' := if ok then frames + [|owner|] else frames;
  }

  /** The loops of penglai_enclave_load_program, penglai_enclave_load_NOBITS_section and of the
      stack. The result is false where the driver would go on with a failed walk, because the pool
      is exhausted. */
  method LoadRange(em: EnclaveMem, start: nat, size: nat, flags: nat, content: seq<byte>, fill: bool)
    returns (ok: bool, ghost frames: seq<nat>)
    requires em.Valid() && start % PGSIZE == 0 && start + size <= 0x8000000000
    requires flags < 1024 && Readable(flags) && |content| == size
    modifies em`freeMem, em`owner, em`ent, em`view, em.mem
    ensures em.Valid()
    ensures Partial(old(em.mem[..]), em.mem[..], em.pool, old(em.view), em.view, old(em.owner), em.owner,
                    start / PGSIZE, frames, flags, content, fill)
    ensures ok ==> |frames| == Pages(size)
    ensures old(|em.freeMem|) >= 3 * Pages(size) ==> ok
  {
    var addr := start;
    frames, ok := [], true;
    ghost var total := PageCount(size);
    while addr < start + size
      invariant em.Valid() && addr == start + |frames| * PGSIZE
      invariant |frames| <= total && |em.owner| <= old(|em.owner|) + 3 * |frames|
      invariant Partial(old(em.mem[..]), em.mem[..], em.pool, old(em.view), em.view, old(em.owner), em.owner,
                        start / PGSIZE, frames, flags, content, fill)
      decreases start + size - addr
    {
      var v := PageAt(start, |frames|, addr);
      ok, frames := LoadTurn(em, v, start, size, addr, flags, content, fill, start / PGSIZE,
                             old(em.mem[..]), old(em.view), old(em.owner), frames);
      if !ok {
        return;
      }
      addr := addr + PGSIZE;
    }
  }

  // ---------- what the enclave reads

  lemma ReadArith(start: nat, k: nat, n: nat)
    requires start % PGSIZE == 0 && start + k < 0x8000000000 && k < n * PGSIZE
    ensures (start + k) / 4096 % 0x8000000 == start / PGSIZE + k / PGSIZE && (start + k) % PGSIZE == k % PGSIZE
    ensures k / PGSIZE < n && k / PGSIZE * PGSIZE + k % PGSIZE == k
  {
    assert start == start / PGSIZE * PGSIZE;
  }

  lemma ReadFrame(mem: seq<byte>, pool: Pool, frames: seq<nat>, flags: nat, content: seq<byte>, j: nat, k: nat)
    requires Hold(mem, pool, frames, content) && j < |frames| && k < PGSIZE
    requires UserMay(Page(pool.base + frames[j], flags), Read)
    ensures ReadPage(mem, pool, Page(pool.base + frames[j], flags), k) == Some(Extended(content, j * PGSIZE + k))
  {
    assert ByteAt(mem, frames[j], k) == Extended(content, j * PGSIZE + k);
  }

  lemma ReadMapped(mem: seq<byte>, pool: Pool, t: Translation, view0: View, view: View, owner: seq<Role>,
                   first: nat, frames: seq<nat>, flags: nat, content: seq<byte>, v: Vpn, j: nat, k: nat)
    requires MappedTo(view0, view, pool, owner, first, frames, flags) && Hold(mem, pool, frames, content)
    requires v.Ok() && v.Number() == first + j && t == (if v in view then view[v] else Fault)
    requires j < |frames| && k < PGSIZE && Read in Allowed(flags)
    ensures ReadPage(mem, pool, t, k) == Some(Extended(content, j * PGSIZE + k))
  {
    ReadFrame(mem, pool, frames, Stored(flags), content, j, k);
  }

  lemma TranslateAddress(mem: seq<byte>, pool: Pool, ent: Entries, view: View, a: nat)
    requires Words(mem, pool, ent) && Refines(ent, pool, view) && 0 < pool.pages
    ensures VpnOf(a).Ok() && VpnOf(a).Number() == a / 4096 % 0x8000000
    ensures Translate(mem, pool, VpnOf(a)) == if VpnOf(a) in view then view[VpnOf(a)] else Fault
  {
    VpnOfBits(a);
    WordsTranslate(mem, pool, ent, VpnOf(a));
  }

  // ---------- what the enclave may do

  /** What the flags of a leaf allow code in user mode. */
  ghost function Allowed(flags: nat): set<Access> { set a: Access | UserMay(Page(0, Stored(flags)), a) }

  /** Code in user mode may do exactly this with the n pages from `first`. */
  ghost predicate Accessible(mem: seq<byte>, pool: Pool, first: nat, n: nat, may: set<Access>)
    requires pool.pages * PGSIZE <= |mem|
  {
    forall w: Vpn, a: Access {:trigger UserMay(Translate(mem, pool, w), a)} |
      w.Ok() && first <= w.Number() < first + n :: UserMay(Translate(mem, pool, w), a) <==> a in may
  }

  lemma FlagsAllow()
    ensures Allowed(ENCLAVE_USER_PAGE) == {Fetch, Read, Write}
    ensures Allowed(ENCLAVE_STACK_PAGE) == {Read, Write} && Allowed(ENCLAVE_UNTRUSTED_PAGE) == {Read, Write}
  {
    var user, stack := Page(0, Stored(ENCLAVE_USER_PAGE)), Page(0, Stored(ENCLAVE_STACK_PAGE));
    assert UserMay(user, Fetch) && UserMay(user, Read) && UserMay(user, Write);
    assert !UserMay(stack, Fetch) && UserMay(stack, Read) && UserMay(stack, Write);
    forall a: Access ensures a in Allowed(ENCLAVE_USER_PAGE) && (a in Allowed(ENCLAVE_STACK_PAGE) <==> a != Fetch) {
      match a case Fetch => case Read => case Write =>
    }
  }

  lemma PagesAccessible(mem: seq<byte>, pool: Pool, ent: Entries, view: View, first: nat, n: nat, flags: nat)
    requires Words(mem, pool, ent) && Refines(ent, pool, view) && 0 < pool.pages
    requires forall w: Vpn {:trigger w.Number()} | w.Ok() && first <= w.Number() < first + n ::
               w in view && view[w].Page? && view[w].flags == Stored(flags)
    ensures Accessible(mem, pool, first, n, Allowed(flags))
  {
    forall w: Vpn, a: Access | w.Ok() && first <= w.Number() < first + n
      ensures UserMay(Translate(mem, pool, w), a) <==> a in Allowed(flags)
    {
      WordsTranslate(mem, pool, ent, w);
      assert Translate(mem, pool, w) == view[w];
    }
  }

  /** Reading the pages of the range through the page table gives the content, and zeros after it. */
  lemma ReadLoaded(mem: seq<byte>, pool: Pool, ent: Entries, view0: View, view: View, owner: seq<Role>,
                   start: nat, frames: seq<nat>, flags: nat, content: seq<byte>, k: nat)
    requires Words(mem, pool, ent) && Refines(ent, pool, view) && 0 < pool.pages
    requires MappedTo(view0, view, pool, owner, start / PGSIZE, frames, flags) && Hold(mem, pool, frames, content)
    requires start % PGSIZE == 0 && start + k < 0x8000000000 && k < |frames| * PGSIZE
    requires Read in Allowed(flags)
    ensures ReadAt(mem, pool, start + k) == Some(Extended(content, k))
  {
    var a := start + k;
    TranslateAddress(mem, pool, ent, view, a);
    ReadArith(start, k, |frames|);
    ReadMapped(mem, pool, Translate(mem, pool, VpnOf(a)), view0, view, owner, start / PGSIZE, frames, flags, content,
               VpnOf(a), k / PGSIZE, k % PGSIZE);
  }

  lemma RangeReads(mem: seq<byte>, pool: Pool, ent: Entries, view0: View, view: View, owner: seq<Role>, start: nat,
                   frames: seq<nat>, flags: nat, content: seq<byte>)
    requires Words(mem, pool, ent) && Refines(ent, pool, view) && 0 < pool.pages && start % PGSIZE == 0
    requires MappedTo(view0, view, pool, owner, start / PGSIZE, frames, flags) && Hold(mem, pool, frames, content)
    requires Read in Allowed(flags)
    ensures Reads(mem, pool, start, |frames|, content)
  {
    forall k | 0 <= k < |frames| * PGSIZE && start + k < 0x8000000000
      ensures ReadAt(mem, pool, start + k) == Some(Extended(content, k))
    {
      ReadLoaded(mem, pool, ent, view0, view, owner, start, frames, flags, content, k);
    }
  }

  lemma ReadUnchanged(mem: seq<byte>, mem': seq<byte>, pool: Pool, ent: Entries, view: View, view': View,
                      owner: seq<Role>, first: nat, n: nat, v: Vpn, k: nat)
    requires Refines(ent, pool, view) && TreeOk(ent, pool, owner) && SameData(mem, mem', pool, owner)
    requires Others(view, view', first, n) && v.Ok() && !(first <= v.Number() < first + n) && k < PGSIZE
    ensures ReadPage(mem', pool, if v in view' then view'[v] else Fault, k)
         == ReadPage(mem, pool, if v in view then view[v] else Fault, k)
  {
    if v in view && pool.Holds(view[v].ppn) {
      assert Walk(ent, pool, v) == view[v];
      MappedPagesAreData(ent, pool, owner, v);
    }
  }

  /** Addresses whose page is outside the range read as before. */
  lemma ReadOther(mem: seq<byte>, mem': seq<byte>, pool: Pool, ent: Entries, ent': Entries, view: View, view': View,
                  owner: seq<Role>, first: nat, n: nat, a: nat)
    requires Words(mem, pool, ent) && Refines(ent, pool, view) && TreeOk(ent, pool, owner)
    requires Words(mem', pool, ent') && Refines(ent', pool, view') && SameData(mem, mem', pool, owner)
    requires Others(view, view', first, n) && !(first <= a / 4096 % 0x8000000 < first + n)
    ensures ReadAt(mem', pool, a) == ReadAt(mem, pool, a)
  {
    TranslateAddress(mem, pool, ent, view, a);
    TranslateAddress(mem', pool, ent', view', a);
    ReadUnchanged(mem, mem', pool, ent, view, view', owner, first, n, VpnOf(a), a % PGSIZE);
  }

  lemma OthersRead(mem: seq<byte>, mem': seq<byte>, pool: Pool, ent: Entries, ent': Entries, view: View, view': View,
                   owner: seq<Role>, first: nat, n: nat)
    requires Words(mem, pool, ent) && Refines(ent, pool, view) && TreeOk(ent, pool, owner)
    requires Words(mem', pool, ent') && Refines(ent', pool, view') && SameData(mem, mem', pool, owner)
    requires Others(view, view', first, n)
    ensures SameReads(mem, mem', pool, first, n)
  {
    forall a: nat | !(first <= a / 4096 % 0x8000000 < first + n) ensures ReadAt(mem', pool, a) == ReadAt(mem, pool, a) {
      ReadOther(mem, mem', pool, ent, ent', view, view', owner, first, n, a);
    }
  }

  /** Addresses outside the n pages from `first` read the same. */
  ghost predicate SameReads(mem: seq<byte>, mem': seq<byte>, pool: Pool, first: nat, n: nat)
    requires pool.pages * PGSIZE <= |mem| && pool.pages * PGSIZE <= |mem'|
  {
    forall a: nat | !(first <= a / 4096 % 0x8000000 < first + n) :: ReadAt(mem', pool, a) == ReadAt(mem, pool, a)
  }

  lemma ContentReads(mem: seq<byte>, pool: Pool, start: nat, n: nat, content: seq<byte>)
    requires pool.pages * PGSIZE <= |mem| && Reads(mem, pool, start, n, content)
    requires |content| <= n * PGSIZE && start + |content| <= 0x8000000000
    ensures forall k | 0 <= k < |content| :: ReadAt(mem, pool, start + k) == Some(content[k])
  {
    forall k | 0 <= k < |content| ensures ReadAt(mem, pool, start + k) == Some(content[k]) {
      assert ReadAt(mem, pool, start + k) == Some(Extended(content, k));
    }
  }

  /** The pages from `start` read as `content` and then zeros. */
  ghost predicate Reads(mem: seq<byte>, pool: Pool, start: nat, n: nat, content: seq<byte>)
    requires pool.pages * PGSIZE <= |mem|
  {
    forall k | 0 <= k < n * PGSIZE && start + k < 0x8000000000 ::
      ReadAt(mem, pool, start + k) == Some(Extended(content, k))
  }

  /** The range from `start` reads as `content`, the rest of its last page as zeros, code in user mode may do anything
      with its pages, and addresses outside its pages read as in `before`. */
  ghost predicate Loaded(mem: seq<byte>, before: seq<byte>, pool: Pool, start: nat, content: seq<byte>)
    requires pool.pages * PGSIZE <= |mem| == |before|
  {
    && (forall k | 0 <= k < |content| :: ReadAt(mem, pool, start + k) == Some(content[k]))
    && Reads(mem, pool, start, Pages(|content|), content)
    && Accessible(mem, pool, start / PGSIZE, Pages(|content|), {Fetch, Read, Write})
    && SameReads(before, mem, pool, start / PGSIZE, Pages(|content|))
  }

  /** Both loaders: one fresh user page per page of content. */
  method LoadContent(em: EnclaveMem, start: nat, content: seq<byte>) returns (ok: bool)
    requires em.Valid() && start % PGSIZE == 0 && start + |content| <= 0x8000000000
    modifies em`freeMem, em`owner, em`ent, em`view, em.mem
    ensures em.Valid() && (old(|em.freeMem|) >= 3 * Pages(|content|) ==> ok)
    ensures ok ==> Loaded(em.mem[..], old(em.mem[..]), em.pool, start, content)
  {
    ghost var before, ent0, view0, owner0 := em.mem[..], em.ent, em.view, em.owner;
    ghost var frames;
    ok, frames := LoadRange(em, start, |content|, ENCLAVE_USER_PAGE, content, true);
    if ok {
      FlagsAllow();
      PagesAccessible(em.mem[..], em.pool, em.ent, em.view, start / PGSIZE, |frames|, ENCLAVE_USER_PAGE);
      RangeReads(em.mem[..], em.pool, em.ent, view0, em.view, em.owner, start, frames, ENCLAVE_USER_PAGE, content);
      ContentReads(em.mem[..], em.pool, start, |frames|, content);
      OthersRead(before, em.mem[..], em.pool, ent0, em.ent, view0, em.view, owner0, start / PGSIZE, |frames|);
    }
  }

  /** penglai_enclave_load_program: afterwards the enclave reads the file's bytes at the segment's
      addresses, and every address outside the segment's pages reads as before. */
  method LoadProgram(em: EnclaveMem, file: seq<byte>, progAddr: nat, size: nat) returns (ok: bool)
    requires em.Valid() && progAddr % PGSIZE == 0 && progAddr + size <= 0x8000000000 && size <= |file|
    modifies em`freeMem, em`owner, em`ent, em`view, em.mem
    ensures em.Valid() && (old(|em.freeMem|) >= 3 * Pages(size) ==> ok)
    ensures ok ==> Loaded(em.mem[..], old(em.mem[..]), em.pool, progAddr, file[..size])
  {
    ok := LoadContent(em, progAddr, file[..size]);
  }

  /** penglai_enclave_load_NOBITS_section: the section's range reads as zero. */
  method LoadNobits(em: EnclaveMem, sectAddr: nat, size: nat) returns (ok: bool)
    requires em.Valid() && sectAddr % PGSIZE == 0 && sectAddr + size <= 0x8000000000
    modifies em`freeMem, em`owner, em`ent, em`view, em.mem
    ensures em.Valid() && (old(|em.freeMem|) >= 3 * Pages(size) ==> ok)
    ensures ok ==> Loaded(em.mem[..], old(em.mem[..]), em.pool, sectAddr, seq(size, _ => 0))
  {
    ok := LoadContent(em, sectAddr, seq(size, _ => 0));
  }

  /** The stack loop of penglai_enclave_eapp_preprare: every stack page is mapped to a data page of
      its own, with the stack's flags. */
  method MapStack(em: EnclaveMem, stackPtr: nat, stackSize: nat) returns (ok: bool, ghost frames: seq<nat>)
    requires em.Valid() && stackSize <= stackPtr <= 0x8000000000 && (stackPtr - stackSize) % PGSIZE == 0
    modifies em`freeMem, em`owner, em`ent, em`view, em.mem
    ensures em.Valid() && (ok ==> |frames| == Pages(stackSize)) && (old(|em.freeMem|) >= 3 * Pages(stackSize) ==> ok)
    ensures MappedTo(old(em.view), em.view, em.pool, em.owner, (stackPtr - stackSize) / PGSIZE, frames,
      ENCLAVE_STACK_PAGE)
    ensures SameData(old(em.mem[..]), em.mem[..], em.pool, old(em.owner))
    ensures Accessible(em.mem[..], em.pool, (stackPtr - stackSize) / PGSIZE, |frames|, {Read, Write})
    ensures Reads(em.mem[..], em.pool, stackPtr - stackSize, |frames|, [])
  {
    ghost var view0 := em.view;
    ok, frames := LoadRange(em, stackPtr - stackSize, stackSize, ENCLAVE_STACK_PAGE, seq(stackSize, _ => 0), false);
    StackReads(em.mem[..], em.pool, em.ent, view0, em.view, em.owner, stackPtr - stackSize, frames);
  }

  lemma StackReads(mem: seq<byte>, pool: Pool, ent: Entries, view0: View, view: View, owner: seq<Role>, start: nat,
                   frames: seq<nat>)
    requires Words(mem, pool, ent) && Refines(ent, pool, view) && 0 < pool.pages && start % PGSIZE == 0
    requires MappedTo(view0, view, pool, owner, start / PGSIZE, frames, ENCLAVE_STACK_PAGE)
    requires Hold(mem, pool, frames, [])
    ensures Accessible(mem, pool, start / PGSIZE, |frames|, {Read, Write}) && Reads(mem, pool, start, |frames|, [])
  {
    FlagsAllow();
    RangeReads(mem, pool, ent, view0, view, owner, start, frames, ENCLAVE_STACK_PAGE, []);
    PagesAccessible(mem, pool, ent, view, start / PGSIZE, |frames|, ENCLAVE_STACK_PAGE);
  }

  // ---------- shared memory

  /** n pages from `first` are mapped to consecutive physical pages from ppn; others as in view0. */
  ghost predicate Shared(view0: View, view: View, first: nat, ppn: nat, n: nat) {
    && (forall w: Vpn {:trigger w.Number()} | w.Ok() && first <= w.Number() < first + n ::
          w in view && view[w] == Page(ppn + w.Number() - first, Stored(ENCLAVE_UNTRUSTED_PAGE)))
    && Others(view0, view, first, n)
  }

  lemma ExtendShared(view0: View, view: View, first: nat, ppn: nat, n: nat, v: Vpn)
    requires Shared(view0, view, first, ppn, n) && v.Ok() && v.Number() == first + n
    ensures Shared(view0, view[v := Page(ppn + n, Stored(ENCLAVE_UNTRUSTED_PAGE))], first, ppn, n + 1)
  {
    forall w: Vpn | w.Ok() && w.Number() == v.Number() ensures w == v { NumberInjective(w, v); }
  }

  /** map_untrusted_mem and map_kbuffer: consecutive pages are mapped to consecutive physical pages
      outside the pool; nothing else changes. */
  method MapShared(em: EnclaveMem, vaddr: nat, paddr: nat, size: nat) returns (ok: bool)
    requires em.Valid() && vaddr % PGSIZE == 0 && vaddr + size <= 0x8000000000
    requires paddr / PGSIZE + Pages(size) <= 0x100000000000
    requires paddr / PGSIZE + Pages(size) <= em.pool.base || em.pool.base + em.pool.pages <= paddr / PGSIZE
    modifies em`freeMem, em`owner, em`ent, em`view, em.mem
    ensures em.Valid() && (old(|em.freeMem|) >= 2 * Pages(size) ==> ok)
    ensures SameData(old(em.mem[..]), em.mem[..], em.pool, old(em.owner))
    ensures ok ==> Shared(old(em.view), em.view, vaddr / PGSIZE, paddr / PGSIZE, Pages(size))
    ensures ok ==> Accessible(em.mem[..], em.pool, vaddr / PGSIZE, Pages(size), {Read, Write})
  {
    ok := ShareLoop(em, vaddr, paddr, size, vaddr / PGSIZE, paddr / PGSIZE, Pages(size));
    if ok {
      FlagsAllow();
      PagesAccessible(em.mem[..], em.pool, em.ent, em.view, vaddr / PGSIZE, Pages(size), ENCLAVE_UNTRUSTED_PAGE);
    }
  }

  /** The loop, for a range of `total` pages that begin at page number `first`, and ppn. */
  method ShareLoop(em: EnclaveMem, vaddr: nat, paddr: nat, size: nat, ghost first: nat, ghost ppn: nat,
                   ghost total: nat)
    returns (ok: bool)
    requires em.Valid() && vaddr == first * PGSIZE && ppn * PGSIZE <= paddr < (ppn + 1) * PGSIZE
    requires vaddr + size <= 0x8000000000 && ppn + total <= 0x100000000000
    requires size <= total * PGSIZE && (total == 0 || (total - 1) * PGSIZE < size)
    requires ppn + total <= em.pool.base || em.pool.base + em.pool.pages <= ppn
    modifies em`freeMem, em`owner, em`ent, em`view, em.mem
    ensures em.Valid() && (old(|em.freeMem|) >= 2 * total ==> ok)
    ensures SameData(old(em.mem[..]), em.mem[..], em.pool, old(em.owner))
    ensures ok ==> Shared(old(em.view), em.view, first, ppn, total)
  {
    var addr, pa := vaddr, paddr;
    ghost var n := 0;
    ok := true;
    while addr < vaddr + size
      invariant em.Valid() && addr == vaddr + n * PGSIZE && pa == paddr + n * PGSIZE
      invariant 0 <= n <= total && |em.freeMem| + 2 * n >= old(|em.freeMem|)
      invariant PartlyShared(old(em.mem[..]), em.mem[..], em.pool, old(em.view), em.view, old(em.owner), em.owner,
                             first, ppn, n)
      decreases vaddr + size - addr
    {
      ok := ShareOne(em, vaddr, addr, paddr, pa, first, ppn, n, old(em.mem[..]), old(em.view), old(em.owner));
      if !ok {
        return;
      }
      addr, pa, n := addr + PGSIZE, pa + PGSIZE, n + 1;
    }
  }

  lemma InPage(a: nat, page: nat)
    requires page * PGSIZE <= a < (page + 1) * PGSIZE
    ensures a / PGSIZE == page
  {
  }

  method ShareOne(em: EnclaveMem, ghost vaddr: nat, addr: nat, ghost paddr: nat, pa: nat, ghost first: nat,
                  ghost ppn: nat, ghost n: nat, ghost mem0: seq<byte>, ghost view0: View, ghost owner0: seq<Role>)
    returns (ok: bool)
    requires em.Valid() && vaddr == first * PGSIZE && ppn * PGSIZE <= paddr < (ppn + 1) * PGSIZE
    requires addr == vaddr + n * PGSIZE < 0x8000000000 && pa == paddr + n * PGSIZE
    requires ppn + n < 0x100000000000 && !em.pool.Holds(ppn + n)
    requires PartlyShared(mem0, em.mem[..], em.pool, view0, em.view, owner0, em.owner, first, ppn, n)
    modifies em`freeMem, em`owner, em`ent, em`view, em.mem
    ensures em.Valid() && |em.freeMem| + 2 >= old(|em.freeMem|) && (!ok ==> old(|em.freeMem|) < 2)
    ensures PartlyShared(mem0, em.mem[..], em.pool, view0, em.view, owner0, em.owner, first, ppn,
      if ok then n + 1 else n)
  {
    InPage(vaddr, first);
    InPage(pa, ppn + n);
    var v := PageAt(vaddr, n, addr);
    ok := ShareTurn(em, v, pa, first, ppn, n, mem0, view0, owner0);
  }

  ghost predicate PartlyShared(mem0: seq<byte>, mem: seq<byte>, pool: Pool, view0: View, view: View,
                               owner0: seq<Role>, owner: seq<Role>, first: nat, ppn: nat, n: nat) {
    owner0 <= owner && SameData(mem0, mem, pool, owner0) && Shared(view0, view, first, ppn, n)
  }

  method ShareTurn(em: EnclaveMem, v: Vpn, pa: nat, ghost first: nat, ghost ppn: nat, ghost n: nat,
                   ghost mem0: seq<byte>, ghost view0: View, ghost owner0: seq<Role>)
    returns (ok: bool)
    requires em.Valid() && v.Ok() && v.Number() == first + n
    requires pa / PGSIZE == ppn + n < 0x100000000000 && !em.pool.Holds(ppn + n)
    requires PartlyShared(mem0, em.mem[..], em.pool, view0, em.view, owner0, em.owner, first, ppn, n)
    modifies em`freeMem, em`owner, em`ent, em`view, em.mem
    ensures em.Valid() && |em.owner| <= old(|em.owner|) + 2 && (!ok ==> old(|em.freeMem|) < 2)
    ensures PartlyShared(mem0, em.mem[..], em.pool, view0, em.view, owner0, em.owner, first, ppn,
      if ok then n + 1 else n)
  {
    ghost var view, mem, owner := em.view, em.mem[..], em.owner;
    ok := em.MapVa2Pa(v, pa, ENCLAVE_UNTRUSTED_PAGE);
    ShareStep(mem0, mem, em.mem[..], em.pool, view0, view, em.view, owner0, owner, em.owner, first, ppn, n, v, ok);
  }

  lemma ShareStep(mem0: seq<byte>, mem: seq<byte>, mem': seq<byte>, pool: Pool, view0: View, view: View, view': View,
                  owner0: seq<Role>, owner: seq<Role>, owner': seq<Role>, first: nat, ppn: nat, n: nat, v: Vpn,
                  ok: bool)
    requires PartlyShared(mem0, mem, pool, view0, view, owner0, owner, first, ppn, n)
    requires owner <= owner' && SameData(mem, mem', pool, owner) && v.Ok() && v.Number() == first + n
    requires view' == if ok then view[v := Page(ppn + n, Stored(ENCLAVE_UNTRUSTED_PAGE))] else view
    ensures PartlyShared(mem0, mem', pool, view0, view', owner0, owner', first, ppn, if ok then n + 1 else n)
  {
    ExtendShared(view0, view, first, ppn, n, v);
  }
}
