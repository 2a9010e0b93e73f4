/** What each elementary change of the page tables does to the translation and to ownership. */
module PageTree {
  import opened Memory
  import opened Sv39

  /** The page of the table that entry e refers to. */
  function Child(pool: Pool, e: nat): int { PtePpn(e) - pool.base }

  /** q is the last-level table that the walk of v reaches. */
  ghost predicate LastTable(ent: Entries, pool: Pool, v: Vpn, q: nat) {
    && ent(0, v.i0) != 0 && 0 <= Child(pool, ent(0, v.i0)) < pool.pages
    && ent(Child(pool, ent(0, v.i0)), v.i1) != 0
    && Child(pool, ent(Child(pool, ent(0, v.i0)), v.i1)) == q
  }

  /** The three entries a walk reads, by ownership. */
  lemma WalkShape(ent: Entries, pool: Pool, owner: seq<Role>, v: Vpn)
    requires TreeOk(ent, pool, owner) && v.Ok()
    ensures var e0 := ent(0, v.i0); var m := Child(pool, e0);
      if e0 == 0 then Walk(ent, pool, v) == Fault
      else
        && 0 <= m < |owner| && owner[m] == Mid(v.i0)
        && var e1 := ent(m, v.i1); var q := Child(pool, e1);
           if e1 == 0 then Walk(ent, pool, v) == Fault
           else
             && 0 <= q < |owner| && owner[q] == Last(v.i0, v.i1) && LastTable(ent, pool, v, q)
             && var e2 := ent(q, v.i2);
                Walk(ent, pool, v) == if e2 == 0 then Fault else Page(PtePpn(e2), PteFlags(e2))
  {
    var e0 := ent(0, v.i0);
    assert EntryOk(owner, pool, owner[0], v.i0, e0);
    if e0 != 0 {
      var m := Child(pool, e0);
      DescriptorDecodes(e0, 0x40000, v.i1 * 512 + v.i2);
      var e1 := ent(m, v.i1);
      assert EntryOk(owner, pool, owner[m], v.i1, e1);
      if e1 != 0 {
        var q := Child(pool, e1);
        DescriptorDecodes(e1, 512, v.i2);
        assert EntryOk(owner, pool, owner[q], v.i2, ent(q, v.i2));
      }
    }
  }

  lemma DescriptorDecodes(e: nat, span: nat, low: nat)
    requires e == PtePpn(e) * 1024 + 1 && span > 0
    ensures Decode(e, false, span, low) == Down(PtePpn(e))
  {
    NoPermissions(PtePpn(e));
  }

  lemma NoPermissions(n: nat)
    ensures var e := n * 1024 + 1; e % 2 == 1 && !Readable(e) && !Writable(e) && !Executable(e)
  {
    assert (n * 1024 + 1) / 2 == n * 512 && (n * 1024 + 1) / 4 == n * 256 && (n * 1024 + 1) / 8 == n * 128;
  }

  /** ent' is ent with one entry replaced. */
  ghost predicate Stored1(ent: Entries, ent': Entries, pool: Pool, q: nat, i: nat, e: nat) {
    forall p, j | 0 <= p < pool.pages && 0 <= j < ENTRIES :: ent'(p, j) == if p == q && j == i then e else ent(p, j)
  }

  /** Storing an entry in the last-level table of v keeps the tree. */
  lemma SetLeafTree(ent: Entries, ent': Entries, pool: Pool, owner: seq<Role>, v: Vpn, q: nat, e: nat)
    requires TreeOk(ent, pool, owner) && v.Ok() && Stored1(ent, ent', pool, q, v.i2, e)
    requires q < |owner| && owner[q] == Last(v.i0, v.i1) && EntryOk(owner, pool, owner[q], v.i2, e)
    ensures TreeOk(ent', pool, owner)
  {
  }

  /** ... and changes the translation of that page and of no other. */
  lemma SetLeafWalk(ent: Entries, ent': Entries, pool: Pool, owner: seq<Role>, v: Vpn, q: nat, e: nat, w: Vpn)
    requires TreeOk(ent, pool, owner) && v.Ok() && w.Ok() && Stored1(ent, ent', pool, q, v.i2, e)
    requires q < |owner| && owner[q] == Last(v.i0, v.i1) && EntryOk(owner, pool, owner[q], v.i2, e)
    requires LastTable(ent, pool, v, q)
    ensures Walk(ent', pool, w) ==
      if w != v then Walk(ent, pool, w) else if e == 0 then Fault else Page(PtePpn(e), PteFlags(e))
  {
    SetLeafTree(ent, ent', pool, owner, v, q, e);
    WalkShape(ent, pool, owner, w);
    WalkShape(ent', pool, owner, w);
  }

  /** A free page becomes a table below an empty entry of table p: nothing is mapped yet, so no
      translation changes. */
  lemma AddTableTree(ent: Entries, ent': Entries, pool: Pool, owner: seq<Role>, p: nat, i: nat, role: Role)
    requires TreeOk(ent, pool, owner) && |owner| < pool.pages && p < |owner| && i < ENTRIES
    requires (owner[p] == Root && role == Mid(i)) || (owner[p].Mid? && role == Last(owner[p].i0, i))
    requires ent(p, i) == 0 && Stored1(ent, ent', pool, p, i, (pool.base + |owner|) * 1024 + 1)
    ensures TreeOk(ent', pool, owner + [role])
  {
    var owner' := owner + [role];
    forall r, j | 0 <= r < |owner'| && 0 <= j < ENTRIES && !owner'[r].Data?
      ensures EntryOk(owner', pool, owner'[r], j, ent'(r, j))
    {
      if r < |owner| && !(r == p && j == i) {
        assert EntryOk(owner, pool, owner[r], j, ent(r, j));
      }
    }
  }

  lemma AddTableWalk(ent: Entries, ent': Entries, pool: Pool, owner: seq<Role>, p: nat, i: nat, role: Role, w: Vpn)
    requires TreeOk(ent, pool, owner) && |owner| < pool.pages && p < |owner| && i < ENTRIES && w.Ok()
    requires (owner[p] == Root && role == Mid(i)) || (owner[p].Mid? && role == Last(owner[p].i0, i))
    requires ent(p, i) == 0 && Stored1(ent, ent', pool, p, i, (pool.base + |owner|) * 1024 + 1)
    ensures Walk(ent', pool, w) == Walk(ent, pool, w)
  {
    AddTableTree(ent, ent', pool, owner, p, i, role);
    WalkShape(ent, pool, owner, w);
    WalkShape(ent', pool, owner + [role], w);
  }

  /** Taking a free page for data, or refilling data pages, changes neither. */
  lemma TakeDataTree(ent: Entries, pool: Pool, owner: seq<Role>)
    requires TreeOk(ent, pool, owner) && |owner| < pool.pages
    ensures TreeOk(ent, pool, owner + [Data])
  {
    var owner' := owner + [Data];
    forall r, j | 0 <= r < |owner'| && 0 <= j < ENTRIES && !owner'[r].Data?
      ensures EntryOk(owner', pool, owner'[r], j, ent(r, j))
    {
      assert EntryOk(owner, pool, owner[r], j, ent(r, j));
    }
  }

  lemma FillDataTree(ent: Entries, ent': Entries, pool: Pool, owner: seq<Role>, d: nat)
    requires TreeOk(ent, pool, owner) && d < |owner| && owner[d] == Data
    requires forall p, j | 0 <= p < pool.pages && 0 <= j < ENTRIES && p != d :: ent'(p, j) == ent(p, j)
    ensures TreeOk(ent', pool, owner)
    ensures forall w: Vpn | w.Ok() :: Walk(ent', pool, w) == Walk(ent, pool, w)
  {
    forall w: Vpn | w.Ok() ensures Walk(ent', pool, w) == Walk(ent, pool, w) {
      WalkShape(ent, pool, owner, w);
      WalkShape(ent', pool, owner, w);
    }
  }

  /** No mapped page is a table page, and a page mapped from the pool is a used data page. */
  lemma MappedPagesAreData(ent: Entries, pool: Pool, owner: seq<Role>, v: Vpn)
    requires TreeOk(ent, pool, owner) && v.Ok() && Walk(ent, pool, v).Page? && pool.Holds(Walk(ent, pool, v).ppn)
    ensures var d := Walk(ent, pool, v).ppn - pool.base; d < |owner| && owner[d] == Data
  {
    WalkShape(ent, pool, owner, v);
    var q := Child(pool, ent(Child(pool, ent(0, v.i0)), v.i1));
    assert EntryOk(owner, pool, owner[q], v.i2, ent(q, v.i2));
  }
}
