/** install_new_tls: the vectors and copies that existing threads receive after modules have been loaded. */
module TlsInstall {
  import opened Words
  import opened Splice
  import opened Memory
  import opened TlsCopies

  /** The list of DSOs holds a module for every new id, in the order of their ids. */
  ghost predicate ListOk(list: seq<Pending>, oldCnt: nat, cnt: nat) {
    && oldCnt < cnt
    && (forall i | 0 <= i < |list| :: list[i].id <= cnt && list[i].align > 0)
    && (forall i, j | 0 <= i < j < |list| && list[i].id > oldCnt && list[j].id > oldCnt :: list[i].id < list[j].id)
    && (exists i :: 0 <= i < |list| && list[i].id == cnt)
  }

  /** Every new module has its reservation up to its end, in memory of its own, and it was made for at least as many
      threads as there are now: since then threads may have exited, and none has been created. */
  ghost predicate SpaceOk(cpu: Machine, list: seq<Pending>, oldCnt: nat, word: nat, threads: nat, ends: seq<nat>,
                          top: nat)
  {
    && |ends| == |list|
    && (forall i | 0 <= i < |list| && list[i].id > oldCnt ::
          && Aligns(cpu, list[i].align) && |list[i].bytes| <= list[i].size
          && threads <= list[i].nth && Reserved(list[i], word, ends[i]) && ends[i] <= top)
    && (forall i, j | 0 <= i < j < |list| && list[i].id > oldCnt && list[j].id > oldCnt ::
          ends[i] <= list[j].newDtv || ends[j] <= list[i].newDtv)
  }

  // ---------- the vectors

  /** A vector after installing the first i DSOs of the list: its length, the old slots, a slot for each new module. */
  ghost predicate RowOk(cpu: Machine, row: seq<int>, was: seq<int>, list: seq<Pending>, i: nat, j: nat, oldCnt: nat,
                        cnt: nat, dtp: int)
    requires i <= |list| && forall k | 0 <= k < |list| :: list[k].align > 0
  {
    && |row| == cnt + 1 && row[0] == cnt && oldCnt < |was| && oldCnt <= cnt
    && (forall k | 1 <= k <= oldCnt :: row[k] == was[k])
    && (forall k | 0 <= k < i && oldCnt < list[k].id <= cnt :: row[list[k].id] == CopyAt(cpu, list[k], j) + dtp)
  }

  lemma RowStep(cpu: Machine, row: seq<int>, was: seq<int>, list: seq<Pending>, i: nat, j: nat, oldCnt: nat, cnt: nat,
                dtp: int)
    requires ListOk(list, oldCnt, cnt) && i < |list| && list[i].id > oldCnt
    requires RowOk(cpu, row, was, list, i, j, oldCnt, cnt, dtp)
    ensures RowOk(cpu, row[list[i].id := CopyAt(cpu, list[i], j) + dtp], was, list, i + 1, j, oldCnt, cnt, dtp)
  {
  }

  // ---------- the copies

  /** The copies made when the loop is at DSO i and thread j: the image of every new module for every thread before. */
  ghost predicate Copied(cpu: Machine, m: seq<byte>, list: seq<Pending>, oldCnt: nat, i: nat, j: nat, threads: nat)
    requires forall k | 0 <= k < |list| :: list[k].align > 0
  {
    forall k, t | 0 <= k < |list| && 0 <= t < threads && list[k].id > oldCnt && (k < i || (k == i && t < j)) ::
      HoldsAt(m, CopyAt(cpu, list[k], t), list[k].bytes)
  }

  /** No byte outside the blocks reserved for the copies has changed. */
  ghost predicate OnlyBlocks(m: seq<byte>, was: seq<byte>, list: seq<Pending>, oldCnt: nat, ends: seq<nat>)
    requires |ends| == |list|
  {
    && |m| == |was|
    && forall a | 0 <= a < |m| && m[a] != was[a] :: InBlocks(a, list, oldCnt, ends)
  }

  ghost predicate InBlocks(a: nat, list: seq<Pending>, oldCnt: nat, ends: seq<nat>)
    requires |ends| == |list|
  { exists k :: 0 <= k < |list| && list[k].id > oldCnt && list[k].newTls <= a < ends[k] }

  /** Copies of different modules, or for different threads, share no byte. */
  lemma CopiesApart(cpu: Machine, list: seq<Pending>, oldCnt: nat, word: nat, threads: nat, ends: seq<nat>, top: nat,
                    i: nat, j: nat, k: nat, t: nat)
    requires SpaceOk(cpu, list, oldCnt, word, threads, ends, top) && i < |list| && k < |list| && j < threads
    requires t < threads
    requires list[i].id > oldCnt && list[k].id > oldCnt && (k != i || t != j)
    ensures var a, b := CopyAt(cpu, list[i], j), CopyAt(cpu, list[k], t);
      a + list[i].size <= b || b + list[k].size <= a
  {
    CopyInReservation(cpu, list[i], word, ends[i], j);
    CopyInReservation(cpu, list[k], word, ends[k], t);
    if k == i {
      if j < t {
        MulOrder(j + 1, t, list[i].size + list[i].align);
      } else {
        MulOrder(t + 1, j, list[i].size + list[i].align);
      }
    } else {
      FromNewDtv(list[i], word, ends[i]);
      FromNewDtv(list[k], word, ends[k]);
      SlicesUp(j, list[i].size + list[i].align);
      SlicesUp(t, list[k].size + list[k].align);
    }
  }

  lemma MulOrder(a: nat, b: nat, s: nat)
    requires a <= b
    ensures a * s <= b * s
  {
  }

  lemma SlicesUp(j: nat, s: nat)
    ensures j * s >= 0
  {
  }

  lemma FromNewDtv(p: Pending, word: nat, end: nat)
    requires Reserved(p, word, end)
    ensures p.newDtv <= p.newTls
  {
    SlicesUp(p.nth, word * (p.id + 1));
  }

  /** One more copy. */
  lemma CopiedStep(cpu: Machine, m: seq<byte>, was: seq<byte>, list: seq<Pending>, oldCnt: nat, word: nat, threads: nat,
                   ends: seq<nat>, i: nat, j: nat)
    requires SpaceOk(cpu, list, oldCnt, word, threads, ends, |m|) && i < |list| && j < threads && list[i].id > oldCnt
    requires (forall k | 0 <= k < |list| :: list[k].align > 0) && Copied(cpu, m, list, oldCnt, i, j, threads)
    requires OnlyBlocks(m, was, list, oldCnt, ends)
    ensures var at := CopyAt(cpu, list[i], j);
      && list[i].newTls <= at && at + |list[i].bytes| <= ends[i] <= |m|
      && Copied(cpu, Put(m, at, list[i].bytes), list, oldCnt, i, j + 1, threads)
      && OnlyBlocks(Put(m, at, list[i].bytes), was, list, oldCnt, ends)
  {
    var at, b := CopyAt(cpu, list[i], j), list[i].bytes;
    CopyInReservation(cpu, list[i], word, ends[i], j);
    SlicesUp(j, list[i].size + list[i].align);
    var r := Put(m, at, b);
    forall k, t | 0 <= k < |list| && 0 <= t < threads && list[k].id > oldCnt && (k < i || (k == i && t < j + 1))
      ensures HoldsAt(r, CopyAt(cpu, list[k], t), list[k].bytes)
    {
      if k == i && t == j {
        PutHolds(m, at, b);
      } else {
        CopiesApart(cpu, list, oldCnt, word, threads, ends, |m|, i, j, k, t);
        PutKeeps(m, at, b, CopyAt(cpu, list[k], t), list[k].bytes);
      }
    }
    forall a | 0 <= a < |r| && r[a] != was[a] ensures InBlocks(a, list, oldCnt, ends) {
      PutAt(m, at, b, a);
    }
  }

  // ---------- the method

  method InstallNewTls(cpu: Machine, dtvs: seq<seq<int>>, list: seq<Pending>, oldCnt: nat, cnt: nat, dtp: int,
                       memory: array<byte>, ghost word: nat, ghost ends: seq<nat>)
    returns (newdtv: seq<seq<int>>, ghost provider: nat)
    requires ListOk(list, oldCnt, cnt) && forall j | 0 <= j < |dtvs| :: |dtvs[j]| > oldCnt
    requires SpaceOk(cpu, list, oldCnt, word, |dtvs|, ends, memory.Length)
    modifies memory
    ensures |newdtv| == |dtvs|
    ensures forall j | 0 <= j < |dtvs| :: RowOk(cpu, newdtv[j], dtvs[j], list, |list|, j, oldCnt, cnt, dtp)
    ensures provider < |list| && list[provider].id == cnt
    ensures forall j | 0 <= j < |dtvs| :: RowInside(list[provider], word, j)
    ensures forall k, j | 0 <= k < |list| && 0 <= j < |dtvs| && list[k].id > oldCnt ::
      CopyInside(cpu, list[k], ends[k], j)
    ensures Copied(cpu, memory[..], list, oldCnt, |list|, 0, |dtvs|)
    ensures OnlyBlocks(memory[..], old(memory[..]), list, oldCnt, ends)
  {
    newdtv := CopyVectors(cpu, dtvs, list, oldCnt, cnt, dtp);
    ghost var last :| 0 <= last < |list| && list[last].id == cnt;
    provider := last;
    var i := 0;
    while true
      invariant 0 <= i <= last && |newdtv| == |dtvs|
      invariant forall j | 0 <= j < |dtvs| :: RowOk(cpu, newdtv[j], dtvs[j], list, i, j, oldCnt, cnt, dtp)
      invariant Copied(cpu, memory[..], list, oldCnt, i, 0, |dtvs|)
      invariant OnlyBlocks(memory[..], old(memory[..]), list, oldCnt, ends)
      decreases last - i
    {
      if list[i].id > oldCnt {
        newdtv := InstallOne(cpu, newdtv, dtvs, list, i, oldCnt, cnt, dtp, memory, word, ends, old(memory[..]));
        if list[i].id == cnt {
          break;
        }
      }
      i := i + 1;
    }
    AllInside(cpu, list, oldCnt, word, |dtvs|, ends, memory.Length, provider, cnt);
  }

  /** Row j of the new vectors lies in the first part of the reservation of the module that provides them. */
  ghost predicate RowInside(p: Pending, word: nat, j: nat) {
    var row := word * (p.id + 1);
    p.newDtv <= p.newDtv + j * row && p.newDtv + j * row + row <= p.newTls
  }

  /** Thread j's copy is congruent to the image and lies in the second part of the module's reservation. */
  ghost predicate CopyInside(cpu: Machine, p: Pending, end: nat, j: nat)
    requires p.align > 0
  {
    var a := CopyAt(cpu, p, j);
    (a - p.image) % p.align == 0 && p.newTls <= a && a + p.size <= end
  }

  lemma AllInside(cpu: Machine, list: seq<Pending>, oldCnt: nat, word: nat, threads: nat, ends: seq<nat>, top: nat,
                  provider: nat, cnt: nat)
    requires SpaceOk(cpu, list, oldCnt, word, threads, ends, top) && ListOk(list, oldCnt, cnt)
    requires provider < |list| && list[provider].id == cnt
    ensures forall j | 0 <= j < threads :: RowInside(list[provider], word, j)
    ensures forall k, j | 0 <= k < |list| && 0 <= j < threads && list[k].id > oldCnt ::
      CopyInside(cpu, list[k], ends[k], j)
  {
    forall j | 0 <= j < threads ensures RowInside(list[provider], word, j) {
      RowInReservation(list[provider], word, ends[provider], j);
      SlicesUp(j, word * (list[provider].id + 1));
    }
    forall k, j | 0 <= k < |list| && 0 <= j < threads && list[k].id > oldCnt
      ensures CopyInside(cpu, list[k], ends[k], j)
    {
      CopyInReservation(cpu, list[k], word, ends[k], j);
      SlicesUp(j, list[k].size + list[k].align);
    }
  }

  /** The first loop: the old contents at the front of longer vectors. */
  method CopyVectors(cpu: Machine, dtvs: seq<seq<int>>, list: seq<Pending>, oldCnt: nat, cnt: nat, dtp: int)
    returns (newdtv: seq<seq<int>>)
    requires ListOk(list, oldCnt, cnt) && forall j | 0 <= j < |dtvs| :: |dtvs[j]| > oldCnt
    ensures |newdtv| == |dtvs|
    ensures forall j | 0 <= j < |dtvs| :: RowOk(cpu, newdtv[j], dtvs[j], list, 0, j, oldCnt, cnt, dtp)
  {
    newdtv := [];
    var i := 0;
    while i < |dtvs|
      invariant 0 <= i <= |dtvs| && |newdtv| == i
      invariant forall j | 0 <= j < i :: RowOk(cpu, newdtv[j], dtvs[j], list, 0, j, oldCnt, cnt, dtp)
    {
      newdtv := newdtv + [[cnt] + dtvs[i][1..oldCnt + 1] + seq(cnt - oldCnt, _ => 0)];
      i := i + 1;
    }
  }

  /** One new module: its copies, and its slot in the vectors, for all threads. */
  method InstallOne(cpu: Machine, rows: seq<seq<int>>, dtvs: seq<seq<int>>, list: seq<Pending>, i: nat, oldCnt: nat,
                    cnt: nat, dtp: int, memory: array<byte>, ghost word: nat, ghost ends: seq<nat>,
                    ghost was: seq<byte>)
    returns (r: seq<seq<int>>)
    requires ListOk(list, oldCnt, cnt) && i < |list| && list[i].id > oldCnt && |rows| == |dtvs|
    requires forall j | 0 <= j < |dtvs| :: RowOk(cpu, rows[j], dtvs[j], list, i, j, oldCnt, cnt, dtp)
    requires SpaceOk(cpu, list, oldCnt, word, |dtvs|, ends, memory.Length)
    requires Copied(cpu, memory[..], list, oldCnt, i, 0, |dtvs|) && OnlyBlocks(memory[..], was, list, oldCnt, ends)
    modifies memory
    ensures |r| == |dtvs| && forall j | 0 <= j < |dtvs| :: RowOk(cpu, r[j], dtvs[j], list, i + 1, j, oldCnt, cnt, dtp)
    ensures Copied(cpu, memory[..], list, oldCnt, i + 1, 0, |dtvs|) && OnlyBlocks(memory[..], was, list, oldCnt, ends)
  {
    r := rows;
    var p := list[i];
    var mem, j := p.newTls, 0;
    while j < |dtvs|
      invariant 0 <= j <= |dtvs| && mem == p.newTls + j * (p.size + p.align) && |r| == |dtvs|
      invariant forall k | 0 <= k < j :: RowOk(cpu, r[k], dtvs[k], list, i + 1, k, oldCnt, cnt, dtp)
      invariant forall k | j <= k < |dtvs| :: r[k] == rows[k]
      invariant Copied(cpu, memory[..], list, oldCnt, i, j, |dtvs|) && OnlyBlocks(memory[..], was, list, oldCnt, ends)
    {
      var at := CopyOne(cpu, list, i, j, mem, memory, oldCnt, word, |dtvs|, ends, was);
      RowStep(cpu, r[j], dtvs[j], list, i, j, oldCnt, cnt, dtp);
      r := r[j := r[j][p.id := at + dtp]];
      NextSlice(j, p.size + p.align);
      mem := mem + p.size + p.align;
      j := j + 1;
    }
  }

  /** Thread j's copy, at the first aligned address of its slice. */
  method CopyOne(cpu: Machine, list: seq<Pending>, i: nat, ghost j: nat, mem: nat, memory: array<byte>,
                 ghost oldCnt: nat, ghost word: nat, ghost threads: nat, ghost ends: seq<nat>, ghost was: seq<byte>)
    returns (at: nat)
    requires SpaceOk(cpu, list, oldCnt, word, threads, ends, memory.Length) && i < |list| && list[i].id > oldCnt
    requires j < threads && mem == list[i].newTls + j * (list[i].size + list[i].align)
    requires (forall k | 0 <= k < |list| :: list[k].align > 0) && Copied(cpu, memory[..], list, oldCnt, i, j, threads)
    requires OnlyBlocks(memory[..], was, list, oldCnt, ends)
    modifies memory
    ensures at == CopyAt(cpu, list[i], j) && Copied(cpu, memory[..], list, oldCnt, i, j + 1, threads)
    ensures OnlyBlocks(memory[..], was, list, oldCnt, ends)
  {
    CopiedStep(cpu, memory[..], was, list, oldCnt, word, threads, ends, i, j);
    at := Place(cpu, list[i], mem, j);
    CopyInto(list[i].bytes, memory, at);
  }

  method Place(cpu: Machine, p: Pending, mem: nat, ghost j: nat) returns (at: int)
    requires p.align > 0 && mem == p.newTls + j * (p.size + p.align)
    ensures at == CopyAt(cpu, p, j)
  {
    at := mem + cpu.and(Wrap(cpu.bits, p.image - mem), p.align - 1);
  }

  lemma NextSlice(j: nat, s: nat)
    ensures (j + 1) * s == j * s + s
  {
  }
}
