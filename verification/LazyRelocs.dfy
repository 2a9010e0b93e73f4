/** Relocations that dlopen defers: the table do_relocs fills when a symbol is missing, and its
    re-examination after later loads, which compacts the table in place. */
module LazyRelocs {
  import opened Choices
  import opened Dsos

  /** One relocation: where, its type and symbol, and the addend. */
  datatype Entry = Entry(offset: nat, info: nat, addend: nat)

  /** What the relocation type in an entry's info field says. */
  datatype Types = Types(
    isNone: nat -> bool,   // REL_NONE
    mayDefer: nat -> bool, // REL_PLT or REL_GOT
    isCopy: nat -> bool,   // REL_COPY
    isTpoff: nat -> bool,  // REL_TPOFF or REL_TPOFF_NEG
    handled: nat -> bool)  // a type that the architecture knows

  /** The types that may be deferred are handled, and are none of the other special ones. */
  ghost predicate TypesOk(t: Types) {
    forall info :: t.mayDefer(info) ==> t.handled(info) && !t.isNone(info) && !t.isTpoff(info)
  }

  /** What is known about one DSO's entries at the time of a pass: the types, and for the symbol that an info field
      names in that DSO's table, whether it has no definition and is not a weak undefined one, and whether its
      definition is in TLS that is not static. */
  datatype Env = Env(types: Types, missing: nat -> bool, dynamicTls: nat -> bool)

  datatype Verdict = Skip | Apply | Defer | Fail | Reject

  /** What do_relocs does with an entry, given whether the DSO has a table for deferred ones. */
  function Judge(env: Env, hasTable: bool, e: Entry): Verdict {
    if env.types.isNone(e.info) then Skip
    else if env.missing(e.info) then if hasTable && env.types.mayDefer(e.info) then Defer else Fail
    else if env.types.isTpoff(e.info) && env.dynamicTls(e.info) then Reject
    else if env.types.handled(e.info) then Apply
    else Reject
  }

  /** The verdicts that abandon a pass at run time: a symbol not found, and a symbol found but not usable. */
  predicate Stops(v: Verdict) { v == Fail || v == Reject }

  ghost predicate NoStop(env: Env, hasTable: bool, es: seq<Entry>, i: nat)
    requires i <= |es|
  { forall k | 0 <= k < i :: !Stops(Judge(env, hasTable, es[k])) }

  /** Those of the first i entries with the given verdict, in order. */
  function Select(env: Env, hasTable: bool, v: Verdict, es: seq<Entry>, i: nat): (r: seq<Entry>)
    requires i <= |es|
    ensures |r| <= i
  {
    if i == 0 then []
    else
      Select(env, hasTable, v, es, i - 1) + if Judge(env, hasTable, es[i - 1]) == v then [es[i - 1]] else []
  }

  function SelectAll(env: Env, hasTable: bool, v: Verdict, es: seq<Entry>): (r: seq<Entry>)
  { Select(env, hasTable, v, es, |es|) }

  /** The first n entries of a table of words, three words each. */
  function Triples(t: seq<nat>, n: nat): (r: seq<Entry>)
    requires 3 * n <= |t|
    ensures |r| == n && forall i | 0 <= i < n :: r[i] == Entry(t[3 * i], t[3 * i + 1], t[3 * i + 2])
  { seq(n, i requires 0 <= i < n => Entry(t[3 * i], t[3 * i + 1], t[3 * i + 2])) }

  // ---------- what a pass is to do

  /** es are the n entries that a table spells in words of the given stride. */
  ghost predicate Spells(words: seq<nat>, rela: bool, n: nat, types: Types, inl: nat -> nat, es: seq<Entry>) {
    && |es| == n && (rela ==> 3 * n <= |words|) && (!rela ==> 2 * n <= |words|)
    && forall i | 0 <= i < n ::
         if rela then es[i] == Entry(words[3 * i], words[3 * i + 1], words[3 * i + 2])
         else es[i] == Entry(words[2 * i], words[2 * i + 1], Inline(types, words[2 * i + 1], inl(i)))
  }

  ghost function Inline(types: Types, info: nat, addend: nat): (r: nat)
    ensures types.mayDefer(info) || types.isCopy(info) ==> r == 0
    ensures !types.mayDefer(info) && !types.isCopy(info) ==> r == addend
  { if types.mayDefer(info) || types.isCopy(info) then 0 else addend }

  /** The symbol of an entry is there, or is not. An entry of type REL_NONE is not looked at. */
  ghost predicate Found(env: Env, e: Entry) { !env.types.isNone(e.info) && !env.missing(e.info) }
  ghost predicate Missed(env: Env, e: Entry) { !env.types.isNone(e.info) && env.missing(e.info) }

  /** A pass can go on after the entry: a missing symbol may be found later, a symbol that is there can be used. */
  ghost predicate Usable(env: Env, hasTable: bool, e: Entry) {
    && (Missed(env, e) ==> hasTable && env.types.mayDefer(e.info))
    && (Found(env, e) ==> env.types.handled(e.info) && !(env.types.isTpoff(e.info) && env.dynamicTls(e.info)))
  }

  ghost predicate AllUsable(env: Env, hasTable: bool, es: seq<Entry>) {
    forall i | 0 <= i < |es| :: Usable(env, hasTable, es[i])
  }

  lemma UsableConcat(env: Env, has: bool, a: seq<Entry>, b: seq<Entry>)
    ensures AllUsable(env, has, a + b) <==> AllUsable(env, has, a) && AllUsable(env, has, b)
  {
    if AllUsable(env, has, a + b) {
      forall i | 0 <= i < |a| ensures Usable(env, has, a[i]) {
        assert (a + b)[i] == a[i];
      }
      forall i | 0 <= i < |b| ensures Usable(env, has, b[i]) {
        assert (a + b)[|a| + i] == b[i];
      }
    }
  }

  /** Of the entries, those whose symbol is there have been applied, and those whose symbol is not are left, in order.
      */
  ghost predicate Splits(env: Env, es: seq<Entry>, applied: seq<Entry>, left: seq<Entry>) {
    applied == Filter(es, FoundIn(env)) && left == Filter(es, MissedIn(env))
  }

  ghost function FoundIn(env: Env): Entry -> bool { (e: Entry) => Found(env, e) }
  ghost function MissedIn(env: Env): Entry -> bool { (e: Entry) => Missed(env, e) }
  function Judged(env: Env, has: bool, v: Verdict): Entry -> bool { (e: Entry) => Judge(env, has, e) == v }

  /** The verdicts say so. */
  lemma {:induction false} SelectFilters(env: Env, has: bool, v: Verdict, es: seq<Entry>, i: nat)
    requires i <= |es|
    ensures Select(env, has, v, es, i) == Filter(es[..i], Judged(env, has, v))
  {
    if i > 0 {
      SelectFilters(env, has, v, es, i - 1);
      FilterSnoc(es[..i - 1], es[i - 1], Judged(env, has, v));
      assert es[..i - 1] + [es[i - 1]] == es[..i];
    }
  }

  lemma VerdictsSplit(env: Env, has: bool, es: seq<Entry>)
    requires NoStop(env, has, es, |es|)
    ensures Splits(env, es, SelectAll(env, has, Apply, es), SelectAll(env, has, Defer, es))
  {
    assert es[..|es|] == es;
    SelectFilters(env, has, Apply, es, |es|);
    SelectFilters(env, has, Defer, es, |es|);
    forall i | 0 <= i < |es|
      ensures Judged(env, has, Apply)(es[i]) == FoundIn(env)(es[i])
      ensures Judged(env, has, Defer)(es[i]) == MissedIn(env)(es[i])
    {
      assert !Stops(Judge(env, has, es[i]));
    }
    FilterSame(es, Judged(env, has, Apply), FoundIn(env));
    FilterSame(es, Judged(env, has, Defer), MissedIn(env));
  }

  lemma UsableIffNoStop(env: Env, has: bool, es: seq<Entry>)
    ensures NoStop(env, has, es, |es|) <==> AllUsable(env, has, es)
  {
    if AllUsable(env, has, es) {
      forall k | 0 <= k < |es| ensures !Stops(Judge(env, has, es[k])) {
        assert Usable(env, has, es[k]);
      }
    } else {
      var i :| 0 <= i < |es| && !Usable(env, has, es[i]);
      assert Stops(Judge(env, has, es[i]));
    }
  }

  // ---------- the compaction

  /** The table has room for its entries. */
  predicate Fits(p: Dso)
    reads p`lazy, p`lazyCnt
  { p.lazy != null ==> 3 * p.lazyCnt <= p.lazy.Length }

  /** The deferred entries. */
  ghost function Table(p: Dso): (r: seq<Entry>)
    requires Fits(p)
    reads p`lazy, p`lazyCnt, p.lazy
  { if p.lazy == null then [] else Triples(p.lazy[..], p.lazyCnt) }

  /** An entry of a relocation table of either format. A table without addends takes them from the relocated places,
      where `inl` finds them, except that entries that may be deferred and copies have none. */
  function EntryOf(t: seq<nat>, rela: bool, i: nat, env: Env, inl: nat -> nat): Entry
    requires Width(rela, i + 1) <= |t|
  {
    if rela then Entry(t[3 * i], t[3 * i + 1], t[3 * i + 2])
    else
      var info := t[2 * i + 1];
      Entry(t[2 * i], info, if env.types.mayDefer(info) || env.types.isCopy(info) then 0 else inl(i))
  }

  function Width(rela: bool, n: nat): nat { if rela then 3 * n else 2 * n }

  function Entries(t: seq<nat>, rela: bool, n: nat, env: Env, inl: nat -> nat): (r: seq<Entry>)
    requires Width(rela, n) <= |t|
    ensures |r| == n && forall i | 0 <= i < n :: r[i] == EntryOf(t, rela, i, env, inl)
  { seq(n, i requires 0 <= i < n => EntryOf(t, rela, i, env, inl)) }

  /** The three stores of the deferral branch. */
  method Push(p: Dso, e: Entry)
    requires p.lazy != null && 3 * p.lazyCnt + 3 <= p.lazy.Length
    modifies p`lazyCnt, p.lazy
    ensures Fits(p) && p.lazyCnt == old(p.lazyCnt) + 1 && Table(p) == old(Table(p)) + [e]
    ensures forall k | 3 * p.lazyCnt <= k < p.lazy.Length :: p.lazy[k] == old(p.lazy[k])
  {
    p.lazy[3 * p.lazyCnt] := e.offset;
    p.lazy[3 * p.lazyCnt + 1] := e.info;
    p.lazy[3 * p.lazyCnt + 2] := e.addend;
    p.lazyCnt := p.lazyCnt + 1;
  }

  /** The relocation pass at run time, where a failure abandons it. `rel` may be the table of deferred entries. */
  method DoRelocs(p: Dso, rel: array<nat>, rela: bool, n: nat, env: Env, inl: nat -> nat)
    returns (ok: bool, applied: seq<Entry>, ghost es: seq<Entry>, ghost left: seq<Entry>)
    requires Width(rela, n) <= rel.Length && Fits(p)
    requires p.lazy == rel ==> p.lazyCnt == 0 && rela
    requires p.lazy != null && p.lazy != rel ==> 3 * (p.lazyCnt + n) <= p.lazy.Length
    modifies p`lazyCnt, p.lazy
    ensures Fits(p) && p.lazyCnt <= old(p.lazyCnt) + n && (p.lazy == null ==> p.lazyCnt == old(p.lazyCnt))
    ensures Spells(old(rel[..]), rela, n, env.types, inl, es)
    ensures ok <==> AllUsable(env, p.lazy != null, es)
    ensures ok ==> Splits(env, es, applied, left) && Table(p) == old(Table(p)) + left
    ensures left == SelectAll(env, p.lazy != null, Defer, es)
  {
    es := Entries(rel[..], rela, n, env, inl);
    left := SelectAll(env, p.lazy != null, Defer, es);
    UsableIffNoStop(env, p.lazy != null, es);
    ghost var out := Outcomes(env, p.lazy != null, es, Table(p));
    ghost var stop: nat;
    ok, applied, stop := Pass(p, rel, rela, n, env, inl, rel[..], es, out);
    if ok {
      VerdictsSplit(env, p.lazy != null, es);
    }
  }

  /** The outcomes that the verdicts call for. */
  lemma Outcomes(env: Env, has: bool, es: seq<Entry>, was: seq<Entry>) returns (out: Outcome)
    ensures out(0, true, was, [])
    ensures forall i, t, a | 0 <= i < |es| && out(i, true, t, a) :: StepsTo(out, env, has, es[i], i, t, a)
    ensures forall t, a | out(|es|, true, t, a) ::
      && NoStop(env, has, es, |es|) && t == was + SelectAll(env, has, Defer, es)
      && a == SelectAll(env, has, Apply, es)
    ensures forall i, t, a | 0 <= i <= |es| && out(i, false, t, a) :: !NoStop(env, has, es, |es|)
  {
    out := (i: nat, ok: bool, t: seq<Entry>, a: seq<Entry>) => Passed(env, has, es, i, ok, was, t, a);
    forall i, t, a | 0 <= i < |es| && out(i, true, t, a) ensures StepsTo(out, env, has, es[i], i, t, a) {
      PassStep(env, has, es, i, was, t, a);
    }
  }

  /** What a pass has achieved after some entries: whether it has not failed, the table, and the entries applied. */
  type Outcome = (nat, bool, seq<Entry>, seq<Entry>) -> bool

  /** The next entry takes an outcome to the one that its verdict calls for. */
  ghost predicate StepsTo(out: Outcome, env: Env, has: bool, e: Entry, i: nat, t: seq<Entry>, a: seq<Entry>) {
    var v := Judge(env, has, e);
    out(i + 1, !Stops(v), if v == Defer then t + [e] else t, if v == Apply then a + [e] else a)
  }

  method Pass(p: Dso, rel: array<nat>, rela: bool, n: nat, env: Env, inl: nat -> nat, ghost words: seq<nat>,
              ghost es: seq<Entry>, ghost out: Outcome)
    returns (ok: bool, applied: seq<Entry>, ghost stop: nat)
    requires Width(rela, n) <= rel.Length && Room(p, rel, 0, n) && (p.lazy == rel ==> rela)
    requires words == rel[..] && es == Entries(words, rela, n, env, inl) && out(0, true, Table(p), [])
    requires forall i, t, a | 0 <= i < n && out(i, true, t, a) :: StepsTo(out, env, p.lazy != null, es[i], i, t, a)
    modifies p`lazyCnt, p.lazy
    ensures Fits(p) && old(p.lazyCnt) <= p.lazyCnt <= old(p.lazyCnt) + n
    ensures p.lazy == null ==> p.lazyCnt == old(p.lazyCnt)
    ensures stop <= n && (ok ==> stop == n) && out(stop, ok, Table(p), applied)
  {
    var i := 0;
    ok, applied := true, [];
    while i < n && ok
      invariant 0 <= i <= n && Room(p, rel, i, n) && old(p.lazyCnt) <= p.lazyCnt <= old(p.lazyCnt) + i
      invariant p.lazy == null ==> p.lazyCnt == old(p.lazyCnt)
      invariant forall k | Width(rela, i) <= k < Width(rela, n) :: rel[k] == words[k]
      invariant out(i, ok, Table(p), applied)
    {
      ok, applied := RelocStep(p, rel, rela, i, n, env, inl, words, applied, out);
      i := i + 1;
    }
    stop := i;
  }

  /** One entry, and the outcome after it. */
  method RelocStep(p: Dso, rel: array<nat>, rela: bool, i: nat, n: nat, env: Env, inl: nat -> nat,
                   ghost words: seq<nat>, applied: seq<Entry>, ghost out: Outcome)
    returns (ok: bool, after: seq<Entry>)
    requires i < n && Width(rela, n) <= rel.Length == |words| && Room(p, rel, i, n) && (p.lazy == rel ==> rela)
    requires forall k | Width(rela, i) <= k < Width(rela, n) :: rel[k] == words[k]
    requires StepsTo(out, env, p.lazy != null, EntryOf(words, rela, i, env, inl), i, Table(p), applied)
    modifies p`lazyCnt, p.lazy
    ensures Room(p, rel, i + 1, n) && old(p.lazyCnt) <= p.lazyCnt <= old(p.lazyCnt) + 1
    ensures p.lazy == null ==> p.lazyCnt == old(p.lazyCnt)
    ensures forall k | Width(rela, i + 1) <= k < Width(rela, n) :: rel[k] == words[k]
    ensures out(i + 1, ok, Table(p), after)
  {
    var v, e := RelocOne(p, rel, rela, i, n, env, inl, words);
    ok := !Stops(v);
    after := if v == Apply then applied + [e] else applied;
  }

  /** The outcome of the first i entries. */
  ghost predicate Passed(env: Env, has: bool, es: seq<Entry>, i: nat, ok: bool, was: seq<Entry>, table: seq<Entry>,
                         applied: seq<Entry>) {
    && i <= |es| && (ok <==> NoStop(env, has, es, i))
    && table == was + Select(env, has, Defer, es, i) && applied == Select(env, has, Apply, es, i)
  }

  /** The write position is behind the read position in the table's own pass, and there is room for the rest in any
      other. */
  predicate Room(p: Dso, rel: array<nat>, i: nat, n: nat)
    reads p
  {
    && Fits(p) && i <= n
    && if p.lazy == rel then p.lazyCnt <= i else p.lazy != null ==> 3 * (p.lazyCnt + n - i) <= p.lazy.Length
  }

  /** One entry. */
  method RelocOne(p: Dso, rel: array<nat>, rela: bool, i: nat, n: nat, env: Env, inl: nat -> nat, ghost words: seq<nat>)
    returns (v: Verdict, e: Entry)
    requires i < n && Width(rela, n) <= rel.Length == |words| && Room(p, rel, i, n) && (p.lazy == rel ==> rela)
    requires forall k | Width(rela, i) <= k < Width(rela, n) :: rel[k] == words[k]
    modifies p`lazyCnt, p.lazy
    ensures Room(p, rel, i + 1, n) && e == EntryOf(words, rela, i, env, inl) && v == Judge(env, p.lazy != null, e)
    ensures p.lazyCnt == old(p.lazyCnt) + if v == Defer then 1 else 0
    ensures Table(p) == if v == Defer then old(Table(p)) + [e] else old(Table(p))
    ensures forall k | Width(rela, i + 1) <= k < Width(rela, n) :: rel[k] == words[k]
  {
    e := EntryOf(rel[..], rela, i, env, inl);
    v := Judge(env, p.lazy != null, e);
    if v == Defer {
      Push(p, e);
    }
  }

  lemma PassStep(env: Env, has: bool, es: seq<Entry>, i: nat, was: seq<Entry>, t: seq<Entry>, a: seq<Entry>)
    requires i < |es| && Passed(env, has, es, i, true, was, t, a)
    ensures var v := Judge(env, has, es[i]);
      Passed(env, has, es, i + 1, !Stops(v), was,
             if v == Defer then t + [es[i]] else t, if v == Apply then a + [es[i]] else a)
  {
  }

  // ---------- the capacity of the table

  const WORD_BYTES: nat := 8

  /** The number of entries prepare_lazy makes room for, from the byte sizes of the three relocation tables. */
  ghost function Capacity(relSize: nat, relaSize: nat, pltSize: nat): nat {
    relSize / 2 + relaSize / 3 + pltSize / 2 + 1
  }

  function Count(bytes: nat, rela: bool): (n: nat)
    ensures rela ==> 24 * n <= bytes < 24 * n + 24
    ensures !rela ==> 16 * n <= bytes < 16 * n + 16
  { bytes / Width(rela, WORD_BYTES) }

  /** Every entry of the three tables could be deferred at once. */
  lemma CapacitySuffices(relSize: nat, relaSize: nat, pltSize: nat, pltRela: bool)
    ensures Count(pltSize, pltRela) + Count(relSize, false) + Count(relaSize, true)
      < Capacity(relSize, relaSize, pltSize)
  {
  }

  ghost function CapacityOf(p: Dso): nat { Capacity(p.relSize, p.relaSize, p.pltSize) }

  /** The passes of reloc_all over one DSO, es being the entries of its three tables: unless one of them cannot be used,
      those found are applied, and every other finds room in the DSO's table, where no later pass can fail on it. */
  method RelocDso(p: Dso, plt: array<nat>, pltRela: bool, rel: array<nat>, rela: array<nat>, env: Env, inl: nat -> nat)
    returns (ok: bool, applied: seq<Entry>, ghost e1: seq<Entry>, ghost e2: seq<Entry>, ghost e3: seq<Entry>,
             ghost left: seq<Entry>)
    requires Width(pltRela, Count(p.pltSize, pltRela)) <= plt.Length
    requires Width(false, Count(p.relSize, false)) <= rel.Length && Width(true, Count(p.relaSize, true)) <= rela.Length
    requires p.lazyCnt == 0 && p.lazy != plt && p.lazy != rel && p.lazy != rela
    requires p.lazy != null ==> p.lazy.Length == 3 * CapacityOf(p)
    modifies p`lazyCnt, p.lazy
    ensures Fits(p) && Spells(plt[..], pltRela, Count(p.pltSize, pltRela), env.types, inl, e1)
    ensures Spells(rel[..], false, Count(p.relSize, false), env.types, inl, e2)
    ensures Spells(rela[..], true, Count(p.relaSize, true), env.types, inl, e3)
    ensures ok <==> AllUsable(env, p.lazy != null, e1 + e2 + e3)
    ensures ok ==> Splits(env, e1 + e2 + e3, applied, left) && Table(p) == left && Deferrable(env.types, left)
  {
    CapacitySuffices(p.relSize, p.relaSize, p.pltSize, pltRela);
    var np, nr, na := Count(p.pltSize, pltRela), Count(p.relSize, false), Count(p.relaSize, true);
    ok, applied, e1, e2, e3, left := RelocTables(p, plt, pltRela, np, rel, nr, rela, na, env, inl);
  }

  method RelocTables(p: Dso, plt: array<nat>, pltRela: bool, np: nat, rel: array<nat>, nr: nat, rela: array<nat>,
                     na: nat, env: Env, inl: nat -> nat)
    returns (ok: bool, applied: seq<Entry>, ghost e1: seq<Entry>, ghost e2: seq<Entry>, ghost e3: seq<Entry>,
             ghost left: seq<Entry>)
    requires Width(pltRela, np) <= plt.Length && Width(false, nr) <= rel.Length && Width(true, na) <= rela.Length
    requires p.lazyCnt == 0 && p.lazy != plt && p.lazy != rel && p.lazy != rela
    requires p.lazy != null ==> 3 * (np + nr + na) <= p.lazy.Length
    modifies p`lazyCnt, p.lazy
    ensures Fits(p) && Spells(plt[..], pltRela, np, env.types, inl, e1)
    ensures Spells(rel[..], false, nr, env.types, inl, e2) && Spells(rela[..], true, na, env.types, inl, e3)
    ensures ok <==> AllUsable(env, p.lazy != null, e1 + e2 + e3)
    ensures ok ==> Splits(env, e1 + e2 + e3, applied, left) && Table(p) == left && Deferrable(env.types, left)
  {
    ok, applied, e1, left := PassFirst(p, plt, pltRela, np, env, inl);
    if ok {
      ok, applied, e2, left := PassAlso(p, rel, false, nr, env, inl, e1, applied, left);
    } else {
      e2 := Entries(rel[..], false, nr, env, inl);
      UsableConcat(env, p.lazy != null, e1, e2);
    }
    ghost var e := e1 + e2;
    if ok {
      ok, applied, e3, left := PassAlso(p, rela, true, na, env, inl, e, applied, left);
    } else {
      e3 := Entries(rela[..], true, na, env, inl);
      UsableConcat(env, p.lazy != null, e, e3);
    }
  }

  method PassFirst(p: Dso, t: array<nat>, rela: bool, n: nat, env: Env, inl: nat -> nat)
    returns (ok: bool, applied: seq<Entry>, ghost es: seq<Entry>, ghost left: seq<Entry>)
    requires Width(rela, n) <= t.Length && p.lazyCnt == 0 && p.lazy != t && (p.lazy != null ==> 3 * n <= p.lazy.Length)
    modifies p`lazyCnt, p.lazy
    ensures Fits(p) && (p.lazy != null ==> p.lazyCnt <= n) && Spells(t[..], rela, n, env.types, inl, es)
    ensures ok <==> AllUsable(env, p.lazy != null, es)
    ensures ok ==> Splits(env, es, applied, left) && Table(p) == left && Deferrable(env.types, left)
  {
    assert Fits(p) && Table(p) == [];
    ok, applied, es, left := PassTable(p, t, rela, n, env, inl);
  }

  /** One more pass, after those over the entries before. */
  method PassAlso(p: Dso, t: array<nat>, rela: bool, n: nat, env: Env, inl: nat -> nat, ghost before: seq<Entry>,
                  done: seq<Entry>, ghost left0: seq<Entry>)
    returns (ok: bool, applied: seq<Entry>, ghost es: seq<Entry>, ghost left: seq<Entry>)
    requires Width(rela, n) <= t.Length && Fits(p) && p.lazy != t
    requires p.lazy != null ==> 3 * (p.lazyCnt + n) <= p.lazy.Length
    requires Splits(env, before, done, left0) && AllUsable(env, p.lazy != null, before)
    requires Table(p) == left0 && Deferrable(env.types, left0)
    modifies p`lazyCnt, p.lazy
    ensures Fits(p) && (p.lazy != null ==> p.lazyCnt <= old(p.lazyCnt) + n)
    ensures Spells(t[..], rela, n, env.types, inl, es)
    ensures ok <==> AllUsable(env, p.lazy != null, before + es)
    ensures ok ==> Splits(env, before + es, applied, left) && Table(p) == left && Deferrable(env.types, left)
  {
    ok, applied, es, left := PassTable(p, t, rela, n, env, inl);
    UsableConcat(env, p.lazy != null, before, es);
    if ok {
      SplitsConcat(env, before, done, left0, es, applied, left);
      applied, left := done + applied, left0 + left;
    }
  }

  /** What has been done to two tables has been done to both. */
  lemma SplitsConcat(env: Env, e1: seq<Entry>, a1: seq<Entry>, l1: seq<Entry>, e2: seq<Entry>, a2: seq<Entry>,
                     l2: seq<Entry>)
    requires Splits(env, e1, a1, l1) && Splits(env, e2, a2, l2)
    ensures Splits(env, e1 + e2, a1 + a2, l1 + l2)
  {
    FilterConcat(e1, e2, FoundIn(env));
    FilterConcat(e1, e2, MissedIn(env));
  }

  method PassTable(p: Dso, t: array<nat>, rela: bool, n: nat, env: Env, inl: nat -> nat)
    returns (ok: bool, applied: seq<Entry>, ghost es: seq<Entry>, ghost left: seq<Entry>)
    requires Width(rela, n) <= t.Length && Fits(p) && p.lazy != t
    requires p.lazy != null ==> 3 * (p.lazyCnt + n) <= p.lazy.Length
    requires Deferrable(env.types, Table(p))
    modifies p`lazyCnt, p.lazy
    ensures Fits(p) && (p.lazy != null ==> p.lazyCnt <= old(p.lazyCnt) + n)
    ensures Spells(t[..], rela, n, env.types, inl, es) && (ok <==> AllUsable(env, p.lazy != null, es))
    ensures ok ==> Splits(env, es, applied, left) && Table(p) == old(Table(p)) + left
    ensures ok ==> Deferrable(env.types, left) && Deferrable(env.types, Table(p))
  {
    ok, applied, es, left := DoRelocs(p, t, rela, n, env, inl);
    DeferredIsDeferrable(env, p.lazy != null, es, |es|);
  }

  // ---------- what may be in a table

  /** Only entries that may be deferred get into a table. That depends on their type alone. */
  predicate Deferrable(t: Types, es: seq<Entry>) { forall i | 0 <= i < |es| :: t.mayDefer(es[i].info) }

  /** What a pass defers is deferrable. */
  lemma {:induction false} DeferredIsDeferrable(env: Env, has: bool, es: seq<Entry>, i: nat)
    requires i <= |es|
    ensures Deferrable(env.types, Select(env, has, Defer, es, i))
  {
    if i > 0 {
      DeferredIsDeferrable(env, has, es, i - 1);
    }
  }

  /** So a pass over a table of deferred entries is never abandoned, whatever has become of the symbols. */
  lemma NeverStops(env: Env, es: seq<Entry>, i: nat)
    requires TypesOk(env.types) && i <= |es| && Deferrable(env.types, es)
    ensures NoStop(env, true, es, i)
  {
  }

  /** The entries of a table that are still missing. */
  function Left(env: Env, es: seq<Entry>): seq<Entry> { SelectAll(env, true, Defer, es) }

  /** Looking at them again changes nothing. */
  lemma {:induction false} SelectIdempotent(env: Env, has: bool, es: seq<Entry>, i: nat)
    requires i <= |es|
    ensures var r := Select(env, has, Defer, es, i); Select(env, has, Defer, r, |r|) == r
  {
    if i > 0 {
      SelectIdempotent(env, has, es, i - 1);
      var r, r1 := Select(env, has, Defer, es, i - 1), Select(env, has, Defer, es, i);
      if Judge(env, has, es[i - 1]) == Defer {
        SelectPrefix(env, has, r, [es[i - 1]], |r|);
        assert r1 == r + [es[i - 1]];
      } else {
        assert r1 == r;
      }
    }
  }

  lemma {:induction false} SelectPrefix(env: Env, has: bool, a: seq<Entry>, b: seq<Entry>, i: nat)
    requires i <= |a|
    ensures Select(env, has, Defer, a + b, i) == Select(env, has, Defer, a, i)
  {
    if i > 0 {
      SelectPrefix(env, has, a, b, i - 1);
    }
  }

  /** The pass of a table over itself: what is found now is applied. */
  method RedoTable(p: Dso, env: Env, ghost lazy: array<nat>, ghost t: seq<Entry>, ghost left: seq<Entry>)
    returns (applied: seq<Entry>)
    requires Holds(p, lazy, t) && TypesOk(env.types) && Deferrable(env.types, t) && left == Left(env, t)
    modifies p`lazyCnt, lazy
    ensures Holds(p, lazy, left) && |left| == p.lazyCnt && Splits(env, t, applied, left)
  {
    var size := p.lazyCnt;
    p.lazyCnt := 0;
    NeverStops(env, t, |t|);
    UsableIffNoStop(env, true, t);
    var ok;
    ghost var es, rest;
    ok, applied, es, rest := DoRelocs(p, p.lazy, true, size, env, _ => 0);
    assert es == t;
  }

  /** d's table is the given array, with the given entries. */
  ghost predicate Holds(d: Dso, lazy: array<nat>, t: seq<Entry>)
    reads d`lazy, d`lazyCnt, lazy
  { d.lazy == lazy && 3 * d.lazyCnt <= lazy.Length && Triples(lazy[..], d.lazyCnt) == t }
}
