/** What a sequence of effects of a dlopen comes to. */
module Effects {
  import opened DepGraph
  import opened Choices

  /** One effect of a dlopen before it is committed: load_library of a DSO, with or without TLS and then with the new
      values of tls_offset and tls_align; prepare_lazy of a DSO; add_syms of a DSO. */
  datatype Effect = Load | LoadTls(offset: int, align: nat) | PrepareLazy(p: nat) | AddSyms(p: nat)

  ghost predicate Loads(e: Effect) { e.Load? || e.LoadTls? }

  /** The number of the last DSO after the first i effects, when it was t at first. */
  ghost function TailAfter(es: seq<Effect>, i: nat, t: nat): (r: nat)
    requires i <= |es|
    ensures r >= t
  { if i == 0 then t else TailAfter(es, i - 1, t) + if Loads(es[i - 1]) then 1 else 0 }

  /** The DSOs with TLS among those loaded. */
  ghost function TlsAfter(es: seq<Effect>, i: nat, t: nat): seq<nat>
    requires i <= |es|
  { if i == 0 then [] else TlsAfter(es, i - 1, t) + if es[i - 1].LoadTls? then [TailAfter(es, i, t)] else [] }

  /** The values of tls_offset and tls_align. */
  ghost function OffsetAfter(es: seq<Effect>, i: nat, offset: int): int
    requires i <= |es|
  { if i == 0 then offset else if es[i - 1].LoadTls? then es[i - 1].offset else OffsetAfter(es, i - 1, offset) }

  ghost function AlignAfter(es: seq<Effect>, i: nat, align: nat): nat
    requires i <= |es|
  { if i == 0 then align else if es[i - 1].LoadTls? then es[i - 1].align else AlignAfter(es, i - 1, align) }

  /** The symbol chain, when it was c at first. */
  ghost function ChainAfter(es: seq<Effect>, i: nat, t: nat, c: seq<nat>): seq<nat>
    requires i <= |es|
  {
    if i == 0 then c
    else
      var r := ChainAfter(es, i - 1, t, c);
      if Adds(es, i - 1, t) && es[i - 1].p !in r then r + [es[i - 1].p] else r
  }

  /** Effect i puts a DSO that is loaded on the chain. */
  ghost predicate Adds(es: seq<Effect>, i: nat, t: nat)
    requires i < |es|
  { es[i].AddSyms? && es[i].p <= TailAfter(es, i, t) }

  /** The DSOs prepared. */
  ghost function PreparedAfter(es: seq<Effect>, i: nat, t: nat): seq<nat>
    requires i <= |es|
  { if i == 0 then [] else PreparedAfter(es, i - 1, t) + if Prepares(es, i - 1, t) then [es[i - 1].p] else [] }

  /** Effect i prepares a DSO that this dlopen has loaded. */
  ghost predicate Prepares(es: seq<Effect>, i: nat, t: nat)
    requires i < |es|
  { es[i].PrepareLazy? && t < es[i].p <= TailAfter(es, i, t) }

  /** The counters and lists that effects change. */
  datatype Sum = Sum(tail: nat, tls: seq<nat>, offset: int, align: nat, chain: seq<nat>, prepared: seq<nat>)

  /** The first i effects take s0 to s. */
  ghost predicate Comes(es: seq<Effect>, i: nat, s0: Sum, s: Sum)
    requires i <= |es|
  {
    && s.tail == TailAfter(es, i, s0.tail) && s.tls == s0.tls + TlsAfter(es, i, s0.tail)
    && s.offset == OffsetAfter(es, i, s0.offset) && s.align == AlignAfter(es, i, s0.align)
    && s.chain == ChainAfter(es, i, s0.tail, s0.chain) && s.prepared == s0.prepared + PreparedAfter(es, i, s0.tail)
  }

  /** One effect, of a dlopen that began with DSO t as the last one. */
  ghost predicate One(e: Effect, t: nat, s: Sum, s': Sum) {
    && OneLists(e, s, s')
    && s'.prepared == s.prepared + if e.PrepareLazy? && t < e.p <= s.tail then [e.p] else []
  }

  ghost predicate OneLists(e: Effect, s: Sum, s': Sum) {
    && s'.tail == s.tail + (if Loads(e) then 1 else 0) && s'.tls == s.tls + (if e.LoadTls? then [s'.tail] else [])
    && s'.offset == (if e.LoadTls? then e.offset else s.offset)
    && s'.align == (if e.LoadTls? then e.align else s.align)
    && s'.chain == s.chain + if e.AddSyms? && e.p <= s.tail && e.p !in s.chain then [e.p] else []
  }

  lemma ComesNext(es: seq<Effect>, i: nat, s0: Sum, s: Sum, s': Sum)
    requires i < |es| && Comes(es, i, s0, s) && One(es[i], s0.tail, s, s')
    ensures Comes(es, i + 1, s0, s')
  {
  }

  // ---------- what that means

  /** Every load adds one DSO. */
  lemma {:induction false} TailCounts(es: seq<Effect>, i: nat, t: nat)
    requires i <= |es|
    ensures TailAfter(es, i, t) == t + |Filter(es[..i], e => Loads(e))|
  {
    if i > 0 {
      TailCounts(es, i - 1, t);
      FilterSnoc(es[..i - 1], es[i - 1], e => Loads(e));
      assert es[..i - 1] + [es[i - 1]] == es[..i];
    }
  }

  lemma LoadsSnoc(es: seq<Effect>, k: nat, i: nat)
    requires k < i <= |es|
    ensures |Filter(es[k..i], (e: Effect) => e.LoadTls?)| ==
      |Filter(es[k..i - 1], (e: Effect) => e.LoadTls?)| + if es[i - 1].LoadTls? then 1 else 0
  {
    FilterSnoc(es[k..i - 1], es[i - 1], (e: Effect) => e.LoadTls?);
    assert es[k..i - 1] + [es[i - 1]] == es[k..i];
  }

  /** Each load with TLS appends its DSO to the list of TLS modules, and nothing else is on it. */
  lemma {:induction false} TlsLaw(es: seq<Effect>, k: nat, i: nat, t: nat)
    requires k <= i <= |es|
    ensures TlsAfter(es, k, t) <= TlsAfter(es, i, t)
    ensures k < i && es[k].LoadTls? ==> TlsAfter(es, k, t) + [TailAfter(es, k + 1, t)] <= TlsAfter(es, i, t)
    ensures |TlsAfter(es, i, t)| - |TlsAfter(es, k, t)| == |Filter(es[k..i], (e: Effect) => e.LoadTls?)|
    decreases i
  {
    if k < i {
      TlsLaw(es, k, i - 1, t);
      LoadsSnoc(es, k, i);
    } else {
      assert es[k..i] == [];
    }
  }

  /** Each effect that prepares a new DSO appends it to the prepared ones, and nothing else is among them. */
  lemma {:induction false} PreparedLaw(es: seq<Effect>, k: nat, i: nat, t: nat)
    requires k <= i <= |es|
    ensures PreparedAfter(es, k, t) <= PreparedAfter(es, i, t)
    ensures k < i && Prepares(es, k, t) ==> PreparedAfter(es, k, t) + [es[k].p] <= PreparedAfter(es, i, t)
    ensures (forall j | k <= j < i :: !Prepares(es, j, t)) ==> PreparedAfter(es, i, t) == PreparedAfter(es, k, t)
    decreases i
  {
    if k < i {
      PreparedLaw(es, k, i - 1, t);
    }
  }

  /** The chain grows by the DSOs that are put on it and were not there, once each. */
  lemma {:induction false} ChainLaw(es: seq<Effect>, i: nat, t: nat, c: seq<nat>)
    requires i <= |es| && Distinct(c)
    ensures c <= ChainAfter(es, i, t, c) && Distinct(ChainAfter(es, i, t, c))
    ensures forall x: nat :: x in ChainAfter(es, i, t, c) <==> x in c || AddedBy(es, i, t, x)
  {
    if i > 0 {
      ChainLaw(es, i - 1, t, c);
      var r := ChainAfter(es, i - 1, t, c);
      forall x: nat ensures AddedBy(es, i, t, x)
        <==> AddedBy(es, i - 1, t, x) || (Adds(es, i - 1, t) && es[i - 1].p == x) {
        AddedNext(es, i, t, x);
      }
      if Adds(es, i - 1, t) && es[i - 1].p !in r {
        DistinctAppend(r, es[i - 1].p);
      }
    }
  }

  ghost predicate AddedBy(es: seq<Effect>, i: nat, t: nat, x: nat)
    requires i <= |es|
  { exists k :: 0 <= k < i && Adds(es, k, t) && es[k].p == x }

  lemma AddedNext(es: seq<Effect>, i: nat, t: nat, x: nat)
    requires 0 < i <= |es|
    ensures AddedBy(es, i, t, x) <==> AddedBy(es, i - 1, t, x) || (Adds(es, i - 1, t) && es[i - 1].p == x)
  {
  }

  /** And in the order in which they are first put there: x is behind y only if y has been put there before. */
  lemma {:induction false} ChainOrder(es: seq<Effect>, i: nat, t: nat, c: seq<nat>, a: nat, b: nat, k: nat)
    requires i <= |es| && Distinct(c) && |c| <= a < b < |ChainAfter(es, i, t, c)|
    requires k < i && Adds(es, k, t) && es[k].p == ChainAfter(es, i, t, c)[b]
    ensures AddedBy(es, k, t, ChainAfter(es, i, t, c)[a])
  {
    var r := ChainAfter(es, i - 1, t, c);
    ChainLaw(es, i - 1, t, c);
    ChainLaw(es, i, t, c);
    if b < |r| {
      if k == i - 1 {
        assert r[b] in r;
        var j :| 0 <= j < i - 1 && Adds(es, j, t) && es[j].p == r[b] by { InChain(es, i - 1, t, c, b); }
        ChainOrder(es, i - 1, t, c, a, b, j);
        AddedMore(es, j, k, t, r[a]);
      } else {
        ChainOrder(es, i - 1, t, c, a, b, k);
      }
    } else {
      InChain(es, i - 1, t, c, a);
      assert k == i - 1;
    }
  }

  lemma AddedMore(es: seq<Effect>, j: nat, k: nat, t: nat, x: nat)
    requires j <= k <= |es| && AddedBy(es, j, t, x)
    ensures AddedBy(es, k, t, x)
  {
  }

  /** What is behind the old chain has been put there. */
  lemma InChain(es: seq<Effect>, i: nat, t: nat, c: seq<nat>, a: nat)
    requires i <= |es| && Distinct(c) && |c| <= a < |ChainAfter(es, i, t, c)|
    ensures AddedBy(es, i, t, ChainAfter(es, i, t, c)[a])
  {
    var r := ChainAfter(es, i, t, c);
    ChainLaw(es, i, t, c);
    assert r[a] in r;
    forall j | 0 <= j < |c| ensures c[j] != r[a] {
      assert r[j] == c[j];
    }
  }
}
