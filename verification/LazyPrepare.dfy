/** The lazy part of dlopen: the DSO and its dependencies that are not relocated yet get tables for deferred
    relocations. */
module LazyPrepare {
  import opened DepGraph
  import opened BfsList
  import opened Options
  import opened Dsos
  import opened LazyRelocs
  import opened LazyRedo
  import opened LazyList

  // ---------- which DSOs are prepared twice

  /** What can be seen beforehand: p, when eligible, is not below itself, and no eligible DSO is a direct dependency of
      p twice. */
  ghost predicate PreparesOnce<D>(g: Graph<D>, p: D, eligible: set<D>)
    requires p in g
  {
    && (p in eligible ==> !Below(g, p, p))
    && (forall a, b | 0 <= a < b < |g[p]| && g[p][a] in eligible :: g[p][a] != g[p][b])
  }

  /** dlopen prepares p and then its dependency list, as far as eligible. This is when it prepares no DSO twice. */
  lemma PreparedOnce<D>(g: Graph<D>, p: D, deps: seq<D>, eligible: set<D>)
    requires BfsDeps(g, p, deps)
    ensures Distinct(Only([p] + deps, eligible)) <==> PreparesOnce(g, p, eligible)
  {
    var s := [p] + deps;
    OnlyDistinct(s, eligible);
    if forall i, j | 0 <= i < j < |s| && s[i] in eligible :: s[i] != s[j] {
      forall k | 0 <= k < |deps| && p in eligible ensures deps[k] != p {
        assert s[0] != s[k + 1];
      }
      forall a, b | 0 <= a < b < |g[p]| && g[p][a] in eligible ensures g[p][a] != g[p][b] {
        assert s[a + 1] == deps[a] == g[p][a] && s[b + 1] == deps[b] == g[p][b];
      }
    } else {
      var i, j :| 0 <= i < j < |s| && s[i] in eligible && s[i] == s[j];
      if i == 0 {
        assert deps[j - 1] == p && p in deps;
      } else {
        assert deps[i - 1] == deps[j - 1] && j - 1 < |g[p]|;
        assert g[p][i - 1] == g[p][j - 1];
      }
    }
  }

  /** On a cycle of two DSOs, opening one of them loses an older list: dlopen prepares p, q and p again, after which the
      links go round p and q for ever and x is on no list. */
  lemma CycleLosesList<D>(p: D, q: D, x: D)
    requires p != q && p != x && q != x
    ensures var g := map[p := [q], q := [p], x := []];
      BfsDeps(g, p, [q, p]) && PushAll(Chain([x], 1), [p, q, p]) == Chain([p, q], 0)
  {
    var g := map[p := [q], q := [p], x := []];
    ReachesRefl(g, q);
    ReachesEdge(g, q, p);
    var low := {p, q};
    forall y | y in g ensures y in [q, p] <==> Below(g, p, y) {
      if Below(g, p, y) {
        var d :| d in g[p] && Reaches(g, d, y);
        var n: nat :| ReachesIn(g, d, y, n);
        ClosedSetHoldsReach(g, low, d, y, n);
      }
    }
    assert PushAll(Chain([x], 1), [p]) == Chain([p, x], 2) by { assert [p][..0] == []; }
    assert PushAll(Chain([x], 1), [p, q]) == Chain([q, p, x], 3) by { assert [p, q][..1] == [p]; }
    assert [p, q, p][..2] == [p, q];
    assert IndexOf([q, p, x], p) == 1 by { assert [q, p, x][1..] == [p, x]; }
    assert [q, p, x][..1] == [q];
  }

  /** A direct dependency that is listed twice loses even p. */
  lemma RepeatLosesList<D>(p: D, q: D, x: D)
    requires p != q && p != x && q != x
    ensures var g := map[p := [q, q], q := [], x := []];
      BfsDeps(g, p, [q, q]) && PushAll(Chain([x], 1), [p, q, q]) == Chain([q], 0)
  {
    var g := map[p := [q, q], q := [], x := []];
    ReachesRefl(g, q);
    forall y | y in g ensures y in [q, q] <==> Below(g, p, y) {
      if Below(g, p, y) {
        var d :| d in g[p] && Reaches(g, d, y);
        var n: nat :| ReachesIn(g, d, y, n);
        ClosedSetHoldsReach(g, {q}, d, y, n);
      }
    }
    assert PushAll(Chain([x], 1), [p]) == Chain([p, x], 2) by { assert [p][..0] == []; }
    assert PushAll(Chain([x], 1), [p, q]) == Chain([q, p, x], 3) by { assert [p, q][..1] == [p]; }
    assert [p, q, q][..2] == [p, q];
    assert IndexOf([q, p, x], q) == 0;
  }

  // ---------- on the heap

  function Opt(d: Dso?): Option<Dso> { if d == null then None else Some(d) }

  ghost predicate Follows(all: set<Dso>, f: Links<Dso>)
    reads all`lazyNext
  { forall d {:trigger f(d)} | d in all :: f(d) == Opt(d.lazyNext) }

  /** The list on the heap is the list of its links. */
  lemma FromLasso(all: set<Dso>, f: Links<Dso>, head: Dso?, list: seq<Dso>, back: nat)
    requires Follows(all, f) && forall d | d in list :: d in all
    ensures From(head, list, back) <==> Lasso(f, Opt(head), list, back)
  {
    if From(head, list, back) {
      forall k | 0 <= k < |list| ensures f(list[k]) == Succ(list, back, k) {
        assert f(list[k]) == Opt(list[k].lazyNext);
      }
    }
    if Lasso(f, Opt(head), list, back) {
      forall k | 0 <= k < |list| ensures list[k].lazyNext == if k + 1 < |list| then list[k + 1] else PtrAt(list, back) {
        assert f(list[k]) == Opt(list[k].lazyNext) && f(list[k]) == Succ(list, back, k);
      }
    }
  }

  /** Tables are not shared. */
  ghost predicate OwnTables(all: set<Dso>)
    reads all`lazy
  { forall d, e | d in all && e in all && d != e && d.lazy != null :: d.lazy != e.lazy }

  /** prepare_lazy. */
  method PrepareLazy(p: Dso, head: Dso?, ghost all: set<Dso>) returns (newHead: Dso?)
    requires p in all && OwnTables(all)
    modifies p`lazy, p`lazyNext
    ensures OwnTables(all)
    ensures p.bindNow ==> newHead == head && p.lazy == old(p.lazy) && p.lazyNext == old(p.lazyNext)
    ensures !p.bindNow ==> p.lazy != null && fresh(p.lazy) && p.lazy.Length == 3 * CapacityOf(p)
    ensures !p.bindNow ==> newHead == p && p.lazyNext == head
  {
    if p.bindNow {
      return head;
    }
    p.lazy := new nat[3 * (p.relSize / 2 + p.relaSize / 3 + p.pltSize / 2 + 1)];
    p.lazyNext := head;
    newHead := p;
  }

  /** The DSOs that get a table. */
  ghost function Eligible(all: set<Dso>): set<Dso>
    reads all`relocated
  { set d | d in all && !d.relocated && !d.bindNow }

  /** The links and the head are as given, and every DSO of xs has an empty table of its own with room for all its
      relocations. */
  ghost predicate Prepared(all: set<Dso>, f: Links<Dso>, h: Option<Dso>, xs: seq<Dso>, head: Dso?)
    reads all`lazyNext, all`lazy, all`lazyCnt
  {
    && Follows(all, f) && h == Opt(head) && OwnTables(all)
    && forall d | d in all && d in xs :: d.lazy != null && d.lazy.Length == 3 * CapacityOf(d) && d.lazyCnt == 0
  }

  /** One DSO of the loop. */
  method PrepareNext(q: Dso, head: Dso?, ghost all: set<Dso>, ghost f: Links<Dso>, ghost h: Option<Dso>,
                     ghost xs: seq<Dso>)
    returns (newHead: Dso?)
    requires q in all && Prepared(all, f, h, xs, head) && (!q.relocated ==> q.lazyCnt == 0)
    modifies q`lazy, q`lazyNext
    ensures if q.relocated || q.bindNow then Prepared(all, f, h, xs, newHead) && q.lazy == old(q.lazy)
            else Prepared(all, With(f, q, h), Some(q), xs + [q], newHead)
  {
    newHead := head;
    if !q.relocated {
      newHead := PrepareLazy(q, head, all);
    }
  }

  lemma LinkAllOnly(f: Links<Dso>, h: Option<Dso>, s: seq<Dso>, q: Dso, keep: set<Dso>)
    ensures var b, b1 := LinkAll(f, h, Only(s, keep)), LinkAll(f, h, Only(s + [q], keep));
      if q in keep then b1 == (With(b.0, q, b.1), Some(q)) && Only(s + [q], keep) == Only(s, keep) + [q]
      else b1 == b && Only(s + [q], keep) == Only(s, keep)
  {
    assert (s + [q])[..|s|] == s;
    if q in keep {
      var xs := Only(s, keep) + [q];
      assert xs[..|xs| - 1] == Only(s, keep);
    } else {
      assert Only(s + [q], keep) == Only(s, keep);
    }
  }

  /** The DSOs of s have been prepared, as far as they are in keep. */
  ghost predicate PreparedUpTo(all: set<Dso>, f: Links<Dso>, h: Option<Dso>, s: seq<Dso>, keep: set<Dso>, head: Dso?)
    reads all`lazyNext, all`lazy, all`lazyCnt
  { var xs := Only(s, keep); var b := LinkAll(f, h, xs); Prepared(all, b.0, b.1, xs, head) }

  method PrepareTurn(q: Dso, head: Dso?, ghost all: set<Dso>, ghost f: Links<Dso>, ghost h: Option<Dso>,
                     ghost s: seq<Dso>, ghost keep: set<Dso>)
    returns (newHead: Dso?)
    requires q in all && PreparedUpTo(all, f, h, s, keep, head) && (!q.relocated ==> q.lazyCnt == 0)
    requires q in keep <==> !q.relocated && !q.bindNow
    modifies q`lazy, q`lazyNext
    ensures PreparedUpTo(all, f, h, s + [q], keep, newHead) && (q !in keep ==> q.lazy == old(q.lazy))
  {
    LinkAllOnly(f, h, s, q, keep);
    ghost var xs := Only(s, keep);
    ghost var b := LinkAll(f, h, xs);
    newHead := PrepareNext(q, head, all, b.0, b.1, xs);
  }

  /** The loop over the DSO and its dependency list. */
  method PrepareAll(p: Dso, lazyHead: Dso?, ghost all: set<Dso>, ghost f: Links<Dso>, ghost keep: set<Dso>)
    returns (head: Dso?)
    requires p in all && (forall d | d in p.deps :: d in all) && (forall d | d in all && !d.relocated :: d.lazyCnt == 0)
    requires Follows(all, f) && OwnTables(all) && forall d | d in all :: d in keep <==> !d.relocated && !d.bindNow
    modifies all`lazy, all`lazyNext
    ensures PreparedUpTo(all, f, Opt(lazyHead), [p] + p.deps, keep, head)
    ensures forall d | d in all && d !in keep :: d.lazy == old(d.lazy)
  {
    head := PrepareTurn(p, lazyHead, all, f, Opt(lazyHead), [], keep);
    assert [] + [p] == [p];
    head := PrepareRest(p.deps, head, all, f, Opt(lazyHead), [p], keep);
  }

  method PrepareRest(deps: seq<Dso>, start: Dso?, ghost all: set<Dso>, ghost f: Links<Dso>, ghost h: Option<Dso>,
                     ghost done: seq<Dso>, ghost keep: set<Dso>)
    returns (head: Dso?)
    requires (forall d | d in deps :: d in all) && PreparedUpTo(all, f, h, done, keep, start)
    requires forall d | d in all :: (!d.relocated ==> d.lazyCnt == 0) && (d in keep <==> !d.relocated && !d.bindNow)
    modifies all`lazy, all`lazyNext
    ensures PreparedUpTo(all, f, h, done + deps, keep, head)
    ensures forall d | d in all && d !in keep :: d.lazy == old(d.lazy)
  {
    head := start;
    ghost var s := done;
    var i := 0;
    while i < |deps|
      invariant 0 <= i <= |deps| && s == done + deps[..i] && PreparedUpTo(all, f, h, s, keep, head)
      invariant forall d | d in all && d !in keep :: d.lazy == old(d.lazy)
    {
      head := PrepareTurn(deps[i], head, all, f, h, s, keep);
      s := s + [deps[i]];
      i := i + 1;
    }
    assert s == done + deps;
  }

  /** dlopen with RTLD_LAZY. The list afterwards is the prepared DSOs, the last one first, followed by the old list, if
      and only if no DSO is prepared twice. Otherwise its links never end, and every DSO of the old list is lost. */
  method PrepareDeps(p: Dso, lazyHead: Dso?, ghost all: set<Dso>, ghost g: Graph<Dso>, ghost list: seq<Dso>,
                     ghost back: nat)
    returns (head: Dso?, ghost c: Chain<Dso>, ghost keep: set<Dso>, ghost xs: seq<Dso>)
    requires p in all && BfsDeps(g, p, p.deps) && (forall d | d in p.deps :: d in all) && OwnTables(all)
    requires forall d | d in all && !d.relocated :: d.lazyCnt == 0
    requires From(lazyHead, list, back) && forall d | d in list :: d in all && d.relocated
    modifies all`lazy, all`lazyNext
    ensures keep == (if p.relocated then {} else Eligible(all)) && xs == Only([p] + p.deps, keep)
    ensures From(head, c.list, c.back) && c == PushAll(Chain(list, back), xs)
    ensures From(head, OnTop(xs, list), |xs| + back) <==> PreparesOnce(g, p, keep)
    ensures !PreparesOnce(g, p, keep) ==> c.back < |c.list| && forall d | d in list :: d !in c.list
    ensures OwnTables(all) && forall d | d in c.list :: d in all
    ensures forall d | d in all && d in xs :: d.lazy != null && d.lazy.Length == 3 * CapacityOf(d) && d.lazyCnt == 0
    ensures forall d | d in all && d.relocated :: d.lazy == old(d.lazy)
  {
    keep := if p.relocated then {} else Eligible(all);
    xs := Only([p] + p.deps, keep);
    PreparedOnce(g, p, p.deps, keep);
    if p.relocated {
      NoneChosen([p] + p.deps);
      return lazyHead, Chain(list, back), keep, xs;
    }
    head, c := PrepareChain(p, lazyHead, all, list, back, keep, xs);
  }

  lemma NoneChosen<D>(s: seq<D>)
    ensures Only(s, {}) == []
  {
    if Only(s, {}) != [] {
      OnlyMembers(s, {}, Only(s, {})[0]);
    }
  }

  method PrepareChain(p: Dso, lazyHead: Dso?, ghost all: set<Dso>, ghost list: seq<Dso>, ghost back: nat,
                      ghost keep: set<Dso>, ghost xs: seq<Dso>)
    returns (head: Dso?, ghost c: Chain<Dso>)
    requires p in all && (forall d | d in p.deps :: d in all) && OwnTables(all)
    requires forall d | d in all && !d.relocated :: d.lazyCnt == 0
    requires From(lazyHead, list, back) && forall d | d in list :: d in all && d.relocated
    requires keep == Eligible(all) && xs == Only([p] + p.deps, keep)
    modifies all`lazy, all`lazyNext
    ensures From(head, c.list, c.back) && c == PushAll(Chain(list, back), xs)
    ensures From(head, OnTop(xs, list), |xs| + back) <==> Distinct(xs)
    ensures !Distinct(xs) ==> c.back < |c.list| && forall d | d in list :: d !in c.list
    ensures OwnTables(all) && forall d | d in c.list :: d in all
    ensures forall d | d in all && d in xs :: d.lazy != null && d.lazy.Length == 3 * CapacityOf(d) && d.lazyCnt == 0
    ensures forall d | d in all && d.relocated :: d.lazy == old(d.lazy)
  {
    ghost var f := Snapshot(all);
    FromLasso(all, f, lazyHead, list, back);
    forall x | x in xs ensures x !in list && x in all {
      OnlyMembers([p] + p.deps, keep, x);
    }
    head := PrepareAll(p, lazyHead, all, f, keep);
    ghost var b := LinkAll(f, Opt(lazyHead), xs);
    c := PushAll(Chain(list, back), xs);
    PushAllLasso(f, Opt(lazyHead), Chain(list, back), xs);
    Settled(all, b.0, head, list, back, xs, c);
  }

  /** The links at this time. */
  lemma Snapshot(all: set<Dso>) returns (f: Links<Dso>)
    ensures Follows(all, f)
  {
    var links := map d | d in all :: Opt(d.lazyNext);
    f := (d: Dso) => if d in links then links[d] else None;
  }

  lemma Settled(all: set<Dso>, f: Links<Dso>, head: Dso?, list: seq<Dso>, back: nat, xs: seq<Dso>, c: Chain<Dso>)
    requires Follows(all, f) && Lasso(f, Opt(head), c.list, c.back) && c == PushAll(Chain(list, back), xs)
    requires (forall x | x in xs :: x !in list && x in all) && forall d | d in list :: d in all
    ensures From(head, c.list, c.back) && (From(head, OnTop(xs, list), |xs| + back) <==> Distinct(xs))
    ensures !Distinct(xs) ==> c.back < |c.list| && forall d | d in list :: d !in c.list
    ensures forall d | d in c.list :: d in all
  {
    SettledLinks(all, f, Opt(head), list, back, xs, c);
    FromLasso(all, f, head, c.list, c.back);
    FromLasso(all, f, head, OnTop(xs, list), |xs| + back);
  }

  lemma SettledLinks<D>(all: set<D>, f: Links<D>, head: Option<D>, list: seq<D>, back: nat, xs: seq<D>, c: Chain<D>)
    requires Lasso(f, head, c.list, c.back) && c == PushAll(Chain(list, back), xs)
    requires (forall x | x in xs :: x !in list && x in all) && forall d | d in list :: d in all
    ensures Lasso(f, head, OnTop(xs, list), |xs| + back) <==> Distinct(xs)
    ensures !Distinct(xs) ==> c.back < |c.list| && forall d | d in list :: d !in c.list
    ensures (forall d | d in c.list :: d in all) && forall d | d in OnTop(xs, list) :: d in all
  {
    PushAllExact(Chain(list, back), xs);
    OnTopIn(all, xs, list, OnTop(xs, list));
    if Lasso(f, head, OnTop(xs, list), |xs| + back) {
      LassoUnique(f, head, c.list, c.back, OnTop(xs, list), |xs| + back);
    }
  }

  lemma OnTopIn<D>(all: set<D>, xs: seq<D>, list: seq<D>, r: seq<D>)
    requires r == OnTop(xs, list) && (forall x | x in xs :: x in all) && forall d | d in list :: d in all
    ensures forall d | d in r :: d in all
  {
    OnTopMembers(xs, list);
    forall k | 0 <= k < |r| ensures r[k] in all {
      assert k >= |xs| ==> r[k] == r[|xs|..][k - |xs|];
    }
  }

  // ---------- what redo_lazy_relocs needs

  /** The tables of a list are all different, so that redo_lazy_relocs may be called on it. */
  lemma WaitingOf(all: set<Dso>, list: seq<Dso>) returns (lazies: seq<array<nat>>, tabs: seq<seq<Entry>>)
    requires Distinct(list) && OwnTables(all) && forall d | d in list :: d in all && d.lazy != null && Fits(d)
    ensures Waiting(list, lazies, tabs)
  {
    lazies, tabs := TablesOf(list);
    forall i, j | 0 <= i < j < |list| ensures lazies[i] != lazies[j] {
      assert list[i] in all && list[j] in all && list[i] != list[j];
    }
  }

  lemma {:induction false} TablesOf(list: seq<Dso>) returns (lazies: seq<array<nat>>, tabs: seq<seq<Entry>>)
    requires forall d | d in list :: d.lazy != null && Fits(d)
    ensures |lazies| == |tabs| == |list|
    ensures forall k | 0 <= k < |list| :: lazies[k] == list[k].lazy && Holds(list[k], lazies[k], tabs[k])
  {
    if list == [] {
      return [], [];
    }
    var n := |list| - 1;
    lazies, tabs := TablesOf(list[..n]);
    assert Holds(list[n], list[n].lazy, Table(list[n]));
    forall k | 0 <= k < n ensures lazies[k] == list[k].lazy && Holds(list[k], lazies[k], tabs[k]) {
      assert list[..n][k] == list[k];
    }
    lazies, tabs := lazies + [list[n].lazy], tabs + [Table(list[n])];
  }
}
