/** redo_lazy_relocs on the heap: the walk over the list of DSOs with deferred relocations, whatever its links. */
module LazyRedo {
  import opened DepGraph
  import opened Options
  import opened Dsos
  import opened Choices
  import opened LazyRelocs
  import LazyList

  function PtrAt(list: seq<Dso>, k: nat): Dso? { if k < |list| then list[k] else null }

  /** From head, the lazy_next links run through the list and then on to its place `back`; they end if that is its
      length. */
  ghost predicate From(head: Dso?, list: seq<Dso>, back: nat)
    reads list`lazyNext
  {
    && Distinct(list) && back <= |list| && head == PtrAt(list, 0)
    && forall k {:trigger list[k].lazyNext} | 0 <= k < |list| ::
         list[k].lazyNext == if k + 1 < |list| then list[k + 1] else PtrAt(list, back)
  }

  /** The DSOs have tables of their own, with the given entries. */
  ghost predicate Waiting(list: seq<Dso>, lazies: seq<array<nat>>, tabs: seq<seq<Entry>>)
    reads list`lazy, list`lazyCnt, lazies
  {
    && |list| == |lazies| == |tabs| && Distinct(lazies)
    && forall k | 0 <= k < |list| :: Holds(list[k], lazies[k], tabs[k])
  }

  /** A DSO after its visit: without a table, or with what is left in it. */
  ghost predicate Redone(d: Dso, lazy: array<nat>, left: seq<Entry>)
    reads d`lazy, d`lazyCnt, lazy
  { if left == [] then d.lazy == null && d.lazyCnt == 0 else Holds(d, lazy, left) }

  /** One DSO, which may have been visited before: its table is compacted, and it is relinked if entries are left. */
  method RedoOne(p: Dso, head: Dso?, env: Env, ghost lazy: array<nat>, ghost t: seq<Entry>, ghost left: seq<Entry>)
    returns (newHead: Dso?, applied: seq<Entry>)
    requires TypesOk(env.types) && Deferrable(env.types, t) && left == Left(env, t)
    requires if p.lazy == null then t == [] && p.lazyCnt == 0 else Holds(p, lazy, t)
    modifies p`lazy, p`lazyCnt, p`lazyNext, lazy
    ensures Redone(p, lazy, left) && Splits(env, t, applied, left)
    ensures if left == [] then newHead == head && p.lazyNext == null else newHead == p && p.lazyNext == head
  {
    applied := [];
    if p.lazy != null {
      applied := RedoTable(p, env, lazy, t, left);
    }
    if p.lazyCnt > 0 {
      p.lazyNext := head;
      newHead := p;
    } else {
      p.lazy := null;
      p.lazyNext := null;
      newHead := head;
    }
  }

  // ---------- the links as a value

  function Ptr(list: seq<Dso>, o: Option<nat>): Dso? { if o.Some? then PtrAt(list, o.value) else null }

  ghost predicate Mirrors(list: seq<Dso>, f: LazyList.Links<nat>)
    reads list`lazyNext
  { forall k {:trigger f(k)} | 0 <= k < |list| :: list[k].lazyNext == Ptr(list, f(k)) }

  /** The first m DSOs have been visited. */
  ghost predicate Tables(list: seq<Dso>, lazies: seq<array<nat>>, tabs: seq<seq<Entry>>, left: seq<seq<Entry>>, m: nat)
    reads list`lazy, list`lazyCnt, lazies
  {
    && m <= |list| == |lazies| == |tabs| == |left|
    && (forall k | 0 <= k < m :: Redone(list[k], lazies[k], left[k]))
    && (forall k | m <= k < |list| :: Holds(list[k], lazies[k], tabs[k]))
  }

  function LeftAll(env: Dso -> Env, list: seq<Dso>, tabs: seq<seq<Entry>>): (r: seq<seq<Entry>>)
    requires |list| == |tabs|
    ensures |r| == |list| && forall k | 0 <= k < |list| :: r[k] == Left(env(list[k]), tabs[k])
  { seq(|list|, k requires 0 <= k < |list| => Left(env(list[k]), tabs[k])) }

  ghost predicate EnvsOk(env: Dso -> Env, types: Types, list: seq<Dso>, tabs: seq<seq<Entry>>) {
    && TypesOk(types) && |list| == |tabs|
    && forall k | 0 <= k < |list| :: env(list[k]).types == types && Deferrable(types, tabs[k])
  }

  /** The visit of place d, the first m places having been visited. */
  method RedoVisit(p: Dso, head: Dso?, env: Env, ghost list: seq<Dso>, ghost lazies: seq<array<nat>>,
                   ghost tabs: seq<seq<Entry>>, ghost left: seq<seq<Entry>>, ghost m: nat, ghost d: nat)
    returns (newHead: Dso?, applied: seq<Entry>)
    requires Distinct(list) && Distinct(lazies) && Tables(list, lazies, tabs, left, m) && d <= m && d < |list|
    requires p == list[d] && TypesOk(env.types) && Deferrable(env.types, tabs[d]) && left[d] == Left(env, tabs[d])
    modifies p`lazy, p`lazyCnt, p`lazyNext, lazies[d]
    ensures Tables(list, lazies, tabs, left, if d < m then m else m + 1)
    ensures if d < m then applied == [] else Splits(env, tabs[d], applied, left[d])
    ensures if left[d] == [] then newHead == head && p.lazyNext == null else newHead == p && p.lazyNext == head
  {
    ghost var t := if d < m then left[d] else tabs[d];
    if d < m {
      LeftAgain(env, tabs[d], left[d]);
      assert Redone(list[d], lazies[d], left[d]);
    } else {
      assert Holds(list[d], lazies[d], tabs[d]);
    }
    newHead, applied := RedoPlace(p, head, env, list, lazies, tabs, left, m, d, t);
  }

  /** Looking again at what is left leaves all of it. */
  lemma LeftAgain(env: Env, t: seq<Entry>, left: seq<Entry>)
    requires TypesOk(env.types) && left == Left(env, t)
    ensures Left(env, left) == left && Deferrable(env.types, left)
    ensures forall applied :: Splits(env, left, applied, left) ==> applied == []
  {
    SelectIdempotent(env, true, t, |t|);
    DeferredIsDeferrable(env, true, t, |t|);
    SelectMissed(env, true, t, |t|);
    NoneFound(env, left);
  }

  lemma {:induction false} SelectMissed(env: Env, has: bool, es: seq<Entry>, i: nat)
    requires i <= |es|
    ensures AllMissed(env, Select(env, has, Defer, es, i))
  {
    if i > 0 {
      SelectMissed(env, has, es, i - 1);
      assert Judge(env, has, es[i - 1]) == Defer ==> Missed(env, es[i - 1]);
    }
  }

  ghost predicate AllMissed(env: Env, es: seq<Entry>) { forall k | 0 <= k < |es| :: Missed(env, es[k]) }

  lemma {:induction false} NoneFound(env: Env, es: seq<Entry>)
    requires AllMissed(env, es)
    ensures Filter(es, FoundIn(env)) == []
  {
    if es != [] {
      NoneFound(env, es[..|es| - 1]);
    }
  }

  method RedoPlace(p: Dso, head: Dso?, env: Env, ghost list: seq<Dso>, ghost lazies: seq<array<nat>>,
                   ghost tabs: seq<seq<Entry>>, ghost left: seq<seq<Entry>>, ghost m: nat, ghost d: nat,
                   ghost t: seq<Entry>)
    returns (newHead: Dso?, applied: seq<Entry>)
    requires Distinct(list) && Distinct(lazies) && Tables(list, lazies, tabs, left, m) && d <= m && d < |list|
    requires p == list[d] && TypesOk(env.types) && Deferrable(env.types, t) && left[d] == Left(env, t)
    requires if p.lazy == null then t == [] && p.lazyCnt == 0 else Holds(p, lazies[d], t)
    modifies p`lazy, p`lazyCnt, p`lazyNext, lazies[d]
    ensures Tables(list, lazies, tabs, left, if d < m then m else m + 1)
    ensures Splits(env, t, applied, left[d])
    ensures if left[d] == [] then newHead == head && p.lazyNext == null else newHead == p && p.lazyNext == head
  {
    newHead, applied := RedoOne(p, head, env, lazies[d], t, left[d]);
  }

  /** The links after a visit. */
  lemma Mirrored(list: seq<Dso>, n0: seq<Dso?>, n1: seq<Dso?>, w: LazyList.Walk, d: nat, kept: bool, head: Dso?,
                 newHead: Dso?)
    requires d < |list| == |n0| == |n1| && head == Ptr(list, w.head)
    requires forall k {:trigger w.f(k)} | 0 <= k < |list| :: n0[k] == Ptr(list, w.f(k))
    requires forall k | 0 <= k < |list| && k != d :: n1[k] == n0[k]
    requires if kept then newHead == list[d] && n1[d] == head else newHead == head && n1[d] == null
    ensures var w1 := LazyList.Visit(w, d, kept);
      && newHead == Ptr(list, w1.head) && forall k {:trigger w1.f(k)} | 0 <= k < |list| :: n1[k] == Ptr(list, w1.f(k))
  {
  }

  ghost function Nexts(list: seq<Dso>): (r: seq<Dso?>)
    reads list`lazyNext
    ensures |r| == |list| && forall k | 0 <= k < |list| :: r[k] == list[k].lazyNext
  { if list == [] then [] else Nexts(list[..|list| - 1]) + [list[|list| - 1].lazyNext] }

  /** One turn of the loop. */
  method RedoTurn(p: Dso, head: Dso?, env: Env, ghost list: seq<Dso>, ghost lazies: seq<array<nat>>,
                  ghost tabs: seq<seq<Entry>>, ghost left: seq<seq<Entry>>, ghost m: nat, ghost d: nat,
                  ghost w: LazyList.Walk)
    returns (newHead: Dso?, applied: seq<Entry>)
    requires Distinct(list) && Distinct(lazies) && Tables(list, lazies, tabs, left, m) && d <= m && d < |list|
    requires p == list[d] && TypesOk(env.types) && Deferrable(env.types, tabs[d]) && left[d] == Left(env, tabs[d])
    requires Mirrors(list, w.f) && head == Ptr(list, w.head)
    modifies p`lazy, p`lazyCnt, p`lazyNext, lazies[d]
    ensures Tables(list, lazies, tabs, left, if d < m then m else m + 1)
    ensures var w1 := LazyList.Visit(w, d, left[d] != []); Mirrors(list, w1.f) && newHead == Ptr(list, w1.head)
    ensures if d < m then applied == [] else Splits(env, tabs[d], applied, left[d])
  {
    ghost var n0 := Nexts(list);
    newHead, applied := RedoVisit(p, head, env, list, lazies, tabs, left, m, d);
    Mirrored(list, n0, Nexts(list), w, d, left[d] != [], head, newHead);
  }

  /** The DSOs at the given places. */
  function Pick(list: seq<Dso>, places: seq<nat>): (r: seq<Dso>)
    requires forall k | 0 <= k < |places| :: places[k] < |list|
    ensures |r| == |places| && forall k | 0 <= k < |places| :: r[k] == list[places[k]]
  { seq(|places|, k requires 0 <= k < |places| => list[places[k]]) }

  /** The links of the places are those of the DSOs there. */
  lemma PickFrom(list: seq<Dso>, f: LazyList.Links<nat>, h: Option<nat>, places: seq<nat>, back: nat, head: Dso?,
                 r: seq<Dso>)
    requires Distinct(list) && LazyList.Lasso(f, h, places, back) && head == Ptr(list, h) && Mirrors(list, f)
    requires (forall k | 0 <= k < |places| :: places[k] < |list|) && r == Pick(list, places)
    ensures From(head, r, back)
  {
    forall i, j | 0 <= i < j < |r| ensures r[i] != r[j] {
      assert places[i] != places[j];
    }
    forall k | 0 <= k < |r| ensures r[k].lazyNext == if k + 1 < |r| then r[k + 1] else PtrAt(r, back) {
      assert list[places[k]].lazyNext == Ptr(list, f(places[k])) && f(places[k]) == LazyList.Succ(places, back, k);
    }
  }

  /** The places with entries left. */
  function Keeps(left: seq<seq<Entry>>): nat -> bool { (k: nat) => k < |left| && left[k] != [] }

  /** What has been applied, visit by visit: the first m visits were of the first m DSOs, each of which had those of its
      entries applied that are not left, and no later visit applied any. */
  ghost predicate Logged(env: Dso -> Env, list: seq<Dso>, tabs: seq<seq<Entry>>, left: seq<seq<Entry>>,
                         log: seq<(Dso, seq<Entry>)>, m: nat)
    requires |list| == |tabs| == |left|
  {
    && m <= |list|
    && (forall k | 0 <= k < |log| && k < m :: log[k].0 == list[k] && Splits(env(list[k]), tabs[k], log[k].1, left[k]))
    && (forall k | m <= k < |log| :: log[k].1 == [])
  }

  method LoggedTurn(p: Dso, head: Dso?, env: Dso -> Env, ghost types: Types, ghost list: seq<Dso>,
                    ghost lazies: seq<array<nat>>, ghost tabs: seq<seq<Entry>>, ghost left: seq<seq<Entry>>,
                    ghost m: nat, ghost d: nat, ghost w: LazyList.Walk, log: seq<(Dso, seq<Entry>)>)
    returns (newHead: Dso?, more: seq<(Dso, seq<Entry>)>)
    requires Distinct(list) && Distinct(lazies) && Tables(list, lazies, tabs, left, m) && d <= m && d < |list|
    requires p == list[d] && EnvsOk(env, types, list, tabs) && left == LeftAll(env, list, tabs)
    requires Mirrors(list, w.f) && head == Ptr(list, w.head) && Logged(env, list, tabs, left, log, m) && m <= |log|
    requires d == m ==> |log| == m
    modifies p`lazy, p`lazyCnt, p`lazyNext, lazies[d]
    ensures Tables(list, lazies, tabs, left, if d < m then m else m + 1)
    ensures var w1 := LazyList.Visit(w, d, left[d] != []); Mirrors(list, w1.f) && newHead == Ptr(list, w1.head)
    ensures Logged(env, list, tabs, left, more, if d < m then m else m + 1) && |more| == |log| + 1
  {
    var applied;
    EnvAt(env, types, list, tabs, left, d);
    newHead, applied := RedoTurn(p, head, env(p), list, lazies, tabs, left, m, d, w);
    more := log + [(p, applied)];
    LogMore(env, list, tabs, left, log, m, d, p, applied);
  }

  lemma EnvAt(env: Dso -> Env, types: Types, list: seq<Dso>, tabs: seq<seq<Entry>>, left: seq<seq<Entry>>, d: nat)
    requires EnvsOk(env, types, list, tabs) && left == LeftAll(env, list, tabs) && d < |list|
    ensures TypesOk(env(list[d]).types) && Deferrable(env(list[d]).types, tabs[d])
    ensures left[d] == Left(env(list[d]), tabs[d])
  {
  }

  lemma LogMore(env: Dso -> Env, list: seq<Dso>, tabs: seq<seq<Entry>>, left: seq<seq<Entry>>,
                log: seq<(Dso, seq<Entry>)>, m: nat, d: nat, p: Dso, applied: seq<Entry>)
    requires |list| == |tabs| == |left| && Logged(env, list, tabs, left, log, m) && m <= |log|
    requires d <= m && d < |list| && p == list[d] && (d == m ==> |log| == m)
    requires if d < m then applied == [] else Splits(env(p), tabs[d], applied, left[d])
    ensures Logged(env, list, tabs, left, log + [(p, applied)], if d < m then m else m + 1)
  {
    var more := log + [(p, applied)];
    forall k | 0 <= k < |more| && k < (if d < m then m else m + 1)
      ensures more[k].0 == list[k] && Splits(env(list[k]), tabs[k], more[k].1, left[k])
    {
      if k < |log| {
        assert more[k] == log[k];
      }
    }
  }

  /** The loop of redo_lazy_relocs. */
  method RedoWalk(lazyHead: Dso?, env: Dso -> Env, ghost types: Types, ghost list: seq<Dso>, ghost back: nat,
                  ghost lazies: seq<array<nat>>, ghost tabs: seq<seq<Entry>>, ghost left: seq<seq<Entry>>,
                  ghost keep: nat -> bool)
    returns (head: Dso?, log: seq<(Dso, seq<Entry>)>, ghost w: LazyList.Walk)
    requires From(lazyHead, list, back) && Waiting(list, lazies, tabs) && EnvsOk(env, types, list, tabs)
    requires left == LeftAll(env, list, tabs) && forall k | 0 <= k < |left| :: keep(k) <==> left[k] != []
    modifies list`lazy, list`lazyCnt, list`lazyNext, lazies
    ensures LazyList.Over(|list|, back, keep, w) && Mirrors(list, w.f) && head == Ptr(list, w.head)
    ensures Tables(list, lazies, tabs, left, |list|)
    ensures Logged(env, list, tabs, left, log, |list|) && |list| <= |log|
  {
    ghost var n := |list|;
    ghost var f: LazyList.Links<nat> := (k: nat) => LazyList.First(n, back, k);
    w := LazyList.Walk(f, None, LazyList.Chain([], 0));
    ghost var s := LazyList.StageStart(n, back, keep, f);
    head, log := null, [];
    var p := lazyHead;
    while p != null
      invariant LazyList.InStage(n, back, keep, w, s) && p == Ptr(list, LazyList.Place(back, s))
      invariant Mirrors(list, w.f) && head == Ptr(list, w.head) && Tables(list, lazies, tabs, left, LazyList.Seen(n, s))
      invariant Logged(env, list, tabs, left, log, LazyList.Seen(n, s)) && LazyList.Seen(n, s) <= |log|
      invariant s.Going? ==> |log| == s.i
      decreases LazyList.ToGo(n, back, s)
    {
      ghost var d, m := LazyList.Place(back, s).value, LazyList.Seen(n, s);
      var next := p.lazyNext;
      ghost var s' := LazyList.StageStep(n, back, keep, w, s);
      assert next == Ptr(list, w.f(d));
      head, log := LoggedTurn(p, head, env, types, list, lazies, tabs, left, m, d, w, log);
      w, s, p := LazyList.Visit(w, d, keep(d)), s', next;
    }
  }

  /** redo_lazy_relocs, on any list: it ends; each table is compacted to exactly the entries still missing, in order;
      and the DSOs on the new list are exactly those that have any. The new list ends too, with the last DSO first,
      unless the old list had a cycle that began at such a DSO. */
  method RedoLazyRelocs(lazyHead: Dso?, env: Dso -> Env, ghost types: Types, ghost list: seq<Dso>, ghost back: nat,
                        ghost lazies: seq<array<nat>>, ghost tabs: seq<seq<Entry>>, ghost left: seq<seq<Entry>>)
    returns (head: Dso?, log: seq<(Dso, seq<Entry>)>, ghost kept: seq<Dso>, ghost back': nat)
    requires From(lazyHead, list, back) && Waiting(list, lazies, tabs) && EnvsOk(env, types, list, tabs)
    requires left == LeftAll(env, list, tabs)
    modifies list`lazy, list`lazyCnt, list`lazyNext, lazies
    ensures forall k | 0 <= k < |list| :: Redone(list[k], lazies[k], left[k]) && Deferrable(types, left[k])
    ensures From(head, kept, back') && forall d | d in kept :: d in list
    ensures forall k | 0 <= k < |list| :: list[k] in kept <==> left[k] != []
    ensures back' < |kept| <==> back < |list| && left[back] != []
    ensures back' == |kept| ==> kept == Pick(list, LazyList.Kept(Keeps(left), |list|))
    ensures Logged(env, list, tabs, left, log, |list|) && |list| <= |log|
  {
    ghost var w;
    head, log, w := RedoWalk(lazyHead, env, types, list, back, lazies, tabs, left, Keeps(left));
    kept, back' := Pick(list, w.c.list), w.c.back;
    PickFrom(list, w.f, w.head, w.c.list, w.c.back, head, kept);
    PickMembers(list, left, w.c.list, kept);
    forall k | 0 <= k < |list| ensures Redone(list[k], lazies[k], left[k]) && Deferrable(types, left[k]) {
      DeferredIsDeferrable(env(list[k]), true, tabs[k], |tabs[k]|);
    }
  }

  lemma PickMembers(list: seq<Dso>, left: seq<seq<Entry>>, places: seq<nat>, kept: seq<Dso>)
    requires Distinct(list) && |list| == |left| && (forall k | 0 <= k < |places| :: places[k] < |list|)
    requires kept == Pick(list, places)
    requires (forall k | 0 <= k < |places| :: left[places[k]] != [])
    requires forall k | 0 <= k < |list| && left[k] != [] :: k in places
    ensures forall k | 0 <= k < |list| :: list[k] in kept <==> left[k] != []
    ensures forall d | d in kept :: d in list
  {
    forall k | 0 <= k < |list| ensures list[k] in kept <==> left[k] != [] {
      if left[k] != [] {
        var j :| 0 <= j < |places| && places[j] == k;
        assert kept[j] == list[k];
      }
      if list[k] in kept {
        var j :| 0 <= j < |kept| && kept[j] == list[k];
        assert list[places[j]] == list[k];
      }
    }
  }
}
