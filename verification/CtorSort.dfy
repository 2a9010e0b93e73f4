/** The depth-first sort of queue_ctors on values: the state of the loop, its three moves,
    the invariant every move keeps, and what that invariant gives when the stack is empty. */
module CtorSort {
  import opened DepGraph

  /** r is reflexive and closed under appending a dependency edge. The sort is proved for any
      such r; the least one is reachability. */
  ghost predicate Extends<D>(g: Graph<D>, r: set<(D, D)>) {
    && (forall u | u in g :: (u, u) in r)
    && (forall u, v, k | u in g && v in g && (u, v) in r && 0 <= k < |g[v]| :: (u, g[v][k]) in r)
  }

  ghost function ReachPairs<D>(g: Graph<D>): set<(D, D)> {
    set u, v | u in g && v in g && Reaches(g, u, v) :: (u, v)
  }

  lemma ReachPairsExtend<D>(g: Graph<D>)
    requires Closed(g)
    ensures Extends(g, ReachPairs(g))
  {
    var r := ReachPairs(g);
    forall u | u in g ensures (u, u) in r { ReachesRefl(g, u); }
    forall u, v, k | u in g && v in g && (u, v) in r && 0 <= k < |g[v]| ensures (u, g[v][k]) in r {
      ReachesEdge(g, v, g[v][k]);
      ReachesTrans(g, u, v, g[v][k]);
    }
  }

  /** `path` is the working stack, bottom first, with the DSO in hand on top. `next` is the
      next_dep field of the marked DSOs, which are those queued or on the path. */
  datatype Dfs<D> = Dfs(queue: seq<D>, path: seq<D>, next: map<D, nat>)

  /** Each marked DSO is queued or on the path, exactly once. */
  ghost predicate Members<D>(s: Dfs<D>) {
    multiset(s.queue) + multiset(s.path) == multiset(s.next.Keys)
  }

  ghost predicate Positions<D>(g: Graph<D>, r: set<(D, D)>, root: D, s: Dfs<D>) {
    && root in s.next
    && (forall x | x in s.next :: x in g && s.next[x] <= |g[x]| && (root, x) in r)
    && (forall x, j | x in s.next && 0 <= j < s.next[x] :: g[x][j] in s.next)
    && (forall i | 0 <= i < |s.path| :: s.path[i] in s.next)
    && (forall i | 0 <= i < |s.queue| :: s.queue[i] in s.next && s.next[s.queue[i]] == |g[s.queue[i]]|)
  }

  ghost predicate Chain<D>(r: set<(D, D)>, path: seq<D>) {
    forall i, j | 0 <= i <= j < |path| :: (path[i], path[j]) in r
  }

  ghost predicate Sorted<D>(g: Graph<D>, r: set<(D, D)>, q: seq<D>) {
    && (forall i | 0 <= i < |q| :: q[i] in g)
    && (forall i, k | 0 <= i < |q| && 0 <= k < |g[q[i]]| :: g[q[i]][k] in q[..i] || (g[q[i]][k], q[i]) in r)
  }

  ghost predicate Inv<D>(g: Graph<D>, r: set<(D, D)>, root: D, s: Dfs<D>) {
    && Members(s)
    && Positions(g, r, root, s)
    && Chain(r, s.path)
    && Sorted(g, r, s.queue)
  }

  function Start<D>(root: D): Dfs<D> { Dfs([], [root], map[root := 0]) }

  function Top<D>(s: Dfs<D>): D
    requires s.path != []
  { s.path[|s.path| - 1] }

  /** The dependency in hand is marked: step over it. */
  function Advance<D>(s: Dfs<D>): Dfs<D>
    requires s.path != [] && Top(s) in s.next
  { s.(next := s.next[Top(s) := s.next[Top(s)] + 1]) }

  /** The dependency in hand is unmarked: mark it and descend. */
  function Descend<D>(s: Dfs<D>, d: D): Dfs<D> { s.(path := s.path + [d], next := s.next[d := 0]) }

  /** The DSO in hand has no dependency left: queue it and pop. */
  function Emit<D>(s: Dfs<D>): Dfs<D>
    requires s.path != []
  { s.(queue := s.queue + [Top(s)], path := s.path[..|s.path| - 1]) }

  lemma StartInv<D>(g: Graph<D>, r: set<(D, D)>, root: D)
    requires root in g && Extends(g, r)
    ensures Inv(g, r, root, Start(root))
  {
    assert Start(root).next.Keys == {root};
  }

  lemma {:induction false} CountAtMostOne<D>(s: seq<D>, t: multiset<D>)
    requires multiset(s) <= t && forall x | x in s :: t[x] == 1
    ensures Distinct(s)
  {
    if s != [] {
      var k := |s| - 1;
      assert s == s[..k] + [s[k]];
      assert multiset(s) == multiset(s[..k]) + multiset{s[k]};
      CountAtMostOne(s[..k], t);
      assert forall i | 0 <= i < k :: s[i] in multiset(s[..k]);
      assert s[k] in s;
    }
  }

  lemma MembersFacts<D>(s: Dfs<D>)
    requires Members(s)
    ensures Distinct(s.queue) && (forall x | x in s.next :: x in s.queue || x in s.path)
    ensures s.path != [] ==> Top(s) !in s.queue
  {
    forall x | x in s.next ensures x in s.queue || x in s.path {
      assert x in multiset(s.queue) + multiset(s.path);
    }
    CountAtMostOne(s.queue, multiset(s.next.Keys));
    if s.path != [] {
      assert Top(s) in multiset(s.path) && multiset(s.next.Keys)[Top(s)] <= 1;
    }
  }

  /** Queue and stack together hold the marked DSOs once each, so the two ends of the array
      never meet. */
  lemma SlotsSuffice<D>(s: Dfs<D>, reach: set<D>)
    requires Members(s) && s.next.Keys <= reach
    ensures |s.queue| + |s.path| <= |reach|
  {
    assert |multiset(s.queue) + multiset(s.path)| == |multiset(s.next.Keys)|;
    SubsetSize(s.next.Keys, reach);
  }

  lemma AdvanceInv<D>(g: Graph<D>, r: set<(D, D)>, root: D, s: Dfs<D>)
    requires Inv(g, r, root, s) && s.path != []
    requires s.next[Top(s)] < |g[Top(s)]| && g[Top(s)][s.next[Top(s)]] in s.next
    ensures Inv(g, r, root, Advance(s)) && Advance(s).next.Keys == s.next.Keys
  {
    var t := Advance(s);
    assert t.next.Keys == s.next.Keys;
    MembersFacts(s);
    forall x, j | x in t.next && 0 <= j < t.next[x] ensures g[x][j] in t.next {
      if j < s.next[x] {
        assert g[x][j] in s.next;
      }
    }
  }

  lemma DescendInv<D>(g: Graph<D>, r: set<(D, D)>, root: D, s: Dfs<D>, d: D)
    requires Inv(g, r, root, s) && Extends(g, r) && d in g && s.path != []
    requires s.next[Top(s)] < |g[Top(s)]| && d == g[Top(s)][s.next[Top(s)]] && d !in s.next
    ensures Inv(g, r, root, Descend(s, d))
  {
    var p, t := Top(s), Descend(s, d);
    assert p in s.next;
    assert t.next.Keys == s.next.Keys + {d};
    assert multiset(t.path) == multiset(s.path) + multiset{d};
    assert multiset(t.next.Keys) == multiset(s.next.Keys) + multiset{d};
    assert Members(t);
    assert (root, p) in r;
    DescendChain(g, r, s.path, d, s.next[p]);
  }

  lemma DescendChain<D>(g: Graph<D>, r: set<(D, D)>, path: seq<D>, d: D, k: nat)
    requires Extends(g, r) && Chain(r, path) && path != [] && d in g
    requires forall i | 0 <= i < |path| :: path[i] in g
    requires k < |g[path[|path| - 1]]| && d == g[path[|path| - 1]][k]
    ensures Chain(r, path + [d])
  {
    var p := path[|path| - 1];
    forall i | 0 <= i < |path| ensures (path[i], d) in r {
      assert (path[i], p) in r;
    }
  }

  lemma EmitInv<D>(g: Graph<D>, r: set<(D, D)>, root: D, s: Dfs<D>)
    requires Inv(g, r, root, s) && s.path != [] && s.next[Top(s)] == |g[Top(s)]|
    ensures Inv(g, r, root, Emit(s))
  {
    var p, t := Top(s), Emit(s);
    assert s.path == t.path + [p];
    assert multiset(t.queue) == multiset(s.queue) + multiset{p};
    assert Members(t);
    EmitSorted(g, r, root, s);
  }

  lemma EmitSorted<D>(g: Graph<D>, r: set<(D, D)>, root: D, s: Dfs<D>)
    requires Inv(g, r, root, s) && s.path != [] && s.next[Top(s)] == |g[Top(s)]|
    ensures Sorted(g, r, s.queue + [Top(s)])
  {
    var p, q := Top(s), s.queue + [Top(s)];
    forall i, k | 0 <= i < |q| && 0 <= k < |g[q[i]]|
      ensures g[q[i]][k] in q[..i] || (g[q[i]][k], q[i]) in r
    {
      if i < |s.queue| {
        assert q[..i] == s.queue[..i];
      } else {
        assert q[..i] == s.queue;
        assert g[p][k] in s.next;
        MembersFacts(s);
      }
    }
  }

  /** The stack is empty: the queue is the constructor order of the root. */
  lemma DoneIsCtorOrder<D>(g: Graph<D>, root: D, s: Dfs<D>)
    requires Inv(g, ReachPairs(g), root, s) && s.path == []
    ensures CtorOrder(g, root, s.queue) && s.next.Keys == set x | x in s.queue
  {
    MembersFacts(s);
    var done := s.next.Keys;
    forall x, y | x in done && x in g && y in g[x] ensures y in done {
      var j :| 0 <= j < |g[x]| && g[x][j] == y;
      assert x in s.queue && g[x][j] in s.next;
    }
    forall x | x in g && Reaches(g, root, x) ensures x in s.queue {
      var n: nat :| ReachesIn(g, root, x, n);
      ClosedSetHoldsReach(g, done, root, x, n);
    }
    forall i, v | 0 <= i < |s.queue| && v in g[s.queue[i]] && !Reaches(g, v, s.queue[i]) ensures v in s.queue[..i] {
      var k :| 0 <= k < |g[s.queue[i]]| && g[s.queue[i]][k] == v;
    }
  }
}
