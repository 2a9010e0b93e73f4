/** The growing list of extend_bfs_deps on values. */
module BfsList {
  import opened DepGraph

  /** x lies strictly below p: it is reachable from a direct dependency of p. */
  ghost predicate Below<D>(g: Graph<D>, p: D, x: D) {
    p in g && exists d :: d in g[p] && Reaches(g, d, x)
  }

  /** What extend_bfs_deps promises: the direct dependencies first, as given, and then every
      other DSO strictly below p, exactly once each. */
  ghost predicate BfsDeps<D>(g: Graph<D>, p: D, list: seq<D>) {
    && p in g
    && g[p] <= list
    && (forall a, b | 0 <= a < b < |list| && |g[p]| <= b :: list[a] != list[b])
    && (forall x | x in list :: x in g)
    && (forall x | x in g :: x in list <==> Below(g, p, x))
  }

  /** `low` holds the direct dependencies of p and is closed under dependencies. */
  ghost predicate Downward<D>(g: Graph<D>, p: D, low: set<D>) {
    && p in g
    && (forall x | x in low :: x in g)
    && (forall k | 0 <= k < |g[p]| :: g[p][k] in low)
    && (forall x, k | x in low && 0 <= k < |g[x]| :: g[x][k] in low)
  }

  /** The list so far: direct dependencies first, no later entry repeats an earlier one, and
      the first `done` entries have all their dependencies on the list. */
  ghost predicate Grown<D>(g: Graph<D>, p: D, list: seq<D>, done: nat, low: set<D>) {
    && p in g && |g[p]| <= |list|
    && (forall k | 0 <= k < |g[p]| :: list[k] == g[p][k])
    && (forall a, b | 0 <= a < b < |list| && |g[p]| <= b :: list[a] != list[b])
    && (forall k | 0 <= k < |list| :: list[k] in low && list[k] in g)
    && (forall k, j | 0 <= k < done && k < |list| && 0 <= j < |g[list[k]]| :: g[list[k]][j] in list)
  }

  ghost function LowSet<D>(g: Graph<D>, p: D): set<D> { set x | x in g && Below(g, p, x) }

  lemma LowSetDownward<D>(g: Graph<D>, p: D)
    requires Closed(g) && p in g
    ensures Downward(g, p, LowSet(g, p))
  {
    var low := LowSet(g, p);
    forall k | 0 <= k < |g[p]| ensures g[p][k] in low { ReachesRefl(g, g[p][k]); }
    forall x, k | x in low && 0 <= k < |g[x]| ensures g[x][k] in low {
      var d :| d in g[p] && Reaches(g, d, x);
      ReachesEdge(g, x, g[x][k]);
      ReachesTrans(g, d, x, g[x][k]);
    }
  }

  /** A list that needs no further growth is the one promised. */
  lemma GrownIsBfsDeps<D>(g: Graph<D>, p: D, list: seq<D>)
    requires Grown(g, p, list, |list|, LowSet(g, p))
    ensures BfsDeps(g, p, list)
  {
    var s := set x | x in list;
    forall x, y | x in s && x in g && y in g[x] ensures y in s {
      var k :| 0 <= k < |list| && list[k] == x;
      var j :| 0 <= j < |g[x]| && g[x][j] == y;
      assert g[list[k]][j] in list;
    }
    forall x | x in g && Below(g, p, x) ensures x in list {
      var d :| d in g[p] && Reaches(g, d, x);
      var k :| 0 <= k < |g[p]| && g[p][k] == d;
      assert list[k] == d && d in s;
      var n: nat :| ReachesIn(g, d, x, n);
      ClosedSetHoldsReach(g, s, d, x, n);
    }
  }

  /** Appending an unlisted DSO from below keeps the list in shape. */
  lemma AppendGrown<D>(g: Graph<D>, p: D, list: seq<D>, done: nat, low: set<D>, x: D)
    requires Grown(g, p, list, done, low) && done <= |list| && x !in list && x in low && x in g
    ensures Grown(g, p, list + [x], done, low)
  {
    var t := list + [x];
    forall k, j | 0 <= k < done && 0 <= j < |g[t[k]]| ensures g[t[k]][j] in t {
      assert g[list[k]][j] in list;
    }
    forall a, b | 0 <= a < b < |t| && |g[p]| <= b ensures t[a] != t[b] {
      if b == |list| {
        assert list[a] in list;
      }
    }
  }

  /** The list past the direct dependencies is no longer than the set of loaded DSOs. */
  lemma GrownBounded<D>(g: Graph<D>, p: D, list: seq<D>, done: nat, low: set<D>)
    requires Grown(g, p, list, done, low)
    ensures |list| <= |g[p]| + |g.Keys|
  {
    DistinctFits(list[|g[p]|..], g.Keys);
  }

  /** How many entries of s are not on the list, counted with repetition. */
  ghost function Missing<D>(s: seq<D>, list: seq<D>): nat {
    if s == [] then 0 else (if s[0] in list then 0 else 1) + Missing(s[1..], list)
  }

  lemma {:induction false} MissingShrinks<D>(s: seq<D>, list: seq<D>, x: D)
    ensures Missing(s, list + [x]) <= Missing(s, list)
  {
    if s != [] {
      MissingShrinks(s[1..], list, x);
    }
  }

  /** Every DSO reachable from p other than p itself is on its breadth-first list. */
  lemma ReachIsSelfOrBelow<D>(g: Graph<D>, p: D, x: D)
    requires p in g && Reaches(g, p, x)
    ensures x == p || Below(g, p, x)
  {
    var n: nat :| ReachesIn(g, p, x, n);
    if n > 0 {
      var d :| d in g[p] && ReachesIn(g, d, x, n - 1);
      assert Reaches(g, d, x);
    }
  }

  lemma {:induction false} SetOfSeqSize<D>(s: seq<D>)
    ensures |set x | x in s| <= |s|
  {
    if s != [] {
      var k := |s| - 1;
      SetOfSeqSize(s[..k]);
      assert s == s[..k] + [s[k]];
      assert (set x | x in s) == (set x | x in s[..k]) + {s[k]};
    }
  }

  /** The breadth-first list plus one slot for p itself bounds what p can reach. */
  lemma BfsListBoundsReach<D>(g: Graph<D>, p: D, list: seq<D>)
    requires BfsDeps(g, p, list)
    ensures |ReachSet(g, p)| <= |list| + 1
  {
    var s := (set x | x in list) + {p};
    forall x | x in ReachSet(g, p) ensures x in s {
      ReachIsSelfOrBelow(g, p, x);
    }
    SetOfSeqSize(list);
    SubsetSize(ReachSet(g, p), s);
  }

  /** A finished list stays right while more DSOs are loaded. */
  lemma BfsDepsExtends<D>(g: Graph<D>, h: Graph<D>, p: D, list: seq<D>)
    requires Grows(g, h) && Closed(g) && BfsDeps(g, p, list)
    ensures BfsDeps(h, p, list)
  {
    forall x | x in h ensures x in list <==> Below(h, p, x) {
      forall d | d in g[p] ensures (Reaches(g, d, x) <==> Reaches(h, d, x)) && (Reaches(g, d, x) ==> x in g) {
        ReachesExtends(g, h, d, x);
      }
    }
  }
}
