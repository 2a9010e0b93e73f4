/** The dependency graph among DSOs, and the order the constructor queue must have.

    A graph lists the direct dependencies of every DSO. Cycles are allowed: shared
    libraries may depend on each other. */
module DepGraph {

  type Graph<D> = map<D, seq<D>>

  predicate Closed<D(==)>(g: Graph<D>) {
    forall u, v | u in g && v in g[u] :: v in g
  }

  predicate Distinct<D(==)>(s: seq<D>) {
    forall i, j | 0 <= i < j < |s| :: s[i] != s[j]
  }

  /** v can be reached from u along exactly n dependency edges. */
  ghost predicate ReachesIn<D>(g: Graph<D>, u: D, v: D, n: nat) {
    if n == 0 then u == v
    else u in g && exists w :: w in g[u] && ReachesIn(g, w, v, n - 1)
  }

  ghost predicate Reaches<D>(g: Graph<D>, u: D, v: D) {
    exists n: nat :: ReachesIn(g, u, v, n)
  }

  ghost function ReachSet<D>(g: Graph<D>, u: D): set<D> {
    set v | v in g && Reaches(g, u, v)
  }

  /** What queue_ctors promises of its output for `root`: exactly the DSOs reachable from it,
      once each, and a dependency ahead of its dependent unless the two are on a cycle. */
  ghost predicate CtorOrder<D>(g: Graph<D>, root: D, q: seq<D>) {
    && Distinct(q)
    && (forall x | x in q :: x in g)
    && (forall x | x in g :: x in q <==> Reaches(g, root, x))
    && (forall i, v | 0 <= i < |q| && v in g[q[i]] && !Reaches(g, v, q[i]) :: v in q[..i])
  }

  lemma ReachesRefl<D>(g: Graph<D>, u: D)
    ensures Reaches(g, u, u)
  {
    assert ReachesIn(g, u, u, 0);
  }

  lemma {:induction false} ReachesInTrans<D>(g: Graph<D>, u: D, v: D, w: D, m: nat, n: nat)
    requires ReachesIn(g, u, v, m) && ReachesIn(g, v, w, n)
    ensures ReachesIn(g, u, w, m + n)
    decreases m
  {
    if m > 0 {
      var x :| x in g[u] && ReachesIn(g, x, v, m - 1);
      ReachesInTrans(g, x, v, w, m - 1, n);
    }
  }

  lemma ReachesTrans<D>(g: Graph<D>, u: D, v: D, w: D)
    requires Reaches(g, u, v) && Reaches(g, v, w)
    ensures Reaches(g, u, w)
  {
    var m: nat :| ReachesIn(g, u, v, m);
    var n: nat :| ReachesIn(g, v, w, n);
    ReachesInTrans(g, u, v, w, m, n);
  }

  lemma ReachesEdge<D>(g: Graph<D>, u: D, v: D)
    requires u in g && v in g[u]
    ensures Reaches(g, u, v)
  {
    assert ReachesIn(g, v, v, 0);
    assert ReachesIn(g, u, v, 1);
  }

  // ---------- graphs that grow

  /** More DSOs have been loaded; those of g keep their dependencies. */
  ghost predicate Grows<D>(g: Graph<D>, h: Graph<D>) { forall u | u in g :: u in h && h[u] == g[u] }

  lemma {:induction false} ReachesInExtends<D>(g: Graph<D>, h: Graph<D>, u: D, v: D, n: nat)
    requires Grows(g, h) && Closed(g) && u in g
    ensures ReachesIn(g, u, v, n) <==> ReachesIn(h, u, v, n)
    ensures ReachesIn(g, u, v, n) ==> v in g
  {
    if n > 0 {
      forall w | w in g[u] ensures ReachesIn(g, w, v, n - 1) <==> ReachesIn(h, w, v, n - 1)
                           ensures ReachesIn(g, w, v, n - 1) ==> v in g {
        ReachesInExtends(g, h, w, v, n - 1);
      }
    }
  }

  /** What is loaded later does not change what depends on what. */
  lemma ReachesExtends<D>(g: Graph<D>, h: Graph<D>, u: D, v: D)
    requires Grows(g, h) && Closed(g) && u in g
    ensures Reaches(g, u, v) <==> Reaches(h, u, v)
    ensures Reaches(g, u, v) ==> v in g
  {
    forall n: nat ensures (ReachesIn(g, u, v, n) <==> ReachesIn(h, u, v, n)) && (ReachesIn(g, u, v, n) ==> v in g) {
      ReachesInExtends(g, h, u, v, n);
    }
  }

  /** So a constructor queue stays in order while more DSOs are loaded. */
  lemma CtorOrderExtends<D>(g: Graph<D>, h: Graph<D>, root: D, q: seq<D>)
    requires Grows(g, h) && Closed(g) && root in g && CtorOrder(g, root, q)
    ensures CtorOrder(h, root, q)
  {
    forall x | x in h ensures x in q <==> Reaches(h, root, x) {
      ReachesExtends(g, h, root, x);
    }
    forall i, v | 0 <= i < |q| && v in h[q[i]] && !Reaches(h, v, q[i]) ensures v in q[..i] {
      assert q[i] in q && v in g[q[i]];
      ReachesExtends(g, h, v, q[i]);
    }
  }

  /** A set closed under dependencies holds everything reachable from its members. */
  lemma {:induction false} ClosedSetHoldsReach<D>(g: Graph<D>, s: set<D>, u: D, v: D, n: nat)
    requires u in s && ReachesIn(g, u, v, n)
    requires forall x, y | x in s && x in g && y in g[x] :: y in s
    ensures v in s
    decreases n
  {
    if n > 0 {
      var w :| w in g[u] && ReachesIn(g, w, v, n - 1);
      ClosedSetHoldsReach(g, s, w, v, n - 1);
    }
  }

  lemma {:induction false} DistinctFits<D>(s: seq<D>, t: set<D>)
    requires Distinct(s) && forall x | x in s :: x in t
    ensures |s| <= |t|
  {
    if s != [] {
      var k := |s| - 1;
      assert s[k] in s;
      assert forall x | x in s[..k] :: x in s && x != s[k];
      DistinctFits(s[..k], t - {s[k]});
    }
  }

  lemma DistinctAppend<D>(s: seq<D>, x: D)
    requires Distinct(s) && x !in s
    ensures Distinct(s + [x])
  {
    forall i, j | 0 <= i < j < |s + [x]| ensures (s + [x])[i] != (s + [x])[j] {
      if j == |s| {
        assert s[i] in s;
      }
    }
  }

  lemma {:induction false} SubsetSize<D>(a: set<D>, b: set<D>)
    requires a <= b
    ensures |a| <= |b|
  {
    if a != {} {
      var x :| x in a;
      SubsetSize(a - {x}, b - {x});
    }
  }

  // ---------- selections from a list

  /** The members of s that are in keep, in order. */
  function Only<D(==)>(s: seq<D>, keep: set<D>): seq<D> {
    if s == [] then []
    else Only(s[..|s| - 1], keep) + if s[|s| - 1] in keep then [s[|s| - 1]] else []
  }

  lemma {:induction false} OnlyMembers<D>(s: seq<D>, keep: set<D>, x: D)
    ensures x in Only(s, keep) <==> x in s && x in keep
  {
    if s != [] {
      OnlyMembers(s[..|s| - 1], keep, x);
      assert s == s[..|s| - 1] + [s[|s| - 1]];
    }
  }

  /** A selection has no repeats exactly when no selected member occurs twice. */
  lemma {:induction false} OnlyDistinct<D>(s: seq<D>, keep: set<D>)
    ensures Distinct(Only(s, keep)) <==> forall i, j | 0 <= i < j < |s| && s[i] in keep :: s[i] != s[j]
  {
    if s != [] {
      var n := |s| - 1;
      OnlyDistinct(s[..n], keep);
      OnlyMembers(s[..n], keep, s[n]);
      if s[n] in keep {
        DistinctSnoc(Only(s[..n], keep), s[n]);
      }
      RepeatsSnoc(s, keep);
    }
  }

  lemma DistinctSnoc<D>(s: seq<D>, x: D)
    ensures Distinct(s + [x]) <==> Distinct(s) && x !in s
  {
    if Distinct(s + [x]) {
      forall i, j | 0 <= i < j < |s| ensures s[i] != s[j] {
        assert (s + [x])[i] != (s + [x])[j];
      }
      forall i | 0 <= i < |s| ensures s[i] != x {
        assert (s + [x])[i] != (s + [x])[|s|];
      }
    } else if Distinct(s) && x !in s {
      DistinctAppend(s, x);
    }
  }

  lemma RepeatsSnoc<D>(s: seq<D>, keep: set<D>)
    requires s != []
    ensures var n := |s| - 1;
      (forall i, j | 0 <= i < j < |s| && s[i] in keep :: s[i] != s[j]) <==>
      (forall i, j | 0 <= i < j < n && s[..n][i] in keep :: s[..n][i] != s[..n][j])
      && (s[n] in keep ==> s[n] !in s[..n])
  {
    var n := |s| - 1;
    if s[n] in keep && s[n] in s[..n] {
      var i :| 0 <= i < n && s[..n][i] == s[n];
      assert s[i] == s[n];
    }
    if forall i, j | 0 <= i < j < |s| && s[i] in keep :: s[i] != s[j] {
      forall i, j | 0 <= i < j < n && s[..n][i] in keep ensures s[..n][i] != s[..n][j] {
        assert s[i] != s[j];
      }
    }
    if (forall i, j | 0 <= i < j < n && s[..n][i] in keep :: s[..n][i] != s[..n][j])
      && (s[n] in keep ==> s[n] !in s[..n]) {
      forall i, j | 0 <= i < j < |s| && s[i] in keep ensures s[i] != s[j] {
        assert s[i] == s[..n][i] && (j < n ==> s[j] == s[..n][j]);
      }
    }
  }
}
