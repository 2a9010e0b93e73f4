/** What the constructor and destructor protocol guarantees over whole runs, in every
    interleaving of any number of threads. */
module CtorRuns {
  import opened DepGraph
  import opened CtorProtocol

  lemma InitInv<D>(hasFini: set<D>)
    ensures Inv(hasFini, Init<D>())
  {
  }

  lemma {:induction false} RunInv<D>(hasFini: set<D>, states: seq<State<D>>, steps: seq<Step<D>>, i: nat)
    requires IsRun(hasFini, states, steps) && i < |states|
    ensures Inv(hasFini, states[i])
  {
    if i == 0 {
      InitInv(hasFini);
    } else {
      RunInv(hasFini, states, steps, i - 1);
      InvStep(hasFini, states[i - 1], steps[i - 1], states[i]);
    }
  }

  /** The DSO whose constructors a Claim step starts. */
  function Claimed<D>(s: State<D>, t: Tid): D
    requires s.Stack(t) != [] && s.Top(t).pos < |s.Top(t).queue|
  { s.Top(t).queue[s.Top(t).pos] }

  /** The graph only grows. */
  lemma {:induction false} GraphGrows<D>(hasFini: set<D>, states: seq<State<D>>, steps: seq<Step<D>>, i: nat, j: nat)
    requires IsRun(hasFini, states, steps) && i <= j < |states|
    ensures Grows(states[i].g, states[j].g)
    decreases j
  {
    if i < j {
      GraphGrows(hasFini, states, steps, i, j - 1);
      assert Next(hasFini, states[j - 1], steps[j - 1], states[j]);
    }
  }

  /** When a thread starts the constructors of u, each dependency v of u that does not itself
      depend on u is constructed already, or is being constructed by that same thread; whatever
      else has been loaded by the time one looks at the graph. */
  lemma DependenciesFirst<D>(hasFini: set<D>, states: seq<State<D>>, steps: seq<Step<D>>, i: nat, j: nat, t: Tid, v: D)
    requires IsRun(hasFini, states, steps) && i < |steps| && steps[i] == Claim(t) && i <= j < |states|
    requires Next(hasFini, states[i], steps[i], states[i + 1])
    requires var u, h := Claimed(states[i], t), states[j].g; u in h && v in h[u] && !Reaches(h, v, u)
    ensures v in states[i].constructed || (v in states[i].visitor && states[i].visitor[v] == t)
  {
    RunInv(hasFini, states, steps, i);
    GraphGrows(hasFini, states, steps, i, j);
    var g, f := states[i].g, states[i].Top(t);
    assert CtorOrder(g, f.root, f.queue) && Claimed(states[i], t) in f.queue;
    ReachesExtends(g, states[j].g, v, Claimed(states[i], t));
    ClaimFindsDependencies(hasFini, states[i], t, states[i + 1], v);
  }

  lemma {:induction false} ClaimsGrow<D>(hasFini: set<D>, states: seq<State<D>>, steps: seq<Step<D>>, i: nat, j: nat)
    requires IsRun(hasFini, states, steps) && i <= j < |states|
    ensures states[i].claims <= states[j].claims
    decreases j
  {
    if i < j {
      ClaimsGrow(hasFini, states, steps, i, j - 1);
      assert Next(hasFini, states[j - 1], steps[j - 1], states[j]);
    }
  }

  /** No DSO's constructors are started twice in a run. */
  lemma ConstructorsAtMostOnce<D>(hasFini: set<D>, states: seq<State<D>>, steps: seq<Step<D>>,
                                  i: nat, j: nat, t: Tid, t': Tid)
    requires IsRun(hasFini, states, steps) && i < j < |steps|
    requires steps[i] == Claim(t) && Next(hasFini, states[i], steps[i], states[i + 1])
    requires steps[j] == Claim(t') && Next(hasFini, states[j], steps[j], states[j + 1])
    ensures Claimed(states[i], t) != Claimed(states[j], t')
  {
    ClaimsGrow(hasFini, states, steps, i + 1, j);
    RunInv(hasFini, states, steps, j);
    var c := states[i + 1].claims;
    assert c[|c| - 1] == Claimed(states[i], t) && states[j].claims[|c| - 1] in states[j].claims;
  }

  /** Once shutting_down is set the fini list never changes. */
  lemma {:induction false} FiniListFrozen<D>(hasFini: set<D>, states: seq<State<D>>, steps: seq<Step<D>>,
                                             i: nat, j: nat)
    requires IsRun(hasFini, states, steps) && i <= j < |states| && states[i].exit.Exiting?
    ensures states[j].exit.Exiting? && states[j].exit.tid == states[i].exit.tid && states[j].fini == states[i].fini
    decreases j
  {
    if i < j {
      FiniListFrozen(hasFini, states, steps, i, j - 1);
      assert Next(hasFini, states[j - 1], steps[j - 1], states[j]);
    }
  }

  // ---------- destructors

  /** x occurs ahead of y in s. */
  ghost predicate Before<D>(s: seq<D>, x: D, y: D) {
    exists i, j :: 0 <= i < j < |s| && s[i] == x && s[j] == y
  }

  lemma {:induction false} FiniListReverses<D>(hasFini: set<D>, claims: seq<D>, a: nat, b: nat)
    requires a < b < |FiniList(hasFini, claims)|
    ensures Before(claims, FiniList(hasFini, claims)[b], FiniList(hasFini, claims)[a])
  {
    var n := |claims| - 1;
    var front := FiniList(hasFini, claims[..n]);
    if claims[n] !in hasFini {
      FiniListReverses(hasFini, claims[..n], a, b);
      var i, j :| 0 <= i < j < n && claims[..n][i] == front[b] && claims[..n][j] == front[a];
      assert claims[i] == front[b] && claims[j] == front[a];
    } else if a == 0 {
      FiniInClaims(hasFini, claims[..n], front[b - 1]);
      var i :| 0 <= i < n && claims[..n][i] == front[b - 1];
      assert claims[i] == front[b - 1];
    } else {
      FiniListReverses(hasFini, claims[..n], a - 1, b - 1);
      var i, j :| 0 <= i < j < n && claims[..n][i] == front[b - 1] && claims[..n][j] == front[a - 1];
      assert claims[i] == front[b - 1] && claims[j] == front[a - 1];
    }
  }

  lemma {:induction false} FiniListComplete<D>(hasFini: set<D>, claims: seq<D>, d: D)
    requires d in claims && d in hasFini
    ensures d in FiniList(hasFini, claims)
  {
    var n := |claims| - 1;
    if d != claims[n] {
      FiniListComplete(hasFini, claims[..n], d);
    }
  }

  lemma {:induction false} OnlyOrdered<D>(s: seq<D>, keep: set<D>, a: nat, b: nat)
    requires a < b < |Only(s, keep)|
    ensures Before(s, Only(s, keep)[a], Only(s, keep)[b])
  {
    var n, o := |s| - 1, Only(s, keep);
    var front := Only(s[..n], keep);
    if b < |front| {
      OnlyOrdered(s[..n], keep, a, b);
      var i, j :| 0 <= i < j < n && s[..n][i] == front[a] && s[..n][j] == front[b];
      assert s[i] == o[a] && s[j] == o[b];
    } else {
      OnlyMembers(s[..n], keep, front[a]);
      var i :| 0 <= i < n && s[..n][i] == front[a];
      assert s[i] == o[a] && s[n] == o[b];
    }
  }

  lemma {:induction false} OnlyKeepsOrder<D>(s: seq<D>, keep: set<D>, i: nat, j: nat)
    requires i < j < |s| && s[i] in keep && s[j] in keep
    ensures Before(Only(s, keep), s[i], s[j])
  {
    var n := |s| - 1;
    var front := Only(s[..n], keep);
    if j < n {
      OnlyKeepsOrder(s[..n], keep, i, j);
      var a, b :| 0 <= a < b < |front| && front[a] == s[i] && front[b] == s[j];
      assert Only(s, keep)[a] == s[i] && Only(s, keep)[b] == s[j];
    } else {
      OnlyMembers(s[..n], keep, s[..n][i]);
      var a :| 0 <= a < |front| && front[a] == s[i];
      assert Only(s, keep)[a] == s[i] && Only(s, keep)[|front|] == s[j];
    }
  }

  lemma BeforeIsStrict<D>(s: seq<D>, x: D, y: D)
    requires Distinct(s) && Before(s, x, y)
    ensures !Before(s, y, x) && x != y
  {
  }

  /** Destructors run in the exact reverse of the order in which constructors were claimed, hence
      never twice, and only for constructed DSOs with a fini entry; when the loop is through,
      they have run for every such DSO. */
  lemma DestructorsReverseClaims<D>(hasFini: set<D>, states: seq<State<D>>, steps: seq<Step<D>>, i: nat)
    requires IsRun(hasFini, states, steps) && i < |states|
    ensures forall a, b | 0 <= a < b < |states[i].dtors| ::
              Before(states[i].claims, states[i].dtors[b], states[i].dtors[a])
    ensures Distinct(states[i].dtors)
    ensures forall d | d in states[i].dtors :: d in states[i].constructed && d in hasFini
    ensures states[i].exit.Exiting? && states[i].exit.rest == [] ==>
              forall d | d in states[i].constructed && d in hasFini :: d in states[i].dtors
  {
    RunInv(hasFini, states, steps, i);
    var s := states[i];
    if s.exit.Exiting? {
      var w := Walked(s);
      forall a, b | 0 <= a < b < |s.dtors| ensures Before(s.claims, s.dtors[b], s.dtors[a]) {
        OnlyOrdered(w, s.constructed, a, b);
        var k, l :| 0 <= k < l < |w| && w[k] == s.dtors[a] && w[l] == s.dtors[b];
        FiniListReverses(hasFini, s.claims, k, l);
      }
      forall d | d in s.dtors ensures d in s.constructed && d in hasFini {
        OnlyMembers(w, s.constructed, d);
        FiniInClaims(hasFini, s.claims, d);
      }
      forall d | s.exit.rest == [] && d in s.constructed && d in hasFini ensures d in s.dtors {
        FiniListComplete(hasFini, s.claims, d);
        assert w == s.fini;
        OnlyMembers(w, s.constructed, d);
      }
    }
    forall a, b | 0 <= a < b < |s.dtors| ensures s.dtors[a] != s.dtors[b] {
      BeforeIsStrict(s.claims, s.dtors[b], s.dtors[a]);
    }
  }

  /** A DSO is destroyed before the dependencies it was built on: if v's destructors have run and
      u, a constructed DSO with a fini entry, depends on v but not the other way round, then u's
      destructors ran earlier. */
  lemma DependentsDestroyedFirst<D>(hasFini: set<D>, states: seq<State<D>>, steps: seq<Step<D>>, i: nat, u: D, v: D)
    requires IsRun(hasFini, states, steps) && i < |states|
    requires u in states[i].g && v in states[i].g[u] && !Reaches(states[i].g, v, u)
    requires u in states[i].constructed && u in hasFini && v in states[i].dtors
    ensures Before(states[i].dtors, u, v)
  {
    RunInv(hasFini, states, steps, i);
    var s := states[i];
    var w := Walked(s);
    OnlyMembers(w, s.constructed, v);
    var b :| 0 <= b < |w| && w[b] == v;
    FiniListComplete(hasFini, s.claims, u);
    var a :| 0 <= a < |s.fini| && s.fini[a] == u;
    var n :| 0 <= n < |s.claims| && s.claims[n] == u;
    assert v in s.claims[..n];
    var m :| 0 <= m < n && s.claims[m] == v;
    assert Before(s.claims, v, u);
    BeforeIsStrict(s.claims, v, u);
    if b <= a {
      assert b < a;
      FiniListReverses(hasFini, s.claims, b, a);
    }
    assert w[a] == u;
    OnlyKeepsOrder(w, s.constructed, a, b);
  }
}
