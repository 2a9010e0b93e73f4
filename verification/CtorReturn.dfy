/** When all calls of do_init_fini can return. A call waits for the calls above it on its own stack, and for those above
    a call of another thread that is constructing a DSO it has yet to look at. */
module CtorReturn {
  import opened DepGraph
  import opened CtorProtocol
  import opened CtorProgress

  /** The place in its queue from which the call has yet to look at DSOs. */
  function From<D>(f: Frame<D>): nat { if f.running then f.pos + 1 else f.pos }

  predicate Present<D>(s: State<D>, t: Tid, k: nat) { t in s.frames && k < |s.frames[t]| }

  /** A call above it on its own stack is in w. */
  ghost predicate Above(w: set<(Tid, nat)>, t: Tid, k: nat) { exists n :: k < n && (t, n) in w }

  /** DSO i of its queue is being constructed by call m of another thread u, and call n above that one is in w. */
  predicate Awaits<D(==)>(s: State<D>, w: set<(Tid, nat)>, t: Tid, k: nat, i: nat, u: Tid, m: nat, n: nat) {
    && Present(s, t, k) && u != t && m < n && (u, n) in w
    && var f := s.frames[t][k]; From(f) <= i < |f.queue| && Holds(s, u, m, f.queue[i])
  }

  ghost predicate Behind<D>(s: State<D>, w: set<(Tid, nat)>, t: Tid, k: nat) {
    exists i, u, m, n :: Awaits(s, w, t, k, i, u, m, n)
  }

  /** Call x.1 of thread x.0 waits for a call of w. */
  ghost predicate Tied<D>(s: State<D>, w: set<(Tid, nat)>, x: (Tid, nat)) {
    Present(s, x.0, x.1) && (Above(w, x.0, x.1) || Behind(s, w, x.0, x.1))
  }

  /** Calls that wait for one another. */
  ghost predicate Knot<D>(s: State<D>, w: set<(Tid, nat)>) {
    w != {} && forall x {:trigger Tied(s, w, x)} | x in w :: Tied(s, w, x)
  }

  lemma KnotTies<D>(s: State<D>, w: set<(Tid, nat)>, t: Tid, k: nat)
    requires Knot(s, w) && (t, k) in w
    ensures Present(s, t, k) && (Above(w, t, k) || Behind(s, w, t, k))
  {
    assert Tied(s, w, (t, k));
  }

  // ---------- a knot stays for ever

  /** Only the top of a stack changes. */
  lemma BelowSame<D>(hasFini: set<D>, s: State<D>, step: Step<D>, s': State<D>, t: Tid, k: nat)
    requires Next(hasFini, s, step, s') && Present(s, t, k) && k < |s.frames[t]| - 1
    ensures Present(s', t, k) && s'.frames[t][k] == s.frames[t][k]
  {
  }

  /** A call on top of its stack stays, and goes on by one DSO at most, unless it has come to the end of its queue. */
  lemma TopStep<D>(hasFini: set<D>, s: State<D>, step: Step<D>, s': State<D>, t: Tid, k: nat, i: nat)
    requires FramesOk(s) && Next(hasFini, s, step, s') && Present(s, t, k)
    requires var f := s.frames[t][k];
      From(f) <= i < |f.queue| && f.queue[i] in s.visitor && s.visitor[f.queue[i]] != t
    ensures Present(s', t, k) && s'.frames[t][k].queue == s.frames[t][k].queue && From(s'.frames[t][k]) <= i
  {
    assert FrameOk(s, t, s.frames[t][k]);
  }

  lemma AwaitsStep<D>(hasFini: set<D>, s: State<D>, step: Step<D>, s': State<D>, w: set<(Tid, nat)>, t: Tid, k: nat,
                      i: nat, u: Tid, m: nat, n: nat)
    requires FramesOk(s) && Next(hasFini, s, step, s') && Awaits(s, w, t, k, i, u, m, n) && Present(s, u, n)
    ensures Awaits(s', w, t, k, i, u, m, n)
  {
    assert FrameOk(s, u, s.frames[u][m]);
    TopStep(hasFini, s, step, s', t, k, i);
    BelowSame(hasFini, s, step, s', u, m);
  }

  lemma TiedStep<D>(hasFini: set<D>, s: State<D>, step: Step<D>, s': State<D>, w: set<(Tid, nat)>, t: Tid, k: nat)
    requires FramesOk(s) && Next(hasFini, s, step, s') && Knot(s, w) && (t, k) in w
    ensures Tied(s', w, (t, k))
  {
    KnotTies(s, w, t, k);
    if Above(w, t, k) {
      var n :| k < n && (t, n) in w;
      KnotTies(s, w, t, n);
      BelowSame(hasFini, s, step, s', t, k);
    } else {
      var i, u, m, n :| Awaits(s, w, t, k, i, u, m, n);
      KnotTies(s, w, u, n);
      AwaitsStep(hasFini, s, step, s', w, t, k, i, u, m, n);
    }
  }

  /** Whatever any thread does, calls that wait for one another go on doing so, and never return. */
  lemma {:induction false} KnotForever<D>(hasFini: set<D>, states: seq<State<D>>, steps: seq<Step<D>>, i: nat,
                                          w: set<(Tid, nat)>)
    requires IsPath(hasFini, states, steps) && Ok(hasFini, states[0]) && Knot(states[0], w) && i < |states|
    ensures Knot(states[i], w)
  {
    if i > 0 {
      KnotForever(hasFini, states, steps, i - 1, w);
      PathOk(hasFini, states, steps, i - 1);
      forall x | x in w ensures Tied(states[i], w, x) {
        TiedStep(hasFini, states[i - 1], steps[i - 1], states[i], w, x.0, x.1);
      }
    }
  }

  // ---------- without a knot all calls can return

  /** From s to s' calls have only returned or gone on, and no constructors have been started. */
  ghost predicate Settles<D>(s: State<D>, s': State<D>) {
    forall t: Tid, k: nat {:trigger Present(s', t, k)} | Present(s', t, k) ::
      Present(s, t, k) && Later(s.frames[t][k], s'.frames[t][k])
  }

  predicate Later<D(==)>(f: Frame<D>, f': Frame<D>) {
    f'.queue == f.queue && From(f) <= From(f') && (f'.running ==> f.running && f'.pos == f.pos)
  }

  /** Then no new knot has come about. */
  lemma KnotBefore<D>(s: State<D>, s': State<D>, w: set<(Tid, nat)>)
    requires Settles(s, s') && Knot(s', w)
    ensures Knot(s, w)
  {
    forall x | x in w ensures Tied(s, w, x) {
      KnotTies(s', w, x.0, x.1);
      if Behind(s', w, x.0, x.1) {
        var i, u, m, n :| Awaits(s', w, x.0, x.1, i, u, m, n);
        assert Present(s', u, m) && Awaits(s, w, x.0, x.1, i, u, m, n);
      }
    }
  }

  lemma SettlesStep<D>(hasFini: set<D>, s: State<D>, step: Step<D>, s': State<D>)
    requires Next(hasFini, s, step, s') && (step.Pass? || step.Finish? || step.Leave?)
    ensures Settles(s, s')
  {
  }

  /** Constructors that return at once are not in the way of anybody. */
  lemma SettlesClaim<D>(hasFini: set<D>, s: State<D>, t: Tid, m: State<D>, s': State<D>)
    requires Next(hasFini, s, Claim(t), m) && Next(hasFini, m, Finish(t), s')
    ensures Settles(s, s')
  {
  }

  /** The calls on top of the stacks. */
  ghost function Tops<D>(s: State<D>): set<(Tid, nat)> { set t | t in Inside(s) :: (t, |s.Stack(t)| - 1) }

  lemma TopTied<D(!new)>(hasFini: set<D>, s: State<D>, t: Tid)
    requires FramesOk(s) && Held(s) && s.exit.NotYet? && !CanWork(hasFini, s) && s.Stack(t) != []
    ensures Behind(s, Tops(s), t, |s.Stack(t)| - 1)
  {
    WorkOrWait(hasFini, s, t);
    var p := s.Top(t).queue[s.Top(t).pos];
    var u := s.visitor[p];
    var m := HeldWhere(s, p);
    WorkOrWait(hasFini, s, u);
    TopAwaits(s, t, p, u, m);
  }

  lemma TopAwaits<D>(s: State<D>, t: Tid, p: D, u: Tid, m: nat)
    requires s.Stack(t) != [] && u != t && Holds(s, u, m, p) && !s.Top(u).running
    requires !s.Top(t).running && s.Top(t).pos < |s.Top(t).queue| && s.Top(t).queue[s.Top(t).pos] == p
    ensures Behind(s, Tops(s), t, |s.Stack(t)| - 1)
  {
    var n := |s.Stack(u)| - 1;
    assert u in Inside(s) && (u, n) in Tops(s);
    assert Awaits(s, Tops(s), t, |s.Stack(t)| - 1, s.Top(t).pos, u, m, n);
  }

  /** When no turn can be made, these are a knot. */
  lemma StuckIsKnot<D(!new)>(hasFini: set<D>, s: State<D>)
    requires FramesOk(s) && Held(s) && s.exit.NotYet? && !CanWork(hasFini, s) && Inside(s) != {}
    ensures Knot(s, Tops(s))
  {
    var w := Tops(s);
    forall x | x in w ensures Tied(s, w, x) {
      TopTied(hasFini, s, x.0);
    }
    var t :| t in Inside(s);
    assert (t, |s.Stack(t)| - 1) in w;
  }

  ghost predicate Free<D>(hasFini: set<D>, s: State<D>, n: nat) {
    && Ok(hasFini, s) && s.exit.NotYet? && (forall t | t in s.frames :: t < n)
    && forall w {:trigger Knot(s, w)} :: !Knot(s, w)
  }

  lemma SomeTurn<D(!new)>(hasFini: set<D>, s: State<D>) returns (step: Step<D>, m: State<D>)
    requires Ok(hasFini, s) && s.exit.NotYet? && Inside(s) != {} && !Knot(s, Tops(s))
    ensures IsWork(step) && Next(hasFini, s, step, m)
  {
    if !CanWork(hasFini, s) {
      StuckIsKnot(hasFini, s);
    }
    step, m :| IsWork(step) && Next(hasFini, s, step, m);
  }

  /** One or two turns after which less is left to do, and still no knot. */
  lemma NextTurns<D(!new)>(hasFini: set<D>, s: State<D>, n: nat)
    returns (states: seq<State<D>>, steps: seq<Step<D>>, s': State<D>)
    requires Free(hasFini, s, n) && Inside(s) != {}
    ensures IsPath(hasFini, states, steps) && |steps| > 0 && states[0] == s && states[|steps|] == s'
    ensures Free(hasFini, s', n) && WorkLeft(s', n) < WorkLeft(s, n)
  {
    var step, m := SomeTurn(hasFini, s);
    if step.Claim? {
      states, steps, s' := ClaimTurns(hasFini, s, step.tid, m, n);
    } else {
      s' := m;
      Turn(hasFini, s, step, m, n);
      SettlesStep(hasFini, s, step, m);
      states, steps := [s, m], [step];
    }
    NoKnotAfter(s, s');
  }

  lemma NoKnotAfter<D>(s: State<D>, s': State<D>)
    requires Settles(s, s') && forall w {:trigger Knot(s, w)} :: !Knot(s, w)
    ensures forall w {:trigger Knot(s', w)} :: !Knot(s', w)
  {
    forall w ensures !Knot(s', w) {
      if Knot(s', w) {
        KnotBefore(s, s', w);
      }
    }
  }

  lemma ClaimTurns<D>(hasFini: set<D>, s: State<D>, t: Tid, m: State<D>, n: nat)
    returns (states: seq<State<D>>, steps: seq<Step<D>>, s': State<D>)
    requires Ok(hasFini, s) && s.exit.NotYet? && (forall u | u in s.frames :: u < n) && Next(hasFini, s, Claim(t), m)
    ensures IsPath(hasFini, states, steps) && |steps| > 0 && states[0] == s && states[|steps|] == s'
    ensures Ok(hasFini, s') && s'.exit.NotYet? && (forall u | u in s'.frames :: u < n) && Settles(s, s')
    ensures WorkLeft(s', n) < WorkLeft(s, n)
  {
    Turn(hasFini, s, Claim(t), m, n);
    ClaimRuns(hasFini, s, t, m);
    s' := FinishTurn(hasFini, m, t, n);
    SettlesClaim(hasFini, s, t, m, s');
    states, steps := [s, m, s'], [Claim(t), Finish(t)];
    TwoSteps(hasFini, s, Claim(t), m, Finish(t), s');
  }

  lemma FinishTurn<D>(hasFini: set<D>, s: State<D>, t: Tid, n: nat) returns (s': State<D>)
    requires Ok(hasFini, s) && s.exit.NotYet? && (forall u | u in s.frames :: u < n)
    requires s.Stack(t) != [] && s.Top(t).running && s.Top(t).pos < |s.Top(t).queue|
    ensures Next(hasFini, s, Finish(t), s') && WorkLeft(s', n) < WorkLeft(s, n)
    ensures Ok(hasFini, s') && s'.exit.NotYet? && (forall u | u in s'.frames :: u < n)
  {
    s' := CanFinish(hasFini, s, t);
    Turn(hasFini, s, Finish(t), s', n);
  }

  lemma TwoSteps<D>(hasFini: set<D>, s: State<D>, a: Step<D>, m: State<D>, b: Step<D>, s': State<D>)
    requires Next(hasFini, s, a, m) && Next(hasFini, m, b, s')
    ensures IsPath(hasFini, [s, m, s'], [a, b])
  {
  }

  lemma Turn<D>(hasFini: set<D>, s: State<D>, step: Step<D>, s': State<D>, n: nat)
    requires Ok(hasFini, s) && s.exit.NotYet? && (forall t | t in s.frames :: t < n)
    requires IsWork(step) && Next(hasFini, s, step, s')
    ensures Ok(hasFini, s') && s'.exit.NotYet? && (forall t | t in s'.frames :: t < n)
    ensures WorkLeft(s', n) < WorkLeft(s, n)
  {
    OkStep(hasFini, s, step, s');
    LessLeft(hasFini, s, step, s', n);
  }

  lemma ClaimRuns<D>(hasFini: set<D>, s: State<D>, t: Tid, s': State<D>)
    requires Next(hasFini, s, Claim(t), s')
    ensures s'.Stack(t) != [] && s'.Top(t).running && s'.Top(t).pos < |s'.Top(t).queue|
  {
  }

  /** Some run leads to a state in which no thread is inside do_init_fini. */
  ghost predicate Returns<D>(hasFini: set<D>, s: State<D>, states: seq<State<D>>, steps: seq<Step<D>>) {
    IsPath(hasFini, states, steps) && states[0] == s && Inside(states[|steps|]) == {}
  }

  ghost predicate CanReturn<D(!new)>(hasFini: set<D>, s: State<D>) {
    exists states, steps :: Returns(hasFini, s, states, steps)
  }

  lemma PathJoin<D>(hasFini: set<D>, a: seq<State<D>>, p: seq<Step<D>>, b: seq<State<D>>, q: seq<Step<D>>)
    requires IsPath(hasFini, a, p) && IsPath(hasFini, b, q) && a[|p|] == b[0]
    ensures IsPath(hasFini, a[..|p|] + b, p + q)
  {
    var ss, ts := a[..|p|] + b, p + q;
    forall i | 0 <= i < |ts| ensures Next(hasFini, ss[i], ts[i], ss[i + 1]) {
      if i < |p| {
        assert ss[i] == a[i] && ts[i] == p[i] && ss[i + 1] == a[i + 1];
      } else {
        assert ss[i] == b[i - |p|] && ts[i] == q[i - |p|] && ss[i + 1] == b[i - |p| + 1];
      }
    }
  }

  lemma {:induction false} AllGoHome<D(!new)>(hasFini: set<D>, s: State<D>, n: nat)
    returns (states: seq<State<D>>, steps: seq<Step<D>>)
    requires Free(hasFini, s, n)
    ensures Returns(hasFini, s, states, steps)
    decreases WorkLeft(s, n)
  {
    if Inside(s) == {} {
      return [s], [];
    }
    var a, p, m := NextTurns(hasFini, s, n);
    var b, q := AllGoHome(hasFini, m, n);
    PathJoin(hasFini, a, p, b, q);
    states, steps := a[..|p|] + b, p + q;
  }

  lemma {:induction false} Bound(ts: set<Tid>) returns (n: nat)
    ensures forall t | t in ts :: t < n
  {
    if ts == {} {
      return 0;
    }
    var t :| t in ts;
    n := Bound(ts - {t});
    assert forall u | u in ts :: u == t || u in ts - {t};
    n := if t < n then n else t + 1;
  }

  /** Before exit, all calls of do_init_fini can return if and only if no calls wait for one another. */
  lemma ReturnIff<D(!new)>(hasFini: set<D>, s: State<D>)
    requires Ok(hasFini, s) && s.exit.NotYet?
    ensures CanReturn(hasFini, s) <==> forall w {:trigger Knot(s, w)} :: !Knot(s, w)
  {
    if w :| Knot(s, w) {
      forall states, steps | IsPath(hasFini, states, steps) && states[0] == s
        ensures !Returns(hasFini, s, states, steps)
      {
        KnotForever(hasFini, states, steps, |steps|, w);
        KnotInside(states[|steps|], w);
      }
    } else {
      var n := Bound(s.frames.Keys);
      var states, steps := AllGoHome(hasFini, s, n);
    }
  }

  lemma KnotInside<D>(s: State<D>, w: set<(Tid, nat)>)
    requires Knot(s, w)
    ensures Inside(s) != {}
  {
    var x :| x in w;
    KnotTies(s, w, x.0, x.1);
    assert x.0 in Inside(s);
  }

  // ---------- nested calls

  /** The uppermost call of a knot on a stack waits for another thread. */
  lemma {:induction false} Uppermost<D>(s: State<D>, w: set<(Tid, nat)>, t: Tid, k: nat)
    returns (top: nat, i: nat, u: Tid, m: nat, n: nat)
    requires Knot(s, w) && (t, k) in w
    ensures k <= top && (t, top) in w && Awaits(s, w, t, top, i, u, m, n)
    decreases if t in s.frames then |s.frames[t]| - k else 0
  {
    KnotTies(s, w, t, k);
    if Above(w, t, k) {
      var k' :| k < k' && (t, k') in w;
      KnotTies(s, w, t, k');
      top, i, u, m, n := Uppermost(s, w, t, k');
    } else {
      top := k;
      i, u, m, n :| Awaits(s, w, t, k, i, u, m, n);
    }
  }

  /** A knot takes two threads inside dlopen calls that constructors have made. */
  lemma KnotIsNested<D>(s: State<D>, w: set<(Tid, nat)>)
    requires Knot(s, w)
    ensures !OneNested(s)
  {
    var x :| x in w;
    var _, _, u, m, n := Uppermost(s, w, x.0, x.1);
    var _, _, v, m', n' := Uppermost(s, w, u, n);
    KnotTies(s, w, u, n);
    KnotTies(s, w, v, n');
    assert |s.Stack(u)| >= 2 && |s.Stack(v)| >= 2 && u != v;
  }
}
