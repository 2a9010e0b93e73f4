/** do_init_fini and __libc_exit_fini as a protocol among threads.

    Every loop turn made under init_fini_lock is one atomic step. Runs whose lock is held over
    several turns are among the runs of these finer steps, so what holds of all of them holds of
    the lock-to-lock runs. Waiting on ctor_cond is a step that is not enabled. */
module CtorProtocol {
  import opened DepGraph

  type Tid = nat

  /** A call of do_init_fini: its queue, the loop index, and whether the constructors of the DSO
      at the index are running, with the lock released. `root` is the queue_ctors argument. */
  datatype Frame<D> = Frame(root: D, queue: seq<D>, pos: nat, running: bool)

  /** `rest` is the part of the fini list from __libc_exit_fini's loop pointer on. */
  datatype Exit<D> = NotYet | Exiting(tid: Tid, rest: seq<D>)

  /** `g` is the dependency graph of the DSOs loaded so far. `visitor` holds the nonzero ctor_visitor fields;
      shutting_down is `exit.Exiting?`; `frames` is each thread's stack of calls, since constructors may call dlopen.
      `claims` and `dtors` record the order in which constructors were claimed and destructors were run. */
  datatype State<D> = State(g: Graph<D>, visitor: map<D, Tid>, constructed: set<D>, fini: seq<D>, exit: Exit<D>,
                            frames: map<Tid, seq<Frame<D>>>, claims: seq<D>, dtors: seq<D>)
  {
    function Stack(t: Tid): seq<Frame<D>> { if t in frames then frames[t] else [] }

    function Top(t: Tid): Frame<D>
      requires Stack(t) != []
    { Stack(t)[|Stack(t)| - 1] }

    function WithTop(t: Tid, f: Frame<D>): map<Tid, seq<Frame<D>>>
      requires Stack(t) != []
    { frames[t := Stack(t)[|Stack(t)| - 1 := f]] }

    /** The thread runs program or constructor code, holding no linker lock. */
    predicate Free(t: Tid) { Stack(t) == [] || Top(t).running }
  }

  datatype Step<D> =
    | Load(g: Graph<D>)                       // load_library and load_deps: the graph has grown
    | Open(tid: Tid, root: D, queue: seq<D>)  // dlopen builds a queue and enters do_init_fini
    | Pass(tid: Tid)                          // the DSO in hand is constructed, or being so by us
    | Claim(tid: Tid)                         // become its visitor and start its constructors
    | Finish(tid: Tid)                        // its constructors have returned
    | Leave(tid: Tid)                         // end of the queue
    | BeginExit(tid: Tid)                     // __libc_exit_fini sets shutting_down
    | RunDtor                                 // the loop of __libc_exit_fini: run destructors
    | SkipDtor                                // ... or pass over a DSO that is not constructed

  function Init<D>(): State<D> { State(map[], map[], {}, [], NotYet, map[], [], []) }

  /** do_init_fini is past its wait with this DSO in hand. */
  predicate InHand<D(==)>(s: State<D>, t: Tid, p: D) {
    && s.exit.NotYet? && s.Stack(t) != []
    && var f := s.Top(t);
       !f.running && f.pos < |f.queue| && f.queue[f.pos] == p && (p in s.visitor ==> s.visitor[p] == t)
  }

  /** `hasFini` are the DSOs with a fini entry. */
  ghost predicate Next<D>(hasFini: set<D>, s: State<D>, step: Step<D>, s': State<D>) {
    match step
    case Load(h) =>
      Grows(s.g, h) && Closed(h) && s' == s.(g := h)
    case Open(t, root, queue) =>
      && s.exit.NotYet? && s.Free(t) && root in s.g && root !in s.constructed
      && CtorOrder(s.g, root, queue)
      && s' == s.(frames := s.frames[t := s.Stack(t) + [Frame(root, queue, 0, false)]])
    case Pass(t) =>
      && s.Stack(t) != [] && var f := s.Top(t);
         && f.pos < |f.queue| && InHand(s, t, f.queue[f.pos])
         && (f.queue[f.pos] in s.visitor || f.queue[f.pos] in s.constructed)
         && s' == s.(frames := s.WithTop(t, f.(pos := f.pos + 1)))
    case Claim(t) =>
      && s.Stack(t) != [] && var f := s.Top(t);
         && f.pos < |f.queue| && var p := f.queue[f.pos];
            && InHand(s, t, p) && p !in s.visitor && p !in s.constructed
            && s' == s.(visitor := s.visitor[p := t], claims := s.claims + [p],
                        fini := if p in hasFini then [p] + s.fini else s.fini,
                        frames := s.WithTop(t, f.(running := true)))
    case Finish(t) =>
      && s.Stack(t) != [] && (s.exit.Exiting? ==> s.exit.tid != t) && var f := s.Top(t);
         && f.running && f.pos < |f.queue| && var p := f.queue[f.pos];
            s' == s.(visitor := s.visitor - {p}, constructed := s.constructed + {p},
                     frames := s.WithTop(t, f.(pos := f.pos + 1, running := false)))
    case Leave(t) =>
      && s.Stack(t) != [] && !s.Top(t).running && s.Top(t).pos == |s.Top(t).queue|
      && s' == s.(frames := s.frames[t := s.Stack(t)[..|s.Stack(t)| - 1]])
    case BeginExit(t) =>
      && s.exit.NotYet? && s.Free(t)
      && s' == s.(exit := Exiting(t, s.fini))
    case RunDtor =>
      && s.exit.Exiting? && s.exit.rest != [] && var p := s.exit.rest[0];
         && (p in s.visitor ==> s.visitor[p] == s.exit.tid) && p in s.constructed
         && s' == s.(exit := Exiting(s.exit.tid, s.exit.rest[1..]), dtors := s.dtors + [p])
    case SkipDtor =>
      && s.exit.Exiting? && s.exit.rest != [] && var p := s.exit.rest[0];
         && (p in s.visitor ==> s.visitor[p] == s.exit.tid) && p !in s.constructed
         && s' == s.(exit := Exiting(s.exit.tid, s.exit.rest[1..]))
  }

  ghost predicate IsPath<D>(hasFini: set<D>, states: seq<State<D>>, steps: seq<Step<D>>) {
    && |states| == |steps| + 1
    && forall i | 0 <= i < |steps| :: Next(hasFini, states[i], steps[i], states[i + 1])
  }

  ghost predicate IsRun<D>(hasFini: set<D>, states: seq<State<D>>, steps: seq<Step<D>>) {
    IsPath(hasFini, states, steps) && states[0] == Init()
  }

  // ---------- the invariant

  /** The part of a call's queue behind its index is constructed, or held by the same thread. */
  ghost predicate FrameOk<D>(s: State<D>, t: Tid, f: Frame<D>) {
    && f.pos <= |f.queue|
    && (f.running ==> f.pos < |f.queue| && f.queue[f.pos] in s.visitor && s.visitor[f.queue[f.pos]] == t)
    && (forall j | 0 <= j < f.pos ::
          f.queue[j] in s.constructed || (f.queue[j] in s.visitor && s.visitor[f.queue[j]] == t))
  }

  ghost predicate FramesOk<D>(s: State<D>) {
    && (forall t, k | t in s.frames && 0 <= k < |s.frames[t]| :: FrameOk(s, t, s.frames[t][k]))
    && (forall t, k | t in s.frames && 0 <= k < |s.frames[t]| - 1 :: s.frames[t][k].running)
    && (forall t, j, k | t in s.frames && 0 <= j < k < |s.frames[t]| && s.frames[t][k].running ::
          s.frames[t][j].queue[s.frames[t][j].pos] != s.frames[t][k].queue[s.frames[t][k].pos])
  }

  /** Every queue is in order for the graph as it is now. */
  ghost predicate QueuesOk<D>(s: State<D>) {
    forall t, k | t in s.frames && 0 <= k < |s.frames[t]| ::
      s.frames[t][k].root in s.g && CtorOrder(s.g, s.frames[t][k].root, s.frames[t][k].queue)
  }

  /** Claimed so far: constructed, or being constructed; never both. */
  ghost predicate ClaimsOk<D>(s: State<D>) {
    && Distinct(s.claims)
    && (forall d | d in s.claims :: d in s.constructed || d in s.visitor)
    && (forall d | d in s.visitor :: d in s.claims && d !in s.constructed)
    && (forall d | d in s.constructed :: d in s.claims)
  }

  /** Claims respect dependencies that are not on a cycle. */
  ghost predicate OrderOk<D>(g: Graph<D>, claims: seq<D>) {
    && (forall i | 0 <= i < |claims| :: claims[i] in g)
    && (forall i, v | 0 <= i < |claims| && v in g[claims[i]] && !Reaches(g, v, claims[i]) :: v in claims[..i])
  }

  /** The fini list that pushing the claimed DSOs with a fini entry on its head builds. */
  function FiniList<D(==)>(hasFini: set<D>, claims: seq<D>): seq<D> {
    if claims == [] then []
    else
      var last, front := claims[|claims| - 1], claims[..|claims| - 1];
      (if last in hasFini then [last] else []) + FiniList(hasFini, front)
  }

  /** What lies behind __libc_exit_fini's loop pointer. */
  function Walked<D>(s: State<D>): seq<D>
    requires s.exit.Exiting? && |s.exit.rest| <= |s.fini|
  { s.fini[..|s.fini| - |s.exit.rest|] }

  ghost predicate ExitOk<D>(s: State<D>) {
    match s.exit
    case NotYet => s.dtors == []
    case Exiting(t, rest) =>
      && |rest| <= |s.fini| && s.fini[|s.fini| - |rest|..] == rest
      && s.dtors == Only(Walked(s), s.constructed)
      && (forall k | 0 <= k < |Walked(s)| ::
            Walked(s)[k] in s.constructed || (Walked(s)[k] in s.visitor && s.visitor[Walked(s)[k]] == t))
  }

  ghost predicate Inv<D>(hasFini: set<D>, s: State<D>) {
    && Closed(s.g) && QueuesOk(s) && FramesOk(s) && ClaimsOk(s) && OrderOk(s.g, s.claims)
    && s.fini == FiniList(hasFini, s.claims) && ExitOk(s)
  }

  // ---------- every step keeps it

  lemma QueuesStep<D>(hasFini: set<D>, s: State<D>, step: Step<D>, s': State<D>)
    requires Closed(s.g) && QueuesOk(s) && Next(hasFini, s, step, s')
    ensures Closed(s'.g) && QueuesOk(s')
  {
    forall t, k | t in s'.frames && 0 <= k < |s'.frames[t]|
      ensures s'.frames[t][k].root in s'.g && CtorOrder(s'.g, s'.frames[t][k].root, s'.frames[t][k].queue)
    {
      if t in s.frames && k < |s.frames[t]| {
        assert s.frames[t][k].root in s.g && CtorOrder(s.g, s.frames[t][k].root, s.frames[t][k].queue);
        if step.Load? {
          CtorOrderExtends(s.g, s'.g, s.frames[t][k].root, s.frames[t][k].queue);
        }
      }
    }
  }

  lemma FramesStep<D>(hasFini: set<D>, s: State<D>, step: Step<D>, s': State<D>)
    requires FramesOk(s) && ClaimsOk(s) && Next(hasFini, s, step, s')
    ensures FramesOk(s')
  {
    match step
    case Load(_) => FramesLoad(s, s');
    case Open(t, root, queue) => FramesOpen(hasFini, s, t, root, queue, s');
    case Pass(t) => FramesPass(hasFini, s, t, s');
    case Claim(t) => FramesClaim(hasFini, s, t, s');
    case Finish(t) => FramesFinish(hasFini, s, t, s');
    case Leave(t) => FramesLeave(hasFini, s, t, s');
    case _ => FramesSame(s, s');
  }

  lemma FramesSame<D>(s: State<D>, s': State<D>)
    requires FramesOk(s) && s'.frames == s.frames && s'.visitor == s.visitor && s'.constructed == s.constructed
    ensures FramesOk(s')
  {
    forall t, k | t in s'.frames && 0 <= k < |s'.frames[t]| ensures FrameOk(s', t, s'.frames[t][k]) {
      assert FrameOk(s, t, s.frames[t][k]);
    }
  }

  lemma FramesLoad<D>(s: State<D>, s': State<D>)
    requires FramesOk(s) && s' == s.(g := s'.g)
    ensures FramesOk(s')
  {
    forall u, k | u in s'.frames && 0 <= k < |s'.frames[u]| ensures FrameOk(s', u, s'.frames[u][k]) {
      assert FrameOk(s, u, s.frames[u][k]);
    }
  }

  lemma FramesOpen<D>(hasFini: set<D>, s: State<D>, t: Tid, root: D, queue: seq<D>, s': State<D>)
    requires FramesOk(s) && s.Free(t)
    requires s' == s.(frames := s.frames[t := s.Stack(t) + [Frame(root, queue, 0, false)]])
    ensures FramesOk(s')
  {
    forall u, k | u in s'.frames && 0 <= k < |s'.frames[u]| ensures FrameOk(s', u, s'.frames[u][k]) {
      if u in s.frames && k < |s.frames[u]| {
        assert FrameOk(s, u, s.frames[u][k]);
      }
    }
    forall u, k | u in s'.frames && 0 <= k < |s'.frames[u]| - 1 ensures s'.frames[u][k].running {
      if u == t {
        assert s'.frames[u][k] == s.Stack(t)[k];
      }
    }
    forall u, j, k | u in s'.frames && 0 <= j < k < |s'.frames[u]| && s'.frames[u][k].running
      ensures s'.frames[u][j].queue[s'.frames[u][j].pos] != s'.frames[u][k].queue[s'.frames[u][k].pos]
    {
      assert s'.frames[u][j] == s.frames[u][j] && s'.frames[u][k] == s.frames[u][k];
    }
  }

  lemma FramesPass<D>(hasFini: set<D>, s: State<D>, t: Tid, s': State<D>)
    requires FramesOk(s) && Next(hasFini, s, Pass(t), s')
    ensures FramesOk(s')
  {
    forall u, k | u in s'.frames && 0 <= k < |s'.frames[u]| ensures FrameOk(s', u, s'.frames[u][k]) {
      assert FrameOk(s, u, s.frames[u][k]);
    }
  }

  lemma FramesClaim<D>(hasFini: set<D>, s: State<D>, t: Tid, s': State<D>)
    requires FramesOk(s) && Next(hasFini, s, Claim(t), s')
    ensures FramesOk(s')
  {
    forall u, k | u in s'.frames && 0 <= k < |s'.frames[u]| ensures FrameOk(s', u, s'.frames[u][k]) {
      assert FrameOk(s, u, s.frames[u][k]);
    }
    forall u, j, k | u in s'.frames && 0 <= j < k < |s'.frames[u]| && s'.frames[u][k].running
      ensures s'.frames[u][j].queue[s'.frames[u][j].pos] != s'.frames[u][k].queue[s'.frames[u][k].pos]
    {
      assert FrameOk(s, u, s.frames[u][j]) && s.frames[u][j].running;
    }
  }

  lemma FramesFinish<D>(hasFini: set<D>, s: State<D>, t: Tid, s': State<D>)
    requires FramesOk(s) && Next(hasFini, s, Finish(t), s')
    ensures FramesOk(s')
  {
    var f := s.Top(t);
    assert FrameOk(s, t, f);
    forall u, k | u in s'.frames && 0 <= k < |s'.frames[u]| ensures FrameOk(s', u, s'.frames[u][k]) {
      assert FrameOk(s, u, s.frames[u][k]);
      assert s.frames[u][k].running && (u != t || k < |s.frames[u]| - 1) ==>
        s.frames[u][k].queue[s.frames[u][k].pos] != f.queue[f.pos];
    }
  }

  lemma FramesLeave<D>(hasFini: set<D>, s: State<D>, t: Tid, s': State<D>)
    requires FramesOk(s) && Next(hasFini, s, Leave(t), s')
    ensures FramesOk(s')
  {
    forall u, k | u in s'.frames && 0 <= k < |s'.frames[u]| ensures FrameOk(s', u, s'.frames[u][k]) {
      assert FrameOk(s, u, s.frames[u][k]);
    }
  }

  lemma ClaimsStep<D>(hasFini: set<D>, s: State<D>, step: Step<D>, s': State<D>)
    requires FramesOk(s) && ClaimsOk(s) && Next(hasFini, s, step, s')
    ensures ClaimsOk(s')
  {
    if step.Claim? {
      var f := s.Top(step.tid);
      DistinctAppend(s.claims, f.queue[f.pos]);
    }
  }

  /** The heart of the protocol: a thread that claims u finds every dependency of u that does
      not itself depend on u constructed, or held by the thread itself further up its stack. */
  lemma ClaimFindsDependencies<D>(hasFini: set<D>, s: State<D>, t: Tid, s': State<D>, v: D)
    requires QueuesOk(s) && FramesOk(s) && Next(hasFini, s, Claim(t), s')
    requires var u := s.Top(t).queue[s.Top(t).pos]; u in s.g && v in s.g[u] && !Reaches(s.g, v, u)
    ensures v in s.constructed || (v in s.visitor && s.visitor[v] == t)
  {
    var f := s.Top(t);
    assert FrameOk(s, t, f) && CtorOrder(s.g, f.root, f.queue);
    assert v in f.queue[..f.pos];
    var j :| 0 <= j < f.pos && f.queue[j] == v;
  }

  lemma OrderStep<D>(hasFini: set<D>, s: State<D>, step: Step<D>, s': State<D>)
    requires Inv(hasFini, s) && Next(hasFini, s, step, s')
    ensures OrderOk(s'.g, s'.claims)
  {
    if step.Load? {
      OrderExtends(s.g, s'.g, s.claims);
    } else if step.Claim? {
      OrderClaim(hasFini, s, step.tid, s');
    }
  }

  /** Claims made before a load are in order for the larger graph. */
  lemma OrderExtends<D>(g: Graph<D>, h: Graph<D>, claims: seq<D>)
    requires Grows(g, h) && Closed(g) && OrderOk(g, claims)
    ensures OrderOk(h, claims)
  {
    forall i, v | 0 <= i < |claims| && v in h[claims[i]] && !Reaches(h, v, claims[i]) ensures v in claims[..i] {
      ReachesExtends(g, h, v, claims[i]);
    }
  }

  lemma OrderClaim<D>(hasFini: set<D>, s: State<D>, t: Tid, s': State<D>)
    requires Inv(hasFini, s) && Next(hasFini, s, Claim(t), s')
    ensures OrderOk(s'.g, s'.claims)
  {
    var f := s.Top(t);
    var u := f.queue[f.pos];
    assert CtorOrder(s.g, f.root, f.queue) && u in f.queue;
    forall i, v | 0 <= i < |s'.claims| && v in s.g[s'.claims[i]] && !Reaches(s.g, v, s'.claims[i])
      ensures v in s'.claims[..i]
    {
      if i < |s.claims| {
        assert s'.claims[..i] == s.claims[..i];
      } else {
        ClaimFindsDependencies(hasFini, s, t, s', v);
        assert s'.claims[..i] == s.claims;
      }
    }
  }

  lemma FiniStep<D>(hasFini: set<D>, s: State<D>, step: Step<D>, s': State<D>)
    requires s.fini == FiniList(hasFini, s.claims) && Next(hasFini, s, step, s')
    ensures s'.fini == FiniList(hasFini, s'.claims)
  {
    if step.Claim? {
      assert s'.claims[..|s'.claims| - 1] == s.claims;
    }
  }

  lemma {:induction false} OnlyGrows<D>(s: seq<D>, keep: set<D>, d: D)
    requires d !in s
    ensures Only(s, keep + {d}) == Only(s, keep)
  {
    if s != [] {
      OnlyGrows(s[..|s| - 1], keep, d);
    }
  }

  lemma {:induction false} FiniInClaims<D>(hasFini: set<D>, claims: seq<D>, d: D)
    requires d in FiniList(hasFini, claims)
    ensures d in claims && d in hasFini
  {
    if d != claims[|claims| - 1] || d !in hasFini {
      FiniInClaims(hasFini, claims[..|claims| - 1], d);
    }
  }

  lemma ExitStep<D>(hasFini: set<D>, s: State<D>, step: Step<D>, s': State<D>)
    requires FramesOk(s) && ClaimsOk(s) && ExitOk(s) && s.fini == FiniList(hasFini, s.claims)
    requires Next(hasFini, s, step, s')
    ensures ExitOk(s')
  {
    match step
    case Finish(t) => ExitFinish(hasFini, s, t, s');
    case RunDtor => ExitWalk(hasFini, s, step, s');
    case SkipDtor => ExitWalk(hasFini, s, step, s');
    case BeginExit(t) => ExitBegin(s, t);
    case Load(_) => ExitSame(s, s');
    case Open(t, _, _) => ExitSame(s, s');
    case Pass(t) => ExitSame(s, s');
    case Claim(t) =>
    case Leave(t) => ExitSame(s, s');
  }

  lemma ExitBegin<D>(s: State<D>, t: Tid)
    requires ExitOk(s) && s.exit.NotYet?
    ensures ExitOk(s.(exit := Exiting(t, s.fini)))
  {
  }

  lemma ExitSame<D>(s: State<D>, s': State<D>)
    requires ExitOk(s) && s' == s.(g := s'.g, frames := s'.frames)
    ensures ExitOk(s')
  {
  }

  lemma ExitFinish<D>(hasFini: set<D>, s: State<D>, t: Tid, s': State<D>)
    requires FramesOk(s) && ClaimsOk(s) && ExitOk(s) && Next(hasFini, s, Finish(t), s')
    ensures ExitOk(s')
  {
    if s.exit.Exiting? {
      var f := s.Top(t);
      assert FrameOk(s, t, f);
      OnlyGrows(Walked(s), s.constructed, f.queue[f.pos]);
    }
  }

  lemma ExitWalk<D>(hasFini: set<D>, s: State<D>, step: Step<D>, s': State<D>)
    requires ClaimsOk(s) && ExitOk(s) && s.fini == FiniList(hasFini, s.claims)
    requires Next(hasFini, s, step, s') && (step.RunDtor? || step.SkipDtor?)
    ensures ExitOk(s')
  {
    WalkStep(s, s');
    var p, w := s.exit.rest[0], Walked(s');
    assert w[..|w| - 1] == Walked(s);
    assert p == s.fini[|s.fini| - |s.exit.rest|] && p in s.fini;
    FiniInClaims(hasFini, s.claims, p);
  }

  lemma WalkStep<D>(s: State<D>, s': State<D>)
    requires s.exit.Exiting? && s.exit.rest != [] && s'.exit.Exiting? && s'.exit.rest == s.exit.rest[1..]
    requires s'.fini == s.fini && |s.exit.rest| <= |s.fini| && s.fini[|s.fini| - |s.exit.rest|..] == s.exit.rest
    ensures Walked(s') == Walked(s) + [s.exit.rest[0]]
    ensures s'.fini[|s'.fini| - |s'.exit.rest|..] == s'.exit.rest
  {
    var k := |s.fini| - |s.exit.rest|;
    assert s.fini[k..][1..] == s.fini[k + 1..];
    assert s.fini[k] == s.exit.rest[0];
  }

  lemma InvStep<D>(hasFini: set<D>, s: State<D>, step: Step<D>, s': State<D>)
    requires Inv(hasFini, s) && Next(hasFini, s, step, s')
    ensures Inv(hasFini, s')
  {
    QueuesStep(hasFini, s, step, s');
    FramesStep(hasFini, s, step, s');
    ClaimsStep(hasFini, s, step, s');
    OrderStep(hasFini, s, step, s');
    FiniStep(hasFini, s, step, s');
    ExitStep(hasFini, s, step, s');
  }
}
