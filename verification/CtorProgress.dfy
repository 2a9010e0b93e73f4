/** When the constructor and destructor protocol comes to an end, and when threads wait for ever. */
module CtorProgress {
  import opened DepGraph
  import opened CtorProtocol

  // ---------- who holds what

  /** The k-th call of thread u is running the constructors of p. */
  predicate Holds<D(==)>(s: State<D>, u: Tid, k: nat, p: D) {
    && u in s.frames && k < |s.frames[u]|
    && var f := s.frames[u][k]; f.running && f.pos < |f.queue| && f.queue[f.pos] == p
  }

  /** A visitor is running the constructors in one of its calls. */
  ghost predicate Held<D>(s: State<D>) {
    forall p {:trigger HeldSomewhere(s, p)} | p in s.visitor :: HeldSomewhere(s, p)
  }

  ghost predicate HeldSomewhere<D>(s: State<D>, p: D)
    requires p in s.visitor
  { exists k :: Holds(s, s.visitor[p], k, p) }

  lemma HeldWhere<D>(s: State<D>, p: D) returns (k: nat)
    requires Held(s) && p in s.visitor
    ensures Holds(s, s.visitor[p], k, p)
  {
    assert HeldSomewhere(s, p);
    k :| Holds(s, s.visitor[p], k, p);
  }

  lemma HeldStep<D>(hasFini: set<D>, s: State<D>, step: Step<D>, s': State<D>)
    requires Held(s) && Next(hasFini, s, step, s')
    ensures Held(s')
  {
    forall p | p in s'.visitor ensures HeldSomewhere(s', p) {
      if p in s.visitor {
        var u := s.visitor[p];
        var k := HeldWhere(s, p);
        assert Holds(s', u, k, p);
      } else {
        assert Holds(s', step.tid, |s.Stack(step.tid)| - 1, p);
      }
    }
  }

  ghost predicate Ok<D>(hasFini: set<D>, s: State<D>) { Inv(hasFini, s) && Held(s) }

  lemma OkStep<D>(hasFini: set<D>, s: State<D>, step: Step<D>, s': State<D>)
    requires Ok(hasFini, s) && Next(hasFini, s, step, s')
    ensures Ok(hasFini, s')
  {
    InvStep(hasFini, s, step, s');
    HeldStep(hasFini, s, step, s');
  }

  lemma InitOk<D>(hasFini: set<D>)
    ensures Ok(hasFini, Init<D>())
  {
  }

  /** In every state of every run, a visitor is running the constructors. */
  lemma RunOk<D>(hasFini: set<D>, states: seq<State<D>>, steps: seq<Step<D>>, i: nat)
    requires IsRun(hasFini, states, steps) && i < |states|
    ensures Ok(hasFini, states[i])
  {
    InitOk(hasFini);
    PathOk(hasFini, states, steps, i);
  }

  /** It stays so from any such state on. */
  lemma {:induction false} PathOk<D>(hasFini: set<D>, states: seq<State<D>>, steps: seq<Step<D>>, i: nat)
    requires IsPath(hasFini, states, steps) && Ok(hasFini, states[0]) && i < |states|
    ensures Ok(hasFini, states[i])
  {
    if i > 0 {
      PathOk(hasFini, states, steps, i - 1);
      OkStep(hasFini, states[i - 1], steps[i - 1], states[i]);
    }
  }

  /** When a call returns, every DSO its root depends on is constructed, or under construction in an outer call of the
      same thread; when it is the thread's outermost call, all of them are constructed. */
  lemma ReturnedCall<D>(hasFini: set<D>, states: seq<State<D>>, steps: seq<Step<D>>, i: nat, t: Tid, d: D)
    requires IsRun(hasFini, states, steps) && i < |steps| && steps[i] == Leave(t) && states[i].Stack(t) != []
    requires d in states[i].g && Reaches(states[i].g, states[i].Top(t).root, d)
    ensures d in states[i + 1].constructed || (d in states[i + 1].visitor && states[i + 1].visitor[d] == t)
    ensures states[i + 1].Stack(t) == [] ==> d in states[i + 1].constructed
  {
    var s := states[i];
    RunOk(hasFini, states, steps, i);
    assert Next(hasFini, s, steps[i], states[i + 1]);
    var k := |s.Stack(t)| - 1;
    assert FrameOk(s, t, s.frames[t][k]) && CtorOrder(s.g, s.Top(t).root, s.Top(t).queue);
    assert d in s.Top(t).queue;
    if d !in s.constructed {
      var m := HeldWhere(s, d);
      assert m != k;
    }
  }

  /** A path with one more step in front. */
  lemma PathCons<D>(hasFini: set<D>, s: State<D>, step: Step<D>, states: seq<State<D>>, steps: seq<Step<D>>)
    requires IsPath(hasFini, states, steps) && Next(hasFini, s, step, states[0])
    ensures IsPath(hasFini, [s] + states, [step] + steps)
  {
    var ss, ts := [s] + states, [step] + steps;
    forall i | 0 <= i < |ts| ensures Next(hasFini, ss[i], ts[i], ss[i + 1]) {
      if i > 0 {
        assert ss[i] == states[i - 1] && ts[i] == steps[i - 1] && ss[i + 1] == states[i];
      }
    }
  }

  // ---------- before exit

  /** The turns of do_init_fini. */
  predicate IsWork<D>(step: Step<D>) { step.Pass? || step.Claim? || step.Finish? || step.Leave? }

  ghost predicate CanWork<D(!new)>(hasFini: set<D>, s: State<D>) {
    exists step, s' :: IsWork(step) && Next(hasFini, s, step, s')
  }

  /** Thread t waits on ctor_cond for a DSO that u is constructing. */
  predicate WaitsFor<D(==)>(s: State<D>, t: Tid, u: Tid) {
    && s.Stack(t) != [] && t != u
    && var f := s.Top(t);
       !f.running && f.pos < |f.queue| && f.queue[f.pos] in s.visitor && s.visitor[f.queue[f.pos]] == u
  }

  /** Every thread of w waits for another thread of w. */
  ghost predicate Deadlocked<D>(s: State<D>, w: set<Tid>) {
    forall t {:trigger WaitsIn(s, t, w)} | t in w :: WaitsIn(s, t, w)
  }

  ghost predicate WaitsIn<D>(s: State<D>, t: Tid, w: set<Tid>) { exists u :: u in w && WaitsFor(s, t, u) }

  lemma WaitsForWhom<D>(s: State<D>, t: Tid, w: set<Tid>) returns (u: Tid)
    requires Deadlocked(s, w) && t in w
    ensures u in w && WaitsFor(s, t, u)
  {
    assert WaitsIn(s, t, w);
    u :| u in w && WaitsFor(s, t, u);
  }

  /** Threads inside do_init_fini. */
  ghost function Inside<D>(s: State<D>): set<Tid> { set t | t in s.frames && s.Stack(t) != [] }

  // The turns that can be made.

  lemma CanFinish<D>(hasFini: set<D>, s: State<D>, t: Tid) returns (s': State<D>)
    requires s.Stack(t) != [] && s.Top(t).running && s.Top(t).pos < |s.Top(t).queue|
    requires s.exit.Exiting? ==> s.exit.tid != t
    ensures Next(hasFini, s, Finish(t), s')
  {
    var f := s.Top(t);
    var p := f.queue[f.pos];
    s' := s.(visitor := s.visitor - {p}, constructed := s.constructed + {p},
             frames := s.WithTop(t, f.(pos := f.pos + 1, running := false)));
  }

  lemma CanLeave<D>(hasFini: set<D>, s: State<D>, t: Tid) returns (s': State<D>)
    requires s.Stack(t) != [] && !s.Top(t).running && s.Top(t).pos == |s.Top(t).queue|
    ensures Next(hasFini, s, Leave(t), s')
  {
    s' := s.(frames := s.frames[t := s.Stack(t)[..|s.Stack(t)| - 1]]);
  }

  lemma CanTakeUp<D>(hasFini: set<D>, s: State<D>, t: Tid, f: Frame<D>, p: D) returns (step: Step<D>, s': State<D>)
    requires s.exit.NotYet? && s.Stack(t) != [] && f == s.Top(t) && !f.running && f.pos < |f.queue|
    requires p == f.queue[f.pos] && (p in s.visitor ==> s.visitor[p] == t)
    ensures IsWork(step) && Next(hasFini, s, step, s')
  {
    if p in s.visitor || p in s.constructed {
      step := Pass(t);
      s' := s.(frames := s.WithTop(t, f.(pos := f.pos + 1)));
    } else {
      step := Claim(t);
      s' := s.(visitor := s.visitor[p := t], claims := s.claims + [p],
               fini := if p in hasFini then [p] + s.fini else s.fini,
               frames := s.WithTop(t, f.(running := true)));
    }
  }

  /** A thread inside do_init_fini can make a turn unless it waits. */
  lemma WorkOrWait<D(!new)>(hasFini: set<D>, s: State<D>, t: Tid)
    requires FramesOk(s) && s.exit.NotYet? && s.Stack(t) != [] && !CanWork(hasFini, s)
    ensures var f := s.Top(t);
      !f.running && f.pos < |f.queue| && f.queue[f.pos] in s.visitor && WaitsFor(s, t, s.visitor[f.queue[f.pos]])
  {
    var f := s.Top(t);
    assert FrameOk(s, t, f);
    if f.running {
      var s' := CanFinish(hasFini, s, t);
      assert IsWork(Step<D>.Finish(t));
    } else if f.pos == |f.queue| {
      var s' := CanLeave(hasFini, s, t);
      assert IsWork(Step<D>.Leave(t));
    } else if f.queue[f.pos] !in s.visitor || s.visitor[f.queue[f.pos]] == t {
      var step, s' := CanTakeUp(hasFini, s, t, f, f.queue[f.pos]);
    }
  }

  lemma NoWorkWhenDeadlocked<D>(hasFini: set<D>, s: State<D>, step: Step<D>, s': State<D>)
    requires Deadlocked(s, Inside(s)) && IsWork(step)
    ensures !Next(hasFini, s, step, s')
  {
    if s.Stack(step.tid) != [] {
      assert step.tid in Inside(s);
      var u := WaitsForWhom(s, step.tid, Inside(s));
    }
  }

  /** Before exit, do_init_fini can make a turn in some thread unless all threads inside it wait for each other. */
  lemma WorkUnlessDeadlocked<D(!new)>(hasFini: set<D>, s: State<D>)
    requires Ok(hasFini, s) && s.exit.NotYet?
    ensures CanWork(hasFini, s) <==> !Deadlocked(s, Inside(s))
  {
    if !CanWork(hasFini, s) {
      forall t | t in Inside(s) ensures WaitsIn(s, t, Inside(s)) {
        WorkOrWait(hasFini, s, t);
        var p := s.Top(t).queue[s.Top(t).pos];
        var k := HeldWhere(s, p);
        assert s.visitor[p] in Inside(s);
      }
    }
    forall step, s' | IsWork(step) && Next(hasFini, s, step, s') ensures !Deadlocked(s, Inside(s)) {
      if Deadlocked(s, Inside(s)) {
        NoWorkWhenDeadlocked(hasFini, s, step, s');
      }
    }
  }

  // ---------- deadlock

  /** A thread that waits and is waited for has two calls: the later one was made by a constructor. */
  lemma DeadlockIsNested<D>(s: State<D>, t: Tid, u: Tid, v: Tid)
    requires Held(s) && WaitsFor(s, t, u) && WaitsFor(s, u, v)
    ensures |s.Stack(u)| >= 2
  {
    var p := s.Top(t).queue[s.Top(t).pos];
    var k := HeldWhere(s, p);
  }

  lemma DeadlockStep<D>(hasFini: set<D>, s: State<D>, step: Step<D>, s': State<D>, w: set<Tid>)
    requires FramesOk(s) && Next(hasFini, s, step, s') && Deadlocked(s, w)
    ensures Deadlocked(s', w) && forall t | t in w :: s'.Stack(t) == s.Stack(t)
  {
    forall t | t in w ensures s'.Stack(t) == s.Stack(t) && WaitsIn(s', t, w) {
      var u := WaitsForWhom(s, t, w);
      var v := WaitsForWhom(s, u, w);
      WaitStep(hasFini, s, step, s', t, u, v);
    }
  }

  /** No step of any thread changes that t waits for u, when u waits too. */
  lemma WaitStep<D>(hasFini: set<D>, s: State<D>, step: Step<D>, s': State<D>, t: Tid, u: Tid, v: Tid)
    requires FramesOk(s) && Next(hasFini, s, step, s') && WaitsFor(s, t, u) && WaitsFor(s, u, v)
    ensures s'.Stack(t) == s.Stack(t) && WaitsFor(s', t, u)
  {
    OthersStep(hasFini, s, step, s', t);
    OthersStep(hasFini, s, step, s', u);
    VisitorStays(hasFini, s, step, s', s.Top(t).queue[s.Top(t).pos]);
  }

  /** A waiting thread makes no step. */
  lemma OthersStep<D>(hasFini: set<D>, s: State<D>, step: Step<D>, s': State<D>, t: Tid)
    requires Next(hasFini, s, step, s') && s.Stack(t) != [] && !s.Top(t).running && s.Top(t).pos < |s.Top(t).queue|
    requires var p := s.Top(t).queue[s.Top(t).pos]; p in s.visitor && s.visitor[p] != t
    ensures s'.Stack(t) == s.Stack(t)
  {
  }

  /** A visitor whose call on top is not running stays the visitor. */
  lemma VisitorStays<D>(hasFini: set<D>, s: State<D>, step: Step<D>, s': State<D>, p: D)
    requires FramesOk(s) && Next(hasFini, s, step, s') && p in s.visitor
    requires s.Stack(s.visitor[p]) != [] && !s.Top(s.visitor[p]).running
    ensures p in s'.visitor && s'.visitor[p] == s.visitor[p]
  {
    if step.Finish? {
      assert FrameOk(s, step.tid, s.Top(step.tid));
    }
  }

  /** Threads that wait for each other do so for ever, whatever the others do. */
  lemma {:induction false} DeadlockForever<D>(hasFini: set<D>, states: seq<State<D>>, steps: seq<Step<D>>, i: nat,
                                              w: set<Tid>)
    requires IsPath(hasFini, states, steps) && Ok(hasFini, states[0]) && Deadlocked(states[0], w) && i < |states|
    ensures Deadlocked(states[i], w) && forall t | t in w :: states[i].Stack(t) == states[0].Stack(t)
  {
    if i > 0 {
      PathOk(hasFini, states, steps, i - 1);
      DeadlockForever(hasFini, states, steps, i - 1, w);
      DeadlockStep(hasFini, states[i - 1], steps[i - 1], states[i], w);
    }
  }

  // ---------- all calls return

  function FrameWork<D>(f: Frame<D>): nat {
    (if f.pos <= |f.queue| then 2 * (|f.queue| - f.pos) else 0) + if f.running then 0 else 1
  }

  function StackWork<D>(st: seq<Frame<D>>): nat {
    if st == [] then 0 else StackWork(st[..|st| - 1]) + FrameWork(st[|st| - 1])
  }

  /** The turns that the first n threads have left to make. */
  function WorkLeft<D>(s: State<D>, n: nat): nat {
    if n == 0 then 0 else WorkLeft(s, n - 1) + StackWork(s.Stack(n - 1))
  }

  lemma {:induction false} WorkLeftStep<D>(s: State<D>, s': State<D>, t: Tid, n: nat)
    requires (forall u | u != t :: s'.Stack(u) == s.Stack(u)) && StackWork(s'.Stack(t)) < StackWork(s.Stack(t))
    ensures if t < n then WorkLeft(s', n) < WorkLeft(s, n) else WorkLeft(s', n) == WorkLeft(s, n)
  {
    if n > 0 {
      WorkLeftStep(s, s', t, n - 1);
    }
  }

  /** Each turn leaves less to do, and makes no call. */
  lemma WorkStep<D>(hasFini: set<D>, s: State<D>, step: Step<D>, s': State<D>)
    requires FramesOk(s) && IsWork(step) && Next(hasFini, s, step, s')
    ensures var t := step.tid;
      && (forall u | u != t :: s'.Stack(u) == s.Stack(u)) && StackWork(s'.Stack(t)) < StackWork(s.Stack(t))
      && |s'.Stack(t)| <= |s.Stack(t)| && t in s.frames && s'.exit == s.exit
  {
    var st, st' := s.Stack(step.tid), s'.Stack(step.tid);
    assert FrameOk(s, step.tid, s.Top(step.tid));
    if !step.Leave? {
      assert st'[..|st'| - 1] == st[..|st| - 1];
    }
  }

  /** No two threads are inside a dlopen that a constructor has called. */
  ghost predicate OneNested<D>(s: State<D>) {
    forall t, u | |s.Stack(t)| >= 2 && |s.Stack(u)| >= 2 :: t == u
  }

  /** Before exit, with at most one nested thread, a thread can make a turn or all calls have returned. */
  ghost predicate Live<D>(hasFini: set<D>, s: State<D>) { Ok(hasFini, s) && s.exit.NotYet? && OneNested(s) }

  lemma LiveStep<D>(hasFini: set<D>, s: State<D>, step: Step<D>, m: State<D>)
    requires Live(hasFini, s) && IsWork(step) && Next(hasFini, s, step, m)
    ensures Live(hasFini, m)
  {
    OkStep(hasFini, s, step, m);
    WorkStep(hasFini, s, step, m);
  }

  lemma LiveWorks<D(!new)>(hasFini: set<D>, s: State<D>)
    requires Live(hasFini, s)
    ensures CanWork(hasFini, s) <==> Inside(s) != {}
  {
    WorkUnlessDeadlocked(hasFini, s);
    if Deadlocked(s, Inside(s)) {
      OneNestedWorks(s);
    }
  }

  /** If not two threads are inside nested calls, then however the threads take turns, they can go on until all calls
      have returned. */
  lemma {:induction false} AllReturn<D(!new)>(hasFini: set<D>, states: seq<State<D>>, steps: seq<Step<D>>, i: nat)
    requires IsPath(hasFini, states, steps) && (forall k | 0 <= k < |steps| :: IsWork(steps[k]))
    requires Live(hasFini, states[0]) && i < |states|
    ensures Live(hasFini, states[i]) && (CanWork(hasFini, states[i]) <==> Inside(states[i]) != {})
  {
    if i > 0 {
      AllReturn(hasFini, states, steps, i - 1);
      LiveStep(hasFini, states[i - 1], steps[i - 1], states[i]);
    }
    LiveWorks(hasFini, states[i]);
  }

  lemma LessLeft<D>(hasFini: set<D>, s: State<D>, step: Step<D>, s': State<D>, n: nat)
    requires FramesOk(s) && (forall t | t in s.frames :: t < n) && IsWork(step) && Next(hasFini, s, step, s')
    ensures s'.exit == s.exit && (forall t | t in s'.frames :: t < n) && WorkLeft(s', n) < WorkLeft(s, n)
  {
    WorkStep(hasFini, s, step, s');
    WorkLeftStep(s, s', step.tid, n);
  }

  /** In any case, and whatever the order, they can make only so many turns. */
  lemma {:induction false} WorkEnds<D>(hasFini: set<D>, states: seq<State<D>>, steps: seq<Step<D>>, n: nat, i: nat)
    requires IsPath(hasFini, states, steps) && (forall k | 0 <= k < |steps| :: IsWork(steps[k]))
    requires Ok(hasFini, states[0]) && (forall t | t in states[0].frames :: t < n) && i < |states|
    ensures i + WorkLeft(states[i], n) <= WorkLeft(states[0], n) && forall t | t in states[i].frames :: t < n
  {
    if i > 0 {
      WorkEnds(hasFini, states, steps, n, i - 1);
      PathOk(hasFini, states, steps, i - 1);
      LessLeft(hasFini, states[i - 1], steps[i - 1], states[i], n);
    }
  }

  lemma OneNestedWorks<D>(s: State<D>)
    requires Held(s) && OneNested(s) && Deadlocked(s, Inside(s))
    ensures Inside(s) == {}
  {
    if t :| t in Inside(s) {
      var u := WaitsForWhom(s, t, Inside(s));
      var v := WaitsForWhom(s, u, Inside(s));
      var x := WaitsForWhom(s, v, Inside(s));
      DeadlockIsNested(s, t, u, v);
      DeadlockIsNested(s, u, v, x);
    }
  }

  // ---------- two nested calls are enough

  lemma AloneInOrder<D>(g: Graph<D>, d: D)
    requires d in g && g[d] == []
    ensures CtorOrder(g, d, [d])
  {
    ReachesRefl(g, d);
    forall x | x in g && Reaches(g, d, x) ensures x == d {
      var n: nat :| ReachesIn(g, d, x, n);
      ClosedSetHoldsReach(g, {d}, d, x, n);
    }
  }

  lemma OpenAndClaim<D>(s: State<D>, t: Tid, d: D) returns (s1: State<D>, s2: State<D>)
    requires s.exit.NotYet? && s.Stack(t) == [] && d in s.g && s.g[d] == [] && d !in s.constructed && d !in s.visitor
    ensures Next({}, s, Open(t, d, [d]), s1) && Next({}, s1, Claim(t), s2)
    ensures s2 == s.(visitor := s.visitor[d := t], claims := s.claims + [d],
      frames := s.frames[t := [Frame(d, [d], 0, true)]])
  {
    AloneInOrder(s.g, d);
    var f := Frame(d, [d], 0, false);
    s1 := s.(frames := s.frames[t := s.Stack(t) + [f]]);
    assert s1.Stack(t) == [f] && [f][0 := f.(running := true)] == [f.(running := true)];
    s2 := s1.(visitor := s.visitor[d := t], claims := s.claims + [d], frames := s1.WithTop(t, Frame(d, [d], 0, true)));
  }

  lemma OpenAgain<D>(s: State<D>, t: Tid, d: D) returns (s1: State<D>)
    requires s.exit.NotYet? && s.Free(t) && d in s.g && s.g[d] == [] && d !in s.constructed
    ensures Next({}, s, Open(t, d, [d]), s1)
    ensures s1 == s.(frames := s.frames[t := s.Stack(t) + [Frame(d, [d], 0, false)]])
  {
    AloneInOrder(s.g, d);
    s1 := s.(frames := s.frames[t := s.Stack(t) + [Frame(d, [d], 0, false)]]);
  }

  /** A run with one more step. */
  lemma RunSnoc<D>(hasFini: set<D>, states: seq<State<D>>, steps: seq<Step<D>>, step: Step<D>, s: State<D>)
    returns (states': seq<State<D>>, steps': seq<Step<D>>)
    requires IsRun(hasFini, states, steps) && Next(hasFini, states[|steps|], step, s)
    ensures IsRun(hasFini, states', steps') && states'[|steps'|] == s
  {
    states', steps' := states + [s], steps + [step];
    forall i | 0 <= i < |steps'| ensures Next(hasFini, states'[i], steps'[i], states'[i + 1]) {
      if i < |steps| {
        assert Next(hasFini, states[i], steps[i], states[i + 1]);
      }
    }
  }

  /** Two threads open a DSO each, whose constructors open the other one: they wait for each other. */
  lemma TwoNestedDeadlock<D>(a: D, b: D) returns (states: seq<State<D>>, steps: seq<Step<D>>)
    requires a != b
    ensures IsRun({}, states, steps) && Deadlocked(states[|steps|], {1, 2})
  {
    var s: State<D>;
    states, steps := BothClaim(a, b);
    s := states[|steps|];
    var s1 := OpenAgain(s, 1, b);
    states, steps := RunSnoc({}, states, steps, Open(1, b, [b]), s1);
    var s2 := OpenAgain(s1, 2, a);
    states, steps := RunSnoc({}, states, steps, Open(2, a, [a]), s2);
    assert WaitsFor(s2, 1, 2) && WaitsFor(s2, 2, 1);
    assert WaitsIn(s2, 1, {1, 2}) && WaitsIn(s2, 2, {1, 2});
  }

  lemma BothClaim<D>(a: D, b: D) returns (states: seq<State<D>>, steps: seq<Step<D>>)
    requires a != b
    ensures IsRun({}, states, steps)
    ensures states[|steps|] == State(map[a := [], b := []], map[a := 1, b := 2], {}, [], NotYet,
              map[1 := [Frame(a, [a], 0, true)], 2 := [Frame(b, [b], 0, true)]], [a, b], [])
  {
    var g: Graph<D> := map[a := [], b := []];
    var s: State<D> := Init().(g := g);
    states, steps := RunSnoc({}, [Init()], [], Load(g), s);
    var s1, s2 := OpenAndClaim(s, 1, a);
    states, steps := RunSnoc({}, states, steps, Open(1, a, [a]), s1);
    states, steps := RunSnoc({}, states, steps, Claim(1), s2);
    var s3, s4 := OpenAndClaim(s2, 2, b);
    states, steps := RunSnoc({}, states, steps, Open(2, b, [b]), s3);
    states, steps := RunSnoc({}, states, steps, Claim(2), s4);
    assert s4.claims == [a, b] && s4.visitor == map[a := 1, b := 2];
    assert s4.frames == map[1 := [Frame(a, [a], 0, true)], 2 := [Frame(b, [b], 0, true)]];
  }
}
