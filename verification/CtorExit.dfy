/** When __libc_exit_fini comes to the end of the fini list. Once shutting_down is set, a thread inside do_init_fini can
    only return from the constructors it is in and leave a queue it has finished. */
module CtorExit {
  import opened DepGraph
  import opened CtorProtocol
  import opened CtorProgress

  /** The call will look at another DSO of its queue, and then wait for ever. */
  predicate Unfinished<D>(f: Frame<D>) { (if f.running then f.pos + 1 else f.pos) < |f.queue| }

  /** Another thread is running the constructors of p, and a call they have made, at place j of its stack, is not at the
      end of its queue. */
  predicate Blocks<D(==)>(s: State<D>, u: Tid, k: nat, j: nat, p: D) {
    && s.exit.Exiting? && u != s.exit.tid && p in s.exit.rest
    && Holds(s, u, k, p) && k < j < |s.frames[u]| && Unfinished(s.frames[u][j])
  }

  /** No DSO that is still to be destroyed is held up in this way. */
  ghost predicate Clear<D>(s: State<D>) {
    s.exit.Exiting? ==> forall u, k, j, p | p in s.exit.rest :: !Blocks(s, u, k, j, p)
  }

  // ---------- if one is held up, the loop waits for ever

  lemma BlocksStep<D>(hasFini: set<D>, s: State<D>, step: Step<D>, s': State<D>, u: Tid, k: nat, j: nat, p: D)
    requires FramesOk(s) && Next(hasFini, s, step, s') && Blocks(s, u, k, j, p)
    ensures Blocks(s', u, k, j, p)
  {
    assert FrameOk(s, u, s.frames[u][k]);
    if step.RunDtor? || step.SkipDtor? {
      BlocksWalk(hasFini, s, step, s', u, k, j, p);
    } else if step.Finish? {
      BlocksFinish(hasFini, s, step.tid, s', u, k, j, p);
    } else if step.Leave? {
      BlocksLeave(hasFini, s, step.tid, s', u, k, j, p);
    }
  }

  lemma BlocksWalk<D>(hasFini: set<D>, s: State<D>, step: Step<D>, s': State<D>, u: Tid, k: nat, j: nat, p: D)
    requires Next(hasFini, s, step, s') && Blocks(s, u, k, j, p) && (step.RunDtor? || step.SkipDtor?)
    requires p in s.visitor && s.visitor[p] == u
    ensures Blocks(s', u, k, j, p)
  {
    assert p in [s.exit.rest[0]] + s.exit.rest[1..];
  }

  lemma BlocksFinish<D>(hasFini: set<D>, s: State<D>, t: Tid, s': State<D>, u: Tid, k: nat, j: nat, p: D)
    requires Next(hasFini, s, Finish(t), s') && Blocks(s, u, k, j, p)
    ensures Blocks(s', u, k, j, p)
  {
  }

  lemma BlocksLeave<D>(hasFini: set<D>, s: State<D>, t: Tid, s': State<D>, u: Tid, k: nat, j: nat, p: D)
    requires Next(hasFini, s, Leave(t), s') && Blocks(s, u, k, j, p)
    ensures Blocks(s', u, k, j, p)
  {
  }

  lemma BlocksNext<D>(hasFini: set<D>, states: seq<State<D>>, steps: seq<Step<D>>, i: nat, u: Tid, k: nat, j: nat, p: D)
    requires IsPath(hasFini, states, steps) && Ok(hasFini, states[0]) && i < |steps| && Blocks(states[i], u, k, j, p)
    ensures Blocks(states[i + 1], u, k, j, p)
  {
    PathOk(hasFini, states, steps, i);
    BlocksStep(hasFini, states[i], steps[i], states[i + 1], u, k, j, p);
  }

  lemma BlockedForever<D>(hasFini: set<D>, states: seq<State<D>>, steps: seq<Step<D>>, i: nat,
                          u: Tid, k: nat, j: nat, p: D)
    requires IsPath(hasFini, states, steps) && Ok(hasFini, states[0]) && i < |states| && Blocks(states[0], u, k, j, p)
    ensures Blocks(states[i], u, k, j, p)
  {
    forall n | 0 <= n < |steps| && Blocks(states[n], u, k, j, p) ensures Blocks(states[n + 1], u, k, j, p) {
      BlocksNext(hasFini, states, steps, n, u, k, j, p);
    }
    Always(states, s => Blocks(s, u, k, j, p), i);
  }

  /** What holds at first and passes from each state to the next holds of all. */
  lemma {:induction false} Always<S>(states: seq<S>, inv: S -> bool, i: nat)
    requires i < |states| && inv(states[0]) && forall n | 0 <= n < |states| - 1 && inv(states[n]) :: inv(states[n + 1])
    ensures inv(states[i])
  {
    if i > 0 {
      Always(states, inv, i - 1);
      assert inv(states[i - 1 + 1]);
    }
  }

  // ---------- otherwise it can go on

  lemma ClearStep<D>(hasFini: set<D>, s: State<D>, step: Step<D>, s': State<D>)
    requires Next(hasFini, s, step, s') && s.exit.Exiting? && !step.Load? && Clear(s)
    ensures Clear(s')
  {
    forall u, k, j, p | p in s'.exit.rest ensures !Blocks(s', u, k, j, p) {
      if Blocks(s', u, k, j, p) {
        assert Blocks(s, u, k, j, p);
      }
    }
  }

  /** The loop can pass the DSO in hand. */
  predicate HeadFree<D(==)>(s: State<D>) {
    && s.exit.Exiting? && s.exit.rest != []
    && (s.exit.rest[0] in s.visitor ==> s.visitor[s.exit.rest[0]] == s.exit.tid)
  }

  /** The thread that holds the DSO in hand can go on. */
  lemma HolderStep<D>(hasFini: set<D>, s: State<D>, u: Tid) returns (step: Step<D>, s': State<D>)
    requires FramesOk(s) && Held(s) && Clear(s) && s.exit.Exiting? && s.exit.rest != []
    requires s.exit.rest[0] in s.visitor && u == s.visitor[s.exit.rest[0]] && u != s.exit.tid
    ensures s.Stack(u) != [] && (step == Finish(u) || step == Leave(u)) && Next(hasFini, s, step, s')
  {
    var p := s.exit.rest[0];
    var k := HeldWhere(s, p);
    var f, j := s.Top(u), |s.Stack(u)| - 1;
    assert FrameOk(s, u, f);
    assert p in s.exit.rest && (j > k ==> !Blocks(s, u, k, j, p));
    if f.running {
      step := Finish(u);
      s' := CanFinish(hasFini, s, u);
    } else {
      step := Leave(u);
      s' := CanLeave(hasFini, s, u);
    }
  }

  function Height<D>(st: seq<Frame<D>>): nat {
    2 * |st| + if st != [] && st[|st| - 1].running then 1 else 0
  }

  lemma HeightStep<D>(hasFini: set<D>, s: State<D>, step: Step<D>, s': State<D>, u: Tid)
    requires s.Stack(u) != [] && Next(hasFini, s, step, s') && FramesOk(s)
    requires step == Finish(u) || step == Leave(u)
    ensures Height(s'.Stack(u)) < Height(s.Stack(u)) && s'.exit == s.exit
    ensures forall p | p in s'.visitor :: p in s.visitor && s'.visitor[p] == s.visitor[p]
  {
  }

  /** Some run brings the loop to its end. */
  ghost predicate CanEnd<D(!new)>(hasFini: set<D>, s: State<D>) {
    exists states, steps :: Ends(hasFini, s, states, steps)
  }

  ghost predicate Ends<D>(hasFini: set<D>, s: State<D>, states: seq<State<D>>, steps: seq<Step<D>>) {
    && IsPath(hasFini, states, steps) && states[0] == s
    && states[|steps|].exit.Exiting? && states[|steps|].exit.rest == []
  }

  lemma EndsCons<D>(hasFini: set<D>, s: State<D>, step: Step<D>, s': State<D>, states: seq<State<D>>,
                    steps: seq<Step<D>>)
    returns (states': seq<State<D>>, steps': seq<Step<D>>)
    requires Next(hasFini, s, step, s') && Ends(hasFini, s', states, steps)
    ensures Ends(hasFini, s, states', steps')
  {
    states', steps' := [s] + states, [step] + steps;
    PathCons(hasFini, s, step, states, steps);
  }

  ghost predicate Going<D>(hasFini: set<D>, s: State<D>) { Ok(hasFini, s) && s.exit.Exiting? && Clear(s) }

  lemma GoingStep<D>(hasFini: set<D>, s: State<D>, step: Step<D>, s': State<D>)
    requires Going(hasFini, s) && Next(hasFini, s, step, s') && !step.Load?
    ensures Going(hasFini, s')
  {
    OkStep(hasFini, s, step, s');
    ClearStep(hasFini, s, step, s');
  }

  /** One step of the loop, or of the thread it waits for. */
  lemma ExitOrHolder<D>(hasFini: set<D>, s: State<D>) returns (step: Step<D>, s': State<D>, u: Tid)
    requires Going(hasFini, s) && s.exit.rest != []
    ensures Next(hasFini, s, step, s') && Going(hasFini, s')
    ensures HeadFree(s) ==> s'.exit.rest == s.exit.rest[1..]
    ensures !HeadFree(s) ==>
      && Waited(s, u) && s'.exit == s.exit && Height(s'.Stack(u)) < Height(s.Stack(u))
      && (HeadFree(s') || Waited(s', u))
  {
    u := s.exit.tid;
    if HeadFree(s) {
      step, s' := LoopStep(hasFini, s);
    } else {
      u := s.visitor[s.exit.rest[0]];
      step, s' := HolderStep(hasFini, s, u);
      HeightStep(hasFini, s, step, s', u);
    }
    GoingStep(hasFini, s, step, s');
  }

  /** The loop waits for u. */
  predicate Waited<D(==)>(s: State<D>, u: Tid) {
    s.exit.Exiting? && s.exit.rest != [] && s.exit.rest[0] in s.visitor && s.visitor[s.exit.rest[0]] == u != s.exit.tid
  }

  lemma LoopStep<D>(hasFini: set<D>, s: State<D>) returns (step: Step<D>, s': State<D>)
    requires HeadFree(s)
    ensures Next(hasFini, s, step, s') && !step.Load? && s'.exit.Exiting? && s'.exit.rest == s.exit.rest[1..]
  {
    var p, exit := s.exit.rest[0], Exiting(s.exit.tid, s.exit.rest[1..]);
    if p in s.constructed {
      step, s' := RunDtor, s.(exit := exit, dtors := s.dtors + [p]);
    } else {
      step, s' := SkipDtor, s.(exit := exit);
    }
  }

  function WaitHeight<D(==)>(s: State<D>): nat {
    if s.exit.Exiting? && s.exit.rest != [] && s.exit.rest[0] in s.visitor && s.visitor[s.exit.rest[0]] != s.exit.tid
    then 1 + Height(s.Stack(s.visitor[s.exit.rest[0]])) else 0
  }

  lemma {:induction false} GoesToEnd<D>(hasFini: set<D>, s: State<D>)
    returns (states: seq<State<D>>, steps: seq<Step<D>>)
    requires Going(hasFini, s)
    ensures Ends(hasFini, s, states, steps)
    decreases if s.exit.Exiting? then |s.exit.rest| else 0, WaitHeight(s)
  {
    if s.exit.rest == [] {
      return [s], [];
    }
    var step, s', u := ExitOrHolder(hasFini, s);
    states, steps := GoesToEnd(hasFini, s');
    states, steps := EndsCons(hasFini, s, step, s', states, steps);
  }

  /** Once exit has begun, its loop can come to the end of the fini list if and only if no DSO on what is left of the
      list is being constructed by another thread below an unfinished call. */
  lemma ExitEndsIff<D(!new)>(hasFini: set<D>, s: State<D>)
    requires Ok(hasFini, s) && s.exit.Exiting?
    ensures CanEnd(hasFini, s) <==> Clear(s)
  {
    if Clear(s) {
      var states, steps := GoesToEnd(hasFini, s);
    } else {
      var u, k, j, p :| Blocks(s, u, k, j, p);
      forall states, steps | IsPath(hasFini, states, steps) && states[0] == s ensures !Ends(hasFini, s, states, steps) {
        BlockedForever(hasFini, states, steps, |steps|, u, k, j, p);
      }
    }
  }
}
