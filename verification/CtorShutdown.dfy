/** What the beginning of exit fixes: which thread is exiting, what it was constructing, and that nothing new is begun.
    */
module CtorShutdown {
  import opened DepGraph
  import opened CtorProtocol
  import opened CtorProgress
  import opened CtorExit

  /** The exiting thread holds no lock of do_init_fini: it runs the exit loop. */
  ghost predicate ExiterFree<D>(s: State<D>) { s.exit.Exiting? ==> s.Free(s.exit.tid) }

  /** After exit has begun, no thread takes up a DSO or makes a call, and the exiting thread's stack does not change. */
  lemma AfterExit<D>(hasFini: set<D>, s: State<D>, step: Step<D>, s': State<D>)
    requires Next(hasFini, s, step, s') && s.exit.Exiting? && ExiterFree(s)
    ensures s'.exit.Exiting? && s'.exit.tid == s.exit.tid && s'.Stack(s.exit.tid) == s.Stack(s.exit.tid)
    ensures s'.claims == s.claims && s'.fini == s.fini && ExiterFree(s') && forall u :: |s'.Stack(u)| <= |s.Stack(u)|
  {
  }

  /** The thread whose call of exit begins it is the one that runs the exit loop; its stack stays as it is. */
  lemma {:induction false} ExiterFixed<D>(hasFini: set<D>, states: seq<State<D>>, steps: seq<Step<D>>, i: nat, j: nat,
                                          t: Tid)
    requires IsPath(hasFini, states, steps) && i < |steps| && steps[i] == BeginExit(t) && i < j < |states|
    ensures states[j].exit.Exiting? && states[j].exit.tid == t && states[j].Stack(t) == states[i].Stack(t)
    ensures states[j].claims == states[i].claims && states[j].fini == states[i].fini && ExiterFree(states[j])
    ensures forall u :: |states[j].Stack(u)| <= |states[i].Stack(u)|
    decreases j
  {
    assert Next(hasFini, states[i], steps[i], states[i + 1]);
    if j > i + 1 {
      ExiterFixed(hasFini, states, steps, i, j - 1, t);
      AfterExit(hasFini, states[j - 1], steps[j - 1], states[j]);
    }
  }

  /** A DSO that a thread was constructing when it called exit is never constructed, nor destroyed, and the loop does
      not wait for it. */
  lemma UnderConstruction<D>(hasFini: set<D>, states: seq<State<D>>, steps: seq<Step<D>>, i: nat, j: nat, t: Tid, p: D)
    requires IsRun(hasFini, states, steps) && i < |steps| && steps[i] == BeginExit(t) && i < j < |states|
    requires p in states[i].visitor && states[i].visitor[p] == t
    ensures p in states[j].visitor && states[j].visitor[p] == t
    ensures p !in states[j].constructed && p !in states[j].dtors
    ensures states[j].exit.Exiting?
    ensures (states[j].exit.rest != [] && states[j].exit.rest[0] == p ==> HeadFree(states[j]))
  {
    RunOk(hasFini, states, steps, i);
    RunOk(hasFini, states, steps, j);
    ExiterFixed(hasFini, states, steps, i, j, t);
    var k := HeldWhere(states[i], p);
    assert FrameOk(states[j], t, states[j].frames[t][k]);
    NotDestroyed(states[j], p);
  }

  lemma NotDestroyed<D>(s: State<D>, p: D)
    requires ExitOk(s) && p !in s.constructed
    ensures p !in s.dtors
  {
    if s.exit.Exiting? {
      OnlyMembers(Walked(s), s.constructed, p);
    }
  }

  // ---------- exit can begin, and end

  lemma CanBegin<D>(hasFini: set<D>, s: State<D>, t: Tid) returns (s': State<D>)
    requires s.exit.NotYet? && s.Free(t)
    ensures Next(hasFini, s, BeginExit(t), s') && s'.frames == s.frames && s'.exit == Exiting(t, s.fini)
  {
    s' := s.(exit := Exiting(t, s.fini));
  }

  /** A thread may call exit whenever it runs code of the program or of a constructor; if no other thread is inside
      do_init_fini then, its loop comes to the end of the fini list. */
  lemma AloneExits<D>(hasFini: set<D>, s: State<D>, t: Tid) returns (states: seq<State<D>>, steps: seq<Step<D>>)
    requires Ok(hasFini, s) && s.exit.NotYet? && s.Free(t) && forall u | u != t :: s.Stack(u) == []
    ensures Ends(hasFini, s, states, steps) && |steps| > 0 && steps[0] == BeginExit(t)
  {
    var s1 := CanBegin(hasFini, s, t);
    OkStep(hasFini, s, BeginExit(t), s1);
    assert forall u | u != t :: s1.Stack(u) == s.Stack(u);
    NoneBlocks(s1, t);
    states, steps := GoesToEnd(hasFini, s1);
    PathCons(hasFini, s, BeginExit(t), states, steps);
    states, steps := [s] + states, [BeginExit(t)] + steps;
  }

  lemma NoneBlocks<D>(s: State<D>, t: Tid)
    requires s.exit.Exiting? && s.exit.tid == t && forall u | u != t :: s.Stack(u) == []
    ensures Clear(s)
  {
    forall u, k, j, p | p in s.exit.rest ensures !Blocks(s, u, k, j, p) {
      assert u != t ==> s.Stack(u) == [];
    }
  }
}
