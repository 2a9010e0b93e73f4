/** extend_bfs_deps and queue_ctors on the heap nodes they change. */
module Linkers {
  import opened BfsList
  import opened DepGraph
  import opened CtorSort
  import opened Dsos

  const BUILTIN_QUEUE_LEN := 4

  class Linker {
    const head: Dso
    ghost const all: seq<Dso>
    ghost const g: Graph<Dso>
    const builtinCtorQueue: array<Dso?>

    /** The loaded DSOs are the list from `head`; g records their direct dependencies. */
    ghost predicate Structure()
      reads g.Keys`next, g.Keys`deps, g.Keys`ndepsDirect, g.Keys`bfsBuilt
    {
      && |all| > 0 && all[0] == head && g.Keys == (set d | d in all) && InList(all)
      && builtinCtorQueue.Length == BUILTIN_QUEUE_LEN
      && Closed(g)
      && forall d | d in g :: DepsOk(d)
    }

    ghost predicate DepsOk(d: Dso)
      requires d in g
      reads d`deps, d`ndepsDirect, d`bfsBuilt
    {
      && d.ndepsDirect == |g[d]| && g[d] <= d.deps
      && (if d.bfsBuilt then BfsDeps(g, d, d.deps) else d.deps == g[d])
    }

    ghost predicate MarksClear()
      reads g.Keys`mark
    {
      forall d | d in g :: !d.mark
    }

    constructor (head: Dso, ghost all: seq<Dso>, ghost g: Graph<Dso>, builtin: array<Dso?>)
      ensures this.head == head && this.all == all && this.g == g && builtinCtorQueue == builtin
    {
      this.head, this.all, this.g, builtinCtorQueue := head, all, g, builtin;
    }

    /** Clears the mark of every loaded DSO, walking the list. */
    method ClearAllMarks() returns (cnt: nat)
      requires Structure()
      modifies g.Keys`mark
      ensures MarksClear() && cnt == |all|
    {
      var p: Dso? := head;
      cnt := 0;
      while p != null
        invariant 0 <= cnt <= |all| && Structure()
        invariant p == if cnt < |all| then all[cnt] else null
        invariant forall i | 0 <= i < cnt :: !all[i].mark
        decreases |all| - cnt
      {
        assert all[cnt].next == if cnt + 1 < |all| then all[cnt + 1] else null;
        p.mark := false;
        cnt, p := cnt + 1, p.next;
      }
    }

    /** The marks and positions of the DSOs in `reach` are those of the sort state s. */
    ghost predicate Agrees(s: Dfs<Dso>, reach: set<Dso>)
      reads reach`mark, reach`nextDep
    {
      && s.next.Keys <= reach
      && (forall d | d in reach :: d.mark <==> d in s.next)
      && (forall d | d in s.next :: d.nextDep == s.next[d])
    }

    /** The output queue fills `slots` from the left, the stack from the right, top innermost. */
    ghost predicate Ends(slots: array<Dso?>, cnt: nat, s: Dfs<Dso>, spos: nat)
      reads slots
    {
      && |s.queue| <= spos <= cnt <= slots.Length && cnt - spos <= |s.path|
      && (forall i | 0 <= i < |s.queue| :: slots[i] == s.queue[i])
      && (forall k | 0 <= k < cnt - spos :: slots[cnt - 1 - k] == s.path[k])
    }

    /** `reach` is closed under dependencies, and its members list their dependencies as g does. */
    ghost predicate Area(root: Dso, reach: set<Dso>)
      reads reach`deps, reach`ndepsDirect
    {
      && root in reach && reach <= g.Keys
      && (forall x | x in reach :: x.ndepsDirect == |g[x]| <= |x.deps|)
      && (forall x, k | x in reach && 0 <= k < |g[x]| :: x.deps[k] == g[x][k] && g[x][k] in reach)
    }

    lemma ReachSetIsArea(root: Dso)
      requires Structure() && root in g
      ensures Area(root, ReachSet(g, root))
    {
      ReachesRefl(g, root);
      forall x, k | x in ReachSet(g, root) && 0 <= k < |g[x]| ensures g[x][k] in ReachSet(g, root) {
        ReachesEdge(g, x, g[x][k]);
        ReachesTrans(g, root, x, g[x][k]);
      }
    }

    /** queue_ctors: afterwards the slots hold the constructor order of `dso`, NULL-terminated,
        and the marks it used are clear again. */
    method QueueCtors(dso: Dso) returns (slots: array<Dso?>, ghost q: seq<Dso>)
      requires Structure() && dso in g
      modifies g.Keys`mark, g.Keys`nextDep, builtinCtorQueue
      ensures CtorOrder(g, dso, q)
      ensures |q| < slots.Length && slots[|q|] == null
      ensures fresh(slots) || (dso == head && slots == builtinCtorQueue)
      ensures forall i | 0 <= i < |q| :: slots[i] == q[i]
      ensures forall d | d in g :: d.mark ==> old(d.mark) && d !in q
    {
      ghost var reach := ReachSet(g, dso);
      ReachSetIsArea(dso);
      var cnt := ClearMarks(dso);
      if dso == head && cnt <= BUILTIN_QUEUE_LEN {
        slots := builtinCtorQueue;
      } else {
        slots := new Dso?[cnt](_ => null);
      }
      var qpos;
      qpos, q := Sort(dso, slots, cnt, reach);
      Unmark(slots, qpos, q);
    }

    /** Clears the marks of the queued DSOs. */
    method Unmark(slots: array<Dso?>, qpos: nat, ghost q: seq<Dso>)
      requires qpos == |q| <= slots.Length && (forall d | d in q :: d in g)
      requires forall k | 0 <= k < |q| :: slots[k] == q[k]
      modifies g.Keys`mark
      ensures forall d | d in g :: d.mark <==> old(d.mark) && d !in q
    {
      var i := 0;
      while i < qpos
        invariant 0 <= i <= qpos
        invariant forall d | d in g :: d.mark <==> old(d.mark) && d !in q[..i]
      {
        slots[i].mark := false;
        i := i + 1;
        assert q[..i] == q[..i - 1] + [q[i - 1]];
      }
      assert q[..i] == q;
    }

    method ClearMarks(dso: Dso) returns (cnt: nat)
      requires Structure() && dso in g
      modifies g.Keys`mark
      ensures cnt > |ReachSet(g, dso)|
      ensures forall d | d in g && Reaches(g, dso, d) && d != dso :: !d.mark
      ensures forall d | d in g :: d.mark ==> old(d.mark)
    {
      if dso.bfsBuilt {
        BfsListBoundsReach(g, dso, dso.deps);
        cnt := 0;
        while cnt < |dso.deps|
          invariant 0 <= cnt <= |dso.deps|
          invariant forall i | 0 <= i < cnt :: !dso.deps[i].mark
          invariant forall d | d in g :: d.mark ==> old(d.mark)
        {
          dso.deps[cnt].mark := false;
          cnt := cnt + 1;
        }
        cnt := cnt + 1;
        forall d | d in g && Reaches(g, dso, d) && d != dso ensures !d.mark {
          ReachIsSelfOrBelow(g, dso, d);
          assert d in dso.deps;
        }
      } else {
        cnt := ClearAllMarks();
        SetOfSeqSize(all);
        SubsetSize(ReachSet(g, dso), g.Keys);
      }
      cnt := cnt + 1;
    }

    method StepOver(p: Dso, ghost s: Dfs<Dso>, ghost reach: set<Dso>)
      requires s.path != [] && p == Top(s) && p in s.next && Agrees(s, reach)
      modifies p`nextDep
      ensures Agrees(Advance(s), reach)
    {
      p.nextDep := p.nextDep + 1;
    }

    /** Pushes the DSO in hand and takes its next dependency, unmarked so far, in hand. */
    method Push(p: Dso, slots: array<Dso?>, cnt: nat, spos: nat, ghost s: Dfs<Dso>, ghost reach: set<Dso>)
      returns (d: Dso)
      requires s.path != [] && p == Top(s) && Agrees(s, reach)
      requires p.nextDep < |p.deps| && p.deps[p.nextDep] in reach && !p.deps[p.nextDep].mark
      requires Ends(slots, cnt, s, spos + 1) && spos == cnt - |s.path| >= |s.queue|
      modifies reach`mark, reach`nextDep, slots
      ensures d == old(p.deps[p.nextDep]) && d !in s.next
      ensures Agrees(Descend(s, d), reach) && Ends(slots, cnt, Descend(s, d), spos)
    {
      slots[spos] := p;
      d := p.deps[p.nextDep];
      d.nextDep, d.mark := 0, true;
    }

    /** The inner loop: steps over marked dependencies of the DSO in hand and descends into
        unmarked ones, until the DSO in hand has none left. */
    method Drain(ghost root: Dso, first: Dso, slots: array<Dso?>, cnt: nat, top: nat,
                 ghost r: set<(Dso, Dso)>, ghost before: Dfs<Dso>, ghost reach: set<Dso>)
      returns (p: Dso, spos: nat, ghost s: Dfs<Dso>)
      requires Area(root, reach) && Extends(g, r) && |reach| < cnt
      requires Inv(g, r, root, before) && Agrees(before, reach) && before.path != [] && Top(before) == first
      requires Ends(slots, cnt, before, top) && top == cnt - |before.path| + 1
      modifies reach`mark, reach`nextDep, slots
      ensures Inv(g, r, root, s) && Agrees(s, reach)
      ensures s.path != [] && Top(s) == p && s.next[p] == |g[p]|
      ensures Ends(slots, cnt, s, spos) && spos == cnt - |s.path| + 1 && s.queue == before.queue
      ensures |s.path| >= |before.path| && |s.queue| < spos
    {
      p, spos, s := DrainAll(root, first, slots, cnt, top, r, before, reach);
      SlotsSuffice(s, reach);
    }

    method DrainAll(ghost root: Dso, first: Dso, slots: array<Dso?>, cnt: nat, top: nat,
                    ghost r: set<(Dso, Dso)>, ghost before: Dfs<Dso>, ghost reach: set<Dso>)
      returns (p: Dso, spos: nat, ghost s: Dfs<Dso>)
      requires Area(root, reach) && Extends(g, r) && |reach| < cnt
      requires Inv(g, r, root, before) && Agrees(before, reach) && before.path != [] && Top(before) == first
      requires Ends(slots, cnt, before, top) && top == cnt - |before.path| + 1
      modifies reach`mark, reach`nextDep, slots
      ensures Inv(g, r, root, s) && Agrees(s, reach)
      ensures s.path != [] && Top(s) == p && p.nextDep >= p.ndepsDirect
      ensures Ends(slots, cnt, s, spos) && spos == cnt - |s.path| + 1 && s.queue == before.queue
      ensures |s.path| >= |before.path|
    {
      p, spos, s := first, top, before;
      while p.nextDep < p.ndepsDirect
        invariant Inv(g, r, root, s) && Agrees(s, reach)
        invariant s.path != [] && Top(s) == p && s.queue == before.queue
        invariant Ends(slots, cnt, s, spos) && spos == cnt - |s.path| + 1
        invariant |s.path| >= |before.path|
        decreases cnt - |s.path|, StillToDo(s)
      {
        p, spos, s := Step(root, p, slots, cnt, spos, r, s, reach);
      }
    }

    /** The dependencies that the DSO in hand has not looked at. */
    ghost function StillToDo(s: Dfs<Dso>): nat {
      if s.path != [] && Top(s) in s.next && Top(s) in g && s.next[Top(s)] <= |g[Top(s)]|
      then |g[Top(s)]| - s.next[Top(s)] else 0
    }

    method Step(ghost root: Dso, p: Dso, slots: array<Dso?>, cnt: nat, spos: nat,
                ghost r: set<(Dso, Dso)>, ghost s: Dfs<Dso>, ghost reach: set<Dso>)
      returns (p': Dso, spos': nat, ghost s': Dfs<Dso>)
      requires Area(root, reach) && Extends(g, r) && |reach| < cnt
      requires Inv(g, r, root, s) && Agrees(s, reach) && s.path != [] && Top(s) == p
      requires Ends(slots, cnt, s, spos) && spos == cnt - |s.path| + 1
      requires p.nextDep < p.ndepsDirect
      modifies reach`mark, reach`nextDep, slots
      ensures Inv(g, r, root, s') && Agrees(s', reach)
      ensures s'.path != [] && Top(s') == p' && s'.queue == s.queue
      ensures Ends(slots, cnt, s', spos') && spos' == cnt - |s'.path| + 1
      ensures (s'.path == s.path && StillToDo(s') < StillToDo(s)) || |s'.path| == |s.path| + 1 <= cnt
    {
      if p.deps[p.nextDep].mark {
        StepOver(p, s, reach);
        AdvanceInv(g, r, root, s);
        p', spos', s' := p, spos, Advance(s);
      } else {
        SlotsSuffice(s, reach);
        spos' := spos - 1;
        p' := Push(p, slots, cnt, spos', s, reach);
        DescendInv(g, r, root, s, p');
        s' := Descend(s, p');
      }
    }

    /** The initial stack: just the argument, marked. */
    method Begin(dso: Dso, slots: array<Dso?>, cnt: nat, ghost reach: set<Dso>)
      requires dso in reach && 0 < cnt <= slots.Length
      requires forall d | d in reach && d != dso :: !d.mark
      modifies reach`mark, reach`nextDep, slots
      ensures Agrees(Start(dso), reach) && Ends(slots, cnt, Start(dso), cnt - 1)
    {
      slots[cnt - 1] := dso;
      dso.nextDep, dso.mark := 0, true;
    }

    method Pop(slots: array<Dso?>, cnt: nat, spos: nat, ghost s: Dfs<Dso>) returns (p: Dso)
      requires s.path != [] && Ends(slots, cnt, s, spos) && spos == cnt - |s.path|
      ensures p == Top(s) && Ends(slots, cnt, s, spos + 1)
    {
      assert slots[cnt - 1 - (|s.path| - 1)] == s.path[|s.path| - 1];
      p := slots[spos];
    }

    /** Moves the finished DSO in hand to the output end. */
    method Output(p: Dso, slots: array<Dso?>, cnt: nat, qpos: nat, spos: nat, ghost s: Dfs<Dso>)
      requires s.path != [] && p == Top(s) && qpos == |s.queue| < spos
      requires Ends(slots, cnt, s, spos) && spos == cnt - |s.path| + 1
      modifies slots
      ensures Ends(slots, cnt, Emit(s), spos)
    {
      slots[qpos] := p;
    }

    /** The depth-first sort into `slots`. */
    method Sort(dso: Dso, slots: array<Dso?>, cnt: nat, ghost reach: set<Dso>)
      returns (qpos: nat, ghost q: seq<Dso>)
      requires Closed(g) && Area(dso, reach) && |reach| < cnt <= slots.Length
      requires forall d | d in reach && d != dso :: !d.mark
      modifies reach`mark, reach`nextDep, slots
      ensures CtorOrder(g, dso, q) && (forall d | d in reach && d.mark :: d in q)
      ensures qpos == |q| < cnt && slots[qpos] == null && forall i | 0 <= i < |q| :: slots[i] == q[i]
    {
      ghost var s;
      qpos, s := SortAll(dso, slots, cnt, ReachPairs(g), reach);
      slots[qpos] := null;
      q := s.queue;
      DoneIsCtorOrder(g, dso, s);
    }

    method SortAll(dso: Dso, slots: array<Dso?>, cnt: nat, ghost r: set<(Dso, Dso)>, ghost reach: set<Dso>)
      returns (qpos: nat, ghost s: Dfs<Dso>)
      requires Closed(g) && Area(dso, reach) && |reach| < cnt <= slots.Length && r == ReachPairs(g)
      requires forall d | d in reach && d != dso :: !d.mark
      modifies reach`mark, reach`nextDep, slots
      ensures Inv(g, r, dso, s) && s.path == [] && Agrees(s, reach)
      ensures qpos == |s.queue| < cnt && Ends(slots, cnt, s, cnt)
    {
      ReachPairsExtend(g);
      StartInv(g, r, dso);
      qpos, s := SortLoop(dso, slots, cnt, r, reach);
      SlotsSuffice(s, reach);
    }

    /** One turn of the outer loop: takes the top of the stack, drains it, queues what is in hand. */
    method Round(ghost dso: Dso, slots: array<Dso?>, cnt: nat, qpos: nat, spos: nat,
                 ghost r: set<(Dso, Dso)>, ghost s: Dfs<Dso>, ghost reach: set<Dso>)
      returns (qpos': nat, spos': nat, ghost s': Dfs<Dso>)
      requires Area(dso, reach) && Extends(g, r) && |reach| < cnt
      requires Inv(g, r, dso, s) && Agrees(s, reach) && Ends(slots, cnt, s, spos)
      requires qpos == |s.queue| && spos == cnt - |s.path| < cnt
      modifies reach`mark, reach`nextDep, slots
      ensures Inv(g, r, dso, s') && Agrees(s', reach) && Ends(slots, cnt, s', spos')
      ensures qpos' == |s'.queue| && spos' == cnt - |s'.path|
      ensures spos' - qpos' < spos - qpos || (spos' - qpos' == spos - qpos && |s'.path| < |s.path|)
    {
      var p := Pop(slots, cnt, spos, s);
      ghost var t;
      p, spos', t := Drain(dso, p, slots, cnt, spos + 1, r, s, reach);
      QueueTop(dso, p, slots, cnt, qpos, spos', r, t, reach);
      s', qpos' := Emit(t), qpos + 1;
    }

    method QueueTop(ghost dso: Dso, p: Dso, slots: array<Dso?>, cnt: nat, qpos: nat, spos: nat,
                    ghost r: set<(Dso, Dso)>, ghost t: Dfs<Dso>, ghost reach: set<Dso>)
      requires Inv(g, r, dso, t) && Agrees(t, reach) && Extends(g, r)
      requires t.path != [] && Top(t) == p && t.next[p] == |g[p]|
      requires Ends(slots, cnt, t, spos) && spos == cnt - |t.path| + 1 && qpos == |t.queue| < spos
      modifies slots
      ensures Inv(g, r, dso, Emit(t)) && Agrees(Emit(t), reach) && Ends(slots, cnt, Emit(t), spos)
    {
      Output(p, slots, cnt, qpos, spos, t);
      EmitInv(g, r, dso, t);
    }

    method SortLoop(dso: Dso, slots: array<Dso?>, cnt: nat, ghost r: set<(Dso, Dso)>, ghost reach: set<Dso>)
      returns (qpos: nat, ghost s: Dfs<Dso>)
      requires Area(dso, reach) && |reach| < cnt <= slots.Length && Extends(g, r)
      requires Inv(g, r, dso, Start(dso))
      requires forall d | d in reach && d != dso :: !d.mark
      modifies reach`mark, reach`nextDep, slots
      ensures Inv(g, r, dso, s) && s.path == [] && Agrees(s, reach)
      ensures qpos == |s.queue| && Ends(slots, cnt, s, cnt)
    {
      s, qpos := Start(dso), 0;
      var spos: nat := cnt - 1;
      Begin(dso, slots, cnt, reach);
      while spos < cnt
        invariant Inv(g, r, dso, s) && Agrees(s, reach)
        invariant Ends(slots, cnt, s, spos)
        invariant qpos == |s.queue| && spos == cnt - |s.path|
        decreases spos - qpos, |s.path|
      {
        qpos, spos, s := Round(dso, slots, cnt, qpos, spos, r, s, reach);
      }
    }

    /** Every DSO still lists its direct dependencies first. */
    ghost predicate DirectOk()
      reads g.Keys`deps, g.Keys`ndepsDirect
    {
      && (forall d | d in g :: d.ndepsDirect == |g[d]| <= |d.deps|)
      && (forall d, k | d in g && 0 <= k < |g[d]| :: d.deps[k] == g[d][k])
    }

    /** The marked DSOs are exactly those on the list. */
    ghost predicate MarksAre(list: seq<Dso>)
      reads g.Keys`mark
    {
      forall d | d in g :: d.mark <==> d in list
    }

    /** extend_bfs_deps, with allocation succeeding. */
    method ExtendBfsDeps(p: Dso)
      requires Structure() && MarksClear() && p in g
      modifies p`deps, p`bfsBuilt, g.Keys`mark
      ensures BfsDeps(g, p, p.deps) && p.bfsBuilt && MarksClear() && Structure()
    {
      if p.bfsBuilt {
        return;
      }
      BuildList(p);
      p.bfsBuilt := true;
      assert DepsOk(p);
      var _ := ClearAllMarks();
    }

    method BuildList(p: Dso)
      requires Structure() && MarksClear() && p in g && !p.bfsBuilt
      modifies p`deps, g.Keys`mark
      ensures BfsDeps(g, p, p.deps)
    {
      LowSetDownward(g, p);
      MarkDeps(p);
      Grow(p, LowSet(g, p));
      GrownIsBfsDeps(g, p, p.deps);
    }

    /** Marks the direct dependencies so that they are not listed twice. */
    method MarkDeps(p: Dso)
      requires MarksClear() && p in g && forall d | d in p.deps :: d in g
      modifies g.Keys`mark
      ensures MarksAre(p.deps)
    {
      var i := 0;
      while i < |p.deps|
        invariant 0 <= i <= |p.deps|
        invariant forall d | d in g :: d.mark <==> d in p.deps[..i]
      {
        p.deps[i].mark := true;
        i := i + 1;
        assert p.deps[..i] == p.deps[..i - 1] + [p.deps[i - 1]];
      }
      assert p.deps[..i] == p.deps;
    }

    /** The outer loop: the list it runs over grows under it. */
    method Grow(p: Dso, ghost low: set<Dso>)
      requires p in g && DirectOk() && Downward(g, p, low) && p.deps == g[p]
      requires MarksAre(p.deps)
      modifies p`deps, g.Keys`mark
      ensures DirectOk() && Grown(g, p, p.deps, |p.deps|, low)
    {
      var i := 0;
      while i < |p.deps|
        invariant 0 <= i <= |p.deps| && DirectOk() && Grown(g, p, p.deps, i, low)
        invariant MarksAre(p.deps)
        decreases |g[p]| + |g.Keys| - i
      {
        GrownBounded(g, p, p.deps, i, low);
        AppendDeps(p, p.deps[i], i, low);
        i := i + 1;
      }
    }

    /** One turn: makes room for the unmarked direct dependencies of `dep`, then appends them. */
    method AppendDeps(p: Dso, dep: Dso, ghost done: nat, ghost low: set<Dso>)
      requires p in g && DirectOk() && Downward(g, p, low) && dep in low
      requires Grown(g, p, p.deps, done, low) && done < |p.deps| && p.deps[done] == dep
      requires MarksAre(p.deps)
      modifies p`deps, g.Keys`mark
      ensures DirectOk() && Grown(g, p, p.deps, done + 1, low) && |p.deps| >= old(|p.deps|)
      ensures MarksAre(p.deps)
    {
      var cnt := CountUnmarked(dep, p.deps);
      var slots := |p.deps| + cnt + 1;
      var j := 0;
      assert g[dep][0..] == g[dep];
      while j < dep.ndepsDirect
        invariant 0 <= j <= |g[dep]| && DirectOk() && Grown(g, p, p.deps, done, low)
        invariant MarksAre(p.deps) && old(p.deps) <= p.deps
        invariant forall k | 0 <= k < j :: g[dep][k] in p.deps
        invariant |p.deps| + Missing(g[dep][j..], p.deps) < slots
      {
        if !dep.deps[j].mark {
          MissingShrinks(g[dep][j + 1..], p.deps, g[dep][j]);
          assert g[dep][j..][1..] == g[dep][j + 1..];
          AppendOne(p, dep.deps[j], slots, done, low);
        }
        assert g[dep][j..][1..] == g[dep][j + 1..];
        j := j + 1;
      }
    }

    /** Counts the direct dependencies that are not marked yet. */
    method CountUnmarked(dep: Dso, ghost list: seq<Dso>) returns (cnt: nat)
      requires dep in g && DirectOk() && MarksAre(list) && forall k | 0 <= k < |g[dep]| :: g[dep][k] in g
      ensures cnt == Missing(g[dep], list)
    {
      cnt := 0;
      var j := 0;
      assert g[dep][0..] == g[dep];
      while j < dep.ndepsDirect
        invariant 0 <= j <= |g[dep]| && cnt + Missing(g[dep][j..], list) == Missing(g[dep], list)
      {
        assert g[dep][j..][1..] == g[dep][j + 1..];
        if !dep.deps[j].mark {
          cnt := cnt + 1;
        }
        j := j + 1;
      }
    }

    /** Appends one unmarked DSO; with the terminator the list still fits its `slots`. */
    method AppendOne(p: Dso, x: Dso, slots: nat, ghost done: nat, ghost low: set<Dso>)
      requires p in g && x in g && x in low && !x.mark && DirectOk()
      requires Grown(g, p, p.deps, done, low) && done <= |p.deps| && MarksAre(p.deps)
      requires |p.deps| + 1 < slots
      modifies p`deps, x`mark
      ensures DirectOk() && p.deps == old(p.deps) + [x] && |p.deps| < slots
      ensures Grown(g, p, p.deps, done, low) && MarksAre(p.deps)
    {
      AppendGrown(g, p, p.deps, done, low, x);
      x.mark := true;
      p.deps := p.deps + [x];
    }
  }
}
