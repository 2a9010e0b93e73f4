/** Singly linked lists whose links may run into a cycle, and what pushing and relinking does to them. */
module LazyList {
  import opened DepGraph
  import opened Options

  type Links<!D> = D -> Option<D>

  function At<D>(list: seq<D>, k: nat): Option<D> { if k < |list| then Some(list[k]) else None }

  /** What follows place k of a list that goes back to place `back` after its end. */
  function Succ<D>(list: seq<D>, back: nat, k: nat): Option<D> {
    if k + 1 < |list| then Some(list[k + 1]) else At(list, back)
  }

  /** From head, the links run through the list, without repeats, and then on to its place `back`: for ever, or, when
      `back` is its length, not at all. Links from any head have this shape. */
  ghost predicate Lasso<D>(f: Links<D>, head: Option<D>, list: seq<D>, back: nat) {
    && Distinct(list) && back <= |list| && head == At(list, 0)
    && forall k {:trigger f(list[k])} | 0 <= k < |list| :: f(list[k]) == Succ(list, back, k)
  }

  /** So the links determine the list. */
  lemma LassoUnique<D>(f: Links<D>, head: Option<D>, l1: seq<D>, b1: nat, l2: seq<D>, b2: nat)
    requires Lasso(f, head, l1, b1) && Lasso(f, head, l2, b2)
    ensures l1 == l2 && b1 == b2
  {
    if |l1| <= |l2| {
      LassoPrefix(f, head, l1, b1, l2, b2, |l1|);
      NotShorter(f, head, l1, b1, l2, b2);
    } else {
      LassoPrefix(f, head, l2, b2, l1, b1, |l2|);
      NotShorter(f, head, l2, b2, l1, b1);
    }
  }

  lemma {:induction false} LassoPrefix<D>(f: Links<D>, head: Option<D>, l1: seq<D>, b1: nat, l2: seq<D>, b2: nat,
                                          n: nat)
    requires Lasso(f, head, l1, b1) && Lasso(f, head, l2, b2) && n <= |l1| <= |l2|
    ensures l1[..n] == l2[..n]
  {
    if n > 0 {
      LassoPrefix(f, head, l1, b1, l2, b2, n - 1);
      if n > 1 {
        assert l1[n - 2] == l1[..n - 1][n - 2] && l2[n - 2] == l2[..n - 1][n - 2];
        assert f(l1[n - 2]) == Some(l1[n - 1]) && f(l2[n - 2]) == Some(l2[n - 1]);
      }
    }
  }

  lemma NotShorter<D>(f: Links<D>, head: Option<D>, l1: seq<D>, b1: nat, l2: seq<D>, b2: nat)
    requires Lasso(f, head, l1, b1) && Lasso(f, head, l2, b2) && |l1| <= |l2| && l1 == l2[..|l1|]
    ensures l1 == l2 && b1 == b2
  {
    if l1 != [] {
      var k := |l1| - 1;
      assert f(l1[k]) == At(l1, b1) && f(l2[k]) == Succ(l2, b2, k);
    }
  }

  // ---------- pushing

  /** The links after that of x is set to h. */
  function With<D(==)>(f: Links<D>, x: D, h: Option<D>): Links<D> { (d: D) => if d == x then h else f(d) }

  function IndexOf<D(==)>(list: seq<D>, x: D): (k: nat)
    requires x in list
    ensures k < |list| && list[k] == x
  { if list[0] == x then 0 else 1 + IndexOf(list[1..], x) }

  /** The list from the head after x is pushed: a DSO that is on the list already closes a cycle, and everything behind
      its old place is lost. */
  function PushList<D(==)>(list: seq<D>, x: D): seq<D> {
    if x in list then [x] + list[..IndexOf(list, x)] else [x] + list
  }

  function PushBack<D(==)>(list: seq<D>, back: nat, x: D): nat { if x in list then 0 else back + 1 }

  lemma PushLasso<D>(f: Links<D>, head: Option<D>, list: seq<D>, back: nat, x: D)
    requires Lasso(f, head, list, back)
    ensures Lasso(With(f, x, head), Some(x), PushList(list, x), PushBack(list, back, x))
  {
    if x in list {
      PushAgain(f, head, list, back, x);
    } else {
      PushNew(f, head, list, back, x);
    }
  }

  lemma PushAgain<D>(f: Links<D>, head: Option<D>, list: seq<D>, back: nat, x: D)
    requires Lasso(f, head, list, back) && x in list
    ensures Lasso(With(f, x, head), Some(x), [x] + list[..IndexOf(list, x)], 0)
  {
    var n := IndexOf(list, x);
    var l := [x] + list[..n];
    forall k | 0 <= k < |l| ensures With(f, x, head)(l[k]) == Succ(l, 0, k) {
      if k > 0 {
        assert l[k] == list[k - 1] && f(list[k - 1]) == Succ(list, back, k - 1);
      }
    }
  }

  lemma PushNew<D>(f: Links<D>, head: Option<D>, list: seq<D>, back: nat, x: D)
    requires Lasso(f, head, list, back) && x !in list
    ensures Lasso(With(f, x, head), Some(x), [x] + list, back + 1)
  {
    var l := [x] + list;
    forall k | 0 <= k < |l| ensures With(f, x, head)(l[k]) == Succ(l, back + 1, k) {
      if k > 0 {
        assert l[k] == list[k - 1] && f(list[k - 1]) == Succ(list, back, k - 1);
      }
    }
  }

  /** Changing a link off the list changes nothing on it. */
  lemma ElsewhereLasso<D>(f: Links<D>, head: Option<D>, list: seq<D>, back: nat, x: D, h: Option<D>)
    requires Lasso(f, head, list, back) && x !in list
    ensures Lasso(With(f, x, h), head, list, back)
  {
    forall k | 0 <= k < |list| ensures With(f, x, h)(list[k]) == Succ(list, back, k) {
      assert list[k] in list && f(list[k]) == Succ(list, back, k);
    }
  }

  // ---------- pushing several

  /** A list and the place it goes back to. */
  datatype Chain<D> = Chain(list: seq<D>, back: nat)

  /** The list from the head after the DSOs of xs are pushed one by one. */
  function PushAll<D(==)>(c: Chain<D>, xs: seq<D>): Chain<D> {
    if xs == [] then c
    else
      var x, b := xs[|xs| - 1], PushAll(c, xs[..|xs| - 1]);
      Chain(PushList(b.list, x), PushBack(b.list, b.back, x))
  }

  /** The links and the head after it. */
  function LinkAll<D(==)>(f: Links<D>, head: Option<D>, xs: seq<D>): (Links<D>, Option<D>) {
    if xs == [] then (f, head)
    else
      var x, b := xs[|xs| - 1], LinkAll(f, head, xs[..|xs| - 1]);
      (With(b.0, x, b.1), Some(x))
  }

  lemma {:induction false} PushAllLasso<D>(f: Links<D>, head: Option<D>, c: Chain<D>, xs: seq<D>)
    requires Lasso(f, head, c.list, c.back)
    ensures var b, d := LinkAll(f, head, xs), PushAll(c, xs); Lasso(b.0, b.1, d.list, d.back)
  {
    if xs != [] {
      var front := xs[..|xs| - 1];
      PushAllLasso(f, head, c, front);
      var b, d := LinkAll(f, head, front), PushAll(c, front);
      PushLasso(b.0, b.1, d.list, d.back, xs[|xs| - 1]);
    }
  }

  /** The pushed DSOs, the last one first, and then the old list. */
  function OnTop<D>(xs: seq<D>, below: seq<D>): (r: seq<D>)
    ensures |r| == |xs| + |below|
  { if xs == [] then below else [xs[|xs| - 1]] + OnTop(xs[..|xs| - 1], below) }

  lemma {:induction false} OnTopMembers<D>(xs: seq<D>, below: seq<D>)
    ensures forall k | 0 <= k < |xs| :: OnTop(xs, below)[k] in xs
    ensures OnTop(xs, below)[|xs|..] == below
    ensures forall x | x in xs :: x in OnTop(xs, below)[..|xs|]
  {
    if xs != [] {
      var front, r := xs[..|xs| - 1], OnTop(xs, below);
      OnTopMembers(front, below);
      assert r[..|xs|] == [xs[|xs| - 1]] + OnTop(front, below)[..|front|];
    }
  }

  /** Pushing DSOs that are not on the list puts them all in front of it if and only if no one is pushed twice. If one
      is, the links never end and the whole old list is lost. */
  lemma {:induction false} PushAllExact<D>(c: Chain<D>, xs: seq<D>)
    requires forall x | x in xs :: x !in c.list
    ensures var d := PushAll(c, xs);
      && (d.list == OnTop(xs, c.list) <==> Distinct(xs))
      && (Distinct(xs) ==> d.back == |xs| + c.back)
      && (!Distinct(xs) ==> d.back < |d.list| < |xs| + |c.list| && forall y | y in c.list :: y !in d.list)
      && (forall y | y in d.list :: y in xs || y in c.list)
  {
    if xs != [] {
      var front, x := xs[..|xs| - 1], xs[|xs| - 1];
      PushAllExact(c, front);
      OnTopMembers(front, c.list);
      if Distinct(front) {
        PushOnDistinct(c, front, x, PushAll(c, front).list);
        assert xs == front + [x];
      } else {
        assert !Distinct(xs) by { StillRepeats(xs); }
      }
    }
  }

  lemma StillRepeats<D>(xs: seq<D>)
    requires xs != [] && !Distinct(xs[..|xs| - 1])
    ensures !Distinct(xs)
  {
    var i, j :| 0 <= i < j < |xs| - 1 && xs[..|xs| - 1][i] == xs[..|xs| - 1][j];
    assert xs[i] == xs[j];
  }

  lemma PushOnDistinct<D>(c: Chain<D>, front: seq<D>, x: D, l: seq<D>)
    requires Distinct(front) && l == OnTop(front, c.list) && x !in c.list && forall y | y in front :: y !in c.list
    ensures x in l <==> x in front
    ensures Distinct(front + [x]) <==> x !in front
    ensures x in l ==> IndexOf(l, x) < |front| && forall y | y in l[..IndexOf(l, x)] :: y in front
  {
    OnTopMembers(front, c.list);
    if x in front {
      var i :| 0 <= i < |front| && front[i] == x;
      assert (front + [x])[i] == (front + [x])[|front|];
    } else {
      DistinctAppend(front, x);
    }
  }

  // ---------- walking the list and relinking what is kept

  /** The places below i that are kept, the last one first. */
  function Kept(keep: nat -> bool, i: nat): (r: seq<nat>)
    ensures forall k | 0 <= k < |r| :: r[k] < i
  { if i == 0 then [] else if keep(i - 1) then [i - 1] + Kept(keep, i - 1) else Kept(keep, i - 1) }

  /** They are exactly the kept ones, each once. */
  lemma {:induction false} KeptExactly(keep: nat -> bool, i: nat)
    ensures forall j | 0 <= j < i :: j in Kept(keep, i) <==> keep(j)
    ensures forall j, k | 0 <= j < k < |Kept(keep, i)| :: Kept(keep, i)[j] > Kept(keep, i)[k]
  {
    if i > 0 {
      KeptExactly(keep, i - 1);
    }
  }

  /** The links of the places, the head of the new list, and the list from that head. */
  datatype Walk = Walk(f: Links<nat>, head: Option<nat>, c: Chain<nat>)

  /** One visit: a kept place is pushed on the new list, any other loses its link. */
  function Visit(w: Walk, d: nat, kept: bool): Walk {
    if kept then Walk(With(w.f, d, w.head), Some(d), Chain(PushList(w.c.list, d), PushBack(w.c.list, w.c.back, d)))
    else w.(f := With(w.f, d, None))
  }

  /** The link of place k before the walk, on a list of n places that goes back to place `back`. */
  function First(n: nat, back: nat, k: nat): Option<nat> {
    if k + 1 < n then Some(k + 1) else if back < n then Some(back) else None
  }

  /** Its link after its first visit. */
  function Second(keep: nat -> bool, k: nat): Option<nat> { if keep(k) then At(Kept(keep, k), 0) else None }

  ghost predicate Sound(n: nat, keep: nat -> bool, w: Walk) {
    && Lasso(w.f, w.head, w.c.list, w.c.back)
    && forall k | 0 <= k < |w.c.list| :: w.c.list[k] < n && keep(w.c.list[k])
  }

  /** The first time round, at place i. */
  ghost predicate Forth(n: nat, back: nat, keep: nat -> bool, w: Walk, i: nat) {
    && i <= n && back <= n && Sound(n, keep, w) && w.c == Chain(Kept(keep, i), |Kept(keep, i)|)
    && (forall k {:trigger w.f(k)} | i <= k < n :: w.f(k) == First(n, back, k))
    && (forall k {:trigger w.f(k)} | 0 <= k < i :: w.f(k) == Second(keep, k))
  }

  /** The second time round, on the way down from a kept place `back` to `cur`. */
  ghost predicate Down(n: nat, back: nat, keep: nat -> bool, w: Walk, cur: Option<nat>) {
    && back < n && keep(back) && Sound(n, keep, w) && w.c.back < |w.c.list|
    && (forall k | 0 <= k < n && keep(k) :: k in w.c.list || (cur.Some? && k <= cur.value))
    && (cur.Some? ==>
          && cur.value < n && keep(cur.value) && (forall k | 0 <= k < |w.c.list| :: w.c.list[k] > cur.value)
          && (forall k {:trigger w.f(k)} | 0 <= k <= cur.value :: w.f(k) == Second(keep, k)))
  }

  /** The walk is over: the new list holds exactly the kept places. It ends, and has the last one first, unless the old
      list had a cycle that began at a kept place; then it has a cycle again. */
  ghost predicate Over(n: nat, back: nat, keep: nat -> bool, w: Walk) {
    && Sound(n, keep, w) && (forall k | 0 <= k < n && keep(k) :: k in w.c.list)
    && (w.c.back < |w.c.list| <==> back < n && keep(back))
    && (w.c.back == |w.c.list| ==> w.c.list == Kept(keep, n))
  }

  /** Where the walk is. */
  datatype Stage = Going(i: nat) | Turning | Falling(cur: nat) | Ended

  ghost predicate InStage(n: nat, back: nat, keep: nat -> bool, w: Walk, s: Stage) {
    match s
    case Going(i) => i < n && Forth(n, back, keep, w, i)
    case Turning => back < n && Forth(n, back, keep, w, n)
    case Falling(cur) => Down(n, back, keep, w, Some(cur))
    case Ended => Over(n, back, keep, w)
  }

  /** The place in hand. */
  function Place(back: nat, s: Stage): Option<nat> {
    match s
    case Going(i) => Some(i)
    case Turning => Some(back)
    case Falling(cur) => Some(cur)
    case Ended => None
  }

  /** Places left to go the first time round, and the second. */
  function ToGo(n: nat, back: nat, s: Stage): nat {
    match s
    case Going(i) => if i < n then n - i + 2 * n + 2 else 2 * n + 2
    case Turning => 2 * n + 2
    case Falling(cur) => cur + 1
    case Ended => 0
  }

  /** How many places have been visited. */
  function Seen(n: nat, s: Stage): nat { if s.Going? then s.i else n }

  // ---------- every visit takes the walk to its next stage

  lemma ForthStep(n: nat, back: nat, keep: nat -> bool, w: Walk, i: nat)
    requires Forth(n, back, keep, w, i) && i < n
    ensures Forth(n, back, keep, Visit(w, i, keep(i)), i + 1)
  {
    if keep(i) {
      PushLasso(w.f, w.head, w.c.list, w.c.back, i);
    } else {
      ElsewhereLasso(w.f, w.head, w.c.list, w.c.back, i, None);
    }
  }

  lemma ForthOver(n: nat, back: nat, keep: nat -> bool, w: Walk)
    requires Forth(n, back, keep, w, n) && back == n
    ensures Over(n, back, keep, w)
  {
    KeptExactly(keep, n);
  }

  /** The kept place that is visited after d, and what is above it. */
  lemma NextBelow(keep: nat -> bool, d: nat)
    ensures var next := At(Kept(keep, d), 0);
      && (next.Some? ==> next.value < d && keep(next.value))
      && (forall k | 0 <= k < d && keep(k) :: next.Some? && k <= next.value)
  {
    KeptExactly(keep, d);
    forall k | 0 <= k < d && keep(k) ensures At(Kept(keep, d), 0).Some? && k <= At(Kept(keep, d), 0).value {
      var j :| 0 <= j < |Kept(keep, d)| && Kept(keep, d)[j] == k;
    }
  }

  lemma TurnKept(n: nat, back: nat, keep: nat -> bool, w: Walk)
    requires Forth(n, back, keep, w, n) && back < n && keep(back)
    ensures Down(n, back, keep, Visit(w, back, true), Second(keep, back))
  {
    NextBelow(keep, back);
    PushLasso(w.f, w.head, w.c.list, w.c.back, back);
    Turned(n, back, keep, PushList(w.c.list, back));
  }

  /** The list when a kept place has been pushed again: it, and the kept places above it. */
  lemma Turned(n: nat, back: nat, keep: nat -> bool, l1: seq<nat>)
    requires back < n && keep(back) && l1 == PushList(Kept(keep, n), back)
    ensures back in Kept(keep, n) && |l1| > 0
    ensures forall k | 0 <= k < n && keep(k) && k >= back :: k in l1
    ensures forall j | 0 <= j < |l1| :: back <= l1[j] < n && keep(l1[j])
  {
    KeptExactly(keep, n);
    var l := Kept(keep, n);
    CutSorted(l, IndexOf(l, back));
    forall k | back <= k < n && keep(k) ensures k in l1 {
      assert k in l;
    }
  }

  lemma CutSorted(l: seq<nat>, idx: nat)
    requires idx < |l| && forall j, k | 0 <= j < k < |l| :: l[j] > l[k]
    ensures var l1 := [l[idx]] + l[..idx];
      (forall x | x in l && x >= l[idx] :: x in l1) && forall j | 0 <= j < |l1| :: l1[j] in l && l1[j] >= l[idx]
  {
    var l1 := [l[idx]] + l[..idx];
    forall x | x in l && x >= l[idx] ensures x in l1 {
      var j :| 0 <= j < |l| && l[j] == x;
      assert j < idx ==> l1[j + 1] == x;
    }
  }

  lemma TurnDropped(n: nat, back: nat, keep: nat -> bool, w: Walk)
    requires Forth(n, back, keep, w, n) && back < n && !keep(back)
    ensures Over(n, back, keep, Visit(w, back, false))
  {
    KeptExactly(keep, n);
    ElsewhereLasso(w.f, w.head, w.c.list, w.c.back, back, None);
  }

  lemma DownStep(n: nat, back: nat, keep: nat -> bool, w: Walk, cur: nat)
    requires Down(n, back, keep, w, Some(cur))
    ensures Down(n, back, keep, Visit(w, cur, true), Second(keep, cur))
  {
    NextBelow(keep, cur);
    PushLasso(w.f, w.head, w.c.list, w.c.back, cur);
  }

  lemma DownOver(n: nat, back: nat, keep: nat -> bool, w: Walk)
    requires Down(n, back, keep, w, None)
    ensures Over(n, back, keep, w)
  {
  }

  /** The stage after the next visit. The place in hand changes to where its link pointed before the visit, and the walk
      comes nearer to its end. */
  lemma StageStep(n: nat, back: nat, keep: nat -> bool, w: Walk, s: Stage) returns (s': Stage)
    requires InStage(n, back, keep, w, s) && Place(back, s).Some?
    ensures var d := Place(back, s).value;
      && d < n && InStage(n, back, keep, Visit(w, d, keep(d)), s') && Place(back, s') == w.f(d)
      && ToGo(n, back, s') < ToGo(n, back, s) && Seen(n, s') == if d < Seen(n, s) then Seen(n, s) else d + 1
  {
    match s
    case Going(i) =>
      ForthStep(n, back, keep, w, i);
      s' := if i + 1 < n then Going(i + 1) else if back < n then Turning else Ended;
      if s' == Ended {
        ForthOver(n, back, keep, Visit(w, i, keep(i)));
      }
    case Turning =>
      assert w.f(back) == Second(keep, back);
      if keep(back) {
        TurnKept(n, back, keep, w);
        s' := Landed(n, back, keep, Visit(w, back, true), back);
      } else {
        TurnDropped(n, back, keep, w);
        s' := Ended;
      }
    case Falling(cur) =>
      assert w.f(cur) == Second(keep, cur);
      DownStep(n, back, keep, w, cur);
      s' := Landed(n, back, keep, Visit(w, cur, true), cur);
  }

  lemma Landed(n: nat, back: nat, keep: nat -> bool, w: Walk, d: nat) returns (s: Stage)
    requires keep(d) && d < n && Down(n, back, keep, w, Second(keep, d))
    ensures InStage(n, back, keep, w, s) && Place(back, s) == Second(keep, d) && ToGo(n, back, s) <= d
  {
    if Second(keep, d).Some? {
      NextBelow(keep, d);
      s := Falling(Second(keep, d).value);
    } else {
      DownOver(n, back, keep, w);
      s := Ended;
    }
  }

  /** The start of a walk over a list of n places. */
  lemma StageStart(n: nat, back: nat, keep: nat -> bool, f: Links<nat>) returns (s: Stage)
    requires back <= n && forall k {:trigger f(k)} | 0 <= k < n :: f(k) == First(n, back, k)
    ensures InStage(n, back, keep, Walk(f, None, Chain([], 0)), s)
    ensures Seen(n, s) == 0 && Place(back, s) == if n > 0 then Some(0) else None
  {
    s := if n > 0 then Going(0) else Ended;
  }
}
