/** The lists that dlopen extends, and what it takes back: the global symbol chain, the list of DSOs,
    the list of TLS modules with its counters, and the list of DSOs with deferred relocations.
    A DSO is its place in the order of loading; a null link is -1. */
module Dlopen {
  import opened Options
  import opened DepGraph
  import LazyList
  import opened Effects

  type Chain = LazyList.Chain<nat>

  // ---------- singly linked lists

  /** What follows on a list. */
  function At(c: seq<nat>, i: nat): int { if i < |c| then c[i] else -1 }

  function Last(c: seq<nat>): int { if c == [] then -1 else c[|c| - 1] }

  /** The links nx form the list c, without repeats, and DSOs that are not on it have no link; pos gives each DSO's
      place, or -1. */
  ghost predicate Linked(nx: seq<int>, pos: seq<int>, c: seq<nat>) {
    && |pos| == |nx|
    && (forall i | 0 <= i < |c| :: c[i] < |nx| && pos[c[i]] == i)
    && (forall i {:trigger nx[c[i]]} | 0 <= i < |c| :: nx[c[i]] == At(c, i + 1))
    && (forall d | 0 <= d < |nx| :: if pos[d] == -1 then nx[d] == -1 else OnList(pos, c, d))
  }

  ghost predicate OnList(pos: seq<int>, c: seq<nat>, d: nat) { d < |pos| && 0 <= pos[d] < |c| && c[pos[d]] == d }

  /** A list determines its links. */
  lemma LinksDetermined(nx: seq<int>, pos: seq<int>, nx0: seq<int>, pos0: seq<int>, c: seq<nat>)
    requires Linked(nx, pos, c) && Linked(nx0, pos0, c) && |nx0| <= |nx|
    ensures nx[..|nx0|] == nx0
  {
    forall d | 0 <= d < |nx0| ensures nx[d] == nx0[d] {
      if pos0[d] != -1 {
        assert c[pos0[d]] == d;
      }
    }
  }

  /** The links after p has been put behind the last element. */
  function Link(nx: seq<int>, last: int, p: nat): seq<int>
    requires last < |nx|
  { if last < 0 then nx else nx[last := p] }

  lemma AppendLinked(nx: seq<int>, pos: seq<int>, c: seq<nat>, p: nat)
    requires Linked(nx, pos, c) && p < |nx| && pos[p] == -1
    ensures Last(c) < |nx| && Linked(Link(nx, Last(c), p), pos[p := |c|], c + [p])
  {
    var c1, nx1, pos1 := c + [p], Link(nx, Last(c), p), pos[p := |c|];
    forall i | 0 <= i < |c1| ensures c1[i] < |nx1| && pos1[c1[i]] == i && nx1[c1[i]] == At(c1, i + 1) {
      if i < |c| {
        assert pos[c[i]] == i && nx[c[i]] == At(c, i + 1);
      }
    }
    forall d | 0 <= d < |nx1| ensures if pos1[d] == -1 then nx1[d] == -1 else OnList(pos1, c1, d) {
      if d != p && pos[d] != -1 {
        assert OnList(pos, c, d);
      }
    }
  }

  lemma GrowLinked(nx: seq<int>, pos: seq<int>, c: seq<nat>)
    requires Linked(nx, pos, c)
    ensures Linked(nx + [-1], pos + [-1], c)
  {
    forall d | 0 <= d < |nx| + 1
      ensures if (pos + [-1])[d] == -1 then (nx + [-1])[d] == -1 else OnList(pos + [-1], c, d)
    {
      if d < |nx| && pos[d] != -1 {
        assert OnList(pos, c, d);
      }
    }
  }

  /** On a list, a DSO has a link or is the last one, and only such DSOs are on it. */
  lemma OnListIff(nx: seq<int>, pos: seq<int>, c: seq<nat>, d: nat)
    requires Linked(nx, pos, c) && d < |nx|
    ensures OnList(pos, c, d) <==> nx[d] >= 0 || d == Last(c)
    ensures !OnList(pos, c, d) ==> pos[d] == -1
  {
    if c != [] {
      assert pos[c[|c| - 1]] == |c| - 1;
    }
    if OnList(pos, c, d) {
      assert nx[c[pos[d]]] == At(c, pos[d] + 1);
    }
  }

  // ---------- cutting

  /** The links while c is cut after place k, up to place j. */
  ghost predicate Cut(nx: seq<int>, pos: seq<int>, c: seq<nat>, k: nat, j: nat) {
    && |pos| == |nx|
    && (forall i | 0 <= i < |c| :: c[i] < |nx| && pos[c[i]] == i)
    && (forall i {:trigger nx[c[i]]} | 0 <= i < |c| :: nx[c[i]] == if k <= i < j then -1 else At(c, i + 1))
    && (forall d | 0 <= d < |nx| :: if pos[d] == -1 then nx[d] == -1 else OnList(pos, c, d))
  }

  /** The places on the shorter list. */
  function CutPos(pos: seq<int>, k: nat): (r: seq<int>)
    ensures |r| == |pos| && forall d | 0 <= d < |pos| :: r[d] == if pos[d] > k then -1 else pos[d]
  { seq(|pos|, d requires 0 <= d < |pos| => if pos[d] > k then -1 else pos[d]) }

  lemma CutStep(nx: seq<int>, pos: seq<int>, c: seq<nat>, k: nat, j: nat)
    requires k <= j < |c| && Cut(nx, pos, c, k, j)
    ensures nx[c[j]] == At(c, j + 1) && Cut(nx[c[j] := -1], pos, c, k, j + 1)
  {
    var nx1 := nx[c[j] := -1];
    forall i | 0 <= i < |c|
      ensures c[i] < |nx1| && pos[c[i]] == i && nx1[c[i]] == if k <= i < j + 1 then -1 else At(c, i + 1)
    {
      assert pos[c[i]] == i;
    }
  }

  lemma AfterCut(nx: seq<int>, pos: seq<int>, c: seq<nat>, k: nat)
    requires k < |c| && Cut(nx, pos, c, k, |c|)
    ensures Linked(nx, CutPos(pos, k), c[..k + 1])
  {
    forall d | 0 <= d < |nx|
      ensures if CutPos(pos, k)[d] == -1 then nx[d] == -1 else OnList(CutPos(pos, k), c[..k + 1], d)
    {
      if pos[d] > k {
        assert c[pos[d]] == d;
      } else if pos[d] != -1 {
        assert OnList(pos, c, d);
      }
    }
  }

  /** The loop of revert_syms. */
  method CutList(nx: seq<int>, oldTail: nat, ghost pos: seq<int>, ghost c: seq<nat>) returns (r: seq<int>)
    requires Linked(nx, pos, c) && OnList(pos, c, oldTail)
    ensures |r| == |nx| && Linked(r, CutPos(pos, pos[oldTail]), c[..pos[oldTail] + 1])
  {
    r := CutFrom(nx, oldTail, pos, c, pos[oldTail]);
    AfterCut(r, pos, c, pos[oldTail]);
  }

  method CutFrom(nx: seq<int>, oldTail: nat, ghost pos: seq<int>, ghost c: seq<nat>, ghost k: nat) returns (r: seq<int>)
    requires Cut(nx, pos, c, k, k) && k < |c| && c[k] == oldTail
    ensures |r| == |nx| && Cut(r, pos, c, k, |c|)
  {
    ghost var j := k;
    r := nx;
    var p := oldTail as int;
    while p >= 0
      invariant k <= j <= |c| && p == At(c, j) && Cut(r, pos, c, k, j) && |r| == |nx|
      decreases |c| - j
    {
      CutStep(r, pos, c, k, j);
      var next := r[p];
      r := r[p := -1];
      p := next;
      j := j + 1;
    }
  }

  // ---------- the list of DSOs

  /** All DSOs are linked in the order of loading. */
  ghost predicate InOrder(next: seq<int>) {
    forall i | 0 <= i < |next| :: next[i] == if i + 1 < |next| then i + 1 else -1
  }

  lemma GrowInOrder(next: seq<int>)
    requires InOrder(next) && |next| > 0
    ensures InOrder(next[|next| - 1 := |next|] + [-1])
  {
  }

  // ---------- the list of DSOs with deferred relocations

  function Opt(d: int): Option<nat> { if d < 0 then None else Some(d) }

  function LinkOf(nx: seq<int>): LazyList.Links<nat> { (d: nat) => if d < |nx| then Opt(nx[d]) else None }

  /** The links from the head are those of the chain, which is a list or, if a DSO has been pushed twice, runs into a
      cycle. */
  ghost predicate Lazily(nx: seq<int>, head: int, z: Chain) {
    LazyList.Lasso(LinkOf(nx), Opt(head), z.list, z.back) && forall k | 0 <= k < |z.list| :: z.list[k] < |nx|
  }

  lemma GrowLazily(nx: seq<int>, head: int, z: Chain)
    requires Lazily(nx, head, z)
    ensures Lazily(nx + [-1], head, z)
  {
    forall k | 0 <= k < |z.list| ensures LinkOf(nx + [-1])(z.list[k]) == LazyList.Succ(z.list, z.back, k) {
      assert LinkOf(nx)(z.list[k]) == LazyList.Succ(z.list, z.back, k);
    }
  }

  lemma PushLazily(nx: seq<int>, head: int, z: Chain, p: nat)
    requires Lazily(nx, head, z) && p < |nx|
    ensures Lazily(nx[p := head], p, Chain1(z, p))
  {
    LazyList.PushLasso(LinkOf(nx), Opt(head), z.list, z.back, p);
    var f, z1 := LazyList.With(LinkOf(nx), p, Opt(head)), Chain1(z, p);
    forall k | 0 <= k < |z1.list| ensures LinkOf(nx[p := head])(z1.list[k]) == LazyList.Succ(z1.list, z1.back, k) {
      assert f(z1.list[k]) == LazyList.Succ(z1.list, z1.back, k);
    }
  }

  /** What an effect does to the links of the lazy list and its head. */
  ghost predicate LazyEffect(e: Effect, fires: bool, nx: seq<int>, head: int, nx1: seq<int>, head1: int) {
    if e.Load? || e.LoadTls? then nx1 == nx + [-1] && head1 == head && !fires
    else if fires then e.PrepareLazy? && e.p < |nx| && nx1 == nx[e.p := head] && head1 == e.p
    else nx1 == nx && head1 == head
  }

  /** The lazy list z1 after DSOs younger than all on the list z have been prepared: it continues with z if and only if
      no DSO was prepared twice, and otherwise nothing of z is left. */
  ghost predicate Renewed(z: Chain, prepared: seq<nat>, z1: Chain) {
    && (z1.list == LazyList.OnTop(prepared, z.list) <==> Distinct(prepared))
    && (!Distinct(prepared) ==> forall d | d in z.list :: d !in z1.list)
  }

  lemma NewLazyList(z: Chain, prepared: seq<nat>, tail: nat)
    requires forall k | 0 <= k < |z.list| :: z.list[k] <= tail
    requires forall i | 0 <= i < |prepared| :: prepared[i] > tail
    ensures Renewed(z, prepared, LazyList.PushAll(z, prepared))
  {
    LazyList.PushAllExact(z, prepared);
  }

  function Chain1(z: Chain, p: nat): Chain {
    LazyList.Chain(LazyList.PushList(z.list, p), LazyList.PushBack(z.list, z.back, p))
  }

  // ---------- the linker

  /** Everything the linker keeps about its lists. */
  datatype State = State(
    next: seq<int>, symsNext: seq<int>, tlsNext: seq<int>, lazyNext: seq<int>, relocated: seq<bool>,
    tail: nat, symsTail: nat, tlsHead: int, tlsTail: int, tlsCnt: nat, tlsOffset: int, tlsAlign: nat, lazyHead: int)

  /** A state with its symbol chain, its TLS list, the places on both, and its lazy list. */
  datatype Base = Base(s: State, c: seq<nat>, cp: seq<int>, t: seq<nat>, tp: seq<int>, z: Chain)

  class Rtld {
    var next: seq<int>
    var symsNext: seq<int>
    var tlsNext: seq<int>
    var lazyNext: seq<int>
    var relocated: seq<bool>
    var tail: nat
    var symsTail: nat
    var tlsHead: int
    var tlsTail: int
    var tlsCnt: nat
    var tlsOffset: int
    var tlsAlign: nat
    var lazyHead: int
    ghost var chain: seq<nat>
    ghost var symsPos: seq<int>
    ghost var tls: seq<nat>
    ghost var tlsPos: seq<int>
    ghost var lazy: Chain
    /** The DSOs prepared by the dlopen under way, in order. */
    ghost var prepared: seq<nat>

    function Get(): State
      reads this
    {
      State(next, symsNext, tlsNext, lazyNext, relocated, tail, symsTail,
            tlsHead, tlsTail, tlsCnt, tlsOffset, tlsAlign, lazyHead)
    }

    /** What effects change. */
    ghost function Now(): Sum
      reads this`tail, this`tls, this`tlsOffset, this`tlsAlign, this`chain, this`prepared
    { Sum(tail, tls, tlsOffset, tlsAlign, chain, prepared) }

    ghost predicate ListOk()
      reads this`next, this`symsNext, this`tlsNext, this`lazyNext, this`relocated, this`tail
    {
      && |next| == |symsNext| == |tlsNext| == |lazyNext| == |relocated| == tail + 1
      && InOrder(next)
    }

    /** `chain` is the symbol chain, from the program to syms_tail. */
    ghost predicate ChainOk()
      reads this`symsNext, this`symsPos, this`chain, this`symsTail
    { Linked(symsNext, symsPos, chain) && |chain| > 0 && chain[0] == 0 && symsTail == Last(chain) }

    /** `tls` is the list of TLS modules, from tls_head to tls_tail. */
    ghost predicate TlsOk()
      reads this`tlsNext, this`tlsPos, this`tls, this`tlsHead, this`tlsTail, this`tlsCnt
    { Linked(tlsNext, tlsPos, tls) && tlsHead == At(tls, 0) && tlsTail == Last(tls) && tlsCnt == |tls| }

    /** `lazy` is the list of DSOs with deferred relocations. */
    ghost predicate LazyOk()
      reads this`lazyNext, this`lazyHead, this`lazy
    { Lazily(lazyNext, lazyHead, lazy) }

    ghost predicate Valid()
      reads this`next, this`symsNext, this`tlsNext, this`lazyNext, this`relocated, this`tail, this`symsPos, this`chain,
        this`symsTail, this`tlsPos, this`tls, this`tlsHead, this`tlsTail, this`tlsCnt
    { ListOk() && ChainOk() && TlsOk() }

    /** Start-up: the program is the only DSO. */
    constructor (minAlign: nat)
      ensures Valid() && LazyOk() && chain == [0] && tls == [] && lazy == LazyList.Chain([], 0) && tail == 0
      ensures relocated == [true]
    {
      next, symsNext, tlsNext, lazyNext, relocated := [-1], [-1], [-1], [-1], [true];
      tail, symsTail, tlsHead, tlsTail, tlsCnt, tlsOffset, tlsAlign, lazyHead := 0, 0, -1, -1, 0, 0, minAlign, -1;
      chain, symsPos, tls, tlsPos, lazy, prepared := [0], [0], [], [-1], LazyList.Chain([], 0), [];
    }

    /** add_syms: a DSO that is on the chain already stays where it is. */
    method AddToSyms(p: nat)
      requires ChainOk() && p < |symsNext|
      modifies this`symsNext, this`symsTail, this`chain, this`symsPos
      ensures ChainOk() && |symsNext| == |old(symsNext)|
      ensures chain == if p in old(chain) then old(chain) else old(chain) + [p]
    {
      OnListIff(symsNext, symsPos, chain, p);
      if symsNext[p] < 0 && symsTail != p {
        AppendLinked(symsNext, symsPos, chain, p);
        symsNext := symsNext[symsTail := p];
        symsTail := p;
        symsPos := symsPos[p := |chain|];
        chain := chain + [p];
      }
    }

    /** revert_syms: the chain is cut after the given DSO. */
    method RevertSyms(oldTail: nat)
      requires ChainOk() && OnList(symsPos, chain, oldTail)
      modifies this`symsNext, this`symsTail, this`chain, this`symsPos
      ensures ChainOk() && |symsNext| == |old(symsNext)|
      ensures chain == old(chain)[..old(symsPos[oldTail]) + 1] && symsTail == oldTail
    {
      ghost var k := symsPos[oldTail];
      symsNext := CutList(symsNext, oldTail, symsPos, chain);
      symsTail := oldTail;
      symsPos := CutPos(symsPos, k);
      chain := chain[..k + 1];
    }

    /** The end of load_library: a new DSO at the tail of the list. */
    method Append()
      requires Valid()
      modifies this`next, this`symsNext, this`tlsNext, this`lazyNext, this`relocated, this`tail, this`symsPos,
        this`tlsPos
      ensures Valid() && tail == old(tail) + 1 && lazyNext == old(lazyNext) + [-1]
      ensures relocated == old(relocated) + [false] && tlsPos[tail] == -1
    {
      GrowLinked(symsNext, symsPos, chain);
      GrowLinked(tlsNext, tlsPos, tls);
      GrowInOrder(next);
      next := next[tail := |next|] + [-1];
      symsNext, tlsNext, lazyNext, relocated := symsNext + [-1], tlsNext + [-1], lazyNext + [-1], relocated + [false];
      symsPos, tlsPos := symsPos + [-1], tlsPos + [-1];
      tail := tail + 1;
    }

    /** The TLS part of load_library. */
    method AddTls(p: nat, offset: int, align: nat)
      requires TlsOk() && p < |tlsNext| && tlsPos[p] == -1
      modifies this`tlsNext, this`tlsHead, this`tlsTail, this`tlsCnt, this`tlsOffset, this`tlsAlign, this`tls,
        this`tlsPos
      ensures TlsOk() && tls == old(tls) + [p] && |tlsNext| == |old(tlsNext)|
      ensures tlsOffset == offset && tlsAlign == align
    {
      AppendLinked(tlsNext, tlsPos, tls, p);
      tlsCnt, tlsOffset, tlsAlign := tlsCnt + 1, offset, align;
      if tlsTail >= 0 {
        tlsNext := tlsNext[tlsTail := p];
      } else {
        tlsHead := p;
      }
      tlsTail := p;
      tlsPos := tlsPos[p := |tls|];
      tls := tls + [p];
    }

    // ---------- dlopen

    /** The current state extends the base state: lists have grown at their ends only, older DSOs have kept their lazy
        links, TLS modules that joined are new DSOs, and the DSOs not yet relocated are exactly the new ones. */
    ghost predicate Extends(b: Base)
      reads this`lazyNext, this`relocated, this`tail, this`chain, this`tls
    {
      && b.s.tail <= tail && |lazyNext| == |relocated| == tail + 1
      && |b.s.lazyNext| == b.s.tail + 1 && b.s.lazyNext == lazyNext[..b.s.tail + 1]
      && b.c <= chain && b.t <= tls && (forall i | |b.t| <= i < |tls| :: tls[i] > b.s.tail)
      && (forall i | 0 <= i <= tail :: relocated[i] <==> i <= b.s.tail)
    }

    /** The lazy list is that of the base state with the prepared DSOs pushed, all of which are new. */
    ghost predicate Pushed(b: Base)
      reads this`lazyNext, this`lazyHead, this`lazy, this`prepared
    {
      PushedOn(lazyNext, lazyHead, lazy, prepared, b)
    }

    ghost predicate PushedOn(nx: seq<int>, head: int, z: Chain, prepared: seq<nat>, b: Base) {
      && Lazily(nx, head, z) && z == LazyList.PushAll(b.z, prepared)
      && forall i | 0 <= i < |prepared| :: prepared[i] > b.s.tail
    }

    /** One effect, and what it does to the lazy list. */
    method Step(e: Effect, ghost b: Base)
      requires Valid() && Extends(b) && Pushed(b)
      modifies this
      ensures Valid() && Extends(b) && Pushed(b) && One(e, b.s.tail, old(Now()), Now())
    {
      label before:
      var fires := Perform(e, b);
      Record(e, fires, old@before(lazyNext), old@before(lazyHead), b);
    }

    ghost method Record(e: Effect, fires: bool, nx: seq<int>, head: int, b: Base)
      requires Valid() && Extends(b) && PushedOn(nx, head, lazy, prepared, b)
      requires LazyEffect(e, fires, nx, head, lazyNext, lazyHead) && (fires ==> e.PrepareLazy? && e.p > b.s.tail)
      modifies this`lazy, this`prepared
      ensures Valid() && Extends(b) && Pushed(b)
      ensures prepared == if fires then old(prepared) + [e.p] else old(prepared)
    {
      Recorded(e, fires, nx, head, lazyNext, lazyHead, lazy, prepared, b);
      if fires {
        lazy, prepared := Chain1(lazy, e.p), prepared + [e.p];
      }
    }

    lemma Recorded(e: Effect, fires: bool, nx: seq<int>, head: int, nx1: seq<int>, head1: int, z: Chain,
                   prepared: seq<nat>, b: Base)
      requires PushedOn(nx, head, z, prepared, b) && LazyEffect(e, fires, nx, head, nx1, head1)
      requires fires ==> e.PrepareLazy? && e.p > b.s.tail
      ensures if fires then PushedOn(nx1, head1, Chain1(z, e.p), prepared + [e.p], b)
              else PushedOn(nx1, head1, z, prepared, b)
    {
      if fires {
        PushLazily(nx, head, z, e.p);
        var xs := prepared + [e.p];
        assert xs[..|xs| - 1] == prepared;
      } else if e.Load? || e.LoadTls? {
        GrowLazily(nx, head, z);
      }
    }

    /** One effect. prepare_lazy only happens to DSOs that are not yet relocated. */
    method Perform(e: Effect, ghost b: Base) returns (ghost fires: bool)
      requires Valid() && Extends(b)
      modifies this`next, this`symsNext, this`tlsNext, this`lazyNext, this`relocated, this`tail, this`symsTail,
        this`tlsHead, this`tlsTail, this`tlsCnt, this`tlsOffset, this`tlsAlign, this`lazyHead,
        this`chain, this`symsPos, this`tls, this`tlsPos
      ensures Valid() && Extends(b) && OneLists(e, old(Now()), Now())
      ensures fires == (e.PrepareLazy? && e.p <= tail && e.p > b.s.tail)
      ensures LazyEffect(e, fires, old(lazyNext), old(lazyHead), lazyNext, lazyHead)
    {
      if e.Load? || e.LoadTls? {
        Load(e, b);
        fires := false;
      } else {
        fires := Touch(e, b);
      }
    }

    /** load_library of one DSO. */
    method Load(e: Effect, ghost b: Base)
      requires Valid() && Extends(b) && (e.Load? || e.LoadTls?)
      modifies this`next, this`symsNext, this`tlsNext, this`lazyNext, this`relocated, this`tail, this`symsPos,
        this`tlsHead, this`tlsTail, this`tlsCnt, this`tlsOffset, this`tlsAlign, this`tls, this`tlsPos
      ensures Valid() && Extends(b) && OneLists(e, old(Now()), Now()) && lazyNext == old(lazyNext) + [-1]
    {
      LoadLibrary(b);
      if e.LoadTls? {
        JoinTls(e.offset, e.align, b);
      }
    }

    /** What dlopen does to one DSO that is loaded. */
    method Touch(e: Effect, ghost b: Base) returns (ghost fires: bool)
      requires Valid() && Extends(b) && (e.PrepareLazy? || e.AddSyms?)
      modifies this`symsNext, this`symsTail, this`chain, this`symsPos, this`lazyNext, this`lazyHead
      ensures Valid() && Extends(b) && OneLists(e, old(Now()), Now())
      ensures fires == (e.PrepareLazy? && e.p <= tail && e.p > b.s.tail)
      ensures LazyEffect(e, fires, old(lazyNext), old(lazyHead), lazyNext, lazyHead)
    {
      if e.PrepareLazy? {
        fires := Prepare(e.p, b);
      } else {
        JoinSyms(e.p, b);
        fires := false;
      }
    }

    method JoinTls(offset: int, align: nat, ghost b: Base)
      requires Valid() && Extends(b) && tail > b.s.tail && tlsPos[tail] == -1
      modifies this`tlsNext, this`tlsHead, this`tlsTail, this`tlsCnt, this`tlsOffset, this`tlsAlign, this`tls,
        this`tlsPos
      ensures Valid() && Extends(b) && tls == old(tls) + [tail] && tlsOffset == offset && tlsAlign == align
    {
      AddTls(tail, offset, align);
    }

    method JoinSyms(p: nat, ghost b: Base)
      requires Valid() && Extends(b)
      modifies this`symsNext, this`symsTail, this`chain, this`symsPos
      ensures Valid() && Extends(b)
      ensures chain == if p <= tail && p !in old(chain) then old(chain) + [p] else old(chain)
    {
      if p <= tail {
        AddToSyms(p);
      }
    }

    method LoadLibrary(ghost b: Base)
      requires Valid() && Extends(b)
      modifies this`next, this`symsNext, this`tlsNext, this`lazyNext, this`relocated, this`tail, this`symsPos,
        this`tlsPos
      ensures Valid() && Extends(b) && tail == old(tail) + 1 && tlsPos[tail] == -1
      ensures lazyNext == old(lazyNext) + [-1]
    {
      Append();
    }

    /** prepare_lazy: a DSO that is on the list already closes a cycle. */
    method Prepare(p: nat, ghost b: Base) returns (ghost fires: bool)
      requires ListOk() && Extends(b)
      modifies this`lazyNext, this`lazyHead
      ensures ListOk() && Extends(b) && fires == (p <= tail && p > b.s.tail)
      ensures LazyEffect(PrepareLazy(p), fires, old(lazyNext), old(lazyHead), lazyNext, lazyHead)
    {
      fires := p <= tail && !relocated[p];
      if p <= tail && !relocated[p] {
        lazyNext := lazyNext[p := lazyHead];
        lazyHead := p;
      }
    }

    /** The base state is a state between two calls of dlopen: all DSOs are relocated. */
    ghost predicate Was(b: Base) { WasList(b) && WasSyms(b) && WasTls(b) }

    ghost predicate WasList(b: Base) {
      && |b.s.next| == |b.s.symsNext| == |b.s.tlsNext| == |b.s.lazyNext| == |b.s.relocated| == b.s.tail + 1
      && InOrder(b.s.next) && (forall i | 0 <= i < |b.s.relocated| :: b.s.relocated[i])
    }

    ghost predicate WasSyms(b: Base) {
      Linked(b.s.symsNext, b.cp, b.c) && |b.c| > 0 && b.c[0] == 0 && b.s.symsTail == Last(b.c)
    }

    ghost predicate WasTls(b: Base) {
      && Linked(b.s.tlsNext, b.tp, b.t)
      && b.s.tlsHead == At(b.t, 0) && b.s.tlsTail == Last(b.t) && b.s.tlsCnt == |b.t|
    }

    /** The failure branch of dlopen. The DSOs after the original tail are freed. */
    method Rollback(orig: State, ghost b: Base)
      requires Valid() && Extends(b) && Was(b) && orig == b.s
      modifies this`next, this`symsNext, this`tlsNext, this`lazyNext, this`relocated, this`tail, this`symsTail,
        this`tlsHead, this`tlsTail, this`tlsCnt, this`tlsOffset, this`tlsAlign, this`lazyHead,
        this`chain, this`symsPos, this`tls, this`tlsPos
      ensures Valid() && Get() == orig && chain == b.c && tls == b.t
    {
      RestoreSyms(orig, b);
      RestoreTlsAndList(orig, b);
    }

    method RestoreTlsAndList(orig: State, ghost b: Base)
      requires TlsOk() && Extends(b) && WasTls(b) && WasList(b) && orig == b.s
      requires |next| == |tlsNext| == tail + 1 && InOrder(next)
      modifies this`next, this`tlsNext, this`lazyNext, this`relocated, this`tail, this`tlsHead, this`tlsTail,
        this`tlsCnt, this`tlsOffset, this`tlsAlign, this`lazyHead, this`tls, this`tlsPos
      ensures TlsOk() && tls == b.t && tlsNext == orig.tlsNext && tlsHead == orig.tlsHead && tlsTail == orig.tlsTail
      ensures tlsCnt == orig.tlsCnt && tlsOffset == orig.tlsOffset && tlsAlign == orig.tlsAlign
      ensures next == orig.next && tail == orig.tail && relocated == orig.relocated
      ensures lazyNext == orig.lazyNext && lazyHead == orig.lazyHead
    {
      RestoreTls(orig, b);
      RestoreList(orig);
    }

    method RestoreList(orig: State)
      requires |next| == tail + 1 == |lazyNext| == |relocated| && orig.tail <= tail && InOrder(next)
      requires |orig.next| == |orig.lazyNext| == |orig.relocated| == orig.tail + 1 && InOrder(orig.next)
      requires forall i | 0 <= i < |orig.relocated| :: orig.relocated[i] && relocated[i]
      requires orig.lazyNext == lazyNext[..orig.tail + 1]
      modifies this`next, this`tail, this`lazyNext, this`lazyHead, this`relocated
      ensures next == orig.next && tail == orig.tail && relocated == orig.relocated
      ensures lazyNext == orig.lazyNext && lazyHead == orig.lazyHead
    {
      var n := orig.tail + 1;
      lazyHead := orig.lazyHead;
      tail := orig.tail;
      next := next[tail := -1];
      next, lazyNext, relocated := next[..n], lazyNext[..n], relocated[..n];
    }

    method RestoreTls(orig: State, ghost b: Base)
      requires TlsOk() && b.t <= tls && |orig.tlsNext| == orig.tail + 1 <= |tlsNext|
      requires forall i | |b.t| <= i < |tls| :: tls[i] > orig.tail
      requires WasTls(b) && orig == b.s
      modifies this`tlsNext, this`tlsHead, this`tlsTail, this`tlsCnt, this`tlsOffset, this`tlsAlign, this`tls,
        this`tlsPos
      ensures TlsOk() && tls == b.t && tlsNext == orig.tlsNext && tlsHead == orig.tlsHead && tlsTail == orig.tlsTail
      ensures tlsCnt == orig.tlsCnt && tlsOffset == orig.tlsOffset && tlsAlign == orig.tlsAlign
    {
      if orig.tlsTail < 0 {
        tlsHead := -1;
      }
      tlsTail := orig.tlsTail;
      tlsNext := CutLast(tlsNext, tlsTail, orig.tail + 1, tlsPos, tls, orig.tlsNext, b.tp, b.t);
      tlsCnt, tlsOffset, tlsAlign := orig.tlsCnt, orig.tlsOffset, orig.tlsAlign;
      tls, tlsPos := b.t, b.tp;
    }

    method RestoreSyms(orig: State, ghost b: Base)
      requires ChainOk() && b.c <= chain && |b.s.symsNext| <= |symsNext|
      requires WasSyms(b) && orig == b.s
      modifies this`symsNext, this`symsTail, this`chain, this`symsPos
      ensures ChainOk() && chain == b.c && symsTail == orig.symsTail && symsNext == orig.symsNext
    {
      assert chain[|b.c| - 1] == b.c[|b.c| - 1];
      RevertSyms(orig.symsTail);
      LinksDetermined(symsNext, symsPos, orig.symsNext, b.cp, b.c);
      symsNext := symsNext[..|orig.symsNext|];
      symsPos := b.cp;
    }

    /** The end of reloc_all. */
    method MarkRelocated()
      modifies this`relocated
      ensures |relocated| == |old(relocated)| && forall i | 0 <= i < |relocated| :: relocated[i]
    {
      var i := 0;
      while i < |relocated|
        invariant 0 <= i <= |relocated| == |old(relocated)| && forall k | 0 <= k < i :: relocated[k]
      {
        relocated := relocated[i := true];
        i := i + 1;
      }
    }

    /** dlopen, as any sequence of effects that is then committed or, when a load or a relocation fails, taken back. The
        lists only grow, with one exception: the new lazy list continues with the old one if and only if no DSO was
        prepared twice, and otherwise the old one is lost. */
    method DlOpen(effects: seq<Effect>, fails: bool, global: bool, shuttingDown: bool) returns (ok: bool)
      requires Valid() && LazyOk() && forall i | 0 <= i <= tail :: relocated[i]
      modifies this
      ensures Valid() && LazyOk() && forall i | 0 <= i <= tail :: relocated[i]
      ensures ok == (!shuttingDown && !fails)
      ensures !ok ==> Get() == old(Get())
      ensures !ok || !global ==> chain == old(chain) && symsTail == old(symsTail)
      ensures old(chain) <= chain && old(tls) <= tls && old(tail) <= tail
      ensures ok ==> tail == TailAfter(effects, |effects|, old(tail))
      ensures ok ==> tls == old(tls) + TlsAfter(effects, |effects|, old(tail))
      ensures ok ==> tlsOffset == OffsetAfter(effects, |effects|, old(tlsOffset))
      ensures ok ==> tlsAlign == AlignAfter(effects, |effects|, old(tlsAlign))
      ensures ok && global ==> chain == ChainAfter(effects, |effects|, old(tail), old(chain))
      ensures ok ==> prepared == PreparedAfter(effects, |effects|, old(tail))
      ensures ok ==>
        && lazy == LazyList.PushAll(old(lazy), prepared) && (forall i | 0 <= i < |prepared| :: prepared[i] > old(tail))
        && Renewed(old(lazy), prepared, lazy)
    {
      if shuttingDown {
        return false;
      }
      var orig := Get();
      ghost var b := Base(orig, chain, symsPos, tls, tlsPos, lazy);
      prepared := [];
      PerformAll(effects, b);
      Conclude(orig, fails, global, b);
      ok := !fails;
    }

    /** The end of dlopen, either way. */
    method Conclude(orig: State, fails: bool, global: bool, ghost b: Base)
      requires Valid() && Extends(b) && Pushed(b) && Was(b) && orig == b.s
      requires Lazily(orig.lazyNext, orig.lazyHead, b.z)
      modifies this
      ensures Valid() && LazyOk() && (forall i | 0 <= i <= tail :: relocated[i])
      ensures b.c <= chain && b.t <= tls && b.s.tail <= tail
      ensures fails ==> Get() == orig && chain == b.c
      ensures !fails ==> !global ==> chain == b.c && symsTail == orig.symsTail
      ensures !fails ==> Pushed(b) && Renewed(b.z, prepared, lazy)
      ensures !fails ==> Now() == old(Now()).(chain := if global then old(chain) else b.c)
    {
      if fails {
        TakeBack(orig, b);
      } else {
        Commit(orig, global, b);
        NewLazyList(b.z, prepared, b.s.tail);
      }
    }

    method PerformAll(effects: seq<Effect>, ghost b: Base)
      requires Valid() && Extends(b) && Pushed(b) && tail == b.s.tail
      modifies this
      ensures Valid() && Extends(b) && Pushed(b) && Comes(effects, |effects|, old(Now()), Now())
    {
      ghost var s0 := Now();
      var i := 0;
      while i < |effects|
        invariant 0 <= i <= |effects| && Valid() && Extends(b) && Pushed(b) && Comes(effects, i, s0, Now())
      {
        ghost var s := Now();
        Step(effects[i], b);
        ComesNext(effects, i, s0, s, Now());
        i := i + 1;
      }
    }

    method TakeBack(orig: State, ghost b: Base)
      requires Valid() && Extends(b) && Was(b) && orig == b.s && Lazily(orig.lazyNext, orig.lazyHead, b.z)
      modifies this
      ensures Valid() && LazyOk() && Get() == orig && chain == b.c && tls == b.t && lazy == b.z
    {
      Rollback(orig, b);
      lazy := b.z;
    }

    /** The new DSOs stay; without RTLD_GLOBAL, their symbols do not stay on the chain. */
    method Commit(orig: State, global: bool, ghost b: Base)
      requires Valid() && Extends(b) && Was(b) && orig == b.s
      modifies this`relocated, this`symsNext, this`symsTail, this`chain, this`symsPos
      ensures Valid() && forall i | 0 <= i <= tail :: relocated[i]
      ensures b.c <= chain && (!global ==> chain == b.c && symsTail == orig.symsTail)
      ensures global ==> chain == old(chain)
    {
      MarkRelocated();
      if !global {
        assert chain[|b.c| - 1] == b.c[|b.c| - 1];
        RevertSyms(orig.symsTail);
      }
    }
  }

  /** Clears the last old link; the first n DSOs are the old ones. */
  method CutLast(nx: seq<int>, last: int, n: nat, ghost pos: seq<int>, ghost c: seq<nat>,
                 ghost nx0: seq<int>, ghost pos0: seq<int>, ghost c0: seq<nat>)
    returns (r: seq<int>)
    requires Linked(nx, pos, c) && Linked(nx0, pos0, c0) && c0 <= c && n == |nx0| <= |nx| && last == Last(c0)
    requires forall i | |c0| <= i < |c| :: c[i] >= |nx0|
    ensures r == nx0
  {
    CutAtOld(nx, pos, c, nx0, pos0, c0);
    r := nx;
    if last >= 0 {
      r := r[last := -1];
    }
    r := r[..n];
  }

  /** Clearing the last old link is enough when the rest of the list are DSOs that go away. */
  lemma CutAtOld(nx: seq<int>, pos: seq<int>, c: seq<nat>, nx0: seq<int>, pos0: seq<int>, c0: seq<nat>)
    requires Linked(nx, pos, c) && Linked(nx0, pos0, c0) && c0 <= c && |nx0| <= |nx|
    requires forall i | |c0| <= i < |c| :: c[i] >= |nx0|
    ensures Last(c0) < |nx| && (if Last(c0) < 0 then nx else nx[Last(c0) := -1])[..|nx0|] == nx0
  {
    forall d | 0 <= d < |nx0| ensures (if Last(c0) < 0 then nx else nx[Last(c0) := -1])[d] == nx0[d] {
      if pos0[d] != -1 {
        assert nx0[c0[pos0[d]]] == At(c0, pos0[d] + 1) && nx[c[pos0[d]]] == At(c, pos0[d] + 1);
      }
    }
  }
}