/** Picking elements out of a list, in order. */
module Choices {

  /** The elements of s with a property, each as often as s has it, in order. */
  ghost function Filter<T>(s: seq<T>, keep: T -> bool): (r: seq<T>)
    ensures |r| <= |s|
  {
    if s == [] then []
    else
      var n := |s| - 1;
      Filter(s[..n], keep) + if keep(s[n]) then [s[n]] else []
  }

  /** The places of those elements: ascending, and all of them. */
  ghost predicate Chosen<T>(s: seq<T>, keep: T -> bool, idx: seq<nat>) {
    && (forall a, b | 0 <= a < b < |idx| :: idx[a] < idx[b])
    && (forall a | 0 <= a < |idx| :: idx[a] < |s| && keep(s[idx[a]]))
    && (forall i {:trigger Among(i, idx)} | 0 <= i < |s| && keep(s[i]) :: Among(i, idx))
  }

  ghost predicate Among(i: nat, idx: seq<nat>) { exists a :: 0 <= a < |idx| && idx[a] == i }

  lemma {:induction false} FilterChooses<T>(s: seq<T>, keep: T -> bool) returns (idx: seq<nat>)
    ensures Chosen(s, keep, idx) && |Filter(s, keep)| == |idx|
    ensures forall a | 0 <= a < |idx| :: Filter(s, keep)[a] == s[idx[a]]
  {
    if s == [] {
      return [];
    }
    var n := |s| - 1;
    var before := FilterChooses(s[..n], keep);
    idx := ChosenSnoc(s[..n], s[n], keep, before);
    assert s[..n] + [s[n]] == s;
  }

  lemma ChosenSnoc<T>(s: seq<T>, x: T, keep: T -> bool, before: seq<nat>) returns (idx: seq<nat>)
    requires Chosen(s, keep, before)
    ensures idx == (if keep(x) then before + [|s|] else before) && Chosen(s + [x], keep, idx)
  {
    if !keep(x) {
      return before;
    }
    idx := before + [|s|];
    forall i | 0 <= i < |s + [x]| && keep((s + [x])[i]) ensures Among(i, idx) {
      if i < |s| {
        AmongMore(i, before, idx);
      } else {
        assert idx[|before|] == i;
      }
    }
  }

  lemma AmongMore(i: nat, idx: seq<nat>, more: seq<nat>)
    requires Among(i, idx) && idx <= more
    ensures Among(i, more)
  {
    var a :| 0 <= a < |idx| && idx[a] == i;
    assert more[a] == i;
  }

  lemma FilterSnoc<T>(s: seq<T>, x: T, keep: T -> bool)
    ensures Filter(s + [x], keep) == Filter(s, keep) + if keep(x) then [x] else []
  {
    assert (s + [x])[..|s|] == s;
  }

  lemma {:induction false} FilterConcat<T>(s: seq<T>, t: seq<T>, keep: T -> bool)
    ensures Filter(s + t, keep) == Filter(s, keep) + Filter(t, keep)
    decreases |t|
  {
    if t == [] {
      assert s + t == s;
    } else {
      var n := |t| - 1;
      FilterConcat(s, t[..n], keep);
      FilterSnoc(s + t[..n], t[n], keep);
      assert s + t[..n] + [t[n]] == s + t;
    }
  }

  /** A property that says the same of the elements picks out the same. */
  lemma {:induction false} FilterSame<T>(s: seq<T>, keep: T -> bool, also: T -> bool)
    requires forall i | 0 <= i < |s| :: keep(s[i]) == also(s[i])
    ensures Filter(s, keep) == Filter(s, also)
  {
    if s != [] {
      FilterSame(s[..|s| - 1], keep, also);
    }
  }

  lemma {:induction false} FilterMembers<T>(s: seq<T>, keep: T -> bool, x: T)
    ensures x in Filter(s, keep) <==> x in s && keep(x)
  {
    if s != [] {
      FilterMembers(s[..|s| - 1], keep, x);
      assert s == s[..|s| - 1] + [s[|s| - 1]];
    }
  }
}
