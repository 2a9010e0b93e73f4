/** Unbalanced Feistel networks on four words, for any round function that can be undone. */
module Feistel {

  /** Computes a word from the four before it, oldest first, and a round key. */
  type Round<!W> = (W, W, W, W, W) -> W

  /** Knowing the new word and the three shared ones, the round gives back the oldest word. */
  ghost predicate Undoes<W(!new)>(f: Round<W>) {
    forall a, b, c, d, k :: f(f(a, b, c, d, k), d, c, b, k) == a
  }

  /** The words X_0 .. X_(n+3) of n rounds. */
  function Run<W>(f: Round<W>, rk: seq<W>, x: seq<W>, n: nat): (r: seq<W>)
    requires n <= |rk| && |x| == 4
    ensures |r| == n + 4
  {
    if n == 0 then x
    else
      var p := Run(f, rk, x, n - 1);
      p + [f(p[n - 1], p[n], p[n + 1], p[n + 2], rk[n - 1])]
  }

  /** A longer run begins with the shorter one. */
  lemma {:induction false} RunPrefix<W>(f: Round<W>, rk: seq<W>, x: seq<W>, m: nat, n: nat)
    requires m <= n <= |rk| && |x| == 4
    ensures Run(f, rk, x, m) <= Run(f, rk, x, n)
  {
    if m < n {
      RunPrefix(f, rk, x, m, n - 1);
    }
  }

  /** Each word of a run, from the words and the key before it. */
  lemma RunAt<W>(f: Round<W>, rk: seq<W>, x: seq<W>, n: nat, i: nat)
    requires i < n <= |rk| && |x| == 4
    ensures var r := Run(f, rk, x, n); r[i + 4] == f(r[i], r[i + 1], r[i + 2], r[i + 3], rk[i])
  {
    RunPrefix(f, rk, x, i + 1, n);
  }

  function Reverse<T>(s: seq<T>): (r: seq<T>)
    ensures |r| == |s| && forall i | 0 <= i < |s| :: r[i] == s[|s| - 1 - i]
  { seq(|s|, i requires 0 <= i < |s| => s[|s| - 1 - i]) }

  /** The last four words of a run over all the keys, in reverse order. */
  function Output<W>(f: Round<W>, rk: seq<W>, x: seq<W>): (y: seq<W>)
    requires |x| == 4
    ensures |y| == 4
  { Reverse(Run(f, rk, x, |rk|)[|rk|..]) }

  /** Run on its own output with the keys reversed, the network retraces its words. */
  lemma {:induction false} Retrace<W(!new)>(f: Round<W>, rk: seq<W>, x: seq<W>, n: nat)
    requires n <= |rk| && |x| == 4 && Undoes(f)
    ensures forall i | 0 <= i < n + 4 ::
      Run(f, Reverse(rk), Output(f, rk, x), n)[i] == Run(f, rk, x, |rk|)[|rk| + 3 - i]
    decreases n
  {
    var m := |rk|;
    if n > 0 {
      Retrace(f, rk, x, n - 1);
      RunAt(f, rk, x, m, m - n);
      var g := Run(f, Reverse(rk), Output(f, rk, x), n - 1);
      var r, k := Run(f, rk, x, m), m - n;
      assert g[n - 1] == r[k + 4] && g[n] == r[k + 3] && g[n + 1] == r[k + 2] && g[n + 2] == r[k + 1];
      assert Reverse(rk)[n - 1] == rk[k];
    }
  }

  /** Running the output through the network with reversed keys gives back the input, whatever the
      round function and the number of rounds. */
  lemma OutputInverts<W(!new)>(f: Round<W>, rk: seq<W>, x: seq<W>)
    requires |x| == 4 && Undoes(f)
    ensures Output(f, Reverse(rk), Output(f, rk, x)) == x
  {
    var m := |rk|;
    RunPrefix(f, rk, x, 0, m);
    Retrace(f, rk, x, m);
  }
}
