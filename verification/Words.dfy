/** Unsigned arithmetic on words of n bits, and what masks built from powers of two do. */
module Words {
  import opened Bits

  /** The width of a word and the bitwise operation &. */
  datatype Machine = Machine(bits: nat, and: BitOp)

  /** a is a power of two that fits in a word of the machine. */
  ghost predicate Aligns(m: Machine, a: nat) { IsAnd(m.and) && IsPow2(m.bits, a) }

  /** The n-bit value of an unsigned expression. */
  function Wrap(n: nat, x: int): nat { x % Pow2(n) }

  /** A power of two that fits in a word. */
  ghost predicate IsPow2(n: nat, a: nat) { a > 0 && exists k: nat :: k < n && a == Pow2(k) }

  lemma {:induction false} PowAdd(a: nat, b: nat)
    ensures Pow2(a + b) == Pow2(a) * Pow2(b)
  {
    if a > 0 {
      PowAdd(a - 1, b);
    }
  }

  lemma {:induction false} PowMono(a: nat, b: nat)
    requires a <= b
    ensures Pow2(a) <= Pow2(b) && (a < b ==> Pow2(a) < Pow2(b))
  {
    if a < b {
      PowMono(a, b - 1);
    }
  }

  lemma DivUnique(x: int, m: nat, q: int, r: int)
    requires 0 <= r < m && x == m * q + r
    ensures x % m == r
  {
    var d := x / m - q;
    assert m * d == r - x % m;
  }

  lemma ModOfMod(x: int, a: nat, b: nat)
    requires a > 0 && b > 0
    ensures a * b > 0 && x % (a * b) % a == x % a
  {
    var q, w := x / (a * b), x % (a * b);
    var p, r := w / a, w % a;
    assert x == a * b * q + w && w == a * p + r;
    Regroup(a, b, q, p);
    DivUnique(x, a, b * q + p, r);
  }

  lemma Regroup(a: int, b: int, q: int, p: int)
    ensures a * b * q + a * p == a * (b * q + p)
  {
  }

  /** Masking a wrapped value with a power of two less one reduces the true value modulo that power. */
  lemma LowMask(m: Machine, x: int, a: nat)
    requires Aligns(m, a)
    ensures m.and(Wrap(m.bits, x), a - 1) == x % a == m.and(a - 1, Wrap(m.bits, x))
  {
    var n := m.bits;
    var k: nat :| k < n && a == Pow2(k);
    MaskIsMod(m.and, Wrap(n, x), k, a);
    AndComm(m.and, a - 1, Wrap(n, x));
    PowAdd(k, n - k);
    ModOfMod(x, a, Pow2(n - k));
  }

  lemma {:induction false} DifferenceIsMultiple(n: nat, j: nat, i: nat)
    requires i <= j <= n
    ensures Pow2(j) <= Pow2(n) && Multiple(Pow2(n) - Pow2(j), i)
  {
    PowMono(j, n);
    if i > 0 {
      DifferenceIsMultiple(n - 1, j - 1, i - 1);
      HalfDifference(Pow2(n - 1), Pow2(j - 1));
    }
  }

  lemma HalfDifference(a: nat, b: nat)
    requires b <= a
    ensures (2 * a - 2 * b) % 2 == 0 && (2 * a - 2 * b) / 2 == a - b
  {
  }

  /** And-ing with the negation of a power of two rounds down to a multiple of it. */
  lemma {:induction false} HighMask(f: BitOp, n: nat, k: nat, y: nat, r: nat)
    requires IsAnd(f) && k <= n && Multiple(y, k) && r < Pow2(k) && y + r < Pow2(n)
    ensures Pow2(k) <= Pow2(n) && f(Pow2(n) - Pow2(k), y + r) == y
  {
    PowMono(k, n);
    if k == 0 {
      AllOnes(f, n, y);
    } else {
      HighMask(f, n - 1, k - 1, y / 2, r / 2);
      assert AndStep(f, Pow2(n - 1) - Pow2(k - 1), 0, y / 2 + r / 2, r % 2);
    }
  }

  lemma AllOnes(f: BitOp, n: nat, y: nat)
    requires IsAnd(f) && y < Pow2(n)
    ensures f(Pow2(n) - 1, y) == y
  {
    ProductIsMultiple(0, n);
    AndMask(f, 0, n, y);
    AndComm(f, Pow2(n) - 1, y);
  }

  lemma Negated(n: nat, i: nat)
    requires i < n
    ensures 0 < Pow2(i) < Pow2(n) && Wrap(n, 0 - Pow2(i)) == Pow2(n) - Pow2(i)
    ensures Wrap(n, 0 - (Pow2(n) - Pow2(i))) == Pow2(i)
  {
    PowMono(i, n);
    DivUnique(0 - Pow2(i), Pow2(n), -1, Pow2(n) - Pow2(i));
    DivUnique(0 - (Pow2(n) - Pow2(i)), Pow2(n), -1, Pow2(i));
  }

  /** MAXP2. */
  function MaxP2(m: Machine, a: nat, b: nat): nat { Wrap(m.bits, 0 - m.and(Wrap(m.bits, 0 - a), Wrap(m.bits, 0 - b))) }

  /** On powers of two, MAXP2 is the maximum. */
  lemma MaxP2IsMax(m: Machine, a: nat, b: nat)
    requires Aligns(m, a) && Aligns(m, b)
    ensures MaxP2(m, a, b) == if a <= b then b else a
  {
    var n := m.bits;
    var i: nat :| i < n && a == Pow2(i);
    var j: nat :| j < n && b == Pow2(j);
    if i <= j {
      PowMono(i, j);
      MaxOrdered(m, i, j);
    } else {
      PowMono(j, i);
      MaxOrdered(m, j, i);
      AndComm(m.and, Wrap(n, 0 - a), Wrap(n, 0 - b));
    }
  }

  lemma MaxOrdered(m: Machine, i: nat, j: nat)
    requires IsAnd(m.and) && i <= j < m.bits
    ensures MaxP2(m, Pow2(i), Pow2(j)) == Pow2(j)
  {
    var n := m.bits;
    Negated(n, i);
    Negated(n, j);
    DifferenceIsMultiple(n, j, i);
    HighMask(m.and, n, i, Pow2(n) - Pow2(j), 0);
  }

  /** x & -a. */
  function RoundDown(m: Machine, x: nat, a: nat): nat { m.and(Wrap(m.bits, 0 - a), x) }

  lemma RoundDownIs(m: Machine, x: nat, a: nat)
    requires x < Pow2(m.bits) && Aligns(m, a)
    ensures RoundDown(m, x, a) == x - x % a
  {
    var n := m.bits;
    var k: nat :| k < n && a == Pow2(k);
    Negated(n, k);
    var q, r := Euclid(x, a);
    ProductIsMultiple(q, k);
    RoundParts(m.and, n, k, x, q * a, r);
  }

  lemma RoundParts(f: BitOp, n: nat, k: nat, x: nat, y: nat, r: nat)
    requires IsAnd(f) && k < n && x < Pow2(n) && x == y + r && r < Pow2(k) && Multiple(y, k)
    ensures Pow2(k) <= Pow2(n) && f(Pow2(n) - Pow2(k), x) == y
  {
    HighMask(f, n, k, y, r);
  }

  /** A multiple of the larger power is a multiple of the smaller. */
  lemma MultipleOfLarger(n: nat, x: int, a: nat, b: nat)
    requires IsPow2(n, a) && IsPow2(n, b) && a <= b && x % b == 0
    ensures x % a == 0
  {
    var i: nat :| i < n && a == Pow2(i);
    var j: nat :| j < n && b == Pow2(j);
    if j < i {
      PowMono(j, i);
    }
    PowAdd(i, j - i);
    ModOfMod(x, a, Pow2(j - i));
    ZeroMod(a);
  }

  lemma ZeroMod(a: nat)
    requires a > 0
    ensures 0 % a == 0
  {
    DivUnique(0, a, 0, 0);
  }
}
