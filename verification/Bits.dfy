/** Bitwise operations on natural numbers, and their meaning on aligned operands. */
module Bits {
  function Pow2(k: nat): (r: nat)
    ensures r > 0
  { if k == 0 then 1 else 2 * Pow2(k - 1) }

  function Or(x: nat, y: nat): nat {
    if x == 0 && y == 0 then 0 else (if x % 2 == 1 || y % 2 == 1 then 1 else 0) + 2 * Or(x / 2, y / 2)
  }

  lemma ModUnique(x: nat, m: nat, q: nat, r: nat)
    requires 0 <= r < m && x == q * m + r
    ensures x % m == r && x / m == q
  {
    if x / m < q {
      MulStep(x / m, q, m);
    } else if x / m > q {
      MulStep(q, x / m, m);
    }
  }

  lemma MulStep(a: nat, b: nat, m: nat)
    requires a < b
    ensures a * m + m <= b * m
  {
    assert b * m == a * m + (b - a) * m;
    assert (b - a) * m == m + (b - a - 1) * m;
  }

  /** Or-ing into the low k bits leaves the bits above alone. */
  lemma {:induction false} OrLow(hi: nat, k: nat, a: nat, b: nat)
    requires a < Pow2(k) && b < Pow2(k)
    ensures Or(hi * Pow2(k) + a, b) == hi * Pow2(k) + Or(a, b) && Or(a, b) < Pow2(k)
  {
    if k == 0 {
      OrZero(hi);
    } else {
      var h := Pow2(k - 1);
      assert hi * Pow2(k) == 2 * (hi * h);
      OrLow(hi, k - 1, a / 2, b / 2);
      assert (hi * Pow2(k) + a) / 2 == hi * h + a / 2 && (hi * Pow2(k) + a) % 2 == a % 2;
    }
  }

  lemma {:induction false} OrZero(x: nat)
    ensures Or(x, 0) == x
  {
    if x > 0 {
      OrZero(x / 2);
    }
  }

  lemma DivDiv(a: nat, b: nat, c: nat)
    requires b > 0 && c > 0
    ensures b * c > 0 && a / (b * c) == (a / b) / c
  {
    var q, s, r := (a / b) / c, (a / b) % c, a % b;
    assert a == b * (c * q + s) + r;
    assert b * (c * q + s) == q * (b * c) + b * s;
    MulStep(s, c, b);
    ModUnique(a, b * c, q, b * s + r);
  }

  function And(x: nat, y: nat): nat {
    if x == 0 || y == 0 then 0 else (if x % 2 == 1 && y % 2 == 1 then 1 else 0) + 2 * And(x / 2, y / 2)
  }

  // ---------- masks, for any operation that works bit by bit as And does

  type BitOp = (nat, nat) -> nat

  ghost predicate AndStep(f: BitOp, u: nat, c: nat, v: nat, e: nat) {
    f(2 * u + c, 2 * v + e) == 2 * f(u, v) + if c == 1 && e == 1 then 1 else 0
  }

  ghost predicate IsAnd(f: BitOp) {
    f(0, 0) == 0 && forall u, c, v, e | 0 <= c < 2 && 0 <= e < 2 :: AndStep(f, u, c, v, e)
  }

  lemma AndIsAnd()
    ensures IsAnd(And)
  {
    forall u: nat, c: nat, v: nat, e: nat | c < 2 && e < 2 ensures AndStep(And, u, c, v, e) {
      AndOnce(u, c, v, e);
    }
  }

  lemma AndOnce(u: nat, c: nat, v: nat, e: nat)
    requires c < 2 && e < 2
    ensures And(2 * u + c, 2 * v + e) == 2 * And(u, v) + if c == 1 && e == 1 then 1 else 0
  {
    Halves(u, c);
    Halves(v, e);
  }

  lemma Halves(u: nat, c: nat)
    requires c < 2
    ensures (2 * u + c) / 2 == u && (2 * u + c) % 2 == c
  {
  }

  lemma {:induction false} AndZero(f: BitOp, y: nat)
    requires IsAnd(f)
    ensures f(0, y) == 0
  {
    if y > 0 {
      AndZero(f, y / 2);
      assert AndStep(f, 0, 0, y / 2, y % 2);
    }
  }

  lemma {:induction false} AndComm(f: BitOp, x: nat, y: nat)
    requires IsAnd(f)
    ensures f(x, y) == f(y, x)
  {
    if x > 0 || y > 0 {
      AndComm(f, x / 2, y / 2);
      assert AndStep(f, x / 2, x % 2, y / 2, y % 2) && AndStep(f, y / 2, y % 2, x / 2, x % 2);
    }
  }

  /** The low k bits of y are zero. */
  predicate Multiple(y: nat, k: nat) { k == 0 || (y % 2 == 0 && Multiple(y / 2, k - 1)) }

  lemma {:induction false} ProductIsMultiple(q: nat, k: nat)
    ensures Multiple(q * Pow2(k), k)
  {
    if k > 0 {
      ProductIsMultiple(q, k - 1);
      Double(q, Pow2(k - 1));
    }
  }

  lemma Double(q: nat, h: nat)
    ensures q * (2 * h) == 2 * (q * h)
  {
  }

  /** And-ing with k low ones keeps the low k bits. */
  lemma {:induction false} AndMask(f: BitOp, y: nat, k: nat, r: nat)
    requires IsAnd(f) && Multiple(y, k) && r < Pow2(k)
    ensures f(y + r, Pow2(k) - 1) == r
    decreases k
  {
    if k == 0 {
      AndComm(f, y, 0);
      AndZero(f, y);
    } else {
      AndMask(f, y / 2, k - 1, r / 2);
      assert AndStep(f, y / 2 + r / 2, r % 2, Pow2(k - 1) - 1, 1);
    }
  }

  lemma MaskIsMod(f: BitOp, x: nat, k: nat, m: nat)
    requires IsAnd(f) && m == Pow2(k)
    ensures f(x, m - 1) == x % m
  {
    var q, r := Euclid(x, m);
    ProductIsMultiple(q, k);
    AndMask(f, q * m, k, r);
  }

  /** And-ing with a single bit tests it. */
  lemma {:induction false} AndPow2(f: BitOp, x: nat, k: nat)
    requires IsAnd(f)
    ensures f(x, Pow2(k)) != 0 <==> x / Pow2(k) % 2 == 1
  {
    if k == 0 {
      assert AndStep(f, x / 2, x % 2, 0, 1);
      AndComm(f, x / 2, 0);
      AndZero(f, x / 2);
    } else {
      AndPow2(f, x / 2, k - 1);
      assert AndStep(f, x / 2, x % 2, Pow2(k - 1), 0);
      DivDiv(x, 2, Pow2(k - 1));
    }
  }

  lemma Euclid(x: nat, m: nat) returns (q: nat, r: nat)
    requires m > 0
    ensures r < m && x == q * m + r && r == x % m
  {
    q, r := x / m, x % m;
  }
}
