/** Word sizes, powers of two, remainders, quotients and sizes of sets. */
module Arith {

  const W32: nat := 0x1_0000_0000
  const W64: nat := 0x1_0000_0000_0000_0000

  function Pow2(n: nat): (p: nat) ensures p > 0 { if n == 0 then 1 else 2 * Pow2(n - 1) }

  /** The powers of two are the doubles of 1. */
  lemma Pow2Doubles(n: nat)
    ensures Pow2(0) == 1 && Pow2(n + 1) == Pow2(n) + Pow2(n)
  {
  }

  lemma MulAtLeast(n: int, k: int)
    requires n > 0 && k >= 1
    ensures n * k >= n
  {
    assert n * (k - 1) >= 0;
  }

  lemma SmallMultiple(n: int, k: int)
    requires n > 0 && -n < n * k < n
    ensures k == 0
  {
    if k >= 1 { MulAtLeast(n, k); }
    assert n * -k == -(n * k);
    if k <= -1 { MulAtLeast(n, -k); }
  }

  /** Quotient and remainder are determined by their defining equation. */
  lemma DivModUnique(x: int, n: int, q: int, r: int)
    requires n > 0 && x == n * q + r && 0 <= r < n
    ensures x / n == q && x % n == r
  {
    var d, e := x / n, x % n;
    assert x == n * d + e;
    assert n * (q - d) == n * q - n * d;
    assert n * (q - d) == e - r;
    SmallMultiple(n, q - d);
  }

  lemma MultipleMod(q: int, n: int)
    requires n > 0
    ensures (q * n) % n == 0
  {
    DivModUnique(q * n, n, q, 0);
  }

  /** Adding a multiple of n does not change the remainder. */
  lemma AddMultiple(x: int, n: int, q: int)
    requires n > 0
    ensures (x + n * q) % n == x % n
  {
    var d, e := x / n, x % n;
    assert x == n * d + e;
    assert x + n * q == n * (d + q) + e;
    DivModUnique(x + n * q, n, d + q, e);
  }

  /** Reducing by a multiple of n first does not change the remainder by n. */
  lemma ModMod(x: int, q: int, n: int)
    requires n > 0 && q > 0
    ensures q * n > 0 && (x % (q * n)) % n == x % n
  {
    MulAtLeast(n, q);
    var m := q * n;
    assert m == n * q;
    var a, b := x / m, x % m;
    assert x == m * a + b;
    assert m * a == n * (q * a) by { assert (n * q) * a == n * (q * a); }
    AddMultiple(b, n, q * a);
  }

  /** The n numbers from `from` on. */
  ghost function Numbers(from: nat, n: nat): (ns: set<nat>)
    ensures forall k :: k in ns <==> from <= k < from + n
    ensures |ns| == n
  {
    if n == 0 then {} else Numbers(from, n - 1) + {from + n - 1}
  }

  lemma {:induction false} SubsetSize<T>(a: set<T>, b: set<T>)
    requires a <= b
    ensures |a| <= |b|
  {
    if a != {} {
      var x :| x in a;
      SubsetSize(a - {x}, b - {x});
    }
  }
}
