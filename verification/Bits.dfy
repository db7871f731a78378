/** Bitwise operations on non-negative numbers. */
module Bits {

  function Pow2(n: nat): (r: nat)
    ensures r > 0
  {
    if n == 0 then 1 else 2 * Pow2(n - 1)
  }

  function BitAnd(a: nat, b: nat): nat
    decreases a
  {
    if a == 0 || b == 0 then 0 else 2 * BitAnd(a / 2, b / 2) + if a % 2 == 1 && b % 2 == 1 then 1 else 0
  }

  function BitOr(a: nat, b: nat): nat
    decreases a + b
  {
    if a == 0 then b
    else if b == 0 then a
    else 2 * BitOr(a / 2, b / 2) + if a % 2 == 1 || b % 2 == 1 then 1 else 0
  }

  lemma {:induction false} Pow2Sum(m: nat, n: nat)
    ensures Pow2(m + n) == Pow2(m) * Pow2(n)
  {
    if n != 0 {
      Pow2Sum(m, n - 1);
      assert m + n - 1 == m + (n - 1);
      assert Pow2(m) * (2 * Pow2(n - 1)) == 2 * (Pow2(m) * Pow2(n - 1));
    }
  }

  lemma {:induction false} Pow2Less(m: nat, n: nat)
    ensures m < n ==> 2 * Pow2(m) <= Pow2(n)
    ensures m <= n <==> Pow2(m) <= Pow2(n)
    decreases m
  {
    if m != 0 && n != 0 {
      Pow2Less(m - 1, n - 1);
    }
  }

  lemma {:induction false} AndSelf(a: nat)
    ensures BitAnd(a, a) == a
  {
    if a != 0 {
      AndSelf(a / 2);
    }
  }

  /** The conjunction with a power of two tells one bit. */
  lemma {:induction false} AndPow2(a: nat, n: nat)
    ensures BitAnd(a, Pow2(n)) == if a / Pow2(n) % 2 == 1 then Pow2(n) else 0
    decreases n
  {
    if n == 0 {
      HalfAnd(a, 1);
    } else {
      HalfPow2(a, n);
      HalfAnd(a, Pow2(n));
      hide BitAnd;
      AndPow2(a / 2, n - 1);
    }
  }

  lemma {:induction false} HalfAnd(a: nat, b: nat)
    ensures BitAnd(a, b) == 2 * BitAnd(a / 2, b / 2) + if a % 2 == 1 && b % 2 == 1 then 1 else 0
  {
  }

  lemma HalfPow2(a: nat, n: nat)
    requires n > 0
    ensures Pow2(n) / 2 == Pow2(n - 1) && Pow2(n) % 2 == 0 && a / 2 / Pow2(n - 1) == a / Pow2(n)
  {
    DivDiv(a, 2, Pow2(n - 1));
  }

  lemma DivDiv(a: nat, b: nat, c: nat)
    requires b > 0 && c > 0
    ensures b * c > 0 && a / b / c == a / (b * c)
  {
    MulPositive(b, c);
    var (q, r) := (a / b, a % b);
    var (s, t) := (q / c, q % c);
    assert a == b * (c * s + t) + r;
    Distribute(b, c * s, t);
    Associate(b, c, s);
    assert a == (b * c) * s + (b * t + r);
    MulBound(b, t, c - 1);
    Distribute(b, c, -1);
    assert 0 <= b * t + r < b * c;
    DivUnique(a, b * c, s, b * t + r);
  }

  lemma MulPositive(a: nat, b: nat)
    requires a > 0 && b > 0
    ensures a * b > 0
  {
  }

  lemma Distribute(a: int, b: int, c: int)
    ensures a * (b + c) == a * b + a * c
  {
  }

  lemma Associate(a: int, b: int, c: int)
    ensures a * (b * c) == (a * b) * c
  {
  }

  lemma MulBound(a: nat, b: int, c: int)
    requires b <= c
    ensures a * b <= a * c
  {
    assert a * (c - b) >= 0;
    Distribute(a, b, c - b);
  }

  /** Quotient and remainder are the only numbers of their kind. */
  lemma DivUnique(a: int, d: int, q: int, r: int)
    requires d > 0 && a == d * q + r && 0 <= r < d
    ensures a / d == q && a % d == r
  {
    var (p, s) := (a / d, a % d);
    assert d * (p - q) == r - s by { Distribute(d, p, -q); }
    if p > q {
      MulBound(d, 1, p - q);
    } else if p < q {
      MulBound(d, 1, q - p);
    }
  }

  /** Numbers with no common bits: a low part and a multiple of a power of two. */
  lemma {:induction false} OrDisjoint(a: nat, b: nat, n: nat)
    requires a < Pow2(n)
    ensures BitOr(a, b * Pow2(n)) == a + b * Pow2(n)
    ensures BitOr(b * Pow2(n), a) == a + b * Pow2(n)
    decreases n
  {
    if n == 0 {
      assert b * Pow2(0) == b;
    } else {
      OrDisjoint(a / 2, b, n - 1);
      assert b * Pow2(n) == 2 * (b * Pow2(n - 1)) by { Associate(b, 2, Pow2(n - 1)); Associate(2, b, Pow2(n - 1)); }
      var c := b * Pow2(n - 1);
      assert 2 * c / 2 == c && 2 * c % 2 == 0;
    }
  }

  /** The low bits of a disjunction come from the low bits, the high ones from the high ones. */
  lemma OrSplit(a: nat, b: nat, c: nat, d: nat, n: nat)
    requires a < Pow2(n) && b < Pow2(n)
    ensures BitOr(a + c * Pow2(n), b + d * Pow2(n)) == BitOr(a, b) + BitOr(c, d) * Pow2(n)
  {
    hide *;
    OrSplitDoubled(a, b, c, d, n);
    DoubledIs(c, n);
    DoubledIs(d, n);
    DoubledIs(BitOr(c, d), n);
  }

  /** Doubled some number of times. */
  function Doubled(c: nat, n: nat): nat { if n == 0 then c else 2 * Doubled(c, n - 1) }

  lemma {:induction false} DoubledIs(c: nat, n: nat)
    ensures Doubled(c, n) == c * Pow2(n)
  {
    if n != 0 {
      DoubledIs(c, n - 1);
      Twice(c, n);
    }
  }

  lemma {:induction false} OrSplitDoubled(a: nat, b: nat, c: nat, d: nat, n: nat)
    requires a < Pow2(n) && b < Pow2(n)
    ensures BitOr(a + Doubled(c, n), b + Doubled(d, n)) == BitOr(a, b) + Doubled(BitOr(c, d), n)
    decreases n
  {
    if n == 0 {
      assert BitOr(a, b) == 0;
    } else {
      OrSplitDoubled(a / 2, b / 2, c, d, n - 1);
      OrStep(a, b, Doubled(c, n - 1), Doubled(d, n - 1), Doubled(BitOr(c, d), n - 1));
    }
  }

  lemma {:induction false} OrStep(a: nat, b: nat, c: nat, d: nat, e: nat)
    requires BitOr(a / 2 + c, b / 2 + d) == BitOr(a / 2, b / 2) + e
    ensures BitOr(a + 2 * c, b + 2 * d) == BitOr(a, b) + 2 * e
  {
    hide *;
    OrHalves(a + 2 * c, b + 2 * d, a / 2 + c, b / 2 + d, a % 2, b % 2);
    OrHalves(a, b, a / 2, b / 2, a % 2, b % 2);
  }

  lemma Twice(c: nat, n: nat)
    requires n > 0
    ensures c * Pow2(n) == 2 * (c * Pow2(n - 1))
  {
    Associate(c, 2, Pow2(n - 1));
    Associate(2, c, Pow2(n - 1));
  }

  lemma {:induction false} OrHalves(x: nat, y: nat, hx: nat, hy: nat, bx: nat, by_: nat)
    requires x == 2 * hx + bx && y == 2 * hy + by_ && bx < 2 && by_ < 2
    ensures BitOr(x, y) == 2 * BitOr(hx, hy) + if bx == 1 || by_ == 1 then 1 else 0
  {
    assert x / 2 == hx && y / 2 == hy && x % 2 == bx && y % 2 == by_;
  }

  /** The conjunction with a mask of low ones keeps the low bits. */
  lemma {:induction false} AndMask(a: nat, n: nat)
    ensures BitAnd(a, Pow2(n) - 1) == a % Pow2(n)
    decreases n
  {
    if n == 0 {
      assert a % 1 == 0;
    } else {
      var p := Pow2(n - 1);
      AndMask(a / 2, n - 1);
      HalfAnd(a, 2 * p - 1);
      assert (2 * p - 1) / 2 == p - 1 && (2 * p - 1) % 2 == 1;
      assert Pow2(n) == 2 * p;
      hide *;
      ModHalves(a, p);
    }
  }

  lemma ModHalves(a: nat, p: nat)
    requires p > 0
    ensures a % (2 * p) == 2 * (a / 2 % p) + a % 2
  {
    var (q, r) := (a / 2 / p, a / 2 % p);
    assert a / 2 == p * q + r;
    Associate(2, p, q);
    assert a == (2 * p) * q + (2 * r + a % 2);
    DivUnique(a, 2 * p, q, 2 * r + a % 2);
  }
}
