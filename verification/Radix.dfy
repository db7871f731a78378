/** Numbers as digits in some base, the highest first, and conversion in place. */
module Radix {
  import opened Bits

  function Power(b: nat, n: nat): (r: nat)
    ensures b > 0 ==> r > 0
  {
    if n == 0 then 1 else b * Power(b, n - 1)
  }

  /** The value of a list of digits. */
  function Number(s: seq<nat>, b: nat): nat {
    if s == [] then 0 else Number(s[..|s| - 1], b) * b + s[|s| - 1]
  }

  ghost predicate Digits(s: seq<nat>, b: nat) { forall i :: 0 <= i < |s| ==> s[i] < b }

  /** No leading zero. */
  predicate Trimmed(s: seq<nat>) { s != [] ==> s[0] != 0 }

  lemma {:induction false} PowerSum(b: nat, m: nat, n: nat)
    ensures Power(b, m + n) == Power(b, m) * Power(b, n)
  {
    if m != 0 {
      PowerSum(b, m - 1, n);
      assert m + n - 1 == m - 1 + n;
      Associate(b, Power(b, m - 1), Power(b, n));
    }
  }

  lemma {:induction false} PowerLess(b: nat, m: nat, n: nat)
    requires b > 0 && m <= n
    ensures Power(b, m) <= Power(b, n)
  {
    if m < n {
      PowerLess(b, m, n - 1);
      MulBound(Power(b, n - 1), 1, b);
    }
  }

  /** Another digit in front. */
  lemma {:induction false} NumberFront(x: nat, s: seq<nat>, b: nat)
    ensures Number([x] + s, b) == x * Power(b, |s|) + Number(s, b)
  {
    var t := [x] + s;
    if s == [] {
      assert t[..0] == [];
    } else {
      var init := s[..|s| - 1];
      NumberFront(x, init, b);
      assert t[..|t| - 1] == [x] + init && t[|t| - 1] == s[|s| - 1];
      assert Number(t, b) == Number([x] + init, b) * b + s[|s| - 1] && Number(s, b) == Number(init, b) * b + s[|s| - 1];
      assert Power(b, |s|) == b * Power(b, |init|);
      hide Number, Power;
      FrontAlgebra(x, Power(b, |init|), Number(init, b), b, Number([x] + init, b));
    }
  }

  lemma FrontAlgebra(x: nat, p: nat, v: nat, b: nat, n: nat)
    requires n == x * p + v
    ensures n * b == x * (b * p) + v * b
  {
    Distribute(b, x * p, v);
    Commute3(x, b, p);
  }

  lemma Commute3(x: nat, b: nat, p: nat)
    ensures b * (x * p) == x * (b * p)
  {
    Associate(b, x, p);
    Associate(x, b, p);
  }

  lemma {:induction false} NumberBound(s: seq<nat>, b: nat)
    requires Digits(s, b)
    ensures Number(s, b) < Power(b, |s|) || (b == 0 && s == [])
  {
    if s != [] {
      NumberBound(s[..|s| - 1], b);
      MulBound(b, Number(s[..|s| - 1], b) + 1, Power(b, |s| - 1));
      Distribute(b, Number(s[..|s| - 1], b), 1);
    }
  }

  /** Leading zeroes are worth nothing. */
  lemma {:induction false} NumberZeros(s: seq<nat>, n: nat, b: nat)
    requires n <= |s| && forall i :: 0 <= i < n ==> s[i] == 0
    ensures Number(s, b) == Number(s[n..], b)
    decreases n
  {
    if n == 0 {
      assert s[0..] == s;
    } else {
      var t := s[1..];
      NumberZeros(t, n - 1, b);
      assert t[n - 1..] == s[n..] && s == [s[0]] + t;
      NumberFront(s[0], t, b);
    }
  }

  /** As many digits as needed: the first of them counts. */
  ghost predicate Exact(v: nat, len: nat, b: nat) {
    v < Power(b, len) && (len > 0 ==> v >= Power(b, len - 1))
  }

  lemma TrimmedExact(s: seq<nat>, b: nat)
    requires Digits(s, b) && Trimmed(s) && b > 0
    ensures Exact(Number(s, b), |s|, b)
  {
    NumberBound(s, b);
    if s != [] {
      assert s == [s[0]] + s[1..];
      hide Number, Power;
      NumberFront(s[0], s[1..], b);
      AtLeastOnce(s[0], Power(b, |s| - 1));
    }
  }

  lemma AtLeastOnce(x: nat, p: nat)
    requires x > 0
    ensures x * p >= p
  {
    MulBound(p, 1, x);
  }

  lemma ExactTrimmed(s: seq<nat>, b: nat)
    requires Digits(s, b) && Exact(Number(s, b), |s|, b) && b > 0
    ensures Trimmed(s)
  {
    if s != [] && s[0] == 0 {
      assert s == [s[0]] + s[1..];
      NumberFront(s[0], s[1..], b);
      NumberBound(s[1..], b);
      assert false;
    }
  }

  lemma ExactOnce(v: nat, m: nat, n: nat, b: nat)
    requires Exact(v, m, b) && Exact(v, n, b) && b > 0
    ensures m == n
  {
    if m < n {
      PowerLess(b, m, n - 1);
    } else if n < m {
      PowerLess(b, n, m - 1);
    }
  }

  /** A number has one list of digits of a given length. */
  lemma {:induction false} SameDigits(s: seq<nat>, t: seq<nat>, b: nat)
    requires |s| == |t| && Digits(s, b) && Digits(t, b) && Number(s, b) == Number(t, b)
    ensures s == t
  {
    if s != [] {
      var (s', t') := (s[..|s| - 1], t[..|t| - 1]);
      DivUnique(Number(s, b), b, Number(s', b), s[|s| - 1]);
      DivUnique(Number(t, b), b, Number(t', b), t[|t| - 1]);
      SameDigits(s', t', b);
      assert s == s' + [s[|s| - 1]] && t == t' + [t[|t| - 1]];
    }
  }

  /** And one without leading zeroes. */
  lemma TrimmedOnce(s: seq<nat>, t: seq<nat>, b: nat)
    requires Digits(s, b) && Digits(t, b) && Trimmed(s) && Trimmed(t) && Number(s, b) == Number(t, b) && b > 0
    ensures s == t
  {
    TrimmedExact(s, b);
    TrimmedExact(t, b);
    ExactOnce(Number(s, b), |s|, |t|, b);
    SameDigits(s, t, b);
  }

  // ---- Multiplying and adding in place ----

  /** The last digits of a buffer. */
  function Tail(s: seq<nat>, i: nat): seq<nat>
    requires i <= |s|
  {
    s[|s| - i..]
  }

  /** A buffer that holds a number in its last digits and zeroes before. */
  ghost predicate Holds(s: seq<nat>, len: nat, b: nat, v: nat) {
    && len <= |s| && Digits(s, b) && (forall i :: 0 <= i < |s| - len ==> s[i] == 0)
    && Number(s, b) == v && Exact(v, len, b)
  }

  /** Multiplies a number held in a buffer and adds to it, digit by digit from the end, as far as needed. The
      carry that is left is zero whenever the buffer is large enough. */
  method MultiplyAdd(buf: array<nat>, b: nat, factor: nat, addend: nat, len: nat, ghost v: nat) returns (newLen: nat)
    requires b > 1 && addend < factor && Holds(buf[..], len, b, v) && Times(factor, v) + addend < Power(b, buf.Length)
    modifies buf
    ensures Holds(buf[..], newLen, b, Times(factor, v) + addend) && newLen >= len
  {
    ghost var s := buf[..];
    var carry: nat, i: nat := addend, 0;
    GoingStart(s, len, b, factor, addend, v);
    hide Going, Holds, Times, Rem, Quo, Power;
    while (carry != 0 || i < len) && i < buf.Length
      invariant i <= buf.Length && Going(s, buf[..], i, len, b, factor, addend, carry, v)
      decreases buf.Length - i
    {
      ghost var t := buf[..];
      var at := buf.Length - 1 - i;
      GoingStep(s, t, i, len, b, factor, addend, carry, v);
      var n := carry + Times(factor, buf[at]);
      buf[at], carry := Rem(n, b), Quo(n, b);
      assert buf[..] == t[at := buf[at]];
      i := i + 1;
    }
    Finish(s, buf[..], i, len, b, factor, addend, carry, v);
    assert carry == 0;
    newLen := i;
  }

  /** After `i` digits. */
  ghost predicate Going(s: seq<nat>, t: seq<nat>, i: nat, len: nat, b: nat, factor: nat, addend: nat, carry: nat, v: nat) {
    && |s| == |t| && i <= |s| && b > 1 && carry < factor && Digits(t, b) && Holds(s, len, b, v)
    && (forall k :: 0 <= k < |s| - i ==> t[k] == s[k])
    && Number(Tail(t, i), b) + carry * Power(b, i) == Times(factor, Number(Tail(s, i), b)) + addend
    && (i > len ==> Times(factor, v) + addend >= Power(b, i - 1))
  }

  lemma GoingStart(s: seq<nat>, len: nat, b: nat, factor: nat, addend: nat, v: nat)
    requires b > 1 && addend < factor && Holds(s, len, b, v)
    ensures Going(s, s, 0, len, b, factor, addend, addend, v)
  {
    assert Tail(s, 0) == [];
    assert Times(factor, 0) == 0;
  }

  lemma GoingStep(s: seq<nat>, t: seq<nat>, i: nat, len: nat, b: nat, factor: nat, addend: nat, carry: nat, v: nat)
    requires Going(s, t, i, len, b, factor, addend, carry, v) && i < |s| == |t| && (carry != 0 || i < len) && b > 0
    ensures var at := |s| - 1 - i;
            var n := carry + Times(factor, t[at]);
            Going(s, t[at := Rem(n, b)], i + 1, len, b, factor, addend, Quo(n, b), v)
  {
    var at := |s| - 1 - i;
    var n := carry + Times(factor, t[at]);
    var t' := t[at := Rem(n, b)];
    MulStep(s, t, i, b, factor, addend, carry);
    LongEnough(s, t, i, len, b, factor, addend, carry, v);
    TailMore(t, t', i);
    hide Number, Power, Exact, Times, Tail, Rem, Quo, Holds;
  }

  function Times(a: nat, b: nat): nat { a * b }

  function Rem(n: nat, b: nat): nat
    requires b > 0
  {
    n % b
  }

  function Quo(n: nat, b: nat): nat
    requires b > 0
  {
    n / b
  }

  lemma TailMore(t: seq<nat>, t': seq<nat>, i: nat)
    requires |t| == |t'| && i < |t| && forall k :: |t| - i <= k < |t| ==> t'[k] == t[k]
    ensures Tail(t', i + 1) == [t'[|t| - 1 - i]] + Tail(t, i)
  {
  }

  /** One digit: of the sum, the remainder stays and the quotient is carried. */
  lemma MulStep(s: seq<nat>, t: seq<nat>, i: nat, b: nat, factor: nat, addend: nat, carry: nat)
    requires |s| == |t| && i < |s| && b > 1 && carry < factor && s[|s| - 1 - i] == t[|s| - 1 - i] < b
    requires Number(Tail(t, i), b) + carry * Power(b, i) == Times(factor, Number(Tail(s, i), b)) + addend
    ensures var n := carry + Times(factor, t[|s| - 1 - i]);
            && Rem(n, b) < b && Quo(n, b) < factor
            && Number([Rem(n, b)] + Tail(t, i), b) + Quo(n, b) * Power(b, i + 1) == Times(factor, Number(Tail(s, i + 1), b)) + addend
  {
    var x := t[|s| - 1 - i];
    var n := carry + Times(factor, x);
    TailMore(s, s, i);
    assert Power(b, i + 1) == b * Power(b, i);
    hide Number, Power;
    NumberFront(x, Tail(s, i), b);
    NumberFront(Rem(n, b), Tail(t, i), b);
    assert |Tail(s, i)| == |Tail(t, i)| == i;
    hide *;
    CarryBound(carry, factor, x, b);
    StepAlgebra(Number(Tail(t, i), b), Number(Tail(s, i), b), carry, Power(b, i), b, factor, addend, x, n);
  }

  lemma CarryBound(carry: nat, factor: nat, x: nat, b: nat)
    requires carry < factor && x < b
    ensures var n := carry + Times(factor, x); Rem(n, b) < b && Quo(n, b) < factor
  {
    var n := carry + factor * x;
    MulBound(factor, x + 1, b);
    Distribute(factor, x, 1);
    assert n < factor * b;
    assert n == b * (n / b) + n % b;
    if n / b >= factor {
      MulBound(b, factor, n / b);
      assert false;
    }
  }

  lemma StepAlgebra(vt: nat, vs: nat, carry: nat, p: nat, b: nat, factor: nat, addend: nat, x: nat, n: nat)
    requires b > 0 && vt + carry * p == Times(factor, vs) + addend && n == carry + Times(factor, x)
    ensures Rem(n, b) * p + vt + Quo(n, b) * (b * p) == Times(factor, x * p + vs) + addend
  {
    var (q, r) := (n / b, n % b);
    assert n == b * q + r;
    SplitProduct(q, r, b, p, n);
    Distribute(factor, x * p, vs);
    Associate(factor, x, p);
    DistributeRight(carry, factor * x, p);
  }

  lemma SplitProduct(q: nat, r: nat, b: nat, p: nat, n: nat)
    requires n == b * q + r
    ensures r * p + q * (b * p) == n * p
  {
    DistributeRight(b * q, r, p);
    Associate(q, b, p);
    assert q * b == b * q;
  }

  lemma DistributeRight(a: int, b: int, c: int)
    ensures (a + b) * c == a * c + b * c
  {
  }

  lemma NumberOfTail(s: seq<nat>, i: nat, len: nat, b: nat, v: nat)
    requires Holds(s, len, b, v) && len <= i <= |s|
    ensures Number(Tail(s, i), b) == v
  {
    NumberZeros(s, |s| - i, b);
  }

  /** A digit beyond the old ones is written only for the sake of a carry. */
  lemma LongEnough(s: seq<nat>, t: seq<nat>, i: nat, len: nat, b: nat, factor: nat, addend: nat, carry: nat, v: nat)
    requires Holds(s, len, b, v) && |s| == |t| && i < |s| && (carry != 0 || i < len)
    requires Number(Tail(t, i), b) + carry * Power(b, i) == Times(factor, Number(Tail(s, i), b)) + addend
    ensures i + 1 > len ==> Times(factor, v) + addend >= Power(b, i)
  {
    if i >= len {
      NumberOfTail(s, i, len, b, v);
      hide *;
      AtLeastOnce(carry, Power(b, i));
    }
  }

  lemma Finish(s: seq<nat>, t: seq<nat>, i: nat, len: nat, b: nat, factor: nat, addend: nat, carry: nat, v: nat)
    requires Going(s, t, i, len, b, factor, addend, carry, v) && ((carry == 0 && i >= len) || i == |s|)
    requires Times(factor, v) + addend < Power(b, |s|)
    ensures Holds(t, i, b, Times(factor, v) + addend) && i >= len && carry == 0
  {
    NumberOfTail(s, i, len, b, v);
    var v' := Times(factor, v) + addend;
    assert carry == 0 by {
      if carry != 0 {
        AtLeastOnce(carry, Power(b, i));
      }
    }
    NumberZeros(t, |t| - i, b);
    assert Tail(t, i) == t[|t| - i..];
    NumberBound(Tail(t, i), b);
    assert v' >= v by { AtLeastOnce(factor, v); }
  }
}
