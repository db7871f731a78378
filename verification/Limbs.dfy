/** Numbers as sequences of 32-bit limbs, the lowest first. */
module Limbs {
  import opened Bits

  const BASE: nat := 0x1_0000_0000

  type u32 = x: int | 0 <= x < BASE

  /** The weight of a limb. */
  function Weight(i: nat): (r: nat)
    ensures r > 0
  {
    if i == 0 then 1 else Weight(i - 1) * BASE
  }

  /** The value of the first limbs. */
  function Val(s: seq<u32>, n: nat): nat
    requires n <= |s|
  {
    if n == 0 then 0 else Val(s, n - 1) + s[n - 1] * Weight(n - 1)
  }

  function Value(s: seq<u32>): nat { Val(s, |s|) }

  lemma {:induction false} ValBound(s: seq<u32>, n: nat)
    requires n <= |s|
    ensures Val(s, n) < Weight(n)
  {
    if n != 0 {
      ValBound(s, n - 1);
      MulBound(Weight(n - 1), s[n - 1], BASE - 1);
      assert Weight(n - 1) * (BASE - 1) == Weight(n) - Weight(n - 1);
    }
  }

  /** Limbs beyond those summed do not matter. */
  lemma {:induction false} ValSame(s: seq<u32>, t: seq<u32>, n: nat)
    requires n <= |s| && n <= |t| && forall i :: 0 <= i < n ==> s[i] == t[i]
    ensures Val(s, n) == Val(t, n)
  {
    if n != 0 {
      ValSame(s, t, n - 1);
    }
  }

  lemma {:induction false} WeightSum(m: nat, n: nat)
    ensures Weight(m + n) == Weight(m) * Weight(n)
  {
    if n != 0 {
      WeightSum(m, n - 1);
      assert m + n - 1 == m + (n - 1);
      Associate(Weight(m), Weight(n - 1), BASE);
    }
  }

  lemma {:induction false} WeightIsPow2(n: nat)
    ensures Weight(n) == Pow2(32 * n)
  {
    if n != 0 {
      WeightIsPow2(n - 1);
      Pow2Sum(32 * (n - 1), 32);
      assert Pow2(32) == BASE by { Pow2Of32(); }
    }
  }

  lemma Pow2Of32()
    ensures Pow2(32) == BASE && Pow2(8) == 256 && Pow2(16) == 0x1_0000 && Pow2(24) == 0x100_0000
  {
    assert Pow2(8) == 256;
    Pow2Sum(8, 8);
    Pow2Sum(8, 16);
    Pow2Sum(16, 16);
  }

  /** Two numbers differ by the part above some limb plus the part below. */
  lemma {:induction false} ValSplit(s: seq<u32>, k: nat, n: nat)
    requires k <= n <= |s|
    ensures Val(s, n) == Val(s, k) + Weight(k) * Val(s[k..], n - k)
  {
    if n != k {
      ValSplit(s, k, n - 1);
      WeightSum(k, n - 1 - k);
      assert k + (n - 1 - k) == n - 1;
      var rest := s[k..];
      assert rest[n - k - 1] == s[n - 1];
      Distribute(Weight(k), Val(rest, n - k - 1), s[n - 1] * Weight(n - 1 - k));
      Commute(Weight(k), s[n - 1], Weight(n - 1 - k));
    }
  }

  lemma Commute(a: int, b: int, c: int)
    ensures a * (b * c) == b * (a * c)
  {
    Associate(a, b, c);
    Associate(b, a, c);
  }

  /** The highest limb that differs decides. */
  lemma {:induction false} HighestDecides(s: seq<u32>, t: seq<u32>, i: nat, n: nat)
    requires i < n <= |s| && n <= |t| && s[i] < t[i] && forall k :: i < k < n ==> s[k] == t[k]
    ensures Val(s, n) < Val(t, n)
    decreases n
  {
    if n == i + 1 {
      ValBound(s, i);
      MulBound(Weight(i), s[i] + 1, t[i]);
      Distribute(Weight(i), s[i], 1);
    } else {
      HighestDecides(s, t, i, n - 1);
    }
  }

  /** Zero limbs are worth nothing. */
  lemma {:induction false} ValZero(s: seq<u32>, n: nat)
    requires n <= |s| && forall i :: 0 <= i < n ==> s[i] == 0
    ensures Val(s, n) == 0
  {
    if n != 0 {
      ValZero(s, n - 1);
    }
  }
}
