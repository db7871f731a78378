/** The heights that skip links lead to. */
module SkipHeights {
  import opened Bits

  /** Turns off the lowest one in the binary form. */
  function InvertLowestOne(n: nat): nat { if n == 0 then 0 else BitAnd(n, n - 1) }

  function GetSkipHeight(height: nat): nat {
    if height < 2 then 0
    else if height % 2 == 1 then InvertLowestOne(InvertLowestOne(height - 1)) + 1
    else InvertLowestOne(height)
  }

  /** An odd number loses its last one; an even number is treated like its half. */
  lemma InvertSteps(n: nat)
    requires n > 0
    ensures n % 2 == 1 ==> InvertLowestOne(n) == n - 1
    ensures n % 2 == 0 ==> InvertLowestOne(n) == 2 * InvertLowestOne(n / 2)
  {
    if n % 2 == 1 {
      assert (n - 1) / 2 == n / 2 && (n - 1) % 2 == 0;
      AndSelf(n / 2);
    } else {
      assert (n - 1) / 2 == n / 2 - 1;
    }
  }

  /** What is taken off is the largest power of two dividing the number. */
  lemma {:induction false} InvertTakesPower(n: nat) returns (k: nat, odd: nat)
    requires n > 0
    ensures odd % 2 == 1 && n == odd * Pow2(k) && InvertLowestOne(n) == n - Pow2(k)
  {
    InvertSteps(n);
    if n % 2 == 1 {
      k, odd := 0, n;
    } else {
      k, odd := InvertTakesPower(n / 2);
      assert odd * Pow2(k + 1) == 2 * (odd * Pow2(k));
      k := k + 1;
    }
  }

  lemma {:induction false} InvertLess(n: nat)
    ensures InvertLowestOne(n) <= n && (n > 0 ==> InvertLowestOne(n) < n)
  {
    if n > 0 {
      InvertSteps(n);
      hide InvertLowestOne;
      InvertLess(n / 2);
    }
  }

  /** Where the skip link of an even height leads: the largest power of two dividing it is taken off. */
  lemma EvenSkip(height: nat) returns (k: nat, odd: nat)
    requires height >= 2 && height % 2 == 0
    ensures odd % 2 == 1 && height == odd * Pow2(k) && GetSkipHeight(height) == height - Pow2(k)
  {
    k, odd := InvertTakesPower(height);
  }

  /** Where that of an odd height leads: from the height below, such powers are taken off twice, and 1 is
      added again; for heights next to a power of two that is height 1. */
  lemma OddSkip(height: nat) returns (k: nat, odd: nat, j: nat, odd': nat)
    requires height >= 3 && height % 2 == 1
    ensures odd % 2 == 1 && height - 1 == odd * Pow2(k)
    ensures odd == 1 ==> GetSkipHeight(height) == 1
    ensures odd > 1 ==> odd' % 2 == 1 && height - 1 - Pow2(k) == odd' * Pow2(j) && GetSkipHeight(height) == height - Pow2(k) - Pow2(j)
  {
    k, odd := InvertTakesPower(height - 1);
    j, odd' := 0, 1;
    hide InvertLowestOne, Pow2;
    if odd > 1 {
      Distribute(Pow2(k), 1, odd - 1);
      MulPositive(Pow2(k), odd - 1);
      j, odd' := InvertTakesPower(height - 1 - Pow2(k));
    } else {
      assert InvertLowestOne(height - 1) == 0;
      NothingToInvert();
    }
  }

  lemma NothingToInvert()
    ensures InvertLowestOne(0) == 0
  {
  }

  /** Heights 0 and 1 have no shorter way. */
  lemma NoSkip(height: nat)
    requires height < 2
    ensures GetSkipHeight(height) == 0
  {
  }

  /** A skip link always leads strictly down. */
  lemma SkipIsLower(height: nat)
    requires height > 0
    ensures GetSkipHeight(height) < height
  {
    InvertLess(height);
    InvertLess(height - 1);
    InvertLess(InvertLowestOne(height - 1));
  }
}
