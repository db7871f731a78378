/** Buffers for converting between bases 256 and 58 are large enough. */
module Base58Sizes {
  import opened Bits
  import opened Radix

  /** Two bounds together. */
  lemma Combine(a: nat, a': nat, b: nat, b': nat)
    requires a <= a' && b <= b'
    ensures a * b <= a' * b'
  {
    MulBound(a, b, b');
    MulBound(b', a, a');
  }

  lemma PowerStep(x: nat, y: nat, m: nat, n: nat, k: nat, l: nat)
    requires Power(x, m) <= Power(y, n) && Power(x, k) <= Power(y, l)
    ensures Power(x, m + k) <= Power(y, n + l)
  {
    PowerSum(x, m, k);
    PowerSum(y, n, l);
    hide Power;
    Combine(Power(x, m), Power(y, n), Power(x, k), Power(y, l));
  }

  // ---- From bytes to base 58 ----

  lemma EightBytes()
    ensures Power(256, 8) <= Power(58, 11)
  {
    assert Power(256, 8) == 18446744073709551616;
    assert Power(58, 11) == 24986644000165537792;
  }

  lemma FewBytes(n: nat)
    requires n < 8
    ensures Power(256, n) <= Power(58, n * 138 / 100 + 1)
  {
    assert Power(256, 0) == 1 && Power(58, 1) == 58;
    assert Power(256, 1) == 256 && Power(58, 2) == 3364;
    assert Power(256, 2) == 65536 && Power(58, 3) == 195112;
    assert Power(256, 3) == 16777216 && Power(58, 5) == 656356768;
    assert Power(256, 4) == 4294967296 && Power(58, 6) == 38068692544;
    assert Power(256, 5) == 1099511627776 && Power(58, 7) == 2207984167552;
    assert Power(256, 6) == 281474976710656 && Power(58, 9) == 7427658739644928;
    assert Power(256, 7) == 72057594037927936 && Power(58, 10) == 430804206899405824;
  }

  /** 138/100 is more than the logarithm of 256 to base 58. */
  lemma {:induction false} EncodeFits(n: nat)
    ensures Power(256, n) <= Power(58, n * 138 / 100 + 1)
  {
    hide Power;
    if n < 8 {
      FewBytes(n);
    } else {
      EncodeFits(n - 8);
      EightBytes();
      PowerStep(256, 58, 8, 11, n - 8, (n - 8) * 138 / 100 + 1);
      PowerLess(58, 11 + ((n - 8) * 138 / 100 + 1), n * 138 / 100 + 1);
    }
  }

  // ---- From base 58 to bytes ----

  lemma FifteenDigits()
    ensures Power(58, 15) <= Power(256, 11)
  {
    assert Power(58, 15) == 282761256881297307761016832;
    assert Power(256, 11) == 309485009821345068724781056;
  }

  lemma SeventyOneDigits()
    ensures Power(58, 71) <= Power(256, 52)
  {
    hide Power;
    TenDigits();
    PowerSum(58, 10, 10);
    PowerSum(58, 20, 20);
    PowerSum(58, 40, 20);
    PowerSum(58, 60, 10);
    PowerSum(58, 70, 1);
    PowerSum(256, 13, 13);
    PowerSum(256, 26, 26);
  }

  lemma TenDigits()
    ensures Power(58, 10) == 430804206899405824 && Power(58, 1) == 58 && Power(256, 13) == 20282409603651670423947251286016
  {
    assert Power(58, 10) == 430804206899405824;
    assert Power(256, 13) == 20282409603651670423947251286016;
  }

  /** Bytes for fewer than fifteen digits. */
  function Few(b: nat): nat {
    if b == 0 then 0
    else if b <= 1 then 1
    else if b <= 2 then 2
    else if b <= 4 then 3
    else if b <= 5 then 4
    else if b <= 6 then 5
    else if b <= 8 then 6
    else if b <= 9 then 7
    else if b <= 10 then 8
    else if b <= 12 then 9
    else if b <= 13 then 10
    else 11
  }

  lemma FewDigits(b: nat)
    requires b < 15
    ensures Power(58, b) <= Power(256, Few(b))
  {
    assert Power(58, 0) == 1 && Power(256, 0) == 1;
    assert Power(58, 1) == 58 && Power(256, 1) == 256;
    assert Power(58, 2) == 3364 && Power(256, 2) == 65536;
    assert Power(58, 3) == 195112 && Power(256, 3) == 16777216;
    assert Power(58, 4) == 11316496 && Power(256, 3) == 16777216;
    assert Power(58, 5) == 656356768 && Power(256, 4) == 4294967296;
    assert Power(58, 6) == 38068692544 && Power(256, 5) == 1099511627776;
    assert Power(58, 7) == 2207984167552 && Power(256, 6) == 281474976710656;
    assert Power(58, 8) == 128063081718016 && Power(256, 6) == 281474976710656;
    assert Power(58, 9) == 7427658739644928 && Power(256, 7) == 72057594037927936;
    assert Power(58, 10) == 430804206899405824 && Power(256, 8) == 18446744073709551616;
    assert Power(58, 11) == 24986644000165537792 && Power(256, 9) == 4722366482869645213696;
    assert Power(58, 12) == 1449225352009601191936 && Power(256, 9) == 4722366482869645213696;
    assert Power(58, 13) == 84055070416556869132288 && Power(256, 10) == 1208925819614629174706176;
    assert Power(58, 14) == 4875194084160298409672704 && Power(256, 11) == 309485009821345068724781056;
  }

  lemma {:induction false} ByFifteen(a: nat, b: nat)
    requires b < 15
    ensures Power(58, 15 * a + b) <= Power(256, 11 * a + Few(b))
  {
    hide Power;
    if a == 0 {
      FewDigits(b);
    } else {
      ByFifteen(a - 1, b);
      FifteenDigits();
      PowerStep(58, 256, 15, 11, 15 * (a - 1) + b, 11 * (a - 1) + Few(b));
      assert 15 + (15 * (a - 1) + b) == 15 * a + b && 11 + (11 * (a - 1) + Few(b)) == 11 * a + Few(b);
    }
  }

  /** 733/1000 is more than the logarithm of 58 to base 256. */
  lemma {:induction false} DecodeFits(n: nat)
    ensures Power(58, n) <= Power(256, n * 733 / 1000 + 1)
  {
    hide Power;
    if n < 71 {
      var (a, b) := (n / 15, n % 15);
      ByFifteen(a, b);
      EnoughBytes(a, b);
      PowerLess(256, 11 * a + Few(b), n * 733 / 1000 + 1);
    } else {
      DecodeFits(n - 71);
      SeventyOneDigits();
      PowerStep(58, 256, 71, 52, n - 71, (n - 71) * 733 / 1000 + 1);
      PowerLess(256, 52 + ((n - 71) * 733 / 1000 + 1), n * 733 / 1000 + 1);
    }
  }

  lemma EnoughBytes(a: nat, b: nat)
    requires a <= 4 && b < 15
    ensures 11 * a + Few(b) <= (15 * a + b) * 733 / 1000 + 1
  {
  }
}
