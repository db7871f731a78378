/** Base 58 strings: a one for every leading zero byte, then the remaining number in base 58. */
module Base58 {
  import opened Radix
  import opened Base58Sizes
  import opened Base58Tables

  function Chars(d: seq<nat>): string { seq(|d|, (i: nat) requires i < |d| => Char58(d[i])) }

  function Ones(n: nat): string { seq(n, (_: nat) => '1') }

  function Zeros(n: nat): seq<nat> { seq(n, (_: nat) => 0) }

  /** The same number in base 58 and in base 256, without leading zeroes in either. */
  ghost predicate Converts(d: seq<nat>, tail: seq<nat>) {
    Digits(d, 58) && Trimmed(d) && Digits(tail, 256) && Trimmed(tail) && Number(d, 58) == Number(tail, 256)
  }

  // ---- Encoding ----

  method EncodeBase58(input: seq<nat>) returns (str: string, ghost z: nat, ghost d: seq<nat>)
    requires Digits(input, 256)
    ensures z <= |input| && input == Zeros(z) + input[z..] && Converts(d, input[z..])
    ensures str == Ones(z) + Chars(d)
  {
    var zeroes := 0;
    while zeroes < |input| && input[zeroes] == 0
      invariant zeroes <= |input| && forall i :: 0 <= i < zeroes ==> input[i] == 0
    {
      zeroes := zeroes + 1;
    }
    var rest := input[zeroes..];
    assert input == Zeros(zeroes) + rest;
    var buf, len := ToBase58(rest);
    hide Number, Power;
    var at := buf.Length - len;
    while at < buf.Length && buf[at] == 0
      invariant 0 <= at <= buf.Length && forall i :: 0 <= i < at ==> buf[i] == 0
    {
      at := at + 1;
    }
    NumberZeros(buf[..], at, 58);
    str := Ones(zeroes);
    z, d := zeroes, buf[at..];
    assert buf[..][at..] == d;
    var k := at;
    while k < buf.Length
      invariant at <= k <= buf.Length && str == Ones(zeroes) + Chars(buf[at..k])
    {
      str := str + [Char58(buf[k])];
      k := k + 1;
      assert Chars(buf[at..k]) == Chars(buf[at..k - 1]) + [Char58(buf[k - 1])];
    }
  }

  /** The number that some bytes stand for, in base 58, in a buffer that is always large enough. */
  method ToBase58(rest: seq<nat>) returns (buf: array<nat>, len: nat)
    requires Digits(rest, 256)
    ensures fresh(buf) && Holds(buf[..], len, 58, Number(rest, 256))
  {
    var size := |rest| * 138 / 100 + 1;
    buf := new nat[size](_ => 0);
    len := 0;
    HoldsZero(buf[..], 58);
    hide Number, Power, Holds, Times;
    EncodeFits(|rest|);
    NoDigits(256);
    assert rest[..0] == [];
    for k := 0 to |rest|
      invariant fresh(buf) && buf.Length == size && Holds(buf[..], len, 58, Number(rest[..k], 256))
    {
      Grown(rest, k, 256);
      PowerLess(256, k + 1, |rest|);
      len := MultiplyAdd(buf, 58, 256, rest[k], len, Number(rest[..k], 256));
    }
    assert rest[..|rest|] == rest;
  }

  lemma NoDigits(b: nat)
    ensures Number([], b) == 0
  {
  }

  lemma HoldsZero(s: seq<nat>, b: nat)
    requires b > 0 && forall i :: 0 <= i < |s| ==> s[i] == 0
    ensures Holds(s, 0, b, 0)
  {
    NumberZeros(s, |s|, b);
    assert s[|s|..] == [];
  }

  /** One more digit: the number is multiplied and added to, and stays within its power. */
  lemma Grown(s: seq<nat>, k: nat, b: nat)
    requires Digits(s, b) && k < |s| && b > 0
    ensures Number(s[..k + 1], b) == Times(b, Number(s[..k], b)) + s[k] < Power(b, k + 1)
  {
    assert s[..k + 1][..k] == s[..k];
    NumberBound(s[..k + 1], b);
  }

  // ---- What can be decoded ----

  /** Spaces, then as many ones as there are leading zero bytes, then digits, then spaces. */
  ghost predicate Parses(str: string, i: nat, j: nat, z: nat, d: seq<nat>) {
    && i <= j <= |str| && (forall k :: 0 <= k < i ==> IsSpace(str[k])) && (forall k :: j <= k < |str| ==> IsSpace(str[k]))
    && Digits(d, 58) && Trimmed(d) && j - i == z + |d|
    && (forall k :: i <= k < i + z ==> str[k] == '1')
    && (forall k :: 0 <= k < |d| ==> str[i + z + k] == Char58(d[k]))
  }

  /** The bytes of a parsed string, if they are no more than allowed. */
  ghost predicate Decodes(str: string, max: int, z: nat, d: seq<nat>, tail: seq<nat>) {
    && (exists i, j :: Parses(str, i, j, z, d)) && Converts(d, tail)
    && (z + |tail| <= max || z + |tail| == 0)
  }

  // ---- Decoding ----

  /** Succeeds exactly if the string can be read and the bytes are no more than allowed. */
  method DecodeBase58(str: string, max: int) returns (ok: bool, bytes: seq<nat>, ghost z: nat, ghost d: seq<nat>)
    ensures ok ==> z <= |bytes| && bytes == Zeros(z) + bytes[z..] && Decodes(str, max, z, d, bytes[z..])
    ensures !ok ==> forall z', d', tail' :: !Decodes(str, max, z', d', tail')
  {
    bytes, z, d := [], 0, [];
    if exists k :: 0 <= k < |str| && str[k] as int == 0 {
      HasNul(str, max);
      return false, bytes, z, d;
    }
    var i := 0;
    while i < |str| && IsSpace(str[i])
      invariant 0 <= i <= |str| && forall k :: 0 <= k < i ==> IsSpace(str[k])
    {
      i := i + 1;
    }
    var start := i;
    var zeroes := 0;
    while i < |str| && str[i] == '1'
      invariant start <= i <= |str| && i == start + zeroes && (zeroes <= max || zeroes == 0)
      invariant forall k :: start <= k < i ==> str[k] == '1'
    {
      zeroes := zeroes + 1;
      if zeroes > max {
        TooManyOnes(str, start, zeroes, max);
        return false, bytes, z, d;
      }
      i := i + 1;
    }
    ok, bytes, z, d := DecodeRest(str, max, start, zeroes);
  }

  /** Leading spaces and ones have been read. */
  ghost predicate Started(str: string, start: nat, zeroes: nat) {
    && start + zeroes <= |str| && (forall k :: 0 <= k < start ==> IsSpace(str[k])) && (start < |str| ==> !IsSpace(str[start]))
    && (forall k :: start <= k < start + zeroes ==> str[k] == '1')
    && (start + zeroes < |str| ==> str[start + zeroes] != '1')
  }

  /** So have the digits up to `i`. */
  ghost predicate Read(str: string, start: nat, zeroes: nat, i: nat, d: seq<nat>) {
    && Started(str, start, zeroes) && start + zeroes <= i <= |str| && |d| == i - start - zeroes && Digits(d, 58) && Trimmed(d)
    && (forall k :: 0 <= k < |d| ==> str[start + zeroes + k] == Char58(d[k]))
  }

  method DecodeRest(str: string, max: int, start: nat, zeroes: nat) returns (ok: bool, bytes: seq<nat>, ghost z: nat, ghost d: seq<nat>)
    requires Started(str, start, zeroes) && (zeroes <= max || zeroes == 0)
    ensures ok ==> z <= |bytes| && bytes == Zeros(z) + bytes[z..] && Decodes(str, max, z, d, bytes[z..])
    ensures !ok ==> forall z', d', tail' :: !Decodes(str, max, z', d', tail')
  {
    hide Number, Power, Holds, Times, Decodes, Converts, Parses;
    z, d, bytes, ok := zeroes, [], [], false;
    var i := start + zeroes;
    ghost var n := |str| - i;
    var size := (|str| - i) * 733 / 1000 + 1;
    var buf := new nat[size](_ => 0);
    var len := 0;
    HoldsZero(buf[..], 256);
    NoDigits(58);
    DecodeFits(n);
    while i < |str| && !IsSpace(str[i])
      invariant Read(str, start, zeroes, i, d) && fresh(buf) && buf.Length == size && Holds(buf[..], len, 256, Number(d, 58))
      invariant len + zeroes <= max || (len == 0 && zeroes == 0)
    {
      var carry := Map58(str[i] as int);
      if carry == -1 {
        BadChar(str, start, zeroes, i, d, max);
        return;
      }
      ReadMore(str, start, zeroes, i, d);
      PowerLess(58, |d| + 1, n);
      len := MultiplyAdd(buf, 256, 58, carry, len, Number(d, 58));
      d := d + [carry];
      i := i + 1;
      if len + zeroes > max {
        HoldsExact(buf[..], len, 256, Number(d, 58));
        TooLong(str, start, zeroes, i, d, len, max);
        return;
      }
    }
    ghost var j := i;
    while i < |str| && IsSpace(str[i])
      invariant j <= i <= |str| && forall k :: j <= k < i ==> IsSpace(str[k])
    {
      i := i + 1;
    }
    if i != |str| {
      Garbage(str, start, zeroes, j, i, d, max);
      return;
    }
    HoldsTail(buf[..], len, 256, Number(d, 58));
    bytes := Zeros(zeroes) + buf[size - len..];
    assert bytes[zeroes..] == buf[..][size - len..];
    Parsed(str, start, zeroes, j, d, bytes[zeroes..], max);
    ok := true;
  }

  // ---- Why decoding fails when it does ----

  /** What a parsed string has at a place between its spaces. */
  lemma InParsed(str: string, i: nat, j: nat, z: nat, d: seq<nat>, k: nat)
    requires Parses(str, i, j, z, d) && i <= k < j
    ensures !IsSpace(str[k]) && str[k] as int != 0 && Map58(str[k] as int) != -1
    ensures k < i + z ==> str[k] == '1'
    ensures k >= i + z ==> Map58(str[k] as int) == d[k - i - z]
  {
    if k < i + z {
      DigitOfChar(0);
    } else {
      DigitOfChar(d[k - i - z]);
    }
  }

  /** It begins where the first other character than a space is. */
  lemma ParsedStart(str: string, start: nat, i: nat, j: nat, z: nat, d: seq<nat>)
    requires Parses(str, i, j, z, d) && start < |str| && !IsSpace(str[start]) && forall k :: 0 <= k < start ==> IsSpace(str[k])
    ensures i == start < j
  {
    if i < j {
      InParsed(str, i, j, z, d, i);
    }
  }

  /** It has at least the ones that are there to begin with. */
  lemma ParsedOnes(str: string, start: nat, n: nat, i: nat, j: nat, z: nat, d: seq<nat>)
    requires Parses(str, i, j, z, d) && i == start && start + n <= |str| && forall k :: start <= k < start + n ==> str[k] == '1'
    ensures z >= n
  {
    if z < n {
      assert str[start + z] == '1';
      if d != [] {
        DigitOfChar(d[0]);
      }
      assert false;
    }
  }

  lemma HasNul(str: string, max: int)
    requires exists k :: 0 <= k < |str| && str[k] as int == 0
    ensures forall z, d, tail :: !Decodes(str, max, z, d, tail)
  {
    var m :| 0 <= m < |str| && str[m] as int == 0;
    forall i: nat, j: nat, z: nat, d: seq<nat> | Parses(str, i, j, z, d)
      ensures false
    {
      if i <= m < j {
        InParsed(str, i, j, z, d, m);
      }
    }
  }

  lemma TooManyOnes(str: string, start: nat, zeroes: nat, max: int)
    requires 0 < zeroes && start + zeroes <= |str| && zeroes > max && forall k :: 0 <= k < start ==> IsSpace(str[k])
    requires forall k :: start <= k < start + zeroes ==> str[k] == '1'
    ensures forall z, d, tail :: !Decodes(str, max, z, d, tail)
  {
    forall i: nat, j: nat, z: nat, d: seq<nat> | Parses(str, i, j, z, d)
      ensures z >= zeroes
    {
      ParsedStart(str, start, i, j, z, d);
      ParsedOnes(str, start, zeroes, i, j, z, d);
    }
  }

  lemma BadChar(str: string, start: nat, zeroes: nat, at: nat, d: seq<nat>, max: int)
    requires Read(str, start, zeroes, at, d) && at < |str| && !IsSpace(str[at]) && Map58(str[at] as int) == -1
    ensures forall z', d', tail :: !Decodes(str, max, z', d', tail)
  {
    forall i: nat, j: nat, z': nat, d': seq<nat> | Parses(str, i, j, z', d')
      ensures false
    {
      if i <= at < j {
        InParsed(str, i, j, z', d', at);
      }
    }
  }

  lemma Garbage(str: string, start: nat, zeroes: nat, at: nat, later: nat, d: seq<nat>, max: int)
    requires Read(str, start, zeroes, at, d) && at < later < |str| && IsSpace(str[at]) && !IsSpace(str[later])
    ensures forall z', d', tail :: !Decodes(str, max, z', d', tail)
  {
    forall i: nat, j: nat, z': nat, d': seq<nat> | Parses(str, i, j, z', d')
      ensures false
    {
      ParsedStart(str, start, i, j, z', d');
      if at < j {
        InParsed(str, i, j, z', d', at);
      }
    }
  }

  lemma ReadMore(str: string, start: nat, zeroes: nat, i: nat, d: seq<nat>)
    requires Read(str, start, zeroes, i, d) && i < |str| && Map58(str[i] as int) != -1
    ensures var c := Map58(str[i] as int);
            && 0 <= c < 58 && Read(str, start, zeroes, i + 1, d + [c])
            && Number(d + [c], 58) == Times(58, Number(d, 58)) + c < Power(58, |d| + 1)
  {
    var c := Map58(str[i] as int);
    CharOfDigit(str[i]);
    DigitOfChar(c);
    var e := d + [c];
    assert e[..|d|] == d;
    hide Power;
    NumberBound(e, 58);
  }

  lemma HoldsExact(s: seq<nat>, len: nat, b: nat, v: nat)
    requires Holds(s, len, b, v)
    ensures Exact(v, len, b)
  {
  }

  lemma HoldsTail(s: seq<nat>, len: nat, b: nat, v: nat)
    requires Holds(s, len, b, v) && b > 0
    ensures len <= |s| && Digits(s[|s| - len..], b) && Trimmed(s[|s| - len..]) && Number(s[|s| - len..], b) == v
  {
    NumberZeros(s, |s| - len, b);
    ExactTrimmed(s[|s| - len..], b);
  }

  lemma Parsed(str: string, start: nat, zeroes: nat, j: nat, d: seq<nat>, tail: seq<nat>, max: int)
    requires Read(str, start, zeroes, j, d) && forall k :: j <= k < |str| ==> IsSpace(str[k])
    requires Digits(tail, 256) && Trimmed(tail) && Number(tail, 256) == Number(d, 58)
    requires zeroes + |tail| <= max || zeroes + |tail| == 0
    ensures Decodes(str, max, zeroes, d, tail)
  {
    assert Parses(str, start, j, zeroes, d);
  }

  lemma {:induction false} NumberPrefix(s: seq<nat>, n: nat, b: nat)
    requires n <= |s| && b > 0
    ensures Number(s[..n], b) <= Number(s, b)
  {
    if n == |s| {
      assert s[..n] == s;
    } else {
      NumberPrefix(s[..|s| - 1], n, b);
      assert s[..|s| - 1][..n] == s[..n];
      AtLeastOnce(b, Number(s[..|s| - 1], b));
    }
  }

  lemma ExactMonotone(v: nat, len: nat, v': nat, len': nat, b: nat)
    requires Exact(v, len, b) && Exact(v', len', b) && v <= v' && b > 0
    ensures len <= len'
  {
    if len' < len {
      PowerLess(b, len', len - 1);
      assert false;
    }
  }

  /** The digits read so far are the first ones of any reading. */
  lemma ParsedDigits(str: string, start: nat, zeroes: nat, at: nat, d: seq<nat>, i: nat, j: nat, z': nat, d': seq<nat>)
    requires Read(str, start, zeroes, at, d) && d != [] && Parses(str, i, j, z', d')
    ensures z' == zeroes && d <= d'
  {
    hide Parses, Read, Map58, Char58;
    SameOnes(str, start, zeroes, at, d, i, j, z', d');
    DigitInside(str, start, zeroes, at, d, i, j, z', d', |d| - 1);
    forall k | 0 <= k < |d|
      ensures d'[k] == d[k]
    {
      DigitInside(str, start, zeroes, at, d, i, j, z', d', k);
      InParsed(str, i, j, z', d', start + zeroes + k);
    }
  }

  lemma SameOnes(str: string, start: nat, zeroes: nat, at: nat, d: seq<nat>, i: nat, j: nat, z': nat, d': seq<nat>)
    requires Read(str, start, zeroes, at, d) && d != [] && Parses(str, i, j, z', d')
    ensures i == start && z' == zeroes && j == start + zeroes + |d'| <= |str|
  {
    ParsedStart(str, start, i, j, z', d');
    ParsedOnes(str, start, zeroes, i, j, z', d');
    DigitInside(str, start, zeroes, at, d, i, j, z', d', 0);
    InParsed(str, i, j, z', d', start + zeroes);
  }

  lemma DigitInside(str: string, start: nat, zeroes: nat, at: nat, d: seq<nat>, i: nat, j: nat, z': nat, d': seq<nat>, k: nat)
    requires Read(str, start, zeroes, at, d) && k < |d| && Parses(str, i, j, z', d')
    ensures start + zeroes + k < j && Map58(str[start + zeroes + k] as int) == d[k]
  {
    DigitOfChar(d[k]);
  }

  lemma TooLong(str: string, start: nat, zeroes: nat, at: nat, d: seq<nat>, len: nat, max: int)
    requires Read(str, start, zeroes, at, d) && d != [] && Exact(Number(d, 58), len, 256) && len + zeroes > max
    ensures forall z', d', tail :: !Decodes(str, max, z', d', tail)
  {
    forall z', d', tail | Decodes(str, max, z', d', tail)
      ensures false
    {
      var i, j :| Parses(str, i, j, z', d');
      ParsedDigits(str, start, zeroes, at, d, i, j, z', d');
      LongerBytes(d, d', tail, len);
    }
  }

  lemma LongerBytes(d: seq<nat>, d': seq<nat>, tail: seq<nat>, len: nat)
    requires d != [] && Digits(d, 58) && Trimmed(d) && d <= d' && Converts(d', tail) && Exact(Number(d, 58), len, 256)
    ensures 0 < len <= |tail|
  {
    assert d'[..|d|] == d;
    NumberPrefix(d', |d|, 58);
    TrimmedExact(d, 58);
    TrimmedExact(tail, 256);
    ExactMonotone(Number(d, 58), len, Number(tail, 256), |tail|, 256);
  }
}
