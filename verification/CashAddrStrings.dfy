/** Cashaddr strings: a prefix, a colon, and the characters of payload and checksum. */
module CashAddrStrings {
  import opened Bits
  import opened CashAddrPoly
  import opened CashAddrTables
  import opened CashAddr

  function Chars(v: seq<Symbol>): string { seq(|v|, (i: nat) requires i < |v| => Charset(v[i])) }

  method Encode(prefix: string, payload: seq<Symbol>) returns (s: string, ghost checksum: seq<Symbol>)
    ensures |checksum| == 8 && Verifies(prefix, payload + checksum)
    ensures s == prefix + ":" + Chars(payload + checksum)
  {
    hide Verifies;
    var check := CreateChecksum(prefix, payload);
    var combined := payload + check;
    s := prefix + ":";
    for i := 0 to |combined|
      invariant s == prefix + ":" + Chars(combined[..i])
    {
      s := s + [Charset(combined[i])];
      assert Chars(combined[..i + 1]) == Chars(combined[..i]) + [Charset(combined[i])];
    }
    assert combined[..|combined|] == combined;
    checksum := check;
  }

  // ---- What can be decoded ----

  predicate Known(c: char) { IsLower(c) || IsUpper(c) || IsDigit(c) }

  /** Letters and digits, except for a colon at `p` unless that is 0, with no digits before it. */
  ghost predicate CharsOk(str: string, p: nat) {
    if p == 0 then forall i :: 0 <= i < |str| ==> Known(str[i])
    else
      && p < |str| && str[p] == ':'
      && (forall i :: 0 <= i < |str| && i != p ==> Known(str[i]))
      && (forall i :: 0 <= i < p ==> !IsDigit(str[i]))
  }

  ghost predicate HasLower(str: string) { exists i :: 0 <= i < |str| && IsLower(str[i]) }
  ghost predicate HasUpper(str: string) { exists i :: 0 <= i < |str| && IsUpper(str[i]) }
  ghost predicate HasDigit(str: string) { exists i :: 0 <= i < |str| && IsDigit(str[i]) }

  function LowerAll(s: string): string { seq(|s|, (i: nat) requires i < |s| => Lower(s[i])) }

  function PrefixOf(str: string, defaultPrefix: string, p: nat): string
    requires p <= |str|
  {
    if p == 0 then defaultPrefix else LowerAll(str[..p])
  }

  function RestOf(str: string, p: nat): string
    requires p < |str| || p == 0
  {
    if p == 0 then str else str[p + 1..]
  }

  ghost predicate SymbolsOf(rest: string, values: seq<Symbol>) {
    |values| == |rest| && forall i :: 0 <= i < |rest| ==> CharsetRev(rest[i] as int) == values[i]
  }

  /** A string stands for a prefix and a verified list of symbols. */
  ghost predicate Decodes(str: string, defaultPrefix: string, p: nat, prefix: string, values: seq<Symbol>) {
    && CharsOk(str, p) && !(HasLower(str) && HasUpper(str))
    && prefix == PrefixOf(str, defaultPrefix, p) && SymbolsOf(RestOf(str, p), values) && Verifies(prefix, values)
  }

  /** It does so in one way at most. */
  lemma DecodesOnce(str: string, d: string, p: nat, prefix: string, values: seq<Symbol>, p': nat, prefix': string, values': seq<Symbol>)
    requires Decodes(str, d, p, prefix, values) && Decodes(str, d, p', prefix', values')
    ensures p == p' && prefix == prefix' && values == values'
  {
    hide Verifies;
    OneColon(str, p, p');
    var rest := RestOf(str, p);
    forall i | 0 <= i < |rest|
      ensures values[i] == values'[i]
    {
      assert CharsetRev(rest[i] as int) == values[i];
    }
  }

  lemma OneColon(str: string, p: nat, p': nat)
    requires CharsOk(str, p) && CharsOk(str, p')
    ensures p == p'
  {
    if p != 0 {
      ColonAt(str, p', p);
    } else if p' != 0 {
      ColonAt(str, p, p');
    }
  }

  // ---- Decoding ----

  /** The third case is a verified string of fewer symbols than a checksum has: the code then takes a
      slice that ends before its beginning. */
  datatype Decoded = Nothing | Found(prefix: string, payload: seq<Symbol>) | TooShort

  method Decode(str: string, defaultPrefix: string) returns (r: Decoded, ghost p: nat, ghost values: seq<Symbol>)
    ensures r.Nothing? <==> forall q, prefix, v :: !Decodes(str, defaultPrefix, q, prefix, v)
    ensures !r.Nothing? ==> p <= |str| && Decodes(str, defaultPrefix, p, PrefixOf(str, defaultPrefix, p), values)
    ensures p < |str| || p == 0
    ensures r.TooShort? <==> !r.Nothing? && |RestOf(str, p)| < 8
    ensures r.Found? ==> |values| >= 8 && r == Found(PrefixOf(str, defaultPrefix, p), values[..|values| - 8])
  {
    hide Verifies, CharsOk, HasLower, HasUpper, SymbolsOf, PrefixOf;
    r, p, values := Nothing, 0, [];
    var ok, prefixSize := Scan(str);
    if !ok {
      return;
    }
    p := prefixSize;
    OneColonForAll(str, p);
    ColonInside(str, p);
    var prefix := ReadPrefix(str, defaultPrefix, prefixSize);
    var known, vals := ReadSymbols(RestOf(str, prefixSize));
    if !known {
      return;
    }
    SymbolsOnce(RestOf(str, prefixSize), vals);
    var verified := VerifyChecksum(prefix, vals);
    if !verified {
      return;
    }
    values := vals;
    r := if |vals| < 8 then TooShort else Found(prefix, vals[..|vals| - 8]);
    assert Decodes(str, defaultPrefix, p, prefix, values);
  }

  lemma OneColonForAll(str: string, p: nat)
    requires CharsOk(str, p)
    ensures forall q :: CharsOk(str, q) ==> q == p
  {
    forall q: nat | CharsOk(str, q)
      ensures q == p
    {
      OneColon(str, p, q);
    }
  }

  lemma ColonInside(str: string, p: nat)
    requires CharsOk(str, p)
    ensures p < |str| || p == 0
  {
  }

  lemma SymbolsOnce(rest: string, values: seq<Symbol>)
    requires SymbolsOf(rest, values)
    ensures forall v :: SymbolsOf(rest, v) ==> v == values
  {
    forall v | SymbolsOf(rest, v)
      ensures v == values
    {
      forall i | 0 <= i < |rest|
        ensures v[i] == values[i]
      {
        assert CharsetRev(rest[i] as int) == v[i];
      }
    }
  }

  /** The checks that need one look at every character. */
  method Scan(str: string) returns (ok: bool, prefixSize: nat)
    ensures ok ==> CharsOk(str, prefixSize) && !(HasLower(str) && HasUpper(str))
    ensures !ok ==> forall q: nat :: CharsOk(str, q) ==> HasLower(str) && HasUpper(str)
  {
    var lower, upper, hasNumber := false, false, false;
    prefixSize := 0;
    for i := 0 to |str|
      invariant CharsOk(str[..i], prefixSize)
      invariant lower == HasLower(str[..i]) && upper == HasUpper(str[..i]) && hasNumber == HasDigit(str[..i])
    {
      var c := str[i];
      ScanStep(str[..i], c, prefixSize);
      assert str[..i + 1] == str[..i] + [c];
      if IsLower(c) {
        lower := true;
      } else if IsUpper(c) {
        upper := true;
      } else if IsDigit(c) {
        hasNumber := true;
      } else if c == ':' {
        if hasNumber || i == 0 || prefixSize != 0 {
          BadColon(str, i, prefixSize);
          return false, 0;
        }
        prefixSize := i;
      } else {
        BadChar(str, i);
        return false, 0;
      }
    }
    assert str[..|str|] == str;
    ok := !(upper && lower);
  }

  lemma ScanStep(s: string, c: char, p: nat)
    requires CharsOk(s, p)
    ensures HasLower(s + [c]) == (HasLower(s) || IsLower(c))
    ensures HasUpper(s + [c]) == (HasUpper(s) || IsUpper(c))
    ensures HasDigit(s + [c]) == (HasDigit(s) || IsDigit(c))
    ensures Known(c) ==> CharsOk(s + [c], p)
    ensures c == ':' && p == 0 && s != [] && !HasDigit(s) ==> CharsOk(s + [c], |s|)
  {
    var t := s + [c];
    assert t[|s|] == c && forall i :: 0 <= i < |s| ==> t[i] == s[i];
  }

  lemma BadChar(str: string, i: nat)
    requires i < |str| && !Known(str[i]) && str[i] != ':'
    ensures forall q :: !CharsOk(str, q)
  {
  }

  lemma BadColon(str: string, i: nat, p: nat)
    requires i < |str| && str[i] == ':' && CharsOk(str[..i], p) && (HasDigit(str[..i]) || i == 0 || p != 0)
    ensures forall q :: !CharsOk(str, q)
  {
    var k: nat := i;
    if p != 0 {
      assert str[p] == str[..i][p];
    } else if i > 0 {
      k :| 0 <= k < i && IsDigit(str[..i][k]);
      assert IsDigit(str[k]);
    }
    forall q: nat
      ensures !CharsOk(str, q)
    {
      if CharsOk(str, q) {
        ColonAt(str, q, i);
        if p != 0 {
          ColonAt(str, q, p);
        }
        assert false;
      }
    }
  }

  lemma ColonAt(str: string, q: nat, i: nat)
    requires CharsOk(str, q) && i < |str| && str[i] == ':'
    ensures q == i && i != 0
  {
    assert !Known(str[i]);
  }

  method ReadPrefix(str: string, defaultPrefix: string, prefixSize: nat) returns (prefix: string)
    requires CharsOk(str, prefixSize) && prefixSize <= |str|
    ensures prefix == PrefixOf(str, defaultPrefix, prefixSize)
  {
    if prefixSize == 0 {
      return defaultPrefix;
    }
    prefix := "";
    for i := 0 to prefixSize
      invariant prefix == LowerAll(str[..i])
    {
      LowerCaseIs(str[i]);
      prefix := prefix + [LowerCase(str[i])];
      assert LowerAll(str[..i + 1]) == LowerAll(str[..i]) + [Lower(str[i])];
    }
  }

  /** Sets one bit of the character code. */
  function LowerCase(c: char): char
    requires c as int < 128
  {
    LowerCode(c as int);
    BitOr(c as int, 0x20) as char
  }

  lemma LowerCode(n: nat)
    requires n < 128
    ensures BitOr(n, 0x20) < 128
    ensures 64 <= n < 96 ==> BitOr(n, 0x20) == n + 32
    ensures 96 <= n ==> BitOr(n, 0x20) == n
  {
    assert Pow2(5) == 32;
    assert BitOr(n / 32, 1) == if n / 32 % 2 == 0 then n / 32 + 1 else n / 32 by {
      assert BitOr(0, 1) == 1 && BitOr(1, 1) == 1 && BitOr(2, 1) == 3 && BitOr(3, 1) == 3;
    }
    OrSplit(n % 32, 0, n / 32, 1, 5);
  }

  lemma LowerCaseIs(c: char)
    requires IsLower(c) || IsUpper(c)
    ensures c as int < 128 && LowerCase(c) == Lower(c)
  {
    LowerCode(c as int);
  }

  method ReadSymbols(rest: string) returns (known: bool, values: seq<Symbol>)
    ensures known ==> SymbolsOf(rest, values)
    ensures !known ==> forall v :: !SymbolsOf(rest, v)
  {
    values := [];
    for i := 0 to |rest|
      invariant |values| == i && forall k :: 0 <= k < i ==> CharsetRev(rest[k] as int) == values[k]
    {
      var c := rest[i] as int;
      if c > 127 || CharsetRev(c) == -1 {
        Unreadable(rest, i);
        return false, [];
      }
      Entries(rest[i]);
      values := values + [CharsetRev(c)];
    }
    known := true;
  }

  lemma Unreadable(rest: string, i: nat)
    requires i < |rest| && (rest[i] as int > 127 || CharsetRev(rest[i] as int) == -1)
    ensures forall v :: !SymbolsOf(rest, v)
  {
    forall v
      ensures !SymbolsOf(rest, v)
    {
      if SymbolsOf(rest, v) {
        assert CharsetRev(rest[i] as int) == v[i];
        Entries(rest[i]);
      }
    }
  }

  // ---- Strings too short for a checksum ----

  const SHORT: seq<Symbol> := [0, 12, 13, 4, 10, 2, 17]

  /** A string of seven symbols that verifies. */
  lemma ShortDecodes(defaultPrefix: string)
    ensures Decodes("c:qvdy2z3", defaultPrefix, 1, "c", SHORT)
  {
    ShortVerifies();
    hide Verifies;
    assert "c" + ":" + Chars(SHORT) == "c:qvdy2z3";
    EncodedDecodes("c", SHORT, defaultPrefix);
  }

  lemma ShortVerifies()
    ensures Verifies("c", SHORT)
  {
    ShortWords();
    ShortRemainder();
  }

  /** Nine steps from 1 back to 1. */
  lemma ShortRemainder()
    ensures Poly(1, SHORT_WORDS) == 1
  {
    hide Poly, Step;
    var v := SHORT_WORDS;
    ShortSteps(v);
    MoreSteps(v);
    NoSteps(v);
    PolySteps(v, 0, 0x1, 0x23, 0x460, 0x8c00);
    PolySteps(v, 3, 0x8c00, 0x11800c, 0x230018d, 0x460031a4);
    PolySteps(v, 6, 0x460031a4, 0x8c006348a, 0x80f27a1f23, 0x1);
    AllSteps(v);
  }

  lemma AllSteps(v: seq<Word>)
    requires |v| == 9
    ensures v[..9] == v
  {
  }

  const SHORT_WORDS: seq<Word> := [3, 0, 0, 12, 13, 4, 10, 2, 17]

  lemma NoSteps(v: seq<Word>)
    ensures Poly(1, v[..0]) == 1
  {
  }

  lemma ShortWords()
    ensures Words(Expand("c") + SHORT) == SHORT_WORDS
  {
    assert Sym(3) == 3 && Sym(0) == 0 && Sym(12) == 12 && Sym(13) == 13 && Sym(4) == 4 && Sym(10) == 10 && Sym(2) == 2 && Sym(17) == 17;
    hide Sym;
    assert Expand("c") + SHORT == [3, 0, 0, 12, 13, 4, 10, 2, 17];
  }

  lemma PolySteps(v: seq<Word>, n: nat, c: Word, c1: Word, c2: Word, c3: Word)
    requires n + 3 <= |v| && Poly(1, v[..n]) == c && Step(c, v[n]) == c1 && Step(c1, v[n + 1]) == c2 && Step(c2, v[n + 2]) == c3
    ensures Poly(1, v[..n + 3]) == c3
  {
    hide Step;
    assert v[..n + 1][..n] == v[..n] && v[..n + 2][..n + 1] == v[..n + 1] && v[..n + 3][..n + 2] == v[..n + 2];
    assert Poly(1, v[..n + 1]) == c1;
    assert Poly(1, v[..n + 2]) == c2;
  }

  lemma ShortSteps(v: seq<Word>)
    requires v == SHORT_WORDS
    ensures |v| == 9 && Step(0x1, v[0]) == 0x23 && Step(0x23, v[1]) == 0x460 && Step(0x460, v[2]) == 0x8c00
    ensures Step(0x8c00, v[3]) == 0x11800c && Step(0x11800c, v[4]) == 0x230018d
  {
    hide Step;
    EarlySteps();
  }

  lemma MoreSteps(v: seq<Word>)
    requires v == SHORT_WORDS
    ensures |v| == 9 && Step(0x230018d, v[5]) == 0x460031a4 && Step(0x460031a4, v[6]) == 0x8c006348a
    ensures Step(0x8c006348a, v[7]) == 0x80f27a1f23 && Step(0x80f27a1f23, v[8]) == 0x1
  {
    hide Step;
    LateSteps();
  }

  lemma EarlySteps()
    ensures Step(0x1, 3) == 0x23 && Step(0x23, 0) == 0x460 && Step(0x460, 0) == 0x8c00
    ensures Step(0x8c00, 12) == 0x11800c && Step(0x11800c, 13) == 0x230018d
  {
  }

  lemma LateSteps()
    ensures Step(0x230018d, 4) == 0x460031a4 && Step(0x460031a4, 10) == 0x8c006348a
    ensures Step(0x8c006348a, 2) == 0x80f27a1f23 && Step(0x80f27a1f23, 17) == 0x1
  {
  }

  /** So decoding does end in the third case. It does so for strings with fewer than eight characters
      after the prefix only, and, in lower case, for one of each length and prefix at most. */
  method DecodeShort(defaultPrefix: string) returns (r: Decoded)
    ensures r == TooShort
  {
    hide Decodes;
    ghost var p, values;
    ShortDecodes(defaultPrefix);
    r, p, values := Decode("c:qvdy2z3", defaultPrefix);
    DecodesOnce("c:qvdy2z3", defaultPrefix, p, PrefixOf("c:qvdy2z3", defaultPrefix, p), values, 1, "c", SHORT);
  }

  lemma ShortOnce(prefix: string, v: seq<Symbol>, w: seq<Symbol>)
    requires Verifies(prefix, v) && Verifies(prefix, w) && |v| == |w| <= 8
    ensures v == w
  {
    hide Verifies;
    assert [] + v + [] == v && [] + w + [] == w;
    BurstsAreDetected(prefix, [], v, w, []);
  }

  // ---- Either case, but not both ----

  /** A string in capitals stands for the same as the one in small letters. */
  lemma CapitalsDecode(str: string, capitals: string, defaultPrefix: string, p: nat, prefix: string, values: seq<Symbol>)
    requires |capitals| == |str| && forall i :: 0 <= i < |str| ==>
               if 'a' <= str[i] <= 'z' then capitals[i] as int == str[i] as int - 32 else capitals[i] == str[i]
    requires forall i :: 0 <= i < |str| ==> !('A' <= str[i] <= 'Z')
    ensures Decodes(str, defaultPrefix, p, prefix, values) <==> Decodes(capitals, defaultPrefix, p, prefix, values)
  {
    hide Verifies, CharsetRev;
    if CharsOk(str, p) || CharsOk(capitals, p) {
      assert CharsOk(str, p) && CharsOk(capitals, p);
      assert !HasUpper(str) && !HasLower(capitals);
      assert p != 0 ==> LowerAll(capitals[..p]) == LowerAll(str[..p]);
      var (rest, rest') := (RestOf(str, p), RestOf(capitals, p));
      forall i | 0 <= i < |rest|
        ensures CharsetRev(rest[i] as int) == CharsetRev(rest'[i] as int)
      {
        CapitalSymbol(rest[i], rest'[i]);
      }
    }
  }

  lemma CapitalSymbol(c: char, d: char)
    requires if 'a' <= c <= 'z' then d as int == c as int - 32 else d == c
    ensures CharsetRev(c as int) == CharsetRev(d as int)
  {
  }

  /** A string with a small letter and a capital stands for nothing, nor does one with anything else than
      letters, digits and one colon, or with a digit before the colon. */
  lemma Refusals(str: string, defaultPrefix: string, p: nat, prefix: string, values: seq<Symbol>, i: nat, j: nat)
    requires i < |str| && j < |str| && Decodes(str, defaultPrefix, p, prefix, values)
    ensures !('a' <= str[i] <= 'z' && 'A' <= str[j] <= 'Z')
    ensures 'a' <= str[i] <= 'z' || 'A' <= str[i] <= 'Z' || '0' <= str[i] <= '9' || str[i] == ':'
    ensures str[i] == ':' ==> i == p && i > 0
    ensures str[j] == ':' && i < j ==> !('0' <= str[i] <= '9')
  {
    hide Verifies;
    assert 'a' <= str[i] <= 'z' ==> IsLower(str[i]);
    assert 'A' <= str[j] <= 'Z' ==> IsUpper(str[j]);
    if str[i] == ':' {
      ColonAt(str, p, i);
    }
    if str[j] == ':' {
      ColonAt(str, p, j);
    }
  }

  // ---- There and back ----

  ghost predicate LowerPrefix(prefix: string) {
    prefix != "" && forall i :: 0 <= i < |prefix| ==> IsLower(prefix[i])
  }

  /** Decoding undoes encoding exactly for prefixes of small letters, whatever the default prefix. */
  method EncodeDecode(prefix: string, payload: seq<Symbol>, defaultPrefix: string) returns (r: Decoded)
    ensures r == Found(prefix, payload) <==> LowerPrefix(prefix)
  {
    hide Verifies;
    ghost var checksum, p, values;
    var s;
    s, checksum := Encode(prefix, payload);
    r, p, values := Decode(s, defaultPrefix);
    if LowerPrefix(prefix) {
      EncodedDecodes(prefix, payload + checksum, defaultPrefix);
      DecodesOnce(s, defaultPrefix, p, PrefixOf(s, defaultPrefix, p), values, |prefix|, prefix, payload + checksum);
      assert (payload + checksum)[..|payload|] == payload;
    } else if r.Found? {
      OnlyLower(s, prefix, p);
    }
  }

  lemma OnlyLower(s: string, prefix: string, p: nat)
    requires CharsOk(s, p) && |prefix| < |s| && s[|prefix|] == ':' && s[..|prefix|] == prefix
    ensures p == |prefix| && (LowerAll(s[..p]) == prefix ==> LowerPrefix(prefix))
  {
    ColonAt(s, p, |prefix|);
    if LowerAll(s[..p]) == prefix {
      forall i | 0 <= i < |prefix|
        ensures IsLower(prefix[i])
      {
        assert prefix[i] == s[i] == LowerAll(s[..p])[i] == Lower(s[i]);
      }
    }
  }

  lemma EncodedDecodes(prefix: string, values: seq<Symbol>, defaultPrefix: string)
    requires LowerPrefix(prefix) && Verifies(prefix, values)
    ensures Decodes(prefix + ":" + Chars(values), defaultPrefix, |prefix|, prefix, values)
  {
    hide Verifies;
    var s := prefix + ":" + Chars(values);
    forall i | |prefix| < i < |s|
      ensures (IsLower(s[i]) || IsDigit(s[i])) && s[i] == Charset(values[i - |prefix| - 1])
    {
      Characters(values[i - |prefix| - 1]);
    }
    assert s[..|prefix|] == prefix;
    assert LowerAll(prefix) == prefix;
    assert s[|prefix| + 1..] == Chars(values);
    forall i | 0 <= i < |values|
      ensures CharsetRev(Chars(values)[i] as int) == values[i]
    {
      Characters(values[i]);
    }
  }

  /** Encoding what was decoded gives back the string in lower case, with its prefix. */
  method DecodeEncode(str: string, defaultPrefix: string) returns (r: Decoded, s: string)
    ensures r.Found? ==>
              exists p: nat :: CharsOk(str, p) && s == if p == 0 then defaultPrefix + ":" + LowerAll(str) else LowerAll(str)
  {
    hide Verifies;
    ghost var p, values, checksum;
    r, p, values := Decode(str, defaultPrefix);
    s := "";
    if r.Found? {
      s, checksum := Encode(r.prefix, r.payload);
      ghost var old8 := values[|values| - 8..];
      assert values == r.payload + old8 + [] && r.payload + checksum == r.payload + checksum + [];
      BurstsAreDetected(r.prefix, r.payload, old8, checksum, []);
      assert r.payload + checksum == values;
      ReadBack(RestOf(str, p), values);
      Whole(str, p);
    }
  }

  lemma ReadBack(rest: string, values: seq<Symbol>)
    requires SymbolsOf(rest, values)
    ensures Chars(values) == LowerAll(rest)
  {
    forall i | 0 <= i < |rest|
      ensures Charset(values[i]) == Lower(rest[i])
    {
      assert CharsetRev(rest[i] as int) == values[i];
      Entries(rest[i]);
    }
  }

  lemma Whole(str: string, p: nat)
    requires CharsOk(str, p)
    ensures p != 0 ==> LowerAll(str[..p]) + ":" + LowerAll(str[p + 1..]) == LowerAll(str)
  {
    if p != 0 {
      assert Lower(':') == ':';
      assert str == str[..p] + [str[p]] + str[p + 1..];
    }
  }
}
