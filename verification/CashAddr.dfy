/** The checksum of a cashaddr payload: computing, verifying and creating it. */
module CashAddr {
  import opened Bits
  import opened CashAddrPoly

  function Words(v: seq<Symbol>): seq<Word> { seq(|v|, (i: nat) requires i < |v| => Sym(v[i])) }

  lemma WordsFit(v: seq<Symbol>)
    ensures AllFit(Words(v)) && Fits(1)
  {
    forall i | 0 <= i < |v|
      ensures FitsFive(Words(v)[i])
    {
      SymFits(v[i]);
    }
  }

  lemma WordsJoin(v: seq<Symbol>, w: seq<Symbol>)
    ensures Words(v + w) == Words(v) + Words(w)
  {
  }

  lemma WordsInjective(v: seq<Symbol>, w: seq<Symbol>)
    requires Words(v) == Words(w)
    ensures v == w
  {
    assert |Words(v)| == |v| && |Words(w)| == |w|;
    forall i | 0 <= i < |v|
      ensures v[i] == w[i]
    {
      assert Words(v)[i] == Sym(v[i]) && Words(w)[i] == Sym(w[i]);
      NumSym(v[i]);
      NumSym(w[i]);
    }
  }

  // ---- The checksum ----

  function Plus(x: Word, chosen: bool, k: Word): Word { if chosen then Xor(x, k) else x }

  lemma PlusIs(x: Word, chosen: bool, k: Word)
    ensures Plus(x, chosen, k) == Xor(x, Pick(chosen, k))
  {
    XorSelf(x);
  }

  lemma XorAssociate(a: Word, b: Word, c: Word)
    ensures Xor(Xor(a, b), c) == Xor(a, Xor(b, c))
  {
    hide Xor;
    XorSelf(c);
    XorSelf(a);
    XorSwap(a, b, 0, c);
  }

  /** Adding the multiples one after the other is one step. */
  lemma PlusAll(c: Word, d: Word)
    ensures var c0 := c >> 35;
            Plus(Plus(Plus(Plus(Plus(Xor(Shift(c), d), c0 & 1 != 0, 0x98f2bc8e61), c0 & 2 != 0, 0x79b76d99e2),
                                c0 & 4 != 0, 0xf33e5fb3c4), c0 & 8 != 0, 0xae2eabe2a8), c0 & 16 != 0, 0x1e4f43e470) == Step(c, d)
  {
    var c0 := c >> 35;
    var x := Xor(Shift(c), d);
    FiveMultiples(x, c0 & 1 != 0, c0 & 2 != 0, c0 & 4 != 0, c0 & 8 != 0, c0 & 16 != 0);
    hide Plus, Xor, Pick, Folded, Shift;
  }

  lemma FiveMultiples(x: Word, b1: bool, b2: bool, b4: bool, b8: bool, b16: bool)
    ensures Plus(Plus(Plus(Plus(Plus(x, b1, 0x98f2bc8e61), b2, 0x79b76d99e2), b4, 0xf33e5fb3c4), b8, 0xae2eabe2a8), b16, 0x1e4f43e470)
            == Xor(x, Folded(b1, b2, b4, b8, b16))
  {
    hide Plus, Xor, Pick;
    var (p1, p2, p4, p8, p16) := (Pick(b1, 0x98f2bc8e61), Pick(b2, 0x79b76d99e2), Pick(b4, 0xf33e5fb3c4),
                                  Pick(b8, 0xae2eabe2a8), Pick(b16, 0x1e4f43e470));
    PlusIs(x, b1, 0x98f2bc8e61);
    PlusIs(Xor(x, p1), b2, 0x79b76d99e2);
    XorAssociate(x, p1, p2);
    PlusIs(Xor(x, Xor(p1, p2)), b4, 0xf33e5fb3c4);
    PlusIs(Xor(Xor(x, Xor(p1, p2)), p4), b8, 0xae2eabe2a8);
    XorAssociate(Xor(x, Xor(p1, p2)), p4, p8);
    XorAssociate(x, Xor(p1, p2), Xor(p4, p8));
    PlusIs(Xor(x, Xor(Xor(p1, p2), Xor(p4, p8))), b16, 0x1e4f43e470);
    XorAssociate(x, Xor(Xor(p1, p2), Xor(p4, p8)), p16);
  }

  method PolyMod(v: seq<Symbol>) returns (c: Word)
    ensures c == Xor(Poly(1, Words(v)), 1)
  {
    hide Step, Xor, Plus, Shift, Sym;
    c := 1;
    for i := 0 to |v|
      invariant c == Poly(1, Words(v[..i]))
    {
      var d := Sym(v[i]);
      var c0 := c >> 35;
      PlusAll(c, d);
      assert Words(v[..i + 1])[..i] == Words(v[..i]) && Words(v[..i + 1])[i] == d;
      c := Xor(Shift(c), d);
      c := Plus(c, c0 & 1 != 0, 0x98f2bc8e61);
      c := Plus(c, c0 & 2 != 0, 0x79b76d99e2);
      c := Plus(c, c0 & 4 != 0, 0xf33e5fb3c4);
      c := Plus(c, c0 & 8 != 0, 0xae2eabe2a8);
      c := Plus(c, c0 & 16 != 0, 0x1e4f43e470);
    }
    assert v[..|v|] == v;
    c := Xor(c, 1);
  }

  /** The low five bits of the prefix, and a separating zero. */
  function Expand(prefix: string): seq<Symbol> {
    seq(|prefix|, (i: nat) requires i < |prefix| => prefix[i] as int % 32) + [0]
  }

  method ExpandPrefix(prefix: string) returns (r: seq<Symbol>)
    ensures r == Expand(prefix)
  {
    r := [];
    for i := 0 to |prefix|
      invariant |r| == i && forall k :: 0 <= k < i ==> r[k] == prefix[k] as int % 32
    {
      LowFive(prefix[i] as int);
      r := r + [BitAnd(prefix[i] as int, 0x1f)];
    }
    r := r + [0];
  }

  lemma LowFive(n: nat)
    ensures BitAnd(n, 0x1f) == n % 32
  {
    assert Pow2(5) == 32;
    AndMask(n, 5);
  }

  ghost predicate Verifies(prefix: string, payload: seq<Symbol>) { Poly(1, Words(Expand(prefix) + payload)) == 1 }

  method VerifyChecksum(prefix: string, payload: seq<Symbol>) returns (ok: bool)
    ensures ok <==> Verifies(prefix, payload)
  {
    var expanded := ExpandPrefix(prefix);
    var c := PolyMod(expanded + payload);
    hide Poly, Xor;
    ghost var p := Poly(1, Words(Expand(prefix) + payload));
    XorSelf(1);
    if Xor(p, 1) == 0 {
      XorZero(p, 1);
    }
    ok := c == 0;
  }

  /** The eight symbols in a remainder. */
  method Unpack(mod: Word) returns (r: seq<Symbol>)
    ensures |r| == 8 && Words(r) == Unpacked(mod, 8)
  {
    hide Sym, Num, Last, Top;
    r := [];
    for i := 0 to 8
      invariant |r| == i && Words(r) == Unpacked(mod, i)
    {
      var w := Top(mod, i + 1);
      LastSymbol(w);
      WordsJoin(r, [Num(w)]);
      assert Words([Num(w)]) == [Last(w)];
      r := r + [Num(w)];
    }
  }

  lemma LastSymbol(w: Word)
    ensures Sym(Num(w)) == Last(w)
  {
    SymNum(w);
  }

  /** With the checksum appended, any payload verifies. */
  method CreateChecksum(prefix: string, payload: seq<Symbol>) returns (r: seq<Symbol>)
    ensures |r| == 8 && Verifies(prefix, payload + r)
  {
    hide Poly, Xor, Unpacked, Fits, FitsFive, Sym, Words, Expand;
    var enc := ExpandPrefix(prefix);
    enc := enc + payload;
    ghost var v := enc;
    var zeros: seq<Symbol> := [0, 0, 0, 0, 0, 0, 0, 0];
    enc := enc + zeros;
    var mod := PolyMod(enc);
    r := Unpack(mod);
    WordsJoin(v, zeros);
    ZeroWords(zeros);
    WordsFit(v);
    ChecksumWorks(1, Words(v));
    WordsJoin(v, r);
    assert v + r == Expand(prefix) + (payload + r);
  }

  lemma ZeroWords(zeros: seq<Symbol>)
    requires |zeros| == 8 && forall i :: 0 <= i < 8 ==> zeros[i] == 0
    ensures Words(zeros) == Zeros(8)
  {
    assert Sym(0) == 0;
  }

  /** Two strings that verify and differ only within eight symbols in a row are the same. */
  lemma BurstsAreDetected(prefix: string, a: seq<Symbol>, x: seq<Symbol>, y: seq<Symbol>, b: seq<Symbol>)
    requires |x| == |y| <= 8 && Verifies(prefix, a + x + b) && Verifies(prefix, a + y + b)
    ensures x == y
  {
    hide Poly, Words, Expand;
    var e := Expand(prefix);
    assert e + (a + x + b) == (e + a) + x + b && e + (a + y + b) == (e + a) + y + b;
    BurstsInSymbols(e + a, x, y, b);
  }

  /** A payload that verifies with one prefix does not with another that differs, in the low five bits of
      its characters, within eight in a row. */
  lemma PrefixesAreTold(a: string, x: string, y: string, b: string, payload: seq<Symbol>)
    requires |x| == |y| <= 8 && Verifies(a + x + b, payload) && Verifies(a + y + b, payload)
    ensures forall i :: 0 <= i < |x| ==> x[i] as int % 32 == y[i] as int % 32
  {
    hide Verifies, Words;
    var (a', b') := (Fives(a), Fives(b) + [0] + payload);
    ExpandSplit(a, x, b, payload);
    ExpandSplit(a, y, b, payload);
    BurstsInSymbols(a', Fives(x), Fives(y), b');
    assert forall i :: 0 <= i < |x| ==> Fives(x)[i] == x[i] as int % 32 && Fives(y)[i] == y[i] as int % 32;
  }

  lemma ExpandSplit(a: string, x: string, b: string, payload: seq<Symbol>)
    ensures Verifies(a + x + b, payload) <==> Poly(1, Words(Fives(a) + Fives(x) + (Fives(b) + [0] + payload))) == 1
  {
    hide Words, Poly;
    assert Expand(a + x + b) + payload == Fives(a) + Fives(x) + (Fives(b) + [0] + payload);
  }

  lemma BurstsInSymbols(a: seq<Symbol>, x: seq<Symbol>, y: seq<Symbol>, b: seq<Symbol>)
    requires |x| == |y| <= 8 && Poly(1, Words(a + x + b)) == 1 && Poly(1, Words(a + y + b)) == 1
    ensures x == y
  {
    hide Poly, FitsFive, Fits, Words;
    WordsJoin(a, x);
    WordsJoin(a + x, b);
    WordsJoin(a, y);
    WordsJoin(a + y, b);
    WordsFit(a);
    WordsFit(x);
    WordsFit(y);
    WordsFit(b);
    WordCount(x);
    WordCount(y);
    BurstDetected(1, Words(a), Words(x), Words(y), Words(b));
    WordsInjective(x, y);
  }

  /** The low five bits of every character. */
  ghost function Fives(s: string): seq<Symbol> { seq(|s|, (i: nat) requires i < |s| => s[i] as int % 32) }

  lemma WordCount(v: seq<Symbol>)
    ensures |Words(v)| == |v|
  {
  }
}
