/** The cashaddr checksum as a remainder: of polynomials over the field of 32 elements, by the generator.

    A symbol is a polynomial in a over two elements, modulo a^5 + a^3 + 1. A string of symbols is a
    polynomial in x, highest power first. */
module CashAddrField {
  import opened CashAddrPoly
  import opened CashAddr

  // ---- Symbols ----

  /** Times a. */
  function Twice(b: Word): Word { if b & 16 == 0 then b << 1 else Xor(b << 1, 0x29) }

  /** The product, bit by bit of the first factor. */
  function Mul(a: Word, b: Word): Word {
    var (b2, b4) := (Twice(b), Twice(Twice(b)));
    Picked(a & 1 != 0, a & 2 != 0, a & 4 != 0, a & 8 != 0, a & 16 != 0, b, b2, b4, Twice(b4), Twice(Twice(b4)))
  }

  function Picked(p1: bool, p2: bool, p4: bool, p8: bool, p16: bool, k1: Word, k2: Word, k4: Word, k8: Word, k16: Word): Word {
    Xor(Xor(Xor(Pick(p1, k1), Pick(p2, k2)), Xor(Pick(p4, k4), Pick(p8, k8))), Pick(p16, k16))
  }

  lemma TwiceFits(b: Word)
    requires FitsFive(b)
    ensures FitsFive(Twice(b))
  {
  }

  lemma MulFits(a: Word, b: Word)
    requires FitsFive(b)
    ensures FitsFive(Mul(a, b))
  {
    var (b2, b4) := (Twice(b), Twice(Twice(b)));
    TwiceFits(b);
    TwiceFits(b2);
    TwiceFits(b4);
    TwiceFits(Twice(b4));
    PickedFits(a & 1 != 0, a & 2 != 0, a & 4 != 0, a & 8 != 0, a & 16 != 0, b, b2, b4, Twice(b4), Twice(Twice(b4)));
  }

  lemma PickedFits(p1: bool, p2: bool, p4: bool, p8: bool, p16: bool, k1: Word, k2: Word, k4: Word, k8: Word, k16: Word)
    requires FitsFive(k1) && FitsFive(k2) && FitsFive(k4) && FitsFive(k8) && FitsFive(k16)
    ensures FitsFive(Picked(p1, p2, p4, p8, p16, k1, k2, k4, k8, k16))
  {
    var (q1, q2, q4, q8, q16) := (Pick(p1, k1), Pick(p2, k2), Pick(p4, k4), Pick(p8, k8), Pick(p16, k16));
    assert FitsFive(q1) && FitsFive(q2) && FitsFive(q4) && FitsFive(q8) && FitsFive(q16);
    hide Pick, FitsFive, Xor;
    XorFits(q1, q2);
    XorFits(q4, q8);
    XorFits(Xor(q1, q2), Xor(q4, q8));
    XorFits(Xor(Xor(q1, q2), Xor(q4, q8)), q16);
  }

  /** There are no zero divisors, so that the symbols are a field. */
  lemma MulNonZero(a: Word, b: Word)
    requires FitsFive(a) && FitsFive(b) && Mul(a, b) == 0
    ensures a == 0 || b == 0
  {
  }

  // ---- The eight symbols of a remainder ----

  function Down(w: Word, j: nat): Word
    requires j < 8
  {
    match j
    case 0 => w >> 35
    case 1 => w >> 30
    case 2 => w >> 25
    case 3 => w >> 20
    case 4 => w >> 15
    case 5 => w >> 10
    case 6 => w >> 5
    case _ => w
  }

  function At(w: Word, j: nat): Word
    requires j < 8
  {
    Last(Down(w, j))
  }

  function Symbols(w: Word): seq<Word> { seq(8, (j: nat) requires j < 8 => At(w, j)) }

  lemma AtXor(a: Word, b: Word, j: nat)
    requires j < 8
    ensures At(Xor(a, b), j) == Xor(At(a, j), At(b, j))
  {
    DownXor(a, b, j);
    LastXor(Down(a, j), Down(b, j));
    hide Down, Last, Xor;
  }

  lemma {:induction false} DownXor(a: Word, b: Word, j: nat)
    requires j < 8
    ensures Down(Xor(a, b), j) == Xor(Down(a, j), Down(b, j))
    decreases 8 - j
  {
    if j < 7 {
      hide Down, Rest, Xor;
      DownXor(a, b, j + 1);
      RestDown(a, j);
      RestDown(b, j);
      RestDown(Xor(a, b), j);
      RestXor(Down(a, j + 1), Down(b, j + 1));
    }
  }

  lemma RestXor(a: Word, b: Word)
    ensures Rest(Xor(a, b)) == Xor(Rest(a), Rest(b))
  {
  }

  lemma LastXor(a: Word, b: Word)
    ensures Last(Xor(a, b)) == Xor(Last(a), Last(b))
  {
  }

  lemma AtPick(p: bool, k: Word, j: nat)
    requires j < 8
    ensures At(Pick(p, k), j) == Pick(p, At(k, j))
  {
  }

  /** The generator is x^8 + k(x). */
  function K(j: nat): Word
    requires j < 8
  {
    match j
    case 0 => 19
    case 1 => 3
    case 2 => 25
    case 3 => 11
    case 4 => 25
    case 5 => 3
    case 6 => 19
    case _ => 1
  }

  function Generator(): seq<Word> { [1] + seq(8, (j: nat) requires j < 8 => K(j)) }

  /** The five constants are k(x) times 1, a, a^2, a^3 and a^4. */
  lemma Constants(j: nat)
    requires j < 8
    ensures At(0x98f2bc8e61, j) == K(j)
    ensures At(0x79b76d99e2, j) == Twice(K(j))
    ensures At(0xf33e5fb3c4, j) == Twice(Twice(K(j)))
    ensures At(0xae2eabe2a8, j) == Twice(Twice(Twice(K(j))))
    ensures At(0x1e4f43e470, j) == Twice(Twice(Twice(Twice(K(j)))))
  {
  }

  /** What is folded in for a symbol is that symbol times k(x). */
  lemma FoldSymbols(c0: Word, j: nat)
    requires j < 8
    ensures At(Fold(c0), j) == Mul(c0, K(j))
  {
    Constants(j);
    FoldedSymbols(c0 & 1 != 0, c0 & 2 != 0, c0 & 4 != 0, c0 & 8 != 0, c0 & 16 != 0, j);
    hide At, Twice, Folded, Picked, K;
  }

  lemma FoldedSymbols(b1: bool, b2: bool, b4: bool, b8: bool, b16: bool, j: nat)
    requires j < 8
    ensures At(Folded(b1, b2, b4, b8, b16), j) ==
            Picked(b1, b2, b4, b8, b16, At(0x98f2bc8e61, j), At(0x79b76d99e2, j), At(0xf33e5fb3c4, j), At(0xae2eabe2a8, j), At(0x1e4f43e470, j))
  {
    hide At, Xor, Pick;
    var (p1, p2, p4, p8, p16) := (Pick(b1, 0x98f2bc8e61), Pick(b2, 0x79b76d99e2), Pick(b4, 0xf33e5fb3c4),
                                  Pick(b8, 0xae2eabe2a8), Pick(b16, 0x1e4f43e470));
    AtPick(b1, 0x98f2bc8e61, j);
    AtPick(b2, 0x79b76d99e2, j);
    AtPick(b4, 0xf33e5fb3c4, j);
    AtPick(b8, 0xae2eabe2a8, j);
    AtPick(b16, 0x1e4f43e470, j);
    AtXor(p1, p2, j);
    AtXor(p4, p8, j);
    AtXor(Xor(p1, p2), Xor(p4, p8), j);
    AtXor(Xor(Xor(p1, p2), Xor(p4, p8)), p16, j);
  }

  /** One step multiplies by x, adds a symbol, and takes off a multiple of the generator. */
  lemma StepSymbols(r: Word, d: Word, j: nat)
    requires j < 8 && Fits(r) && FitsFive(d)
    ensures At(Step(r, d), j) == Xor(if j < 7 then At(r, j + 1) else d, Mul(r >> 35, K(j)))
  {
    ShiftSymbols(r, d, j);
    FoldSymbols(r >> 35, j);
    hide At, Xor, Fold, Shift, Mul, K;
    AtXor(Xor(Shift(r), d), Fold(r >> 35), j);
  }

  lemma ShiftSymbols(r: Word, d: Word, j: nat)
    requires j < 8 && Fits(r) && FitsFive(d)
    ensures At(Xor(Shift(r), d), j) == if j < 7 then At(r, j + 1) else d
  {
  }

  // ---- Polynomials ----

  function ScaleAll(a: Word, s: seq<Word>): seq<Word> { seq(|s|, (i: nat) requires i < |s| => Mul(a, s[i])) }

  /** The product of polynomials, one coefficient of the first after the other. */
  ghost function Product(q: seq<Word>, g: seq<Word>): (r: seq<Word>)
    requires |g| > 0
    ensures |r| == |q| + |g| - 1
  {
    if q == [] then Zeros(|g| - 1)
    else XorAll(Product(q[..|q| - 1], g) + [0], Zeros(|q| - 1) + ScaleAll(q[|q| - 1], g))
  }

  /** A string is a multiple of the generator plus eight symbols. */
  ghost predicate Remainder(v: seq<Word>, q: seq<Word>, w: Word) {
    |q| == |v| && AllFit(q) && Zeros(8) + v == XorAll(Product(q, Generator()), Zeros(|v|) + Symbols(w))
  }

  /** The symbols shifted out on the way. */
  function Quotient(v: seq<Word>): seq<Word> {
    if v == [] then [] else Quotient(v[..|v| - 1]) + [Poly(0, v[..|v| - 1]) >> 35]
  }

  /** The checksum of a string is its remainder by the generator, and nothing else is. */
  lemma RemainderIff(v: seq<Word>, w: Word)
    requires AllFit(v) && Fits(w)
    ensures Poly(0, v) == w <==> exists q :: Remainder(v, q, w)
  {
    hide Fits, FitsFive, Remainder, Poly;
    if Poly(0, v) == w {
      Division(v);
    }
    if q :| Remainder(v, q, w) {
      RemainderOnce(v, q, w);
    }
  }

  /** A payload verifies exactly if x^n plus prefix and payload leaves the remainder 1. */
  lemma VerifiesIff(prefix: string, payload: seq<Symbol>)
    ensures Verifies(prefix, payload) <==> exists q :: Remainder([1] + Words(Expand(prefix) + payload), q, 1)
  {
    var v := Words(Expand(prefix) + payload);
    hide Words, Expand, Remainder, Fits, FitsFive, Poly;
    WordsFit(Expand(prefix) + payload);
    OneFits();
    PolyFromOne(v);
    RemainderIff([1] + v, 1);
  }

  /** The same for the symbols spelt out: the low five bits of the prefix in order, a zero, the payload. */
  lemma VerifiesMeans(prefix: string, payload: seq<Symbol>, v: seq<Symbol>)
    requires |v| == |prefix| + 1 + |payload|
    requires forall i :: 0 <= i < |prefix| ==> v[i] == prefix[i] as int % 32
    requires v[|prefix|] == 0 && forall i :: 0 <= i < |payload| ==> v[|prefix| + 1 + i] == payload[i]
    ensures Verifies(prefix, payload) <==> exists q :: Remainder([1] + Words(v), q, 1)
  {
    hide Words, Verifies, Remainder;
    assert Expand(prefix) + payload == v;
    VerifiesIff(prefix, payload);
  }

  lemma OneFits()
    ensures FitsFive(1)
  {
  }

  lemma PolyFromOne(v: seq<Word>)
    ensures Poly(0, [1] + v) == Poly(1, v)
  {
    assert Step(0, 1) == 1;
    hide Step;
    assert [1][..0] == [];
    assert Poly(0, [1]) == 1;
    PolySplit(0, [1], v);
  }

  lemma {:induction false} Division(v: seq<Word>)
    requires AllFit(v)
    ensures Remainder(v, Quotient(v), Poly(0, v))
  {
    hide Step, Fits, FitsFive, Remainder, Quotient, Poly;
    if v == [] {
      NothingDivided();
    } else {
      var (u, d) := (v[..|v| - 1], v[|v| - 1]);
      Division(u);
      FitsZero();
      PolyFits(0, u);
      DivisionMore(u, d, Quotient(u), Poly(0, u));
      DivisionNext(v);
      assert u + [d] == v;
    }
  }

  lemma NothingDivided()
    ensures Remainder([], Quotient([]), Poly(0, []))
  {
    SymbolsOfZero();
    hide Symbols;
    XorZeros(Zeros(8));
    assert Zeros(8) + [] == Zeros(8) && Zeros(0) + Zeros(8) == Zeros(8);
  }

  lemma DivisionNext(v: seq<Word>)
    requires v != []
    ensures var u := v[..|v| - 1];
            Quotient(v) == Quotient(u) + [Poly(0, u) >> 35] && Poly(0, v) == Step(Poly(0, u), v[|v| - 1])
  {
    hide Step;
  }

  lemma DivisionMore(u: seq<Word>, d: Word, q: seq<Word>, r: Word)
    requires Remainder(u, q, r) && Fits(r) && FitsFive(d)
    ensures Remainder(u + [d], q + [r >> 35], Step(r, d))
  {
    hide Step, Fits, FitsFive, Symbols, Generator;
    GeneratorSize();
    TopSymbol(r);
    DivisionStep(u, d, Product(q, Generator()), r);
    assert (q + [r >> 35])[..|q|] == q;
    assert Zeros(8) + (u + [d]) == Zeros(8) + u + [d];
  }

  lemma FitsZero()
    ensures Fits(0)
  {
  }

  lemma SymbolsOfZero()
    ensures Symbols(0) == Zeros(8)
  {
  }

  lemma TopSymbol(r: Word)
    requires Fits(r)
    ensures FitsFive(r >> 35) && At(r, 0) == r >> 35
  {
  }

  lemma DivisionStep(u: seq<Word>, d: Word, p: seq<Word>, r: Word)
    requires |p| == |u| + 8 && Zeros(8) + u == XorAll(p, Zeros(|u|) + Symbols(r)) && Fits(r) && FitsFive(d)
    ensures |Generator()| == 9
    ensures Zeros(8) + u + [d] ==
            XorAll(XorAll(p + [0], Zeros(|u|) + ScaleAll(r >> 35, Generator())), Zeros(|u| + 1) + Symbols(Step(r, d)))
  {
    hide Fits, FitsFive, Step, Mul, At, K, Xor;
    var (s, g) := (Symbols(Step(r, d)), ScaleAll(r >> 35, Generator()));
    var (a, b) := (XorAll(p + [0], Zeros(|u|) + g), Zeros(|u| + 1) + s);
    forall i | 0 <= i < |u| + 9
      ensures (Zeros(8) + u + [d])[i] == XorAll(a, b)[i]
    {
      var j := i - |u|;
      if j < 8 {
        assert (Zeros(8) + u)[i] == Xor(p[i], (Zeros(|u|) + Symbols(r))[i]);
      }
      if j < 0 {
        XorSelf(p[i]);
      } else {
        DivisionAt(if j < 8 then p[i] else 0, r, d, j);
      }
    }
  }

  lemma DivisionAt(p: Word, r: Word, d: Word, j: nat)
    requires j <= 8 && Fits(r) && FitsFive(d) && (j == 8 ==> p == 0)
    ensures (if j < 8 then Xor(p, At(r, j)) else d) ==
            Xor(Xor(p, Mul(r >> 35, Generator()[j])), if j == 0 then 0 else At(Step(r, d), j - 1))
  {
    hide Fits, FitsFive, Step, Mul, At, K, Xor;
    var top := r >> 35;
    if j == 0 {
      TopSymbol(r);
      MulOne(top);
      XorSelf(Xor(p, top));
    } else {
      StepSymbols(r, d, j - 1);
      XorTwice(p, Mul(top, K(j - 1)), if j < 8 then At(r, j) else d);
      XorSelf(d);
    }
  }

  lemma MulOne(a: Word)
    requires FitsFive(a)
    ensures Mul(a, 1) == a
  {
  }

  lemma XorTwice(p: Word, m: Word, a: Word)
    ensures Xor(Xor(p, m), Xor(a, m)) == Xor(p, a)
  {
    hide Xor;
    XorSwap(p, m, a, m);
    XorSelf(m);
    XorSelf(Xor(p, a));
  }

  // ---- No other remainder ----

  lemma RemainderOnce(v: seq<Word>, q: seq<Word>, w: Word)
    requires AllFit(v) && Fits(w) && Remainder(v, q, w)
    ensures Poly(0, v) == w
  {
    hide Fits, FitsFive, Step, Poly, At, Xor, Generator;
    GeneratorSize();
    var m := Product(q, Generator());
    Multiples(q);
    PolyLinear(0, 0, m, Zeros(|v|) + Symbols(w));
    XorSelf(0);
    XorSelf(w);
    LeadingZeros(8, v);
    LeadingZeros(|v|, Symbols(w));
    PolySymbols(w);
  }

  lemma LeadingZeros(n: nat, v: seq<Word>)
    ensures Poly(0, Zeros(n) + v) == Poly(0, v)
  {
    hide Step;
    PolyZeros(n);
    PolySplit(0, Zeros(n), v);
  }

  lemma {:induction false} PolyZeros(n: nat)
    ensures Poly(0, Zeros(n)) == 0
  {
    if n > 0 {
      PolyZeros(n - 1);
      assert Zeros(n)[..n - 1] == Zeros(n - 1);
      StepZero();
    }
  }

  lemma StepZero()
    ensures Step(0, 0) == 0
  {
  }

  /** Multiples of the generator leave nothing. */
  lemma {:induction false} Multiples(q: seq<Word>)
    requires AllFit(q)
    ensures Poly(0, Product(q, Generator())) == 0
  {
    hide Step, Xor, Mul, FitsFive, Generator;
    if q == [] {
      GeneratorSize();
      PolyZeros(8);
    } else {
      var (u, d) := (q[..|q| - 1], q[|q| - 1]);
      var (m, s) := (Product(u, Generator()), ScaleAll(d, Generator()));
      Multiples(u);
      PolyLinear(0, 0, m + [0], Zeros(|u|) + s);
      XorSelf(0);
      StepZero();
      assert (m + [0])[..|m|] == m;
      LeadingZeros(|u|, s);
      ScaledGenerator(d);
    }
  }

  lemma GeneratorSize()
    ensures |Generator()| == 9
  {
  }

  lemma ScaledGenerator(d: Word)
    requires FitsFive(d)
    ensures Poly(0, ScaleAll(d, Generator())) == 0
  {
    hide Step, Xor, Mul, K, Poly, Fold, At;
    var t := Symbols(Fold(d));
    assert ScaleAll(d, Generator()) == [d] + t by {
      MulOne(d);
      forall j | 0 <= j < 8
        ensures ScaleAll(d, Generator())[j + 1] == t[j]
      {
        FoldSymbols(d, j);
      }
    }
    FoldFits(d);
    PolySymbols(Fold(d));
    ShiftedOut(d);
    assert [d] + t == XorAll([d] + Zeros(8), [0] + t) by {
      XorSelf(d);
      XorZeros(t);
      assert XorAll([d] + Zeros(8), [0] + t) == [Xor(d, 0)] + XorAll(Zeros(8), t);
    }
    PolyLinear(0, 0, [d] + Zeros(8), [0] + t);
    XorSelf(0);
    assert [0] == Zeros(1);
    LeadingZeros(1, t);
    XorSelf(Fold(d));
  }

  /** A symbol that is shifted out is folded in. */
  lemma ShiftedOut(d: Word)
    requires FitsFive(d)
    ensures Poly(0, [d] + Zeros(8)) == Fold(d)
  {
    hide Step, Symbols, Fold, Fits, FitsFive, Poly;
    HighSymbol(d);
    HighStep(d);
    PolySymbols(d << 35);
    OneMore([d] + Zeros(7), 0);
    assert [d] + Zeros(8) == [d] + Zeros(7) + [0];
  }

  lemma OneMore(v: seq<Word>, d: Word)
    ensures Poly(0, v + [d]) == Step(Poly(0, v), d)
  {
    hide Step;
    assert (v + [d])[..|v|] == v;
  }

  lemma HighSymbol(d: Word)
    requires FitsFive(d)
    ensures Symbols(d << 35) == [d] + Zeros(7) && Fits(d << 35)
  {
  }

  lemma HighStep(d: Word)
    requires FitsFive(d)
    ensures Step(d << 35, 0) == Fold(d)
  {
    HighShift(d);
    hide Shift, Fold, Xor;
    XorSelf(0);
    XorSelf(Fold(d));
  }

  lemma HighShift(d: Word)
    requires FitsFive(d)
    ensures Shift(d << 35) == 0 && (d << 35) >> 35 == d
  {
  }

  /** The symbols of a word have it as their remainder. */
  lemma PolySymbols(w: Word)
    requires Fits(w)
    ensures Poly(0, Symbols(w)) == w
  {
    hide Poly, Fits;
    PolyUnpacked(w, 8);
    TopAll(w);
    UnpackedSymbols(w);
  }

  lemma UnpackedSymbols(w: Word)
    ensures Unpacked(w, 8) == Symbols(w)
  {
    hide Last, Down, Top;
    UnpackedLast(w, 8);
    forall j | 0 <= j < 8
      ensures Last(Top(w, j + 1)) == At(w, j)
    {
      TopDown(w, j);
    }
  }

  lemma {:induction false} UnpackedLast(w: Word, k: nat)
    requires k <= 8
    ensures |Unpacked(w, k)| == k && forall j :: 0 <= j < k ==> Unpacked(w, k)[j] == Last(Top(w, j + 1))
  {
    hide Last, Top;
    if k > 0 {
      UnpackedLast(w, k - 1);
    }
  }

  lemma {:induction false} TopDown(w: Word, j: nat)
    requires j < 8
    ensures Top(w, j + 1) == Down(w, j)
    decreases 8 - j
  {
    if j < 7 {
      TopDown(w, j + 1);
      RestDown(w, j);
      hide Rest, Down;
    }
  }

  lemma RestDown(w: Word, j: nat)
    requires j < 7
    ensures Rest(Down(w, j + 1)) == Down(w, j)
  {
    hide Rest;
    Rests(w);
  }

  lemma Rests(w: Word)
    ensures Rest(w) == w >> 5
    ensures Rest(w >> 5) == w >> 10
    ensures Rest(w >> 10) == w >> 15
    ensures Rest(w >> 15) == w >> 20
    ensures Rest(w >> 20) == w >> 25
    ensures Rest(w >> 25) == w >> 30
    ensures Rest(w >> 30) == w >> 35
  {
  }
}
