/** The cashaddr checksum: eight symbols of five bits packed into 40 bits, and a step that is linear and
    one to one. That it computes a remainder of polynomials is shown in `CashAddrField`. */
module CashAddrPoly {

  type Word = bv64

  /** The values of one symbol. */
  type Symbol = x: int | 0 <= x < 32

  // ---- Symbols as bits ----

  /** The five bits of a symbol. */
  function Sym(n: Symbol): Word {
    (if n % 2 == 1 then 1 else 0) | (if n / 2 % 2 == 1 then 2 else 0) | (if n / 4 % 2 == 1 then 4 else 0)
    | (if n / 8 % 2 == 1 then 8 else 0) | (if n / 16 % 2 == 1 then 16 else 0)
  }

  /** The symbol in the last five bits. */
  function Num(w: Word): Symbol {
    (if w & 1 != 0 then 1 else 0) + (if w & 2 != 0 then 2 else 0) + (if w & 4 != 0 then 4 else 0)
    + (if w & 8 != 0 then 8 else 0) + (if w & 16 != 0 then 16 else 0)
  }

  /** The bits of the word are those of the number, the lowest one first. */
  lemma SymBits(n: Symbol)
    ensures (Sym(n) & 1 != 0 <==> n % 2 == 1) && (Sym(n) & 2 != 0 <==> n / 2 % 2 == 1) && (Sym(n) & 4 != 0 <==> n / 4 % 2 == 1)
    ensures (Sym(n) & 8 != 0 <==> n / 8 % 2 == 1) && (Sym(n) & 16 != 0 <==> n / 16 == 1) && Sym(n) & 31 == Sym(n)
  {
  }

  lemma SymFits(n: Symbol)
    ensures Sym(n) & 31 == Sym(n)
  {
  }

  lemma NumSym(n: Symbol)
    ensures Num(Sym(n)) == n
  {
  }

  lemma SymNum(w: Word)
    ensures Sym(Num(w)) == w & 31
  {
  }

  // ---- Exclusive or ----

  function Xor(a: Word, b: Word): Word { a ^ b }

  lemma XorSwap(a: Word, b: Word, c: Word, d: Word)
    ensures Xor(Xor(a, b), Xor(c, d)) == Xor(Xor(a, c), Xor(b, d))
  {
    hide Xor;
    XorIs(a, b);
    XorIs(c, d);
    XorIs(a, c);
    XorIs(b, d);
    XorOf(a, b, c, d);
    XorOf(a, c, b, d);
    Regroup(a, b, c, d);
  }

  lemma XorIs(a: Word, b: Word)
    ensures Xor(a, b) == a ^ b
  {
  }

  lemma XorOf(a: Word, b: Word, c: Word, d: Word)
    ensures Xor(Xor(a, b), Xor(c, d)) == (a ^ b) ^ (c ^ d)
  {
  }

  lemma Regroup(a: Word, b: Word, c: Word, d: Word)
    ensures (a ^ b) ^ (c ^ d) == (a ^ c) ^ (b ^ d)
  {
  }

  lemma XorSelf(a: Word)
    ensures Xor(a, a) == 0 && Xor(a, 0) == a && Xor(0, a) == a
  {
  }

  lemma XorZero(a: Word, b: Word)
    requires Xor(a, b) == 0
    ensures a == b
  {
  }

  predicate Fits(c: Word) { c & 0xff_ffff_ffff == c }

  predicate FitsFive(d: Word) { d & 31 == d }

  lemma XorFits(a: Word, b: Word)
    ensures Fits(a) && Fits(b) ==> Fits(Xor(a, b))
    ensures FitsFive(a) && FitsFive(b) ==> FitsFive(Xor(a, b))
  {
  }

  // ---- One step ----

  /** A multiple of the generator, if a bit is set. */
  function Pick(chosen: bool, k: Word): Word { if chosen then k else 0 }

  /** What the top symbol turns into when it is shifted out: the matching multiple of the generator. */
  function Fold(c0: Word): Word { Folded(c0 & 1 != 0, c0 & 2 != 0, c0 & 4 != 0, c0 & 8 != 0, c0 & 16 != 0) }

  function Folded(b1: bool, b2: bool, b4: bool, b8: bool, b16: bool): Word {
    Xor(Xor(Xor(Pick(b1, 0x98f2bc8e61), Pick(b2, 0x79b76d99e2)), Xor(Pick(b4, 0xf33e5fb3c4), Pick(b8, 0xae2eabe2a8))),
        Pick(b16, 0x1e4f43e470))
  }

  function Shift(c: Word): Word { (c & 0x07ffffffff) << 5 }

  function Step(c: Word, d: Word): Word { Xor(Xor(Shift(c), d), Fold(c >> 35)) }

  lemma FoldFits(c0: Word)
    ensures Fits(Fold(c0))
  {
    var (p1, p2, p4, p8, p16) := (Pick(c0 & 1 != 0, 0x98f2bc8e61), Pick(c0 & 2 != 0, 0x79b76d99e2), Pick(c0 & 4 != 0, 0xf33e5fb3c4),
                                  Pick(c0 & 8 != 0, 0xae2eabe2a8), Pick(c0 & 16 != 0, 0x1e4f43e470));
    assert Fits(p1) && Fits(p2) && Fits(p4) && Fits(p8) && Fits(p16);
    hide Pick, Fits, Xor;
    XorFits(p1, p2);
    XorFits(p4, p8);
    XorFits(Xor(p1, p2), Xor(p4, p8));
    XorFits(Xor(Xor(p1, p2), Xor(p4, p8)), p16);
  }

  lemma StepFits(c: Word, d: Word)
    requires FitsFive(d)
    ensures Fits(Step(c, d))
  {
    assert Fits(Shift(c)) && Fits(d);
    hide Shift, Fits, Fold, Xor;
    FoldFits(c >> 35);
    XorFits(Shift(c), d);
    XorFits(Xor(Shift(c), d), Fold(c >> 35));
  }

  lemma PickLinear(p: bool, q: bool, k: Word)
    ensures Pick(p != q, k) == Xor(Pick(p, k), Pick(q, k))
  {
    XorSelf(k);
    XorSelf(0);
    hide Xor;
  }

  lemma BitsOfXor(a: Word, b: Word)
    ensures (Xor(a, b) & 1 != 0) == ((a & 1 != 0) != (b & 1 != 0))
    ensures (Xor(a, b) & 2 != 0) == ((a & 2 != 0) != (b & 2 != 0))
    ensures (Xor(a, b) & 4 != 0) == ((a & 4 != 0) != (b & 4 != 0))
    ensures (Xor(a, b) & 8 != 0) == ((a & 8 != 0) != (b & 8 != 0))
    ensures (Xor(a, b) & 16 != 0) == ((a & 16 != 0) != (b & 16 != 0))
  {
  }

  lemma FoldLinear(a: Word, b: Word)
    ensures Fold(Xor(a, b)) == Xor(Fold(a), Fold(b))
  {
    BitsOfXor(a, b);
    hide Xor, Pick, Folded;
    FoldPicks(a & 1 != 0, b & 1 != 0, a & 2 != 0, b & 2 != 0, a & 4 != 0, b & 4 != 0, a & 8 != 0, b & 8 != 0, a & 16 != 0, b & 16 != 0);
  }

  lemma FoldPicks(p1: bool, q1: bool, p2: bool, q2: bool, p4: bool, q4: bool, p8: bool, q8: bool, p16: bool, q16: bool)
    ensures Folded(p1 != q1, p2 != q2, p4 != q4, p8 != q8, p16 != q16) == Xor(Folded(p1, p2, p4, p8, p16), Folded(q1, q2, q4, q8, q16))
  {
    PickLinear(p1, q1, 0x98f2bc8e61);
    PickLinear(p2, q2, 0x79b76d99e2);
    PickLinear(p4, q4, 0xf33e5fb3c4);
    PickLinear(p8, q8, 0xae2eabe2a8);
    PickLinear(p16, q16, 0x1e4f43e470);
    hide Xor, Pick;
    XorSwap(Pick(p1, 0x98f2bc8e61), Pick(q1, 0x98f2bc8e61), Pick(p2, 0x79b76d99e2), Pick(q2, 0x79b76d99e2));
    XorSwap(Pick(p4, 0xf33e5fb3c4), Pick(q4, 0xf33e5fb3c4), Pick(p8, 0xae2eabe2a8), Pick(q8, 0xae2eabe2a8));
    XorSwap(Xor(Pick(p1, 0x98f2bc8e61), Pick(p2, 0x79b76d99e2)), Xor(Pick(q1, 0x98f2bc8e61), Pick(q2, 0x79b76d99e2)),
            Xor(Pick(p4, 0xf33e5fb3c4), Pick(p8, 0xae2eabe2a8)), Xor(Pick(q4, 0xf33e5fb3c4), Pick(q8, 0xae2eabe2a8)));
    XorSwap(Xor(Xor(Pick(p1, 0x98f2bc8e61), Pick(p2, 0x79b76d99e2)), Xor(Pick(p4, 0xf33e5fb3c4), Pick(p8, 0xae2eabe2a8))),
            Xor(Xor(Pick(q1, 0x98f2bc8e61), Pick(q2, 0x79b76d99e2)), Xor(Pick(q4, 0xf33e5fb3c4), Pick(q8, 0xae2eabe2a8))),
            Pick(p16, 0x1e4f43e470), Pick(q16, 0x1e4f43e470));
  }

  lemma ShiftLinear(a: Word, b: Word)
    ensures Shift(Xor(a, b)) == Xor(Shift(a), Shift(b)) && Xor(a, b) >> 35 == Xor(a >> 35, b >> 35)
  {
    hide Shift, Xor;
    ShiftOfXor(a, b);
    XorOfShift(a, b);
    ShiftedXor(a, b);
    XorIs(a, b);
    XorIs(a >> 35, b >> 35);
  }

  lemma ShiftOfXor(a: Word, b: Word)
    ensures Shift(Xor(a, b)) == ((a ^ b) & 0x07ffffffff) << 5
  {
  }

  lemma XorOfShift(a: Word, b: Word)
    ensures Xor(Shift(a), Shift(b)) == ((a & 0x07ffffffff) << 5) ^ ((b & 0x07ffffffff) << 5)
  {
  }

  lemma ShiftedXor(a: Word, b: Word)
    ensures ((a ^ b) & 0x07ffffffff) << 5 == ((a & 0x07ffffffff) << 5) ^ ((b & 0x07ffffffff) << 5)
    ensures (a ^ b) >> 35 == (a >> 35) ^ (b >> 35)
  {
  }

  /** The step is linear. */
  lemma StepLinear(a: Word, b: Word, d: Word, e: Word)
    ensures Step(Xor(a, b), Xor(d, e)) == Xor(Step(a, d), Step(b, e))
  {
    hide Shift, Fold, Xor;
    ShiftLinear(a, b);
    FoldLinear(a >> 35, b >> 35);
    XorSwap(Shift(a), Shift(b), d, e);
    XorSwap(Xor(Shift(a), d), Xor(Shift(b), e), Fold(a >> 35), Fold(b >> 35));
  }

  /** Nothing but zero is shifted to zero: the low bits of the folded symbol are the symbol itself. */
  lemma StepKernel(x: Word)
    requires Fits(x) && Step(x, 0) == 0
    ensures x == 0
  {
  }

  /** So the step is one to one on 40-bit words. */
  lemma StepInjective(a: Word, b: Word, d: Word)
    requires Fits(a) && Fits(b) && Step(a, d) == Step(b, d)
    ensures a == b
  {
    hide Step, Fits, Xor;
    StepLinear(a, b, d, d);
    XorSelf(d);
    XorSelf(Step(a, d));
    XorFits(a, b);
    StepKernel(Xor(a, b));
    XorZero(a, b);
  }

  // ---- Many steps ----

  function Poly(c: Word, v: seq<Word>): Word {
    if v == [] then c else Step(Poly(c, v[..|v| - 1]), v[|v| - 1])
  }

  ghost predicate AllFit(v: seq<Word>) { forall i :: 0 <= i < |v| ==> FitsFive(v[i]) }

  lemma {:induction false} PolyFits(c: Word, v: seq<Word>)
    requires Fits(c) && AllFit(v)
    ensures Fits(Poly(c, v))
  {
    hide Fits, Step, FitsFive;
    if v != [] {
      PolyFits(c, v[..|v| - 1]);
      StepFits(Poly(c, v[..|v| - 1]), v[|v| - 1]);
    }
  }

  lemma {:induction false} PolySplit(c: Word, a: seq<Word>, b: seq<Word>)
    ensures Poly(c, a + b) == Poly(Poly(c, a), b)
  {
    hide Step;
    if b == [] {
      assert a + b == a;
    } else {
      var init := b[..|b| - 1];
      PolySplit(c, a, init);
      assert (a + b)[..|a + b| - 1] == a + init && (a + b)[|a + b| - 1] == b[|b| - 1];
    }
  }

  /** Going on with the same symbols keeps different remainders different. */
  lemma {:induction false} PolyInjective(a: Word, b: Word, v: seq<Word>)
    requires Fits(a) && Fits(b) && AllFit(v) && Poly(a, v) == Poly(b, v)
    ensures a == b
  {
    hide Fits, Step, FitsFive;
    if v != [] {
      var init := v[..|v| - 1];
      PolyFits(a, init);
      PolyFits(b, init);
      StepInjective(Poly(a, init), Poly(b, init), v[|v| - 1]);
      PolyInjective(a, b, init);
    }
  }

  function XorAll(v: seq<Word>, w: seq<Word>): seq<Word>
    requires |v| == |w|
  {
    seq(|v|, (i: nat) requires i < |v| => Xor(v[i], w[i]))
  }

  /** The remainder of a difference is the difference of the remainders. */
  lemma {:induction false} PolyLinear(a: Word, b: Word, v: seq<Word>, w: seq<Word>)
    requires |v| == |w|
    ensures Poly(Xor(a, b), XorAll(v, w)) == Xor(Poly(a, v), Poly(b, w))
  {
    hide Step, Xor;
    if v != [] {
      var (v', w') := (v[..|v| - 1], w[..|w| - 1]);
      PolyLinear(a, b, v', w');
      assert XorAll(v, w)[..|v| - 1] == XorAll(v', w');
      StepLinear(Poly(a, v'), Poly(b, w'), v[|v| - 1], w[|w| - 1]);
    }
  }

  // ---- Up to eight symbols fit without reduction ----

  predicate Within(c: Word, m: Word) { c & m == c }

  function Wider(m: Word): Word { (m << 5) | 31 }

  function Mask(n: nat): Word { if n == 0 then 0 else Wider(Mask(n - 1)) }

  lemma MaskShort(n: nat)
    requires n <= 7
    ensures Within(Mask(n), 0x7_ffff_ffff)
  {
    assert Mask(0) == 0;
    assert Mask(1) == 0x1f;
    assert Mask(2) == 0x3ff;
    assert Mask(3) == 0x7fff;
    assert Mask(4) == 0xf_ffff;
    assert Mask(5) == 0x1ff_ffff;
    assert Mask(6) == 0x3fff_ffff;
    assert Mask(7) == 0x7_ffff_ffff;
  }

  lemma ShortStep(c: Word, d: Word, m: Word)
    requires Within(c, m) && Within(m, 0x7_ffff_ffff) && FitsFive(d)
    ensures Within(Step(c, d), Wider(m)) && (Step(c, d) == 0 ==> c == 0 && d == 0)
  {
    ShortBits(c, d, m);
    ShortTop(c, m);
    hide Shift, Fold, Xor, Within, Wider, FitsFive;
    XorSelf(Xor(Shift(c), d));
    XorIs(Shift(c), d);
  }

  lemma ShortTop(c: Word, m: Word)
    requires Within(c, m) && Within(m, 0x7_ffff_ffff)
    ensures Shift(c) == c << 5 && Fold(c >> 35) == 0
  {
    TopOfShort(c, m);
    hide Fold, Shift, Within;
    ShiftOfShort(c);
    FoldOfZero();
  }

  lemma TopOfShort(c: Word, m: Word)
    requires Within(c, m) && Within(m, 0x7_ffff_ffff)
    ensures c >> 35 == 0 && Within(c, 0x7_ffff_ffff)
  {
  }

  lemma ShiftOfShort(c: Word)
    requires Within(c, 0x7_ffff_ffff)
    ensures Shift(c) == c << 5
  {
  }

  lemma FoldOfZero()
    ensures Fold(0) == 0
  {
  }

  lemma ShortBits(c: Word, d: Word, m: Word)
    requires Within(c, m) && Within(m, 0x7_ffff_ffff) && FitsFive(d)
    ensures Within((c << 5) ^ d, Wider(m)) && ((c << 5) ^ d == 0 ==> c == 0 && d == 0)
  {
  }

  /** Up to eight symbols are packed without loss: only zeroes give zero. */
  lemma {:induction false} ShortPoly(v: seq<Word>)
    requires |v| <= 8 && AllFit(v)
    ensures Within(Poly(0, v), Mask(|v|))
    ensures Poly(0, v) == 0 ==> forall i :: 0 <= i < |v| ==> v[i] == 0
  {
    hide Step, FitsFive, Within, Wider;
    if v == [] {
      NoneWithin();
    } else {
      var (init, d) := (v[..|v| - 1], v[|v| - 1]);
      ShortPoly(init);
      MaskShort(|v| - 1);
      ShortStep(Poly(0, init), d, Mask(|v| - 1));
      assert forall i :: 0 <= i < |init| ==> init[i] == v[i];
    }
  }

  lemma NoneWithin()
    ensures Within(0, 0)
  {
  }

  /** Two strings that differ within eight symbols have different remainders, however long they are. */
  lemma BurstDetected(c: Word, a: seq<Word>, x: seq<Word>, y: seq<Word>, b: seq<Word>)
    requires Fits(c) && AllFit(a) && AllFit(x) && AllFit(y) && AllFit(b) && |x| == |y| <= 8
    requires Poly(c, a + x + b) == Poly(c, a + y + b)
    ensures x == y
  {
    hide Fits, FitsFive, Step;
    var s := Poly(c, a);
    PolyFits(c, a);
    PolyFits(s, x);
    PolyFits(s, y);
    PolySplit(c, a + x, b);
    PolySplit(c, a, x);
    PolySplit(c, a + y, b);
    PolySplit(c, a, y);
    PolyInjective(Poly(s, x), Poly(s, y), b);
    PolyLinear(s, s, x, y);
    XorSelf(s);
    XorSelf(Poly(s, x));
    XorAllFit(x, y);
    ShortPoly(XorAll(x, y));
    forall i | 0 <= i < |x|
      ensures x[i] == y[i]
    {
      assert XorAll(x, y)[i] == Xor(x[i], y[i]);
      XorZero(x[i], y[i]);
    }
  }

  lemma XorAllFit(v: seq<Word>, w: seq<Word>)
    requires |v| == |w| && AllFit(v) && AllFit(w)
    ensures AllFit(XorAll(v, w))
  {
    forall i | 0 <= i < |v|
      ensures FitsFive(XorAll(v, w)[i])
    {
      XorFits(v[i], w[i]);
    }
  }

  // ---- Packing and unpacking ----

  function Rest(x: Word): Word { x >> 5 }

  function Last(x: Word): Word { x & 31 }

  /** The first `k` of the eight symbols in a 40-bit word. */
  function Top(w: Word, k: nat): Word
    requires k <= 8
    decreases 8 - k
  {
    if k == 8 then w else Rest(Top(w, k + 1))
  }

  lemma {:induction false} TopFits(w: Word, k: nat)
    requires Fits(w) && k <= 8
    ensures Fits(Top(w, k))
    decreases 8 - k
  {
    if k < 8 {
      TopFits(w, k + 1);
      ShiftFits(Top(w, k + 1));
    }
  }

  lemma ShiftFits(x: Word)
    requires Fits(x)
    ensures Fits(Rest(x))
  {
  }

  lemma {:induction false} TopWithin(w: Word, k: nat)
    requires Fits(w) && k <= 8
    ensures Within(Top(w, k), Mask(k))
    decreases 8 - k
  {
    if k == 8 {
      FullMask(w);
    } else {
      hide Within, Wider, Fits, Rest;
      TopWithin(w, k + 1);
      MaskShort(k);
      Down(Top(w, k + 1), Mask(k));
    }
  }

  lemma FullMask(w: Word)
    requires Fits(w)
    ensures Within(w, Mask(8))
  {
    assert Mask(8) == 0xff_ffff_ffff;
  }

  lemma Down(x: Word, m: Word)
    requires Within(x, Wider(m)) && Within(m, 0x7_ffff_ffff)
    ensures Within(Rest(x), m)
  {
  }

  lemma TopNone(w: Word)
    requires Fits(w)
    ensures Top(w, 0) == 0
  {
    hide Top, Fits;
    TopWithin(w, 0);
  }

  lemma UnpackStep(x: Word)
    requires Fits(x)
    ensures Step(Rest(x), Last(x)) == x
  {
    UnpackBits(x);
    hide Shift, Fold, Xor, Within, Fits, Rest, Last;
    ShortTop(Rest(x), 0x7_ffff_ffff);
    XorSelf(Xor(Shift(Rest(x)), Last(x)));
    XorIs(Shift(Rest(x)), Last(x));
  }

  lemma UnpackBits(x: Word)
    requires Fits(x)
    ensures Within(Rest(x), 0x7_ffff_ffff) && Within(0x7_ffff_ffff, 0x7_ffff_ffff) && (Rest(x) << 5) ^ Last(x) == x
  {
  }

  function Unpacked(w: Word, k: nat): seq<Word>
    requires k <= 8
  {
    if k == 0 then [] else Unpacked(w, k - 1) + [Last(Top(w, k))]
  }

  /** Unpacking a remainder gives symbols that have it as their remainder. */
  lemma {:induction false} PolyUnpacked(w: Word, k: nat)
    requires Fits(w) && k <= 8
    ensures |Unpacked(w, k)| == k && Poly(0, Unpacked(w, k)) == Top(w, k)
  {
    hide Step, Fits, Rest, Last;
    if k == 0 {
      TopNone(w);
    } else {
      PolyUnpacked(w, k - 1);
      TopFits(w, k);
      UnpackStep(Top(w, k));
      assert Unpacked(w, k)[..k - 1] == Unpacked(w, k - 1);
    }
  }

  ghost function Zeros(n: nat): seq<Word> { seq(n, (_: nat) => 0) }

  /** Putting the remainder of a string with eight zeroes in their place makes the remainder 1. */
  lemma ChecksumWorks(c: Word, v: seq<Word>)
    requires Fits(c) && AllFit(v)
    ensures Poly(c, v + Unpacked(Xor(Poly(c, v + Zeros(8)), 1), 8)) == 1
  {
    hide Fits, Step, Xor, FitsFive, Top, Unpacked;
    var s := Poly(c, v);
    var w := Xor(Poly(c, v + Zeros(8)), 1);
    var r := Unpacked(w, 8);
    ZerosFit(8);
    PolyFits(c, v + Zeros(8));
    XorFits(Poly(c, v + Zeros(8)), 1);
    PolyUnpacked(w, 8);
    TopAll(w);
    PolySplit(c, v, Zeros(8));
    PolySplit(c, v, r);
    XorSelf(s);
    PolyLinear(s, 0, Zeros(8), r);
    XorZeros(r);
    XorCancel(Poly(s, Zeros(8)), 1);
  }

  lemma ZerosFit(n: nat)
    ensures AllFit(Zeros(n)) && Fits(1)
  {
  }

  lemma TopAll(w: Word)
    ensures Top(w, 8) == w
  {
  }

  lemma XorZeros(r: seq<Word>)
    ensures XorAll(Zeros(|r|), r) == r
  {
    forall i | 0 <= i < |r|
      ensures XorAll(Zeros(|r|), r)[i] == r[i]
    {
      XorSelf(r[i]);
    }
  }

  lemma XorCancel(a: Word, b: Word)
    ensures Xor(a, Xor(a, b)) == b
  {
  }
}
