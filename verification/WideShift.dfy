/** Shifts in place of numbers of 32-bit limbs. */
module WideShift {
  import opened Bits
  import opened Limbs
  import opened WideArith

  // ---- The two parts of a shifted limb ----

  /** A limb shifted left. */
  function Low(x: nat, s: nat): nat { x * Pow2(s) % BASE }

  /** A limb shifted right, and the bits that fall out. */
  function Shr(x: nat, s: nat): nat {
    DivNonNegative(x, Pow2(s));
    x / Pow2(s)
  }

  lemma DivNonNegative(x: nat, d: nat)
    requires d > 0
    ensures x / d >= 0
  {
  }

  function Bottom(x: nat, s: nat): nat { x % Pow2(s) }

  function High(x: nat, s: nat): nat { x * Pow2(s) / BASE }

  lemma SplitBase(s: nat)
    requires s <= 32
    ensures Pow2(s) * Pow2(32 - s) == BASE && Pow2(32 - s) * Pow2(s) == BASE
  {
    Pow2Sum(s, 32 - s);
    assert s + (32 - s) == 32;
    Pow2Of32();
    assert Pow2(s) * Pow2(32 - s) == Pow2(32 - s) * Pow2(s);
  }

  /** The part shifted out of a limb, and the part left in it, which is a multiple of the power. */
  lemma ShiftedLimb(x: nat, s: nat)
    requires x < BASE && s <= 32
    ensures High(x, s) == Shr(x, 32 - s) < Pow2(s)
    ensures Low(x, s) == Bottom(x, 32 - s) * Pow2(s)
    ensures Low(x, s) + High(x, s) * BASE == x * Pow2(s)
  {
    SplitBase(s);
    Halves(x, 32 - s);
    DivBelow(x, Pow2(32 - s), Pow2(s));
    assert Shr(x, 32 - s) < Pow2(s);
    hide *;
    LimbAlgebra(x, Pow2(s), Pow2(32 - s), Shr(x, 32 - s), Bottom(x, 32 - s));
    HighLow(x, s, Shr(x, 32 - s), Bottom(x, 32 - s));
  }

  lemma HighLow(x: nat, s: nat, h: nat, l: nat)
    requires x * Pow2(s) == BASE * h + l * Pow2(s) && l * Pow2(s) < BASE
    ensures High(x, s) == h && Low(x, s) == l * Pow2(s)
  {
    DivUnique(x * Pow2(s), BASE, h, l * Pow2(s));
  }

  lemma LimbAlgebra(x: nat, p: nat, r: nat, h: nat, l: nat)
    requires p * r == BASE && x == r * h + l && l < r && p > 0
    ensures x * p == BASE * h + l * p && l * p < BASE
  {
    Distribute2(r * h, l, p);
    Rearrange(r, h, p);
    MulBound(p, l, r - 1);
    Distribute(p, r, -1);
  }

  lemma DivBelow(x: nat, r: nat, p: nat)
    requires r > 0 && x < r * p
    ensures x / r < p
  {
    assert r * (x / r) <= x;
    if x / r >= p {
      MulBound(r, p, x / r);
      assert false;
    }
  }

  // ---- Left ----

  /** A limb of the result: the part left of one limb, and the part shifted out of the one below. */
  function LeftLimb(a: seq<u32>, k: nat, s: nat, j: nat): nat
    requires j < |a|
  {
    (if j < k then 0 else Low(a[j - k], s)) + LeftIn(a, k, s, j)
  }

  function LeftIn(a: seq<u32>, k: nat, s: nat, j: nat): nat
    requires j <= |a|
  {
    if j <= k then 0 else High(a[j - k - 1], s)
  }

  lemma {:induction false} LeftVal(a: seq<u32>, r: seq<u32>, k: nat, s: nat, j: nat)
    requires k <= j <= |a| == |r| && s < 32 && forall i :: 0 <= i < j ==> r[i] as int == LeftLimb(a, k, s, i)
    ensures Val(r, j) + LeftIn(a, k, s, j) * Weight(j) == Times(Val(a, j - k), Pow2(s) * Weight(k))
  {
    if j == k {
      ValZero(r, k);
      assert Times(0, Pow2(s) * Weight(k)) == 0;
    } else {
      LeftVal(a, r, k, s, j - 1);
      var x := a[j - 1 - k];
      assert r[j - 1] as int == Low(x, s) + LeftIn(a, k, s, j - 1) && LeftIn(a, k, s, j) == High(x, s);
      ShiftedLimb(x, s);
      NextLimb(r, j - 1);
      NextLimb(a, j - 1 - k);
      WeightSum(j - 1 - k, k);
      assert j - 1 - k + k == j - 1;
      hide *;
      LeftStep(Val(r, j - 1), Val(r, j), Val(a, j - 1 - k), Val(a, j - k), r[j - 1], x, Low(x, s), High(x, s),
               LeftIn(a, k, s, j - 1), Weight(j - 1), Weight(j), Weight(j - 1 - k), Pow2(s), Weight(k));
    }
  }

  lemma LeftStep(vr: nat, vr': nat, va: nat, va': nat, r: nat, x: nat, low: nat, high: nat, into: nat,
                 w: nat, w': nat, v: nat, p: nat, wk: nat)
    requires vr' == vr + r * w && va' == va + x * v && vr + into * w == Times(va, p * wk)
    requires w' == w * BASE && low + high * BASE == x * p && w == v * wk && r == low + into
    ensures vr' + high * w' == Times(va', p * wk)
  {
    LeftAlgebra(w, w', r, low, high, into, x, p, v, wk);
    TimesLess(va, x * v, p * wk, va');
    hide *;
  }

  lemma LeftAlgebra(w: nat, w': nat, r: nat, low: nat, high: nat, into: nat, x: nat, p: nat, v: nat, wk: nat)
    requires w' == w * BASE && low + high * BASE == x * p && w == v * wk && r == low + into
    ensures r * w + high * w' == into * w + (x * v) * (p * wk)
  {
    Distribute2(low, into, w);
    Associate(high, w, BASE);
    Rearrange(high, w, BASE);
    Distribute2(low, high * BASE, w);
    Rearrange4(x, p, v, wk);
    Rearrange4(x, v, p, wk);
    assert (x * p) * (v * wk) == (x * wk) * (v * p);
    assert (x * v) * (p * wk) == (x * wk) * (p * v);
  }

  lemma TimesLess(a: nat, b: nat, c: nat, sum: nat)
    requires sum == a + b
    ensures Times(sum, c) == Times(a, c) + b * c
  {
    Distribute2(a, b, c);
  }

  function Mod(a: nat, m: nat): nat
    requires m > 0
  {
    a % m
  }

  /** The result is the product, as far as it fits. */
  lemma LeftDone(a: seq<u32>, r: seq<u32>, k: nat, s: nat)
    requires |a| == |r| && s < 32 && forall i :: 0 <= i < |r| ==> r[i] as int == LeftLimb(a, k, s, i)
    ensures Value(r) == Value(a) * Pow2(32 * k + s) % Weight(|a|)
  {
    hide LeftLimb, Val;
    if k >= |a| {
      LeftAllOut(a, r, k, s);
    } else {
      LeftSome(a, r, k, s);
    }
    hide *;
    PowerSplits(k, s);
    ModIs(Value(a), Pow2(s), Weight(k), Pow2(32 * k + s), Weight(|a|));
  }

  lemma PowerSplits(k: nat, s: nat)
    ensures Pow2(32 * k + s) == Times(Pow2(s), Weight(k))
  {
    Pow2Sum(32 * k, s);
    WeightIsPow2(k);
  }

  lemma ModIs(v: nat, p: nat, wk: nat, q: nat, w: nat)
    requires q == Times(p, wk) && w > 0
    ensures Mod(Times(v, Times(p, wk)), w) == v * q % w
  {
  }

  lemma WrappedMod(s: seq<u32>, carry: nat, total: nat)
    requires Value(s) + carry * Weight(|s|) == total
    ensures Value(s) == Mod(total, Weight(|s|))
  {
    hide Val, Weight;
    Wrapped(s, carry, total);
  }

  lemma LeftAllOut(a: seq<u32>, r: seq<u32>, k: nat, s: nat)
    requires |a| == |r| <= k && s < 32 && forall i :: 0 <= i < |r| ==> r[i] as int == LeftLimb(a, k, s, i)
    ensures Value(r) == Mod(Times(Value(a), Times(Pow2(s), Weight(k))), Weight(|a|))
  {
    var w := |a|;
    ValZero(r, w);
    WeightSum(w, k - w);
    assert w + (k - w) == k;
    hide *;
    AllOut(Value(a), Pow2(s), Weight(w), Weight(k - w), Weight(k));
  }

  lemma LeftSome(a: seq<u32>, r: seq<u32>, k: nat, s: nat)
    requires k < |a| == |r| && s < 32 && forall i :: 0 <= i < |r| ==> r[i] as int == LeftLimb(a, k, s, i)
    ensures Value(r) == Mod(Times(Value(a), Times(Pow2(s), Weight(k))), Weight(|a|))
  {
    var w := |a|;
    LeftVal(a, r, k, s, w);
    ValSplit(a, w - k, w);
    WeightSum(w - k, k);
    assert w - k + k == w;
    var high := Val(a[w - k..], k);
    hide *;
    var carry := LeftIn(a, k, s, w) + Times(high, Pow2(s));
    LeftFinish(Value(a), Val(a, w - k), Weight(w - k), high, Pow2(s), Weight(k), Weight(w), Value(r), LeftIn(a, k, s, w), carry);
    WrappedMod(r, carry, Times(Value(a), Times(Pow2(s), Weight(k))));
  }

  lemma LeftFinish(v: nat, low: nat, wl: nat, high: nat, p: nat, wk: nat, w: nat, r: nat, into: nat, carry: nat)
    requires v == low + wl * high && w == wl * wk && r + into * w == Times(low, p * wk) && carry == into + Times(high, p)
    ensures r + carry * w == Times(v, Times(p, wk))
  {
    HighOut(v, low, wl, high, p, wk, w);
    Distribute2(into, high * p, w);
    TimesOf(low, p * wk);
    TimesOf(v, p * wk);
    TimesOf(high, p);
    TimesOf(p, wk);
    hide *;
  }

  lemma TimesOf(a: nat, b: nat)
    ensures Times(a, b) == a * b
  {
  }

  lemma AllOut(v: nat, p: nat, w: nat, rest: nat, wk: nat)
    requires wk == w * rest && w > 0
    ensures Mod(Times(v, Times(p, wk)), w) == 0
  {
    Commute(v, p, wk);
    var c := v * p * rest;
    assert v * (p * wk) == w * c by {
      Associate(v, p, wk);
      Commute(v * p, w, rest);
    }
    DivUnique(w * c, w, c, 0);
  }

  lemma HighOut(v: nat, low: nat, wl: nat, high: nat, p: nat, wk: nat, w: nat)
    requires v == low + wl * high && w == wl * wk
    ensures v * (p * wk) == low * (p * wk) + (high * p) * w
  {
    Distribute2(low, wl * high, p * wk);
    Rearrange4(high, p, wl, wk);
    Rearrange4(high, wl, p, wk);
    assert (wl * high) * (p * wk) == (high * wl) * (p * wk);
  }

  method Clone(pn: array<u32>) returns (r: array<u32>)
    ensures fresh(r) && r[..] == pn[..]
  {
    r := new u32[pn.Length];
    Copy(r, pn);
  }

  method Clear(pn: array<u32>)
    modifies pn
    ensures forall i :: 0 <= i < pn.Length ==> pn[i] == 0
  {
    for i := 0 to pn.Length
      invariant forall j :: 0 <= j < i ==> pn[j] == 0
    {
      pn[i] := 0;
    }
  }

  /** What the two writes of a step make of the limbs they go to. */
  lemma LeftFacts(a: seq<u32>, k: nat, s: nat, i: nat)
    requires i < |a| && s < 32
    ensures i + k < |a| ==> LeftIn(a, k, s, i + k + 1) == (if s == 0 then 0 else Shr(a[i], 32 - s)) < BASE
    ensures i + k < |a| ==> BitOr(LeftIn(a, k, s, i + k), Low(a[i], s)) == LeftLimb(a, k, s, i + k) < BASE
    ensures i + k < |a| && s != 0 ==> BitOr(0, Shr(a[i], 32 - s)) == Shr(a[i], 32 - s)
  {
    if i + k < |a| {
      ShiftedLimb(a[i], s);
      SplitBase(s);
      InPart(a, k, s, i + k);
      OrDisjoint(LeftIn(a, k, s, i + k), Bottom(a[i], 32 - s), s);
      Pow2Of32();
      assert High(a[i], 0) == 0;
      InPart(a, k, s, i + k + 1);
      LowRoom(LeftIn(a, k, s, i + k), Bottom(a[i], 32 - s), Pow2(s), Pow2(32 - s));
    }
  }

  lemma InPart(a: seq<u32>, k: nat, s: nat, j: nat)
    requires j <= |a| && s < 32
    ensures LeftIn(a, k, s, j) < Pow2(s) <= BASE
  {
    SplitBase(s);
    MulBound(Pow2(s), 1, Pow2(32 - s));
    if j > k {
      ShiftedLimb(a[j - k - 1], s);
    }
  }

  lemma LowRoom(x: nat, y: nat, p: nat, r: nat)
    requires x < p && y < r && p * r == BASE
    ensures x + y * p < BASE
  {
    MulBound(p, y, r - 1);
    Distribute(p, r, -1);
  }

  method ShiftLeft(pn: array<u32>, shift: nat)
    modifies pn
    ensures Value(pn[..]) == old(Value(pn[..])) * Pow2(shift) % Weight(pn.Length)
  {
    ghost var a := pn[..];
    var copy := Clone(pn);
    Clear(pn);
    var k, s := shift / 32, shift % 32;
    ShiftLimbsLeft(pn, copy, k, s);
    LeftDone(a, pn[..], k, s);
    assert shift == 32 * k + s;
  }

  method ShiftLimbsLeft(pn: array<u32>, a: array<u32>, k: nat, s: nat)
    requires pn.Length == a.Length && pn != a && s < 32 && forall i :: 0 <= i < pn.Length ==> pn[i] == 0
    modifies pn
    ensures forall i :: 0 <= i < pn.Length ==> pn[i] as int == LeftLimb(a[..], k, s, i)
  {
    NothingIn(a[..], k, s);
    hide LeftLimb, LeftIn, BitOr, Pow2, Shr, Low;
    for i := 0 to pn.Length
      invariant forall j :: 0 <= j < pn.Length && j < i + k ==> pn[j] as int == LeftLimb(a[..], k, s, j)
      invariant i + k < pn.Length ==> pn[i + k] as int == LeftIn(a[..], k, s, i + k)
      invariant forall j :: 0 <= j < pn.Length && j > i + k ==> pn[j] == 0
    {
      LeftFacts(a[..], k, s, i);
      if i + k + 1 < pn.Length && s != 0 {
        pn[i + k + 1] := BitOr(pn[i + k + 1], Shr(a[i], 32 - s));
      }
      if i + k < pn.Length {
        pn[i + k] := BitOr(pn[i + k], Low(a[i], s));
      }
    }
  }

  lemma NothingIn(a: seq<u32>, k: nat, s: nat)
    ensures k <= |a| ==> LeftIn(a, k, s, k) == 0
    ensures forall j :: 0 <= j < |a| && j < k ==> LeftLimb(a, k, s, j) == 0
  {
  }

  // ---- Right ----

  /** The bits shifted out of a limb. */
  function Out(a: seq<u32>, s: nat, i: nat): nat { if i < |a| then Bottom(a[i], s) else 0 }

  function RightPart(a: seq<u32>, k: nat, s: nat, j: nat): nat { if j + k < |a| then Shr(a[j + k], s) else 0 }

  /** A limb of the result: what is left of one limb, and what is shifted out of the one above. */
  function RightLimb(a: seq<u32>, k: nat, s: nat, j: nat): nat
    requires s < 32
  {
    RightPart(a, k, s, j) + Out(a, s, j + k + 1) * Pow2(32 - s)
  }

  lemma {:induction false} RightVal(a: seq<u32>, r: seq<u32>, k: nat, s: nat, n: nat)
    requires |a| == |r| && s < 32 && k + n <= |a| && forall i :: 0 <= i < n ==> r[i] as int == RightLimb(a, k, s, i)
    ensures Val(r, n) * Pow2(s) + Out(a, s, k) == Val(a[k..], n) + Out(a, s, k + n) * Weight(n)
  {
    if n != 0 {
      RightVal(a, r, k, s, n - 1);
      var i := k + n - 1;
      SplitBase(s);
      NextLimb(r, n - 1);
      assert a[k..][n - 1] == a[i];
      NextLimb(a[k..], n - 1);
      Halves(a[i], s);
      assert r[n - 1] as int == Shr(a[i], s) + Out(a, s, k + n) * Pow2(32 - s);
      hide *;
      RightAlgebra(Weight(n - 1), Weight(n), r[n - 1], Pow2(s), Pow2(32 - s), a[i], Shr(a[i], s), Bottom(a[i], s), Out(a, s, k + n));
      Distribute2(Val(r, n - 1), r[n - 1] * Weight(n - 1), Pow2(s));
    }
  }

  lemma Halves(x: nat, s: nat)
    ensures x == Pow2(s) * Shr(x, s) + Bottom(x, s) && Bottom(x, s) < Pow2(s) && Shr(x, s) <= x
  {
    DivLess(x, Pow2(s));
  }

  lemma RightAlgebra(w: nat, w': nat, r: nat, p: nat, q: nat, x: nat, high: nat, out: nat, into: nat)
    requires w' == w * BASE && p * q == BASE && r == high + into * q && x == p * high + out
    ensures (r * w) * p + out * w == x * w + into * w'
  {
    Rearrange(r, w, p);
    Distribute2(high, into * q, p);
    Associate(into, q, p);
    assert r * p == high * p + into * BASE;
    Distribute2(high * p, into * BASE, w);
    Distribute2(p * high, out, w);
    Rearrange(into, BASE, w);
    Associate(into, w, BASE);
  }

  lemma RightDone(a: seq<u32>, r: seq<u32>, k: nat, s: nat)
    requires |a| == |r| && s < 32 && forall i :: 0 <= i < |r| ==> r[i] as int == RightLimb(a, k, s, i)
    ensures Value(r) == Value(a) / Pow2(32 * k + s)
  {
    Pow2Sum(32 * k, s);
    WeightIsPow2(k);
    if k >= |a| {
      RightAllOut(a, r, k, s);
    } else {
      RightSome(a, r, k, s);
    }
  }

  lemma RightAllOut(a: seq<u32>, r: seq<u32>, k: nat, s: nat)
    requires |a| == |r| <= k && s < 32 && forall i :: 0 <= i < |r| ==> r[i] as int == RightLimb(a, k, s, i)
    ensures Value(r) == Value(a) / (Weight(k) * Pow2(s))
  {
    var w := |a|;
    ValBound(a, w);
    RightNone(a, k, s);
    ValZero(r, w);
    WeightSum(w, k - w);
    assert w + (k - w) == k;
    hide *;
    MulBound(Weight(w), 1, Weight(k - w));
    MulBound(Weight(k), 1, Pow2(s));
    DivUnique(Value(a), Weight(k) * Pow2(s), 0, Value(a));
  }

  lemma RightSome(a: seq<u32>, r: seq<u32>, k: nat, s: nat)
    requires k < |a| == |r| && s < 32 && forall i :: 0 <= i < |r| ==> r[i] as int == RightLimb(a, k, s, i)
    ensures Value(r) == Value(a) / (Weight(k) * Pow2(s))
  {
    var w := |a|;
    RightVal(a, r, k, s, w - k);
    RightNone(a, k, s);
    ValZeroAbove(r, w - k, w);
    ValSplit(a, k, w);
    ValBound(a, k);
    OutBound(a, s, w);
    OutBound(a, s, k);
    hide *;
    TwoDivisions(Value(a), Weight(k), Pow2(s), Val(a[k..], w - k), Val(a, k), Val(r, w - k), Out(a, s, k));
  }

  lemma TwoDivisions(v: nat, d: nat, e: nat, u: nat, low: nat, q: nat, rem: nat)
    requires v == low + d * u && low < d && u == q * e + rem && rem < e
    ensures d * e > 0 && v / (d * e) == q
  {
    DivUnique(v, d, u, low);
    DivUnique(u, e, q, rem);
    DivDiv(v, d, e);
  }

  lemma OutBound(a: seq<u32>, s: nat, i: nat)
    ensures Out(a, s, i) < Pow2(s) && (i >= |a| ==> Out(a, s, i) == 0)
  {
  }

  lemma {:induction false} ValZeroAbove(r: seq<u32>, m: nat, n: nat)
    requires m <= n <= |r| && forall i :: m <= i < n ==> r[i] == 0
    ensures Val(r, n) == Val(r, m)
  {
    if m < n {
      ValZeroAbove(r, m, n - 1);
    }
  }

  lemma RightFacts(a: seq<u32>, k: nat, s: nat, i: nat)
    requires i < |a| && s < 32
    ensures k <= i ==> BitOr(0, Shr(a[i], s)) == Shr(a[i], s) == RightPart(a, k, s, i - k) < BASE
    ensures k < i && s == 0 ==> RightLimb(a, k, s, i - k - 1) == RightPart(a, k, s, i - k - 1)
    ensures k < i && s != 0 ==> BitOr(RightPart(a, k, s, i - k - 1), Low(a[i], 32 - s)) == RightLimb(a, k, s, i - k - 1) < BASE
    ensures i == |a| - 1 && k <= i ==> RightLimb(a, k, s, i - k) == RightPart(a, k, s, i - k)
  {
    Halves(a[i], s);
    if k < i {
      SplitBase(s);
      DivBelow(a[i - 1], Pow2(s), Pow2(32 - s));
      ShiftedLimb(a[i], 32 - s);
      hide Shr, Bottom, Low;
      OrDisjoint(Shr(a[i - 1], s), Bottom(a[i], s), 32 - s);
      LowRoom(Shr(a[i - 1], s), Bottom(a[i], s), Pow2(32 - s), Pow2(s));
    }
  }

  lemma DivLess(x: nat, p: nat)
    requires p > 0
    ensures x / p <= x
  {
    if x / p > x {
      MulBound(x / p, 1, p);
      assert false;
    }
  }

  method ShiftRight(pn: array<u32>, shift: nat)
    modifies pn
    ensures Value(pn[..]) == old(Value(pn[..])) / Pow2(shift)
  {
    ghost var a := pn[..];
    var copy := Clone(pn);
    Clear(pn);
    var k, s := shift / 32, shift % 32;
    ShiftLimbsRight(pn, copy, k, s);
    RightDone(a, pn[..], k, s);
    assert shift == 32 * k + s;
  }

  method ShiftLimbsRight(pn: array<u32>, a: array<u32>, k: nat, s: nat)
    requires pn.Length == a.Length && pn != a && s < 32 && forall i :: 0 <= i < pn.Length ==> pn[i] == 0
    modifies pn
    ensures forall i :: 0 <= i < pn.Length ==> pn[i] as int == RightLimb(a[..], k, s, i)
  {
    RightNone(a[..], k, s);
    hide RightLimb, RightPart, BitOr, Pow2, Shr, Low;
    for i := 0 to pn.Length
      invariant forall j :: 0 <= j < pn.Length && j < i - k - 1 ==> pn[j] as int == RightLimb(a[..], k, s, j)
      invariant i - k - 1 >= 0 ==> pn[i - k - 1] as int == RightPart(a[..], k, s, i - k - 1)
      invariant forall j :: 0 <= j < pn.Length && j > i - k - 1 ==> pn[j] == 0
      invariant i == pn.Length && i - k - 1 >= 0 ==> pn[i - k - 1] as int == RightLimb(a[..], k, s, i - k - 1)
    {
      RightFacts(a[..], k, s, i);
      if i - k - 1 >= 0 && s != 0 {
        pn[i - k - 1] := BitOr(pn[i - k - 1], Low(a[i], 32 - s));
      }
      if i - k >= 0 {
        pn[i - k] := BitOr(pn[i - k], Shr(a[i], s));
      }
    }
  }

  lemma RightNone(a: seq<u32>, k: nat, s: nat)
    requires s < 32
    ensures forall j :: 0 <= j < |a| && j + k >= |a| ==> RightLimb(a, k, s, j) == 0
  {
  }
}
