/** Bit length and division of numbers of 32-bit limbs. */
module WideDivide {
  import opened Bits
  import opened Limbs
  import opened WideArith
  import opened WideShift

  // ---- Bit length ----

  /** The position of the highest one, plus one. */
  ghost predicate IsLength(v: nat, n: nat) {
    if v == 0 then n == 0 else n > 0 && Pow2(n - 1) <= v < Pow2(n)
  }

  method BitLength(pn: array<u32>) returns (n: nat)
    ensures IsLength(Value(pn[..]), n) && n <= 32 * pn.Length
  {
    hide Val, Weight, IsLength;
    var pos := pn.Length;
    while pos > 0
      invariant 0 <= pos <= pn.Length && forall k :: pos <= k < pn.Length ==> pn[k] == 0
    {
      pos := pos - 1;
      if pn[pos] != 0 {
        ValZeroAbove(pn[..], pos + 1, pn.Length);
        var top := LimbLength(pn[pos]);
        LengthFromTop(pn[..], pos, top);
        return 32 * pos + top;
      }
    }
    ValZero(pn[..], pn.Length);
    LengthOfZero();
    n := 0;
  }

  lemma LengthOfZero()
    ensures IsLength(0, 0)
  {
  }

  /** Tests the bits of a limb from the top. */
  method LimbLength(x: u32) returns (n: nat)
    requires x != 0
    ensures 0 < n <= 32 && Pow2(n - 1) <= x < Pow2(n)
  {
    Pow2Of32();
    hide Pow2;
    var bit := 31;
    while bit > 0
      invariant 0 <= bit <= 31 && x < Pow2(bit + 1)
    {
      AndPow2(x, bit);
      TopBit(x, bit);
      if BitAnd(x, Pow2(bit)) != 0 {
        return bit + 1;
      }
      bit := bit - 1;
    }
    FirstPowers();
    return 1;
  }

  lemma FirstPowers()
    ensures Pow2(0) == 1 && Pow2(1) == 2
  {
  }

  lemma TopBit(x: nat, bit: nat)
    requires x < Pow2(bit + 1)
    ensures x / Pow2(bit) % 2 == 1 <==> x >= Pow2(bit)
  {
    if x >= Pow2(bit) {
      DivUnique(x, Pow2(bit), 1, x - Pow2(bit));
    } else {
      DivUnique(x, Pow2(bit), 0, x);
    }
  }

  lemma LengthFromTop(s: seq<u32>, pos: nat, top: nat)
    requires pos < |s| && Val(s, |s|) == Val(s, pos + 1) && 0 < top <= 32 && Pow2(top - 1) <= s[pos] < Pow2(top)
    ensures IsLength(Value(s), 32 * pos + top)
  {
    NextLimb(s, pos);
    ValBound(s, pos);
    WeightIsPow2(pos);
    Pow2Sum(32 * pos, top - 1);
    Pow2Sum(32 * pos, top);
    assert 32 * pos + top - 1 == 32 * pos + (top - 1);
    hide Val, Weight, Pow2;
    Between(Val(s, pos), Weight(pos), s[pos], Pow2(top - 1), Pow2(top));
  }

  lemma Between(low: nat, w: nat, x: nat, p: nat, q: nat)
    requires low < w && 0 < p <= x < q
    ensures 0 < w * p <= low + x * w < w * q
  {
    MulPositive(w, p);
    MulBound(w, p, x);
    MulBound(w, x + 1, q);
    Distribute(w, x, 1);
  }

  // ---- Division ----

  /** All bits below and at a position are still zero. */
  ghost predicate ZeroUpTo(q: seq<u32>, shift: int) {
    0 <= shift < 32 * |q| ==>
      Bottom(q[shift / 32], shift % 32 + 1) == 0 && forall j :: 0 <= j < shift / 32 ==> q[j] == 0
  }

  lemma ZeroLess(q: seq<u32>, shift: nat)
    requires ZeroUpTo(q, shift) && shift < 32 * |q|
    ensures ZeroUpTo(q, shift - 1)
  {
    hide Bottom;
    if shift % 32 != 0 {
      FewerZero(q[shift / 32], shift % 32);
    } else if shift > 0 {
      BottomOfZero((shift - 1) % 32 + 1);
    }
  }

  lemma BottomOfZero(t: nat)
    ensures Bottom(0, t) == 0
  {
    DivUnique(0, Pow2(t), 0, 0);
  }

  lemma MultipleOf(x: nat, t: nat)
    requires Bottom(x, t) == 0
    ensures x == Shr(x, t) * Pow2(t)
  {
    Halves(x, t);
  }

  lemma BottomOfMultiple(c: nat, t: nat)
    ensures Bottom(c * Pow2(t), t) == 0
  {
    DivUnique(c * Pow2(t), Pow2(t), c, 0);
  }

  lemma DoubledMore(c: nat, t: nat)
    ensures c * Pow2(t + 1) == (2 * c) * Pow2(t)
    ensures c * Pow2(t + 1) + Pow2(t) == (2 * c + 1) * Pow2(t)
  {
    Associate(c, 2, Pow2(t));
    assert (c * 2) * Pow2(t) == (2 * c) * Pow2(t);
    Distribute2(2 * c, 1, Pow2(t));
  }

  lemma FewerZero(x: nat, t: nat)
    requires Bottom(x, t + 1) == 0
    ensures Bottom(x, t) == 0
  {
    MultipleOf(x, t + 1);
    DoubledMore(Shr(x, t + 1), t);
    hide *;
    BottomOfMultiple(2 * Shr(x, t + 1), t);
  }

  method SetBit(q: array<u32>, shift: nat)
    requires shift < 32 * q.Length && ZeroUpTo(q[..], shift)
    modifies q
    ensures Value(q[..]) == old(Value(q[..])) + Pow2(shift) && ZeroUpTo(q[..], shift - 1)
  {
    ghost var s := q[..];
    var k, t := shift / 32, shift % 32;
    SetLimb(q[k], t);
    q[k] := BitOr(q[k], Pow2(t));
    SetBitVal(s, q[..], shift);
  }

  lemma SetLimb(x: nat, t: nat)
    requires x < BASE && t < 32 && Bottom(x, t + 1) == 0
    ensures BitOr(x, Pow2(t)) == x + Pow2(t) < BASE && Bottom(x + Pow2(t), t) == 0
  {
    MultipleOf(x, t + 1);
    SplitBase(t + 1);
    DivBelow(x, Pow2(t + 1), Pow2(32 - (t + 1)));
    assert Shr(x, t + 1) < Pow2(32 - (t + 1)) && Pow2(t) < Pow2(t + 1);
    DoubledMore(Shr(x, t + 1), t);
    hide *;
    OrDisjoint(Pow2(t), Shr(x, t + 1), t + 1);
    LowRoom(Pow2(t), Shr(x, t + 1), Pow2(t + 1), Pow2(32 - (t + 1)));
    BottomOfMultiple(2 * Shr(x, t + 1) + 1, t);
  }

  lemma SetBitVal(s: seq<u32>, r: seq<u32>, shift: nat)
    requires |s| == |r| && shift < 32 * |s| && ZeroUpTo(s, shift)
    requires forall j :: 0 <= j < |s| && j != shift / 32 ==> r[j] == s[j]
    requires r[shift / 32] as int == s[shift / 32] as int + Pow2(shift % 32) && Bottom(r[shift / 32], shift % 32) == 0
    ensures Value(r) == Value(s) + Pow2(shift) && ZeroUpTo(r, shift - 1)
  {
    var k, t := shift / 32, shift % 32;
    ValSame(s, r, k);
    NextLimb(s, k);
    NextLimb(r, k);
    SameAbove(s, r, k + 1, |s|);
    Distribute2(s[k], Pow2(t), Weight(k));
    PowerSplits(k, t);
    assert 32 * k + t == shift;
    if t == 0 && shift > 0 {
      BottomOfZero((shift - 1) % 32 + 1);
    }
  }

  /** Between two steps: what is left of the number, and the quotient so far. */
  ghost predicate Dividing(n: nat, d: nat, q: nat, left: nat, div: nat, shift: int) {
    && -1 <= shift && n == Times(q, d) + left && left < Times(d, Pow2(shift + 1))
    && (shift >= 0 ==> div == Times(d, Pow2(shift)))
  }

  /** The exact quotient, by shifting and subtracting; division by zero is an error that leaves zero. */
  method Divide(pn: array<u32>, b: array<u32>) returns (ok: bool)
    requires pn.Length == b.Length
    modifies pn
    ensures ok <==> old(Value(b[..])) != 0
    ensures ok ==> Value(pn[..]) == old(Value(pn[..])) / old(Value(b[..]))
    ensures !ok ==> Value(pn[..]) == 0
  {
    hide Val, Weight, Pow2, IsLength, Dividing, ZeroUpTo, Times;
    ghost var n, d := Value(pn[..]), Value(b[..]);
    var div := Clone(b);
    var num := Clone(pn);
    Clear(pn);
    ValZero(pn[..], pn.Length);
    var numBits := BitLength(num);
    var divBits := BitLength(div);
    LengthFacts(n, d, numBits, divBits, pn.Length);
    if divBits == 0 {
      return false;
    }
    if divBits > numBits {
      return true;
    }
    var shift: int := numBits - divBits;
    ShiftLeft(div, shift);
    Aligned(n, d, numBits, divBits, pn.Length);
    AllZero(pn[..], shift);
    while shift >= 0
      invariant -1 <= shift < 32 * pn.Length && num.Length == div.Length == pn.Length && num != div && num != pn && div != pn
      invariant Dividing(n, d, Value(pn[..]), Value(num[..]), Value(div[..]), shift)
      invariant ZeroUpTo(pn[..], shift)
    {
      ghost var q, left := Value(pn[..]), Value(num[..]);
      ValBound(num[..], num.Length);
      DivideStep(n, d, q, left, Value(div[..]), shift, Weight(pn.Length));
      var order := CompareTo(num, div);
      if order >= 0 {
        Subtract(num, div);
        SetBit(pn, shift);
      } else {
        ZeroLess(pn[..], shift);
      }
      ShiftRight(div, 1);
      shift := shift - 1;
    }
    DivideDone(n, d, Value(pn[..]), Value(num[..]), Value(div[..]));
    return true;
  }

  lemma AllZero(q: seq<u32>, shift: nat)
    requires forall j :: 0 <= j < |q| ==> q[j] == 0
    ensures ZeroUpTo(q, shift)
  {
    if shift < 32 * |q| {
      BottomOfZero(shift % 32 + 1);
    }
  }

  /** No length means zero; a shorter number is smaller. */
  lemma LengthFacts(n: nat, d: nat, numBits: nat, divBits: nat, w: nat)
    requires IsLength(n, numBits) && IsLength(d, divBits) && numBits <= 32 * w
    ensures divBits == 0 <==> d == 0
    ensures divBits > numBits ==> d > 0 && n / d == 0
  {
    if divBits > numBits {
      Pow2Less(numBits, divBits - 1);
      assert n < d;
      DivUnique(n, d, 0, n);
    }
  }

  lemma Aligned(n: nat, d: nat, numBits: nat, divBits: nat, w: nat)
    requires IsLength(n, numBits) && IsLength(d, divBits) && 0 < divBits <= numBits <= 32 * w
    ensures var shift := numBits - divBits;
            && d * Pow2(shift) % Weight(w) == Times(d, Pow2(shift))
            && Dividing(n, d, 0, n, Times(d, Pow2(shift)), shift)
  {
    var shift := numBits - divBits;
    AlignedBounds(n, d, numBits, divBits);
    Pow2Less(numBits, 32 * w);
    WeightIsPow2(w);
    assert Times(0, d) == 0;
    hide Weight, Pow2, IsLength, Times;
    ModSmall(d, Pow2(shift), Weight(w));
  }

  lemma ModSmall(d: nat, p: nat, w: nat)
    requires Times(d, p) < w
    ensures d * p % w == Times(d, p)
  {
    DivUnique(d * p, w, 0, d * p);
  }

  lemma AlignedBounds(n: nat, d: nat, numBits: nat, divBits: nat)
    requires IsLength(n, numBits) && IsLength(d, divBits) && 0 < divBits <= numBits
    ensures Times(d, Pow2(numBits - divBits)) < Pow2(numBits)
    ensures n < Times(d, Pow2(numBits - divBits + 1))
  {
    assert n < Pow2(numBits);
    var shift := numBits - divBits;
    Pow2Sum(divBits, shift);
    Pow2Sum(divBits - 1, shift + 1);
    assert divBits - 1 + (shift + 1) == numBits && divBits + shift == numBits;
    assert Pow2(divBits - 1) <= d < Pow2(divBits);
    hide *;
    TimesBounds(d, Pow2(divBits - 1), Pow2(divBits), Pow2(shift), Pow2(shift + 1), Pow2(numBits));
  }

  lemma TimesBounds(d: nat, below: nat, above: nat, p: nat, p': nat, n: nat)
    requires below <= d < above && p > 0 && above * p == n && below * p' == n
    ensures Times(d, p) < n <= Times(d, p')
  {
    MulLess(p, d, above);
    MulBound(p', below, d);
  }

  lemma MulLess(a: nat, b: nat, c: nat)
    requires a > 0 && b < c
    ensures a * b < a * c
  {
    MulBound(a, b + 1, c);
    Distribute(a, b, 1);
  }

  lemma DivideStep(n: nat, d: nat, q: nat, left: nat, div: nat, shift: nat, w: nat)
    requires Dividing(n, d, q, left, div, shift) && left < w
    ensures left >= div ==> Dividing(n, d, q + Pow2(shift), (left - div) % w, div / Pow2(1), shift - 1)
    ensures left < div ==> Dividing(n, d, q, left, div / Pow2(1), shift - 1)
  {
    HalfOf(d, shift);
    if left >= div {
      DivUnique(left - div, w, 0, left - div);
      Distribute2(q, Pow2(shift), d);
    }
  }

  lemma HalfOf(d: nat, shift: nat)
    ensures Times(d, Pow2(shift + 1)) == 2 * Times(d, Pow2(shift))
    ensures shift > 0 ==> Times(d, Pow2(shift)) / Pow2(1) == Times(d, Pow2(shift - 1))
  {
    Commute(d, 2, Pow2(shift));
    if shift > 0 {
      Commute(d, 2, Pow2(shift - 1));
    }
    assert Pow2(1) == 2;
  }

  lemma DivideDone(n: nat, d: nat, q: nat, left: nat, div: nat)
    requires Dividing(n, d, q, left, div, -1) && d > 0
    ensures q == n / d
  {
    assert Pow2(0) == 1;
    DivUnique(n, d, q, left);
  }
}
