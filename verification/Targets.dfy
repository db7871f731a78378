/** Compact targets and the work of a block, in 256-bit arithmetic. */
module Targets {
  import opened Bits
  import opened Limbs
  import opened WideArith
  import opened WideShift
  import opened WideDivide

  const WIDTH: nat := 8

  // ---- Small helpers of the number class ----

  method SetWord(pn: array<u32>, v: nat)
    requires pn.Length >= 2 && v < TWO64
    modifies pn
    ensures Value(pn[..]) == v
  {
    pn[0], pn[1] := v % BASE, v / BASE;
    for i := 2 to pn.Length
      invariant pn[0] == v % BASE && pn[1] == v / BASE && forall k :: 2 <= k < i ==> pn[k] == 0
    {
      pn[i] := 0;
    }
    ValZeroAbove(pn[..], 2, pn.Length);
    TwoLimbs(pn[..]);
  }

  lemma TwoLimbs(s: seq<u32>)
    requires |s| >= 2
    ensures Val(s, 2) == s[0] + s[1] * BASE
  {
    assert Weight(0) == 1 && Weight(1) == BASE;
    assert Val(s, 1) == s[0];
  }

  method FromWord(v: nat, width: nat) returns (pn: array<u32>)
    requires width >= 2 && v < TWO64
    ensures fresh(pn) && pn.Length == width && Value(pn[..]) == v
  {
    pn := new u32[width];
    SetWord(pn, v);
  }

  method EqualTo(pn: array<u32>, v: nat) returns (r: bool)
    requires pn.Length >= 2 && v < TWO64
    ensures r <==> Value(pn[..]) == v
  {
    hide Val, Weight;
    TwoLimbs(pn[..]);
    var i := pn.Length;
    while i > 2
      invariant 2 <= i <= pn.Length && forall k :: i <= k < pn.Length ==> pn[k] == 0
    {
      i := i - 1;
      if pn[i] != 0 {
        ValZeroAbove(pn[..], i + 1, pn.Length);
        TooBig(pn[..], i);
        return false;
      }
    }
    ValZeroAbove(pn[..], 2, pn.Length);
    return pn[1] == v / BASE && pn[0] == v % BASE;
  }

  lemma TooBig(s: seq<u32>, i: nat)
    requires 2 <= i < |s| && s[i] != 0 && Val(s, |s|) == Val(s, i + 1)
    ensures Value(s) >= TWO64
  {
    NextLimb(s, i);
    WeightSum(2, i - 2);
    assert 2 + (i - 2) == i;
    assert Weight(0) == 1 && Weight(1) == BASE && Weight(2) == BASE * BASE;
    MulBound(Weight(2), 1, Weight(i - 2));
    MulBound(Weight(i), 1, s[i]);
  }

  // ---- Compact form ----

  function SizeOf(compact: u32): nat { compact / 0x100_0000 }

  function Mantissa(compact: u32): nat { compact % 0x80_0000 }

  predicate Signed(compact: u32) { compact / 0x80_0000 % 2 == 1 }

  /** The magnitude that a compact form stands for, whatever its size. */
  function Magnitude(compact: u32): nat { MagnitudeOf(SizeOf(compact), Mantissa(compact)) }

  function MagnitudeOf(size: nat, m: nat): nat {
    if size <= 3 then Shr(m, 8 * (3 - size)) else m * Pow2(8 * (size - 3))
  }

  lemma CompactBits(compact: u32)
    ensures BitAnd(compact, 0x7f_ffff) == Mantissa(compact)
    ensures BitAnd(compact, 0x80_0000) != 0 <==> Signed(compact)
  {
    Powers();
    AndMask(compact, 23);
    AndPow2(compact, 23);
  }

  lemma Powers()
    ensures Pow2(0) == 1 && Pow2(1) == 2 && Pow2(8) == 0x100 && Pow2(15) == 0x8000 && Pow2(16) == 0x1_0000 && Pow2(23) == 0x80_0000 && Pow2(24) == 0x100_0000
    ensures Pow2(256) == Weight(8)
  {
    Pow2Of32();
    assert Pow2(7) == 128;
    Pow2Sum(8, 7);
    Pow2Sum(16, 7);
    WeightIsPow2(8);
  }

  /** Too large exactly if the magnitude does not fit into 256 bits. */
  method SetCompact(pn: array<u32>, compact: u32) returns (negative: bool, overflow: bool)
    requires pn.Length == WIDTH
    modifies pn
    ensures overflow <==> Magnitude(compact) >= Weight(WIDTH)
    ensures negative <==> Magnitude(compact) != 0 && Signed(compact)
    ensures Value(pn[..]) == Magnitude(compact) % Weight(WIDTH)
  {
    CompactBits(compact);
    hide Val, Weight, BitAnd, Pow2, Signed, Shr;
    var size := compact / 0x100_0000;
    var word: nat := BitAnd(compact, 0x7f_ffff);
    if size <= 3 {
      word := Shr(word, 8 * (3 - size));
      SmallWord(compact);
      SetWord(pn, word);
    } else {
      SetWord(pn, word);
      ShiftLeft(pn, 8 * (size - 3));
    }
    OverflowIff(compact);
    negative := word != 0 && BitAnd(compact, 0x80_0000) != 0;
    overflow := word != 0 && (size > 34 || (word > 0xff && size > 33) || (word > 0xffff && size > 32));
  }

  lemma SmallWord(compact: u32)
    requires SizeOf(compact) <= 3
    ensures Magnitude(compact) <= Mantissa(compact) < Weight(WIDTH)
    ensures Magnitude(compact) == Magnitude(compact) % Weight(WIDTH)
  {
    Halves(Mantissa(compact), 8 * (3 - SizeOf(compact)));
    assert Magnitude(compact) == Shr(Mantissa(compact), 8 * (3 - SizeOf(compact))) && Mantissa(compact) < 0x80_0000;
    hide *;
    Powers();
    Pow2Less(24, 256);
    SmallMod(Magnitude(compact), Weight(WIDTH));
  }

  lemma AtLeast(m: nat, e: nat, t: nat)
    ensures m * Pow2(e) >= Pow2(e + t) <==> m >= Pow2(t)
  {
    Pow2Sum(e, t);
    hide Pow2;
    if m >= Pow2(t) {
      MulBound(Pow2(e), Pow2(t), m);
    } else {
      MulLess(Pow2(e), m, Pow2(t));
    }
  }

  lemma OverflowAt(size: nat, m: nat, g: nat)
    requires size > 3 && m < 0x80_0000 && g == m * Pow2(8 * (size - 3))
    ensures g >= Pow2(256) <==> m != 0 && (size > 34 || (m > 0xff && size > 33) || (m > 0xffff && size > 32))
  {
    hide *;
    var e := 8 * (size - 3);
    Powers();
    AtLeast(m, e, 0);
    if size > 34 {
      Pow2Less(256, e);
    } else {
      AtLeast(m, e, 256 - e);
      Pow2Less(24, 256 - e);
    }
  }

  lemma OverflowIff(compact: u32)
    ensures var (size, m) := (SizeOf(compact), Mantissa(compact));
            && (Magnitude(compact) != 0 ==> m != 0)
            && (size > 3 && m != 0 ==> Magnitude(compact) != 0)
            && (Magnitude(compact) >= Weight(WIDTH) <==>
                  m != 0 && (size > 34 || (m > 0xff && size > 33) || (m > 0xffff && size > 32)))
  {
    var (size, m) := (SizeOf(compact), Mantissa(compact));
    if size <= 3 {
      SmallWord(compact);
    } else {
      var e := 8 * (size - 3);
      assert Magnitude(compact) == m * Pow2(e) && m < 0x80_0000;
      hide *;
      Powers();
      AtLeast(m, e, 0);
      OverflowAt(size, m, Magnitude(compact));
    }
  }

  // ---- The work of a block ----

  /** The expected number of hashes to meet a target. */
  ghost function Work(compact: u32): nat {
    var target := Magnitude(compact);
    if target == 0 || Signed(compact) || target >= Weight(WIDTH) then 0 else Share(Pow2(256), target + 1)
  }

  function Share(a: nat, d: nat): nat
    requires d > 0
  {
    DivNonNegative(a, d);
    a / d
  }

  /** A target and the next number fit into 256 bits. */
  lemma NextFits(compact: u32)
    requires Magnitude(compact) < Weight(WIDTH)
    ensures Magnitude(compact) + 1 < Weight(WIDTH)
  {
    if SizeOf(compact) <= 3 {
      hide Pow2, Weight;
      Powers();
      SmallWord(compact);
      Pow2Less(24, 256);
    } else {
      var (e, m) := (8 * (SizeOf(compact) - 3), Mantissa(compact));
      assert Magnitude(compact) == m * Pow2(e);
      hide *;
      Powers();
      EvenPower(e);
      EvenPower(256);
      Commute(m, 2, Pow2(e - 1));
    }
  }

  lemma EvenPower(e: nat)
    requires e > 0
    ensures Pow2(e) == 2 * Pow2(e - 1)
  {
  }

  /** The work without forming the power itself. */
  lemma WorkOf(power: nat, t: nat)
    requires 0 < t && t + 1 < power
    ensures Share(power - 1 - t, t + 1) + 1 == Share(power, t + 1) < power
  {
    var (q, r) := (power / (t + 1), power % (t + 1));
    Distribute(t + 1, q, -1);
    DivUnique(power - 1 - t, t + 1, q - 1, r);
    MulBound(q, 2, t + 1);
  }

  method GetBlockProof(compact: u32) returns (proof: array<u32>)
    ensures proof.Length == WIDTH && Value(proof[..]) == Work(compact)
  {
    var target := new u32[WIDTH];
    var negative, overflow := SetCompact(target, compact);
    SmallMod(Magnitude(compact), Weight(WIDTH));
    hide Val, Weight, Pow2, Magnitude, Signed, Share;
    var zero := EqualTo(target, 0);
    if negative || overflow || zero {
      proof := FromWord(0, WIDTH);
      return;
    }
    NextFits(compact);
    proof := ProofOf(target);
  }

  method ProofOf(target: array<u32>) returns (proof: array<u32>)
    requires target.Length == WIDTH && 0 < Value(target[..]) && Value(target[..]) + 1 < Weight(WIDTH)
    ensures proof.Length == WIDTH && Value(proof[..]) == Share(Pow2(256), Value(target[..]) + 1)
  {
    hide Pow2, Weight, Val;
    ghost var t, w := Value(target[..]), Weight(WIDTH);
    Powers();
    SmallMod(t + 1, w);
    WorkOf(w, t);
    SameShare(w - 1 - t, t + 1);
    SmallMod(Share(w, t + 1), w);
    hide *;
    var one := FromWord(1, WIDTH);
    var next := Clone(target);
    Add(next, one);
    proof := Complement(target);
    var _ := Divide(proof, next);
    Add(proof, one);
  }

  lemma SmallMod(a: nat, m: nat)
    requires m > 0
    ensures a < m ==> a % m == a
  {
    if a < m {
      DivUnique(a, m, 0, a);
    }
  }

  lemma SameShare(a: nat, d: nat)
    requires d > 0
    ensures Share(a, d) == a / d
  {
  }

  // ---- Back to compact form ----

  method GetLow64(pn: array<u32>) returns (r: nat)
    requires pn.Length >= 2
    ensures r < TWO64 && (Value(pn[..]) < TWO64 ==> r == Value(pn[..]))
  {
    Pow2Of32();
    OrDisjoint(pn[0], pn[1], 32);
    TwoLimbs(pn[..]);
    hide *;
    LowPart(pn[..]);
    r := BitOr(pn[0], pn[1] * Pow2(32));
  }

  lemma LowPart(s: seq<u32>)
    requires |s| >= 2
    ensures Value(s) < TWO64 ==> Value(s) == Val(s, 2)
  {
    if k :| 2 <= k < |s| && s[k] != 0 {
      var top := TopLimb(s, k, |s|);
      TooBig(s, top);
    } else {
      ValZeroAbove(s, 2, |s|);
    }
  }

  lemma {:induction false} TopLimb(s: seq<u32>, k: nat, n: nat) returns (top: nat)
    requires 2 <= k < n <= |s| && s[k] != 0
    ensures 2 <= top < n && s[top] != 0 && Val(s, n) == Val(s, top + 1)
    decreases n
  {
    if s[n - 1] != 0 {
      top := n - 1;
    } else {
      top := TopLimb(s, k, n - 1);
    }
  }

  /** The mantissa `m` of a number at a size: exact for up to three bytes, else the leading ones. */
  ghost predicate Leads(v: nat, size: nat, m: nat) {
    if size <= 3 then m == v * Pow2(8 * (3 - size))
    else m >= 0x8000 && m * Pow2(8 * (size - 3)) <= v < (m + 1) * Pow2(8 * (size - 3))
  }

  /** The mantissa of a number at a size. */
  function Lead(v: nat, size: nat): nat {
    if size <= 3 then v * Pow2(8 * (3 - size)) else Shr(v, 8 * (size - 3))
  }

  /** A number takes exactly so many bytes. */
  ghost predicate Bytes(v: nat, size: nat) { v < Pow2(8 * size) && (size > 0 ==> Pow2(8 * (size - 1)) <= v) }

  /** The compact form of a number: its size is that of twice the number, leaving room for the sign, and its
      mantissa is what leads the number at that size. The magnitude it stands for is at most the number, and less
      by less than a 32768th of it; the sign is set on demand unless the mantissa is zero. */
  method GetCompact(pn: array<u32>, negative: bool) returns (compact: u32)
    requires pn.Length == WIDTH
    ensures Bytes(2 * Value(pn[..]), SizeOf(compact)) && Mantissa(compact) == Lead(Value(pn[..]), SizeOf(compact))
    ensures Magnitude(compact) <= Value(pn[..])
    ensures (Value(pn[..]) - Magnitude(compact)) * 0x8000 < Magnitude(compact) || Value(pn[..]) == Magnitude(compact)
    ensures Signed(compact) <==> negative && Mantissa(compact) != 0
  {
    ghost var v := Value(pn[..]);
    var bits := BitLength(pn);
    var size := (bits + 7) / 8;
    hide *;
    LeadFacts(v, bits, size);
    var c: nat;
    if size <= 3 {
      c := GetLow64(pn);
      c := Times(c, Pow2(8 * (3 - size)));
    } else {
      var bn := Clone(pn);
      ShiftRight(bn, 8 * (size - 3));
      ShrIs(v, 8 * (size - 3));
      c := GetLow64(bn);
    }
    SignBit(c);
    LeadIs(v, size, c);
    CompactShape(v, bits, size);
    if BitAnd(c, 0x80_0000) != 0 {
      LeadLess(v, size, c);
      c, size := c / 0x100, size + 1;
    }
    assert c < 0x80_0000 && size < 256;
    Assemble(size, c);
    LeadValue(v, size, c);
    compact := BitOr(c, size * 0x100_0000);
    if negative && BitAnd(compact, 0x7f_ffff) != 0 {
      compact := BitOr(compact, 0x80_0000);
    }
    MagnitudeIs(compact);
  }

  lemma LeadIs(v: nat, size: nat, c: nat)
    requires if size <= 3 then c == Times(v, Pow2(8 * (3 - size))) else c == Shr(v, 8 * (size - 3))
    ensures c == Lead(v, size)
  {
    hide Pow2, Shr;
  }

  /** The number of bytes follows from the mantissa: it may need one more for the sign. */
  lemma CompactShape(v: nat, bits: nat, size: nat)
    requires IsLength(v, bits) && size == (bits + 7) / 8
    ensures Lead(v, size) < 0x80_0000 ==> Bytes(2 * v, size)
    ensures Lead(v, size) >= 0x80_0000 ==> Bytes(2 * v, size + 1) && Lead(v, size) / 0x100 == Lead(v, size + 1)
  {
    assert v < Pow2(bits) && (bits > 0 ==> Pow2(bits - 1) <= v) && (bits == 0 ==> v == 0);
    assert v == 0 ==> Lead(v, size) == 0;
    assert Pow2(0) == 1;
    hide Pow2, Lead, IsLength;
    if size > 0 {
      SignEdge(v, size);
      Pow2Less(8 * (size - 1), bits - 1);
      Pow2Less(bits, 8 * size);
      NextByte(size);
      LeadShorter(v, size);
    }
  }

  lemma NextByte(size: nat)
    ensures Pow2(8 * (size + 1)) >= 2 * Pow2(8 * size)
  {
    EvenPower(8 * size + 1);
    Pow2Less(8 * size + 1, 8 * (size + 1));
  }

  /** The mantissa reaches the sign exactly if twice the number needs another byte. */
  lemma SignEdge(v: nat, size: nat)
    requires size > 0
    ensures Lead(v, size) < 0x80_0000 <==> 2 * v < Pow2(8 * size)
  {
    hide *;
    assert 23 + 8 * size - 24 == 8 * size - 1;
    LeadAtLeast(v, size, 23);
    EvenPower(8 * size);
    Powers();
  }

  lemma LeadAtLeast(v: nat, size: nat, k: nat)
    requires k + 8 * size >= 24
    ensures Lead(v, size) >= Pow2(k) <==> v >= Pow2(k + 8 * size - 24)
  {
    hide Pow2, Shr;
    if size <= 3 {
      AtLeast(v, 8 * (3 - size), k + 8 * size - 24);
      assert 8 * (3 - size) + (k + 8 * size - 24) == k;
    } else {
      ShrAtLeast(v, 8 * (size - 3), k);
      assert 8 * (size - 3) + k == k + 8 * size - 24;
    }
  }

  lemma ShrAtLeast(v: nat, e: nat, t: nat)
    ensures Shr(v, e) >= Pow2(t) <==> v >= Pow2(e + t)
  {
    Halves(v, e);
    Pow2Sum(e, t);
    hide Pow2, Shr;
    var (p, q) := (Pow2(e), Shr(v, e));
    if q >= Pow2(t) {
      MulBound(p, Pow2(t), q);
    } else {
      MulBound(p, q + 1, Pow2(t));
      Distribute(p, q, 1);
    }
  }

  lemma LeadShorter(v: nat, size: nat)
    ensures Lead(v, size) / 0x100 == Lead(v, size + 1)
  {
    Powers();
    if size < 3 {
      Pow2Sum(8 * (2 - size), 8);
      assert 8 * (2 - size) + 8 == 8 * (3 - size);
      hide Pow2;
      Associate(v, Pow2(8 * (2 - size)), 0x100);
      DivUnique(v * Pow2(8 * (3 - size)), 0x100, v * Pow2(8 * (2 - size)), 0);
    } else if size == 3 {
      assert v * Pow2(0) == v;
    } else {
      Pow2Sum(8 * (size - 3), 8);
      assert 8 * (size - 3) + 8 == 8 * (size - 2);
      hide Pow2;
      DivDiv(v, Pow2(8 * (size - 3)), 0x100);
    }
  }

  lemma MagnitudeIs(compact: u32)
    ensures Magnitude(compact) == MagnitudeOf(SizeOf(compact), Mantissa(compact))
  {
  }

  lemma LeadFacts(v: nat, bits: nat, size: nat)
    requires IsLength(v, bits) && bits <= 256 && size == (bits + 7) / 8
    ensures size <= 32
    ensures size <= 3 ==> v < TWO64 && Times(v, Pow2(8 * (3 - size))) < 0x100_0000 && Leads(v, size, Times(v, Pow2(8 * (3 - size))))
    ensures size > 3 ==> Shr(v, 8 * (size - 3)) < 0x100_0000 && Leads(v, size, Shr(v, 8 * (size - 3)))
  {
    assert v < Pow2(bits) && (bits > 0 ==> Pow2(bits - 1) <= v);
    hide *;
    Pow2Less(bits, 8 * size);
    if size <= 3 {
      LeadFew(v, size);
    } else {
      Pow2Less(8 * (size - 1), bits - 1);
      LeadMany(v, size);
    }
  }

  lemma LeadFew(v: nat, size: nat)
    requires size <= 3 && v < Pow2(8 * size)
    ensures v < TWO64 && Times(v, Pow2(8 * (3 - size))) < 0x100_0000 && Leads(v, size, Times(v, Pow2(8 * (3 - size))))
  {
    hide Pow2, Weight, Times, Leads;
    Powers();
    Pow2Sum(8 * size, 8 * (3 - size));
    assert 8 * size + 8 * (3 - size) == 24;
    Pow2Less(8 * size, 24);
    TimesBelow(v, Pow2(8 * (3 - size)), Pow2(8 * size), 0x100_0000);
    LeadShort(v, size);
  }

  lemma LeadMany(v: nat, size: nat)
    requires size > 3 && Pow2(8 * (size - 1)) <= v < Pow2(8 * size)
    ensures Shr(v, 8 * (size - 3)) < 0x100_0000 && Leads(v, size, Shr(v, 8 * (size - 3)))
  {
    hide *;
    Powers();
    var e := 8 * (size - 3);
    Pow2Sum(e, 16);
    Pow2Sum(e, 24);
    assert e + 16 == 8 * (size - 1) && e + 24 == 8 * size;
    LeadLong(v, size, Pow2(e), Pow2(8 * (size - 1)), Pow2(8 * size));
  }

  lemma TimesBelow(v: nat, p: nat, q: nat, n: nat)
    requires v < q && q * p == n && p > 0
    ensures Times(v, p) < n
  {
    MulLess(p, v, q);
  }

  lemma LeadShort(v: nat, size: nat)
    requires size <= 3
    ensures Leads(v, size, Times(v, Pow2(8 * (3 - size))))
  {
    hide Pow2;
  }

  lemma LeadLong(v: nat, size: nat, p: nat, low: nat, high: nat)
    requires size > 3 && p == Pow2(8 * (size - 3)) && low <= v < high && low == p * 0x1_0000 && high == p * 0x100_0000
    ensures 0x1_0000 <= Shr(v, 8 * (size - 3)) < 0x100_0000 && Leads(v, size, Shr(v, 8 * (size - 3)))
  {
    var c := Shr(v, 8 * (size - 3));
    Halves(v, 8 * (size - 3));
    hide Pow2;
    Distribute(p, c, 1);
    DivBelow(v, p, 0x100_0000);
    if c < 0x1_0000 {
      MulBound(p, c + 1, 0x1_0000);
      assert false;
    }
    assert c * p == p * c && (c + 1) * p == p * (c + 1);
  }

  lemma SignBit(c: nat)
    requires c < 0x100_0000
    ensures BitAnd(c, 0x80_0000) != 0 <==> c >= 0x80_0000
  {
    Powers();
    AndPow2(c, 23);
    TopBit(c, 23);
  }

  /** A mantissa one byte shorter. */
  lemma LeadLess(v: nat, size: nat, c: nat)
    requires Leads(v, size, c) && 0x80_0000 <= c < 0x100_0000
    ensures Leads(v, size + 1, c / 0x100)
  {
    hide Pow2, Weight;
    Powers();
    if size < 3 {
      Pow2Sum(8 * (2 - size), 8);
      assert 8 * (2 - size) + 8 == 8 * (3 - size);
      Associate(v, Pow2(8 * (2 - size)), 0x100);
    } else if size > 3 {
      Pow2Sum(8 * (size - 3), 8);
      assert 8 * (size - 3) + 8 == 8 * (size - 2);
      var (p, m) := (Pow2(8 * (size - 3)), c / 0x100);
      LeadByte(v, c, p, m);
    }
  }

  lemma LeadByte(v: nat, c: nat, p: nat, m: nat)
    requires c * p <= v < (c + 1) * p && m == c / 0x100
    ensures m * (p * 0x100) <= v < (m + 1) * (p * 0x100)
  {
    MulBound(p, m * 0x100, c);
    MulBound(p, c + 1, (m + 1) * 0x100);
    Rearrange(m, p, 0x100);
    Associate(m, p, 0x100);
    Associate(m + 1, p, 0x100);
    Rearrange(m + 1, p, 0x100);
  }

  lemma LeadValue(v: nat, size: nat, m: nat)
    requires Leads(v, size, m)
    ensures var g := MagnitudeOf(size, m); g <= v && ((v - g) * 0x8000 < g || v == g)
  {
    if size <= 3 {
      ExactShr(v, 8 * (3 - size));
    } else {
      var p := Pow2(8 * (size - 3));
      Distribute2(m, 1, p);
      MulBound(p, 0x8000, m);
    }
  }

  lemma ExactShr(v: nat, t: nat)
    ensures Shr(v * Pow2(t), t) == v
  {
    DivUnique(v * Pow2(t), Pow2(t), v, 0);
  }

  lemma ShrIs(v: nat, t: nat)
    ensures Shr(v, t) == v / Pow2(t)
  {
  }

  /** Putting size, mantissa and sign together. */
  lemma Assemble(size: nat, c: nat)
    requires size < 256 && c < 0x80_0000
    ensures var r := BitOr(c, size * 0x100_0000);
            && r < BASE && SizeOf(r) == size && Mantissa(r) == c && !Signed(r) && BitAnd(r, 0x7f_ffff) == c
    ensures var r := BitOr(BitOr(c, size * 0x100_0000), 0x80_0000);
            && r < BASE && SizeOf(r) == size && Mantissa(r) == c && Signed(r)
  {
    AssembleOr(size, c);
    hide BitOr, BitAnd;
    Fields(size, c, 0);
    Fields(size, c, 1);
    CompactBits(c + size * 0x100_0000);
  }

  lemma AssembleOr(size: nat, c: nat)
    requires size < 256 && c < 0x80_0000
    ensures BitOr(c, size * 0x100_0000) == c + size * 0x100_0000
    ensures BitOr(c + size * 0x100_0000, 0x80_0000) == c + 0x80_0000 + size * 0x100_0000
  {
    hide *;
    Powers();
    OrDisjoint(c, size, 24);
    OrSplit(c, 0, 2 * size, 1, 23);
    OrDisjoint(1, size, 1);
    OrNothing(c);
  }

  lemma OrNothing(c: nat)
    ensures BitOr(c, 0) == c
  {
  }

  lemma Fields(size: nat, c: nat, sign: nat)
    requires size < 256 && c < 0x80_0000 && sign < 2
    ensures var r := c + sign * 0x80_0000 + size * 0x100_0000;
            r < BASE && SizeOf(r) == size && Mantissa(r) == c && (Signed(r) <==> sign == 1)
  {
  }
}
