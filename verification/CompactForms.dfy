/** Which compact forms survive being read and written again. */
module CompactForms {
  import opened Bits
  import opened Limbs
  import opened WideShift
  import opened Targets

  /** Zero, or a mantissa that starts in its first two bytes, has nothing beyond its size, and fits 256 bits. */
  predicate Canonical(compact: u32) {
    var (size, m) := (SizeOf(compact), Mantissa(compact));
    compact == 0 ||
    (&& size > 0 && m >= 0x8000
     && (size == 1 ==> m % 0x1_0000 == 0) && (size == 2 ==> m % 0x100 == 0)
     && (size <= 32 || (size == 33 && m <= 0xffff)))
  }

  /** Reading a compact form and writing the number again gives it back exactly if it is canonical. */
  method SetGet(compact: u32) returns (r: u32)
    ensures r == compact <==> Canonical(compact)
  {
    var pn := new u32[WIDTH];
    var negative, overflow := SetCompact(pn, compact);
    ghost var v, w := Value(pn[..]), Weight(WIDTH);
    SmallMod(Magnitude(compact), w);
    ValBound(pn[..], WIDTH);
    r := GetCompact(pn, negative);
    CanonicalIff(compact);
    hide Canonical, Bytes, Lead, Magnitude, SizeOf, Mantissa, Signed, Weight, Pow2, Val;
    if Reproduced(compact) {
      BytesOnce(2 * v, SizeOf(r), SizeOf(compact));
      LeadOfZero(v, SizeOf(r));
      SameFields(r, compact);
    }
  }

  /** What is written for the magnitude of a compact form has its size, mantissa and sign. */
  ghost predicate Reproduced(compact: u32) {
    var (size, m, v) := (SizeOf(compact), Mantissa(compact), Magnitude(compact));
    v < Weight(WIDTH) && Bytes(2 * v, size) && m == Lead(v, size) && (Signed(compact) ==> m != 0)
  }

  lemma CanonicalIff(compact: u32)
    ensures Canonical(compact) <==> Reproduced(compact)
  {
    var (size, m, v) := (SizeOf(compact), Mantissa(compact), Magnitude(compact));
    ExactIff(size, m);
    OverflowIff(compact);
    if size == 0 {
      ZeroSize(compact);
    } else {
      assert v == MagnitudeOf(size, m) && m < 0x80_0000;
      hide Bytes, Lead, Magnitude, MagnitudeOf, Weight, Pow2, Signed;
      BytesIff(v, size);
    }
  }

  lemma ZeroSize(compact: u32)
    requires SizeOf(compact) == 0
    ensures Canonical(compact) <==> Reproduced(compact)
  {
    var m := Mantissa(compact);
    assert m < 0x80_0000 && Magnitude(compact) == Shr(m, 24);
    assert Lead(0, 0) == 0 && Bytes(0, 0);
    SmallWord(compact);
    CutAll(m);
    hide Pow2, Weight, Shr, Magnitude, Lead, Bytes;
  }

  lemma CutAll(m: nat)
    requires m < 0x80_0000
    ensures Shr(m, 24) == 0
  {
    ShrIs(m, 24);
    hide *;
    Powers();
    DivUnique(m, 0x100_0000, 0, m);
  }

  /** A mantissa is given back exactly if nothing of it is cut off. */
  lemma ExactIff(size: nat, m: nat)
    ensures m == Lead(MagnitudeOf(size, m), size) <==>
            size > 3 || size == 3 || (size == 2 && m % 0x100 == 0) || (size == 1 && m % 0x1_0000 == 0) || (size == 0 && m % 0x100_0000 == 0)
  {
    Powers();
    if size > 3 {
      ExactShr(m, 8 * (size - 3));
    } else {
      CutOff(m, 8 * (3 - size));
      assert m % 1 == 0;
    }
  }

  lemma CutOff(m: nat, e: nat)
    ensures Shr(m, e) * Pow2(e) == m <==> m % Pow2(e) == 0
  {
    assert m == Pow2(e) * (m / Pow2(e)) + m % Pow2(e);
  }

  /** The size is right exactly if the mantissa neither starts late nor reaches the sign. */
  lemma BytesIff(v: nat, size: nat)
    requires size > 0
    ensures Bytes(2 * v, size) <==> 0x8000 <= Lead(v, size) < 0x80_0000
  {
    hide Pow2, Lead;
    SignEdge(v, size);
    LateEdge(v, size);
  }

  lemma LateEdge(v: nat, size: nat)
    requires size > 0
    ensures Lead(v, size) >= 0x8000 <==> Pow2(8 * (size - 1)) <= 2 * v
  {
    if size == 1 {
      FirstByte(v);
    } else {
      hide *;
      assert 15 + 8 * size - 24 == 8 * (size - 1) - 1;
      LeadAtLeast(v, size, 15);
      EvenPower(8 * (size - 1));
      Powers();
    }
  }

  lemma FirstByte(v: nat)
    ensures Lead(v, 1) >= 0x8000 <==> Pow2(0) <= 2 * v
  {
    assert Lead(v, 1) == v * Pow2(16);
    hide Lead;
    Powers();
  }

  lemma BytesOnce(v: nat, m: nat, n: nat)
    requires Bytes(v, m) && Bytes(v, n)
    ensures m == n
  {
    hide Pow2;
    if m < n {
      Pow2Less(8 * m, 8 * (n - 1));
    } else if n < m {
      Pow2Less(8 * n, 8 * (m - 1));
    }
  }

  lemma LeadOfZero(v: nat, size: nat)
    ensures v == 0 ==> Lead(v, size) == 0
  {
  }

  lemma SameFields(r: u32, compact: u32)
    requires SizeOf(r) == SizeOf(compact) && Mantissa(r) == Mantissa(compact) && Signed(r) == Signed(compact)
    ensures r == compact
  {
  }
}
