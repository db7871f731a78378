/** Arithmetic in place on numbers of a fixed number of 32-bit limbs, with 64-bit intermediate results. */
module WideArith {
  import opened Bits
  import opened Limbs

  const TWO64: nat := 0x1_0000_0000_0000_0000

  // ---- Addition and its relatives ----

  /** One limb of a result: of `n` times its weight, the low half stays and the high half is carried. */
  lemma Carried(w: nat, w': nat, n: nat)
    requires w' == w * BASE
    ensures (n % BASE) * w + (n / BASE) * w' == n * w
  {
    var (low, high) := (n % BASE, n / BASE);
    Associate(high, w, BASE);
    Distribute(w, low, high * BASE);
    Associate(w, high, BASE);
  }

  lemma Distribute2(a: int, b: int, w: int)
    ensures (a + b) * w == a * w + b * w
  {
  }

  lemma Distribute3(a: int, b: int, c: int, w: int)
    ensures (a + b + c) * w == a * w + b * w + c * w
  {
    Distribute(w, a + b, c);
    Distribute(w, a, b);
  }

  lemma AddStep(s: seq<u32>, t: seq<u32>, r: seq<u32>, r': seq<u32>, i: nat, carry: nat)
    requires |s| == |t| == |r| && i < |r| && Val(r, i) + carry * Weight(i) == Val(s, i) + Val(t, i)
    requires r' == r[i := (carry + s[i] + t[i]) % BASE]
    ensures Val(r', i + 1) + (carry + s[i] + t[i]) / BASE * Weight(i + 1) == Val(s, i + 1) + Val(t, i + 1)
  {
    ValSame(r, r', i);
    NextLimb(s, i);
    NextLimb(t, i);
    NextLimb(r', i);
    Carried(Weight(i), Weight(i + 1), carry + s[i] + t[i]);
    Distribute3(carry, s[i], t[i], Weight(i));
    hide *;
  }

  lemma NextLimb(s: seq<u32>, i: nat)
    requires i < |s|
    ensures Val(s, i + 1) == Val(s, i) + s[i] * Weight(i) && Weight(i + 1) == Weight(i) * BASE
  {
  }

  method Add(pn: array<u32>, b: array<u32>)
    requires pn.Length == b.Length
    modifies pn
    ensures Value(pn[..]) == (old(Value(pn[..])) + old(Value(b[..]))) % Weight(pn.Length)
  {
    hide Val, Weight;
    ghost var s, t, w := pn[..], b[..], pn.Length;
    var carry: nat := 0;
    NoLimbs(s, t);
    NoLimbs(pn[..], pn[..]);
    for i := 0 to pn.Length
      invariant carry <= 1
      invariant forall k :: i <= k < w ==> pn[k] == s[k] && b[k] == t[k]
      invariant Val(pn[..], i) + carry * Weight(i) == Val(s, i) + Val(t, i)
    {
      ghost var before := pn[..];
      var n := carry + pn[i] + b[i];
      assert n < TWO64;
      var low: u32 := n % BASE;
      AddStep(s, t, before, before[i := low], i, carry);
      pn[i] := low;
      assert pn[..] == before[i := low];
      carry := n / BASE;
    }
    Wrapped(pn[..], carry, Value(s) + Value(t));
  }

  lemma NoLimbs(s: seq<u32>, t: seq<u32>)
    ensures Val(s, 0) == 0 && Val(t, 0) == 0 && Weight(0) == 1
  {
  }

  /** The value left when the carry is dropped. */
  lemma Wrapped(s: seq<u32>, carry: nat, total: nat)
    requires Value(s) + carry * Weight(|s|) == total
    ensures Value(s) == total % Weight(|s|)
  {
    ValBound(s, |s|);
    DivUnique(total, Weight(|s|), carry, Value(s));
  }

  method Complement(pn: array<u32>) returns (r: array<u32>)
    ensures fresh(r) && r.Length == pn.Length && Value(r[..]) == Weight(pn.Length) - 1 - Value(pn[..])
  {
    r := new u32[pn.Length];
    for i := 0 to pn.Length
      invariant forall k :: 0 <= k < i ==> r[k] == BASE - 1 - pn[k]
    {
      r[i] := BASE - 1 - pn[i];
    }
    ComplementVal(pn[..], r[..], pn.Length);
  }

  lemma {:induction false} ComplementVal(s: seq<u32>, r: seq<u32>, n: nat)
    requires n <= |s| && n <= |r| && forall k :: 0 <= k < n ==> r[k] == BASE - 1 - s[k]
    ensures Val(r, n) + Val(s, n) + 1 == Weight(n)
  {
    if n != 0 {
      ComplementVal(s, r, n - 1);
      NextLimb(s, n - 1);
      NextLimb(r, n - 1);
      Distribute(Weight(n - 1), s[n - 1], r[n - 1]);
      Distribute(Weight(n - 1), BASE, -1);
      hide *;
    }
  }

  method Increment(pn: array<u32>)
    modifies pn
    ensures Value(pn[..]) == (old(Value(pn[..])) + 1) % Weight(pn.Length)
  {
    ghost var s := pn[..];
    var i := 0;
    while i < pn.Length
      invariant i <= pn.Length
      invariant forall k :: 0 <= k < i ==> pn[k] == 0 && s[k] == BASE - 1
      invariant forall k :: i <= k < pn.Length ==> pn[k] == s[k]
    {
      pn[i] := if pn[i] == BASE - 1 then 0 else pn[i] + 1;
      if pn[i] != 0 {
        break;
      }
      i := i + 1;
    }
    IncrementVal(s, pn[..], i);
  }

  lemma IncrementVal(s: seq<u32>, r: seq<u32>, i: nat)
    requires |r| == |s| && i <= |s| && forall k :: 0 <= k < i ==> r[k] == 0 && s[k] == BASE - 1
    requires i < |s| ==> r[i] as int == s[i] as int + 1 && forall k :: i < k < |s| ==> r[k] == s[k]
    ensures Value(r) == (Value(s) + 1) % Weight(|s|)
  {
    ComplementVal(s, r, i);
    ValZero(r, i);
    if i < |s| {
      NextLimb(s, i);
      NextLimb(r, i);
      SameAbove(s, r, i + 1, |s|);
      hide *;
      OneMore(s[i], r[i], Weight(i));
      NoCarry(r, Value(s) + 1);
    } else {
      hide *;
      Wrapped(r, 1, Value(s) + 1);
    }
  }

  lemma OneMore(x: nat, y: nat, w: nat)
    requires y == x + 1
    ensures y * w == x * w + w
  {
    Distribute2(x, 1, w);
  }

  lemma NoCarry(s: seq<u32>, total: nat)
    requires Value(s) == total
    ensures Value(s) == total % Weight(|s|)
  {
    Wrapped(s, 0, total);
  }

  lemma {:induction false} SameAbove(s: seq<u32>, r: seq<u32>, i: nat, n: nat)
    requires i <= n <= |s| && n <= |r| && forall k :: i <= k < n ==> r[k] == s[k]
    ensures Val(r, n) - Val(r, i) == Val(s, n) - Val(s, i)
  {
    if i < n {
      SameAbove(s, r, i, n - 1);
    }
  }

  method Negate(pn: array<u32>) returns (r: array<u32>)
    ensures fresh(r) && r.Length == pn.Length && Value(r[..]) == (Weight(pn.Length) - Value(pn[..])) % Weight(pn.Length)
  {
    r := Complement(pn);
    Increment(r);
  }

  method Subtract(pn: array<u32>, b: array<u32>)
    requires pn.Length == b.Length
    modifies pn
    ensures Value(pn[..]) == (old(Value(pn[..])) - old(Value(b[..]))) % Weight(pn.Length)
  {
    ValBound(b[..], b.Length);
    var negated := Negate(b);
    SubtractModulo(Value(pn[..]), Value(b[..]), Weight(pn.Length));
    Add(pn, negated);
  }

  lemma SubtractModulo(a: nat, b: nat, w: nat)
    requires b < w
    ensures (a + (w - b) % w) % w == (a - b) % w
  {
    if b == 0 {
      DivUnique(w, w, 1, 0);
    } else {
      DivUnique(w - b, w, 0, w - b);
      DivUnique(a + w - b, w, (a - b) / w + 1, (a - b) % w);
    }
  }

  // ---- Comparison ----

  method CompareTo(pn: array<u32>, b: array<u32>) returns (r: int)
    requires pn.Length == b.Length
    ensures r == if Value(pn[..]) < Value(b[..]) then -1 else if Value(pn[..]) > Value(b[..]) then 1 else 0
  {
    var i := pn.Length;
    while i > 0
      invariant 0 <= i <= pn.Length && forall k :: i <= k < pn.Length ==> pn[k] == b[k]
    {
      i := i - 1;
      if pn[i] < b[i] {
        HighestDecides(pn[..], b[..], i, pn.Length);
        return -1;
      }
      if pn[i] > b[i] {
        HighestDecides(b[..], pn[..], i, pn.Length);
        return 1;
      }
    }
    assert pn[..] == b[..];
    return 0;
  }

  // ---- Multiplication ----

  /** A product, kept whole. */
  function Times(a: nat, b: nat): nat { a * b }

  lemma ProductFits(carry: nat, x: nat, m: nat, y: nat)
    requires carry < BASE && x < BASE && m < BASE && y < BASE
    ensures carry + x + Times(m, y) < TWO64
  {
    MulBound(m, y, BASE - 1);
    MulBound(BASE - 1, m, BASE - 1);
  }

  lemma TimesMore(m: nat, v: nat, x: nat, w: nat, v': nat)
    requires v' == v + x * w
    ensures Times(m, v') == Times(m, v) + Times(m, x) * w
  {
    Distribute(m, v, x * w);
    Associate(m, x, w);
  }

  lemma MulStep32(s: seq<u32>, r: seq<u32>, r': seq<u32>, i: nat, carry: nat, m: nat)
    requires |s| == |r| && i < |r| && Val(r, i) + carry * Weight(i) == Times(m, Val(s, i))
    requires r' == r[i := (carry + Times(m, s[i])) % BASE]
    ensures Val(r', i + 1) + (carry + Times(m, s[i])) / BASE * Weight(i + 1) == Times(m, Val(s, i + 1))
  {
    ValSame(r, r', i);
    NextLimb(s, i);
    NextLimb(r', i);
    hide *;
    TimesMore(m, Val(s, i), s[i], Weight(i), Val(s, i + 1));
    Carried(Weight(i), Weight(i + 1), carry + Times(m, s[i]));
    Distribute2(carry, Times(m, s[i]), Weight(i));
  }

  method Multiply32(pn: array<u32>, m: u32)
    modifies pn
    ensures Value(pn[..]) == (old(Value(pn[..])) * m) % Weight(pn.Length)
  {
    ghost var s := pn[..];
    var carry: nat := 0;
    NoLimbs(s, s);
    assert Times(m, 0) == 0;
    hide Val, Weight, Times;
    for i := 0 to pn.Length
      invariant carry < BASE
      invariant forall k :: i <= k < pn.Length ==> pn[k] == s[k]
      invariant Val(pn[..], i) + carry * Weight(i) == Times(m, Val(s, i))
    {
      ghost var before := pn[..];
      ProductFits(carry, 0, m, pn[i]);
      var n := carry + Times(m, pn[i]);
      assert n < TWO64;
      var low: u32 := n % BASE;
      MulStep32(s, before, before[i := low], i, carry, m);
      pn[i] := low;
      assert pn[..] == before[i := low];
      carry := n / BASE;
    }
    Wrapped(pn[..], carry, Times(m, Value(s)));
    assert Times(m, Value(s)) == Value(s) * m by { TimesIs(m, Value(s)); }
  }

  lemma TimesIs(a: nat, b: nat)
    ensures Times(a, b) == b * a
  {
  }

  /** One limb of one row of a long multiplication. */
  lemma MulStep(b: seq<u32>, acc: seq<u32>, r: seq<u32>, r': seq<u32>, j: nat, i: nat, carry: nat, m: nat)
    requires |acc| == |r| && i + j < |r| && i < |b| && r[i + j] == acc[i + j]
    requires Val(r, i + j) + carry * Weight(i + j) == Val(acc, i + j) + Times(m, Val(b, i)) * Weight(j)
    requires r' == r[i + j := (carry + acc[i + j] + Times(m, b[i])) % BASE]
    ensures Val(r', i + j + 1) + (carry + acc[i + j] + Times(m, b[i])) / BASE * Weight(i + j + 1) ==
            Val(acc, i + j + 1) + Times(m, Val(b, i + 1)) * Weight(j)
  {
    ValSame(r, r', i + j);
    NextLimb(b, i);
    NextLimb(acc, i + j);
    NextLimb(r', i + j);
    WeightSum(i, j);
    hide *;
    TimesMore(m, Val(b, i), b[i], Weight(i), Val(b, i + 1));
    Distribute2(Times(m, Val(b, i)), Times(m, b[i]) * Weight(i), Weight(j));
    Associate(Times(m, b[i]), Weight(i), Weight(j));
    Carried(Weight(i + j), Weight(i + j + 1), carry + acc[i + j] + Times(m, b[i]));
    Distribute3(carry, acc[i + j], Times(m, b[i]), Weight(i + j));
  }

  /** A row of a long multiplication, without the limbs that do not fit. */
  lemma RowDone(s: seq<u32>, b: seq<u32>, acc: nat, acc': nat, j: nat, carry: nat, q: nat) returns (q': nat)
    requires |s| == |b| && j < |s| && acc + q * Weight(|s|) == Times(Val(s, j), Value(b))
    requires acc' + carry * Weight(|s|) == acc + Times(s[j], Val(b, |s| - j)) * Weight(j)
    ensures acc' + q' * Weight(|s|) == Times(Val(s, j + 1), Value(b))
  {
    var (w, high) := (|s|, Val(b[|s| - j..], j));
    NextLimb(s, j);
    ValSplit(b, w - j, w);
    WeightSum(w - j, j);
    assert Value(b) == Val(b, w - j) + Weight(w - j) * high;
    hide *;
    q' := q + carry + Times(s[j], high);
    RowAlgebra(acc, acc', Val(s, j), s[j], Weight(j), Val(b, w - j), Weight(w - j), high, q, carry, Weight(w), Value(b));
  }

  lemma RowAlgebra(acc: nat, acc': nat, v: nat, x: nat, wj: nat, low: nat, k: nat, high: nat, q: nat, carry: nat, w: nat, b: nat)
    requires w == k * wj && b == low + k * high
    requires acc + q * w == Times(v, b) && acc' + carry * w == acc + Times(x, low) * wj
    ensures acc' + (q + carry + Times(x, high)) * w == Times(v + x * wj, b)
  {
    Distribute3(q, carry, Times(x, high), w);
    RowProduct(v, x, wj, low, k, high, w, b);
    hide *;
  }

  lemma RowProduct(v: nat, x: nat, wj: nat, low: nat, k: nat, high: nat, w: nat, b: nat)
    requires w == k * wj && b == low + k * high
    ensures Times(v + x * wj, b) == Times(v, b) + Times(x, low) * wj + Times(x, high) * w
  {
    Distribute2(v, x * wj, b);
    Distribute(x * wj, low, k * high);
    Rearrange(x, wj, low);
    Rearrange4(x, wj, k, high);
  }

  lemma Rearrange(a: int, b: int, c: int)
    ensures (a * b) * c == (a * c) * b
  {
    Associate(a, b, c);
    Associate(a, c, b);
  }

  lemma Rearrange4(x: int, w: int, k: int, h: int)
    ensures (x * w) * (k * h) == (x * h) * (k * w)
  {
    Associate(x, w, k * h);
    Associate(x, h, k * w);
    Commute(w, k, h);
    Commute(h, k, w);
  }

  /** Long multiplication, row by row. */
  method Multiply(pn: array<u32>, b: array<u32>)
    requires pn.Length == b.Length
    modifies pn
    ensures Value(pn[..]) == (old(Value(pn[..])) * old(Value(b[..]))) % Weight(pn.Length)
  {
    ghost var s, t := pn[..], b[..];
    var a := new u32[pn.Length](_ => 0);
    ghost var q: nat := 0;
    NothingYet(a[..], s, t);
    hide *;
    for j := 0 to pn.Length
      invariant pn[..] == s && b[..] == t
      invariant Value(a[..]) + q * Weight(pn.Length) == Times(Val(s, j), Value(t))
    {
      ghost var before := a[..];
      var carry := MultiplyRow(a, b, pn[j], j);
      q := RowDone(s, t, Value(before), Value(a[..]), j, carry, q);
    }
    Wrapped(a[..], q, Times(Value(s), Value(t)));
    TimesIs(Value(t), Value(s));
    TimesCommutes(Value(s), Value(t));
    Copy(pn, a);
  }

  lemma NothingYet(a: seq<u32>, s: seq<u32>, t: seq<u32>)
    requires forall k :: 0 <= k < |a| ==> a[k] == 0
    ensures Value(a) == 0 == Times(Val(s, 0), Value(t))
  {
    ValZero(a, |a|);
  }

  lemma TimesCommutes(a: nat, b: nat)
    ensures Times(a, b) == Times(b, a)
  {
  }

  method Copy(pn: array<u32>, b: array<u32>)
    requires pn.Length == b.Length
    modifies pn
    ensures pn[..] == old(b[..])
  {
    for i := 0 to pn.Length
      invariant forall k :: 0 <= k < i ==> pn[k] == old(b[k])
      invariant forall k :: i <= k < pn.Length ==> b[k] == old(b[k])
    {
      pn[i] := b[i];
    }
  }

  method MultiplyRow(a: array<u32>, b: array<u32>, m: u32, j: nat) returns (carry: nat)
    requires a.Length == b.Length && j < a.Length && a != b
    modifies a
    ensures Value(a[..]) + carry * Weight(a.Length) == old(Value(a[..])) + Times(m, Val(b[..], a.Length - j)) * Weight(j)
  {
    carry := 0;
    var i := 0;
    ghost var acc, t := a[..], b[..];
    FirstOfRow(acc, t, m, j);
    hide *;
    while i + j < a.Length
      invariant 0 <= i <= a.Length - j && carry < BASE && b[..] == t
      invariant forall k :: i + j <= k < a.Length ==> a[k] == acc[k]
      invariant Val(a[..], i + j) + carry * Weight(i + j) == Val(acc, i + j) + Times(m, Val(t, i)) * Weight(j)
    {
      ghost var r := a[..];
      ProductFits(carry, a[i + j], m, b[i]);
      var n := carry + a[i + j] + Times(m, b[i]);
      assert n < TWO64;
      var low: u32 := n % BASE;
      MulStep(t, acc, r, r[i + j := low], j, i, carry, m);
      a[i + j] := low;
      assert a[..] == r[i + j := low];
      carry := n / BASE;
      i := i + 1;
    }
  }

  lemma FirstOfRow(acc: seq<u32>, t: seq<u32>, m: nat, j: nat)
    requires j <= |acc|
    ensures Times(m, Val(t, 0)) * Weight(j) == 0
  {
  }
}
