/** The slots of a cuckoo cache, what is alive in them, and how it is counted. */
module CuckooSlots {

  datatype Element = Element(key: nat, value: nat)

  /** The table, the slots whose content may be discarded and those of the newest epoch. */
  datatype Slots = Slots(table: seq<Element>, collected: set<nat>, newest: set<nat>)

  // ---- What one slot contributes ----

  ghost function BagAt(s: Slots, i: nat): multiset<Element>
    requires i < |s.table|
  {
    if i in s.collected then multiset{} else multiset{s.table[i]}
  }

  ghost function FreshAt(s: Slots, i: nat): nat { if i !in s.collected && i in s.newest then 1 else 0 }

  ghost function StaleAt(s: Slots, i: nat): nat { if i !in s.collected && i !in s.newest then 1 else 0 }

  // ---- What the first slots contribute together ----

  /** The live elements. */
  ghost function Bag(s: Slots, n: nat): multiset<Element>
    requires n <= |s.table|
  {
    if n == 0 then multiset{} else Bag(s, n - 1) + BagAt(s, n - 1)
  }

  /** The number of live elements of the newest epoch. */
  ghost function Fresh(s: Slots, n: nat): nat { if n == 0 then 0 else Fresh(s, n - 1) + FreshAt(s, n - 1) }

  /** The number of live elements of the epoch before. */
  ghost function Stale(s: Slots, n: nat): nat { if n == 0 then 0 else Stale(s, n - 1) + StaleAt(s, n - 1) }

  ghost predicate SameBut(s: Slots, s': Slots, i: nat) {
    && |s.table| == |s'.table| && (forall k :: 0 <= k < |s.table| && k != i ==> s'.table[k] == s.table[k])
    && (forall k: nat :: k != i ==> (k in s.collected <==> k in s'.collected))
    && (forall k: nat :: k != i ==> (k in s.newest <==> k in s'.newest))
  }

  /** Changing one slot changes the sums by what that slot contributes. */
  lemma ChangeOne(s: Slots, s': Slots, i: nat, n: nat)
    requires SameBut(s, s', i) && i < n <= |s.table|
    ensures Bag(s', n) + BagAt(s, i) == Bag(s, n) + BagAt(s', i)
    ensures Fresh(s', n) + FreshAt(s, i) == Fresh(s, n) + FreshAt(s', i)
    ensures Stale(s', n) + StaleAt(s, i) == Stale(s, n) + StaleAt(s', i)
  {
    BagChange(s, s', i, n);
    CountChange(s, s', i, n);
  }

  lemma {:induction false} BagSame(s: Slots, s': Slots, i: nat, n: nat)
    requires SameBut(s, s', i) && n <= i && n <= |s.table|
    ensures Bag(s', n) == Bag(s, n)
  {
    if n != 0 {
      BagSame(s, s', i, n - 1);
      SameAt(s, s', i, n - 1);
    }
  }

  lemma {:induction false} BagChange(s: Slots, s': Slots, i: nat, n: nat)
    requires SameBut(s, s', i) && i < n <= |s.table|
    ensures Bag(s', n) + BagAt(s, i) == Bag(s, n) + BagAt(s', i)
  {
    assert |s'.table| == |s.table|;
    hide BagAt, SameBut;
    if i == n - 1 {
      BagSame(s, s', i, i);
      Swap(Bag(s, i), BagAt(s, i), BagAt(s', i), Bag(s, n), Bag(s', n));
    } else {
      BagChange(s, s', i, n - 1);
      SameAt(s, s', i, n - 1);
      Regroup(Bag(s, n - 1), Bag(s', n - 1), BagAt(s, n - 1), BagAt(s, i), BagAt(s', i), Bag(s, n), Bag(s', n));
    }
  }

  lemma SameAt(s: Slots, s': Slots, i: nat, k: nat)
    requires SameBut(s, s', i) && k != i && k < |s.table|
    ensures BagAt(s', k) == BagAt(s, k)
  {
  }

  lemma Regroup(a: multiset<Element>, a': multiset<Element>, x: multiset<Element>, c: multiset<Element>, c': multiset<Element>,
                b: multiset<Element>, b': multiset<Element>)
    requires a' + c == a + c' && b == a + x && b' == a' + x
    ensures b' + c == b + c'
  {
    assert b' + c == a' + c + x;
    assert b + c' == a + c' + x;
  }

  lemma Swap(a: multiset<Element>, c: multiset<Element>, c': multiset<Element>, b: multiset<Element>, b': multiset<Element>)
    requires b == a + c && b' == a + c'
    ensures b' + c == b + c'
  {
  }

  lemma {:induction false} CountChange(s: Slots, s': Slots, i: nat, n: nat)
    requires SameBut(s, s', i) && n <= |s.table|
    ensures i < n ==> Fresh(s', n) + FreshAt(s, i) == Fresh(s, n) + FreshAt(s', i)
    ensures i < n ==> Stale(s', n) + StaleAt(s, i) == Stale(s, n) + StaleAt(s', i)
    ensures i >= n ==> Fresh(s', n) == Fresh(s, n) && Stale(s', n) == Stale(s, n)
  {
    if n != 0 {
      CountChange(s, s', i, n - 1);
    }
  }

  /** Every live element is counted once. */
  lemma {:induction false} SizeOf(s: Slots, n: nat)
    requires n <= |s.table|
    ensures |Bag(s, n)| == Fresh(s, n) + Stale(s, n) <= n
    ensures Fresh(s, n) + Stale(s, n) < n ==> exists i: nat :: i < n && i in s.collected
  {
    if n != 0 {
      SizeOf(s, n - 1);
      if n - 1 in s.collected {
        assert n - 1 < n;
      }
    }
  }

  lemma {:induction false} InBag(s: Slots, n: nat, e: Element)
    requires n <= |s.table|
    ensures e in Bag(s, n) <==> exists i: nat :: i < n && i !in s.collected && s.table[i] == e
  {
    if n != 0 {
      InBag(s, n - 1, e);
    }
  }

  /** The next epoch begins: the old one may be discarded, the newest becomes the old one. */
  ghost predicate Aged(s: Slots, s': Slots, n: nat) {
    && s'.table == s.table
    && (forall i: nat :: i in s'.newest <==> i in s.newest && i >= n)
    && (forall i: nat :: i in s'.collected <==> i in s.collected || (i < n && i !in s.newest))
  }

  lemma {:induction false} AgedCounts(s: Slots, s': Slots, n: nat, m: nat)
    requires Aged(s, s', n) && m <= n && m <= |s.table|
    ensures Fresh(s', m) == 0 && Stale(s', m) == Fresh(s, m) && Bag(s', m) <= Bag(s, m)
  {
    if m != 0 {
      AgedCounts(s, s', n, m - 1);
    }
  }
}
