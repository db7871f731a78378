/** A cuckoo cache: every element has eight places; insertion displaces along a chain; elements are
    discarded lazily, an epoch at a time. */
module CuckooCache {
  import opened CuckooSlots

  const TWO32: nat := 0x1_0000_0000

  /** Eight hash functions of a key, chosen by number. */
  datatype Hasher = Hasher(hash: (nat, nat) -> nat)

  /** Maps a 32-bit number onto a range by multiplication. */
  function FastRange32(x: nat, n: nat): nat { x * n / TWO32 }

  /** The share of the range that lies below the number, rounded down. */
  lemma FastRangeBound(x: nat, n: nat)
    requires x < TWO32 && n > 0
    ensures var r := FastRange32(x, n); r < n && r * 0x1_0000_0000 <= x * n < (r + 1) * 0x1_0000_0000
  {
    assert x * n < TWO32 * n by { assert (TWO32 - x) * n > 0; }
    assert x * n / TWO32 < n;
  }

  /** A slot is the place that hash function number `k` gives a key. */
  ghost predicate IsPlace(h: Hasher, size: nat, key: nat, k: nat, loc: nat) {
    loc * 0x1_0000_0000 <= (h.hash(k, key) % 0x1_0000_0000) * size < (loc + 1) * 0x1_0000_0000
  }

  /** A slot is one of the eight places of a key. */
  ghost predicate Home(h: Hasher, size: nat, key: nat, loc: nat) {
    exists k :: 0 <= k < 8 && IsPlace(h, size, key, k, loc)
  }

  /** An element put where its key is already: the slot is in the newest epoch and not to be discarded. */
  ghost predicate Renews(h: Hasher, size: nat, s: Slots, e: Element, replace: bool, s': Slots, loc: nat, added: Element) {
    && loc < |s.table| && Home(h, size, e.key, loc) && s.table[loc].key == e.key
    && s' == Slots(if replace then s.table[loc := e] else s.table, s.collected - {loc}, s.newest + {loc})
    && added == if replace then e else s.table[loc]
  }

  function Loc(h: Hasher, size: nat, key: nat, k: nat): nat { FastRange32(h.hash(k, key) % TWO32, size) }

  /** The places of a key. */
  function Locs(h: Hasher, size: nat, key: nat): seq<nat> {
    [Loc(h, size, key, 0), Loc(h, size, key, 1), Loc(h, size, key, 2), Loc(h, size, key, 3),
     Loc(h, size, key, 4), Loc(h, size, key, 5), Loc(h, size, key, 6), Loc(h, size, key, 7)]
  }

  lemma LocsInRange(h: Hasher, size: nat, key: nat)
    requires size > 0
    ensures |Locs(h, size, key)| == 8 && forall k :: 0 <= k < 8 ==> Locs(h, size, key)[k] < size
    ensures forall k, loc: nat :: 0 <= k < 8 ==> (IsPlace(h, size, key, k, loc) <==> Locs(h, size, key)[k] == loc)
  {
    forall k | 0 <= k < 8
      ensures Locs(h, size, key)[k] == Loc(h, size, key, k) < size
      ensures forall loc: nat :: IsPlace(h, size, key, k, loc) <==> loc == Loc(h, size, key, k)
    {
      FastRangeBound(h.hash(k, key) % TWO32, size);
      forall loc: nat
        ensures IsPlace(h, size, key, k, loc) <==> loc == Loc(h, size, key, k)
      {
        OnlyPlace(h, size, key, k, loc);
      }
    }
  }

  lemma OnlyPlace(h: Hasher, size: nat, key: nat, k: nat, loc: nat)
    requires size > 0
    ensures IsPlace(h, size, key, k, loc) <==> loc == Loc(h, size, key, k)
  {
    FastRangeBound(h.hash(k, key) % TWO32, size);
  }

  /** Being among the places is being given by one of the eight hash functions. */
  lemma HomeIff(h: Hasher, size: nat, key: nat)
    requires size > 0
    ensures forall loc: nat :: Home(h, size, key, loc) <==> loc in Locs(h, size, key)
  {
    LocsInRange(h, size, key);
    hide Locs, IsPlace;
    forall loc: nat
      ensures Home(h, size, key, loc) <==> loc in Locs(h, size, key)
    {
      if loc in Locs(h, size, key) {
        var k :| 0 <= k < 8 && Locs(h, size, key)[k] == loc;
        assert IsPlace(h, size, key, k, loc);
      }
    }
  }

  /** Every live element is at one of its own places. */
  ghost predicate Located(h: Hasher, size: nat, s: Slots) {
    forall i: nat :: i < |s.table| && i !in s.collected ==> i in Locs(h, size, s.table[i].key)
  }

  function Max(a: nat, b: nat): nat { if a < b then b else a }

  /** Computed in 32 bits. */
  function EpochSize(size: nat): nat { Max(1, 45 * size % TWO32 / 100) }

  /** What the live elements of an epoch never exceed. */
  function Bound(epochSize: nat): nat { epochSize + Max(1, epochSize / 16) }

  /** An epoch is 45% of the slots, as meant, exactly while the product fits into 32 bits. */
  lemma EpochSizeMeant(size: nat)
    requires 2 <= size < TWO32
    ensures EpochSize(size) == Max(1, 45 * size / 100) <==> size <= 95443717
  {
    if size > 95443717 {
      assert 45 * size % TWO32 <= 45 * size - TWO32;
    }
  }

  /** What the size of an epoch is in any case: 45 hundredths of what is left of the slots modulo 2^32, or 1. */
  lemma EpochSizeIs(size: nat)
    ensures var (e, n) := (EpochSize(size), 45 * size % 0x1_0000_0000);
            e >= 1 && (e > 1 ==> 100 * e <= n) && n < 100 * (e + 1)
  {
  }

  /** With more than 20 slots, two full epochs leave a slot over. */
  lemma RoomLeft(size: nat)
    requires 20 < size < TWO32
    ensures 2 * Bound(EpochSize(size)) < size
  {
    var e := EpochSize(size);
    assert 45 * size % TWO32 <= 45 * size;
    assert 100 * e <= 45 * size || e == 1;
  }

  function FirstSlots(n: nat): (r: set<nat>)
    ensures forall i: nat :: i in r <==> i < n
  {
    if n == 0 then {} else FirstSlots(n - 1) + {n - 1}
  }

  lemma {:induction false} NothingLive(s: Slots, n: nat)
    requires n <= |s.table| && forall i: nat :: i < n ==> i in s.collected
    ensures Bag(s, n) == multiset{} && Fresh(s, n) == 0 && Stale(s, n) == 0
  {
    if n != 0 {
      NothingLive(s, n - 1);
    }
  }

  /** A live element is found, being at one of its places. */
  lemma LiveIsFound(h: Hasher, size: nat, s: Slots, key: nat)
    requires |s.table| == size && Located(h, size, s)
    ensures (exists x :: x in Bag(s, size) && x.key == key) ==>
              exists k :: 0 <= k < 8 && Locs(h, size, key)[k] < size && s.table[Locs(h, size, key)[k]].key == key
  {
    if x :| x in Bag(s, size) && x.key == key {
      InBag(s, size, x);
      var i: nat :| i < size && i !in s.collected && s.table[i] == x;
      var k :| 0 <= k < 8 && Locs(h, size, key)[k] == i;
    }
  }

  lemma ErasedEffect(h: Hasher, size: nat, s: Slots, loc: nat)
    requires |s.table| == size && loc < size && Located(h, size, s)
    ensures var s' := s.(collected := s.collected + {loc});
            && Located(h, size, s') && Bag(s', size) + BagAt(s, loc) == Bag(s, size)
            && Fresh(s', size) <= Fresh(s, size) && Stale(s', size) <= Stale(s, size)
  {
    var s' := s.(collected := s.collected + {loc});
    assert SameBut(s, s', loc);
    ChangeOne(s, s', loc, size);
    assert Bag(s, size) + BagAt(s', loc) == Bag(s, size);
  }

  function Written(s: Slots, loc: nat, e: Element, epoch: bool): Slots
    requires loc < |s.table|
  {
    Slots(s.table[loc := e], s.collected - {loc}, if epoch then s.newest + {loc} else s.newest - {loc})
  }

  function One(b: bool): nat { if b then 1 else 0 }

  /** Writing to a slot, with what was alive in it before. */
  lemma WrittenEffect(h: Hasher, size: nat, s: Slots, loc: nat, e: Element, epoch: bool)
    requires |s.table| == size && loc < size && Located(h, size, s) && loc in Locs(h, size, e.key)
    ensures var s' := Written(s, loc, e, epoch);
            && |s'.table| == size && Located(h, size, s')
            && Bag(s', size) + BagAt(s, loc) == Bag(s, size) + multiset{e}
            && Fresh(s', size) + FreshAt(s, loc) == Fresh(s, size) + One(epoch)
            && Stale(s', size) + StaleAt(s, loc) == Stale(s, size) + One(!epoch)
  {
    var s' := Written(s, loc, e, epoch);
    assert SameBut(s, s', loc);
    ChangeOne(s, s', loc, size);
  }

  class Cache {
    const hasher: Hasher
    const size: nat
    const depthLimit: nat
    const epochSize: nat
    var table: seq<Element>
    var collected: set<nat>
    var newest: set<nat>
    var counter: nat

    ghost function S(): Slots
      reads this
    {
      Slots(table, collected, newest)
    }

    ghost predicate Shaped()
      reads this
    {
      |table| == size && 2 <= size < TWO32 && epochSize >= 1 && Located(hasher, size, S())
    }

    /** The live elements. */
    ghost function Contents(): multiset<Element>
      requires Shaped()
      reads this
    {
      Bag(S(), size)
    }

    ghost function Recent(): nat
      reads this
    {
      Fresh(S(), size)
    }

    ghost function Old(): nat
      reads this
    {
      Stale(S(), size)
    }

    ghost predicate Valid()
      reads this
    {
      && Shaped() && epochSize == EpochSize(size)
      && Recent() + counter <= Bound(epochSize) && Old() <= Bound(epochSize)
    }

    /** Everything may be overwritten at first. */
    constructor (hasher: Hasher, newSize: nat, depthLimit: nat)
      requires newSize < TWO32
      ensures Valid() && this.hasher == hasher && size == (if newSize < 2 then 2 else newSize) && this.depthLimit == depthLimit
      ensures Contents() == multiset{}
    {
      this.hasher, this.depthLimit := hasher, depthLimit;
      size := if newSize < 2 then 2 else newSize;
      table := seq(if newSize < 2 then 2 else newSize, (_: nat) => Element(0, 0));
      collected := FirstSlots(if newSize < 2 then 2 else newSize);
      newest, epochSize := {}, EpochSize(if newSize < 2 then 2 else newSize);
      counter := EpochSize(if newSize < 2 then 2 else newSize);
      new;
      NothingLive(S(), size);
    }

    // ---- Epochs ----

    /** Counts the live elements of the newest epoch once in a while, and starts the next epoch when they
        are enough. */
    method EpochCheck()
      requires Valid()
      modifies this`collected, this`newest, this`counter
      ensures Shaped() && Contents() <= old(Contents()) && Recent() + 1 + counter <= Bound(epochSize) && Old() <= Bound(epochSize)
      ensures old(counter) > 0 || old(Recent()) < epochSize ==> Contents() == old(Contents())
      ensures old(counter) == 0 && old(Recent()) >= epochSize ==>
                counter == epochSize && Aged(old(S()), S(), size) && Recent() == 0 && Old() == old(Recent())
      ensures old(counter) > 0 || old(Recent()) < epochSize ==> newest == old(newest) && collected == old(collected)
      ensures old(counter) > 0 ==> counter == old(counter) - 1
      ensures old(counter) == 0 && old(Recent()) < epochSize ==>
                counter == Max(1, Max(epochSize / 16, epochSize - old(Recent())))
    {
      if counter != 0 {
        counter := counter - 1;
        return;
      }
      var count := CountRecent();
      if count >= epochSize {
        Age();
        counter := epochSize;
      } else {
        counter := Max(1, Max(epochSize / 16, epochSize - count));
      }
    }

    method CountRecent() returns (count: nat)
      requires Shaped()
      ensures count == Recent()
    {
      count := 0;
      for i := 0 to size
        invariant count == Fresh(S(), i)
      {
        count := count + if i in newest && i !in collected then 1 else 0;
      }
    }

    method Age()
      requires Shaped()
      modifies this`collected, this`newest
      ensures Shaped() && Recent() == 0 && Old() == old(Recent()) && Contents() <= old(Contents())
      ensures Aged(old(S()), S(), size)
    {
      ghost var s := S();
      for i := 0 to size
        invariant Aged(s, S(), i)
      {
        if i in newest {
          newest := newest - {i};
        } else {
          collected := collected + {i};
        }
      }
      AgedCounts(s, S(), size, size);
    }

    /** What was alive stays, except for one element, or for the old epoch as well when a new one begins. */
    method Insert(e: Element, replace: bool) returns (ghost kept: multiset<Element>, ghost added: Element, ghost lost: multiset<Element>)
      requires Valid()
      modifies this`table, this`collected, this`newest, this`counter
      ensures Valid() && Contents() + lost == kept + multiset{added} && |lost| <= 1 && added.key == e.key && (replace ==> added == e)
      ensures (forall loc :: 0 <= loc < |old(table)| && Home(hasher, size, e.key, loc) ==> old(table)[loc].key != e.key) ==> added == e
      ensures kept <= old(Contents()) && (old(counter) > 0 || old(Recent()) < epochSize ==> kept == old(Contents()))
    {
      hide Bag, Fresh, Stale, Located, Locs, Home;
      EpochCheck();
      kept := Contents();
      added, lost := Put(e, replace);
    }

    // ---- Lookup ----

    /** Finds whatever is in the table, discarded or not; if asked to, allows it to be discarded. */
    method Find(key: nat, erase: bool) returns (found: bool, e: Element)
      requires Valid()
      modifies this`collected
      ensures Valid() && Contents() <= old(Contents()) && |old(Contents())| <= |Contents()| + 1
      ensures found ==> e.key == key && e in table && (old(Contents()) != Contents() ==> old(Contents()) == Contents() + multiset{e})
      ensures !erase || !found ==> collected == old(collected)
      ensures erase && found ==> exists loc ::
                0 <= loc < |table| && Home(hasher, size, key, loc) && table[loc] == e && collected == old(collected) + {loc}
      ensures found <==> exists loc :: 0 <= loc < |table| && Home(hasher, size, key, loc) && table[loc].key == key
      ensures (exists x :: x in old(Contents()) && x.key == key) ==> found
    {
      hide Bag, Fresh, Stale, Located, Locs, Home;
      var locs := Locs(hasher, size, key);
      LocsFacts(hasher, size, key);
      HomeIff(hasher, size, key);
      var k := FindKey(locs, key);
      LiveIsFound(hasher, size, S(), key);
      if k < 8 {
        found, e := true, table[locs[k]];
        if erase {
          ErasedEffect(hasher, size, S(), locs[k]);
          collected := collected + {locs[k]};
        }
      } else {
        found, e := false, Element(0, 0);
      }
    }

    // ---- Looking at the eight places ----

    /** The first place whose content has the key, or 8. */
    method FindKey(locs: seq<nat>, key: nat) returns (k: nat)
      requires |locs| == 8 && forall j :: 0 <= j < 8 ==> locs[j] < |table|
      ensures k <= 8 && (k < 8 ==> table[locs[k]].key == key) && forall j :: 0 <= j < k ==> table[locs[j]].key != key
    {
      k := 0;
      while k < 8 && table[locs[k]].key != key
        invariant k <= 8 && forall j :: 0 <= j < k ==> table[locs[j]].key != key
      {
        k := k + 1;
      }
    }

    /** The first place that may be overwritten, or 8. */
    method FindFree(locs: seq<nat>) returns (k: nat)
      requires |locs| == 8
      ensures k <= 8 && (k < 8 ==> locs[k] in collected) && forall j :: 0 <= j < k ==> locs[j] !in collected
    {
      k := 0;
      while k < 8 && locs[k] !in collected
        invariant k <= 8 && forall j :: 0 <= j < k ==> locs[j] !in collected
      {
        k := k + 1;
      }
    }

    // ---- Insertion ----

    /** An element with the same key is kept, or replaced if asked to; otherwise the element takes a free
        place, displacing others on the way. At most one element is lost, whatever the chain. */
    method Put(e: Element, replace: bool) returns (ghost added: Element, ghost lost: multiset<Element>)
      requires Shaped()
      modifies this`table, this`collected, this`newest
      ensures Shaped() && Contents() + lost == old(Contents()) + multiset{added} && |lost| <= 1
      ensures Recent() <= old(Recent()) + 1 && Old() <= old(Old())
      ensures added.key == e.key && (replace ==> added == e)
      ensures (forall loc :: 0 <= loc < |old(table)| && Home(hasher, size, e.key, loc) ==> old(table)[loc].key != e.key) ==> added == e
      ensures (exists loc :: 0 <= loc < |old(table)| && Home(hasher, size, e.key, loc) && old(table)[loc].key == e.key) ==>
                exists loc: nat :: Renews(hasher, size, old(S()), e, replace, S(), loc, added)
      ensures depthLimit > 0 && (exists loc: nat :: loc in old(collected) && Home(hasher, size, e.key, loc)) ==> forall x :: x in lost ==> x.key == e.key
    {
      hide Bag, Fresh, Stale, Located, Locs, Home, Chain;
      var locs := Locs(hasher, size, e.key);
      LocsFacts(hasher, size, e.key);
      HomeIff(hasher, size, e.key);
      var k := FindKey(locs, e.key);
      if k < 8 {
        var loc := locs[k];
        added, lost := if replace then e else table[loc], BagAt(S(), loc);
        WrittenEffect(hasher, size, S(), loc, added, true);
        if replace {
          table := table[loc := e];
        } else {
          assert table == table[loc := added];
        }
        collected := collected - {loc};
        newest := newest + {loc};
        assert Renews(hasher, size, old(S()), e, replace, S(), loc, added);
        return;
      }
      added := e;
      ghost var tables, moved, path;
      lost, tables, moved, path := PutNew(e);
    }

    /** Writes an element to a free place of its own. */
    method Settle(e: Element, epoch: bool, loc: nat)
      requires Shaped() && loc in Locs(hasher, size, e.key) && loc < size && loc in collected
      modifies this`table, this`collected, this`newest
      ensures Shaped() && table == old(table)[loc := e]
      ensures Contents() == old(Contents()) + multiset{e}
      ensures Recent() == old(Recent()) + One(epoch) && Old() == old(Old()) + One(!epoch)
    {
      hide Bag, Fresh, Stale, Located, Locs;
      WrittenEffect(hasher, size, S(), loc, e, epoch);
      table := table[loc := e];
      collected := collected - {loc};
      newest := if epoch then newest + {loc} else newest - {loc};
    }

    /** Writes an element to a taken place of its own, pushing out the one there. */
    method Push(e: Element, epoch: bool, loc: nat) returns (e': Element, epoch': bool)
      requires Shaped() && loc in Locs(hasher, size, e.key) && loc < size && loc !in collected
      modifies this`table, this`newest
      ensures Shaped() && e' == old(table)[loc] && table == old(table)[loc := e] && loc in Locs(hasher, size, e'.key)
      ensures Contents() + multiset{e'} == old(Contents()) + multiset{e}
      ensures Recent() + One(epoch') == old(Recent()) + One(epoch) && Old() + One(!epoch') == old(Old()) + One(!epoch)
    {
      hide Bag, Fresh, Stale, Located, Locs;
      LiveAt(hasher, size, S(), loc);
      WrittenEffect(hasher, size, S(), loc, e, epoch);
      assert collected == collected - {loc};
      e', table := table[loc], table[loc := e];
      epoch' := loc in newest;
      newest := if epoch then newest + {loc} else newest - {loc};
    }

    method PutNew(e0: Element)
      returns (ghost lost: multiset<Element>, ghost tables: seq<seq<Element>>, ghost moved: seq<Element>, ghost path: seq<nat>)
      requires Shaped()
      modifies this`table, this`collected, this`newest
      ensures Shaped() && Contents() + lost == old(Contents()) + multiset{e0} && |lost| <= 1
      ensures Recent() <= old(Recent()) + 1 && Old() <= old(Old())
      ensures depthLimit > 0 && (exists loc: nat :: loc in old(collected) && Home(hasher, size, e0.key, loc)) ==> lost == multiset{}
      ensures Chain(hasher, size, old(table), e0, tables, moved, path) && |path| <= depthLimit
      ensures lost != multiset{} ==> |path| == depthLimit && table == Last(tables) && lost == multiset{Last(moved)}
      ensures lost == multiset{} ==> Settles(hasher, size, Last(tables), old(collected), Last(moved), table)
    {
      hide Bag, Fresh, Stale, Located, Locs, Home, Chain, Settles;
      ChainStarts(hasher, size, table, e0);
      tables, moved, path := [table], [e0], [];
      var e, lastEpoch, lastLoc: nat := e0, true, TWO32 - 1;
      var locs := Locs(hasher, size, e.key);
      for depth := 0 to depthLimit
        invariant Shaped() && locs == Locs(hasher, size, e.key)
        invariant Contents() + multiset{e} == old(Contents()) + multiset{e0}
        invariant Recent() + One(lastEpoch) == old(Recent()) + 1 && Old() + One(!lastEpoch) == old(Old())
        invariant collected == old(collected) && (depth == 0 ==> e == e0)
        invariant depth > 0 ==> forall loc :: loc in Locs(hasher, size, e0.key) ==> loc !in old(collected)
        invariant Chain(hasher, size, old(table), e0, tables, moved, path) && |path| == depth
        invariant |tables| == |moved| == depth + 1 && Last(tables) == table && Last(moved) == e
        invariant lastLoc == (if depth == 0 then TWO32 - 1 else Last(path)) && (depth > 0 ==> lastLoc in locs)
      {
        LocsFacts(hasher, size, e.key);
        HomeIff(hasher, size, e.key);
        var k := FindFree(locs);
        if k < 8 {
          SettlesAt(hasher, size, table, collected, e, locs[k]);
          Settle(e, lastEpoch, locs[k]);
          lost := multiset{};
          return;
        }
        assert forall loc :: loc in locs ==> loc !in collected;
        var at := IndexOf(locs, lastLoc);
        ChainGrows(hasher, size, old(table), e0, tables, moved, path, at);
        lastLoc := locs[(1 + at) % 8];
        e, lastEpoch := Push(e, lastEpoch, lastLoc);
        locs := Locs(hasher, size, e.key);
        tables, moved, path := tables + [table], moved + [e], path + [lastLoc];
      }
      HomeIff(hasher, size, e0.key);
      lost := multiset{e};
    }
  }

  // ---- Displacement ----

  ghost function Last<T>(s: seq<T>): T
    requires s != []
  {
    s[|s| - 1]
  }

  /** Elements pushed out one after the other: each takes the place following the one it was pushed out
      of, and the first one its second place. */
  ghost predicate Chain(h: Hasher, size: nat, table: seq<Element>, e: Element, tables: seq<seq<Element>>, moved: seq<Element>, path: seq<nat>) {
    && |tables| == |moved| == |path| + 1 && tables[0] == table && moved[0] == e
    && (forall d :: 0 <= d < |path| ==>
          && path[d] < |tables[d]| && moved[d + 1] == tables[d][path[d]] && tables[d + 1] == tables[d][path[d] := moved[d]])
    && (path != [] ==> IsPlace(h, size, e.key, 1, path[0]))
    && (forall d :: 0 < d < |path| ==> GoesOn(h, size, moved[d].key, path[d - 1], path[d]))
  }

  /** An element takes a free place of its own. */
  ghost predicate Settles(h: Hasher, size: nat, table: seq<Element>, free: set<nat>, e: Element, table': seq<Element>) {
    exists loc :: 0 <= loc < |table| && loc in free && Home(h, size, e.key, loc) && table' == table[loc := e]
  }

  lemma SettlesAt(h: Hasher, size: nat, table: seq<Element>, free: set<nat>, e: Element, loc: nat)
    requires loc < |table| && loc in free && Home(h, size, e.key, loc)
    ensures Settles(h, size, table, free, e, table[loc := e])
  {
    hide Home;
  }

  /** One place of a key follows another in the order of the hash functions, the first after the last. */
  ghost predicate GoesOn(h: Hasher, size: nat, key: nat, from: nat, to: nat) {
    exists k :: 0 <= k < 8 && IsPlace(h, size, key, k, from) && IsPlace(h, size, key, if k == 7 then 0 else k + 1, to)
                && forall j :: 0 <= j < k ==> !IsPlace(h, size, key, j, from)
  }

  lemma LiveAt(h: Hasher, size: nat, s: Slots, loc: nat)
    requires Located(h, size, s) && loc < |s.table| && loc !in s.collected
    ensures loc in Locs(h, size, s.table[loc].key)
  {
  }

  lemma ChainStarts(h: Hasher, size: nat, table: seq<Element>, e: Element)
    ensures Chain(h, size, table, e, [table], [e], [])
  {
  }

  lemma ChainGrows(h: Hasher, size: nat, table: seq<Element>, e: Element, tables: seq<seq<Element>>, moved: seq<Element>, path: seq<nat>, at: nat)
    requires 0 < size < TWO32 && Chain(h, size, table, e, tables, moved, path) && |Last(tables)| == size && at <= 8
    requires var (locs, from) := (Locs(h, size, Last(moved).key), if path == [] then TWO32 - 1 else Last(path));
             |locs| == 8 && (at < 8 ==> locs[at] == from) && (forall j :: 0 <= j < at ==> locs[j] != from)
    requires path != [] ==> Last(path) in Locs(h, size, Last(moved).key)
    ensures var loc := Locs(h, size, Last(moved).key)[(1 + at) % 8];
            && loc < size
            && Chain(h, size, table, e, tables + [Last(tables)[loc := Last(moved)]], moved + [Last(tables)[loc]], path + [loc])
  {
    var key := Last(moved).key;
    var locs := Locs(h, size, key);
    var loc := locs[(1 + at) % 8];
    LocsInRange(h, size, key);
    hide Locs, IsPlace;
    if path == [] {
      assert at == 8;
      assert IsPlace(h, size, key, 1, loc);
    } else {
      assert at < 8;
      assert IsPlace(h, size, key, at, Last(path));
      assert (1 + at) % 8 == if at == 7 then 0 else at + 1;
      assert IsPlace(h, size, key, if at == 7 then 0 else at + 1, loc);
      assert GoesOn(h, size, key, Last(path), loc);
    }
  }

  method IndexOf(locs: seq<nat>, loc: nat) returns (k: nat)
    requires |locs| == 8
    ensures k <= 8 && (k < 8 ==> locs[k] == loc) && forall j :: 0 <= j < k ==> locs[j] != loc
  {
    k := 0;
    while k < 8 && locs[k] != loc
      invariant k <= 8 && forall j :: 0 <= j < k ==> locs[j] != loc
    {
      k := k + 1;
    }
  }

  lemma LocsFacts(h: Hasher, size: nat, key: nat)
    requires size > 0
    ensures var locs := Locs(h, size, key);
            && |locs| == 8 && (forall k :: 0 <= k < 8 ==> locs[k] < size && locs[k] in locs)
  {
    LocsInRange(h, size, key);
  }

  lemma AtHome(h: Hasher, size: nat, s: Slots)
    requires size > 0 && Located(h, size, s)
    ensures forall i: nat :: i < |s.table| && i !in s.collected ==> Home(h, size, s.table[i].key, i)
  {
    hide Locs, Home;
    forall i: nat | i < |s.table| && i !in s.collected
      ensures Home(h, size, s.table[i].key, i)
    {
      HomeIff(h, size, s.table[i].key);
    }
  }

  // ---- Whole runs ----

  datatype Op = Insert(e: Element, replace: bool) | Find(key: nat, erase: bool)

  /** After any insertions and lookups the two epochs are within bounds, every live element is at one of
      its places, and a table of more than 20 slots has a slot that may be overwritten. */
  method Run(hasher: Hasher, newSize: nat, depthLimit: nat, ops: seq<Op>) returns (c: Cache)
    requires newSize < TWO32
    ensures fresh(c) && c.Valid() && c.Recent() + c.counter <= Bound(c.epochSize) && |c.Contents()| <= 2 * Bound(c.epochSize)
    ensures c.size > 20 ==> exists i: nat :: i < c.size && i in c.collected
    ensures forall i: nat :: i < |c.table| && i !in c.collected ==> Home(hasher, c.size, c.table[i].key, i)
  {
    hide Bag, Fresh, Stale, Located, Home;
    c := new Cache(hasher, newSize, depthLimit);
    for n := 0 to |ops|
      invariant fresh(c) && c.Valid()
    {
      match ops[n] {
        case Insert(e, replace) => ghost var kept, added, lost := c.Insert(e, replace);
        case Find(key, erase) => var found, e := c.Find(key, erase);
      }
    }
    SizeOf(c.S(), c.size);
    AtHome(hasher, c.size, c.S());
    if c.size > 20 {
      RoomLeft(c.size);
    }
  }
}
