/** Coins, cache entries and what one level of the coin cache means as a plain map.

    A cache level is a map from outpoints to flagged entries laid over the view of its parent.
    `Overlay` is the plain outpoint-to-coin map such a level stands for, and `Legal` is the
    discipline on the DIRTY and FRESH flags under which writes may be skipped. */
module Coins {

  datatype OutPoint = OutPoint(txid: nat, n: nat)

  datatype Coin = Coin(value: int, script: seq<nat>, heightAndIsCoinBase: nat) {

    // A spent coin carries the null output, whose value is -1.
    predicate IsSpent() { value == -1 }

    // OP_RETURN is 0x6a and the largest script has 10000 bytes.
    predicate IsUnspendable() { (|script| > 0 && script[0] == 0x6a) || |script| > 10000 }

    // Scripts of at most 28 bytes are stored inline.
    function DynamicMemoryUsage(): nat { if |script| <= 28 then 0 else |script| }
  }

  const EMPTY_COIN := Coin(-1, [], 0)

  datatype Entry = Entry(coin: Coin, isDirty: bool, isFresh: bool)

  type Cache = map<OutPoint, Entry>
  type Utxos = map<OutPoint, Coin>

  /** The plain map a level stands for: its own entries win, spent ones hide the parent's coin. */
  function Overlay(cache: Cache, parent: Utxos): Utxos {
    map o | o in cache.Keys + parent.Keys && (o in cache ==> !cache[o].coin.IsSpent())
      :: if o in cache then cache[o].coin else parent[o]
  }

  lemma OverlayEmpty(parent: Utxos)
    ensures Overlay(map[], parent) == parent
  {
  }

  /** The five flag states of a cache entry. */
  predicate FiveStates(e: Entry) {
    match (e.coin.IsSpent(), e.isFresh, e.isDirty)
    case (false, true, true) => true
    case (false, false, true) => true
    case (false, false, false) => true
    case (true, true, false) => true
    case (true, false, true) => true
    case _ => false
  }

  predicate LegalEntry(e: Entry, o: OutPoint, parent: Utxos) {
    && FiveStates(e)
    && (e.isFresh ==> o !in parent)
    && (!e.isDirty ==> if e.coin.IsSpent() then o !in parent else o in parent && parent[o] == e.coin)
  }

  ghost predicate Legal(cache: Cache, parent: Utxos) {
    forall o :: o in cache ==> LegalEntry(cache[o], o, parent)
  }

  /** Sum of the memory used by the coins of a cache. */
  ghost function Usage(cache: Cache): nat
    decreases |cache|
  {
    if |cache| == 0 then 0
    else cache[Some(cache)].coin.DynamicMemoryUsage() + Usage(cache - {Some(cache)})
  }

  ghost function Some(cache: Cache): (o: OutPoint)
    requires |cache| > 0
    ensures o in cache
  {
    var o :| o in cache; o
  }

  /** The sum does not depend on the order in which it is taken. */
  lemma {:induction false} UsageWithout(cache: Cache, o: OutPoint)
    requires o in cache
    ensures Usage(cache) == cache[o].coin.DynamicMemoryUsage() + Usage(cache - {o})
    decreases |cache|
  {
    var p := Some(cache);
    if p != o {
      UsageWithout(cache - {p}, o);
      UsageWithout(cache - {o}, p);
      assert cache - {p} - {o} == cache - {o} - {p};
    }
  }

  lemma UsageUpdate(cache: Cache, o: OutPoint, e: Entry)
    requires o in cache
    ensures Usage(cache[o := e]) ==
            Usage(cache) - cache[o].coin.DynamicMemoryUsage() + e.coin.DynamicMemoryUsage()
  {
    UsageWithout(cache, o);
    UsageWithout(cache[o := e], o);
    assert cache[o := e] - {o} == cache - {o};
  }

  lemma UsageInsert(cache: Cache, o: OutPoint, e: Entry)
    requires o !in cache
    ensures Usage(cache[o := e]) == Usage(cache) + e.coin.DynamicMemoryUsage()
  {
    UsageWithout(cache[o := e], o);
    assert cache[o := e] - {o} == cache;
  }

  // ---- One entry written through from a child level ----

  /** What one dirty child entry does to the parent's own entries, `Misapplied` being the exception. */
  datatype Written = Misapplied | Written(cache: Cache)

  function WriteEntry(us: Cache, o: OutPoint, e: Entry): Written {
    if o !in us then
      if e.isFresh && e.coin.IsSpent() then Written(us)
      else Written(us[o := Entry(e.coin, true, e.isFresh)])
    else if e.isFresh && !us[o].coin.IsSpent() then Misapplied
    else if us[o].isFresh && e.coin.IsSpent() then Written(us - {o})
    else Written(us[o := Entry(e.coin, true, us[o].isFresh)])
  }

  function SetCoin(view: Utxos, o: OutPoint, c: Coin): Utxos {
    if c.IsSpent() then view - {o} else view[o := c]
  }

  /** A legal dirty child entry never trips the misapplied-FRESH check, changes the parent's view
      at exactly its own outpoint, and leaves the parent's flags legal over the grandparent. */
  lemma WriteEntryEffect(us: Cache, grandparent: Utxos, o: OutPoint, e: Entry)
    requires Legal(us, grandparent)
    requires e.isDirty && LegalEntry(e, o, Overlay(us, grandparent))
    ensures WriteEntry(us, o, e).Written?
    ensures Legal(WriteEntry(us, o, e).cache, grandparent)
    ensures Overlay(WriteEntry(us, o, e).cache, grandparent) == SetCoin(Overlay(us, grandparent), o, e.coin)
  {
    if o in us {
      assert LegalEntry(us[o], o, grandparent);
      assert o in Overlay(us, grandparent) <==> !us[o].coin.IsSpent();
      if us[o].isFresh && e.coin.IsSpent() {
        OverlayRemove(us, grandparent, o);
      } else {
        OverlayUpdate(us, grandparent, o, Entry(e.coin, true, us[o].isFresh));
      }
    } else if !e.isFresh || !e.coin.IsSpent() {
      assert o in Overlay(us, grandparent) <==> o in grandparent;
      OverlayUpdate(us, grandparent, o, Entry(e.coin, true, e.isFresh));
    }
  }

  /** Setting one entry sets or hides exactly that coin. */
  lemma OverlayUpdate(cache: Cache, parent: Utxos, o: OutPoint, e: Entry)
    ensures Overlay(cache[o := e], parent) == SetCoin(Overlay(cache, parent), o, e.coin)
  {
  }

  /** Dropping an entry over a parent without that coin removes it from the view. */
  lemma OverlayRemove(cache: Cache, parent: Utxos, o: OutPoint)
    requires o !in parent
    ensures Overlay(cache - {o}, parent) == Overlay(cache, parent) - {o}
  {
  }

  /** Writing one child entry through, or skipping it when it is not dirty, leaves the rest of the
      child legal over the parent's new view and leaves the child's own view as it was. */
  lemma WriteThrough(child: Cache, view: Utxos, o: OutPoint)
    requires Legal(child, view) && o in child
    ensures var view' := if child[o].isDirty then SetCoin(view, o, child[o].coin) else view;
            Legal(child - {o}, view') && Overlay(child - {o}, view') == Overlay(child, view)
  {
    assert LegalEntry(child[o], o, view);
  }

  lemma UsageWritten(us: Cache, o: OutPoint, e: Entry)
    requires WriteEntry(us, o, e).Written?
    ensures var us' := WriteEntry(us, o, e).cache;
            Usage(us') == Usage(us) - (if o in us then us[o].coin.DynamicMemoryUsage() else 0)
                                    + (if o in us' then us'[o].coin.DynamicMemoryUsage() else 0)
  {
    if o !in us {
      if !(e.isFresh && e.coin.IsSpent()) {
        UsageInsert(us, o, Entry(e.coin, true, e.isFresh));
      }
    } else if us[o].isFresh && e.coin.IsSpent() {
      UsageWithout(us, o);
    } else {
      UsageUpdate(us, o, Entry(e.coin, true, us[o].isFresh));
    }
  }

  // ---- Adding and spending at the top level ----

  function Added(cache: Cache, o: OutPoint, coin: Coin, possibleOverwrite: bool): Cache {
    var old_ := if o in cache then cache[o] else Entry(EMPTY_COIN, false, false);
    cache[o := Entry(coin, true, old_.isFresh || (!possibleOverwrite && !old_.isDirty))]
  }

  /** Adding a coin keeps the flags legal exactly when an unspent coin may be overwritten or the
      view had none there: the caller's duty stated at the interface is both enough and needed. */
  lemma AddKeepsFlagsIff(cache: Cache, parent: Utxos, o: OutPoint, coin: Coin, possibleOverwrite: bool)
    requires Legal(cache, parent) && !coin.IsSpent()
    requires !possibleOverwrite && o in cache ==> cache[o].coin.IsSpent()
    ensures Legal(Added(cache, o, coin, possibleOverwrite), parent) <==>
            possibleOverwrite || o !in Overlay(cache, parent)
    ensures Overlay(Added(cache, o, coin, possibleOverwrite), parent) == Overlay(cache, parent)[o := coin]
  {
    var added := Added(cache, o, coin, possibleOverwrite);
    if !possibleOverwrite && o in Overlay(cache, parent) {
      assert o in added && !LegalEntry(added[o], o, parent);
    }
  }

  function Spent(cache: Cache, o: OutPoint): Cache {
    if o !in cache then cache
    else if cache[o].isFresh then cache - {o}
    else cache[o := Entry(EMPTY_COIN, true, false)]
  }

  lemma SpendEffect(cache: Cache, parent: Utxos, o: OutPoint)
    requires Legal(cache, parent)
    requires o in cache || o !in parent
    ensures Legal(Spent(cache, o), parent)
    ensures Overlay(Spent(cache, o), parent) == Overlay(cache, parent) - {o}
  {
  }

  /** Why the duty matters: a coin wrongly marked FRESH over a parent that has it survives being
      spent, because its entry is dropped and the parent's coin shows through again. */
  lemma MisappliedFreshLosesSpend(o: OutPoint, coin: Coin)
    requires !coin.IsSpent()
    ensures o in Overlay(Spent(Added(map[], o, coin, false), o), map[o := coin])
  {
  }

  function Fetched(cache: Cache, o: OutPoint, coin: Coin): Cache {
    cache[o := Entry(coin, false, coin.IsSpent())]
  }

  /** Keeping a copy of what the parent reported, spent or not, does not show. */
  lemma FetchEffect(cache: Cache, parent: Utxos, o: OutPoint, coin: Coin)
    requires Legal(cache, parent) && o !in cache
    requires if coin.IsSpent() then o !in parent else o in parent && parent[o] == coin
    ensures Legal(Fetched(cache, o, coin), parent)
    ensures Overlay(Fetched(cache, o, coin), parent) == Overlay(cache, parent)
  {
    OverlayUpdate(cache, parent, o, Entry(coin, false, coin.IsSpent()));
    SetCoinSame(Overlay(cache, parent), o, coin);
  }

  lemma SetCoinSame(view: Utxos, o: OutPoint, coin: Coin)
    requires if coin.IsSpent() then o !in view else o in view && view[o] == coin
    ensures SetCoin(view, o, coin) == view
  {
  }

  /** Forgetting an entry that carries no flag does not show. */
  lemma DropUnflagged(cache: Cache, parent: Utxos, o: OutPoint)
    requires Legal(cache, parent)
    requires o in cache && !cache[o].isDirty && !cache[o].isFresh
    ensures Legal(cache - {o}, parent)
    ensures Overlay(cache - {o}, parent) == Overlay(cache, parent)
  {
  }

  /** After everything is written through, the unspent entries of a level agree with its parent. */
  function Cleared(cache: Cache): Cache {
    map o | o in cache && !cache[o].coin.IsSpent() :: Entry(cache[o].coin, false, false)
  }

  lemma ClearedEffect(cache: Cache, parent: Utxos)
    ensures Legal(Cleared(cache), Overlay(cache, parent))
    ensures Overlay(Cleared(cache), Overlay(cache, parent)) == Overlay(cache, parent)
  {
  }

  /** The flag-clearing pass of a sync, with its accounting. */
  method ClearFlags(cache: Cache, usage: int) returns (cache': Cache, usage': int)
    requires usage == Usage(cache)
    ensures cache' == Cleared(cache) && usage' == Usage(cache')
  {
    cache', usage' := cache, usage;
    var todo := cache.Keys;
    while todo != {}
      invariant forall o :: PassedAt(cache, cache', todo, o)
      invariant usage' == Usage(cache')
    {
      var o :| o in todo;
      ghost var before, todoBefore := cache', todo;
      assert PassedAt(cache, before, todo, o);
      if cache'[o].coin.IsSpent() {
        UsageWithout(cache', o);
        cache', usage' := cache' - {o}, usage' - cache'[o].coin.DynamicMemoryUsage();
      } else {
        UsageUpdate(cache', o, Entry(cache'[o].coin, false, false));
        cache' := cache'[o := Entry(cache'[o].coin, false, false)];
      }
      todo := todo - {o};
      forall p
        ensures PassedAt(cache, cache', todo, p)
      {
        assert PassedAt(cache, before, todoBefore, p);
      }
    }
    forall o
      ensures (o in cache' <==> o in Cleared(cache)) && (o in cache' ==> cache'[o] == Cleared(cache)[o])
    {
      assert PassedAt(cache, cache', todo, o);
    }
  }

  ghost predicate PassedAt(cache: Cache, cache': Cache, todo: set<OutPoint>, o: OutPoint) {
    if o in todo then o in cache && o in cache' && cache'[o] == cache[o]
    else if o in cache && !cache[o].coin.IsSpent() then o in cache' && cache'[o] == Entry(cache[o].coin, false, false)
    else o !in cache'
  }
}
