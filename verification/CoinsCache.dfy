/** The stack of write-back coin caches, as linked objects over one coin database.

    `Views()` lists what every level reports, database first. Every operation is specified by its
    effect on that list of plain maps, for a stack of any depth. */
module CoinsCache {
  import opened Options
  import opened Coins

  function Last<T>(s: seq<T>): T
    requires s != []
  {
    s[|s| - 1]
  }

  lemma UpdateLast<T>(s: seq<T>, x: T, y: T)
    ensures (s + [x])[|s| := y] == s + [y]
  {
  }

  lemma UpdateNextToLast<T>(s: seq<T>, x: T, y: T)
    requires s != []
    ensures (s + [x])[|s| - 1 := y] == s[|s| - 1 := y] + [x]
  {
  }

  lemma Unstacked<T>(s: seq<T>, x: T)
    ensures (s + [x])[..|s + [x]| - 1] == s
  {
  }

  predicate SpentRecord(coins: map<OutPoint, Coin>, o: OutPoint) { o in coins && coins[o].IsSpent() }

  /** The backing view. A spent coin may be kept as an empty record and may even be reported. */
  class CoinsViewDB {
    var coins: map<OutPoint, Coin>

    constructor ()
      ensures View() == map[]
    {
      coins := map[];
    }

    ghost function View(): Utxos
      reads this
    {
      map o | o in coins && !coins[o].IsSpent() :: coins[o]
    }

    method GetCoin(o: OutPoint) returns (found: bool, coin: Coin)
      ensures found && !coin.IsSpent() ==> o in View() && View()[o] == coin
      ensures !found || coin.IsSpent() ==> o !in View()
      ensures found ==> o in coins && coins[o] == coin
    {
      found, coin := o in coins, EMPTY_COIN;
      if found {
        coin := coins[o];
        if coin.IsSpent() {
          found := *;
        }
      }
    }

    method BatchWrite(child: Cache, erase: bool) returns (ok: bool, rest: Cache)
      requires Legal(child, View())
      modifies this
      ensures ok && View() == Overlay(child, old(View()))
      ensures rest == if erase then map[] else child
    {
      ghost var before := View();
      var todo := child.Keys;
      while todo != {}
        invariant todo <= child.Keys
        invariant forall o :: o !in child || o in todo ==>
                    (o in View() <==> o in before) && (o in before ==> View()[o] == before[o])
        invariant forall o :: o in child && o !in todo ==>
                    (o in View() <==> !child[o].coin.IsSpent()) && (o in View() ==> View()[o] == child[o].coin)
      {
        var o :| o in todo;
        assert LegalEntry(child[o], o, before);
        if child[o].isDirty {
          var keepEmpty: bool := *;
          if child[o].coin.IsSpent() && !keepEmpty {
            coins := coins - {o};
          } else {
            coins := coins[o := child[o].coin];
          }
        }
        todo := todo - {o};
      }
      ok, rest := true, if erase then map[] else child;
    }
  }

  class CoinsViewCache {
    var cacheCoins: Cache
    var cachedCoinsUsage: int
    const base: CoinsViewCache?   // null when the cache sits directly on the database
    const db: CoinsViewDB
    ghost const depth: nat
    ghost const below: set<object>   // everything underneath, down to the database

    /** The chain of bases, which never changes. */
    ghost predicate Linked()
      decreases depth
    {
      && this !in below && db in below
      && (base == null ==> depth == 0 && below == {db})
      && (base != null ==>
            && depth == base.depth + 1 && base.db == db
            && below == base.below + {base}
            && base.Linked())
    }

    ghost function ParentViews(): (vs: seq<Utxos>)
      requires Linked()
      reads below
      ensures |vs| == depth + 1
      decreases depth, 0
    {
      if base == null then [db.View()] else base.Views()
    }

    /** What each level reports, from the database up to this cache. */
    ghost function Views(): (vs: seq<Utxos>)
      requires Linked()
      reads this, below
      ensures |vs| == depth + 2
      decreases depth, 1
    {
      ParentViews() + [Overlay(cacheCoins, Last(ParentViews()))]
    }

    ghost predicate BelowValid()
      reads below
      ensures BelowValid() ==> Linked()
      decreases depth, 0
    {
      Linked() && (base != null ==> base.Valid())
    }

    ghost predicate Valid()
      reads this, below
      ensures Valid() ==> BelowValid() && Linked()
      decreases depth, 1
    {
      && BelowValid()
      && Legal(cacheCoins, Last(ParentViews()))
      && cachedCoinsUsage == Usage(cacheCoins)
    }

    constructor (base: CoinsViewCache?, db: CoinsViewDB)
      requires base != null ==> base.Valid() && base.db == db
      ensures Valid() && this.base == base && this.db == db
      ensures below == if base == null then {db} else base.below + {base}
      ensures Views() == ParentViews() + [Last(ParentViews())]
      ensures ParentViews() == if base == null then [db.View()] else base.Views()
    {
      this.base, this.db := base, db;
      cacheCoins, cachedCoinsUsage := map[], 0;
      depth := if base == null then 0 else base.depth + 1;
      below := if base == null then {db} else base.below + {base};
      new;
      OverlayEmpty(Last(ParentViews()));
    }

    /** Every write to this level's own fields; nothing underneath can notice. */
    method SetLocal(cache: Cache, usage: int)
      requires Linked()
      modifies this
      ensures cacheCoins == cache && cachedCoinsUsage == usage
      ensures BelowValid() == old(BelowValid()) && ParentViews() == old(ParentViews())
    {
      cacheCoins, cachedCoinsUsage := cache, usage;
    }

    /** Asks the view underneath. */
    method BaseGetCoin(o: OutPoint) returns (found: bool, coin: Coin)
      requires BelowValid()
      modifies below
      ensures BelowValid() && ParentViews() == old(ParentViews())
      ensures !found || coin.IsSpent() ==> o !in Last(ParentViews())
      ensures found && !coin.IsSpent() ==> o in Last(ParentViews()) && Last(ParentViews())[o] == coin
      ensures found && coin.IsSpent() ==> base == null && SpentRecord(old(db.coins), o)
      decreases depth, 0
    {
      if base == null {
        found, coin := db.GetCoin(o);
      } else {
        found, coin := base.GetCoin(o);
      }
    }

    /** Finds the entry for an outpoint, filling this cache and every one below as it looks. */
    method FetchCoin(o: OutPoint) returns (hit: bool)
      requires Valid()
      modifies this, below
      ensures Valid() && Views() == old(Views()) && ParentViews() == old(ParentViews())
      ensures hit == (o in cacheCoins)
      ensures !hit ==> o !in Last(Views()) && o !in Last(ParentViews())
      ensures o in old(cacheCoins) ==> hit
      ensures hit ==> o in old(cacheCoins) || o in old(Last(Views())) || (base == null && SpentRecord(old(db.coins), o))
      decreases depth, 1
    {
      hide Legal, Usage;
      if o in cacheCoins {
        return true;
      }
      var found, coin := BaseGetCoin(o);
      if !found {
        return false;
      }
      FetchEffect(cacheCoins, Last(ParentViews()), o, coin);
      UsageInsert(cacheCoins, o, Entry(coin, false, coin.IsSpent()));
      SetLocal(cacheCoins[o := Entry(coin, false, coin.IsSpent())], cachedCoinsUsage + coin.DynamicMemoryUsage());
      return true;
    }

    method GetCoin(o: OutPoint) returns (found: bool, coin: Coin)
      requires Valid()
      modifies this, below
      ensures Valid() && Views() == old(Views())
      ensures found <==> o in Last(Views())
      ensures found ==> coin == Last(Views())[o] && !coin.IsSpent()
      decreases depth, 2
    {
      var hit := FetchCoin(o);
      found, coin := false, EMPTY_COIN;
      if hit {
        coin := cacheCoins[o].coin;
        found := !coin.IsSpent();
      }
    }

    /** Adds a coin; `ok` is false when the code throws. An addition declared to overwrite nothing
        while the parent alone has the coin goes through, and marks the entry FRESH against the rules. */
    method AddCoin(o: OutPoint, coin: Coin, possibleOverwrite: bool) returns (ok: bool)
      requires Valid() && !coin.IsSpent()
      modifies this
      ensures BelowValid() && ParentViews() == old(ParentViews())
      ensures !ok <==> !coin.IsUnspendable() && !possibleOverwrite && o in old(cacheCoins) && !old(cacheCoins)[o].coin.IsSpent()
      ensures ok ==> (Valid() <==> coin.IsUnspendable() || possibleOverwrite || o !in old(Last(Views())))
      ensures ok ==> Last(Views()) == if coin.IsUnspendable() then old(Last(Views())) else old(Last(Views()))[o := coin]
      ensures |coin.script| > 10000 || (|coin.script| > 0 && coin.script[0] == 0x6a) <==> coin.IsUnspendable()
      // The accounting slips on the throwing path, and only there.
      ensures !ok ==> Views() == old(Views()) && (Valid() <==> |old(cacheCoins)[o].coin.script| <= 28)
    {
      hide Legal, Overlay, Usage;
      if coin.IsUnspendable() {
        return true;
      }
      var entry := if o in cacheCoins then cacheCoins[o] else Entry(EMPTY_COIN, false, false);
      var usage := cachedCoinsUsage - entry.coin.DynamicMemoryUsage();
      if !possibleOverwrite && !entry.coin.IsSpent() {
        SetLocal(cacheCoins, usage);
        return false;
      }
      var isFresh := !possibleOverwrite && !entry.isDirty;
      var entry' := Entry(coin, true, entry.isFresh || isFresh);
      AddKeepsFlagsIff(cacheCoins, Last(ParentViews()), o, coin, possibleOverwrite);
      if o in cacheCoins {
        UsageUpdate(cacheCoins, o, entry');
      } else {
        UsageInsert(cacheCoins, o, entry');
      }
      SetLocal(cacheCoins[o := entry'], usage + coin.DynamicMemoryUsage());
      return true;
    }

    /** Spends a coin. Answers true exactly for what is in the view or cached, even if already spent;
        on top of the database, a spent record there may also be answered with true. */
    method SpendCoin(o: OutPoint) returns (found: bool, moveout: Coin)
      requires Valid()
      modifies this, below
      ensures Valid() && ParentViews() == old(ParentViews())
      ensures Last(Views()) == old(Last(Views())) - {o}
      ensures o in old(Last(Views())) ==> found && moveout == old(Last(Views()))[o]
      ensures o in old(cacheCoins) ==> found
      ensures found ==> o in old(cacheCoins) || o in old(Last(Views())) || (base == null && SpentRecord(old(db.coins), o))
      ensures found && o !in old(Last(Views())) ==> moveout.IsSpent()
    {
      moveout := EMPTY_COIN;
      found := FetchCoin(o);
      if found {
        moveout := SpendCached(o);
      } else {
        SpendEffect(cacheCoins, Last(ParentViews()), o);
      }
    }

    method SpendCached(o: OutPoint) returns (moveout: Coin)
      requires Valid() && o in cacheCoins
      modifies this
      ensures Valid() && ParentViews() == old(ParentViews())
      ensures Last(Views()) == old(Last(Views())) - {o}
      ensures moveout == old(cacheCoins)[o].coin
    {
      SpendEffect(cacheCoins, Last(ParentViews()), o);
      moveout := cacheCoins[o].coin;
      if cacheCoins[o].isFresh {
        UsageWithout(cacheCoins, o);
        SetLocal(cacheCoins - {o}, cachedCoinsUsage - moveout.DynamicMemoryUsage());
      } else {
        UsageUpdate(cacheCoins, o, Entry(EMPTY_COIN, true, false));
        SetLocal(cacheCoins[o := Entry(EMPTY_COIN, true, false)], cachedCoinsUsage - moveout.DynamicMemoryUsage());
      }
    }

    /** Drops an unmodified entry. */
    method Uncache(o: OutPoint)
      requires Valid()
      modifies this
      ensures Valid() && Views() == old(Views())
      ensures cacheCoins == if o in old(cacheCoins) && !old(cacheCoins)[o].isDirty && !old(cacheCoins)[o].isFresh
                            then old(cacheCoins) - {o} else old(cacheCoins)
    {
      if o in cacheCoins && !cacheCoins[o].isDirty && !cacheCoins[o].isFresh {
        DropUnflagged(cacheCoins, Last(ParentViews()), o);
        UsageWithout(cacheCoins, o);
        SetLocal(cacheCoins - {o}, cachedCoinsUsage - cacheCoins[o].coin.DynamicMemoryUsage());
      }
    }

    /** One dirty entry of a child; false when FRESH was misapplied, which never happens. */
    method WriteOne(o: OutPoint, e: Entry) returns (ok: bool)
      requires Valid()
      requires e.isDirty && LegalEntry(e, o, Last(Views()))
      modifies this
      ensures ok && Valid() && ParentViews() == old(ParentViews())
      ensures Last(Views()) == SetCoin(old(Last(Views())), o, e.coin)
    {
      WriteEntryEffect(cacheCoins, Last(ParentViews()), o, e);
      UsageWritten(cacheCoins, o, e);
      var cache', usage' := cacheCoins, cachedCoinsUsage;
      if o !in cacheCoins {
        if !(e.isFresh && e.coin.IsSpent()) {
          cache', usage' := cacheCoins[o := Entry(e.coin, true, e.isFresh)], usage' + e.coin.DynamicMemoryUsage();
        }
      } else {
        var ours := cacheCoins[o];
        if e.isFresh && !ours.coin.IsSpent() {
          return false;
        }
        usage' := usage' - ours.coin.DynamicMemoryUsage();
        if ours.isFresh && e.coin.IsSpent() {
          cache' := cacheCoins - {o};
        } else {
          cache', usage' := cacheCoins[o := Entry(e.coin, true, ours.isFresh)], usage' + e.coin.DynamicMemoryUsage();
        }
      }
      SetLocal(cache', usage');
      return true;
    }

    /** Takes over a child's entries in any order; `rest` is what is left of the child's map. */
    method BatchWrite(child: Cache, erase: bool) returns (ok: bool, rest: Cache)
      requires Valid() && Legal(child, Last(Views()))
      modifies this
      ensures ok && Valid() && ParentViews() == old(ParentViews())
      ensures Last(Views()) == Overlay(child, old(Last(Views())))
      ensures rest == if erase then map[] else child
    {
      rest := child;
      while rest != map[]
        invariant Valid() && ParentViews() == old(ParentViews())
        invariant Legal(rest, Last(Views()))
        invariant Overlay(rest, Last(Views())) == Overlay(child, old(Last(Views())))
        decreases |rest|
      {
        var o :| o in rest;
        WriteThrough(rest, Last(Views()), o);
        if rest[o].isDirty {
          ok := WriteOne(o, rest[o]);
          if !ok {
            return;
          }
        }
        rest := rest - {o};
      }
      OverlayEmpty(Last(Views()));
      ok, rest := true, if erase then map[] else child;
    }

    /** Hands entries to the view underneath. */
    method BaseBatchWrite(child: Cache, erase: bool) returns (ok: bool, rest: Cache)
      requires BelowValid() && Legal(child, Last(ParentViews()))
      modifies below
      ensures ok && BelowValid()
      ensures ParentViews() == old(ParentViews())[depth := Overlay(child, old(Last(ParentViews())))]
      ensures rest == if erase then map[] else child
    {
      ghost var view := Overlay(child, Last(ParentViews()));
      if base == null {
        UpdateLast([], db.View(), view);
        ok, rest := db.BatchWrite(child, erase);
      } else {
        UpdateLast(base.ParentViews(), Last(base.Views()), view);
        ok, rest := base.BatchWrite(child, erase);
      }
    }

    method Flush() returns (ok: bool)
      requires Valid()
      modifies this, below
      ensures ok && Valid() && cacheCoins == map[]
      ensures Views() == old(Views())[depth := old(Last(Views()))]
    {
      var rest;
      ghost var view := Last(Views());
      UpdateNextToLast(ParentViews(), view, view);
      ok, rest := BaseBatchWrite(cacheCoins, true);
      assert Last(ParentViews()) == view;
      OverlayEmpty(Last(ParentViews()));
      SetLocal(rest, 0);
    }

    method Sync() returns (ok: bool)
      requires Valid()
      modifies this, below
      ensures ok && Valid() && cacheCoins == Cleared(old(cacheCoins))
      ensures Views() == old(Views())[depth := old(Last(Views()))]
    {
      var rest;
      ghost var parent := Last(ParentViews());
      UpdateNextToLast(ParentViews(), Last(Views()), Last(Views()));
      ok, rest := BaseBatchWrite(cacheCoins, false);
      var cache, usage := ClearFlags(rest, cachedCoinsUsage);
      ClearedEffect(rest, parent);
      SetLocal(cache, usage);
    }

    /** Reads or tidies the cache `down` levels below this one. */
    method Maintain(down: nat, u: Upkeep) returns (answer: Option<Coin>)
      requires Valid() && down <= depth
      modifies this, below
      ensures Valid() && Views() == Maintained(old(Views()), down, u)
      ensures answer == Answer(old(Views()), down, u)
      decreases depth, 3
    {
      if down == 0 {
        answer := MaintainHere(u);
      } else {
        answer := MaintainBelow(down, u);
      }
    }

    method MaintainBelow(down: nat, u: Upkeep) returns (answer: Option<Coin>)
      requires Valid() && 0 < down <= depth
      modifies below
      ensures Valid() && Views() == Maintained(old(Views()), down, u)
      ensures answer == Answer(old(Views()), down, u)
      decreases depth, 2
    {
      hide Legal, Overlay, Usage, Maintained, Answer;
      MaintainedUnder(base.Views(), Last(Views()), down - 1, u);
      answer := base.Maintain(down - 1, u);
    }

    /** Changes the coins at the top of the stack. */
    method AddOp(op: Op)
      requires Valid() && Allowed(Views(), op) && op.Add?
      modifies this, below
      ensures Valid() && Views() == Apply(old(Views()), op)
    {
      UpdateLast(ParentViews(), Last(Views()), Last(Views())[op.o := op.coin]);
      var ok := AddCoin(op.o, op.coin, op.possibleOverwrite);
    }

    method SpendOp(op: Op)
      requires Valid() && Allowed(Views(), op) && op.Spend?
      modifies this, below
      ensures Valid() && Views() == Apply(old(Views()), op)
    {
      UpdateLast(ParentViews(), Last(Views()), Last(Views()) - {op.o});
      var _, _ := SpendCoin(op.o);
    }

    method MaintainOp(op: Op) returns (answers: seq<Option<Coin>>)
      requires Valid() && Allowed(Views(), op) && op.At?
      modifies this, below
      ensures Valid() && Views() == Apply(old(Views()), op)
      ensures answers == AnswersTo(old(Views()), op)
    {
      var answer := Maintain(op.down, op.u);
      answers := [answer];
    }

    method MaintainHere(u: Upkeep) returns (answer: Option<Coin>)
      requires Valid()
      modifies this, below
      ensures Valid() && Views() == Maintained(old(Views()), 0, u)
      ensures answer == Answer(old(Views()), 0, u)
      decreases depth, 3
    {
      answer := None;
      MaintainedTop(Views(), u);
      match u {
        case Get(o) =>
          var found, coin := GetCoin(o);
          answer := if found then Some(coin) else None;
        case Uncache(o) => Uncache(o);
        case Flush => var _ := Flush();
        case Sync => var _ := Sync();
      }
    }
  }

  /** Operations that any level of the stack may be given at any time. */
  datatype Upkeep = Get(o: OutPoint) | Uncache(o: OutPoint) | Flush | Sync

  /** Operations on a stack: upkeep at any depth, changes at the top only. */
  datatype Op =
    | At(down: nat, u: Upkeep)
    | Add(o: OutPoint, coin: Coin, possibleOverwrite: bool)
    | Spend(o: OutPoint)
    | Push
    | Pop

  // ---- The reference: one plain map per level ----

  ghost function Maintained(views: seq<Utxos>, down: nat, u: Upkeep): seq<Utxos>
    requires down + 2 <= |views|
  {
    var level := |views| - 1 - down;
    if u.Flush? || u.Sync? then views[level - 1 := views[level]] else views
  }

  ghost function Answer(views: seq<Utxos>, down: nat, u: Upkeep): Option<Coin>
    requires down + 2 <= |views|
  {
    var view := views[|views| - 1 - down];
    if u.Get? && u.o in view then Some(view[u.o]) else None
  }

  lemma MaintainedUnder(views: seq<Utxos>, top: Utxos, down: nat, u: Upkeep)
    requires down + 2 <= |views|
    ensures Maintained(views + [top], down + 1, u) == Maintained(views, down, u) + [top]
    ensures Answer(views + [top], down + 1, u) == Answer(views, down, u)
    ensures Last(Maintained(views, down, u)) == Last(views)
  {
  }

  lemma MaintainedTop(views: seq<Utxos>, u: Upkeep)
    requires |views| >= 2
    ensures Last(Maintained(views, 0, u)) == Last(views)
    ensures u.Flush? || u.Sync? ==> Maintained(views, 0, u) == views[|views| - 2 := Last(views)]
  {
  }

  ghost predicate Allowed(views: seq<Utxos>, op: Op) {
    && |views| >= 2
    && match op
       case At(down, _) => down + 2 <= |views|
       case Add(o, coin, possibleOverwrite) => !coin.IsSpent() && (possibleOverwrite || o !in Last(views))
       case Spend(_) => true
       case Push => true
       case Pop => |views| > 2
  }

  ghost function Apply(views: seq<Utxos>, op: Op): (views': seq<Utxos>)
    requires Allowed(views, op)
    ensures |views'| >= 2
  {
    match op
    case At(down, u) => Maintained(views, down, u)
    case Add(o, coin, _) => if coin.IsUnspendable() then views else views[|views| - 1 := Last(views)[o := coin]]
    case Spend(o) => views[|views| - 1 := Last(views) - {o}]
    case Push => views + [Last(views)]
    case Pop => views[..|views| - 1]
  }

  ghost function AnswersTo(views: seq<Utxos>, op: Op): seq<Option<Coin>>
    requires Allowed(views, op)
  {
    if op.At? then [Answer(views, op.down, op.u)] else []
  }

  ghost predicate AllowedRun(views: seq<Utxos>, ops: seq<Op>)
    decreases |ops|
  {
    && |views| >= 2
    && (ops != [] ==> Allowed(views, ops[0]) && AllowedRun(Apply(views, ops[0]), ops[1..]))
  }

  ghost function ApplyAll(views: seq<Utxos>, ops: seq<Op>): (views': seq<Utxos>)
    requires AllowedRun(views, ops)
    ensures |views'| >= 2
    decreases |ops|
  {
    if ops == [] then views else ApplyAll(Apply(views, ops[0]), ops[1..])
  }

  ghost function Answers(views: seq<Utxos>, ops: seq<Op>): seq<Option<Coin>>
    requires AllowedRun(views, ops)
    decreases |ops|
  {
    if ops == [] then [] else AnswersTo(views, ops[0]) + Answers(Apply(views, ops[0]), ops[1..])
  }

  // ---- Whole runs ----

  method Step(top: CoinsViewCache, op: Op) returns (top': CoinsViewCache, answers: seq<Option<Coin>>)
    requires top.Valid() && Allowed(top.Views(), op)
    modifies top, top.below
    ensures top'.Valid() && top'.Views() == Apply(old(top.Views()), op)
    ensures answers == AnswersTo(old(top.Views()), op)
    ensures fresh(({top'} + top'.below) - ({top} + top.below))
  {
    top', answers := top, [];
    match op {
      case At(_, _) => answers := top.MaintainOp(op);
      case Add(_, _, _) => top.AddOp(op);
      case Spend(_) => top.SpendOp(op);
      case Push => top' := new CoinsViewCache(top, top.db);
      case Pop =>
        Unstacked(top.ParentViews(), Last(top.Views()));
        top' := top.base;
    }
  }

  /** Any run, on a stack of any depth: what every level reports, and every answer given on the
      way, is what the plain maps say. */
  method Run(top: CoinsViewCache, ops: seq<Op>) returns (top': CoinsViewCache, answers: seq<Option<Coin>>)
    requires top.Valid() && AllowedRun(top.Views(), ops)
    modifies top, top.below
    ensures top'.Valid() && top'.Views() == ApplyAll(old(top.Views()), ops)
    ensures answers == Answers(old(top.Views()), ops)
    decreases |ops|
  {
    if ops == [] {
      return top, [];
    }
    var first, rest;
    top', first := Step(top, ops[0]);
    top', rest := Run(top', ops[1..]);
    answers := first + rest;
  }
}
