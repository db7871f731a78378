/** The address manager: what it knows, where it keeps it and how entries move. */
module AddrMan {
  import opened Bits
  import opened Options
  import opened AddrBook
  import opened AddrMoves

  const TRIED_COLLISION_SIZE := 10

  // ---- What holds between operations, and from one to the next ----

  /** No tried slot is ever emptied, no id is ever reused, and an id keeps its address. */
  ghost predicate Grows(b: Book, b': Book) {
    && b.idCount <= b'.idCount
    && (forall slot :: slot in b.vvTried ==> slot in b'.vvTried)
    && (forall id :: id in b'.mapInfo && id < b.idCount ==>
          id in b.mapInfo && b'.mapInfo[id].data.service == b.mapInfo[id].data.service)
  }

  /** The entries waiting for a tried slot still have someone to wait for. */
  ghost predicate Colliding(env: Env, b: Book, collisions: set<Id>) {
    && |collisions| <= TRIED_COLLISION_SIZE
    && (forall id :: id in collisions ==>
          id < b.idCount && (id in b.mapInfo ==> TriedSlot(env, b.mapInfo[id].data.service) in b.vvTried))
  }

  lemma CollidingGrows(env: Env, b: Book, b': Book, collisions: set<Id>)
    requires Grows(b, b') && Colliding(env, b, collisions)
    ensures Colliding(env, b', collisions)
  {
  }

  lemma GrowsRefl(b: Book)
    ensures Grows(b, b)
  {
  }

  lemma GrowsTrans(b: Book, b': Book, b'': Book)
    requires Grows(b, b') && Grows(b', b'')
    ensures Grows(b, b'')
  {
  }

  lemma MovesGrows(env: Env, b: Book, id: Id, b': Book)
    requires id in b.mapInfo && Moves(env, b, id, b')
    ensures Grows(b, b')
  {
    hide Counted, Settled, NewAfterMove;
    forall i | i in b'.mapInfo
      ensures i in b.mapInfo && b'.mapInfo[i].data == b.mapInfo[i].data
    {
      assert i in DataOf(b'.mapInfo);
    }
  }

  lemma MovesSettled(env: Env, b: Book, id: Id, b': Book)
    requires id in b.mapInfo && Moves(env, b, id, b')
    ensures Counted(b') && Settled(b'.mapInfo, {})
  {
  }

  // ---- Conditions the code asserts on the way, all of them consequences of the agreement ----

  predicate CanClear(b: Book, slot: Slot) {
    slot in b.vvNew ==>
      && b.vvNew[slot] in b.mapInfo && b.mapInfo[b.vvNew[slot]].refCount > 0
      && (b.mapInfo[b.vvNew[slot]].refCount == 1 ==> CanDelete(WithoutRef(b, slot), b.vvNew[slot]))
  }

  ghost predicate RefsPlaced(env: Env, b: Book, id: Id) {
    && id in b.mapInfo && b.mapInfo[id].refCount == |Refs(b.vvNew, id)|
    && (forall slot :: slot in b.vvNew && b.vvNew[slot] == id ==>
          slot.0 < NEW_BUCKET_COUNT && slot.1 == Position(env, b.mapInfo[id].data.service, true, slot.0))
  }

  ghost predicate CanEvict(env: Env, b: Book, slot: Slot) {
    slot in b.vvTried ==>
      && b.vvTried[slot] in b.mapInfo && b.mapInfo[b.vvTried[slot]].refCount == 0
      && var data := b.mapInfo[b.vvTried[slot]].data;
         CanClear(WithoutTried(b, slot).(nTried := b.nTried - 1), NewSlot(env, data.service, data.source))
  }

  lemma CoreCanClear(env: Env, b: Book, slot: Slot)
    requires Core(env, b)
    ensures CanClear(b, slot)
  {
    hide Core;
    if slot in b.vvNew {
      WithoutRefCore(env, b, slot);
      if b.mapInfo[b.vvNew[slot]].refCount == 1 {
        DeletedCore(env, WithoutRef(b, slot), b.vvNew[slot]);
      }
    }
  }

  lemma CoreRefsPlaced(env: Env, b: Book, id: Id)
    requires Core(env, b) && id in b.mapInfo
    ensures RefsPlaced(env, b, id)
  {
    assert id in RefsOf(b.mapInfo);
  }

  lemma CoreCanEvict(env: Env, b: Book, slot: Slot)
    requires Core(env, b)
    ensures CanEvict(env, b, slot)
  {
    hide Core;
    if slot in b.vvTried {
      WithoutTriedCore(env, b, slot);
      CoreCounts(env, WithoutTried(b, slot), b.nNew, b.nTried - 1);
      var data := b.mapInfo[b.vvTried[slot]].data;
      CoreCanClear(env, WithoutTried(b, slot).(nTried := b.nTried - 1), NewSlot(env, data.service, data.source));
    }
  }

  lemma ClearedKeeps(b: Book, slot: Slot, id: Id)
    requires CanClear(b, slot) && id in b.mapInfo && b.mapInfo[id].refCount == 0
    ensures var b' := ClearedNew(b, slot);
            id in b'.mapInfo && b'.mapInfo[id] == b.mapInfo[id].(randomPos := b'.mapInfo[id].randomPos)
  {
    hide Deleted, CanDelete;
    if slot in b.vvNew && b.mapInfo[b.vvNew[slot]].refCount == 1 {
      DeletedEntries(WithoutRef(b, slot), b.vvNew[slot]);
    }
  }

  lemma EvictedKeeps(env: Env, b: Book, slot: Slot, id: Id)
    requires slot in b.vvTried && CanEvict(env, b, slot) && id in b.mapInfo && b.mapInfo[id].refCount == 0
    ensures id in Evicted(env, b, slot).mapInfo
  {
    var out := b.vvTried[slot];
    var data := b.mapInfo[out].data;
    var b1 := WithoutTried(b, slot).(nTried := b.nTried - 1);
    ClearedKeeps(b1, NewSlot(env, data.service, data.source), id);
    ClearedKeeps(b1, NewSlot(env, data.service, data.source), out);
    hide ClearedNew, CanClear;
  }

  lemma EvictedNone(env: Env, b: Book, slot: Slot)
    requires slot !in b.vvTried
    ensures Evicted(env, b, slot) == b
  {
  }

  // ---- Scanning the buckets of an entry, starting at one of them and going round ----

  function Turn(start: nat, n: nat): nat
    requires start < NEW_BUCKET_COUNT && n < NEW_BUCKET_COUNT
  {
    (start + n) % NEW_BUCKET_COUNT
  }

  function Distance(start: nat, bucket: nat): nat
    requires start < NEW_BUCKET_COUNT && bucket < NEW_BUCKET_COUNT
  {
    if bucket >= start then bucket - start else bucket + NEW_BUCKET_COUNT - start
  }

  lemma TurnDistance(start: nat, n: nat)
    requires start < NEW_BUCKET_COUNT && n < NEW_BUCKET_COUNT
    ensures Distance(start, Turn(start, n)) == n
    ensures forall bucket: nat :: bucket < NEW_BUCKET_COUNT && Distance(start, bucket) == n ==> bucket == Turn(start, n)
  {
  }

  /** After `n` buckets: the references in those are gone, everything else is untouched. */
  ghost predicate Scanned(vvNew: map<Slot, Id>, vvNew': map<Slot, Id>, id: Id, start: nat, n: nat)
    requires start < NEW_BUCKET_COUNT
  {
    && (forall slot :: slot in vvNew' ==> slot in vvNew && vvNew'[slot] == vvNew[slot])
    && (forall slot :: slot in vvNew && slot !in vvNew' ==> vvNew[slot] == id)
    && (forall slot :: slot in vvNew' && vvNew'[slot] == id ==> slot.0 < NEW_BUCKET_COUNT && Distance(start, slot.0) >= n)
  }

  lemma ScannedAll(vvNew: map<Slot, Id>, vvNew': map<Slot, Id>, id: Id, start: nat, n: nat)
    requires start < NEW_BUCKET_COUNT && Scanned(vvNew, vvNew', id, start, n)
    requires n == NEW_BUCKET_COUNT || Refs(vvNew', id) == {}
    ensures vvNew' == WithoutId(vvNew, id) && Refs(vvNew', id) == {}
  {
    forall slot | slot in vvNew'
      ensures vvNew'[slot] != id
    {
      assert slot !in Refs(vvNew', id) || Distance(start, slot.0) >= n;
    }
  }

  class AddrMan {
    const env: Env
    var mapInfo: map<Id, AddrInfo>
    var mapAddr: map<Service, Id>
    var vRandom: seq<Id>
    var vvNew: map<Slot, Id>
    var vvTried: map<Slot, Id>
    var nNew: int
    var nTried: int
    var idCount: int
    var lastGood: int
    var triedCollisions: set<Id>

    ghost function B(): Book
      reads this
    {
      Book(mapInfo, mapAddr, vRandom, vvNew, vvTried, idCount, nNew, nTried)
    }

    ghost predicate Valid()
      reads this
    {
      && Core(env, B()) && Counted(B()) && Settled(mapInfo, {})
      && Colliding(env, B(), triedCollisions)
    }

    constructor (env: Env)
      ensures this.env == env && Valid() && mapInfo == map[] && triedCollisions == {} && lastGood == 1
    {
      this.env := env;
      mapInfo, mapAddr, vRandom, vvNew, vvTried := map[], map[], [], map[], map[];
      nNew, nTried, idCount, lastGood, triedCollisions := 0, 0, 0, 1, {};
    }

    method SwapRandom(i: int, j: int)
      requires i != j ==> CanSwap(B(), i, j)
      modifies this`mapInfo, this`vRandom
      ensures B() == Swapped(old(B()), i, j)
    {
      if i == j {
        return;
      }
      var id1, id2 := vRandom[i], vRandom[j];
      mapInfo := mapInfo[id1 := mapInfo[id1].(randomPos := j)];
      mapInfo := mapInfo[id2 := mapInfo[id2].(randomPos := i)];
      vRandom := vRandom[i := id2][j := id1];
    }

    method Create(data: Data) returns (id: Id)
      modifies this`mapInfo, this`mapAddr, this`vRandom, this`idCount
      ensures id == old(idCount) && B() == Created(old(B()), data)
    {
      id := idCount;
      idCount := idCount + 1;
      mapInfo := mapInfo[id := AddrInfo(data, 0, false, |vRandom|)];
      mapAddr := mapAddr[data.service := id];
      vRandom := vRandom + [id];
    }

    method Delete(id: Id)
      requires CanDelete(B(), id)
      modifies this`mapInfo, this`mapAddr, this`vRandom, this`nNew
      ensures B() == Deleted(old(B()), id)
    {
      SwapRandom(mapInfo[id].randomPos, |vRandom| - 1);
      vRandom := vRandom[..|vRandom| - 1];
      mapAddr := mapAddr - {mapInfo[id].data.service};
      mapInfo := mapInfo - {id};
      nNew := nNew - 1;
    }

    method ClearNew(slot: Slot)
      requires CanClear(B(), slot)
      modifies this`mapInfo, this`mapAddr, this`vRandom, this`vvNew, this`nNew
      ensures B() == ClearedNew(old(B()), slot)
    {
      if slot in vvNew {
        var id := vvNew[slot];
        mapInfo := mapInfo[id := mapInfo[id].(refCount := mapInfo[id].refCount - 1)];
        vvNew := vvNew - {slot};
        if mapInfo[id].refCount == 0 {
          Delete(id);
        }
      }
    }

    /** Goes through all buckets, from the entry's own one on, until no reference is left. */
    method RemoveRefs(id: Id)
      requires RefsPlaced(env, B(), id)
      modifies this`mapInfo, this`vvNew
      ensures B() == Unreferenced(old(B()), id)
    {
      var data := mapInfo[id].data;
      var start := NewSlot(env, data.service, data.source).0;
      ghost var m, table := mapInfo, vvNew;
      assert m == m[id := m[id].(refCount := |Refs(table, id)|)];
      var n: nat := 0;
      while n < NEW_BUCKET_COUNT
        invariant n <= NEW_BUCKET_COUNT && Scanned(table, vvNew, id, start, n)
        invariant mapInfo == m[id := m[id].(refCount := |Refs(vvNew, id)|)]
      {
        var bucket := Turn(start, n);
        var slot := (bucket, Position(env, data.service, true, bucket));
        ScanStep(env, table, vvNew, id, data.service, start, n);
        if slot in vvNew && vvNew[slot] == id {
          RefsWithout(vvNew, slot, id);
          vvNew := vvNew - {slot};
          mapInfo := mapInfo[id := mapInfo[id].(refCount := mapInfo[id].refCount - 1)];
          if mapInfo[id].refCount == 0 {
            break;
          }
        }
        n := n + 1;
      }
      ScannedAll(table, vvNew, id, start, n);
      assert |Refs(vvNew, id)| == 0;
    }

    method MakeTried(id: Id)
      requires id in mapInfo && RefsPlaced(env, B(), id) && !mapInfo[id].inTried
      requires CanEvict(env, Unreferenced(B(), id).(nNew := nNew - 1), TriedSlot(env, mapInfo[id].data.service))
      modifies this`mapInfo, this`mapAddr, this`vRandom, this`vvNew, this`vvTried, this`nNew, this`nTried
      ensures B() == MadeTried(env, old(B()), id)
    {
      hide CanEvict, Evicted, RefsPlaced;
      var slot := TriedSlot(env, mapInfo[id].data.service);
      RemoveRefs(id);
      nNew := nNew - 1;
      assert mapInfo[id].refCount == 0;
      if slot in vvTried {
        EvictedKeeps(env, B(), slot, id);
        Evict(slot);
      } else {
        EvictedNone(env, B(), slot);
      }
      vvTried := vvTried[slot := id];
      nTried := nTried + 1;
      mapInfo := mapInfo[id := mapInfo[id].(inTried := true)];
    }

    method Evict(slot: Slot)
      requires slot in vvTried && CanEvict(env, B(), slot)
      modifies this`mapInfo, this`mapAddr, this`vRandom, this`vvNew, this`vvTried, this`nNew, this`nTried
      ensures B() == Evicted(env, old(B()), slot)
    {
      hide CanClear, ClearedNew, NewSlot;
      var id := vvTried[slot];
      mapInfo := mapInfo[id := mapInfo[id].(inTried := false)];
      vvTried := vvTried - {slot};
      nTried := nTried - 1;
      var to := NewSlot(env, mapInfo[id].data.service, mapInfo[id].data.source);
      ClearedKeeps(B(), to, id);
      ClearNew(to);
      mapInfo := mapInfo[id := mapInfo[id].(refCount := 1)];
      vvNew := vvNew[to := id];
      nNew := nNew + 1;
    }

    // ---- Operations on one known address ----

    /** Replaces the statistics of an entry. */
    method Edit(id: Id, data: Data)
      requires Valid() && id in mapInfo && data.service == mapInfo[id].data.service
      modifies this`mapInfo
      ensures Grows(old(B()), B()) && B() == Edited(old(B()), id, data)
      ensures Valid() <==> TimesOk(data, old(mapInfo)[id].inTried)
    {
      hide Core;
      if TimesOk(data, mapInfo[id].inTried) {
        EditedCore(env, B(), id, data);
      } else {
        EditedTimes(env, B(), id, data);
      }
      EditedRest(env, B(), id, data, triedCollisions);
      hide Counted, Settled, Colliding;
      mapInfo := mapInfo[id := mapInfo[id].(data := data)];
    }

    /** A connection attempt was made; a time before the epoch would be found by the self-check. */
    method Attempt(s: Service, countFailure: bool, time: int)
      requires Valid()
      modifies this`mapInfo
      ensures Grows(old(B()), B()) && (Valid() <==> s !in mapAddr || time >= 0)
      ensures s !in mapAddr ==> B() == old(B())
      ensures s in mapAddr ==> mapAddr[s] in mapInfo && B() == Edited(old(B()), mapAddr[s], mapInfo[mapAddr[s]].data)
                               && IsTried(old(mapInfo)[mapAddr[s]].data, countFailure, lastGood, time, mapInfo[mapAddr[s]].data)
    {
      if s in mapAddr {
        FoundAt(env, B(), s);
        hide Core, Counted, Settled, Colliding;
        var id := mapAddr[s];
        var data := Tried(mapInfo[id].data, countFailure, lastGood, time);
        Edit(id, data);
      }
    }

    /** A successful connection was closed. */
    method Connected(s: Service, time: int)
      requires Valid()
      modifies this`mapInfo
      ensures Valid() && Grows(old(B()), B())
      ensures B() == if s in mapAddr && time - old(mapInfo)[mapAddr[s]].data.time > 1200
                     then Edited(old(B()), mapAddr[s], old(mapInfo)[mapAddr[s]].data.(time := time))
                     else old(B())
    {
      if s in mapAddr {
        FoundAt(env, B(), s);
        hide Core, Counted, Settled, Colliding;
        var id := mapAddr[s];
        if time - mapInfo[id].data.time > 1200 {
          Edit(id, mapInfo[id].data.(time := time));
        }
      }
    }

    method SetServices(s: Service, services: bv64)
      requires Valid()
      modifies this`mapInfo
      ensures Valid() && Grows(old(B()), B())
      ensures B() == if s in mapAddr then Edited(old(B()), mapAddr[s], old(mapInfo)[mapAddr[s]].data.(services := services))
                     else old(B())
    {
      if s in mapAddr {
        FoundAt(env, B(), s);
        hide Core, Counted, Settled, Colliding;
        var id := mapAddr[s];
        Edit(id, mapInfo[id].data.(services := services));
      }
    }

    // ---- Hearing of an address ----

    /** Hears of an address from a source. */
    method AddSingle(addr: Address, source: nat, timePenalty: int, now: int, draw: nat) returns (added: bool)
      requires Valid()
      modifies this
      ensures Valid() && Grows(old(B()), B()) && triedCollisions == old(triedCollisions) && lastGood == old(lastGood)
      ensures Hears(env, old(B()), addr, source, timePenalty, now, draw, B(), added)
    {
      hide Core, Counted, Settled, Colliding, Grows;
      if !env.isRoutable(addr.service) {
        GrowsRefl(B());
        return false;
      }
      var penalty := timePenalty;
      if addr.service.host == source {
        penalty := 0;
      }
      hide Hears;
      if addr.service in mapAddr {
        added := HearAgain(addr, source, timePenalty, penalty, now, draw);
      } else {
        added := HearFirst(addr, source, timePenalty, penalty, now, draw);
      }
    }

    method HearAgain(addr: Address, source: nat, ghost timePenalty: int, penalty: int, now: int, draw: nat) returns (added: bool)
      requires Valid() && env.isRoutable(addr.service) && addr.service in mapAddr && penalty == Penalty(addr, source, timePenalty)
      modifies this
      ensures Valid() && Grows(old(B()), B()) && triedCollisions == old(triedCollisions) && lastGood == old(lastGood)
      ensures Hears(env, old(B()), addr, source, timePenalty, now, draw, B(), added)
    {
      hide Core, Counted, Settled, Colliding, Grows, Kept, Heard, GivesWay, Pow2, Refreshed, NewSlot, Penalty;
      ghost var b, data := B(), Heard(B(), addr, source, timePenalty, now);
      var id := mapAddr[addr.service];
      FoundAt(env, b, addr.service);
      EditedData(env, b, id, addr, source, timePenalty, now);
      RefreshedKeeps(mapInfo[id].data, addr, penalty, now);
      var heard := Refresh(mapInfo[id].data, addr, penalty, now);
      Edit(id, heard);
      KnownNow(env, B(), data);
      NonNegRefs(env, b, id);
      RefsBound(env, b, id);
      if addr.time <= mapInfo[id].data.time || mapInfo[id].inTried || mapInfo[id].refCount == NEW_BUCKETS_PER_ADDRESS {
        return false;
      }
      var factor := Factor(mapInfo[id].refCount);
      FactorOne(mapInfo[id].refCount);
      if factor > 1 && draw % factor != 0 {
        return false;
      }
      SettledBut(mapInfo, id);
      NewSlotPlace(env, addr.service, source);
      EditedGivesWay(b, NewSlot(env, addr.service, source), id, mapInfo[id].data, mapInfo[id].refCount, now);
      added := PlaceNew(id, NewSlot(env, addr.service, source), now, b, data);
    }

    method HearFirst(addr: Address, source: nat, ghost timePenalty: int, penalty: int, now: int, ghost draw: nat) returns (added: bool)
      requires Valid() && env.isRoutable(addr.service) && addr.service !in mapAddr && penalty == Penalty(addr, source, timePenalty)
      modifies this
      ensures Valid() && Grows(old(B()), B()) && triedCollisions == old(triedCollisions) && lastGood == old(lastGood)
      ensures Hears(env, old(B()), addr, source, timePenalty, now, draw, B(), added)
    {
      hide Core, Counted, Settled, Colliding, Grows, Kept, Heard, GivesWay, Pow2, FreshData, NewSlot, Penalty;
      ghost var b, data := B(), Heard(B(), addr, source, timePenalty, now);
      CreatedData(env, b, addr, source, timePenalty, now);
      FreshIs(addr, source, penalty);
      CreatedRest(env, b, FreshData(addr, source, penalty), triedCollisions);
      CreatedGivesWay(env, b, NewSlot(env, addr.service, source), FreshData(addr, source, penalty), now);
      NewSlotPlace(env, addr.service, source);
      var first := FirstHeard(addr, source, penalty);
      var id := Create(first);
      nNew := nNew + 1;
      added := PlaceNew(id, NewSlot(env, addr.service, source), now, b, data);
    }

    /** Hears of several, one after the other; `draws` are the random numbers drawn for them. */
    method Add(addrs: seq<Address>, source: nat, timePenalty: int, now: int, draws: nat -> nat)
      returns (any: bool, ghost books: seq<Book>, ghost added: seq<bool>)
      requires Valid()
      modifies this
      ensures Valid() && Grows(old(B()), B()) && triedCollisions == old(triedCollisions) && lastGood == old(lastGood)
      ensures |books| == |addrs| + 1 && books[0] == old(B()) && books[|addrs|] == B() && |added| == |addrs|
      ensures forall i :: 0 <= i < |addrs| ==>
                Hears(env, books[i], addrs[i], source, timePenalty, now, draws(i), books[i + 1], added[i])
      ensures any <==> true in added
    {
      hide Core, Counted, Settled, Colliding, Grows, Hears;
      any, books, added := false, [B()], [];
      GrowsRefl(B());
      for n := 0 to |addrs|
        invariant Valid() && Grows(old(B()), B()) && triedCollisions == old(triedCollisions) && lastGood == old(lastGood)
        invariant |books| == n + 1 && books[0] == old(B()) && books[n] == B() && |added| == n
        invariant forall i :: 0 <= i < n ==>
                    Hears(env, books[i], addrs[i], source, timePenalty, now, draws(i), books[i + 1], added[i])
        invariant any <==> true in added
      {
        ghost var b := B();
        var one := AddSingle(addrs[n], source, timePenalty, now, draws(n));
        GrowsTrans(old(B()), b, B());
        any, books, added := any || one, books + [B()], added + [one];
      }
    }

    /** Tries to put an entry into a slot of the new table; an entry left without any goes. */
    method PlaceNew(id: Id, slot: Slot, now: int, ghost b: Book, ghost data: map<Id, Data>) returns (inserted: bool)
      requires Core(env, B()) && Counted(B()) && Settled(mapInfo, {id}) && Colliding(env, B(), triedCollisions)
      requires Grows(b, B()) && DataOf(mapInfo) == data && vvNew == b.vvNew && vvTried == b.vvTried
      requires id in mapInfo && !mapInfo[id].inTried && mapInfo[id].refCount < NEW_BUCKETS_PER_ADDRESS
      requires slot.0 < NEW_BUCKET_COUNT && slot.1 == Position(env, mapInfo[id].data.service, true, slot.0)
      modifies this`mapInfo, this`mapAddr, this`vRandom, this`vvNew, this`nNew
      ensures Valid() && Grows(b, B()) && DataOf(mapInfo) == Kept(data, vvNew, vvTried)
      ensures vvNew == (if inserted then b.vvNew[slot := id] else b.vvNew) && vvTried == b.vvTried
      ensures inserted <==> GivesWay(old(B()), slot, id, old(mapInfo)[id].refCount, now)
    {
      hide Core, Counted, Settled, Colliding, Grows, Kept, Places, CanClear, ClearedNew, Deleted, CanDelete;
      ghost var b1 := B();
      inserted := slot !in vvNew;
      if slot in vvNew && vvNew[slot] == id {
        WithoutRefCore(env, b1, slot);
        RefSettles(mapInfo, id);
        KnownNow(env, b1, data);
        return;
      }
      if slot in vvNew {
        WithoutRefCore(env, b1, slot);
        var existing := mapInfo[vvNew[slot]];
        inserted := IsTerrible(existing.data, now) || (existing.refCount > 1 && mapInfo[id].refCount == 0);
      }
      NonNegRefs(env, b1, id);
      if inserted {
        PlacesDone(env, b, b1, slot, id, data, triedCollisions);
        ClearNew(slot);
        mapInfo := mapInfo[id := mapInfo[id].(refCount := mapInfo[id].refCount + 1)];
        vvNew := vvNew[slot := id];
      } else if mapInfo[id].refCount == 0 {
        DropsDone(env, b, b1, id, data, triedCollisions);
        Delete(id);
      } else {
        RefSettles(mapInfo, id);
        KnownNow(env, b1, data);
      }
    }

    /** A connection succeeded: the entry goes to the tried table, unless its place there is taken
        and is to be tested first. */
    method Good(s: Service, testBeforeEvict: bool, time: int)
      requires Valid() && time > 0
      modifies this
      ensures Valid() && Grows(old(B()), B()) && lastGood == time
      ensures s !in old(mapAddr) ==> B() == old(B()) && triedCollisions == old(triedCollisions)
      ensures s in old(mapAddr) ==>
                var id := old(mapAddr)[s];
                var b := Edited(old(B()), id, old(mapInfo)[id].data.(lastSuccess := time, lastTry := time, attempts := 0));
                var collides := testBeforeEvict && TriedSlot(env, s) in old(vvTried);
                && (old(mapInfo)[id].inTried || collides ==> B() == b)
                && (!old(mapInfo)[id].inTried && !collides ==> Moves(env, b, id, B()))
                && triedCollisions == old(triedCollisions) +
                     if collides && !old(mapInfo)[id].inTried && |old(triedCollisions)| < 10 then {id} else {}
    {
      hide Core, Counted, Settled, Colliding, Moves, Grows;
      ghost var b := B();
      GrowsRefl(b);
      lastGood := time;
      if s !in mapAddr {
        return;
      }
      FoundAt(env, B(), s);
      var id := mapAddr[s];
      Edit(id, mapInfo[id].data.(lastSuccess := time, lastTry := time, attempts := 0));
      if mapInfo[id].inTried {
        return;
      }
      SettledHas(mapInfo, id);
      var slot := TriedSlot(env, s);
      if testBeforeEvict && slot in vvTried {
        if |triedCollisions| < TRIED_COLLISION_SIZE {
          CollidingMore(env, B(), triedCollisions, id);
          triedCollisions := triedCollisions + {id};
        }
      } else {
        ghost var b1 := B();
        Promote(id);
        GrowsTrans(b, b1, B());
      }
    }

    // ---- Entries waiting for a tried slot ----

    /** Decides about the entries that wait for a tried slot someone else has. */
    method ResolveCollisions(now: int) returns (ghost order: seq<Id>, ghost books: seq<Book>)
      requires Valid() && now > 0
      modifies this
      ensures Valid() && Grows(old(B()), B()) && triedCollisions <= old(triedCollisions)
      ensures Enumerates(order, old(triedCollisions))
      ensures |books| == |order| + 1 && books[0] == old(B()) && books[|order|] == B()
      ensures forall k :: 0 <= k < |order| ==> Resolves(env, books[k], order[k], now, books[k + 1], order[k] !in triedCollisions)
    {
      hide Core, Counted, Settled, Colliding, Grows, Resolves;
      GrowsRefl(B());
      var todo := triedCollisions;
      order, books := [], [B()];
      while todo != {}
        invariant Valid() && Grows(old(B()), B())
        invariant todo <= triedCollisions <= old(triedCollisions)
        invariant Enumerates(order, old(triedCollisions) - todo)
        invariant |books| == |order| + 1 && books[0] == old(B()) && books[|order|] == B()
        invariant forall k :: 0 <= k < |order| ==> Resolves(env, books[k], order[k], now, books[k + 1], order[k] !in triedCollisions)
        decreases todo
      {
        SomeId(todo);
        var id :| id in todo;
        ghost var b := B();
        var erase := ResolveOne(id, now);
        GrowsTrans(old(B()), b, B());
        EnumerateMore(order, old(triedCollisions), todo, id);
        todo := todo - {id};
        if erase {
          CollidingLess(env, B(), triedCollisions, id);
          triedCollisions := triedCollisions - {id};
        }
        order, books := order + [id], books + [B()];
      }
      assert old(triedCollisions) - todo == old(triedCollisions);
    }

    /** Decides about one of them. Its place in the tried table is always taken. */
    method ResolveOne(id: Id, now: int) returns (erase: bool)
      requires Valid() && now > 0 && id in triedCollisions
      modifies this
      ensures Valid() && Grows(old(B()), B()) && triedCollisions == old(triedCollisions)
      ensures Resolves(env, old(B()), id, now, B(), erase)
    {
      hide Core, Counted, Settled, Grows, Moves, Colliding;
      GrowsRefl(B());
      if id !in mapInfo {
        return true;
      }
      CollidingAt(env, B(), triedCollisions, id);
      var data := mapInfo[id].data;
      var other := mapInfo[vvTried[TriedSlot(env, data.service)]].data;
      erase := false;
      if !env.isValid(data.service) {
        erase := true;
      } else if now - other.lastSuccess < REPLACEMENT {
        erase := true;
      } else if now - other.lastTry < REPLACEMENT {
        if now - other.lastTry > 60 {
          Good(data.service, false, now);
          erase := true;
        }
      } else if now - data.lastSuccess > TEST_WINDOW {
        Good(data.service, false, now);
        erase := true;
      }
    }

    /** The tried entry that someone is waiting to replace, for a connection to be tested. */
    method SelectTriedCollision() returns (some: bool, tested: Data)
      requires Valid()
      modifies this`triedCollisions
      ensures Valid() && triedCollisions <= old(triedCollisions)
      ensures some ==> triedCollisions == old(triedCollisions) && exists id, slot ::
                id in triedCollisions && id in mapInfo && slot == TriedSlot(env, mapInfo[id].data.service) &&
                slot in vvTried && vvTried[slot] in mapInfo && tested == mapInfo[vvTried[slot]].data
      ensures !some && old(triedCollisions) != {} ==>
                exists id :: id in old(triedCollisions) && id !in mapInfo && triedCollisions == old(triedCollisions) - {id}
    {
      hide Core, Counted, Settled, Colliding;
      some, tested := false, NO_DATA;
      if triedCollisions == {} {
        return;
      }
      SomeId(triedCollisions);
      var id :| id in triedCollisions;
      if id !in mapInfo {
        CollidingLess(env, B(), triedCollisions, id);
        triedCollisions := triedCollisions - {id};
        return;
      }
      CollidingAt(env, B(), triedCollisions, id);
      var slot := TriedSlot(env, mapInfo[id].data.service);
      some, tested := true, mapInfo[vvTried[slot]].data;
    }

    /** A random choice of entries worth passing on. Shuffles as it goes, so that no entry comes twice. */
    method GetAddr(maxAddresses: nat, maxPct: nat, network: Option<nat>, now: int) returns (addrs: seq<Data>)
      requires Valid()
      modifies this`mapInfo, this`vRandom
      ensures Valid() && Grows(old(B()), B()) && SameEntries(mapInfo, old(mapInfo))
      ensures (maxPct != 0 ==> |addrs| * 100 <= maxPct * |vRandom|) && (maxAddresses != 0 ==> |addrs| <= maxAddresses)
      ensures forall i :: 0 <= i < |addrs| ==> Offered(env, addrs[i], network, now) && addrs[i] in DataOf(mapInfo).Values
      ensures forall i, j :: 0 <= i < j < |addrs| ==> addrs[i].service != addrs[j].service
      ensures (maxPct != 0 ==> (|addrs| + 1) * 100 <= maxPct * |vRandom|) && (maxAddresses != 0 ==> |addrs| < maxAddresses) ==>
                forall id :: id in mapInfo && Offered(env, mapInfo[id].data, network, now) ==> mapInfo[id].data in addrs
    {
      hide Core, Counted, Settled, Colliding, Grows, SameEntries, Swapped, Picked, Offered;
      ghost var b := B();
      SameRefl(mapInfo);
      GrowsRefl(b);
      addrs := [];
      var nodes := |vRandom|;
      if maxPct != 0 {
        nodes := Percent(maxPct, nodes);
      }
      ghost var share := nodes;
      if maxAddresses != 0 && maxAddresses < nodes {
        nodes := maxAddresses;
      }
      var n := 0;
      NonePicked(env, DataOf(mapInfo), network, now);
      while n < |vRandom| && |addrs| < nodes
        invariant Valid() && Grows(b, B()) && SameEntries(mapInfo, b.mapInfo) && |vRandom| == |b.vRandom|
        invariant |addrs| <= n <= |vRandom| && |addrs| <= nodes
        invariant addrs == Picked(env, DataOf(mapInfo), vRandom[..n], network, now)
      {
        ghost var r, m := vRandom, mapInfo;
        var j :| n <= j < |vRandom|;
        SwappedStep(env, B(), n, j, triedCollisions);
        GrowsTrans(b, B(), Swapped(B(), n, j));
        SameTrans(Swapped(B(), n, j).mapInfo, mapInfo, b.mapInfo);
        SwapRandom(n, j);
        assert vRandom[..n + 1] == r[..n] + [vRandom[n]];
        PickedMore(env, DataOf(mapInfo), r[..n], vRandom[n], network, now);
        var data := mapInfo[vRandom[n]].data;
        assert DataOf(mapInfo)[vRandom[n]] == data;
        if Offered(env, data, network, now) {
          addrs := addrs + [data];
        }
        n := n + 1;
      }
      if maxPct != 0 {
        PercentIs(maxPct, |vRandom|, |addrs|);
      }
      PickedFrom(env, B(), n, network, now);
    }

    /** Moves an entry with a recorded success to the tried table. */
    method Promote(id: Id)
      requires Valid() && id in mapInfo && !mapInfo[id].inTried && mapInfo[id].data.lastSuccess != 0
      modifies this`mapInfo, this`mapAddr, this`vRandom, this`vvNew, this`vvTried, this`nNew, this`nTried
      ensures Valid() && Grows(old(B()), B()) && id in old(mapInfo) && Moves(env, old(B()), id, B())
    {
      hide Core, Counted, Settled, Colliding, Grows, Moves, MadeTried, RefsPlaced, CanEvict, Unreferenced;
      ghost var b := B();
      SettledBut(mapInfo, id);
      PromoteReady(env, b, id);
      MadeTriedCore(env, b, id);
      MovesGrows(env, b, id, MadeTried(env, b, id));
      MovesSettled(env, b, id, MadeTried(env, b, id));
      CollidingGrows(env, b, MadeTried(env, b, id), triedCollisions);
      MakeTried(id);
    }
  }

  // ---- Hearing of an address, on values ----

  datatype Address = Address(service: Service, time: int, services: bv64)

  /** A source announcing itself is not penalised. */
  ghost function Penalty(addr: Address, source: nat, timePenalty: int): int {
    if addr.service.host == source then 0 else timePenalty
  }

  /** The services of two sets, each a bit. */
  function Either(a: bv64, b: bv64): bv64 { a | b }

  lemma EitherHas(a: bv64, b: bv64, service: bv64)
    ensures Either(a, b) & service == (a & service) | (b & service)
  {
  }

  /** The time moves forward in large steps only. */
  method Refresh(d: Data, addr: Address, penalty: int, now: int) returns (d': Data)
    ensures d' == Refreshed(d, addr, penalty, now)
  {
    hide Either;
    d' := d;
    var interval := if now - addr.time < 86400 then 3600 else 86400;
    if d.time < addr.time - interval - penalty {
      d' := d'.(time := if addr.time - penalty > 0 then addr.time - penalty else 0);
    }
    d' := d'.(services := Either(d'.services, addr.services));
  }

  method FirstHeard(addr: Address, source: nat, penalty: int) returns (d: Data)
    ensures d == FreshData(addr, source, penalty)
  {
    d := Data(addr.service, source, addr.time, addr.services, 0, 0, 0, 0);
    d := d.(time := if d.time - penalty > 0 then d.time - penalty else 0);
  }

  /** The odds against another reference. */
  method Factor(refs: int) returns (factor: nat)
    requires refs >= 0
    ensures factor == Pow2(refs)
  {
    factor := 1;
    for n := 0 to refs
      invariant factor == Pow2(n)
    {
      factor := factor * 2;
    }
  }

  lemma FactorOne(refs: nat)
    ensures refs == 0 ==> Pow2(refs) == 1
    ensures refs > 0 ==> Pow2(refs) > 1
  {
    if refs > 0 {
      Pow2Less(1, refs);
    }
  }

  /** An attempt is counted only if something worked since the last one that was. */
  method Tried(d: Data, countFailure: bool, lastGood: int, time: int) returns (d': Data)
    ensures IsTried(d, countFailure, lastGood, time, d')
  {
    d' := d.(lastTry := time);
    if countFailure && d.lastCountAttempt < lastGood {
      d' := d'.(lastCountAttempt := time, attempts := d.attempts + 1);
    }
  }

  ghost predicate IsTried(d: Data, countFailure: bool, lastGood: int, time: int, d': Data) {
    && d' == d.(lastTry := time, lastCountAttempt := d'.lastCountAttempt, attempts := d'.attempts)
    && (countFailure && d.lastCountAttempt < lastGood ==> d'.lastCountAttempt == time && d'.attempts == d.attempts + 1)
    && (!countFailure || d.lastCountAttempt >= lastGood ==> d'.lastCountAttempt == d.lastCountAttempt && d'.attempts == d.attempts)
  }

  ghost function NonNegative(t: int): int { if t < 0 then 0 else t }

  /** An entry heard of again: its time moves only in large steps, its services accumulate. */
  ghost function Refreshed(d: Data, addr: Address, penalty: int, now: int): Data {
    var interval := if now - addr.time < 86400 then 3600 else 86400;
    var d' := if d.time < addr.time - interval - penalty then d.(time := NonNegative(addr.time - penalty)) else d;
    d'.(services := Either(d.services, addr.services))
  }

  ghost function FreshData(addr: Address, source: nat, penalty: int): Data {
    Data(addr.service, source, NonNegative(addr.time - penalty), addr.services, 0, 0, 0, 0)
  }

  /** An address heard of again, if it stays: its services accumulate, and its time moves forward, if at all,
      only by more than an hour, or a day once it has been offline; nothing else changes. A source speaking
      of itself is not penalised. */
  lemma HeardAgain(env: Env, b: Book, addr: Address, source: nat, timePenalty: int, now: int, draw: nat, b': Book, added: bool)
    requires Core(env, b) && Hears(env, b, addr, source, timePenalty, now, draw, b', added)
    requires env.isRoutable(addr.service) && addr.service in b.mapAddr && b.mapAddr[addr.service] in b'.mapInfo
    ensures b.mapAddr[addr.service] in b.mapInfo
    ensures var (d, d') := (b.mapInfo[b.mapAddr[addr.service]].data, b'.mapInfo[b.mapAddr[addr.service]].data);
            var step := if now - addr.time < 86400 then 3600 else 86400;
            var heard := if addr.service.host == source then addr.time else addr.time - timePenalty;
            && d' == d.(time := d'.time, services := Either(d.services, addr.services))
            && (heard - step > d.time ==> d'.time == if heard < 0 then 0 else heard)
            && (heard - step <= d.time ==> d'.time == d.time)
  {
    FoundAt(env, b, addr.service);
    hide Core, MayRefer, GivesWay, NewSlot, Either;
    var id := b.mapAddr[addr.service];
    assert id in DataOf(b'.mapInfo) && DataOf(b'.mapInfo)[id] == b'.mapInfo[id].data;
    assert Heard(b, addr, source, timePenalty, now)[id] == b'.mapInfo[id].data;
    hide Kept, DataOf;
  }

  /** A new address, if it gets a slot. */
  lemma HeardFirst(env: Env, b: Book, addr: Address, source: nat, timePenalty: int, now: int, draw: nat, b': Book, added: bool)
    requires Core(env, b) && Hears(env, b, addr, source, timePenalty, now, draw, b', added)
    requires env.isRoutable(addr.service) && addr.service !in b.mapAddr
    ensures added <==> b.idCount in b'.mapInfo
    ensures added ==>
              var d := b'.mapInfo[b.idCount].data;
              var heard := if addr.service.host == source then addr.time else addr.time - timePenalty;
              && d.service == addr.service && d.source == source && d.services == addr.services
              && d.time == (if heard < 0 then 0 else heard)
              && d.lastTry == d.lastSuccess == d.lastCountAttempt == 0 && d.attempts == 0
  {
    NewUnplaced(env, b);
    hide Core;
    assert b.idCount in DataOf(b'.mapInfo) <==> b.idCount in b'.mapInfo;
    if added {
      var slot := NewSlot(env, addr.service, source);
      assert slot in b'.vvNew && b'.vvNew[slot] == b.idCount;
    }
  }

  lemma NewUnplaced(env: Env, b: Book)
    requires Core(env, b)
    ensures b.idCount !in b.mapInfo && b.idCount !in b.vvNew.Values && b.idCount !in b.vvTried.Values
  {
    NewId(env, b);
    assert forall slot :: slot in b.vvNew ==> b.vvNew[slot] in DataOf(b.mapInfo);
    assert forall slot :: slot in b.vvTried ==> b.vvTried[slot] in DataOf(b.mapInfo);
  }

  lemma NewSlotPlace(env: Env, s: Service, source: nat)
    ensures var slot := NewSlot(env, s, source); slot.0 < NEW_BUCKET_COUNT && slot.1 == Position(env, s, true, slot.0)
  {
  }

  lemma RefreshedKeeps(d: Data, addr: Address, penalty: int, now: int)
    ensures var d' := Refreshed(d, addr, penalty, now);
            d'.service == d.service && d'.lastTry == d.lastTry && d'.lastSuccess == d.lastSuccess
  {
  }

  lemma FreshIs(addr: Address, source: nat, penalty: int)
    ensures var d := FreshData(addr, source, penalty); d.service == addr.service && d.lastTry == d.lastSuccess == 0
  {
  }

  function IdFor(b: Book, s: Service): Id {
    if s in b.mapAddr then b.mapAddr[s] else b.idCount
  }

  ghost function Heard(b: Book, addr: Address, source: nat, timePenalty: int, now: int): map<Id, Data> {
    var penalty := Penalty(addr, source, timePenalty);
    var id := IdFor(b, addr.service);
    if addr.service in b.mapAddr && id in b.mapInfo then DataOf(b.mapInfo)[id := Refreshed(b.mapInfo[id].data, addr, penalty, now)]
    else DataOf(b.mapInfo)[id := FreshData(addr, source, penalty)]
  }

  /** Whether a slot of the new table is free, or its owner gives way: a terrible one always, and one
      that has other slots to an entry that has none. */
  ghost predicate GivesWay(b: Book, slot: Slot, id: Id, refs: int, now: int) {
    slot in b.vvNew ==>
      && b.vvNew[slot] != id && b.vvNew[slot] in b.mapInfo
      && var owner := b.mapInfo[b.vvNew[slot]];
         IsTerrible(owner.data, now) || (owner.refCount > 1 && refs == 0)
  }

  /** Whether an entry may have one more reference: not without news, not when tried, and the harder
      the more it has, by lottery. */
  ghost predicate MayRefer(b: Book, addr: Address, source: nat, timePenalty: int, now: int, draw: nat) {
    addr.service in b.mapAddr && b.mapAddr[addr.service] in b.mapInfo ==>
      var info := b.mapInfo[b.mapAddr[addr.service]];
      && addr.time > Refreshed(info.data, addr, Penalty(addr, source, timePenalty), now).time
      && !info.inTried && 0 <= info.refCount < 8 && draw % Pow2(info.refCount) == 0
  }

  ghost function RefsFor(b: Book, s: Service): int {
    if s in b.mapAddr && b.mapAddr[s] in b.mapInfo then b.mapInfo[b.mapAddr[s]].refCount else 0
  }

  /** What hearing of one address does. */
  ghost predicate Hears(env: Env, b: Book, addr: Address, source: nat, timePenalty: int, now: int, draw: nat, b': Book, added: bool) {
    var (id, slot) := (IdFor(b, addr.service), NewSlot(env, addr.service, source));
    && b'.vvTried == b.vvTried && b'.vvNew == (if added then b.vvNew[slot := id] else b.vvNew)
    && (added <==> env.isRoutable(addr.service) && MayRefer(b, addr, source, timePenalty, now, draw)
                   && GivesWay(b, slot, id, RefsFor(b, addr.service), now))
    && (if env.isRoutable(addr.service) then DataOf(b'.mapInfo) == Kept(Heard(b, addr, source, timePenalty, now), b'.vvNew, b'.vvTried)
        else b' == b)
  }

  lemma EditedGivesWay(b: Book, slot: Slot, id: Id, data: Data, refs: int, now: int)
    ensures GivesWay(Edited(b, id, data), slot, id, refs, now) == GivesWay(b, slot, id, refs, now)
  {
  }

  lemma CreatedGivesWay(env: Env, b: Book, slot: Slot, data: Data, now: int)
    requires Core(env, b)
    ensures GivesWay(Created(b, data).(nNew := b.nNew + 1), slot, b.idCount, 0, now) == GivesWay(b, slot, b.idCount, 0, now)
  {
    NewId(env, b);
    if slot in b.vvNew {
      WithoutRefCore(env, b, slot);
    }
  }

  lemma KnownNow(env: Env, b: Book, data: map<Id, Data>)
    requires Core(env, b) && Settled(b.mapInfo, {}) && DataOf(b.mapInfo) == data
    ensures data == Kept(data, b.vvNew, b.vvTried)
  {
    hide Core;
    KnownIffPlaced(env, b, data);
  }

  lemma RefSettles(m: Infos, id: Id)
    requires Settled(m, {id}) && id in m && m[id].refCount > 0
    ensures Settled(m, {})
  {
  }

  lemma RefsBound(env: Env, b: Book, id: Id)
    requires Core(env, b) && id in b.mapInfo
    ensures b.mapInfo[id].refCount <= NEW_BUCKETS_PER_ADDRESS
  {
    assert id in RefsOf(b.mapInfo);
  }

  lemma EditedData(env: Env, b: Book, id: Id, addr: Address, source: nat, timePenalty: int, now: int)
    requires Core(env, b) && addr.service in b.mapAddr && id == b.mapAddr[addr.service] && id in b.mapInfo
    ensures var d := Refreshed(b.mapInfo[id].data, addr, Penalty(addr, source, timePenalty), now);
            DataOf(Edited(b, id, d).mapInfo) == Heard(b, addr, source, timePenalty, now)
  {
    hide Core;
    var d := Refreshed(b.mapInfo[id].data, addr, Penalty(addr, source, timePenalty), now);
    Columns(b.mapInfo, id, b.mapInfo[id].(data := d));
  }

  lemma CreatedData(env: Env, b: Book, addr: Address, source: nat, timePenalty: int, now: int)
    requires Core(env, b) && addr.service !in b.mapAddr
    ensures var b' := Created(b, FreshData(addr, source, Penalty(addr, source, timePenalty)));
            DataOf(b'.mapInfo) == Heard(b, addr, source, timePenalty, now)
  {
    hide Core;
    var d := FreshData(addr, source, Penalty(addr, source, timePenalty));
    Columns(b.mapInfo, b.idCount, AddrInfo(d, 0, false, |b.vRandom|));
  }

  lemma CreatedRest(env: Env, b: Book, data: Data, collisions: set<Id>)
    requires Core(env, b) && Counted(b) && Settled(b.mapInfo, {}) && Colliding(env, b, collisions)
    requires data.service !in b.mapAddr && data.lastTry == data.lastSuccess == 0
    ensures var b' := Created(b, data).(nNew := b.nNew + 1);
            && Core(env, b') && Counted(b') && Settled(b'.mapInfo, {b.idCount})
            && Grows(b, b') && Colliding(env, b', collisions)
  {
    hide Core, Counted, Settled, Grows, Colliding;
    CreatedCore(env, b, data);
    CoreCounts(env, Created(b, data), b.nNew + 1, b.nTried);
    NewId(env, b);
    CreatedCounts(b, data);
    CreatedGrows(b, data);
    CollidingGrows(env, b, Created(b, data).(nNew := b.nNew + 1), collisions);
  }

  lemma CreatedCounts(b: Book, data: Data)
    requires Counted(b) && b.idCount !in b.mapInfo
    ensures Counted(Created(b, data).(nNew := b.nNew + 1))
  {
    assert Created(b, data).mapInfo.Keys == b.mapInfo.Keys + {b.idCount};
  }

  lemma CreatedGrows(b: Book, data: Data)
    requires Settled(b.mapInfo, {}) && b.idCount !in b.mapInfo
    ensures var b' := Created(b, data).(nNew := b.nNew + 1); Settled(b'.mapInfo, {b.idCount}) && Grows(b, b')
  {
  }

  lemma NewId(env: Env, b: Book)
    requires Core(env, b)
    ensures b.idCount !in b.mapInfo
  {
    assert b.idCount !in DataOf(b.mapInfo);
  }

  lemma PlacesDone(env: Env, b: Book, b1: Book, slot: Slot, id: Id, data: map<Id, Data>, collisions: set<Id>)
    requires Core(env, b1) && Counted(b1) && Settled(b1.mapInfo, {id}) && Colliding(env, b1, collisions)
    requires Grows(b, b1) && DataOf(b1.mapInfo) == data
    requires id in b1.mapInfo && !b1.mapInfo[id].inTried && b1.mapInfo[id].refCount < NEW_BUCKETS_PER_ADDRESS
    requires slot.0 < NEW_BUCKET_COUNT && slot.1 == Position(env, b1.mapInfo[id].data.service, true, slot.0)
    requires slot in b1.vvNew ==> b1.vvNew[slot] != id
    ensures CanClear(b1, slot) && id in ClearedNew(b1, slot).mapInfo
    ensures var b2 := Placed(b1, slot, id);
            && Core(env, b2) && Counted(b2) && Settled(b2.mapInfo, {}) && Colliding(env, b2, collisions) && Grows(b, b2)
            && DataOf(b2.mapInfo) == Kept(data, b2.vvNew, b2.vvTried)
            && b2.vvNew == b1.vvNew[slot := id] && b2.vvTried == b1.vvTried
  {
    hide Core, Counted, Settled, Colliding, Grows, Kept, CanClear, Clears, ClearedNew, WithRef;
    CoreCanClear(env, b1, slot);
    ClearedNewCore(env, b1, slot, {id});
    ClearsEntry(b1, slot, ClearedNew(b1, slot), {id}, id);
    PlacedCore(env, b1, slot, id);
    var b2 := Placed(b1, slot, id);
    KnownIffPlaced(env, b2, data);
    PlacesGrows(b1, slot, id, b2);
    GrowsTrans(b, b1, b2);
    CollidingGrows(env, b1, b2, collisions);
  }

  lemma PlacesGrows(b: Book, slot: Slot, id: Id, b': Book)
    requires Places(b, slot, id, b')
    ensures Grows(b, b')
  {
    WithinGrows(b, b');
  }

  lemma WithinGrows(b: Book, b': Book)
    requires Within(DataOf(b'.mapInfo), DataOf(b.mapInfo)) && b'.idCount == b.idCount
    requires forall slot :: slot in b.vvTried ==> slot in b'.vvTried
    ensures Grows(b, b')
  {
    forall i | i in b'.mapInfo
      ensures i in b.mapInfo && b'.mapInfo[i].data == b.mapInfo[i].data
    {
      assert i in DataOf(b'.mapInfo);
    }
  }

  lemma DropsDone(env: Env, b: Book, b1: Book, id: Id, data: map<Id, Data>, collisions: set<Id>)
    requires Core(env, b1) && Counted(b1) && Settled(b1.mapInfo, {id}) && Colliding(env, b1, collisions)
    requires Grows(b, b1) && DataOf(b1.mapInfo) == data
    requires id in b1.mapInfo && !b1.mapInfo[id].inTried && b1.mapInfo[id].refCount == 0
    ensures CanDelete(b1, id)
    ensures var b2 := Deleted(b1, id);
            && Core(env, b2) && Counted(b2) && Settled(b2.mapInfo, {}) && Colliding(env, b2, collisions) && Grows(b, b2)
            && DataOf(b2.mapInfo) == Kept(data, b2.vvNew, b2.vvTried)
            && b2.vvNew == b1.vvNew && b2.vvTried == b1.vvTried
  {
    hide Core, Colliding, Grows, Kept, Deleted, CanDelete, SameEntries;
    DeletedCore(env, b1, id);
    var b2 := Deleted(b1, id);
    DeletedCounts(b1, id, b2);
    DropsSettled(b1.mapInfo, id, b2.mapInfo);
    KnownIffPlaced(env, b2, data);
    WithinGrows(b1, b2);
    GrowsTrans(b, b1, b2);
    CollidingGrows(env, b1, b2, collisions);
  }

  lemma DropsSettled(m: Infos, id: Id, m': Infos)
    requires Settled(m, {id}) && SameEntries(m', m - {id})
    ensures Settled(m', {}) && Within(DataOf(m'), DataOf(m))
  {
    hide SameEntries;
    SameCard(m', m - {id});
    forall i | i in m'
      ensures i in m && i != id && m'[i] == m[i].(randomPos := m'[i].randomPos)
    {
      assert i in m - {id};
      EntryKept(m', m - {id}, i);
    }
  }

  /** Not worth keeping. */
  predicate IsTerrible(d: Data, now: int) {
    if now - d.lastTry <= 60 then false
    else
      || d.time > now + 600
      || now - d.time > 2592000
      || (d.lastSuccess == 0 && d.attempts >= 3)
      || (now - d.lastSuccess > 604800 && d.attempts >= 10)
  }

  predicate Offered(env: Env, d: Data, network: Option<nat>, now: int) {
    (network.Some? ==> env.network(d.service) == network.value) && !IsTerrible(d, now)
  }

  /** What is offered: of the network asked for, and tried within the last minute or else neither from the
      future nor unseen for thirty days nor hopeless. */
  lemma OfferedMeans(env: Env, d: Data, network: Option<nat>, now: int)
    ensures Offered(env, d, network, now) <==>
            && (network == None || network == Some(env.network(d.service)))
            && (d.lastTry >= now - 60 ||
                (&& now - 2592000 <= d.time <= now + 600
                 && (d.attempts < 3 || d.lastSuccess != 0) && (d.attempts < 10 || d.lastSuccess >= now - 604800)))
  {
  }

  function Percent(pct: nat, n: nat): nat { pct * n / 100 }

  lemma PercentIs(pct: nat, n: nat, k: nat)
    ensures k <= Percent(pct, n) <==> k * 100 <= pct * n
    ensures k < Percent(pct, n) <==> (k + 1) * 100 <= pct * n
  {
  }

  /** The entries on offer among some ids, in their order. */
  ghost function Picked(env: Env, data: map<Id, Data>, ids: seq<Id>, network: Option<nat>, now: int): seq<Data> {
    if ids == [] then []
    else
      var before := Picked(env, data, ids[..|ids| - 1], network, now);
      var id := ids[|ids| - 1];
      if id in data && Offered(env, data[id], network, now) then before + [data[id]] else before
  }

  lemma NonePicked(env: Env, data: map<Id, Data>, network: Option<nat>, now: int)
    ensures Picked(env, data, [], network, now) == []
  {
  }

  lemma PickedMore(env: Env, data: map<Id, Data>, ids: seq<Id>, id: Id, network: Option<nat>, now: int)
    requires id in data
    ensures Picked(env, data, ids + [id], network, now) ==
            Picked(env, data, ids, network, now) + if Offered(env, data[id], network, now) then [data[id]] else []
  {
    assert (ids + [id])[..|ids|] == ids;
  }

  lemma SameRefl(m: Infos)
    ensures SameEntries(m, m)
  {
  }

  lemma SameTrans(m: Infos, m': Infos, m'': Infos)
    requires SameEntries(m, m') && SameEntries(m', m'')
    ensures SameEntries(m, m'')
  {
  }

  lemma SwappedStep(env: Env, b: Book, i: int, j: int, collisions: set<Id>)
    requires Core(env, b) && Counted(b) && Settled(b.mapInfo, {}) && Colliding(env, b, collisions)
    requires 0 <= i <= j < |b.vRandom|
    ensures CanSwap(b, i, j)
    ensures var b' := Swapped(b, i, j);
            && Core(env, b') && Counted(b') && Settled(b'.mapInfo, {}) && Colliding(env, b', collisions)
            && Grows(b, b') && SameEntries(b'.mapInfo, b.mapInfo) && DataOf(b'.mapInfo) == DataOf(b.mapInfo)
            && |b'.vRandom| == |b.vRandom| && b'.vRandom[..i] == b.vRandom[..i] && b'.vRandom[i] in b'.mapInfo
  {
    hide Core, Colliding, Grows;
    var b' := Swapped(b, i, j);
    SwappedCore(env, b, i, j);
    CoreRandom(env, b', i);
    assert b'.vRandom[..i] == b.vRandom[..i];
    assert b' == b.(mapInfo := b'.mapInfo, vRandom := b'.vRandom);
    hide Swapped;
    SameCard(b'.mapInfo, b.mapInfo);
    SettledSame(b'.mapInfo, b.mapInfo, {});
    WithinGrows(b, b');
    CollidingGrows(env, b, b', collisions);
  }

  lemma CoreRandom(env: Env, b: Book, i: int)
    requires Core(env, b) && 0 <= i < |b.vRandom|
    ensures b.vRandom[i] in b.mapInfo
  {
    assert b.vRandom[i] in PosOf(b.mapInfo);
  }

  /** What the entries on offer among the first ids of the random order are. */
  lemma PickedFrom(env: Env, b: Book, n: nat, network: Option<nat>, now: int)
    requires Core(env, b) && n <= |b.vRandom|
    ensures var addrs := Picked(env, DataOf(b.mapInfo), b.vRandom[..n], network, now);
            && (forall i :: 0 <= i < |addrs| ==> Offered(env, addrs[i], network, now) && addrs[i] in DataOf(b.mapInfo).Values)
            && (forall i, j :: 0 <= i < j < |addrs| ==> addrs[i].service != addrs[j].service)
            && (n == |b.vRandom| ==>
                  forall id :: id in b.mapInfo && Offered(env, b.mapInfo[id].data, network, now) ==> b.mapInfo[id].data in addrs)
  {
    hide Core, Offered;
    CoreDistinct(env, b);
    PickedAre(env, DataOf(b.mapInfo), b.vRandom[..n], network, now);
    var addrs := Picked(env, DataOf(b.mapInfo), b.vRandom[..n], network, now);
    if n == |b.vRandom| {
      forall id | id in b.mapInfo && Offered(env, b.mapInfo[id].data, network, now)
        ensures b.mapInfo[id].data in addrs
      {
        PosFacts(env, b, id);
        assert b.vRandom[..n][b.mapInfo[id].randomPos] == id;
        assert DataOf(b.mapInfo)[id] == b.mapInfo[id].data;
      }
    }
  }

  lemma CoreDistinct(env: Env, b: Book)
    requires Core(env, b)
    ensures var data := DataOf(b.mapInfo);
            && (forall k :: 0 <= k < |b.vRandom| ==> b.vRandom[k] in data)
            && (forall j, k :: 0 <= j < k < |b.vRandom| ==> b.vRandom[j] != b.vRandom[k])
            && (forall i, j :: i in data && j in data && i != j ==> data[i].service != data[j].service)
  {
  }

  lemma {:induction false} PickedAre(env: Env, data: map<Id, Data>, ids: seq<Id>, network: Option<nat>, now: int)
    requires forall k :: 0 <= k < |ids| ==> ids[k] in data
    requires forall j, k :: 0 <= j < k < |ids| ==> ids[j] != ids[k]
    requires forall i, j :: i in data && j in data && i != j ==> data[i].service != data[j].service
    ensures var addrs := Picked(env, data, ids, network, now);
            && (forall i :: 0 <= i < |addrs| ==> Offered(env, addrs[i], network, now) && FromIds(data, ids, addrs[i]))
            && (forall i, j :: 0 <= i < j < |addrs| ==> addrs[i].service != addrs[j].service)
            && (forall k :: 0 <= k < |ids| && Offered(env, data[ids[k]], network, now) ==> data[ids[k]] in addrs)
  {
    if ids != [] {
      var init, id := ids[..|ids| - 1], ids[|ids| - 1];
      PickedAre(env, data, init, network, now);
      var before := Picked(env, data, init, network, now);
      forall i | 0 <= i < |before|
        ensures FromIds(data, ids, before[i]) && before[i].service != data[id].service
      {
        var k :| 0 <= k < |init| && init[k] in data && data[init[k]] == before[i];
        assert ids[k] == init[k];
      }
      assert FromIds(data, ids, data[id]) by {
        assert ids[|ids| - 1] == id;
      }
      forall k | 0 <= k < |ids| && Offered(env, data[ids[k]], network, now)
        ensures data[ids[k]] in Picked(env, data, ids, network, now)
      {
        assert k < |init| ==> init[k] == ids[k];
      }
    }
  }

  ghost predicate FromIds(data: map<Id, Data>, ids: seq<Id>, d: Data) {
    exists k :: 0 <= k < |ids| && ids[k] in data && data[ids[k]] == d
  }

  const NO_DATA := Data(Service(0, 0), 0, 0, 0, 0, 0, 0, 0)

  // Four hours and forty minutes.
  const REPLACEMENT := 14400
  const TEST_WINDOW := 2400

  /** Whether an entry waiting for a tried slot gets it: its owner was not reached in the last four hours,
      and either was tried since and had a minute to answer, or was not tested in forty minutes. */
  ghost predicate TakesOver(owner: Data, waiting: Data, now: int) {
    && now - owner.lastSuccess >= 14400
    && (60 < now - owner.lastTry < 14400 || (now - owner.lastTry >= 14400 && now - waiting.lastSuccess > 2400))
  }

  /** What deciding about one waiting entry does; the slot it waits for is taken. */
  ghost predicate Resolves(env: Env, b: Book, id: Id, now: int, b': Book, erase: bool) {
    if id !in b.mapInfo then erase && b' == b
    else
      var (data, slot) := (b.mapInfo[id].data, TriedSlot(env, b.mapInfo[id].data.service));
      && slot in b.vvTried && b.vvTried[slot] in b.mapInfo
      && var owner := b.mapInfo[b.vvTried[slot]].data;
         && (erase <==> !env.isValid(data.service) || now - owner.lastSuccess < 14400 || TakesOver(owner, data, now))
         && var b1 := Edited(b, id, data.(lastSuccess := now, lastTry := now, attempts := 0));
            if !env.isValid(data.service) || !TakesOver(owner, data, now) then b' == b
            else if b.mapInfo[id].inTried then b' == b1
            else Moves(env, b1, id, b')
  }

  /** An owner that answered in the last four hours keeps its slot, and the other stops waiting. */
  lemma OwnerAnswered(env: Env, b: Book, id: Id, now: int, b': Book, erase: bool)
    requires Resolves(env, b, id, now, b', erase) && id in b.mapInfo
    requires now - b.mapInfo[b.vvTried[TriedSlot(env, b.mapInfo[id].data.service)]].data.lastSuccess < 14400
    ensures b' == b && erase
  {
  }

  /** An owner tried within the last minute has time to answer. */
  lemma OwnerHasTime(env: Env, b: Book, id: Id, now: int, b': Book, erase: bool)
    requires Resolves(env, b, id, now, b', erase) && id in b.mapInfo && env.isValid(b.mapInfo[id].data.service)
    requires var owner := b.mapInfo[b.vvTried[TriedSlot(env, b.mapInfo[id].data.service)]].data;
             now - owner.lastSuccess >= 14400 && now - owner.lastTry <= 60
    ensures b' == b && !erase
  {
  }

  /** Exactly when the slot changes hands. */
  lemma ChangesHands(env: Env, b: Book, id: Id, now: int, b': Book, erase: bool)
    requires Core(env, b) && Resolves(env, b, id, now, b', erase) && id in b.mapInfo
    ensures var (slot, waiting) := (TriedSlot(env, b.mapInfo[id].data.service), b.mapInfo[id]);
            var owner := b.mapInfo[b.vvTried[slot]].data;
            slot in b'.vvTried && (b'.vvTried[slot] != b.vvTried[slot] <==>
              && env.isValid(waiting.data.service) && !waiting.inTried && now - owner.lastSuccess >= 14400
              && (60 < now - owner.lastTry < 14400 || (now - owner.lastTry >= 14400 && now - waiting.data.lastSuccess > 2400)))
  {
    var slot := TriedSlot(env, b.mapInfo[id].data.service);
    assert b.vvTried[slot] in DataOf(b.mapInfo) && TriedOf(b.mapInfo)[b.vvTried[slot]];
    assert !b.mapInfo[id].inTried ==> b.vvTried[slot] != id;
    hide Core;
  }

  ghost predicate Enumerates(order: seq<Id>, ids: set<Id>) {
    && (forall id :: id in order <==> id in ids)
    && (forall i, j :: 0 <= i < j < |order| ==> order[i] != order[j])
  }

  lemma EnumerateMore(order: seq<Id>, all: set<Id>, todo: set<Id>, id: Id)
    requires id in todo && todo <= all && Enumerates(order, all - todo)
    ensures Enumerates(order + [id], all - (todo - {id}))
  {
    assert id !in order;
  }

  lemma CollidingLess(env: Env, b: Book, collisions: set<Id>, id: Id)
    requires Colliding(env, b, collisions)
    ensures Colliding(env, b, collisions - {id})
  {
    if id in collisions {
      assert |collisions - {id}| == |collisions| - 1;
    } else {
      assert collisions - {id} == collisions;
    }
  }

  lemma CollidingAt(env: Env, b: Book, collisions: set<Id>, id: Id)
    requires Core(env, b) && Colliding(env, b, collisions) && id in collisions && id in b.mapInfo
    ensures var s := b.mapInfo[id].data.service;
            && s in b.mapAddr && b.mapAddr[s] == id
            && TriedSlot(env, s) in b.vvTried && b.vvTried[TriedSlot(env, s)] in b.mapInfo
  {
    var s := b.mapInfo[id].data.service;
    assert id in DataOf(b.mapInfo) && DataOf(b.mapInfo)[id].service == s;
    assert b.vvTried[TriedSlot(env, s)] in DataOf(b.mapInfo);
  }

  lemma SettledBut(m: Infos, id: Id)
    requires Settled(m, {})
    ensures Settled(m, {id})
  {
  }

  lemma SettledHas(m: Infos, id: Id)
    requires Settled(m, {}) && id in m && !m[id].inTried
    ensures m[id].refCount > 0
  {
  }

  lemma CollidingMore(env: Env, b: Book, collisions: set<Id>, id: Id)
    requires Core(env, b) && Colliding(env, b, collisions) && |collisions| < TRIED_COLLISION_SIZE
    requires id in b.mapInfo && TriedSlot(env, b.mapInfo[id].data.service) in b.vvTried
    ensures Colliding(env, b, collisions + {id})
  {
    assert id in DataOf(b.mapInfo);
    assert id !in collisions ==> |collisions + {id}| == |collisions| + 1;
    assert id in collisions ==> collisions + {id} == collisions;
  }

  lemma PromoteReady(env: Env, b: Book, id: Id)
    requires Core(env, b) && id in b.mapInfo && !b.mapInfo[id].inTried
    ensures RefsPlaced(env, b, id)
    ensures CanEvict(env, Unreferenced(b, id).(nNew := b.nNew - 1), TriedSlot(env, b.mapInfo[id].data.service))
  {
    hide Core, CanEvict;
    CoreRefsPlaced(env, b, id);
    UnreferencedCore(env, b, id);
    CoreCounts(env, Unreferenced(b, id), b.nNew - 1, b.nTried);
    CoreCanEvict(env, Unreferenced(b, id).(nNew := b.nNew - 1), TriedSlot(env, b.mapInfo[id].data.service));
  }

  lemma FoundAt(env: Env, b: Book, s: Service)
    requires Core(env, b) && s in b.mapAddr
    ensures b.mapAddr[s] in b.mapInfo && b.mapInfo[b.mapAddr[s]].data.service == s
    ensures var d := b.mapInfo[b.mapAddr[s]].data;
            d.lastTry >= 0 && d.lastSuccess >= 0 && (b.mapInfo[b.mapAddr[s]].inTried ==> d.lastSuccess != 0)
  {
    var id := b.mapAddr[s];
    assert id in DataOf(b.mapInfo) && id in TriedOf(b.mapInfo);
    assert DataOf(b.mapInfo)[id] == b.mapInfo[id].data && TriedOf(b.mapInfo)[id] == b.mapInfo[id].inTried;
  }

  predicate TimesOk(d: Data, tried: bool) { d.lastTry >= 0 && d.lastSuccess >= 0 && (tried ==> d.lastSuccess != 0) }

  lemma EditedTimes(env: Env, b: Book, id: Id, data: Data)
    requires id in b.mapInfo && !TimesOk(data, b.mapInfo[id].inTried)
    ensures !Core(env, Edited(b, id, data))
  {
    var m := Edited(b, id, data).mapInfo;
    assert id in DataOf(m) && DataOf(m)[id] == data && TriedOf(m)[id] == b.mapInfo[id].inTried;
  }

  lemma EditedRest(env: Env, b: Book, id: Id, data: Data, collisions: set<Id>)
    requires id in b.mapInfo && data.service == b.mapInfo[id].data.service
    requires Counted(b) && Settled(b.mapInfo, {}) && Colliding(env, b, collisions)
    ensures var b' := Edited(b, id, data);
            Grows(b, b') && Counted(b') && Settled(b'.mapInfo, {}) && Colliding(env, b', collisions)
  {
    CardUpdate(b.mapInfo, id, b.mapInfo[id].(data := data));
  }

  lemma ScanStep(env: Env, table: map<Slot, Id>, vvNew: map<Slot, Id>, id: Id, s: Service, start: nat, n: nat)
    requires start < NEW_BUCKET_COUNT && n < NEW_BUCKET_COUNT && Scanned(table, vvNew, id, start, n)
    requires forall slot :: slot in table && table[slot] == id ==>
               slot.0 < NEW_BUCKET_COUNT && slot.1 == Position(env, s, true, slot.0)
    ensures var slot := (Turn(start, n), Position(env, s, true, Turn(start, n)));
            if slot in vvNew && vvNew[slot] == id then Scanned(table, vvNew - {slot}, id, start, n + 1)
            else Scanned(table, vvNew, id, start, n + 1)
  {
    TurnDistance(start, n);
  }
}
