/** The consistency check that the address manager runs on itself, and what it amounts to. */
module AddrCheck {
  import opened AddrBook
  import opened AddrMoves

  /** All that keeps the tables in agreement. */
  ghost predicate Consistent(env: Env, b: Book) {
    Core(env, b) && Counted(b) && Settled(b.mapInfo, {})
  }

  /** The tables are arrays of fixed size. */
  predicate Shaped(b: Book) {
    && (forall slot :: slot in b.vvTried ==> slot.0 < TRIED_BUCKET_COUNT && slot.1 < BUCKET_SIZE)
    && (forall slot :: slot in b.vvNew ==> slot.0 < NEW_BUCKET_COUNT && slot.1 < BUCKET_SIZE)
  }

  /** What is demanded of one entry. */
  predicate EntryOk(b: Book, id: Id)
    requires id in b.mapInfo
  {
    var info := b.mapInfo[id];
    && (info.inTried ==> info.data.lastSuccess != 0 && info.refCount == 0)
    && (!info.inTried ==> 0 < info.refCount <= NEW_BUCKETS_PER_ADDRESS)
    && info.data.service in b.mapAddr && b.mapAddr[info.data.service] == id
    && 0 <= info.randomPos < |b.vRandom| && b.vRandom[info.randomPos] == id
    && info.data.lastTry >= 0 && info.data.lastSuccess >= 0
  }

  function TriedIds(m: Infos, ids: set<Id>): set<Id> {
    set id | id in ids && id in m && m[id].inTried
  }

  function NewCounts(m: Infos, ids: set<Id>): map<Id, int> {
    map id | id in ids && id in m && !m[id].inTried :: m[id].refCount
  }

  /** What the check as a whole demands. */
  ghost predicate Checked(env: Env, b: Book) {
    var m := b.mapInfo;
    && |b.vRandom| == b.nTried + b.nNew && |TriedIds(m, m.Keys)| == b.nTried && |NewCounts(m, m.Keys)| == b.nNew
    && (forall id :: id in m ==> EntryOk(b, id))
    && TriedAgrees(env, DataOf(m), TriedOf(m), b.vvTried)
    && NewAgrees(env, DataOf(m), TriedOf(m), b.vvNew) && RefsAgree(RefsOf(m), b.vvNew)
  }

  // ---- The check itself ----

  predicate Before(slot: Slot, n: nat, i: nat) { slot.0 < n || (slot.0 == n && slot.1 < i) }

  /** What the codes about one entry say. */
  ghost predicate EntryFault(b: Book, id: Id, code: int)
    requires id in b.mapInfo
  {
    var info := b.mapInfo[id];
    || (code == -1 && info.inTried && info.data.lastSuccess == 0)
    || (code == -2 && info.inTried && info.refCount != 0)
    || (code == -3 && !info.inTried && !(0 <= info.refCount <= NEW_BUCKETS_PER_ADDRESS))
    || (code == -4 && !info.inTried && info.refCount == 0)
    || (code == -5 && !(info.data.service in b.mapAddr && b.mapAddr[info.data.service] == id))
    || (code == -14 && !(0 <= info.randomPos < |b.vRandom| && b.vRandom[info.randomPos] == id))
    || (code == -6 && info.data.lastTry < 0)
    || (code == -8 && info.data.lastSuccess < 0)
  }

  /** What the codes about a slot of the tried table say: it holds no tried entry or one that another
      slot has, or it is in the wrong bucket, or in the right one at the wrong place. */
  ghost predicate TriedFault(env: Env, b: Book, slot: Slot, code: int)
    requires slot in b.vvTried
  {
    var (id, m) := (b.vvTried[slot], b.mapInfo);
    || (code == -11 && (id !in TriedIds(m, m.Keys) || exists other :: other in b.vvTried && other != slot && b.vvTried[other] == id))
    || (code == -17 && id in m && TriedSlot(env, m[id].data.service).0 != slot.0)
    || (code == -18 && id in m && TriedSlot(env, m[id].data.service).0 == slot.0 && TriedSlot(env, m[id].data.service).1 != slot.1)
  }

  /** What the codes about a slot of the new table say: it holds no new entry or one that has more slots
      than it counts, or it is at the wrong place. */
  ghost predicate NewFault(env: Env, b: Book, slot: Slot, code: int)
    requires slot in b.vvNew
  {
    var (id, m) := (b.vvNew[slot], b.mapInfo);
    || (code == -12 && (id !in NewCounts(m, m.Keys) || |Refs(b.vvNew, id)| > m[id].refCount))
    || (code == -19 && id in m && slot.1 != Position(env, m[id].data.service, true, slot.0))
  }

  /** A tried entry that its slot does not have, or a new one with fewer slots than it counts. */
  ghost predicate Missing(env: Env, b: Book, id: Id, code: int)
    requires id in b.mapInfo
  {
    var info := b.mapInfo[id];
    || (code == -13 && info.inTried && !TriedAt(env, info.data, b.vvTried, id))
    || (code == -15 && !info.inTried && |Refs(b.vvNew, id)| < info.refCount)
  }

  /** What every code other than 0 says. */
  ghost predicate Fault(env: Env, b: Book, code: int) {
    var m := b.mapInfo;
    || (code == -7 && |b.vRandom| != b.nTried + b.nNew)
    || (exists id :: id in m && EntryFault(b, id, code))
    || (code == -9 && |TriedIds(m, m.Keys)| != b.nTried)
    || (code == -10 && |NewCounts(m, m.Keys)| != b.nNew)
    || (exists slot :: slot in b.vvTried && TriedFault(env, b, slot, code))
    || (exists slot :: slot in b.vvNew && NewFault(env, b, slot, code))
    || (exists id :: id in m && Missing(env, b, id, code))
    || (code == -16 && env.nullKey)
  }

  method CheckAddrman(env: Env, b: Book) returns (err: int)
    requires Shaped(b)
    ensures err == 0 <==> Checked(env, b) && !env.nullKey
    ensures err != 0 ==> Fault(env, b, err)
    ensures err == -16 <==> Checked(env, b) && env.nullKey
  {
    hide EntryOk, TriedAgrees, NewAgrees, RefsAgree, Shaped, TriedIds, NewCounts, EntryFault, TriedFault, NewFault, Missing;
    if |b.vRandom| != b.nTried + b.nNew {
      return -7;
    }
    var tried, news;
    err, tried, news := CheckEntries(b);
    if err != 0 {
      return;
    }
    if |tried| != b.nTried {
      return -9;
    }
    if |news| != b.nNew {
      return -10;
    }
    var lostTried, lostNew;
    err, lostTried := CheckTried(env, b, tried);
    if err != 0 {
      return;
    }
    err, lostNew := CheckNew(env, b, news);
    if err != 0 {
      return;
    }
    if lostTried {
      return -13;
    }
    if lostNew {
      return -15;
    }
    if env.nullKey {
      return -16;
    }
  }

  /** Goes through the entries, in some order. */
  method CheckEntries(b: Book) returns (err: int, tried: set<Id>, news: map<Id, int>)
    ensures err == 0 <==> forall id :: id in b.mapInfo ==> EntryOk(b, id)
    ensures err != 0 ==> err != -16 && exists id :: id in b.mapInfo && EntryFault(b, id, err)
    ensures err == 0 ==> tried == TriedIds(b.mapInfo, b.mapInfo.Keys) && news == NewCounts(b.mapInfo, b.mapInfo.Keys)
  {
    err, tried, news := 0, {}, map[];
    var todo := b.mapInfo.Keys;
    while todo != {}
      invariant todo <= b.mapInfo.Keys && err == 0
      invariant tried == TriedIds(b.mapInfo, b.mapInfo.Keys - todo)
      invariant news == NewCounts(b.mapInfo, b.mapInfo.Keys - todo)
      invariant forall id :: id in b.mapInfo && id !in todo ==> EntryOk(b, id)
      decreases todo
    {
      SomeId(todo);
      var id :| id in todo;
      err := CheckEntry(b, id);
      if err != 0 {
        return;
      }
      if b.mapInfo[id].inTried {
        tried := tried + {id};
      } else {
        news := news[id := b.mapInfo[id].refCount];
      }
      todo := todo - {id};
    }
    assert b.mapInfo.Keys - todo == b.mapInfo.Keys;
  }

  method CheckEntry(b: Book, id: Id) returns (err: int)
    requires id in b.mapInfo
    ensures err == 0 <==> EntryOk(b, id)
    ensures err != 0 ==> err != -16 && EntryFault(b, id, err)
  {
    var info := b.mapInfo[id];
    if info.inTried {
      if info.data.lastSuccess == 0 { return -1; }
      if info.refCount != 0 { return -2; }
    } else {
      if info.refCount < 0 || info.refCount > NEW_BUCKETS_PER_ADDRESS { return -3; }
      if info.refCount == 0 { return -4; }
    }
    if info.data.service !in b.mapAddr || b.mapAddr[info.data.service] != id { return -5; }
    if info.randomPos < 0 || info.randomPos >= |b.vRandom| || b.vRandom[info.randomPos] != id { return -14; }
    if info.data.lastTry < 0 { return -6; }
    if info.data.lastSuccess < 0 { return -8; }
    return 0;
  }

  // ---- The tried table ----

  ghost predicate TriedSlotOk(env: Env, m: Infos, vvTried: map<Slot, Id>, slot: Slot)
    requires slot in vvTried
  {
    vvTried[slot] in m && m[vvTried[slot]].inTried && TriedSlot(env, m[vvTried[slot]].data.service) == slot
  }

  /** The tried entries not met in the slots so far. */
  ghost function TriedLeft(env: Env, m: Infos, vvTried: map<Slot, Id>, n: nat, i: nat): set<Id> {
    set id | id in TriedIds(m, m.Keys) &&
             !(TriedAt(env, m[id].data, vvTried, id) && Before(TriedSlot(env, m[id].data.service), n, i))
  }

  method CheckTried(env: Env, b: Book, ids: set<Id>) returns (err: int, lost: bool)
    requires Shaped(b) && ids == TriedIds(b.mapInfo, b.mapInfo.Keys)
    ensures err == 0 && !lost <==> TriedAgrees(env, DataOf(b.mapInfo), TriedOf(b.mapInfo), b.vvTried)
    ensures err != 0 ==> err != -16 && exists slot :: slot in b.vvTried && TriedFault(env, b, slot, err)
    ensures err == 0 && lost ==> exists id :: id in b.mapInfo && Missing(env, b, id, -13)
  {
    hide TriedAgrees, Shaped, TriedIds, TriedLeft, TriedSlotOk, TriedFault, Missing;
    lost := false;
    var tried, table := ids, b.vvTried;
    TriedStart(env, b.mapInfo, table);
    for n := 0 to TRIED_BUCKET_COUNT
      invariant tried == TriedLeft(env, b.mapInfo, table, n, 0)
      invariant forall slot :: slot in table && Before(slot, n, 0) ==> TriedSlotOk(env, b.mapInfo, table, slot)
    {
      for i := 0 to BUCKET_SIZE
        invariant tried == TriedLeft(env, b.mapInfo, table, n, i)
        invariant forall slot :: slot in table && Before(slot, n, i) ==> TriedSlotOk(env, b.mapInfo, table, slot)
      {
        TriedStep(env, b.mapInfo, table, n, i);
        if (n, i) in table {
          TriedFaults(env, b, n, i);
          if table[(n, i)] !in tried { err := -11; return; }
          var data := b.mapInfo[table[(n, i)]].data;
          if TriedSlot(env, data.service).0 != n { err := -17; return; }
          if TriedSlot(env, data.service).1 != i { err := -18; return; }
          tried := tried - {table[(n, i)]};
        }
      }
      NextTriedRow(env, b, n);
    }
    TriedEnd(env, b);
    err, lost := 0, tried != {};
  }

  lemma TriedFaults(env: Env, b: Book, n: nat, i: nat)
    requires (n, i) in b.vvTried
    ensures b.vvTried[(n, i)] !in TriedLeft(env, b.mapInfo, b.vvTried, n, i) ==> TriedFault(env, b, (n, i), -11)
    ensures b.vvTried[(n, i)] in b.mapInfo ==>
              var slot := TriedSlot(env, b.mapInfo[b.vvTried[(n, i)]].data.service);
              && (slot.0 != n ==> TriedFault(env, b, (n, i), -17))
              && (slot.0 == n && slot.1 != i ==> TriedFault(env, b, (n, i), -18))
  {
  }

  lemma TriedStart(env: Env, m: Infos, vvTried: map<Slot, Id>)
    ensures TriedLeft(env, m, vvTried, 0, 0) == TriedIds(m, m.Keys)
  {
  }

  /** A row is finished once its last position is. */
  lemma NextTriedRow(env: Env, b: Book, n: nat)
    requires Shaped(b)
    ensures TriedLeft(env, b.mapInfo, b.vvTried, n, BUCKET_SIZE) == TriedLeft(env, b.mapInfo, b.vvTried, n + 1, 0)
    ensures forall slot :: slot in b.vvTried && Before(slot, n + 1, 0) ==> Before(slot, n, BUCKET_SIZE)
  {
  }

  lemma TriedStep(env: Env, m: Infos, vvTried: map<Slot, Id>, n: nat, i: nat)
    requires forall slot :: slot in vvTried && Before(slot, n, i) ==> TriedSlotOk(env, m, vvTried, slot)
    ensures (n, i) !in vvTried ==> TriedLeft(env, m, vvTried, n, i + 1) == TriedLeft(env, m, vvTried, n, i)
    ensures (n, i) in vvTried ==>
              var (id, left) := (vvTried[(n, i)], TriedLeft(env, m, vvTried, n, i));
              && (id in left ==> id in m)
              && (id in left && TriedSlot(env, m[id].data.service) == (n, i) ==>
                    TriedSlotOk(env, m, vvTried, (n, i)) && TriedLeft(env, m, vvTried, n, i + 1) == left - {id})
              && ((id !in left || TriedSlot(env, m[id].data.service) != (n, i)) ==>
                    !TriedAgrees(env, DataOf(m), TriedOf(m), vvTried))
    ensures forall slot :: slot in vvTried && Before(slot, n, i + 1) ==> Before(slot, n, i) || slot == (n, i)
  {
    if (n, i) in vvTried {
      var id := vvTried[(n, i)];
      if TriedAgrees(env, DataOf(m), TriedOf(m), vvTried) {
        assert id in DataOf(m) && TriedOf(m)[id] && TriedSlot(env, DataOf(m)[id].service) == (n, i);
      }
    }
  }

  lemma TriedEnd(env: Env, b: Book)
    requires Shaped(b)
    requires forall slot :: slot in b.vvTried && Before(slot, TRIED_BUCKET_COUNT, 0) ==> TriedSlotOk(env, b.mapInfo, b.vvTried, slot)
    ensures TriedLeft(env, b.mapInfo, b.vvTried, TRIED_BUCKET_COUNT, 0) == {} <==>
            TriedAgrees(env, DataOf(b.mapInfo), TriedOf(b.mapInfo), b.vvTried)
    ensures TriedLeft(env, b.mapInfo, b.vvTried, TRIED_BUCKET_COUNT, 0) != {} ==> exists id :: id in b.mapInfo && Missing(env, b, id, -13)
  {
    var m := b.mapInfo;
    var left := TriedLeft(env, m, b.vvTried, TRIED_BUCKET_COUNT, 0);
    if left == {} {
      forall id | id in DataOf(m) && TriedOf(m)[id]
        ensures TriedAt(env, DataOf(m)[id], b.vvTried, id)
      {
        assert id !in left;
      }
    } else {
      var id :| id in left;
      assert id in DataOf(m) && TriedOf(m)[id];
      assert Missing(env, b, id, -13);
    }
  }

  // ---- The new table ----

  ghost predicate NewSlotOk(env: Env, m: Infos, vvNew: map<Slot, Id>, slot: Slot)
    requires slot in vvNew
  {
    vvNew[slot] in m && !m[vvNew[slot]].inTried && slot.1 == Position(env, m[vvNew[slot]].data.service, true, slot.0)
  }

  ghost function RefsBefore(vvNew: map<Slot, Id>, id: Id, n: nat, i: nat): set<Slot> {
    set slot | slot in Refs(vvNew, id) && Before(slot, n, i)
  }

  /** The references not met in the slots so far, for each entry that has some left. */
  ghost predicate NewLeft(counts: map<Id, int>, vvNew: map<Slot, Id>, n: nat, i: nat, left: map<Id, int>) {
    && left.Keys <= counts.Keys
    && (forall id :: id in counts ==> |RefsBefore(vvNew, id, n, i)| <= counts[id])
    && (forall id :: id in counts ==> (id in left <==> |RefsBefore(vvNew, id, n, i)| != counts[id]))
    && (forall id :: id in left ==> left[id] == counts[id] - |RefsBefore(vvNew, id, n, i)|)
  }

  method CheckNew(env: Env, b: Book, counts: map<Id, int>) returns (err: int, lost: bool)
    requires Shaped(b) && counts == NewCounts(b.mapInfo, b.mapInfo.Keys)
    requires forall id :: id in b.mapInfo ==> EntryOk(b, id)
    ensures err == 0 && !lost <==> NewAgrees(env, DataOf(b.mapInfo), TriedOf(b.mapInfo), b.vvNew) && RefsAgree(RefsOf(b.mapInfo), b.vvNew)
    ensures err != 0 ==> err != -16 && exists slot :: slot in b.vvNew && NewFault(env, b, slot, err)
    ensures err == 0 && lost ==> exists id :: id in b.mapInfo && Missing(env, b, id, -15)
  {
    hide NewAgrees, RefsAgree, Shaped, NewCounts, NewLeft, NewSlotOk, EntryOk, NewFault, Missing;
    lost := false;
    var news, table := counts, b.vvNew;
    NewStart(b);
    for n := 0 to NEW_BUCKET_COUNT
      invariant NewLeft(counts, table, n, 0, news)
      invariant forall slot :: slot in table && Before(slot, n, 0) ==> NewSlotOk(env, b.mapInfo, table, slot)
    {
      for i := 0 to BUCKET_SIZE
        invariant NewLeft(counts, table, n, i, news)
        invariant forall slot :: slot in table && Before(slot, n, i) ==> NewSlotOk(env, b.mapInfo, table, slot)
      {
        NewStep(env, b, counts, n, i, news);
        if (n, i) in table {
          var id := table[(n, i)];
          NewFaults(env, b, counts, n, i, news);
          if id !in news { err := -12; return; }
          if Position(env, b.mapInfo[id].data.service, true, n) != i { err := -19; return; }
          news := if news[id] == 1 then news - {id} else news[id := news[id] - 1];
        }
      }
      NextNewRow(b, counts, n, news);
    }
    NewEnd(env, b, counts, news);
    err, lost := 0, news != map[];
  }

  lemma NewFaults(env: Env, b: Book, counts: map<Id, int>, n: nat, i: nat, left: map<Id, int>)
    requires (n, i) in b.vvNew && counts == NewCounts(b.mapInfo, b.mapInfo.Keys) && NewLeft(counts, b.vvNew, n, i, left)
    ensures var id := b.vvNew[(n, i)];
            && (id !in left ==> NewFault(env, b, (n, i), -12))
            && (id in b.mapInfo && Position(env, b.mapInfo[id].data.service, true, n) != i ==> NewFault(env, b, (n, i), -19))
  {
    var id := b.vvNew[(n, i)];
    if id !in left && id in counts {
      RefsBeforeStep(b.vvNew, id, n, i);
      CardSubset(RefsBefore(b.vvNew, id, n, i + 1), Refs(b.vvNew, id));
    }
  }

  lemma NewStart(b: Book)
    requires forall id :: id in b.mapInfo ==> EntryOk(b, id)
    ensures NewLeft(NewCounts(b.mapInfo, b.mapInfo.Keys), b.vvNew, 0, 0, NewCounts(b.mapInfo, b.mapInfo.Keys))
  {
    forall id
      ensures RefsBefore(b.vvNew, id, 0, 0) == {}
    {
    }
  }

  lemma NextNewRow(b: Book, counts: map<Id, int>, n: nat, left: map<Id, int>)
    requires Shaped(b) && NewLeft(counts, b.vvNew, n, BUCKET_SIZE, left)
    ensures NewLeft(counts, b.vvNew, n + 1, 0, left)
    ensures forall slot :: slot in b.vvNew && Before(slot, n + 1, 0) ==> Before(slot, n, BUCKET_SIZE)
  {
    forall id
      ensures RefsBefore(b.vvNew, id, n, BUCKET_SIZE) == RefsBefore(b.vvNew, id, n + 1, 0)
    {
    }
  }

  lemma RefsBeforeStep(vvNew: map<Slot, Id>, id: Id, n: nat, i: nat)
    ensures (n, i) in vvNew && vvNew[(n, i)] == id ==> |RefsBefore(vvNew, id, n, i + 1)| == |RefsBefore(vvNew, id, n, i)| + 1
    ensures (n, i) !in vvNew || vvNew[(n, i)] != id ==> RefsBefore(vvNew, id, n, i + 1) == RefsBefore(vvNew, id, n, i)
  {
    if (n, i) in vvNew && vvNew[(n, i)] == id {
      assert RefsBefore(vvNew, id, n, i + 1) == RefsBefore(vvNew, id, n, i) + {(n, i)};
    }
  }

  lemma NewStep(env: Env, b: Book, counts: map<Id, int>, n: nat, i: nat, left: map<Id, int>)
    requires counts == NewCounts(b.mapInfo, b.mapInfo.Keys) && NewLeft(counts, b.vvNew, n, i, left)
    requires n < NEW_BUCKET_COUNT
    ensures (n, i) !in b.vvNew ==> NewLeft(counts, b.vvNew, n, i + 1, left)
    ensures (n, i) in b.vvNew ==>
              var id := b.vvNew[(n, i)];
              && (id in left ==> id in b.mapInfo)
              && (id in left && Position(env, b.mapInfo[id].data.service, true, n) == i ==>
                    && NewSlotOk(env, b.mapInfo, b.vvNew, (n, i))
                    && NewLeft(counts, b.vvNew, n, i + 1, if left[id] == 1 then left - {id} else left[id := left[id] - 1]))
              && ((id !in left || Position(env, b.mapInfo[id].data.service, true, n) != i) ==>
                    !(NewAgrees(env, DataOf(b.mapInfo), TriedOf(b.mapInfo), b.vvNew) && RefsAgree(RefsOf(b.mapInfo), b.vvNew)))
    ensures forall slot :: slot in b.vvNew && Before(slot, n, i + 1) ==> Before(slot, n, i) || slot == (n, i)
  {
    forall id {
      RefsBeforeStep(b.vvNew, id, n, i);
    }
    if (n, i) in b.vvNew {
      var id := b.vvNew[(n, i)];
      if id !in left && NewAgrees(env, DataOf(b.mapInfo), TriedOf(b.mapInfo), b.vvNew) {
        TooManyRefs(b, counts, id, n, i);
      }
    }
  }

  lemma TooManyRefs(b: Book, counts: map<Id, int>, id: Id, n: nat, i: nat)
    requires (n, i) in b.vvNew && b.vvNew[(n, i)] == id && id in b.mapInfo
    requires |RefsBefore(b.vvNew, id, n, i)| == b.mapInfo[id].refCount
    ensures !RefsAgree(RefsOf(b.mapInfo), b.vvNew)
  {
    RefsBeforeStep(b.vvNew, id, n, i);
    CardSubset(RefsBefore(b.vvNew, id, n, i + 1), Refs(b.vvNew, id));
    assert id in RefsOf(b.mapInfo);
  }

  lemma {:induction false} CardSubset<T>(s: set<T>, t: set<T>)
    requires s <= t
    ensures |s| <= |t| && (|s| == |t| ==> s == t)
  {
    assert t == s + (t - s);
  }

  lemma NewEnd(env: Env, b: Book, counts: map<Id, int>, left: map<Id, int>)
    requires Shaped(b) && counts == NewCounts(b.mapInfo, b.mapInfo.Keys) && NewLeft(counts, b.vvNew, NEW_BUCKET_COUNT, 0, left)
    requires forall id :: id in b.mapInfo ==> EntryOk(b, id)
    requires forall slot :: slot in b.vvNew && Before(slot, NEW_BUCKET_COUNT, 0) ==> NewSlotOk(env, b.mapInfo, b.vvNew, slot)
    ensures left == map[] <==>
            NewAgrees(env, DataOf(b.mapInfo), TriedOf(b.mapInfo), b.vvNew) && RefsAgree(RefsOf(b.mapInfo), b.vvNew)
    ensures left != map[] ==> exists id :: id in b.mapInfo && Missing(env, b, id, -15)
  {
    hide EntryOk;
    forall id
      ensures RefsBefore(b.vvNew, id, NEW_BUCKET_COUNT, 0) == Refs(b.vvNew, id)
    {
    }
    if left == map[] {
      forall id | id in RefsOf(b.mapInfo)
        ensures RefsOf(b.mapInfo)[id] == |Refs(b.vvNew, id)| <= NEW_BUCKETS_PER_ADDRESS
      {
        RefsAll(env, b, id);
      }
    } else {
      assert left.Keys != {};
      var id := Pick(left.Keys);
      assert id in RefsOf(b.mapInfo);
      CardSubset(RefsBefore(b.vvNew, id, NEW_BUCKET_COUNT, 0), Refs(b.vvNew, id));
      assert Missing(env, b, id, -15);
    }
  }

  lemma RefsAll(env: Env, b: Book, id: Id)
    requires id in b.mapInfo && EntryOk(b, id)
    requires forall slot :: slot in b.vvNew ==> NewSlotOk(env, b.mapInfo, b.vvNew, slot)
    requires !b.mapInfo[id].inTried ==> |Refs(b.vvNew, id)| == b.mapInfo[id].refCount
    ensures b.mapInfo[id].refCount == |Refs(b.vvNew, id)| <= NEW_BUCKETS_PER_ADDRESS
  {
    if b.mapInfo[id].inTried {
      assert Refs(b.vvNew, id) == {};
    }
  }

  // ---- What passing the check amounts to ----

  /** No address is listed that belongs to no entry, or to an entry with another address. */
  ghost predicate AddrsBack(data: map<Id, Data>, mapAddr: map<Service, Id>) {
    forall s :: s in mapAddr ==> mapAddr[s] in data && data[mapAddr[s]].service == s
  }

  /** The tables agree exactly if the check passes and the two things hold that it does not look at. */
  lemma CheckedIff(env: Env, b: Book)
    ensures Consistent(env, b) <==>
            Checked(env, b) && IdsKnown(DataOf(b.mapInfo), b.idCount) && AddrsBack(DataOf(b.mapInfo), b.mapAddr)
    ensures Consistent(env, b) ==> Shaped(b)
  {
    hide Checked, IdsKnown, AddrsBack, Core, Counted, Settled;
    if Consistent(env, b) {
      ConsistentChecked(env, b);
    }
    if Checked(env, b) && IdsKnown(DataOf(b.mapInfo), b.idCount) && AddrsBack(DataOf(b.mapInfo), b.mapAddr) {
      CheckedConsistent(env, b);
    }
  }

  lemma ConsistentChecked(env: Env, b: Book)
    requires Consistent(env, b)
    ensures Checked(env, b) && IdsKnown(DataOf(b.mapInfo), b.idCount) && AddrsBack(DataOf(b.mapInfo), b.mapAddr) && Shaped(b)
  {
    ConsistentSizes(env, b);
    ConsistentEntries(env, b);
  }

  lemma ConsistentEntries(env: Env, b: Book)
    requires Consistent(env, b)
    ensures (forall id :: id in b.mapInfo ==> EntryOk(b, id)) && Shaped(b)
  {
    var m := b.mapInfo;
    forall id | id in m
      ensures EntryOk(b, id)
    {
      assert id in DataOf(m) && id in TriedOf(m) && id in PosOf(m) && id in RefsOf(m);
      assert DataOf(m)[id] == m[id].data && TriedOf(m)[id] == m[id].inTried && RefsOf(m)[id] == m[id].refCount;
      assert m[id].inTried ==> Refs(b.vvNew, id) == {};
    }
  }

  lemma ConsistentSizes(env: Env, b: Book)
    requires Consistent(env, b)
    ensures |b.vRandom| == b.nTried + b.nNew
    ensures |TriedIds(b.mapInfo, b.mapInfo.Keys)| == b.nTried && |NewCounts(b.mapInfo, b.mapInfo.Keys)| == b.nNew
  {
    RandomSize(PosOf(b.mapInfo), b.vRandom);
    TriedSize(env, b.mapInfo, b.vvTried);
    SplitSize(b.mapInfo);
    assert PosOf(b.mapInfo).Keys == b.mapInfo.Keys;
  }

  lemma CheckedConsistent(env: Env, b: Book)
    requires Checked(env, b) && IdsKnown(DataOf(b.mapInfo), b.idCount) && AddrsBack(DataOf(b.mapInfo), b.mapAddr)
    ensures Consistent(env, b)
  {
    hide TriedAgrees, NewAgrees, RefsAgree, IdsKnown, EntryOk, TriedIds, NewCounts;
    SplitSize(b.mapInfo);
    EntriesAgree(b);
    TriedSize(env, b.mapInfo, b.vvTried);
  }

  lemma EntriesAgree(b: Book)
    requires forall id :: id in b.mapInfo ==> EntryOk(b, id)
    requires AddrsBack(DataOf(b.mapInfo), b.mapAddr) && |b.mapInfo| == |b.vRandom|
    ensures AddrsAgree(DataOf(b.mapInfo), b.mapAddr) && RandomAgrees(PosOf(b.mapInfo), b.vRandom)
    ensures TimesAgree(DataOf(b.mapInfo), TriedOf(b.mapInfo)) && Settled(b.mapInfo, {})
  {
    var m := b.mapInfo;
    forall id | id in m
      ensures EntryOk(b, id) && PosOf(m)[id] == m[id].randomPos && DataOf(m)[id] == m[id].data
    {
    }
    assert PosOf(m).Keys == m.Keys;
    RandomFills(PosOf(m), b.vRandom);
  }

  lemma SplitSize(m: Infos)
    ensures |m| == |TriedIds(m, m.Keys)| + |NewCounts(m, m.Keys)|
  {
    var (t, n) := (TriedIds(m, m.Keys), NewCounts(m, m.Keys).Keys);
    assert m.Keys == t + n && t !! n;
  }

  /** A one-to-one correspondence preserves size. */
  lemma {:induction false} SameSize<A, B>(f: map<A, B>, s: set<A>, t: set<B>)
    requires s <= f.Keys
    requires forall x :: x in s ==> f[x] in t
    requires forall x, y :: x in s && y in s && x != y ==> f[x] != f[y]
    requires forall z :: z in t ==> exists x :: x in s && f[x] == z
    ensures |s| == |t|
    decreases s
  {
    if s == {} {
      assert t == {};
    } else {
      var x :| x in s;
      forall z | z in t - {f[x]}
        ensures exists y :: y in s - {x} && f[y] == z
      {
        var y :| y in s && f[y] == z;
        assert y in s - {x};
      }
      SameSize(f, s - {x}, t - {f[x]});
    }
  }

  ghost function Elements(s: seq<Id>): set<Id> { set id | id in s }

  ghost predicate Distinct(s: seq<Id>) { forall i, j :: 0 <= i < j < |s| ==> s[i] != s[j] }

  /** A list has as many elements as positions exactly if none occurs twice. */
  lemma {:induction false} ElementsSize(s: seq<Id>)
    ensures |Elements(s)| <= |s| && (|Elements(s)| == |s| <==> Distinct(s))
  {
    if s != [] {
      var init, id := s[..|s| - 1], s[|s| - 1];
      ElementsSize(init);
      assert Elements(s) == Elements(init) + {id};
      if id in init {
        var i :| 0 <= i < |init| && init[i] == id;
        assert s[i] == s[|s| - 1];
        assert Elements(s) == Elements(init);
      } else {
        assert Distinct(init) ==> Distinct(s);
        assert Distinct(s) ==> Distinct(init) by {
          assert forall i :: 0 <= i < |init| ==> init[i] == s[i];
        }
      }
    }
  }

  lemma Listed(pos: map<Id, int>, vRandom: seq<Id>)
    requires forall id :: id in pos ==> 0 <= pos[id] < |vRandom| && vRandom[pos[id]] == id
    ensures pos.Keys <= Elements(vRandom)
  {
    forall id | id in pos.Keys
      ensures id in Elements(vRandom)
    {
      assert vRandom[pos[id]] == id;
    }
  }

  lemma RandomSize(pos: map<Id, int>, vRandom: seq<Id>)
    requires RandomAgrees(pos, vRandom)
    ensures |pos| == |vRandom|
  {
    ElementsSize(vRandom);
    Listed(pos, vRandom);
    assert Elements(vRandom) <= pos.Keys;
    assert Distinct(vRandom) by {
      forall i, j | 0 <= i < j < |vRandom|
        ensures vRandom[i] != vRandom[j]
      {
        assert pos[vRandom[i]] == i && pos[vRandom[j]] == j;
      }
    }
    assert Elements(vRandom) == pos.Keys;
  }

  /** As many positions as there are entries: none is left over. */
  lemma RandomFills(pos: map<Id, int>, vRandom: seq<Id>)
    requires |pos| == |vRandom|
    requires forall id :: id in pos ==> 0 <= pos[id] < |vRandom| && vRandom[pos[id]] == id
    ensures RandomAgrees(pos, vRandom)
  {
    ElementsSize(vRandom);
    Listed(pos, vRandom);
    CardSubset(pos.Keys, Elements(vRandom));
    forall k | 0 <= k < |vRandom|
      ensures vRandom[k] in pos && pos[vRandom[k]] == k
    {
      assert vRandom[k] in Elements(vRandom);
    }
  }

  lemma TriedSize(env: Env, m: Infos, vvTried: map<Slot, Id>)
    requires TriedAgrees(env, DataOf(m), TriedOf(m), vvTried)
    ensures |TriedIds(m, m.Keys)| == |vvTried|
  {
    var t := TriedIds(m, m.Keys);
    forall slot | slot in vvTried
      ensures vvTried[slot] in t && TriedSlot(env, m[vvTried[slot]].data.service) == slot
    {
    }
    forall id | id in t
      ensures exists slot :: slot in vvTried.Keys && vvTried[slot] == id
    {
      assert id in DataOf(m) && TriedOf(m)[id];
      assert TriedAt(env, DataOf(m)[id], vvTried, id);
    }
    SameSize(vvTried, vvTried.Keys, t);
  }
}
