/** Writing the address manager's file and reading it back loses nothing but the ids themselves. */
module AddrRoundTrip {
  import opened AddrBook
  import opened AddrMoves
  import opened AddrCheck
  import opened AddrFile

  /** The same tables, with id `ids[k]` of the first called `k` in the second. */
  ghost predicate Renamed(b: Book, b': Book, ids: seq<Id>) {
    && IsOrder(b.mapInfo, ids) && (forall k :: k in b'.mapInfo <==> 0 <= k < |ids|)
    && (forall k :: 0 <= k < |ids| ==> SameEntry(b.mapInfo[ids[k]], b'.mapInfo[k]))
    && SameTable(b.vvNew, b'.vvNew, ids) && SameTable(b.vvTried, b'.vvTried, ids) && SameTable(b.mapAddr, b'.mapAddr, ids)
    && b'.nNew == b.nNew && b'.nTried == b.nTried
  }

  /** The times of the last attempts are not written. */
  predicate SameEntry(info: AddrInfo, info': AddrInfo) {
    && info'.data == info.data.(lastTry := 0, lastCountAttempt := 0)
    && info'.refCount == info.refCount && info'.inTried == info.inTried
  }

  ghost predicate SameTable<K>(t: map<K, Id>, t': map<K, Id>, ids: seq<Id>) {
    t.Keys == t'.Keys && forall key :: key in t ==> 0 <= t'[key] < |ids| && ids[t'[key]] == t[key]
  }

  /** With the same network map, for any order of the entries in the file. */
  method RoundTrip(env: Env, b: Book, asmap: nat, order: seq<Id>) returns (r: Result, ghost ids: seq<Id>)
    requires Consistent(env, b) && IsOrder(b.mapInfo, order)
    ensures r.Loaded? <==> !env.nullKey
    ensures r.Loaded? ==> Consistent(env, r.b) && Renamed(b, r.b, ids)
  {
    hide Consistent, IsOrder, Members, Lists, Indexed, BucketList, Rebuilt, Renamed;
    ghost var index, pruned;
    var file;
    file, index := Serialize(env, b, asmap, order);
    r, pruned := Unserialize(env, asmap, file);
    ids := Members(b.mapInfo, order, false) + Members(b.mapInfo, order, true);
    RoundTripHolds(env, b, asmap, order, file, index);
  }

  // ---- The entries come back ----

  ghost function RecordMap(records: seq<Record>): map<Id, Data> {
    map k: Id | 0 <= k < |records| :: FromRecord(records[k])
  }

  ghost predicate DistinctServices(records: seq<Record>) {
    forall j, k :: 0 <= j < k < |records| ==> records[j].service != records[k].service
  }

  ghost predicate DistinctSlots(env: Env, records: seq<Record>) {
    forall j, k :: 0 <= j < k < |records| ==> TriedSlot(env, records[j].service) != TriedSlot(env, records[k].service)
  }

  /** Agreeing tables with exactly these entries, those from `base` on tried. */
  ghost predicate Holds(env: Env, b: Book, records: seq<Record>, base: nat) {
    && Core(env, b) && DataOf(b.mapInfo) == RecordMap(records) && b.idCount == |records|
    && (forall id :: id in b.mapInfo ==> (b.mapInfo[id].inTried <==> base <= id))
  }

  lemma RecordMapMore(records: seq<Record>, r: Record)
    ensures RecordMap(records + [r]) == RecordMap(records)[|records| := FromRecord(r)]
  {
  }

  lemma Unlisted(env: Env, b: Book, records: seq<Record>, s: Service)
    requires Core(env, b) && DataOf(b.mapInfo) == RecordMap(records)
    requires forall k :: 0 <= k < |records| ==> records[k].service != s
    ensures s !in b.mapAddr
  {
  }

  lemma EmptyHolds(env: Env, base: nat)
    ensures Holds(env, EMPTY, [], base)
  {
  }

  lemma CreatedHolds(env: Env, b: Book, records: seq<Record>, r: Record, base: nat)
    requires Holds(env, b, records, base) && DistinctServices(records + [r]) && r.lastSuccess >= 0
    ensures var b' := Created(b, FromRecord(r));
            && Core(env, b') && DataOf(b'.mapInfo) == RecordMap(records + [r]) && b'.idCount == |records| + 1
            && (forall id :: id in b'.mapInfo && id < |records| ==> (b'.mapInfo[id].inTried <==> base <= id))
            && b'.vvNew == b.vvNew && b'.vvTried == b.vvTried
            && |records| in b'.mapInfo && b'.mapInfo[|records|] == AddrInfo(FromRecord(r), 0, false, |b.vRandom|)
  {
    assert forall k :: 0 <= k < |records| ==> records[k] == (records + [r])[k];
    assert (records + [r])[|records|] == r;
    Unlisted(env, b, records, r.service);
    hide Core;
    CreatedCore(env, b, FromRecord(r));
    RecordMapMore(records, r);
  }

  lemma {:induction false} NewsHold(env: Env, news: seq<Record>)
    requires DistinctServices(news) && forall k :: 0 <= k < |news| ==> news[k].lastSuccess >= 0
    ensures Holds(env, WithNews(news), news, |news|) && WithNews(news).vvNew == map[]
  {
    hide Core, Created, DataOf, RecordMap;
    if news == [] {
      EmptyHolds(env, 0);
    } else {
      var init, r := news[..|news| - 1], news[|news| - 1];
      NewsHold(env, init);
      assert init + [r] == news;
      CreatedHolds(env, WithNews(init), init, r, |init|);
      InRange(WithNews(news), news);
    }
  }

  lemma InRange(b: Book, records: seq<Record>)
    requires DataOf(b.mapInfo) == RecordMap(records)
    ensures forall id :: id in b.mapInfo <==> 0 <= id < |records|
    ensures forall id :: id in b.mapInfo ==> b.mapInfo[id].data == FromRecord(records[id])
  {
    assert forall id :: id in b.mapInfo <==> id in DataOf(b.mapInfo);
  }

  lemma {:induction false} TriedsHold(env: Env, b: Book, news: seq<Record>, trieds: seq<Record>)
    requires Holds(env, b, news, |news|) && DistinctServices(news + trieds) && DistinctSlots(env, trieds)
    requires forall k :: 0 <= k < |trieds| ==> trieds[k].lastSuccess > 0
    ensures var b' := WithTrieds(env, b, trieds);
            Holds(env, b', news + trieds, |news|) && b'.vvNew == b.vvNew
  {
    hide Holds;
    if trieds == [] {
      assert news + trieds == news;
    } else {
      var init, r := trieds[..|trieds| - 1], trieds[|trieds| - 1];
      PrefixDistinct(env, news, trieds);
      TriedsHold(env, b, news, init);
      TriedStepHolds(env, WithTrieds(env, b, init), news, init, r);
    }
  }

  lemma PrefixDistinct(env: Env, news: seq<Record>, trieds: seq<Record>)
    requires trieds != [] && DistinctServices(news + trieds) && DistinctSlots(env, trieds)
    ensures var init, r := trieds[..|trieds| - 1], trieds[|trieds| - 1];
            && news + init + [r] == news + trieds && DistinctServices(news + init) && DistinctSlots(env, init)
            && (forall k :: 0 <= k < |init| ==> TriedSlot(env, init[k].service) != TriedSlot(env, r.service))
  {
    var init := trieds[..|trieds| - 1];
    assert forall k :: 0 <= k < |news + init| ==> (news + trieds)[k] == (news + init)[k];
    assert forall k :: 0 <= k < |init| ==> init[k] == trieds[k];
  }

  lemma TriedOwner(env: Env, b: Book, news: seq<Record>, trieds: seq<Record>, slot: Slot) returns (k: nat)
    requires Holds(env, b, news + trieds, |news|) && slot in b.vvTried
    ensures k < |trieds| && TriedSlot(env, trieds[k].service) == slot
  {
    hide Core;
    var id := b.vvTried[slot];
    InRange(b, news + trieds);
    TriedHome(env, b, slot);
    k := id - |news|;
    assert (news + trieds)[id] == trieds[k];
  }

  lemma SlotFree(env: Env, b: Book, news: seq<Record>, trieds: seq<Record>, s: Service)
    requires Holds(env, b, news + trieds, |news|)
    requires forall k :: 0 <= k < |trieds| ==> TriedSlot(env, trieds[k].service) != TriedSlot(env, s)
    ensures TriedSlot(env, s) !in b.vvTried
  {
    hide Holds;
    if TriedSlot(env, s) in b.vvTried {
      var k := TriedOwner(env, b, news, trieds, TriedSlot(env, s));
      assert false;
    }
  }

  lemma TriedStepHolds(env: Env, b: Book, news: seq<Record>, trieds: seq<Record>, r: Record)
    requires Holds(env, b, news + trieds, |news|) && DistinctServices(news + trieds + [r]) && r.lastSuccess > 0
    requires forall k :: 0 <= k < |trieds| ==> TriedSlot(env, trieds[k].service) != TriedSlot(env, r.service)
    ensures var b' := WithTriedEntry(env, b, r);
            Holds(env, b', news + trieds + [r], |news|) && b'.vvNew == b.vvNew
  {
    hide Core, DataOf, RecordMap, Created;
    SlotFree(env, b, news, trieds, r.service);
    var b1 := Created(b, FromRecord(r));
    CreatedHolds(env, b, news + trieds, r, |news|);
    WithTriedCore(env, b1, b.idCount);
    InRange(b1, news + trieds + [r]);
  }

  // ---- The references come back ----

  ghost predicate DistinctElements<T>(s: seq<T>) { forall i, j :: 0 <= i < j < |s| ==> s[i] != s[j] }

  /** The occupied slots of a bucket, and of the first buckets. */
  ghost function BucketSlots(vvNew: map<Slot, Id>, bucket: nat, n: nat): seq<Slot> {
    if n == 0 then []
    else
      var before, slot: Slot := BucketSlots(vvNew, bucket, n - 1), (bucket, n - 1);
      if slot in vvNew then before + [slot] else before
  }

  ghost function AllSlots(vvNew: map<Slot, Id>, n: nat): seq<Slot> {
    if n == 0 then [] else AllSlots(vvNew, n - 1) + BucketSlots(vvNew, n - 1, BUCKET_SIZE)
  }

  /** Each reference names its slot's bucket and the index of its slot's entry. */
  ghost predicate Matches(refs: seq<Reference>, slots: seq<Slot>, vvNew: map<Slot, Id>, index: map<Id, int>) {
    && |refs| == |slots|
    && (forall k :: 0 <= k < |slots| ==>
          slots[k] in vvNew && vvNew[slots[k]] in index && refs[k] == (slots[k].0, index[vvNew[slots[k]]]))
  }

  ghost predicate IndexFits(vvNew: map<Slot, Id>, index: map<Id, int>, count: int) {
    forall slot :: slot in vvNew ==> vvNew[slot] in index && 0 <= index[vvNew[slot]] < count
  }

  lemma {:induction false} BucketMatches(vvNew: map<Slot, Id>, index: map<Id, int>, bucket: nat, n: nat, count: int)
    requires IndexFits(vvNew, index, count)
    ensures Matches(BucketReferences(bucket, BucketList(vvNew, index, bucket, n), count), BucketSlots(vvNew, bucket, n), vvNew, index)
  {
    if n != 0 {
      BucketMatches(vvNew, index, bucket, n - 1, count);
      var slot: Slot := (bucket, n - 1);
      if slot in vvNew {
        var list := BucketList(vvNew, index, bucket, n);
        assert list[..|list| - 1] == BucketList(vvNew, index, bucket, n - 1);
      }
    }
  }

  lemma {:induction false} AllMatch(vvNew: map<Slot, Id>, index: map<Id, int>, buckets: seq<seq<int>>, count: int)
    requires IndexFits(vvNew, index, count)
    requires forall n: nat :: n < |buckets| ==> buckets[n] == BucketList(vvNew, index, n, BUCKET_SIZE)
    ensures Matches(References(buckets, count), AllSlots(vvNew, |buckets|), vvNew, index)
  {
    hide BucketReferences, BucketList, BucketSlots;
    if buckets != [] {
      AllMatch(vvNew, index, buckets[..|buckets| - 1], count);
      BucketMatches(vvNew, index, |buckets| - 1, BUCKET_SIZE, count);
    }
  }

  lemma {:induction false} BucketSlotsAre(vvNew: map<Slot, Id>, bucket: nat, n: nat)
    ensures DistinctElements(BucketSlots(vvNew, bucket, n))
    ensures forall slot :: slot in BucketSlots(vvNew, bucket, n) <==> slot in vvNew && slot.0 == bucket && slot.1 < n
  {
    if n != 0 {
      BucketSlotsAre(vvNew, bucket, n - 1);
    }
  }

  lemma {:induction false} AllSlotsAre(vvNew: map<Slot, Id>, n: nat)
    requires forall slot :: slot in vvNew ==> slot.1 < BUCKET_SIZE
    ensures DistinctElements(AllSlots(vvNew, n))
    ensures forall slot :: slot in AllSlots(vvNew, n) <==> slot in vvNew && slot.0 < n
  {
    hide BucketSlots;
    if n != 0 {
      AllSlotsAre(vvNew, n - 1);
      BucketSlotsAre(vvNew, n - 1, BUCKET_SIZE);
      var (s, t) := (AllSlots(vvNew, n - 1), BucketSlots(vvNew, n - 1, BUCKET_SIZE));
      assert forall i :: 0 <= i < |s| ==> s[i] in s;
      assert forall i :: 0 <= i < |t| ==> t[i] in t;
    }
  }

  /** The references put back so far. */
  ghost function Put(vvNew: map<Slot, Id>, index: map<Id, int>, slots: seq<Slot>): map<Slot, Id> {
    map slot | slot in slots && slot in vvNew && vvNew[slot] in index :: index[vvNew[slot]]
  }

  lemma PutMore(vvNew: map<Slot, Id>, index: map<Id, int>, slots: seq<Slot>, slot: Slot)
    requires slot in vvNew && vvNew[slot] in index
    ensures Put(vvNew, index, slots + [slot]) == Put(vvNew, index, slots)[slot := index[vvNew[slot]]]
  {
  }

  /** No two entries that have references share an index. */
  ghost predicate OneToOne(vvNew: map<Slot, Id>, index: map<Id, int>) {
    forall s, t :: (s in vvNew && t in vvNew && vvNew[s] in index && vvNew[t] in index && vvNew[s] != vvNew[t]) ==>
      index[vvNew[s]] != index[vvNew[t]]
  }

  lemma FewRefs(env: Env, b: Book, index: map<Id, int>, slots: seq<Slot>, slot: Slot)
    requires Core(env, b) && slot in b.vvNew && slot !in slots && b.vvNew[slot] in index && OneToOne(b.vvNew, index)
    ensures |Refs(Put(b.vvNew, index, slots), index[b.vvNew[slot]])| < NEW_BUCKETS_PER_ADDRESS
  {
    var id := b.vvNew[slot];
    var some := Refs(Put(b.vvNew, index, slots), index[id]);
    assert some <= Refs(b.vvNew, id);
    assert slot in Refs(b.vvNew, id) && slot !in some;
    CardSubset(some, Refs(b.vvNew, id));
    assert id in RefsOf(b.mapInfo);
  }

  /** A slot's reference, once read, is the position the slot had. */
  lemma SlotAgain(env: Env, b: Book, slot: Slot)
    requires Core(env, b) && slot in b.vvNew
    ensures b.vvNew[slot] in b.mapInfo && slot.0 < NEW_BUCKET_COUNT
    ensures slot.1 == Position(env, b.mapInfo[b.vvNew[slot]].data.service, true, slot.0)
    ensures !b.mapInfo[b.vvNew[slot]].inTried && b.mapInfo[b.vvNew[slot]].refCount > 0
  {
    var id := b.vvNew[slot];
    assert id in DataOf(b.mapInfo) && !TriedOf(b.mapInfo)[id] && id in RefsOf(b.mapInfo);
    assert slot in Refs(b.vvNew, id);
    assert |Refs(b.vvNew, id)| != 0;
  }

  /** What the file's index and records say about the entries with references. */
  ghost predicate Describes(b: Book, records: seq<Record>, base: nat, index: map<Id, int>) {
    && base <= |records| && IndexFits(b.vvNew, index, base) && OneToOne(b.vvNew, index)
    && (forall slot :: slot in b.vvNew && b.vvNew[slot] in b.mapInfo ==>
          records[index[b.vvNew[slot]]].service == b.mapInfo[b.vvNew[slot]].data.service)
  }

  lemma ReferenceStep(env: Env, b: Book, b': Book, records: seq<Record>, base: nat, index: map<Id, int>, slots: seq<Slot>, slot: Slot)
    requires Core(env, b) && Holds(env, b', records, base) && Describes(b, records, base, index)
    requires b'.vvNew == Put(b.vvNew, index, slots) && slot in b.vvNew && slot !in slots
    ensures var b'' := WithReference(env, b', true, (slot.0, index[b.vvNew[slot]]));
            Holds(env, b'', records, base) && b''.vvNew == Put(b.vvNew, index, slots + [slot]) && b''.vvTried == b'.vvTried
  {
    hide Core, DataOf, RecordMap, Put, Refs, OneToOne;
    SlotAgain(env, b, slot);
    FewRefs(env, b, index, slots, slot);
    var k := index[b.vvNew[slot]];
    InRange(b', records);
    RefsNow(env, b', k);
    PutKeys(b.vvNew, index, slots, slot);
    PutMore(b.vvNew, index, slots, slot);
    WithRefCore(env, b', slot, k);
    InRange(WithRef(b', slot, k), records);
  }

  lemma RefsNow(env: Env, b: Book, id: Id)
    requires Core(env, b) && id in b.mapInfo
    ensures b.mapInfo[id].refCount == |Refs(b.vvNew, id)|
  {
    assert id in RefsOf(b.mapInfo);
  }

  lemma PutKeys(vvNew: map<Slot, Id>, index: map<Id, int>, slots: seq<Slot>, slot: Slot)
    requires slot !in slots
    ensures slot !in Put(vvNew, index, slots)
  {
  }

  lemma {:induction false} ReferencesHold(env: Env, b: Book, b': Book, records: seq<Record>, base: nat, index: map<Id, int>,
                                          slots: seq<Slot>, refs: seq<Reference>)
    requires Core(env, b) && Holds(env, b', records, base) && Describes(b, records, base, index) && b'.vvNew == map[]
    requires Matches(refs, slots, b.vvNew, index) && DistinctElements(slots)
    ensures var b'' := WithReferences(env, b', true, refs);
            Holds(env, b'', records, base) && b''.vvNew == Put(b.vvNew, index, slots) && b''.vvTried == b'.vvTried
  {
    hide Holds, Core, Describes, Put, WithReference;
    if refs == [] {
      PutNone(b.vvNew, index);
      assert slots == [];
    } else {
      var last := |refs| - 1;
      var init := slots[..last];
      assert init + [slots[last]] == slots;
      ReferencesHold(env, b, b', records, base, index, init, refs[..last]);
      ReferenceStep(env, b, WithReferences(env, b', true, refs[..last]), records, base, index, init, slots[last]);
    }
  }

  lemma PutNone(vvNew: map<Slot, Id>, index: map<Id, int>)
    ensures Put(vvNew, index, []) == map[]
  {
  }

  // ---- Everything comes back ----

  ghost predicate Describing(b: Book, ids: seq<Id>, base: nat, records: seq<Record>) {
    && IsOrder(b.mapInfo, ids) && Lists(b.mapInfo, ids, records)
    && (forall k :: 0 <= k < |ids| ==> (b.mapInfo[ids[k]].inTried <==> base <= k))
  }

  lemma Whereabouts(m: Infos, ids: seq<Id>, id: Id) returns (k: nat)
    requires IsOrder(m, ids) && id in m
    ensures k < |ids| && ids[k] == id
  {
    assert id in Elements(ids);
    k :| 0 <= k < |ids| && ids[k] == id;
  }

  /** The entries agree: data by the records, places by the tables. */
  lemma SameEntriesAgain(env: Env, b: Book, b': Book, ids: seq<Id>, base: nat, records: seq<Record>, k: nat)
    requires Core(env, b) && Holds(env, b', records, base) && Describing(b, ids, base, records)
    requires SameTable(b.vvNew, b'.vvNew, ids) && k < |ids|
    ensures k in b'.mapInfo && ids[k] in b.mapInfo && SameEntry(b.mapInfo[ids[k]], b'.mapInfo[k])
  {
    hide Core;
    InRange(b', records);
    RefsNow(env, b, ids[k]);
    RefsNow(env, b', k);
    assert Refs(b'.vvNew, k) == Refs(b.vvNew, ids[k]);
  }

  lemma DataAgain(env: Env, b: Book, b': Book, ids: seq<Id>, base: nat, records: seq<Record>, k: Id)
    requires Holds(env, b', records, base) && Describing(b, ids, base, records) && k in b'.mapInfo
    ensures 0 <= k < |ids| && ids[k] in b.mapInfo
    ensures b'.mapInfo[k].data.service == b.mapInfo[ids[k]].data.service && b'.mapInfo[k].inTried == b.mapInfo[ids[k]].inTried
  {
    InRange(b', records);
  }

  lemma IdAgain(env: Env, b: Book, b': Book, ids: seq<Id>, base: nat, records: seq<Record>, id: Id) returns (k: Id)
    requires Holds(env, b', records, base) && Describing(b, ids, base, records) && id in b.mapInfo
    ensures k in b'.mapInfo && 0 <= k < |ids| && ids[k] == id
  {
    InRange(b', records);
    k := Whereabouts(b.mapInfo, ids, id);
  }

  lemma AddrHome(env: Env, b: Book, s: Service)
    requires Core(env, b) && s in b.mapAddr
    ensures b.mapAddr[s] in b.mapInfo && b.mapInfo[b.mapAddr[s]].data.service == s
  {
    assert b.mapAddr[s] in DataOf(b.mapInfo);
  }

  lemma AddrPlace(env: Env, b: Book, id: Id)
    requires Core(env, b) && id in b.mapInfo
    ensures b.mapInfo[id].data.service in b.mapAddr && b.mapAddr[b.mapInfo[id].data.service] == id
  {
    assert id in DataOf(b.mapInfo);
  }

  lemma HoldsCore(env: Env, b: Book, records: seq<Record>, base: nat)
    requires Holds(env, b, records, base)
    ensures Core(env, b)
  {
  }

  lemma SameAddrs(env: Env, b: Book, b': Book, ids: seq<Id>, base: nat, records: seq<Record>)
    requires Core(env, b) && Holds(env, b', records, base) && Describing(b, ids, base, records)
    ensures SameTable(b.mapAddr, b'.mapAddr, ids)
  {
    hide Core, Holds, Describing;
    HoldsCore(env, b', records, base);
    forall s | s in b.mapAddr
      ensures s in b'.mapAddr && 0 <= b'.mapAddr[s] < |ids| && ids[b'.mapAddr[s]] == b.mapAddr[s]
    {
      AddrHome(env, b, s);
      var k := IdAgain(env, b, b', ids, base, records, b.mapAddr[s]);
      DataAgain(env, b, b', ids, base, records, k);
      AddrPlace(env, b', k);
    }
    forall s | s in b'.mapAddr
      ensures s in b.mapAddr
    {
      AddrHome(env, b', s);
      DataAgain(env, b, b', ids, base, records, b'.mapAddr[s]);
      AddrPlace(env, b, ids[b'.mapAddr[s]]);
    }
  }

  lemma SameTried(env: Env, b: Book, b': Book, ids: seq<Id>, base: nat, records: seq<Record>)
    requires Core(env, b) && Holds(env, b', records, base) && Describing(b, ids, base, records)
    ensures SameTable(b.vvTried, b'.vvTried, ids)
  {
    hide Core, Holds, Describing;
    HoldsCore(env, b', records, base);
    forall slot | slot in b.vvTried
      ensures slot in b'.vvTried && 0 <= b'.vvTried[slot] < |ids| && ids[b'.vvTried[slot]] == b.vvTried[slot]
    {
      TriedHome(env, b, slot);
      var k := IdAgain(env, b, b', ids, base, records, b.vvTried[slot]);
      DataAgain(env, b, b', ids, base, records, k);
      TriedPlace(env, b', k);
    }
    forall slot | slot in b'.vvTried
      ensures slot in b.vvTried
    {
      TriedHome(env, b', slot);
      DataAgain(env, b, b', ids, base, records, b'.vvTried[slot]);
      TriedPlace(env, b, ids[b'.vvTried[slot]]);
    }
  }

  lemma TriedHome(env: Env, b: Book, slot: Slot)
    requires Core(env, b) && slot in b.vvTried
    ensures b.vvTried[slot] in b.mapInfo && b.mapInfo[b.vvTried[slot]].inTried
    ensures TriedSlot(env, b.mapInfo[b.vvTried[slot]].data.service) == slot
  {
    var id := b.vvTried[slot];
    assert id in DataOf(b.mapInfo) && TriedOf(b.mapInfo)[id];
  }

  lemma TriedPlace(env: Env, b: Book, id: Id)
    requires Core(env, b) && id in b.mapInfo && b.mapInfo[id].inTried
    ensures TriedSlot(env, b.mapInfo[id].data.service) in b.vvTried
    ensures b.vvTried[TriedSlot(env, b.mapInfo[id].data.service)] == id
  {
    assert id in DataOf(b.mapInfo) && TriedOf(b.mapInfo)[id];
    assert TriedAt(env, DataOf(b.mapInfo)[id], b.vvTried, id);
  }

  lemma RenamedAgain(env: Env, b: Book, b': Book, ids: seq<Id>, base: nat, records: seq<Record>)
    requires Consistent(env, b) && Holds(env, b', records, base) && Describing(b, ids, base, records)
    requires SameTable(b.vvNew, b'.vvNew, ids) && b'.nNew == b.nNew && b'.nTried == |b'.vvTried|
    ensures Renamed(b, b', ids) && Consistent(env, b')
  {
    hide Core, Counted, Settled, SameEntry, Holds, Describing, IsOrder;
    HoldsCore(env, b', records, base);
    KeysAgain(env, b, b', ids, base, records);
    forall k: nat | k < |ids|
      ensures SameEntry(b.mapInfo[ids[k]], b'.mapInfo[k])
    {
      SameEntriesAgain(env, b, b', ids, base, records, k);
    }
    SameAddrs(env, b, b', ids, base, records);
    SameTried(env, b, b', ids, base, records);
    CountedAgain(b, b', ids);
    SettledAgain(b.mapInfo, b'.mapInfo, ids);
  }

  lemma KeysAgain(env: Env, b: Book, b': Book, ids: seq<Id>, base: nat, records: seq<Record>)
    requires Holds(env, b', records, base) && Describing(b, ids, base, records)
    ensures IsOrder(b.mapInfo, ids) && (forall k :: k in b'.mapInfo <==> 0 <= k < |ids|)
    ensures forall k :: 0 <= k < |ids| ==> ids[k] in b.mapInfo
  {
    InRange(b', records);
  }

  lemma CountedAgain(b: Book, b': Book, ids: seq<Id>)
    requires Counted(b) && IsOrder(b.mapInfo, ids) && forall k :: k in b'.mapInfo <==> 0 <= k < |ids|
    requires b'.vvTried.Keys == b.vvTried.Keys && b'.nNew == b.nNew && b'.nTried == |b'.vvTried|
    ensures Counted(b') && b'.nTried == b.nTried
  {
    assert |b.vvTried| == |b.vvTried.Keys| && |b'.vvTried| == |b'.vvTried.Keys|;
    SameCounts(b.mapInfo, b'.mapInfo, ids);
  }

  lemma SettledAgain(m: Infos, m': Infos, ids: seq<Id>)
    requires Settled(m, {}) && (forall k :: k in m' <==> 0 <= k < |ids|)
    requires forall k :: 0 <= k < |ids| ==> ids[k] in m && SameEntry(m[ids[k]], m'[k])
    ensures Settled(m', {})
  {
    forall k | k in m'
      ensures m'[k].inTried || m'[k].refCount > 0
    {
      var id := ids[k];
      assert id in m && id !in {} && SameEntry(m[id], m'[k]);
    }
  }

  lemma SameCounts(m: Infos, m': Infos, ids: seq<Id>)
    requires IsOrder(m, ids) && forall k :: k in m' <==> 0 <= k < |ids|
    ensures |m'| == |m|
  {
    ElementsSize(ids);
    CountUp(m', |ids|);
  }

  lemma {:induction false} CountUp(m: Infos, n: nat)
    requires forall k :: k in m <==> 0 <= k < n
    ensures |m| == n
  {
    if n == 0 {
      assert forall k :: k !in m.Keys;
    } else {
      CountUp(m - {n - 1}, n - 1);
      assert m.Keys == (m - {n - 1}).Keys + {n - 1};
    }
  }

  // ---- What the file says ----

  lemma FileDescribes(env: Env, b: Book, order: seq<Id>, news: seq<Record>, trieds: seq<Record>)
    requires Consistent(env, b) && IsOrder(b.mapInfo, order)
    requires Lists(b.mapInfo, Members(b.mapInfo, order, false), news)
    requires Lists(b.mapInfo, Members(b.mapInfo, order, true), trieds)
    ensures var ids := Members(b.mapInfo, order, false) + Members(b.mapInfo, order, true);
            Describing(b, ids, |news|, news + trieds)
  {
    hide Consistent, Members, EntryOk, TriedAgrees, NewAgrees, RefsAgree;
    MembersAre(b.mapInfo, order, false);
    MembersAre(b.mapInfo, order, true);
    CheckedIff(env, b);
    EntriesSplit(b);
    hide Checked, Elements, Distinct;
    JoinDescribes(b, order, Members(b.mapInfo, order, false), Members(b.mapInfo, order, true), news, trieds);
  }

  lemma JoinDescribes(b: Book, order: seq<Id>, s: seq<Id>, t: seq<Id>, news: seq<Record>, trieds: seq<Record>)
    requires IsOrder(b.mapInfo, order) && Distinct(s) && Distinct(t) && Lists(b.mapInfo, s, news) && Lists(b.mapInfo, t, trieds)
    requires forall id :: id in s <==> id in Elements(order) && id in b.mapInfo && Belongs(b.mapInfo[id], false)
    requires forall id :: id in t <==> id in Elements(order) && id in b.mapInfo && Belongs(b.mapInfo[id], true)
    requires forall id :: id in b.mapInfo ==> (Belongs(b.mapInfo[id], false) <==> !Belongs(b.mapInfo[id], true))
    ensures Describing(b, s + t, |news|, news + trieds)
  {
    Joined(s, t);
    assert Elements(s) + Elements(t) == b.mapInfo.Keys;
    hide Distinct, Elements;
    forall k | 0 <= k < |s + t|
      ensures b.mapInfo[(s + t)[k]].inTried <==> |news| <= k
    {
      assert if k < |s| then (s + t)[k] in s else (s + t)[k] in t;
    }
    ListsJoined(b.mapInfo, s, t, news, trieds);
  }

  lemma ListsJoined(m: Infos, s: seq<Id>, t: seq<Id>, news: seq<Record>, trieds: seq<Record>)
    requires Lists(m, s, news) && Lists(m, t, trieds)
    ensures Lists(m, s + t, news + trieds)
  {
  }

  lemma Joined(s: seq<Id>, t: seq<Id>)
    requires Distinct(s) && Distinct(t) && forall id :: !(id in s && id in t)
    ensures Distinct(s + t) && Elements(s + t) == Elements(s) + Elements(t)
  {
    forall i, j | 0 <= i < j < |s + t|
      ensures (s + t)[i] != (s + t)[j]
    {
      if i < |s| <= j {
        assert s[i] in s && t[j - |s|] in t;
      }
    }
  }

  lemma RecordsApart(env: Env, b: Book, ids: seq<Id>, news: seq<Record>, trieds: seq<Record>)
    requires Core(env, b) && Describing(b, ids, |news|, news + trieds)
    ensures DistinctServices(news + trieds) && DistinctServices(news) && DistinctSlots(env, trieds)
    ensures forall k :: 0 <= k < |news| ==> news[k].lastSuccess >= 0
    ensures forall k :: 0 <= k < |trieds| ==> trieds[k].lastSuccess > 0
  {
    var records := news + trieds;
    forall k | 0 <= k < |records|
      ensures records[k].lastSuccess >= 0 && (k >= |news| ==> records[k].lastSuccess > 0)
    {
      assert ids[k] in DataOf(b.mapInfo) && TriedOf(b.mapInfo)[ids[k]] == b.mapInfo[ids[k]].inTried;
    }
    forall j, k | 0 <= j < k < |records|
      ensures records[j].service != records[k].service
      ensures j >= |news| ==> TriedSlot(env, records[j].service) != TriedSlot(env, records[k].service)
    {
      assert ids[j] in DataOf(b.mapInfo) && ids[k] in DataOf(b.mapInfo);
      if j >= |news| {
        TriedPlace(env, b, ids[j]);
        TriedPlace(env, b, ids[k]);
      }
    }
    assert forall k :: 0 <= k < |news| ==> records[k] == news[k];
    assert forall k :: 0 <= k < |trieds| ==> records[|news| + k] == trieds[k];
  }

  lemma IndexDescribes(env: Env, b: Book, ids: seq<Id>, news: seq<Record>, trieds: seq<Record>, index: map<Id, int>)
    requires Core(env, b) && Describing(b, ids, |news|, news + trieds) && Indexed(index, ids[..|news|])
    ensures Describes(b, news + trieds, |news|, index)
    ensures forall slot :: slot in b.vvNew ==> b.vvNew[slot] in index && ids[index[b.vvNew[slot]]] == b.vvNew[slot]
  {
    hide Core;
    forall slot | slot in b.vvNew
      ensures b.vvNew[slot] in b.mapInfo && b.vvNew[slot] in index && 0 <= index[b.vvNew[slot]] < |news|
      ensures ids[index[b.vvNew[slot]]] == b.vvNew[slot]
    {
      SlotAgain(env, b, slot);
      var k := Whereabouts(b.mapInfo, ids, b.vvNew[slot]);
      assert ids[..|news|][k] == b.vvNew[slot];
    }
  }

  lemma RoundTripHolds(env: Env, b: Book, asmap: nat, order: seq<Id>, file: File, index: map<Id, int>)
    requires Consistent(env, b) && IsOrder(b.mapInfo, order)
    requires Lists(b.mapInfo, Members(b.mapInfo, order, false), file.news)
    requires Lists(b.mapInfo, Members(b.mapInfo, order, true), file.trieds)
    requires Indexed(index, Members(b.mapInfo, order, false))
    requires |file.buckets| == NEW_BUCKET_COUNT && file.asmap == asmap
    requires forall n: nat :: n < NEW_BUCKET_COUNT ==> file.buckets[n] == BucketList(b.vvNew, index, n, BUCKET_SIZE)
    ensures Fits(file) && Consistent(env, Rebuilt(env, asmap, file))
    ensures Renamed(b, Rebuilt(env, asmap, file), Members(b.mapInfo, order, false) + Members(b.mapInfo, order, true))
  {
    hide Core, Counted, Settled, IsOrder, Members, Indexed, BucketList, Lists, Describing, Describes, Holds, Renamed, Matches,
      WithNews, WithTrieds, WithReferences, References, AllSlots, SameTable, Put, IndexFits, DistinctServices, DistinctSlots;
    var (news, trieds) := (file.news, file.trieds);
    var ids := Members(b.mapInfo, order, false) + Members(b.mapInfo, order, true);
    FileDescribes(env, b, order, news, trieds);
    MembersCount(env, b, order);
    ListsSame(b.mapInfo, Members(b.mapInfo, order, false), news);
    ListsSame(b.mapInfo, Members(b.mapInfo, order, true), trieds);
    assert ids[..|news|] == Members(b.mapInfo, order, false);
    RecordsApart(env, b, ids, news, trieds);
    IndexDescribes(env, b, ids, news, trieds, index);
    NewsHold(env, news);
    TriedsHold(env, WithNews(news), news, trieds);
    var b2 := WithTrieds(env, WithNews(news), trieds);
    var slots, refs := AllSlots(b.vvNew, NEW_BUCKET_COUNT), References(file.buckets, |news|);
    DescribesFits(b, news + trieds, |news|, index);
    AllMatch(b.vvNew, index, file.buckets, |news|);
    CoreShape(env, b);
    AllSlotsAre(b.vvNew, NEW_BUCKET_COUNT);
    ReferencesHold(env, b, b2, news + trieds, |news|, index, slots, refs);
    var b3 := WithReferences(env, b2, true, refs);
    PutAll(b.vvNew, index, slots, ids);
    HoldsCounts(env, b3, news + trieds, |news|, |news|, |b2.vvTried|);
    RenamedAgain(env, b, b3.(nNew := |news|, nTried := |b2.vvTried|), ids, |news|, news + trieds);
    TablesFit(env, b);
  }

  lemma ListsSame(m: Infos, ids: seq<Id>, records: seq<Record>)
    requires Lists(m, ids, records)
    ensures |records| == |ids|
  {
  }

  lemma DescribesFits(b: Book, records: seq<Record>, base: nat, index: map<Id, int>)
    requires Describes(b, records, base, index)
    ensures IndexFits(b.vvNew, index, base)
  {
  }

  lemma CoreShape(env: Env, b: Book)
    requires Core(env, b)
    ensures Shaped(b)
  {
  }

  lemma HoldsCounts(env: Env, b: Book, records: seq<Record>, base: nat, nNew: int, nTried: int)
    requires Holds(env, b, records, base)
    ensures Holds(env, b.(nNew := nNew, nTried := nTried), records, base)
  {
    hide Core;
    CoreCounts(env, b, nNew, nTried);
  }

  lemma PutAll(vvNew: map<Slot, Id>, index: map<Id, int>, slots: seq<Slot>, ids: seq<Id>)
    requires forall slot :: slot in vvNew ==> slot in slots && vvNew[slot] in index
    requires forall slot :: slot in vvNew ==> 0 <= index[vvNew[slot]] < |ids| && ids[index[vvNew[slot]]] == vvNew[slot]
    ensures SameTable(vvNew, Put(vvNew, index, slots), ids)
  {
  }

  // ---- The tables cannot hold more entries than the file may list ----

  lemma TablesFit(env: Env, b: Book)
    requires Consistent(env, b)
    ensures b.nNew <= NEW_BUCKET_COUNT * BUCKET_SIZE && b.nTried <= TRIED_BUCKET_COUNT * BUCKET_SIZE
  {
    hide Core;
    CoreShape(env, b);
    GridSize(b.vvNew.Keys, NEW_BUCKET_COUNT);
    GridSize(b.vvTried.Keys, TRIED_BUCKET_COUNT);
    var held := set slot | slot in b.vvNew :: b.vvNew[slot];
    ImageSize(b.vvNew, b.vvNew.Keys);
    CheckedIff(env, b);
    var news := NewCounts(b.mapInfo, b.mapInfo.Keys).Keys;
    forall id | id in news
      ensures id in held
    {
      assert EntryOk(b, id);
      RefsNow(env, b, id);
      assert Refs(b.vvNew, id) != {};
      var slot :| slot in Refs(b.vvNew, id);
    }
    CardSubset(news, held);
  }

  lemma {:induction false} ImageSize(t: map<Slot, Id>, keys: set<Slot>)
    requires keys <= t.Keys
    ensures |set slot | slot in keys :: t[slot]| <= |keys|
    decreases keys
  {
    if keys == {} {
      assert (set slot | slot in keys :: t[slot]) == {};
    } else {
      var key :| key in keys;
      ImageSize(t, keys - {key});
      assert (set slot | slot in keys :: t[slot]) == (set slot | slot in keys - {key} :: t[slot]) + {t[key]};
    }
  }

  lemma {:induction false} GridSize(slots: set<Slot>, n: nat)
    requires forall slot :: slot in slots ==> slot.0 < n && slot.1 < BUCKET_SIZE
    ensures |slots| <= n * BUCKET_SIZE
  {
    if n == 0 {
      assert slots == {};
    } else {
      var row := set slot | slot in slots && slot.0 == n - 1;
      RowSize(row, n - 1, BUCKET_SIZE);
      GridSize(slots - row, n - 1);
      assert slots == (slots - row) + row;
    }
  }

  lemma {:induction false} RowSize(row: set<Slot>, bucket: nat, n: nat)
    requires forall slot :: slot in row ==> slot.0 == bucket && slot.1 < n
    ensures |row| <= n
  {
    if n == 0 {
      assert row == {};
    } else {
      RowSize(row - {(bucket, n - 1)}, bucket, n - 1);
    }
  }
}
